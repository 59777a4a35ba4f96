/** Grouping of executed statements by hash, as both profilers do it: one pass
    over the time-sorted records updates a counting dict and a dict that keeps
    the latest record per hash; then one group per hash is built in dict
    insertion order. Generic over the record type `R` and its key `K`. */
module Aggregate {
  import opened Sorting

  /** One row of a profile. */
  datatype Group<R> = Group(count: nat, individualTime: real, totalTime: real, statement: R)

  /** The row built for a hash seen `count` times whose stored record is `statement`. */
  function MakeGroup<R>(count: nat, statement: R, time: R -> real): (g: Group<R>)
    ensures g.totalTime == g.count as real * g.individualTime
    ensures g.count == count && g.statement == statement && g.individualTime == time(statement)
  {
    Group(count, time(statement), count as real * time(statement), statement)
  }

  /** Sort key of the dedup-focused ordering. */
  function CountKey<R>(g: Group<R>): real { g.count as real }

  /** Sort key of the cost-focused ordering. */
  function TotalTimeKey<R>(g: Group<R>): real { g.totalTime }

  function CountOf<R>(g: Group<R>): int { g.count }

  /** Number of records in `rs` whose key is `k`. */
  function Occurrences<R, K(==)>(rs: seq<R>, key: R -> K, k: K): nat
    decreases |rs|
  {
    if rs == [] then 0
    else Occurrences(rs[..|rs| - 1], key, k) + (if key(rs[|rs| - 1]) == k then 1 else 0)
  }

  /** The keys of `rs` without repetition, in order of first occurrence: the
      insertion order of a Python dict filled by one pass over `rs`. */
  function KeysInOrder<R, K(==)>(rs: seq<R>, key: R -> K): seq<K>
    decreases |rs|
  {
    if rs == [] then []
    else
      var ks := KeysInOrder(rs[..|rs| - 1], key);
      var k := key(rs[|rs| - 1]);
      if k in ks then ks else ks + [k]
  }

  /** The last record of `rs` with key `k`: what `statements[k] = s` leaves behind. */
  function LastOf<R, K(==)>(rs: seq<R>, key: R -> K, k: K): R
    requires Occurrences(rs, key, k) > 0
    decreases |rs|
  {
    if key(rs[|rs| - 1]) == k then rs[|rs| - 1] else LastOf(rs[..|rs| - 1], key, k)
  }

  /** The rows for the keys `ks`, in that order. */
  function GroupsFor<R, K(==)>(rs: seq<R>, key: R -> K, time: R -> real, ks: seq<K>): seq<Group<R>>
    requires forall k :: k in ks ==> Occurrences(rs, key, k) > 0
    decreases |ks|
  {
    if ks == [] then []
    else
      var k := ks[|ks| - 1];
      GroupsFor(rs, key, time, ks[..|ks| - 1]) + [MakeGroup(Occurrences(rs, key, k), LastOf(rs, key, k), time)]
  }

  /** The unsorted profile of `rs`: one row per hash, in first-occurrence order. */
  function Groups<R, K(==)>(rs: seq<R>, key: R -> K, time: R -> real): seq<Group<R>> {
    KeysInOrderOccur(rs, key);
    GroupsFor(rs, key, time, KeysInOrder(rs, key))
  }

  /** The key of a group is the key of its stored record. */
  function GroupKey<R, K>(key: R -> K): Group<R> -> K {
    (g: Group<R>) => key(g.statement)
  }

  /** A key is listed exactly when it occurs, and it is listed once. */
  lemma {:induction false} KeysInOrderOccur<R, K>(rs: seq<R>, key: R -> K)
    ensures forall k :: k in KeysInOrder(rs, key) ==> Occurrences(rs, key, k) > 0
    ensures forall k :: Occurrences(rs, key, k) > 0 ==> k in KeysInOrder(rs, key)
    ensures forall i, j :: 0 <= i < j < |KeysInOrder(rs, key)| ==> KeysInOrder(rs, key)[i] != KeysInOrder(rs, key)[j]
    decreases |rs|
  {
    if rs != [] {
      KeysInOrderOccur(rs[..|rs| - 1], key);
    }
  }

  lemma KeyListed<R, K>(rs: seq<R>, key: R -> K, k: K)
    requires Occurrences(rs, key, k) > 0
    ensures k in KeysInOrder(rs, key)
  {
  }

  /** The stored record is one of the records, and it has the key. */
  lemma {:induction false} LastOfMember<R, K>(rs: seq<R>, key: R -> K, k: K)
    requires Occurrences(rs, key, k) > 0
    ensures LastOf(rs, key, k) in rs && key(LastOf(rs, key, k)) == k
    decreases |rs|
  {
    if key(rs[|rs| - 1]) != k {
      LastOfMember(rs[..|rs| - 1], key, k);
    }
  }

  /** With the records sorted by ascending time, the stored record of a hash is
      the slowest of the records with that hash. */
  lemma {:induction false} LastOfSlowest<R, K>(rs: seq<R>, key: R -> K, time: R -> real, k: K, r: R)
    requires SortedBy(rs, time)
    requires r in rs && key(r) == k
    ensures Occurrences(rs, key, k) > 0
    ensures time(r) <= time(LastOf(rs, key, k))
    decreases |rs|
  {
    var init, last := rs[..|rs| - 1], rs[|rs| - 1];
    assert rs == init + [last];
    if r == last {
      assert key(last) == k;
    } else {
      assert r in init;
      LastOfSlowest(init, key, time, k, r);
      if key(last) == k {
        var i :| 0 <= i < |init| && init[i] == r;
        assert rs[i] == r;
      }
    }
  }

  /** The rows for `ks` are exactly `MakeGroup` of each key's count and stored record. */
  lemma {:induction false} GroupsForAt<R, K>(rs: seq<R>, key: R -> K, time: R -> real, ks: seq<K>)
    requires forall k :: k in ks ==> Occurrences(rs, key, k) > 0
    ensures |GroupsFor(rs, key, time, ks)| == |ks|
    ensures forall i :: 0 <= i < |ks| ==>
      GroupsFor(rs, key, time, ks)[i] == MakeGroup(Occurrences(rs, key, ks[i]), LastOf(rs, key, ks[i]), time)
    decreases |ks|
  {
    if ks != [] {
      GroupsForAt(rs, key, time, ks[..|ks| - 1]);
    }
  }

  /** Appending a record adds one to the total count of the rows for `ks`
      exactly when its key is among `ks`. */
  lemma {:induction false} CountsAfterAppend<R, K>(rs: seq<R>, x: R, key: R -> K, time: R -> real, ks: seq<K>)
    requires forall k :: k in ks ==> Occurrences(rs, key, k) > 0
    requires forall i, j :: 0 <= i < j < |ks| ==> ks[i] != ks[j]
    ensures forall k :: k in ks ==> Occurrences(rs + [x], key, k) > 0
    ensures SumOf(GroupsFor(rs + [x], key, time, ks), CountOf)
         == SumOf(GroupsFor(rs, key, time, ks), CountOf) + (if key(x) in ks then 1 else 0)
    decreases |ks|
  {
    assert (rs + [x])[..|rs + [x]| - 1] == rs;
    if ks != [] {
      var init, k := ks[..|ks| - 1], ks[|ks| - 1];
      CountsAfterAppend(rs, x, key, time, init);
      assert k !in init;
      assert key(x) in ks <==> key(x) in init || key(x) == k;
    }
  }

  /** Conservation: the counts of the rows add up to the number of records. */
  lemma {:induction false} GroupsCountSum<R, K>(rs: seq<R>, key: R -> K, time: R -> real)
    ensures SumOf(Groups(rs, key, time), CountOf) == |rs|
    decreases |rs|
  {
    KeysInOrderOccur(rs, key);
    if rs != [] {
      var init, x := rs[..|rs| - 1], rs[|rs| - 1];
      assert rs == init + [x];
      var ks, kx := KeysInOrder(init, key), key(x);
      GroupsCountSum(init, key, time);
      KeysInOrderOccur(init, key);
      CountsAfterAppend(init, x, key, time, ks);
      if kx in ks {
        assert KeysInOrder(rs, key) == ks;
      } else {
        var ks' := ks + [kx];
        assert KeysInOrder(rs, key) == ks';
        assert ks'[..|ks'| - 1] == ks;
        assert Occurrences(init, key, kx) == 0;
        assert Occurrences(rs, key, kx) == 1;
        var gs := GroupsFor(rs, key, time, ks);
        var g := MakeGroup(1, LastOf(rs, key, kx), time);
        assert GroupsFor(rs, key, time, ks') == gs + [g];
        assert (gs + [g])[..|gs + [g]| - 1] == gs;
      }
    }
  }

  /** The counts of the rows add up to the number of records. */
  ghost predicate CountsConserved<R>(gs: seq<Group<R>>, rs: seq<R>) {
    SumOf(gs, CountOf) == |rs|
  }

  /** Exactly one row per hash: no two rows share one, and every record's has a row. */
  ghost predicate OneRowPerKey<R, K>(gs: seq<Group<R>>, rs: seq<R>, key: R -> K) {
    && DistinctBy(gs, GroupKey(key))
    && forall r :: r in rs ==> exists g :: g in gs && key(g.statement) == key(r)
  }

  /** Each row counts the records with its hash and stores one of them,
      reporting that record's time and count times that time as the total. */
  ghost predicate RowsFaithful<R, K>(gs: seq<Group<R>>, rs: seq<R>, key: R -> K, time: R -> real) {
    forall g :: g in gs ==>
      && g.statement in rs
      && g.count == Occurrences(rs, key, key(g.statement)) > 0
      && g.individualTime == time(g.statement)
      && g.totalTime == g.count as real * g.individualTime
  }

  /** With the records in ascending time order, each row reports its slowest record. */
  ghost predicate SlowestStored<R, K>(gs: seq<Group<R>>, rs: seq<R>, key: R -> K, time: R -> real) {
    SortedBy(rs, time) ==>
      forall g, r :: g in gs && r in rs && key(r) == key(g.statement) ==> time(r) <= g.individualTime
  }

  /** Everything the source promises about its profile `gs` of the records `rs`. */
  ghost predicate ProfileOf<R, K>(gs: seq<Group<R>>, rs: seq<R>, key: R -> K, time: R -> real) {
    && CountsConserved(gs, rs)
    && OneRowPerKey(gs, rs, key)
    && RowsFaithful(gs, rs, key, time)
    && SlowestStored(gs, rs, key, time)
  }

  /** Each row of `Groups` is `MakeGroup` of one occurring key. */
  lemma GroupsRows<R, K>(rs: seq<R>, key: R -> K, time: R -> real, g: Group<R>)
    requires g in Groups(rs, key, time)
    ensures Occurrences(rs, key, key(g.statement)) > 0
    ensures g == MakeGroup(Occurrences(rs, key, key(g.statement)), LastOf(rs, key, key(g.statement)), time)
  {
    var ks := KeysInOrder(rs, key);
    var gs := Groups(rs, key, time);
    KeysInOrderOccur(rs, key);
    GroupsForAt(rs, key, time, ks);
    var n :| 0 <= n < |gs| && gs[n] == g;
    LastOfMember(rs, key, ks[n]);
  }

  lemma GroupsDistinct<R, K>(rs: seq<R>, key: R -> K, time: R -> real)
    ensures DistinctBy(Groups(rs, key, time), GroupKey(key))
  {
    var ks := KeysInOrder(rs, key);
    var gs := Groups(rs, key, time);
    KeysInOrderOccur(rs, key);
    GroupsForAt(rs, key, time, ks);
    forall i, j | 0 <= i < j < |gs| ensures GroupKey(key)(gs[i]) != GroupKey(key)(gs[j]) {
      LastOfMember(rs, key, ks[i]);
      LastOfMember(rs, key, ks[j]);
    }
  }

  lemma GroupsCover<R, K>(rs: seq<R>, key: R -> K, time: R -> real)
    ensures forall r :: r in rs ==> exists g :: g in Groups(rs, key, time) && key(g.statement) == key(r)
  {
    var ks := KeysInOrder(rs, key);
    var gs := Groups(rs, key, time);
    KeysInOrderOccur(rs, key);
    GroupsForAt(rs, key, time, ks);
    forall r | r in rs ensures exists g :: g in gs && key(g.statement) == key(r) {
      var i :| 0 <= i < |rs| && rs[i] == r;
      OccursWhenMember(rs, key, i);
      KeyListed(rs, key, key(r));
      var n :| 0 <= n < |ks| && ks[n] == key(r);
      LastOfMember(rs, key, ks[n]);
      assert gs[n] in gs;
    }
  }

  lemma GroupsFaithful<R, K>(rs: seq<R>, key: R -> K, time: R -> real)
    ensures RowsFaithful(Groups(rs, key, time), rs, key, time)
  {
    forall g | g in Groups(rs, key, time)
      ensures g.statement in rs && g.count == Occurrences(rs, key, key(g.statement)) > 0
      ensures g.individualTime == time(g.statement)
      ensures g.totalTime == g.count as real * g.individualTime
    {
      GroupsRows(rs, key, time, g);
      LastOfMember(rs, key, key(g.statement));
    }
  }

  lemma GroupsSlowest<R, K>(rs: seq<R>, key: R -> K, time: R -> real)
    ensures SlowestStored(Groups(rs, key, time), rs, key, time)
  {
    if SortedBy(rs, time) {
      forall g, r | g in Groups(rs, key, time) && r in rs && key(r) == key(g.statement)
        ensures time(r) <= g.individualTime
      {
        GroupsRows(rs, key, time, g);
        LastOfSlowest(rs, key, time, key(g.statement), r);
      }
    }
  }

  /** `Groups` satisfies all of the above. */
  lemma GroupsCorrect<R, K>(rs: seq<R>, key: R -> K, time: R -> real)
    ensures ProfileOf(Groups(rs, key, time), rs, key, time)
  {
    GroupsCountSum(rs, key, time);
    GroupsDistinct(rs, key, time);
    GroupsCover(rs, key, time);
    GroupsFaithful(rs, key, time);
    GroupsSlowest(rs, key, time);
  }

  /** The properties that speak only of which rows there are survive any
      reordering of the rows. */
  lemma SameRows<R, K>(gs: seq<Group<R>>, hs: seq<Group<R>>, rs: seq<R>, key: R -> K, time: R -> real)
    requires forall g :: g in hs ==> g in gs
    requires forall g :: g in gs ==> g in hs
    requires RowsFaithful(gs, rs, key, time) && SlowestStored(gs, rs, key, time)
    requires forall r :: r in rs ==> exists g :: g in gs && key(g.statement) == key(r)
    ensures RowsFaithful(hs, rs, key, time) && SlowestStored(hs, rs, key, time)
    ensures forall r :: r in rs ==> exists g :: g in hs && key(g.statement) == key(r)
  {
    SameRowsFaithful(gs, hs, rs, key, time);
    SameRowsSlowest(gs, hs, rs, key, time);
    SameRowsCover(gs, hs, rs, key);
  }

  lemma SameRowsFaithful<R, K>(gs: seq<Group<R>>, hs: seq<Group<R>>, rs: seq<R>, key: R -> K, time: R -> real)
    requires forall g :: g in hs ==> g in gs
    requires RowsFaithful(gs, rs, key, time)
    ensures RowsFaithful(hs, rs, key, time)
  {
  }

  lemma SameRowsSlowest<R, K>(gs: seq<Group<R>>, hs: seq<Group<R>>, rs: seq<R>, key: R -> K, time: R -> real)
    requires forall g :: g in hs ==> g in gs
    requires SlowestStored(gs, rs, key, time)
    ensures SlowestStored(hs, rs, key, time)
  {
  }

  lemma SameRowsCover<R, K>(gs: seq<Group<R>>, hs: seq<Group<R>>, rs: seq<R>, key: R -> K)
    requires forall g :: g in gs ==> g in hs
    requires forall r :: r in rs ==> exists g :: g in gs && key(g.statement) == key(r)
    ensures forall r :: r in rs ==> exists g :: g in hs && key(g.statement) == key(r)
  {
  }

  /** Extending the scanned prefix by one record. */
  lemma PrefixStep<R, K>(rs: seq<R>, key: R -> K, i: nat, k: K)
    requires i < |rs|
    ensures Occurrences(rs[..i + 1], key, k) == Occurrences(rs[..i], key, k) + (if key(rs[i]) == k then 1 else 0)
    ensures Occurrences(rs[..i + 1], key, k) > 0 ==>
      LastOf(rs[..i + 1], key, k) == if key(rs[i]) == k then rs[i] else LastOf(rs[..i], key, k)
  {
    assert rs[..i + 1][..i] == rs[..i];
  }

  /** A record's key occurs. */
  lemma {:induction false} OccursWhenMember<R, K>(rs: seq<R>, key: R -> K, i: nat)
    requires i < |rs|
    ensures Occurrences(rs, key, key(rs[i])) > 0
    decreases |rs|
  {
    if i < |rs| - 1 {
      OccursWhenMember(rs[..|rs| - 1], key, i);
    }
  }

  /** Sorting the rows, by any key, keeps every property of the profile and
      orders it by that key. */
  lemma RankedGroupsCorrect<R, K>(rs: seq<R>, key: R -> K, time: R -> real, rank: Group<R> -> real)
    ensures ProfileOf(SortBy(Groups(rs, key, time), rank), rs, key, time)
    ensures SortedBy(SortBy(Groups(rs, key, time), rank), rank)
  {
    var gs := Groups(rs, key, time);
    var hs := SortBy(gs, rank);
    GroupsCorrect(rs, key, time);
    SortByMembers(gs, rank);
    SameRows(gs, hs, rs, key, time);
    SortBySorted(gs, rank);
    SortBySum(gs, rank, CountOf);
    SortByDistinct(gs, rank, GroupKey(key));
  }

  /** The loops of the source: count and remember the latest record per key in
      one pass, then build one row per key in dict insertion order. */
  method Deduplicate<R, K(==)>(rs: seq<R>, key: R -> K, time: R -> real) returns (profile: seq<Group<R>>)
    ensures profile == Groups(rs, key, time)
  {
    var results: map<K, nat> := map[];
    var statements: map<K, R> := map[];
    var order: seq<K> := [];
    for i := 0 to |rs|
      invariant order == KeysInOrder(rs[..i], key)
      invariant forall k :: k in results ==> Occurrences(rs[..i], key, k) > 0
      invariant forall k :: Occurrences(rs[..i], key, k) > 0 ==> k in results
      invariant statements.Keys == results.Keys
      invariant forall k :: k in results ==>
        results[k] == Occurrences(rs[..i], key, k) && statements[k] == LastOf(rs[..i], key, k)
    {
      KeysInOrderOccur(rs[..i], key);
      assert rs[..i + 1][..i] == rs[..i];
      var k := key(rs[i]);
      if k !in results {
        order := order + [k];
      }
      ghost var before := results;
      var c := if k in results then results[k] else 0;
      assert c == Occurrences(rs[..i], key, k) by {
        if k !in before {
          assert !(Occurrences(rs[..i], key, k) > 0);
        }
      }
      results := results[k := c + 1];
      statements := statements[k := rs[i]];
      forall k' | k' in results
        ensures results[k'] == Occurrences(rs[..i + 1], key, k') > 0
        ensures statements[k'] == LastOf(rs[..i + 1], key, k')
      {
        PrefixStep(rs, key, i, k');
        if k' != k {
          assert k' in before;
        }
      }
      forall k' | Occurrences(rs[..i + 1], key, k') > 0 ensures k' in results {
        PrefixStep(rs, key, i, k');
      }
    }
    assert rs[..|rs|] == rs;
    KeysInOrderOccur(rs, key);
    profile := [];
    for j := 0 to |order|
      invariant profile == GroupsFor(rs, key, time, order[..j])
    {
      assert order[..j + 1][..j] == order[..j];
      var k := order[j];
      var statement := statements[k];
      profile := profile + [MakeGroup(results[k], statement, time)];
    }
    assert order[..|order|] == order;
  }
}

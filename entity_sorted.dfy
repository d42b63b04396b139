/**
 * The sorted entity adapter of staticfiles/ang/common-es5.js (the factory
 * chosen when a `sortComparer` is configured).  New and updated records are
 * sorted with the comparer and merged into the id list by a two-cursor merge
 * (the helper `h`); removals are delegated to the unsorted adapter.
 */
module SortedAdapter {
  import opened JsValues
  import opened EntityState
  import opened UnsortedAdapter

  /** A `sortComparer`: negative, zero or positive like `Array.prototype.sort` expects. */
  type Comparer = (Record, Record) -> int

  /** `cmp(a, b) > 0` means that `b` may go before `a`. */
  ghost predicate Total(cmp: Comparer)
  {
    forall a, b :: cmp(a, b) > 0 ==> cmp(b, a) <= 0
  }

  ghost predicate Transitive(cmp: Comparer)
  {
    forall a, b, c :: cmp(a, b) <= 0 && cmp(b, c) <= 0 ==> cmp(a, c) <= 0
  }

  /** Invariant I3 on a sequence of records: no adjacent pair is descending. */
  ghost predicate Sorted(cmp: Comparer, rs: seq<Record>)
  {
    forall i :: 0 <= i < |rs| - 1 ==> cmp(rs[i], rs[i + 1]) <= 0
  }

  /** Invariant I3 on a collection: its records, in ids order, are sorted. */
  ghost predicate SortedIds(cmp: Comparer, c: Collection)
  {
    Sorted(cmp, RecordsOf(c.ids, c.entities))
  }

  // ---------------------------------------------------------------------------
  // `models.sort(cmp)`, as a stable insertion sort
  // ---------------------------------------------------------------------------

  /** Insert `x` after every trailing element that does not compare above it. */
  function Insert(cmp: Comparer, x: Record, s: seq<Record>): (r: seq<Record>)
    ensures |r| == |s| + 1
    ensures multiset(r) == multiset(s) + multiset{x}
    decreases |s|
  {
    if s == [] then [x]
    else if cmp(s[|s| - 1], x) > 0 then
      assert s == s[..|s| - 1] + [s[|s| - 1]];
      Insert(cmp, x, s[..|s| - 1]) + [s[|s| - 1]]
    else s + [x]
  }

  /** The inserted record ends up last, or the last record stays last. */
  lemma InsertLast(cmp: Comparer, x: Record, s: seq<Record>)
    requires s != []
    ensures var r := Insert(cmp, x, s); r[|r| - 1] == x || r[|r| - 1] == s[|s| - 1]
  {
  }

  function SortBy(cmp: Comparer, ms: seq<Record>): (r: seq<Record>)
    ensures |r| == |ms|
    ensures multiset(r) == multiset(ms)
    decreases |ms|
  {
    if ms == [] then []
    else
      assert ms == ms[..|ms| - 1] + [ms[|ms| - 1]];
      Insert(cmp, ms[|ms| - 1], SortBy(cmp, ms[..|ms| - 1]))
  }

  // ---------------------------------------------------------------------------
  // h: merge sorted models into ids, then store them
  // ---------------------------------------------------------------------------

  /**
   * The id list the two-cursor loop of `h` builds: a model goes first when it
   * does not compare above the record of the next id; once one side runs out
   * the other side's remainder follows.
   */
  function MergeIds(selectId: Record -> Key, cmp: Comparer, ms: seq<Record>, ids: seq<Key>, entities: map<Key, Record>)
    : (r: seq<Key>)
    ensures |r| == |ms| + |ids|
    decreases |ms| + |ids|
  {
    if ms == [] then ids
    else if ids == [] then KeysOf(selectId, ms)
    else if cmp(ms[0], Lookup(entities, ids[0])) <= 0 then
      [selectId(ms[0])] + MergeIds(selectId, cmp, ms[1..], ids, entities)
    else
      [ids[0]] + MergeIds(selectId, cmp, ms, ids[1..], entities)
  }

  /** The ids of a batch without its first record. */
  lemma KeySetTail(selectId: Record -> Key, ms: seq<Record>)
    requires ms != []
    ensures KeySet(selectId, ms) == {selectId(ms[0])} + KeySet(selectId, ms[1..])
  {
    forall k | k in KeySet(selectId, ms) ensures k in {selectId(ms[0])} + KeySet(selectId, ms[1..]) {
      var j :| 0 <= j < |ms| && selectId(ms[j]) == k;
      if j > 0 {
        assert ms[1..][j - 1] == ms[j];
      }
    }
    forall k | k in KeySet(selectId, ms[1..]) ensures k in KeySet(selectId, ms) {
      var j :| 0 <= j < |ms[1..]| && selectId(ms[1..][j]) == k;
      assert ms[j + 1] == ms[1..][j];
    }
  }

  /** The merge holds the old ids and the models' ids, and nothing else. */
  lemma {:induction false} MergeIdsElems(selectId: Record -> Key, cmp: Comparer, ms: seq<Record>, ids: seq<Key>,
                                         entities: map<Key, Record>)
    ensures forall k :: k in MergeIds(selectId, cmp, ms, ids, entities) <==> k in ids || k in KeySet(selectId, ms)
    decreases |ms| + |ids|
  {
    if ms == [] {
    } else if ids == [] {
      forall k | k in KeySet(selectId, ms) ensures k in KeysOf(selectId, ms) {
        var j :| 0 <= j < |ms| && selectId(ms[j]) == k;
        assert KeysOf(selectId, ms)[j] == k;
      }
    } else {
      KeySetTail(selectId, ms);
      if cmp(ms[0], Lookup(entities, ids[0])) <= 0 {
        MergeIdsElems(selectId, cmp, ms[1..], ids, entities);
      } else {
        MergeIdsElems(selectId, cmp, ms, ids[1..], entities);
        assert forall k :: k in ids <==> k == ids[0] || k in ids[1..] by {
          assert ids == [ids[0]] + ids[1..];
        }
      }
    }
  }

  /** `models.forEach(m => entities[selectId(m)] = m)`. */
  function PutAll(selectId: Record -> Key, ms: seq<Record>, entities: map<Key, Record>): (r: map<Key, Record>)
    ensures r.Keys == entities.Keys + KeySet(selectId, ms)
    decreases |ms|
  {
    if ms == [] then entities
    else
      assert KeySet(selectId, ms) == KeySet(selectId, ms[..|ms| - 1]) + {selectId(ms[|ms| - 1])} by {
        assert forall j :: 0 <= j < |ms| - 1 ==> ms[..|ms| - 1][j] == ms[j];
      }
      PutAll(selectId, ms[..|ms| - 1], entities)[selectId(ms[|ms| - 1]) := ms[|ms| - 1]]
  }

  function MergeSpec(selectId: Record -> Key, cmp: Comparer, models: seq<Record>, c: Collection): Collection
  {
    var ms := SortBy(cmp, models);
    Collection(MergeIds(selectId, cmp, ms, c.ids, c.entities), PutAll(selectId, ms, c.entities))
  }

  /** One step of the two-cursor loop, read off the merge of the remainders. */
  lemma MergeIdsStep(selectId: Record -> Key, cmp: Comparer, ms: seq<Record>, ids: seq<Key>, entities: map<Key, Record>,
                     o: int, u: int)
    requires 0 <= o < |ms| && 0 <= u < |ids|
    ensures cmp(ms[o], Lookup(entities, ids[u])) <= 0 ==>
              MergeIds(selectId, cmp, ms[o..], ids[u..], entities)
              == [selectId(ms[o])] + MergeIds(selectId, cmp, ms[o + 1..], ids[u..], entities)
    ensures cmp(ms[o], Lookup(entities, ids[u])) > 0 ==>
              MergeIds(selectId, cmp, ms[o..], ids[u..], entities)
              == [ids[u]] + MergeIds(selectId, cmp, ms[o..], ids[u + 1..], entities)
  {
    assert ms[o..][1..] == ms[o + 1..] && ids[u..][1..] == ids[u + 1..];
  }

  /** Once one side has run out, the merge of the remainders is the other side. */
  lemma MergeIdsRest(selectId: Record -> Key, cmp: Comparer, ms: seq<Record>, ids: seq<Key>, entities: map<Key, Record>,
                     o: int, u: int)
    requires 0 <= o <= |ms| && 0 <= u <= |ids| && (o == |ms| || u == |ids|)
    ensures MergeIds(selectId, cmp, ms[o..], ids[u..], entities)
            == if o < |ms| then KeysOf(selectId, ms[o..]) else ids[u..]
  {
  }

  lemma SnocConcat(a: seq<Key>, x: Key, b: seq<Key>)
    ensures (a + [x]) + b == a + ([x] + b)
  {
  }

  /** The two-cursor loop of `h`, followed by the concatenation of the remainder. */
  method MergeLoop(selectId: Record -> Key, cmp: Comparer, ms: seq<Record>, ids: seq<Key>, entities: map<Key, Record>)
    returns (r: seq<Key>)
    ensures r == MergeIds(selectId, cmp, ms, ids, entities)
  {
    var merged: seq<Key> := [];
    var o := 0;
    var u := 0;
    while o < |ms| && u < |ids|
      invariant 0 <= o <= |ms| && 0 <= u <= |ids|
      invariant merged + MergeIds(selectId, cmp, ms[o..], ids[u..], entities) == MergeIds(selectId, cmp, ms, ids, entities)
      decreases |ms| - o + |ids| - u
    {
      var m := ms[o];
      var f := ids[u];
      MergeIdsStep(selectId, cmp, ms, ids, entities, o, u);
      ghost var prefix := merged;
      var next: Key;
      if cmp(m, Lookup(entities, f)) <= 0 {
        next := selectId(m);
        o := o + 1;
      } else {
        next := f;
        u := u + 1;
      }
      merged := merged + [next];
      SnocConcat(prefix, next, MergeIds(selectId, cmp, ms[o..], ids[u..], entities));
    }
    MergeIdsRest(selectId, cmp, ms, ids, entities, o, u);
    r := merged + if o < |ms| then KeysOf(selectId, ms[o..]) else ids[u..];
  }

  /** Storing one more model of the sorted batch. */
  lemma PutAllSnoc(selectId: Record -> Key, ms: seq<Record>, j: int, entities: map<Key, Record>)
    requires 0 <= j < |ms|
    ensures PutAll(selectId, ms[..j + 1], entities) == PutAll(selectId, ms[..j], entities)[selectId(ms[j]) := ms[j]]
  {
    assert ms[..j + 1][..j] == ms[..j];
  }

  method Merge(selectId: Record -> Key, cmp: Comparer, models: seq<Record>, d: Draft)
    modifies d
    ensures d.Value() == MergeSpec(selectId, cmp, models, old(d.Value()))
  {
    var ms := SortBy(cmp, models);
    d.ids := MergeLoop(selectId, cmp, ms, d.ids, d.entities);
    ghost var before := d.entities;
    ghost var merged := d.ids;
    for j := 0 to |ms|
      invariant d.entities == PutAll(selectId, ms[..j], before)
      invariant d.ids == merged
    {
      PutAllSnoc(selectId, ms, j, before);
      d.entities := d.entities[selectId(ms[j]) := ms[j]];
    }
    assert ms[..|ms|] == ms;
  }

  // ---------------------------------------------------------------------------
  // The reference merge on records, and what the merge guarantees
  // ---------------------------------------------------------------------------

  /** The classic merge of two record sequences, taking from `xs` on ties. */
  function MergeRecs(cmp: Comparer, xs: seq<Record>, ys: seq<Record>): (r: seq<Record>)
    ensures |r| == |xs| + |ys|
    ensures multiset(r) == multiset(xs) + multiset(ys)
    ensures |r| > 0 ==> (|xs| > 0 && r[0] == xs[0]) || (|ys| > 0 && r[0] == ys[0])
    decreases |xs| + |ys|
  {
    if xs == [] then ys
    else if ys == [] then xs
    else if cmp(xs[0], ys[0]) <= 0 then
      assert xs == [xs[0]] + xs[1..];
      [xs[0]] + MergeRecs(cmp, xs[1..], ys)
    else
      assert ys == [ys[0]] + ys[1..];
      [ys[0]] + MergeRecs(cmp, xs, ys[1..])
  }

  /** Merging two sorted sequences gives a sorted sequence. */
  lemma {:induction false} MergeRecsSorted(cmp: Comparer, xs: seq<Record>, ys: seq<Record>)
    requires Total(cmp)
    requires Sorted(cmp, xs) && Sorted(cmp, ys)
    ensures Sorted(cmp, MergeRecs(cmp, xs, ys))
    decreases |xs| + |ys|
  {
    if xs != [] && ys != [] {
      if cmp(xs[0], ys[0]) <= 0 {
        MergeRecsSorted(cmp, xs[1..], ys);
      } else {
        MergeRecsSorted(cmp, xs, ys[1..]);
      }
    }
  }

  /** Inserting into a sorted sequence keeps it sorted. */
  lemma {:induction false} InsertSorted(cmp: Comparer, x: Record, s: seq<Record>)
    requires Total(cmp) && Sorted(cmp, s)
    ensures Sorted(cmp, Insert(cmp, x, s))
    decreases |s|
  {
    if s != [] && cmp(s[|s| - 1], x) > 0 {
      InsertSorted(cmp, x, s[..|s| - 1]);
      InsertSortedStep(cmp, x, s);
    }
  }

  /** Inserting before the last element keeps the order, given that the front came out sorted. */
  lemma InsertSortedStep(cmp: Comparer, x: Record, s: seq<Record>)
    requires Total(cmp) && Sorted(cmp, s) && s != [] && cmp(s[|s| - 1], x) > 0
    requires Sorted(cmp, Insert(cmp, x, s[..|s| - 1]))
    ensures Sorted(cmp, Insert(cmp, x, s))
  {
    var front := s[..|s| - 1];
    var last := s[|s| - 1];
    var r := Insert(cmp, x, front);
    assert Insert(cmp, x, s) == r + [last];
    if front != [] {
      InsertLast(cmp, x, front);
      assert front[|front| - 1] == s[|s| - 2];
    }
    SortedSnoc(cmp, r, last);
  }

  /** Appending a record that does not compare below the last one keeps a sequence sorted. */
  lemma SortedSnoc(cmp: Comparer, rs: seq<Record>, y: Record)
    requires Sorted(cmp, rs) && (rs != [] ==> cmp(rs[|rs| - 1], y) <= 0)
    ensures Sorted(cmp, rs + [y])
  {
    var t := rs + [y];
    forall i | 0 <= i < |t| - 1 ensures cmp(t[i], t[i + 1]) <= 0 {
      if i < |rs| - 1 {
        assert t[i] == rs[i] && t[i + 1] == rs[i + 1];
      }
    }
  }

  /** The sort step of `h` produces a sorted sequence (for a total comparer). */
  lemma {:induction false} SortBySorted(cmp: Comparer, ms: seq<Record>)
    requires Total(cmp)
    ensures Sorted(cmp, SortBy(cmp, ms))
    decreases |ms|
  {
    if ms != [] {
      SortBySorted(cmp, ms[..|ms| - 1]);
      InsertSorted(cmp, ms[|ms| - 1], SortBy(cmp, ms[..|ms| - 1]));
    }
  }

  /** The ids of a batch, read through its elements. */
  lemma KeySetByElems(selectId: Record -> Key, recs: seq<Record>, k: Key)
    ensures k in KeySet(selectId, recs) <==> exists y :: y in recs && selectId(y) == k
  {
    if exists y :: y in recs && selectId(y) == k {
      var y :| y in recs && selectId(y) == k;
      var j :| 0 <= j < |recs| && recs[j] == y;
    }
  }

  /** A batch with distinct ids stays distinct when one record with a new id is appended. */
  lemma DistinctSnoc(selectId: Record -> Key, s: seq<Record>, y: Record)
    requires DistinctKeys(selectId, s) && selectId(y) !in KeySet(selectId, s)
    ensures DistinctKeys(selectId, s + [y])
  {
    var t := s + [y];
    forall i, j | 0 <= i < j < |t| ensures selectId(t[i]) != selectId(t[j]) {
      if j == |s| {
        assert t[i] == s[i];
      } else {
        assert t[i] == s[i] && t[j] == s[j];
      }
    }
  }

  /** Insertion keeps the ids of a batch distinct when the new record's id is new. */
  lemma {:induction false} InsertDistinct(selectId: Record -> Key, cmp: Comparer, x: Record, s: seq<Record>)
    requires DistinctKeys(selectId, s) && selectId(x) !in KeySet(selectId, s)
    ensures DistinctKeys(selectId, Insert(cmp, x, s))
    decreases |s|
  {
    if s == [] {
    } else if cmp(s[|s| - 1], x) > 0 {
      var front := s[..|s| - 1];
      var last := s[|s| - 1];
      assert forall j :: 0 <= j < |front| ==> front[j] == s[j];
      assert selectId(x) !in KeySet(selectId, front);
      InsertDistinct(selectId, cmp, x, front);
      var r := Insert(cmp, x, front);
      assert selectId(last) !in KeySet(selectId, r) by {
        KeySetByElems(selectId, r, selectId(last));
        forall y | y in r ensures selectId(y) != selectId(last) {
          assert y in multiset(r);
          if y != x {
            assert y in multiset(front);
            var j :| 0 <= j < |front| && front[j] == y;
            assert s[j] == y;
          }
        }
      }
      DistinctSnoc(selectId, r, last);
    } else {
      DistinctSnoc(selectId, s, x);
    }
  }

  /** Sorting neither adds, drops nor repeats ids. */
  lemma {:induction false} SortByKeys(selectId: Record -> Key, cmp: Comparer, ms: seq<Record>)
    ensures KeySet(selectId, SortBy(cmp, ms)) == KeySet(selectId, ms)
    ensures DistinctKeys(selectId, ms) ==> DistinctKeys(selectId, SortBy(cmp, ms))
    decreases |ms|
  {
    var r := SortBy(cmp, ms);
    forall k ensures k in KeySet(selectId, r) <==> k in KeySet(selectId, ms) {
      KeySetByElems(selectId, r, k);
      KeySetByElems(selectId, ms, k);
      assert forall y :: y in r <==> y in multiset(ms);
    }
    if ms != [] && DistinctKeys(selectId, ms) {
      var front := ms[..|ms| - 1];
      var last := ms[|ms| - 1];
      assert DistinctKeys(selectId, front) by {
        assert forall j :: 0 <= j < |front| ==> front[j] == ms[j];
      }
      SortByKeys(selectId, cmp, front);
      assert selectId(last) !in KeySet(selectId, SortBy(cmp, front)) by {
        assert forall j :: 0 <= j < |front| ==> front[j] == ms[j];
      }
      InsertDistinct(selectId, cmp, last, SortBy(cmp, front));
    }
  }

  /** After storing a batch with distinct ids, each id holds its own record; other ids are untouched. */
  lemma PutAllGet(selectId: Record -> Key, ms: seq<Record>, entities: map<Key, Record>)
    requires DistinctKeys(selectId, ms)
    ensures forall i :: 0 <= i < |ms| ==> PutAll(selectId, ms, entities)[selectId(ms[i])] == ms[i]
    ensures forall k :: k !in KeySet(selectId, ms) ==> Lookup(PutAll(selectId, ms, entities), k) == Lookup(entities, k)
  {
    PutAllStored(selectId, ms, entities);
    PutAllOthers(selectId, ms, entities);
  }

  /** Each record of a batch with distinct ids is stored under its id. */
  lemma {:induction false} PutAllStored(selectId: Record -> Key, ms: seq<Record>, entities: map<Key, Record>)
    requires DistinctKeys(selectId, ms)
    ensures forall i :: 0 <= i < |ms| ==> PutAll(selectId, ms, entities)[selectId(ms[i])] == ms[i]
    decreases |ms|
  {
    if ms != [] {
      var front := ms[..|ms| - 1];
      assert forall j :: 0 <= j < |front| ==> front[j] == ms[j];
      PutAllStored(selectId, front, entities);
    }
  }

  /** Ids outside the batch keep what they had. */
  lemma {:induction false} PutAllOthers(selectId: Record -> Key, ms: seq<Record>, entities: map<Key, Record>)
    ensures forall k :: k !in KeySet(selectId, ms) ==> Lookup(PutAll(selectId, ms, entities), k) == Lookup(entities, k)
    decreases |ms|
  {
    if ms != [] {
      var front := ms[..|ms| - 1];
      assert forall j :: 0 <= j < |front| ==> front[j] == ms[j];
      assert selectId(ms[|ms| - 1]) in KeySet(selectId, ms);
      PutAllOthers(selectId, front, entities);
    }
  }


  /**
   * The ids the merge produces denote exactly the records of the reference
   * merge, as long as every merged id holds its model and every old id its
   * old record.
   */
  lemma {:induction false} MergeIdsRecords(selectId: Record -> Key, cmp: Comparer, ms: seq<Record>, ids: seq<Key>,
                                           entities: map<Key, Record>, after: map<Key, Record>)
    requires forall i :: 0 <= i < |ms| ==> Lookup(after, selectId(ms[i])) == ms[i]
    requires forall k :: k in ids ==> Lookup(after, k) == Lookup(entities, k)
    ensures RecordsOf(MergeIds(selectId, cmp, ms, ids, entities), after) == MergeRecs(cmp, ms, RecordsOf(ids, entities))
    decreases |ms| + |ids|
  {
    var olds := RecordsOf(ids, entities);
    if ms == [] {
      forall i | 0 <= i < |ids| ensures RecordsOf(ids, after)[i] == olds[i] {
        assert ids[i] in ids;
      }
    } else if ids == [] {
      assert RecordsOf(KeysOf(selectId, ms), after) == ms;
    } else {
      RecordsOfCons(ids[0], ids[1..], entities);
      assert [ids[0]] + ids[1..] == ids;
      if cmp(ms[0], olds[0]) <= 0 {
        var tail := MergeIds(selectId, cmp, ms[1..], ids, entities);
        MergeIdsRecords(selectId, cmp, ms[1..], ids, entities, after);
        RecordsOfCons(selectId(ms[0]), tail, after);
      } else {
        var tail := MergeIds(selectId, cmp, ms, ids[1..], entities);
        MergeIdsRecords(selectId, cmp, ms, ids[1..], entities, after);
        RecordsOfCons(ids[0], tail, after);
      }
    }
  }

  lemma RecordsOfCons(k: Key, ks: seq<Key>, entities: map<Key, Record>)
    ensures RecordsOf([k] + ks, entities) == [Lookup(entities, k)] + RecordsOf(ks, entities)
  {
  }

  /** The merge repeats no id when the models' ids are distinct, new, and ids is unique. */
  lemma {:induction false} MergeIdsUnique(selectId: Record -> Key, cmp: Comparer, ms: seq<Record>, ids: seq<Key>,
                                          entities: map<Key, Record>)
    requires DistinctKeys(selectId, ms) && Unique(ids)
    requires forall k :: k in ids ==> k !in KeySet(selectId, ms)
    ensures Unique(MergeIds(selectId, cmp, ms, ids, entities))
    decreases |ms| + |ids|
  {
    if ms == [] {
    } else if ids == [] {
      var r := KeysOf(selectId, ms);
      assert forall i, j :: 0 <= i < j < |r| ==> r[i] != r[j];
    } else {
      assert forall j :: 0 <= j < |ms| - 1 ==> ms[1..][j] == ms[j + 1];
      assert KeySet(selectId, ms[1..]) <= KeySet(selectId, ms);
      if cmp(ms[0], Lookup(entities, ids[0])) <= 0 {
        MergeIdsUnique(selectId, cmp, ms[1..], ids, entities);
        MergeIdsElems(selectId, cmp, ms[1..], ids, entities);
        assert selectId(ms[0]) !in KeySet(selectId, ms[1..]);
      } else {
        MergeIdsUnique(selectId, cmp, ms, ids[1..], entities);
        MergeIdsElems(selectId, cmp, ms, ids[1..], entities);
        assert ids[0] !in ids[1..];
      }
    }
  }

  /**
   * Merging a batch with distinct ids, none of them already in ids: the new
   * ids are unique, the records they denote are the old records and the batch
   * (a permutation), and a sorted collection stays sorted.  When in addition
   * the batch's ids are not stored at all, I2 is kept too.
   */
  lemma MergeFacts(selectId: Record -> Key, cmp: Comparer, models: seq<Record>, c: Collection)
    requires DistinctKeys(selectId, models) && Unique(c.ids)
    requires forall k :: k in c.ids ==> k !in KeySet(selectId, models)
    ensures Unique(MergeSpec(selectId, cmp, models, c).ids)
    ensures multiset(RecordsOf(MergeSpec(selectId, cmp, models, c).ids, MergeSpec(selectId, cmp, models, c).entities))
         == multiset(models) + multiset(RecordsOf(c.ids, c.entities))
    ensures Total(cmp) && SortedIds(cmp, c) ==> SortedIds(cmp, MergeSpec(selectId, cmp, models, c))
    ensures Valid(c) ==> Valid(MergeSpec(selectId, cmp, models, c))
  {
    var ms := SortBy(cmp, models);
    SortByKeys(selectId, cmp, models);
    PutAllGet(selectId, ms, c.entities);
    var after := PutAll(selectId, ms, c.entities);
    forall i | 0 <= i < |ms| ensures Lookup(after, selectId(ms[i])) == ms[i] {
      assert selectId(ms[i]) in KeySet(selectId, ms);
    }
    MergeIdsRecords(selectId, cmp, ms, c.ids, c.entities, after);
    MergeIdsUnique(selectId, cmp, ms, c.ids, c.entities);
    MergeIdsElems(selectId, cmp, ms, c.ids, c.entities);
    if Total(cmp) && SortedIds(cmp, c) {
      SortBySorted(cmp, models);
      MergeRecsSorted(cmp, ms, RecordsOf(c.ids, c.entities));
    }
  }

  // ---------------------------------------------------------------------------
  // o: addMany, and addOne as a batch of one
  // ---------------------------------------------------------------------------

  /** `models.filter(m => !(selectId(m) in entities))`, evaluated before any insert. */
  function FreshModels(selectId: Record -> Key, recs: seq<Record>, entities: map<Key, Record>): (r: seq<Record>)
    ensures forall x :: x in r <==> x in recs && selectId(x) !in entities
  {
    if recs == [] then []
    else (if selectId(recs[0]) !in entities then [recs[0]] else []) + FreshModels(selectId, recs[1..], entities)
  }

  function SAddManySpec(selectId: Record -> Key, cmp: Comparer, recs: seq<Record>, c: Collection): (Collection, DidMutate)
  {
    var added := FreshModels(selectId, recs, c.entities);
    if |added| == 0 then (c, None) else (MergeSpec(selectId, cmp, added, c), Both)
  }

  method SAddMany(selectId: Record -> Key, cmp: Comparer, recs: seq<Record>, d: Draft) returns (m: DidMutate)
    modifies d
    ensures (d.Value(), m) == SAddManySpec(selectId, cmp, recs, old(d.Value()))
  {
    var added := FreshModels(selectId, recs, d.entities);
    if |added| == 0 {
      return None;
    }
    Merge(selectId, cmp, added, d);
    m := Both;
  }

  method SAddOne(selectId: Record -> Key, cmp: Comparer, rec: Record, d: Draft) returns (m: DidMutate)
    modifies d
    ensures (d.Value(), m) == SAddManySpec(selectId, cmp, [rec], old(d.Value()))
  {
    m := SAddMany(selectId, cmp, [rec], d);
  }

  // ---------------------------------------------------------------------------
  // u: setAll / addAll, and setOne
  // ---------------------------------------------------------------------------

  function SSetAllSpec(selectId: Record -> Key, cmp: Comparer, recs: seq<Record>, c: Collection): (Collection, DidMutate)
  {
    (SAddManySpec(selectId, cmp, recs, Collection([], map[])).0, Both)
  }

  method SSetAll(selectId: Record -> Key, cmp: Comparer, recs: seq<Record>, d: Draft) returns (m: DidMutate)
    modifies d
    ensures (d.Value(), m) == SSetAllSpec(selectId, cmp, recs, old(d.Value()))
  {
    d.entities := map[];
    d.ids := [];
    var _ := SAddMany(selectId, cmp, recs, d);
    m := Both;
  }

  /** `ids.filter(t => t !== k)`. */
  function Without(ids: seq<Key>, k: Key): (r: seq<Key>)
    ensures forall t :: t in r <==> t in ids && t != k
    ensures Unique(ids) ==> Unique(r)
  {
    if ids == [] then []
    else
      var rest := Without(ids[1..], k);
      assert Unique(ids) ==> ids[0] !in ids[1..];
      if ids[0] != k then [ids[0]] + rest else rest
  }

  /** setOne: a stored id is taken out of ids and merged back in with the new record. */
  function SSetOneSpec(selectId: Record -> Key, cmp: Comparer, rec: Record, c: Collection): (Collection, DidMutate)
  {
    var k := selectId(rec);
    if k in c.entities then (MergeSpec(selectId, cmp, [rec], Collection(Without(c.ids, k), c.entities)), Both)
    else SAddManySpec(selectId, cmp, [rec], c)
  }

  method SSetOne(selectId: Record -> Key, cmp: Comparer, rec: Record, d: Draft) returns (m: DidMutate)
    modifies d
    ensures (d.Value(), m) == SSetOneSpec(selectId, cmp, rec, old(d.Value()))
  {
    var k := selectId(rec);
    if k in d.entities {
      d.ids := Without(d.ids, k);
      Merge(selectId, cmp, [rec], d);
      m := Both;
    } else {
      m := SAddOne(selectId, cmp, rec, d);
    }
  }

  // ---------------------------------------------------------------------------
  // l: updateMany
  // ---------------------------------------------------------------------------

  /**
   * One call of the filter callback of `l`: skip an id that is not stored
   * (any more); otherwise overlay the changes, delete the old entry, keep the
   * merged record aside, and report whether its id differs.
   */
  function SUpdateStep(selectId: Record -> Key, u: Update, entities: map<Key, Record>, pushed: seq<Record>)
    : (map<Key, Record>, seq<Record>, bool)
  {
    if u.id !in entities then (entities, pushed, false)
    else
      var merged := Assign(entities[u.id], u.changes);
      (entities - {u.id}, pushed + [merged], selectId(merged) != u.id)
  }

  function SApplyUpdates(selectId: Record -> Key, ups: seq<Update>, entities: map<Key, Record>)
    : (r: (map<Key, Record>, seq<Record>, bool))
    ensures forall k :: k in r.0 ==> k in entities && r.0[k] == entities[k]
    ensures |r.1| == 0 ==> r.0 == entities
    decreases |ups|
  {
    if ups == [] then (entities, [], false)
    else
      var (e1, p1, ch1) := SApplyUpdates(selectId, ups[..|ups| - 1], entities);
      var (e2, p2, ch2) := SUpdateStep(selectId, ups[|ups| - 1], e1, p1);
      (e2, p2, ch2 || ch1)
  }

  /** The indices the id filter of `l` records: those whose id is no longer stored. */
  function Vacated(ids: seq<Key>, keep: set<Key>): (r: seq<nat>)
    ensures forall i :: 0 <= i < |r| ==> r[i] < |ids| && ids[r[i]] !in keep
    ensures forall j :: 0 <= j < |ids| && ids[j] !in keep ==> j in r
    decreases |ids|
  {
    if ids == [] then []
    else Vacated(ids[..|ids| - 1], keep) + if ids[|ids| - 1] !in keep then [|ids| - 1] else []
  }

  /** `ids[j]`, or `undefined` past the end. */
  function IdAt(ids: seq<Key>, j: nat): Key
  {
    if j < |ids| then ids[j] else Undefined
  }

  /** `u.every(t => e.ids[t] === o[t])`. */
  function Stayed(orig: seq<Key>, now: seq<Key>, vac: seq<nat>): bool
  {
    forall i :: 0 <= i < |vac| && vac[i] < |orig| ==> IdAt(now, vac[i]) == orig[vac[i]]
  }

  function SUpdateManySpec(selectId: Record -> Key, cmp: Comparer, ups: seq<Update>, c: Collection): (Collection, DidMutate)
  {
    var (e, pushed, changed) := SApplyUpdates(selectId, ups, c.entities);
    if |pushed| == 0 then (c, None)
    else
      var c2 := MergeSpec(selectId, cmp, pushed, Collection(KeepIn(c.ids, e.Keys), e));
      (c2, if !changed && Stayed(c.ids, c2.ids, Vacated(c.ids, e.Keys)) then EntitiesOnly else Both)
  }

  /** Filtering a sequence extended by one id. */
  lemma {:induction false} KeepInSnoc(ids: seq<Key>, x: Key, keep: set<Key>)
    ensures KeepIn(ids + [x], keep) == KeepIn(ids, keep) + if x in keep then [x] else []
    decreases |ids|
  {
    if ids != [] {
      assert (ids + [x])[1..] == ids[1..] + [x];
      KeepInSnoc(ids[1..], x, keep);
    }
  }

  /** The indices vacated in a sequence extended by one id. */
  lemma VacatedSnoc(ids: seq<Key>, x: Key, keep: set<Key>)
    ensures Vacated(ids + [x], keep) == Vacated(ids, keep) + if x !in keep then [|ids|] else []
  {
    assert (ids + [x])[..|ids|] == ids;
  }

  /** One more id of the filter loop: kept or vacated. */
  lemma FilterStep(orig: seq<Key>, j: int, keep: set<Key>)
    requires 0 <= j < |orig|
    ensures KeepIn(orig[..j + 1], keep) == KeepIn(orig[..j], keep) + if orig[j] in keep then [orig[j]] else []
    ensures Vacated(orig[..j + 1], keep) == Vacated(orig[..j], keep) + if orig[j] !in keep then [j] else []
  {
    assert orig[..j + 1] == orig[..j] + [orig[j]];
    KeepInSnoc(orig[..j], orig[j], keep);
    VacatedSnoc(orig[..j], orig[j], keep);
  }

  /** `ids.filter((t, n) => t in entities || (u.push(n), false))`: kept ids, and the indices dropped. */
  method FilterIds(orig: seq<Key>, keep: set<Key>) returns (kept: seq<Key>, vac: seq<nat>)
    ensures kept == KeepIn(orig, keep) && vac == Vacated(orig, keep)
  {
    kept := [];
    vac := [];
    for j := 0 to |orig|
      invariant kept == KeepIn(orig[..j], keep)
      invariant vac == Vacated(orig[..j], keep)
    {
      FilterStep(orig, j, keep);
      if orig[j] in keep {
        kept := kept + [orig[j]];
      } else {
        vac := vac + [j];
      }
    }
    assert orig[..|orig|] == orig;
  }

  method SUpdateMany(selectId: Record -> Key, cmp: Comparer, ups: seq<Update>, d: Draft) returns (m: DidMutate)
    modifies d
    ensures (d.Value(), m) == SUpdateManySpec(selectId, cmp, ups, old(d.Value()))
  {
    var pushed: seq<Record> := [];
    var changed := false;
    for j := 0 to |ups|
      invariant d.ids == old(d.ids)
      invariant (d.entities, pushed, changed) == SApplyUpdates(selectId, ups[..j], old(d.entities))
    {
      assert ups[..j + 1][..j] == ups[..j];
      var u := ups[j];
      if u.id in d.entities {
        var merged := Assign(d.entities[u.id], u.changes);
        var k := selectId(merged);
        d.entities := d.entities - {u.id};
        pushed := pushed + [merged];
        changed := k != u.id || changed;
      }
    }
    assert ups[..|ups|] == ups;
    if |pushed| == 0 {
      return None;
    }
    var orig := d.ids;
    var kept, vac := FilterIds(orig, d.entities.Keys);
    d.ids := kept;
    Merge(selectId, cmp, pushed, d);
    m := if !changed && Stayed(orig, d.ids, vac) then EntitiesOnly else Both;
  }

  method SUpdateOne(selectId: Record -> Key, cmp: Comparer, u: Update, d: Draft) returns (m: DidMutate)
    modifies d
    ensures (d.Value(), m) == SUpdateManySpec(selectId, cmp, [u], old(d.Value()))
  {
    m := SUpdateMany(selectId, cmp, [u], d);
  }

  // ---------------------------------------------------------------------------
  // d: upsertMany, and map
  // ---------------------------------------------------------------------------

  function SUpsertManySpec(selectId: Record -> Key, cmp: Comparer, recs: seq<Record>, c: Collection): (Collection, DidMutate)
  {
    var (ups, adds) := SplitUpserts(selectId, recs, c.entities);
    var (c1, p) := SUpdateManySpec(selectId, cmp, ups, c);
    var (c2, v) := SAddManySpec(selectId, cmp, adds, c1);
    (c2, Combine(v, p))
  }

  method SUpsertMany(selectId: Record -> Key, cmp: Comparer, recs: seq<Record>, d: Draft) returns (m: DidMutate)
    modifies d
    ensures (d.Value(), m) == SUpsertManySpec(selectId, cmp, recs, old(d.Value()))
  {
    var adds: seq<Record> := [];
    var ups: seq<Update> := [];
    for j := 0 to |recs|
      invariant (ups, adds) == SplitUpserts(selectId, recs[..j], d.entities)
    {
      assert recs[..j + 1][..j] == recs[..j];
      var k := selectId(recs[j]);
      if k in d.entities {
        ups := ups + [Update(k, recs[j])];
      } else {
        adds := adds + [recs[j]];
      }
    }
    assert recs[..|recs|] == recs;
    var p := SUpdateMany(selectId, cmp, ups, d);
    var v := SAddMany(selectId, cmp, adds, d);
    m := Combine(v, p);
  }

  /** `map` on the sorted adapter: the collected updates go to `l` unfiltered. */
  function SMapSpec(selectId: Record -> Key, cmp: Comparer, f: Record -> Mapped, c: Collection): (Collection, DidMutate)
  {
    SUpdateManySpec(selectId, cmp, MapUpdates(f, c.ids, c.entities), c)
  }

  method SMap(selectId: Record -> Key, cmp: Comparer, f: Record -> Mapped, d: Draft) returns (m: DidMutate)
    modifies d
    ensures (d.Value(), m) == SMapSpec(selectId, cmp, f, old(d.Value()))
  {
    m := SUpdateMany(selectId, cmp, MapUpdates(f, d.ids, d.entities), d);
  }

  // ---------------------------------------------------------------------------
  // Properties of the sorted operations
  // ---------------------------------------------------------------------------

  lemma DistinctCons(selectId: Record -> Key, x: Record, s: seq<Record>)
    requires DistinctKeys(selectId, s) && forall y :: y in s ==> selectId(y) != selectId(x)
    ensures DistinctKeys(selectId, [x] + s)
  {
    var t := [x] + s;
    forall i, j | 0 <= i < j < |t| ensures selectId(t[i]) != selectId(t[j]) {
      assert t[j] == s[j - 1];
      if i > 0 {
        assert t[i] == s[i - 1];
      }
    }
  }

  /** Filtering a batch keeps its ids distinct. */
  lemma {:induction false} FreshDistinct(selectId: Record -> Key, recs: seq<Record>, entities: map<Key, Record>)
    requires DistinctKeys(selectId, recs)
    ensures DistinctKeys(selectId, FreshModels(selectId, recs, entities))
    decreases |recs|
  {
    if recs != [] {
      var rest := recs[1..];
      assert forall j :: 0 <= j < |rest| ==> rest[j] == recs[j + 1];
      FreshDistinct(selectId, rest, entities);
      var f := FreshModels(selectId, rest, entities);
      if selectId(recs[0]) !in entities {
        forall y | y in f ensures selectId(y) != selectId(recs[0]) {
          var j :| 0 <= j < |rest| && rest[j] == y;
        }
        DistinctCons(selectId, recs[0], f);
      }
    }
  }

  /**
   * Sorted addMany: `None` exactly when every id of the batch is already
   * stored, in which case nothing changes; otherwise `Both`.  With distinct
   * ids in the batch it keeps I1 and I2, keeps a sorted collection sorted,
   * and the records in ids order are the old ones plus the new models.
   */
  lemma SAddManyFacts(selectId: Record -> Key, cmp: Comparer, recs: seq<Record>, c: Collection)
    ensures SAddManySpec(selectId, cmp, recs, c).1 == None <==> forall x :: x in recs ==> selectId(x) in c.entities
    ensures SAddManySpec(selectId, cmp, recs, c).1 != EntitiesOnly
    ensures Agrees(c, SAddManySpec(selectId, cmp, recs, c).0, SAddManySpec(selectId, cmp, recs, c).1)
    ensures Valid(c) && DistinctKeys(selectId, recs) ==>
              var c2 := SAddManySpec(selectId, cmp, recs, c).0;
              Valid(c2) && (Total(cmp) && SortedIds(cmp, c) ==> SortedIds(cmp, c2)) &&
              multiset(RecordsOf(c2.ids, c2.entities))
                == multiset(RecordsOf(c.ids, c.entities)) + multiset(FreshModels(selectId, recs, c.entities))
  {
    SAddManyNone(selectId, cmp, recs, c);
    if Valid(c) && DistinctKeys(selectId, recs) {
      SAddManyValid(selectId, cmp, recs, c);
    }
  }

  /** Sorted addMany reports `None` exactly when every record's id is already stored, and never `EntitiesOnly`. */
  lemma SAddManyNone(selectId: Record -> Key, cmp: Comparer, recs: seq<Record>, c: Collection)
    ensures SAddManySpec(selectId, cmp, recs, c).1 == None <==> forall x :: x in recs ==> selectId(x) in c.entities
    ensures SAddManySpec(selectId, cmp, recs, c).1 != EntitiesOnly
    ensures SAddManySpec(selectId, cmp, recs, c).1 == None ==> SAddManySpec(selectId, cmp, recs, c).0 == c
  {
    var added := FreshModels(selectId, recs, c.entities);
    if |added| > 0 {
      assert added[0] in added;
    }
  }

  /** Sorted addMany on a valid collection, with a batch of distinct ids. */
  lemma SAddManyValid(selectId: Record -> Key, cmp: Comparer, recs: seq<Record>, c: Collection)
    requires Valid(c) && DistinctKeys(selectId, recs)
    ensures var c2 := SAddManySpec(selectId, cmp, recs, c).0;
            Valid(c2) && (Total(cmp) && SortedIds(cmp, c) ==> SortedIds(cmp, c2)) &&
            multiset(RecordsOf(c2.ids, c2.entities))
              == multiset(RecordsOf(c.ids, c.entities)) + multiset(FreshModels(selectId, recs, c.entities))
  {
    var added := FreshModels(selectId, recs, c.entities);
    if |added| > 0 {
      FreshDistinct(selectId, recs, c.entities);
      forall k | k in c.ids ensures k !in KeySet(selectId, added) {
        KeySetByElems(selectId, added, k);
      }
      MergeFacts(selectId, cmp, added, c);
    }
  }


  /**
   * setAll on the sorted adapter: with distinct ids in the batch the result
   * holds exactly the batch (as a multiset), keeps I1 and I2, and is sorted.
   */
  lemma SSetAllFacts(selectId: Record -> Key, cmp: Comparer, recs: seq<Record>, c: Collection)
    requires DistinctKeys(selectId, recs)
    ensures var c2 := SSetAllSpec(selectId, cmp, recs, c).0;
            Valid(c2) && multiset(RecordsOf(c2.ids, c2.entities)) == multiset(recs) &&
            (Total(cmp) ==> SortedIds(cmp, c2))
  {
    var empty := Collection([], map[]);
    SAddManyFacts(selectId, cmp, recs, empty);
    var added := FreshModels(selectId, recs, empty.entities);
    assert added == recs by {
      FreshAll(selectId, recs, empty.entities);
    }
  }

  lemma {:induction false} FreshAll(selectId: Record -> Key, recs: seq<Record>, entities: map<Key, Record>)
    requires forall x :: x in recs ==> selectId(x) !in entities
    ensures FreshModels(selectId, recs, entities) == recs
    decreases |recs|
  {
    if recs != [] {
      assert forall x :: x in recs[1..] ==> x in recs;
      FreshAll(selectId, recs[1..], entities);
    }
  }

  /**
   * Invariant I3 (for `[1, 3, 5]` and new records `[4, 2]` under a numeric
   * comparer on the id): the ids end up as `[1, 2, 3, 4, 5]`.
   */
  lemma MergeInsertExample()
    ensures var c := Collection([Num(1), Num(3), Num(5)], map[Num(1) := Rec(1), Num(3) := Rec(3), Num(5) := Rec(5)]);
            var (c2, m) := SAddManySpec(SelectIdDefault, ByNumber, [Rec(4), Rec(2)], c);
            m == Both && c2.ids == [Num(1), Num(2), Num(3), Num(4), Num(5)] &&
            c2.entities == c.entities[Num(2) := Rec(2)][Num(4) := Rec(4)]
  {
    var E := map[Num(1) := Rec(1), Num(3) := Rec(3), Num(5) := Rec(5)];
    ExampleFresh(E);
    ExampleSort();
    ExampleMergeIds(E);
    ExamplePutAll(E);
  }

  lemma ExampleFresh(E: map<Key, Record>)
    requires E == map[Num(1) := Rec(1), Num(3) := Rec(3), Num(5) := Rec(5)]
    ensures FreshModels(SelectIdDefault, [Rec(4), Rec(2)], E) == [Rec(4), Rec(2)]
  {
    var sel := SelectIdDefault;
    assert sel(Rec(2)) == Num(2) && sel(Rec(4)) == Num(4);
    FreshAll(sel, [Rec(4), Rec(2)], E);
  }

  lemma ExamplePutAll(E: map<Key, Record>)
    ensures PutAll(SelectIdDefault, [Rec(2), Rec(4)], E) == E[Num(2) := Rec(2)][Num(4) := Rec(4)]
  {
    var sel := SelectIdDefault;
    var ms := [Rec(2), Rec(4)];
    assert sel(Rec(2)) == Num(2) && sel(Rec(4)) == Num(4);
    assert ms[..1] == [Rec(2)] && [Rec(2)][..0] == [];
  }


  lemma ExampleSort()
    ensures SortBy(ByNumber, [Rec(4), Rec(2)]) == [Rec(2), Rec(4)]
  {
    assert NumberOf(Rec(2)) == 2 && NumberOf(Rec(4)) == 4;
    assert [Rec(4), Rec(2)][..1] == [Rec(4)] && [Rec(4)][..0] == [];
    assert SortBy(ByNumber, [Rec(4)]) == [Rec(4)];
    assert Insert(ByNumber, Rec(2), [Rec(4)]) == [Rec(2), Rec(4)];
  }

  lemma ExampleMergeIds(E: map<Key, Record>)
    requires E == map[Num(1) := Rec(1), Num(3) := Rec(3), Num(5) := Rec(5)]
    ensures MergeIds(SelectIdDefault, ByNumber, [Rec(2), Rec(4)], [Num(1), Num(3), Num(5)], E)
         == [Num(1), Num(2), Num(3), Num(4), Num(5)]
  {
    var sel := SelectIdDefault;
    assert sel(Rec(2)) == Num(2) && sel(Rec(4)) == Num(4);
    assert NumberOf(Rec(1)) == 1 && NumberOf(Rec(2)) == 2 && NumberOf(Rec(3)) == 3;
    assert NumberOf(Rec(4)) == 4 && NumberOf(Rec(5)) == 5;
    assert Lookup(E, Num(1)) == Rec(1) && Lookup(E, Num(3)) == Rec(3) && Lookup(E, Num(5)) == Rec(5);
    var ms := [Rec(2), Rec(4)];
    assert ms[1..] == [Rec(4)] && [Rec(4)][1..] == [];
    assert [Num(1), Num(3), Num(5)][1..] == [Num(3), Num(5)] && [Num(3), Num(5)][1..] == [Num(5)];
    assert MergeIds(sel, ByNumber, [Rec(4)], [Num(5)], E) == [Num(4), Num(5)];
    assert MergeIds(sel, ByNumber, [Rec(4)], [Num(3), Num(5)], E) == [Num(3), Num(4), Num(5)];
    assert MergeIds(sel, ByNumber, ms, [Num(3), Num(5)], E) == [Num(2), Num(3), Num(4), Num(5)];
  }

  /** The number in a record's `id` field, 0 when there is none. */
  function NumberOf(r: Record): int
  {
    match Field(r, "id")
    case Num(n) => n
    case _ => 0
  }

  /** A numeric comparer on the `id` field. */
  function ByNumber(a: Record, b: Record): int
  {
    NumberOf(a) - NumberOf(b)
  }

  /** A comparer that finds every pair equal. */
  function Unordered(a: Record, b: Record): int
  {
    0
  }

  function Rec(n: int): Record
  {
    map["id" := Num(n)]
  }

  /**
   * Unlike the unsorted adapter, sorted addMany only filters out ids that are
   * already stored: two records of one batch with the same id are both merged,
   * so the id appears twice in ids (I1 fails) and the later one in sorted
   * order is the stored record.
   */
  lemma SortedBatchDuplicate()
    ensures var cmp: Comparer := Unordered;
            var a: Record := map["id" := Num(1), "v" := Num(1)];
            var b: Record := map["id" := Num(1), "v" := Num(2)];
            var c2 := SAddManySpec(SelectIdDefault, cmp, [a, b], Collection([], map[])).0;
            c2.ids == [Num(1), Num(1)] && c2.entities == map[Num(1) := b] && !Valid(c2) &&
            AddManySpec(SelectIdDefault, [a, b], Collection([], map[])).0 == Collection([Num(1)], map[Num(1) := a])
  {
    var a: Record := map["id" := Num(1), "v" := Num(1)];
    var b: Record := map["id" := Num(1), "v" := Num(2)];
    DuplicateSorted(a, b);
    DuplicateUnsorted(a, b);
    var c2 := SAddManySpec(SelectIdDefault, Unordered, [a, b], Collection([], map[])).0;
    assert !Unique(c2.ids) by {
      assert c2.ids[0] == c2.ids[1];
    }
  }

  /** The sorted side of the example: both records are merged in, the later one stored. */
  lemma DuplicateSorted(a: Record, b: Record)
    requires a == map["id" := Num(1), "v" := Num(1)] && b == map["id" := Num(1), "v" := Num(2)]
    ensures SAddManySpec(SelectIdDefault, Unordered, [a, b], Collection([], map[])).0
            == Collection([Num(1), Num(1)], map[Num(1) := b])
  {
    var cmp: Comparer := Unordered;
    var sel := SelectIdDefault;
    assert sel(a) == Num(1) && sel(b) == Num(1);
    var empty := Collection([], map[]);
    FreshAll(sel, [a, b], empty.entities);
    assert [a, b][..1] == [a] && [a][..0] == [];
    assert SortBy(cmp, [a]) == [a];
    assert SortBy(cmp, [a, b]) == [a, b];
    assert MergeIds(sel, cmp, [a, b], [], empty.entities) == [Num(1), Num(1)];
    assert PutAll(sel, [a, b], empty.entities) == map[Num(1) := b];
  }

  /** The unsorted side of the example: the first record wins. */
  lemma DuplicateUnsorted(a: Record, b: Record)
    requires a == map["id" := Num(1), "v" := Num(1)] && b == map["id" := Num(1), "v" := Num(2)]
    ensures AddManySpec(SelectIdDefault, [a, b], Collection([], map[])).0 == Collection([Num(1)], map[Num(1) := a])
  {
    var sel := SelectIdDefault;
    assert sel(a) == Num(1) && sel(b) == Num(1);
    var empty := Collection([], map[]);
    assert [] + [Num(1)] == [Num(1)];
    assert AddOneSpec(sel, a, empty) == (Collection([Num(1)], map[Num(1) := a]), Both);
    assert AddManySpec(sel, [a], empty) == (Collection([Num(1)], map[Num(1) := a]), Both);
    assert AddOneSpec(sel, b, Collection([Num(1)], map[Num(1) := a])).1 == None;
  }


  // ---------------------------------------------------------------------------
  // Properties of sorted updateMany
  // ---------------------------------------------------------------------------

  /** Nothing is set aside exactly when no update names a stored id. */
  lemma {:induction false} SApplyUpdatesNone(selectId: Record -> Key, ups: seq<Update>, entities: map<Key, Record>)
    ensures |SApplyUpdates(selectId, ups, entities).1| == 0 <==> forall u :: u in ups ==> u.id !in entities
    decreases |ups|
  {
    if ups != [] {
      var n := |ups| - 1;
      SApplyUpdatesNone(selectId, ups[..n], entities);
      assert forall u :: u in ups <==> u in ups[..n] || u == ups[n] by {
        assert ups == ups[..n] + [ups[n]];
      }
    }
  }

  /**
   * When no update changes its record's id, the records set aside have
   * distinct ids, and those ids are exactly the ones deleted from entities.
   */
  lemma {:induction false} SApplyUpdatesNoRekey(selectId: Record -> Key, ups: seq<Update>, entities: map<Key, Record>)
    requires !SApplyUpdates(selectId, ups, entities).2
    ensures DistinctKeys(selectId, SApplyUpdates(selectId, ups, entities).1)
    ensures KeySet(selectId, SApplyUpdates(selectId, ups, entities).1)
         == entities.Keys - SApplyUpdates(selectId, ups, entities).0.Keys
    decreases |ups|
  {
    if ups != [] {
      var n := |ups| - 1;
      SApplyUpdatesNoRekey(selectId, ups[..n], entities);
      var (e1, p1, ch1) := SApplyUpdates(selectId, ups[..n], entities);
      var u := ups[n];
      if u.id in e1 {
        var merged := Assign(e1[u.id], u.changes);
        assert selectId(merged) == u.id;
        DistinctSnoc(selectId, p1, merged);
        KeySetSnoc(selectId, p1, merged);
      }
    }
  }

  /** For a transitive comparer, a sorted sequence has no descending pair at all. */
  lemma {:induction false} SortedPairs(cmp: Comparer, rs: seq<Record>, i: int, j: int)
    requires Transitive(cmp) && Sorted(cmp, rs)
    requires 0 <= i < j < |rs|
    ensures cmp(rs[i], rs[j]) <= 0
    decreases j - i
  {
    if j > i + 1 {
      SortedPairs(cmp, rs, i, j - 1);
    }
  }

  /** Filtering ids keeps their records sorted (for a transitive comparer). */
  lemma {:induction false} KeepInSorted(cmp: Comparer, ids: seq<Key>, keep: set<Key>, entities: map<Key, Record>)
    requires Transitive(cmp) && Sorted(cmp, RecordsOf(ids, entities))
    ensures Sorted(cmp, RecordsOf(KeepIn(ids, keep), entities))
    decreases |ids|
  {
    if ids != [] {
      SortedTailIds(cmp, ids, entities);
      KeepInSorted(cmp, ids[1..], keep, entities);
      KeepHeadSorted(cmp, ids, keep, entities);
    }
  }

  lemma SortedTailIds(cmp: Comparer, ids: seq<Key>, entities: map<Key, Record>)
    requires ids != [] && Sorted(cmp, RecordsOf(ids, entities))
    ensures Sorted(cmp, RecordsOf(ids[1..], entities))
  {
    assert RecordsOf(ids[1..], entities) == RecordsOf(ids, entities)[1..];
  }

  /** Putting the first id back in front of the filtered rest keeps the records sorted. */
  lemma KeepHeadSorted(cmp: Comparer, ids: seq<Key>, keep: set<Key>, entities: map<Key, Record>)
    requires Transitive(cmp) && ids != [] && Sorted(cmp, RecordsOf(ids, entities))
    requires Sorted(cmp, RecordsOf(KeepIn(ids[1..], keep), entities))
    ensures Sorted(cmp, RecordsOf(KeepIn(ids, keep), entities))
  {
    var rs := RecordsOf(ids, entities);
    var rest := KeepIn(ids[1..], keep);
    assert KeepIn(ids, keep) == (if ids[0] in keep then [ids[0]] else []) + rest;
    if ids[0] in keep && rest != [] {
      assert rest[0] in ids[1..];
      var j :| 0 <= j < |ids[1..]| && ids[1..][j] == rest[0];
      SortedPairs(cmp, rs, 0, j + 1);
      RecordsOfCons(ids[0], rest, entities);
      SortedCons(cmp, rs[0], RecordsOf(rest, entities));
    } else if ids[0] in keep {
      assert KeepIn(ids, keep) == [ids[0]];
    } else {
      assert KeepIn(ids, keep) == rest;
    }
  }


  lemma SortedCons(cmp: Comparer, r: Record, rs: seq<Record>)
    requires Sorted(cmp, rs) && (rs != [] ==> cmp(r, rs[0]) <= 0)
    ensures Sorted(cmp, [r] + rs)
  {
    var t := [r] + rs;
    forall i | 0 <= i < |t| - 1 ensures cmp(t[i], t[i + 1]) <= 0 {
      if i > 0 {
        assert t[i] == rs[i - 1] && t[i + 1] == rs[i];
      }
    }
  }

  /** The ids of a batch extended by one record. */
  lemma KeySetSnoc(selectId: Record -> Key, s: seq<Record>, y: Record)
    ensures KeySet(selectId, s + [y]) == KeySet(selectId, s) + {selectId(y)}
  {
    var t := s + [y];
    forall k | k in KeySet(selectId, t) ensures k in KeySet(selectId, s) + {selectId(y)} {
      var j :| 0 <= j < |t| && selectId(t[j]) == k;
      if j < |s| {
        assert t[j] == s[j];
      }
    }
    forall k | k in KeySet(selectId, s) ensures k in KeySet(selectId, t) {
      var j :| 0 <= j < |s| && selectId(s[j]) == k;
      assert t[j] == s[j];
    }
    assert t[|s|] == y;
  }

  lemma UniqueTail(x: Key, s: seq<Key>)
    requires Unique([x] + s)
    ensures Unique(s) && x !in s
  {
    var t := [x] + s;
    assert t[0] == x;
    forall i, j | 0 <= i < j < |s| ensures s[i] != s[j] {
      assert t[i + 1] == s[i] && t[j + 1] == s[j];
    }
    forall i | 0 <= i < |s| ensures s[i] != x {
      assert t[i + 1] == s[i];
    }
  }

  /** Dropping one record of a batch with distinct ids drops exactly its id. */
  lemma DropKey(selectId: Record -> Key, ms: seq<Record>, p: int)
    requires DistinctKeys(selectId, ms) && 0 <= p < |ms|
    ensures DistinctKeys(selectId, ms[..p] + ms[p + 1..])
    ensures KeySet(selectId, ms[..p] + ms[p + 1..]) == KeySet(selectId, ms) - {selectId(ms[p])}
  {
    var t := ms[..p] + ms[p + 1..];
    assert forall i :: 0 <= i < |t| ==> t[i] == if i < p then ms[i] else ms[i + 1];
    forall k | k in KeySet(selectId, ms) - {selectId(ms[p])} ensures k in KeySet(selectId, t) {
      var q :| 0 <= q < |ms| && selectId(ms[q]) == k;
      if q < p {
        assert t[q] == ms[q];
      } else {
        assert t[q - 1] == ms[q];
      }
    }
  }

  /** A batch with no ids is empty. */
  lemma NoKeysNoRecords(selectId: Record -> Key, ms: seq<Record>)
    ensures KeySet(selectId, ms) == {} ==> ms == []
  {
    if ms != [] {
      assert selectId(ms[0]) in KeySet(selectId, ms);
    }
  }

  /** The ids the filter of `l` vacates: those not kept. */
  ghost predicate VacatedAre(ids: seq<Key>, keep: set<Key>, ks: set<Key>)
  {
    forall k :: k in ks <==> k in ids && k !in keep
  }

  /**
   * Counting: when the models' ids are distinct and are exactly the vacated
   * ids, there are as many models as vacated places.
   */
  lemma {:induction false} CountMatch(selectId: Record -> Key, ms: seq<Record>, ids: seq<Key>, keep: set<Key>)
    requires Unique(ids) && DistinctKeys(selectId, ms)
    requires VacatedAre(ids, keep, KeySet(selectId, ms))
    ensures |ms| + |KeepIn(ids, keep)| == |ids|
    decreases |ids|
  {
    if ids == [] {
      NoKeysNoRecords(selectId, ms);
    } else {
      var x := ids[0];
      var rest := ids[1..];
      assert x !in rest;
      assert forall k :: k in ids <==> k == x || k in rest;
      if x in keep {
        CountMatch(selectId, ms, rest, keep);
      } else {
        var p :| 0 <= p < |ms| && selectId(ms[p]) == x;
        DropKey(selectId, ms, p);
        CountMatch(selectId, ms[..p] + ms[p + 1..], rest, keep);
      }
    }
  }

  /**
   * The merge puts the set-aside records back in their own places: when every
   * vacated index holds its original id after the merge, the merge has
   * rebuilt ids exactly.
   */
  lemma {:induction false} MergeBackInPlace(selectId: Record -> Key, cmp: Comparer, ms: seq<Record>, ids: seq<Key>,
                                            keep: set<Key>, entities: map<Key, Record>)
    requires Unique(ids) && DistinctKeys(selectId, ms)
    requires VacatedAre(ids, keep, KeySet(selectId, ms))
    requires Unique(MergeIds(selectId, cmp, ms, KeepIn(ids, keep), entities))
    requires forall j :: 0 <= j < |ids| && ids[j] !in keep ==>
               IdAt(MergeIds(selectId, cmp, ms, KeepIn(ids, keep), entities), j) == ids[j]
    ensures MergeIds(selectId, cmp, ms, KeepIn(ids, keep), entities) == ids
    decreases |ids|, 1
  {
    CountMatch(selectId, ms, ids, keep);
    if ids != [] {
      if ids[0] in keep {
        MergeBackKept(selectId, cmp, ms, ids, keep, entities);
      } else {
        MergeBackVacated(selectId, cmp, ms, ids, keep, entities);
      }
    }
  }

  lemma {:induction false} MergeBackKept(selectId: Record -> Key, cmp: Comparer, ms: seq<Record>, ids: seq<Key>,
                                         keep: set<Key>, entities: map<Key, Record>)
    requires Unique(ids) && DistinctKeys(selectId, ms)
    requires VacatedAre(ids, keep, KeySet(selectId, ms))
    requires Unique(MergeIds(selectId, cmp, ms, KeepIn(ids, keep), entities))
    requires forall j :: 0 <= j < |ids| && ids[j] !in keep ==>
               IdAt(MergeIds(selectId, cmp, ms, KeepIn(ids, keep), entities), j) == ids[j]
    requires |ms| + |KeepIn(ids, keep)| == |ids|
    requires ids != [] && ids[0] in keep
    ensures MergeIds(selectId, cmp, ms, KeepIn(ids, keep), entities) == ids
    decreases |ids|, 0
  {
    var x := ids[0];
    var rest := ids[1..];
    assert ids == [x] + rest;
    var kr := KeepIn(rest, keep);
    assert KeepIn(ids, keep) == [x] + kr;
    if ms != [] {
      var z := MergeIds(selectId, cmp, ms, KeepIn(ids, keep), entities);
      assert selectId(ms[0]) in KeySet(selectId, ms);
      var j :| 0 <= j < |ids| && ids[j] == selectId(ms[0]);
      assert IdAt(z, j) == ids[j];
      MergeHeadKept(selectId, cmp, ms, x, kr, entities, j);
    }
    KeptTail(selectId, cmp, ms, ids, keep, entities);
    MergeBackInPlace(selectId, cmp, ms, rest, keep, entities);
  }

  /** After a kept id stayed in the first place, the rest of the merge rebuilds the rest of ids. */
  lemma KeptTail(selectId: Record -> Key, cmp: Comparer, ms: seq<Record>, ids: seq<Key>,
                 keep: set<Key>, entities: map<Key, Record>)
    requires Unique(ids)
    requires VacatedAre(ids, keep, KeySet(selectId, ms))
    requires Unique(MergeIds(selectId, cmp, ms, KeepIn(ids, keep), entities))
    requires forall j :: 0 <= j < |ids| && ids[j] !in keep ==>
               IdAt(MergeIds(selectId, cmp, ms, KeepIn(ids, keep), entities), j) == ids[j]
    requires ids != [] && ids[0] in keep
    requires KeepIn(ids, keep) == [ids[0]] + KeepIn(ids[1..], keep)
    requires MergeIds(selectId, cmp, ms, KeepIn(ids, keep), entities)
             == [ids[0]] + MergeIds(selectId, cmp, ms, KeepIn(ids[1..], keep), entities)
    ensures Unique(ids[1..])
    ensures VacatedAre(ids[1..], keep, KeySet(selectId, ms))
    ensures Unique(MergeIds(selectId, cmp, ms, KeepIn(ids[1..], keep), entities))
    ensures forall j :: 0 <= j < |ids[1..]| && ids[1..][j] !in keep ==>
              IdAt(MergeIds(selectId, cmp, ms, KeepIn(ids[1..], keep), entities), j) == ids[1..][j]
  {
    var x := ids[0];
    var rest := ids[1..];
    assert ids == [x] + rest;
    UniqueTail(x, rest);
    assert forall k :: k in ids <==> k == x || k in rest;
    PlacesShift(ids, keep, MergeIds(selectId, cmp, ms, KeepIn(ids, keep), entities),
                MergeIds(selectId, cmp, ms, KeepIn(rest, keep), entities));
  }


  /** A kept id stays in front when the first model's id occurs further on. */
  lemma MergeHeadKept(selectId: Record -> Key, cmp: Comparer, ms: seq<Record>, x: Key, kr: seq<Key>,
                      entities: map<Key, Record>, j: int)
    requires ms != [] && Unique(MergeIds(selectId, cmp, ms, [x] + kr, entities))
    requires 0 < j < |ms| + |kr| + 1 && MergeIds(selectId, cmp, ms, [x] + kr, entities)[j] == selectId(ms[0])
    ensures MergeIds(selectId, cmp, ms, [x] + kr, entities) == [x] + MergeIds(selectId, cmp, ms, kr, entities)
  {
    var z := MergeIds(selectId, cmp, ms, [x] + kr, entities);
    assert ([x] + kr)[1..] == kr;
    assert z[0] != z[j];
  }

  lemma {:induction false} MergeBackVacated(selectId: Record -> Key, cmp: Comparer, ms: seq<Record>, ids: seq<Key>,
                                            keep: set<Key>, entities: map<Key, Record>)
    requires Unique(ids) && DistinctKeys(selectId, ms)
    requires VacatedAre(ids, keep, KeySet(selectId, ms))
    requires Unique(MergeIds(selectId, cmp, ms, KeepIn(ids, keep), entities))
    requires forall j :: 0 <= j < |ids| && ids[j] !in keep ==>
               IdAt(MergeIds(selectId, cmp, ms, KeepIn(ids, keep), entities), j) == ids[j]
    requires |ms| + |KeepIn(ids, keep)| == |ids|
    requires ids != [] && ids[0] !in keep
    ensures MergeIds(selectId, cmp, ms, KeepIn(ids, keep), entities) == ids
    decreases |ids|, 0
  {
    var x := ids[0];
    var rest := ids[1..];
    assert ids == [x] + rest;
    var k := KeepIn(ids, keep);
    assert k == KeepIn(rest, keep);
    assert x in KeySet(selectId, ms);
    assert IdAt(MergeIds(selectId, cmp, ms, k, entities), 0) == x;
    MergeHeadModel(selectId, cmp, ms, k, entities, x);
    VacatedTail(selectId, cmp, ms, ids, keep, entities);
    MergeBackInPlace(selectId, cmp, ms[1..], rest, keep, entities);
  }

  /** When the merge starts with an id that is not among the kept ones, it starts with the first model. */
  lemma MergeHeadModel(selectId: Record -> Key, cmp: Comparer, ms: seq<Record>, k: seq<Key>,
                       entities: map<Key, Record>, x: Key)
    requires ms != [] && x !in k && IdAt(MergeIds(selectId, cmp, ms, k, entities), 0) == x
    ensures selectId(ms[0]) == x
    ensures MergeIds(selectId, cmp, ms, k, entities) == [x] + MergeIds(selectId, cmp, ms[1..], k, entities)
  {
    if k == [] {
      assert KeysOf(selectId, ms) == [selectId(ms[0])] + KeysOf(selectId, ms[1..]);
    }
  }

  /** After the first model went back to the first place, the rest of the merge rebuilds the rest of ids. */
  lemma VacatedTail(selectId: Record -> Key, cmp: Comparer, ms: seq<Record>, ids: seq<Key>,
                    keep: set<Key>, entities: map<Key, Record>)
    requires Unique(ids) && DistinctKeys(selectId, ms)
    requires VacatedAre(ids, keep, KeySet(selectId, ms))
    requires Unique(MergeIds(selectId, cmp, ms, KeepIn(ids, keep), entities))
    requires forall j :: 0 <= j < |ids| && ids[j] !in keep ==>
               IdAt(MergeIds(selectId, cmp, ms, KeepIn(ids, keep), entities), j) == ids[j]
    requires ids != [] && ids[0] !in keep && ms != [] && selectId(ms[0]) == ids[0]
    requires KeepIn(ids, keep) == KeepIn(ids[1..], keep)
    requires MergeIds(selectId, cmp, ms, KeepIn(ids, keep), entities)
             == [ids[0]] + MergeIds(selectId, cmp, ms[1..], KeepIn(ids, keep), entities)
    ensures Unique(ids[1..]) && DistinctKeys(selectId, ms[1..])
    ensures VacatedAre(ids[1..], keep, KeySet(selectId, ms[1..]))
    ensures Unique(MergeIds(selectId, cmp, ms[1..], KeepIn(ids[1..], keep), entities))
    ensures forall j :: 0 <= j < |ids[1..]| && ids[1..][j] !in keep ==>
              IdAt(MergeIds(selectId, cmp, ms[1..], KeepIn(ids[1..], keep), entities), j) == ids[1..][j]
  {
    VacatedTailKeys(selectId, ms, ids, keep);
    PlacesShift(ids, keep, MergeIds(selectId, cmp, ms, KeepIn(ids, keep), entities),
                MergeIds(selectId, cmp, ms[1..], KeepIn(ids[1..], keep), entities));
  }

  /** The first model and the first id leave together: the rest still matches. */
  lemma VacatedTailKeys(selectId: Record -> Key, ms: seq<Record>, ids: seq<Key>, keep: set<Key>)
    requires Unique(ids) && DistinctKeys(selectId, ms)
    requires VacatedAre(ids, keep, KeySet(selectId, ms))
    requires ids != [] && ids[0] !in keep && ms != [] && selectId(ms[0]) == ids[0]
    ensures Unique(ids[1..]) && DistinctKeys(selectId, ms[1..])
    ensures VacatedAre(ids[1..], keep, KeySet(selectId, ms[1..]))
  {
    var x := ids[0];
    var rest := ids[1..];
    assert ids == [x] + rest;
    UniqueTail(x, rest);
    DropKey(selectId, ms, 0);
    assert ms[..0] + ms[1..] == ms[1..];
    assert forall t :: t in ids <==> t == x || t in rest;
  }

  /**
   * When the merge starts with the first id, what holds of its places holds
   * one place further on for the merge of the rest.
   */
  lemma PlacesShift(ids: seq<Key>, keep: set<Key>, z: seq<Key>, zr: seq<Key>)
    requires ids != [] && z == [ids[0]] + zr && Unique(z)
    requires forall j :: 0 <= j < |ids| && ids[j] !in keep ==> IdAt(z, j) == ids[j]
    ensures Unique(zr)
    ensures forall j :: 0 <= j < |ids[1..]| && ids[1..][j] !in keep ==> IdAt(zr, j) == ids[1..][j]
  {
    UniqueTail(ids[0], zr);
    forall j | 0 <= j < |ids[1..]| && ids[1..][j] !in keep ensures IdAt(zr, j) == ids[1..][j] {
      assert IdAt(z, j + 1) == ids[j + 1];
    }
  }


  /**
   * What `l` hands to the merge when no update changes its record's id: the
   * filtered collection is valid, the set-aside records have distinct ids that
   * are exactly the vacated ones, and none of them is still in ids.
   */
  lemma SUpdateSetup(selectId: Record -> Key, ups: seq<Update>, c: Collection)
    requires Valid(c) && !SApplyUpdates(selectId, ups, c.entities).2
    ensures var (e, pushed, _) := SApplyUpdates(selectId, ups, c.entities);
            Valid(Collection(KeepIn(c.ids, e.Keys), e))
            && DistinctKeys(selectId, pushed)
            && VacatedAre(c.ids, e.Keys, KeySet(selectId, pushed))
            && (forall k :: k in KeepIn(c.ids, e.Keys) ==> k !in KeySet(selectId, pushed))
  {
    var (e, pushed, _) := SApplyUpdates(selectId, ups, c.entities);
    SApplyUpdatesNoRekey(selectId, ups, c.entities);
    KeepInUnique(c.ids, e.Keys);
  }

  /** Sorted updateMany reports `None` exactly when no update names a stored id. */
  lemma SUpdateManyNone(selectId: Record -> Key, cmp: Comparer, ups: seq<Update>, c: Collection)
    ensures SUpdateManySpec(selectId, cmp, ups, c).1 == None <==> forall u :: u in ups ==> u.id !in c.entities
  {
    SApplyUpdatesNone(selectId, ups, c.entities);
  }

  /**
   * The classification of sorted updateMany is sound: `EntitiesOnly` is
   * reported only when the merge has rebuilt ids exactly.
   */
  lemma SUpdateManyAgrees(selectId: Record -> Key, cmp: Comparer, ups: seq<Update>, c: Collection)
    requires Valid(c)
    ensures Agrees(c, SUpdateManySpec(selectId, cmp, ups, c).0, SUpdateManySpec(selectId, cmp, ups, c).1)
  {
    var (e, pushed, changed) := SApplyUpdates(selectId, ups, c.entities);
    if |pushed| != 0 && !changed {
      var ms := SortBy(cmp, pushed);
      var merged := MergeIds(selectId, cmp, ms, KeepIn(c.ids, e.Keys), e);
      if Stayed(c.ids, merged, Vacated(c.ids, e.Keys)) {
        SUpdateMergeSetup(selectId, cmp, ups, c);
        StayedRebuilds(selectId, cmp, ms, c.ids, e.Keys, e);
      }
    }
  }

  /** What the merge of sorted updateMany starts from, when no update changes its record's id. */
  lemma SUpdateMergeSetup(selectId: Record -> Key, cmp: Comparer, ups: seq<Update>, c: Collection)
    requires Valid(c) && !SApplyUpdates(selectId, ups, c.entities).2
    ensures var (e, pushed, _) := SApplyUpdates(selectId, ups, c.entities);
            var ms := SortBy(cmp, pushed);
            DistinctKeys(selectId, ms) && VacatedAre(c.ids, e.Keys, KeySet(selectId, ms)) &&
            Unique(MergeIds(selectId, cmp, ms, KeepIn(c.ids, e.Keys), e))
  {
    var (e, pushed, _) := SApplyUpdates(selectId, ups, c.entities);
    SUpdateSetup(selectId, ups, c);
    MergeUnique(selectId, cmp, pushed, Collection(KeepIn(c.ids, e.Keys), e));
    SortByKeys(selectId, cmp, pushed);
  }

  /** When every vacated place is refilled by its own id, the merge has rebuilt ids exactly. */
  lemma StayedRebuilds(selectId: Record -> Key, cmp: Comparer, ms: seq<Record>, ids: seq<Key>,
                       keep: set<Key>, e: map<Key, Record>)
    requires Unique(ids) && DistinctKeys(selectId, ms) && VacatedAre(ids, keep, KeySet(selectId, ms))
    requires Unique(MergeIds(selectId, cmp, ms, KeepIn(ids, keep), e))
    requires Stayed(ids, MergeIds(selectId, cmp, ms, KeepIn(ids, keep), e), Vacated(ids, keep))
    ensures MergeIds(selectId, cmp, ms, KeepIn(ids, keep), e) == ids
  {
    var vac := Vacated(ids, keep);
    forall j | 0 <= j < |ids| && ids[j] !in keep
      ensures IdAt(MergeIds(selectId, cmp, ms, KeepIn(ids, keep), e), j) == ids[j]
    {
      var i :| 0 <= i < |vac| && vac[i] == j;
    }
    MergeBackInPlace(selectId, cmp, ms, ids, keep, e);
  }

  /** Merging records with fresh, distinct keys into ids without repetitions repeats no id. */
  lemma MergeUnique(selectId: Record -> Key, cmp: Comparer, models: seq<Record>, c: Collection)
    requires DistinctKeys(selectId, models) && Unique(c.ids)
    requires forall k :: k in c.ids ==> k !in KeySet(selectId, models)
    ensures Unique(MergeSpec(selectId, cmp, models, c).ids)
  {
    MergeFacts(selectId, cmp, models, c);
  }

  /** When no update changes its record's id, sorted updateMany keeps the collection valid. */
  lemma SUpdateManyValid(selectId: Record -> Key, cmp: Comparer, ups: seq<Update>, c: Collection)
    requires Valid(c) && !SApplyUpdates(selectId, ups, c.entities).2
    ensures Valid(SUpdateManySpec(selectId, cmp, ups, c).0)
  {
    var (e, pushed, changed) := SApplyUpdates(selectId, ups, c.entities);
    if |pushed| != 0 {
      SUpdateSetup(selectId, ups, c);
      MergeFacts(selectId, cmp, pushed, Collection(KeepIn(c.ids, e.Keys), e));
    }
  }

  /**
   * When no update changes its record's id, sorted updateMany keeps a sorted
   * collection sorted under a total, transitive comparer.
   */
  lemma SUpdateManySorted(selectId: Record -> Key, cmp: Comparer, ups: seq<Update>, c: Collection)
    requires Valid(c) && !SApplyUpdates(selectId, ups, c.entities).2
    requires Total(cmp) && Transitive(cmp) && SortedIds(cmp, c)
    ensures SortedIds(cmp, SUpdateManySpec(selectId, cmp, ups, c).0)
  {
    var (e, pushed, changed) := SApplyUpdates(selectId, ups, c.entities);
    if |pushed| != 0 {
      var kept := Collection(KeepIn(c.ids, e.Keys), e);
      SUpdateSetup(selectId, ups, c);
      KeepInSorted(cmp, c.ids, e.Keys, c.entities);
      assert SortedIds(cmp, kept) by {
        var a := RecordsOf(kept.ids, e);
        var b := RecordsOf(kept.ids, c.entities);
        forall i | 0 <= i < |kept.ids| ensures a[i] == b[i] {
          assert kept.ids[i] in e;
        }
        assert a == b;
      }
      MergeFacts(selectId, cmp, pushed, kept);
    }
  }

  /** Filtering out one id is filtering by every other id. */
  lemma {:induction false} WithoutKeepIn(ids: seq<Key>, k: Key, keep: set<Key>)
    requires forall t :: t in ids ==> (t in keep <==> t != k)
    ensures Without(ids, k) == KeepIn(ids, keep)
  {
    if ids != [] {
      assert forall t :: t in ids[1..] ==> t in ids;
      WithoutKeepIn(ids[1..], k, keep);
    }
  }

  /**
   * setOne on the sorted adapter: the record is stored under its id, the
   * collection stays valid, and a sorted collection stays sorted.
   */
  lemma SSetOneFacts(selectId: Record -> Key, cmp: Comparer, rec: Record, c: Collection)
    requires Valid(c)
    ensures var (c2, m) := SSetOneSpec(selectId, cmp, rec, c);
            m == Both && Valid(c2) && selectId(rec) in c2.entities && c2.entities[selectId(rec)] == rec
    ensures Total(cmp) && Transitive(cmp) && SortedIds(cmp, c) ==> SortedIds(cmp, SSetOneSpec(selectId, cmp, rec, c).0)
  {
    var k := selectId(rec);
    assert SortBy(cmp, [rec]) == [rec];
    PutAllGet(selectId, [rec], c.entities);
    if k in c.entities {
      var kept := Collection(Without(c.ids, k), c.entities);
      assert KeySet(selectId, [rec]) == {k};
      MergeFacts(selectId, cmp, [rec], kept);
      MergeIdsElems(selectId, cmp, [rec], kept.ids, kept.entities);
      if Total(cmp) && Transitive(cmp) && SortedIds(cmp, c) {
        WithoutKeepIn(c.ids, k, c.entities.Keys - {k});
        KeepInSorted(cmp, c.ids, c.entities.Keys - {k}, c.entities);
      }
    } else {
      assert FreshModels(selectId, [rec], c.entities) == [rec];
      SAddManyFacts(selectId, cmp, [rec], c);
    }
  }

  /** The classification of sorted upsertMany is sound on a valid collection. */
  lemma SUpsertManyAgrees(selectId: Record -> Key, cmp: Comparer, recs: seq<Record>, c: Collection)
    requires Valid(c)
    ensures Agrees(c, SUpsertManySpec(selectId, cmp, recs, c).0, SUpsertManySpec(selectId, cmp, recs, c).1)
  {
    var (ups, adds) := SplitUpserts(selectId, recs, c.entities);
    SUpdateManyAgrees(selectId, cmp, ups, c);
    var c1 := SUpdateManySpec(selectId, cmp, ups, c).0;
    SAddManyFacts(selectId, cmp, adds, c1);
  }
}

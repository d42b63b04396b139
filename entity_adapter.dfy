/**
 * `createEntityAdapter` of staticfiles/ang/common-es5.js: the configured
 * adapter, the state operators it returns (each helper wrapped by `a`),
 * `getInitialState`, `removeAll` and the selectors of `getSelectors`.
 */
module EntityAdapter {
  import opened JsValues
  import opened EntityState
  import U = UnsortedAdapter
  import S = SortedAdapter
  import W = Wrappers

  /** The configuration after defaults: `selectId` and `sortComparer` (`false` is `W.None`). */
  datatype Adapter = Adapter(selectId: Record -> Key, sortComparer: W.Option<S.Comparer>)

  /**
   * `createEntityAdapter(options)`: `Object.assign({sortComparer: false,
   * selectId: t => t.id}, options)`; a comparer selects the sorted adapter.
   */
  function CreateEntityAdapter(selectId: W.Option<Record -> Key>, sortComparer: W.Option<S.Comparer>): (a: Adapter)
    ensures selectId.Some? ==> a.selectId == selectId.value
    ensures selectId.None? ==> forall r :: a.selectId(r) == Field(r, "id")
    ensures a.sortComparer == sortComparer
  {
    Adapter(if selectId.Some? then selectId.value else SelectIdDefault, sortComparer)
  }

  /** The state operators every adapter returns, with their payload. */
  datatype Operation =
    | AddOne(rec: Record)
    | AddMany(recs: seq<Record>)
    | AddAll(recs: seq<Record>)
    | SetAll(recs: seq<Record>)
    | SetOne(rec: Record)
    | UpdateOne(update: Update)
    | UpdateMany(updates: seq<Update>)
    | UpsertOne(rec: Record)
    | UpsertMany(recs: seq<Record>)
    | RemoveOne(key: Key)
    | RemoveMany(removal: U.Removal)
    | MapAll(f: Record -> Mapped)

  /** The helper each operator wraps, on the adapter the configuration selects. */
  function Run(a: Adapter, op: Operation, c: Collection): (Collection, DidMutate)
  {
    match a.sortComparer
    case None => RunUnsortedSpec(a.selectId, op, c)
    case Some(cmp) => RunSortedSpec(a.selectId, cmp, op, c)
  }

  /** The unsorted adapter's helper for each operator. */
  function RunUnsortedSpec(sel: Record -> Key, op: Operation, c: Collection): (Collection, DidMutate)
  {
    match op
    case AddOne(r) => U.AddOneSpec(sel, r, c)
    case AddMany(rs) => U.AddManySpec(sel, rs, c)
    case AddAll(rs) => U.SetAllSpec(sel, rs, c)
    case SetAll(rs) => U.SetAllSpec(sel, rs, c)
    case SetOne(r) => U.SetOneSpec(sel, r, c)
    case UpdateOne(u) => U.UpdateManySpec(sel, [u], c)
    case UpdateMany(us) => U.UpdateManySpec(sel, us, c)
    case UpsertOne(r) => U.UpsertManySpec(sel, [r], c)
    case UpsertMany(rs) => U.UpsertManySpec(sel, rs, c)
    case RemoveOne(k) => U.RemoveManySpec(U.Keys([k]), c)
    case RemoveMany(rm) => U.RemoveManySpec(rm, c)
    case MapAll(f) => U.MapSpec(sel, f, c)
  }

  /** The sorted adapter's helper for each operator; removal is shared with the unsorted adapter. */
  function RunSortedSpec(sel: Record -> Key, cmp: S.Comparer, op: Operation, c: Collection): (Collection, DidMutate)
  {
    match op
    case AddOne(r) => S.SAddManySpec(sel, cmp, [r], c)
    case AddMany(rs) => S.SAddManySpec(sel, cmp, rs, c)
    case AddAll(rs) => S.SSetAllSpec(sel, cmp, rs, c)
    case SetAll(rs) => S.SSetAllSpec(sel, cmp, rs, c)
    case SetOne(r) => S.SSetOneSpec(sel, cmp, r, c)
    case UpdateOne(u) => S.SUpdateManySpec(sel, cmp, [u], c)
    case UpdateMany(us) => S.SUpdateManySpec(sel, cmp, us, c)
    case UpsertOne(r) => S.SUpsertManySpec(sel, cmp, [r], c)
    case UpsertMany(rs) => S.SUpsertManySpec(sel, cmp, rs, c)
    case RemoveOne(k) => U.RemoveManySpec(U.Keys([k]), c)
    case RemoveMany(rm) => U.RemoveManySpec(rm, c)
    case MapAll(f) => S.SMapSpec(sel, cmp, f, c)
  }

  /** The state an operator returns: the helper's copy committed by the wrapper `a`. */
  function ApplySpec<X>(a: Adapter, op: Operation, s: EntityState<X>): EntityState<X>
  {
    var (c, m) := Run(a, op, s.Owned());
    Commit(s, c, m)
  }

  /** The wrapper `a`: copy ids and entities, let the helper update the copy, commit. */
  method Apply<X>(a: Adapter, op: Operation, s: EntityState<X>) returns (r: EntityState<X>)
    ensures r == ApplySpec(a, op, s)
  {
    var d := new Draft(s.Owned());
    var m: DidMutate;
    match a.sortComparer {
      case None => m := RunUnsorted(a.selectId, op, d);
      case Some(cmp) => m := RunSorted(a.selectId, cmp, op, d);
    }
    r := Commit(s, d.Value(), m);
  }

  /** The unsorted adapter's helper for each operator, run on the draft. */
  method RunUnsorted(sel: Record -> Key, op: Operation, d: Draft) returns (m: DidMutate)
    modifies d
    ensures (d.Value(), m) == RunUnsortedSpec(sel, op, old(d.Value()))
  {
    if op.AddOne? || op.AddMany? || op.AddAll? || op.SetAll? || op.SetOne? {
      m := RunUnsortedAdds(sel, op, d);
    } else {
      match op {
        case UpdateOne(u) => m := U.UpdateMany(sel, [u], d);
        case UpdateMany(us) => m := U.UpdateMany(sel, us, d);
        case UpsertOne(rec) => m := U.UpsertMany(sel, [rec], d);
        case UpsertMany(rs) => m := U.UpsertMany(sel, rs, d);
        case RemoveOne(k) => m := U.RemoveMany(U.Keys([k]), d);
        case RemoveMany(rm) => m := U.RemoveMany(rm, d);
        case MapAll(f) => m := U.Map(sel, f, d);
      }
    }
  }

  /** The unsorted helpers that add or replace, run on the draft. */
  method RunUnsortedAdds(sel: Record -> Key, op: Operation, d: Draft) returns (m: DidMutate)
    requires op.AddOne? || op.AddMany? || op.AddAll? || op.SetAll? || op.SetOne?
    modifies d
    ensures (d.Value(), m) == RunUnsortedSpec(sel, op, old(d.Value()))
  {
    match op {
      case AddOne(rec) => m := U.AddOne(sel, rec, d);
      case AddMany(rs) => m := U.AddMany(sel, rs, d);
      case AddAll(rs) => m := U.SetAll(sel, rs, d);
      case SetAll(rs) => m := U.SetAll(sel, rs, d);
      case SetOne(rec) => m := U.SetOne(sel, rec, d);
    }
  }

  /** The sorted adapter's helper for each operator, run on the draft. */
  method RunSorted(sel: Record -> Key, cmp: S.Comparer, op: Operation, d: Draft) returns (m: DidMutate)
    modifies d
    ensures (d.Value(), m) == RunSortedSpec(sel, cmp, op, old(d.Value()))
  {
    if op.AddOne? || op.AddMany? || op.AddAll? || op.SetAll? || op.SetOne? {
      m := RunSortedAdds(sel, cmp, op, d);
    } else if op.UpdateOne? || op.UpdateMany? || op.MapAll? {
      m := RunSortedUpdates(sel, cmp, op, d);
    } else {
      match op {
        case UpsertOne(rec) => m := S.SUpsertMany(sel, cmp, [rec], d);
        case UpsertMany(rs) => m := S.SUpsertMany(sel, cmp, rs, d);
        case RemoveOne(k) => m := U.RemoveMany(U.Keys([k]), d);
        case RemoveMany(rm) => m := U.RemoveMany(rm, d);
      }
    }
  }

  /** The sorted helpers that only add, run on the draft. */
  method RunSortedAdds(sel: Record -> Key, cmp: S.Comparer, op: Operation, d: Draft) returns (m: DidMutate)
    requires op.AddOne? || op.AddMany? || op.AddAll? || op.SetAll? || op.SetOne?
    modifies d
    ensures (d.Value(), m) == RunSortedSpec(sel, cmp, op, old(d.Value()))
  {
    match op {
      case AddOne(rec) => m := S.SAddOne(sel, cmp, rec, d);
      case AddMany(rs) => m := S.SAddMany(sel, cmp, rs, d);
      case AddAll(rs) => m := S.SSetAll(sel, cmp, rs, d);
      case SetAll(rs) => m := S.SSetAll(sel, cmp, rs, d);
      case SetOne(rec) => m := S.SSetOne(sel, cmp, rec, d);
    }
  }

  /** The sorted helpers built on `l`, run on the draft. */
  method RunSortedUpdates(sel: Record -> Key, cmp: S.Comparer, op: Operation, d: Draft) returns (m: DidMutate)
    requires op.UpdateOne? || op.UpdateMany? || op.MapAll?
    modifies d
    ensures (d.Value(), m) == RunSortedSpec(sel, cmp, op, old(d.Value()))
  {
    match op {
      case UpdateOne(u) => m := S.SUpdateOne(sel, cmp, u, d);
      case UpdateMany(us) => m := S.SUpdateMany(sel, cmp, us, d);
      case MapAll(f) => m := S.SMap(sel, cmp, f, d);
    }
  }

  /** Every unsorted helper's classification agrees with what it did to the copy. */
  lemma UnsortedAgrees(sel: Record -> Key, op: Operation, c: Collection)
    ensures Agrees(c, RunUnsortedSpec(sel, op, c).0, RunUnsortedSpec(sel, op, c).1)
  {
    match op {
      case AddOne(rec) => UnsortedAddsAgree(sel, op, c);
      case AddMany(rs) => UnsortedAddsAgree(sel, op, c);
      case AddAll(rs) => UnsortedAddsAgree(sel, op, c);
      case SetAll(rs) => UnsortedAddsAgree(sel, op, c);
      case SetOne(rec) => UnsortedAddsAgree(sel, op, c);
      case UpdateOne(u) => UnsortedUpdatesAgree(sel, [u], c);
      case UpdateMany(us) => UnsortedUpdatesAgree(sel, us, c);
      case UpsertOne(rec) => UnsortedUpsertsAgree(sel, [rec], c);
      case UpsertMany(rs) => UnsortedUpsertsAgree(sel, rs, c);
      case RemoveOne(k) => UnsortedRemovalAgrees(U.Keys([k]), c);
      case RemoveMany(rm) => UnsortedRemovalAgrees(rm, c);
      case MapAll(f) => UnsortedUpdatesAgree(sel, U.MapUpdates(f, c.ids, c.entities), c);
    }
  }

  /** The unsorted helpers that add or replace: their classification agrees with what they did. */
  lemma UnsortedAddsAgree(sel: Record -> Key, op: Operation, c: Collection)
    requires op.AddOne? || op.AddMany? || op.AddAll? || op.SetAll? || op.SetOne?
    ensures Agrees(c, RunUnsortedSpec(sel, op, c).0, RunUnsortedSpec(sel, op, c).1)
  {
    if op.AddMany? {
      U.AddManyFacts(sel, op.recs, c);
    }
  }

  /** Unsorted updateMany: its classification agrees with what it did. */
  lemma UnsortedUpdatesAgree(sel: Record -> Key, ups: seq<Update>, c: Collection)
    ensures Agrees(c, U.UpdateManySpec(sel, ups, c).0, U.UpdateManySpec(sel, ups, c).1)
  {
    U.UpdateManyFacts(sel, ups, c);
  }

  /** Unsorted upsertMany: its classification agrees with what it did. */
  lemma UnsortedUpsertsAgree(sel: Record -> Key, recs: seq<Record>, c: Collection)
    ensures Agrees(c, U.UpsertManySpec(sel, recs, c).0, U.UpsertManySpec(sel, recs, c).1)
  {
    U.UpsertManyAgrees(sel, recs, c);
  }

  /** removeMany: its classification agrees with what it did. */
  lemma UnsortedRemovalAgrees(r: U.Removal, c: Collection)
    ensures Agrees(c, U.RemoveManySpec(r, c).0, U.RemoveManySpec(r, c).1)
  {
    U.RemoveManyFacts(r, c);
  }

  /** The sorted helpers that only add: their classification agrees with what they did. */
  lemma SortedAddsAgree(sel: Record -> Key, cmp: S.Comparer, op: Operation, c: Collection)
    requires Valid(c)
    requires op.AddOne? || op.AddMany? || op.AddAll? || op.SetAll? || op.SetOne?
    ensures Agrees(c, RunSortedSpec(sel, cmp, op, c).0, RunSortedSpec(sel, cmp, op, c).1)
  {
    match op {
      case AddOne(rec) => SortedAddManyAgrees(sel, cmp, [rec], c);
      case AddMany(rs) => SortedAddManyAgrees(sel, cmp, rs, c);
      case AddAll(rs) =>
      case SetAll(rs) =>
      case SetOne(rec) => S.SSetOneFacts(sel, cmp, rec, c);
    }
  }

  /** Sorted addMany: its classification agrees with what it did. */
  lemma SortedAddManyAgrees(sel: Record -> Key, cmp: S.Comparer, recs: seq<Record>, c: Collection)
    requires Valid(c)
    ensures Agrees(c, S.SAddManySpec(sel, cmp, recs, c).0, S.SAddManySpec(sel, cmp, recs, c).1)
  {
    S.SAddManyFacts(sel, cmp, recs, c);
  }

  /** The sorted helpers built on `l`: their classification agrees with what they did. */
  lemma SortedUpdatesAgree(sel: Record -> Key, cmp: S.Comparer, op: Operation, c: Collection)
    requires Valid(c)
    requires op.UpdateOne? || op.UpdateMany? || op.MapAll?
    ensures Agrees(c, RunSortedSpec(sel, cmp, op, c).0, RunSortedSpec(sel, cmp, op, c).1)
  {
    var ups := match op
      case UpdateOne(u) => [u]
      case UpdateMany(us) => us
      case MapAll(f) => U.MapUpdates(f, c.ids, c.entities);
    assert RunSortedSpec(sel, cmp, op, c) == S.SUpdateManySpec(sel, cmp, ups, c);
    S.SUpdateManyAgrees(sel, cmp, ups, c);
  }

  /** Every sorted helper's classification agrees with what it did to a valid copy. */
  lemma SortedAgrees(sel: Record -> Key, cmp: S.Comparer, op: Operation, c: Collection)
    requires Valid(c)
    ensures Agrees(c, RunSortedSpec(sel, cmp, op, c).0, RunSortedSpec(sel, cmp, op, c).1)
  {
    if op.AddOne? || op.AddMany? || op.AddAll? || op.SetAll? || op.SetOne? {
      SortedAddsAgree(sel, cmp, op, c);
    } else if op.UpdateOne? || op.UpdateMany? || op.MapAll? {
      SortedUpdatesAgree(sel, cmp, op, c);
    } else if op.UpsertOne? {
      S.SUpsertManyAgrees(sel, cmp, [op.rec], c);
    } else if op.UpsertMany? {
      S.SUpsertManyAgrees(sel, cmp, op.recs, c);
    } else {
      UnsortedRemovalAgrees(if op.RemoveOne? then U.Keys([op.key]) else op.removal, c);
    }
  }

  /**
   * On a valid state, every operator returns a state whose ids and entities
   * are the helper's result and whose other fields are kept; `None` returns
   * the input state itself and `EntitiesOnly` keeps its ids.
   */
  lemma ApplyCommits<X>(a: Adapter, op: Operation, s: EntityState<X>)
    requires Valid(s.Owned())
    ensures ApplySpec(a, op, s).Owned() == Run(a, op, s.Owned()).0
    ensures ApplySpec(a, op, s).rest == s.rest
    ensures Run(a, op, s.Owned()).1 == None ==> ApplySpec(a, op, s) == s
    ensures Run(a, op, s.Owned()).1 == EntitiesOnly ==> ApplySpec(a, op, s).ids == s.ids
  {
    if a.sortComparer.Some? {
      SortedAgrees(a.selectId, a.sortComparer.value, op, s.Owned());
    } else {
      UnsortedAgrees(a.selectId, op, s.Owned());
    }
    var (c, m) := Run(a, op, s.Owned());
    CommitHoldsDraft(s, c, m);
  }

  /** Adding a record whose id is already stored returns the very same state, on either adapter. */
  lemma AddExistingIsNoop<X>(a: Adapter, rec: Record, s: EntityState<X>)
    requires a.selectId(rec) in s.entities
    ensures ApplySpec(a, AddOne(rec), s) == s
  {
    if a.sortComparer.Some? {
      S.SAddManyFacts(a.selectId, a.sortComparer.value, [rec], s.Owned());
    }
  }

  /** Removing an id that is not stored returns the very same state, on either adapter. */
  lemma RemoveAbsentIsNoop<X>(a: Adapter, k: Key, s: EntityState<X>)
    requires k !in s.entities
    ensures ApplySpec(a, RemoveOne(k), s) == s
  {
    U.RemoveManyFacts(U.Keys([k]), s.Owned());
  }

  /** Updates that name no stored id return the very same state, on either adapter. */
  lemma UpdateAbsentIsNoop<X>(a: Adapter, ups: seq<Update>, s: EntityState<X>)
    requires forall u :: u in ups ==> u.id !in s.entities
    ensures ApplySpec(a, UpdateMany(ups), s) == s
  {
    if a.sortComparer.Some? {
      S.SUpdateManyNone(a.selectId, a.sortComparer.value, ups, s.Owned());
    } else {
      U.UpdateManyFacts(a.selectId, ups, s.Owned());
    }
  }

  /** `getInitialState(extra)`: empty ids and entities alongside the feature's own fields. */
  function GetInitialState<X>(extra: X): (s: EntityState<X>)
    ensures Valid(s.Owned()) && |s.ids| == 0 && s.rest == extra
  {
    EntityState([], map[], extra)
  }

  /** `removeAll`: not wrapped; empty ids and entities, every other field kept. */
  function RemoveAll<X>(s: EntityState<X>): (r: EntityState<X>)
    ensures Valid(r.Owned()) && |r.ids| == 0 && r.rest == s.rest
  {
    s.(ids := [], entities := map[])
  }

  /** `selectIds`. */
  function SelectIds<X>(s: EntityState<X>): seq<Key>
  {
    s.ids
  }

  /** `selectEntities`. */
  function SelectEntities<X>(s: EntityState<X>): map<Key, Record>
  {
    s.entities
  }

  /** `selectAll`: `ids.map(t => entities[t])`; an id without an entry reads as `undefined`. */
  function SelectAll<X>(s: EntityState<X>): (r: seq<W.Option<Record>>)
    ensures |r| == |s.ids|
    ensures forall i :: 0 <= i < |r| ==> (r[i].Some? <==> s.ids[i] in s.entities)
    ensures forall i :: 0 <= i < |r| && s.ids[i] in s.entities ==> r[i] == W.Some(s.entities[s.ids[i]])
  {
    seq(|s.ids|, i requires 0 <= i < |s.ids| =>
      if s.ids[i] in s.entities then W.Some(s.entities[s.ids[i]]) else W.None)
  }

  /** `selectTotal`: `ids.length`. */
  function SelectTotal<X>(s: EntityState<X>): nat
  {
    |s.ids|
  }

  /** The distinct ids of a sequence number as many as its elements. */
  lemma {:induction false} UniqueCount(ids: seq<Key>)
    requires Unique(ids)
    ensures |U.Elems(ids)| == |ids|
  {
    if ids != [] {
      var rest := ids[1..];
      assert ids == [ids[0]] + rest;
      S.UniqueTail(ids[0], rest);
      UniqueCount(rest);
      assert U.Elems(ids) == U.Elems(rest) + {ids[0]};
    }
  }

  /** On a valid state, `selectTotal` is the number of stored records. */
  lemma SelectTotalCounts<X>(s: EntityState<X>)
    requires Valid(s.Owned())
    ensures SelectTotal(s) == |s.entities|
  {
    UniqueCount(s.ids);
    assert U.Elems(s.ids) == s.entities.Keys;
  }

  /** On a valid state, `selectAll` lists every stored record, in ids order. */
  lemma SelectAllLists<X>(s: EntityState<X>)
    requires Valid(s.Owned())
    ensures forall i :: 0 <= i < |SelectAll(s)| ==> SelectAll(s)[i] == W.Some(s.entities[s.ids[i]])
    ensures forall k :: k in s.entities ==> exists i :: 0 <= i < |SelectAll(s)| && SelectAll(s)[i] == W.Some(s.entities[k])
  {
    forall k | k in s.entities
      ensures exists i :: 0 <= i < |SelectAll(s)| && SelectAll(s)[i] == W.Some(s.entities[k])
    {
      var i :| 0 <= i < |s.ids| && s.ids[i] == k;
      assert SelectAll(s)[i] == W.Some(s.entities[k]);
    }
  }

  /** On the sorted adapter, a state kept sorted lists its records in comparer order. */
  lemma SelectAllSorted<X>(cmp: S.Comparer, s: EntityState<X>)
    requires Valid(s.Owned()) && S.SortedIds(cmp, s.Owned())
    ensures forall i :: 0 <= i < |SelectAll(s)| - 1 ==>
              cmp(SelectAll(s)[i].value, SelectAll(s)[i + 1].value) <= 0
  {
    var rs := RecordsOf(s.ids, s.entities);
    forall i | 0 <= i < |SelectAll(s)| - 1
      ensures cmp(SelectAll(s)[i].value, SelectAll(s)[i + 1].value) <= 0
    {
      assert rs[i] == s.entities[s.ids[i]] && rs[i + 1] == s.entities[s.ids[i + 1]];
    }
  }
}

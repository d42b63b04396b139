/**
 * The unsorted entity adapter of staticfiles/ang/common-es5.js (the factory
 * `f`, chosen when no `sortComparer` is configured).  Each helper updates the
 * copied state in place and returns its classification; each is proved equal
 * to a pure specification function, and the properties the adapter promises
 * are proved about those functions.
 */
module UnsortedAdapter {
  import opened JsValues
  import opened EntityState

  // ---------------------------------------------------------------------------
  // n: addOne
  // ---------------------------------------------------------------------------

  function AddOneSpec(selectId: Record -> Key, rec: Record, c: Collection): (Collection, DidMutate)
  {
    var k := selectId(rec);
    if k in c.entities then (c, None)
    else (Collection(c.ids + [k], c.entities[k := rec]), Both)
  }

  method AddOne(selectId: Record -> Key, rec: Record, d: Draft) returns (m: DidMutate)
    modifies d
    ensures (d.Value(), m) == AddOneSpec(selectId, rec, old(d.Value()))
  {
    var k := selectId(rec);
    if k in d.entities {
      m := None;
    } else {
      d.ids := d.ids + [k];
      d.entities := d.entities[k := rec];
      m := Both;
    }
  }

  // ---------------------------------------------------------------------------
  // i: addMany, one record after the other
  // ---------------------------------------------------------------------------

  function AddManySpec(selectId: Record -> Key, recs: seq<Record>, c: Collection): (Collection, DidMutate)
    decreases |recs|
  {
    if recs == [] then (c, None)
    else
      var (c1, m1) := AddManySpec(selectId, recs[..|recs| - 1], c);
      var (c2, m2) := AddOneSpec(selectId, recs[|recs| - 1], c1);
      (c2, if m2 != None || m1 != None then Both else None)
  }

  method AddMany(selectId: Record -> Key, recs: seq<Record>, d: Draft) returns (m: DidMutate)
    modifies d
    ensures (d.Value(), m) == AddManySpec(selectId, recs, old(d.Value()))
  {
    var changed := false;
    for j := 0 to |recs|
      invariant (d.Value(), if changed then Both else None) == AddManySpec(selectId, recs[..j], old(d.Value()))
    {
      assert recs[..j + 1][..j] == recs[..j];
      var r := AddOne(selectId, recs[j], d);
      changed := r != None || changed;
    }
    assert recs[..|recs|] == recs;
    m := if changed then Both else None;
  }

  // ---------------------------------------------------------------------------
  // r: setAll / addAll, and setOne
  // ---------------------------------------------------------------------------

  function SetAllSpec(selectId: Record -> Key, recs: seq<Record>, c: Collection): (Collection, DidMutate)
  {
    (AddManySpec(selectId, recs, Collection([], map[])).0, Both)
  }

  method SetAll(selectId: Record -> Key, recs: seq<Record>, d: Draft) returns (m: DidMutate)
    modifies d
    ensures (d.Value(), m) == SetAllSpec(selectId, recs, old(d.Value()))
  {
    d.ids := [];
    d.entities := map[];
    var _ := AddMany(selectId, recs, d);
    m := Both;
  }

  function SetOneSpec(selectId: Record -> Key, rec: Record, c: Collection): (Collection, DidMutate)
  {
    var k := selectId(rec);
    if k in c.entities then (Collection(c.ids, c.entities[k := rec]), EntitiesOnly)
    else (Collection(c.ids + [k], c.entities[k := rec]), Both)
  }

  method SetOne(selectId: Record -> Key, rec: Record, d: Draft) returns (m: DidMutate)
    modifies d
    ensures (d.Value(), m) == SetOneSpec(selectId, rec, old(d.Value()))
  {
    var k := selectId(rec);
    if k in d.entities {
      d.entities := d.entities[k := rec];
      m := EntitiesOnly;
    } else {
      d.ids := d.ids + [k];
      d.entities := d.entities[k := rec];
      m := Both;
    }
  }

  // ---------------------------------------------------------------------------
  // o: removeMany, by a list of ids or by a predicate over the records
  // ---------------------------------------------------------------------------

  datatype Removal = Keys(keys: seq<Key>) | Where(pred: Record -> bool)

  /** `ids.filter(id => pred(entities[id]))`. */
  function Matching(ids: seq<Key>, entities: map<Key, Record>, pred: Record -> bool): (r: seq<Key>)
    ensures forall k :: k in r ==> k in ids
  {
    if ids == [] then []
    else (if pred(Lookup(entities, ids[0])) then [ids[0]] else []) + Matching(ids[1..], entities, pred)
  }

  /** The ids a removal names. */
  function Targets(r: Removal, c: Collection): seq<Key>
  {
    match r
    case Keys(ks) => ks
    case Where(p) => Matching(c.ids, c.entities, p)
  }

  function Elems(s: seq<Key>): set<Key>
  {
    set k | k in s
  }

  function RemoveManySpec(r: Removal, c: Collection): (Collection, DidMutate)
  {
    var hit := KeepIn(Targets(r, c), c.entities.Keys);
    if |hit| > 0 then
      var rest := c.entities - Elems(hit);
      (Collection(KeepIn(c.ids, rest.Keys), rest), Both)
    else (c, None)
  }

  method RemoveMany(r: Removal, d: Draft) returns (m: DidMutate)
    modifies d
    ensures (d.Value(), m) == RemoveManySpec(r, old(d.Value()))
  {
    var hit := KeepIn(Targets(r, d.Value()), d.entities.Keys);
    for j := 0 to |hit|
      invariant d.entities == old(d.entities) - Elems(hit[..j])
      invariant d.ids == old(d.ids)
    {
      assert Elems(hit[..j + 1]) == Elems(hit[..j]) + {hit[j]};
      d.entities := d.entities - {hit[j]};
    }
    assert hit[..|hit|] == hit;
    var removed := |hit| > 0;
    if removed {
      d.ids := KeepIn(d.ids, d.entities.Keys);
    }
    m := if removed then Both else None;
  }

  // ---------------------------------------------------------------------------
  // u: updateMany
  // ---------------------------------------------------------------------------

  /** `updates.filter(t => t.id in entities)`, evaluated before any update is applied. */
  function LiveUpdates(ups: seq<Update>, entities: map<Key, Record>): (r: seq<Update>)
    ensures |r| <= |ups|
    ensures forall u :: u in r <==> u in ups && u.id in entities
  {
    if ups == [] then []
    else (if ups[0].id in entities then [ups[0]] else []) + LiveUpdates(ups[1..], entities)
  }

  /**
   * One call of the filter callback: overlay the changes on the stored record;
   * when the record's id changes, remember the new id and delete the old entry;
   * store the merged record under its id; report whether the id changed.
   */
  function UpdateStep(selectId: Record -> Key, u: Update, entities: map<Key, Record>, renamed: map<Key, Key>)
    : (map<Key, Record>, map<Key, Key>, bool)
  {
    var merged := Assign(Lookup(entities, u.id), u.changes);
    var k := selectId(merged);
    if k != u.id then ((entities - {u.id})[k := merged], renamed[u.id := k], true)
    else (entities[k := merged], renamed, false)
  }

  function ApplyUpdates(selectId: Record -> Key, ups: seq<Update>, entities: map<Key, Record>)
    : (map<Key, Record>, map<Key, Key>, bool)
    decreases |ups|
  {
    if ups == [] then (entities, map[], false)
    else
      var (e1, r1, ch1) := ApplyUpdates(selectId, ups[..|ups| - 1], entities);
      var (e2, r2, ch2) := UpdateStep(selectId, ups[|ups| - 1], e1, r1);
      (e2, r2, ch2 || ch1)
  }

  /** The updates up to `j + 1` are those up to `j` followed by one more step. */
  lemma ApplyUpdatesStep(selectId: Record -> Key, ups: seq<Update>, j: nat, entities: map<Key, Record>)
    requires j < |ups|
    ensures var (e1, r1, ch1) := ApplyUpdates(selectId, ups[..j], entities);
            var (e2, r2, ch2) := UpdateStep(selectId, ups[j], e1, r1);
            ApplyUpdates(selectId, ups[..j + 1], entities) == (e2, r2, ch2 || ch1)
  {
    assert ups[..j + 1][..j] == ups[..j];
  }

  function UpdateManySpec(selectId: Record -> Key, ups: seq<Update>, c: Collection): (Collection, DidMutate)
  {
    var live := LiveUpdates(ups, c.entities);
    if |live| == 0 then (c, None)
    else
      var (e, renamed, changed) := ApplyUpdates(selectId, live, c.entities);
      if changed then (Collection(Rename(c.ids, renamed), e), Both)
      else (Collection(c.ids, e), EntitiesOnly)
  }

  method UpdateMany(selectId: Record -> Key, ups: seq<Update>, d: Draft) returns (m: DidMutate)
    modifies d
    ensures (d.Value(), m) == UpdateManySpec(selectId, ups, old(d.Value()))
  {
    var live := LiveUpdates(ups, d.entities);
    if |live| == 0 {
      return None;
    }
    var renamed: map<Key, Key> := map[];
    var changed := false;
    for j := 0 to |live|
      invariant d.ids == old(d.ids)
      invariant (d.entities, renamed, changed) == ApplyUpdates(selectId, live[..j], old(d.entities))
    {
      ApplyUpdatesStep(selectId, live, j, old(d.entities));
      ghost var before := (d.entities, renamed);
      var u := live[j];
      var merged := Assign(Lookup(d.entities, u.id), u.changes);
      var k := selectId(merged);
      var keyChanged := k != u.id;
      if keyChanged {
        renamed := renamed[u.id := k];
        d.entities := d.entities - {u.id};
      }
      d.entities := d.entities[k := merged];
      assert (d.entities, renamed, keyChanged) == UpdateStep(selectId, u, before.0, before.1);
      changed := keyChanged || changed;
    }
    assert live[..|live|] == live;
    if changed {
      d.ids := Rename(d.ids, renamed);
      m := Both;
    } else {
      m := EntitiesOnly;
    }
  }

  // ---------------------------------------------------------------------------
  // f: upsertMany, updates first and then adds
  // ---------------------------------------------------------------------------

  /** Route each record to an update (its id is stored) or to an add. */
  function SplitUpserts(selectId: Record -> Key, recs: seq<Record>, entities: map<Key, Record>)
    : (r: (seq<Update>, seq<Record>))
    ensures forall u :: u in r.0 ==> u.id == selectId(u.changes) && u.id in entities && u.changes in recs
    ensures forall a :: a in r.1 ==> selectId(a) !in entities && a in recs
    ensures |r.0| + |r.1| == |recs|
    decreases |recs|
  {
    if recs == [] then ([], [])
    else
      var (ups, adds) := SplitUpserts(selectId, recs[..|recs| - 1], entities);
      var r := recs[|recs| - 1];
      var k := selectId(r);
      if k in entities then (ups + [Update(k, r)], adds) else (ups, adds + [r])
  }

  function UpsertManySpec(selectId: Record -> Key, recs: seq<Record>, c: Collection): (Collection, DidMutate)
  {
    var (ups, adds) := SplitUpserts(selectId, recs, c.entities);
    var (c1, p) := UpdateManySpec(selectId, ups, c);
    var (c2, v) := AddManySpec(selectId, adds, c1);
    (c2, Combine(v, p))
  }

  method UpsertMany(selectId: Record -> Key, recs: seq<Record>, d: Draft) returns (m: DidMutate)
    modifies d
    ensures (d.Value(), m) == UpsertManySpec(selectId, recs, old(d.Value()))
  {
    var adds: seq<Record> := [];
    var ups: seq<Update> := [];
    for j := 0 to |recs|
      invariant (ups, adds) == SplitUpserts(selectId, recs[..j], d.entities)
    {
      assert recs[..j + 1][..j] == recs[..j];
      var k := selectId(recs[j]);
      if k in d.entities {
        ups := ups + [Update(k, recs[j])];
      } else {
        adds := adds + [recs[j]];
      }
    }
    assert recs[..|recs|] == recs;
    var p := UpdateMany(selectId, ups, d);
    var v := AddMany(selectId, adds, d);
    m := Combine(v, p);
  }

  // ---------------------------------------------------------------------------
  // map: every entity the function replaces becomes an update
  // ---------------------------------------------------------------------------

  /** The `reduce` over ids that collects `{id, changes: f(entity)}` for each replaced entity. */
  function MapUpdates(f: Record -> Mapped, ids: seq<Key>, entities: map<Key, Record>): (r: seq<Update>)
    ensures forall u :: u in r ==> u.id in ids
    decreases |ids|
  {
    if ids == [] then []
    else
      var prev := MapUpdates(f, ids[..|ids| - 1], entities);
      var id := ids[|ids| - 1];
      match f(Lookup(entities, id))
      case Same => prev
      case Replaced(r) => prev + [Update(id, r)]
  }

  function MapSpec(selectId: Record -> Key, f: Record -> Mapped, c: Collection): (Collection, DidMutate)
  {
    UpdateManySpec(selectId, LiveUpdates(MapUpdates(f, c.ids, c.entities), c.entities), c)
  }

  method Map(selectId: Record -> Key, f: Record -> Mapped, d: Draft) returns (m: DidMutate)
    modifies d
    ensures (d.Value(), m) == MapSpec(selectId, f, old(d.Value()))
  {
    var ups := LiveUpdates(MapUpdates(f, d.ids, d.entities), d.entities);
    m := UpdateMany(selectId, ups, d);
  }

  // ---------------------------------------------------------------------------
  // Properties
  // ---------------------------------------------------------------------------

  /** The set of ids of a batch. */
  function KeySet(selectId: Record -> Key, recs: seq<Record>): set<Key>
  {
    set j | 0 <= j < |recs| :: selectId(recs[j])
  }
  /** The ids of a batch are those of its front and the last record's. */
  lemma KeySetFront(selectId: Record -> Key, recs: seq<Record>)
    requires recs != []
    ensures KeySet(selectId, recs) == KeySet(selectId, recs[..|recs| - 1]) + {selectId(recs[|recs| - 1])}
  {
    assert forall j :: 0 <= j < |recs| - 1 ==> recs[..|recs| - 1][j] == recs[j];
  }


  /**
   * Reference definition of what addMany appends: the ids of the batch that
   * are not already known, each once, in the order of their first occurrence.
   */
  function NewKeys(selectId: Record -> Key, recs: seq<Record>, known: set<Key>): (r: seq<Key>)
    ensures Unique(r)
    ensures Elems(r) == KeySet(selectId, recs) - known
    decreases |recs|
  {
    if recs == [] then []
    else
      var prev := NewKeys(selectId, recs[..|recs| - 1], known);
      var k := selectId(recs[|recs| - 1]);
      assert KeySet(selectId, recs) == KeySet(selectId, recs[..|recs| - 1]) + {k} by {
        assert forall j :: 0 <= j < |recs| - 1 ==> recs[..|recs| - 1][j] == recs[j];
      }
      if k in known || k in prev then prev
      else
        assert Elems(prev + [k]) == Elems(prev) + {k};
        prev + [k]
  }

  /** addMany appends the new ids in batch order and stores one record under each. */
  lemma {:induction false} AddManyShape(selectId: Record -> Key, recs: seq<Record>, c: Collection)
    ensures AddManySpec(selectId, recs, c).0.ids == c.ids + NewKeys(selectId, recs, c.entities.Keys)
    ensures AddManySpec(selectId, recs, c).0.entities.Keys == c.entities.Keys + KeySet(selectId, recs)
    ensures AddManySpec(selectId, recs, c).1 == None <==> |NewKeys(selectId, recs, c.entities.Keys)| == 0
    decreases |recs|
  {
    if recs != [] {
      AddManyShape(selectId, recs[..|recs| - 1], c);
      AddManyShapeStep(selectId, recs, c);
    }
  }

  /** The shape of addMany carries over from a batch to the batch with one more record. */
  lemma AddManyShapeStep(selectId: Record -> Key, recs: seq<Record>, c: Collection)
    requires recs != []
    requires AddManySpec(selectId, recs[..|recs| - 1], c).0.ids
             == c.ids + NewKeys(selectId, recs[..|recs| - 1], c.entities.Keys)
    requires AddManySpec(selectId, recs[..|recs| - 1], c).0.entities.Keys
             == c.entities.Keys + KeySet(selectId, recs[..|recs| - 1])
    requires AddManySpec(selectId, recs[..|recs| - 1], c).1 == None
             <==> |NewKeys(selectId, recs[..|recs| - 1], c.entities.Keys)| == 0
    ensures AddManySpec(selectId, recs, c).0.ids == c.ids + NewKeys(selectId, recs, c.entities.Keys)
    ensures AddManySpec(selectId, recs, c).0.entities.Keys == c.entities.Keys + KeySet(selectId, recs)
    ensures AddManySpec(selectId, recs, c).1 == None <==> |NewKeys(selectId, recs, c.entities.Keys)| == 0
  {
    var n := |recs| - 1;
    var front := recs[..n];
    var c1 := AddManySpec(selectId, front, c).0;
    var m1 := AddManySpec(selectId, front, c).1;
    var prev := NewKeys(selectId, front, c.entities.Keys);
    var k := selectId(recs[n]);
    KeySetFront(selectId, recs);
    assert k in Elems(prev) <==> k in prev;
    assert k in c1.entities <==> k in c.entities.Keys || k in prev;
    if k in c1.entities {
      assert AddManySpec(selectId, recs, c) == (c1, m1);
      assert NewKeys(selectId, recs, c.entities.Keys) == prev;
    } else {
      assert AddManySpec(selectId, recs, c) == (Collection(c1.ids + [k], c1.entities[k := recs[n]]), Both);
      assert NewKeys(selectId, recs, c.entities.Keys) == prev + [k];
    }
  }


  /** addMany never touches an entry that was already stored. */
  lemma {:induction false} AddManyKeepsStored(selectId: Record -> Key, recs: seq<Record>, c: Collection)
    ensures forall k :: k in c.entities ==>
              k in AddManySpec(selectId, recs, c).0.entities &&
              AddManySpec(selectId, recs, c).0.entities[k] == c.entities[k]
    decreases |recs|
  {
    if recs != [] {
      AddManyKeepsStored(selectId, recs[..|recs| - 1], c);
    }
  }

  /** Of several records of the batch with the same new id, the first is stored. */
  lemma {:induction false} AddManyFirstWins(selectId: Record -> Key, recs: seq<Record>, c: Collection)
    ensures forall i :: 0 <= i < |recs| && selectId(recs[i]) !in c.entities &&
                        (forall j :: 0 <= j < i ==> selectId(recs[j]) != selectId(recs[i])) ==>
                        selectId(recs[i]) in AddManySpec(selectId, recs, c).0.entities &&
                        AddManySpec(selectId, recs, c).0.entities[selectId(recs[i])] == recs[i]
    decreases |recs|
  {
    if recs != [] {
      var n := |recs| - 1;
      var front := recs[..n];
      AddManyFirstWins(selectId, front, c);
      forall i | 0 <= i < |recs| && selectId(recs[i]) !in c.entities &&
                 (forall j :: 0 <= j < i ==> selectId(recs[j]) != selectId(recs[i]))
        ensures selectId(recs[i]) in AddManySpec(selectId, recs, c).0.entities &&
                AddManySpec(selectId, recs, c).0.entities[selectId(recs[i])] == recs[i]
      {
        if i == n {
          FirstWinsLast(selectId, recs, c);
        } else {
          assert front[i] == recs[i];
          assert forall j :: 0 <= j < i ==> front[j] == recs[j];
          FirstWinsEarlier(selectId, recs, c, i);
        }
      }
    }
  }

  /** The last record of a batch is stored when its id is new to the store and to the batch. */
  lemma FirstWinsLast(selectId: Record -> Key, recs: seq<Record>, c: Collection)
    requires recs != [] && selectId(recs[|recs| - 1]) !in c.entities
    requires forall j :: 0 <= j < |recs| - 1 ==> selectId(recs[j]) != selectId(recs[|recs| - 1])
    ensures selectId(recs[|recs| - 1]) in AddManySpec(selectId, recs, c).0.entities
    ensures AddManySpec(selectId, recs, c).0.entities[selectId(recs[|recs| - 1])] == recs[|recs| - 1]
  {
    var n := |recs| - 1;
    var front := recs[..n];
    AddManyLast(selectId, recs, c);
    assert selectId(recs[n]) !in AddManySpec(selectId, front, c).0.entities by {
      AddManyShape(selectId, front, c);
      assert forall j :: 0 <= j < n ==> front[j] == recs[j];
    }
  }

  /** A record stored by the front of a batch stays stored once the last record is added. */
  lemma FirstWinsEarlier(selectId: Record -> Key, recs: seq<Record>, c: Collection, i: int)
    requires 0 <= i < |recs| - 1
    requires selectId(recs[i]) in AddManySpec(selectId, recs[..|recs| - 1], c).0.entities
    requires AddManySpec(selectId, recs[..|recs| - 1], c).0.entities[selectId(recs[i])] == recs[i]
    ensures selectId(recs[i]) in AddManySpec(selectId, recs, c).0.entities
    ensures AddManySpec(selectId, recs, c).0.entities[selectId(recs[i])] == recs[i]
  {
    AddManyLast(selectId, recs, c);
  }


  /** addMany on a non-empty batch: the last record is stored only when its id is not yet stored. */
  lemma AddManyLast(selectId: Record -> Key, recs: seq<Record>, c: Collection)
    requires recs != []
    ensures var e1 := AddManySpec(selectId, recs[..|recs| - 1], c).0.entities;
            var k := selectId(recs[|recs| - 1]);
            AddManySpec(selectId, recs, c).0.entities == if k in e1 then e1 else e1[k := recs[|recs| - 1]]
  {
  }

  /**
   * addMany stores a record only when its id is new: existing entries are
   * untouched, the new ids are appended in batch order, and the result is
   * `None` exactly when the collection is unchanged.
   */
  lemma AddManyFacts(selectId: Record -> Key, recs: seq<Record>, c: Collection)
    ensures AddManySpec(selectId, recs, c).1 == None <==> AddManySpec(selectId, recs, c).0 == c
    ensures AddManySpec(selectId, recs, c).1 != EntitiesOnly
    ensures Agrees(c, AddManySpec(selectId, recs, c).0, AddManySpec(selectId, recs, c).1)
  {
    AddManyShape(selectId, recs, c);
    AddManyKeepsStored(selectId, recs, c);
    var (c2, m) := AddManySpec(selectId, recs, c);
    var nk := NewKeys(selectId, recs, c.entities.Keys);
    if m == None {
      assert c.ids + nk == c.ids;
      assert Elems(nk) == {};
      assert c2.entities.Keys == c.entities.Keys;
    }
    if c2 == c {
      assert |c.ids + nk| == |c.ids|;
    }
  }

  /** Without repeated ids in the batch, NewKeys keeps the whole batch. */
  lemma {:induction false} NewKeysOfDistinct(selectId: Record -> Key, recs: seq<Record>)
    requires DistinctKeys(selectId, recs)
    ensures NewKeys(selectId, recs, {}) == KeysOf(selectId, recs)
    decreases |recs|
  {
    if recs != [] {
      var n := |recs| - 1;
      NewKeysOfDistinct(selectId, recs[..n]);
      var prev := NewKeys(selectId, recs[..n], {});
      assert selectId(recs[n]) !in prev by {
        assert forall j :: 0 <= j < n ==> prev[j] == selectId(recs[j]);
      }
    }
  }

  /** addMany keeps invariants I1 and I2. */
  lemma AddManyValid(selectId: Record -> Key, recs: seq<Record>, c: Collection)
    requires Valid(c)
    ensures Valid(AddManySpec(selectId, recs, c).0)
  {
    AddManyShape(selectId, recs, c);
    var nk := NewKeys(selectId, recs, c.entities.Keys);
    var ids := c.ids + nk;
    forall i, j | 0 <= i < j < |ids| ensures ids[i] != ids[j] {
      if j >= |c.ids| && i < |c.ids| {
        assert ids[j] in Elems(nk);
      }
    }
    forall k ensures k in ids <==> k in AddManySpec(selectId, recs, c).0.entities {
      assert k in Elems(nk) <==> k in nk;
    }
  }

  /**
   * setAll/addAll replace the collection by the batch: with distinct ids in the
   * batch, the ids are the batch's ids in batch order and selecting all the
   * records gives back the batch; the result is always `Both`.
   */
  lemma SetAllRoundTrip(selectId: Record -> Key, recs: seq<Record>, c: Collection)
    requires DistinctKeys(selectId, recs)
    ensures SetAllSpec(selectId, recs, c).1 == Both
    ensures Valid(SetAllSpec(selectId, recs, c).0)
    ensures SetAllSpec(selectId, recs, c).0.ids == KeysOf(selectId, recs)
    ensures RecordsOf(SetAllSpec(selectId, recs, c).0.ids, SetAllSpec(selectId, recs, c).0.entities) == recs
  {
    var empty := Collection([], map[]);
    var c2 := AddManySpec(selectId, recs, empty).0;
    assert SetAllSpec(selectId, recs, c) == (c2, Both);
    AddManyShape(selectId, recs, empty);
    AddManyFirstWins(selectId, recs, empty);
    AddManyValid(selectId, recs, empty);
    NewKeysOfDistinct(selectId, recs);
    assert c2.ids == KeysOf(selectId, recs) by {
      assert empty.entities.Keys == {};
      assert empty.ids + KeysOf(selectId, recs) == KeysOf(selectId, recs);
    }
    var back := RecordsOf(c2.ids, c2.entities);
    forall i | 0 <= i < |recs| ensures back[i] == recs[i] {
      assert c2.ids[i] == selectId(recs[i]);
      assert selectId(recs[i]) !in empty.entities;
    }
  }

  /**
   * removeMany deletes exactly the named ids that are stored; the ids are
   * filtered so that the survivors keep their order; the result is `None`
   * exactly when no named id was stored.
   */
  lemma RemoveManyFacts(r: Removal, c: Collection)
    ensures RemoveManySpec(r, c).0.entities == c.entities - Elems(Targets(r, c))
    ensures RemoveManySpec(r, c).1 == None <==> forall k :: k in Targets(r, c) ==> k !in c.entities
    ensures RemoveManySpec(r, c).1 != EntitiesOnly
    ensures Agrees(c, RemoveManySpec(r, c).0, RemoveManySpec(r, c).1)
  {
    StoredTargets(Targets(r, c), c.entities);
  }

  /** removeMany keeps invariants I1 and I2, and the surviving ids keep their order. */
  lemma RemoveManyValid(r: Removal, c: Collection)
    requires Valid(c)
    ensures Valid(RemoveManySpec(r, c).0)
    ensures RemoveManySpec(r, c).0.ids == KeepIn(c.ids, RemoveManySpec(r, c).0.entities.Keys)
  {
    var hit := KeepIn(Targets(r, c), c.entities.Keys);
    if |hit| == 0 {
      KeepInAll(c.ids, c.entities.Keys);
    } else {
      KeepInUnique(c.ids, (c.entities - Elems(hit)).Keys);
    }
  }

  /**
   * Deleting the stored targets is deleting all the targets, and no target
   * is stored exactly when none survives the filter.
   */
  lemma StoredTargets(ts: seq<Key>, entities: map<Key, Record>)
    ensures entities - Elems(KeepIn(ts, entities.Keys)) == entities - Elems(ts)
    ensures |KeepIn(ts, entities.Keys)| == 0 <==> forall k :: k in ts ==> k !in entities
  {
    var hit := KeepIn(ts, entities.Keys);
    if |hit| > 0 {
      assert hit[0] in ts && hit[0] in entities;
    }
  }

  /** With no id re-keyed along the way, applying updates keeps the set of stored ids. */
  lemma {:induction false} ApplyUpdatesKeepsKeys(selectId: Record -> Key, ups: seq<Update>, entities: map<Key, Record>)
    requires forall u :: u in ups ==> u.id in entities
    requires !ApplyUpdates(selectId, ups, entities).2
    ensures ApplyUpdates(selectId, ups, entities).0.Keys == entities.Keys
    decreases |ups|
  {
    if ups != [] {
      var n := |ups| - 1;
      assert forall u :: u in ups[..n] ==> u in ups;
      ApplyUpdatesKeepsKeys(selectId, ups[..n], entities);
      assert ups[n] in ups;
    }
  }

  /**
   * updateMany ignores updates of absent ids (`None` and nothing changed when
   * no id is present); when no id changes it reports `EntitiesOnly`, leaves
   * ids alone and stores records under the same ids, so I1 and I2 still hold.
   */
  lemma UpdateManyFacts(selectId: Record -> Key, ups: seq<Update>, c: Collection)
    ensures UpdateManySpec(selectId, ups, c).1 == None <==> forall u :: u in ups ==> u.id !in c.entities
    ensures Agrees(c, UpdateManySpec(selectId, ups, c).0, UpdateManySpec(selectId, ups, c).1)
    ensures UpdateManySpec(selectId, ups, c).1 == EntitiesOnly ==>
              UpdateManySpec(selectId, ups, c).0.entities.Keys == c.entities.Keys
    ensures Valid(c) && UpdateManySpec(selectId, ups, c).1 != Both ==> Valid(UpdateManySpec(selectId, ups, c).0)
  {
    var live := LiveUpdates(ups, c.entities);
    if |live| != 0 {
      assert live[0] in ups;
      if !ApplyUpdates(selectId, live, c.entities).2 {
        ApplyUpdatesKeepsKeys(selectId, live, c.entities);
      }
    }
  }

  /**
   * updateOne on a stored id overlays the changes on the stored record.  If the
   * merged record has the same id the result is `EntitiesOnly`; otherwise the old
   * entry is deleted, the merged record is stored under the new id, which takes
   * the old id's place in ids, and the result is `Both`.  A new id that is truthy
   * and not yet stored keeps I1 and I2.
   */
  lemma UpdateOneFacts(selectId: Record -> Key, u: Update, c: Collection)
    requires Valid(c)
    requires u.id in c.entities
    ensures var merged := Assign(c.entities[u.id], u.changes);
            var k := selectId(merged);
            var (c2, m) := UpdateManySpec(selectId, [u], c);
            (k == u.id ==> m == EntitiesOnly && c2 == Collection(c.ids, c.entities[k := merged])) &&
            (k != u.id ==> m == Both && c2.entities == (c.entities - {u.id})[k := merged]) &&
            (k != u.id && Truthy(k) ==> forall i :: 0 <= i < |c.ids| ==>
                c2.ids[i] == if c.ids[i] == u.id then k else c.ids[i]) &&
            (k == u.id || (Truthy(k) && k !in c.entities) ==> Valid(c2))
  {
    var merged := Assign(c.entities[u.id], u.changes);
    var k := selectId(merged);
    assert LiveUpdates([u], c.entities) == [u];
    assert [u][..0] == [];
    assert ApplyUpdates(selectId, [u], c.entities) == UpdateStep(selectId, u, c.entities, map[]);
    var (c2, m) := UpdateManySpec(selectId, [u], c);
    if k != u.id {
      assert c2.ids == Rename(c.ids, map[u.id := k]);
      assert c2.entities == (c.entities - {u.id})[k := merged];
      if Truthy(k) && k !in c.entities {
        RenameKeepsValid(c, u.id, k, merged);
      }
    }
  }
  /** Renaming one stored id to a fresh one, with its record, keeps a collection valid. */
  lemma RenameKeepsValid(c: Collection, id: Key, k: Key, v: Record)
    requires Valid(c) && id in c.entities && Truthy(k) && k !in c.entities
    ensures Valid(Collection(Rename(c.ids, map[id := k]), (c.entities - {id})[k := v]))
  {
    var c2 := Collection(Rename(c.ids, map[id := k]), (c.entities - {id})[k := v]);
    assert forall i :: 0 <= i < |c.ids| ==> c2.ids[i] == if c.ids[i] == id then k else c.ids[i];
    forall i, j | 0 <= i < j < |c2.ids| ensures c2.ids[i] != c2.ids[j] {
      assert c.ids[i] != c.ids[j];
    }
    forall key ensures key in c2.ids <==> key in c2.entities {
      if key == k {
        assert id in c.ids;
        var i :| 0 <= i < |c.ids| && c.ids[i] == id;
        assert c2.ids[i] == k;
      } else if key in c2.entities {
        assert key in c.ids;
        var i :| 0 <= i < |c.ids| && c.ids[i] == key;
        assert c2.ids[i] == key;
      }
    }
  }


  /**
   * A re-keyed update to a falsy id (here the number 0) is stored under the
   * new id, but `i[t] || t` keeps the old id in ids: I2 no longer holds.
   */
  lemma FalsyRekeyKeepsOldId()
    ensures var rec: Record := map["id" := Str("a")];
            var c := Collection([Str("a")], map[Str("a") := rec]);
            var (c2, m) := UpdateManySpec(SelectIdDefault, [Update(Str("a"), map["id" := Num(0)])], c);
            Valid(c) && m == Both && c2.ids == [Str("a")] && c2.entities.Keys == {Num(0)} && !Valid(c2)
  {
    var rec: Record := map["id" := Str("a")];
    var c := Collection([Str("a")], map[Str("a") := rec]);
    var u := Update(Str("a"), map["id" := Num(0)]);
    assert LiveUpdates([u], c.entities) == [u];
    assert [u][..0] == [];
    var merged := Assign(rec, u.changes);
    assert merged == map["id" := Num(0)];
    var (c2, m) := UpdateManySpec(SelectIdDefault, [u], c);
    assert c2.ids[0] == Str("a");
    assert Str("a") in c2.ids && Str("a") !in c2.entities;
  }

  /** With no re-keying update, applying updates reports no id change. */
  lemma {:induction false} ApplyUpdatesNoRekey(ups: seq<Update>, entities: map<Key, Record>)
    requires forall u :: u in ups ==> "id" in u.changes && u.changes["id"] == u.id
    ensures !ApplyUpdates(SelectIdDefault, ups, entities).2
    decreases |ups|
  {
    if ups != [] {
      var n := |ups| - 1;
      assert forall u :: u in ups[..n] ==> u in ups;
      ApplyUpdatesNoRekey(ups[..n], entities);
      var u := ups[n];
      assert u in ups;
      var e1 := ApplyUpdates(SelectIdDefault, ups[..n], entities).0;
      assert Assign(Lookup(e1, u.id), u.changes)["id"] == u.id;
    }
  }

  /**
   * upsertMany reports a classification that agrees with its change: updates
   * of stored ids run first, then the records with new ids are added.
   */
  lemma UpsertManyAgrees(selectId: Record -> Key, recs: seq<Record>, c: Collection)
    ensures Agrees(c, UpsertManySpec(selectId, recs, c).0, UpsertManySpec(selectId, recs, c).1)
  {
    var (ups, adds) := SplitUpserts(selectId, recs, c.entities);
    UpdateManyFacts(selectId, ups, c);
    var c1 := UpdateManySpec(selectId, ups, c).0;
    AddManyFacts(selectId, adds, c1);
  }

  /** The update phase of an upsert with the default `selectId` never re-keys. */
  lemma UpsertUpdatesKeepKeys(recs: seq<Record>, c: Collection)
    requires forall r :: r in recs ==> "id" in r
    ensures var c1 := UpdateManySpec(SelectIdDefault, SplitUpserts(SelectIdDefault, recs, c.entities).0, c).0;
            c1.entities.Keys == c.entities.Keys && (Valid(c) ==> Valid(c1))
  {
    var ups := SplitUpserts(SelectIdDefault, recs, c.entities).0;
    var live := LiveUpdates(ups, c.entities);
    forall u | u in live ensures "id" in u.changes && u.changes["id"] == u.id {
      assert u in ups;
      assert u.changes in recs;
    }
    ApplyUpdatesNoRekey(live, c.entities);
    UpdateManyFacts(SelectIdDefault, ups, c);
  }

  /**
   * With the default `selectId` and records that all carry an `id` field, no
   * update re-keys, so upsertMany keeps I1 and I2 and every upserted id ends
   * up stored.
   */
  lemma UpsertManyValid(recs: seq<Record>, c: Collection)
    requires Valid(c)
    requires forall r :: r in recs ==> "id" in r
    ensures Valid(UpsertManySpec(SelectIdDefault, recs, c).0)
    ensures forall r :: r in recs ==> r["id"] in UpsertManySpec(SelectIdDefault, recs, c).0.entities
  {
    var adds := SplitUpserts(SelectIdDefault, recs, c.entities).1;
    var ups := SplitUpserts(SelectIdDefault, recs, c.entities).0;
    UpsertUpdatesKeepKeys(recs, c);
    var c1 := UpdateManySpec(SelectIdDefault, ups, c).0;
    AddManyValid(SelectIdDefault, adds, c1);
    AddManyShape(SelectIdDefault, adds, c1);
    var c2 := AddManySpec(SelectIdDefault, adds, c1).0;
    assert UpsertManySpec(SelectIdDefault, recs, c).0 == c2;
    forall r | r in recs ensures r["id"] in c2.entities {
      assert SelectIdDefault(r) == r["id"];
      if r["id"] !in c.entities {
        SplitHasAdd(SelectIdDefault, recs, c.entities, r);
        InKeySet(SelectIdDefault, adds, r);
      }
    }
  }

  lemma InKeySet(selectId: Record -> Key, recs: seq<Record>, r: Record)
    requires r in recs
    ensures selectId(r) in KeySet(selectId, recs)
  {
    var j :| 0 <= j < |recs| && recs[j] == r;
  }

  lemma {:induction false} SplitHasAdd(selectId: Record -> Key, recs: seq<Record>, entities: map<Key, Record>, r: Record)
    requires r in recs && selectId(r) !in entities
    ensures r in SplitUpserts(selectId, recs, entities).1
    decreases |recs|
  {
    var n := |recs| - 1;
    if recs[n] != r {
      assert r in recs[..n] by {
        var i :| 0 <= i < |recs| && recs[i] == r;
        assert recs[..n][i] == r;
      }
      SplitHasAdd(selectId, recs[..n], entities, r);
    }
  }

  /**
   * Upserting `[{id: 1, ...}, {id: 2, ...}]` into a store holding only id 1
   * overlays record 1 in place, appends id 2, and reports `Both`.
   */
  lemma UpsertBatchExample()
    ensures var one: Record := map["id" := Num(1), "name" := Str("a")];
            var c := Collection([Num(1)], map[Num(1) := one]);
            var (c2, m) := UpsertManySpec(SelectIdDefault, [map["id" := Num(1), "name" := Str("b")], map["id" := Num(2)]], c);
            m == Both && c2.ids == [Num(1), Num(2)] &&
            c2.entities == map[Num(1) := map["id" := Num(1), "name" := Str("b")], Num(2) := map["id" := Num(2)]]
  {
    var one: Record := map["id" := Num(1), "name" := Str("a")];
    var r1: Record := map["id" := Num(1), "name" := Str("b")];
    var r2: Record := map["id" := Num(2)];
    var c := Collection([Num(1)], map[Num(1) := one]);
    UpsertBatchSplit(one, r1, r2);
    UpsertBatchUpdate(one, r1);
    UpsertBatchAdd(r1, r2);
  }

  /** The batch of the upsert example splits into one update of id 1 and one add of id 2. */
  lemma UpsertBatchSplit(one: Record, r1: Record, r2: Record)
    requires r1 == map["id" := Num(1), "name" := Str("b")] && r2 == map["id" := Num(2)]
    ensures SplitUpserts(SelectIdDefault, [r1, r2], map[Num(1) := one]) == ([Update(Num(1), r1)], [r2])
  {
    var sel: Record -> Key := SelectIdDefault;
    assert sel(r1) == Num(1) && sel(r2) == Num(2);
    assert [r1, r2][..1] == [r1] && [r1][..0] == [];
    var s1 := SplitUpserts(sel, [r1], map[Num(1) := one]);
    assert s1.1 == [];
    assert |s1.0| == 1;
    assert s1.0 == [Update(Num(1), r1)];
    var s2 := SplitUpserts(sel, [r1, r2], map[Num(1) := one]);
    assert Num(2) !in map[Num(1) := one];
    assert s2.0 == [Update(Num(1), r1)];
    assert s2.1 == [r2];
  }

  /** The update of the upsert example overlays record 1 and keeps its id. */
  lemma UpsertBatchUpdate(one: Record, r1: Record)
    requires one == map["id" := Num(1), "name" := Str("a")] && r1 == map["id" := Num(1), "name" := Str("b")]
    ensures UpdateManySpec(SelectIdDefault, [Update(Num(1), r1)], Collection([Num(1)], map[Num(1) := one]))
            == (Collection([Num(1)], map[Num(1) := r1]), EntitiesOnly)
  {
    var c := Collection([Num(1)], map[Num(1) := one]);
    var u := Update(Num(1), r1);
    assert LiveUpdates([u], c.entities) == [u];
    assert [u][..0] == [];
    assert Assign(one, r1) == r1;
    var sel: Record -> Key := SelectIdDefault;
    assert sel(r1) == Num(1);
    assert ApplyUpdates(SelectIdDefault, [u], c.entities) == UpdateStep(SelectIdDefault, u, c.entities, map[]);
    assert c.entities[Num(1) := r1] == map[Num(1) := r1];
  }

  /** The add of the upsert example appends id 2. */
  lemma UpsertBatchAdd(r1: Record, r2: Record)
    requires r2 == map["id" := Num(2)]
    ensures AddManySpec(SelectIdDefault, [r2], Collection([Num(1)], map[Num(1) := r1]))
            == (Collection([Num(1), Num(2)], map[Num(1) := r1, Num(2) := r2]), Both)
  {
    var sel: Record -> Key := SelectIdDefault;
    assert sel(r2) == Num(2);
    assert [r2][..0] == [];
    var c := Collection([Num(1)], map[Num(1) := r1]);
    assert Num(2) !in c.entities;
    assert AddManySpec(sel, [], c) == (c, None);
    assert [Num(1)] + [Num(2)] == [Num(1), Num(2)];
    assert AddOneSpec(sel, r2, c) == (Collection([Num(1), Num(2)], map[Num(1) := r1, Num(2) := r2]), Both);
  }

  /**
   * Re-keying: `updateOne` of id 5 with changes `{id: 9}` removes id 5 and
   * stores the merged record under id 9, in id 5's place, reporting `Both`.
   */
  lemma RekeyExample()
    ensures var five: Record := map["id" := Num(5), "name" := Str("x")];
            var c := Collection([Num(5)], map[Num(5) := five]);
            var (c2, m) := UpdateManySpec(SelectIdDefault, [Update(Num(5), map["id" := Num(9)])], c);
            m == Both && c2.ids == [Num(9)] && c2.entities == map[Num(9) := map["id" := Num(9), "name" := Str("x")]]
  {
    var five: Record := map["id" := Num(5), "name" := Str("x")];
    var c := Collection([Num(5)], map[Num(5) := five]);
    var u := Update(Num(5), map["id" := Num(9)]);
    RekeyMerged(five, u.changes);
    assert Valid(c) by {
      assert forall k :: k in c.ids <==> k == Num(5);
    }
    UpdateOneFacts(SelectIdDefault, u, c);
    var c2 := UpdateManySpec(SelectIdDefault, [u], c).0;
    assert c2.ids[0] == Num(9);
  }

  /** The record of the re-keying example after its changes, and its new id. */
  lemma RekeyMerged(five: Record, changes: Record)
    requires five == map["id" := Num(5), "name" := Str("x")] && changes == map["id" := Num(9)]
    ensures Assign(five, changes) == map["id" := Num(9), "name" := Str("x")]
    ensures SelectIdDefault(Assign(five, changes)) == Num(9)
  {
    assert Assign(five, changes) == map["id" := Num(9), "name" := Str("x")];
  }

  // ---------------------------------------------------------------------------
  // Every record stays stored under its own id
  // ---------------------------------------------------------------------------

  /** addMany stores each new record under its own id. */
  lemma {:induction false} AddManyKeyed(selectId: Record -> Key, recs: seq<Record>, c: Collection)
    requires KeyedBy(selectId, c)
    ensures KeyedBy(selectId, AddManySpec(selectId, recs, c).0)
    decreases |recs|
  {
    if recs != [] {
      AddManyKeyed(selectId, recs[..|recs| - 1], c);
    }
  }

  /** Each update stores the merged record under the id `selectId` gives it. */
  lemma {:induction false} ApplyUpdatesKeyed(selectId: Record -> Key, ups: seq<Update>, entities: map<Key, Record>)
    requires forall k :: k in entities ==> selectId(entities[k]) == k
    ensures forall k :: k in ApplyUpdates(selectId, ups, entities).0 ==>
              selectId(ApplyUpdates(selectId, ups, entities).0[k]) == k
    decreases |ups|
  {
    if ups != [] {
      ApplyUpdatesKeyed(selectId, ups[..|ups| - 1], entities);
      var (e1, r1, _) := ApplyUpdates(selectId, ups[..|ups| - 1], entities);
      var u := ups[|ups| - 1];
      var e2 := UpdateStep(selectId, u, e1, r1).0;
      assert ApplyUpdates(selectId, ups, entities).0 == e2;
      var merged := Assign(Lookup(e1, u.id), u.changes);
      assert e2 == (if selectId(merged) != u.id then (e1 - {u.id}) else e1)[selectId(merged) := merged];
      assert e1 == ApplyUpdates(selectId, ups[..|ups| - 1], entities).0;
      forall k | k in e2 ensures selectId(e2[k]) == k {
        if k != selectId(merged) {
          assert k in e1 && e2[k] == e1[k];
        }
      }
    }
  }

  /** updateMany, upsertMany and setAll keep every record under its own id. */
  lemma KeyedKept(selectId: Record -> Key, ups: seq<Update>, recs: seq<Record>, c: Collection)
    requires KeyedBy(selectId, c)
    ensures KeyedBy(selectId, UpdateManySpec(selectId, ups, c).0)
    ensures KeyedBy(selectId, UpsertManySpec(selectId, recs, c).0)
    ensures KeyedBy(selectId, SetAllSpec(selectId, recs, c).0)
  {
    UpdateManyKeyed(selectId, ups, c);
    var (us, adds) := SplitUpserts(selectId, recs, c.entities);
    UpdateManyKeyed(selectId, us, c);
    AddManyKeyed(selectId, adds, UpdateManySpec(selectId, us, c).0);
    AddManyKeyed(selectId, recs, Collection([], map[]));
  }

  lemma UpdateManyKeyed(selectId: Record -> Key, ups: seq<Update>, c: Collection)
    requires KeyedBy(selectId, c)
    ensures KeyedBy(selectId, UpdateManySpec(selectId, ups, c).0)
  {
    var live := LiveUpdates(ups, c.entities);
    ApplyUpdatesKeyed(selectId, live, c.entities);
    assert UpdateManySpec(selectId, ups, c).0.entities
        == if |live| == 0 then c.entities else ApplyUpdates(selectId, live, c.entities).0;
  }
}

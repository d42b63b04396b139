/**
 * The normalized collection state of the client-side entity adapter
 * (`createEntityAdapter` in staticfiles/ang/common-es5.js) and what every
 * adapter operation shares: the change classification, the mutable copy the
 * helpers work on, and the wrapper that turns a classification into the
 * returned state.
 */
module EntityState {
  import opened JsValues

  /** The classification every helper returns (the enum `{EntitiesOnly, Both, None}`). */
  datatype DidMutate = EntitiesOnly | Both | None

  /** An id as `selectId` returns it. */
  type Key = Val

  /** `{id, changes}` as passed to updateOne/updateMany. */
  datatype Update = Update(id: Key, changes: Record)

  /**
   * What the function given to `map` returns for one entity: the very same
   * object (`Same`, so `r !== entities[id]` is false) or another object.
   */
  datatype Mapped = Same | Replaced(record: Record)

  /** The adapter's own part of a state: `{ids, entities}`. */
  datatype Collection = Collection(ids: seq<Key>, entities: map<Key, Record>)

  /** A state object: `ids`, `entities` and whatever other fields the feature keeps (`rest`). */
  datatype EntityState<X> = EntityState(ids: seq<Key>, entities: map<Key, Record>, rest: X)
  {
    function Owned(): Collection { Collection(ids, entities) }
  }

  /**
   * The copy `{ids: [...state.ids], entities: Object.assign({}, state.entities)}`
   * that the wrapper hands to a helper, which then updates it in place.
   */
  class Draft {
    var ids: seq<Key>
    var entities: map<Key, Record>

    constructor (c: Collection)
      ensures Value() == c
    {
      ids := c.ids;
      entities := c.entities;
    }

    function Value(): Collection
      reads this
    {
      Collection(ids, entities)
    }
  }

  /** `entities[k]`, where a missing entry reads as the empty object. */
  function Lookup(entities: map<Key, Record>, k: Key): Record
  {
    if k in entities then entities[k] else map[]
  }

  /** `ids.filter(t => t in keep)`. */
  function KeepIn(ids: seq<Key>, keep: set<Key>): (r: seq<Key>)
    ensures |r| <= |ids|
    ensures forall k :: k in r <==> k in ids && k in keep
  {
    if ids == [] then []
    else (if ids[0] in keep then [ids[0]] else []) + KeepIn(ids[1..], keep)
  }

  /** `i[t] || t`: the new id recorded for `t`, unless there is none or it is falsy. */
  function RenamedId(t: Key, renamed: map<Key, Key>): Key
  {
    if t in renamed && Truthy(renamed[t]) then renamed[t] else t
  }

  /** `ids.map(t => i[t] || t)`. */
  function Rename(ids: seq<Key>, renamed: map<Key, Key>): (r: seq<Key>)
    ensures |r| == |ids|
  {
    seq(|ids|, i requires 0 <= i < |ids| => RenamedId(ids[i], renamed))
  }

  /** The records the ids denote, in ids order. */
  function RecordsOf(ids: seq<Key>, entities: map<Key, Record>): (r: seq<Record>)
    ensures |r| == |ids|
  {
    seq(|ids|, i requires 0 <= i < |ids| => Lookup(entities, ids[i]))
  }

  /** The default `selectId` of createEntityAdapter: `t => t.id`. */
  function SelectIdDefault(r: Record): Key
  {
    Field(r, "id")
  }

  /** The ids of a batch of records, in batch order. */
  function KeysOf(selectId: Record -> Key, recs: seq<Record>): (r: seq<Key>)
    ensures |r| == |recs|
  {
    seq(|recs|, i requires 0 <= i < |recs| => selectId(recs[i]))
  }

  /** No two records of a batch share an id. */
  ghost predicate DistinctKeys(selectId: Record -> Key, recs: seq<Record>)
  {
    forall i, j :: 0 <= i < j < |recs| ==> selectId(recs[i]) != selectId(recs[j])
  }

  /** Invariant I1: no id occurs twice. */
  ghost predicate Unique(ids: seq<Key>)
  {
    forall i, j :: 0 <= i < j < |ids| ==> ids[i] != ids[j]
  }

  /** Invariants I1 and I2: ids are unique and are exactly the keys of entities. */
  ghost predicate Valid(c: Collection)
  {
    Unique(c.ids) && (forall k :: k in c.ids <==> k in c.entities)
  }

  /** Every record is stored under the id `selectId` gives it. */
  ghost predicate KeyedBy(selectId: Record -> Key, c: Collection)
  {
    forall k :: k in c.entities ==> selectId(c.entities[k]) == k
  }

  /**
   * A classification agrees with the change it reports: `None` means the
   * copy was not changed, `EntitiesOnly` that its ids were not.
   */
  ghost predicate Agrees(before: Collection, after: Collection, m: DidMutate)
  {
    (m == None ==> after == before) && (m == EntitiesOnly ==> after.ids == before.ids)
  }

  /**
   * The tail of the wrapper `a`: the original state for `None`, the original
   * with `entities` replaced for `EntitiesOnly`, and with both replaced for `Both`.
   */
  function Commit<X>(s: EntityState<X>, c: Collection, m: DidMutate): EntityState<X>
  {
    match m
    case None => s
    case EntitiesOnly => s.(entities := c.entities)
    case Both => EntityState(c.ids, c.entities, s.rest)
  }

  /**
   * When the classification agrees with the change, the state the wrapper
   * returns holds exactly the helper's result, keeps every other field, and
   * is the input itself when nothing changed.
   */
  lemma CommitHoldsDraft<X>(s: EntityState<X>, c: Collection, m: DidMutate)
    requires Agrees(s.Owned(), c, m)
    ensures Commit(s, c, m).Owned() == c
    ensures Commit(s, c, m).rest == s.rest
    ensures m == None ==> Commit(s, c, m) == s
    ensures m == EntitiesOnly ==> Commit(s, c, m).ids == s.ids
  {
  }

  /** How upsertMany combines the classification of its adds (`v`) and of its updates (`p`). */
  function Combine(v: DidMutate, p: DidMutate): (m: DidMutate)
    ensures m == None <==> v == None && p == None
    ensures m == Both <==> v == Both || p == Both
  {
    if v == None && p == None then None
    else if v == Both || p == Both then Both
    else EntitiesOnly
  }

  /** Filtering keeps an id sequence free of repetitions. */
  lemma {:induction false} KeepInUnique(ids: seq<Key>, keep: set<Key>)
    requires Unique(ids)
    ensures Unique(KeepIn(ids, keep))
  {
    if ids != [] {
      KeepInUnique(ids[1..], keep);
      assert ids[0] !in ids[1..];
    }
  }

  /** Filtering by a set that holds every id changes nothing. */
  lemma {:induction false} KeepInAll(ids: seq<Key>, keep: set<Key>)
    requires forall k :: k in ids ==> k in keep
    ensures KeepIn(ids, keep) == ids
  {
    if ids != [] {
      KeepInAll(ids[1..], keep);
    }
  }
}

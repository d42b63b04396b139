/**
 * The customers feature of staticfiles/ang/9-es5.js: its state (an entity
 * collection plus `selectedRequestId` and `apiError`), the reducer `q`, the
 * selectors `C`, `S` and `V`, and the calendar helpers `getColor` and
 * `dateClass`.
 */
module CustomersStore {
  import opened JsValues
  import opened EntityState
  import A = EntityAdapter
  import U = UnsortedAdapter
  import W = Wrappers

  /** The feature's own fields beside ids and entities. */
  datatype Extra = Extra(selectedRequestId: Val, apiError: Val)

  type CustomersState = EntityState<Extra>

  /** `j = createEntityAdapter()`: keyed by `id`, unsorted. */
  function Customers(): (a: A.Adapter)
    ensures a.sortComparer.None? && forall r :: a.selectId(r) == Field(r, "id")
  {
    A.CreateEntityAdapter(W.None, W.None)
  }

  /** The initial state of `q`: `{ids: [], entities: {}, selectedRequestId: null, apiError: null}`. */
  function InitialState(): (s: CustomersState)
    ensures Valid(s.Owned()) && |s.ids| == 0
    ensures s.rest.selectedRequestId == Null && s.rest.apiError == Null
  {
    EntityState([], map[], Extra(Null, Null))
  }

  /** The actions of the feature; every other action (`Other`) leaves the state alone. */
  datatype Action =
    | SetAllCustomers(entities: seq<Record>)
    | UpsertManyCustomers(entities: seq<Record>)
    | AddOneCustomer(entity: Record)
    | SetError(error: Val)
    | SetSelectedId(id: Val)
    | Other

  /** The reducer `q`. */
  function Reduce(s: CustomersState, action: Action): CustomersState
  {
    match action
    case SetAllCustomers(rs) => A.ApplySpec(Customers(), A.SetAll(rs), s)
    case UpsertManyCustomers(rs) => A.ApplySpec(Customers(), A.UpsertMany(rs), s)
    case AddOneCustomer(r) => A.ApplySpec(Customers(), A.AddOne(r), s)
    case SetError(e) => s.(rest := s.rest.(apiError := e))
    case SetSelectedId(id) => s.(rest := s.rest.(selectedRequestId := id))
    case Other => s
  }

  /** What the reducer needs to keep the collection consistent: upserted records carry an `id`. */
  predicate WellFormed(action: Action)
  {
    action.UpsertManyCustomers? ==> forall r :: r in action.entities ==> "id" in r
  }

  /**
   * The reducer keeps ids unique and equal to the keys of entities, keeps every
   * record under its own `id`, and leaves the fields an action does not name alone.
   */
  lemma ReduceKeepsInvariants(s: CustomersState, action: Action)
    requires Valid(s.Owned()) && KeyedBy(SelectIdDefault, s.Owned()) && WellFormed(action)
    ensures Valid(Reduce(s, action).Owned()) && KeyedBy(SelectIdDefault, Reduce(s, action).Owned())
    ensures !action.SetError? ==> Reduce(s, action).rest.apiError == s.rest.apiError
    ensures !action.SetSelectedId? ==> Reduce(s, action).rest.selectedRequestId == s.rest.selectedRequestId
    ensures action.SetError? || action.SetSelectedId? ==> Reduce(s, action).Owned() == s.Owned()
  {
    match action {
      case SetAllCustomers(rs) => SetAllKeeps(s, rs);
      case UpsertManyCustomers(rs) => UpsertKeeps(s, rs);
      case AddOneCustomer(r) => AddOneKeeps(s, r);
      case SetError(e) =>
      case SetSelectedId(id) =>
      case Other =>
    }
  }

  /** "Set All" keeps the collection consistent and the feature's own fields. */
  lemma SetAllKeeps(s: CustomersState, rs: seq<Record>)
    requires Valid(s.Owned()) && KeyedBy(SelectIdDefault, s.Owned())
    ensures var r := A.ApplySpec(Customers(), A.SetAll(rs), s);
            Valid(r.Owned()) && KeyedBy(SelectIdDefault, r.Owned()) && r.rest == s.rest
  {
    A.ApplyCommits(Customers(), A.SetAll(rs), s);
    U.AddManyValid(SelectIdDefault, rs, Collection([], map[]));
    U.KeyedKept(SelectIdDefault, [], rs, s.Owned());
  }

  /** "Upsert Many" of records carrying an `id` keeps the collection consistent and the feature's own fields. */
  lemma UpsertKeeps(s: CustomersState, rs: seq<Record>)
    requires Valid(s.Owned()) && KeyedBy(SelectIdDefault, s.Owned())
    requires forall r :: r in rs ==> "id" in r
    ensures var r := A.ApplySpec(Customers(), A.UpsertMany(rs), s);
            Valid(r.Owned()) && KeyedBy(SelectIdDefault, r.Owned()) && r.rest == s.rest
  {
    A.ApplyCommits(Customers(), A.UpsertMany(rs), s);
    U.UpsertManyValid(rs, s.Owned());
    U.KeyedKept(SelectIdDefault, [], rs, s.Owned());
  }

  /** "Add One" keeps the collection consistent and the feature's own fields. */
  lemma AddOneKeeps(s: CustomersState, r: Record)
    requires Valid(s.Owned()) && KeyedBy(SelectIdDefault, s.Owned())
    ensures var s2 := A.ApplySpec(Customers(), A.AddOne(r), s);
            Valid(s2.Owned()) && KeyedBy(SelectIdDefault, s2.Owned()) && s2.rest == s.rest
  {
    var c := s.Owned();
    A.ApplyCommits(Customers(), A.AddOne(r), s);
    U.AddManyValid(SelectIdDefault, [r], c);
    assert U.AddManySpec(SelectIdDefault, [r], c).0 == U.AddOneSpec(SelectIdDefault, r, c).0 by {
      assert [r][..0] == [];
    }
  }

  /** Selector `C`: `selectAll` of the feature state. */
  function SelectCustomers(s: CustomersState): seq<W.Option<Record>>
  {
    A.SelectAll(s)
  }

  /** Selector `S`: `selectedRequestId`. */
  function SelectSelectedId(s: CustomersState): Val
  {
    s.rest.selectedRequestId
  }

  /** What `find` can end in: a record, `undefined`, or the TypeError of reading `.id` of `undefined`. */
  datatype Found = Record(record: Record) | NotFound | TypeError

  /** `list.find(t => t.id === id)`. */
  function Find(list: seq<W.Option<Record>>, id: Val): (r: Found)
    ensures r.Record? ==> exists i :: 0 <= i < |list| && list[i] == W.Some(r.record) && Field(r.record, "id") == id
    ensures (forall i :: 0 <= i < |list| ==> list[i].Some?) ==>
              !r.TypeError? && (r.NotFound? <==> forall i :: 0 <= i < |list| ==> Field(list[i].value, "id") != id)
  {
    if list == [] then NotFound
    else match list[0]
      case None => TypeError
      case Some(t) =>
        if Field(t, "id") == id then Record(t)
        else
          var rest := Find(list[1..], id);
          assert forall i :: 0 <= i < |list| - 1 ==> list[1..][i] == list[i + 1];
          rest
  }

  /** Selector `V`: the customer whose `id` is the selected one. */
  function SelectSelected(s: CustomersState): Found
  {
    Find(SelectCustomers(s), SelectSelectedId(s))
  }

  /**
   * On a consistent state, `V` finds the record stored under the selected id,
   * and nothing when no record is stored under it; it never fails.
   */
  lemma SelectedIsStored(s: CustomersState)
    requires Valid(s.Owned()) && KeyedBy(SelectIdDefault, s.Owned())
    ensures var id := s.rest.selectedRequestId;
            SelectSelected(s) == if id in s.entities then Record(s.entities[id]) else NotFound
  {
    var id := s.rest.selectedRequestId;
    var all := SelectCustomers(s);
    AllListed(s);
    var r := Find(all, id);
    if r.Record? {
      var i :| 0 <= i < |all| && all[i] == W.Some(r.record) && Field(r.record, "id") == id;
      assert Field(all[i].value, "id") == s.ids[i];
    }
  }

  /** On a consistent state, `C` lists each stored record once, each under its own `id`. */
  lemma AllListed(s: CustomersState)
    requires Valid(s.Owned()) && KeyedBy(SelectIdDefault, s.Owned())
    ensures var all := SelectCustomers(s);
            (forall i :: 0 <= i < |all| ==> all[i] == W.Some(s.entities[s.ids[i]]) && Field(all[i].value, "id") == s.ids[i]) &&
            (forall k :: k in s.entities ==> exists i :: 0 <= i < |all| && Field(all[i].value, "id") == k)
  {
    var all := SelectCustomers(s);
    A.SelectAllLists(s);
    forall i | 0 <= i < |all| ensures Field(all[i].value, "id") == s.ids[i] {
      assert s.ids[i] in s.entities;
    }
    forall k | k in s.entities ensures exists i :: 0 <= i < |all| && Field(all[i].value, "id") == k {
      var i :| 0 <= i < |s.ids| && s.ids[i] == k;
      assert Field(all[i].value, "id") == k;
    }
  }

  /** Adding a new customer and selecting it makes `V` return that customer. */
  lemma AddThenSelect(s: CustomersState, rec: Record)
    requires Valid(s.Owned()) && KeyedBy(SelectIdDefault, s.Owned())
    requires Field(rec, "id") !in s.entities
    ensures SelectSelected(Reduce(Reduce(s, AddOneCustomer(rec)), SetSelectedId(Field(rec, "id")))) == Record(rec)
  {
    var s1 := Reduce(s, AddOneCustomer(rec));
    ReduceKeepsInvariants(s, AddOneCustomer(rec));
    var s2 := Reduce(s1, SetSelectedId(Field(rec, "id")));
    ReduceKeepsInvariants(s1, SetSelectedId(Field(rec, "id")));
    SelectedIsStored(s2);
  }

  /** "Set All" with distinct ids makes `C` list exactly the batch, in batch order. */
  lemma SetAllThenSelect(s: CustomersState, recs: seq<Record>)
    requires DistinctKeys(SelectIdDefault, recs)
    ensures SelectCustomers(Reduce(s, SetAllCustomers(recs))) == seq(|recs|, i requires 0 <= i < |recs| => W.Some(recs[i]))
  {
    var c2 := U.SetAllSpec(SelectIdDefault, recs, s.Owned()).0;
    U.SetAllRoundTrip(SelectIdDefault, recs, s.Owned());
    var s2 := Reduce(s, SetAllCustomers(recs));
    assert s2.Owned() == c2;
    A.SelectAllLists(s2);
    var back := RecordsOf(c2.ids, c2.entities);
    forall i | 0 <= i < |recs| ensures SelectCustomers(s2)[i] == W.Some(recs[i]) {
      assert back[i] == recs[i];
    }
  }

  /** The 11 colours of `getColor`. */
  const Palette: seq<string> := ["#0DB4B9", "#F2A1A1", "#E76D89", "#E1621A", "#E9422C", "#FF0E48",
                                 "#15D0C5", "#FF4EED", "#2C57F0", "#9A2CF0", "#0DB952"]

  /** JavaScript `a % b` for b > 0: the remainder takes the sign of `a`. */
  function JsRem(a: int, b: int): (r: int)
    requires b > 0
    ensures -b < r < b
    ensures a >= 0 ==> r == a % b
  {
    if a >= 0 then a % b else -((-a) % b)
  }

  /** `getColor(i)`: `palette[i % palette.length]`, `undefined` for a negative remainder. */
  function GetColor(i: int): (c: W.Option<string>)
  {
    var k := JsRem(i, |Palette|);
    if k >= 0 then W.Some(Palette[k]) else W.None
  }

  /** Colours cycle with period 11 over the indices the calendar passes (never negative). */
  lemma GetColorCycles(i: int)
    requires i >= 0
    ensures GetColor(i).Some? && GetColor(i).value in Palette
    ensures GetColor(i + 11) == GetColor(i)
    ensures i < 11 ==> GetColor(i) == W.Some(Palette[i])
  {
    assert |Palette| == 11;
    assert JsRem(i, 11) == i % 11 && JsRem(i + 11, 11) == (i + 11) % 11;
    assert (i + 11) % 11 == i % 11;
    if i < 11 {
      assert JsRem(i, 11) == i;
    }
  }

  /** A negative index not divisible by 11 gives `undefined`. */
  lemma GetColorNegative(i: int)
    requires i < 0 && i % 11 != 0
    ensures GetColor(i) == W.None
  {
    assert (-i) % 11 != 0;
  }

  /** `s.substring(0, 10)`: at most the first ten characters. */
  function Prefix10(s: string): (p: string)
    ensures |p| == if |s| < 10 then |s| else 10
    ensures p <= s
  {
    if |s| < 10 then s else s[..10]
  }

  /** `requests.map(t => t.scheduledDate).some(t => t === day)`. */
  function AnyScheduledOn(requests: seq<Record>, day: string): (b: bool)
    ensures b <==> exists i :: 0 <= i < |requests| && Field(requests[i], "scheduledDate") == Str(day)
  {
    if requests == [] then false
    else if Field(requests[0], "scheduledDate") == Str(day) then true
    else
      var rest := AnyScheduledOn(requests[1..], day);
      assert forall i :: 0 <= i < |requests| - 1 ==> requests[1..][i] == requests[i + 1];
      rest
  }

  /**
   * `dateClass()(date)`, with `iso` the value of `date.toISOString()`:
   * "special-date" iff some request is scheduled on that calendar day.
   */
  function DateClass(requests: seq<Record>, iso: string): (cls: string)
    ensures cls == "special-date" <==>
              exists i :: 0 <= i < |requests| && Field(requests[i], "scheduledDate") == Str(Prefix10(iso))
    ensures cls != "special-date" ==> cls == ""
  {
    if AnyScheduledOn(requests, Prefix10(iso)) then "special-date" else ""
  }
}

/** The persistence collaborator: writes applied to the store, lookups by
    identifier and by activity flag, the derived name queries, and the
    identifiers storage hands out on insert. */
module Repository {
  import opened Wrappers
  import opened Domain

  /** A write the service asks the repository to perform. */
  datatype Write = Saved(id: Id, record: Manufacturer) | Deleted(id: Id)

  /** `save` of a record under its identifier inserts or overwrites it;
      `deleteById` removes the identifier, and removing an absent one
      changes nothing. Every other record stays as it was. */
  function Perform(store: Store, w: Write): (r: Store)
    ensures w.Saved? ==> r.Keys == store.Keys + {w.id} && r[w.id] == w.record
    ensures w.Deleted? ==> r.Keys == store.Keys - {w.id}
    ensures forall i :: i in store && i != w.id ==> i in r && r[i] == store[i]
  {
    match w
    case Saved(id, record) => store[id := record]
    case Deleted(id) => store - {id}
  }

  /** The store after performing `writes` in order. */
  function Replay(store: Store, writes: seq<Write>): Store
    decreases |writes|
  {
    if writes == [] then store else Replay(Perform(store, writes[0]), writes[1..])
  }

  /** `findById`. */
  function FindById(store: Store, id: Id): (r: Option<Manufacturer>)
    ensures r.Some? <==> id in store
    ensures r.Some? ==> r.value == store[id]
  {
    if id in store then Some(store[id]) else None
  }

  /** `findAll`: every record, whatever its flag, so exactly the active
      records together with the inactive ones. */
  function FindAll(store: Store): (r: map<Id, Manufacturer>)
    ensures r.Keys == store.Keys
    ensures forall i :: i in r ==> r[i] == store[i]
    ensures r == FindAllByActive(store, true) + FindAllByActive(store, false)
    ensures FindAllByActive(store, true).Keys !! FindAllByActive(store, false).Keys
  {
    var active := FindAllByActive(store, true);
    var inactive := FindAllByActive(store, false);
    assert (active + inactive).Keys == store.Keys;
    store
  }

  /** `findAllByActive`: exactly the records whose flag equals `active`. */
  function FindAllByActive(store: Store, active: bool): (r: map<Id, Manufacturer>)
    ensures forall i :: i in r <==> i in store && store[i].active == active
    ensures forall i :: i in r ==> r[i] == store[i]
  {
    map i | i in store && store[i].active == active :: store[i]
  }

  /** Some identifier, other than `excluded`, of a record called `name`; none
      exactly when there is no such record. Which one is found when several
      qualify is left open, as a query without an ordering leaves it. */
  method FindIdByNameExcept(store: Store, name: string, excluded: Option<Id>) returns (r: Option<Id>)
    ensures r.Some? ==> r.value in store && store[r.value].name == name && r != excluded
    ensures r.None? ==> forall i :: i in store && store[i].name == name ==> Some(i) == excluded
  {
    var unseen := store.Keys;
    while exists i :: i in unseen
      invariant unseen <= store.Keys
      invariant forall i :: i in store && i !in unseen && store[i].name == name ==> Some(i) == excluded
      decreases unseen
    {
      var i :| i in unseen;
      if store[i].name == name && Some(i) != excluded {
        return Some(i);
      }
      unseen := unseen - {i};
    }
    return None;
  }

  /** `findIdByName`: an identifier of some record called `name`. */
  method FindIdByName(store: Store, name: string) returns (r: Option<Id>)
    ensures r.Some? ==> r.value in store && store[r.value].name == name
    ensures r.None? <==> !NameTaken(store, name)
  {
    r := FindIdByNameExcept(store, name, None);
    if r.Some? {
      var found := r.value;
      assert found in store && store[found].name == name;
    }
  }

  /** `findIdByNameAndIdNot`: an identifier other than `id` of some record
      called `name`. */
  method FindIdByNameAndIdNot(store: Store, name: string, id: Id) returns (r: Option<Id>)
    ensures r.Some? ==> r.value in store && r.value != id && store[r.value].name == name
    ensures r.None? <==> !NameTakenByOther(store, name, id)
  {
    r := FindIdByNameExcept(store, name, Some(id));
    if r.Some? {
      var found := r.value;
      assert found in store && found != id && store[found].name == name;
    }
  }

  /** The identifier storage assigns to a newly inserted record: one that no
      live record uses. */
  method NextId(store: Store) returns (id: Id)
    ensures id !in store
  {
    id := 1;
    var unseen := store.Keys;
    while exists i :: i in unseen
      invariant unseen <= store.Keys
      invariant forall k :: k in store && k !in unseen ==> k < id
      decreases unseen
    {
      var k :| k in unseen;
      if id <= k {
        id := k + 1;
      }
      unseen := unseen - {k};
    }
  }

  /** `save` of a record that has no identifier yet: storage assigns a fresh
      one and inserts the record under it. */
  method SaveNew(store: Store, record: Manufacturer) returns (w: Write)
    ensures w.Saved? && w.id !in store && w.record == record
    ensures Replay(store, [w]) == store[w.id := record]
  {
    var id := NextId(store);
    w := Saved(id, record);
    assert [w][1..] == [];
  }
}

/** The manufacturer service: the duplicate-name check and the create, read,
    update and delete operations, each a transition over the store. A
    mutating operation reports the repository writes it issued; the store
    after it is `Replay(store, writes)`. */
module ManufacturerService {
  import opened Wrappers
  import opened Domain
  import opened ManufacturerMapper
  import opened Repository
  import DuplicationValidator

  /** What a mutating call returns or throws, and the writes it issued. */
  datatype Outcome<+T> = Outcome(result: Result<T, Error>, writes: seq<Write>)

  /** The identifier the duplicate check looks up (`applyValidations`). With
      a transfer-object identifier it first asks for another record with the
      name; when there is none, or there is no identifier, it falls back to
      asking for any record with the name, which may be the transfer object's
      own record. */
  method DuplicateLookup(store: Store, dto: ManufacturerDto) returns (duplicate: Option<Id>)
    ensures duplicate.Some? ==> duplicate.value in store && store[duplicate.value].name == dto.name
    ensures dto.id.None? ==> (duplicate.Some? <==> NameTaken(store, dto.name))
    ensures dto.id.Some? && NameTakenByOther(store, dto.name, dto.id.value) ==>
      duplicate.Some? && duplicate.value != dto.id.value
    ensures dto.id.Some? && !NameTakenByOther(store, dto.name, dto.id.value) ==>
      && (duplicate.Some? <==> dto.id.value in store && store[dto.id.value].name == dto.name)
      && (duplicate.Some? ==> duplicate == dto.id)
  {
    duplicate := None;
    if dto.id.Some? {
      duplicate := FindIdByNameAndIdNot(store, dto.name, dto.id.value);
    }
    if duplicate.None? {
      duplicate := FindIdByName(store, dto.name);
    }
    // Proof hints only: they name the witnesses of the existential
    // postconditions and compute nothing.
    assert dto.id.Some? && dto.id.value in store && store[dto.id.value].name == dto.name ==>
      NameTaken(store, dto.name)
    by {
      if dto.id.Some? && dto.id.value in store && store[dto.id.value].name == dto.name {
        var self := dto.id.value;
        assert self in store && store[self].name == dto.name;
      }
    }
    assert dto.id.Some? && duplicate.Some? && duplicate != dto.id ==>
      NameTakenByOther(store, dto.name, dto.id.value)
    by {
      if dto.id.Some? && duplicate.Some? && duplicate != dto.id {
        var other := duplicate.value;
        assert other in store && other != dto.id.value && store[other].name == dto.name;
      }
    }
  }

  /** `applyValidations`: the duplicate lookup followed by the validator.
      Because of the fall-back, the call is rejected exactly when any record,
      the transfer object's own included, already has the name. */
  method ApplyValidations(store: Store, dto: ManufacturerDto) returns (verdict: Result<(), Error>)
    ensures verdict.Failure? <==> NameTaken(store, dto.name)
    ensures verdict.Failure? ==> verdict.error == DuplicateEntity
  {
    var duplicate := DuplicateLookup(store, dto);
    verdict := DuplicationValidator.Accept(duplicate);
  }

  /** `create`: validate, then save the mapped entity under a fresh
      identifier and answer with the response for the saved entity. A
      rejected call writes nothing. */
  method Create(store: Store, mapper: Mapper, dto: ManufacturerDto) returns (o: Outcome<ManufacturerResponse>)
    ensures o.result.Failure? <==> NameTaken(store, dto.name)
    ensures o.result.Failure? ==> o.result.error == DuplicateEntity && o.writes == []
    ensures o.result.Success? ==>
      && |o.writes| == 1
      && o.writes[0].Saved?
      && o.writes[0].id !in store
      && o.writes[0].record == mapper.toEntity(dto)
      && o.result.value == mapper.toResponse(o.writes[0].id, mapper.toEntity(dto))
      && Replay(store, o.writes) == store[o.writes[0].id := mapper.toEntity(dto)]
    ensures Lawful(mapper) && UniqueNames(store) ==> UniqueNames(Replay(store, o.writes))
  {
    var verdict := ApplyValidations(store, dto);
    if verdict.Failure? {
      return Outcome(Failure(verdict.error), []);
    }
    var entity := mapper.toEntity(dto);
    var saved := SaveNew(store, entity);
    o := Outcome(Success(mapper.toResponse(saved.id, entity)), [saved]);
  }

  /** `Page.map(mapper::toResponse)`: one response per record, under the
      record's identifier. */
  function ToResponses(mapper: Mapper, records: map<Id, Manufacturer>): (page: map<Id, ManufacturerResponse>)
    ensures page.Keys == records.Keys
    ensures forall i :: i in page ==> page[i] == mapper.toResponse(i, records[i])
  {
    map i | i in records :: mapper.toResponse(i, records[i])
  }

  /** `getAll`: a response for every record, active or not. */
  function GetAll(store: Store, mapper: Mapper): (page: map<Id, ManufacturerResponse>)
    ensures page.Keys == store.Keys
    ensures forall i :: i in page ==> page[i] == mapper.toResponse(i, store[i])
  {
    ToResponses(mapper, FindAll(store))
  }

  /** `getAllActive`: a response for exactly the records whose flag is set. */
  function GetAllActive(store: Store, mapper: Mapper): (page: map<Id, ManufacturerResponse>)
    ensures forall i :: i in page <==> i in store && store[i].active
    ensures forall i :: i in page ==> page[i] == mapper.toResponse(i, store[i])
    ensures Lawful(mapper) ==> forall i :: i in page ==> page[i].active
  {
    ToResponses(mapper, FindAllByActive(store, true))
  }

  /** `getById`: the response for the record stored under `id`, or
      `EntityNotFound` when there is none. */
  function GetById(store: Store, mapper: Mapper, id: Id): (r: Result<ManufacturerResponse, Error>)
    ensures r.Success? <==> id in store
    ensures r.Success? ==> r.value == mapper.toResponse(id, store[id])
    ensures r.Failure? ==> r.error == EntityNotFound(EntityNotFoundMessage)
    ensures Lawful(mapper) && r.Success? ==>
      r.value.id == id && r.value.name == store[id].name && r.value.active == store[id].active
  {
    match FindById(store, id)
    case Some(found) => Success(mapper.toResponse(id, found))
    case None => Failure(EntityNotFound(EntityNotFoundMessage))
  }

  /** `update`: fetch the record by the transfer object's identifier, merge
      the transfer object into it, save the merged record and answer with
      its response. No duplicate-name check is made. A missing record fails
      with `EntityNotFound` and a null identifier is refused by the lookup;
      neither writes anything. Only the updated record changes. */
  function Update(store: Store, mapper: Mapper, dto: ManufacturerDto): (o: Outcome<ManufacturerResponse>)
    ensures dto.id.None? ==> o.result == Failure(NullIdentifier) && o.writes == []
    ensures dto.id.Some? && dto.id.value !in store ==>
      o.result == Failure(EntityNotFound(EntityNotFoundMessage)) && o.writes == []
    ensures o.result.Success? <==> dto.id.Some? && dto.id.value in store
    ensures o.result.Success? ==>
      var id := dto.id.value;
      var merged := mapper.updateFromDto(dto, store[id]);
      && o.writes == [Saved(id, merged)]
      && o.result.value == mapper.toResponse(id, merged)
      && id in Replay(store, o.writes)
      && Replay(store, o.writes)[id] == merged
    ensures Replay(store, o.writes).Keys == store.Keys
    ensures forall i :: i in store && Some(i) != dto.id ==> Replay(store, o.writes)[i] == store[i]
  {
    match dto.id
    case None => Outcome(Failure(NullIdentifier), [])
    case Some(id) =>
      match FindById(store, id)
      case None => Outcome(Failure(EntityNotFound(EntityNotFoundMessage)), [])
      case Some(found) =>
        var merged := mapper.updateFromDto(dto, found);
        var w := Saved(id, merged);
        assert Replay(store, [w]) == Perform(store, w) by { assert [w][1..] == []; }
        Outcome(Success(mapper.toResponse(id, merged)), [w])
  }

  /** `deleteById`: hands the identifier to the repository without first
      checking that a record exists; an absent identifier leaves the store
      as it was. */
  function DeleteById(store: Store, id: Id): (o: Outcome<()>)
    ensures o.result.Success?
    ensures o.writes == [Deleted(id)]
    ensures Replay(store, o.writes) == store - {id}
    ensures id !in store ==> Replay(store, o.writes) == store
  {
    var w := Deleted(id);
    assert Replay(store, [w]) == Perform(store, w) by { assert [w][1..] == []; }
    Outcome(Success(()), [w])
  }
}

/** Properties that relate several service operations: reads agree with each
    other and with the writes before them, what update does and does not
    guarantee about names, and two catalogue scenarios. */
module ServiceProperties {
  import opened Wrappers
  import opened Domain
  import opened ManufacturerMapper
  import opened Repository
  import opened ManufacturerService

  /** The active page is the full page cut down to the active records. */
  lemma GetAllActiveIsRestrictionOfGetAll(store: Store, mapper: Mapper)
    ensures GetAllActive(store, mapper) == map i | i in GetAll(store, mapper) && store[i].active :: GetAll(store, mapper)[i]
  {

  }

  /** A single lookup and the full page agree: the record is found exactly
      when the page lists it, with the same response. */
  lemma GetByIdAgreesWithGetAll(store: Store, mapper: Mapper, id: Id)
    ensures GetById(store, mapper, id).Success? <==> id in GetAll(store, mapper)
    ensures id in GetAll(store, mapper) ==> GetById(store, mapper, id).value == GetAll(store, mapper)[id]
  {
  }

  /** A lookup after a successful update sees what the update answered. */
  lemma UpdateThenGetById(store: Store, mapper: Mapper, dto: ManufacturerDto)
    requires Update(store, mapper, dto).result.Success?
    ensures GetById(Replay(store, Update(store, mapper, dto).writes), mapper, dto.id.value)
         == Update(store, mapper, dto).result
  {
  }

  /** After a delete the identifier is gone and every other lookup answers as
      before. */
  lemma DeleteThenGetById(store: Store, mapper: Mapper, id: Id, other: Id)
    ensures GetById(Replay(store, DeleteById(store, id).writes), mapper, id)
         == Failure(EntityNotFound(EntityNotFoundMessage))
    ensures other != id ==>
      GetById(Replay(store, DeleteById(store, id).writes), mapper, other) == GetById(store, mapper, other)
  {
  }

  /** Deleting the same identifier twice leaves the store as one delete does. */
  lemma DeleteIsIdempotent(store: Store, id: Id)
    ensures var once := Replay(store, DeleteById(store, id).writes);
            Replay(once, DeleteById(once, id).writes) == once
  {
  }

  /** Update consults no record but the one it updates: two stores that agree
      on that record give the same answer, whatever names the others hold. */
  lemma UpdateIgnoresOtherRecords(s1: Store, s2: Store, mapper: Mapper, dto: ManufacturerDto)
    requires dto.id.Some? ==> (dto.id.value in s1 <==> dto.id.value in s2)
    requires dto.id.Some? && dto.id.value in s1 ==> s1[dto.id.value] == s2[dto.id.value]
    ensures Update(s1, mapper, dto) == Update(s2, mapper, dto)
  {
  }

  /** Renaming a record to the name another record already holds succeeds and
      leaves two records with that name: update does not keep names unique.
      This holds for a store that accepts every save; a unique constraint on
      the name column would make the save fail instead. */
  lemma UpdateMayDuplicateName(store: Store, mapper: Mapper, dto: ManufacturerDto, other: Id)
    requires Lawful(mapper)
    requires dto.id.Some? && dto.id.value in store
    requires other in store && other != dto.id.value && store[other].name == dto.name
    ensures Update(store, mapper, dto).result.Success?
    ensures !UniqueNames(Replay(store, Update(store, mapper, dto).writes))
  {

  }

  /** An update keeps names unique when no other record holds the new name,
      in particular when a record keeps its own name. */
  lemma UpdatePreservesUniqueNames(store: Store, mapper: Mapper, dto: ManufacturerDto)
    requires Lawful(mapper) && UniqueNames(store)
    requires dto.id.Some? ==> !NameTakenByOther(store, dto.name, dto.id.value)
    ensures UniqueNames(Replay(store, Update(store, mapper, dto).writes))
  {

  }

  /** The same name created twice in a row: the first call succeeds, the
      second is rejected and writes nothing. */
  method CreateSameNameTwice(store: Store, mapper: Mapper, dto: ManufacturerDto)
    returns (first: Outcome<ManufacturerResponse>, second: Outcome<ManufacturerResponse>)
    requires Lawful(mapper)
    requires !NameTaken(store, dto.name)
    ensures first.result.Success? && |first.writes| == 1
    ensures second.result == Failure(DuplicateEntity) && second.writes == []
  {
    first := Create(store, mapper, dto);
    var afterFirst := Replay(store, first.writes);
    var created := first.writes[0].id;
    assert created in afterFirst && afterFirst[created].name == dto.name;
    second := Create(afterFirst, mapper, dto);
  }

  /** The catalogue walk-through: create "Heineken", create it again, update
      the created record with its own name, then rename it to a name nobody
      holds. */
  method HeinekenScenario(mapper: Mapper)
    returns (created: Outcome<ManufacturerResponse>, again: Outcome<ManufacturerResponse>,
             sameName: Outcome<ManufacturerResponse>, renamed: Outcome<ManufacturerResponse>)
    requires Lawful(mapper)
    ensures created.result.Success? && created.result.value.name == "Heineken"
    ensures again.result == Failure(DuplicateEntity)
    ensures sameName.result.Success? && sameName.result.value.name == "Heineken"
    ensures renamed.result.Success? && renamed.result.value.name == "NonExistentOther"
    ensures created.result.value.id == sameName.result.value.id == renamed.result.value.id
  {
    var empty: Store := map[];
    var heineken := ManufacturerDto(None, "Heineken", map[]);
    created := Create(empty, mapper, heineken);
    var s1 := Replay(empty, created.writes);
    var id := created.writes[0].id;
    assert id in s1 && s1[id].name == "Heineken";
    again := Create(s1, mapper, heineken);
    sameName := Update(s1, mapper, ManufacturerDto(Some(id), "Heineken", map[]));
    var s2 := Replay(s1, sameName.writes);
    renamed := Update(s2, mapper, ManufacturerDto(Some(id), "NonExistentOther", map[]));
  }
}

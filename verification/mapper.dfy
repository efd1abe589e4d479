/** The conversions between transfer objects, entities and responses. Their
    implementation lives outside the service, so the model treats them as
    uninterpreted functions handed to each operation. */
module ManufacturerMapper {
  import opened Domain

  /** `toEntity` builds a new, not yet saved record; `toResponse` projects a
      saved record; `updateFromDto` is the pure form of copying a transfer
      object's fields onto a fetched record. */
  datatype Mapper = Mapper(
    toEntity: ManufacturerDto -> Manufacturer,
    toResponse: (Id, Manufacturer) -> ManufacturerResponse,
    updateFromDto: (ManufacturerDto, Manufacturer) -> Manufacturer)

  /** What a field-copying mapper is expected to do with the fields this model
      cares about: the name travels from the transfer object to the record,
      and a response shows the identifier, name and flag of its record. Only
      the properties that need these facts assume them. */
  ghost predicate Lawful(mapper: Mapper) {
    && (forall d :: mapper.toEntity(d).name == d.name)
    && (forall d, m :: mapper.updateFromDto(d, m).name == d.name)
    && (forall i, m :: mapper.toResponse(i, m).id == i)
    && (forall i, m :: mapper.toResponse(i, m).name == m.name)
    && (forall i, m :: mapper.toResponse(i, m).active == m.active)
  }
}

/** The entities the manufacturer service works on: the persisted record, the
    transfer object a caller supplies, the response returned to the caller,
    the store of records and the errors the service raises. */
module Domain {
  import opened Wrappers

  /** Identifiers are Java `long`s assigned by storage; the model uses
      unbounded integers. */
  type Id = int

  /** A persisted manufacturer. Its identifier is the key under which the
      store holds it, so a record that has not been saved yet has none. */
  datatype Manufacturer = Manufacturer(name: string, active: bool, attributes: map<string, string>)

  /** The transfer object: an optional identifier, the required name and the
      descriptive fields this service never looks at. */
  datatype ManufacturerDto = ManufacturerDto(id: Option<Id>, name: string, attributes: map<string, string>)

  /** The projection of a persisted manufacturer handed back to callers. */
  datatype ManufacturerResponse = ManufacturerResponse(id: Id, name: string, active: bool, attributes: map<string, string>)

  /** Every live record, by identifier. */
  type Store = map<Id, Manufacturer>

  /** The message of the `EntityNotFoundException` the service throws. */
  const EntityNotFoundMessage: string := "Entity not found!"

  /** The failures a service call can end in. `NullIdentifier` is the
      repository's rejection of a lookup by a null identifier. */
  datatype Error =
    | EntityNotFound(message: string)
    | DuplicateEntity
    | NullIdentifier

  /** Some record in the store is called `name`. */
  predicate NameTaken(store: Store, name: string) {
    exists i :: i in store && store[i].name == name
  }

  /** Some record other than the one stored under `self` is called `name`. */
  predicate NameTakenByOther(store: Store, name: string, self: Id) {
    exists i :: i in store && i != self && store[i].name == name
  }

  /** No two records share a name: the uniqueness rule the service enforces. */
  predicate UniqueNames(store: Store) {
    forall i, j :: i in store && j in store && store[i].name == store[j].name ==> i == j
  }
}

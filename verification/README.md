# Manufacturer service — a verified Dafny model

This project models the service layer of the iBeer catalogue's `Manufacturer`
entity (`ManufacturerService`). It covers the duplicate-name check that guards
`create`, and the `create`, `getAll`, `getAllActive`, `getById`, `update` and
`deleteById` operations. Each operation is a transition over an explicit,
immutable store of records.

- `Domain` (`domain.dfy`): the record, the transfer object, the response and
  the store (`map<Id, Manufacturer>`, keyed by the storage-assigned
  identifier). Also the service's errors and the name predicates
  (`NameTaken`, `NameTakenByOther`, `UniqueNames`).
- `ManufacturerMapper` (`mapper.dfy`): the mapper's three conversions, passed
  as uninterpreted function values. `Lawful` states the facts about names,
  identifiers and flags that some properties assume.
- `Repository` (`repository.dfy`): the persistence collaborator.
  - Writes (`Saved`, `Deleted`) and their effect on the store (`Perform`,
    `Replay`).
  - `findById`, `findAll` and `findAllByActive`.
  - The derived queries `findIdByName` and `findIdByNameAndIdNot`. They
    promise only *some* matching identifier. They are loops that pick keys in
    an arbitrary order.
  - Identifier assignment on insert: any identifier no live record uses.
- `DuplicationValidator` (`validator.dfy`): the validator's verdict.
- `ManufacturerService` (`service.dfy`): the operations.
  - A mutating operation returns an `Outcome`: the value or error, plus the
    list of writes it issued.
  - The store afterwards is `Replay(store, writes)`. So "no save" and
    "exactly one save" are statements about that list.
- `ServiceProperties` (`properties.dfy`): properties that relate several
  operations, and two scenarios that run the operations in sequence.

The duplicate check works as follows. When the transfer object carries an
identifier, the check first asks for *another* record with the name. When
there is none, it falls back to asking for *any* record with the name, and
that record may be the object's own. The check therefore rejects exactly when
any record has the name, with or without an identifier
(`ManufacturerService.ApplyValidations`). With an identifier and no other
holder of the name, the identifier it finds is the object's own
(`ManufacturerService.DuplicateLookup`).

Two features of the code decide what the name check guarantees:
- `update` (`ManufacturerService.java:67-77`) calls no validation. If storage
  accepts every save, as this model assumes, an update can therefore give two
  records one name (`ServiceProperties.UpdateMayDuplicateName`). With a unique
  constraint on the name column, that update would fail when the save is
  committed.
- `findIdByNameAndIdNot` (`:38`) exists to keep the object's own record out
  of the check. The fall-back to `findIdByName` (`:39`) lets that record back
  in. A `create` whose transfer object carries its own record's identifier and
  current name is therefore rejected.

## Model

| member | source | states |
|---|---|---|
| Repository.Perform | src/main/java/com/ipaixao/ibeer/domain/manufacturer/ManufacturerService.java:79-87 | `save` of a record under an identifier inserts or overwrites exactly that entry. `deleteById` removes exactly that identifier and is a no-op when it is absent. Every other record is untouched |
| Repository.FindById | src/main/java/com/ipaixao/ibeer/domain/manufacturer/ManufacturerService.java:57 | `findById` finds a record exactly when the identifier is stored, and it is that record (also used by `update` at line 68) |
| Repository.FindAll | src/main/java/com/ipaixao/ibeer/domain/manufacturer/ManufacturerService.java:47 | `findAll` returns every record unchanged: exactly the active records together with the inactive ones, which are disjoint |
| ManufacturerService.ToResponses | src/main/java/com/ipaixao/ibeer/domain/manufacturer/ManufacturerService.java:47 | `Page.map(mapper::toResponse)` keeps the page's identifiers and maps each record to its response (also used by `getAllActive` at line 52) |
| Repository.FindAllByActive | src/main/java/com/ipaixao/ibeer/domain/manufacturer/ManufacturerService.java:52 | the records returned for a flag are exactly those whose active flag equals it, unchanged |
| Repository.FindIdByNameExcept | src/main/java/com/ipaixao/ibeer/domain/manufacturer/ManufacturerService.java:38-39 | a found identifier belongs to a record with the name and is not the excluded one. Nothing is found only when every record with the name is the excluded one |
| Repository.FindIdByName | src/main/java/com/ipaixao/ibeer/domain/manufacturer/ManufacturerService.java:39 | returns an identifier of a record with the name. It returns none exactly when no record has that name |
| Repository.FindIdByNameAndIdNot | src/main/java/com/ipaixao/ibeer/domain/manufacturer/ManufacturerService.java:38 | returns an identifier other than the given one whose record has the name. It returns none exactly when no other record has that name |
| Repository.NextId | src/main/java/com/ipaixao/ibeer/domain/manufacturer/ManufacturerService.java:32 | the identifier storage assigns on insert is used by no live record |
| Repository.SaveNew | src/main/java/com/ipaixao/ibeer/domain/manufacturer/ManufacturerService.java:32 | saving a new entity is one `Saved` write under a fresh identifier. It adds exactly that entry to the store |
| DuplicationValidator.Accept | src/main/java/com/ipaixao/ibeer/domain/manufacturer/ManufacturerService.java:41-42 | the validator fails with `DuplicateEntity` exactly when it is handed an identifier (assumed behaviour) |
| ManufacturerService.DuplicateLookup | src/main/java/com/ipaixao/ibeer/domain/manufacturer/ManufacturerService.java:35-39 | without an identifier, a duplicate is found exactly when some record has the name. If another record has the name, the duplicate is a different identifier. Otherwise the lookup falls back to any record with the name, so it finds exactly the object's own identifier when its own record has the name |
| ManufacturerService.ApplyValidations | src/main/java/com/ipaixao/ibeer/domain/manufacturer/ManufacturerService.java:35-43 | validation fails, with `DuplicateEntity`, exactly when any record, the object's own included, already has the name |
| ManufacturerService.Create | src/main/java/com/ipaixao/ibeer/domain/manufacturer/ManufacturerService.java:29-33 | rejection happens exactly when the name is taken, and a rejected call writes nothing. On success the call issues exactly one save of the mapped entity under a fresh identifier and answers with that entity's response. Only that entry is added, and unique names stay unique under a lawful mapper |
| ManufacturerService.GetAll | src/main/java/com/ipaixao/ibeer/domain/manufacturer/ManufacturerService.java:45-48 | the page holds one response for every record, whatever its flag |
| ManufacturerService.GetAllActive | src/main/java/com/ipaixao/ibeer/domain/manufacturer/ManufacturerService.java:50-53 | the page holds responses for exactly the active records. Under a lawful mapper every response in it is active |
| ManufacturerService.GetById | src/main/java/com/ipaixao/ibeer/domain/manufacturer/ManufacturerService.java:55-64 | succeeds exactly when the identifier is stored, answering with that record's response (whose identifier, name and flag match the record under a lawful mapper). Otherwise it fails with `EntityNotFound("Entity not found!")` |
| ManufacturerService.Update | src/main/java/com/ipaixao/ibeer/domain/manufacturer/ManufacturerService.java:66-82 | succeeds exactly when the identifier is present and stored. A missing record fails with `EntityNotFound` and a null identifier is refused, both without writing. On success the call issues exactly one save of the merged record and answers with the merged record's response. The key set and every other record are unchanged |
| ManufacturerService.DeleteById | src/main/java/com/ipaixao/ibeer/domain/manufacturer/ManufacturerService.java:84-87 | always succeeds with one `Deleted` write and no existence check. The store loses exactly that identifier and is unchanged when the identifier was absent |
| ServiceProperties.GetAllActiveIsRestrictionOfGetAll | src/main/java/com/ipaixao/ibeer/domain/manufacturer/ManufacturerService.java:45-53 | the active page equals the full page restricted to active records |
| ServiceProperties.GetByIdAgreesWithGetAll | src/main/java/com/ipaixao/ibeer/domain/manufacturer/ManufacturerService.java:46-63 | a single lookup succeeds exactly when the full page lists the identifier, and with the same response |
| ServiceProperties.UpdateThenGetById | src/main/java/com/ipaixao/ibeer/domain/manufacturer/ManufacturerService.java:56-81 | after a successful update, a lookup of the identifier returns what the update answered |
| ServiceProperties.DeleteThenGetById | src/main/java/com/ipaixao/ibeer/domain/manufacturer/ManufacturerService.java:56-87 | after a delete, a lookup of the identifier fails with `EntityNotFound`. Lookups of other identifiers answer as before |
| ServiceProperties.DeleteIsIdempotent | src/main/java/com/ipaixao/ibeer/domain/manufacturer/ManufacturerService.java:85-87 | deleting an identifier twice leaves the same store as deleting it once |
| ServiceProperties.UpdateIgnoresOtherRecords | src/main/java/com/ipaixao/ibeer/domain/manufacturer/ManufacturerService.java:67-77 | update's result and writes depend only on the record it updates. No other record's name can make it fail |
| ServiceProperties.UpdateMayDuplicateName | src/main/java/com/ipaixao/ibeer/domain/manufacturer/ManufacturerService.java:67-82 | with storage that accepts every save, renaming a record to another record's name succeeds and leaves two records with that name |
| ServiceProperties.UpdatePreservesUniqueNames | src/main/java/com/ipaixao/ibeer/domain/manufacturer/ManufacturerService.java:67-82 | under a lawful mapper, an update keeps names unique when no other record holds the new name, e.g. when a record keeps its own name |
| ServiceProperties.CreateSameNameTwice | src/main/java/com/ipaixao/ibeer/domain/manufacturer/ManufacturerService.java:29-43 | creating an unused name twice in a row: the first call succeeds with one write. The second fails with `DuplicateEntity` and writes nothing |
| ServiceProperties.HeinekenScenario | src/main/java/com/ipaixao/ibeer/domain/manufacturer/ManufacturerService.java:29-82 | from an empty store: create "Heineken" succeeds. Creating it again is rejected as a duplicate. Updating the created record with its own name succeeds, and renaming it to an unused name succeeds, both on the same identifier |

## Left out

- Spring wiring (`@Service`, Lombok constructors, `@Transactional` and its read-only hint) is not modelled. Each operation is one atomic transition over the store.
- Concurrency is not modelled. The race between the duplicate lookup and the write belongs to the transaction machinery and the database, not to this code.
- The error log written by `getById` is a side effect with no behavioural content, so it is omitted.
- Pagination (`Pageable`, sorting, slicing) is done by the repository and is not modelled. A page is modelled as the full map from identifier to record. The service's own `Page.map` over that page is modelled by `ManufacturerService.ToResponses`.
- The mapper's code is not part of this model. Its conversions are uninterpreted functions, and `Lawful` states the only facts some properties assume:
  - `toEntity` and `updateFromDto` carry the transfer object's name;
  - `toResponse` shows the record's identifier, name and flag.
- The validator's code is not part of this model. It is assumed to reject exactly a non-null identifier.
- The mapper is assumed to leave a new entity's identifier unset, so `save` inserts it under a storage-assigned identifier.
- Identifiers are Java `long`s. The model uses unbounded integers and does not model 64-bit overflow of identifier generation.
- Repository.FindIdByName: when several records share a name, the model returns one of them. A single-result derived query may instead raise an error for that case. Either way `create` fails, but with a different error.
- Repository.FindIdByNameAndIdNot: the same applies when several other records share the name.
- A null transfer object is not modelled. `create` would throw a `NullPointerException` at `Optional.of` (`:36`), and `update` would throw one at `dto.id()` (`:68`).
- A null name is not modelled. Nothing in the service checks `dto.name()`, so it would reach the repository queries and the mapper unchecked.
- Names are compared by exact string equality. The database's collation (case or trailing-space folding) is not modelled. Under such a collation, `NameTaken`, `UniqueNames` and the verdict of `ManufacturerService.Create` mean "equal under the collation" instead.
- ManufacturerService.Update: a null transfer-object identifier is modelled as the repository refusing the lookup (`NullIdentifier`). That refusal comes from the repository, which is not part of this model.
- Storage is assumed to accept every save. The entity's schema is not part of this model, so no unique (or other) constraint on `name` is modelled. With such a constraint, an update to a taken name would fail at commit instead of leaving two records with one name (`ServiceProperties.UpdateMayDuplicateName`).
- Deleting an absent identifier is modelled as a no-op. What the database does in that case is the repository's behaviour, which is not part of this model.
- The in-place mutation of the fetched entity in `update` is modelled as a pure merge. Java returns the response of the same, mutated object, and the model returns the response of the merged record.

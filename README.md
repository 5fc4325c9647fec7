# Order service (microservice-commandes) in Dafny

A model of the order service `CommandeServiceImpl` of a Spring Boot CRUD
microservice, together with proofs about it. The service keeps orders (`Commande`). Each order has an id, a
description, a quantity (`quantite`), a date and an amount (`montant`). The service offers five
operations: list the recent orders, get one by id, create, update and delete.

- `wrappers.dfy`: `Option` stands for a nullable Java reference. `Result` and `Outcome` stand for
  the service's return values and its exceptions.
- `commande.dfy`: the entity `CommandeModel.Commande`, the transfer object
  `CommandeDtos.CommandeDto` (fields of `CommandeDTO.java:4-8`) and the mapper
  `CommandeMapper` (`ToDto`, `ToEntity`) with its round-trip lemmas.
- `service.dfy`: the listing pipeline as pure functions (`FilterRecent` and its
  reference characterisation `RecentPositions`), then the class
  `CommandeServiceImpl`. The class holds the repository as a map `store` from id to order.
  It also holds the `findAll` iteration order as a sequence `order` and the next
  id the repository will assign as `nextId`. `Valid()` (via `StoreInvariant`) says:
  - every key is listed exactly once;
  - every order is stored under its own id;
  - every id lies below `nextId`.
- `scenarios.dfy`: client methods. Each runs several calls in a row and states what the contracts
  give about them.

Model choices:
- Dates are whole days counted from an epoch. `minusDays(n)` is subtraction and `isAfter` is strict `>`.
- The clock reading (`LocalDate.now()`) is a parameter `today`. The configured window
  (`getCommandesLast()`) is a parameter `commandesLast`.
- The amount is a type parameter `M`. The service only copies it.
- The repository assigns ids from a counter that starts at 1 and never goes back, so a deleted id
  is never handed out again.
- `NotFound` stands for every `RuntimeException("Commande not found")`.

Null dates: `getAllCommandes` reads the date of every stored order
(`CommandeServiceImpl.java:34`). Both `createCommande` (through the mapper) and
`updateCommande` (line 61) accept a null date. The model lets them do so. A listing over a store that
holds a dateless order fails with `NullDate`, which stands for the
`NullPointerException` the stream throws. The listing's failure condition is
exactly "some stored order has no date". A descriptive reading of the service
would say that listing never fails. The model follows the code instead.

## Model

| member | source | states |
|---|---|---|
| `CommandeService.CommandeServiceImpl.GetAllCommandes` | src/main/java/com/example/microservicecommandes/service/impl/CommandeServiceImpl.java:31-37 | fails with NullDate exactly when some stored order has a null date; otherwise every listed object is the DTO of a stored order (under its own id) dated strictly after `today - commandesLast`, every such stored order is listed, and the listed ids appear in the store's iteration order (so none twice); reads only, changes nothing |
| `CommandeService.MinusDays` | src/main/java/com/example/microservicecommandes/service/impl/CommandeServiceImpl.java:32 | the cutoff is `today` moved back by the window: adding the window to it gives `today` again |
| `CommandeService.IsAfter` | src/main/java/com/example/microservicecommandes/service/impl/CommandeServiceImpl.java:34 | `isAfter` holds exactly when the other date is earlier, so never for the same day |
| `CommandeService.IsRecent` | src/main/java/com/example/microservicecommandes/service/impl/CommandeServiceImpl.java:34 | the filter lambda passes only dated orders at least one day after the cutoff, passes every such order, and rejects an order dated on the cutoff day |
| `CommandeService.WithinWindow` | src/main/java/com/example/microservicecommandes/service/impl/CommandeServiceImpl.java:32-34 | under a window of n days an order passes exactly when it is dated fewer than n days before today; as today advances an order can only leave the listing |
| `CommandeMapper.ToDto` | src/main/java/com/example/microservicecommandes/service/impl/CommandeServiceImpl.java:35 | `toDTO` (also used at lines 43, 52 and 64) copies all five fields unchanged; the mapper is assumed to be this field-for-field copy |
| `CommandeMapper.ToEntity` | src/main/java/com/example/microservicecommandes/service/impl/CommandeServiceImpl.java:50 | `toEntity` copies all five fields unchanged; the mapper is assumed to be this field-for-field copy |
| `CommandeService.FilterRecent` | src/main/java/com/example/microservicecommandes/service/impl/CommandeServiceImpl.java:33-36 | the stream pipeline fails exactly when an input order has no date; on success it is no longer than its input, every element is dated strictly after the cutoff, and every input order dated after the cutoff appears converted |
| `CommandeService.RecentPositions` | src/main/java/com/example/microservicecommandes/service/impl/CommandeServiceImpl.java:34 | the positions the filter keeps: strictly increasing, in range, and a position is in it exactly when that order passes the date test |
| `CommandeService.FilterRecentSelects` | src/main/java/com/example/microservicecommandes/service/impl/CommandeServiceImpl.java:33-36 | a successful listing is, element by element, the DTOs of the kept positions in increasing order: nothing reordered, dropped or duplicated |
| `CommandeService.ListedIffAfterCutoff` | src/main/java/com/example/microservicecommandes/service/impl/CommandeServiceImpl.java:32-34 | in a successful listing an input order is listed if and only if its date is strictly after the cutoff |
| `CommandeService.CutoffDayExcluded` | src/main/java/com/example/microservicecommandes/service/impl/CommandeServiceImpl.java:32-34 | an order dated exactly on the cutoff day is never listed |
| `CommandeService.ListingOfStore` | src/main/java/com/example/microservicecommandes/service/impl/CommandeServiceImpl.java:33-36 | over a store satisfying the repository invariant, the pipeline applied to `findAll` selects exactly the recent stored orders, each under its key, in iteration order, and fails exactly when a stored order has no date |
| `CommandeService.CommandeServiceImpl.FindAll` | src/main/java/com/example/microservicecommandes/service/impl/CommandeServiceImpl.java:33 | `findAll` returns every stored row, each under the id it is stored by, and no id twice |
| `CommandeService.CommandeServiceImpl.GetCommandeById` | src/main/java/com/example/microservicecommandes/service/impl/CommandeServiceImpl.java:40-45 | fails with NotFound exactly when the id is not stored; otherwise returns a DTO carrying that id whose entity is the stored order, field for field |
| `CommandeService.CommandeServiceImpl.CreateCommande` | src/main/java/com/example/microservicecommandes/service/impl/CommandeServiceImpl.java:48-53 | the new id was not in the store; the result is the input DTO with the new id; the store gains exactly that entry, all other entries unchanged; the id is appended to the iteration order; the invariant is kept |
| `CommandeService.CommandeServiceImpl.UpdateCommande` | src/main/java/com/example/microservicecommandes/service/impl/CommandeServiceImpl.java:56-66 | fails with NotFound exactly when the id is absent, and then nothing changes; otherwise the entry keeps its id whatever the DTO's id, its four fields become the DTO's (nulls included), no other entry changes, and the result equals the new entry |
| `CommandeService.CommandeServiceImpl.DeleteCommande` | src/main/java/com/example/microservicecommandes/service/impl/CommandeServiceImpl.java:69-75 | fails with NotFound exactly when the id is absent, and then nothing changes; otherwise removes exactly that key from the store and from the iteration order |
| `CommandeService.RemoveId` | src/main/java/com/example/microservicecommandes/service/impl/CommandeServiceImpl.java:74 | deleting a key from the iteration order keeps exactly the other keys and keeps them distinct |
| `CommandeService.RemoveIdKeepsOrder` | src/main/java/com/example/microservicecommandes/service/impl/CommandeServiceImpl.java:74 | after `deleteById`, any two remaining keys keep their relative iteration order |
| `CommandeMapper.EntityRoundTrip` | src/main/java/com/example/microservicecommandes/service/impl/CommandeServiceImpl.java:50-52 | entity to DTO and back is the identity (mapper assumed to copy every field) |
| `CommandeMapper.DtoRoundTrip` | src/main/java/com/example/microservicecommandes/service/impl/CommandeServiceImpl.java:50-52 | DTO to entity and back is the identity |
| `CommandeMapper.ToDtoInjective` | src/main/java/com/example/microservicecommandes/dto/CommandeDTO.java:4-8 | two entities with the same DTO are equal: the DTO loses no field |
| `CommandeScenarios.CreateThenGet` | src/main/java/com/example/microservicecommandes/service/impl/CommandeServiceImpl.java:40-53 | a created order is read back under its fresh id, equal to what create returned |
| `CommandeScenarios.DeleteTwice` | src/main/java/com/example/microservicecommandes/service/impl/CommandeServiceImpl.java:40-75 | delete succeeds exactly on a present id; afterwards get and a second delete of that id both fail with NotFound |
| `CommandeScenarios.DeleteThenCreate` | src/main/java/com/example/microservicecommandes/service/impl/CommandeServiceImpl.java:48-75 | a create after a successful delete never reuses the deleted id |
| `CommandeScenarios.RecencyWindow` | src/main/java/com/example/microservicecommandes/service/impl/CommandeServiceImpl.java:31-53 | an order created dated today is listed under a 30-day window today and not 31 days later; both listings succeed exactly when no previously stored order lacks a date |
| `CommandeScenarios.UpdateToNullDate` | src/main/java/com/example/microservicecommandes/service/impl/CommandeServiceImpl.java:31-66 | updating a stored order with a null date succeeds, and every later listing fails with NullDate |

## Left out

- The controller (`CommandeController.java`): HTTP routing and the 200/204/error status mapping is Spring plumbing that only delegates.
- The persistence engine: the repository is an in-memory map. Transactions, isolation and concurrent requests (last write wins) are not modelled.
- The iteration order of `findAll`: it is modelled as insertion order with deleted ids removed. A real database does not guarantee any order.
- The classes `CommandeMapper`, `Commande` and `CommandeRepository` are not modelled; their behaviour is assumed. The mapper copies every field, the entity has exactly the DTO's fields, and the repository is the map described above.
- `CommandeService.CommandeServiceImpl.CreateCommande`: always inserts under a fresh id and ignores any id the DTO carries. With a non-null id the repository's `save` would merge into that row instead, and that is not modelled.
- A null `id` argument: the repository would reject it with its own exception. Ids are plain integers here, and the path variable is never null.
- The `Long` and `Integer` widths and the date range of `LocalDate`: ids and quantities are unbounded integers. `minusDays` is unbounded subtraction, so the `DateTimeException` on a date out of range is not modelled.
- The clock (`LocalDate.now()`) and the configuration read (`getCommandesLast()`): both are parameters. No validation of the window length is modelled, because the service does none.
- `montant` as a `Double`: it is an opaque type parameter, since the service only copies it.
- Exception messages: only the kind of failure (`NotFound`, `NullDate`) is kept.

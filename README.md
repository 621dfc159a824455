# User service model

A Dafny model of the user service of a small user-management web service
(`UserServiceImpl`). The service creates, reads, updates, deletes and lists
user records. A record holds a public user id, an e-mail, first and last
names, an encrypted password and an ordered list of addresses. The service
works over a user table (the repository), an identifier generator and a
password encoder.

Layout, one module per file:

- `wrappers.dfy` (`Wrappers`): `Option`, `Result` and `Outcome`.
- `ids.dfy` (`Ids`): the identifier generator. `IdFor(n, length)` is the
  identifier issued for counter value `n`. `IdGenerator` is the object the
  service calls once per identifier.
- `entities.dfy` (`Entities`): `Address`, `UserEntity` (the stored record),
  `UserDto` (the transfer object). The reflective copies of the original are
  written out as the explicit mappings `ToEntity` and `ToDto`.
- `repository.dfy` (`Repository`): lookups over the stored sequence (`IndexOf`,
  `Find`, `FindAll`). The class `UserRepository` holds the table; its `Save`
  and `Delete` change it in place.
- `service_spec.dfy` (`ServiceSpec`): the error kinds and the read operations
  `GetUser`, `GetUserByUserId` and `LoadUserByUsername`. These only look up
  and copy, so they are functions over the table's contents. The module also
  holds the records that create and update store, and the lemmas relating the
  operations.
- `user_service.dfy` (`UserService`): the class `UserServiceImpl`. It has the
  repository, the generator and the encoder as constructor-injected fields.
  Its methods are `CreateUser`, `UpdateUser`, `DeleteUser` and `GetUsers`.
- `service_client.dfy` (`ServiceClient`): a caller proved from the contracts
  alone. A created user is readable by its public id, a second create with the
  same e-mail is refused, and a deleted id no longer resolves.

The service invariant `UserServiceImpl.Valid()` says that internal keys are
positive and distinct and that no two stored users share an e-mail. Every
method keeps it. So after any sequence of creates, updates and deletes the
table never holds two users with the same e-mail.

Points where the code's behaviour differs from what a reader might expect:

- Page numbers. The code lowers only a positive page number by one. A
  negative page number is passed on unchanged, and `PageRequest.of` rejects it
  (`InvalidPageRequest`). It is not clamped to the first page.
- Encrypted password. The reads copy every same-named property into
  `UserDto`, so `ToDto` copies `encryptedPassword` too. That `UserDto` has
  such a property is an assumption (see "## Left out").
- Update and delete. On a missing user they fail with the fixed
  `NO_RECORD_FOUND` text, which does not name the id.
- `getUser`. Its not-found error carries the e-mail itself as its message.

## Model

| member | source | states |
|---|---|---|
| `Ids.IdFor` | src/main/java/com/hellofirman/mobileappws/service/impl/UserServiceImpl.java:64 | an issued id has exactly the requested length and only characters from 0-9, A-Z, a-z |
| `Ids.DigitsDetermine` | src/main/java/com/hellofirman/mobileappws/service/impl/UserServiceImpl.java:53 | two counter values below 62^length with the same last `length` base-62 digits are equal |
| `Ids.IdForInjective` | src/main/java/com/hellofirman/mobileappws/service/impl/UserServiceImpl.java:53 | distinct counter values below 62^length give distinct ids |
| `Ids.IdGenerator.GenerateId` | src/main/java/com/hellofirman/mobileappws/service/impl/UserServiceImpl.java:64 | returns the id for the current counter value, of the requested length, and advances the counter by one |
| `Entities.ToEntity` | src/main/java/com/hellofirman/mobileappws/service/impl/UserServiceImpl.java:62 | a transfer object becomes a not-yet-stored entity (internal key 0) with the same public id, names, e-mail, encrypted password and addresses; the plaintext password is not carried |
| `Entities.ToDto` | src/main/java/com/hellofirman/mobileappws/service/impl/UserServiceImpl.java:75 | drops the internal key, sets password to `""`, and copies the public id, names, e-mail, encrypted password and addresses |
| `Entities.EntityRoundTrip` | src/main/java/com/hellofirman/mobileappws/service/impl/UserServiceImpl.java:75 | copying a stored record into a transfer object and back loses only the internal key |
| `Entities.DtoRoundTrip` | src/main/java/com/hellofirman/mobileappws/service/impl/UserServiceImpl.java:62 | mapping a transfer object to an entity and back loses only the plaintext password |
| `Repository.IndexOf` | src/main/java/com/hellofirman/mobileappws/service/impl/UserServiceImpl.java:107 | finds the first record matching the key, and reports none exactly when no record matches |
| `Repository.Find` | src/main/java/com/hellofirman/mobileappws/service/impl/UserServiceImpl.java:107 | gives nothing exactly when no record matches the key; otherwise the first matching record in stored order |
| `Repository.FindAll` | src/main/java/com/hellofirman/mobileappws/service/impl/UserServiceImpl.java:152-155 | a page holds at most `size` records: those at positions `pageIndex*size` onwards, in stored order, and none past the end |
| `Repository.Removed` | src/main/java/com/hellofirman/mobileappws/service/impl/UserServiceImpl.java:142 | removing position `i` keeps every other record, in order |
| `Repository.IndexOfKeyAt` | src/main/java/com/hellofirman/mobileappws/service/impl/UserServiceImpl.java:129 | with distinct internal keys, a lookup by a record's key finds that record |
| `Repository.IndexOfAppend` | src/main/java/com/hellofirman/mobileappws/service/impl/UserServiceImpl.java:68 | after one record is appended, a lookup finds the old match if there was one, otherwise the new record if it matches |
| `Repository.UserRepository.constructor` | src/main/java/com/hellofirman/mobileappws/service/impl/UserServiceImpl.java:32 | the table starts empty and well formed |
| `Repository.UserRepository.Save` | src/main/java/com/hellofirman/mobileappws/service/impl/UserServiceImpl.java:68 | replaces the record holding the entity's key; otherwise appends the entity under a fresh key; keys stay positive and distinct |
| `Repository.UserRepository.Delete` | src/main/java/com/hellofirman/mobileappws/service/impl/UserServiceImpl.java:142 | removes exactly the record holding the entity's key; does nothing when no record holds it |
| `ServiceSpec.GetUser` | src/main/java/com/hellofirman/mobileappws/service/impl/UserServiceImpl.java:90-103 | fails with not-found carrying the e-mail exactly when no record has it; otherwise returns a copy of a record with that e-mail |
| `ServiceSpec.GetUserByUserId` | src/main/java/com/hellofirman/mobileappws/service/impl/UserServiceImpl.java:106-116 | fails with not-found exactly when no record has the id, and the message contains the id; otherwise returns a copy of a record with that id |
| `ServiceSpec.LoadUserByUsername` | src/main/java/com/hellofirman/mobileappws/service/impl/UserServiceImpl.java:81-87 | fails with not-found exactly when the e-mail is absent; otherwise returns that e-mail, the stored encrypted password and no authorities |
| `ServiceSpec.CreatedRecord` | src/main/java/com/hellofirman/mobileappws/service/impl/UserServiceImpl.java:61-66 | the created record has a generated 30-character public id, the encoded password, and the candidate's names and e-mail |
| `ServiceSpec.CreatedAddresses` | src/main/java/com/hellofirman/mobileappws/service/impl/UserServiceImpl.java:50-55 | the created record keeps the number and order of the candidate's addresses; each is linked to the candidate and gets the next generated id |
| `ServiceSpec.CreatedIdsDistinct` | src/main/java/com/hellofirman/mobileappws/service/impl/UserServiceImpl.java:50-64 | while the counter stays below 62^30, one create issues pairwise distinct address ids and a public id different from all of them |
| `ServiceSpec.CreateKeepsEmailsUnique` | src/main/java/com/hellofirman/mobileappws/service/impl/UserServiceImpl.java:46-47 | inserting a record whose e-mail is not stored keeps e-mails unique |
| `ServiceSpec.CreateKeepsUserIdsUnique` | src/main/java/com/hellofirman/mobileappws/service/impl/UserServiceImpl.java:64-68 | inserting a record with a fresh public id keeps public ids unique |
| `ServiceSpec.GetAfterCreate` | src/main/java/com/hellofirman/mobileappws/service/impl/UserServiceImpl.java:106-116 | right after a create with a fresh public id, reading that id returns the created record |
| `ServiceSpec.GetUserReturnsStored` | src/main/java/com/hellofirman/mobileappws/service/impl/UserServiceImpl.java:81-97 | with unique e-mails, reading or logging in with a stored e-mail returns exactly that record's copy or principal |
| `ServiceSpec.RenameKeepsEmailsUnique` | src/main/java/com/hellofirman/mobileappws/service/impl/UserServiceImpl.java:126-129 | changing one record's names keeps e-mails unique |
| `ServiceSpec.GetAfterUpdate` | src/main/java/com/hellofirman/mobileappws/service/impl/UserServiceImpl.java:119-133 | after an update, reading the same id returns the renamed record |
| `ServiceSpec.DeleteKeepsEmailsUnique` | src/main/java/com/hellofirman/mobileappws/service/impl/UserServiceImpl.java:142 | removing one record keeps e-mails unique |
| `ServiceSpec.GetAfterDelete` | src/main/java/com/hellofirman/mobileappws/service/impl/UserServiceImpl.java:136-144 | with unique public ids, after a delete, reading the deleted id fails |
| `ServiceSpec.PageIndex` | src/main/java/com/hellofirman/mobileappws/service/impl/UserServiceImpl.java:150 | a positive 1-based page number `p` becomes index `p-1`; zero and negative numbers pass unchanged, so the index is negative exactly when the number is |
| `ServiceSpec.FirstPageTwice` | src/main/java/com/hellofirman/mobileappws/service/impl/UserServiceImpl.java:150 | pages 0 and 1 give identical listings |
| `ServiceSpec.PageBeyondEnd` | src/main/java/com/hellofirman/mobileappws/service/impl/UserServiceImpl.java:152-155 | a page starting at or past the last record lists nothing, not an error |
| `UserService.UserServiceImpl.constructor` | src/main/java/com/hellofirman/mobileappws/service/impl/UserServiceImpl.java:31-38 | the repository, generator and encoder are injected; the service invariant holds |
| `UserService.UserServiceImpl.CreateUser` | src/main/java/com/hellofirman/mobileappws/service/impl/UserServiceImpl.java:41-78 | a stored e-mail gives DuplicateEmail and no change at all; otherwise exactly the created record is appended and its copy returned; e-mails stay unique |
| `UserService.UserServiceImpl.UpdateUser` | src/main/java/com/hellofirman/mobileappws/service/impl/UserServiceImpl.java:119-133 | an unresolved id gives NoRecordFound and no change; otherwise only that record's first and last name change, and its copy is returned |
| `UserService.UserServiceImpl.DeleteUser` | src/main/java/com/hellofirman/mobileappws/service/impl/UserServiceImpl.java:136-144 | an unresolved id gives NoRecordFound and no change; otherwise exactly that record is removed |
| `UserService.UserServiceImpl.GetUsers` | src/main/java/com/hellofirman/mobileappws/service/impl/UserServiceImpl.java:147-164 | queries page index `page-1` for positive pages and `page` otherwise; fails exactly on a negative index or a limit below one; otherwise returns one copy per record of that page, in order |

## Left out

- Identifier randomness. `Utils.java` is not part of this model. The model
  assumes it draws random characters from 0-9, A-Z, a-z; that alphabet is an
  assumption, not something the code shown states. The generator here is a
  counter written in base 62 over that alphabet. Distinctness of ids
  is a property of this counter, and only below 62^30 issued ids. The original
  promises no uniqueness. Lemmas that need a fresh public id take it as a
  hypothesis (`CreateKeepsUserIdsUnique`, `GetAfterCreate`, `GetAfterDelete`).
- Password hashing. BCrypt is salted and non-deterministic. It is modelled as
  an injected fixed function `passwordEncoder`. No lemma relies on equality or
  inequality of its outputs.
- In-place mutation of the caller's transfer object. `createUser` overwrites
  the addresses of the object it is given. The model returns the linked copy
  and leaves the caller's value unchanged, so that aliasing is not captured.
- The address back-reference is an object reference in the original. The model
  stores the owner's e-mail in `owner`, which identifies the user because
  e-mails are unique.
- Internal key. The transfer object has no internal key (`UserDto.java` is not
  part of this model), so the entity built from a candidate has key 0, and
  `Save` always inserts it.
- Spring Data behaviour. Lookups return the first match, while Spring Data
  would raise an error on several matches. Paging total-count metadata, JPA
  cascade mechanics and the database unique constraint are not modelled.
  Addresses live inside the user record, so storing or deleting a user stores
  or deletes its addresses. `FindAll` returns the slice
  `[pageIndex*size, pageIndex*size+size)` of the stored order. This slice is an
  assumption, because that behaviour belongs to Spring Data.
- `PageRequest.of` validation appears only as the `InvalidPageRequest` failure
  condition (index below zero or size below one), without its message text.
- Error texts of `ErrorMessagesEnum` (`ErrorMessagesEnum.java` is not part of
  this model). `NoRecordFound` carries no text.
- Spring Security's `User` is a plain `Principal` record. Its constructor's
  rejection of an empty username is not modelled.
- Reflection-based copying. ModelMapper and BeanUtils are replaced by
  `ToEntity` and `ToDto`. These copy every field of the same name, including
  the address list. Java `null` strings, such as the password of a returned
  transfer object, are modelled as `""`.
- ToDto: does not model ModelMapper's token-based property matching. A default
  ModelMapper matches properties by name tokens, so the copy returned by
  `createUser` (UserServiceImpl.java:75) may carry the hash in `password`,
  because `encryptedPassword` contains the token "password". `ToDto` copies by
  exact name and always sets `password` to `""`.
- `UserDto.java` and `UserEntity.java` are not part of this model. Their
  fields (public id, names, e-mail, plaintext and encrypted password,
  addresses) are assumed from the getters and setters the service calls. In
  particular, that `UserDto` carries `encryptedPassword`, so that every read
  exposes it, is an assumption about the unseen `UserDto.java`.
- UserService.UserServiceImpl.CreateUser: does not model two exceptions, because
  the model has no null values. A candidate with no address list (a null
  list) makes `user.getAddresses().size()` (line 50) throw. An absent
  password makes `encode(user.getPassword())` (line 66) throw after the ids
  have been drawn. In both cases nothing is stored. The model has no null
  list and treats an absent password as `""`, so in both cases it succeeds and
  appends a record.
- Concurrency. Two concurrent creates with the same e-mail can both pass the
  check before either inserts, and that race is not modelled.
- `UserController.java`. It is HTTP routing and content negotiation. Its
  update and delete handlers are fixed-string stubs, and its empty-first-name
  check belongs to the transport layer.

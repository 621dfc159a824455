/**
 * What the user service promises, stated over the contents of the user table:
 * its error kinds, the read operations (which only look up and copy), the
 * record a successful create stores, and the lemmas relating the operations.
 */
module ServiceSpec {
  import opened Wrappers
  import opened Ids
  import opened Entities
  import opened Repository

  datatype ServiceError =
    | DuplicateEmail(message: string)  // create: the e-mail is already stored
    | NotFound(message: string)        // reads and the login lookup: nothing matches
    | NoRecordFound                    // update and delete: the user id does not resolve
    | InvalidPageRequest               // listing: page index below zero or page size below one

  const DuplicateEmailMessage: string := "The users.email already exists"

  /** The login principal handed to the authentication layer. */
  datatype Principal = Principal(username: string, password: string, authorities: seq<string>)

  ghost predicate EmailsUnique(users: seq<UserEntity>) {
    forall i, j :: 0 <= i < j < |users| ==> users[i].email != users[j].email
  }

  ghost predicate UserIdsUnique(users: seq<UserEntity>) {
    forall i, j :: 0 <= i < j < |users| ==> users[i].userId != users[j].userId
  }

  ghost predicate OccursAt(s: string, part: string, k: int) {
    0 <= k <= |s| - |part| && s[k..k + |part|] == part
  }

  ghost predicate Contains(s: string, part: string) {
    exists k :: OccursAt(s, part, k)
  }

  /** `getUser`: a copy of the record holding `email`, or not-found carrying the e-mail. */
  function GetUser(users: seq<UserEntity>, email: string): (r: Result<UserDto, ServiceError>)
    ensures r.Failure? <==> forall i :: 0 <= i < |users| ==> users[i].email != email
    ensures r.Failure? ==> r.error == NotFound(email)
    ensures r.Success? ==> exists i :: 0 <= i < |users| && users[i].email == email && r.value == ToDto(users[i])
  {
    match Find(users, ByEmail(email))
    case None => Failure(NotFound(email))
    case Some(u) => Success(ToDto(u))
  }

  /** `getUserByUserId`: a copy of the record holding `userId`, or not-found naming the id. */
  function GetUserByUserId(users: seq<UserEntity>, userId: string): (r: Result<UserDto, ServiceError>)
    ensures r.Failure? <==> forall i :: 0 <= i < |users| ==> users[i].userId != userId
    ensures r.Failure? ==> r.error.NotFound? && Contains(r.error.message, userId)
    ensures r.Success? ==> exists i :: 0 <= i < |users| && users[i].userId == userId && r.value == ToDto(users[i])
  {
    match Find(users, ByUserId(userId))
    case None =>
      var message := "User with userId: " + userId + " not found";
      assert OccursAt(message, userId, 18);
      Failure(NotFound(message))
    case Some(u) => Success(ToDto(u))
  }

  /** `loadUserByUsername`: the stored e-mail and encrypted password with no authorities. */
  function LoadUserByUsername(users: seq<UserEntity>, email: string): (r: Result<Principal, ServiceError>)
    ensures r.Failure? <==> forall i :: 0 <= i < |users| ==> users[i].email != email
    ensures r.Failure? ==> r.error == NotFound(email)
    ensures r.Success? ==> r.value.username == email && r.value.authorities == []
    ensures r.Success? ==> exists i :: 0 <= i < |users| && users[i].email == email && r.value.password == users[i].encryptedPassword
  {
    match Find(users, ByEmail(email))
    case None => Failure(NotFound(email))
    case Some(u) => Success(Principal(u.email, u.encryptedPassword, []))
  }

  /** The 0-based page index queried for the 1-based page number the caller passes. */
  function PageIndex(page: int): (index: int)
    ensures page >= 1 ==> index + 1 == page
    ensures page <= 0 ==> index == page
    ensures index >= 0 <==> page >= 0
  {
    if page > 0 then page - 1 else page
  }

  /** `listing` is what `getUsers(page, limit)` returns for the table `users`. */
  ghost predicate IsListing(listing: seq<UserDto>, users: seq<UserEntity>, page: int, limit: int) {
    && PageIndex(page) >= 0
    && limit >= 1
    && var content := FindAll(users, PageIndex(page), limit);
       |listing| == |content| && forall i :: 0 <= i < |listing| ==> listing[i] == ToDto(content[i])
  }

  /** An address linked to its owner and given the id issued for counter value `counter`. */
  function Link(a: Address, email: string, counter: nat): Address {
    a.(owner := Some(email), addressId := IdFor(counter, IdLength))
  }

  /** The candidate's addresses after the linking loop, which starts at counter value `counter`. */
  function LinkAddresses(addresses: seq<Address>, email: string, counter: nat): seq<Address> {
    seq(|addresses|, j requires 0 <= j < |addresses| => Link(addresses[j], email, counter + j))
  }

  /**
   * The record a successful create stores: generator counter `counter` before
   * the call, password encoder `encode`, internal key `key` assigned by save.
   */
  function Created(user: UserDto, counter: nat, encode: string -> string, key: nat): UserEntity {
    UserEntity(
      key,
      IdFor(counter + |user.addresses|, IdLength),
      user.firstName, user.lastName, user.email,
      encode(user.password),
      LinkAddresses(user.addresses, user.email, counter))
  }

  /** The record an update stores: only the two names come from the transfer object. */
  function Renamed(u: UserEntity, dto: UserDto): UserEntity {
    u.(firstName := dto.firstName, lastName := dto.lastName)
  }

  /** The created record carries the generated public id, the encoded password and the candidate's names and e-mail. */
  lemma CreatedRecord(user: UserDto, counter: nat, encode: string -> string, key: nat, c: UserEntity)
    requires c == Created(user, counter, encode, key)
    ensures c.userId == IdFor(counter + |user.addresses|, IdLength) && |c.userId| == IdLength
    ensures c.encryptedPassword == encode(user.password)
    ensures c.firstName == user.firstName && c.lastName == user.lastName && c.email == user.email
  {
  }

  /** The created record keeps the candidate's addresses, in order, each linked and given a new id. */
  lemma CreatedAddresses(user: UserDto, counter: nat, encode: string -> string, key: nat, c: UserEntity)
    requires c == Created(user, counter, encode, key)
    ensures |c.addresses| == |user.addresses|
    ensures forall j :: 0 <= j < |c.addresses| ==>
      c.addresses[j].addressId == IdFor(counter + j, IdLength) && c.addresses[j].owner == Some(user.email)
    ensures forall j :: 0 <= j < |c.addresses| ==>
      && c.addresses[j].city == user.addresses[j].city
      && c.addresses[j].street == user.addresses[j].street
      && c.addresses[j].postalCode == user.addresses[j].postalCode
      && c.addresses[j].addressType == user.addresses[j].addressType
  {
  }

  /**
   * While the generator's counter stays below 62^30, the ids one create
   * issues are pairwise distinct: every address id, and the public user id.
   */
  lemma CreatedIdsDistinct(user: UserDto, counter: nat, encode: string -> string, key: nat)
    requires counter + |user.addresses| < Pow(62, IdLength)
    ensures var c := Created(user, counter, encode, key);
      && (forall i, j :: 0 <= i < j < |c.addresses| ==> c.addresses[i].addressId != c.addresses[j].addressId)
      && (forall i :: 0 <= i < |c.addresses| ==> c.addresses[i].addressId != c.userId)
  {
    var c := Created(user, counter, encode, key);
    var n := |user.addresses|;
    forall i, j | 0 <= i < j < n
      ensures c.addresses[i].addressId != c.addresses[j].addressId
    {
      if IdFor(counter + i, IdLength) == IdFor(counter + j, IdLength) {
        IdForInjective(counter + i, counter + j, IdLength);
      }
    }
    forall i | 0 <= i < n
      ensures c.addresses[i].addressId != c.userId
    {
      if IdFor(counter + i, IdLength) == IdFor(counter + n, IdLength) {
        IdForInjective(counter + i, counter + n, IdLength);
      }
    }
  }

  /** Appending a record whose e-mail is not stored keeps e-mails unique. */
  lemma CreateKeepsEmailsUnique(users: seq<UserEntity>, e: UserEntity)
    requires EmailsUnique(users)
    requires IndexOf(users, ByEmail(e.email)).None?
    ensures EmailsUnique(users + [e])
  {
  }

  /** Appending a record whose public id is fresh keeps public ids unique. */
  lemma CreateKeepsUserIdsUnique(users: seq<UserEntity>, e: UserEntity)
    requires UserIdsUnique(users)
    requires IndexOf(users, ByUserId(e.userId)).None?
    ensures UserIdsUnique(users + [e])
  {
  }

  /** Right after a create with a fresh public id, reading by that id returns the created record. */
  lemma GetAfterCreate(users: seq<UserEntity>, e: UserEntity)
    requires IndexOf(users, ByUserId(e.userId)).None?
    ensures GetUserByUserId(users + [e], e.userId) == Success(ToDto(e))
  {
    IndexOfAppend(users, e, ByUserId(e.userId));
  }

  /** With unique e-mails, reading any stored e-mail returns that very record. */
  lemma GetUserReturnsStored(users: seq<UserEntity>, i: nat)
    requires EmailsUnique(users)
    requires i < |users|
    ensures GetUser(users, users[i].email) == Success(ToDto(users[i]))
    ensures LoadUserByUsername(users, users[i].email) == Success(Principal(users[i].email, users[i].encryptedPassword, []))
  {
  }

  /** Renaming one record keeps e-mails unique. */
  lemma RenameKeepsEmailsUnique(users: seq<UserEntity>, i: nat, dto: UserDto)
    requires EmailsUnique(users)
    requires i < |users|
    ensures EmailsUnique(users[i := Renamed(users[i], dto)])
  {
  }

  /** After renaming the record a public id resolves to, reading that id returns the renamed record. */
  lemma GetAfterUpdate(users: seq<UserEntity>, userId: string, dto: UserDto)
    requires IndexOf(users, ByUserId(userId)).Some?
    ensures var i := IndexOf(users, ByUserId(userId)).value;
      GetUserByUserId(users[i := Renamed(users[i], dto)], userId) == Success(ToDto(Renamed(users[i], dto)))
  {
  }

  /** Removing one record keeps e-mails unique. */
  lemma DeleteKeepsEmailsUnique(users: seq<UserEntity>, i: nat)
    requires EmailsUnique(users)
    requires i < |users|
    ensures EmailsUnique(Removed(users, i))
  {
  }

  /** With unique public ids, after deleting the record an id resolves to, reading that id fails. */
  lemma GetAfterDelete(users: seq<UserEntity>, userId: string)
    requires UserIdsUnique(users)
    requires IndexOf(users, ByUserId(userId)).Some?
    ensures GetUserByUserId(Removed(users, IndexOf(users, ByUserId(userId)).value), userId).Failure?
  {
  }

  /** Page numbers 0 and 1 both query page index 0, so they list the same records. */
  lemma FirstPageTwice(users: seq<UserEntity>, limit: int, a: seq<UserDto>, b: seq<UserDto>)
    requires IsListing(a, users, 0, limit)
    requires IsListing(b, users, 1, limit)
    ensures a == b
  {
  }

  /** A page that starts at or past the last record lists nothing rather than failing. */
  lemma PageBeyondEnd(users: seq<UserEntity>, page: int, limit: int, listing: seq<UserDto>)
    requires IsListing(listing, users, page, limit)
    requires PageIndex(page) * limit >= |users|
    ensures listing == []
  {
  }
}

/**
 * `UserServiceImpl`: the operations that change the user table, and the paged
 * listing. The repository, the identifier generator and the password encoder
 * are injected through the constructor.
 */
module UserService {
  import opened Wrappers
  import opened Ids
  import opened Entities
  import opened Repository
  import opened ServiceSpec

  class UserServiceImpl {
    const repository: UserRepository
    const utils: IdGenerator
    /** The password encoder, an opaque one-way function. */
    const passwordEncoder: string -> string

    /** The table is well formed and no two stored users share an e-mail. */
    ghost predicate Valid()
      reads this, repository
    {
      repository.Valid() && EmailsUnique(repository.users)
    }

    constructor (repository: UserRepository, utils: IdGenerator, passwordEncoder: string -> string)
      requires repository.Valid() && EmailsUnique(repository.users)
      ensures Valid()
      ensures this.repository == repository && this.utils == utils && this.passwordEncoder == passwordEncoder
    {
      this.repository := repository;
      this.utils := utils;
      this.passwordEncoder := passwordEncoder;
    }

    /**
     * `createUser`: refuses an e-mail that is already stored; otherwise links
     * every address to the candidate and gives it a new id, gives the user a
     * new public id and the encoded password, and stores exactly one record.
     */
    method CreateUser(user: UserDto) returns (r: Result<UserDto, ServiceError>)
      requires Valid()
      modifies repository, utils
      ensures Valid()
      ensures IndexOf(old(repository.users), ByEmail(user.email)).Some? ==>
        && r == Failure(DuplicateEmail(DuplicateEmailMessage))
        && repository.users == old(repository.users)
        && repository.nextKey == old(repository.nextKey)
        && utils.counter == old(utils.counter)
      ensures IndexOf(old(repository.users), ByEmail(user.email)).None? ==>
        var created := Created(user, old(utils.counter), passwordEncoder, old(repository.nextKey));
        && repository.users == old(repository.users) + [created]
        && repository.nextKey == old(repository.nextKey) + 1
        && utils.counter == old(utils.counter) + |user.addresses| + 1
        && r == Success(ToDto(created))
    {
      if Find(repository.users, ByEmail(user.email)).Some? {
        return Failure(DuplicateEmail(DuplicateEmailMessage));
      }
      ghost var firstCounter := utils.counter;
      var addresses := user.addresses;
      for i := 0 to |addresses|
        invariant |addresses| == |user.addresses|
        invariant utils.counter == firstCounter + i
        invariant forall j :: 0 <= j < i ==> addresses[j] == Link(user.addresses[j], user.email, firstCounter + j)
        invariant forall j :: i <= j < |addresses| ==> addresses[j] == user.addresses[j]
        invariant repository.users == old(repository.users) && repository.nextKey == old(repository.nextKey)
      {
        var address := addresses[i].(owner := Some(user.email));
        var addressId := utils.GenerateId(IdLength);
        address := address.(addressId := addressId);
        addresses := addresses[i := address];
      }
      assert addresses == LinkAddresses(user.addresses, user.email, firstCounter);
      var userEntity := ToEntity(user.(addresses := addresses));
      var publicUserId := utils.GenerateId(IdLength);
      userEntity := userEntity.(userId := publicUserId, encryptedPassword := passwordEncoder(user.password));
      assert IndexOf(repository.users, ByKey(userEntity.id)).None?;
      var storedUserDetails := repository.Save(userEntity);
      CreateKeepsEmailsUnique(old(repository.users), storedUserDetails);
      r := Success(ToDto(storedUserDetails));
    }

    /**
     * `updateUser`: fails when the public id does not resolve; otherwise sets
     * the first and last name of that record and nothing else.
     */
    method UpdateUser(userId: string, userDto: UserDto) returns (r: Result<UserDto, ServiceError>)
      requires Valid()
      modifies repository
      ensures Valid()
      ensures repository.nextKey == old(repository.nextKey)
      ensures match IndexOf(old(repository.users), ByUserId(userId))
        case None =>
          r == Failure(NoRecordFound) && repository.users == old(repository.users)
        case Some(i) =>
          var updated := Renamed(old(repository.users)[i], userDto);
          && repository.users == old(repository.users)[i := updated]
          && r == Success(ToDto(updated))
    {
      var found := IndexOf(repository.users, ByUserId(userId));
      if found.None? {
        return Failure(NoRecordFound);
      }
      var i := found.value;
      var userEntity := repository.users[i];
      userEntity := userEntity.(firstName := userDto.firstName);
      userEntity := userEntity.(lastName := userDto.lastName);
      IndexOfKeyAt(repository.users, i);
      RenameKeepsEmailsUnique(repository.users, i, userDto);
      var updatedUserDetails := repository.Save(userEntity);
      r := Success(ToDto(updatedUserDetails));
    }

    /**
     * `deleteUser`: fails when the public id does not resolve; otherwise
     * removes exactly that record and its addresses.
     */
    method DeleteUser(userId: string) returns (r: Outcome<ServiceError>)
      requires Valid()
      modifies repository
      ensures Valid()
      ensures repository.nextKey == old(repository.nextKey)
      ensures match IndexOf(old(repository.users), ByUserId(userId))
        case None => r == Fail(NoRecordFound) && repository.users == old(repository.users)
        case Some(i) => r == Pass && repository.users == Removed(old(repository.users), i)
    {
      var found := IndexOf(repository.users, ByUserId(userId));
      if found.None? {
        return Fail(NoRecordFound);
      }
      var i := found.value;
      IndexOfKeyAt(repository.users, i);
      DeleteKeepsEmailsUnique(repository.users, i);
      repository.Delete(repository.users[i]);
      r := Pass;
    }

    /**
     * `getUsers`: converts the 1-based page number and copies the records of
     * that page, in order; never changes the table.
     */
    method GetUsers(page: int, limit: int) returns (r: Result<seq<UserDto>, ServiceError>)
      ensures r.Failure? <==> PageIndex(page) < 0 || limit < 1
      ensures r.Failure? ==> r.error == InvalidPageRequest
      ensures r.Success? ==> IsListing(r.value, repository.users, page, limit)
    {
      var returnValue: seq<UserDto> := [];
      var pageIndex := page;
      if pageIndex > 0 {
        pageIndex := pageIndex - 1;
      }
      if pageIndex < 0 || limit < 1 {
        return Failure(InvalidPageRequest);
      }
      var users := FindAll(repository.users, pageIndex, limit);
      for i := 0 to |users|
        invariant |returnValue| == i
        invariant forall j :: 0 <= j < i ==> returnValue[j] == ToDto(users[j])
      {
        returnValue := returnValue + [ToDto(users[i])];
      }
      r := Success(returnValue);
    }
  }
}

/**
 * A caller of the service, proved from the contracts alone: a create is
 * readable by its public id, a second create with the same e-mail is refused,
 * and after a delete the id no longer resolves.
 */
module ServiceClient {
  import opened Wrappers
  import opened Ids
  import opened Entities
  import opened Repository
  import opened ServiceSpec
  import opened UserService

  method CreateReadDelete(user: UserDto, passwordEncoder: string -> string)
  {
    var repository := new UserRepository();
    var utils := new IdGenerator();
    var service := new UserServiceImpl(repository, utils, passwordEncoder);

    var created := service.CreateUser(user);
    assert created.Success?;
    var userId := created.value.userId;
    GetAfterCreate([], Created(user, 0, passwordEncoder, 1));
    assert GetUserByUserId(repository.users, userId) == created;

    var again := service.CreateUser(user);
    assert again == Failure(DuplicateEmail(DuplicateEmailMessage));

    var deleted := service.DeleteUser(userId);
    assert deleted == Pass;
    assert GetUserByUserId(repository.users, userId).Failure?;
  }
}

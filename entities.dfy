/**
 * The records the service works with: the stored user entity, the transfer
 * object exchanged with callers, and the address both of them hold. The
 * reflective copies of the original (ModelMapper, BeanUtils) are written out
 * here as explicit field-by-field mappings.
 */
module Entities {
  import opened Wrappers

  /**
   * An address of a user. `owner` is the back-reference to the owning user,
   * identified by that user's e-mail; `None` until the service links it.
   */
  datatype Address = Address(
    addressId: string,
    city: string,
    street: string,
    postalCode: string,
    addressType: string,
    owner: Option<string>)

  /** A stored user. `id` is the storage-internal key; 0 means "not stored yet". */
  datatype UserEntity = UserEntity(
    id: nat,
    userId: string,
    firstName: string,
    lastName: string,
    email: string,
    encryptedPassword: string,
    addresses: seq<Address>)

  /**
   * The transfer object. It has no internal key; `password` is the plaintext
   * accepted on create, "" when absent.
   */
  datatype UserDto = UserDto(
    userId: string,
    firstName: string,
    lastName: string,
    email: string,
    password: string,
    encryptedPassword: string,
    addresses: seq<Address>)

  /** Transfer object to a not-yet-stored entity; the plaintext password has no entity field. */
  function ToEntity(dto: UserDto): (e: UserEntity)
    ensures e.id == 0
    ensures e.userId == dto.userId && e.email == dto.email
    ensures e.firstName == dto.firstName && e.lastName == dto.lastName
    ensures e.encryptedPassword == dto.encryptedPassword && e.addresses == dto.addresses
  {
    UserEntity(0, dto.userId, dto.firstName, dto.lastName, dto.email, dto.encryptedPassword, dto.addresses)
  }

  /** Entity to a detached transfer object; the internal key is dropped and no password is set. */
  function ToDto(e: UserEntity): (dto: UserDto)
    ensures dto.password == ""
    ensures dto.userId == e.userId && dto.email == e.email
    ensures dto.firstName == e.firstName && dto.lastName == e.lastName
    ensures dto.encryptedPassword == e.encryptedPassword && dto.addresses == e.addresses
  {
    UserDto(e.userId, e.firstName, e.lastName, e.email, "", e.encryptedPassword, e.addresses)
  }

  /** Mapping an entity out and back loses only its internal key. */
  lemma EntityRoundTrip(e: UserEntity)
    ensures ToEntity(ToDto(e)) == e.(id := 0)
  {
  }

  /** Mapping a transfer object in and back loses only its plaintext password. */
  lemma DtoRoundTrip(dto: UserDto)
    ensures ToDto(ToEntity(dto)) == dto.(password := "")
  {
  }
}

/**
 * The user table the service delegates to: its lookups as functions over the
 * stored sequence, and the repository object whose `Save` and `Delete`
 * change that sequence.
 */
module Repository {
  import opened Wrappers
  import opened Entities

  /** The column a lookup goes by. */
  datatype Key = ByKey(id: nat) | ByEmail(email: string) | ByUserId(userId: string)

  predicate Matches(u: UserEntity, key: Key) {
    match key
    case ByKey(id) => u.id == id
    case ByEmail(email) => u.email == email
    case ByUserId(userId) => u.userId == userId
  }

  /** The position of the first stored record matching `key`, if any. */
  function IndexOf(users: seq<UserEntity>, key: Key): (r: Option<nat>)
    ensures r.Some? ==> r.value < |users| && Matches(users[r.value], key)
    ensures r.Some? ==> forall j :: 0 <= j < r.value ==> !Matches(users[j], key)
    ensures r.None? ==> forall j :: 0 <= j < |users| ==> !Matches(users[j], key)
  {
    if |users| == 0 then None
    else if Matches(users[0], key) then Some(0)
    else match IndexOf(users[1..], key)
      case None => None
      case Some(i) => Some(i + 1)
  }

  /** `findByEmail`, `findByUserId`: the matching record, or nothing. */
  function Find(users: seq<UserEntity>, key: Key): (r: Option<UserEntity>)
    ensures r.None? <==> forall i :: 0 <= i < |users| ==> !Matches(users[i], key)
    ensures r.Some? ==>
      exists i :: 0 <= i < |users| && users[i] == r.value && Matches(users[i], key) &&
        forall j :: 0 <= j < i ==> !Matches(users[j], key)
  {
    match IndexOf(users, key)
    case None => None
    case Some(i) => Some(users[i])
  }

  /** `findAll(PageRequest.of(pageIndex, size))`: the records of one page, in stored order. */
  function FindAll(users: seq<UserEntity>, pageIndex: nat, size: nat): (page: seq<UserEntity>)
    ensures |page| <= size
    ensures var offset := pageIndex * size;
      |page| == (if offset >= |users| then 0 else if |users| - offset < size then |users| - offset else size)
    ensures forall i :: 0 <= i < |page| ==> pageIndex * size + i < |users| && page[i] == users[pageIndex * size + i]
  {
    var offset := pageIndex * size;
    if offset >= |users| then []
    else if |users| - offset < size then users[offset..]
    else users[offset..offset + size]
  }

  /** The stored sequence without the record at position `i`. */
  function Removed(users: seq<UserEntity>, i: nat): (r: seq<UserEntity>)
    requires i < |users|
    ensures |r| == |users| - 1
    ensures forall j :: 0 <= j < i ==> r[j] == users[j]
    ensures forall j :: i <= j < |r| ==> r[j] == users[j + 1]
  {
    users[..i] + users[i + 1..]
  }

  ghost predicate KeysDistinct(users: seq<UserEntity>) {
    forall i, j :: 0 <= i < j < |users| ==> users[i].id != users[j].id
  }

  /** With distinct internal keys, a lookup by key finds exactly the record holding it. */
  lemma IndexOfKeyAt(users: seq<UserEntity>, i: nat)
    requires KeysDistinct(users)
    requires i < |users|
    ensures IndexOf(users, ByKey(users[i].id)) == Some(i)
  {
  }

  /** A lookup in a sequence with one more record at the end. */
  lemma {:induction false} IndexOfAppend(users: seq<UserEntity>, e: UserEntity, key: Key)
    ensures IndexOf(users + [e], key) ==
      match IndexOf(users, key)
      case Some(i) => Some(i)
      case None => if Matches(e, key) then Some(|users|) else None
  {
    if |users| > 0 {
      assert (users + [e])[1..] == users[1..] + [e];
      IndexOfAppend(users[1..], e, key);
    }
  }

  /** The user table. Internal keys are positive, distinct and below `nextKey`. */
  class UserRepository {
    var users: seq<UserEntity>
    var nextKey: nat

    ghost predicate Valid()
      reads this
    {
      && 0 < nextKey
      && (forall i :: 0 <= i < |users| ==> 0 < users[i].id < nextKey)
      && KeysDistinct(users)
    }

    constructor ()
      ensures Valid()
      ensures users == []
    {
      users := [];
      nextKey := 1;
    }

    /**
     * `save`: replaces the record holding `e`'s key, or, when no record holds
     * it, stores `e` under a freshly assigned key at the end.
     */
    method Save(e: UserEntity) returns (stored: UserEntity)
      requires Valid()
      modifies this
      ensures Valid()
      ensures match IndexOf(old(users), ByKey(e.id))
        case Some(i) =>
          stored == e && users == old(users)[i := e] && nextKey == old(nextKey)
        case None =>
          stored == e.(id := old(nextKey)) && users == old(users) + [stored] && nextKey == old(nextKey) + 1
    {
      var found := IndexOf(users, ByKey(e.id));
      match found
      case Some(i) =>
        assert Matches(users[i], ByKey(e.id));
        stored := e;
        users := users[i := e];
      case None =>
        stored := e.(id := nextKey);
        users := users + [stored];
        nextKey := nextKey + 1;
    }

    /** `delete`: removes the record holding `e`'s key; nothing happens when none does. */
    method Delete(e: UserEntity)
      requires Valid()
      modifies this
      ensures Valid()
      ensures nextKey == old(nextKey)
      ensures match IndexOf(old(users), ByKey(e.id))
        case Some(i) => users == Removed(old(users), i)
        case None => users == old(users)
    {
      var found := IndexOf(users, ByKey(e.id));
      if found.Some? {
        users := Removed(users, found.value);
      }
    }
  }
}

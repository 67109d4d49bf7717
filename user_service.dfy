/** The in-memory user service of the earlier (`src`) tree: a hash map from
    id to user and an id counter, with unique e-mails and patch updates. */
module UserService {
  import opened Base
  import opened Domain

  /** `UserDto` as a patch: a null field is left unchanged. */
  datatype UserDto = UserDto(name: Option<string>, email: Option<string>)

  /** Some stored user already has `email`. */
  predicate EmailTaken(users: map<int, User>, email: string)
  {
    exists id :: id in users && users[id].email == email
  }

  /** No two stored users share an e-mail. */
  predicate EmailsDistinct(users: map<int, User>)
  {
    forall a, b :: a in users && b in users && users[a].email == users[b].email ==> a == b
  }

  /** `update`: overwrites the name and the e-mail with the patch's values
      where those are non-null and not blank; the id is kept. */
  function Patch(user: User, dto: UserDto): (r: User)
    ensures r.id == user.id
    ensures r.name == (if Present(dto.name) then dto.name.value else user.name)
    ensures r.email == (if Present(dto.email) then dto.email.value else user.email)
  {
    User(user.id,
         if Present(dto.name) then dto.name.value else user.name,
         if Present(dto.email) then dto.email.value else user.email)
  }

  /** Applying the same patch twice is applying it once, and a patch with
      nothing present in it changes nothing. */
  lemma PatchIdempotent(user: User, dto: UserDto)
    ensures Patch(Patch(user, dto), dto) == Patch(user, dto)
    ensures !Present(dto.name) && !Present(dto.email) ==> Patch(user, dto) == user
  {
  }

  /** A patch whose e-mail, when given, is not any stored user's keeps the
      e-mails unique. */
  lemma PatchKeepsEmailsDistinct(users: map<int, User>, id: int, dto: UserDto)
    requires EmailsDistinct(users) && id in users
    requires dto.email.Some? ==> !EmailTaken(users, dto.email.value)
    ensures EmailsDistinct(users[id := Patch(users[id], dto)])
  {
  }

  /** The user table: `users` and `nextId`. */
  class UserTable {
    var users: map<int, User>
    var nextId: int

    /** Each user is stored under its own id, ids are below the counter,
        and e-mails are unique. */
    ghost predicate Valid()
      reads this
    {
      && nextId >= 1
      && (forall id :: id in users ==> users[id].id == id && 1 <= id < nextId)
      && EmailsDistinct(users)
    }

    /** An empty table whose first id is 1. */
    constructor ()
      ensures Valid()
      ensures users == map[] && nextId == 1
    {
      users := map[];
      nextId := 1;
    }

    /** `createUser`: Conflict when the e-mail is taken, leaving the table
        as it was; otherwise stores the user under the next id, which is
        never handed out again. */
    method CreateUser(name: string, email: string) returns (r: Result<User>)
      requires Valid()
      modifies this
      ensures Valid()
      ensures r.Failure? <==> EmailTaken(old(users), email)
      ensures r.Failure? ==> r.error == Conflict && users == old(users) && nextId == old(nextId)
      ensures r.Success? ==>
                && r.value == User(old(nextId), name, email)
                && old(nextId) !in old(users)
                && users == old(users)[old(nextId) := r.value]
                && nextId == old(nextId) + 1
    {
      if EmailTaken(users, email) {
        return Failure(Conflict);
      }
      var user := User(nextId, name, email);
      users := users[nextId := user];
      nextId := nextId + 1;
      r := Success(user);
    }

    /** `updateUser`: NotFound for an unknown id; then Conflict when the
        patch names an e-mail some stored user has (the user being updated
        included); then Validation when the patch is empty; otherwise the
        patched user replaces the stored one. Other users never change. */
    method UpdateUser(id: int, dto: UserDto) returns (r: Result<User>)
      requires Valid()
      modifies this
      ensures Valid()
      ensures nextId == old(nextId)
      ensures id !in old(users) ==> r == Failure(NotFound)
      ensures id in old(users) ==> (r == Failure(Conflict) <==> dto.email.Some? && EmailTaken(old(users), dto.email.value))
      ensures (&& id in old(users)
               && !(dto.email.Some? && EmailTaken(old(users), dto.email.value))
               && dto.name.None? && dto.email.None?) ==> r == Failure(Validation)
      ensures r.Success? <==>
                id in old(users) && !(dto.email.Some? && EmailTaken(old(users), dto.email.value)) && (dto.name.Some? || dto.email.Some?)
      ensures r.Failure? ==> r.error in {NotFound, Conflict, Validation}
      ensures r.Failure? ==> users == old(users)
      ensures r.Success? ==> id in old(users) && r.value == Patch(old(users)[id], dto) && users == old(users)[id := r.value]
    {
      if id !in users {
        return Failure(NotFound);
      }
      if dto.email.Some? && EmailTaken(users, dto.email.value) {
        return Failure(Conflict);
      }
      if dto.email.None? && dto.name.None? {
        return Failure(Validation);
      }
      PatchKeepsEmailsDistinct(users, id, dto);
      var user := Patch(users[id], dto);
      users := users[id := user];
      r := Success(user);
    }

    /** `getUserById`: the stored user, or NotFound. */
    function GetUserById(id: int): (r: Result<User>)
      reads this
      requires Valid()
      ensures r.Success? <==> id in users
      ensures r.Failure? ==> r.error == NotFound
      ensures r.Success? ==> r.value == users[id] && r.value.id == id
    {
      if id in users then Success(users[id]) else Failure(NotFound)
    }

    /** `deleteUser`: removes the id, if present; the counter is untouched,
        so the id is not handed out again. */
    method DeleteUser(id: int)
      requires Valid()
      modifies this
      ensures Valid()
      ensures users == old(users) - {id}
      ensures nextId == old(nextId)
    {
      users := users - {id};
    }

    /** `getAllUsers`: every stored user once, in the order the map is
        walked. */
    method GetAllUsers() returns (r: seq<User>)
      requires Valid()
      ensures |r| == |users|
      ensures forall u :: u in r <==> exists id :: id in users && users[id] == u
      ensures forall i, j :: 0 <= i < j < |r| ==> r[i].id != r[j].id
    {
      r := [];
      var rest := users.Keys;
      while rest != {}
        invariant rest <= users.Keys
        invariant |r| + |rest| == |users.Keys|
        invariant forall i :: 0 <= i < |r| ==> r[i].id in users && r[i].id !in rest && users[r[i].id] == r[i]
        invariant forall id :: id in users && id !in rest ==> users[id] in r
        invariant forall i, j :: 0 <= i < j < |r| ==> r[i].id != r[j].id
        decreases |rest|
      {
        if forall id :: id !in rest {
          assert false;
        }
        var k :| k in rest;
        r := r + [users[k]];
        rest := rest - {k};
      }
      assert |users.Keys| == |users|;
    }
  }

  /** A created user reads back with the name and e-mail it was given. */
  method CreateThenGet(table: UserTable, name: string, email: string) returns (r: Result<User>)
    requires table.Valid()
    modifies table
    ensures table.Valid()
    ensures r.Success? ==> table.GetUserById(r.value.id) == Success(User(r.value.id, name, email))
  {
    r := table.CreateUser(name, email);
  }

  /** A deleted user no longer reads back, and deleting again changes
      nothing. */
  method DeleteThenGet(table: UserTable, id: int)
    requires table.Valid()
    modifies table
    ensures table.Valid()
    ensures table.GetUserById(id) == Failure(NotFound)
  {
    table.DeleteUser(id);
    ghost var once := table.users;
    table.DeleteUser(id);
    assert table.users == once;
  }
}

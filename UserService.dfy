/**
 * `login_user`, `register_user`, `get_user_service`, `update_user_service`,
 * `delete_user_service`: emails stay unique, new users get the role "user",
 * and passwords are stored only as hashes. Password hashing, the hash check
 * and token issuing are given as functions.
 */
module UserService {
  import opened Wrappers
  import opened Records
  import opened Store

  /** One `key: value` entry of the body given to `update_user_service`. */
  datatype UserAttr = EmailAttr(email: string) | PasswordAttr(password: string) | ActiveAttr(active: bool)

  datatype AttrKey = EmailKey | PasswordKey | ActiveKey

  function KeyOf(a: UserAttr): AttrKey {
    match a
    case EmailAttr(_) => EmailKey
    case PasswordAttr(_) => PasswordKey
    case ActiveAttr(_) => ActiveKey
  }

  /**
   * The entry the body holds under `key`. A JSON object keeps the LAST of
   * repeated keys, so the body is read from the end.
   */
  function Supplied(data: seq<UserAttr>, key: AttrKey): (r: Option<UserAttr>)
    ensures r.Some? ==> KeyOf(r.value) == key && r.value in data
    ensures r.None? <==> forall i :: 0 <= i < |data| ==> KeyOf(data[i]) != key
    decreases |data|
  {
    if data == [] then None
    else if KeyOf(data[|data| - 1]) == key then Some(data[|data| - 1])
    else Supplied(data[..|data| - 1], key)
  }

  /**
   * The entry found under `key` is the LAST entry with that key: no entry
   * after it has the key.
   */
  lemma {:induction false} SuppliedIsLast(data: seq<UserAttr>, key: AttrKey)
    ensures Supplied(data, key).Some? ==>
              exists i :: 0 <= i < |data| && data[i] == Supplied(data, key).value
                          && forall j :: i < j < |data| ==> KeyOf(data[j]) != key
    decreases |data|
  {
    if data == [] {
      return;
    }
    var init, last := data[..|data| - 1], data[|data| - 1];
    if KeyOf(last) == key {
      assert data[|data| - 1] == Supplied(data, key).value;
      return;
    }
    assert Supplied(data, key) == Supplied(init, key);
    SuppliedIsLast(init, key);
    if Supplied(init, key).Some? {
      var i :| 0 <= i < |init| && init[i] == Supplied(init, key).value
               && forall j :: i < j < |init| ==> KeyOf(init[j]) != key;
      forall j | i < j < |data|
        ensures KeyOf(data[j]) != key
      {
        if j < |init| {
          assert data[j] == init[j];
        }
      }
      assert data[i] == init[i];
    }
  }

  /** An entry appended to the body wins over every earlier entry with its key. */
  lemma SuppliedSnoc(data: seq<UserAttr>, a: UserAttr, key: AttrKey)
    ensures Supplied(data + [a], key) == if KeyOf(a) == key then Some(a) else Supplied(data, key)
  {
    assert (data + [a])[..|data|] == data;
  }

  function SuppliedEmail(data: seq<UserAttr>): Option<string> {
    match Supplied(data, EmailKey)
    case Some(EmailAttr(e)) => Some(e)
    case _ => None
  }

  function SuppliedPassword(data: seq<UserAttr>): Option<string> {
    match Supplied(data, PasswordKey)
    case Some(PasswordAttr(p)) => Some(p)
    case _ => None
  }

  function SuppliedActive(data: seq<UserAttr>): Option<bool> {
    match Supplied(data, ActiveKey)
    case Some(ActiveAttr(b)) => Some(b)
    case _ => None
  }

  /** `setattr(user, key, value)` for one entry. */
  function SetAttr(u: User, a: UserAttr): User {
    match a
    case EmailAttr(e) => u.(email := e)
    case PasswordAttr(p) => u.(password := p)
    case ActiveAttr(b) => u.(active := b)
  }

  /**
   * The user after the body is applied: every field the body names takes
   * the value given for it, every other field keeps its value.
   */
  function Patched(u: User, data: seq<UserAttr>): User {
    u.(email := SuppliedEmail(data).GetOr(u.email),
       password := SuppliedPassword(data).GetOr(u.password),
       active := SuppliedActive(data).GetOr(u.active))
  }

  /** Applying one more entry after a prefix is `setattr` on the patched prefix. */
  lemma PatchedSnoc(u: User, data: seq<UserAttr>, a: UserAttr)
    ensures Patched(u, data + [a]) == SetAttr(Patched(u, data), a)
  {
    SuppliedSnoc(data, a, EmailKey);
    SuppliedSnoc(data, a, PasswordKey);
    SuppliedSnoc(data, a, ActiveKey);
  }

  /** `generate_password_hash` applied to a password entry; other entries are kept. */
  function HashAttr(a: UserAttr, hash: string -> string): UserAttr {
    if a.PasswordAttr? then PasswordAttr(hash(a.password)) else a
  }

  /** The body after `data['password'] = generate_password_hash(data['password'])`. */
  function HashPasswords(data: seq<UserAttr>, hash: string -> string): seq<UserAttr>
    decreases |data|
  {
    if data == [] then []
    else HashPasswords(data[..|data| - 1], hash) + [HashAttr(data[|data| - 1], hash)]
  }

  /** Hashing keeps every key of the body and hashes the value held under the password key. */
  lemma {:induction false} SuppliedHashed(data: seq<UserAttr>, hash: string -> string, key: AttrKey)
    ensures Supplied(HashPasswords(data, hash), key)
            == if Supplied(data, key).Some? then Some(HashAttr(Supplied(data, key).value, hash)) else None
    decreases |data|
  {
    if data != [] {
      var init, last := data[..|data| - 1], data[|data| - 1];
      SuppliedHashed(init, hash, key);
      SuppliedSnoc(HashPasswords(init, hash), HashAttr(last, hash), key);
      assert KeyOf(HashAttr(last, hash)) == KeyOf(last);
    }
  }

  /**
   * Hashing the password leaves the keys of the body and every value but the
   * password's as they were, and replaces the password by its hash.
   */
  lemma HashPasswordsSupplied(data: seq<UserAttr>, hash: string -> string)
    ensures SuppliedEmail(HashPasswords(data, hash)) == SuppliedEmail(data)
    ensures SuppliedActive(HashPasswords(data, hash)) == SuppliedActive(data)
    ensures SuppliedPassword(HashPasswords(data, hash)).Some? <==> SuppliedPassword(data).Some?
    ensures SuppliedPassword(data).Some? ==>
              SuppliedPassword(HashPasswords(data, hash)) == Some(hash(SuppliedPassword(data).value))
  {
    SuppliedHashed(data, hash, EmailKey);
    SuppliedHashed(data, hash, PasswordKey);
    SuppliedHashed(data, hash, ActiveKey);
  }

  /**
   * The `for key, value in data.items(): setattr(user, key, value)` loop of
   * `update_user_service`.
   */
  method ApplyAttributes(user: User, data: seq<UserAttr>) returns (u: User)
    ensures u == Patched(user, data)
  {
    u := user;
    for i := 0 to |data|
      invariant u == Patched(user, data[..i])
    {
      PatchedSnoc(user, data[..i], data[i]);
      assert data[..i + 1] == data[..i] + [data[i]];
      u := SetAttr(u, data[i]);
    }
    assert data[..|data|] == data;
  }

  /**
   * `login_user`: a token for the user's id when a user has that email and
   * the password checks against its stored hash; "Bad credentials" otherwise.
   */
  method LoginUser(db: Database, email: string, password: string,
                   checkHash: (string, string) -> bool, issue: int -> Token)
    returns (r: Result<Token, ServiceError>)
    requires db.Valid()
    ensures r.Ok? <==> exists id :: id in db.users && db.users[id].email == email
                                    && checkHash(db.users[id].password, password)
    ensures r.Ok? ==> exists id :: id in db.users && db.users[id].email == email && r.value == issue(id)
    ensures r.Err? ==> r.error == BadCredentials
  {
    var found := First(db.users, (u: User) => u.email == email);
    if found.Some? && checkHash(db.users[found.value].password, password) {
      var id := found.value;
      assert id in db.users && db.users[id].email == email;
      return Ok(issue(id));
    }
    forall id | id in db.users && db.users[id].email == email
      ensures !checkHash(db.users[id].password, password)
    {
      // emails are unique, so `first()` found this very user
      assert found.Some? && found.value == id;
    }
    r := Err(BadCredentials);
  }

  /**
   * `register_user`: a taken email fails; otherwise the user is stored with
   * the hash of the password, active, with the single role "user" and the
   * email as its uniquifier.
   */
  method RegisterUser(db: Database, data: Registration, hash: string -> string)
    returns (r: Result<Row<User>, ServiceError>)
    requires db.Valid()
    modifies db`users, db`nextUserId
    ensures db.Valid()
    ensures data.email.None? ==> r == Err(KeyError("email"))
    ensures data.email.Some? && EmailTaken(old(db.users), data.email.value) ==> r == Err(UserAlreadyExists)
    ensures data.email.Some? && !EmailTaken(old(db.users), data.email.value) && data.password.None?
            ==> r == Err(KeyError("password"))
    ensures r.Ok? <==> data.email.Some? && data.password.Some? && !EmailTaken(old(db.users), data.email.value)
    ensures r.Err? ==> db.users == old(db.users) && db.nextUserId == old(db.nextUserId)
    ensures r.Ok? ==>
            && r.value.id !in old(db.users)
            && r.value.record == User(data.email.value, hash(data.password.value), true, [DEFAULT_ROLE], data.email.value)
            && db.users == old(db.users)[r.value.id := r.value.record]
  {
    if data.email.None? {
      return Err(KeyError("email"));
    }
    var email := data.email.value;
    var existing := First(db.users, (u: User) => u.email == email);
    if existing.Some? {
      return Err(UserAlreadyExists);
    }
    if data.password.None? {
      return Err(KeyError("password"));
    }
    var id := db.nextUserId;
    var user := User(email, hash(data.password.value), true, [DEFAULT_ROLE], email);
    db.users := db.users[id := user];
    db.nextUserId := id + 1;
    r := Ok(Row(id, user));
  }

  /** `get_user_service`: the user stored under `id`, if any. */
  function GetUser(db: Database, id: int): (r: Option<User>)
    reads db
    ensures r.Some? <==> id in db.users
    ensures r.Some? ==> r.value == db.users[id]
  {
    if id in db.users then Some(db.users[id]) else None
  }

  /**
   * `update_user_service`: unknown user fails; a supplied email held by
   * another user fails; a supplied password is hashed; then every supplied
   * field is stored and the others keep their values.
   */
  method UpdateUser(db: Database, id: int, data: seq<UserAttr>, hash: string -> string)
    returns (r: Result<Row<User>, ServiceError>)
    requires db.Valid()
    modifies db`users
    ensures db.Valid()
    ensures id !in old(db.users) ==> r == Err(UserNotFound)
    ensures id in old(db.users) && SuppliedEmail(data).Some?
            && EmailTakenByOther(old(db.users), SuppliedEmail(data).value, id)
            ==> r == Err(EmailInUse)
    ensures r.Ok? <==>
            && id in old(db.users)
            && !(SuppliedEmail(data).Some? && EmailTakenByOther(old(db.users), SuppliedEmail(data).value, id))
    // the user's own email is always accepted
    ensures id in old(db.users) && SuppliedEmail(data) in {None, Some(old(db.users)[id].email)} ==> r.Ok?
    ensures r.Err? ==> db.users == old(db.users)
    ensures r.Ok? ==>
            var before := old(db.users)[id];
            && r.value == Row(id, User(SuppliedEmail(data).GetOr(before.email),
                                       if SuppliedPassword(data).Some? then hash(SuppliedPassword(data).value)
                                       else before.password,
                                       SuppliedActive(data).GetOr(before.active),
                                       before.roles,
                                       before.uniquifier))
            && db.users == old(db.users)[id := r.value.record]
  {
    if id !in db.users {
      return Err(UserNotFound);
    }
    var email := SuppliedEmail(data);
    if email.Some? {
      var existing := First(db.users, (u: User) => u.email == email.value);
      if existing.Some? && existing.value != id {
        return Err(EmailInUse);
      }
    }
    var attrs := HashPasswords(data, hash);
    HashPasswordsSupplied(data, hash);
    var user := ApplyAttributes(db.users[id], attrs);
    db.users := db.users[id := user];
    r := Ok(Row(id, user));
  }

  /** `delete_user_service`: unknown user fails; otherwise exactly that user is removed. */
  method DeleteUser(db: Database, id: int) returns (r: Result<(), ServiceError>)
    requires db.Valid()
    modifies db`users
    ensures db.Valid()
    ensures r.Err? <==> id !in old(db.users)
    ensures r.Err? ==> r.error == UserNotFound && db.users == old(db.users)
    ensures r.Ok? ==> db.users == old(db.users) - {id} && GetUser(db, id).None?
  {
    if id !in db.users {
      return Err(UserNotFound);
    }
    db.users := db.users - {id};
    r := Ok(());
  }
}

/**
 The user service: registration with a unique username, lookup by username,
 and storing a hashed refresh token. The hash itself is a parameter.
 */
module Users {
  import opened Wrappers
  import opened Tables
  import opened Entities

  /** The bcrypt cost factor both hashing call sites pass. */
  const SaltRounds := 10

  /** The one-way hash, applied to a secret with a cost factor. */
  type Hasher = (string, nat) -> Digest

  datatype Credentials = Credentials(username: string, password: string)

  /** Refuses a taken username; otherwise stores the user with the hashed password and no token. */
  function CreateUser(t: Table<User>, c: Credentials, hash: Hasher): (r: Result<(Account, Table<User>)>)
    ensures r.Err? <==> UsernameHolders(t, c.username) != {}
    ensures r.Err? ==> r.error == UsernameTaken
    ensures r.Ok? ==>
              var (a, t') := r.value;
              && a.user == User(c.username, hash(c.password, SaltRounds), None)
              && t'.rows.Keys == t.rows.Keys + {a.id}
              && t'.rows[a.id] == a.user
              && (forall k :: k in t.rows && k != a.id ==> t'.rows[k] == t.rows[k])
              && (WellNumbered(t) ==> a.id !in t.rows)
  {
    if UsernameHolders(t, c.username) != {} then Err(UsernameTaken)
    else
      var u := User(c.username, hash(c.password, SaltRounds), None);
      var (id, t') := Insert(t, u);
      Ok((Account(id, u), t'))
  }

  /** The user holding `name`, if any (the least id should several ever hold it). */
  function FindByUsername(t: Table<User>, name: string): (r: Option<Account>)
    ensures r.None? <==> UsernameHolders(t, name) == {}
    ensures r.Some? ==>
              && r.value.id in t.rows
              && r.value.user == t.rows[r.value.id]
              && r.value.user.username == name
              && forall k :: k in UsernameHolders(t, name) ==> r.value.id <= k
  {
    match First(UsernameHolders(t, name))
    case None => None
    case Some(id) => Some(Account(id, t.rows[id]))
  }

  /** Stores the hashed token on the user; an unknown id updates nothing. */
  function UpdateRefreshToken(t: Table<User>, userId: nat, token: string, hash: Hasher): (r: Table<User>)
    ensures r.rows.Keys == t.rows.Keys && r.next == t.next
    ensures userId in t.rows ==>
              r.rows[userId] == t.rows[userId].(refreshToken := Some(hash(token, SaltRounds)))
    ensures forall k :: k in t.rows && k != userId ==> r.rows[k] == t.rows[k]
    ensures userId !in t.rows ==> r == t
  {
    if userId !in t.rows then t
    else Put(t, userId, t.rows[userId].(refreshToken := Some(hash(token, SaltRounds))))
  }

  // ---- properties ----

  lemma CreateKeepsUnique(t: Table<User>, c: Credentials, hash: Hasher)
    requires UniqueUsernames(t) && WellNumbered(t)
    ensures var r := CreateUser(t, c, hash);
            r.Ok? ==> UniqueUsernames(r.value.1) && WellNumbered(r.value.1)
  {
    var r := CreateUser(t, c, hash);
    if r.Ok? {
      var (a, t') := r.value;
      assert forall k :: k in t.rows ==> k !in UsernameHolders(t, c.username);
      forall x, y | x in t'.rows && y in t'.rows && t'.rows[x].username == t'.rows[y].username
        ensures x == y
      {
        if x != a.id && y != a.id {
          assert t.rows[x].username == t.rows[y].username;
        }
      }
    }
  }

  /** A registered user is found under their username, with the hashed password. */
  lemma CreateThenFind(t: Table<User>, c: Credentials, hash: Hasher)
    requires UniqueUsernames(t) && WellNumbered(t)
    requires CreateUser(t, c, hash).Ok?
    ensures var (a, t') := CreateUser(t, c, hash).value;
            && FindByUsername(t', c.username) == Some(a)
            && a.user.password == hash(c.password, SaltRounds)
  {
    var (a, t') := CreateUser(t, c, hash).value;
    CreateKeepsUnique(t, c, hash);
    assert a.id in UsernameHolders(t', c.username);
    assert UsernameHolders(t', c.username) == {a.id} by {
      forall k | k in UsernameHolders(t', c.username) ensures k == a.id {
        assert t'.rows[k].username == t'.rows[a.id].username;
      }
    }
  }

  /** Registering the same username twice fails the second time, whatever the password. */
  lemma CreateTwiceConflicts(t: Table<User>, c: Credentials, password: string, hash: Hasher)
    requires CreateUser(t, c, hash).Ok?
    ensures var t' := CreateUser(t, c, hash).value.1;
            CreateUser(t', Credentials(c.username, password), hash) == Err(UsernameTaken)
  {
    var (a, t') := CreateUser(t, c, hash).value;
    assert a.id in UsernameHolders(t', c.username);
  }

  /** Registration requests served one after another; refused ones change nothing. */
  function RegisterAll(t: Table<User>, cs: seq<Credentials>, hash: Hasher): (r: Table<User>)
    ensures t.rows.Keys <= r.rows.Keys
    ensures WellNumbered(t) ==> WellNumbered(r)
    decreases |cs|
  {
    if cs == [] then t
    else
      var t1 := match CreateUser(t, cs[0], hash)
                case Ok((_, t')) => t'
                case Err(_) => t;
      RegisterAll(t1, cs[1..], hash)
  }

  /** However many registrations arrive, no username is ever held twice. */
  lemma {:induction false} RegisterAllKeepsUnique(t: Table<User>, cs: seq<Credentials>, hash: Hasher)
    requires UniqueUsernames(t) && WellNumbered(t)
    ensures UniqueUsernames(RegisterAll(t, cs, hash))
    decreases |cs|
  {
    if cs != [] {
      CreateKeepsUnique(t, cs[0], hash);
      var t1 := match CreateUser(t, cs[0], hash)
                case Ok((_, t')) => t'
                case Err(_) => t;
      RegisterAllKeepsUnique(t1, cs[1..], hash);
    }
  }

  /** A user once registered keeps their row through later registrations. */
  lemma {:induction false} RegisterAllKeepsRows(t: Table<User>, cs: seq<Credentials>, hash: Hasher)
    requires WellNumbered(t)
    ensures var r := RegisterAll(t, cs, hash);
            forall k :: k in t.rows ==> r.rows[k] == t.rows[k]
    decreases |cs|
  {
    if cs != [] {
      var t1 := match CreateUser(t, cs[0], hash)
                case Ok((_, t')) => t'
                case Err(_) => t;
      RegisterAllKeepsRows(t1, cs[1..], hash);
    }
  }

  /** Every username asked for is held once the requests are served. */
  lemma {:induction false} RegisterAllHoldsEveryName(t: Table<User>, cs: seq<Credentials>, hash: Hasher)
    requires WellNumbered(t)
    ensures var r := RegisterAll(t, cs, hash);
            forall i :: 0 <= i < |cs| ==> UsernameHolders(r, cs[i].username) != {}
    decreases |cs|
  {
    if cs != [] {
      var t1 := match CreateUser(t, cs[0], hash)
                case Ok((_, t')) => t'
                case Err(_) => t;
      var r := RegisterAll(t, cs, hash);
      assert r == RegisterAll(t1, cs[1..], hash);
      RegisterAllHoldsEveryName(t1, cs[1..], hash);
      RegisterAllKeepsRows(t1, cs[1..], hash);
      assert UsernameHolders(t1, cs[0].username) != {} by {
        match CreateUser(t, cs[0], hash)
        case Ok((a, _)) =>
          assert a.id in UsernameHolders(t1, cs[0].username);
        case Err(_) =>
      }
      var k :| k in UsernameHolders(t1, cs[0].username);
      assert k in UsernameHolders(r, cs[0].username);
      forall i | 1 <= i < |cs| ensures UsernameHolders(r, cs[i].username) != {} {
        assert cs[i] == cs[1..][i - 1];
      }
    }
  }

  /** Setting a token changes neither usernames nor passwords, so uniqueness holds. */
  lemma UpdateKeepsUnique(t: Table<User>, userId: nat, token: string, hash: Hasher)
    requires UniqueUsernames(t)
    ensures var r := UpdateRefreshToken(t, userId, token, hash);
            && UniqueUsernames(r)
            && forall k :: k in t.rows ==>
                 r.rows[k].username == t.rows[k].username && r.rows[k].password == t.rows[k].password
  {
    var r := UpdateRefreshToken(t, userId, token, hash);
    forall x, y | x in r.rows && y in r.rows && r.rows[x].username == r.rows[y].username
      ensures x == y
    {
      assert t.rows[x].username == t.rows[y].username;
    }
  }

  /** After the update the user's lookup carries the new hashed token. */
  lemma UpdateThenFind(t: Table<User>, userId: nat, token: string, hash: Hasher)
    requires UniqueUsernames(t) && userId in t.rows
    ensures var r := UpdateRefreshToken(t, userId, token, hash);
            var found := FindByUsername(r, t.rows[userId].username);
            && found.Some? && found.value.id == userId
            && found.value.user.refreshToken == Some(hash(token, SaltRounds))
  {
    var r := UpdateRefreshToken(t, userId, token, hash);
    UpdateKeepsUnique(t, userId, token, hash);
    var name := t.rows[userId].username;
    assert userId in UsernameHolders(r, name);
    assert UsernameHolders(r, name) == {userId} by {
      forall k | k in UsernameHolders(r, name) ensures k == userId {
        assert r.rows[k].username == r.rows[userId].username;
      }
    }
  }

  // ---- the user service on the whole store ----

  lemma CreateUserPreservesValid(s: Store, c: Credentials, hash: Hasher)
    requires Valid(s)
    ensures var r := CreateUser(s.users, c, hash);
            r.Ok? ==> Valid(s.(users := r.value.1))
  {
    CreateKeepsUnique(s.users, c, hash);
  }

  lemma UpdateRefreshTokenPreservesValid(s: Store, userId: nat, token: string, hash: Hasher)
    requires Valid(s)
    ensures Valid(s.(users := UpdateRefreshToken(s.users, userId, token, hash)))
  {
    UpdateKeepsUnique(s.users, userId, token, hash);
  }
}

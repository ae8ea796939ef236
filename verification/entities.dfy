/**
 The records of the store and the rules the schema attaches to them: unique
 columns, foreign keys, and the cascades a delete sets off.
 */
module Entities {
  import opened Wrappers
  import opened Tables

  /** A bcrypt digest; the model never looks inside it. */
  datatype Digest = Digest(text: string)

  datatype User = User(username: string, password: Digest, refreshToken: Option<Digest>)

  /** A user row together with its id, as the repository hands it back. */
  datatype Account = Account(id: nat, user: User)

  /** `ownerId` is the creator (`createdBy`); `duration` is the one nullable column. */
  datatype Exercise = Exercise(
    name: string,
    description: string,
    difficulty: int,
    isPublic: bool,
    ownerId: nat,
    duration: Option<int>)

  /** A row of the Favorite or of the Save relation: who engaged with which exercise. */
  datatype Link = Link(userId: nat, exerciseId: nat)
  type Favorite = Link
  type Save = Link

  datatype Rating = Rating(userId: nat, exerciseId: nat, value: int)

  datatype Store = Store(
    users: Table<User>,
    exercises: Table<Exercise>,
    favorites: Table<Favorite>,
    saves: Table<Save>,
    ratings: Table<Rating>)

  function EmptyStore(): Store
  {
    Store(EmptyTable(), EmptyTable(), EmptyTable(), EmptyTable(), EmptyTable())
  }

  // ---- queries over the relations ----

  /** The rows of a Favorite or Save table recording `u` against exercise `e`. */
  function LinkRows(t: Table<Link>, u: nat, e: nat): set<nat>
  {
    set k | k in t.rows && t.rows[k] == Link(u, e)
  }

  /** The rows of a Favorite or Save table that reference exercise `e`. */
  function LinksTo(t: Table<Link>, e: nat): set<nat>
  {
    set k | k in t.rows && t.rows[k].exerciseId == e
  }

  /** The ratings `u` gave exercise `e`. */
  function RatingRows(t: Table<Rating>, u: nat, e: nat): set<nat>
  {
    set k | k in t.rows && t.rows[k].userId == u && t.rows[k].exerciseId == e
  }

  function RatingsTo(t: Table<Rating>, e: nat): set<nat>
  {
    set k | k in t.rows && t.rows[k].exerciseId == e
  }

  /** The exercises holding a given name. */
  function NameHolders(t: Table<Exercise>, name: string): set<nat>
  {
    set k | k in t.rows && t.rows[k].name == name
  }

  function UsernameHolders(t: Table<User>, name: string): set<nat>
  {
    set k | k in t.rows && t.rows[k].username == name
  }

  /** Derived, never cached: the live Favorite rows of exercise `e`. */
  function FavoriteCount(s: Store, e: nat): nat
  {
    |LinksTo(s.favorites, e)|
  }

  function SaveCount(s: Store, e: nat): nat
  {
    |LinksTo(s.saves, e)|
  }

  // ---- the invariants of the store ----

  /** At most one row per (user, exercise) pair. */
  ghost predicate UniquePairs(t: Table<Link>)
  {
    forall a, b :: a in t.rows && b in t.rows && t.rows[a] == t.rows[b] ==> a == b
  }

  ghost predicate UniqueRatings(t: Table<Rating>)
  {
    forall a, b ::
      a in t.rows && b in t.rows
      && t.rows[a].userId == t.rows[b].userId
      && t.rows[a].exerciseId == t.rows[b].exerciseId
      ==> a == b
  }

  ghost predicate RatingsInRange(t: Table<Rating>)
  {
    forall k :: k in t.rows ==> 1 <= t.rows[k].value <= 5
  }

  /** The range of the store's `integer` column type: 32-bit two's complement. */
  const IntMin: int := -0x8000_0000
  const IntMax: int := 0x7FFF_FFFF

  predicate IsInt32(x: int)
  {
    IntMin <= x <= IntMax
  }

  /** The exercise's integer columns, `difficulty` and the nullable `duration`, hold their values. */
  predicate FitsColumns(e: Exercise)
  {
    IsInt32(e.difficulty) && (e.duration.Some? ==> IsInt32(e.duration.value))
  }

  ghost predicate ColumnsInRange(t: Table<Exercise>)
  {
    forall k :: k in t.rows ==> FitsColumns(t.rows[k])
  }

  ghost predicate UniqueNames(t: Table<Exercise>)
  {
    forall a, b :: a in t.rows && b in t.rows && t.rows[a].name == t.rows[b].name ==> a == b
  }

  ghost predicate UniqueUsernames(t: Table<User>)
  {
    forall a, b :: a in t.rows && b in t.rows && t.rows[a].username == t.rows[b].username ==> a == b
  }

  /** Every foreign key of a Favorite or Save row resolves. */
  ghost predicate LinksResolve(t: Table<Link>, s: Store)
  {
    forall k :: k in t.rows ==> t.rows[k].userId in s.users.rows && t.rows[k].exerciseId in s.exercises.rows
  }

  ghost predicate References(s: Store)
  {
    && (forall k :: k in s.exercises.rows ==> s.exercises.rows[k].ownerId in s.users.rows)
    && LinksResolve(s.favorites, s)
    && LinksResolve(s.saves, s)
    && (forall k :: k in s.ratings.rows ==>
          s.ratings.rows[k].userId in s.users.rows && s.ratings.rows[k].exerciseId in s.exercises.rows)
  }

  ghost predicate Numbered(s: Store)
  {
    && WellNumbered(s.users) && WellNumbered(s.exercises)
    && WellNumbered(s.favorites) && WellNumbered(s.saves) && WellNumbered(s.ratings)
  }

  /** What the schema and the services together keep true of every reachable store. */
  ghost predicate Valid(s: Store)
  {
    && Numbered(s)
    && References(s)
    && UniqueUsernames(s.users)
    && UniqueNames(s.exercises)
    && ColumnsInRange(s.exercises)
    && UniquePairs(s.favorites)
    && UniquePairs(s.saves)
    && UniqueRatings(s.ratings)
    && RatingsInRange(s.ratings)
  }

  lemma EmptyStoreValid()
    ensures Valid(EmptyStore())
  {
  }

  /** The pairwise form of the invariant bounds every pair's row count by one. */
  lemma UniquePairsAtMostOne(t: Table<Link>, u: nat, e: nat)
    requires UniquePairs(t)
    ensures |LinkRows(t, u, e)| <= 1
  {
    var ks := LinkRows(t, u, e);
    if ks != {} {
      var k :| k in ks;
      assert ks == {k} by {
        forall j | j in ks ensures j == k {
          assert t.rows[j] == t.rows[k];
        }
      }
    }
  }

  lemma UniqueRatingsAtMostOne(t: Table<Rating>, u: nat, e: nat)
    requires UniqueRatings(t)
    ensures |RatingRows(t, u, e)| <= 1
  {
    var ks := RatingRows(t, u, e);
    if ks != {} {
      var k :| k in ks;
      assert ks == {k} by {
        forall j | j in ks ensures j == k {
          assert t.rows[j].userId == t.rows[k].userId;
        }
      }
    }
  }

  // ---- cascades ----

  /** Rows of `a` are rows of `b`, under the same ids. */
  ghost predicate SubTable<T>(a: Table<T>, b: Table<T>)
  {
    && a.rows.Keys <= b.rows.Keys
    && a.next == b.next
    && forall k :: k in a.rows ==> a.rows[k] == b.rows[k]
  }

  /**
   Deleting an exercise row; the foreign keys of Favorite, Save and Rating are
   declared ON DELETE CASCADE, so their rows referencing it go too.
   */
  function RemoveExercise(s: Store, id: nat): (r: Store)
    ensures r.users == s.users
    ensures SubTable(r.exercises, s.exercises) && SubTable(r.favorites, s.favorites)
    ensures SubTable(r.saves, s.saves) && SubTable(r.ratings, s.ratings)
    ensures r.exercises.rows.Keys == s.exercises.rows.Keys - {id}
    ensures forall k :: k in s.favorites.rows ==>
              (k in r.favorites.rows <==> s.favorites.rows[k].exerciseId != id)
    ensures forall k :: k in s.saves.rows ==>
              (k in r.saves.rows <==> s.saves.rows[k].exerciseId != id)
    ensures forall k :: k in s.ratings.rows ==>
              (k in r.ratings.rows <==> s.ratings.rows[k].exerciseId != id)
  {
    s.(exercises := Delete(s.exercises, {id}),
       favorites := Delete(s.favorites, LinksTo(s.favorites, id)),
       saves := Delete(s.saves, LinksTo(s.saves, id)),
       ratings := Delete(s.ratings, RatingsTo(s.ratings, id)))
  }

  /** The exercises a user created. */
  function OwnedBy(t: Table<Exercise>, u: nat): set<nat>
  {
    set k | k in t.rows && t.rows[k].ownerId == u
  }

  /** The Favorite or Save rows a user deletion takes with it. */
  function LinksGoneWith(t: Table<Link>, u: nat, owned: set<nat>): set<nat>
  {
    set k | k in t.rows && (t.rows[k].userId == u || t.rows[k].exerciseId in owned)
  }

  function RatingsGoneWith(t: Table<Rating>, u: nat, owned: set<nat>): set<nat>
  {
    set k | k in t.rows && (t.rows[k].userId == u || t.rows[k].exerciseId in owned)
  }

  /**
   Deleting a user row: the exercises it created cascade, and so does every
   Favorite, Save and Rating row of that user or of one of those exercises.
   */
  function RemoveUser(s: Store, u: nat): (r: Store)
    ensures SubTable(r.users, s.users) && SubTable(r.exercises, s.exercises)
    ensures SubTable(r.favorites, s.favorites) && SubTable(r.saves, s.saves)
    ensures SubTable(r.ratings, s.ratings)
    ensures r.users.rows.Keys == s.users.rows.Keys - {u}
    ensures forall k :: k in s.exercises.rows ==>
              (k in r.exercises.rows <==> s.exercises.rows[k].ownerId != u)
    ensures forall k :: k in s.favorites.rows ==>
              (k in r.favorites.rows <==>
                 (s.favorites.rows[k].userId != u && s.favorites.rows[k].exerciseId !in OwnedBy(s.exercises, u)))
    ensures forall k :: k in s.saves.rows ==>
              (k in r.saves.rows <==>
                 (s.saves.rows[k].userId != u && s.saves.rows[k].exerciseId !in OwnedBy(s.exercises, u)))
    ensures forall k :: k in s.ratings.rows ==>
              (k in r.ratings.rows <==>
                 (s.ratings.rows[k].userId != u && s.ratings.rows[k].exerciseId !in OwnedBy(s.exercises, u)))
  {
    var owned := OwnedBy(s.exercises, u);
    Store(Delete(s.users, {u}),
          Delete(s.exercises, owned),
          Delete(s.favorites, LinksGoneWith(s.favorites, u, owned)),
          Delete(s.saves, LinksGoneWith(s.saves, u, owned)),
          Delete(s.ratings, RatingsGoneWith(s.ratings, u, owned)))
  }

  // ---- the invariants survive the cascades ----

  lemma SubTableKeepsUniquePairs(a: Table<Link>, b: Table<Link>)
    requires SubTable(a, b) && UniquePairs(b)
    ensures UniquePairs(a)
  {
    forall x, y | x in a.rows && y in a.rows && a.rows[x] == a.rows[y]
      ensures x == y
    {
      assert b.rows[x] == b.rows[y];
    }
  }

  lemma SubTableKeepsRatings(a: Table<Rating>, b: Table<Rating>)
    requires SubTable(a, b) && UniqueRatings(b) && RatingsInRange(b)
    ensures UniqueRatings(a) && RatingsInRange(a)
  {
    forall x, y | x in a.rows && y in a.rows
      && a.rows[x].userId == a.rows[y].userId && a.rows[x].exerciseId == a.rows[y].exerciseId
      ensures x == y
    {
      assert b.rows[x].userId == b.rows[y].userId && b.rows[x].exerciseId == b.rows[y].exerciseId;
    }
    assert forall k :: k in a.rows ==> a.rows[k] == b.rows[k];
  }

  lemma SubTableKeepsNames(a: Table<Exercise>, b: Table<Exercise>)
    requires SubTable(a, b) && UniqueNames(b)
    ensures UniqueNames(a)
  {
    forall x, y | x in a.rows && y in a.rows && a.rows[x].name == a.rows[y].name
      ensures x == y
    {
      assert b.rows[x].name == b.rows[y].name;
    }
  }

  lemma SubTableKeepsUsernames(a: Table<User>, b: Table<User>)
    requires SubTable(a, b) && UniqueUsernames(b)
    ensures UniqueUsernames(a)
  {
    forall x, y | x in a.rows && y in a.rows && a.rows[x].username == a.rows[y].username
      ensures x == y
    {
      assert b.rows[x].username == b.rows[y].username;
    }
  }

  /** Every invariant but the foreign keys survives taking sub-tables. */
  lemma SubStoreKeepsValid(r: Store, s: Store)
    requires Valid(s)
    requires SubTable(r.users, s.users) && SubTable(r.exercises, s.exercises)
    requires SubTable(r.favorites, s.favorites) && SubTable(r.saves, s.saves)
    requires SubTable(r.ratings, s.ratings)
    requires References(r)
    ensures Valid(r)
  {
    SubTableKeepsUsernames(r.users, s.users);
    SubTableKeepsNames(r.exercises, s.exercises);
    SubTableKeepsUniquePairs(r.favorites, s.favorites);
    SubTableKeepsUniquePairs(r.saves, s.saves);
    SubTableKeepsRatings(r.ratings, s.ratings);
  }

  lemma RemoveExerciseKeepsReferences(s: Store, id: nat)
    requires References(s)
    ensures References(RemoveExercise(s, id))
  {
    var r := RemoveExercise(s, id);
    assert LinksResolve(r.favorites, r) by {
      forall k | k in r.favorites.rows
        ensures r.favorites.rows[k].exerciseId in r.exercises.rows
      {
        assert r.favorites.rows[k] == s.favorites.rows[k];
      }
    }
    assert LinksResolve(r.saves, r) by {
      forall k | k in r.saves.rows
        ensures r.saves.rows[k].exerciseId in r.exercises.rows
      {
        assert r.saves.rows[k] == s.saves.rows[k];
      }
    }
    forall k | k in r.ratings.rows
      ensures r.ratings.rows[k].userId in r.users.rows && r.ratings.rows[k].exerciseId in r.exercises.rows
    {
      assert r.ratings.rows[k] == s.ratings.rows[k];
    }
  }

  /** Without the cascade the Favorite, Save and Rating rows of `id` would dangle. */
  lemma RemoveExercisePreservesValid(s: Store, id: nat)
    requires Valid(s)
    ensures Valid(RemoveExercise(s, id))
  {
    RemoveExerciseKeepsReferences(s, id);
    SubStoreKeepsValid(RemoveExercise(s, id), s);
  }

  lemma RemoveUserKeepsReferences(s: Store, u: nat)
    requires References(s)
    ensures References(RemoveUser(s, u))
  {
    var r := RemoveUser(s, u);
    forall k | k in r.exercises.rows
      ensures r.exercises.rows[k].ownerId in r.users.rows
    {
      assert r.exercises.rows[k] == s.exercises.rows[k];
    }
    assert LinksResolve(r.favorites, r) by {
      forall k | k in r.favorites.rows
        ensures r.favorites.rows[k].userId in r.users.rows
        ensures r.favorites.rows[k].exerciseId in r.exercises.rows
      {
        assert r.favorites.rows[k] == s.favorites.rows[k];
      }
    }
    assert LinksResolve(r.saves, r) by {
      forall k | k in r.saves.rows
        ensures r.saves.rows[k].userId in r.users.rows
        ensures r.saves.rows[k].exerciseId in r.exercises.rows
      {
        assert r.saves.rows[k] == s.saves.rows[k];
      }
    }
    forall k | k in r.ratings.rows
      ensures r.ratings.rows[k].userId in r.users.rows && r.ratings.rows[k].exerciseId in r.exercises.rows
    {
      assert r.ratings.rows[k] == s.ratings.rows[k];
    }
  }

  /** Without the cascade a user's exercises and engagement rows would dangle. */
  lemma RemoveUserPreservesValid(s: Store, u: nat)
    requires Valid(s)
    ensures Valid(RemoveUser(s, u))
  {
    RemoveUserKeepsReferences(s, u);
    SubStoreKeepsValid(RemoveUser(s, u), s);
  }
}

/**
 Favoriting, saving and rating. These are gated on the exercise existing
 only: the caller need not be allowed to see it.
 */
module Engagement {
  import opened Wrappers
  import opened Tables
  import opened Entities

  const Favorited := "Exercise favorited"
  const Unfavorited := "Exercise unfavorited"
  const Saved := "Exercise saved"
  const Unsaved := "Exercise unsaved"
  const Rated := "Exercise rated"

  // ---- the toggle shared by favorites and saves ----

  /**
   Check-then-act on one relation: delete the row of (u, e) when there is one,
   insert one otherwise. The boolean reports whether a row was inserted.
   */
  function Toggle(t: Table<Link>, u: nat, e: nat): (r: (bool, Table<Link>))
    ensures r.0 <==> LinkRows(t, u, e) == {}
    ensures r.0 ==>
              && r.1.rows.Keys == t.rows.Keys + {t.next}
              && r.1.rows[t.next] == Link(u, e)
              && (forall k :: k in t.rows && k != t.next ==> r.1.rows[k] == t.rows[k])
    ensures !r.0 ==>
              && SubTable(r.1, t)
              && exists k :: k in LinkRows(t, u, e) && r.1.rows.Keys == t.rows.Keys - {k}
  {
    match First(LinkRows(t, u, e))
    case Some(k) => (false, Delete(t, {k}))
    case None => (true, Insert(t, Link(u, e)).1)
  }

  /** The pairs a relation records, whatever ids they sit under. */
  function Pairs(t: Table<Link>): set<Link>
  {
    set k | k in t.rows :: t.rows[k]
  }

  /** Inserting an absent pair: the new row is the only one of its pair. */
  lemma AddLinkUnique(t: Table<Link>, u: nat, e: nat)
    requires UniquePairs(t) && WellNumbered(t) && LinkRows(t, u, e) == {}
    ensures var t' := Insert(t, Link(u, e)).1;
            UniquePairs(t') && WellNumbered(t') && LinkRows(t', u, e) == {t.next}
  {
    var t' := Insert(t, Link(u, e)).1;
    assert t.next !in t.rows;
    forall a, b | a in t'.rows && b in t'.rows && t'.rows[a] == t'.rows[b]
      ensures a == b
    {
      if a != t.next && b != t.next {
        assert t.rows[a] == t.rows[b];
      }
    }
  }

  /** Inserting an absent pair adds that pair and leaves every other pair's rows alone. */
  lemma AddLinkFrame(t: Table<Link>, u: nat, e: nat)
    requires WellNumbered(t)
    ensures var t' := Insert(t, Link(u, e)).1;
            && Pairs(t') == Pairs(t) + {Link(u, e)}
            && (forall v: nat, x: nat :: (v, x) != (u, e) ==> LinkRows(t', v, x) == LinkRows(t, v, x))
            && LinksTo(t', e) == LinksTo(t, e) + {t.next} && t.next !in LinksTo(t, e)
            && (forall x: nat :: x != e ==> LinksTo(t', x) == LinksTo(t, x))
  {
    var t' := Insert(t, Link(u, e)).1;
    assert t.next !in t.rows;
    forall l | l in Pairs(t') ensures l in Pairs(t) + {Link(u, e)} {
      var k :| k in t'.rows && t'.rows[k] == l;
      if k != t.next {
        assert t.rows[k] == l;
      }
    }
    forall l | l in Pairs(t) ensures l in Pairs(t') {
      var k :| k in t.rows && t.rows[k] == l;
      assert t'.rows[k] == l;
    }
    assert t'.rows[t.next] == Link(u, e);
  }

  /** Deleting the one row of a present pair removes that pair and nothing else. */
  lemma DropLinkFrame(t: Table<Link>, u: nat, e: nat, k: nat)
    requires UniquePairs(t) && WellNumbered(t) && k in LinkRows(t, u, e)
    ensures var t' := Delete(t, {k});
            && UniquePairs(t') && WellNumbered(t')
            && LinkRows(t', u, e) == {}
            && Pairs(t') == Pairs(t) - {Link(u, e)}
            && (forall v: nat, x: nat :: (v, x) != (u, e) ==> LinkRows(t', v, x) == LinkRows(t, v, x))
            && LinksTo(t', e) == LinksTo(t, e) - {k} && k in LinksTo(t, e)
            && (forall x: nat :: x != e ==> LinksTo(t', x) == LinksTo(t, x))
  {
    var t' := Delete(t, {k});
    SubTableKeepsUniquePairs(t', t);
    assert LinkRows(t, u, e) == {k} by {
      forall j | j in LinkRows(t, u, e) ensures j == k {
        assert t.rows[j] == t.rows[k];
      }
    }
    forall l | l in Pairs(t) && l != Link(u, e) ensures l in Pairs(t') {
      var j :| j in t.rows && t.rows[j] == l;
      assert j != k;
      assert t'.rows[j] == l;
    }
  }

  /**
   On a well-formed relation the toggle flips the presence of (u, e), keeps
   at most one row per pair, and touches no other pair.
   */
  lemma ToggleFlips(t: Table<Link>, u: nat, e: nat)
    requires UniquePairs(t) && WellNumbered(t)
    ensures var (added, t') := Toggle(t, u, e);
            && UniquePairs(t') && WellNumbered(t')
            && |LinkRows(t', u, e)| == (if added then 1 else 0)
            && Pairs(t') == (if added then Pairs(t) + {Link(u, e)} else Pairs(t) - {Link(u, e)})
            && (forall v: nat, x: nat :: (v, x) != (u, e) ==> LinkRows(t', v, x) == LinkRows(t, v, x))
  {
    match First(LinkRows(t, u, e))
    case Some(k) =>
      DropLinkFrame(t, u, e, k);
    case None =>
      AddLinkUnique(t, u, e);
      AddLinkFrame(t, u, e);
  }

  /** Adding an absent pair and then toggling it again gives back the very same rows. */
  lemma AddThenDrop(t: Table<Link>, u: nat, e: nat)
    requires UniquePairs(t) && WellNumbered(t) && LinkRows(t, u, e) == {}
    ensures var t1 := Insert(t, Link(u, e)).1;
            Toggle(t1, u, e) == (false, Delete(t1, {t.next}))
            && Delete(t1, {t.next}).rows == t.rows
  {
    var t1 := Insert(t, Link(u, e)).1;
    AddLinkUnique(t, u, e);
    assert First(LinkRows(t1, u, e)) == Some(t.next);
    assert t.next !in t.rows;
    assert Delete(t1, {t.next}).rows == t.rows;
  }

  /** Dropping a present pair and then toggling it again records the same pairs. */
  lemma DropThenAdd(t: Table<Link>, u: nat, e: nat, k: nat)
    requires UniquePairs(t) && WellNumbered(t) && k in LinkRows(t, u, e)
    ensures var t1 := Delete(t, {k});
            Toggle(t1, u, e).0 && Pairs(Toggle(t1, u, e).1) == Pairs(t)
  {
    var t1 := Delete(t, {k});
    DropLinkFrame(t, u, e, k);
    AddLinkFrame(t1, u, e);
    assert t.rows[k] == Link(u, e);
    assert Link(u, e) in Pairs(t);
  }

  /** Toggling the same pair twice leaves the recorded pairs as they were. */
  lemma ToggleTwice(t: Table<Link>, u: nat, e: nat)
    requires UniquePairs(t) && WellNumbered(t)
    ensures var (first, t1) := Toggle(t, u, e);
            var (second, t2) := Toggle(t1, u, e);
            && second == !first
            && Pairs(t2) == Pairs(t)
            && (first ==> t2.rows == t.rows)
  {
    match First(LinkRows(t, u, e))
    case Some(k) =>
      DropThenAdd(t, u, e, k);
    case None =>
      AddThenDrop(t, u, e);
      var t1 := Insert(t, Link(u, e)).1;
      var t2 := Delete(t1, {t.next});
      assert Pairs(t2) == Pairs(t);
  }

  /** The count of exercise `e` moves by one; other exercises' counts do not move. */
  lemma ToggleMovesCount(t: Table<Link>, u: nat, e: nat)
    requires UniquePairs(t) && WellNumbered(t)
    ensures var (added, t') := Toggle(t, u, e);
            && |LinksTo(t', e)| == (if added then |LinksTo(t, e)| + 1 else |LinksTo(t, e)| - 1)
            && forall x: nat :: x != e ==> LinksTo(t', x) == LinksTo(t, x)
  {
    match First(LinkRows(t, u, e))
    case Some(k) =>
      DropLinkFrame(t, u, e, k);
    case None =>
      AddLinkFrame(t, u, e);
  }

  // ---- the service operations ----

  function FavoriteExercise(s: Store, exerciseId: nat, caller: nat): (r: Result<(string, Store)>)
    ensures r.Err? <==> exerciseId !in s.exercises.rows
    ensures r.Err? ==> r.error == NotFound
    ensures r.Ok? ==>
              var (msg, s') := r.value;
              && (msg == Favorited <==> LinkRows(s.favorites, caller, exerciseId) == {})
              && (msg == Unfavorited <==> LinkRows(s.favorites, caller, exerciseId) != {})
              && s' == s.(favorites := s'.favorites)
  {
    if exerciseId !in s.exercises.rows then Err(NotFound)
    else
      var (added, t) := Toggle(s.favorites, caller, exerciseId);
      Ok((if added then Favorited else Unfavorited, s.(favorites := t)))
  }

  function SaveExercise(s: Store, exerciseId: nat, caller: nat): (r: Result<(string, Store)>)
    ensures r.Err? <==> exerciseId !in s.exercises.rows
    ensures r.Err? ==> r.error == NotFound
    ensures r.Ok? ==>
              var (msg, s') := r.value;
              && (msg == Saved <==> LinkRows(s.saves, caller, exerciseId) == {})
              && (msg == Unsaved <==> LinkRows(s.saves, caller, exerciseId) != {})
              && s' == s.(saves := s'.saves)
  {
    if exerciseId !in s.exercises.rows then Err(NotFound)
    else
      var (added, t) := Toggle(s.saves, caller, exerciseId);
      Ok((if added then Saved else Unsaved, s.(saves := t)))
  }

  /** Insert the rating of (u, e) or overwrite the value of the one already there. */
  function Upsert(t: Table<Rating>, u: nat, e: nat, value: int): (r: Table<Rating>)
    ensures exists k :: k in RatingRows(r, u, e) && r.rows[k].value == value
    ensures RatingRows(t, u, e) != {} ==> r.rows.Keys == t.rows.Keys && r.next == t.next
    ensures RatingRows(t, u, e) == {} ==> r.rows.Keys == t.rows.Keys + {t.next}
    ensures forall k :: k in t.rows && k !in RatingRows(t, u, e) && k != t.next ==> r.rows[k] == t.rows[k]
  {
    match First(RatingRows(t, u, e))
    case Some(k) =>
      var r := Put(t, k, t.rows[k].(value := value));
      assert k in RatingRows(r, u, e);
      r
    case None =>
      var (id, r) := Insert(t, Rating(u, e, value));
      assert id in RatingRows(r, u, e);
      r
  }

  /**
   On a well-formed table exactly one rating of (u, e) remains, holding the
   latest value; every other rating is left as it was.
   */
  lemma UpsertLeavesOne(t: Table<Rating>, u: nat, e: nat, value: int)
    requires UniqueRatings(t) && WellNumbered(t)
    ensures var r := Upsert(t, u, e, value);
            && UniqueRatings(r) && WellNumbered(r)
            && (exists k :: RatingRows(r, u, e) == {k} && r.rows[k] == Rating(u, e, value))
            && (forall k :: k in t.rows && k !in RatingRows(t, u, e) ==> k in r.rows && r.rows[k] == t.rows[k])
  {
    var r := Upsert(t, u, e, value);
    match First(RatingRows(t, u, e))
    case Some(k) =>
      assert r.rows[k] == Rating(u, e, value);
      forall a, b | a in r.rows && b in r.rows
        && r.rows[a].userId == r.rows[b].userId && r.rows[a].exerciseId == r.rows[b].exerciseId
        ensures a == b
      {
        if a != k && b != k {
          assert t.rows[a] == r.rows[a] && t.rows[b] == r.rows[b];
        }
      }
      UniqueRatingsAtMostOne(r, u, e);
      assert k in RatingRows(r, u, e);
      assert RatingRows(r, u, e) == {k};
    case None =>
      var id := t.next;
      assert id !in t.rows;
      assert r.rows[id] == Rating(u, e, value);
      forall a, b | a in r.rows && b in r.rows
        && r.rows[a].userId == r.rows[b].userId && r.rows[a].exerciseId == r.rows[b].exerciseId
        ensures a == b
      {
        if a != id && b != id {
          assert t.rows[a] == r.rows[a] && t.rows[b] == r.rows[b];
        }
      }
      UniqueRatingsAtMostOne(r, u, e);
      assert id in RatingRows(r, u, e);
      assert RatingRows(r, u, e) == {id};
  }

  /** The range check comes first, then the existence check, then the upsert. */
  function RateExercise(s: Store, exerciseId: nat, caller: nat, value: int): (r: Result<(string, Store)>)
    ensures r == Err(RatingOutOfRange) <==> value < 1 || value > 5
    ensures r == Err(NotFound) <==> 1 <= value <= 5 && exerciseId !in s.exercises.rows
    ensures r.Ok? || r == Err(RatingOutOfRange) || r == Err(NotFound)
    ensures r.Ok? ==>
              var (msg, s') := r.value;
              && msg == Rated
              && s' == s.(ratings := s'.ratings)
              && exists k :: k in RatingRows(s'.ratings, caller, exerciseId) && s'.ratings.rows[k].value == value
  {
    if value < 1 || value > 5 then Err(RatingOutOfRange)
    else if exerciseId !in s.exercises.rows then Err(NotFound)
    else Ok((Rated, s.(ratings := Upsert(s.ratings, caller, exerciseId, value))))
  }

  /** The Favorite rows of an exercise whose user row is present. */
  function FavoriteRowsOf(s: Store, exerciseId: nat): (r: set<nat>)
    ensures r <= LinksTo(s.favorites, exerciseId)
    ensures forall k :: k in r ==>
              && k in s.favorites.rows && s.favorites.rows[k].userId in s.users.rows
              && k in LinkRows(s.favorites, s.favorites.rows[k].userId, exerciseId)
  {
    set k | k in s.favorites.rows && s.favorites.rows[k].exerciseId == exerciseId
                && s.favorites.rows[k].userId in s.users.rows
  }

  /** The user on each of the given Favorite rows, in the given order. */
  function FavoritersOn(s: Store, order: seq<nat>): (r: seq<Account>)
    requires forall i :: 0 <= i < |order| ==>
               order[i] in s.favorites.rows && s.favorites.rows[order[i]].userId in s.users.rows
    ensures |r| == |order|
    ensures forall i :: 0 <= i < |r| ==>
              && r[i].id == s.favorites.rows[order[i]].userId
              && r[i].user == s.users.rows[r[i].id]
  {
    seq(|order|, i requires 0 <= i < |order| =>
      var uid := s.favorites.rows[order[i]].userId;
      Account(uid, s.users.rows[uid]))
  }

  /** One entry per Favorite row of the exercise: the user on that row. No access check. */
  function UsersWhoFavorited(s: Store, exerciseId: nat): (r: seq<Account>)
    ensures |r| == |FavoriteRowsOf(s, exerciseId)|
    ensures forall i :: 0 <= i < |r| ==> r[i].id in s.users.rows && r[i].user == s.users.rows[r[i].id]
  {
    var ids := FavoriteRowsOf(s, exerciseId);
    var order := Ascending(ids);
    assert forall i :: 0 <= i < |order| ==>
             order[i] in s.favorites.rows && s.favorites.rows[order[i]].userId in s.users.rows by {
      forall i | 0 <= i < |order|
        ensures order[i] in s.favorites.rows && s.favorites.rows[order[i]].userId in s.users.rows
      {
        assert order[i] in order;
        assert order[i] in ids;
      }
    }
    FavoritersOn(s, order)
  }

  /** Entry i is the user of the i-th Favorite row of the exercise, by id. */
  lemma FavoritersByRow(s: Store, exerciseId: nat, i: nat)
    requires i < |UsersWhoFavorited(s, exerciseId)|
    ensures var order := Ascending(FavoriteRowsOf(s, exerciseId));
            && order[i] in FavoriteRowsOf(s, exerciseId)
            && UsersWhoFavorited(s, exerciseId)[i].id == s.favorites.rows[order[i]].userId
  {
    var order := Ascending(FavoriteRowsOf(s, exerciseId));
    assert order[i] in order;
  }

  /** Everyone listed has favorited the exercise. */
  lemma FavoritersFavorited(s: Store, exerciseId: nat)
    ensures forall x :: x in UsersWhoFavorited(s, exerciseId) ==>
              && x.id in s.users.rows && x.user == s.users.rows[x.id]
              && LinkRows(s.favorites, x.id, exerciseId) != {}
  {
    var r := UsersWhoFavorited(s, exerciseId);
    var order := Ascending(FavoriteRowsOf(s, exerciseId));
    forall x | x in r
      ensures x.id in s.users.rows && x.user == s.users.rows[x.id]
      ensures LinkRows(s.favorites, x.id, exerciseId) != {}
    {
      var i :| 0 <= i < |r| && r[i] == x;
      FavoritersByRow(s, exerciseId, i);
      assert order[i] in LinkRows(s.favorites, x.id, exerciseId);
    }
  }

  /** Everyone whose favorite row is present is listed. */
  lemma FavoritersComplete(s: Store, exerciseId: nat)
    ensures forall k :: k in FavoriteRowsOf(s, exerciseId) ==>
              exists x :: x in UsersWhoFavorited(s, exerciseId) && x.id == s.favorites.rows[k].userId
  {
    var r := UsersWhoFavorited(s, exerciseId);
    var order := Ascending(FavoriteRowsOf(s, exerciseId));
    forall k | k in FavoriteRowsOf(s, exerciseId)
      ensures exists x :: x in r && x.id == s.favorites.rows[k].userId
    {
      var i :| 0 <= i < |order| && order[i] == k;
      FavoritersByRow(s, exerciseId, i);
      assert r[i] in r;
    }
  }

  // ---- what the operations keep true of the store ----

  /** A toggle by an existing user on an existing exercise keeps a relation resolvable. */
  lemma ToggleKeepsResolving(t: Table<Link>, s: Store, u: nat, e: nat)
    requires LinksResolve(t, s) && u in s.users.rows && e in s.exercises.rows
    ensures LinksResolve(Toggle(t, u, e).1, s)
  {
  }

  lemma FavoritePreservesValid(s: Store, exerciseId: nat, caller: nat)
    requires Valid(s) && caller in s.users.rows
    ensures var r := FavoriteExercise(s, exerciseId, caller);
            r.Ok? ==> Valid(r.value.1)
  {
    if exerciseId in s.exercises.rows {
      ToggleFlips(s.favorites, caller, exerciseId);
      ToggleKeepsResolving(s.favorites, s, caller, exerciseId);
    }
  }

  lemma SavePreservesValid(s: Store, exerciseId: nat, caller: nat)
    requires Valid(s) && caller in s.users.rows
    ensures var r := SaveExercise(s, exerciseId, caller);
            r.Ok? ==> Valid(r.value.1)
  {
    if exerciseId in s.exercises.rows {
      ToggleFlips(s.saves, caller, exerciseId);
      ToggleKeepsResolving(s.saves, s, caller, exerciseId);
    }
  }

  /**
   Favoriting moves the exercise's favorite count by one, up on "favorited"
   and down on "unfavorited"; no other count moves.
   */
  lemma FavoriteMovesCount(s: Store, exerciseId: nat, caller: nat)
    requires Valid(s) && exerciseId in s.exercises.rows
    ensures var (msg, s') := FavoriteExercise(s, exerciseId, caller).value;
            && FavoriteCount(s', exerciseId)
               == (if msg == Favorited then FavoriteCount(s, exerciseId) + 1 else FavoriteCount(s, exerciseId) - 1)
            && (forall x: nat :: x != exerciseId ==> FavoriteCount(s', x) == FavoriteCount(s, x))
            && (forall x: nat :: SaveCount(s', x) == SaveCount(s, x))
  {
    ToggleMovesCount(s.favorites, caller, exerciseId);
  }

  lemma SaveMovesCount(s: Store, exerciseId: nat, caller: nat)
    requires Valid(s) && exerciseId in s.exercises.rows
    ensures var (msg, s') := SaveExercise(s, exerciseId, caller).value;
            && SaveCount(s', exerciseId)
               == (if msg == Saved then SaveCount(s, exerciseId) + 1 else SaveCount(s, exerciseId) - 1)
            && (forall x: nat :: x != exerciseId ==> SaveCount(s', x) == SaveCount(s, x))
            && (forall x: nat :: FavoriteCount(s', x) == FavoriteCount(s, x))
  {
    ToggleMovesCount(s.saves, caller, exerciseId);
  }

  /**
   A second favorite request undoes the first: the reply flips and the set
   of recorded favorites is what it was.
   */
  lemma FavoriteTwiceRestores(s: Store, exerciseId: nat, caller: nat)
    requires UniquePairs(s.favorites) && WellNumbered(s.favorites) && exerciseId in s.exercises.rows
    ensures var (m1, s1) := FavoriteExercise(s, exerciseId, caller).value;
            var r2 := FavoriteExercise(s1, exerciseId, caller);
            && r2.Ok?
            && (m1 == Favorited <==> r2.value.0 == Unfavorited)
            && Pairs(r2.value.1.favorites) == Pairs(s.favorites)
            && r2.value.1 == s.(favorites := r2.value.1.favorites)
  {
    ToggleTwice(s.favorites, caller, exerciseId);
  }

  lemma SaveTwiceRestores(s: Store, exerciseId: nat, caller: nat)
    requires UniquePairs(s.saves) && WellNumbered(s.saves) && exerciseId in s.exercises.rows
    ensures var (m1, s1) := SaveExercise(s, exerciseId, caller).value;
            var r2 := SaveExercise(s1, exerciseId, caller);
            && r2.Ok?
            && (m1 == Saved <==> r2.value.0 == Unsaved)
            && Pairs(r2.value.1.saves) == Pairs(s.saves)
            && r2.value.1 == s.(saves := r2.value.1.saves)
  {
    ToggleTwice(s.saves, caller, exerciseId);
  }

  /** Only values that pass the range check are ever stored. */
  lemma RateKeepsRange(s: Store, exerciseId: nat, caller: nat, value: int)
    requires RatingsInRange(s.ratings) && UniqueRatings(s.ratings) && WellNumbered(s.ratings)
    ensures var r := RateExercise(s, exerciseId, caller, value);
            r.Ok? ==> RatingsInRange(r.value.1.ratings)
  {
    if 1 <= value <= 5 && exerciseId in s.exercises.rows {
      UpsertLeavesOne(s.ratings, caller, exerciseId, value);
    }
  }

  /** A successful rating keeps every store invariant. */
  lemma RatePreservesValid(s: Store, exerciseId: nat, caller: nat, value: int)
    requires Valid(s) && caller in s.users.rows
    ensures var r := RateExercise(s, exerciseId, caller, value);
            r.Ok? ==> Valid(r.value.1)
  {
    if 1 <= value <= 5 && exerciseId in s.exercises.rows {
      var s' := RateExercise(s, exerciseId, caller, value).value.1;
      UpsertLeavesOne(s.ratings, caller, exerciseId, value);
      RateKeepsRange(s, exerciseId, caller, value);
      UpsertKeepsResolving(s.ratings, s, caller, exerciseId, value);
      assert References(s');
    }
  }

  /** A rating by an existing user of an existing exercise keeps the rating references resolvable. */
  lemma UpsertKeepsResolving(t: Table<Rating>, s: Store, u: nat, e: nat, value: int)
    requires forall k :: k in t.rows ==> t.rows[k].userId in s.users.rows && t.rows[k].exerciseId in s.exercises.rows
    requires u in s.users.rows && e in s.exercises.rows
    requires UniqueRatings(t) && WellNumbered(t)
    ensures var r := Upsert(t, u, e, value);
            forall k :: k in r.rows ==> r.rows[k].userId in s.users.rows && r.rows[k].exerciseId in s.exercises.rows
  {
    UpsertLeavesOne(t, u, e, value);
  }

  /** Rating twice leaves one rating of the pair, holding the second value. */
  lemma RateTwiceKeepsLatest(s: Store, exerciseId: nat, caller: nat, v1: int, v2: int)
    requires UniqueRatings(s.ratings) && WellNumbered(s.ratings) && exerciseId in s.exercises.rows
    requires 1 <= v1 <= 5 && 1 <= v2 <= 5
    ensures var s1 := RateExercise(s, exerciseId, caller, v1).value.1;
            var s2 := RateExercise(s1, exerciseId, caller, v2).value.1;
            exists k :: RatingRows(s2.ratings, caller, exerciseId) == {k}
                        && s2.ratings.rows[k] == Rating(caller, exerciseId, v2)
  {
    var s1 := RateExercise(s, exerciseId, caller, v1).value.1;
    UpsertLeavesOne(s.ratings, caller, exerciseId, v1);
    UpsertLeavesOne(s1.ratings, caller, exerciseId, v2);
  }

  /** On a valid store every favorite of the exercise is listed. */
  lemma FavoritersMatchCount(s: Store, exerciseId: nat)
    requires References(s)
    ensures |UsersWhoFavorited(s, exerciseId)| == FavoriteCount(s, exerciseId)
    ensures exerciseId !in s.exercises.rows ==> UsersWhoFavorited(s, exerciseId) == []
  {
    assert FavoriteRowsOf(s, exerciseId) == LinksTo(s.favorites, exerciseId);
  }

  /** No user is listed twice, since a user favorites an exercise at most once. */
  lemma FavoritersDistinct(s: Store, exerciseId: nat)
    requires UniquePairs(s.favorites)
    ensures var r := UsersWhoFavorited(s, exerciseId);
            forall i, j :: 0 <= i < j < |r| ==> r[i].id != r[j].id
  {
    var ids := FavoriteRowsOf(s, exerciseId);
    var order := Ascending(ids);
    var r := UsersWhoFavorited(s, exerciseId);
    forall i, j | 0 <= i < j < |r| ensures r[i].id != r[j].id {
      FavoritersByRow(s, exerciseId, i);
      FavoritersByRow(s, exerciseId, j);
      assert order[i] != order[j];
      assert s.favorites.rows[order[i]] != s.favorites.rows[order[j]];
    }
  }

  /** Whoever has just favorited an exercise is among its favoriters. */
  lemma FavoriteThenListed(s: Store, exerciseId: nat, caller: nat)
    requires Valid(s) && caller in s.users.rows && exerciseId in s.exercises.rows
    requires FavoriteExercise(s, exerciseId, caller).value.0 == Favorited
    ensures var s' := FavoriteExercise(s, exerciseId, caller).value.1;
            exists x :: x in UsersWhoFavorited(s', exerciseId) && x.id == caller && x.user == s.users.rows[caller]
  {
    var s' := FavoriteExercise(s, exerciseId, caller).value.1;
    var k := s.favorites.next;
    assert LinkRows(s.favorites, caller, exerciseId) == {};
    assert s'.favorites.rows[k] == Link(caller, exerciseId);
    assert k in FavoriteRowsOf(s', exerciseId);
    var r := UsersWhoFavorited(s', exerciseId);
    FavoritersComplete(s', exerciseId);
    FavoritersFavorited(s', exerciseId);
    var x :| x in r && x.id == s'.favorites.rows[k].userId;
    assert x.user == s.users.rows[caller];
  }
}

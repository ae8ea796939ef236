/** Creating, changing, deleting and reading single exercises. */
module Catalog {
  import opened Wrappers
  import opened Tables
  import opened Entities
  import opened Access

  /** The create input; `isPublic` and `duration` may be left out. */
  datatype NewExercise = NewExercise(
    name: string,
    description: string,
    difficulty: int,
    isPublic: Option<bool>,
    duration: Option<int>)

  /**
   A partial update: `None` leaves a field alone. `duration` is nullable, so
   `Some(None)` clears it, which differs from leaving it out.
   */
  datatype Patch = Patch(
    name: Option<string>,
    description: Option<string>,
    difficulty: Option<int>,
    isPublic: Option<bool>,
    duration: Option<Option<int>>)

  /** A stored exercise together with its id, as create and update hand it back. */
  datatype Row = Row(id: nat, exercise: Exercise)

  /** The narrow single-exercise projection: no difficulty, visibility, duration or ratings. */
  datatype ExerciseView = ExerciseView(
    id: nat,
    name: string,
    description: string,
    favoriteCount: nat,
    saveCount: nat,
    createdBy: nat)

  /** The row the store builds from a create input: the caller becomes its creator. */
  function Build(input: NewExercise, caller: nat): (e: Exercise)
    ensures e.ownerId == caller
    ensures e.name == input.name && e.description == input.description
    ensures e.difficulty == input.difficulty && e.duration == input.duration
    ensures input.isPublic == None ==> e.isPublic
    ensures input.isPublic.Some? ==> e.isPublic == input.isPublic.value
  {
    Exercise(input.name, input.description, input.difficulty,
             match input.isPublic case Some(b) => b case None => true,
             caller, input.duration)
  }

  /**
   Inserts a new exercise owned by the caller. The store refuses a difficulty
   or duration outside its integer column, and then a name some exercise
   already holds; a refused insert writes nothing.
   */
  function Create(s: Store, input: NewExercise, caller: nat): (r: Result<(Row, Store)>)
    ensures r == Err(OutOfRange) <==> !FitsColumns(Build(input, caller))
    ensures r == Err(UniqueViolation) <==>
              FitsColumns(Build(input, caller)) && NameHolders(s.exercises, input.name) != {}
    ensures r.Err? <==> !FitsColumns(Build(input, caller)) || NameHolders(s.exercises, input.name) != {}
    ensures r.Err? ==> r.error == OutOfRange || r.error == UniqueViolation
    ensures r.Ok? ==>
              var (row, s') := r.value;
              && row.exercise == Build(input, caller)
              && FitsColumns(row.exercise)
              && s'.exercises.rows.Keys == s.exercises.rows.Keys + {row.id}
              && s'.exercises.rows[row.id] == row.exercise
              && (forall k :: k in s.exercises.rows && k != row.id ==> s'.exercises.rows[k] == s.exercises.rows[k])
              && (WellNumbered(s.exercises) ==> row.id !in s.exercises.rows)
              && s'.users == s.users && s'.favorites == s.favorites
              && s'.saves == s.saves && s'.ratings == s.ratings
  {
    var e := Build(input, caller);
    if !FitsColumns(e) then Err(OutOfRange)
    else if NameHolders(s.exercises, input.name) != {} then Err(UniqueViolation)
    else
      var (id, t) := Insert(s.exercises, e);
      Ok((Row(id, e), s.(exercises := t)))
  }

  /** Overwrites exactly the fields the patch carries; id and creator are not patchable. */
  function ApplyPatch(e: Exercise, p: Patch): (r: Exercise)
    ensures r.ownerId == e.ownerId
    ensures p.name.None? ==> r.name == e.name
    ensures p.name.Some? ==> r.name == p.name.value
    ensures p.description.None? ==> r.description == e.description
    ensures p.description.Some? ==> r.description == p.description.value
    ensures p.difficulty.None? ==> r.difficulty == e.difficulty
    ensures p.difficulty.Some? ==> r.difficulty == p.difficulty.value
    ensures p.isPublic.None? ==> r.isPublic == e.isPublic
    ensures p.isPublic.Some? ==> r.isPublic == p.isPublic.value
    ensures p.duration.None? ==> r.duration == e.duration
    ensures p.duration.Some? ==> r.duration == p.duration.value
  {
    e.(name := match p.name case Some(v) => v case None => e.name,
       description := match p.description case Some(v) => v case None => e.description,
       difficulty := match p.difficulty case Some(v) => v case None => e.difficulty,
       isPublic := match p.isPublic case Some(v) => v case None => e.isPublic,
       duration := match p.duration case Some(v) => v case None => e.duration)
  }

  /**
   Loads, checks visibility, merges the patch and saves. The store refuses a
   merged difficulty or duration outside its integer column, and then a name
   another exercise holds.
   */
  function Update(s: Store, id: nat, patch: Patch, caller: nat): (r: Result<(Row, Store)>)
    ensures r == Err(NotFound) <==> id !in s.exercises.rows
    ensures r == Err(Forbidden(Modify)) <==>
              id in s.exercises.rows && !s.exercises.rows[id].isPublic && s.exercises.rows[id].ownerId != caller
    ensures r == Err(OutOfRange) <==>
              id in s.exercises.rows && Permits(s.exercises.rows[id], caller)
              && !FitsColumns(ApplyPatch(s.exercises.rows[id], patch))
    ensures r == Err(UniqueViolation) <==>
              id in s.exercises.rows && Permits(s.exercises.rows[id], caller)
              && FitsColumns(ApplyPatch(s.exercises.rows[id], patch))
              && NameHolders(s.exercises, ApplyPatch(s.exercises.rows[id], patch).name) - {id} != {}
    ensures r.Ok? ==>
              var (row, s') := r.value;
              && id in s.exercises.rows
              && row == Row(id, ApplyPatch(s.exercises.rows[id], patch))
              && FitsColumns(row.exercise)
              && s'.exercises.rows.Keys == s.exercises.rows.Keys
              && s'.exercises.rows[id] == row.exercise
              && (forall k :: k in s.exercises.rows && k != id ==> s'.exercises.rows[k] == s.exercises.rows[k])
              && s'.exercises.next == s.exercises.next
              && s'.users == s.users && s'.favorites == s.favorites
              && s'.saves == s.saves && s'.ratings == s.ratings
  {
    match Authorize(s.exercises, id, caller, Modify)
    case Err(e) => Err(e)
    case Ok(current) =>
      var e := ApplyPatch(current, patch);
      if !FitsColumns(e) then Err(OutOfRange)
      else if NameHolders(s.exercises, e.name) - {id} != {} then Err(UniqueViolation)
      else Ok((Row(id, e), s.(exercises := Put(s.exercises, id, e))))
  }

  /** Loads, checks visibility and deletes; the store cascades to the engagement rows. */
  function DeleteExercise(s: Store, id: nat, caller: nat): (r: Result<Store>)
    ensures r == Err(NotFound) <==> id !in s.exercises.rows
    ensures r == Err(Forbidden(Remove)) <==>
              id in s.exercises.rows && !s.exercises.rows[id].isPublic && s.exercises.rows[id].ownerId != caller
    ensures r.Ok? || r == Err(NotFound) || r == Err(Forbidden(Remove))
    ensures r.Ok? ==>
              var s' := r.value;
              && s'.exercises.rows.Keys == s.exercises.rows.Keys - {id}
              && FavoriteCount(s', id) == 0 && SaveCount(s', id) == 0
              && RatingsTo(s'.ratings, id) == {}
              && s'.users == s.users
              && SubTable(s'.exercises, s.exercises) && SubTable(s'.favorites, s.favorites)
              && SubTable(s'.saves, s.saves) && SubTable(s'.ratings, s.ratings)
              && (forall k :: k in s.favorites.rows && s.favorites.rows[k].exerciseId != id ==> k in s'.favorites.rows)
              && (forall k :: k in s.saves.rows && s.saves.rows[k].exerciseId != id ==> k in s'.saves.rows)
              && (forall k :: k in s.ratings.rows && s.ratings.rows[k].exerciseId != id ==> k in s'.ratings.rows)
  {
    match Authorize(s.exercises, id, caller, Remove)
    case Err(e) => Err(e)
    case Ok(_) => Ok(RemoveExercise(s, id))
  }

  /** Loads with its favorites and saves, checks visibility, returns the narrow view. */
  function FindOne(s: Store, id: nat, caller: nat): (r: Result<ExerciseView>)
    ensures r == Err(NotFound) <==> id !in s.exercises.rows
    ensures r == Err(Forbidden(Read)) <==>
              id in s.exercises.rows && !s.exercises.rows[id].isPublic && s.exercises.rows[id].ownerId != caller
    ensures r.Ok? || r == Err(NotFound) || r == Err(Forbidden(Read))
    ensures r.Ok? ==>
              && id in s.exercises.rows
              && r.value.id == id
              && r.value.name == s.exercises.rows[id].name
              && r.value.description == s.exercises.rows[id].description
              && r.value.createdBy == s.exercises.rows[id].ownerId
              && r.value.favoriteCount == |LinksTo(s.favorites, id)|
              && r.value.saveCount == |LinksTo(s.saves, id)|
  {
    match Authorize(s.exercises, id, caller, Read)
    case Err(e) => Err(e)
    case Ok(e) => Ok(ExerciseView(id, e.name, e.description, FavoriteCount(s, id), SaveCount(s, id), e.ownerId))
  }

  // ---- properties ----

  /** A private exercise is open to its creator and closed to everyone else, for all three actions. */
  lemma PrivateExerciseOwnerOnly(s: Store, id: nat, patch: Patch, caller: nat)
    requires id in s.exercises.rows && !s.exercises.rows[id].isPublic
    ensures caller == s.exercises.rows[id].ownerId ==>
              && FindOne(s, id, caller).Ok?
              && DeleteExercise(s, id, caller).Ok?
              && Update(s, id, patch, caller) != Err(Forbidden(Modify))
    ensures caller != s.exercises.rows[id].ownerId ==>
              && FindOne(s, id, caller) == Err(Forbidden(Read))
              && DeleteExercise(s, id, caller) == Err(Forbidden(Remove))
              && Update(s, id, patch, caller) == Err(Forbidden(Modify))
  {
  }

  /** A public exercise can be read, changed and deleted by any caller. */
  lemma PublicExerciseOpenToAll(s: Store, id: nat, patch: Patch, caller: nat)
    requires id in s.exercises.rows && s.exercises.rows[id].isPublic
    ensures FindOne(s, id, caller).Ok?
    ensures DeleteExercise(s, id, caller).Ok?
    ensures Update(s, id, patch, caller).Ok? || Update(s, id, patch, caller) == Err(OutOfRange)
            || Update(s, id, patch, caller) == Err(UniqueViolation)
  {
  }

  /** No Favorite or Save row can point at an id the exercise sequence has not handed out yet. */
  lemma FreshIdUnreferenced(s: Store, id: nat)
    requires References(s) && WellNumbered(s.exercises)
    requires id !in s.exercises.rows
    ensures LinksTo(s.favorites, id) == {} && LinksTo(s.saves, id) == {}
    ensures RatingsTo(s.ratings, id) == {}
  {
    assert forall k :: k in s.favorites.rows ==> s.favorites.rows[k].exerciseId != id;
    assert forall k :: k in s.saves.rows ==> s.saves.rows[k].exerciseId != id;
    assert forall k :: k in s.ratings.rows ==> s.ratings.rows[k].exerciseId != id;
  }

  lemma CreateKeepsReferences(s: Store, input: NewExercise, caller: nat)
    requires References(s) && caller in s.users.rows
    requires Create(s, input, caller).Ok?
    ensures References(Create(s, input, caller).value.1)
  {
    var (row, s') := Create(s, input, caller).value;
    forall k | k in s'.exercises.rows
      ensures s'.exercises.rows[k].ownerId in s'.users.rows
    {
      if k != row.id {
        assert s'.exercises.rows[k] == s.exercises.rows[k];
      }
    }
    assert LinksResolve(s'.favorites, s');
    assert LinksResolve(s'.saves, s');
  }

  /** Creating keeps every store invariant, the unique name column included. */
  lemma CreatePreservesValid(s: Store, input: NewExercise, caller: nat)
    requires Valid(s) && caller in s.users.rows
    requires Create(s, input, caller).Ok?
    ensures Valid(Create(s, input, caller).value.1)
  {
    var (row, s') := Create(s, input, caller).value;
    CreateKeepsReferences(s, input, caller);
    assert forall k :: k in s.exercises.rows ==> k !in NameHolders(s.exercises, input.name);
    forall a, b | a in s'.exercises.rows && b in s'.exercises.rows
      && s'.exercises.rows[a].name == s'.exercises.rows[b].name
      ensures a == b
    {
      if a != row.id && b != row.id {
        assert s.exercises.rows[a].name == s.exercises.rows[b].name;
      }
    }
  }

  /** What create stored is what findOne shows, with no favorites or saves yet. */
  lemma CreateThenFindOne(s: Store, input: NewExercise, caller: nat)
    requires Valid(s)
    requires Create(s, input, caller).Ok?
    ensures var (row, s') := Create(s, input, caller).value;
            FindOne(s', row.id, caller) == Ok(ExerciseView(row.id, input.name, input.description, 0, 0, caller))
  {
    var (row, s') := Create(s, input, caller).value;
    FreshIdUnreferenced(s, row.id);
  }

  lemma UpdateKeepsReferences(s: Store, id: nat, patch: Patch, caller: nat)
    requires References(s)
    requires Update(s, id, patch, caller).Ok?
    ensures References(Update(s, id, patch, caller).value.1)
  {
    var (row, s') := Update(s, id, patch, caller).value;
    forall k | k in s'.exercises.rows
      ensures s'.exercises.rows[k].ownerId in s'.users.rows
    {
      assert s'.exercises.rows[k].ownerId == s.exercises.rows[k].ownerId;
    }
    assert LinksResolve(s'.favorites, s');
    assert LinksResolve(s'.saves, s');
  }

  /** Updating keeps every store invariant; the creator of every exercise stays put. */
  lemma UpdatePreservesValid(s: Store, id: nat, patch: Patch, caller: nat)
    requires Valid(s)
    requires Update(s, id, patch, caller).Ok?
    ensures var s' := Update(s, id, patch, caller).value.1;
            && Valid(s')
            && forall k :: k in s.exercises.rows ==> s'.exercises.rows[k].ownerId == s.exercises.rows[k].ownerId
  {
    var (row, s') := Update(s, id, patch, caller).value;
    UpdateKeepsReferences(s, id, patch, caller);
    assert Permits(s.exercises.rows[id], caller);
    assert NameHolders(s.exercises, row.exercise.name) - {id} == {};
    forall k | k in s.exercises.rows && k != id
      ensures s.exercises.rows[k].name != row.exercise.name
    {
      assert k !in NameHolders(s.exercises, row.exercise.name) - {id};
    }
    forall a, b | a in s'.exercises.rows && b in s'.exercises.rows
      && s'.exercises.rows[a].name == s'.exercises.rows[b].name
      ensures a == b
    {
      if a != id && b != id {
        assert s.exercises.rows[a].name == s.exercises.rows[b].name;
      }
    }
  }

  /** Deleting keeps every store invariant; afterwards the id is simply not found. */
  lemma DeletePreservesValid(s: Store, id: nat, caller: nat, anyone: nat)
    requires Valid(s)
    requires DeleteExercise(s, id, caller).Ok?
    ensures Valid(DeleteExercise(s, id, caller).value)
    ensures FindOne(DeleteExercise(s, id, caller).value, id, anyone) == Err(NotFound)
  {
    RemoveExercisePreservesValid(s, id);
  }

  /** The patched fields are what a later findOne shows; the counts do not move. */
  lemma UpdateThenFindOne(s: Store, id: nat, patch: Patch, caller: nat)
    requires Update(s, id, patch, caller).Ok?
    ensures var s' := Update(s, id, patch, caller).value.1;
            var e := s.exercises.rows[id];
            Permits(ApplyPatch(e, patch), caller) ==>
              FindOne(s', id, caller) == Ok(ExerciseView(
                id,
                match patch.name case Some(n) => n case None => e.name,
                match patch.description case Some(d) => d case None => e.description,
                FavoriteCount(s, id), SaveCount(s, id), e.ownerId))
  {
  }

  /** Applying a patch a second time changes nothing more. */
  lemma PatchIdempotent(e: Exercise, p: Patch)
    ensures ApplyPatch(ApplyPatch(e, p), p) == ApplyPatch(e, p)
  {
  }
}

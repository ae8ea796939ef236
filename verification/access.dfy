/** The visibility rule guarding view, modify and delete of an exercise. */
module Access {
  import opened Wrappers
  import opened Tables
  import opened Entities

  /**
   Public exercises are open to every caller, private ones to their creator
   only. No other state enters the decision, whatever the action.
   */
  predicate Permits(e: Exercise, caller: nat)
  {
    e.isPublic || e.ownerId == caller
  }

  /**
   Load-then-check shared by update, delete and findOne: a missing id is
   reported before the permission is looked at.
   */
  function Authorize(t: Table<Exercise>, id: nat, caller: nat, action: Action): (r: Result<Exercise>)
    ensures r == Err(NotFound) <==> id !in t.rows
    ensures r == Err(Forbidden(action)) <==>
              id in t.rows && !t.rows[id].isPublic && t.rows[id].ownerId != caller
    ensures r.Ok? || r == Err(NotFound) || r == Err(Forbidden(action))
    ensures r.Ok? ==> id in t.rows && r.value == t.rows[id]
  {
    if id !in t.rows then Err(NotFound)
    else if !Permits(t.rows[id], caller) then Err(Forbidden(action))
    else Ok(t.rows[id])
  }
}

/**
 A table of the relational store: rows keyed by a store-assigned serial id.
 `next` is the value the id sequence hands out next; ids are never reused.
 */
module Tables {
  import opened Wrappers

  datatype Table<T> = Table(rows: map<nat, T>, next: nat)

  /** A fresh table: serial columns start at 1. */
  function EmptyTable<T>(): Table<T>
  {
    Table(map[], 1)
  }

  /** Every stored id was handed out by the sequence, so `next` is fresh. */
  ghost predicate WellNumbered<T>(t: Table<T>)
  {
    forall k :: k in t.rows ==> k < t.next
  }

  /** Stores `row` under the next serial id and returns that id with the new table. */
  function Insert<T>(t: Table<T>, row: T): (r: (nat, Table<T>))
    ensures r.1.rows.Keys == t.rows.Keys + {r.0}
    ensures r.1.rows[r.0] == row
    ensures forall k :: k in t.rows && k != r.0 ==> r.1.rows[k] == t.rows[k]
    ensures WellNumbered(t) ==> r.0 !in t.rows && WellNumbered(r.1)
  {
    (t.next, Table(t.rows[t.next := row], t.next + 1))
  }

  /** Overwrites the row stored under an existing id. */
  function Put<T>(t: Table<T>, id: nat, row: T): (r: Table<T>)
    requires id in t.rows
    ensures r.rows.Keys == t.rows.Keys
    ensures r.rows[id] == row
    ensures forall k :: k in t.rows && k != id ==> r.rows[k] == t.rows[k]
    ensures WellNumbered(t) ==> WellNumbered(r)
  {
    Table(t.rows[id := row], t.next)
  }

  /** Deletes every row whose id is in `doomed`; the sequence is not rewound. */
  function Delete<T>(t: Table<T>, doomed: set<nat>): (r: Table<T>)
    ensures r.rows.Keys == t.rows.Keys - doomed
    ensures forall k :: k in r.rows ==> r.rows[k] == t.rows[k]
    ensures WellNumbered(t) ==> WellNumbered(r)
  {
    Table(t.rows - doomed, t.next)
  }

  lemma LeastExists(s: set<nat>)
    requires s != {}
    ensures exists m :: m in s && forall x :: x in s ==> m <= x
  {
    var y :| y in s;
    LeastBelow(s, y);
  }

  /** Descending from any member, a smallest member is reached. */
  lemma {:induction false} LeastBelow(s: set<nat>, y: nat)
    requires y in s
    ensures exists m :: m in s && m <= y && forall x :: x in s ==> m <= x
    decreases y
  {
    if z :| z in s && z < y {
      LeastBelow(s, z);
    } else {
      assert forall x :: x in s ==> y <= x;
    }
  }

  /** The smallest id of a non-empty set of ids. */
  function Least(s: set<nat>): (m: nat)
    requires s != {}
    ensures m in s
    ensures forall x :: x in s ==> m <= x
  {
    LeastExists(s);
    var m :| m in s && forall x :: x in s ==> m <= x;
    m
  }

  /**
   The row a `findOne` hands back when several rows match: the model takes the
   smallest id (the store promises no particular one).
   */
  function First(s: set<nat>): (r: Option<nat>)
    ensures r.None? <==> s == {}
    ensures r.Some? ==> r.value in s && forall x :: x in s ==> r.value <= x
  {
    if s == {} then None else Some(Least(s))
  }

  /** The ids of `s` in increasing order, each exactly once. */
  function Ascending(s: set<nat>): (r: seq<nat>)
    ensures forall i, j :: 0 <= i < j < |r| ==> r[i] < r[j]
    ensures forall k :: k in r <==> k in s
    ensures |r| == |s|
    decreases |s|
  {
    if s == {} then []
    else
      var m := Least(s);
      [m] + Ascending(s - {m})
  }
}

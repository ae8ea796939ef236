/**
 The exercise listing: which exercises a caller sees, the optional name,
 description and difficulty filters, and the optional sort.
 */
module Query {
  import opened Wrappers
  import opened Tables
  import opened Entities
  import opened Sorting

  /** The exercise columns a listing can be sorted by (timestamps are not modelled). */
  datatype SortField = ById | ByName | ByDescription | ByDifficulty | ByIsPublic | ByDuration

  /** The query-string parameters; any of them may be missing. */
  datatype Filters = Filters(
    name: Option<string>,
    description: Option<string>,
    difficulty: Option<int>,
    sortBy: Option<SortField>,
    order: Option<string>)

  /**
   A listed exercise: the row's own columns and its live Favorite and Save
   counts. The creator is not joined by the listing query, so it is not here.
   */
  datatype Listing = Listing(
    id: nat,
    name: string,
    description: string,
    difficulty: int,
    isPublic: bool,
    duration: Option<int>,
    favoriteCount: nat,
    saveCount: nat)

  // ---- text matching ----

  /** Lower-casing of the ASCII letters. */
  function LowerChar(c: char): char
  {
    if 'A' <= c <= 'Z' then (c as int + 32) as char else c
  }

  function Lower(s: string): (r: string)
    ensures |r| == |s|
    ensures forall i :: 0 <= i < |s| ==> r[i] == LowerChar(s[i])
  {
    if s == [] then [] else [LowerChar(s[0])] + Lower(s[1..])
  }

  predicate OccursAt(hay: string, needle: string, i: int)
  {
    0 <= i && i + |needle| <= |hay| && hay[i..i + |needle|] == needle
  }

  /** `needle` occurs in `hay` as a contiguous piece: LIKE '%needle%'. */
  predicate Contains(hay: string, needle: string)
  {
    exists i :: 0 <= i <= |hay| && OccursAt(hay, needle, i)
  }

  /** JavaScript truthiness of an optional text parameter: missing and "" are both false. */
  predicate TextGiven(o: Option<string>)
  {
    o.Some? && o.value != ""
  }

  /** Truthiness of an optional number: missing and 0 are both false. */
  predicate NumberGiven(o: Option<int>)
  {
    o.Some? && o.value != 0
  }

  /** The three optional filters, all required to hold. */
  predicate MatchesFilters(e: Exercise, f: Filters)
  {
    && (TextGiven(f.name) ==> Contains(Lower(e.name), Lower(f.name.value)))
    && (TextGiven(f.description) ==> Contains(Lower(e.description), Lower(f.description.value)))
    && (NumberGiven(f.difficulty) ==> e.difficulty == f.difficulty.value)
  }

  /**
   The WHERE clause the query builder emits: `isPublic OR createdBy = caller
   AND filter AND ...`. AND binds tighter than OR, so the filters narrow only
   the caller's own exercises and every public exercise passes unfiltered.
   */
  predicate Listed(e: Exercise, caller: nat, f: Filters)
  {
    e.isPublic || (e.ownerId == caller && MatchesFilters(e, f))
  }

  function ListedIds(s: Store, caller: nat, f: Filters): (r: set<nat>)
    ensures r <= s.exercises.rows.Keys
  {
    set k | k in s.exercises.rows && Listed(s.exercises.rows[k], caller, f)
  }

  /** Only the exact text "DESC" sorts descending; anything else sorts ascending. */
  predicate Descending(f: Filters)
  {
    f.order == Some("DESC")
  }

  // ---- ordering ----

  /** Lexicographic order of text by code point. */
  predicate TextLe(a: string, b: string)
    decreases |a|
  {
    if a == [] then true
    else if b == [] then false
    else if a[0] != b[0] then a[0] < b[0]
    else TextLe(a[1..], b[1..])
  }

  /** The store ranks NULL above every number: last ascending, first descending. */
  predicate NullsLastLe(a: Option<int>, b: Option<int>)
  {
    match (a, b)
    case (_, None) => true
    case (None, Some(_)) => false
    case (Some(x), Some(y)) => x <= y
  }

  predicate FieldLe(field: SortField, a: Listing, b: Listing)
  {
    match field
    case ById => a.id <= b.id
    case ByName => TextLe(a.name, b.name)
    case ByDescription => TextLe(a.description, b.description)
    case ByDifficulty => a.difficulty <= b.difficulty
    case ByIsPublic => !a.isPublic || b.isPublic
    case ByDuration => NullsLastLe(a.duration, b.duration)
  }

  /** `a` may come before `b` in the requested direction. */
  predicate InOrder(field: SortField, desc: bool, a: Listing, b: Listing)
  {
    if desc then FieldLe(field, b, a) else FieldLe(field, a, b)
  }

  ghost predicate SortedBy(field: SortField, desc: bool, xs: seq<Listing>)
  {
    forall i, j :: 0 <= i < j < |xs| ==> InOrder(field, desc, xs[i], xs[j])
  }

  lemma {:induction false} TextLeTotal(a: string, b: string)
    ensures TextLe(a, b) || TextLe(b, a)
    decreases |a|
  {
    if a != [] && b != [] && a[0] == b[0] {
      TextLeTotal(a[1..], b[1..]);
    }
  }

  lemma {:induction false} TextLeTransitive(a: string, b: string, c: string)
    requires TextLe(a, b) && TextLe(b, c)
    ensures TextLe(a, c)
    decreases |a|
  {
    if a != [] && b != [] && c != [] && a[0] == b[0] && b[0] == c[0] {
      TextLeTransitive(a[1..], b[1..], c[1..]);
    }
  }

  lemma InOrderTotal(field: SortField, desc: bool, a: Listing, b: Listing)
    ensures InOrder(field, desc, a, b) || InOrder(field, desc, b, a)
  {
    match field
    case ByName => TextLeTotal(a.name, b.name);
    case ByDescription => TextLeTotal(a.description, b.description);
    case _ =>
  }

  lemma InOrderTransitive(field: SortField, desc: bool, a: Listing, b: Listing, c: Listing)
    requires InOrder(field, desc, a, b) && InOrder(field, desc, b, c)
    ensures InOrder(field, desc, a, c)
  {
    match field
    case ByName =>
      if desc {
        TextLeTransitive(c.name, b.name, a.name);
      } else {
        TextLeTransitive(a.name, b.name, c.name);
      }
    case ByDescription =>
      if desc {
        TextLeTransitive(c.description, b.description, a.description);
      } else {
        TextLeTransitive(a.description, b.description, c.description);
      }
    case _ =>
  }

  /** The requested direction as an ordering the sort can use. */
  function Precedes(field: SortField, desc: bool): (Listing, Listing) -> bool
  {
    (a: Listing, b: Listing) => InOrder(field, desc, a, b)
  }

  lemma PrecedesIsPreorder(field: SortField, desc: bool)
    ensures Total(Precedes(field, desc)) && Transitive(Precedes(field, desc))
  {
    var le := Precedes(field, desc);
    forall a, b ensures le(a, b) || le(b, a) {
      InOrderTotal(field, desc, a, b);
    }
    forall a, b, c | le(a, b) && le(b, c) ensures le(a, c) {
      InOrderTransitive(field, desc, a, b, c);
    }
  }

  // ---- the listing ----

  /** The row as the listing shows it: the stored columns, without the creator, and its live counts. */
  function ListingOf(s: Store, id: nat): (x: Listing)
    requires id in s.exercises.rows
    ensures var e := s.exercises.rows[id];
            && x.id == id && x.name == e.name && x.description == e.description
            && x.difficulty == e.difficulty && x.isPublic == e.isPublic && x.duration == e.duration
    ensures x.favoriteCount == |LinksTo(s.favorites, id)| && x.saveCount == |LinksTo(s.saves, id)|
  {
    var e := s.exercises.rows[id];
    Listing(id, e.name, e.description, e.difficulty, e.isPublic, e.duration,
            FavoriteCount(s, id), SaveCount(s, id))
  }

  /** The listings of a set of exercise ids, in id order, each exactly once. */
  function Listings(s: Store, ids: set<nat>): (r: seq<Listing>)
    requires ids <= s.exercises.rows.Keys
    ensures forall x :: x in r ==> x.id in ids && x == ListingOf(s, x.id)
    ensures forall k :: k in ids ==> exists x :: x in r && x.id == k
    ensures |r| == |ids|
  {
    var order := Ascending(ids);
    assert forall i :: 0 <= i < |order| ==> order[i] in ids by {
      forall i | 0 <= i < |order| ensures order[i] in ids {
        assert order[i] in order;
      }
    }
    var r := ListingsOn(s, order);
    ListingsOnCover(s, order, ids);
    r
  }

  /** The listings of the given exercise ids, in the given order. */
  function ListingsOn(s: Store, order: seq<nat>): (r: seq<Listing>)
    requires forall i :: 0 <= i < |order| ==> order[i] in s.exercises.rows
    ensures |r| == |order|
    ensures forall i :: 0 <= i < |r| ==> r[i] == ListingOf(s, order[i])
  {
    seq(|order|, i requires 0 <= i < |order| => ListingOf(s, order[i]))
  }

  /** Listing an ordering of `ids` shows each id of `ids` and nothing else. */
  lemma ListingsOnCover(s: Store, order: seq<nat>, ids: set<nat>)
    requires forall i :: 0 <= i < |order| ==> order[i] in ids
    requires ids <= s.exercises.rows.Keys
    requires forall k :: k in ids ==> k in order
    ensures var r := ListingsOn(s, order);
            && (forall x :: x in r ==> x.id in ids && x == ListingOf(s, x.id))
            && (forall k :: k in ids ==> exists x :: x in r && x.id == k)
  {
    var r := ListingsOn(s, order);
    forall k | k in ids ensures exists x :: x in r && x.id == k {
      var i :| 0 <= i < |order| && order[i] == k;
      assert r[i] in r;
    }
  }

  /**
   findAll: every exercise the WHERE clause admits, exactly once, with its live
   counts; sorted on the requested column when `sortBy` is given.
   */
  function FindAll(s: Store, caller: nat, f: Filters): (r: seq<Listing>)
    ensures forall x :: x in r ==> x.id in ListedIds(s, caller, f) && x == ListingOf(s, x.id)
    ensures forall k :: k in ListedIds(s, caller, f) ==> exists x :: x in r && x.id == k
    ensures |r| == |ListedIds(s, caller, f)|
    ensures f.sortBy.Some? ==> SortedBy(f.sortBy.value, Descending(f), r)
  {
    var found := Listings(s, ListedIds(s, caller, f));
    match f.sortBy
    case None => found
    case Some(field) =>
      var le := Precedes(field, Descending(f));
      PrecedesIsPreorder(field, Descending(f));
      SortSorted(le, found);
      var sorted := Sort(le, found);
      SameElements(sorted, found);
      sorted
  }

  // ---- properties ----

  /** Nobody sees another user's private exercise. */
  lemma FindAllShowsOnlyVisible(s: Store, caller: nat, f: Filters)
    ensures forall x :: x in FindAll(s, caller, f) ==>
              x.id in s.exercises.rows && (x.isPublic || s.exercises.rows[x.id].ownerId == caller)
  {
  }

  /** Every public exercise is listed whatever the filters say. */
  lemma FindAllListsEveryPublic(s: Store, caller: nat, f: Filters, k: nat)
    requires k in s.exercises.rows && s.exercises.rows[k].isPublic
    ensures exists x :: x in FindAll(s, caller, f) && x.id == k
  {
    var r := FindAll(s, caller, f);
    assert k in ListedIds(s, caller, f);
    var x :| x in r && x.id == k;
  }

  /** The caller's own private exercises are listed exactly when they pass the filters. */
  lemma FindAllFiltersOwnPrivate(s: Store, caller: nat, f: Filters, k: nat)
    requires k in s.exercises.rows
    requires !s.exercises.rows[k].isPublic && s.exercises.rows[k].ownerId == caller
    ensures (exists x :: x in FindAll(s, caller, f) && x.id == k) <==> MatchesFilters(s.exercises.rows[k], f)
  {
    var r := FindAll(s, caller, f);
    if MatchesFilters(s.exercises.rows[k], f) {
      assert k in ListedIds(s, caller, f);
      var x :| x in r && x.id == k;
    }
    if exists x :: x in r && x.id == k {
      var x :| x in r && x.id == k;
      assert k in ListedIds(s, caller, f);
    }
  }

  /** Missing, empty and zero filters, and a missing order, all mean the same. */
  function Normalize(f: Filters): (g: Filters)
    ensures TextGiven(g.name) == TextGiven(f.name) && g.name.Some? == TextGiven(f.name)
    ensures TextGiven(g.description) == TextGiven(f.description) && g.description.Some? == TextGiven(f.description)
    ensures NumberGiven(g.difficulty) == NumberGiven(f.difficulty) && g.difficulty.Some? == NumberGiven(f.difficulty)
    ensures TextGiven(f.name) ==> g.name == f.name
    ensures TextGiven(f.description) ==> g.description == f.description
    ensures NumberGiven(f.difficulty) ==> g.difficulty == f.difficulty
    ensures g.sortBy == f.sortBy && Descending(g) == Descending(f)
    ensures Descending(f) ==> g.order == f.order
    ensures !Descending(f) ==> g.order == None
  {
    Filters(
      if TextGiven(f.name) then f.name else None,
      if TextGiven(f.description) then f.description else None,
      if NumberGiven(f.difficulty) then f.difficulty else None,
      f.sortBy,
      if Descending(f) then f.order else None)
  }

  /** A falsy filter is treated as absent: the listing is the same. */
  lemma FalsyFiltersIgnored(s: Store, caller: nat, f: Filters)
    ensures FindAll(s, caller, f) == FindAll(s, caller, Normalize(f))
  {
    var g := Normalize(f);
    assert forall e :: MatchesFilters(e, f) == MatchesFilters(e, g);
    assert ListedIds(s, caller, f) == ListedIds(s, caller, g);
  }

  lemma LowerSlice(s: string, i: int, j: int)
    requires 0 <= i <= j <= |s|
    ensures Lower(s)[i..j] == Lower(s[i..j])
  {
    assert forall k :: 0 <= k < j - i ==> Lower(s)[i..j][k] == Lower(s[i..j])[k];
  }

  /** The piece of `name` at `i` equals `needle` once both are lower-cased. */
  predicate PieceMatches(name: string, needle: string, i: int)
  {
    0 <= i && i + |needle| <= |name| && Lower(name[i..i + |needle|]) == Lower(needle)
  }

  lemma OccursAtLowered(text: string, needle: string, i: int)
    requires 0 <= i && i + |needle| <= |text|
    ensures OccursAt(Lower(text), Lower(needle), i) <==> PieceMatches(text, needle, i)
  {
    LowerSlice(text, i, i + |needle|);
  }

  /**
   The name and description filters are case-insensitive substring tests: one
   holds exactly when some piece of the text equals the filter text once both
   are lower-cased.
   */
  lemma FilterIsCaseInsensitiveSubstring(text: string, needle: string)
    ensures Contains(Lower(text), Lower(needle)) <==> exists i :: 0 <= i <= |text| && PieceMatches(text, needle, i)
  {
    if Contains(Lower(text), Lower(needle)) {
      var i :| 0 <= i <= |Lower(text)| && OccursAt(Lower(text), Lower(needle), i);
      OccursAtLowered(text, needle, i);
    }
    if exists i :: 0 <= i <= |text| && PieceMatches(text, needle, i) {
      var i :| 0 <= i <= |text| && PieceMatches(text, needle, i);
      OccursAtLowered(text, needle, i);
    }
  }

  /** Filter texts that differ only in letter case select the same exercises. */
  lemma FilterCaseIrrelevant(e: Exercise, f: Filters, a: string, b: string)
    requires Lower(a) == Lower(b)
    ensures MatchesFilters(e, f.(name := Some(a))) == MatchesFilters(e, f.(name := Some(b)))
    ensures MatchesFilters(e, f.(description := Some(a))) == MatchesFilters(e, f.(description := Some(b)))
  {
    assert |a| == |Lower(a)| == |Lower(b)| == |b|;
  }
}

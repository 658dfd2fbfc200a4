/**
  The list pipeline of the `PatientList` screen: the search filter, the
  name sort whose direction the user toggles, the favourite toggle, and the
  "No patients found" branch of the render.

  The screen's state (`searchQuery`, `isSortedAscending`, `patients`) becomes
  plain parameters. `toLowerCase` and `localeCompare` are the parameters
  `lower` and `cmp`; the lemmas about the sort assume only that `cmp` is a
  collation in the sense of `Text.IsCollation`.
*/
module PatientList {
  import Text
  import StableSort

  /** One row of the list. */
  datatype Patient = Patient(id: string, name: string, isFavorite: bool)

  /** The initial `patients` state. */
  const Data: seq<Patient> := [
    Patient("1", "Susan Bridget", true),
    Patient("2", "Elias Trent", false),
    Patient("3", "Mariana Solis", false),
    Patient("4", "Wellington Mapise", false),
    Patient("5", "Tatenda Gonese", false),
    Patient("6", "John Doe", false)
  ]

  /** No two rows share an `id`. */
  predicate UniqueIds(ps: seq<Patient>) {
    forall i, j :: 0 <= i < j < |ps| ==> ps[i].id != ps[j].id
  }

  /** The initial list has unique ids, so each star toggles exactly one row. */
  lemma DataIdsUnique()
    ensures UniqueIds(Data)
  {
  }

  // ---------------------------------------------------------------------------
  // Search filter

  /** The search test: the lower-cased name includes the lower-cased query. */
  predicate Matches(p: Patient, query: string, lower: string -> string) {
    Text.Contains(lower(p.name), lower(query))
  }

  /** `a` can be obtained from `b` by deleting elements, without reordering. */
  ghost predicate IsSubsequence<T>(a: seq<T>, b: seq<T>) {
    if |a| == 0 then true
    else if |b| == 0 then false
    else (a[0] == b[0] && IsSubsequence(a[1..], b[1..])) || IsSubsequence(a, b[1..])
  }

  /**
    `patients.filter(...)`: the rows that match, in list order. Every row that
    matches is kept as often as it occurs, and no other row is.
  */
  function SearchFilter(ps: seq<Patient>, query: string, lower: string -> string): (r: seq<Patient>)
    ensures forall p :: multiset(r)[p] == (if Matches(p, query, lower) then multiset(ps)[p] else 0)
    ensures IsSubsequence(r, ps)
  {
    if |ps| == 0 then []
    else
      var rest := SearchFilter(ps[1..], query, lower);
      assert ps == [ps[0]] + ps[1..];
      if Matches(ps[0], query, lower) then [ps[0]] + rest else rest
  }

  /** The filter is sound and complete: a row is shown exactly when it is in the list and matches. */
  lemma SearchFilterMembership(ps: seq<Patient>, query: string, lower: string -> string, p: Patient)
    ensures p in SearchFilter(ps, query, lower) <==> p in ps && Matches(p, query, lower)
  {
    assert p in SearchFilter(ps, query, lower) <==> p in multiset(SearchFilter(ps, query, lower));
    assert p in ps <==> p in multiset(ps);
  }

  /** With the initial empty query every row is shown, in list order. */
  lemma {:induction false} EmptyQueryKeepsAll(ps: seq<Patient>, lower: string -> string)
    requires lower("") == ""
    ensures SearchFilter(ps, "", lower) == ps
  {
    if |ps| > 0 {
      Text.ContainsEmpty(lower(ps[0].name));
      EmptyQueryKeepsAll(ps[1..], lower);
      assert ps == [ps[0]] + ps[1..];
    }
  }

  // ---------------------------------------------------------------------------
  // Sort by name

  /**
    The sort comparator, read as "a may stay ahead of b": ascending compares
    `a.name` with `b.name`, descending compares `b.name` with `a.name`.
  */
  predicate NameBefore(cmp: (string, string) -> int, ascending: bool, a: Patient, b: Patient) {
    if ascending then cmp(a.name, b.name) <= 0 else cmp(b.name, a.name) <= 0
  }

  function Comparator(cmp: (string, string) -> int, ascending: bool): (Patient, Patient) -> bool {
    (a: Patient, b: Patient) => NameBefore(cmp, ascending, a, b)
  }

  /** `filteredData.sort(...)`: a stable sort of the rows by name in the chosen direction. */
  function SortByName(ps: seq<Patient>, ascending: bool, cmp: (string, string) -> int): (r: seq<Patient>)
    ensures multiset(r) == multiset(ps)
  {
    StableSort.InsertionSort(ps, Comparator(cmp, ascending))
  }

  /** A collation gives a consistent comparator in both directions. */
  lemma ComparatorIsPreorder(cmp: (string, string) -> int, ascending: bool)
    requires Text.IsCollation(cmp)
    ensures StableSort.TotalPreorder(Comparator(cmp, ascending))
  {
    var before := Comparator(cmp, ascending);
    forall a, b ensures before(a, b) || before(b, a) {
      assert cmp(a.name, b.name) <= 0 || cmp(b.name, a.name) <= 0;
    }
    forall a, b, c | before(a, b) && before(b, c) ensures before(a, c) {
      if ascending {
        assert cmp(a.name, b.name) <= 0 && cmp(b.name, c.name) <= 0;
      } else {
        assert cmp(c.name, b.name) <= 0 && cmp(b.name, a.name) <= 0;
      }
    }
  }

  /** Adjacent rows of the sorted list are in the chosen direction. */
  lemma SortByNameOrdered(ps: seq<Patient>, ascending: bool, cmp: (string, string) -> int)
    requires Text.IsCollation(cmp)
    ensures var r := SortByName(ps, ascending, cmp);
      ascending ==> forall i :: 0 <= i < |r| - 1 ==> cmp(r[i].name, r[i + 1].name) <= 0
    ensures var r := SortByName(ps, ascending, cmp);
      !ascending ==> forall i :: 0 <= i < |r| - 1 ==> cmp(r[i + 1].name, r[i].name) <= 0
  {
    var before := Comparator(cmp, ascending);
    ComparatorIsPreorder(cmp, ascending);
    StableSort.InsertionSortSorted(ps, before);
    var r := SortByName(ps, ascending, cmp);
    forall i | 0 <= i < |r| - 1 ensures before(r[i], r[i + 1]) {
    }
  }

  /**
    The sorted list is a stable sort of its input, and the only one: rows whose
    names compare equal keep their relative order, so the result is the same
    whichever stable sort algorithm the platform uses.
  */
  lemma SortByNameIsTheStableSort(ps: seq<Patient>, ascending: bool, cmp: (string, string) -> int, r: seq<Patient>)
    requires Text.IsCollation(cmp)
    ensures StableSort.IsStableSortOf(r, ps, Comparator(cmp, ascending)) <==> r == SortByName(ps, ascending, cmp)
  {
    ComparatorIsPreorder(cmp, ascending);
    StableSort.StableSortUnique(r, ps, Comparator(cmp, ascending));
  }

  // ---------------------------------------------------------------------------
  // What the screen shows

  /** `sortedData`: the matching rows sorted by name. */
  function VisiblePatients(ps: seq<Patient>, query: string, ascending: bool,
                           lower: string -> string, cmp: (string, string) -> int): (r: seq<Patient>)
    ensures forall p :: multiset(r)[p] == (if Matches(p, query, lower) then multiset(ps)[p] else 0)
  {
    SortByName(SearchFilter(ps, query, lower), ascending, cmp)
  }

  /** The render branch: "No patients found" replaces the list when `sortedData` is empty. */
  predicate ShowsNotFound(ps: seq<Patient>, query: string, ascending: bool,
                          lower: string -> string, cmp: (string, string) -> int) {
    |VisiblePatients(ps, query, ascending, lower, cmp)| == 0
  }

  /** "No patients found" is shown exactly when no name matches the query. */
  lemma NotFoundIffNoMatch(ps: seq<Patient>, query: string, ascending: bool,
                           lower: string -> string, cmp: (string, string) -> int)
    ensures ShowsNotFound(ps, query, ascending, lower, cmp)
        <==> forall p :: p in ps ==> !Matches(p, query, lower)
  {
    var r := VisiblePatients(ps, query, ascending, lower, cmp);
    if |r| == 0 {
      forall p | p in ps ensures !Matches(p, query, lower) {
        assert multiset(r)[p] == 0;
        assert p in multiset(ps);
      }
    } else {
      assert r[0] in multiset(r);
      assert r[0] in ps;
    }
  }

  /**
    With ASCII case folding and code-point comparison, searching "ali" among
    Bob, alice and Alice shows the two Alices, upper case first.
  */
  lemma SearchAliExample()
    ensures var ps := [Patient("1", "Bob", false), Patient("2", "alice", false), Patient("3", "Alice", false)];
      VisiblePatients(ps, "ali", true, Text.AsciiLower, Text.LexCompare)
        == [Patient("3", "Alice", false), Patient("2", "alice", false)]
  {
    var bob, alice, capital := Patient("1", "Bob", false), Patient("2", "alice", false), Patient("3", "Alice", false);
    var ps := [bob, alice, capital];
    var before := Comparator(Text.LexCompare, true);
    AliFilterExample(bob, alice, capital);
    assert SearchFilter(ps, "ali", Text.AsciiLower) == [alice, capital];
    assert Text.LexCompare("alice", "Alice") == 1;
    assert !before(alice, capital);
    assert StableSort.InsertionSort([capital], before) == [capital];
    assert StableSort.Insert(alice, [capital], before) == [capital, alice];
  }

  /**
    With a case-insensitive comparison "alice" and "Alice" tie, so the stable
    sort keeps them in filtered order: alice, then Alice.
  */
  lemma SearchAliFoldedExample()
    ensures var ps := [Patient("1", "Bob", false), Patient("2", "alice", false), Patient("3", "Alice", false)];
      VisiblePatients(ps, "ali", true, Text.AsciiLower, Text.FoldedCompare)
        == [Patient("2", "alice", false), Patient("3", "Alice", false)]
  {
    var bob, alice, capital := Patient("1", "Bob", false), Patient("2", "alice", false), Patient("3", "Alice", false);
    var ps := [bob, alice, capital];
    var before := Comparator(Text.FoldedCompare, true);
    AliFilterExample(bob, alice, capital);
    assert SearchFilter(ps, "ali", Text.AsciiLower) == [alice, capital];
    assert Text.AsciiLower("alice") == Text.AsciiLower("Alice");
    assert Text.FoldedCompare("alice", "Alice") == 0;
    assert before(alice, capital);
    assert StableSort.InsertionSort([capital], before) == [capital];
    assert StableSort.Insert(alice, [capital], before) == [alice, capital];
  }

  lemma AliFilterExample(bob: Patient, alice: Patient, capital: Patient)
    requires bob == Patient("1", "Bob", false) && alice == Patient("2", "alice", false) && capital == Patient("3", "Alice", false)
    ensures SearchFilter([bob, alice, capital], "ali", Text.AsciiLower) == [alice, capital]
  {
    assert Text.AsciiLower("ali") == "ali";
    assert Text.AsciiLower("Bob") == "bob";
    assert Text.AsciiLower("alice") == "alice";
    assert Text.AsciiLower("Alice") == "alice";
    assert Text.IsPrefix("ali", "alice");
    assert "bob"[1..] == "ob";
    Text.ContainsNoLonger("ob", "ali");
    assert "bob"[..3][0] == 'b' && "ali"[0] == 'a';
    assert !Text.Contains("bob", "ali");
    assert !Matches(bob, "ali", Text.AsciiLower);
    assert Matches(alice, "ali", Text.AsciiLower);
    assert Matches(capital, "ali", Text.AsciiLower);
    assert [bob, alice, capital][1..] == [alice, capital];
    assert [alice, capital][1..] == [capital];
    assert [capital][1..] == [];
    assert SearchFilter([capital], "ali", Text.AsciiLower) == [capital];
    assert SearchFilter([alice, capital], "ali", Text.AsciiLower) == [alice, capital];
  }

  // ---------------------------------------------------------------------------
  // Favourite toggle

  /** One row after the star on row `id` was pressed. */
  function Toggled(p: Patient, id: string): Patient {
    if p.id == id then p.(isFavorite := !p.isFavorite) else p
  }

  /**
    `toggleFavorite(id)`: every row keeps its place, `id` and `name`; the star
    flips on exactly the rows whose `id` is `id`.
  */
  function ToggleFavorite(ps: seq<Patient>, id: string): (r: seq<Patient>)
    ensures |r| == |ps|
    ensures forall i :: 0 <= i < |ps| ==> r[i].id == ps[i].id && r[i].name == ps[i].name
    ensures forall i :: 0 <= i < |ps| ==> (r[i].isFavorite != ps[i].isFavorite <==> ps[i].id == id)
  {
    seq(|ps|, i requires 0 <= i < |ps| => Toggled(ps[i], id))
  }

  /** Pressing the same star twice restores the list. */
  lemma ToggleTwiceRestores(ps: seq<Patient>, id: string)
    ensures ToggleFavorite(ToggleFavorite(ps, id), id) == ps
  {
  }

  /** Toggling an id that no row has changes nothing. */
  lemma ToggleAbsentUnchanged(ps: seq<Patient>, id: string)
    requires forall i :: 0 <= i < |ps| ==> ps[i].id != id
    ensures ToggleFavorite(ps, id) == ps
  {
  }

  /** With unique ids, toggling the id of row `k` changes row `k` and no other. */
  lemma ToggleChangesOneRow(ps: seq<Patient>, id: string, k: int)
    requires UniqueIds(ps)
    requires 0 <= k < |ps| && ps[k].id == id
    ensures ToggleFavorite(ps, id)[k] == ps[k].(isFavorite := !ps[k].isFavorite)
    ensures forall j :: 0 <= j < |ps| && j != k ==> ToggleFavorite(ps, id)[j] == ps[j]
  {
  }

  /** Toggling keeps ids unique, so every later press also changes exactly one row. */
  lemma TogglePreservesUnique(ps: seq<Patient>, id: string)
    requires UniqueIds(ps)
    ensures UniqueIds(ToggleFavorite(ps, id))
  {
  }

  lemma ToggleCons(p: Patient, ps: seq<Patient>, id: string)
    ensures ToggleFavorite([p] + ps, id) == [Toggled(p, id)] + ToggleFavorite(ps, id)
  {
  }

  /** Toggling a star does not change which rows match the search. */
  lemma {:induction false} SearchFilterToggle(ps: seq<Patient>, query: string, lower: string -> string, id: string)
    ensures SearchFilter(ToggleFavorite(ps, id), query, lower) == ToggleFavorite(SearchFilter(ps, query, lower), id)
  {
    if |ps| > 0 {
      SearchFilterToggle(ps[1..], query, lower, id);
      ToggleCons(ps[0], ps[1..], id);
      assert ps == [ps[0]] + ps[1..];
      var t := ToggleFavorite(ps, id);
      assert t[1..] == ToggleFavorite(ps[1..], id);
      if Matches(ps[0], query, lower) {
        ToggleCons(ps[0], SearchFilter(ps[1..], query, lower), id);
      }
    }
  }

  lemma {:induction false} InsertToggle(x: Patient, s: seq<Patient>, ascending: bool, cmp: (string, string) -> int, id: string)
    ensures StableSort.Insert(Toggled(x, id), ToggleFavorite(s, id), Comparator(cmp, ascending))
         == ToggleFavorite(StableSort.Insert(x, s, Comparator(cmp, ascending)), id)
    decreases |s|
  {
    var before := Comparator(cmp, ascending);
    var ts := ToggleFavorite(s, id);
    if |s| == 0 {
      assert ToggleFavorite([x], id) == [Toggled(x, id)];
    } else if before(x, s[0]) {
      assert before(Toggled(x, id), ts[0]);
      ToggleCons(x, s, id);
    } else {
      assert !before(Toggled(x, id), ts[0]);
      assert ts[1..] == ToggleFavorite(s[1..], id);
      InsertToggle(x, s[1..], ascending, cmp, id);
      ToggleCons(s[0], StableSort.Insert(x, s[1..], before), id);
    }
  }

  /** Toggling a star does not move any row of the sorted list. */
  lemma {:induction false} SortByNameToggle(ps: seq<Patient>, ascending: bool, cmp: (string, string) -> int, id: string)
    ensures SortByName(ToggleFavorite(ps, id), ascending, cmp) == ToggleFavorite(SortByName(ps, ascending, cmp), id)
    decreases |ps|
  {
    if |ps| > 0 {
      var t := ToggleFavorite(ps, id);
      assert t[1..] == ToggleFavorite(ps[1..], id);
      SortByNameToggle(ps[1..], ascending, cmp, id);
      InsertToggle(ps[0], SortByName(ps[1..], ascending, cmp), ascending, cmp, id);
    }
  }

  /**
    After `toggleFavorite(id)` the screen shows the same rows in the same
    order, with only the star of row `id` flipped.
  */
  lemma VisibleAfterToggle(ps: seq<Patient>, query: string, ascending: bool,
                           lower: string -> string, cmp: (string, string) -> int, id: string)
    ensures VisiblePatients(ToggleFavorite(ps, id), query, ascending, lower, cmp)
         == ToggleFavorite(VisiblePatients(ps, query, ascending, lower, cmp), id)
  {
    SearchFilterToggle(ps, query, lower, id);
    SortByNameToggle(SearchFilter(ps, query, lower), ascending, cmp, id);
  }
}

# Patient list pipeline — a Dafny model

This project models the list logic of the `PatientList` screen of the Influx
medical-device monitoring app. The screen keeps three pieces of state: the
search query, the sort direction and the list of patients. From them it
computes the rows it shows, in three steps:

- **search filter**: keep the patients whose lower-cased name includes the
  lower-cased query;
- **sort**: sort the filtered rows by name with `localeCompare`, ascending or
  descending according to the sort toggle;
- **favourite toggle**: pressing a row's star flips `isFavorite` on the
  patient with that `id`.

The render shows "No patients found" instead of the list when no rows are
left.

The model is purely functional. A patient is the record
`Patient(id, name, isFavorite)`. The screen state becomes plain parameters,
and each step is a function over `seq<Patient>`. The library calls
`toLowerCase` and `localeCompare` become the parameters `lower` and `cmp`. The
sort lemmas assume only that `cmp` is a *collation* (`Text.IsCollation`):
swapping its arguments flips the sign, and `cmp(a, b) <= 0` is total and
transitive. `Text.CollationIsConsistent` shows that this is a comparator
consistent in ECMAScript's sense. As concrete choices, `Text` provides ASCII
lower-casing, code-point lexicographic comparison and a case-insensitive
variant of it, and proves both comparisons are collations.

Modules:

- `Text` (`text.dfy`): `includes` as `Contains`, proved equal to
  "occurs at some offset"; the ASCII and code-point instances.
- `StableSort` (`stable_sort.dfy`): a generic stable insertion sort driven by
  a comparator. It is proved to return a permutation that is ordered and keeps
  tied elements in input order. A sequence with those properties is proved to
  be unique. So, for a comparator consistent in ECMAScript's sense, the model
  returns exactly what any stable sort with the same comparator returns,
  including `Array.prototype.sort`, which ECMAScript 2019 requires to be stable.
- `PatientList` (`patient_list.dfy`): the initial data, the filter, the sort,
  the visible list, the "not found" branch and the favourite toggle.

## Model

| member | source | states |
|---|---|---|
| `Text.ContainsIffOccurs` | src/components/PatientList.tsx:32 | `includes` holds exactly when the query occurs in the name at some offset |
| `Text.ContainsNoLonger` | src/components/PatientList.tsx:32 | a name can only include a query no longer than itself |
| `Text.ContainsEmpty` | src/components/PatientList.tsx:27-33 | every string includes the empty string, which is the initial query |
| `Text.AsciiLowerIdempotent` | src/components/PatientList.tsx:32 | ASCII lower-casing leaves no upper-case letter and is idempotent |
| `Text.LexCompare` | src/components/PatientList.tsx:36 | the code-point comparison returns -1, 0 or 1, and 0 exactly for equal strings |
| `Text.CollationIsConsistent` | src/components/PatientList.tsx:36 | a collation compares every string equal to itself, and both "equal" and "strictly before" are transitive, as ECMAScript requires of a sort comparator |
| `Text.LexCompareIsCollation` | src/components/PatientList.tsx:36 | code-point comparison flips sign when its arguments swap and is total and transitive, so it can stand in for `localeCompare` |
| `Text.FoldedCompareIsCollation` | src/components/PatientList.tsx:36 | case-insensitive code-point comparison is a collation too |
| `StableSort.InsertionSort` | src/components/PatientList.tsx:35-37 | the sort returns a permutation of its input, with the same length and the same multiset of elements |
| `StableSort.InsertionSortSorted` | src/components/PatientList.tsx:35-37 | with a consistent comparator, every earlier element may stay ahead of every later one |
| `StableSort.InsertionSortKeepsTieOrder` | src/components/PatientList.tsx:35-37 | elements the comparator ties appear in the output in their input order |
| `StableSort.StableSortUnique` | src/components/PatientList.tsx:35-37 | a sequence is an ordered, tie-order-preserving permutation of the input exactly when it equals the insertion sort's result |
| `PatientList.DataIdsUnique` | src/components/PatientList.tsx:15-22 | the six initial patients have pairwise distinct ids |
| `PatientList.SearchFilter` | src/components/PatientList.tsx:31-33 | each matching patient is kept as often as it occurs, no other patient is kept, and the result is a subsequence of the list |
| `PatientList.SearchFilterMembership` | src/components/PatientList.tsx:31-33 | a patient is shown exactly when it is in the list and its lower-cased name includes the lower-cased query |
| `PatientList.EmptyQueryKeepsAll` | src/components/PatientList.tsx:27-33 | with the empty query every patient is kept, in list order |
| `PatientList.SortByName` | src/components/PatientList.tsx:35-37 | sorting by name keeps exactly the filtered patients, as a multiset |
| `PatientList.ComparatorIsPreorder` | src/components/PatientList.tsx:35-37 | the name comparator, in either direction, is a total preorder whenever the collation is |
| `PatientList.SortByNameOrdered` | src/components/PatientList.tsx:35-37 | ascending: each adjacent pair has `cmp(a.name, b.name) <= 0`; descending: `cmp(b.name, a.name) <= 0` |
| `PatientList.SortByNameIsTheStableSort` | src/components/PatientList.tsx:35-37 | a list is a stable sort by name of the filtered rows exactly when it is the modelled result, so names that compare equal keep their filtered order |
| `PatientList.VisiblePatients` | src/components/PatientList.tsx:31-37 | the shown rows hold each matching patient as often as the list does, and nothing else |
| `PatientList.NotFoundIffNoMatch` | src/components/PatientList.tsx:101-112 | "No patients found" is rendered exactly when no patient's name matches the query |
| `PatientList.SearchAliExample` | src/components/PatientList.tsx:31-37 | with ASCII folding and code-point order, searching "ali" among Bob, alice and Alice shows Alice then alice |
| `PatientList.SearchAliFoldedExample` | src/components/PatientList.tsx:31-37 | with a case-insensitive comparison, alice and Alice tie and stay in filtered order: alice then Alice |
| `PatientList.ToggleFavorite` | src/components/PatientList.tsx:39-44 | the length, each row's position, `id` and `name` are kept; `isFavorite` flips exactly on the rows whose `id` matches |
| `PatientList.ToggleTwiceRestores` | src/components/PatientList.tsx:39-44 | toggling the same id twice restores the list |
| `PatientList.ToggleAbsentUnchanged` | src/components/PatientList.tsx:39-44 | toggling an id that no patient has leaves the list unchanged |
| `PatientList.ToggleChangesOneRow` | src/components/PatientList.tsx:39-44 | with unique ids, toggling row k's id flips row k's star and leaves every other row equal |
| `PatientList.TogglePreservesUnique` | src/components/PatientList.tsx:39-44 | toggling keeps ids unique, so each later press also changes exactly one row |
| `PatientList.SearchFilterToggle` | src/components/PatientList.tsx:31-44 | toggling a star does not change which rows pass the search |
| `PatientList.SortByNameToggle` | src/components/PatientList.tsx:35-44 | toggling a star does not move any row of the sorted list |
| `PatientList.VisibleAfterToggle` | src/components/PatientList.tsx:29-44 | after a toggle, the screen shows the same rows in the same order, with only that row's star flipped |

## Left out

- Rendering (lines 46-224 of src/components/PatientList.tsx): `FlatList`, images, icons and styles. They have no behaviour to state beyond the empty-list branch, which is modelled.
- React `useState` and re-rendering: the state is passed in and returned explicitly. The "No patients found" branch is a predicate on the computed rows.
- `toLowerCase` applies Unicode's default case mapping. Its tables are foreign data that do not depend on the locale but may change a string's length. `localeCompare` uses the locale's collation tables. Both are parameters here. The ASCII and code-point instances are admissible choices, not models of those tables.
- Strings are `seq<char>`, which holds Unicode scalar values, while JavaScript strings are sequences of UTF-16 code units. `includes` gives the same answer on well-formed strings, but a name holding a lone surrogate cannot be represented.
- `StableSort.InsertionSort`: for a comparator that is not consistent in ECMAScript's sense, ECMAScript leaves the sort order implementation-defined. The model still returns a permutation, but its order is only proved for a consistent comparator.
- `PatientList.SortByName`: its own contract states only the permutation. The ordering and stability are stated by `SortByNameOrdered` and `SortByNameIsTheStableSort`, under the collation assumption.
- `sort` works in place on the fresh array that `filter` returns, so `patients` is never modified. In a pure model that holds by construction, so there is no separate lemma for it.
- src/messages-api/server.js is an HTTP mock returning a fixed array. It is network plumbing with no logic.
- The patient details, messaging and doctor/patient index screens are outside this model. This covers dosage projection, age display, message validation and data-store fetches.
- The list is sorted with `localeCompare`, so the comparison is a parameter. The list screen's records carry only `id`, `name` and `isFavorite`, so only those are modelled.

# client-sort in Dafny

This is a functional model of the multi-criteria client sorter in client-sort, together with proofs about it. It covers three parts:

- **The comparator** (`makeComparator`). It walks the sort criteria in priority order. Absent values sort first ascending and last descending. Fields whose lower-cased name contains `at` compare as parsed instants; an unparseable instant ties with every present value. Other fields compare as lower-cased text.
- **The URL codec** (`serializeCriteria`, `parseCriteriaParam`). Criteria are written as comma-joined `field.direction` tokens and read back with fresh ids.
- **The pure state transitions of the client list screen**: adding, removing and re-directing criteria, clearing them, choosing the URL or the stored criteria on load, putting a new client on top, validating the add-client form, and deriving the displayed rows.

Modules:

| module | file | contents |
|---|---|---|
| `Wrappers` | wrappers.dfy | `Option` |
| `Text` | text.dfy | ASCII lower-casing, trimming, splitting/joining, code-point string order, decimal rendering |
| `Records` | records.dfy | `Client` as a field lookup, `Direction`, `Criterion` |
| `Comparator` | comparator.dfy | `makeComparator` and its algebra |
| `Codec` | codec.dfy | `serializeCriteria`, `parseCriteriaParam`, the round trip |
| `StableSort` | stable_sort.dfy | a stable insertion sort standing in for `Array.prototype.sort` |
| `ClientList` | client_list.dfy | the component's criteria, client and form operations |
| `Fixtures` | fixtures.dfy | the test file's examples and a few further concrete cases, stated as lemmas |

Some effects are parameters rather than part of the model:

- `new Date(x).getTime()` is a parameter `parse: string -> Option<int>`, where `None` stands for NaN.
- `Date.now()` is a parameter: `now: nat` for the single call in `addCriterionForField` and `handleSubmit`, and `clock: nat -> nat` in parsing, where `clock(idx)` is the value read while segment `idx` is mapped.
- The results of `URLSearchParams.get("sort")` and of reading the stored criteria back from `localStorage` are `Option` inputs.

## Model

| member | source | states |
|---|---|---|
| Records.Get | src/utils/sortUtils.ts:26-27 | a field lookup yields a value exactly when the client has that field; a well-formed client has none outside the six declared names |
| Records.NewClient | src/utils/sortUtils.ts:2-9 | a client built from the six values has all six fields and returns each value under its own name |
| Comparator.FieldKinds | src/utils/sortUtils.ts:34 | `createdAt`, `updatedAt` and also `status` count as date-like; `name`, `email` and `id` do not |
| Comparator.CompareOn | src/utils/sortUtils.ts:25-43 | one criterion's verdict is always -1, 0 or 1 |
| Comparator.Compare | src/utils/sortUtils.ts:21-47 | the result is -1, 0 or 1; it is 0 for an empty criteria list; it is 0 exactly when every criterion ties |
| Comparator.FirstDifferenceDecides | src/utils/sortUtils.ts:24-45 | the first criterion that does not tie decides the result |
| Comparator.TiesFallThrough | src/utils/sortUtils.ts:44-46 | a prefix of tied criteria can be dropped without changing the result |
| Comparator.CompareReflexive | src/utils/sortUtils.ts:30-46 | a client compares equal to itself |
| Comparator.NaturalAntisymmetric | src/utils/sortUtils.ts:30-43 | swapping the two values negates one field's ascending verdict, NaN included |
| Comparator.CompareAntisymmetric | src/utils/sortUtils.ts:21-47 | swapping the two clients negates the result |
| Comparator.FlipNegates | src/utils/sortUtils.ts:31-43 | reversing every direction negates the result for every pair |
| Comparator.AbsentSortsFirst | src/utils/sortUtils.ts:30-32 | when the deciding criterion's value is absent on one side only, that side comes first under asc and last under desc |
| Comparator.WithoutField | src/utils/sortUtils.ts:24 | every entry on the given field is gone, every other entry keeps its multiplicity, and the survivors keep their relative order |
| Comparator.TiedFieldIrrelevant | src/utils/sortUtils.ts:30-44 | criteria on a field that ties can be deleted from the list without changing the result |
| Comparator.BothAbsentTies | src/utils/sortUtils.ts:26-30 | a criterion whose field both clients lack ties |
| Comparator.UnknownFieldNeverDecides | src/utils/sortUtils.ts:26-30 | a criterion on a name no client has is absent on both sides, so it never changes the result |
| Comparator.InstantOrder | src/utils/sortUtils.ts:34-43 | date-like fields with parseable values order by instant, respecting the direction, and tie on equal instants |
| Comparator.UnparsedInstantTies | src/utils/sortUtils.ts:35-44 | on a date-like field, NaN on either side ties |
| Comparator.StatusNeverDecides | src/utils/sortUtils.ts:34-44 | a criterion on `status` whose values do not parse as dates can be deleted without changing any result |
| Comparator.TextOrder | src/utils/sortUtils.ts:37-43 | other fields tie exactly when their lower-cased values are equal; asc yields -1 exactly when the lower-cased value is smaller |
| Comparator.NaturalTransitive | src/utils/sortUtils.ts:30-43 | one field's ascending verdict is transitive when every value present parses |
| Comparator.CompareOnTransitive | src/utils/sortUtils.ts:25-43 | one criterion's verdict is transitive when the instants parse |
| Comparator.CompareTransitive | src/utils/sortUtils.ts:21-47 | the whole comparator is transitive (a total preorder) when every date-like value of the three clients parses |
| Comparator.NaNBreaksTransitivity | src/utils/sortUtils.ts:35-44 | when a middle value does not parse, a ties with the NaN client, which ties with c, while a > c |
| Codec.Serialize | src/utils/sortUtils.ts:54-57 | empty exactly for an empty list; otherwise splitting on `,` gives back the tokens when no field holds a comma |
| Codec.SerializeIgnoresIds | src/utils/sortUtils.ts:56 | lists with the same fields and directions serialize identically |
| Codec.NonEmptyTrimmed | src/utils/sortUtils.ts:65 | the kept pieces are all non-empty and trimmed, and there are no more of them than pieces |
| Codec.Positions | src/utils/sortUtils.ts:65 | the positions listed are exactly those whose element passes the filter, in increasing order |
| Codec.KeptIndices | src/utils/sortUtils.ts:65 | the positions listed are exactly those of the pieces that do not trim to nothing, in increasing order |
| Codec.NonEmptyTrimmedIndexed | src/utils/sortUtils.ts:65 | the i-th kept segment is the trimmed piece at the i-th non-blank position: every non-blank piece is kept, trimmed, in order, and nothing else is |
| Codec.NonEmptyTrimmedChars | src/utils/sortUtils.ts:65 | every character of a kept segment occurs in one of the pieces |
| Codec.EmptyPiecesDropped | src/utils/sortUtils.ts:65 | a list of empty pieces yields no segments |
| Codec.NonEmptyTrimmedKeeps | src/utils/sortUtils.ts:65 | pieces that are already non-empty and trimmed pass through unchanged |
| Codec.Segments | src/utils/sortUtils.ts:65 | the segments are the trimmed comma pieces at the non-blank positions, in order; each is non-empty, trimmed and comma-free |
| Codec.ParseSegmentSpec | src/utils/sortUtils.ts:67-72 | the field is the text before the first `.`; the direction is desc exactly when the text after it, up to the next `.`, is `desc`; the id is `field_t_idx` for the timestamp `t` read for it |
| Codec.Parse | src/utils/sortUtils.ts:63-75 | `""` gives `[]`; one criterion per kept segment, each with that segment's field and direction and the id `field_clock(idx)_idx`; ids are pairwise distinct even when the clock repeats |
| Codec.ParseAll | src/utils/sortUtils.ts:66-73 | each segment becomes a criterion with its field, direction and positional id; ids are pairwise distinct |
| Codec.EmptyParamNoSegments | src/utils/sortUtils.ts:64-65 | the empty parameter has no segments, so the early return agrees with the general path |
| Codec.ParseAt | src/utils/sortUtils.ts:66-73 | the criterion at position `idx` is segment `idx` parsed with timestamp `clock(idx)` |
| Codec.ParsedIdsDistinct | src/utils/sortUtils.ts:69 | ids that end in `_idx` for their own position are pairwise distinct |
| Codec.SecondPieceDesc | src/utils/sortUtils.ts:67-71 | the second `.`-piece is `desc` exactly when `.desc` follows the field and ends there or at a `.` |
| Codec.TokenSegment | src/utils/sortUtils.ts:56-67 | a token of a safe field survives trimming and splits on `.` into field and direction |
| Codec.SegmentsOfSerialize | src/utils/sortUtils.ts:56-65 | the kept segments of a serialized list are its tokens |
| Codec.ParseToken | src/utils/sortUtils.ts:56-72 | parsing one token recovers its field and direction |
| Codec.ParseOfTokens | src/utils/sortUtils.ts:63-75 | a parameter whose segments are the tokens of a list with safe fields parses back to its fields and directions |
| Codec.RoundTrip | src/utils/sortUtils.ts:54-75 | parsing the serialization of a list whose fields are safe recovers the same fields and directions in order |
| Codec.FieldOfSegmentSafe | src/utils/sortUtils.ts:65-67 | the field of a trimmed comma-free segment has no `,` or `.` and no leading white space |
| Codec.ParsedFieldsSafe | src/utils/sortUtils.ts:65-70 | every parsed field is safe for serialization |
| Codec.ParseIdempotent | src/utils/sortUtils.ts:54-75 | serializing a parsed list and parsing again gives the same fields and directions |
| Codec.SerializeParseSerialize | src/utils/sortUtils.ts:54-75 | serialize, parse, serialize again yields the same string |
| StableSort.Insert | src/components/ClientList.tsx:377 | insertion keeps the elements and adds one |
| StableSort.Sort | src/components/ClientList.tsx:377 | sorting is a permutation |
| StableSort.SortAllTies | src/components/ClientList.tsx:375-377 | sorting with a comparator that ties everything changes nothing |
| StableSort.InsertSorted | src/components/ClientList.tsx:377 | inserting into an ordered list keeps it ordered |
| StableSort.SortSorted | src/components/ClientList.tsx:377 | the sorted list is ordered pairwise between neighbours |
| StableSort.InsertTies | src/components/ClientList.tsx:377 | inserting keeps, in order, the elements tied with any key |
| StableSort.NotBothTie | src/components/ClientList.tsx:377 | under a consistent comparator, two elements that compare unequal cannot both tie with one key |
| StableSort.InsertPast | src/components/ClientList.tsx:377 | an element that compares above the head is inserted after it |
| StableSort.TiesSwap | src/components/ClientList.tsx:377 | moving one element past another that does not tie with the same key leaves the ties with that key unchanged |
| StableSort.SortTies | src/components/ClientList.tsx:377 | sorting keeps the elements tied with any key in their original order |
| StableSort.SortCorrect | src/components/ClientList.tsx:377 | for a consistent comparator the result is a permutation, ordered, and stable |
| ClientList.AddCriterion | src/components/ClientList.tsx:323-326 | a present field is a no-op; otherwise exactly one `{field, asc}` is appended with earlier entries untouched, its id `field_now`; each field at most once is preserved |
| ClientList.AddCriterionIdempotent | src/components/ClientList.tsx:325 | adding the same field twice equals adding it once |
| ClientList.RemoveCriterion | src/components/ClientList.tsx:328-330 | each entry's count is 0 if it has the id and unchanged otherwise, and the survivors keep their relative order |
| ClientList.SubsequenceUnique | src/components/ClientList.tsx:329 | dropping entries keeps each field at most once |
| ClientList.RemoveKeepsUniqueFields | src/components/ClientList.tsx:328-330 | removing keeps each field at most once |
| ClientList.SetDirection | src/components/ClientList.tsx:332-334 | length, order, ids and fields are unchanged; exactly the entries with the id get the new direction |
| ClientList.SetDirectionUndo | src/components/ClientList.tsx:332-334 | with distinct ids, setting an entry's direction and then its old one restores the list |
| ClientList.SetDirectionKeepsUniqueFields | src/components/ClientList.tsx:332-334 | setting a direction keeps each field at most once |
| ClientList.ClearAll | src/components/ClientList.tsx:346-348 | clearing yields the empty list |
| ClientList.SortParamAfterApply | src/components/ClientList.tsx:350-355 | applying leaves no `sort` parameter exactly for an empty list, else the serialization |
| ClientList.LoadCriteria | src/components/ClientList.tsx:250-269 | the URL value wins when it parses to a non-empty list; otherwise the stored list is used, or the empty list when none was read |
| ClientList.ApplyThenReload | src/components/ClientList.tsx:350-359 | applying then reloading (the load logic at ClientList.tsx lines 250-269) restores the fields and directions; applying an empty list falls back to the stored one |
| ClientList.SeparatorsFallBack | src/components/ClientList.tsx:254-266 | a parameter made only of commas, such as `,,,`, falls back to the stored list |
| ClientList.SaveClient | src/components/ClientList.tsx:367-371 | the new client is at index 0, followed by the old list unchanged |
| ClientList.DisplayedRows | src/components/ClientList.tsx:374-378 | the rows are a permutation of the clients, and the client list itself when there are no criteria |
| ClientList.EmptyCriteriaSortIsIdentity | src/components/ClientList.tsx:375-377 | sorting with the empty criteria would also leave the list unchanged |
| ClientList.ComparatorConsistent | src/utils/sortUtils.ts:21-47 | the comparator is antisymmetric and transitive on a list whose date-like values parse |
| ClientList.DisplayedRowsOrdered | src/components/ClientList.tsx:374-378 | when the instants parse, the rows are ordered by the criteria and clients that compare equal keep their relative order |
| ClientList.SavedClientShown | src/components/ClientList.tsx:367-378 | a saved client is among the displayed rows, on top when no sort is active |
| ClientList.ClearAllResets | src/components/ClientList.tsx:346-375 | after clearing, the rows are the stored order and applying removes the `sort` parameter |
| ClientList.MatchesEmail | src/components/ClientList.tsx:165 | the one-pass matcher accepts exactly the strings of the form `^\S+@\S+\.\S+$` |
| ClientList.Submit | src/components/ClientList.tsx:161-173 | saved exactly when the trimmed name is non-empty, the email matches and the date is valid; each rejection has its own reason; the saved client has id `u_now`, the trimmed name, and an email that is whitespace-free and equal to its trimmed form |
| ClientList.TrimNoSpace | src/components/ClientList.tsx:165-170 | trimming a whitespace-free string leaves it unchanged |
| Fixtures.SortsByNameAsc | src/utils/sortUtils.test.ts:12-17 | name asc orders the sample Alice, bob, Charlie |
| Fixtures.SortsByNameDesc | src/utils/sortUtils.test.ts:19-24 | name desc orders the sample Charlie, bob, Alice |
| Fixtures.SortsByCreatedAtThenName | src/utils/sortUtils.test.ts:26-37 | createdAt then name puts the 2023 client first, then the two 2024 clients by name |
| Fixtures.CaseInsensitiveTie | src/utils/sortUtils.ts:37-40 | names that differ only in case tie |
| Fixtures.SerializesCriteria | src/utils/sortUtils.ts:50-57 | the example list serializes to `name.asc,createdAt.desc` |
| Fixtures.ParsesUrlParam | src/utils/sortUtils.test.ts:39-46 | `name.asc,createdAt.desc` parses to name asc, then createdAt desc |
| Fixtures.SkipsEmptySegments | src/utils/sortUtils.ts:65 | `name.asc,,createdAt.desc,` parses to the same two criteria |
| Fixtures.CommasOnlyFallBack | src/components/ClientList.tsx:254-266 | `,,,` yields the stored list on load |
| Text.LessIrreflexive | src/utils/sortUtils.ts:42-43 | no string is below itself |
| Text.LessAsymmetric | src/utils/sortUtils.ts:42-43 | two strings are never each below the other |
| Text.LessTransitive | src/utils/sortUtils.ts:42-43 | the string order used for text fields is transitive |
| Text.LessTotal | src/utils/sortUtils.ts:42-43 | two different strings are ordered one way or the other |
| Text.Lower | src/utils/sortUtils.ts:38-39 | same length; each capital letter becomes the letter 32 code points above, every other character is kept, and no capital is left |
| Text.LowerIdempotent | src/utils/sortUtils.ts:34-39 | lower-casing twice is lower-casing once |
| Text.Trim | src/utils/sortUtils.ts:65 | the result is a slice of the input with only white space cut off before and after it; it is trimmed, and empty only for an all-space input |
| Text.Split | src/utils/sortUtils.ts:65-67 | there is at least one piece, no piece contains the separator, and a string without it is one piece |
| Text.JoinSplit | src/utils/sortUtils.ts:65 | joining the pieces of a split with the same separator gives back the string |
| Text.JoinContains | src/utils/sortUtils.ts:65 | each piece's characters occur in the joined string |
| Text.SplitPieceIn | src/utils/sortUtils.ts:65 | each piece of a split uses only characters of the string |
| Text.SplitJoin | src/utils/sortUtils.ts:56-65 | splitting a join of separator-free pieces gives them back |
| Text.IndexSuffixInjective | src/utils/sortUtils.ts:69 | two ids `x_T_i` and `y_T_j` that are equal have equal indexes |
| Text.Decimal | src/utils/sortUtils.ts:69 | a non-empty run of digits with no leading zero except `0` itself |
| Text.DecimalInjective | src/utils/sortUtils.ts:69 | different timestamps or indexes render differently |
| Text.DecimalRoundTrip | src/utils/sortUtils.ts:69 | the decimal rendering reads back as the number |

## Left out

- Drag reordering (`onDragEnd`) is left out. `arrayMove` comes from `@dnd-kit/sortable`, which is not part of this model.
- Reading and writing `localStorage` and the `JSON.parse`/`JSON.stringify` round trip are left out. The initial `MOCK_CLIENTS` list is left out too. The stored criteria enter only as an `Option` value, and a stored array holding values that are not criteria is not modelled.
- `URLSearchParams` percent-encoding and `history.replaceState` are left out. `SortParamAfterApply` models only the value that ends up in the `sort` parameter.
- JavaScript `Date` parsing and formatting are left out: `getTime`, `toISOString`, and the `datetime-local` default with its time-zone offset. They enter as `parse`, as the `createdAtIso`/`nowIso` strings, and as `now` and `clock`. An invalid date makes `toISOString` throw; the model records this as the rejection `CreatedAtInvalid`.
- `Text.Lower`, `Text.Trim` and `IsSpace` follow ASCII only, not full Unicode. This covers `toLowerCase`, `trim` and the `\S` class. ASCII white space here is space and tab through carriage return.
- `Text.Less` compares characters by `char` order. JavaScript compares UTF-16 code units, which agrees for characters of the Basic Multilingual Plane.
- Lookups of inherited prototype properties are left out: a field named `constructor` would find one in JavaScript, but here an unknown name is always absent. Field values that are not strings are left out too: `Client` holds strings only, so the `typeof` check at sortUtils.ts:37 always sees a string.
- Directions are `asc`/`desc` only. A stored criterion with any other direction string cannot be represented.
- `Comparator.CompareTransitive` holds only when every date-like value of the three clients parses. Without that `makeComparator` is not transitive; `Comparator.NaNBreaksTransitivity` shows this. `ClientList.DisplayedRowsOrdered` carries the same premise. Without it, only the permutation property of the displayed rows is proved.
- `ClientList.Submit` does not model `alert`, `onSave` or `onClose`. The decision and the client built are its result.
- Rendering, the popover focus trap, the modal, the field labels and the direction-pill heuristic are left out because they are UI only. `src/main.tsx` only bootstraps the app and is not part of this model.

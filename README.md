# GymCoach workout builder in Dafny

GymCoach is a small web service. It serves an exercise catalog and assembles randomised
workouts that focus on one muscle group. Its one piece of logic is
`build_single_group_workout` together with the group table `GROUP_BODY_PART_MAP`. This
project models both in Dafny and proves what they promise.

The builder works in five steps:

1. **Resolve the group.** The requested name is stripped and lower-cased. A missing or
   empty name, or one that is not a key of the table, is replaced by a key drawn with
   `random.choice`.
2. **Expand the group.** The key maps to its lower-cased body-part labels.
3. **Filter.** A loop keeps the catalog rows whose stripped, lower-cased `body_part` is one of
   those labels. If none is kept, the whole catalog is used.
4. **Sample.** If there are at most `size` candidates, all are kept in order. Otherwise
   `random.sample` draws `size` of them.
5. **Number and decorate.** Each chosen row becomes an entry numbered from 1, with 3 sets
   of "8–12" reps. The group key is returned capitalised.

Modules:

- `Outcomes` (`outcomes.dfy`): `Option` (Python `None` / SQLite NULL) and `Result` (a
  return value or a raised exception).
- `PyStr` (`pystr.dfy`): the Python string builtins the builder uses. `Strip` removes exactly
  the characters Python's `str.isspace()` accepts. `Lower` maps `A`–`Z` and the Kelvin sign
  U+212A to ASCII lower case. `Capitalize` upper-cases the first letter and lower-cases the rest.
- `PyRandom` (`pyrandom.dfy`): `random.choice` and `random.sample`. The random outcome is an
  argument: a position for `choice`, and a sequence of distinct positions (`IsDraw`) for
  `sample`. So every property holds for every random outcome. `sample` raises
  `ValueError` for a negative count or one above the population size.
- `App` (`app.dfy`): the group table, group resolution, and the filtering loop
  (`FilterCandidates`, proved equal to the recursive `MatchingRows`). It also has the
  sampling guard (`ChooseUpTo`), the numbering loop (`NumberExercises`) and the whole builder
  (`BuildSingleGroupWorkout`). The builder takes the catalog as a sequence of `ExerciseRow`
  values, not as a database connection.

A workout has `min(size, number of candidates)` entries for every `size >= 0`. A negative
`size` always reaches `random.sample` (src/app.py:67-70), because no length is at most a
negative number, and `random.sample` raises `ValueError` for it on every catalog, the empty
one included. `BuildSingleGroupWorkout` returns `Err` exactly when `size < 0`.

`Lower` does not reproduce Python's full Unicode case mapping. It still decides every lookup
the builder makes the same way Python does. The table's keys and labels are ASCII lower
case. The Kelvin sign is the only character outside `A`–`Z` whose lower-case form is a
single ASCII letter, and it is mapped. ASCII characters other than `A`–`Z` are their own
lower-case form in Python as well. Every other non-ASCII character lower-cases in Python to
text that still contains a non-ASCII character. So a string holding one never equals a key or
a label, whether it is lower-cased or kept as it is.

## Model

| member | source | states |
|---|---|---|
| `App.AvailableGroups` | src/app.py:37 | the table's seven keys, each exactly once, for `random.choice` to pick from; the body lists them in declaration order |
| `App.GroupTableIsLowerCase` | src/app.py:19-27 | every key of the table is a non-empty ASCII lower-case word and every label is lower-case text |
| `App.ResolveGroup` | src/app.py:39-45 | the resolved key is always a key of the table. A non-empty name that normalises to a key resolves to that key whatever the random pick. Any other request (no name, empty name, unknown name) resolves to the key `random.choice` picked |
| `App.NormalizeGroupName` | src/app.py:41 | the normalised name is no longer than the request, has no whitespace at either end and no upper-case ASCII letter |
| `App.GroupSelectableByKey` | src/app.py:40-42 | requesting a group by its own key selects it, independently of the random source |
| `App.PaddedMixedCaseNameSelectsGroup` | src/app.py:40-42 | any text that lower-cases to a key, padded on either side with any whitespace, selects that key whatever the random pick: surrounding whitespace and upper case are ignored |
| `App.PaddedChestSelectsChest` | src/app.py:40-42 | a worked instance: the request " Chest\n" selects "chest" |
| `PyStr.StripPadded` | src/app.py:41 | stripping text padded with any whitespace returns the text, when the text itself has no whitespace at either end |
| `App.NormalizeGroupNameIdempotent` | src/app.py:41 | normalising (strip, then lower) an already normalised name changes nothing |
| `App.DisplayedGroupSelectsSameGroup` | src/app.py:86 | the capitalised group name a workout returns, sent back as the requested name, selects the same group |
| `App.LowerAllUnchanged` | src/app.py:47 | lower-casing a list of lower-case labels returns the same list |
| `App.LowerAll` | src/app.py:47 | the list comprehension keeps the number of labels, and label i becomes the lower-cased label i |
| `App.TargetBodyParts` | src/app.py:47 | the lower-cased labels of a group are exactly the table's labels for it |
| `App.MatchingRows` | src/app.py:54-60 | every kept row comes from the catalog and has a set, non-empty `body_part` whose stripped, lower-cased form is a target label. Rows with a missing or empty `body_part` are never kept |
| `App.TargetedIgnoresCaseAndPadding` | src/app.py:56-59 | a `body_part` that lower-cases to one of the group's labels is targeted whatever whitespace pads it; a missing or empty `body_part` is never targeted |
| `App.MatchingRowsOfConcat` | src/app.py:54-60 | filtering a concatenation is the concatenation of the filtered parts: the filter keeps catalog order |
| `App.MatchingRowsSplitAt` | src/app.py:54-60 | catalog row j is kept exactly when it is targeted, and it then sits between the matches before it and those after it: no targeted row is dropped |
| `App.NoMatchingRows` | src/app.py:54-62 | the filter keeps nothing exactly when no catalog row is targeted |
| `App.FilterCandidates` | src/app.py:54-60 | the filtering loop returns exactly the matching rows of the catalog, in order |
| `App.Candidates` | src/app.py:62-64 | with no targeted row the candidates are the whole catalog. With one, they are the matching rows, all targeted. The candidates are empty only for an empty catalog |
| `App.ChooseUpTo` | src/app.py:66-70 | raises exactly when `size < 0`. Otherwise returns `min(size, len(candidates))` rows: all candidates in order when there are at most `size`, else the rows at the drawn distinct positions. The result is always a sub-multiset of the candidates |
| `App.NumberExercises` | src/app.py:72-83 | one entry per chosen row, in order. Entry i has `order` i+1, copies title, body part, type, equipment and level of row i, and has `sets` 3 and `reps` "8–12" |
| `App.DescribesDeterminesEntry` | src/app.py:74-83 | the entry for a numbered row is unique: it has that order, copies title, body part, type, equipment and level, and has 3 sets of "8–12" reps |
| `App.BuildSingleGroupWorkout` | src/app.py:30-88 | fails exactly when `size < 0`. Otherwise the group is the capitalised resolved key and there are `min(size, len(candidates))` entries numbered 1..n. Each entry describes the i-th candidate, or the candidate at the i-th drawn position when sampling. When some catalog row is targeted, every entry's body part is targeted |
| `PyRandom.Choice` | src/app.py:43-45 | `random.choice` returns an element of the population |
| `PyRandom.Sample` | src/app.py:70 | `random.sample` raises exactly for a negative count or one above the population size. Otherwise it returns that many elements, taken from the drawn positions |
| `PyRandom.DistinctPicksAreSubMultiset` | src/app.py:70 | elements taken from distinct positions never occur more often than in the population |
| `PyRandom.SampleDrawsWithoutReplacement` | src/app.py:70 | a sample is a sub-multiset of its population (drawn without replacement) |
| `PyStr.Strip` | src/app.py:41 | `strip()` returns the infix that starts after the leading whitespace. Only whitespace follows it, and it neither starts nor ends with whitespace |
| `PyStr.SpaceIsCaseless` | src/app.py:41 | the characters `strip()` removes have no case, and no ASCII letter or digit is one of them |
| `PyStr.StripIdempotent` | src/app.py:59 | stripping twice is stripping once |
| `PyStr.LowerIdempotent` | src/app.py:41 | lower-casing twice is lower-casing once, and lower-casing neither adds nor removes whitespace |
| `PyStr.LowerUnchanged` | src/app.py:47 | lower-casing lower-case text returns it unchanged |
| `PyStr.Lower` | src/app.py:41 | `lower()` keeps the length, leaves no upper-case ASCII letter, and keeps every whitespace position as whitespace and every other position as non-whitespace |
| `PyStr.Capitalize` | src/app.py:86 | `capitalize()` keeps the length, leaves no lower-case ASCII letter first and no upper-case ASCII letter after it, and lower-cases to what the input lower-cases to |
| `PyStr.CapitalizeLowerWord` | src/app.py:86 | capitalising a lower-case word keeps its length and starts it with a capital. The result has nothing to strip and lower-cases back to the word |

## Left out

- The Flask routes `/`, `/workout`, `/api/workout`, `/health` and `/exercises` (src/app.py:93-177): HTTP, templating and JSON plumbing.
- The `size` query parameter parsing with Python `int()` (src/app.py:114-117, 141-144): it defaults to 5 when the parameter is absent, empty or unparseable. Any integer, negative ones included, can reach the builder, so the model takes `size` as an unbounded `int`.
- The `SELECT * FROM exercises` read and the database connection (src/app.py:50-51): the catalog is a sequence of rows given as an argument. Columns that the builder never reads (description, rating) are not modelled.
- src/db.py is not part of this model: SQLite connection setup and the pandas CSV load, column renaming and `to_sql` replacement are I/O over libraries.
- Environment and configuration reads (src/app.py:8-10).
- The `random` module: its outcome is an argument. The model states only what `choice` and `sample` guarantee (a position in range, distinct positions), not that they are uniform.
- The builder's default `size` of 5 (src/app.py:30): both callers (src/app.py:120, 147) always pass a size, so the model takes `size` as a required argument.
- Non-string values in `body_part`: the model treats each column as text or NULL.
- PyStr.Lower: non-ASCII characters other than the Kelvin sign are kept as they are instead of being case-mapped; as explained above, this decides every table lookup as Python does.
- PyStr.Capitalize: upper-cases only ASCII letters (Python uses title case for the first character); it is only applied to the table's ASCII keys.
- PyRandom.Choice: requires a position inside the population, so it does not model the `IndexError` that `random.choice` raises on an empty sequence; the builder only ever chooses among the table's seven keys, so it cannot reach that error.

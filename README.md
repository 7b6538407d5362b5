# School grades store — a Dafny model

This project models the in-memory student record store of a small grades
service, together with the queries over it and the two router operations that
touch it. A student has an integer id, a name and a map from subject to grade.
The store maps ids to students and remembers the insertion order of its keys,
because Python dictionaries iterate in insertion order and every listing
follows that order.

- `wrappers.dfy`: module `Wrappers`, with `Option` and `Result`.
- `models.dfy`: module `Models`, with the record shapes `Student` and
  `StudentCreate`, and `Statistics`, whose shape is inferred from its use in
  `calculate_statistics` (see "## Left out").
- `crud.dfy`: module `Crud`, the store and its queries (`app/crud.py`).
  - The store is the class `Store`. Its fields are `db: map<int, Student>` and
    `order: seq<int>`, the keys in iteration order.
  - Its invariant `Valid()` says that `order` lists every key of `db` exactly
    once.
  - The listings, the statistics, the threshold filter and the pruning pass
    are proved against specification functions, and the properties the
    service promises are proved as lemmas about those functions. The lookup
    and record creation are stated directly against the map.
- `students_router.dfy`: module `StudentsRouter`, which models id allocation,
  `add_student` and `read_student` (`app/routers/students.py`).
- `scenarios.dfy`: module `Scenarios`, with three example scenarios. Each
  adds students through the router and checks a query's result from the
  store's contracts.

Grades are Python floats. Here they are `real`, so comparisons and the mean
are exact.

`remove_students_with_no_grades` is modelled as the code is written. Its inner
loop iterates over the record itself, which yields the fields `id`, `name` and
`grades`, and it pops the record once for every falsy field. So a record with
id 0, an empty name or no grades is removed. A record with two falsy fields is
popped once and then makes the second `pop` raise `KeyError`. The model
returns that error as `KeyError(key)`, with the store in the state the
exception leaves it in. The intended behaviour holds on "tidy" stores, where
every id is non-zero and every name non-empty: only gradeless students are
removed, and a second pass removes nothing. This is proved under that
assumption. It is an assumption, because nothing in the code enforces it: the
creation request accepts an empty name, and a store loaded from disk may hold
any id.

Three facts about the code shape the model:
- The code enforces no grade bound and no rounding when a student is created
  (`app/schemas.py`, `app/crud.py:7-9`), so the model puts no bound on grades.
- Pruning removes every record with a falsy field, not only the records
  without grades, and can raise `KeyError`, as described above.
- New ids are `max + 1` over whatever keys exist. The result is positive
  exactly when the largest key is non-negative (see `NextId`).

## Model

| member | source | states |
|---|---|---|
| Crud.Store.constructor | app/crud.py:5 | The store starts empty: no keys and no records. |
| Crud.Store.CreateStudent | app/crud.py:7-9 | After the call the store maps `id` to the student, and the student is returned. A new key is appended to the iteration order and an overwritten key keeps its place. Lookups of every other id are unchanged, and the store invariant is kept. |
| Crud.Store.GetStudent | app/crud.py:11-12 | Returns the stored record exactly when the id is present, and None otherwise. It only reads the store. |
| Crud.SubjectRows | app/crud.py:16 | Gives one `(name, grade)` row per record holding the subject, so the count equals the number of holders. Every row comes from a holder, every holder contributes its row, and the result is empty exactly when no record holds the subject. |
| Crud.InsertRow | app/crud.py:15-18 | Inserting a row into a grade-sorted list keeps it sorted and makes it one row longer. |
| Crud.InsertRowPerm | app/crud.py:15-18 | Insertion adds exactly the one new row: the result's multiset is the input's plus that row. |
| Crud.InsertRowTies | app/crud.py:15-18 | Among the rows of any one grade, the new row goes first and the others keep their order. |
| Crud.SortByGrade | app/crud.py:15-18 | The result is sorted non-decreasingly by grade. |
| Crud.SortByGradeRows | app/crud.py:15-18 | The sort is a permutation of its input. For every grade value, the rows with that grade keep their input order, so the sort is stable like Python's `sorted`. |
| Crud.Store.StudentsBySubject | app/crud.py:14-18 | The listing is sorted by grade and is a permutation of the holders' rows, with ties in store iteration order. It has one row per holder and is empty exactly when no stored record holds the subject. |
| Crud.NoHolderInValues | app/crud.py:16 | No record met in store iteration order holds the subject exactly when no stored record holds it. |
| Crud.SubjectGrades | app/crud.py:21 | The collected grade list has one grade per record holding the subject. Grade j is the grade of the j-th row of the unsorted subject listing. |
| Crud.Mean | app/crud.py:28 | The mean of a non-empty grade list lies between some grade at or below it and some grade at or above it. |
| Crud.MeanBetween | app/crud.py:28 | Some value is at most the sum divided by the count, and some value is at least it. |
| Crud.MeanExample | app/crud.py:28 | Grades 4.0 and 6.0 average to 5.0. |
| Crud.Store.CalculateStatistics | app/crud.py:20-36 | Returns nothing exactly when fewer than two grades exist for the subject, which covers both zero and one. Otherwise the average lies within the range of the collected grades. |
| Crud.BelowThreshold | app/crud.py:38-51 | No emitted record has empty grades, and every grade in an emitted record is strictly below the threshold. The output is the stored records, some dropped and the rest restricted to their low grades, in store order. |
| Crud.BelowThresholdSound | app/crud.py:44-48 | Every emitted record is the restriction of a stored record, so its id and name are copied from that record. |
| Crud.BelowThresholdComplete | app/crud.py:41-43 | Every stored record with at least one grade below the threshold yields its restricted record. |
| Crud.RestrictedGrades | app/crud.py:42-47 | A restricted record keeps the id and name. It holds exactly the subjects graded below the threshold, with their grades unchanged. |
| Crud.Store.StudentsBelowAverage | app/crud.py:38-51 | The loop returns exactly the specification `BelowThreshold` over the store's records in iteration order, with the default threshold 6. No record has empty grades and no grade is at or above the threshold. The store is not modified. |
| Crud.ValuesOf | app/crud.py:16 | `students_db.values()`: one record per key, the i-th being the record stored under the i-th key of the iteration order. |
| Crud.Store.Values | app/crud.py:41 | The store's records in iteration order, as read by the listings at lines 16, 21 and 41. |
| Crud.LowGrades | app/crud.py:42 | The comprehension keeping the subjects graded strictly below the threshold; its properties are stated by `RestrictedGrades`. |
| Crud.Restricted | app/crud.py:44-48 | The new record with the stored id and name and only the low grades; its properties are stated by `RestrictedGrades`. |
| Crud.FalsyFields | app/crud.py:58-59 | Iterating a record visits `id`, `name` and `grades` in declaration order; each entry says whether that field is falsy (zero, empty string, empty dictionary). Stated by `FieldLoopFields`. |
| Crud.PopAndRecord | app/crud.py:60-61 | `pop` then `append`: it succeeds exactly when the key is present; then the key leaves the live map and the key order, every other key stays in both, and on a repeat-free order the key's position is cut out so the other keys keep their order; the key is appended to the result. An absent key raises `KeyError` and changes nothing. |
| Crud.FieldStep | app/crud.py:59-61 | One field of the inner loop: a falsy field pops and records the key, and nothing happens once `KeyError` was raised (`FieldLoopRaised`). |
| Crud.FieldLoop | app/crud.py:58-61 | The inner loop over a record's fields, one `FieldStep` each, in order; stated by `FieldLoopFields` and `TidyFieldLoop`. |
| Crud.RecordLoop | app/crud.py:57-61 | The outer loop over the snapshot's keys in iteration order, stopping at a raised `KeyError`; stated by `RecordLoopTidy`. |
| Crud.Prune | app/crud.py:53-63 | The whole pass from an empty result list: the live store left behind, and either the removed ids or the key of the `KeyError`. Whatever happens, the pass never adds or changes a record: every record left is stored under the same key as before. |
| Crud.FieldLoopShrinks | app/crud.py:58-61 | The inner loop only removes records from the live store. |
| Crud.RecordLoopShrinks | app/crud.py:57-61 | The outer loop only removes records from the live store, whether or not it raises. |
| Crud.DropAt | app/crud.py:60 | Popping the key at position `i` of a repeat-free order removes exactly that position; the keys before and after it keep their order. |
| Crud.Drop | app/crud.py:60 | Popping keys removes exactly them from the iteration order and keeps a repeat-free order repeat-free. |
| Crud.FieldLoopFields | app/crud.py:58-61 | The inner loop visits the record's `id`, `name` and `grades` in that order, and each falsy one triggers a pop. |
| Crud.TidyFieldLoop | app/crud.py:58-61 | For a record with a non-zero id and a non-empty name, the inner loop pops it exactly when its grades are empty. |
| Crud.Gradeless | app/crud.py:57-61 | Lists exactly the keys whose record has no grades, in iteration order. |
| Crud.RecordLoopTidy | app/crud.py:57-61 | On a tidy snapshot, the outer loop removes exactly the gradeless keys from the live map and from the key order, and appends them in iteration order. |
| Crud.PruneRemovesExactlyGradeless | app/crud.py:53-63 | On a tidy store, the pass returns the gradeless ids in iteration order. Exactly the gradeless records are removed, every record with a grade stays unchanged, and the result is again a tidy, well-keyed store. |
| Crud.PruneNothingToRemove | app/crud.py:53-63 | On a tidy store where every record has a grade, the pass returns an empty list and changes nothing. |
| Crud.PruneIdempotent | app/crud.py:53-63 | On a tidy store, a second pass returns an empty list and leaves the store as the first pass left it. |
| Crud.PruneTwoFalsyFieldsRaises | app/crud.py:58-61 | As written, a record with two falsy fields, met at any point of a running pass, is popped once and its id appended; the second pop raises `KeyError` with the store in that state. |
| Crud.PruneRemovesNamelessGraded | app/crud.py:58-61 | As written, a graded record with an empty name, met at any point of a running pass, is popped from the live store and the key order, and its id is appended. |
| Crud.PruneTwoFalsyFieldsExample | app/crud.py:53-63 | On a store holding only such a record, the pass raises `KeyError` and leaves the store empty. |
| Crud.PruneNamelessGradedExample | app/crud.py:53-63 | On a store holding only a graded record with an empty name, the pass removes and reports it. |
| Crud.Store.RemoveStudentsWithNoGrades | app/crud.py:53-63 | Iterates a snapshot and pops from the live store. The final store and the outcome (the removed ids, or the `KeyError`) are exactly those of the specification `Prune`. The store invariant is kept. |
| Crud.SubjectListingExample | app/crud.py:14-18 | A (math 8.0), B (math 4.0) and C (math 6.0) are listed as B, C, A. |
| Crud.SubjectGradesExample | app/crud.py:21 | For A (x 4.0, y 4.0) and B (x 6.0), the grades collected for x are [4.0, 6.0] and for y [4.0]. |
| Crud.PruneExample | app/crud.py:53-63 | On a store holding A (math 8.0) under id 1 and D (no grades) under id 2, the pass removes and reports only id 2. A second pass on the result reports nothing and changes nothing. |
| StudentsRouter.MaxKey | app/routers/students.py:10 | The maximum is one of the keys, and no key is larger. |
| StudentsRouter.NextId | app/routers/students.py:10 | The new id is 1 on an empty store, and otherwise one more than an existing key. It is larger than every key, so it is never in use. It is positive whenever all keys are, and on a non-empty store exactly when the largest key is non-negative. |
| StudentsRouter.AddStudent | app/routers/students.py:9-17 | Stores and returns a record with the next id and the request's name and grades. The id was absent before, it is appended to the iteration order, every existing entry is unchanged, and the store invariant is kept. |
| StudentsRouter.ReadStudent | app/routers/students.py:20-27 | Succeeds with the stored record exactly when the id is present. Otherwise it fails with "Student not found". |

## Left out

- Crud.Store.CalculateStatistics: the result carries only the unrounded mean, stated through its bounds. The median, the sample standard deviation (which needs a square root) and `round(..., 1)` are left out, because they are floating-point computations.
- StudentsRouter.ReadStudent: it returns a `Failure` where the router raises an HTTP 404. Status codes and `HTTPException` belong to the web framework.
- Floating-point behaviour of grades (NaN, infinities, binary rounding) is not modelled, because grades are exact reals.
- The order of subjects inside a grades dictionary is not modelled, because grades are a `map`. The order of records is modelled.
- When the pruning pass raises `KeyError`, the exception leaves the function. The model returns it as an outcome instead, and the partly built result list is discarded.
- The model assumes that the imports of the two modules resolve. As written they do not: `app/models.py` defines only `Student`, so `from app.models import Student, Statistics` (`app/crud.py:3`) fails; `app/routers/students.py:3-4` imports `get_students_by_grade`, which `app/crud.py` does not define, and `Student` from `app/schemas.py`, which defines only `StudentCreate`. The record `Statistics(average)` is inferred from the call at `app/crud.py:32-36` and keeps only the average.
- `read_grades` (app/routers/students.py:29-37) is not modelled. It calls `get_students_by_grade`, which `app/crud.py` does not define.
- JSON persistence (`app/database.py`) and the startup and shutdown hooks (`app/main.py`) are left out, because they are file I/O and lifecycle plumbing. The store is therefore never loaded or saved.
- Request validation by the schema classes is left out. No grade bound is enforced in the code.
- The race between concurrent requests in `max + 1` id allocation is left out, because it is concurrency.

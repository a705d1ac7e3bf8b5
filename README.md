# PxWe Dashboard aggregation, modelled in Dafny

The script `calculations.py` of the PxWe Dashboard fetches from the space
warehouse the rooms with a positive area of the live PxWe and Enterprise
projects, one row per distinct combination of the selected columns. For each
row it gets the project address, the room's space type (program type) and
its area in square feet, among other columns. It then aggregates the rows in six stages. Stage 4
builds two dictionaries with `dict(zip(...))`; each of the other stages is a
`for` loop that appends to a list:

1. the distinct project names in first-seen order, and their number
   (`proj_list`, `proj_count`);
2. one frame per project with that project's rows, keeping the columns
   project, space_type and sf (`proj_dfs`);
3. each frame's distinct space types in first-seen order (`proj_types`);
4. two dictionaries keyed by project name, built with `dict(zip(...))`:
   `space_types` and `all_projects`;
5. per project, the summed area of each of its space types, aligned with its
   type list (`proj_areas`);
6. per project, the summed area of its frame (`total_proj_areas`).

The model follows that structure:

- `distinct.dfy` (module `Distinct`) holds `Unique`, the first-seen distinct
  values of a column (pandas' `Series.unique()`). It comes with a
  characterisation: `Unique(s)` is the one duplicate-free list of exactly
  the values of `s`, ordered by first occurrence.
- `rows.dfy` (module `Rows`) holds the fetched rows and the pure table
  operations: the boolean masks, `.sum()` and `dict(zip(...))`. It also
  holds the lemmas that make the masks a partition and make the per-type
  sums add up.
- `calculations.dfy` (module `Calculations`) holds the script's loops as
  methods. Their loop invariants tie the growing lists to the functions of
  `Rows`. It also holds `Calculate`, the whole pipeline, whose contract
  gathers what the stages promise.
- `ordering.dfy` (module `Ordering`) covers what the query's
  `ORDER BY project` adds. With the rows sorted, the project list is
  ascending, and the frames laid end to end give back the rows in their
  original order.

Areas are integers. The query only returns rows with `sf > 0`. Positivity is
therefore a hypothesis of the statements that need it (positive per-type
sums, sums within the total), not a precondition of the pipeline.

The script reads the frames at lines 81 and 92 from `all_proj_dfs`, a name
it never defines. As written, the script fails there as soon as at least one
project was fetched; with no rows the loops of lines 79 and 90 never run and
the script finishes. The dictionary built for the purpose is `all_projects`
(line 75), and the model reads from it.

## Model

| member | source | states |
|---|---|---|
| Distinct.Unique | calculations.py:48 | the distinct values hold no duplicates; every value of the column is listed, every listed value is from the column, and there are no more of them than rows |
| Distinct.UniqueInFirstSeenOrder | calculations.py:48 | the distinct values are listed in the order of their first occurrence in the column |
| Distinct.UniqueIsFirstSeenList | calculations.py:48 | `unique()` meets every first-seen requirement: no duplicates, same values as the column, first-occurrence order |
| Distinct.UniqueCharacterized | calculations.py:48 | any list meeting the first-seen requirements is exactly `unique()` of the column |
| Distinct.FirstSeenListIffUnique | calculations.py:48 | a list meets the first-seen requirements if and only if it is `unique()` of the column |
| Distinct.UniqueOfNoDups | calculations.py:64 | a column without repeated values is its own list of distinct values |
| Distinct.UniqueIdempotent | calculations.py:64 | taking distinct values twice gives the same list as taking them once |
| Distinct.ContiguousNoInterleaving | calculations.py:32 | in a column whose equal values stand together, no other value lies between two copies of a value |
| Distinct.NoInterleavingIsContiguous | calculations.py:32 | a column in which no other value lies between two copies of a value has its equal values together |
| Distinct.ContiguousIffNoInterleaving | calculations.py:32 | the recursive contiguity predicate holds exactly when no other value lies between two copies of a value |
| Distinct.UniqueLastOfContiguous | calculations.py:32 | in such a column, the last distinct value is the column's last value |
| Rows.TrimKeepsColumns | calculations.py:58 | `Trim`, the column selection, reduces a fetched row to the columns project, space_type and sf, each kept unchanged |
| Rows.SumSf | calculations.py:93 | the summed sf of a frame's rows, 0 for an empty frame |
| Rows.SumSfPositive | calculations.py:93 | a frame of positive areas has a positive total, at least the sf of each of its rows |
| Rows.SelectProject | calculations.py:57-58 | the frame of project p has only rows of p; every row of p is in it with its three kept columns; it is no longer than the input |
| Rows.SelectType | calculations.py:84 | the mask on space type keeps only rows of the frame of that type, and every row of the frame of that type |
| Rows.SelectTypeAppend | calculations.py:84 | the mask on space type commutes with concatenation, so it keeps every matching row as often as it occurs, in frame order |
| Rows.Partitions | calculations.py:55-58 | one frame per name, aligned by position, each the selection of that name's rows |
| Rows.AreaList | calculations.py:82-86 | a project's area list has one entry per listed type, the summed sf of the frame's rows of that type |
| Rows.Zip | calculations.py:70 | the keys of `dict(zip(keys, values))` are the keys paired with a value, as far as the shorter list goes |
| Rows.SelectProjectAppend | calculations.py:57 | masking keeps source order: the frame of a concatenation is the frames of the halves, concatenated |
| Rows.SumSfAppend | calculations.py:93 | the summed area of a concatenation is the sum of the two halves' areas |
| Rows.PartitionsCover | calculations.py:55-58 | with distinct names covering every row's project, the frame sizes add up to the number of rows |
| Rows.SelectProjectNonEmpty | calculations.py:57 | the frame of a project that occurs in the rows is not empty |
| Rows.SelectProjectPositive | calculations.py:31 | when every fetched row has sf > 0, so does every row of every frame |
| Rows.AreaListSumsToTotal | calculations.py:84-93 | with distinct types covering every row's type, the per-type sums add up to the frame's total area |
| Rows.TypeAreaBounds | calculations.py:84 | with positive areas, a per-type sum lies between 0 and the frame's total, and is positive for a type that occurs in the frame |
| Rows.ZipLastWins | calculations.py:70 | a key maps to the value paired with its last occurrence in `zip` |
| Rows.ZipDistinctKeys | calculations.py:68-75 | zipping distinct keys with as many values overwrites nothing: each key maps to the value at its own position |
| Calculations.ProjectList | calculations.py:47-51 | `proj_list` is `unique()` of the project column, hence first-seen distinct names, and `proj_count` is its length |
| Calculations.ProjectFrames | calculations.py:55-58 | `proj_dfs` has one frame per name of `proj_list`, the x-th being the selection of `proj_list[x]`'s rows |
| Calculations.ProjectTypes | calculations.py:61-65 | `proj_types[x]` is `unique()` of the space-type column of `proj_dfs[x]` |
| Calculations.ProjectAreas | calculations.py:78-86 | `proj_areas[y]` is aligned with `space_types[proj_list[y]]` and holds the per-type sums of the frame found under that name |
| Calculations.TotalProjectAreas | calculations.py:89-94 | `total_proj_areas[y]` is the summed sf of the frame found under `proj_list[y]` |
| Calculations.PartitionOfFirstSeen | calculations.py:55-58 | frames cut along a first-seen project list are aligned, non-empty, pairwise disjoint, and together hold as many rows as were fetched |
| Calculations.UniqueTypesAreDistinct | calculations.py:63-65 | each type list holds the types that occur in its frame, each once, in first-seen order |
| Calculations.ZipByProject | calculations.py:68-75 | both maps have exactly the project names as keys, and `space_types[proj_list[i]] == proj_types[i]`, `all_projects[proj_list[i]] == proj_dfs[i]` |
| Calculations.RoomsInTheirFrames | calculations.py:75 | every fetched row's project is a key of `all_projects`, and the row is in the frame stored there |
| Calculations.AreaSumsOfDistinctTypes | calculations.py:82-93 | each project's per-type sums add up to its frame's total area |
| Calculations.AreasWithinTotals | calculations.py:84 | with positive row areas, every per-type sum is positive and no larger than its project's total |
| Calculations.AreasOfKeyedFrames | calculations.py:78-94 | the two area loops, over the keyed maps, give lists aligned with the frames whose per-type sums add up to the totals, and are bounded when areas are positive |
| Calculations.Calculate | calculations.py:47-94 | the whole pipeline: first-seen project list and its count, a disjoint non-empty cover by frames, first-seen type lists, faithful maps, every row in its project's frame, per-type sums adding to the totals, and positive bounded sums when sf > 0 |
| Ordering.AscendingIsContiguous | calculations.py:32 | a project column sorted by `ORDER BY` has its equal values next to each other |
| Ordering.SortedProjectList | calculations.py:32 | with the rows sorted by project, the first-seen project list is strictly ascending |
| Ordering.ContiguousFramesConcat | calculations.py:55-58 | when each project's rows are contiguous, the frames in first-seen order laid end to end are exactly the rows |
| Ordering.SortedFramesConcat | calculations.py:32 | with the rows sorted by project, each frame is one contiguous run of the rows, and the runs in order give back all rows |

## Left out

- The warehouse fetch (`fetch`, the sqlalchemy engine and `pd.read_sql`, calculations.py:35-44) is I/O. The fetched rows are the input of `Calculate`.
- The connection string built from the environment (calculations.py:9-14) concerns credentials and process environment. It has no logic to verify.
- The SQL text (calculations.py:17-32) is evaluated by the warehouse. Two of its guarantees are kept: `sf > 0`, as the hypothesis `PositiveAreas`, and `ORDER BY project`, as the hypothesis `Ascending` of the `Ordering` lemmas. The joins, the status and type filters, `DISTINCT`, and the secondary sort on `room_number` are not modelled.
- The console `print` of the project count (calculations.py:52) is output only. The count itself is modelled.
- The matplotlib imports (calculations.py:3-4) feed no code in the file, so no plotting is modelled.
- `sf` is a floating-point column, and pandas' `.sum()` rounds. Areas are modelled as unbounded integers, so rounding and the order of additions are not captured.
- The columns `floor`, `room` and `room_number` are dropped at line 58 and play no part in the aggregates. They are not in `Room`. `desk_count` is carried as an optional field and is never read.
- `proj_types` entries are numpy arrays in the script. They are modelled as sequences of strings.
- The warehouse's collation of project names is modelled as lexicographic order of character codes (`Ordering.LexLe`).
- The failure of the script as written is not modelled. It reads the undefined `all_proj_dfs` at lines 81 and 92, which stops it with a `NameError` whenever at least one project was fetched. The area methods read the frames from `all_projects` instead, the evident intent.
- NULL values in the project (`pr.address1`, line 18) and space type (`rm.program_type`, line 21) columns are not modelled: both are taken to be non-NULL strings, though the WHERE clause of line 31 does not exclude NULL. With a NULL, `.unique()` at lines 48 and 64 lists it, but the masks at lines 57 and 84 match no row against it. The rows with a NULL project then lie in no frame, and the rows with a NULL space type count towards the total of line 93 but towards no per-type sum. In that case the per-type sums no longer add up to the total.

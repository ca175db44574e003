# Trip-table cleaning pipeline

A Dafny model of the cleaning step of a taxi-trip emissions project. Two fleet
tables, `yellow_tripdata` and `green_tripdata`, hold one row per trip with the four
columns the loader keeps: `passenger_count`, `distance`, `pickup_datetime` and
`dropoff_datetime`, every one of them NULL-able. Two drifted scripts clean them in
place:

- `scripts/clean.py` replaces each table by its `SELECT DISTINCT *`, then runs four
  whole-table deletes on both fleets (no passengers; zero or NULL distance; distance
  over 100; duration over one day or NULL pickup), logging the row count before and
  after each step, and finally counts the residual violations.
- `scripts/clean_test.py` runs the same four checks without de-duplication, except
  that the duration delete also tests `dropoff_datetime IS NULL`. Each delete is scoped
  to one pickup year at a time for 2015 through 2024. The script logs year-scoped counts
  and vacuums both tables after each year.

The model is split by layer:

- `sql.dfy` (module `Sql`): NULL-able values, SQL's three-valued logic, and the table
  statements as functions on a sequence of rows. `DELETE ... WHERE p` keeps exactly the
  rows for which `p` is not True, so a row whose condition is Unknown stays.
- `trips.dfy` (module `Trips`): the row, each script's WHERE conditions written as
  SQL expressions, and the residual-count conditions.
- `trip_database.dfy` (module `TripDatabase`): class `Tables` holds the two tables as
  `seq<Row>` fields that its statements reassign. The module also defines the log lines.
- `clean.dfy` (module `Clean`) and `clean_by_year.dfy` (module `CleanByYear`): the two
  scripts as methods over a `Tables` object. Each method is proved against a
  specification function (`Cleaned`, `CleanYears`), and the properties are proved as
  lemmas about those functions.

Consequences of NULL handling proved here:

- In `clean.py` the duration delete tests `pickup_datetime IS NULL` twice and never
  tests `dropoff_datetime IS NULL`. For a row with a non-NULL pickup and a NULL dropoff the comparison
  is Unknown, so the row is kept when it passes the other checks
  (`Clean.NullDropoffKept`).
- In `clean_test.py`, `EXTRACT(year FROM NULL)` is NULL, so for a row with a NULL
  pickup every year-scoped condition is never True (it is False or Unknown). Such rows
  are never deleted.
- In both scripts, negative passenger counts, negative distances and negative
  durations are kept.

What the code does not establish:

- Neither script establishes passengers > 0, distance > 0 or duration >= 0, and
  `clean.py` does not establish a non-NULL dropoff.
- Neither script deletes a row because its pickup year is outside 2015–2024:
  `clean.py` ignores the year, and `clean_test.py` never deletes such rows
  (`CleanByYear.CleanYearsKeepsOthers`).

## Model

| member | source | states |
|---|---|---|
| Sql.And | scripts/clean_test.py:43-44 | `a AND b` is True exactly when both are True, and False exactly when either is False |
| Sql.Or | scripts/clean.py:73-74 | `a OR b` is True exactly when either is True, and False exactly when both are False |
| Sql.IsNull | scripts/clean.py:74 | `IS NULL` is never Unknown and is True exactly for NULL |
| Sql.Equals | scripts/clean.py:73 | `x = k` is Unknown exactly when x is NULL, and True exactly when x holds k |
| Sql.GreaterInt | scripts/clean.py:156 | `x > k` is Unknown exactly when x is NULL, and True exactly when x holds a value above k |
| Sql.GreaterReal | scripts/clean.py:130 | the same for the floating-point distance column |
| Sql.Minus | scripts/clean.py:156 | `date_diff('second', a, b)` is NULL exactly when a or b is, and otherwise a plus the result is b |
| Sql.Extract | scripts/clean_test.py:44 | `EXTRACT` of NULL is NULL, and otherwise it is the part of the value |
| Sql.Keep | scripts/clean.py:71-75 | DELETE never grows the table, and a row remains exactly when it was there and its condition is not True (False or Unknown) |
| Sql.CountWhere | scripts/clean_test.py:36-39 | COUNT(*) WHERE p is at most the row count, and is zero exactly when p is True for no row |
| Sql.Distinct | scripts/clean.py:26-37 | SELECT DISTINCT * has no two equal rows, has the same rows as its input, and is no longer |
| Sql.KeepCount | scripts/clean.py:69-79 | rows after a delete plus rows its condition matched equal rows before, so the logged drop equals the match count and is non-negative |
| Sql.KeepIsSubsequence | scripts/clean.py:71-75 | rows that survive a delete are unaltered and keep their relative order |
| Sql.KeepNothing | scripts/clean.py:128-131 | a delete whose condition is True for no row leaves the table unchanged |
| Sql.KeepIdempotent | scripts/clean.py:71-75 | running a delete again on its own output removes nothing |
| Sql.KeepTwice | scripts/clean.py:71-131 | two deletes in sequence leave what one delete on the OR of their conditions leaves |
| Sql.KeepSameMatches | scripts/clean_test.py:41-45 | two conditions that are True on the same rows delete the same rows |
| Sql.KeepCommutes | scripts/clean_test.py:30-195 | two deletes give the same table in either order |
| Sql.KeepAbsorbs | scripts/clean_test.py:41-45 | once rows matching a wider condition are deleted, a delete on a narrower one changes nothing, before or after |
| Sql.CountAfterKeep | scripts/clean_test.py:36-52 | a year-scoped count drops by exactly the number of rows a delete scoped to that year matched |
| Sql.DistinctOfDuplicateFree | scripts/clean.py:26-37 | SELECT DISTINCT * of a duplicate-free table is that table |
| Sql.DistinctShrinks | scripts/clean.py:23-42 | a table with a repeated row loses at least one row to SELECT DISTINCT * |
| Sql.DuplicateCount | scripts/clean.py:184-189 | COUNT(*) - COUNT(DISTINCT row) is at most the row count, and is zero exactly when no row occurs twice |
| Sql.KeepKeepsNoDuplicates | scripts/clean.py:71-177 | deletes keep a de-duplicated table duplicate-free |
| Trips.Matches | scripts/clean.py:71-173 | each delete condition is True exactly for the rows its SQL text describes. The passenger and zero-distance conditions are never Unknown. `distance > 100` is Unknown for NULL distance. clean.py's duration condition is Unknown exactly for a non-NULL pickup with a NULL dropoff. clean_test.py's duration condition (scripts/clean_test.py:163-165) is never Unknown |
| Trips.InYear | scripts/clean_test.py:36-39 | `EXTRACT(year FROM pickup_datetime) = year` is Unknown exactly for a NULL pickup, and True exactly when the pickup falls in that year |
| Trips.WhereInYear | scripts/clean_test.py:41-45 | a year-scoped condition is True exactly when the check is True and the pickup is non-NULL and in that year |
| Trips.Shows | scripts/clean.py:207-274 | each residual-count condition of the verification step is True exactly for passenger_count 0, distance 0, distance over 100, and duration over one day with both timestamps present |
| TripDatabase.Tables.CountAll | scripts/clean.py:23 | COUNT(*) equals, for every condition, the rows COUNT WHERE counts plus the rows DELETE WHERE leaves; so it is zero exactly for an empty table, and no COUNT(*) under a WHERE condition exceeds it |
| TripDatabase.Tables.Delete | scripts/clean.py:71-75 | the fleet's table becomes the rows the condition does not match, and the other table is unchanged |
| TripDatabase.Tables.ReplaceWithDistinct | scripts/clean.py:26-37 | the fleet's table becomes its distinct rows, and the other table is unchanged |
| TripDatabase.Tables.Vacuum | scripts/clean_test.py:197-200 | VACUUM leaves both tables' contents unchanged |
| TripDatabase.Labels | scripts/clean.py:42-177 | the labels of a log are one per line, in the log's order |
| TripDatabase.BothFleets | scripts/clean.py:79-177 | one check per pair of lines, yellow first: line `i` is about check `i / 2`, on yellow exactly when `i` is even |
| TripDatabase.BothFleetsLog | scripts/clean.py:65-177 | the deletes' log lines, two per check: line `2 * k` is check `k` on yellow reporting the yellow count before and after it, and line `2 * k + 1` the same check on green with the green counts |
| TripDatabase.BothFleetsLogLabels | scripts/clean.py:65-177 | those lines carry exactly the labels `BothFleets` lists |
| TripDatabase.LabelsOfAppend | scripts/clean.py:42-177 | appending log lines appends their labels |
| Clean.Cleaned | scripts/clean.py:69-177 | clean.py never grows a table, and every row it leaves was loaded and passes all four deletes |
| Clean.CleanedIsOneDelete | scripts/clean.py:69-177 | the four deletes in sequence equal one delete, on the de-duplicated table, of every row that fails `Survives` |
| Clean.CleanedRows | scripts/clean.py:69-177 | a row remains exactly when it was loaded and has a non-NULL, non-zero passenger count, a non-NULL, non-zero distance of at most 100, a non-NULL pickup, and a duration of at most one day when the dropoff is present |
| Clean.CleanedIsDuplicateFree | scripts/clean.py:23-177 | the cleaned table has no duplicate rows and keeps the order of the de-duplicated table |
| Clean.CleanedIdempotent | scripts/clean.py:23-177 | running the whole of clean.py twice leaves the same tables as running it once |
| Clean.NullDropoffKept | scripts/clean.py:154-159 | a row with a non-NULL pickup and a NULL dropoff that passes the other three checks is never deleted |
| Clean.CleanedHasNoResiduals | scripts/clean.py:184-274 | on the cleaned table the duplicate count and the four residual counts are all zero |
| Clean.Stage | scripts/clean.py:23-177 | stage `k` of a table in clean.py is its distinct rows after the first `k` deletes, and no stage is larger than the loaded table |
| Clean.LastStageIsCleaned | scripts/clean.py:23-177 | the last stage is `Cleaned` |
| Clean.StageDrop | scripts/clean.py:69-79 | between stage `k` and stage `k + 1` the table loses exactly the rows of stage `k` that check `k`'s condition is True for |
| Clean.CleanLogFor | scripts/clean.py:23-177 | clean.py's log as a function of the loaded tables: two duplicate lines, then two lines per check, ten in all |
| Clean.CleanLogLines | scripts/clean.py:65-177 | line `2 + 2 * k` of that log is check `k` on yellow with the row counts of yellow's stages `k` and `k + 1`, and line `3 + 2 * k` the same on green |
| Clean.CleanLogDrops | scripts/clean.py:23-177 | lines 0 and 1 report each fleet's `DuplicateCount` of its loaded rows, and line `2 + 2 * k` (yellow) or `3 + 2 * k` (green) reports the number of rows of stage `k` that check `k` matches |
| Clean.DedupAndLog | scripts/clean.py:23-42 | the table becomes its distinct rows, and the log gains one line labelled with the fleet and `Duplicates` that records the counts before and after, with a non-negative drop |
| Clean.DeleteAndLog | scripts/clean.py:69-79 | the table loses exactly the matched rows, and the log gains one line labelled with the fleet and the check whose drop (before minus after) equals the number of matched rows |
| Clean.DeleteBothAndLog | scripts/clean.py:69-93 | one check deletes from yellow and then green, and each table becomes `Keep` of its old rows. The log gains exactly two lines: the yellow line with yellow's row count before and after, then the green line with green's. Each line's drop is the number of that table's rows the check matched |
| Clean.CleanAndLog | scripts/clean.py:23-177 | the cleaning steps leave both tables `Cleaned` and write exactly `CleanLogFor` of the loaded tables, labelled in the script's order, all non-negative, with each fleet's drops adding up to the rows it lost |
| Clean.CleanParquetFiles | scripts/clean.py:11-278 | both tables end as `Cleaned` of their loaded contents. The log is exactly `CleanLogFor` of the loaded tables: ten lines, all non-negative, labelled in the script's order (duplicates of yellow, then green, then each delete on yellow and then green). Lines 0 and 1 report each fleet's `DuplicateCount`. Line `2 + 2 * k` (yellow) or `3 + 2 * k` (green) reports the rows of stage `k` that check `k` matched. Each fleet's drops add up to the rows it lost. The report exists exactly when the duplicate check's columns exist, and then every residual count is zero |
| CleanByYear.CleanYear | scripts/clean_test.py:33-195 | one year's deletes never grow the table and add no row. Every remaining row of that year passes every check, and every row with a NULL pickup or another pickup year remains |
| CleanByYear.CleanYears | scripts/clean_test.py:28-30 | the loop over a range of years never grows the table and adds no row, and every row with a NULL pickup or a pickup year outside the range remains |
| CleanByYear.CleanYearIsOneDelete | scripts/clean_test.py:33-195 | one year's four scoped deletes equal one delete of that year's rows that fail `Passes` |
| CleanByYear.CleanYearTouchesOnlyItsYear | scripts/clean_test.py:41-45 | processing year y leaves the other years' rows and the NULL-pickup rows unchanged, in number and order |
| CleanByYear.YearOrderIrrelevant | scripts/clean_test.py:30-195 | processing two years in either order gives the same table |
| CleanByYear.CleanYearsIsOneDelete | scripts/clean_test.py:28-200 | the loop over a range of years equals one delete of the rows in those years that fail `Passes` |
| CleanByYear.CleanYearsRows | scripts/clean_test.py:28-200 | a row remains exactly when it was there and has a NULL pickup, or a pickup year outside the range, or passes every check |
| CleanByYear.CleanedYearsValid | scripts/clean_test.py:30-195 | after the loop, every row whose pickup year was processed has a non-NULL, non-zero passenger count, a non-NULL, non-zero distance of at most 100, a non-NULL dropoff, and a duration of at most one day |
| CleanByYear.CleanYearsKeepsOthers | scripts/clean_test.py:28-30 | rows with a NULL pickup or a pickup year outside the range are never deleted, in number and order |
| CleanByYear.YearsLog | scripts/clean_test.py:28-195 | the loop's log has eight lines per year |
| CleanByYear.YearsLogLines | scripts/clean_test.py:28-195 | line `i` of the loop's log is about year `lo + i / 8` and check `(i % 8) / 2` of the script's order, on yellow exactly when `i` is even |
| CleanByYear.YearStage | scripts/clean_test.py:33-195 | stage `k` of a table in one pass is the table after that year's first `k` scoped deletes, and no stage is larger than the table |
| CleanByYear.LastYearStageIsCleanYear | scripts/clean_test.py:33-195 | the last stage of a pass is `CleanYear` |
| CleanByYear.YearDeleteDrop | scripts/clean_test.py:36-52 | a year-scoped delete lowers the year's count by exactly the rows it matches, and the table loses exactly those rows |
| CleanByYear.YearStageDrop | scripts/clean_test.py:36-52 | between stage `k` and stage `k + 1` the year's count drops by the rows of stage `k` that check `k` matches in that year, which is also what the table loses |
| CleanByYear.YearLogFor | scripts/clean_test.py:33-195 | one year's log as a function of the tables the pass starts from: two lines per check, eight in all |
| CleanByYear.YearLogLines | scripts/clean_test.py:33-195 | line `2 * k` of a year's log is check `k` on yellow with that year's counts on yellow's stages `k` and `k + 1`, and line `2 * k + 1` the same on green |
| CleanByYear.YearLogDrops | scripts/clean_test.py:33-195 | the drop line `2 * k` (yellow) or `2 * k + 1` (green) reports is the number of that year's rows of stage `k` that check `k` matches, and also the rows the table lost |
| CleanByYear.YearBlocksAt | scripts/clean_test.py:28-30 | in the years' log, the eight lines from `8 * (year - lo)` are that year's block |
| CleanByYear.YearsLogForYear | scripts/clean_test.py:28-200 | in the loop's log, the eight lines from `8 * (year - lo)` are `YearLogFor` of the tables the earlier years left |
| CleanByYear.YearsLogForNone | scripts/clean_test.py:28-30 | an empty range of years writes no log line |
| CleanByYear.YearsLogForNext | scripts/clean_test.py:28-200 | each pass appends its year's block to the log of the earlier years |
| CleanByYear.YearsLogForLabels | scripts/clean_test.py:28-195 | the loop's log carries the labels `YearsLog` lists |
| CleanByYear.CleanYearsIdempotent | scripts/clean_test.py:30-200 | running the whole loop a second time removes nothing |
| CleanByYear.DeleteInYearAndLog | scripts/clean_test.py:36-52 | the table loses exactly the matched rows of that year, and the log gains exactly one line: the fleet, the check, the year, and the year's row count before and after. Its drop equals the matched count, which is also the number of rows the table lost |
| CleanByYear.DeleteBothInYearAndLog | scripts/clean_test.py:36-71 | one check of one year deletes from yellow and then green, and each table becomes the scoped `Keep`. The log gains exactly two lines, yellow then green, each with that table's year count before and after. Each drop is the number of that table's rows of the year that the check matched |
| CleanByYear.CleanYearAndLog | scripts/clean_test.py:33-200 | one pass of the loop leaves each table as `CleanYear` of it and appends exactly `YearLogFor` of the tables it started from: eight lines labelled with each check in the script's order on yellow and then green, with that year. The lines are non-negative, and each fleet's lost rows are added to its drop total |
| CleanByYear.CleanYearsAndLog | scripts/clean_test.py:28-200 | the loop over a range of years leaves each table as `CleanYears` of it. Its log is exactly `YearsLogFor` of the starting tables, so the eight lines from `8 * (year - lo)` are `YearLogFor` of the tables the earlier years left. The log is labelled as `YearsLog` says, line `i` about year `lo + i / 8`, all non-negative, with each fleet's drops adding up to the rows it lost |
| CleanByYear.CleanTables | scripts/clean_test.py:10-209 | both tables end as `CleanYears` over 2015 through 2024 of their contents. The log is exactly `YearsLogFor` of the loaded tables over those years, eight lines per year, all non-negative. Line `i` is about year `2015 + i / 8` and check `(i % 8) / 2`, on yellow exactly when `i` is even. Each fleet's drops add up to the rows it lost |

## Left out

- scripts/load.py and scripts/analysis.py are not part of this model. They fetch files over HTTPS, read CSV, compute float aggregates and draw plots.
- The DuckDB connection and its settings are not modelled: `PRAGMA max_temp_directory_size`, `memory_limit` and `threads` (scripts/clean_test.py:18-25).
- Logging and `print` are reduced to the log lines' counts (`TripDatabase.Entry`).
- A database statement that fails at run time is not modelled, and neither is the catch-all `except` it leads to. The one exception is the duplicate check covered below.
- Clean.CleanParquetFiles: the duplicate check at scripts/clean.py:184-199 names `VendorID`, `pickup_location` and `dropoff_location`. The loader never creates these columns (scripts/load.py:56-78). The parameter `idColumnsExist` says whether they exist. When it is false, no report is produced, which is what happens with this loader. When it is true, duplicates are counted over whole-row equality of the four modelled columns.
- DROP, RENAME and VACUUM are modelled only by their effect on table contents, not on physical storage.
- `SELECT DISTINCT *` returns rows in an order SQL leaves open. `Sql.Distinct` keeps first occurrences in input order. The properties proved about it (no duplicates, same rows, no growth) do not depend on that order.
- `EXTRACT(year …)` is an abstract function `yearOf: int -> int` on second timestamps. No calendar is modelled.
- `date_diff('second', …)` is integer subtraction of second timestamps. Sub-second precision is not modelled.
- `distance` is a `real`. Floating-point NaN, infinities and rounding are not modelled. Only comparisons are applied to it.
- scripts/clean_test.py has no verification pass: lines 202-205 hold only a log line and a comment, so nothing is modelled for them.

/** scripts/clean_test.py: the same four deletes without de-duplication, each scoped to
    one pickup year, for every year from 2015 through 2024, with year-scoped row counts
    before and after each delete and a VACUUM of both tables after each year. */
module CleanByYear {
  import opened Sql
  import opened Trips
  import opened TripDatabase

  /** `range(2015, 2025)`: the years the loop visits, 2015 through 2024. */
  const FirstYear := 2015
  const EndYear := 2025

  /** The checks of clean_test.py, in the order the script runs them each year. */
  const YearChecks: seq<Check> := [NoPassengers, ZeroDistance, TooFar, TooLongOrMissing]

  /** The labels of one year's eight log lines, written out in the script's order. */
  lemma YearLines(year: int)
    ensures BothFleets(YearChecks, Some(year)) ==
      [Label(Yellow, Deleted(NoPassengers), Some(year)), Label(Green, Deleted(NoPassengers), Some(year))]
      + [Label(Yellow, Deleted(ZeroDistance), Some(year)), Label(Green, Deleted(ZeroDistance), Some(year))]
      + [Label(Yellow, Deleted(TooFar), Some(year)), Label(Green, Deleted(TooFar), Some(year))]
      + [Label(Yellow, Deleted(TooLongOrMissing), Some(year)), Label(Green, Deleted(TooLongOrMissing), Some(year))]
  {
  }

  /** Four pairs of lines appended in the script's order make up one year's labels. */
  lemma YearLabelsChain(l0: seq<Label>, l1: seq<Label>, l2: seq<Label>, l3: seq<Label>, l4: seq<Label>, year: int)
    requires l1 == l0 + [Label(Yellow, Deleted(NoPassengers), Some(year)), Label(Green, Deleted(NoPassengers), Some(year))]
    requires l2 == l1 + [Label(Yellow, Deleted(ZeroDistance), Some(year)), Label(Green, Deleted(ZeroDistance), Some(year))]
    requires l3 == l2 + [Label(Yellow, Deleted(TooFar), Some(year)), Label(Green, Deleted(TooFar), Some(year))]
    requires l4 == l3 + [Label(Yellow, Deleted(TooLongOrMissing), Some(year)), Label(Green, Deleted(TooLongOrMissing), Some(year))]
    ensures l4 == l0 + BothFleets(YearChecks, Some(year))
  {
    YearLines(year);
  }

  /** The log lines the loop writes for the years `lo` up to, not including, `hi`: for
      each year in turn, each check on yellow and then on green. */
  function YearsLog(lo: int, hi: int): (ls: seq<Label>)
    ensures lo <= hi ==> |ls| == 8 * (hi - lo)
    decreases hi - lo
  {
    if hi <= lo then []
    else YearsLog(lo, hi - 1) + BothFleets(YearChecks, Some(hi - 1))
  }

  /** Line `i` of the loop's log is about year `lo + i / 8` and check `(i % 8) / 2`, on
      the yellow table when `i` is even. */
  lemma {:induction false} YearsLogLines(lo: int, hi: int)
    ensures forall i :: 0 <= i < |YearsLog(lo, hi)| ==>
      YearsLog(lo, hi)[i]
        == Label(if i % 2 == 0 then Yellow else Green, Deleted(YearChecks[(i % 8) / 2]), Some(lo + i / 8))
    decreases hi - lo
  {
    if lo < hi {
      YearsLogLines(lo, hi - 1);
      var prefix := YearsLog(lo, hi - 1);
      var k := hi - 1 - lo;
      forall i | 0 <= i < |YearsLog(lo, hi)|
        ensures YearsLog(lo, hi)[i] ==
          Label(if i % 2 == 0 then Yellow else Green, Deleted(YearChecks[(i % 8) / 2]), Some(lo + i / 8))
      {
        if |prefix| <= i {
          var j := i - 8 * k;
          LineOfYear(i, k, j);
          assert YearsLog(lo, hi)[i] == BothFleets(YearChecks, Some(hi - 1))[j];
        }
      }
    }
  }

  /** Line `8 * k + j` of the loop's log, with `j` below 8, is line `j` of year `k`. */
  lemma LineOfYear(i: int, k: int, j: int)
    requires i == 8 * k + j && 0 <= j < 8
    ensures i / 8 == k && i % 8 == j && i % 2 == j % 2
  {
    var q, r := i / 8, i % 8;
    assert i == 8 * q + r && 0 <= r < 8;
    assert 8 * (q - k) == j - r && -8 < j - r < 8;
    assert i == 2 * (4 * k) + j && j == 2 * (j / 2) + j % 2;
    assert i == 2 * (4 * k + j / 2) + j % 2;
  }

  /** One year's deletes on one table, in the script's order. */
  function CleanYear(rows: seq<Row>, year: int, yearOf: int -> int): (c: seq<Row>)
    ensures |c| <= |rows|
    ensures forall r :: r in c ==> r in rows
    ensures forall r :: r in c && r.pickup.Some? && yearOf(r.pickup.value) == year ==> Passes(r)
    ensures forall r :: r in rows && (r.pickup.None? || yearOf(r.pickup.value) != year) ==> r in c
  {
    Keep(Keep(Keep(Keep(rows,
      WhereInYear(NoPassengers, year, yearOf)),
      WhereInYear(ZeroDistance, year, yearOf)),
      WhereInYear(TooFar, year, yearOf)),
      WhereInYear(TooLongOrMissing, year, yearOf))
  }

  /** The table after the loop has processed the years `lo` up to, not including, `hi`. */
  function CleanYears(rows: seq<Row>, lo: int, hi: int, yearOf: int -> int): (c: seq<Row>)
    ensures |c| <= |rows|
    ensures forall r :: r in c ==> r in rows
    ensures forall r :: r in rows && (r.pickup.None? || !(lo <= yearOf(r.pickup.value) < hi)) ==> r in c
    decreases hi - lo
  {
    if hi <= lo then rows
    else CleanYear(CleanYears(rows, lo, hi - 1, yearOf), hi - 1, yearOf)
  }

  /** A row none of the four (unscoped) conditions of clean_test.py matches. */
  predicate Passes(r: Row) {
    && r.passengerCount.Some? && r.passengerCount.value != 0
    && r.distance.Some? && r.distance.value != 0.0 && r.distance.value <= MaxDistance
    && r.pickup.Some? && r.dropoff.Some?
    && r.dropoff.value - r.pickup.value <= OneDay
  }

  /** Rows with a pickup in the years `lo` up to `hi` (NULL pickups are in no year). */
  function InYears(lo: int, hi: int, yearOf: int -> int): Row -> Truth {
    (r: Row) => FromBool(r.pickup.Some? && lo <= yearOf(r.pickup.value) < hi)
  }

  /** The reference definition: the rows of those years that fail `Passes`. */
  function FailsInYears(lo: int, hi: int, yearOf: int -> int): Row -> Truth {
    (r: Row) => FromBool(r.pickup.Some? && lo <= yearOf(r.pickup.value) < hi && !Passes(r))
  }

  // ---------------------------------------------------------------------------
  // One year

  /** One year's four deletes remove exactly the rows of that year that fail a check. */
  lemma CleanYearIsOneDelete(rows: seq<Row>, year: int, yearOf: int -> int)
    ensures CleanYear(rows, year, yearOf) == Keep(rows, FailsInYears(year, year + 1, yearOf))
  {
    var p1 := WhereInYear(NoPassengers, year, yearOf);
    var p2 := WhereInYear(ZeroDistance, year, yearOf);
    var p3 := WhereInYear(TooFar, year, yearOf);
    var p4 := WhereInYear(TooLongOrMissing, year, yearOf);
    KeepTwice(rows, p1, p2);
    KeepTwice(rows, AnyOf(p1, p2), p3);
    KeepTwice(rows, AnyOf(AnyOf(p1, p2), p3), p4);
    KeepSameMatches(rows, AnyOf(AnyOf(AnyOf(p1, p2), p3), p4), FailsInYears(year, year + 1, yearOf));
  }

  /** Processing a year leaves the rows of every other year, and those with a NULL
      pickup, exactly as they were: same rows, same number, same order. */
  lemma CleanYearTouchesOnlyItsYear(rows: seq<Row>, year: int, yearOf: int -> int)
    ensures Keep(CleanYear(rows, year, yearOf), InYears(year, year + 1, yearOf))
         == Keep(rows, InYears(year, year + 1, yearOf))
  {
    CleanYearIsOneDelete(rows, year, yearOf);
    KeepAbsorbs(rows, FailsInYears(year, year + 1, yearOf), InYears(year, year + 1, yearOf));
  }

  /** Years can be processed in either order. */
  lemma YearOrderIrrelevant(rows: seq<Row>, y: int, z: int, yearOf: int -> int)
    ensures CleanYear(CleanYear(rows, y, yearOf), z, yearOf)
         == CleanYear(CleanYear(rows, z, yearOf), y, yearOf)
  {
    CleanYearIsOneDelete(rows, y, yearOf);
    CleanYearIsOneDelete(rows, z, yearOf);
    CleanYearIsOneDelete(Keep(rows, FailsInYears(y, y + 1, yearOf)), z, yearOf);
    CleanYearIsOneDelete(Keep(rows, FailsInYears(z, z + 1, yearOf)), y, yearOf);
    KeepCommutes(rows, FailsInYears(y, y + 1, yearOf), FailsInYears(z, z + 1, yearOf));
  }

  // ---------------------------------------------------------------------------
  // The whole loop

  /** The loop over the years `lo` up to `hi` removes exactly the rows of those years
      that fail a check. */
  lemma {:induction false} CleanYearsIsOneDelete(rows: seq<Row>, lo: int, hi: int, yearOf: int -> int)
    ensures CleanYears(rows, lo, hi, yearOf) == Keep(rows, FailsInYears(lo, hi, yearOf))
    decreases hi - lo
  {
    if hi <= lo {
      var none := FailsInYears(lo, hi, yearOf);
      forall r: Row ensures none(r) != True {
        assert none(r) == FromBool(r.pickup.Some? && lo <= yearOf(r.pickup.value) < hi && !Passes(r));
      }
      KeepNothing(rows, none);
    } else {
      CleanYearsIsOneDelete(rows, lo, hi - 1, yearOf);
      var done := FailsInYears(lo, hi - 1, yearOf);
      var next := FailsInYears(hi - 1, hi, yearOf);
      CleanYearIsOneDelete(Keep(rows, done), hi - 1, yearOf);
      KeepTwice(rows, done, next);
      KeepSameMatches(rows, AnyOf(done, next), FailsInYears(lo, hi, yearOf));
    }
  }

  /** A row stays exactly when it was in the table and either has no pickup in the
      years processed (a NULL pickup included) or passes every check. */
  lemma CleanYearsRows(rows: seq<Row>, lo: int, hi: int, yearOf: int -> int)
    ensures forall r :: r in CleanYears(rows, lo, hi, yearOf) <==>
      r in rows && (r.pickup.None? || !(lo <= yearOf(r.pickup.value) < hi) || Passes(r))
  {
    CleanYearsIsOneDelete(rows, lo, hi, yearOf);
    var fails := FailsInYears(lo, hi, yearOf);
    forall r ensures r in Keep(rows, fails) <==>
      r in rows && (r.pickup.None? || !(lo <= yearOf(r.pickup.value) < hi) || Passes(r))
    {
      assert fails(r) == FromBool(r.pickup.Some? && lo <= yearOf(r.pickup.value) < hi && !Passes(r));
    }
  }

  /** After the loop, every row with a pickup year among those processed (2015 through
      2024 in the script) has a non-NULL, non-zero passenger count, a non-NULL, non-zero
      distance of at most 100, a non-NULL dropoff and a duration of at most one day. */
  lemma CleanedYearsValid(rows: seq<Row>, lo: int, hi: int, yearOf: int -> int)
    ensures forall r ::
      (r in CleanYears(rows, lo, hi, yearOf) && r.pickup.Some? && lo <= yearOf(r.pickup.value) < hi)
      ==> Passes(r)
  {
    CleanYearsRows(rows, lo, hi, yearOf);
  }

  /** Rows with a NULL pickup, and rows whose pickup year is outside the years
      processed, are never deleted: same rows, same number, same order. */
  lemma CleanYearsKeepsOthers(rows: seq<Row>, lo: int, hi: int, yearOf: int -> int)
    ensures Keep(CleanYears(rows, lo, hi, yearOf), InYears(lo, hi, yearOf))
         == Keep(rows, InYears(lo, hi, yearOf))
  {
    CleanYearsIsOneDelete(rows, lo, hi, yearOf);
    KeepAbsorbs(rows, FailsInYears(lo, hi, yearOf), InYears(lo, hi, yearOf));
  }

  /** Running the whole loop a second time removes nothing. */
  lemma CleanYearsIdempotent(rows: seq<Row>, lo: int, hi: int, yearOf: int -> int)
    ensures CleanYears(CleanYears(rows, lo, hi, yearOf), lo, hi, yearOf) == CleanYears(rows, lo, hi, yearOf)
  {
    CleanYearsIsOneDelete(rows, lo, hi, yearOf);
    CleanYearsIsOneDelete(CleanYears(rows, lo, hi, yearOf), lo, hi, yearOf);
    KeepIdempotent(rows, FailsInYears(lo, hi, yearOf));
  }

  // ---------------------------------------------------------------------------
  // What the log reports

  /** A table after the first `k` of one year's deletes. */
  function YearStage(rows: seq<Row>, year: int, yearOf: int -> int, k: nat): (t: seq<Row>)
    requires k <= |YearChecks|
    ensures |t| <= |rows|
  {
    if k == 0 then rows
    else Keep(YearStage(rows, year, yearOf, k - 1), WhereInYear(YearChecks[k - 1], year, yearOf))
  }

  /** The year-scoped row count of a table at each of those stages. */
  function YearStageSizes(rows: seq<Row>, year: int, yearOf: int -> int): seq<nat> {
    seq(|YearChecks| + 1, k requires 0 <= k <= |YearChecks| =>
      CountWhere(YearStage(rows, year, yearOf, k), InYear(year, yearOf)))
  }

  /** The eight log lines of one year: each check on yellow and then on green, every
      line with the count of that year's rows before and after its delete. */
  function YearLogFor(yellow: seq<Row>, green: seq<Row>, year: int, yearOf: int -> int): (log: seq<Entry>)
    ensures |log| == 2 * |YearChecks|
  {
    BothFleetsLog(YearChecks, Some(year),
      YearStageSizes(yellow, year, yearOf), YearStageSizes(green, year, yearOf))
  }

  /** The logs of the years `lo` up to, not including, `hi`, one after another, where
      `block(year)` is the eight lines of one year. */
  function YearBlocks(block: int -> seq<Entry>, lo: int, hi: int): (log: seq<Entry>)
    requires forall year :: |block(year)| == 8
    ensures lo <= hi ==> |log| == 8 * (hi - lo)
    decreases hi - lo
  {
    if hi <= lo then [] else YearBlocks(block, lo, hi - 1) + block(hi - 1)
  }

  /** The log the loop writes for loaded tables `yellow` and `green` over the years `lo`
      up to, not including, `hi`: each year's lines, counted on the tables the earlier
      years left. */
  function YearsLogFor(yellow: seq<Row>, green: seq<Row>, lo: int, hi: int, yearOf: int -> int): seq<Entry> {
    YearBlocks(YearOfLoop(yellow, green, lo, yearOf), lo, hi)
  }

  /** The eight lines the loop started at `lo` writes for `year`, counted on the tables
      the years before it left. */
  function YearOfLoop(yellow: seq<Row>, green: seq<Row>, lo: int, yearOf: int -> int): (block: int -> seq<Entry>)
    ensures forall year :: |block(year)| == 8
  {
    year => YearLogFor(CleanYears(yellow, lo, year, yearOf), CleanYears(green, lo, year, yearOf), year, yearOf)
  }

  /** The stages end in what the year's pass leaves. */
  lemma LastYearStageIsCleanYear(rows: seq<Row>, year: int, yearOf: int -> int)
    ensures YearStage(rows, year, yearOf, |YearChecks|) == CleanYear(rows, year, yearOf)
  {
    assert YearStage(rows, year, yearOf, 1) == Keep(rows, WhereInYear(NoPassengers, year, yearOf));
    assert YearStage(rows, year, yearOf, 2)
        == Keep(YearStage(rows, year, yearOf, 1), WhereInYear(ZeroDistance, year, yearOf));
    assert YearStage(rows, year, yearOf, 3)
        == Keep(YearStage(rows, year, yearOf, 2), WhereInYear(TooFar, year, yearOf));
  }

  /** Delete `k` of a year lowers that year's count by exactly the rows it matches, which
      is also the number of rows the table loses. */
  lemma YearStageDrop(rows: seq<Row>, year: int, yearOf: int -> int, k: nat)
    requires k < |YearChecks|
    ensures CountWhere(YearStage(rows, year, yearOf, k), InYear(year, yearOf))
          - CountWhere(YearStage(rows, year, yearOf, k + 1), InYear(year, yearOf))
         == CountWhere(YearStage(rows, year, yearOf, k), WhereInYear(YearChecks[k], year, yearOf))
         == |YearStage(rows, year, yearOf, k)| - |YearStage(rows, year, yearOf, k + 1)|
  {
    YearDeleteDrop(YearStage(rows, year, yearOf, k), YearChecks[k], year, yearOf);
  }

  /** A year-scoped delete lowers the year's count by the rows it matches, which are
      also the rows the table loses. */
  lemma YearDeleteDrop(rows: seq<Row>, c: Check, year: int, yearOf: int -> int)
    ensures CountWhere(rows, InYear(year, yearOf))
          - CountWhere(Keep(rows, WhereInYear(c, year, yearOf)), InYear(year, yearOf))
         == CountWhere(rows, WhereInYear(c, year, yearOf))
         == |rows| - |Keep(rows, WhereInYear(c, year, yearOf))|
  {
    var p := WhereInYear(c, year, yearOf);
    CountAfterKeep(rows, p, InYear(year, yearOf));
    KeepCount(rows, p);
  }

  /** Line `2 * k` of a year's log is check `k` on yellow and line `2 * k + 1` the same
      check on green, each with the year's counts on the stages around it. */
  lemma YearLogLines(yellow: seq<Row>, green: seq<Row>, year: int, yearOf: int -> int)
    ensures forall k :: 0 <= k < |YearChecks| ==>
      && YearLogFor(yellow, green, year, yearOf)[2 * k]
           == Entry(Yellow, Deleted(YearChecks[k]), Some(year),
                    CountWhere(YearStage(yellow, year, yearOf, k), InYear(year, yearOf)),
                    CountWhere(YearStage(yellow, year, yearOf, k + 1), InYear(year, yearOf)))
      && YearLogFor(yellow, green, year, yearOf)[2 * k + 1]
           == Entry(Green, Deleted(YearChecks[k]), Some(year),
                    CountWhere(YearStage(green, year, yearOf, k), InYear(year, yearOf)),
                    CountWhere(YearStage(green, year, yearOf, k + 1), InYear(year, yearOf)))
  {
    var ys, gs := YearStageSizes(yellow, year, yearOf), YearStageSizes(green, year, yearOf);
    var log := YearLogFor(yellow, green, year, yearOf);
    var inYear := InYear(year, yearOf);
    forall k | 0 <= k < |YearChecks|
      ensures log[2 * k] == Entry(Yellow, Deleted(YearChecks[k]), Some(year),
        CountWhere(YearStage(yellow, year, yearOf, k), inYear), CountWhere(YearStage(yellow, year, yearOf, k + 1), inYear))
      ensures log[2 * k + 1] == Entry(Green, Deleted(YearChecks[k]), Some(year),
        CountWhere(YearStage(green, year, yearOf, k), inYear), CountWhere(YearStage(green, year, yearOf, k + 1), inYear))
    {
      assert log[2 * k] == Entry(Yellow, Deleted(YearChecks[k]), Some(year), ys[k], ys[k + 1]);
      assert log[2 * k + 1] == Entry(Green, Deleted(YearChecks[k]), Some(year), gs[k], gs[k + 1]);
    }
  }

  /** What each line of a year's log reports: check `k` drops, from each table, exactly
      the rows of that year it matches in the table it runs on, and as many rows as the
      table loses. */
  lemma YearLogDrops(yellow: seq<Row>, green: seq<Row>, year: int, yearOf: int -> int)
    ensures forall k :: 0 <= k < |YearChecks| ==>
      && YearLogFor(yellow, green, year, yearOf)[2 * k].before - YearLogFor(yellow, green, year, yearOf)[2 * k].after
           == CountWhere(YearStage(yellow, year, yearOf, k), WhereInYear(YearChecks[k], year, yearOf))
           == |YearStage(yellow, year, yearOf, k)| - |YearStage(yellow, year, yearOf, k + 1)|
      && YearLogFor(yellow, green, year, yearOf)[2 * k + 1].before - YearLogFor(yellow, green, year, yearOf)[2 * k + 1].after
           == CountWhere(YearStage(green, year, yearOf, k), WhereInYear(YearChecks[k], year, yearOf))
           == |YearStage(green, year, yearOf, k)| - |YearStage(green, year, yearOf, k + 1)|
  {
    YearLogLines(yellow, green, year, yearOf);
    forall k | 0 <= k < |YearChecks|
      ensures YearLogFor(yellow, green, year, yearOf)[2 * k].before - YearLogFor(yellow, green, year, yearOf)[2 * k].after
           == CountWhere(YearStage(yellow, year, yearOf, k), WhereInYear(YearChecks[k], year, yearOf))
           == |YearStage(yellow, year, yearOf, k)| - |YearStage(yellow, year, yearOf, k + 1)|
      ensures YearLogFor(yellow, green, year, yearOf)[2 * k + 1].before - YearLogFor(yellow, green, year, yearOf)[2 * k + 1].after
           == CountWhere(YearStage(green, year, yearOf, k), WhereInYear(YearChecks[k], year, yearOf))
           == |YearStage(green, year, yearOf, k)| - |YearStage(green, year, yearOf, k + 1)|
    {
      YearStageDrop(yellow, year, yearOf, k);
      YearStageDrop(green, year, yearOf, k);
    }
  }

  /** In a run of years' logs, the eight lines from `8 * (year - lo)` on are the log of
      `year`. */
  lemma {:induction false} YearBlocksAt(block: int -> seq<Entry>, lo: int, hi: int, year: int)
    requires forall y :: |block(y)| == 8
    requires lo <= year < hi
    ensures YearBlocks(block, lo, hi)[8 * (year - lo)..8 * (year - lo) + 8] == block(year)
    decreases hi - lo
  {
    var prefix := YearBlocks(block, lo, hi - 1);
    assert YearBlocks(block, lo, hi) == prefix + block(hi - 1);
    if year < hi - 1 {
      YearBlocksAt(block, lo, hi - 1, year);
      assert (prefix + block(hi - 1))[8 * (year - lo)..8 * (year - lo) + 8]
          == prefix[8 * (year - lo)..8 * (year - lo) + 8];
    } else {
      assert (prefix + block(hi - 1))[|prefix|..] == block(hi - 1);
    }
  }

  /** In the loop's log, the eight lines from `8 * (year - lo)` on are the log of `year`,
      counted on the tables the years before it left. */
  lemma YearsLogForYear(yellow: seq<Row>, green: seq<Row>, lo: int, hi: int, yearOf: int -> int)
    ensures forall year :: lo <= year < hi ==>
      YearsLogFor(yellow, green, lo, hi, yearOf)[8 * (year - lo)..8 * (year - lo) + 8]
        == YearLogFor(CleanYears(yellow, lo, year, yearOf), CleanYears(green, lo, year, yearOf), year, yearOf)
  {
    forall year | lo <= year < hi
      ensures YearsLogFor(yellow, green, lo, hi, yearOf)[8 * (year - lo)..8 * (year - lo) + 8]
        == YearLogFor(CleanYears(yellow, lo, year, yearOf), CleanYears(green, lo, year, yearOf), year, yearOf)
    {
      YearBlocksAt(YearOfLoop(yellow, green, lo, yearOf), lo, hi, year);
    }
  }

  // ---------------------------------------------------------------------------
  /** Year-scoped deletes appended pair by pair in the script's order make up one year's
      log, whatever counts they report. */
  lemma YearLogChain(ys: seq<nat>, gs: seq<nat>, year: int,
                     l0: seq<Entry>, l1: seq<Entry>, l2: seq<Entry>, l3: seq<Entry>, l4: seq<Entry>)
    requires |ys| == 5 && |gs| == 5
    requires l1 == l0 + [Entry(Yellow, Deleted(NoPassengers), Some(year), ys[0], ys[1]),
                         Entry(Green, Deleted(NoPassengers), Some(year), gs[0], gs[1])]
    requires l2 == l1 + [Entry(Yellow, Deleted(ZeroDistance), Some(year), ys[1], ys[2]),
                         Entry(Green, Deleted(ZeroDistance), Some(year), gs[1], gs[2])]
    requires l3 == l2 + [Entry(Yellow, Deleted(TooFar), Some(year), ys[2], ys[3]),
                         Entry(Green, Deleted(TooFar), Some(year), gs[2], gs[3])]
    requires l4 == l3 + [Entry(Yellow, Deleted(TooLongOrMissing), Some(year), ys[3], ys[4]),
                         Entry(Green, Deleted(TooLongOrMissing), Some(year), gs[3], gs[4])]
    ensures l4 == l0 + BothFleetsLog(YearChecks, Some(year), ys, gs)
  {
    BothFleetsLogOfFour(YearChecks, Some(year), ys, gs);
  }

  /** The tables one year's deletes leave, one after another, are that year's stages. */
  lemma YearStageTables(rows: seq<Row>, year: int, yearOf: int -> int,
                        t1: seq<Row>, t2: seq<Row>, t3: seq<Row>, t4: seq<Row>)
    requires t1 == Keep(rows, WhereInYear(NoPassengers, year, yearOf))
    requires t2 == Keep(t1, WhereInYear(ZeroDistance, year, yearOf))
    requires t3 == Keep(t2, WhereInYear(TooFar, year, yearOf))
    requires t4 == Keep(t3, WhereInYear(TooLongOrMissing, year, yearOf))
    ensures YearStage(rows, year, yearOf, 1) == t1 && YearStage(rows, year, yearOf, 2) == t2
    ensures YearStage(rows, year, yearOf, 3) == t3 && YearStage(rows, year, yearOf, 4) == t4
  {
    assert YearStage(rows, year, yearOf, 1) == t1;
    assert YearStage(rows, year, yearOf, 2) == t2;
    assert YearStage(rows, year, yearOf, 3) == t3;
  }

  /** The year-scoped counts of a table's stages are its stage sizes, and the last stage
      is what one pass of the year loop leaves. */
  lemma YearStagesAre(rows: seq<Row>, year: int, yearOf: int -> int,
                      t1: seq<Row>, t2: seq<Row>, t3: seq<Row>, t4: seq<Row>)
    requires YearStage(rows, year, yearOf, 1) == t1 && YearStage(rows, year, yearOf, 2) == t2
    requires YearStage(rows, year, yearOf, 3) == t3 && YearStage(rows, year, yearOf, 4) == t4
    ensures var sizes := YearStageSizes(rows, year, yearOf);
      && |sizes| == 5
      && sizes[0] == CountWhere(rows, InYear(year, yearOf))
      && sizes[1] == CountWhere(t1, InYear(year, yearOf))
      && sizes[2] == CountWhere(t2, InYear(year, yearOf))
      && sizes[3] == CountWhere(t3, InYear(year, yearOf))
      && sizes[4] == CountWhere(t4, InYear(year, yearOf))
    ensures t4 == CleanYear(rows, year, yearOf)
  {
    LastYearStageIsCleanYear(rows, year, yearOf);
  }

  /** No year, no log lines. */
  lemma YearsLogForNone(yellow: seq<Row>, green: seq<Row>, lo: int, hi: int, yearOf: int -> int)
    requires hi <= lo
    ensures YearsLogFor(yellow, green, lo, hi, yearOf) == []
  {
  }

  /** The log of the years `lo` to `year + 1` is the log of the years before `year`
      followed by the block one pass writes for `year` on the tables those years left. */
  lemma YearsLogForNext(yellow: seq<Row>, green: seq<Row>, lo: int, year: int, yearOf: int -> int,
                        log: seq<Entry>, log': seq<Entry>)
    requires lo <= year
    requires log == YearsLogFor(yellow, green, lo, year, yearOf)
    requires log' == log + YearLogFor(CleanYears(yellow, lo, year, yearOf), CleanYears(green, lo, year, yearOf), year, yearOf)
    ensures log' == YearsLogFor(yellow, green, lo, year + 1, yearOf)
  {
  }

  /** The lines of the loop's log carry the labels `YearsLog` lists. */
  lemma {:induction false} YearsLogForLabels(yellow: seq<Row>, green: seq<Row>, lo: int, hi: int, yearOf: int -> int)
    ensures Labels(YearsLogFor(yellow, green, lo, hi, yearOf)) == YearsLog(lo, hi)
    decreases hi - lo
  {
    if hi <= lo {
      YearsLogForNone(yellow, green, lo, hi, yearOf);
    } else {
      var before := YearsLogFor(yellow, green, lo, hi - 1, yearOf);
      var y, g := CleanYears(yellow, lo, hi - 1, yearOf), CleanYears(green, lo, hi - 1, yearOf);
      var block := YearLogFor(y, g, hi - 1, yearOf);
      YearsLogForNext(yellow, green, lo, hi - 1, yearOf, before, before + block);
      YearsLogForLabels(yellow, green, lo, hi - 1, yearOf);
      LabelsOfAppend(before, block);
      BothFleetsLogLabels(YearChecks, Some(hi - 1), YearStageSizes(y, hi - 1, yearOf), YearStageSizes(g, hi - 1, yearOf));
    }
  }

  // The script

  /** One year-scoped delete with its year-scoped counts before and after: the drop is
      exactly the number of rows of that year the condition matched, and also the
      number of rows the table lost. */
  method DeleteInYearAndLog(db: Tables, f: Fleet, c: Check, year: int, yearOf: int -> int, log: seq<Entry>)
    returns (log': seq<Entry>)
    modifies db
    ensures db.Table(f) == Keep(old(db.Table(f)), WhereInYear(c, year, yearOf))
    ensures db.Table(f.Other()) == old(db.Table(f.Other()))
    ensures log' == log + [Entry(f, Deleted(c), Some(year), CountWhere(old(db.Table(f)), InYear(year, yearOf)),
                                 CountWhere(db.Table(f), InYear(year, yearOf)))]
    ensures |log'| == |log| + 1 && log'[..|log|] == log
    ensures Labels(log') == Labels(log) + [Label(f, Deleted(c), Some(year))]
    ensures log'[|log|].before - log'[|log|].after
         == CountWhere(old(db.Table(f)), WhereInYear(c, year, yearOf))
         == |old(db.Table(f))| - |db.Table(f)|
    ensures NeverNegative(log) ==> NeverNegative(log')
    ensures Dropped(log', f) == Dropped(log, f) + |old(db.Table(f))| - |db.Table(f)|
    ensures Dropped(log', f.Other()) == Dropped(log, f.Other())
  {
    ghost var rows := db.Table(f);
    var before := db.Count(f, InYear(year, yearOf));
    db.Delete(f, WhereInYear(c, year, yearOf));
    var after := db.Count(f, InYear(year, yearOf));
    YearDeleteDrop(rows, c, year, yearOf);
    log' := log + [Entry(f, Deleted(c), Some(year), before, after)];
    assert log'[..|log|] == log;
  }

  /** One check of one year on both fleets, yellow first, as the script orders them. */
  method DeleteBothInYearAndLog(db: Tables, c: Check, year: int, yearOf: int -> int, log: seq<Entry>)
    returns (log': seq<Entry>)
    modifies db
    ensures db.yellow == Keep(old(db.yellow), WhereInYear(c, year, yearOf))
    ensures db.green == Keep(old(db.green), WhereInYear(c, year, yearOf))
    ensures log' == log + [Entry(Yellow, Deleted(c), Some(year), CountWhere(old(db.yellow), InYear(year, yearOf)),
                                 CountWhere(db.yellow, InYear(year, yearOf))),
                           Entry(Green, Deleted(c), Some(year), CountWhere(old(db.green), InYear(year, yearOf)),
                                 CountWhere(db.green, InYear(year, yearOf)))]
    ensures log'[|log|].before - log'[|log|].after == CountWhere(old(db.yellow), WhereInYear(c, year, yearOf))
    ensures log'[|log| + 1].before - log'[|log| + 1].after == CountWhere(old(db.green), WhereInYear(c, year, yearOf))
    ensures |log'| == |log| + 2 && log'[..|log|] == log
    ensures Labels(log') == Labels(log) + [Label(Yellow, Deleted(c), Some(year)), Label(Green, Deleted(c), Some(year))]
    ensures NeverNegative(log) ==> NeverNegative(log')
    ensures Dropped(log', Yellow) == Dropped(log, Yellow) + |old(db.yellow)| - |db.yellow|
    ensures Dropped(log', Green) == Dropped(log, Green) + |old(db.green)| - |db.green|
  {
    var mid := DeleteInYearAndLog(db, Yellow, c, year, yearOf, log);
    log' := DeleteInYearAndLog(db, Green, c, year, yearOf, mid);
    assert log' == log + [mid[|log|], log'[|log| + 1]];
    PrefixOfPrefix(log, mid, log');
    LabelsOfAppend(log, [mid[|log|], log'[|log| + 1]]);
  }

  /** One pass of the year loop: the four year-scoped deletes on both fleets, each
      logged, then a VACUUM of both tables. */
  method CleanYearAndLog(db: Tables, year: int, yearOf: int -> int, log: seq<Entry>)
    returns (log': seq<Entry>)
    modifies db
    ensures db.yellow == CleanYear(old(db.yellow), year, yearOf)
    ensures db.green == CleanYear(old(db.green), year, yearOf)
    ensures log' == log + YearLogFor(old(db.yellow), old(db.green), year, yearOf)
    ensures |log'| == |log| + 8 && log'[..|log|] == log
    ensures Labels(log') == Labels(log) + BothFleets(YearChecks, Some(year))
    ensures NeverNegative(log) ==> NeverNegative(log')
    ensures Dropped(log', Yellow) == Dropped(log, Yellow) + |old(db.yellow)| - |db.yellow|
    ensures Dropped(log', Green) == Dropped(log, Green) + |old(db.green)| - |db.green|
  {
    ghost var yellow, green := db.yellow, db.green;
    var l1 := DeleteBothInYearAndLog(db, NoPassengers, year, yearOf, log);
    ghost var y1, g1 := db.yellow, db.green;
    var l2 := DeleteBothInYearAndLog(db, ZeroDistance, year, yearOf, l1);
    ghost var y2, g2 := db.yellow, db.green;
    var l3 := DeleteBothInYearAndLog(db, TooFar, year, yearOf, l2);
    ghost var y3, g3 := db.yellow, db.green;
    log' := DeleteBothInYearAndLog(db, TooLongOrMissing, year, yearOf, l3);
    YearStageTables(yellow, year, yearOf, y1, y2, y3, db.yellow);
    YearStageTables(green, year, yearOf, g1, g2, g3, db.green);
    YearStagesAre(yellow, year, yearOf, y1, y2, y3, db.yellow);
    YearStagesAre(green, year, yearOf, g1, g2, g3, db.green);
    YearLogChain(YearStageSizes(yellow, year, yearOf), YearStageSizes(green, year, yearOf), year, log, l1, l2, l3, log');
    PrefixOfPrefix(log, l1, l2);
    PrefixOfPrefix(log, l2, l3);
    PrefixOfPrefix(log, l3, log');
    YearLabelsChain(Labels(log), Labels(l1), Labels(l2), Labels(l3), Labels(log'), year);
    db.Vacuum(Yellow);
    db.Vacuum(Green);
  }

  /** `for year in years`: one pass per year from `lo` up to, not including, `hi`. */
  method CleanYearsAndLog(db: Tables, lo: int, hi: int, yearOf: int -> int) returns (log: seq<Entry>)
    modifies db
    ensures db.yellow == CleanYears(old(db.yellow), lo, hi, yearOf)
    ensures db.green == CleanYears(old(db.green), lo, hi, yearOf)
    ensures log == YearsLogFor(old(db.yellow), old(db.green), lo, hi, yearOf)
    ensures |log| == 8 * (if lo <= hi then hi - lo else 0) && NeverNegative(log)
    ensures Labels(log) == YearsLog(lo, hi)
    ensures forall i :: 0 <= i < |log| ==>
      Labels(log)[i] == Label(if i % 2 == 0 then Yellow else Green, Deleted(YearChecks[(i % 8) / 2]), Some(lo + i / 8))
    ensures forall year :: lo <= year < hi ==>
      log[8 * (year - lo)..8 * (year - lo) + 8]
        == YearLogFor(CleanYears(old(db.yellow), lo, year, yearOf),
                      CleanYears(old(db.green), lo, year, yearOf), year, yearOf)
    ensures Dropped(log, Yellow) == |old(db.yellow)| - |db.yellow|
    ensures Dropped(log, Green) == |old(db.green)| - |db.green|
  {
    log := [];
    if hi < lo {
      YearsLogForNone(old(db.yellow), old(db.green), lo, hi, yearOf);
      return;
    }
    for year := lo to hi
      invariant db.yellow == CleanYears(old(db.yellow), lo, year, yearOf)
      invariant db.green == CleanYears(old(db.green), lo, year, yearOf)
      invariant log == YearsLogFor(old(db.yellow), old(db.green), lo, year, yearOf)
      invariant |log| == 8 * (year - lo) && NeverNegative(log)
      invariant Dropped(log, Yellow) == |old(db.yellow)| - |db.yellow|
      invariant Dropped(log, Green) == |old(db.green)| - |db.green|
    {
      ghost var before := log;
      log := CleanYearAndLog(db, year, yearOf, log);
      YearsLogForNext(old(db.yellow), old(db.green), lo, year, yearOf, before, log);
    }
    YearsLogForLabels(old(db.yellow), old(db.green), lo, hi, yearOf);
    YearsLogLines(lo, hi);
    YearsLogForYear(old(db.yellow), old(db.green), lo, hi, yearOf);
  }

  /** `clean_tables`: the year loop over 2015 through 2024. Line `i` of its log is about
      year `2015 + i / 8` and check `(i % 8) / 2`, on the yellow table when `i` is even;
      the log is `YearsLogFor`, so `YearsLogForYear` and `YearLogDrops` say what each
      line counts. */
  method CleanTables(db: Tables, yearOf: int -> int) returns (log: seq<Entry>)
    modifies db
    ensures db.yellow == CleanYears(old(db.yellow), FirstYear, EndYear, yearOf)
    ensures db.green == CleanYears(old(db.green), FirstYear, EndYear, yearOf)
    ensures |log| == 8 * (EndYear - FirstYear) && NeverNegative(log)
    ensures Labels(log) == YearsLog(FirstYear, EndYear)
    ensures forall i :: 0 <= i < |log| ==>
      Labels(log)[i]
        == Label(if i % 2 == 0 then Yellow else Green, Deleted(YearChecks[(i % 8) / 2]), Some(FirstYear + i / 8))
    ensures log == YearsLogFor(old(db.yellow), old(db.green), FirstYear, EndYear, yearOf)
    ensures Dropped(log, Yellow) == |old(db.yellow)| - |db.yellow|
    ensures Dropped(log, Green) == |old(db.green)| - |db.green|
  {
    log := CleanYearsAndLog(db, FirstYear, EndYear, yearOf);
  }
}

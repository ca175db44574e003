/** scripts/clean.py: de-duplicate each fleet table, run the four whole-table deletes
    on both fleets with before/after row counts, then count what is left to flag. */
module Clean {
  import opened Sql
  import opened Trips
  import opened TripDatabase

  /** The deletes of clean.py, in the order the script runs them. */
  const Checks: seq<Check> := [NoPassengers, ZeroDistance, TooFar, TooLongOrNoPickup]

  /** The log lines of clean.py in the order it writes them: the duplicates of yellow,
      then of green, then each delete on yellow and then on green. None is year-scoped. */
  const CleanLog: seq<Label> :=
    [Label(Yellow, Duplicates, None), Label(Green, Duplicates, None)] + BothFleets(Checks, None)

  /** What clean.py leaves of a fleet table: its distinct rows, less those the four
      deletes match, applied in the script's order. Every remaining row was loaded
      and passes every delete, and the table never grows. */
  function Cleaned(rows: seq<Row>): (c: seq<Row>)
    ensures |c| <= |rows|
    ensures forall r :: r in c ==> r in rows && Survives(r)
  {
    Keep(Keep(Keep(Keep(Distinct(rows),
      Where(NoPassengers)), Where(ZeroDistance)), Where(TooFar)), Where(TooLongOrNoPickup))
  }

  /** The table after clean.py's de-duplication and its first `k` deletes. */
  function Stage(rows: seq<Row>, k: nat): (t: seq<Row>)
    requires k <= |Checks|
    ensures |t| <= |rows|
  {
    if k == 0 then Distinct(rows) else Keep(Stage(rows, k - 1), Where(Checks[k - 1]))
  }

  /** The row count of a table at each stage, from its distinct rows to what is left. */
  function StageSizes(rows: seq<Row>): seq<nat> {
    seq(|Checks| + 1, k requires 0 <= k <= |Checks| => |Stage(rows, k)|)
  }

  /** The log clean.py writes for loaded tables `yellow` and `green`: the duplicates of
      yellow, then of green, then each delete on yellow and then on green, every line
      with the row count before and after its step. */
  function CleanLogFor(yellow: seq<Row>, green: seq<Row>): (log: seq<Entry>)
    ensures |log| == 2 + 2 * |Checks|
  {
    [Entry(Yellow, Duplicates, None, |yellow|, |Stage(yellow, 0)|),
     Entry(Green, Duplicates, None, |green|, |Stage(green, 0)|)]
      + BothFleetsLog(Checks, None, StageSizes(yellow), StageSizes(green))
  }

  /** A row none of the four deletes of clean.py matches. A negative passenger count,
      a negative distance, a negative duration and a NULL dropoff all pass: the
      duration delete tests `pickup_datetime IS NULL` twice and the dropoff never. */
  predicate Survives(r: Row) {
    && r.passengerCount.Some? && r.passengerCount.value != 0
    && r.distance.Some? && r.distance.value != 0.0 && r.distance.value <= MaxDistance
    && r.pickup.Some?
    && (r.dropoff.Some? ==> r.dropoff.value - r.pickup.value <= OneDay)
  }

  /** The reference definition: one delete of every row that fails `Survives`. */
  function Fails(): Row -> Truth {
    r => FromBool(!Survives(r))
  }

  /** The residual counts the verification step of clean.py reports for one table. */
  datatype Residuals = Residuals(
    duplicates: nat, zeroPassengers: nat, zeroLength: nat, overHundred: nat, overOneDay: nat)

  const NoResiduals := Residuals(0, 0, 0, 0, 0)

  datatype Report = Report(yellow: Residuals, green: Residuals)

  // ---------------------------------------------------------------------------
  // What the pipeline leaves

  /** The four deletes in sequence remove exactly the rows one delete on `Fails`
      would remove, from the de-duplicated table. */
  lemma CleanedIsOneDelete(rows: seq<Row>)
    ensures Cleaned(rows) == Keep(Distinct(rows), Fails())
  {
    var d := Distinct(rows);
    var p1, p2, p3, p4 := Where(NoPassengers), Where(ZeroDistance), Where(TooFar), Where(TooLongOrNoPickup);
    KeepTwice(d, p1, p2);
    KeepTwice(d, AnyOf(p1, p2), p3);
    KeepTwice(d, AnyOf(AnyOf(p1, p2), p3), p4);
    KeepSameMatches(d, AnyOf(AnyOf(AnyOf(p1, p2), p3), p4), Fails());
  }

  /** A row stays exactly when it was in the table and passes every delete. */
  lemma CleanedRows(rows: seq<Row>)
    ensures forall r :: r in Cleaned(rows) <==> r in rows && Survives(r)
  {
    CleanedIsOneDelete(rows);
  }

  /** The cleaned table has no duplicate rows, and its rows appear in the order of
      the de-duplicated table. */
  lemma CleanedIsDuplicateFree(rows: seq<Row>)
    ensures NoDuplicates(Cleaned(rows))
    ensures SubsequenceOf(Cleaned(rows), Distinct(rows))
  {
    CleanedIsOneDelete(rows);
    KeepKeepsNoDuplicates(Distinct(rows), Fails());
    KeepIsSubsequence(Distinct(rows), Fails());
  }

  /** Running clean.py a second time removes nothing. */
  lemma CleanedIdempotent(rows: seq<Row>)
    ensures Cleaned(Cleaned(rows)) == Cleaned(rows)
  {
    var c := Cleaned(rows);
    CleanedIsDuplicateFree(rows);
    CleanedIsOneDelete(rows);
    CleanedIsOneDelete(c);
    DistinctOfDuplicateFree(c);
    KeepIdempotent(Distinct(rows), Fails());
  }

  /** The quirk of the duration delete: a valid row whose dropoff is NULL is kept. */
  lemma NullDropoffKept(rows: seq<Row>, r: Row)
    requires r in rows && r.dropoff.None?
    requires r.passengerCount.Some? && r.passengerCount.value != 0
    requires r.distance.Some? && r.distance.value != 0.0 && r.distance.value <= MaxDistance
    requires r.pickup.Some?
    ensures r in Cleaned(rows)
  {
    CleanedRows(rows);
  }

  /** Every count of the verification step comes out zero on a cleaned table. */
  lemma CleanedHasNoResiduals(rows: seq<Row>)
    ensures DuplicateCount(Cleaned(rows)) == 0
    ensures CountWhere(Cleaned(rows), WhereShows(ZeroPassengers)) == 0
    ensures CountWhere(Cleaned(rows), WhereShows(ZeroLength)) == 0
    ensures CountWhere(Cleaned(rows), WhereShows(OverHundred)) == 0
    ensures CountWhere(Cleaned(rows), WhereShows(OverOneDay)) == 0
  {
    CleanedIsDuplicateFree(rows);
    CleanedRows(rows);
  }

  /** The stages end in what clean.py leaves. */
  lemma LastStageIsCleaned(rows: seq<Row>)
    ensures Stage(rows, |Checks|) == Cleaned(rows)
  {
    assert Stage(rows, 1) == Keep(Distinct(rows), Where(NoPassengers));
    assert Stage(rows, 2) == Keep(Stage(rows, 1), Where(ZeroDistance));
    assert Stage(rows, 3) == Keep(Stage(rows, 2), Where(TooFar));
    assert Stage(rows, 4) == Keep(Stage(rows, 3), Where(TooLongOrNoPickup));
  }

  /** Delete `k` takes a table from stage `k` to stage `k + 1` by removing exactly the
      rows its condition matches. */
  lemma StageDrop(rows: seq<Row>, k: nat)
    requires k < |Checks|
    ensures |Stage(rows, k)| - |Stage(rows, k + 1)| == CountWhere(Stage(rows, k), Where(Checks[k]))
  {
    KeepCount(Stage(rows, k), Where(Checks[k]));
  }

  /** Line `2 + 2 * k` of clean.py's log is delete `k` on yellow and line `3 + 2 * k`
      the same delete on green, each with the row counts of the stages around it. */
  lemma CleanLogLines(yellow: seq<Row>, green: seq<Row>)
    ensures forall k :: 0 <= k < |Checks| ==>
      && CleanLogFor(yellow, green)[2 + 2 * k]
           == Entry(Yellow, Deleted(Checks[k]), None, |Stage(yellow, k)|, |Stage(yellow, k + 1)|)
      && CleanLogFor(yellow, green)[3 + 2 * k]
           == Entry(Green, Deleted(Checks[k]), None, |Stage(green, k)|, |Stage(green, k + 1)|)
  {
    var log := CleanLogFor(yellow, green);
    var lines := BothFleetsLog(Checks, None, StageSizes(yellow), StageSizes(green));
    forall k | 0 <= k < |Checks|
      ensures log[2 + 2 * k] == Entry(Yellow, Deleted(Checks[k]), None, |Stage(yellow, k)|, |Stage(yellow, k + 1)|)
      ensures log[3 + 2 * k] == Entry(Green, Deleted(Checks[k]), None, |Stage(green, k)|, |Stage(green, k + 1)|)
    {
      assert log[2 + 2 * k] == lines[2 * k] && log[3 + 2 * k] == lines[2 * k + 1];
      assert lines[2 * k] == Entry(Yellow, Deleted(Checks[k]), None, StageSizes(yellow)[k], StageSizes(yellow)[k + 1]);
      assert lines[2 * k + 1] == Entry(Green, Deleted(Checks[k]), None, StageSizes(green)[k], StageSizes(green)[k + 1]);
    }
  }

  /** What each of clean.py's log lines reports: the two de-duplication lines drop the
      duplicate count of their table, and delete `k` drops, from each table, exactly the
      rows its condition matches in the table it runs on. */
  lemma CleanLogDrops(yellow: seq<Row>, green: seq<Row>)
    ensures CleanLogFor(yellow, green)[0].before - CleanLogFor(yellow, green)[0].after == DuplicateCount(yellow)
    ensures CleanLogFor(yellow, green)[1].before - CleanLogFor(yellow, green)[1].after == DuplicateCount(green)
    ensures forall k :: 0 <= k < |Checks| ==>
      && CleanLogFor(yellow, green)[2 + 2 * k].before - CleanLogFor(yellow, green)[2 + 2 * k].after
           == CountWhere(Stage(yellow, k), Where(Checks[k]))
      && CleanLogFor(yellow, green)[3 + 2 * k].before - CleanLogFor(yellow, green)[3 + 2 * k].after
           == CountWhere(Stage(green, k), Where(Checks[k]))
  {
    CleanLogLines(yellow, green);
    var log := CleanLogFor(yellow, green);
    forall k | 0 <= k < |Checks|
      ensures log[2 + 2 * k].before - log[2 + 2 * k].after == CountWhere(Stage(yellow, k), Where(Checks[k]))
      ensures log[3 + 2 * k].before - log[3 + 2 * k].after == CountWhere(Stage(green, k), Where(Checks[k]))
    {
      StageDrop(yellow, k);
      StageDrop(green, k);
    }
  }

  // ---------------------------------------------------------------------------
  // The script

  /** De-duplicate one table, logging the row counts before and after. */
  method DedupAndLog(db: Tables, f: Fleet, log: seq<Entry>) returns (log': seq<Entry>)
    modifies db
    ensures db.Table(f) == Distinct(old(db.Table(f)))
    ensures db.Table(f.Other()) == old(db.Table(f.Other()))
    ensures log' == log + [Entry(f, Duplicates, None, |old(db.Table(f))|, |db.Table(f)|)]
    ensures Labels(log') == Labels(log) + [Label(f, Duplicates, None)]
    ensures NeverNegative(log) ==> NeverNegative(log')
    ensures Dropped(log', f) == Dropped(log, f) + |old(db.Table(f))| - |db.Table(f)|
    ensures Dropped(log', f.Other()) == Dropped(log, f.Other())
  {
    var before := db.CountAll(f);
    db.ReplaceWithDistinct(f);
    var after := db.CountAll(f);
    log' := log + [Entry(f, Duplicates, None, before, after)];
    assert log'[..|log|] == log;
  }

  /** One whole-table delete, logging the row counts before and after: the drop is
      exactly the number of rows the condition matched. */
  method DeleteAndLog(db: Tables, f: Fleet, c: Check, log: seq<Entry>) returns (log': seq<Entry>)
    modifies db
    ensures db.Table(f) == Keep(old(db.Table(f)), Where(c))
    ensures db.Table(f.Other()) == old(db.Table(f.Other()))
    ensures log' == log + [Entry(f, Deleted(c), None, |old(db.Table(f))|, |db.Table(f)|)]
    ensures Labels(log') == Labels(log) + [Label(f, Deleted(c), None)]
    ensures log'[|log|].before - log'[|log|].after == CountWhere(old(db.Table(f)), Where(c))
    ensures NeverNegative(log) ==> NeverNegative(log')
    ensures Dropped(log', f) == Dropped(log, f) + |old(db.Table(f))| - |db.Table(f)|
    ensures Dropped(log', f.Other()) == Dropped(log, f.Other())
  {
    var before := db.CountAll(f);
    db.Delete(f, Where(c));
    var after := db.CountAll(f);
    KeepCount(old(db.Table(f)), Where(c));
    log' := log + [Entry(f, Deleted(c), None, before, after)];
    assert log'[..|log|] == log;
  }

  /** One check on both fleets, yellow first, as the script orders them. */
  method DeleteBothAndLog(db: Tables, c: Check, log: seq<Entry>) returns (log': seq<Entry>)
    modifies db
    ensures db.yellow == Keep(old(db.yellow), Where(c))
    ensures db.green == Keep(old(db.green), Where(c))
    ensures log' == log + [Entry(Yellow, Deleted(c), None, |old(db.yellow)|, |db.yellow|),
                           Entry(Green, Deleted(c), None, |old(db.green)|, |db.green|)]
    ensures log'[|log|].before - log'[|log|].after == CountWhere(old(db.yellow), Where(c))
    ensures log'[|log| + 1].before - log'[|log| + 1].after == CountWhere(old(db.green), Where(c))
    ensures Labels(log') == Labels(log) + [Label(Yellow, Deleted(c), None), Label(Green, Deleted(c), None)]
    ensures |log'| == |log| + 2
    ensures NeverNegative(log) ==> NeverNegative(log')
    ensures Dropped(log', Yellow) == Dropped(log, Yellow) + |old(db.yellow)| - |db.yellow|
    ensures Dropped(log', Green) == Dropped(log, Green) + |old(db.green)| - |db.green|
  {
    var mid := DeleteAndLog(db, Yellow, c, log);
    log' := DeleteAndLog(db, Green, c, mid);
    var a, b := Label(Yellow, Deleted(c), None), Label(Green, Deleted(c), None);
    calc {
      Labels(log');
      Labels(mid) + [b];
      (Labels(log) + [a]) + [b];
      { assert [a] + [b] == [a, b]; }
      Labels(log) + [a, b];
    }
    assert log' == log + [mid[|log|], log'[|log| + 1]];
  }

  /** Lines appended in the script's order, each pair of deletes taking the counts of
      the yellow and green tables one stage further, make up clean.py's log. */
  lemma CleanLogChain(ys: seq<nat>, gs: seq<nat>, y: nat, g: nat,
                      l2: seq<Entry>, l3: seq<Entry>, l4: seq<Entry>, l5: seq<Entry>, l6: seq<Entry>)
    requires |ys| == 5 && |gs| == 5
    requires l2 == [Entry(Yellow, Duplicates, None, y, ys[0]), Entry(Green, Duplicates, None, g, gs[0])]
    requires l3 == l2 + [Entry(Yellow, Deleted(NoPassengers), None, ys[0], ys[1]),
                         Entry(Green, Deleted(NoPassengers), None, gs[0], gs[1])]
    requires l4 == l3 + [Entry(Yellow, Deleted(ZeroDistance), None, ys[1], ys[2]),
                         Entry(Green, Deleted(ZeroDistance), None, gs[1], gs[2])]
    requires l5 == l4 + [Entry(Yellow, Deleted(TooFar), None, ys[2], ys[3]),
                         Entry(Green, Deleted(TooFar), None, gs[2], gs[3])]
    requires l6 == l5 + [Entry(Yellow, Deleted(TooLongOrNoPickup), None, ys[3], ys[4]),
                         Entry(Green, Deleted(TooLongOrNoPickup), None, gs[3], gs[4])]
    ensures l6 == [Entry(Yellow, Duplicates, None, y, ys[0]), Entry(Green, Duplicates, None, g, gs[0])]
                  + BothFleetsLog(Checks, None, ys, gs)
  {
    BothFleetsLogOfFour(Checks, None, ys, gs);
  }

  /** Lines appended in the script's order make up clean.py's log. */
  lemma CleanLabelsChain(l0: seq<Label>, l1: seq<Label>, l2: seq<Label>, l3: seq<Label>, l4: seq<Label>,
                         l5: seq<Label>, l6: seq<Label>)
    requires l0 == []
    requires l1 == l0 + [Label(Yellow, Duplicates, None)]
    requires l2 == l1 + [Label(Green, Duplicates, None)]
    requires l3 == l2 + [Label(Yellow, Deleted(NoPassengers), None), Label(Green, Deleted(NoPassengers), None)]
    requires l4 == l3 + [Label(Yellow, Deleted(ZeroDistance), None), Label(Green, Deleted(ZeroDistance), None)]
    requires l5 == l4 + [Label(Yellow, Deleted(TooFar), None), Label(Green, Deleted(TooFar), None)]
    requires l6 == l5 + [Label(Yellow, Deleted(TooLongOrNoPickup), None), Label(Green, Deleted(TooLongOrNoPickup), None)]
    ensures l6 == CleanLog
  {
    assert BothFleets(Checks, None) ==
      [Label(Yellow, Deleted(NoPassengers), None), Label(Green, Deleted(NoPassengers), None)]
      + [Label(Yellow, Deleted(ZeroDistance), None), Label(Green, Deleted(ZeroDistance), None)]
      + [Label(Yellow, Deleted(TooFar), None), Label(Green, Deleted(TooFar), None)]
      + [Label(Yellow, Deleted(TooLongOrNoPickup), None), Label(Green, Deleted(TooLongOrNoPickup), None)];
  }

  /** Tables produced by de-duplicating `rows` and then running the deletes in order
      are its stages. */
  lemma StageTables(rows: seq<Row>, t0: seq<Row>, t1: seq<Row>, t2: seq<Row>, t3: seq<Row>, t4: seq<Row>)
    requires t0 == Distinct(rows)
    requires t1 == Keep(t0, Where(NoPassengers))
    requires t2 == Keep(t1, Where(ZeroDistance))
    requires t3 == Keep(t2, Where(TooFar))
    requires t4 == Keep(t3, Where(TooLongOrNoPickup))
    ensures Stage(rows, 0) == t0 && Stage(rows, 1) == t1 && Stage(rows, 2) == t2
    ensures Stage(rows, 3) == t3 && Stage(rows, 4) == t4
  {
    assert Stage(rows, 1) == t1;
    assert Stage(rows, 2) == t2;
    assert Stage(rows, 3) == t3;
  }

  /** The row counts of a table's stages are its stage sizes, and the last stage is what
      clean.py leaves. */
  lemma StagesAre(rows: seq<Row>, t0: seq<Row>, t1: seq<Row>, t2: seq<Row>, t3: seq<Row>, t4: seq<Row>)
    requires Stage(rows, 0) == t0 && Stage(rows, 1) == t1 && Stage(rows, 2) == t2
    requires Stage(rows, 3) == t3 && Stage(rows, 4) == t4
    ensures StageSizes(rows) == [|t0|, |t1|, |t2|, |t3|, |t4|]
    ensures t4 == Cleaned(rows)
  {
    LastStageIsCleaned(rows);
  }

  /** The cleaning steps of `clean_parquet_files`: de-duplicate yellow and then green,
      then run each delete on yellow and then on green, logging every step. */
  method CleanAndLog(db: Tables) returns (log: seq<Entry>)
    modifies db
    ensures db.yellow == Cleaned(old(db.yellow)) && db.green == Cleaned(old(db.green))
    ensures |log| == 10 && NeverNegative(log)
    ensures Labels(log) == CleanLog
    ensures log == CleanLogFor(old(db.yellow), old(db.green))
    ensures Dropped(log, Yellow) == |old(db.yellow)| - |db.yellow|
    ensures Dropped(log, Green) == |old(db.green)| - |db.green|
  {
    ghost var yellow, green := db.yellow, db.green;
    var l1 := DedupAndLog(db, Yellow, []);
    var l2 := DedupAndLog(db, Green, l1);
    ghost var y0, g0 := db.yellow, db.green;
    var l3 := DeleteBothAndLog(db, NoPassengers, l2);
    ghost var y1, g1 := db.yellow, db.green;
    var l4 := DeleteBothAndLog(db, ZeroDistance, l3);
    ghost var y2, g2 := db.yellow, db.green;
    var l5 := DeleteBothAndLog(db, TooFar, l4);
    ghost var y3, g3 := db.yellow, db.green;
    log := DeleteBothAndLog(db, TooLongOrNoPickup, l5);
    StageTables(yellow, y0, y1, y2, y3, db.yellow);
    StageTables(green, g0, g1, g2, g3, db.green);
    StagesAre(yellow, y0, y1, y2, y3, db.yellow);
    StagesAre(green, g0, g1, g2, g3, db.green);
    CleanLabelsChain(Labels([]), Labels(l1), Labels(l2), Labels(l3), Labels(l4), Labels(l5), Labels(log));
    CleanLogChain(StageSizes(yellow), StageSizes(green), |yellow|, |green|, l2, l3, l4, l5, log);
  }

  /** `clean_parquet_files`. The duplicate check that opens the verification step names
      `VendorID`, `pickup_location` and `dropoff_location`; when the tables lack those
      columns (`idColumnsExist` false) the query fails, the `except` clause ends the run
      and no report is produced, but the deletes already done stay done. */
  method CleanParquetFiles(db: Tables, idColumnsExist: bool) returns (log: seq<Entry>, report: Option<Report>)
    modifies db
    ensures db.yellow == Cleaned(old(db.yellow)) && db.green == Cleaned(old(db.green))
    ensures |log| == 10 && NeverNegative(log)
    ensures Labels(log) == CleanLog
    ensures log == CleanLogFor(old(db.yellow), old(db.green))
    ensures log[0].before - log[0].after == DuplicateCount(old(db.yellow))
    ensures log[1].before - log[1].after == DuplicateCount(old(db.green))
    ensures forall k :: 0 <= k < |Checks| ==>
      && log[2 + 2 * k].before - log[2 + 2 * k].after == CountWhere(Stage(old(db.yellow), k), Where(Checks[k]))
      && log[3 + 2 * k].before - log[3 + 2 * k].after == CountWhere(Stage(old(db.green), k), Where(Checks[k]))
    ensures Dropped(log, Yellow) == |old(db.yellow)| - |db.yellow|
    ensures Dropped(log, Green) == |old(db.green)| - |db.green|
    ensures report.Some? <==> idColumnsExist
    ensures report.Some? ==> report.value == Report(NoResiduals, NoResiduals)
  {
    ghost var yellow, green := db.yellow, db.green;
    log := CleanAndLog(db);
    CleanLogDrops(yellow, green);

    if !idColumnsExist {
      report := None;
      return;
    }
    var yellowDups := DuplicateCount(db.yellow);
    var greenDups := DuplicateCount(db.green);
    var yellowNoPass := db.Count(Yellow, WhereShows(ZeroPassengers));
    var greenNoPass := db.Count(Green, WhereShows(ZeroPassengers));
    var yellowNoDist := db.Count(Yellow, WhereShows(ZeroLength));
    var greenNoDist := db.Count(Green, WhereShows(ZeroLength));
    var yellowTooFar := db.Count(Yellow, WhereShows(OverHundred));
    var greenTooFar := db.Count(Green, WhereShows(OverHundred));
    var yellowTooLong := db.Count(Yellow, WhereShows(OverOneDay));
    var greenTooLong := db.Count(Green, WhereShows(OverOneDay));
    CleanedHasNoResiduals(old(db.yellow));
    CleanedHasNoResiduals(old(db.green));
    report := Some(Report(
      Residuals(yellowDups, yellowNoPass, yellowNoDist, yellowTooFar, yellowTooLong),
      Residuals(greenDups, greenNoPass, greenNoDist, greenTooFar, greenTooLong)));
  }
}

/** The analytic database the cleaning scripts work on: the yellow and green trip
    tables, changed in place by the statements the scripts issue, and the log lines
    the scripts write about each step. */
module TripDatabase {
  import opened Sql
  import opened Trips

  /** The two fleets; their tables share a schema and the cleaning rules. */
  datatype Fleet = Yellow | Green {
    function Other(): Fleet {
      if this == Yellow then Green else Yellow
    }
  }

  /** `yellow_tripdata` and `green_tripdata`, each the sequence of its rows. */
  class Tables {
    var yellow: seq<Row>
    var green: seq<Row>

    constructor (yellow0: seq<Row>, green0: seq<Row>)
      ensures yellow == yellow0 && green == green0
    {
      yellow, green := yellow0, green0;
    }

    function Table(f: Fleet): seq<Row>
      reads this
    {
      if f == Yellow then yellow else green
    }

    /** `SELECT COUNT(*) FROM t`: for every condition, the rows it counts plus the rows
        a delete on it leaves; so zero exactly for an empty table, and no count under a
        WHERE condition exceeds it. */
    function CountAll(f: Fleet): (n: nat)
      reads this
      ensures forall p :: n == Count(f, p) + |Keep(Table(f), p)|
      ensures n == 0 <==> Table(f) == []
      ensures forall p :: Count(f, p) <= n
    {
      KeepCountAll(Table(f));
      |Table(f)|
    }

    /** `SELECT COUNT(*) FROM t WHERE p` */
    function Count(f: Fleet, p: Row -> Truth): nat
      reads this
    {
      CountWhere(Table(f), p)
    }

    /** `DELETE FROM t WHERE p` */
    method Delete(f: Fleet, p: Row -> Truth)
      modifies this
      ensures Table(f) == Keep(old(Table(f)), p)
      ensures Table(f.Other()) == old(Table(f.Other()))
    {
      if f == Yellow {
        yellow := Keep(yellow, p);
      } else {
        green := Keep(green, p);
      }
    }

    /** `CREATE TABLE t_clean AS SELECT DISTINCT * FROM t`, then `DROP TABLE t` and
        `ALTER TABLE t_clean RENAME TO t`: the table is replaced by its distinct rows. */
    method ReplaceWithDistinct(f: Fleet)
      modifies this
      ensures Table(f) == Distinct(old(Table(f)))
      ensures Table(f.Other()) == old(Table(f.Other()))
    {
      if f == Yellow {
        yellow := Distinct(yellow);
      } else {
        green := Distinct(green);
      }
    }

    /** `VACUUM t`: reclaims the storage of deleted rows and leaves the contents alone. */
    method Vacuum(f: Fleet)
      modifies this
      ensures yellow == old(yellow) && green == old(green)
    {
    }
  }

  /** What a step removed: duplicates, or the rows one check matched. */
  datatype Step = Duplicates | Deleted(check: Check)

  /** One "Dropped {before - after} rows ..." log line, with the counts it was computed
      from; `year` is set when the counts are scoped to one pickup year. */
  datatype Entry = Entry(fleet: Fleet, step: Step, year: Option<int>, before: nat, after: nat)

  /** The rows the log says were dropped from fleet `f`, summed over its lines. */
  function Dropped(log: seq<Entry>, f: Fleet): int {
    if log == [] then 0
    else
      var e := log[|log| - 1];
      Dropped(log[..|log| - 1], f) + (if e.fleet == f then e.before - e.after else 0)
  }

  /** What a log line is about: the fleet, the step and, when scoped, the year. */
  datatype Label = Label(fleet: Fleet, step: Step, year: Option<int>)

  /** The labels of a log's lines, in order. */
  function Labels(log: seq<Entry>): (ls: seq<Label>)
    ensures |ls| == |log|
    ensures forall i :: 0 <= i < |log| ==>
      ls[i] == Label(log[i].fleet, log[i].step, log[i].year)
  {
    if log == [] then []
    else
      var e := log[|log| - 1];
      Labels(log[..|log| - 1]) + [Label(e.fleet, e.step, e.year)]
  }

  /** A log that only ever grows at its end keeps its first lines. */
  lemma PrefixOfPrefix(a: seq<Entry>, b: seq<Entry>, c: seq<Entry>)
    requires |a| <= |b| <= |c| && b[..|a|] == a && c[..|b|] == b
    ensures c[..|a|] == a
  {
    assert c[..|a|] == c[..|b|][..|a|];
  }

  /** The labels of two logs one after the other are their labels one after the other. */
  lemma LabelsOfAppend(a: seq<Entry>, b: seq<Entry>)
    ensures Labels(a + b) == Labels(a) + Labels(b)
  {
    var ab := a + b;
    forall i | 0 <= i < |ab|
      ensures Labels(ab)[i] == (Labels(a) + Labels(b))[i]
    {
      if i < |a| {
        assert ab[i] == a[i];
      } else {
        assert ab[i] == b[i - |a|];
      }
    }
  }

  /** The labels of deletes run on both fleets, yellow first, for each check in turn:
      line `i` is about check `i / 2`, on the yellow table when `i` is even. */
  function BothFleets(checks: seq<Check>, year: Option<int>): (ls: seq<Label>)
    ensures |ls| == 2 * |checks|
    ensures forall i :: 0 <= i < |ls| ==>
      ls[i] == Label(if i % 2 == 0 then Yellow else Green, Deleted(checks[i / 2]), year)
  {
    if checks == [] then []
    else
      [Label(Yellow, Deleted(checks[0]), year), Label(Green, Deleted(checks[0]), year)]
        + BothFleets(checks[1..], year)
  }

  /** The log lines of deletes run on both fleets, yellow first, for each check in turn,
      with the row counts they report: check `k` takes the yellow count from `ys[k]` to
      `ys[k + 1]` and the green count from `gs[k]` to `gs[k + 1]`. */
  function BothFleetsLog(checks: seq<Check>, year: Option<int>, ys: seq<nat>, gs: seq<nat>): (log: seq<Entry>)
    requires |ys| == |checks| + 1 && |gs| == |checks| + 1
    ensures |log| == 2 * |checks|
    ensures forall k :: 0 <= k < |checks| ==>
      log[2 * k] == Entry(Yellow, Deleted(checks[k]), year, ys[k], ys[k + 1])
      && log[2 * k + 1] == Entry(Green, Deleted(checks[k]), year, gs[k], gs[k + 1])
    decreases |checks|
  {
    if checks == [] then []
    else
      [Entry(Yellow, Deleted(checks[0]), year, ys[0], ys[1]),
       Entry(Green, Deleted(checks[0]), year, gs[0], gs[1])]
        + BothFleetsLog(checks[1..], year, ys[1..], gs[1..])
  }

  /** `BothFleetsLog` for four checks, written out pair by pair. */
  lemma BothFleetsLogOfFour(checks: seq<Check>, year: Option<int>, ys: seq<nat>, gs: seq<nat>)
    requires |checks| == 4 && |ys| == 5 && |gs| == 5
    ensures BothFleetsLog(checks, year, ys, gs) ==
      [Entry(Yellow, Deleted(checks[0]), year, ys[0], ys[1]), Entry(Green, Deleted(checks[0]), year, gs[0], gs[1])]
      + [Entry(Yellow, Deleted(checks[1]), year, ys[1], ys[2]), Entry(Green, Deleted(checks[1]), year, gs[1], gs[2])]
      + [Entry(Yellow, Deleted(checks[2]), year, ys[2], ys[3]), Entry(Green, Deleted(checks[2]), year, gs[2], gs[3])]
      + [Entry(Yellow, Deleted(checks[3]), year, ys[3], ys[4]), Entry(Green, Deleted(checks[3]), year, gs[3], gs[4])]
  {
  }

  /** The lines of `BothFleetsLog` carry the labels `BothFleets` lists. */
  lemma BothFleetsLogLabels(checks: seq<Check>, year: Option<int>, ys: seq<nat>, gs: seq<nat>)
    requires |ys| == |checks| + 1 && |gs| == |checks| + 1
    ensures Labels(BothFleetsLog(checks, year, ys, gs)) == BothFleets(checks, year)
  {
    var log := BothFleetsLog(checks, year, ys, gs);
    forall i | 0 <= i < |log|
      ensures Labels(log)[i] == BothFleets(checks, year)[i]
    {
      var k := i / 2;
      assert k < |checks| && (i == 2 * k || i == 2 * k + 1);
      assert log[2 * k] == Entry(Yellow, Deleted(checks[k]), year, ys[k], ys[k + 1]);
      assert log[2 * k + 1] == Entry(Green, Deleted(checks[k]), year, gs[k], gs[k + 1]);
    }
  }

  /** Every line of the log reports a non-negative drop. */
  predicate NeverNegative(log: seq<Entry>) {
    forall i :: 0 <= i < |log| ==> log[i].after <= log[i].before
  }
}

/** NULL-able column values, SQL's three-valued logic, and the table statements
    the cleaning scripts issue (DELETE ... WHERE, COUNT(*) ... WHERE, SELECT DISTINCT *),
    with a table modelled as the sequence of its rows. */
module Sql {

  /** A column value that may be NULL. */
  datatype Option<+T> = None | Some(value: T)

  /** The value of a condition under SQL's three-valued (Kleene) logic. */
  datatype Truth = True | False | Unknown

  function FromBool(b: bool): (t: Truth)
    ensures t != Unknown
    ensures t == True <==> b
  {
    if b then True else False
  }

  /** `a AND b`: False wins over Unknown, Unknown wins over True. */
  function And(a: Truth, b: Truth): (t: Truth)
    ensures t == True <==> a == True && b == True
    ensures t == False <==> a == False || b == False
  {
    match (a, b)
    case (False, _) => False
    case (_, False) => False
    case (True, True) => True
    case _ => Unknown
  }

  /** `a OR b`: True wins over Unknown, Unknown wins over False. */
  function Or(a: Truth, b: Truth): (t: Truth)
    ensures t == True <==> a == True || b == True
    ensures t == False <==> a == False && b == False
  {
    match (a, b)
    case (True, _) => True
    case (_, True) => True
    case (False, False) => False
    case _ => Unknown
  }

  /** `x IS NULL`: the one test that is never Unknown. */
  function IsNull<T>(x: Option<T>): (t: Truth)
    ensures t != Unknown
    ensures t == True <==> x.None?
  {
    match x
    case None => True
    case Some(_) => False
  }

  /** `x = k`: Unknown when `x` is NULL. */
  function Equals<T(==)>(x: Option<T>, k: T): (t: Truth)
    ensures t == Unknown <==> x.None?
    ensures t == True <==> x == Some(k)
  {
    match x
    case None => Unknown
    case Some(v) => FromBool(v == k)
  }

  /** `x > k` on an integer column: Unknown when `x` is NULL. */
  function GreaterInt(x: Option<int>, k: int): (t: Truth)
    ensures t == Unknown <==> x.None?
    ensures t == True <==> x.Some? && x.value > k
  {
    match x
    case None => Unknown
    case Some(v) => FromBool(v > k)
  }

  /** `x > k` on a floating-point column: Unknown when `x` is NULL. */
  function GreaterReal(x: Option<real>, k: real): (t: Truth)
    ensures t == Unknown <==> x.None?
    ensures t == True <==> x.Some? && x.value > k
  {
    match x
    case None => Unknown
    case Some(v) => FromBool(v > k)
  }

  /** `b - a` on second timestamps (`date_diff('second', a, b)`): NULL if either side is. */
  function Minus(b: Option<int>, a: Option<int>): (d: Option<int>)
    ensures d.Some? <==> a.Some? && b.Some?
    ensures d.Some? ==> a.value + d.value == b.value
  {
    if a.Some? && b.Some? then Some(b.value - a.value) else None
  }

  /** `EXTRACT(part FROM x)`: NULL in, NULL out. */
  function Extract(x: Option<int>, part: int -> int): (y: Option<int>)
    ensures y.Some? <==> x.Some?
    ensures y.Some? ==> y.value == part(x.value)
  {
    match x
    case None => None
    case Some(v) => Some(part(v))
  }

  /** `p OR q` as a row condition. */
  function AnyOf<T>(p: T -> Truth, q: T -> Truth): T -> Truth
  {
    r => Or(p(r), q(r))
  }

  /** The rows left by `DELETE FROM t WHERE p`: a row goes only when `p` is True
      for it, never when `p` is False or Unknown; the rows that stay keep their order. */
  function Keep<T(!new)>(rows: seq<T>, p: T -> Truth): (kept: seq<T>)
    ensures |kept| <= |rows|
    ensures forall r :: r in kept <==> r in rows && p(r) != True
  {
    if rows == [] then []
    else if p(rows[0]) == True then Keep(rows[1..], p)
    else [rows[0]] + Keep(rows[1..], p)
  }

  /** `SELECT COUNT(*) FROM t WHERE p`: the rows for which `p` is True. */
  function CountWhere<T(!new)>(rows: seq<T>, p: T -> Truth): (n: nat)
    ensures n <= |rows|
    ensures n == 0 <==> forall r :: r in rows ==> p(r) != True
  {
    if rows == [] then 0
    else CountWhere(rows[1..], p) + (if p(rows[0]) == True then 1 else 0)
  }

  /** `a` is `b` with some rows left out and the others unaltered and in order. */
  predicate SubsequenceOf<T(==)>(a: seq<T>, b: seq<T>)
    decreases |b|
  {
    a == [] || (b != [] && ((a[0] == b[0] && SubsequenceOf(a[1..], b[1..])) || SubsequenceOf(a, b[1..])))
  }

  predicate NoDuplicates<T(==,!new)>(rows: seq<T>) {
    forall i, j :: 0 <= i < j < |rows| ==> rows[i] != rows[j]
  }

  /** `SELECT DISTINCT *`: one copy of every row, NULLs comparing equal to NULLs.
      SQL leaves the output order open; this model keeps first occurrences in order. */
  function Distinct<T(==,!new)>(rows: seq<T>): (d: seq<T>)
    ensures NoDuplicates(d)
    ensures forall r :: r in d <==> r in rows
    ensures |d| <= |rows|
  {
    if rows == [] then []
    else
      var init := Distinct(rows[..|rows| - 1]);
      var last := rows[|rows| - 1];
      assert rows == rows[..|rows| - 1] + [last];
      if last in init then init else init + [last]
  }

  /** `SELECT COUNT(*) - COUNT(DISTINCT row) FROM t`: zero exactly when no row occurs
      twice. */
  function DuplicateCount<T(==,!new)>(rows: seq<T>): (n: nat)
    ensures n <= |rows|
    ensures n == 0 <==> NoDuplicates(rows)
  {
    if NoDuplicates(rows) then
      DistinctOfDuplicateFree(rows);
      |rows| - |Distinct(rows)|
    else
      DistinctShrinks(rows);
      |rows| - |Distinct(rows)|
  }

  // ---------------------------------------------------------------------------
  // DELETE and COUNT

  /** Each delete drops exactly the rows its condition counts. */
  lemma {:induction false} KeepCount<T(!new)>(rows: seq<T>, p: T -> Truth)
    ensures |Keep(rows, p)| + CountWhere(rows, p) == |rows|
  {
    if rows != [] {
      KeepCount(rows[1..], p);
    }
  }

  /** `KeepCount` for every condition at once. */
  lemma KeepCountAll<T(!new)>(rows: seq<T>)
    ensures forall p :: |Keep(rows, p)| + CountWhere(rows, p) == |rows|
  {
    forall p: T -> Truth {
      KeepCount(rows, p);
    }
  }

  /** The surviving rows are not altered and keep their relative order. */
  lemma {:induction false} KeepIsSubsequence<T(!new)>(rows: seq<T>, p: T -> Truth)
    ensures SubsequenceOf(Keep(rows, p), rows)
  {
    if rows != [] {
      KeepIsSubsequence(rows[1..], p);
      if p(rows[0]) != True {
        var kept := Keep(rows, p);
        assert kept[0] == rows[0] && kept[1..] == Keep(rows[1..], p);
      }
    }
  }

  /** A delete whose condition is True for no row leaves the table as it was. */
  lemma {:induction false} KeepNothing<T(!new)>(rows: seq<T>, p: T -> Truth)
    requires forall r :: r in rows ==> p(r) != True
    ensures Keep(rows, p) == rows
  {
    if rows != [] {
      assert rows[0] in rows;
      assert forall r :: r in rows[1..] ==> r in rows;
      KeepNothing(rows[1..], p);
    }
  }

  /** Running a delete a second time removes nothing. */
  lemma KeepIdempotent<T(!new)>(rows: seq<T>, p: T -> Truth)
    ensures Keep(Keep(rows, p), p) == Keep(rows, p)
    ensures CountWhere(Keep(rows, p), p) == 0
  {
    KeepNothing(Keep(rows, p), p);
  }

  /** Two deletes in a row leave what one delete with `p OR q` leaves. */
  lemma {:induction false} KeepTwice<T(!new)>(rows: seq<T>, p: T -> Truth, q: T -> Truth)
    ensures Keep(Keep(rows, p), q) == Keep(rows, AnyOf(p, q))
  {
    if rows != [] {
      KeepTwice(rows[1..], p, q);
    }
  }

  /** Two conditions that are True on the same rows delete the same rows. */
  lemma {:induction false} KeepSameMatches<T(!new)>(rows: seq<T>, p: T -> Truth, q: T -> Truth)
    requires forall r :: r in rows ==> (p(r) == True <==> q(r) == True)
    ensures Keep(rows, p) == Keep(rows, q)
  {
    if rows != [] {
      assert rows[0] in rows;
      assert forall r :: r in rows[1..] ==> r in rows;
      KeepSameMatches(rows[1..], p, q);
    }
  }

  /** Deletes can run in either order. */
  lemma KeepCommutes<T(!new)>(rows: seq<T>, p: T -> Truth, q: T -> Truth)
    ensures Keep(Keep(rows, p), q) == Keep(Keep(rows, q), p)
  {
    KeepTwice(rows, p, q);
    KeepTwice(rows, q, p);
    KeepSameMatches(rows, AnyOf(p, q), AnyOf(q, p));
  }

  /** When `q` is True wherever `p` is, the delete on `q` subsumes the one on `p`,
      before or after it. */
  lemma KeepAbsorbs<T(!new)>(rows: seq<T>, p: T -> Truth, q: T -> Truth)
    requires forall r :: r in rows && p(r) == True ==> q(r) == True
    ensures Keep(Keep(rows, p), q) == Keep(rows, q)
    ensures Keep(Keep(rows, q), p) == Keep(rows, q)
  {
    KeepTwice(rows, p, q);
    KeepSameMatches(rows, AnyOf(p, q), q);
    KeepCommutes(rows, p, q);
  }

  /** A count scoped by `q` (a year, say) drops by exactly the rows a delete on `p`
      removes, when every row `p` matches is one that `q` counts. */
  lemma {:induction false} CountAfterKeep<T(!new)>(rows: seq<T>, p: T -> Truth, q: T -> Truth)
    requires forall r :: r in rows && p(r) == True ==> q(r) == True
    ensures CountWhere(rows, q) == CountWhere(Keep(rows, p), q) + CountWhere(rows, p)
  {
    if rows != [] {
      assert rows[0] in rows;
      assert forall r :: r in rows[1..] ==> r in rows;
      CountAfterKeep(rows[1..], p, q);
    }
  }

  // ---------------------------------------------------------------------------
  // DISTINCT

  /** A table without duplicate rows is its own `SELECT DISTINCT *`. */
  lemma {:induction false} DistinctOfDuplicateFree<T(!new)>(rows: seq<T>)
    requires NoDuplicates(rows)
    ensures Distinct(rows) == rows
  {
    if rows != [] {
      var init := rows[..|rows| - 1];
      assert NoDuplicates(init);
      DistinctOfDuplicateFree(init);
      assert rows[|rows| - 1] !in init;
      assert rows == init + [rows[|rows| - 1]];
    }
  }

  /** A table with a duplicate row loses at least one row to `SELECT DISTINCT *`. */
  lemma {:induction false} DistinctShrinks<T(!new)>(rows: seq<T>)
    requires !NoDuplicates(rows)
    ensures |Distinct(rows)| < |rows|
  {
    var init, last := rows[..|rows| - 1], rows[|rows| - 1];
    if NoDuplicates(init) {
      var i, j :| 0 <= i < j < |rows| && rows[i] == rows[j];
      assert j == |rows| - 1 && init[i] == last;
      assert last in Distinct(init);
    } else {
      DistinctShrinks(init);
    }
  }

  /** Deleting rows from a duplicate-free table keeps it duplicate-free. */
  lemma {:induction false} KeepKeepsNoDuplicates<T(!new)>(rows: seq<T>, p: T -> Truth)
    requires NoDuplicates(rows)
    ensures NoDuplicates(Keep(rows, p))
  {
    if rows != [] {
      var rest := rows[1..];
      assert NoDuplicates(rest) by {
        forall i, j | 0 <= i < j < |rest| ensures rest[i] != rest[j] {
          assert rest[i] == rows[i + 1] && rest[j] == rows[j + 1];
        }
      }
      KeepKeepsNoDuplicates(rest, p);
      if p(rows[0]) != True {
        var tail := Keep(rest, p);
        var kept := [rows[0]] + tail;
        assert rows[0] !in rest by {
          forall j | 0 <= j < |rest| ensures rest[j] != rows[0] {
            assert rest[j] == rows[j + 1];
          }
        }
        forall i, j | 0 <= i < j < |kept| ensures kept[i] != kept[j] {
          assert kept[j] == tail[j - 1];
          if i > 0 {
            assert kept[i] == tail[i - 1];
          }
        }
      }
    }
  }
}

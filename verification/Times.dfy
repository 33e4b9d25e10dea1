/** Arithmetic on struct timespec. src/utils.c. */
module Times {
  const KILO: int := 1000
  const MEGA: int := 1_000_000
  const GIGA: int := 1_000_000_000

  datatype Timespec = Timespec(sec: int, nsec: int) {
    predicate Normal() {
      0 <= nsec < GIGA
    }

    /** The time in nanoseconds. */
    function Ns(): int {
      sec * GIGA + nsec
    }
  }

  /** C division and remainder, which round toward zero. */
  function CDiv(a: int, b: int): int
    requires b > 0
  {
    if a >= 0 then a / b else -((-a) / b)
  }

  function CRem(a: int, b: int): int
    requires b > 0
  {
    a - CDiv(a, b) * b
  }

  /** Conversion of a long to a 32-bit int. */
  function ToInt32(x: int): (r: int)
    ensures -0x8000_0000 <= r < 0x8000_0000
  {
    (x + 0x8000_0000) % 0x1_0000_0000 - 0x8000_0000
  }

  /** What clock_gettime reports when the clock stands at ns nanoseconds. */
  function Reading(ns: nat): (t: Timespec)
    ensures t.Normal() && t.Ns() == ns
  {
    Timespec(ns / GIGA, ns % GIGA)
  }

  function Sum(t1: Timespec, t2: Timespec): Timespec {
    Timespec(t1.sec + t2.sec + (if CDiv(t1.nsec + t2.nsec, GIGA) > 0 then 1 else 0),
             CRem(t1.nsec + t2.nsec, GIGA))
  }

  /** The difference, and whether the code reports it as usable. */
  function Difference(t1: Timespec, t2: Timespec): (Timespec, bool) {
    var borrow := t1.nsec - t2.nsec < 0;
    var diff := Timespec(t1.sec - t2.sec - (if borrow then 1 else 0),
                         t1.nsec - t2.nsec + (if borrow then GIGA else 0));
    (diff, diff.sec >= 0)
  }

  /** ts_sum. */
  method TsSum(t1: Timespec, t2: Timespec) returns (sum: Timespec)
    ensures sum == Sum(t1, t2)
    ensures t1.Normal() && t2.Normal() ==> sum.Normal() && sum.Ns() == t1.Ns() + t2.Ns()
  {
    SumExact(t1, t2);
    sum := Timespec(t1.sec + t2.sec, CRem(t1.nsec + t2.nsec, GIGA));
    if CDiv(t1.nsec + t2.nsec, GIGA) > 0 {
      sum := sum.(sec := sum.sec + 1);
    }
  }

  /** ts_diff: 0 when t1 is not before t2, otherwise -1. */
  method TsDiff(t1: Timespec, t2: Timespec) returns (diff: Timespec, ret: int)
    ensures (diff, ret == 0) == Difference(t1, t2)
    ensures ret == 0 || ret == -1
    ensures t1.Normal() && t2.Normal() ==> diff.Normal() && diff.Ns() == t1.Ns() - t2.Ns()
    ensures t1.Normal() && t2.Normal() ==> (ret == 0 <==> t1.Ns() >= t2.Ns())
  {
    diff := Timespec(t1.sec - t2.sec, t1.nsec - t2.nsec);
    if diff.nsec < 0 {
      diff := Timespec(diff.sec - 1, diff.nsec + GIGA);
    }
    if diff.sec < 0 {
      return diff, -1;
    }
    return diff, 0;
  }

  /** On normalised times the sum is exact and normalised. */
  lemma SumExact(t1: Timespec, t2: Timespec)
    ensures t1.Normal() && t2.Normal() ==> Sum(t1, t2).Normal() && Sum(t1, t2).Ns() == t1.Ns() + t2.Ns()
  {
  }

  /** On normalised times the difference is exact, and accepted exactly when it is not negative. */
  lemma DifferenceExact(t1: Timespec, t2: Timespec)
    requires t1.Normal() && t2.Normal()
    ensures Difference(t1, t2).0.Normal() && Difference(t1, t2).0.Ns() == t1.Ns() - t2.Ns()
    ensures Difference(t1, t2).1 <==> t1.Ns() >= t2.Ns()
  {
  }

  /** The milliseconds between t2 and t1 as ms_diff computes them, before they become an int. */
  function MsExact(t1: Timespec, t2: Timespec): int {
    (t1.sec - t2.sec) * KILO + CDiv(t1.nsec - t2.nsec, MEGA)
  }

  /** ms_diff. */
  function MsDiff(t1: Timespec, t2: Timespec): int {
    ToInt32(MsExact(t1, t2))
  }

  /** ms_diff is off by less than one millisecond. */
  lemma MsWithinOne(t1: Timespec, t2: Timespec)
    requires t1.Normal() && t2.Normal()
    ensures (MsExact(t1, t2) - 1) * MEGA < t1.Ns() - t2.Ns() < (MsExact(t1, t2) + 1) * MEGA
  {
  }

  lemma ToInt32Small(x: int)
    requires -0x8000_0000 <= x < 0x8000_0000
    ensures ToInt32(x) == x
  {
  }
}

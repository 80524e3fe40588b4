/** Elapsed time (cli/progress.c). timeval_subtract normalises by rewriting its
    second argument, which here is the start time that is used again and again. */
module Stopwatch {

  class Timeval {
    var sec: int
    var usec: int

    constructor (sec: int, usec: int)
      ensures this.sec == sec && this.usec == usec
    {
      this.sec, this.usec := sec, usec;
    }

    /** The instant, in microseconds, however it is split. */
    function Micros(): int
      reads this
    {
      1000000 * sec + usec
    }
  }

  /** What gettimeofday delivers. */
  datatype Time = Time(sec: int, usec: int) {
    predicate Normal() {
      0 <= usec < 1000000
    }

    function Micros(): int {
      1000000 * sec + usec
    }
  }

  /** C's division. */
  function Quotient(a: int, b: int): int
    requires b > 0
  {
    if a >= 0 then a / b else -(-a / b)
  }

  /** How the microseconds of the start time come out of a call. */
  function Shifted(x: int, y: int): int {
    var y1 := if x < y then y - 1000000 * (Quotient(y - x, 1000000) + 1) else y;
    if x - y1 > 1000000 then y1 + 1000000 * Quotient(x - y1, 1000000) else y1
  }

  /** timeval_subtract on its own pointers: `y` is rewritten, but keeps its instant. */
  method TimevalSubtract(result: Timeval, x: Timeval, y: Timeval)
    requires result != y && x != y
    modifies result, y
    ensures y.Micros() == old(y.Micros()) && y.usec == Shifted(old(x.usec), old(y.usec))
    ensures result.Micros() == old(x.Micros()) - old(y.Micros())
    ensures 0 <= result.usec <= 1000000
    ensures result.usec == old(x.usec) - Shifted(old(x.usec), old(y.usec))
  {
    if x.usec < y.usec {
      var nsec := Quotient(y.usec - x.usec, 1000000) + 1;
      y.usec := y.usec - 1000000 * nsec;
      y.sec := y.sec + nsec;
    }
    if x.usec - y.usec > 1000000 {
      var nsec := Quotient(x.usec - y.usec, 1000000);
      y.usec := y.usec + 1000000 * nsec;
      y.sec := y.sec - nsec;
    }
    result.sec, result.usec := x.sec - y.sec, x.usec - y.usec;
  }

  /** The one start time of a progress bar, read again at every update. */
  class Progress {
    const startTime: Timeval

    constructor (now: Time)
      ensures fresh(startTime) && startTime.sec == now.sec && startTime.usec == now.usec
    {
      startTime := new Timeval(now.sec, now.usec);
    }

    /** What calc_eta and progress_finish take to be the elapsed time. */
    method Elapsed(now: Time) returns (elapsed: Time)
      requires now.Normal()
      modifies startTime
      ensures startTime.Micros() == old(startTime.Micros()) && startTime.usec == Shifted(now.usec, old(startTime.usec))
      ensures elapsed.Micros() == now.Micros() - old(startTime.Micros())
      ensures 0 <= elapsed.usec <= 1000000 && elapsed.usec == now.usec - startTime.usec
    {
      var x := new Timeval(now.sec, now.usec);
      var result := new Timeval(0, 0);
      TimevalSubtract(result, x, startTime);
      elapsed := Time(result.sec, result.usec);
    }
  }

  /** The start time's microseconds after readings with the microseconds `xs`. */
  function StartAfter(u: int, xs: seq<int>): int {
    if xs == [] then u else Shifted(xs[|xs| - 1], StartAfter(u, xs[..|xs| - 1]))
  }

  /** Of the readings that differ from `u`, the last is below it. */
  predicate LastBelow(u: int, xs: seq<int>) {
    xs != [] &&
    (xs[|xs| - 1] < u || (xs[|xs| - 1] == u && LastBelow(u, xs[..|xs| - 1])))
  }

  /** Over any run, the start time has its own microseconds or, after a reading
      below them, a million less. */
  lemma {:induction false} StartOverRun(u: int, xs: seq<int>)
    requires 0 <= u < 1000000 && forall i :: 0 <= i < |xs| ==> 0 <= xs[i] < 1000000
    ensures StartAfter(u, xs) == if LastBelow(u, xs) then u - 1000000 else u
  {
    if xs != [] {
      var before, x := xs[..|xs| - 1], xs[|xs| - 1];
      StartOverRun(u, before);
      ShiftedFrom(u, x);
    }
  }

  lemma ShiftedFrom(u: int, x: int)
    requires 0 <= u < 1000000 && 0 <= x < 1000000
    ensures Shifted(x, u) == if x < u then u - 1000000 else u
    ensures Shifted(x, u - 1000000) == if x > u then u else u - 1000000
  {
    if x < u {
      assert (u - x) / 1000000 == 0;
    }
    if x > u {
      assert (x - u + 1000000) / 1000000 == 1;
    }
  }

  /** The next reading's result is normalised, its microseconds below a million,
      unless that reading repeats the start's microseconds after one below them. */
  lemma ResultNormalIff(u: int, xs: seq<int>, x: int)
    requires 0 <= u < 1000000 && 0 <= x < 1000000 && forall i :: 0 <= i < |xs| ==> 0 <= xs[i] < 1000000
    ensures 0 <= x - StartAfter(u, xs + [x]) <= 1000000
    ensures x - StartAfter(u, xs + [x]) < 1000000 <==> !(x == u && LastBelow(u, xs))
  {
    var all := xs + [x];
    assert all[..|all| - 1] == xs;
    StartOverRun(u, all);
  }
}

/**
  The (seconds, microseconds) time values of the chunk-index benchmark and
  their addition and subtraction with one carry or borrow.
 */
module TimeArith {

  const UsecPerSec: int := 1000000

  /** A time value; the library's structure holds two C longs. */
  datatype TestTime = TestTime(sec: int, usec: int)

  /** The time value counted in microseconds. */
  function TotalUsec(t: TestTime): int
  {
    t.sec * UsecPerSec + t.usec
  }

  /** Microseconds in [0, 1000000): the usual normal form. */
  predicate Normal(t: TestTime)
  {
    0 <= t.usec < UsecPerSec
  }

  /** Microseconds in [0, 1000000]: the form that addition produces. */
  predicate AddNormal(t: TestTime)
  {
    0 <= t.usec <= UsecPerSec
  }

  /** test_time_add: adds field by field, then carries one second when the
      microsecond sum is strictly above one million. */
  function TimeAdd(in1: TestTime, in2: TestTime): (out: TestTime)
    ensures TotalUsec(out) == TotalUsec(in1) + TotalUsec(in2)
    ensures out.sec == in1.sec + in2.sec + 1 <==> in1.usec + in2.usec > UsecPerSec
    ensures out.sec == in1.sec + in2.sec <==> in1.usec + in2.usec <= UsecPerSec
    ensures AddNormal(in1) && AddNormal(in2) ==> AddNormal(out)
  {
    var sum := TestTime(in1.sec + in2.sec, in1.usec + in2.usec);
    if sum.usec > UsecPerSec then TestTime(sum.sec + 1, sum.usec - UsecPerSec) else sum
  }

  /** test_time_subtract: subtracts field by field, then borrows one second
      when the microsecond difference is negative. */
  function TimeSubtract(in1: TestTime, in2: TestTime): (out: TestTime)
    ensures TotalUsec(out) == TotalUsec(in1) - TotalUsec(in2)
    ensures out.sec == in1.sec - in2.sec - 1 <==> in1.usec - in2.usec < 0
    ensures out.sec == in1.sec - in2.sec <==> in1.usec - in2.usec >= 0
    ensures Normal(in1) && Normal(in2) ==> Normal(out)
    ensures AddNormal(in1) && AddNormal(in2) ==> AddNormal(out)
  {
    var diff := TestTime(in1.sec - in2.sec, in1.usec - in2.usec);
    if diff.usec < 0 then TestTime(diff.sec - 1, diff.usec + UsecPerSec) else diff
  }

  /** Two normal time values with the same total are the same value. */
  lemma NormalUnique(a: TestTime, b: TestTime)
    requires Normal(a) && Normal(b)
    requires TotalUsec(a) == TotalUsec(b)
    ensures a == b
  {
  }

  /** Subtraction undoes addition on normal values, although an addition
      alone may leave exactly one million microseconds uncarried. */
  lemma SubtractUndoesAdd(a: TestTime, b: TestTime)
    requires Normal(a) && Normal(b)
    ensures TimeSubtract(TimeAdd(a, b), b) == a
  {
    var r := TimeSubtract(TimeAdd(a, b), b);
    assert 0 <= r.usec < UsecPerSec;
    NormalUnique(r, a);
  }

  /** Addition does not always produce a normal value: half a second plus half
      a second is left as zero seconds and one million microseconds. */
  lemma AddMayLeaveFullSecond()
    ensures TimeAdd(TestTime(0, 500000), TestTime(0, 500000)) == TestTime(0, UsecPerSec)
    ensures !Normal(TimeAdd(TestTime(0, 500000), TestTime(0, 500000)))
  {
  }
}

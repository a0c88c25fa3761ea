/**
 * task_check_elapsed_time of beacon/src/tasks.c: the difference of two
 * uint16_t readings of a calendar field, reduced modulo the field's range.
 * The C arithmetic depends on the width of `int`: on a 16-bit `int` (the
 * MSP430) the uint16_t operands promote to `unsigned int` and the difference
 * wraps modulo 2^16 before the remainder; on a 32-bit `int` they promote to
 * `int`, the difference can be negative and `%` truncates toward zero.
 */
module BeaconTasks {

  /** The time_unit argument; any other uint8_t code falls into the switch's default. */
  datatype TimeUnit = Milliseconds | Seconds | Minutes | Hours | Days | Weeks | Months | Years | Other

  /** The width of C's `int` on the compiler that builds the code. */
  datatype IntWidth = Int16 | Int32

  /** The modulus of each bounded unit (YEARS and unknown units have none). */
  function UnitModulus(u: TimeUnit): (m: nat)
    ensures u != Years && u != Other <==> m > 0
    ensures m <= 1000
  {
    match u
    case Milliseconds => 1000
    case Seconds => 60
    case Minutes => 60
    case Hours => 24
    case Days => 7
    case Weeks => 4
    case Months => 12
    case Years => 0
    case Other => 0
  }

  const U16: nat := 0x1_0000

  /** C's `%` on int: truncates toward zero, the result has the sign of `a`. */
  function CRem(a: int, m: nat): (r: int)
    requires m > 0
    ensures -(m as int) < r < m
    ensures a >= 0 ==> r == a % m
    ensures a < 0 ==> r <= 0
  {
    if a >= 0 then a % m else -((-a) % m)
  }

  /** The conversion of an int value to uint16_t. */
  function ToU16(a: int): (r: nat)
    ensures r < U16
  {
    a % U16
  }

  /** `final_time - initial_time` in the promoted type, then reduced by m, then cast to uint16_t. */
  function ReducedDifference(w: IntWidth, initialTime: nat, finalTime: nat, m: nat): (r: nat)
    requires m > 0
    ensures r < U16
  {
    match w
    case Int16 => ((finalTime - initialTime) % U16) % m
    case Int32 => ToU16(CRem(finalTime - initialTime, m))
  }

  /** task_check_elapsed_time as written. */
  function CheckElapsedTime(w: IntWidth, initialTime: nat, finalTime: nat, u: TimeUnit): (r: nat)
    requires initialTime < U16 && finalTime < U16
    ensures r < U16
    ensures u == Other ==> r == 0
    ensures u == Years ==> r == (finalTime - initialTime) % U16
    ensures u != Years && u != Other && finalTime >= initialTime ==>
      r == (finalTime - initialTime) % UnitModulus(u) && r < UnitModulus(u)
  {
    match u
    case Years => ToU16(finalTime - initialTime)
    case Other => 0
    case _ =>
      NoWrapReduced(w, initialTime, finalTime, UnitModulus(u));
      ReducedDifference(w, initialTime, finalTime, UnitModulus(u))
  }

  /** Without a rollover neither width's arithmetic wraps: the result is the difference reduced by m. */
  lemma NoWrapReduced(w: IntWidth, initialTime: nat, finalTime: nat, m: nat)
    requires m > 0 && initialTime < U16 && finalTime < U16
    ensures finalTime >= initialTime ==> ReducedDifference(w, initialTime, finalTime, m) == (finalTime - initialTime) % m
  {
    if finalTime >= initialTime {
      var d := finalTime - initialTime;
      assert d % U16 == d;
      ModAtMost(d, m);
    }
  }

  lemma ModAtMost(d: nat, m: nat)
    requires m > 0
    ensures d % m <= d
  {
    if d < m {
      ModUnique(d, m, 0, d);
    }
  }

  /**
   * A reading taken before a rollover: on a 32-bit `int` the uint16_t result
   * is 2^16 plus the negative remainder; on a 16-bit `int` it is the wrapped
   * difference reduced by m, which is not the elapsed count either because
   * 60 does not divide 2^16.
   */
  lemma {:induction false} CheckElapsedTimeAcrossRollover(initialTime: nat, finalTime: nat, u: TimeUnit)
    requires initialTime < U16 && finalTime < initialTime
    requires u != Years && u != Other
    ensures var m := UnitModulus(u);
      var rem := -((initialTime - finalTime) % m);
      CheckElapsedTime(Int32, initialTime, finalTime, u) == (if rem == 0 then 0 else U16 + rem)
      && CheckElapsedTime(Int16, initialTime, finalTime, u) == (U16 - (initialTime - finalTime)) % m
  {
    var m := UnitModulus(u);
    var d := finalTime - initialTime;
    assert CRem(d, m) == -((initialTime - finalTime) % m);
    assert (d % U16) == U16 - (initialTime - finalTime);
  }

  /** Minutes 59 -> 0: one minute elapsed, but the helper reports 65477 (32-bit int) or 17 (16-bit int). */
  lemma MinuteRolloverAsWritten()
    ensures CheckElapsedTime(Int32, 59, 0, Minutes) == 65477
    ensures CheckElapsedTime(Int16, 59, 0, Minutes) == 17
    ensures ElapsedTime(59, 0, Minutes) == 1
  {
    CheckElapsedTimeAcrossRollover(59, 0, Minutes);
  }

  /** The elapsed count the helper is meant to give: the difference taken modulo the unit's range. */
  function ElapsedTime(initialTime: nat, finalTime: nat, u: TimeUnit): (r: nat)
    requires initialTime < U16 && finalTime < U16
    ensures u != Years && u != Other ==> r < UnitModulus(u)
    ensures u == Years ==> r < U16
    ensures u == Other ==> r == 0
  {
    match u
    case Years => (finalTime - initialTime) % U16
    case Other => 0
    case _ => (finalTime - initialTime) % UnitModulus(u)
  }

  /** Advancing the start reading by the corrected count lands on the end reading, in the unit's range. */
  lemma ElapsedTimeCarries(initialTime: nat, finalTime: nat, u: TimeUnit)
    requires initialTime < U16 && finalTime < U16
    requires u != Other
    ensures var m := if u == Years then U16 else UnitModulus(u);
      (initialTime + ElapsedTime(initialTime, finalTime, u)) % m == finalTime % m
  {
    var m := if u == Years then U16 else UnitModulus(u);
    CarryMod(initialTime, finalTime, m);
  }

  /** The corrected count agrees with the code whenever no rollover happened, for either int width. */
  lemma ElapsedTimeAgreesWithoutRollover(w: IntWidth, initialTime: nat, finalTime: nat, u: TimeUnit)
    requires initialTime <= finalTime < U16
    ensures ElapsedTime(initialTime, finalTime, u) == CheckElapsedTime(w, initialTime, finalTime, u)
  {
  }

  /** The corrected count is the only value below the unit's range that carries the start to the end. */
  lemma ElapsedTimeUnique(initialTime: nat, finalTime: nat, u: TimeUnit, r: nat)
    requires initialTime < U16 && finalTime < U16
    requires u != Years && u != Other
    requires r < UnitModulus(u) && (initialTime + r) % UnitModulus(u) == finalTime % UnitModulus(u)
    ensures r == ElapsedTime(initialTime, finalTime, u)
  {
    UniqueCarry(initialTime, finalTime, UnitModulus(u), r);
  }

  lemma MulAwayFromZero(k: int, m: int)
    requires m > 0 && k != 0
    ensures k * m >= m || k * m <= -m
  {
    if k > 0 {
      MulNonNegative(k - 1, m);
      assert k * m == (k - 1) * m + m;
    } else {
      MulNonNegative(-k - 1, m);
      assert k * m == -((-k - 1) * m) - m;
    }
  }

  lemma {:induction false} MulNonNegative(a: nat, b: nat)
    ensures a * b >= 0
  {
    if a > 0 {
      MulNonNegative(a - 1, b);
      assert a * b == (a - 1) * b + b;
    }
  }

  /** Euclidean division is unique. */
  lemma ModUnique(x: int, m: int, q: int, r: int)
    requires m > 0 && 0 <= r < m && x == q * m + r
    ensures x % m == r
  {
    var q0 := x / m;
    assert x == q0 * m + x % m;
    assert (q - q0) * m == q * m - q0 * m;
    if q != q0 {
      MulAwayFromZero(q - q0, m);
    }
  }

  lemma CarryMod(i: int, f: int, m: int)
    requires m > 0
    ensures (i + (f - i) % m) % m == f % m
  {
    var d := f - i;
    var q := d / m;
    assert d == q * m + d % m;
    assert f == (f / m) * m + f % m;
    assert i + d % m == (f / m - q) * m + f % m by {
      assert (f / m - q) * m == (f / m) * m - q * m;
    }
    ModUnique(i + d % m, m, f / m - q, f % m);
  }

  lemma UniqueCarry(i: int, f: int, m: int, r: int)
    requires m > 0 && 0 <= r < m && (i + r) % m == f % m
    ensures r == (f - i) % m
  {
    var q1 := (i + r) / m;
    var q2 := f / m;
    assert i + r == q1 * m + f % m;
    assert f == q2 * m + f % m;
    assert f - i == (q2 - q1) * m + r by {
      assert (q2 - q1) * m == q2 * m - q1 * m;
    }
    ModUnique(f - i, m, q2 - q1, r);
  }
}

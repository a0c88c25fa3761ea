/**
 * The calendar counters advanced by TIMER1_A0_ISR in
 * beacon/modules/mcu/timers.c: one call per second increments `second` and
 * carries into `minute`, `hour` and `day` by three sequential tests.
 */
module Calendar {

  datatype Time = Time(second: nat, minute: nat, hour: nat, day: nat)

  /** Every counter below its rollover value. */
  predicate InRange(t: Time)
  {
    t.second < 60 && t.minute < 60 && t.hour < 24
  }

  /** Seconds elapsed since day 0, 00:00:00. */
  function Seconds(t: Time): nat
  {
    ((t.day * 24 + t.hour) * 60 + t.minute) * 60 + t.second
  }

  /** The counters after one interrupt: the three tests run one after the other. */
  function Tick(t: Time): Time
  {
    var s := t.second + 1;
    var t1 := if s == 60 then t.(second := 0, minute := t.minute + 1) else t.(second := s);
    var t2 := if t1.minute == 60 then t1.(minute := 0, hour := t1.hour + 1) else t1;
    if t2.hour == 24 then t2.(hour := 0, day := t2.day + 1) else t2
  }

  /** The tick keeps every counter in its range. */
  lemma TickInRange(t: Time)
    requires InRange(t)
    ensures InRange(Tick(t))
  {
  }

  /** On counters in range, a tick advances the clock by exactly one second. */
  lemma TickAddsOneSecond(t: Time)
    requires InRange(t)
    ensures Seconds(Tick(t)) == Seconds(t) + 1
  {
    var u := Tick(t);
    if t.second < 59 {
      assert u == t.(second := t.second + 1);
    } else if t.minute < 59 {
      assert u == t.(second := 0, minute := t.minute + 1);
    } else if t.hour < 23 {
      assert u == t.(second := 0, minute := 0, hour := t.hour + 1);
    } else {
      assert u == Time(0, 0, 0, t.day + 1);
    }
  }

  /** The counters in range are exactly the mixed-radix digits of the elapsed seconds. */
  lemma {:induction false} InRangeIsDigits(t: Time)
    requires InRange(t)
    ensures t.second == Seconds(t) % 60
    ensures t.minute == (Seconds(t) / 60) % 60
    ensures t.hour == (Seconds(t) / 3600) % 24
    ensures t.day == Seconds(t) / 86400
  {
    var m := (t.day * 24 + t.hour) * 60 + t.minute;
    assert Seconds(t) == m * 60 + t.second;
    assert Seconds(t) / 60 == m;
    var h := t.day * 24 + t.hour;
    assert m == h * 60 + t.minute;
    assert m % 60 == t.minute;
    assert Seconds(t) / 3600 == m / 60 == h;
    assert h % 24 == t.hour;
    assert Seconds(t) / 86400 == h / 24 == t.day;
  }

  /** Two in-range readings with the same elapsed seconds are the same reading. */
  lemma SecondsDetermineTime(t: Time, u: Time)
    requires InRange(t) && InRange(u) && Seconds(t) == Seconds(u)
    ensures t == u
  {
    InRangeIsDigits(t);
    InRangeIsDigits(u);
  }

  /** n ticks from a reading. */
  function Ticks(t: Time, n: nat): Time
    decreases n
  {
    if n == 0 then t else Ticks(Tick(t), n - 1)
  }

  /** After n ticks from counters in range the clock shows n more seconds, still in range. */
  lemma {:induction false} TicksAddSeconds(t: Time, n: nat)
    requires InRange(t)
    ensures InRange(Ticks(t, n)) && Seconds(Ticks(t, n)) == Seconds(t) + n
    decreases n
  {
    if n > 0 {
      TickInRange(t);
      TickAddsOneSecond(t);
      TicksAddSeconds(Tick(t), n - 1);
    }
  }

  /** Counters out of range are still carried by the tests that match exactly: 60 minutes roll over without a second carry. */
  lemma StaleMinuteRollsOver()
    ensures Tick(Time(10, 60, 3, 0)) == Time(11, 0, 4, 0)
  {
  }

  /** The `time` variable the interrupt updates in place. */
  class TimerCounters {
    var second: nat
    var minute: nat
    var hour: nat
    var day: nat

    function Now(): Time
      reads this
    {
      Time(second, minute, hour, day)
    }

    constructor()
      ensures Now() == Time(0, 0, 0, 0)
    {
      second, minute, hour, day := 0, 0, 0, 0;
    }

    /** TIMER1_A0_ISR: the counter updates (the compare register, LED and low-power exit are hardware). */
    method Timer1A0Isr()
      modifies this
      ensures Now() == Tick(old(Now()))
      ensures old(InRange(Now())) ==> InRange(Now()) && Seconds(Now()) == Seconds(old(Now())) + 1
    {
      ghost var t := Now();
      second := second + 1;
      if second == 60 {
        minute := minute + 1;
        second := 0;
      }
      if minute == 60 {
        hour := hour + 1;
        minute := 0;
      }
      if hour == 24 {
        day := day + 1;
        hour := 0;
      }
      if InRange(t) {
        TickInRange(t);
        TickAddsOneSecond(t);
      }
    }
  }
}

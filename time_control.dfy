/**
 * The firmware's redundant seconds counter
 * (firmware/fsat_beacon_msp430/system/time/time.c): a main and a backup copy
 * of (counter, crc8), each copy valid when its checksum matches its counter.
 * Reads repair the main copy from the backup; the one-second tick advances
 * the preferred valid copy and mirrors it into the other.
 */
module TimeControl {
  import opened Crc

  const TimeCrc8InitialValue: bv8 := 0x00
  const TimeCrc8Polynomial: bv8 := 0x07

  /** The four octets of the counter, most significant first, as time_crc8 extracts them. */
  function BigEndian(c: bv32): (bytes: seq<bv8>)
    ensures |bytes| == 4
  {
    [((c & 0xFF000000) >> 24) as bv8, ((c & 0x00FF0000) >> 16) as bv8,
     ((c & 0x0000FF00) >> 8) as bv8, (c & 0x000000FF) as bv8]
  }

  function FromBigEndian(bytes: seq<bv8>): bv32
    requires |bytes| == 4
  {
    ((bytes[0] as bv32) << 24) | ((bytes[1] as bv32) << 16) | ((bytes[2] as bv32) << 8) | (bytes[3] as bv32)
  }

  /** The octet extraction loses nothing: the counter is recovered from its four octets. */
  lemma BigEndianRoundTrip(c: bv32)
    ensures FromBigEndian(BigEndian(c)) == c
  {
  }

  /** The checksum of a counter: crc8 from 0x00 with polynomial 0x07 over its big-endian octets. */
  function TimeCrc(c: bv32): bv8
  {
    Crc8Value(TimeCrc8InitialValue, TimeCrc8Polynomial, BigEndian(c))
  }

  /** The all-zero copy is valid: the checksum of counter 0 is 0. */
  lemma TimeCrcOfZero()
    ensures TimeCrc(0) == 0
  {
    var z := BigEndian(0);
    assert z == [0, 0, 0, 0];
    Crc8OfZeros(TimeCrc8Polynomial, z);
  }

  /** time_crc8: the same nested loop as crc8, over the four extracted octets. */
  method TimeCrc8(timeCounter: bv32) returns (crc: bv8)
    ensures crc == TimeCrc(timeCounter)
  {
    var timeInBytes := BigEndian(timeCounter);
    crc := TimeCrc8InitialValue;
    var i := 0;
    while i < 32 / 8
      invariant 0 <= i <= 4
      invariant Crc8Value(crc, TimeCrc8Polynomial, timeInBytes[i..]) == TimeCrc(timeCounter)
    {
      ghost var before := crc;
      crc := crc ^ timeInBytes[i];
      var j := 0;
      while j < 8
        invariant 0 <= j <= 8
        invariant Crc8ShiftN(crc, TimeCrc8Polynomial, 8 - j) == Crc8Step(before, TimeCrc8Polynomial, timeInBytes[i])
      {
        crc := Crc8Shift(crc, TimeCrc8Polynomial);
        j := j + 1;
      }
      crc := crc & 0xFF;
      assert timeInBytes[i..][1..] == timeInBytes[i + 1..];
      i := i + 1;
    }
  }

  /** One copy of the time record. */
  datatype Copy = Copy(secondCounter: bv32, crc8: bv8)

  predicate CopyValid(t: Copy)
  {
    TimeCrc(t.secondCounter) == t.crc8
  }

  /** Both copies of the clock. */
  datatype Clock = Clock(main: Copy, backup: Copy)

  const ResetClock: Clock := Clock(Copy(0, 0), Copy(0, 0))

  lemma ResetIsValid()
    ensures CopyValid(ResetClock.main) && CopyValid(ResetClock.backup)
  {
    TimeCrcOfZero();
  }

  /** The effect of time_get_seconds on both copies. */
  function Repair(k: Clock): Clock
  {
    if CopyValid(k.main) then k
    else if CopyValid(k.backup) then Clock(k.backup, k.backup)
    else ResetClock
  }

  /** What a read returns and leaves: a valid main copy holding the returned counter. */
  lemma RepairMakesMainValid(k: Clock)
    ensures CopyValid(Repair(k).main)
    ensures CopyValid(k.main) ==> Repair(k) == k
    ensures !CopyValid(k.main) && CopyValid(k.backup) ==> Repair(k).main == k.backup && Repair(k).backup == k.backup
    ensures !CopyValid(k.main) && !CopyValid(k.backup) ==> Repair(k) == ResetClock
  {
    TimeCrcOfZero();
  }

  /** Repairing twice is repairing once. */
  lemma RepairIdempotent(k: Clock)
    ensures Repair(Repair(k)) == Repair(k)
  {
    RepairMakesMainValid(k);
  }

  /** The counter logic of time_timer_isr. */
  function Tick(k: Clock): Clock
  {
    if CopyValid(k.main) then
      var c := k.main.secondCounter + 1;
      Clock(Copy(c, TimeCrc(c)), Copy(c, TimeCrc(c)))
    else if CopyValid(k.backup) then
      var c := k.backup.secondCounter + 1;
      Clock(Copy(c, TimeCrc(c)), Copy(c, TimeCrc(c)))
    else ResetClock
  }

  /**
   * After a tick both copies are equal and valid; the counter is the main
   * copy's if valid (even when the backup is valid too), else the backup's,
   * plus one modulo 2^32; with both copies invalid the clock is reset.
   */
  lemma TickMirrorsAndAdvances(k: Clock)
    ensures Tick(k).main == Tick(k).backup && CopyValid(Tick(k).main)
    ensures CopyValid(k.main) ==> Tick(k).main.secondCounter == k.main.secondCounter + 1
    ensures !CopyValid(k.main) && CopyValid(k.backup) ==> Tick(k).main.secondCounter == k.backup.secondCounter + 1
    ensures !CopyValid(k.main) && !CopyValid(k.backup) ==> Tick(k) == ResetClock
  {
    if CopyValid(k.main) {
      TickFromMain(k);
    } else if CopyValid(k.backup) {
      TickFromBackup(k);
    } else {
      TimeCrcOfZero();
    }
  }

  lemma TickFromMain(k: Clock)
    requires CopyValid(k.main)
    ensures Tick(k).main == Tick(k).backup == Copy(k.main.secondCounter + 1, TimeCrc(k.main.secondCounter + 1))
  {
  }

  lemma TickFromBackup(k: Clock)
    requires !CopyValid(k.main) && CopyValid(k.backup)
    ensures Tick(k).main == Tick(k).backup == Copy(k.backup.secondCounter + 1, TimeCrc(k.backup.secondCounter + 1))
  {
  }

  /** From a valid clock a tick agrees with reading then adding one. */
  lemma TickAfterRead(k: Clock)
    ensures Tick(k).main.secondCounter
         == if CopyValid(k.main) || CopyValid(k.backup) then Repair(k).main.secondCounter + 1 else 0
  {
  }

  /** The counter wraps from 2^32 - 1 to 0. */
  lemma TickWraps()
    ensures Tick(Clock(Copy(0xFFFF_FFFF, TimeCrc(0xFFFF_FFFF)), Copy(0, 0))).main.secondCounter == 0
  {
  }

  /** The global `time` and `time_backup` records. */
  class TimeState {
    var time: Copy
    var timeBackup: Copy

    function Clk(): Clock
      reads this
    {
      Clock(time, timeBackup)
    }

    constructor ()
      ensures Clk() == ResetClock
    {
      time := Copy(0, 0);
      timeBackup := Copy(0, 0);
    }

    /** time_reset */
    method Reset()
      modifies this
      ensures Clk() == ResetClock
    {
      time := time.(secondCounter := 0);
      time := time.(crc8 := 0);
      timeBackup := timeBackup.(secondCounter := time.secondCounter);
      timeBackup := timeBackup.(crc8 := time.crc8);
    }

    /** time_get_seconds */
    method GetSeconds() returns (seconds: bv32)
      modifies this
      ensures Clk() == Repair(old(Clk()))
      ensures seconds == time.secondCounter
    {
      var mainCrc := TimeCrc8(time.secondCounter);
      if mainCrc != time.crc8 {
        var backupCrc := TimeCrc8(timeBackup.secondCounter);
        if backupCrc == timeBackup.crc8 {
          time := time.(secondCounter := timeBackup.secondCounter);
          time := time.(crc8 := timeBackup.crc8);
        } else {
          Reset();
        }
      }
      seconds := time.secondCounter;
    }

    /** `copy.second_counter++` followed by the recomputation of `copy.crc8`. */
    static method Increment(c: Copy) returns (n: Copy)
      ensures n == Copy(c.secondCounter + 1, TimeCrc(c.secondCounter + 1))
    {
      n := c.(secondCounter := c.secondCounter + 1);
      var crc := TimeCrc8(n.secondCounter);
      n := n.(crc8 := crc);
    }

    /** The counter part of time_timer_isr; the compare-register update and wake-up are hardware. */
    method TimerIsr()
      modifies this
      ensures Clk() == Tick(old(Clk()))
    {
      var mainCrc := TimeCrc8(time.secondCounter);
      if mainCrc == time.crc8 {
        TickFromMain(Clk());
        time := Increment(time);
        timeBackup := timeBackup.(secondCounter := time.secondCounter);
        timeBackup := timeBackup.(crc8 := time.crc8);
      } else {
        var backupCrc := TimeCrc8(timeBackup.secondCounter);
        if backupCrc == timeBackup.crc8 {
          TickFromBackup(Clk());
          timeBackup := Increment(timeBackup);
          time := time.(secondCounter := timeBackup.secondCounter);
          time := time.(crc8 := timeBackup.crc8);
        } else {
          Reset();
        }
      }
    }
  }
}

/**
 * The table-driven CRC-16 of the offline bitstream tool (gnuradio/bin2bin.py,
 * `crc16`). Python integers are unbounded; the model keeps the table builder's
 * registers and the running CRC in 32 bits, which is exact for a 16-bit
 * polynomial (table entries stay below 2^24) and a seed below 2^32.
 */
module PyCrc {
  import Crc

  // ------------------------------------------------------------------
  // The table as crc16 builds it
  // ------------------------------------------------------------------

  /** One pass of the table builder's inner loop on crc_t (c is shifted beside it). */
  function TableShift(crcT: bv32, c: bv32, poly: bv32): bv32
  {
    if (crcT ^ c) & 0x8000 != 0 then (crcT << 1) ^ poly else crcT << 1
  }

  /** `n` more passes of the inner loop from (crc_t, c); the result is the final crc_t. */
  function TableShifts(crcT: bv32, c: bv32, poly: bv32, n: nat): bv32
    decreases n
  {
    if n == 0 then crcT else TableShifts(TableShift(crcT, c, poly), c << 1, poly, n - 1)
  }

  /** Table entry `i` as appended by crc16: crc_t after eight passes, not masked to 16 bits. */
  function RawEntry(poly: bv16, i: bv32): bv32
  {
    TableShifts(0, i << 8, poly as bv32, 8)
  }

  function RawTable(poly: bv16): (t: seq<bv32>)
    ensures |t| == 256
  {
    seq(256, i requires 0 <= i < 256 => RawEntry(poly, i as bv32))
  }

  // ------------------------------------------------------------------
  // The fold over the data
  // ------------------------------------------------------------------

  /** One iteration of crc16's data loop: cc = 0xFF & c, tmp = (crc >> 8) ^ cc, then the masked update. */
  function CrcStep(table: seq<bv32>, crc: bv32, b: bv8): bv32
    requires |table| == 256
  {
    ((crc << 8) ^ table[(((crc >> 8) ^ (0xFF & (b as bv32))) & 0xFF) as int]) & 0xFFFF
  }

  /** The running crc after the data loop, from seed `crc`. */
  function CrcFold(table: seq<bv32>, crc: bv32, data: seq<bv8>): bv32
    requires |table| == 256
    decreases |data|
  {
    if |data| == 0 then crc else CrcFold(table, CrcStep(table, crc, data[0]), data[1..])
  }

  /** What crc16(poly, initial_value, data) returns. */
  function Crc16Value(poly: bv16, initialValue: bv32, data: seq<bv8>): bv32
  {
    CrcFold(RawTable(poly), initialValue, data)
  }

  /** The inner loop of crc16's table builder, for entry `i`. */
  method TableEntry(poly: bv16, i: bv32) returns (crcT: bv32)
    ensures crcT == RawEntry(poly, i)
  {
    crcT := 0;
    var c: bv32 := i;
    c := c << 8;
    ghost var c0 := c;
    var j := 0;
    while j < 8
      invariant 0 <= j <= 8
      invariant TableShifts(crcT, c, poly as bv32, 8 - j) == TableShifts(0, c0, poly as bv32, 8)
    {
      crcT := TableShift(crcT, c, poly as bv32);
      c := c << 1;
      j := j + 1;
    }
  }

  /** The first `n` entries of the table. */
  ghost predicate TablePrefix(poly: bv16, table: seq<bv32>, n: int)
  {
    0 <= n == |table| <= 256 && forall k :: 0 <= k < n ==> table[k] == RawEntry(poly, k as bv32)
  }

  lemma TablePrefixStep(poly: bv16, table: seq<bv32>, n: int, e: bv32)
    requires TablePrefix(poly, table, n) && n < 256
    requires e == RawEntry(poly, n as bv32)
    ensures TablePrefix(poly, table + [e], n + 1)
  {
  }

  lemma TablePrefixComplete(poly: bv16, table: seq<bv32>)
    requires TablePrefix(poly, table, 256)
    ensures table == RawTable(poly)
  {
  }

  /** The outer loop of crc16's table builder. */
  method BuildTable(poly: bv16) returns (table: seq<bv32>)
    ensures table == RawTable(poly)
  {
    table := [];
    var i := 0;
    while i < 256
      invariant 0 <= i <= 256
      invariant TablePrefix(poly, table, i)
    {
      var crcT := TableEntry(poly, i as bv32);
      TablePrefixStep(poly, table, i, crcT);
      table := table + [crcT];
      i := i + 1;
    }
    TablePrefixComplete(poly, table);
  }

  /**
   * crc16(poly, initial_value, data): build the 256-entry table, then fold
   * the data through it.
   */
  method Crc16(poly: bv16, initialValue: bv32, data: seq<bv8>) returns (crc: bv32)
    ensures crc == Crc16Value(poly, initialValue, data)
    ensures |data| == 0 ==> crc == initialValue
    ensures |data| > 0 ==> crc <= 0xFFFF
  {
    var table := BuildTable(poly);
    crc := initialValue;
    var k := 0;
    while k < |data|
      invariant 0 <= k <= |data|
      invariant CrcFold(table, crc, data[k..]) == CrcFold(table, initialValue, data)
      invariant k > 0 ==> crc <= 0xFFFF
    {
      assert CrcFold(table, crc, data[k..]) == CrcFold(table, CrcStep(table, crc, data[k]), data[k + 1..]);
      crc := CrcStep(table, crc, data[k]);
      k := k + 1;
    }
  }

  /** crc16 is a left fold: the seed is only the starting register. */
  lemma {:induction false} CrcFoldAppend(table: seq<bv32>, crc: bv32, a: seq<bv8>, b: seq<bv8>)
    requires |table| == 256
    ensures CrcFold(table, crc, a + b) == CrcFold(table, CrcFold(table, crc, a), b)
    decreases |a|
  {
    if |a| == 0 {
      assert a + b == b;
    } else {
      assert (a + b)[1..] == a[1..] + b;
      CrcFoldAppend(table, CrcStep(table, crc, a[0]), a[1..], b);
    }
  }

  lemma Crc16Append(poly: bv16, initialValue: bv32, a: seq<bv8>, b: seq<bv8>)
    ensures Crc16Value(poly, initialValue, a + b) == Crc16Value(poly, Crc16Value(poly, initialValue, a), b)
  {
    CrcFoldAppend(RawTable(poly), initialValue, a, b);
  }

  /** After at least one byte the register is 16 bits wide, whatever the seed. */
  lemma {:induction false} CrcFoldBound(table: seq<bv32>, crc: bv32, data: seq<bv8>)
    requires |table| == 256 && |data| > 0
    ensures CrcFold(table, crc, data) <= 0xFFFF
    decreases |data|
  {
    if |data| > 1 {
      CrcFoldBound(table, CrcStep(table, crc, data[0]), data[1..]);
    }
  }

  lemma Crc16Bound(poly: bv16, initialValue: bv32, data: seq<bv8>)
    requires |data| > 0
    ensures Crc16Value(poly, initialValue, data) <= 0xFFFF
  {
    CrcFoldBound(RawTable(poly), initialValue, data);
  }

  // ------------------------------------------------------------------
  // Appending the register (high byte first) clears it
  // ------------------------------------------------------------------

  lemma {:induction false} ZeroPasses(poly: bv32, n: nat)
    ensures TableShifts(0, 0, poly, n) == 0
    decreases n
  {
    if n > 0 {
      assert TableShift(0, 0, poly) == 0;
      ZeroPasses(poly, n - 1);
    }
  }

  /** Entry 0 of the table is zero for every polynomial. */
  lemma TableEntryZero(poly: bv16)
    ensures RawTable(poly)[0] == 0
  {
    ZeroPasses(poly as bv32, 8);
  }

  lemma OwnHighByteBits(crc: bv32, b: bv8)
    requires crc <= 0xFFFF && b as bv32 == crc >> 8
    ensures (((crc >> 8) ^ (0xFF & (b as bv32))) & 0xFF) == 0
    ensures ((crc << 8) ^ 0) & 0xFFFF == (crc & 0xFF) << 8
  {
  }

  /** Feeding the register's own high byte selects entry 0 and shifts the low byte up. */
  lemma StepWithOwnHighByte(t: seq<bv32>, crc: bv32, b: bv8)
    requires |t| == 256 && t[0] == 0
    requires crc <= 0xFFFF && b as bv32 == crc >> 8
    ensures CrcStep(t, crc, b) == (crc & 0xFF) << 8
  {
    OwnHighByteBits(crc, b);
  }

  lemma ShiftedLowByte(crc: bv32, lo: bv8)
    requires lo as bv32 == crc & 0xFF
    ensures (crc & 0xFF) << 8 <= 0xFFFF
    ensures lo as bv32 == ((crc & 0xFF) << 8) >> 8
    ensures ((((crc & 0xFF) << 8) & 0xFF) << 8) == 0
  {
  }

  lemma TwoStepsToZero(t: seq<bv32>, crc: bv32, hi: bv8, lo: bv8)
    requires |t| == 256 && t[0] == 0
    requires crc <= 0xFFFF && hi as bv32 == crc >> 8 && lo as bv32 == crc & 0xFF
    ensures CrcFold(t, crc, [hi, lo]) == 0
  {
    var crc1 := (crc & 0xFF) << 8;
    StepWithOwnHighByte(t, crc, hi);
    ShiftedLowByte(crc, lo);
    StepWithOwnHighByte(t, crc1, lo);
    assert [hi, lo][1..] == [lo];
    assert CrcFold(t, crc, [hi, lo]) == CrcFold(t, crc1, [lo]);
    assert CrcFold(t, crc1, [lo]) == CrcFold(t, CrcStep(t, crc1, lo), []);
  }

  /**
   * The receiver's check: running crc16 on the data followed by its own
   * 16-bit result, high byte first, leaves a zero register.
   */
  lemma Crc16Residue(poly: bv16, initialValue: bv32, data: seq<bv8>, hi: bv8, lo: bv8)
    requires Crc16Value(poly, initialValue, data) <= 0xFFFF
    requires hi as bv32 == Crc16Value(poly, initialValue, data) >> 8
    requires lo as bv32 == Crc16Value(poly, initialValue, data) & 0xFF
    ensures Crc16Value(poly, initialValue, data + [hi, lo]) == 0
  {
    Crc16Append(poly, initialValue, data, [hi, lo]);
    TableEntryZero(poly);
    TwoStepsToZero(RawTable(poly), Crc16Value(poly, initialValue, data), hi, lo);
  }

  /**
   * The regression value: crc16(0x8005, 0xFFFF, [0x17]) is 0xFD70. The one
   * data byte selects table entry 0xE8, which is 0x580270 before masking.
   */
  lemma GoldenValue(data: seq<bv8>)
    requires data == [0x17]
    ensures Crc16Value(0x8005, 0xFFFF, data) == 0xFD70
  {
    var t := RawTable(0x8005);
    assert t[0xE8] == RawEntry(0x8005, 0xE8) == 0x580270;
    assert CrcStep(t, 0xFFFF, 0x17) == 0xFD70;
    assert data[0] == 0x17 && data[1..] == [];
    assert CrcFold(t, 0xFFFF, data) == CrcFold(t, 0xFD70, []);
  }

  // ------------------------------------------------------------------
  // The unmasked table computes the textbook CRC-16
  // ------------------------------------------------------------------

  /** The builder's `c` after `n` passes of its inner loop. */
  function ShiftedC(c: bv32, n: nat): bv32
    decreases n
  {
    if n == 0 then c else ShiftedC(c << 1, n - 1)
  }

  /** The low 16 bits of crc_t ^ c hold the textbook register r. */
  predicate Tracks(crcT: bv32, c: bv32, r: bv16)
  {
    (crcT ^ c) & 0xFFFF == r as bv32
  }

  /** crc_t ^ c had its bit 15 set: both registers shift and take the polynomial. */
  lemma StepWithPoly(t: bv32, c: bv32, poly: bv16, r: bv16, t1: bv32, c1: bv32, r1: bv16)
    requires Tracks(t, c, r) && t1 == (t << 1) ^ poly as bv32 && c1 == c << 1 && r1 == (r << 1) ^ poly
    ensures Tracks(t1, c1, r1)
  {}

  lemma StepWithoutPoly(t: bv32, c: bv32, r: bv16, t1: bv32, c1: bv32, r1: bv16)
    requires Tracks(t, c, r) && t1 == t << 1 && c1 == c << 1 && r1 == r << 1
    ensures Tracks(t1, c1, r1)
  {
    StepWithPoly(t, c, 0, r, t1, c1, r1);
  }

  lemma TableShiftTop(t: bv32, c: bv32, poly: bv32)
    requires (t ^ c) & 0x8000 != 0
    ensures TableShift(t, c, poly) == (t << 1) ^ poly
  {}

  lemma TableShiftNoTop(t: bv32, c: bv32, poly: bv32)
    requires (t ^ c) & 0x8000 == 0
    ensures TableShift(t, c, poly) == t << 1
  {}

  lemma TracksWithPoly(t: bv32, c: bv32, poly: bv16, r: bv16, t1: bv32, c1: bv32, r1: bv16)
    requires Tracks(t, c, r) && (t ^ c) & 0x8000 != 0
    requires t1 == TableShift(t, c, poly as bv32) && c1 == c << 1 && r1 == Crc.ShiftMsb16(r, poly)
    ensures Tracks(t1, c1, r1)
  {
    TopBit(t, c, r);
    TableShiftTop(t, c, poly as bv32);
    ShiftTop(r, poly);
    StepWithPoly(t, c, poly, r, t1, c1, r1);
  }

  lemma TracksWithoutPoly(t: bv32, c: bv32, poly: bv16, r: bv16, t1: bv32, c1: bv32, r1: bv16)
    requires Tracks(t, c, r) && (t ^ c) & 0x8000 == 0
    requires t1 == TableShift(t, c, poly as bv32) && c1 == c << 1 && r1 == Crc.ShiftMsb16(r, poly)
    ensures Tracks(t1, c1, r1)
  {
    TopBit(t, c, r);
    TableShiftNoTop(t, c, poly as bv32);
    ShiftNoTop(r, poly);
    StepWithoutPoly(t, c, r, t1, c1, r1);
  }

  lemma TopBit(t: bv32, c: bv32, r: bv16)
    requires (t ^ c) & 0xFFFF == r as bv32
    ensures ((t ^ c) & 0x8000 != 0) == (r & 0x8000 != 0)
  {}

  lemma TracksStep(t: bv32, c: bv32, poly: bv16, r: bv16, t1: bv32, c1: bv32, r1: bv16)
    requires Tracks(t, c, r)
    requires t1 == TableShift(t, c, poly as bv32) && c1 == c << 1 && r1 == Crc.ShiftMsb16(r, poly)
    ensures Tracks(t1, c1, r1)
  {
    if (t ^ c) & 0x8000 != 0 {
      TracksWithPoly(t, c, poly, r, t1, c1, r1);
    } else {
      TracksWithoutPoly(t, c, poly, r, t1, c1, r1);
    }
  }

  lemma TableShiftsStep(t: bv32, c: bv32, poly: bv32, n: nat, t1: bv32, c1: bv32)
    requires n > 0 && t1 == TableShift(t, c, poly) && c1 == c << 1
    ensures TableShifts(t, c, poly, n) == TableShifts(t1, c1, poly, n - 1)
    ensures ShiftedC(c, n) == ShiftedC(c1, n - 1)
  {}

  /** The builder's crc_t and c keep tracking the textbook register through any number of passes. */
  lemma {:induction false} TracksShifts(t: bv32, c: bv32, poly: bv16, r: bv16, n: nat)
    requires Tracks(t, c, r)
    ensures Tracks(TableShifts(t, c, poly as bv32, n), ShiftedC(c, n), Crc.ShiftMsb16N(r, poly, n))
    decreases n
  {
    if n > 0 {
      var t1, c1, r1 := TableShift(t, c, poly as bv32), c << 1, Crc.ShiftMsb16(r, poly);
      TracksStep(t, c, poly, r, t1, c1, r1);
      TracksShifts(t1, c1, poly, r1, n - 1);
      TableShiftsStep(t, c, poly as bv32, n, t1, c1);
      Crc.ShiftStep(r, poly, n, r1);
    }
  }

  lemma ShiftedCEight(c: bv32, c8: bv32)
    requires c8 == (((((((c << 1) << 1) << 1) << 1) << 1) << 1) << 1) << 1
    ensures ShiftedC(c, 8) == c8
  {
  }

  lemma EntryStart(i: bv8)
    ensures Tracks(0, (i as bv32) << 8, (i as bv16) << 8)
  {}

  lemma EntryEnd(e: bv32, i: bv8, c8: bv32, r: bv16)
    requires Tracks(e, c8, r)
    requires c8 == ((((((((((i as bv32) << 8) << 1) << 1) << 1) << 1) << 1) << 1) << 1) << 1)
    ensures e & 0xFFFF == r as bv32
  {}

  /** The low 16 bits of table entry i are the textbook register 0xii00 after eight shifts. */
  lemma RawEntryLow16(poly: bv16, i: bv8)
    ensures RawEntry(poly, i as bv32) & 0xFFFF == Crc.ShiftMsb16N((i as bv16) << 8, poly, 8) as bv32
  {
    var c := (i as bv32) << 8;
    var c8 := (((((((c << 1) << 1) << 1) << 1) << 1) << 1) << 1) << 1;
    EntryStart(i);
    TracksShifts(0, c, poly, (i as bv16) << 8, 8);
    ShiftedCEight(c, c8);
    EntryEnd(RawEntry(poly, i as bv32), i, c8, Crc.ShiftMsb16N((i as bv16) << 8, poly, 8));
  }

  /** z is x ^ y: the relation textbook shifts preserve (they are linear over GF(2)). */
  predicate XorOf(z: bv16, x: bv16, y: bv16)
  {
    z == x ^ y
  }

  lemma BothTop(x: bv16, y: bv16, poly: bv16)
    requires x & 0x8000 != 0 && y & 0x8000 != 0
    ensures (x ^ y) & 0x8000 == 0 && (x ^ y) << 1 == ((x << 1) ^ poly) ^ ((y << 1) ^ poly)
  {}

  lemma OneTop(x: bv16, y: bv16, poly: bv16)
    requires x & 0x8000 != 0 && y & 0x8000 == 0
    ensures (x ^ y) & 0x8000 != 0 && ((x ^ y) << 1) ^ poly == ((x << 1) ^ poly) ^ (y << 1)
  {}

  lemma NoTop(x: bv16, y: bv16)
    requires x & 0x8000 == 0 && y & 0x8000 == 0
    ensures (x ^ y) & 0x8000 == 0 && (x ^ y) << 1 == (x << 1) ^ (y << 1)
  {}

  lemma ShiftTop(x: bv16, poly: bv16)
    requires x & 0x8000 != 0
    ensures Crc.ShiftMsb16(x, poly) == (x << 1) ^ poly
  {}

  lemma ShiftNoTop(x: bv16, poly: bv16)
    requires x & 0x8000 == 0
    ensures Crc.ShiftMsb16(x, poly) == x << 1
  {}

  lemma LinearBothTop(x: bv16, y: bv16, poly: bv16)
    requires x & 0x8000 != 0 && y & 0x8000 != 0
    ensures XorOf(Crc.ShiftMsb16(x ^ y, poly), Crc.ShiftMsb16(x, poly), Crc.ShiftMsb16(y, poly))
  {
    BothTop(x, y, poly);
    ShiftTop(x, poly);
    ShiftTop(y, poly);
    ShiftNoTop(x ^ y, poly);
  }

  lemma LinearFirstTop(x: bv16, y: bv16, poly: bv16)
    requires x & 0x8000 != 0 && y & 0x8000 == 0
    ensures XorOf(Crc.ShiftMsb16(x ^ y, poly), Crc.ShiftMsb16(x, poly), Crc.ShiftMsb16(y, poly))
  {
    OneTop(x, y, poly);
    ShiftTop(x, poly);
    ShiftNoTop(y, poly);
    ShiftTop(x ^ y, poly);
  }

  lemma LinearSecondTop(x: bv16, y: bv16, poly: bv16)
    requires x & 0x8000 == 0 && y & 0x8000 != 0
    ensures XorOf(Crc.ShiftMsb16(x ^ y, poly), Crc.ShiftMsb16(x, poly), Crc.ShiftMsb16(y, poly))
  {
    OneTop(y, x, poly);
    assert y ^ x == x ^ y;
    ShiftNoTop(x, poly);
    ShiftTop(y, poly);
    ShiftTop(x ^ y, poly);
  }

  lemma LinearNoTop(x: bv16, y: bv16, poly: bv16)
    requires x & 0x8000 == 0 && y & 0x8000 == 0
    ensures XorOf(Crc.ShiftMsb16(x ^ y, poly), Crc.ShiftMsb16(x, poly), Crc.ShiftMsb16(y, poly))
  {
    NoTop(x, y);
    ShiftNoTop(x, poly);
    ShiftNoTop(y, poly);
    ShiftNoTop(x ^ y, poly);
  }

  /** One textbook shift is linear over xor. */
  lemma ShiftLinear(x: bv16, y: bv16, poly: bv16)
    ensures XorOf(Crc.ShiftMsb16(x ^ y, poly), Crc.ShiftMsb16(x, poly), Crc.ShiftMsb16(y, poly))
  {
    if x & 0x8000 != 0 && y & 0x8000 != 0 {
      LinearBothTop(x, y, poly);
    } else if x & 0x8000 != 0 {
      LinearFirstTop(x, y, poly);
    } else if y & 0x8000 != 0 {
      LinearSecondTop(x, y, poly);
    } else {
      LinearNoTop(x, y, poly);
    }
  }

  /** Any number of textbook shifts is linear over xor. */
  lemma {:induction false} ShiftsLinear(z: bv16, x: bv16, y: bv16, poly: bv16, n: nat)
    requires XorOf(z, x, y)
    ensures XorOf(Crc.ShiftMsb16N(z, poly, n), Crc.ShiftMsb16N(x, poly, n), Crc.ShiftMsb16N(y, poly, n))
    decreases n
  {
    if n > 0 {
      var z1, x1, y1 := Crc.ShiftMsb16(z, poly), Crc.ShiftMsb16(x, poly), Crc.ShiftMsb16(y, poly);
      ShiftLinear(x, y, poly);
      ShiftsLinear(z1, x1, y1, poly, n - 1);
      Crc.ShiftStep(z, poly, n, z1);
      Crc.ShiftStep(x, poly, n, x1);
      Crc.ShiftStep(y, poly, n, y1);
    }
  }

  /** The low byte moved up one place at a time never reaches bit 15 before the last move. */
  lemma LowByteMoves(lo: bv16, s1: bv16, s2: bv16, s3: bv16, s4: bv16, s5: bv16, s6: bv16, s7: bv16, s8: bv16)
    requires lo <= 0xFF
    requires s1 == lo << 1 && s2 == s1 << 1 && s3 == s2 << 1 && s4 == s3 << 1
    requires s5 == s4 << 1 && s6 == s5 << 1 && s7 == s6 << 1 && s8 == s7 << 1
    ensures lo & 0x8000 == 0 && s1 & 0x8000 == 0 && s2 & 0x8000 == 0 && s3 & 0x8000 == 0
    ensures s4 & 0x8000 == 0 && s5 & 0x8000 == 0 && s6 & 0x8000 == 0 && s7 & 0x8000 == 0
    ensures s8 == lo << 8
  {}

  /** A register holding only a low byte comes out of eight shifts as that byte moved up. */
  lemma LowByteShifts(lo: bv16, poly: bv16)
    requires lo <= 0xFF
    ensures Crc.ShiftMsb16N(lo, poly, 8) == lo << 8
  {
    var s1 := lo << 1;
    var s2 := s1 << 1;
    var s3 := s2 << 1;
    var s4 := s3 << 1;
    var s5 := s4 << 1;
    var s6 := s5 << 1;
    var s7 := s6 << 1;
    var s8 := s7 << 1;
    LowByteMoves(lo, s1, s2, s3, s4, s5, s6, s7, s8);
    ShiftNoTop(lo, poly);
    ShiftNoTop(s1, poly);
    ShiftNoTop(s2, poly);
    ShiftNoTop(s3, poly);
    ShiftNoTop(s4, poly);
    ShiftNoTop(s5, poly);
    ShiftNoTop(s6, poly);
    ShiftNoTop(s7, poly);
    Crc.ShiftMsb16N8(lo, poly);
  }

  lemma RawTableAt(poly: bv16, j: bv32)
    requires j <= 0xFF
    ensures RawTable(poly)[j as int] == RawEntry(poly, j)
  {}

  /** The update of a data-loop pass once the table entry e is looked up. */
  function StepWith(crc: bv32, e: bv32): bv32
  {
    ((crc << 8) ^ e) & 0xFFFF
  }

  /** One pass of the data loop, with the table entry it looks up named e. */
  lemma StepIs(table: seq<bv32>, crc: bv32, b: bv8, j: bv32, e: bv32)
    requires |table| == 256
    requires j == ((crc >> 8) ^ (0xFF & (b as bv32))) & 0xFF && e == table[j as int]
    ensures CrcStep(table, crc, b) == StepWith(crc, e)
  {}

  /** The register's low 16 bits, split into the looked-up index byte and the low octet. */
  lemma SplitStep(crc: bv32, b: bv8, r: bv16, j: bv32, h: bv8, lo: bv16)
    requires r as bv32 == crc & 0xFFFF
    requires j == ((crc >> 8) ^ (0xFF & (b as bv32))) & 0xFF && h as bv32 == j && lo == r & 0xFF
    ensures j <= 0xFF && lo <= 0xFF
    ensures XorOf(r ^ ((b as bv16) << 8), (h as bv16) << 8, lo)
    ensures (crc << 8) & 0xFFFF == (lo << 8) as bv32
  {}

  lemma IndexBound(j: bv32)
    requires j <= 0xFF
    ensures 0 <= j as int < 256
  {}

  /** x holds the 16-bit value r in its low 16 bits. */
  predicate LowBits(x: bv32, r: bv16)
  {
    x & 0xFFFF == r as bv32
  }

  lemma EntryLowBits(poly: bv16, j: bv32, h: bv8)
    requires h as bv32 == j
    ensures LowBits(RawEntry(poly, j), Crc.ShiftMsb16N((h as bv16) << 8, poly, 8))
  {
    RawEntryLow16(poly, h);
  }

  lemma CombineStep(crc: bv32, e: bv32, lo: bv16, a: bv16, z: bv16)
    requires (crc << 8) & 0xFFFF == (lo << 8) as bv32 && LowBits(e, a) && XorOf(z, a, lo << 8)
    ensures StepWith(crc, e) == z as bv32
  {}

  /** The table side of a data-loop pass. */
  lemma TableLookup(poly: bv16, j: bv32, h: bv8)
    requires j <= 0xFF && h as bv32 == j
    ensures LowBits(RawTable(poly)[j as int], Crc.ShiftMsb16N((h as bv16) << 8, poly, 8))
  {
    RawTableAt(poly, j);
    EntryLowBits(poly, j, h);
  }

  /** A data-loop pass over any table whose looked-up entry has low 16 bits a. */
  lemma TableStep(t: seq<bv32>, crc: bv32, b: bv8, j: bv32, e: bv32, lo: bv16, a: bv16, z: bv16)
    requires |t| == 256
    requires j == ((crc >> 8) ^ (0xFF & (b as bv32))) & 0xFF && e == t[j as int]
    requires (crc << 8) & 0xFFFF == (lo << 8) as bv32
    requires LowBits(e, a) && XorOf(z, a, lo << 8)
    ensures CrcStep(t, crc, b) == z as bv32
  {
    StepIs(t, crc, b, j, e);
    CombineStep(crc, e, lo, a, z);
  }

  /** The textbook side: eight shifts of the index byte and of the low octet, combined by linearity. */
  lemma BitwiseSide(poly: bv16, r: bv16, b: bv8, hi: bv16, lo: bv16)
    requires XorOf(r ^ ((b as bv16) << 8), hi, lo) && lo <= 0xFF
    ensures XorOf(Crc.BitwiseByte16(r, poly, b), Crc.ShiftMsb16N(hi, poly, 8), lo << 8)
  {
    LowByteShifts(lo, poly);
    ShiftsLinear(r ^ ((b as bv16) << 8), hi, lo, poly, 8);
    BitwiseByteIs(r, poly, b, r ^ ((b as bv16) << 8));
  }

  lemma BitwiseByteIs(r: bv16, poly: bv16, b: bv8, x: bv16)
    requires x == r ^ ((b as bv16) << 8)
    ensures Crc.BitwiseByte16(r, poly, b) == Crc.ShiftMsb16N(x, poly, 8)
  {}

  /**
   * How a data-loop pass splits the register: r is its low 16 bits, j the table index,
   * h that index as a byte, hi the byte in the high half and lo the low octet of r.
   */
  predicate Split(crc: bv32, b: bv8, r: bv16, j: bv32, h: bv8, lo: bv16, hi: bv16)
  {
    && r as bv32 == crc & 0xFFFF && lo == r & 0xFF
    && j == ((crc >> 8) ^ (0xFF & (b as bv32))) & 0xFF && j <= 0xFF
    && h as bv32 == j && hi == (h as bv16) << 8
  }

  /** The textbook half of a pass: the split register, shifted eight times. */
  lemma BitwisePart(poly: bv16, crc: bv32, b: bv8, r: bv16, j: bv32, h: bv8, lo: bv16, hi: bv16)
    requires Split(crc, b, r, j, h, lo, hi)
    ensures XorOf(Crc.BitwiseByte16(r, poly, b), Crc.ShiftMsb16N(hi, poly, 8), lo << 8)
    ensures (crc << 8) & 0xFFFF == (lo << 8) as bv32
  {
    SplitStep(crc, b, r, j, h, lo);
    BitwiseSide(poly, r, b, hi, lo);
  }

  /** The table half of a pass: the looked-up entry supplies the shifted index byte. */
  lemma TablePart(poly: bv16, crc: bv32, b: bv8, r: bv16, j: bv32, h: bv8, lo: bv16, hi: bv16, z: bv16)
    requires Split(crc, b, r, j, h, lo, hi)
    requires (crc << 8) & 0xFFFF == (lo << 8) as bv32 && XorOf(z, Crc.ShiftMsb16N(hi, poly, 8), lo << 8)
    ensures CrcStep(RawTable(poly), crc, b) == z as bv32
  {
    IndexBound(j);
    TableLookup(poly, j, h);
    TableStep(RawTable(poly), crc, b, j, RawTable(poly)[j as int], lo, Crc.ShiftMsb16N(hi, poly, 8), z);
  }

  lemma CrcStepParts(poly: bv16, crc: bv32, b: bv8, r: bv16, j: bv32, h: bv8, lo: bv16, hi: bv16, z: bv16)
    requires Split(crc, b, r, j, h, lo, hi) && z == Crc.BitwiseByte16(r, poly, b)
    ensures CrcStep(RawTable(poly), crc, b) == z as bv32
  {
    BitwisePart(poly, crc, b, r, j, h, lo, hi);
    TablePart(poly, crc, b, r, j, h, lo, hi, z);
  }

  /** The casts that split the register. */
  lemma SplitCasts(crc: bv32, b: bv8, r: bv16, j: bv32, h: bv8)
    requires r as bv32 == crc & 0xFFFF
    requires j == ((crc >> 8) ^ (0xFF & (b as bv32))) & 0xFF && j <= 0xFF && h == j as bv8
    ensures Split(crc, b, r, j, h, r & 0xFF, (h as bv16) << 8)
  {}

  lemma IndexByte(crc: bv32, b: bv8, j: bv32)
    requires j == ((crc >> 8) ^ (0xFF & (b as bv32))) & 0xFF
    ensures j <= 0xFF
  {}

  lemma CrcStepAt(poly: bv16, crc: bv32, b: bv8, r: bv16, z: bv16)
    requires r as bv32 == crc & 0xFFFF && z == Crc.BitwiseByte16(r, poly, b)
    ensures CrcStep(RawTable(poly), crc, b) == z as bv32
  {
    var j := ((crc >> 8) ^ (0xFF & (b as bv32))) & 0xFF;
    IndexByte(crc, b, j);
    var h := j as bv8;
    SplitCasts(crc, b, r, j, h);
    CrcStepParts(poly, crc, b, r, j, h, r & 0xFF, (h as bv16) << 8, z);
  }

  /** One pass of crc16's data loop is the textbook byte step on the register's low 16 bits r. */
  lemma CrcStepIsBitwise(poly: bv16, crc: bv32, b: bv8, r: bv16)
    requires r as bv32 == crc & 0xFFFF
    ensures CrcStep(RawTable(poly), crc, b) == Crc.BitwiseByte16(r, poly, b) as bv32
  {
    CrcStepAt(poly, crc, b, r, Crc.BitwiseByte16(r, poly, b));
  }

  lemma FoldStep(t: seq<bv32>, crc: bv32, data: seq<bv8>, c1: bv32)
    requires |t| == 256 && |data| > 0 && c1 == CrcStep(t, crc, data[0])
    ensures CrcFold(t, crc, data) == CrcFold(t, c1, data[1..])
  {}

  lemma BitwiseStep(r: bv16, poly: bv16, data: seq<bv8>, r1: bv16)
    requires |data| > 0 && r1 == Crc.BitwiseByte16(r, poly, data[0])
    ensures Crc.BitwiseCrc16(r, poly, data) == Crc.BitwiseCrc16(r1, poly, data[1..])
  {}

  lemma Widened(crc: bv32, r: bv16)
    requires crc == r as bv32
    ensures r as bv32 == crc & 0xFFFF
  {}

  /** From a register that already fits in 16 bits, crc16's data loop is the textbook CRC. */
  lemma {:induction false} CrcFoldIsBitwise(poly: bv16, crc: bv32, r: bv16, data: seq<bv8>)
    requires crc == r as bv32
    ensures CrcFold(RawTable(poly), crc, data) == Crc.BitwiseCrc16(r, poly, data) as bv32
    decreases |data|
  {
    if |data| > 0 {
      var c1 := CrcStep(RawTable(poly), crc, data[0]);
      var r1 := Crc.BitwiseByte16(r, poly, data[0]);
      Widened(crc, r);
      CrcStepIsBitwise(poly, crc, data[0], r);
      CrcFoldIsBitwise(poly, c1, r1, data[1..]);
      FoldStep(RawTable(poly), crc, data, c1);
      BitwiseStep(r, poly, data, r1);
    }
  }

  lemma Narrowed(seed: bv32, r: bv16)
    requires seed <= 0xFFFF && r == seed as bv16
    ensures seed == r as bv32
  {}

  /** With a 16-bit initial value, crc16 is the textbook MSB-first CRC-16 for the same polynomial. */
  lemma Crc16IsBitwise(poly: bv16, seed: bv32, data: seq<bv8>)
    requires seed <= 0xFFFF
    ensures Crc16Value(poly, seed, data) == Crc.BitwiseCrc16(seed as bv16, poly, data) as bv32
  {
    Narrowed(seed, seed as bv16);
    CrcFoldIsBitwise(poly, seed, seed as bv16, data);
  }

  /** With any initial value and some data, only the value's low 16 bits r matter. */
  lemma Crc16IsBitwiseMasked(poly: bv16, seed: bv32, r: bv16, data: seq<bv8>)
    requires |data| > 0 && r as bv32 == seed & 0xFFFF
    ensures Crc16Value(poly, seed, data) == Crc.BitwiseCrc16(r, poly, data) as bv32
  {
    var c1 := CrcStep(RawTable(poly), seed, data[0]);
    var r1 := Crc.BitwiseByte16(r, poly, data[0]);
    CrcStepIsBitwise(poly, seed, data[0], r);
    CrcFoldIsBitwise(poly, c1, r1, data[1..]);
    FoldStep(RawTable(poly), seed, data, c1);
    BitwiseStep(r, poly, data, r1);
  }
}

/**
 * CRC routines of the beacon firmware: the placeholder crc16, the
 * table-less CRC-16-CCITT used for the AX.25 frame check sequence and the
 * bitwise CRC-8 used to protect the time counter.
 *
 * Each C routine is a `method` with the C loop; each is proved equal to a
 * left fold (`Ccitt`, `Crc8Value`) over the bytes it reads, and the folds'
 * own properties are lemmas.
 */
module Crc {

  /** The generic crc16 entry point is a placeholder: it ignores its inputs. */
  function Crc16(initialValue: bv16, polynomial: bv8, data: seq<bv8>, size: bv8): (r: bv16)
    ensures r == 0
  {
    0x00
  }

  // ---------------------------------------------------------------------
  // CRC-16-CCITT (polynomial 0x1021), the nibble-folding formulation
  // ---------------------------------------------------------------------

  /**
   * crc16_CCITT's `x ^= x >> 4`. The uint8_t temporary is held in a 16-bit
   * register: it is always below 256, so nothing is lost.
   */
  function CcittFold(x: bv16): bv16 { x ^ (x >> 4) }

  /** crc16_CCITT's register update from the folded temporary, truncated to 16 bits. */
  function CcittMix(crc: bv16, x: bv16): bv16
  {
    (crc << 8) ^ (x << 12) ^ (x << 5) ^ x
  }

  /** One iteration of crc16_CCITT's loop. */
  function CcittStep(crc: bv16, b: bv8): bv16
  {
    CcittMix(crc, CcittFold((crc >> 8) ^ (b as bv16)))
  }

  /** The CRC register after feeding `data`, starting from `crc`. */
  function Ccitt(crc: bv16, data: seq<bv8>): bv16
    decreases |data|
  {
    if |data| == 0 then crc else Ccitt(CcittStep(crc, data[0]), data[1..])
  }

  /** One shift of the textbook MSB-first CRC register with polynomial `poly`. */
  function ShiftMsb16(crc: bv16, poly: bv16): bv16
  {
    if crc & 0x8000 != 0 then (crc << 1) ^ poly else crc << 1
  }

  function ShiftMsb16N(crc: bv16, poly: bv16, n: nat): bv16
    decreases n
  {
    if n == 0 then crc else ShiftMsb16N(ShiftMsb16(crc, poly), poly, n - 1)
  }

  /** The textbook byte step: xor the byte into the high octet, then shift eight times. */
  function BitwiseByte16(crc: bv16, poly: bv16, b: bv8): bv16
  {
    ShiftMsb16N(crc ^ ((b as bv16) << 8), poly, 8)
  }

  /** Eight shifts, written out. */
  lemma ShiftMsb16N8(r: bv16, poly: bv16)
    ensures ShiftMsb16N(r, poly, 8)
         == ShiftMsb16(ShiftMsb16(ShiftMsb16(ShiftMsb16(ShiftMsb16(ShiftMsb16(ShiftMsb16(ShiftMsb16(
              r, poly), poly), poly), poly), poly), poly), poly), poly)
  {
    var r1 := ShiftMsb16(r, poly);
    var r2 := ShiftMsb16(r1, poly);
    var r3 := ShiftMsb16(r2, poly);
    var r4 := ShiftMsb16(r3, poly);
    var r5 := ShiftMsb16(r4, poly);
    var r6 := ShiftMsb16(r5, poly);
    var r7 := ShiftMsb16(r6, poly);
    var r8 := ShiftMsb16(r7, poly);
    ShiftStep(r, poly, 8, r1);
    ShiftStep(r1, poly, 7, r2);
    ShiftStep(r2, poly, 6, r3);
    ShiftStep(r3, poly, 5, r4);
    ShiftStep(r4, poly, 4, r5);
    ShiftStep(r5, poly, 3, r6);
    ShiftStep(r6, poly, 2, r7);
    ShiftStep(r7, poly, 1, r8);
    ShiftZero(r8, poly);
  }

  lemma ShiftStep(r: bv16, poly: bv16, n: nat, s: bv16)
    requires n > 0 && s == ShiftMsb16(r, poly)
    ensures ShiftMsb16N(r, poly, n) == ShiftMsb16N(s, poly, n - 1)
  {
  }

  lemma ShiftZero(r: bv16, poly: bv16)
    ensures ShiftMsb16N(r, poly, 0) == r
  {
  }

  /** Four shifts with polynomial 0x1021 in one go: the top nibble `t` contributes t*0x1021. */
  function NibbleTable(t: bv16): bv16 { (t << 12) ^ (t << 5) ^ t }

  function NibbleShift(r: bv16): bv16 { (r << 4) ^ NibbleTable(r >> 12) }

  lemma FourShiftsAreNibbleShift(r: bv16)
    ensures ShiftMsb16(ShiftMsb16(ShiftMsb16(ShiftMsb16(r, 0x1021), 0x1021), 0x1021), 0x1021)
         == NibbleShift(r)
  {
    if r >> 12 == 0 { }
    else if r >> 12 == 1 { }
    else if r >> 12 == 2 { }
    else if r >> 12 == 3 { }
    else if r >> 12 == 4 { }
    else if r >> 12 == 5 { }
    else if r >> 12 == 6 { }
    else if r >> 12 == 7 { }
    else if r >> 12 == 8 { }
    else if r >> 12 == 9 { }
    else if r >> 12 == 10 { }
    else if r >> 12 == 11 { }
    else if r >> 12 == 12 { }
    else if r >> 12 == 13 { }
    else if r >> 12 == 14 { }
    else { }
  }

  lemma NibbleShiftFirst(a: bv16, c: bv16, lo: bv16)
    requires a < 16 && c < 16 && lo < 256
    ensures NibbleShift((a << 12) ^ (c << 8) ^ lo) == (c << 12) ^ (lo << 4) ^ (a << 12) ^ (a << 5) ^ a
  {
    assert ((a << 12) ^ (c << 8) ^ lo) >> 12 == a;
  }

  lemma NibbleShiftSecond(a: bv16, c: bv16, lo: bv16)
    requires a < 16 && c < 16 && lo < 256
    ensures NibbleShift((c << 12) ^ (lo << 4) ^ (a << 12) ^ (a << 5) ^ a)
         == (lo << 8) ^ (a << 9) ^ (a << 4) ^ NibbleTable(c ^ a)
  {
    assert ((c << 12) ^ (lo << 4) ^ (a << 12) ^ (a << 5) ^ a) >> 12 == c ^ a;
  }

  lemma CcittUpdateNibbles(a: bv16, c: bv16, lo: bv16, crc: bv16, h: bv16, y: bv16)
    requires a < 16 && c < 16 && lo < 256 && lo == crc & 0xFF
    requires h == (a << 4) ^ c && y == h ^ (h >> 4)
    ensures (crc << 8) ^ (y << 12) ^ (y << 5) ^ y
         == (lo << 8) ^ (a << 9) ^ (a << 4) ^ ((c ^ a) << 12) ^ ((c ^ a) << 5) ^ (c ^ a)
  {
    HighNibble(a, c, h);
    FoldOfNibbles(a, c, h, y);
    FoldedShifts(a, c, y);
    LowOctetShift(crc, lo);
    CombineNibbles(a, c, lo, crc, y);
  }

  lemma HighNibble(a: bv16, c: bv16, h: bv16)
    requires a < 16 && c < 16 && h == (a << 4) ^ c
    ensures h >> 4 == a
  {
  }

  lemma FoldOfNibbles(a: bv16, c: bv16, h: bv16, y: bv16)
    requires h == (a << 4) ^ c && y == h ^ (h >> 4) && h >> 4 == a
    ensures y == (a << 4) ^ c ^ a
  {
  }

  lemma FoldedShifts(a: bv16, c: bv16, y: bv16)
    requires a < 16 && c < 16 && y == (a << 4) ^ c ^ a
    ensures y << 12 == (c ^ a) << 12 && y << 5 == (a << 9) ^ ((c ^ a) << 5)
  {
  }

  lemma LowOctetShift(crc: bv16, lo: bv16)
    requires lo == crc & 0xFF
    ensures crc << 8 == lo << 8
  {
  }

  lemma CombineNibbles(a: bv16, c: bv16, lo: bv16, crc: bv16, y: bv16)
    requires crc << 8 == lo << 8
    requires y << 12 == (c ^ a) << 12 && y << 5 == (a << 9) ^ ((c ^ a) << 5)
    requires y == (a << 4) ^ c ^ a
    ensures (crc << 8) ^ (y << 12) ^ (y << 5) ^ y
         == (lo << 8) ^ (a << 9) ^ (a << 4) ^ ((c ^ a) << 12) ^ ((c ^ a) << 5) ^ (c ^ a)
  {
  }

  /** The input byte meets the register's high octet; a and c are the nibbles of that octet, lo the low octet. */
  lemma SplitRegister(crc: bv16, b: bv8, h: bv16, a: bv16, c: bv16, lo: bv16)
    requires h == (crc >> 8) ^ (b as bv16) && a == h >> 4 && c == h & 0xF && lo == crc & 0xFF
    ensures a < 16 && c < 16 && lo < 256 && h == (a << 4) ^ c
    ensures crc ^ ((b as bv16) << 8) == (a << 12) ^ (c << 8) ^ lo
  {
  }

  lemma EightShiftsAreTwoNibbleShifts(r: bv16)
    ensures ShiftMsb16N(r, 0x1021, 8) == NibbleShift(NibbleShift(r))
  {
    ShiftMsb16N8(r, 0x1021);
    FourShiftsAreNibbleShift(r);
    FourShiftsAreNibbleShift(NibbleShift(r));
  }

  /** The two nibble shifts of crc ^ (b << 8), written with the nibbles of (crc >> 8) ^ b. */
  lemma TwoNibbleShifts(crc: bv16, b: bv8, h: bv16, a: bv16, c: bv16, lo: bv16)
    requires h == (crc >> 8) ^ (b as bv16) && a == h >> 4 && c == h & 0xF && lo == crc & 0xFF
    ensures NibbleShift(NibbleShift(crc ^ ((b as bv16) << 8)))
         == (lo << 8) ^ (a << 9) ^ (a << 4) ^ NibbleTable(c ^ a)
  {
    SplitRegister(crc, b, h, a, c, lo);
    NibbleShiftFirst(a, c, lo);
    NibbleShiftSecond(a, c, lo);
  }

  lemma CcittStepByNibbles(crc: bv16, b: bv8, h: bv16, a: bv16, c: bv16, lo: bv16)
    requires h == (crc >> 8) ^ (b as bv16) && a == h >> 4 && c == h & 0xF && lo == crc & 0xFF
    ensures CcittStep(crc, b) == (lo << 8) ^ (a << 9) ^ (a << 4) ^ NibbleTable(c ^ a)
  {
    SplitRegister(crc, b, h, a, c, lo);
    var y := CcittFold(h);
    FoldIs(h);
    CcittUpdateNibbles(a, c, lo, crc, h, y);
    StepIs(crc, b, h);
    MixIs(crc, y);
    NibbleTableOf(c ^ a);
  }

  lemma StepIs(crc: bv16, b: bv8, h: bv16)
    requires h == (crc >> 8) ^ (b as bv16)
    ensures CcittStep(crc, b) == CcittMix(crc, CcittFold(h))
  {
  }

  lemma FoldIs(h: bv16)
    ensures CcittFold(h) == h ^ (h >> 4)
  {
  }

  lemma MixIs(crc: bv16, y: bv16)
    ensures CcittMix(crc, y) == (crc << 8) ^ (y << 12) ^ (y << 5) ^ y
  {
  }

  lemma NibbleTableOf(t: bv16)
    ensures NibbleTable(t) == (t << 12) ^ (t << 5) ^ t
  {
  }

  /**
   * The nibble formulation in crc16_CCITT is the plain MSB-first CRC with
   * polynomial 0x1021: one C iteration equals eight shifts of the register.
   */
  lemma CcittStepIsBitwise(crc: bv16, b: bv8)
    ensures CcittStep(crc, b) == BitwiseByte16(crc, 0x1021, b)
  {
    var h := (crc >> 8) ^ (b as bv16);
    var a, c, lo := h >> 4, h & 0xF, crc & 0xFF;
    EightShiftsAreTwoNibbleShifts(crc ^ ((b as bv16) << 8));
    TwoNibbleShifts(crc, b, h, a, c, lo);
    CcittStepByNibbles(crc, b, h, a, c, lo);
  }

  /** Hence the whole fold is the bitwise CRC-16 with polynomial 0x1021. */
  function BitwiseCrc16(crc: bv16, poly: bv16, data: seq<bv8>): bv16
    decreases |data|
  {
    if |data| == 0 then crc else BitwiseCrc16(BitwiseByte16(crc, poly, data[0]), poly, data[1..])
  }

  lemma {:induction false} CcittIsBitwise(crc: bv16, data: seq<bv8>)
    ensures Ccitt(crc, data) == BitwiseCrc16(crc, 0x1021, data)
    decreases |data|
  {
    if |data| > 0 {
      CcittStepIsBitwise(crc, data[0]);
      CcittIsBitwise(CcittStep(crc, data[0]), data[1..]);
    }
  }

  /** Feeding two blocks one after the other is feeding their concatenation. */
  lemma {:induction false} CcittAppend(crc: bv16, a: seq<bv8>, b: seq<bv8>)
    ensures Ccitt(crc, a + b) == Ccitt(Ccitt(crc, a), b)
    decreases |a|
  {
    if |a| == 0 {
      assert a + b == b;
    } else {
      assert (a + b)[1..] == a[1..] + b;
      CcittAppend(CcittStep(crc, a[0]), a[1..], b);
    }
  }

  /** CRC-16-CCITT from register 0: a message followed by its own CRC (high octet first) leaves 0. */
  lemma CcittResidue(crc: bv16)
    ensures Ccitt(crc, [(crc >> 8) as bv8, (crc & 0xFF) as bv8]) == 0
  {
    var hi := (crc >> 8) as bv8;
    var lo := (crc & 0xFF) as bv8;
    var s1 := CcittStep(crc, hi);
    assert Ccitt(crc, [hi, lo]) == Ccitt(s1, [lo]);
    assert Ccitt(s1, [lo]) == Ccitt(CcittStep(s1, lo), []);
  }

  /**
   * crc16_CCITT(initial_value, data, size): the loop consumes the first
   * `size` bytes of `data`. `size` is a uint8_t, held here as a nat below 256.
   */
  method Crc16Ccitt(initialValue: bv16, data: seq<bv8>, size: nat) returns (crc: bv16)
    requires size <= 255 && size <= |data|
    ensures crc == Ccitt(initialValue, data[..size])
  {
    crc := initialValue;
    var n := size;
    ghost var len := n;
    var p := 0;
    while n != 0
      invariant 0 <= p <= len && n == len - p
      invariant Ccitt(crc, data[p..len]) == Ccitt(initialValue, data[..len])
      decreases n
    {
      n := n - 1;
      assert Ccitt(crc, data[p..len]) == Ccitt(CcittStep(crc, data[p]), data[p + 1..len]);
      crc := CcittStep(crc, data[p]);
      assert data[p..len][1..] == data[p + 1..len];
      p := p + 1;
    }
  }

  // ---------------------------------------------------------------------
  // CRC-8, bit by bit, MSB first
  // ---------------------------------------------------------------------

  /** One pass of crc8's inner loop. */
  function Crc8Shift(crc: bv8, poly: bv8): bv8
  {
    (crc << 1) ^ (if crc & 0x80 != 0 then poly else 0)
  }

  function Crc8ShiftN(crc: bv8, poly: bv8, n: nat): bv8
    decreases n
  {
    if n == 0 then crc else Crc8ShiftN(Crc8Shift(crc, poly), poly, n - 1)
  }

  /** One iteration of crc8's outer loop. */
  function Crc8Step(crc: bv8, poly: bv8, b: bv8): bv8
  {
    Crc8ShiftN(crc ^ b, poly, 8)
  }

  /** The CRC-8 register after feeding `data`, starting from `crc`. */
  function Crc8Value(crc: bv8, poly: bv8, data: seq<bv8>): bv8
    decreases |data|
  {
    if |data| == 0 then crc else Crc8Value(Crc8Step(crc, poly, data[0]), poly, data[1..])
  }

  lemma {:induction false} Crc8Append(crc: bv8, poly: bv8, a: seq<bv8>, b: seq<bv8>)
    ensures Crc8Value(crc, poly, a + b) == Crc8Value(Crc8Value(crc, poly, a), poly, b)
    decreases |a|
  {
    if |a| == 0 {
      assert a + b == b;
    } else {
      assert (a + b)[1..] == a[1..] + b;
      Crc8Append(Crc8Step(crc, poly, a[0]), poly, a[1..], b);
    }
  }

  lemma {:induction false} Crc8ShiftNZero(poly: bv8, n: nat)
    ensures Crc8ShiftN(0, poly, n) == 0
  {
    if n > 0 {
      assert Crc8Shift(0, poly) == 0;
      Crc8ShiftNZero(poly, n - 1);
    }
  }

  /** From register 0, any run of zero bytes leaves the register 0 (whatever the polynomial). */
  lemma {:induction false} Crc8OfZeros(poly: bv8, data: seq<bv8>)
    requires forall k :: 0 <= k < |data| ==> data[k] == 0
    ensures Crc8Value(0, poly, data) == 0
    decreases |data|
  {
    if |data| > 0 {
      Crc8ShiftNZero(poly, 8);
      Crc8OfZeros(poly, data[1..]);
    }
  }

  /** crc8(initial_value, polynomial, data, len): the loop consumes the first `len` bytes. */
  method Crc8(initialValue: bv8, polynomial: bv8, data: seq<bv8>, len: bv8) returns (crc: bv8)
    requires len as int <= |data|
    ensures crc == Crc8Value(initialValue, polynomial, data[..len])
  {
    crc := initialValue;
    var n := len as int;
    ghost var size := n;
    var p := 0;
    while n != 0
      invariant 0 <= p <= size && n == size - p
      invariant Crc8Value(crc, polynomial, data[p..size]) == Crc8Value(initialValue, polynomial, data[..size])
      decreases n
    {
      n := n - 1;
      ghost var before := crc;
      crc := crc ^ data[p];
      assert Crc8ShiftN(crc, polynomial, 8) == Crc8Step(before, polynomial, data[p]);
      var j := 0;
      while j < 8
        invariant 0 <= j <= 8
        invariant Crc8ShiftN(crc, polynomial, 8 - j) == Crc8Step(before, polynomial, data[p])
      {
        crc := Crc8Shift(crc, polynomial);
        j := j + 1;
      }
      crc := crc & 0xFF;
      assert data[p..size][1..] == data[p + 1..size];
      p := p + 1;
    }
  }
}

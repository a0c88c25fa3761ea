/**
 * The firmware's AX.25 UI-frame builder (firmware/fsat_beacon_msp430/src/ax25/ax25.c):
 * the packet record, its serialisation to octets, and the bit stuffer that
 * turns the octets into the transmitted bytes.
 *
 * The bit stuffer reads each octet least significant bit first, inserts a 0
 * after every five consecutive 1s (section 3.6 of AX.25 v2.2, July 1998) over
 * the whole frame including both 0x7E flags, and repacks the bits most
 * significant bit first, zero-padding the last byte.
 */
module Ax25 {
  import opened Crc
  import opened Wrappers

  // ------------------------------------------------------------------
  // Step 1: octets to bits, least significant bit first
  // ------------------------------------------------------------------

  /** The eight bits of an octet as ax25_bit_stuffing reads them: bit 0 first. */
  function LsbBits(b: bv8): (bits: seq<bool>)
    ensures |bits| == 8
  {
    [b & 0x01 == 0x01, b & 0x02 == 0x02, b & 0x04 == 0x04, b & 0x08 == 0x08,
     b & 0x10 == 0x10, b & 0x20 == 0x20, b & 0x40 == 0x40, b & 0x80 == 0x80]
  }

  /** The bit packet (bit_pkt) of an octet string. */
  function BitsOf(pkt: seq<bv8>): (bits: seq<bool>)
    ensures |bits| == 8 * |pkt|
    decreases |pkt|
  {
    if |pkt| == 0 then [] else BitsOf(pkt[..|pkt| - 1]) + LsbBits(pkt[|pkt| - 1])
  }

  /** Octet k of the input occupies bits 8k..8k+8 of the bit packet. */
  lemma {:induction false} BitsOfOctet(pkt: seq<bv8>, k: nat)
    requires k < |pkt|
    ensures BitsOf(pkt)[8 * k..8 * k + 8] == LsbBits(pkt[k])
    decreases |pkt|
  {
    var n := |pkt| - 1;
    assert BitsOf(pkt) == BitsOf(pkt[..n]) + LsbBits(pkt[n]);
    if k < n {
      BitsOfOctet(pkt[..n], k);
      assert pkt[..n][k] == pkt[k];
    }
  }

  // ------------------------------------------------------------------
  // Step 2: bit stuffing
  // ------------------------------------------------------------------

  /**
   * The stuffer's state after a prefix of the input: the bits written so
   * far, the number of consecutive 1s since the last 0 or inserted 0, and
   * how many 0s were inserted.
   */
  datatype StuffState = StuffState(out: seq<bool>, run: nat, inserted: nat)

  function StuffStep(st: StuffState, b: bool): StuffState
  {
    var r := if b then st.run + 1 else 0;
    if r == 5 then StuffState(st.out + [b, false], 0, st.inserted + 1)
    else StuffState(st.out + [b], r, st.inserted)
  }

  /** The stuffer run over `bits`, from its initial state. */
  function Stuff(bits: seq<bool>): StuffState
    decreases |bits|
  {
    if |bits| == 0 then StuffState([], 0, 0) else StuffStep(Stuff(bits[..|bits| - 1]), bits[|bits| - 1])
  }

  /** The number of 1s at the end of s. */
  function TrailingOnes(s: seq<bool>): (n: nat)
    ensures n <= |s|
    decreases |s|
  {
    if |s| == 0 || !s[|s| - 1] then 0 else TrailingOnes(s[..|s| - 1]) + 1
  }

  /** Six consecutive 1s start at position k of s. */
  predicate SixOnesAt(s: seq<bool>, k: nat)
    requires k + 6 <= |s|
  {
    s[k] && s[k + 1] && s[k + 2] && s[k + 3] && s[k + 4] && s[k + 5]
  }

  /** No six consecutive 1s anywhere in s. */
  predicate NoSixOnes(s: seq<bool>)
  {
    forall k: nat :: k + 6 <= |s| ==> !SixOnesAt(s, k)
  }

  /** A suffix of m 1s gives at least m trailing 1s. */
  lemma {:induction false} TrailingOnesAtLeast(s: seq<bool>, m: nat)
    requires m <= |s| && forall j :: |s| - m <= j < |s| ==> s[j]
    ensures TrailingOnes(s) >= m
    decreases m
  {
    if m > 0 {
      var t := s[..|s| - 1];
      assert forall j :: |t| - (m - 1) <= j < |t| ==> t[j] == s[j];
      TrailingOnesAtLeast(t, m - 1);
    }
  }

  lemma SixOnesAtEnd(s: seq<bool>)
    requires |s| >= 6
    requires SixOnesAt(s, |s| - 6)
    ensures TrailingOnes(s) >= 6
  {
    TrailingOnesAtLeast(s, 6);
  }

  lemma NoSixOnesExtend(s: seq<bool>, b: bool)
    requires NoSixOnes(s) && TrailingOnes(s + [b]) < 6
    ensures NoSixOnes(s + [b])
  {
    var t := s + [b];
    forall k: nat | k + 6 <= |t|
      ensures !SixOnesAt(t, k)
    {
      if k + 6 <= |s| {
        assert SixOnesAt(t, k) == SixOnesAt(s, k);
      } else if SixOnesAt(t, k) {
        SixOnesAtEnd(t);
      }
    }
  }

  /**
   * The run counter is the number of 1s ending the output, it stays below
   * five between bits, the output never holds six consecutive 1s, and each
   * inserted 0 accounts for five input bits.
   */
  lemma {:induction false} StuffInvariant(bits: seq<bool>)
    ensures var st := Stuff(bits);
            st.run <= 4 && TrailingOnes(st.out) == st.run && NoSixOnes(st.out)
            && |st.out| == |bits| + st.inserted && 5 * st.inserted + st.run <= |bits|
    decreases |bits|
  {
    if |bits| > 0 {
      var init := bits[..|bits| - 1];
      StuffInvariant(init);
      StuffStepInvariant(Stuff(init), bits[|bits| - 1], |init|);
    }
  }

  /** One stuffer step keeps the invariant of StuffInvariant, for n input bits so far. */
  lemma StuffStepInvariant(st: StuffState, b: bool, n: nat)
    requires st.run <= 4 && TrailingOnes(st.out) == st.run && NoSixOnes(st.out)
    requires |st.out| == n + st.inserted && 5 * st.inserted + st.run <= n
    ensures var next := StuffStep(st, b);
            next.run <= 4 && TrailingOnes(next.out) == next.run && NoSixOnes(next.out)
            && |next.out| == n + 1 + next.inserted && 5 * next.inserted + next.run <= n + 1
  {
    var r := if b then st.run + 1 else 0;
    assert (st.out + [b])[..|st.out|] == st.out;
    assert TrailingOnes(st.out + [b]) == r;
    NoSixOnesExtend(st.out, b);
    if r == 5 {
      var o := st.out + [b];
      assert o + [false] == st.out + [b, false];
      NoSixOnesExtend(o, false);
    }
  }

  /** After stuffing, the bit stream contains no six consecutive 1s. */
  lemma StuffedHasNoSixOnes(bits: seq<bool>)
    ensures NoSixOnes(Stuff(bits).out)
  {
    StuffInvariant(bits);
  }

  /** At most one 0 is inserted per five input bits. */
  lemma StuffedLength(bits: seq<bool>)
    ensures |Stuff(bits).out| == |bits| + Stuff(bits).inserted
    ensures Stuff(bits).inserted <= |bits| / 5
  {
    StuffInvariant(bits);
  }

  /** The receiver's rule: a bit that follows five consecutive 1s is discarded. */
  datatype UnstuffState = UnstuffState(out: seq<bool>, run: nat)

  function UnstuffStep(st: UnstuffState, b: bool): UnstuffState
  {
    if st.run == 5 then UnstuffState(st.out, 0)
    else UnstuffState(st.out + [b], if b then st.run + 1 else 0)
  }

  function Unstuff(s: seq<bool>): UnstuffState
    decreases |s|
  {
    if |s| == 0 then UnstuffState([], 0) else UnstuffStep(Unstuff(s[..|s| - 1]), s[|s| - 1])
  }

  /** Dropping the 0 that follows each run of five 1s recovers the input bits. */
  lemma {:induction false} UnstuffStuff(bits: seq<bool>)
    ensures Unstuff(Stuff(bits).out) == UnstuffState(bits, Stuff(bits).run)
    decreases |bits|
  {
    if |bits| > 0 {
      var init := bits[..|bits| - 1];
      var b := bits[|bits| - 1];
      assert init + [b] == bits;
      StuffSnoc(init, b);
      var st := Stuff(init);
      UnstuffStuff(init);
      StuffRunBound(init);
      UnstuffSnoc(st.out, b);
      var r := if b then st.run + 1 else 0;
      assert Unstuff(st.out + [b]) == UnstuffState(bits, r);
      if r == 5 {
        assert Stuff(bits).out == st.out + [b, false] && Stuff(bits).run == 0;
        UnstuffSnoc(st.out + [b], false);
        assert st.out + [b] + [false] == st.out + [b, false];
      } else {
        assert Stuff(bits).out == st.out + [b] && Stuff(bits).run == r;
      }
    }
  }

  /** The run counter is reset before it reaches five. */
  lemma {:induction false} StuffRunBound(bits: seq<bool>)
    ensures Stuff(bits).run <= 4
    decreases |bits|
  {
    if |bits| > 0 {
      StuffRunBound(bits[..|bits| - 1]);
    }
  }

  lemma UnstuffSnoc(s: seq<bool>, b: bool)
    ensures Unstuff(s + [b]) == UnstuffStep(Unstuff(s), b)
  {
    assert (s + [b])[..|s|] == s;
  }

  /** With no insertion the stuffer passes its input through unchanged. */
  lemma {:induction false} NoInsertionIsIdentity(bits: seq<bool>)
    requires Stuff(bits).inserted == 0
    ensures Stuff(bits).out == bits
    decreases |bits|
  {
    if |bits| > 0 {
      var init := bits[..|bits| - 1];
      var b := bits[|bits| - 1];
      assert init + [b] == bits;
      StuffSnoc(init, b);
      assert Stuff(init).inserted == 0;
      NoInsertionIsIdentity(init);
      assert Stuff(bits).out == Stuff(init).out + [b];
    }
  }

  lemma StuffSnoc(s: seq<bool>, b: bool)
    ensures Stuff(s + [b]) == StuffStep(Stuff(s), b)
  {
    assert (s + [b])[..|s|] == s;
  }

  /** From a zero run, five 1s are copied and followed by an inserted 0. */
  lemma StuffFiveOnes(s: seq<bool>)
    requires Stuff(s).run == 0
    ensures Stuff(s + [true, true, true, true, true])
         == StuffState(Stuff(s).out + [true, true, true, true, true, false], 0, Stuff(s).inserted + 1)
  {
    var s1 := s + [true];
    var s2 := s1 + [true];
    var s3 := s2 + [true];
    var s4 := s3 + [true];
    var s5 := s4 + [true];
    var o := Stuff(s).out;
    var n := Stuff(s).inserted;
    StuffSnoc(s, true);
    assert Stuff(s1) == StuffState(o + [true], 1, n);
    StuffSnoc(s1, true);
    assert Stuff(s2) == StuffState(o + [true] + [true], 2, n);
    StuffSnoc(s2, true);
    assert Stuff(s3) == StuffState(o + [true] + [true] + [true], 3, n);
    StuffSnoc(s3, true);
    assert Stuff(s4) == StuffState(o + [true] + [true] + [true] + [true], 4, n);
    StuffSnoc(s4, true);
    assert Stuff(s5) == StuffState(o + [true] + [true] + [true] + [true] + [true, false], 0, n + 1);
    assert s5 == s + [true, true, true, true, true];
    assert o + [true] + [true] + [true] + [true] + [true, false] == o + [true, true, true, true, true, false];
  }

  /**
   * The 0x7E flag, read LSB first, holds six 1s; since ax25_encode stuffs the
   * whole frame, flags included, a 0 is inserted inside each flag.
   */
  lemma FlagIsStuffed(f: seq<bool>)
    requires f == LsbBits(0x7E)
    ensures f == [false, true, true, true, true, true, true, false]
    ensures Stuff(f).out == [false, true, true, true, true, true, false, true, false]
  {
    assert f == [false, true, true, true, true, true, true, false];
    var e: seq<bool> := [];
    StuffFlag(e, f);
    assert e + f == f;
  }

  /**
   * Wherever the flag's bits occur in the input, whatever precedes them, the
   * stuffer copies them with a 0 inserted after the fifth 1.
   */
  lemma StuffFlag(s: seq<bool>, f: seq<bool>)
    requires f == [false, true, true, true, true, true, true, false]
    ensures Stuff(s + f)
         == StuffState(Stuff(s).out + [false, true, true, true, true, true, false, true, false], 0, Stuff(s).inserted + 1)
  {
    var o := Stuff(s).out;
    var p := s + [false];
    StuffSnoc(s, false);
    var q := p + [true, true, true, true, true];
    StuffFiveOnes(p);
    var r := q + [true];
    StuffSnoc(q, true);
    StuffSnoc(r, false);
    assert r + [false] == s + f;
    assert o + [false] + [true, true, true, true, true, false] + [true] + [false]
        == o + [false, true, true, true, true, true, false, true, false];
  }

  // ------------------------------------------------------------------
  // Step 3: bits to bytes, most significant bit first
  // ------------------------------------------------------------------

  function BitVal(b: bool): bv8
  {
    if b then 1 else 0
  }

  /** A full byte from eight bits, the first one most significant. */
  function FullByte(c: seq<bool>): bv8
    requires |c| == 8
  {
    (BitVal(c[0]) << 7) | (BitVal(c[1]) << 6) | (BitVal(c[2]) << 5) | (BitVal(c[3]) << 4)
    | (BitVal(c[4]) << 3) | (BitVal(c[5]) << 2) | (BitVal(c[6]) << 1) | BitVal(c[7])
  }

  /** bit.val << (7 - j) for j < 8, as a byte. */
  function BitAt(b: bool, j: nat): bv8
    requires j < 8
  {
    if !b then 0 else [0x80, 0x40, 0x20, 0x10, 0x08, 0x04, 0x02, 0x01][j]
  }

  /** The last, partial byte: bit j of the chunk goes to position 7 - j, the low bits stay 0. */
  function PartialByte(c: seq<bool>): bv8
    requires |c| <= 8
    decreases |c|
  {
    if |c| == 0 then 0
    else PartialByte(c[..|c| - 1]) | BitAt(c[|c| - 1], |c| - 1)
  }

  /** Byte k of the packed output. */
  function PackedByte(bits: seq<bool>, k: nat): bv8
    requires 8 * k < |bits|
  {
    if 8 * k + 8 <= |bits| then FullByte(bits[8 * k..8 * k + 8]) else PartialByte(bits[8 * k..])
  }

  /** The stuffed bit stream packed into ceil(bits/8) bytes. */
  function PackMsb(bits: seq<bool>): (bytes: seq<bv8>)
    ensures |bytes| == (|bits| + 7) / 8
  {
    seq((|bits| + 7) / 8, k requires 0 <= k < (|bits| + 7) / 8 => PackedByte(bits, k))
  }

  /** The bit-reversal of an octet. */
  function Reverse8(b: bv8): bv8
  {
    ((b & 0x01) << 7) | ((b & 0x02) << 5) | ((b & 0x04) << 3) | ((b & 0x08) << 1)
    | ((b & 0x10) >> 1) | ((b & 0x20) >> 3) | ((b & 0x40) >> 5) | ((b & 0x80) >> 7)
  }

  /** Reading LSB-first and packing MSB-first reverses an octet. */
  lemma FullByteOfLsbBits(b: bv8)
    ensures FullByte(LsbBits(b)) == Reverse8(b)
  {
  }

  /** The tail loop: PartialByte over the chunk bits[i..i+j]. */
  method PackTail(bits: seq<bool>, i: nat) returns (acc: bv8)
    requires i < |bits| && |bits| - i < 8
    ensures acc == PartialByte(bits[i..])
  {
    acc := 0;
    var j := 0;
    while j < |bits| - i
      invariant 0 <= j <= |bits| - i
      invariant acc == PartialByte(bits[i..i + j])
    {
      assert bits[i..i + j + 1][..j] == bits[i..i + j];
      acc := acc | BitAt(bits[i + j], j);
      j := j + 1;
    }
    assert bits[i..i + j] == bits[i..];
  }

  /** The first m full bytes. */
  function FullBytes(bits: seq<bool>, m: nat): (bytes: seq<bv8>)
    requires 8 * m <= |bits|
    ensures |bytes| == m
  {
    seq(m, k requires 0 <= k < m => FullByte(bits[8 * k..8 * k + 8]))
  }

  lemma FullBytesStep(bits: seq<bool>, m: nat)
    requires 8 * m + 8 <= |bits|
    ensures FullBytes(bits, m + 1) == FullBytes(bits, m) + [FullByte(bits[8 * m..8 * m + 8])]
  {
  }

  /** The packed output is the full bytes, then the partial byte when bits are left over. */
  lemma PackMsbSplit(bits: seq<bool>)
    ensures |bits| % 8 == 0 ==> PackMsb(bits) == FullBytes(bits, |bits| / 8)
    ensures |bits| % 8 != 0 ==>
      PackMsb(bits) == FullBytes(bits, |bits| / 8) + [PartialByte(bits[8 * (|bits| / 8)..])]
  {
  }

  /** Step 3 of ax25_bit_stuffing: group the bits into bytes, MSB first, with a padded tail. */
  method PackBits(bits: seq<bool>) returns (newPkt: seq<bv8>)
    ensures newPkt == PackMsb(bits)
  {
    var n := |bits|;
    var byteBuffer: seq<bool> := [];
    newPkt := [];
    PackMsbSplit(bits);
    ghost var full := n / 8;
    ghost var rest := n % 8;
    assert n == 8 * full + rest && 0 <= rest < 8;
    var i := 0;
    while i < n
      invariant 0 <= i <= n
      invariant rest != 0 ==> i <= 8 * full
      invariant 8 * |newPkt| <= i < 8 * |newPkt| + 8
      invariant byteBuffer == bits[8 * |newPkt|..i]
      invariant newPkt == FullBytes(bits, |newPkt|)
    {
      byteBuffer := byteBuffer + [bits[i]];
      if n - i < 8 && n % 8 != 0 && |byteBuffer| == 1 {
        var tail := PackTail(bits, i);
        assert i == 8 * full && |newPkt| == full;
        newPkt := newPkt + [tail];
        return;
      }
      if |byteBuffer| == 8 {
        ghost var m := |newPkt|;
        assert i + 1 == 8 * m + 8 && byteBuffer == bits[8 * m..8 * m + 8];
        FullBytesStep(bits, m);
        newPkt := newPkt + [FullByte(byteBuffer)];
        assert newPkt == FullBytes(bits, m + 1);
        byteBuffer := [];
      }
      i := i + 1;
    }
  }

  /** Step 1 of ax25_bit_stuffing: every octet becomes eight bits, bit 0 first. */
  method OctetsToBits(pkt: seq<bv8>) returns (bitPkt: seq<bool>)
    ensures bitPkt == BitsOf(pkt)
  {
    bitPkt := [];
    var i := 0;
    while i < |pkt|
      invariant 0 <= i <= |pkt|
      invariant bitPkt == BitsOf(pkt[..i])
    {
      assert pkt[..i + 1][..i] == pkt[..i];
      bitPkt := bitPkt + [pkt[i] & 0x01 == 0x01, pkt[i] & 0x02 == 0x02, pkt[i] & 0x04 == 0x04,
                          pkt[i] & 0x08 == 0x08, pkt[i] & 0x10 == 0x10, pkt[i] & 0x20 == 0x20,
                          pkt[i] & 0x40 == 0x40, pkt[i] & 0x80 == 0x80];
      i := i + 1;
    }
    assert pkt[..i] == pkt;
  }

  /** The last TrailingOnes(s) bits are all 1s. */
  lemma {:induction false} TrailingOnesSuffix(s: seq<bool>)
    ensures forall j :: |s| - TrailingOnes(s) <= j < |s| ==> s[j]
    decreases |s|
  {
    if |s| > 0 && s[|s| - 1] {
      var t := s[..|s| - 1];
      TrailingOnesSuffix(t);
      assert forall j :: 0 <= j < |t| ==> t[j] == s[j];
    }
  }

  /** Fewer trailing 1s than the length means a 0 among the last TrailingOnes + 1 bits. */
  lemma {:induction false} TrailingOnesZero(s: seq<bool>)
    requires TrailingOnes(s) < |s|
    ensures !s[|s| - 1 - TrailingOnes(s)]
    decreases |s|
  {
    if s[|s| - 1] {
      var t := s[..|s| - 1];
      TrailingOnesZero(t);
    }
  }

  /** Dropping the first bit only matters when every bit is a 1. */
  lemma {:induction false} TrailingOnesDropFirst(s: seq<bool>)
    requires |s| >= 1
    ensures TrailingOnes(s[1..]) == if TrailingOnes(s) == |s| then |s| - 1 else TrailingOnes(s)
    decreases |s|
  {
    var t := s[1..];
    if |s| >= 2 && s[|s| - 1] {
      var init := s[..|s| - 1];
      TrailingOnesDropFirst(init);
      assert t[..|t| - 1] == init[1..];
    }
  }

  lemma TrailingOnesWindow(w: seq<bool>)
    requires |w| == 5
    ensures (w[0] && w[1] && w[2] && w[3] && w[4]) <==> TrailingOnes(w) == 5
    ensures TrailingOnes(w[1..]) == if TrailingOnes(w) == 5 then 4 else TrailingOnes(w)
  {
    TrailingOnesDropFirst(w);
    if w[0] && w[1] && w[2] && w[3] && w[4] {
      TrailingOnesAtLeast(w, 5);
    } else {
      TrailingOnesSuffix(w);
    }
  }

  /** Step 2 of ax25_bit_stuffing: the five-bit window and the inserted 0s. */
  method StuffBits(bitPkt: seq<bool>) returns (bitPktNew: seq<bool>)
    ensures bitPktNew == Stuff(bitPkt).out
  {
    bitPktNew := [];
    var bitBuffer: seq<bool> := [];
    var i := 0;
    while i < |bitPkt|
      invariant 0 <= i <= |bitPkt|
      invariant |bitBuffer| <= 4
      invariant bitPktNew == Stuff(bitPkt[..i]).out
      invariant TrailingOnes(bitBuffer) == Stuff(bitPkt[..i]).run
    {
      assert bitPkt[..i + 1][..i] == bitPkt[..i];
      var b := bitPkt[i];
      assert (bitBuffer + [b])[..|bitBuffer|] == bitBuffer;
      bitBuffer := bitBuffer + [b];
      bitPktNew := bitPktNew + [b];
      if |bitBuffer| == 5 {
        TrailingOnesWindow(bitBuffer);
        if bitBuffer[0] && bitBuffer[1] && bitBuffer[2] && bitBuffer[3] && bitBuffer[4] {
          bitPktNew := bitPktNew + [false];
          bitBuffer := [];
        } else {
          bitBuffer := bitBuffer[1..];
        }
      } else {
        StuffInvariant(bitPkt[..i]);
      }
      i := i + 1;
    }
    assert bitPkt[..i] == bitPkt;
  }

  /** The bit-stuffed frame packed back into bytes: what ax25_bit_stuffing returns. */
  function Encoded(pkt: seq<bv8>): (bytes: seq<bv8>)
    ensures |bytes| == (8 * |pkt| + Stuff(BitsOf(pkt)).inserted + 7) / 8
  {
    StuffInvariant(BitsOf(pkt));
    PackMsb(Stuff(BitsOf(pkt)).out)
  }

  /** Capacity of bit_pkt: a 21-octet header plus a 256-octet payload. */
  const BitPktOctets: nat := 21 + 256

  /**
   * ax25_bit_stuffing: octets to bits, stuffing, bits to bytes. The three C
   * arrays are sequences here; the capacity of bit_pkt_new is the subject of
   * StuffedBitsExceedCapacity below.
   */
  method BitStuffing(pkt: seq<bv8>) returns (newPkt: seq<bv8>)
    requires |pkt| <= BitPktOctets
    ensures newPkt == Encoded(pkt)
  {
    var bitPkt := OctetsToBits(pkt);
    var bitPktNew := StuffBits(bitPkt);
    newPkt := PackBits(bitPktNew);
  }

  /** With no inserted 0, output byte k is input octet k with its bits reversed. */
  lemma NoStuffingReversesOctets(pkt: seq<bv8>)
    requires Stuff(BitsOf(pkt)).inserted == 0
    ensures |Encoded(pkt)| == |pkt|
    ensures forall k :: 0 <= k < |pkt| ==> Encoded(pkt)[k] == Reverse8(pkt[k])
  {
    var bits := BitsOf(pkt);
    NoInsertionIsIdentity(bits);
    forall k | 0 <= k < |pkt|
      ensures Encoded(pkt)[k] == Reverse8(pkt[k])
    {
      BitsOfOctet(pkt, k);
      FullByteOfLsbBits(pkt[k]);
    }
  }

  // ------------------------------------------------------------------
  // Runs of 1s and the capacity of bit_pkt_new
  // ------------------------------------------------------------------

  function Ones(n: nat): (s: seq<bool>)
    ensures |s| == n
  {
    seq(n, _ => true)
  }

  /** Each five 1s of a run, counted from the run already in progress, insert one 0. */
  lemma {:induction false} StuffAppendOnes(p: seq<bool>, n: nat)
    ensures Stuff(p + Ones(n)).inserted == Stuff(p).inserted + (Stuff(p).run + n) / 5
    ensures Stuff(p + Ones(n)).run == (Stuff(p).run + n) % 5
    decreases n
  {
    if n == 0 {
      assert p + Ones(0) == p;
      StuffRunBound(p);
    } else {
      StuffAppendOnes(p, n - 1);
      var q := p + Ones(n - 1);
      assert q + [true] == p + Ones(n);
      StuffSnoc(q, true);
      SuccDivMod5(Stuff(p).run + n - 1);
    }
  }

  lemma SuccDivMod5(m: nat)
    ensures m % 5 == 4 ==> (m + 1) / 5 == m / 5 + 1 && (m + 1) % 5 == 0
    ensures m % 5 != 4 ==> (m + 1) / 5 == m / 5 && (m + 1) % 5 == m % 5 + 1
  {
  }

  /** Appending bits never removes an inserted 0. */
  lemma {:induction false} StuffInsertedGrows(p: seq<bool>, q: seq<bool>)
    ensures Stuff(p + q).inserted >= Stuff(p).inserted
    decreases |q|
  {
    if |q| == 0 {
      assert p + q == p;
    } else {
      var q0 := q[..|q| - 1];
      StuffInsertedGrows(p, q0);
      assert (p + q0) + [q[|q| - 1]] == p + q;
      StuffSnoc(p + q0, q[|q| - 1]);
    }
  }

  lemma {:induction false} BitsOfAppend(a: seq<bv8>, b: seq<bv8>)
    ensures BitsOf(a + b) == BitsOf(a) + BitsOf(b)
    decreases |b|
  {
    if |b| == 0 {
      assert a + b == a;
    } else {
      var b0 := b[..|b| - 1];
      var x := b[|b| - 1];
      BitsOfAppend(a, b0);
      assert (a + b)[..|a + b| - 1] == a + b0;
      assert (a + b)[|a + b| - 1] == x;
      var bitsA, bitsB0, bitsX := BitsOf(a), BitsOf(b0), LsbBits(x);
      assert BitsOf(a + b) == (bitsA + bitsB0) + bitsX;
      assert BitsOf(b) == bitsB0 + bitsX;
      BitsConcatAssoc(bitsA, bitsB0, bitsX);
    }
  }

  lemma BitsConcatAssoc(p: seq<bool>, q: seq<bool>, r: seq<bool>)
    ensures (p + q) + r == p + (q + r)
  {
  }

  lemma {:induction false} BitsOfAllOnes(pkt: seq<bv8>)
    requires forall k :: 0 <= k < |pkt| ==> pkt[k] == 0xFF
    ensures BitsOf(pkt) == Ones(8 * |pkt|)
    decreases |pkt|
  {
    if |pkt| > 0 {
      var init := pkt[..|pkt| - 1];
      BitsOfAllOnes(init);
      assert LsbBits(0xFF) == Ones(8);
    }
  }

  /** Size of bit_pkt_new as declared: room for 50 inserted 0s. */
  const StuffedBitCapacity: nat := 8 * (21 + 256) + 50

  /**
   * As written, bit_pkt_new is too small: a frame whose 255-octet payload is
   * all 0xFF gets at least 408 inserted 0s, whatever its header and FCS.
   */
  lemma StuffedBitsExceedCapacity(pre: seq<bv8>, data: seq<bv8>, post: seq<bv8>)
    requires |data| == 255 && forall k :: 0 <= k < |data| ==> data[k] == 0xFF
    ensures Stuff(BitsOf(pre + data + post)).inserted >= 408
    ensures |Stuff(BitsOf(pre + data + post)).out| > StuffedBitCapacity
  {
    BitsOfAppend(pre + data, post);
    BitsOfAppend(pre, data);
    BitsOfAllOnes(data);
    var p := BitsOf(pre);
    StuffAppendOnes(p, 2040);
    StuffInsertedGrows(p + Ones(2040), BitsOf(post));
    StuffInvariant(BitsOf(pre + data + post));
  }

  /** The bound a stuffed 277-octet packet needs: one extra bit per five. */
  const StuffedBitBound: nat := 8 * BitPktOctets + (8 * BitPktOctets) / 5

  lemma StuffedBitsFitBound(pkt: seq<bv8>)
    requires |pkt| <= BitPktOctets
    ensures |Stuff(BitsOf(pkt)).out| <= StuffedBitBound
  {
    StuffedLength(BitsOf(pkt));
  }

  // ------------------------------------------------------------------
  // The frame record and its octet string
  // ------------------------------------------------------------------

  const Flag: bv8 := 0x7E
  const NonRepeaterSsid: bv8 := 0x60
  const GrsSsid: bv8 := 0x00
  const SatSsid: bv8 := 0x01
  const DstCommand: bv8 := 0x80
  const SrcCommand: bv8 := 0x00
  const UnnumberedUi: bv8 := 0x03
  const PfDisable: bv8 := 0x00
  const PidNoLayer3: bv8 := 0xF0

  /** "PY0EFS" as a C array: six letters and the terminating NUL. */
  const SatelliteCallsign: seq<bv8> := [0x50, 0x59, 0x30, 0x45, 0x46, 0x53, 0x00]

  /** "PP5UF" as a C array: five letters and the NUL, one octet short of seven. */
  const DestinationCallsign: seq<bv8> := [0x50, 0x50, 0x35, 0x55, 0x46, 0x00]

  /** An address field: seven callsign octets and the SSID octet. */
  datatype Header = Header(callsign: seq<bv8>, ssid: bv8)

  /** The contents of an AX25_Packet, with the payload cut to its length. */
  datatype Frame = Frame(startFlag: bv8, dst: Header, src: Header, control: bv8, pid: bv8,
                         data: seq<bv8>, fcs: bv16, endFlag: bv8)

  predicate WellFormed(f: Frame)
  {
    |f.dst.callsign| == 7 && |f.src.callsign| == 7
  }

  function FcsMsb(fcs: bv16): bv8
  {
    ((fcs & 0xFF00) >> 8) as bv8
  }

  function FcsLsb(fcs: bv16): bv8
  {
    (fcs & 0x00FF) as bv8
  }

  function JoinFcs(msb: bv8, lsb: bv8): bv16
  {
    ((msb as bv16) << 8) | (lsb as bv16)
  }

  lemma FcsSplitJoin(fcs: bv16)
    ensures JoinFcs(FcsMsb(fcs), FcsLsb(fcs)) == fcs
  {
  }

  lemma FcsJoinSplit(msb: bv8, lsb: bv8)
    ensures FcsMsb(JoinFcs(msb, lsb)) == msb && FcsLsb(JoinFcs(msb, lsb)) == lsb
  {
  }

  /** The octet string ax25_pkt_2_str writes. */
  function Serialize(f: Frame): (s: seq<bv8>)
    requires WellFormed(f)
    ensures |s| == 22 + |f.data|
  {
    [f.startFlag] + f.dst.callsign + [f.dst.ssid] + f.src.callsign + [f.src.ssid] + [f.control] + [f.pid]
    + f.data + [FcsMsb(f.fcs)] + [FcsLsb(f.fcs)] + [f.endFlag]
  }

  /** A receiver's reading of an octet string with that layout. */
  function Parse(s: seq<bv8>): (f: Option<Frame>)
    ensures f.Some? <==> |s| >= 22
    ensures f.Some? ==> WellFormed(f.value) && |f.value.data| == |s| - 22
  {
    if |s| < 22 then None
    else
      var n := |s|;
      Some(Frame(s[0], Header(s[1..8], s[8]), Header(s[9..16], s[16]), s[17], s[18],
                 s[19..n - 3], JoinFcs(s[n - 3], s[n - 2]), s[n - 1]))
  }

  /** Octet positions of the serialised frame, n = payload length. */
  lemma SerializeLayout(f: Frame)
    requires WellFormed(f)
    ensures var s, n := Serialize(f), |f.data|;
      s[0] == f.startFlag && s[1..8] == f.dst.callsign && s[8] == f.dst.ssid
      && s[9..16] == f.src.callsign && s[16] == f.src.ssid && s[17] == f.control && s[18] == f.pid
      && s[19..19 + n] == f.data
      && s[19 + n] == FcsMsb(f.fcs) && s[20 + n] == FcsLsb(f.fcs) && s[21 + n] == f.endFlag
  {
    SerializeHeaderOctets(f);
    SerializeTrailerOctets(f);
  }

  lemma SerializeHeaderOctets(f: Frame)
    requires WellFormed(f)
    ensures var s := Serialize(f);
      s[0] == f.startFlag && s[1..8] == f.dst.callsign && s[8] == f.dst.ssid
      && s[9..16] == f.src.callsign && s[16] == f.src.ssid && s[17] == f.control && s[18] == f.pid
  {
    var s := Serialize(f);
    var dst := [f.startFlag] + f.dst.callsign + [f.dst.ssid];
    var src := dst + f.src.callsign;
    var header := src + [f.src.ssid] + [f.control] + [f.pid];
    assert s == header + f.data + [FcsMsb(f.fcs)] + [FcsLsb(f.fcs)] + [f.endFlag];
    assert s[..19] == header;
    assert header[..16] == src;
    assert src[..9] == dst;
    assert dst[1..8] == f.dst.callsign;
    assert src[9..16] == f.src.callsign;
  }

  lemma SerializeTrailerOctets(f: Frame)
    requires WellFormed(f)
    ensures var s, n := Serialize(f), |f.data|;
      s[19..19 + n] == f.data
      && s[19 + n] == FcsMsb(f.fcs) && s[20 + n] == FcsLsb(f.fcs) && s[21 + n] == f.endFlag
  {
  }

  lemma ParseSerialize(f: Frame)
    requires WellFormed(f)
    ensures Parse(Serialize(f)) == Some(f)
  {
    SerializeLayout(f);
    FcsSplitJoin(f.fcs);
  }

  lemma SerializeParse(s: seq<bv8>)
    requires |s| >= 22
    ensures Serialize(Parse(s).value) == s
  {
    var n := |s|;
    var f := Parse(s).value;
    assert f == Frame(s[0], Header(s[1..8], s[8]), Header(s[9..16], s[16]), s[17], s[18],
                      s[19..n - 3], JoinFcs(s[n - 3], s[n - 2]), s[n - 1]);
    FcsJoinSplit(s[n - 3], s[n - 2]);
    SerializeLayout(f);
    var t := Serialize(f);
    assert |t| == n;
    forall i | 0 <= i < n
      ensures t[i] == s[i]
    {
      if 1 <= i < 8 {
        assert t[1..8][i - 1] == s[1..8][i - 1];
      } else if 9 <= i < 16 {
        assert t[9..16][i - 9] == s[9..16][i - 9];
      } else if 19 <= i < n - 3 {
        assert t[19..n - 3][i - 19] == s[19..n - 3][i - 19];
      } else if i == n - 3 {
        assert t[i] == FcsMsb(f.fcs);
      } else if i == n - 2 {
        assert t[i] == FcsLsb(f.fcs);
      }
    }
  }

  /** A callsign octet as ax25_beacon_pkt_gen stores it: shifted left one bit, truncated to 8 bits. */
  function ShiftOctet(c: bv8): bv8
  {
    c << 1
  }

  function ShiftedCallsign(cs: seq<bv8>): (out: seq<bv8>)
    requires |cs| == 7
    ensures |out| == 7
  {
    seq(7, i requires 0 <= i < 7 => ShiftOctet(cs[i]))
  }

  lemma ShiftedOctet(c: bv8)
    ensures ShiftOctet(c) & 1 == 0 && ShiftOctet(c) >> 1 == c & 0x7F
  {
  }

  /**
   * Section 3.12 of AX.25: shifting back recovers each 7-bit character and
   * the low bit (the address-extension position) is 0.
   */
  lemma ShiftedCallsignDecodes(cs: seq<bv8>)
    requires |cs| == 7
    ensures forall i :: 0 <= i < 7 ==>
      ShiftedCallsign(cs)[i] & 1 == 0 && ShiftedCallsign(cs)[i] >> 1 == cs[i] & 0x7F
  {
    forall i | 0 <= i < 7
      ensures ShiftedCallsign(cs)[i] & 1 == 0 && ShiftedCallsign(cs)[i] >> 1 == cs[i] & 0x7F
    {
      ShiftedOctet(cs[i]);
    }
  }

  /** The callsign loop of ax25_beacon_pkt_gen. */
  method ShiftCallsign(cs: seq<bv8>) returns (out: seq<bv8>)
    requires |cs| == 7
    ensures out == ShiftedCallsign(cs)
  {
    out := [];
    var i := 0;
    while i < 7
      invariant 0 <= i <= 7
      invariant out == ShiftedCallsign(cs)[..i]
    {
      out := out + [ShiftOctet(cs[i])];
      i := i + 1;
    }
  }

  /**
   * The frame ax25_beacon_pkt_gen builds from a payload. The destination
   * array holds six octets; `dstOverread` is the octet the seventh read finds
   * past its end.
   */
  function BeaconFrame(data: seq<bv8>, dstOverread: bv8): (f: Frame)
    ensures WellFormed(f)
  {
    Frame(Flag,
          Header(ShiftedCallsign(DestinationCallsign + [dstOverread]), NonRepeaterSsid | (GrsSsid << 1) | DstCommand),
          Header(ShiftedCallsign(SatelliteCallsign), NonRepeaterSsid | (SatSsid << 1) | SrcCommand),
          UnnumberedUi | PfDisable, PidNoLayer3, data, Ccitt(0, data), Flag)
  }

  /** The fixed octets of every beacon frame. */
  lemma BeaconFrameConstants(data: seq<bv8>, dstOverread: bv8)
    ensures var f := BeaconFrame(data, dstOverread);
      f.startFlag == 0x7E && f.endFlag == 0x7E && f.dst.ssid == 0xE0 && f.src.ssid == 0x62
      && f.control == 0x03 && f.pid == 0xF0
      && f.src.callsign == [0xA0, 0xB2, 0x60, 0x8A, 0x8C, 0xA6, 0x00]
      && f.dst.callsign[..6] == [0xA0, 0xA0, 0x6A, 0xAA, 0x8C, 0x00]
  {
  }

  /**
   * The FCS covers the payload only: running crc16_CCITT from 0 over the
   * payload followed by the two FCS octets, as the frame carries them, gives 0.
   */
  lemma BeaconFcsChecks(data: seq<bv8>, dstOverread: bv8)
    ensures var s := Serialize(BeaconFrame(data, dstOverread)); var n := |data|;
      Ccitt(0, s[19..21 + n]) == 0
  {
    var f := BeaconFrame(data, dstOverread);
    var s := Serialize(f);
    var n := |data|;
    SerializeLayout(f);
    var fcs := Ccitt(0, data);
    assert s[19..21 + n] == data + [FcsMsb(fcs), FcsLsb(fcs)];
    CcittAppend(0, data, [FcsMsb(fcs), FcsLsb(fcs)]);
    FcsIsResidueOrder(fcs);
    CcittResidue(fcs);
  }

  lemma FcsIsResidueOrder(fcs: bv16)
    ensures FcsMsb(fcs) == (fcs >> 8) as bv8 && FcsLsb(fcs) == (fcs & 0xFF) as bv8
  {
  }

  // ------------------------------------------------------------------
  // The packet record and its operations
  // ------------------------------------------------------------------

  /** Capacity of payload.data. */
  const PayloadCapacity: nat := 256

  /**
   * What ax25_update_data_from_pkt does with the size as written: it clamps
   * to 256, a value the uint8_t counter i never reaches.
   */
  function SourceClamp(newDataSize: nat): nat
  {
    if newDataSize > 256 then 256 else newDataSize
  }

  /**
   * For every size from 256 on the loop guard `i < new_data_size` holds for
   * every uint8_t i, so the copy loop never exits; payload.len would store 0.
   */
  lemma ClampedCopyNeverExits(newDataSize: nat, i: bv8)
    requires newDataSize >= 256
    ensures SourceClamp(newDataSize) == PayloadCapacity == 256
    ensures (i as int) < SourceClamp(newDataSize)
    ensures SourceClamp(newDataSize) % 256 == 0
  {
  }

  /** The clamp that fits both the counter and payload.len: the largest size that terminates. */
  function Clamp(newDataSize: nat): (size: nat)
    ensures size <= 255 && size <= newDataSize
    ensures size == newDataSize || size == 255
  {
    if newDataSize > 255 then 255 else newDataSize
  }

  /** The AX25_Packet record, updated in place through its address in the C code. */
  class Ax25Packet {
    var startFlag: bv8
    var dstAdr: Header
    var srcAdr: Header
    var controlBits: bv8
    var protocolId: bv8
    const payloadData: array<bv8>
    var payloadLen: nat  // uint8_t; Valid keeps it below 256
    var fcs: bv16
    var endFlag: bv8

    ghost predicate Valid()
      reads this
    {
      payloadData.Length == PayloadCapacity && payloadLen <= 255 && |dstAdr.callsign| == 7 && |srcAdr.callsign| == 7
    }

    /** An all-zero record; the C code declares it uninitialised and fills it with the generator. */
    constructor ()
      ensures Valid() && fresh(payloadData)
    {
      startFlag := 0;
      dstAdr := Header([0, 0, 0, 0, 0, 0, 0], 0);
      srcAdr := Header([0, 0, 0, 0, 0, 0, 0], 0);
      controlBits := 0;
      protocolId := 0;
      payloadData := new bv8[256];
      payloadLen := 0;
      fcs := 0;
      endFlag := 0;
    }

    /** The record's fields, the payload cut to payload.len. */
    function Fields(): (f: Frame)
      requires Valid()
      reads this, payloadData
      ensures WellFormed(f) && |f.data| == payloadLen
    {
      Frame(startFlag, dstAdr, srcAdr, controlBits, protocolId, payloadData[..payloadLen], fcs, endFlag)
    }

    /** The payload copy loop of both the generator and the update. */
    method CopyPayload(data: seq<bv8>, size: nat)
      requires Valid() && size <= |data| && size <= 255
      modifies payloadData
      ensures payloadData[..size] == data[..size]
      ensures payloadData[size..] == old(payloadData[size..])
    {
      var i := 0;
      while i < size
        invariant i <= size
        invariant payloadData[..i] == data[..i]
        invariant payloadData[size..] == old(payloadData[size..])
      {
        payloadData[i] := data[i];
        i := i + 1;
      }
    }

    /**
     * ax25_beacon_pkt_gen: the fixed header, the payload and its FCS. The
     * uint8_t copy counter only terminates for data_size <= 255.
     */
    method BeaconPktGen(data: seq<bv8>, dstOverread: bv8)
      requires Valid() && |data| <= 255
      modifies this, payloadData
      ensures Valid()
      ensures Fields() == BeaconFrame(data, dstOverread)
      ensures payloadData[|data|..] == old(payloadData[|data|..])
    {
      var dstCallsign := DestinationCallsign + [dstOverread];
      var srcCallsign := SatelliteCallsign;
      var dstCs := ShiftCallsign(dstCallsign);
      var destination := Header(dstCs, NonRepeaterSsid | (GrsSsid << 1) | DstCommand);
      var srcCs := ShiftCallsign(srcCallsign);
      var source := Header(srcCs, NonRepeaterSsid | (SatSsid << 1) | SrcCommand);
      startFlag := Flag;
      dstAdr := destination;
      srcAdr := source;
      controlBits := UnnumberedUi | PfDisable;
      protocolId := PidNoLayer3;
      CopyPayload(data, |data|);
      payloadLen := |data|;
      assert data[..|data|] == data;
      var crc := Crc16Ccitt(0x0000, data, |data|);
      fcs := crc;
      endFlag := Flag;
    }

    /**
     * ax25_update_data_from_pkt with the size clamped to 255 (see
     * ClampedCopyNeverExits for the clamp as written): the new payload and its
     * FCS, every other field unchanged.
     */
    method UpdateDataFromPkt(newData: seq<bv8>)
      requires Valid()
      modifies this`payloadLen, this`fcs, payloadData
      ensures Valid()
      ensures Fields() == old(Fields()).(data := newData[..Clamp(|newData|)], fcs := Ccitt(0, newData[..Clamp(|newData|)]))
      ensures payloadData[Clamp(|newData|)..] == old(payloadData[Clamp(|newData|)..])
    {
      var newDataSize := |newData|;
      if newDataSize > 255 {
        newDataSize := 255;
      }
      CopyPayload(newData, newDataSize);
      payloadLen := newDataSize;
      var crc := Crc16Ccitt(0x0000, newData, newDataSize);
      fcs := crc;
    }

    /**
     * ax25_pkt_2_str: the record written octet by octet into str_pkt, 22 +
     * payload.len octets; the rest of str_pkt is left as it was.
     */
    method Pkt2Str(strPkt: array<bv8>) returns (strPktLen: nat)
      requires Valid() && strPkt != payloadData && 22 + payloadLen <= strPkt.Length
      modifies strPkt
      ensures strPktLen == 22 + payloadLen
      ensures strPkt[..strPktLen] == Serialize(Fields())
      ensures strPkt[strPktLen..] == old(strPkt[strPktLen..])
    {
      strPktLen := WriteFrame(strPkt, Fields());
    }

    /**
     * ax25_encode: serialise into a 277-octet local buffer, then bit-stuff.
     * The caller's output buffer is the returned sequence.
     */
    method Encode() returns (pkt: seq<bv8>)
      requires Valid()
      ensures pkt == Encoded(Serialize(Fields()))
    {
      var pktStr := new bv8[256 + 21];
      var pktStrLen := Pkt2Str(pktStr);
      pkt := BitStuffing(pktStr[..pktStrLen]);
    }
  }

  /** Update after generation gives the frame generation would give for the new payload. */
  lemma UpdateAfterGen(data: seq<bv8>, newData: seq<bv8>, dstOverread: bv8)
    requires |newData| <= 255
    ensures BeaconFrame(data, dstOverread).(data := newData[..Clamp(|newData|)],
                                            fcs := Ccitt(0, newData[..Clamp(|newData|)]))
         == BeaconFrame(newData, dstOverread)
  {
    assert newData[..Clamp(|newData|)] == newData;
  }

  /** One `str_pkt[(*str_pkt_len)++] = octet` step. */
  method PutOctet(dst: array<bv8>, at: nat, b: bv8) returns (next: nat)
    requires at < dst.Length
    modifies dst
    ensures next == at + 1
    ensures dst[..next] == old(dst[..at]) + [b]
    ensures forall j :: next <= j < dst.Length ==> dst[j] == old(dst[j])
  {
    dst[at] := b;
    next := at + 1;
  }

  /** A copy loop of ax25_pkt_2_str: `src` appended at `at`. */
  method CopyOut(dst: array<bv8>, at: nat, src: seq<bv8>) returns (next: nat)
    requires at + |src| <= dst.Length
    modifies dst
    ensures next == at + |src|
    ensures dst[..next] == old(dst[..at]) + src
    ensures forall j :: next <= j < dst.Length ==> dst[j] == old(dst[j])
  {
    next := at;
    var i := 0;
    while i < |src|
      invariant 0 <= i <= |src| && next == at + i
      invariant dst[..next] == old(dst[..at]) + src[..i]
      invariant forall j :: at + |src| <= j < dst.Length ==> dst[j] == old(dst[j])
    {
      dst[next] := src[i];
      assert src[..i + 1] == src[..i] + [src[i]];
      next := next + 1;
      i := i + 1;
    }
  }

  /** An address field: the seven callsign octets, then the SSID octet. */
  method PutAddress(dst: array<bv8>, at: nat, h: Header) returns (next: nat)
    requires at + |h.callsign| + 1 <= dst.Length
    modifies dst
    ensures next == at + |h.callsign| + 1
    ensures dst[..next] == old(dst[..at]) + h.callsign + [h.ssid]
    ensures forall j :: next <= j < dst.Length ==> dst[j] == old(dst[j])
  {
    next := CopyOut(dst, at, h.callsign);
    next := PutOctet(dst, next, h.ssid);
  }

  /** FCS most significant octet, least significant octet, end flag. */
  method PutTrailer(dst: array<bv8>, at: nat, fcs: bv16, endFlag: bv8) returns (next: nat)
    requires at + 3 <= dst.Length
    modifies dst
    ensures next == at + 3
    ensures dst[..next] == old(dst[..at]) + [FcsMsb(fcs)] + [FcsLsb(fcs)] + [endFlag]
    ensures forall j :: next <= j < dst.Length ==> dst[j] == old(dst[j])
  {
    next := PutOctet(dst, at, FcsMsb(fcs));
    next := PutOctet(dst, next, FcsLsb(fcs));
    next := PutOctet(dst, next, endFlag);
  }

  /** The body of ax25_pkt_2_str, on the record's field values. */
  method WriteFrame(strPkt: array<bv8>, f: Frame) returns (strPktLen: nat)
    requires WellFormed(f) && 22 + |f.data| <= strPkt.Length
    modifies strPkt
    ensures strPktLen == 22 + |f.data|
    ensures strPkt[..strPktLen] == Serialize(f)
    ensures strPkt[strPktLen..] == old(strPkt[strPktLen..])
  {
    ghost var rest := strPkt[22 + |f.data|..];
    strPktLen := PutOctet(strPkt, 0, f.startFlag);
    ghost var acc := [f.startFlag];
    assert strPkt[..strPktLen] == acc;
    strPktLen := PutAddress(strPkt, strPktLen, f.dst);
    acc := acc + f.dst.callsign + [f.dst.ssid];
    assert strPkt[..strPktLen] == acc;
    strPktLen := PutAddress(strPkt, strPktLen, f.src);
    acc := acc + f.src.callsign + [f.src.ssid];
    assert strPkt[..strPktLen] == acc;
    strPktLen := PutOctet(strPkt, strPktLen, f.control);
    acc := acc + [f.control];
    assert strPkt[..strPktLen] == acc;
    strPktLen := PutOctet(strPkt, strPktLen, f.pid);
    acc := acc + [f.pid];
    assert strPkt[..strPktLen] == acc;
    strPktLen := CopyOut(strPkt, strPktLen, f.data);
    acc := acc + f.data;
    assert strPkt[..strPktLen] == acc;
    strPktLen := PutTrailer(strPkt, strPktLen, f.fcs, f.endFlag);
    acc := acc + [FcsMsb(f.fcs)] + [FcsLsb(f.fcs)] + [f.endFlag];
    assert strPkt[..strPktLen] == acc;
    assert strPkt[strPktLen..] == rest;
  }
}

/**
 * The offline bitstream tool (gnuradio/bin2bin.py): turning a capture of
 * 0x00/0x01 symbols into a '0'/'1' string, cutting candidate packets after
 * every preamble occurrence, checking each candidate's sync word and CRC,
 * and the packet arithmetic and statistics of `main`. Python strings are
 * `seq<char>`, Python integers are `int`/`nat`, and the capture file is the
 * sequence of its bytes.
 */
module Bin2Bin {
  import opened PyCrc

  // ------------------------------------------------------------------
  // Python helpers: bin(n)[2:], zfill and slicing
  // ------------------------------------------------------------------

  function Digit(d: nat): char
  {
    if d == 0 then '0' else '1'
  }

  /** bin(n)[2:] for n >= 0: the binary digits of n without padding ("0" for zero). */
  function Bin(n: nat): (s: string)
    ensures |s| >= 1
    decreases n
  {
    if n < 2 then [Digit(n)] else Bin(n / 2) + [Digit(n % 2)]
  }

  function Pow2(k: nat): (p: nat)
    ensures p >= 1
  {
    if k == 0 then 1 else 2 * Pow2(k - 1)
  }

  /** bin(n)[2:] has more than k digits (k >= 1) exactly when n >= 2^k. */
  lemma {:induction false} BinLongerThan(n: nat, k: nat)
    requires k >= 1
    ensures |Bin(n)| > k <==> n >= Pow2(k)
    decreases k
  {
    if n >= 2 {
      if k > 1 {
        BinLongerThan(n / 2, k - 1);
      }
    }
  }

  /** A byte value has at most eight binary digits, and exactly eight iff it is at least 0x80. */
  lemma BinOfByte(b: nat)
    requires b < 256
    ensures |Bin(b)| <= 8
    ensures |Bin(b)| == 8 <==> b >= 0x80
  {
    BinLongerThan(b, 8);
    BinLongerThan(b, 7);
    assert Pow2(7) == 128 && Pow2(8) == 256;
  }

  lemma Pow2Sixteen()
    ensures Pow2(16) == 65536
  {
    assert Pow2(4) == 16;
    assert Pow2(8) == 256;
    assert Pow2(12) == 4096;
  }

  function Zeros(k: nat): (z: string)
    ensures |z| == k && forall j :: 0 <= j < k ==> z[j] == '0'
  {
    seq(k, _ => '0')
  }

  /** str.zfill(w) on a string without a sign: left-pad with '0' up to width w. */
  function ZFill(s: string, w: nat): (r: string)
    ensures |r| == if |s| >= w then |s| else w
  {
    if |s| >= w then s else Zeros(w - |s|) + s
  }

  /** s[a:b] for non-negative a and b: both ends are clamped to the length. */
  function Slice(s: string, a: nat, b: nat): (r: string)
    ensures b <= |s| && a <= b ==> r == s[a..b]
    ensures |r| == if b <= a || |s| <= a then 0 else (if b <= |s| then b else |s|) - a
  {
    var lo := if a <= |s| then a else |s|;
    var hi := if b <= |s| then b else |s|;
    if hi <= lo then [] else s[lo..hi]
  }

  /** s[-16:]: the last sixteen characters, or all of s when it is shorter. */
  function Last16(s: string): (r: string)
    ensures |r| == if |s| >= 16 then 16 else |s|
  {
    if |s| >= 16 then s[|s| - 16..] else s
  }

  /** s[-16:] is a suffix of s: what precedes it and it make up s again. */
  lemma Last16Suffix(s: string)
    ensures s == s[..|s| - |Last16(s)|] + Last16(s)
  {
  }

  // ------------------------------------------------------------------
  // Bytes2String
  // ------------------------------------------------------------------

  /** The symbol a capture byte contributes: "0" for 0x00, "1" for 0x01, nothing otherwise. */
  function Symbol(b: bv8): string
  {
    if b == 0 then "0" else if b == 1 then "1" else ""
  }

  /** The string Bytes2String builds from the capture `bytes`. */
  function Symbols(bytes: seq<bv8>): string
    decreases |bytes|
  {
    if |bytes| == 0 then "" else Symbols(bytes[..|bytes| - 1]) + Symbol(bytes[|bytes| - 1])
  }

  /** Bytes2String(f): read the capture one byte at a time until it is exhausted. */
  method Bytes2String(file: seq<bv8>) returns (binString: string)
    ensures binString == Symbols(file)
  {
    binString := "";
    var pos := 0;
    while pos < |file|
      invariant 0 <= pos <= |file|
      invariant binString == Symbols(file[..pos])
    {
      var byte := file[pos];
      assert file[..pos + 1][..pos] == file[..pos];
      if byte == 0 {
        binString := binString + "0";
      } else if byte == 1 {
        binString := binString + "1";
      }
      pos := pos + 1;
    }
    assert file[..pos] == file;
  }

  lemma {:induction false} SymbolsAppend(a: seq<bv8>, b: seq<bv8>)
    ensures Symbols(a + b) == Symbols(a) + Symbols(b)
    decreases |b|
  {
    if |b| == 0 {
      assert a + b == a;
    } else {
      var b' := b[..|b| - 1];
      assert (a + b)[..|a + b| - 1] == a + b';
      SymbolsAppend(a, b');
    }
  }

  /** The number of occurrences of v in bytes. */
  function Count(bytes: seq<bv8>, v: bv8): nat
    decreases |bytes|
  {
    if |bytes| == 0 then 0 else (if bytes[0] == v then 1 else 0) + Count(bytes[1..], v)
  }

  lemma {:induction false} CountAppend(bytes: seq<bv8>, last: bv8, v: bv8)
    ensures Count(bytes + [last], v) == Count(bytes, v) + (if last == v then 1 else 0)
    decreases |bytes|
  {
    if |bytes| == 0 {
      assert (bytes + [last])[1..] == [];
    } else {
      assert (bytes + [last])[1..] == bytes[1..] + [last];
      CountAppend(bytes[1..], last, v);
    }
  }

  /** Only '0' and '1' come out, one per 0x00/0x01 byte; every other byte is skipped. */
  lemma {:induction false} SymbolsCount(bytes: seq<bv8>)
    ensures |Symbols(bytes)| == Count(bytes, 0) + Count(bytes, 1)
    ensures forall j :: 0 <= j < |Symbols(bytes)| ==> Symbols(bytes)[j] in {'0', '1'}
    decreases |bytes|
  {
    if |bytes| > 0 {
      var init := bytes[..|bytes| - 1];
      var last := bytes[|bytes| - 1];
      SymbolsCount(init);
      assert bytes == init + [last];
      CountAppend(init, last, 0);
      CountAppend(init, last, 1);
    }
  }

  /** The capture a '0'/'1' string would be stored as: one 0x00 or 0x01 byte per symbol. */
  function Capture(s: string): (bytes: seq<bv8>)
    ensures |bytes| == |s|
  {
    seq(|s|, j requires 0 <= j < |s| => if s[j] == '1' then 1 else 0)
  }

  /** On a capture of 0x00/0x01 bytes Bytes2String is the inverse of storing the symbols. */
  lemma {:induction false} SymbolsOfCapture(s: string)
    requires forall j :: 0 <= j < |s| ==> s[j] == '0' || s[j] == '1'
    ensures Symbols(Capture(s)) == s
    decreases |s|
  {
    if |s| > 0 {
      var init := s[..|s| - 1];
      SymbolsOfCapture(init);
      assert Capture(s)[..|s| - 1] == Capture(init);
    }
  }

  // ------------------------------------------------------------------
  // FindPackets
  // ------------------------------------------------------------------

  /**
   * The preamble completes at index i: the |preamble| symbols ending at i
   * equal it, and the candidate ends inside the stream.
   */
  predicate Triggers(stream: string, preamble: string, packetSize: nat, i: nat)
    requires i < |stream|
  {
    0 < |preamble| <= i + 1
    && stream[i + 1 - |preamble|..i + 1] == preamble
    && i + packetSize - |preamble| < |stream|
  }

  /** bin_stream[i+1:(i+packet_size-len(preamble)+1)]. */
  function Candidate(stream: string, preamble: string, packetSize: nat, i: nat): string
    requires |preamble| <= i + 1
  {
    Slice(stream, i + 1, i + packetSize - |preamble| + 1)
  }

  /** The indices below n at which FindPackets appends a packet, in the order they are met. */
  function TriggerIndices(stream: string, preamble: string, packetSize: nat, n: nat): seq<nat>
    requires n <= |stream|
  {
    if n == 0 then []
    else TriggerIndices(stream, preamble, packetSize, n - 1)
         + (if Triggers(stream, preamble, packetSize, n - 1) then [n - 1] else [])
  }

  /** The packets found among the first n symbols. */
  function PacketsUpTo(stream: string, preamble: string, packetSize: nat, n: nat): seq<string>
    requires n <= |stream|
  {
    if n == 0 then []
    else PacketsUpTo(stream, preamble, packetSize, n - 1)
         + (if Triggers(stream, preamble, packetSize, n - 1)
            then [Candidate(stream, preamble, packetSize, n - 1)] else [])
  }

  /** First index of the sliding buffer while symbol i is read. */
  function BufStart(preamble: string, i: nat): nat
  {
    if |preamble| == 0 || i + 1 < |preamble| then 0 else i + 1 - |preamble|
  }

  /** FindPackets(bin_stream, preamble, packet_size). */
  method FindPackets(stream: string, preamble: string, packetSize: nat) returns (packets: seq<string>)
    ensures packets == PacketsUpTo(stream, preamble, packetSize, |stream|)
  {
    var buf := "";
    packets := [];
    var i := 0;
    while i < |stream|
      invariant 0 <= i <= |stream|
      invariant buf == stream[BufStart(preamble, i)..i]
      invariant packets == PacketsUpTo(stream, preamble, packetSize, i)
    {
      var b := stream[i];
      SliceSnoc(stream, BufStart(preamble, i), i);
      buf := buf + [b];
      FindPacketsStep(stream, preamble, packetSize, i, buf, packets);
      if |buf| == |preamble| {
        if buf == preamble {
          if i + packetSize - |preamble| < |stream| {
            packets := packets + [Slice(stream, i + 1, i + packetSize - |preamble| + 1)];
          }
        }
        buf := buf[1..];
      }
      i := i + 1;
    }
  }

  lemma SliceSnoc(s: string, a: nat, i: nat)
    requires a <= i < |s|
    ensures s[a..i] + [s[i]] == s[a..i + 1]
  {
  }

  /** One iteration of FindPackets' loop, on the buffer and the packet list. */
  lemma FindPacketsStep(stream: string, preamble: string, packetSize: nat, i: nat, buf: string, packets: seq<string>)
    requires i < |stream| && buf == stream[BufStart(preamble, i)..i + 1]
    requires packets == PacketsUpTo(stream, preamble, packetSize, i)
    ensures |buf| == |preamble| && buf == preamble && i + packetSize - |preamble| < |stream|
            ==> packets + [Slice(stream, i + 1, i + packetSize - |preamble| + 1)]
                == PacketsUpTo(stream, preamble, packetSize, i + 1)
    ensures !(|buf| == |preamble| && buf == preamble && i + packetSize - |preamble| < |stream|)
            ==> packets == PacketsUpTo(stream, preamble, packetSize, i + 1)
    ensures |buf| == |preamble| ==> buf[1..] == stream[BufStart(preamble, i + 1)..i + 1]
    ensures |buf| != |preamble| ==> buf == stream[BufStart(preamble, i + 1)..i + 1]
  {
    BufferTriggers(stream, preamble, packetSize, i);
    BufferSlides(stream, preamble, i);
  }

  /** The preamble completes at symbol i exactly when the sliding buffer, symbol i included, equals it. */
  lemma BufferTriggers(stream: string, preamble: string, packetSize: nat, i: nat)
    requires i < |stream|
    ensures var buf := stream[BufStart(preamble, i)..i + 1];
      Triggers(stream, preamble, packetSize, i)
      <==> |buf| == |preamble| && buf == preamble && i + packetSize - |preamble| < |stream|
  {
  }

  /** The buffer for the next symbol: the oldest symbol drops out once the buffer is full. */
  lemma BufferSlides(stream: string, preamble: string, i: nat)
    requires i < |stream|
    ensures var buf := stream[BufStart(preamble, i)..i + 1];
      (|buf| == |preamble| ==> buf[1..] == stream[BufStart(preamble, i + 1)..i + 1])
      && (|buf| != |preamble| ==> buf == stream[BufStart(preamble, i + 1)..i + 1])
  {
  }

  /** Every packet is packet_size - len(preamble) symbols long (none when that is negative). */
  lemma {:induction false} PacketLength(stream: string, preamble: string, packetSize: nat, n: nat)
    requires n <= |stream|
    ensures forall p :: p in PacketsUpTo(stream, preamble, packetSize, n) ==>
              |p| == if packetSize >= |preamble| then packetSize - |preamble| else 0
    decreases n
  {
    if n > 0 {
      var i := n - 1;
      var before := PacketsUpTo(stream, preamble, packetSize, i);
      PacketLength(stream, preamble, packetSize, i);
      if Triggers(stream, preamble, packetSize, i) {
        var c := Candidate(stream, preamble, packetSize, i);
        CandidateLength(stream, preamble, packetSize, i);
        assert PacketsUpTo(stream, preamble, packetSize, n) == before + [c];
      } else {
        assert PacketsUpTo(stream, preamble, packetSize, n) == before;
      }
    }
  }

  lemma CandidateLength(stream: string, preamble: string, packetSize: nat, i: nat)
    requires i < |stream| && Triggers(stream, preamble, packetSize, i)
    ensures |Candidate(stream, preamble, packetSize, i)| == if packetSize >= |preamble| then packetSize - |preamble| else 0
  {
  }

  /** A stream shorter than packet_size yields no packets. */
  lemma {:induction false} ShortStreamNoPackets(stream: string, preamble: string, packetSize: nat, n: nat)
    requires n <= |stream| < packetSize
    ensures PacketsUpTo(stream, preamble, packetSize, n) == []
    decreases n
  {
    if n > 0 {
      ShortStreamNoPackets(stream, preamble, packetSize, n - 1);
    }
  }

  /** The trigger indices are strictly increasing, below n, and are exactly the indices that trigger. */
  lemma {:induction false} TriggerIndicesExact(stream: string, preamble: string, packetSize: nat, n: nat)
    requires n <= |stream|
    ensures forall j, k :: 0 <= j < k < |TriggerIndices(stream, preamble, packetSize, n)| ==>
              TriggerIndices(stream, preamble, packetSize, n)[j] < TriggerIndices(stream, preamble, packetSize, n)[k]
    ensures forall i :: i in TriggerIndices(stream, preamble, packetSize, n) <==>
              0 <= i < n && Triggers(stream, preamble, packetSize, i)
    decreases n
  {
    if n > 0 {
      var earlier := TriggerIndices(stream, preamble, packetSize, n - 1);
      TriggerIndicesExact(stream, preamble, packetSize, n - 1);
      var tail: seq<nat> := if Triggers(stream, preamble, packetSize, n - 1) then [n - 1] else [];
      assert TriggerIndices(stream, preamble, packetSize, n) == earlier + tail;
      forall j, k | 0 <= j < k < |earlier + tail|
        ensures (earlier + tail)[j] < (earlier + tail)[k]
      {
        if k >= |earlier| {
          assert earlier[j] in earlier;
        }
      }
    }
  }

  /** The packet list is the candidate cut after each trigger index, in order. */
  lemma {:induction false} PacketsAtTriggers(stream: string, preamble: string, packetSize: nat, n: nat)
    requires n <= |stream|
    ensures |PacketsUpTo(stream, preamble, packetSize, n)| == |TriggerIndices(stream, preamble, packetSize, n)|
    ensures forall j :: 0 <= j < |TriggerIndices(stream, preamble, packetSize, n)| ==>
              TriggerIndices(stream, preamble, packetSize, n)[j] + 1 >= |preamble|
              && PacketsUpTo(stream, preamble, packetSize, n)[j]
                 == Candidate(stream, preamble, packetSize, TriggerIndices(stream, preamble, packetSize, n)[j])
    decreases n
  {
    if n > 0 {
      PacketsAtTriggers(stream, preamble, packetSize, n - 1);
    }
  }

  /** Overlapping preamble occurrences each trigger: the window slides one symbol at a time. */
  lemma OverlappingPreambles()
    ensures TriggerIndices("1010101010", "1010", 6, 10) == [3, 5, 7]
    ensures PacketsUpTo("1010101010", "1010", 6, 10) == ["10", "10", "10"]
  {
    var s, p := "1010101010", "1010";
    assert !Triggers(s, p, 6, 0) && !Triggers(s, p, 6, 1) && !Triggers(s, p, 6, 2);
    assert s[0..4] == p;
    assert Triggers(s, p, 6, 3);
    assert s[1..5] == "0101";
    assert !Triggers(s, p, 6, 4);
    assert s[2..6] == p;
    assert Triggers(s, p, 6, 5);
    assert s[3..7] == "0101";
    assert !Triggers(s, p, 6, 6);
    assert s[4..8] == p;
    assert Triggers(s, p, 6, 7);
    assert !Triggers(s, p, 6, 8) && !Triggers(s, p, 6, 9);
    assert s[4..6] == "10" && s[6..8] == "10" && s[8..10] == "10";
  }

  // ------------------------------------------------------------------
  // CheckPacket
  // ------------------------------------------------------------------

  /** The three values CheckPacket can return; only PyTrue is truthy. */
  datatype PyValue = PyTrue | PyFalse | PyNone

  /** str(bin(sb)[2:].zfill(8)). */
  function ByteBits(sb: nat): string
  {
    ZFill(Bin(sb), 8)
  }

  /** Sync byte j matches the 8-character slice of the packet at offset 8j. */
  predicate SyncByteOk(packet: string, syncBytes: seq<nat>, j: nat)
    requires j < |syncBytes|
  {
    Slice(packet, 8 * j, 8 * j + 8) == ByteBits(syncBytes[j])
  }

  predicate SyncMatches(packet: string, syncBytes: seq<nat>)
  {
    forall j :: 0 <= j < |syncBytes| ==> SyncByteOk(packet, syncBytes, j)
  }

  /** What CheckPacket returns: False on a sync mismatch, else True or None by the last 16 symbols. */
  function CheckValue(packet: string, syncBytes: seq<nat>, crc: string): PyValue
  {
    if !SyncMatches(packet, syncBytes) then PyFalse
    else if Last16(packet) == crc then PyTrue
    else PyNone
  }

  /** The comparison CheckPacket makes at offset i is the one SyncByteOk names. */
  lemma SyncByteAt(packet: string, syncBytes: seq<nat>, k: nat, i: nat)
    requires k < |syncBytes| && i == 8 * k
    ensures SyncByteOk(packet, syncBytes, k) <==> Slice(packet, i, i + 8) == ByteBits(syncBytes[k])
  {
  }

  /** A match at offset i = 8k extends the matched prefix by one sync byte. */
  lemma SyncPrefixStep(packet: string, syncBytes: seq<nat>, k: nat, i: nat)
    requires k < |syncBytes| && i == 8 * k
    requires forall j :: 0 <= j < k ==> SyncByteOk(packet, syncBytes, j)
    requires Slice(packet, i, i + 8) == ByteBits(syncBytes[k])
    ensures forall j :: 0 <= j < k + 1 ==> SyncByteOk(packet, syncBytes, j)
  {
    SyncByteAt(packet, syncBytes, k, i);
  }

  /** A mismatch at offset i = 8k means the sync check fails. */
  lemma SyncMismatchAt(packet: string, syncBytes: seq<nat>, k: nat, i: nat)
    requires k < |syncBytes| && i == 8 * k
    requires Slice(packet, i, i + 8) != ByteBits(syncBytes[k])
    ensures !SyncMatches(packet, syncBytes)
  {
    SyncByteAt(packet, syncBytes, k, i);
  }

  /**
   * CheckPacket's loop over sync_bytes: advance i by eight for each sync byte
   * that matches, stopping at the first mismatch. It reaches 8 * len(sync_bytes)
   * exactly when every sync byte matches.
   */
  method MatchSyncBytes(packet: string, syncBytes: seq<nat>) returns (i: nat)
    ensures i <= 8 * |syncBytes|
    ensures i == 8 * |syncBytes| <==> SyncMatches(packet, syncBytes)
  {
    i := 0;
    var k := 0;
    while k < |syncBytes|
      invariant 0 <= k <= |syncBytes| && i == 8 * k
      invariant forall j :: 0 <= j < k ==> SyncByteOk(packet, syncBytes, j)
    {
      if Slice(packet, i, i + 8) != ByteBits(syncBytes[k]) {
        SyncMismatchAt(packet, syncBytes, k, i);
        return;
      }
      SyncPrefixStep(packet, syncBytes, k, i);
      i := i + 8;
      k := k + 1;
    }
  }

  /**
   * CheckPacket(packet, sync_bytes, address, message, crc): compare the sync
   * bytes one at a time, stopping at the first mismatch, then the trailing
   * CRC. The address and message are accepted and never used.
   */
  method CheckPacket(packet: string, syncBytes: seq<nat>, address: int, message: string, crc: string)
    returns (r: PyValue)
    ensures r == CheckValue(packet, syncBytes, crc)
  {
    var i := MatchSyncBytes(packet, syncBytes);
    if i == 8 * |syncBytes| {
      if Last16(packet) == crc {
        return PyTrue;
      }
      return PyNone;
    } else {
      return PyFalse;
    }
  }

  /** The sync bits a frame carries: each sync byte as eight binary digits, in order. */
  function SyncBits(syncBytes: seq<nat>): string
    decreases |syncBytes|
  {
    if |syncBytes| == 0 then "" else SyncBits(syncBytes[..|syncBytes| - 1]) + ByteBits(syncBytes[|syncBytes| - 1])
  }

  /** A byte value is written as exactly eight binary digits. */
  lemma ByteBitsLength(b: nat)
    requires b < 256
    ensures |ByteBits(b)| == 8
  {
    BinOfByte(b);
  }

  predicate AllBytes(syncBytes: seq<nat>)
  {
    forall j :: 0 <= j < |syncBytes| ==> syncBytes[j] < 256
  }

  lemma {:induction false} SyncBitsLength(syncBytes: seq<nat>)
    requires AllBytes(syncBytes)
    ensures |SyncBits(syncBytes)| == 8 * |syncBytes|
    decreases |syncBytes|
  {
    var n := |syncBytes|;
    if n > 0 {
      var init := syncBytes[..n - 1];
      assert AllBytes(init);
      SyncBitsLength(init);
      ByteBitsLength(syncBytes[n - 1]);
    }
  }

  /**
   * With byte-valued sync bytes, the sync check passes exactly when the
   * packet starts with the sync bits.
   */
  lemma {:induction false} SyncMatchesPrefix(packet: string, syncBytes: seq<nat>)
    requires AllBytes(syncBytes)
    ensures SyncMatches(packet, syncBytes) <==>
              8 * |syncBytes| <= |packet| && packet[..8 * |syncBytes|] == SyncBits(syncBytes)
    decreases |syncBytes|
  {
    var n := |syncBytes|;
    if n > 0 {
      var init := syncBytes[..n - 1];
      var last := syncBytes[n - 1];
      assert AllBytes(init);
      SyncMatchesPrefix(packet, init);
      ByteBitsLength(last);
      SyncBitsLength(init);
      SyncMatchesSnoc(packet, syncBytes);
      var m := 8 * (n - 1);
      var a, b := SyncBits(init), ByteBits(last);
      assert SyncBits(syncBytes) == a + b;
      assert SyncByteOk(packet, syncBytes, n - 1) <==> Slice(packet, m, 8 * n) == b;
      PrefixSnoc(packet, a, b, m, 8 * n);
    }
  }

  /** The sync check on all bytes is the check on all but the last, and on the last. */
  lemma SyncMatchesSnoc(packet: string, syncBytes: seq<nat>)
    requires |syncBytes| > 0
    ensures var n := |syncBytes|;
      SyncMatches(packet, syncBytes) <==> SyncMatches(packet, syncBytes[..n - 1]) && SyncByteOk(packet, syncBytes, n - 1)
  {
    var n := |syncBytes|;
    var init := syncBytes[..n - 1];
    forall j | 0 <= j < n - 1
      ensures SyncByteOk(packet, syncBytes, j) == SyncByteOk(packet, init, j)
    {
      SyncByteOkSame(packet, syncBytes, init, j);
    }
  }

  /** SyncByteOk at j depends on the sync bytes only through the one at j. */
  lemma SyncByteOkSame(packet: string, a: seq<nat>, b: seq<nat>, j: nat)
    requires j < |a| && j < |b| && a[j] == b[j]
    ensures SyncByteOk(packet, a, j) == SyncByteOk(packet, b, j)
  {
  }

  /** A prefix a + b, where b is eight characters long, is the prefix a followed by the slice b behind it. */
  lemma PrefixSnoc(packet: string, a: string, b: string, m: nat, k: nat)
    requires |a| == m && |b| == 8 && k == m + 8
    ensures k <= |packet| && packet[..k] == a + b
        <==> (m <= |packet| && packet[..m] == a) && Slice(packet, m, k) == b
  {
    if k <= |packet| {
      assert packet[..k] == packet[..m] + packet[m..k];
    }
  }

  /** A candidate made of the sync bits, any body and the expected CRC string is accepted. */
  lemma FrameAccepted(syncBytes: seq<nat>, body: string, crc: string)
    requires AllBytes(syncBytes) && |crc| == 16
    ensures CheckValue(SyncBits(syncBytes) + body + crc, syncBytes, crc) == PyTrue
  {
    var p := SyncBits(syncBytes) + body + crc;
    SyncBitsLength(syncBytes);
    assert p[..8 * |syncBytes|] == SyncBits(syncBytes);
    SyncMatchesPrefix(p, syncBytes);
    assert p[|p| - 16..] == crc;
  }

  // ------------------------------------------------------------------
  // main: the expected frame and the statistics
  // ------------------------------------------------------------------

  function Repeat(s: string, n: nat): (r: string)
    ensures |r| == n * |s|
  {
    if n == 0 then "" else Repeat(s, n - 1) + s
  }

  /** preamble_size*str(bin(preamble_byte))[2:]: the unpadded binary of the byte, repeated. */
  function PreambleString(preambleByte: nat, preambleSize: nat): string
  {
    Repeat(Bin(preambleByte), preambleSize)
  }

  /** The preamble has eight symbols per byte exactly when the preamble byte is at least 0x80. */
  lemma PreambleLength(preambleByte: nat, preambleSize: nat)
    requires preambleByte < 256 && preambleSize > 0
    ensures |PreambleString(preambleByte, preambleSize)| <= 8 * preambleSize
    ensures |PreambleString(preambleByte, preambleSize)| == 8 * preambleSize <==> preambleByte >= 0x80
  {
    BinOfByte(preambleByte);
  }

  /** crc16_data: the address followed by the message bytes. */
  function CrcData(address: bv8, message: seq<bv8>): seq<bv8>
  {
    [address] + message
  }

  /** str(bin(v)[2:].zfill(16)): the CRC as the string the packets are compared with. */
  function CrcString(v: bv32): string
  {
    ZFill(Bin(v as nat), 16)
  }

  /** main's crc: crc16(poly, init, crc16_data) as a string. */
  function ExpectedCrc(poly: bv16, initialValue: bv32, address: bv8, message: seq<bv8>): string
  {
    CrcString(Crc16Value(poly, initialValue, CrcData(address, message)))
  }

  /** packet_size, in bits, with crc_size = len(crc)/8 (integer division). */
  function PacketSize(preambleSize: nat, syncWordSize: nat, messageSize: nat, crc: string): nat
  {
    (preambleSize + syncWordSize + 1 + messageSize + |crc| / 8) * 8
  }

  lemma SixteenBitValue(v: bv32)
    requires v <= 0xFFFF
    ensures v as nat == (v as bv16) as nat
  {
  }

  lemma Bv16Range(w: bv16)
    ensures w as nat < 65536
  {
  }

  /** A CRC register below 2^16 is written as exactly sixteen digits. */
  lemma CrcStringLength(v: bv32)
    requires v <= 0xFFFF
    ensures |CrcString(v)| == 16
  {
    SixteenBitValue(v);
    Bv16Range(v as bv16);
    BinLongerThan(v as nat, 16);
    Pow2Sixteen();
  }

  /** The expected CRC string is sixteen digits, so crc_size is 2. */
  lemma ExpectedCrcShape(poly: bv16, initialValue: bv32, address: bv8, message: seq<bv8>)
    ensures |ExpectedCrc(poly, initialValue, address, message)| == 16
    ensures |ExpectedCrc(poly, initialValue, address, message)| / 8 == 2
  {
    Crc16Bound(poly, initialValue, CrcData(address, message));
    CrcStringLength(Crc16Value(poly, initialValue, CrcData(address, message)));
  }

  /**
   * A frame sent with main's layout: the candidate cut after the preamble is
   * packet_size - len(preamble) symbols, that is the sync word, address,
   * message and CRC, and for the defaults (0xAA x 4, four sync bytes, a
   * ten-byte message) that is 32 preamble symbols and 136 candidate symbols.
   */
  lemma MainFrameSizes(poly: bv16, initialValue: bv32, address: bv8, message: seq<bv8>)
    requires |message| == 10
    ensures |PreambleString(0xAA, 4)| == 32
    ensures PacketSize(4, 4, |message|, ExpectedCrc(poly, initialValue, address, message)) == 168
    ensures PacketSize(4, 4, |message|, ExpectedCrc(poly, initialValue, address, message))
            - |PreambleString(0xAA, 4)| == 8 * (4 + 1 + |message| + 2)
  {
    PreambleLength(0xAA, 4);
    ExpectedCrcShape(poly, initialValue, address, message);
  }

  /**
   * A stream that starts with the preamble and then carries a candidate of
   * the right length yields that candidate as its first packet.
   */
  lemma FirstPacketAfterPreamble(preamble: string, packetSize: nat, body: string, tail: string)
    requires 0 < |preamble| <= packetSize && |body| == packetSize - |preamble|
    ensures var stream := preamble + body + tail;
            |PacketsUpTo(stream, preamble, packetSize, |stream|)| > 0
            && PacketsUpTo(stream, preamble, packetSize, |stream|)[0] == body
  {
    var stream := preamble + body + tail;
    var i := |preamble| - 1;
    assert stream[i + 1 - |preamble|..i + 1] == preamble;
    assert Triggers(stream, preamble, packetSize, i);
    assert Candidate(stream, preamble, packetSize, i) == stream[|preamble|..packetSize];
    assert stream[|preamble|..packetSize] == body;
    NoTriggerBefore(stream, preamble, packetSize, i);
    PacketsGrow(stream, preamble, packetSize, i + 1, |stream|);
  }

  lemma {:induction false} NoTriggerBefore(stream: string, preamble: string, packetSize: nat, n: nat)
    requires n <= |stream| && n < |preamble|
    ensures PacketsUpTo(stream, preamble, packetSize, n) == []
    decreases n
  {
    if n > 0 {
      NoTriggerBefore(stream, preamble, packetSize, n - 1);
    }
  }

  /** Packets found early stay at the front: the list only grows at its end. */
  lemma {:induction false} PacketsGrow(stream: string, preamble: string, packetSize: nat, m: nat, n: nat)
    requires m <= n <= |stream|
    ensures PacketsUpTo(stream, preamble, packetSize, m) <= PacketsUpTo(stream, preamble, packetSize, n)
    decreases n - m
  {
    if m < n {
      PacketsGrow(stream, preamble, packetSize, m, n - 1);
    }
  }

  /** The two lines of main's statistics that depend on the counts. */
  datatype LostPercentage = Percent(value: real) | BareZero

  datatype Statistics = Statistics(packetCount: nat, valid: seq<nat>, lost: int, percentage: LostPercentage)

  /** What CheckPacket returns for each packet, in order. */
  function Results(packets: seq<string>, syncBytes: seq<nat>, crc: string): (rs: seq<PyValue>)
    ensures |rs| == |packets|
  {
    seq(|packets|, j requires 0 <= j < |packets| => CheckValue(packets[j], syncBytes, crc))
  }

  /** The indices at which the results are truthy, as valid_packets collects them. */
  function ValidIndices(results: seq<PyValue>): seq<nat>
    decreases |results|
  {
    if |results| == 0 then []
    else
      var n := |results| - 1;
      ValidIndices(results[..n]) + (if results[n] == PyTrue then [n] else [])
  }

  /** The valid indices are strictly increasing, below the packet count, and name exactly the accepted packets. */
  lemma {:induction false} ValidIndicesExact(results: seq<PyValue>)
    ensures |ValidIndices(results)| <= |results|
    ensures forall j, k :: 0 <= j < k < |ValidIndices(results)| ==> ValidIndices(results)[j] < ValidIndices(results)[k]
    ensures forall i :: i in ValidIndices(results) <==> 0 <= i < |results| && results[i] == PyTrue
    decreases |results|
  {
    if |results| > 0 {
      var n := |results| - 1;
      var rs := results[..n];
      var earlier := ValidIndices(rs);
      ValidIndicesExact(rs);
      var tail: seq<nat> := if results[n] == PyTrue then [n] else [];
      assert ValidIndices(results) == earlier + tail;
      forall i
        ensures i in ValidIndices(results) <==> 0 <= i < |results| && results[i] == PyTrue
      {
        if 0 <= i < n {
          assert rs[i] == results[i];
        }
      }
      forall j, k | 0 <= j < k < |ValidIndices(results)|
        ensures ValidIndices(results)[j] < ValidIndices(results)[k]
      {
        if k >= |earlier| {
          assert earlier[j] in earlier;
        }
      }
    }
  }

  lemma ValidIndicesStep(results: seq<PyValue>, k: nat)
    requires k < |results|
    ensures ValidIndices(results[..k + 1]) == ValidIndices(results[..k]) + (if results[k] == PyTrue then [k] else [])
  {
    assert results[..k + 1][..k] == results[..k];
  }

  /**
   * The packet loop of main and its statistics: count the packets, record
   * the index of each valid one, and report the lost count and percentage.
   * The percentage division is only evaluated when there was a packet;
   * otherwise the line is the bare "0".
   */
  method PacketStatistics(packets: seq<string>, syncBytes: seq<nat>, address: int, message: string, crc: string)
    returns (st: Statistics)
    ensures st.packetCount == |packets|
    ensures st.valid == ValidIndices(Results(packets, syncBytes, crc))
    ensures st.lost == |packets| - |st.valid| >= 0
    ensures |packets| == 0 ==> st.percentage == BareZero
    ensures |packets| > 0 ==> st.percentage == Percent(100.0 - 100.0 * (|st.valid| as real) / (|packets| as real))
  {
    var validPackets: seq<nat> := [];
    var packetCounter := 0;
    while packetCounter < |packets|
      invariant 0 <= packetCounter <= |packets|
      invariant validPackets == ValidIndices(Results(packets, syncBytes, crc)[..packetCounter])
    {
      var p := packets[packetCounter];
      var r := CheckPacket(p, syncBytes, address, message, crc);
      ValidIndicesStep(Results(packets, syncBytes, crc), packetCounter);
      if r == PyTrue {
        validPackets := validPackets + [packetCounter];
      }
      packetCounter := packetCounter + 1;
    }
    assert Results(packets, syncBytes, crc)[..packetCounter] == Results(packets, syncBytes, crc);
    ValidIndicesExact(Results(packets, syncBytes, crc));
    var percentage := if packetCounter > 0
      then Percent(100.0 - 100.0 * (|validPackets| as real) / (packetCounter as real))
      else BareZero;
    st := Statistics(packetCounter, validPackets, packetCounter - |validPackets|, percentage);
  }

  /** The reported percentage is the lost share of the packets, between 0 and 100. */
  lemma LostPercentageMeaning(packetCount: nat, validCount: nat)
    requires 0 < packetCount && validCount <= packetCount
    ensures var pct := 100.0 - 100.0 * (validCount as real) / (packetCount as real);
            pct * (packetCount as real) == 100.0 * ((packetCount - validCount) as real)
            && 0.0 <= pct <= 100.0
  {
    var c := packetCount as real;
    var v := validCount as real;
    var x := 100.0 * v / c;
    assert x * c == 100.0 * v;
    assert (100.0 - x) * c == 100.0 * c - 100.0 * v;
    assert 0.0 <= x <= 100.0;
  }
}

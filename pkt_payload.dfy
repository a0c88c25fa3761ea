/**
 * The telemetry payload of beacon/src/pkt_payload.c: the text
 * "FLORIPASAT-BATT1=" followed by two EPS bytes, "-BATT2=" and two more
 * EPS bytes, 28 octets in all. pkt_payload_gen writes the whole layout;
 * pkt_payload_update rewrites only the four data octets of a payload that
 * was generated before.
 */
module Payload {

  /** SAT_ID, "FLORIPASAT", in ASCII. */
  const SatId: seq<bv8> := [0x46, 0x4C, 0x4F, 0x52, 0x49, 0x50, 0x41, 0x53, 0x41, 0x54]
  /** BATT1_ID, "BATT1". */
  const Batt1Id: seq<bv8> := [0x42, 0x41, 0x54, 0x54, 0x31]
  /** BATT2_ID, "BATT2". */
  const Batt2Id: seq<bv8> := [0x42, 0x41, 0x54, 0x54, 0x32]
  const Dash: bv8 := 0x2D
  const EqualsSign: bv8 := 0x3D

  /** Octets written by pkt_payload_gen. */
  const PayloadLength: nat := 28
  /** Positions of the four EPS data octets. */
  const Batt1Pos: nat := 17
  const Batt2Pos: nat := 26

  /** The payload pkt_payload_gen writes for the EPS bytes eps[0..3]. */
  function Layout(eps: seq<bv8>): (p: seq<bv8>)
    requires |eps| >= 4
    ensures |p| == PayloadLength
  {
    SatId + [Dash] + Batt1Id + [EqualsSign] + [eps[0], eps[1]] + [Dash] + Batt2Id + [EqualsSign] + [eps[2], eps[3]]
  }

  /** The layout as its three written pieces: the satellite id, the first battery field, the second. */
  lemma LayoutPieces(eps: seq<bv8>)
    requires |eps| >= 4
    ensures Layout(eps)[..10] == SatId
    ensures Layout(eps)[10..20] == [Dash] + Batt1Id + [EqualsSign] + [eps[0], eps[1]] + [Dash]
    ensures Layout(eps)[20..] == Batt2Id + [EqualsSign] + [eps[2], eps[3]]
  {
    var first := [Dash] + Batt1Id + [EqualsSign] + [eps[0], eps[1]] + [Dash];
    var second := Batt2Id + [EqualsSign] + [eps[2], eps[3]];
    assert Layout(eps) == SatId + first + second;
  }

  lemma LayoutThreePieces(eps: seq<bv8>, first: seq<bv8>, second: seq<bv8>)
    requires |eps| >= 4
    requires first == [Dash] + Batt1Id + [EqualsSign] + [eps[0], eps[1]] + [Dash]
    requires second == Batt2Id + [EqualsSign] + [eps[2], eps[3]]
    ensures Layout(eps) == SatId + first + second
  {
  }

  /** The layout, octet by octet. */
  lemma LayoutPositions(eps: seq<bv8>)
    requires |eps| >= 4
    ensures Layout(eps)[..10] == SatId && Layout(eps)[10] == Dash
    ensures Layout(eps)[11..16] == Batt1Id && Layout(eps)[16] == EqualsSign
    ensures Layout(eps)[Batt1Pos] == eps[0] && Layout(eps)[Batt1Pos + 1] == eps[1]
    ensures Layout(eps)[19] == Dash && Layout(eps)[20..25] == Batt2Id && Layout(eps)[25] == EqualsSign
    ensures Layout(eps)[Batt2Pos] == eps[2] && Layout(eps)[Batt2Pos + 1] == eps[3]
  {
    LayoutPieces(eps);
    var p := Layout(eps);
    var first := p[10..20];
    assert first[1..6] == Batt1Id;
    assert p[11..16] == first[1..6];
    var second := p[20..];
    assert second[..5] == Batt2Id;
    assert p[20..25] == second[..5];
  }

  /** The four data octets of a payload. */
  function DataOf(p: seq<bv8>): (d: seq<bv8>)
    requires |p| == PayloadLength
    ensures |d| == 4
  {
    [p[Batt1Pos], p[Batt1Pos + 1], p[Batt2Pos], p[Batt2Pos + 1]]
  }

  /** The EPS bytes can be read back from the payload. */
  lemma DataOfLayout(eps: seq<bv8>)
    requires |eps| >= 4
    ensures DataOf(Layout(eps)) == eps[..4]
  {
    LayoutPositions(eps);
  }

  /** Two payloads differ only where their EPS bytes differ. */
  lemma LayoutDiffersOnlyInData(e1: seq<bv8>, e2: seq<bv8>, i: nat)
    requires |e1| >= 4 && |e2| >= 4 && i < PayloadLength
    requires i != Batt1Pos && i != Batt1Pos + 1 && i != Batt2Pos && i != Batt2Pos + 1
    ensures Layout(e1)[i] == Layout(e2)[i]
  {
  }

  /** The octets pkt_payload_update leaves in place. */
  function Updated(p: seq<bv8>, eps: seq<bv8>): (q: seq<bv8>)
    requires |p| >= PayloadLength && |eps| >= 4
    ensures |q| == |p|
  {
    p[Batt1Pos := eps[0]][Batt1Pos + 1 := eps[1]][Batt2Pos := eps[2]][Batt2Pos + 1 := eps[3]]
  }

  /** pkt_payload_update's effect: the four data positions take the new bytes, every other octet is kept. */
  lemma UpdatedOctets(p: seq<bv8>, eps: seq<bv8>)
    requires |p| >= PayloadLength && |eps| >= 4
    ensures Updated(p, eps)[Batt1Pos] == eps[0] && Updated(p, eps)[Batt1Pos + 1] == eps[1]
    ensures Updated(p, eps)[Batt2Pos] == eps[2] && Updated(p, eps)[Batt2Pos + 1] == eps[3]
    ensures forall i :: 0 <= i < |p| && i != Batt1Pos && i != Batt1Pos + 1 && i != Batt2Pos && i != Batt2Pos + 1
              ==> Updated(p, eps)[i] == p[i]
  {
  }

  /** Updating a generated payload gives the payload generated from the new bytes. */
  lemma UpdateOfLayout(e1: seq<bv8>, e2: seq<bv8>)
    requires |e1| >= 4 && |e2| >= 4
    ensures Updated(Layout(e1), e2) == Layout(e2)
  {
    var u := Updated(Layout(e1), e2);
    forall i | 0 <= i < PayloadLength
      ensures u[i] == Layout(e2)[i]
    {
      LayoutPositions(e1);
      LayoutPositions(e2);
      if i != Batt1Pos && i != Batt1Pos + 1 && i != Batt2Pos && i != Batt2Pos + 1 {
        LayoutDiffersOnlyInData(e1, e2, i);
      }
    }
  }

  /** Writes `src` into p at `at`, as the for loops over the identifier strings do. */
  method PutBytes(p: array<bv8>, at: nat, src: seq<bv8>) returns (next: nat)
    requires at + |src| <= p.Length
    modifies p
    ensures next == at + |src|
    ensures p[..at] == old(p[..at]) && p[at..next] == src
    ensures forall j :: next <= j < p.Length ==> p[j] == old(p[j])
  {
    next := at;
    var i := 0;
    while i < |src|
      invariant 0 <= i <= |src| && next == at + i
      invariant p[..at] == old(p[..at]) && p[at..next] == src[..i]
      invariant forall j :: next <= j < p.Length ==> p[j] == old(p[j])
    {
      p[next] := src[i];
      next := next + 1;
      i := i + 1;
    }
  }

  /** pkt_payload_gen: fills pkt_payload[0 .. 28) from eps_data[0 .. 4). */
  method PktPayloadGen(p: array<bv8>, eps: seq<bv8>)
    requires p.Length >= PayloadLength && |eps| >= 4
    modifies p
    ensures p[..PayloadLength] == Layout(eps)
    ensures p[PayloadLength..] == old(p[PayloadLength..])
  {
    ghost var rest := p[PayloadLength..];
    var first := [Dash] + Batt1Id + [EqualsSign] + [eps[0], eps[1]] + [Dash];
    var second := Batt2Id + [EqualsSign] + [eps[2], eps[3]];
    var counter := PutBytes(p, 0, SatId);
    ghost var afterId := p[..counter];
    counter := PutBytes(p, counter, first);
    ghost var afterFirst := p[..counter];
    assert afterFirst == afterId + first;
    counter := PutBytes(p, counter, second);
    assert p[..PayloadLength] == afterFirst + second;
    LayoutThreePieces(eps, first, second);
    assert p[PayloadLength..] == rest;
  }

  /** pkt_payload_update: rewrites octets 17, 18, 26 and 27 and nothing else. */
  method PktPayloadUpdate(p: array<bv8>, eps: seq<bv8>)
    requires p.Length >= PayloadLength && |eps| >= 4
    modifies p
    ensures p[..] == Updated(old(p[..]), eps)
  {
    var counter := 10 + 1 + 5 + 1;
    p[counter] := eps[0];
    counter := counter + 1;
    p[counter] := eps[1];
    counter := counter + 1;
    var i := 0;
    while i <= 5 + 1
      invariant 0 <= i <= 7 && counter == 19 + i
    {
      counter := counter + 1;
      i := i + 1;
    }
    p[counter] := eps[2];
    counter := counter + 1;
    p[counter] := eps[3];
  }

  /**
   * pkt_payload_GetSize as written: the identifiers and separators except
   * the second "-", plus sizeof(eps_data) - 1, where eps_data is an address (uint8_t *).
   */
  function GetSizeAsWritten(addressSize: nat): (n: nat)
    requires addressSize >= 1
    ensures n == 22 + addressSize
  {
    |SatId| + 1 + |Batt1Id| + |Batt2Id| + 1 + 1 + addressSize - 1
  }

  /** With the MSP430's 2-byte (or 20-bit, stored in 4 bytes) addresses the reported size is not the written length. */
  lemma GetSizeMisses(addressSize: nat)
    requires addressSize == 2 || addressSize == 4
    ensures GetSizeAsWritten(addressSize) < PayloadLength
    ensures addressSize == 2 ==> GetSizeAsWritten(addressSize) == 24
  {
  }

  /** The size of the payload pkt_payload_gen writes: every piece of the layout, four data octets included. */
  function GetSize(): (n: nat)
    ensures forall eps: seq<bv8> {:trigger Layout(eps)} :: |eps| >= 4 ==> n == |Layout(eps)|
  {
    |SatId| + 1 + |Batt1Id| + 1 + 2 + 1 + |Batt2Id| + 1 + 2
  }
}

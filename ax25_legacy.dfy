/**
 * The older AX.25 builder (beacon/src/ax25.c). It shares the address,
 * control and FCS conventions of the firmware version but writes the octet
 * string at fixed offsets: the SSID octets land on the positions of the
 * seventh callsign octets, so each address field is six callsign octets and
 * an SSID, and the string is 20 + n octets long.
 */
module LegacyAx25 {
  import opened Crc
  import opened Wrappers
  import opened Ax25

  /** The octet string ax25_Packet2String leaves in str_packet[0 .. 20 + n). */
  function LegacyLayout(f: Frame): (s: seq<bv8>)
    requires WellFormed(f)
    ensures |s| == 20 + |f.data|
  {
    [f.startFlag] + f.dst.callsign[..6] + [f.dst.ssid] + f.src.callsign[..6] + [f.src.ssid] + [f.control] + [f.pid]
    + f.data + [FcsMsb(f.fcs)] + [FcsLsb(f.fcs)] + [f.endFlag]
  }

  lemma LegacyFirstPart(f: Frame)
    requires WellFormed(f)
    ensures Serialize(f)[..7] == LegacyLayout(f)[..7]
  {
    var s := Serialize(f);
    SerializeLayout(f);
    assert s[..7] == [s[0]] + s[1..7];
    assert s[1..7] == f.dst.callsign[..6];
  }

  lemma LegacySecondPart(f: Frame)
    requires WellFormed(f)
    ensures Serialize(f)[8..15] == LegacyLayout(f)[7..14]
  {
    var s := Serialize(f);
    SerializeLayout(f);
    assert s[8..15] == [s[8]] + s[9..15];
    assert s[9..15] == f.src.callsign[..6];
  }

  /** The octets after the source callsign, common to both layouts. */
  function Trailer(f: Frame): seq<bv8>
  {
    [f.src.ssid, f.control, f.pid] + f.data + [FcsMsb(f.fcs), FcsLsb(f.fcs), f.endFlag]
  }

  lemma SerializeSplit(f: Frame)
    requires WellFormed(f)
    ensures Serialize(f) == [f.startFlag] + f.dst.callsign + [f.dst.ssid] + f.src.callsign + Trailer(f)
  {
  }

  lemma LegacySplit(f: Frame)
    requires WellFormed(f)
    ensures LegacyLayout(f) == [f.startFlag] + f.dst.callsign[..6] + [f.dst.ssid] + f.src.callsign[..6] + Trailer(f)
  {
  }

  lemma LegacyThirdPart(f: Frame)
    requires WellFormed(f)
    ensures Serialize(f)[16..] == LegacyLayout(f)[14..]
  {
    var a := [f.startFlag] + f.dst.callsign + [f.dst.ssid] + f.src.callsign;
    var b := [f.startFlag] + f.dst.callsign[..6] + [f.dst.ssid] + f.src.callsign[..6];
    SerializeSplit(f);
    LegacySplit(f);
    assert |a| == 16 && |b| == 14;
    assert (a + Trailer(f))[16..] == Trailer(f);
    assert (b + Trailer(f))[14..] == Trailer(f);
  }

  /** The legacy string is the firmware string without the two seventh callsign octets. */
  lemma LegacyDropsSeventhOctets(f: Frame)
    requires WellFormed(f)
    ensures var s := Serialize(f); LegacyLayout(f) == s[..7] + s[8..15] + s[16..]
  {
    var l := LegacyLayout(f);
    LegacyFirstPart(f);
    LegacySecondPart(f);
    LegacyThirdPart(f);
    assert l == l[..7] + l[7..14] + l[14..];
  }

  /** A receiver's reading of the legacy layout; the seventh callsign octets are gone. */
  function LegacyParse(s: seq<bv8>): (f: Option<Frame>)
    ensures f.Some? <==> |s| >= 20
  {
    if |s| < 20 then None
    else
      var n := |s|;
      Some(Frame(s[0], Header(s[1..7], s[7]), Header(s[8..14], s[14]), s[15], s[16],
                 s[17..n - 3], JoinFcs(s[n - 3], s[n - 2]), s[n - 1]))
  }

  /** Everything but callsign octet 6 of each address survives the legacy layout. */
  lemma LegacyParseLayout(f: Frame)
    requires WellFormed(f)
    ensures var g := LegacyParse(LegacyLayout(f)).value;
      g == f.(dst := Header(f.dst.callsign[..6], f.dst.ssid), src := Header(f.src.callsign[..6], f.src.ssid))
  {
    FcsSplitJoin(f.fcs);
    var s := LegacyLayout(f);
    var n := |f.data|;
    var d, r, t := DestinationOctets(f), SourceOctets(f), [FcsMsb(f.fcs), FcsLsb(f.fcs), f.endFlag];
    LegacyLayoutPieces(f);
    assert s == d + r + f.data + t;
    assert s[..8] == d && s[8..17] == r && s[17..17 + n] == f.data && s[17 + n..] == t;
    assert s[1..7] == d[1..7] == f.dst.callsign[..6];
    assert s[8..14] == r[..6] == f.src.callsign[..6];
  }

  /** Frames that differ only in the seventh callsign octets give the same legacy string. */
  lemma LegacyIgnoresSeventhOctets(f: Frame, dst6: bv8, src6: bv8)
    requires WellFormed(f)
    ensures var g := f.(dst := f.dst.(callsign := f.dst.callsign[..6] + [dst6]),
                        src := f.src.(callsign := f.src.callsign[..6] + [src6]));
      WellFormed(g) && LegacyLayout(g) == LegacyLayout(f)
  {
    var g := f.(dst := f.dst.(callsign := f.dst.callsign[..6] + [dst6]),
                src := f.src.(callsign := f.src.callsign[..6] + [src6]));
    assert g.dst.callsign[..6] == f.dst.callsign[..6];
    assert g.src.callsign[..6] == f.src.callsign[..6];
  }

  /** The frame ax25_BeaconPacketGen builds: the satellite callsign on both addresses. */
  function LegacyBeaconFrame(data: seq<bv8>): (f: Frame)
    ensures WellFormed(f)
  {
    Frame(Flag,
          Header(ShiftedCallsign(SatelliteCallsign), NonRepeaterSsid | (GrsSsid << 1) | DstCommand),
          Header(ShiftedCallsign(SatelliteCallsign), NonRepeaterSsid | (SatSsid << 1) | SrcCommand),
          UnnumberedUi | PfDisable, PidNoLayer3, data, Ccitt(0, data), Flag)
  }

  /** Source and destination carry the same callsign; only the SSID octets differ. */
  lemma LegacySameCallsign(data: seq<bv8>)
    ensures var f := LegacyBeaconFrame(data);
      f.dst.callsign == f.src.callsign && f.dst.ssid == 0xE0 && f.src.ssid == 0x62
  {
  }

  /** The AX25_Packet record of the older code: no length field, the payload in a 256-octet array. */
  class LegacyPacket {
    var startFlag: bv8
    var dstAdr: Header
    var srcAdr: Header
    var controlBits: bv8
    var protocolId: bv8
    const data: array<bv8>
    var fcs: bv16
    var endFlag: bv8

    ghost predicate Valid()
      reads this
    {
      data.Length == PayloadCapacity && |dstAdr.callsign| == 7 && |srcAdr.callsign| == 7
    }

    constructor ()
      ensures Valid() && fresh(data)
    {
      startFlag := 0;
      dstAdr := Header([0, 0, 0, 0, 0, 0, 0], 0);
      srcAdr := Header([0, 0, 0, 0, 0, 0, 0], 0);
      controlBits := 0;
      protocolId := 0;
      data := new bv8[256];
      fcs := 0;
      endFlag := 0;
    }

    /** The record with the first n payload octets. */
    function Fields(n: nat): (f: Frame)
      requires Valid() && n <= PayloadCapacity
      reads this, data
      ensures WellFormed(f) && |f.data| == n
    {
      Frame(startFlag, dstAdr, srcAdr, controlBits, protocolId, data[..n], fcs, endFlag)
    }

    method CopyData(src: seq<bv8>, size: nat)
      requires Valid() && size <= |src| && size <= 255
      modifies data
      ensures data[..size] == src[..size]
      ensures data[size..] == old(data[size..])
    {
      var i := 0;
      while i < size
        invariant i <= size
        invariant data[..i] == src[..i]
        invariant data[size..] == old(data[size..])
      {
        data[i] := src[i];
        i := i + 1;
      }
    }

    /** ax25_BeaconPacketGen; as in the firmware, the uint8_t counter needs data_size <= 255. */
    method BeaconPacketGen(payload: seq<bv8>)
      requires Valid() && |payload| <= 255
      modifies this, data
      ensures Valid()
      ensures Fields(|payload|) == LegacyBeaconFrame(payload)
      ensures data[|payload|..] == old(data[|payload|..])
    {
      var dstCs := ShiftCallsign(SatelliteCallsign);
      var srcCs := ShiftCallsign(SatelliteCallsign);
      startFlag := Flag;
      dstAdr := Header(dstCs, NonRepeaterSsid | (GrsSsid << 1) | DstCommand);
      srcAdr := Header(srcCs, NonRepeaterSsid | (SatSsid << 1) | SrcCommand);
      controlBits := UnnumberedUi | PfDisable;
      protocolId := PidNoLayer3;
      CopyData(payload, |payload|);
      assert payload[..|payload|] == payload;
      var crc := Crc16Ccitt(0x0000, payload, |payload|);
      fcs := crc;
      endFlag := Flag;
    }

    /**
     * ax25_UpdateDataFromPacket with the size clamped to 255, as in the
     * firmware's Ax25.Ax25Packet.UpdateDataFromPkt: new payload and FCS.
     */
    method UpdateDataFromPacket(newData: seq<bv8>)
      requires Valid()
      modifies this`fcs, data
      ensures Valid()
      ensures var n := Clamp(|newData|);
        Fields(n) == old(Fields(n)).(data := newData[..n], fcs := Ccitt(0, newData[..n]))
      ensures data[Clamp(|newData|)..] == old(data[Clamp(|newData|)..])
    {
      var newDataSize := |newData|;
      if newDataSize > 255 {
        newDataSize := 255;
      }
      CopyData(newData, newDataSize);
      var crc := Crc16Ccitt(0x0000, newData, newDataSize);
      fcs := crc;
    }

    /** ax25_Packet2String: the fixed-offset writes, for a data_size the uint8_t counter can reach. */
    method Packet2String(strPacket: array<bv8>, dataSize: nat)
      requires Valid() && strPacket != data && dataSize <= 255 && 20 + dataSize <= strPacket.Length
      modifies strPacket
      ensures strPacket[..20 + dataSize] == LegacyLayout(Fields(dataSize))
      ensures strPacket[20 + dataSize..] == old(strPacket[20 + dataSize..])
    {
      WriteLegacy(strPacket, Fields(dataSize));
    }
  }

  /** The legacy header octets: flag, six callsign octets and SSID twice, control, PID. */
  function LegacyHeader(f: Frame): (h: seq<bv8>)
    requires WellFormed(f)
    ensures |h| == 17
  {
    DestinationOctets(f) + SourceOctets(f)
  }

  /** Flag, six destination callsign octets, destination SSID. */
  function DestinationOctets(f: Frame): (h: seq<bv8>)
    requires WellFormed(f)
    ensures |h| == 8
  {
    [f.startFlag] + f.dst.callsign[..6] + [f.dst.ssid]
  }

  /** Six source callsign octets, source SSID, control, PID. */
  function SourceOctets(f: Frame): (h: seq<bv8>)
    requires WellFormed(f)
    ensures |h| == 9
  {
    f.src.callsign[..6] + [f.src.ssid, f.control, f.pid]
  }

  /** The body of ax25_Packet2String on the record's values, writes in source order. */
  method WriteLegacy(s: array<bv8>, f: Frame)
    requires WellFormed(f) && 20 + |f.data| <= s.Length
    modifies s
    ensures s[..20 + |f.data|] == LegacyLayout(f)
    ensures s[20 + |f.data|..] == old(s[20 + |f.data|..])
  {
    var n := |f.data|;
    WriteLegacyHeader(s, f);
    assert s[20 + n..] == old(s[20 + n..]);
    var i := 0;
    while i < n
      invariant 0 <= i <= n
      invariant s[..17] == LegacyHeader(f)
      invariant s[17..17 + i] == f.data[..i]
      invariant s[20 + n..] == old(s[20 + n..])
    {
      s[i + 17] := f.data[i];
      i := i + 1;
    }
    ghost var body := s[..17 + n];
    assert body == LegacyHeader(f) + f.data;
    s[16 + n + 1] := FcsMsb(f.fcs);
    s[16 + n + 2] := FcsLsb(f.fcs);
    s[16 + n + 3] := f.endFlag;
    assert s[..17 + n] == body;
    assert s[..20 + n] == body + [FcsMsb(f.fcs), FcsLsb(f.fcs), f.endFlag];
    LegacyLayoutPieces(f);
  }

  /** The legacy layout is the header octets, the payload and the three trailing octets. */
  lemma LegacyLayoutPieces(f: Frame)
    requires WellFormed(f)
    ensures LegacyLayout(f) == LegacyHeader(f) + f.data + [FcsMsb(f.fcs), FcsLsb(f.fcs), f.endFlag]
  {
    var d := DestinationOctets(f);
    var r := SourceOctets(f);
    assert [f.startFlag] + f.dst.callsign[..6] + [f.dst.ssid] + f.src.callsign[..6] + [f.src.ssid] + [f.control] + [f.pid]
      == d + r;
  }

  /** The first seventeen writes; each SSID write overwrites a seventh callsign octet. */
  method WriteLegacyHeader(s: array<bv8>, f: Frame)
    requires WellFormed(f) && 17 <= s.Length
    modifies s
    ensures s[..17] == LegacyHeader(f)
    ensures forall j :: 17 <= j < s.Length ==> s[j] == old(s[j])
  {
    s[0] := f.startFlag;
    WriteCallsign(s, 1, f.dst.callsign);
    s[7] := f.dst.ssid;
    assert s[1..7] == f.dst.callsign[..6];
    assert s[..8] == [s[0]] + s[1..7] + [s[7]];
    assert s[..8] == DestinationOctets(f);
    ghost var dstPart := s[..8];
    WriteCallsign(s, 8, f.src.callsign);
    s[14] := f.src.ssid;
    s[15] := f.control;
    s[16] := f.pid;
    assert s[..8] == dstPart;
    assert s[8..14] == f.src.callsign[..6];
    assert s[8..17] == s[8..14] + [s[14], s[15], s[16]];
    assert s[..17] == s[..8] + s[8..17];
  }

  /** One seven-octet callsign loop, writing s[at..at + 7]. */
  method WriteCallsign(s: array<bv8>, at: nat, callsign: seq<bv8>)
    requires |callsign| == 7 && at + 7 <= s.Length
    modifies s
    ensures s[at..at + 7] == callsign
    ensures forall j :: 0 <= j < s.Length && !(at <= j < at + 7) ==> s[j] == old(s[j])
  {
    var i := 0;
    while i < 7
      invariant 0 <= i <= 7
      invariant forall j :: at <= j < at + i ==> s[j] == callsign[j - at]
      invariant forall j :: 0 <= j < s.Length && !(at <= j < at + 7) ==> s[j] == old(s[j])
    {
      s[at + i] := callsign[i];
      i := i + 1;
    }
  }
}

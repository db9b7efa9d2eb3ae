/** Received packets: `normalize_frame` of `mav_gss_lib/platform/rx/frame_detect.py`
    and `DeclarativePacketsAdapter.parse` with its integrity facts, of
    `mav_gss_lib/missions/maveric/packets.py`. */
module MaverPackets {
  import opened Options
  import opened Bitwise
  import opened ByteOrders
  import opened Csps
  import opened MaverCodecs
  import opened Texts
  import Ax25Addresses

  // ---- Outer framing -------------------------------------------------------------

  datatype FrameType = Ax25 | AsmGolay | Unknown

  const UI_DELIMITER: Text := [0x03, 0xF0]

  /** The inner payload; AX.25 frames lose everything up to the control and PID bytes. */
  function NormalizeFrame(frame: FrameType, raw: seq<byte>): seq<byte> {
    if !frame.Ax25? then raw
    else
      var at := Find(raw, UI_DELIMITER, 0);
      if at.None? then raw else raw[at.value + 2..]
  }

  predicate IsNoiseFrame(frame: FrameType, raw: seq<byte>) {
    frame.Ax25? && Find(raw, UI_DELIMITER, 0).None?
  }

  lemma AddressBytes(call: Ax25Addresses.CodePoints, ssid: int, last: bool)
    requires Ax25Addresses.EncodeCallsign(call, ssid, last).Some?
    ensures var a := Ax25Addresses.EncodeCallsign(call, ssid, last).value;
            && (forall i :: 0 <= i < 6 ==> a[i] % 2 == 0)
            && (!last ==> a[6] % 2 == 0)
  {
    hide Ax25Addresses.SixOf;
    Ax25Addresses.SsidComesBack(ssid, last);
    var a := Ax25Addresses.EncodeCallsign(call, ssid, last).value;
    var six := Ax25Addresses.SixOf(call);
    assert forall i :: 0 <= i < 6 ==> a[i] == 2 * six[i];
    assert a[6] == Ax25Addresses.SsidByte(ssid, last);
  }

  /** The delimiter never occurs inside the addresses, so exactly the header goes, for
      every address and payload; and such a frame is never taken for noise. */
  lemma HeaderIsStripped(c: Ax25Addresses.Config, payload: seq<byte>)
    requires c.enabled && Ax25Addresses.Wrap(c, payload).Some?
    ensures var packet := Ax25Addresses.Wrap(c, payload).value;
            NormalizeFrame(Ax25, packet) == payload && !IsNoiseFrame(Ax25, packet)
  {
    hide Find, Ax25Addresses.EncodeCallsign;
    AddressBytes(c.destCall, c.destSsid, false);
    AddressBytes(c.srcCall, c.srcSsid, true);
    var dest := Ax25Addresses.EncodeCallsign(c.destCall, c.destSsid, false).value;
    var src := Ax25Addresses.EncodeCallsign(c.srcCall, c.srcSsid, true).value;
    var packet := Ax25Addresses.Wrap(c, payload).value;
    assert packet == dest + src + [0x03, 0xF0] + payload;
    OnlyDelimiter(packet, dest, src, payload);
    FindIsFirst(packet, UI_DELIMITER, 0, 14);
  }

  lemma OnlyDelimiter(packet: seq<byte>, dest: seq<byte>, src: seq<byte>, payload: seq<byte>)
    requires |dest| == 7 && |src| == 7 && packet == dest + src + [0x03, 0xF0] + payload
    requires (forall i :: 0 <= i < 7 ==> dest[i] % 2 == 0) && (forall i :: 0 <= i < 6 ==> src[i] % 2 == 0)
    ensures OccursAt(packet, UI_DELIMITER, 14) && packet[16..] == payload
    ensures forall i :: 0 <= i < 14 ==> !OccursAt(packet, UI_DELIMITER, i)
  {
    assert packet[14..16] == UI_DELIMITER;
    forall i | 0 <= i < 14 ensures !OccursAt(packet, UI_DELIMITER, i) {
      assert packet[i] == if i < 7 then dest[i] else src[i - 7];
      assert packet[14] == 0x03;
      assert packet[i..i + 2] == [packet[i], packet[i + 1]];
    }
  }

  // ---- Parsing --------------------------------------------------------------------

  datatype Payload = Payload(
    header: Option<RxHeader>, argsRaw: seq<byte>, validCrc: bool,
    cspHeader: Option<Csps.Header>, cspPlausible: bool,
    cspCrc32: Option<nat>, cspCrc32Valid: Option<bool>)

  function Parse(codec: Codec, crc16: Crc16, crc32c: Crc32, inner: seq<byte>): Payload {
    var (cspHeader, plausible) := TryParseCspV1(inner);
    var packet := Unwrap(codec, crc16, if |inner| > 4 then inner[4..] else []);
    if packet.None? then Payload(None, [], false, cspHeader, plausible, None, None)
    else
      var crc32 := packet.value.header.cspCrc32;
      Payload(Some(packet.value.header), packet.value.argsRaw, true, cspHeader, plausible, crc32,
              if crc32.Some? then VerifyCspCrc32(crc32c, inner) else None)
  }

  /** `_mission_integrity`: the overall verdict. */
  predicate OverallOk(p: Payload) {
    p.validCrc && p.cspCrc32Valid != Some(false)
  }

  /** `_is_uplink_echo`. */
  predicate IsUplinkEcho(codec: Codec, p: Payload) {
    p.header.Some? && codec.gsNode.Some? && p.header.value.src == Name(codec.gsNode.value)
  }

  function TrailerOf(c: CspConfig, crc32c: Crc32, packet: seq<byte>): Option<nat> {
    if c.cspCrc then Some(crc32c(BuildHeader(c.header) + packet)) else None
  }

  lemma WrappedParts(c: CspConfig, crc32c: Crc32, packet: seq<byte>)
    requires c.enabled && |packet| > 0
    ensures var inner := Csps.Wrap(c, crc32c, packet);
            |inner| > 4 && inner[4..] == packet + if c.cspCrc then BigDigits(crc32c(BuildHeader(c.header) + packet), 4) else []
  {
    var inner := Csps.Wrap(c, crc32c, packet);
    var head := BuildHeader(c.header);
    if c.cspCrc {
      assert inner == head + (packet + BigDigits(crc32c(head + packet), 4));
    } else {
      assert inner == head + packet;
      assert packet + [] == packet;
    }
  }

  /** Every command that was wrapped, in CSP with or without a trailer, parses back:
      routing as names where there are names, the lower-cased id, the arguments, the
      CSP fields modulo their widths, and both checksums good. It counts as an uplink
      echo exactly when its source is the ground station. */
  lemma ParseRecovers(codec: Codec, crc16: Crc16, crc32c: Crc32, c: CspConfig, h: CommandHeader, args: seq<byte>)
    requires WellFormed(codec) && Refusal(codec, h, args).None? && c.enabled
    ensures var packet := Wrapped(codec, crc16, h, args);
            var trailer := TrailerOf(c, crc32c, packet);
            var p := Parse(codec, crc16, crc32c, Csps.Wrap(c, crc32c, packet));
            && p == Payload(Some(ShownHeader(codec, h, trailer)), args, true, Some(Truncated(c.header)),
                            Truncated(c.header).src <= 20 && Truncated(c.header).dest <= 20,
                            trailer, if c.cspCrc then Some(true) else None)
            && OverallOk(p)
            && (IsUplinkEcho(codec, p) <==>
                codec.gsNode.Some? && Resolved(codec.nodes, h.fields["src"]) == codec.nodes.byName[codec.gsNode.value])
  {
    var packet := Wrapped(codec, crc16, h, args);
    var tail := if c.cspCrc then BigDigits(crc32c(BuildHeader(c.header) + packet), 4) else [];
    WrappedParts(c, crc32c, packet);
    CodecRoundTrip(codec, crc16, h, args, tail);
    HeaderRoundTrip(c, crc32c, packet);
    TrailerReads(c, crc32c, packet);
    if c.cspCrc {
      CrcRoundTrip(c, crc32c, packet);
    }
    SourceIsShown(codec, h.fields["src"]);
    hide Wrapped, Unwrap, Csps.Wrap, TryParseCspV1, VerifyCspCrc32, BigDigits, Refusal, Resolved, Shown, Truncated,
         BuildHeader, BigEndian, Lower;
  }

  /** The body checksum is reported good exactly when the bytes behind the CSP header
      hold a whole command whose checksum is right; otherwise there is no header and
      there are no arguments. The packet as a whole is reported good exactly when,
      besides, a CSP trailer of four bytes, if one is there, is right. */
  lemma VerdictExactly(codec: Codec, crc16: Crc16, crc32c: Crc32, inner: seq<byte>)
    ensures var p := Parse(codec, crc16, crc32c, inner);
            var idLen: int, argsLen: int := if |inner| >= 10 then inner[8] else 0, if |inner| >= 10 then inner[9] else 0;
            var end := 12 + idLen + argsLen;
            && (p.validCrc <==>
                && |inner| >= 10 && end + 2 <= |inner|
                && var crc := crc16(inner[4..end]); inner[end] == crc % 256 && inner[end + 1] == crc / 256)
            && (!p.validCrc ==> p.header.None? && p.argsRaw == [] && p.cspCrc32.None? && p.cspCrc32Valid.None?)
            && (OverallOk(p) <==>
                && p.validCrc
                && (|inner| == end + 6 ==> inner[end + 2..] == BigDigits(crc32c(inner[..end + 2]), 4)))
  {
    hide TryParseCspV1, Unwrap, VerifyCspCrc32, BigDigits;
    var raw := if |inner| > 4 then inner[4..] else [];
    GivenExactly(codec, crc16, raw);
    VerifiesExactly(crc32c, inner);
    if |raw| >= 6 {
      var end := INNER_HDR_LEN + raw[4] + 1 + raw[5] + 1;
      if end + 2 <= |raw| {
        assert raw[..end] == inner[4..end + 4];
      }
    }
    if Unwrap(codec, crc16, raw).Some? {
      GivenTells(codec, crc16, raw);
    }
  }

  lemma TrailerReads(c: CspConfig, crc32c: Crc32, packet: seq<byte>)
    ensures var tail := if c.cspCrc then BigDigits(crc32c(BuildHeader(c.header) + packet), 4) else [];
            (if |tail| == 4 then Some(BigEndian(tail)) else None) == TrailerOf(c, crc32c, packet)
  {
    hide BigDigits, BigEndian, BuildHeader;
    FourBytes();
    ValueOfBigDigits(crc32c(BuildHeader(c.header) + packet), 4);
  }

  lemma SourceIsShown(codec: Codec, src: Field)
    requires WellFormed(codec) && Resolves(codec.nodes, src)
    ensures codec.gsNode.Some? ==>
              (Shown(codec.nodes, src) == Name(codec.gsNode.value) <==>
               Resolved(codec.nodes, src) == codec.nodes.byName[codec.gsNode.value])
  {
  }
}

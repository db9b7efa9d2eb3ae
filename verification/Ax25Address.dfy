/** The AX.25 UI header: `AX25Config.wrap` and `ax25_decode_header` of
    `mav_gss_lib/platform/framing/ax25.py`. A callsign is its code points, already
    upper-cased; one beyond ASCII does not fit the address byte and is refused. */
module Ax25Addresses {
  import opened Options
  import opened Bitwise

  type CodePoints = seq<nat>

  const HEADER_LEN: nat := 16

  /** Blank to `str.rstrip`, below 128. */
  predicate Blank(c: nat) {
    c == 32 || 9 <= c <= 13 || 28 <= c <= 31
  }

  /** `call.ljust(6)[:6]` */
  function SixOf(call: CodePoints): (six: CodePoints)
    ensures |six| == 6
  {
    (call + seq(6, i => 32))[..6]
  }

  function RStrip(call: CodePoints): CodePoints {
    if call != [] && Blank(call[|call| - 1]) then RStrip(call[..|call| - 1]) else call
  }

  /** The SSID byte; above 15 the number is taken as the raw byte. */
  function SsidByte(ssid: int, last: bool): byte {
    (if ssid > 0x0F then ssid % 256 / 2 * 2 else 0x60 + 2 * (ssid % 16)) + BitValue(last)
  }

  function EncodeCallsign(call: CodePoints, ssid: int, last: bool): (address: Option<seq<byte>>)
    ensures address.Some? ==> |address.value| == 7
    ensures address.Some? <==> forall i :: 0 <= i < 6 ==> SixOf(call)[i] < 128
  {
    var six := SixOf(call);
    if exists i :: 0 <= i < 6 && six[i] >= 128 then None
    else Some(seq(6, i requires 0 <= i < 6 => 2 * six[i]) + [SsidByte(ssid, last)])
  }

  datatype Address = Address(callsign: CodePoints, ssid: nat, last: bool)

  function DecodeCallsign(address: seq<byte>): Address
    requires |address| == 7
  {
    Address(RStrip(seq(6, i requires 0 <= i < 6 => address[i] / 2 % 128)), address[6] / 2 % 16, address[6] % 2 == 1)
  }

  datatype Config = Config(enabled: bool, destCall: CodePoints, destSsid: int, srcCall: CodePoints, srcSsid: int)

  function Wrap(c: Config, payload: seq<byte>): (packet: Option<seq<byte>>)
    ensures packet.Some? ==> |packet.value| == |payload| + if c.enabled then HEADER_LEN else 0
  {
    if !c.enabled then Some(payload)
    else
      var dest := EncodeCallsign(c.destCall, c.destSsid, false);
      var src := EncodeCallsign(c.srcCall, c.srcSsid, true);
      if dest.None? || src.None? then None else Some(dest.value + src.value + [0x03, 0xF0] + payload)
  }

  /** Both callsigns fit their bytes. */
  predicate Addressable(c: Config) {
    && EncodeCallsign(c.destCall, c.destSsid, false).Some?
    && EncodeCallsign(c.srcCall, c.srcSsid, true).Some?
  }

  datatype UiHeader = UiHeader(dest: Address, src: Address, control: byte, pid: byte)

  function DecodeHeader(frame: seq<byte>): Option<UiHeader> {
    if |frame| < HEADER_LEN then None
    else Some(UiHeader(DecodeCallsign(frame[..7]), DecodeCallsign(frame[7..14]), frame[14], frame[15]))
  }

  /** The four SSID bits that come back. */
  function SsidSent(ssid: int): nat {
    if ssid > 0x0F then ssid / 2 % 16 else ssid % 16
  }

  /** The SSID byte bit by bit: of 0 to 15, the number above the extension bit with both
      reserved bits set; of a raw byte, its own bits above the extension bit. */
  lemma SsidBits(ssid: int, last: bool)
    ensures SsidByte(ssid, last) % 2 == (if last then 1 else 0)
    ensures 0 <= ssid <= 15 ==> SsidByte(ssid, last) / 2 == 48 + ssid
    ensures 15 < ssid < 256 ==> SsidByte(ssid, last) / 2 == ssid / 2
  {
    var b := BitValue(last);
    if ssid > 15 {
      TopBits(SsidByte(ssid, last), ssid % 256 / 2, b);
    } else {
      TopBits(SsidByte(ssid, last), 48 + ssid % 16, b);
    }
    hide SsidByte;
  }

  lemma LowFour(ssid: int, q: int, h: nat, b: nat)
    requires ssid == 256 * q + 2 * h + b && b < 2 && h < 128
    ensures ssid % 256 / 2 == h && ssid / 2 % 16 == h % 16
  {
    Remainder(ssid, 256, q, 2 * h + b);
    Remainder(2 * h + b, 2, h, b);
    Remainder(ssid, 2, 128 * q + h, b);
    Remainder(ssid / 2, 16, 8 * q + h / 16, h % 16);
  }

  lemma Remainder(v: int, d: nat, q: int, r: nat)
    requires d > 0 && v == d * q + r && r < d
    ensures v / d == q && v % d == r
  {
    Multiple(d, q - v / d, v % d - r);
  }

  lemma Multiple(d: int, k: int, r: int)
    requires d > 0 && d * k == r && -d < r < d
    ensures k == 0
  {
    FarFromZero(d, k);
  }

  lemma FarFromZero(d: int, k: int)
    requires d > 0
    ensures k >= 1 ==> d * k >= d
    ensures k <= -1 ==> d * k <= -d
  {
  }

  lemma SsidComesBack(ssid: int, last: bool)
    ensures SsidByte(ssid, last) / 2 % 16 == SsidSent(ssid)
    ensures SsidByte(ssid, last) % 2 == 1 <==> last
  {
    if ssid > 0x0F {
      var h := ssid % 256 / 2;
      LowFour(ssid, ssid / 256, h, ssid % 256 % 2);
      TopBits(SsidByte(ssid, last), h, BitValue(last));
    } else {
      TopBits(SsidByte(ssid, last), 48 + ssid % 16, BitValue(last));
    }
  }

  lemma TopBits(v: nat, h: nat, b: nat)
    requires v == 2 * h + b && b < 2
    ensures v / 2 == h && v % 2 == b
  {
  }

  lemma AddressComesBack(call: CodePoints, ssid: int, last: bool)
    requires EncodeCallsign(call, ssid, last).Some?
    ensures DecodeCallsign(EncodeCallsign(call, ssid, last).value) == Address(RStrip(SixOf(call)), SsidSent(ssid), last)
  {
    hide SixOf, RStrip, SsidByte, SsidSent;
    SsidComesBack(ssid, last);
    var address := EncodeCallsign(call, ssid, last).value;
    assert address[6] == SsidByte(ssid, last);
    var six := SixOf(call);
    forall i | 0 <= i < 6 ensures address[i] / 2 % 128 == six[i] {
      assert address[i] == 2 * six[i];
    }
    hide DecodeCallsign;
    DecodedParts(address, six);
  }

  lemma DecodedParts(address: seq<byte>, six: CodePoints)
    requires |address| == 7 && |six| == 6 && forall i :: 0 <= i < 6 ==> address[i] / 2 % 128 == six[i]
    ensures DecodeCallsign(address) == Address(RStrip(six), address[6] / 2 % 16, address[6] % 2 == 1)
  {
    hide RStrip;
    assert seq(6, i requires 0 <= i < 6 => address[i] / 2 % 128) == six;
  }

  lemma {:induction false} StripPadding(call: CodePoints, n: nat)
    ensures RStrip(call + seq(n, i => 32)) == RStrip(call)
    decreases n
  {
    var padded := call + seq(n, i => 32);
    if n == 0 {
      assert padded == call;
    } else {
      assert padded[..|padded| - 1] == call + seq(n - 1, i => 32);
      StripPadding(call, n - 1);
    }
  }

  lemma {:induction false} StripShortens(call: CodePoints)
    ensures |RStrip(call)| <= |call|
    ensures RStrip(call) == call <==> (call != [] ==> !Blank(call[|call| - 1]))
  {
    if call != [] && Blank(call[|call| - 1]) {
      StripShortens(call[..|call| - 1]);
    }
  }

  /** A callsign comes back exactly when it has at most six characters, the last of
      them not blank. */
  lemma CallsignComesBack(call: CodePoints)
    ensures RStrip(SixOf(call)) == call <==>
            && |call| <= 6
            && (call != [] ==> var last := call[|call| - 1]; last != 32 && !(9 <= last <= 13) && !(28 <= last <= 31))
  {
    StripShortens(SixOf(call));
    StripShortens(call);
    if |call| <= 6 {
      assert SixOf(call) == call + seq(6 - |call|, i => 32);
      StripPadding(call, 6 - |call|);
    }
  }

  /** The header tells both addresses, and the payload follows it. */
  lemma HeaderRoundTrip(c: Config, payload: seq<byte>)
    requires c.enabled && Wrap(c, payload).Some?
    ensures var packet := Wrap(c, payload).value;
            && packet[HEADER_LEN..] == payload
            && DecodeHeader(packet) == Some(UiHeader(
                 Address(RStrip(SixOf(c.destCall)), SsidSent(c.destSsid), false),
                 Address(RStrip(SixOf(c.srcCall)), SsidSent(c.srcSsid), true), 0x03, 0xF0))
  {
    hide DecodeCallsign, EncodeCallsign;
    AddressComesBack(c.destCall, c.destSsid, false);
    AddressComesBack(c.srcCall, c.srcSsid, true);
    var dest := EncodeCallsign(c.destCall, c.destSsid, false).value;
    var src := EncodeCallsign(c.srcCall, c.srcSsid, true).value;
    var packet := Wrap(c, payload).value;
    assert packet[..7] == dest && packet[7..14] == src;
  }
}

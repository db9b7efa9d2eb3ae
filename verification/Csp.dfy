/** CSP v1 headers, CRC trailers and KISS framing:
    `mav_gss_lib/platform/framing/csp_v1.py` and `verify_csp_crc32` of
    `mav_gss_lib/platform/framing/crc.py`. CRC-32C is any function to 32-bit words. */
module Csps {
  import opened Options
  import opened Bitwise
  import opened ByteOrders

  type Word32 = x: int | 0 <= x < 0x1_0000_0000

  type Crc32 = seq<byte> -> Word32

  datatype Header = Header(prio: int, src: int, dest: int, dport: int, sport: int, flags: int)

  datatype CspConfig = CspConfig(enabled: bool, header: Header, cspCrc: bool)

  // ---- The header word -----------------------------------------------------------

  /** `v & (2**k - 1)` of a Python integer, negative ones included. */
  function Masked(v: int, k: nat): (m: nat)
    ensures m < Pow2(k)
  {
    v % Pow2(k)
  }

  /** What survives packing: each field modulo its width. */
  function Truncated(h: Header): Header {
    Header(Masked(h.prio, 2), Masked(h.src, 5), Masked(h.dest, 5), Masked(h.dport, 6), Masked(h.sport, 6), Masked(h.flags, 8))
  }

  function HeaderWord(h: Header): nat {
    var word := Or(ShiftLeft(Masked(h.prio, 2), 30), ShiftLeft(Masked(h.src, 5), 25));
    var word := Or(word, ShiftLeft(Masked(h.dest, 5), 20));
    var word := Or(word, ShiftLeft(Masked(h.dport, 6), 14));
    var word := Or(word, ShiftLeft(Masked(h.sport, 6), 8));
    Or(word, Masked(h.flags, 8))
  }

  function BuildHeader(h: Header): (data: seq<byte>)
    ensures |data| == 4
  {
    BigDigits(HeaderWord(h), 4)
  }

  /** The fields of the first four bytes, and whether both addresses are plausible. */
  function TryParseCspV1(payload: seq<byte>): (Option<Header>, bool) {
    if |payload| < 4 then (None, false)
    else
      var h := BigEndian(payload[..4]);
      var csp := Header(And(ShiftRight(h, 30), 0x03), And(ShiftRight(h, 25), 0x1F), And(ShiftRight(h, 20), 0x1F),
                        And(ShiftRight(h, 14), 0x3F), And(ShiftRight(h, 8), 0x3F), And(h, 0xFF));
      (Some(csp), csp.src <= 20 && csp.dest <= 20)
  }

  /** Fields side by side: `v << j` beside a field of `j` bits. */
  function Beside(v: nat, field: nat, j: nat): nat {
    v * Pow2(j) + field
  }

  /** The header word is its fields side by side. */
  function Joined(h: Header): nat {
    Beside(Beside(Beside(Beside(Beside(Masked(h.prio, 2), Masked(h.src, 5), 5), Masked(h.dest, 5), 5),
                         Masked(h.dport, 6), 6), Masked(h.sport, 6), 6), Masked(h.flags, 8), 8)
  }

  lemma {:induction false} OrBeside(v: nat, field: nat, j: nat, k: nat)
    requires field < Pow2(j)
    ensures Or(ShiftLeft(v, j + k), ShiftLeft(field, k)) == ShiftLeft(Beside(v, field, j), k)
  {
    if k == 0 {
      OrOfDisjoint(v, field, j);
      ShiftLeftIsProduct(v, j);
    } else {
      OrBeside(v, field, j, k - 1);
    }
  }

  lemma OrField(v: nat, field: nat, j: nat, k: nat, jk: nat)
    requires field < Pow2(j) && jk == j + k
    ensures Or(ShiftLeft(v, jk), ShiftLeft(field, k)) == ShiftLeft(Beside(v, field, j), k)
  {
    OrBeside(v, field, j, k);
  }

  /** The OR of the shifted fields is the fields side by side: none overlaps another. */
  lemma FieldsAreJoined(h: Header)
    ensures Or(Or(Or(Or(Or(ShiftLeft(Masked(h.prio, 2), 30), ShiftLeft(Masked(h.src, 5), 25)),
                        ShiftLeft(Masked(h.dest, 5), 20)), ShiftLeft(Masked(h.dport, 6), 14)),
                  ShiftLeft(Masked(h.sport, 6), 8)), Masked(h.flags, 8)) == Joined(h)
  {
    hide ShiftLeft, Or, Beside, Masked, Pow2;
    var prio, src, dest := Masked(h.prio, 2), Masked(h.src, 5), Masked(h.dest, 5);
    var dport, sport, flags := Masked(h.dport, 6), Masked(h.sport, 6), Masked(h.flags, 8);
    var a := Beside(prio, src, 5);
    var b := Beside(a, dest, 5);
    var c := Beside(b, dport, 6);
    var d := Beside(c, sport, 6);
    OrField(prio, src, 5, 25, 30);
    OrField(a, dest, 5, 20, 25);
    OrField(b, dport, 6, 14, 20);
    OrField(c, sport, 6, 8, 14);
    OrField(d, flags, 8, 0, 8);
    ShiftNone(flags);
    ShiftNone(Beside(d, flags, 8));
  }

  lemma {:induction false} ShiftRightIsQuotient(v: nat, k: nat)
    ensures ShiftRight(v, k) == v / Pow2(k)
  {
    if k > 0 {
      ShiftRightIsQuotient(v / 2, k - 1);
      DivideTwice(v, 2, Pow2(k - 1));
    }
  }

  lemma Field(v: nat, field: nat, j: nat)
    requires field < Pow2(j)
    ensures Beside(v, field, j) / Pow2(j) == v && Beside(v, field, j) % Pow2(j) == field
  {
    DivModUnique(Beside(v, field, j), Pow2(j), v, field);
  }

  /** Reading `w` bits above `k`: the field `f` there, when `h` is `((v, f), rest)`. */
  lemma ReadField(h: nat, v: nat, f: nat, w: nat, k: nat, mask: nat)
    requires f < Pow2(w) == mask + 1 && h / Pow2(k) == Beside(v, f, w)
    ensures And(ShiftRight(h, k), mask) == f
  {
    hide And, ShiftRight, Pow2, Beside;
    ShiftRightIsQuotient(h, k);
    MaskIsModulo(h / Pow2(k), w);
    Field(v, f, w);
  }

  lemma Quotients(v: nat, f: nat, j: nat, h: nat, k: nat, jk: nat)
    requires f < Pow2(j) && h / Pow2(k) == Beside(v, f, j) && jk == j + k
    ensures h / Pow2(jk) == v
  {
    hide Beside;
    Field(v, f, j);
    PowersAdd(j, k);
    DivideTwice(h, Pow2(k), Pow2(j));
  }

  lemma Widths()
    ensures Pow2(0) == 1 && Pow2(2) == 4 && Pow2(5) == 32 && Pow2(6) == 64 && Pow2(8) == 256
  {
  }

  /** Taking the word apart gives each field modulo its width. */
  lemma FieldsComeBack(h: Header, word: nat)
    requires word == Joined(h)
    ensures Header(And(ShiftRight(word, 30), 0x03), And(ShiftRight(word, 25), 0x1F), And(ShiftRight(word, 20), 0x1F),
                   And(ShiftRight(word, 14), 0x3F), And(ShiftRight(word, 8), 0x3F), And(word, 0xFF)) == Truncated(h)
  {
    Widths();
    hide ShiftRight, And, Beside, Masked, Pow2;
    var prio, src, dest := Masked(h.prio, 2), Masked(h.src, 5), Masked(h.dest, 5);
    var dport, sport, flags := Masked(h.dport, 6), Masked(h.sport, 6), Masked(h.flags, 8);
    var a := Beside(prio, src, 5);
    var b := Beside(a, dest, 5);
    var c := Beside(b, dport, 6);
    var d := Beside(c, sport, 6);
    Field(d, flags, 8);
    Quotients(c, sport, 6, word, 8, 14);
    Quotients(b, dport, 6, word, 14, 20);
    Quotients(a, dest, 5, word, 20, 25);
    Quotients(prio, src, 5, word, 25, 30);
    TopField(prio);
    ReadField(word, 0, prio, 2, 30, 0x03);
    ReadField(word, prio, src, 5, 25, 0x1F);
    ReadField(word, a, dest, 5, 20, 0x1F);
    ReadField(word, b, dport, 6, 14, 0x3F);
    ReadField(word, c, sport, 6, 8, 0x3F);
    LowField(word, flags);
  }

  lemma TopField(prio: nat)
    ensures Beside(0, prio, 2) == prio
  {
  }

  lemma LowField(word: nat, flags: nat)
    requires Pow2(8) == 256 && word % Pow2(8) == flags
    ensures And(word, 0xFF) == flags
  {
    hide And, Pow2;
    MaskIsModulo(word, 8);
  }

  lemma JoinedFits(h: Header)
    ensures Joined(h) < Pow256(4)
  {
    Widths();
    assert Pow256(4) == 0x1_0000_0000;
  }

  // ---- Wrapping -------------------------------------------------------------------

  function Overhead(c: CspConfig): nat {
    if !c.enabled then 0 else if c.cspCrc then 8 else 4
  }

  function Wrap(c: CspConfig, crc32c: Crc32, payload: seq<byte>): (packet: seq<byte>)
    ensures |packet| == |payload| + Overhead(c)
  {
    if !c.enabled then payload
    else
      var packet := BuildHeader(c.header) + payload;
      if c.cspCrc then packet + BigDigits(crc32c(packet), 4) else packet
  }

  /** `verify_csp_crc32`, its first result. */
  function VerifyCspCrc32(crc32c: Crc32, inner: seq<byte>): Option<bool> {
    if |inner| < 8 then None
    else Some(BigEndian(inner[|inner| - 4..]) == crc32c(inner[..|inner| - 4]))
  }

  /** The header comes back, each field modulo its width, from every wrapped payload. */
  lemma HeaderRoundTrip(c: CspConfig, crc32c: Crc32, payload: seq<byte>)
    requires c.enabled
    ensures TryParseCspV1(Wrap(c, crc32c, payload))
            == (Some(Truncated(c.header)), Truncated(c.header).src <= 20 && Truncated(c.header).dest <= 20)
  {
    var packet := Wrap(c, crc32c, payload);
    var word := HeaderWord(c.header);
    assert packet[..4] == BuildHeader(c.header);
    hide Joined, BigDigits, BigEndian, Truncated, Wrap, Pow256, ShiftLeft, ShiftRight, Or, And, Masked;
    FieldsAreJoined(c.header);
    JoinedFits(c.header);
    ValueOfBigDigits(word, 4);
    FieldsComeBack(c.header, word);
  }

  /** A trailer that was appended verifies. */
  lemma CrcRoundTrip(c: CspConfig, crc32c: Crc32, payload: seq<byte>)
    requires c.enabled && c.cspCrc
    ensures VerifyCspCrc32(crc32c, Wrap(c, crc32c, payload)) == Some(true)
  {
    var packet := BuildHeader(c.header) + payload;
    var crc := crc32c(packet);
    var whole := packet + BigDigits(crc, 4);
    assert whole[..|whole| - 4] == packet && whole[|whole| - 4..] == BigDigits(crc, 4);
    FourBytes();
    ValueOfBigDigits(crc, 4);
  }

  /** Verification needs a header and a trailer; then it succeeds exactly when the last
      four bytes, most significant first, are the checksum of what stands before them. */
  lemma VerifiesExactly(crc32c: Crc32, inner: seq<byte>)
    ensures VerifyCspCrc32(crc32c, inner).None? <==> |inner| < 8
    ensures |inner| >= 8 ==>
              var n := |inner| - 4;
              VerifyCspCrc32(crc32c, inner) == Some(inner[n..] == BigDigits(crc32c(inner[..n]), 4))
  {
    hide BigEndian, BigDigits;
    if |inner| >= 8 {
      var n := |inner| - 4;
      BigDigitsOfValue(inner[n..]);
      FourBytes();
      ValueOfBigDigits(crc32c(inner[..n]), 4);
    }
  }

  /** So a packet damaged anywhere in front of its trailer verifies if and only if the
      damage keeps the checksum. */
  lemma DamageFailsToVerify(crc32c: Crc32, packet: seq<byte>, damaged: seq<byte>)
    requires |packet| == |damaged| >= 4
    ensures var crc := crc32c(packet);
            VerifyCspCrc32(crc32c, damaged + BigDigits(crc, 4)) == Some(crc32c(damaged) == crc)
  {
    hide BigDigits, BigEndian;
    var trailer := BigDigits(crc32c(packet), 4);
    var inner := damaged + trailer;
    assert inner[..|inner| - 4] == damaged && inner[|inner| - 4..] == trailer;
    FourBytes();
    ValueOfBigDigits(crc32c(packet), 4);
  }

  /** Four bytes are read as a header, whatever they are: the fields are the six bit
      ranges of the word they spell. Fewer are not. */
  lemma ParsedFields(payload: seq<byte>)
    ensures |payload| < 4 ==> TryParseCspV1(payload) == (None, false)
    ensures |payload| >= 4 ==>
              var (csp, plausible) := TryParseCspV1(payload);
              && csp.Some?
              && BuildHeader(csp.value) == payload[..4]
              && Truncated(csp.value) == csp.value
              && (plausible <==> csp.value.src <= 20 && csp.value.dest <= 20)
  {
    hide Joined, BigDigits, BigEndian, Truncated, ShiftLeft, ShiftRight, Or, And, Masked, Pow2;
    if |payload| >= 4 {
      var h := BigEndian(payload[..4]);
      BigDigitsOfValue(payload[..4]);
      FourBytes();
      var csp := TryParseCspV1(payload).0.value;
      WordIsRejoined(h, csp);
      FieldsAreJoined(csp);
    }
  }

  lemma WordIsRejoined(h: nat, csp: Header)
    requires h < 0x1_0000_0000
    requires csp == Header(And(ShiftRight(h, 30), 0x03), And(ShiftRight(h, 25), 0x1F), And(ShiftRight(h, 20), 0x1F),
                           And(ShiftRight(h, 14), 0x3F), And(ShiftRight(h, 8), 0x3F), And(h, 0xFF))
    ensures Truncated(csp) == csp && Joined(csp) == h
  {
    Widths();
    TopField(ShiftRight(h, 30));
    ShiftedByNone(h);
    hide ShiftRight, And, Beside, Pow2;
    TopTwoBits(h, 30);
    CutField(h, 30, 2, 0x03);
    CutField(h, 25, 5, 0x1F);
    CutField(h, 20, 5, 0x1F);
    CutField(h, 14, 6, 0x3F);
    CutField(h, 8, 6, 0x3F);
    CutField(h, 0, 8, 0xFF);
    Rejoins(h, 25, 5, 30);
    Rejoins(h, 20, 5, 25);
    Rejoins(h, 14, 6, 20);
    Rejoins(h, 8, 6, 14);
    Rejoins(h, 0, 8, 8);
  }

  lemma ShiftedByNone(h: nat)
    ensures ShiftRight(h, 0) == h
  {
  }

  lemma TopTwoBits(h: nat, k: nat)
    requires h < 0x1_0000_0000 && k == 30
    ensures Masked(ShiftRight(h, k), 2) == ShiftRight(h, k)
  {
    Widths();
    FourBytes();
    BytesInBits(4);
    hide *;
    PowersAdd(2, k);
    ShiftRightIsQuotient(h, k);
    MaskedIsModulo(ShiftRight(h, k), 2);
    assert h / 0x4000_0000 < 4;
  }

  /** A field cut out of a word is what the shifted word is modulo the field's width. */
  lemma CutField(h: nat, k: nat, w: nat, mask: nat)
    requires Pow2(w) == mask + 1
    ensures And(ShiftRight(h, k), mask) == Masked(ShiftRight(h, k), w)
    ensures Masked(And(ShiftRight(h, k), mask), w) == And(ShiftRight(h, k), mask)
  {
    hide *;
    MaskIsModulo(ShiftRight(h, k), w);
    MaskedIsModulo(ShiftRight(h, k), w);
    MaskedIsModulo(And(ShiftRight(h, k), mask), w);
    QuotientAndRest(ShiftRight(h, k), Pow2(w));
  }

  lemma MaskedIsModulo(v: int, w: nat)
    ensures Masked(v, w) == v % Pow2(w)
  {
  }

  lemma QuotientAndRest(v: nat, p: nat)
    requires p > 0
    ensures v / p * p + v % p == v && (v % p) % p == v % p
  {
  }

  lemma Rejoins(h: nat, k: nat, j: nat, jk: nat)
    requires jk == j + k
    ensures Beside(ShiftRight(h, jk), Masked(ShiftRight(h, k), j), j) == ShiftRight(h, k)
  {
    hide *;
    ShiftTwice(h, k, j, jk);
    MaskedIsModulo(ShiftRight(h, k), j);
    BesideIs(ShiftRight(h, jk), Masked(ShiftRight(h, k), j), j);
    QuotientAndRest(ShiftRight(h, k), Pow2(j));
  }

  lemma BesideIs(v: nat, field: nat, j: nat)
    ensures Beside(v, field, j) == v * Pow2(j) + field
  {
  }

  lemma ShiftTwice(h: nat, k: nat, j: nat, jk: nat)
    requires jk == j + k
    ensures ShiftRight(h, jk) == ShiftRight(h, k) / Pow2(j)
  {
    hide *;
    PowersAdd(j, k);
    ShiftRightIsQuotient(h, k);
    ShiftRightIsQuotient(h, jk);
    DivideTwice(h, Pow2(k), Pow2(j));
  }

  lemma FourBytes()
    ensures Pow256(4) == 0x1_0000_0000
  {
  }

  // ---- KISS --------------------------------------------------------------------------

  const FEND: byte := 0xC0
  const FESC: byte := 0xDB
  const TFEND: byte := 0xDC
  const TFESC: byte := 0xDD

  /** `data.replace(bytes([b]), with)` */
  function Replace(data: seq<byte>, b: byte, with: seq<byte>): seq<byte> {
    if data == [] then []
    else (if data[0] == b then with else [data[0]]) + Replace(data[1..], b, with)
  }

  function KissEscaped(raw: seq<byte>): seq<byte> {
    Replace(Replace(raw, FESC, [FESC, TFESC]), FEND, [FESC, TFEND])
  }

  function KissWrap(raw: seq<byte>): seq<byte> {
    [FEND, 0x00] + KissEscaped(raw) + [FEND]
  }

  /** The receiver of what stands between the delimiters. */
  function KissUnescape(data: seq<byte>): Option<seq<byte>> {
    if data == [] then Some([])
    else if data[0] == FEND then None
    else if data[0] != FESC then
      var rest := KissUnescape(data[1..]);
      if rest.Some? then Some([data[0]] + rest.value) else None
    else if |data| < 2 || (data[1] != TFEND && data[1] != TFESC) then None
    else
      var rest := KissUnescape(data[2..]);
      if rest.Some? then Some([if data[1] == TFEND then FEND else FESC] + rest.value) else None
  }

  lemma {:induction false} ReplaceConcat(a: seq<byte>, t: seq<byte>, b: byte, with: seq<byte>)
    ensures Replace(a + t, b, with) == Replace(a, b, with) + Replace(t, b, with)
  {
    if a == [] {
      assert a + t == t;
    } else {
      ReplaceConcat(a[1..], t, b, with);
      assert (a + t)[1..] == a[1..] + t;
      ConcatAssociates(if a[0] == b then with else [a[0]], Replace(a[1..], b, with), Replace(t, b, with));
    }
  }

  lemma EscapeFirst(x: byte, rest: seq<byte>)
    ensures KissEscaped([x] + rest) ==
            (if x == FESC then [FESC, TFESC] else if x == FEND then [FESC, TFEND] else [x]) + KissEscaped(rest)
  {
    var first := if x == FESC then [FESC, TFESC] else [x];
    assert ([x] + rest)[1..] == rest;
    assert Replace([x] + rest, FESC, [FESC, TFESC]) == first + Replace(rest, FESC, [FESC, TFESC]);
    ReplaceConcat(first, Replace(rest, FESC, [FESC, TFESC]), FEND, [FESC, TFEND]);
    assert [x][1..] == [] && [FESC, TFESC][1..] == [TFESC] && [TFESC][1..] == [];
  }

  /** Escaping is undone by the receiver and leaves no delimiter inside the frame. */
  lemma {:induction false} KissRoundTrip(raw: seq<byte>)
    ensures KissUnescape(KissEscaped(raw)) == Some(raw)
    ensures FEND !in KissEscaped(raw)
  {
    if raw != [] {
      hide Replace, KissEscaped;
      var x, rest := raw[0], raw[1..];
      assert raw == [x] + rest;
      KissRoundTrip(rest);
      EscapeFirst(x, rest);
      var e := KissEscaped(rest);
      assert ([x] + e)[1..] == e && ([FESC, TFESC] + e)[2..] == e && ([FESC, TFEND] + e)[2..] == e;
    } else {
      assert KissEscaped(raw) == [];
    }
  }

  /** The receiver of a whole frame. */
  function KissReceive(frame: seq<byte>): Option<seq<byte>> {
    if |frame| < 3 || frame[0] != FEND || frame[1] != 0x00 || frame[|frame| - 1] != FEND then None
    else KissUnescape(frame[2..|frame| - 1])
  }

  lemma KissFrameRoundTrip(raw: seq<byte>)
    ensures KissReceive(KissWrap(raw)) == Some(raw)
    ensures forall i :: 0 <= i < |KissWrap(raw)| ==> (KissWrap(raw)[i] == FEND <==> i == 0 || i == |KissWrap(raw)| - 1)
  {
    hide KissEscaped, KissUnescape;
    KissRoundTrip(raw);
    var frame := KissWrap(raw);
    assert frame[2..|frame| - 1] == KissEscaped(raw);
    forall i | 0 < i < |frame| - 1 ensures frame[i] != FEND {
      assert i >= 2 ==> frame[i] == KissEscaped(raw)[i - 2];
    }
  }

  /** Escaping the delimiter first would not do: its own escape would be escaped. */
  lemma EscapeOrderMatters()
    ensures KissUnescape(Replace(Replace([FEND], FEND, [FESC, TFEND]), FESC, [FESC, TFESC])) != Some([FEND])
  {
    assert Replace([FEND], FEND, [FESC, TFEND]) == [FESC, TFEND];
    assert [FESC, TFEND][1..] == [TFEND] && [TFEND][1..] == [];
    assert Replace([TFEND], FESC, [FESC, TFESC]) == [TFEND];
    assert Replace([FESC, TFEND], FESC, [FESC, TFESC]) == [FESC, TFESC] + [TFEND] == [FESC, TFESC, TFEND];
    assert [FESC, TFESC, TFEND][2..] == [TFEND];
  }
}

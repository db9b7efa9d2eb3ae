/** A reference AX.25 receiver (unpack, NRZI-decode, descramble, find flags,
    destuff, check the FCS) and the proof that it inverts the transmitter of
    `mav_gss_lib/platform/framing/ax25.py` for every packet, whatever level and
    register the receiver happens to start from. */
module Ax25Receiver {
  import opened Options
  import opened Bitwise
  import opened Ax25Crc
  import opened Ax25Hdlc
  import opened Ax25Line

  // ---- Passes of the receiver ------------------------------------------------

  function Unpack(data: seq<byte>): (s: Bits)
    ensures |s| == 8 * |data|
  {
    if data == [] then [] else MsbBits(data[0], 8) + Unpack(data[1..])
  }

  /** A level equal to the one before it is a one, a change is a zero. */
  function NrziDecode(level: bool, line: Bits): (bits: Bits)
    ensures |bits| == |line|
    decreases line
  {
    if line == [] then [] else [line[0] == level] + NrziDecode(line[0], line[1..])
  }

  /** The register holds the last 17 received bits; no feedback. */
  function Descramble(reg: ShiftRegister, line: Bits): (bits: Bits)
    ensures |bits| == |line|
    decreases line
  {
    if line == [] then []
    else [NewBit(reg, line[0])] + Descramble(Push(reg, line[0]), line[1..])
  }

  /** Whole bytes with a good check sequence: the payload is all but the last two. */
  function CheckFrame(frame: Bits): seq<seq<byte>> {
    var n := |frame| - 16;
    if n < 0 || n % 8 != 0 || !Accepts(frame) then [] else [BitsToBytes(frame[..n])]
  }

  /** The packet in the bits between two flags, if there is a good one. */
  function Deliver(segment: Bits): (packets: seq<seq<byte>>) {
    match Destuff(segment, 0)
    case None => []
    case Some(frame) => CheckFrame(frame)
  }

  /** Scan from bit `i`; `start` is where the segment after the last flag began. */
  function Scan(line: Bits, i: nat, start: Option<nat>): seq<seq<byte>>
    requires start.Some? ==> start.value <= i
    decreases |line| - i
  {
    if i + 8 > |line| then []
    else if FlagAt(line, i) then
      (if start.Some? then Deliver(line[start.value..i]) else []) + Scan(line, i + 8, Some(i + 8))
    else Scan(line, i + 1, start)
  }

  function DemodulatedBits(level: bool, reg: ShiftRegister, data: seq<byte>): Bits {
    Descramble(reg, NrziDecode(level, Unpack(data)))
  }

  function Receive(level: bool, reg: ShiftRegister, data: seq<byte>): seq<seq<byte>> {
    Scan(DemodulatedBits(level, reg, data), 0, None)
  }

  // ---- Packing and NRZI ------------------------------------------------------

  lemma {:induction false} UnpackUndoesPack(bits: Bits)
    ensures Unpack(Pack(bits)) == bits[..8 * (|bits| / 8)]
  {
    if |bits| >= 8 {
      UnpackUndoesPack(bits[8..]);
      hide MsbBits, MsbValue, Pow2;
      MsbBitsOfValue(bits[..8]);
      assert Pack(bits)[1..] == Pack(bits[8..]);
      PrefixOfWhole(bits, |bits| / 8);
    }
  }

  lemma PrefixOfWhole(bits: Bits, n: nat)
    requires 0 < n && 8 * n <= |bits|
    ensures bits[..8] + bits[8..][..8 * (n - 1)] == bits[..8 * n]
  {
  }

  /** Only the first decoded bit depends on the level the receiver assumed. */
  lemma {:induction false} NrziDecodes(sent: bool, assumed: bool, bits: Bits, n: nat, k: nat)
    requires k < n <= |bits|
    ensures k > 0 || sent == assumed ==> NrziDecode(assumed, Nrzi(sent, bits)[..n])[k] == bits[k]
    decreases k
  {
    var line := Nrzi(sent, bits);
    if k > 0 {
      NrziDecodes(line[0], line[0], bits[1..], n - 1, k - 1);
      TailOfPrefix(line, n);
    }
  }

  lemma TailOfPrefix(s: Bits, n: nat)
    requires 1 <= n <= |s|
    ensures s[..n][1..] == s[1..][..n - 1] && s[..n][0] == s[0]
  {
  }

  lemma HeadAndTail(s: Bits, n: nat)
    requires 1 <= n <= |s|
    ensures s[..n] == [s[0]] + s[1..][..n - 1]
  {
  }

  // ---- Scrambler -------------------------------------------------------------

  /** Every bit the scrambler shifts in, after the 17 of its initial register. */
  function Shifted(reg: ShiftRegister, bits: Bits): (y: Bits)
    ensures |y| == |bits|
    decreases bits
  {
    if bits == [] then []
    else [NewBit(reg, bits[0])] + Shifted(Push(reg, NewBit(reg, bits[0])), bits[1..])
  }

  lemma ShiftedTail(reg: ShiftRegister, bits: Bits)
    requires bits != []
    ensures var next := Push(reg, NewBit(reg, bits[0]));
            (reg + Shifted(reg, bits))[1..] == next + Shifted(next, bits[1..])
  {
    hide NewBit;
  }

  /** `y[n] == b[n] xor y[n-12] xor y[n-17]`: the recurrence of x^17 + x^12 + 1. */
  lemma {:induction false} ScramblerLaw(reg: ShiftRegister, bits: Bits, n: nat)
    requires n < |bits|
    ensures var y := reg + Shifted(reg, bits);
            y[n + 17] == ((y[n] != y[n + 5]) != bits[n])
    decreases n
  {
    if n > 0 {
      var next := Push(reg, NewBit(reg, bits[0]));
      ScramblerLaw(next, bits[1..], n - 1);
      ShiftedTail(reg, bits);
    }
  }

  /** What goes out is that sequence, 17 bits late. */
  lemma {:induction false} ScramblerDelay(reg: ShiftRegister, bits: Bits)
    ensures Scramble(reg, bits) == (reg + Shifted(reg, bits))[..|bits|]
    decreases bits
  {
    if bits != [] {
      hide NewBit, Shifted, Push;
      var next := Push(reg, NewBit(reg, bits[0]));
      ShiftedTail(reg, bits);
      ScramblerDelay(next, bits[1..]);
      HeadAndTail(reg + Shifted(reg, bits), |bits|);
    }
  }

  lemma {:induction false} DescramblerLaw(reg: ShiftRegister, line: Bits, n: nat)
    requires n < |line|
    ensures var y := reg + line;
            Descramble(reg, line)[n] == ((y[n] != y[n + 5]) != line[n])
    decreases n
  {
    if n > 0 {
      DescramblerLaw(Push(reg, line[0]), line[1..], n - 1);
      assert (reg + line)[1..] == Push(reg, line[0]) + line[1..];
    }
  }

  /** Started from any two registers, descramblers agree after 17 bits. */
  lemma SelfSynchronising(reg: ShiftRegister, reg': ShiftRegister, line: Bits, n: nat)
    requires 17 <= n < |line|
    ensures Descramble(reg, line)[n] == Descramble(reg', line)[n]
  {
    DescramblerLaw(reg, line, n);
    DescramblerLaw(reg', line, n);
  }

  /** The line carries the true bits 17 bits late, whatever the seed, but for the
      first one, which also depends on the level the receiver assumed. */
  lemma LinkDelivers(level: bool, reg: ShiftRegister, seed: ShiftRegister, bits: Bits, n: nat)
    requires n + 17 < 8 * (|bits| / 8)
    ensures var got := DemodulatedBits(level, reg, Pack(Nrzi(false, Scramble(seed, bits))));
            && |got| == 8 * (|bits| / 8)
            && (n > 0 || !level ==> got[n + 17] == bits[n])
  {
    hide Unpack, Pack, Nrzi, Scramble, NrziDecode, Descramble, Shifted;
    var m, nrzi := 8 * (|bits| / 8), Nrzi(false, Scramble(seed, bits));
    UnpackUndoesPack(nrzi);
    var line := NrziDecode(level, nrzi[..m]);
    LineBit(level, seed, bits, m, n);
    LineBit(level, seed, bits, m, n + 5);
    LineBit(level, seed, bits, m, n + 17);
    if n > 0 || !level {
      DescramblerUndoes(reg, seed, bits, line, n);
    }
  }

  lemma DescramblerUndoes(reg: ShiftRegister, seed: ShiftRegister, bits: Bits, line: Bits, n: nat)
    requires n + 17 < |line| <= |bits|
    requires var y := seed + Shifted(seed, bits);
             line[n] == y[n] && line[n + 5] == y[n + 5] && line[n + 17] == y[n + 17]
    ensures Descramble(reg, line)[n + 17] == bits[n]
  {
    DescramblerLaw(reg, line, n + 17);
    assert (reg + line)[n + 17] == line[n] && (reg + line)[n + 22] == line[n + 5];
    ScramblerLaw(seed, bits, n);
  }

  lemma LineBit(level: bool, from: ShiftRegister, bits: Bits, m: nat, k: nat)
    requires k < m <= |bits|
    ensures var line := NrziDecode(level, Nrzi(false, Scramble(from, bits))[..m]);
            k > 0 || !level ==> line[k] == (from + Shifted(from, bits))[k]
  {
    NrziDecodes(false, level, Scramble(from, bits), m, k);
    ScramblerDelay(from, bits);
  }

  // ---- Finding the frame -----------------------------------------------------

  lemma BodyIsDelivered(payload: seq<byte>)
    ensures Deliver(Body(payload)) == [payload]
  {
    hide Stuff, Destuff, BytesToBits, BitsToBytes, FcsBytes, Accepts;
    var frame := BytesToBits(payload + FcsBytes(payload));
    StuffingIsTransparent(Body(payload), frame, 0);
    GoodFrameLeavesResidue(payload);
    BytesToBitsConcat(payload, FcsBytes(payload));
    assert frame[..|frame| - 16] == BytesToBits(payload);
    BytesRoundTrip(payload);
  }

  /** Fewer than 16 bits, or six ones in a row, deliver nothing. */
  lemma NothingDelivered(segment: Bits, i: nat)
    requires |segment| < 16 || SixOnesAt(segment, i)
    ensures Deliver(segment) == []
  {
    if SixOnesAt(segment, i) {
      SixOnesAbort(segment, 0, i);
    } else if Destuff(segment, 0).Some? {
      StuffingIsTransparent(segment, Destuff(segment, 0).value, 0);
      StuffedLength(Destuff(segment, 0).value, 0);
    }
  }

  /** Whatever the first 18 bits are, nothing is delivered before the first whole
      flag at bit 25, and the scan is in step from there. */
  lemma {:induction false} JunkIsSkipped(line: Bits, i: nat, start: Option<nat>)
    requires i <= 25 && FlagAt(line, 25)
    requires SixOnesAt(line, 18) && !line[24]
    requires start.Some? ==> 8 <= start.value <= i
    ensures Scan(line, i, start) == Scan(line, 33, Some(33))
    decreases 25 - i
  {
    if i == 25 {
      if start.Some? {
        var segment := line[start.value..25];
        if |segment| >= 16 {
          PartOfLine(line, start.value, 25);
          SixOnesInside(line, segment, start.value, 18 - start.value);
          NothingDelivered(segment, 18 - start.value);
        } else {
          NothingDelivered(segment, 0);
        }
      }
    } else if FlagAt(line, i) {
      FlagNeedsSixOnes(line, i);
      FlagNeedsSixOnes(line, 25);
      assert i <= 17;
      if start.Some? {
        NothingDelivered(line[start.value..i], 0);
      }
      JunkIsSkipped(line, i + 8, Some(i + 8));
    } else {
      JunkIsSkipped(line, i + 1, start);
    }
  }

  lemma PartOfLine(line: Bits, a: nat, b: nat)
    requires a <= b <= |line|
    ensures StandsAt(line[a..b], line, a)
  {
    var part := line[a..b];
    forall i {:trigger part[i]} | 0 <= i < |part| ensures line[a + i] == part[i] {
    }
  }

  lemma {:induction false} FlagsAreSkipped(line: Bits, a: nat, n: nat)
    requires StandsAt(Flags(n), line, a)
    ensures Scan(line, a, Some(a)) == Scan(line, a + 8 * n, Some(a + 8 * n))
    decreases n
  {
    hide Scan, Flags, FLAG;
    if n > 0 {
      OneFlagIsSkipped(line, a, n);
      FlagsAreSkipped(line, a + 8, n - 1);
    }
  }

  lemma RestOfFlags(line: Bits, a: nat, n: nat)
    requires n > 0 && StandsAt(Flags(n), line, a)
    ensures StandsAt(Flags(n - 1), line, a + 8)
  {
    forall i {:trigger Flags(n - 1)[i]} | 0 <= i < 8 * (n - 1)
      ensures line[a + 8 + i] == Flags(n - 1)[i]
    {
      assert line[a + (i + 8)] == Flags(n)[i + 8];
    }
  }

  lemma {:induction false} QuietIsSkipped(line: Bits, a: nat, end: nat, start: Option<nat>)
    requires a <= end <= |line| - 8 && (start.Some? ==> start.value <= a)
    requires forall p :: a <= p < end ==> !FlagAt(line, p)
    ensures Scan(line, a, start) == Scan(line, end, start)
    decreases end - a
  {
    if a < end {
      QuietIsSkipped(line, a + 1, end, start);
    }
  }

  /** In step at a flag: `m` flags, one body, `n` flags, less than a flag. */
  lemma {:induction false} ScanFindsTheBody(line: Bits, a: nat, m: nat, start: nat, body: Bits, n: nat)
    requires NoSixOnes(body) && n > 0 && start == a + 8 * m
    requires StandsAt(Flags(m), line, a) && StandsAt(body, line, start)
    requires StandsAt(Flags(n), line, start + |body|)
    requires |line| < start + |body| + 8 * n + 8
    ensures Scan(line, a, Some(a)) == Deliver(body)
    decreases m
  {
    hide Scan, StandsAt, FlagAt, Deliver;
    if m == 0 {
      BodyThenFlags(line, start, body, n);
    } else {
      OneFlagIsSkipped(line, a, m);
      ScanFindsTheBody(line, a + 8, m - 1, start, body, n);
    }
  }

  lemma OneFlagIsSkipped(line: Bits, a: nat, m: nat)
    requires m > 0 && StandsAt(Flags(m), line, a)
    ensures Scan(line, a, Some(a)) == Scan(line, a + 8, Some(a + 8))
    ensures StandsAt(Flags(m - 1), line, a + 8)
  {
    FlagIsThere(m, line, a, a);
    NothingDelivered([], 0);
    assert line[a..a] == [];
    RestOfFlags(line, a, m);
  }

  lemma BodyThenFlags(line: Bits, start: nat, body: Bits, n: nat)
    requires NoSixOnes(body) && n > 0 && StandsAt(body, line, start)
    requires StandsAt(Flags(n), line, start + |body|)
    requires |line| < start + |body| + 8 * n + 8
    ensures Scan(line, start, Some(start)) == Deliver(body)
  {
    var end := start + |body|;
    FlagBit(n, 0);
    assert line[end + 0] == Flags(n)[0];
    forall p | start <= p < end ensures !FlagAt(line, p) {
      NoFlagInBody(line, body, start, p);
    }
    QuietIsSkipped(line, start, end, Some(start));
    PartOfLine(line, start, end);
    assert line[start..end] == body;
    ClosingFlags(line, start, end, n);
  }

  lemma ClosingFlags(line: Bits, start: nat, end: nat, n: nat)
    requires start <= end && n > 0 && StandsAt(Flags(n), line, end)
    requires |line| < end + 8 * n + 8
    ensures Scan(line, end, Some(start)) == Deliver(line[start..end])
  {
    FlagIsThere(n, line, end, end);
    RestOfFlags(line, end, n);
    FlagsAreSkipped(line, end + 8, n - 1);
    assert Deliver(line[start..end]) + [] == Deliver(line[start..end]);
  }

  /** What the receiver has: from the second bit of the first flag on, the sent
      bits, 17 late, all but the last 17 to 24 of them. */
  ghost predicate Received(got: Bits, sent: Bits) {
    && |sent| - 24 <= |got| - 17 <= |sent| - 17
    && forall i {:trigger sent[i]} :: 1 <= i < |got| - 17 ==> got[i + 17] == sent[i]
  }

  /** Of the `m` opening flags all but the first stand in what is received; of the
      `n` closing flags all but the last three. */
  lemma ReceivedParts(got: Bits, m: nat, body: Bits, n: nat)
    requires Received(got, Flags(m) + body + Flags(n)) && m >= 2 && n >= 4
    ensures |got| > 33 && SixOnesAt(got, 18) && !got[24] && StandsAt(Flags(m - 1), got, 25)
    ensures StandsAt(body, got, 17 + 8 * m) && StandsAt(Flags(n - 3), got, 17 + 8 * m + |body|)
  {
    var sent := Flags(m) + body + Flags(n);
    PartsStand(Flags(m), body, Flags(n));
    forall i {:trigger sent[i]} | 1 <= i < 8 * m ensures got[i + 17] == Flags(m)[i] {
      assert sent[0 + i] == Flags(m)[i];
    }
    forall i {:trigger Flags(m - 1)[i]} | 0 <= i < 8 * (m - 1) ensures got[25 + i] == Flags(m - 1)[i] {
      FlagBit(m - 1, i);
      FlagBit(m, i + 8);
      assert got[(i + 8) + 17] == sent[i + 8];
    }
    forall i {:trigger body[i]} | 0 <= i < |body| ensures got[17 + 8 * m + i] == body[i] {
      assert got[(8 * m + i) + 17] == sent[8 * m + i];
    }
    forall i {:trigger Flags(n - 3)[i]} | 0 <= i < 8 * (n - 3)
      ensures got[17 + 8 * m + |body| + i] == Flags(n - 3)[i]
    {
      FlagBit(n - 3, i);
      FlagBit(n, i);
      assert got[(8 * m + |body| + i) + 17] == sent[8 * m + |body| + i] == Flags(n)[i];
    }
    assert sent[1] && sent[2] && sent[3] && sent[4] && sent[5] && sent[6] && !sent[7];
  }

  /** With `m` opening and `n` closing flags, the scan delivers the body alone. */
  lemma ScanDelivers(got: Bits, m: nat, body: Bits, n: nat)
    requires Received(got, Flags(m) + body + Flags(n)) && m >= 2 && n >= 4
    requires NoSixOnes(body)
    ensures Scan(got, 0, None) == Deliver(body)
  {
    var sent := Flags(m) + body + Flags(n);
    assert |sent| == 8 * m + |body| + 8 * n;
    ReceivedParts(got, m, body, n);
    PartsAreDelivered(got, m - 1, 17 + 8 * m, body, n - 3);
  }

  lemma PartsAreDelivered(got: Bits, m: nat, start: nat, body: Bits, n: nat)
    requires |got| > 33 && SixOnesAt(got, 18) && !got[24]
    requires m > 0 && n > 0 && start == 25 + 8 * m && NoSixOnes(body)
    requires StandsAt(Flags(m), got, 25) && StandsAt(body, got, start)
    requires StandsAt(Flags(n), got, start + |body|) && |got| < start + |body| + 8 * n + 8
    ensures Scan(got, 0, None) == Deliver(body)
  {
    hide Scan, StandsAt, Deliver, Flags;
    FlagIsThere(m, got, 25, 25);
    RestOfFlags(got, 25, m);
    JunkIsSkipped(got, 0, None);
    ScanFindsTheBody(got, 33, m - 1, start, body, n);
  }

  /** Every packet comes back, alone and unchanged, whatever level and register
      the receiver starts from; the bits that never arrive are the last 17 to 24,
      so 17 whole closing flags do. */
  lemma RoundTrip(level: bool, reg: ShiftRegister, packet: seq<byte>)
    ensures Receive(level, reg, Frame(packet)) == [packet]
    ensures Received(DemodulatedBits(level, reg, Frame(packet)), HdlcBits(packet))
  {
    hide Scan, Descramble, Nrzi, NrziDecode, Scramble, Pack, Unpack, Body, Deliver;
    var sent, got := HdlcBits(packet), DemodulatedBits(level, reg, Frame(packet));
    LinkDelivers(level, reg, QUIET, sent, 1);
    forall n {:trigger sent[n]} | 1 <= n < |got| - 17 ensures got[n + 17] == sent[n] {
      LinkDelivers(level, reg, QUIET, sent, n);
    }
    BodyHasNoSixOnes(packet);
    ScanDelivers(got, PREAMBLE_FLAGS, Body(packet), POSTAMBLE_FLAGS);
    BodyIsDelivered(packet);
  }
}

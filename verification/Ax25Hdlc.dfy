/** HDLC framing of `mav_gss_lib/platform/framing/ax25.py`: bit stuffing, flags,
    and the frame that goes to the scrambler, with the receiver's inverse of each. */
module Ax25Hdlc {
  import opened Options
  import opened Bitwise
  import opened Ax25Crc

  const PREAMBLE_FLAGS: nat := 20
  const POSTAMBLE_FLAGS: nat := 20

  /** 0x7E, least significant bit first. */
  const FLAG: Bits := [false, true, true, true, true, true, true, false]

  /** `_FLAG_BITS * n` */
  function Flags(n: nat): (s: Bits)
    ensures |s| == 8 * n
  {
    if n == 0 then [] else FLAG + Flags(n - 1)
  }

  lemma {:induction false} FlagBit(n: nat, i: nat)
    requires i < 8 * n
    ensures Flags(n)[i] == (i % 8 != 0 && i % 8 != 7)
  {
    if i < 8 {
      assert Flags(n)[i] == FLAG[i];
    } else {
      FlagBit(n - 1, i - 8);
      assert Flags(n)[i] == Flags(n - 1)[i - 8];
      hide *;
      assert i % 8 == (i - 8) % 8;
    }
  }

  // ---- Bit stuffing ----------------------------------------------------------

  /** `bits` stuffed, `ones` consecutive ones having gone before. */
  function Stuff(bits: Bits, ones: nat): Bits
    requires ones < 5
    decreases bits
  {
    if bits == [] then []
    else if !bits[0] then [false] + Stuff(bits[1..], 0)
    else if ones == 4 then [true, false] + Stuff(bits[1..], 0)
    else [true] + Stuff(bits[1..], ones + 1)
  }

  method BitStuff(bits: Bits) returns (out: Bits)
    ensures out == Stuff(bits, 0)
  {
    out := [];
    var ones := 0;
    for i := 0 to |bits|
      invariant 0 <= ones < 5
      invariant out + Stuff(bits[i..], ones) == Stuff(bits, 0)
    {
      ghost var done, before := out, ones;
      ghost var rest := bits[i + 1..];
      out := out + [bits[i]];
      if bits[i] {
        ones := ones + 1;
        if ones == 5 {
          out := out + [false];
          ones := 0;
        }
      } else {
        ones := 0;
      }
      StuffStep(done, bits[i..], before);
      assert bits[i..][1..] == rest;
    }
  }

  lemma StuffStep(done: Bits, bits: Bits, ones: nat)
    requires ones < 5 && bits != []
    ensures done + Stuff(bits, ones) ==
            if !bits[0] then done + [false] + Stuff(bits[1..], 0)
            else if ones == 4 then done + [true] + [false] + Stuff(bits[1..], 0)
            else done + [true] + Stuff(bits[1..], ones + 1)
  {
  }

  /** The receiver: the bit after five ones must be zero and is dropped. `None`
      when it is a one (an abort or a flag) or missing. */
  function Destuff(line: Bits, ones: nat): Option<Bits>
    requires ones <= 5
    decreases line
  {
    if ones == 5 then
      if line == [] || line[0] then None else Destuff(line[1..], 0)
    else if line == [] then Some([])
    else
      match Destuff(line[1..], if line[0] then ones + 1 else 0)
      case None => None
      case Some(rest) => Some([line[0]] + rest)
  }

  /** Destuffing succeeds on exactly the stuffed streams and undoes the stuffing. */
  lemma {:induction false} StuffingIsTransparent(line: Bits, bits: Bits, ones: nat)
    requires ones < 5
    ensures Destuff(line, ones) == Some(bits) <==> line == Stuff(bits, ones)
    decreases line, bits
  {
    if line != [] {
      var b, rest := line[0], line[1..];
      if bits == [] || bits[0] != b {
      } else if b && ones == 4 {
        if rest != [] && !rest[0] {
          StuffingIsTransparent(rest[1..], bits[1..], 0);
          assert line == [true, false] + rest[1..];
        }
        assert bits == [true] + bits[1..];
      } else {
        StuffingIsTransparent(rest, bits[1..], if b then ones + 1 else 0);
        assert line == [b] + rest;
        assert bits == [b] + bits[1..];
      }
    }
  }

  lemma {:induction false} StuffedLength(bits: Bits, ones: nat)
    requires ones < 5
    ensures |bits| <= |Stuff(bits, ones)| <= |bits| + (|bits| + ones) / 5
    decreases bits
  {
    if bits != [] {
      StuffedLength(bits[1..], if !bits[0] || ones == 4 then 0 else ones + 1);
    }
  }

  predicate SixOnesAt(line: Bits, i: nat) {
    i + 6 <= |line| && line[i] && line[i + 1] && line[i + 2] && line[i + 3] && line[i + 4] && line[i + 5]
  }

  /** A receiver that meets six ones in a row never delivers. */
  lemma {:induction false} SixOnesAbort(line: Bits, ones: nat, i: nat)
    requires ones <= 5 && SixOnesAt(line, i)
    ensures Destuff(line, ones).None?
    decreases line
  {
    if i > 0 {
      SixOnesAbort(line[1..], if ones < 5 && line[0] then ones + 1 else 0, i - 1);
    } else {
      OnesAbort(line, ones, 6 - ones);
    }
  }

  lemma {:induction false} OnesAbort(line: Bits, ones: nat, n: nat)
    requires ones <= 5 && ones + n == 6 && n <= |line|
    requires forall i :: 0 <= i < n ==> line[i]
    ensures Destuff(line, ones).None?
    decreases line
  {
    if ones < 5 {
      OnesAbort(line[1..], ones + 1, n - 1);
    }
  }

  lemma StuffedHasNoSixOnes(bits: Bits, i: nat)
    ensures !SixOnesAt(Stuff(bits, 0), i)
  {
    StuffingIsTransparent(Stuff(bits, 0), bits, 0);
    if SixOnesAt(Stuff(bits, 0), i) {
      SixOnesAbort(Stuff(bits, 0), 0, i);
    }
  }

  // ---- Frames ----------------------------------------------------------------

  /** The stuffed bits between the flags. */
  function Body(payload: seq<byte>): Bits {
    Stuff(BytesToBits(payload + FcsBytes(payload)), 0)
  }

  function HdlcBits(payload: seq<byte>): Bits {
    Flags(PREAMBLE_FLAGS) + Body(payload) + Flags(POSTAMBLE_FLAGS)
  }

  method HdlcFrame(payload: seq<byte>) returns (bits: Bits)
    ensures bits == HdlcBits(payload)
  {
    var fcs := CrcCcitt(payload);
    var frameData := payload + [fcs % 256, fcs / 256];
    var dataBits := BytesToBitsLsb(frameData);
    var stuffed := BitStuff(dataBits);
    bits := Flags(PREAMBLE_FLAGS) + stuffed + Flags(POSTAMBLE_FLAGS);
  }

  method BytesToBitsLsb(data: seq<byte>) returns (bits: Bits)
    ensures bits == BytesToBits(data)
  {
    bits := [];
    for k := 0 to |data|
      invariant bits == BytesToBits(data[..k])
    {
      var shifted := data[k];
      ghost var before := bits;
      for i := 0 to 8
        invariant bits + LsbBits(shifted, 8 - i) == before + LsbBits(data[k], 8)
      {
        bits := bits + [Odd(shifted)];
        shifted := shifted / 2;
      }
      BytesToBitsAppend(data[..k], data[k]);
      assert data[..k + 1] == data[..k] + [data[k]];
    }
    assert data[..|data|] == data;
  }

  predicate FlagAt(line: Bits, p: nat) {
    p + 8 <= |line| && line[p..p + 8] == FLAG
  }

  lemma FlagNeedsSixOnes(line: Bits, p: nat)
    requires FlagAt(line, p)
    ensures SixOnesAt(line, p + 1) && !line[p] && !line[p + 7]
  {
    var w := line[p..p + 8];
    assert w[0] == line[p] && w[1] == line[p + 1] && w[2] == line[p + 2] && w[3] == line[p + 3];
    assert w[4] == line[p + 4] && w[5] == line[p + 5] && w[6] == line[p + 6] && w[7] == line[p + 7];
  }

  /** The flag pattern occurs exactly at the inserted flags: never inside the
      stuffed data and never across a boundary. */
  lemma FlagsOnlyWhereInserted(payload: seq<byte>, p: nat)
    ensures FlagAt(HdlcBits(payload), p) <==>
            || (p < 8 * PREAMBLE_FLAGS && p % 8 == 0)
            || (8 * PREAMBLE_FLAGS + |Body(payload)| <= p
                && p + 8 <= |HdlcBits(payload)|
                && (p - (8 * PREAMBLE_FLAGS + |Body(payload)|)) % 8 == 0)
  {
    HdlcParts(payload);
    hide HdlcBits, Body, Flags, NoSixOnes, FlagAt;
    BodyHasNoSixOnes(payload);
    FlagsAround(PREAMBLE_FLAGS, Body(payload), POSTAMBLE_FLAGS, p);
  }

  lemma HdlcParts(payload: seq<byte>)
    ensures HdlcBits(payload) == Flags(PREAMBLE_FLAGS) + Body(payload) + Flags(POSTAMBLE_FLAGS)
    ensures |HdlcBits(payload)| == 8 * PREAMBLE_FLAGS + |Body(payload)| + 8 * POSTAMBLE_FLAGS
  {
    hide Flags, Body;
  }

  predicate NoSixOnes(line: Bits) {
    forall i :: 0 <= i < |line| ==> !SixOnesAt(line, i)
  }

  lemma BodyHasNoSixOnes(payload: seq<byte>)
    ensures NoSixOnes(Body(payload))
  {
    forall i | 0 <= i < |Body(payload)| ensures !SixOnesAt(Body(payload), i) {
      StuffedHasNoSixOnes(BytesToBits(payload + FcsBytes(payload)), i);
    }
  }

  /** `part` stands in `line` from position `a`. */
  predicate StandsAt(part: Bits, line: Bits, a: nat) {
    a + |part| <= |line| && forall i {:trigger part[i]} :: 0 <= i < |part| ==> line[a + i] == part[i]
  }

  lemma FlagsAround(m: nat, body: Bits, n: nat, p: nat)
    requires NoSixOnes(body) && m > 0 && n > 0
    ensures FlagAt(Flags(m) + body + Flags(n), p) <==>
            || (p < 8 * m && p % 8 == 0)
            || (8 * m + |body| <= p && p + 8 <= 8 * m + |body| + 8 * n
                && (p - (8 * m + |body|)) % 8 == 0)
  {
    PartsStand(Flags(m), body, Flags(n));
    FlagsInLine(Flags(m) + body + Flags(n), m, body, n, p);
  }

  lemma FlagsInLine(line: Bits, m: nat, body: Bits, n: nat, p: nat)
    requires NoSixOnes(body) && m > 0 && n > 0 && |line| == 8 * m + |body| + 8 * n
    requires StandsAt(Flags(m), line, 0) && StandsAt(body, line, 8 * m)
    requires StandsAt(Flags(n), line, 8 * m + |body|)
    ensures FlagAt(line, p) <==>
            || (p < 8 * m && p % 8 == 0)
            || (8 * m + |body| <= p && p + 8 <= |line| && (p - (8 * m + |body|)) % 8 == 0)
  {
    var b := 8 * m + |body|;
    if p < 8 * m - 1 {
      WindowInFlags(m, line, 0, p);
    } else if p < b {
      FlagBit(n, 0);
      assert line[b + 0] == Flags(n)[0];
      NoFlagInBody(line, body, 8 * m, p);
    } else if p + 1 < b + 8 * n {
      WindowInFlags(n, line, b, p);
    }
  }

  lemma PartsStand(a: Bits, b: Bits, c: Bits)
    ensures StandsAt(a, a + b + c, 0)
    ensures StandsAt(b, a + b + c, |a|)
    ensures StandsAt(c, a + b + c, |a| + |b|)
  {
  }

  /** No flag starts inside stuffed data that a zero follows, nor on the bit before it. */
  lemma NoFlagInBody(line: Bits, body: Bits, a: nat, p: nat)
    requires NoSixOnes(body) && StandsAt(body, line, a)
    requires a <= p + 1 <= a + |body| < |line| && !line[a + |body|]
    ensures !FlagAt(line, p)
  {
    if FlagAt(line, p) {
      FlagNeedsSixOnes(line, p);
      SixOnesInside(line, body, a, p + 1 - a);
    }
  }

  lemma SixOnesInside(line: Bits, body: Bits, a: nat, i: nat)
    requires StandsAt(body, line, a) && i + 6 <= |body|
    ensures SixOnesAt(line, a + i) <==> SixOnesAt(body, i)
  {
    assert line[a + i] == body[i] && line[a + (i + 1)] == body[i + 1] && line[a + (i + 2)] == body[i + 2];
    assert line[a + (i + 3)] == body[i + 3] && line[a + (i + 4)] == body[i + 4] && line[a + (i + 5)] == body[i + 5];
  }

  lemma WindowInFlags(n: nat, line: Bits, a: nat, p: nat)
    requires StandsAt(Flags(n), line, a)
    requires a <= p && p + 1 < a + 8 * n
    ensures FlagAt(line, p) <==> (p - a) % 8 == 0 && p + 8 <= |line|
  {
    var q := p - a;
    FlagBit(n, q);
    FlagBit(n, q + 1);
    assert line[a + q] == Flags(n)[q] && line[a + (q + 1)] == Flags(n)[q + 1];
    if FlagAt(line, p) {
      FlagNeedsSixOnes(line, p);
    } else if q % 8 == 0 {
      FlagIsThere(n, line, a, p);
    }
  }

  lemma FlagIsThere(n: nat, line: Bits, a: nat, p: nat)
    requires StandsAt(Flags(n), line, a)
    requires a <= p && p + 8 <= a + 8 * n && (p - a) % 8 == 0
    ensures FlagAt(line, p)
  {
    var w, q := line[p..p + 8], p - a;
    forall k | 0 <= k < 8 ensures w[k] == FLAG[k] {
      FlagBit(n, q + k);
      assert w[k] == line[a + (q + k)] == Flags(n)[q + k];
    }
  }
}

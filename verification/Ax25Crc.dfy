/** The HDLC frame check sequence of `mav_gss_lib/platform/framing/ax25.py`.

    The program folds whole bytes into a 16-bit register. The reference here is
    the bit-serial shift register of section 3.7 of AX.25 v2.2: one bit in, one
    shift, polynomial 0x8408. The error-detection results are about the receiver
    that runs that register over payload and check sequence and looks for the
    good-frame residue of appendix C.2 of RFC 1662. */
module Ax25Crc {
  import opened Bitwise

  const SEED := 0xFFFF
  const POLYNOMIAL := 0x8408
  const FINAL_XOR := 0xFFFF
  const GOOD_RESIDUE := 0xF0B8

  type Register = c: int | 0 <= c < 0x10000

  /** `a ^ b` on 16-bit registers. */
  function Xor16(a: Register, b: Register): (c: Register)
    ensures c == Xor(a, b)
  {
    RegisterWidth();
    XorBound(a, b, 16);
    Xor(a, b)
  }

  lemma RegisterWidth()
    ensures Pow2(16) == 0x10000 && Pow2(15) == 0x8000 && Pow2(8) == 0x100
  {
    assert Pow2(4) == 16;
    assert Pow2(8) == 0x100;
    assert Pow2(12) == 0x1000;
  }

  /** One turn of the inner loop. */
  function Shift(c: Register): Register {
    if Odd(c) then Xor16(c / 2, POLYNOMIAL) else c / 2
  }

  function Shifts(c: Register, k: nat): Register
    decreases k
  {
    if k == 0 then c else Shifts(Shift(c), k - 1)
  }

  /** The bit-serial register: `b` is added to the low bit, then one shift. */
  function Feed(c: Register, b: bool): Register {
    Shift(Xor16(c, BitValue(b)))
  }

  function Run(c: Register, bits: Bits): Register
    decreases bits
  {
    if bits == [] then c else Run(Feed(c, bits[0]), bits[1..])
  }

  /** The check sequence a sender appends. */
  function Fcs(payload: seq<byte>): Register {
    Xor16(Run(SEED, BytesToBits(payload)), FINAL_XOR)
  }

  /** The check sequence as the two little-endian bytes that are sent. */
  function FcsBytes(payload: seq<byte>): (f: seq<byte>)
    ensures |f| == 2
  {
    [Fcs(payload) % 256, Fcs(payload) / 256]
  }

  /** What a receiver asks of the bits between two flags. */
  predicate Accepts(frame: Bits) {
    Run(SEED, frame) == GOOD_RESIDUE
  }

  // ---- The program's loop ----------------------------------------------------

  method CrcCcitt(data: seq<byte>) returns (crc: Register)
    ensures crc == Fcs(data)
  {
    crc := SEED;
    for i := 0 to |data|
      invariant crc == Run(SEED, BytesToBits(data[..i]))
    {
      crc := EightTurns(Xor16(crc, data[i]));
      ByteEqualsItsBits(data[..i], data[i]);
      assert data[..i + 1] == data[..i] + [data[i]];
    }
    assert data[..|data|] == data;
    crc := Xor16(crc, FINAL_XOR);
  }

  /** The inner loop. */
  method EightTurns(mixed: Register) returns (crc: Register)
    ensures crc == Shifts(mixed, 8)
  {
    crc := mixed;
    for j := 0 to 8
      invariant Shifts(crc, 8 - j) == Shifts(mixed, 8)
    {
      if Odd(crc) {
        crc := Xor16(crc / 2, POLYNOMIAL);
      } else {
        crc := crc / 2;
      }
    }
  }

  // ---- Words and bits --------------------------------------------------------

  lemma {:induction false} RunConcat(c: Register, s: Bits, t: Bits)
    ensures Run(c, s + t) == Run(Run(c, s), t)
    decreases s
  {
    if s == [] {
      assert s + t == t;
    } else {
      RunConcat(Feed(c, s[0]), s[1..], t);
      assert (s + t)[1..] == s[1..] + t;
    }
  }

  lemma ShiftIsLinear(a: Register, b: Register)
    ensures Shift(Xor16(a, b)) == Xor16(Shift(a), Shift(b))
  {
    var p := POLYNOMIAL;
    XorParts(a, b);
    XorAssociates(a / 2, b / 2, p);
    XorAssociates(a / 2, p, b / 2);
    XorCommutes(b / 2, p);
    XorSwaps(a / 2, p, b / 2, p);
    XorZeroIffEqual(p, p);
    XorZero(Xor(a / 2, b / 2));
  }

  /** Only the zero register shifts to zero. */
  lemma ShiftKernel(c: Register)
    ensures Shift(c) == 0 <==> c == 0
  {
    XorZeroIffEqual(c / 2, POLYNOMIAL);
  }

  lemma {:induction false} ShiftsAreInjective(a: Register, b: Register, k: nat)
    ensures Shifts(a, k) == Shifts(b, k) <==> a == b
    decreases k
  {
    if k > 0 {
      ShiftIsLinear(a, b);
      ShiftKernel(Xor16(a, b));
      XorZeroIffEqual(a, b);
      XorZeroIffEqual(Shift(a), Shift(b));
      ShiftsAreInjective(Shift(a), Shift(b), k - 1);
    }
  }

  /** Adding a whole word and shifting equals feeding its bits one at a time:
      the byte-wise loop is the bit-serial register. */
  lemma {:induction false} WordEqualsItsBits(c: Register, v: Register, k: nat)
    requires v < Pow2(k)
    ensures Run(c, LsbBits(v, k)) == Shifts(Xor16(c, v), k)
    decreases k
  {
    if k == 0 {
      XorZero(c);
    } else {
      var low: Register, high: Register := BitValue(Odd(v)), 2 * (v / 2);
      XorOfParts(v);
      XorAssociates(c, low, high);
      ShiftIsLinear(Xor16(c, low), high);
      WordEqualsItsBits(Feed(c, Odd(v)), v / 2, k - 1);
      assert LsbBits(v, k)[1..] == LsbBits(v / 2, k - 1);
    }
  }

  lemma ByteEqualsItsBits(data: seq<byte>, b: byte)
    ensures Shifts(Xor16(Run(SEED, BytesToBits(data)), b), 8) == Run(SEED, BytesToBits(data + [b]))
  {
    RegisterWidth();
    WordEqualsItsBits(Run(SEED, BytesToBits(data)), b, 8);
    RunConcat(SEED, BytesToBits(data), LsbBits(b, 8));
    BytesToBitsAppend(data, b);
  }

  lemma XorOfParts(v: nat)
    ensures Xor(BitValue(Odd(v)), 2 * (v / 2)) == v
  {
    var low, high := BitValue(Odd(v)), 2 * (v / 2);
    assert low / 2 == 0 && high / 2 == v / 2 && !Odd(high);
    XorParts(low, high);
    XorZero(v / 2);
  }

  // ---- What the receiver accepts ---------------------------------------------

  /** A frame is accepted for exactly one value of its trailing 16 bits: the
      check sequence of what precedes them. */
  lemma AcceptsExactlyTheFcs(payload: Bits, f: Register)
    ensures Accepts(payload + LsbBits(f, 16)) <==> f == Xor(Run(SEED, payload), FINAL_XOR)
  {
    var c := Run(SEED, payload);
    RegisterWidth();
    RunConcat(SEED, payload, LsbBits(f, 16));
    WordEqualsItsBits(c, f, 16);
    ResidueOfOnes();
    ShiftsAreInjective(Xor16(c, f), 0xFFFF, 16);
    XorCommutes(c, f);
    XorMoves(f, c, 0xFFFF);
  }

  lemma XorMoves(a: nat, b: nat, c: nat)
    ensures Xor(a, b) == c <==> a == Xor(b, c)
  {
    XorCancels(a, b);
    XorCommutes(b, c);
    XorCancels(c, b);
  }

  /** `Shift` in plain arithmetic: the polynomial flips bits 15, 10 and 3. */
  lemma ShiftInNumbers(c: Register)
    requires Odd(c)
    ensures Shift(c) == FlipBit(FlipBit(c / 2 + 0x8000, 0x400), 0x8)
  {
    PowersOfTaps();
    XorThreeBits(c / 2, 15, 10, 3);
  }

  lemma PowersOfTaps()
    ensures Pow2(15) == 0x8000 && Pow2(10) == 0x400 && Pow2(3) == 0x8
  {
    RegisterWidth();
    assert Pow2(3) == 0x8 && Pow2(7) == 0x80;
  }

  lemma XorThreeBits(h: nat, i: nat, j: nat, k: nat)
    ensures Xor(h, FlipBit(FlipBit(Pow2(i), Pow2(j)), Pow2(k)))
         == FlipBit(FlipBit(FlipBit(h, Pow2(i)), Pow2(j)), Pow2(k))
  {
    var p, q, r := Pow2(i), Pow2(j), Pow2(k);
    XorPow2(p, j);
    XorPow2(Xor(p, q), k);
    XorPow2(h, i);
    XorPow2(Xor(h, p), j);
    XorPow2(Xor(Xor(h, p), q), k);
    XorAssociates(h, Xor(p, q), r);
    XorAssociates(h, p, q);
  }

  function FlipBit(c: nat, p: nat): nat
    requires p > 0
  {
    if Odd(c / p) && c >= p then c - p else c + p
  }

  lemma {:induction false} XorPow2(c: nat, k: nat)
    ensures Xor(c, Pow2(k)) == FlipBit(c, Pow2(k))
  {
    XorParts(c, Pow2(k));
    if k == 0 {
      XorZero(c / 2);
    } else {
      XorPow2(c / 2, k - 1);
      FlipBitDoubles(c, Pow2(k - 1));
    }
  }

  lemma FlipBitDoubles(c: nat, p: nat)
    requires p > 0
    ensures FlipBit(c, 2 * p) == 2 * FlipBit(c / 2, p) + c % 2
  {
    DivideTwice(c, 2, p);
  }

  /** Sixteen shifts of an all-ones register give the residue of RFC 1662. */
  lemma ResidueOfOnes()
    ensures Shifts(0xFFFF, 16) == GOOD_RESIDUE
  {
    var path: seq<Register> := [
      0xFFFF, 0xFBF7, 0xF9F3, 0xF8F1, 0xF870, 0x7C38, 0x3E1C, 0x1F0E, 0x0F87,
      0x83CB, 0xC5ED, 0xE6FE, 0x737F, 0xBDB7, 0xDAD3, 0xE961, 0xF0B8];
    ShiftsAlong(path);
  }

  /** `d` is `c` after one turn of the loop, in plain arithmetic. */
  predicate Follows(c: Register, d: Register) {
    d == if Odd(c) then FlipBit(FlipBit(c / 2 + 0x8000, 0x400), 0x8) else c / 2
  }

  lemma {:induction false} ShiftsAlong(path: seq<Register>)
    requires path != []
    requires forall i :: 0 <= i < |path| - 1 ==> Follows(path[i], path[i + 1])
    ensures Shifts(path[0], |path| - 1) == path[|path| - 1]
  {
    if |path| > 1 {
      if Odd(path[0]) {
        ShiftInNumbers(path[0]);
      }
      ShiftsAlong(path[1..]);
    }
  }

  /** The sender's two check bytes always leave the good-frame residue. */
  lemma GoodFrameLeavesResidue(payload: seq<byte>)
    ensures Accepts(BytesToBits(payload + FcsBytes(payload)))
  {
    var f := Fcs(payload);
    BytesToBitsConcat(payload, FcsBytes(payload));
    FcsBytesAreItsBits(f);
    AcceptsExactlyTheFcs(BytesToBits(payload), f);
  }

  lemma FcsBytesAreItsBits(f: Register)
    ensures BytesToBits([f % 256, f / 256]) == LsbBits(f, 16)
  {
    var pair: seq<byte> := [f % 256, f / 256];
    BytesToBitsAppend([f % 256], f / 256);
    BytesToBitsAppend([], f % 256);
    assert [f % 256] + [f / 256] == pair;
    RegisterWidth();
    LsbBitsSplit(f % 256, f / 256, 8, 8);
  }

  lemma {:induction false} LsbBitsSplit(low: nat, high: nat, k: nat, m: nat)
    requires low < Pow2(k)
    ensures LsbBits(low + Pow2(k) * high, k + m) == LsbBits(low, k) + LsbBits(high, m)
  {
    if k > 0 {
      DoubleProduct(Pow2(k - 1), high);
      LsbBitsSplit(low / 2, high, k - 1, m);
    }
  }

  // ---- Error detection -------------------------------------------------------

  /** A received frame is the sent frame with the bits of an error pattern flipped. */
  function Flip(s: Bits, error: Bits): (t: Bits)
    requires |s| == |error|
    ensures |t| == |s|
    ensures forall i :: 0 <= i < |s| ==> t[i] == (s[i] != error[i])
  {
    if s == [] then [] else [s[0] != error[0]] + Flip(s[1..], error[1..])
  }

  lemma {:induction false} RunIsLinear(a: Register, b: Register, s: Bits, t: Bits)
    requires |s| == |t|
    ensures Run(Xor16(a, b), Flip(s, t)) == Xor16(Run(a, s), Run(b, t))
    decreases s
  {
    if s != [] {
      var x: Register, y: Register := BitValue(s[0]), BitValue(t[0]);
      assert Xor(x, y) == BitValue(s[0] != t[0]);
      XorSwaps(a, b, x, y);
      ShiftIsLinear(Xor16(a, x), Xor16(b, y));
      RunIsLinear(Feed(a, s[0]), Feed(b, t[0]), s[1..], t[1..]);
      assert Flip(s, t)[1..] == Flip(s[1..], t[1..]);
    }
  }

  /** Which error patterns get through depends on the pattern alone: exactly
      those that leave the zero register at zero. */
  lemma UndetectedErrors(frame: Bits, error: Bits)
    requires |frame| == |error|
    ensures Accepts(frame) ==> (Accepts(Flip(frame, error)) <==> Run(0, error) == 0)
  {
    RunIsLinear(SEED, 0, frame, error);
    XorZero(SEED);
    XorMoves(GOOD_RESIDUE, Run(0, error), GOOD_RESIDUE);
    XorMoves(Run(0, error), GOOD_RESIDUE, GOOD_RESIDUE);
    XorCommutes(GOOD_RESIDUE, Run(0, error));
    XorZeroIffEqual(GOOD_RESIDUE, GOOD_RESIDUE);
  }

  /** All bits of `error` outside the 16 positions from `start` are zero. */
  predicate Burst(error: Bits, start: nat) {
    forall i :: 0 <= i < |error| && error[i] ==> start <= i < start + 16
  }

  predicate Quiet(s: Bits) {
    forall i :: 0 <= i < |s| ==> !s[i]
  }

  /** For frames of any length: every error confined to 16 consecutive bits is
      rejected. */
  lemma BurstsAreDetected(frame: Bits, error: Bits, start: nat)
    requires |frame| == |error| && Burst(error, start) && !Quiet(error)
    ensures Accepts(frame) ==> !Accepts(Flip(frame, error))
  {
    var before, window, after := SplitBurst(error, start);
    BurstAmongZeros(before, window, after);
    UndetectedErrors(frame, error);
  }

  lemma SplitBurst(error: Bits, start: nat) returns (before: Bits, window: Bits, after: Bits)
    requires Burst(error, start) && !Quiet(error)
    ensures error == before + (window + after)
    ensures Quiet(before) && Quiet(after) && |window| <= 16 && !Quiet(window)
  {
    var i :| 0 <= i < |error| && error[i];
    var end := if start + 16 <= |error| then start + 16 else |error|;
    before, window, after := error[..start], error[start..end], error[end..];
    assert window[i - start];
  }

  lemma BurstAmongZeros(before: Bits, window: Bits, after: Bits)
    requires Quiet(before) && Quiet(after) && |window| <= 16 && !Quiet(window)
    ensures Run(0, before + (window + after)) != 0
  {
    RunConcat(0, before, window + after);
    RunConcat(0, window, after);
    QuietRun(0, before);
    BurstLeavesTrace(window);
    QuietRun(Run(0, window), after);
  }

  lemma {:induction false} QuietRun(c: Register, zeros: Bits)
    requires Quiet(zeros)
    ensures Run(c, zeros) == 0 <==> c == 0
    decreases zeros
  {
    if zeros != [] {
      XorZero(c);
      ShiftKernel(c);
      QuietRun(Feed(c, zeros[0]), zeros[1..]);
    }
  }

  lemma BurstLeavesTrace(window: Bits)
    requires |window| <= 16 && !Quiet(window)
    ensures Run(0, window) != 0
  {
    var v := LsbValue(window);
    RegisterWidth();
    Pow2Grows(|window|, 16);
    SomeBitSet(window);
    LsbBitsOfValue(window);
    WordEqualsItsBits(0, v, |window|);
    XorZero(v);
    ShiftsOfZero(|window|);
    ShiftsAreInjective(v, 0, |window|);
  }

  lemma {:induction false} ShiftsOfZero(k: nat)
    ensures Shifts(0, k) == 0
  {
    if k > 0 {
      ShiftsOfZero(k - 1);
    }
  }

  lemma {:induction false} SomeBitSet(s: Bits)
    requires !Quiet(s)
    ensures LsbValue(s) > 0
  {
    if !s[0] {
      var i :| 0 <= i < |s| && s[i];
      assert s[1..][i - 1];
      SomeBitSet(s[1..]);
    }
  }

  lemma {:induction false} Pow2Grows(k: nat, m: nat)
    requires k <= m
    ensures Pow2(k) <= Pow2(m)
  {
    if k < m {
      Pow2Grows(k, m - 1);
    }
  }
}

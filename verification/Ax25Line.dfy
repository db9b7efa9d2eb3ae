/** The line coder of `mav_gss_lib/platform/framing/ax25.py`: G3RUH scrambler, NRZI
    encoder and bit packing in one loop, against three separate passes; and the
    receiver's passes that undo them. */
module Ax25Line {
  import opened Bitwise
  import opened Ax25Hdlc

  const G3RUH_MASK: nat := 0x21
  const G3RUH_SEED: nat := 0

  /** The scrambler register as its 17 bits, oldest (bit 0) first. */
  type ShiftRegister = r: Bits | |r| == 17 witness LsbBits(0, 17)

  const QUIET: ShiftRegister := LsbBits(G3RUH_SEED, 17)

  // ---- The three passes ------------------------------------------------------

  function Push(reg: ShiftRegister, b: bool): ShiftRegister {
    reg[1..] + [b]
  }

  /** The bit fed back: input plus the taps 17 and 12 bits ago. */
  function NewBit(reg: ShiftRegister, b: bool): bool {
    (reg[0] != reg[5]) != b
  }

  /** What the scrambler sends: the bit leaving the register at each step. */
  function Scramble(reg: ShiftRegister, bits: Bits): (out: Bits)
    ensures |out| == |bits|
    decreases bits
  {
    if bits == [] then []
    else [reg[0]] + Scramble(Push(reg, NewBit(reg, bits[0])), bits[1..])
  }

  /** NRZI: a zero toggles the level, a one holds it. */
  function Nrzi(level: bool, bits: Bits): (out: Bits)
    ensures |out| == |bits|
    decreases bits
  {
    if bits == [] then []
    else
      var next := if bits[0] then level else !level;
      [next] + Nrzi(next, bits[1..])
  }

  /** Eight bits a byte, most significant first; up to seven trailing bits are dropped. */
  function Pack(bits: Bits): (data: seq<byte>)
    ensures |data| == |bits| / 8
  {
    if |bits| < 8 then [] else
      assert Pow2(8) == 256;
      [MsbValue(bits[..8]) as byte] + Pack(bits[8..])
  }

  /** The over-the-air frame: the three passes one after the other. */
  function Frame(packet: seq<byte>): seq<byte> {
    Pack(Nrzi(false, Scramble(QUIET, HdlcBits(packet))))
  }

  // ---- The program's fused loop ----------------------------------------------

  method BuildAx25GfskFrame(packet: seq<byte>) returns (out: seq<byte>)
    ensures out == Frame(packet)
  {
    var bits := HdlcFrame(packet);
    out := FusedLoop(bits);
  }

  method FusedLoop(bits: Bits) returns (out: seq<byte>)
    ensures out == Pack(Nrzi(false, Scramble(QUIET, bits)))
  {
    hide Pack, Nrzi, Scramble, LsbValue, MsbValue, Push, Sending;
    // The line so far is `whole + part`: `out` packs `whole`, the accumulator `part`.
    ghost var line := Nrzi(false, Scramble(QUIET, bits));
    ghost var r, whole: Bits, part: Bits := QUIET, [], [];
    LsbValueOfSeed();
    var reg, nrziState := G3RUH_SEED, false;
    out := [];
    var byteAcc: nat, bitCount := 0, 0;
    SendStart(bits, whole + part);
    NothingPacked();
    for i := 0 to |bits|
      invariant reg == LsbValue(r)
      invariant Sending(line, bits, whole + part, nrziState, r, i)
      invariant |whole| % 8 == 0 && out == Pack(whole)
      invariant |part| == bitCount < 8 && byteAcc == MsbValue(part)
    {
      SendStep(line, bits, whole + part, nrziState, r, i);
      var output;
      output, reg := ScramblerStep(reg, bits[i], r);
      r := Push(r, NewBit(r, bits[i]));
      if !output {
        nrziState := !nrziState;
      }
      out, byteAcc, bitCount, whole, part := PackStep(out, byteAcc, bitCount, nrziState, whole, part);
    }
    SendEnd(line, bits, whole + part, nrziState, r);
    PackDropsTail(whole, part);
  }

  /** After `i` bits: `sent` is the line so far, the rest follows from the state. */
  ghost predicate Sending(line: Bits, bits: Bits, sent: Bits, level: bool, r: ShiftRegister, i: nat) {
    && i <= |bits|
    && sent + Nrzi(level, Scramble(r, bits[i..])) == line
  }

  lemma SendStart(bits: Bits, sent: Bits)
    requires sent == []
    ensures Sending(Nrzi(false, Scramble(QUIET, bits)), bits, sent, false, QUIET, 0)
  {
    hide Nrzi, Scramble;
    assert bits[0..] == bits;
    assert sent + Nrzi(false, Scramble(QUIET, bits)) == Nrzi(false, Scramble(QUIET, bits));
  }

  lemma NothingPacked()
    ensures Pack([]) == [] && MsbValue([]) == 0
  {
  }

  lemma SendEnd(line: Bits, bits: Bits, sent: Bits, level: bool, r: ShiftRegister)
    requires Sending(line, bits, sent, level, r, |bits|)
    ensures sent == line
  {
    assert bits[|bits|..] == [];
    assert sent + [] == sent;
  }

  lemma SendStep(line: Bits, bits: Bits, sent: Bits, level: bool, r: ShiftRegister, i: nat)
    requires Sending(line, bits, sent, level, r, i) && i < |bits|
    ensures var next := if r[0] then level else !level;
            Sending(line, bits, sent + [next], next, Push(r, NewBit(r, bits[i])), i + 1)
  {
    assert bits[i..][1..] == bits[i + 1..];
    var next := if r[0] then level else !level;
    var rest := Nrzi(next, Scramble(Push(r, NewBit(r, bits[i])), bits[i + 1..]));
    assert Scramble(r, bits[i..])[1..] == Scramble(Push(r, NewBit(r, bits[i])), bits[i + 1..]);
    assert sent + ([next] + rest) == sent + [next] + rest;
  }

  method PackStep(out: seq<byte>, acc: nat, count: nat, b: bool, ghost whole: Bits, ghost part: Bits)
    returns (out': seq<byte>, acc': nat, count': nat, ghost whole': Bits, ghost part': Bits)
    requires |whole| % 8 == 0 && out == Pack(whole)
    requires |part| == count < 8 && acc == MsbValue(part)
    ensures whole' + part' == whole + part + [b]
    ensures |whole'| % 8 == 0 && out' == Pack(whole')
    ensures |part'| == count' < 8 && acc' == MsbValue(part')
  {
    whole' := whole;
    part' := AppendMsb(part, b);
    assert whole + part' == whole + part + [b];
    out', acc', count' := out, Or(2 * acc, BitValue(b)), count + 1;
    if count' == 8 {
      PackOneByte(whole, part');
      whole', part' := whole + part', [];
      out', acc', count' := out + [acc'], 0, 0;
    }
  }

  lemma PackOneByte(whole: Bits, part: Bits)
    requires |whole| % 8 == 0 && |part| == 8
    ensures MsbValue(part) < 256
    ensures Pack(whole + part) == Pack(whole) + [MsbValue(part)]
  {
    assert Pow2(8) == 256;
    PackConcat(whole, part);
    assert part[..8] == part;
  }

  lemma LsbValueOfSeed()
    ensures LsbValue(QUIET) == G3RUH_SEED
  {
    LsbValueOfBits(0, 17);
  }

  /** One step of the integer register is one step of the bit register. */
  method ScramblerStep(reg: nat, b: bool, ghost r: ShiftRegister) returns (output: bool, next: nat)
    requires reg == LsbValue(r)
    ensures output == r[0] && next == LsbValue(Push(r, NewBit(r, b)))
  {
    hide And, Or, BitCount, TestBit;
    output := Odd(reg);
    var newbit := (BitCount(And(reg, G3RUH_MASK)) + BitValue(b)) % 2;
    next := Or(reg / 2, newbit * 0x10000);
    TestBitOfValue(r, 0);
    TestBitOfValue(r, 5);
    TapParity(LsbValue(r));
    assert LsbValue(r) / 2 == LsbValue(r[1..]);
    ShiftIn(r[1..], NewBit(r, b));
  }

  lemma ShiftIn(s: Bits, b: bool)
    requires |s| == 16
    ensures Or(LsbValue(s), BitValue(b) * 0x10000) == LsbValue(s + [b])
  {
    assert Pow2(8) == 0x100;
    assert Pow2(16) == 0x10000;
    ShiftLeftIsProduct(BitValue(b), 16);
    OrAppends(s, [b]);
  }

  /** The mask 0x21 picks bits 0 and 5. */
  lemma TapParity(v: nat)
    ensures BitCount(And(v, G3RUH_MASK)) == BitValue(TestBit(v, 0)) + BitValue(TestBit(v, 5))
  {
    MaskedBits(v, G3RUH_MASK);
    assert BitCount(32) == 1 && BitCount(33) == 2 && BitCount(1) == 1 && BitCount(0) == 0;
  }

  lemma MaskedBits(v: nat, mask: nat)
    requires mask == 0x21
    ensures And(v, mask) == BitValue(Odd(v)) + 32 * BitValue(TestBit(v, 5))
  {
    assert Pow2(4) == 16 == mask / 2;
    AndPow2(v / 2, 4);
  }

  lemma {:induction false} PackConcat(s: Bits, t: Bits)
    requires |s| % 8 == 0
    ensures Pack(s + t) == Pack(s) + Pack(t)
  {
    if s == [] {
      assert s + t == t;
    } else {
      PackConcat(s[8..], t);
      PackFirst(s[..8], s[8..] + t);
      PackFirst(s[..8], s[8..]);
      assert s[..8] + (s[8..] + t) == s + t;
      assert s[..8] + s[8..] == s;
    }
  }

  lemma PackFirst(b: Bits, rest: Bits)
    requires |b| == 8
    ensures MsbValue(b) < 256 && Pack(b + rest) == [MsbValue(b)] + Pack(rest)
  {
    assert Pow2(8) == 256;
    assert (b + rest)[..8] == b && (b + rest)[8..] == rest;
  }

  lemma PackDropsTail(whole: Bits, part: Bits)
    requires |whole| % 8 == 0 && |part| < 8
    ensures Pack(whole + part) == Pack(whole)
  {
    PackConcat(whole, part);
  }
}

/** ASM+Golay framing: `mav_gss_lib/platform/framing/asm_golay.py`, with the receiver
    that inverts it, whatever 32 parity bytes the Reed-Solomon encoder gives. */
module AsmGolays {
  import opened Options
  import opened Bitwise
  import opened ByteOrders

  datatype Result<T> = Ok(value: T) | Unavailable | TooLong

  const RS_PARITY: nat := 32
  const MAX_PAYLOAD: nat := 223
  const PREAMBLE: seq<byte> := Repeated(0xAA, 50)
  const ASM: seq<byte> := [0x93, 0x0B, 0x51, 0xDE]

  /** `bytes([b]) * n` */
  function Repeated(b: byte, n: nat): (s: seq<byte>)
    ensures |s| == n
  {
    seq(n, i => b)
  }

  // ---- The scrambler sequence ----------------------------------------------------

  /** Its recurrence: s[n+8] = s[n] xor s[n+3] xor s[n+5] xor s[n+7], eight ones first. */
  function Pn(n: nat): bool {
    if n < 8 then true else (Pn(n - 8) != Pn(n - 5)) != (Pn(n - 3) != Pn(n - 1))
  }

  function PnBits(n: nat, count: nat): (s: Bits)
    ensures |s| == count
    ensures forall i :: 0 <= i < count ==> s[i] == Pn(n + i)
  {
    if count == 0 then [] else PnBits(n, count - 1) + [Pn(n + count - 1)]
  }

  function PnByte(k: nat): byte {
    assert Pow2(8) == 256;
    MsbValue(PnBits(8 * k, 8))
  }

  function PnBytes(length: nat): (s: seq<byte>)
    ensures |s| == length
  {
    seq(length, k requires k >= 0 => PnByte(k))
  }

  /** Output byte `k` when `j` of its bits are in place. */
  function Partial(k: nat, j: nat): (v: nat)
    requires j <= 8
  {
    ShiftLeft(MsbValue(PnBits(8 * k, j)), 8 - j)
  }

  /** The register loop. Cell `x[0]` is scratch; the other eight hold the next bits. */
  method CcsdsScramblerSequence(length: nat) returns (sequence: seq<byte>)
    ensures sequence == PnBytes(length)
  {
    hide Pn, PnByte, Or, ShiftLeft, MsbValue, PnBits, Partial;
    var x := new bool[9](_ => true);
    var out := new byte[length](_ => 0);
    PnStart();
    PartialStart(0);
    for i := 0 to length * 8
      invariant forall j :: 1 <= j <= 8 ==> x[j] == Pn(i + j - 1)
      invariant forall k :: 0 <= k < i / 8 ==> out[k] == PnByte(k)
      invariant i / 8 < length ==> out[i / 8] == Partial(i / 8, i % 8)
      invariant forall k :: i / 8 < k < length ==> out[k] == 0
    {
      var k, j := i / 8, i % 8;
      PartialStep(k, j);
      out[k] := Or(out[k], ShiftLeft(BitValue(x[1]), 7 - j));
      Clock(x, i);
      PartialStart(k + 1);
      NextPlace(i, k, j);
    }
    sequence := out[..];
  }

  method Clock(x: array<bool>, ghost n: nat)
    requires x.Length == 9 && forall j :: 1 <= j <= 8 ==> x[j] == Pn(n + j - 1)
    modifies x
    ensures forall j :: 1 <= j <= 8 ==> x[j] == Pn(n + 1 + j - 1)
  {
    hide Pn;
    PnRecurs(n);
    x[0] := (x[8] != x[6]) != (x[4] != x[1]);
    x[1], x[2], x[3], x[4] := x[2], x[3], x[4], x[5];
    x[5], x[6], x[7], x[8] := x[6], x[7], x[8], x[0];
  }

  lemma PnStart()
    ensures forall j :: 0 <= j < 8 ==> Pn(j)
  {
  }

  lemma PnRecurs(n: nat)
    ensures Pn(n + 8) == ((Pn(n + 7) != Pn(n + 5)) != (Pn(n + 3) != Pn(n)))
  {
  }

  lemma NextPlace(i: nat, k: nat, j: nat)
    requires k == i / 8 && j == i % 8
    ensures if j < 7 then (i + 1) / 8 == k && (i + 1) % 8 == j + 1 else (i + 1) / 8 == k + 1 && (i + 1) % 8 == 0
  {
  }

  lemma {:induction false} ShiftedZero(k: nat)
    ensures ShiftLeft(0, k) == 0
  {
    if k > 0 {
      ShiftedZero(k - 1);
    }
  }

  lemma PartialStart(k: nat)
    ensures Partial(k, 0) == 0
  {
    ShiftedZero(8);
  }

  lemma {:induction false} OrNext(a: nat, b: bool, k: nat)
    ensures Or(ShiftLeft(a, k + 1), ShiftLeft(BitValue(b), k)) == ShiftLeft(2 * a + BitValue(b), k)
  {
    if k == 0 {
      OrOfDisjoint(a, BitValue(b), 1);
    } else {
      OrNext(a, b, k - 1);
    }
  }

  lemma PartialStep(k: nat, j: nat)
    requires j < 8
    ensures Or(Partial(k, j), ShiftLeft(BitValue(Pn(8 * k + j)), 7 - j)) == Partial(k, j + 1) < 256
    ensures j == 7 ==> Partial(k, j + 1) == PnByte(k)
  {
    hide Pn, Or, ShiftLeft;
    OrNext(MsbValue(PnBits(8 * k, j)), Pn(8 * k + j), 7 - j);
    PnBitsStep(8 * k, j);
    PartialBound(MsbValue(PnBits(8 * k, j + 1)), j + 1);
    ShiftNone(MsbValue(PnBits(8 * k, 8)));
  }

  lemma PnBitsStep(n: nat, j: nat)
    ensures MsbValue(PnBits(n, j + 1)) == 2 * MsbValue(PnBits(n, j)) + BitValue(Pn(n + j))
  {
    hide Pn;
    assert PnBits(n, j + 1)[..j] == PnBits(n, j);
  }

  lemma PartialBound(v: nat, j: nat)
    requires j <= 8 && v < Pow2(j)
    ensures ShiftLeft(v, 8 - j) < 256
  {
    assert Pow2(8) == 256;
    ShiftBound(v, j, 8 - j);
  }

  lemma {:induction false} ShiftBound(v: nat, j: nat, k: nat)
    requires v < Pow2(j)
    ensures ShiftLeft(v, k) < Pow2(j + k)
  {
    if k > 0 {
      ShiftBound(v, j, k - 1);
    }
  }

  /** A shorter sequence is a prefix of a longer one. */
  lemma PrefixIndependent(length: nat, longer: nat)
    requires length <= longer
    ensures PnBytes(longer)[..length] == PnBytes(length)
  {
    hide PnByte;
  }

  // ---- Golay(24,12) ----------------------------------------------------------------

  const GOLAY_H: seq<nat> := [
    0x8008ed, 0x4001db, 0x2003b5, 0x100769, 0x80ed1, 0x40da3,
    0x20b47, 0x1068f, 0x8d1d, 0x4a3b, 0x2477, 0x1ffe
  ]

  /** The parity bit row `i` contributes. */
  function ParityBit(r: nat, i: nat): bool
    requires i < 12
  {
    Odd(BitCount(And(GOLAY_H[i], r)))
  }

  function ParityBits(r: nat, n: nat): (s: Bits)
    requires n <= 12
    ensures |s| == n
    ensures forall i :: 0 <= i < n ==> s[i] == ParityBit(r, i)
  {
    if n == 0 then [] else ParityBits(r, n - 1) + [ParityBit(r, n - 1)]
  }

  function Codeword(r: nat): (c: nat)
    requires r < 4096
  {
    ShiftLeft(MsbValue(ParityBits(r, 12)), 12) + r
  }

  method GolayEncode(value: nat) returns (word: seq<byte>)
    ensures word == BigDigits(Codeword(value % 4096), 3)
  {
    hide ParityBit, MsbValue, Or, ShiftLeft, Codeword, ParityBits, BitCount;
    var r := And(value, 0xFFF);
    TwelveBits();
    MaskIsModulo(value, 12);
    var s := 0;
    NoParityBits(r);
    for i := 0 to 12
      invariant s == MsbValue(ParityBits(r, i))
    {
      ghost var longer := AppendMsb(ParityBits(r, i), ParityBit(r, i));
      MoreParityBits(r, i);
      ParityBitIs(r, i);
      s := Or(2 * s, BitCount(And(GOLAY_H[i], r)) % 2);
    }
    MaskIsModulo(s, 12);
    CodewordIs(r, s);
    OrOfDisjoint(s, r, 12);
    var codeword := Or(ShiftLeft(And(s, 0xFFF), 12), r);
    word := BigDigits(codeword, 3);
  }

  lemma TwelveBits()
    ensures Pow2(12) == 4096
  {
    assert Pow2(8) == 256;
  }

  lemma NoParityBits(r: nat)
    ensures MsbValue(ParityBits(r, 0)) == 0
  {
  }

  lemma MoreParityBits(r: nat, i: nat)
    requires i < 12
    ensures ParityBits(r, i + 1) == ParityBits(r, i) + [ParityBit(r, i)]
  {
  }

  lemma ParityBitIs(r: nat, i: nat)
    requires i < 12
    ensures BitValue(ParityBit(r, i)) == BitCount(And(GOLAY_H[i], r)) % 2
  {
  }

  lemma CodewordIs(r: nat, s: nat)
    requires r < 4096 && s == MsbValue(ParityBits(r, 12))
    ensures Codeword(r) == ShiftLeft(s, 12) + r && s % 4096 == s
  {
    TwelveBits();
  }

  /** A square modulo 11. */
  predicate Square(n: nat) {
    n % 11 == 0 || n % 11 == 1 || n % 11 == 3 || n % 11 == 4 || n % 11 == 5 || n % 11 == 9
  }

  /** Row `i` of the extended quadratic residue code, from bit `n` on: every row but the
      last has bit 0, and bit `n` where `n - 2 - i` is a square; the last has all others. */
  function QuadraticRow(i: nat, n: nat): nat
    requires i < 12 && n < 12
    decreases 12 - n
  {
    (if (n == 0 && i < 11) || (n > 0 && (i == 11 || Square(n + 20 - i))) then 1 else 0)
    + if n < 11 then 2 * QuadraticRow(i, n + 1) else 0
  }

  /** The check matrix, independently of its table: the low half of a row is that of the
      extended quadratic residue code, the high half one bit of the identity. */
  lemma MatrixIsQuadratic(i: nat)
    requires i < 12
    ensures GOLAY_H[i] == 4096 * Pow2(11 - i) + QuadraticRow(i, 0)
  {
    Row0(); Row1(); Row2(); Row3(); Row4(); Row5();
    Row6(); Row7(); Row8(); Row9(); Row10(); Row11();
    Powers();
    hide QuadraticRow, Pow2;
  }

  lemma Row0()
    ensures QuadraticRow(0, 0) == 0x8ed
  {
  }

  lemma Row1()
    ensures QuadraticRow(1, 0) == 0x1db
  {
  }

  lemma Row2()
    ensures QuadraticRow(2, 0) == 0x3b5
  {
  }

  lemma Row3()
    ensures QuadraticRow(3, 0) == 0x769
  {
  }

  lemma Row4()
    ensures QuadraticRow(4, 0) == 0xed1
  {
  }

  lemma Row5()
    ensures QuadraticRow(5, 0) == 0xda3
  {
  }

  lemma Row6()
    ensures QuadraticRow(6, 0) == 0xb47
  {
  }

  lemma Row7()
    ensures QuadraticRow(7, 0) == 0x68f
  {
  }

  lemma Row8()
    ensures QuadraticRow(8, 0) == 0xd1d
  {
  }

  lemma Row9()
    ensures QuadraticRow(9, 0) == 0xa3b
  {
  }

  lemma Row10()
    ensures QuadraticRow(10, 0) == 0x477
  {
  }

  lemma Row11()
    ensures QuadraticRow(11, 0) == 0xffe
  {
  }

  /** The parity checks of the code, on all 24 bits. */
  predicate IsCodeword(c: nat) {
    c < 0x1000000 && forall i :: 0 <= i < 12 ==> !Check(c, i)
  }

  predicate Check(c: nat, i: nat)
    requires i < 12
  {
    Odd(BitCount(And(GOLAY_H[i], c)))
  }

  /** The upper half of each row is one bit. */
  lemma RowShape(i: nat, k: nat)
    requires i < 12 && k == 11 - i
    ensures GOLAY_H[i] == ShiftLeft(Pow2(k), 12) + GOLAY_H[i] % 4096
  {
    RowHead(i, k);
    hide *;
    Halves(GOLAY_H[i], Pow2(k));
  }

  lemma Halves(row: nat, head: nat)
    requires row / 4096 == head
    ensures row == ShiftLeft(head, 12) + row % 4096
  {
    ShiftLeftIsProduct(head, 12);
    TwelveBits();
  }

  lemma RowHead(i: nat, k: nat)
    requires i < 12 && k == 11 - i
    ensures GOLAY_H[i] / 4096 == Pow2(k)
  {
    Powers();
  }

  lemma Powers()
    ensures Pow2(0) == 1 && Pow2(1) == 2 && Pow2(2) == 4 && Pow2(3) == 8 && Pow2(4) == 16 && Pow2(5) == 32
    ensures Pow2(6) == 64 && Pow2(7) == 128 && Pow2(8) == 256 && Pow2(9) == 512 && Pow2(10) == 1024 && Pow2(11) == 2048
  {
  }

  lemma {:induction false} BitCountPow2(k: nat, b: bool)
    ensures BitCount(Pow2(k) * BitValue(b)) == BitValue(b)
  {
    if k > 0 {
      BitCountPow2(k - 1, b);
      assert Pow2(k) * BitValue(b) == 2 * (Pow2(k - 1) * BitValue(b));
    }
  }

  /** A check of `p` above `r` compares bit `11 - i` of `p` with the parity of `r`. */
  lemma CheckSplits(p: nat, r: nat, i: nat, k: nat)
    requires r < 4096 && i < 12 && k == 11 - i
    ensures Check(ShiftLeft(p, 12) + r, i) == (TestBit(p, k) != ParityBit(r, i))
  {
    hide And, BitCount, ShiftLeft, TestBit, Pow2;
    RowShape(i, k);
    var row := GOLAY_H[i];
    var low := row % 4096;
    RowCount(row, k, low, p, r);
    RowCount(row, k, low, 0, r);
    ShiftedZero(12);
    ZeroTests(k);
  }

  lemma {:induction false} ZeroTests(k: nat)
    ensures !TestBit(0, k)
  {
    if k > 0 {
      ZeroTests(k - 1);
    }
  }

  lemma RowCount(row: nat, k: nat, low: nat, p: nat, r: nat)
    requires low < 4096 && r < 4096 && row == ShiftLeft(Pow2(k), 12) + low
    ensures BitCount(And(row, ShiftLeft(p, 12) + r)) == BitValue(TestBit(p, k)) + BitCount(And(low, r))
  {
    hide And, BitCount, ShiftLeft, TestBit;
    TwelveBits();
    AndSplits(Pow2(k), p, low, r, 12);
    AndBound(low, r, 12);
    BitCountSplits(And(Pow2(k), p), And(low, r), 12);
    AndCommutes(Pow2(k), p);
    AndPow2(p, k);
    BitCountPow2(k, TestBit(p, k));
  }

  /** Encoding gives the one codeword whose data half is the value. */
  lemma CodewordsAreEncodings(c: nat)
    ensures IsCodeword(c) <==> c == Codeword(c % 4096)
  {
    hide ParityBit, Check, MsbValue, ShiftLeft, TestBit, ParityBits;
    var p, r := c / 4096, c % 4096;
    TwelveBits();
    ShiftLeftIsProduct(p, 12);
    forall i | 0 <= i < 12 ensures Check(c, i) == (TestBit(p, 11 - i) != ParityBit(r, i)) {
      CheckSplits(p, r, i, 11 - i);
    }
    if p < 4096 {
      HalfMatches(p, r);
    }
    CodewordIs(r, MsbValue(ParityBits(r, 12)));
    ShiftLeftIsProduct(MsbValue(ParityBits(r, 12)), 12);
  }

  lemma HalfMatches(p: nat, r: nat)
    requires p < 4096 && r < 4096
    ensures (forall i :: 0 <= i < 12 ==> TestBit(p, 11 - i) == ParityBit(r, i)) <==> p == MsbValue(ParityBits(r, 12))
  {
    hide ParityBit, MsbValue, TestBit;
    var s := ParityBits(r, 12);
    TwelveBits();
    MsbValueOfBits(p, 12);
    forall i | 0 <= i < 12 ensures TestBit(p, 11 - i) == MsbBits(p, 12)[i] {
      MsbBitsTest(p, 12, 11 - i);
    }
    forall i | 0 <= i < 12 ensures TestBit(MsbValue(s), 11 - i) == s[i] {
      TestBitOfMsb(s, 11 - i);
    }
    if forall i :: 0 <= i < 12 ==> TestBit(p, 11 - i) == ParityBit(r, i) {
      assert MsbBits(p, 12) == s;
    }
  }

  // ---- The frame ---------------------------------------------------------------------

  function Assemble(word: seq<byte>, field: seq<byte>): (frame: seq<byte>)
    ensures |frame| == 54 + |word| + |field|
  {
    PREAMBLE + ASM + word + field
  }

  /** The data field of a coded packet, before padding. */
  function Scrambled(coded: seq<byte>): (data: seq<byte>)
    ensures |data| == |coded|
  {
    XorBytes(coded, PnBytes(|coded|))
  }

  function FrameOf(coded: seq<byte>): (frame: seq<byte>)
    requires |coded| <= 255
    ensures |frame| == 312
  {
    Assemble(BigDigits(Codeword(|coded|), 3), Scrambled(coded) + Repeated(0, 255 - |coded|))
  }

  function Frame(parity: seq<byte>, payload: seq<byte>): (frame: seq<byte>)
    requires |parity| == RS_PARITY && |payload| <= MAX_PAYLOAD
    ensures |frame| == 312
  {
    FrameOf(payload + parity)
  }

  /** `parity` is what the Reed-Solomon encoder returns for the packet. */
  method BuildAsmGolayFrame(rsAvailable: bool, parity: seq<byte>, packet: seq<byte>) returns (r: Result<seq<byte>>)
    requires |parity| == RS_PARITY
    ensures r == if !rsAvailable then Unavailable else if |packet| > MAX_PAYLOAD then TooLong
                 else Ok(Frame(parity, packet))
  {
    hide *;
    if !rsAvailable {
      return Unavailable;
    }
    if |packet| > MAX_PAYLOAD {
      return TooLong;
    }
    var coded := packet + parity;
    FrameIs(parity, packet, coded);
    var frameLength := |coded|;
    var scrambled := Scramble(coded);
    var golayField := GolayHeader(frameLength);
    var dataField := scrambled + Repeated(0, 255 - frameLength);
    r := Ok(Assemble(golayField, dataField));
  }

  lemma FrameIs(parity: seq<byte>, packet: seq<byte>, coded: seq<byte>)
    requires |parity| == RS_PARITY && |packet| <= MAX_PAYLOAD && coded == packet + parity
    ensures |coded| == |packet| + RS_PARITY
    ensures Frame(parity, packet)
            == Assemble(BigDigits(Codeword(|coded|), 3), Scrambled(coded) + Repeated(0, 255 - |coded|))
  {
  }

  method Scramble(coded: seq<byte>) returns (scrambled: seq<byte>)
    requires |coded| <= 255
    ensures scrambled == Scrambled(coded)
  {
    hide XorBytes, PnBytes, BigDigits, BigEndian;
    var pnMax := CcsdsScramblerSequence(255);
    PrefixIndependent(|coded|, 255);
    var pn := pnMax[..|coded|];
    scrambled := BigDigits(Xor(BigEndian(coded), BigEndian(pn)), |coded|);
    XorOfNumbers(coded, pn);
    BigDigitsOfValue(XorBytes(coded, pn));
  }

  method GolayHeader(frameLength: nat) returns (word: seq<byte>)
    requires frameLength <= 255
    ensures word == BigDigits(Codeword(frameLength), 3)
  {
    hide *;
    Powers();
    LowBits(frameLength, 0xFF, 8);
    word := GolayEncode(And(frameLength, 0xFF));
  }

  lemma LowBits(v: nat, mask: nat, k: nat)
    requires v < Pow2(k) == mask + 1
    ensures And(v, mask) == v
  {
    hide And, Pow2;
    MaskIsModulo(v, k);
  }

  // ---- The receiver --------------------------------------------------------------------

  /** The low eight bits of the Golay word. */
  function ReadLength(word: seq<byte>): nat {
    BigEndian(word) % 256
  }

  function Receive(frame: seq<byte>): Option<seq<byte>> {
    if |frame| != 312 || frame[50..54] != ASM || !IsCodeword(BigEndian(frame[54..57])) then None
    else
      var n := ReadLength(frame[54..57]);
      if n < RS_PARITY then None
      else Some(XorBytes(frame[57..57 + n], PnBytes(n))[..n - RS_PARITY])
  }

  lemma LengthIsRead(n: nat)
    requires n < 256
    ensures BigEndian(BigDigits(Codeword(n), 3)) == Codeword(n) && Codeword(n) < 0x1000000
    ensures Codeword(n) % 4096 == n && Codeword(n) % 256 == n
  {
    hide *;
    var p := MsbValue(ParityBits(n, 12));
    TwelveBits();
    CodewordIs(n, p);
    ShiftLeftIsProduct(p, 12);
    WordParts(Codeword(n), p, n);
    ThreeBytes();
    ValueOfBigDigits(Codeword(n), 3);
  }

  lemma WordParts(word: nat, p: nat, n: nat)
    requires word == p * 4096 + n && p < 4096 && n < 256
    ensures word % 4096 == n && word % 256 == n && word < 0x1000000
  {
  }

  lemma ThreeBytes()
    ensures Pow256(3) == 0x1000000
  {
  }

  lemma Fields(word: seq<byte>, data: seq<byte>, tail: seq<byte>)
    requires |word| == 3
    ensures var frame := Assemble(word, data + tail);
            && frame[..50] == PREAMBLE && frame[50..54] == ASM && frame[54..57] == word
            && frame[57..57 + |data|] == data
  {
  }

  /** Every payload up to 223 bytes comes back from its frame of 312 bytes. */
  lemma FrameDelivers(parity: seq<byte>, payload: seq<byte>)
    requires |parity| == RS_PARITY && |payload| <= MAX_PAYLOAD
    ensures |Frame(parity, payload)| == 312 && Frame(parity, payload)[..50] == PREAMBLE
    ensures Receive(Frame(parity, payload)) == Some(payload)
  {
    hide Codeword, XorBytes, BigDigits, PnBytes, IsCodeword, Frame, Assemble, ReadLength, BigEndian;
    var coded := payload + parity;
    var n := |coded|;
    FrameIs(parity, payload, coded);
    Fields(BigDigits(Codeword(n), 3), Scrambled(coded), Repeated(0, 255 - n));
    LengthIsRead(n);
    ReadsLow(BigDigits(Codeword(n), 3));
    CodewordsAreEncodings(Codeword(n));
    XorBytesTwice(coded, PnBytes(n));
  }

  lemma ReadsLow(word: seq<byte>)
    ensures ReadLength(word) == BigEndian(word) % 256
  {
  }
}

/** Python's operators on non-negative integers (`^`, `&`, `|`, `bit_count`),
    the bit sequences of an integer, and the facts about them that the framing
    modules share. A bit is a `bool`; a byte is an integer below 256. */
module Bitwise {

  type byte = x: int | 0 <= x < 256

  type Bits = seq<bool>

  function BitValue(b: bool): (n: nat) {
    if b then 1 else 0
  }

  function Odd(n: nat): bool {
    n % 2 == 1
  }

  function Pow2(k: nat): (p: nat)
    ensures p > 0
  {
    if k == 0 then 1 else 2 * Pow2(k - 1)
  }

  function Pow256(n: nat): (p: nat)
    ensures p > 0
    ensures n > 0 ==> p % 2 == 0
  {
    if n == 0 then 1 else 256 * Pow256(n - 1)
  }

  // ---- Operators -----------------------------------------------------------

  /** `a ^ b` */
  function Xor(a: nat, b: nat): nat
    decreases a + b
  {
    if a == 0 && b == 0 then 0
    else 2 * Xor(a / 2, b / 2) + BitValue(Odd(a) != Odd(b))
  }

  /** `a & b` */
  function And(a: nat, b: nat): nat {
    if a == 0 then 0
    else 2 * And(a / 2, b / 2) + BitValue(Odd(a) && Odd(b))
  }

  /** `a | b` */
  function Or(a: nat, b: nat): nat
    decreases a + b
  {
    if a == 0 && b == 0 then 0
    else 2 * Or(a / 2, b / 2) + BitValue(Odd(a) || Odd(b))
  }

  /** `a.bit_count()` */
  function BitCount(a: nat): nat {
    if a == 0 then 0 else a % 2 + BitCount(a / 2)
  }

  /** `a << k` */
  function ShiftLeft(a: nat, k: nat): nat {
    if k == 0 then a else 2 * ShiftLeft(a, k - 1)
  }

  /** `a >> k` */
  function ShiftRight(a: nat, k: nat): nat {
    if k == 0 then a else ShiftRight(a / 2, k - 1)
  }

  /** The two facts every other fact about `^` is built from. */
  lemma XorParts(a: nat, b: nat)
    ensures Xor(a, b) / 2 == Xor(a / 2, b / 2)
    ensures Odd(Xor(a, b)) == (Odd(a) != Odd(b))
  {
  }

  lemma {:induction false} XorZero(a: nat)
    ensures Xor(a, 0) == a == Xor(0, a)
  {
    if a > 0 {
      XorZero(a / 2);
    }
  }

  lemma {:induction false} XorCommutes(a: nat, b: nat)
    ensures Xor(a, b) == Xor(b, a)
    decreases a + b
  {
    if a > 0 || b > 0 {
      XorCommutes(a / 2, b / 2);
    }
  }

  lemma {:induction false} XorAssociates(a: nat, b: nat, c: nat)
    ensures Xor(Xor(a, b), c) == Xor(a, Xor(b, c))
    decreases a + b + c
  {
    if a > 0 || b > 0 || c > 0 {
      XorParts(a, b);
      XorParts(b, c);
      XorAssociates(a / 2, b / 2, c / 2);
    }
  }

  /** `(a ^ b) ^ (c ^ d) == (a ^ c) ^ (b ^ d)` */
  lemma XorSwaps(a: nat, b: nat, c: nat, d: nat)
    ensures Xor(Xor(a, b), Xor(c, d)) == Xor(Xor(a, c), Xor(b, d))
  {
    XorAssociates(a, b, Xor(c, d));
    XorAssociates(b, c, d);
    XorCommutes(b, c);
    XorAssociates(c, b, d);
    XorAssociates(a, c, Xor(b, d));
  }

  /** A number is its own inverse under `^`, and the only one. */
  lemma {:induction false} XorZeroIffEqual(a: nat, b: nat)
    ensures Xor(a, b) == 0 <==> a == b
    decreases a + b
  {
    if a > 0 || b > 0 {
      XorZeroIffEqual(a / 2, b / 2);
    }
  }

  lemma XorCancels(a: nat, b: nat)
    ensures Xor(Xor(a, b), b) == a
  {
    XorAssociates(a, b, b);
    XorZeroIffEqual(b, b);
    XorZero(a);
  }

  lemma {:induction false} XorBound(a: nat, b: nat, k: nat)
    requires a < Pow2(k) && b < Pow2(k)
    ensures Xor(a, b) < Pow2(k)
  {
    if k > 0 {
      XorBound(a / 2, b / 2, k - 1);
    }
  }

  /** Fields that do not overlap can be combined with `|` or with `+`. */
  lemma {:induction false} OrOfDisjoint(high: nat, low: nat, k: nat)
    requires low < Pow2(k)
    ensures Or(ShiftLeft(high, k), low) == ShiftLeft(high, k) + low
    decreases k, high
  {
    if k > 0 {
      OrOfDisjoint(high, low / 2, k - 1);
    } else {
      OrZero(high);
    }
  }

  lemma {:induction false} OrCommutes(a: nat, b: nat)
    ensures Or(a, b) == Or(b, a)
    decreases a + b
  {
    if a > 0 || b > 0 {
      OrCommutes(a / 2, b / 2);
    }
  }

  lemma {:induction false} AndZero(a: nat)
    ensures And(a, 0) == 0
  {
    if a > 0 {
      AndZero(a / 2);
    }
  }

  lemma {:induction false} OrZero(a: nat)
    ensures Or(a, 0) == a
  {
    if a > 0 {
      OrZero(a / 2);
    }
  }

  lemma {:induction false} AndCommutes(a: nat, b: nat)
    ensures And(a, b) == And(b, a)
  {
    if a > 0 {
      AndCommutes(a / 2, b / 2);
    } else {
      AndZero(b);
    }
  }

  lemma ShiftNone(v: nat)
    ensures ShiftLeft(v, 0) == v
  {
  }

  /** `v & ((1 << k) - 1)` is `v % (1 << k)`. */
  lemma {:induction false} MaskIsModulo(v: nat, k: nat)
    ensures And(v, Pow2(k) - 1) == v % Pow2(k)
  {
    if k == 0 {
      AndZero(v);
    } else {
      hide And;
      MaskIsModulo(v / 2, k - 1);
      MaskStep(v, Pow2(k - 1));
    }
  }

  lemma MaskStep(v: nat, p: nat)
    requires p > 0 && And(v / 2, p - 1) == v / 2 % p
    ensures And(v, 2 * p - 1) == v % (2 * p)
  {
    hide And;
    AndParts(v, 2 * p - 1);
    assert (2 * p - 1) / 2 == p - 1;
    ModuloHalves(v, p);
  }

  lemma ModuloHalves(v: nat, p: nat)
    requires p > 0
    ensures v % (2 * p) == 2 * (v / 2 % p) + v % 2
  {
    var q, r := v / 2 / p, v / 2 % p;
    assert v / 2 == p * q + r;
    DoubleProduct(p, q);
    DivModUnique(v, 2 * p, q, 2 * r + v % 2);
  }

  lemma {:induction false} AndSplits(a: nat, b: nat, x: nat, y: nat, k: nat)
    requires x < Pow2(k) && y < Pow2(k)
    ensures And(ShiftLeft(a, k) + x, ShiftLeft(b, k) + y) == ShiftLeft(And(a, b), k) + And(x, y)
  {
    if k == 0 {
      AndZero(0);
    } else {
      AndSplits(a, b, x / 2, y / 2, k - 1);
      AndParts(x, y);
      AndParts(ShiftLeft(a, k) + x, ShiftLeft(b, k) + y);
    }
  }

  lemma AndParts(a: nat, b: nat)
    ensures And(a, b) / 2 == And(a / 2, b / 2)
    ensures Odd(And(a, b)) == (Odd(a) && Odd(b))
  {
  }

  lemma {:induction false} BitCountSplits(a: nat, x: nat, k: nat)
    requires x < Pow2(k)
    ensures BitCount(ShiftLeft(a, k) + x) == BitCount(a) + BitCount(x)
  {
    if k > 0 {
      BitCountSplits(a, x / 2, k - 1);
      assert (ShiftLeft(a, k) + x) / 2 == ShiftLeft(a, k - 1) + x / 2;
    }
  }

  lemma {:induction false} AndBound(a: nat, b: nat, k: nat)
    requires a < Pow2(k)
    ensures And(a, b) < Pow2(k)
  {
    if k > 0 && a > 0 {
      AndBound(a / 2, b / 2, k - 1);
    }
  }

  /** `(v >> k) & 1` */
  function TestBit(v: nat, k: nat): bool {
    if k == 0 then Odd(v) else TestBit(v / 2, k - 1)
  }

  lemma {:induction false} AndPow2(v: nat, k: nat)
    ensures And(v, Pow2(k)) == Pow2(k) * BitValue(TestBit(v, k))
  {
    if k == 0 {
      AndZero(v / 2);
    } else {
      AndPow2(v / 2, k - 1);
    }
  }

  lemma {:induction false} TestBitOfValue(s: Bits, k: nat)
    requires k < |s|
    ensures TestBit(LsbValue(s), k) == s[k]
  {
    if k > 0 {
      TestBitOfValue(s[1..], k - 1);
    }
  }

  // ---- Bit sequences ---------------------------------------------------------

  /** The low `k` bits of `v`, least significant first. */
  function LsbBits(v: nat, k: nat): (s: Bits)
    ensures |s| == k
  {
    if k == 0 then [] else [Odd(v)] + LsbBits(v / 2, k - 1)
  }

  /** The number whose bits, least significant first, are `s`. */
  function LsbValue(s: Bits): (v: nat)
    ensures v < Pow2(|s|)
  {
    if s == [] then 0 else BitValue(s[0]) + 2 * LsbValue(s[1..])
  }

  /** The number whose bits, most significant first, are `s`. */
  function MsbValue(s: Bits): (v: nat)
    ensures v < Pow2(|s|)
  {
    if s == [] then 0 else 2 * MsbValue(s[..|s| - 1]) + BitValue(s[|s| - 1])
  }

  /** The low `k` bits of `v`, most significant first. */
  function MsbBits(v: nat, k: nat): (s: Bits)
    ensures |s| == k
  {
    if k == 0 then [] else MsbBits(v / 2, k - 1) + [Odd(v)]
  }

  lemma {:induction false} LsbBitsOfValue(s: Bits)
    ensures LsbBits(LsbValue(s), |s|) == s
  {
    if s != [] {
      LsbBitsOfValue(s[1..]);
      assert LsbValue(s) / 2 == LsbValue(s[1..]);
    }
  }

  lemma {:induction false} LsbValueOfBits(v: nat, k: nat)
    requires v < Pow2(k)
    ensures LsbValue(LsbBits(v, k)) == v
  {
    if k > 0 {
      LsbValueOfBits(v / 2, k - 1);
      assert LsbBits(v, k)[1..] == LsbBits(v / 2, k - 1);
    }
  }

  lemma {:induction false} MsbBitsOfValue(s: Bits)
    ensures MsbBits(MsbValue(s), |s|) == s
  {
    if s != [] {
      MsbBitsOfValue(s[..|s| - 1]);
      assert MsbValue(s) / 2 == MsbValue(s[..|s| - 1]);
    }
  }

  lemma {:induction false} MsbValueOfBits(v: nat, k: nat)
    requires v < Pow2(k)
    ensures MsbValue(MsbBits(v, k)) == v
  {
    if k > 0 {
      MsbValueOfBits(v / 2, k - 1);
      assert MsbBits(v, k)[..k - 1] == MsbBits(v / 2, k - 1);
    }
  }

  lemma AppendMsb(part: Bits, b: bool) returns (longer: Bits)
    ensures longer == part + [b]
    ensures MsbValue(longer) == Or(2 * MsbValue(part), BitValue(b))
  {
    longer := part + [b];
    assert longer[..|part|] == part;
    OrOfDisjoint(MsbValue(part), BitValue(b), 1);
  }

  lemma {:induction false} TestBitOfMsb(s: Bits, k: nat)
    requires k < |s|
    ensures TestBit(MsbValue(s), k) == s[|s| - 1 - k]
  {
    if k > 0 {
      TestBitOfMsb(s[..|s| - 1], k - 1);
      assert MsbValue(s) / 2 == MsbValue(s[..|s| - 1]);
    }
  }

  lemma {:induction false} MsbBitsTest(v: nat, n: nat, k: nat)
    requires k < n
    ensures MsbBits(v, n)[n - 1 - k] == TestBit(v, k)
  {
    if k > 0 {
      MsbBitsTest(v / 2, n - 1, k - 1);
    }
  }

  lemma {:induction false} LsbValueSplits(s: Bits, t: Bits)
    ensures LsbValue(s + t) == LsbValue(s) + ShiftLeft(LsbValue(t), |s|)
  {
    if s == [] {
      assert s + t == t;
    } else {
      LsbValueSplits(s[1..], t);
      assert (s + t)[1..] == s[1..] + t;
    }
  }

  lemma DoubleProduct(p: nat, x: nat)
    ensures (2 * p) * x == 2 * (p * x)
  {
  }

  lemma {:induction false} ShiftLeftIsProduct(a: nat, k: nat)
    ensures ShiftLeft(a, k) == a * Pow2(k)
  {
    if k > 0 {
      ShiftLeftIsProduct(a, k - 1);
      DoubleProduct(Pow2(k - 1), a);
    }
  }

  /** `v >> k` drops the low `k` bits; `v & ((1 << k) - 1)` keeps them. */
  lemma {:induction false} ShiftAndMask(low: Bits, high: Bits)
    ensures ShiftRight(LsbValue(low + high), |low|) == LsbValue(high)
    ensures And(LsbValue(low + high), Pow2(|low|) - 1) == LsbValue(low)
  {
    var v := LsbValue(low + high);
    if low == [] {
      assert low + high == high;
      AndZero(v);
    } else {
      ShiftAndMask(low[1..], high);
      assert (low + high)[1..] == low[1..] + high;
      assert (Pow2(|low|) - 1) / 2 == Pow2(|low| - 1) - 1;
    }
  }

  /** `v | (w << k)` for a `v` of `k` bits puts the bits of `w` after those of `v`. */
  lemma OrAppends(s: Bits, t: Bits)
    ensures Or(LsbValue(s), ShiftLeft(LsbValue(t), |s|)) == LsbValue(s + t)
  {
    OrCommutes(LsbValue(s), ShiftLeft(LsbValue(t), |s|));
    OrOfDisjoint(LsbValue(t), LsbValue(s), |s|);
    LsbValueSplits(s, t);
  }

  lemma DivModUnique(x: nat, d: nat, q: nat, r: nat)
    requires d > 0 && x == d * q + r && r < d
    ensures x / d == q && x % d == r
  {
    if x / d > q {
      MulMonotone(d, q + 1, x / d);
    } else if x / d < q {
      MulMonotone(d, x / d + 1, q);
    }
  }

  lemma MulMonotone(d: nat, x: nat, y: nat)
    requires x <= y
    ensures d * x <= d * y
  {
  }

  lemma DivideTwice(v: nat, a: nat, b: nat)
    requires a > 0 && b > 0
    ensures a * b > 0 && v / a / b == v / (a * b)
  {
    var q := v / a;
    DividedTwice(v, a, b, q, v % a, q / b, q % b);
  }

  lemma DividedTwice(v: nat, a: nat, b: nat, q: nat, r: nat, p: nat, s: nat)
    requires v == a * q + r && r < a && q == b * p + s && s < b
    ensures a * b > 0 && v / (a * b) == p
  {
    Regroup(a, b, p, s);
    BelowProduct(a, b, s, r);
    DivModUnique(v, a * b, p, a * s + r);
  }

  lemma Regroup(a: nat, b: nat, p: nat, s: nat)
    ensures a * (b * p + s) == a * b * p + a * s
  {
  }

  lemma BelowProduct(a: nat, b: nat, s: nat, r: nat)
    requires s < b && r < a
    ensures 0 < a * b && a * s + r < a * b
  {
    MulMonotone(a, s, b - 1);
    assert a * (b - 1) == a * b - a;
  }

  lemma {:induction false} BytesInBits(n: nat)
    ensures Pow2(8 * n) == Pow256(n)
  {
    if n > 0 {
      BytesInBits(n - 1);
      PowersAdd(8, 8 * (n - 1));
      assert Pow2(8) == 256;
    }
  }

  lemma {:induction false} PowersAdd(j: nat, k: nat)
    ensures Pow2(j + k) == Pow2(k) * Pow2(j)
  {
    if k > 0 {
      PowersAdd(j, k - 1);
      DoubleProduct(Pow2(k - 1), Pow2(j));
    }
  }

  // ---- Sequences ------------------------------------------------------------

  lemma ConcatAssociates<T>(a: seq<T>, b: seq<T>, c: seq<T>)
    ensures a + (b + c) == a + b + c
  {
  }

  lemma SlicesJoin<T>(s: seq<T>, a: nat, b: nat, c: nat)
    requires a <= b <= c <= |s|
    ensures s[a..b] + s[b..c] == s[a..c]
  {
  }

  lemma ThreeParts<T>(s: seq<T>, a: nat, b: nat)
    requires a <= b <= |s|
    ensures s[..a] + (s[a..b] + s[b..]) == s
  {
  }

  // ---- Bytes as bits ---------------------------------------------------------

  /** All bits of `data`, least significant bit of each byte first. */
  function BytesToBits(data: seq<byte>): (s: Bits)
    ensures |s| == 8 * |data|
  {
    if data == [] then [] else LsbBits(data[0], 8) + BytesToBits(data[1..])
  }

  lemma {:induction false} BytesToBitsConcat(a: seq<byte>, b: seq<byte>)
    ensures BytesToBits(a + b) == BytesToBits(a) + BytesToBits(b)
  {
    if a == [] {
      assert a + b == b;
    } else {
      BytesToBitsConcat(a[1..], b);
      var first, rest := LsbBits(a[0], 8), BytesToBits(a[1..]);
      assert (a + b)[1..] == a[1..] + b;
      assert first + (rest + BytesToBits(b)) == first + rest + BytesToBits(b);
    }
  }

  lemma BytesToBitsAppend(data: seq<byte>, b: byte)
    ensures BytesToBits(data + [b]) == BytesToBits(data) + LsbBits(b, 8)
  {
    BytesToBitsConcat(data, [b]);
    assert [b][1..] == [];
    assert LsbBits(b, 8) + [] == LsbBits(b, 8);
  }

  /** The inverse reading: whole bytes, least significant bit first. */
  function BitsToBytes(s: Bits): (data: seq<byte>)
    requires |s| % 8 == 0
    ensures |data| == |s| / 8
  {
    if s == [] then [] else
      assert Pow2(8) == 256;
      [LsbValue(s[..8]) as byte] + BitsToBytes(s[8..])
  }

  lemma {:induction false} BytesRoundTrip(data: seq<byte>)
    ensures BitsToBytes(BytesToBits(data)) == data
  {
    if data != [] {
      BytesRoundTrip(data[1..]);
      var s := BytesToBits(data);
      assert s[..8] == LsbBits(data[0], 8) && s[8..] == BytesToBits(data[1..]);
      LsbValueOfBits(data[0], 8);
    }
  }
}

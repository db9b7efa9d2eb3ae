/** Integers as bytes: `int.from_bytes(data, order)` and `v.to_bytes(n, order)` of
    unsigned numbers, in either order, and XOR of byte strings. */
module ByteOrders {
  import opened Bitwise

  datatype Order = Little | Big

  // ---- Least significant byte first ------------------------------------------------

  function LittleEndian(data: seq<byte>): (v: nat)
    ensures v < Pow256(|data|)
  {
    if data == [] then 0 else data[0] + 256 * LittleEndian(data[1..])
  }

  function LittleDigits(v: nat, n: nat): (data: seq<byte>)
    ensures |data| == n
  {
    if n == 0 then [] else [v % 256] + LittleDigits(v / 256, n - 1)
  }

  lemma {:induction false} LittleDigitsOfValue(data: seq<byte>)
    ensures LittleDigits(LittleEndian(data), |data|) == data
  {
    if data != [] {
      LittleDigitsOfValue(data[1..]);
      assert LittleEndian(data) / 256 == LittleEndian(data[1..]);
    }
  }

  lemma {:induction false} ValueOfLittleDigits(v: nat, n: nat)
    requires v < Pow256(n)
    ensures LittleEndian(LittleDigits(v, n)) == v
  {
    if n > 0 {
      ValueOfLittleDigits(v / 256, n - 1);
      assert LittleDigits(v, n)[1..] == LittleDigits(v / 256, n - 1);
    }
  }

  // ---- Most significant byte first -------------------------------------------------

  function BigEndian(data: seq<byte>): (v: nat)
    ensures v < Pow256(|data|)
  {
    if data == [] then 0 else 256 * BigEndian(data[..|data| - 1]) + data[|data| - 1]
  }

  function BigDigits(v: nat, n: nat): (data: seq<byte>)
    ensures |data| == n
  {
    if n == 0 then [] else BigDigits(v / 256, n - 1) + [v % 256]
  }

  lemma {:induction false} BigDigitsOfValue(data: seq<byte>)
    ensures BigDigits(BigEndian(data), |data|) == data
  {
    if data != [] {
      var front := data[..|data| - 1];
      BigDigitsOfValue(front);
      assert BigEndian(data) / 256 == BigEndian(front);
    }
  }

  lemma {:induction false} ValueOfBigDigits(v: nat, n: nat)
    requires v < Pow256(n)
    ensures BigEndian(BigDigits(v, n)) == v
  {
    if n > 0 {
      ValueOfBigDigits(v / 256, n - 1);
      assert BigDigits(v, n)[..n - 1] == BigDigits(v / 256, n - 1);
    }
  }

  // ---- Either order ----------------------------------------------------------------

  function IntegerOf(order: Order, data: seq<byte>): (v: nat)
    ensures v < Pow256(|data|)
  {
    if order.Little? then LittleEndian(data) else BigEndian(data)
  }

  function BytesOf(order: Order, v: nat, n: nat): (data: seq<byte>)
    ensures |data| == n
  {
    if order.Little? then LittleDigits(v, n) else BigDigits(v, n)
  }

  lemma IntegerRoundTrip(order: Order, v: nat, n: nat)
    requires v < Pow256(n)
    ensures IntegerOf(order, BytesOf(order, v, n)) == v
  {
    ValueOfLittleDigits(v, n);
    ValueOfBigDigits(v, n);
  }

  lemma BytesOfInteger(order: Order, data: seq<byte>)
    ensures BytesOf(order, IntegerOf(order, data), |data|) == data
  {
    LittleDigitsOfValue(data);
    BigDigitsOfValue(data);
  }

  function Reverse(s: seq<byte>): (r: seq<byte>)
    ensures |r| == |s|
  {
    if s == [] then [] else Reverse(s[1..]) + [s[0]]
  }

  lemma {:induction false} BigEndianIsReversed(data: seq<byte>)
    ensures BigEndian(Reverse(data)) == LittleEndian(data)
  {
    if data != [] {
      BigEndianIsReversed(data[1..]);
      assert Reverse(data)[..|data| - 1] == Reverse(data[1..]);
    }
  }

  /** The two orders read the same number from exactly the palindromes. */
  lemma OrdersAgree(data: seq<byte>)
    ensures LittleEndian(data) == BigEndian(data) <==> Reverse(data) == data
  {
    BigEndianIsReversed(data);
    BigDigitsOfValue(data);
    BigDigitsOfValue(Reverse(data));
  }

  // ---- XOR of byte strings -----------------------------------------------------

  function XorByte(a: byte, b: byte): byte {
    assert Pow2(8) == 256;
    XorBound(a, b, 8);
    Xor(a, b)
  }

  function XorBytes(a: seq<byte>, b: seq<byte>): (c: seq<byte>)
    requires |a| == |b|
    ensures |c| == |a|
    ensures forall i :: 0 <= i < |a| ==> c[i] == XorByte(a[i], b[i])
  {
    if a == [] then [] else XorBytes(a[..|a| - 1], b[..|b| - 1]) + [XorByte(a[|a| - 1], b[|b| - 1])]
  }

  lemma ShiftedHalf(a: nat, x: nat, k: nat)
    requires k > 0
    ensures (ShiftLeft(a, k) + x) / 2 == ShiftLeft(a, k - 1) + x / 2
    ensures Odd(ShiftLeft(a, k) + x) == Odd(x)
  {
  }

  lemma {:induction false} XorShifted(a: nat, b: nat, x: nat, y: nat, k: nat)
    requires x < Pow2(k) && y < Pow2(k)
    ensures Xor(ShiftLeft(a, k) + x, ShiftLeft(b, k) + y) == ShiftLeft(Xor(a, b), k) + Xor(x, y)
  {
    if k == 0 {
      XorZero(0);
    } else {
      XorShifted(a, b, x / 2, y / 2, k - 1);
      ShiftedHalf(a, x, k);
      ShiftedHalf(b, y, k);
      ShiftedHalf(Xor(a, b), Xor(x, y), k);
      hide ShiftLeft, Xor, Pow2;
      XorParts(x, y);
      XorParts(ShiftLeft(a, k) + x, ShiftLeft(b, k) + y);
    }
  }

  /** XOR of the numbers is XOR of the bytes. */
  lemma {:induction false} XorOfNumbers(a: seq<byte>, b: seq<byte>)
    requires |a| == |b|
    ensures Xor(BigEndian(a), BigEndian(b)) == BigEndian(XorBytes(a, b))
  {
    if a != [] {
      var n := |a| - 1;
      XorOfNumbers(a[..n], b[..n]);
      XorLastByte(BigEndian(a[..n]), BigEndian(b[..n]), a[n], b[n]);
      assert XorBytes(a, b)[..n] == XorBytes(a[..n], b[..n]);
    }
  }

  lemma XorLastByte(a: nat, b: nat, x: byte, y: byte)
    ensures Xor(256 * a + x, 256 * b + y) == 256 * Xor(a, b) + XorByte(x, y)
  {
    assert Pow2(8) == 256;
    hide *;
    ShiftLeftIsProduct(a, 8);
    ShiftLeftIsProduct(b, 8);
    ShiftLeftIsProduct(Xor(a, b), 8);
    XorShifted(a, b, x, y, 8);
  }

  /** So XOR is undone by the same bytes. */
  lemma XorBytesTwice(a: seq<byte>, b: seq<byte>)
    requires |a| == |b|
    ensures XorBytes(XorBytes(a, b), b) == a
  {
    forall i | 0 <= i < |a| ensures XorBytes(XorBytes(a, b), b)[i] == a[i] {
      XorCancels(a[i], b[i]);
    }
  }
}

/** `BitCursor` of `mav_gss_lib/platform/spec/cursor.py`: byte reads and sub-byte
    reads, least significant bit first, over one buffer. */
module BitCursors {
  import opened Bitwise
  import opened ByteOrders

  datatype Read<T> = Got(value: T) | Misaligned | Underrun

  /** `s[i:j]` of Python: a negative end counts from the end of the sequence. */
  function Slice<T>(s: seq<T>, i: nat, j: int): seq<T> {
    var end := if j < 0 then j + |s| else if j > |s| then |s| else j;
    if i < end then s[i..end] else []
  }

  class BitCursor {
    const buf: seq<byte>
    var bytePos: int
    var bitRemainder: nat
    var bitRemainderSize: nat

    /** The whole buffer as one stream of bits. */
    ghost function Stream(): Bits {
      BytesToBits(buf)
    }

    /** Bits consumed so far. */
    ghost function Pos(): int
      reads this
    {
      8 * bytePos - bitRemainderSize
    }

    ghost predicate Valid()
      reads this
    {
      && 0 <= bytePos <= |buf| && bitRemainderSize <= 8 && Pos() >= 0
      && bitRemainder == LsbValue(Stream()[Pos()..8 * bytePos])
    }

    constructor (data: seq<byte>)
      ensures Valid() && buf == data && Pos() == 0
    {
      buf, bytePos, bitRemainder, bitRemainderSize := data, 0, 0, 0;
    }

    /** A negative length is not refused: the position moves back, and once it is in
        front of the buffer the cursor is not valid any more. */
    method ReadBytes(n: int) returns (r: Read<seq<byte>>)
      requires Valid()
      modifies this`bytePos
      ensures Valid() <==> r.Got? ==> old(bytePos) + n >= 0
      ensures r.Misaligned? <==> old(bitRemainderSize) > 0
      ensures r.Underrun? <==> old(bitRemainderSize) == 0 && old(Pos()) + 8 * n > 8 * |buf|
      ensures r.Got? ==> Pos() == old(Pos()) + 8 * n <= 8 * |buf|
      ensures r.Got? && n >= 0 ==>
                && BytesToBits(r.value) == Stream()[old(Pos())..Pos()]
                && r.value == buf[old(bytePos)..bytePos]
      ensures r.Got? && -old(bytePos) <= n < 0 ==> r.value == []
      ensures r.Got? && n < -old(bytePos) ==> r.value == Slice(buf, old(bytePos), bytePos)
      ensures !r.Got? ==> Pos() == old(Pos())
    {
      hide BytesToBits, LsbValue;
      if bitRemainderSize > 0 {
        return Misaligned;
      }
      if bytePos + n > |buf| {
        return Underrun;
      }
      var out := Slice(buf, bytePos, bytePos + n);
      if n >= 0 {
        BytesInStream(buf, bytePos, n);
      }
      NoBits(Stream(), 8 * bytePos);
      bytePos := bytePos + n;
      if bytePos >= 0 {
        NoBits(Stream(), 8 * bytePos);
      }
      r := Got(out);
    }

    /** The bits from the current position, or an underrun that leaves the cursor
        at the end of the buffer. */
    method ReadBits(n: int) returns (r: Read<nat>)
      requires Valid()
      modifies this
      ensures Valid()
      ensures r.Got? <==> old(Pos()) + n <= 8 * |buf| || n <= 0
      ensures r.Got? && n <= 0 ==> r.value == 0 && Pos() == old(Pos())
      ensures r.Got? && n > 0 ==> Pos() == old(Pos()) + n
                                  && r.value == LsbValue(Stream()[old(Pos())..Pos()])
      ensures !r.Got? ==> r.Underrun? && Pos() == 8 * |buf|
    {
      var value: nat, bitsCollected := 0, 0;
      ghost var start := Pos();
      while bitsCollected < n
        invariant Valid()
        invariant 0 <= bitsCollected && Pos() == start + bitsCollected
        invariant bitsCollected <= if n > 0 then n else 0
        invariant value == LsbValue(Stream()[start..Pos()])
      {
        if bitRemainderSize == 0 {
          if bytePos >= |buf| {
            return Underrun;
          }
          Refill();
        }
        var take := if n - bitsCollected < bitRemainderSize then n - bitsCollected else bitRemainderSize;
        ghost var pos := Pos();
        var chunk := Take(take);
        AppendChunk(Stream(), start, pos, Pos());
        value := Or(value, ShiftLeft(chunk, bitsCollected));
        bitsCollected := bitsCollected + take;
      }
      r := Got(value);
    }

    method Refill()
      requires Valid() && bitRemainderSize == 0 && bytePos < |buf|
      modifies this
      ensures Valid() && bitRemainderSize == 8 && Pos() == old(Pos())
    {
      ByteInStream(buf, bytePos);
      bitRemainder := buf[bytePos];
      bitRemainderSize := 8;
      bytePos := bytePos + 1;
    }

    /** The low `take` bits of the remainder, masked out and shifted away. */
    method Take(take: nat) returns (chunk: nat)
      requires Valid() && take <= bitRemainderSize
      modifies this`bitRemainder, this`bitRemainderSize
      ensures Valid() && Pos() == old(Pos()) + take
      ensures chunk == LsbValue(Stream()[old(Pos())..Pos()])
    {
      hide ShiftRight, And, Pow2, LsbValue, BytesToBits;
      TakeFromStream(Stream(), Pos(), Pos() + take, 8 * bytePos);
      chunk := And(bitRemainder, Pow2(take) - 1);
      bitRemainder := ShiftRight(bitRemainder, take);
      bitRemainderSize := bitRemainderSize - take;
    }

    method RemainingBits() returns (n: nat)
      requires Valid()
      ensures n == 8 * |buf| - Pos()
    {
      n := bitRemainderSize + (|buf| - bytePos) * 8;
    }
  }

  lemma NoBits(s: Bits, k: nat)
    requires k <= |s|
    ensures LsbValue(s[k..k]) == 0
  {
  }

  lemma BytesInStream(buf: seq<byte>, i: nat, n: nat)
    requires i + n <= |buf|
    ensures BytesToBits(buf[i..i + n]) == BytesToBits(buf)[8 * i..8 * (i + n)]
  {
    hide BytesToBits;
    ThreeParts(buf, i, i + n);
    BytesBetween(buf[..i], buf[i..i + n], buf[i + n..], buf, i, n);
  }

  lemma BytesBetween(a: seq<byte>, b: seq<byte>, c: seq<byte>, buf: seq<byte>, i: nat, n: nat)
    requires buf == a + (b + c) && i == |a| && n == |b|
    ensures BytesToBits(b) == BytesToBits(buf)[8 * i..8 * (i + n)]
  {
    hide BytesToBits;
    BytesToBitsConcat(a, b + c);
    BytesToBitsConcat(b, c);
    MiddlePart(BytesToBits(a), BytesToBits(b), BytesToBits(c), 8 * i, 8 * (i + n));
  }

  lemma MiddlePart(a: Bits, b: Bits, c: Bits, from: nat, to: nat)
    requires from == |a| && to == |a| + |b|
    ensures (a + (b + c))[from..to] == b
  {
  }

  lemma ByteInStream(buf: seq<byte>, i: nat)
    requires i < |buf|
    ensures LsbValue(BytesToBits(buf)[8 * i..8 * (i + 1)]) == buf[i]
  {
    BytesInStream(buf, i, 1);
    assert buf[i..i + 1] == [buf[i]];
    StreamIsLittleEndian([buf[i]]);
    assert LittleEndian([buf[i]][1..]) == 0;
  }

  lemma TakeFromStream(s: Bits, pos: nat, mid: nat, end: nat)
    requires pos <= mid <= end <= |s|
    ensures ShiftRight(LsbValue(s[pos..end]), mid - pos) == LsbValue(s[mid..end])
    ensures And(LsbValue(s[pos..end]), Pow2(mid - pos) - 1) == LsbValue(s[pos..mid])
  {
    hide ShiftRight, And, LsbValue;
    SlicesJoin(s, pos, mid, end);
    ShiftAndMask(s[pos..mid], s[mid..end]);
  }

  lemma AppendChunk(s: Bits, start: nat, pos: nat, mid: nat)
    requires start <= pos <= mid <= |s|
    ensures Or(LsbValue(s[start..pos]), ShiftLeft(LsbValue(s[pos..mid]), pos - start)) == LsbValue(s[start..mid])
  {
    SlicesJoin(s, start, pos, mid);
    OrAppends(s[start..pos], s[pos..mid]);
  }

  // ---- What a read means -----------------------------------------------------

  lemma {:induction false} StreamIsLittleEndian(data: seq<byte>)
    ensures LsbValue(BytesToBits(data)) == LittleEndian(data)
  {
    if data != [] {
      var rest := BytesToBits(data[1..]);
      StreamIsLittleEndian(data[1..]);
      LsbValueSplits(LsbBits(data[0], 8), rest);
      assert Pow2(8) == 256;
      LsbValueOfBits(data[0], 8);
      ShiftLeftIsProduct(LsbValue(rest), 8);
    }
  }

  /** A read of `n` bits at `pos` is `(value >> pos) & ((1 << n) - 1)` of the whole
      buffer taken as one little-endian integer. */
  lemma ReadIsShiftAndMask(buf: seq<byte>, pos: nat, n: nat)
    requires pos + n <= 8 * |buf|
    ensures LsbValue(BytesToBits(buf)[pos..pos + n])
         == And(ShiftRight(LittleEndian(buf), pos), Pow2(n) - 1)
  {
    var s := BytesToBits(buf);
    StreamIsLittleEndian(buf);
    ThreeParts(s, pos, pos + n);
    MiddleBits(s[..pos], s[pos..pos + n], s[pos + n..], LittleEndian(buf), pos, n);
  }

  lemma MiddleBits(a: Bits, b: Bits, c: Bits, v: nat, pos: nat, n: nat)
    requires v == LsbValue(a + (b + c)) && pos == |a| && n == |b|
    ensures LsbValue(b) == And(ShiftRight(v, pos), Pow2(n) - 1)
  {
    ShiftAndMask(a, b + c);
    ShiftAndMask(b, c);
  }

  /** Reading `a` bits and then `b` bits is one read of `a + b` bits. */
  lemma ReadsCompose(buf: seq<byte>, pos: nat, a: nat, b: nat)
    requires pos + a + b <= 8 * |buf|
    ensures var s := BytesToBits(buf);
            LsbValue(s[pos..pos + a]) + ShiftLeft(LsbValue(s[pos + a..pos + a + b]), a)
            == LsbValue(s[pos..pos + a + b])
  {
    var s := BytesToBits(buf);
    var low, high := s[pos..pos + a], s[pos + a..pos + a + b];
    SlicesJoin(s, pos, pos + a, pos + a + b);
    LsbValueSplits(low, high);
  }
}

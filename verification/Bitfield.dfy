/** `BitfieldDecoder` of `mav_gss_lib/platform/spec/runtime.py`: one register read
    least significant bit first, then one field a slice. */
module Bitfields {
  import opened Bitwise
  import opened BitCursors
  import opened ByteOrders

  datatype Kind = Bool | UInt | Int | Enum(labels: seq<(nat, string)>)

  /** Bits `lo` to `hi` inclusive. */
  datatype Slice = Slice(name: string, lo: nat, hi: nat, kind: Kind)

  /** The declared byte order is kept, and not used. */
  datatype BitfieldType = BitfieldType(sizeBits: nat, order: Order, entries: seq<Slice>)

  datatype EnumLabel = Known(name: string) | Unknown(raw: nat)

  datatype Field = Flag(on: bool) | Number(n: int) | Name(text: EnumLabel)

  datatype Decoded = Fields(fields: map<string, Field>) | Short | BadSlice(slice: Slice)

  /** `1 << k` fails for a negative `k`. */
  predicate Shiftable(e: Slice) {
    e.lo <= if e.kind.Int? then e.hi else e.hi + 1
  }

  /** `(register >> lo) & ((1 << width) - 1)` */
  function Raw(register: nat, e: Slice): nat
    requires Shiftable(e)
  {
    And(ShiftRight(register, e.lo), Pow2(e.hi + 1 - e.lo) - 1)
  }

  /** Two's complement of `width` bits. */
  function SignExtend(raw: nat, width: nat): int
    requires width > 0
  {
    if And(raw, Pow2(width - 1)) != 0 then raw - Pow2(width) else raw
  }

  function FindLabel(labels: seq<(nat, string)>, raw: nat): EnumLabel {
    if labels == [] then Unknown(raw)
    else if labels[0].0 == raw then (if labels[0].1 == "" then Unknown(raw) else Known(labels[0].1))
    else FindLabel(labels[1..], raw)
  }

  /** What `width` bits are as a field of the given kind. */
  function FieldFrom(kind: Kind, raw: nat, width: nat): Field
    requires kind.Int? ==> width > 0
  {
    match kind
    case Bool => Flag(raw != 0)
    case UInt => Number(raw)
    case Int => Number(SignExtend(raw, width))
    case Enum(_) => Number(raw)
  }

  function FieldOf(register: nat, e: Slice): Field
    requires Shiftable(e)
  {
    FieldFrom(e.kind, Raw(register, e), e.hi + 1 - e.lo)
  }

  /** The keys one slice writes. */
  function Written(e: Slice): set<string> {
    if e.kind.Enum? then {e.name, e.name + "_name"} else {e.name}
  }

  function Write(fields: map<string, Field>, register: nat, e: Slice): map<string, Field>
    requires Shiftable(e)
  {
    var out := fields[e.name := FieldOf(register, e)];
    if e.kind.Enum? then out[e.name + "_name" := Name(FindLabel(e.kind.labels, Raw(register, e)))] else out
  }

  function DecodeSlices(register: nat, entries: seq<Slice>): Decoded {
    if entries == [] then Fields(map[])
    else
      var e := entries[|entries| - 1];
      match DecodeSlices(register, entries[..|entries| - 1])
      case Fields(out) => if Shiftable(e) then Fields(Write(out, register, e)) else BadSlice(e)
      case other => other
  }

  /** What is decoded from a buffer at a bit position: `Decode` is proved to give it. */
  function DecodeAt(bf: BitfieldType, buf: seq<byte>, pos: nat): Decoded
    requires pos + bf.sizeBits <= 8 * |buf|
  {
    DecodeSlices(LsbValue(BytesToBits(buf)[pos..pos + bf.sizeBits]), bf.entries)
  }

  method Decode(bf: BitfieldType, cursor: BitCursor) returns (r: Decoded)
    requires cursor.Valid()
    modifies cursor
    ensures cursor.Valid()
    ensures r.Short? <==> old(cursor.Pos()) + bf.sizeBits > 8 * |cursor.buf|
    ensures !r.Short? ==> cursor.Pos() == old(cursor.Pos()) + bf.sizeBits
    ensures !r.Short? ==> r == DecodeAt(bf, cursor.buf, old(cursor.Pos()))
  {
    var entries := bf.entries;
    var got := cursor.ReadBits(bf.sizeBits);
    if !got.Got? {
      return Short;
    }
    var register := got.value;
    var out: map<string, Field> := map[];
    for i := 0 to |entries|
      invariant DecodeSlices(register, entries[..i]) == Fields(out)
    {
      var e := entries[i];
      assert entries[..i + 1][..i] == entries[..i];
      if !Shiftable(e) {
        BadSliceStays(register, entries, i);
        return BadSlice(e);
      }
      out := Write(out, register, e);
    }
    assert entries[..|entries|] == entries;
    r := Fields(out);
  }

  /** Decoding stops at the first slice that cannot be shifted. */
  lemma {:induction false} BadSliceStays(register: nat, entries: seq<Slice>, i: nat)
    requires i < |entries| && !Shiftable(entries[i])
    requires DecodeSlices(register, entries[..i]).Fields?
    ensures DecodeSlices(register, entries) == BadSlice(entries[i])
  {
    var n := |entries|;
    if i == n - 1 {
      assert entries[..i] == entries[..n - 1];
    } else {
      assert entries[..n - 1][..i] == entries[..i];
      BadSliceStays(register, entries[..n - 1], i);
    }
  }

  // ---- What the fields mean --------------------------------------------------

  /** A slice inside the register is exactly its bits. */
  lemma RawIsSlice(s: Bits, e: Slice)
    requires Shiftable(e) && e.hi < |s|
    ensures Raw(LsbValue(s), e) == LsbValue(s[e.lo..e.hi + 1])
  {
    var v, width := LsbValue(s), e.hi + 1 - e.lo;
    ThreeParts(s, e.lo, e.hi + 1);
    MiddleBits(s[..e.lo], s[e.lo..e.hi + 1], s[e.hi + 1..], v, e.lo, width);
    assert Raw(v, e) == And(ShiftRight(v, e.lo), Pow2(width) - 1);
  }

  /** The value of a slice, by its bits: a flag whether one is set, an unsigned or
      enumerated one their number, a signed one that number less a multiple of 2^width. */
  lemma FieldTells(s: Bits, e: Slice)
    requires Shiftable(e) && e.lo <= e.hi < |s|
    ensures var bits := s[e.lo..e.hi + 1]; var f := FieldOf(LsbValue(s), e);
            && (e.kind.Bool? ==> f == Flag(exists k :: 0 <= k < |bits| && bits[k]))
            && (e.kind.UInt? || e.kind.Enum? ==> f == Number(LsbValue(bits)))
            && (e.kind.Int? ==>
                  f.Number? && f.n == if bits[|bits| - 1] then LsbValue(bits) - Pow2(|bits|) else LsbValue(bits))
  {
    hide Raw, LsbValue, Pow2, And;
    RawIsSlice(s, e);
    var bits := s[e.lo..e.hi + 1];
    if e.kind.Bool? {
      SomeBitSet(bits);
    }
    if e.kind.Int? {
      SignBit(bits);
    }
  }

  lemma {:induction false} SomeBitSet(bits: Bits)
    ensures LsbValue(bits) != 0 <==> exists k :: 0 <= k < |bits| && bits[k]
  {
    if bits != [] {
      SomeBitSet(bits[1..]);
      if k :| 0 <= k < |bits[1..]| && bits[1..][k] {
        assert bits[k + 1];
      }
      if k :| 0 <= k < |bits| && bits[k] && k > 0 {
        assert bits[1..][k - 1];
      }
    }
  }

  lemma SignBit(bits: Bits)
    requires bits != []
    ensures And(LsbValue(bits), Pow2(|bits| - 1)) != 0 <==> bits[|bits| - 1]
  {
    hide And, LsbValue, Pow2, TestBit;
    AndPow2(LsbValue(bits), |bits| - 1);
    BitOfValue(bits, |bits| - 1);
  }

  lemma {:induction false} BitOfValue(bits: Bits, k: nat)
    requires k < |bits|
    ensures TestBit(LsbValue(bits), k) == bits[k]
  {
    if k > 0 {
      BitOfValue(bits[1..], k - 1);
      assert LsbValue(bits) / 2 == LsbValue(bits[1..]);
    }
  }

  /** A field keeps its value unless a later slice writes the same key. */
  lemma {:induction false} FieldIsKept(register: nat, entries: seq<Slice>, i: nat)
    requires DecodeSlices(register, entries).Fields? && i < |entries|
    requires forall j :: i < j < |entries| ==> entries[i].name !in Written(entries[j])
    ensures Shiftable(entries[i]) && entries[i].name in DecodeSlices(register, entries).fields
    ensures DecodeSlices(register, entries).fields[entries[i].name] == FieldOf(register, entries[i])
  {
    assert |entries[i].name + "_name"| > |entries[i].name|;
    if i < |entries| - 1 {
      FieldIsKept(register, entries[..|entries| - 1], i);
    }
  }

  /** The label of a raw value is the first one declared for it; with an empty one, as
      with none, the value is unknown. */
  lemma {:induction false} LabelTells(labels: seq<(nat, string)>, raw: nat, i: nat)
    requires i < |labels| && labels[i].0 == raw && forall j :: 0 <= j < i ==> labels[j].0 != raw
    ensures FindLabel(labels, raw) == if labels[i].1 == "" then Unknown(raw) else Known(labels[i].1)
  {
    if i > 0 {
      LabelTells(labels[1..], raw, i - 1);
    }
  }

  lemma {:induction false} NoLabel(labels: seq<(nat, string)>, raw: nat)
    requires forall i :: 0 <= i < |labels| ==> labels[i].0 != raw
    ensures FindLabel(labels, raw) == Unknown(raw)
  {
    if labels != [] {
      NoLabel(labels[1..], raw);
    }
  }

  /** An enumerated slice also writes its label under its name and `_name`, which stays
      unless a later slice writes that key. */
  lemma {:induction false} LabelIsKept(register: nat, entries: seq<Slice>, i: nat)
    requires DecodeSlices(register, entries).Fields? && i < |entries| && entries[i].kind.Enum?
    requires forall j :: i < j < |entries| ==>
               entries[j].name != entries[i].name + "_name"
               && (entries[j].kind.Enum? ==> entries[j].name + "_name" != entries[i].name + "_name")
    ensures var e := entries[i];
            && Shiftable(e) && e.name + "_name" in DecodeSlices(register, entries).fields
            && DecodeSlices(register, entries).fields[e.name + "_name"] == Name(FindLabel(e.kind.labels, Raw(register, e)))
  {
    hide FindLabel, FieldOf, Raw;
    if i < |entries| - 1 {
      LabelIsKept(register, entries[..|entries| - 1], i);
    }
  }

  // ---- Slices that partition a register ----------------------------------------

  predicate Covers(e: Slice, k: nat) {
    e.lo <= k <= e.hi
  }

  predicate Covered(entries: seq<Slice>, k: nat) {
    exists e :: e in entries && Covers(e, k)
  }

  /** In any order: pairwise disjoint, and together bits 0 to `n - 1`. */
  predicate Partition(entries: seq<Slice>, n: nat) {
    && (forall e :: e in entries ==> e.lo <= e.hi < n)
    && Disjoint(entries)
    && (forall k :: 0 <= k < n ==> Covered(entries, k))
  }

  predicate Disjoint(entries: seq<Slice>) {
    forall i, j :: 0 <= i < j < |entries| ==> entries[i].hi < entries[j].lo || entries[j].hi < entries[i].lo
  }

  /** The slices put back in place. */
  function Reassemble(register: nat, entries: seq<Slice>): nat
    requires forall e :: e in entries ==> Shiftable(e)
  {
    if entries == [] then 0
    else ShiftLeft(Raw(register, entries[0]), entries[0].lo) + Reassemble(register, entries[1..])
  }

  /** Only the bits some slice covers. */
  function Kept(s: Bits, entries: seq<Slice>): (t: Bits)
    ensures |t| == |s|
  {
    seq(|s|, k requires 0 <= k < |s| => s[k] && Covered(entries, k))
  }

  lemma {:induction false} ValueOfDisjoint(a: Bits, b: Bits, c: Bits)
    requires |a| == |b| == |c|
    requires forall k :: 0 <= k < |a| ==> !(a[k] && b[k]) && c[k] == (a[k] || b[k])
    ensures LsbValue(c) == LsbValue(a) + LsbValue(b)
  {
    if a != [] {
      ValueOfDisjoint(a[1..], b[1..], c[1..]);
    }
  }

  lemma {:induction false} ValueOfZeros(zeros: Bits)
    requires forall k :: 0 <= k < |zeros| ==> !zeros[k]
    ensures LsbValue(zeros) == 0
  {
    if zeros != [] {
      ValueOfZeros(zeros[1..]);
    }
  }

  lemma OneSliceBits(s: Bits, e: Slice, t: Bits)
    requires e.lo <= e.hi < |s| && t == Kept(s, [e])
    ensures t == t[..e.lo] + (s[e.lo..e.hi + 1] + t[e.hi + 1..])
    ensures forall k :: 0 <= k < e.lo || e.hi < k < |t| ==> !t[k]
  {
    assert forall k :: 0 <= k < |s| ==> (Covered([e], k) <==> Covers(e, k));
    var mid := s[e.lo..e.hi + 1];
    forall k | e.lo <= k <= e.hi ensures t[k] == mid[k - e.lo] {
      assert mid[k - e.lo] == s[k];
    }
    assert t[e.lo..e.hi + 1] == mid;
    ThreeParts(t, e.lo, e.hi + 1);
  }

  /** The bits of one slice alone are its value, shifted into place. */
  lemma OneSlice(s: Bits, e: Slice)
    requires e.lo <= e.hi < |s|
    ensures Shiftable(e) && LsbValue(Kept(s, [e])) == ShiftLeft(Raw(LsbValue(s), e), e.lo)
  {
    assert Shiftable(e);
    hide *;
    var t := Kept(s, [e]);
    OneSliceBits(s, e, t);
    RawIsSlice(s, e);
    ValueOfZeros(t[..e.lo]);
    ValueOfZeros(t[e.hi + 1..]);
    AmongZeros(t[..e.lo], s[e.lo..e.hi + 1], t[e.hi + 1..]);
  }

  lemma AmongZeros(low: Bits, mid: Bits, high: Bits)
    requires LsbValue(low) == 0 && LsbValue(high) == 0
    ensures LsbValue(low + (mid + high)) == ShiftLeft(LsbValue(mid), |low|)
  {
    hide LsbValue, ShiftLeft;
    LsbValueSplits(low, mid + high);
    LsbValueSplits(mid, high);
    ShiftLeftIsProduct(0, |mid|);
  }

  lemma {:induction false} KeptReassembles(s: Bits, entries: seq<Slice>)
    requires (forall e :: e in entries ==> e.lo <= e.hi < |s|) && Disjoint(entries)
    ensures forall e :: e in entries ==> Shiftable(e)
    ensures Reassemble(LsbValue(s), entries) == LsbValue(Kept(s, entries))
    decreases |entries|
  {
    if entries == [] {
      ValueOfZeros(Kept(s, entries));
    } else {
      var e, rest := entries[0], entries[1..];
      OneSlice(s, e);
      KeptReassembles(s, rest);
      assert entries == [e] + rest;
      forall k | 0 <= k < |s|
        ensures !(Kept(s, [e])[k] && Kept(s, rest)[k])
        ensures Kept(s, entries)[k] == (Kept(s, [e])[k] || Kept(s, rest)[k])
      {
        CoveredOnce(entries, e, rest, k);
      }
      ValueOfDisjoint(Kept(s, [e]), Kept(s, rest), Kept(s, entries));
    }
  }

  lemma CoveredOnce(entries: seq<Slice>, e: Slice, rest: seq<Slice>, k: nat)
    requires entries == [e] + rest && Disjoint(entries)
    ensures Covered(entries, k) <==> Covered([e], k) || Covered(rest, k)
    ensures !(Covered([e], k) && Covered(rest, k))
  {
    assert Covered([e], k) <==> Covers(e, k);
    assert forall f :: f in entries <==> f == e || f in rest;
    if f :| f in rest && Covers(f, k) {
      var j :| 0 <= j < |rest| && rest[j] == f;
      assert entries[j + 1] == f && entries[0] == e;
    }
  }

  /** Slices that partition a register add up to it, in whatever order they are listed. */
  lemma PartitionReassembles(s: Bits, entries: seq<Slice>)
    requires Partition(entries, |s|)
    ensures forall e :: e in entries ==> Shiftable(e)
    ensures Reassemble(LsbValue(s), entries) == LsbValue(s)
  {
    KeptReassembles(s, entries);
    assert Kept(s, entries) == s;
  }

  // ---- The register back from the decoded fields ---------------------------------

  /** No slice writes a name an earlier one wrote, and flags are one bit wide. */
  predicate Readable(entries: seq<Slice>) {
    && (forall i, j :: 0 <= i < j < |entries| ==> entries[i].name !in Written(entries[j]))
    && (forall e :: e in entries && e.kind.Bool? ==> e.lo == e.hi)
  }

  /** The bits a field stands for: a number modulo the width of its slice. */
  function FieldBits(f: Field, width: nat): nat {
    match f
    case Flag(on) => BitValue(on)
    case Number(n) => n % Pow2(width)
    case Name(_) => 0
  }

  /** The register, from nothing but the decoded map. */
  function FromFields(fields: map<string, Field>, entries: seq<Slice>): nat {
    if entries == [] then 0
    else
      var e := entries[0];
      (if e.name in fields && e.lo <= e.hi then ShiftLeft(FieldBits(fields[e.name], e.hi + 1 - e.lo), e.lo) else 0)
      + FromFields(fields, entries[1..])
  }

  lemma RawFits(register: nat, e: Slice)
    requires Shiftable(e)
    ensures Raw(register, e) < Pow2(e.hi + 1 - e.lo)
  {
    hide And;
    MaskIsModulo(ShiftRight(register, e.lo), e.hi + 1 - e.lo);
  }

  lemma SignedTellsRaw(raw: nat, width: nat)
    requires width > 0 && raw < Pow2(width)
    ensures SignExtend(raw, width) % Pow2(width) == raw
  {
    hide SignExtend, Pow2;
    var v := SignExtend(raw, width);
    SignedIsUnique(raw, width, v);
    var k: int :| v == raw + k * Pow2(width);
    ModuloOfSum(raw, k, Pow2(width));
  }

  lemma FieldFromTells(kind: Kind, raw: nat, width: nat)
    requires width > 0 && raw < Pow2(width) && (kind.Bool? ==> width == 1)
    ensures FieldBits(FieldFrom(kind, raw, width), width) == raw
  {
    OneBit();
    hide SignExtend, Pow2;
    SmallModulo(raw, Pow2(width));
    if kind.Int? {
      SignedTellsRaw(raw, width);
    }
  }

  lemma OneBit()
    ensures Pow2(1) == 2
  {
  }

  lemma SmallModulo(v: nat, p: nat)
    requires v < p
    ensures v % p == v
  {
  }

  /** A decoded field still tells the bits of its slice. */
  lemma FieldTellsRaw(register: nat, e: Slice)
    requires e.lo <= e.hi && (e.kind.Bool? ==> e.lo == e.hi)
    ensures Shiftable(e) && FieldBits(FieldOf(register, e), e.hi + 1 - e.lo) == Raw(register, e)
  {
    hide Raw, FieldFrom, FieldBits;
    RawFits(register, e);
    FieldFromTells(e.kind, Raw(register, e), e.hi + 1 - e.lo);
  }

  lemma ModuloOfSum(r: nat, k: int, p: nat)
    requires r < p
    ensures (r + k * p) % p == r
  {
    var v := r + k * p;
    var d := v / p - k;
    assert v == p * (v / p) + v % p;
    assert r - v % p == d * p;
    FarMultiples(d, p);
    FarMultiples(-d, p);
  }

  lemma {:induction false} FieldsReassemble(register: nat, fields: map<string, Field>, entries: seq<Slice>)
    requires forall e :: e in entries ==> e.lo <= e.hi && Shiftable(e)
    requires forall e :: e in entries ==>
               e.name in fields && FieldBits(fields[e.name], e.hi + 1 - e.lo) == Raw(register, e)
    ensures FromFields(fields, entries) == Reassemble(register, entries)
  {
    if entries != [] {
      FieldsReassemble(register, fields, entries[1..]);
    }
  }

  lemma {:induction false} AllShiftable(register: nat, entries: seq<Slice>)
    requires forall e :: e in entries ==> Shiftable(e)
    ensures DecodeSlices(register, entries).Fields?
  {
    if entries != [] {
      AllShiftable(register, entries[..|entries| - 1]);
    }
  }

  /** Decoding loses nothing: from slices that partition the register, listed in any
      order, the decoded map gives the register back. */
  lemma DecodedMapTellsRegister(s: Bits, entries: seq<Slice>)
    requires Partition(entries, |s|) && Readable(entries)
    ensures var decoded := DecodeSlices(LsbValue(s), entries);
            decoded.Fields? && FromFields(decoded.fields, entries) == LsbValue(s)
  {
    var v := LsbValue(s);
    PartitionReassembles(s, entries);
    AllShiftable(v, entries);
    var fields := DecodeSlices(v, entries).fields;
    forall e | e in entries
      ensures e.name in fields && FieldBits(fields[e.name], e.hi + 1 - e.lo) == Raw(v, e)
    {
      var i :| 0 <= i < |entries| && entries[i] == e;
      FieldIsKept(v, entries, i);
      FieldTellsRaw(v, e);
    }
    FieldsReassemble(v, fields, entries);
  }

  // ---- The declared byte order -----------------------------------------------------

  /** What the type declares the register to be. */
  function DeclaredRegister(bf: BitfieldType, bytes: seq<byte>): nat {
    IntegerOf(bf.order, bytes)
  }

  /** A register of whole bytes is read least significant byte first. */
  lemma RegisterIsLittleEndian(bf: BitfieldType, buf: seq<byte>, i: nat, n: nat)
    requires bf.sizeBits == 8 * n && i + n <= |buf|
    ensures DecodeAt(bf, buf, 8 * i) == DecodeSlices(LittleEndian(buf[i..i + n]), bf.entries)
  {
    hide DecodeSlices;
    BytesInStream(buf, i, n);
    StreamIsLittleEndian(buf[i..i + n]);
  }

  /** So for slices that tell the whole register, decoding gives what the declared
      order means if and only if that is little-endian or the bytes are a palindrome. */
  lemma DeclaredOrderIsIgnored(bf: BitfieldType, buf: seq<byte>, i: nat, n: nat)
    requires bf.sizeBits == 8 * n && i + n <= |buf|
    requires Partition(bf.entries, bf.sizeBits) && Readable(bf.entries)
    ensures var bytes := buf[i..i + n];
            DecodeAt(bf, buf, 8 * i) == DecodeSlices(DeclaredRegister(bf, bytes), bf.entries)
            <==> bf.order.Little? || Reverse(bytes) == bytes
  {
    var bytes := buf[i..i + n];
    var declared := DeclaredRegister(bf, bytes);
    hide DecodeSlices, Partition, Readable, FromFields;
    RegisterIsLittleEndian(bf, buf, i, n);
    OrdersAgree(bytes);
    BytesInBits(n);
    TellsRegister(bf, LittleEndian(bytes));
    TellsRegister(bf, declared);
  }

  lemma TellsRegister(bf: BitfieldType, v: nat)
    requires v < Pow2(bf.sizeBits) && Partition(bf.entries, bf.sizeBits) && Readable(bf.entries)
    ensures var decoded := DecodeSlices(v, bf.entries); decoded.Fields? && FromFields(decoded.fields, bf.entries) == v
  {
    LsbValueOfBits(v, bf.sizeBits);
    DecodedMapTellsRegister(LsbBits(v, bf.sizeBits), bf.entries);
  }

  /** Two bytes declared big-endian, in one unsigned slice: what is decoded is the
      swapped number. */
  lemma BigEndianRegister(a: byte, b: byte)
    ensures var bf := BitfieldType(16, Big, [Slice("reg", 0, 15, UInt)]);
            && DeclaredRegister(bf, [a, b]) == 256 * a + b
            && DecodeAt(bf, [a, b], 0) == Fields(map["reg" := Number(256 * b + a)])
  {
    TwoBytes(BitfieldType(16, Big, [Slice("reg", 0, 15, UInt)]), Slice("reg", 0, 15, UInt), [a, b], a, b);
  }

  lemma TwoBytes(bf: BitfieldType, e: Slice, bytes: seq<byte>, a: int, b: int)
    requires bf == BitfieldType(16, Big, [e]) && e.lo == 0 && e.hi == 15 && e.kind.UInt?
    requires |bytes| == 2 && bytes[0] == a && bytes[1] == b
    ensures DeclaredRegister(bf, bytes) == 256 * a + b
    ensures DecodeAt(bf, bytes, 0) == Fields(map[e.name := Number(256 * b + a)])
  {
    assert bytes[0..2] == bytes;
    assert BigEndian(bytes[..1]) == a by {
      assert bytes[..1][..0] == [];
    }
    BytesInBits(2);
    hide Pow2, DecodeSlices, DecodeAt;
    RegisterIsLittleEndian(bf, bytes, 0, 2);
    OneField(LittleEndian(bytes), e, 16);
  }

  lemma OneField(register: nat, e: Slice, n: nat)
    requires register < Pow2(n) && e.lo == 0 && e.hi + 1 == n && e.kind.UInt?
    ensures DecodeSlices(register, [e]) == Fields(map[e.name := Number(register)])
  {
    hide And, Pow2;
    assert [e][..0] == [];
    assert DecodeSlices(register, []) == Fields(map[]);
    MaskIsModulo(register, n);
    assert Raw(register, e) == register;
  }

  /** `v` differs from `raw` by a multiple of `modulus`. */
  ghost predicate Congruent(v: int, raw: int, modulus: int) {
    exists k: int :: v == raw + k * modulus
  }

  /** A signed slice is the only value in `[-2^(w-1), 2^(w-1))` congruent to its bits. */
  lemma SignedIsUnique(raw: nat, width: nat, v: int)
    requires width > 0 && raw < Pow2(width)
    ensures v == SignExtend(raw, width) <==>
            0 - Pow2(width - 1) <= v < Pow2(width - 1) && Congruent(v, raw, Pow2(width))
  {
    var half: int := Pow2(width - 1);
    TopBit(raw, width - 1);
    AndPow2(raw, width - 1);
    RepresentativeIsUnique(raw, half, v);
    assert SignExtend(raw, width) == if raw >= half then raw - 2 * half else raw;
  }

  lemma RepresentativeIsUnique(raw: int, half: int, v: int)
    requires 0 <= raw < 2 * half
    ensures v == (if raw >= half then raw - 2 * half else raw) <==>
            0 - half <= v < half && Congruent(v, raw, 2 * half)
  {
    assert raw == raw + 0 * (2 * half);
    assert raw - 2 * half == raw + (-1) * (2 * half);
    if Congruent(v, raw, 2 * half) {
      var k: int :| v == raw + k * (2 * half);
      FarMultiples(k, 2 * half);
    }
  }

  lemma FarMultiples(k: int, m: int)
    requires m > 0
    ensures k >= 1 ==> k * m >= m
    ensures k <= -2 ==> k * m <= -2 * m
  {
    if k >= 1 {
      assert (k - 1) * m >= 0;
    } else if k <= -2 {
      assert (-2 - k) * m >= 0;
    }
  }

  lemma {:induction false} TopBit(v: nat, k: nat)
    requires v < Pow2(k + 1)
    ensures TestBit(v, k) <==> v >= Pow2(k)
  {
    if k > 0 {
      TopBit(v / 2, k - 1);
    }
  }
}

/** The binary half of `TypeCodec` in `mav_gss_lib/platform/spec/runtime.py`, over
    types whose references are resolved (the parser rejects cycles). Text is the
    bytes its charset gives. */
module TypeCodecs {
  import opened Options
  import opened Bitwise
  import opened BitCursors
  import opened ByteOrders

  /** How an integer stands on the wire; `size` in bytes. */
  datatype Wire = Wire(size: nat, order: Order, signed: bool)

  datatype PType =
    | IntT(wire: Wire)
    | EnumT(wire: Wire)
    | FixedString(size: nat)
    | NullTerminated
    | TokenString
    | FixedBinary(size: nat)
    | DynamicBinary
    | ArrayT(elem: PType, count: nat)
    | Aggregate(members: seq<Member>)
    | PackedAggregate(packed: Wire, members: seq<Member>)

  datatype Member = Member(name: string, ptype: PType)

  datatype Value =
    | IntV(n: int)
    | TextV(text: seq<byte>)
    | BytesV(data: seq<byte>)
    | ListV(elems: seq<Value>)
    | DictV(fields: map<string, Value>)

  /** A decoded value and the bytes left, or the reason there is none. */
  datatype Outcome<T> = Ok(value: T, rest: seq<byte>) | Short | BadType

  // ---- Integers --------------------------------------------------------------

  /** The values `to_bytes` accepts. */
  predicate InRange(w: Wire, v: int) {
    if w.signed then -(Pow256(w.size) as int) <= 2 * v < Pow256(w.size)
    else 0 <= v < Pow256(w.size)
  }

  /** `v.to_bytes(size, order, signed=signed)` */
  function ToBytes(w: Wire, v: int): (d: seq<byte>)
    requires InRange(w, v)
    ensures |d| == w.size
  {
    BytesOf(w.order, if v < 0 then v + Pow256(w.size) else v, w.size)
  }

  /** `int.from_bytes(d, order, signed=signed)` */
  function FromBytes(w: Wire, d: seq<byte>): int {
    var u := IntegerOf(w.order, d);
    if w.signed && 2 * u >= Pow256(|d|) then u - Pow256(|d|) else u
  }

  // ---- Encoding --------------------------------------------------------------

  /** `raw[:n].ljust(n, b"\x00")` */
  function Padded(raw: seq<byte>, n: nat): (d: seq<byte>)
    ensures |d| == n
  {
    if |raw| >= n then raw[..n] else raw + seq(n - |raw|, _ => 0)
  }

  /** `encode_binary`; `None` where it raises. */
  function Encode(t: PType, v: Value): Option<seq<byte>>
    decreases t, 0
  {
    match t
    case IntT(w) => if v.IntV? && InRange(w, v.n) then Some(ToBytes(w, v.n)) else None
    case EnumT(w) => if v.IntV? && InRange(w, v.n) then Some(ToBytes(w, v.n)) else None
    case FixedString(n) => if v.TextV? then Some(Padded(v.text, n)) else None
    case NullTerminated => if v.TextV? then Some(v.text) else None
    case TokenString => if v.TextV? then Some(v.text) else None
    case FixedBinary(_) => if v.BytesV? then Some(v.data) else None
    case DynamicBinary => if v.BytesV? then Some(v.data) else None
    case ArrayT(elem, _) => if v.ListV? then EncodeList(elem, v.elems) else None
    case Aggregate(ms) => EncodeMembers(ms, v)
    case PackedAggregate(_, ms) => EncodeMembers(ms, v)
  }

  function EncodeList(elem: PType, vs: seq<Value>): Option<seq<byte>>
    decreases elem, 1, vs
  {
    if vs == [] then Some([])
    else Join(Encode(elem, vs[0]), EncodeList(elem, vs[1..]))
  }

  function EncodeMembers(ms: seq<Member>, v: Value): Option<seq<byte>>
    decreases ms, 0
  {
    if ms == [] then Some([])
    else if !v.DictV? || ms[0].name !in v.fields then None
    else Join(Encode(ms[0].ptype, v.fields[ms[0].name]), EncodeMembers(ms[1..], v))
  }

  function Join(a: Option<seq<byte>>, b: Option<seq<byte>>): Option<seq<byte>> {
    if a.Some? && b.Some? then Some(a.value + b.value) else None
  }

  // ---- Decoding --------------------------------------------------------------

  function FindNul(d: seq<byte>): (i: nat)
    ensures i <= |d| && 0 !in d[..i] && (i < |d| ==> d[i] == 0)
  {
    if d == [] || d[0] == 0 then 0 else 1 + FindNul(d[1..])
  }

  function DecodeInt(w: Wire, data: seq<byte>): Outcome<Value> {
    if |data| < w.size then Short else Ok(IntV(FromBytes(w, data[..w.size])), data[w.size..])
  }

  /** `decode_binary` on the bytes from the cursor on. */
  function Decode(t: PType, data: seq<byte>): Outcome<Value>
    decreases t, 0
  {
    match t
    case IntT(w) => DecodeInt(w, data)
    case EnumT(w) => DecodeInt(w, data)
    case FixedString(n) =>
      if |data| < n then Short else Ok(TextV(data[..FindNul(data[..n])]), data[n..])
    case NullTerminated =>
      var i := FindNul(data);
      if i == |data| then Short else Ok(TextV(data[..i]), data[i + 1..])
    case TokenString => BadType
    case FixedBinary(n) => if |data| < n then Short else Ok(BytesV(data[..n]), data[n..])
    case DynamicBinary => BadType
    case ArrayT(elem, count) =>
      (match DecodeList(elem, count, data)
       case Ok(vs, rest) => Ok(ListV(vs), rest)
       case Short => Short
       case BadType => BadType)
    case Aggregate(ms) =>
      (match DecodeMembers(ms, data)
       case Ok(fields, rest) => Ok(DictV(fields), rest)
       case Short => Short
       case BadType => BadType)
    case PackedAggregate(w, _) => DecodeInt(w, data)
  }

  function DecodeList(elem: PType, count: nat, data: seq<byte>): Outcome<seq<Value>>
    decreases elem, 1, count
  {
    if count == 0 then Ok([], data)
    else
      match Decode(elem, data)
      case Short => Short
      case BadType => BadType
      case Ok(v, more) =>
        match DecodeList(elem, count - 1, more)
        case Ok(vs, rest) => Ok([v] + vs, rest)
        case other => other
  }

  function DecodeMembers(ms: seq<Member>, data: seq<byte>): Outcome<map<string, Value>>
    decreases ms, 0
  {
    if ms == [] then Ok(map[], data)
    else
      match Decode(ms[0].ptype, data)
      case Short => Short
      case BadType => BadType
      case Ok(v, more) =>
        match DecodeMembers(ms[1..], more)
        case Ok(fields, rest) => Ok(map[ms[0].name := v] + fields, rest)
        case other => other
  }

  // ---- Which values survive --------------------------------------------------

  function Names(ms: seq<Member>): set<string> {
    set m | m in ms :: m.name
  }

  /** Member names are distinct and a packed aggregate has a footprint. */
  predicate WellFormed(t: PType)
    decreases t, 0
  {
    match t
    case ArrayT(elem, _) => WellFormed(elem)
    case Aggregate(ms) => WellFormedMembers(ms)
    case PackedAggregate(w, ms) => w.size > 0 && WellFormedMembers(ms)
    case _ => true
  }

  predicate WellFormedMembers(ms: seq<Member>)
    decreases ms, 0
  {
    ms != [] ==>
      ms[0].name !in Names(ms[1..]) && WellFormed(ms[0].ptype) && WellFormedMembers(ms[1..])
  }

  /** The values the codec is meant to carry. */
  predicate Fits(t: PType, v: Value)
    decreases t, 0
  {
    match t
    case IntT(w) => v.IntV? && InRange(w, v.n)
    case EnumT(w) => v.IntV? && InRange(w, v.n)
    case FixedString(n) => v.TextV? && |v.text| <= n && 0 !in v.text
    case FixedBinary(n) => v.BytesV? && |v.data| == n
    case ArrayT(elem, count) => v.ListV? && |v.elems| == count && FitsList(elem, v.elems)
    case Aggregate(ms) => v.DictV? && v.fields.Keys == Names(ms) && FitsMembers(ms, v)
    case _ => false
  }

  predicate FitsList(elem: PType, vs: seq<Value>)
    decreases elem, 1, vs
  {
    vs != [] ==> Fits(elem, vs[0]) && FitsList(elem, vs[1..])
  }

  predicate FitsMembers(ms: seq<Member>, v: Value)
    decreases ms, 0
  {
    ms != [] ==>
      && v.DictV? && ms[0].name in v.fields
      && Fits(ms[0].ptype, v.fields[ms[0].name])
      && FitsMembers(ms[1..], v)
  }

  // ---- Integers both ways ----------------------------------------------------

  /** Both byte orders, signed and unsigned. */
  lemma IntegersRoundTrip(w: Wire, v: int)
    requires InRange(w, v)
    ensures FromBytes(w, ToBytes(w, v)) == v
  {
    IntegerRoundTrip(w.order, if v < 0 then v + Pow256(w.size) else v, w.size);
  }

  lemma IntegersDecodeInRange(w: Wire, d: seq<byte>)
    requires |d| == w.size
    ensures InRange(w, FromBytes(w, d))
  {
    if w.size == 0 {
      assert Pow256(0) == 1;
    }
  }

  /** An integer, an enumerated value or a packed aggregate decodes to the one number that
      these bytes are the encoding of, and takes just them. */
  lemma IntegersDecode(t: PType, w: Wire, data: seq<byte>)
    requires t == IntT(w) || t == EnumT(w) || (t.PackedAggregate? && t.packed == w)
    ensures |data| < w.size ==> Decode(t, data) == Short
    ensures |data| >= w.size ==>
              && Decode(t, data).Ok? && Decode(t, data).rest == data[w.size..]
              && Decode(t, data).value.IntV? && InRange(w, Decode(t, data).value.n)
              && ToBytes(w, Decode(t, data).value.n) == data[..w.size]
  {
    hide InRange, ToBytes, FromBytes;
    if |data| >= w.size {
      IntegersDecodeInRange(w, data[..w.size]);
      BytesComeBack(w, data[..w.size]);
    }
  }

  lemma BytesComeBack(w: Wire, d: seq<byte>)
    requires |d| == w.size && InRange(w, FromBytes(w, d))
    ensures ToBytes(w, FromBytes(w, d)) == d
  {
    BytesOfInteger(w.order, d);
  }

  // ---- Values that fit survive -----------------------------------------------

  lemma {:induction false} FirstNul(text: seq<byte>, rest: seq<byte>)
    requires 0 !in text
    ensures FindNul(text + [0] + rest) == |text| && FindNul(text) == |text|
  {
    if text != [] {
      FirstNul(text[1..], rest);
      assert (text + [0] + rest)[1..] == text[1..] + [0] + rest;
      assert text[0] in text;
    }
  }

  lemma PaddedRoundTrip(text: seq<byte>, n: nat)
    requires |text| <= n && 0 !in text
    ensures Padded(text, n)[..FindNul(Padded(text, n))] == text
  {
    FirstNul(text, []);
    if |text| < n {
      var d := Padded(text, n);
      FirstNul(text, d[|text| + 1..]);
      assert d == text + [0] + d[|text| + 1..];
    } else {
      assert text[..n] == text;
    }
  }

  lemma {:induction false} FittingEncodes(t: PType, v: Value)
    requires Fits(t, v)
    ensures Encode(t, v).Some?
    decreases t, 0
  {
    match t
    case ArrayT(elem, _) => FittingListEncodes(elem, v.elems);
    case Aggregate(ms) => FittingMembersEncode(ms, v);
    case _ =>
  }

  lemma {:induction false} FittingListEncodes(elem: PType, vs: seq<Value>)
    requires FitsList(elem, vs)
    ensures EncodeList(elem, vs).Some?
    decreases elem, 1, vs
  {
    if vs != [] {
      FittingEncodes(elem, vs[0]);
      FittingListEncodes(elem, vs[1..]);
    }
  }

  lemma {:induction false} FittingMembersEncode(ms: seq<Member>, v: Value)
    requires FitsMembers(ms, v)
    ensures EncodeMembers(ms, v).Some?
    decreases ms, 0
  {
    if ms != [] {
      FittingEncodes(ms[0].ptype, v.fields[ms[0].name]);
      FittingMembersEncode(ms[1..], v);
    }
  }

  lemma {:induction false} FittingSurvives(t: PType, v: Value, rest: seq<byte>)
    requires Fits(t, v) && Encode(t, v).Some? && WellFormed(t)
    ensures Decode(t, Encode(t, v).value + rest) == Ok(v, rest)
    decreases t, 0
  {
    var enc := Encode(t, v).value;
    assert (enc + rest)[..|enc|] == enc && (enc + rest)[|enc|..] == rest;
    match t
    case IntT(w) => IntegersRoundTrip(w, v.n);
    case EnumT(w) => IntegersRoundTrip(w, v.n);
    case FixedString(n) =>
      PaddedRoundTrip(v.text, n);
      assert (enc + rest)[..FindNul(enc)] == enc[..FindNul(enc)];
    case ArrayT(elem, _) => FittingListSurvives(elem, v.elems, rest);
    case Aggregate(ms) =>
      FittingMembersSurvive(ms, v, rest);
      assert v.fields == map n | n in Names(ms) && n in v.fields :: v.fields[n];
    case _ =>
  }

  lemma {:induction false} FittingListSurvives(elem: PType, vs: seq<Value>, rest: seq<byte>)
    requires FitsList(elem, vs) && EncodeList(elem, vs).Some? && WellFormed(elem)
    ensures DecodeList(elem, |vs|, EncodeList(elem, vs).value + rest) == Ok(vs, rest)
    decreases elem, 1, vs
  {
    if vs == [] {
      assert [] + rest == rest;
    } else {
      var first, more := Encode(elem, vs[0]).value, EncodeList(elem, vs[1..]).value;
      assert first + more + rest == first + (more + rest);
      FittingSurvives(elem, vs[0], more + rest);
      FittingListSurvives(elem, vs[1..], rest);
      assert [vs[0]] + vs[1..] == vs;
    }
  }

  lemma {:induction false} FittingMembersSurvive(ms: seq<Member>, v: Value, rest: seq<byte>)
    requires v.DictV? && FitsMembers(ms, v) && EncodeMembers(ms, v).Some? && WellFormedMembers(ms)
    ensures var d := DecodeMembers(ms, EncodeMembers(ms, v).value + rest);
            && d.Ok? && d.rest == rest
            && d.value == map n | n in Names(ms) && n in v.fields :: v.fields[n]
    decreases ms, 0
  {
    if ms == [] {
      assert [] + rest == rest;
    } else {
      var m := ms[0];
      var first, more := Encode(m.ptype, v.fields[m.name]).value, EncodeMembers(ms[1..], v).value;
      ConcatAssociates(first, more, rest);
      hide Encode, WellFormed, Fits;
      FittingSurvives(m.ptype, v.fields[m.name], more + rest);
      FittingMembersSurvive(ms[1..], v, rest);
      NamesOfTail(ms);
    }
  }

  lemma NamesOfTail(ms: seq<Member>)
    requires ms != []
    ensures Names(ms) == {ms[0].name} + Names(ms[1..])
  {
    assert ms == [ms[0]] + ms[1..];
  }

  // ---- No other value does ---------------------------------------------------

  /** Decoding a value takes at least as many bytes as encoding it gives, and the
      same number only for the values that fit. */
  lemma {:induction false} DecodingTakes(t: PType, data: seq<byte>)
    requires WellFormed(t) && Decode(t, data).Ok? && Encode(t, Decode(t, data).value).Some?
    ensures var v, taken := Decode(t, data).value, |data| - |Decode(t, data).rest|;
            && taken >= |Encode(t, v).value|
            && (taken == |Encode(t, v).value| <==> Fits(t, v))
    decreases t, 0
  {
    match t
    case IntT(w) => IntegersDecodeInRange(w, data[..w.size]);
    case EnumT(w) => IntegersDecodeInRange(w, data[..w.size]);
    case FixedString(n) =>
    case ArrayT(elem, count) => DecodingListTakes(elem, count, data);
    case Aggregate(ms) => DecodingMembersTakes(ms, data);
    case _ =>
  }

  lemma {:induction false} DecodingListTakes(elem: PType, count: nat, data: seq<byte>)
    requires WellFormed(elem) && DecodeList(elem, count, data).Ok?
    requires EncodeList(elem, DecodeList(elem, count, data).value).Some?
    ensures var vs, taken := DecodeList(elem, count, data).value, |data| - |DecodeList(elem, count, data).rest|;
            && |vs| == count
            && taken >= |EncodeList(elem, vs).value|
            && (taken == |EncodeList(elem, vs).value| <==> FitsList(elem, vs))
    decreases elem, 1, count
  {
    if count > 0 {
      var vs := DecodeList(elem, count, data).value;
      var first := Decode(elem, data);
      assert vs[1..] == DecodeList(elem, count - 1, first.rest).value;
      DecodingTakes(elem, data);
      DecodingListTakes(elem, count - 1, first.rest);
    }
  }

  lemma {:induction false} DecodingMembersTakes(ms: seq<Member>, data: seq<byte>)
    requires WellFormedMembers(ms) && DecodeMembers(ms, data).Ok?
    requires EncodeMembers(ms, DictV(DecodeMembers(ms, data).value)).Some?
    ensures var d := DecodeMembers(ms, data);
            var v, taken := DictV(d.value), |data| - |d.rest|;
            && d.value.Keys == Names(ms)
            && taken >= |EncodeMembers(ms, v).value|
            && (taken == |EncodeMembers(ms, v).value| <==> FitsMembers(ms, v))
    decreases ms, 0
  {
    if ms != [] {
      var first := Decode(ms[0].ptype, data);
      var more := DecodeMembers(ms[1..], first.rest);
      DecodedNames(ms[1..], first.rest);
      MembersAgree(ms[1..], DictV(DecodeMembers(ms, data).value), DictV(more.value));
      NamesOfTail(ms);
      DecodingTakes(ms[0].ptype, data);
      DecodingMembersTakes(ms[1..], first.rest);
    }
  }

  lemma {:induction false} DecodedNames(ms: seq<Member>, data: seq<byte>)
    requires DecodeMembers(ms, data).Ok?
    ensures DecodeMembers(ms, data).value.Keys == Names(ms)
    decreases ms
  {
    if ms != [] {
      NamesOfTail(ms);
      DecodedNames(ms[1..], Decode(ms[0].ptype, data).rest);
    }
  }

  /** Only the named members matter to an aggregate. */
  lemma {:induction false} MembersAgree(ms: seq<Member>, v: Value, w: Value)
    requires v.DictV? && w.DictV?
    requires forall n :: n in Names(ms) ==> n in v.fields && n in w.fields && v.fields[n] == w.fields[n]
    ensures EncodeMembers(ms, v) == EncodeMembers(ms, w)
    ensures FitsMembers(ms, v) == FitsMembers(ms, w)
    decreases ms
  {
    if ms != [] {
      NamesOfTail(ms);
      MembersAgree(ms[1..], v, w);
    }
  }

  /** A value that encodes comes back, with exactly its own bytes consumed, if and
      only if it fits its type. A null-terminated string never does: its encoding
      has no terminator. */
  lemma RoundTripExactlyWhenItFits(t: PType, v: Value, rest: seq<byte>)
    requires WellFormed(t) && Encode(t, v).Some?
    ensures Decode(t, Encode(t, v).value + rest) == Ok(v, rest) <==> Fits(t, v)
  {
    if Fits(t, v) {
      FittingSurvives(t, v, rest);
    } else if Decode(t, Encode(t, v).value + rest) == Ok(v, rest) {
      DecodingTakes(t, Encode(t, v).value + rest);
    }
  }

  /** An aggregate fails as its first failing member does, and an array as its first
      failing element. */
  lemma FailuresPass(m: Member, ms: seq<Member>, elem: PType, count: nat, data: seq<byte>)
    ensures !Decode(m.ptype, data).Ok? ==>
              && (Decode(m.ptype, data).Short? <==> Decode(Aggregate([m] + ms), data).Short?)
              && (Decode(m.ptype, data).BadType? <==> Decode(Aggregate([m] + ms), data).BadType?)
    ensures Decode(m.ptype, data).Ok? ==>
              var rest := Decode(m.ptype, data).rest;
              && (Decode(Aggregate([m] + ms), data).Short? <==> Decode(Aggregate(ms), rest).Short?)
              && (Decode(Aggregate([m] + ms), data).BadType? <==> Decode(Aggregate(ms), rest).BadType?)
    ensures !Decode(elem, data).Ok? && count > 0 ==>
              && (Decode(elem, data).Short? <==> Decode(ArrayT(elem, count), data).Short?)
              && (Decode(elem, data).BadType? <==> Decode(ArrayT(elem, count), data).BadType?)
    ensures Decode(elem, data).Ok? && count > 0 ==>
              var rest := Decode(elem, data).rest;
              && (Decode(ArrayT(elem, count), data).Short? <==> Decode(ArrayT(elem, count - 1), rest).Short?)
              && (Decode(ArrayT(elem, count), data).BadType? <==> Decode(ArrayT(elem, count - 1), rest).BadType?)
  {
    assert ([m] + ms)[1..] == ms;
  }

  // ---- The decoder on a cursor -----------------------------------------------

  /** The bytes a byte-aligned cursor has left. */
  ghost function Rest(c: BitCursor): seq<byte>
    requires c.Valid()
    reads c
  {
    c.buf[c.bytePos..]
  }

  datatype Result = Decoded(value: Value) | ShortPayload | TypeError | InsideByte

  ghost predicate Agrees(r: Result, d: Outcome<Value>, rest: seq<byte>) {
    match d
    case Ok(v, more) => r == Decoded(v) && rest == more
    case Short => r == ShortPayload
    case BadType => r == TypeError
  }

  /** What decoding a type does first: it asks for bytes, it raises, or it ends
      without either. */
  datatype Touch = Asks | Raises | Ends

  function Touched(t: PType): Touch
    decreases t, 0
  {
    match t
    case TokenString => Raises
    case DynamicBinary => Raises
    case ArrayT(elem, count) => if count == 0 then Ends else Touched(elem)
    case Aggregate(ms) => TouchedFirst(ms)
    case _ => Asks
  }

  function TouchedFirst(ms: seq<Member>): Touch
    decreases ms
  {
    if ms == [] then Ends
    else if Touched(ms[0].ptype).Ends? then TouchedFirst(ms[1..]) else Touched(ms[0].ptype)
  }

  /** What asks for nothing takes nothing. */
  lemma {:induction false} EndsTakesNothing(t: PType, data: seq<byte>)
    requires Touched(t).Ends?
    ensures Decode(t, data).Ok? && Decode(t, data).rest == data
    decreases t, 0
  {
    match t
    case ArrayT(elem, count) =>
      if count > 0 {
        ListTakesNothing(elem, count, data);
      }
    case Aggregate(ms) => MembersTakeNothing(ms, data);
  }

  lemma {:induction false} ListTakesNothing(elem: PType, count: nat, data: seq<byte>)
    requires Touched(elem).Ends?
    ensures DecodeList(elem, count, data).Ok? && DecodeList(elem, count, data).rest == data
    decreases elem, 1, count
  {
    if count > 0 {
      EndsTakesNothing(elem, data);
      ListTakesNothing(elem, count - 1, data);
    }
  }

  lemma {:induction false} MembersTakeNothing(ms: seq<Member>, data: seq<byte>)
    requires TouchedFirst(ms).Ends?
    ensures DecodeMembers(ms, data).Ok? && DecodeMembers(ms, data).rest == data
    decreases ms, 0
  {
    if ms != [] {
      EndsTakesNothing(ms[0].ptype, data);
      MembersTakeNothing(ms[1..], data);
    }
  }

  /** On a cursor that stands inside a byte the first read raises. */
  ghost predicate Meets(r: Result, touch: Touch, d: Outcome<Value>, inside: bool, rest: seq<byte>) {
    if !inside || touch.Ends? then Agrees(r, d, rest)
    else r == if touch.Asks? then InsideByte else TypeError
  }

  method DecodeBinary(t: PType, c: BitCursor) returns (r: Result)
    requires c.Valid()
    modifies c
    ensures c.Valid() && c.bitRemainderSize == old(c.bitRemainderSize)
    ensures c.bitRemainderSize > 0 ==> c.bytePos == old(c.bytePos)
    ensures Meets(r, Touched(t), Decode(t, old(Rest(c))), c.bitRemainderSize > 0, Rest(c))
    decreases t, 0
  {
    hide BytesToBits, LsbValue, DecodeList, DecodeMembers;
    match t
    case IntT(w) => r := ReadInt(w, c);
    case EnumT(w) => r := ReadInt(w, c);
    case PackedAggregate(w, _) => r := ReadInt(w, c);
    case FixedString(n) =>
      r := ReadFixed(n, c);
      if r.Decoded? {
        ghost var buf := r.value.data;
        r := Decoded(TextV(r.value.data[..FindNul(r.value.data)]));
        assert old(Rest(c))[..FindNul(buf)] == buf[..FindNul(buf)];
      }
    case NullTerminated => r := ReadToNul(c);
    case TokenString => r := TypeError;
    case FixedBinary(n) => r := ReadFixed(n, c);
    case DynamicBinary => r := TypeError;
    case ArrayT(elem, count) => r := DecodeArray(elem, count, c);
    case Aggregate(ms) => r := DecodeFields(ms, c);
  }

  /** `read_bytes`, in terms of what is left. */
  method Fetch(n: nat, c: BitCursor) returns (got: Read<seq<byte>>)
    requires c.Valid()
    modifies c
    ensures c.Valid() && c.bitRemainderSize == old(c.bitRemainderSize)
    ensures got.Misaligned? <==> c.bitRemainderSize > 0
    ensures c.bitRemainderSize > 0 ==> c.bytePos == old(c.bytePos)
    ensures c.bitRemainderSize == 0 ==> (got.Got? <==> n <= |old(Rest(c))|)
    ensures got.Got? ==> got.value == old(Rest(c))[..n] && Rest(c) == old(Rest(c))[n..]
  {
    got := c.ReadBytes(n);
  }

  function Failure<T>(got: Read<T>): Result
    requires !got.Got?
  {
    if got.Misaligned? then InsideByte else ShortPayload
  }

  method ReadFixed(n: nat, c: BitCursor) returns (r: Result)
    requires c.Valid()
    modifies c
    ensures c.Valid() && c.bitRemainderSize == old(c.bitRemainderSize)
    ensures c.bitRemainderSize > 0 ==> c.bytePos == old(c.bytePos)
    ensures Meets(r, Asks, Decode(FixedBinary(n), old(Rest(c))), c.bitRemainderSize > 0, Rest(c))
  {
    var got := Fetch(n, c);
    r := if got.Got? then Decoded(BytesV(got.value)) else Failure(got);
  }

  method ReadInt(w: Wire, c: BitCursor) returns (r: Result)
    requires c.Valid()
    modifies c
    ensures c.Valid() && c.bitRemainderSize == old(c.bitRemainderSize)
    ensures c.bitRemainderSize > 0 ==> c.bytePos == old(c.bytePos)
    ensures Meets(r, Asks, DecodeInt(w, old(Rest(c))), c.bitRemainderSize > 0, Rest(c))
  {
    var got := Fetch(w.size, c);
    r := if got.Got? then Decoded(IntV(FromBytes(w, got.value))) else Failure(got);
  }

  method ReadToNul(c: BitCursor) returns (r: Result)
    requires c.Valid()
    modifies c
    ensures c.Valid() && c.bitRemainderSize == old(c.bitRemainderSize)
    ensures c.bitRemainderSize > 0 ==> c.bytePos == old(c.bytePos)
    ensures Meets(r, Asks, Decode(NullTerminated, old(Rest(c))), c.bitRemainderSize > 0, Rest(c))
  {
    hide Decode, Rest;
    var acc: seq<byte> := [];
    ghost var start := Rest(c);
    while true
      invariant c.Valid() && c.bitRemainderSize == old(c.bitRemainderSize)
      invariant c.bitRemainderSize > 0 ==> c.bytePos == old(c.bytePos)
      invariant 0 !in acc && start == acc + Rest(c)
      decreases |Rest(c)|
    {
      var one := Fetch(1, c);
      if !one.Got? {
        if one.Underrun? {
          assert start == acc;
          NulMissing(acc);
        }
        return Failure(one);
      }
      var b := one.value[0];
      assert one.value == [b];
      ConcatAssociates(acc, [b], Rest(c));
      if b == 0 {
        assert start == acc + [0] + Rest(c);
        NulFound(acc, Rest(c));
        return Decoded(TextV(acc));
      }
      acc := acc + [b];
    }
  }

  lemma NulMissing(text: seq<byte>)
    requires 0 !in text
    ensures Decode(NullTerminated, text) == Short
  {
    FirstNul(text, []);
  }

  lemma NulFound(text: seq<byte>, rest: seq<byte>)
    requires 0 !in text
    ensures Decode(NullTerminated, text + [0] + rest) == Ok(TextV(text), rest)
  {
    FirstNul(text, rest);
    var d := text + [0] + rest;
    assert d[..|text|] == text && d[|text| + 1..] == rest;
  }

  function Prepend(vs: seq<Value>, o: Outcome<seq<Value>>): Outcome<seq<Value>> {
    if o.Ok? then Ok(vs + o.value, o.rest) else o
  }

  method DecodeArray(elem: PType, count: nat, c: BitCursor) returns (r: Result)
    requires c.Valid()
    modifies c
    ensures c.Valid() && c.bitRemainderSize == old(c.bitRemainderSize)
    ensures c.bitRemainderSize > 0 ==> c.bytePos == old(c.bytePos)
    ensures Meets(r, Touched(ArrayT(elem, count)), Decode(ArrayT(elem, count), old(Rest(c))), c.bitRemainderSize > 0, Rest(c))
    decreases elem, 1
  {
    hide Decode, DecodeList, Touched, BytesToBits, LsbValue, Rest;
    var vs: seq<Value> := [];
    ghost var start := Rest(c);
    ArrayUnfolds(elem, count, start);
    PrependNothing(DecodeList(elem, count, start));
    for i := 0 to count
      invariant c.Valid() && c.bitRemainderSize == old(c.bitRemainderSize)
      invariant c.bitRemainderSize > 0 ==> c.bytePos == old(c.bytePos)
      invariant DecodeList(elem, count, start) == Prepend(vs, DecodeList(elem, count - i, Rest(c)))
      invariant c.bitRemainderSize > 0 && i > 0 ==> Touched(elem).Ends?
    {
      ListUnfolds(elem, count - i, Rest(c));
      r := DecodeBinary(elem, c);
      if !r.Decoded? {
        return;
      }
      PrependTwice(vs, r.value, DecodeList(elem, count - i - 1, Rest(c)));
      vs := vs + [r.value];
    }
    ListUnfolds(elem, 0, Rest(c));
    assert vs + [] == vs;
    r := Decoded(ListV(vs));
  }

  lemma ArrayUnfolds(elem: PType, count: nat, data: seq<byte>)
    ensures Touched(ArrayT(elem, count)) == if count == 0 then Ends else Touched(elem)
    ensures var vs := DecodeList(elem, count, data);
            Decode(ArrayT(elem, count), data) ==
            match vs { case Ok(vs, rest) => Ok(ListV(vs), rest) case Short => Short case BadType => BadType }
  {
  }

  lemma ListUnfolds(elem: PType, count: nat, data: seq<byte>)
    ensures count == 0 ==> DecodeList(elem, count, data) == Ok([], data)
    ensures count > 0 ==>
              var d := Decode(elem, data);
              DecodeList(elem, count, data) ==
              match d {
                case Short => Short
                case BadType => BadType
                case Ok(v, more) => Prepend([v], DecodeList(elem, count - 1, more))
              }
  {
    hide Decode;
  }

  lemma PrependNothing(o: Outcome<seq<Value>>)
    ensures Prepend([], o) == o
  {
    if o.Ok? {
      assert [] + o.value == o.value;
    }
  }

  lemma PrependTwice(vs: seq<Value>, v: Value, o: Outcome<seq<Value>>)
    ensures Prepend(vs, Prepend([v], o)) == Prepend(vs + [v], o)
  {
    if o.Ok? {
      assert vs + ([v] + o.value) == vs + [v] + o.value;
    }
  }

  function Merge(fields: map<string, Value>, o: Outcome<map<string, Value>>): Outcome<map<string, Value>> {
    if o.Ok? then Ok(fields + o.value, o.rest) else o
  }

  method DecodeFields(ms: seq<Member>, c: BitCursor) returns (r: Result)
    requires c.Valid()
    modifies c
    ensures c.Valid() && c.bitRemainderSize == old(c.bitRemainderSize)
    ensures c.bitRemainderSize > 0 ==> c.bytePos == old(c.bytePos)
    ensures Meets(r, TouchedFirst(ms), Decode(Aggregate(ms), old(Rest(c))), c.bitRemainderSize > 0, Rest(c))
    decreases ms, 0
  {
    var fields: map<string, Value> := map[];
    ghost var start := Rest(c);
    MergeNothing(DecodeMembers(ms, start));
    assert ms[0..] == ms;
    for i := 0 to |ms|
      invariant c.Valid() && c.bitRemainderSize == old(c.bitRemainderSize)
      invariant c.bitRemainderSize > 0 ==> c.bytePos == old(c.bytePos)
      invariant DecodeMembers(ms, start) == Merge(fields, DecodeMembers(ms[i..], Rest(c)))
      invariant c.bitRemainderSize > 0 ==> TouchedFirst(ms) == TouchedFirst(ms[i..])
    {
      assert ms[i..][0] == ms[i] && ms[i..][1..] == ms[i + 1..];
      if Touched(ms[i].ptype).Ends? {
        EndsTakesNothing(ms[i].ptype, Rest(c));
      }
      r := DecodeBinary(ms[i].ptype, c);
      if !r.Decoded? {
        return;
      }
      MergeTwice(fields, ms[i].name, r.value, DecodeMembers(ms[i + 1..], Rest(c)));
      fields := fields[ms[i].name := r.value];
    }
    assert ms[|ms|..] == [] && fields + map[] == fields;
    r := Decoded(DictV(fields));
  }

  lemma MergeNothing(o: Outcome<map<string, Value>>)
    ensures Merge(map[], o) == o
  {
    if o.Ok? {
      assert map[] + o.value == o.value;
    }
  }

  lemma MergeTwice(fields: map<string, Value>, name: string, v: Value, o: Outcome<map<string, Value>>)
    ensures Merge(fields, Merge(map[name := v], o)) == Merge(fields[name := v], o)
  {
    if o.Ok? {
      assert fields + (map[name := v] + o.value) == fields[name := v] + o.value;
    }
  }
}

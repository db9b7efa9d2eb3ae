/** The MAVERIC command packet: `MaverPacketCodec` of
    `mav_gss_lib/missions/maveric/codec.py` and the parsing of received packets in
    `mav_gss_lib/missions/maveric/packets.py`. CRC-16 is any function to 16-bit words. */
module MaverCodecs {
  import opened Options
  import opened Bitwise
  import opened ByteOrders
  import opened Csps

  type Word16 = x: int | 0 <= x < 0x1_0000

  type Crc16 = seq<byte> -> Word16

  const INNER_HDR_LEN: nat := 6

  // ---- Name tables --------------------------------------------------------------

  /** A configured value as the constructor sees it. `Whole` equals the integer it
      converts to (integers, booleans, integral floats); `Inexact` converts to one
      without equalling it (`"1"`, `1.5`); the others raise. */
  datatype RawId = Whole(n: int) | Inexact(n: int) | Unconvertible

  datatype Entry = Entry(name: string, raw: RawId)

  /** Both directions of a name table. */
  datatype Table = Table(byName: map<string, byte>, byId: map<byte, string>)

  datatype TableError =
    | NotANumber(name: string)
    | OutOfRange(name: string, id: int)
    | Duplicate(nameA: string, nameB: string, id: int)

  datatype TableResult = Built(table: Table) | Refused(error: TableError)

  predicate InRange(id: int) {
    0 <= id <= 0xFF
  }

  /** `int(value)`; no byte for one that raises. */
  function IdOf(raw: RawId): int {
    if raw.Unconvertible? then -1 else raw.n
  }

  predicate Converts(raw: RawId) {
    InRange(IdOf(raw))
  }

  /** Ids convert to bytes, and none equals the converted id of an earlier one. */
  predicate Acceptable(entries: seq<Entry>) {
    && (forall i :: 0 <= i < |entries| ==> Converts(entries[i].raw))
    && (forall i, j :: 0 <= i < j < |entries| && entries[j].raw.Whole? ==> IdOf(entries[i].raw) != IdOf(entries[j].raw))
  }

  /** No two names share a converted id. */
  predicate DistinctIds(entries: seq<Entry>) {
    forall i, j :: 0 <= i < j < |entries| ==> IdOf(entries[i].raw) != IdOf(entries[j].raw)
  }

  /** Keys of the configured mapping. */
  predicate DistinctNames(entries: seq<Entry>) {
    forall i, j :: 0 <= i < j < |entries| ==> entries[i].name != entries[j].name
  }

  /** No later entry converts to the same id. */
  predicate LastOfId(entries: seq<Entry>, i: nat)
    requires i < |entries|
  {
    forall k :: i < k < |entries| ==> IdOf(entries[k].raw) != IdOf(entries[i].raw)
  }

  predicate TellsIds(byName: map<string, byte>, entries: seq<Entry>) {
    && (forall i :: 0 <= i < |entries| ==> entries[i].name in byName && byName[entries[i].name] == IdOf(entries[i].raw))
    && (forall name :: name in byName ==> exists i :: 0 <= i < |entries| && entries[i].name == name)
  }

  predicate TellsNames(byId: map<byte, string>, entries: seq<Entry>) {
    && (forall i :: 0 <= i < |entries| && LastOfId(entries, i) ==>
          IdOf(entries[i].raw) in byId && byId[IdOf(entries[i].raw)] == entries[i].name)
    && (forall id :: id in byId ==> exists i :: 0 <= i < |entries| && IdOf(entries[i].raw) == id && LastOfId(entries, i))
  }

  /** Every name has its id, and every id the last name that was given it. */
  predicate Tabulates(t: Table, entries: seq<Entry>) {
    TellsIds(t.byName, entries) && TellsNames(t.byId, entries)
  }

  /** Each direction undoes the other. */
  predicate Inverse(t: Table) {
    && (forall name :: name in t.byName ==> t.byName[name] in t.byId && t.byId[t.byName[name]] == name)
    && (forall id :: id in t.byId ==> t.byId[id] in t.byName && t.byName[t.byId[id]] == id)
  }

  /** The error is that of the first entry that cannot be added; a duplicate is
      reported with the last name that has the id. */
  predicate FirstError(entries: seq<Entry>, e: TableError, i: nat) {
    && i < |entries| && Acceptable(entries[..i])
    && var bad := entries[i];
       if bad.raw.Unconvertible? then e == NotANumber(bad.name)
       else if !InRange(IdOf(bad.raw)) then e == OutOfRange(bad.name, IdOf(bad.raw))
       else
         && bad.raw.Whole?
         && exists j :: 0 <= j < i && IdOf(entries[j].raw) == IdOf(bad.raw) && LastOfId(entries[..i], j)
                        && e == Duplicate(entries[j].name, bad.name, IdOf(bad.raw))
  }

  lemma FirstErrorTells(entries: seq<Entry>, e: TableError, i: nat)
    requires FirstError(entries, e, i)
    ensures i < |entries| && Acceptable(entries[..i]) && !Acceptable(entries[..i + 1])
    ensures match e
            case NotANumber(name) => name == entries[i].name && entries[i].raw.Unconvertible?
            case OutOfRange(name, id) =>
              name == entries[i].name && !entries[i].raw.Unconvertible? && id == entries[i].raw.n && (id < 0 || id > 255)
            case Duplicate(nameA, nameB, id) =>
              && nameB == entries[i].name && entries[i].raw == Whole(id)
              && exists j :: 0 <= j < i && entries[j].name == nameA && IdOf(entries[j].raw) == id
                             && forall k :: j < k < i ==> IdOf(entries[k].raw) != id
  {
    var prefix, longer := entries[..i], entries[..i + 1];
    assert longer[i] == entries[i];
    if e.Duplicate? {
      var j :| 0 <= j < i && IdOf(entries[j].raw) == IdOf(entries[i].raw) && LastOfId(entries[..i], j)
               && e == Duplicate(entries[j].name, entries[i].name, IdOf(entries[i].raw));
      assert longer[j] == entries[j];
      forall k | j < k < i ensures IdOf(entries[k].raw) != e.id {
        assert prefix[k] == entries[k] && prefix[j] == entries[j];
      }
    }
  }

  /** One of the two loops of the constructor. */
  method BuildTable(entries: seq<Entry>) returns (r: TableResult)
    requires DistinctNames(entries)
    ensures r.Built? <==> Acceptable(entries)
    ensures r.Built? ==> Tabulates(r.table, entries) && (Inverse(r.table) <==> DistinctIds(entries))
    ensures r.Refused? ==> exists i :: FirstError(entries, r.error, i)
  {
    hide Acceptable, Tabulates, FirstError, DistinctNames, Inverse, DistinctIds, LastOfId;
    var byName: map<string, byte>, byId: map<byte, string> := map[], map[];
    NoEntries();
    for i := 0 to |entries|
      invariant Acceptable(entries[..i])
      invariant Tabulates(Table(byName, byId), entries[..i])
    {
      var e := entries[i];
      if e.raw.Unconvertible? {
        NoByteIsError(entries, i);
        return Refused(NotANumber(e.name));
      }
      var id := e.raw.n;
      if !(0 <= id <= 0xFF) {
        NoByteIsError(entries, i);
        return Refused(OutOfRange(e.name, id));
      }
      if e.raw.Whole? && id in byId {
        DuplicateIsError(entries, i, Table(byName, byId));
        return Refused(Duplicate(byId[id], e.name, id));
      }
      NamesOfPrefix(entries, i);
      TabulatesOneMore(Table(byName, byId), entries[..i], e);
      byName := byName[e.name := id];
      byId := byId[id := e.name];
    }
    assert entries[..|entries|] == entries;
    InverseWhenDistinct(Table(byName, byId), entries);
    r := Built(Table(byName, byId));
  }

  lemma NoEntries()
    ensures Acceptable([]) && Tabulates(Table(map[], map[]), [])
  {
  }

  lemma NoByteIsError(entries: seq<Entry>, i: nat)
    requires i < |entries| && Acceptable(entries[..i]) && !Converts(entries[i].raw)
    ensures var e := entries[i];
            FirstError(entries, if e.raw.Unconvertible? then NotANumber(e.name) else OutOfRange(e.name, e.raw.n), i)
    ensures !Acceptable(entries)
  {
  }

  lemma NamesOfPrefix(entries: seq<Entry>, i: nat)
    requires DistinctNames(entries) && i < |entries|
    ensures entries[..i + 1] == entries[..i] + [entries[i]] && DistinctNames(entries[..i + 1])
  {
  }

  lemma DuplicateIsError(entries: seq<Entry>, i: nat, t: Table)
    requires i < |entries| && Acceptable(entries[..i]) && Tabulates(t, entries[..i])
    requires entries[i].raw.Whole? && InRange(IdOf(entries[i].raw)) && IdOf(entries[i].raw) in t.byId
    ensures FirstError(entries, Duplicate(t.byId[IdOf(entries[i].raw)], entries[i].name, IdOf(entries[i].raw)), i)
    ensures !Acceptable(entries)
  {
    var before, id := entries[..i], IdOf(entries[i].raw);
    var j :| 0 <= j < i && IdOf(before[j].raw) == id && LastOfId(before, j);
    assert entries[j] == before[j];
  }

  lemma TabulatesOneMore(t: Table, entries: seq<Entry>, e: Entry)
    requires Acceptable(entries) && Tabulates(t, entries)
    requires DistinctNames(entries + [e]) && Converts(e.raw) && (e.raw.Whole? ==> IdOf(e.raw) !in t.byId)
    ensures Acceptable(entries + [e])
    ensures Tabulates(Table(t.byName[e.name := IdOf(e.raw)], t.byId[IdOf(e.raw) := e.name]), entries + [e])
  {
    StaysAcceptable(t, entries, e);
    hide Acceptable, LastOfId, Converts, IdOf, DistinctNames, TellsIds, TellsNames;
    TellsIdsOneMore(t.byName, entries, e);
    TellsNamesOneMore(t.byId, entries, e);
  }

  lemma TellsIdsOneMore(byName: map<string, byte>, entries: seq<Entry>, e: Entry)
    requires TellsIds(byName, entries) && DistinctNames(entries + [e]) && Converts(e.raw)
    ensures TellsIds(byName[e.name := IdOf(e.raw)], entries + [e])
  {
    hide IdOf;
    var all, n := entries + [e], |entries|;
    assert all[n] == e;
    forall i | 0 <= i < n ensures all[i] == entries[i] && entries[i].name != e.name {
      assert all[i].name != all[n].name;
    }
  }

  lemma TellsNamesOneMore(byId: map<byte, string>, entries: seq<Entry>, e: Entry)
    requires TellsNames(byId, entries) && Converts(e.raw)
    ensures TellsNames(byId[IdOf(e.raw) := e.name], entries + [e])
  {
    hide LastOfId, IdOf;
    var all, n := entries + [e], |entries|;
    LastAfter(entries, e);
    assert all[n] == e && forall i :: 0 <= i < n ==> all[i] == entries[i];
  }

  lemma LastAfter(entries: seq<Entry>, e: Entry)
    ensures forall i :: 0 <= i < |entries| ==>
              (LastOfId(entries + [e], i) <==> LastOfId(entries, i) && IdOf(entries[i].raw) != IdOf(e.raw))
    ensures LastOfId(entries + [e], |entries|)
  {
    var all, n := entries + [e], |entries|;
    assert all[n] == e && forall k :: 0 <= k < n ==> all[k] == entries[k];
  }

  lemma StaysAcceptable(t: Table, entries: seq<Entry>, e: Entry)
    requires Acceptable(entries) && Tabulates(t, entries)
    requires Converts(e.raw) && (e.raw.Whole? ==> IdOf(e.raw) !in t.byId)
    ensures Acceptable(entries + [e])
  {
    hide LastOfId, Converts, IdOf, TellsIds;
    forall i | 0 <= i < |entries| && e.raw.Whole? ensures IdOf(entries[i].raw) != IdOf(e.raw) {
      var last := LastSharing(entries, i, |entries|);
    }
  }

  /** Some entry is the last with the id of a given one. */
  lemma {:induction false} LastSharing(entries: seq<Entry>, i: nat, n: nat) returns (last: nat)
    requires i < n == |entries|
    ensures i <= last < n && IdOf(entries[last].raw) == IdOf(entries[i].raw) && LastOfId(entries, last)
    decreases n - i
  {
    if LastOfId(entries, i) {
      last := i;
    } else {
      var k :| i < k < n && IdOf(entries[k].raw) == IdOf(entries[i].raw);
      last := LastSharing(entries, k, n);
    }
  }

  /** An accepted table is inverse exactly when the converted ids are distinct. */
  lemma InverseWhenDistinct(t: Table, entries: seq<Entry>)
    requires Acceptable(entries) && Tabulates(t, entries) && DistinctNames(entries)
    ensures Inverse(t) <==> DistinctIds(entries)
  {
    if DistinctIds(entries) {
      assert forall i :: 0 <= i < |entries| ==> LastOfId(entries, i);
    } else {
      var i, j :| 0 <= i < j < |entries| && IdOf(entries[i].raw) == IdOf(entries[j].raw);
      assert t.byName[entries[i].name] == t.byName[entries[j].name];
    }
  }

  /** `{"A": 1, "B": "1"}` is accepted, and byte 1 then has the name of B alone. */
  lemma SharedIdIsAccepted(a: string, b: string, id: byte, t: Table)
    requires a != b
    ensures var entries := [Entry(a, Whole(id)), Entry(b, Inexact(id))];
            && Acceptable(entries) && DistinctNames(entries)
            && (Tabulates(t, entries) ==>
                  && !Inverse(t)
                  && Resolves(t, Name(a)) && LookupOrPass(t, Resolved(t, Name(a))) == Name(b))
  {
    var entries := [Entry(a, Whole(id)), Entry(b, Inexact(id))];
    assert entries[0].name == a && entries[1].name == b && IdOf(entries[0].raw) == IdOf(entries[1].raw);
    assert LastOfId(entries, 1);
    if Tabulates(t, entries) {
      InverseWhenDistinct(t, entries);
    }
  }

  /** A name or a number, as an operator or a table gives it. */
  datatype Field = Name(name: string) | Id(id: int)

  predicate Resolves(t: Table, f: Field) {
    if f.Name? then f.name in t.byName else InRange(f.id)
  }

  function Resolved(t: Table, f: Field): byte
    requires Resolves(t, f)
  {
    if f.Name? then t.byName[f.name] else f.id
  }

  function LookupOrPass(t: Table, id: byte): Field {
    if id in t.byId then Name(t.byId[id]) else Id(id)
  }

  /** A field as a receiver shows it: the name if there is one. */
  function Shown(t: Table, f: Field): Field {
    if f.Name? then f else if InRange(f.id) && f.id in t.byId then Name(t.byId[f.id]) else f
  }

  lemma ResolvedIsShown(t: Table, f: Field)
    requires Inverse(t) && Resolves(t, f)
    ensures LookupOrPass(t, Resolved(t, f)) == Shown(t, f)
  {
  }

  /** Over an accepted table, every field is shown by its own name if and only if the
      converted ids are distinct. */
  lemma NamesComeBack(t: Table, entries: seq<Entry>)
    requires Acceptable(entries) && Tabulates(t, entries) && DistinctNames(entries)
    ensures (forall f :: Resolves(t, f) ==> LookupOrPass(t, Resolved(t, f)) == Shown(t, f)) <==> DistinctIds(entries)
  {
    InverseWhenDistinct(t, entries);
    if !DistinctIds(entries) {
      var i, j :| 0 <= i < j < |entries| && IdOf(entries[i].raw) == IdOf(entries[j].raw);
      var f, g := Name(entries[i].name), Name(entries[j].name);
      assert Resolves(t, f) && Resolves(t, g) && Resolved(t, f) == Resolved(t, g);
      assert Shown(t, f) != Shown(t, g);
    } else {
      forall f | Resolves(t, f) ensures LookupOrPass(t, Resolved(t, f)) == Shown(t, f) {
        ResolvedIsShown(t, f);
      }
    }
  }

  // ---- The codec --------------------------------------------------------------------

  datatype Codec = Codec(nodes: Table, ptypes: Table, gsNode: Option<string>)

  predicate WellFormed(codec: Codec) {
    && Inverse(codec.nodes) && Inverse(codec.ptypes)
    && (codec.gsNode.Some? ==> codec.gsNode.value in codec.nodes.byName)
  }

  datatype CodecError =
    | BadTable(error: TableError)
    | UnknownNode(field: string, value: Field)
    | UnknownPtype(value: Field)
    | MissingField(field: string)
    | CmdIdTooLong(length: nat)
    | ArgsTooLong(length: nat)
    | CmdIdNotAscii

  datatype Result<T> = Ok(value: T) | Err(error: CodecError)

  method MakeCodec(nodes: seq<Entry>, ptypes: seq<Entry>, gsNode: Option<string>) returns (r: Result<Codec>)
    requires DistinctNames(nodes) && DistinctNames(ptypes)
    ensures r.Ok? <==> && Acceptable(nodes) && Acceptable(ptypes)
                       && (gsNode.Some? ==> exists i :: 0 <= i < |nodes| && nodes[i].name == gsNode.value)
    ensures r.Ok? ==> Tabulates(r.value.nodes, nodes) && Tabulates(r.value.ptypes, ptypes)
                      && r.value.gsNode == gsNode
    ensures r.Ok? ==> (WellFormed(r.value) <==> DistinctIds(nodes) && DistinctIds(ptypes))
  {
    hide DistinctNames, Inverse, DistinctIds, LastOfId;
    var n := BuildTable(nodes);
    if n.Refused? {
      return Err(BadTable(n.error));
    }
    var p := BuildTable(ptypes);
    if p.Refused? {
      return Err(BadTable(p.error));
    }
    if gsNode.Some? && gsNode.value !in n.table.byName {
      return Err(UnknownNode("gs_node", Name(gsNode.value)));
    }
    r := Ok(Codec(n.table, p.table, gsNode));
  }

  // ---- Headers ------------------------------------------------------------------------

  datatype CommandHeader = CommandHeader(id: string, fields: map<string, Field>)

  const REQUIRED: seq<string> := ["src", "dest", "echo", "ptype"]

  /** The first required field that is not there. */
  function FirstMissing(fields: map<string, Field>): Option<string> {
    if "src" !in fields then Some("src") else if "dest" !in fields then Some("dest")
    else if "echo" !in fields then Some("echo") else if "ptype" !in fields then Some("ptype") else None
  }

  method CheckRequired(fields: map<string, Field>) returns (missing: Option<string>)
    ensures missing == FirstMissing(fields)
  {
    for i := 0 to |REQUIRED|
      invariant forall j :: 0 <= j < i ==> REQUIRED[j] in fields
    {
      if REQUIRED[i] !in fields {
        assert i > 0 ==> REQUIRED[0] in fields;
        assert i > 1 ==> REQUIRED[1] in fields;
        assert i > 2 ==> REQUIRED[2] in fields;
        return Some(REQUIRED[i]);
      }
    }
    assert REQUIRED[0] in fields && REQUIRED[1] in fields && REQUIRED[2] in fields && REQUIRED[3] in fields;
    missing := None;
  }

  /** The ground station is the source of a command that names none. */
  function Completed(codec: Codec, h: CommandHeader): CommandHeader {
    if "src" !in h.fields && codec.gsNode.Some? then h.(fields := h.fields["src" := Name(codec.gsNode.value)]) else h
  }

  method CompleteHeader(codec: Codec, h: CommandHeader) returns (r: Result<CommandHeader>)
    ensures var done := Completed(codec, h);
            r == if FirstMissing(done.fields).Some? then Err(MissingField(FirstMissing(done.fields).value)) else Ok(done)
  {
    var fields := h.fields;
    if "src" !in fields && codec.gsNode.Some? {
      fields := fields["src" := Name(codec.gsNode.value)];
    }
    var missing := CheckRequired(fields);
    r := if missing.Some? then Err(MissingField(missing.value)) else Ok(CommandHeader(h.id, fields));
  }

  predicate AsciiId(id: string) {
    forall i :: 0 <= i < |id| ==> id[i] as int < 128
  }

  function AsciiBytes(id: string): (data: seq<byte>)
    requires AsciiId(id)
    ensures |data| == |id| && forall i :: 0 <= i < |id| ==> data[i] == id[i] as int
  {
    seq(|id|, i requires 0 <= i < |id| => id[i] as int)
  }

  /** What `wrap` refuses, in its order. */
  function Refusal(codec: Codec, h: CommandHeader, args: seq<byte>): Option<CodecError> {
    if FirstMissing(h.fields).Some? then Some(MissingField(FirstMissing(h.fields).value))
    else if !Resolves(codec.nodes, h.fields["src"]) then Some(UnknownNode("src", h.fields["src"]))
    else if !Resolves(codec.nodes, h.fields["dest"]) then Some(UnknownNode("dest", h.fields["dest"]))
    else if !Resolves(codec.nodes, h.fields["echo"]) then Some(UnknownNode("echo", h.fields["echo"]))
    else if !Resolves(codec.ptypes, h.fields["ptype"]) then Some(UnknownPtype(h.fields["ptype"]))
    else if |h.id| > 0xFF then Some(CmdIdTooLong(|h.id|))
    else if |args| > 0xFF then Some(ArgsTooLong(|args|))
    else if !AsciiId(h.id) then Some(CmdIdNotAscii)
    else None
  }

  /** A command is wrapped exactly when its four routing fields are there, each a name of
      its table or a byte, its id is ASCII and neither id nor arguments exceed 255. */
  lemma WrappedExactly(codec: Codec, h: CommandHeader, args: seq<byte>)
    ensures Refusal(codec, h, args).None? <==>
            && (forall f :: f in {"src", "dest", "echo", "ptype"} ==> f in h.fields)
            && (forall f :: f in {"src", "dest", "echo"} ==>
                  match h.fields[f] case Name(name) => name in codec.nodes.byName case Id(id) => 0 <= id <= 255)
            && (match h.fields["ptype"] case Name(name) => name in codec.ptypes.byName case Id(id) => 0 <= id <= 255)
            && |h.id| <= 255 && |args| <= 255
            && forall i :: 0 <= i < |h.id| ==> (h.id[i] as int) <= 127
  {
    hide Resolves;
    FourFields(h.fields);
    ResolvesTells(codec.nodes, if "src" in h.fields then h.fields["src"] else Id(0));
    ResolvesTells(codec.nodes, if "dest" in h.fields then h.fields["dest"] else Id(0));
    ResolvesTells(codec.nodes, if "echo" in h.fields then h.fields["echo"] else Id(0));
    ResolvesTells(codec.ptypes, if "ptype" in h.fields then h.fields["ptype"] else Id(0));
  }

  lemma ResolvesTells(t: Table, f: Field)
    ensures Resolves(t, f) <==> match f case Name(name) => name in t.byName case Id(id) => 0 <= id <= 255
  {
  }

  lemma FourFields(fields: map<string, Field>)
    ensures FirstMissing(fields).None? <==> forall f :: f in {"src", "dest", "echo", "ptype"} ==> f in fields
  {
    assert "src" in {"src", "dest", "echo", "ptype"};
  }

  /** The error names what is wrong, and everything checked before it is right. */
  lemma RefusalNamesFirst(codec: Codec, h: CommandHeader, args: seq<byte>)
    requires Refusal(codec, h, args).Some?
    ensures FirstMissing(h.fields).None? || Refusal(codec, h, args).value.MissingField?
    ensures match Refusal(codec, h, args).value
            case MissingField(f) =>
              && f !in h.fields && f in {"src", "dest", "echo", "ptype"}
              && (f != "src" ==> "src" in h.fields) && (f in {"echo", "ptype"} ==> "dest" in h.fields)
              && (f == "ptype" ==> "echo" in h.fields)
            case UnknownNode(f, v) =>
              && f in {"src", "dest", "echo"} && v == h.fields[f] && !Resolves(codec.nodes, v)
              && (f != "src" ==> Resolves(codec.nodes, h.fields["src"]))
              && (f == "echo" ==> Resolves(codec.nodes, h.fields["dest"]))
            case UnknownPtype(v) => Routed(codec, h) && v == h.fields["ptype"] && !Resolves(codec.ptypes, v)
            case CmdIdTooLong(n) =>
              Routed(codec, h) && Resolves(codec.ptypes, h.fields["ptype"]) && n == |h.id| && n > 255
            case ArgsTooLong(n) =>
              Routed(codec, h) && Resolves(codec.ptypes, h.fields["ptype"]) && |h.id| <= 255 && n == |args| && n > 255
            case CmdIdNotAscii =>
              && Routed(codec, h) && Resolves(codec.ptypes, h.fields["ptype"]) && |h.id| <= 255 && |args| <= 255
              && exists i :: 0 <= i < |h.id| && (h.id[i] as int) > 127
            case BadTable(_) => false
  {
    hide Resolves;
  }

  predicate Routed(codec: Codec, h: CommandHeader)
    requires FirstMissing(h.fields).None?
  {
    && Resolves(codec.nodes, h.fields["src"]) && Resolves(codec.nodes, h.fields["dest"])
    && Resolves(codec.nodes, h.fields["echo"])
  }

  /** Routing bytes, lengths, id, arguments, both closed by a zero. */
  function Body(codec: Codec, h: CommandHeader, args: seq<byte>): (body: seq<byte>)
    requires Refusal(codec, h, args).None?
    ensures |body| == INNER_HDR_LEN + |h.id| + 1 + |args| + 1
  {
    [Resolved(codec.nodes, h.fields["src"]), Resolved(codec.nodes, h.fields["dest"]),
     Resolved(codec.nodes, h.fields["echo"]), Resolved(codec.ptypes, h.fields["ptype"]),
     |h.id|, |args|] + (AsciiBytes(h.id) + ([0] + (args + [0])))
  }

  function LittlePair(crc: Word16): seq<byte> {
    [crc % 256, crc / 256]
  }

  function Wrapped(codec: Codec, crc16: Crc16, h: CommandHeader, args: seq<byte>): (packet: seq<byte>)
    requires Refusal(codec, h, args).None?
  {
    Body(codec, h, args) + LittlePair(crc16(Body(codec, h, args)))
  }

  method Wrap(codec: Codec, crc16: Crc16, h: CommandHeader, args: seq<byte>) returns (r: Result<seq<byte>>)
    ensures r == if Refusal(codec, h, args).Some? then Err(Refusal(codec, h, args).value)
                 else Ok(Wrapped(codec, crc16, h, args))
  {
    hide Resolves, Resolved;
    var missing := CheckRequired(h.fields);
    if missing.Some? {
      return Err(MissingField(missing.value));
    }
    var src, dest, echo, ptype := h.fields["src"], h.fields["dest"], h.fields["echo"], h.fields["ptype"];
    if !Resolves(codec.nodes, src) { return Err(UnknownNode("src", src)); }
    if !Resolves(codec.nodes, dest) { return Err(UnknownNode("dest", dest)); }
    if !Resolves(codec.nodes, echo) { return Err(UnknownNode("echo", echo)); }
    if !Resolves(codec.ptypes, ptype) { return Err(UnknownPtype(ptype)); }
    if |h.id| > 0xFF { return Err(CmdIdTooLong(|h.id|)); }
    if |args| > 0xFF { return Err(ArgsTooLong(|args|)); }
    if !AsciiId(h.id) { return Err(CmdIdNotAscii); }
    var head := [Resolved(codec.nodes, src), Resolved(codec.nodes, dest), Resolved(codec.nodes, echo),
                 Resolved(codec.ptypes, ptype), |h.id|, |args|];
    var body := head;
    body := body + AsciiBytes(h.id);
    body := body + [0];
    body := body + args;
    body := body + [0];
    assert body == Body(codec, h, args);
    var crc := crc16(body);
    body := body + [crc % 256, crc / 256];
    r := Ok(body);
  }

  // ---- Unwrapping ------------------------------------------------------------------------

  /** `decode("ascii", errors="replace").lower()` of one byte. */
  function LowerChar(b: byte): char {
    if 65 <= b <= 90 then (b + 32) as char else if b < 128 then b as char else '\U{FFFD}'
  }

  function LowerText(data: seq<byte>): (s: string)
    ensures |s| == |data| && forall i :: 0 <= i < |data| ==> s[i] == LowerChar(data[i])
  {
    seq(|data|, i requires 0 <= i < |data| => LowerChar(data[i]))
  }

  /** `str.lower` of an ASCII id. */
  function Lower(id: string): string
    requires AsciiId(id)
  {
    LowerText(AsciiBytes(id))
  }

  datatype RxHeader = RxHeader(cmdId: string, src: Field, dest: Field, echo: Field, ptype: Field, cspCrc32: Option<nat>)

  datatype WalkerPacket = WalkerPacket(argsRaw: seq<byte>, header: RxHeader)

  function FromPair(low: nat, high: nat): nat {
    low + 256 * high
  }

  /** Where the body ends, if the header and its lengths fit. */
  function BodyEnd(raw: seq<byte>): Option<nat> {
    if |raw| < INNER_HDR_LEN then None
    else
      var end := INNER_HDR_LEN + raw[4] + 1 + raw[5] + 1;
      if end + 2 > |raw| then None else Some(end)
  }

  /** `None` is the checksum error. */
  function Unwrap(codec: Codec, crc16: Crc16, raw: seq<byte>): Option<WalkerPacket> {
    var end := BodyEnd(raw);
    if end.None? || FromPair(raw[end.value], raw[end.value + 1]) != crc16(raw[..end.value]) then None
    else
      var idLen, argsLen := raw[4], raw[5];
      var argsStart := INNER_HDR_LEN + idLen + 1;
      var tail := raw[end.value + 2..];
      Some(WalkerPacket(
        raw[argsStart..argsStart + argsLen],
        RxHeader(LowerText(raw[INNER_HDR_LEN..INNER_HDR_LEN + idLen]),
                 LookupOrPass(codec.nodes, raw[0]), LookupOrPass(codec.nodes, raw[1]),
                 LookupOrPass(codec.nodes, raw[2]), LookupOrPass(codec.ptypes, raw[3]),
                 if |tail| == 4 then Some(BigEndian(tail)) else None)))
  }

  /** The header a receiver gives for a command: what the tables say of its bytes. */
  function ReceivedHeader(codec: Codec, h: CommandHeader, cspCrc32: Option<nat>): RxHeader
    requires FirstMissing(h.fields).None? && AsciiId(h.id)
    requires Resolves(codec.nodes, h.fields["src"]) && Resolves(codec.nodes, h.fields["dest"])
    requires Resolves(codec.nodes, h.fields["echo"]) && Resolves(codec.ptypes, h.fields["ptype"])
  {
    RxHeader(Lower(h.id), LookupOrPass(codec.nodes, Resolved(codec.nodes, h.fields["src"])),
             LookupOrPass(codec.nodes, Resolved(codec.nodes, h.fields["dest"])),
             LookupOrPass(codec.nodes, Resolved(codec.nodes, h.fields["echo"])),
             LookupOrPass(codec.ptypes, Resolved(codec.ptypes, h.fields["ptype"])), cspCrc32)
  }

  /** The same with each field under its own name, if it has one. */
  function ShownHeader(codec: Codec, h: CommandHeader, cspCrc32: Option<nat>): RxHeader
    requires FirstMissing(h.fields).None? && AsciiId(h.id)
  {
    RxHeader(Lower(h.id), Shown(codec.nodes, h.fields["src"]), Shown(codec.nodes, h.fields["dest"]),
             Shown(codec.nodes, h.fields["echo"]), Shown(codec.ptypes, h.fields["ptype"]), cspCrc32)
  }

  lemma Layout(codec: Codec, crc16: Crc16, h: CommandHeader, args: seq<byte>, tail: seq<byte>)
    requires Refusal(codec, h, args).None?
    ensures var raw := Wrapped(codec, crc16, h, args) + tail; var body := Body(codec, h, args);
            && raw[4] == |h.id| && raw[5] == |args|
            && raw[0] == Resolved(codec.nodes, h.fields["src"]) && raw[1] == Resolved(codec.nodes, h.fields["dest"])
            && raw[2] == Resolved(codec.nodes, h.fields["echo"]) && raw[3] == Resolved(codec.ptypes, h.fields["ptype"])
            && raw[..|body|] == body
            && FromPair(raw[|body|], raw[|body| + 1]) == crc16(body)
            && raw[|body| + 2..] == tail
  {
    hide Resolved, Refusal;
    var body, crc := Body(codec, h, args), crc16(Body(codec, h, args));
    var raw := body + [crc % 256, crc / 256] + tail;
    assert raw[..|body|] == body;
    assert forall i :: 0 <= i < 6 ==> raw[i] == body[i];
  }

  lemma Parts(codec: Codec, h: CommandHeader, args: seq<byte>)
    requires Refusal(codec, h, args).None?
    ensures var body := Body(codec, h, args); var n := |h.id|;
            && body[6..6 + n] == AsciiBytes(h.id)
            && body[7 + n..7 + n + |args|] == args
  {
    hide Resolved, AsciiBytes;
    var body := Body(codec, h, args);
    var head, id := body[..6], AsciiBytes(h.id);
    assert body == head + id + [0] + args + [0];
  }

  lemma SubSlice<T>(raw: seq<T>, body: seq<T>, i: nat, j: nat)
    requires i <= j <= |body| <= |raw| && raw[..|body|] == body
    ensures raw[i..j] == body[i..j]
  {
    forall k | i <= k < j ensures raw[k] == body[k] {
      assert raw[..|body|][k] == raw[k];
    }
  }

  lemma UnwrapParts(codec: Codec, crc16: Crc16, raw: seq<byte>, n: nat, m: nat, end: nat)
    requires end == INNER_HDR_LEN + n + 1 + m + 1 && end + 2 <= |raw| && raw[4] == n && raw[5] == m
    requires FromPair(raw[end], raw[end + 1]) == crc16(raw[..end])
    ensures Unwrap(codec, crc16, raw) == Some(WalkerPacket(
              raw[7 + n..7 + n + m],
              RxHeader(LowerText(raw[6..6 + n]), LookupOrPass(codec.nodes, raw[0]), LookupOrPass(codec.nodes, raw[1]),
                       LookupOrPass(codec.nodes, raw[2]), LookupOrPass(codec.ptypes, raw[3]),
                       if |raw[end + 2..]| == 4 then Some(BigEndian(raw[end + 2..])) else None)))
  {
    hide LowerText, LookupOrPass, FromPair, BigEndian;
    assert BodyEnd(raw) == Some(end);
  }

  function TailCrc(tail: seq<byte>): Option<nat> {
    if |tail| == 4 then Some(BigEndian(tail)) else None
  }

  lemma WrappedUnwraps(codec: Codec, crc16: Crc16, h: CommandHeader, args: seq<byte>, tail: seq<byte>,
                       raw: seq<byte>, body: seq<byte>)
    requires Refusal(codec, h, args).None?
    requires raw == Wrapped(codec, crc16, h, args) + tail && body == Body(codec, h, args)
    ensures Unwrap(codec, crc16, raw) == Some(WalkerPacket(
              raw[7 + |h.id|..7 + |h.id| + |args|],
              RxHeader(LowerText(raw[6..6 + |h.id|]), LookupOrPass(codec.nodes, raw[0]), LookupOrPass(codec.nodes, raw[1]),
                       LookupOrPass(codec.nodes, raw[2]), LookupOrPass(codec.ptypes, raw[3]), TailCrc(tail))))
  {
    Layout(codec, crc16, h, args, tail);
    var end := |body|;
    assert end == INNER_HDR_LEN + |h.id| + 1 + |args| + 1 && |raw| == end + 2 + |tail|;
    hide Resolved, LookupOrPass, Body, Wrapped, LowerText, Unwrap, BigEndian, FromPair, Refusal;
    UnwrapParts(codec, crc16, raw, |h.id|, |args|, end);
  }

  /** Unwrapping a wrapped command, whatever follows it, gives the arguments, the
      lower-cased id, the routing by the tables, and the tail. */
  lemma CodecReturns(codec: Codec, crc16: Crc16, h: CommandHeader, args: seq<byte>, tail: seq<byte>)
    requires Refusal(codec, h, args).None?
    ensures Unwrap(codec, crc16, Wrapped(codec, crc16, h, args) + tail)
            == Some(WalkerPacket(args, ReceivedHeader(codec, h, TailCrc(tail))))
  {
    var raw, body := Wrapped(codec, crc16, h, args) + tail, Body(codec, h, args);
    WrappedUnwraps(codec, crc16, h, args, tail, raw, body);
    Layout(codec, crc16, h, args, tail);
    Parts(codec, h, args);
    assert Lower(h.id) == LowerText(AsciiBytes(h.id));
    hide Resolved, LookupOrPass, Body, Wrapped, Resolves, LowerText, Unwrap, BigEndian, FromPair, Refusal, TailCrc;
    SubSlice(raw, body, 6, 6 + |h.id|);
    SubSlice(raw, body, 7 + |h.id|, 7 + |h.id| + |args|);
  }

  /** With tables whose ids are distinct, each routing field comes back under its own
      name where there is one. */
  lemma CodecRoundTrip(codec: Codec, crc16: Crc16, h: CommandHeader, args: seq<byte>, tail: seq<byte>)
    requires WellFormed(codec) && Refusal(codec, h, args).None?
    ensures Unwrap(codec, crc16, Wrapped(codec, crc16, h, args) + tail)
            == Some(WalkerPacket(args, ShownHeader(codec, h, TailCrc(tail))))
  {
    CodecReturns(codec, crc16, h, args, tail);
    HeaderIsShown(codec, h, args, TailCrc(tail));
    hide *;
  }

  lemma HeaderIsShown(codec: Codec, h: CommandHeader, args: seq<byte>, cspCrc32: Option<nat>)
    requires WellFormed(codec) && Refusal(codec, h, args).None?
    ensures ReceivedHeader(codec, h, cspCrc32) == ShownHeader(codec, h, cspCrc32)
  {
    ResolvedIsShown(codec.nodes, h.fields["src"]);
    ResolvedIsShown(codec.nodes, h.fields["dest"]);
    ResolvedIsShown(codec.nodes, h.fields["echo"]);
    ResolvedIsShown(codec.ptypes, h.fields["ptype"]);
    hide Resolved, Shown, LookupOrPass, LowerText;
  }

  // ---- Which byte strings are packets ------------------------------------------------------

  /** A packet is given exactly when header, lengths and checksum fit and the checksum is
      that of what stands before it, low byte first. */
  lemma GivenExactly(codec: Codec, crc16: Crc16, raw: seq<byte>)
    ensures Unwrap(codec, crc16, raw).Some? <==>
            && |raw| >= 6
            && INNER_HDR_LEN + raw[4] + 1 + raw[5] + 1 + 2 <= |raw|
            && var end := INNER_HDR_LEN + raw[4] + 1 + raw[5] + 1;
               raw[end] == crc16(raw[..end]) % 256 && raw[end + 1] == crc16(raw[..end]) / 256
  {
    if |raw| >= 6 && INNER_HDR_LEN + raw[4] + 1 + raw[5] + 1 + 2 <= |raw| {
      var end := INNER_HDR_LEN + raw[4] + 1 + raw[5] + 1;
      PairIsItsBytes(raw[end], raw[end + 1], crc16(raw[..end]));
    }
  }

  lemma PairIsItsBytes(low: byte, high: byte, crc: Word16)
    ensures FromPair(low, high) == crc <==> low == crc % 256 && high == crc / 256
  {
  }

  /** What a packet that is given says: its arguments, its lower-cased id, its routing by
      the tables, and four bytes behind the checksum as the CSP checksum. */
  lemma GivenTells(codec: Codec, crc16: Crc16, raw: seq<byte>)
    requires Unwrap(codec, crc16, raw).Some?
    ensures |raw| >= 6
    ensures var p := Unwrap(codec, crc16, raw).value; var n: int, m: int := raw[4], raw[5];
            && n + m + 10 <= |raw|
            && p.argsRaw == raw[7 + n..7 + n + m]
            && |p.header.cmdId| == n
            && (forall i :: 0 <= i < n ==>
                  p.header.cmdId[i] == if 65 <= raw[6 + i] <= 90 then (32 + raw[6 + i]) as char
                                       else if raw[6 + i] < 128 then raw[6 + i] as char else '\U{FFFD}')
            && p.header.src == (if raw[0] in codec.nodes.byId then Name(codec.nodes.byId[raw[0]]) else Id(raw[0]))
            && p.header.dest == (if raw[1] in codec.nodes.byId then Name(codec.nodes.byId[raw[1]]) else Id(raw[1]))
            && p.header.echo == (if raw[2] in codec.nodes.byId then Name(codec.nodes.byId[raw[2]]) else Id(raw[2]))
            && p.header.ptype == (if raw[3] in codec.ptypes.byId then Name(codec.ptypes.byId[raw[3]]) else Id(raw[3]))
            && (p.header.cspCrc32.Some? <==> |raw| == n + m + 14)
            && (p.header.cspCrc32.Some? ==>
                  raw[n + m + 10..] == BigDigits(p.header.cspCrc32.value, 4))
  {
    hide BigEndian, BigDigits;
    GivenExactly(codec, crc16, raw);
    var n: int, m: int := raw[4], raw[5];
    if |raw| == n + m + 14 {
      BigDigitsOfValue(raw[n + m + 10..]);
    }
  }

  /** A wrapped command, damaged anywhere but in its two lengths and its checksum, is
      still given if and only if the damage keeps the checksum. */
  lemma DamageIsRefused(codec: Codec, crc16: Crc16, h: CommandHeader, args: seq<byte>, damaged: seq<byte>, tail: seq<byte>)
    requires Refusal(codec, h, args).None?
    requires |damaged| == |Body(codec, h, args)| && damaged[4] == |h.id| && damaged[5] == |args|
    ensures var crc := crc16(Body(codec, h, args));
            Unwrap(codec, crc16, damaged + [crc % 256, crc / 256] + tail).Some? <==> crc16(damaged) == crc
  {
    hide Unwrap, Body, Refusal;
    var crc := crc16(Body(codec, h, args));
    var raw := damaged + [crc % 256, crc / 256] + tail;
    GivenExactly(codec, crc16, raw);
    assert raw[..|damaged|] == damaged;
    assert raw[|damaged|] == crc % 256 && raw[|damaged| + 1] == crc / 256;
    PairIsItsBytes(crc % 256, crc / 256, crc16(damaged));
    PairIsItsBytes(crc % 256, crc / 256, crc);
  }
}

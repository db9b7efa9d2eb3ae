/** The whole path: what an operator types, over the air by either framing, and back
    through the receiver and the packet parser to the tokens a spacecraft reads. */
module Uplinks {
  import opened Options
  import opened Bitwise
  import opened Texts
  import opened TokenCursors
  import opened Csps
  import opened MaverCodecs
  import opened MaverPackets
  import opened CommandLines
  import opened CommandEncodings
  import AsmGolays
  import Ax25Addresses
  import Ax25Line
  import Ax25Receiver

  /** A command as it was built, and as it must be received. */
  predicate Arrives(p: Payload, codec: Codec, c: CspConfig, h: CommandHeader, spelt: seq<Text>, remainder: Text)
    requires FirstMissing(h.fields).None? && AsciiId(h.id)
  {
    && p.header.Some? && p.header.value == ShownHeader(codec, h, p.cspCrc32)
    && p.cspHeader == Some(Truncated(c.header))
    && OverallOk(p) && (p.cspCrc32.Some? <==> c.cspCrc)
    && |spelt| <= |Split(p.argsRaw)| && FirstWords(p.argsRaw, |spelt|) == spelt
    && TrimLeft(After(p.argsRaw, |spelt|)) == remainder
  }

  /** What arriving means: the command's header under its own names, the CSP fields, good
      checksums, a trailer exactly when one was configured, and a cursor that reads the
      fixed arguments and then, trimmed, the remainder. */
  lemma ArrivesTells(p: Payload, codec: Codec, c: CspConfig, h: CommandHeader, spelt: seq<Text>, remainder: Text)
    requires FirstMissing(h.fields).None? && AsciiId(h.id) && Arrives(p, codec, c, h, spelt, remainder)
    ensures p.header == Some(RxHeader(Lower(h.id), Shown(codec.nodes, h.fields["src"]), Shown(codec.nodes, h.fields["dest"]),
                                      Shown(codec.nodes, h.fields["echo"]), Shown(codec.ptypes, h.fields["ptype"]), p.cspCrc32))
    ensures p.cspHeader == Some(Truncated(c.header)) && p.validCrc && p.cspCrc32Valid != Some(false)
    ensures p.cspCrc32.Some? <==> c.cspCrc
    ensures |spelt| <= |Split(p.argsRaw)| && Split(p.argsRaw)[..|spelt|] == spelt
    ensures TrimLeft(After(p.argsRaw, |spelt|)) == remainder
  {
    hide Split, After, TrimLeft, Shown, Truncated, Lower;
    var words := Split(p.argsRaw);
    assert |words| == |spelt| ==> words[..|spelt|] == words;
  }

  lemma PacketArrives(codec: Codec, crc16: Crc16, crc32c: Crc32, c: CspConfig, h: CommandHeader,
                      spelt: seq<Text>, remainder: Text)
    requires WellFormed(codec) && c.enabled && Words(spelt) && Remainder(remainder)
    requires Refusal(codec, h, Join(spelt + [remainder])).None?
    ensures var packet := Wrapped(codec, crc16, h, Join(spelt + [remainder]));
            Arrives(Parse(codec, crc16, crc32c, Csps.Wrap(c, crc32c, packet)), codec, c, h, spelt, remainder)
  {
    var args := Join(spelt + [remainder]);
    ParseRecovers(codec, crc16, crc32c, c, h, args);
    TextReadsBack(spelt, remainder);
    NotTrimmed(remainder);
    hide Parse, Wrapped, Csps.Wrap, Refusal, Split, After, TrimLeft, FirstWords, Join, ShownHeader, Truncated,
         OverallOk, IsUplinkEcho, Resolved;
  }

  lemma NotTrimmed(remainder: Text)
    requires Remainder(remainder)
    ensures !Trimmed(remainder[0])
  {
  }

  /** The command of a parsed line, completed with the ground station as its source. */
  function HeaderOf(commands: Commands, codec: Codec, draft: Draft): CommandHeader
    requires draft.cmdId in commands
  {
    Completed(codec, CommandHeader(draft.cmdId, commands[draft.cmdId].packet + draft.packet))
  }

  /** A line whose command encodes, with its last argument free text. */
  predicate Encodes(commands: Commands, codec: Codec, crc16: Crc16, spell: Speller, draft: Draft,
                    fixed: seq<Text>, spelt: seq<Text>, remainder: Text)
  {
    && draft.cmdId in commands
    && var arguments := commands[draft.cmdId].arguments;
       && LastToEnd(arguments) && DistinctArguments(arguments) && |arguments| == |fixed| + 1
       && FixedSpelt(spell, arguments, fixed, spelt)
       && Remainder(remainder) && Ascii(remainder)
       && draft.args == ArgsOf(arguments, fixed + [remainder])
       && Encoding(commands, codec, crc16, spell, draft).Some?
  }

  lemma EncodedIsWrapped(commands: Commands, codec: Codec, crc16: Crc16, spell: Speller, draft: Draft,
                         fixed: seq<Text>, spelt: seq<Text>, remainder: Text)
    requires Spells(spell) && Encodes(commands, codec, crc16, spell, draft, fixed, spelt, remainder)
    ensures var h := HeaderOf(commands, codec, draft); var args := Join(spelt + [remainder]);
            && Refusal(codec, h, args).None?
            && Encoding(commands, codec, crc16, spell, draft) == Some(Wrapped(codec, crc16, h, args))
            && Words(spelt)
  {
    ParsedArgsEncode(spell, commands[draft.cmdId].arguments, fixed, spelt, remainder);
    hide ArgsBytes, Refusal, Wrapped, Join, ArgsOf, Overridable, Spells, LastToEnd, DistinctArguments;
  }

  /** By ASM+Golay: any command that encodes and fits arrives, its fixed arguments as
      they were spelt and its remainder as it was typed. */
  lemma GolayUplink(commands: Commands, codec: Codec, crc16: Crc16, crc32c: Crc32, spell: Speller, c: CspConfig,
                    parity: seq<byte>, draft: Draft, fixed: seq<Text>, spelt: seq<Text>, remainder: Text)
    requires WellFormed(codec) && Spells(spell) && c.enabled && |parity| == AsmGolays.RS_PARITY
    requires Encodes(commands, codec, crc16, spell, draft, fixed, spelt, remainder)
    requires var packet := Encoding(commands, codec, crc16, spell, draft).value;
             |packet| + Csps.Overhead(c) <= AsmGolays.MAX_PAYLOAD
    ensures var packet := Encoding(commands, codec, crc16, spell, draft).value;
            var frame := AsmGolays.Frame(parity, Csps.Wrap(c, crc32c, packet));
            var received := AsmGolays.Receive(frame);
            && |frame| == 312 && received.Some?
            && FirstMissing(HeaderOf(commands, codec, draft).fields).None? && AsciiId(HeaderOf(commands, codec, draft).id)
            && Arrives(Parse(codec, crc16, crc32c, NormalizeFrame(AsmGolay, received.value)),
                       codec, c, HeaderOf(commands, codec, draft), spelt, remainder)
  {
    var packet := Encoding(commands, codec, crc16, spell, draft).value;
    EncodedIsWrapped(commands, codec, crc16, spell, draft, fixed, spelt, remainder);
    AsmGolays.FrameDelivers(parity, Csps.Wrap(c, crc32c, packet));
    PacketArrives(codec, crc16, crc32c, c, HeaderOf(commands, codec, draft), spelt, remainder);
    RefusalTells(codec, HeaderOf(commands, codec, draft), Join(spelt + [remainder]));
    hide Encoding, Wrapped, Parse, Arrives, AsmGolays.Frame, AsmGolays.Receive, Csps.Wrap, Encodes, Join, Refusal, HeaderOf,
         Spells;
  }

  lemma RefusalTells(codec: Codec, h: CommandHeader, args: seq<byte>)
    requires Refusal(codec, h, args).None?
    ensures FirstMissing(h.fields).None? && AsciiId(h.id)
  {
  }

  /** By AX.25: the same, whatever level and register the receiver starts from. */
  lemma Ax25Uplink(commands: Commands, codec: Codec, crc16: Crc16, crc32c: Crc32, spell: Speller, c: CspConfig,
                   address: Ax25Addresses.Config, level: bool, reg: Ax25Line.ShiftRegister,
                   draft: Draft, fixed: seq<Text>, spelt: seq<Text>, remainder: Text)
    requires WellFormed(codec) && Spells(spell) && c.enabled
    requires address.enabled && Ax25Addresses.Addressable(address)
    requires Encodes(commands, codec, crc16, spell, draft, fixed, spelt, remainder)
    ensures var packet := Encoding(commands, codec, crc16, spell, draft).value;
            var ui := Ax25Addresses.Wrap(address, Csps.Wrap(c, crc32c, packet)).value;
            var received := Ax25Receiver.Receive(level, reg, Ax25Line.Frame(ui));
            && received == [ui]
            && FirstMissing(HeaderOf(commands, codec, draft).fields).None? && AsciiId(HeaderOf(commands, codec, draft).id)
            && Arrives(Parse(codec, crc16, crc32c, NormalizeFrame(Ax25, received[0])),
                       codec, c, HeaderOf(commands, codec, draft), spelt, remainder)
  {
    var packet := Encoding(commands, codec, crc16, spell, draft).value;
    var inner := Csps.Wrap(c, crc32c, packet);
    var ui := Ax25Addresses.Wrap(address, inner).value;
    EncodedIsWrapped(commands, codec, crc16, spell, draft, fixed, spelt, remainder);
    Ax25Receiver.RoundTrip(level, reg, ui);
    HeaderIsStripped(address, inner);
    PacketArrives(codec, crc16, crc32c, c, HeaderOf(commands, codec, draft), spelt, remainder);
    RefusalTells(codec, HeaderOf(commands, codec, draft), Join(spelt + [remainder]));
    hide Encoding, Wrapped, Parse, Arrives, Ax25Line.Frame, Ax25Receiver.Receive, Csps.Wrap, Encodes, Join, Refusal, HeaderOf,
         Spells, Ax25Addresses.Wrap, NormalizeFrame;
  }

  /** From the keyboard: a shortcut line gives a draft that `GolayUplink` and
      `Ax25Uplink` take, as soon as it encodes. */
  lemma ShortcutLineEncodes(commands: Commands, codec: Codec, crc16: Crc16, spell: Speller,
                            lead: Text, words: seq<Text>, gaps: seq<Text>, remainder: Text, trail: Text, spelt: seq<Text>)
    requires LineParts(lead, words, gaps, remainder, trail) && words != [] && Ascii(remainder)
    requires var cmd := LowerText(words[0]);
             && cmd in commands && !commands[cmd].rxOnly && LastToEnd(commands[cmd].arguments)
             && |commands[cmd].arguments| == |words| && DistinctArguments(commands[cmd].arguments)
             && FixedSpelt(spell, commands[cmd].arguments, words[1..], spelt)
    ensures var r := ParseCli(commands, codec, Line(lead, words, gaps, remainder, trail));
            && r.Parsed? && r.draft.cmdId == LowerText(words[0])
            && (Encoding(commands, codec, crc16, spell, r.draft).Some? ==>
                  Encodes(commands, codec, crc16, spell, r.draft, words[1..], spelt, remainder))
  {
    hide ParseCli, LowerText, Encoding, FixedSpelt, ArgsOf, DistinctArguments, LastToEnd, Line;
    ShortcutKeepsRemainder(commands, codec, lead, words, gaps, remainder, trail);
  }

  /** And so does a routed line; the routing then stands in the header (see
      `RoutingReachesTheWire`). */
  lemma RoutedLineEncodes(commands: Commands, codec: Codec, crc16: Crc16, spell: Speller,
                          lead: Text, routing: seq<Text>, command: Text, fixed: seq<Text>, gaps: seq<Text>,
                          remainder: Text, trail: Text, r: Route, spelt: seq<Text>)
    requires LineParts(lead, routing + [command] + fixed, gaps, remainder, trail) && Ascii(remainder)
    requires RoutedBy(codec, routing, r) && LowerText(routing[0]) !in commands
    requires |routing| == 3 ==> !TokenIsPtype(codec, command)
    requires var cmd := LowerText(command);
             && cmd in commands && !commands[cmd].rxOnly && LastToEnd(commands[cmd].arguments)
             && |commands[cmd].arguments| == |fixed| + 1 && DistinctArguments(commands[cmd].arguments)
             && FixedSpelt(spell, commands[cmd].arguments, fixed, spelt)
    ensures var p := ParseCli(commands, codec, Line(lead, routing + [command] + fixed, gaps, remainder, trail));
            && p.Parsed? && p.draft.cmdId == LowerText(command)
            && p.draft.packet == Kept(commands[p.draft.cmdId], ParsedPacket(r))
            && (Encoding(commands, codec, crc16, spell, p.draft).Some? ==>
                  Encodes(commands, codec, crc16, spell, p.draft, fixed, spelt, remainder))
  {
    hide ParseCli, LowerText, Encoding, FixedSpelt, ArgsOf, DistinctArguments, LastToEnd, Line, Kept, ParsedPacket, RoutingName;
    RoutedKeepsRemainder(commands, codec, lead, routing, command, fixed, gaps, remainder, trail, r);
  }
}

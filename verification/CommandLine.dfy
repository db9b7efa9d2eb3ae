/** The operator's command line: `_parse_cli`, `_split_for_meta`, `_parse_full_form`
    and `_parse_arg_tokens` of `mav_gss_lib/missions/maveric/declarative.py`. A line is
    ASCII text. A token that may become a number is kept as `Coerced`. */
module CommandLines {
  import opened Options
  import opened Bitwise
  import opened Texts
  import opened MaverCodecs

  // ---- `split(maxsplit=n)` and `strip()` ------------------------------------------

  /** At most `n` tokens, then the rest as it stands. */
  function SplitMax(t: Text, n: nat): (pieces: seq<Text>)
    decreases n
  {
    if Skip(t) == [] then []
    else if n == 0 then [Skip(t)]
    else [FirstWord(t)] + SplitMax(t[End(t)..], n - 1)
  }

  function StripRight(t: Text): (u: Text)
    ensures |u| <= |t|
  {
    if t != [] && Space(t[|t| - 1]) then StripRight(t[..|t| - 1]) else t
  }

  function Strip(t: Text): Text {
    StripRight(Skip(t))
  }

  /** Words, each with the whitespace after it, and then a remainder. */
  function Typed(words: seq<Text>, gaps: seq<Text>, remainder: Text): Text
    requires |gaps| == |words|
  {
    if words == [] then remainder else words[0] + (gaps[0] + Typed(words[1..], gaps[1..], remainder))
  }

  predicate Gap(t: Text) {
    t != [] && Blank(t)
  }

  predicate Words(words: seq<Text>) {
    forall i :: 0 <= i < |words| ==> IsWord(words[i])
  }

  predicate Gaps(gaps: seq<Text>) {
    forall i :: 0 <= i < |gaps| ==> Gap(gaps[i])
  }

  /** Free text: inner whitespace as the operator likes, none around it. */
  predicate Remainder(t: Text) {
    t != [] && !Space(t[0]) && !Space(t[|t| - 1])
  }

  lemma SplitMaxSkipsBlank(gap: Text, t: Text, n: nat)
    requires Blank(gap)
    ensures SplitMax(gap + t, n) == SplitMax(t, n)
  {
    hide FirstWord, End, Split;
    SplitSkipsBlank(gap, t);
    SkipSkipsBlank(gap, t);
    if Skip(t) != [] {
      assert End(gap + t) == |gap| + End(t);
      assert (gap + t)[End(gap + t)..] == t[End(t)..];
    }
  }

  lemma {:induction false} SkipSkipsBlank(gap: Text, t: Text)
    requires Blank(gap)
    ensures Skip(gap + t) == Skip(t)
  {
    if gap == [] {
      assert gap + t == t;
    } else {
      SkipSkipsBlank(gap[1..], t);
      assert (gap + t)[1..] == gap[1..] + t;
    }
  }

  lemma TypedStarts(words: seq<Text>, gaps: seq<Text>, remainder: Text)
    requires |gaps| == |words| && Words(words) && Remainder(remainder)
    ensures Typed(words, gaps, remainder) != [] && !Space(Typed(words, gaps, remainder)[0])
  {
  }

  lemma {:induction false} TypedEnds(words: seq<Text>, gaps: seq<Text>, remainder: Text)
    requires |gaps| == |words| && Remainder(remainder)
    ensures var t := Typed(words, gaps, remainder); t != [] && !Space(t[|t| - 1])
  {
    if words != [] {
      TypedEnds(words[1..], gaps[1..], remainder);
    }
  }

  /** Past the words the split goes on in the remainder. */
  lemma {:induction false} SplitMaxTypedMore(words: seq<Text>, gaps: seq<Text>, remainder: Text, more: nat, n: nat)
    requires |gaps| == |words| && Words(words) && Gaps(gaps) && Remainder(remainder) && n == |words| + more
    ensures SplitMax(Typed(words, gaps, remainder), n) == words + SplitMax(remainder, more)
    decreases |words|
  {
    hide *;
    if words == [] {
      NoWords(gaps, remainder);
      assert [] + SplitMax(remainder, more) == SplitMax(remainder, more);
    } else {
      TypedUnfolds(words, gaps, remainder);
      var rest := Typed(words[1..], gaps[1..], remainder);
      FirstPiece(words[0], gaps[0] + rest, n);
      SplitMaxSkipsBlank(gaps[0], rest, n - 1);
      SplitMaxTypedMore(words[1..], gaps[1..], remainder, more, n - 1);
      ConcatAssociates([words[0]], words[1..], SplitMax(remainder, more));
      assert [words[0]] + words[1..] == words;
    }
  }

  /** The remainder is the last piece, as it was typed. */
  lemma SplitMaxTyped(words: seq<Text>, gaps: seq<Text>, remainder: Text)
    requires |gaps| == |words| && Words(words) && Gaps(gaps) && Remainder(remainder)
    ensures SplitMax(Typed(words, gaps, remainder), |words|) == words + [remainder]
  {
    hide Typed, Words, Gaps, SplitMax;
    SplitMaxTypedMore(words, gaps, remainder, 0, |words|);
    WholeRemainder(remainder);
  }

  lemma WholeRemainder(remainder: Text)
    requires Remainder(remainder)
    ensures SplitMax(remainder, 0) == [remainder]
  {
    SkipNone(remainder);
  }

  lemma NoWords(gaps: seq<Text>, remainder: Text)
    requires gaps == []
    ensures Typed([], gaps, remainder) == remainder
  {
  }

  /** What stands from word `n` on is itself words and a remainder. */
  lemma {:induction false} TypedSplits(words: seq<Text>, gaps: seq<Text>, remainder: Text, n: nat)
    requires |gaps| == |words| && n <= |words|
    ensures Typed(words, gaps, remainder) == Typed(words[..n], gaps[..n], Typed(words[n..], gaps[n..], remainder))
    decreases |words|
  {
    if n == 0 {
      assert words[0..] == words && gaps[0..] == gaps;
    } else {
      TypedSplits(words[1..], gaps[1..], remainder, n - 1);
      assert words[..n][1..] == words[1..][..n - 1] && gaps[..n][1..] == gaps[1..][..n - 1];
      assert words[1..][n - 1..] == words[n..] && gaps[1..][n - 1..] == gaps[n..];
    }
  }

  lemma {:induction false} TypedIsLonger(words: seq<Text>, gaps: seq<Text>, remainder: Text)
    requires |gaps| == |words| && Words(words)
    ensures |Typed(words, gaps, remainder)| >= |remainder|
    ensures words != [] ==> |Typed(words, gaps, remainder)| > |remainder|
    decreases |words|
  {
    if words != [] {
      assert IsWord(words[0]);
      TypedIsLonger(words[1..], gaps[1..], remainder);
    }
  }

  lemma TypedUnfolds(words: seq<Text>, gaps: seq<Text>, remainder: Text)
    requires |gaps| == |words| && words != [] && Words(words) && Gaps(gaps)
    ensures var rest := Typed(words[1..], gaps[1..], remainder);
            && Typed(words, gaps, remainder) == words[0] + (gaps[0] + rest)
            && IsWord(words[0]) && Blank(gaps[0]) && gaps[0] + rest != [] && Space((gaps[0] + rest)[0])
            && Words(words[1..]) && Gaps(gaps[1..])
  {
    assert Gap(gaps[0]);
  }

  lemma SkipNone(t: Text)
    requires t != [] && !Space(t[0])
    ensures Skip(t) == t
  {
  }

  lemma FirstPiece(word: Text, rest: Text, n: nat)
    requires IsWord(word) && rest != [] && Space(rest[0]) && n > 0
    ensures SplitMax(word + rest, n) == [word] + SplitMax(rest, n - 1)
    ensures Split(word + rest) == [word] + Split(rest)
    ensures FirstWord(word + rest) == word && Skip(word + rest) != []
  {
    SplitFirst([], word, rest);
    assert [] + (word + rest) == word + rest;
    SkipNone(word + rest);
  }

  lemma {:induction false} SplitTyped(words: seq<Text>, gaps: seq<Text>, remainder: Text)
    requires |gaps| == |words| && Words(words) && Gaps(gaps) && Remainder(remainder)
    ensures Split(Typed(words, gaps, remainder)) == words + Split(remainder)
    decreases |words|
  {
    if words == [] {
      hide Split;
      assert words + Split(remainder) == Split(remainder);
    } else {
      hide FirstWord, End, Skip, Split;
      var rest := Typed(words[1..], gaps[1..], remainder);
      assert Gap(gaps[0]) && IsWord(words[0]);
      FirstPiece(words[0], gaps[0] + rest, 1);
      SplitSkipsBlank(gaps[0], rest);
      SplitTyped(words[1..], gaps[1..], remainder);
      ConcatAssociates([words[0]], words[1..], Split(remainder));
      assert [words[0]] + words[1..] == words;
    }
  }

  lemma SomeWords(remainder: Text)
    requires Remainder(remainder)
    ensures |Split(remainder)| >= 1
  {
    SkipNone(remainder);
  }

  lemma {:induction false} StripRightOf(t: Text, trail: Text)
    requires Blank(trail) && t != [] && !Space(t[|t| - 1])
    ensures StripRight(t + trail) == t
    decreases |trail|
  {
    var all := t + trail;
    if trail == [] {
      assert all == t;
    } else {
      assert all[..|all| - 1] == t + trail[..|trail| - 1];
      StripRightOf(t, trail[..|trail| - 1]);
    }
  }

  lemma StripOf(lead: Text, t: Text, trail: Text)
    requires Blank(lead) && Blank(trail) && Remainder(t)
    ensures Strip(lead + (t + trail)) == t
  {
    SkipSkipsBlank(lead, t + trail);
    SkipNone(t + trail);
    StripRightOf(t, trail);
  }

  /** Whitespace behind a text changes no token, and so stripping does not. */
  lemma {:induction false} SplitDropsTrail(t: Text, trail: Text)
    requires Blank(trail)
    ensures Split(t + trail) == Split(t)
    decreases |t|
  {
    hide Split, FirstWord, End, Skip, Start, WordLength;
    var gap, word, rest := Shape(t);
    if Split(t) == [] {
      SplitBlank(t + trail);
    } else {
      assert t + trail == gap + (word + (rest + trail));
      SplitFirst(gap, word, rest);
      SplitFirst(gap, word, rest + trail);
      SplitDropsTrail(rest, trail);
    }
  }

  lemma {:induction false} StripRightLeaves(t: Text) returns (trail: Text)
    ensures Blank(trail) && t == StripRight(t) + trail
  {
    trail := [];
    if t != [] && Space(t[|t| - 1]) {
      var more := StripRightLeaves(t[..|t| - 1]);
      trail := more + [t[|t| - 1]];
    }
  }

  lemma SplitStripped(line: Text)
    ensures Split(Strip(line)) == Split(line)
  {
    hide Split;
    var trail := StripRightLeaves(Skip(line));
    SplitDropsTrail(Strip(line), trail);
    BlankStart(line);
    SplitSkipsBlank(line[..Start(line)], Skip(line));
    assert line[..Start(line)] + Skip(line) == line;
  }

  lemma {:induction false} SplitMaxOfFew(t: Text, n: nat)
    requires |Split(t)| <= n
    ensures SplitMax(t, n) == Split(t)
    decreases n
  {
    hide FirstWord, End, Skip;
    if Skip(t) != [] {
      FirstOfLine(t);
      SplitMaxOfFew(t[End(t)..], n - 1);
    }
  }

  // ---- The mission's commands --------------------------------------------------------

  /** `Unsupported` is a type that is not declared, `Other` one that is neither a number
      nor text. */
  datatype Kind = Integer | Float | Token | ToEnd | Other | Unsupported

  datatype Argument = Argument(name: string, kind: Kind)

  datatype Meta = Meta(arguments: seq<Argument>, rxOnly: bool, packet: map<string, Field>, allowed: map<string, set<Field>>)

  type Commands = map<string, Meta>

  /** A value as the parser leaves it: a token tried as a number, or text kept as it is. */
  datatype Given = Coerced(token: Text) | Verbatim(text: Text)

  datatype Draft = Draft(cmdId: string, args: map<string, Given>, packet: map<string, Field>)

  datatype Failure = EmptyInput | ReceiveOnly | TooFewTokens | BadNode(field: string) | BadPtype | UnknownCommand

  datatype Parsed = Parsed(draft: Draft) | Failed(why: Failure)

  predicate LastToEnd(arguments: seq<Argument>) {
    arguments != [] && arguments[|arguments| - 1].kind.ToEnd?
  }

  predicate DistinctArguments(arguments: seq<Argument>) {
    forall i, j :: 0 <= i < j < |arguments| ==> arguments[i].name != arguments[j].name
  }

  // ---- Arguments -----------------------------------------------------------------------

  function GivenFor(arguments: seq<Argument>, tokens: seq<Text>, i: nat): Given
    requires i < |arguments| && i < |tokens|
  {
    if i == |arguments| - 1 && arguments[i].kind.ToEnd? then Verbatim(tokens[i]) else Coerced(tokens[i])
  }

  /** The first `k` arguments. */
  function Args(arguments: seq<Argument>, tokens: seq<Text>, k: nat): map<string, Given>
    requires k <= |arguments| && k <= |tokens|
  {
    if k == 0 then map[] else Args(arguments, tokens, k - 1)[arguments[k - 1].name := GivenFor(arguments, tokens, k - 1)]
  }

  function ArgsOf(arguments: seq<Argument>, tokens: seq<Text>): map<string, Given> {
    Args(arguments, tokens, if |tokens| < |arguments| then |tokens| else |arguments|)
  }

  method ParseArgTokens(arguments: seq<Argument>, tokens: seq<Text>) returns (args: map<string, Given>)
    ensures args == ArgsOf(arguments, tokens)
  {
    args := map[];
    var i := 0;
    while i < |arguments|
      invariant 0 <= i <= |arguments| && i <= |tokens|
      invariant args == Args(arguments, tokens, i)
    {
      if i >= |tokens| {
        break;
      }
      if i == |arguments| - 1 && arguments[i].kind.ToEnd? {
        args := args[arguments[i].name := Verbatim(tokens[i])];
        i := i + 1;
        break;
      }
      args := args[arguments[i].name := Coerced(tokens[i])];
      i := i + 1;
    }
  }

  /** Each argument gets its token, and nothing else is there. */
  lemma {:induction false} ArgsHold(arguments: seq<Argument>, tokens: seq<Text>, k: nat)
    requires k <= |arguments| && k <= |tokens| && DistinctArguments(arguments)
    ensures forall i :: 0 <= i < k ==> arguments[i].name in Args(arguments, tokens, k)
                                       && Args(arguments, tokens, k)[arguments[i].name] == GivenFor(arguments, tokens, i)
    ensures forall name :: name in Args(arguments, tokens, k) ==> exists i :: 0 <= i < k && arguments[i].name == name
  {
    if k > 0 {
      ArgsHold(arguments, tokens, k - 1);
      assert forall i :: 0 <= i < k - 1 ==> arguments[i].name != arguments[k - 1].name;
    }
  }

  // ---- Routing tokens --------------------------------------------------------------------

  function Chars(t: Text): string {
    seq(|t|, i requires 0 <= i < |t| => t[i] as char)
  }

  predicate Digits(t: Text) {
    t != [] && forall i :: 0 <= i < |t| ==> 48 <= t[i] <= 57
  }

  function Dashes(t: Text): (n: nat)
    ensures n <= |t|
  {
    if t != [] && t[0] == 45 then 1 + Dashes(t[1..]) else 0
  }

  function Number(t: Text): nat {
    if t == [] then 0 else 10 * Number(t[..|t| - 1]) + if 48 <= t[|t| - 1] <= 57 then t[|t| - 1] - 48 else 0
  }

  /** The name a routing token stands for: its own, or that of its number. */
  function RoutingName(t: Table, token: Text): Option<string> {
    var d := Dashes(token);
    if Digits(token[d..]) then
      var v := Number(token[d..]);
      if d > 1 || (d == 1 && v > 0) || v > 0xFF || v !in t.byId then None else Some(t.byId[v])
    else if Chars(token) in t.byName then Some(Chars(token)) else None
  }

  /** A token of one to three digits, zeros in front or not, stands for the name of its
      decimal value, if a byte with a name has it. */
  lemma DecimalRouting(t: Table, zeros: nat, a: nat, b: nat, c: nat)
    requires a < 10 && b < 10 && c < 10
    ensures var v := 100 * a + 10 * b + c; var token: Text := seq(zeros, i => 48 as byte) + [48 + a, 48 + b, 48 + c];
            RoutingName(t, token) == if v <= 255 && v in t.byId then Some(t.byId[v]) else None
  {
    var pad: Text := seq(zeros, i => 48 as byte);
    var x: byte, y: byte, z: byte := 48 + a, 48 + b, 48 + c;
    var token := pad + [x, y, z];
    assert token[0] != 45 && Dashes(token) == 0 && token[0..] == token;
    ZerosAreZero(pad);
    assert token[..|token| - 1] == pad + [x, y];
    assert (pad + [x, y])[..|pad| + 1] == pad + [x];
    assert (pad + [x])[..|pad|] == pad;
    assert Number(pad + [x]) == a;
    assert Number(pad + [x, y]) == 10 * a + b;
    assert Number(token) == 100 * a + 10 * b + c;
  }

  lemma {:induction false} ZerosAreZero(pad: Text)
    requires forall i :: 0 <= i < |pad| ==> pad[i] == 48
    ensures Number(pad) == 0
  {
    if pad != [] {
      ZerosAreZero(pad[..|pad| - 1]);
    }
  }

  /** One minus sign in front of zeros is taken, any other number with one is not. */
  lemma NegativeRouting(t: Table, digits: Text)
    requires Digits(digits)
    ensures RoutingName(t, [45] + digits) == if (forall i :: 0 <= i < |digits| ==> digits[i] == 48) && 0 in t.byId
                                             then Some(t.byId[0]) else None
    ensures RoutingName(t, [45, 45] + digits) == None
  {
    hide Number;
    assert ([45] + digits)[1..] == digits && ([45, 45] + digits)[1..] == [45] + digits && ([45, 45] + digits)[2..] == digits;
    assert Dashes(digits) == 0 && Dashes([45] + digits) == 1 && Dashes([45, 45] + digits) == 2;
    ZeroIsZeros(digits);
  }

  lemma {:induction false} ZeroIsZeros(digits: Text)
    requires forall i :: 0 <= i < |digits| ==> 48 <= digits[i] <= 57
    ensures Number(digits) == 0 <==> forall i :: 0 <= i < |digits| ==> digits[i] == 48
  {
    if digits != [] {
      ZeroIsZeros(digits[..|digits| - 1]);
    }
  }

  /** Any other token stands for itself, if the table has that name. */
  lemma NamedRouting(t: Table, token: Text)
    requires token == [] || exists i :: 0 <= i < |token| && token[i] != 45 && !(48 <= token[i] <= 57)
    ensures var name := seq(|token|, i requires 0 <= i < |token| => token[i] as char);
            RoutingName(t, token) == if name in t.byName then Some(name) else None
  {
    DashesAreDashes(token);
    var d := Dashes(token);
    if token != [] {
      var i :| 0 <= i < |token| && token[i] != 45 && !(48 <= token[i] <= 57);
      assert d <= i && token[d..][i - d] == token[i];
    }
  }

  lemma {:induction false} DashesAreDashes(t: Text)
    ensures forall i :: 0 <= i < Dashes(t) ==> t[i] == 45
  {
    if t != [] && t[0] == 45 {
      DashesAreDashes(t[1..]);
    }
  }

  predicate TokenIsPtype(codec: Codec, token: Text) {
    RoutingName(codec.ptypes, token).Some?
  }

  datatype Route = Route(cmdIdx: nat, src: Option<string>, dest: string, echo: string, ptype: string) | NoRoute(why: Failure)

  /** Routing tokens in front, with the source if the fourth is a packet type. */
  function RouteOf(codec: Codec, parts: seq<Text>): (r: Route)
    requires |parts| >= 4
    ensures r.Route? ==> 3 <= r.cmdIdx < |parts| && (r.src.Some? <==> r.cmdIdx == 4)
  {
    var withSrc := |parts| >= 5 && TokenIsPtype(codec, parts[3]);
    var at := if withSrc then 1 else 0;
    var src := if withSrc then RoutingName(codec.nodes, parts[0]) else None;
    var dest, echo := RoutingName(codec.nodes, parts[at]), RoutingName(codec.nodes, parts[at + 1]);
    var ptype := RoutingName(codec.ptypes, parts[at + 2]);
    if withSrc && src.None? then NoRoute(BadNode("src"))
    else if dest.None? then NoRoute(BadNode("dest"))
    else if echo.None? then NoRoute(BadNode("echo"))
    else if ptype.None? then NoRoute(BadPtype)
    else Route(at + 3, src, dest.value, echo.value, ptype.value)
  }

  function ParsedPacket(r: Route): map<string, Field>
    requires r.Route?
  {
    var routed := map["dest" := Name(r.dest), "echo" := Name(r.echo), "ptype" := Name(r.ptype)];
    if r.src.Some? then routed["src" := Name(r.src.value)] else routed
  }

  /** Only what may be overridden or would differ from the default goes on. */
  function Kept(meta: Meta, parsed: map<string, Field>): map<string, Field> {
    map f | f in parsed && (f in meta.allowed || (f in meta.packet && meta.packet[f] != parsed[f])) :: parsed[f]
  }

  function ArgTokens(stripped: Text, parts: seq<Text>, cmdIdx: nat, arguments: seq<Argument>): seq<Text>
    requires cmdIdx < |parts|
  {
    if LastToEnd(arguments) then
      var pieces := SplitMax(stripped, cmdIdx + |arguments|);
      if cmdIdx + 1 <= |pieces| then pieces[cmdIdx + 1..] else []
    else parts[cmdIdx + 1..]
  }

  function FullForm(commands: Commands, codec: Codec, stripped: Text): Parsed {
    var parts := Split(stripped);
    if |parts| < 4 then Failed(TooFewTokens)
    else
      var route := RouteOf(codec, parts);
      if route.NoRoute? then Failed(route.why)
      else
        var cmdId := LowerText(parts[route.cmdIdx]);
        if cmdId !in commands then Failed(UnknownCommand)
        else if commands[cmdId].rxOnly then Failed(ReceiveOnly)
        else
          var meta := commands[cmdId];
          Parsed(Draft(cmdId, ArgsOf(meta.arguments, ArgTokens(stripped, parts, route.cmdIdx, meta.arguments)),
                       Kept(meta, ParsedPacket(route))))
  }

  method ParseFullForm(commands: Commands, codec: Codec, stripped: Text) returns (r: Parsed)
    ensures r == FullForm(commands, codec, stripped)
  {
    hide Split, SplitMax, RoutingName, Args, LowerText, LastToEnd, Kept, ParsedPacket;
    var parts := Split(stripped);
    if |parts| < 4 {
      return Failed(TooFewTokens);
    }
    var src: Option<string> := None;
    var at := 0;
    if |parts| >= 5 && TokenIsPtype(codec, parts[3]) {
      src := RoutingName(codec.nodes, parts[0]);
      if src.None? {
        return Failed(BadNode("src"));
      }
      at := 1;
    }
    var dest := RoutingName(codec.nodes, parts[at]);
    if dest.None? {
      return Failed(BadNode("dest"));
    }
    var echo := RoutingName(codec.nodes, parts[at + 1]);
    if echo.None? {
      return Failed(BadNode("echo"));
    }
    var ptype := RoutingName(codec.ptypes, parts[at + 2]);
    if ptype.None? {
      return Failed(BadPtype);
    }
    var cmdIdx := at + 3;
    var cmdId := LowerText(parts[cmdIdx]);
    if cmdId !in commands {
      return Failed(UnknownCommand);
    }
    var meta := commands[cmdId];
    if meta.rxOnly {
      return Failed(ReceiveOnly);
    }
    var args := ParseArgTokens(meta.arguments, ArgTokens(stripped, parts, cmdIdx, meta.arguments));
    var packet := Kept(meta, ParsedPacket(Route(cmdIdx, src, dest.value, echo.value, ptype.value)));
    r := Parsed(Draft(cmdId, args, packet));
  }

  function SplitForMeta(stripped: Text, arguments: seq<Argument>): seq<Text> {
    if LastToEnd(arguments) then SplitMax(stripped, |arguments|) else Split(stripped)
  }

  function ParseCli(commands: Commands, codec: Codec, line: Text): Parsed {
    var stripped := Strip(line);
    if Skip(stripped) == [] then Failed(EmptyInput)
    else
      var first := LowerText(FirstWord(stripped));
      if first !in commands then FullForm(commands, codec, stripped)
      else if commands[first].rxOnly then Failed(ReceiveOnly)
      else
        var arguments := commands[first].arguments;
        var pieces := SplitForMeta(stripped, arguments);
        Parsed(Draft(first, ArgsOf(arguments, if pieces == [] then [] else pieces[1..]), map[]))
  }

  // ---- The remainder survives --------------------------------------------------------------

  /** A line: whitespace, words and their gaps, free text, whitespace. */
  function Line(lead: Text, words: seq<Text>, gaps: seq<Text>, remainder: Text, trail: Text): Text
    requires |gaps| == |words|
  {
    lead + (Typed(words, gaps, remainder) + trail)
  }

  predicate LineParts(lead: Text, words: seq<Text>, gaps: seq<Text>, remainder: Text, trail: Text) {
    |gaps| == |words| && Words(words) && Gaps(gaps) && Remainder(remainder) && Blank(lead) && Blank(trail)
  }

  lemma StripLine(lead: Text, words: seq<Text>, gaps: seq<Text>, remainder: Text, trail: Text)
    requires LineParts(lead, words, gaps, remainder, trail)
    ensures Strip(Line(lead, words, gaps, remainder, trail)) == Typed(words, gaps, remainder)
  {
    TypedStarts(words, gaps, remainder);
    TypedEnds(words, gaps, remainder);
    StripOf(lead, Typed(words, gaps, remainder), trail);
  }

  lemma FirstOfTyped(words: seq<Text>, gaps: seq<Text>, remainder: Text)
    requires |gaps| == |words| && words != [] && Words(words) && Gaps(gaps) && Remainder(remainder)
    ensures Skip(Typed(words, gaps, remainder)) != [] && FirstWord(Typed(words, gaps, remainder)) == words[0]
  {
    hide Skip, FirstWord, Split, SplitMax;
    assert Gap(gaps[0]) && IsWord(words[0]);
    FirstPiece(words[0], gaps[0] + Typed(words[1..], gaps[1..], remainder), 1);
  }

  /** Shortcut form: the command, its fixed arguments, and the remainder as typed. */
  lemma ShortcutKeepsRemainder(commands: Commands, codec: Codec, lead: Text, words: seq<Text>, gaps: seq<Text>,
                               remainder: Text, trail: Text)
    requires LineParts(lead, words, gaps, remainder, trail) && words != []
    requires var cmd := LowerText(words[0]);
             && cmd in commands && !commands[cmd].rxOnly && LastToEnd(commands[cmd].arguments)
             && |commands[cmd].arguments| == |words|
    ensures var cmd := LowerText(words[0]);
            ParseCli(commands, codec, Line(lead, words, gaps, remainder, trail))
            == Parsed(Draft(cmd, ArgsOf(commands[cmd].arguments, words[1..] + [remainder]), map[]))
  {
    hide Skip, FirstWord, Split, SplitMax, Typed, Strip, LowerText, Line, Args, Words, Gaps;
    StripLine(lead, words, gaps, remainder, trail);
    FirstOfTyped(words, gaps, remainder);
    SplitMaxTyped(words, gaps, remainder);
    assert (words + [remainder])[1..] == words[1..] + [remainder];
  }

  /** The routing an operator typed in front of a command. */
  predicate RoutedBy(codec: Codec, routing: seq<Text>, r: Route) {
    && r.Route? && |routing| == r.cmdIdx && 3 <= |routing| <= 4
    && var at := |routing| - 3;
       && r.src == (if at == 1 then RoutingName(codec.nodes, routing[0]) else None)
       && (at == 1 ==> r.src.Some?)
       && RoutingName(codec.nodes, routing[at]) == Some(r.dest)
       && RoutingName(codec.nodes, routing[at + 1]) == Some(r.echo)
       && RoutingName(codec.ptypes, routing[at + 2]) == Some(r.ptype)
  }

  lemma RouteIs(codec: Codec, routing: seq<Text>, command: Text, more: seq<Text>, r: Route)
    requires RoutedBy(codec, routing, r) && more != []
    requires |routing| == 3 ==> !TokenIsPtype(codec, command)
    ensures RouteOf(codec, routing + [command] + more) == r
  {
    hide RoutingName;
    var parts := routing + [command] + more;
    assert forall i :: 0 <= i < |routing| ==> parts[i] == routing[i];
    assert parts[|routing|] == command;
  }

  lemma RoutedTokens(stripped: Text, routing: seq<Text>, command: Text, fixed: seq<Text>, remainder: Text,
                     parts: seq<Text>, arguments: seq<Argument>)
    requires LastToEnd(arguments) && |arguments| == |fixed| + 1 && |routing| < |parts|
    requires SplitMax(stripped, |routing| + |arguments|) == routing + [command] + fixed + [remainder]
    ensures ArgTokens(stripped, parts, |routing|, arguments) == fixed + [remainder]
  {
    hide SplitMax;
    var pieces := routing + [command] + fixed + [remainder];
    assert pieces[|routing| + 1..] == fixed + [remainder];
  }

  /** What the operator of a routed line means. */
  function Intended(meta: Meta, cmdId: string, fixed: seq<Text>, remainder: Text, r: Route): Parsed
    requires r.Route?
  {
    Parsed(Draft(cmdId, ArgsOf(meta.arguments, fixed + [remainder]), Kept(meta, ParsedPacket(r))))
  }

  /** A command line of the routed form whose command takes free text last. */
  predicate RoutedLine(commands: Commands, codec: Codec, routing: seq<Text>, command: Text, fixed: seq<Text>, r: Route) {
    && RoutedBy(codec, routing, r)
    && var cmd := LowerText(command);
       && cmd in commands && !commands[cmd].rxOnly && LastToEnd(commands[cmd].arguments)
       && |commands[cmd].arguments| == |fixed| + 1
  }

  /** Routed form: with three or four routing tokens in front, the line is parsed as it
      was meant if and only if the first token is not the name of a command and,
      without a source, the command's own name is not that of a packet type. */
  lemma RoutedKeepsRemainder(commands: Commands, codec: Codec, lead: Text, routing: seq<Text>, command: Text,
                             fixed: seq<Text>, gaps: seq<Text>, remainder: Text, trail: Text, r: Route)
    requires LineParts(lead, routing + [command] + fixed, gaps, remainder, trail)
    requires RoutedLine(commands, codec, routing, command, fixed, r)
    ensures var cmd := LowerText(command);
            ParseCli(commands, codec, Line(lead, routing + [command] + fixed, gaps, remainder, trail))
            == Intended(commands[cmd], cmd, fixed, remainder, r)
            <==> LowerText(routing[0]) !in commands && (|routing| == 3 ==> !TokenIsPtype(codec, command))
  {
    var words := routing + [command] + fixed;
    assert |gaps| == |words| && Words(words) && Gaps(gaps) && Remainder(remainder);
    assert |routing| >= 3 && RoutedBy(codec, routing, r);
    var stripped := Typed(words, gaps, remainder);
    hide Typed, Words, Gaps, Strip, Line, RoutedBy, TokenIsPtype, LineParts, FullForm, ParseCli, Intended, SplitMax, Split,
         FirstWord, Skip;
    StripLine(lead, words, gaps, remainder, trail);
    PartsFirst(routing, command, fixed, gaps, remainder);
    if LowerText(routing[0]) in commands {
      TakenForShortcut(commands, codec, Line(lead, words, gaps, remainder, trail), words, gaps, remainder,
                       routing, command, fixed, r);
    } else {
      NotShortcut(commands, codec, Line(lead, words, gaps, remainder, trail), stripped, routing[0]);
      if |routing| == 3 && TokenIsPtype(codec, command) {
        TakenForSource(commands, codec, stripped, routing, command, fixed, gaps, remainder, r);
      } else {
        SplitMaxTyped(words, gaps, remainder);
        FullFormKeeps(commands, codec, stripped, routing, command, fixed, gaps, remainder, r);
      }
    }
  }

  /** A line that starts with the name of a command, whatever its whitespace: the tokens
      behind it are its arguments, unless the command is only received. When the last
      argument takes the rest of the line, this is so if no token is left for it to be
      more than one. */
  lemma ShortcutParses(commands: Commands, codec: Codec, line: Text, words: seq<Text>, cmd: string)
    requires words == Split(line) && words != [] && cmd == LowerText(words[0]) && cmd in commands
    ensures commands[cmd].rxOnly ==> ParseCli(commands, codec, line) == Failed(ReceiveOnly)
    ensures !commands[cmd].rxOnly && (LastToEnd(commands[cmd].arguments) ==> |words| <= |commands[cmd].arguments|) ==>
              ParseCli(commands, codec, line) == Parsed(Draft(cmd, ArgsOf(commands[cmd].arguments, words[1..]), map[]))
  {
    var stripped := Strip(line);
    SplitStripped(line);
    FirstOfLine(stripped);
    if !commands[cmd].rxOnly && LastToEnd(commands[cmd].arguments) && |words| <= |commands[cmd].arguments| {
      SplitMaxOfFew(stripped, |commands[cmd].arguments|);
    }
    hide Strip, Split, SplitMax, Skip, FirstWord, Args, LowerText;
  }

  lemma FirstOfLine(t: Text)
    ensures Split(t) == [] <==> Skip(t) == []
    ensures Split(t) != [] ==> Split(t)[0] == FirstWord(t) && Split(t[End(t)..]) == Split(t)[1..]
  {
    hide FirstWord, End, Skip;
  }

  /** A line without tokens is refused. One that starts with no command is read as routed:
      with fewer than four tokens it is refused, and so it is for the first of these that
      is unknown: source (when a fifth token is there and the fourth is a packet type),
      destination, echo, packet type, command; and for a command that is only received. */
  lemma RoutedRefusals(commands: Commands, codec: Codec, line: Text, words: seq<Text>, at: nat)
    requires words == Split(line) && (words != [] ==> LowerText(words[0]) !in commands)
    requires at == if |words| >= 5 && RoutingName(codec.ptypes, words[3]).Some? then 1 else 0
    ensures var r := ParseCli(commands, codec, line); var nodes, ptypes := codec.nodes, codec.ptypes;
            && (words == [] ==> r == Failed(EmptyInput))
            && (0 < |words| < 4 ==> r == Failed(TooFewTokens))
            && (|words| >= 4 ==>
                  && (at == 1 && RoutingName(nodes, words[0]).None? ==> r == Failed(BadNode("src")))
                  && (at == 1 ==> RoutingName(nodes, words[0]).Some?) ==>
                     && (RoutingName(nodes, words[at]).None? ==> r == Failed(BadNode("dest")))
                     && (RoutingName(nodes, words[at]).Some? && RoutingName(nodes, words[at + 1]).None? ==>
                           r == Failed(BadNode("echo")))
                     && (RoutingName(nodes, words[at]).Some? && RoutingName(nodes, words[at + 1]).Some? ==>
                           && (RoutingName(ptypes, words[at + 2]).None? ==> r == Failed(BadPtype))
                           && (RoutingName(ptypes, words[at + 2]).Some? ==>
                                 var cmd := LowerText(words[at + 3]);
                                 && (cmd !in commands ==> r == Failed(UnknownCommand))
                                 && (cmd in commands && commands[cmd].rxOnly ==> r == Failed(ReceiveOnly)))))
  {
    var stripped := Strip(line);
    SplitStripped(line);
    FirstOfLine(stripped);
    hide Strip, Split, SplitMax, Skip, FirstWord, Args, LowerText, RoutingName, ArgTokens, Kept, ParsedPacket;
  }

  /** Otherwise it is parsed: the tokens behind the command are its arguments, under the
      same condition, and of the routing those fields go on that the command allows or
      declares otherwise. */
  lemma RoutedParses(commands: Commands, codec: Codec, line: Text, words: seq<Text>, at: nat, cmd: string)
    requires words == Split(line) && |words| >= 4 && LowerText(words[0]) !in commands
    requires at == if |words| >= 5 && RoutingName(codec.ptypes, words[3]).Some? then 1 else 0
    requires at == 1 ==> RoutingName(codec.nodes, words[0]).Some?
    requires RoutingName(codec.nodes, words[at]).Some? && RoutingName(codec.nodes, words[at + 1]).Some?
    requires RoutingName(codec.ptypes, words[at + 2]).Some?
    requires cmd == LowerText(words[at + 3]) && cmd in commands && !commands[cmd].rxOnly
    requires LastToEnd(commands[cmd].arguments) ==> |words| <= at + 3 + |commands[cmd].arguments|
    ensures var r := ParseCli(commands, codec, line); var meta := commands[cmd];
            && r.Parsed? && r.draft.cmdId == cmd && r.draft.args == ArgsOf(meta.arguments, words[at + 4..])
            && (forall f :: f in r.draft.packet ==>
                  && f in {"src", "dest", "echo", "ptype"}
                  && r.draft.packet[f] == Name((if f == "src" then RoutingName(codec.nodes, words[0])
                                                else if f == "dest" then RoutingName(codec.nodes, words[at])
                                                else if f == "echo" then RoutingName(codec.nodes, words[at + 1])
                                                else RoutingName(codec.ptypes, words[at + 2])).value))
            && ("src" in r.draft.packet <==>
                  && at == 1
                  && ("src" in meta.allowed
                      || ("src" in meta.packet && meta.packet["src"] != Name(RoutingName(codec.nodes, words[0]).value))))
            && ("dest" in r.draft.packet <==>
                  "dest" in meta.allowed
                  || ("dest" in meta.packet && meta.packet["dest"] != Name(RoutingName(codec.nodes, words[at]).value)))
            && ("echo" in r.draft.packet <==>
                  "echo" in meta.allowed
                  || ("echo" in meta.packet && meta.packet["echo"] != Name(RoutingName(codec.nodes, words[at + 1]).value)))
            && ("ptype" in r.draft.packet <==>
                  "ptype" in meta.allowed
                  || ("ptype" in meta.packet && meta.packet["ptype"] != Name(RoutingName(codec.ptypes, words[at + 2]).value)))
  {
    var src := if at == 1 then RoutingName(codec.nodes, words[0]) else None;
    var r := Route(at + 3, src, RoutingName(codec.nodes, words[at]).value, RoutingName(codec.nodes, words[at + 1]).value,
                   RoutingName(codec.ptypes, words[at + 2]).value);
    RoutedDraft(commands, codec, line, words, at, cmd, r);
    KeptTells(commands[cmd], r);
    DifferentFields();
    hide *;
  }

  lemma RoutedDraft(commands: Commands, codec: Codec, line: Text, words: seq<Text>, at: nat, cmd: string, r: Route)
    requires words == Split(line) && |words| >= 4 && LowerText(words[0]) !in commands
    requires at == if |words| >= 5 && RoutingName(codec.ptypes, words[3]).Some? then 1 else 0
    requires r.Route? && r.cmdIdx == at + 3
    requires r.src == (if at == 1 then RoutingName(codec.nodes, words[0]) else None) && (at == 1 ==> r.src.Some?)
    requires RoutingName(codec.nodes, words[at]) == Some(r.dest) && RoutingName(codec.nodes, words[at + 1]) == Some(r.echo)
    requires RoutingName(codec.ptypes, words[at + 2]) == Some(r.ptype)
    requires cmd == LowerText(words[at + 3]) && cmd in commands && !commands[cmd].rxOnly
    requires LastToEnd(commands[cmd].arguments) ==> |words| <= at + 3 + |commands[cmd].arguments|
    ensures ParseCli(commands, codec, line)
            == Parsed(Draft(cmd, ArgsOf(commands[cmd].arguments, words[at + 4..]), Kept(commands[cmd], ParsedPacket(r))))
  {
    hide *;
    SplitStripped(line);
    LineIsRouted(commands, codec, line, words);
    TokensBehind(Strip(line), words, at + 3, commands[cmd].arguments);
    RouteOfWords(codec, words, at, r);
    DraftOf(commands, codec, Strip(line), words, cmd, r);
  }

  lemma LineIsRouted(commands: Commands, codec: Codec, line: Text, words: seq<Text>)
    requires words == Split(Strip(line)) && words != [] && LowerText(words[0]) !in commands
    ensures ParseCli(commands, codec, line) == FullForm(commands, codec, Strip(line))
  {
    hide FullForm, Strip, Split, Skip, FirstWord, LowerText;
    FirstOfLine(Strip(line));
  }

  lemma TokensBehind(stripped: Text, words: seq<Text>, cmdIdx: nat, arguments: seq<Argument>)
    requires words == Split(stripped) && cmdIdx < |words|
    requires LastToEnd(arguments) ==> |words| <= cmdIdx + |arguments|
    ensures ArgTokens(stripped, words, cmdIdx, arguments) == words[cmdIdx + 1..]
  {
    if LastToEnd(arguments) {
      SplitMaxOfFew(stripped, cmdIdx + |arguments|);
    }
    hide Split, SplitMax, LastToEnd;
  }

  lemma DraftOf(commands: Commands, codec: Codec, stripped: Text, words: seq<Text>, cmd: string, r: Route)
    requires words == Split(stripped) && |words| >= 4
    requires RouteOf(codec, words) == r && r.Route? && r.cmdIdx < |words|
    requires cmd == LowerText(words[r.cmdIdx]) && cmd in commands && !commands[cmd].rxOnly
    ensures FullForm(commands, codec, stripped)
            == Parsed(Draft(cmd, ArgsOf(commands[cmd].arguments, ArgTokens(stripped, words, r.cmdIdx, commands[cmd].arguments)),
                            Kept(commands[cmd], ParsedPacket(r))))
  {
    hide RouteOf, Split, ArgTokens, Kept, ParsedPacket, LowerText, ArgsOf;
  }

  lemma RouteOfWords(codec: Codec, words: seq<Text>, at: nat, r: Route)
    requires |words| >= 4 && at == if |words| >= 5 && RoutingName(codec.ptypes, words[3]).Some? then 1 else 0
    requires r.Route? && r.cmdIdx == at + 3
    requires r.src == (if at == 1 then RoutingName(codec.nodes, words[0]) else None) && (at == 1 ==> r.src.Some?)
    requires RoutingName(codec.nodes, words[at]) == Some(r.dest) && RoutingName(codec.nodes, words[at + 1]) == Some(r.echo)
    requires RoutingName(codec.ptypes, words[at + 2]) == Some(r.ptype)
    ensures RouteOf(codec, words) == r
  {
    hide RoutingName;
  }

  lemma KeptTells(meta: Meta, r: Route)
    requires r.Route?
    ensures var packet := Kept(meta, ParsedPacket(r));
            && (forall f :: f in packet ==> f in {"src", "dest", "echo", "ptype"})
            && ("src" in packet ==> r.src.Some? && packet["src"] == Name(r.src.value))
            && ("dest" in packet ==> packet["dest"] == Name(r.dest))
            && ("echo" in packet ==> packet["echo"] == Name(r.echo))
            && ("ptype" in packet ==> packet["ptype"] == Name(r.ptype))
            && ("src" in packet <==>
                  r.src.Some? && ("src" in meta.allowed || ("src" in meta.packet && meta.packet["src"] != Name(r.src.value))))
            && ("dest" in packet <==>
                  "dest" in meta.allowed || ("dest" in meta.packet && meta.packet["dest"] != Name(r.dest)))
            && ("echo" in packet <==>
                  "echo" in meta.allowed || ("echo" in meta.packet && meta.packet["echo"] != Name(r.echo)))
            && ("ptype" in packet <==>
                  "ptype" in meta.allowed || ("ptype" in meta.packet && meta.packet["ptype"] != Name(r.ptype)))
  {
    DifferentFields();
  }

  lemma DifferentFields()
    ensures "src" != "dest" && "src" != "echo" && "src" != "ptype" && "dest" != "echo" && "dest" != "ptype" && "echo" != "ptype"
  {
    assert "src"[0] != "dest"[0] && "echo"[0] != "src"[0] && "dest"[0] != "echo"[0];
  }

  /** A map whose last argument is not the remainder is not the one meant. */
  lemma LastDiffers(arguments: seq<Argument>, tokens: seq<Text>, fixed: seq<Text>, remainder: Text)
    requires LastToEnd(arguments) && |arguments| == |fixed| + 1
    requires |tokens| >= |arguments| ==> tokens[|arguments| - 1] != remainder
    ensures ArgsOf(arguments, tokens) != ArgsOf(arguments, fixed + [remainder])
  {
    var n := |arguments|;
    var meant := ArgsOf(arguments, fixed + [remainder]);
    assert meant[arguments[n - 1].name] == Verbatim(remainder);
    if |tokens| >= n {
      assert ArgsOf(arguments, tokens)[arguments[n - 1].name] == Verbatim(tokens[n - 1]);
    } else {
      hide LastToEnd;
      EarlierAreCoerced(arguments, tokens, |tokens|);
    }
  }

  lemma {:induction false} EarlierAreCoerced(arguments: seq<Argument>, tokens: seq<Text>, k: nat)
    requires k < |arguments| && k <= |tokens|
    ensures forall name :: name in Args(arguments, tokens, k) ==> Args(arguments, tokens, k)[name].Coerced?
  {
    if k > 0 {
      EarlierAreCoerced(arguments, tokens, k - 1);
    }
  }

  /** A first token that names a command: the routing goes into that command's text. */
  lemma TakenForShortcut(commands: Commands, codec: Codec, line: Text, words: seq<Text>, gaps: seq<Text>, remainder: Text,
                         routing: seq<Text>, command: Text, fixed: seq<Text>, r: Route)
    requires words == routing + [command] + fixed && |gaps| == |words|
    requires Words(words) && Gaps(gaps) && Remainder(remainder)
    requires RoutedLine(commands, codec, routing, command, fixed, r)
    requires Strip(line) == Typed(words, gaps, remainder) && Skip(Strip(line)) != []
    requires FirstWord(Strip(line)) == routing[0] && LowerText(routing[0]) in commands
    ensures ParseCli(commands, codec, line)
            != Intended(commands[LowerText(command)], LowerText(command), fixed, remainder, r)
  {
    var cmd, first := LowerText(command), LowerText(routing[0]);
    if first == cmd {
      var arguments := commands[cmd].arguments;
      var n := |arguments|;
      assert |routing| >= 3;
      PiecesOfShortcut(words, gaps, remainder, n);
      var pieces := SplitMax(Typed(words, gaps, remainder), n);
      hide Typed, SplitMax, Words, Gaps, FirstWord, Skip, Strip, LowerText, RoutedBy, ArgsOf;
      LastDiffers(arguments, pieces[1..], fixed, remainder);
    }
  }

  lemma PiecesOfShortcut(words: seq<Text>, gaps: seq<Text>, remainder: Text, n: nat)
    requires |gaps| == |words| && Words(words) && Gaps(gaps) && Remainder(remainder) && 0 < n < |words|
    ensures var pieces := SplitMax(Typed(words, gaps, remainder), n);
            |pieces| == n + 1 && |pieces[n]| > |remainder|
  {
    var text := Typed(words[n..], gaps[n..], remainder);
    assert Words(words[..n]) && Words(words[n..]) && Gaps(gaps[..n]) && Gaps(gaps[n..]);
    hide Words, Gaps, SplitMax, Typed;
    TypedSplits(words, gaps, remainder, n);
    TypedIsLonger(words[n..], gaps[n..], remainder);
    TypedStarts(words[n..], gaps[n..], remainder);
    TypedEnds(words[n..], gaps[n..], remainder);
    SplitMaxTyped(words[..n], gaps[..n], text);
  }

  /** Without a source, a command named like a packet type: the token behind it is
      taken for the command. */
  lemma TakenForSource(commands: Commands, codec: Codec, stripped: Text, routing: seq<Text>, command: Text,
                       fixed: seq<Text>, gaps: seq<Text>, remainder: Text, r: Route)
    requires var words := routing + [command] + fixed;
             && |gaps| == |words| && Words(words) && Gaps(gaps) && Remainder(remainder)
             && stripped == Typed(words, gaps, remainder)
    requires RoutedLine(commands, codec, routing, command, fixed, r) && |routing| == 3 && TokenIsPtype(codec, command)
    ensures var p := FullForm(commands, codec, stripped);
            && p != Intended(commands[LowerText(command)], LowerText(command), fixed, remainder, r)
            && (p.Parsed? ==> p.draft.cmdId == LowerText((fixed + Split(remainder))[0]))
  {
    var words, cmd := routing + [command] + fixed, LowerText(command);
    assert RoutedBy(codec, routing, r) && cmd in commands && LastToEnd(commands[cmd].arguments);
    assert |commands[cmd].arguments| == |fixed| + 1;
    hide *;
    PartsFirst(routing, command, fixed, gaps, remainder);
    var more := fixed + Split(remainder);
    assert Split(stripped) == routing + [command] + more;
    SourceIsTaken(codec, Split(stripped));
    PiecesOfRouted(words, gaps, remainder, 4 + |commands[cmd].arguments|);
    ShortOfLast(commands, codec, stripped, Split(stripped), cmd, more[0], fixed, remainder, r);
  }

  lemma ShortOfLast(commands: Commands, codec: Codec, stripped: Text, parts: seq<Text>, cmd: string, next: Text,
                    fixed: seq<Text>, remainder: Text, r: Route)
    requires parts == Split(stripped) && |parts| >= 5 && parts[4] == next && r.Route?
    requires RouteOf(codec, parts).Route? ==> RouteOf(codec, parts).cmdIdx == 4
    requires cmd in commands && LastToEnd(commands[cmd].arguments) && |commands[cmd].arguments| == |fixed| + 1
    requires var n := 4 + |commands[cmd].arguments|; var pieces := SplitMax(stripped, n);
             && n - 1 < |pieces| <= n + 1
             && (|pieces| == n + 1 ==> |pieces[n]| < |remainder|)
    ensures var p := FullForm(commands, codec, stripped);
            && p != Intended(commands[cmd], cmd, fixed, remainder, r)
            && (p.Parsed? ==> p.draft.cmdId == LowerText(next))
  {
    hide Split, SplitMax, LowerText, ArgsOf, RouteOf, LastToEnd, Kept, ParsedPacket;
    if RouteOf(codec, parts).Route? && LowerText(next) == cmd {
      LastDiffers(commands[cmd].arguments, ArgTokens(stripped, parts, 4, commands[cmd].arguments), fixed, remainder);
    }
  }

  lemma SourceIsTaken(codec: Codec, parts: seq<Text>)
    requires |parts| >= 5 && TokenIsPtype(codec, parts[3])
    ensures RouteOf(codec, parts).Route? ==> RouteOf(codec, parts).cmdIdx == 4
  {
    hide RoutingName;
  }

  /** One token more than the words is taken off the remainder. */
  lemma PiecesOfRouted(words: seq<Text>, gaps: seq<Text>, remainder: Text, n: nat)
    requires |gaps| == |words| && Words(words) && Gaps(gaps) && Remainder(remainder) && n == |words| + 1
    ensures var pieces := SplitMax(Typed(words, gaps, remainder), n);
            && |words| < |pieces| <= n + 1
            && (|pieces| == n + 1 ==> |pieces[n]| < |remainder|)
  {
    hide Words, Gaps, Typed;
    SplitMaxTypedMore(words, gaps, remainder, 1, n);
    OneOff(remainder);
  }

  lemma OneOff(t: Text)
    requires Remainder(t)
    ensures 1 <= |SplitMax(t, 1)| <= 2 && (|SplitMax(t, 1)| == 2 ==> |SplitMax(t, 1)[1]| < |t|)
  {
    SkipNone(t);
    WordStart(t);
    assert SplitMax(t, 1) == [FirstWord(t)] + SplitMax(t[End(t)..], 0);
  }

  lemma NotShortcut(commands: Commands, codec: Codec, line: Text, stripped: Text, first: Text)
    requires stripped == Strip(line) && Skip(stripped) != [] && FirstWord(stripped) == first
    requires LowerText(first) !in commands
    ensures ParseCli(commands, codec, line) == FullForm(commands, codec, stripped)
  {
    hide Skip, FirstWord, Strip, FullForm;
  }

  lemma PartsFirst(routing: seq<Text>, command: Text, fixed: seq<Text>, gaps: seq<Text>, remainder: Text)
    requires routing != [] && |gaps| == |routing + [command] + fixed|
    requires Words(routing + [command] + fixed) && Gaps(gaps) && Remainder(remainder)
    ensures var t := Typed(routing + [command] + fixed, gaps, remainder);
            && Skip(t) != [] && FirstWord(t) == routing[0]
            && |Split(remainder)| >= 1
            && Split(t) == routing + [command] + (fixed + Split(remainder))
  {
    hide Skip, FirstWord, Typed, Words, Gaps, Remainder, Split;
    var words := routing + [command] + fixed;
    FirstOfTyped(words, gaps, remainder);
    SplitTyped(words, gaps, remainder);
    SomeWords(remainder);
    ConcatAssociates(routing + [command], fixed, Split(remainder));
  }

  lemma FullFormKeeps(commands: Commands, codec: Codec, stripped: Text, routing: seq<Text>, command: Text,
                      fixed: seq<Text>, gaps: seq<Text>, remainder: Text, r: Route)
    requires |Split(remainder)| >= 1 && Split(stripped) == routing + [command] + (fixed + Split(remainder))
    requires SplitMax(stripped, |routing + [command] + fixed|) == routing + [command] + fixed + [remainder]
    requires RoutedBy(codec, routing, r) && (|routing| == 3 ==> !TokenIsPtype(codec, command))
    requires var cmd := LowerText(command);
             && cmd in commands && !commands[cmd].rxOnly && LastToEnd(commands[cmd].arguments)
             && |commands[cmd].arguments| == |fixed| + 1
    ensures var cmd := LowerText(command);
            FullForm(commands, codec, stripped)
            == Parsed(Draft(cmd, ArgsOf(commands[cmd].arguments, fixed + [remainder]),
                            Kept(commands[cmd], ParsedPacket(r))))
  {
    hide Split, SplitMax, LowerText, Args, ArgsOf, RoutingName, TokenIsPtype, RouteOf, ArgTokens, ParsedPacket, Kept, LastToEnd;
    var parts := Split(stripped);
    var more := fixed + Split(remainder);
    assert parts[|routing|] == command;
    RouteIs(codec, routing, command, more, r);
    RoutedTokens(stripped, routing, command, fixed, remainder, parts, commands[LowerText(command)].arguments);
  }

  // ---- Two lines that are not parsed as they were meant ------------------------------

  const TEXT_ARGUMENT: seq<Argument> := [Argument("text", ToEnd)]
  const SPACE: Text := [32]
  const A_NAME: Text := [65]
  const LOG_NAME: Text := [108, 111, 103]
  const ACK_NAME: Text := [97, 99, 107]
  const CMD_NAME: Text := [99, 109, 100]
  const HI: Text := [104, 105]

  /** A node named like a command: `log A cmd log hi` sends the text `A cmd log hi`,
      with no routing. */
  lemma NodeNamedLikeCommand(codec: Codec, meta: Meta)
    requires meta.arguments == TEXT_ARGUMENT && !meta.rxOnly
    ensures var words := [LOG_NAME, A_NAME, CMD_NAME, LOG_NAME]; var gaps := [SPACE, SPACE, SPACE, SPACE];
            var text := Typed(words[1..], gaps[1..], HI);
            ParseCli(map["log" := meta], codec, Line([], words, gaps, HI, []))
            == Parsed(Draft("log", map["text" := Verbatim(text)], map[]))
  {
    var words, gaps := [LOG_NAME, A_NAME, CMD_NAME, LOG_NAME], [SPACE, SPACE, SPACE, SPACE];
    var text := Typed(words[1..], gaps[1..], HI);
    assert Words(words[1..]) && Gaps(gaps[1..]) && Remainder(HI);
    hide Typed;
    TypedStarts(words[1..], gaps[1..], HI);
    TypedEnds(words[1..], gaps[1..], HI);
    SameLine(words, gaps, HI, [LOG_NAME], [SPACE]);
    LogIsLog();
    ShortcutKeepsRemainder(map["log" := meta], codec, [], [LOG_NAME], [SPACE], text, []);
    assert [LOG_NAME][1..] + [text] == [text];
    OneText(text);
  }

  lemma SameLine(words: seq<Text>, gaps: seq<Text>, remainder: Text, first: seq<Text>, firstGap: seq<Text>)
    requires |words| == |gaps| > 0 && first == [words[0]] && firstGap == [gaps[0]]
    ensures Line([], words, gaps, remainder, [])
            == Line([], first, firstGap, Typed(words[1..], gaps[1..], remainder), [])
  {
    TypedSplits(words, gaps, remainder, 1);
    assert words[..1] == first && gaps[..1] == firstGap;
  }

  lemma LogIsLog()
    ensures LowerText(LOG_NAME) == "log" && LowerText(ACK_NAME) == "ack"
  {
  }

  lemma OneText(text: Text)
    ensures ArgsOf(TEXT_ARGUMENT, [text]) == map["text" := Verbatim(text)]
  {
    assert Args(TEXT_ARGUMENT, [text], 0) == map[];
  }

  /** A command named like a packet type: `A A cmd ack hi` is refused, because `cmd` is
      then read as the echo node. */
  lemma CommandNamedLikePtype(meta: Meta, cmd: byte, ack: byte)
    requires meta.arguments == TEXT_ARGUMENT && !meta.rxOnly && cmd != ack
    ensures var codec := Codec(Table(map["A" := 1], map[1 := "A"]),
                               Table(map["cmd" := cmd, "ack" := ack], map[cmd := "cmd", ack := "ack"]), None);
            ParseCli(map["ack" := meta], codec,
                     Line([], [A_NAME, A_NAME, CMD_NAME, ACK_NAME], [SPACE, SPACE, SPACE, SPACE], HI, []))
            == Failed(BadNode("echo"))
  {
    var codec := Codec(Table(map["A" := 1], map[1 := "A"]),
                       Table(map["cmd" := cmd, "ack" := ack], map[cmd := "cmd", ack := "ack"]), None);
    LowerOfA();
    NamesOfTokens(codec.nodes, codec.ptypes);
    FourWords(A_NAME, A_NAME, CMD_NAME, ACK_NAME, SPACE, HI);
    hide *;
    EchoIsNoNode(map["ack" := meta], codec, [A_NAME, A_NAME, CMD_NAME, ACK_NAME], [SPACE, SPACE, SPACE, SPACE], HI);
  }

  lemma FourWords(a: Text, b: Text, c: Text, d: Text, gap: Text, remainder: Text)
    requires a == A_NAME && b == A_NAME && c == CMD_NAME && d == ACK_NAME && gap == SPACE && remainder == HI
    ensures LineParts([], [a, b, c, d], [gap, gap, gap, gap], remainder, [])
  {
  }

  /** Four words of which the third names no node, although the fourth is a packet type. */
  lemma EchoIsNoNode(commands: Commands, codec: Codec, words: seq<Text>, gaps: seq<Text>, remainder: Text)
    requires |words| == 4 && LineParts([], words, gaps, remainder, []) && LowerText(words[0]) !in commands
    requires RoutingName(codec.nodes, words[0]).Some? && RoutingName(codec.nodes, words[1]).Some?
    requires RoutingName(codec.nodes, words[2]).None? && RoutingName(codec.ptypes, words[3]).Some?
    ensures ParseCli(commands, codec, Line([], words, gaps, remainder, [])) == Failed(BadNode("echo"))
  {
    assert |gaps| == |words| && Words(words) && Gaps(gaps) && Remainder(remainder);
    hide *;
    var routing, command := words[..3], words[3];
    assert words == routing + [command] + [];
    StripLine([], words, gaps, remainder, []);
    PartsFirst(routing, command, [], gaps, remainder);
    var stripped := Typed(words, gaps, remainder);
    NotShortcut(commands, codec, Line([], words, gaps, remainder, []), stripped, words[0]);
    var parts := Split(stripped);
    assert forall i :: 0 <= i < 4 ==> parts[i] == words[i];
    EchoRefused(commands, codec, stripped);
  }

  lemma LowerOfA()
    ensures LowerText(A_NAME) == "a" && "a" != "ack"
  {
    assert |"a"| != |"ack"|;
  }

  lemma EchoRefused(commands: Commands, codec: Codec, stripped: Text)
    requires var parts := Split(stripped);
             && |parts| >= 5 && RoutingName(codec.ptypes, parts[3]).Some?
             && RoutingName(codec.nodes, parts[0]).Some? && RoutingName(codec.nodes, parts[1]).Some?
             && RoutingName(codec.nodes, parts[2]).None?
    ensures FullForm(commands, codec, stripped) == Failed(BadNode("echo"))
  {
    hide RoutingName, Split;
  }

  lemma NamesOfTokens(nodes: Table, ptypes: Table)
    requires nodes.byName.Keys == {"A"} && "ack" in ptypes.byName
    ensures RoutingName(nodes, A_NAME).Some? && RoutingName(nodes, CMD_NAME).None?
    ensures RoutingName(ptypes, ACK_NAME).Some?
  {
    assert A_NAME[0..] == A_NAME && CMD_NAME[0..] == CMD_NAME && ACK_NAME[0..] == ACK_NAME;
    assert A_NAME[0] == 65 && CMD_NAME[0] == 99 && ACK_NAME[0] == 97;
    assert Chars(A_NAME) == "A" && Chars(CMD_NAME) == "cmd" && Chars(ACK_NAME) == "ack";
    assert "cmd"[0] != "A"[0];
  }
}

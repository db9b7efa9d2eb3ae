/** From a parsed command to its bytes and back: `validate` and `encode` of
    `mav_gss_lib/platform/spec/command_codec.py`, `encode_args` of
    `mav_gss_lib/platform/spec/runtime.py`, and the cursor reads that recover the
    arguments. How a number is spelt and read is a parameter. */
module CommandEncodings {
  import opened Options
  import opened Bitwise
  import opened Texts
  import opened TokenCursors
  import opened MaverCodecs
  import opened CommandLines
  import opened ByteOrders
  import TypeCodecs

  /** `encode_ascii` of one value; `None` when it raises. */
  type Speller = (Kind, Given) -> Option<Text>

  /** A value as a number: `NotFinite` is an infinity or not-a-number. */
  datatype Number = NotNumeric | Number(n: real) | NotFinite

  type Reader = (Argument, Given) -> Number

  /** What the argument type says about its numbers. */
  datatype Limits = Limits(sizeBits: nat, signed: bool, validRange: Option<(real, real)>, validValues: Option<set<real>>)

  datatype Rules = Rules(spell: Speller, read: Reader, limits: Argument -> Limits)

  /** Text goes out as it is; numbers and tokens go out as words. */
  ghost predicate Spells(spell: Speller) {
    && (forall t :: spell(Token, Verbatim(t)) == Some(t) && spell(ToEnd, Verbatim(t)) == Some(t))
    && (forall k, t :: IsWord(t) && Ascii(t) && spell(k, Coerced(t)).Some? ==>
          IsWord(spell(k, Coerced(t)).value) && Ascii(spell(k, Coerced(t)).value))
  }

  // ---- Validation -------------------------------------------------------------------

  datatype Issue =
    | NotAnArgument(name: string)
    | Missing(name: string)
    | UnknownType(name: string)
    | NotAscii(name: string)
    | HasWhitespace(name: string)
    | MustBeNumber(name: string)
    | OutsideRange(name: string)
    | NotListed(name: string)

  predicate IsGiven(args: map<string, Given>, name: string) {
    name in args && args[name] != Verbatim([])
  }

  predicate Known(arguments: seq<Argument>, name: string) {
    exists i :: 0 <= i < |arguments| && arguments[i].name == name
  }

  /** An explicit range wins; an integer without one has the range of its width. */
  function Bounds(kind: Kind, limits: Limits): Option<(real, real)> {
    if limits.validRange.Some? || !kind.Integer? then limits.validRange
    else if limits.signed && limits.sizeBits > 0 then
      Some((-(Pow2(limits.sizeBits - 1) as real), (Pow2(limits.sizeBits - 1) - 1) as real))
    else Some((0.0, (Pow2(limits.sizeBits) - 1) as real))
  }

  /** An integer argument takes whole numbers only. */
  predicate Suits(kind: Kind, number: Number) {
    match number
    case NotNumeric => false
    case NotFinite => !kind.Integer?
    case Number(n) => kind.Integer? ==> n == n.Floor as real
  }

  function NumberIssues(kind: Kind, limits: Limits, name: string, number: Number): seq<Issue> {
    if !Suits(kind, number) then [MustBeNumber(name)]
    else
      var bounds := Bounds(kind, limits);
      (if bounds.Some? && !(number.Number? && bounds.value.0 <= number.n <= bounds.value.1)
       then [OutsideRange(name)] else [])
      + (if limits.validValues.Some? && !(number.Number? && number.n in limits.validValues.value)
         then [NotListed(name)] else [])
  }

  /** `_check_arg_against_type`; a known type of another kind has nothing to check. */
  function TypeIssues(rules: Rules, arg: Argument, value: Given): seq<Issue> {
    match arg.kind
    case Unsupported => [UnknownType(arg.name)]
    case Other => []
    case Integer => NumberIssues(arg.kind, rules.limits(arg), arg.name, rules.read(arg, value))
    case Float => NumberIssues(arg.kind, rules.limits(arg), arg.name, rules.read(arg, value))
    case ToEnd =>
      var s := rules.spell(ToEnd, value);
      if s.Some? && Ascii(s.value) then [] else [NotAscii(arg.name)]
    case Token =>
      var s := rules.spell(Token, value);
      if s.None? || !Ascii(s.value) then [NotAscii(arg.name)]
      else if !Wordy(s.value) then [HasWhitespace(arg.name)] else []
  }

  function ArgumentIssues(rules: Rules, arg: Argument, args: map<string, Given>): seq<Issue> {
    if !IsGiven(args, arg.name) then [Missing(arg.name)] else TypeIssues(rules, arg, args[arg.name])
  }

  /** The issues of the arguments, in their order. */
  function AllIssues(rules: Rules, arguments: seq<Argument>, args: map<string, Given>): seq<Issue> {
    if arguments == [] then []
    else
      var n := |arguments| - 1;
      AllIssues(rules, arguments[..n], args) + ArgumentIssues(rules, arguments[n], args)
  }

  /** What cannot be said of an argument that is missing or not of a number type. */
  lemma TextIssues(rules: Rules, arg: Argument, args: map<string, Given>)
    ensures var issues := ArgumentIssues(rules, arg, args); var given := arg.name in args && args[arg.name] != Verbatim([]);
            && (Missing(arg.name) in issues <==> !given)
            && (UnknownType(arg.name) in issues <==> given && arg.kind.Unsupported?)
            && (NotAscii(arg.name) in issues <==>
                  && given && (arg.kind.Token? || arg.kind.ToEnd?)
                  && var s := rules.spell(arg.kind, args[arg.name]);
                     s.None? || exists i :: 0 <= i < |s.value| && s.value[i] >= 128)
            && (HasWhitespace(arg.name) in issues <==>
                  && given && arg.kind.Token?
                  && var s := rules.spell(arg.kind, args[arg.name]);
                     && s.Some? && (forall i :: 0 <= i < |s.value| ==> s.value[i] < 128)
                     && exists i :: 0 <= i < |s.value| && (9 <= s.value[i] <= 13 || 28 <= s.value[i] <= 32))
  {
  }

  /** An integer argument takes what reads as a whole number, and without an explicit
      range it takes the numbers that as many bytes, of its sign, can hold. */
  lemma IntegerIssues(rules: Rules, arg: Argument, args: map<string, Given>, bytes: nat)
    requires arg.kind.Integer? && arg.name in args && args[arg.name] != Verbatim([])
    requires rules.limits(arg).sizeBits == 8 * bytes
    ensures var issues := ArgumentIssues(rules, arg, args); var limits := rules.limits(arg);
            var number := rules.read(arg, args[arg.name]);
            var whole := number.Number? && number.n == number.n.Floor as real;
            && (MustBeNumber(arg.name) in issues <==> !whole)
            && (OutsideRange(arg.name) in issues <==>
                  && whole
                  && if limits.validRange.Some?
                     then number.n < limits.validRange.value.0 || number.n > limits.validRange.value.1
                     else !TypeCodecs.InRange(TypeCodecs.Wire(bytes, Little, limits.signed), number.n.Floor))
            && (NotListed(arg.name) in issues <==>
                  whole && limits.validValues.Some? && number.n !in limits.validValues.value)
  {
    var limits := rules.limits(arg);
    BitsAndBytes(limits, bytes);
    hide Pow2, Pow256;
  }

  lemma BitsAndBytes(limits: Limits, bytes: nat)
    requires limits.sizeBits == 8 * bytes
    ensures Pow2(limits.sizeBits) == Pow256(bytes)
    ensures limits.sizeBits > 0 ==> 2 * Pow2(limits.sizeBits - 1) == Pow256(bytes)
    ensures bytes == 0 ==> Pow256(bytes) == 1
  {
    BytesInBits(bytes);
  }

  /** A floating-point argument takes whatever reads as a number, and only an explicit
      range limits it; an infinity or not-a-number is outside every range and list. */
  lemma FloatIssues(rules: Rules, arg: Argument, args: map<string, Given>)
    requires arg.kind.Float? && arg.name in args && args[arg.name] != Verbatim([])
    ensures var issues := ArgumentIssues(rules, arg, args); var limits := rules.limits(arg);
            var number := rules.read(arg, args[arg.name]);
            && (MustBeNumber(arg.name) in issues <==> number.NotNumeric?)
            && (OutsideRange(arg.name) in issues <==>
                  && !number.NotNumeric? && limits.validRange.Some?
                  && (number.Number? ==> number.n < limits.validRange.value.0 || number.n > limits.validRange.value.1))
            && (NotListed(arg.name) in issues <==>
                  && !number.NotNumeric? && limits.validValues.Some?
                  && (number.Number? ==> number.n !in limits.validValues.value))
  {
  }

  /** Every issue is about the argument itself, and only a number type has numeric ones. */
  lemma OwnIssues(rules: Rules, arg: Argument, args: map<string, Given>, issue: Issue)
    requires issue in ArgumentIssues(rules, arg, args)
    ensures issue.name == arg.name && !issue.NotAnArgument?
    ensures issue.MustBeNumber? || issue.OutsideRange? || issue.NotListed? ==>
              (arg.kind.Integer? || arg.kind.Float?) && arg.name in args && args[arg.name] != Verbatim([])
  {
  }

  /** The issues are those of the names that are no argument, in any order, and then
      those of the arguments, in theirs. */
  method Validate(rules: Rules, arguments: seq<Argument>, args: map<string, Given>)
    returns (issues: seq<Issue>, ghost unknown: seq<Issue>)
    ensures issues == unknown + AllIssues(rules, arguments, args)
    ensures forall i, j :: 0 <= i < j < |unknown| ==> unknown[i] != unknown[j]
    ensures forall issue :: issue in unknown <==>
              exists name :: name in args && issue == NotAnArgument(name)
                             && forall i :: 0 <= i < |arguments| ==> arguments[i].name != name
    ensures forall issue :: issue in issues <==>
              || (exists name :: name in args && issue == NotAnArgument(name)
                    && forall i :: 0 <= i < |arguments| ==> arguments[i].name != name)
              || (exists i :: 0 <= i < |arguments| && issue in ArgumentIssues(rules, arguments[i], args))
  {
    hide ArgumentIssues;
    issues := [];
    var left := args.Keys;
    while left != {}
      invariant left <= args.Keys
      invariant forall i, j :: 0 <= i < j < |issues| ==> issues[i] != issues[j]
      invariant forall issue :: issue in issues <==>
                  exists name :: name in args.Keys - left && !Known(arguments, name) && issue == NotAnArgument(name)
      decreases |left|
    {
      var name :| name in left;
      assert NotAnArgument(name) !in issues;
      ghost var before := left;
      left := left - {name};
      assert args.Keys - left == (args.Keys - before) + {name};
      if !Known(arguments, name) {
        issues := issues + [NotAnArgument(name)];
      }
    }
    assert args.Keys - left == args.Keys;
    unknown := issues;
    for i := 0 to |arguments|
      invariant issues == unknown + AllIssues(rules, arguments[..i], args)
      invariant forall issue :: issue in issues <==>
                  || issue in unknown
                  || (exists j :: 0 <= j < i && issue in ArgumentIssues(rules, arguments[j], args))
    {
      assert arguments[..i + 1][..i] == arguments[..i];
      issues := issues + ArgumentIssues(rules, arguments[i], args);
    }
    assert arguments[..|arguments|] == arguments;
  }

  // ---- Encoding the arguments -----------------------------------------------------------

  /** `" ".join(tokens)` */
  function Join(tokens: seq<Text>): Text {
    if tokens == [] then []
    else if |tokens| == 1 then tokens[0]
    else tokens[0] + ([32] + Join(tokens[1..]))
  }

  const NONE_TEXT: Text := [78, 111, 110, 101]

  /** A missing value is spelt "None" as text and refused as a number. */
  function SpellArgument(spell: Speller, arg: Argument, args: map<string, Given>): Option<Text> {
    if arg.kind.Unsupported? || arg.kind.Other? then None
    else if arg.name in args then spell(arg.kind, args[arg.name])
    else if arg.kind.Token? || arg.kind.ToEnd? then Some(NONE_TEXT)
    else None
  }

  function SpellAll(spell: Speller, arguments: seq<Argument>, args: map<string, Given>): Option<seq<Text>>
    decreases |arguments|
  {
    if arguments == [] then Some([])
    else
      var n := |arguments| - 1;
      var front, last := SpellAll(spell, arguments[..n], args), SpellArgument(spell, arguments[n], args);
      if front.None? || last.None? then None else Some(front.value + [last.value])
  }

  function ArgsBytes(spell: Speller, arguments: seq<Argument>, args: map<string, Given>): Option<Text> {
    var tokens := SpellAll(spell, arguments, args);
    if tokens.None? || !Ascii(Join(tokens.value)) then None else Some(Join(tokens.value))
  }

  method EncodeArgs(spell: Speller, arguments: seq<Argument>, args: map<string, Given>) returns (r: Option<Text>)
    ensures r == ArgsBytes(spell, arguments, args)
  {
    hide SpellArgument;
    if arguments == [] {
      return Some([]);
    }
    var tokens: seq<Text> := [];
    for i := 0 to |arguments|
      invariant SpellAll(spell, arguments[..i], args) == Some(tokens)
      invariant |tokens| == i
    {
      assert arguments[..i + 1][..i] == arguments[..i];
      var token := SpellArgument(spell, arguments[i], args);
      if token.None? {
        NoSpelling(spell, arguments, args, i);
        return None;
      }
      tokens := tokens + [token.value];
    }
    assert arguments[..|arguments|] == arguments;
    r := if Ascii(Join(tokens)) then Some(Join(tokens)) else None;
  }

  lemma {:induction false} NoSpelling(spell: Speller, arguments: seq<Argument>, args: map<string, Given>, i: nat)
    requires i < |arguments| && SpellArgument(spell, arguments[i], args).None?
    ensures SpellAll(spell, arguments, args).None?
    decreases |arguments|
  {
    var n := |arguments| - 1;
    if i < n {
      NoSpelling(spell, arguments[..n], args, i);
    }
  }

  /** An argument that is not there is sent as the text "None" when it is text, and
      refuses the command otherwise. Validation reports it; encoding does not ask. */
  lemma MissingIsSpelt(spell: Speller, arg: Argument, args: map<string, Given>)
    requires arg.name !in args
    ensures ArgsBytes(spell, [arg], args)
            == if arg.kind == Token || arg.kind == ToEnd then Some([78, 111, 110, 101]) else None
  {
    var one, spelt := [arg], SpellArgument(spell, arg, args);
    assert one[..0] == [] && SpellAll(spell, one[..0], args) == Some([]);
    assert SpellAll(spell, one, args) == if spelt.Some? then Some([] + [spelt.value]) else None;
    assert spelt.Some? ==> Join([spelt.value]) == NONE_TEXT;
  }

  /** What reads as a number can be spelt as one. */
  ghost predicate NumbersSpelt(rules: Rules) {
    forall arg: Argument, value: Given :: (arg.kind.Integer? || arg.kind.Float?) && !rules.read(arg, value).NotNumeric? ==>
      rules.spell(arg.kind, value).Some? && Ascii(rules.spell(arg.kind, value).value)
  }

  ghost predicate NoIssues(rules: Rules, arguments: seq<Argument>, args: map<string, Given>) {
    forall i :: 0 <= i < |arguments| ==> ArgumentIssues(rules, arguments[i], args) == []
  }

  lemma ValidatedIsSpelt(rules: Rules, arg: Argument, args: map<string, Given>)
    requires NumbersSpelt(rules) && ArgumentIssues(rules, arg, args) == []
    ensures SpellArgument(rules.spell, arg, args).Some? <==> !arg.kind.Other?
    ensures SpellArgument(rules.spell, arg, args).Some? ==> Ascii(SpellArgument(rules.spell, arg, args).value)
  {
    hide Ascii, Wordy, Bounds;
    if arg.kind.Integer? || arg.kind.Float? {
      assert !rules.read(arg, args[arg.name]).NotNumeric?;
    }
  }

  lemma {:induction false} AllSpelt(rules: Rules, arguments: seq<Argument>, args: map<string, Given>)
    requires NumbersSpelt(rules) && NoIssues(rules, arguments, args)
    ensures var tokens := SpellAll(rules.spell, arguments, args);
            && (tokens.Some? <==> forall i :: 0 <= i < |arguments| ==> !arguments[i].kind.Other?)
            && (tokens.Some? ==> forall i :: 0 <= i < |tokens.value| ==> Ascii(tokens.value[i]))
    decreases |arguments|
  {
    hide Ascii, SpellArgument, ArgumentIssues, NumbersSpelt;
    if arguments != [] {
      var n := |arguments| - 1;
      var front := arguments[..n];
      assert NoIssues(rules, front, args);
      AllSpelt(rules, front, args);
      ValidatedIsSpelt(rules, arguments[n], args);
      assert forall i :: 0 <= i < n ==> front[i] == arguments[i];
    }
  }

  /** Validated arguments can be encoded, unless one is of a known type that is neither
      a number nor text: validation lets it pass and the encoder refuses it. */
  lemma ValidatedEncodes(rules: Rules, arguments: seq<Argument>, args: map<string, Given>)
    requires NumbersSpelt(rules) && NoIssues(rules, arguments, args)
    ensures ArgsBytes(rules.spell, arguments, args).Some? <==> forall i :: 0 <= i < |arguments| ==> !arguments[i].kind.Other?
  {
    hide Ascii, SpellArgument, NumbersSpelt, NoIssues;
    AllSpelt(rules, arguments, args);
    var tokens := SpellAll(rules.spell, arguments, args);
    if tokens.Some? {
      JoinIsAscii(tokens.value);
    }
  }

  // ---- Reading them back ------------------------------------------------------------------

  function FirstWords(t: Text, n: nat): seq<Text> {
    if |Split(t)| <= n then Split(t) else Split(t)[..n]
  }

  /** A cursor that reads `n` tokens and then the remaining bytes. */
  method ReadArgs(data: Text, n: nat) returns (tokens: seq<Text>, remainder: Text)
    requires n <= |Split(data)| && forall i :: 0 <= i < n ==> Ascii(Split(data)[i])
    ensures tokens == FirstWords(data, n) && remainder == TrimLeft(After(data, n))
  {
    hide Split, FirstWord, End, Skip, TrimLeft, After, Ascii;
    var c := new TokenCursor(data);
    tokens := [];
    var i := 0;
    AfterNone(data);
    while i < n
      invariant 0 <= i <= n && c.InStep() && c.idx == i && c.buf == data && c.tokens == Split(data)
      invariant tokens == Split(data)[..i]
      invariant After(data, n) == After(c.Left(), n - i)
      modifies c
    {
      AfterStep(c.Left(), n - i, c.tokens[i..]);
      var token := ReadAscii(c);
      tokens := tokens + [token];
      i := i + 1;
    }
    AfterNone(c.Left());
    remainder := c.ReadRemainingBytes();
  }

  method ReadAscii(c: TokenCursor) returns (token: Text)
    requires c.InStep() && c.idx < |c.tokens| && Ascii(c.tokens[c.idx])
    modifies c
    ensures c.InStep() && c.idx == old(c.idx) + 1
    ensures token == c.tokens[old(c.idx)] && c.Left() == old(c.Left())[End(old(c.Left()))..]
  {
    hide Split, FirstWord, End, Ascii;
    ghost var left := c.Left();
    assert Split(left) == c.tokens[c.idx..];
    var r := c.ReadToken();
    token := r.value;
    assert c.offset == old(c.offset) + End(left);
  }

  lemma AfterStep(t: Text, n: nat, words: seq<Text>)
    requires n > 0 && words == Split(t) && words != []
    ensures After(t, n) == After(t[End(t)..], n - 1)
  {
    NotBlank(t);
  }

  lemma NotBlank(t: Text)
    requires Split(t) != []
    ensures Skip(t) != []
  {
  }

  lemma AfterSkipsBlank(gap: Text, t: Text, n: nat)
    requires Blank(gap) && Skip(t) != [] && n > 0
    ensures After(gap + t, n) == After(t, n)
  {
    hide Split, FirstWord, End;
    SplitSkipsBlank(gap, t);
    SkipSkipsBlank(gap, t);
    assert (gap + t)[End(gap + t)..] == t[End(t)..];
  }

  lemma FirstTaken(word: Text, rest: Text, n: nat)
    requires IsWord(word) && rest != [] && Space(rest[0]) && n > 0
    ensures After(word + rest, n) == After(rest, n - 1)
    ensures Split(word + rest) == [word] + Split(rest)
    ensures Skip(word + rest) != []
  {
    SplitFirst([], word, rest);
    assert [] + (word + rest) == word + rest;
    FirstPiece(word, rest, 1);
  }

  lemma JoinStarts(words: seq<Text>, remainder: Text)
    requires words != []
    ensures Join(words + [remainder]) == words[0] + ([32] + Join(words[1..] + [remainder]))
  {
    assert (words + [remainder])[1..] == words[1..] + [remainder];
  }

  lemma OneSpace()
    ensures Blank([32])
  {
  }

  /** Tokens joined by single spaces, and any text: the tokens come back ... */
  lemma {:induction false} JoinSplits(words: seq<Text>, remainder: Text)
    requires Words(words)
    ensures Split(Join(words + [remainder])) == words + Split(remainder)
    decreases |words|
  {
    if words == [] {
      hide Split;
      assert words + [remainder] == [remainder] && words + Split(remainder) == Split(remainder);
    } else {
      var rest := Join(words[1..] + [remainder]);
      assert IsWord(words[0]) && Words(words[1..]);
      hide *;
      JoinStarts(words, remainder);
      OneSpace();
      SpaceIsSpace(rest);
      FirstTaken(words[0], [32] + rest, 1);
      JoinSplits(words[1..], remainder);
      SplitSkipsBlank([32], rest);
      ConcatAssociates([words[0]], words[1..], Split(remainder));
      assert [words[0]] + words[1..] == words;
    }
  }

  lemma SpaceIsSpace(rest: Text)
    ensures ([32] + rest) != [] && Space(([32] + rest)[0])
  {
  }

  /** ... and after them stands the text, behind one space. */
  lemma {:induction false} JoinLeaves(words: seq<Text>, remainder: Text)
    requires Words(words)
    ensures After(Join(words + [remainder]), |words|) == (if words == [] then remainder else [32] + remainder)
    ensures words != [] ==> Skip(Join(words + [remainder])) != []
    decreases |words|
  {
    if words == [] {
      assert words + [remainder] == [remainder];
    } else {
      var rest := Join(words[1..] + [remainder]);
      assert IsWord(words[0]) && Words(words[1..]);
      hide *;
      JoinStarts(words, remainder);
      JoinLeaves(words[1..], remainder);
      LeaveStep(words[0], rest, |words|, remainder);
    }
  }

  lemma LeaveStep(word: Text, rest: Text, n: nat, remainder: Text)
    requires IsWord(word) && n > 0 && (n > 1 ==> Skip(rest) != [])
    requires After(rest, n - 1) == (if n == 1 then remainder else [32] + remainder)
    ensures After(word + ([32] + rest), n) == [32] + remainder
    ensures Skip(word + ([32] + rest)) != []
  {
    hide *;
    OneSpace();
    SpaceIsSpace(rest);
    FirstTaken(word, [32] + rest, n);
    if n == 1 {
      AfterNone([32] + rest);
      AfterNone(rest);
    } else {
      AfterSkipsBlank([32], rest, n - 1);
    }
  }

  lemma AfterNone(t: Text)
    ensures After(t, 0) == t
  {
  }

  /** So reading as many tokens as there are, then the rest, gives the tokens back
      whatever follows, and the text exactly when it does not start with a byte the
      cursor trims. */
  lemma TextReadsBack(words: seq<Text>, text: Text)
    requires Words(words)
    ensures var t := Join(words + [text]);
            && |words| <= |Split(t)| && FirstWords(t, |words|) == words
            && (TrimLeft(After(t, |words|)) == text <==> text == [] || !Trimmed(text[0]))
  {
    hide Split, After, Join, TrimLeft;
    JoinSplits(words, text);
    JoinLeaves(words, text);
    var t := Join(words + [text]);
    assert Split(t)[..|words|] == words;
    TrimOfText(text);
  }

  lemma TrimOfText(text: Text)
    ensures TrimLeft([32] + text) == TrimLeft(text)
    ensures TrimLeft(text) == text <==> text == [] || !Trimmed(text[0])
  {
    assert ([32] + text)[1..] == text;
  }

  // ---- The header -----------------------------------------------------------------------

  datatype Merge = Merged(fields: map<string, Field>) | NotOverridable(field: string) | NotAllowed(field: string)

  predicate Overridable(meta: Meta, packet: map<string, Field>) {
    OverridableAt(meta, packet, packet.Keys)
  }

  predicate OverridableAt(meta: Meta, packet: map<string, Field>, fields: set<string>)
    requires fields <= packet.Keys
  {
    forall f :: f in fields ==> f in meta.allowed && packet[f] in meta.allowed[f]
  }

  method MergeHeader(meta: Meta, packet: map<string, Field>) returns (r: Merge)
    ensures r.Merged? <==> Overridable(meta, packet)
    ensures r.Merged? ==> r.fields == meta.packet + packet
    ensures r.NotOverridable? ==> r.field in packet && r.field !in meta.allowed
    ensures r.NotAllowed? ==> r.field in packet && r.field in meta.allowed && packet[r.field] !in meta.allowed[r.field]
  {
    hide Overlaid;
    var working, left := meta.packet, packet.Keys;
    OverlaidNone(meta.packet, packet);
    ghost var done: set<string> := {};
    while left != {}
      invariant done + left == packet.Keys
      invariant Overlaid(meta.packet, packet, working, done)
      invariant OverridableAt(meta, packet, done)
      decreases |left|
    {
      var field :| field in left;
      if field !in meta.allowed {
        return NotOverridable(field);
      }
      if packet[field] !in meta.allowed[field] {
        return NotAllowed(field);
      }
      OverlayOne(meta.packet, packet, working, done, field);
      working := working[field := packet[field]];
      left := left - {field};
      done := done + {field};
    }
    OverlaidAll(meta.packet, packet, working);
    assert done == packet.Keys;
    r := Merged(working);
  }

  /** The defaults, overridden at the fields done so far. */
  ghost predicate Overlaid(base: map<string, Field>, packet: map<string, Field>, working: map<string, Field>, done: set<string>) {
    && done <= packet.Keys
    && working.Keys == base.Keys + done
    && forall f :: f in working ==> working[f] == if f in done then packet[f] else base[f]
  }

  lemma OverlaidNone(base: map<string, Field>, packet: map<string, Field>)
    ensures Overlaid(base, packet, base, {})
  {
  }

  lemma OverlayOne(base: map<string, Field>, packet: map<string, Field>, working: map<string, Field>, done: set<string>, f: string)
    requires Overlaid(base, packet, working, done) && f in packet
    ensures Overlaid(base, packet, working[f := packet[f]], done + {f})
  {
  }

  lemma OverlaidAll(base: map<string, Field>, packet: map<string, Field>, working: map<string, Field>)
    requires Overlaid(base, packet, working, packet.Keys)
    ensures working == base + packet
  {
  }

  /** What reaches the wire of the routing an operator typed. Destination, echo and
      type always do, or encoding fails. The source does exactly when the command
      declares one or lets it be overridden, or it is the ground station. */
  lemma RoutingReachesTheWire(codec: Codec, meta: Meta, r: Route, cmdId: string)
    requires r.Route?
    requires Overridable(meta, Kept(meta, ParsedPacket(r)))
    requires FirstMissing(Completed(codec, CommandHeader(cmdId, meta.packet + Kept(meta, ParsedPacket(r)))).fields).None?
    ensures var fields := Completed(codec, CommandHeader(cmdId, meta.packet + Kept(meta, ParsedPacket(r)))).fields;
            && fields["dest"] == Name(r.dest) && fields["echo"] == Name(r.echo) && fields["ptype"] == Name(r.ptype)
            && (r.src.Some? ==>
                  (fields["src"] == Name(r.src.value) <==>
                   "src" in meta.allowed || "src" in meta.packet || codec.gsNode == r.src))
  {
  }

  // ---- The whole encoding -------------------------------------------------------------------

  /** The packet of a command; `None` stands for any of the exceptions on the way. */
  function Encoding(commands: Commands, codec: Codec, crc16: Crc16, spell: Speller, draft: Draft): Option<seq<byte>> {
    if draft.cmdId !in commands then None
    else
      var meta := commands[draft.cmdId];
      var header := Completed(codec, CommandHeader(draft.cmdId, meta.packet + draft.packet));
      var args := ArgsBytes(spell, meta.arguments, draft.args);
      if !Overridable(meta, draft.packet) || args.None? || Refusal(codec, header, args.value).Some? then None
      else Some(Wrapped(codec, crc16, header, args.value))
  }

  method Encode(commands: Commands, codec: Codec, crc16: Crc16, spell: Speller, draft: Draft) returns (r: Option<seq<byte>>)
    ensures r == Encoding(commands, codec, crc16, spell, draft)
  {
    hide ArgsBytes, Wrapped, Overridable, Completed;
    if draft.cmdId !in commands {
      return None;
    }
    var meta := commands[draft.cmdId];
    var merge := MergeHeader(meta, draft.packet);
    if !merge.Merged? {
      return None;
    }
    var args := EncodeArgs(spell, meta.arguments, draft.args);
    if args.None? {
      return None;
    }
    var completed := CompleteHeader(codec, CommandHeader(draft.cmdId, merge.fields));
    if completed.Err? {
      return None;
    }
    var raw := Wrap(codec, crc16, completed.value, args.value);
    r := if raw.Ok? then Some(raw.value) else None;
  }

  // ---- Fixed arguments and a remainder ---------------------------------------------------------

  /** The fixed arguments as they go out: each a word. */
  predicate FixedSpelt(spell: Speller, arguments: seq<Argument>, fixed: seq<Text>, spelt: seq<Text>) {
    && |spelt| == |fixed| <= |arguments|
    && forall i :: 0 <= i < |fixed| ==>
         && !arguments[i].kind.Unsupported? && !arguments[i].kind.Other?
         && spell(arguments[i].kind, Coerced(fixed[i])) == Some(spelt[i]) && IsWord(spelt[i]) && Ascii(spelt[i])
  }

  lemma {:induction false} SpellFixed(spell: Speller, arguments: seq<Argument>, args: map<string, Given>,
                                      fixed: seq<Text>, spelt: seq<Text>, k: nat)
    requires k <= |fixed| && FixedSpelt(spell, arguments, fixed, spelt)
    requires forall i :: 0 <= i < |fixed| ==> arguments[i].name in args && args[arguments[i].name] == Coerced(fixed[i])
    ensures SpellAll(spell, arguments[..k], args) == Some(spelt[..k])
  {
    if k > 0 {
      SpellFixed(spell, arguments, args, fixed, spelt, k - 1);
      assert arguments[..k][..k - 1] == arguments[..k - 1];
      assert spelt[..k] == spelt[..k - 1] + [spelt[k - 1]];
    }
  }

  lemma {:induction false} JoinIsAscii(tokens: seq<Text>)
    requires forall i :: 0 <= i < |tokens| ==> Ascii(tokens[i])
    ensures Ascii(Join(tokens))
  {
    if |tokens| > 1 {
      assert forall i :: 0 <= i < |tokens[1..]| ==> tokens[1..][i] == tokens[i + 1];
      JoinIsAscii(tokens[1..]);
    }
  }

  /** The arguments of a parsed line go out as the fixed ones and the remainder, joined. */
  lemma ParsedArgsEncode(spell: Speller, arguments: seq<Argument>, fixed: seq<Text>, spelt: seq<Text>, remainder: Text)
    requires Spells(spell) && LastToEnd(arguments) && DistinctArguments(arguments) && |arguments| == |fixed| + 1
    requires FixedSpelt(spell, arguments, fixed, spelt) && Ascii(remainder)
    ensures ArgsBytes(spell, arguments, ArgsOf(arguments, fixed + [remainder])) == Some(Join(spelt + [remainder]))
  {
    var n := |fixed|;
    var args := ArgsOf(arguments, fixed + [remainder]);
    ParsedArgs(arguments, fixed, remainder);
    RemainderSpelt(spell, remainder);
    hide Args, ArgsOf, Spells, Join, Ascii, DistinctArguments;
    SpellFixed(spell, arguments, args, fixed, spelt, n);
    assert spelt[..n] == spelt;
    assert arguments[..n + 1] == arguments;
    JoinIsAscii(spelt + [remainder]);
  }

  lemma ParsedArgs(arguments: seq<Argument>, fixed: seq<Text>, remainder: Text)
    requires LastToEnd(arguments) && DistinctArguments(arguments) && |arguments| == |fixed| + 1
    ensures var args := ArgsOf(arguments, fixed + [remainder]); var n := |fixed|;
            && (forall i :: 0 <= i < n ==> arguments[i].name in args && args[arguments[i].name] == Coerced(fixed[i]))
            && arguments[n].name in args && args[arguments[n].name] == Verbatim(remainder)
  {
    var n, tokens := |fixed|, fixed + [remainder];
    ArgsHold(arguments, tokens, n + 1);
    hide Args, DistinctArguments;
    assert tokens[n] == remainder;
    assert forall i :: 0 <= i < n ==> tokens[i] == fixed[i];
  }

  lemma RemainderSpelt(spell: Speller, remainder: Text)
    requires Spells(spell)
    ensures spell(ToEnd, Verbatim(remainder)) == Some(remainder)
  {
  }
}

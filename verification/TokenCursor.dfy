/** `TokenCursor` and `MarkerBoundedTokenCursor` of
    `mav_gss_lib/platform/spec/cursor.py`.

    The cursor keeps a token index and, beside it, a byte offset that it finds again
    with `bytes.find`. The contracts say when the two stay in step: what the index
    has left is then exactly the split of what the offset has left. */
module TokenCursors {
  import opened Options
  import opened Bitwise
  import opened Texts

  /** Text without its leading spaces, tabs and line ends. */
  function TrimLeft(t: Text): (u: Text)
    ensures |u| <= |t|
  {
    if t != [] && Trimmed(t[0]) then TrimLeft(t[1..]) else t
  }

  function TrimRight(t: Text): (u: Text)
    ensures |u| <= |t|
  {
    if t != [] && Trimmed(t[|t| - 1]) then TrimRight(t[..|t| - 1]) else t
  }

  /** Trimming takes spaces, tabs, line feeds and carriage returns off an end, and all of
      them; other whitespace stays. */
  lemma {:induction false} TrimLeftTells(t: Text)
    ensures var u := TrimLeft(t); var n := |t| - |u|;
            && u == t[n..]
            && (forall i :: 0 <= i < n ==> t[i] == 9 || t[i] == 10 || t[i] == 13 || t[i] == 32)
            && (u != [] ==> u[0] != 9 && u[0] != 10 && u[0] != 13 && u[0] != 32)
  {
    if t != [] && Trimmed(t[0]) {
      var rest := t[1..];
      TrimLeftTells(rest);
      assert forall i :: 1 <= i < |t| ==> t[i] == rest[i - 1];
    }
  }

  lemma {:induction false} TrimRightTells(t: Text)
    ensures var u := TrimRight(t);
            && u == t[..|u|]
            && (forall i :: |u| <= i < |t| ==> t[i] == 9 || t[i] == 10 || t[i] == 13 || t[i] == 32)
            && (u != [] ==> var last := u[|u| - 1]; last != 9 && last != 10 && last != 13 && last != 32)
  {
    if t != [] && Trimmed(t[|t| - 1]) {
      TrimRightTells(t[..|t| - 1]);
    }
  }

  class TokenCursor {
    const buf: Text
    const tokens: seq<Text>
    var idx: nat
    var offset: nat

    ghost predicate Valid()
      reads this
    {
      tokens == Split(buf) && idx <= |tokens| && offset <= |buf|
    }

    /** What the byte offset has left. */
    ghost function Left(): Text
      requires Valid()
      reads this
    {
      buf[offset..]
    }

    /** Index and offset agree. */
    ghost predicate InStep()
      reads this
    {
      Valid() && tokens[idx..] == Split(Left())
    }

    /** In step, with only ASCII tokens left. */
    ghost predicate InStepAscii()
      reads this
    {
      InStep() && forall i :: idx <= i < |tokens| ==> Ascii(tokens[i])
    }

    constructor (data: Text)
      ensures InStep() && buf == data && idx == 0 && Left() == data
    {
      buf, tokens, idx, offset := data, Split(data), 0, 0;
      new;
      assert buf[0..] == buf && tokens[0..] == tokens;
    }

    /** The next token; the offset lands on its end if and only if it is ASCII. */
    method ReadToken() returns (r: Option<Text>)
      requires Valid()
      modifies this
      ensures Valid()
      ensures r.None? <==> old(idx) == |tokens|
      ensures r.None? ==> idx == old(idx) && offset == old(offset)
      ensures r.Some? ==> idx == old(idx) + 1 && r.value == tokens[old(idx)]
      ensures r.Some? && old(InStep()) ==>
                && r.value == FirstWord(old(Left()))
                && (offset == old(offset) + End(old(Left())) <==> Ascii(r.value))
                && (Ascii(r.value) ==> InStep())
    {
      hide Split, FirstWord, End, Find, Encoded, Ascii;
      if idx >= |tokens| {
        return None;
      }
      var token := tokens[idx];
      ghost var end := 0;
      if InStep() {
        end := NextToken(buf, offset, tokens[idx..]);
      }
      idx := idx + 1;
      assert tokens[old(idx)..][1..] == tokens[idx..];
      var found := Find(buf, Encoded(token), offset);
      if found.Some? {
        offset := found.value + |token|;
      }
      r := Some(token);
    }

    method ReadRemainingBytes() returns (r: Text)
      requires Valid()
      modifies this
      ensures InStep() && Left() == [] && idx == |tokens|
      ensures r == TrimLeft(old(Left()))
    {
      var at := offset;
      while at < |buf| && Trimmed(buf[at])
        invariant offset <= at <= |buf|
        invariant TrimLeft(buf[at..]) == TrimLeft(buf[offset..])
      {
        assert buf[at..][1..] == buf[at + 1..];
        at := at + 1;
      }
      r := buf[at..];
      offset := |buf|;
      idx := |tokens|;
    }

    method RemainingTokens() returns (n: nat)
      requires Valid()
      ensures n == |tokens| - idx
    {
      n := |tokens| - idx;
    }
  }

  lemma FirstEnds(t: Text, gap: Text, word: Text, rest: Text)
    requires t == gap + (word + rest) && Blank(gap) && IsWord(word) && (rest == [] || Space(rest[0]))
    ensures Start(t) == |gap| && End(t) == |gap| + |word|
  {
    SplitFirst(gap, word, rest);
  }

  /** Before reading a token in step: where the token ends and what follows it. */
  lemma NextToken(buf: Text, offset: nat, words: seq<Text>) returns (end: nat)
    requires offset <= |buf| && words == Split(buf[offset..]) && words != []
    ensures words[0] == FirstWord(buf[offset..]) && 0 < |words[0]| <= end - offset
    ensures end == offset + End(buf[offset..]) <= |buf|
    ensures Find(buf, Encoded(words[0]), offset) == Some(end - |words[0]|) <==> Ascii(words[0])
    ensures Split(buf[end..]) == words[1..]
  {
    hide Split, Find, Encoded, Ascii, WordLength, Start, Skip, FirstWord;
    var t := buf[offset..];
    var gap, word, rest := Shape(t);
    FirstEnds(t, gap, word, rest);
    end := offset + End(t);
    assert |t| == |gap| + |word| + |rest| && |rest| == |t| - End(t);
    FindWord(buf, offset, gap, word, rest, Encoded(word), end - |word|);
    assert t[End(t)..] == buf[end..];
  }

  // ---- Bounded by the next marker --------------------------------------------

  /** Where the first token that contains the separator starts. */
  function MarkerAt(t: Text, separator: Text): (p: Option<nat>)
    ensures p.Some? ==> p.value <= |t|
    decreases |t|
  {
    if Skip(t) == [] then None
    else if Contains(FirstWord(t), separator) then Some(Start(t))
    else
      match MarkerAt(t[End(t)..], separator)
      case None => None
      case Some(p) => Some(End(t) + p)
  }

  /** The bytes a bounded read gives, and what it leaves: the marker is still next. */
  function BoundedRead(t: Text, separator: Text): (r: (Text, Text)) {
    match MarkerAt(t, separator)
    case None => (TrimLeft(t), [])
    case Some(p) =>
      var payload := TrimLeft(t[..p]);
      (TrimRight(payload), t[p - (|payload| - |TrimRight(payload)|)..])
  }

  lemma {:induction false} TrimLeftIsSuffix(t: Text)
    ensures |TrimLeft(t)| <= |t| && TrimLeft(t) == t[|t| - |TrimLeft(t)|..]
  {
    if t != [] && Trimmed(t[0]) {
      TrimLeftIsSuffix(t[1..]);
    }
  }

  lemma {:induction false} TrimRightIsPrefix(t: Text)
    ensures |TrimRight(t)| <= |t| && TrimRight(t) == t[..|TrimRight(t)|]
    ensures Blank(t[|TrimRight(t)|..])
  {
    if t != [] && Trimmed(t[|t| - 1]) {
      TrimRightIsPrefix(t[..|t| - 1]);
      var n := |TrimRight(t)|;
      assert t[n..] == t[..|t| - 1][n..] + [t[|t| - 1]];
    }
  }

  /** Reads stop at the next marker, which stays unread. */
  class MarkerCursor {
    const inner: TokenCursor
    const separator: Text

    constructor (c: TokenCursor, markerSeparator: Text)
      ensures inner == c && separator == markerSeparator
    {
      inner, separator := c, markerSeparator;
    }

    method NextIsMarker() returns (yes: bool)
      requires inner.Valid()
      ensures yes <==> inner.idx < |inner.tokens| && Contains(inner.tokens[inner.idx], separator)
    {
      yes := inner.idx < |inner.tokens| && Contains(inner.tokens[inner.idx], separator);
    }

    method ReadToken() returns (r: Option<Text>)
      requires inner.Valid()
      modifies inner
      ensures inner.Valid()
      ensures old(inner.InStep()) ==>
                (r.None? <==> Split(old(inner.Left())) == []
                              || Contains(FirstWord(old(inner.Left())), separator))
      ensures r.None? ==> inner.idx == old(inner.idx) && inner.offset == old(inner.offset)
      ensures r.Some? ==> 0 < inner.idx == old(inner.idx) + 1 && r.value == inner.tokens[old(inner.idx)]
      ensures r.Some? && old(inner.InStep()) && Ascii(r.value) ==>
                && inner.InStep() && r.value == FirstWord(old(inner.Left()))
                && inner.Left() == old(inner.Left())[End(old(inner.Left()))..]
    {
      var stop := NextIsMarker();
      if inner.InStep() {
        assert Split(inner.Left()) != [] ==> FirstWord(inner.Left()) == inner.tokens[inner.idx];
      }
      if stop {
        return None;
      }
      r := inner.ReadToken();
    }

    method RemainingTokens() returns (n: nat)
      requires inner.Valid()
      ensures n == if inner.idx < |inner.tokens| && Contains(inner.tokens[inner.idx], separator) then 0
                   else |inner.tokens| - inner.idx
      ensures inner.InStep() ==>
                (n == 0 <==> Split(inner.Left()) == [] || Contains(FirstWord(inner.Left()), separator))
    {
      var stop := NextIsMarker();
      if inner.InStep() {
        assert Split(inner.Left()) != [] ==> FirstWord(inner.Left()) == inner.tokens[inner.idx];
      }
      if stop {
        return 0;
      }
      n := inner.RemainingTokens();
    }

    /** The trimmed bytes before the next marker, which is then the next token. */
    method ReadRemainingBytes() returns (r: Text)
      requires inner.Valid()
      modifies inner
      ensures inner.Valid() && inner.idx >= old(inner.idx)
      ensures old(inner.idx) < |inner.tokens| && !Contains(inner.tokens[old(inner.idx)], separator) ==>
                inner.idx > old(inner.idx)
      ensures old(inner.InStepAscii()) ==>
                inner.InStep() && (r, inner.Left()) == BoundedRead(old(inner.Left()), separator)
    {
      hide Split, Find, Contains, MarkerAt, TrimLeft, TrimRight;
      var m := NextMarker();
      if m == |inner.tokens| {
        r := inner.ReadRemainingBytes();
        return;
      }
      var at := FindMarker(m);
      if at.None? {
        r := inner.ReadRemainingBytes();
        return;
      }
      ghost var offset := inner.offset;
      var start, end := TrimSpan(inner.buf, inner.offset, at.value);
      r := inner.buf[start..end];
      inner.idx := m;
      inner.offset := end;
      if old(inner.InStepAscii()) {
        BackAtMarker(inner.buf, offset, end, at.value);
      }
    }

    /** The index of the next marker, or the number of tokens. */
    method NextMarker() returns (m: nat)
      requires inner.Valid()
      ensures inner.idx <= m <= |inner.tokens|
      ensures m < |inner.tokens| ==> Contains(inner.tokens[m], separator)
      ensures inner.InStep() ==> (m == |inner.tokens| <==> MarkerAt(inner.Left(), separator).None?)
      ensures forall i :: inner.idx <= i < m ==> !Contains(inner.tokens[i], separator)
    {
      hide Split, MarkerAt, Contains, AnyMarker;
      m := inner.idx;
      while m < |inner.tokens| && !Contains(inner.tokens[m], separator)
        invariant inner.idx <= m <= |inner.tokens|
        invariant forall i :: inner.idx <= i < m ==> !Contains(inner.tokens[i], separator)
      {
        m := m + 1;
      }
      if inner.InStep() {
        MarkerIffToken(inner.Left(), separator);
        MarkerAmong(inner.tokens, inner.idx, m, Split(inner.Left()), separator);
      }
    }

    /** The byte position of token `m`, found again by searching for every token before it. */
    method FindMarker(m: nat) returns (r: Option<nat>)
      requires inner.Valid() && inner.idx <= m < |inner.tokens|
      requires forall i :: inner.idx <= i < m ==> !Contains(inner.tokens[i], separator)
      requires Contains(inner.tokens[m], separator)
      ensures r.Some? ==> inner.offset <= r.value <= |inner.buf|
      ensures inner.InStepAscii() && MarkerAt(inner.Left(), separator).Some? ==>
                && r == Some(inner.offset + MarkerAt(inner.Left(), separator).value)
                && Split(inner.buf[r.value..]) == inner.tokens[m..]
    {
      hide Split, FirstWord, End, Find, Encoded, Ascii, MarkerAt, Contains;
      var at, i := inner.offset, inner.idx;
      ghost var good := inner.InStepAscii() && MarkerAt(inner.Left(), separator).Some?;
      ghost var p := if good then inner.offset + MarkerAt(inner.Left(), separator).value else 0;
      while i < m
        invariant inner.idx <= i <= m && inner.offset <= at <= |inner.buf|
        invariant good ==> Ahead(inner.buf, at, inner.tokens[i..], separator, p)
      {
        ghost var end := 0;
        if good {
          end := NextToken(inner.buf, at, inner.tokens[i..]);
          StepToMarker(inner.buf, at, end, inner.tokens[i..], separator, p);
          assert inner.tokens[i..][1..] == inner.tokens[i + 1..];
        }
        var found := Find(inner.buf, Encoded(inner.tokens[i]), at);
        if found.None? {
          break;
        }
        at := found.value + |inner.tokens[i]|;
        i := i + 1;
      }
      if good {
        AtMarker(inner.buf, at, inner.tokens[m..], separator, p);
      }
      r := Find(inner.buf, Encoded(inner.tokens[m]), at);
    }
  }

  /** From `at` on stand the given tokens, and the next marker is at `p`. */
  ghost predicate Ahead(buf: Text, at: nat, words: seq<Text>, separator: Text, p: nat) {
    && at <= p && at <= |buf| && Split(buf[at..]) == words
    && MarkerAt(buf[at..], separator) == Some(p - at)
  }

  lemma StepToMarker(buf: Text, at: nat, end: nat, words: seq<Text>, separator: Text, p: nat)
    requires Ahead(buf, at, words, separator, p) && words != [] && !Contains(words[0], separator)
    requires words[0] == FirstWord(buf[at..]) && end == at + End(buf[at..]) <= |buf|
    requires Split(buf[end..]) == words[1..]
    ensures Ahead(buf, end, words[1..], separator, p)
  {
    hide MarkerAt, Split, FirstWord, End, Contains;
    var t := buf[at..];
    MarkerBehind(t, separator, p - at, buf[end..], p - end);
  }

  lemma MarkerBehind(t: Text, separator: Text, p: nat, rest: Text, q: int)
    requires MarkerAt(t, separator) == Some(p) && !Contains(FirstWord(t), separator)
    requires rest == t[End(t)..] && q == p - End(t)
    ensures q >= 0 && MarkerAt(rest, separator) == Some(q)
  {
    hide Start, WordLength, Skip, FirstWord, End, Contains;
  }

  lemma AtMarker(buf: Text, at: nat, words: seq<Text>, separator: Text, p: nat)
    requires Ahead(buf, at, words, separator, p) && words != []
    requires Ascii(words[0]) && Contains(words[0], separator)
    ensures Find(buf, Encoded(words[0]), at) == Some(p) && p <= |buf| && Split(buf[p..]) == words
  {
    hide WordLength, Split, Contains, Find, Encoded, Ascii;
    var t := buf[at..];
    var end := NextToken(buf, at, words);
    var gap, word, rest := Shape(t);
    assert |gap| == Start(t) == p - at;
    assert buf[p..] == t[|gap|..] == word + rest;
    SplitSkipsBlank(gap, word + rest);
    assert |word| == End(t) - Start(t);
  }

  predicate AnyMarker(words: seq<Text>, separator: Text) {
    exists i :: 0 <= i < |words| && Contains(words[i], separator)
  }

  lemma MarkerAmong(tokens: seq<Text>, idx: nat, m: nat, words: seq<Text>, separator: Text)
    requires idx <= |tokens| && words == tokens[idx..]
    requires idx <= m <= |tokens| && (m < |tokens| ==> Contains(tokens[m], separator))
    requires forall i :: idx <= i < m ==> !Contains(tokens[i], separator)
    ensures m < |tokens| <==> AnyMarker(words, separator)
  {
    hide Contains;
    if m < |tokens| {
      assert words[m - idx] == tokens[m];
    }
  }

  lemma {:induction false} MarkerIffToken(t: Text, separator: Text)
    ensures MarkerAt(t, separator).Some? <==> AnyMarker(Split(t), separator)
    decreases |t|
  {
    if Split(t) != [] {
      var rest := t[End(t)..];
      MarkerIffToken(rest, separator);
      assert Split(t) == [FirstWord(t)] + Split(rest);
      forall i | 0 <= i < |Split(rest)| ensures Split(t)[i + 1] == Split(rest)[i] {
      }
      assert Split(t)[0] == FirstWord(t);
    }
  }

  method TrimSpan(buf: Text, from: nat, to: nat) returns (start: nat, end: nat)
    requires from <= to <= |buf|
    ensures from <= start <= end <= to
    ensures var payload := TrimLeft(buf[from..to]);
            buf[start..end] == TrimRight(payload) && to - end == |payload| - |TrimRight(payload)|
    ensures Blank(buf[end..to])
  {
    start := TrimFront(buf, from, to);
    end := TrimBack(buf, start, to);
  }

  method TrimFront(buf: Text, from: nat, to: nat) returns (start: nat)
    requires from <= to <= |buf|
    ensures from <= start <= to && buf[start..to] == TrimLeft(buf[from..to])
  {
    start := from;
    while start < to && Trimmed(buf[start])
      invariant from <= start <= to
      invariant TrimLeft(buf[start..to]) == TrimLeft(buf[from..to])
    {
      assert buf[start..to][1..] == buf[start + 1..to];
      start := start + 1;
    }
  }

  method TrimBack(buf: Text, start: nat, to: nat) returns (end: nat)
    requires start <= to <= |buf|
    ensures start <= end <= to && buf[start..end] == TrimRight(buf[start..to])
    ensures Blank(buf[end..to])
  {
    end := to;
    while end > start && Trimmed(buf[end - 1])
      invariant start <= end <= to
      invariant TrimRight(buf[start..end]) == TrimRight(buf[start..to])
      invariant forall i :: end <= i < to ==> Space(buf[i])
    {
      assert buf[start..end][..end - start - 1] == buf[start..end - 1];
      end := end - 1;
    }
  }

  /** Bytes dropped in front of the marker are blank, so the marker is next. */
  lemma BackAtMarker(buf: Text, offset: nat, end: nat, at: nat)
    requires offset <= end <= at <= |buf| && Blank(buf[end..at])
    ensures Split(buf[end..]) == Split(buf[at..])
    ensures buf[offset..][..at - offset] == buf[offset..at] && buf[offset..][end - offset..] == buf[end..]
  {
    DropBlank(buf[end..at], buf[at..], buf[end..]);
  }

  lemma DropBlank(gap: Text, rest: Text, t: Text)
    requires Blank(gap) && t == gap + rest
    ensures Split(t) == Split(rest)
  {
    hide *;
    SplitSkipsBlank(gap, rest);
  }
}

/** What one block of a paged frame decodes to, told by its tokens: the entries of
    `mav_gss_lib/platform/spec/runtime.py` take them in order, and each emitted entry
    gives its name with its own tokens. */
module PagedBlocks {
  import opened Options
  import opened Bitwise
  import opened Texts
  import opened TokenCursors
  import opened PagedWalks

  function Flat<T>(parts: seq<seq<T>>): seq<T> {
    if parts == [] then [] else parts[0] + Flat(parts[1..])
  }

  /** The first of an item's values: each token in its slot. */
  function Slots(ops: seq<Op>, tokens: seq<Text>): (items: seq<Item>)
    requires |tokens| <= |ops|
    ensures |items| == |tokens|
  {
    seq(|tokens|, k requires 0 <= k < |tokens| => Word(ops[k].slot, tokens[k]))
  }

  /** The type reads these tokens first, and each is acceptable behind those before it. */
  ghost predicate Reads(pg: Paging, ops: seq<Op>, tokens: seq<Text>) {
    && |tokens| <= |ops|
    && (forall k :: 0 <= k < |tokens| ==> ops[k].ReadWord?)
    && forall k :: 0 < k <= |tokens| ==> pg.valid(Slots(ops, tokens[..k]))
  }

  /** No token is a marker. */
  predicate Plain(pg: Paging, words: seq<Text>) {
    forall w :: w in words ==> !Contains(w, pg.separator)
  }

  /** How many turns a repeat is asked for; negative when it is open-ended. */
  function Asked(pg: Paging, count: Count, env: Env): Option<int> {
    match count
    case Fixed(n) => Some(n)
    case ToEnd => Some(-1)
    case Dynamic(ref) => if ref in env then pg.number(env[ref]) else None
  }

  /** An entry takes these items off the front of the words: a reference one, a repeat
      as many as it is asked for, or all there are if that is fewer. */
  ghost predicate Takes(pg: Paging, e: Entry, items: seq<seq<Text>>, env: Env, words: seq<Text>) {
    && Flat(items) <= words
    && match e
       case Ref(_, _, ops) => |items| == 1 && |items[0]| == |ops| && Reads(pg, ops, items[0])
       case Sized(_, _, _) => false
       case Repeat(_, _, count, ops) =>
         && (forall j :: 0 <= j < |items| ==> |items[j]| == |ops| && Reads(pg, ops, items[j]))
         && (ops == [] && items != [] ==> words != [])
         && Asked(pg, count, env).Some?
         && var n := Asked(pg, count, env).value;
            (n >= 0 && |items| == n) || ((n < 0 || |items| < n) && Flat(items) == words)
  }

  /** A reference is remembered, a repeat is not. */
  function Bound(e: Entry, items: seq<seq<Text>>, env: Env): Env {
    if e.Ref? && |items| == 1 && |items[0]| <= |e.ops| then env[e.name := Items(Slots(e.ops, items[0]))] else env
  }

  function EnvAfter(entries: seq<Entry>, pieces: seq<seq<seq<Text>>>, env: Env): Env
    requires |pieces| == |entries|
    decreases entries
  {
    if entries == [] then env else EnvAfter(entries[1..], pieces[1..], Bound(entries[0], pieces[0], env))
  }

  /** The entries take these pieces off the words, one after the other. */
  ghost predicate Layout(pg: Paging, entries: seq<Entry>, pieces: seq<seq<seq<Text>>>, env: Env, words: seq<Text>)
    decreases entries
  {
    && |pieces| == |entries|
    && (entries != [] ==>
          && Takes(pg, entries[0], pieces[0], env, words)
          && Layout(pg, entries[1..], pieces[1..], Bound(entries[0], pieces[0], env), words[|Flat(pieces[0])|..]))
  }

  /** What an entry gives for its items. */
  function Gives(e: Entry, items: seq<seq<Text>>): seq<Update>
    requires !e.Sized? && forall j :: 0 <= j < |items| ==> |items[j]| <= |e.ops|
  {
    if e.emit then seq(|items|, j requires 0 <= j < |items| => Update(e.name, Items(Slots(e.ops, items[j])))) else []
  }

  // ---- Reading the tokens of one item -----------------------------------------------

  /** The first token, and what a read of it leaves. */
  lemma FirstToken(pg: Paging, t: Text)
    ensures Split(t) == [] <==> Skip(t) == []
    ensures Split(t) != [] ==> FirstWord(t) == Split(t)[0] && Split(t[End(t)..]) == Split(t)[1..]
    ensures AtEnd(pg, t) <==> Split(t) == [] || Contains(Split(t)[0], pg.separator)
  {
    hide Contains, FirstWord, End, Skip;
  }

  lemma {:induction false} OpsTake(pg: Paging, ops: seq<Op>, i: nat, t: Text, tokens: seq<Text>)
    requires i <= |tokens| && Reads(pg, ops, tokens) && Plain(pg, tokens)
    requires tokens[i..] <= Split(t)
    ensures ReadOps(pg, ops[i..], t, Slots(ops, tokens[..i]))
            == ReadOps(pg, ops[|tokens|..], After(t, |tokens| - i), Slots(ops, tokens))
    decreases |tokens| - i
  {
    hide AtEnd, Split, FirstWord, End, Skip, Contains, ReadOps, After;
    if i == |tokens| {
      assert tokens[..i] == tokens;
      AfterNothing(t);
    } else {
      FirstToken(pg, t);
      assert tokens[i..][0] == tokens[i] && tokens[i] in tokens;
      assert tokens[i..][1..] == tokens[i + 1..];
      OpUnfolds(pg, ops[i..], t, Slots(ops, tokens[..i]));
      assert Slots(ops, tokens[..i]) + [Word(ops[i].slot, tokens[i])] == Slots(ops, tokens[..i + 1]);
      assert ops[i..][1..] == ops[i + 1..];
      OpsTake(pg, ops, i + 1, t[End(t)..], tokens);
      AfterOne(t, |tokens| - i);
    }
  }

  lemma AfterNothing(t: Text)
    ensures After(t, 0) == t
  {
  }

  lemma AfterOne(t: Text, n: nat)
    requires n > 0 && Skip(t) != []
    ensures After(t, n) == After(t[End(t)..], n - 1)
  {
  }

  lemma OpUnfolds(pg: Paging, ops: seq<Op>, t: Text, got: seq<Item>)
    requires ops != [] && ops[0].ReadWord? && !AtEnd(pg, t)
    ensures var items := got + [Word(ops[0].slot, FirstWord(t))];
            ReadOps(pg, ops, t, got)
            == if pg.valid(items) then ReadOps(pg, ops[1..], t[End(t)..], items) else Read(items, t[End(t)..], Failed)
  {
    hide AtEnd, FirstWord, End;
  }

  /** One whole item. */
  lemma ItemTakes(pg: Paging, ops: seq<Op>, t: Text, tokens: seq<Text>)
    requires |tokens| == |ops| && Reads(pg, ops, tokens) && Plain(pg, tokens) && tokens <= Split(t)
    ensures ReadOps(pg, ops, t, []) == Read(Slots(ops, tokens), After(t, |tokens|), Done)
  {
    hide After, Split;
    OpsTake(pg, ops, 0, t, tokens);
    assert ops[0..] == ops && tokens[0..] == tokens && Slots(ops, tokens[..0]) == [] && ops[|tokens|..] == [];
  }

  // ---- Repeats -----------------------------------------------------------------------

  lemma {:induction false} AfterTwice(t: Text, a: nat, b: nat)
    requires a <= |Split(t)|
    ensures After(After(t, a), b) == After(t, a + b)
    decreases a
  {
    hide Split, FirstWord, End, Skip;
    if a == 0 {
      AfterNothing(t);
    } else {
      SplitWord(t);
      TokensGoOn(t);
      AfterOne(t, a);
      AfterOne(t, a + b);
      AfterTwice(t[End(t)..], a - 1, b);
    }
  }

  lemma TokensGoOn(t: Text)
    ensures Skip(t) != [] ==> Split(t) != [] && Split(t[End(t)..]) == Split(t)[1..]
  {
  }

  /** The items are there and the repeat stops behind them: it was asked for so many, or
      no word is left. */
  ghost predicate Turnable(pg: Paging, ops: seq<Op>, count: int, items: seq<seq<Text>>, words: seq<Text>) {
    && Flat(items) <= words
    && (forall j :: 0 <= j < |items| ==> |items[j]| == |ops| && Reads(pg, ops, items[j]))
    && (ops == [] && items != [] ==> words != [])
    && ((count >= 0 && |items| == count) || ((count < 0 || |items| < count) && Flat(items) == words))
  }

  lemma {:induction false} RepeatTakes(pg: Paging, name: string, emit: bool, ops: seq<Op>, count: int,
                                       items: seq<seq<Text>>, t: Text, words: seq<Text>)
    requires words == Split(t) && Plain(pg, words) && Turnable(pg, ops, count, items, words)
    ensures WalkRepeat(pg, name, emit, ops, count, t)
            == Part(Gives(Repeat(name, emit, ToEnd, ops), items), After(t, |Flat(items)|), Done)
    decreases |items|
  {
    hide Split, FirstWord, End, Skip, After, ReadOps, Reads, Contains;
    FirstToken(pg, t);
    assert words != [] ==> words[0] in words;
    var e := Repeat(name, emit, ToEnd, ops);
    if items == [] {
      AfterNothing(t);
    } else {
      var item, n := items[0], |items[0]|;
      FlatHead(items, words);
      ItemTakes(pg, ops, t, item);
      SplitAfter(t, n);
      var rest := After(t, n);
      var left := if count < 0 then count else count - 1;
      TurnLeaves(pg, ops, count, items, words);
      assert forall w :: w in words[n..] ==> w in words;
      RepeatTakes(pg, name, emit, ops, left, items[1..], rest, words[n..]);
      AfterTwice(t, n, |Flat(items[1..])|);
      GivesHead(e, items);
    }
  }

  lemma FlatHead<T>(parts: seq<seq<T>>, whole: seq<T>)
    requires parts != [] && Flat(parts) <= whole
    ensures parts[0] <= whole && Flat(parts[1..]) <= whole[|parts[0]|..]
    ensures |Flat(parts)| == |parts[0]| + |Flat(parts[1..])|
    ensures Flat(parts) == whole <==> Flat(parts[1..]) == whole[|parts[0]|..]
  {
    var n := |parts[0]|;
    assert whole[..|Flat(parts)|] == Flat(parts);
    assert whole[..n] == Flat(parts)[..n] == parts[0];
    assert whole[n..][..|Flat(parts[1..])|] == Flat(parts)[n..] == Flat(parts[1..]);
    assert whole == whole[..n] + whole[n..];
  }

  lemma TurnLeaves(pg: Paging, ops: seq<Op>, count: int, items: seq<seq<Text>>, words: seq<Text>)
    requires Turnable(pg, ops, count, items, words) && items != []
    ensures words != [] && count != 0 && (count < 0 ==> ops != [])
    ensures var left := if count < 0 then count else count - 1;
            |items[0]| <= |words| && Turnable(pg, ops, left, items[1..], words[|items[0]|..])
  {
    hide Reads;
    FlatHead(items, words);
    if ops == [] {
      AllEmpty(items);
    }
  }

  lemma {:induction false} AllEmpty<T>(parts: seq<seq<T>>)
    requires forall j :: 0 <= j < |parts| ==> parts[j] == []
    ensures Flat(parts) == []
  {
    if parts != [] {
      AllEmpty(parts[1..]);
    }
  }

  lemma GivesHead(e: Entry, items: seq<seq<Text>>)
    requires !e.Sized? && items != [] && forall j :: 0 <= j < |items| ==> |items[j]| <= |e.ops|
    ensures Gives(e, items) == (if e.emit then [Update(e.name, Items(Slots(e.ops, items[0])))] else []) + Gives(e, items[1..])
  {
  }

  // ---- Entries -----------------------------------------------------------------------

  /** One entry that takes its items. */
  lemma EntryTakes(pg: Paging, e: Entry, items: seq<seq<Text>>, env: Env, t: Text)
    requires Plain(pg, Split(t)) && Takes(pg, e, items, env, Split(t))
    ensures !e.Sized? && forall j :: 0 <= j < |items| ==> |items[j]| <= |e.ops|
    ensures WalkEntry(pg, e, env, t) == (Part(Gives(e, items), After(t, |Flat(items)|), Done), Bound(e, items, env))
  {
    hide Split, After, ReadOps, WalkRepeat, Reads;
    match e
    case Ref(name, emit, ops) =>
      FlatHead(items, Split(t));
      assert Flat(items[1..]) == [];
      assert forall w :: w in items[0] ==> w in Split(t);
      ItemTakes(pg, ops, t, items[0]);
      GivesHead(e, items);
      assert Gives(e, items[1..]) == [];
      var update := [Update(name, Items(Slots(ops, items[0])))];
      assert update + [] == update;
    case Repeat(name, emit, count, ops) =>
      var n := Asked(pg, count, env).value;
      RepeatTakes(pg, name, emit, ops, n, items, t, Split(t));
      assert Gives(Repeat(name, emit, ToEnd, ops), items) == Gives(e, items);
  }

  lemma TakesFits(pg: Paging, e: Entry, items: seq<seq<Text>>, env: Env, words: seq<Text>)
    requires Takes(pg, e, items, env, words)
    ensures |Flat(items)| <= |words|
  {
  }

  /** What the entries give, in order. */
  function GivesAll(entries: seq<Entry>, pieces: seq<seq<seq<Text>>>): seq<Update>
    requires |pieces| == |entries| && Shaped(entries, pieces)
  {
    Flat(seq(|entries|, i requires 0 <= i < |entries| => Gives(entries[i], pieces[i])))
  }

  predicate Shaped(entries: seq<Entry>, pieces: seq<seq<seq<Text>>>)
    requires |pieces| == |entries|
  {
    forall i :: 0 <= i < |entries| ==>
      !entries[i].Sized? && forall j :: 0 <= j < |pieces[i]| ==> |pieces[i][j]| <= |entries[i].ops|
  }

  lemma GivesAllHead(entries: seq<Entry>, pieces: seq<seq<seq<Text>>>)
    requires |pieces| == |entries| && Shaped(entries, pieces) && entries != []
    ensures Shaped(entries[1..], pieces[1..])
    ensures GivesAll(entries, pieces) == Gives(entries[0], pieces[0]) + GivesAll(entries[1..], pieces[1..])
  {
    hide Gives;
    assert forall i :: 0 <= i < |entries| - 1 ==> entries[1..][i] == entries[i + 1] && pieces[1..][i] == pieces[i + 1];
    var all := seq(|entries|, i requires 0 <= i < |entries| => Gives(entries[i], pieces[i]));
    var rest := seq(|entries[1..]|, i requires 0 <= i < |entries[1..]| => Gives(entries[1..][i], pieces[1..][i]));
    assert all[1..] == rest;
  }

  /** How many tokens the pieces are. */
  function Count(pieces: seq<seq<seq<Text>>>): nat {
    if pieces == [] then 0 else |Flat(pieces[0])| + Count(pieces[1..])
  }

  /** Entries in front take their pieces, and the others go on from there. */
  lemma {:induction false} FrontTakes(pg: Paging, front: seq<Entry>, back: seq<Entry>, pieces: seq<seq<seq<Text>>>,
                                      env: Env, t: Text)
    requires Plain(pg, Split(t)) && Layout(pg, front, pieces, env, Split(t))
    ensures Shaped(front, pieces) && Count(pieces) <= |Split(t)|
    ensures var rest := WalkEntries(pg, back, EnvAfter(front, pieces, env), After(t, Count(pieces)));
            WalkEntries(pg, front + back, env, t)
            == Part(GivesAll(front, pieces) + rest.updates, rest.left, rest.status)
    decreases front
  {
    hide Split, After, WalkEntry, WalkEntries, Takes, Gives, GivesAll, Bound;
    if front == [] {
      assert front + back == back;
      AfterNothing(t);
      GivesNothing(pieces);
      AppendNothing(WalkEntries(pg, back, env, t));
    } else {
      var n := |Flat(pieces[0])|;
      TakesFits(pg, front[0], pieces[0], env, Split(t));
      EntryTakes(pg, front[0], pieces[0], env, t);
      SplitAfter(t, n);
      assert forall w :: w in Split(t)[n..] ==> w in Split(t);
      var env' := Bound(front[0], pieces[0], env);
      FrontTakes(pg, front[1..], back, pieces[1..], env', After(t, n));
      AfterTwice(t, n, Count(pieces[1..]));
      assert (front + back)[0] == front[0] && (front + back)[1..] == front[1..] + back;
      EntriesUnfold(pg, front + back, env, t);
      GivesAllHead(front, pieces);
      var rest := WalkEntries(pg, back, EnvAfter(front, pieces, env), After(t, Count(pieces)));
      AppendTwice(Gives(front[0], pieces[0]), GivesAll(front[1..], pieces[1..]), rest);
    }
  }

  lemma GivesNothing(pieces: seq<seq<seq<Text>>>)
    requires pieces == []
    ensures GivesAll([], pieces) == []
  {
  }

  // ---- Blocks ------------------------------------------------------------------------

  /** One marker and a payload without any. */
  predicate OneBlock(pg: Paging, t: Text) {
    Split(t) != [] && Contains(Split(t)[0], pg.separator) && Plain(pg, Split(t)[1..])
  }

  /** What is left without a marker gives nothing. */
  lemma {:induction false} PlainWalk(pg: Paging, t: Text)
    requires Plain(pg, Split(t))
    ensures WalkText(pg, t) == Walk([], [], Finished)
    decreases |t|
  {
    hide WalkText, Contains, FirstWord, End, Start, Split;
    WalkUnfolds(pg, t);
    FirstToken(pg, t);
    EndMoves(t);
    if Skip(t) != [] {
      assert Split(t)[0] in Split(t);
      assert forall w :: w in Split(t)[1..] ==> w in Split(t);
      PlainWalk(pg, t[End(t)..]);
    }
  }

  /** A block without a container is skipped, reported by its marker, or refused, as
      `on_unknown_register` says. */
  lemma UnknownBlock(pg: Paging, t: Text)
    requires OneBlock(pg, t)
    ensures pg.resolve(Split(t)[0]).SkipUnknown? ==> WalkText(pg, t) == Walk([], [Split(t)[0]], Finished)
    ensures pg.resolve(Split(t)[0]).EmitUnknown? ==>
              WalkText(pg, t) == Walk([UnknownRegister(Split(t)[0])], [Split(t)[0]], Finished)
    ensures pg.resolve(Split(t)[0]).RaiseUnknown? ==> WalkText(pg, t) == Walk([], [Split(t)[0]], Raised)
  {
    hide WalkText, Contains, FirstWord, End, Split;
    FirstToken(pg, t);
    WalkUnfolds(pg, t);
    PlainWalk(pg, t[End(t)..]);
  }

  /** The walk of a block is what its container's entries give. */
  lemma BlockIsItsEntries(pg: Paging, t: Text, front: seq<Entry>, back: seq<Entry>, pieces: seq<seq<seq<Text>>>, raises: bool)
    requires OneBlock(pg, t) && pg.resolve(Split(t)[0]) == Child(Container(front + back, raises))
    requires Layout(pg, front, pieces, map[], Split(t)[1..])
    ensures Shaped(front, pieces) && 1 + Count(pieces) <= |Split(t)|
    ensures var rest := WalkEntries(pg, back, EnvAfter(front, pieces, map[]), After(t, 1 + Count(pieces)));
            && (rest.status.Done? || (rest.status.Short? && !raises) ==>
                  Plain(pg, Split(rest.left)) ==>
                    WalkText(pg, t) == Walk(GivesAll(front, pieces) + rest.updates, [Split(t)[0]], Finished))
            && (rest.status.Failed? || (rest.status.Short? && raises) ==>
                  WalkText(pg, t) == Walk(GivesAll(front, pieces) + rest.updates, [Split(t)[0]], Raised))
  {
    hide WalkText, WalkEntries, Contains, FirstWord, End, Split, GivesAll, Layout, Plain, Shaped, After;
    FirstToken(pg, t);
    WalkUnfolds(pg, t);
    var after := t[End(t)..];
    FrontTakes(pg, front, back, pieces, map[], after);
    AfterOne(t, 1 + Count(pieces));
    var part := WalkEntries(pg, front + back, map[], after);
    if Plain(pg, Split(part.left)) {
      PlainWalk(pg, part.left);
    }
    assert part.updates + [] == part.updates;
  }

  /** When the entries of a container take their pieces off the tokens behind the
      marker, the block gives, entry by entry, the name of each emitted one with the
      tokens of each of its items, every token in its slot; and nothing else. */
  lemma BlockDecodes(pg: Paging, t: Text, entries: seq<Entry>, raises: bool, pieces: seq<seq<seq<Text>>>)
    requires OneBlock(pg, t) && pg.resolve(Split(t)[0]) == Child(Container(entries, raises))
    requires Layout(pg, entries, pieces, map[], Split(t)[1..])
    ensures Shaped(entries, pieces)
    ensures WalkText(pg, t) == Walk(
              Flat(seq(|entries|, i requires 0 <= i < |entries| =>
                if entries[i].emit
                then seq(|pieces[i]|, j requires 0 <= j < |pieces[i]| =>
                       Update(entries[i].name, Items(
                         seq(|pieces[i][j]|, k requires 0 <= k < |pieces[i][j]| =>
                           Word(entries[i].ops[k].slot, pieces[i][j][k])))))
                else [])),
              [Split(t)[0]], Finished)
  {
    BlockGives(pg, t, entries, raises, pieces);
    hide *;
    GivesAllSpelt(entries, pieces);
  }

  lemma BlockGives(pg: Paging, t: Text, entries: seq<Entry>, raises: bool, pieces: seq<seq<seq<Text>>>)
    requires OneBlock(pg, t) && pg.resolve(Split(t)[0]) == Child(Container(entries, raises))
    requires Layout(pg, entries, pieces, map[], Split(t)[1..])
    ensures |pieces| == |entries| && Shaped(entries, pieces)
    ensures WalkText(pg, t) == Walk(GivesAll(entries, pieces), [Split(t)[0]], Finished)
  {
    assert |pieces| == |entries|;
    FrontLeaves(pg, t, entries, pieces);
    hide WalkText, Contains, FirstWord, End, Split, Layout, After, GivesAll, Shaped, Plain, EnvAfter;
    assert entries + [] == entries;
    BlockIsItsEntries(pg, t, entries, [], pieces, raises);
    var rest := After(t, 1 + Count(pieces));
    assert WalkEntries(pg, [], EnvAfter(entries, pieces, map[]), rest) == Part([], rest, Done);
    assert GivesAll(entries, pieces) + [] == GivesAll(entries, pieces);
  }

  lemma LayoutFits(pg: Paging, entries: seq<Entry>, pieces: seq<seq<seq<Text>>>, env: Env, words: seq<Text>)
    requires Layout(pg, entries, pieces, env, words)
    ensures |pieces| == |entries|
  {
  }

  lemma BlockBehindMarker(pg: Paging, t: Text)
    requires OneBlock(pg, t)
    ensures Split(t) != [] && Split(t[End(t)..]) == Split(t)[1..] && Plain(pg, Split(t)[1..])
  {
    hide Split, Contains, FirstWord, End, Skip;
    FirstToken(pg, t);
  }

  lemma SuffixIsPlain(pg: Paging, words: seq<Text>, n: nat)
    requires 1 <= n <= |words| && Plain(pg, words[1..])
    ensures Plain(pg, words[n..])
  {
    hide Contains;
    assert words[n..] == words[1..][n - 1..];
  }

  /** The entries in front, as `BlockDecodes` has them. */
  lemma FrontLeaves(pg: Paging, t: Text, front: seq<Entry>, pieces: seq<seq<seq<Text>>>)
    requires OneBlock(pg, t) && Layout(pg, front, pieces, map[], Split(t)[1..])
    ensures |pieces| == |front| && Shaped(front, pieces) && 1 + Count(pieces) <= |Split(t)|
    ensures Split(After(t, 1 + Count(pieces))) == Split(t)[1 + Count(pieces)..]
    ensures Plain(pg, Split(After(t, 1 + Count(pieces))))
  {
    hide *;
    BlockBehindMarker(pg, t);
    LayoutFits(pg, front, pieces, map[], Split(t)[1..]);
    FrontTakes(pg, front, [], pieces, map[], t[End(t)..]);
    SplitAfter(t, 1 + Count(pieces));
    SuffixIsPlain(pg, Split(t), 1 + Count(pieces));
  }

  /** A sized entry behind them gives the rest of the block, without its leading padding,
      with the size read for its reference; without such a number the walk raises. */
  lemma SizedDecodes(pg: Paging, t: Text, front: seq<Entry>, name: string, emit: bool, sizeRef: string, raises: bool,
                     pieces: seq<seq<seq<Text>>>)
    requires OneBlock(pg, t)
    requires pg.resolve(Split(t)[0]) == Child(Container(front + [Sized(name, emit, sizeRef)], raises))
    requires Layout(pg, front, pieces, map[], Split(t)[1..])
    ensures Shaped(front, pieces)
    ensures var env := EnvAfter(front, pieces, map[]);
            WalkText(pg, t) ==
            if sizeRef in env && pg.number(env[sizeRef]).Some?
            then Walk(GivesAll(front, pieces)
                      + (if emit then [Update(name, Cut(TrimLeft(After(t, 1 + Count(pieces))), pg.number(env[sizeRef]).value))]
                         else []),
                      [Split(t)[0]], Finished)
            else Walk(GivesAll(front, pieces), [Split(t)[0]], Raised)
  {
    FrontLeaves(pg, t, front, pieces);
    var u := After(t, 1 + Count(pieces));
    BlockIsItsEntries(pg, t, front, [Sized(name, emit, sizeRef)], pieces, raises);
    BareRead(pg, u);
    hide WalkText, Contains, FirstWord, End, Split, Layout, After, GivesAll, WalkEntry, BoundedRead, Plain, Shaped, EnvAfter,
         TrimLeft;
    SizedEntry(pg, Sized(name, emit, sizeRef), EnvAfter(front, pieces, map[]), u);
    assert GivesAll(front, pieces) + [] == GivesAll(front, pieces);
  }

  /** Without a marker ahead, a read takes everything. */
  lemma BareRead(pg: Paging, u: Text)
    requires Plain(pg, Split(u))
    ensures BoundedRead(u, pg.separator) == (TrimLeft(u), []) && Plain(pg, Split([]))
  {
    NoMarkerAhead(pg, u);
    assert Skip([]) == [];
  }

  lemma {:induction false} NoMarkerAhead(pg: Paging, u: Text)
    requires Plain(pg, Split(u))
    ensures MarkerAt(u, pg.separator).None?
    decreases |u|
  {
    hide Contains, FirstWord, End, Split, MarkerAt;
    MarkerUnfolds(u, pg.separator);
    FirstToken(pg, u);
    EndMoves(u);
    if Skip(u) != [] {
      assert Split(u)[0] in Split(u);
      assert forall w :: w in Split(u)[1..] ==> w in Split(u);
      NoMarkerAhead(pg, u[End(u)..]);
    }
  }

  lemma SizedEntry(pg: Paging, e: Entry, env: Env, u: Text)
    requires e.Sized? && BoundedRead(u, pg.separator) == (TrimLeft(u), [])
    ensures WalkEntries(pg, [e], env, u) ==
            if e.sizeRef in env && pg.number(env[e.sizeRef]).Some?
            then Part(if e.emit then [Update(e.name, Cut(TrimLeft(u), pg.number(env[e.sizeRef]).value))] else [], [], Done)
            else Part([], [], Failed)
  {
    hide BoundedRead, TrimLeft;
    EntriesUnfold(pg, [e], env, u);
    assert [e][1..] == [];
  }

  /** An entry of trailing bytes behind them gives the rest of the block the same way, if
      that is acceptable; otherwise the walk raises. */
  lemma BytesDecode(pg: Paging, t: Text, front: seq<Entry>, name: string, emit: bool, slot: string, raises: bool,
                    pieces: seq<seq<seq<Text>>>)
    requires OneBlock(pg, t)
    requires pg.resolve(Split(t)[0]) == Child(Container(front + [Ref(name, emit, [ReadBytes(slot)])], raises))
    requires Layout(pg, front, pieces, map[], Split(t)[1..])
    ensures Shaped(front, pieces)
    ensures var blob := Blob(slot, TrimLeft(After(t, 1 + Count(pieces))));
            WalkText(pg, t) ==
            if pg.valid([blob])
            then Walk(GivesAll(front, pieces) + (if emit then [Update(name, Items([blob]))] else []), [Split(t)[0]], Finished)
            else Walk(GivesAll(front, pieces), [Split(t)[0]], Raised)
  {
    FrontLeaves(pg, t, front, pieces);
    var u := After(t, 1 + Count(pieces));
    BlockIsItsEntries(pg, t, front, [Ref(name, emit, [ReadBytes(slot)])], pieces, raises);
    BareRead(pg, u);
    hide WalkText, Contains, FirstWord, End, Split, Layout, After, GivesAll, WalkEntry, BoundedRead, Plain, Shaped, EnvAfter,
         TrimLeft;
    BytesEntry(pg, name, emit, slot, EnvAfter(front, pieces, map[]), u);
    assert GivesAll(front, pieces) + [] == GivesAll(front, pieces);
  }

  lemma BytesEntry(pg: Paging, name: string, emit: bool, slot: string, env: Env, u: Text)
    requires BoundedRead(u, pg.separator) == (TrimLeft(u), [])
    ensures var blob := Blob(slot, TrimLeft(u));
            WalkEntries(pg, [Ref(name, emit, [ReadBytes(slot)])], env, u) ==
            if pg.valid([blob]) then Part(if emit then [Update(name, Items([blob]))] else [], [], Done)
            else Part([], [], Failed)
  {
    hide BoundedRead, TrimLeft, AtEnd, FirstWord, End;
    var e, ops := Ref(name, emit, [ReadBytes(slot)]), [ReadBytes(slot)];
    EntriesUnfold(pg, [e], env, u);
    assert [e][1..] == [] && ops[1..] == [] && [] + [Blob(slot, TrimLeft(u))] == [Blob(slot, TrimLeft(u))];
    assert ReadOps(pg, [], [], [Blob(slot, TrimLeft(u))]) == Read([Blob(slot, TrimLeft(u))], [], Done);
  }

  /** When a reference finds too few tokens, the walk gives what the entries in front
      give, and then raises or goes on as `on_short_payload` says. */
  lemma ShortBlock(pg: Paging, t: Text, front: seq<Entry>, name: string, emit: bool, ops: seq<Op>, more: seq<Entry>,
                   raises: bool, pieces: seq<seq<seq<Text>>>, tokens: seq<Text>)
    requires OneBlock(pg, t)
    requires pg.resolve(Split(t)[0]) == Child(Container(front + ([Ref(name, emit, ops)] + more), raises))
    requires Layout(pg, front, pieces, map[], Split(t)[1..])
    requires 1 + Count(pieces) <= |Split(t)| && tokens == Split(t)[1 + Count(pieces)..]
    requires |tokens| < |ops| && Reads(pg, ops, tokens) && ops[|tokens|].ReadWord?
    ensures Shaped(front, pieces)
    ensures WalkText(pg, t) == Walk(GivesAll(front, pieces), [Split(t)[0]], if raises then Raised else Finished)
  {
    FrontLeaves(pg, t, front, pieces);
    var u := After(t, 1 + Count(pieces));
    BlockIsItsEntries(pg, t, front, [Ref(name, emit, ops)] + more, pieces, raises);
    hide WalkText, Contains, FirstWord, End, Split, Layout, After, GivesAll, WalkEntry, Plain, Shaped, EnvAfter, Reads;
    ShortEntry(pg, Ref(name, emit, ops), more, EnvAfter(front, pieces, map[]), u, tokens);
    assert GivesAll(front, pieces) + [] == GivesAll(front, pieces);
  }

  lemma ShortEntry(pg: Paging, e: Entry, more: seq<Entry>, env: Env, u: Text, tokens: seq<Text>)
    requires e.Ref? && tokens == Split(u) && Plain(pg, tokens)
    requires |tokens| < |e.ops| && Reads(pg, e.ops, tokens) && e.ops[|tokens|].ReadWord?
    ensures var part := WalkEntries(pg, [e] + more, env, u);
            part.updates == [] && part.status.Short? && Plain(pg, Split(part.left))
  {
    hide Contains, FirstWord, End, Split, After, ReadOps, Reads, Skip;
    EntriesUnfold(pg, [e] + more, env, u);
    assert e.ops[0..] == e.ops && tokens[0..] == tokens && Slots(e.ops, tokens[..0]) == [];
    OpsTake(pg, e.ops, 0, u, tokens);
    var left := After(u, |tokens|);
    SplitAfter(u, |tokens|);
    FirstToken(pg, left);
    OpsShort(pg, e.ops[|tokens|..], left, Slots(e.ops, tokens));
  }

  lemma OpsShort(pg: Paging, ops: seq<Op>, t: Text, got: seq<Item>)
    requires ops != [] && ops[0].ReadWord? && AtEnd(pg, t)
    ensures ReadOps(pg, ops, t, got) == Read(got, t, Short)
  {
  }

  /** A token that is not acceptable behind those before it makes the walk raise, behind
      what the entries in front give. */
  lemma InvalidBlock(pg: Paging, t: Text, front: seq<Entry>, name: string, emit: bool, ops: seq<Op>, more: seq<Entry>,
                     raises: bool, pieces: seq<seq<seq<Text>>>, tokens: seq<Text>, word: Text)
    requires OneBlock(pg, t)
    requires pg.resolve(Split(t)[0]) == Child(Container(front + ([Ref(name, emit, ops)] + more), raises))
    requires Layout(pg, front, pieces, map[], Split(t)[1..])
    requires 1 + Count(pieces) <= |Split(t)| && tokens + [word] <= Split(t)[1 + Count(pieces)..]
    requires |tokens| < |ops| && Reads(pg, ops, tokens) && ops[|tokens|].ReadWord?
    requires !pg.valid(Slots(ops, tokens) + [Word(ops[|tokens|].slot, word)])
    ensures Shaped(front, pieces)
    ensures WalkText(pg, t) == Walk(GivesAll(front, pieces), [Split(t)[0]], Raised)
  {
    FrontLeaves(pg, t, front, pieces);
    var u := After(t, 1 + Count(pieces));
    BlockIsItsEntries(pg, t, front, [Ref(name, emit, ops)] + more, pieces, raises);
    hide WalkText, Contains, FirstWord, End, Split, Layout, After, GivesAll, WalkEntry, Plain, Shaped, EnvAfter, Reads;
    InvalidEntry(pg, Ref(name, emit, ops), more, EnvAfter(front, pieces, map[]), u, tokens, word);
    assert GivesAll(front, pieces) + [] == GivesAll(front, pieces);
  }

  lemma InvalidEntry(pg: Paging, e: Entry, more: seq<Entry>, env: Env, u: Text, tokens: seq<Text>, word: Text)
    requires e.Ref? && tokens + [word] <= Split(u) && Plain(pg, Split(u))
    requires |tokens| < |e.ops| && Reads(pg, e.ops, tokens) && e.ops[|tokens|].ReadWord?
    requires !pg.valid(Slots(e.ops, tokens) + [Word(e.ops[|tokens|].slot, word)])
    ensures var part := WalkEntries(pg, [e] + more, env, u); part.updates == [] && part.status.Failed?
  {
    hide Contains, FirstWord, End, Split, After, ReadOps, Reads, Skip, AtEnd;
    EntriesUnfold(pg, [e] + more, env, u);
    var n := |tokens|;
    assert tokens == Split(u)[..n] && word == Split(u)[n];
    assert forall w :: w in tokens ==> w in Split(u);
    assert e.ops[0..] == e.ops && tokens[0..] == tokens && Slots(e.ops, tokens[..0]) == [];
    OpsTake(pg, e.ops, 0, u, tokens);
    var left := After(u, n);
    SplitAfter(u, n);
    FirstToken(pg, left);
    assert Split(left)[0] == word && word in Split(u);
    OpUnfolds(pg, e.ops[n..], left, Slots(e.ops, tokens));
  }

  /** So does a repeat whose count is no number. */
  lemma UncountedBlock(pg: Paging, t: Text, front: seq<Entry>, name: string, emit: bool, ops: seq<Op>, countRef: string,
                       more: seq<Entry>, raises: bool, pieces: seq<seq<seq<Text>>>)
    requires OneBlock(pg, t)
    requires pg.resolve(Split(t)[0]) == Child(Container(front + ([Repeat(name, emit, Dynamic(countRef), ops)] + more), raises))
    requires Layout(pg, front, pieces, map[], Split(t)[1..])
    requires var env := EnvAfter(front, pieces, map[]); countRef !in env || pg.number(env[countRef]).None?
    ensures Shaped(front, pieces)
    ensures WalkText(pg, t) == Walk(GivesAll(front, pieces), [Split(t)[0]], Raised)
  {
    FrontLeaves(pg, t, front, pieces);
    var u := After(t, 1 + Count(pieces));
    var e := Repeat(name, emit, Dynamic(countRef), ops);
    BlockIsItsEntries(pg, t, front, [e] + more, pieces, raises);
    hide WalkText, Contains, FirstWord, End, Split, Layout, After, GivesAll, Plain, Shaped, EnvAfter;
    EntriesUnfold(pg, [e] + more, EnvAfter(front, pieces, map[]), u);
    assert GivesAll(front, pieces) + [] == GivesAll(front, pieces);
  }

  lemma GivesAllSpelt(entries: seq<Entry>, pieces: seq<seq<seq<Text>>>)
    requires |pieces| == |entries| && Shaped(entries, pieces)
    ensures GivesAll(entries, pieces)
            == Flat(seq(|entries|, i requires 0 <= i < |entries| =>
                 if entries[i].emit
                 then seq(|pieces[i]|, j requires 0 <= j < |pieces[i]| =>
                        Update(entries[i].name, Items(
                          seq(|pieces[i][j]|, k requires 0 <= k < |pieces[i][j]| =>
                            Word(entries[i].ops[k].slot, pieces[i][j][k])))))
                 else []))
  {
    var given := seq(|entries|, i requires 0 <= i < |entries| => Gives(entries[i], pieces[i]));
    var spelt := seq(|entries|, i requires 0 <= i < |entries| =>
                 if entries[i].emit
                 then seq(|pieces[i]|, j requires 0 <= j < |pieces[i]| =>
                        Update(entries[i].name, Items(
                          seq(|pieces[i][j]|, k requires 0 <= k < |pieces[i][j]| =>
                            Word(entries[i].ops[k].slot, pieces[i][j][k])))))
                 else []);
    forall i | 0 <= i < |entries| ensures given[i] == spelt[i] {
      if entries[i].emit {
        assert |given[i]| == |spelt[i]|;
        forall j | 0 <= j < |pieces[i]| ensures given[i][j] == spelt[i][j] {
          assert Slots(entries[i].ops, pieces[i][j])
                 == seq(|pieces[i][j]|, k requires 0 <= k < |pieces[i][j]| => Word(entries[i].ops[k].slot, pieces[i][j][k]));
        }
      }
    }
    assert given == spelt;
  }
}

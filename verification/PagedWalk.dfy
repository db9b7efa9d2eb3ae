/** `EntryDecoder._walk_paged` of `mav_gss_lib/platform/spec/runtime.py`: a text
    frame is a run of blocks, each a marker token and its payload, and every block is
    decoded through a cursor that stops at the next marker.

    A decoded value is kept as the tokens and bytes it was read from: turning them
    into a number is a pure step, given by `valid` and `number`. */
module PagedWalks {
  import opened Options
  import opened Bitwise
  import opened Texts
  import opened TokenCursors

  /** What a type reads from the cursor, in order. A slot is the entry's type and the
      place in it the value is for. */
  datatype Op = ReadWord(slot: string) | ReadBytes(slot: string)

  datatype Item = Word(slot: string, word: Text) | Blob(slot: string, blob: Text)

  datatype Value = Items(items: seq<Item>) | Cut(blob: Text, size: int)

  datatype Count = Fixed(n: int) | Dynamic(ref: string) | ToEnd

  datatype Entry =
    | Ref(name: string, emit: bool, ops: seq<Op>)
    | Sized(name: string, emit: bool, sizeRef: string)
    | Repeat(name: string, emit: bool, count: Count, ops: seq<Op>)

  datatype Container = Container(entries: seq<Entry>, raisesOnShort: bool)

  datatype Update = Update(name: string, value: Value) | UnknownRegister(marker: Text)

  /** What `resolve_concrete` and `on_unknown_register` say about a marker. */
  datatype Dispatch = Child(container: Container) | SkipUnknown | EmitUnknown | RaiseUnknown

  datatype Paging = Paging(
    separator: Text,
    resolve: Text -> Dispatch,
    valid: seq<Item> -> bool,
    number: Value -> Option<int>)

  /** `Short` is the cursor's IndexError, `Failed` any other exception; `Endless` is a
      loop that never ends. */
  datatype Status = Done | Short | Failed | Endless

  datatype Ending = Finished | Raised | Hangs

  datatype Part = Part(updates: seq<Update>, left: Text, status: Status)

  datatype Read = Read(items: seq<Item>, left: Text, status: Status)

  /** The updates of a walk that hangs are those before the loop it hangs in. */
  datatype Walk = Walk(updates: seq<Update>, dispatched: seq<Text>, ending: Ending)

  type Env = map<string, Value>

  /** An open-ended repeat reads something each time round. */
  predicate WellFormedEntry(e: Entry) {
    e.Repeat? && (e.count.Fixed? ==> e.count.n < 0) ==> e.ops != []
  }

  predicate WellFormed(entries: seq<Entry>) {
    forall e :: e in entries ==> WellFormedEntry(e)
  }

  ghost predicate WellFormedPaging(pg: Paging) {
    forall m :: pg.resolve(m).Child? ==> WellFormed(pg.resolve(m).container.entries)
  }

  // ---- One block -------------------------------------------------------------

  /** No token is left before the next marker. */
  predicate AtEnd(pg: Paging, t: Text) {
    Skip(t) == [] || Contains(FirstWord(t), pg.separator)
  }

  function ReadOps(pg: Paging, ops: seq<Op>, t: Text, got: seq<Item>): (r: Read)
    decreases ops
  {
    if ops == [] then Read(got, t, Done)
    else if ops[0].ReadWord? && AtEnd(pg, t) then Read(got, t, Short)
    else
      var (item, left) := if ops[0].ReadWord? then (Word(ops[0].slot, FirstWord(t)), t[End(t)..])
                          else (Blob(ops[0].slot, BoundedRead(t, pg.separator).0), BoundedRead(t, pg.separator).1);
      if !pg.valid(got + [item]) then Read(got + [item], left, Failed)
      else ReadOps(pg, ops[1..], left, got + [item])
  }

  lemma {:induction false} ReadOpsShrinks(pg: Paging, ops: seq<Op>, t: Text, got: seq<Item>)
    ensures |ReadOps(pg, ops, t, got).left| <= |t|
    ensures ops != [] && !AtEnd(pg, t) && ReadOps(pg, ops, t, got).status.Done? ==>
              |ReadOps(pg, ops, t, got).left| < |t|
    decreases ops
  {
    if ops != [] && !(ops[0].ReadWord? && AtEnd(pg, t)) {
      var (item, left) := if ops[0].ReadWord? then (Word(ops[0].slot, FirstWord(t)), t[End(t)..])
                          else (Blob(ops[0].slot, BoundedRead(t, pg.separator).0), BoundedRead(t, pg.separator).1);
      BoundedReadShrinks(t, pg.separator);
      EndMoves(t);
      ReadOpsShrinks(pg, ops[1..], left, got + [item]);
    }
  }

  lemma EndMoves(t: Text)
    ensures Skip(t) != [] ==> 0 < End(t) && Start(t) < End(t)
  {
    if Skip(t) != [] {
      var gap, word, rest := Shape(t);
    }
  }

  lemma BoundedReadShrinks(t: Text, separator: Text)
    ensures |BoundedRead(t, separator).1| <= |t|
    ensures Skip(t) != [] && !Contains(FirstWord(t), separator) ==> |BoundedRead(t, separator).1| < |t|
  {
    hide TrimLeft, TrimRight, WordLength, Start, Contains;
    var at := MarkerAt(t, separator);
    if at.Some? && Skip(t) != [] && !Contains(FirstWord(t), separator) {
      EndMoves(t);
      MarkerBehind(t, separator, at.value, t[End(t)..], at.value - End(t));
      SomethingIsKept(t[..at.value], Start(t));
    }
  }

  lemma SomethingIsKept(t: Text, i: nat)
    requires i < |t| && !Space(t[i])
    ensures TrimRight(TrimLeft(t)) != []
  {
    TrimLeftKeeps(t, i);
    TrimRightIsPrefix(TrimLeft(t));
  }

  lemma {:induction false} TrimLeftKeeps(t: Text, i: nat)
    requires i < |t| && !Space(t[i])
    ensures exists j :: 0 <= j < |TrimLeft(t)| && !Space(TrimLeft(t)[j])
  {
    if Trimmed(t[0]) {
      TrimLeftKeeps(t[1..], i - 1);
      var j :| 0 <= j < |TrimLeft(t[1..])| && !Space(TrimLeft(t[1..])[j]);
      assert !Space(TrimLeft(t)[j]);
    } else {
      assert !Space(TrimLeft(t)[i]);
    }
  }

  /** The next entry of a container: its part, and the environment after it. */
  function WalkEntry(pg: Paging, e: Entry, env: Env, t: Text): (r: (Part, Env))
  {
    match e
    case Ref(name, emit, ops) =>
      var got := ReadOps(pg, ops, t, []);
      if got.status.Done? then
        (Part(if emit then [Update(name, Items(got.items))] else [], got.left, Done), env[name := Items(got.items)])
      else (Part([], got.left, got.status), env)
    case Sized(name, emit, sizeRef) =>
      var (blob, left) := BoundedRead(t, pg.separator);
      if sizeRef !in env || pg.number(env[sizeRef]).None? then (Part([], left, Failed), env)
      else
        var v := Cut(blob, pg.number(env[sizeRef]).value);
        (Part(if emit then [Update(name, v)] else [], left, Done), env[name := v])
    case Repeat(name, emit, count, ops) =>
      match count
      case Fixed(n) => (WalkRepeat(pg, name, emit, ops, n, t), env)
      case ToEnd => (WalkRepeat(pg, name, emit, ops, -1, t), env)
      case Dynamic(ref) =>
        if ref !in env || pg.number(env[ref]).None? then (Part([], t, Failed), env)
        else (WalkRepeat(pg, name, emit, ops, pg.number(env[ref]).value, t), env)
  }

  /** `count` items, or, when it is negative, as many as there are: a type that reads
      nothing then never gets there. */
  function WalkRepeat(pg: Paging, name: string, emit: bool, ops: seq<Op>, count: int, t: Text): Part
    decreases |t|, if count < 0 then 0 else count
  {
    if count == 0 || AtEnd(pg, t) then Part([], t, Done)
    else if count < 0 && ops == [] then Part([], t, Endless)
    else
      ReadOpsShrinks(pg, ops, t, []);
      var got := ReadOps(pg, ops, t, []);
      if !got.status.Done? then Part([], got.left, got.status)
      else
        var rest := WalkRepeat(pg, name, emit, ops, if count < 0 then count else count - 1, got.left);
        Part((if emit then [Update(name, Items(got.items))] else []) + rest.updates, rest.left, rest.status)
  }

  /** `walk` of a container, up to its end or the first exception. */
  function WalkEntries(pg: Paging, entries: seq<Entry>, env: Env, t: Text): Part
    decreases entries
  {
    if entries == [] then Part([], t, Done)
    else
      var (first, env') := WalkEntry(pg, entries[0], env, t);
      if !first.status.Done? then first
      else
        var rest := WalkEntries(pg, entries[1..], env', first.left);
        Part(first.updates + rest.updates, rest.left, rest.status)
  }

  function Append(updates: seq<Update>, p: Part): Part {
    Part(updates + p.updates, p.left, p.status)
  }

  lemma AppendNothing(p: Part)
    ensures Append([], p) == p
  {
    assert [] + p.updates == p.updates;
  }

  lemma AppendTwice(a: seq<Update>, b: seq<Update>, p: Part)
    ensures Append(a, Append(b, p)) == Append(a + b, p)
  {
    assert a + (b + p.updates) == a + b + p.updates;
  }

  lemma EntriesUnfold(pg: Paging, entries: seq<Entry>, env: Env, t: Text)
    ensures entries == [] ==> WalkEntries(pg, entries, env, t) == Part([], t, Done)
    ensures entries != [] ==>
              var (first, env') := WalkEntry(pg, entries[0], env, t);
              WalkEntries(pg, entries, env, t) ==
              if !first.status.Done? then first
              else Append(first.updates, WalkEntries(pg, entries[1..], env', first.left))
  {
    hide WalkEntry;
  }

  lemma {:induction false} WalkRepeatShrinks(pg: Paging, name: string, emit: bool, ops: seq<Op>, count: int, t: Text)
    ensures |WalkRepeat(pg, name, emit, ops, count, t).left| <= |t|
    decreases |t|, if count < 0 then 0 else count
  {
    if count != 0 && !AtEnd(pg, t) && (count < 0 ==> ops != []) {
      ReadOpsShrinks(pg, ops, t, []);
      var got := ReadOps(pg, ops, t, []);
      if got.status.Done? {
        WalkRepeatShrinks(pg, name, emit, ops, if count < 0 then count else count - 1, got.left);
      }
    }
  }

  lemma {:induction false} WalkEntriesShrinks(pg: Paging, entries: seq<Entry>, env: Env, t: Text)
    ensures |WalkEntries(pg, entries, env, t).left| <= |t|
    decreases entries
  {
    if entries != [] {
      var e := entries[0];
      var (first, env') := WalkEntry(pg, e, env, t);
      match e {
        case Ref(_, _, ops) => ReadOpsShrinks(pg, ops, t, []);
        case Sized(_, _, _) => BoundedReadShrinks(t, pg.separator);
        case Repeat(name, emit, count, ops) =>
          if count.Fixed? {
            WalkRepeatShrinks(pg, name, emit, ops, count.n, t);
          } else if count.ToEnd? {
            WalkRepeatShrinks(pg, name, emit, ops, -1, t);
          } else if count.ref in env && pg.number(env[count.ref]).Some? {
            WalkRepeatShrinks(pg, name, emit, ops, pg.number(env[count.ref]).value, t);
          }
      }
      if first.status.Done? {
        WalkEntriesShrinks(pg, entries[1..], env', first.left);
      }
    }
  }

  // ---- The frame -------------------------------------------------------------

  /** What a block's status means for the walk: `on_short_payload` decides about a
      short one. */
  function StopsAt(c: Container, status: Status): Ending {
    match status
    case Done => Finished
    case Short => if c.raisesOnShort then Raised else Finished
    case Failed => Raised
    case Endless => Hangs
  }

  function Prefix(updates: seq<Update>, dispatched: seq<Text>, w: Walk): Walk {
    Walk(updates + w.updates, dispatched + w.dispatched, w.ending)
  }

  /** `_walk_paged` on the text the cursor has left. */
  function WalkText(pg: Paging, t: Text): Walk
    decreases |t|
  {
    if Skip(t) == [] then Walk([], [], Finished)
    else
      EndMoves(t);
      var token, after := FirstWord(t), t[End(t)..];
      if !Contains(token, pg.separator) then WalkText(pg, after)
      else
        match pg.resolve(token)
        case RaiseUnknown => Walk([], [token], Raised)
        case SkipUnknown => Prefix([], [token], WalkText(pg, after))
        case EmitUnknown => Prefix([UnknownRegister(token)], [token], WalkText(pg, after))
        case Child(c) =>
          WalkEntriesShrinks(pg, c.entries, map[], after);
          var part := WalkEntries(pg, c.entries, map[], after);
          if StopsAt(c, part.status).Finished? then Prefix(part.updates, [token], WalkText(pg, part.left))
          else Walk(part.updates, [token], StopsAt(c, part.status))
  }

  // ---- Loops that never end --------------------------------------------------

  /** The open-ended loop at `t` goes round `k` times and then begins another turn. */
  predicate Turns(pg: Paging, ops: seq<Op>, t: Text, k: nat)
    decreases k
  {
    && !AtEnd(pg, t)
    && (k > 0 ==> ReadOps(pg, ops, t, []).status.Done? && Turns(pg, ops, ReadOps(pg, ops, t, []).left, k - 1))
  }

  /** A turn moves on exactly when the type reads something. */
  lemma TurnMovesOn(pg: Paging, ops: seq<Op>, t: Text)
    requires !AtEnd(pg, t) && ReadOps(pg, ops, t, []).status.Done?
    ensures ReadOps(pg, ops, t, []).left != t <==> ops != []
    ensures |ReadOps(pg, ops, t, []).left| < |t| <==> ops != []
  {
    ReadOpsShrinks(pg, ops, t, []);
  }

  lemma {:induction false} TurnsOnTheSpot(pg: Paging, t: Text, k: nat)
    requires !AtEnd(pg, t)
    ensures Turns(pg, [], t, k)
    decreases k
  {
    hide AtEnd;
    if k > 0 {
      TurnsOnTheSpot(pg, t, k - 1);
    }
  }

  lemma {:induction false} TurnsRunOut(pg: Paging, ops: seq<Op>, t: Text, k: nat)
    requires ops != [] && k >= |t|
    ensures !Turns(pg, ops, t, k)
    decreases k
  {
    hide ReadOps, FirstWord;
    if !AtEnd(pg, t) && ReadOps(pg, ops, t, []).status.Done? {
      TurnMovesOn(pg, ops, t);
      if k > 0 {
        TurnsRunOut(pg, ops, ReadOps(pg, ops, t, []).left, k - 1);
      }
    }
  }

  lemma {:induction false} OpsEnd(pg: Paging, ops: seq<Op>, t: Text, got: seq<Item>)
    ensures !ReadOps(pg, ops, t, got).status.Endless?
    decreases ops
  {
    hide BoundedRead, FirstWord, End, AtEnd;
    if ops != [] {
      var (item, left) := if ops[0].ReadWord? then (Word(ops[0].slot, FirstWord(t)), t[End(t)..])
                          else (Blob(ops[0].slot, BoundedRead(t, pg.separator).0), BoundedRead(t, pg.separator).1);
      OpsEnd(pg, ops[1..], left, got + [item]);
    }
  }

  /** A repeat goes round forever exactly when it is open-ended, its type reads nothing
      and a token is left. */
  lemma {:induction false} EndlessRepeat(pg: Paging, name: string, emit: bool, ops: seq<Op>, count: int, t: Text)
    ensures WalkRepeat(pg, name, emit, ops, count, t).status.Endless? <==>
            count < 0 && forall k: nat :: Turns(pg, ops, t, k)
    ensures WalkRepeat(pg, name, emit, ops, count, t).status.Endless? <==>
            count < 0 && ops == [] && !AtEnd(pg, t)
    decreases |t|, if count < 0 then 0 else count
  {
    hide AtEnd, ReadOps, Turns;
    if count < 0 {
      TurnsUnless(pg, ops, t);
    }
    if count != 0 && !AtEnd(pg, t) && (count < 0 ==> ops != []) {
      ReadOpsShrinks(pg, ops, t, []);
      OpsEnd(pg, ops, t, []);
      var got := ReadOps(pg, ops, t, []);
      if got.status.Done? {
        EndlessRepeat(pg, name, emit, ops, if count < 0 then count else count - 1, got.left);
      }
    }
  }

  lemma TurnsUnless(pg: Paging, ops: seq<Op>, t: Text)
    ensures (forall k: nat :: Turns(pg, ops, t, k)) <==> ops == [] && !AtEnd(pg, t)
  {
    hide AtEnd, ReadOps;
    if ops != [] {
      TurnsRunOut(pg, ops, t, |t|);
    } else if AtEnd(pg, t) {
      assert !Turns(pg, ops, t, 0);
    } else {
      forall k: nat ensures Turns(pg, ops, t, k) {
        TurnsOnTheSpot(pg, t, k);
      }
    }
  }

  lemma {:induction false} EntriesEnd(pg: Paging, entries: seq<Entry>, env: Env, t: Text)
    requires WellFormed(entries)
    ensures !WalkEntries(pg, entries, env, t).status.Endless?
    decreases entries
  {
    hide ReadOps, WalkRepeat, BoundedRead;
    if entries != [] {
      var e := entries[0];
      assert WellFormedEntry(e);
      match e {
        case Ref(_, _, ops) => OpsEnd(pg, ops, t, []);
        case Sized(_, _, _) =>
        case Repeat(name, emit, count, ops) =>
          if count.Fixed? {
            EndlessRepeat(pg, name, emit, ops, count.n, t);
          } else if count.ToEnd? {
            EndlessRepeat(pg, name, emit, ops, -1, t);
          } else if count.ref in env && pg.number(env[count.ref]).Some? {
            EndlessRepeat(pg, name, emit, ops, pg.number(env[count.ref]).value, t);
          }
      }
      var (first, env') := WalkEntry(pg, e, env, t);
      if first.status.Done? {
        EntriesEnd(pg, entries[1..], env', first.left);
      }
    }
  }

  /** When every open-ended repeat reads something, every walk ends. */
  lemma {:induction false} WellFormedWalksEnd(pg: Paging, t: Text)
    requires WellFormedPaging(pg)
    ensures !WalkText(pg, t).ending.Hangs?
    decreases |t|
  {
    hide Contains, FirstWord, End, WalkText, WalkEntries, Start, WellFormed;
    WalkUnfolds(pg, t);
    EndMoves(t);
    if Skip(t) != [] {
      var token, after := FirstWord(t), t[End(t)..];
      WellFormedWalksEnd(pg, after);
      if pg.resolve(token).Child? {
        var entries := pg.resolve(token).container.entries;
        WalkEntriesShrinks(pg, entries, map[], after);
        EntriesEnd(pg, entries, map[], after);
        WellFormedWalksEnd(pg, WalkEntries(pg, entries, map[], after).left);
      }
    }
  }

  /** "A:1 7", where A:1 is an open-ended repeat of a type with no members. */
  lemma NothingRepeatedForever(pg: Paging, c: Container, name: string)
    requires pg.separator == [58] && pg.resolve([65, 58, 49]) == Child(c)
    requires c.entries == [Repeat(name, true, ToEnd, [])]
    ensures WalkText(pg, [65, 58, 49, 32, 55]) == Walk([], [[65, 58, 49]], Hangs)
  {
    hide WalkText, FirstWord, End, Start, Split, Skip, Contains;
    var marker: Text, after: Text, t: Text := [65, 58, 49], [32, 55], [65, 58, 49, 32, 55];
    var digit: Text, blank: Text := [55], [32];
    assert t == [] + (marker + after) && after == blank + (digit + []);
    FirstOf([], marker, after, t);
    FirstOf(blank, digit, [], after);
    MarkerOrNot(marker, digit, pg.separator);
    HangsAtOnce(pg, t, c, name);
  }

  lemma HangsAtOnce(pg: Paging, t: Text, c: Container, name: string)
    requires Skip(t) != [] && Contains(FirstWord(t), pg.separator) && pg.resolve(FirstWord(t)) == Child(c)
    requires c.entries == [Repeat(name, true, ToEnd, [])] && !AtEnd(pg, t[End(t)..])
    ensures WalkText(pg, t) == Walk([], [FirstWord(t)], Hangs)
  {
    hide WalkText, FirstWord, End, Start, AtEnd, Skip, Contains;
    WalkUnfolds(pg, t);
  }

  /** ":" is in "A:1" and not in "7". */
  lemma MarkerOrNot(marker: Text, digit: Text, separator: Text)
    requires marker == [65, 58, 49] && digit == [55] && separator == [58]
    ensures Contains(marker, separator) && !Contains(digit, separator)
  {
    assert marker[1..2] == separator;
    assert OccursAt(marker, separator, 1);
    assert digit[0..1][0] == 55;
    assert !OccursAt(digit, separator, 0);
  }

  // ---- Blocks are independent ------------------------------------------------

  /** Inter-token padding. */
  predicate Padding(gap: Text) {
    forall i :: 0 <= i < |gap| ==> Trimmed(gap[i])
  }

  predicate NoTrailingPadding(t: Text) {
    t == [] || !Trimmed(t[|t| - 1])
  }

  /** A block starts with a marker token. */
  predicate StartsWithMarker(pg: Paging, block: Text) {
    block != [] && !Space(block[0]) && Contains(FirstWord(block), pg.separator)
  }

  /** Something stands between the last token of `x` and what follows the gap. */
  predicate Apart(x: Text, gap: Text) {
    x == [] || gap != [] || Space(x[|x| - 1])
  }

  /** `y` is what is left of a frame whose rest is `x`, then `gap` and `block`. */
  predicate Extends(x: Text, y: Text, gap: Text, block: Text) {
    (y == x + (gap + block) && NoTrailingPadding(x) && Apart(x, gap)) || (x == [] && y == block)
  }

  /** With no token left in `x`, the block is next. */
  lemma ExtendsBlank(x: Text, y: Text, gap: Text, block: Text)
    requires Extends(x, y, gap, block) && Padding(gap) && block != [] && !Space(block[0])
    requires Skip(x) == []
    ensures Skip(y) != [] && FirstWord(y) == FirstWord(block) && y[End(y)..] == block[End(block)..]
    ensures Start(y) == |y| - |block| && Skip(block) != []
  {
    hide FirstWord, End, Start;
    var before, _, _ := Shape(x);
    var blanks := if y == block then [] else x + gap;
    assert y == blanks + block;
    BlankThenBlock(blanks, block, y);
  }

  lemma BlankThenBlock(blanks: Text, block: Text, y: Text)
    requires Blank(blanks) && y == blanks + block && block != [] && !Space(block[0])
    ensures Skip(y) != [] && FirstWord(y) == FirstWord(block) && y[End(y)..] == block[End(block)..]
    ensures Start(y) == |y| - |block| && Skip(block) != []
  {
    hide Split, Blank, FirstWord, End, WordLength;
    StartOf([], block);
    assert [] + block == block;
    SplitSkipsBlank(blanks, block);
    StartOf(blanks, block);
  }

  /** Otherwise both read the same token and stay related. */
  lemma ExtendsWord(x: Text, y: Text, gap: Text, block: Text)
    requires Extends(x, y, gap, block) && Padding(gap) && Skip(x) != []
    ensures Skip(y) != [] && FirstWord(y) == FirstWord(x) && End(y) == End(x) && Start(y) == Start(x)
    ensures Extends(x[End(x)..], y[End(y)..], gap, block)
  {
    hide Split, Start, WordLength;
    var before, word, rest := Shape(x);
    SplitWord(x);
    if y == x + (gap + block) {
      assert gap != [] ==> (gap + block)[0] == gap[0];
      FirstIsKept(before, word, rest, gap + block, x, y);
    }
  }

  lemma SplitWord(x: Text)
    ensures Skip(x) != [] <==> Split(x) != []
  {
  }

  lemma FirstIsKept(before: Text, word: Text, rest: Text, tail: Text, x: Text, y: Text)
    requires Blank(before) && IsWord(word) && (rest == [] || Space(rest[0]))
    requires x == before + (word + rest) && y == x + tail && NoTrailingPadding(x)
    requires Space(x[|x| - 1]) || (tail != [] && Trimmed(tail[0]))
    ensures Skip(y) != [] && FirstWord(y) == FirstWord(x) && End(y) == End(x) && Start(y) == Start(x)
    ensures x[End(x)..] == rest && y[End(y)..] == rest + tail && NoTrailingPadding(rest)
    ensures rest != [] ==> rest[|rest| - 1] == x[|x| - 1]
  {
    hide *;
    LastStays(before, word, rest, tail, x);
    assert y == before + (word + (rest + tail));
    FirstOf(before, word, rest, x);
    FirstOf(before, word, rest + tail, y);
  }

  lemma FirstOf(gap: Text, word: Text, rest: Text, t: Text)
    requires Blank(gap) && IsWord(word) && (rest == [] || Space(rest[0])) && t == gap + (word + rest)
    ensures Skip(t) != [] && Start(t) == |gap| && End(t) == |gap| + |word| && FirstWord(t) == word && t[End(t)..] == rest
  {
    hide Split, Blank, WordLength;
    SplitFirst(gap, word, rest);
  }

  lemma LastStays(before: Text, word: Text, rest: Text, tail: Text, x: Text)
    requires IsWord(word) && (rest == [] || Space(rest[0])) && x == before + (word + rest) && NoTrailingPadding(x)
    requires Space(x[|x| - 1]) || (tail != [] && Trimmed(tail[0]))
    ensures NoTrailingPadding(rest) && (rest != [] ==> rest[|rest| - 1] == x[|x| - 1])
    ensures rest + tail == [] || Space((rest + tail)[0])
  {
    if rest == [] {
      assert x[|x| - 1] == word[|word| - 1];
      assert rest + tail == tail;
    } else {
      assert x[|x| - 1] == rest[|rest| - 1];
    }
  }

  // Bounded reads

  lemma {:induction false} MarkerOfExtended(pg: Paging, x: Text, y: Text, gap: Text, block: Text)
    requires Extends(x, y, gap, block) && Padding(gap) && StartsWithMarker(pg, block)
    ensures MarkerAt(x, pg.separator).Some? ==> MarkerAt(y, pg.separator) == MarkerAt(x, pg.separator)
    ensures MarkerAt(x, pg.separator).None? ==> MarkerAt(y, pg.separator) == Some(|y| - |block|)
    decreases |x|
  {
    hide MarkerAt, Contains, FirstWord, WordLength, End, Start, Extends;
    MarkerUnfolds(x, pg.separator);
    MarkerUnfolds(y, pg.separator);
    if Skip(x) == [] {
      ExtendsBlank(x, y, gap, block);
    } else {
      ExtendsWord(x, y, gap, block);
      EndMoves(x);
      if !Contains(FirstWord(x), pg.separator) {
        MarkerOfExtended(pg, x[End(x)..], y[End(y)..], gap, block);
      }
    }
  }

  lemma MarkerUnfolds(t: Text, separator: Text)
    ensures Skip(t) == [] ==> MarkerAt(t, separator) == None
    ensures Skip(t) != [] && Contains(FirstWord(t), separator) ==> MarkerAt(t, separator) == Some(Start(t))
    ensures Skip(t) != [] && !Contains(FirstWord(t), separator) ==>
              var behind := MarkerAt(t[End(t)..], separator);
              MarkerAt(t, separator) == if behind.Some? then Some(End(t) + behind.value) else None
  {
  }

  lemma ReadOfExtended(pg: Paging, x: Text, y: Text, gap: Text, block: Text)
    requires Extends(x, y, gap, block) && Padding(gap) && StartsWithMarker(pg, block)
    ensures BoundedRead(y, pg.separator).0 == BoundedRead(x, pg.separator).0
    ensures Extends(BoundedRead(x, pg.separator).1, BoundedRead(y, pg.separator).1, gap, block)
  {
    hide MarkerAt, TrimLeft, TrimRight;
    MarkerOfExtended(pg, x, y, gap, block);
    var at := MarkerAt(x, pg.separator);
    if at.Some? {
      NoMarkerInNothing(pg.separator);
      SameMarkerRead(x, gap + block, at.value);
    } else if y == block {
      LastRead([], [], block);
    } else {
      LastRead(x, gap, block);
    }
  }

  lemma NoMarkerInNothing(separator: Text)
    ensures MarkerAt([], separator) == None
  {
  }

  /** A marker inside `x`: the same bytes, and the same place to go on from. */
  lemma SameMarkerRead(x: Text, tail: Text, p: nat)
    requires p <= |x|
    ensures (x + tail)[..p] == x[..p]
    ensures var payload := TrimLeft(x[..p]);
            var at := p - (|payload| - |TrimRight(payload)|);
            at <= p && (x + tail)[at..] == x[at..] + tail
            && (NoTrailingPadding(x) ==> NoTrailingPadding(x[at..]))
            && (x[at..] != [] ==> x[at..][|x[at..]| - 1] == x[|x| - 1])
  {
    hide TrimLeft, TrimRight;
  }

  /** The marker is the block's: the padding is trimmed away from the payload. */
  lemma LastRead(x: Text, gap: Text, block: Text)
    requires NoTrailingPadding(x) && forall i :: 0 <= i < |gap| ==> Trimmed(gap[i])
    ensures var payload := TrimLeft(x + gap);
            && TrimRight(payload) == TrimLeft(x)
            && |payload| - |TrimRight(payload)| == if TrimLeft(x) == [] then 0 else |gap|
    ensures x != [] ==> TrimLeft(x) != []
    ensures (x + (gap + block))[..|x| + |gap|] == x + gap
  {
    assert (x + (gap + block))[..|x| + |gap|] == x + gap;
    if x == [] {
      assert x + gap == gap;
      TrimAll(gap);
    } else {
      TrimLeftOfMore(x, gap);
      TrimRightOfMore(TrimLeft(x), gap);
    }
  }

  lemma {:induction false} TrimAll(gap: Text)
    requires forall i :: 0 <= i < |gap| ==> Trimmed(gap[i])
    ensures TrimLeft(gap) == []
  {
    if gap != [] {
      TrimAll(gap[1..]);
    }
  }

  lemma {:induction false} TrimLeftOfMore(x: Text, gap: Text)
    requires x != [] && !Trimmed(x[|x| - 1])
    ensures TrimLeft(x + gap) == TrimLeft(x) + gap
    ensures TrimLeft(x) != [] && !Trimmed(TrimLeft(x)[|TrimLeft(x)| - 1])
  {
    if Trimmed(x[0]) {
      TrimLeftOfMore(x[1..], gap);
      assert (x + gap)[1..] == x[1..] + gap;
    }
  }

  lemma {:induction false} TrimRightOfMore(u: Text, gap: Text)
    requires u != [] && !Trimmed(u[|u| - 1])
    requires forall i :: 0 <= i < |gap| ==> Trimmed(gap[i])
    ensures TrimRight(u + gap) == u
  {
    if gap != [] {
      TrimRightOfMore(u, gap[..|gap| - 1]);
      assert (u + gap)[..|u + gap| - 1] == u + gap[..|gap| - 1];
    } else {
      assert u + gap == u;
    }
  }

  // Children

  lemma EndOfExtended(pg: Paging, x: Text, y: Text, gap: Text, block: Text)
    requires Extends(x, y, gap, block) && Padding(gap) && StartsWithMarker(pg, block)
    ensures AtEnd(pg, y) == AtEnd(pg, x)
  {
    hide Contains, FirstWord, End, Start;
    if Skip(x) == [] {
      ExtendsBlank(x, y, gap, block);
    } else {
      ExtendsWord(x, y, gap, block);
    }
  }

  lemma {:induction false} OpsOfExtended(pg: Paging, ops: seq<Op>, x: Text, y: Text, gap: Text, block: Text, got: seq<Item>)
    requires Extends(x, y, gap, block) && Padding(gap) && StartsWithMarker(pg, block)
    ensures var a, b := ReadOps(pg, ops, x, got), ReadOps(pg, ops, y, got);
            && b.items == a.items && b.status == a.status && Extends(a.left, b.left, gap, block)
    decreases ops
  {
    hide Extends, BoundedRead, Contains, FirstWord, End, Start, Padding, StartsWithMarker;
    if ops != [] {
      EndOfExtended(pg, x, y, gap, block);
      if ops[0].ReadBytes? {
        ReadOfExtended(pg, x, y, gap, block);
        var item := Blob(ops[0].slot, BoundedRead(x, pg.separator).0);
        OpsOfExtended(pg, ops[1..], BoundedRead(x, pg.separator).1, BoundedRead(y, pg.separator).1, gap, block, got + [item]);
      } else if !AtEnd(pg, x) {
        ExtendsWord(x, y, gap, block);
        OpsOfExtended(pg, ops[1..], x[End(x)..], y[End(y)..], gap, block, got + [Word(ops[0].slot, FirstWord(x))]);
      }
    }
  }

  ghost predicate SamePart(a: Part, b: Part, gap: Text, block: Text) {
    b.updates == a.updates && b.status == a.status && Extends(a.left, b.left, gap, block)
  }

  lemma {:induction false} RepeatOfExtended(pg: Paging, name: string, emit: bool, ops: seq<Op>, count: int,
                                            x: Text, y: Text, gap: Text, block: Text)
    requires Extends(x, y, gap, block) && Padding(gap) && StartsWithMarker(pg, block)
    ensures SamePart(WalkRepeat(pg, name, emit, ops, count, x), WalkRepeat(pg, name, emit, ops, count, y), gap, block)
    decreases |x|, if count < 0 then 0 else count
  {
    hide Extends, AtEnd, ReadOps, Padding, StartsWithMarker;
    EndOfExtended(pg, x, y, gap, block);
    if count != 0 && !AtEnd(pg, x) && (count < 0 ==> ops != []) {
      ReadOpsShrinks(pg, ops, x, []);
      OpsOfExtended(pg, ops, x, y, gap, block, []);
      var a, b := ReadOps(pg, ops, x, []), ReadOps(pg, ops, y, []);
      if a.status.Done? {
        RepeatOfExtended(pg, name, emit, ops, if count < 0 then count else count - 1, a.left, b.left, gap, block);
      }
    }
  }

  lemma EntryOfExtended(pg: Paging, e: Entry, env: Env, x: Text, y: Text, gap: Text, block: Text)
    requires Extends(x, y, gap, block) && Padding(gap) && StartsWithMarker(pg, block)
    ensures var (a, env1) := WalkEntry(pg, e, env, x); var (b, env2) := WalkEntry(pg, e, env, y);
            SamePart(a, b, gap, block) && env1 == env2
  {
    hide Extends, ReadOps, WalkRepeat, BoundedRead, Padding, StartsWithMarker;
    match e
    case Ref(_, _, ops) => OpsOfExtended(pg, ops, x, y, gap, block, []);
    case Sized(_, _, _) => ReadOfExtended(pg, x, y, gap, block);
    case Repeat(name, emit, count, ops) =>
      if count.Fixed? {
        RepeatOfExtended(pg, name, emit, ops, count.n, x, y, gap, block);
      } else if count.ToEnd? {
        RepeatOfExtended(pg, name, emit, ops, -1, x, y, gap, block);
      } else if count.ref in env && pg.number(env[count.ref]).Some? {
        RepeatOfExtended(pg, name, emit, ops, pg.number(env[count.ref]).value, x, y, gap, block);
      }
  }

  /** A child decodes the same from its own block as from the whole frame. */
  lemma {:induction false} EntriesOfExtended(pg: Paging, entries: seq<Entry>, env: Env, x: Text, y: Text, gap: Text, block: Text)
    requires Extends(x, y, gap, block) && Padding(gap) && StartsWithMarker(pg, block)
    ensures SamePart(WalkEntries(pg, entries, env, x), WalkEntries(pg, entries, env, y), gap, block)
    decreases entries
  {
    hide Extends, WalkEntry, Padding, StartsWithMarker;
    if entries != [] {
      EntryOfExtended(pg, entries[0], env, x, y, gap, block);
      var (a, env') := WalkEntry(pg, entries[0], env, x);
      var (b, _) := WalkEntry(pg, entries[0], env, y);
      if a.status.Done? {
        EntriesOfExtended(pg, entries[1..], env', a.left, b.left, gap, block);
      }
    }
  }

  // Frames

  /** One walk after another, unless the first stopped. */
  function Then(a: Walk, b: Walk): Walk {
    if a.ending.Finished? then Walk(a.updates + b.updates, a.dispatched + b.dispatched, b.ending) else a
  }

  lemma ThenPrefix(us: seq<Update>, ds: seq<Text>, a: Walk, b: Walk)
    ensures Then(Prefix(us, ds, a), b) == Prefix(us, ds, Then(a, b))
  {
    if a.ending.Finished? {
      assert us + a.updates + b.updates == us + (a.updates + b.updates);
      assert ds + a.dispatched + b.dispatched == ds + (a.dispatched + b.dispatched);
    }
  }

  /** The walk of a frame is the walk of its first part, then that of the block
      after it decoded alone. */
  lemma {:induction false} WalkOfExtended(pg: Paging, x: Text, y: Text, gap: Text, block: Text)
    requires Extends(x, y, gap, block) && Padding(gap) && StartsWithMarker(pg, block)
    ensures WalkText(pg, y) == Then(WalkText(pg, x), WalkText(pg, block))
    decreases |x|
  {
    hide Extends, Contains, FirstWord, End, Start, Padding, WalkEntries, Then, Prefix, WalkText;
    WalkUnfolds(pg, x);
    WalkUnfolds(pg, y);
    var last := WalkText(pg, block);
    if Skip(x) == [] {
      ExtendsBlank(x, y, gap, block);
      WalkUnfolds(pg, block);
      ThenNothing(last);
    } else {
      ExtendsWord(x, y, gap, block);
      EndMoves(x);
      var token, after, after' := FirstWord(x), x[End(x)..], y[End(y)..];
      WalkOfExtended(pg, after, after', gap, block);
      ThenPrefix([], [token], WalkText(pg, after), last);
      ThenPrefix([UnknownRegister(token)], [token], WalkText(pg, after), last);
      ThenStopped(Walk([], [token], Raised), last);
      if pg.resolve(token).Child? {
        var entries := pg.resolve(token).container.entries;
        var a, b := WalkEntries(pg, entries, map[], after), WalkEntries(pg, entries, map[], after');
        EntriesOfExtended(pg, entries, map[], after, after', gap, block);
        WalkEntriesShrinks(pg, entries, map[], after);
        WalkOfExtended(pg, a.left, b.left, gap, block);
        ThenPrefix(a.updates, [token], WalkText(pg, a.left), last);
        var ending := StopsAt(pg.resolve(token).container, a.status);
        if !ending.Finished? {
          ThenStopped(Walk(a.updates, [token], ending), last);
        }
      }
    }
  }

  lemma ThenStopped(a: Walk, b: Walk)
    requires !a.ending.Finished?
    ensures Then(a, b) == a
  {
  }

  lemma ThenNothing(b: Walk)
    ensures Then(Walk([], [], Finished), b) == b
  {
    assert [] + b.updates == b.updates && [] + b.dispatched == b.dispatched;
  }

  /** One turn of the walk, in terms of the token and what follows it. */
  function Turn(pg: Paging, token: Text, after: Text): Walk
  {
    if !Contains(token, pg.separator) then WalkText(pg, after)
    else
      match pg.resolve(token)
      case RaiseUnknown => Walk([], [token], Raised)
      case SkipUnknown => Prefix([], [token], WalkText(pg, after))
      case EmitUnknown => Prefix([UnknownRegister(token)], [token], WalkText(pg, after))
      case Child(c) =>
        var part := WalkEntries(pg, c.entries, map[], after);
        if StopsAt(c, part.status).Finished? then Prefix(part.updates, [token], WalkText(pg, part.left))
        else Walk(part.updates, [token], StopsAt(c, part.status))
  }

  lemma WalkUnfolds(pg: Paging, t: Text)
    ensures WalkText(pg, t) == if Skip(t) == [] then Walk([], [], Finished) else Turn(pg, FirstWord(t), t[End(t)..])
  {
  }

  /** A frame: blocks with padding between them. */
  function Frame(blocks: seq<Text>, gaps: seq<Text>): Text
    requires |gaps| == |blocks|
  {
    if blocks == [] then []
    else if |blocks| == 1 then blocks[0]
    else Frame(blocks[..|blocks| - 1], gaps[..|gaps| - 1]) + (gaps[|gaps| - 1] + blocks[|blocks| - 1])
  }

  /** Each block decoded by itself, up to the first that stops. */
  function EachAlone(pg: Paging, blocks: seq<Text>): Walk {
    if blocks == [] then Walk([], [], Finished)
    else Then(EachAlone(pg, blocks[..|blocks| - 1]), WalkText(pg, blocks[|blocks| - 1]))
  }

  predicate Follows(pg: Paging, before: Text, gap: Text, block: Text) {
    StartsWithMarker(pg, block) && Padding(gap) && NoTrailingPadding(before) && Apart(before, gap)
  }

  /** What stands before the first marker is a block too, and only the last block may
      end with padding. */
  predicate Blocks(pg: Paging, blocks: seq<Text>, gaps: seq<Text>) {
    && |gaps| == |blocks|
    && forall i :: 0 < i < |gaps| ==> Follows(pg, blocks[i - 1], gaps[i], blocks[i])
  }

  /** `_walk_paged` is a homomorphism over marker-delimited blocks: a frame's updates
      are those of its blocks decoded alone, so a short or unknown block never
      disturbs its neighbours. */
  lemma {:induction false} FrameIsItsBlocks(pg: Paging, blocks: seq<Text>, gaps: seq<Text>)
    requires Blocks(pg, blocks, gaps)
    ensures WalkText(pg, Frame(blocks, gaps)) == EachAlone(pg, blocks)
  {
    hide WalkText, Then, StartsWithMarker, Apart, Padding, NoTrailingPadding, Frame;
    var n := |blocks|;
    FrameUnfolds(blocks, gaps);
    if n == 0 {
      WalkUnfolds(pg, []);
    } else {
      var before, block := blocks[..n - 1], blocks[n - 1];
      FrameIsItsBlocks(pg, before, gaps[..n - 1]);
      if n == 1 {
        ThenNothing(WalkText(pg, block));
      } else {
        assert before[n - 2] == blocks[n - 2];
        assert Follows(pg, blocks[n - 2], gaps[n - 1], block);
        FrameEnds(pg, before, gaps[..n - 1]);
        var x, y := Frame(before, gaps[..n - 1]), Frame(blocks, gaps);
        SameEnd(x, before[n - 2], y, gaps[n - 1], block);
        WalkOfExtended(pg, x, y, gaps[n - 1], block);
      }
    }
  }

  lemma FrameUnfolds(blocks: seq<Text>, gaps: seq<Text>)
    requires |gaps| == |blocks|
    ensures blocks == [] ==> Frame(blocks, gaps) == []
    ensures |blocks| == 1 ==> Frame(blocks, gaps) == blocks[0]
    ensures |blocks| > 1 ==>
              Frame(blocks, gaps) ==
              Frame(blocks[..|blocks| - 1], gaps[..|gaps| - 1]) + (gaps[|gaps| - 1] + blocks[|blocks| - 1])
  {
  }

  /** A frame ends as its last block does. */
  lemma FrameEnds(pg: Paging, blocks: seq<Text>, gaps: seq<Text>)
    requires Blocks(pg, blocks, gaps) && blocks != []
    ensures var last := blocks[|blocks| - 1];
            if last == [] then Frame(blocks, gaps) == []
            else Frame(blocks, gaps) != [] && Frame(blocks, gaps)[|Frame(blocks, gaps)| - 1] == last[|last| - 1]
  {
    hide Contains, FirstWord, Padding, Apart, NoTrailingPadding, Frame;
    FrameUnfolds(blocks, gaps);
    var n := |blocks|;
    assert n > 1 ==> Follows(pg, blocks[n - 2], gaps[n - 1], blocks[n - 1]);
  }

  lemma SameEnd(x: Text, last: Text, y: Text, gap: Text, block: Text)
    requires NoTrailingPadding(last) && Apart(last, gap) && y == x + (gap + block)
    requires if last == [] then x == [] else x != [] && x[|x| - 1] == last[|last| - 1]
    ensures Extends(x, y, gap, block)
  {
  }

  // ---- Every marker once, in order -------------------------------------------

  function Markers(pg: Paging, words: seq<Text>): seq<Text> {
    if words == [] then []
    else (if Contains(words[0], pg.separator) then [words[0]] else []) + Markers(pg, words[1..])
  }

  lemma MarkersUnfold(pg: Paging, t: Text)
    ensures Skip(t) == [] ==> Markers(pg, Split(t)) == []
    ensures Skip(t) != [] ==>
              Markers(pg, Split(t)) ==
              (if Contains(FirstWord(t), pg.separator) then [FirstWord(t)] else []) + Markers(pg, Split(t[End(t)..]))
  {
    hide Contains, FirstWord, End;
    if Skip(t) != [] {
      assert Split(t)[1..] == Split(t[End(t)..]);
    }
  }

  /** A bounded read passes no marker. */
  lemma {:induction false} ReadKeepsMarkers(pg: Paging, t: Text)
    ensures Markers(pg, Split(BoundedRead(t, pg.separator).1)) == Markers(pg, Split(t))
  {
    hide Contains, FirstWord, End, Split, Markers, TrimLeft, TrimRight;
    var at := MarkerAt(t, pg.separator);
    if at.Some? {
      var payload := TrimLeft(t[..at.value]);
      var from := at.value - (|payload| - |TrimRight(payload)|);
      TrailingIsBlank(t[..at.value]);
      assert t[..at.value][from..] == t[from..at.value];
      SplitDropBlank(t, from, at.value);
      MarkersBefore(pg, t);
    } else {
      NoMarkers(pg, t);
      MarkersUnfold(pg, []);
      assert Skip([]) == [];
    }
  }

  lemma TrailingIsBlank(t: Text)
    ensures var payload := TrimLeft(t);
            Blank(t[|t| - (|payload| - |TrimRight(payload)|)..])
  {
    TrimLeftIsSuffix(t);
    TrimRightIsPrefix(TrimLeft(t));
    var payload := TrimLeft(t);
    assert payload[|TrimRight(payload)|..] == t[|t| - (|payload| - |TrimRight(payload)|)..];
  }

  lemma SplitDropBlank(t: Text, from: nat, to: nat)
    requires from <= to <= |t| && Blank(t[from..to])
    ensures Split(t[from..]) == Split(t[to..])
  {
    DropBlank(t[from..to], t[to..], t[from..]);
  }

  lemma {:induction false} NoMarkers(pg: Paging, t: Text)
    requires MarkerAt(t, pg.separator).None?
    ensures Markers(pg, Split(t)) == []
    decreases |t|
  {
    hide Contains, FirstWord, End, Split, Markers, MarkerAt;
    MarkerUnfolds(t, pg.separator);
    MarkersUnfold(pg, t);
    EndMoves(t);
    if Skip(t) != [] {
      NoMarkers(pg, t[End(t)..]);
    }
  }

  lemma {:induction false} MarkersBefore(pg: Paging, t: Text)
    requires MarkerAt(t, pg.separator).Some?
    ensures Markers(pg, Split(t)) == Markers(pg, Split(t[MarkerAt(t, pg.separator).value..]))
    decreases |t|
  {
    hide Contains, FirstWord, End, Split, Markers, MarkerAt;
    MarkerUnfolds(t, pg.separator);
    MarkersUnfold(pg, t);
    EndMoves(t);
    var p := MarkerAt(t, pg.separator).value;
    if !Contains(FirstWord(t), pg.separator) {
      var rest := t[End(t)..];
      MarkersBefore(pg, rest);
      assert rest[MarkerAt(rest, pg.separator).value..] == t[p..];
    } else {
      StartIsBlank(t);
      SplitDropBlank(t, 0, Start(t));
      assert t[0..] == t;
    }
  }

  lemma StartIsBlank(t: Text)
    ensures Blank(t[0..Start(t)])
  {
    BlankStart(t);
    assert t[0..Start(t)] == t[..Start(t)];
  }

  lemma {:induction false} OpsKeepMarkers(pg: Paging, ops: seq<Op>, t: Text, got: seq<Item>)
    ensures Markers(pg, Split(ReadOps(pg, ops, t, got).left)) == Markers(pg, Split(t))
    decreases ops
  {
    hide Contains, FirstWord, End, Split, Markers, BoundedRead, Start;
    if ops != [] && !(ops[0].ReadWord? && AtEnd(pg, t)) {
      if ops[0].ReadBytes? {
        ReadKeepsMarkers(pg, t);
        OpsKeepMarkers(pg, ops[1..], BoundedRead(t, pg.separator).1, got + [Blob(ops[0].slot, BoundedRead(t, pg.separator).0)]);
      } else {
        MarkersUnfold(pg, t);
        OpsKeepMarkers(pg, ops[1..], t[End(t)..], got + [Word(ops[0].slot, FirstWord(t))]);
      }
    }
  }

  lemma {:induction false} RepeatKeepsMarkers(pg: Paging, name: string, emit: bool, ops: seq<Op>, count: int, t: Text)
    ensures Markers(pg, Split(WalkRepeat(pg, name, emit, ops, count, t).left)) == Markers(pg, Split(t))
    decreases |t|, if count < 0 then 0 else count
  {
    hide Split, Markers, ReadOps, AtEnd;
    if count != 0 && !AtEnd(pg, t) && (count < 0 ==> ops != []) {
      ReadOpsShrinks(pg, ops, t, []);
      OpsKeepMarkers(pg, ops, t, []);
      var got := ReadOps(pg, ops, t, []);
      if got.status.Done? {
        RepeatKeepsMarkers(pg, name, emit, ops, if count < 0 then count else count - 1, got.left);
      }
    }
  }

  lemma {:induction false} EntriesKeepMarkers(pg: Paging, entries: seq<Entry>, env: Env, t: Text)
    ensures Markers(pg, Split(WalkEntries(pg, entries, env, t).left)) == Markers(pg, Split(t))
    decreases entries
  {
    hide Split, Markers, ReadOps, WalkRepeat, BoundedRead;
    if entries != [] {
      var e := entries[0];
      var (first, env') := WalkEntry(pg, e, env, t);
      match e {
        case Ref(_, _, ops) => OpsKeepMarkers(pg, ops, t, []);
        case Sized(_, _, _) => ReadKeepsMarkers(pg, t);
        case Repeat(name, emit, count, ops) =>
          if count.Fixed? {
            RepeatKeepsMarkers(pg, name, emit, ops, count.n, t);
          } else if count.ToEnd? {
            RepeatKeepsMarkers(pg, name, emit, ops, -1, t);
          } else if count.ref in env && pg.number(env[count.ref]).Some? {
            RepeatKeepsMarkers(pg, name, emit, ops, pg.number(env[count.ref]).value, t);
          }
      }
      if first.status.Done? {
        EntriesKeepMarkers(pg, entries[1..], env', first.left);
      }
    }
  }

  /** Every marker of the frame is dispatched exactly once, in order; a walk that
      raises or hangs stops at the marker that caused it. */
  lemma {:induction false} EveryMarkerOnce(pg: Paging, t: Text)
    ensures WalkText(pg, t).dispatched <= Markers(pg, Split(t))
    ensures WalkText(pg, t).ending.Finished? ==> WalkText(pg, t).dispatched == Markers(pg, Split(t))
    decreases |t|
  {
    hide Contains, FirstWord, End, Split, Markers, WalkText, WalkEntries, Start;
    WalkUnfolds(pg, t);
    MarkersUnfold(pg, t);
    EndMoves(t);
    if Skip(t) != [] {
      var token, after := FirstWord(t), t[End(t)..];
      EveryMarkerOnce(pg, after);
      if pg.resolve(token).Child? {
        var entries := pg.resolve(token).container.entries;
        WalkEntriesShrinks(pg, entries, map[], after);
        EntriesKeepMarkers(pg, entries, map[], after);
        EveryMarkerOnce(pg, WalkEntries(pg, entries, map[], after).left);
      }
    }
  }

  // ---- Every text is a frame -------------------------------------------------

  /** Where the last marker starts. */
  function LastMarker(pg: Paging, t: Text): (p: Option<nat>)
    ensures p.Some? ==> p.value <= |t|
    decreases |t|
  {
    if Skip(t) == [] then None
    else
      EndMoves(t);
      match LastMarker(pg, t[End(t)..])
      case Some(p) => Some(End(t) + p)
      case None => if Contains(FirstWord(t), pg.separator) then Some(Start(t)) else None
  }

  lemma {:induction false} NoLastMarker(pg: Paging, t: Text)
    requires LastMarker(pg, t).None?
    ensures Markers(pg, Split(t)) == []
    decreases |t|
  {
    hide Contains, FirstWord, End, Split, Markers, Start;
    MarkersUnfold(pg, t);
    EndMoves(t);
    if Skip(t) != [] {
      NoLastMarker(pg, t[End(t)..]);
    }
  }

  /** A marker starts there, after whitespace, and it is the only one from there on. */
  lemma {:induction false} LastMarkerStarts(pg: Paging, t: Text, p: nat)
    requires LastMarker(pg, t) == Some(p)
    ensures p <= |t| && StartsWithMarker(pg, t[p..]) && (p == 0 || Space(t[p - 1]))
    ensures Markers(pg, Split(t[p..])) == [FirstWord(t[p..])]
    decreases |t|
  {
    hide Contains, FirstWord, End, Split, Markers, Start, LastMarker;
    LastMarkerUnfolds(pg, t);
    EndMoves(t);
    var gap, word, rest := Shape(t);
    SplitWord(t);
    if LastMarker(pg, t[End(t)..]).Some? {
      var q := LastMarker(pg, rest).value;
      LastMarkerStarts(pg, rest, q);
      assert rest[q..] == t[p..];
      assert q > 0 ==> rest[q - 1] == t[p - 1];
    } else {
      NoLastMarker(pg, rest);
      OnlyMarker(pg, t, p, gap);
    }
  }

  lemma OnlyMarker(pg: Paging, t: Text, p: nat, gap: Text)
    requires Skip(t) != [] && Contains(FirstWord(t), pg.separator) && p == Start(t) && gap == t[..p] && Blank(gap)
    requires Markers(pg, Split(t[End(t)..])) == []
    ensures StartsWithMarker(pg, t[p..]) && (p == 0 || Space(t[p - 1]))
    ensures Markers(pg, Split(t[p..])) == [FirstWord(t[p..])]
  {
    hide Contains, FirstWord, End, Split, Markers, Start, LastMarker;
    var skipped := t[p..];
    assert t == gap + skipped;
    SplitSkipsBlank(gap, skipped);
    SplitWord(t);
    SplitWord(skipped);
    MarkersUnfold(pg, t);
    assert p > 0 ==> t[p - 1] == gap[p - 1];
  }

  lemma LastMarkerUnfolds(pg: Paging, t: Text)
    ensures Skip(t) == [] ==> LastMarker(pg, t).None?
    ensures Skip(t) != [] ==>
              var behind := LastMarker(pg, t[End(t)..]);
              LastMarker(pg, t) ==
              if behind.Some? then Some(End(t) + behind.value)
              else if Contains(FirstWord(t), pg.separator) then Some(Start(t)) else None
  {
    hide Contains, FirstWord, Start, Skip, End;
  }

  lemma {:induction false} TrimRightTakesPadding(t: Text)
    ensures |TrimRight(t)| <= |t| && TrimRight(t) == t[..|TrimRight(t)|]
    ensures NoTrailingPadding(TrimRight(t)) && Padding(t[|TrimRight(t)|..])
  {
    if t != [] && Trimmed(t[|t| - 1]) {
      var front := t[..|t| - 1];
      TrimRightTakesPadding(front);
      assert t[|TrimRight(t)|..] == front[|TrimRight(front)|..] + [t[|t| - 1]];
    }
  }

  lemma OneMoreBlock(pg: Paging, blocks: seq<Text>, gaps: seq<Text>, x: Text, gap: Text, block: Text)
    requires Blocks(pg, blocks, gaps) && blocks != [] && x == Frame(blocks, gaps)
    requires Follows(pg, x, gap, block)
    ensures Blocks(pg, blocks + [block], gaps + [gap])
    ensures Frame(blocks + [block], gaps + [gap]) == x + (gap + block)
  {
    hide Frame, StartsWithMarker, Padding;
    var n := |blocks|;
    var more, between := blocks + [block], gaps + [gap];
    FrameEnds(pg, blocks, gaps);
    FrameUnfolds(more, between);
    assert more[..n] == blocks && between[..n] == gaps;
    forall i | 0 < i < |between| ensures Follows(pg, more[i - 1], between[i], more[i]) {
      if i < n {
        assert Follows(pg, blocks[i - 1], gaps[i], blocks[i]);
      }
    }
  }

  /** Every text is a frame whose blocks hold one marker each, after a part without
      any, and its walk is that of the blocks decoded alone. */
  lemma {:induction false} EveryTextIsItsBlocks(pg: Paging, t: Text) returns (blocks: seq<Text>, gaps: seq<Text>)
    ensures blocks != [] && Blocks(pg, blocks, gaps) && t == Frame(blocks, gaps)
    ensures Markers(pg, Split(blocks[0])) == []
    ensures forall i :: 0 < i < |blocks| ==> Markers(pg, Split(blocks[i])) == [FirstWord(blocks[i])]
    ensures WalkText(pg, t) == EachAlone(pg, blocks)
    decreases |t|
  {
    hide Split, Markers, FirstWord, Contains, Frame, WalkText, EachAlone, LastMarker, TrimRight;
    var last := LastMarker(pg, t);
    if last.None? {
      blocks, gaps := [t], [[]];
      NoLastMarker(pg, t);
    } else {
      var p := last.value;
      LastMarkerStarts(pg, t, p);
      TrimRightTakesPadding(t[..p]);
      var x := TrimRight(t[..p]);
      var gap, block := t[..p][|x|..], t[p..];
      var before, between := EveryTextIsItsBlocks(pg, x);
      blocks, gaps := before + [block], between + [gap];
      assert t == x + (gap + block);
      assert gap == [] ==> x == t[..p];
      OneMoreBlock(pg, before, between, x, gap, block);
    }
    FrameUnfolds(blocks, gaps);
    FrameIsItsBlocks(pg, blocks, gaps);
  }
}

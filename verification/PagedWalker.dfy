/** The walker of `mav_gss_lib/platform/spec/runtime.py` on its cursors, against the
    functions of `PagedWalks`: on a buffer of ASCII tokens, cursor and function read
    the same and stop at the same place. */
module PagedWalkers {
  import opened Options
  import opened Bitwise
  import opened Texts
  import opened TokenCursors
  import opened PagedWalks

  /** A token other than a marker is next. */
  ghost predicate WordNext(c: MarkerCursor)
    reads c.inner
  {
    c.inner.idx < |c.inner.tokens| && !Contains(c.inner.tokens[c.inner.idx], c.separator)
  }

  method ReadItems(pg: Paging, ops: seq<Op>, c: MarkerCursor) returns (items: seq<Item>, status: Status)
    requires c.inner.Valid() && c.separator == pg.separator
    modifies c.inner
    ensures c.inner.Valid() && c.inner.idx >= old(c.inner.idx)
    ensures status.Done? && ops != [] && old(WordNext(c)) ==> c.inner.idx > old(c.inner.idx)
    ensures old(c.inner.InStepAscii()) ==>
              c.inner.InStepAscii() && Read(items, c.inner.Left(), status) == ReadOps(pg, ops, old(c.inner.Left()), [])
  {
    hide Contains, FirstWord, End, Split, BoundedRead, Ascii, ReadOps;
    items := [];
    ghost var good, start := c.inner.InStepAscii(), c.inner.Left();
    for i := 0 to |ops|
      invariant c.inner.Valid() && c.inner.idx >= old(c.inner.idx)
      invariant i > 0 && old(WordNext(c)) ==> c.inner.idx > old(c.inner.idx)
      invariant good ==> c.inner.InStepAscii() && ReadOps(pg, ops, start, []) == ReadOps(pg, ops[i..], c.inner.Left(), items)
    {
      ghost var t := c.inner.Left();
      OpsUnfold(pg, ops[i..], t, items);
      assert ops[i..][1..] == ops[i + 1..];
      var item: Item;
      if ops[i].ReadWord? {
        SplitWord(t);
        var token := c.ReadToken();
        if token.None? {
          status := Short;
          return;
        }
        item := Word(ops[i].slot, token.value);
      } else {
        var blob := c.ReadRemainingBytes();
        item := Blob(ops[i].slot, blob);
      }
      items := items + [item];
      if !pg.valid(items) {
        status := Failed;
        return;
      }
    }
    assert ops[|ops|..] == [];
    OpsUnfold(pg, [], c.inner.Left(), items);
    status := Done;
  }

  lemma OpsUnfold(pg: Paging, ops: seq<Op>, t: Text, got: seq<Item>)
    ensures ops == [] ==> ReadOps(pg, ops, t, got) == Read(got, t, Done)
    ensures ops != [] && ops[0].ReadWord? && AtEnd(pg, t) ==> ReadOps(pg, ops, t, got) == Read(got, t, Short)
    ensures ops != [] && ops[0].ReadWord? && !AtEnd(pg, t) ==>
              var items := got + [Word(ops[0].slot, FirstWord(t))];
              ReadOps(pg, ops, t, got) ==
              if pg.valid(items) then ReadOps(pg, ops[1..], t[End(t)..], items) else Read(items, t[End(t)..], Failed)
    ensures ops != [] && ops[0].ReadBytes? ==>
              var items, left := got + [Blob(ops[0].slot, BoundedRead(t, pg.separator).0)], BoundedRead(t, pg.separator).1;
              ReadOps(pg, ops, t, got) ==
              if pg.valid(items) then ReadOps(pg, ops[1..], left, items) else Read(items, left, Failed)
  {
  }

  /** `_walk_repeat`. Where the loop of the source would go round forever, the method
      says so instead. */
  method RepeatItems(pg: Paging, name: string, emit: bool, ops: seq<Op>, count: int, c: MarkerCursor)
    returns (updates: seq<Update>, status: Status)
    requires c.inner.Valid() && c.separator == pg.separator
    modifies c.inner
    ensures c.inner.Valid() && c.inner.idx >= old(c.inner.idx)
    ensures old(c.inner.InStepAscii()) ==>
              && c.inner.InStepAscii()
              && Part(updates, c.inner.Left(), status) == WalkRepeat(pg, name, emit, ops, count, old(c.inner.Left()))
  {
    hide WalkRepeat, ReadOps, Split, Contains, FirstWord, Skip;
    updates := [];
    var i := 0;
    ghost var good, start := c.inner.InStepAscii(), c.inner.Left();
    AppendNothing(WalkRepeat(pg, name, emit, ops, count, start));
    while true
      invariant c.inner.Valid() && c.inner.idx >= old(c.inner.idx)
      invariant 0 <= i && (count >= 0 ==> i <= count)
      invariant good ==> c.inner.InStepAscii()
      invariant good ==> WalkRepeat(pg, name, emit, ops, count, start)
                         == Append(updates, WalkRepeat(pg, name, emit, ops, if count < 0 then count else count - i, c.inner.Left()))
      decreases |c.inner.tokens| - c.inner.idx, if count < 0 then 0 else count - i
    {
      ghost var t := c.inner.Left();
      ghost var left := if count < 0 then count else count - i;
      RepeatUnfolds(pg, name, emit, ops, left, t);
      if count >= 0 && i >= count {
        return updates, Done;
      }
      var remaining := c.RemainingTokens();
      assert c.inner.InStepAscii() ==> (remaining == 0 <==> AtEnd(pg, t)) by {
        SplitWord(t);
      }
      if remaining == 0 {
        return updates, Done;
      }
      if count < 0 && ops == [] {
        return updates, Endless;
      }
      var items, got := ReadItems(pg, ops, c);
      if !got.Done? {
        return updates, got;
      }
      var update := if emit then [Update(name, Items(items))] else [];
      AppendTwice(updates, update, WalkRepeat(pg, name, emit, ops, if count < 0 then count else left - 1, c.inner.Left()));
      updates := updates + update;
      i := i + 1;
    }
  }

  lemma RepeatUnfolds(pg: Paging, name: string, emit: bool, ops: seq<Op>, count: int, t: Text)
    ensures count == 0 || AtEnd(pg, t) ==> WalkRepeat(pg, name, emit, ops, count, t) == Part([], t, Done)
    ensures count < 0 && ops == [] && !AtEnd(pg, t) ==> WalkRepeat(pg, name, emit, ops, count, t) == Part([], t, Endless)
    ensures !(count == 0 || AtEnd(pg, t)) && (count < 0 ==> ops != []) ==>
              var got := ReadOps(pg, ops, t, []);
              WalkRepeat(pg, name, emit, ops, count, t) ==
              if !got.status.Done? then Part([], got.left, got.status)
              else Append(if emit then [Update(name, Items(got.items))] else [],
                          WalkRepeat(pg, name, emit, ops, if count < 0 then count else count - 1, got.left))
  {
    hide ReadOps, AtEnd;
  }

  method WalkEntryAt(pg: Paging, e: Entry, env: Env, c: MarkerCursor)
    returns (updates: seq<Update>, status: Status, env': Env)
    requires c.inner.Valid() && c.separator == pg.separator
    modifies c.inner
    ensures c.inner.Valid() && c.inner.idx >= old(c.inner.idx)
    ensures old(c.inner.InStepAscii()) ==>
              && c.inner.InStepAscii()
              && (Part(updates, c.inner.Left(), status), env') == WalkEntry(pg, e, env, old(c.inner.Left()))
  {
    hide WalkRepeat, ReadOps, BoundedRead, Split, Contains, FirstWord;
    updates, env' := [], env;
    match e
    case Ref(name, emit, ops) =>
      var items, got := ReadItems(pg, ops, c);
      status := got;
      if got.Done? {
        updates := if emit then [Update(name, Items(items))] else [];
        env' := env[name := Items(items)];
      }
    case Sized(name, emit, sizeRef) =>
      var blob := c.ReadRemainingBytes();
      if sizeRef !in env || pg.number(env[sizeRef]).None? {
        status := Failed;
      } else {
        var v := Cut(blob, pg.number(env[sizeRef]).value);
        updates := if emit then [Update(name, v)] else [];
        env' := env[name := v];
        status := Done;
      }
    case Repeat(name, emit, count, ops) =>
      var n := -1;
      if count.Fixed? {
        n := count.n;
      } else if count.Dynamic? {
        if count.ref !in env || pg.number(env[count.ref]).None? {
          status := Failed;
          return;
        }
        n := pg.number(env[count.ref]).value;
      }
      updates, status := RepeatItems(pg, name, emit, ops, n, c);
  }

  method WalkContainer(pg: Paging, entries: seq<Entry>, c: MarkerCursor) returns (updates: seq<Update>, status: Status)
    requires c.inner.Valid() && c.separator == pg.separator
    modifies c.inner
    ensures c.inner.Valid() && c.inner.idx >= old(c.inner.idx)
    ensures old(c.inner.InStepAscii()) ==>
              && c.inner.InStepAscii()
              && Part(updates, c.inner.Left(), status) == WalkEntries(pg, entries, map[], old(c.inner.Left()))
  {
    hide WalkEntry, WalkEntries, Split;
    updates := [];
    var env: Env := map[];
    ghost var good, start := c.inner.InStepAscii(), c.inner.Left();
    AppendNothing(WalkEntries(pg, entries, map[], start));
    assert entries[0..] == entries;
    for i := 0 to |entries|
      invariant c.inner.Valid() && c.inner.idx >= old(c.inner.idx)
      invariant good ==> c.inner.InStepAscii()
      invariant good ==> WalkEntries(pg, entries, map[], start)
                         == Append(updates, WalkEntries(pg, entries[i..], env, c.inner.Left()))
    {
      EntriesUnfold(pg, entries[i..], env, c.inner.Left());
      assert entries[i..][1..] == entries[i + 1..];
      var more, got, env' := WalkEntryAt(pg, entries[i], env, c);
      AppendTwice(updates, more, WalkEntries(pg, entries[i + 1..], env', c.inner.Left()));
      updates := updates + more;
      env := env';
      if !got.Done? {
        return updates, got;
      }
    }
    assert entries[|entries|..] == [];
    EntriesUnfold(pg, [], env, c.inner.Left());
    assert updates + [] == updates;
    status := Done;
  }

  /** `_walk_paged` */
  method WalkPaged(pg: Paging, cursor: TokenCursor) returns (r: Walk)
    requires cursor.Valid()
    modifies cursor
    ensures cursor.Valid()
    ensures old(cursor.InStepAscii()) ==> r == WalkText(pg, old(cursor.Left()))
  {
    hide WalkText, WalkEntries, Contains, FirstWord, Split, Start, WordLength;
    var updates, dispatched: seq<Text> := [], [];
    ghost var good, start := cursor.InStepAscii(), cursor.Left();
    PrefixNothing(WalkText(pg, start));
    while true
      invariant cursor.Valid()
      invariant good ==> cursor.InStepAscii()
      invariant good ==> WalkText(pg, start) == Prefix(updates, dispatched, WalkText(pg, cursor.Left()))
      decreases |cursor.tokens| - cursor.idx
    {
      ghost var t := cursor.Left();
      WalkUnfolds(pg, t);
      SplitWord(t);
      var remaining := cursor.RemainingTokens();
      if remaining == 0 {
        assert updates + [] == updates && dispatched + [] == dispatched;
        return Walk(updates, dispatched, Finished);
      }
      var got := cursor.ReadToken();
      var token := got.value;
      if !Contains(token, pg.separator) {
        continue;
      }
      match pg.resolve(token) {
        case RaiseUnknown =>
          assert updates + [] == updates;
          return Walk(updates, dispatched + [token], Raised);
        case SkipUnknown =>
          PrefixTwice(updates, dispatched, [], [token], WalkText(pg, cursor.Left()));
          dispatched := dispatched + [token];
          assert updates + [] == updates;
        case EmitUnknown =>
          PrefixTwice(updates, dispatched, [UnknownRegister(token)], [token], WalkText(pg, cursor.Left()));
          updates, dispatched := updates + [UnknownRegister(token)], dispatched + [token];
        case Child(container) =>
          var bounded := new MarkerCursor(cursor, pg.separator);
          var more, status := WalkContainer(pg, container.entries, bounded);
          PrefixTwice(updates, dispatched, more, [token], WalkText(pg, cursor.Left()));
          updates, dispatched := updates + more, dispatched + [token];
          if !StopsAt(container, status).Finished? {
            return Walk(updates, dispatched, StopsAt(container, status));
          }
      }
    }
  }

  lemma PrefixNothing(w: Walk)
    ensures Prefix([], [], w) == w
  {
    assert [] + w.updates == w.updates && [] + w.dispatched == w.dispatched;
  }

  lemma PrefixTwice(us: seq<Update>, ds: seq<Text>, vs: seq<Update>, es: seq<Text>, w: Walk)
    ensures Prefix(us, ds, Prefix(vs, es, w)) == Prefix(us + vs, ds + es, w)
  {
    assert us + (vs + w.updates) == us + vs + w.updates;
    assert ds + (es + w.dispatched) == ds + es + w.dispatched;
  }
}

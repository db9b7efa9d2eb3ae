/** The live-value table: `ParameterCache` of `mav_gss_lib/platform/parameter_cache.py`.
    Values are taken as already JSON-safe. Methods are atomic, as their lock makes
    them; whether a write to disk succeeds is a parameter. */
module ParameterCaches {
  import opened Options

  type Name = string
  type Value = string

  datatype Update = Update(name: Name, value: Value, time: int, displayOnly: bool)

  datatype Stored = Stored(value: Value, time: int)

  datatype Change = Change(name: Name, value: Value, time: int, displayOnly: bool)

  type Table = map<Name, Stored>

  // ---- Last writer wins --------------------------------------------------------

  predicate Accepts(table: Table, u: Update) {
    !u.displayOnly && (u.name in table ==> u.time >= table[u.name].time)
  }

  function Store(table: Table, u: Update): Table {
    if Accepts(table, u) then table[u.name := Stored(u.value, u.time)] else table
  }

  function Announced(table: Table, u: Update): seq<Change> {
    if u.displayOnly || Accepts(table, u) then [Change(u.name, u.value, u.time, u.displayOnly)] else []
  }

  function StoreAll(table: Table, updates: seq<Update>): Table
    decreases updates
  {
    if updates == [] then table else StoreAll(Store(table, updates[0]), updates[1..])
  }

  function AnnouncedAll(table: Table, updates: seq<Update>): seq<Change>
    decreases updates
  {
    if updates == [] then []
    else Announced(table, updates[0]) + AnnouncedAll(Store(table, updates[0]), updates[1..])
  }

  lemma {:induction false} StoreConcat(table: Table, a: seq<Update>, b: seq<Update>)
    ensures StoreAll(table, a + b) == StoreAll(StoreAll(table, a), b)
    ensures AnnouncedAll(table, a + b) == AnnouncedAll(table, a) + AnnouncedAll(StoreAll(table, a), b)
    decreases a
  {
    hide Store, Announced;
    if a == [] {
      assert a + b == b;
    } else {
      StoreConcat(Store(table, a[0]), a[1..], b);
      assert (a + b)[1..] == a[1..] + b;
    }
  }

  lemma StoreOneMore(table: Table, updates: seq<Update>, u: Update)
    ensures StoreAll(table, updates + [u]) == Store(StoreAll(table, updates), u)
    ensures AnnouncedAll(table, updates + [u]) == AnnouncedAll(table, updates) + Announced(StoreAll(table, updates), u)
  {
    hide Store, Announced;
    StoreConcat(table, updates, [u]);
    assert [u][1..] == [];
    assert Announced(StoreAll(table, updates), u) + [] == Announced(StoreAll(table, updates), u);
  }

  /** What is returned for an update, after those before it: the update itself when it is
      display-only or no entry of its name is newer, nothing otherwise. */
  lemma ReturnedExactly(table: Table, updates: seq<Update>, i: nat)
    requires i < |updates|
    ensures var held := StoreAll(table, updates[..i]); var u := updates[i];
            AnnouncedAll(table, updates[..i + 1])
            == AnnouncedAll(table, updates[..i])
               + if u.displayOnly || u.name !in held || held[u.name].time <= u.time
                 then [Change(u.name, u.value, u.time, u.displayOnly)] else []
  {
    assert updates[..i + 1] == updates[..i] + [updates[i]];
    StoreOneMore(table, updates[..i], updates[i]);
    hide StoreAll, AnnouncedAll;
  }

  function Flatten(batches: seq<seq<Update>>): seq<Update> {
    if batches == [] then [] else batches[0] + Flatten(batches[1..])
  }

  function StoreBatches(table: Table, batches: seq<seq<Update>>): Table
    decreases batches
  {
    if batches == [] then table else StoreBatches(StoreAll(table, batches[0]), batches[1..])
  }

  /** How updates are batched plays no part. */
  lemma {:induction false} BatchingIsIrrelevant(table: Table, batches: seq<seq<Update>>)
    ensures StoreBatches(table, batches) == StoreAll(table, Flatten(batches))
    decreases batches
  {
    if batches != [] {
      StoreConcat(table, batches[0], Flatten(batches[1..]));
      BatchingIsIrrelevant(StoreAll(table, batches[0]), batches[1..]);
    }
  }

  // ---- What the table holds: an independent definition --------------------------

  /** Everything offered for a name, in order of arrival: what was there, then the
      updates that are not display-only. */
  function Offers(table: Table, updates: seq<Update>, name: Name): seq<Stored> {
    if updates == [] then (if name in table then [table[name]] else [])
    else
      var u := updates[|updates| - 1];
      Offers(table, updates[..|updates| - 1], name)
      + if u.name == name && !u.displayOnly then [Stored(u.value, u.time)] else []
  }

  /** The last of those with the greatest timestamp. */
  predicate Wins(offers: seq<Stored>, i: nat) {
    && i < |offers|
    && (forall j :: 0 <= j <= i ==> offers[j].time <= offers[i].time)
    && (forall j :: i < j < |offers| ==> offers[j].time < offers[i].time)
  }

  /** Where the winner is after one more offer. */
  lemma NextWinner(offers: seq<Stored>, i: nat, offer: Stored) returns (k: nat)
    requires offers != [] ==> Wins(offers, i)
    ensures Wins(offers + [offer], k)
    ensures offers == [] ==> k == 0
    ensures offers != [] ==> k == if offer.time >= offers[i].time then |offers| else i
  {
    k := if offers == [] || offer.time >= offers[i].time then |offers| else i;
    var next := offers + [offer];
    assert forall j :: 0 <= j < |offers| ==> next[j] == offers[j];
    assert next[|offers|] == offer;
  }

  /** For each name the table holds the last-arriving offer of greatest timestamp. */
  lemma {:induction false} HoldsTheWinner(table: Table, updates: seq<Update>, name: Name) returns (i: nat)
    ensures var offers := Offers(table, updates, name); var after := StoreAll(table, updates);
            && (name in after <==> offers != [])
            && (name in after ==> Wins(offers, i) && after[name] == offers[i])
  {
    if updates == [] {
      i := 0;
    } else {
      hide Wins, StoreAll;
      var before, u := updates[..|updates| - 1], updates[|updates| - 1];
      assert updates == before + [u];
      i := HoldsTheWinner(table, before, name);
      StoreOneMore(table, before, u);
      var offers := Offers(table, before, name);
      if u.name == name && !u.displayOnly {
        i := NextWinner(offers, i, Stored(u.value, u.time));
      } else {
        assert offers + [] == offers;
      }
    }
  }

  lemma OneWinner(offers: seq<Stored>, i: nat, k: nat)
    requires Wins(offers, i) && Wins(offers, k)
    ensures i == k
  {
    var a, b := offers[i].time, offers[k].time;
  }

  // ---- Batches that change nothing -------------------------------------------------

  /** The update of its name that a batch ends with: the last of greatest timestamp. */
  predicate Prevails(updates: seq<Update>, i: nat) {
    && i < |updates| && !updates[i].displayOnly
    && forall j :: 0 <= j < |updates| && updates[j].name == updates[i].name && !updates[j].displayOnly ==>
         updates[j].time <= updates[i].time && (j > i ==> updates[j].time < updates[i].time)
  }

  /** What prevails is out of date or there already. */
  predicate BringsNothing(table: Table, updates: seq<Update>) {
    forall i :: 0 <= i < |updates| && Prevails(updates, i) && Accepts(table, updates[i]) ==>
      updates[i].name in table && table[updates[i].name] == Stored(updates[i].value, updates[i].time)
  }

  lemma OnePrevails(updates: seq<Update>, i: nat, k: nat)
    requires Prevails(updates, i) && Prevails(updates, k) && updates[i].name == updates[k].name
    ensures i == k
  {
    var a, b := updates[i], updates[k];
  }

  lemma {:induction false} ByIndex(table: Table, updates: seq<Update>, name: Name) returns (i: int)
    ensures var after := StoreAll(table, updates);
            if i >= 0 then
              && Prevails(updates, i) && updates[i].name == name && Accepts(table, updates[i])
              && name in after && after[name] == Stored(updates[i].value, updates[i].time)
            else
              && (forall u :: u in updates && u.name == name ==> !Accepts(table, u))
              && (name in after <==> name in table) && (name in table ==> after[name] == table[name])
  {
    i := -1;
    if updates != [] {
      var n := |updates| - 1;
      var before, last := updates[..n], updates[n];
      assert updates == before + [last];
      i := ByIndex(table, before, name);
      StoreOneMore(table, before, last);
      hide StoreAll;
      if last.name == name && !last.displayOnly {
        PrevailsNext(table, before, last, i);
        if i >= 0 && last.time < before[i].time {
        } else if Accepts(table, last) {
          i := n;
        }
      } else if i >= 0 {
        assert updates[i] == before[i];
        assert forall j :: 0 <= j < n ==> updates[j] == before[j];
      }
    }
  }

  lemma PrevailsNext(table: Table, before: seq<Update>, last: Update, i: int)
    requires !last.displayOnly
    requires i >= 0 ==> Prevails(before, i) && before[i].name == last.name && Accepts(table, before[i])
    requires i < 0 ==> forall u :: u in before && u.name == last.name ==> !Accepts(table, u)
    ensures var updates := before + [last];
            if i >= 0 && last.time < before[i].time then Prevails(updates, i)
            else Accepts(table, last) ==> Prevails(updates, |before|)
  {
    var updates := before + [last];
    assert forall j :: 0 <= j < |before| ==> updates[j] == before[j];
    if i < 0 && Accepts(table, last) {
      forall j | 0 <= j < |before| && before[j].name == last.name && !before[j].displayOnly
        ensures before[j].time <= last.time
      {
        assert before[j] in before;
      }
    }
  }

  /** A batch leaves the table as it was exactly when it brings nothing. */
  lemma UnchangedExactly(table: Table, updates: seq<Update>)
    ensures StoreAll(table, updates) == table <==> BringsNothing(table, updates)
  {
    hide StoreAll, Accepts;
    var after := StoreAll(table, updates);
    if after == table {
      forall i | 0 <= i < |updates| && Prevails(updates, i) && Accepts(table, updates[i])
        ensures updates[i].name in table && table[updates[i].name] == Stored(updates[i].value, updates[i].time)
      {
        var k := ByIndex(table, updates, updates[i].name);
        assert updates[i] in updates;
        OnePrevails(updates, i, k);
      }
    }
    if BringsNothing(table, updates) {
      forall name
        ensures name in after <==> name in table
        ensures name in table ==> after[name] == table[name]
      {
        var k := ByIndex(table, updates, name);
      }
    }
  }

  // ---- Order of arrival ----------------------------------------------------------

  predicate Clash(u: Update, w: Update) {
    !u.displayOnly && !w.displayOnly && u.name == w.name && u.time == w.time
  }

  /** No two different updates of a name carry the same timestamp. */
  predicate DistinctTimes(updates: seq<Update>) {
    forall u, w :: u in updates && w in updates && Clash(u, w) ==> u == w
  }

  /** The update of a name that beats the table and every other, if there is one. */
  predicate Beats(table: Table, updates: seq<Update>, u: Update) {
    && u in updates && Accepts(table, u)
    && forall w :: w in updates && w.name == u.name && !w.displayOnly ==> w.time <= u.time
  }

  lemma {:induction false} ByElement(table: Table, updates: seq<Update>, name: Name)
    ensures var after := StoreAll(table, updates);
            || (exists u :: Beats(table, updates, u) && u.name == name && name in after
                            && after[name] == Stored(u.value, u.time))
            || ((forall u :: u in updates && u.name == name ==> !Accepts(table, u))
                && (name in after <==> name in table) && (name in table ==> after[name] == table[name]))
  {
    if updates != [] {
      var before, last := updates[..|updates| - 1], updates[|updates| - 1];
      assert updates == before + [last];
      ByElement(table, before, name);
      StoreOneMore(table, before, last);
      var held := StoreAll(table, before);
      if u :| Beats(table, before, u) && u.name == name && name in held && held[name] == Stored(u.value, u.time) {
        assert Beats(table, updates, if last.name == name && !last.displayOnly && last.time >= u.time then last else u);
      } else if last.name == name && Accepts(table, last) {
        assert Beats(table, updates, last);
      }
    }
  }

  /** The same updates in any order, each any number of times, leave the same table. */
  lemma OrderIsIrrelevant(table: Table, a: seq<Update>, b: seq<Update>)
    requires forall u :: u in a <==> u in b
    requires DistinctTimes(a)
    ensures StoreAll(table, a) == StoreAll(table, b)
  {
    forall name
      ensures name in StoreAll(table, a) <==> name in StoreAll(table, b)
      ensures name in StoreAll(table, a) ==> StoreAll(table, a)[name] == StoreAll(table, b)[name]
    {
      ByElement(table, a, name);
      ByElement(table, b, name);
    }
  }

  /** In particular, every permutation does. */
  lemma PermutationIsIrrelevant(table: Table, a: seq<Update>, b: seq<Update>)
    requires multiset(a) == multiset(b) && DistinctTimes(a)
    ensures StoreAll(table, a) == StoreAll(table, b)
  {
    forall u ensures u in a <==> u in b {
      assert u in a <==> u in multiset(a);
      assert u in b <==> u in multiset(b);
    }
    OrderIsIrrelevant(table, a, b);
  }

  /** Two updates of one name with the same timestamp and different values: order matters. */
  lemma TiesDependOnOrder(name: Name, time: int, x: Value, y: Value)
    requires x != y
    ensures var u, w := Update(name, x, time, false), Update(name, y, time, false);
            && StoreAll(map[], [u, w]) == map[name := Stored(y, time)]
            && StoreAll(map[], [w, u]) == map[name := Stored(x, time)]
  {
    var u, w := Update(name, x, time, false), Update(name, y, time, false);
    assert [u, w] == [u] + [w] && [w, u] == [w] + [u];
    StoreOneMore(map[], [u], w);
    StoreOneMore(map[], [w], u);
    StoreOneMore(map[], [], u);
    StoreOneMore(map[], [], w);
    assert [] + [u] == [u] && [] + [w] == [w];
  }

  // ---- Replaying announced changes -------------------------------------------------

  function AsUpdate(c: Change): Update {
    Update(c.name, c.value, c.time, c.displayOnly)
  }

  function AsUpdates(changes: seq<Change>): seq<Update> {
    if changes == [] then [] else [AsUpdate(changes[0])] + AsUpdates(changes[1..])
  }

  /** A client that overwrites with every change that is not display-only. */
  function Overwrite(view: Table, changes: seq<Change>): Table
    decreases changes
  {
    if changes == [] then view
    else
      var c := changes[0];
      Overwrite(if c.displayOnly then view else view[c.name := Stored(c.value, c.time)], changes[1..])
  }

  /** Replaying what an application announced gives the same table, whether the client
      overwrites or keeps the last writer itself. */
  lemma {:induction false} ReplayGivesTheSame(table: Table, updates: seq<Update>)
    ensures var changes := AnnouncedAll(table, updates);
            && Overwrite(table, changes) == StoreAll(table, updates)
            && StoreAll(table, AsUpdates(changes)) == StoreAll(table, updates)
    decreases updates
  {
    if updates != [] {
      var u := updates[0];
      var next := Store(table, u);
      var rest := AnnouncedAll(next, updates[1..]);
      ReplayGivesTheSame(next, updates[1..]);
      if u.displayOnly || Accepts(table, u) {
        var c := Change(u.name, u.value, u.time, u.displayOnly);
        assert ([c] + rest)[1..] == rest;
        assert AsUpdate(c) == u;
        assert ([u] + AsUpdates(rest))[1..] == AsUpdates(rest);
      } else {
        assert [] + rest == rest;
      }
    }
  }

  // ---- Clearing a group -----------------------------------------------------------

  predicate InGroup(name: Name, prefix: string) {
    prefix + "." <= name
  }

  function Group(table: Table, prefix: string): set<Name> {
    set name | name in table && InGroup(name, prefix)
  }

  function OutsideGroup(updates: seq<Update>, prefix: string): seq<Update> {
    if updates == [] then []
    else (if InGroup(updates[0].name, prefix) then [] else [updates[0]]) + OutsideGroup(updates[1..], prefix)
  }

  function Cleared(table: Table, prefix: string): Table {
    table - Group(table, prefix)
  }

  /** Exactly the names that start with the prefix and a dot go; the others keep their
      entries. */
  lemma ClearedExactly(table: Table, prefix: string, name: Name)
    ensures name in Cleared(table, prefix) <==>
            name in table && !(|name| > |prefix| && name[..|prefix|] == prefix && name[|prefix|] == '.')
    ensures name in Cleared(table, prefix) ==> Cleared(table, prefix)[name] == table[name]
  {
    var dotted := prefix + ".";
    if |name| > |prefix| {
      assert name[..|dotted|] == name[..|prefix|] + [name[|prefix|]];
      assert dotted <= name <==> name[..|dotted|] == dotted;
    }
  }

  /** Clearing a group leaves what would be there had its updates never arrived. */
  lemma {:induction false} ClearingForgets(table: Table, updates: seq<Update>, prefix: string)
    ensures Cleared(StoreAll(table, updates), prefix) == StoreAll(Cleared(table, prefix), OutsideGroup(updates, prefix))
    decreases updates
  {
    hide InGroup, Cleared;
    if updates != [] {
      var u := updates[0];
      var rest := OutsideGroup(updates[1..], prefix);
      ClearingForgets(Store(table, u), updates[1..], prefix);
      ClearedStore(table, u, prefix);
      assert ([u] + rest)[1..] == rest && [] + rest == rest;
    }
  }

  lemma ClearedStore(table: Table, u: Update, prefix: string)
    ensures Cleared(Store(table, u), prefix)
            == if InGroup(u.name, prefix) then Cleared(table, prefix) else Store(Cleared(table, prefix), u)
  {
    hide InGroup;
  }

  // ---- The file --------------------------------------------------------------------

  /** A table on disk may hold entries without a value or a timestamp: `None`. */
  datatype File = Absent | Malformed | Holding(entries: map<Name, Option<Stored>>)

  function Loaded(file: File): Table {
    if file.Holding? then map name | name in file.entries && file.entries[name].Some? :: file.entries[name].value
    else map[]
  }

  function Saved(table: Table): File {
    Holding(map name | name in table :: Some(table[name]))
  }

  lemma SavedIsLoaded(table: Table)
    ensures Loaded(Saved(table)) == table
  {
  }

  class ParameterCache {
    const immediate: bool
    var table: Table
    var dirty: bool
    var file: File
    /** Where the table started and what has arrived since. */
    ghost var base: Table
    ghost var arrived: seq<Update>

    constructor (file: File, immediate: bool)
      ensures Valid() && Synced() && this.immediate == immediate && this.file == file
      ensures table == base == Loaded(file) && arrived == []
    {
      this.immediate, this.file, dirty := immediate, file, false;
      table, base, arrived := Loaded(file), Loaded(file), [];
    }

    ghost predicate Valid()
      reads this
    {
      table == StoreAll(base, arrived) && (immediate ==> !dirty)
    }

    /** Not dirty means that a restart would find this table. */
    predicate Synced()
      reads this
    {
      !dirty ==> Loaded(file) == table
    }

    /** One batch. `None` is the exception of a failed write. `notified` is what the
        callback is given. */
    method Apply(updates: seq<Update>, writes: bool) returns (changes: Option<seq<Change>>, notified: seq<Update>)
      requires Valid()
      modifies this
      ensures Valid() && base == old(base) && arrived == old(arrived) + updates
      ensures table == StoreAll(old(table), updates)
      ensures changes.Some? ==> changes.value == AnnouncedAll(old(table), updates) && notified == updates
      ensures changes.None? ==> notified == []
      ensures var stored := exists c :: c in AnnouncedAll(old(table), updates) && !c.displayOnly;
              && (changes.None? <==> stored && immediate && !writes)
              && dirty == (old(dirty) || (stored && !immediate))
              && file == if stored && immediate && writes then Saved(table) else old(file)
      ensures old(Synced()) && (writes || !immediate) ==> Synced() && changes.Some?
      ensures old(Synced()) && !writes && immediate ==> (Synced() <==> BringsNothing(old(table), updates))
    {
      hide StoreAll, AnnouncedAll, BringsNothing, Saved;
      StoreConcat(base, arrived, updates);
      UnchangedExactly(table, updates);
      var stores, announced, i := false, [], 0;
      StoreNone(table);
      while i < |updates|
        invariant 0 <= i <= |updates|
        invariant table == StoreAll(old(table), updates[..i])
        invariant announced == AnnouncedAll(old(table), updates[..i])
        invariant !stores ==> table == old(table)
        invariant stores <==> exists c :: c in announced && !c.displayOnly
        modifies this`table
      {
        var u := updates[i];
        StoreOneMore(old(table), updates[..i], u);
        assert updates[..i + 1] == updates[..i] + [u];
        if u.displayOnly {
          announced := announced + [Change(u.name, u.value, u.time, true)];
        } else if u.name in table && u.time < table[u.name].time {
        } else {
          table := table[u.name := Stored(u.value, u.time)];
          announced := announced + [Change(u.name, u.value, u.time, false)];
          stores := true;
        }
        i := i + 1;
      }
      assert updates[..i] == updates;
      arrived := arrived + updates;
      if stores {
        if immediate {
          if !writes {
            return None, [];
          }
          Persist();
        } else {
          dirty := true;
        }
      }
      changes, notified := Some(announced), updates;
    }

    method Persist()
      modifies this`file
      ensures file == Saved(table) && Loaded(file) == table
    {
      SavedIsLoaded(table);
      file := Saved(table);
    }

    /** Returns how many entries went, or `None` for the exception of a failed write. */
    method ClearGroup(prefix: string, writes: bool) returns (count: Option<nat>)
      requires Valid()
      modifies this
      ensures Valid() && table == Cleared(old(table), prefix)
      ensures base == Cleared(old(base), prefix) && arrived == OutsideGroup(old(arrived), prefix)
      ensures count == if Group(old(table), prefix) != {} && !writes then None else Some(|Group(old(table), prefix)|)
      ensures Group(old(table), prefix) == {} ==> file == old(file) && dirty == old(dirty)
      ensures old(Synced()) && writes ==> Synced()
      ensures old(Synced()) && !old(dirty) && !writes ==> (Synced() <==> Group(old(table), prefix) == {})
      ensures old(Synced()) && old(dirty) && !writes && Group(old(table), prefix) != {}
              ==> (Synced() <==> Loaded(file) == Cleared(old(table), prefix))
    {
      hide StoreAll, InGroup, OutsideGroup, Saved;
      ClearingForgets(base, arrived, prefix);
      var keys := Group(table, prefix);
      var left := keys;
      while left != {}
        invariant left <= keys && table == old(table) - (keys - left)
        decreases |left|
        modifies this`table
      {
        var name :| name in left;
        left := left - {name};
        table := table - {name};
      }
      base, arrived := Cleared(base, prefix), OutsideGroup(arrived, prefix);
      if keys != {} {
        SmallerTable(old(table), keys);
        dirty := false;
        if !writes {
          return None;
        }
        Persist();
      }
      count := Some(|keys|);
    }

    /** False is the exception of a failed write. */
    method Flush(writes: bool) returns (ok: bool)
      requires Valid()
      modifies this`file, this`dirty
      ensures Valid() && ok == (writes || !old(dirty))
      ensures ok ==> !dirty
      ensures !ok ==> dirty && file == old(file)
      ensures old(Synced()) ==> Synced()
    {
      if !dirty {
        return true;
      }
      if !writes {
        return false;
      }
      Persist();
      dirty := false;
      ok := true;
    }

    /** The whole table, each name once. */
    method Replay() returns (changes: seq<Change>)
      ensures Overwrite(map[], changes) == table
      ensures |changes| == |table|
    {
      var left := table.Keys;
      changes := [];
      while left != {}
        invariant left <= table.Keys && |changes| == |table.Keys| - |left|
        invariant Overwrite(map[], changes) == table - left
        decreases |left|
      {
        var name :| name in left;
        var c := Change(name, table[name].value, table[name].time, false);
        OverwriteOneMore(map[], changes, c);
        assert table - (left - {name}) == (table - left)[name := table[name]];
        left := left - {name};
        changes := changes + [c];
      }
    }
  }

  lemma {:induction false} OverwriteOneMore(view: Table, changes: seq<Change>, c: Change)
    requires !c.displayOnly
    ensures Overwrite(view, changes + [c]) == Overwrite(view, changes)[c.name := Stored(c.value, c.time)]
    decreases changes
  {
    if changes == [] {
      assert changes + [c] == [c] && [c][1..] == [];
    } else {
      var d := changes[0];
      OverwriteOneMore(if d.displayOnly then view else view[d.name := Stored(d.value, d.time)], changes[1..], c);
      assert (changes + [c])[1..] == changes[1..] + [c];
    }
  }

  lemma StoreNone(table: Table)
    ensures StoreAll(table, []) == table && AnnouncedAll(table, []) == []
  {
  }

  lemma SmallerTable(table: Table, keys: set<Name>)
    requires keys != {} && keys <= table.Keys
    ensures table - keys != table
  {
    var name :| name in keys;
    assert name in table && name !in table - keys;
  }
}

/** Received-packet state: `PacketPipeline` of
    `mav_gss_lib/platform/rx/packet_pipeline.py`. Times are reals and parameters; the
    mission's verdict on a packet is a parameter. */
module PacketPipelines {
  import opened Options

  type Key = string

  datatype Arrival = Arrival(key: Key, time: real)

  const DUP_WINDOW := 1.0
  const RATE_WINDOW := 60.0
  const RATE_MAX := 3600

  // ---- What happened: definitions on the history of arrivals ------------------

  /** When the key last arrived. */
  function LastArrival(history: seq<Arrival>, key: Key): Option<real> {
    if history == [] then None
    else
      var last := history[|history| - 1];
      if last.key == key then Some(last.time) else LastArrival(history[..|history| - 1], key)
  }

  /** The distinct other keys that arrived since the key last did. */
  function Since(history: seq<Arrival>, key: Key): set<Key> {
    if history == [] || history[|history| - 1].key == key then {}
    else Since(history[..|history| - 1], key) + {history[|history| - 1].key}
  }

  predicate RealDuplicate(history: seq<Arrival>, key: Key, now: real) {
    LastArrival(history, key).Some? && now - LastArrival(history, key).value < DUP_WINDOW
  }

  predicate Ordered(history: seq<Arrival>) {
    forall i, j :: 0 <= i < j < |history| ==> history[i].time <= history[j].time
  }

  // ---- The table: an ordered dictionary ---------------------------------------

  function Keys(seen: seq<Arrival>): (keys: set<Key>)
    ensures forall key :: key in keys <==> exists i :: 0 <= i < |seen| && seen[i].key == key
  {
    set i | 0 <= i < |seen| :: seen[i].key
  }

  predicate Distinct(seen: seq<Arrival>) {
    forall i, j :: 0 <= i < j < |seen| ==> seen[i].key != seen[j].key
  }

  function Without(seen: seq<Arrival>, key: Key): seq<Arrival> {
    if seen == [] then []
    else (if seen[0].key == key then [] else [seen[0]]) + Without(seen[1..], key)
  }

  function Touch(seen: seq<Arrival>, a: Arrival): seq<Arrival> {
    Without(seen, a.key) + [a]
  }

  /** How many of the oldest entries an eviction drops. */
  function Batch(max: int): nat {
    if max / 5 >= 1 then max / 5 else 1
  }

  function Evict(seen: seq<Arrival>, max: int): seq<Arrival>
    requires |seen| > max ==> Batch(max) <= |seen|
  {
    if |seen| > max then seen[Batch(max)..] else seen
  }

  /** Every key of the history once, by last arrival. */
  function Recent(history: seq<Arrival>): seq<Arrival> {
    if history == [] then []
    else Touch(Recent(history[..|history| - 1]), history[|history| - 1])
  }

  predicate Suffix<T(==)>(a: seq<T>, b: seq<T>) {
    |a| <= |b| && a == b[|b| - |a|..]
  }

  /** The table is the newest part of `Recent`, all of it until something was evicted. */
  predicate Tracks(seen: seq<Arrival>, history: seq<Arrival>, max: int) {
    && Suffix(seen, Recent(history))
    && |seen| <= (if max >= 0 then max else 0)
    && (seen == Recent(history) || |seen| >= max + 1 - Batch(max))
  }

  predicate Reported(seen: seq<Arrival>, key: Key, now: real) {
    exists i :: 0 <= i < |seen| && seen[i].key == key && now - seen[i].time < DUP_WINDOW
  }

  // ---- Facts about the table ---------------------------------------------------

  lemma Joined<T>(a: seq<T>, b: seq<T>, c: seq<T>)
    ensures a + (b + c) == (a + b) + c
  {
  }

  lemma {:induction false} WithoutSplits(a: seq<Arrival>, b: seq<Arrival>, key: Key)
    ensures Without(a + b, key) == Without(a, key) + Without(b, key)
    decreases a
  {
    if a == [] {
      assert a + b == b;
    } else {
      WithoutSplits(a[1..], b, key);
      assert (a + b)[1..] == a[1..] + b;
      Joined(if a[0].key == key then [] else [a[0]], Without(a[1..], key), Without(b, key));
    }
  }

  lemma {:induction false} WithoutAbsent(seen: seq<Arrival>, key: Key)
    requires key !in Keys(seen)
    ensures Without(seen, key) == seen
  {
    if seen != [] {
      assert seen[0].key in Keys(seen);
      assert forall i :: 0 <= i < |seen[1..]| ==> seen[1..][i].key == seen[i + 1].key;
      WithoutAbsent(seen[1..], key);
      assert seen == [seen[0]] + seen[1..];
    }
  }

  lemma NotBeside(seen: seq<Arrival>, i: nat, key: Key)
    requires Distinct(seen) && i < |seen| && seen[i].key == key
    ensures key !in Keys(seen[..i]) && key !in Keys(seen[i + 1..])
  {
  }

  lemma WithoutHead(a: Arrival, rest: seq<Arrival>)
    requires a.key !in Keys(rest)
    ensures Without([a] + rest, a.key) == rest
  {
    hide Keys;
    WithoutAbsent(rest, a.key);
    assert ([a] + rest)[1..] == rest;
  }

  /** Removing a key of a table with distinct keys takes out its one entry. */
  lemma WithoutPresent(seen: seq<Arrival>, i: nat, key: Key)
    requires Distinct(seen) && i < |seen| && seen[i].key == key
    ensures Without(seen, key) == seen[..i] + seen[i + 1..]
  {
    var a, b := seen[..i], seen[i + 1..];
    assert seen == a + ([seen[i]] + b);
    NotBeside(seen, i, key);
    hide Keys, Distinct, Without;
    WithoutSplits(a, [seen[i]] + b, key);
    WithoutHead(seen[i], b);
    WithoutAbsent(a, key);
  }

  lemma TouchKeepsDistinct(seen: seq<Arrival>, a: Arrival)
    requires Distinct(seen)
    ensures Distinct(Touch(seen, a))
    ensures |Touch(seen, a)| == if a.key in Keys(seen) then |seen| else |seen| + 1
    ensures Keys(Touch(seen, a)) == Keys(seen) + {a.key}
  {
    if i: nat :| i < |seen| && seen[i].key == a.key {
      WithoutPresent(seen, i, a.key);
      var t := Touch(seen, a);
      assert t == seen[..i] + seen[i + 1..] + [a];
      TouchedKeys(seen, i, a, t);
    } else {
      WithoutAbsent(seen, a.key);
      var t := Touch(seen, a);
      assert t == seen + [a];
      forall key ensures key in Keys(t) <==> key in Keys(seen) + {a.key} {
        assert t[|seen|] == a;
        assert forall j :: 0 <= j < |seen| ==> t[j] == seen[j];
      }
    }
  }

  lemma TouchedKeys(seen: seq<Arrival>, i: nat, a: Arrival, t: seq<Arrival>)
    requires i < |seen| && seen[i].key == a.key
    requires t == seen[..i] + seen[i + 1..] + [a]
    ensures Keys(t) == Keys(seen)
  {
    forall j | 0 <= j < |seen| ensures seen[j].key in Keys(t) {
      assert j != i ==> t[if j < i then j else j - 1] == seen[j];
      assert t[|t| - 1] == a;
    }
    forall j | 0 <= j < |t| ensures t[j].key in Keys(seen) {
      assert t[j] == if j < i then seen[j] else if j < |seen| - 1 then seen[j + 1] else a;
    }
  }

  lemma {:induction false} RecentIsDistinct(history: seq<Arrival>)
    ensures Distinct(Recent(history))
  {
    if history != [] {
      RecentIsDistinct(history[..|history| - 1]);
      TouchKeepsDistinct(Recent(history[..|history| - 1]), history[|history| - 1]);
    }
  }

  /** Where a key stands in `Recent`: its entry carries its last arrival, and behind it
      stand exactly the keys that arrived since. */
  lemma {:induction false} RecentTells(history: seq<Arrival>, key: Key, i: nat)
    requires i < |Recent(history)| && Recent(history)[i].key == key
    ensures LastArrival(history, key) == Some(Recent(history)[i].time)
    ensures |Since(history, key)| == |Recent(history)| - 1 - i
    ensures Since(history, key) == Keys(Recent(history)[i + 1..])
  {
    var before, a := history[..|history| - 1], history[|history| - 1];
    var old_, new_ := Recent(before), Recent(history);
    RecentIsDistinct(before);
    RecentIsDistinct(history);
    assert new_ == Without(old_, a.key) + [a];
    if a.key == key {
      assert new_[|new_| - 1].key == key;
      assert i == |new_| - 1;
      assert new_[i + 1..] == [];
    } else {
      var j := OldPlace(old_, a, i, key);
      RecentTells(before, key, j);
      TouchBehind(old_, a, j, i);
    }
  }

  /** The entry a touched table holds at `i` was in the table before. */
  lemma OldPlace(seen: seq<Arrival>, a: Arrival, i: nat, key: Key) returns (j: nat)
    requires Distinct(seen) && key != a.key && i < |Touch(seen, a)| && Touch(seen, a)[i].key == key
    ensures j < |seen| && seen[j] == Touch(seen, a)[i]
  {
    if k: nat :| k < |seen| && seen[k].key == a.key {
      WithoutPresent(seen, k, a.key);
      j := if i < k then i else i + 1;
    } else {
      WithoutAbsent(seen, a.key);
      j := i;
    }
  }

  /** What stands behind another key after a touch: the touched key joins. */
  lemma TouchBehind(seen: seq<Arrival>, a: Arrival, j: nat, i: nat)
    requires Distinct(seen) && j < |seen| && seen[j].key != a.key
    requires i < |Touch(seen, a)| && Touch(seen, a)[i] == seen[j]
    ensures Keys(Touch(seen, a)[i + 1..]) == Keys(seen[j + 1..]) + {a.key}
    ensures |Touch(seen, a)| - 1 - i == |Keys(seen[j + 1..]) + {a.key}|
  {
    TouchKeepsDistinct(seen, a);
    var front, back := seen[..j + 1], seen[j + 1..];
    assert seen == front + back;
    assert Distinct(back);
    var f, b := Without(front, a.key), Touch(back, a);
    TouchParts(front, back, a);
    LastStays(front, a.key);
    TouchKeepsDistinct(back, a);
    hide *;
    SamePlaceOnce(Touch(seen, a), f, b, i);
    DistinctCount(b);
  }

  lemma SamePlaceOnce(t: seq<Arrival>, f: seq<Arrival>, b: seq<Arrival>, i: nat)
    requires Distinct(t) && t == f + b && f != [] && i < |t| && t[i] == f[|f| - 1]
    ensures i == |f| - 1 && t[i + 1..] == b
  {
    assert t[|f| - 1] == t[i];
  }

  lemma TouchParts(front: seq<Arrival>, back: seq<Arrival>, a: Arrival)
    ensures Touch(front + back, a) == Without(front, a.key) + Touch(back, a)
  {
    WithoutSplits(front, back, a.key);
  }

  lemma LastStays(seen: seq<Arrival>, key: Key)
    requires seen != [] && seen[|seen| - 1].key != key
    ensures var f := Without(seen, key); f != [] && f[|f| - 1] == seen[|seen| - 1]
  {
    var a, last := seen[..|seen| - 1], seen[|seen| - 1];
    assert seen == a + [last];
    WithoutSplits(a, [last], key);
    assert [last][1..] == [];
  }

  lemma {:induction false} DistinctCount(seen: seq<Arrival>)
    requires Distinct(seen)
    ensures |Keys(seen)| == |seen|
  {
    if seen == [] {
      assert Keys(seen) == {};
    } else {
      var n := |seen| - 1;
      var rest := seen[..n];
      DistinctCount(rest);
      assert Keys(seen) == Keys(rest) + {seen[n].key};
      assert seen[n].key !in Keys(rest);
    }
  }

  lemma {:induction false} EveryKeyIsRecent(history: seq<Arrival>, key: Key)
    requires LastArrival(history, key).Some?
    ensures exists i :: 0 <= i < |Recent(history)| && Recent(history)[i].key == key
  {
    var before, a := history[..|history| - 1], history[|history| - 1];
    RecentIsDistinct(before);
    TouchKeepsDistinct(Recent(before), a);
    if a.key != key {
      EveryKeyIsRecent(before, key);
    }
    assert key in Keys(Recent(history));
  }

  // ---- One arrival ---------------------------------------------------------------

  lemma SuffixTouch(seen: seq<Arrival>, recent: seq<Arrival>, a: Arrival)
    requires Distinct(recent) && Suffix(seen, recent)
    ensures Suffix(Touch(seen, a), Touch(recent, a))
    ensures 0 < |Touch(seen, a)| && |Touch(seen, a)| == if a.key in Keys(seen) then |seen| else |seen| + 1
  {
    var front := recent[..|recent| - |seen|];
    assert recent == front + seen;
    assert Distinct(seen);
    TouchKeepsDistinct(seen, a);
    WithoutSplits(front, seen, a.key);
    assert Touch(recent, a) == Without(front, a.key) + Touch(seen, a);
  }

  lemma RecentStep(history: seq<Arrival>, a: Arrival)
    ensures Recent(history + [a]) == Touch(Recent(history), a)
  {
    hide Touch;
    assert (history + [a])[..|history|] == history;
  }

  /** Eviction keeps the newest part, and enough of it. */
  lemma EvictKeeps(seen: seq<Arrival>, recent: seq<Arrival>, max: int)
    requires Suffix(seen, recent) && 0 < |seen| <= 1 + (if max >= 0 then max else 0)
    requires seen == recent || |seen| >= max + 1 - Batch(max)
    ensures |seen| > max ==> Batch(max) <= |seen|
    ensures var left := Evict(seen, max);
            && Suffix(left, recent) && |left| <= (if max >= 0 then max else 0)
            && (left == recent || |left| >= max + 1 - Batch(max))
  {
  }

  /** An arrival keeps the table on track. */
  lemma ArrivalKeeps(seen: seq<Arrival>, history: seq<Arrival>, max: int, a: Arrival)
    requires Tracks(seen, history, max)
    ensures |Touch(seen, a)| > max ==> Batch(max) <= |Touch(seen, a)|
    ensures Tracks(Evict(Touch(seen, a), max), history + [a], max)
  {
    hide Touch, Keys, Distinct, Recent, Suffix, Evict, Batch;
    RecentIsDistinct(history);
    RecentStep(history, a);
    SuffixTouch(seen, Recent(history), a);
    EvictKeeps(Touch(seen, a), Recent(history + [a]), max);
  }

  /** The fifth of the table that is evicted at once, rounded down, but at least one. */
  lemma BatchTells(max: int)
    ensures Batch(max) >= 1
    ensures max < 10 ==> Batch(max) == 1
    ensures max >= 5 ==> 5 * Batch(max) <= max < 5 * Batch(max) + 5
  {
  }

  /** What the table reports, against what happened. A report is always a real
      duplicate. A real duplicate whose key at most `max - Batch(max)` other keys
      followed is always reported; one that `max` or more followed never is. */
  lemma DuplicateVerdict(seen: seq<Arrival>, history: seq<Arrival>, max: int, key: Key, now: real)
    requires Tracks(seen, history, max)
    ensures Reported(seen, key, now) ==> RealDuplicate(history, key, now)
    ensures RealDuplicate(history, key, now) && !Reported(seen, key, now)
            ==> |Since(history, key)| >= max + 1 - Batch(max)
    ensures max >= 0 && |Since(history, key)| >= max ==> !Reported(seen, key, now)
  {
    var recent := Recent(history);
    var shift := |recent| - |seen|;
    forall i | 0 <= i < |seen| && seen[i].key == key
      ensures LastArrival(history, key) == Some(seen[i].time) && |Since(history, key)| < |seen|
    {
      assert recent[shift + i] == seen[i];
      RecentTells(history, key, shift + i);
    }
    forall j | shift <= j < |recent| ensures recent[j] == seen[j - shift] {
    }
    if RealDuplicate(history, key, now) && !Reported(seen, key, now) {
      EveryKeyIsRecent(history, key);
      var j :| 0 <= j < |recent| && recent[j].key == key;
      RecentTells(history, key, j);
      assert j < shift;
    }
  }

  lemma TrackedIsDistinct(seen: seq<Arrival>, history: seq<Arrival>, max: int)
    requires Tracks(seen, history, max)
    ensures Distinct(seen)
  {
    RecentIsDistinct(history);
  }

  lemma OneEntry(seen: seq<Arrival>, a: Arrival)
    requires Distinct(seen) && a in seen
    ensures forall now :: Reported(seen, a.key, now) <==> now - a.time < DUP_WINDOW
  {
    var i :| 0 <= i < |seen| && seen[i] == a;
  }

  lemma {:induction false} RecentHasHistory(history: seq<Arrival>, i: nat)
    requires i < |Recent(history)|
    ensures Recent(history)[i] in history
  {
    var before, a := history[..|history| - 1], history[|history| - 1];
    RecentIsDistinct(before);
    if Recent(history)[i].key == a.key {
      RecentTells(history, a.key, i);
      RecentIsDistinct(history);
      assert Recent(history)[|Recent(history)| - 1] == a;
    } else {
      var j := OldPlace(Recent(before), a, i, Recent(history)[i].key);
      RecentHasHistory(before, j);
    }
  }

  /** With nondecreasing times the table is ordered by last arrival, and by time. */
  lemma {:induction false} RecentIsOrdered(history: seq<Arrival>)
    requires Ordered(history)
    ensures Ordered(Recent(history))
  {
    if history != [] {
      var before, a := history[..|history| - 1], history[|history| - 1];
      var recent := Recent(before);
      RecentIsOrdered(before);
      RecentIsDistinct(before);
      forall i | 0 <= i < |recent| ensures recent[i].time <= a.time {
        RecentHasHistory(before, i);
      }
      hide *;
      TouchIsOrdered(recent, a);
      assert history == before + [a];
      RecentStep(before, a);
    }
  }

  lemma TouchIsOrdered(seen: seq<Arrival>, a: Arrival)
    requires Distinct(seen) && Ordered(seen)
    requires forall i :: 0 <= i < |seen| ==> seen[i].time <= a.time
    ensures Ordered(Touch(seen, a))
  {
    var t := Touch(seen, a);
    if k: nat :| k < |seen| && seen[k].key == a.key {
      WithoutPresent(seen, k, a.key);
      hide Without, Distinct;
      forall i | 0 <= i < |t| - 1 ensures t[i] == seen[if i < k then i else i + 1] {
      }
    } else {
      WithoutAbsent(seen, a.key);
      hide Without, Distinct;
      assert t == seen + [a];
    }
  }

  lemma TableIsOrdered(seen: seq<Arrival>, history: seq<Arrival>, max: int)
    requires Tracks(seen, history, max) && Ordered(history)
    ensures Ordered(seen)
  {
    RecentIsOrdered(history);
    hide Recent;
    SuffixIsOrdered(seen, Recent(history));
  }

  lemma SuffixIsOrdered(seen: seq<Arrival>, whole: seq<Arrival>)
    requires Ordered(whole) && |seen| <= |whole| && seen == whole[|whole| - |seen|..]
    ensures Ordered(seen)
  {
  }

  // ---- The rate window ----------------------------------------------------------

  predicate Sorted(times: seq<real>) {
    forall i, j :: 0 <= i < j < |times| ==> times[i] <= times[j]
  }

  /** The arrivals of the past minute. */
  function PastMinute(times: seq<real>, now: real): seq<real> {
    if times == [] then []
    else
      var last := times[|times| - 1];
      PastMinute(times[..|times| - 1], now) + if last > now - RATE_WINDOW then [last] else []
  }

  /** The newest at most `RATE_MAX`. */
  function Newest(times: seq<real>): seq<real> {
    if |times| <= RATE_MAX then times else times[|times| - RATE_MAX..]
  }

  /** `deque.append` with a maximum length. */
  function Append(times: seq<real>, now: real): seq<real> {
    Newest(times + [now])
  }

  function Prune(times: seq<real>, now: real): seq<real>
    decreases times
  {
    if times != [] && times[0] <= now - RATE_WINDOW then Prune(times[1..], now) else times
  }

  /** How many are a minute old or more. */
  function Old(times: seq<real>, now: real): (n: nat)
    ensures n <= |times|
    ensures forall i :: 0 <= i < n ==> times[i] <= now - RATE_WINDOW
    ensures n < |times| ==> times[n] > now - RATE_WINDOW
    decreases times
  {
    if times != [] && times[0] <= now - RATE_WINDOW then 1 + Old(times[1..], now) else 0
  }

  lemma {:induction false} PruneDropsOld(times: seq<real>, now: real)
    ensures Prune(times, now) == times[Old(times, now)..]
    decreases times
  {
    if times != [] && times[0] <= now - RATE_WINDOW {
      PruneDropsOld(times[1..], now);
    }
  }

  /** The first `n` are old, the others are not. */
  predicate SplitAt(times: seq<real>, now: real, n: nat) {
    && n <= |times|
    && (forall i :: 0 <= i < n ==> times[i] <= now - RATE_WINDOW)
    && (forall i :: n <= i < |times| ==> times[i] > now - RATE_WINDOW)
  }

  lemma {:induction false} PastMinuteIsSuffix(times: seq<real>, now: real, n: nat)
    requires SplitAt(times, now, n)
    ensures PastMinute(times, now) == times[n..]
  {
    if times != [] {
      var m := |times| - 1;
      var before := times[..m];
      if n == |times| {
        PastMinuteIsSuffix(before, now, m);
        assert before[m..] == [] == times[n..];
      } else {
        PastMinuteIsSuffix(before, now, n);
        assert times[n..] == before[n..] + [times[m]];
      }
    }
  }

  lemma {:induction false} PastMinuteKeeps(times: seq<real>, now: real)
    requires Sorted(times)
    ensures PastMinute(times, now) == times[Old(times, now)..]
  {
    OldSplits(times, now);
    PastMinuteIsSuffix(times, now, Old(times, now));
  }

  lemma OldSplits(times: seq<real>, now: real)
    requires Sorted(times)
    ensures SplitAt(times, now, Old(times, now))
  {
    hide Old;
    var n := Old(times, now);
    forall i | n <= i < |times| ensures times[i] > now - RATE_WINDOW {
      assert times[n] <= times[i];
    }
  }

  lemma SuffixSorted(all: seq<real>, kept: seq<real>)
    requires Sorted(all) && Suffix(kept, all)
    ensures Sorted(kept)
  {
    assert forall i :: 0 <= i < |kept| ==> kept[i] == all[|all| - |kept| + i];
  }

  lemma NewestParts(all: seq<real>, kept: seq<real>, n: nat, m: nat, now: real)
    requires Suffix(kept, all) && SplitAt(all, now, n) && SplitAt(kept, now, m)
    requires n >= |all| - |kept| || |kept| >= RATE_MAX
    ensures Newest(kept[m..]) == Newest(all[n..])
    ensures |kept| <= RATE_MAX ==> kept[m..] == Newest(all[n..])
  {
    hide Newest;
    if n >= |all| - |kept| {
      SamePlace(all, kept, n, m, now);
      ShortNewest(kept[m..]);
    } else {
      FullWindow(all, kept, n, m, now);
      SuffixNewest(all[n..], kept);
      ShortNewest(kept);
    }
  }

  lemma ShortNewest(times: seq<real>)
    ensures |times| <= RATE_MAX ==> Newest(times) == times
  {
  }

  lemma SuffixNewest(times: seq<real>, kept: seq<real>)
    requires Suffix(kept, times) && |kept| >= RATE_MAX
    ensures Newest(kept) == Newest(times)
  {
  }

  lemma SamePlace(all: seq<real>, kept: seq<real>, n: nat, m: nat, now: real)
    requires Suffix(kept, all) && SplitAt(all, now, n) && SplitAt(kept, now, m)
    requires n >= |all| - |kept|
    ensures kept[m..] == all[n..]
  {
    var shift := |all| - |kept|;
    assert forall i :: 0 <= i < |kept| ==> kept[i] == all[shift + i];
    assert m < |kept| ==> kept[m] == all[shift + m];
    assert n < |all| ==> kept[n - shift] == all[n];
    assert m == n - shift;
  }

  lemma FullWindow(all: seq<real>, kept: seq<real>, n: nat, m: nat, now: real)
    requires Suffix(kept, all) && SplitAt(all, now, n) && SplitAt(kept, now, m)
    requires n < |all| - |kept|
    ensures kept[m..] == kept && Suffix(kept, all[n..])
  {
    var shift := |all| - |kept|;
    assert kept != [] ==> kept[0] == all[shift];
    assert m == 0;
    assert all[n..][shift - n..] == all[shift..];
  }

  /** One more arrival, seen at `later`. */
  lemma RateStep(all: seq<real>, kept: seq<real>, now: real, counted: bool, later: real)
    requires Sorted(all) && kept == Newest(PastMinute(all, now)) && now <= later
    requires forall t :: t in all ==> t <= now
    ensures var all' := if counted then all + [later] else all;
            var kept' := if counted then Append(kept, later) else kept;
            Sorted(all') && Prune(kept', later) == Newest(PastMinute(all', later))
  {
    hide PastMinute, Prune, Old, Newest, Suffix, SplitAt;
    var all' := if counted then all + [later] else all;
    var kept' := if counted then Append(kept, later) else kept;
    assert forall i :: 0 <= i < |all| ==> all[i] in all;
    PastMinuteKeeps(all, now);
    OldGrows(all, all', now, later);
    AppendKept(all, kept, Old(all, now), counted, later);
    SuffixSorted(all', kept');
    PruneDropsOld(kept', later);
    PastMinuteKeeps(all', later);
    OldSplits(all', later);
    OldSplits(kept', later);
    NewestParts(all', kept', Old(all', later), Old(kept', later), later);
  }

  /** A full or complete window is still one after an append. */
  lemma AppendKept(all: seq<real>, kept: seq<real>, n: nat, counted: bool, later: real)
    requires n <= |all| && kept == Newest(all[n..])
    ensures var all' := if counted then all + [later] else all;
            var kept' := if counted then Append(kept, later) else kept;
            Suffix(kept', all') && |kept'| <= RATE_MAX && (|kept'| < RATE_MAX ==> |all'| - |kept'| == n)
  {
  }

  lemma PruneStep(times: seq<real>, now: real)
    ensures Prune(times, now) == if times != [] && times[0] <= now - RATE_WINDOW then Prune(times[1..], now) else times
  {
  }

  lemma RateFirst(now: real)
    ensures Newest(PastMinute([], now)) == []
  {
  }

  lemma OldGrows(all: seq<real>, all': seq<real>, now: real, later: real)
    requires Sorted(all) && Sorted(all') && all <= all' && now <= later
    ensures Old(all', later) >= Old(all, now)
  {
    assert forall i :: 0 <= i < |all| ==> all'[i] == all[i];
  }

  // ---- The object ----------------------------------------------------------------

  /** What the mission says of a packet. */
  datatype Flags = Flags(duplicateKey: Option<Key>, isUnknown: bool, isUplinkEcho: bool)

  datatype Envelope = Envelope(number: nat, isDuplicate: bool, isUnknown: bool, isUplinkEcho: bool)

  class PacketPipeline {
    const maxSeen: int
    var seen: seq<Arrival>
    var packetTimes: seq<real>
    var totalCount: nat
    var packetCount: nat
    var unknownCount: nat
    var uplinkEchoCount: nat
    var lastArrival: Option<real>
    /** Since the last reset: every keyed arrival, and the times of the counted ones
        (neither unknown nor echoes). */
    ghost var arrivals: seq<Arrival>
    ghost var counted: seq<real>
    /** Wall times never went back since the last reset. */
    ghost var steady: bool

    constructor (maxSeen: int)
      ensures Valid() && this.maxSeen == maxSeen && arrivals == [] && counted == [] && totalCount == 0 && steady
    {
      this.maxSeen := maxSeen;
      seen, packetTimes, lastArrival := [], [], None;
      totalCount, packetCount, unknownCount, uplinkEchoCount := 0, 0, 0, 0;
      arrivals, counted, steady := [], [], true;
    }

    /** The table follows the arrivals, the counters add up, and while wall time does
        not go back the rate window holds the newest at most 3600 counted arrivals of
        the past minute. */
    ghost predicate Valid()
      reads this
    {
      && Tracks(seen, arrivals, maxSeen)
      && totalCount == packetCount + unknownCount
      && uplinkEchoCount <= totalCount
      && (steady ==> Sorted(counted))
      && (lastArrival.None? ==> counted == [] && packetTimes == [])
      && (steady && lastArrival.Some? ==>
            && (forall t :: t in counted ==> t <= lastArrival.value)
            && packetTimes == Newest(PastMinute(counted, lastArrival.value)))
    }

    method ResetCounts()
      modifies this
      ensures Valid() && arrivals == [] && counted == [] && steady
      ensures totalCount == packetCount == unknownCount == uplinkEchoCount == 0
      ensures seen == [] && packetTimes == [] && lastArrival == None
    {
      totalCount, packetCount, unknownCount, uplinkEchoCount := 0, 0, 0, 0;
      seen, packetTimes, lastArrival := [], [], None;
      arrivals, counted, steady := [], [], true;
    }

    method Process(flags: Flags, now: real, mono: real) returns (envelope: Envelope)
      requires Valid()
      modifies this
      ensures Valid()
      ensures envelope == Envelope(old(totalCount) + 1, envelope.isDuplicate, flags.isUnknown, flags.isUplinkEcho)
      ensures totalCount == old(totalCount) + 1
      ensures unknownCount == old(unknownCount) + if flags.isUnknown then 1 else 0
      ensures packetCount == old(packetCount) + if flags.isUnknown then 0 else 1
      ensures uplinkEchoCount == old(uplinkEchoCount) + if flags.isUplinkEcho then 1 else 0
      ensures arrivals == if flags.duplicateKey.None? then old(arrivals)
                          else old(arrivals) + [Arrival(flags.duplicateKey.value, mono)]
      ensures counted == if flags.isUplinkEcho || flags.isUnknown then old(counted) else old(counted) + [now]
      ensures lastArrival == Some(now)
      ensures steady == (old(steady) && (old(lastArrival).None? || old(lastArrival).value <= now))
      ensures flags.duplicateKey.None? ==> !envelope.isDuplicate
      ensures flags.duplicateKey.Some? ==>
                var key := flags.duplicateKey.value;
                && (envelope.isDuplicate ==> RealDuplicate(old(arrivals), key, mono))
                && (RealDuplicate(old(arrivals), key, mono) && !envelope.isDuplicate
                    ==> |Since(old(arrivals), key)| >= maxSeen + 1 - Batch(maxSeen))
                && (maxSeen >= 0 && |Since(old(arrivals), key)| >= maxSeen ==> !envelope.isDuplicate)
    {
      hide Tracks, Reported, RealDuplicate, Newest, PastMinute, Since, Sorted, Prune;
      var isDuplicate := CheckDuplicate(flags.duplicateKey, mono);
      totalCount := totalCount + 1;
      if flags.isUnknown {
        unknownCount := unknownCount + 1;
      } else {
        packetCount := packetCount + 1;
      }
      if flags.isUplinkEcho {
        uplinkEchoCount := uplinkEchoCount + 1;
      }
      UpdateRate(now, flags.isUplinkEcho, flags.isUnknown);
      lastArrival := Some(now);
      envelope := Envelope(totalCount, isDuplicate, flags.isUnknown, flags.isUplinkEcho);
    }

    method CheckDuplicate(duplicateKey: Option<Key>, now: real) returns (isDuplicate: bool)
      requires Tracks(seen, arrivals, maxSeen)
      modifies this`seen, this`arrivals
      ensures Tracks(seen, arrivals, maxSeen)
      ensures arrivals == if duplicateKey.None? then old(arrivals) else old(arrivals) + [Arrival(duplicateKey.value, now)]
      ensures duplicateKey.None? ==> !isDuplicate && seen == old(seen)
      ensures duplicateKey.Some? ==>
                var key := duplicateKey.value;
                && (isDuplicate ==> RealDuplicate(old(arrivals), key, now))
                && (RealDuplicate(old(arrivals), key, now) && !isDuplicate
                    ==> |Since(old(arrivals), key)| >= maxSeen + 1 - Batch(maxSeen))
                && (maxSeen >= 0 && |Since(old(arrivals), key)| >= maxSeen ==> !isDuplicate)
    {
      hide Tracks, RealDuplicate, Since, Touch, Distinct, LastArrival;
      if duplicateKey.None? {
        return false;
      }
      var a := Arrival(duplicateKey.value, now);
      TrackedIsDistinct(seen, arrivals, maxSeen);
      var previous := Get(a.key);
      isDuplicate := previous.Some? && now - previous.value < DUP_WINDOW;
      DuplicateVerdict(seen, arrivals, maxSeen, a.key, now);
      ArrivalKeeps(seen, arrivals, maxSeen, a);
      seen := Touch(seen, a);
      if |seen| > maxSeen {
        var i := 0;
        ghost var full := seen;
        while i < Batch(maxSeen)
          invariant 0 <= i <= Batch(maxSeen) <= |full| && seen == full[i..]
          modifies this`seen
        {
          seen := seen[1..];
          i := i + 1;
        }
      }
      arrivals := arrivals + [a];
    }

    /** `seen_fps.get`. */
    method Get(key: Key) returns (time: Option<real>)
      requires Distinct(seen)
      ensures forall now :: Reported(seen, key, now) <==> time.Some? && now - time.value < DUP_WINDOW
    {
      var i := 0;
      while i < |seen|
        invariant 0 <= i <= |seen|
        invariant forall j :: 0 <= j < i ==> seen[j].key != key
      {
        if seen[i].key == key {
          OneEntry(seen, seen[i]);
          return Some(seen[i].time);
        }
        i := i + 1;
      }
      time := None;
    }

    method UpdateRate(now: real, isUplinkEcho: bool, isUnknown: bool)
      requires lastArrival.None? ==> counted == [] && packetTimes == []
      requires steady ==> Sorted(counted)
      requires steady && lastArrival.Some? ==>
                 && (forall t :: t in counted ==> t <= lastArrival.value)
                 && packetTimes == Newest(PastMinute(counted, lastArrival.value))
      modifies this`packetTimes, this`counted, this`steady
      ensures counted == if isUplinkEcho || isUnknown then old(counted) else old(counted) + [now]
      ensures steady == (old(steady) && (lastArrival.None? || lastArrival.value <= now))
      ensures steady ==> Sorted(counted) && (forall t :: t in counted ==> t <= now)
                         && packetTimes == Newest(PastMinute(counted, now))
    {
      hide Prune, PastMinute, Newest, Sorted, Append;
      RateFirst(now);
      ghost var all, kept := counted, packetTimes;
      if !isUplinkEcho && !isUnknown {
        packetTimes := Append(packetTimes, now);
        counted := counted + [now];
      }
      ghost var appended := packetTimes;
      while packetTimes != [] && packetTimes[0] <= now - RATE_WINDOW
        invariant Prune(packetTimes, now) == Prune(appended, now)
        modifies this`packetTimes
        decreases |packetTimes|
      {
        PruneStep(packetTimes, now);
        packetTimes := packetTimes[1..];
      }
      PruneStep(packetTimes, now);
      steady := steady && (lastArrival.None? || lastArrival.value <= now);
      if steady {
        RateStep(all, kept, if lastArrival.Some? then lastArrival.value else now, !isUplinkEcho && !isUnknown, now);
      }
    }
  }
}

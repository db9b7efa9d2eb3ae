/** Alarm state: `AlarmRegistry` and `CarrierStaleIndex` of
    `mav_gss_lib/platform/alarms/registry.py`, and the audit filter of
    `mav_gss_lib/platform/alarms/dispatch.py`. Methods are atomic, as their locks make
    them; the time of a call is a parameter. */
module Alarms {
  import opened Options

  datatype Severity = Watch | Warning | Critical

  datatype State = UnackedActive | AckedActive | UnackedCleared

  datatype Source = Platform | Container | Parameter

  type Context = map<string, string>

  /** No severity: the condition has cleared. */
  datatype Verdict = Verdict(
    id: string, source: Source, title: string, severity: Option<Severity>, detail: string,
    context: Context, persistence: int, latched: bool)

  /** What an observer sees of an alarm. */
  datatype Event = Event(
    id: string, source: Source, title: string, detail: string, severity: Severity, state: State,
    firstSeen: int, lastEval: int, lastTransition: int, context: Context)

  datatype Entry = Entry(event: Event, latched: bool)

  datatype Change = Change(
    event: Event, prevState: Option<State>, prevSeverity: Option<Severity>, removed: bool, operator: string)

  datatype Registry = Registry(entries: map<string, Entry>, pending: map<string, nat>, stale: set<string>)

  const Empty := Registry(map[], map[], {})

  // ---- Transitions -----------------------------------------------------------

  /** The container a verdict is about, if it is about one. */
  function CarrierOf(v: Verdict): Option<string> {
    if v.source.Container? && "container_id" in v.context && v.context["container_id"] != ""
    then Some(v.context["container_id"]) else None
  }

  function UpdateStale(stale: set<string>, v: Verdict): set<string> {
    if CarrierOf(v).None? then stale
    else if v.severity.Some? then stale + {CarrierOf(v).value}
    else stale - {CarrierOf(v).value}
  }

  function Fired(v: Verdict, now: int): Entry
    requires v.severity.Some?
  {
    Entry(Event(v.id, v.source, v.title, v.detail, v.severity.value, UnackedActive, now, now, now, v.context), v.latched)
  }

  function ChangeFrom(before: Entry, after: Event, removed: bool, operator: string): Change {
    Change(after, Some(before.event.state), Some(before.event.severity), removed, operator)
  }

  /** An alarm that is not there yet: count, and fire when the count is reached. */
  function ObservePending(r: Registry, v: Verdict, now: int): (Registry, Option<Change>)
    requires v.severity.Some?
  {
    var count := (if v.id in r.pending then r.pending[v.id] else 0) + 1;
    if v.persistence <= 1 || count >= v.persistence then
      (r.(entries := r.entries[v.id := Fired(v, now)], pending := r.pending - {v.id}),
       Some(Change(Fired(v, now).event, None, None, false, "")))
    else (r.(pending := r.pending[v.id := count]), None)
  }

  /** An alarm that is there and still active: the new event, and whether it is sent. */
  function Updated(e: Entry, v: Verdict, now: int): (Event, bool)
    requires v.severity.Some?
  {
    var was := e.event;
    var detail := if v.detail != "" then v.detail else was.detail;
    var context := if v.context != map[] then v.context else was.context;
    if was.state.UnackedCleared? then
      (was.(state := UnackedActive, firstSeen := now, lastTransition := now, lastEval := now,
            severity := v.severity.value, detail := detail, context := context), true)
    else
      (was.(severity := v.severity.value, detail := detail, context := context, lastEval := now,
            lastTransition := if v.severity.value != was.severity then now else was.lastTransition),
       v.severity.value != was.severity || detail != was.detail)
  }

  /** The condition has cleared. */
  function Cleared(r: Registry, id: string, now: int): (Registry, Option<Change>)
    requires id in r.entries
  {
    var e := r.entries[id];
    var was := e.event;
    if e.latched && !was.state.UnackedCleared? then (r, None)
    else
      match was.state
      case UnackedActive =>
        var event := was.(state := UnackedCleared, lastTransition := now, lastEval := now);
        (r.(entries := r.entries[id := e.(event := event)]), Some(ChangeFrom(e, event, false, "")))
      case AckedActive =>
        (r.(entries := r.entries - {id}), Some(ChangeFrom(e, was.(lastEval := now), true, "")))
      case UnackedCleared =>
        (r.(entries := r.entries[id := e.(event := was.(lastEval := now))]), None)
  }

  function Observe(r: Registry, v: Verdict, now: int): (Registry, Option<Change>) {
    React(r.(stale := UpdateStale(r.stale, v)), v, now)
  }

  /** What the alarm of the verdict does. */
  function React(r: Registry, v: Verdict, now: int): (Registry, Option<Change>) {
    if v.severity.None? then
      var cleared := r.(pending := r.pending - {v.id});
      if v.id in r.entries then Cleared(cleared, v.id, now) else (cleared, None)
    else if v.id !in r.entries then ObservePending(r, v, now)
    else
      var e := r.entries[v.id];
      var (event, sent) := Updated(e, v, now);
      (r.(entries := r.entries[v.id := e.(event := event)], pending := r.pending - {v.id}),
       if sent then Some(ChangeFrom(e, event, false, "")) else None)
  }

  function Acknowledge(r: Registry, id: string, now: int, operator: string): (Registry, Option<Change>) {
    if id !in r.entries then (r, None)
    else
      var e := r.entries[id];
      match e.event.state
      case UnackedActive =>
        var event := e.event.(state := AckedActive, lastTransition := now);
        (r.(entries := r.entries[id := e.(event := event)]), Some(ChangeFrom(e, event, false, operator)))
      case UnackedCleared => (r.(entries := r.entries - {id}), Some(ChangeFrom(e, e.event, true, operator)))
      case AckedActive => (r, None)
  }

  function Changes(c: Option<Change>): seq<Change> {
    if c.Some? then [c.value] else []
  }

  function AcknowledgeEach(r: Registry, ids: seq<string>, now: int, operator: string): (Registry, seq<Change>)
    decreases ids
  {
    if ids == [] then (r, [])
    else
      var (r1, c) := Acknowledge(r, ids[0], now, operator);
      var (r2, cs) := AcknowledgeEach(r1, ids[1..], now, operator);
      (r2, Changes(c) + cs)
  }

  // ---- Runs ------------------------------------------------------------------

  datatype Action =
    | DoObserve(verdict: Verdict, now: int)
    | DoAcknowledge(id: string, now: int, operator: string)
    | DoAcknowledgeEach(ids: seq<string>, now: int, operator: string)

  function Act(r: Registry, a: Action): (Registry, seq<Change>) {
    match a
    case DoObserve(v, now) => var (r', c) := Observe(r, v, now); (r', Changes(c))
    case DoAcknowledge(id, now, operator) => var (r', c) := Acknowledge(r, id, now, operator); (r', Changes(c))
    case DoAcknowledgeEach(ids, now, operator) => AcknowledgeEach(r, ids, now, operator)
  }

  function Run(r: Registry, run: seq<Action>): (Registry, seq<Change>)
    decreases run
  {
    if run == [] then (r, [])
    else
      var (r1, cs) := Act(r, run[0]);
      var (r2, more) := Run(r1, run[1..]);
      (r2, cs + more)
  }

  // ---- A client that upserts and deletes -------------------------------------

  type View = map<string, Event>

  function Apply(view: View, c: Change): View {
    if c.removed then view - {c.event.id} else view[c.event.id := c.event]
  }

  function ApplyAll(view: View, cs: seq<Change>): View
    decreases cs
  {
    if cs == [] then view else ApplyAll(Apply(view, cs[0]), cs[1..])
  }

  /** Everything but context and last evaluation. */
  predicate SameAlarm(a: Event, b: Event) {
    a == b.(lastEval := a.lastEval, context := a.context)
  }

  predicate Mirrors(view: View, r: Registry) {
    && view.Keys == r.entries.Keys
    && forall id :: id in view ==> SameAlarm(view[id], r.entries[id].event)
  }

  /** Ids name their entries, nothing is pending and present, and a latched alarm is
      never in the cleared state. */
  predicate Consistent(r: Registry) {
    && (forall id :: id in r.entries ==> r.entries[id].event.id == id)
    && r.pending.Keys !! r.entries.Keys
    && (forall id :: id in r.entries && r.entries[id].latched ==> !r.entries[id].event.state.UnackedCleared?)
  }

  /** Writing one entry keeps both, if its event was sent or differs only in what is
      not mirrored. */
  lemma PutKeeps(r: Registry, r': Registry, view: View, view': View, id: string, e: Entry)
    requires Consistent(r) && Mirrors(view, r)
    requires r'.entries == r.entries[id := e] && r'.pending.Keys <= r.pending.Keys - {id}
    requires e.event.id == id && (e.latched ==> !e.event.state.UnackedCleared?)
    requires view' == view[id := e.event] || (view' == view && id in view && SameAlarm(view[id], e.event))
    ensures Consistent(r') && Mirrors(view', r')
  {
  }

  lemma DropKeeps(r: Registry, r': Registry, view: View, id: string)
    requires Consistent(r) && Mirrors(view, r)
    requires r'.entries == r.entries - {id} && r'.pending.Keys <= r.pending.Keys
    ensures Consistent(r') && Mirrors(view - {id}, r')
  {
  }

  lemma ApplyOne(view: View, c: Change)
    ensures ApplyAll(view, [c]) == Apply(view, c)
  {
    assert [c][1..] == [];
  }

  lemma ObserveKeeps(r: Registry, v: Verdict, now: int, view: View)
    requires Consistent(r) && Mirrors(view, r)
    ensures var (r', c) := Observe(r, v, now); Consistent(r') && Mirrors(ApplyAll(view, Changes(c)), r')
  {
    hide Mirrors;
    var (r', c) := Observe(r, v, now);
    var view' := ApplyAll(view, Changes(c));
    if c.Some? {
      ApplyOne(view, c.value);
    }
    if v.id in r'.entries {
      if v.id in r.entries {
        EntryIsMirrored(view, r, v.id);
        PutKeeps(r, r', view, view', v.id, r'.entries[v.id]);
      } else {
        PutKeeps(r, r', view, view', v.id, r'.entries[v.id]);
      }
    } else if v.id in r.entries {
      DropKeeps(r, r', view, v.id);
    } else {
      PendingKeeps(r, r', view, v.id);
    }
  }

  lemma PendingKeeps(r: Registry, r': Registry, view: View, id: string)
    requires Consistent(r) && Mirrors(view, r) && r'.entries == r.entries && id !in r.entries
    requires r'.pending.Keys <= r.pending.Keys + {id}
    ensures Consistent(r') && Mirrors(view, r')
  {
  }

  lemma EntryIsMirrored(view: View, r: Registry, id: string)
    requires Mirrors(view, r) && id in r.entries
    ensures id in view && SameAlarm(view[id], r.entries[id].event)
  {
  }

  lemma AcknowledgeKeeps(r: Registry, id: string, now: int, operator: string, view: View)
    requires Consistent(r) && Mirrors(view, r)
    ensures var (r', c) := Acknowledge(r, id, now, operator);
            Consistent(r') && Mirrors(ApplyAll(view, Changes(c)), r')
  {
    var (r', c) := Acknowledge(r, id, now, operator);
    if c.Some? {
      ApplyOne(view, c.value);
    }
  }

  lemma {:induction false} ApplyConcat(view: View, a: seq<Change>, b: seq<Change>)
    ensures ApplyAll(view, a + b) == ApplyAll(ApplyAll(view, a), b)
    decreases a
  {
    if a == [] {
      assert a + b == b;
    } else {
      ApplyConcat(Apply(view, a[0]), a[1..], b);
      assert (a + b)[1..] == a[1..] + b;
    }
  }

  lemma {:induction false} AcknowledgeEachKeeps(r: Registry, ids: seq<string>, now: int, operator: string, view: View)
    requires Consistent(r) && Mirrors(view, r)
    ensures var (r', cs) := AcknowledgeEach(r, ids, now, operator);
            Consistent(r') && Mirrors(ApplyAll(view, cs), r')
    decreases ids
  {
    hide Mirrors, Consistent, Acknowledge;
    if ids != [] {
      var (r1, c) := Acknowledge(r, ids[0], now, operator);
      AcknowledgeKeeps(r, ids[0], now, operator, view);
      AcknowledgeEachKeeps(r1, ids[1..], now, operator, ApplyAll(view, Changes(c)));
      ApplyConcat(view, Changes(c), AcknowledgeEach(r1, ids[1..], now, operator).1);
    }
  }

  lemma AcknowledgeNone(r: Registry, now: int, operator: string)
    ensures AcknowledgeEach(r, [], now, operator) == (r, [])
  {
  }

  lemma {:induction false} AcknowledgeOneMore(r: Registry, ids: seq<string>, id: string, now: int, operator: string)
    ensures var (r1, cs) := AcknowledgeEach(r, ids, now, operator);
            var (r2, c) := Acknowledge(r1, id, now, operator);
            AcknowledgeEach(r, ids + [id], now, operator) == (r2, cs + Changes(c))
    decreases ids
  {
    hide Acknowledge;
    if ids == [] {
      assert ids + [id] == [id] && [id][1..] == [];
      var c := Acknowledge(r, id, now, operator).1;
      assert Changes(c) + [] == Changes(c) == [] + Changes(c);
    } else {
      var (r1, c) := Acknowledge(r, ids[0], now, operator);
      AcknowledgeOneMore(r1, ids[1..], id, now, operator);
      assert (ids + [id])[1..] == ids[1..] + [id];
      var (r2, cs) := AcknowledgeEach(r1, ids[1..], now, operator);
      var last := Acknowledge(r2, id, now, operator).1;
      assert (Changes(c) + cs) + Changes(last) == Changes(c) + (cs + Changes(last));
    }
  }

  /** Acknowledging every alarm, in any order, leaves only acknowledged ones. */
  lemma {:induction false} AcknowledgedAll(r: Registry, ids: seq<string>, now: int, operator: string, id: string)
    requires id in ids
    ensures var r' := AcknowledgeEach(r, ids, now, operator).0;
            && (id in r'.entries <==> id in r.entries && !r.entries[id].event.state.UnackedCleared?)
            && (id in r'.entries ==> r'.entries[id].event.state.AckedActive?)
    decreases ids
  {
    var r1 := Acknowledge(r, ids[0], now, operator).0;
    if ids[0] == id {
      AcknowledgedStays(r1, ids[1..], now, operator, id);
    } else {
      AcknowledgedAll(r1, ids[1..], now, operator, id);
    }
  }

  lemma {:induction false} AcknowledgedStays(r: Registry, ids: seq<string>, now: int, operator: string, id: string)
    requires id in r.entries ==> r.entries[id].event.state.AckedActive?
    ensures var r' := AcknowledgeEach(r, ids, now, operator).0;
            && (id in r'.entries <==> id in r.entries)
            && (id in r'.entries ==> r'.entries[id].event.state.AckedActive?)
    decreases ids
  {
    if ids != [] {
      AcknowledgedStays(Acknowledge(r, ids[0], now, operator).0, ids[1..], now, operator, id);
    }
  }

  /** Over every run, a client that applies the changes in order holds exactly the
      registry's alarms. */
  lemma {:induction false} ClientHoldsTheRegistry(r: Registry, run: seq<Action>, view: View)
    requires Consistent(r) && Mirrors(view, r)
    ensures var (r', cs) := Run(r, run); Consistent(r') && Mirrors(ApplyAll(view, cs), r')
    decreases run
  {
    hide Mirrors, Consistent, Observe, Acknowledge;
    if run != [] {
      match run[0] {
        case DoObserve(v, now) => ObserveKeeps(r, v, now, view);
        case DoAcknowledge(id, now, operator) => AcknowledgeKeeps(r, id, now, operator, view);
        case DoAcknowledgeEach(ids, now, operator) => AcknowledgeEachKeeps(r, ids, now, operator, view);
      }
      var (r1, cs) := Act(r, run[0]);
      ClientHoldsTheRegistry(r1, run[1..], ApplyAll(view, cs));
      ApplyConcat(view, cs, Run(r1, run[1..]).1);
    }
  }

  /** Over every run, an id is never counted as pending while its alarm is there, an alarm
      is there under its own id, and a latched one never in the cleared state. */
  lemma RunsStayConsistent(run: seq<Action>, id: string)
    ensures var r := Run(Empty, run).0;
            && (id in r.entries ==> id !in r.pending && r.entries[id].event.id == id)
            && (id in r.entries && r.entries[id].latched ==> !r.entries[id].event.state.UnackedCleared?)
  {
    ClientHoldsTheRegistry(Empty, run, map[]);
    hide Run, Mirrors;
  }

  // ---- The audit filter ------------------------------------------------------

  datatype Mark = Mark(state: State, severity: Severity, detail: string, written: int)

  type Marks = map<string, Mark>

  predicate ShouldWrite(marks: Marks, c: Change) {
    || c.event.id !in marks
    || c.removed
    || c.operator != ""
    || marks[c.event.id].state != c.event.state
    || marks[c.event.id].severity != c.event.severity
  }

  /** `_should_write_audit`: the marks after it, and the row if one is written. */
  function Audit(marks: Marks, c: Change, now: int): (Marks, seq<Change>) {
    if !ShouldWrite(marks, c) then (marks, [])
    else if c.removed then (marks - {c.event.id}, [c])
    else (marks[c.event.id := Mark(c.event.state, c.event.severity, c.event.detail, now)], [c])
  }

  function AuditAll(marks: Marks, cs: seq<Change>, times: seq<int>): (Marks, seq<Change>)
    requires |times| == |cs|
    decreases cs
  {
    if cs == [] then (marks, [])
    else
      var (marks1, rows) := Audit(marks, cs[0], times[0]);
      var (marks2, more) := AuditAll(marks1, cs[1..], times[1..]);
      (marks2, rows + more)
  }

  /** Same alarms with the same state and severity. */
  predicate SameStates(a: View, b: View) {
    a.Keys == b.Keys && forall id :: id in a ==> a[id].state == b[id].state && a[id].severity == b[id].severity
  }

  predicate MarksFollow(marks: Marks, view: View) {
    && marks.Keys == view.Keys
    && forall id :: id in marks ==> marks[id].state == view[id].state && marks[id].severity == view[id].severity
  }

  lemma AuditStep(marks: Marks, c: Change, now: int, view: View, replayed: View)
    requires MarksFollow(marks, view) && SameStates(replayed, view)
    ensures var (marks', rows) := Audit(marks, c, now);
            && MarksFollow(marks', Apply(view, c))
            && SameStates(ApplyAll(replayed, rows), Apply(view, c))
  {
    ApplyOne(replayed, c);
  }

  /** Replaying only the audited rows gives every alarm of the full change stream its
      state and severity, whatever the stream. */
  lemma {:induction false} AuditReplays(marks: Marks, cs: seq<Change>, times: seq<int>, view: View, replayed: View)
    requires |times| == |cs| && MarksFollow(marks, view) && SameStates(replayed, view)
    ensures SameStates(ApplyAll(replayed, AuditAll(marks, cs, times).1), ApplyAll(view, cs))
    decreases cs
  {
    hide SameStates, MarksFollow, Audit, Apply;
    if cs != [] {
      var (marks1, rows) := Audit(marks, cs[0], times[0]);
      AuditStep(marks, cs[0], times[0], view, replayed);
      AuditReplays(marks1, cs[1..], times[1..], Apply(view, cs[0]), ApplyAll(replayed, rows));
      ApplyConcat(replayed, rows, AuditAll(marks1, cs[1..], times[1..]).1);
    }
  }

  /** From the start, over every run: the audit log alone tells every live alarm's
      state and severity. */
  lemma AuditLogTellsLiveAlarms(run: seq<Action>, times: seq<int>, id: string)
    requires |times| == |Run(Empty, run).1|
    ensures var (r, cs) := Run(Empty, run);
            var audit := ApplyAll(map[], AuditAll(map[], cs, times).1);
            && (id in audit <==> id in r.entries)
            && (id in audit ==> audit[id].state == r.entries[id].event.state
                                && audit[id].severity == r.entries[id].event.severity)
  {
    ClientHoldsTheRegistry(Empty, run, map[]);
    AuditReplays(map[], Run(Empty, run).1, times, map[], map[]);
  }

  lemma {:induction false} AuditOneMore(marks: Marks, cs: seq<Change>, times: seq<int>, c: Change, now: int)
    requires |times| == |cs|
    ensures var (m, rows) := AuditAll(marks, cs, times); var (m', more) := Audit(m, c, now);
            AuditAll(marks, cs + [c], times + [now]) == (m', rows + more)
    decreases cs
  {
    hide Audit;
    if cs == [] {
      assert cs + [c] == [c] && times + [now] == [now] && [c][1..] == [] && [now][1..] == [];
      assert Audit(marks, c, now).1 + [] == Audit(marks, c, now).1 == [] + Audit(marks, c, now).1;
    } else {
      var (m1, rows) := Audit(marks, cs[0], times[0]);
      AuditOneMore(m1, cs[1..], times[1..], c, now);
      assert (cs + [c])[1..] == cs[1..] + [c] && (times + [now])[1..] == times[1..] + [now];
      var (m2, more) := AuditAll(m1, cs[1..], times[1..]);
      assert rows + more + Audit(m2, c, now).1 == rows + (more + Audit(m2, c, now).1);
    }
  }

  lemma {:induction false} MarksFollowAll(marks: Marks, cs: seq<Change>, times: seq<int>, view: View)
    requires |times| == |cs| && MarksFollow(marks, view)
    ensures MarksFollow(AuditAll(marks, cs, times).0, ApplyAll(view, cs))
    decreases cs
  {
    hide MarksFollow, Audit, Apply;
    if cs != [] {
      FollowStep(marks, cs[0], times[0], view);
      MarksFollowAll(Audit(marks, cs[0], times[0]).0, cs[1..], times[1..], Apply(view, cs[0]));
    }
  }

  lemma FollowStep(marks: Marks, c: Change, now: int, view: View)
    requires MarksFollow(marks, view)
    ensures MarksFollow(Audit(marks, c, now).0, Apply(view, c))
  {
  }

  /** Of any change stream exactly these rows are written: removals, operator actions,
      and changes after which the alarm is new to a client or has another state or
      severity there. A change of detail alone is not. */
  lemma AuditedExactly(cs: seq<Change>, times: seq<int>, i: nat)
    requires i < |cs| == |times|
    ensures var view := ApplyAll(map[], cs[..i]); var c := cs[i];
            AuditAll(map[], cs[..i + 1], times[..i + 1]).1
            == AuditAll(map[], cs[..i], times[..i]).1
               + if c.removed || c.operator != "" || c.event.id !in view || view[c.event.id].state != c.event.state
                    || view[c.event.id].severity != c.event.severity
                 then [c] else []
  {
    assert cs[..i + 1] == cs[..i] + [cs[i]] && times[..i + 1] == times[..i] + [times[i]];
    AuditOneMore(map[], cs[..i], times[..i], cs[i], times[i]);
    MarksFollowAll(map[], cs[..i], times[..i], map[]);
    hide AuditAll, ApplyAll;
  }

  // ---- Persistence -----------------------------------------------------------

  function PendingCount(r: Registry, id: string): nat {
    if id in r.pending then r.pending[id] else 0
  }

  predicate Active(r: Registry, id: string) {
    id in r.entries && !r.entries[id].event.state.UnackedCleared?
  }

  /** The action says nothing but "active, persistence n" about `id`. */
  predicate OnlyActive(a: Action, id: string, n: int) {
    a.DoObserve? && a.verdict.id == id ==> a.verdict.severity.Some? && a.verdict.persistence == n
  }

  /** How many verdicts about `id` the run holds. */
  function Observations(run: seq<Action>, id: string): nat {
    if run == [] then 0
    else (if run[0].DoObserve? && run[0].verdict.id == id then 1 else 0) + Observations(run[1..], id)
  }

  lemma AcknowledgeStays(r: Registry, id: string, other: string, now: int, operator: string)
    requires Consistent(r)
    ensures var r' := Acknowledge(r, other, now, operator).0;
            && PendingCount(r', id) == PendingCount(r, id)
            && (id !in r.entries ==> id !in r'.entries)
            && (Active(r, id) ==> Active(r', id) && r'.entries[id].latched == r.entries[id].latched)
  {
  }

  lemma {:induction false} AcknowledgeEachStays(r: Registry, id: string, ids: seq<string>, now: int, operator: string, view: View)
    requires Consistent(r) && Mirrors(view, r)
    ensures var r' := AcknowledgeEach(r, ids, now, operator).0;
            && PendingCount(r', id) == PendingCount(r, id)
            && (id !in r.entries ==> id !in r'.entries)
            && (Active(r, id) ==> Active(r', id) && r'.entries[id].latched == r.entries[id].latched)
    decreases ids
  {
    hide Acknowledge, Mirrors, Consistent, PendingCount;
    if ids != [] {
      AcknowledgeStays(r, id, ids[0], now, operator);
      var (r1, c) := Acknowledge(r, ids[0], now, operator);
      AcknowledgeKeeps(r, ids[0], now, operator, view);
      AcknowledgeEachStays(r1, id, ids[1..], now, operator, ApplyAll(view, Changes(c)));
    }
  }

  lemma ObserveCounts(r: Registry, v: Verdict, now: int, id: string, n: int)
    requires v.id == id ==> v.severity.Some? && v.persistence == n
    requires id in r.entries ==> Active(r, id)
    ensures var r' := Observe(r, v, now).0;
            && (Active(r, id) ==> Active(r', id))
            && (id !in r.entries && v.id != id ==> id !in r'.entries && PendingCount(r', id) == PendingCount(r, id))
            && (id !in r.entries && v.id == id ==>
                  if PendingCount(r, id) + 1 >= n || n <= 1 then Active(r', id)
                  else id !in r'.entries && PendingCount(r', id) == PendingCount(r, id) + 1)
  {
  }

  /** One action that says nothing but "active" about `id`. */
  lemma CountStep(r: Registry, a: Action, id: string, n: int, view: View)
    requires Consistent(r) && Mirrors(view, r) && OnlyActive(a, id, n)
    requires id in r.entries ==> Active(r, id)
    ensures var r' := Act(r, a).0; var seen := Observations([a], id);
            && (Active(r, id) ==> Active(r', id))
            && (id !in r.entries && seen == 0 ==> id !in r'.entries && PendingCount(r', id) == PendingCount(r, id))
            && (id !in r.entries && seen == 1 ==>
                  if PendingCount(r, id) + 1 >= n || n <= 1 then Active(r', id)
                  else id !in r'.entries && PendingCount(r', id) == PendingCount(r, id) + 1)
  {
    hide Mirrors, Consistent, Observe;
    assert [a][1..] == [];
    match a
    case DoObserve(v, now) => ObserveCounts(r, v, now, id, n);
    case DoAcknowledge(other, now, operator) => AcknowledgeStays(r, id, other, now, operator);
    case DoAcknowledgeEach(ids, now, operator) => AcknowledgeEachStays(r, id, ids, now, operator, view);
  }

  /** An absent alarm with persistence `n` is there after exactly the `n`-th
      consecutive active verdict (the first, for `n` below one), whatever else
      happens in between; until then the verdicts are counted. */
  lemma {:induction false} FiresOnTheNth(r: Registry, run: seq<Action>, id: string, n: int, view: View)
    requires Consistent(r) && Mirrors(view, r)
    requires forall a :: a in run ==> OnlyActive(a, id, n)
    requires id in r.entries ==> Active(r, id)
    ensures var r' := Run(r, run).0; var count := PendingCount(r, id) + Observations(run, id);
            && (Active(r, id) ==> Active(r', id))
            && (id !in r.entries ==>
                  && (id in r'.entries <==> Observations(run, id) > 0 && (count >= n || n <= 1))
                  && (id !in r'.entries ==> PendingCount(r', id) == count))
    decreases run
  {
    hide Mirrors, Consistent, Act, PendingCount;
    if run != [] {
      var r1 := Act(r, run[0]).0;
      assert [run[0]][1..] == [];
      CountStep(r, run[0], id, n, view);
      ClientHoldsTheRegistry(r, [run[0]], view);
      RunOne(r, run[0]);
      FiresOnTheNth(r1, run[1..], id, n, ApplyAll(view, Act(r, run[0]).1));
    }
  }

  lemma RunOne(r: Registry, a: Action)
    ensures Run(r, [a]) == Act(r, a)
  {
    var (r', cs) := Act(r, a);
    assert [a][1..] == [] && cs + [] == cs;
  }

  /** An inactive verdict starts the count again. */
  lemma InactiveResets(r: Registry, v: Verdict, now: int)
    requires v.severity.None?
    ensures PendingCount(Observe(r, v, now).0, v.id) == 0
    ensures v.id !in r.entries ==> v.id !in Observe(r, v, now).0.entries
  {
  }

  // ---- Latching --------------------------------------------------------------

  lemma LatchedObserve(r: Registry, v: Verdict, now: int, id: string)
    requires Consistent(r) && id in r.entries && r.entries[id].latched
    ensures var r' := Observe(r, v, now).0; Active(r', id) && r'.entries[id].latched
  {
  }

  /** Over every run, a latched alarm stays, and never becomes UNACKED_CLEARED. */
  lemma {:induction false} LatchedStays(r: Registry, run: seq<Action>, id: string, view: View)
    requires Consistent(r) && Mirrors(view, r) && id in r.entries && r.entries[id].latched
    ensures var r' := Run(r, run).0; Active(r', id) && r'.entries[id].latched
    decreases run
  {
    hide Mirrors, Observe, Acknowledge;
    if run != [] {
      assert Active(r, id);
      match run[0] {
        case DoObserve(v, now) => LatchedObserve(r, v, now, id);
        case DoAcknowledge(other, now, operator) => AcknowledgeStays(r, id, other, now, operator);
        case DoAcknowledgeEach(ids, now, operator) => AcknowledgeEachStays(r, id, ids, now, operator, view);
      }
      ClientHoldsTheRegistry(r, [run[0]], view);
      RunOne(r, run[0]);
      LatchedStays(Act(r, run[0]).0, run[1..], id, ApplyAll(view, Act(r, run[0]).1));
    }
  }

  // ---- The state diagram -------------------------------------------------------

  /** The state of an id; `None` when there is no such alarm. */
  function StateOf(r: Registry, id: string): Option<State> {
    if id in r.entries then Some(r.entries[id].event.state) else None
  }

  datatype Cause = Fires | Clears | Acks

  /** The diagram of `mav_gss_lib/platform/alarms/contract.py`. Without an alarm, only
      firing changes anything, and only when persistence allows. */
  function Diagram(from: Option<State>, cause: Cause, latched: bool): Option<State> {
    match cause
    case Fires => if from == Some(AckedActive) then from else Some(UnackedActive)
    case Clears =>
      if latched then from
      else if from == Some(UnackedActive) then Some(UnackedCleared)
      else if from == Some(AckedActive) then None else from
    case Acks =>
      if from == Some(UnackedActive) then Some(AckedActive)
      else if from == Some(UnackedCleared) then None else from
  }

  /** An observation takes its own alarm along the diagram, and no other anywhere. */
  lemma ObserveFollowsDiagram(r: Registry, v: Verdict, now: int, id: string)
    requires Consistent(r)
    ensures var after := StateOf(Observe(r, v, now).0, id);
            if id != v.id then after == StateOf(r, id)
            else
              var latched := id in r.entries && r.entries[id].latched;
              var next := Diagram(StateOf(r, id), if v.severity.Some? then Fires else Clears, latched);
              after == next || (id !in r.entries && v.severity.Some? && v.persistence > 1 && after == None)
  {
  }

  lemma AcknowledgeFollowsDiagram(r: Registry, acked: string, now: int, operator: string, id: string)
    ensures StateOf(Acknowledge(r, acked, now, operator).0, id)
            == if id == acked then Diagram(StateOf(r, id), Acks, false) else StateOf(r, id)
  {
  }

  lemma {:induction false} AcknowledgeOthers(r: Registry, ids: seq<string>, now: int, operator: string, id: string)
    requires id !in ids
    ensures StateOf(AcknowledgeEach(r, ids, now, operator).0, id) == StateOf(r, id)
    decreases ids
  {
    hide StateOf, Acknowledge;
    if ids != [] {
      AcknowledgeFollowsDiagram(r, ids[0], now, operator, id);
      AcknowledgeOthers(Acknowledge(r, ids[0], now, operator).0, ids[1..], now, operator, id);
    }
  }

  /** Over every run, an alarm that is not acknowledged does not go away: without an
      operator's action on it, it stays in one of the two unacknowledged states. */
  lemma {:induction false} UnacknowledgedStays(r: Registry, run: seq<Action>, id: string, view: View)
    requires Consistent(r) && Mirrors(view, r)
    requires StateOf(r, id) == Some(UnackedActive) || StateOf(r, id) == Some(UnackedCleared)
    requires forall a :: a in run && a.DoAcknowledge? ==> a.id != id
    requires forall a :: a in run && a.DoAcknowledgeEach? ==> id !in a.ids
    ensures var after := StateOf(Run(r, run).0, id); after == Some(UnackedActive) || after == Some(UnackedCleared)
    decreases run
  {
    hide Mirrors, Consistent, Observe, Acknowledge, StateOf;
    if run != [] {
      assert run[0] in run;
      match run[0] {
        case DoObserve(v, now) =>
          ObserveFollowsDiagram(r, v, now, id);
          StateOfEntry(r, id);
        case DoAcknowledge(acked, now, operator) => AcknowledgeFollowsDiagram(r, acked, now, operator, id);
        case DoAcknowledgeEach(ids, now, operator) => AcknowledgeOthers(r, ids, now, operator, id);
      }
      var (r1, cs) := Act(r, run[0]);
      ClientHoldsTheRegistry(r, [run[0]], view);
      RunOne(r, run[0]);
      UnacknowledgedStays(r1, run[1..], id, ApplyAll(view, cs));
    }
  }

  lemma StateOfEntry(r: Registry, id: string)
    ensures StateOf(r, id).Some? <==> id in r.entries
  {
  }

  // ---- What an alarm tells -------------------------------------------------------

  /** An observation concerns its own alarm alone. */
  lemma OthersStay(r: Registry, v: Verdict, now: int, id: string)
    requires id != v.id
    ensures var r' := Observe(r, v, now).0;
            (id in r'.entries <==> id in r.entries) && (id in r.entries ==> r'.entries[id] == r.entries[id])
  {
  }

  /** An active one that finds none and
      fires makes it of the verdict; one that finds it there gives it its severity, its
      detail and context where it has any, and starts it again if it had cleared. */
  lemma ObserveTells(r: Registry, v: Verdict, now: int)
    requires Consistent(r)
    ensures var r' := Observe(r, v, now).0; var active := v.severity.Some?;
            && (v.id !in r.entries && v.id in r'.entries ==>
                  && active
                  && r'.entries[v.id] == Entry(Event(v.id, v.source, v.title, v.detail, v.severity.value, UnackedActive,
                                                     now, now, now, v.context), v.latched))
            && (v.id in r.entries && v.id in r'.entries ==>
                  var e, e' := r.entries[v.id], r'.entries[v.id];
                  var was, event := e.event, e'.event;
                  && e'.latched == e.latched && event.id == was.id && event.source == was.source && event.title == was.title
                  && event.severity == (if active then v.severity.value else was.severity)
                  && event.detail == (if active && v.detail != "" then v.detail else was.detail)
                  && event.context == (if active && v.context != map[] then v.context else was.context)
                  && event.firstSeen == (if active && was.state.UnackedCleared? then now else was.firstSeen)
                  && event.lastTransition == (if event.state != was.state || event.severity != was.severity then now
                                              else was.lastTransition)
                  && event.lastEval == (if !active && e.latched then was.lastEval else now))
  {
  }

  /** An observation is reported exactly when it makes the alarm appear or go, or
      changes its state, severity or detail; the report holds the alarm as it is now (as
      it was, when it goes) and its state and severity before. */
  lemma ObserveReports(r: Registry, v: Verdict, now: int)
    requires Consistent(r)
    ensures var (r', c) := Observe(r, v, now); var before, after := v.id in r.entries, v.id in r'.entries;
            && (c.Some? <==>
                || before != after
                || (before && after &&
                    var was, event := r.entries[v.id].event, r'.entries[v.id].event;
                    event.state != was.state || event.severity != was.severity || event.detail != was.detail))
            && (c.Some? ==>
                  && c.value.removed == !after && c.value.operator == ""
                  && c.value.event == (if after then r'.entries[v.id].event else r.entries[v.id].event.(lastEval := now))
                  && c.value.prevState == (if before then Some(r.entries[v.id].event.state) else None)
                  && c.value.prevSeverity == (if before then Some(r.entries[v.id].event.severity) else None))
  {
  }

  /** An acknowledgement changes the state and the time of the transition, nothing else,
      and is reported, with the operator, exactly when it changes the state or removes
      the alarm. */
  lemma AcknowledgeTells(r: Registry, id: string, now: int, operator: string)
    ensures var (r', c) := Acknowledge(r, id, now, operator); var before, after := id in r.entries, id in r'.entries;
            && (forall other :: other != id ==> (other in r'.entries <==> other in r.entries))
            && (forall other :: other != id && other in r.entries ==> r'.entries[other] == r.entries[other])
            && r'.pending == r.pending && r'.stale == r.stale && (after ==> before)
            && (after ==>
                  var was, event := r.entries[id].event, r'.entries[id].event;
                  && r'.entries[id].latched == r.entries[id].latched
                  && event == was.(state := event.state,
                                   lastTransition := if event.state != was.state then now else was.lastTransition))
            && (c.Some? <==> before && (after ==> r'.entries[id].event.state != r.entries[id].event.state))
            && (c.Some? ==>
                  c.value == Change(if after then r'.entries[id].event else r.entries[id].event,
                                    Some(r.entries[id].event.state), Some(r.entries[id].event.severity), !after, operator))
  {
  }

  /** An active verdict about `id`. */
  predicate ActiveAbout(a: Action, id: string) {
    a.DoObserve? && a.verdict.id == id && a.verdict.severity.Some?
  }

  /** Whether the alarm is there after the first `n` actions. */
  predicate LiveAfter(run: seq<Action>, n: nat, id: string)
    requires n <= |run|
  {
    id in Run(Empty, run[..n]).0.entries
  }

  /** Whether action `n` makes the alarm active: it was not there, or had cleared. */
  predicate Starts(run: seq<Action>, n: nat, id: string)
    requires n < |run|
  {
    && ActiveAbout(run[n], id) && LiveAfter(run, n + 1, id)
    && (LiveAfter(run, n, id) ==> StateOf(Run(Empty, run[..n]).0, id) == Some(UnackedCleared))
  }

  /** What a run says about an alarm that is there at its end: the action it fired with,
      the one it last became active with, the last active verdict and the last one since
      it fired with a detail, if there is one (`detail` is -1 otherwise). */
  datatype Story = Story(fired: nat, seen: nat, last: nat, detail: int)

  ghost predicate Tells(run: seq<Action>, id: string, s: Story) {
    && s.fired <= s.seen <= s.last < |run| && s.detail < |run|
    && ActiveAbout(run[s.fired], id) && ActiveAbout(run[s.last], id)
    && !LiveAfter(run, s.fired, id) && (forall n :: s.fired < n <= |run| ==> LiveAfter(run, n, id))
    && Starts(run, s.seen, id) && (forall n :: s.seen < n < |run| ==> !Starts(run, n, id))
    && (forall n :: s.last < n < |run| ==> !ActiveAbout(run[n], id))
    && (s.detail >= 0 ==> s.fired <= s.detail && ActiveAbout(run[s.detail], id) && run[s.detail].verdict.detail != "")
    && (forall n :: s.fired <= n < |run| && s.detail < n && ActiveAbout(run[n], id) ==> run[n].verdict.detail == "")
  }

  lemma PrefixOf(before: seq<Action>, a: Action, n: nat)
    requires n <= |before|
    ensures (before + [a])[..n] == before[..n]
  {
  }

  /** What came before stays as it was told. */
  lemma SameBefore(before: seq<Action>, a: Action, n: nat, id: string)
    requires n <= |before|
    ensures LiveAfter(before + [a], n, id) == LiveAfter(before, n, id)
    ensures n < |before| ==> Starts(before + [a], n, id) == Starts(before, n, id)
  {
    hide Run, ActiveAbout, StateOf;
    PrefixOf(before, a, n);
    if n < |before| {
      PrefixOf(before, a, n + 1);
    }
  }

  /** The story of an alarm that stays there, or fires, with one action more. */
  function NextStory(s: Story, live: bool, cleared: bool, a: Action, id: string, n: nat): Story {
    if !ActiveAbout(a, id) then s
    else
      Story(if live then s.fired else n, if live && !cleared then s.seen else n, n,
            if a.verdict.detail != "" then n else if live then s.detail else -1)
  }

  lemma StoryGoesOn(before: seq<Action>, a: Action, id: string, s: Story)
    requires LiveAfter(before, |before|, id) ==> Tells(before, id, s)
    requires LiveAfter(before + [a], |before| + 1, id)
    requires !LiveAfter(before, |before|, id) ==> ActiveAbout(a, id)
    ensures var n := |before|; var live := LiveAfter(before, n, id);
            Tells(before + [a], id, NextStory(s, live, StateOf(Run(Empty, before).0, id) == Some(UnackedCleared), a, id, n))
  {
    hide Run, StateOf, LiveAfter, Starts;
    var run, n := before + [a], |before|;
    forall k: nat | k <= n
      ensures LiveAfter(run, k, id) == LiveAfter(before, k, id)
      ensures k < n ==> Starts(run, k, id) == Starts(before, k, id)
    {
      SameBefore(before, a, k, id);
    }
    assert forall k :: 0 <= k < n ==> run[k] == before[k];
    LastStarts(before, a, id);
  }

  lemma LastStarts(before: seq<Action>, a: Action, id: string)
    requires LiveAfter(before + [a], |before| + 1, id)
    ensures Starts(before + [a], |before|, id) <==>
            && ActiveAbout(a, id)
            && (LiveAfter(before, |before|, id) ==> StateOf(Run(Empty, before).0, id) == Some(UnackedCleared))
  {
    hide Run, StateOf, ActiveAbout;
    PrefixOf(before, a, |before|);
    assert before[..|before|] == before;
  }

  /** Over every run, an alarm that is there has the severity of the latest active
      verdict about it and the last detail given since it fired; it was first seen when
      it last became active, and is of the source and title it fired with. */
  lemma LiveAlarmTells(run: seq<Action>, id: string) returns (s: Story)
    requires LiveAfter(run, |run|, id)
    ensures s.fired <= s.seen <= s.last < |run| && s.detail < |run|
    ensures ActiveAbout(run[s.fired], id) && !LiveAfter(run, s.fired, id)
    ensures forall n :: s.fired < n <= |run| ==> LiveAfter(run, n, id)
    ensures Starts(run, s.seen, id) && forall n :: s.seen < n < |run| ==> !Starts(run, n, id)
    ensures ActiveAbout(run[s.last], id) && forall n :: s.last < n < |run| ==> !ActiveAbout(run[n], id)
    ensures s.detail >= 0 ==> s.fired <= s.detail && ActiveAbout(run[s.detail], id) && run[s.detail].verdict.detail != ""
    ensures forall n :: s.fired <= n < |run| && s.detail < n && ActiveAbout(run[n], id) ==> run[n].verdict.detail == ""
    ensures var r := Run(Empty, run).0;
            && id in r.entries
            && var event := r.entries[id].event; var first := run[s.fired].verdict;
               && event.severity == run[s.last].verdict.severity.value
               && event.detail == (if s.detail >= 0 then run[s.detail].verdict.detail else "")
               && event.firstSeen == run[s.seen].now
               && event.source == first.source && event.title == first.title && r.entries[id].latched == first.latched
  {
    s := StoryOf(run, id);
  }

  lemma {:induction false} StoryOf(run: seq<Action>, id: string) returns (s: Story)
    requires LiveAfter(run, |run|, id)
    ensures Tells(run, id, s)
    ensures var r := Run(Empty, run).0;
            && id in r.entries
            && var event := r.entries[id].event; var first := run[s.fired].verdict;
               && event.severity == run[s.last].verdict.severity.value
               && event.detail == (if s.detail >= 0 then run[s.detail].verdict.detail else "")
               && event.firstSeen == run[s.seen].now
               && event.source == first.source && event.title == first.title && r.entries[id].latched == first.latched
  {
    assert run[..|run|] == run;
    if run == [] {
      assert false;
    } else {
      var before, a := run[..|run| - 1], run[|run| - 1];
      assert run == before + [a] && before[..|before|] == before;
      var r := Run(Empty, before).0;
      RunAppend(Empty, before, a);
      ClientHoldsTheRegistry(Empty, before, map[]);
      s := Story(0, 0, 0, -1);
      if LiveAfter(before, |before|, id) {
        s := StoryOf(before, id);
      }
      AlarmAfter(r, a, id);
      StoryGoesOn(before, a, id, s);
      s := NextStory(s, id in r.entries, StateOf(r, id) == Some(UnackedCleared), a, id, |before|);
      hide Run, Act, Tells;
    }
  }

  /** What one action makes of an alarm that is there after it. */
  lemma AlarmAfter(r: Registry, a: Action, id: string)
    requires Consistent(r) && id in Act(r, a).0.entries
    ensures var r' := Act(r, a).0; var event := r'.entries[id].event;
            && (id !in r.entries ==>
                  && ActiveAbout(a, id)
                  && r'.entries[id].latched == a.verdict.latched && event.source == a.verdict.source
                  && event.title == a.verdict.title && event.severity == a.verdict.severity.value
                  && event.detail == a.verdict.detail && event.firstSeen == a.now)
            && (id in r.entries ==>
                  var was := r.entries[id].event; var active := ActiveAbout(a, id);
                  && r'.entries[id].latched == r.entries[id].latched && event.source == was.source && event.title == was.title
                  && event.severity == (if active then a.verdict.severity.value else was.severity)
                  && event.detail == (if active && a.verdict.detail != "" then a.verdict.detail else was.detail)
                  && event.firstSeen == (if active && was.state.UnackedCleared? then a.now else was.firstSeen))
  {
    match a
    case DoObserve(v, now) =>
      ObserveTells(r, v, now);
      if id != v.id {
        OthersStay(r, v, now, id);
      }
      hide Observe;
    case DoAcknowledge(acked, now, operator) =>
      AcknowledgeTells(r, acked, now, operator);
      hide Acknowledge;
    case DoAcknowledgeEach(ids, now, operator) => AcknowledgeEachTells(r, ids, now, operator, id);
  }

  lemma {:induction false} AcknowledgeEachTells(r: Registry, ids: seq<string>, now: int, operator: string, id: string)
    ensures var r' := AcknowledgeEach(r, ids, now, operator).0;
            id in r'.entries ==>
              && id in r.entries && r'.entries[id].latched == r.entries[id].latched
              && var was, event := r.entries[id].event, r'.entries[id].event;
                 event == was.(state := event.state, lastTransition := event.lastTransition)
    decreases ids
  {
    hide Acknowledge;
    if ids != [] {
      AcknowledgeTells(r, ids[0], now, operator);
      AcknowledgeEachTells(Acknowledge(r, ids[0], now, operator).0, ids[1..], now, operator, id);
    }
  }

  // ---- Carriers --------------------------------------------------------------

  /** An active container verdict makes its container stale, an inactive one fresh; one of
      another source, or without a container id, says nothing about any. */
  lemma VerdictTellsCarrier(r: Registry, v: Verdict, now: int, container: string)
    ensures var about := && v.source.Container? && container != ""
                         && "container_id" in v.context && v.context["container_id"] == container;
            container in Observe(r, v, now).0.stale <==> if about then v.severity.Some? else container in r.stale
  {
  }

  /** The latest verdict of the run about a container: active or not. */
  function Latest(run: seq<Action>, container: string): Option<bool> {
    if run == [] then None
    else
      var a := run[|run| - 1];
      if a.DoObserve? && CarrierOf(a.verdict) == Some(container) then Some(a.verdict.severity.Some?)
      else Latest(run[..|run| - 1], container)
  }

  lemma {:induction false} AcknowledgeEachKeepsStale(r: Registry, ids: seq<string>, now: int, operator: string)
    ensures AcknowledgeEach(r, ids, now, operator).0.stale == r.stale
    decreases ids
  {
    if ids != [] {
      AcknowledgeEachKeepsStale(Acknowledge(r, ids[0], now, operator).0, ids[1..], now, operator);
    }
  }

  lemma {:induction false} RunAppend(r: Registry, run: seq<Action>, a: Action)
    ensures Run(r, run + [a]).0 == Act(Run(r, run).0, a).0
    decreases run
  {
    hide Act;
    if run == [] {
      assert run + [a] == [a];
      RunOne(r, a);
    } else {
      RunAppend(Act(r, run[0]).0, run[1..], a);
      assert (run + [a])[1..] == run[1..] + [a];
    }
  }

  /** A carrier is stale exactly when its latest verdict is active: acknowledgements
      and latching play no part. */
  lemma {:induction false} StaleIsLatest(r: Registry, run: seq<Action>, container: string)
    ensures container in Run(r, run).0.stale <==>
            match Latest(run, container) case Some(active) => active case None => container in r.stale
  {
    if run != [] {
      var before, a := run[..|run| - 1], run[|run| - 1];
      assert run == before + [a];
      StaleIsLatest(r, before, container);
      RunAppend(r, before, a);
      var r1 := Run(r, before).0;
      if a.DoAcknowledgeEach? {
        AcknowledgeEachKeepsStale(r1, a.ids, a.now, a.operator);
      }
    }
  }

  /** `stale_for`: a parameter with declared carriers, all of them stale. */
  predicate StaleFor(carriers: map<string, set<string>>, stale: set<string>, parameter: string) {
    parameter in carriers && carriers[parameter] != {} && carriers[parameter] <= stale
  }

  lemma ParameterStaleness(carriers: map<string, set<string>>, run: seq<Action>, parameter: string)
    ensures StaleFor(carriers, Run(Empty, run).0.stale, parameter) <==>
            && parameter in carriers && carriers[parameter] != {}
            && forall c :: c in carriers[parameter] ==> Latest(run, c) == Some(true)
  {
    if parameter in carriers {
      forall c | c in carriers[parameter]
        ensures c in Run(Empty, run).0.stale <==> Latest(run, c) == Some(true)
      {
        StaleIsLatest(Empty, run, c);
      }
    }
  }
}

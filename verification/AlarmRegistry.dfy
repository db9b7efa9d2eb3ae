/** The objects of `mav_gss_lib/platform/alarms/registry.py` and
    `mav_gss_lib/platform/alarms/dispatch.py`, updated in place and proved to take the
    transitions of `Alarms`. */
module AlarmRegistries {
  import opened Options
  import opened Alarms

  class AlarmEntry {
    const id: string
    const source: Source
    const title: string
    const latched: bool
    var detail: string
    var severity: Severity
    var state: State
    var firstSeen: int
    var lastEval: int
    var lastTransition: int
    var context: Context

    constructor (v: Verdict, now: int)
      requires v.severity.Some?
      ensures Value() == Fired(v, now)
    {
      id, source, title, latched := v.id, v.source, v.title, v.latched;
      detail, severity, context := v.detail, v.severity.value, v.context;
      state, firstSeen, lastEval, lastTransition := UnackedActive, now, now, now;
    }

    function Snapshot(): Event
      reads this
    {
      Event(id, source, title, detail, severity, state, firstSeen, lastEval, lastTransition, context)
    }

    ghost function Value(): Entry
      reads this
    {
      Entry(Snapshot(), latched)
    }
  }

  class CarrierStaleIndex {
    var parameterCarriers: map<string, set<string>>
    var staleCarriers: set<string>

    constructor ()
      ensures parameterCarriers == map[] && staleCarriers == {}
    {
      parameterCarriers, staleCarriers := map[], {};
    }

    /** Verdicts that came before the declaration count. */
    method SetParameterCarriers(mapping: map<string, set<string>>)
      modifies this`parameterCarriers
      ensures parameterCarriers == mapping
      ensures forall parameter :: StaleFor(parameterCarriers, staleCarriers, parameter)
                <==> parameter in mapping && mapping[parameter] != {} && mapping[parameter] <= staleCarriers
    {
      parameterCarriers := mapping;
    }

    method IsStale(parameter: string) returns (stale: bool)
      ensures stale <==> StaleFor(parameterCarriers, staleCarriers, parameter)
    {
      if parameter !in parameterCarriers || parameterCarriers[parameter] == {} {
        return false;
      }
      return parameterCarriers[parameter] <= staleCarriers;
    }

    method UpdateFromVerdict(v: Verdict)
      modifies this`staleCarriers
      ensures staleCarriers == UpdateStale(old(staleCarriers), v)
    {
      if v.source != Container {
        return;
      }
      var cid := if "container_id" in v.context then v.context["container_id"] else "";
      if cid == "" {
        return;
      }
      if v.severity.Some? {
        staleCarriers := staleCarriers + {cid};
      } else {
        staleCarriers := staleCarriers - {cid};
      }
    }
  }

  class AlarmRegistry {
    const carriers: CarrierStaleIndex
    var entries: map<string, AlarmEntry>
    var pending: map<string, nat>

    constructor (carriers: CarrierStaleIndex)
      requires carriers.staleCarriers == {}
      ensures Valid() && Model() == Empty && this.carriers == carriers && entries == map[]
    {
      this.carriers := carriers;
      entries, pending := map[], map[];
    }

    ghost predicate Valid()
      reads this
    {
      forall id :: id in entries ==> entries[id].id == id
    }

    /** The value this object stands for. */
    ghost function Model(): Registry
      reads this, carriers, entries.Values
    {
      Registry(Entries(), pending, carriers.staleCarriers)
    }

    ghost function Entries(): map<string, Entry>
      reads this`entries, entries.Values
    {
      map id | id in entries :: entries[id].Value()
    }

    /** Updating one entry in place updates that entry of the table and no other. */
    twostate lemma EntryUpdated(id: string)
      requires old(Valid()) && entries == old(entries) && id in entries
      requires forall other :: other in entries && other != id ==> unchanged(entries[other])
      ensures Entries() == old(Entries())[id := entries[id].Value()]
    {
    }

    twostate lemma EntryAdded(id: string, new e: AlarmEntry)
      requires id !in old(entries) && entries == old(entries)[id := e]
      requires forall other :: other in old(entries) ==> unchanged(old(entries)[other])
      ensures Entries() == old(Entries())[id := e.Value()]
    {
    }

    twostate lemma EntryRemoved(id: string)
      requires old(Valid()) && id in old(entries) && entries == old(entries) - {id}
      requires forall other :: other in entries ==> unchanged(entries[other])
      ensures Entries() == old(Entries()) - {id}
    {
    }

    method Observe(v: Verdict, now: int) returns (c: Option<Change>)
      requires Valid()
      modifies this, carriers`staleCarriers, entries.Values
      ensures Valid() && fresh(entries.Values - old(entries.Values))
      ensures (Model(), c) == Alarms.Observe(old(Model()), v, now)
    {
      carriers.UpdateFromVerdict(v);
      c := React(v, now);
    }

    method React(v: Verdict, now: int) returns (c: Option<Change>)
      requires Valid()
      modifies this, entries.Values
      ensures Valid() && fresh(entries.Values - old(entries.Values))
      ensures (Model(), c) == Alarms.React(old(Model()), v, now)
    {
      if v.severity.None? {
        pending := pending - {v.id};
        c := MaybeClear(v.id, now);
        return;
      }
      if v.id !in entries {
        c := ObservePending(v, now);
        return;
      }
      c := ObserveExisting(v, now);
    }

    /** The alarm is there: it is not pending any more, and its entry is updated. */
    method ObserveExisting(v: Verdict, now: int) returns (c: Option<Change>)
      requires Valid() && v.severity.Some? && v.id in entries
      modifies this`pending, entries[v.id]
      ensures Valid()
      ensures var was := old(Model()); var e := was.entries[v.id]; var (event, sent) := Updated(e, v, now);
              && Model() == was.(entries := was.entries[v.id := e.(event := event)], pending := was.pending - {v.id})
              && c == if sent then Some(ChangeFrom(e, event, false, "")) else None
    {
      pending := pending - {v.id};
      c := UpdateExisting(entries[v.id], v, now);
      EntryUpdated(v.id);
    }

    method ObservePending(v: Verdict, now: int) returns (c: Option<Change>)
      requires Valid() && v.severity.Some? && v.id !in entries
      modifies this
      ensures Valid() && fresh(entries.Values - old(entries.Values))
      ensures (Model(), c) == Alarms.ObservePending(old(Model()), v, now)
    {
      if v.persistence <= 1 {
        pending := pending - {v.id};
        c := FireNew(v, now);
        return;
      }
      var count := (if v.id in pending then pending[v.id] else 0) + 1;
      if count >= v.persistence {
        pending := pending - {v.id};
        c := FireNew(v, now);
        return;
      }
      pending := pending[v.id := count];
      c := None;
    }

    method FireNew(v: Verdict, now: int) returns (c: Option<Change>)
      requires Valid() && v.severity.Some? && v.id !in entries
      modifies this`entries
      ensures Valid() && fresh(entries.Values - old(entries.Values))
      ensures Model() == old(Model()).(entries := old(Model()).entries[v.id := Fired(v, now)])
      ensures c == Some(Change(Fired(v, now).event, None, None, false, ""))
    {
      var entry := new AlarmEntry(v, now);
      entries := entries[v.id := entry];
      EntryAdded(v.id, entry);
      c := Some(Change(entry.Snapshot(), None, None, false, ""));
    }

    method UpdateExisting(entry: AlarmEntry, v: Verdict, now: int) returns (c: Option<Change>)
      requires v.severity.Some?
      modifies entry
      ensures var was := old(entry.Value());
              var (event, sent) := Updated(was, v, now);
              && entry.Value() == was.(event := event)
              && c == if sent then Some(ChangeFrom(was, event, false, "")) else None
    {
      var prevState, prevSeverity := entry.state, entry.severity;
      entry.lastEval := now;
      if entry.state == UnackedCleared {
        entry.state := UnackedActive;
        entry.firstSeen := now;
        entry.lastTransition := now;
        entry.severity := v.severity.value;
        entry.detail := if v.detail != "" then v.detail else entry.detail;
        if v.context != map[] {
          entry.context := v.context;
        }
        c := Some(Change(entry.Snapshot(), Some(prevState), Some(prevSeverity), false, ""));
        return;
      }
      var emit := v.severity.value != entry.severity || (v.detail != "" && v.detail != entry.detail);
      if v.severity.value != entry.severity {
        entry.severity := v.severity.value;
        entry.lastTransition := now;
      }
      if v.detail != "" {
        entry.detail := v.detail;
      }
      if v.context != map[] {
        entry.context := v.context;
      }
      c := if emit then Some(Change(entry.Snapshot(), Some(prevState), Some(prevSeverity), false, "")) else None;
    }

    method MaybeClear(id: string, now: int) returns (c: Option<Change>)
      requires Valid()
      modifies this`entries, if id in entries then {entries[id]} else {}
      ensures Valid() && entries.Values <= old(entries.Values)
      ensures (Model(), c) == if id in old(entries) then Cleared(old(Model()), id, now) else (old(Model()), None)
    {
      if id !in entries {
        return None;
      }
      var entry := entries[id];
      if entry.latched && (entry.state == UnackedActive || entry.state == AckedActive) {
        return None;
      }
      var prevState, prevSeverity := entry.state, entry.severity;
      entry.lastEval := now;
      if entry.state == UnackedActive {
        entry.state := UnackedCleared;
        entry.lastTransition := now;
        EntryUpdated(id);
        return Some(Change(entry.Snapshot(), Some(prevState), Some(prevSeverity), false, ""));
      }
      if entry.state == AckedActive {
        var removed := entry.Snapshot();
        entries := entries - {entry.id};
        EntryRemoved(id);
        return Some(Change(removed, Some(prevState), Some(prevSeverity), true, ""));
      }
      EntryUpdated(id);
      c := None;
    }

    method Acknowledge(id: string, now: int, operator: string) returns (c: Option<Change>)
      requires Valid()
      modifies this`entries, if id in entries then {entries[id]} else {}
      ensures Valid() && entries.Values <= old(entries.Values)
      ensures (Model(), c) == Alarms.Acknowledge(old(Model()), id, now, operator)
    {
      if id !in entries {
        return None;
      }
      var entry := entries[id];
      var prevState, prevSeverity := entry.state, entry.severity;
      if entry.state == UnackedActive {
        entry.state := AckedActive;
        entry.lastTransition := now;
        EntryUpdated(id);
        return Some(Change(entry.Snapshot(), Some(prevState), Some(prevSeverity), false, operator));
      }
      if entry.state == UnackedCleared {
        var removed := entry.Snapshot();
        entries := entries - {id};
        EntryRemoved(id);
        return Some(Change(removed, Some(prevState), Some(prevSeverity), true, operator));
      }
      c := None;
    }

    /** Acknowledges every alarm, in whatever order the table lists them. */
    method AcknowledgeAll(now: int, operator: string) returns (out: seq<Change>, ghost ids: seq<string>)
      requires Valid()
      modifies this`entries, entries.Values
      ensures Valid() && entries.Values <= old(entries.Values)
      ensures forall id :: id in ids <==> id in old(entries)
      ensures (Model(), out) == AcknowledgeEach(old(Model()), ids, now, operator)
    {
      hide Alarms.Acknowledge, Entries, AcknowledgeEach;
      ghost var was := Model();
      AcknowledgeNone(was, now, operator);
      var left := entries.Keys;
      out, ids := [], [];
      while left != {}
        invariant Valid() && entries.Values <= old(entries.Values)
        invariant forall id :: id in left || id in ids <==> id in old(entries)
        invariant (Model(), out) == AcknowledgeEach(was, ids, now, operator)
        decreases |left|
      {
        var aid :| aid in left;
        left := left - {aid};
        AcknowledgeOneMore(was, ids, aid, now, operator);
        var c := Acknowledge(aid, now, operator);
        out := if c.Some? then out + [c.value] else out;
        assert out == AcknowledgeEach(was, ids, now, operator).1 + Changes(c);
        ids := ids + [aid];
      }
    }
  }

  class AlarmDispatch {
    var lastAudit: Marks
    /** What the audit sink was given, and what clients were sent. */
    ghost var audited: seq<Change>
    ghost var sent: seq<Change>

    constructor ()
      ensures lastAudit == map[] && audited == [] && sent == []
    {
      lastAudit, audited, sent := map[], [], [];
    }

    method Emit(c: Option<Change>, now: int, hasLoop: bool)
      modifies this
      ensures sent == if hasLoop then old(sent) + Changes(c) else old(sent)
      ensures c.None? ==> lastAudit == old(lastAudit) && audited == old(audited)
      ensures c.Some? ==> lastAudit == Audit(old(lastAudit), c.value, now).0
                          && audited == old(audited) + Audit(old(lastAudit), c.value, now).1
    {
      if c.None? {
        return;
      }
      var write := ShouldWriteAudit(c.value, now);
      if write {
        audited := audited + [c.value];
      }
      if !hasLoop {
        return;
      }
      sent := sent + [c.value];
    }

    method ShouldWriteAudit(c: Change, now: int) returns (write: bool)
      modifies this`lastAudit
      ensures Audit(old(lastAudit), c, now) == (lastAudit, if write then [c] else [])
    {
      var event := c.event;
      if event.id in lastAudit {
        var previous := lastAudit[event.id];
        if !(c.removed || c.operator != "" || previous.state != event.state || previous.severity != event.severity) {
          return false;
        }
      }
      if c.removed {
        lastAudit := lastAudit - {event.id};
      } else {
        lastAudit := lastAudit[event.id := Mark(event.state, event.severity, event.detail, now)];
      }
      return true;
    }
  }
}

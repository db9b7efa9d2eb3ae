/** The session log of `mav_gss_lib/logging/_base.py`: accepted records go to a
    queue, a writer thread moves them to the canonical file, and a two-phase rename
    rewrites that file under a new name.

    The disk is a map from paths to lines. Every I/O call a rename makes may fail:
    which ones do is part of the call (`PrepareIO`, `CommitIO`). The writer takes its
    turns between calls; a call that stops the writer waits until it has drained the
    queue, and holds the queue lock meanwhile, so no record is accepted. */
module SessionLogs {
  import opened Options

  /** `<stem>.jsonl`, the temporary file beside it, or a file that is still open but
      has no name any more. */
  datatype Path = Jsonl(stem: string) | Tmp(of: Path) | Unlinked(name: Path)

  /** One line of the file; only a JSON object that has a session id is restamped. */
  datatype Line = Record(session: string, body: string) | Other(text: string)

  type Disk = map<Path, seq<Line>>

  /** The mutable state of a log and its directory. */
  datatype Log = Log(
    disk: Disk, path: Path, session: string, queue: seq<Line>,
    writing: bool, handle: Option<Path>, closed: bool)

  /** What `prepare_rename` returns. */
  datatype Prepared = Prepared(oldPath: Path, newPath: Path, newSession: string)

  /** How far a rewrite gets before an exception, if there is one. */
  datatype Rewriting = Complete | NoSource | NoTarget | Partial(lines: nat)

  /** Which of the calls after the rewrite succeed. */
  datatype PrepareIO = PrepareIO(rewriting: Rewriting, cleanup: bool, reopen: bool, restart: bool)

  datatype CommitIO = CommitIO(
    rewriting: Rewriting, replace: bool, openNew: bool, removeOld: bool, restart: bool,
    cleanup: bool, reopen: bool, restartAgain: bool)

  // ---- Disk ------------------------------------------------------------------

  function Contents(disk: Disk, p: Path): seq<Line> {
    if p in disk then disk[p] else []
  }

  function Restamp(line: Line, session: string): Line {
    if line.Record? then Record(session, line.body) else line
  }

  function RestampAll(lines: seq<Line>, session: string): (r: seq<Line>)
    ensures |r| == |lines|
  {
    if lines == [] then [] else [Restamp(lines[0], session)] + RestampAll(lines[1..], session)
  }

  /** Line by line: a record keeps its body and gets the session id, any other line
      stays as it is. */
  lemma {:induction false} RestampTells(lines: seq<Line>, session: string)
    ensures var r := RestampAll(lines, session);
            && |r| == |lines|
            && forall i :: 0 <= i < |lines| ==>
                 r[i] == if lines[i].Record? then Record(session, lines[i].body) else lines[i]
  {
    if lines != [] {
      RestampTells(lines[1..], session);
    }
  }

  /** `open(p, "a")` */
  function Touch(disk: Disk, p: Path): Disk {
    disk[p := Contents(disk, p)]
  }

  /** The rewrite of one file into another; `false` when it raised. */
  function Rewrite(disk: Disk, from: Path, to: Path, session: string, r: Rewriting): (Disk, bool) {
    if from !in disk || r.NoSource? || r.NoTarget? then (disk, false)
    else
      var lines := RestampAll(disk[from], session);
      match r
      case Partial(n) => (disk[to := if n < |lines| then lines[..n] else lines], false)
      case _ => (disk[to := lines], true)
  }

  // ---- The writer ------------------------------------------------------------

  /** One item from the queue to the file. */
  function WriterTurn(s: Log): Log {
    if !s.writing || s.queue == [] || s.handle.None? then s
    else s.(disk := s.disk[s.handle.value := Contents(s.disk, s.handle.value) + [s.queue[0]]],
            queue := s.queue[1..])
  }

  /** Sentinel and join: the writer drains the queue and ends; the handle is closed.
      A thread that is already gone drains nothing. */
  function Stop(s: Log): Log {
    var drained :=
      if s.writing && s.handle.Some? && s.queue != []
      then s.(disk := s.disk[s.handle.value := Contents(s.disk, s.handle.value) + s.queue], queue := [])
      else s;
    drained.(writing := false, handle := None)
  }

  /** A fresh queue, and a writer on it unless the thread cannot start. */
  function Restart(s: Log, starts: bool): Log {
    s.(queue := [], writing := starts)
  }

  // ---- Operations ------------------------------------------------------------

  function Write(s: Log, line: Line): Log {
    if s.closed then s else s.(queue := s.queue + [line])
  }

  function Renamed(p: Path, tag: string): Path
    requires p.Jsonl?
  {
    Jsonl(p.stem + "_" + tag)
  }

  /** Reopening the old file and restarting the writer, as far as it gets. */
  function Resume(s: Log, p: Path, reopen: bool, restart: bool): Log {
    if !reopen then s
    else Restart(s.(disk := Touch(s.disk, p), handle := Some(p)), restart)
  }

  /** `prepare_rename`: the state after it, and what it returned unless it raised. */
  function Prepare(s: Log, tag: string, io: PrepareIO): (Log, Option<Prepared>)
    requires s.path.Jsonl?
  {
    var newPath := Renamed(s.path, tag);
    if tag == "" || newPath in s.disk then (s, None)
    else
      var stopped := Stop(s);
      var (disk, done) := Rewrite(stopped.disk, s.path, newPath, newPath.stem, io.rewriting);
      if done then
        var resumed := Resume(stopped.(disk := disk), s.path, io.reopen, io.restart);
        (resumed, if io.reopen && io.restart then Some(Prepared(s.path, newPath, newPath.stem)) else None)
      else if newPath in disk && !io.cleanup then (stopped.(disk := disk), None)
      else (Resume(stopped.(disk := disk - {newPath}), s.path, io.reopen, io.restart), None)
  }

  /** The `try` block of `commit_rename`: rewrite, replace, open the new file, remove
      the old one, swap, restart. */
  function TryCommit(s: Log, p: Prepared, io: CommitIO): (Log, bool) {
    var (disk, done) := Rewrite(s.disk, p.oldPath, Tmp(p.newPath), p.newSession, io.rewriting);
    if !done then (s.(disk := disk), false) else SwapIn(s.(disk := disk), p, io)
  }

  /** After the rewrite. */
  function SwapIn(s: Log, p: Prepared, io: CommitIO): (Log, bool)
    requires Tmp(p.newPath) in s.disk
  {
    var tmp := Tmp(p.newPath);
    if !io.replace then (s, false)
    else
      var replaced := s.disk[p.newPath := s.disk[tmp]] - {tmp};
      if !io.openNew || (p.oldPath in replaced && !io.removeOld) then (s.(disk := replaced), false)
      else
        var swapped := s.(disk := replaced - {p.oldPath}, path := p.newPath, session := p.newSession,
                          handle := Some(p.newPath));
        (Restart(swapped, io.restart), io.restart)
  }

  /** `commit_rename`: the state after it, and whether it returned normally. */
  function Commit(s: Log, p: Prepared, io: CommitIO): (Log, bool) {
    var (tried, ok) := TryCommit(Stop(s), p, io);
    if ok then (tried, true) else (Recover(tried, p, io), false)
  }

  /** The `except` branch: prefer the old file, fall back to the new one. */
  function Recover(s: Log, p: Prepared, io: CommitIO): Log {
    if Tmp(p.newPath) in s.disk && !io.cleanup then s
    else
      var clean := s.(disk := s.disk - {Tmp(p.newPath)});
      if p.oldPath in clean.disk then Resume(clean, p.oldPath, io.reopen, io.restartAgain)
      else Resume(clean.(path := p.newPath, session := p.newSession), p.newPath, io.reopen, io.restartAgain)
  }

  /** `rollback_rename`; `removes` is whether the delete works. */
  function Rollback(s: Log, p: Prepared, removes: bool): Log {
    if s.path == p.newPath || !removes then s else s.(disk := s.disk - {p.newPath})
  }

  /** `close`; `removes` is whether an empty file can be deleted. */
  function Close(s: Log, removes: bool): Log {
    if s.closed then s
    else
      var stopped := Stop(s).(closed := true);
      if Contents(stopped.disk, s.path) == [] && removes
      then stopped.(disk := stopped.disk - {s.path}) else stopped
  }

  // ---- What every operation keeps --------------------------------------------

  /** A writer appends to the canonical file; without one the log is closed and has
      nothing queued. */
  ghost predicate Sound(s: Log) {
    && s.path.Jsonl?
    && (s.writing ==> s.handle == Some(s.path) && s.path in s.disk)
    && (!s.writing ==> s.closed)
    && (s.closed ==> s.queue == [])
  }

  /** The canonical file and then the queue hold exactly the given records. */
  ghost predicate Holds(s: Log, accepted: seq<Line>) {
    Contents(s.disk, s.path) + s.queue == accepted
  }

  /** The calls that recover from a failed rename succeed themselves. */
  predicate PrepareRecovers(io: PrepareIO) {
    io.cleanup && io.reopen && io.restart
  }

  predicate CommitRecovers(io: CommitIO) {
    io.cleanup && io.reopen && io.restartAgain
  }

  /** Made for the file that is canonical now. */
  predicate Fresh(s: Log, p: Prepared) {
    p.oldPath == s.path && s.path in s.disk && p.newPath.Jsonl? && p.newPath != p.oldPath
  }

  lemma StopHolds(s: Log, accepted: seq<Line>)
    requires Sound(s) && Holds(s, accepted)
    ensures var t := Stop(s);
            && Contents(t.disk, t.path) == accepted && t.queue == []
            && t.path == s.path && t.session == s.session && t.closed == s.closed
            && !t.writing && t.handle.None?
            && (forall q :: q != s.path ==> (q in t.disk <==> q in s.disk))
            && (s.path in t.disk <==> s.path in s.disk)
  {
    assert accepted == Contents(s.disk, s.path) + s.queue;
    if s.queue == [] {
      assert accepted == Contents(s.disk, s.path);
    }
  }

  lemma WriteKeeps(s: Log, line: Line, accepted: seq<Line>)
    requires Sound(s) && Holds(s, accepted)
    ensures Sound(Write(s, line))
    ensures Holds(Write(s, line), if s.closed then accepted else accepted + [line])
  {
    assert Contents(s.disk, s.path) + (s.queue + [line]) == Contents(s.disk, s.path) + s.queue + [line];
  }

  lemma TurnKeeps(s: Log, accepted: seq<Line>)
    requires Sound(s) && Holds(s, accepted)
    ensures Sound(WriterTurn(s)) && Holds(WriterTurn(s), accepted)
  {
    if s.queue != [] {
      assert s.queue == [s.queue[0]] + s.queue[1..];
      assert Contents(s.disk, s.path) + [s.queue[0]] + s.queue[1..] == Contents(s.disk, s.path) + s.queue;
    }
  }

  lemma LongerName(p: Path, tag: string)
    requires p.Jsonl?
    ensures Renamed(p, tag) != p
  {
    assert |Renamed(p, tag).stem| > |p.stem|;
  }

  /** Exactly when a preparation leaves a working log: it was refused before it touched
      anything, or the log was closed, or the old file was reopened with a writer on it
      after a half-written sidecar, if there was one, could be removed. */
  predicate PrepareResumes(s: Log, tag: string, io: PrepareIO)
    requires s.path.Jsonl?
  {
    || tag == "" || Renamed(s.path, tag) in s.disk || s.closed
    || (io.reopen && io.restart && (s.path in s.disk && io.rewriting.Partial? ==> io.cleanup))
  }

  /** Whatever fails, `prepare_rename` leaves the accepted records where they were. */
  lemma PrepareKeeps(s: Log, tag: string, io: PrepareIO, accepted: seq<Line>)
    requires Sound(s) && Holds(s, accepted)
    ensures var (t, r) := Prepare(s, tag, io);
            && Holds(t, accepted) && t.path == s.path && t.session == s.session
            && (Sound(t) <==> PrepareResumes(s, tag, io))
            && (PrepareRecovers(io) ==> Sound(t))
            && (r.Some? ==> Fresh(t, r.value) && t.disk[r.value.newPath] == RestampAll(accepted, r.value.newSession))
  {
    hide RestampAll, Stop;
    LongerName(s.path, tag);
    StopHolds(s, accepted);
    assert accepted + [] == accepted;
  }

  /** When a preparation succeeds, and what it names: the sidecar beside the canonical
      file, every accepted line at its place in it. Nothing else on the disk changes. */
  lemma PrepareTells(s: Log, tag: string, io: PrepareIO, accepted: seq<Line>)
    requires Sound(s) && Holds(s, accepted)
    ensures var (t, r) := Prepare(s, tag, io); var name := s.path.stem + "_" + tag;
            && (r.Some? <==>
                  && tag != "" && Jsonl(name) !in s.disk && s.path in s.disk
                  && io.rewriting.Complete? && io.reopen && io.restart)
            && (r.Some? ==> r.value == Prepared(s.path, Jsonl(name), name) && Jsonl(name) in t.disk)
            && (r.Some? ==>
                  var sidecar := t.disk[Jsonl(name)];
                  && |sidecar| == |accepted|
                  && forall i :: 0 <= i < |accepted| ==>
                       sidecar[i] == if accepted[i].Record? then Record(name, accepted[i].body) else accepted[i])
            && (forall q :: q != s.path && q != Jsonl(name) ==> Contents(t.disk, q) == Contents(s.disk, q))
  {
    hide RestampAll;
    LongerName(s.path, tag);
    StopHolds(s, accepted);
    OthersStay(s);
    hide Stop;
    RestampTells(accepted, s.path.stem + "_" + tag);
  }

  lemma OthersStay(s: Log)
    requires Sound(s)
    ensures forall q :: q != s.path ==> Contents(Stop(s).disk, q) == Contents(s.disk, q)
  {
  }

  /** Nothing queued, and either still on the untouched old file, or on the complete
      new one with the old one gone. */
  ghost predicate Halfway(t: Log, p: Prepared, accepted: seq<Line>) {
    && t.queue == []
    && (|| (t.path == p.oldPath && p.oldPath in t.disk && t.disk[p.oldPath] == accepted && !t.writing)
        || (t.path == p.newPath && p.newPath in t.disk && t.disk[p.newPath] == RestampAll(accepted, p.newSession)
            && p.oldPath !in t.disk && t.handle == Some(p.newPath)))
  }

  lemma TryCommitKeeps(s: Log, p: Prepared, io: CommitIO, accepted: seq<Line>)
    requires Halfway(s, p, accepted) && s.path == p.oldPath
    requires p.oldPath.Jsonl? && p.newPath.Jsonl? && p.newPath != p.oldPath
    ensures var (t, ok) := TryCommit(s, p, io);
            Halfway(t, p, accepted) && t.closed == s.closed && (ok <==> t.writing) && (ok ==> t.path == p.newPath)
  {
    hide RestampAll;
  }

  lemma RecoverKeeps(s: Log, p: Prepared, io: CommitIO, accepted: seq<Line>)
    requires Halfway(s, p, accepted) && !s.writing
    requires p.oldPath.Jsonl? && p.newPath.Jsonl? && p.newPath != p.oldPath
    ensures var t := Recover(s, p, io);
            && t.path == s.path && t.closed == s.closed && t.queue == []
            && t.path in t.disk && t.disk[t.path] == s.disk[s.path]
            && (t.writing <==> io.reopen && io.restartAgain && (Tmp(p.newPath) in s.disk ==> io.cleanup))
            && (t.writing ==> t.handle == Some(t.path))
  {
  }

  /** The recovery branch gets a writer running: the temporary file, if it is there, can
      be removed, and the file that is canonical then is reopened with a writer on it. */
  predicate CommitResumes(s: Log, p: Prepared, io: CommitIO) {
    io.reopen && io.restartAgain && (Tmp(p.newPath) in TryCommit(Stop(s), p, io).0.disk ==> io.cleanup)
  }

  /** Whatever fails, committing a fresh rename loses nothing: the canonical file,
      old or new, holds all accepted records, with the new session id if it is new. */
  lemma CommitKeeps(s: Log, p: Prepared, io: CommitIO, accepted: seq<Line>)
    requires Sound(s) && Holds(s, accepted) && Fresh(s, p)
    ensures var (t, ok) := Commit(s, p, io);
            && (Sound(t) <==> ok || s.closed || CommitResumes(s, p, io))
            && (ok ==> t.path == p.newPath && p.oldPath !in t.disk)
            && t.path in {p.oldPath, p.newPath}
            && Holds(t, if t.path == s.path then accepted else RestampAll(accepted, p.newSession))
            && (ok || CommitRecovers(io) ==> Sound(t))
  {
    hide RestampAll, Stop, TryCommit, Recover;
    StopHolds(s, accepted);
    TryCommitKeeps(Stop(s), p, io, accepted);
    var (tried, ok) := TryCommit(Stop(s), p, io);
    if !ok {
      RecoverKeeps(tried, p, io, accepted);
    }
    assert accepted + [] == accepted;
    assert RestampAll(accepted, p.newSession) + [] == RestampAll(accepted, p.newSession);
  }

  /** When a commit succeeds, and what the canonical file then holds: every accepted
      line at its place, records with their own bodies and the new session id. It is the
      same when a failed commit falls back to the new file. */
  lemma CommitTells(s: Log, p: Prepared, io: CommitIO, accepted: seq<Line>)
    requires Sound(s) && Holds(s, accepted) && Fresh(s, p)
    ensures var (t, ok) := Commit(s, p, io); var file := Contents(t.disk, t.path);
            && (ok <==> io.rewriting.Complete? && io.replace && io.openNew && io.removeOld && io.restart)
            && (t.path == p.newPath <==> io.rewriting.Complete? && io.replace && io.openNew && io.removeOld)
            && t.queue == [] && |file| == |accepted|
            && (t.path == s.path ==> t.session == s.session && file == accepted)
            && (t.path != s.path ==> t.path == p.newPath && t.session == p.newSession)
            && (t.path != s.path ==>
                  forall i :: 0 <= i < |accepted| ==>
                    file[i] == if accepted[i].Record? then Record(p.newSession, accepted[i].body) else accepted[i])
  {
    hide RestampAll, Stop, TryCommit, Recover;
    StopHolds(s, accepted);
    RestampTells(accepted, p.newSession);
    TryCommitKeeps(Stop(s), p, io, accepted);
    WhatCommits(Stop(s), p, io);
    var (tried, ok) := TryCommit(Stop(s), p, io);
    if !ok {
      RecoverKeeps(tried, p, io, accepted);
      RecoverKeepsSession(tried, p, io, accepted);
    }
  }

  lemma RecoverKeepsSession(s: Log, p: Prepared, io: CommitIO, accepted: seq<Line>)
    requires Halfway(s, p, accepted) && p.newPath != p.oldPath && p.oldPath.Jsonl? && p.newPath.Jsonl?
    requires s.path == p.newPath ==> s.session == p.newSession
    ensures Recover(s, p, io).session == s.session
  {
    hide RestampAll;
  }

  lemma WhatCommits(s: Log, p: Prepared, io: CommitIO)
    requires p.oldPath in s.disk && p.newPath != p.oldPath && p.newPath.Jsonl? && p.oldPath.Jsonl? && s.path == p.oldPath
    ensures var (t, ok) := TryCommit(s, p, io);
            && (ok <==> io.rewriting.Complete? && io.replace && io.openNew && io.removeOld && io.restart)
            && (t.path == p.newPath <==> io.rewriting.Complete? && io.replace && io.openNew && io.removeOld)
            && t.session == (if t.path == p.newPath then p.newSession else s.session)
  {
    hide RestampAll;
  }

  /** A rollback never deletes the canonical file, not even after a commit that
      fell back to the new one. */
  lemma RollbackKeeps(s: Log, p: Prepared, removes: bool, accepted: seq<Line>)
    requires Sound(s) && Holds(s, accepted)
    ensures Sound(Rollback(s, p, removes)) && Holds(Rollback(s, p, removes), accepted)
  {
  }

  lemma CloseKeeps(s: Log, removes: bool, accepted: seq<Line>)
    requires Sound(s) && Holds(s, accepted)
    ensures Sound(Close(s, removes)) && Holds(Close(s, removes), accepted)
  {
    if !s.closed {
      StopHolds(s, accepted);
      assert accepted + [] == accepted;
    }
  }

  // ---- Runs ------------------------------------------------------------------

  datatype Event =
    | Accept(line: Line)
    | Turn
    | DoPrepare(tag: string, prepareIO: PrepareIO)
    | DoCommit(prepared: Prepared, commitIO: CommitIO)
    | DoRollback(prepared: Prepared, removes: bool)
    | DoClose(removes: bool)

  ghost function Step(s: Log, e: Event): Log
    requires s.path.Jsonl?
  {
    match e
    case Accept(line) => Write(s, line)
    case Turn => WriterTurn(s)
    case DoPrepare(tag, io) => Prepare(s, tag, io).0
    case DoCommit(p, io) => Commit(s, p, io).0
    case DoRollback(p, removes) => Rollback(s, p, removes)
    case DoClose(removes) => Close(s, removes)
  }

  /** The records the log owes after an event. */
  ghost function Owed(s: Log, e: Event, accepted: seq<Line>): seq<Line>
    requires s.path.Jsonl?
  {
    match e
    case Accept(line) => if s.closed then accepted else accepted + [line]
    case DoCommit(p, io) =>
      if Commit(s, p, io).0.path == s.path then accepted else RestampAll(accepted, p.newSession)
    case _ => accepted
  }

  /** Recovery calls succeed, and a commit is made with a fresh rename. */
  ghost predicate Allowed(s: Log, e: Event) {
    match e
    case DoPrepare(_, io) => PrepareRecovers(io)
    case DoCommit(p, io) => Fresh(s, p) && CommitRecovers(io)
    case _ => true
  }

  /** Where a run leads, whatever fails in it. */
  ghost function Reached(s: Log, run: seq<Event>): Log
    decreases run
  {
    if run == [] || !s.path.Jsonl? then s else Reached(Step(s, run[0]), run[1..])
  }

  /** A log as its constructor leaves it. */
  function Opened(directory: Disk, stem: string): Log {
    Log(Touch(directory, Jsonl(stem)), Jsonl(stem), stem, [], true, Some(Jsonl(stem)), false)
  }

  lemma OpenedHolds(directory: Disk, stem: string)
    ensures Sound(Opened(directory, stem)) && Holds(Opened(directory, stem), Contents(directory, Jsonl(stem)))
  {
    assert Contents(directory, Jsonl(stem)) + [] == Contents(directory, Jsonl(stem));
  }

  ghost predicate AllowedRun(s: Log, run: seq<Event>)
    requires s.path.Jsonl?
    decreases run
  {
    run != [] ==> Allowed(s, run[0]) && Step(s, run[0]).path.Jsonl? && AllowedRun(Step(s, run[0]), run[1..])
  }

  ghost function After(s: Log, run: seq<Event>): Log
    requires s.path.Jsonl? && AllowedRun(s, run)
    decreases run
  {
    if run == [] then s else After(Step(s, run[0]), run[1..])
  }

  ghost function OwedAfter(s: Log, run: seq<Event>, accepted: seq<Line>): seq<Line>
    requires s.path.Jsonl? && AllowedRun(s, run)
    decreases run
  {
    if run == [] then accepted else OwedAfter(Step(s, run[0]), run[1..], Owed(s, run[0], accepted))
  }

  /** Over every run, failures included, file and queue hold all accepted records,
      once each and in order, restamped by each rename that took effect. */
  lemma {:induction false} EveryRunHolds(s: Log, run: seq<Event>, accepted: seq<Line>)
    requires Sound(s) && Holds(s, accepted) && AllowedRun(s, run)
    ensures Sound(After(s, run)) && Holds(After(s, run), OwedAfter(s, run, accepted))
    decreases run
  {
    if run != [] {
      var e := run[0];
      match e {
        case Accept(line) => WriteKeeps(s, line, accepted);
        case Turn => TurnKeeps(s, accepted);
        case DoPrepare(tag, io) => PrepareKeeps(s, tag, io, accepted);
        case DoCommit(p, io) => CommitKeeps(s, p, io, accepted);
        case DoRollback(p, removes) => RollbackKeeps(s, p, removes, accepted);
        case DoClose(removes) => CloseKeeps(s, removes, accepted);
      }
      EveryRunHolds(Step(s, e), run[1..], Owed(s, e, accepted));
    }
  }

  function TakenBy(closed: bool, e: Event): seq<Line> {
    if e.Accept? && !closed then [e.line] else []
  }

  /** The lines of a run that are accepted: those before it is closed. */
  function Taken(closed: bool, run: seq<Event>): seq<Line>
    decreases run
  {
    if run == [] then [] else TakenBy(closed, run[0]) + Taken(closed || run[0].DoClose?, run[1..])
  }

  /** The same lines but for the session ids of records. */
  ghost predicate SameBodies(a: seq<Line>, b: seq<Line>) {
    && |a| == |b|
    && forall i :: 0 <= i < |a| ==> if a[i].Record? then b[i].Record? && b[i].body == a[i].body else b[i] == a[i]
  }

  lemma OwedBodies(s: Log, e: Event, accepted: seq<Line>, originals: seq<Line>)
    requires Sound(s) && Holds(s, accepted) && Allowed(s, e) && SameBodies(originals, accepted)
    ensures SameBodies(originals + TakenBy(s.closed, e), Owed(s, e, accepted))
  {
    hide Commit, RestampAll;
    assert originals + [] == originals;
    if e.DoCommit? {
      RestampTells(accepted, e.prepared.newSession);
    }
  }

  /** Only closing closes. */
  lemma StepCloses(s: Log, e: Event)
    requires s.path.Jsonl?
    ensures Step(s, e).closed == (s.closed || e.DoClose?)
  {
    hide RestampAll, Contents;
  }

  /** Over every such run the canonical file and then the queue hold the lines that were
      accepted, each once and in order, with their own bodies. */
  lemma {:induction false} EveryRunKeepsBodies(s: Log, run: seq<Event>, accepted: seq<Line>, originals: seq<Line>)
    requires Sound(s) && Holds(s, accepted) && AllowedRun(s, run) && SameBodies(originals, accepted)
    ensures var t := After(s, run); var held, taken := Contents(t.disk, t.path) + t.queue, originals + Taken(s.closed, run);
            && |held| == |taken|
            && forall i :: 0 <= i < |held| ==>
                 if taken[i].Record? then held[i].Record? && held[i].body == taken[i].body else held[i] == taken[i]
    decreases run
  {
    hide SameBodies, Step, Owed, Contents, Allowed;
    if run == [] {
      assert originals + [] == originals;
      assert SameBodies(originals, accepted);
      SameBodiesTell(originals, accepted);
    } else {
      var e := run[0];
      EveryRunHolds(s, [e], accepted);
      OneStep(s, e, accepted);
      OwedBodies(s, e, accepted, originals);
      StepCloses(s, e);
      EveryRunKeepsBodies(Step(s, e), run[1..], Owed(s, e, accepted), originals + TakenBy(s.closed, e));
      TakenFirst(s.closed, run, originals);
    }
  }

  lemma TakenFirst(closed: bool, run: seq<Event>, originals: seq<Line>)
    requires run != []
    ensures originals + TakenBy(closed, run[0]) + Taken(closed || run[0].DoClose?, run[1..]) == originals + Taken(closed, run)
  {
    hide TakenBy;
    var first, rest := TakenBy(closed, run[0]), Taken(closed || run[0].DoClose?, run[1..]);
    assert originals + first + rest == originals + (first + rest);
  }

  lemma OneStep(s: Log, e: Event, accepted: seq<Line>)
    requires s.path.Jsonl? && Allowed(s, e) && Step(s, e).path.Jsonl?
    ensures AllowedRun(s, [e]) && After(s, [e]) == Step(s, e) && OwedAfter(s, [e], accepted) == Owed(s, e, accepted)
  {
    hide Step, Owed, Allowed;
    assert [e][1..] == [];
  }

  lemma SameBodiesTell(a: seq<Line>, b: seq<Line>)
    requires SameBodies(a, b)
    ensures |a| == |b|
    ensures forall i :: 0 <= i < |a| ==> if a[i].Record? then b[i].Record? && b[i].body == a[i].body else b[i] == a[i]
  {
  }

  // ---- Exactly when records are lost -----------------------------------------

  /** Without a writer, the records queued are lost by the next rename attempt, which
      starts a new queue: all of them, and nothing else. */
  lemma WithoutWriterTheQueueIsLost(s: Log, tag: string, io: PrepareIO, accepted: seq<Line>)
    requires s.path.Jsonl? && !s.writing && Holds(s, accepted)
    requires tag != "" && Renamed(s.path, tag) !in s.disk && PrepareRecovers(io)
    ensures Holds(Prepare(s, tag, io).0, Contents(s.disk, s.path))
    ensures Holds(Prepare(s, tag, io).0, accepted) <==> s.queue == []
  {
    LongerName(s.path, tag);
    var t := Prepare(s, tag, io).0;
    assert Contents(t.disk, t.path) + t.queue == Contents(s.disk, s.path);
  }

  lemma ReachedThree(s: Log, a: Event, b: Event, c: Event)
    requires s.path.Jsonl? && Step(s, a).path.Jsonl? && Step(Step(s, a), b).path.Jsonl?
    ensures Reached(s, [a, b, c]) == Step(Step(Step(s, a), b), c)
  {
    hide Step;
    var u := Step(s, a);
    var v := Step(u, b);
    assert [a, b, c][1..] == [b, c] && [b, c][1..] == [c] && [c][1..] == [];
    assert Reached(v, [c]) == Reached(Step(v, c), []) == Step(v, c);
    assert Reached(u, [b, c]) == Reached(v, [c]);
  }

  /** From an opened log: a preparation that cannot reopen the old file, a record, and
      a second preparation that works. The record is gone. */
  lemma FailedReopenLosesRecord(directory: Disk, stem: string, tag: string, again: string,
                                io: PrepareIO, later: PrepareIO, line: Line)
    requires tag != "" && again != "" && tag != again && !io.reopen && PrepareRecovers(later)
    requires Renamed(Jsonl(stem), tag) !in directory && Renamed(Jsonl(stem), again) !in directory
    ensures var before := Contents(directory, Jsonl(stem));
            var t := Reached(Opened(directory, stem), [DoPrepare(tag, io), Accept(line), DoPrepare(again, later)]);
            Holds(t, before) && !Holds(t, before + [line])
  {
    var s, before := Opened(directory, stem), Contents(directory, Jsonl(stem));
    OpenedHolds(directory, stem);
    OtherName(Jsonl(stem), tag, again);
    LongerName(Jsonl(stem), again);
    NoReopen(s, tag, again, io, before);
    var u := Prepare(s, tag, io).0;
    var v := Write(u, line);
    assert Holds(v, before + [line]) && v.queue == [line];
    WithoutWriterTheQueueIsLost(v, again, later, before + [line]);
    hide Prepare, Holds;
    ReachedThree(s, DoPrepare(tag, io), Accept(line), DoPrepare(again, later));
  }

  /** A preparation that gets as far as reopening and fails there. */
  lemma NoReopen(s: Log, tag: string, again: string, io: PrepareIO, before: seq<Line>)
    requires Sound(s) && Holds(s, before) && !s.closed && s.queue == [] && tag != "" && !io.reopen
    requires Renamed(s.path, tag) !in s.disk && Renamed(s.path, again) !in s.disk
    requires Renamed(s.path, again) != Renamed(s.path, tag) && Renamed(s.path, again) != s.path
    ensures var u := Prepare(s, tag, io).0;
            && u.path == s.path && !u.writing && !u.closed && u.queue == []
            && Contents(u.disk, u.path) == before && Renamed(s.path, again) !in u.disk
  {
    LongerName(s.path, tag);
    StopHolds(s, before);
    hide RestampAll;
  }

  lemma OtherName(p: Path, tag: string, again: string)
    requires p.Jsonl? && tag != again
    ensures Renamed(p, tag) != Renamed(p, again)
  {
    var n := |p.stem| + 1;
    assert Renamed(p, tag).stem[n..] == tag && Renamed(p, again).stem[n..] == again;
  }

  /** Committing a rename whose old file is gone (another rename was committed in
      between) keeps the records if and only if it names the canonical file, or the
      file it names happens to be a complete restamped copy. */
  lemma StaleCommit(s: Log, p: Prepared, io: CommitIO, accepted: seq<Line>)
    requires Sound(s) && Holds(s, accepted) && CommitRecovers(io)
    requires p.oldPath !in s.disk && p.oldPath != s.path && p.newPath.Jsonl?
    ensures var t := Commit(s, p, io).0;
            && t.path == p.newPath
            && (Holds(t, if t.path == s.path then accepted else RestampAll(accepted, p.newSession)) <==>
                p.newPath == s.path || Contents(s.disk, p.newPath) == RestampAll(accepted, p.newSession))
  {
    StopHolds(s, accepted);
    var stopped, t := Stop(s), Commit(s, p, io).0;
    assert Contents(t.disk, p.newPath) + [] == Contents(t.disk, p.newPath);
    assert p.newPath != s.path ==> Contents(stopped.disk, p.newPath) == Contents(s.disk, p.newPath);
  }

  /** The calls of an uneventful preparation and commit. */
  const ALL_WELL := PrepareIO(Complete, true, true, true)
  const COMMITS := CommitIO(Complete, true, true, true, true, true, true, true)

  /** Two renames prepared from an opened log, the first committed, a record accepted,
      and then the second commit: whatever fails in it, so long as it recovers, the
      canonical file is the older copy and the record is gone. */
  lemma StaleCommitLoses(directory: Disk, stem: string, a: string, b: string, io: CommitIO, line: Line)
    requires a != "" && b != "" && a != b && CommitRecovers(io)
    requires Renamed(Jsonl(stem), a) !in directory && Renamed(Jsonl(stem), b) !in directory
    ensures var old_, first, second := Jsonl(stem), Renamed(Jsonl(stem), a), Renamed(Jsonl(stem), b);
            var before := Contents(directory, old_);
            var run := [DoPrepare(a, ALL_WELL), DoPrepare(b, ALL_WELL),
                        DoCommit(Prepared(old_, first, first.stem), COMMITS), Accept(line),
                        DoCommit(Prepared(old_, second, second.stem), io)];
            var s := Opened(directory, stem);
            && Prepare(s, a, ALL_WELL).1 == Some(Prepared(old_, first, first.stem))
            && Prepare(Step(s, run[0]), b, ALL_WELL).1 == Some(Prepared(old_, second, second.stem))
            && Holds(Reached(s, run[..4]), RestampAll(before, first.stem) + [line])
            && Holds(Reached(s, run), RestampAll(before, second.stem))
            && !Holds(Reached(s, run), RestampAll(RestampAll(before, first.stem) + [line], second.stem))
  {
    var old_, first, second := Jsonl(stem), Renamed(Jsonl(stem), a), Renamed(Jsonl(stem), b);
    var s, before := Opened(directory, stem), Contents(directory, Jsonl(stem));
    var e0, e1 := DoPrepare(a, ALL_WELL), DoPrepare(b, ALL_WELL);
    var p, q := Prepared(old_, first, first.stem), Prepared(old_, second, second.stem);
    var e2, e3, e4 := DoCommit(p, COMMITS), Accept(line), DoCommit(q, io);
    OpenedHolds(directory, stem);
    LongerName(old_, a);
    LongerName(old_, b);
    OtherName(old_, a, b);
    TwoPrepared(s, a, b, before);
    var s2 := Step(Step(s, e0), e1);
    FirstCommitted(s2, p, q, before);
    var s3 := Step(s2, e2);
    WriteKeeps(s3, line, RestampAll(before, first.stem));
    SecondCommitted(Write(s3, line), q, io, before, RestampAll(before, first.stem) + [line]);
    hide Step, Prepare, Commit, RestampAll, Holds;
    ReachedFive(s, e0, e1, e2, e3, e4);
  }

  lemma ReachedFive(s: Log, a: Event, b: Event, c: Event, d: Event, e: Event)
    requires s.path.Jsonl? && Step(s, a).path.Jsonl? && Step(Step(s, a), b).path.Jsonl?
    requires Step(Step(Step(s, a), b), c).path.Jsonl? && Step(Step(Step(Step(s, a), b), c), d).path.Jsonl?
    ensures Reached(s, [a, b, c, d, e]) == Step(Step(Step(Step(Step(s, a), b), c), d), e)
    ensures Reached(s, [a, b, c, d, e][..4]) == Step(Step(Step(Step(s, a), b), c), d)
  {
    hide Step;
    var u := Step(Step(s, a), b);
    ReachedThree(u, c, d, e);
    assert [a, b, c, d, e][1..] == [b, c, d, e] && [b, c, d, e][1..] == [c, d, e];
    assert [a, b, c, d, e][..4] == [a, b, c, d] && [a, b, c, d][1..] == [b, c, d];
    ReachedThree(Step(s, a), b, c, d);
  }

  lemma TwoPrepared(s: Log, a: string, b: string, before: seq<Line>)
    requires Sound(s) && Holds(s, before) && !s.closed && s.queue == [] && a != "" && b != "" && a != b
    requires Renamed(s.path, a) !in s.disk && Renamed(s.path, b) !in s.disk
    ensures var first, second := Renamed(s.path, a), Renamed(s.path, b);
            var t := Prepare(s, a, ALL_WELL); var u := Prepare(t.0, b, ALL_WELL);
            && t.1 == Some(Prepared(s.path, first, first.stem)) && u.1 == Some(Prepared(s.path, second, second.stem))
            && Sound(u.0) && Holds(u.0, before) && !u.0.closed && u.0.queue == [] && u.0.path == s.path
            && second in u.0.disk && u.0.disk[second] == RestampAll(before, second.stem)
            && first != s.path && second != s.path && first != second
  {
    hide RestampAll;
    LongerName(s.path, a);
    LongerName(s.path, b);
    OtherName(s.path, a, b);
    PrepareKeeps(s, a, ALL_WELL, before);
    PrepareKeeps(Prepare(s, a, ALL_WELL).0, b, ALL_WELL, before);
  }

  lemma FirstCommitted(s: Log, p: Prepared, q: Prepared, before: seq<Line>)
    requires Sound(s) && Holds(s, before) && !s.closed && s.queue == [] && Fresh(s, p)
    requires q.newPath.Jsonl? && q.newPath != p.newPath && q.newPath != p.oldPath && q.newPath in s.disk
    ensures var t := Commit(s, p, COMMITS).0;
            && Sound(t) && Holds(t, RestampAll(before, p.newSession)) && !t.closed
            && t.path == p.newPath && p.oldPath !in t.disk
            && q.newPath in t.disk && t.disk[q.newPath] == s.disk[q.newPath]
  {
    hide RestampAll;
    CommitKeeps(s, p, COMMITS, before);
  }

  lemma SecondCommitted(s: Log, q: Prepared, io: CommitIO, before: seq<Line>, accepted: seq<Line>)
    requires Sound(s) && Holds(s, accepted) && CommitRecovers(io) && |accepted| == |before| + 1
    requires q.oldPath !in s.disk && q.oldPath != s.path && q.newPath.Jsonl? && q.newPath != s.path
    requires Contents(s.disk, q.newPath) == RestampAll(before, q.newSession)
    ensures var t := Commit(s, q, io).0;
            Holds(t, RestampAll(before, q.newSession)) && !Holds(t, RestampAll(accepted, q.newSession))
  {
    hide RestampAll;
    StaleCommit(s, q, io, accepted);
    StaleCommitKeepsCopy(s, q, io, accepted);
    assert RestampAll(before, q.newSession) + [] == RestampAll(before, q.newSession);
  }

  lemma StaleCommitKeepsCopy(s: Log, q: Prepared, io: CommitIO, accepted: seq<Line>)
    requires Sound(s) && Holds(s, accepted) && CommitRecovers(io)
    requires q.oldPath !in s.disk && q.oldPath != s.path && q.newPath.Jsonl? && q.newPath != s.path
    ensures var t := Commit(s, q, io).0;
            t.path == q.newPath && t.queue == [] && Contents(t.disk, q.newPath) == Contents(s.disk, q.newPath)
  {
    hide RestampAll;
    StopHolds(s, accepted);
  }

  // ---- New sessions ------------------------------------------------------------

  /** `prepare_new_session`: the new file is opened for appending while the old one is
      still in use. */
  function OpenNewSession(s: Log, newPath: Path): Log {
    s.(disk := Touch(s.disk, newPath))
  }

  /** `commit_new_session` up to the join: sentinel in, writer drained. The lock is
      free again from here on. */
  function JoinOldWriter(s: Log): Log {
    Stop(s)
  }

  /** The rest of it: the old file goes if it is empty, and a new queue starts on the
      handle that was opened. If both are one file, that handle loses its name. */
  function EndNewSession(s: Log, newPath: Path, session: string, removes: bool): Log {
    var removed := s.path in s.disk && s.disk[s.path] == [] && removes;
    s.(disk := if removed then s.disk - {s.path} else s.disk, path := newPath, session := session, queue := [],
       writing := true, handle := Some(if removed && newPath == s.path then Unlinked(newPath) else newPath))
  }

  function NewSession(s: Log, window: seq<Line>, newPath: Path, session: string, removes: bool): Log {
    EndNewSession(WriteAll(JoinOldWriter(OpenNewSession(s, newPath)), window), newPath, session, removes)
  }

  function WriteAll(s: Log, lines: seq<Line>): Log
    decreases lines
  {
    if lines == [] then s else WriteAll(Write(s, lines[0]), lines[1..])
  }

  lemma {:induction false} WriteAllQueues(s: Log, lines: seq<Line>)
    requires !s.closed
    ensures WriteAll(s, lines) == s.(queue := s.queue + lines)
    decreases lines
  {
    if lines == [] {
      assert s.queue + [] == s.queue;
    } else {
      WriteAllQueues(Write(s, lines[0]), lines[1..]);
      assert s.queue + [lines[0]] + lines[1..] == s.queue + lines;
    }
  }

  lemma JoinKeeps(s: Log, newPath: Path, accepted: seq<Line>)
    requires Sound(s) && !s.closed && Holds(s, accepted)
    ensures var t := JoinOldWriter(OpenNewSession(s, newPath));
            && t.path == s.path && !t.closed && t.queue == []
            && s.path in t.disk && t.disk[s.path] == accepted && newPath in t.disk
            && (newPath != s.path ==> t.disk[newPath] == Contents(s.disk, newPath))
  {
    var both := OpenNewSession(s, newPath);
    assert Holds(both, accepted) && Sound(both);
    StopHolds(both, accepted);
  }

  /** The old session keeps its records exactly when no record is accepted between
      the join and the new queue: those are the ones it loses. The new session then
      starts empty, unless it has the old one's path. */
  lemma NewSessionWindow(s: Log, window: seq<Line>, newPath: Path, session: string, removes: bool, accepted: seq<Line>)
    requires Sound(s) && !s.closed && Holds(s, accepted) && newPath.Jsonl?
    requires newPath != s.path ==> Contents(s.disk, newPath) == []
    ensures var t := NewSession(s, window, newPath, session, removes);
            && Contents(t.disk, s.path) == accepted
            && (Contents(t.disk, s.path) == accepted + window <==> window == [])
            && (newPath != s.path ==> Sound(t) && Holds(t, []))
            && (newPath == s.path ==> Holds(t, accepted) && (Sound(t) <==> accepted != [] || !removes))
  {
    JoinKeeps(s, newPath, accepted);
    var joined := JoinOldWriter(OpenNewSession(s, newPath));
    WriteAllQueues(joined, window);
    assert accepted + [] == accepted;
    assert window != [] ==> |accepted + window| > |accepted|;
  }

  /** A new session within the same second has the old one's path. Its first record is
      kept if and only if the old session has records or its file could not be
      removed: otherwise it is written to a file that has no name. */
  lemma SameSecondSession(s: Log, session: string, removes: bool, accepted: seq<Line>, line: Line)
    requires Sound(s) && !s.closed && Holds(s, accepted)
    ensures var t := NewSession(s, [], s.path, session, removes);
            Holds(WriterTurn(Write(t, line)), accepted + [line]) <==> accepted != [] || !removes
  {
    JoinKeeps(s, s.path, accepted);
    NewSessionWindow(s, [], s.path, session, removes, accepted);
    var t := NewSession(s, [], s.path, session, removes);
    WriteAllQueues(JoinOldWriter(OpenNewSession(s, s.path)), []);
    var after := WriterTurn(Write(t, line));
    assert t.queue == [] && Write(t, line).queue == [line];
    assert (accepted + [line]) + [] == accepted + [line];
    assert |accepted + [line]| == |accepted| + 1;
  }

  lemma TurnThenStop(s: Log)
    ensures Stop(WriterTurn(s)) == Stop(s)
  {
    if s.writing && s.queue != [] && s.handle.Some? {
      var before, rest := Contents(s.disk, s.handle.value), s.queue[1..];
      assert before + [s.queue[0]] + rest == before + s.queue;
      if rest == [] {
        assert before + [s.queue[0]] == before + s.queue;
      } else {
        assert Contents(WriterTurn(s).disk, s.handle.value) == before + [s.queue[0]];
      }
    }
  }

  // ---- The class -------------------------------------------------------------

  /** One of the two files holds every accepted record. */
  ghost predicate CompleteCopy(disk: Disk, p: Prepared, accepted: seq<Line>) {
    || (p.oldPath in disk && disk[p.oldPath] == accepted)
    || (p.newPath in disk && disk[p.newPath] == RestampAll(accepted, p.newSession))
  }

  /** Disks that differ only in the temporary file have the same complete copies. */
  lemma OnlyTheTarget(disk: Disk, history: seq<Disk>, tmp: Path, p: Prepared, accepted: seq<Line>)
    requires tmp != p.oldPath && tmp != p.newPath
    requires forall d :: d in history ==> d - {tmp} == disk - {tmp}
    ensures CompleteCopy(disk, p, accepted) ==> forall d :: d in history ==> CompleteCopy(d, p, accepted)
  {
    forall d | d in history && CompleteCopy(disk, p, accepted) ensures CompleteCopy(d, p, accepted) {
      assert forall q :: q != tmp ==> (q in d <==> q in d - {tmp}) && (q in disk <==> q in disk - {tmp});
      assert forall q :: q != tmp && q in d ==> d[q] == (d - {tmp})[q];
    }
  }

  class SessionLog {
    var disk: Disk
    var path: Path
    var session: string
    var queue: seq<Line>
    var writing: bool
    var handle: Option<Path>
    var closed: bool

    ghost function State(): Log
      reads this
    {
      Log(disk, path, session, queue, writing, handle, closed)
    }

    /** Opens (or creates) the file of a new session. */
    constructor (directory: Disk, stem: string)
      ensures State() == Opened(directory, stem)
    {
      path, session, closed := Jsonl(stem), stem, false;
      disk, handle := Touch(directory, Jsonl(stem)), Some(Jsonl(stem));
      queue, writing := [], true;
    }

    method WriteJsonl(line: Line)
      modifies this`queue
      ensures State() == Write(old(State()), line)
    {
      if closed {
        return;
      }
      queue := queue + [line];
    }

    /** One turn of the writer loop on an item. */
    method TakeTurn()
      modifies this`queue, this`disk
      ensures State() == WriterTurn(old(State()))
    {
      if writing && queue != [] && handle.Some? {
        disk := disk[handle.value := Contents(disk, handle.value) + [queue[0]]];
        queue := queue[1..];
      }
    }

    /** Sentinel, join, close: the writer takes turns until the queue is empty. */
    method StopWriter()
      modifies this`queue, this`disk, this`writing, this`handle
      ensures State() == Stop(old(State()))
    {
      while writing && handle.Some? && queue != []
        invariant Stop(State()) == Stop(old(State()))
        decreases |queue|
      {
        TurnThenStop(State());
        TakeTurn();
      }
      writing, handle := false, None;
    }

    method RestartWriter(starts: bool) returns (ok: bool)
      modifies this`queue, this`writing
      ensures State() == Restart(old(State()), starts) && ok == starts
    {
      queue := [];
      writing := starts;
      ok := starts;
    }

    /** The line-by-line rewrite; `ok` is false when it raised. `history` is the disk
        after each line: only the target changes. */
    method RewriteFile(from: Path, to: Path, newSession: string, r: Rewriting)
      returns (ok: bool, ghost history: seq<Disk>)
      requires from != to
      modifies this`disk
      ensures (disk, ok) == Rewrite(old(disk), from, to, newSession, r)
      ensures ok <==> from in old(disk) && r.Complete?
      ensures ok ==> to in disk && |disk[to]| == |old(disk)[from]|
      ensures ok ==> forall i :: 0 <= i < |disk[to]| ==>
                       var line := old(disk)[from][i];
                       disk[to][i] == if line.Record? then Record(newSession, line.body) else line
      ensures forall d :: d in history ==> d - {to} == old(disk) - {to}
      ensures disk - {to} == old(disk) - {to}
    {
      history := [];
      if from !in disk || r.NoSource? || r.NoTarget? {
        return false, history;
      }
      var lines := disk[from];
      disk := disk[to := []];
      history := [disk];
      var i := 0;
      while i < |lines|
        invariant forall d :: d in history ==> d - {to} == old(disk) - {to}
        invariant i <= |lines| && (r.Partial? ==> i <= r.lines)
        invariant |RestampAll(lines, newSession)| == |lines|
        invariant disk == old(disk)[to := RestampAll(lines, newSession)[..i]]
      {
        if r.Partial? && i == r.lines {
          return false, history;
        }
        RestampAt(lines, newSession, i);
        assert RestampAll(lines, newSession)[..i] + [RestampAll(lines, newSession)[i]] == RestampAll(lines, newSession)[..i + 1];
        disk := disk[to := disk[to] + [Restamp(lines[i], newSession)]];
        history := history + [disk];
        i := i + 1;
      }
      assert RestampAll(lines, newSession)[..i] == RestampAll(lines, newSession);
      RestampTells(lines, newSession);
      ok := !r.Partial?;
    }

    method ResumeOn(p: Path, reopen: bool, restart: bool) returns (ok: bool)
      modifies this`disk, this`handle, this`queue, this`writing
      ensures State() == Resume(old(State()), p, reopen, restart) && ok == (reopen && restart)
    {
      if !reopen {
        return false;
      }
      disk := Touch(disk, p);
      handle := Some(p);
      ok := RestartWriter(restart);
    }

    method PrepareRename(tag: string, io: PrepareIO) returns (r: Option<Prepared>)
      requires path.Jsonl?
      modifies this
      ensures (State(), r) == Prepare(old(State()), tag, io)
    {
      if tag == "" {
        return None;
      }
      var newPath := Renamed(path, tag);
      if newPath in disk {
        return None;
      }
      LongerName(path, tag);
      StopWriter();
      var done, _ := RewriteFile(path, newPath, newPath.stem, io.rewriting);
      if !done {
        if newPath in disk && !io.cleanup {
          return None;
        }
        disk := disk - {newPath};
        var _ := ResumeOn(path, io.reopen, io.restart);
        return None;
      }
      var ok := ResumeOn(path, io.reopen, io.restart);
      if ok {
        return Some(Prepared(path, newPath, newPath.stem));
      }
      return None;
    }

    /** `history` is the disk from the drained queue on, after every change to it, every
        line written included: for a fresh rename one of the two files always is a
        complete copy. */
    method CommitRename(p: Prepared, io: CommitIO, ghost accepted: seq<Line>) returns (ok: bool, ghost history: seq<Disk>)
      requires p.newPath.Jsonl? && p.oldPath.Jsonl?
      modifies this
      ensures (State(), ok) == Commit(old(State()), p, io)
      ensures history != [] && history[|history| - 1] == disk
      ensures old(Sound(State()) && Holds(State(), accepted) && Fresh(State(), p)) ==>
                forall d :: d in history ==> CompleteCopy(d, p, accepted)
    {
      ghost var good := Sound(State()) && Holds(State(), accepted) && Fresh(State(), p);
      if good {
        StopHolds(State(), accepted);
      }
      StopWriter();
      ok, history := TrySwap(p, io, accepted);
      if !ok {
        ghost var more := RecoverRename(p, io, accepted);
        history := history + more;
      }
    }

    method TrySwap(p: Prepared, io: CommitIO, ghost accepted: seq<Line>) returns (ok: bool, ghost history: seq<Disk>)
      requires p.newPath.Jsonl? && p.oldPath.Jsonl?
      modifies this
      ensures (State(), ok) == TryCommit(old(State()), p, io)
      ensures history != [] && history[|history| - 1] == disk
      ensures p.newPath != p.oldPath && old(CompleteCopy(disk, p, accepted)) && old(Contents(disk, p.oldPath)) == accepted ==>
                forall d :: d in history ==> CompleteCopy(d, p, accepted)
    {
      hide RestampAll;
      history := [disk];
      var tmp := Tmp(p.newPath);
      var done;
      ghost var lines;
      done, lines := RewriteFile(p.oldPath, tmp, p.newSession, io.rewriting);
      if tmp != p.oldPath {
        OnlyTheTarget(old(disk), lines + [disk], tmp, p, accepted);
      }
      history := history + lines + [disk];
      if !done {
        return false, history;
      }
      ghost var more;
      ok, more := SwapFiles(p, io, accepted);
      history := history + more;
    }

    /** Replace, open, remove, swap, restart. */
    method SwapFiles(p: Prepared, io: CommitIO, ghost accepted: seq<Line>) returns (ok: bool, ghost history: seq<Disk>)
      requires p.newPath.Jsonl? && p.oldPath.Jsonl? && Tmp(p.newPath) in disk
      modifies this
      ensures (State(), ok) == SwapIn(old(State()), p, io)
      ensures history != [] && history[|history| - 1] == disk
      ensures p.newPath != p.oldPath && old(CompleteCopy(disk, p, accepted))
              && old(disk[Tmp(p.newPath)]) == RestampAll(accepted, p.newSession) ==>
                forall d :: d in history ==> CompleteCopy(d, p, accepted)
    {
      hide RestampAll;
      history := [disk];
      var tmp := Tmp(p.newPath);
      if !io.replace {
        return false, history;
      }
      disk := disk[p.newPath := disk[tmp]] - {tmp};
      history := history + [disk];
      if !io.openNew || (p.oldPath in disk && !io.removeOld) {
        return false, history;
      }
      disk := disk - {p.oldPath};
      history := history + [disk];
      path, session, handle := p.newPath, p.newSession, Some(p.newPath);
      ok := RestartWriter(io.restart);
    }

    /** The `except` branch. */
    method RecoverRename(p: Prepared, io: CommitIO, ghost accepted: seq<Line>) returns (ghost history: seq<Disk>)
      requires p.newPath.Jsonl? && p.oldPath.Jsonl?
      modifies this
      ensures State() == Recover(old(State()), p, io)
      ensures history != [] && history[|history| - 1] == disk
      ensures old(CompleteCopy(disk, p, accepted)) ==> forall d :: d in history ==> CompleteCopy(d, p, accepted)
    {
      var tmp := Tmp(p.newPath);
      history := [disk];
      if tmp in disk && !io.cleanup {
        return;
      }
      disk := disk - {tmp};
      history := history + [disk];
      var canonical := p.oldPath;
      if p.oldPath !in disk {
        canonical := p.newPath;
        path, session := p.newPath, p.newSession;
      }
      var _ := ResumeOn(canonical, io.reopen, io.restartAgain);
      history := history + [disk];
    }

    method RollbackRename(p: Prepared, removes: bool)
      modifies this`disk
      ensures State() == Rollback(old(State()), p, removes)
    {
      if path == p.newPath {
        return;
      }
      if removes {
        disk := disk - {p.newPath};
      }
    }

    method CloseLog(removes: bool)
      modifies this
      ensures State() == Close(old(State()), removes)
    {
      if closed {
        return;
      }
      closed := true;
      StopWriter();
      if Contents(disk, path) == [] && removes {
        disk := disk - {path};
      }
    }
  }

  lemma {:induction false} RestampAt(lines: seq<Line>, session: string, i: nat)
    requires i < |lines|
    ensures RestampAll(lines, session)[i] == Restamp(lines[i], session)
  {
    if i > 0 {
      RestampAt(lines[1..], session, i - 1);
    }
  }
}

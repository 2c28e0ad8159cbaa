/**
 internal/controller/policy_handlers.go and bootstrap.go: one update job as a
 transition system. Every lock acquisition, database write, listing and sleep of
 runUpdateJob is one step; agent reports, deletions, clock ticks and crashes
 interleave with them in any order.
 */
module UpdateRun {
  import opened Prelude
  import opened Model

  // ----- data -----

  type Status = string

  const WAITING: Status := "Waiting"
  const PREFETCHING: Status := "Prefetching"
  const STAGED: Status := "Staged"
  const INSTALLING: Status := "Installing"
  const COMPLETED: Status := "Completed"
  const DOWNLOAD_FAILED: Status := "DownloadFailed"
  const SIGNATURE_INVALID: Status := "SignatureInvalid"
  const INSTALL_FAILED: Status := "InstallFailed"
  const HEALTH_FAILED: Status := "HealthCheckFailed"
  const ROLLED_BACK: Status := "RolledBack"

  datatype Target = Target(id: string, nodeId: NodeId, depth: int, status: Status)

  datatype Phase = PrefetchPhase | InstallPhase
  datatype ActiveJob = ActiveJob(phase: Phase, installNode: NodeId, statusByNode: map<NodeId, Status>)
  datatype JobStatus = JobCreated | JobRunning | JobCompleted

  /** Waiting for every target to fetch the release, then marking the ones that did not. */
  datatype PrefetchStep =
    | Test(round: nat)
    | Scan(round: nat, at: nat, pending: nat)
    | Sleep(round: nat)
    | MarkList
    | Marking(at: nat)
    | MarkSet(at: nat)
    | EnterInstall

  /** The turn of one target. */
  datatype InstallStep =
    | Pick
    | NotStaged
    | Grant
    | WaitTest(waited: nat)
    | WaitRead(waited: nat)
    | WaitSleep(waited: nat)
    | Timeout
    | Clear

  datatype ControllerStep = CtrlPick | CtrlMark | CtrlRun

  /** Where the orchestrator is; `i` indexes its local list of targets. */
  datatype Pc =
    | Idle
    | Down
    | Resuming
    | Starting
    | Prefetch(pre: PrefetchStep)
    | InstallList
    | Install(i: nat, ins: InstallStep)
    | Controllers(c: nat, ctl: ControllerStep)
    | PersistDone
    | ClearActive
    | RestartSelf

  /**
   `rows` and `job` are persisted; `active`, `targets`, `deadline` and `restart` live in
   the controller process; `grants` (indices into `targets`) and `settled` record the run.
   */
  datatype State = State(
    pc: Pc,
    rows: map<string, Target>,
    job: JobStatus,
    controllers: set<NodeId>,
    live: set<NodeId>,
    active: Option<ActiveJob>,
    targets: seq<Target>,
    clock: int,
    deadline: int,
    restart: bool,
    grants: seq<nat>,
    settled: set<NodeId>)

  /**
   Resolution of what the source leaves open: a listing's tie order, how long a sleep takes, whether the local install
   works.
   */
  datatype Choice = Choice(listing: seq<Target>, slept: nat, installed: bool)

  // ----- statuses -----

  predicate PrefetchOver(st: Status) {
    st == STAGED || st == COMPLETED || st == INSTALL_FAILED || st == DOWNLOAD_FAILED || st == SIGNATURE_INVALID
        || st == ROLLED_BACK
  }

  predicate KeptAfterPrefetch(st: Status) {
    st == STAGED || st == COMPLETED || st == INSTALL_FAILED || st == DOWNLOAD_FAILED
  }

  predicate SkippedAtInstall(st: Status) {
    st == COMPLETED || st == INSTALL_FAILED || st == ROLLED_BACK || st == DOWNLOAD_FAILED || st == SIGNATURE_INVALID
  }

  predicate InstallOver(st: Status) {
    st == COMPLETED || st == INSTALL_FAILED || st == ROLLED_BACK
  }

  /** What resumeOrFinalizeUpdates counts as terminal. */
  predicate Closed(st: Status) {
    SkippedAtInstall(st) || st == HEALTH_FAILED
  }

  function MemStatus(s: State, node: NodeId): Status {
    if s.active.Some? && node in s.active.value.statusByNode then s.active.value.statusByNode[node] else ""
  }

  /** Memory first, then the possibly stale row the orchestrator holds. */
  function Effective(s: State, t: Target): Status {
    var st := MemStatus(s, t.nodeId);
    if st == "" then t.status else st
  }

  // ----- shared updates -----

  function SetRow(rows: map<string, Target>, id: string, st: Status): map<string, Target> {
    if id in rows then rows[id := rows[id].(status := st)] else rows
  }

  function SetMem(active: Option<ActiveJob>, node: NodeId, st: Status): Option<ActiveJob> {
    match active
    case None => None
    case Some(a) => Some(a.(statusByNode := a.statusByNode[node := st]))
  }

  /** setUpdateNodeStatus, as one step. */
  function SetStatus(s: State, t: Target, st: Status): State {
    s.(rows := SetRow(s.rows, t.id, st), active := SetMem(s.active, t.nodeId, st))
  }

  function SetInstallNode(active: Option<ActiveJob>, node: NodeId): Option<ActiveJob> {
    match active
    case None => None
    case Some(a) => Some(a.(installNode := node))
  }

  /** A listing of the job's rows: each row once, ORDER BY depth DESC, ties in any order. */
  ghost predicate IsListing(rows: map<string, Target>, ts: seq<Target>) {
    && |ts| == |rows|
    && (forall t :: t in ts ==> t.id in rows && rows[t.id] == t)
    && (forall id :: id in rows ==> rows[id] in ts)
    && (forall i, j :: 0 <= i < j < |ts| ==> ts[i].id != ts[j].id)
    && (forall i, j :: 0 <= i < j < |ts| ==> ts[i].depth >= ts[j].depth)
  }

  /** The status a target enters a run with: controllers start staged unless already finished. */
  function StartStatus(t: Target, controllers: set<NodeId>): Status {
    var st := if t.status == WAITING then "" else t.status;
    if t.nodeId in controllers && st != COMPLETED && st != INSTALL_FAILED then STAGED else st
  }

  function StartStatuses(ts: seq<Target>, controllers: set<NodeId>): map<NodeId, Status> {
    if ts == [] then map[]
    else
      var m := StartStatuses(ts[..|ts| - 1], controllers);
      var t := ts[|ts| - 1];
      if StartStatus(t, controllers) == "" then m else m[t.nodeId := StartStatus(t, controllers)]
  }

  function StageControllers(rows: map<string, Target>, ts: seq<Target>, controllers: set<NodeId>): map<string, Target> {
    if ts == [] then rows
    else
      var m := StageControllers(rows, ts[..|ts| - 1], controllers);
      var t := ts[|ts| - 1];
      if t.nodeId in controllers && StartStatus(t, controllers) == STAGED then SetRow(m, t.id, STAGED) else m
  }

  const PREFETCH_SECONDS := 600
  const INSTALL_SECONDS := 300

  // ----- one step of the orchestrator -----

  predicate Lists(pc: Pc) {
    pc.Resuming? || pc.InstallList? || (pc.Prefetch? && (pc.pre.Sleep? || pc.pre.MarkList?))
  }

  function MinSleep(pc: Pc): nat {
    if pc.Prefetch? && pc.pre.Sleep? then 2 else if pc.Install? && pc.ins.WaitSleep? then 1 else 0
  }

  ghost predicate Legal(s: State, c: Choice) {
    && !s.pc.Idle?
    && (Lists(s.pc) ==> IsListing(s.rows, c.listing))
    && MinSleep(s.pc) <= c.slept
  }

  predicate AllClosed(ts: seq<Target>) {
    forall t :: t in ts ==> Closed(t.status)
  }

  function Advance(s: State, c: Choice): State {
    match s.pc
    case Idle => s
    case Down => s.(pc := Resuming, active := None)
    case Resuming => Resume(s, c.listing)
    case Starting => Begin(s)
    case Prefetch(pre) => AdvancePrefetch(s, pre, c)
    case InstallList => s.(pc := Install(0, Pick), targets := c.listing)
    case Install(i, ins) => AdvanceInstall(s, i, ins, c)
    case Controllers(i, ctl) => AdvanceControllers(s, i, ctl, c)
    case PersistDone => s.(pc := ClearActive, job := JobCompleted)
    case ClearActive => s.(pc := if s.restart then RestartSelf else Idle, active := None)
    case RestartSelf => s.(pc := Down, active := None)
  }

  /** resumeOrFinalizeUpdates: close a running job whose targets are all terminal, else run it again. */
  function Resume(s: State, listing: seq<Target>): State {
    if s.job != JobRunning then s.(pc := Idle)
    else if AllClosed(listing) then s.(pc := Idle, job := JobCompleted)
    else if s.active.Some? then s.(pc := Idle)
    else s.(pc := Starting, targets := listing)
  }

  function Begin(s: State): State {
    s.(pc := Prefetch(Test(0)),
       rows := StageControllers(s.rows, s.targets, s.controllers),
       active := Some(ActiveJob(PrefetchPhase, "", StartStatuses(s.targets, s.controllers))),
       deadline := s.clock + PREFETCH_SECONDS, restart := false, grants := [], settled := {})
  }

  function AdvancePrefetch(s: State, pre: PrefetchStep, c: Choice): State {
    match pre
    case Test(r) => s.(pc := Prefetch(if s.clock < s.deadline then Scan(r, 0, 0) else MarkList))
    case Scan(r, i, pending) =>
      if i >= |s.targets| then s.(pc := Prefetch(if pending == 0 then MarkList else Sleep(r)))
      else
        var t := s.targets[i];
        var over := t.nodeId in s.controllers || t.nodeId !in s.live || PrefetchOver(Effective(s, t));
        s.(pc := Prefetch(Scan(r, i + 1, if over then pending else pending + 1)))
    case Sleep(r) => s.(pc := Prefetch(Test(r + 1)), clock := s.clock + c.slept, targets := c.listing)
    case MarkList => s.(pc := Prefetch(Marking(0)), targets := c.listing)
    case Marking(i) =>
      if i >= |s.targets| then s.(pc := Prefetch(EnterInstall))
      else if s.targets[i].nodeId in s.controllers || KeptAfterPrefetch(Effective(s, s.targets[i]))
      then s.(pc := Prefetch(Marking(i + 1)))
      else s.(pc := Prefetch(MarkSet(i)))
    case MarkSet(i) =>
      if i >= |s.targets| then s.(pc := Prefetch(EnterInstall))
      else SetStatus(s, s.targets[i], DOWNLOAD_FAILED).(pc := Prefetch(Marking(i + 1)))
    case EnterInstall => s.(pc := InstallList, active := EnterInstallPhase(s.active))
  }

  function EnterInstallPhase(active: Option<ActiveJob>): Option<ActiveJob> {
    match active
    case None => None
    case Some(a) => Some(a.(phase := InstallPhase, installNode := ""))
  }

  function AdvanceInstall(s: State, i: nat, ins: InstallStep, c: Choice): State {
    if i >= |s.targets| then s.(pc := Controllers(0, CtrlPick))
    else
      var t := s.targets[i];
      match ins
      case Pick =>
        if t.nodeId in s.controllers then s.(pc := Install(i + 1, Pick))
        else if SkippedAtInstall(Effective(s, t)) then s.(pc := Install(i + 1, Pick), settled := s.settled + {t.nodeId})
        else if Effective(s, t) != STAGED && Effective(s, t) != INSTALLING then s.(pc := Install(i, NotStaged))
        else s.(pc := Install(i, Grant))
      case NotStaged =>
        SetStatus(s, t, INSTALL_FAILED).(pc := Install(i + 1, Pick), settled := s.settled + {t.nodeId})
      case Grant =>
        s.(pc := Install(i, WaitTest(0)), active := SetInstallNode(s.active, t.nodeId),
           deadline := s.clock + INSTALL_SECONDS, grants := s.grants + [i])
      case WaitTest(r) => s.(pc := Install(i, if s.clock < s.deadline then WaitRead(r) else Timeout))
      case WaitRead(r) =>
        if InstallOver(MemStatus(s, t.nodeId)) then s.(pc := Install(i, Clear), settled := s.settled + {t.nodeId})
        else s.(pc := Install(i, WaitSleep(r)))
      case WaitSleep(r) => s.(pc := Install(i, WaitTest(r + 1)), clock := s.clock + c.slept)
      case Timeout =>
        SetStatus(s, t, INSTALL_FAILED).(pc := Install(i, Clear), settled := s.settled + {t.nodeId})
      case Clear => s.(pc := Install(i + 1, Pick), active := SetInstallNode(s.active, ""))
  }

  function AdvanceControllers(s: State, i: nat, ctl: ControllerStep, c: Choice): State {
    if i >= |s.targets| then s.(pc := PersistDone)
    else
      var t := s.targets[i];
      match ctl
      case CtrlPick =>
        if t.nodeId !in s.controllers || t.nodeId !in s.live then s.(pc := Controllers(i + 1, CtrlPick))
        else if MemStatus(s, t.nodeId) == COMPLETED then s.(pc := PersistDone, restart := true)
        else s.(pc := Controllers(i, CtrlMark))
      case CtrlMark => SetStatus(s, t, INSTALLING).(pc := Controllers(i, CtrlRun))
      case CtrlRun =>
        SetStatus(s, t, if c.installed then COMPLETED else INSTALL_FAILED)
        .(pc := Controllers(i + 1, CtrlPick), restart := s.restart || c.installed)
  }

  // ----- the environment -----

  datatype Event =
    | Orchestrator(c: Choice)
    | Report(node: NodeId, status: Status)
    | DeleteNode(node: NodeId)
    | Tick(seconds: nat)
    | Crash
    | StartJob(listing: seq<Target>)

  /** handleAgentUpdateReport for this job: any node may report any status at any time. */
  ghost function Reported(s: State, node: NodeId, st: Status): State {
    s.(rows := ReportedRows(s.rows, node, st), active := SetMem(s.active, node, st))
  }

  function ReportedRows(rows: map<string, Target>, node: NodeId, st: Status): map<string, Target> {
    map id | id in rows :: if rows[id].nodeId == node then rows[id].(status := st) else rows[id]
  }

  ghost predicate Enabled(s: State, e: Event) {
    match e
    case Orchestrator(c) => Legal(s, c)
    case Report(_, _) => !s.pc.Down?
    case DeleteNode(n) => !s.pc.Down? && n !in s.controllers
    case Tick(_) => true
    case Crash => !s.pc.Down?
    case StartJob(ts) => s.pc.Idle? && IsListing(s.rows, ts)
  }

  ghost function Next(s: State, e: Event): State {
    match e
    case Orchestrator(c) => Advance(s, c)
    case Report(n, st) => Reported(s, n, st)
    case DeleteNode(n) => s.(live := s.live - {n}, rows := map id | id in s.rows && s.rows[id].nodeId != n ::
                               s.rows[id])
    case Tick(d) => s.(clock := s.clock + d)
    case Crash => s.(pc := Down, active := None)
    case StartJob(ts) => s.(pc := Starting, job := JobRunning, targets := ts)
  }
}

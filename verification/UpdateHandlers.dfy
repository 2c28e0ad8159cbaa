/**
 The controller's update handlers (internal/controller/bootstrap.go, policy_handlers.go)
 and the agent's side of the protocol (internal/agent/agent.go), as objects that change
 in place. Their effects are the transitions of UpdateRun.
 */
module UpdateHandlers {
  import opened Prelude
  import opened Model
  import opened UpdateRun
  import opened UpdateSafety
  import opened ControlTree
  import Store
  import StoreSafety
  import Tables

  type JobId = string

  datatype Reply = Reply(jobId: JobId, phase: Phase)

  ghost predicate KeyedById(rows: map<string, Target>) {
    forall id :: id in rows ==> rows[id].id == id
  }

  ghost predicate OneRowPerNode(rows: map<string, Target>) {
    forall a, b :: a in rows && b in rows && rows[a].nodeId == rows[b].nodeId ==> a == b
  }

  /** The rows named by `done`, deepest first. */
  ghost predicate PartialListing(rows: map<string, Target>, done: set<string>, out: seq<Target>) {
    && done <= rows.Keys && |out| == |done| && DepthSorted(out) && DistinctIds(out)
    && (forall t :: t in out ==> t.id in done && rows[t.id] == t)
    && (forall id :: id in done ==> rows[id] in out)
  }

  lemma ListOneMore(rows: map<string, Target>, done: set<string>, out: seq<Target>, id: string)
    requires KeyedById(rows) && PartialListing(rows, done, out) && id in rows && id !in done
    ensures PartialListing(rows, done + {id}, InsertByDepth(out, rows[id]))
  {
    InsertMembers(out, rows[id]);
    InsertSorted(out, rows[id]);
    InsertDistinct(out, rows[id]);
  }

  lemma WholeListing(rows: map<string, Target>, done: set<string>, out: seq<Target>)
    requires PartialListing(rows, done, out) && done == rows.Keys
    ensures IsListing(rows, out)
  {
  }

  /** SELECT ... ORDER BY depth DESC. */
  method OrderByDepth(rows: map<string, Target>) returns (out: seq<Target>)
    requires KeyedById(rows)
    ensures IsListing(rows, out)
  {
    out := [];
    var left := rows.Keys;
    ghost var done: set<string> := {};
    while left != {}
      invariant left + done == rows.Keys && left !! done && PartialListing(rows, done, out)
      decreases left
    {
      var id :| id in left;
      ListOneMore(rows, done, out, id);
      out := InsertByDepth(out, rows[id]);
      left, done := left - {id}, done + {id};
    }
    WholeListing(rows, done, out);
  }

  /** The rows of the first `k` nodes. */
  ghost predicate TargetsOf(rows: map<string, Target>, ids: seq<string>, nodes: seq<Node>, k: nat)
    requires k <= |ids| == |nodes|
  {
    && (forall id :: id in rows ==> exists i :: 0 <= i < k && ids[i] == id)
    && forall i :: 0 <= i < k ==> TargetAt(rows, ids, nodes, i)
  }

  ghost predicate TargetAt(rows: map<string, Target>, ids: seq<string>, nodes: seq<Node>, i: nat)
    requires i < |ids| == |nodes|
  {
    ids[i] in rows && rows[ids[i]] == Target(ids[i], nodes[i].id, StoredDepth(ParentsOf(nodes), nodes[i].id), WAITING)
  }

  lemma AddTarget(rows: map<string, Target>, ids: seq<string>, nodes: seq<Node>, k: nat, depth: int)
    requires k < |ids| == |nodes| && NoDuplicates(ids) && TargetsOf(rows, ids, nodes, k)
    requires depth == StoredDepth(ParentsOf(nodes), nodes[k].id)
    ensures TargetsOf(rows[ids[k] := Target(ids[k], nodes[k].id, depth, WAITING)], ids, nodes, k + 1)
  {
    var rows' := rows[ids[k] := Target(ids[k], nodes[k].id, depth, WAITING)];
    forall i | 0 <= i < k ensures TargetAt(rows', ids, nodes, i) {
      assert TargetAt(rows, ids, nodes, i) && ids[i] != ids[k];
    }
    assert TargetAt(rows', ids, nodes, k);
  }

  lemma TargetIndex(rows: map<string, Target>, ids: seq<string>, nodes: seq<Node>, id: string) returns (i: nat)
    requires |ids| == |nodes| && TargetsOf(rows, ids, nodes, |ids|) && id in rows
    ensures i < |ids| && id == ids[i] && TargetAt(rows, ids, nodes, i) && nodes[i] in nodes
  {
    i :| 0 <= i < |ids| && ids[i] == id;
    assert TargetAt(rows, ids, nodes, i);
  }

  lemma TargetsAreRows(rows: map<string, Target>, ids: seq<string>, nodes: seq<Node>)
    requires |ids| == |nodes| && Tables.NodesOk(nodes) && TargetsOf(rows, ids, nodes, |ids|)
    ensures RowsOk(rows, ParentsOf(nodes)) && KeyedById(rows) && OneRowPerNode(rows)
  {
    forall id | id in rows
      ensures rows[id].id == id && rows[id].nodeId != ""
              && rows[id].depth == StoredDepth(ParentsOf(nodes), rows[id].nodeId)
    {
      var i := TargetIndex(rows, ids, nodes, id);
    }
    forall a, b | a in rows && b in rows && rows[a].nodeId == rows[b].nodeId ensures a == b {
      var i := TargetIndex(rows, ids, nodes, a);
      var j := TargetIndex(rows, ids, nodes, b);
    }
  }

  /** What the transition system starts from. */
  lemma NewJobIsInitial(rows: map<string, Target>, ids: seq<string>, nodes: seq<Node>, controllers: set<NodeId>,
                        live: set<NodeId>)
    requires |ids| == |nodes| && Tables.NodesOk(nodes) && TargetsOf(rows, ids, nodes, |ids|)
    ensures Initial(NewJob(rows, controllers, live), ParentsOf(nodes))
  {
    TargetsAreRows(rows, ids, nodes);
  }

  /** A job that was created and not started. */
  function NewJob(rows: map<string, Target>, controllers: set<NodeId>, live: set<NodeId>): State {
    State(Idle, rows, JobCreated, controllers, live, None, [], 0, 0, false, [], {})
  }

  class Server {
    const controllers: set<NodeId>
    var rowsOf: map<JobId, map<string, Target>>
    var activeJob: JobId
    var active: Option<ActiveJob>

    ghost predicate Valid()
      reads this
    {
      forall j :: j in rowsOf ==> KeyedById(rowsOf[j]) && OneRowPerNode(rowsOf[j])
    }

    constructor (controllers: set<NodeId>)
      ensures Valid() && this.controllers == controllers && rowsOf == map[] && active == None
    {
      this.controllers := controllers;
      rowsOf, activeJob, active := map[], "", None;
    }

    /** handleCreateUpdate: one waiting row per node, at the depth that NodeDepth gives, 0 if it fails. */
    method CreateUpdate(job: JobId, store: Store.Controller, ids: seq<string>)
      requires Valid() && Store.DbOk(store.Rows()) && |ids| == |store.nodes| && NoDuplicates(ids)
      modifies this`rowsOf
      ensures Valid() && job in rowsOf && rowsOf == old(rowsOf)[job := rowsOf[job]]
      ensures TargetsOf(rowsOf[job], ids, store.nodes, |ids|)
    {
      var rows := NewTargets(store, ids);
      TargetsAreRows(rows, ids, store.nodes);
      rowsOf := rowsOf[job := rows];
    }

    static method NewTargets(store: Store.Controller, ids: seq<string>) returns (rows: map<string, Target>)
      requires Store.DbOk(store.Rows()) && |ids| == |store.nodes| && NoDuplicates(ids)
      ensures TargetsOf(rows, ids, store.nodes, |ids|)
    {
      rows := map[];
      for i := 0 to |ids|
        invariant TargetsOf(rows, ids, store.nodes, i)
      {
        var depth, ok := store.NodeDepth(store.nodes[i].id);
        StoreSafety.StoredDepthIsNodeDepth(store.nodes, store.nodes[i], depth, ok);
        AddTarget(rows, ids, store.nodes, i, depth);
        rows := rows[ids[i] := Target(ids[i], store.nodes[i].id, depth, WAITING)];
      }
    }

    /** Rows of a job, deepest first. */
    method ListUpdateTargets(job: JobId) returns (out: seq<Target>)
      requires Valid()
      ensures job in rowsOf ==> IsListing(rowsOf[job], out)
      ensures job !in rowsOf ==> out == []
    {
      out := [];
      if job in rowsOf {
        out := OrderByDepth(rowsOf[job]);
      }
    }

    /** UPDATE update_targets ... WHERE id = ?, within one job. */
    method UpdateTargetStatus(job: JobId, id: string, status: Status)
      requires Valid()
      modifies this`rowsOf
      ensures Valid()
      ensures rowsOf == if job in old(rowsOf) then old(rowsOf)[job := SetRow(old(rowsOf)[job], id, status)]
              else old(rowsOf)
    {
      if job in rowsOf {
        rowsOf := rowsOf[job := SetRow(rowsOf[job], id, status)];
      }
    }

    /** A report changes the node's one row in its job and, if that job is active, its status in memory. */
    method HandleAgentUpdateReport(node: NodeId, job: JobId, status: Status)
      requires Valid()
      modifies this`rowsOf, this`active
      ensures Valid()
      ensures rowsOf == if job in old(rowsOf) then old(rowsOf)[job := ReportedRows(old(rowsOf)[job], node, status)]
              else old(rowsOf)
      ensures active == if activeJob == job then SetMem(old(active), node, status) else old(active)
    {
      var targets := ListUpdateTargets(job);
      ghost var found := false;
      for i := 0 to |targets|
        invariant !found && rowsOf == old(rowsOf) && active == old(active)
        invariant forall k :: 0 <= k < i ==> targets[k].nodeId != node
      {
        var t := targets[i];
        if t.nodeId == node {
          OnlyRow(rowsOf[job], t, node, status);
          UpdateTargetStatus(job, t.id, status);
          found := true;
          break;
        }
      }
      if !found && job in rowsOf { NoRow(rowsOf[job], targets, node, status); }
      if active.Some? && activeJob == job {
        active := Some(active.value.(statusByNode := active.value.statusByNode[node := status]));
      }
    }

    /** Who gets what: nothing without a job, prefetch to everyone, install to the current grantee alone. */
    method HandleAgentUpdate(node: NodeId) returns (reply: Option<Reply>)
      ensures active.None? ==> reply == None
      ensures active.Some? && active.value.phase == PrefetchPhase ==> reply == Some(Reply(activeJob, PrefetchPhase))
      ensures active.Some? && active.value.phase == InstallPhase ==>
                reply == if node !in controllers && MayInstall(active.value, node)
                         then Some(Reply(activeJob, InstallPhase)) else None
    {
      if active.None? {
        return None;
      }
      var phase := active.value.phase;
      if node in controllers {
        if phase == InstallPhase {
          return None;
        }
        return Some(Reply(activeJob, PrefetchPhase));
      }
      if phase == InstallPhase {
        var status := if node in active.value.statusByNode then active.value.statusByNode[node] else "";
        var ready := active.value.installNode;
        if status == COMPLETED {
          return None;
        }
        if status != STAGED && status != INSTALLING {
          return None;
        }
        if ready == "" || ready != node {
          return None;
        }
      }
      return Some(Reply(activeJob, phase));
    }

    /** setUpdateNodeStatus: the row, then the status in memory if the job is still the active one. */
    method SetUpdateNodeStatus(job: JobId, t: Target, status: Status)
      requires Valid()
      modifies this`rowsOf, this`active
      ensures Valid()
      ensures rowsOf ==
              if t.id != "" && job in old(rowsOf) then old(rowsOf)[job := SetRow(old(rowsOf)[job], t.id, status)]
              else old(rowsOf)
      ensures active == if activeJob == job then SetMem(old(active), t.nodeId, status) else old(active)
    {
      if t.id != "" {
        UpdateTargetStatus(job, t.id, status);
      }
      if active.Some? && activeJob == job {
        active := Some(active.value.(statusByNode := active.value.statusByNode[t.nodeId := status]));
      }
    }
  }

  lemma OnlyRow(rows: map<string, Target>, t: Target, node: NodeId, status: Status)
    requires KeyedById(rows) && OneRowPerNode(rows) && t.id in rows && rows[t.id] == t && t.nodeId == node
    ensures SetRow(rows, t.id, status) == ReportedRows(rows, node, status)
  {
  }

  lemma NoRow(rows: map<string, Target>, ts: seq<Target>, node: NodeId, status: Status)
    requires IsListing(rows, ts) && forall t :: t in ts ==> t.nodeId != node
    ensures ReportedRows(rows, node, status) == rows
  {
  }

  // ----- the agent -----

  class Agent {
    const nodeId: NodeId
    var reports: seq<(JobId, Status)>
    var restarts: nat

    constructor (nodeId: NodeId)
      ensures this.nodeId == nodeId && reports == [] && restarts == 0
    {
      this.nodeId := nodeId;
      reports, restarts := [], 0;
    }

    /** A report is posted once; whether it arrives is not looked at. */
    method ReportUpdate(job: JobId, status: Status)
      modifies this`reports
      ensures reports == old(reports) || reports == old(reports) + [(job, status)]
    {
      var arrives := *;
      if arrives {
        reports := reports + [(job, status)];
      }
    }

    /** One poll: announce the phase, do the work, report how it ended; restart exactly after a completed install. */
    method PollUpdate(reply: Option<Reply>, fetched: bool, staged: bool, activated: bool)
      modifies this`reports, this`restarts
      ensures reply == None ==> reports == old(reports)
      ensures reply.Some? ==>
                Arrived(old(reports), reports, (reply.value.jobId, Begun(reply.value.phase)),
                        (reply.value.jobId, Ended(reply.value.phase, fetched, staged && activated)))
      ensures restarts == old(restarts) +
                if reply.Some? && reply.value.phase == InstallPhase && staged && activated then 1 else 0
    {
      if reply.None? {
        return;
      }
      var u := reply.value;
      match u.phase
      case PrefetchPhase =>
        ReportUpdate(u.jobId, PREFETCHING);
        if !fetched {
          ReportUpdate(u.jobId, DOWNLOAD_FAILED);
          return;
        }
        ReportUpdate(u.jobId, STAGED);
      case InstallPhase =>
        ReportUpdate(u.jobId, INSTALLING);
        if !staged {
          ReportUpdate(u.jobId, INSTALL_FAILED);
          return;
        }
        if !activated {
          ReportUpdate(u.jobId, INSTALL_FAILED);
          return;
        }
        ReportUpdate(u.jobId, COMPLETED);
        restarts := restarts + 1;
    }
  }

  /** Both reports, one of them, or none; never in the other order. */
  predicate Arrived(before: seq<(JobId, Status)>, after: seq<(JobId, Status)>, first: (JobId, Status),
                    second: (JobId, Status)) {
    after == before || after == before + [first] || after == before + [second] || after == before + [first, second]
  }

  function Begun(phase: Phase): Status {
    if phase == PrefetchPhase then PREFETCHING else INSTALLING
  }

  function Ended(phase: Phase, fetched: bool, installed: bool): Status {
    if phase == PrefetchPhase then (if fetched then STAGED else DOWNLOAD_FAILED)
    else if installed then COMPLETED else INSTALL_FAILED
  }

  // ----- the answer to a grant -----

  /** The `i`-th target, node `x`, has been granted its turn, which is not over. */
  predicate InTurn(s: State, x: NodeId, i: nat) {
    Granted(s.pc) && s.pc.i == i && i < |s.targets| && s.targets[i].nodeId == x
  }

  /** And its status in memory says that it is through. */
  predicate Answered(s: State, x: NodeId, i: nat) {
    InTurn(s, x, i) && s.active.Some? && InstallOver(MemStatus(s, x))
  }

  /** Orchestrator steps until the grant is withdrawn. */
  function StepsLeft(ins: InstallStep): nat {
    match ins
    case WaitSleep(_) => 3
    case WaitTest(_) => 2
    case WaitRead(_) => 1
    case Timeout => 1
    case _ => 0
  }

  /** The last report of an agent that was told to install answers its grant. */
  lemma ReportAnswers(s: State, p: map<NodeId, NodeId>, n: nat, x: NodeId, i: nat, installed: bool)
    requires Inv(s, p, n) && InTurn(s, x, i)
    ensures Answered(Reported(s, x, Ended(InstallPhase, true, installed)), x, i)
  {
  }

  /**
   From then on, whatever else is reported, deleted or waited for: the node is not offered
   the install any more, and after at most three more steps of the orchestrator the grant
   is withdrawn and the next target's turn begins.
   */
  lemma AnsweredGrantEnds(s: State, p: map<NodeId, NodeId>, n: nat, x: NodeId, i: nat, e: Event)
    requires Inv(s, p, n) && Answered(s, x, i) && Enabled(s, e) && !e.Crash? && !(e.Report? && e.node == x)
    ensures !InstallOffered(s, x)
    ensures var s' := Next(s, e);
            if !e.Orchestrator? then s'.pc == s.pc && Answered(s', x, i)
            else if s.pc.ins.Clear? then s'.pc == Install(i + 1,
                                                          Pick) && s'.active.Some? && s'.active.value.installNode == ""
            else Answered(s', x, i) && StepsLeft(s'.pc.ins) < StepsLeft(s.pc.ins)
  {
    if e.Orchestrator? {
      assert Next(s, e) == AdvanceInstall(s, i, s.pc.ins, e.c);
    }
  }

  /** The answer is in memory, and the wait for it has not been given up. */
  predicate AnswerStands(s: State, x: NodeId, st: Status) {
    MemStatus(s, x) == st && !(s.pc.Install? && s.pc.ins.Timeout?)
  }

  /** The wait has been given up: the status is, or is about to be, INSTALL_FAILED. */
  predicate AnswerLost(s: State, x: NodeId) {
    s.pc.Install? && (s.pc.ins.Timeout? || (s.pc.ins.Clear? && MemStatus(s, x) == INSTALL_FAILED))
  }

  /** The loop's guard is tested, and the deadline has passed. */
  predicate TestedLate(s: State, e: Event) {
    e.Orchestrator? && s.pc.Install? && s.pc.ins.WaitTest? && s.clock >= s.deadline
  }

  /** Neither a crash nor another report of the node itself. */
  predicate LeavesAnswer(e: Event, x: NodeId) {
    !e.Crash? && !(e.Report? && e.node == x)
  }

  /** Within a turn only a late test loses an answer, and nothing brings it back. */
  ghost predicate AnswerMoves(s: State, s': State, x: NodeId, st: Status, late: bool) {
    && (AnswerStands(s, x, st) ==> if late then AnswerLost(s', x) else AnswerStands(s', x, st))
    && (AnswerLost(s, x) ==> AnswerLost(s', x))
  }

  lemma AnswerAdvance(s: State, x: NodeId, i: nat, st: Status, c: Choice)
    requires InTurn(s, x, i) && s.active.Some? && InstallOver(st)
    requires InTurn(AdvanceInstall(s, i, s.pc.ins, c), x, i)
    ensures AnswerMoves(s, AdvanceInstall(s, i, s.pc.ins, c), x, st, s.pc.ins.WaitTest? && s.clock >= s.deadline)
  {
  }

  lemma AnswerUntouched(s: State, x: NodeId, i: nat, st: Status, e: Event)
    requires InTurn(s, x, i) && Enabled(s, e) && LeavesAnswer(e, x) && !e.Orchestrator?
    ensures AnswerMoves(s, Next(s, e), x, st, false)
  {
    assert MemStatus(Next(s, e), x) == MemStatus(s, x);
  }

  lemma AnswerStep(s: State, x: NodeId, i: nat, st: Status, e: Event)
    requires s.active.Some? && Enabled(s, e) && LeavesAnswer(e, x) && InTurn(s, x, i) && InTurn(Next(s, e), x, i)
    requires InstallOver(st)
    ensures AnswerMoves(s, Next(s, e), x, st, TestedLate(s, e))
  {
    if e.Orchestrator? {
      assert Next(s, e) == AdvanceInstall(s, i, s.pc.ins, e.c);
      AnswerAdvance(s, x, i, st, e.c);
    } else {
      AnswerUntouched(s, x, i, st, e);
    }
  }

  /** A stretch of a run within the turn of `x`, in which `x` reports nothing more. */
  ghost predicate TurnRun(run: seq<State>, events: seq<Event>, p: map<NodeId, NodeId>, n: nat, x: NodeId, i: nat) {
    && IsRun(run, events) && Inv(run[0], p, n)
    && (forall j :: 0 <= j < |run| ==> InTurn(run[j], x, i))
    && (forall j :: 0 <= j < |events| ==> LeavesAnswer(events[j], x))
  }

  ghost predicate TestedInTime(run: seq<State>, events: seq<Event>, m: nat)
    requires m <= |events| <= |run|
  {
    forall j :: 0 <= j < m ==> !TestedLate(run[j], events[j])
  }

  lemma {:induction false} InvInTurn(run: seq<State>, events: seq<Event>, p: map<NodeId, NodeId>, n: nat, m: nat)
    requires IsRun(run, events) && Inv(run[0], p, n) && m < |run|
    ensures Inv(run[m], p, n)
    decreases m
  {
    if m > 0 {
      InvInTurn(run, events, p, n, m - 1);
      InvInRun(run, events, p, n, m);
    }
  }

  lemma ActiveInTurn(run: seq<State>, events: seq<Event>, p: map<NodeId, NodeId>, n: nat, x: NodeId, i: nat, m: nat)
    requires TurnRun(run, events, p, n, x, i) && m < |run|
    ensures run[m].active.Some?
  {
    InvInTurn(run, events, p, n, m);
  }

  lemma TurnStep(run: seq<State>, events: seq<Event>, p: map<NodeId, NodeId>, n: nat, x: NodeId, i: nat, st: Status,
                 m: nat)
    requires TurnRun(run, events, p, n, x, i) && 0 < m < |run| && InstallOver(st)
    ensures AnswerMoves(run[m - 1], run[m], x, st, TestedLate(run[m - 1], events[m - 1]))
  {
    ActiveInTurn(run, events, p, n, x, i, m - 1);
    assert StepOf(run, events, m - 1);
    AnswerStep(run[m - 1], x, i, st, events[m - 1]);
  }

  lemma {:induction false} AnswerFate(run: seq<State>, events: seq<Event>, p: map<NodeId, NodeId>, n: nat, x: NodeId,
                                      i: nat, st: Status, m: nat)
    requires TurnRun(run, events, p, n, x, i) && m < |run|
    requires AnswerStands(run[0], x, st) && InstallOver(st)
    ensures if TestedInTime(run, events, m) then AnswerStands(run[m], x, st) else AnswerLost(run[m], x)
    decreases m
  {
    if m > 0 {
      AnswerFate(run, events, p, n, x, i, st, m - 1);
      TurnStep(run, events, p, n, x, i, st, m);
    }
  }

  /**
   Under any interleaving: when the grant is about to be withdrawn, a completed or rolled back
   install still has the status its node reported if and only if the wait's guard was not
   tested after the deadline; otherwise its status is INSTALL_FAILED.
   */
  lemma AnswerKeptIff(run: seq<State>, events: seq<Event>, p: map<NodeId, NodeId>, n: nat, x: NodeId, i: nat,
                      st: Status)
    requires TurnRun(run, events, p, n, x, i) && run[|events|].pc.ins.Clear?
    requires AnswerStands(run[0], x, st) && InstallOver(st) && st != INSTALL_FAILED
    ensures MemStatus(run[|events|], x) == st <==> TestedInTime(run, events, |events|)
    ensures MemStatus(run[|events|], x) == st || MemStatus(run[|events|], x) == INSTALL_FAILED
  {
    AnswerFate(run, events, p, n, x, i, st, |events|);
  }

  /**
   From the guard on: two steps later the answer is still there if and only if the deadline has not passed. An
   answer that arrives during the last sleep before the deadline is not read but overwritten.
   */
  lemma LateAnswerOverwritten(s: State, p: map<NodeId, NodeId>, n: nat, x: NodeId, i: nat, r: nat, c1: Choice,
                              c2: Choice)
    requires Inv(s, p, n) && Answered(s, x, i) && s.pc == Install(i, WaitTest(r))
    ensures var s' := Advance(Advance(s, c1), c2);
            && s'.pc == Install(i, Clear)
            && (MemStatus(s, x) != INSTALL_FAILED ==> (MemStatus(s', x) == MemStatus(s, x) <==> s.clock < s.deadline))
            && (s.clock >= s.deadline ==> MemStatus(s', x) == INSTALL_FAILED)
            && (s.clock >= s.deadline && s.targets[i].id in s.rows ==>
                  s'.rows[s.targets[i].id].status == INSTALL_FAILED)
  {
    assert Advance(s, c1) == s.(pc := Install(i, if s.clock < s.deadline then WaitRead(r) else Timeout));
  }

  // ----- marking after prefetch -----

  /**
   The pass after prefetch. Two steps leave DOWNLOAD_FAILED in memory exactly for a target that is no controller and
   whose status is not among the kept ones. Among the statuses that end the wait, those are SIGNATURE_INVALID and
   ROLLED_BACK: what such a node reported is overwritten.
   */
  lemma MarkedIffNotKept(s: State, p: map<NodeId, NodeId>, n: nat, i: nat, c1: Choice, c2: Choice)
    requires Inv(s, p, n) && s.pc == Prefetch(Marking(i)) && i < |s.targets|
    requires Effective(s, s.targets[i]) != DOWNLOAD_FAILED
    ensures var st, x := Effective(s, s.targets[i]), s.targets[i].nodeId;
            && (MemStatus(Advance(Advance(s, c1), c2), x) == DOWNLOAD_FAILED <==>
                x !in s.controllers && !KeptAfterPrefetch(st))
            && (PrefetchOver(st) ==> (!KeptAfterPrefetch(st) <==> st == SIGNATURE_INVALID || st == ROLLED_BACK))
  {
    MarkedStatus(s, i, c1, c2);
  }

  lemma MarkedStatus(s: State, i: nat, c1: Choice, c2: Choice)
    requires s.active.Some? && s.pc == Prefetch(Marking(i)) && i < |s.targets|
    ensures var t := s.targets[i];
            MemStatus(Advance(Advance(s, c1), c2), t.nodeId) ==
            if t.nodeId !in s.controllers && !KeptAfterPrefetch(Effective(s, t)) then DOWNLOAD_FAILED
            else MemStatus(s, t.nodeId)
  {
    var t := s.targets[i];
    var marks := t.nodeId !in s.controllers && !KeptAfterPrefetch(Effective(s, t));
    assert Advance(s, c1) == s.(pc := Prefetch(if marks then MarkSet(i) else Marking(i + 1)));
  }
}

/**
 What every reachable state of an update job keeps: leaf-first serial grants, bounded
 rounds, completion, and recovery from crashes.
 */
module UpdateSafety {
  import opened Prelude
  import opened Model
  import opened ControlTree
  import opened UpdateRun

  /** NodeDepth with its error ignored: chains of more than 1000 edges count as depth 0. */
  const DEPTH_LIMIT: nat := 1000

  ghost function StoredDepth(p: Parents, x: NodeId): int {
    if DepthWithin(p, x, DEPTH_LIMIT) then TrueDepth(p, x) else 0
  }

  ghost function TrueDepth(p: Parents, x: NodeId): nat
    requires DepthWithin(p, x, DEPTH_LIMIT)
    ensures RootAt(p, x, TrueDepth(p, x)) && TrueDepth(p, x) <= DEPTH_LIMIT
  {
    var d: nat :| d <= DEPTH_LIMIT && RootAt(p, x, d);
    d
  }

  // ----- the invariant -----

  ghost predicate RowsOk(rows: map<string, Target>, p: Parents) {
    && (forall id :: id in rows ==>
          rows[id].id == id && rows[id].nodeId != "" && rows[id].depth == StoredDepth(p, rows[id].nodeId))
    && (forall a, b :: a in rows && b in rows && rows[a].nodeId == rows[b].nodeId ==> a == b)
  }

  ghost predicate TargetsOk(ts: seq<Target>, p: Parents) {
    && (forall t :: t in ts ==> t.nodeId != "" && t.depth == StoredDepth(p, t.nodeId))
    && (forall i, j :: 0 <= i < j < |ts| ==> ts[i].nodeId != ts[j].nodeId)
    && (forall i, j :: 0 <= i < j < |ts| ==> ts[i].depth >= ts[j].depth)
  }

  /** The grantee may install: between setting and clearing InstallNodeID. */
  predicate Granted(pc: Pc) {
    pc.Install? && !pc.ins.Pick? && !pc.ins.NotStaged? && !pc.ins.Grant?
  }

  /** A job is active in memory exactly during a run. */
  predicate InRun(pc: Pc) {
    pc.Prefetch? || pc.InstallList? || pc.Install? || pc.Controllers? || pc.PersistDone? || pc.ClearActive?
  }

  /** Turns that have started: all targets before this index, and none after. */
  function Turns(s: State): nat {
    match s.pc
    case Prefetch(_) => 0
    case InstallList => 0
    case Install(i, _) => if Granted(s.pc) then i + 1 else i
    case _ => |s.targets|
  }

  /** Turns that are over. */
  function TurnsOver(s: State): nat {
    if s.pc.Install? && s.pc.ins.Clear? then s.pc.i + 1 else if s.pc.Install? then s.pc.i else Turns(s)
  }

  predicate IndexOk(s: State) {
    match s.pc
    case Prefetch(pre) =>
      (pre.Scan? || pre.Marking? ==> pre.at <= |s.targets|) && (pre.MarkSet? ==> pre.at < |s.targets|)
    case Install(i, ins) =>
      && i <= |s.targets| && (!ins.Pick? ==> i < |s.targets|)
      && (ins.NotStaged? || ins.Grant? ==> s.targets[i].nodeId !in s.controllers)
    case Controllers(i, ctl) => i <= |s.targets| && (!ctl.CtrlPick? ==> i < |s.targets|)
    case _ => true
  }

  /** Grants are made in list order, each at most once, and only while turns have started. */
  ghost predicate GrantsOk(s: State) {
    && (forall k :: 0 <= k < |s.grants| ==> s.grants[k] < Turns(s) && s.grants[k] < |s.targets|
                                            && s.targets[s.grants[k]].nodeId !in s.controllers)
    && (forall k, m :: 0 <= k < m < |s.grants| ==> s.grants[k] < s.grants[m])
    && (Granted(s.pc) ==> s.grants != [] && s.grants[|s.grants| - 1] + 1 == Turns(s))
  }

  ghost predicate SettledOk(s: State) {
    forall j :: 0 <= j < TurnsOver(s) && j < |s.targets| ==>
             s.targets[j].nodeId in s.controllers || s.targets[j].nodeId in s.settled
  }

  predicate ActiveOk(s: State) {
    && (InRun(s.pc) <==> s.active.Some?)
    && (s.active.Some? ==>
          && (s.active.value.phase == PrefetchPhase <==> s.pc.Prefetch?)
          && s.active.value.installNode == if Granted(s.pc) && s.pc.i < |s.targets| then s.targets[s.pc.i].nodeId
             else "")
  }

  predicate JobOk(s: State) {
    match s.pc
    case Idle => s.job != JobRunning
    case RestartSelf => s.job == JobCompleted
    case ClearActive => s.job == JobCompleted
    case Down => true
    case Resuming => true
    case _ => s.job == JobRunning
  }

  /** Each sleep moves the clock on, so the deadline bounds the rounds. */
  predicate ClockOk(s: State) {
    match s.pc
    case Prefetch(pre) =>
      pre.Test? || pre.Scan? || pre.Sleep? ==>
        pre.round + (if pre.Test? then 0 else 1) <= 300 && s.clock >= s.deadline - PREFETCH_SECONDS + 2 * pre.round
    case Install(_, ins) =>
      ins.WaitTest? || ins.WaitRead? || ins.WaitSleep? ==>
        ins.waited + (if ins.WaitTest? then 0 else 1) <= 300 && s.clock >= s.deadline - INSTALL_SECONDS + ins.waited
    case _ => true
  }

  ghost predicate Inv(s: State, p: Parents, n: nat) {
    && RowsOk(s.rows, p) && |s.rows| <= n
    && ((InRun(s.pc) || s.pc.Starting?) ==> TargetsOk(s.targets, p) && |s.targets| <= n)
    && ControlOk(s) && HistoryOk(s)
  }

  // ----- the invariant is kept -----

  lemma SetRowKeeps(rows: map<string, Target>, id: string, st: Status, p: Parents)
    requires RowsOk(rows, p)
    ensures RowsOk(SetRow(rows, id, st), p) && |SetRow(rows, id, st)| == |rows|
  {
    assert SetRow(rows, id, st).Keys == rows.Keys;
  }

  lemma {:induction false} StageKeeps(rows: map<string, Target>, ts: seq<Target>, controllers: set<NodeId>, p: Parents)
    requires RowsOk(rows, p)
    ensures RowsOk(StageControllers(rows, ts, controllers), p) && |StageControllers(rows, ts, controllers)| == |rows|
    decreases |ts|
  {
    if ts != [] {
      StageKeeps(rows, ts[..|ts| - 1], controllers, p);
      SetRowKeeps(StageControllers(rows, ts[..|ts| - 1], controllers), ts[|ts| - 1].id, STAGED, p);
    }
  }

  lemma ListingOk(rows: map<string, Target>, ts: seq<Target>, p: Parents)
    requires RowsOk(rows, p) && IsListing(rows, ts)
    ensures TargetsOk(ts, p) && |ts| == |rows|
  {
    forall i, j | 0 <= i < j < |ts| ensures ts[i].nodeId != ts[j].nodeId {
      assert ts[i] in ts && ts[j] in ts && ts[i].id != ts[j].id;
    }
  }

  lemma SetStatusKeeps(s: State, t: Target, st: Status, p: Parents)
    requires RowsOk(s.rows, p)
    ensures RowsOk(SetStatus(s, t, st).rows, p) && |SetStatus(s, t, st).rows| == |s.rows|
  {
    SetRowKeeps(s.rows, t.id, st, p);
  }

  ghost predicate SameSize(s: State, s': State, p: Parents) {
    RowsOk(s'.rows, p) && |s'.rows| == |s.rows|
  }

  lemma InvRows(s: State, c: Choice, p: Parents)
    requires RowsOk(s.rows, p)
    ensures SameSize(s, Advance(s, c), p)
  {
    match s.pc
    case Starting => StageKeeps(s.rows, s.targets, s.controllers, p);
    case Prefetch(pre) => RowsPrefetch(s, pre, c, p);
    case Install(i, ins) => RowsInstall(s, i, ins, c, p);
    case Controllers(i, ctl) => RowsControllers(s, i, ctl, c, p);
    case Resuming => assert Advance(s, c).rows == s.rows;
    case _ =>
  }

  lemma RowsPrefetch(s: State, pre: PrefetchStep, c: Choice, p: Parents)
    requires RowsOk(s.rows, p)
    ensures SameSize(s, AdvancePrefetch(s, pre, c), p)
  {
    if pre.MarkSet? && pre.at < |s.targets| {
      SetStatusKeeps(s, s.targets[pre.at], DOWNLOAD_FAILED, p);
    } else {
      assert AdvancePrefetch(s, pre, c).rows == s.rows;
    }
  }

  lemma RowsInstall(s: State, i: nat, ins: InstallStep, c: Choice, p: Parents)
    requires RowsOk(s.rows, p)
    ensures SameSize(s, AdvanceInstall(s, i, ins, c), p)
  {
    if i < |s.targets| && (ins.NotStaged? || ins.Timeout?) {
      SetStatusKeeps(s, s.targets[i], INSTALL_FAILED, p);
    } else {
      assert AdvanceInstall(s, i, ins, c).rows == s.rows;
    }
  }

  lemma RowsControllers(s: State, i: nat, ctl: ControllerStep, c: Choice, p: Parents)
    requires RowsOk(s.rows, p)
    ensures SameSize(s, AdvanceControllers(s, i, ctl, c), p)
  {
    if i < |s.targets| && ctl.CtrlMark? {
      SetStatusKeeps(s, s.targets[i], INSTALLING, p);
    } else if i < |s.targets| && ctl.CtrlRun? {
      SetStatusKeeps(s, s.targets[i], if c.installed then COMPLETED else INSTALL_FAILED, p);
    } else {
      assert AdvanceControllers(s, i, ctl, c).rows == s.rows;
    }
  }

  /** Targets are replaced by a fresh listing or kept. */
  lemma TargetsStep(s: State, c: Choice)
    ensures var s' := Advance(s, c);
            && (s'.targets == s.targets || (Lists(s.pc) && s'.targets == c.listing))
            && (InRun(s'.pc) || s'.pc.Starting? ==> InRun(s.pc) || s.pc.Starting? || Lists(s.pc))
            && (s'.pc.Starting? ==> s.pc.Resuming? && s'.targets == c.listing)
  {
    match s.pc
    case Prefetch(pre) => TargetsPrefetch(s, pre, c);
    case Install(i, ins) =>
      assert AdvanceInstall(s, i, ins, c).targets == s.targets && !AdvanceInstall(s, i, ins, c).pc.Starting?;
    case Controllers(i, ctl) =>
      assert AdvanceControllers(s, i, ctl, c).targets == s.targets && !AdvanceControllers(s, i, ctl, c).pc.Starting?;
    case _ =>
  }

  lemma TargetsPrefetch(s: State, pre: PrefetchStep, c: Choice)
    ensures var s' := AdvancePrefetch(s, pre, c);
            !s'.pc.Starting? && s'.targets == if pre.Sleep? || pre.MarkList? then c.listing else s.targets
  {
  }

  lemma InvTargets(s: State, c: Choice, p: Parents, n: nat)
    requires RowsOk(s.rows, p) && |s.rows| <= n && (Lists(s.pc) ==> IsListing(s.rows, c.listing))
    requires (InRun(s.pc) || s.pc.Starting?) ==> TargetsOk(s.targets, p) && |s.targets| <= n
    ensures var s' := Advance(s, c);
            (InRun(s'.pc) || s'.pc.Starting?) ==> TargetsOk(s'.targets, p) && |s'.targets| <= n
  {
    TargetsStep(s, c);
    if Lists(s.pc) { ListingOk(s.rows, c.listing, p); }
  }

  ghost predicate ControlOk(s: State) {
    IndexOk(s) && JobOk(s) && ClockOk(s) && ActiveOk(s)
  }

  lemma ControlPrefetch(s: State, c: Choice)
    requires ControlOk(s) && s.pc.Prefetch? && MinSleep(s.pc) <= c.slept
    ensures ControlOk(AdvancePrefetch(s, s.pc.pre, c))
  {
  }

  lemma ControlInstall(s: State, c: Choice)
    requires ControlOk(s) && s.pc.Install? && MinSleep(s.pc) <= c.slept
    ensures IndexOk(AdvanceInstall(s, s.pc.i, s.pc.ins, c)) && JobOk(AdvanceInstall(s, s.pc.i, s.pc.ins, c))
    ensures ClockOk(AdvanceInstall(s, s.pc.i, s.pc.ins, c))
  {
  }

  lemma ActiveInstall(s: State, c: Choice)
    requires ControlOk(s) && s.pc.Install?
    ensures ActiveOk(AdvanceInstall(s, s.pc.i, s.pc.ins, c))
  {
  }

  lemma ControlControllers(s: State, c: Choice)
    requires ControlOk(s) && s.pc.Controllers?
    ensures ControlOk(AdvanceControllers(s, s.pc.c, s.pc.ctl, c))
  {
  }

  lemma InvControl(s: State, c: Choice)
    requires ControlOk(s) && !s.pc.Idle? && MinSleep(s.pc) <= c.slept
    ensures ControlOk(Advance(s, c))
  {
    match s.pc
    case Prefetch(_) => ControlPrefetch(s, c);
    case Install(_, _) =>
      ControlInstall(s, c);
      ActiveInstall(s, c);
    case Controllers(_, _) => ControlControllers(s, c);
    case _ =>
  }

  ghost predicate HistoryOk(s: State) {
    InRun(s.pc) ==> GrantsOk(s) && SettledOk(s)
  }

  lemma GrantsInstall(s: State, c: Choice)
    requires IndexOk(s) && s.pc.Install? && GrantsOk(s)
    ensures GrantsOk(AdvanceInstall(s, s.pc.i, s.pc.ins, c))
  {
    var s' := AdvanceInstall(s, s.pc.i, s.pc.ins, c);
    InstallLists(s, c);
    if s.pc.ins.Grant? {
      GrantAppends(s, s');
    } else {
      InstallTurns(s, c);
      GrantsUnchanged(s, s');
    }
  }

  lemma InstallLists(s: State, c: Choice)
    requires IndexOk(s) && s.pc.Install?
    ensures var s' := AdvanceInstall(s, s.pc.i, s.pc.ins, c);
            && s'.targets == s.targets && s'.controllers == s.controllers
            && s'.grants == (if s.pc.ins.Grant? then s.grants + [s.pc.i] else s.grants)
            && (s.pc.ins.Grant? ==> s'.pc == Install(s.pc.i, WaitTest(0)))
  {
  }

  /** Except by a grant, no turn starts. */
  lemma InstallTurns(s: State, c: Choice)
    requires IndexOk(s) && s.pc.Install? && !s.pc.ins.Grant?
    ensures var s' := AdvanceInstall(s, s.pc.i, s.pc.ins, c);
            Turns(s) <= Turns(s') && (Granted(s'.pc) ==> Granted(s.pc) && Turns(s) == Turns(s'))
  {
  }

  lemma GrantAppends(s: State, s': State)
    requires IndexOk(s) && GrantsOk(s) && s.pc.Install? && s.pc.ins.Grant?
    requires s'.pc.Install? && s'.pc.i == s.pc.i && Granted(s'.pc)
    requires s'.targets == s.targets && s'.controllers == s.controllers && s'.grants == s.grants + [s.pc.i]
    ensures GrantsOk(s')
  {
  }

  lemma GrantsUnchanged(s: State, s': State)
    requires GrantsOk(s) && s'.targets == s.targets && s'.controllers == s.controllers && s'.grants == s.grants
    requires Turns(s) <= Turns(s') && (Granted(s'.pc) ==> Granted(s.pc) && Turns(s) == Turns(s'))
    ensures GrantsOk(s')
  {
  }

  lemma SettledInstall(s: State, c: Choice)
    requires IndexOk(s) && s.pc.Install? && SettledOk(s)
    ensures SettledOk(AdvanceInstall(s, s.pc.i, s.pc.ins, c))
  {
  }

  lemma HistoryPrefetch(s: State, c: Choice)
    requires s.pc.Prefetch? && GrantsOk(s)
    ensures HistoryOk(AdvancePrefetch(s, s.pc.pre, c))
  {
    NoGrantsYet(s);
    var s' := AdvancePrefetch(s, s.pc.pre, c);
    assert s'.grants == [] && TurnsOver(s') == 0;
    FreshHistory(s');
  }

  lemma NoGrantsYet(s: State)
    requires GrantsOk(s)
    ensures Turns(s) == 0 ==> s.grants == []
  {
    if s.grants != [] {
      assert s.grants[0] < Turns(s);
    }
  }

  lemma HistoryControllers(s: State, c: Choice)
    requires s.pc.Controllers? && GrantsOk(s) && SettledOk(s)
    ensures HistoryOk(AdvanceControllers(s, s.pc.c, s.pc.ctl, c))
  {
    var s' := AdvanceControllers(s, s.pc.c, s.pc.ctl, c);
    assert s'.targets == s.targets && s'.controllers == s.controllers && s'.settled == s.settled;
    assert s'.grants == s.grants && Turns(s') == Turns(s) && !Granted(s'.pc);
  }

  lemma InvHistory(s: State, c: Choice)
    requires IndexOk(s) && HistoryOk(s)
    ensures HistoryOk(Advance(s, c))
  {
    match s.pc
    case Prefetch(_) => HistoryPrefetch(s, c);
    case Install(_, _) =>
      GrantsInstall(s, c);
      SettledInstall(s, c);
    case Controllers(_, _) => HistoryControllers(s, c);
    case _ => HistoryRest(s, c);
  }

  lemma HistoryRest(s: State, c: Choice)
    requires !s.pc.Prefetch? && !s.pc.Install? && !s.pc.Controllers? && HistoryOk(s)
    ensures HistoryOk(Advance(s, c))
  {
    var s' := Advance(s, c);
    if s.pc.InstallList? || s.pc.Starting? {
      if s.pc.InstallList? { NoGrantsYet(s); }
      FreshHistory(s');
    } else if s.pc.PersistDone? {
      GrantsUnchanged(s, s');
      SettledUnchanged(s, s');
    } else {
      assert !InRun(s'.pc);
    }
  }

  lemma SettledUnchanged(s: State, s': State)
    requires SettledOk(s) && s'.targets == s.targets && s'.controllers == s.controllers && s'.settled == s.settled
    requires TurnsOver(s') <= TurnsOver(s)
    ensures SettledOk(s')
  {
  }

  lemma FreshHistory(s: State)
    requires s.grants == [] && !Granted(s.pc) && TurnsOver(s) == 0
    ensures HistoryOk(s)
  {
  }

  lemma InvEnvironment(s: State, e: Event, p: Parents, n: nat)
    requires Inv(s, p, n) && Enabled(s, e) && !e.Orchestrator?
    ensures Inv(Next(s, e), p, n)
  {
    match e
    case Report(node, st) =>
      assert Next(s, e) == Reported(s, node, st);
      InvReport(s, node, st, p, n);
    case DeleteNode(node) => InvDelete(s, node, p, n);
    case StartJob(ts) => InvStart(s, ts, p, n);
    case Tick(d) =>
      assert Next(s, e) == s.(clock := s.clock + d);
      InvTick(s, d, p, n);
    case Crash => InvCrash(s, p, n);
  }

  lemma InvStart(s: State, ts: seq<Target>, p: Parents, n: nat)
    requires Inv(s, p, n) && Enabled(s, StartJob(ts))
    ensures Inv(Next(s, StartJob(ts)), p, n)
  {
    ListingOk(s.rows, ts, p);
  }

  lemma InvCrash(s: State, p: Parents, n: nat)
    requires Inv(s, p, n)
    ensures Inv(Next(s, Crash), p, n)
  {
    assert !InRun(s.(pc := Down, active := None).pc);
  }

  lemma InvDelete(s: State, node: NodeId, p: Parents, n: nat)
    requires Inv(s, p, n) && Enabled(s, DeleteNode(node))
    ensures Inv(Next(s, DeleteNode(node)), p, n)
  {
    var s' := Next(s, DeleteNode(node));
    KeysShrink(s.rows, s'.rows);
    SameControl(s, s');
  }

  lemma InvTick(s: State, d: nat, p: Parents, n: nat)
    requires Inv(s, p, n)
    ensures Inv(s.(clock := s.clock + d), p, n)
  {
    SameControl(s, s.(clock := s.clock + d));
  }

  /** Rows, the clock and the live nodes play no part in the history of a run. */
  lemma SameControl(s: State, s': State)
    requires ControlOk(s) && HistoryOk(s)
    requires s'.pc == s.pc && s'.job == s.job && s'.controllers == s.controllers && s'.active == s.active
    requires s'.targets == s.targets && s'.clock >= s.clock && s'.deadline == s.deadline
    requires s'.grants == s.grants && s'.settled == s.settled
    ensures ControlOk(s') && HistoryOk(s')
  {
    if InRun(s.pc) {
      GrantsUnchanged(s, s');
      SettledUnchanged(s, s');
    }
  }

  lemma InvReport(s: State, node: NodeId, st: Status, p: Parents, n: nat)
    requires Inv(s, p, n) && !s.pc.Down?
    ensures Inv(Reported(s, node, st), p, n)
  {
    assert ReportedRows(s.rows, node, st).Keys == s.rows.Keys;
    ReportControl(s, node, st);
  }

  lemma ReportControl(s: State, node: NodeId, st: Status)
    requires ControlOk(s) && HistoryOk(s)
    ensures ControlOk(Reported(s, node, st)) && HistoryOk(Reported(s, node, st))
  {
    if InRun(s.pc) {
      GrantsUnchanged(s, Reported(s, node, st));
      SettledUnchanged(s, Reported(s, node, st));
    }
  }

  lemma KeysShrink(m: map<string, Target>, k: map<string, Target>)
    requires k.Keys <= m.Keys
    ensures |k| <= |m|
  {
    assert |k.Keys| <= |m.Keys| by { SubsetSize(k.Keys, m.Keys); }
  }

  /** Every step of the orchestrator and of its environment keeps the invariant. */
  lemma InvStep(s: State, e: Event, p: Parents, n: nat)
    requires Inv(s, p, n) && Enabled(s, e)
    ensures Inv(Next(s, e), p, n)
  {
    if e.Orchestrator? {
      InvRows(s, e.c, p);
      InvTargets(s, e.c, p, n);
      InvControl(s, e.c);
      InvHistory(s, e.c);
    } else {
      InvEnvironment(s, e, p, n);
    }
  }

  // ----- runs -----

  /** A sequence of states, each the result of an enabled event in the one before. */
  ghost predicate IsRun(run: seq<State>, events: seq<Event>) {
    && |run| == |events| + 1
    && forall i :: 0 <= i < |events| ==> StepOf(run, events, i)
  }

  ghost predicate StepOf(run: seq<State>, events: seq<Event>, i: nat)
    requires i < |events| && i + 1 < |run|
  {
    Enabled(run[i], events[i]) && run[i + 1] == Next(run[i], events[i])
  }

  /** No run in memory, and rows as handleCreateUpdate writes them. */
  ghost predicate Initial(s: State, p: Parents) {
    s.pc.Idle? && s.job == JobCreated && s.active.None? && RowsOk(s.rows, p)
  }

  lemma {:induction false} ReachableInv(run: seq<State>, events: seq<Event>, p: Parents, n: nat, i: nat)
    requires IsRun(run, events) && Initial(run[0], p) && |run[0].rows| <= n && i < |run|
    ensures Inv(run[i], p, n)
    decreases i
  {
    if i > 0 {
      ReachableInv(run, events, p, n, i - 1);
      InvInRun(run, events, p, n, i);
    }
  }

  lemma InvInRun(run: seq<State>, events: seq<Event>, p: Parents, n: nat, i: nat)
    requires IsRun(run, events) && 0 < i <= |events| && Inv(run[i - 1], p, n)
    ensures Inv(run[i], p, n)
  {
    assert StepOf(run, events, i - 1);
    InvStep(run[i - 1], events[i - 1], p, n);
  }

  /** In every run, no prefetch phase and no granted turn takes more than 300 rounds. */
  lemma RoundsAreBounded(run: seq<State>, events: seq<Event>, p: Parents, n: nat, i: nat)
    requires IsRun(run, events) && Initial(run[0], p) && |run[0].rows| <= n && i < |run|
    ensures var pc := run[i].pc;
            && (pc.Prefetch? && (pc.pre.Test? || pc.pre.Scan? || pc.pre.Sleep?) ==> pc.pre.round <= 300)
            && (pc.Prefetch? && pc.pre.Sleep? ==> pc.pre.round < 300)
            && (pc.Install? && (pc.ins.WaitTest? || pc.ins.WaitRead? || pc.ins.WaitSleep?) ==> pc.ins.waited <= 300)
            && (pc.Install? && pc.ins.WaitSleep? ==> pc.ins.waited < 300)
  {
    ReachableInv(run, events, p, n, i);
  }

  // ----- leaf-first, one at a time -----

  /** handleAgentUpdate answers a poll of `x` with an install. */
  predicate InstallOffered(s: State, x: NodeId) {
    s.active.Some? && x !in s.controllers && s.active.value.phase == InstallPhase && MayInstall(s.active.value, x)
  }

  /** `x` is the node named by InstallNodeID and is staged, or has already begun. */
  predicate MayInstall(a: ActiveJob, x: NodeId) {
    && x in a.statusByNode && (a.statusByNode[x] == STAGED || a.statusByNode[x] == INSTALLING)
    && a.installNode != "" && a.installNode == x
  }

  /** InstallNodeID is set, to `x`. */
  predicate NamedForInstall(s: State, x: NodeId) {
    x != "" && s.active.Some? && s.active.value.installNode == x
  }

  lemma DescendantDeeper(p: Parents, x: NodeId, y: NodeId)
    requires Under(p, y, x) && y != x && DepthWithin(p, y, DEPTH_LIMIT)
    ensures StoredDepth(p, y) > StoredDepth(p, x)
  {
    var d := TrueDepth(p, y);
    var k: nat :| Anc(p, y, k) == Some(x);
    AncDepth(p, y, d, k);
    DepthUnique(p, x, d - k, TrueDepth(p, x));
  }

  /**
   In every reachable state, only the node in InstallNodeID can be told to install, and that
   is the target whose turn it is. It is no controller, and every descendant of it in the job
   comes earlier in the list and has had its turn.
   */
  lemma InstallIsLeafFirst(s: State, p: Parents, n: nat, x: NodeId)
    requires Inv(s, p, n) && NamedForInstall(s, x)
    ensures Granted(s.pc) && s.pc.i < |s.targets| && s.targets[s.pc.i].nodeId == x && x !in s.controllers
    ensures forall y :: InstallOffered(s, y) ==> y == x
    ensures forall j :: 0 <= j < |s.targets| && s.targets[j].nodeId != x && Under(p, s.targets[j].nodeId, x)
                        && DepthWithin(p, s.targets[j].nodeId, DEPTH_LIMIT) ==>
              j < s.pc.i && (s.targets[j].nodeId in s.controllers || s.targets[j].nodeId in s.settled)
  {
    var i := s.pc.i;
    assert s.grants[|s.grants| - 1] == i;
    forall j | 0 <= j < |s.targets| && s.targets[j].nodeId != x && Under(p, s.targets[j].nodeId, x)
               && DepthWithin(p, s.targets[j].nodeId, DEPTH_LIMIT)
      ensures j < i && (s.targets[j].nodeId in s.controllers || s.targets[j].nodeId in s.settled)
    {
      DescendantDeeper(p, x, s.targets[j].nodeId);
      assert s.targets[j] in s.targets && s.targets[i] in s.targets;
    }
  }

  /** Over a whole run the grants are a subsequence of the list, so never twice to one node and never deeper again. */
  lemma GrantsDescend(s: State, p: Parents, n: nat, k: nat, m: nat)
    requires Inv(s, p, n) && InRun(s.pc) && k < m < |s.grants|
    ensures s.grants[k] < s.grants[m] < |s.targets|
    ensures s.targets[s.grants[k]].depth >= s.targets[s.grants[m]].depth
    ensures s.targets[s.grants[k]].nodeId != s.targets[s.grants[m]].nodeId
    ensures s.targets[s.grants[m]].nodeId !in s.controllers
  {
  }

  /** A node counts as settled only at a step, in its own turn, around which its status is terminal. */
  lemma SettledWasTerminal(s: State, e: Event, p: Parents, n: nat, x: NodeId)
    requires Inv(s, p, n) && Enabled(s, e) && x !in s.settled && x in Next(s, e).settled
    ensures e.Orchestrator? && s.pc.Install? && s.pc.i < |s.targets| && s.targets[s.pc.i].nodeId == x
    ensures SkippedAtInstall(Effective(s, s.targets[s.pc.i])) || MemStatus(Next(s, e), x) == INSTALL_FAILED
  {
    if e.Orchestrator? && s.pc.Install? {
      SettledInTurn(s, e.c, x);
    }
  }

  lemma SettledInTurn(s: State, c: Choice, x: NodeId)
    requires s.pc.Install? && s.active.Some? && x !in s.settled && x in AdvanceInstall(s, s.pc.i, s.pc.ins, c).settled
    ensures s.pc.i < |s.targets| && s.targets[s.pc.i].nodeId == x
    ensures SkippedAtInstall(Effective(s, s.targets[s.pc.i]))
            || MemStatus(AdvanceInstall(s, s.pc.i, s.pc.ins, c), x) == INSTALL_FAILED
  {
  }

  /** When the install loop is done, every other target's status was terminal during its turn. */
  lemma AllTurnsSettled(s: State, p: Parents, n: nat, j: nat)
    requires Inv(s, p, n) && (s.pc.Controllers? || s.pc.PersistDone? || s.pc.ClearActive?) && j < |s.targets|
    ensures s.targets[j].nodeId in s.controllers || s.targets[j].nodeId in s.settled
  {
  }

  // ----- depth of the rows -----

  /** Every node of `ns` is stored deeper than its parent. */
  ghost predicate DeeperThanParents(p: Parents, ns: set<NodeId>) {
    forall x :: x in ns && x in p ==> StoredDepth(p, x) > StoredDepth(p, p[x])
  }

  /**
   Sorting by the stored depth puts children before parents exactly if no node is more
   than 1000 edges deep: beyond that NodeDepth fails and the job stores 0.
   */
  lemma DepthOrderIffShallow(p: Parents, ns: set<NodeId>)
    requires forall x :: x in ns ==> Rooted(p, x)
    requires forall x :: x in ns && x in p ==> p[x] in ns
    ensures DeeperThanParents(p, ns) <==> forall x :: x in ns ==> DepthWithin(p, x, DEPTH_LIMIT)
  {
    if forall x :: x in ns ==> DepthWithin(p, x, DEPTH_LIMIT) {
      forall x | x in ns && x in p ensures StoredDepth(p, x) > StoredDepth(p, p[x]) {
        DepthUnique(p, p[x], TrueDepth(p, x) - 1, TrueDepth(p, p[x]));
      }
    }
    if DeeperThanParents(p, ns) {
      forall x | x in ns ensures DepthWithin(p, x, DEPTH_LIMIT) {
        var d: nat :| RootAt(p, x, d);
        NoDeepNode(p, ns, x, d);
      }
    }
  }

  lemma {:induction false} NoDeepNode(p: Parents, ns: set<NodeId>, x: NodeId, d: nat)
    requires x in ns && RootAt(p, x, d) && DeeperThanParents(p, ns)
    requires forall y :: y in ns && y in p ==> p[y] in ns
    ensures d <= DEPTH_LIMIT
    decreases d
  {
    if x in p {
      NoDeepNode(p, ns, p[x], d - 1);
      if d > DEPTH_LIMIT && DepthWithin(p, x, DEPTH_LIMIT) {
        DepthUnique(p, x, d, TrueDepth(p, x));
      }
    }
  }

  // ----- how long a run takes -----

  /** Steps the orchestrator may still take, for a job of at most `n` targets. */
  function Rank(s: State, n: nat): int {
    match s.pc
    case Idle => 0
    case Resuming => if s.job == JobRunning then FullRun(n) + 2 else 1
    case Down => if s.job == JobRunning then FullRun(n) + 3 else 2
    case RestartSelf => 3
    case ClearActive => 4
    case PersistDone => 5
    case Controllers(i, ctl) => 6 + 3 * (n - i) + (match ctl case CtrlPick => 2 case CtrlMark => 1 case CtrlRun => 0)
    case Install(i, ins) => InstallBase(n) + 907 * (n - i) + InstallRank(ins)
    case InstallList => InstallBase(n) + 907 * n + 907
    case Prefetch(pre) => PrefetchRank(pre, n)
    case Starting => FullRun(n) + 1
  }

  function InstallBase(n: nat): nat {
    9 + 3 * n
  }

  function InstallRank(ins: InstallStep): int {
    match ins
    case Pick => 906
    case NotStaged => 0
    case Grant => 905
    case WaitTest(r) => 4 + 3 * (300 - r)
    case WaitRead(r) => 3 + 3 * (300 - r)
    case WaitSleep(r) => 2 + 3 * (300 - r)
    case Timeout => 1
    case Clear => 0
  }

  function MarkBase(n: nat): nat {
    InstallBase(n) + 907 * n + 908
  }

  function PrefetchRank(pre: PrefetchStep, n: nat): int {
    match pre
    case EnterInstall => MarkBase(n)
    case Marking(i) => MarkBase(n) + 1 + 2 * (n - i)
    case MarkSet(i) => MarkBase(n) + 2 * (n - i)
    case MarkList => MarkBase(n) + 2 + 2 * n
    case Test(r) => MarkBase(n) + 3 + 2 * n + (n + 3) * (300 - r)
    case Scan(r, i, _) => MarkBase(n) + 2 + 2 * n + (n + 3) * (300 - r) - i
    case Sleep(r) => MarkBase(n) + 1 + 2 * n + (n + 3) * (300 - r) - n
  }

  /** The longest run: 300 rounds of prefetch, and 300 of waiting for every target. */
  function FullRun(n: nat): nat {
    MarkBase(n) + 3 + 2 * n + (n + 3) * 300
  }

  lemma RankPrefetch(s: State, n: nat, c: Choice)
    requires ControlOk(s) && |s.targets| <= n && s.pc.Prefetch? && MinSleep(s.pc) <= c.slept
    ensures 0 <= Rank(AdvancePrefetch(s, s.pc.pre, c), n) < Rank(s, n) <= FullRun(n)
  {
    var pre := s.pc.pre;
    if pre.Test? || pre.Scan? || pre.Sleep? {
      RoundsLeft(n, pre.round);
      RankRounds(s, n, c);
    } else {
      RoundsLeft(n, 0);
    }
  }

  lemma RankRounds(s: State, n: nat, c: Choice)
    requires ControlOk(s) && |s.targets| <= n && s.pc.Prefetch? && MinSleep(s.pc) <= c.slept
    requires s.pc.pre.Test? || s.pc.pre.Scan? || s.pc.pre.Sleep?
    ensures 0 <= Rank(AdvancePrefetch(s, s.pc.pre, c), n) < Rank(s, n) <= FullRun(n)
  {
    match s.pc.pre
    case Test(r) =>
      RoundsLeft(n, r);
    case Scan(r, i, pending) =>
      RoundsLeft(n, r);
    case Sleep(r) =>
      RoundsLeft(n, r);
      RoundsLeft(n, r + 1);
  }

  lemma RoundsLeft(n: nat, r: nat)
    requires r <= 300
    ensures 0 <= (n + 3) * (300 - r) <= (n + 3) * 300
    ensures (n + 3) * (300 - (r + 1)) == (n + 3) * (300 - r) - (n + 3)
    ensures r < 300 ==> (n + 3) * (300 - r) >= n + 3
  {
    assert (n + 3) * 300 == (n + 3) * (300 - r) + (n + 3) * r;
  }

  lemma RankInstall(s: State, n: nat, c: Choice)
    requires ControlOk(s) && |s.targets| <= n && s.pc.Install?
    ensures 0 <= Rank(AdvanceInstall(s, s.pc.i, s.pc.ins, c), n) < Rank(s, n) <= FullRun(n)
  {
  }

  lemma RankControllers(s: State, n: nat, c: Choice)
    requires ControlOk(s) && |s.targets| <= n && s.pc.Controllers?
    ensures 0 <= Rank(AdvanceControllers(s, s.pc.c, s.pc.ctl, c), n) < Rank(s, n) <= FullRun(n)
  {
  }

  /** Every step of the orchestrator brings it closer to the end. */
  lemma RankDecreases(s: State, p: Parents, n: nat, c: Choice)
    requires Inv(s, p, n) && Legal(s, c)
    ensures 0 <= Rank(Advance(s, c), n) < Rank(s, n) <= FullRun(n) + 3
  {
    match s.pc
    case Prefetch(_) => RankPrefetch(s, n, c);
    case Install(_, _) => RankInstall(s, n, c);
    case Controllers(_, _) => RankControllers(s, n, c);
    case _ => RankRest(s, n, c);
  }

  lemma RankRest(s: State, n: nat, c: Choice)
    requires ControlOk(s) && !s.pc.Idle? && (InRun(s.pc) || s.pc.Starting? ==> |s.targets| <= n)
    requires !s.pc.Prefetch? && !s.pc.Install? && !s.pc.Controllers?
    ensures 0 <= Rank(Advance(s, c), n) < Rank(s, n) <= FullRun(n) + 3
  {
    RoundsLeft(n, 0);
  }

  function CountSteps(events: seq<Event>): nat {
    if events == [] then 0
    else CountSteps(events[..|events| - 1]) + if events[|events| - 1].Orchestrator? then 1 else 0
  }

  function CountCrashes(events: seq<Event>): nat {
    if events == [] then 0
    else CountCrashes(events[..|events| - 1]) + if events[|events| - 1].Crash? then 1 else 0
  }

  /** Agents, deletions and the clock do not change the rank; a crash can only reset it. */
  lemma RankOfEnvironment(s: State, p: Parents, n: nat, e: Event)
    requires Inv(s, p, n) && Enabled(s, e) && !e.Orchestrator? && !e.StartJob?
    ensures e.Crash? ==> 0 <= Rank(Next(s, e), n) <= FullRun(n) + 3
    ensures !e.Crash? ==> Rank(Next(s, e), n) == Rank(s, n)
  {
  }

  ghost predicate NoStart(events: seq<Event>) {
    forall e :: e in events ==> !e.StartJob?
  }

  /** What is left of `budget` after `steps` steps and `crashes` crashes covers the rank. */
  predicate Covers(budget: int, steps: nat, crashes: nat, rank: int, cost: nat) {
    0 <= rank && steps + rank <= budget + cost * crashes
  }

  lemma CoversStep(budget: int, steps: nat, crashes: nat, rank: int, rank': int, cost: nat)
    requires Covers(budget, steps, crashes, rank, cost) && 0 <= rank'
    ensures rank' + 1 <= rank ==> Covers(budget, steps + 1, crashes, rank', cost)
    ensures rank' == rank ==> Covers(budget, steps, crashes, rank', cost)
    ensures rank' <= cost ==> Covers(budget, steps, crashes + 1, rank', cost)
  {
    assert cost * (crashes + 1) == cost * crashes + cost;
  }

  /**
   Whatever the agents do, and however often the controller crashes, the orchestrator
   takes a bounded number of steps: one full run per crash and one more.
   */
  lemma {:induction false} BoundedRun(run: seq<State>, events: seq<Event>, p: Parents, n: nat)
    requires IsRun(run, events) && Inv(run[0], p, n) && NoStart(events)
    ensures Inv(run[|run| - 1], p, n)
    ensures Covers(Rank(run[0], n), CountSteps(events), CountCrashes(events), Rank(run[|run| - 1], n), FullRun(n) + 3)
    decreases |events|
  {
    if events == [] {
      RankNonNegative(run[0], p, n);
    } else {
      var k := |events| - 1;
      BoundedRunPrefix(run, events);
      BoundedRun(run[..|run| - 1], events[..k], p, n);
      assert StepOf(run, events, k) && events[k] in events;
      BoundedStep(run[k], events[k], p, n, Rank(run[0], n), CountSteps(events[..k]), CountCrashes(events[..k]));
    }
  }

  /** What one event adds to the account. */
  lemma BoundedStep(s: State, e: Event, p: Parents, n: nat, budget: int, steps: nat, crashes: nat)
    requires Inv(s, p, n) && Enabled(s, e) && !e.StartJob? && Covers(budget, steps, crashes, Rank(s, n), FullRun(n) + 3)
    ensures Inv(Next(s, e), p, n)
    ensures Covers(budget, steps + (if e.Orchestrator? then 1 else 0), crashes + (if e.Crash? then 1 else 0),
                   Rank(Next(s, e), n), FullRun(n) + 3)
  {
    RankStep(s, e, p, n);
    CoversStep(budget, steps, crashes, Rank(s, n), Rank(Next(s, e), n), FullRun(n) + 3);
  }

  lemma RankStep(s: State, e: Event, p: Parents, n: nat)
    requires Inv(s, p, n) && Enabled(s, e) && !e.StartJob?
    ensures Inv(Next(s, e), p, n) && 0 <= Rank(Next(s, e), n)
    ensures e.Orchestrator? ==> Rank(Next(s, e), n) + 1 <= Rank(s, n)
    ensures e.Crash? ==> Rank(Next(s, e), n) <= FullRun(n) + 3
    ensures !e.Orchestrator? && !e.Crash? ==> Rank(Next(s, e), n) == Rank(s, n)
  {
    InvStep(s, e, p, n);
    RankNonNegative(Next(s, e), p, n);
    if e.Orchestrator? {
      RankDecreases(s, p, n, e.c);
    } else {
      RankOfEnvironment(s, p, n, e);
    }
  }

  lemma BoundedRunPrefix(run: seq<State>, events: seq<Event>)
    requires IsRun(run, events) && events != []
    ensures IsRun(run[..|run| - 1], events[..|events| - 1])
    ensures NoStart(events) ==> NoStart(events[..|events| - 1])
  {
    var r, es := run[..|run| - 1], events[..|events| - 1];
    forall i | 0 <= i < |es| ensures StepOf(r, es, i) {
      assert StepOf(run, events, i);
    }
  }

  lemma RankNonNegative(s: State, p: Parents, n: nat)
    requires Inv(s, p, n)
    ensures 0 <= Rank(s, n)
  {
    if s.pc.Prefetch? && (s.pc.pre.Test? || s.pc.pre.Scan? || s.pc.pre.Sleep?) { RoundsLeft(n, s.pc.pre.round); }
  }

  // ----- the end of a run -----

  /**
   Unless it is idle, the orchestrator can always take a step; and a job that was started is idle only once completed.
   */
  lemma NeverStuck(s: State, p: Parents, n: nat)
    requires Inv(s, p, n)
    ensures s.pc.Idle? || exists c :: Legal(s, c)
    ensures s.pc.Idle? ==> s.job != JobRunning && s.active.None?
  {
    if !s.pc.Idle? {
      var ts := ListingExists(s.rows);
      assert Legal(s, Choice(ts, 2, true));
    }
  }

  /** Once started, the job stays running until it is completed, whatever happens. */
  lemma {:induction false} StartedStaysStarted(run: seq<State>, events: seq<Event>, i: nat)
    requires IsRun(run, events) && run[0].job != JobCreated && i < |run|
    ensures run[i].job != JobCreated
    decreases i
  {
    if i > 0 {
      StartedStaysStarted(run, events, i - 1);
      assert StepOf(run, events, i - 1);
      JobNeverUndone(run[i - 1], events[i - 1]);
    }
  }

  lemma JobNeverUndone(s: State, e: Event)
    requires s.job != JobCreated && Enabled(s, e)
    ensures Next(s, e).job != JobCreated
  {
    if e.Orchestrator? {
      match s.pc
      case Prefetch(_) => assert AdvancePrefetch(s, s.pc.pre, e.c).job == s.job;
      case Install(_, _) => assert AdvanceInstall(s, s.pc.i, s.pc.ins, e.c).job == s.job;
      case Controllers(_, _) => assert AdvanceControllers(s, s.pc.c, s.pc.ctl, e.c).job == s.job;
      case _ =>
    }
  }

  /**
   After any crash, restarting closes the job if all persisted statuses are terminal and
   otherwise runs it again from the persisted rows.
   */
  lemma CrashRecovery(s: State, p: Parents, n: nat, listing: seq<Target>, c: Choice)
    requires Inv(s, p, n) && !s.pc.Down? && IsListing(s.rows, listing)
    ensures var back := Advance(Advance(Next(s, Crash), c), c.(listing := listing));
            && back.rows == s.rows && back.active.None?
            && (s.job != JobRunning ==> back.pc.Idle? && back.job == s.job)
            && (s.job == JobRunning && (forall id :: id in s.rows ==> Closed(s.rows[id].status)) ==>
                  back.pc.Idle? && back.job == JobCompleted)
            && (s.job == JobRunning && (exists id :: id in s.rows && !Closed(s.rows[id].status)) ==>
                  back.pc.Starting? && back.job == JobRunning && back.targets == listing)
  {
    assert AllClosed(listing) <==> forall id :: id in s.rows ==> Closed(s.rows[id].status);
    assert Advance(Next(s, Crash), c) == s.(pc := Resuming, active := None);
  }

  /** The restart a run asks for itself finds the job completed and does not run it again. */
  lemma SelfRestartDoesNotRerun(s: State, p: Parents, n: nat, c1: Choice, c2: Choice, c3: Choice)
    requires Inv(s, p, n) && s.pc.RestartSelf?
    ensures var back := Advance(Advance(Advance(s, c1), c2), c3); back.pc.Idle? && back.job == JobCompleted
  {
  }

  // ----- listings exist -----

  function InsertByDepth(ts: seq<Target>, t: Target): seq<Target> {
    if ts == [] then [t]
    else if ts[0].depth < t.depth then [t] + ts
    else [ts[0]] + InsertByDepth(ts[1..], t)
  }

  ghost predicate DepthSorted(ts: seq<Target>) {
    forall i, j :: 0 <= i < j < |ts| ==> ts[i].depth >= ts[j].depth
  }

  lemma {:induction false} InsertMembers(ts: seq<Target>, t: Target)
    ensures |InsertByDepth(ts, t)| == |ts| + 1
    ensures forall x :: x in InsertByDepth(ts, t) <==> x in ts || x == t
  {
    if ts != [] && ts[0].depth >= t.depth {
      InsertMembers(ts[1..], t);
      assert ts == [ts[0]] + ts[1..];
    }
  }

  lemma {:induction false} InsertSorted(ts: seq<Target>, t: Target)
    requires DepthSorted(ts)
    ensures DepthSorted(InsertByDepth(ts, t))
  {
    if ts != [] && ts[0].depth >= t.depth {
      var rest := InsertByDepth(ts[1..], t);
      InsertSorted(ts[1..], t);
      InsertMembers(ts[1..], t);
      forall i | 0 <= i < |rest| ensures ts[0].depth >= rest[i].depth { assert rest[i] in rest; }
    }
  }

  lemma {:induction false} InsertDistinct(ts: seq<Target>, t: Target)
    requires DistinctIds(ts) && forall x :: x in ts ==> x.id != t.id
    ensures DistinctIds(InsertByDepth(ts, t))
  {
    if ts != [] && ts[0].depth >= t.depth {
      var rest := InsertByDepth(ts[1..], t);
      InsertDistinct(ts[1..], t);
      InsertMembers(ts[1..], t);
      forall i | 0 <= i < |rest| ensures ts[0].id != rest[i].id { assert rest[i] in rest; }
    }
  }

  ghost predicate DistinctIds(ts: seq<Target>) {
    forall i, j :: 0 <= i < j < |ts| ==> ts[i].id != ts[j].id
  }

  lemma {:induction false} ListingExists(rows: map<string, Target>) returns (ts: seq<Target>)
    requires forall id :: id in rows ==> rows[id].id == id
    ensures IsListing(rows, ts)
    decreases |rows|
  {
    if rows == map[] {
      ts := [];
    } else {
      var id :| id in rows;
      var rest := rows - {id};
      assert rows.Keys == rest.Keys + {id};
      var us := ListingExists(rest);
      InsertMembers(us, rows[id]);
      InsertSorted(us, rows[id]);
      InsertDistinct(us, rows[id]);
      ts := InsertByDepth(us, rows[id]);
    }
  }
}

/** The block/wake transition function of `kernel-core/src/sched_model.rs`. */
module SchedModel {
  import opened Options

  datatype BlockState =
    | Ready
    | Running
    | BlockedOnRecv
    | BlockedOnSend
    | BlockedOnReply
    | BlockedOnNotif
    | BlockedOnFutex
    | Dead
  {
    predicate IsBlocked() {
      BlockedOnRecv? || BlockedOnSend? || BlockedOnReply? || BlockedOnNotif? || BlockedOnFutex?
    }
  }

  datatype BlockKind = Recv | Send | Reply | Notif | Futex {
    function BlockedState(): BlockState {
      match this
      case Recv => BlockedOnRecv
      case Send => BlockedOnSend
      case Reply => BlockedOnReply
      case Notif => BlockedOnNotif
      case Futex => BlockedOnFutex
    }
  }

  datatype Event =
    | Block(kind: BlockKind, deadline: Option<nat>)
    | Wake
    | ScanExpired(now: nat)
    | ConditionTrue

  datatype SideEffects = SideEffects(
    deadlineSet: Option<nat>,
    deadlineCleared: bool,
    enqueueToRunQueue: bool,
    yielded: bool,
    ipiRequired: bool,
    onCpuWaitRequired: bool)

  const NO_EFFECTS := SideEffects(None, false, false, false, false, false)

  /** The next state and its side effects; `None` is the kernel panic of an unreachable cell. */
  function ApplyEvent(state: BlockState, event: Event): Option<(BlockState, SideEffects)> {
    match event
    case Block(kind, deadline) =>
      if state.Ready? then Some((Ready, NO_EFFECTS))
      else if state.Running? then
        Some((kind.BlockedState(), NO_EFFECTS.(deadlineSet := deadline, yielded := true)))
      else None
    case Wake =>
      if state.IsBlocked() then
        Some((Ready, NO_EFFECTS.(deadlineCleared := true, enqueueToRunQueue := true, onCpuWaitRequired := true)))
      else Some((state, NO_EFFECTS))
    case ScanExpired(now) =>
      if state.IsBlocked() then
        Some((Ready, NO_EFFECTS.(deadlineCleared := true, enqueueToRunQueue := true)))
      else Some((state, NO_EFFECTS))
    case ConditionTrue =>
      if state.IsBlocked() then Some((Running, NO_EFFECTS.(deadlineCleared := true)))
      else Some((state, NO_EFFECTS))
  }

  /** The column of the transition table for `Block`: each kind has its own state, the deadline is stored. */
  lemma BlockColumn(kind: BlockKind, deadline: Option<nat>)
    ensures var fx := SideEffects(deadline, false, false, true, false, false);
      && ApplyEvent(Running, Block(Recv, deadline)) == Some((BlockedOnRecv, fx))
      && ApplyEvent(Running, Block(Send, deadline)) == Some((BlockedOnSend, fx))
      && ApplyEvent(Running, Block(Reply, deadline)) == Some((BlockedOnReply, fx))
      && ApplyEvent(Running, Block(Notif, deadline)) == Some((BlockedOnNotif, fx))
      && ApplyEvent(Running, Block(Futex, deadline)) == Some((BlockedOnFutex, fx))
    ensures ApplyEvent(Ready, Block(kind, deadline)) == Some((Ready, SideEffects(None, false, false, false, false, false)))
    ensures forall state | state != Ready && state != Running :: ApplyEvent(state, Block(kind, deadline)) == None
  {
  }

  /** The other columns: they act on blocked states only, and never set a deadline or yield. */
  lemma OtherColumns(state: BlockState, now: nat)
    ensures state in {BlockedOnRecv, BlockedOnSend, BlockedOnReply, BlockedOnNotif, BlockedOnFutex} ==>
      && ApplyEvent(state, Wake) == Some((Ready, SideEffects(None, true, true, false, false, true)))
      && ApplyEvent(state, ScanExpired(now)) == Some((Ready, SideEffects(None, true, true, false, false, false)))
      && ApplyEvent(state, ConditionTrue) == Some((Running, SideEffects(None, true, false, false, false, false)))
    ensures state in {Ready, Running, Dead} ==> forall e | e in {Wake, ScanExpired(now), ConditionTrue} ::
      ApplyEvent(state, e) == Some((state, SideEffects(None, false, false, false, false, false)))
  {
  }
}

/** The four-step wait protocol that `SchedModel` is the transition table of, as `block_current_until` and
`wake_task_v2` of `kernel/src/task/scheduler.rs` carry it out: one task that blocks and any number of wakers and
deadline scans, interleaved step by step.

The waiter writes its blocked state, rechecks the wait condition, and then reverts by itself or parks; a waker sets
the condition of the wait it was registered for and then sends `Wake`. While the waiter is still on its CPU a wake
only marks it ready, and the switch-out puts it in the run queue; a self-revert in that window takes the mark back. */
module SchedProtocol {
  import opened Options
  import opened SchedModel

  /** Where the waiting task stands; `kind` and `deadline` are the arguments of its wait. */
  datatype Pc =
    | Working
    | Waiting(kind: BlockKind, deadline: Option<nat>)
    | Written(kind: BlockKind, deadline: Option<nat>)
    | Rechecked(kind: BlockKind, deadline: Option<nat>, seen: bool)
    | Parked(kind: BlockKind, deadline: Option<nat>)
    | Resumed(kind: BlockKind, deadline: Option<nat>)
    | Exited
  {
    /** Blocked or woken, and not yet switched out. */
    predicate OnCpu() {
      Written? || Rechecked?
    }
  }

  /** A waker serves the wait with number `round`; `MustEnqueue` follows a wake that found the waiter switched out. */
  datatype Waker =
    | Resting
    | Registered(round: nat)
    | FlagSet(round: nat)
    | MustEnqueue

  datatype State = State(
    task: BlockState,
    pc: Pc,
    wakeDeadline: Option<nat>,
    /** Number of the current wait, and its wait condition. */
    round: nat,
    flag: bool,
    now: nat,
    wakers: map<nat, Waker>,
    /** The scanner, or the switch-out, has found the waiter ready and is about to queue it. */
    scanMustEnqueue: bool,
    switchMustEnqueue: bool,
    runQueue: nat,
    /** History: some waker of the current wait has sent its wake; blocks, enqueues and self-reverts so far. */
    signalled: bool,
    blocks: nat,
    enqueues: nat,
    reverts: nat)

  datatype Action =
    | BeginWait(kind: BlockKind, deadline: Option<nat>)
    | WriteBlocked
    | Recheck
    | Revert
    | Park
    | SwitchEnqueue
    | Dispatch
    | Resume
    | Exit
    | Register(w: nat)
    | SetFlag(w: nat)
    | SendWake(w: nat)
    | Enqueue(w: nat)
    | Scan
    | ScanEnqueue
    | Tick

  predicate Expired(deadline: Option<nat>, now: nat) {
    deadline.Some? && deadline.value <= now
  }

  predicate Enabled(s: State, a: Action) {
    match a
    case BeginWait(kind, deadline) => s.pc.Working?
    case WriteBlocked => s.pc.Waiting?
    case Recheck => s.pc.Written?
    case Revert => s.pc.Rechecked? && s.pc.seen
    case Park => s.pc.Rechecked? && !s.pc.seen
    case SwitchEnqueue => s.switchMustEnqueue
    case Dispatch => s.runQueue > 0
    case Resume => s.pc.Resumed?
    case Exit => s.pc.Working?
    case Register(w) => w in s.wakers && s.wakers[w].Resting?
    case SetFlag(w) => w in s.wakers && s.wakers[w].Registered?
    case SendWake(w) => w in s.wakers && s.wakers[w].FlagSet?
    case Enqueue(w) => w in s.wakers && s.wakers[w].MustEnqueue?
    case Scan => Expired(s.wakeDeadline, s.now) && !s.scanMustEnqueue
    case ScanEnqueue => s.scanMustEnqueue
    case Tick => true
  }

  /** Deliver an event to the waiter and carry out the state part of its side effects. */
  function Fire(s: State, e: Event): Option<State> {
    match ApplyEvent(s.task, e)
    case None => None
    case Some((task, fx)) =>
      Some(s.(task := task,
              wakeDeadline := if fx.deadlineCleared then None else if fx.deadlineSet.Some? then fx.deadlineSet else s.wakeDeadline))
  }

  /** The event asks for an enqueue, and the waiter has left its CPU. */
  predicate MustQueue(s: State, e: Event) {
    !s.pc.OnCpu() && match ApplyEvent(s.task, e) case None => false case Some((_, fx)) => fx.enqueueToRunQueue
  }

  function Queued(s: State): State {
    s.(runQueue := s.runQueue + 1, enqueues := s.enqueues + 1)
  }

  /** One step; `None` if the transition function panics or something other than a parked waiter is dispatched. */
  function Step(s: State, a: Action): Option<State>
    requires Enabled(s, a)
  {
    match a
    case BeginWait(kind, deadline) =>
      Some(s.(pc := Waiting(kind, deadline), round := s.round + 1, flag := false, signalled := false))
    case WriteBlocked =>
      match Fire(s, Block(s.pc.kind, s.pc.deadline)) {
        case None => None
        case Some(r) => Some(r.(pc := Written(s.pc.kind, s.pc.deadline), blocks := s.blocks + 1))
      }
    case Recheck =>
      Some(s.(pc := Rechecked(s.pc.kind, s.pc.deadline, s.flag || Expired(s.pc.deadline, s.now))))
    case Revert =>
      // The kernel writes Running whether the waiter is still blocked or already marked ready.
      match Fire(s, ConditionTrue) {
        case None => None
        case Some(r) => Some(r.(task := Running, wakeDeadline := None, pc := Working, reverts := s.reverts + 1))
      }
    case Park => Some(s.(pc := Parked(s.pc.kind, s.pc.deadline), switchMustEnqueue := s.task.Ready?))
    case SwitchEnqueue => Some(Queued(s).(switchMustEnqueue := false))
    case Dispatch =>
      if s.pc.Parked? && s.task.Ready? then
        Some(s.(task := Running, runQueue := s.runQueue - 1, pc := Resumed(s.pc.kind, s.pc.deadline)))
      else None
    case Resume =>
      Some(s.(pc := if s.flag || Expired(s.pc.deadline, s.now) then Working else Waiting(s.pc.kind, s.pc.deadline)))
    case Exit => Some(s.(task := Dead, pc := Exited))
    case Register(w) => Some(s.(wakers := s.wakers[w := Registered(s.round)]))
    case SetFlag(w) =>
      var r := s.wakers[w].round;
      Some(s.(wakers := s.wakers[w := FlagSet(r)], flag := s.flag || r == s.round))
    case SendWake(w) =>
      match Fire(s, Wake) {
        case None => None
        case Some(r) =>
          Some(r.(wakers := s.wakers[w := if MustQueue(s, Wake) then MustEnqueue else Resting],
                  signalled := s.signalled || s.wakers[w].round == s.round))
      }
    case Enqueue(w) => Some(Queued(s).(wakers := s.wakers[w := Resting]))
    case Scan =>
      match Fire(s, ScanExpired(s.now)) {
        case None => None
        case Some(r) => Some(r.(scanMustEnqueue := MustQueue(s, ScanExpired(s.now))))
      }
    case ScanEnqueue => Some(Queued(s).(scanMustEnqueue := false))
    case Tick => Some(s.(now := s.now + 1))
  }

  // ---- the invariant ----

  /** The waiter's state that goes with each point of the protocol. */
  predicate PcOk(s: State) {
    match s.pc
    case Working => s.task.Running?
    case Waiting(_, _) => s.task.Running?
    case Written(kind, _) => s.task.Ready? || s.task == kind.BlockedState()
    case Rechecked(kind, _, _) => s.task.Ready? || s.task == kind.BlockedState()
    case Parked(kind, _) => s.task.Ready? || s.task == kind.BlockedState()
    case Resumed(_, _) => s.task.Running?
    case Exited => s.task.Dead?
  }

  predicate Enqueuing(s: State, w: nat) {
    w in s.wakers && s.wakers[w].MustEnqueue?
  }

  /** The waiter is switched out and ready: the only time anything queues it. */
  predicate Queueable(s: State) {
    s.pc.Parked? && s.task.Ready?
  }

  /** A parked ready task is in the run queue once, or exactly one waker, the scanner or the switch-out is about to
      put it there; no other task is in the queue or about to be. */
  ghost predicate QueueOk(s: State) {
    && (Queueable(s) ==> s.runQueue == 1 || s.scanMustEnqueue || s.switchMustEnqueue || exists w :: Enqueuing(s, w))
    && (s.runQueue > 0 ==> Queueable(s) && s.runQueue == 1 && !s.scanMustEnqueue && !s.switchMustEnqueue)
    && (s.scanMustEnqueue ==> Queueable(s) && !s.switchMustEnqueue)
    && (s.switchMustEnqueue ==> Queueable(s))
    && (forall w | Enqueuing(s, w) :: Queueable(s) && s.runQueue == 0 && !s.scanMustEnqueue && !s.switchMustEnqueue)
    && (forall w, v | Enqueuing(s, w) && Enqueuing(s, v) :: w == v)
  }

  predicate WillWake(s: State, w: nat) {
    w in s.wakers && s.wakers[w] == FlagSet(s.round)
  }

  /** A set condition was signalled, or its waker is still to send the wake; once signalled, a blocked task
      has not parked and will see the condition. */
  ghost predicate SignalOk(s: State) {
    && (s.signalled ==> s.flag)
    && (s.flag ==> s.signalled || exists w :: WillWake(s, w))
    && (forall w | WillWake(s, w) :: s.flag)
    && (forall w | w in s.wakers && (s.wakers[w].Registered? || s.wakers[w].FlagSet?) :: s.wakers[w].round <= s.round)
    && (s.signalled && s.task.IsBlocked() ==> s.pc.Written? || (s.pc.Rechecked? && s.pc.seen))
  }

  /** The block has ended neither in an enqueue nor in a self-revert. */
  predicate Pending(s: State) {
    s.task.IsBlocked() || (s.task.Ready? && s.runQueue == 0)
  }

  predicate CountOk(s: State) {
    && s.blocks == s.enqueues + s.reverts + (if Pending(s) then 1 else 0)
    && (s.wakeDeadline.Some? ==> s.task.IsBlocked())
  }

  /** A blocked task is timed by the deadline its wait was given, and a recheck that succeeded had a reason. */
  predicate WaitOk(s: State) {
    && (s.task.IsBlocked() && (s.pc.OnCpu() || s.pc.Parked?) ==> s.wakeDeadline == s.pc.deadline)
    && (s.pc.Rechecked? && s.pc.seen ==> s.flag || Expired(s.pc.deadline, s.now))
  }

  ghost predicate Inv(s: State) {
    PcOk(s) && QueueOk(s) && SignalOk(s) && CountOk(s) && WaitOk(s)
  }

  ghost predicate Initial(s: State) {
    && s.task.Running? && s.pc.Working? && s.wakeDeadline.None?
    && s.runQueue == 0 && !s.scanMustEnqueue && !s.switchMustEnqueue
    && (forall w | w in s.wakers :: s.wakers[w].Resting?)
    && !s.flag && !s.signalled && s.blocks == 0 && s.enqueues == 0 && s.reverts == 0
  }

  /** No step reaches a panicking cell or dispatches a task that is running, and each keeps its place. */
  lemma StepIsSafe(s: State, a: Action)
    requires PcOk(s) && QueueOk(s) && CountOk(s) && Enabled(s, a)
    ensures Step(s, a).Some? && PcOk(Step(s, a).value)
  {
  }

  lemma StepKeepsCount(s: State, a: Action)
    requires PcOk(s) && QueueOk(s) && CountOk(s) && Enabled(s, a)
    ensures Step(s, a).Some? && CountOk(Step(s, a).value)
  {
    if a.Enqueue? {
      assert Enqueuing(s, a.w);
    }
  }

  lemma StepKeepsWait(s: State, a: Action)
    requires PcOk(s) && QueueOk(s) && CountOk(s) && WaitOk(s) && Enabled(s, a)
    ensures Step(s, a).Some? && WaitOk(Step(s, a).value)
  {
    StepIsSafe(s, a);
  }

  lemma StepKeepsQueue(s: State, a: Action)
    requires PcOk(s) && QueueOk(s) && CountOk(s) && Enabled(s, a)
    ensures Step(s, a).Some? && QueueOk(Step(s, a).value)
  {
    StepIsSafe(s, a);
    var r := Step(s, a).value;
    if a.SendWake? {
      WakeKeepsQueue(s, a.w);
    } else if a.Enqueue? {
      assert Enqueuing(s, a.w);
      assert forall v | Enqueuing(r, v) :: Enqueuing(s, v);
    } else {
      assert forall v :: Enqueuing(r, v) <==> Enqueuing(s, v);
    }
  }

  lemma WakeKeepsQueue(s: State, w: nat)
    requires PcOk(s) && QueueOk(s) && Enabled(s, SendWake(w)) && Step(s, SendWake(w)).Some?
    ensures QueueOk(Step(s, SendWake(w)).value)
  {
    var r := Step(s, SendWake(w)).value;
    if MustQueue(s, Wake) {
      assert Enqueuing(r, w);
    }
    assert forall v | Enqueuing(r, v) && v != w :: Enqueuing(s, v);
    assert forall v | Enqueuing(s, v) :: Enqueuing(r, v);
  }

  /** Steps that leave the wakers and the wait condition alone keep `SignalOk`. */
  lemma QuietKeepsSignal(s: State, r: State)
    requires SignalOk(s) && r.wakers == s.wakers && r.flag == s.flag && r.round == s.round && r.signalled == s.signalled
    requires r.signalled && r.task.IsBlocked() ==> r.pc.Written? || (r.pc.Rechecked? && r.pc.seen)
    ensures SignalOk(r)
  {
    assert forall v :: WillWake(r, v) <==> WillWake(s, v);
  }

  lemma WakerKeepsSignal(s: State, a: Action)
    requires Inv(s) && Enabled(s, a) && (a.Register? || a.SetFlag? || a.SendWake? || a.Enqueue?)
    ensures Step(s, a).Some? && SignalOk(Step(s, a).value)
  {
    StepIsSafe(s, a);
    var r, w := Step(s, a).value, a.w;
    assert forall v | v != w :: WillWake(r, v) <==> WillWake(s, v);
    assert WillWake(s, w) ==> s.flag;
    if s.flag && !s.signalled {
      var v :| WillWake(s, v);
      assert WillWake(r, v) || (a.SendWake? && v == w);
    }
    if a.SetFlag? && s.wakers[w].round == s.round {
      assert WillWake(r, w);
    }
    if a.SendWake? && s.wakers[w].round == s.round {
      assert WillWake(s, w);
    }
  }

  lemma StepKeepsSignal(s: State, a: Action)
    requires Inv(s) && Enabled(s, a)
    ensures Step(s, a).Some? && SignalOk(Step(s, a).value)
  {
    StepIsSafe(s, a);
    var r := Step(s, a).value;
    if a.BeginWait? {
      assert forall v :: !WillWake(r, v);
    } else if a.Register? || a.SetFlag? || a.SendWake? || a.Enqueue? {
      WakerKeepsSignal(s, a);
    } else {
      QuietKeepsSignal(s, r);
    }
  }

  lemma StepKeepsInv(s: State, a: Action)
    requires Inv(s) && Enabled(s, a)
    ensures Step(s, a).Some? && Inv(Step(s, a).value)
  {
    StepIsSafe(s, a);
    StepKeepsCount(s, a);
    StepKeepsWait(s, a);
    StepKeepsQueue(s, a);
    StepKeepsSignal(s, a);
  }

  // ---- runs ----

  /** Every action is enabled when it is taken, as long as no step has failed. */
  ghost predicate EnabledRun(s: State, acts: seq<Action>)
    decreases |acts|
  {
    acts == [] ||
    (Enabled(s, acts[0]) && (Step(s, acts[0]).Some? ==> EnabledRun(Step(s, acts[0]).value, acts[1..])))
  }

  ghost function Run(s: State, acts: seq<Action>): Option<State>
    requires EnabledRun(s, acts)
    decreases |acts|
  {
    if acts == [] then Some(s)
    else if Step(s, acts[0]).None? then None
    else Run(Step(s, acts[0]).value, acts[1..])
  }

  lemma {:induction false} RunKeepsInv(s: State, acts: seq<Action>)
    requires Inv(s) && EnabledRun(s, acts)
    ensures Run(s, acts).Some? && Inv(Run(s, acts).value)
    decreases |acts|
  {
    if acts != [] {
      StepKeepsInv(s, acts[0]);
      RunKeepsInv(Step(s, acts[0]).value, acts[1..]);
    }
  }

  /** In every interleaving: no panic and no dispatch of a task that is running; a parked task whose wait was
      signalled is not blocked, and a parked blocked task whose condition is set has a wake on its way; a parked ready
      task is queued or about to be, and nothing else is; every block ended in one enqueue or one self-revert or is
      still going on; a live deadline implies blocked. */
  lemma NoLostOrDoubledWake(s: State, acts: seq<Action>)
    requires Initial(s) && EnabledRun(s, acts)
    ensures Run(s, acts).Some?
    ensures var r := Run(s, acts).value;
            && (r.pc.Parked? && r.signalled ==> r.task.Ready?)
            && (r.pc.Parked? && r.flag && r.task.IsBlocked() ==> exists w :: WillWake(r, w))
            && (Queueable(r) <==> r.runQueue == 1 || r.scanMustEnqueue || r.switchMustEnqueue || exists w :: Enqueuing(r, w))
            && r.runQueue <= 1
            && r.blocks == r.enqueues + r.reverts + (if Pending(r) then 1 else 0)
            && (r.wakeDeadline.Some? ==> r.task.IsBlocked())
            && (r.pc.Parked? && r.task.IsBlocked() ==> r.wakeDeadline == r.pc.deadline)
  {
    assert Inv(s);
    RunKeepsInv(s, acts);
  }

  /** A wake that reaches a parked task always leaves it ready, with this waker obliged to enqueue it if it
      was blocked; the waiter is dispatched only from there. */
  lemma WakeReleasesParked(s: State, w: nat)
    requires Inv(s) && s.pc.Parked? && Enabled(s, SendWake(w))
    ensures Step(s, SendWake(w)).Some?
    ensures var r := Step(s, SendWake(w)).value;
            r.task.Ready? && (s.task.IsBlocked() ==> Enqueuing(r, w) && Enabled(r, Enqueue(w)))
  {
  }

  /** A wake that reaches the waiter before it is switched out is carried through by the switch-out, or by the
      waiter's own revert, which leaves nothing behind in the queue. */
  lemma WakeOnCpu(s: State, w: nat)
    requires Inv(s) && s.pc.Rechecked? && s.task.IsBlocked() && Enabled(s, SendWake(w))
    ensures Step(s, SendWake(w)).Some?
    ensures var r := Step(s, SendWake(w)).value;
            && r.task.Ready? && !Enqueuing(r, w)
            && (Enabled(r, Park) ==> Enabled(Step(r, Park).value, SwitchEnqueue))
            && (Enabled(r, Revert) ==> Step(r, Revert).Some? && Step(r, Revert).value.runQueue == 0
                                       && Step(r, Revert).value.task.Running? && !Step(r, Revert).value.switchMustEnqueue)
  {
  }

  /** A parked task whose wait has run out of time is ready, or the scan can release it. */
  lemma ScanReleasesParked(s: State)
    requires Inv(s) && s.pc.Parked? && s.pc.deadline.Some? && s.pc.deadline.value <= s.now
    ensures !s.task.IsBlocked() ==> s.task.Ready?
    ensures s.task.IsBlocked() ==>
      && Enabled(s, Scan) && Step(s, Scan).Some?
      && var r := Step(s, Scan).value;
         r.task.Ready? && r.wakeDeadline.None? && Enabled(r, ScanEnqueue)
  {
  }

  /** A wait returns only with its condition set or its deadline passed. */
  lemma ReturnsOnlyWhenDue(s: State, a: Action)
    requires Inv(s) && Enabled(s, a) && !s.pc.Working?
    requires Step(s, a).Some? && Step(s, a).value.pc.Working?
    ensures s.pc.Rechecked? || s.pc.Resumed?
    ensures s.flag || (s.pc.deadline.Some? && s.pc.deadline.value <= s.now)
  {
  }
}

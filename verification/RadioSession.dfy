/**
 * The radio session protocol: operations, disconnects, pauses, resumes and reconnects as cooperating tasks.
 *
 * asyncio switches tasks only at an await, so the code between two awaits is one atomic step here, and each task
 * carries a program counter naming the await it is suspended at.  A step that fails or is cancelled is a step too.
 */
module RadioSession {
  import opened Common

  type Task = nat
  type Backend = nat

  /** Who asked for a disconnect, hence what happens after it. */
  datatype Purpose =
    | Plain     // a direct call
    | Pause     // pause_connection
    | Stale     // reconnect() tearing down a dead transport
    | Reopen    // connect() finding a transport still there
    | Unwanted  // reconnect() noticing a pause after its connect()

  datatype Pc =
    | Idle
    | OpWaiting(suspendFetch: bool)           // radio_operation, waiting for the operation lock
    | OpEntering(be: Backend)                 // lock held, stopping auto fetch
    | OpBody(be: Backend, suspended: bool)    // lock held, caller's body
    | OpLeaving(be: Backend)                  // lock held, restarting auto fetch
    | DiscWaiting(purpose: Purpose)           // disconnect, waiting for the operation lock
    | DiscTeardown(purpose: Purpose, be: Backend)
    | RecWaiting                              // reconnect, waiting for the reconnect lock
    | Connecting                              // reconnect, opening a transport

  /** One task: where it is, and how often it took and gave back the operation lock. */
  datatype Local = Local(pc: Pc, acquired: nat, released: nat)

  /** The manager's fields. */
  datatype Shared = Shared(
    opLocked: bool,
    recLocked: bool,
    desired: bool,
    backend: Option<Backend>,
    nextBackend: Backend,
    badRelease: bool,   // the "released an unlocked lock" error branch was taken
    aborted: bool)      // the transport has survived a pause, or the disconnect after a late one, that was cancelled
                        // or whose teardown raised; no later teardown has succeeded

  /** The manager and one task, as one step sees them. */
  datatype View = View(m: Shared, me: Local)

  datatype State = State(m: Shared, tasks: seq<Local>)

  datatype Action =
    | OpRequest(t: Task, suspendFetch: bool, blocking: bool)
    | OpAcquire(t: Task)
    | OpEntered(t: Task)
    | OpFinish(t: Task)
    | OpLeft(t: Task)
    | DisconnectCall(t: Task)
    | PauseCall(t: Task)
    | ResumeCall(t: Task)
    | DiscAcquire(t: Task)
    | TeardownDone(t: Task)
    | TeardownRaises(t: Task)
    | ReconnectCall(t: Task)
    | ReconnectAcquire(t: Task, connected: bool)
    | ConnectDone(t: Task)
    | ConnectFails(t: Task)
    | Cancelled(t: Task)

  predicate Enabled(v: View, a: Action) {
    var pc := v.me.pc;
    match a
    case OpRequest(_, _, _) => pc.Idle?
    case OpAcquire(_) => pc.OpWaiting? && !v.m.opLocked
    case OpEntered(_) => pc.OpEntering?
    case OpFinish(_) => pc.OpBody?
    case OpLeft(_) => pc.OpLeaving?
    case DisconnectCall(_) => pc.Idle?
    case PauseCall(_) => pc.Idle?
    case ResumeCall(_) => pc.Idle?
    case DiscAcquire(_) => pc.DiscWaiting? && !v.m.opLocked
    case TeardownDone(_) => pc.DiscTeardown?
    case TeardownRaises(_) => pc.DiscTeardown?
    case ReconnectCall(_) => pc.Idle?
    case ReconnectAcquire(_, connected) => pc.RecWaiting? && !v.m.recLocked && (connected ==> v.m.backend.Some?)
    case ConnectDone(_) => pc.Connecting?
    case ConnectFails(_) => pc.Connecting?
    case Cancelled(_) => !pc.Idle?
  }

  // ------------------------------------------------------------ pieces of steps

  function Goto(v: View, pc: Pc): View {
    v.(me := v.me.(pc := pc))
  }

  function Acquire(v: View): View {
    v.(m := v.m.(opLocked := true), me := v.me.(acquired := v.me.acquired + 1))
  }

  /** Releasing never asks who holds the lock; an unlocked lock is only logged. */
  function Release(v: View): View {
    if v.m.opLocked then v.(m := v.m.(opLocked := false), me := v.me.(released := v.me.released + 1))
    else v.(m := v.m.(badRelease := true))
  }

  /** Leaving reconnect() gives the reconnect lock back. */
  function EndReconnect(v: View): View {
    Goto(v, Idle).(m := v.m.(recLocked := false))
  }

  function Abort(v: View): View {
    v.(m := v.m.(aborted := v.m.backend.Some?))
  }

  /** connect(): tear down what is there, else open the transport. */
  function BeginConnect(v: View): View {
    Goto(v, if v.m.backend.Some? then DiscWaiting(Reopen) else Connecting)
  }

  /** What the caller of disconnect() does when it returns. */
  function AfterDisconnect(v: View, p: Purpose): View {
    match p
    case Plain => Goto(v, Idle)
    case Pause => Goto(v, Idle)
    case Stale => BeginConnect(v)
    case Reopen => Goto(v, Connecting)
    case Unwanted => EndReconnect(v)
  }

  /** What the caller of disconnect() does when it raises. */
  function AfterFailure(v: View, p: Purpose): View {
    match p
    case Plain => Goto(v, Idle)
    case Pause => Abort(Goto(v, Idle))
    case Stale => BeginConnect(v)
    case Reopen => EndReconnect(v)
    case Unwanted => Abort(EndReconnect(v))
  }

  /** A cancellation is not caught by reconnect()'s handlers. */
  function AfterCancel(v: View, p: Purpose): View {
    match p
    case Plain => Goto(v, Idle)
    case Pause => Abort(Goto(v, Idle))
    case Stale => EndReconnect(v)
    case Reopen => EndReconnect(v)
    case Unwanted => Abort(EndReconnect(v))
  }

  function CallDisconnect(v: View, p: Purpose): View {
    if v.m.backend.None? then AfterDisconnect(v, p) else Goto(v, DiscWaiting(p))
  }

  /** The end of a radio_operation body: restart auto fetch if it was stopped, then release. */
  function LeaveBody(v: View, be: Backend, suspended: bool): View {
    if suspended then Goto(v, OpLeaving(be)) else Goto(Release(v), Idle)
  }

  // ------------------------------------------------------------ steps

  function Act(v: View, a: Action): View
    requires Enabled(v, a)
  {
    var pc := v.me.pc;
    match a
    case OpRequest(_, suspendFetch, blocking) =>
      if !blocking && v.m.opLocked then v else Goto(v, OpWaiting(suspendFetch))
    case OpAcquire(_) =>
      if v.m.backend.None? then Goto(Release(Acquire(v)), Idle)
      else Goto(Acquire(v), if pc.suspendFetch then OpEntering(v.m.backend.value) else OpBody(v.m.backend.value, false))
    case OpEntered(_) => Goto(v, OpBody(pc.be, true))
    case OpFinish(_) => LeaveBody(v, pc.be, pc.suspended)
    case OpLeft(_) => Goto(Release(v), Idle)
    case DisconnectCall(_) => CallDisconnect(v, Plain)
    case PauseCall(_) => CallDisconnect(v.(m := v.m.(desired := false)), Pause)
    case ResumeCall(_) => v.(m := v.m.(desired := true))
    case DiscAcquire(_) =>
      if v.m.backend.None? then AfterDisconnect(Release(Acquire(v)), pc.purpose)
      else Goto(Acquire(v), DiscTeardown(pc.purpose, v.m.backend.value))
    case TeardownDone(_) => AfterDisconnect(Release(v.(m := v.m.(backend := None, aborted := false))), pc.purpose)
    case TeardownRaises(_) => AfterFailure(Release(v), pc.purpose)
    case ReconnectCall(_) => Goto(v, RecWaiting)
    case ReconnectAcquire(_, connected) =>
      if !v.m.desired || connected then Goto(v, Idle)
      else CallDisconnect(v.(m := v.m.(recLocked := true)), Stale)
    case ConnectDone(_) =>
      var v1 := v.(m := v.m.(backend := Some(v.m.nextBackend), nextBackend := v.m.nextBackend + 1));
      if v.m.desired then EndReconnect(v1) else CallDisconnect(v1, Unwanted)
    case ConnectFails(_) => EndReconnect(v)
    case Cancelled(_) =>
      match pc
      case Idle => v
      case OpWaiting(_) => Goto(v, Idle)
      case OpEntering(_) => Goto(Release(v), Idle)
      case OpBody(be, suspended) => LeaveBody(v, be, suspended)
      case OpLeaving(_) => Goto(Release(v), Idle)
      case DiscWaiting(p) => AfterCancel(v, p)
      case DiscTeardown(p, _) => AfterCancel(Release(v), p)
      case RecWaiting => Goto(v, Idle)
      case Connecting => EndReconnect(v)
  }

  predicate Possible(s: State, a: Action) {
    a.t < |s.tasks| && Enabled(View(s.m, s.tasks[a.t]), a)
  }

  function Step(s: State, a: Action): State
    requires Possible(s, a)
  {
    var v := Act(View(s.m, s.tasks[a.t]), a);
    State(v.m, s.tasks[a.t := v.me])
  }

  // ------------------------------------------------------------ what a state promises

  /** Suspended between acquiring and releasing the operation lock. */
  predicate HoldsOp(l: Local) {
    l.pc.OpEntering? || l.pc.OpBody? || l.pc.OpLeaving? || l.pc.DiscTeardown?
  }

  predicate Disconnecting(l: Local) {
    l.pc.DiscWaiting? || l.pc.DiscTeardown?
  }

  predicate HoldsRec(l: Local) {
    l.pc.Connecting? || (Disconnecting(l) && (l.pc.purpose.Stale? || l.pc.purpose.Reopen? || l.pc.purpose.Unwanted?))
  }

  /** A task that will take the transport down because the operator wants no connection. */
  predicate TakingDown(l: Local) {
    Disconnecting(l) && (l.pc.purpose.Pause? || l.pc.purpose.Unwanted?)
  }

  ghost predicate Exclusive(s: State) {
    && (forall t, u :: 0 <= t < |s.tasks| && 0 <= u < |s.tasks| && HoldsOp(s.tasks[t]) && HoldsOp(s.tasks[u]) ==>
         t == u)
    && (s.m.opLocked <==> exists t :: 0 <= t < |s.tasks| && HoldsOp(s.tasks[t]))
    && (forall t, u :: 0 <= t < |s.tasks| && 0 <= u < |s.tasks| && HoldsRec(s.tasks[t]) && HoldsRec(s.tasks[u]) ==>
         t == u)
    && (s.m.recLocked <==> exists t :: 0 <= t < |s.tasks| && HoldsRec(s.tasks[t]))
  }

  /** A task has released the lock as often as it took it, but for the one acquisition it still holds; while it holds
      the lock it works on the current backend; it opens a transport only when there is none. */
  ghost predicate TaskSound(m: Shared, l: Local) {
    && l.acquired == l.released + (if HoldsOp(l) then 1 else 0)
    && (HoldsOp(l) ==> m.backend == Some(l.pc.be))
    && (l.pc.Connecting? ==> m.backend == None)
    && (m.aborted ==> m.backend.Some?)
  }

  /** Unless a take-down was aborted, an unwanted transport has a task on its way to take it down. */
  ghost predicate PauseHonoured(s: State) {
    !s.m.desired && s.m.backend.Some? && !s.m.aborted ==> exists t :: 0 <= t < |s.tasks| && TakingDown(s.tasks[t])
  }

  ghost predicate Inv(s: State) {
    && Exclusive(s)
    && !s.m.badRelease
    && (forall t :: 0 <= t < |s.tasks| ==> TaskSound(s.m, s.tasks[t]))
    && (s.m.aborted ==> s.m.backend.Some?)
    && PauseHonoured(s)
  }

  predicate Init(s: State) {
    && (forall t :: 0 <= t < |s.tasks| ==> s.tasks[t] == Local(Idle, 0, 0))
    && s.m == Shared(false, false, true, None, 0, false, false)
  }

  // ------------------------------------------------------------ every step keeps the invariant

  /** How a step may change the shared state: it takes a free lock or gives back its own, and it replaces the backend
      only as the task tearing it down or as the task connecting. */
  ghost predicate Lawful(v: View, w: View) {
    && w.m.badRelease == v.m.badRelease
    && (if HoldsOp(v.me) then w.m.opLocked == HoldsOp(w.me)
        else if HoldsOp(w.me) then !v.m.opLocked && w.m.opLocked
        else w.m.opLocked == v.m.opLocked)
    && (if HoldsRec(v.me) then w.m.recLocked == HoldsRec(w.me)
        else if HoldsRec(w.me) then !v.m.recLocked && w.m.recLocked
        else w.m.recLocked == v.m.recLocked)
    && (w.m.backend != v.m.backend ==>
         (v.me.pc.DiscTeardown? && w.m.backend == None) || (v.me.pc.Connecting? && v.m.backend == None))
    && (HoldsOp(v.me) && HoldsOp(w.me) ==> w.me.pc.be == v.me.pc.be)
    && TaskSound(w.m, w.me)
    && (!w.m.desired && w.m.backend.Some? && !w.m.aborted && !TakingDown(w.me) ==>
          !v.m.desired && v.m.backend.Some? && !v.m.aborted && !TakingDown(v.me))
  }

  /** What the invariant says about the task about to move. */
  ghost predicate Sound(v: View) {
    TaskSound(v.m, v.me) && (HoldsOp(v.me) ==> v.m.opLocked) && (HoldsRec(v.me) ==> v.m.recLocked)
  }

  lemma OperationIsLawful(v: View, a: Action)
    requires Enabled(v, a) && Sound(v)
    requires a.OpRequest? || a.OpAcquire? || a.OpEntered? || a.OpFinish? || a.OpLeft?
    ensures Lawful(v, Act(v, a))
  {
  }

  lemma DisconnectIsLawful(v: View, a: Action)
    requires Enabled(v, a) && Sound(v)
    requires a.DisconnectCall? || a.PauseCall? || a.ResumeCall? || a.DiscAcquire?
    ensures Lawful(v, Act(v, a))
  {
  }

  lemma TeardownIsLawful(v: View, a: Action)
    requires Enabled(v, a) && Sound(v)
    requires a.TeardownDone? || a.TeardownRaises?
    ensures Lawful(v, Act(v, a))
  {
  }

  lemma ReconnectIsLawful(v: View, a: Action)
    requires Enabled(v, a) && Sound(v)
    requires a.ReconnectCall? || a.ReconnectAcquire? || a.ConnectDone? || a.ConnectFails?
    ensures Lawful(v, Act(v, a))
  {
  }

  lemma CancelledDisconnectIsLawful(v: View, a: Action)
    requires Enabled(v, a) && Sound(v) && a.Cancelled? && Disconnecting(v.me)
    ensures Lawful(v, Act(v, a))
  {
  }

  lemma CancelIsLawful(v: View, a: Action)
    requires Enabled(v, a) && Sound(v) && a.Cancelled?
    ensures Lawful(v, Act(v, a))
  {
    if Disconnecting(v.me) {
      CancelledDisconnectIsLawful(v, a);
    }
  }

  lemma ActIsLawful(v: View, a: Action)
    requires Enabled(v, a) && Sound(v)
    ensures Lawful(v, Act(v, a))
  {
    if a.OpRequest? || a.OpAcquire? || a.OpEntered? || a.OpFinish? || a.OpLeft? {
      OperationIsLawful(v, a);
    } else if a.DisconnectCall? || a.PauseCall? || a.ResumeCall? || a.DiscAcquire? {
      DisconnectIsLawful(v, a);
    } else if a.TeardownDone? || a.TeardownRaises? {
      TeardownIsLawful(v, a);
    } else if a.Cancelled? {
      CancelIsLawful(v, a);
    } else {
      ReconnectIsLawful(v, a);
    }
  }

  lemma LawfulKeepsExclusive(s: State, t: Task, w: View)
    requires Exclusive(s) && t < |s.tasks| && Lawful(View(s.m, s.tasks[t]), w)
    ensures Exclusive(State(w.m, s.tasks[t := w.me]))
  {
    var s' := State(w.m, s.tasks[t := w.me]);
    assert forall u :: 0 <= u < |s.tasks| ==> s'.tasks[u] == if u == t then w.me else s.tasks[u];
    if s.m.opLocked {
      var u :| 0 <= u < |s.tasks| && HoldsOp(s.tasks[u]);
      assert HoldsOp(s'.tasks[u]) || (u == t && !w.m.opLocked);
    }
    if s.m.recLocked {
      var u :| 0 <= u < |s.tasks| && HoldsRec(s.tasks[u]);
      assert HoldsRec(s'.tasks[u]) || (u == t && !w.m.recLocked);
    }
    assert HoldsOp(w.me) ==> HoldsOp(s'.tasks[t]);
    assert HoldsRec(w.me) ==> HoldsRec(s'.tasks[t]);
  }

  lemma LawfulKeepsPause(s: State, t: Task, w: View)
    requires PauseHonoured(s) && t < |s.tasks| && Lawful(View(s.m, s.tasks[t]), w)
    ensures PauseHonoured(State(w.m, s.tasks[t := w.me]))
  {
    var s' := State(w.m, s.tasks[t := w.me]);
    if TakingDown(w.me) {
      assert TakingDown(s'.tasks[t]);
    } else if !s'.m.desired && s'.m.backend.Some? && !s'.m.aborted {
      var u :| 0 <= u < |s.tasks| && TakingDown(s.tasks[u]);
      assert u != t && TakingDown(s'.tasks[u]);
    }
  }

  lemma LawfulKeepsInv(s: State, t: Task, w: View)
    requires Inv(s) && t < |s.tasks| && Lawful(View(s.m, s.tasks[t]), w)
    ensures Inv(State(w.m, s.tasks[t := w.me]))
  {
    LawfulKeepsExclusive(s, t, w);
    LawfulKeepsPause(s, t, w);
    forall u | 0 <= u < |s.tasks| && u != t ensures TaskSound(w.m, s.tasks[u]) {
      assert HoldsOp(s.tasks[t]) ==> !HoldsOp(s.tasks[u]);
      assert HoldsRec(s.tasks[t]) ==> !HoldsRec(s.tasks[u]);
    }
  }

  lemma StepKeepsInv(s: State, a: Action)
    requires Inv(s) && Possible(s, a)
    ensures Inv(Step(s, a)) && Lawful(View(s.m, s.tasks[a.t]), Act(View(s.m, s.tasks[a.t]), a))
  {
    var v := View(s.m, s.tasks[a.t]);
    ActIsLawful(v, a);
    LawfulKeepsInv(s, a.t, Act(v, a));
  }

  // ------------------------------------------------------------ runs

  ghost predicate Leads(s: State, a: Action, s': State) {
    Possible(s, a) && Step(s, a) == s'
  }

  /** A run of any number of tasks: states linked by possible actions, from a start-up state. */
  ghost predicate IsRun(states: seq<State>, actions: seq<Action>) {
    && |states| == |actions| + 1
    && Init(states[0])
    && forall i {:trigger actions[i]} :: 0 <= i < |actions| ==> Leads(states[i], actions[i], states[i + 1])
  }

  lemma {:induction false} RunKeepsInv(states: seq<State>, actions: seq<Action>, i: nat)
    requires IsRun(states, actions) && i < |states|
    ensures Inv(states[i])
  {
    if i > 0 {
      RunKeepsInv(states, actions, i - 1);
      StepKeepsInv(states[i - 1], actions[i - 1]);
    }
  }

  /** Main result 1: at every moment of every run at most one task is between acquiring and releasing the operation
      lock, the lock is locked exactly while some task is there, no release ever finds it unlocked, and each task
      has released it exactly as often as it took it, but for the acquisition it still holds. */
  lemma OperationLockIsExclusive(states: seq<State>, actions: seq<Action>, i: nat, t: Task, u: Task)
    requires IsRun(states, actions) && i < |states|
    requires t < |states[i].tasks| && u < |states[i].tasks|
    ensures HoldsOp(states[i].tasks[t]) && HoldsOp(states[i].tasks[u]) ==> t == u
    ensures states[i].m.opLocked <==> exists x :: 0 <= x < |states[i].tasks| && HoldsOp(states[i].tasks[x])
    ensures !states[i].m.badRelease
    ensures states[i].tasks[t].acquired == states[i].tasks[t].released + if HoldsOp(states[i].tasks[t]) then 1 else 0
  {
    RunKeepsInv(states, actions, i);
  }

  /** A task that holds the lock before and after a step still works on the manager's backend. */
  lemma StepKeepsHeldBackend(s: State, a: Action, t: Task)
    requires Inv(s) && Possible(s, a) && t < |s.tasks|
    requires HoldsOp(s.tasks[t]) && HoldsOp(Step(s, a).tasks[t])
    ensures Step(s, a).m.backend == s.m.backend && Step(s, a).tasks[t].pc.be == s.tasks[t].pc.be
  {
    var v := View(s.m, s.tasks[a.t]);
    ActIsLawful(v, a);
    assert t == a.t || !HoldsOp(s.tasks[a.t]);
    assert s.m.backend.Some?;
  }

  /** Main result 2: from the step that gives a task the lock until the step that takes it back, the manager's
      backend is the one the task was handed, whatever other tasks do in between. */
  lemma {:induction false} BackendStaysDuringOperation(states: seq<State>, actions: seq<Action>, first: nat, last: nat,
                                                       t: Task)
    requires IsRun(states, actions) && first <= last < |states|
    requires forall i :: first <= i <= last ==> t < |states[i].tasks| && HoldsOp(states[i].tasks[t])
    ensures states[first].m.backend.Some?
    ensures HoldsOp(states[last].tasks[t]) && states[last].tasks[t].pc.be == states[first].m.backend.value
    ensures states[last].m.backend == states[first].m.backend
    decreases last
  {
    if first == last {
      RunKeepsInv(states, actions, first);
      assert TaskSound(states[first].m, states[first].tasks[t]);
    } else {
      BackendStaysDuringOperation(states, actions, first, last - 1, t);
      RunKeepsInv(states, actions, last - 1);
      assert Leads(states[last - 1], actions[last - 1], states[last]);
      StepKeepsHeldBackend(states[last - 1], actions[last - 1], t);
    }
  }

  /** Main result 3: while no connection is desired and nothing is taking the transport down, there is no backend,
      except exactly when the transport has survived an aborted take-down. */
  lemma PausedMeansNoBackend(states: seq<State>, actions: seq<Action>, i: nat)
    requires IsRun(states, actions) && i < |states| && !states[i].m.desired
    requires forall t :: 0 <= t < |states[i].tasks| ==> !TakingDown(states[i].tasks[t])
    ensures states[i].m.backend == None <==> !states[i].m.aborted
  {
    RunKeepsInv(states, actions, i);
  }

  /** An aborted take-down is forgotten by the next teardown that succeeds, and by nothing else; only a take-down that
      raises or is cancelled aborts. */
  lemma AbortedUntilTornDown(states: seq<State>, actions: seq<Action>, i: nat)
    requires IsRun(states, actions) && i < |actions|
    ensures states[i].m.aborted && !states[i + 1].m.aborted ==> actions[i].TeardownDone?
    ensures actions[i].TeardownDone? ==> !states[i + 1].m.aborted && states[i + 1].m.backend == None
    ensures !states[i].m.aborted && states[i + 1].m.aborted ==>
              (actions[i].TeardownRaises? || actions[i].Cancelled?) && TakingDown(states[i].tasks[actions[i].t])
  {
    RunKeepsInv(states, actions, i);
    assert Leads(states[i], actions[i], states[i + 1]);
    AbortOf(View(states[i].m, states[i].tasks[actions[i].t]), actions[i]);
  }

  lemma AbortOf(v: View, a: Action)
    requires Enabled(v, a) && Sound(v)
    ensures v.m.aborted && !Act(v, a).m.aborted ==> a.TeardownDone?
    ensures a.TeardownDone? ==> !Act(v, a).m.aborted && Act(v, a).m.backend == None
    ensures !v.m.aborted && Act(v, a).m.aborted ==> (a.TeardownRaises? || a.Cancelled?) && TakingDown(v.me)
  {
  }

  /** Only the operator decides what is desired, and while no connection is desired no reconnect gets past its lock. */
  lemma DesireIsTheOperators(s: State, a: Action)
    requires Inv(s) && Possible(s, a)
    ensures Step(s, a).m.desired == (a.ResumeCall? || (s.m.desired && !a.PauseCall?))
    ensures !s.m.recLocked && Step(s, a).m.recLocked ==> s.m.desired
    ensures !s.m.desired && a.ReconnectAcquire? ==> Step(s, a).m == s.m && Step(s, a).tasks[a.t].pc.Idle?
  {
    var v := View(s.m, s.tasks[a.t]);
    DesireOf(v, a);
  }

  lemma DesireOf(v: View, a: Action)
    requires Enabled(v, a) && Sound(v)
    ensures Act(v, a).m.desired == (a.ResumeCall? || (v.m.desired && !a.PauseCall?))
    ensures !v.m.recLocked && Act(v, a).m.recLocked ==> v.m.desired
    ensures !v.m.desired && a.ReconnectAcquire? ==> Act(v, a).m == v.m && Act(v, a).me.pc.Idle?
  {
  }

  // ------------------------------------------------------------ what each step comes to

  ghost predicate OnlyMoves(s: State, s': State, t: Task, pc: Pc)
    requires t < |s.tasks|
  {
    s'.m == s.m && s'.tasks == s.tasks[t := s.tasks[t].(pc := pc)]
  }

  /** Where a step leaves the moving task, with the operation lock and the backend. */
  ghost predicate Leaves(s: State, s': State, t: Task, pc: Pc, locked: bool, backend: Option<Backend>)
    requires t < |s.tasks| && t < |s'.tasks|
  {
    s'.tasks[t].pc == pc && s'.m.opLocked == locked && s'.m.backend == backend
  }

  /** Requests and operations.  A non-blocking request is refused iff the lock is held.  An operation that takes the
      free lock is refused iff there is no backend; else it holds the lock with that backend, and stops auto fetch
      first iff asked.  It restarts auto fetch iff it stopped it, keeping the lock meanwhile, and then releases. */
  lemma OperationOutcomes(s: State, a: Action)
    requires Inv(s) && Possible(s, a)
    ensures var pc, s', be := s.tasks[a.t].pc, Step(s, a), s.m.backend;
            && (a.OpRequest? ==>
                  OnlyMoves(s, s', a.t, if !a.blocking && s.m.opLocked then Idle else OpWaiting(a.suspendFetch)))
            && (a.OpAcquire? ==>
                  if be.None? then Leaves(s, s', a.t, Idle, false, be)
                  else Leaves(s, s', a.t, if pc.suspendFetch then OpEntering(be.value) else OpBody(be.value, false),
                              true, be))
            && (a.OpEntered? ==> OnlyMoves(s, s', a.t, OpBody(be.value, true)) && be.Some?)
            && (a.OpFinish? || (a.Cancelled? && pc.OpBody?) ==>
                  if pc.suspended then OnlyMoves(s, s', a.t, OpLeaving(pc.be))
                  else Leaves(s, s', a.t, Idle, false, be))
            && (a.OpLeft? || (a.Cancelled? && (pc.OpEntering? || pc.OpLeaving?)) ==>
                  Leaves(s, s', a.t, Idle, false, be))
            && (a.Cancelled? && pc.OpWaiting? ==> OnlyMoves(s, s', a.t, Idle))
  {
    assert TaskSound(s.m, s.tasks[a.t]);
  }

  /** Pausing, resuming and disconnecting: nothing is waited for without a backend, and the lock is taken before the
      transport is touched. */
  lemma DisconnectOutcomes(s: State, a: Action)
    requires Inv(s) && Possible(s, a)
    ensures var pc, s', be := s.tasks[a.t].pc, Step(s, a), s.m.backend;
            && (a.ResumeCall? ==> s' == s.(m := s.m.(desired := true)))
            && (a.DisconnectCall? || a.PauseCall? ==>
                  && s'.m == (if a.PauseCall? then s.m.(desired := false) else s.m)
                  && s'.tasks[a.t].pc ==
                     if be.None? then Idle else DiscWaiting(if a.PauseCall? then Pause else Plain))
            && (a.DiscAcquire? && be.Some? ==> Leaves(s, s', a.t, DiscTeardown(pc.purpose, be.value), true, be))
            && (a.DiscAcquire? && be.None? ==>
                  Leaves(s, s', a.t, if pc.purpose.Stale? || pc.purpose.Reopen? then Connecting else Idle, false, None))
  {
  }

  /** A teardown ends without backend and lock when it succeeds, and releases the lock but leaves the backend when it
      fails or is cancelled; connect() goes on without a transport, and after a failed attempt on a dead one. */
  lemma TeardownOutcomes(s: State, a: Action)
    requires Inv(s) && Possible(s, a)
    ensures var pc, s', be := s.tasks[a.t].pc, Step(s, a), s.m.backend;
            && (a.TeardownDone? ==>
                  Leaves(s, s', a.t, if pc.purpose.Stale? || pc.purpose.Reopen? then Connecting else Idle, false, None))
            && (a.TeardownRaises? ==>
                  Leaves(s, s', a.t, if pc.purpose.Stale? then DiscWaiting(Reopen) else Idle, false, be))
            && (a.Cancelled? && pc.DiscTeardown? ==> Leaves(s, s', a.t, Idle, false, be))
            && (a.Cancelled? && pc.DiscWaiting? ==> Leaves(s, s', a.t, Idle, s.m.opLocked, be))
  {
    assert TaskSound(s.m, s.tasks[a.t]);
  }

  /** Reconnecting.  It returns at once iff no connection is wanted or there is one; else it takes a dead transport
      down first, and opens one only where there is none.  A transport that opens is kept iff it is still wanted. */
  lemma ReconnectOutcomes(s: State, a: Action)
    requires Inv(s) && Possible(s, a)
    ensures var s', be := Step(s, a), s.m.backend;
            && (a.ReconnectCall? ==> OnlyMoves(s, s', a.t, RecWaiting))
            && (a.ReconnectAcquire? ==>
                  if !s.m.desired || a.connected then OnlyMoves(s, s', a.t, Idle)
                  else && s'.m == s.m.(recLocked := true)
                       && s'.tasks[a.t].pc == if be.Some? then DiscWaiting(Stale) else Connecting)
            && (a.ConnectDone? ==>
                  && be.None? && s'.m.backend == Some(s.m.nextBackend) && s'.m.nextBackend == s.m.nextBackend + 1
                  && s'.m.opLocked == s.m.opLocked
                  && s'.m.recLocked == !s.m.desired
                  && s'.tasks[a.t].pc == if s.m.desired then Idle else DiscWaiting(Unwanted))
            && (a.ConnectFails? || (a.Cancelled? && s.tasks[a.t].pc.Connecting?) ==>
                  Leaves(s, s', a.t, Idle, s.m.opLocked, None) && !s'.m.recLocked)
  {
    assert TaskSound(s.m, s.tasks[a.t]);
  }

  /** In every run an operation that gets the lock is let in exactly when there is a backend, and with that backend. */
  lemma OperationEntersIffConnected(states: seq<State>, actions: seq<Action>, i: nat)
    requires IsRun(states, actions) && i < |actions| && actions[i].OpAcquire?
    ensures var l := states[i + 1].tasks[actions[i].t];
            && (HoldsOp(l) <==> states[i].m.backend.Some?)
            && (HoldsOp(l) ==> states[i].m.backend == Some(l.pc.be) && (l.pc.OpEntering? || l.pc.OpBody?))
            && (!HoldsOp(l) ==> l.pc.Idle? && !states[i + 1].m.opLocked)
  {
    RunKeepsInv(states, actions, i);
    assert Leads(states[i], actions[i], states[i + 1]);
    OperationOutcomes(states[i], actions[i]);
  }

  /** Inside an operation, auto fetch has been stopped iff that was asked for. */
  predicate AsAsked(pc: Pc, suspendFetch: bool) {
    match pc
    case OpWaiting(asked) => asked == suspendFetch
    case OpEntering(_) => suspendFetch
    case OpBody(_, suspended) => suspended == suspendFetch
    case OpLeaving(_) => suspendFetch
    case _ => true
  }

  lemma StepAsAsked(v: View, a: Action, suspendFetch: bool)
    requires Enabled(v, a) && !a.OpRequest? && AsAsked(v.me.pc, suspendFetch)
    ensures AsAsked(Act(v, a).me.pc, suspendFetch)
  {
  }

  /** In every run, from a task's request to its next one, its operation runs its body with auto fetch stopped iff the
      request asked for it, and restarts it on the way out only then. */
  lemma {:induction false} BodyRunsAsAsked(states: seq<State>, actions: seq<Action>, request: nat, last: nat, t: Task)
    requires IsRun(states, actions) && request < last < |states|
    requires actions[request].OpRequest? && actions[request].t == t
    requires forall i :: request < i < last ==> !(actions[i].OpRequest? && actions[i].t == t)
    ensures t < |states[last].tasks| && AsAsked(states[last].tasks[t].pc, actions[request].suspendFetch)
    decreases last
  {
    var i := last - 1;
    assert Leads(states[i], actions[i], states[i + 1]);
    if i > request {
      BodyRunsAsAsked(states, actions, request, i, t);
      if actions[i].t == t {
        StepAsAsked(View(states[i].m, states[i].tasks[t]), actions[i], actions[request].suspendFetch);
      }
    }
  }

  // ------------------------------------------------------------ nothing gets stuck

  /** Steps by which a task goes on with what it is doing. */
  predicate Continues(a: Action) {
    || a.OpAcquire? || a.OpEntered? || a.OpFinish? || a.OpLeft? || a.DiscAcquire? || a.TeardownDone?
    || a.ReconnectAcquire? || a.ConnectDone?
  }

  lemma HolderContinues(s: State, t: Task) returns (a: Action)
    requires t < |s.tasks| && HoldsOp(s.tasks[t])
    ensures a.t == t && Continues(a) && Possible(s, a)
  {
    var pc := s.tasks[t].pc;
    if pc.OpEntering? { a := OpEntered(t); }
    else if pc.OpBody? { a := OpFinish(t); }
    else if pc.OpLeaving? { a := OpLeft(t); }
    else { a := TeardownDone(t); }
  }

  /** A task waiting for the operation lock takes it when it is free; else its holder can go on. */
  lemma WaiterContinues(s: State, t: Task) returns (a: Action)
    requires Inv(s) && t < |s.tasks| && (s.tasks[t].pc.OpWaiting? || s.tasks[t].pc.DiscWaiting?)
    ensures Continues(a) && Possible(s, a) && (a.t == t || (s.m.opLocked && HoldsOp(s.tasks[a.t])))
  {
    if s.m.opLocked {
      var u :| 0 <= u < |s.tasks| && HoldsOp(s.tasks[u]);
      a := HolderContinues(s, u);
    } else {
      a := if s.tasks[t].pc.OpWaiting? then OpAcquire(t) else DiscAcquire(t);
    }
  }

  /** Main result 4, no deadlock: in every reachable state, as long as any task is busy, some task can go on: the task
      itself, or the holder of a lock it waits for, or the holder of the lock that one waits for. */
  lemma SomeTaskContinues(s: State, t: Task) returns (a: Action)
    requires Inv(s) && t < |s.tasks| && !s.tasks[t].pc.Idle?
    ensures Continues(a) && Possible(s, a)
    ensures a.t == t || (s.m.opLocked && HoldsOp(s.tasks[a.t])) || (s.m.recLocked && HoldsRec(s.tasks[a.t]))
  {
    var pc := s.tasks[t].pc;
    if HoldsOp(s.tasks[t]) {
      a := HolderContinues(s, t);
    } else if pc.OpWaiting? || pc.DiscWaiting? {
      a := WaiterContinues(s, t);
    } else if pc.Connecting? {
      a := ConnectDone(t);
    } else if !s.m.recLocked {
      a := ReconnectAcquire(t, false);
    } else {
      var u :| 0 <= u < |s.tasks| && HoldsRec(s.tasks[u]);
      if s.tasks[u].pc.Connecting? { a := ConnectDone(u); }
      else if HoldsOp(s.tasks[u]) { a := HolderContinues(s, u); }
      else { a := WaiterContinues(s, u); }
    }
  }

  /** And every await can fail: a teardown can raise, a connect can fail, any busy task can be cancelled. */
  lemma AnythingCanFail(s: State, t: Task)
    requires t < |s.tasks|
    ensures s.tasks[t].pc.DiscTeardown? ==> Possible(s, TeardownRaises(t))
    ensures s.tasks[t].pc.Connecting? ==> Possible(s, ConnectFails(t))
    ensures !s.tasks[t].pc.Idle? ==> Possible(s, Cancelled(t))
    ensures s.tasks[t].pc.RecWaiting? && !s.m.recLocked && s.m.backend.Some? ==> Possible(s, ReconnectAcquire(t, true))
  {
  }

  /** A call can be made whenever its task is idle. */
  lemma AnythingCanBeCalled(s: State, t: Task, suspendFetch: bool, blocking: bool)
    requires t < |s.tasks| && s.tasks[t].pc.Idle?
    ensures Possible(s, OpRequest(t, suspendFetch, blocking)) && Possible(s, DisconnectCall(t))
    ensures Possible(s, PauseCall(t)) && Possible(s, ResumeCall(t)) && Possible(s, ReconnectCall(t))
  {
  }

  const UNCONNECTED := Shared(false, false, true, None, 0, false, false)

  const CONNECTED := Shared(false, false, true, Some(0), 1, false, false)

  lemma ConnectAlone()
    ensures Leads(State(UNCONNECTED, [Local(Idle, 0, 0)]), ReconnectCall(0),
              State(UNCONNECTED, [Local(RecWaiting, 0, 0)]))
    ensures Leads(State(UNCONNECTED, [Local(RecWaiting, 0, 0)]), ReconnectAcquire(0, false),
                  State(UNCONNECTED.(recLocked := true), [Local(Connecting, 0, 0)]))
    ensures Leads(State(UNCONNECTED.(recLocked := true), [Local(Connecting, 0, 0)]), ConnectDone(0),
              State(CONNECTED, [Local(Idle, 0, 0)]))
  {
  }

  lemma PauseAlone()
    ensures Leads(State(CONNECTED, [Local(Idle, 0, 0)]), PauseCall(0),
                  State(CONNECTED.(desired := false), [Local(DiscWaiting(Pause), 0, 0)]))
    ensures Leads(State(CONNECTED.(desired := false), [Local(DiscWaiting(Pause), 0, 0)]), DiscAcquire(0),
                  State(CONNECTED.(desired := false, opLocked := true), [Local(DiscTeardown(Pause, 0), 1, 0)]))
    ensures Leads(State(CONNECTED.(desired := false, opLocked := true), [Local(DiscTeardown(Pause, 0), 1, 0)]),
              TeardownRaises(0),
                  State(CONNECTED.(desired := false, aborted := true), [Local(Idle, 1, 1)]))
  {
  }

  /** The exception is real: when the transport teardown of a pause raises, every task ends idle with the
      connection unwanted and the backend still in place. */
  lemma TeardownFailureLeavesBackend() returns (states: seq<State>, actions: seq<Action>)
    ensures IsRun(states, actions)
    ensures var last := states[|states| - 1];
            !last.m.desired && last.m.backend.Some? && forall t :: 0 <= t < |last.tasks| ==> last.tasks[t].pc.Idle?
  {
    actions := [ReconnectCall(0), ReconnectAcquire(0, false), ConnectDone(0), PauseCall(0), DiscAcquire(0),
                TeardownRaises(0)];
    states := [State(UNCONNECTED, [Local(Idle, 0, 0)]),
               State(UNCONNECTED, [Local(RecWaiting, 0, 0)]),
               State(UNCONNECTED.(recLocked := true), [Local(Connecting, 0, 0)]),
               State(CONNECTED, [Local(Idle, 0, 0)]),
               State(CONNECTED.(desired := false), [Local(DiscWaiting(Pause), 0, 0)]),
               State(CONNECTED.(desired := false, opLocked := true), [Local(DiscTeardown(Pause, 0), 1, 0)]),
               State(CONNECTED.(desired := false, aborted := true), [Local(Idle, 1, 1)])];
    ConnectAlone();
    PauseAlone();
    forall i | 0 <= i < 6 ensures Leads(states[i], actions[i], states[i + 1]) {
    }
  }
}

/**
 * The MQTT publisher's connection loop: connect, park until the settings version changes, reconnect, back off.
 *
 * One background task runs the loop; start, stop and failing publishes run in other tasks.  The code between two
 * awaits is one atomic step, and the loop's position is the await it is suspended at.
 */
module MqttLoop {
  import opened Common

  const BACKOFF_MIN := 5

  /** What a subclass decides: which settings ask for a connection, given the keystore, whether the wait of an
      unconfigured loop times out, and how far the backoff grows.  The community publisher needs keys and has a timeout;
      the others look at their settings alone and wait for the event only. */
  datatype Config<!S, !K> = Config(configured: (S, K) -> bool, idleTimeout: bool, backoffMax: nat)

  /** Where the loop is suspended.  `s` and `v` are the settings and version captured before connecting. */
  datatype Loop<S, K> =
    | NoTask
    | Done
    | Top                                    // about to test whether it is configured
    | IdleWait(seen: K)                      // not configured under the keys then seen, waiting on the event
    | PreConnect(s: S, v: nat)
    | HookWait                               // the hook before connecting has cleared the event and waits on it
    | Opening(s: S, v: nat)                  // entering the client's context
    | Greeting(s: S, v: nat)                 // connected, running the connect hook
    | Parked(s: S, v: nat)                   // connected, waiting on the event
    | Waking(s: S, v: nat)                   // connected, running the periodic hook
    | Closing(s: S, v: nat, failed: bool, cancelled: bool)  // leaving the client's context
    | Sleeping                               // backing off

  datatype State<S, K> = State(
    settings: Option<S>,
    keys: K,               // what the keystore holds
    version: nat,
    event: bool,
    client: Option<S>,     // the live client, identified by the settings it was built from
    connected: bool,
    loop: Loop<S, K>,
    backoff: nat,
    failures: nat,         // consecutive failures since the last connect (or the task's start)
    stopping: bool)        // stop() is waiting for the cancelled task

  datatype Action<S, K> =
    | Start(settings: S)
    | KeysChange(keys: K)
    | StopBegin
    | StopEnd
    | PublishFails
    | LoopHead
    | EventWakes
    | IdleTimeout
    | HookWaits
    | HookTimeout
    | PreConnectOk
    | Opened
    | HookDone(stopWaiting: bool)
    | ParkedTimeout
    | Raises
    | Closed(raises: bool)
    | GivesUp
    | SleepDone
    | CancelHits

  predicate Online<S, K>(l: Loop<S, K>) {
    l.Greeting? || l.Parked? || l.Waking? || l.Closing?
  }

  predicate Captured<S, K>(l: Loop<S, K>) {
    l.PreConnect? || l.Opening? || Online(l)
  }

  predicate Running<S, K>(l: Loop<S, K>) {
    !l.NoTask? && !l.Done?
  }

  predicate Enabled<S, K>(c: Config<S, K>, st: State<S, K>, a: Action<S, K>) {
    match a
    case Start(_) => !st.stopping              // lifecycle calls of one publisher do not overlap
    case KeysChange(_) => true
    case StopBegin => !st.stopping
    case StopEnd => st.stopping && !Running(st.loop)
    case PublishFails => true                  // a publish may have been under way for any time
    case LoopHead => st.loop.Top?
    case EventWakes => st.event && (st.loop.IdleWait? || st.loop.HookWait? || st.loop.Parked?)
    case IdleTimeout => st.loop.IdleWait? && c.idleTimeout
    case HookWaits => st.loop.PreConnect?
    case HookTimeout => st.loop.HookWait?
    case PreConnectOk => st.loop.PreConnect?
    case Opened => st.loop.Opening?
    case HookDone(_) => st.loop.Greeting? || st.loop.Waking?
    case ParkedTimeout => st.loop.Parked?
    case Raises => st.loop.PreConnect? || st.loop.Opening? || st.loop.Greeting? || st.loop.Waking?
    case Closed(_) => st.loop.Closing?
    case GivesUp => st.loop.Opening? || st.loop.PreConnect? || st.loop.Closing?
    case SleepDone => st.loop.Sleeping?
    case CancelHits => st.stopping && Running(st.loop)
  }

  /** `_is_configured` now. */
  predicate Connectable<S, K>(c: Config<S, K>, st: State<S, K>) {
    st.settings.Some? && c.configured(st.settings.value, st.keys)
  }

  // ------------------------------------------------------------ pieces of steps

  /** Announce a change: count it and wake the loop. */
  function Bump<S, K>(st: State<S, K>): State<S, K> {
    st.(version := st.version + 1, event := true)
  }

  function Offline<S, K>(st: State<S, K>, next: Loop<S, K>): State<S, K> {
    st.(connected := false, client := None, loop := next)
  }

  /** The head of the inner wait: park only while the captured version is current, clearing the event first. */
  function ParkOrLeave<S, K>(st: State<S, K>, s: S, v: nat): State<S, K> {
    if st.version == v then st.(event := false, loop := Parked(s, v))
    else st.(loop := Closing(s, v, false, false))
  }

  function Fail<S, K>(st: State<S, K>): State<S, K> {
    Offline(st, Sleeping).(failures := st.failures + 1)
  }

  function Step<S, K>(c: Config<S, K>, st: State<S, K>, a: Action<S, K>): State<S, K>
    requires Enabled(c, st, a)
  {
    match a
    case Start(s) =>
      var st1 := Bump(st.(settings := Some(s)));
      if Running(st.loop) then st1 else st1.(loop := Top, backoff := BACKOFF_MIN, failures := 0)
    case KeysChange(k) => st.(keys := k)
    case StopBegin => st.(stopping := true)
    case StopEnd => Offline(st, NoTask).(stopping := false)
    case PublishFails => Bump(st.(connected := false))
    case LoopHead =>
      if Connectable(c, st) then st.(loop := PreConnect(st.settings.value, st.version))
      else Offline(st, IdleWait(st.keys)).(event := false)
    case EventWakes => if st.loop.Parked? then ParkOrLeave(st, st.loop.s, st.loop.v) else st.(loop := Top)
    case IdleTimeout => st.(loop := Top)
    case HookWaits => st.(event := false, loop := HookWait)
    case HookTimeout => st.(loop := Top)
    case PreConnectOk => st.(loop := Opening(st.loop.s, st.loop.v))
    case Opened =>
      st.(client := Some(st.loop.s), connected := true, backoff := BACKOFF_MIN, failures := 0,
          loop := Greeting(st.loop.s, st.loop.v))
    case HookDone(stopWaiting) =>
      if st.loop.Waking? && stopWaiting then st.(loop := Closing(st.loop.s, st.loop.v, false, false))
      else ParkOrLeave(st, st.loop.s, st.loop.v)
    case ParkedTimeout => st.(loop := Waking(st.loop.s, st.loop.v))
    case Raises =>
      if Online(st.loop) then st.(loop := Closing(st.loop.s, st.loop.v, true, false)) else Fail(st)
    case Closed(raises) =>
      if st.loop.cancelled then Offline(st, Done)
      else if st.loop.failed || raises then Fail(st)
      else Offline(st, Top)
    case GivesUp => Offline(st, Done)
    case SleepDone => st.(backoff := Min(st.backoff * 2, c.backoffMax), loop := Top)
    case CancelHits =>
      if st.loop.Greeting? || st.loop.Parked? || st.loop.Waking?
      then st.(loop := Closing(st.loop.s, st.loop.v, false, true))
      else Offline(st, Done)
  }

  // ------------------------------------------------------------ what a state promises

  function Power2(k: nat): nat {
    if k == 0 then 1 else 2 * Power2(k - 1)
  }

  /** The delay after k failures in a row since the last connect. */
  function BackoffAfter(k: nat, max: nat): nat {
    if k == 0 then BACKOFF_MIN else Min(BACKOFF_MIN * Power2(k), max)
  }

  ghost predicate Inv<S, K>(c: Config<S, K>, st: State<S, K>) {
    // a client exists exactly while the loop is inside the client's context, and it is the captured settings' client
    && st.client == (if Online(st.loop) then Some(st.loop.s) else None)
    && (st.connected ==> st.client.Some?)
    // an unchanged version means unchanged settings
    && (Captured(st.loop) ==> st.loop.v <= st.version && (st.loop.v == st.version ==> st.settings == Some(st.loop.s)))
    // while parked, the event is set exactly when something changed
    && (st.loop.Parked? ==> (st.event <==> st.loop.v != st.version))
    // parked unconfigured, the current settings did not ask for a connection under the keys seen
    && (st.loop.IdleWait? && !st.event ==> st.settings.None? || !c.configured(st.settings.value, st.loop.seen))
    // the task is cancelled only by stop()
    && (st.loop.Closing? && st.loop.cancelled ==> st.stopping)
    // a sleeping loop waits the delay of the failure it has just counted
    && (Running(st.loop) ==>
          if st.loop.Sleeping? then st.failures > 0 && st.backoff == BackoffAfter(st.failures - 1, c.backoffMax)
          else st.backoff == BackoffAfter(st.failures, c.backoffMax))
  }

  predicate Init<S(==), K(==)>(st: State<S, K>) {
    st == State(None, st.keys, 0, false, None, false, NoTask, BACKOFF_MIN, 0, false)
  }

  /** Doubling under the cap is doubling, then capping. */
  lemma BackoffDoubles(k: nat, max: nat)
    ensures Min(BackoffAfter(k, max) * 2, max) == BackoffAfter(k + 1, max)
  {
    assert Power2(k + 1) == 2 * Power2(k);
  }

  lemma OutsideKeepsInv<S, K>(c: Config<S, K>, st: State<S, K>, a: Action<S, K>)
    requires Inv(c, st) && Enabled(c, st, a)
    requires a.Start? || a.KeysChange? || a.StopBegin? || a.StopEnd? || a.PublishFails? || a.CancelHits?
    ensures Inv(c, Step(c, st, a))
  {
  }

  lemma ConnectingKeepsInv<S, K>(c: Config<S, K>, st: State<S, K>, a: Action<S, K>)
    requires Inv(c, st) && Enabled(c, st, a)
    requires a.LoopHead? || a.IdleTimeout? || a.HookWaits? || a.HookTimeout? || a.PreConnectOk? || a.Opened?
    ensures Inv(c, Step(c, st, a))
  {
  }

  lemma WaitingKeepsInv<S, K>(c: Config<S, K>, st: State<S, K>, a: Action<S, K>)
    requires Inv(c, st) && Enabled(c, st, a)
    requires a.EventWakes? || a.HookDone? || a.ParkedTimeout?
    ensures Inv(c, Step(c, st, a))
  {
  }

  lemma LeavingKeepsInv<S, K>(c: Config<S, K>, st: State<S, K>, a: Action<S, K>)
    requires Inv(c, st) && Enabled(c, st, a)
    requires a.Raises? || a.Closed? || a.GivesUp?
    ensures Inv(c, Step(c, st, a))
  {
  }

  lemma SleepingKeepsInv<S, K>(c: Config<S, K>, st: State<S, K>)
    requires Inv(c, st) && st.loop.Sleeping?
    ensures Inv(c, Step(c, st, SleepDone))
  {
    BackoffDoubles(st.failures - 1, c.backoffMax);
  }

  lemma StepKeepsInv<S, K>(c: Config<S, K>, st: State<S, K>, a: Action<S, K>)
    requires Inv(c, st) && Enabled(c, st, a)
    ensures Inv(c, Step(c, st, a))
  {
    if a.Start? || a.KeysChange? || a.StopBegin? || a.StopEnd? || a.PublishFails? || a.CancelHits? {
      OutsideKeepsInv(c, st, a);
    } else if a.EventWakes? || a.HookDone? || a.ParkedTimeout? {
      WaitingKeepsInv(c, st, a);
    } else if a.Raises? || a.Closed? || a.GivesUp? {
      LeavingKeepsInv(c, st, a);
    } else if a.SleepDone? {
      SleepingKeepsInv(c, st);
    } else {
      ConnectingKeepsInv(c, st, a);
    }
  }

  // ------------------------------------------------------------ runs

  ghost predicate Leads<S, K>(c: Config<S, K>, st: State<S, K>, a: Action<S, K>, st': State<S, K>) {
    Enabled(c, st, a) && st' == Step(c, st, a)
  }

  ghost predicate IsRun<S, K>(c: Config<S, K>, states: seq<State<S, K>>, actions: seq<Action<S, K>>) {
    && |states| == |actions| + 1
    && Init(states[0])
    && forall i {:trigger actions[i]} :: 0 <= i < |actions| ==> Leads(c, states[i], actions[i], states[i + 1])
  }

  lemma {:induction false} RunKeepsInv<S, K>(c: Config<S, K>, states: seq<State<S, K>>, actions: seq<Action<S, K>>,
                                             i: nat)
    requires IsRun(c, states, actions) && i < |states|
    ensures Inv(c, states[i])
  {
    if i > 0 {
      RunKeepsInv(c, states, actions, i - 1);
      assert Leads(c, states[i - 1], actions[i - 1], states[i]);
      StepKeepsInv(c, states[i - 1], actions[i - 1]);
    }
  }

  /** Main result 1, no lost and no idle wake-up: while the loop is parked, the event is clear exactly when the version
      is the captured one, and then the live client was built from the current settings; and "connected" always means
      that a client exists. */
  lemma NoLostWakeup<S, K>(c: Config<S, K>, states: seq<State<S, K>>, actions: seq<Action<S, K>>, i: nat)
    requires IsRun(c, states, actions) && i < |states|
    ensures var st := states[i];
            && (st.loop.Parked? ==> (!st.event <==> st.version == st.loop.v))
            && (st.loop.Parked? && !st.event ==> st.client.Some? && st.client == st.settings)
            && (st.connected ==> st.client.Some?)
  {
    RunKeepsInv(c, states, actions, i);
  }

  ghost predicate SettingsDecide<S(!new), K(!new)>(c: Config<S, K>) {
    forall s, k, k' :: c.configured(s, k) == c.configured(s, k')
  }

  /** A loop parked unconfigured with the event clear has something to connect to exactly when keys have come since it
      looked; so never, for publishers whose settings alone decide. */
  lemma IdleMissesOnlyKeys<S(!new), K(!new)>(c: Config<S, K>, states: seq<State<S, K>>, actions: seq<Action<S, K>>,
                                             i: nat)
    requires IsRun(c, states, actions) && i < |states| && states[i].loop.IdleWait? && !states[i].event
    ensures var st := states[i];
            Connectable(c, st) <==>
            && st.settings.Some?
            && !c.configured(st.settings.value, st.loop.seen) && c.configured(st.settings.value, st.keys)
    ensures SettingsDecide(c) ==> !Connectable(c, states[i])
  {
    RunKeepsInv(c, states, actions, i);
  }

  /** That happens: settings that need keys, started without them, and the keys arriving later. */
  lemma KeysArriveUnnoticed<S, K>(c: Config<S, K>, s: S, none: K, some: K)
    returns (states: seq<State<S, K>>, actions: seq<Action<S, K>>)
    requires !c.configured(s, none) && c.configured(s, some)
    ensures IsRun(c, states, actions)
    ensures var last := states[|states| - 1]; last.loop.IdleWait? && !last.event && Connectable(c, last)
  {
    var s0 := State(None, none, 0, false, None, false, NoTask, BACKOFF_MIN, 0, false);
    var s1 := Step(c, s0, Start(s));
    var s2 := Step(c, s1, LoopHead);
    states, actions := [s0, s1, s2, Step(c, s2, KeysChange(some))], [Start(s), LoopHead, KeysChange(some)];
  }

  /** Only the timeout gets such a loop going again, and it then connects with the current settings; without one
      nothing does. */
  lemma OnlyTheTimeoutRecovers<S, K>(c: Config<S, K>, st: State<S, K>)
    requires Inv(c, st) && st.loop.IdleWait? && !st.event && Connectable(c, st)
    ensures forall a :: OfLoop(a) && Enabled(c, st, a) <==> a.IdleTimeout? && c.idleTimeout
    ensures c.idleTimeout ==>
              Step(c, Step(c, st, IdleTimeout), LoopHead).loop == PreConnect(st.settings.value, st.version)
  {
  }

  // ------------------------------------------------------------ new settings reach the broker

  /** Steps of the loop itself, but for giving up for good on an event loop that cannot serve it. */
  predicate OfLoop<S, K>(a: Action<S, K>) {
    !a.Start? && !a.KeysChange? && !a.StopBegin? && !a.StopEnd? && !a.PublishFails? && !a.CancelHits? && !a.GivesUp?
  }

  /** The loop is running and has yet to look at the current settings. */
  ghost predicate Behind<S, K>(st: State<S, K>) {
    && Running(st.loop) && !st.stopping
    && (Captured(st.loop) ==> st.loop.v < st.version)
    && (st.loop.IdleWait? ==> st.event)
  }

  /** How many steps at most before it does. */
  function Distance<S, K>(l: Loop<S, K>): nat {
    match l
    case NoTask => 0
    case Done => 0
    case Top => 0
    case Sleeping => 1
    case IdleWait(_) => 1
    case HookWait => 1
    case Closing(_, _, _, _) => 2
    case Greeting(_, _) => 3
    case Waking(_, _) => 3
    case Parked(_, _) => 4
    case Opening(_, _) => 4
    case PreConnect(_, _) => 5
  }

  /** New settings, and every failing publish, put any running loop behind. */
  lemma ChangesPutBehind<S, K>(c: Config<S, K>, st: State<S, K>, a: Action<S, K>)
    requires Inv(c, st) && Running(st.loop) && !st.stopping && (a.Start? || a.PublishFails?)
    ensures Enabled(c, st, a) && Behind(Step(c, st, a)) && Step(c, st, a).loop == st.loop
    ensures a.Start? ==> Step(c, st, a).settings == Some(a.settings)
  {
  }

  /** A loop that is behind can move, and moves closer to the test of the current settings whichever step it takes. */
  lemma BehindMovesOn<S, K>(c: Config<S, K>, st: State<S, K>, a: Action<S, K>)
    requires Inv(c, st) && Behind(st) && OfLoop(a) && Enabled(c, st, a)
    ensures var st' := Step(c, st, a);
            && st'.settings == st.settings && st'.version == st.version && st'.keys == st.keys
            && (st.loop.Top? ==> st'.loop == if Connectable(c, st) then PreConnect(st.settings.value, st.version)
                                             else IdleWait(st.keys))
            && (!st.loop.Top? ==> Behind(st') && Distance(st'.loop) < Distance(st.loop))
  {
  }

  lemma BehindCanMove<S, K>(c: Config<S, K>, st: State<S, K>) returns (a: Action<S, K>)
    requires Inv(c, st) && Behind(st)
    ensures OfLoop(a) && Enabled(c, st, a)
  {
    match st.loop
    case Top => a := LoopHead;
    case Sleeping => a := SleepDone;
    case IdleWait(_) => a := EventWakes;
    case HookWait => a := HookTimeout;
    case Closing(_, _, _, _) => a := Closed(false);
    case Greeting(_, _) => a := HookDone(false);
    case Waking(_, _) => a := HookDone(false);
    case Parked(_, _) => a := EventWakes;
    case Opening(_, _) => a := Opened;
    case PreConnect(_, _) => a := PreConnectOk;
  }

  ghost predicate IsLoopRun<S, K>(c: Config<S, K>, states: seq<State<S, K>>, actions: seq<Action<S, K>>) {
    && |states| == |actions| + 1
    && forall i {:trigger actions[i]} :: 0 <= i < |actions| ==>
         OfLoop(actions[i]) && Leads(c, states[i], actions[i], states[i + 1])
  }

  /** Main result 2: wherever a running loop is when new settings arrive, and whatever happens to it then (timeouts,
      failures, a refused connection), within six of its own steps it starts to connect with exactly those settings. */
  lemma {:induction false} NewSettingsReachTheBroker<S, K>(c: Config<S, K>, states: seq<State<S, K>>,
                                                           actions: seq<Action<S, K>>)
    requires IsLoopRun(c, states, actions) && Inv(c, states[0])
    requires Behind(states[0]) && Connectable(c, states[0]) && |actions| > Distance(states[0].loop)
    ensures exists j :: 0 < j <= Distance(states[0].loop) + 1 <= 6 &&
                        states[j].loop == PreConnect(states[0].settings.value, states[0].version)
    decreases |actions|
  {
    assert Leads(c, states[0], actions[0], states[1]);
    BehindMovesOn(c, states[0], actions[0]);
    if states[0].loop.Top? {
      assert states[1].loop == PreConnect(states[0].settings.value, states[0].version);
    } else {
      StepKeepsInv(c, states[0], actions[0]);
      TailIsLoopRun(c, states, actions);
      NewSettingsReachTheBroker(c, states[1..], actions[1..]);
      var j :| 0 < j <= Distance(states[1].loop) + 1 <= 6 &&
               states[1..][j].loop == PreConnect(states[0].settings.value, states[0].version);
      assert states[j + 1] == states[1..][j];
    }
  }

  lemma TailIsLoopRun<S, K>(c: Config<S, K>, states: seq<State<S, K>>, actions: seq<Action<S, K>>)
    requires IsLoopRun(c, states, actions) && actions != []
    ensures IsLoopRun(c, states[1..], actions[1..])
  {
    forall i | 0 <= i < |actions[1..]|
      ensures var a := actions[1..][i];
              OfLoop(a) && Leads(c, states[1..][i], a, states[1..][i + 1])
    {
      assert actions[1..][i] == actions[i + 1];
    }
  }

  lemma CountingFailures<S, K>(c: Config<S, K>, st: State<S, K>, a: Action<S, K>)
    requires Inv(c, st) && Enabled(c, st, a)
    ensures a.Opened? ==> Step(c, st, a).failures == 0 && Step(c, st, a).backoff == BACKOFF_MIN
    ensures Step(c, st, a).loop.Sleeping? && !st.loop.Sleeping? ==> Step(c, st, a).failures == st.failures + 1
  {
  }

  /** Main result 3: the delay slept after the k-th failure in a row is min(5 * 2^(k-1), max), starting at 5; a
      successful connect starts the count again. */
  lemma BackoffSchedule<S, K>(c: Config<S, K>, states: seq<State<S, K>>, actions: seq<Action<S, K>>, i: nat)
    requires IsRun(c, states, actions) && i < |states| && c.backoffMax >= BACKOFF_MIN
    ensures states[i].loop.Sleeping? ==>
              && states[i].failures > 0
              && states[i].backoff == Min(5 * Power2(states[i].failures - 1), c.backoffMax)
    ensures i < |actions| && actions[i].Opened? ==> states[i + 1].failures == 0 && states[i + 1].backoff == 5
    ensures i < |actions| && states[i + 1].loop.Sleeping? && !states[i].loop.Sleeping? ==>
              states[i + 1].failures == states[i].failures + 1
  {
    RunKeepsInv(c, states, actions, i);
    if states[i].loop.Sleeping? {
      assert Power2(0) == 1;
      assert states[i].backoff == BackoffAfter(states[i].failures - 1, c.backoffMax);
    }
    if i < |actions| {
      assert Leads(c, states[i], actions[i], states[i + 1]);
      CountingFailures(c, states[i], actions[i]);
    }
  }

  // ------------------------------------------------------------ what each step comes to

  /** The steps towards a connection. */
  lemma ConnectingOutcomes<S, K>(c: Config<S, K>, st: State<S, K>, a: Action<S, K>)
    requires Enabled(c, st, a)
    ensures var st' := Step(c, st, a);
            && (a.LoopHead? && Connectable(c, st) ==> st' == st.(loop := PreConnect(st.settings.value, st.version)))
            && (a.LoopHead? && !Connectable(c, st) ==>
                  st' == st.(loop := IdleWait(st.keys), event := false, connected := false, client := None))
            && (a.IdleTimeout? || a.HookTimeout? || (a.EventWakes? && !st.loop.Parked?) ==> st' == st.(loop := Top))
            && (a.HookWaits? ==> st' == st.(loop := HookWait, event := false))
            && (a.PreConnectOk? ==> st' == st.(loop := Opening(st.loop.s, st.loop.v)))
            && (a.Opened? ==>
                  && st'.loop == Greeting(st.loop.s, st.loop.v) && st'.connected && st'.client == Some(st.loop.s)
                  && st'.event == st.event && st'.version == st.version)
  {
  }

  /** The steps of a connected loop: it parks with the event clear while nothing has changed, and otherwise leaves;
      a timeout runs the periodic hook, which may ask to leave. */
  lemma ParkedOutcomes<S, K>(c: Config<S, K>, st: State<S, K>, a: Action<S, K>)
    requires Enabled(c, st, a)
    ensures var st' := Step(c, st, a);
            && ((a.EventWakes? && st.loop.Parked?) || (a.HookDone? && !(st.loop.Waking? && a.stopWaiting)) ==>
                  st' == if st.version == st.loop.v then st.(loop := Parked(st.loop.s, st.loop.v), event := false)
                         else st.(loop := Closing(st.loop.s, st.loop.v, false, false)))
            && (a.HookDone? && st.loop.Waking? && a.stopWaiting ==>
                  st' == st.(loop := Closing(st.loop.s, st.loop.v, false, false)))
            && (a.ParkedTimeout? ==> st' == st.(loop := Waking(st.loop.s, st.loop.v)))
  {
  }

  /** The steps out of a connection: a failure inside the client's context leaves it first; every failure then counts
      and sleeps, with the client gone; a clean end goes back to the top at once; a cancelled loop ends. */
  lemma LeavingOutcomes<S, K>(c: Config<S, K>, st: State<S, K>, a: Action<S, K>)
    requires Enabled(c, st, a)
    ensures var st', l := Step(c, st, a), st.loop;
            && (a.Raises? && (l.Greeting? || l.Waking?) ==> st' == st.(loop := Closing(l.s, l.v, true, false)))
            && ((a.Raises? && (l.PreConnect? || l.Opening?))
                || (a.Closed? && !l.cancelled && (l.failed || a.raises)) ==>
                  st' == st.(loop := Sleeping, failures := st.failures + 1, connected := false, client := None))
            && (a.Closed? && !l.cancelled && !l.failed && !a.raises ==>
                  st' == st.(loop := Top, connected := false, client := None))
            && (a.SleepDone? ==> st' == st.(loop := Top, backoff := Min(2 * st.backoff, c.backoffMax)))
            && (a.CancelHits? && (l.Greeting? || l.Parked? || l.Waking?) ==>
                  st' == st.(loop := Closing(l.s, l.v, false, true)))
            && ((a.CancelHits? && !(l.Greeting? || l.Parked? || l.Waking?))
                || (a.Closed? && l.cancelled) || a.GivesUp? ==>
                  st' == st.(loop := Done, connected := false, client := None))
  {
  }

  /** The calls from outside. */
  lemma OutsideOutcomes<S, K>(c: Config<S, K>, st: State<S, K>, a: Action<S, K>)
    requires Enabled(c, st, a)
    ensures var st' := Step(c, st, a);
            && (a.Start? ==>
                  && st'.settings == Some(a.settings) && st'.version == st.version + 1 && st'.event
                  && if Running(st.loop) then st'.loop == st.loop && st'.backoff == st.backoff
                     else st'.loop.Top? && st'.backoff == 5 && st'.failures == 0)
            && (a.PublishFails? ==> st' == st.(connected := false, version := st.version + 1, event := true))
            && (a.StopBegin? ==> st' == st.(stopping := true))
            && (a.StopEnd? ==> st' == st.(stopping := false, loop := NoTask, connected := false, client := None))
            && (a.KeysChange? ==> st' == st.(keys := a.keys))
  {
  }

  /** A failed attempt, or a connection that ends in a failure. */
  predicate Fails<S, K>(l: Loop<S, K>, a: Action<S, K>) {
    || (a.Raises? && (l.PreConnect? || l.Opening?))
    || (a.Closed? && l.Closing? && !l.cancelled && (l.failed || a.raises))
  }

  /** Main result 4: in every run a failure leads to a sleep of the current backoff and is counted. */
  lemma FailureSleeps<S, K>(c: Config<S, K>, states: seq<State<S, K>>, actions: seq<Action<S, K>>, i: nat)
    requires IsRun(c, states, actions) && i < |actions| && Fails(states[i].loop, actions[i])
    ensures states[i + 1].loop.Sleeping? && states[i + 1].failures == states[i].failures + 1
    ensures states[i + 1].backoff == states[i].backoff && !states[i + 1].connected
  {
    assert Leads(c, states[i], actions[i], states[i + 1]);
    LeavingOutcomes(c, states[i], actions[i]);
  }

  lemma SleepStays<S, K>(c: Config<S, K>, st: State<S, K>, a: Action<S, K>)
    requires Enabled(c, st, a) && st.loop.Sleeping? && !a.SleepDone? && !a.CancelHits?
    ensures Step(c, st, a).loop.Sleeping?
  {
  }

  /** So after a failure the loop tries again, or does anything else, only after the sleep has run out (or the task was
      cancelled in it): between two attempts with a failure between them lies a sleep. */
  lemma {:induction false} SleepBeforeRetry<S, K>(c: Config<S, K>, states: seq<State<S, K>>,
                                                  actions: seq<Action<S, K>>, i: nat, j: nat) returns (m: nat)
    requires IsRun(c, states, actions) && i < j < |states|
    requires states[i].loop.Sleeping? && !states[j].loop.Sleeping?
    ensures i <= m < j && states[m].loop.Sleeping? && (actions[m].SleepDone? || actions[m].CancelHits?)
    decreases j
  {
    m := j - 1;
    assert Leads(c, states[m], actions[m], states[m + 1]);
    if states[m].loop.Sleeping? {
      if !actions[m].SleepDone? && !actions[m].CancelHits? { SleepStays(c, states[m], actions[m]); }
    } else {
      m := SleepBeforeRetry(c, states, actions, i, m);
    }
  }

  lemma ConnectedStep<S, K>(c: Config<S, K>, st: State<S, K>, a: Action<S, K>)
    requires Inv(c, st) && Enabled(c, st, a) && Online(st.loop) && Online(Step(c, st, a).loop)
    ensures Step(c, st, a).connected == (st.connected && !a.PublishFails?)
  {
  }

  /** Main result 5: from a successful connect on, as long as the client's context is not left, the publisher counts as
      connected exactly until a publish fails. */
  lemma {:induction false} ConnectedUntilPublishFails<S, K>(c: Config<S, K>, states: seq<State<S, K>>,
                                                            actions: seq<Action<S, K>>, i: nat, j: nat)
    requires IsRun(c, states, actions) && i < j < |states| && actions[i].Opened?
    requires forall m :: i < m <= j ==> Online(states[m].loop)
    ensures states[j].connected <==> forall m :: i < m < j ==> !actions[m].PublishFails?
    decreases j
  {
    var m := j - 1;
    assert Leads(c, states[m], actions[m], states[m + 1]);
    if m > i {
      ConnectedUntilPublishFails(c, states, actions, i, m);
      RunKeepsInv(c, states, actions, m);
      assert Online(states[m].loop) && Online(states[m + 1].loop);
      ConnectedStep(c, states[m], actions[m]);
    } else {
      ConnectingOutcomes(c, states[m], actions[m]);
    }
  }

  /** After stop() nothing is left behind. */
  lemma StopLeavesNothing<S, K>(c: Config<S, K>, states: seq<State<S, K>>, actions: seq<Action<S, K>>, i: nat)
    requires IsRun(c, states, actions) && i < |states| && states[i].loop.NoTask?
    ensures states[i].client == None && !states[i].connected
  {
    RunKeepsInv(c, states, actions, i);
  }
}

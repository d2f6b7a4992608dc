/** The handshake between the Wi-Fi event handler and the retry task, one shared access at a time. */
module WifiRetry {
  /** Where the disconnect handler stands: before each of its shared writes. */
  datatype HandlerPc =
    | Idle
    | WriteDelay(delay: nat, switched: bool)
    | WriteSwitch(switched: bool)
    | WritePending
    | Notify

  /** Where the retry task stands. */
  datatype TaskPc =
    | Blocked
    | Check
    | ReadSwitch
    | ReadDelay(switched: bool)
    | ClearPending(switched: bool, delay: nat)
    | ClearSwitch(switched: bool, delay: nat)
    | ClearDelay(switched: bool, delay: nat)
    | Wait(switched: bool, delay: nat, i: nat)
    | Poll(switched: bool, delay: nat, i: nat)
    | Decide(switched: bool)
    | Apply
    | Connect

  /** The shared flags, the task's notification count, both program counters, and how often the task has applied the active
      network's settings and called esp_wifi_connect. */
  datatype State = State(
    pending: bool, delay: nat, switchNetwork: bool, notifications: nat,
    handler: HandlerPc, task: TaskPc, applies: nat, connects: nat)

  const INIT := State(false, 0, false, 0, Idle, Blocked, 0, 0)

  /** A disconnect event with the delay and the switch decision the handler took for it, or the next access of one thread. */
  datatype Move = Disconnect(delay: nat, switched: bool) | HandlerMove | TaskMove

  predicate Enabled(s: State, m: Move) {
    match m
    case Disconnect(_, _) => s.handler.Idle?
    case HandlerMove => !s.handler.Idle?
    case TaskMove => !s.task.Blocked? || s.notifications > 0
  }

  function HandlerStep(s: State): State
    requires !s.handler.Idle?
  {
    match s.handler
    case WriteDelay(delay, switched) => s.(delay := delay, handler := WriteSwitch(switched))
    case WriteSwitch(switched) => s.(switchNetwork := switched, handler := WritePending)
    case WritePending => s.(pending := true, handler := Notify)
    case Notify => s.(notifications := s.notifications + 1, handler := Idle)
  }

  /** Taking the notification resets its count; the wait loop ends early when nothing new is pending. */
  function TaskStep(s: State): State
    requires Enabled(s, TaskMove)
  {
    match s.task
    case Blocked => s.(notifications := 0, task := Check)
    case Check => s.(task := if s.pending then ReadSwitch else Blocked)
    case ReadSwitch => s.(task := ReadDelay(s.switchNetwork))
    case ReadDelay(switched) => s.(task := ClearPending(switched, s.delay))
    case ClearPending(switched, delay) => s.(pending := false, task := ClearSwitch(switched, delay))
    case ClearSwitch(switched, delay) => s.(switchNetwork := false, task := ClearDelay(switched, delay))
    case ClearDelay(switched, delay) => s.(delay := 0, task := Wait(switched, delay, 0))
    case Wait(switched, delay, i) => s.(task := if i < delay then Poll(switched, delay, i) else Decide(switched))
    case Poll(switched, delay, i) => s.(task := if s.pending then Wait(switched, delay, i + 1) else Decide(switched))
    case Decide(switched) => s.(task := if s.pending then Blocked else if switched then Apply else Connect)
    case Apply => s.(applies := s.applies + 1, task := Connect)
    case Connect => s.(connects := s.connects + 1, task := Blocked)
  }

  function Do(s: State, m: Move): State
    requires Enabled(s, m)
  {
    match m
    case Disconnect(delay, switched) => s.(handler := WriteDelay(delay, switched))
    case HandlerMove => HandlerStep(s)
    case TaskMove => TaskStep(s)
  }

  ghost predicate Step(s: State, s': State) {
    exists m :: Enabled(s, m) && s' == Do(s, m)
  }

  /** A run of any length in any interleaving. */
  ghost predicate IsRun(run: seq<State>) {
    run != [] && run[0] == INIT && forall k | 0 < k < |run| :: Step(run[k - 1], run[k])
  }

  function Last(run: seq<State>): State
    requires run != []
  {
    run[|run| - 1]
  }

  /** The task has seen a request and not yet taken it off the flag. */
  predicate Taking(pc: TaskPc) {
    pc.ReadSwitch? || pc.ReadDelay? || pc.ClearPending?
  }

  /** A pending request is always on its way: a notification is queued or about to be, or the task is between waking up and
      clearing the flag. */
  predicate Inv(s: State) {
    && (s.pending ==> s.notifications > 0 || s.handler.Notify? || s.task.Check? || Taking(s.task))
    && (Taking(s.task) ==> s.pending)
    && (s.task.Wait? ==> s.task.i <= s.task.delay)
    && (s.task.Poll? ==> s.task.i < s.task.delay)
  }

  lemma StepKeepsInv(s: State, m: Move)
    requires Inv(s) && Enabled(s, m)
    ensures Inv(Do(s, m))
  {}

  lemma {:induction false} InvHolds(run: seq<State>)
    requires IsRun(run)
    ensures Inv(Last(run))
  {
    if |run| > 1 {
      var before := run[..|run| - 1];
      InvHolds(before);
      assert Step(Last(before), Last(run));
      var m :| Enabled(Last(before), m) && Last(run) == Do(Last(before), m);
      StepKeepsInv(Last(before), m);
    }
  }

  /** No lost wakeup: in no interleaving is a request pending while the task is blocked, no notification is queued and the
      handler is idle. */
  lemma NoLostWakeup(run: seq<State>)
    requires IsRun(run)
    ensures var s := Last(run); !(s.pending && s.task.Blocked? && s.notifications == 0 && s.handler.Idle?)
  {
    InvHolds(run);
  }

  /** A request is waiting for the task or in its hands. */
  predicate Outstanding(s: State) {
    s.pending || !(s.task.Blocked? || s.task.Check?)
  }

  /** The last disconnect's flags are all written: only its notification may still be on its way. */
  predicate AllWritten(s: State) {
    s.handler.Idle? || s.handler.Notify?
  }

  /** Nothing is left to do. */
  predicate AtRest(s: State) {
    s.handler.Idle? && s.task.Blocked? && !s.pending
  }

  /** A request is pending behind the settings or the connect of an older one. */
  predicate BehindConnect(s: State) {
    s.pending && (s.task.Apply? || s.task.Connect?)
  }

  /** How many task steps lie between here and rest, if no further disconnect arrives. A request that came in while the task
      was waiting makes it finish the wait and start over. */
  function StepsToRest(s: State): nat {
    match s.task
    case Blocked => 12
    case Check => 11
    case ReadSwitch => 10
    case ReadDelay(_) => 9
    case ClearPending(_, _) => 8
    case ClearSwitch(_, delay) => if s.pending then 16 + 2 * delay else 7
    case ClearDelay(_, delay) => if s.pending then 15 + 2 * delay else 6
    case Wait(_, delay, i) => if !s.pending then 5 else if i <= delay then 14 + 2 * (delay - i) else 0
    case Poll(_, delay, i) => if !s.pending then 4 else if i <= delay then 13 + 2 * (delay - i) else 0
    case Decide(_) => if s.pending then 13 else 3
    case Apply => if s.pending then 14 else 2
    case Connect => if s.pending then 13 else 1
  }

  /** How often esp_wifi_connect is still to be called: once for what is outstanding, and once more if an older request is
      just about to be connected. */
  function ConnectsToCome(s: State): nat {
    if !Outstanding(s) then 0 else if BehindConnect(s) then 2 else 1
  }

  /** The outstanding request will have the active network's settings applied. What counts is the flag the task has read, if
      it has read one for the request it is going to connect; otherwise the shared flag, unless it is about to clear it. */
  predicate Honoured(s: State) {
    match s.task
    case ReadDelay(switched) => switched
    case ClearPending(switched, _) => switched
    case ClearSwitch(switched, _) => !s.pending && switched
    case ClearDelay(switched, _) => if s.pending then s.switchNetwork else switched
    case Wait(switched, _, _) => if s.pending then s.switchNetwork else switched
    case Poll(switched, _, _) => if s.pending then s.switchNetwork else switched
    case Decide(switched) => if s.pending then s.switchNetwork else switched
    case Blocked | Check | ReadSwitch | Apply | Connect => s.pending && s.switchNetwork
  }

  function AppliesToCome(s: State): nat {
    (if s.task.Apply? then 1 else 0) + (if Honoured(s) then 1 else 0)
  }

  /** Nothing either thread does without a further disconnect changes how many connects and applies there will have been. */
  lemma CountsKept(s: State, m: Move)
    requires Inv(s) && AllWritten(s) && Enabled(s, m) && !m.Disconnect?
    ensures var s' := Do(s, m);
            && Inv(s') && AllWritten(s')
            && s'.connects + ConnectsToCome(s') == s.connects + ConnectsToCome(s)
            && s'.applies + AppliesToCome(s') == s.applies + AppliesToCome(s)
  {}

  /** The state after the task's next n steps. */
  function After(s: State, n: nat): State
    decreases n
  {
    if n == 0 || !Enabled(s, TaskMove) then s else After(TaskStep(s), n - 1)
  }

  /** Taking a request: the task wakes up, reads both flags, clears all three, and starts to wait for as long as was asked. */
  lemma RequestTaken(s: State)
    requires s.task.Blocked? && s.notifications > 0 && s.pending
    ensures After(s, 7) == s.(pending := false, switchNetwork := false, delay := 0, notifications := 0,
                              task := Wait(s.switchNetwork, s.delay, 0))
  {
    After7(s);
  }

  lemma After7(s: State)
    requires s.task.Blocked? && s.notifications > 0 && s.pending
    ensures After(s, 7) == After(TaskStep(TaskStep(TaskStep(TaskStep(s)))), 3)
  {}

  /** Behind a newer request the task waits the whole time that the older one asked for, second by second, and then leaves the
      older one. */
  lemma {:induction false} WaitsItOut(s: State)
    requires s.pending && s.task.Wait? && s.task.i <= s.task.delay
    ensures After(s, 2 * (s.task.delay - s.task.i) + 2) == s.(task := Blocked)
    decreases s.task.delay - s.task.i
  {
    if s.task.i < s.task.delay {
      var t := TaskStep(TaskStep(s));
      assert t == s.(task := Wait(s.task.switched, s.task.delay, s.task.i + 1));
      WaitsItOut(t);
      assert After(s, 2 * (s.task.delay - s.task.i) + 2) == After(t, 2 * (s.task.delay - s.task.i));
    } else {
      assert After(s, 2) == After(TaskStep(TaskStep(s)), 0);
    }
  }

  /** With nothing new it connects after at most one second, however long it was asked to wait: first with the active network's
      settings if the request was to switch. */
  lemma ConnectsAtOnce(s: State)
    requires !s.pending && s.task.Wait? && s.task.i == 0
    ensures var n := (if s.task.delay > 0 then 2 else 1) + (if s.task.switched then 3 else 2);
      After(s, n) == s.(task := Blocked, connects := s.connects + 1, applies := s.applies + if s.task.switched then 1 else 0)
  {
    var d := if s.task.delay > 0 then TaskStep(TaskStep(s)) else TaskStep(s);
    assert d == s.(task := Decide(s.task.switched));
    var c := if s.task.switched then TaskStep(TaskStep(d)) else TaskStep(d);
    assert c == s.(task := Connect, applies := s.applies + if s.task.switched then 1 else 0);
    assert After(c, 1) == After(TaskStep(c), 0);
    assert After(d, if s.task.switched then 3 else 2) == After(c, 1);
  }

  /** With the handler idle the task can always move while a request is outstanding, and each step comes closer to rest. */
  lemma TaskProgress(s: State)
    requires Inv(s) && s.handler.Idle? && Outstanding(s)
    ensures Enabled(s, TaskMove)
    ensures var s' := TaskStep(s);
            s'.handler.Idle? && if Outstanding(s') then StepsToRest(s') < StepsToRest(s) else AtRest(s')
  {}

  /** Bounded response: once the handler is done and no further disconnect arrives, whatever is outstanding has reached
      esp_wifi_connect within StepsToRest task steps, nothing is pending any more, and the settings were applied exactly as
      often as AppliesToCome says. */
  lemma {:induction false} EveryRequestConnects(s: State) returns (n: nat)
    requires Inv(s) && s.handler.Idle? && Outstanding(s)
    ensures 0 < n <= StepsToRest(s)
    ensures var e := After(s, n);
            && AtRest(e) && Inv(e)
            && e.connects == s.connects + ConnectsToCome(s) > s.connects
            && e.applies == s.applies + AppliesToCome(s)
    decreases StepsToRest(s)
  {
    TaskProgress(s);
    CountsKept(s, TaskMove);
    var t := TaskStep(s);
    if Outstanding(t) {
      var m := EveryRequestConnects(t);
      n := m + 1;
    } else {
      n := 1;
      assert After(s, 1) == After(t, 0);
    }
  }

  /** A run from any state in any interleaving, without a further disconnect. */
  ghost predicate IsQuiet(run: seq<State>) {
    run != [] && forall k | 0 < k < |run| :: QuietStep(run[k - 1], run[k])
  }

  ghost predicate QuietStep(s: State, s': State) {
    exists m: Move :: !m.Disconnect? && Enabled(s, m) && s' == Do(s, m)
  }

  lemma {:induction false} QuietRunKeepsCounts(run: seq<State>)
    requires IsQuiet(run) && Inv(run[0]) && AllWritten(run[0])
    ensures var s, e := run[0], Last(run);
            && Inv(e) && AllWritten(e)
            && e.connects + ConnectsToCome(e) == s.connects + ConnectsToCome(s)
            && e.applies + AppliesToCome(e) == s.applies + AppliesToCome(s)
  {
    if |run| > 1 {
      var before := run[..|run| - 1];
      QuietRunKeepsCounts(before);
      assert QuietStep(run[|run| - 2], run[|run| - 1]);
      var m: Move :| !m.Disconnect? && Enabled(Last(before), m) && Last(run) == Do(Last(before), m);
      CountsKept(Last(before), m);
    }
  }

  /** The handler has just set the pending flag of a request to switch networks, and that decision is gone: the task has
      cleared the shared flag since it was written, is about to clear it, or has read it before it was written. */
  predicate SwitchLost(s: State) {
    match s.task
    case ReadDelay(switched) => !switched
    case ClearPending(switched, _) => !switched
    case ClearSwitch(_, _) => true
    case _ => !s.switchNetwork
  }

  /** The exact condition, seen from the handler's last write: in every interleaving that comes to rest without a further
      disconnect, the settings are applied for the request if and only if its decision is not lost. An older request whose
      settings the task is applying right then counts on its own. */
  lemma SwitchAppliedUnlessLost(run: seq<State>)
    requires IsQuiet(run) && Inv(run[0]) && run[0].handler.Notify? && run[0].pending && AtRest(Last(run))
    ensures var s, e := run[0], Last(run);
            && e.connects > s.connects
            && e.applies == s.applies + (if s.task.Apply? then 1 else 0) + (if SwitchLost(s) then 0 else 1)
  {
    QuietRunKeepsCounts(run);
  }

  lemma Grow(run: seq<State>, m: Move) returns (longer: seq<State>)
    requires IsRun(run) && Enabled(Last(run), m)
    ensures IsRun(longer) && longer == run + [Do(Last(run), m)]
  {
    longer := run + [Do(Last(run), m)];
    forall k | 0 < k < |longer|
      ensures Step(longer[k - 1], longer[k])
    {
      if k < |run| {
        assert Step(run[k - 1], run[k]);
      }
    }
  }

  lemma HandlerFinishes(run: seq<State>, delay: nat, switched: bool) returns (longer: seq<State>)
    requires IsRun(run) && Last(run).handler.Idle?
    ensures IsRun(longer) && |run| < |longer| && longer[|run|] == Last(run).(handler := WriteDelay(delay, switched))
    ensures var s := Last(run);
      Last(longer) == s.(delay := delay, switchNetwork := switched, pending := true, notifications := s.notifications + 1)
  {
    longer := Grow(run, Disconnect(delay, switched));
    longer := Grow(longer, HandlerMove);
    longer := Grow(longer, HandlerMove);
    longer := Grow(longer, HandlerMove);
    longer := Grow(longer, HandlerMove);
  }

  /** The other way round: a request that comes in while the task is taking an older one can be lost. Here a request to
      switch networks arrives after the task has read the flags; the task then clears them, connects once with the old
      settings, and everything comes to rest with no switch applied. */
  lemma SwitchCanBeLost() returns (run: seq<State>, k: nat)
    ensures IsRun(run) && k < |run|
    ensures run[k].handler == WriteDelay(5, true)
    ensures Last(run) == INIT.(connects := 1)
  {
    run := HandlerFinishes([INIT], 60, false);
    run := Grow(run, TaskMove);
    run := Grow(run, TaskMove);
    run := Grow(run, TaskMove);
    run := Grow(run, TaskMove);
    assert Last(run).task == ClearPending(false, 60);
    k := |run|;
    ghost var asked := Last(run).(handler := WriteDelay(5, true));
    run := HandlerFinishes(run, 5, true);
    ghost var rest := FinishLost(run);
    assert rest[k] == run[k] == asked;
    run := rest;
  }

  lemma FinishLost(run: seq<State>) returns (longer: seq<State>)
    requires IsRun(run)
    requires Last(run) == INIT.(task := ClearPending(false, 60), pending := true, delay := 5, switchNetwork := true, notifications := 1)
    ensures IsRun(longer) && |run| <= |longer| && longer[..|run|] == run
    ensures Last(longer) == INIT.(connects := 1)
  {
    longer := Grow(run, TaskMove);
    longer := Grow(longer, TaskMove);
    longer := Grow(longer, TaskMove);
    longer := Grow(longer, TaskMove);
    longer := Grow(longer, TaskMove);
    longer := Grow(longer, TaskMove);
    assert Last(longer).task == Connect;
    longer := Grow(longer, TaskMove);
    longer := Grow(longer, TaskMove);
    longer := Grow(longer, TaskMove);
  }
}

/** The debounced push button: what it reports over any trace of samples and questions. */
module Button {
  // Times are in system ticks of 10 ms; the tick counter wraps at 32 bits.
  const TICKS := 0x1_0000_0000
  const DEBOUNCE := 5
  const LONG_PRESS := 500

  /** One call of button_is_pressed_debounced, with the level it saw and when, or one call of button_was_pressed. */
  datatype Event = Sample(pressed: bool, time: nat) | Ask

  datatype State = State(
    last: bool, changed: nat, debounced: bool, ignoring: bool, started: nat, reported: bool, pending: bool)

  function Tick(time: nat): nat {
    time % TICKS
  }

  /** Unsigned subtraction of two tick counts. */
  function Elapsed(since: nat, now: nat): nat {
    (now - since) % TICKS
  }

  lemma ElapsedIsShort(since: nat, now: nat)
    requires since <= now
    ensures Elapsed(Tick(since), Tick(now)) <= now - since
    ensures now - since < TICKS ==> Elapsed(Tick(since), Tick(now)) == now - since
  {}

  class Button {
    var last: bool
    var changed: nat
    var debounced: bool
    var ignoring: bool
    var started: nat
    var reported: bool
    var pending: bool

    function Contents(): State
      reads this
    {
      State(last, changed, debounced, ignoring, started, reported, pending)
    }

    /** button_init: the tick fields are statics that start at 0. */
    constructor (pressed: bool)
      ensures Contents() == Init(pressed)
    {
      last, changed, debounced, ignoring, started, reported, pending := pressed, 0, pressed, false, 0, false, false;
    }

    method WasPressed() returns (r: bool)
      modifies this
      ensures r == old(pending)
      ensures Contents() == Asked(old(Contents()))
    {
      r := pending;
      pending := false;
      if reported && debounced {
        reported := false;
      }
    }

    method IsPressedDebounced(current: bool, now: nat) returns (result: bool)
      modifies this
      ensures result == Reports(old(Contents()), current, now)
      ensures Contents() == Sampled(old(Contents()), current, now)
    {
      result := false;
      if current != last {
        last := current;
        changed := now;
        if current {
          started := now;
          debounced := false;
        }
        reported := false;
        ignoring := false;
      } else if Elapsed(changed, now) >= DEBOUNCE {
        debounced := current;
        if debounced && !reported && !ignoring {
          reported := true;
          pending := true;
          result := true;
        }
      }
      if debounced && Elapsed(started, now) >= LONG_PRESS {
        ignoring := true;
      }
      if !debounced {
        ignoring := false;
        reported := false;
      }
    }
  }

  function Init(pressed: bool): State {
    State(pressed, 0, pressed, false, 0, false, false)
  }

  function Asked(s: State): State {
    s.(pending := false, reported := s.reported && !s.debounced)
  }

  /** The level is steady and pressed for long enough, and this press has been neither reported nor held too long. */
  predicate Reports(s: State, current: bool, now: nat) {
    current && s.last && Elapsed(s.changed, now) >= DEBOUNCE && !s.reported && !s.ignoring
  }

  function Sampled(s: State, current: bool, now: nat): State {
    var debounced :=
      if current != s.last then s.debounced && !current
      else if Elapsed(s.changed, now) >= DEBOUNCE then current
      else s.debounced;
    var started := if current && !s.last then now else s.started;
    State(
      current,
      if current != s.last then now else s.changed,
      debounced,
      debounced && ((current == s.last && s.ignoring) || Elapsed(started, now) >= LONG_PRESS),
      started,
      debounced && current == s.last && (s.reported || Reports(s, current, now)),
      s.pending || Reports(s, current, now))
  }

  function Step(s: State, e: Event): State {
    match e
    case Ask => Asked(s)
    case Sample(pressed, time) => Sampled(s, pressed, Tick(time))
  }

  /** The state after a trace, starting from button_init at that level. */
  function Run(held: bool, es: seq<Event>): State {
    if es == [] then Init(held) else Step(Run(held, es[..|es| - 1]), es[|es| - 1])
  }

  /** The event is a sample, and it reports a press. */
  predicate ReportsAt(held: bool, es: seq<Event>, k: nat)
    requires k < |es|
  {
    es[k].Sample? && Reports(Run(held, es[..k]), es[k].pressed, Tick(es[k].time))
  }

  /** The level last seen. */
  function Level(held: bool, es: seq<Event>): bool {
    if es == [] then held
    else if es[|es| - 1].Sample? then es[|es| - 1].pressed
    else Level(held, es[..|es| - 1])
  }

  /** The k-th event is a sample that sees the level change. */
  predicate ChangeAt(held: bool, es: seq<Event>, k: nat)
    requires k < |es|
  {
    es[k].Sample? && es[k].pressed != Level(held, es[..k])
  }

  /** When the level was last seen to change; 0 if it never was. */
  function Since(held: bool, es: seq<Event>): nat {
    if es == [] then 0
    else if ChangeAt(held, es, |es| - 1) then es[|es| - 1].time
    else Since(held, es[..|es| - 1])
  }

  /** The k-th event is a sample of an unchanged level, at least 50 ms after the change on the tick counter. */
  predicate SteadyAt(held: bool, es: seq<Event>, k: nat)
    requires k < |es|
  {
    es[k].Sample? && !ChangeAt(held, es, k) && Elapsed(Tick(Since(held, es[..k])), Tick(es[k].time)) >= DEBOUNCE
  }

  /** Some sample since the last change was steady. */
  predicate Settled(held: bool, es: seq<Event>) {
    es != [] && !ChangeAt(held, es, |es| - 1) && (SteadyAt(held, es, |es| - 1) || Settled(held, es[..|es| - 1]))
  }

  /** No sample has seen a change. */
  predicate NeverChanged(held: bool, es: seq<Event>) {
    es == [] || (!ChangeAt(held, es, |es| - 1) && NeverChanged(held, es[..|es| - 1]))
  }

  /** What the fields mean, in terms of the trace alone. */
  lemma {:induction false} FieldsMean(held: bool, es: seq<Event>)
    ensures var s := Run(held, es);
            && s.last == Level(held, es)
            && s.changed == Tick(Since(held, es))
            && (s.last ==> s.started == s.changed)
            && (s.last ==> s.debounced == (Settled(held, es) || (held && NeverChanged(held, es))))
            && (s.last && (s.reported || s.ignoring) ==> Settled(held, es))
  {
    if es != [] {
      var before := es[..|es| - 1];
      FieldsMean(held, before);
    }
  }

  /** The sample that saw the last change, or -1; every later sample shows the same level. */
  lemma {:induction false} LastChange(held: bool, es: seq<Event>) returns (j: int)
    ensures -1 <= j < |es|
    ensures if j == -1 then Since(held, es) == 0 && Level(held, es) == held
            else ChangeAt(held, es, j) && Since(held, es) == es[j].time
    ensures forall i :: 0 <= i < |es| && j <= i && es[i].Sample? ==> es[i].pressed == Level(held, es)
  {
    if es == [] {
      j := -1;
    } else if ChangeAt(held, es, |es| - 1) {
      j := |es| - 1;
    } else {
      var before := es[..|es| - 1];
      j := LastChange(held, before);
      assert j >= 0 ==> before[..j] == es[..j];
      assert forall i :: 0 <= i < |before| ==> before[i] == es[i];
    }
  }

  predicate InOrder(es: seq<Event>) {
    forall i, k :: 0 <= i < k < |es| && es[i].Sample? && es[k].Sample? ==> es[i].time <= es[k].time
  }

  /** A reported press is a real one: from a change seen at least 50 ms earlier, or from start-up on, every sample up to the
      report was pressed. The tick counter may wrap in between. */
  lemma ReportIsDebounced(held: bool, es: seq<Event>, k: nat) returns (j: int)
    requires k < |es| && InOrder(es) && ReportsAt(held, es, k)
    ensures -1 <= j < k
    ensures forall i :: 0 <= i <= k && j <= i && es[i].Sample? ==> es[i].pressed
    ensures if j == -1 then held && es[k].time >= 5
            else ChangeAt(held, es, j) && es[k].time - es[j].time >= 5
  {
    var before := es[..k];
    FieldsMean(held, before);
    j := LastChange(held, before);
    ElapsedIsShort(if j == -1 then 0 else es[j].time, es[k].time);
    assert j >= 0 ==> before[..j] == es[..j];
    assert forall i :: 0 <= i < k ==> before[i] == es[i];
  }

  /** Without button_was_pressed, a settled press has been reported. */
  lemma {:induction false} SettledIsReported(held: bool, es: seq<Event>)
    requires Ask !in es
    ensures Level(held, es) && Settled(held, es) ==> Run(held, es).reported
  {
    if es != [] {
      var before := es[..|es| - 1];
      SettledIsReported(held, before);
      FieldsMean(held, before);
      assert es[|es| - 1].Sample?;
    }
  }

  /** Without button_was_pressed, a sample reports exactly when it is the first steady one of its press. */
  lemma ReportsFirstSteady(held: bool, es: seq<Event>, k: nat)
    requires k < |es| && Ask !in es
    ensures ReportsAt(held, es, k) <==> es[k].Sample? && es[k].pressed && SteadyAt(held, es, k) && !Settled(held, es[..k])
  {
    FieldsMean(held, es[..k]);
    SettledIsReported(held, es[..k]);
  }

  function Count(held: bool, es: seq<Event>): nat {
    if es == [] then 0
    else Count(held, es[..|es| - 1]) + (if ReportsAt(held, es, |es| - 1) then 1 else 0)
  }

  /** How many samples saw the level change to pressed. */
  function Presses(held: bool, es: seq<Event>): nat {
    if es == [] then 0
    else Presses(held, es[..|es| - 1]) + (if ChangeAt(held, es, |es| - 1) && es[|es| - 1].pressed then 1 else 0)
  }

  function Asks(es: seq<Event>): nat {
    if es == [] then 0 else Asks(es[..|es| - 1]) + (if es[|es| - 1].Ask? then 1 else 0)
  }

  /** At most one report for each press seen, one for a button held at start-up, and one more for each question asked. */
  lemma {:induction false} AtMostOneReportPerPress(held: bool, es: seq<Event>)
    ensures var s := Run(held, es);
      Count(held, es) + (if s.last && !s.reported then 1 else 0) <= Presses(held, es) + Asks(es) + (if held then 1 else 0)
  {
    if es != [] {
      var before := es[..|es| - 1];
      AtMostOneReportPerPress(held, before);
      FieldsMean(held, before);
    }
  }

  /** The last event is a steady pressed sample at least 5 s into the press. */
  predicate LongHeld(held: bool, es: seq<Event>) {
    && es != [] && SteadyAt(held, es, |es| - 1) && es[|es| - 1].pressed
    && Elapsed(Tick(Since(held, es)), Tick(es[|es| - 1].time)) >= 500
  }

  /** After a 5 s hold nothing more is reported until the level changes, whatever is asked in between. */
  lemma {:induction false} SilentAfterLongHold(held: bool, es: seq<Event>, more: seq<Event>)
    requires LongHeld(held, es)
    requires forall e :: e in more && e.Sample? ==> e.pressed
    ensures var s := Run(held, es + more); s.last && s.debounced && s.ignoring
    ensures forall k :: |es| <= k < |es + more| ==> !ReportsAt(held, es + more, k)
  {
    if more == [] {
      assert es + more == es;
      FieldsMean(held, es[..|es| - 1]);
    } else {
      var fewer := more[..|more| - 1];
      SilentAfterLongHold(held, es, fewer);
      var all := es + more;
      assert all[..|all| - 1] == es + fewer;
      assert all[|all| - 1] == more[|more| - 1];
      forall k | |es| <= k < |all|
        ensures !ReportsAt(held, all, k)
      {
        if k < |all| - 1 {
          assert all[..k] == (es + fewer)[..k];
          assert !ReportsAt(held, es + fewer, k);
        }
      }
    }
  }

  /** The k-th event reports, and no question comes after it. */
  ghost predicate ReportedLast(held: bool, es: seq<Event>, k: nat) {
    k < |es| && ReportsAt(held, es, k) && forall i :: k < i < |es| ==> es[i].Sample?
  }

  /** Some sample since the last question reported. */
  ghost predicate Unanswered(held: bool, es: seq<Event>) {
    exists k: nat :: ReportedLast(held, es, k)
  }

  lemma ReportedEarlier(held: bool, es: seq<Event>, k: nat)
    requires es != [] && k < |es| - 1 && es[|es| - 1].Sample?
    ensures ReportedLast(held, es, k) <==> ReportedLast(held, es[..|es| - 1], k)
  {
    assert es[..|es| - 1][..k] == es[..k];
  }

  /** A sample leaves a report unanswered if it reports, or if there was one already. */
  lemma UnansweredNext(held: bool, es: seq<Event>)
    requires es != [] && es[|es| - 1].Sample?
    ensures Unanswered(held, es) <==> ReportsAt(held, es, |es| - 1) || Unanswered(held, es[..|es| - 1])
  {
    var n := |es| - 1;
    assert ReportedLast(held, es, n) <==> ReportsAt(held, es, n);
    forall k: nat | k < n ensures ReportedLast(held, es, k) <==> ReportedLast(held, es[..n], k) {
      ReportedEarlier(held, es, k);
    }
  }

  /** The answer of button_was_pressed: true exactly when a press was reported since the last question. */
  lemma {:induction false} AnswerMeans(held: bool, es: seq<Event>)
    ensures Run(held, es).pending <==> Unanswered(held, es)
  {
    if es != [] {
      AnswerMeans(held, es[..|es| - 1]);
      if es[|es| - 1].Sample? {
        UnansweredNext(held, es);
      }
    }
  }

  /** How many questions were answered with yes. */
  function Answers(held: bool, es: seq<Event>): nat {
    if es == [] then 0
    else
      var before := es[..|es| - 1];
      Answers(held, before) + if es[|es| - 1].Ask? && Run(held, before).pending then 1 else 0
  }

  /** No press is handed over twice: there are no more yeses than reports. */
  lemma {:induction false} AnsweredOnce(held: bool, es: seq<Event>)
    ensures Answers(held, es) + (if Run(held, es).pending then 1 else 0) <= Count(held, es)
  {
    if es != [] {
      AnsweredOnce(held, es[..|es| - 1]);
    }
  }

  /** Some sample since the last change was at least 5 s after it. */
  predicate HeldLong(held: bool, es: seq<Event>) {
    && es != [] && !ChangeAt(held, es, |es| - 1)
    && (HeldLong(held, es[..|es| - 1])
        || (es[|es| - 1].Sample? && Elapsed(Tick(Since(held, es)), Tick(es[|es| - 1].time)) >= 500))
  }

  lemma {:induction false} IgnoredIsHeldLong(held: bool, es: seq<Event>)
    ensures var s := Run(held, es); s.last && s.ignoring ==> HeldLong(held, es)
  {
    if es != [] {
      IgnoredIsHeldLong(held, es[..|es| - 1]);
      FieldsMean(held, es[..|es| - 1]);
    }
  }

  /** A question during a press that has been steady, but not for 5 s, re-arms the button: the next steady sample reports it
      again. */
  lemma AskRearms(held: bool, es: seq<Event>, time: nat)
    requires Level(held, es) && Settled(held, es) && !HeldLong(held, es)
    requires Elapsed(Tick(Since(held, es)), Tick(time)) >= 5
    ensures ReportsAt(held, es + [Ask, Sample(true, time)], |es| + 1)
  {
    var asked, all := es + [Ask], es + [Ask, Sample(true, time)];
    FieldsMean(held, es);
    IgnoredIsHeldLong(held, es);
    assert asked[..|es|] == es && all[..|es| + 1] == asked;
  }
}

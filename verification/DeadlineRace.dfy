/** The race between the goroutine that refreshes a connection's deadline before
    each I/O and the watcher that slams it shut when the context is done, as
    interleaved atomic steps. */
module DeadlineRace {
  import opened Bytes
  import Env

  const ABORT := Env.ABORT_DEADLINE

  /** Where the I/O goroutine is. */
  datatype Pc =
    | Idle                        // between operations
    | Alive                       // first check passed
    | Computed(t: int)            // deadline computed, not yet set
    | Set                         // deadline set, not yet re-checked
    | Reinstating                 // re-check failed, abort deadline not yet set
    | Ready                       // re-check passed, refresh returned
    | InIo                        // inside conn.Read or conn.Write
    | Closed                      // watcher stopped, connection closed

  datatype State = State(
    pc: Pc,
    now: int,
    deadline: int,                // of the connection
    done: bool,                   // ctx.Err() != nil
    fired: bool,                  // the watcher has set the abort deadline
    clockRead: int,               // when the current operation read the clock
    entered: int)                 // when the current I/O began

  datatype Params = Params(ioTimeout: int, ctxDeadline: Option<int>)

  function Target(p: Params, now: int): int {
    Env.RefreshedDeadline(p.ctxDeadline, now, p.ioTimeout)
  }

  datatype Event =
    | CheckAlive | CheckDone      // the first ctx.Err() of refresh
    | Compute
    | SetOk | SetFails            // conn.SetDeadline(t)
    | RecheckAlive | RecheckDone  // the second ctx.Err()
    | Reinstate
    | EnterIo                     // the call of conn.Read or conn.Write
    | IoReturns
    | Close
    | Cancel                      // the context is cancelled or expires
    | Fire                        // the watcher runs
    | Tick(span: nat)

  /** One atomic step. A blocked I/O returns by its deadline: time does not pass
      beyond it while the I/O is pending. */
  ghost predicate Step(p: Params, s: State, e: Event, s': State) {
    match e
    case CheckAlive => s.pc == Idle && !s.done && s' == s.(pc := Alive)
    case CheckDone => s.pc == Idle && s.done && s' == s
    case Compute => s.pc == Alive && s' == s.(pc := Computed(Target(p, s.now)), clockRead := s.now)
    case SetOk => s.pc.Computed? && s' == s.(pc := Set, deadline := s.pc.t)
    case SetFails => s.pc.Computed? && s' == s.(pc := Idle)
    case RecheckAlive => s.pc == Set && !s.done && s' == s.(pc := Ready)
    case RecheckDone => s.pc == Set && s.done && s' == s.(pc := Reinstating)
    case Reinstate => s.pc == Reinstating && s' == s.(pc := Idle, deadline := ABORT)
    case EnterIo => s.pc == Ready && s' == s.(pc := InIo, entered := s.now)
    case IoReturns => s.pc == InIo && s' == s.(pc := Idle)
    case Close => s.pc == Idle && s' == s.(pc := Closed)
    case Cancel => !s.done && s' == s.(done := true)
    case Fire => s.done && !s.fired && s.pc != Closed && s' == s.(fired := true, deadline := ABORT)
    case Tick(span) => (s.pc == InIo && span > 0 ==> s.now + span <= s.deadline) && s' == s.(now := s.now + span)
  }

  ghost predicate Start(p: Params, s: State) {
    s.pc == Idle && !s.fired && s.now > ABORT && p.ioTimeout > 0
  }

  ghost predicate Run(p: Params, states: seq<State>, events: seq<Event>) {
    && |states| == |events| + 1
    && Start(p, states[0])
    && forall i | 0 <= i < |events| :: Step(p, states[i], events[i], states[i + 1])
  }

  /** What every step keeps. The abort deadline, once set, is in force at every
      moment except between the overwriting SetDeadline and its reinstatement; and
      an I/O is pending only under the abort deadline or the one its own refresh
      computed, and never beyond either. */
  ghost predicate Invariant(p: Params, s: State) {
    && p.ioTimeout > 0 && s.now > ABORT
    && (s.fired ==> s.done)
    && (s.fired && s.pc != Set && s.pc != Reinstating ==> s.deadline == ABORT)
    && (s.pc == Reinstating ==> s.done)
    && (s.pc.Computed? ==> s.pc.t == Target(p, s.clockRead) && s.clockRead <= s.now)
    && (s.pc == Set ==> s.deadline == Target(p, s.clockRead) || (s.fired && s.deadline == ABORT))
    && (s.pc == Set || s.pc == Ready || s.pc == InIo ==> s.clockRead <= s.now)
    && (s.pc == InIo ==> s.clockRead <= s.entered <= s.now && s.now <= Max(s.entered, Target(p, s.clockRead)))
    && ((s.pc == Ready || s.pc == InIo) && !s.fired ==> s.deadline == Target(p, s.clockRead))
  }

  lemma StepKeepsInvariant(p: Params, s: State, e: Event, s': State)
    requires Invariant(p, s) && Step(p, s, e, s')
    ensures Invariant(p, s')
  {
  }

  lemma {:induction false} RunKeepsInvariant(p: Params, states: seq<State>, events: seq<Event>, i: nat)
    requires Run(p, states, events) && i < |states|
    ensures Invariant(p, states[i])
  {
    if i > 0 {
      RunKeepsInvariant(p, states, events, i - 1);
      StepKeepsInvariant(p, states[i - 1], events[i - 1], states[i]);
    }
  }

  /** In every interleaving: with the context done and the watcher run, a pending
      I/O is under the abort deadline, which has passed; until then it is under
      the deadline of its own refresh, and has not outlasted it. */
  lemma PendingIoIsBounded(p: Params, states: seq<State>, events: seq<Event>, i: nat)
    requires Run(p, states, events) && i < |states| && states[i].pc == InIo
    ensures states[i].fired ==> states[i].deadline == 1_000_000_000 < states[i].now
    ensures !states[i].fired ==>
              && (states[i].deadline == states[i].clockRead + p.ioTimeout || p.ctxDeadline == Some(states[i].deadline))
              && states[i].deadline <= states[i].clockRead + p.ioTimeout
              && (p.ctxDeadline.Some? ==> states[i].deadline <= p.ctxDeadline.value)
    ensures states[i].now <= Max(states[i].entered, states[i].clockRead + p.ioTimeout)
    ensures p.ctxDeadline.Some? ==> states[i].now <= Max(states[i].entered, p.ctxDeadline.value)
  {
    RunKeepsInvariant(p, states, events, i);
  }

  // ---- after cancellation -----------------------------------------------------------

  /** Once the context is done with no operation under way, none ever starts again,
      and the connection's deadline changes at most to the abort deadline. */
  lemma {:induction false} NothingStartsAfterCancel(p: Params, states: seq<State>, events: seq<Event>, i: nat, j: nat)
    requires Run(p, states, events) && i <= j < |states|
    requires states[i].done && states[i].pc == Idle
    ensures states[j].done && (states[j].pc == Idle || states[j].pc == Closed)
    ensures states[j].deadline == states[i].deadline || states[j].deadline == ABORT
    decreases j - i
  {
    if i < j {
      NothingStartsAfterCancel(p, states, events, i, j - 1);
      assert Step(p, states[j - 1], events[j - 1], states[j]);
    }
  }

  /** A blocked I/O unblocks: once the watcher has run, no time passes before the
      pending I/O returns. */
  lemma {:induction false} AbortUnblocks(p: Params, states: seq<State>, events: seq<Event>, i: nat, j: nat)
    requires Run(p, states, events) && i <= j < |states|
    requires states[i].fired && forall k | i <= k <= j :: states[k].pc == InIo
    ensures states[j].now == states[i].now && states[j].fired
    decreases j - i
  {
    if i < j {
      AbortUnblocks(p, states, events, i, j - 1);
      RunKeepsInvariant(p, states, events, j - 1);
      assert Step(p, states[j - 1], events[j - 1], states[j]);
    }
  }

  // ---- why the re-check is there -------------------------------------------------------

  /** The window is real: a run in which the watcher's abort deadline has been
      overwritten by a refresh that began before the cancellation. Only the
      re-check still stands between that state and an unabortable I/O. */
  lemma AbortCanBeOverwritten(p: Params) returns (states: seq<State>, events: seq<Event>)
    requires p.ioTimeout > 0 && p.ctxDeadline.None?
    ensures Run(p, states, events)
    ensures var last := states[|states| - 1];
            last.done && last.fired && last.pc == Set && last.deadline != ABORT
  {
    var t := ABORT + 1 + p.ioTimeout;
    var s0 := State(Idle, ABORT + 1, 0, false, false, 0, 0);
    var s1 := s0.(pc := Alive);
    var s2 := s1.(pc := Computed(t), clockRead := ABORT + 1);
    var s3 := s2.(done := true);
    var s4 := s3.(fired := true, deadline := ABORT);
    var s5 := s4.(pc := Set, deadline := t);
    states, events := [s0, s1, s2, s3, s4, s5], [CheckAlive, Compute, Cancel, Fire, SetOk];
    assert Step(p, s0, CheckAlive, s1) && Step(p, s1, Compute, s2) && Step(p, s2, Cancel, s3);
    assert Step(p, s3, Fire, s4) && Step(p, s4, SetOk, s5);
  }
}

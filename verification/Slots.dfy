/** The semaphore around scans: any number of concurrent Scan and ScanFile calls,
    as interleaved atomic steps. */
module Slots {
  import opened Bytes

  datatype Kind = Reader | File

  /** Where a call is. Deferred calls run in reverse order: a file is closed before
      its slot is released. */
  datatype Pc =
    | Checking        // ScanFile's look at the path, before anything is acquired
    | Entering        // acquireScanSlot, before its first ctx.Err()
    | Waiting         // in its select
    | Holding         // slot held, no file open
    | Scanning        // slot held, streaming
    | Closing         // slot held, file about to be closed
    | Releasing       // about to receive from the semaphore
    | Returned

  datatype Call = Call(kind: Kind, pc: Pc, open: bool, done: bool, acquired: nat, released: nat)

  /** `cap` is the semaphore's capacity; 0 stands for no semaphore. */
  datatype State = State(cap: nat, occupied: nat, calls: map<nat, Call>)

  datatype Event =
    | Begin(id: nat, kind: Kind)
    | Cancel(id: nat)                                 // the call's context is done
    | PathFine(id: nat) | PathRefused(id: nat)
    | Alive(id: nat) | DoneBefore(id: nat)            // the first ctx.Err()
    | Acquire(id: nat) | DoneWaiting(id: nat)         // the two cases of the select
    | StartReader(id: nat)
    | Opened(id: nat) | OpenFails(id: nat)
    | StatFine(id: nat) | StatRefused(id: nat)        // the re-check on the open file
    | ScanEnds(id: nat)
    | CloseFile(id: nat)
    | Release(id: nat)

  function Move(s: State, id: nat, c: Call): State {
    s.(calls := s.calls[id := c])
  }

  /** The step of one call. It is disabled when the call would block. */
  ghost predicate Step(s: State, e: Event, s': State) {
    match e
    case Begin(id, kind) =>
      id !in s.calls && s' == Move(s, id, Call(kind, if kind == File then Checking else Entering, false, false, 0, 0))
    case Cancel(id) => id in s.calls && !s.calls[id].done && s' == Move(s, id, s.calls[id].(done := true))
    case PathFine(id) => At(s, id, Checking) && s' == Move(s, id, s.calls[id].(pc := Entering))
    case PathRefused(id) => At(s, id, Checking) && s' == Move(s, id, s.calls[id].(pc := Returned))
    case Alive(id) =>
      At(s, id, Entering) && !s.calls[id].done
      && s' == Move(s, id, s.calls[id].(pc := if s.cap == 0 then Holding else Waiting))
    case DoneBefore(id) =>
      At(s, id, Entering) && s.calls[id].done && s' == Move(s, id, s.calls[id].(pc := Returned))
    case Acquire(id) =>
      At(s, id, Waiting) && s.occupied < s.cap
      && s' == Move(s, id, s.calls[id].(pc := Holding, acquired := s.calls[id].acquired + 1)).(occupied := s.occupied + 1)
    case DoneWaiting(id) =>
      At(s, id, Waiting) && s.calls[id].done && s' == Move(s, id, s.calls[id].(pc := Returned))
    case StartReader(id) =>
      At(s, id, Holding) && s.calls[id].kind == Reader && s' == Move(s, id, s.calls[id].(pc := Scanning))
    case Opened(id) =>
      At(s, id, Holding) && s.calls[id].kind == File && !s.calls[id].open
      && s' == Move(s, id, s.calls[id].(open := true))
    case OpenFails(id) =>
      At(s, id, Holding) && s.calls[id].kind == File && !s.calls[id].open
      && s' == Move(s, id, s.calls[id].(pc := Releasing))
    case StatFine(id) =>
      At(s, id, Holding) && s.calls[id].open && s' == Move(s, id, s.calls[id].(pc := Scanning))
    case StatRefused(id) =>
      At(s, id, Holding) && s.calls[id].open && s' == Move(s, id, s.calls[id].(pc := Closing))
    case ScanEnds(id) =>
      At(s, id, Scanning) && s' == Move(s, id, s.calls[id].(pc := if s.calls[id].open then Closing else Releasing))
    case CloseFile(id) => At(s, id, Closing) && s' == Move(s, id, s.calls[id].(pc := Releasing, open := false))
    case Release(id) =>
      At(s, id, Releasing)
      && (if s.cap == 0 then s' == Move(s, id, s.calls[id].(pc := Returned))
          else s.occupied > 0
               && s' == Move(s, id, s.calls[id].(pc := Returned, released := s.calls[id].released + 1)).(occupied := s.occupied - 1))
  }

  predicate At(s: State, id: nat, pc: Pc) {
    id in s.calls && s.calls[id].pc == pc
  }

  predicate HasSlot(c: Call) {
    c.pc == Holding || c.pc == Scanning || c.pc == Closing || c.pc == Releasing
  }

  function Holders(s: State): set<nat> {
    set id | id in s.calls && HasSlot(s.calls[id])
  }

  function OpenFiles(s: State): set<nat> {
    set id | id in s.calls && s.calls[id].open
  }

  ghost predicate Run(states: seq<State>, events: seq<Event>) {
    && |states| == |events| + 1
    && states[0].occupied == 0 && states[0].calls == map[]
    && forall i | 0 <= i < |events| :: Step(states[i], events[i], states[i + 1])
  }

  /** A call between acquire and release has acquired once and not released; any
      other has done both equally often, at most once each. */
  ghost predicate CallInvariant(cap: nat, c: Call) {
    && (c.open ==> c.kind == File && (c.pc == Holding || c.pc == Scanning || c.pc == Closing))
    && (c.kind == File && c.pc == Scanning ==> c.open) && (c.pc == Closing ==> c.open)
    && (c.kind == Reader && c.pc == Returned && cap > 0 && c.acquired == 0 ==> c.done)
    && (c.kind == Reader ==> c.pc != Checking) && (c.pc == Waiting ==> cap > 0)
    && c.released <= c.acquired <= (if cap == 0 then 0 else 1)
    && (c.pc == Checking || c.pc == Entering || c.pc == Waiting ==> c.acquired == 0)
    && (cap > 0 ==> c.acquired - c.released == if HasSlot(c) then 1 else 0)
  }

  ghost predicate Invariant(s: State) {
    && (forall id | id in s.calls :: CallInvariant(s.cap, s.calls[id]))
    && (s.cap > 0 ==> s.occupied == |Holders(s)| <= s.cap)
    && (s.cap == 0 ==> s.occupied == 0)
  }

  function Weight(s: State, id: nat): int {
    if id in s.calls && HasSlot(s.calls[id]) then 1 else 0
  }

  /** Moving one call changes the number of holders by that call alone. */
  lemma MoveKeepsInvariant(s: State, id: nat, s': State)
    requires Invariant(s) && id in s'.calls && s' == Move(s, id, s'.calls[id]).(occupied := s'.occupied)
    requires CallInvariant(s.cap, s'.calls[id])
    requires s'.occupied - s.occupied == if s.cap == 0 then 0 else Weight(s', id) - Weight(s, id)
    requires s.cap > 0 ==> s'.occupied <= s.cap
    ensures Invariant(s') && s'.cap == s.cap
  {
    hide CallInvariant;
    HoldersMove(s, id, s');
    hide Holders, Weight;
  }

  lemma HoldersMove(s: State, id: nat, s': State)
    requires id in s'.calls && s' == Move(s, id, s'.calls[id]).(occupied := s'.occupied)
    ensures |Holders(s')| - |Holders(s)| == Weight(s', id) - Weight(s, id)
  {
    assert Holders(s') == if Weight(s', id) == 1 then Holders(s) + {id} else Holders(s) - {id};
    assert Weight(s, id) == if id in Holders(s) then 1 else 0;
  }

  lemma StepKeepsInvariant(s: State, e: Event, s': State)
    requires Invariant(s) && Step(s, e, s')
    ensures Invariant(s') && s'.cap == s.cap
  {
    hide Holders;
    assert e.id in s.calls ==> CallInvariant(s.cap, s.calls[e.id]);
    MoveKeepsInvariant(s, e.id, s');
  }

  lemma {:induction false} RunKeepsInvariant(states: seq<State>, events: seq<Event>, i: nat)
    requires Run(states, events) && i < |states|
    ensures Invariant(states[i]) && states[i].cap == states[0].cap
  {
    if i > 0 {
      RunKeepsInvariant(states, events, i - 1);
      StepKeepsInvariant(states[i - 1], events[i - 1], states[i]);
    } else {
      assert Holders(states[0]) == {};
    }
  }

  /** In every interleaving of any number of calls with any cancellations: the
      semaphore counts exactly the calls between acquire and release, and never
      more than the cap; open files belong to such calls, so they are never more
      either; and release never blocks. */
  lemma SlotsAreExact(states: seq<State>, events: seq<Event>, i: nat)
    requires Run(states, events) && i < |states| && states[i].cap > 0
    ensures states[i].occupied == |Holders(states[i])| <= states[i].cap
    ensures OpenFiles(states[i]) <= Holders(states[i]) && |OpenFiles(states[i])| <= states[i].cap
    ensures forall id | At(states[i], id, Releasing) :: exists s' :: Step(states[i], Release(id), s')
  {
    RunKeepsInvariant(states, events, i);
    var s := states[i];
    SubsetSmaller(OpenFiles(s), Holders(s));
    forall id | At(s, id, Releasing)
      ensures exists s' :: Step(s, Release(id), s')
    {
      assert id in Holders(s);
      SubsetSmaller({id}, Holders(s));
      assert Step(s, Release(id),
                  Move(s, id, s.calls[id].(pc := Returned, released := s.calls[id].released + 1)).(occupied := s.occupied - 1));
    }
  }

  lemma {:induction false} SubsetSmaller(a: set<nat>, b: set<nat>)
    requires a <= b
    ensures |a| <= |b|
  {
    if a != {} {
      var x :| x in a;
      SubsetSmaller(a - {x}, b - {x});
    }
  }

  /** Every way out of a call gives back what it took: a call that has returned
      has released exactly as often as it acquired, at most once, and holds no
      file open. */
  lemma ReturnedCallsAreBalanced(states: seq<State>, events: seq<Event>, i: nat, id: nat)
    requires Run(states, events) && i < |states| && At(states[i], id, Returned)
    ensures states[i].calls[id].acquired == states[i].calls[id].released <= 1
    ensures !states[i].calls[id].open
  {
    RunKeepsInvariant(states, events, i);
    assert CallInvariant(states[i].cap, states[i].calls[id]);
  }

  /** When every call has returned, the semaphore is empty. */
  lemma QuietMeansEmpty(states: seq<State>, events: seq<Event>, i: nat)
    requires Run(states, events) && i < |states|
    requires forall id | id in states[i].calls :: states[i].calls[id].pc == Returned
    ensures states[i].occupied == 0
  {
    RunKeepsInvariant(states, events, i);
    assert Holders(states[i]) == {};
  }

  /** A call that scans a reader and returned without a slot did so because its
      context was done; and a file is streamed only while it is open. */
  lemma GivenUpOnlyWhenDone(states: seq<State>, events: seq<Event>, i: nat, id: nat)
    requires Run(states, events) && i < |states| && id in states[i].calls
    ensures var c := states[i].calls[id];
            && (c.kind == Reader && c.pc == Returned && states[i].cap > 0 && c.acquired == 0 ==> c.done)
            && (c.pc == Scanning ==> (c.open <==> c.kind == File))
  {
    RunKeepsInvariant(states, events, i);
    assert CallInvariant(states[i].cap, states[i].calls[id]);
  }

  // ---- no call is stuck --------------------------------------------------------------

  /** A call in the select has to wait: no slot is free and its context is alive. */
  predicate MustWait(s: State, id: nat) {
    At(s, id, Waiting) && s.occupied >= s.cap && !s.calls[id].done
  }

  /** In every reachable state each call that has not returned can take its next
      step, except one in the select for which no slot is free and whose context is
      alive; and a free slot can be taken. */
  lemma NextStep(states: seq<State>, events: seq<Event>, i: nat, id: nat) returns (e: Event, s': State)
    requires Run(states, events) && i < |states|
    requires id in states[i].calls && states[i].calls[id].pc != Returned && !MustWait(states[i], id)
    ensures e.id == id && !e.Cancel? && Step(states[i], e, s')
    ensures At(states[i], id, Waiting) && states[i].occupied < states[i].cap ==> e == Acquire(id)
  {
    RunKeepsInvariant(states, events, i);
    var s := states[i];
    var c := s.calls[id];
    assert CallInvariant(s.cap, c);
    match c.pc {
      case Checking =>
        e, s' := PathFine(id), Move(s, id, c.(pc := Entering));
      case Entering =>
        if c.done {
          e, s' := DoneBefore(id), Move(s, id, c.(pc := Returned));
        } else {
          e, s' := Alive(id), Move(s, id, c.(pc := if s.cap == 0 then Holding else Waiting));
        }
      case Waiting =>
        if s.occupied < s.cap {
          e, s' := Acquire(id), Move(s, id, c.(pc := Holding, acquired := c.acquired + 1)).(occupied := s.occupied + 1);
        } else {
          e, s' := DoneWaiting(id), Move(s, id, c.(pc := Returned));
        }
      case Holding =>
        if c.kind == Reader {
          e, s' := StartReader(id), Move(s, id, c.(pc := Scanning));
        } else if c.open {
          e, s' := StatFine(id), Move(s, id, c.(pc := Scanning));
        } else {
          e, s' := Opened(id), Move(s, id, c.(open := true));
        }
      case Scanning =>
        e, s' := ScanEnds(id), Move(s, id, c.(pc := if c.open then Closing else Releasing));
      case Closing =>
        e, s' := CloseFile(id), Move(s, id, c.(pc := Releasing, open := false));
      case Releasing =>
        if s.cap == 0 {
          e, s' := Release(id), Move(s, id, c.(pc := Returned));
        } else {
          SubsetSmaller({id}, Holders(s));
          e, s' := Release(id), Move(s, id, c.(pc := Returned, released := c.released + 1)).(occupied := s.occupied - 1);
        }
    }
  }

  /** And that one waits for another call, which holds a slot and is not stuck. */
  lemma WaitsForHolder(states: seq<State>, events: seq<Event>, i: nat, id: nat) returns (holder: nat)
    requires Run(states, events) && i < |states| && MustWait(states[i], id)
    ensures holder != id && holder in states[i].calls && HasSlot(states[i].calls[holder])
    ensures states[i].calls[holder].pc != Returned && !MustWait(states[i], holder)
  {
    RunKeepsInvariant(states, events, i);
    assert CallInvariant(states[i].cap, states[i].calls[id]);
    assert Holders(states[i]) != {};
    holder :| holder in Holders(states[i]);
  }
}

/** The world around one scan. Whatever it does is given by oracles indexed by the
    number of the event, so a statement about every `Env` is one about every
    behaviour of the caller's reader, the connection, the clock and the context,
    and about cancellation between any two events. */
module Env {
  import opened Bytes
  import opened Errors
  import opened Trace

  /** A Read of the caller's reader: it may fill all the room it is given,
      whatever count and error it returns. */
  datatype ReadStep = ReadStep(count: int, bytes: nat -> byte, err: Option<Error>)

  /** A Write on the connection: the count it returned, of whatever size, and the
      error. */
  datatype WriteStep = WriteStep(count: int, err: Option<Error>)

  /** How many of `size` bytes a Write took that returned `count`. */
  function Taken(count: int, size: nat): (k: nat)
    ensures k <= size
  {
    Max(0, Min(count, size))
  }

  datatype RecvStep = RecvStep(data: bytes, err: Option<Error>)

  datatype Cause = Cancelled | Expired

  datatype Context = Context(doneFrom: Option<nat>, cause: Cause, deadline: Option<int>)

  /** A Read as its caller sees it: the count, the error, and the bytes delivered
      if the count is possible. */
  function SeenAs(s: ReadStep, room: nat): (e: ReadEvent)
    ensures e.room == room && e.count == s.count && e.err == s.err
  {
    RawRead(room, s.count, if 0 <= s.count <= room then seq(s.count, i requires 0 <= i => s.bytes(i)) else [], s.err)
  }

  /** min(now + ioTimeout, context deadline). */
  function RefreshedDeadline(ctxDeadline: Option<int>, now: int, ioTimeout: int): (t: int)
    ensures t <= now + ioTimeout && (ctxDeadline.Some? ==> t <= ctxDeadline.value)
    ensures t == now + ioTimeout || ctxDeadline == Some(t)
  {
    if ctxDeadline.Some? then Min(now + ioTimeout, ctxDeadline.value) else now + ioTimeout
  }

  /** An I/O on the connection: which, the event, and the deadline in force. */
  datatype Io = Io(op: Op, at: nat, deadline: int)

  /** A Write as its caller saw it; `at` is the event it was over by. */
  datatype WriteEvent = WriteEvent(size: nat, count: int, err: Option<Error>, at: nat)
  {
    predicate Faulty() {
      err.Some? || count != size
    }

    function Accepted(): nat {
      Taken(count, size)
    }

    /** The error a checking caller makes of a faulty write. */
    function Fault(): Error
      requires Faulty()
    {
      if err.Some? then err.value else Is(ShortWrite)
    }
  }

  /** A Read of the connection as its caller saw it. */
  datatype RecvEvent = RecvEvent(size: nat, err: Option<Error>, at: nat)

  /** What ended the reading of the connection, if it has ended: the error of the
      last Read, or the want of progress if that one brought nothing. */
  function StopOf(recvs: seq<RecvEvent>): Option<Error> {
    if recvs == [] then None
    else if recvs[|recvs| - 1].err.Some? then recvs[|recvs| - 1].err
    else if recvs[|recvs| - 1].size == 0 then Some(Is(NoProgress))
    else None
  }

  /** The writes `now` extend `was`, all the new ones whole. */
  ghost predicate WroteWhole(was: seq<WriteEvent>, now: seq<WriteEvent>) {
    was <= now && forall i | |was| <= i < |now| :: !now[i].Faulty()
  }

  /** The same, but for a last one that was not. */
  ghost predicate WroteUntilFault(was: seq<WriteEvent>, now: seq<WriteEvent>) {
    now != [] && WroteWhole(was, now[..|now| - 1]) && now[|now| - 1].Faulty()
  }

  const ABORT_DEADLINE: int := 1_000_000_000   // time.Unix(1, 0), in nanoseconds

  class World {
    const source: nat -> ReadStep
    const sink: nat -> WriteStep
    const peer: nat -> RecvStep
    const deadlineFault: nat -> Option<Error>
    const clock: nat -> int
    const ctx: Context

    var step: nat
    var deadline: int
    var sourceReads: seq<ReadEvent>
    var readsAt: seq<nat>
    var ios: seq<Io>
    var writes: seq<WriteEvent>
    var sent: bytes
    var received: bytes
    var recvs: seq<RecvEvent>

    constructor (source: nat -> ReadStep, sink: nat -> WriteStep, peer: nat -> RecvStep,
                 deadlineFault: nat -> Option<Error>, clock: nat -> int, ctx: Context)
      ensures this.source == source && this.sink == sink && this.peer == peer
      ensures this.deadlineFault == deadlineFault && this.clock == clock && this.ctx == ctx
      ensures Fresh()
    {
      this.source, this.sink, this.peer := source, sink, peer;
      this.deadlineFault, this.clock, this.ctx := deadlineFault, clock, ctx;
      step, deadline, sourceReads, readsAt, ios := 0, 0, [], [], [];
      writes, sent, received, recvs := [], [], [], [];
    }

    /** Nothing has happened yet. */
    predicate Fresh()
      reads this
    {
      && sourceReads == [] && readsAt == [] && ios == [] && writes == []
      && sent == [] && received == [] && recvs == []
    }

    /** Time does not run backwards, and a context does not expire early. */
    ghost predicate Sane() {
      && (forall i: nat, j: nat | i <= j :: clock(i) <= clock(j))
      && (ctx.doneFrom.Some? && ctx.cause == Expired
          ==> ctx.deadline.Some? && clock(ctx.doneFrom.value) >= ctx.deadline.value)
    }

    /** The caller's reader and the transport report errors of their own only. */
    ghost predicate Plain() {
      && (forall i :: source(i).err.Some? ==> Outside(source(i).err.value))
      && (forall i :: sink(i).err.Some? ==> Outside(sink(i).err.value))
      && (forall i :: peer(i).err.Some? ==> Outside(peer(i).err.value))
      && (forall i :: deadlineFault(i).Some? ==> Outside(deadlineFault(i).value))
    }

    /** The error `e` of an operation over by event `at` was that of the I/O at the
        event before, if that one failed with `io`; or that of SetDeadline; or the
        context's. */
    predicate Met(e: Error, io: Option<Error>, at: nat) {
      at > 0 && (io == Some(e) || deadlineFault(at - 1) == Some(e) || DoneAt(at) == Some(e))
    }

    /** The record of the connection invents no errors. */
    ghost predicate Told()
      reads this`writes, this`recvs
    {
      && (forall i | 0 <= i < |writes| && writes[i].err.Some? ::
            writes[i].at > 0 && Met(writes[i].err.value, sink(writes[i].at - 1).err, writes[i].at))
      && (forall i | 0 <= i < |recvs| && recvs[i].err.Some? ::
            recvs[i].at > 0 && Met(recvs[i].err.value, peer(recvs[i].at - 1).err, recvs[i].at))
    }

    function CauseOf(): (c: Sentinel)
      ensures ctx.cause == Cancelled ==> c == Canceled
      ensures ctx.cause == Expired ==> c == DeadlineExceeded
    {
      if ctx.cause == Cancelled then Canceled else DeadlineExceeded
    }

    /** ctx.Err() when asked at event `i`: once done, done for ever. */
    function DoneAt(i: nat): (err: Option<Error>)
      ensures err.Some? <==> ctx.doneFrom.Some? && ctx.doneFrom.value <= i
    {
      if ctx.doneFrom.Some? && ctx.doneFrom.value <= i then Some(Is(CauseOf())) else None
    }

    /** How the context has failed, asked at event `done` and timed at event `time`:
        by ctx.Err(), or by a deadline that has passed though its timer has not
        fired yet. */
    function FailedAt(done: nat, time: nat): (failed: Option<Sentinel>)
      ensures DoneAt(done).Some? ==> failed == Some(CauseOf())
      ensures DoneAt(done).None? && ctx.deadline.Some? && clock(time) >= ctx.deadline.value ==>
                failed == Some(DeadlineExceeded)
      ensures DoneAt(done).None? && (ctx.deadline.Some? ==> clock(time) < ctx.deadline.value) ==> failed.None?
    {
      if DoneAt(done).Some? then Some(CauseOf())
      else if ctx.deadline.Some? && clock(time) >= ctx.deadline.value then Some(DeadlineExceeded)
      else None
    }

    method CtxErr() returns (err: Option<Error>)
      modifies this`step
      ensures step == old(step) + 1 && err == DoneAt(old(step))
    {
      err := DoneAt(step);
      step := step + 1;
    }

    method Now() returns (t: int)
      modifies this`step
      ensures step == old(step) + 1 && t == clock(old(step))
    {
      t := clock(step);
      step := step + 1;
    }

    /** Read of the caller's reader into p[lo..]. */
    method ReadSource(p: array<byte>, lo: nat) returns (n: int, err: Option<Error>)
      requires lo <= p.Length
      modifies this`step, this`sourceReads, this`readsAt, p
      ensures step == old(step) + 1
      ensures p[..lo] == old(p[..lo])
      ensures n == source(old(step)).count && err == source(old(step)).err
      ensures sourceReads == old(sourceReads) + [SeenAs(source(old(step)), p.Length - lo)]
      ensures 0 <= n <= p.Length - lo ==> p[lo..lo + n] == SeenAs(source(old(step)), p.Length - lo).data
      ensures readsAt == old(readsAt) + [old(step)]
    {
      var s := source(step);
      n, err := s.count, s.err;
      for k := lo to p.Length
        modifies p
        invariant p[..lo] == old(p[..lo])
        invariant forall j | lo <= j < k :: p[j] == s.bytes(j - lo)
      {
        p[k] := s.bytes(k - lo);
      }
      readsAt := readsAt + [step];
      sourceReads := sourceReads + [SeenAs(s, p.Length - lo)];
      step := step + 1;
    }

    method ConnWrite(data: bytes) returns (n: int, err: Option<Error>)
      modifies this`step, this`sent, this`ios
      ensures step == old(step) + 1
      ensures n == sink(old(step)).count && err == sink(old(step)).err
      ensures sent == old(sent) + data[..Taken(n, |data|)]
      ensures ios == old(ios) + [Io(Op.Write, old(step), deadline)]
    {
      var s := sink(step);
      n, err := s.count, s.err;
      sent := sent + data[..Taken(n, |data|)];
      ios := ios + [Io(Op.Write, step, deadline)];
      step := step + 1;
    }

    method ConnRead(room: nat) returns (data: bytes, err: Option<Error>)
      modifies this`step, this`received, this`ios
      ensures step == old(step) + 1
      ensures data == peer(old(step)).data[..Min(|peer(old(step)).data|, room)] && err == peer(old(step)).err
      ensures received == old(received) + data
      ensures ios == old(ios) + [Io(Op.Read, old(step), deadline)]
    {
      var s := peer(step);
      data, err := s.data[..Min(|s.data|, room)], s.err;
      received := received + data;
      ios := ios + [Io(Op.Read, step, deadline)];
      step := step + 1;
    }

    method SetDeadline(t: int) returns (err: Option<Error>)
      modifies this`step, this`deadline
      ensures step == old(step) + 1 && err == deadlineFault(old(step))
      ensures deadline == if err.None? then t else old(deadline)
    {
      err := deadlineFault(step);
      if err.None? {
        deadline := t;
      }
      step := step + 1;
    }
  }
}

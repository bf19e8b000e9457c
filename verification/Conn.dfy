/** The connection wrapper that refreshes the deadline before every I/O, and the
    reader wrapper that checks the context before every Read of the source. */
module Conn {
  import opened Bytes
  import opened Errors
  import opened Trace
  import opened Env

  /** An I/O ran under a deadline no later than `ioTimeout` after the clock reading
      of its own refresh, three events before it, and no later than the context's;
      and it began with the context alive one event before. */
  predicate InTime(w: World, at: nat, deadline: int, ioTimeout: int) {
    && at >= 3
    && w.DoneAt(at - 1).None?
    && deadline <= w.clock(at - 3) + ioTimeout
    && (w.ctx.deadline.Some? ==> deadline <= w.ctx.deadline.value)
  }

  /** Every I/O from number `from` on was in time. */
  ghost predicate Punctual(w: World, from: nat, ioTimeout: int)
    reads w`ios
  {
    forall i | from <= i < |w.ios| :: InTime(w, w.ios[i].at, w.ios[i].deadline, ioTimeout)
  }

  /** Every I/O from number `from` on was a Read, or every one a Write. */
  ghost predicate Only(w: World, from: nat, op: Op)
    reads w`ios
  {
    forall i | from <= i < |w.ios| :: w.ios[i].op == op
  }

  /** No Read on the connection returns nothing at all. */
  ghost predicate Lively(w: World) {
    forall i :: w.peer(i).data != [] || w.peer(i).err.Some?
  }

  /** No Read of the caller's source began once the context was done; and the
      record shows what the source did. */
  ghost predicate ReadsWhileAlive(w: World)
    reads w`readsAt, w`sourceReads
  {
    && |w.readsAt| == |w.sourceReads|
    && forall i | 0 <= i < |w.readsAt| ::
         && w.readsAt[i] > 0 && w.DoneAt(w.readsAt[i] - 1).None?
         && w.sourceReads[i] == SeenAs(w.source(w.readsAt[i]), w.sourceReads[i].room)
  }

  class DeadlineConn {
    const env: World
    var ioTimeout: int

    constructor (env: World, ioTimeout: int)
      ensures this.env == env && this.ioTimeout == ioTimeout
    {
      this.env, this.ioTimeout := env, ioTimeout;
    }

    /** On success the context was alive at the last check, one event ago, and the
        deadline in force was derived from the clock two events before that. */
    method Refresh() returns (err: Option<Error>)
      modifies env`step, env`deadline
      ensures env.step > old(env.step)
      ensures env.DoneAt(old(env.step)).Some? ==> err == env.DoneAt(old(env.step)) && env.deadline == old(env.deadline)
      ensures err.None? ==>
                && env.step == old(env.step) + 4 && env.DoneAt(env.step - 1).None?
                && env.deadline <= env.clock(env.step - 3) + ioTimeout
                && (env.ctx.deadline.Some? ==> env.deadline <= env.ctx.deadline.value)
                && (env.deadline == env.clock(env.step - 3) + ioTimeout || env.ctx.deadline == Some(env.deadline))
                && forall t | t >= ioTimeout :: InTime(env, env.step, env.deadline, t)
      ensures err.Some? && (forall i :: env.deadlineFault(i) != err) ==>
                err == env.DoneAt(env.step)
      ensures err.Some? ==> env.step > 0 && (env.deadlineFault(env.step - 1) == err || env.DoneAt(env.step) == err)
      ensures (forall i :: env.deadlineFault(i).None?) && err.Some? && env.DoneAt(old(env.step)).None? ==>
                env.deadline == ABORT_DEADLINE
    {
      err := env.CtxErr();
      if err.Some? {
        return;
      }
      var now := env.Now();
      var t := now + ioTimeout;
      if env.ctx.deadline.Some? && env.ctx.deadline.value < t {
        t := env.ctx.deadline.value;
      }
      err := env.SetDeadline(t);
      if err.Some? {
        return;
      }
      err := env.CtxErr();
      if err.Some? {
        var _ := env.SetDeadline(ABORT_DEADLINE);
      }
    }

    method Write(data: bytes) returns (n: int, err: Option<Error>)
      modifies env`step, env`deadline, env`sent, env`ios, env`writes
      ensures env.step > old(env.step)
      ensures env.sent == old(env.sent) + data[..Taken(n, |data|)]
      ensures if |env.ios| == old(|env.ios|) then n == 0 && err.Some?
              else |env.ios| == old(|env.ios|) + 1
                   && n == env.sink(env.step - 1).count && err == env.sink(env.step - 1).err
      ensures env.writes == old(env.writes) + [WriteEvent(|data|, n, err, env.step)]
      ensures env.DoneAt(old(env.step)).Some? ==> n == 0 && err == env.DoneAt(old(env.step)) && env.ios == old(env.ios)
      ensures old(env.Told()) ==> env.Told()
      ensures forall from: nat :: old(Only(env, from, Op.Write)) ==> Only(env, from, Op.Write)
      ensures forall from: nat, t :: t >= ioTimeout && old(Punctual(env, from, t)) ==> Punctual(env, from, t)
    {
      hide InTime;
      err := Refresh();
      n := 0;
      if err.None? {
        n, err := env.ConnWrite(data);
      }
      env.writes := env.writes + [WriteEvent(|data|, n, err, env.step)];
    }

    method Read(room: nat) returns (data: bytes, err: Option<Error>)
      modifies env`step, env`deadline, env`received, env`recvs, env`ios
      ensures env.step > old(env.step)
      ensures if |env.ios| == old(|env.ios|) then data == [] && err.Some?
              else |env.ios| == old(|env.ios|) + 1 && err == env.peer(env.step - 1).err
                   && data == env.peer(env.step - 1).data[..Min(|env.peer(env.step - 1).data|, room)]
      ensures Lively(env) && room > 0 ==> data != [] || err.Some?
      ensures |data| <= room && env.received == old(env.received) + data
      ensures env.recvs == old(env.recvs) + [RecvEvent(|data|, err, env.step)]
      ensures env.DoneAt(old(env.step)).Some? ==> data == [] && err == env.DoneAt(old(env.step)) && env.ios == old(env.ios)
      ensures old(env.Told()) ==> env.Told()
      ensures old(env.ios) <= env.ios && forall from: nat :: old(Only(env, from, Op.Read)) ==> Only(env, from, Op.Read)
      ensures forall from: nat, t :: t >= ioTimeout && old(Punctual(env, from, t)) ==> Punctual(env, from, t)
    {
      hide InTime;
      err := Refresh();
      data := [];
      if err.None? {
        data, err := env.ConnRead(room);
      }
      env.recvs := env.recvs + [RecvEvent(|data|, err, env.step)];
    }
  }

  class CtxReader {
    const env: World
    var trace: seq<ReadEvent>

    constructor (env: World)
      ensures this.env == env && trace == []
    {
      this.env, this.trace := env, [];
    }

    /** What the consumer saw is what the caller's reader did, except that its last
        read may have been refused because the context was done by then. */
    ghost predicate Faithful()
      reads this`trace, env`sourceReads, env`step
    {
      || trace == env.sourceReads
      || (trace != [] && Front(trace) == env.sourceReads && Refused())
    }

    predicate Refused()
      reads this`trace, env`step
    {
      && env.DoneAt(env.step).Some? && trace != []
      && Last(trace).count == 0 && Last(trace).err == Some(SourceAborted(Is(env.CauseOf())))
    }

    method Read(p: array<byte>, lo: nat) returns (n: int, err: Option<Error>)
      requires lo <= p.Length
      modifies env`step, env`sourceReads, env`readsAt, this`trace, p
      ensures env.step > old(env.step)
      ensures p[..lo] == old(p[..lo])
      ensures |trace| == |old(trace)| + 1 && Front(trace) == old(trace)
      ensures old(ReadsWhileAlive(env)) ==> ReadsWhileAlive(env)
      ensures Last(trace).room == p.Length - lo && Last(trace).count == n && Last(trace).err == err
      ensures Last(trace).Possible() ==> p[lo..lo + n] == Last(trace).data
      ensures env.DoneAt(old(env.step)).Some? ==>
                && Last(trace) == RawRead(p.Length - lo, 0, [], Some(SourceAborted(env.DoneAt(old(env.step)).value)))
                && env.sourceReads == old(env.sourceReads) && env.readsAt == old(env.readsAt)
      ensures env.DoneAt(old(env.step)).None? ==>
                && env.step == old(env.step) + 2
                && Last(trace) == SeenAs(env.source(old(env.step) + 1), p.Length - lo)
                && env.sourceReads == old(env.sourceReads) + [Last(trace)]
                && env.readsAt == old(env.readsAt) + [old(env.step) + 1]
    {
      var done := env.CtxErr();
      if done.Some? {
        n, err := 0, Some(SourceAborted(done.value));
        trace := trace + [RawRead(p.Length - lo, 0, [], err)];
        return;
      }
      n, err := env.ReadSource(p, lo);
      trace := trace + [env.sourceReads[|env.sourceReads| - 1]];
    }
  }

  // ---- how long the connection can keep a reader waiting ---------------------------------

  /** The time spent inside the given I/Os. */
  function Waited(w: World, ios: seq<Io>): int {
    if ios == [] then 0
    else Waited(w, ios[..|ios| - 1]) + w.clock(ios[|ios| - 1].at + 1) - w.clock(ios[|ios| - 1].at)
  }

  /** An I/O returns once its deadline has passed. */
  ghost predicate Honoured(w: World, ios: seq<Io>) {
    forall i | 0 <= i < |ios| :: w.clock(ios[i].at + 1) <= Max(w.clock(ios[i].at), ios[i].deadline)
  }

  lemma OneWait(w: World, io: Io, ioTimeout: nat)
    requires w.Sane() && InTime(w, io.at, io.deadline, ioTimeout)
    requires w.clock(io.at + 1) <= Max(w.clock(io.at), io.deadline)
    ensures w.clock(io.at + 1) - w.clock(io.at) <= ioTimeout
  {
    assert w.clock(io.at - 3) <= w.clock(io.at);
  }

  lemma {:induction false} WaitsAddUp(w: World, ios: seq<Io>, ioTimeout: nat)
    requires forall i | 0 <= i < |ios| :: w.clock(ios[i].at + 1) - w.clock(ios[i].at) <= ioTimeout
    ensures Waited(w, ios) <= |ios| * ioTimeout
  {
    if ios != [] {
      var n := |ios| - 1;
      WaitsAddUp(w, ios[..n], ioTimeout);
      assert |ios| * ioTimeout == n * ioTimeout + ioTimeout;
    }
  }

  /** A peer that sends something whenever it is read, over a connection that
      honours deadlines, has kept the client waiting at most `span` in all the
      I/Os from number `from` on. */
  ghost predicate WaitsWithin(w: World, from: nat, span: int)
    reads w`ios
  {
    w.Sane() && Lively(w) && from <= |w.ios| && Honoured(w, w.ios[from..]) ==> Waited(w, w.ios[from..]) <= span
  }

  /** Each I/O of a run waits at most the I/O timeout, so `n` of them in a row at
      most `n` times that, however slowly the peer sends. */
  lemma WaitBounded(w: World, from: nat, n: nat, ioTimeout: nat)
    requires Punctual(w, from, ioTimeout) && (Lively(w) ==> |w.ios| <= from + n)
    ensures WaitsWithin(w, from, n * ioTimeout)
  {
    hide World.Sane, InTime, Waited, Lively;
    if w.Sane() && Lively(w) && from <= |w.ios| && Honoured(w, w.ios[from..]) {
      var ios := w.ios[from..];
      forall i | 0 <= i < |ios|
        ensures w.clock(ios[i].at + 1) - w.clock(ios[i].at) <= ioTimeout
      {
        assert ios[i] == w.ios[from + i];
        OneWait(w, ios[i], ioTimeout);
      }
      WaitsAddUp(w, ios, ioTimeout);
      MultiplyMonotone(ioTimeout, |ios|, n);
    }
  }

  lemma PunctualFromNow(w: World, ioTimeout: int)
    ensures Punctual(w, |w.ios|, ioTimeout)
  {
  }
}

/** The scan: command, stream, reply, verdict; and what every failure becomes. */
module Client {
  import opened Bytes
  import opened Text
  import opened Errors
  import opened Framing
  import opened Trace
  import opened Env
  import opened Conn
  import opened Proto
  import opened Reply
  import opened Classify

  const NO_SIZE_LIMIT: int := -1
  const RECOVERY_TIMEOUT: int := 2_000_000_000

  datatype Config = Config(ioTimeout: int, chunkSize: chunksize, maxStreamSize: int)
  {
    predicate Valid() {
      ioTimeout > 0 && (maxStreamSize == NO_SIZE_LIMIT || maxStreamSize > 0)
    }
  }

  /** The part of the configuration that a scan uses, if it passes validation. */
  function Configure(ioTimeout: int, chunkSize: int, maxStreamSize: int): (c: Option<Config>)
    ensures c.Some? <==> ioTimeout > 0 && 1 <= chunkSize <= 16 * 1024 * 1024 && (maxStreamSize == -1 || maxStreamSize > 0)
    ensures c.Some? ==> c.value.Valid() && c.value == Config(ioTimeout, chunkSize, maxStreamSize)
  {
    if ioTimeout <= 0 || chunkSize < 1 || chunkSize > MAX_CHUNK_SIZE
       || (maxStreamSize != NO_SIZE_LIMIT && maxStreamSize <= 0) then None
    else Some(Config(ioTimeout, chunkSize, maxStreamSize))
  }

  datatype Verdict = VerdictUnknown | VerdictClean | VerdictInfected

  datatype ScanResult = ScanResult(verdict: Verdict, signature: bytes, raw: bytes)

  const ZERO := ScanResult(VerdictUnknown, [], [])

  datatype Dialed = Connected | Refused(err: Error) | NoConnection

  // ---- the errors a scan can report --------------------------------------------------

  /** Why a scan failed: the rows of the documented error table. */
  datatype Failure =
    | TooLong                                // the client-side limit
    | RejectedTooLong(message: bytes)        // the server's limit
    | Rejected(message: bytes)               // any other ERROR reply
    | BadReply(note: Note)
    | Transport(op: Op, cause: Error)
    | Interrupted(cause: Error)              // the context
    | Input(cause: Error)                    // the caller's reader

  function ErrorFor(f: Failure): Error {
    match f
    case TooLong => Wrapped([Is(SizeLimitExceeded)])
    case RejectedTooLong(m) => Wrapped([Is(SizeLimitExceeded), ClamdError(m)])
    case Rejected(m) => ClamdError(m)
    case BadReply(n) => ProtocolError(n)
    case Transport(op, cause) => ConnectionError(op, cause)
    case Interrupted(cause) => Wrapped([cause])
    case Input(cause) => Wrapped([cause])
  }

  /** The caller's and the transport's own errors carry none of the marks that
      the retry classification looks for. */
  ghost predicate Unmarked(f: Failure) {
    match f
    case Transport(_, cause) => Inert(cause)
    case Input(cause) => Inert(cause)
    case Interrupted(cause) => cause == Is(Canceled) || cause == Is(DeadlineExceeded)
    case _ => true
  }

  /** The documented table: transport failures and deadline expiry are worth a
      retry, and nothing else is. */
  lemma RetryTable(f: Failure)
    requires Unmarked(f)
    ensures IsRetryable(Some(ErrorFor(f))) <==> f.Transport? || f == Interrupted(Is(DeadlineExceeded))
  {
    match f
    case Transport(op, cause) =>
      InertHasNone(cause, x => x == Is(Canceled));
      InertHasNone(cause, x => x == Is(SizeLimitExceeded));
      InertHasNone(cause, x => x == Is(DeadlineExceeded));
      InertHasNone(cause, IS_CLAMD);
      InertHasNone(cause, IS_PROTOCOL);
    case Input(cause) =>
      InertHasNone(cause, x => x == Is(Canceled));
      InertHasNone(cause, x => x == Is(SizeLimitExceeded));
      InertHasNone(cause, x => x == Is(DeadlineExceeded));
      InertHasNone(cause, IS_CONNECTION);
      RewrapKeepsRetryable(cause, 1);
    case RejectedTooLong(m) =>
      FindAmong([Is(SizeLimitExceeded), ClamdError(m)], x => x == Is(SizeLimitExceeded), 0);
    case _ =>
  }

  /** What callers find in a reported error: the size limit whichever side
      enforced it, a clamd error for every ERROR reply, a protocol error for every
      other bad reply, and a connection error for every transport failure. */
  lemma ErrorMarks(f: Failure)
    requires Unmarked(f)
    ensures IsA(ErrorFor(f), SizeLimitExceeded) <==> f.TooLong? || f.RejectedTooLong?
    ensures As(ErrorFor(f), IS_CLAMD) <==> f.Rejected? || f.RejectedTooLong?
    ensures As(ErrorFor(f), IS_PROTOCOL) <==> f.BadReply?
    ensures As(ErrorFor(f), IS_CONNECTION) <==> f.Transport?
  {
    hide Inert;
    match f
    case Transport(op, cause) =>
      NoMark(cause, x => x == Is(SizeLimitExceeded));
      NoMark(cause, IS_CLAMD);
      NoMark(cause, IS_PROTOCOL);
    case Input(cause) =>
      NoMark(cause, x => x == Is(SizeLimitExceeded));
      NoMark(cause, IS_CLAMD);
      NoMark(cause, IS_PROTOCOL);
      NoMark(cause, IS_CONNECTION);
    case RejectedTooLong(m) =>
      FindEither(Is(SizeLimitExceeded), ClamdError(m), x => x == Is(SizeLimitExceeded));
      FindEither(Is(SizeLimitExceeded), ClamdError(m), IS_CLAMD);
      FindEither(Is(SizeLimitExceeded), ClamdError(m), IS_PROTOCOL);
      FindEither(Is(SizeLimitExceeded), ClamdError(m), IS_CONNECTION);
    case _ =>
  }

  /** What callers can take out of a reported error: clamd's message, the offending
      reply, the failed operation, and everything the cause holds. */
  lemma ErrorDetails(f: Failure, p: Error -> bool)
    ensures f.Rejected? || f.RejectedTooLong? ==> Find(ErrorFor(f), IS_CLAMD) == Some(ClamdError(f.message))
    ensures f.BadReply? ==> Find(ErrorFor(f), IS_PROTOCOL) == Some(ProtocolError(f.note))
    ensures f.Transport? ==> Find(ErrorFor(f), IS_CONNECTION) == Some(ConnectionError(f.op, f.cause))
    ensures f.Transport? || f.Interrupted? || f.Input? ==> As(f.cause, p) ==> As(ErrorFor(f), p)
  {
    if f.RejectedTooLong? {
      FindFirst([Is(SizeLimitExceeded)], ClamdError(f.message), [], IS_CLAMD);
      assert [Is(SizeLimitExceeded)] + [ClamdError(f.message)] + [] == [Is(SizeLimitExceeded), ClamdError(f.message)];
    }
    if (f.Interrupted? || f.Input?) && As(f.cause, p) {
      FindFirst([], f.cause, [], p);
      assert [] + [f.cause] + [] == [f.cause];
    }
  }

  lemma NoMark(cause: Error, p: Error -> bool)
    requires Inert(cause) && forall x :: p(x) ==> Decisive(x)
    ensures Find(cause, p).None? && Find(Wrapped([cause]), p).None?
  {
    InertHasNone(cause, p);
    FindWrapped([], cause, [], p);
    assert [] + [cause] + [] == [cause];
  }

  lemma FindEither(a: Error, b: Error, p: Error -> bool)
    requires !p(Wrapped([a, b]))
    ensures Find(Wrapped([a, b]), p) == if Find(a, p).Some? then Find(a, p) else Find(b, p)
  {
    assert [a, b][1..] == [b] && [b][1..] == [];
    assert FindIn([b], p) == if Find(b, p).Some? then Find(b, p) else FindIn([], p);
  }

  // ---- pure classification -------------------------------------------------------------

  function ClamdFailure(message: bytes, sizeLimit: bool): (f: Failure)
    ensures f == RejectedTooLong(message) <==> sizeLimit
    ensures f == Rejected(message) <==> !sizeLimit
  {
    if sizeLimit then RejectedTooLong(message) else Rejected(message)
  }

  function ResultFromLine(line: bytes, terminated: bool): (ScanResult, Option<Failure>) {
    match ParseScanResponse(line)
    case Clean =>
      if !terminated then (ZERO, Some(BadReply(UnterminatedOk)))
      else (ScanResult(VerdictClean, [], line), None)
    case Infected(signature) => (ScanResult(VerdictInfected, signature, line), None)
    case Failed(message, sizeLimit) => (ZERO, Some(ClamdFailure(message, sizeLimit)))
    case Unknown(_) => (ZERO, Some(BadReply(Reply(line))))
  }

  /** How the context has failed when it is looked at from event `at`. */
  function FailedFrom(w: World, at: nat): (failed: Option<Sentinel>)
    ensures w.DoneAt(at).Some? ==> failed == Some(w.CauseOf())
    ensures w.DoneAt(at).None? && w.ctx.deadline.Some? && w.clock(at + 1) >= w.ctx.deadline.value ==>
              failed == Some(DeadlineExceeded)
    ensures w.DoneAt(at).None? && (w.ctx.deadline.Some? ==> w.clock(at + 1) < w.ctx.deadline.value) ==> failed.None?
  {
    w.FailedAt(at, at + 1)
  }

  /** What a transport failure is reported as, when it is looked at from event `at`. */
  function TransportFailure(w: World, at: nat, op: Op, cause: Error): (f: Failure)
    ensures w.DoneAt(at).Some? ==> f == Interrupted(Is(w.CauseOf()))
    ensures w.DoneAt(at).None? && w.ctx.deadline.Some? && w.clock(at + 1) >= w.ctx.deadline.value ==>
              f == Interrupted(Is(DeadlineExceeded))
    ensures w.DoneAt(at).None? && (w.ctx.deadline.Some? ==> w.clock(at + 1) < w.ctx.deadline.value) ==>
              f == Transport(op, cause)
  {
    var failed := FailedFrom(w, at);
    if failed.Some? then Interrupted(Is(failed.value)) else Transport(op, cause)
  }

  /** At no event of the run but perhaps the last had the context failed, by
      either of its clocks. */
  ghost predicate NeverFailed(w: World)
    reads w`step
  {
    forall i: nat | i + 1 < w.step :: w.FailedAt(i, i).None?
  }

  method CtxError(w: World) returns (failed: Option<Sentinel>)
    modifies w`step
    ensures w.step > old(w.step)
    ensures failed == FailedFrom(w, old(w.step))
    ensures w.DoneAt(old(w.step)).None? && w.ctx.deadline.Some? && w.clock(old(w.step) + 1) >= w.ctx.deadline.value ==>
              failed == Some(DeadlineExceeded)
    ensures failed.None? && w.Sane() ==> NeverFailed(w)
  {
    failed := None;
    var err := w.CtxErr();
    if err.Some? {
      failed := Some(err.value.what);
    } else if w.ctx.deadline.Some? {
      var now := w.Now();
      if now >= w.ctx.deadline.value {
        failed := Some(DeadlineExceeded);
      }
    }
  }

  method WrapWriteErr(w: World, cause: Error) returns (f: Failure)
    modifies w`step
    ensures w.step > old(w.step) && f == TransportFailure(w, old(w.step), Write, cause)
    ensures f.Transport? && w.Sane() ==> NeverFailed(w)
  {
    var failed := CtxError(w);
    f := if failed.Some? then Interrupted(Is(failed.value)) else Transport(Write, cause);
  }

  /** What an error in reading the reply is, if it is not the context's doing. */
  function ReadFailure(cause: Error): Failure {
    if IsA(cause, ResponseTooLarge) then BadReply(ReplyExceedsLimit)
    else if IsA(cause, MalformedReply) then BadReply(MultiLineReply)
    else Transport(Read, cause)
  }

  /** A reply of more than 4096 bytes before its NUL, and one of several lines, are
      protocol errors. */
  lemma BadReplyReported(s: bytes, body: bytes, stopped: Option<Error>)
    ensures |s| > 4096 && (forall i | 0 <= i <= 4096 :: s[i] != NUL) ==>
              var r := LineSpec(s, stopped, MAX_LINE_RESPONSE);
              r.err.Some? && ReadFailure(r.err.value) == BadReply(ReplyExceedsLimit)
    ensures body + [NUL] <= s && |body| <= 4096 && NUL !in body && SeveralLines(body) ==>
              var r := LineSpec(s, stopped, MAX_LINE_RESPONSE);
              r.err.Some? && ReadFailure(r.err.value) == BadReply(MultiLineReply)
  {
    hide FinishLine;
    LineCases(s, body, stopped, MAX_LINE_RESPONSE);
    if SeveralLines(body) {
      SeveralLinesMalformed(body, true);
    }
  }

  function ReadFailureFrom(w: World, at: nat, cause: Error): (f: Failure)
    ensures w.DoneAt(at).Some? ==> f == Interrupted(Is(w.CauseOf()))
    ensures w.DoneAt(at).None? && w.ctx.deadline.Some? && w.clock(at + 1) >= w.ctx.deadline.value ==>
              f == Interrupted(Is(DeadlineExceeded))
    ensures w.DoneAt(at).None? && (w.ctx.deadline.Some? ==> w.clock(at + 1) < w.ctx.deadline.value) ==>
              f == ReadFailure(cause)
  {
    var failed := FailedFrom(w, at);
    if failed.Some? then Interrupted(Is(failed.value)) else ReadFailure(cause)
  }

  method WrapReadErr(w: World, cause: Error) returns (f: Failure)
    modifies w`step
    ensures w.step > old(w.step) && f == ReadFailureFrom(w, old(w.step), cause)
    ensures f.Transport? && w.Sane() ==> NeverFailed(w)
  {
    hide IsA;
    var failed := CtxError(w);
    if failed.Some? {
      f := Interrupted(Is(failed.value));
    } else if IsA(cause, ResponseTooLarge) {
      f := BadReply(ReplyExceedsLimit);
    } else if IsA(cause, MalformedReply) {
      f := BadReply(MultiLineReply);
    } else {
      f := Transport(Read, cause);
    }
  }

  // ---- recovering from a failed stream --------------------------------------------------

  /** What a reply read after a failed write decides: None if nothing. It never
      decides that the payload is clean. */
  function RecoveredReply(r: LineResult): Option<(ScanResult, Option<Failure>)> {
    if r.err.Some? then None
    else
      match ParseScanResponse(r.line)
      case Failed(message, sizeLimit) => Some((ZERO, Some(ClamdFailure(message, sizeLimit))))
      case Infected(signature) => Some((ScanResult(VerdictInfected, signature, r.line), None))
      case Clean => Some((ZERO, Some(BadReply(Reply(r.line)))))
      case Unknown(_) => None
  }

  /** Recovery takes a detection or an error at its word, exactly as after a
      complete stream; but an OK is held against the server, terminated or not,
      and a reply it cannot classify decides nothing. */
  lemma RecoveryAgrees(r: LineResult)
    ensures r.err.None? && ParseScanResponse(r.line) != Clean && !ParseScanResponse(r.line).Unknown? ==>
              RecoveredReply(r) == Some(ResultFromLine(r.line, r.terminated))
    ensures r.err.None? && ParseScanResponse(r.line) == Clean ==>
              RecoveredReply(r) == Some((ZERO, Some(BadReply(Reply(r.line)))))
    ensures r.err.Some? || ParseScanResponse(r.line).Unknown? ==> RecoveredReply(r).None?
  {
    hide ParseScanResponse;
  }

  /** A stream failure that is decided without looking at the connection. */
  function LocalFailure(streamErr: Error): Option<Failure> {
    var source := Find(streamErr, IS_SOURCE);
    if IsA(streamErr, StreamTooLong) then Some(TooLong)
    else if source.None? then None
    else
      var aborted := Find(source.value.err, IS_ABORT);
      if aborted.None? then Some(Input(source.value.err))
      else Some(Interrupted(aborted.value.err))
  }

  /** The result is the detection reported by the line at the start of what was
      received, however its reading ended. */
  ghost predicate DetectionIn(received: bytes, res: ScanResult) {
    exists stopped ::
      var r := LineSpec(received, stopped, MAX_LINE_RESPONSE);
      r.err.None? && ParseScanResponse(r.line) == Infected(res.signature) && res.raw == r.line
  }

  // ---- how a scan ends -------------------------------------------------------------------

  /** The reply as it was read. */
  function ReplyOf(w: World): LineResult
    reads w`received, w`recvs
  {
    LineSpec(w.received, StopOf(w.recvs), MAX_LINE_RESPONSE)
  }

  /** The event at which the last Read of the connection was over. */
  function ReadUntil(w: World): nat
    reads w`recvs
  {
    if w.recvs == [] then 0 else w.recvs[|w.recvs| - 1].at
  }

  /** The result of a scan whose stream was sent. */
  function Judgement(w: World): (ScanResult, Option<Failure>)
    reads w`received, w`recvs
  {
    var r := ReplyOf(w);
    if r.err.None? then ResultFromLine(r.line, r.terminated)
    else (ZERO, Some(ReadFailureFrom(w, ReadUntil(w), r.err.value)))
  }

  /** The result of a scan that lost its connection to the write error `cause` at
      event `at`: the context's failure if it had failed by then, or else what a
      reply decides, or else the transport failure. */
  function Recovery(w: World, at: nat, cause: Error): (ScanResult, Option<Failure>)
    reads w`received, w`recvs
  {
    var failed := FailedFrom(w, at);
    if failed.Some? then (ZERO, Some(Interrupted(Is(failed.value))))
    else
      var reply := RecoveredReply(ReplyOf(w));
      if reply.Some? then reply.value
      else (ZERO, Some(TransportFailure(w, ReadUntil(w), Write, cause)))
  }

  /** Why a scan failed whose writes were good but whose input was not complete. */
  function InputFailure(w: World, cfg: Config): Failure
    reads w`sourceReads
  {
    var t := w.sourceReads;
    if cfg.maxStreamSize >= 0 && |Content(t)| > cfg.maxStreamSize then TooLong
    else if Ended(t) && EndingOf(t).Failed? then Input(EndingOf(t).err)
    else Interrupted(Is(w.CauseOf()))
  }

  /** The last write was faulty, and it was not the command. */
  predicate LostWrite(w: World)
    reads w`writes
  {
    |w.writes| > 1 && w.writes[|w.writes| - 1].Faulty()
  }

  /** The result of a connected scan, from what was read, written and received. */
  ghost function ResultOf(w: World, cfg: Config): (ScanResult, Option<Failure>)
    requires w.writes != []
    reads w`writes, w`received, w`recvs, w`sourceReads
  {
    var command, last := w.writes[0], w.writes[|w.writes| - 1];
    if command.err.Some? then (ZERO, Some(TransportFailure(w, command.at, Write, command.err.value)))
    else if LostWrite(w) then Recovery(w, last.at, last.Fault())
    else if InputComplete(w, cfg.maxStreamSize) then Judgement(w)
    else (ZERO, Some(InputFailure(w, cfg)))
  }

  /** The scan came to the point where it reads a reply. */
  ghost predicate AwaitsReply(w: World, cfg: Config)
    requires w.writes != []
    reads w`writes, w`sourceReads
  {
    && w.writes[0].err.None?
    && if LostWrite(w) then FailedFrom(w, w.writes[|w.writes| - 1].at).None? else InputComplete(w, cfg.maxStreamSize)
  }

  ghost predicate ReplyRead(w: World)
    reads w`received, w`recvs
  {
    w.recvs != [] && Decided(w.received, StopOf(w.recvs), MAX_LINE_RESPONSE)
  }

  /** The failure of the last write, or else of the source, is not an error of the
      streaming code's own. */
  ghost predicate NoneOfOurs(w: World)
    reads w`writes, w`sourceReads
  {
    if LostWrite(w) then NotOurs(w.writes[|w.writes| - 1].Fault())
    else Ended(w.sourceReads) && EndingOf(w.sourceReads).Failed? ==> NotOurs(EndingOf(w.sourceReads).err)
  }

  /** Reading stopped short of the input's end, with no limit crossed, only because
      the context was done. */
  ghost predicate AbortedIfCut(w: World, cfg: Config)
    reads w`sourceReads, w`step
  {
    !Ended(w.sourceReads) && (cfg.maxStreamSize >= 0 ==> |Content(w.sourceReads)| <= cfg.maxStreamSize) ==>
      w.DoneAt(w.step).Some?
  }

  /** How every connected scan ends: only its last write may have failed, and its
      result is the one determined by what happened. */
  ghost predicate Concluded(w: World, cfg: Config, res: ScanResult, failure: Option<Failure>)
    reads w`writes, w`received, w`recvs, w`sourceReads, w`step
  {
    && w.writes != []
    && (AllSent(w) <==> w.writes[0].err.None? && !LostWrite(w))
    && (AllSent(w) ==> AbortedIfCut(w, cfg))
    && (NoneOfOurs(w) ==> (res, failure) == ResultOf(w, cfg) && (AwaitsReply(w, cfg) ==> ReplyRead(w)))
  }

  // ---- how long it waits for a reply ------------------------------------------------------

  /** The I/Os from number `from` on are those of reading the reply, after nothing
      but writes. Each is in time for `ioTimeout`; and all together wait no longer
      than one such timeout for each byte of the longest line and its NUL. */
  ghost predicate ReplyPhase(w: World, from: nat, ioTimeout: int)
    reads w`ios
  {
    && from <= |w.ios| && (forall i | 0 <= i < from :: w.ios[i].op == Op.Write) && Only(w, from, Op.Read)
    && Punctual(w, from, ioTimeout)
    && WaitsWithin(w, from, (MAX_LINE_RESPONSE + 1) * ioTimeout)
  }

  /** Shorter in recovery. */
  function ReplyTimeout(w: World, cfg: Config): int
    reads w`writes
  {
    if LostWrite(w) then Min(cfg.ioTimeout, RECOVERY_TIMEOUT) else cfg.ioTimeout
  }

  /** The scan's I/Os are its writes, and then at most one timely reply phase. */
  ghost predicate ReplyTimely(w: World, cfg: Config)
    reads w`ios, w`writes
  {
    exists from :: ReplyPhase(w, from, ReplyTimeout(w, cfg))
  }

  lemma ReplyPhaseKnown(w: World, cfg: Config, from: nat, ioTimeout: int)
    requires ReplyPhase(w, from, ioTimeout) && ioTimeout == ReplyTimeout(w, cfg)
    ensures ReplyTimely(w, cfg)
  {
  }

  lemma NoReplyPhase(w: World, ioTimeout: int)
    requires Only(w, 0, Op.Write) && ioTimeout > 0
    ensures ReplyPhase(w, |w.ios|, ioTimeout)
  {
    assert w.ios[|w.ios|..] == [];
  }

  /** A reply phase that has ended. */
  lemma ReplyPhaseEnds(w: World, was: seq<Io>, ioTimeout: int)
    requires was <= w.ios && (forall i | 0 <= i < |was| :: was[i].op == Op.Write) && ioTimeout > 0
    requires Only(w, |was|, Op.Read) && Punctual(w, |was|, ioTimeout)
    requires Lively(w) ==> |w.ios| <= |was| + MAX_LINE_RESPONSE + 1
    ensures ReplyPhase(w, |was|, ioTimeout)
  {
    hide Punctual, Only;
    WaitBounded(w, |was|, MAX_LINE_RESPONSE + 1, ioTimeout);
  }

  method RecoverStreamError(w: World, dc: DeadlineConn, br: BufReader, streamErr: Error)
    returns (res: ScanResult, failure: Option<Failure>)
    requires dc.env == w && br.conn == dc && br.Valid() && br.Untouched() && dc.ioTimeout > 0
    requires Only(w, 0, Op.Write)
    modifies w`step, w`deadline, w`received, w`recvs, w`ios, dc`ioTimeout, br
    ensures w.step >= old(w.step) && br.Valid()
    ensures failure.Some? <==> res == ZERO
    ensures failure.None? ==> res.verdict == VerdictInfected
    ensures res.verdict == VerdictInfected ==> DetectionIn(w.received, res)
    ensures LocalFailure(streamErr).Some? ==> failure == LocalFailure(streamErr)
    ensures LocalFailure(streamErr).None? && streamErr.SinkError? ==>
              && (res, failure) == Recovery(w, old(w.step), streamErr.err)
              && (FailedFrom(w, old(w.step)).None? ==> ReplyRead(w))
    ensures LocalFailure(streamErr).Some? ==> ReplyPhase(w, |w.ios|, old(dc.ioTimeout))
    ensures LocalFailure(streamErr).None? && FailedFrom(w, old(w.step)).None? ==>
              dc.ioTimeout == Min(old(dc.ioTimeout), RECOVERY_TIMEOUT)
    ensures ReplyPhase(w, old(|w.ios|), Min(old(dc.ioTimeout), RECOVERY_TIMEOUT))
    ensures old(w.Told()) ==> w.Told()
    ensures failure.Some? && failure.value.Transport? && w.Sane() ==> NeverFailed(w)
    ensures forall from: nat, t :: t >= old(dc.ioTimeout) && old(Punctual(w, from, t)) ==> Punctual(w, from, t)
  {
    hide Punctual, Only, ReplyPhase, Find, ParseScanResponse, LineSpec, IsA, NeverFailed, World.Told, World.Sane;
    NoReplyPhase(w, Min(dc.ioTimeout, RECOVERY_TIMEOUT));
    NoReplyPhase(w, dc.ioTimeout);
    WritesOnly(w);
    res := ZERO;
    failure := LocalFailure(streamErr);
    if failure.Some? {
      return;
    }
    var failed := CtxError(w);
    if failed.Some? {
      failure := Some(Interrupted(Is(failed.value)));
      return;
    }
    dc.ioTimeout := Min(dc.ioTimeout, RECOVERY_TIMEOUT);
    PunctualFromNow(w, dc.ioTimeout);
    var line, terminated, rerr := ReadLine(br, MAX_LINE_RESPONSE);
    ReplyPhaseEnds(w, old(w.ios), dc.ioTimeout);
    var reply := RecoveredReply(LineResult(line, terminated, rerr));
    if reply.Some? {
      return reply.value.0, reply.value.1;
    }
    SinkCases(streamErr);
    var sink := Find(streamErr, IS_SINK);
    var f := WrapWriteErr(w, if sink.Some? then sink.value.err else streamErr);
    failure := Some(f);
  }

  lemma SinkCases(e: Error)
    ensures e.SinkError? ==> Find(e, IS_SINK) == Some(e)
  {
  }

  // ---- the scan ---------------------------------------------------------------------------

  method Dial(w: World, dialed: Dialed) returns (failure: Option<Failure>)
    modifies w`step
    ensures w.step >= old(w.step)
    ensures failure.None? <==> dialed.Connected?
    ensures dialed.Refused? ==> failure == Some(TransportFailure(w, old(w.step), Errors.Dial, dialed.err))
    ensures dialed.NoConnection? ==> failure == Some(Transport(Errors.Dial, Is(NilConnection)))
    ensures dialed.Refused? && failure.Some? && failure.value.Transport? && w.Sane() ==> NeverFailed(w)
  {
    hide NeverFailed, World.Sane;
    failure := None;
    match dialed {
      case Refused(err) =>
        var failed := CtxError(w);
        failure := Some(if failed.Some? then Interrupted(Is(failed.value)) else Transport(Errors.Dial, err));
      case NoConnection =>
        failure := Some(Transport(Errors.Dial, Is(NilConnection)));
      case Connected =>
    }
  }

  /** The caller's reader delivered everything up to io.EOF, within the limit. */
  ghost predicate InputComplete(w: World, max: int)
    reads w`sourceReads
  {
    && Ended(w.sourceReads) && EndingOf(w.sourceReads) == AtEof
    && (max >= 0 ==> |Content(w.sourceReads)| <= max)
  }

  /** No write failed, and none after the command was short. */
  ghost predicate AllSent(w: World)
    reads w`writes
  {
    && w.writes != [] && w.writes[0].err.None?
    && forall i | 1 <= i < |w.writes| :: !w.writes[i].Faulty()
  }

  /** The bytes received begin with a clean reply and its NUL, within the limit. */
  ghost predicate CleanAnswer(received: bytes) {
    var k := IndexIn(received, {NUL});
    k < |received| && k <= MAX_LINE_RESPONSE && CleanReply(received[..k])
  }

  /** The part of the content that may be sent: all of it, or the whole chunks
      within a limit it exceeds. */
  function Sendable(content: bytes, c: chunksize, max: int): (p: bytes)
    ensures p <= content && (max >= 0 ==> |p| <= max)
  {
    if max >= 0 && |content| > max then
      WholeChunksWithin(max, c);
      content[..max / c * c]
    else content
  }

  lemma WholeChunksWithin(max: nat, c: chunksize)
    ensures 0 <= max / c * c <= max
  {
    assert max == c * (max / c) + max % c;
  }

  /** Whatever happened, the wire holds the command (or the part of it that went
      out) and a prefix of the framing of what may be sent: all of it only if the
      input was complete, and always if nothing failed. */
  ghost predicate WireSafe(w: World, cfg: Config)
    reads w`sent, w`writes, w`sourceReads
  {
    if w.writes == [] then w.sent == [] && w.sourceReads == []
    else
      var c := cfg.chunkSize;
      var command, stream := EncodeCommand(INSTREAM), Framed(Sendable(Content(w.sourceReads), c, cfg.maxStreamSize), c);
      var a := w.writes[0].Accepted();
      && a <= |command| && Grew(command[..a], w.sent, stream)
      && (w.writes[0].err.Some? ==> w.sent == command[..a])
      && (w.sent == command[..a] + stream ==> InputComplete(w, cfg.maxStreamSize))
      && (InputComplete(w, cfg.maxStreamSize) && AllSent(w) ==> w.sent == command[..a] + stream)
  }

  /** Why the input could not be used: the client-side limit comes first, then the
      reader's own failure, even if the context is done by then; and if reading
      stopped for neither reason, with every write good, it was for the context.
      Errors of this package cannot come from outside. */
  ghost predicate InputBlamed(w: World, cfg: Config, failure: Option<Failure>)
    reads w`sourceReads, w`writes
  {
    if cfg.maxStreamSize >= 0 && |Content(w.sourceReads)| > cfg.maxStreamSize then failure == Some(TooLong)
    else if Ended(w.sourceReads) && EndingOf(w.sourceReads).Failed? && NotOurs(EndingOf(w.sourceReads).err)
    then failure == Some(Input(EndingOf(w.sourceReads).err))
    else !Ended(w.sourceReads) && AllSent(w) ==> failure == Some(Interrupted(Is(w.CauseOf())))
  }

  /** With a limit, the caller's reader is read only so often, whatever it does. */
  ghost predicate ReadsWithin(w: World, cfg: Config)
    reads w`sourceReads
  {
    cfg.maxStreamSize >= 0 ==> |w.sourceReads| <= MAX_EMPTY_READS * (cfg.maxStreamSize + cfg.chunkSize + 1)
  }

  /** The last step of a scan whose stream was sent: one reply line, and what it
      means. */
  method ReadVerdict(w: World, br: BufReader) returns (res: ScanResult, failure: Option<Failure>)
    requires br.conn.env == w && br.Valid() && br.Untouched() && br.conn.ioTimeout > 0
    requires Only(w, 0, Op.Write)
    modifies w`step, w`deadline, w`received, w`recvs, w`ios, br
    ensures failure.Some? <==> res == ZERO
    ensures failure.None? ==> res.verdict != VerdictUnknown
    ensures res.verdict == VerdictClean <==> CleanAnswer(w.received)
    ensures res.verdict == VerdictInfected ==> DetectionIn(w.received, res)
    ensures w.step >= old(w.step) && (res, failure) == Judgement(w) && ReplyRead(w)
    ensures ReplyPhase(w, old(|w.ios|), br.conn.ioTimeout)
    ensures old(w.Told()) ==> w.Told()
    ensures failure.Some? && failure.value.Transport? && w.Sane() ==> NeverFailed(w)
    ensures forall from: nat, t :: t >= br.conn.ioTimeout && old(Punctual(w, from, t)) ==> Punctual(w, from, t)
  {
    hide Punctual, Only, ReplyPhase, NeverFailed, CleanAnswer, ParseScanResponse, LineSpec, IsA, World.Told, World.Sane;
    WritesOnly(w);
    PunctualFromNow(w, br.conn.ioTimeout);
    var line, terminated, rerr := ReadLine(br, MAX_LINE_RESPONSE);
    ReplyPhaseEnds(w, old(w.ios), br.conn.ioTimeout);
    CleanVerdict(w.received, StopOf(w.recvs));
    if rerr.Some? {
      var f := WrapReadErr(w, rerr.value);
      return ZERO, Some(f);
    }
    var r := ResultFromLine(line, terminated);
    return r.0, r.1;
  }

  /** Everything after the command. */
  method Exchange(w: World, cfg: Config, dc: DeadlineConn, br: BufReader, ghost quiet: nat)
    returns (res: ScanResult, failure: Option<Failure>)
    requires dc.env == w && dc.ioTimeout == cfg.ioTimeout && cfg.Valid()
    requires br.conn == dc && br.Valid() && br.Untouched() && w.Told()
    requires cfg.maxStreamSize < 0 ==> forall k :: k >= quiet ==> w.source(k).err.Some?
    requires |w.writes| == 1 && w.writes[0].err.None? && w.writes[0].Accepted() <= |EncodeCommand(INSTREAM)|
    requires w.sent == EncodeCommand(INSTREAM)[..w.writes[0].Accepted()] && w.sourceReads == []
    requires ReadsWhileAlive(w) && Punctual(w, 0, cfg.ioTimeout) && Only(w, 0, Op.Write)
    modifies w, dc, br
    ensures failure.Some? <==> res == ZERO
    ensures failure.None? ==> res.verdict != VerdictUnknown
    ensures res.verdict == VerdictClean
       <==> InputComplete(w, cfg.maxStreamSize) && AllSent(w) && CleanAnswer(w.received)
    ensures res.verdict == VerdictInfected ==> DetectionIn(w.received, res)
    ensures Concluded(w, cfg, res, failure)
    ensures WireSafe(w, cfg)
    ensures InputBlamed(w, cfg, failure)
    ensures ReadsWhileAlive(w) && Punctual(w, 0, cfg.ioTimeout)
    ensures ReplyTimely(w, cfg)
    ensures ReadsWithin(w, cfg)
    ensures w.Told()
    ensures w.Sane() && failure.Some? && failure.value.Transport? ==> NeverFailed(w)
  {
    hide Punctual, ReadsWhileAlive, NeverFailed, WireSafe, InputBlamed, CleanAnswer, InputComplete, AllSent;
    hide Find, IsA, Framed, Grew, Content, ParseScanResponse, LineSpec, Streamed, DetectionIn, LocalFailure;
    hide RecoveredReply, ResultFromLine, World.Told, World.Sane, NotOurs, Only, ReplyPhase, ReplyTimely;
    hide Recovery, Judgement, ReplyRead, FailedFrom, CtxReader.Faithful, ReadsWithin;
    var src := new CtxReader(w);
    ghost var command := w.writes;
    var total, streamErr := StreamAll(dc, src, cfg.chunkSize, cfg.maxStreamSize, quiet);
    AfterStream(w, src, cfg, command, total, streamErr);
    FewReads(w, src, cfg);
    ghost var from := |w.ios|;
    if streamErr.Some? {
      res, failure := RecoverStreamError(w, dc, br, streamErr.value);
      BlamedExactly(w, cfg, failure);
      ReplyPhaseKnown(w, cfg, if LostWrite(w) then from else |w.ios|, ReplyTimeout(w, cfg));
    } else {
      res, failure := ReadVerdict(w, br);
      ReplyPhaseKnown(w, cfg, from, cfg.ioTimeout);
    }
  }

  method ScanStream(w: World, cfg: Config, dialed: Dialed, ghost quiet: nat) returns (res: ScanResult, failure: Option<Failure>)
    requires w.Fresh() && cfg.Valid()
    requires cfg.maxStreamSize < 0 ==> forall k :: k >= quiet ==> w.source(k).err.Some?
    modifies w
    ensures failure.Some? <==> res == ZERO
    ensures failure.None? ==> res.verdict != VerdictUnknown
    ensures res.verdict == VerdictClean
       <==> dialed.Connected? && InputComplete(w, cfg.maxStreamSize) && AllSent(w) && CleanAnswer(w.received)
    ensures res.verdict == VerdictInfected ==> DetectionIn(w.received, res)
    ensures match dialed
            case Refused(err) => failure == Some(TransportFailure(w, old(w.step), Errors.Dial, err))
            case NoConnection => failure == Some(Transport(Errors.Dial, Is(NilConnection)))
            case Connected => Concluded(w, cfg, res, failure)
    ensures !dialed.Connected? ==> w.Fresh()
    ensures WireSafe(w, cfg)
    ensures InputBlamed(w, cfg, failure)
    ensures ReadsWhileAlive(w) && Punctual(w, 0, cfg.ioTimeout) && w.Told()
    ensures ReplyTimely(w, cfg)
    ensures ReadsWithin(w, cfg)
    ensures w.Plain() && (dialed.Refused? ==> Outside(dialed.err)) && failure.Some? ==> Unmarked(failure.value)
    ensures w.Sane() && failure.Some? && failure.value.Transport? && !dialed.NoConnection? ==> NeverFailed(w)
  {
    hide Punctual, ReadsWhileAlive, NeverFailed, WireSafe, InputBlamed, CleanAnswer, InputComplete, AllSent;
    hide Find, IsA, DetectionIn, World.Told, World.Plain, World.Sane, Outside, Inert, EncodeCommand;
    hide ResultOf, AwaitsReply, ReplyRead, Only, ReplyTimely, ReadsWithin;
    res := ZERO;
    NothingYet(w, cfg);
    failure := Dial(w, dialed);
    if failure.Some? {
      DialUnmarked(w, old(w.step), dialed);
      return;
    }
    var dc := new DeadlineConn(w, cfg.ioTimeout);
    var br := new BufReader(dc);
    var _, werr := dc.Write(EncodeCommand(INSTREAM));
    CommandOnly(w, cfg);
    if werr.Some? {
      var f := WrapWriteErr(w, werr.value);
      res, failure := ZERO, Some(f);
      CommandFailed(w, cfg, f);
    } else {
      res, failure := Exchange(w, cfg, dc, br, quiet);
    }
    ReportedUnmarked(w, cfg, res, failure);
  }

  lemma WritesOnly(w: World)
    requires Only(w, 0, Op.Write)
    ensures forall i | 0 <= i < |w.ios| :: w.ios[i].op == Op.Write
    ensures Only(w, |w.ios|, Op.Read)
  {
  }

  lemma FewReads(w: World, src: CtxReader, cfg: Config)
    requires src.env == w && src.Faithful() && cfg.Valid()
    requires cfg.maxStreamSize >= 0 ==>
               |src.trace| <= MAX_EMPTY_READS * (cfg.maxStreamSize + cfg.chunkSize + 1)
    ensures ReadsWithin(w, cfg)
  {
  }

  /** An ERROR reply is the server's size limit only if its message says so. */
  lemma ErrorReplyVerdict(message: bytes, terminated: bool)
    requires PlainMessage(message)
    ensures ResultFromLine(message + ERROR, terminated)
         == (ZERO, Some(if exists k: nat :: MentionsAt(message, k) then RejectedTooLong(message) else Rejected(message)))
  {
    hide ParseScanResponse, IsSizeLimitMessage;
    ErrorReplyClassified(message);
    SizeLimitMentioned(message);
  }

  /** What a scan reports of the reply it read, for every line: the size limit exactly
      if an ERROR message mentions it, and otherwise the message alone; a detection
      with its signature; and a clean verdict only after a complete stream and from
      a line that ended at its NUL. */
  lemma ReplyReported(w: World, cfg: Config, res: ScanResult, failure: Option<Failure>)
    requires Concluded(w, cfg, res, failure) && NoneOfOurs(w) && AwaitsReply(w, cfg) && ReplyOf(w).err.None?
    ensures match ParseScanResponse(ReplyOf(w).line)
            case Failed(m, _) =>
              res == ZERO && failure == Some(if exists k: nat :: MentionsAt(m, k) then RejectedTooLong(m) else Rejected(m))
            case Infected(signature) =>
              res == ScanResult(VerdictInfected, signature, ReplyOf(w).line) && failure.None?
            case Clean =>
              if !LostWrite(w) && ReplyOf(w).terminated then
                res == ScanResult(VerdictClean, [], ReplyOf(w).line) && failure.None?
              else res == ZERO && failure.Some? && failure.value.BadReply?
            case Unknown(_) =>
              res == ZERO && (!LostWrite(w) ==> failure == Some(BadReply(Reply(ReplyOf(w).line))))
  {
    hide ReplyOf, ParseScanResponse, FailedFrom, NoneOfOurs, InputComplete, LineSpec;
    FlagMeansMention(ReplyOf(w).line);
  }

  /** Once the context has failed by either clock, a lost write is reported as the
      abort, whatever the server may have answered; and a write refused because
      the context was done always is. */
  lemma LostWriteAborted(w: World, cfg: Config, res: ScanResult, failure: Option<Failure>)
    requires Concluded(w, cfg, res, failure) && LostWrite(w) && w.writes[0].err.None?
    ensures var last := w.writes[|w.writes| - 1];
            && (NotOurs(last.Fault()) && FailedFrom(w, last.at).Some? ==>
                  (res, failure) == (ZERO, Some(Interrupted(Is(FailedFrom(w, last.at).value)))))
            && (NotOurs(last.Fault()) && w.DoneAt(last.at).None?
                && w.ctx.deadline.Some? && w.clock(last.at + 1) >= w.ctx.deadline.value ==>
                  (res, failure) == (ZERO, Some(Interrupted(Is(DeadlineExceeded)))))
            && (w.Plain() && w.Told() && last.err == Some(Is(w.CauseOf())) ==>
                  (res, failure) == (ZERO, Some(Interrupted(Is(w.CauseOf())))))
  {
    hide ReplyOf, AllSent, ResultFromLine, RecoveredReply, Inert, NotOurs, World.Plain, InputComplete;
    var last := w.writes[|w.writes| - 1];
    NotOutside(w);
    if w.Plain() && w.Told() && last.err == Some(Is(w.CauseOf())) {
      FaultOutside(w, last);
    }
  }

  /** The same for the reply: once the context has failed by either clock when the
      reading of it ends in an error, the abort is reported, and only otherwise is
      it a transport or a protocol failure; both after a complete stream and, where
      no reply decided, after a lost write. */
  lemma ReplyErrorAborted(w: World, cfg: Config, res: ScanResult, failure: Option<Failure>)
    requires Concluded(w, cfg, res, failure) && NoneOfOurs(w) && AwaitsReply(w, cfg)
    requires if LostWrite(w) then RecoveredReply(ReplyOf(w)).None? else ReplyOf(w).err.Some?
    ensures res == ZERO && failure.Some?
    ensures var failed := FailedFrom(w, ReadUntil(w));
            if failed.Some? then failure == Some(Interrupted(Is(failed.value)))
            else if LostWrite(w) then failure == Some(Transport(Write, w.writes[|w.writes| - 1].Fault()))
            else failure == Some(ReadFailure(ReplyOf(w).err.value))
    ensures w.DoneAt(ReadUntil(w)).None? && w.ctx.deadline.Some? && w.clock(ReadUntil(w) + 1) >= w.ctx.deadline.value ==>
              failure == Some(Interrupted(Is(DeadlineExceeded)))
  {
    hide ReplyOf, FailedFrom, NoneOfOurs, RecoveredReply, ResultFromLine, InputComplete;
  }

  /** Expiry is worth a retry and cancellation is not. */
  lemma AbortRetry()
    ensures IsRetryable(Some(ErrorFor(Interrupted(Is(DeadlineExceeded)))))
    ensures !IsRetryable(Some(ErrorFor(Interrupted(Is(Canceled)))))
  {
    RetryTable(Interrupted(Is(DeadlineExceeded)));
    RetryTable(Interrupted(Is(Canceled)));
  }

  lemma NotOutside(w: World)
    ensures !Inert(Is(w.CauseOf()))
  {
  }

  lemma DialUnmarked(w: World, at: nat, dialed: Dialed)
    ensures Unmarked(Transport(Errors.Dial, Is(NilConnection)))
    ensures dialed.Refused? && Outside(dialed.err) ==> Unmarked(TransportFailure(w, at, Errors.Dial, dialed.err))
  {
  }

  lemma CommandFailed(w: World, cfg: Config, f: Failure)
    requires |w.writes| == 1 && w.writes[0].err.Some?
    requires f == TransportFailure(w, w.writes[0].at, Write, w.writes[0].err.value)
    ensures Concluded(w, cfg, ZERO, Some(f))
  {
    hide TransportFailure, InputComplete;
  }

  /** An input failure blamed on the right party is the one that happened. */
  lemma BlamedExactly(w: World, cfg: Config, failure: Option<Failure>)
    ensures InputBlamed(w, cfg, failure) && AllSent(w) && !LostWrite(w)
            && NoneOfOurs(w) && !InputComplete(w, cfg.maxStreamSize) ==>
              failure == Some(InputFailure(w, cfg))
  {
    hide Content, EndingOf, Running, AllSent, NotOurs;
  }

  /** If the caller's reader and the transport report errors of their own only,
      then so does the scan: its failure is one that the retry table is about. */
  lemma ReportedUnmarked(w: World, cfg: Config, res: ScanResult, failure: Option<Failure>)
    requires Concluded(w, cfg, res, failure) && ReadsWhileAlive(w) && w.Told()
    ensures w.Plain() ==> NoneOfOurs(w)
    ensures w.Plain() && failure.Some? ==> Unmarked(failure.value)
  {
    hide NoneOfOurs, Recovery, Judgement, InputFailure, TransportFailure, AllSent, Unmarked, InputComplete;
    hide Inert, World.Told, World.Plain;
    if w.Plain() {
      PlainNoneOfOurs(w);
      if w.writes[0].err.Some? {
        assert w.writes[0].Faulty();
        CommandUnmarked(w);
      } else if LostWrite(w) {
        RecoveryUnmarked(w);
      } else if InputComplete(w, cfg.maxStreamSize) {
        JudgementUnmarked(w);
      } else {
        InputUnmarked(w, cfg);
      }
    }
  }

  lemma PlainNoneOfOurs(w: World)
    requires w.Plain() && w.Told() && ReadsWhileAlive(w)
    ensures NoneOfOurs(w)
  {
    hide Inert, NotOurs, Outside, World.Plain, EndingOf, Running, ReadsWhileAlive;
    if Ended(w.sourceReads) {
      EndingOutside(w);
    }
    if LostWrite(w) {
      FaultOutside(w, w.writes[|w.writes| - 1]);
    }
  }

  lemma CommandUnmarked(w: World)
    requires w.Plain() && w.Told() && w.writes != [] && w.writes[0].err.Some?
    ensures Unmarked(TransportFailure(w, w.writes[0].at, Write, w.writes[0].err.value))
  {
    hide Inert, NotOurs, World.Plain;
    FaultOutside(w, w.writes[0]);
  }

  lemma RecoveryUnmarked(w: World)
    requires w.Plain() && w.Told() && LostWrite(w)
    ensures var last := w.writes[|w.writes| - 1];
            var r := Recovery(w, last.at, last.Fault());
            r.1.Some? ==> Unmarked(r.1.value)
  {
    hide Inert, NotOurs, World.Plain, ReplyOf, ParseScanResponse;
    FaultOutside(w, w.writes[|w.writes| - 1]);
  }

  lemma JudgementUnmarked(w: World)
    requires w.Plain() && w.Told()
    ensures Judgement(w).1.Some? ==> Unmarked(Judgement(w).1.value)
  {
    hide Inert, World.Plain, World.Told, ParseScanResponse, FinishLine, IsA, IndexIn;
    if StopOf(w.recvs).Some? {
      StopOutside(w);
    }
    OwnReadErrors();
  }

  lemma OwnReadErrors()
    ensures ReadFailure(Is(ResponseTooLarge)).BadReply? && ReadFailure(Is(MalformedReply)).BadReply?
  {
  }

  lemma InputUnmarked(w: World, cfg: Config)
    requires w.Plain() && ReadsWhileAlive(w)
    ensures Unmarked(InputFailure(w, cfg))
  {
    hide Inert, NotOurs, World.Plain, EndingOf, Running, Content, ReadsWhileAlive;
    if Ended(w.sourceReads) {
      EndingOutside(w);
    }
  }

  lemma NothingYet(w: World, cfg: Config)
    requires w.Fresh() && cfg.Valid()
    ensures !InputComplete(w, cfg.maxStreamSize) && !AllSent(w) && WireSafe(w, cfg)
    ensures forall f :: InputBlamed(w, cfg, f)
    ensures ReadsWhileAlive(w) && Punctual(w, 0, cfg.ioTimeout) && w.Told()
    ensures Only(w, 0, Op.Write) && ReadsWithin(w, cfg) && ReplyTimely(w, cfg)
  {
    NoReplyPhase(w, cfg.ioTimeout);
    ReplyPhaseKnown(w, cfg, 0, cfg.ioTimeout);
  }

  lemma CommandOnly(w: World, cfg: Config)
    requires w.sourceReads == [] && |w.writes| == 1 && cfg.Valid() && Only(w, 0, Op.Write)
    requires w.writes[0].Accepted() <= |EncodeCommand(INSTREAM)|
    requires w.sent == EncodeCommand(INSTREAM)[..w.writes[0].Accepted()]
    ensures WireSafe(w, cfg) && !InputComplete(w, cfg.maxStreamSize) && !LostWrite(w) && ReadsWithin(w, cfg)
    ensures ReplyTimely(w, cfg)
    ensures !AllSent(w) ==> forall f :: InputBlamed(w, cfg, f)
    ensures w.writes[0].err.Some? ==> !AllSent(w)
  {
    hide EncodeCommand, Only;
    NoReplyPhase(w, cfg.ioTimeout);
    ReplyPhaseKnown(w, cfg, |w.ios|, cfg.ioTimeout);
    hide ReplyPhase;
    var c := cfg.chunkSize;
    assert Framed([], c) == TERMINATOR && Sendable([], c, cfg.maxStreamSize) == [];
  }

  /** The reads as the stream writer saw them and as the caller's reader did them:
      they differ at most in a last one, refused because the context was done. */
  lemma Heard(src: CtxReader)
    requires src.Faithful() && src.trace != [] && Running(Front(src.trace))
    ensures Content(src.env.sourceReads) == Content(src.trace)
    ensures src.trace == src.env.sourceReads ||
            (!Ended(src.env.sourceReads) && src.env.DoneAt(src.env.step).Some?
             && EndingOf(src.trace) == Ending.Failed(SourceAborted(Is(src.env.CauseOf()))))
  {
    if src.trace != src.env.sourceReads {
      Extend(src.env.sourceReads, Last(src.trace));
    }
  }

  lemma LocalCases(e: Error)
    ensures LocalFailure(Is(StreamTooLong)) == Some(TooLong)
    ensures LocalFailure(SourceError(e)).Some?
    ensures NotOurs(e) ==> LocalFailure(SourceError(e)) == Some(Input(e)) && LocalFailure(SinkError(e)).None?
    ensures e.SourceAborted? && e.err.Is? && e.err.what != StreamTooLong ==>
              LocalFailure(SourceError(e)) == Some(Interrupted(e.err))
  {
    if e.SourceAborted? && e.err.Is? && e.err.what != StreamTooLong {
      assert !IsA(e.err, StreamTooLong);
      assert !IsA(e, StreamTooLong);
      assert !IsA(SourceError(e), StreamTooLong);
    }
  }

  /** What streaming leaves behind, whatever its result. */
  lemma AfterStream(w: World, src: CtxReader, cfg: Config, command: seq<WriteEvent>, total: int, streamErr: Option<Error>)
    requires src.env == w && src.Faithful() && cfg.Valid()
    requires |command| == 1 && command[0].err.None? && command[0].Accepted() <= |EncodeCommand(INSTREAM)|
    requires Streamed(src.trace, cfg.chunkSize, cfg.maxStreamSize,
                      EncodeCommand(INSTREAM)[..command[0].Accepted()], w.sent, command, w.writes, total, streamErr)
    ensures WireSafe(w, cfg)
    ensures streamErr.None? <==> InputComplete(w, cfg.maxStreamSize) && AllSent(w)
    ensures var last := w.writes[|w.writes| - 1];
            w.writes != [] && w.writes[0].err.None? &&
            if streamErr.Some? && streamErr.value.SinkError? then
              LostWrite(w) && !AllSent(w) && streamErr.value.err == last.Fault()
              && (NotOurs(last.Fault()) ==> LocalFailure(streamErr.value).None?)
            else AllSent(w) && !LostWrite(w) && (streamErr.Some? ==> LocalFailure(streamErr.value).Some?)
    ensures AllSent(w) ==> AbortedIfCut(w, cfg)
    ensures streamErr.Some? && !streamErr.value.SinkError? && ReadsWhileAlive(w) && w.Plain() ==>
              Unmarked(LocalFailure(streamErr.value).value)
    ensures streamErr.None? ==> forall f :: InputBlamed(w, cfg, f)
    ensures streamErr.Some? && LocalFailure(streamErr.value).Some? ==> InputBlamed(w, cfg, LocalFailure(streamErr.value))
    ensures streamErr.Some? && LocalFailure(streamErr.value).None? ==> forall f :: InputBlamed(w, cfg, f)
  {
    hide Find, IsA, Framed, Frames, Grew, Running, Ended, EndingOf, Content, EncodeCommand, LocalFailure, NotOurs, CtxReader.Faithful;
    Heard(src);
    if streamErr == Some(Is(StreamTooLong)) {
      NoTerminator(EncodeCommand(INSTREAM)[..command[0].Accepted()], Content(src.trace)[..total], cfg.chunkSize);
    }
    AfterWrites(command, w.writes);
    if streamErr.Some? && (streamErr.value.SourceError? || streamErr.value.SinkError?) {
      LocalCases(streamErr.value.err);
    } else {
      LocalCases(EOF);
    }
    if ReadsWhileAlive(w) && w.Plain() && Ended(w.sourceReads) {
      EndingOutside(w);
    }
  }

  lemma EndingOutside(w: World)
    requires ReadsWhileAlive(w) && w.Plain() && Ended(w.sourceReads)
    ensures EndingOf(w.sourceReads).Failed? ==>
              NotOurs(EndingOf(w.sourceReads).err) && Inert(EndingOf(w.sourceReads).err)
  {
    var i := |w.sourceReads| - 1;
    assert w.sourceReads[i] == SeenAs(w.source(w.readsAt[i]), w.sourceReads[i].room);
    assert Outside(Is(NoProgress)) && Outside(Is(InvalidRead));
  }

  lemma MetOutside(w: World, e: Error, io: Option<Error>, at: nat)
    requires w.Plain() && w.Met(e, io, at) && (io.Some? ==> Outside(io.value))
    ensures NotOurs(e)
    ensures w.DoneAt(at).None? ==> Outside(e)
  {
    assert NotOurs(Is(w.CauseOf()));
  }

  lemma FaultOutside(w: World, e: WriteEvent)
    requires w.Plain() && e.Faulty()
    requires e.err.Some? ==> e.at > 0 && w.Met(e.err.value, w.sink(e.at - 1).err, e.at)
    ensures NotOurs(e.Fault())
    ensures w.DoneAt(e.at).None? ==> Inert(e.Fault())
  {
    if e.err.Some? {
      MetOutside(w, e.err.value, w.sink(e.at - 1).err, e.at);
    }
  }

  lemma StopOutside(w: World)
    requires w.Plain() && w.Told() && StopOf(w.recvs).Some?
    ensures FailedFrom(w, ReadUntil(w)).None? ==>
              Inert(StopOf(w.recvs).value) && ReadFailure(StopOf(w.recvs).value).Transport?
  {
    var last := w.recvs[|w.recvs| - 1];
    if last.err.Some? {
      MetOutside(w, last.err.value, w.peer(last.at - 1).err, last.at);
    }
  }

  lemma NoTerminator(before: bytes, p: bytes, c: chunksize)
    ensures Grew(before, before + Frames(p, c), Framed(p, c))
    ensures before + Frames(p, c) != before + Framed(p, c)
  {
    hide Frames;
    assert Framed(p, c)[..|Frames(p, c)|] == Frames(p, c);
  }

  lemma AfterWrites(command: seq<WriteEvent>, writes: seq<WriteEvent>)
    requires |command| == 1 && command[0].err.None?
    ensures WroteWhole(command, writes) ==>
              writes != [] && writes[0] == command[0] && forall i | 1 <= i < |writes| :: !writes[i].Faulty()
    ensures WroteUntilFault(command, writes) ==>
              |writes| > 1 && writes[0] == command[0] && writes[|writes| - 1].Faulty()
  {
  }

  /** The verdict is clean exactly when the bytes received say so, whatever ended
      the reading. */
  lemma CleanVerdict(received: bytes, stopped: Option<Error>)
    ensures var r := LineSpec(received, stopped, MAX_LINE_RESPONSE);
            r.err.None? && ResultFromLine(r.line, r.terminated).0.verdict == VerdictClean <==> CleanAnswer(received)
  {
    hide ParseScanResponse, CleanReply, FinishLine;
    var k := IndexIn(received, {NUL});
    if k < |received| && k <= MAX_LINE_RESPONSE {
      CleanLanguage(received[..k]);
    }
  }
}

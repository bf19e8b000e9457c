/** The client and the fake server together. A scan that meets the contract of
    Client.ScanStream is described by what it leaves in its world; the server's
    reply is a function of what was sent. */
module Session {
  import opened Bytes
  import opened Text
  import opened Framing
  import opened Errors
  import opened Trace
  import opened Env
  import opened Conn
  import opened Proto
  import opened Reply
  import opened Classify
  import opened Client
  import opened LimitReply
  import FakeServer

  // ---- the stream alone ------------------------------------------------------------------

  /** Two sources that deliver the same bytes and end at io.EOF, or both cross the
      limit and agree on the whole chunks within it, leave the same bytes on the
      wire and get the same result, however their reads are split, whether the EOF
      comes with data or alone, and wherever beyond the limit they stop. */
  lemma ScheduleIndependent(t: seq<ReadEvent>, u: seq<ReadEvent>, c: chunksize, max: int, before: bytes,
                            after: bytes, after': bytes, was: seq<WriteEvent>, now: seq<WriteEvent>, now': seq<WriteEvent>,
                            total: int, total': int, err: Option<Error>, err': Option<Error>)
    requires Streamed(t, c, max, before, after, was, now, total, err)
    requires Streamed(u, c, max, before, after', was, now', total', err')
    requires WroteWhole(was, now) && WroteWhole(was, now')
    requires Sendable(Content(t), c, max) == Sendable(Content(u), c, max)
    requires if 0 <= max < |Content(t)| then max < |Content(u)|
             else !(0 <= max < |Content(u)|) && EndingOf(t) == AtEof && EndingOf(u) == AtEof
    ensures after == after' && total == total' && err == err'
    ensures err.None? <==> !(0 <= max < |Content(t)|)
  {
    hide Running, Content, Frames, Framed, Grew;
  }

  /** Whatever the source and the sink did, what one stream left on the wire
      decodes to the source's whole content if it is the whole framing, and then
      the input had ended well within the limit; and to nothing otherwise. On an
      error it can only be whole if the sink took the terminator and failed. */
  lemma OnlyCompleteInputDecodes(t: seq<ReadEvent>, c: chunksize, max: int, wire: bytes,
                                 was: seq<WriteEvent>, now: seq<WriteEvent>, total: int, err: Option<Error>)
    requires Streamed(t, c, max, [], wire, was, now, total, err)
    ensures FakeServer.Decode(wire, [], 0, None)
         == if wire == Framed(Content(t), c) then FakeServer.Complete(Content(t), []) else FakeServer.Dropped(FakeServer.InputEnded)
    ensures wire == Framed(Content(t), c) ==>
              Ended(t) && EndingOf(t) == AtEof && (max >= 0 ==> |Content(t)| <= max)
    ensures wire == Framed(Content(t), c) ==> err.None? || err.value.SinkError?
    ensures err.None? ==> wire == Framed(Content(t), c)
  {
    hide Running, Content, Framed, Frames, FakeServer.Decode;
    assert wire[0..] == wire && [] + Framed(Content(t), c) == Framed(Content(t), c);
    FakeServer.DecodePrefix(Content(t), c, wire, [], 0);
    assert [] + Content(t) == Content(t);
  }

  // ---- the whole scan ----------------------------------------------------------------------

  type Handler = FakeServer.Request -> bytes
  type EarlyReply = FakeServer.EarlyReply

  /** The command was written by a writer that reports short writes. */
  ghost predicate CommandReported(w: World)
    reads w`writes
  {
    w.writes != [] && w.writes[0].err.None? ==> w.writes[0].Accepted() == |EncodeCommand(INSTREAM)|
  }

  /** The verdict a scan returns, by the contract of ScanStream. */
  ghost predicate VerdictJustified(w: World, cfg: Config, res: ScanResult)
    reads w`sourceReads, w`writes, w`received
  {
    && (res.verdict == VerdictClean ==> InputComplete(w, cfg.maxStreamSize) && AllSent(w) && CleanAnswer(w.received))
    && (res.verdict == VerdictInfected ==> DetectionIn(w.received, res))
  }

  /** What the client received is part of what the server wrote. */
  ghost predicate Answered(w: World, limit: int, early: Option<EarlyReply>, handler: Handler)
    reads w`sent, w`received
  {
    w.received <= FakeServer.Reply(w.sent, limit, early, handler)
  }

  function Payload(w: World, cfg: Config): bytes
    reads w`sourceReads
  {
    Sendable(Content(w.sourceReads), cfg.chunkSize, cfg.maxStreamSize)
  }

  function WholeSession(w: World, cfg: Config): bytes
    reads w`sourceReads
  {
    EncodeCommand(INSTREAM) + Framed(Payload(w, cfg), cfg.chunkSize)
  }

  lemma SentIsPartOfSession(w: World, cfg: Config)
    requires WireSafe(w, cfg) && CommandReported(w)
    ensures w.sent <= WholeSession(w, cfg)
    ensures w.sent == WholeSession(w, cfg) ==> InputComplete(w, cfg.maxStreamSize)
    ensures InputComplete(w, cfg.maxStreamSize) && AllSent(w) ==> w.sent == WholeSession(w, cfg)
  {
    hide Sendable, EncodeCommand, Framed, Running, EndingOf;
    var c := cfg.chunkSize;
    if w.writes != [] {
      GrewWhole(EncodeCommand(INSTREAM), w.writes[0].Accepted(), w.sent, Framed(Payload(w, cfg), c));
    }
    StreamNotEmpty(Payload(w, cfg), c);
  }

  lemma StreamNotEmpty(p: bytes, c: chunksize)
    ensures Framed(p, c) != [] && EncodeCommand(INSTREAM) + Framed(p, c) != []
    ensures EncodeCommand(INSTREAM) + Framed(p, c) != EncodeCommand(INSTREAM)
  {
    hide Frames, EncodeCommand;
  }

  lemma GrewWhole(command: bytes, a: nat, sent: bytes, stream: bytes)
    requires a <= |command| && Grew(command[..a], sent, stream)
    requires a == |command| || sent == command[..a]
    ensures sent <= command + stream
    ensures stream != [] ==> (sent == command + stream <==> a == |command| && sent == command[..a] + stream)
  {
    assert command[..|command|] == command;
    assert sent == command[..a] + sent[a..];
    assert a < |command| ==> sent < command;
  }

  /** The whole session was sent, for a payload within the server's limit. */
  predicate Served(w: World, cfg: Config, limit: int)
    reads w`sent, w`sourceReads
  {
    w.sent == WholeSession(w, cfg) && (limit > 0 ==> |Payload(w, cfg)| <= limit)
  }

  predicate EarlyDue(w: World, cfg: Config, early: Option<EarlyReply>)
    reads w`sourceReads
  {
    FakeServer.Due(early, 0, Payload(w, cfg))
  }

  /** With no early reply due, the server hands a payload to the handler if and only
      if the whole session was sent for one within its limit, and then exactly what
      the caller's reader delivered up to io.EOF; within its limit it says nothing
      else, and beyond it at most that the limit was exceeded. With an early reply
      due, the handler never runs. */
  lemma ServedExactly(w: World, cfg: Config, limit: int, early: Option<EarlyReply>, handler: Handler)
    requires WireSafe(w, cfg) && CommandReported(w)
    ensures var reply := FakeServer.Reply(w.sent, limit, early, handler);
            if EarlyDue(w, cfg, early) then
              && (reply in {[], early.value.data} || (reply == LIMIT_REPLY && 0 < limit < |Payload(w, cfg)|))
              && (Served(w, cfg, limit) ==> reply == early.value.data)
            else if Served(w, cfg, limit) then reply == handler(FakeServer.Request(INSTREAM, Content(w.sourceReads)))
            else
              && (reply == [] || (reply == LIMIT_REPLY && 0 < limit < |Payload(w, cfg)|))
              && (w.sent == WholeSession(w, cfg) ==> reply == LIMIT_REPLY)
  {
    hide InputComplete, WireSafe, FakeServer.Reply, Framed, Sendable, Content, EncodeCommand, FakeServer.Due;
    SentIsPartOfSession(w, cfg);
    var c := cfg.chunkSize;
    FakeServer.SessionEarly(Payload(w, cfg), c, w.sent, limit, early, handler);
    if 0 < limit < |Payload(w, cfg)| {
      FakeServer.SessionOverLimit(Payload(w, cfg), c, w.sent, limit, handler);
    } else {
      FakeServer.SessionWithinLimit(Payload(w, cfg), c, w.sent, limit, handler);
    }
    if w.sent == WholeSession(w, cfg) {
      WithinClientLimit(w, cfg);
    }
  }

  lemma WithinClientLimit(w: World, cfg: Config)
    ensures InputComplete(w, cfg.maxStreamSize) ==> Payload(w, cfg) == Content(w.sourceReads)
  {
  }

  /** With a client-side limit no larger than the server's, no run reaches the
      server's size-limit or chunk-size branch, whatever the reader delivers: what
      was sent after the command decodes to the whole payload if all of the session
      was sent, and otherwise the server is left waiting for more. */
  lemma AlignedLimits(w: World, cfg: Config, limit: int)
    requires WireSafe(w, cfg) && CommandReported(w)
    requires 0 < cfg.maxStreamSize <= limit
    ensures |Payload(w, cfg)| <= limit
    ensures FakeServer.Command(w.sent)
         == if |w.sent| < |EncodeCommand(INSTREAM)| then None else Some((INSTREAM, w.sent[|EncodeCommand(INSTREAM)|..]))
    ensures |w.sent| >= |EncodeCommand(INSTREAM)| ==>
              FakeServer.Decode(w.sent[|EncodeCommand(INSTREAM)|..], [], limit, None)
              == (if w.sent == WholeSession(w, cfg) then FakeServer.Complete(Payload(w, cfg), [])
                  else FakeServer.Dropped(FakeServer.InputEnded))
  {
    hide InputComplete, WireSafe, FakeServer.Command, FakeServer.Decode, Framed, Sendable, Content;
    SentIsPartOfSession(w, cfg);
    var p, c := Payload(w, cfg), cfg.chunkSize;
    FakeServer.SplitSession(w.sent, Framed(p, c));
    if |w.sent| >= |EncodeCommand(INSTREAM)| {
      FakeServer.DecodePrefix(p, c, w.sent[|EncodeCommand(INSTREAM)|..], [], limit);
      assert [] + p == p;
    }
  }

  /** A verdict means that the handler judged exactly the caller's data: the reply
      it is based on is the handler's reply to the complete payload, or the early
      reply if that was due. In no case does a clean verdict rest on an early reply
      to an incomplete stream. */
  lemma VerdictMeansScanned(w: World, cfg: Config, res: ScanResult, limit: int, early: Option<EarlyReply>, handler: Handler)
    requires WireSafe(w, cfg) && CommandReported(w) && VerdictJustified(w, cfg, res) && Answered(w, limit, early, handler)
    requires res.verdict != VerdictUnknown
    ensures if EarlyDue(w, cfg, early) then w.received <= early.value.data
            else Served(w, cfg, limit) && InputComplete(w, cfg.maxStreamSize)
                 && w.received <= handler(FakeServer.Request(INSTREAM, Content(w.sourceReads)))
    ensures res.verdict == VerdictClean ==> w.sent == WholeSession(w, cfg) && InputComplete(w, cfg.maxStreamSize)
    ensures res.verdict == VerdictClean && !EarlyDue(w, cfg, early) ==>
              CleanAnswer(handler(FakeServer.Request(INSTREAM, Content(w.sourceReads))))
  {
    hide InputComplete, WireSafe, FakeServer.Reply, WholeSession, CleanAnswer, DetectionIn, EarlyDue, AllSent, LIMIT_REPLY;
    ServedExactly(w, cfg, limit, early, handler);
    SentIsPartOfSession(w, cfg);
    if w.received <= LIMIT_REPLY {
      LimitReplyIsNoVerdict(w.received, res);
    }
    if res.verdict == VerdictClean && !EarlyDue(w, cfg, early) {
      AnswerExtends(w.received, handler(FakeServer.Request(INSTREAM, Content(w.sourceReads))));
    }
  }

  lemma AnswerExtends(received: bytes, written: bytes)
    requires CleanAnswer(received) && received <= written
    ensures CleanAnswer(written)
  {
    var k := IndexIn(received, {NUL});
    assert forall i | 0 <= i <= k :: written[i] == received[i];
    IndexIsFirst(written, {NUL}, k);
    assert written[..k] == received[..k];
  }

  /** A scan that was not served never gets a verdict, and hears nothing but the
      size-limit reply or a part of it, and nothing at all within the limit. */
  lemma UnservedNeverJudged(w: World, cfg: Config, res: ScanResult, limit: int, early: Option<EarlyReply>, handler: Handler)
    requires WireSafe(w, cfg) && CommandReported(w) && VerdictJustified(w, cfg, res) && Answered(w, limit, early, handler)
    requires !Served(w, cfg, limit) && !EarlyDue(w, cfg, early)
    ensures res.verdict == VerdictUnknown
    ensures w.received <= LIMIT_REPLY && (!(0 < limit < |Payload(w, cfg)|) ==> w.received == [])
  {
    hide WireSafe, FakeServer.Reply, Served, EarlyDue, Payload, CleanAnswer, DetectionIn, InputComplete, LIMIT_REPLY;
    ServedExactly(w, cfg, limit, early, handler);
    LimitReplyIsNoVerdict(w.received, res);
  }

  // ---- end to end ----------------------------------------------------------------------------

  /** Every run of a scan against the fake server. With no early reply due: if it was
      not served, whether for its size or because it broke off, it fails with a
      limit, connection, context or reader failure, or with an unknown reply exactly
      if the size-limit reply was cut short by EOF; and any verdict is the handler's
      on the complete content of the caller's reader. With one due, a verdict is
      based on it, and clean only for a complete stream. */
  method ScanAgainstFake(w: World, cfg: Config, dialed: Dialed, limit: int, early: Option<EarlyReply>, handler: Handler,
                         ghost quiet: nat)
    returns (res: ScanResult, failure: Option<Failure>)
    requires w.Fresh() && cfg.Valid()
    requires cfg.maxStreamSize < 0 ==> forall k :: k >= quiet ==> w.source(k).err.Some?
    modifies w
    ensures failure.Some? <==> res == ZERO
    ensures CommandReported(w) && Answered(w, limit, early, handler) && !Served(w, cfg, limit) && !EarlyDue(w, cfg, early) ==>
              && failure.Some?
              && (w.Plain() ==> if CutShortByEof(w, cfg) then failure == Some(BadReply(Note.Reply(w.received)))
                                else LimitOrConnection(w, failure.value))
    ensures CommandReported(w) && Answered(w, limit, early, handler) && failure.None? ==>
              if EarlyDue(w, cfg, early) then
                && w.received <= early.value.data
                && (res.verdict == VerdictClean ==> w.sent == WholeSession(w, cfg) && InputComplete(w, cfg.maxStreamSize))
              else
                && InputComplete(w, cfg.maxStreamSize)
                && w.sent == EncodeCommand(INSTREAM) + Framed(Content(w.sourceReads), cfg.chunkSize)
                && w.received <= handler(FakeServer.Request(INSTREAM, Content(w.sourceReads)))
  {
    hide WireSafe, InputComplete, AllSent, CleanAnswer, DetectionIn, FakeServer.Reply, Framed, Content, Sendable, LIMIT_REPLY;
    hide InputBlamed, NeverFailed, EncodeCommand, Concluded, World.Plain, World.Told, ReadsWhileAlive, Punctual, Unmarked, EarlyDue;
    res, failure := ScanStream(w, cfg, dialed, quiet);
    if CommandReported(w) && Answered(w, limit, early, handler) {
      if failure.None? {
        VerdictMeansScanned(w, cfg, res, limit, early, handler);
        WithinClientLimit(w, cfg);
      } else if !Served(w, cfg, limit) && !EarlyDue(w, cfg, early) {
        UnservedNeverJudged(w, cfg, res, limit, early, handler);
        if dialed.Connected? && w.Plain() {
          LimitHeard(w, cfg, res, failure);
        } else {
          NeverSent(w, cfg);
        }
      }
    }
  }

  /** Without a write there was nothing to cut short. */
  lemma NeverSent(w: World, cfg: Config)
    ensures w.writes == [] ==> !CutShortByEof(w, cfg)
  {
  }
}

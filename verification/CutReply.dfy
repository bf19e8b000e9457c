/** A run in which an oversized payload is reported as neither a limit nor a
    connection failure. */
module CutReply {
  import opened Bytes
  import opened Framing
  import opened Errors
  import opened Trace
  import opened Env
  import opened Conn
  import opened Proto
  import opened Reply
  import opened Classify
  import opened Client
  import opened LimitReply
  import opened Session
  import FakeServer

  const CHUNK: chunksize := 2
  const CONFIG := Config(1, CHUNK, NO_SIZE_LIMIT)
  const SERVER_LIMIT := 1

  /** The payload. */
  const TWO: bytes := [1, 1]

  // ---- the behaviour of the world, and the record of the run ------------------------------

  const SOURCE: nat -> ReadStep := _ => ReadStep(2, _ => 1, Some(EOF))
  const SINK: nat -> WriteStep := i => WriteStep(if i == 4 then 10 else if i == 11 then 6 else 4, None)
  const PEER: nat -> RecvStep := _ => RecvStep(INSTREAM, Some(EOF))

  /** The command, one Read of the source, its chunk and the terminator all go well,
      each write after the four events of its refresh; and the one Read of the
      connection yields the first word of the server's reply and EOF. */
  ghost predicate TheRun(w: World)
    reads w
  {
    && w.source == SOURCE && w.sink == SINK && w.peer == PEER
    && (forall i :: w.deadlineFault(i).None?) && (forall i :: w.clock(i) == 0)
    && w.ctx == Context(None, Cancelled, None)
    && w.sourceReads == [RawRead(2, 2, TWO, Some(EOF))] && w.readsAt == [6]
    && w.writes == [WriteEvent(10, 10, None, 5), WriteEvent(6, 6, None, 12), WriteEvent(4, 4, None, 17)]
    && w.sent == EncodeCommand(INSTREAM) + Framed(TWO, CHUNK)
    && w.received == INSTREAM && w.recvs == [RecvEvent(8, Some(EOF), 22)]
    && w.ios == [Io(Op.Write, 4, 1), Io(Op.Write, 11, 1), Io(Op.Write, 16, 1), Io(Op.Read, 21, 1)]
    && w.step == 22
  }

  lemma RunIsSound(w: World)
    requires TheRun(w)
    ensures w.Plain() && w.Told() && ReadsWhileAlive(w) && Punctual(w, 0, CONFIG.ioTimeout)
  {
    assert Outside(EOF);
    assert SeenAs(SOURCE(6), 2).data == TWO;
  }

  lemma RunIsComplete(w: World)
    requires TheRun(w)
    ensures Content(w.sourceReads) == TWO && Payload(w, CONFIG) == TWO
    ensures InputComplete(w, NO_SIZE_LIMIT) && AllSent(w) && CommandReported(w)
    ensures StopOf(w.recvs) == Some(EOF)
  {
    assert Front(w.sourceReads) == [];
    assert Content(w.sourceReads) == [] + TWO;
  }

  lemma RunIsOnTheWire(w: World)
    requires TheRun(w)
    ensures w.sent == WholeSession(w, CONFIG) && WireSafe(w, CONFIG)
    ensures forall handler :: FakeServer.Reply(w.sent, SERVER_LIMIT, None, handler) == LIMIT_REPLY
  {
    hide Framed, Frames, FakeServer.Reply, Content, InputComplete, AllSent, EncodeCommand, INSTREAM;
    RunIsComplete(w);
    var command := EncodeCommand(INSTREAM);
    CommandLength();
    assert command[..10] == command;
    forall handler
      ensures FakeServer.Reply(w.sent, SERVER_LIMIT, None, handler) == LIMIT_REPLY
    {
      FakeServer.SessionOverLimit(TWO, CHUNK, w.sent, SERVER_LIMIT, handler);
    }
  }

  lemma CommandLength()
    ensures |EncodeCommand(INSTREAM)| == 10
  {
  }

  lemma RunIsCutShort(w: World)
    requires TheRun(w)
    ensures CutShortByEof(w, CONFIG) && w.received <= LIMIT_REPLY
  {
    hide InputComplete, AllSent, LIMIT_REPLY, LIMIT_LINE, StopOf;
    RunIsComplete(w);
    CutReplyIsBadReply();
    LimitBytes();
  }

  const UNKNOWN_REPLY: (ScanResult, Option<Failure>) := (ZERO, Some(BadReply(Note.Reply(INSTREAM))))

  lemma RunIsProtocolError(w: World)
    requires TheRun(w)
    ensures Concluded(w, CONFIG, UNKNOWN_REPLY.0, UNKNOWN_REPLY.1)
    ensures forall res, failure :: Concluded(w, CONFIG, res, failure) ==> (res, failure) == UNKNOWN_REPLY
  {
    hide Content, InputComplete, AllSent, World.Plain, World.Told, ReadsWhileAlive, LIMIT_REPLY, LIMIT_LINE, StopOf;
    hide NotOurs, LineSpec, ResultFromLine, NoneOfOurs, INSTREAM, Framed;
    RunIsSound(w);
    RunIsComplete(w);
    PlainNoneOfOurs(w);
    CutReplyIsBadReply();
  }

  method Record() returns (w: World)
    ensures fresh(w) && TheRun(w)
  {
    hide SOURCE, SINK, PEER, Framed, INSTREAM;
    w := new World(SOURCE, SINK, PEER, _ => None, _ => 0, Context(None, Cancelled, None));
    w.sourceReads, w.readsAt := [RawRead(2, 2, TWO, Some(EOF))], [6];
    w.writes := [WriteEvent(10, 10, None, 5), WriteEvent(6, 6, None, 12), WriteEvent(4, 4, None, 17)];
    w.sent := EncodeCommand(INSTREAM) + Framed(TWO, CHUNK);
    w.received, w.recvs, w.step := INSTREAM, [RecvEvent(8, Some(EOF), 22)], 22;
    w.ios := [Io(Op.Write, 4, 1), Io(Op.Write, 11, 1), Io(Op.Write, 16, 1), Io(Op.Read, 21, 1)];
  }

  /** Two bytes were sent whole to a server that accepts one, which answers that the
      limit is exceeded; the client hears the first word of that and EOF; and any
      scan with this record reports a protocol error. */
  method OversizedAsProtocolError(handler: Handler) returns (w: World)
    ensures fresh(w) && CONFIG.Valid()
    ensures w.Plain() && w.Told() && ReadsWhileAlive(w) && Punctual(w, 0, CONFIG.ioTimeout)
    ensures WireSafe(w, CONFIG) && CommandReported(w) && w.sent == WholeSession(w, CONFIG)
    ensures |Payload(w, CONFIG)| > SERVER_LIMIT
    ensures FakeServer.Reply(w.sent, SERVER_LIMIT, None, handler) == LIMIT_REPLY
    ensures Answered(w, SERVER_LIMIT, None, handler) && CutShortByEof(w, CONFIG)
    ensures forall res, failure :: Concluded(w, CONFIG, res, failure) <==> (res, failure) == UNKNOWN_REPLY
    ensures !LimitOrConnection(w, UNKNOWN_REPLY.1.value)
  {
    hide Concluded, FakeServer.Reply, InputComplete, AllSent, WireSafe, Punctual, World.Plain, World.Told, ReadsWhileAlive;
    hide LIMIT_REPLY, LIMIT_LINE, CommandReported, WholeSession, Payload, CutShortByEof, Framed, SOURCE, SINK, PEER;
    w := Record();
    RunIsSound(w);
    RunIsComplete(w);
    RunIsOnTheWire(w);
    RunIsCutShort(w);
    RunIsProtocolError(w);
  }
}

/** The server's size-limit reply as the client may hear it: whole, or cut anywhere. */
module LimitReply {
  import opened Bytes
  import opened Text
  import opened Framing
  import opened Errors
  import opened Trace
  import opened Env
  import opened Conn
  import opened Reply
  import opened Classify
  import opened Client
  import FakeServer

  const LIMIT_REPLY := FakeServer.LIMIT_REPLY
  const LIMIT_LINE: bytes := FakeServer.LIMIT_MESSAGE + ERROR

  // ---- its bytes ----------------------------------------------------------------------

  lemma LimitBytes()
    ensures |LIMIT_LINE| == 35 && LIMIT_REPLY == LIMIT_LINE + [NUL] && LIMIT_LINE[0] == 0x49
    ensures forall i | 0 <= i < 35 :: LIMIT_LINE[i] != NUL && LIMIT_LINE[i] !in END_OF_LINE && LIMIT_LINE[i] != 0x46
    ensures forall i | 0 <= i < 33 :: LIMIT_LINE[i] != 0x4f
  {
    SizeLimitBytes();
    assert |ERROR| == 6 && ERROR[0] == 0x20 && ERROR[1] == 0x45 && ERROR[2] == 0x52;
    assert ERROR[3] == 0x52 && ERROR[4] == 0x4f && ERROR[5] == 0x52;
    assert LIMIT_LINE == INSTREAM + [SPACE] + SIZE_LIMIT + [0x2e] + ERROR;
  }

  /** When the whole size-limit reply arrives, both places that read a reply
      report the server's size limit. */
  lemma LimitReplyIsTooLong(stopped: Option<Error>)
    ensures var r := LineSpec(LIMIT_REPLY, stopped, MAX_LINE_RESPONSE);
            && r.err.None?
            && ResultFromLine(r.line, r.terminated) == (ZERO, Some(RejectedTooLong(FakeServer.LIMIT_MESSAGE)))
            && RecoveredReply(r) == Some(ResultFromLine(r.line, r.terminated))
  {
    hide LineSpec, ParseScanResponse, IsSizeLimitMessage;
    LimitMessage();
    LimitMessageRecognised();
    ErrorReplyRead(FakeServer.LIMIT_MESSAGE, stopped);
    ErrorReplyClassified(FakeServer.LIMIT_MESSAGE);
  }

  lemma LimitMessage()
    ensures PlainMessage(FakeServer.LIMIT_MESSAGE)
  {
    SizeLimitBytes();
    assert FakeServer.LIMIT_MESSAGE == INSTREAM + [SPACE] + SIZE_LIMIT + [0x2e];
  }

  lemma LimitMessageRecognised()
    ensures IsSizeLimitMessage(FakeServer.LIMIT_MESSAGE)
  {
    var m := FakeServer.LIMIT_MESSAGE;
    SizeLimitBytes();
    assert m == INSTREAM + [SPACE] + SIZE_LIMIT + [0x2e];
    assert m[9..28] == SIZE_LIMIT;
    assert forall i | 0 <= i < 19 :: m[9..28][i] == m[9 + i];
    assert MentionsAt(m, 9);
    SizeLimitMentioned(m);
  }

  // ---- read and judged ---------------------------------------------------------------------

  /** No part of the size-limit reply is a clean reply or a detection. */
  lemma LimitReplyIsNoVerdict(s: bytes, res: ScanResult)
    requires s <= LIMIT_REPLY
    ensures !CleanAnswer(s) && !DetectionIn(s, res)
  {
    LimitBytes();
    assert forall i | 0 <= i < |s| :: s[i] == LIMIT_REPLY[i] && s[i] != 0x46;
    var k := IndexIn(s, {NUL});
    if k < |s| && CleanReply(s[..k]) {
      CleanStart(s[..k]);
    }
    forall stopped
      ensures !(LineSpec(s, stopped, MAX_LINE_RESPONSE).err.None?
                && ParseScanResponse(LineSpec(s, stopped, MAX_LINE_RESPONSE).line).Infected?)
    {
      var r := LineSpec(s, stopped, MAX_LINE_RESPONSE);
      if r.err.None? {
        assert r.line <= s;
        NoDetectionWithoutF(r.line);
      }
    }
  }

  lemma CleanStart(body: bytes)
    requires CleanReply(body)
    ensures body != [] && (body[0] == 0x4f || body[0] == 0x73)
  {
    var i: nat, j: nat :| CleanCut(body, i, j);
    assert OK[0] == 0x4f && STREAM_OK[0] == 0x73;
    assert body[0] == body[..i][0];
  }

  lemma NoDetectionWithoutF(line: bytes)
    requires forall i | 0 <= i < |line| :: line[i] != 0x46
    ensures !ParseScanResponse(line).Infected?
  {
    var t := TrimRight(line, TRAILING);
    assert FOUND[1] == 0x46;
    SuffixByte(t, FOUND, 1);
  }

  /** A line cut from the size-limit reply before its last letter is none of the
      known forms. */
  lemma CutLineUnclear(s: bytes)
    requires s <= LIMIT_LINE && |s| < 35
    ensures ParseScanResponse(s).Unknown?
  {
    hide HasSuffix, TrimRight, LIMIT_LINE;
    LimitBytes();
    var t := TrimRight(s, TRAILING);
    assert forall i | 0 <= i < |t| :: t[i] == LIMIT_LINE[i];
    assert |FOUND| == 6 && FOUND[1] == 0x46 && |ERROR| == 6 && ERROR[4] == 0x4f;
    SuffixByte(t, FOUND, 1);
    SuffixByte(t, ERROR, 4);
    SuffixShorter(t, FOUND);
    SuffixShorter(t, ERROR);
    assert ERROR_WORD[0] == 0x45 && OK[0] == 0x4f && STREAM_OK[0] == 0x73;
  }

  lemma SuffixShorter(s: bytes, p: bytes)
    ensures HasSuffix(s, p) ==> |p| <= |s|
  {
  }

  /** How a part of the size-limit reply reads. */
  lemma CutReplyRead(s: bytes, stopped: Option<Error>)
    requires s <= LIMIT_REPLY && |s| < 36
    ensures LineSpec(s, stopped, MAX_LINE_RESPONSE)
         == if stopped == Some(EOF) && s != [] then LineResult(s, false, None) else LineResult([], false, stopped)
  {
    hide LIMIT_LINE, TrimRight;
    LimitBytes();
    assert forall i | 0 <= i < |s| :: s[i] == LIMIT_LINE[i];
    NoStop(s);
    TrimRightUnique(s, END_OF_LINE, |s|);
    assert s[..|s|] == s;
  }

  /** What each part of the size-limit reply decides, exactly: the whole line means
      the limit even without its NUL; anything shorter that ends in EOF is an
      unknown reply, and decides nothing in recovery; and otherwise the error that
      stopped the reading does. */
  lemma LimitReplyParts(s: bytes, stopped: Option<Error>)
    requires s <= LIMIT_REPLY && Decided(s, stopped, MAX_LINE_RESPONSE)
    ensures var r := LineSpec(s, stopped, MAX_LINE_RESPONSE);
            if |s| == 36 || (|s| == 35 && stopped == Some(EOF)) then
              && r.err.None?
              && ResultFromLine(r.line, r.terminated) == (ZERO, Some(RejectedTooLong(FakeServer.LIMIT_MESSAGE)))
              && RecoveredReply(r) == Some((ZERO, Some(RejectedTooLong(FakeServer.LIMIT_MESSAGE))))
            else if s != [] && stopped == Some(EOF) then
              && r.err.None? && ResultFromLine(r.line, r.terminated) == (ZERO, Some(BadReply(Note.Reply(s))))
              && RecoveredReply(r).None?
            else r.err == stopped && stopped.Some? && RecoveredReply(r).None?
  {
    hide LineSpec, LIMIT_LINE, ParseScanResponse, IsSizeLimitMessage;
    LimitBytes();
    if |s| == 36 {
      assert s == LIMIT_REPLY;
      LimitReplyIsTooLong(stopped);
    } else {
      CutReplyRead(s, stopped);
      assert s <= LIMIT_LINE;
      if |s| < 35 {
        CutLineUnclear(s);
        NotDecided(s);
      } else {
        assert s == LIMIT_LINE;
        LimitLineIsTooLong();
        NotDecided(s);
      }
    }
  }

  lemma NotDecided(s: bytes)
    requires s <= LIMIT_LINE
    ensures !Decided(s, None, MAX_LINE_RESPONSE)
  {
    LimitBytes();
    assert forall i | 0 <= i < |s| :: s[i] == LIMIT_LINE[i];
    NoStop(s);
  }

  lemma LimitLineIsTooLong()
    ensures ParseScanResponse(LIMIT_LINE) == Response.Failed(FakeServer.LIMIT_MESSAGE, true)
  {
    hide ParseScanResponse, IsSizeLimitMessage;
    LimitMessage();
    LimitMessageRecognised();
    ErrorReplyClassified(FakeServer.LIMIT_MESSAGE);
  }

  /** So an oversized payload can be reported as a protocol error, which is neither
      a limit nor a connection error: its stream was sent whole, and the reply was
      cut by EOF after its first word. */
  lemma CutReplyIsBadReply()
    ensures INSTREAM <= LIMIT_REPLY
    ensures var r := LineSpec(INSTREAM, Some(EOF), MAX_LINE_RESPONSE);
            r.err.None? && ResultFromLine(r.line, r.terminated) == (ZERO, Some(BadReply(Note.Reply(INSTREAM))))
  {
    assert LIMIT_REPLY == INSTREAM + ([SPACE] + SIZE_LIMIT + [0x2e] + ERROR + [0]);
    hide LineSpec, ParseScanResponse;
    LimitReplyParts(INSTREAM, Some(EOF));
  }

  // ---- how a scan that heard it fails ------------------------------------------------------

  /** A limit, the connection, the context, or a reader that failed itself. */
  ghost predicate LimitOrConnection(w: World, f: Failure)
    reads w`sourceReads
  {
    || f.TooLong? || f == RejectedTooLong(FakeServer.LIMIT_MESSAGE)
    || f.Transport? || f.Interrupted?
    || (f.Input? && Ended(w.sourceReads) && EndingOf(w.sourceReads).Failed?)
  }

  /** The stream was complete, and the peer ended the connection within the line of
      the reply. */
  ghost predicate CutShortByEof(w: World, cfg: Config)
    reads w`sourceReads, w`writes, w`received, w`recvs
  {
    && InputComplete(w, cfg.maxStreamSize) && AllSent(w)
    && 0 < |w.received| < |LIMIT_LINE| && StopOf(w.recvs) == Some(EOF)
  }

  /** A scan that heard nothing or some part of the size-limit reply fails, for one
      of the reasons above; except that it reports the reply as unknown exactly if
      that was cut short by EOF after a complete stream. */
  lemma LimitHeard(w: World, cfg: Config, res: ScanResult, failure: Option<Failure>)
    requires w.Plain() && w.Told() && ReadsWhileAlive(w)
    requires Concluded(w, cfg, res, failure) && w.received <= LIMIT_REPLY
    ensures res == ZERO && failure.Some?
    ensures if CutShortByEof(w, cfg) then failure == Some(BadReply(Note.Reply(w.received)))
            else LimitOrConnection(w, failure.value)
  {
    hide LineSpec, LIMIT_LINE, ReadFailure, RecoveredReply, ResultFromLine, World.Plain, World.Told, ReadsWhileAlive;
    hide FailedFrom, Content, AllSent, InputComplete, NoneOfOurs, EndingOf, Running;
    LimitBytes();
    PlainNoneOfOurs(w);
    if AwaitsReply(w, cfg) {
      LimitReplyParts(w.received, StopOf(w.recvs));
      if StopOf(w.recvs).Some? {
        StopOutside(w);
      }
    }
  }
}

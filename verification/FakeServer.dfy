/** The peer of the client: the fake clamd's command and chunk decoder, and what
    it replies to everything a client may have sent. */
module FakeServer {
  import opened Bytes
  import opened Text
  import opened Framing

  const MAX_FAKE_CHUNK: int := 0x400_0000     // 64 MiB
  const COMMAND_END: set<byte> := {NUL, LF}
  const MAX_COMMAND: nat := 129

  datatype Drop = InputEnded | ChunkTooBig | RepliedEarly | OverLimit

  datatype Served =
    | Complete(body: bytes, rest: bytes)
    | Dropped(why: Drop)

  /** A reply scripted for when the payload exceeds `after` bytes. */
  datatype EarlyReply = EarlyReply(after: int, data: bytes)

  datatype Request = Request(command: bytes, body: bytes)

  // ---- decoding ---------------------------------------------------------------

  /** What the decoder makes of the bytes `w`, having collected `body` so far. */
  function Decode(w: bytes, body: bytes, limit: int, early: Option<EarlyReply>): Served
    decreases |w|
  {
    if |w| < 4 then Dropped(InputEnded)
    else
      var n := U32Be(w);
      if n == 0 then Complete(body, w[4..])
      else if n > MAX_FAKE_CHUNK then Dropped(ChunkTooBig)
      else if |w| < 4 + n then Dropped(InputEnded)
      else
        var grown := body + w[4..4 + n];
        if early.Some? && |grown| > early.value.after then Dropped(RepliedEarly)
        else if limit > 0 && |grown| > limit then Dropped(OverLimit)
        else Decode(w[4 + n..], grown, limit, early)
  }

  method ReadChunks(input: bytes, limit: int, early: Option<EarlyReply>) returns (r: Served)
    ensures r == Decode(input, [], limit, early)
  {
    hide U32Be;
    var body: bytes, at := [], 0;
    assert input[0..] == input;
    while true
      invariant 0 <= at <= |input|
      invariant Decode(input, [], limit, early) == Decode(input[at..], body, limit, early)
      decreases |input| - at
    {
      if |input| - at < 4 {
        return Dropped(InputEnded);
      }
      var n := U32Be(input[at..]);
      if n == 0 {
        AfterHeader(input, at, 0);
        return Complete(body, input[at + 4..]);
      }
      if n > MAX_FAKE_CHUNK {
        return Dropped(ChunkTooBig);
      }
      if |input| - at - 4 < n {
        return Dropped(InputEnded);
      }
      AfterHeader(input, at, n);
      body := body + input[at + 4..at + 4 + n];
      if early.Some? && |body| > early.value.after {
        return Dropped(RepliedEarly);
      }
      if limit > 0 && |body| > limit {
        return Dropped(OverLimit);
      }
      at := at + 4 + n;
    }
  }

  lemma AfterHeader(input: bytes, at: nat, n: nat)
    requires at + 4 + n <= |input|
    ensures input[at..][4..4 + n] == input[at + 4..at + 4 + n]
    ensures input[at..][4 + n..] == input[at + 4 + n..]
  {
  }

  /** The command name in a command line: framing prefix and blanks removed. */
  function CommandName(line: bytes): bytes {
    var cmd := TrimSpace(line);
    if |cmd| > 1 && (cmd[0] == 0x7a || cmd[0] == 0x6e) then cmd[1..] else cmd
  }

  /** The command at the start of the input and what follows it. */
  function Command(input: bytes): Option<(bytes, bytes)> {
    var k := IndexIn(input, COMMAND_END);
    if k < |input| && k <= MAX_COMMAND then Some((CommandName(input[..k]), input[k + 1..])) else None
  }

  method ReadCommand(input: bytes) returns (r: Option<(bytes, bytes)>)
    ensures r == Command(input)
  {
    var buf: bytes, at := [], 0;
    while at < |input|
      invariant 0 <= at <= |input| && at <= MAX_COMMAND
      invariant buf == input[..at]
      invariant forall i | 0 <= i < at :: input[i] !in COMMAND_END
    {
      var b := input[at];
      if b == NUL || b == LF {
        IndexIsFirst(input, COMMAND_END, at);
        return Some((CommandName(buf), input[at + 1..]));
      }
      if |buf| > 128 {
        return None;
      }
      buf := buf + [b];
      at := at + 1;
    }
    return None;
  }

  // ---- the decoder undoes the framing -------------------------------------------

  /** Every prefix of a framed stream within the limit, decoded: the payload when
      the prefix is the whole stream, and otherwise a drop for want of input. */
  lemma {:induction false} DecodePrefix(p: bytes, c: chunksize, w: bytes, body: bytes, limit: int)
    requires w <= Framed(p, c)
    requires limit > 0 ==> |body| + |p| <= limit
    ensures Decode(w, body, limit, None)
         == if w == Framed(p, c) then Complete(body + p, []) else Dropped(InputEnded)
    decreases |p|
  {
    if p == [] {
      assert Framed(p, c) == TERMINATOR;
      if w == TERMINATOR {
        assert U32Be(w) == 0 && w[4..] == [] && body + p == body;
      }
    } else {
      var n := Min(|p|, c);
      var rest := Framed(p[n..], c);
      FramedSplits(p, c);
      if |w| >= 4 {
        FirstLength(p[..n], rest, w);
        if |w| >= 4 + n {
          FirstPayload(p[..n], rest, w);
          DecodePrefix(p[n..], c, w[4 + n..], body + p[..n], limit);
          assert body + p[..n] + p[n..] == body + p;
          assert w == Frame(p[..n]) + w[4 + n..];
        }
      }
    }
  }

  lemma FramedSplits(p: bytes, c: chunksize)
    requires p != []
    ensures Framed(p, c) == Frame(p[..Min(|p|, c)]) + Framed(p[Min(|p|, c)..], c)
  {
    if |p| <= c {
      assert p[..|p|] == p && p[|p|..] == [];
    }
  }

  lemma FirstLength(chunk: bytes, rest: bytes, w: bytes)
    requires |chunk| < TWO_32 && w <= Frame(chunk) + rest && |w| >= 4
    ensures U32Be(w) == |chunk|
  {
    assert w[..4] == Be32(|chunk|);
    assert w == Be32(|chunk|) + w[4..];
    Be32RoundTrip(|chunk|, w[4..]);
  }

  lemma FirstPayload(chunk: bytes, rest: bytes, w: bytes)
    requires |chunk| < TWO_32 && w <= Frame(chunk) + rest && |w| >= 4 + |chunk|
    ensures w[4..4 + |chunk|] == chunk && w[4 + |chunk|..] <= rest
    ensures w[..4 + |chunk|] == Frame(chunk)
  {
    var all := Frame(chunk) + rest;
    assert w == all[..|w|];
    assert all[4..4 + |chunk|] == chunk && all[4 + |chunk|..] == rest;
  }

  /** A completed decode does not depend on what follows, so no stream that
      completes is a strict prefix of another. */
  lemma {:induction false} DecodeIgnoresRest(w: bytes, body: bytes, limit: int, early: Option<EarlyReply>, more: bytes)
    requires Decode(w, body, limit, early).Complete?
    ensures Decode(w + more, body, limit, early)
         == Complete(Decode(w, body, limit, early).body, Decode(w, body, limit, early).rest + more)
    decreases |w|
  {
    var n := U32Be(w);
    assert U32Be(w + more) == n;
    assert (w + more)[4..] == w[4..] + more;
    if n != 0 {
      assert (w + more)[4..4 + n] == w[4..4 + n];
      assert (w + more)[4 + n..] == w[4 + n..] + more;
      DecodeIgnoresRest(w[4 + n..], body + w[4..4 + n], limit, early, more);
    }
  }

  /** Cutting a completing input before the end of its terminator leaves an
      input that does not complete. */
  lemma PrefixFree(w: bytes, limit: int, early: Option<EarlyReply>, cut: nat)
    requires Decode(w, [], limit, early).Complete?
    requires cut < |w| - |Decode(w, [], limit, early).rest|
    ensures Decode(w[..cut], [], limit, early).Dropped?
  {
    assert w[..cut] + w[cut..] == w;
    if Decode(w[..cut], [], limit, early).Complete? {
      DecodeIgnoresRest(w[..cut], [], limit, early, w[cut..]);
    }
  }

  /** What completes under a limit completes without one, within the limit. */
  lemma {:induction false} CompleteWithinLimit(w: bytes, body: bytes, limit: int, early: Option<EarlyReply>)
    requires Decode(w, body, limit, early).Complete?
    requires limit > 0 ==> |body| <= limit
    ensures Decode(w, body, 0, None) == Decode(w, body, limit, early)
    ensures limit > 0 ==> |Decode(w, body, limit, early).body| <= limit
    decreases |w|
  {
    hide U32Be;
    var n := U32Be(w);
    if n != 0 {
      CompleteWithinLimit(w[4 + n..], body + w[4..4 + n], limit, early);
    }
  }

  /** A stream framed in legal chunks is never dropped for a chunk's size. */
  lemma {:induction false} ChunksFit(p: bytes, c: chunksize, w: bytes, body: bytes, limit: int)
    requires w <= Framed(p, c)
    ensures Decode(w, body, limit, None).Dropped?
        ==> Decode(w, body, limit, None).why != ChunkTooBig && Decode(w, body, limit, None).why != RepliedEarly
    decreases |p|
  {
    if p == [] {
      assert Framed(p, c) == TERMINATOR;
    } else {
      var n := Min(|p|, c);
      FramedSplits(p, c);
      if |w| >= 4 {
        FirstLength(p[..n], Framed(p[n..], c), w);
        if |w| >= 4 + n {
          FirstPayload(p[..n], Framed(p[n..], c), w);
          ChunksFit(p[n..], c, w[4 + n..], body + p[..n], limit);
        }
      }
    }
  }

  /** A payload over the server's limit is never accepted, however much of its
      stream arrives. */
  lemma OversizedDropped(p: bytes, c: chunksize, w: bytes, limit: int)
    requires w <= Framed(p, c) && 0 < limit < |p|
    ensures Decode(w, [], limit, None).Dropped?
    ensures Decode(w, [], limit, None).why == InputEnded || Decode(w, [], limit, None).why == OverLimit
  {
    hide Decode;
    assert [] + p == p;
    ChunksFit(p, c, w, [], limit);
    DecodePrefix(p, c, w, [], 0);
    if Decode(w, [], limit, None).Complete? {
      CompleteWithinLimit(w, [], limit, None);
    }
  }

  /** And if all of it arrives, it is dropped for its size. */
  lemma {:induction false} OversizedWhole(p: bytes, c: chunksize, body: bytes, limit: int)
    requires 0 < limit && |body| <= limit < |body| + |p|
    ensures Decode(Framed(p, c), body, limit, None) == Dropped(OverLimit)
    decreases |p|
  {
    hide Frames, Framed, U32Be;
    var n := Min(|p|, c);
    var w, rest := Framed(p, c), Framed(p[n..], c);
    FramedSplits(p, c);
    FirstLength(p[..n], rest, w);
    FirstPayload(p[..n], rest, w);
    assert w[4 + n..] == rest by {
      assert w == Frame(p[..n]) + rest;
    }
    if |body| + n <= limit {
      OversizedWhole(p[n..], c, body + p[..n], limit);
    }
  }

  // ---- early replies ------------------------------------------------------------------

  /** The early reply is due for a payload `p` after `collected` bytes. */
  predicate Due(early: Option<EarlyReply>, collected: nat, p: bytes) {
    early.Some? && p != [] && collected + |p| > early.value.after
  }

  /** An early reply that is not due changes nothing; one that is due replaces some
      outcomes of the decoder and leaves no stream complete, and if all of a
      stream arrives it is given, unless the limit is exceeded before. */
  lemma {:induction false} DecodeEarly(p: bytes, c: chunksize, w: bytes, body: bytes, limit: int, early: Option<EarlyReply>)
    requires w <= Framed(p, c)
    ensures Decode(w, body, limit, early) == Decode(w, body, limit, None)
            || (Due(early, |body|, p) && Decode(w, body, limit, early) == Dropped(RepliedEarly))
    ensures Due(early, |body|, p) ==> Decode(w, body, limit, early).Dropped?
    ensures Due(early, |body|, p) && w == Framed(p, c) && (limit > 0 ==> |body| + |p| <= limit) ==>
              Decode(w, body, limit, early) == Dropped(RepliedEarly)
    ensures Due(early, |body|, p) && w == Framed(p, c) && (limit > 0 ==> |body| <= limit && early.value.after <= limit) ==>
              Decode(w, body, limit, early) == Dropped(RepliedEarly)
    decreases |p|
  {
    hide Frames, Framed, U32Be;
    if p == [] {
      assert Framed(p, c) == TERMINATOR by { NoFrames(c); }
      AfterTerminator(w);
    } else {
      var n := Min(|p|, c);
      FramedSplits(p, c);
      if |w| >= 4 {
        FirstLength(p[..n], Framed(p[n..], c), w);
        if |w| >= 4 + n {
          FirstPayload(p[..n], Framed(p[n..], c), w);
          DecodeEarly(p[n..], c, w[4 + n..], body + p[..n], limit, early);
          assert w == Frame(p[..n]) + w[4 + n..];
        }
      }
    }
  }

  lemma NoFrames(c: chunksize)
    ensures Framed([], c) == TERMINATOR
  {
  }

  lemma AfterTerminator(w: bytes)
    requires w <= TERMINATOR
    ensures |w| >= 4 ==> U32Be(w) == 0
  {
  }

  // ---- the chunk cap --------------------------------------------------------------

  /** A chunk header of more than 64 MiB ends the connection, and one of that size or
      less does not. */
  lemma ChunkCap(w: bytes, body: bytes, limit: int, early: Option<EarlyReply>, chunk: bytes)
    ensures |w| >= 4 && U32Be(w) > 64 * 1024 * 1024 ==> Decode(w, body, limit, early) == Dropped(ChunkTooBig)
    ensures 0 < |chunk| <= 64 * 1024 * 1024 ==> Decode(Frame(chunk) + TERMINATOR, [], 0, None) == Complete(chunk, [])
  {
    hide U32Be, Be32;
    if 0 < |chunk| <= 64 * 1024 * 1024 {
      var all := Frame(chunk) + TERMINATOR;
      FirstLength(chunk, TERMINATOR, all);
      FirstPayload(chunk, TERMINATOR, all);
      assert all[4 + |chunk|..] == TERMINATOR && [] + chunk == chunk;
      AfterTerminator(TERMINATOR);
    }
  }

  // ---- commands -----------------------------------------------------------------

  ghost predicate PlainName(name: bytes) {
    && 0 < |name| < MAX_COMMAND
    && (forall i | 0 <= i < |name| :: name[i] !in COMMAND_END)
    && name[|name| - 1] !in WHITESPACE
  }

  lemma EncodedLine(name: bytes, rest: bytes)
    ensures |name| + 1 < |EncodeCommand(name) + rest|
    ensures var w := EncodeCommand(name) + rest;
            var k := IndexIn(w, COMMAND_END);
            && 1 <= k <= |name| + 1 && k < |w|
            && w[..k] == [0x7a] + name[..k - 1]
            && (k <= |name| ==> name[k - 1] in COMMAND_END)
            && ((forall i | 0 <= i < |name| :: name[i] !in COMMAND_END)
                ==> k == |name| + 1 && w[k + 1..] == rest)
  {
    var w := EncodeCommand(name) + rest;
    var k := IndexIn(w, COMMAND_END);
    assert w[0] == 0x7a && w[|name| + 1] == 0;
    assert forall i | 0 <= i < |name| :: w[i + 1] == name[i];
    assert k <= |name| + 1;
    assert w[..k] == [0x7a] + name[..k - 1];
    if forall i | 0 <= i < |name| :: name[i] !in COMMAND_END {
      IndexIsFirst(w, COMMAND_END, |name| + 1);
      assert w[|name| + 2..] == rest;
    }
  }

  lemma TrimmedFrom(line: bytes)
    requires line != [] && line[0] !in WHITESPACE
    ensures TrimSpace(line) == TrimRight(line, WHITESPACE)
    ensures [line[0]] <= TrimSpace(line) <= line
    ensures line[|line| - 1] !in WHITESPACE ==> TrimSpace(line) == line
    ensures line[|line| - 1] in WHITESPACE ==> |TrimSpace(line)| < |line|
  {
    hide TrimLeft;
    var t := TrimRight(line, WHITESPACE);
    assert t != [];
    assert t[0] == line[0];
    NothingToTrim(t);
  }

  lemma TrimmedLine(name: bytes)
    ensures [0x7a] <= TrimSpace([0x7a] + name) <= [0x7a] + name
    ensures name != [] && name[|name| - 1] !in WHITESPACE ==> TrimSpace([0x7a] + name) == [0x7a] + name
    ensures name != [] && name[|name| - 1] in WHITESPACE ==> |TrimSpace([0x7a] + name)| <= |name|
  {
    hide TrimSpace;
    var line := [0x7a] + name;
    assert line[0] == 0x7a && (name != [] ==> line[|line| - 1] == name[|name| - 1]);
    TrimmedFrom(line);
  }

  /** The server recovers a command from its z-form encoding exactly when the name
      is non-empty, fits, holds no NUL or newline and does not end in a blank. */
  lemma CommandRoundTrip(name: bytes, rest: bytes)
    ensures Command(EncodeCommand(name) + rest) == Some((name, rest)) <==> PlainName(name)
  {
    hide TrimSpace, EncodeCommand;
    var k := IndexIn(EncodeCommand(name) + rest, COMMAND_END);
    EncodedLine(name, rest);
    var line := name[..k - 1];
    TrimmedLine(line);
    var cmd := TrimSpace([0x7a] + line);
    if k == |name| + 1 {
      assert line == name;
    }
    assert PlainName(name) ==> cmd[1..] == name;
    assert !PlainName(name) && k <= MAX_COMMAND ==> |cmd| <= |name| || name == [];
    assert !PlainName(name) && k <= MAX_COMMAND && |name| == 1 ==> name[0] in COMMAND_END + WHITESPACE;
  }

  /** A command line ends at a NUL or newline; white space around the command and one
      leading z or n are not part of it, unless that is all there is; and 130 bytes
      without an end are too many. */
  lemma CommandForms(l: bytes, cmd: bytes, r: bytes, end: byte, rest: bytes)
    requires Blank(l) && Blank(r)
    requires cmd != [] ==> cmd[0] !in WHITESPACE && cmd[|cmd| - 1] !in WHITESPACE
    requires forall i | 0 <= i < |l + cmd + r| :: (l + cmd + r)[i] !in COMMAND_END
    ensures end in {0, 10} && |l + cmd + r| <= 129 ==>
              Command(l + cmd + r + [end] + rest)
              == Some((if |cmd| > 1 && cmd[0] in {0x7a, 0x6e} then cmd[1..] else cmd, rest))
    ensures |l + cmd + r| >= 130 ==> Command(l + cmd + r + rest) == None
  {
    hide TrimSpace;
    var line := l + cmd + r;
    if end in {0, 10} && |line| <= 129 {
      var input := line + [end] + rest;
      assert forall i | 0 <= i < |line| :: input[i] == line[i];
      IndexIsFirst(input, COMMAND_END, |line|);
      assert input[..|line|] == line && input[|line| + 1..] == rest;
      TrimSpaceBetween(l, cmd, r);
    }
    if |line| >= 130 {
      var input := line + rest;
      assert forall i | 0 <= i < |line| :: input[i] == line[i];
      assert IndexIn(input, COMMAND_END) >= |line|;
    }
  }

  // ---- one connection -------------------------------------------------------------

  const LIMIT_MESSAGE: bytes := INSTREAM + [SPACE] + SIZE_LIMIT + [0x2e]
  const LIMIT_REPLY: bytes := LIMIT_MESSAGE + ERROR + [0]

  /** Everything the server writes to a client that sends `input` and no more. */
  function Reply(input: bytes, limit: int, early: Option<EarlyReply>, handler: Request -> bytes): bytes {
    var command := Command(input);
    if command.None? then []
    else if command.value.0 != INSTREAM then handler(Request(command.value.0, []))
    else
      match Decode(command.value.1, [], limit, early)
      case Complete(body, _) => handler(Request(INSTREAM, body))
      case Dropped(RepliedEarly) => if early.Some? then early.value.data else []
      case Dropped(OverLimit) => LIMIT_REPLY
      case Dropped(_) => []
  }

  method HandleConn(input: bytes, limit: int, early: Option<EarlyReply>, handler: Request -> bytes) returns (written: bytes)
    ensures written == Reply(input, limit, early, handler)
  {
    hide Command, Decode;
    written := [];
    var command := ReadCommand(input);
    if command.None? {
      return;
    }
    var request := Request(command.value.0, []);
    if request.command == INSTREAM {
      var served := ReadChunks(command.value.1, limit, early);
      match served {
        case Complete(body, _) => request := request.(body := body);
        case Dropped(why) =>
          if why == RepliedEarly && early.Some? {
            written := early.value.data;
          } else if why == OverLimit {
            written := LIMIT_REPLY;
          }
          return;
      }
    }
    written := handler(request);
  }

  /** Every other command goes to the handler at once, without a body. */
  lemma OtherCommands(name: bytes, rest: bytes, limit: int, early: Option<EarlyReply>, handler: Request -> bytes)
    requires PlainName(name) && name != INSTREAM
    ensures Reply(EncodeCommand(name) + rest, limit, early, handler) == handler(Request(name, []))
  {
    hide Command, EncodeCommand;
    CommandRoundTrip(name, rest);
  }

  lemma SplitSession(sent: bytes, stream: bytes)
    requires sent <= EncodeCommand(INSTREAM) + stream
    ensures |sent| < 10 ==> Command(sent) == None
    ensures |sent| >= 10 ==> sent[10..] <= stream && Command(sent) == Some((INSTREAM, sent[10..]))
    ensures |sent| >= 10 ==> (sent[10..] == stream <==> sent == EncodeCommand(INSTREAM) + stream)
  {
    var all := EncodeCommand(INSTREAM) + stream;
    assert sent == all[..|sent|] && all[10..] == stream;
    assert PlainName(INSTREAM);
    if |sent| >= 10 {
      assert sent[..10] == EncodeCommand(INSTREAM);
      assert sent == EncodeCommand(INSTREAM) + sent[10..];
      CommandRoundTrip(INSTREAM, sent[10..]);
    } else {
      assert forall i | 0 <= i < |sent| :: sent[i] == EncodeCommand(INSTREAM)[i];
      assert forall i | 0 <= i < |sent| :: sent[i] !in COMMAND_END;
    }
  }

  /** Client and server together, within the server's limit: whatever part of the
      session was sent, the handler runs on the exact payload if and only if all
      of it was, and otherwise the server says nothing. */
  lemma SessionWithinLimit(p: bytes, c: chunksize, sent: bytes, limit: int, handler: Request -> bytes)
    requires sent <= EncodeCommand(INSTREAM) + Framed(p, c)
    requires limit > 0 ==> |p| <= limit
    ensures Reply(sent, limit, None, handler)
         == if sent == EncodeCommand(INSTREAM) + Framed(p, c) then handler(Request(INSTREAM, p)) else []
  {
    hide Command, Decode;
    SplitSession(sent, Framed(p, c));
    if |sent| >= 10 {
      DecodePrefix(p, c, sent[10..], [], limit);
      assert [] + p == p;
    }
  }

  /** Beyond the server's limit the handler never runs, and if all of the session was
      sent the server says why. */
  lemma SessionOverLimit(p: bytes, c: chunksize, sent: bytes, limit: int, handler: Request -> bytes)
    requires sent <= EncodeCommand(INSTREAM) + Framed(p, c)
    requires 0 < limit < |p|
    ensures Reply(sent, limit, None, handler) == [] || Reply(sent, limit, None, handler) == LIMIT_REPLY
    ensures sent == EncodeCommand(INSTREAM) + Framed(p, c) ==> Reply(sent, limit, None, handler) == LIMIT_REPLY
  {
    hide Command, Decode;
    SplitSession(sent, Framed(p, c));
    if |sent| >= 10 {
      OversizedDropped(p, c, sent[10..], limit);
      OversizedWhole(p, c, [], limit);
    } else {
      SessionNotEmpty(p, c);
    }
  }

  /** With an early reply scripted: if it is not due for the payload, the server
      answers as without it; and if it is due, it answers with nothing, the
      size-limit reply or the early reply, the latter if all of a session within
      the limit was sent. */
  lemma SessionEarly(p: bytes, c: chunksize, sent: bytes, limit: int, early: Option<EarlyReply>, handler: Request -> bytes)
    requires sent <= EncodeCommand(INSTREAM) + Framed(p, c)
    ensures !Due(early, 0, p) ==> Reply(sent, limit, early, handler) == Reply(sent, limit, None, handler)
    ensures Due(early, 0, p) ==> Reply(sent, limit, early, handler) in {[], LIMIT_REPLY, early.value.data}
    ensures Due(early, 0, p) ==>
              Reply(sent, limit, early, handler) in {Reply(sent, limit, None, handler), early.value.data}
    ensures Due(early, 0, p) && sent == EncodeCommand(INSTREAM) + Framed(p, c) && (limit > 0 ==> |p| <= limit) ==>
              Reply(sent, limit, early, handler) == early.value.data
  {
    hide Command, Decode, Framed;
    SplitSession(sent, Framed(p, c));
    if |sent| >= 10 {
      DecodeEarly(p, c, sent[10..], [], limit, early);
      ChunksFit(p, c, sent[10..], [], limit);
    } else {
      SessionNotEmpty(p, c);
    }
  }

  lemma SessionNotEmpty(p: bytes, c: chunksize)
    ensures |EncodeCommand(INSTREAM) + Framed(p, c)| >= 14
  {
  }
}

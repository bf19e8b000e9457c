/** Reading one reply line through a buffered reader. */
module Reply {
  import opened Bytes
  import opened Text
  import opened Errors
  import opened Env
  import opened Conn

  const MAX_LINE_RESPONSE: nat := 4096
  const BUFFER_SIZE: nat := 4096
  const BUFFERED_EMPTY_READS: nat := 100

  // ---- the buffered reader -------------------------------------------------------

  class BufReader {
    const conn: DeadlineConn
    var buffered: bytes
    var pending: Option<Error>
    var taken: bytes              // bytes handed out
    var stopped: Option<Error>    // the error handed out

    constructor (conn: DeadlineConn)
      ensures this.conn == conn && buffered == [] && pending.None? && taken == [] && stopped.None?
    {
      this.conn, buffered, pending, taken, stopped := conn, [], None, [], None;
    }

    /** Nothing the connection delivered is lost, repeated or reordered, and errors
        are what ended the reading of it. */
    ghost predicate Valid()
      reads this, conn, conn.env`received, conn.env`recvs
    {
      && conn.env.received == taken + buffered
      && (pending.Some? ==> pending == StopOf(conn.env.recvs))
      && (stopped.Some? ==> stopped == StopOf(conn.env.recvs))
    }

    predicate Untouched()
      reads this
    {
      buffered == [] && pending.None? && taken == [] && stopped.None?
    }

    /** The last event was a Read of the connection. */
    predicate Current()
      reads this, conn, conn.env`recvs, conn.env`step
    {
      conn.env.recvs != [] && conn.env.recvs[|conn.env.recvs| - 1].at == conn.env.step
    }

    method FillBuffer()
      requires Valid() && buffered == [] && pending.None? && stopped.None?
      modifies this`buffered, this`pending, conn.env`step, conn.env`deadline, conn.env`received, conn.env`recvs, conn.env`ios
      ensures Valid() && Current() && (buffered != [] || pending.Some?)
      ensures old(conn.env.Told()) ==> conn.env.Told()
      ensures old(conn.env.received) <= conn.env.received && conn.env.step > old(conn.env.step)
      ensures forall from: nat, t :: t >= conn.ioTimeout && old(Punctual(conn.env, from, t)) ==> Punctual(conn.env, from, t)
      ensures old(conn.env.ios) <= conn.env.ios
      ensures forall from: nat :: old(Only(conn.env, from, Op.Read)) ==> Only(conn.env, from, Op.Read)
      ensures Lively(conn.env) ==> |conn.env.ios| <= old(|conn.env.ios|) + 1
    {
      hide Punctual, Only, Lively, World.Told;
      var i := 0;
      while i < BUFFERED_EMPTY_READS
        invariant i <= BUFFERED_EMPTY_READS && Valid() && buffered == [] && pending.None? && stopped == old(stopped)
        invariant i > 0 ==> Current() && conn.env.recvs[|conn.env.recvs| - 1].size == 0 && conn.env.recvs[|conn.env.recvs| - 1].err.None?
        invariant old(conn.env.Told()) ==> conn.env.Told()
        invariant conn.env.received == old(conn.env.received)
        invariant conn.env.step >= old(conn.env.step) + i
        invariant forall from: nat, t :: t >= conn.ioTimeout && old(Punctual(conn.env, from, t)) ==> Punctual(conn.env, from, t)
        invariant old(conn.env.ios) <= conn.env.ios
        invariant forall from: nat :: old(Only(conn.env, from, Op.Read)) ==> Only(conn.env, from, Op.Read)
        invariant Lively(conn.env) ==> i == 0 && |conn.env.ios| == old(|conn.env.ios|)
      {
        buffered, pending := conn.Read(BUFFER_SIZE);
        if pending.Some? || buffered != [] {
          return;
        }
        i := i + 1;
      }
      pending := Some(Is(NoProgress));
    }

    method ReadByte() returns (b: byte, err: Option<Error>)
      requires Valid() && (Untouched() || Current()) && stopped.None?
      modifies this, conn.env`step, conn.env`deadline, conn.env`received, conn.env`recvs, conn.env`ios
      ensures Valid() && Current() && old(conn.env.received) <= conn.env.received && conn.env.step >= old(conn.env.step)
      ensures old(conn.env.Told()) ==> conn.env.Told()
      ensures err.None? ==> taken == old(taken) + [b] && stopped == old(stopped)
      ensures err.Some? ==> taken == old(taken) && buffered == [] && stopped == err
      ensures forall from: nat, t :: t >= conn.ioTimeout && old(Punctual(conn.env, from, t)) ==> Punctual(conn.env, from, t)
      ensures old(conn.env.ios) <= conn.env.ios
      ensures forall from: nat :: old(Only(conn.env, from, Op.Read)) ==> Only(conn.env, from, Op.Read)
      ensures Lively(conn.env) ==> |conn.env.ios| <= old(|conn.env.ios|) + 1
    {
      hide Punctual, Only, Lively, World.Told;
      b := 0;
      while buffered == []
        invariant Valid() && taken == old(taken) && stopped == old(stopped) && (Untouched() || Current())
        invariant old(conn.env.Told()) ==> conn.env.Told()
        invariant old(conn.env.received) <= conn.env.received && conn.env.step >= old(conn.env.step)
        invariant forall from: nat, t :: t >= conn.ioTimeout && old(Punctual(conn.env, from, t)) ==> Punctual(conn.env, from, t)
        invariant old(conn.env.ios) <= conn.env.ios
        invariant forall from: nat :: old(Only(conn.env, from, Op.Read)) ==> Only(conn.env, from, Op.Read)
        invariant Lively(conn.env) ==>
                    |conn.env.ios| <= old(|conn.env.ios|) + (if pending.Some? || buffered != [] then 1 else 0)
        decreases buffered == [], pending.None?
      {
        if pending.Some? {
          err, stopped, pending := pending, pending, None;
          return;
        }
        FillBuffer();
      }
      b, err := buffered[0], None;
      taken := taken + [b];
      buffered := buffered[1..];
    }
  }

  // ---- one line --------------------------------------------------------------------

  datatype LineResult = LineResult(line: bytes, terminated: bool, err: Option<Error>)

  function FinishLine(body: bytes, terminated: bool): (r: LineResult)
    ensures r.terminated <==> terminated && r.err.None?
    ensures r.err.None? <==> forall b | b in TrimRight(body, END_OF_LINE) :: b !in END_OF_LINE
    ensures r.err.Some? ==> r.err.value == Is(MalformedReply)
    ensures r.line == if r.err.None? then TrimRight(body, END_OF_LINE) else []
  {
    var line := TrimRight(body, END_OF_LINE);
    if IndexIn(line, END_OF_LINE) < |line| then LineResult([], false, Some(Is(MalformedReply)))
    else LineResult(line, terminated, None)
  }

  /** The result of reading a line of at most `max` bytes from a peer that sent
      `s`, whichever way it was split, and then failed with `stopped` if needed. */
  function LineSpec(s: bytes, stopped: Option<Error>, max: nat): LineResult {
    var k := IndexIn(s, {NUL});
    if k < |s| && k <= max then FinishLine(s[..k], true)
    else if |s| > max then LineResult([], false, Some(Is(ResponseTooLarge)))
    else if stopped == Some(EOF) && s != [] then FinishLine(s, false)
    else LineResult([], false, stopped)
  }

  /** Enough was received, or the reading was stopped. */
  predicate Decided(s: bytes, stopped: Option<Error>, max: nat) {
    stopped.Some? || |s| > max || IndexIn(s, {NUL}) < |s|
  }

  method ReadLine(br: BufReader, max: nat) returns (line: bytes, terminated: bool, err: Option<Error>)
    requires br.Valid() && br.Untouched()
    modifies br, br.conn.env`step, br.conn.env`deadline, br.conn.env`received, br.conn.env`recvs, br.conn.env`ios
    ensures br.Valid() && br.conn.env.step >= old(br.conn.env.step)
    ensures LineResult(line, terminated, err) == LineSpec(br.conn.env.received, StopOf(br.conn.env.recvs), max)
    ensures br.Current() && |br.taken| <= max + 1
    ensures Decided(br.conn.env.received, StopOf(br.conn.env.recvs), max)
    ensures old(br.conn.env.Told()) ==> br.conn.env.Told()
    ensures forall from: nat, t :: t >= br.conn.ioTimeout && old(Punctual(br.conn.env, from, t)) ==> Punctual(br.conn.env, from, t)
    ensures old(br.conn.env.ios) <= br.conn.env.ios
    ensures forall from: nat :: old(Only(br.conn.env, from, Op.Read)) ==> Only(br.conn.env, from, Op.Read)
    ensures Lively(br.conn.env) ==> |br.conn.env.ios| <= old(|br.conn.env.ios|) + max + 1
  {
    hide Punctual, Only, Lively, FinishLine, BufReader.Valid, World.Told;
    var buf: bytes := [];
    while true
      invariant br.Valid() && (br.Untouched() || br.Current()) && buf == br.taken && br.stopped.None? && |buf| <= max
      invariant old(br.conn.env.Told()) ==> br.conn.env.Told()
      invariant NUL !in buf
      invariant br.conn.env.step >= old(br.conn.env.step)
      invariant forall from: nat, t :: t >= br.conn.ioTimeout && old(Punctual(br.conn.env, from, t)) ==> Punctual(br.conn.env, from, t)
      invariant old(br.conn.env.ios) <= br.conn.env.ios
      invariant forall from: nat :: old(Only(br.conn.env, from, Op.Read)) ==> Only(br.conn.env, from, Op.Read)
      invariant Lively(br.conn.env) ==> |br.conn.env.ios| <= old(|br.conn.env.ios|) + |buf|
      decreases max - |buf|
    {
      var b, rerr := br.ReadByte();
      Delivered(br);
      if rerr.Some? {
        NoStop(buf);
        if rerr == Some(EOF) && |buf| > 0 {
          var r := FinishLine(buf, false);
          return r.line, false, r.err;
        }
        return [], false, rerr;
      }
      if b == NUL {
        FirstNul(br.conn.env.received, buf);
        var r := FinishLine(buf, true);
        return r.line, r.err.None?, r.err;
      }
      if |buf| >= max {
        NotEarlier(br.conn.env.received, buf + [b]);
        return [], false, Some(Is(ResponseTooLarge));
      }
      buf := buf + [b];
    }
  }

  /** The four ways a reply ends: its NUL, the limit, EOF after some bytes, and any
      other error, with the body handed on whole. */
  lemma LineCases(s: bytes, body: bytes, stopped: Option<Error>, max: nat)
    ensures body + [NUL] <= s && |body| <= max && NUL !in body ==> LineSpec(s, stopped, max) == FinishLine(body, true)
    ensures |s| > max && (forall i | 0 <= i <= max :: s[i] != NUL) ==>
              LineSpec(s, stopped, max) == LineResult([], false, Some(Is(ResponseTooLarge)))
    ensures |s| <= max && NUL !in s && s != [] && stopped == Some(EOF) ==> LineSpec(s, stopped, max) == FinishLine(s, false)
    ensures |s| <= max && NUL !in s && (s == [] || stopped != Some(EOF)) ==>
              LineSpec(s, stopped, max) == LineResult([], false, stopped)
  {
    hide FinishLine;
    if body + [NUL] <= s && NUL !in body {
      FirstNul(s, body);
    }
    if NUL !in s {
      NoStop(s);
    }
  }

  /** A CR or LF with something other than these after it. */
  ghost predicate SeveralLines(body: bytes) {
    exists i, j | 0 <= i < j < |body| :: body[i] in {13, 10} && body[j] !in {13, 10}
  }

  lemma SeveralLinesMalformed(body: bytes, terminated: bool)
    ensures FinishLine(body, terminated).err == (if SeveralLines(body) then Some(Is(MalformedReply)) else None)
  {
    var t := TrimRight(body, END_OF_LINE);
    if SeveralLines(body) {
      var i, j :| 0 <= i < j < |body| && body[i] in {13, 10} && body[j] !in {13, 10};
      assert j < |t| && t[i] == body[i];
    } else {
      forall i | 0 <= i < |t|
        ensures t[i] !in END_OF_LINE
      {
        assert t[i] == body[i] && t[|t| - 1] == body[|t| - 1];
      }
    }
  }

  lemma Delivered(br: BufReader)
    requires br.Valid()
    ensures br.taken <= br.conn.env.received
    ensures br.buffered == [] ==> br.taken == br.conn.env.received
    ensures br.stopped.Some? ==> br.stopped == StopOf(br.conn.env.recvs)
  {
  }

  lemma NoStop(s: bytes)
    requires NUL !in s
    ensures IndexIn(s, {NUL}) == |s|
  {
  }

  lemma FirstNul(s: bytes, body: bytes)
    requires body + [NUL] <= s && NUL !in body
    ensures IndexIn(s, {NUL}) == |body| < |s| && s[..|body|] == body
  {
    assert forall i | 0 <= i < |body| :: s[i] == body[i];
    IndexIsFirst(s, {NUL}, |body|);
  }

  lemma NotEarlier(s: bytes, body: bytes)
    requires body <= s && NUL !in body
    ensures IndexIn(s, {NUL}) >= |body|
  {
    assert forall i | 0 <= i < |body| :: s[i] == body[i];
  }
}

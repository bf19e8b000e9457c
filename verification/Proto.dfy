/** Streaming a source to a connection as INSTREAM chunks, through one buffer that
    holds the length prefix and the chunk. */
module Proto {
  import opened Bytes
  import opened Errors
  import opened Framing
  import opened Trace
  import opened Env
  import opened Conn

  const HEADER: nat := 4

  function EffectiveChunk(chunkSize: int): (c: chunksize)
    ensures 1 <= chunkSize <= 0x100_0000 ==> c == chunkSize
    ensures chunkSize <= 0 ==> c == 0x8000
    ensures chunkSize > 0x100_0000 ==> c == 0x100_0000
  {
    if chunkSize <= 0 then DEFAULT_CHUNK_SIZE
    else if chunkSize > MAX_CHUNK_SIZE then MAX_CHUNK_SIZE
    else chunkSize
  }

  /** One Read into the room after the `n` bytes already in buf[base..]. */
  method ReadAfter(r: CtxReader, buf: array<byte>, base: nat, n: nat, ghost before: bytes) returns (nn: int, err: Option<Error>)
    requires base + n < buf.Length
    requires r.trace == r.env.sourceReads && Running(r.trace)
    requires Content(r.trace) == before + buf[base..base + n]
    modifies r`trace, r.env`step, r.env`sourceReads, r.env`readsAt, buf
    ensures buf[..base] == old(buf[..base]) && buf[base..base + n] == old(buf[base..base + n])
    ensures r.trace != [] && Front(r.trace) == old(r.trace) && r.Faithful()
    ensures r.env.step > old(r.env.step)
    ensures old(ReadsWhileAlive(r.env)) ==> ReadsWhileAlive(r.env)
    ensures err.None? || err == Some(EOF) ==> r.trace == r.env.sourceReads
    ensures err.None? ==> exists k | old(r.env.step) <= k < r.env.step :: r.env.source(k).err.None?
    ensures 0 <= nn <= buf.Length - base - n ==>
              && Content(r.trace) == before + buf[base..base + n + nn]
              && EmptyRun(r.trace) == (if nn == 0 && err.None? then old(EmptyRun(r.trace)) + 1 else 0)
    ensures !(0 <= nn <= buf.Length - base - n) ==>
              Content(r.trace) == before + buf[base..base + n] && EndingOf(r.trace) == Failed(Is(InvalidRead))
    ensures 0 <= nn <= buf.Length - base - n && err == Some(EOF) ==> EndingOf(r.trace) == AtEof
    ensures 0 <= nn <= buf.Length - base - n && err.Some? && err != Some(EOF) ==> EndingOf(r.trace) == Failed(err.value)
    ensures nn == 0 && err.None? && EmptyRun(r.trace) >= MAX_EMPTY_READS ==> EndingOf(r.trace) == Failed(Is(NoProgress))
    ensures 0 <= nn <= buf.Length - base - n && err.None? && EmptyRun(r.trace) < MAX_EMPTY_READS ==> Running(r.trace)
    ensures EndingOf(r.trace) != Open ==> Ended(r.trace)
  {
    hide Running, Ended, EndingOf, EmptyRun, Content, SeenAs, ReadsWhileAlive;
    ghost var was, start, kept := r.trace, r.env.step, buf[..];
    nn, err := r.Read(buf, base + n);
    ghost var e := Last(r.trace);
    assert r.trace == was + [e];
    KeptBelow(kept, buf[..], base, n);
    ReadMore(was, e, before, buf[base..base + n]);
    assert err.None? ==> r.env.source(start + 1).err.None?;
    if e.Possible() {
      assert buf[base..base + n + nn] == buf[base..base + n] + buf[base + n..base + n + nn];
    } else {
      assert before + (buf[base..base + n] + []) == before + buf[base..base + n];
    }
  }

  lemma KeptBelow(was: bytes, now: bytes, base: nat, n: nat)
    requires |was| == |now| && base + n <= |now| && now[..base + n] == was[..base + n]
    ensures now[..base] == was[..base] && now[base..base + n] == was[base..base + n]
  {
    assert now[..base] == now[..base + n][..base] && was[..base] == was[..base + n][..base];
    assert now[base..base + n] == now[..base + n][base..] && was[base..base + n] == was[..base + n][base..];
  }

  /** Reads into buf[base..] until it is full or the input ends. */
  method Fill(r: CtxReader, buf: array<byte>, base: nat) returns (n: nat, eof: bool, err: Option<Error>)
    requires base < buf.Length
    requires r.trace == r.env.sourceReads && Running(r.trace) && EmptyRun(r.trace) == 0
    modifies r`trace, r.env`step, r.env`sourceReads, r.env`readsAt, buf
    ensures n <= buf.Length - base && buf[..base] == old(buf[..base])
    ensures r.trace != [] && Running(Front(r.trace)) && r.Faithful() && r.env.step > old(r.env.step)
    ensures old(ReadsWhileAlive(r.env)) ==> ReadsWhileAlive(r.env)
    ensures Content(r.trace) == old(Content(r.trace)) + buf[base..base + n]
    ensures eof ==> err.None? && Ended(r.trace) && EndingOf(r.trace) == AtEof
    ensures err.Some? ==> Ended(r.trace) && EndingOf(r.trace) == Failed(err.value)
    ensures err.Some? ==>
              old(|Content(r.trace)|) <= |Content(Front(r.trace))| < old(|Content(r.trace)|) + buf.Length - base
    ensures err.None? ==> r.trace == r.env.sourceReads
    ensures err.None? && !eof ==>
              && n == buf.Length - base && Running(r.trace) && EmptyRun(r.trace) == 0
              && exists k | old(r.env.step) <= k < r.env.step :: r.env.source(k).err.None?
  {
    hide Running, Ended, EndingOf, EmptyRun, Content, CtxReader.Faithful, ReadsWhileAlive;
    ghost var before := Content(r.trace);
    n := 0;
    var empty := 0;
    assert buf[base..base + n] == [];
    while n < buf.Length - base
      invariant 0 <= n <= buf.Length - base
      invariant buf[..base] == old(buf[..base])
      invariant r.trace == r.env.sourceReads && Running(r.trace)
      invariant empty == EmptyRun(r.trace) < MAX_EMPTY_READS
      invariant n == buf.Length - base ==> empty == 0 && r.trace != [] && r.Faithful() && Running(Front(r.trace))
      invariant Content(r.trace) == before + buf[base..base + n]
      invariant r.env.step >= old(r.env.step)
      invariant old(ReadsWhileAlive(r.env)) ==> ReadsWhileAlive(r.env)
      invariant n > 0 ==> exists k | old(r.env.step) <= k < r.env.step :: r.env.source(k).err.None?
      decreases buf.Length - base - n, MAX_EMPTY_READS - empty
    {
      var nn, rerr := ReadAfter(r, buf, base, n, before);
      if nn < 0 || nn > buf.Length - base - n {
        return n, false, Some(Is(InvalidRead));
      }
      n := n + nn;
      if rerr == Some(EOF) {
        return n, true, None;
      } else if rerr.Some? {
        return n, false, rerr;
      } else if nn > 0 {
        empty := 0;
      } else {
        empty := empty + 1;
        if empty >= MAX_EMPTY_READS {
          return n, false, Some(Is(NoProgress));
        }
      }
    }
    return n, false, None;
  }

  method PutBe32(a: array<byte>, n: int)
    requires 0 <= n < TWO_32 && a.Length >= HEADER
    modifies a
    ensures a[..HEADER] == Be32(n) && a[HEADER..] == old(a[HEADER..])
  {
    a[0] := n / 0x100_0000;
    a[1] := n / 0x1_0000 % 0x100;
    a[2] := n / 0x100 % 0x100;
    a[3] := n % 0x100;
  }

  /** Writes the `n` bytes in buf[HEADER..] as one chunk; none make the terminator.
      `k` bytes of it went out. */
  method SendChunk(w: DeadlineConn, buf: array<byte>, n: nat) returns (err: Option<Error>, ghost k: nat)
    requires HEADER + n <= buf.Length && n < TWO_32
    modifies buf, w.env`writes, w.env`step, w.env`deadline, w.env`sent, w.env`ios
    ensures k <= HEADER + n
    ensures w.env.sent == old(w.env.sent) + Frame(old(buf[HEADER..HEADER + n]))[..k]
    ensures w.env.step > old(w.env.step)
    ensures forall from: nat, t :: t >= w.ioTimeout && old(Punctual(w.env, from, t)) ==> Punctual(w.env, from, t)
    ensures old(Only(w.env, 0, Op.Write)) ==> Only(w.env, 0, Op.Write)
    ensures w.env.writes != [] && w.env.writes[..|w.env.writes| - 1] == old(w.env.writes)
    ensures w.env.writes[|w.env.writes| - 1].at == w.env.step && (old(w.env.Told()) ==> w.env.Told())
    ensures err.None? ==> w.env.sent == old(w.env.sent) + Frame(old(buf[HEADER..HEADER + n]))
    ensures err.None? ==> k == HEADER + n && !w.env.writes[|w.env.writes| - 1].Faulty()
    ensures err.Some? ==>
              && w.env.writes[|w.env.writes| - 1].Faulty()
              && err == Some(SinkError(w.env.writes[|w.env.writes| - 1].Fault()))
  {
    hide Be32, Frame, Punctual, Only, World.Told;
    PutBe32(buf, n);
    assert buf[HEADER..HEADER + n] == buf[HEADER..][..n];
    assert old(buf[HEADER..HEADER + n]) == old(buf[HEADER..])[..n];
    FrameInBuffer(buf[..], buf[HEADER..HEADER + n]);
    var wn, werr := w.Write(buf[..HEADER + n]);
    k := Taken(wn, HEADER + n);
    assert buf[..HEADER + n][..HEADER + n] == buf[..HEADER + n];
    err := None;
    if werr.Some? {
      err := Some(SinkError(werr.value));
    } else if wn != HEADER + n {
      err := Some(SinkError(Is(ShortWrite)));
    }
  }

  /** Sends the `n` bytes just read as the chunk after `q` whole ones. */
  method SendRead(w: DeadlineConn, buf: array<byte>, n: nat, total: nat, ghost t: seq<ReadEvent>, ghost c: chunksize,
                  ghost max: int, ghost written: bytes, ghost q: nat, ghost base: bytes, ghost was: seq<WriteEvent>)
    returns (err: Option<Error>)
    requires 0 < n <= c && HEADER + n <= buf.Length
    requires t != [] && Running(Front(t)) && !EndingOf(t).Failed?
    requires Content(t) == written + buf[HEADER..HEADER + n] && |written| == q * c
    requires total == |written| && (max >= 0 ==> total + n <= max)
    requires w.env.sent == base + Frames(written, c) && WroteWhole(was, w.env.writes)
    modifies buf, w.env`writes, w.env`step, w.env`deadline, w.env`sent, w.env`ios
    ensures w.env.step > old(w.env.step)
    ensures forall from: nat, t :: t >= w.ioTimeout && old(Punctual(w.env, from, t)) ==> Punctual(w.env, from, t)
    ensures old(Only(w.env, 0, Op.Write)) ==> Only(w.env, 0, Op.Write)
    ensures err.None? ==> w.env.sent == base + Frames(Content(t), c) && WroteWhole(was, w.env.writes)
    ensures err.Some? ==> Streamed(t, c, max, base, w.env.sent, was, w.env.writes, total, err)
    ensures err.Some? ==> err.value.SinkError?
    ensures w.env.writes != [] && w.env.writes[|w.env.writes| - 1].at == w.env.step && (old(w.env.Told()) ==> w.env.Told())
  {
    hide Running, EndingOf, Content, Frames, Framed, Frame, Punctual, Only, WroteWhole, WroteUntilFault, Streamed, World.Told;
    ghost var piece, whole, k := buf[HEADER..HEADER + n], w.env.writes, 0;
    NextFrameSent(base, written, piece, c, q);
    err, k := SendChunk(w, buf, n);
    OneMoreWrite(was, whole, w.env.writes);
    if err.Some? {
      ExitCutShort(t, c, max, written, piece, q, k, base, was, w.env.writes, total, err.value);
    }
  }

  /** Ends a stream whose input ended well. */
  method SendTerminator(w: DeadlineConn, buf: array<byte>, total: nat, ghost t: seq<ReadEvent>, ghost c: chunksize,
                        ghost max: int, ghost base: bytes, ghost was: seq<WriteEvent>)
    returns (err: Option<Error>)
    requires HEADER <= buf.Length
    requires Ended(t) && EndingOf(t) == AtEof && total == |Content(t)| && (max >= 0 ==> total <= max)
    requires w.env.sent == base + Frames(Content(t), c) && WroteWhole(was, w.env.writes)
    modifies buf, w.env`writes, w.env`step, w.env`deadline, w.env`sent, w.env`ios
    ensures w.env.step > old(w.env.step)
    ensures forall from: nat, t :: t >= w.ioTimeout && old(Punctual(w.env, from, t)) ==> Punctual(w.env, from, t)
    ensures old(Only(w.env, 0, Op.Write)) ==> Only(w.env, 0, Op.Write)
    ensures Streamed(t, c, max, base, w.env.sent, was, w.env.writes, total, err)
    ensures err.Some? ==> err.value.SinkError?
    ensures w.env.writes != [] && w.env.writes[|w.env.writes| - 1].at == w.env.step && (old(w.env.Told()) ==> w.env.Told())
  {
    hide Running, Ended, EndingOf, Content, Frames, Framed, Frame, Punctual, Only, WroteWhole, WroteUntilFault, Streamed, World.Told;
    ghost var whole, k := w.env.writes, 0;
    err, k := SendChunk(w, buf, 0);
    EmptyFrame(old(buf[HEADER..HEADER]));
    OneMoreWrite(was, whole, w.env.writes);
    ExitTerminator(t, c, max, k, base, was, w.env.writes, total, err);
  }

  /** The wire holds the frames of the first `total` bytes of the content, and
      after them at most a part of one more write: the next chunk or, with no
      content left, the terminator. */
  ghost predicate Acknowledged(content: bytes, c: chunksize, before: bytes, after: bytes, total: int) {
    && 0 <= total <= |content|
    && before + Frames(content[..total], c) <= after
    && |after| <= |before + Frames(content[..total], c)| + HEADER + Min(c, |content| - total)
  }

  /** The result of streaming the reads `t`: `total` bytes acknowledged and the
      error, with what this added to the bytes on the wire and to the writes.

      In every run the wire gained a prefix of the canonical framing of what was
      read, and all of it only if the input had ended well within the limit.
      Unless a write failed, the result is the one the reads alone determine. */
  ghost predicate Streamed(t: seq<ReadEvent>, c: chunksize, max: int, before: bytes, after: bytes,
                           was: seq<WriteEvent>, now: seq<WriteEvent>, total: int, err: Option<Error>)
  {
    && t != [] && Running(Front(t))
    && Grew(before, after, Framed(Content(t), c))
    && (after == before + Framed(Content(t), c) ==>
          Ended(t) && EndingOf(t) == AtEof && (max >= 0 ==> |Content(t)| <= max))
    && (if err.Some? && err.value.SinkError? then
          && WroteUntilFault(was, now) && err.value.err == now[|now| - 1].Fault()
          && Acknowledged(Content(t), c, before, after, total)
          && !EndingOf(t).Failed? && (max >= 0 ==> |Content(t)| <= max)
        else
          && WroteWhole(was, now)
          && Outcome(total, err) == OutcomeOf(t, c, max)
          && (Ended(t) || err == Some(Is(StreamTooLong)))
          && 0 <= total <= |Content(t)|
          && after == before + (if err.None? then Framed(Content(t), c) else Frames(Content(t)[..total], c)))
  }

  /** `quiet` bounds the event from which an unlimited source keeps failing or
      ending. */
  method StreamAll(w: DeadlineConn, r: CtxReader, chunkSize: int, maxBytes: int, ghost quiet: nat)
    returns (total: int, err: Option<Error>)
    requires w.env == r.env && r.trace == [] && r.env.sourceReads == []
    requires maxBytes < 0 ==> forall k :: k >= quiet ==> r.env.source(k).err.Some?
    modifies w.env`writes, w.env`step, w.env`deadline, w.env`sent, w.env`ios, w.env`sourceReads, w.env`readsAt, r`trace
    ensures r.Faithful()
    ensures Streamed(r.trace, EffectiveChunk(chunkSize), maxBytes, old(w.env.sent), w.env.sent,
                     old(w.env.writes), w.env.writes, total, err)
    ensures err.Some? && err.value.SinkError? ==> w.env.writes != [] && w.env.writes[|w.env.writes| - 1].at == w.env.step
    ensures old(w.env.Told()) ==> w.env.Told()
    ensures maxBytes >= 0 ==> |Content(r.trace)| <= maxBytes + EffectiveChunk(chunkSize)
    ensures maxBytes >= 0 ==> |r.trace| <= MAX_EMPTY_READS * (maxBytes + EffectiveChunk(chunkSize) + 1)
    ensures w.env.step > old(w.env.step)
    ensures old(ReadsWhileAlive(w.env)) ==> ReadsWhileAlive(w.env)
    ensures forall from: nat, t :: t >= w.ioTimeout && old(Punctual(w.env, from, t)) ==> Punctual(w.env, from, t)
    ensures old(Only(w.env, 0, Op.Write)) ==> Only(w.env, 0, Op.Write)
  {
    hide Running, Ended, EndingOf, EmptyRun, Content, OutcomeOf, Frames, Framed, Frame, Grew, CtxReader.Faithful;
    hide Be32, Punctual, Only, ReadsWhileAlive, WroteWhole, WroteUntilFault, Streamed, World.Told;
    var c := EffectiveChunk(chunkSize);
    var buf := new byte[HEADER + c](_ => 0);
    total := 0;
    ghost var chunks: nat := 0;
    ghost var base, was := w.env.sent, w.env.writes;
    EmptyTrace(c);
    NoWrites(was);
    while true
      invariant r.trace == r.env.sourceReads && Running(r.trace) && EmptyRun(r.trace) == 0
      invariant total == |Content(r.trace)| == chunks * c
      invariant maxBytes >= 0 ==> total <= maxBytes
      invariant WroteWhole(was, w.env.writes) && w.env.step >= old(w.env.step)
      invariant w.env.sent == base + Frames(Content(r.trace), c)
      invariant (old(ReadsWhileAlive(w.env)) ==> ReadsWhileAlive(w.env)) && (old(w.env.Told()) ==> w.env.Told())
      invariant forall from: nat, t :: t >= w.ioTimeout && old(Punctual(w.env, from, t)) ==> Punctual(w.env, from, t)
      invariant old(Only(w.env, 0, Op.Write)) ==> Only(w.env, 0, Op.Write)
      decreases if maxBytes >= 0 then maxBytes - total else quiet - w.env.step
    {
      ghost var written := Content(r.trace);
      var n, eof, rerr := Fill(r, buf, HEADER);
      ghost var piece := buf[HEADER..HEADER + n];
      ReadsBounded(r.trace);
      if maxBytes >= 0 && total + n > maxBytes {
        ExitTooLong(r.trace, c, maxBytes, written, piece, chunks, base, was, w.env.writes);
        err := Some(Is(StreamTooLong));
        return;
      }
      if rerr.Some? {
        ExitFailed(r.trace, c, maxBytes, written, piece, chunks, base, was, w.env.writes);
        err := Some(SourceError(rerr.value));
        return;
      }
      if n > 0 {
        NotFailed(r.trace, eof);
        err := SendRead(w, buf, n, total, r.trace, c, maxBytes, written, chunks, base, was);
        NoneRefused(r);
        if err.Some? {
          return;
        }
        total := total + n;
      } else {
        assert written + piece == written;
      }
      if eof {
        break;
      }
      chunks := chunks + 1;
    }
    err := SendTerminator(w, buf, total, r.trace, c, maxBytes, base, was);
    NoneRefused(r);
  }

  lemma NoneRefused(r: CtxReader)
    requires r.trace == r.env.sourceReads
    ensures r.Faithful()
  {
  }

  lemma NotFailed(t: seq<ReadEvent>, eof: bool)
    requires t != [] && if eof then EndingOf(t) == AtEof else Running(t)
    ensures !EndingOf(t).Failed?
  {
  }

  lemma ExitTooLong(t: seq<ReadEvent>, c: chunksize, max: int, written: bytes, piece: bytes, q: nat,
                    base: bytes, was: seq<WriteEvent>, now: seq<WriteEvent>)
    requires t != [] && Running(Front(t)) && WroteWhole(was, now)
    requires Content(t) == written + piece && |written| == q * c && |piece| <= c
    requires 0 <= |written| <= max < |written| + |piece|
    ensures Streamed(t, c, max, base, base + Frames(written, c), was, now, |written|, Some(Is(StreamTooLong)))
  {
    WholeChunksOnly(base, written, piece, c, q);
    OutcomeTooLong(t, c, max, written, piece, q);
    hide Running, Content, OutcomeOf, EndingOf, Frames, Framed, Grew, WroteWhole;
  }

  lemma ExitFailed(t: seq<ReadEvent>, c: chunksize, max: int, written: bytes, piece: bytes, q: nat,
                   base: bytes, was: seq<WriteEvent>, now: seq<WriteEvent>)
    requires Ended(t) && EndingOf(t).Failed? && WroteWhole(was, now)
    requires Content(t) == written + piece && |written| == q * c && |piece| <= c
    requires |written| <= |Content(Front(t))| < |written| + c
    requires max >= 0 ==> |written| + |piece| <= max
    ensures Streamed(t, c, max, base, base + Frames(written, c), was, now, |written|, Some(SourceError(EndingOf(t).err)))
  {
    WholeChunksOnly(base, written, piece, c, q);
    OutcomeFailed(t, c, max, written, q);
    hide Running, Content, OutcomeOf, EndingOf, Frames, Framed, Grew, WroteWhole;
  }

  lemma ExitCutShort(t: seq<ReadEvent>, c: chunksize, max: int, written: bytes, piece: bytes, q: nat, k: nat,
                     base: bytes, was: seq<WriteEvent>, now: seq<WriteEvent>, total: int, err: Error)
    requires t != [] && Running(Front(t)) && !EndingOf(t).Failed? && WroteUntilFault(was, now)
    requires Content(t) == written + piece && |written| == q * c && 0 < |piece| <= c && k <= HEADER + |piece|
    requires max >= 0 ==> |written| + |piece| <= max
    requires err == SinkError(now[|now| - 1].Fault()) && total == |written|
    ensures Streamed(t, c, max, base, base + Frames(written, c) + Frame(piece)[..k], was, now, total, Some(err))
  {
    CutShort(base, written, piece, c, q, k);
    assert (written + piece)[..|written|] == written;
    hide Running, Content, OutcomeOf, EndingOf, Frames, Framed, Frame, Grew;
  }

  lemma ExitTerminator(t: seq<ReadEvent>, c: chunksize, max: int, k: nat,
                       base: bytes, was: seq<WriteEvent>, now: seq<WriteEvent>, total: int, err: Option<Error>)
    requires Ended(t) && EndingOf(t) == AtEof && k <= HEADER
    requires max >= 0 ==> |Content(t)| <= max
    requires total == |Content(t)|
    requires if err.None? then WroteWhole(was, now) && k == HEADER
             else WroteUntilFault(was, now) && err == Some(SinkError(now[|now| - 1].Fault()))
    ensures Streamed(t, c, max, base, base + Frames(Content(t), c) + TERMINATOR[..k], was, now, total, err)
  {
    TerminatorCut(base, Content(t), c, k);
    OutcomeDone(t, c, max);
    assert Content(t)[..|Content(t)|] == Content(t);
    hide Running, Content, OutcomeOf, EndingOf, Frames, Framed, Grew, WroteWhole;
  }

  lemma NoWrites(ws: seq<WriteEvent>)
    ensures WroteWhole(ws, ws)
  {
  }

  lemma OneMoreWrite(was: seq<WriteEvent>, mid: seq<WriteEvent>, now: seq<WriteEvent>)
    requires WroteWhole(was, mid) && now != [] && now[..|now| - 1] == mid
    ensures if now[|now| - 1].Faulty() then WroteUntilFault(was, now) else WroteWhole(was, now)
  {
  }

  lemma EmptyTrace(c: chunksize)
    ensures Running([]) && EmptyRun([]) == 0 && Content([]) == [] && Frames([], c) == []
  {
  }

  lemma EmptyFrame(p: bytes)
    requires p == []
    ensures Frame(p) == TERMINATOR
  {
  }

  lemma FrameInBuffer(buf: bytes, piece: bytes)
    requires |buf| >= HEADER + |piece| && |piece| < TWO_32
    requires buf[..HEADER] == Be32(|piece|) && buf[HEADER..HEADER + |piece|] == piece
    ensures buf[..HEADER + |piece|] == Frame(piece)
  {
    hide Be32;
  }
}

/** What a consumer saw of an io.Reader, read by read, and what the stream writer
    must make of it, stated without buffers or chunks of reads. */
module Trace {
  import opened Bytes
  import opened Errors
  import opened Framing

  const MAX_EMPTY_READS: nat := 100

  /** One Read into `room` bytes: the count and error it returned and, when the
      count is possible, the bytes it delivered. */
  datatype RawRead = RawRead(room: nat, count: int, data: bytes, err: Option<Error>)
  {
    predicate Possible() {
      0 <= count <= room
    }

    predicate Empty() {
      count == 0 && err.None?
    }
  }

  type ReadEvent = e: RawRead | |e.data| == (if e.Possible() then e.count else 0)
    witness RawRead(0, 0, [], None)

  datatype Ending = Open | AtEof | Failed(err: Error)

  function Front(t: seq<ReadEvent>): seq<ReadEvent>
    requires t != []
  {
    t[..|t| - 1]
  }

  function Last(t: seq<ReadEvent>): ReadEvent
    requires t != []
  {
    t[|t| - 1]
  }

  /** All bytes delivered. */
  function Content(t: seq<ReadEvent>): bytes {
    if t == [] then [] else Content(Front(t)) + Last(t).data
  }

  /** How many empty reads the trace ends in, however its reads were grouped. */
  function EmptyRun(t: seq<ReadEvent>): nat {
    if t == [] || !Last(t).Empty() then 0 else EmptyRun(Front(t)) + 1
  }

  /** How the last read ends the input, if it does. Only io.EOF itself ends it
      well: not an error that wraps it. */
  function EndingOf(t: seq<ReadEvent>): Ending
    requires t != []
  {
    var last := Last(t);
    if !last.Possible() then Failed(Is(InvalidRead))
    else if last.err == Some(EOF) then AtEof
    else if last.err.Some? then Failed(last.err.value)
    else if EmptyRun(t) >= MAX_EMPTY_READS then Failed(Is(NoProgress))
    else Open
  }

  /** No read has ended the input yet. */
  predicate Running(t: seq<ReadEvent>) {
    t != [] ==> Running(Front(t)) && EndingOf(t) == Open
  }

  /** The input ended at the last read, and not before. */
  predicate Ended(t: seq<ReadEvent>) {
    t != [] && Running(Front(t)) && EndingOf(t) != Open
  }

  datatype Outcome = Outcome(written: int, err: Option<Error>)

  /** The result of streaming the reads `t` in chunks of `c` under the limit
      `max` (none if negative) into a sink without faults. */
  function OutcomeOf(t: seq<ReadEvent>, c: chunksize, max: int): Outcome
    requires t != []
  {
    var content := Content(t);
    if max >= 0 && |content| > max then Outcome(max / c * c, Some(Is(StreamTooLong)))
    else if EndingOf(t).Failed? then
      Outcome(|Content(Front(t))| / c * c, Some(SourceError(EndingOf(t).err)))
    else Outcome(|content|, None)
  }

  // ---- the number of reads ----------------------------------------------------------

  lemma {:induction false} RunningReads(t: seq<ReadEvent>)
    requires Running(t)
    ensures EmptyRun(t) < MAX_EMPTY_READS
    ensures |t| <= MAX_EMPTY_READS * |Content(t)| + EmptyRun(t)
  {
    if t != [] {
      RunningReads(Front(t));
    }
  }

  /** However a source behaves, the reads up to the one that ends the input (or
      the one that crosses the limit) number at most 100 for each byte, plus 100. */
  lemma ReadsBounded(t: seq<ReadEvent>)
    requires t != [] ==> Running(Front(t))
    ensures |t| <= MAX_EMPTY_READS * (|Content(t)| + 1)
  {
    if t != [] {
      RunningReads(Front(t));
    }
  }

  // ---- how a read ends the input ----------------------------------------------------

  /** The run of empty reads reaches back as far as reads were empty. */
  lemma {:induction false} EmptyRunCounts(t: seq<ReadEvent>, k: nat)
    ensures k <= EmptyRun(t) <==> k <= |t| && forall i | |t| - k <= i < |t| :: t[i].count == 0 && t[i].err.None?
    decreases |t|
  {
    if t != [] && k > 0 {
      EmptyRunCounts(Front(t), k - 1);
      if k <= |t| && Last(t).Empty() {
        assert forall i | 0 <= i < |t| - 1 :: Front(t)[i] == t[i];
      }
    }
  }

  /** An impossible count, io.EOF, any other error, the hundredth empty read in a row,
      in that order; and nothing else. */
  lemma EndingCases(t: seq<ReadEvent>, e: ReadEvent)
    ensures EndingOf(t + [e])
         == if e.count < 0 || e.count > e.room then Failed(Is(InvalidRead))
            else if e.err == Some(Is(Eof)) then AtEof
            else if e.err.Some? then Failed(e.err.value)
            else if e.count == 0 && EmptyRun(t) >= 99 then Failed(Is(NoProgress))
            else Open
  {
    Extend(t, e);
  }

  // ---- extending a trace ----------------------------------------------------------------

  lemma Extend(t: seq<ReadEvent>, e: ReadEvent)
    ensures Front(t + [e]) == t && Last(t + [e]) == e
    ensures Content(t + [e]) == Content(t) + e.data
    ensures EmptyRun(t + [e]) == if e.Empty() then EmptyRun(t) + 1 else 0
  {
    assert Front(t + [e]) == t;
  }

  /** How one more read leaves a running trace whose content is `before + got`. */
  lemma ReadMore(was: seq<ReadEvent>, e: ReadEvent, before: bytes, got: bytes)
    requires Running(was) && Content(was) == before + got
    ensures Front(was + [e]) == was
    ensures Content(was + [e]) == before + (got + e.data)
    ensures EmptyRun(was + [e]) == if e.Empty() then EmptyRun(was) + 1 else 0
    ensures !e.Possible() ==> EndingOf(was + [e]) == Failed(Is(InvalidRead)) && e.data == []
    ensures e.Possible() && e.err == Some(EOF) ==> EndingOf(was + [e]) == AtEof
    ensures e.Possible() && e.err.Some? && e.err != Some(EOF) ==> EndingOf(was + [e]) == Failed(e.err.value)
    ensures e.Empty() && EmptyRun(was) + 1 >= MAX_EMPTY_READS ==> EndingOf(was + [e]) == Failed(Is(NoProgress))
    ensures e.Possible() && e.err.None? && !(e.Empty() && EmptyRun(was) + 1 >= MAX_EMPTY_READS) ==>
              Running(was + [e])
    ensures EndingOf(was + [e]) != Open ==> Ended(was + [e])
  {
    assert Front(was + [e]) == was;
    RunningReads(was);
    assert before + got + e.data == before + (got + e.data);
  }

  // ---- the outcome, from the chunks written so far --------------------------------------

  lemma OutcomeTooLong(t: seq<ReadEvent>, c: chunksize, max: int, written: bytes, piece: bytes, q: nat)
    requires t != [] && Content(t) == written + piece && |written| == q * c && |piece| <= c
    requires 0 <= |written| <= max < |written| + |piece|
    ensures OutcomeOf(t, c, max) == Outcome(|written|, Some(Is(StreamTooLong)))
  {
    hide Content, EndingOf;
    QuotientUnique(max, c, q);
  }

  lemma OutcomeFailed(t: seq<ReadEvent>, c: chunksize, max: int, written: bytes, q: nat)
    requires t != [] && EndingOf(t).Failed? && |written| == q * c
    requires |written| <= |Content(Front(t))| < |written| + c
    requires max >= 0 ==> |Content(t)| <= max
    ensures OutcomeOf(t, c, max) == Outcome(|written|, Some(SourceError(EndingOf(t).err)))
  {
    hide Content, EndingOf;
    QuotientUnique(|Content(Front(t))|, c, q);
  }

  lemma OutcomeDone(t: seq<ReadEvent>, c: chunksize, max: int)
    requires t != [] && EndingOf(t) == AtEof && (max >= 0 ==> |Content(t)| <= max)
    ensures OutcomeOf(t, c, max) == Outcome(|Content(t)|, None)
  {
  }
}

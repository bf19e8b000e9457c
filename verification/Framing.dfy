/** INSTREAM framing: length-prefixed chunks and a zero-length terminator. */
module Framing {
  import opened Bytes

  const MAX_CHUNK_SIZE: int := 0x100_0000     // 16 MiB
  const DEFAULT_CHUNK_SIZE: int := 0x8000     // 32 KiB

  type chunksize = c: int | 1 <= c <= 0x100_0000 witness 1

  /** "INSTREAM". */
  const INSTREAM: bytes := [0x49, 0x4e, 0x53, 0x54, 0x52, 0x45, 0x41, 0x4d]

  // Phrases of the server's replies.
  const SIZE_LIMIT: bytes := Ascii("size limit exceeded")
  const ERROR: bytes := Ascii(" ERROR")

  const TERMINATOR: bytes := [0, 0, 0, 0]

  function Frame(p: bytes): (f: bytes)
    requires |p| < TWO_32
    ensures |f| == 4 + |p|
  {
    Be32(|p|) + p
  }

  /** The chunks of `p`: every one of size `c`, except perhaps the last. */
  function Frames(p: bytes, c: chunksize): bytes {
    if p == [] then []
    else if |p| <= c then Frame(p)
    else Frame(p[..c]) + Frames(p[c..], c)
  }

  /** The complete stream for `p`. */
  function Framed(p: bytes, c: chunksize): bytes {
    Frames(p, c) + TERMINATOR
  }

  function EncodeCommand(name: bytes): bytes {
    [0x7a] + name + [0]
  }

  /** Appending to `q` whole chunks appends frames. */
  lemma {:induction false} FramesAppend(a: bytes, b: bytes, c: chunksize, q: nat)
    requires |a| == q * c
    ensures Frames(a + b, c) == Frames(a, c) + Frames(b, c)
    decreases q
  {
    hide Frame, Frames;
    if q == 0 {
      assert a + b == b;
      FirstFrame(a, c);
    } else {
      assert |a| == (q - 1) * c + c;
      FramesAppend(a[c..], b, c, q - 1);
      assert (a + b)[..c] == a[..c] && (a + b)[c..] == a[c..] + b;
      FirstFrame(a, c);
      FirstFrame(a + b, c);
    }
  }

  lemma FirstFrame(p: bytes, c: chunksize)
    ensures Frames([], c) == []
    ensures |p| >= c ==> Frames(p, c) == Frame(p[..c]) + Frames(p[c..], c)
  {
    hide Frame;
    assert |p| == c ==> p[..c] == p && p[c..] == [];
  }

  /** One more chunk, short or not, after `q` whole ones. */
  lemma NextFrame(a: bytes, piece: bytes, c: chunksize, q: nat)
    requires |a| == q * c && |piece| <= c
    ensures Frames(a + piece, c) == if piece == [] then Frames(a, c) else Frames(a, c) + Frame(piece)
  {
    hide Frame;
    FramesAppend(a, piece, c, q);
  }

  lemma NextFrameSent(before: bytes, a: bytes, piece: bytes, c: chunksize, q: nat)
    requires |a| == q * c && |piece| <= c
    ensures before + Frames(a + piece, c)
         == if piece == [] then before + Frames(a, c) else before + Frames(a, c) + Frame(piece)
  {
    hide Frame, Frames;
    NextFrame(a, piece, c, q);
    Regroup(before, Frames(a, c), Frame(piece));
  }

  lemma Regroup(x: bytes, y: bytes, z: bytes)
    ensures x + (y + z) == x + y + z
  {
  }

  /** The wire after `before` grew by a prefix of `p`. */
  ghost predicate Grew(before: bytes, after: bytes, p: bytes) {
    before <= after && after[|before|..] <= p
  }

  /** Cut short anywhere after `q` whole chunks and before the terminator, what
      was sent is a strict prefix of the framing of all that was read. */
  lemma CutShort(before: bytes, a: bytes, piece: bytes, c: chunksize, q: nat, k: nat)
    requires |a| == q * c && 0 < |piece| <= c && k <= 4 + |piece|
    ensures Grew(before, before + Frames(a, c) + Frame(piece)[..k], Framed(a + piece, c))
    ensures before + Frames(a, c) + Frame(piece)[..k] != before + Framed(a + piece, c)
  {
    hide Frame, Frames;
    NextFrame(a, piece, c, q);
    CutAfter(before, Frames(a, c), Frame(piece), k);
  }

  /** A strict prefix of `x + y`, and with it of whatever is added to that. */
  lemma CutAfter(before: bytes, x: bytes, y: bytes, k: nat)
    requires k <= |y|
    ensures Grew(before, before + x + y[..k], x + y + TERMINATOR)
    ensures before + x + y[..k] != before + (x + y + TERMINATOR)
  {
    assert (before + x + y[..k])[|before|..] == x + y[..k];
    assert (x + y + TERMINATOR)[..|x| + k] == x + y[..k];
  }

  lemma WholeChunksOnly(before: bytes, a: bytes, piece: bytes, c: chunksize, q: nat)
    requires |a| == q * c && |piece| <= c
    ensures Grew(before, before + Frames(a, c), Framed(a + piece, c))
    ensures before + Frames(a, c) != before + Framed(a + piece, c)
    ensures (a + piece)[..|a|] == a
  {
    NextFrame(a, piece, c, q);
    hide Frame, Frames;
    var rest := (if piece == [] then [] else Frame(piece)) + TERMINATOR;
    assert Framed(a + piece, c) == Frames(a, c) + rest;
  }

  /** All chunks sent, and `k` bytes of the terminator. */
  lemma TerminatorCut(before: bytes, p: bytes, c: chunksize, k: nat)
    requires k <= 4
    ensures Grew(before, before + Frames(p, c) + TERMINATOR[..k], Framed(p, c))
    ensures k == 4 ==> before + Frames(p, c) + TERMINATOR[..k] == before + Framed(p, c)
  {
    hide Frames;
    assert before + Frames(p, c) + TERMINATOR[..k] == before + (Frames(p, c) + TERMINATOR[..k]);
    assert Framed(p, c) == Frames(p, c) + TERMINATOR[..k] + TERMINATOR[k..];
    assert TERMINATOR[..4] == TERMINATOR;
  }
}

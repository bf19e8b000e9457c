/** The string functions of the Go library that the sources use, on byte strings
    and for ASCII: searching, trimming, lower-casing. */
module Text {
  import opened Bytes

  const NUL: byte := 0
  const TAB: byte := 9
  const LF: byte := 10
  const CR: byte := 13
  const SPACE: byte := 0x20

  const END_OF_LINE: set<byte> := {CR, LF}
  const WHITESPACE: set<byte> := {TAB, LF, 11, 12, CR, SPACE}

  /** Where the first byte of `stops` is; |s| if there is none. */
  function IndexIn(s: bytes, stops: set<byte>): (k: nat)
    ensures k <= |s|
    ensures k < |s| ==> s[k] in stops
    ensures forall i | 0 <= i < k :: s[i] !in stops
  {
    if s == [] || s[0] in stops then 0 else 1 + IndexIn(s[1..], stops)
  }

  lemma IndexIsFirst(s: bytes, stops: set<byte>, k: nat)
    requires k < |s| && s[k] in stops && forall i | 0 <= i < k :: s[i] !in stops
    ensures IndexIn(s, stops) == k
  {
  }

  function TrimRight(s: bytes, cut: set<byte>): (t: bytes)
    ensures t <= s
    ensures t != [] ==> t[|t| - 1] !in cut
    ensures forall i | |t| <= i < |s| :: s[i] in cut
  {
    if s != [] && s[|s| - 1] in cut then TrimRight(s[..|s| - 1], cut) else s
  }

  /** A suffix of cut bytes is what is removed, and nothing else determines it. */
  lemma {:induction false} TrimRightUnique(s: bytes, cut: set<byte>, n: nat)
    requires n <= |s| && (n > 0 ==> s[n - 1] !in cut)
    requires forall i | n <= i < |s| :: s[i] in cut
    ensures TrimRight(s, cut) == s[..n]
  {
    if n < |s| {
      TrimRightUnique(s[..|s| - 1], cut, n);
      assert s[..|s| - 1][..n] == s[..n];
    } else {
      assert s[..n] == s;
    }
  }

  function TrimLeft(s: bytes, cut: set<byte>): (t: bytes)
    ensures |t| <= |s| && t == s[|s| - |t|..]
    ensures t != [] ==> t[0] !in cut
    ensures forall i | 0 <= i < |s| - |t| :: s[i] in cut
  {
    if s != [] && s[0] in cut then TrimLeft(s[1..], cut) else s
  }

  lemma NothingToTrim(s: bytes)
    requires s != [] && s[0] !in WHITESPACE
    ensures TrimLeft(s, WHITESPACE) == s
  {
  }

  function TrimSpace(s: bytes): bytes {
    TrimLeft(TrimRight(s, WHITESPACE), WHITESPACE)
  }

  predicate Blank(s: bytes) {
    forall i | 0 <= i < |s| :: s[i] in WHITESPACE
  }

  /** Trimming leaves what stands between blank ends, if it has none itself. */
  lemma TrimSpaceBetween(l: bytes, x: bytes, r: bytes)
    requires Blank(l) && Blank(r)
    requires x != [] ==> x[0] !in WHITESPACE && x[|x| - 1] !in WHITESPACE
    ensures TrimSpace(l + x + r) == x
  {
    hide TrimRight, TrimLeft;
    if x == [] {
      TrimRightUnique(l + x + r, WHITESPACE, 0);
      assert (l + x + r)[..0] == [];
    } else {
      var n := |l + x|;
      assert (l + x + r)[..n] == l + x && (l + x + r)[n - 1] == x[|x| - 1];
      assert forall i | n <= i < |l + x + r| :: (l + x + r)[i] == r[i - n];
      TrimRightUnique(l + x + r, WHITESPACE, n);
      TrimLeftUnique(l, x);
    }
  }

  lemma TrimLeftUnique(l: bytes, x: bytes)
    requires Blank(l) && x != [] && x[0] !in WHITESPACE
    ensures TrimLeft(l + x, WHITESPACE) == x
  {
    hide TrimLeft;
    var t := TrimLeft(l + x, WHITESPACE);
    assert (l + x)[|l|] == x[0];
    assert |t| >= |x|;
    assert forall i | 0 <= i < |l| :: (l + x)[i] in WHITESPACE;
    assert |t| <= |x|;
    assert (l + x)[|l|..] == x;
  }

  predicate OccursAt(s: bytes, p: bytes, k: int) {
    0 <= k && k + |p| <= |s| && s[k..k + |p|] == p
  }

  /** The first occurrence of `p` in `s`; None if there is none. */
  function Index(s: bytes, p: bytes): (k: Option<nat>)
    ensures k.Some? ==> OccursAt(s, p, k.value)
    ensures forall i :: OccursAt(s, p, i) ==> k.Some? && k.value <= i
  {
    if p <= s then assert OccursAt(s, p, 0); Some(0)
    else if s == [] then None
    else
      var k := Index(s[1..], p);
      assert forall i :: OccursAt(s, p, i) ==> i > 0 && OccursAt(s[1..], p, i - 1) by {
        forall i | OccursAt(s, p, i)
          ensures i > 0 && OccursAt(s[1..], p, i - 1)
        {
          assert i == 0 ==> p <= s;
        }
      }
      if k.Some? then Some(k.value + 1) else None
  }

  predicate Contains(s: bytes, p: bytes) {
    Index(s, p).Some?
  }

  function ToLower(s: bytes): bytes {
    seq(|s|, i requires 0 <= i < |s| => if 0x41 <= s[i] <= 0x5a then s[i] + 0x20 else s[i])
  }
}

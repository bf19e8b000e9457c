/** The classification of a scan reply, and the exact language of replies that
    count as clean. */
module Classify {
  import opened Bytes
  import opened Text
  import opened Framing
  import opened Errors
  import opened Reply

  datatype Response =
    | Unknown(raw: bytes)
    | Clean
    | Infected(signature: bytes)
    | Failed(message: bytes, sizeLimit: bool)

  const TRAILING: set<byte> := {SPACE, TAB, CR, LF, NUL}

  const FOUND: bytes := Ascii(" FOUND")
  const ERROR_WORD: bytes := Ascii("ERROR")
  const COLON: bytes := Ascii(": ")
  const OK: bytes := Ascii("OK")
  const STREAM_OK: bytes := Ascii("stream: OK")

  function SignatureOf(found: bytes): bytes {
    var i := Index(found, COLON);
    TrimSpace(if i.Some? then found[i.value + 2..] else found)
  }

  predicate IsSizeLimitMessage(message: bytes) {
    Contains(ToLower(message), SIZE_LIMIT)
  }

  function ParseScanResponse(reply: bytes): Response {
    var line := TrimRight(reply, TRAILING);
    if HasSuffix(line, FOUND) then Infected(SignatureOf(line[..|line| - |FOUND|]))
    else if line == ERROR_WORD then Failed([], false)
    else if HasSuffix(line, ERROR) then
      var message := TrimSpace(line[..|line| - |ERROR|]);
      Failed(message, IsSizeLimitMessage(message))
    else if line == OK || line == STREAM_OK then Clean
    else Unknown(line)
  }

  // ---- what is clean ------------------------------------------------------------------

  /** (OK | stream: OK) blank* (CR | LF)*, cut at `i` and `j`. */
  ghost predicate CleanCut(body: bytes, i: nat, j: nat) {
    && i <= j <= |body|
    && (body[..i] == OK || body[..i] == STREAM_OK)
    && (forall k | i <= k < j :: body[k] == SPACE || body[k] == TAB)
    && (forall k | j <= k < |body| :: body[k] == CR || body[k] == LF)
  }

  ghost predicate CleanReply(body: bytes) {
    exists i: nat, j: nat :: CleanCut(body, i, j)
  }

  /** Neither allowlisted line is a detection or an error, and neither ends in a
      byte that is trimmed. */
  lemma Allowlist(line: bytes)
    requires line == OK || line == STREAM_OK
    ensures line != [] && line[|line| - 1] == 0x4b
    ensures forall k | 0 <= k < |line| :: line[k] != CR && line[k] != LF
    ensures !HasSuffix(line, FOUND) && !HasSuffix(line, ERROR) && line != ERROR_WORD
  {
    assert FOUND[|FOUND| - 1] == 0x44 && ERROR[|ERROR| - 1] == 0x52 && ERROR_WORD[|ERROR_WORD| - 1] == 0x52;
    SuffixEnds(line, FOUND);
    SuffixEnds(line, ERROR);
  }

  lemma SuffixEnds(s: bytes, p: bytes)
    requires p != []
    ensures HasSuffix(s, p) ==> s != [] && s[|s| - 1] == p[|p| - 1]
  {
    if HasSuffix(s, p) {
      assert s[|s| - 1] == s[|s| - |p|..][|p| - 1];
    }
  }

  /** A reply line reads as clean exactly when it is an allowlisted line followed
      by trimmed bytes. */
  lemma CleanLine(line: bytes)
    ensures ParseScanResponse(line) == Clean <==> TrimRight(line, TRAILING) in {OK, STREAM_OK}
  {
    hide HasSuffix;
    var t := TrimRight(line, TRAILING);
    if t == OK || t == STREAM_OK {
      Allowlist(t);
    }
  }

  /** The bytes before a NUL, read as a line and classified, are clean exactly
      when they are in the language. */
  lemma CleanLanguage(body: bytes)
    requires NUL !in body
    ensures FinishLine(body, true).err.None? && ParseScanResponse(FinishLine(body, true).line) == Clean
       <==> CleanReply(body)
  {
    var line := TrimRight(body, END_OF_LINE);
    var t := TrimRight(line, TRAILING);
    CleanLine(line);
    if IndexIn(line, END_OF_LINE) == |line| && (t == OK || t == STREAM_OK) {
      assert CleanCut(body, |t|, |line|) by {
        assert body[..|t|] == t;
      }
    }
    if CleanReply(body) {
      var i: nat, j: nat :| CleanCut(body, i, j);
      CleanCutTrims(body, i, j);
    }
  }

  lemma CleanCutTrims(body: bytes, i: nat, j: nat)
    requires CleanCut(body, i, j)
    ensures TrimRight(body, END_OF_LINE) == body[..j]
    ensures TrimRight(body[..j], TRAILING) == body[..i]
    ensures IndexIn(body[..j], END_OF_LINE) == j
  {
    CutBytes(body, i, j);
    hide TrimRight, CleanCut, IndexIn;
    TrimRightUnique(body, END_OF_LINE, j);
    TrimRightUnique(body[..j], TRAILING, i);
    assert body[..j][..i] == body[..i];
  }

  lemma CutBytes(body: bytes, i: nat, j: nat)
    requires CleanCut(body, i, j)
    ensures 0 < i && body[i - 1] !in TRAILING
    ensures forall k | 0 <= k < j :: body[k] !in END_OF_LINE
    ensures forall k | i <= k < |body| :: body[k] in TRAILING
    ensures forall k | j <= k < |body| :: body[k] in END_OF_LINE
  {
    var line := body[..i];
    Allowlist(line);
    assert forall k | 0 <= k < i :: body[k] == line[k];
  }

  // ---- detections and errors ------------------------------------------------------------

  lemma SuffixByte(s: bytes, p: bytes, i: nat)
    requires i < |p|
    ensures HasSuffix(s, p) ==> s[|s| - |p| + i] == p[i]
  {
    if HasSuffix(s, p) {
      assert s[|s| - |p| + i] == s[|s| - |p|..][i];
    }
  }

  /** The line consists of something that ends in `word`, and trimmed bytes. */
  ghost predicate EndsIn(line: bytes, word: bytes) {
    exists n: nat :: CutAt(line, n) && HasSuffix(line[..n], word)
  }

  ghost predicate CutAt(line: bytes, n: nat) {
    n <= |line| && forall k | n <= k < |line| :: line[k] in TRAILING
  }

  lemma EndsInTrimmed(line: bytes, word: bytes)
    requires word != [] && word[|word| - 1] !in TRAILING
    ensures EndsIn(line, word) <==> HasSuffix(TrimRight(line, TRAILING), word)
  {
    hide TrimRight;
    var t := TrimRight(line, TRAILING);
    assert CutAt(line, |t|) && line[..|t|] == t;
    if EndsIn(line, word) {
      var n: nat :| CutAt(line, n) && HasSuffix(line[..n], word);
      SuffixEnds(line[..n], word);
      TrimRightUnique(line, TRAILING, n);
    }
  }

  /** A line is a detection exactly when it ends in " FOUND", and an error exactly
      when it ends in " ERROR" or is that word alone, before trimmed bytes. */
  lemma ReplyForms(line: bytes)
    ensures ParseScanResponse(line).Infected? <==> EndsIn(line, FOUND)
    ensures ParseScanResponse(line).Failed?
       <==> EndsIn(line, ERROR) || exists n: nat :: CutAt(line, n) && line[..n] == ERROR_WORD
  {
    hide TrimRight, HasSuffix, SignatureOf, IsSizeLimitMessage, EndsIn;
    var t := TrimRight(line, TRAILING);
    assert |FOUND| == 6 && FOUND[5] == 0x44 && |ERROR| == 6 && ERROR[5] == 0x52;
    assert |ERROR_WORD| == 5 && ERROR_WORD[4] == 0x52;
    EndsInTrimmed(line, FOUND);
    EndsInTrimmed(line, ERROR);
    SuffixEnds(t, FOUND);
    SuffixEnds(t, ERROR);
    assert CutAt(line, |t|) && line[..|t|] == t;
    forall n: nat | CutAt(line, n) && line[..n] == ERROR_WORD
      ensures t == ERROR_WORD
    {
      assert line[n - 1] == line[..n][n - 1];
      TrimRightUnique(line, TRAILING, n);
    }
  }

  // ---- the size limit ---------------------------------------------------------------------

  /** The same letter, or its upper-case form. */
  predicate SameLetter(b: byte, lower: byte) {
    b == lower || (0x41 <= b <= 0x5a && b + 0x20 == lower)
  }

  ghost predicate MentionsAt(message: bytes, k: nat) {
    && k + |SIZE_LIMIT| <= |message|
    && forall i | 0 <= i < |SIZE_LIMIT| :: SameLetter(message[k + i], SIZE_LIMIT[i])
  }

  lemma SizeLimitBytes()
    ensures |SIZE_LIMIT| == 19
    ensures forall i | 0 <= i < |SIZE_LIMIT| :: SIZE_LIMIT[i] == SPACE || SIZE_LIMIT[i] > 0x5a
  {
  }

  /** A message is about the size limit exactly when the phrase occurs in it, in
      upper or lower case. */
  lemma SizeLimitMentioned(message: bytes)
    ensures IsSizeLimitMessage(message) <==> exists k: nat :: MentionsAt(message, k)
  {
    SizeLimitBytes();
    var low := ToLower(message);
    forall k: nat
      ensures OccursAt(low, SIZE_LIMIT, k) <==> MentionsAt(message, k)
    {
      if k + |SIZE_LIMIT| <= |message| {
        var piece := low[k..k + |SIZE_LIMIT|];
        assert forall i | 0 <= i < |SIZE_LIMIT| :: piece[i] == low[k + i];
        if MentionsAt(message, k) {
          assert piece == SIZE_LIMIT;
        }
      }
    }
    if exists k: nat :: MentionsAt(message, k) {
      var k: nat :| MentionsAt(message, k);
      assert OccursAt(low, SIZE_LIMIT, k);
    }
  }

  /** The flag of an ERROR reply says whether its message mentions the limit. */
  lemma FlagMeansMention(line: bytes)
    ensures var r := ParseScanResponse(line);
            r.Failed? ==> (r.sizeLimit <==> exists k: nat :: MentionsAt(r.message, k))
  {
    hide TrimRight, TrimSpace, IsSizeLimitMessage, HasSuffix;
    var r := ParseScanResponse(line);
    if r.Failed? {
      SizeLimitMentioned(r.message);
      SizeLimitMentioned([]);
      SizeLimitBytes();
    }
  }

  /** A message as it can stand before " ERROR": one line, no NUL, no blank ends. */
  ghost predicate PlainMessage(message: bytes) {
    && message != [] && |message| + 6 <= MAX_LINE_RESPONSE
    && (forall i | 0 <= i < |message| :: message[i] !in END_OF_LINE && message[i] != NUL)
    && message[0] !in WHITESPACE && message[|message| - 1] !in WHITESPACE
  }

  lemma ErrorLineEnds(message: bytes)
    requires PlainMessage(message)
    ensures var line := message + ERROR;
            && |line| == |message| + 6 && line[|line| - 1] == 0x52
            && line[..|message|] == message && line[|message|..] == ERROR
            && forall i | 0 <= i < |line| :: line[i] !in END_OF_LINE && line[i] != NUL
  {
    assert ERROR[5] == 0x52 && |ERROR| == 6;
    assert forall i | 0 <= i < 6 :: ERROR[i] !in END_OF_LINE && ERROR[i] != NUL;
  }

  /** An ERROR reply is read whole up to its NUL ... */
  lemma ErrorReplyRead(message: bytes, stopped: Option<Error>)
    requires PlainMessage(message)
    ensures LineSpec(message + ERROR + [0], stopped, MAX_LINE_RESPONSE) == LineResult(message + ERROR, true, None)
  {
    hide TrimRight;
    ErrorLineEnds(message);
    var line := message + ERROR;
    IndexIsFirst(line + [0], {NUL}, |line|);
    assert (line + [0])[..|line|] == line && line[..|line|] == line;
    TrimRightUnique(line, END_OF_LINE, |line|);
  }

  /** ... and classified as a failure with its message. */
  lemma ErrorReplyClassified(message: bytes)
    requires PlainMessage(message)
    ensures ParseScanResponse(message + ERROR) == Response.Failed(message, IsSizeLimitMessage(message))
  {
    hide IsSizeLimitMessage, TrimRight, TrimLeft;
    ErrorLineEnds(message);
    var line := message + ERROR;
    assert line[..|line|] == line && message[..|message|] == message;
    TrimRightUnique(line, TRAILING, |line|);
    assert FOUND[5] == 0x44;
    SuffixByte(line, FOUND, 5);
    assert |ERROR_WORD| == 5;
    TrimRightUnique(message, WHITESPACE, |message|);
    NothingToTrim(message);
  }

  /** A detection yields its signature, without blanks around it: what follows the
      first ": ", whatever name stands before that, or all of it if there is none;
      and it is a detection even if nothing is left. */
  lemma FoundReplyClassified(name: Option<bytes>, l: bytes, signature: bytes, r: bytes)
    requires Blank(l) && Blank(r)
    requires signature != [] ==> signature[0] !in WHITESPACE && signature[|signature| - 1] !in WHITESPACE
    requires name.Some? ==> forall k | 0 <= k < |name.value| :: !OccursAt(name.value + COLON, COLON, k)
    requires name.None? ==> forall k :: !OccursAt(l + signature + r, COLON, k)
    ensures ParseScanResponse((if name.Some? then name.value + COLON else []) + (l + signature + r) + FOUND)
         == Infected(signature)
  {
    hide TrimSpace, SignatureOf, ParseScanResponse;
    var text := l + signature + r;
    FoundLine((if name.Some? then name.value + COLON else []) + text);
    SignatureAfter(name, text);
    TrimSpaceBetween(l, signature, r);
  }

  lemma FoundLine(found: bytes)
    ensures ParseScanResponse(found + FOUND) == Infected(SignatureOf(found))
  {
    hide TrimRight, SignatureOf;
    var line := found + FOUND;
    assert |FOUND| == 6 && FOUND[5] == 0x44;
    assert line[|line| - 1] == 0x44 && line[..|line|] == line;
    TrimRightUnique(line, TRAILING, |line|);
    assert line[..|line| - 6] == found && line[|line| - 6..] == FOUND;
  }

  lemma SignatureAfter(name: Option<bytes>, text: bytes)
    requires name.Some? ==> forall k | 0 <= k < |name.value| :: !OccursAt(name.value + COLON, COLON, k)
    requires name.None? ==> forall k :: !OccursAt(text, COLON, k)
    ensures SignatureOf((if name.Some? then name.value + COLON else []) + text) == TrimSpace(text)
  {
    hide TrimSpace, Index;
    assert |COLON| == 2;
    if name.Some? {
      var head := name.value + COLON;
      var found := head + text;
      assert OccursAt(found, COLON, |name.value|);
      forall k | 0 <= k < |name.value|
        ensures !OccursAt(found, COLON, k)
      {
        assert !OccursAt(head, COLON, k);
        assert found[k..k + 2] == head[k..k + 2];
      }
      assert found[|name.value| + 2..] == text;
    } else {
      assert [] + text == text;
    }
  }

  /** ERROR alone is an error with an empty message. */
  lemma BareErrorClassified(blanks: bytes)
    requires forall i | 0 <= i < |blanks| :: blanks[i] in TRAILING
    ensures ParseScanResponse(ERROR_WORD + blanks) == Failed([], false)
  {
    hide TrimRight;
    var line := ERROR_WORD + blanks;
    assert |ERROR_WORD| == 5 && ERROR_WORD[4] == 0x52;
    assert line[..5] == ERROR_WORD && line[4] == 0x52;
    assert forall i | 5 <= i < |line| :: line[i] == blanks[i - 5];
    TrimRightUnique(line, TRAILING, 5);
    assert |FOUND| == 6;
  }
}

/** Go error values as trees, the searches of `errors.Is` and `errors.As` over
    them, and the retry classification built on those searches. */
module Errors {
  import opened Bytes

  /** Values compared by identity: the package-level error variables involved. */
  datatype Sentinel =
    | Eof | UnexpectedEof | NoProgress | ShortWrite | InvalidRead | NilConnection
    | StreamTooLong | ResponseTooLarge | MalformedReply
    | Canceled | DeadlineExceeded | SizeLimitExceeded
    | Foreign(id: nat)

  datatype Op = Dial | Write | Read

  datatype Note = Reply(line: bytes) | ReplyExceedsLimit | MultiLineReply | UnterminatedOk

  datatype Error =
    | Is(what: Sentinel)
    | SourceError(err: Error)
    | SinkError(err: Error)
    | SourceAborted(err: Error)
    | ConnectionError(op: Op, err: Error)
    | ClamdError(message: bytes)
    | ProtocolError(response: Note)
    | Wrapped(causes: seq<Error>)  // fmt.Errorf with %w verbs, errors.Join

  const EOF := Is(Eof)

  /** What `Unwrap` yields. */
  function Causes(e: Error): seq<Error> {
    match e
    case SourceError(c) => [c]
    case SinkError(c) => [c]
    case SourceAborted(c) => [c]
    case ConnectionError(_, c) => [c]
    case Wrapped(cs) => cs
    case _ => []
  }

  /** The first node, depth first, that satisfies `p`: the loop of errors.As. */
  function Find(e: Error, p: Error -> bool): (found: Option<Error>)
    ensures found.Some? ==> p(found.value)
    decreases e, 0
  {
    if p(e) then Some(e)
    else
      match e
      case SourceError(c) => Find(c, p)
      case SinkError(c) => Find(c, p)
      case SourceAborted(c) => Find(c, p)
      case ConnectionError(_, c) => Find(c, p)
      case Wrapped(cs) => FindIn(cs, p)
      case _ => None
  }

  function FindIn(cs: seq<Error>, p: Error -> bool): (found: Option<Error>)
    ensures found.Some? ==> p(found.value)
    decreases cs, 1
  {
    if cs == [] then None
    else
      var first := Find(cs[0], p);
      if first.Some? then first else FindIn(cs[1..], p)
  }

  predicate IsA(e: Error, s: Sentinel) {
    Find(e, x => x == Is(s)).Some?
  }

  predicate As(e: Error, p: Error -> bool) {
    Find(e, p).Some?
  }

  const IS_CLAMD: Error -> bool := (x: Error) => x.ClamdError?
  const IS_PROTOCOL: Error -> bool := (x: Error) => x.ProtocolError?
  const IS_CONNECTION: Error -> bool := (x: Error) => x.ConnectionError?
  const IS_SOURCE: Error -> bool := (x: Error) => x.SourceError?
  const IS_SINK: Error -> bool := (x: Error) => x.SinkError?
  const IS_ABORT: Error -> bool := (x: Error) => x.SourceAborted?

  predicate IsRetryable(err: Option<Error>) {
    if err.None? then false
    else if IsA(err.value, Canceled) then false
    else if IsA(err.value, SizeLimitExceeded) then false
    else if IsA(err.value, DeadlineExceeded) then true
    else if As(err.value, IS_CLAMD) || As(err.value, IS_PROTOCOL) then false
    else As(err.value, IS_CONNECTION)
  }

  // ---- the searches find exactly what occurs in the tree --------------------------

  /** The node reached from the root by a path of child indices, if there is one. */
  function NodeAt(e: Error, path: seq<nat>): Option<Error>
    decreases |path|
  {
    if path == [] then Some(e)
    else if path[0] < |Causes(e)| then NodeAt(Causes(e)[path[0]], path[1..])
    else None
  }

  ghost predicate Occurs(e: Error, p: Error -> bool) {
    exists path: seq<nat> :: NodeAt(e, path).Some? && p(NodeAt(e, path).value)
  }

  lemma {:induction false} FindOnPath(e: Error, p: Error -> bool, path: seq<nat>)
    requires NodeAt(e, path).Some? && p(NodeAt(e, path).value)
    ensures Find(e, p).Some?
    decreases |path|
  {
    if path != [] {
      var c := Causes(e)[path[0]];
      FindOnPath(c, p, path[1..]);
      if e.Wrapped? {
        FindAmong(e.causes, p, path[0]);
      }
    }
  }

  lemma {:induction false} FindAmong(cs: seq<Error>, p: Error -> bool, i: nat)
    requires i < |cs| && Find(cs[i], p).Some?
    ensures FindIn(cs, p).Some?
    decreases |cs|
  {
    if i > 0 {
      FindAmong(cs[1..], p, i - 1);
    }
  }

  lemma {:induction false} PathFound(e: Error, p: Error -> bool) returns (path: seq<nat>)
    requires Find(e, p).Some?
    ensures NodeAt(e, path) == Find(e, p)
    decreases e, 0
  {
    if p(e) {
      path := [];
    } else if e.Wrapped? {
      path := PathFoundIn(e.causes, p);
      assert Causes(e) == e.causes;
    } else {
      var tail := PathFound(Causes(e)[0], p);
      path := [0] + tail;
      assert path[1..] == tail;
    }
  }

  lemma {:induction false} PathFoundIn(cs: seq<Error>, p: Error -> bool) returns (path: seq<nat>)
    requires FindIn(cs, p).Some?
    ensures path != [] && path[0] < |cs| && NodeAt(cs[path[0]], path[1..]) == FindIn(cs, p)
    decreases cs, 1
  {
    if Find(cs[0], p).Some? {
      var tail := PathFound(cs[0], p);
      path := [0] + tail;
      assert path[1..] == tail;
    } else {
      var tail := PathFoundIn(cs[1..], p);
      path := [tail[0] + 1] + tail[1..];
      assert path[1..] == tail[1..];
    }
  }

  /** errors.Is and errors.As succeed exactly when the tree holds a match. */
  lemma FindIffOccurs(e: Error, p: Error -> bool)
    ensures Find(e, p).Some? <==> Occurs(e, p)
  {
    if Find(e, p).Some? {
      var path := PathFound(e, p);
      assert p(NodeAt(e, path).value);
    }
    if Occurs(e, p) {
      var path: seq<nat> :| NodeAt(e, path).Some? && p(NodeAt(e, path).value);
      FindOnPath(e, p, path);
    }
  }

  /** Every wrapper leads to what it wraps, and only those do. */
  lemma WrappersUnwrap(e: Error)
    ensures forall op :: e in Causes(ConnectionError(op, e))
    ensures e in Causes(SourceError(e)) && e in Causes(SinkError(e)) && e in Causes(SourceAborted(e))
    ensures forall cs | e in cs :: e in Causes(Wrapped(cs))
    ensures e.Is? || e.ClamdError? || e.ProtocolError? ==> Causes(e) == []
  {
  }

  /** Of several matches errors.As takes the first: the node itself before what it
      wraps, and earlier siblings before later ones. */
  lemma {:induction false} FindFirst(left: seq<Error>, e: Error, right: seq<Error>, p: Error -> bool)
    requires forall i | 0 <= i < |left| :: Find(left[i], p).None?
    requires Find(e, p).Some?
    ensures FindIn(left + [e] + right, p) == Find(e, p)
    ensures Find(Wrapped(left + [e] + right), p)
         == if p(Wrapped(left + [e] + right)) then Some(Wrapped(left + [e] + right)) else Find(e, p)
    decreases |left|
  {
    var cs := left + [e] + right;
    if left == [] {
      assert cs[0] == e;
    } else {
      FindFirst(left[1..], e, right, p);
      assert cs[0] == left[0] && cs[1..] == left[1..] + [e] + right;
    }
  }

  ghost predicate Holds(e: Error, s: Sentinel) {
    Occurs(e, x => x == Is(s))
  }

  /** The retry decision in terms of what occurs anywhere in the tree. */
  lemma RetryableFormula(e: Error)
    ensures IsRetryable(Some(e)) <==>
              && !Holds(e, Canceled) && !Holds(e, SizeLimitExceeded)
              && (Holds(e, DeadlineExceeded)
                  || (Occurs(e, IS_CONNECTION) && !Occurs(e, IS_CLAMD) && !Occurs(e, IS_PROTOCOL)))
  {
    FindIffOccurs(e, x => x == Is(Canceled));
    FindIffOccurs(e, x => x == Is(SizeLimitExceeded));
    FindIffOccurs(e, x => x == Is(DeadlineExceeded));
    FindIffOccurs(e, IS_CLAMD);
    FindIffOccurs(e, IS_PROTOCOL);
    FindIffOccurs(e, IS_CONNECTION);
  }

  // ---- wrapping ----------------------------------------------------------------

  /** The nodes the classification looks for. */
  predicate Decisive(x: Error) {
    || x == Is(Canceled) || x == Is(SizeLimitExceeded) || x == Is(DeadlineExceeded)
    || x.ClamdError? || x.ProtocolError? || x.ConnectionError?
  }

  ghost predicate Inert(e: Error) {
    Find(e, Decisive).None?
  }

  lemma {:induction false} InertHasNone(e: Error, p: Error -> bool)
    requires Inert(e) && forall x :: p(x) ==> Decisive(x)
    ensures Find(e, p).None?
  {
    if Find(e, p).Some? {
      var path := PathFound(e, p);
      FindOnPath(e, Decisive, path);
    }
  }

  lemma {:induction false} FindAmongInert(left: seq<Error>, e: Error, right: seq<Error>, p: Error -> bool)
    requires forall x :: p(x) ==> Decisive(x)
    requires forall i | 0 <= i < |left| :: Inert(left[i])
    requires forall i | 0 <= i < |right| :: Inert(right[i])
    ensures FindIn(left + [e] + right, p) == Find(e, p)
    decreases |left|
  {
    var cs := left + [e] + right;
    if left == [] {
      assert cs[0] == e && cs[1..] == right;
      if Find(e, p).None? {
        NoneAmongInert(right, p);
      }
    } else {
      InertHasNone(left[0], p);
      FindAmongInert(left[1..], e, right, p);
      assert cs[0] == left[0] && cs[1..] == left[1..] + [e] + right;
    }
  }

  lemma {:induction false} NoneAmongInert(cs: seq<Error>, p: Error -> bool)
    requires forall x :: p(x) ==> Decisive(x)
    requires forall i | 0 <= i < |cs| :: Inert(cs[i])
    ensures FindIn(cs, p).None?
  {
    if cs != [] {
      InertHasNone(cs[0], p);
      NoneAmongInert(cs[1..], p);
    }
  }

  lemma FindWrapped(left: seq<Error>, e: Error, right: seq<Error>, p: Error -> bool)
    requires forall x :: p(x) ==> Decisive(x)
    requires forall i | 0 <= i < |left| :: Inert(left[i])
    requires forall i | 0 <= i < |right| :: Inert(right[i])
    ensures Find(Wrapped(left + [e] + right), p) == Find(e, p)
  {
    hide Inert;
    FindAmongInert(left, e, right, p);
    assert !p(Wrapped(left + [e] + right));
  }

  /** Wrapping an error, alone or beside inert siblings, does not change the
      decision. */
  lemma WrapKeepsRetryable(left: seq<Error>, e: Error, right: seq<Error>)
    requires forall i | 0 <= i < |left| :: Inert(left[i])
    requires forall i | 0 <= i < |right| :: Inert(right[i])
    ensures IsRetryable(Some(Wrapped(left + [e] + right))) == IsRetryable(Some(e))
  {
    hide Find, Inert;
    FindWrapped(left, e, right, x => x == Is(Canceled));
    FindWrapped(left, e, right, x => x == Is(SizeLimitExceeded));
    FindWrapped(left, e, right, x => x == Is(DeadlineExceeded));
    FindWrapped(left, e, right, IS_CLAMD);
    FindWrapped(left, e, right, IS_PROTOCOL);
    FindWrapped(left, e, right, IS_CONNECTION);
  }

  /** `n` single-cause wraps around an error. */
  function Rewrapped(e: Error, n: nat): Error {
    if n == 0 then e else Wrapped([Rewrapped(e, n - 1)])
  }

  lemma {:induction false} RewrapKeepsRetryable(e: Error, n: nat)
    ensures IsRetryable(Some(Rewrapped(e, n))) == IsRetryable(Some(e))
  {
    if n > 0 {
      var inner := Rewrapped(e, n - 1);
      RewrapKeepsRetryable(e, n - 1);
      WrapKeepsRetryable([], inner, []);
      assert [] + [inner] + [] == [inner];
    }
  }

  // ---- errors from outside ------------------------------------------------------

  /** None of the errors that the streaming code makes for its caller alone occur
      in the tree, so none of its own searches is misled. */
  ghost predicate NotOurs(e: Error) {
    !As(e, IS_SOURCE) && !As(e, IS_ABORT) && !IsA(e, StreamTooLong)
  }

  /** An error that this package had no part in. */
  ghost predicate Outside(e: Error) {
    NotOurs(e) && Inert(e) && !IsA(e, ResponseTooLarge) && !IsA(e, MalformedReply)
  }
}

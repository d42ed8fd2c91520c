/**
 Reassembling lines from a stream that arrives in chunks.  The pieces between the newlines of a text are defined
 first, and shown to be the only ones that rebuild it.  The handler splits what it has with getline, keeps what
 follows the last newline for the next call, and drops empty lines; over any chunks it handles the lines of the
 whole stream.
 */
module LineFlow {
  import opened Bytes

  /** What stands between the newlines of a text: one piece more than there are newlines. */
  function Pieces(s: bytes): (p: seq<bytes>)
    ensures |p| >= 1
  {
    if s == [] then [[]]
    else if s[0] == LF then [[]] + Pieces(s[1..])
    else Grown(s[0], Pieces(s[1..]))
  }

  /** The first piece with a byte in front. */
  function Grown(b: byte, p: seq<bytes>): (r: seq<bytes>)
    requires |p| >= 1
    ensures |r| == |p| && r[0] == [b] + p[0] && r[1..] == p[1..]
  {
    [[b] + p[0]] + p[1..]
  }

  function JoinLines(p: seq<bytes>): bytes
    requires |p| >= 1
  {
    if |p| == 1 then p[0] else p[0] + [LF] + JoinLines(p[1..])
  }

  /** The pieces determine the text, and there is no newline in them: they are the only such pieces. */
  lemma {:induction false} PiecesAreExact(s: bytes)
    ensures JoinLines(Pieces(s)) == s
    ensures forall p | p in Pieces(s) :: LF !in p
  {
    if s != [] {
      PiecesAreExact(s[1..]);
      var p := Pieces(s[1..]);
      if s[0] != LF {
        assert |p| > 1 ==> [s[0]] + p[0] + [LF] + JoinLines(p[1..]) == [s[0]] + JoinLines(p);
      } else {
        assert ([[]] + p)[1..] == p;
      }
    }
  }

  lemma {:induction false} PiecesAreUnique(p: seq<bytes>)
    requires |p| >= 1 && forall q | q in p :: LF !in q
    ensures Pieces(JoinLines(p)) == p
    decreases |p|, |p[0]|
  {
    if p[0] != [] {
      var q := [p[0][1..]] + p[1..];
      assert JoinLines(p) == [p[0][0]] + JoinLines(q) by {
        assert q[1..] == p[1..];
        assert |p| > 1 ==> [p[0][0]] + (p[0][1..] + [LF] + JoinLines(p[1..])) == p[0] + [LF] + JoinLines(p[1..]);
      }
      assert JoinLines(p)[1..] == JoinLines(q);
      assert p[0] in p && p[0][0] in p[0];
      forall r | r in q
        ensures LF !in r
      {
        if r == p[0][1..] {
          assert forall b | b in r :: b in p[0];
        }
      }
      PiecesAreUnique(q);
      GrownBack(p);
    } else if |p| > 1 {
      assert JoinLines(p)[1..] == JoinLines(p[1..]);
      PiecesAreUnique(p[1..]);
    }
  }

  lemma GrownBack(p: seq<bytes>)
    requires |p| >= 1 && p[0] != []
    ensures Grown(p[0][0], [p[0][1..]] + p[1..]) == p
  {
    var q := [p[0][1..]] + p[1..];
    assert q[1..] == p[1..] && [p[0][0]] + q[0] == p[0];
  }

  function Kept(line: bytes): seq<bytes> {
    if line == [] then [] else [line]
  }

  function NonEmpty(p: seq<bytes>): seq<bytes> {
    if p == [] then [] else Kept(p[0]) + NonEmpty(p[1..])
  }

  /** The non-empty lines that have ended, and the beginning of the next. */
  function Lines(s: bytes): seq<bytes> {
    var p := Pieces(s);
    NonEmpty(p[..|p| - 1])
  }

  function Tail(s: bytes): bytes {
    var p := Pieces(s);
    p[|p| - 1]
  }

  // ---------- splitting ----------

  lemma {:induction false} NonEmptyOfBoth(p: seq<bytes>, q: seq<bytes>)
    ensures NonEmpty(p + q) == NonEmpty(p) + NonEmpty(q)
  {
    hide Kept;
    if p == [] {
      assert p + q == q && [] + NonEmpty(q) == NonEmpty(q);
    } else {
      NonEmptyOfBoth(p[1..], q);
      assert (p + q)[1..] == p[1..] + q;
      Regroup(Kept(p[0]), NonEmpty(p[1..]), NonEmpty(q));
    }
  }

  /** A text up to its first newline, and what follows. */
  lemma {:induction false} FirstLine(s: bytes, n: nat)
    requires n <= |s| && LF !in s[..n]
    ensures n == |s| ==> Pieces(s) == [s]
    ensures n < |s| && s[n] == LF ==> Pieces(s) == [s[..n]] + Pieces(s[n + 1..])
  {
    if n == 0 {
      if s != [] {
        assert s[..0] == [];
      }
    } else {
      assert s[0] in s[..n] && s[1..][..n - 1] == s[..n][1..];
      FirstLine(s[1..], n - 1);
      assert [s[0]] + s[1..][..n - 1] == s[..n];
      if n < |s| {
        assert s[1..][n..] == s[n + 1..];
      }
      if n == |s| {
        assert [s[0]] + s[1..] == s;
      }
    }
  }

  /** std::getline: the text up to the next newline or the end; the stream stays good unless the end is met. */
  method GetLine(s: bytes, start: nat) returns (line: bytes, next: nat, good: bool)
    requires start <= |s|
    ensures start <= next <= |s|
    ensures if good then next > start && Pieces(s[start..]) == [line] + Pieces(s[next..])
            else Pieces(s[start..]) == [line]
  {
    hide Pieces;
    next := start;
    while next < |s| && s[next] != LF
      invariant start <= next <= |s| && LF !in s[start..next]
    {
      next := next + 1;
    }
    line := s[start..next];
    assert s[start..][..next - start] == line;
    assert next == |s| ==> s[start..] == line;
    FirstLine(s[start..], next - start);
    good := next < |s|;
    if good {
      assert s[start..][next - start + 1..] == s[next + 1..];
      next := next + 1;
    }
  }

  /** split_str */
  method SplitStr(s: bytes) returns (result: seq<bytes>)
    ensures result == NonEmpty(Pieces(s))
  {
    hide Pieces;
    result := [];
    var at, good := 0, true;
    assert s[0..] == s && [] + NonEmpty(Pieces(s)) == NonEmpty(Pieces(s));
    while good
      invariant 0 <= at <= |s|
      invariant NonEmpty(Pieces(s)) == if good then result + NonEmpty(Pieces(s[at..])) else result
      decreases |s| - at, good
    {
      ghost var was := at;
      var temp: bytes;
      temp, at, good := GetLine(s, at);
      OneLineMore(result, temp, if good then Pieces(s[at..]) else []);
      assert [temp] + [] == [temp];
      if temp != [] {
        result := result + [temp];
      }
    }
  }

  lemma {:induction false} OneLineMore(result: seq<bytes>, temp: bytes, more: seq<bytes>)
    ensures result + NonEmpty([temp] + more) == (if temp == [] then result else result + [temp]) + NonEmpty(more)
    ensures NonEmpty([]) == []
  {
    assert ([temp] + more)[1..] == more;
  }

  // ---------- the stream ----------

  /** Text that follows continues the last piece. */
  lemma {:induction false} PiecesOfBoth(a: bytes, b: bytes)
    ensures var p := Pieces(a);
            Pieces(a + b) == p[..|p| - 1] + Pieces(p[|p| - 1] + b)
  {
    hide Grown;
    var p := Pieces(a);
    if a == [] {
      assert a + b == b && p[0] + b == b;
      assert p[..0] + Pieces(b) == Pieces(b);
    } else {
      assert (a + b)[1..] == a[1..] + b;
      PiecesOfBoth(a[1..], b);
      var q := Pieces(a[1..]);
      if a[0] == LF {
        assert p[..|p| - 1] == [[]] + q[..|q| - 1];
        Regroup([[]], q[..|q| - 1], Pieces(q[|q| - 1] + b));
      } else {
        GrownOfBoth(a[0], q, b);
      }
    }
  }

  lemma {:induction false} GrownOfBoth(x: byte, q: seq<bytes>, b: bytes)
    requires |q| >= 1 && x != LF
    ensures var p := Grown(x, q);
            Grown(x, q[..|q| - 1] + Pieces(q[|q| - 1] + b)) == p[..|p| - 1] + Pieces(p[|p| - 1] + b)
  {
    var p := Grown(x, q);
    if |q| == 1 {
      assert q[..0] + Pieces(q[0] + b) == Pieces(q[0] + b);
      assert ([x] + q[0] + b)[1..] == q[0] + b;
      assert p[..0] + Pieces(p[0] + b) == Pieces(p[0] + b);
    } else {
      hide Pieces;
      assert p[..|p| - 1] == Grown(x, q[..|q| - 1]);
      assert p[|p| - 1] == q[|q| - 1];
      var r := Pieces(q[|q| - 1] + b);
      assert (q[..|q| - 1] + r)[1..] == q[..|q| - 1][1..] + r;
    }
  }

  /** The lines of a longer text are those there were and those of the tail and what follows. */
  lemma {:induction false} LinesOfBoth(a: bytes, b: bytes)
    ensures Lines(a + b) == Lines(a) + Lines(Tail(a) + b)
    ensures Tail(a + b) == Tail(Tail(a) + b)
  {
    hide Pieces;
    var p := Pieces(a);
    var q := Pieces(p[|p| - 1] + b);
    PiecesOfBoth(a, b);
    assert (p[..|p| - 1] + q)[..|p| + |q| - 2] == p[..|p| - 1] + q[..|q| - 1];
    NonEmptyOfBoth(p[..|p| - 1], q[..|q| - 1]);
  }

  lemma {:induction false} LastPiece(s: bytes)
    requires s != []
    ensures s[|s| - 1] == LF <==> Tail(s) == []
    ensures var all := NonEmpty(Pieces(s));
            if s[|s| - 1] == LF then all == Lines(s) else all == Lines(s) + [Tail(s)]
  {
    hide NonEmpty;
    var p := Pieces(s);
    TailEnds(s);
    assert p == p[..|p| - 1] + [p[|p| - 1]];
    NonEmptyOfBoth(p[..|p| - 1], [p[|p| - 1]]);
    NonEmptyOne(p[|p| - 1]);
    assert Lines(s) + [] == Lines(s);
  }

  lemma NonEmptyOne(x: bytes)
    ensures NonEmpty([x]) == if x == [] then [] else [x]
  {
  }

  lemma {:induction false} TailEnds(s: bytes)
    requires s != []
    ensures s[|s| - 1] == LF <==> Tail(s) == []
  {
    if |s| > 1 {
      TailEnds(s[1..]);
      TailStep(s);
    } else {
      assert Pieces(s[1..]) == [[]];
    }
  }

  /** What is after the last newline, and when a byte in front changes it. */
  lemma {:induction false} TailStep(s: bytes)
    requires |s| > 1
    ensures s[0] == LF || |Pieces(s[1..])| > 1 ==> Tail(s) == Tail(s[1..])
    ensures s[0] != LF && |Pieces(s[1..])| == 1 ==> Tail(s) == [s[0]] + Tail(s[1..])
  {
  }

  class LineFlowHandler {
    var partLine: bytes
    /** The lines given to handle_lines so far, and the bytes received. */
    ghost var handled: seq<bytes>
    ghost var stream: bytes

    ghost predicate Valid()
      reads this
    {
      handled == Lines(stream) && partLine == Tail(stream)
    }

    constructor ()
      ensures Valid() && stream == []
    {
      partLine, handled, stream := [], [], [];
    }

    method HandleLines(lines: seq<bytes>)
      modifies this`handled
      ensures handled == old(handled) + lines
    {
      handled := handled + lines;
    }

    /** do_handle, for a chunk that is not empty. */
    method DoHandle(flow: bytes)
      requires Valid() && flow != []
      modifies this
      ensures Valid() && stream == old(stream) + flow
    {
      hide Lines, Tail, Pieces, NonEmpty;
      LinesOfBoth(stream, flow);
      LastPiece(partLine + flow);
      stream := stream + flow;
      var flowStr: bytes := [];
      if partLine != [] {
        flowStr := flowStr + partLine;
        partLine := [];
      }
      flowStr := flowStr + flow;
      assert flowStr == old(partLine) + flow;
      var lines := SplitStr(flowStr);
      if flow[|flow| - 1] == LF {
        HandleLines(lines);
      } else {
        HandleLines(lines[..|lines| - 1]);
        partLine := lines[|lines| - 1];
      }
    }
  }

  /** However a stream is cut into chunks, its non-empty lines are handled, each once and in order. */
  method HandleAll(chunks: seq<bytes>) returns (handler: LineFlowHandler)
    requires forall c | c in chunks :: c != []
    ensures fresh(handler) && handler.Valid()
    ensures handler.handled == Lines(Concat(chunks)) && handler.partLine == Tail(Concat(chunks))
  {
    hide Lines, Tail;
    handler := new LineFlowHandler();
    var i := 0;
    while i < |chunks|
      invariant 0 <= i <= |chunks| && fresh(handler) && handler.Valid()
      invariant handler.stream + Concat(chunks[i..]) == Concat(chunks)
    {
      assert chunks[i..][0] == chunks[i] && chunks[i..][1..] == chunks[i + 1..];
      assert handler.stream + (chunks[i] + Concat(chunks[i + 1..]))
          == handler.stream + chunks[i] + Concat(chunks[i + 1..]);
      assert chunks[i] in chunks;
      handler.DoHandle(chunks[i]);
      i := i + 1;
    }
    assert handler.stream + [] == handler.stream;
  }
}

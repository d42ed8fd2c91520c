/**
 Quoting strings and splitting a line into words.  A quoted string shows every byte that is not printable as an
 escape, a word may be plain or stand in single or double quotes, and a closing quote must be followed by a blank
 or by the end of the line.  The splitter is a machine with three modes here, which the nested loops of the
 program are proved to follow; quoting words and splitting the line gives the words back.
 */
module SdsQuote {
  import opened Bytes

  const SPACE: byte := 32
  const QUOTE: byte := 34
  const APOSTROPHE: byte := 39
  const BACKSLASH: byte := 92

  predicate IsSpace(b: byte) {
    b == SPACE || 9 <= b <= 13
  }

  predicate IsPrintable(b: byte) {
    32 <= b <= 126
  }

  function HexByte(high: byte, low: byte): byte
    requires IsHexDigit(high) && IsHexDigit(low)
  {
    HexValue(high) * 16 + HexValue(low)
  }

  function HexDigit(v: nat): byte
    requires v < 16
  {
    if v < 10 then 48 + v else 87 + v
  }

  // ---------- quoting ----------

  /** The letter that stands for a control character after a backslash. */
  function Letter(b: byte): Option<byte> {
    if b == 10 then Some(110)
    else if b == 13 then Some(114)
    else if b == 9 then Some(116)
    else if b == 7 then Some(97)
    else if b == 8 then Some(98)
    else None
  }

  function Escape(b: byte): bytes {
    if b == BACKSLASH || b == QUOTE then [BACKSLASH, b]
    else if Letter(b).Some? then [BACKSLASH, Letter(b).value]
    else if IsPrintable(b) then [b]
    else [BACKSLASH, 120, HexDigit(b as int / 16), HexDigit(b as int % 16)]
  }

  function Escaped(s: bytes): bytes {
    if s == [] then [] else Escape(s[0]) + Escaped(s[1..])
  }

  function Repr(s: bytes): bytes {
    [QUOTE] + Escaped(s) + [QUOTE]
  }

  lemma {:induction false} EscapedMore(s: bytes, b: byte)
    ensures Escaped(s + [b]) == Escaped(s) + Escape(b)
  {
    hide Escape;
    if s == [] {
      assert [] + [b] == [b] && [b][1..] == [];
    } else {
      EscapedMore(s[1..], b);
      assert (s + [b])[1..] == s[1..] + [b];
    }
  }

  /** sdscatrepr */
  method CatRepr(s: bytes, p: bytes) returns (r: bytes)
    ensures r == s + Repr(p)
  {
    hide Escape;
    r := s + [QUOTE];
    var i := 0;
    while i < |p|
      invariant 0 <= i <= |p|
      invariant r == s + [QUOTE] + Escaped(p[..i])
    {
      EscapedMore(p[..i], p[i]);
      assert p[..i + 1] == p[..i] + [p[i]];
      r := r + Escape(p[i]);
      i := i + 1;
    }
    assert p[..|p|] == p;
    r := r + [QUOTE];
  }

  /** Whatever the bytes, the quoted form shows. */
  lemma {:induction false} ReprShows(s: bytes)
    ensures forall b | b in Repr(s) :: IsPrintable(b)
  {
    EscapedShows(s);
  }

  lemma {:induction false} EscapedShows(s: bytes)
    ensures forall b | b in Escaped(s) :: IsPrintable(b)
  {
    if s != [] {
      EscapedShows(s[1..]);
    }
  }

  /** What each byte costs: one for a letter, a digit and the like, two for a quote, a backslash and the five control
      characters with letters of their own, four for the rest. */
  function Cost(b: byte): nat {
    if b == 34 || b == 92 || b == 7 || b == 8 || b == 9 || b == 10 || b == 13 then 2
    else if 32 <= b <= 126 then 1
    else 4
  }

  function Costs(s: bytes): nat {
    if s == [] then 0 else Cost(s[0]) + Costs(s[1..])
  }

  lemma {:induction false} ReprLength(s: bytes)
    ensures |Repr(s)| == 2 + Costs(s)
    ensures (forall b | b in s :: Cost(b) == 1) ==> Repr(s) == [34] + s + [34]
  {
    EscapedLength(s);
  }

  lemma {:induction false} EscapedLength(s: bytes)
    ensures |Escaped(s)| == Costs(s)
    ensures (forall b | b in s :: Cost(b) == 1) ==> Escaped(s) == s
  {
    if s != [] {
      EscapedLength(s[1..]);
      assert |Escape(s[0])| == Cost(s[0]);
      if forall b | b in s :: Cost(b) == 1 {
        assert s[0] in s && Escape(s[0]) == [s[0]];
        assert s == [s[0]] + s[1..];
      }
    }
  }

  // ---------- splitting ----------

  datatype Mode = Plain | Quoted | Single

  datatype Token = Token(word: bytes, rest: bytes) | Bad

  /** The line ends at its first NUL, or at the NUL that follows it. */
  function Peek(s: bytes, k: nat): byte {
    if k < |s| then s[k] else 0
  }

  function Unescaped(b: byte): byte {
    if b == 110 then 10
    else if b == 114 then 13
    else if b == 116 then 9
    else if b == 98 then 8
    else if b == 97 then 7
    else b
  }

  predicate HexEscape(s: bytes) {
    Peek(s, 0) == BACKSLASH && Peek(s, 1) == 120 && IsHexDigit(Peek(s, 2)) && IsHexDigit(Peek(s, 3))
  }

  /** A closing quote must be followed by a blank or by the end. */
  predicate Closes(s: bytes) {
    Peek(s, 1) == 0 || IsSpace(Peek(s, 1))
  }

  /** One step inside a word: how it ends, or the bytes it adds, the bytes it takes and the mode it leaves. */
  datatype Turn = End(skip: nat) | Fail | Go(add: bytes, take: nat, mode: Mode)

  function Look(s: bytes, mode: Mode): (t: Turn)
    ensures t.Go? ==> 0 < t.take <= |s|
    ensures t.End? ==> t.skip <= 1 && t.skip <= |s|
    ensures t.End? && mode == Plain && Peek(s, 0) != 0 ==> t.skip == 1
  {
    var b := Peek(s, 0);
    match mode
    case Quoted =>
      if HexEscape(s) then Go([HexByte(s[2], s[3])], 4, Quoted)
      else if b == BACKSLASH && Peek(s, 1) != 0 then Go([Unescaped(s[1])], 2, Quoted)
      else if b == QUOTE then if Closes(s) then End(1) else Fail
      else if b == 0 then Fail
      else Go([b], 1, Quoted)
    case Single =>
      if b == BACKSLASH && Peek(s, 1) == APOSTROPHE then Go([APOSTROPHE], 2, Single)
      else if b == APOSTROPHE then if Closes(s) then End(1) else Fail
      else if b == 0 then Fail
      else Go([b], 1, Single)
    case Plain =>
      if b == SPACE || b == 10 || b == 13 || b == 9 then End(1)
      else if b == 0 then End(0)
      else if b == QUOTE then Go([], 1, Quoted)
      else if b == APOSTROPHE then Go([], 1, Single)
      else Go([b], 1, Plain)
  }

  function Word(s: bytes, mode: Mode, current: bytes): (t: Token)
    ensures t.Token? ==> |t.rest| <= |s|
    ensures t.Token? && mode == Plain && Peek(s, 0) != 0 ==> |t.rest| < |s|
    decreases |s|
  {
    match Look(s, mode)
    case End(skip) => Token(current, s[skip..])
    case Fail => Bad
    case Go(add, take, mode') => Word(s[take..], mode', current + add)
  }

  function SkipBlanks(s: bytes): (r: bytes)
    ensures |r| <= |s|
    ensures r == [] || !IsSpace(r[0])
  {
    if s != [] && IsSpace(s[0]) then SkipBlanks(s[1..]) else s
  }

  /** The words of a line, or None when a quote is not closed or is closed in the middle of a word. */
  function Words(s: bytes): Option<seq<bytes>>
    decreases |s|
  {
    var t := SkipBlanks(s);
    if Peek(t, 0) == 0 then Some([])
    else
      match Word(t, Plain, [])
      case Bad => None
      case Token(word, rest) =>
        match Words(rest)
        case None => None
        case Some(words) => Some([word] + words)
  }

  function Prepended(vector: seq<bytes>, r: Option<seq<bytes>>): Option<seq<bytes>> {
    match r
    case None => None
    case Some(words) => Some(vector + words)
  }

  /** sdssplitargs */
  method SplitArgs(line: bytes) returns (r: Option<seq<bytes>>)
    ensures r == Words(line)
  {
    hide Word, SkipBlanks;
    var p, vector: seq<bytes> := 0, [];
    assert line[0..] == line;
    assert Words(line).Some? ==> vector + Words(line).value == Words(line).value;
    while true
      invariant 0 <= p <= |line|
      invariant Words(line) == Prepended(vector, Words(line[p..]))
      decreases |line| - p
    {
      p := SkipFrom(line, p);
      if Peek(line[p..], 0) == 0 {
        assert vector + [] == vector;
        return Some(vector);
      }
      var current, next := ReadWord(line, p);
      if current == None {
        return None;
      }
      ghost var rest := Words(line[next..]);
      if rest.Some? {
        assert vector + [current.value] + rest.value == vector + ([current.value] + rest.value);
      }
      vector := vector + [current.value];
      p := next;
    }
  }

  method SkipFrom(line: bytes, start: nat) returns (p: nat)
    requires start <= |line|
    ensures start <= p <= |line| && line[p..] == SkipBlanks(line[start..])
  {
    p := start;
    while p < |line| && IsSpace(line[p])
      invariant start <= p <= |line|
      invariant SkipBlanks(line[p..]) == SkipBlanks(line[start..])
    {
      assert line[p..][1..] == line[p + 1..];
      p := p + 1;
    }
  }

  /** Reads one word; None stands for a misplaced or missing quote. */
  method ReadWord(line: bytes, start: nat) returns (word: Option<bytes>, p: nat)
    requires start < |line| && line[start] != 0
    ensures start <= p <= |line|
    ensures match Word(line[start..], Plain, [])
            case Bad => word == None
            case Token(w, rest) => word == Some(w) && rest == line[p..] && p > start
  {
    hide Word;
    p := start;
    var current: bytes := [];
    var inq, insq, done := false, false, false;
    while !done
      invariant start <= p <= |line|
      invariant !(inq && insq)
      invariant !done ==> Word(line[start..], Plain, []) == Word(line[p..], ModeOf(inq, insq), current)
      invariant done ==> Word(line[start..], Plain, []) == Token(current, line[p..])
      decreases |line| - p, !done
    {
      WordStep(line, p, ModeOf(inq, insq), current);
      if inq {
        if At(line, p) == BACKSLASH && At(line, p + 1) == 120
          && IsHexDigit(At(line, p + 2)) && IsHexDigit(At(line, p + 3)) {
          current := current + [HexByte(line[p + 2], line[p + 3])];
          p := p + 3;
        } else if At(line, p) == BACKSLASH && At(line, p + 1) != 0 {
          p := p + 1;
          current := current + [Unescaped(line[p])];
        } else if At(line, p) == QUOTE {
          if !(At(line, p + 1) == 0 || IsSpace(At(line, p + 1))) {
            return None, p;
          }
          done := true;
        } else if At(line, p) == 0 {
          return None, p;
        } else {
          current := current + [line[p]];
        }
      } else if insq {
        if At(line, p) == BACKSLASH && At(line, p + 1) == APOSTROPHE {
          p := p + 1;
          current := current + [APOSTROPHE];
        } else if At(line, p) == APOSTROPHE {
          if !(At(line, p + 1) == 0 || IsSpace(At(line, p + 1))) {
            return None, p;
          }
          done := true;
        } else if At(line, p) == 0 {
          return None, p;
        } else {
          current := current + [line[p]];
        }
      } else {
        match At(line, p)
        case 32 | 10 | 13 | 9 | 0 =>
          done := true;
        case 34 =>
          inq := true;
        case 39 =>
          insq := true;
        case _ =>
          current := current + [line[p]];
      }
      if At(line, p) != 0 {
        p := p + 1;
      }
    }
    return Some(current), p;
  }

  function ModeOf(inq: bool, insq: bool): Mode {
    if inq then Quoted else if insq then Single else Plain
  }

  function At(line: bytes, p: nat): byte {
    if p < |line| then line[p] else 0
  }

  lemma {:induction false} WordStep(line: bytes, p: nat, mode: Mode, current: bytes)
    requires p <= |line|
    ensures var s := line[p..];
            && (forall k: nat :: Peek(s, k) == At(line, p + k))
            && Word(s, mode, current)
               == match Look(s, mode)
                  case End(skip) => Token(current, line[p + skip..])
                  case Fail => Bad
                  case Go(add, take, next) => Word(line[p + take..], next, if add == [] then current else current + add)
  {
    hide Look;
    var s := line[p..];
    match Look(s, mode)
    case End(skip) => assert s[skip..] == line[p + skip..];
    case Fail =>
    case Go(add, take, next) =>
      assert s[take..] == line[p + take..];
      assert add == [] ==> current + add == current;
  }

  // ---------- the round trip ----------

  lemma {:induction false} EscapeIsRead(b: byte, rest: bytes, current: bytes)
    ensures Word(Escape(b) + rest, Quoted, current) == Word(rest, Quoted, current + [b])
  {
    var s := Escape(b) + rest;
    assert Look(s, Quoted) == Go([b], |Escape(b)|, Quoted);
    assert s[|Escape(b)|..] == rest;
  }

  lemma {:induction false} EscapedIsRead(a: bytes, rest: bytes, current: bytes)
    requires rest != [] && rest[0] == QUOTE && Closes(rest)
    ensures Word(Escaped(a) + rest, Quoted, current) == Token(current + a, rest[1..])
    decreases |a|
  {
    hide Escape, Closes;
    if a == [] {
      assert Escaped(a) + rest == rest && current + a == current;
      assert !HexEscape(rest);
    } else {
      assert Escaped(a) + rest == Escape(a[0]) + (Escaped(a[1..]) + rest);
      EscapeIsRead(a[0], Escaped(a[1..]) + rest, current);
      EscapedIsRead(a[1..], rest, current + [a[0]]);
      assert current + [a[0]] + a[1..] == current + a;
    }
  }

  /** Space, tab, line feed, vertical tab, form feed and carriage return. */
  predicate IsBlank(b: byte) { b == 32 || b == 9 || b == 10 || b == 11 || b == 12 || b == 13 }

  predicate StartsBlank(s: bytes) {
    s == [] || IsBlank(s[0])
  }

  lemma {:induction false} ReprIsRead(a: bytes, tail: bytes)
    requires StartsBlank(tail)
    ensures Words(Repr(a) + tail) == Prepended([a], Words(tail))
  {
    hide Escaped, Prepended;
    var s := Repr(a) + tail;
    var rest := [QUOTE] + tail;
    assert s[1..] == Escaped(a) + rest;
    EscapedIsRead(a, rest, []);
    assert rest[1..] == tail && [] + a == a;
    QuoteOpens(s);
    assert Word(s, Plain, []) == Token(a, tail);
    WordsUnfold(s, a, tail);
  }

  lemma {:induction false} QuoteOpens(s: bytes)
    requires s != [] && s[0] == QUOTE
    ensures Word(s, Plain, []) == Word(s[1..], Quoted, [])
  {
    var none: bytes := [];
    assert none + none == none;
  }

  lemma WordsUnfold(s: bytes, word: bytes, rest: bytes)
    requires s != [] && s[0] != 0 && !IsBlank(s[0]) && Word(s, Plain, []) == Token(word, rest)
    ensures Words(s) == Prepended([word], Words(rest))
  {
    hide Word;
  }

  ghost predicate Blank(gap: bytes) {
    forall b | b in gap :: IsBlank(b)
  }

  lemma {:induction false} GapIsSkipped(gap: bytes, s: bytes)
    requires Blank(gap)
    ensures SkipBlanks(gap + s) == SkipBlanks(s)
    ensures Words(gap + s) == Words(s)
  {
    if gap == [] {
      assert gap + s == s;
    } else {
      assert (gap + s)[0] == gap[0] && (gap + s)[1..] == gap[1..] + s;
      assert IsBlank(gap[0]) && forall b | b in gap[1..] :: b in gap;
      GapIsSkipped(gap[1..], s);
    }
  }

  /** A line of quoted words with blanks before, between and after them. */
  function Line(gaps: seq<bytes>, args: seq<bytes>): bytes
    requires |gaps| == |args| + 1
    decreases |args|
  {
    if args == [] then gaps[0] else gaps[0] + (Repr(args[0]) + Line(gaps[1..], args[1..]))
  }

  /** Between two words there must be a blank. */
  ghost predicate Separated(gaps: seq<bytes>) {
    && (forall i | 0 <= i < |gaps| :: Blank(gaps[i]))
    && (forall i | 1 <= i < |gaps| - 1 :: gaps[i] != [])
  }

  /** Quoted words come back exactly, whatever bytes they hold and whatever blanks stand around them. */
  lemma {:induction false} QuotedLineIsSplit(gaps: seq<bytes>, args: seq<bytes>)
    requires |gaps| == |args| + 1 && Separated(gaps)
    ensures Words(Line(gaps, args)) == Some(args)
    decreases |args|
  {
    hide Words, Repr;
    if args == [] {
      GapIsSkipped(gaps[0], []);
      assert gaps[0] + [] == gaps[0];
      EmptyLine();
    } else {
      var tail := Line(gaps[1..], args[1..]);
      assert Separated(gaps[1..]);
      QuotedLineIsSplit(gaps[1..], args[1..]);
      assert StartsBlank(tail) by {
        assert Blank(gaps[1]);
        assert |args| > 1 ==> gaps[1] != [] && tail[0] == gaps[1][0];
      }
      GapIsSkipped(gaps[0], Repr(args[0]) + tail);
      ReprIsRead(args[0], tail);
      assert [args[0]] + args[1..] == args;
    }
  }

  lemma EmptyLine()
    ensures Words([]) == Some([])
  {
  }

  /** Joined by single spaces. */
  function Joined(args: seq<bytes>): bytes {
    if |args| == 0 then []
    else if |args| == 1 then Repr(args[0])
    else Repr(args[0]) + [SPACE] + Joined(args[1..])
  }

  lemma {:induction false} JoinedIsLine(args: seq<bytes>, gap: bytes)
    requires args != []
    ensures Line([gap] + seq(|args| - 1, i requires 0 <= i < |args| - 1 => [SPACE]) + [[]], args) == gap + Joined(args)
    decreases |args|
  {
    hide Repr;
    var n := |args| - 1;
    var gaps := [gap] + seq(n, i requires 0 <= i < n => [SPACE]) + [[]];
    if n == 0 {
      assert gaps[1..] == [[]];
      assert Line([[]], []) == [];
      assert Repr(args[0]) + [] == Repr(args[0]);
    } else {
      var inner := [[SPACE]] + seq(n - 1, i requires 0 <= i < n - 1 => [SPACE]) + [[]];
      assert gaps[1..] == inner;
      JoinedIsLine(args[1..], [SPACE]);
      assert Repr(args[0]) + ([SPACE] + Joined(args[1..])) == Repr(args[0]) + [SPACE] + Joined(args[1..]);
    }
  }

  lemma {:induction false} JoinedIsSplit(args: seq<bytes>)
    ensures Words(Joined(args)) == Some(args)
  {
    hide Words, Repr, Line;
    if args == [] {
      EmptyLine();
    } else {
      var gaps := [[]] + seq(|args| - 1, i requires 0 <= i < |args| - 1 => [SPACE]) + [[]];
      JoinedIsLine(args, []);
      QuotedLineIsSplit(gaps, args);
      assert [] + Joined(args) == Joined(args);
    }
  }

  /** So two strings with the same quoted form are the same. */
  lemma {:induction false} ReprIsInjective(a: bytes, b: bytes)
    requires Repr(a) == Repr(b)
    ensures a == b
  {
    hide Words, Repr;
    JoinedIsSplit([a]);
    JoinedIsSplit([b]);
  }

  // ---------- words as they may be typed ----------

  /** A byte as it stands, a byte behind a backslash, or two hexadecimal digits. */
  datatype Piece = Literal(b: byte) | Behind(b: byte) | Hex(high: byte, low: byte)

  /** A plain beginning, and perhaps a part in quotes of one kind or the other, which then ends the word. */
  datatype Typed = Typed(plain: bytes, quote: Option<byte>, pieces: seq<Piece>)

  function PieceText(p: Piece): (t: bytes)
    ensures t != []
  {
    match p
    case Literal(b) => [b]
    case Behind(b) => [92, b]
    case Hex(high, low) => [92, 120, high, low]
  }

  function PiecesText(ps: seq<Piece>): bytes {
    if ps == [] then [] else PieceText(ps[0]) + PiecesText(ps[1..])
  }

  /** In double quotes five letters stand for control characters. */
  function PieceByte(quote: byte, p: Piece): byte {
    match p
    case Literal(b) => b
    case Behind(b) =>
      if quote != 34 then b
      else if b == 110 then 10 else if b == 114 then 13 else if b == 116 then 9
      else if b == 98 then 8 else if b == 97 then 7 else b
    case Hex(high, low) => if IsHexDigit(high) && IsHexDigit(low) then 16 * HexValue(high) + HexValue(low) else 0
  }

  function PiecesBytes(quote: byte, ps: seq<Piece>): bytes {
    if ps == [] then [] else [PieceByte(quote, ps[0])] + PiecesBytes(quote, ps[1..])
  }

  function TypedText(w: Typed): bytes {
    w.plain + if w.quote == None then [] else [w.quote.value] + (PiecesText(w.pieces) + [w.quote.value])
  }

  function Meaning(w: Typed): bytes {
    w.plain + if w.quote == None then [] else PiecesBytes(w.quote.value, w.pieces)
  }

  predicate HexAhead(t: bytes) { |t| >= 2 && IsHexDigit(t[0]) && IsHexDigit(t[1]) }

  /** In double quotes anything may stand behind a backslash; an x followed by two digits is one byte. */
  predicate DoubleOk(ps: seq<Piece>) {
    ps != [] ==>
      && (match ps[0]
          case Literal(b) => b != 0 && b != 34 && b != 92
          case Behind(b) => b != 0 && (b == 120 ==> !HexAhead(PiecesText(ps[1..])))
          case Hex(high, low) => IsHexDigit(high) && IsHexDigit(low))
      && DoubleOk(ps[1..])
  }

  /** In single quotes only the quote itself is written behind a backslash; the last byte is no backslash, since it
      would take the closing quote with it. */
  predicate SingleOk(ps: seq<Piece>) {
    ps != [] ==>
      && (match ps[0]
          case Literal(b) => b != 0 && b != 39 && (b == 92 ==> |ps| > 1)
          case Behind(b) => b == 39
          case Hex(_, _) => false)
      && SingleOk(ps[1..])
  }

  /** What ends a plain word: vertical tab and form feed do not, although they are skipped between words. */
  predicate EndsPlain(b: byte) { b == 32 || b == 9 || b == 10 || b == 13 || b == 0 }

  predicate TypedOk(w: Typed) {
    && (forall i | 0 <= i < |w.plain| :: !EndsPlain(w.plain[i]) && w.plain[i] != 34 && w.plain[i] != 39)
    && (w.plain != [] ==> !IsBlank(w.plain[0]))
    && match w.quote
       case None => w.plain != []
       case Some(q) => (q == 34 && DoubleOk(w.pieces)) || (q == 39 && SingleOk(w.pieces))
  }

  /** What may follow the word. */
  predicate MayFollow(w: Typed, tail: bytes) {
    tail == [] || tail[0] == 0 || if w.quote == None then EndsPlain(tail[0]) else IsBlank(tail[0])
  }

  lemma {:induction false} PlainIsRead(p: bytes, tail: bytes, current: bytes)
    requires forall i | 0 <= i < |p| :: !EndsPlain(p[i]) && p[i] != 34 && p[i] != 39
    ensures Word(p + tail, Plain, current) == Word(tail, Plain, current + p)
    decreases |p|
  {
    if p == [] {
      assert p + tail == tail && current + p == current;
    } else {
      var s := p + tail;
      assert s[0] == p[0] && s[1..] == p[1..] + tail;
      assert Look(s, Plain) == Go([p[0]], 1, Plain);
      PlainIsRead(p[1..], tail, current + [p[0]]);
      assert current + [p[0]] + p[1..] == current + p;
    }
  }

  lemma {:induction false} DoubleIsRead(ps: seq<Piece>, tail: bytes, current: bytes)
    requires DoubleOk(ps) && (tail == [] || tail[0] == 0 || IsBlank(tail[0]))
    ensures Word(PiecesText(ps) + ([34] + tail), Quoted, current) == Token(current + PiecesBytes(34, ps), tail)
    decreases |ps|
  {
    var s := PiecesText(ps) + ([34] + tail);
    if ps == [] {
      assert s == [34] + tail && s[1..] == tail && current + PiecesBytes(34, ps) == current;
      assert Look(s, Quoted) == End(1);
    } else {
      var t, rest := PieceText(ps[0]), PiecesText(ps[1..]) + ([34] + tail);
      Regroup(t, PiecesText(ps[1..]), [34] + tail);
      OneDouble(ps[0], rest, PiecesText(ps[1..]), tail);
      assert (t + rest)[|t|..] == rest;
      DoubleIsRead(ps[1..], tail, current + [PieceByte(34, ps[0])]);
      Regroup(current, [PieceByte(34, ps[0])], PiecesBytes(34, ps[1..]));
    }
  }

  lemma {:induction false} OneDouble(p: Piece, rest: bytes, inner: bytes, tail: bytes)
    requires rest == inner + ([34] + tail)
    requires match p
             case Literal(b) => b != 0 && b != 34 && b != 92
             case Behind(b) => b != 0 && (b == 120 ==> !HexAhead(inner))
             case Hex(high, low) => IsHexDigit(high) && IsHexDigit(low)
    ensures Look(PieceText(p) + rest, Quoted) == Go([PieceByte(34, p)], |PieceText(p)|, Quoted)
  {
    var s := PieceText(p) + rest;
    if p.Behind? && p.b == 120 {
      assert |inner| >= 1 ==> rest[0] == inner[0];
      assert |inner| >= 2 ==> rest[1] == inner[1];
      assert |inner| == 1 ==> rest[1] == 34;
      assert |inner| == 0 ==> rest[0] == 34;
      assert !HexEscape(s);
    }
  }

  lemma {:induction false} SingleIsRead(ps: seq<Piece>, tail: bytes, current: bytes)
    requires SingleOk(ps) && (tail == [] || tail[0] == 0 || IsBlank(tail[0]))
    ensures Word(PiecesText(ps) + ([39] + tail), Single, current) == Token(current + PiecesBytes(39, ps), tail)
    decreases |ps|
  {
    var s := PiecesText(ps) + ([39] + tail);
    if ps == [] {
      assert s == [39] + tail && s[1..] == tail && current + PiecesBytes(39, ps) == current;
      assert Look(s, Single) == End(1);
    } else {
      var t, rest := PieceText(ps[0]), PiecesText(ps[1..]) + ([39] + tail);
      Regroup(t, PiecesText(ps[1..]), [39] + tail);
      assert |ps| > 1 ==> rest[0] == PieceText(ps[1])[0] && ps[1..][0] == ps[1];
      assert Look(t + rest, Single) == Go([PieceByte(39, ps[0])], |t|, Single);
      assert (t + rest)[|t|..] == rest;
      SingleIsRead(ps[1..], tail, current + [PieceByte(39, ps[0])]);
      Regroup(current, [PieceByte(39, ps[0])], PiecesBytes(39, ps[1..]));
    }
  }

  /** What is left behind a word: the byte that ends a plain one is gone. */
  function Left(w: Typed, tail: bytes): bytes {
    if w.quote == None && tail != [] && tail[0] != 0 then tail[1..] else tail
  }

  lemma {:induction false} TypedIsRead(w: Typed, tail: bytes)
    requires TypedOk(w) && MayFollow(w, tail)
    ensures Word(TypedText(w) + tail, Plain, []) == Token(Meaning(w), Left(w, tail))
  {
    hide Word, PiecesText, PiecesBytes, IsBlank;
    assert [] + w.plain == w.plain;
    if w.quote == None {
      PlainIsRead(w.plain, tail, []);
      assert TypedText(w) == w.plain && Meaning(w) == w.plain;
      PlainEnds(tail, w.plain);
    } else {
      var q := w.quote.value;
      var inside := PiecesText(w.pieces) + ([q] + tail);
      QuotedText(w.plain, q, PiecesText(w.pieces), tail);
      hide TypedText, Meaning;
      PlainIsRead(w.plain, [q] + inside, []);
      QuoteBegins(q, inside, w.plain);
      QuoteIsRead(w, tail);
    }
  }

  lemma QuotedText(plain: bytes, q: byte, pieces: bytes, tail: bytes)
    ensures plain + ([q] + (pieces + [q])) + tail == plain + ([q] + (pieces + ([q] + tail)))
  {
  }

  lemma {:induction false} QuoteIsRead(w: Typed, tail: bytes)
    requires TypedOk(w) && MayFollow(w, tail) && w.quote.Some?
    ensures var q := w.quote.value;
            Word(PiecesText(w.pieces) + ([q] + tail), if q == 34 then Quoted else Single, w.plain)
            == Token(Meaning(w), Left(w, tail))
  {
    hide Word, PiecesText, PiecesBytes;
    if w.quote.value == 34 {
      DoubleIsRead(w.pieces, tail, w.plain);
    } else {
      SingleIsRead(w.pieces, tail, w.plain);
    }
  }

  lemma PlainEnds(tail: bytes, current: bytes)
    requires tail == [] || EndsPlain(tail[0])
    ensures Word(tail, Plain, current) == Token(current, if tail != [] && tail[0] != 0 then tail[1..] else tail)
  {
    assert tail[0..] == tail;
  }

  lemma QuoteBegins(q: byte, inside: bytes, current: bytes)
    requires q == 34 || q == 39
    ensures Word([q] + inside, Plain, current) == Word(inside, if q == 34 then Quoted else Single, current)
  {
    assert ([q] + inside)[1..] == inside && current + [] == current;
  }

  /** Words with blanks before, between and after them; what stands behind a NUL is not looked at. */
  function TypedLine(gaps: seq<bytes>, ws: seq<Typed>, end: bytes): bytes
    requires |gaps| == |ws| + 1
    decreases |ws|
  {
    gaps[0] + if ws == [] then end else TypedText(ws[0]) + TypedLine(gaps[1..], ws[1..], end)
  }

  ghost predicate TypedLineOk(gaps: seq<bytes>, ws: seq<Typed>, end: bytes)
    requires |gaps| == |ws| + 1
  {
    && (forall i | 0 <= i < |gaps| :: Blank(gaps[i]))
    && (forall i | 0 <= i < |ws| :: TypedOk(ws[i]) && GapOk(ws[i], gaps[i + 1], i == |ws| - 1))
    && (end == [] || end[0] == 0)
  }

  /** Between two words there is a blank; behind a plain word, one that ends it. */
  predicate GapOk(w: Typed, gap: bytes, last: bool) {
    && (gap == [] ==> last)
    && (gap != [] && w.quote == None ==> EndsPlain(gap[0]))
  }

  function Meanings(ws: seq<Typed>): (r: seq<bytes>)
    ensures |r| == |ws|
  {
    seq(|ws|, i requires 0 <= i < |ws| => Meaning(ws[i]))
  }

  /** A line of words, plain or in quotes of either kind, is split into exactly what the words mean. */
  lemma {:induction false} TypedLineIsSplit(gaps: seq<bytes>, ws: seq<Typed>, end: bytes)
    requires |gaps| == |ws| + 1 && TypedLineOk(gaps, ws, end)
    ensures Words(TypedLine(gaps, ws, end)) == Some(Meanings(ws))
    decreases |ws|
  {
    hide Words, TypedOk, GapOk, Blank;
    if ws == [] {
      GapIsSkipped(gaps[0], end);
      LineEnds(end);
    } else {
      hide Meaning;
      var tail := TypedLine(gaps[1..], ws[1..], end);
      assert TypedLineOk(gaps[1..], ws[1..], end) by {
        assert forall i | 0 <= i < |ws[1..]| :: ws[1..][i] == ws[i + 1] && gaps[1..][i + 1] == gaps[i + 2];
      }
      TypedLineIsSplit(gaps[1..], ws[1..], end);
      TailFollows(gaps, ws, end);
      TypedWord(gaps[0], ws[0], tail);
      assert Meanings(ws) == [Meaning(ws[0])] + Meanings(ws[1..]);
    }
  }

  /** One word, and the words of the rest. */
  lemma {:induction false} TypedWord(gap: bytes, w: Typed, tail: bytes)
    requires Blank(gap) && TypedOk(w) && MayFollow(w, tail)
    ensures Words(gap + (TypedText(w) + tail)) == Prepended([Meaning(w)], Words(tail))
  {
    hide Words, TypedOk, MayFollow, IsBlank, TypedText, Meaning, Left;
    GapIsSkipped(gap, TypedText(w) + tail);
    TypedIsRead(w, tail);
    TypedBegins(w, tail);
    LeftIsSame(w, tail);
    WordsUnfold(TypedText(w) + tail, Meaning(w), Left(w, tail));
  }

  lemma LineEnds(end: bytes)
    requires end == [] || end[0] == 0
    ensures Words(end) == Some([])
  {
  }

  lemma TypedBegins(w: Typed, tail: bytes)
    requires TypedOk(w)
    ensures var s := TypedText(w) + tail; s != [] && s[0] != 0 && !IsBlank(s[0])
  {
  }

  lemma LeftIsSame(w: Typed, tail: bytes)
    requires MayFollow(w, tail)
    ensures Words(Left(w, tail)) == Words(tail)
  {
    if w.quote == None && tail != [] && tail[0] != 0 {
      assert IsBlank(tail[0]) && [tail[0]] + tail[1..] == tail;
      GapIsSkipped([tail[0]], tail[1..]);
    }
  }

  lemma TailFollows(gaps: seq<bytes>, ws: seq<Typed>, end: bytes)
    requires ws != [] && |gaps| == |ws| + 1 && TypedLineOk(gaps, ws, end)
    ensures MayFollow(ws[0], TypedLine(gaps[1..], ws[1..], end))
  {
    var tail := TypedLine(gaps[1..], ws[1..], end);
    assert GapOk(ws[0], gaps[1], |ws| == 1) && Blank(gaps[1]);
    if gaps[1] != [] {
      assert tail[0] == gaps[1][0];
    } else {
      assert tail == end;
    }
  }

  // ---------- lines that are refused ----------

  /** After any words, a quote that is not closed before the line ends, or that is closed in the middle of something. */
  lemma {:induction false} BadWordIsRefused(gaps: seq<bytes>, ws: seq<Typed>, bad: bytes)
    requires |gaps| == |ws| + 1 && (forall i | 0 <= i < |gaps| :: Blank(gaps[i]))
    requires forall i | 0 <= i < |ws| :: TypedOk(ws[i]) && GapOk(ws[i], gaps[i + 1], false)
    requires bad != [] && bad[0] != 0 && !IsBlank(bad[0]) && Word(bad, Plain, []) == Bad
    ensures Words(TypedLine(gaps, ws, bad)) == None
    decreases |ws|
  {
    hide TypedOk, GapOk, IsSpace, IsBlank, Word;
    if ws == [] {
      GapIsSkipped(gaps[0], bad);
      BadBegins(bad);
    } else {
      hide Words;
      var tail := TypedLine(gaps[1..], ws[1..], bad);
      assert forall i | 0 <= i < |ws[1..]| :: ws[1..][i] == ws[i + 1] && gaps[1..][i + 1] == gaps[i + 2];
      BadWordIsRefused(gaps[1..], ws[1..], bad);
      assert MayFollow(ws[0], tail) by {
        assert GapOk(ws[0], gaps[1], false) && Blank(gaps[1]);
        GapFollows(ws[0], gaps[1], tail);
      }
      TypedWord(gaps[0], ws[0], tail);
    }
  }

  lemma GapFollows(w: Typed, gap: bytes, tail: bytes)
    requires GapOk(w, gap, false) && Blank(gap) && gap <= tail
    ensures MayFollow(w, tail)
  {
    assert tail[0] == gap[0];
  }

  lemma BadBegins(bad: bytes)
    requires bad != [] && bad[0] != 0 && !IsBlank(bad[0]) && Word(bad, Plain, []) == Bad
    ensures Words(bad) == None
  {
    hide Word;
  }

  /** The words that are refused: the part in quotes is followed by something else than a blank, or by nothing at all
      where the closing quote should be. */
  lemma {:induction false} MisplacedQuotes(w: Typed, tail: bytes)
    requires TypedOk(w) && w.quote.Some?
    ensures tail != [] && tail[0] != 0 && !IsBlank(tail[0]) ==> Word(TypedText(w) + tail, Plain, []) == Bad
    ensures tail == [] || tail[0] == 0 ==>
              Word(w.plain + ([w.quote.value] + (PiecesText(w.pieces) + tail)), Plain, []) == Bad
  {
    hide Word, PiecesText, IsBlank;
    var q := w.quote.value;
    assert [] + w.plain == w.plain;
    var behind := if tail == [] || tail[0] == 0 then tail else [q] + tail;
    var inside := PiecesText(w.pieces) + behind;
    QuotedText(w.plain, q, PiecesText(w.pieces), tail);
    hide TypedText;
    PlainIsRead(w.plain, [q] + inside, []);
    QuoteBegins(q, inside, w.plain);
    hide DoubleOk, SingleOk;
    if tail == [] || tail[0] == 0 {
      if q == 34 { DoubleIsOpen(w.pieces, tail, w.plain); } else { SingleIsOpen(w.pieces, tail, w.plain); }
    } else if !IsBlank(tail[0]) {
      if q == 34 { DoubleIsBad(w.pieces, tail, w.plain); } else { SingleIsBad(w.pieces, tail, w.plain); }
    }
  }

  lemma {:induction false} DoubleIsBad(ps: seq<Piece>, tail: bytes, current: bytes)
    requires DoubleOk(ps) && tail != [] && tail[0] != 0 && !IsBlank(tail[0])
    ensures Word(PiecesText(ps) + ([34] + tail), Quoted, current) == Bad
    decreases |ps|
  {
    hide PieceByte;
    if ps == [] {
      assert PiecesText(ps) + ([34] + tail) == [34] + tail;
    } else {
      var t, inner := PieceText(ps[0]), PiecesText(ps[1..]);
      Regroup(t, inner, [34] + tail);
      OneDouble(ps[0], inner + ([34] + tail), inner, tail);
      assert (t + (inner + ([34] + tail)))[|t|..] == inner + ([34] + tail);
      DoubleIsBad(ps[1..], tail, current + [PieceByte(34, ps[0])]);
    }
  }

  lemma {:induction false} DoubleIsOpen(ps: seq<Piece>, tail: bytes, current: bytes)
    requires DoubleOk(ps) && (tail == [] || tail[0] == 0)
    ensures Word(PiecesText(ps) + tail, Quoted, current) == Bad
    decreases |ps|
  {
    hide PieceByte;
    if ps == [] {
      assert PiecesText(ps) + tail == tail;
    } else {
      var t, inner := PieceText(ps[0]), PiecesText(ps[1..]);
      Regroup(t, inner, tail);
      OneUnclosed(ps[0], inner, tail);
      assert (t + (inner + tail))[|t|..] == inner + tail;
      DoubleIsOpen(ps[1..], tail, current + [PieceByte(34, ps[0])]);
    }
  }

  lemma {:induction false} OneUnclosed(p: Piece, inner: bytes, tail: bytes)
    requires tail == [] || tail[0] == 0
    requires match p
             case Literal(b) => b != 0 && b != 34 && b != 92
             case Behind(b) => b != 0 && (b == 120 ==> !HexAhead(inner))
             case Hex(high, low) => IsHexDigit(high) && IsHexDigit(low)
    ensures Look(PieceText(p) + (inner + tail), Quoted) == Go([PieceByte(34, p)], |PieceText(p)|, Quoted)
  {
    var rest := inner + tail;
    if p.Behind? && p.b == 120 {
      assert |inner| >= 1 ==> rest[0] == inner[0];
      assert |inner| >= 2 ==> rest[1] == inner[1];
      assert |inner| == 1 && tail != [] ==> rest[1] == 0;
      assert |inner| == 0 && tail != [] ==> rest[0] == 0;
      assert !HexEscape(PieceText(p) + rest);
    }
  }

  lemma {:induction false} SingleIsBad(ps: seq<Piece>, tail: bytes, current: bytes)
    requires SingleOk(ps) && tail != [] && tail[0] != 0 && !IsBlank(tail[0])
    ensures Word(PiecesText(ps) + ([39] + tail), Single, current) == Bad
    decreases |ps|
  {
    if ps == [] {
      assert PiecesText(ps) + ([39] + tail) == [39] + tail;
    } else {
      var t, rest := PieceText(ps[0]), PiecesText(ps[1..]) + ([39] + tail);
      Regroup(t, PiecesText(ps[1..]), [39] + tail);
      assert |ps| > 1 ==> rest[0] == PieceText(ps[1])[0] && ps[1..][0] == ps[1];
      assert Look(t + rest, Single) == Go([PieceByte(39, ps[0])], |t|, Single);
      assert (t + rest)[|t|..] == rest;
      SingleIsBad(ps[1..], tail, current + [PieceByte(39, ps[0])]);
    }
  }

  lemma {:induction false} SingleIsOpen(ps: seq<Piece>, tail: bytes, current: bytes)
    requires SingleOk(ps) && (tail == [] || tail[0] == 0)
    ensures Word(PiecesText(ps) + tail, Single, current) == Bad
    decreases |ps|
  {
    if ps == [] {
      assert PiecesText(ps) + tail == tail;
    } else {
      var t, rest := PieceText(ps[0]), PiecesText(ps[1..]) + tail;
      Regroup(t, PiecesText(ps[1..]), tail);
      assert |ps| > 1 ==> rest[0] == PieceText(ps[1])[0] && ps[1..][0] == ps[1];
      assert Look(t + rest, Single) == Go([PieceByte(39, ps[0])], |t|, Single);
      assert (t + rest)[|t|..] == rest;
      SingleIsOpen(ps[1..], tail, current + [PieceByte(39, ps[0])]);
    }
  }
}

/**
 What the HTTP machine computes: which header names it knows, the numbers it reads, how much body it delivers, and
 when it reports the end of the message.  A name is compared letter by letter, with a state that says which of the
 known names are still possible; a number is accumulated digit by digit behind a guard that keeps it below the value
 that stands for no number; a body is counted down.  Each of these is proved to come out as the text says, for every
 text, and to conserve bytes: what is delivered and what is outstanding is what was announced.
 */
module HttpBody {
  import opened Bytes
  import opened HttpMessage

  // ---------- header names ----------

  function Lowered(name: bytes): (w: bytes)
    ensures |w| == |name|
  {
    seq(|name|, i requires 0 <= i < |name| => LowerToken(name[i]))
  }

  /** The words the parser looks for, as a specification: a complete word, or the start of one. */
  function Known(w: bytes): Line {
    if w == CONNECTION || w == PROXY_CONNECTION then Connection
    else if w == CONTENT_LENGTH then ContentLength
    else if w == TRANSFER_ENCODING then TransferEncoding
    else if w == UPGRADE then Upgrade
    else if w == [] then General
    else if w <= PROXY_CONNECTION then NameProxyConnection
    else if w <= TRANSFER_ENCODING then NameTransferEncoding
    else if w <= UPGRADE then NameUpgrade
    else if |w| == 1 && w <= CONNECTION then NameC
    else if |w| == 2 && w <= CONNECTION then NameCO
    else if |w| == 3 && w <= CONNECTION then NameCON
    else if w <= CONNECTION then NameConnection
    else if w <= CONTENT_LENGTH then NameContentLength
    else General
  }

  lemma PrefixStep(word: bytes, w: bytes, c: byte)
    ensures w + [c] <= word <==> w <= word && |w| < |word| && word[|w|] == c
    ensures w + [c] == word <==> w <= word && |w| + 1 == |word| && word[|w|] == c
  {
    if w <= word && |w| < |word| && word[|w|] == c {
      assert (w + [c])[..|w|] == w;
      assert word[..|w| + 1] == w + [c];
      if |w| + 1 == |word| {
        assert word == word[..|w| + 1];
      }
    }
  }

  /** The words are told apart by their first byte, or their fourth. */
  lemma Apart(w: bytes)
    requires w != []
    ensures w <= CONNECTION ==> w[0] == 99 && (|w| > 3 ==> w[3] == 110)
    ensures w <= CONTENT_LENGTH ==> w[0] == 99 && (|w| > 3 ==> w[3] == 116)
    ensures w <= PROXY_CONNECTION ==> w[0] == 112
    ensures w <= TRANSFER_ENCODING ==> w[0] == 116
    ensures w <= UPGRADE ==> w[0] == 117
    ensures |w| <= 3 ==> (w <= CONNECTION <==> w <= CONTENT_LENGTH)
  {
    assert PROXY_CONNECTION[0] == 112;
    assert CONNECTION[..1] == CONTENT_LENGTH[..1];
    assert CONNECTION[..2] == CONTENT_LENGTH[..2];
    assert CONNECTION[..3] == CONTENT_LENGTH[..3];
  }

  /** The words whose first letter is theirs alone. */
  lemma {:induction false} KnownNextOther(w: bytes, c: byte)
    requires w != [] && w[0] != 99
    ensures NextOfName(Known(w), |w|, c) == Known(w + [c])
  {
    Apart(w);
    Apart(w + [c]);
    assert (w + [c])[0] == w[0];
    if w[0] == 112 {
      PrefixStep(PROXY_CONNECTION, w, c);
    } else if w[0] == 116 {
      PrefixStep(TRANSFER_ENCODING, w, c);
    } else if w[0] == 117 {
      PrefixStep(UPGRADE, w, c);
    }
  }

  lemma {:induction false} KnownNext(w: bytes, c: byte)
    requires w != []
    ensures NextOfName(Known(w), |w|, c) == Known(w + [c])
  {
    if w[0] != 99 {
      KnownNextOther(w, c);
    } else {
      Apart(w);
      Apart(w + [c]);
      assert (w + [c])[0] == w[0];
      assert |w| > 3 ==> (w + [c])[3] == w[3];
      PrefixStep(CONNECTION, w, c);
      PrefixStep(CONTENT_LENGTH, w, c);
    }
  }

  // ---------- runs that consume everything ----------

  /** From 's' the whole of 'input' is read, leading to 's2' with these callbacks. */
  ghost predicate Goes(start: StartLine, s: State, input: bytes, s2: State, events: seq<Event>) {
    Valid(s) && Run(start, s, input) == Result(Going(s2), events, |input|)
  }

  lemma {:induction false} GoesNowhere(start: StartLine, s: State)
    requires Valid(s)
    ensures Goes(start, s, [], s, [])
  {
  }

  lemma {:induction false} GoesByte(start: StartLine, s: State, c: byte)
    requires Valid(s) && s.mode != Complete && StepByte(start, s, c).Taken?
    ensures Goes(start, s, [c], StepByte(start, s, c).state, StepByte(start, s, c).events)
  {
    var step := StepByte(start, s, c);
    assert [c][1..] == [];
    assert step.events + [] == step.events;
  }

  lemma {:induction false} GoesOn(start: StartLine, s: State, a: bytes, s1: State, e1: seq<Event>,
                                  b: bytes, s2: State, e2: seq<Event>)
    requires Goes(start, s, a, s1, e1) && Goes(start, s1, b, s2, e2) && s1.mode != Complete
    ensures Goes(start, s, a + b, s2, e1 + e2)
  {
    hide Run;
    RunAppend(start, s, a, b);
  }

  /** Two bytes. */
  lemma {:induction false} GoesTwo(start: StartLine, s: State, c: byte, s1: State, e1: seq<Event>,
                                   c': byte, s2: State, e2: seq<Event>, events: seq<Event>)
    requires Valid(s) && s.mode != Complete && s1.mode != Complete
    requires StepByte(start, s, c) == Taken(s1, e1) && StepByte(start, s1, c') == Taken(s2, e2)
    requires events == e1 + e2
    ensures Goes(start, s, [c, c'], s2, events)
  {
    GoesByte(start, s, c);
    GoesByte(start, s1, c');
    hide Goes, StepByte;
    GoesOn(start, s, [c], s1, e1, [c'], s2, e2);
    assert [c] + [c'] == [c, c'];
  }

  function NameBytes(t: bytes): (e: seq<Event>)
    ensures |e| == |t|
  {
    seq(|t|, i requires 0 <= i < |t| => NameByte(t[i]))
  }

  function ValueBytes(t: bytes): (e: seq<Event>)
    ensures |e| == |t|
  {
    seq(|t|, i requires 0 <= i < |t| => ValueByte(t[i]))
  }

  function BodyBytes(t: bytes): (e: seq<Event>)
    ensures |e| == |t|
  {
    seq(|t|, i requires 0 <= i < |t| => BodyByte(t[i]))
  }

  /** A first byte, and the rest. */
  lemma {:induction false} GoesCons(start: StartLine, s: State, c: byte, s1: State, e1: seq<Event>,
                                    rest: bytes, s2: State, e2: seq<Event>, t: bytes, e: seq<Event>)
    requires Goes(start, s, [c], s1, e1) && Goes(start, s1, rest, s2, e2) && s1.mode != Complete
    requires t == [c] + rest && e == e1 + e2
    ensures Goes(start, s, t, s2, e)
  {
    hide Goes;
    GoesOn(start, s, [c], s1, e1, rest, s2, e2);
  }

  lemma FirstThen(t: bytes, more: bytes)
    requires t != []
    ensures t + more == [t[0]] + (t[1..] + more)
  {
  }

  lemma FirstAndRest(t: bytes, i: nat)
    requires i < |t|
    ensures t[i..] == [t[i]] + t[i + 1..]
    ensures ValueBytes(t[i..]) == [ValueByte(t[i])] + ValueBytes(t[i + 1..])
  {
  }

  /** 'n' more header bytes have been counted. */
  function Counted(s: State, n: nat): State {
    s.(nread := s.nread + n)
  }

  // ---------- a header name ----------

  predicate IsName(name: bytes) {
    name != [] && forall i | 0 <= i < |name| :: IsToken(name[i])
  }

  /** The state in which the name 'w', lowered, has been read. */
  function InName(s: State, w: bytes): State
    requires w != []
  {
    s.(mode := Field, line := Known(w), index := NameIndex(w), nread := s.nread + |w|)
  }

  /** The position of the last character, frozen once the word is complete or lost. */
  function NameIndex(w: bytes): nat
    requires w != []
    decreases |w|
  {
    if |w| == 1 then 0
    else
      var before := w[..|w| - 1];
      if CountsName(Known(before)) then NameIndex(before) + 1 else NameIndex(before)
  }

  /** As long as a word is being matched, the index is where matching stands. */
  lemma {:induction false} NameIndexCounts(w: bytes)
    requires w != [] && CountsName(Known(w))
    ensures NameIndex(w) == |w| - 1
    decreases |w|
  {
    hide Known;
    if |w| > 1 {
      var before := w[..|w| - 1];
      assert before + [w[|w| - 1]] == w;
      StillMatching(before, w[|w| - 1]);
      NameIndexCounts(before);
    }
  }

  lemma {:induction false} StillMatching(w: bytes, c: byte)
    requires w != [] && CountsName(Known(w + [c]))
    ensures CountsName(Known(w))
  {
    KnownNext(w, c);
  }

  /** The state after a name says exactly which of the known words, if any, the name is. */
  lemma {:induction false} NameIsRecognised(start: StartLine, s: State, name: bytes)
    requires Valid(s) && s.mode == FieldStart && IsName(name) && s.nread + |name| <= start.limit
    ensures Goes(start, s, name, InName(s, Lowered(name)), NameBytes(name))
    decreases |name|
  {
    hide Known, NameIndex, StepByte, Valid, Goes;
    var w := Lowered(name);
    var c := name[|name| - 1];
    if |name| == 1 {
      assert w == [LowerToken(c)] && name == [c];
      FirstNameByte(start, s, c);
      assert NameBytes(name) == [NameByte(c)];
    } else {
      var before := name[..|name| - 1];
      assert name == before + [c] && w == Lowered(before) + [LowerToken(c)];
      NameIsRecognised(start, s, before);
      var s1 := InName(s, Lowered(before));
      GoesValid(start, s, before, s1, NameBytes(before));
      NextLetter(start, s, Lowered(before), c);
      GoesByte(start, s1, c);
      GoesOn(start, s, before, s1, NameBytes(before), [c], InName(s, w), [NameByte(c)]);
      assert NameBytes(before) + [NameByte(c)] == NameBytes(name);
    }
  }

  lemma {:induction false} FirstNameByte(start: StartLine, s: State, c: byte)
    requires Valid(s) && s.mode == FieldStart && IsToken(c) && s.nread < start.limit
    ensures Goes(start, s, [c], InName(s, [LowerToken(c)]), [NameByte(c)])
  {
    FirstLetter(LowerToken(c));
    hide Known;
    GoesByte(start, s, c);
  }

  lemma {:induction false} GoesValid(start: StartLine, s: State, a: bytes, s1: State, e: seq<Event>)
    requires Goes(start, s, a, s1, e)
    ensures Valid(s1)
  {
  }

  lemma {:induction false} FirstLetter(c: byte)
    ensures FirstOfName(c) == Known([c])
  {
    assert PROXY_CONNECTION[..1] == [112] && TRANSFER_ENCODING[..1] == [116] && UPGRADE[..1] == [117];
    assert CONNECTION[..1] == [99] && CONTENT_LENGTH[..1] == [99];
    assert [c] == [112] <==> c == 112;
    assert [c] == [116] <==> c == 116;
    assert [c] == [117] <==> c == 117;
    assert [c] == [99] <==> c == 99;
  }

  lemma {:induction false} NextLetter(start: StartLine, s: State, w: bytes, c: byte)
    requires w != [] && Valid(InName(s, w)) && IsToken(c) && s.nread + |w| < start.limit
    ensures StepByte(start, InName(s, w), c) == Taken(InName(s, w + [LowerToken(c)]), [NameByte(c)])
    ensures InName(s, w).mode != Complete
  {
    hide Known, NameIndex, NextOfName, CountsName, Valid, StepByte, IsToken, LowerToken;
    NextMatch(w, LowerToken(c));
    FieldStep(start, InName(s, w), c);
  }

  lemma {:induction false} FieldStep(start: StartLine, s: State, c: byte)
    requires Valid(s) && s.mode == Field && IsToken(c) && s.nread < start.limit
    ensures StepByte(start, s, c)
         == Taken(s.(line := NextOfName(s.line, s.index + 1, LowerToken(c)),
                     index := if CountsName(s.line) then s.index + 1 else s.index, nread := s.nread + 1), [NameByte(c)])
  {
    hide NextOfName, CountsName, IsToken, LowerToken, StepFieldStart, StepValue, StepValueLws, StepDiscardLws,
      StepHeadersAlmostDone, StepChunkSize, BeginValue;
  }

  /** What the parser remembers of a name, one letter further. */
  lemma {:induction false} NextMatch(w: bytes, c: byte)
    requires w != []
    ensures NextOfName(Known(w), NameIndex(w) + 1, c) == Known(w + [c])
    ensures NameIndex(w + [c]) == if CountsName(Known(w)) then NameIndex(w) + 1 else NameIndex(w)
  {
    KnownNext(w, c);
    assert (w + [c])[..|w|] == w;
    if CountsName(Known(w)) {
      NameIndexCounts(w);
    }
    hide Known;
  }

  // ---------- numbers ----------

  function HexDigits(t: bytes): (d: seq<nat>)
    requires AreSizeDigits(t)
    ensures |d| == |t| && forall i | 0 <= i < |d| :: d[i] == Unhex(t[i])
  {
    seq(|t|, i requires 0 <= i < |t| => Unhex(t[i]))
  }

  /** The largest number to which one more decimal (hexadecimal) digit is added. */
  const DECIMAL_LIMIT := (ULLONG_MAX - 10) / 10
  const HEX_LIMIT := (ULLONG_MAX - 16) / 16

  /** What becomes of digits 'd': accepted if and only if the number without its last digit is within
      the limit. */
  predicate Accepted(d: seq<nat>, b: nat, limit: nat)
    requires d != []
  {
    ValueOf(d[..|d| - 1], b) <= limit
  }

  /** A refused number stays refused, and an accepted one is extended if it is within the limit. */
  lemma {:induction false} AcceptedNext(d: seq<nat>, x: nat, b: nat, limit: nat)
    requires b >= 1 && d != []
    ensures Accepted(d + [x], b, limit) == (ValueOf(d, b) <= limit)
    ensures Accepted(d + [x], b, limit) ==> Accepted(d, b, limit)
  {
    assert (d + [x])[..|d|] == d;
    ValueAppend(d[..|d| - 1], d[|d| - 1], b);
    assert d[..|d| - 1] + [d[|d| - 1]] == d;
  }

  /** The error, and what was being read when it was met. */
  predicate FailsIn(r: Result, e: Error, mode: Mode) {
    r.outcome.Failed? && r.outcome.error == e && r.outcome.state.mode == mode
  }

  /** What follows a beginning that was read completely, or was refused. */
  lemma {:induction false} GoesThen(start: StartLine, s: State, a: bytes, s1: State, e1: seq<Event>, b: bytes)
    requires Goes(start, s, a, s1, e1) && s1.mode != Complete
    ensures Valid(s1) && Run(start, s, a + b) == Prefixed(e1, |a|, Run(start, s1, b))
  {
    RunAppend(start, s, a, b);
  }

  lemma {:induction false} FailsStill(start: StartLine, s: State, a: bytes, b: bytes)
    requires Valid(s) && Run(start, s, a).outcome.Failed?
    ensures Run(start, s, a + b) == Run(start, s, a)
  {
    RunAppend(start, s, a, b);
  }

  /** A Content-Length is read exactly, or refused; what is accepted never wraps or meets the sentinel. */
  lemma {:induction false} LengthIsExact(start: StartLine, s: State, t: bytes)
    requires Valid(s) && s.mode == ValueDiscardWs && s.line == ContentLength && !s.flags.contentLength
    requires t != [] && (forall i | 0 <= i < |t| :: IsDigit(t[i])) && s.nread + |t| <= start.limit
    ensures var d := DecimalDigits(t);
            if Accepted(d, 10, DECIMAL_LIMIT)
            then Goes(start, s, t, InLength(s, ValueOf(d, 10), |t|), ValueBytes(t)) && ValueOf(d, 10) < ULLONG_MAX
            else FailsIn(Run(start, s, t), InvalidContentLength, Value)
    decreases |t|
  {
    hide Run, Goes, InLength, StepByte, ValueOf, Accepted, Valid;
    var c := t[|t| - 1];
    if |t| == 1 {
      FirstDigit(start, s, c);
      assert t == [c] && ValueBytes(t) == [ValueByte(c)] && DecimalDigits(t) == [DigitValue(c)];
    } else {
      hide DecimalDigits, ValueBytes, DigitValue;
      var before := t[..|t| - 1];
      var d, x := DecimalDigits(before), DigitValue(c);
      LastDecimal(t);
      LengthIsExact(start, s, before);
      AcceptedNext(d, x, 10, DECIMAL_LIMIT);
      ValueAppend(d, x, 10);
      if Accepted(d, 10, DECIMAL_LIMIT) {
        LengthGrows(start, s, before, ValueOf(d, 10), c);
      } else {
        FailsStill(start, s, before, [c]);
      }
    }
  }

  lemma {:induction false} LengthGrows(start: StartLine, s: State, t: bytes, n: nat, c: byte)
    requires Goes(start, s, t, InLength(s, n, |t|), ValueBytes(t)) && IsDigit(c) && s.nread + |t| < start.limit
    ensures if n <= DECIMAL_LIMIT
            then Goes(start, s, t + [c], InLength(s, n * 10 + DigitValue(c), |t| + 1), ValueBytes(t) + [ValueByte(c)])
            else FailsIn(Run(start, s, t + [c]), InvalidContentLength, Value)
  {
    hide Run, StepByte, Valid;
    GoesThen(start, s, t, InLength(s, n, |t|), ValueBytes(t), [c]);
    OneMoreDigit(start, InLength(s, n, |t|), c);
  }

  lemma LastDecimal(t: bytes)
    requires t != [] && forall i | 0 <= i < |t| :: IsDigit(t[i])
    ensures var before, c := t[..|t| - 1], t[|t| - 1];
            && t == before + [c] && DecimalDigits(t) == DecimalDigits(before) + [DigitValue(c)]
            && ValueBytes(t) == ValueBytes(before) + [ValueByte(c)]
  {
  }

  lemma {:induction false} FirstDigit(start: StartLine, s: State, c: byte)
    requires Valid(s) && s.mode == ValueDiscardWs && s.line == ContentLength && !s.flags.contentLength
    requires IsDigit(c) && s.nread < start.limit
    ensures Goes(start, s, [c], InLength(s, DigitValue(c), 1), [ValueByte(c)])
    ensures ValueOf([DigitValue(c)], 10) == DigitValue(c) && Accepted([DigitValue(c)], 10, DECIMAL_LIMIT)
  {
    assert [DigitValue(c)][..0] == [];
    hide ValueOf, Accepted, Run;
    FirstDigitStep(start, s, c);
    hide StepByte;
    GoesByte(start, s, c);
  }

  lemma {:induction false} FirstDigitStep(start: StartLine, s: State, c: byte)
    requires Valid(s) && s.mode == ValueDiscardWs && s.line == ContentLength && !s.flags.contentLength
    requires IsDigit(c) && s.nread < start.limit
    ensures StepByte(start, s, c) == Taken(InLength(s, DigitValue(c), 1), [ValueByte(c)])
  {
    hide StepFieldStart, StepField, StepValue, StepValueLws, StepDiscardLws, StepHeadersAlmostDone, StepChunkSize,
      BeginLine;
  }

  /** The state in which 'n' has been read of a length, from 'k' digits. */
  function InLength(s: State, n: nat, k: nat): State {
    s.(mode := Value, index := 0, line := ContentLengthNum, length := n, flags := s.flags.(contentLength := true),
       nread := s.nread + k)
  }

  lemma {:induction false} OneMoreDigitStep(start: StartLine, s: State, c: byte)
    requires Valid(s) && s.mode == Value && s.line == ContentLengthNum && IsDigit(c) && s.nread < start.limit
    ensures StepByte(start, s, c) ==
              if s.length <= DECIMAL_LIMIT
              then Taken(s.(length := s.length * 10 + (c - 48), nread := s.nread + 1), [ValueByte(c)])
              else Refused(InvalidContentLength, [])
  {
    hide StepFieldStart, StepField, StepValueLws, StepDiscardLws, StepHeadersAlmostDone, StepChunkSize, BeginValue,
      Against, FirstOfToken, AfterOption, Lower;
  }

  lemma {:induction false} OneMoreDigit(start: StartLine, s: State, c: byte)
    requires Valid(s) && s.mode == Value && s.line == ContentLengthNum && IsDigit(c) && s.nread < start.limit
    ensures Run(start, s, [c]) ==
              if s.length <= DECIMAL_LIMIT
              then Result(Going(s.(length := s.length * 10 + (c - 48), nread := s.nread + 1)), [ValueByte(c)], 1)
              else Result(Failed(InvalidContentLength, s), [], 0)
  {
    OneMoreDigitStep(start, s, c);
    hide StepByte;
    if s.length <= DECIMAL_LIMIT {
      GoesByte(start, s, c);
    }
  }

  /** Every byte that the decoding table accepts. */
  predicate AreSizeDigits(t: bytes) { forall i | 0 <= i < |t| :: Unhex(t[i]) != -1 }

  /** The state in which 'n' has been read of a chunk size, from 'k' bytes. */
  function InSize(s: State, n: nat, k: nat): State {
    s.(mode := ChunkSize, length := n, nread := k)
  }

  /** A chunk size is read exactly as the table has it, or refused, in the same way. */
  lemma {:induction false} ChunkSizeIsExact(start: StartLine, s: State, t: bytes)
    requires Valid(s) && s.mode == ChunkSizeStart
    requires t != [] && AreSizeDigits(t) && |t| <= start.limit
    ensures var d := HexDigits(t);
            if Accepted(d, 16, HEX_LIMIT)
            then Goes(start, s, t, InSize(s, ValueOf(d, 16), |t|), []) && ValueOf(d, 16) < ULLONG_MAX
            else FailsIn(Run(start, s, t), InvalidContentLength, ChunkSize)
    decreases |t|
  {
    hide Run, Goes, InSize, StepByte, ValueOf, Accepted, Valid;
    var c := t[|t| - 1];
    if |t| == 1 {
      FirstHexDigit(start, s, c);
      assert t == [c] && HexDigits(t) == [Unhex(c)];
    } else {
      var before := t[..|t| - 1];
      var d, x := HexDigits(before), Unhex(c);
      assert t == before + [c] && HexDigits(t) == d + [x];
      ChunkSizeIsExact(start, s, before);
      AcceptedNext(d, x, 16, HEX_LIMIT);
      ValueAppend(d, x, 16);
      if Accepted(d, 16, HEX_LIMIT) {
        SizeGrows(start, s, before, ValueOf(d, 16), c);
      } else {
        FailsStill(start, s, before, [c]);
      }
    }
  }

  lemma {:induction false} SizeGrows(start: StartLine, s: State, t: bytes, n: nat, c: byte)
    requires Goes(start, s, t, InSize(s, n, |t|), []) && Unhex(c) != -1 && |t| < start.limit
    ensures if n <= HEX_LIMIT then Goes(start, s, t + [c], InSize(s, n * 16 + Unhex(c), |t| + 1), [])
            else FailsIn(Run(start, s, t + [c]), InvalidContentLength, ChunkSize)
  {
    hide Run, StepByte, Valid;
    GoesThen(start, s, t, InSize(s, n, |t|), [], [c]);
    OneMoreHexDigit(start, InSize(s, n, |t|), c);
  }

  lemma {:induction false} FirstHexDigit(start: StartLine, s: State, c: byte)
    requires Valid(s) && s.mode == ChunkSizeStart && Unhex(c) != -1 && start.limit >= 1
    ensures Goes(start, s, [c], InSize(s, Unhex(c), 1), [])
    ensures ValueOf([Unhex(c)], 16) == Unhex(c) && Accepted([Unhex(c)], 16, HEX_LIMIT)
  {
    GoesByte(start, s, c);
    assert [Unhex(c) as nat][..0] == [];
  }

  lemma {:induction false} OneMoreHexDigit(start: StartLine, s: State, c: byte)
    requires Valid(s) && s.mode == ChunkSize && Unhex(c) != -1 && s.nread < start.limit
    ensures Run(start, s, [c]) ==
              if s.length <= HEX_LIMIT
              then Result(Going(InSize(s, s.length * 16 + Unhex(c), s.nread + 1)), [], 1)
              else Result(Failed(InvalidContentLength, s), [], 0)
  {
    if s.length <= HEX_LIMIT {
      GoesByte(start, s, c);
    }
  }

  /** Until the size line is over, only digits lead to a size. */
  lemma {:induction false} OnlySizeDigits(start: StartLine, s: State, t: bytes)
    requires Valid(s) && s.mode == ChunkSizeStart && t != []
    requires var r := Run(start, s, t); r.outcome.Going? && r.events == []
    ensures var s' := Run(start, s, t).outcome.state;
            s'.mode in {ChunkSize, ChunkParameters, ChunkSizeAlmostDone} && (s'.mode == ChunkSize ==> AreSizeDigits(t))
    decreases |t|
  {
    hide Run, StepByte, Valid;
    var c := t[|t| - 1];
    var before := t[..|t| - 1];
    assert t == before + [c];
    RunAppend(start, s, before, [c]);
    var first := Run(start, s, before);
    if before == [] {
      RunOfNothing(start, s);
      OneSizeByte(start, s, c);
    } else {
      OnlySizeDigits(start, s, before);
      OneSizeByte(start, first.outcome.state, c);
    }
  }

  lemma {:induction false} RunOfNothing(start: StartLine, s: State)
    requires Valid(s)
    ensures Run(start, s, []) == Result(Going(s), [], 0)
  {
  }

  lemma {:induction false} OneSizeByte(start: StartLine, s: State, c: byte)
    requires Valid(s) && s.mode in {ChunkSizeStart, ChunkSize, ChunkParameters, ChunkSizeAlmostDone}
    requires var r := Run(start, s, [c]); r.outcome.Going? && r.events == []
    ensures var s' := Run(start, s, [c]).outcome.state;
            && s'.mode in {ChunkSize, ChunkParameters, ChunkSizeAlmostDone}
            && (s'.mode == ChunkSize ==> Unhex(c) != -1 && s.mode in {ChunkSizeStart, ChunkSize})
  {
    hide Unhex;
    if StepByte(start, s, c).Taken? {
      GoesByte(start, s, c);
    }
  }

  predicate AreHexDigits(t: bytes) { forall i | 0 <= i < |t| :: IsHexDigit(t[i]) }

  /** The number that a text of hexadecimal digits spells. */
  function HexNumber(t: bytes): nat
    requires AreHexDigits(t)
  {
    if t == [] then 0 else HexNumber(t[..|t| - 1]) * 16 + HexValue(t[|t| - 1])
  }

  /** Which texts are accepted as the size 'n', and when a size that is accepted is the hexadecimal number that
      the text spells: exactly when no byte of it is 128 or above.  The table reads such a byte as the digit 0. */
  lemma {:induction false} AcceptedSizes(start: StartLine, s: State, t: bytes, n: nat)
    requires Valid(s) && s.mode == ChunkSizeStart && t != [] && |t| <= start.limit
    ensures Goes(start, s, t, InSize(s, n, |t|), []) <==>
              AreSizeDigits(t) && Accepted(HexDigits(t), 16, HEX_LIMIT) && n == ValueOf(HexDigits(t), 16)
    ensures Goes(start, s, t, InSize(s, n, |t|), []) ==>
              ((forall i | 0 <= i < |t| :: t[i] < 128) <==> AreHexDigits(t) && n == HexNumber(t))
  {
    hide Run, StepByte, ValueOf, Accepted, Valid, HexNumber;
    if Goes(start, s, t, InSize(s, n, |t|), []) {
      OnlySizeDigits(start, s, t);
    }
    if AreSizeDigits(t) {
      ChunkSizeIsExact(start, s, t);
      if AreHexDigits(t) {
        HexNumberIsValue(t);
      }
    }
  }

  lemma {:induction false} HexNumberIsValue(t: bytes)
    requires AreHexDigits(t)
    ensures AreSizeDigits(t) && HexNumber(t) == ValueOf(HexDigits(t), 16)
    decreases |t|
  {
    if t != [] {
      var before := t[..|t| - 1];
      HexNumberIsValue(before);
      assert HexDigits(t)[..|t| - 1] == HexDigits(before);
    }
  }

  /** So the byte 128 with a line end is a chunk of size zero, and ends the body. */
  lemma {:induction false} HighByteEndsBody(start: StartLine, s: State)
    requires Valid(s) && s.mode == ChunkSizeStart && start.limit >= 3
    ensures Goes(start, s, [128, CR, LF],
                 s.(mode := FieldStart, length := 0, flags := s.flags.(trailing := true)), [ChunkHeader(0)])
  {
    var s1 := InSize(s, 0, 1);
    var s2 := s1.(mode := ChunkSizeAlmostDone, nread := 2);
    var end := s.(mode := FieldStart, length := 0, flags := s.flags.(trailing := true));
    GoesByte(start, s, 128);
    GoesTwo(start, s1, CR, s2, [], LF, end, [ChunkHeader(0)], [ChunkHeader(0)]);
    GoesOn(start, s, [128], s1, [], CRLF, end, [ChunkHeader(0)]);
    assert [128 as byte] + CRLF == [128, CR, LF];
    assert [] + [ChunkHeader(0)] == [ChunkHeader(0)];
  }

  // ---------- bodies ----------

  /** Conservation, for every input: what is delivered is the input up to the declared length, and what
      is delivered plus what is outstanding is the declared length. */
  lemma {:induction false} IdentityConserves(start: StartLine, s: State, input: bytes)
    requires Valid(s) && s.mode == BodyIdentity
    ensures var n := if |input| < s.length then |input| else s.length;
            Run(start, s, input) ==
              if |input| < s.length then Result(Going(s.(length := s.length - n)), BodyBytes(input), n)
              else Result(Going(s.(length := 0, mode := Complete)), BodyBytes(input[..n]) + [MessageComplete], n)
    decreases |input|
  {
    if input == [] {
      RunOfNothing(start, s);
    } else {
      var c := input[0];
      OneBodyByte(start, s, c);
      hide Run, StepByte, Valid;
      RunStep(start, s, input);
      var s1 := StepByte(start, s, c).state;
      if s.length == 1 {
        NothingAfter(start, s1, input[1..]);
        assert BodyBytes(input[..1]) == [BodyByte(c)];
      } else {
        hide BodyBytes;
        IdentityConserves(start, s1, input[1..]);
        BodyFirst(input);
        if |input| >= s.length {
          assert input[..s.length][1..] == input[1..][..s.length - 1];
          BodyFirst(input[..s.length]);
        }
      }
    }
  }

  lemma BodyFirst(t: bytes)
    requires t != []
    ensures [BodyByte(t[0])] + BodyBytes(t[1..]) == BodyBytes(t)
    ensures [BodyByte(t[0])] + (BodyBytes(t[1..]) + [MessageComplete]) == BodyBytes(t) + [MessageComplete]
  {
  }

  lemma {:induction false} OneBodyByte(start: StartLine, s: State, c: byte)
    requires Valid(s) && s.mode == BodyIdentity
    ensures StepByte(start, s, c) ==
              if s.length == 1 then Taken(s.(length := 0, mode := Complete), [BodyByte(c), MessageComplete])
              else Taken(s.(length := s.length - 1), [BodyByte(c)])
  {
  }

  /** The data of a chunk: the same, up to the end of the chunk. */
  lemma {:induction false} ChunkDataConserves(start: StartLine, s: State, data: bytes)
    requires Valid(s) && s.mode == ChunkData && |data| <= s.length
    ensures Goes(start, s, data,
                 s.(length := s.length - |data|, mode := if |data| == s.length then ChunkDataAlmostDone else ChunkData),
                 BodyBytes(data))
    decreases |data|
  {
    assert s.length > 0;
    hide StepByte, Valid, Run;
    if data == [] {
      RunOfNothing(start, s);
    } else {
      OneChunkByte(start, s, data[0]);
      RunStep(start, s, data);
      BodyFirst(data);
      hide BodyBytes;
      var s1 := StepByte(start, s, data[0]).state;
      if s.length == 1 {
        RunOfNothing(start, s1);
        assert data[1..] == [];
        NoBytes();
      } else {
        ChunkDataConserves(start, s1, data[1..]);
      }
    }
  }

  lemma NoBytes()
    ensures BodyBytes([]) == []
  {
  }

  lemma {:induction false} OneChunkByte(start: StartLine, s: State, c: byte)
    requires Valid(s) && s.mode == ChunkData
    ensures var s1 := s.(length := s.length - 1, mode := if s.length == 1 then ChunkDataAlmostDone else ChunkData);
            Valid(s1) && StepByte(start, s, c) == Taken(s1, [BodyByte(c)])
  {
  }

  /** The body among the callbacks. */
  function BodyOf(events: seq<Event>): bytes {
    if events == [] then []
    else (if events[0].BodyByte? then [events[0].b] else []) + BodyOf(events[1..])
  }

  lemma {:induction false} BodyOfAppend(a: seq<Event>, b: seq<Event>)
    ensures BodyOf(a + b) == BodyOf(a) + BodyOf(b)
    decreases |a|
  {
    if a == [] {
      assert a + b == b;
    } else {
      assert (a + b)[0] == a[0] && (a + b)[1..] == a[1..] + b;
      BodyOfAppend(a[1..], b);
    }
  }

  lemma {:induction false} BodyOfBytes(t: bytes)
    ensures BodyOf(BodyBytes(t)) == t
    decreases |t|
  {
    if t != [] {
      assert BodyBytes(t)[1..] == BodyBytes(t[1..]);
      BodyOfBytes(t[1..]);
      assert [t[0]] + t[1..] == t;
    }
  }

  lemma {:induction false} NoBody(events: seq<Event>)
    requires forall i | 0 <= i < |events| :: !events[i].BodyByte?
    ensures BodyOf(events) == []
    decreases |events|
  {
    if events != [] {
      NoBody(events[1..]);
    }
  }

  /** The sizes that the chunk headers among the callbacks announce. */
  function Announced(events: seq<Event>): nat {
    if events == [] then 0
    else (if events[0].ChunkHeader? then events[0].length else 0) + Announced(events[1..])
  }

  lemma {:induction false} AnnouncedAppend(a: seq<Event>, b: seq<Event>)
    ensures Announced(a + b) == Announced(a) + Announced(b)
    decreases |a|
  {
    if a == [] {
      assert a + b == b;
    } else {
      assert (a + b)[0] == a[0] && (a + b)[1..] == a[1..] + b;
      AnnouncedAppend(a[1..], b);
    }
  }

  /** What is still to come of the current chunk. */
  function Outstanding(s: State): nat {
    if s.mode == ChunkData then s.length else 0
  }

  /** A message in chunks, so that no other kind of body is being read. */
  ghost predicate OnlyChunks(s: State) {
    s.flags.chunked && s.mode != BodyIdentity && s.mode != BodyIdentityEof
  }

  /** Conservation over any number of chunks, for every input: what was delivered and what is still to come of the
      current chunk is what the chunk headers announced, also when the input is refused somewhere. */
  lemma {:induction false} ChunksConserve(start: StartLine, s: State, input: bytes)
    requires Valid(s) && OnlyChunks(s)
    ensures var r := Run(start, s, input);
            var announced := Announced(r.events) + Outstanding(s);
            OnlyChunks(r.outcome.state) && |BodyOf(r.events)| + Outstanding(r.outcome.state) == announced
    decreases |input|
  {
    hide StepByte, Valid;
    if input != [] && s.mode != Complete {
      var step := StepByte(start, s, input[0]);
      StepConserves(start, s, input[0]);
      if step.Taken? {
        RunStep(start, s, input);
        ChunksConserve(start, step.state, input[1..]);
        hide Run, BodyOf, Announced;
        var rest := Run(start, step.state, input[1..]);
        BodyOfAppend(step.events, rest.events);
        AnnouncedAppend(step.events, rest.events);
      }
    }
  }

  /** What one step does to the account; a byte that is refused does nothing to it. */
  ghost predicate Conserves(s: State, step: Step) {
    match step
    case Taken(s', events) =>
      OnlyChunks(s') && |BodyOf(events)| + Outstanding(s') == Announced(events) + Outstanding(s)
    case Refused(_, events) => BodyOf(events) == [] && Announced(events) == 0
  }

  lemma {:induction false} StepConserves(start: StartLine, s: State, c: byte)
    requires Valid(s) && OnlyChunks(s) && s.mode != Complete
    ensures Conserves(s, StepByte(start, s, c))
  {
    hide StepCounted, StepBody, Sound, CountsBytes, IsQuiet;
    var step := StepByte(start, s, c);
    var s1 := s.(nread := s.nread + 1);
    if !CountsBytes(s.mode) {
      BodyStepConserves(s, c);
    } else if s.nread < start.limit {
      SoundWith(s, s.nread + 1);
      if s.mode == ChunkSizeAlmostDone {
        SizeStepConserves(start, s1, c);
      } else {
        CountedCompletes(start, s1, c);
        NotOutstanding(s.mode);
        QuietConserves(s1, step);
      }
    }
  }

  lemma NotOutstanding(mode: Mode)
    requires CountsBytes(mode)
    ensures mode != ChunkData
  {
  }

  lemma {:induction false} BodyStepConserves(s: State, c: byte)
    requires Sound(s) && !CountsBytes(s.mode) && OnlyChunks(s) && s.mode != Complete
    ensures Conserves(s, StepBody(s, c))
  {
  }

  lemma {:induction false} SizeStepConserves(start: StartLine, s: State, c: byte)
    requires Sound(s) && OnlyChunks(s) && s.mode == ChunkSizeAlmostDone
    ensures Conserves(s, StepCounted(start, s, c))
  {
    assert [ChunkHeader(s.length)][1..] == [];
  }

  lemma {:induction false} QuietConserves(s: State, step: Step)
    requires IsQuiet(s, step) && s.flags.chunked
    ensures step.Taken? ==> OnlyChunks(step.state) && Outstanding(step.state) == 0
    ensures BodyOf(step.events) == [] && Announced(step.events) == 0
  {
    NoBody(step.events);
    NothingAnnounced(step.events);
  }

  lemma {:induction false} NothingAnnounced(events: seq<Event>)
    requires forall i | 0 <= i < |events| :: !events[i].ChunkHeader?
    ensures Announced(events) == 0
    decreases |events|
  {
    if events != [] {
      NothingAnnounced(events[1..]);
    }
  }

  /** The end of the message is reported exactly once, and exactly when the message is complete. */
  lemma {:induction false} CompletesOnce(start: StartLine, s: State, input: bytes)
    requires Valid(s) && s.mode != Complete
    ensures CompletionFits(Run(start, s, input))
    decreases |input|
  {
    if input != [] {
      var step := StepByte(start, s, input[0]);
      StepCompletes(start, s, input[0]);
      if step.Taken? {
        RunStep(start, s, input);
        hide StepByte, Run, Valid;
        if step.state.mode == Complete {
          NothingAfter(start, step.state, input[1..]);
          assert step.events + [] == step.events;
        } else {
          CompletesOnce(start, step.state, input[1..]);
          CompletionPrefixed(step.events, Run(start, step.state, input[1..]));
        }
      }
    }
  }

  /** MessageComplete is the last event, and only there, if the message is complete; else it is absent. */
  ghost predicate CompletionFits(r: Result) {
    if r.outcome.Going? && r.outcome.state.mode == Complete then
      && r.events != [] && r.events[|r.events| - 1] == MessageComplete
      && MessageComplete !in r.events[..|r.events| - 1]
    else MessageComplete !in r.events
  }

  lemma CompletionPrefixed(events: seq<Event>, r: Result)
    requires MessageComplete !in events && CompletionFits(r)
    ensures CompletionFits(Prefixed(events, 1, r))
  {
    if r.events != [] {
      var all := events + r.events;
      assert all[..|all| - 1] == events + r.events[..|r.events| - 1];
    }
  }

  lemma {:induction false} NothingAfter(start: StartLine, s: State, input: bytes)
    requires Valid(s) && s.mode == Complete
    ensures Run(start, s, input) == Result(Going(s), [], 0)
  {
  }

  lemma {:induction false} ValueByteAlone(s: State, c: byte)
    requires Sound(s) && s.mode == Value
    ensures match NextOfValue(s, c)
            case Taken(s', events) =>
              events == [ValueByte(c)] && s'.mode == Value && (s.flags.chunked ==> s'.flags.chunked)
            case Refused(_, events) => events == []
  {
    hide Against, FirstOfToken, IsToken, Lower;
  }

  /** A step that completes the message says so in its last event, and no other step does. */
  ghost predicate CompletesOrNot(step: Step) {
    if step.Taken? && step.state.mode == Complete then
      && step.events != [] && step.events[|step.events| - 1] == MessageComplete
      && MessageComplete !in step.events[..|step.events| - 1]
    else MessageComplete !in step.events
  }

  /** No body and no chunk header is reported, and a message in chunks remains one. */
  ghost predicate IsQuiet(s: State, step: Step) {
    && (forall e | e in step.events :: !e.BodyByte? && !e.ChunkHeader?)
    && (step.Taken? && s.flags.chunked ==>
          step.state.flags.chunked && step.state.mode !in {ChunkData, BodyIdentity, BodyIdentityEof})
  }

  lemma {:induction false} HeadersDoneCompletes(start: StartLine, s: State, c: byte)
    requires Sound(s) && (s.mode == FieldStart || s.mode == HeadersAlmostDone)
    ensures CompletesOrNot(StepHeadersAlmostDone(start, s, c)) && IsQuiet(s, StepHeadersAlmostDone(start, s, c))
  {
    hide Sound, NeedsEof;
  }

  lemma {:induction false} FieldStartCompletes(start: StartLine, s: State, c: byte)
    requires Sound(s) && s.mode == FieldStart
    ensures CompletesOrNot(StepFieldStart(start, s, c)) && IsQuiet(s, StepFieldStart(start, s, c))
  {
    HeadersDoneCompletes(start, s, c);
    hide Sound, StepHeadersAlmostDone, FirstOfName, IsToken;
  }

  lemma {:induction false} DiscardLwsCompletes(start: StartLine, s: State, c: byte)
    requires Sound(s) && s.mode == ValueDiscardLws
    ensures CompletesOrNot(StepDiscardLws(start, s, c)) && IsQuiet(s, StepDiscardLws(start, s, c))
  {
    var t := s.(mode := FieldStart, flags := Conclude(s.line, s.flags));
    hide StepFieldStart, Conclude, Sound;
    ConcludedIsSound(s);
    FieldStartCompletes(start, t, c);
    var step := StepFieldStart(start, t, c);
    AfterValueEnd(s, t, step);
    hide CompletesOrNot, IsQuiet;
  }

  /** The end of an empty value before a step. */
  lemma AfterValueEnd(s: State, t: State, step: Step)
    requires CompletesOrNot(step) && IsQuiet(t, step) && (s.flags.chunked ==> t.flags.chunked)
    ensures var events := [ValueEnd] + step.events;
            var all := if step.Taken? then Taken(step.state, events) else Refused(step.error, events);
            CompletesOrNot(all) && IsQuiet(s, all)
  {
    var all := [ValueEnd] + step.events;
    assert step.events != [] ==> all[..|all| - 1] == [ValueEnd] + step.events[..|step.events| - 1];
  }

  lemma {:induction false} ValueLwsCompletes(start: StartLine, s: State, c: byte)
    requires Sound(s) && s.mode == ValueLws
    ensures CompletesOrNot(StepValueLws(start, s, c)) && IsQuiet(s, StepValueLws(start, s, c))
  {
    hide Sound, BeginLine, Conclude, StepFieldStart;
    if !(c == 32 || c == 9) {
      ConcludedIsSound(s);
      FieldStartCompletes(start, s.(mode := FieldStart, flags := Conclude(s.line, s.flags)), c);
    }
  }

  lemma ConcludedIsSound(s: State)
    requires Sound(s)
    ensures Sound(s.(mode := FieldStart, flags := Conclude(s.line, s.flags)))
    ensures s.flags.chunked ==> Conclude(s.line, s.flags).chunked
  {
  }

  lemma {:induction false} CountedCompletes(start: StartLine, s: State, c: byte)
    requires Sound(s) && CountsBytes(s.mode) && (s.mode == ChunkSizeStart ==> s.nread == 1)
    ensures CompletesOrNot(StepCounted(start, s, c))
    ensures s.mode != ChunkSizeAlmostDone ==> IsQuiet(s, StepCounted(start, s, c))
  {
    hide CompletesOrNot, IsQuiet, StepFieldStart, StepHeadersAlmostDone, StepDiscardLws, StepValueLws;
    if s.mode == FieldStart {
      FieldStartCompletes(start, s, c);
    } else if s.mode == HeadersAlmostDone {
      HeadersDoneCompletes(start, s, c);
    } else if s.mode == ValueDiscardLws {
      DiscardLwsCompletes(start, s, c);
    } else if s.mode == ValueLws {
      ValueLwsCompletes(start, s, c);
    } else if s.mode == ValueDiscardWs {
      DiscardWsCompletes(start, s, c);
    } else if s.mode == Value {
      ValueCompletes(start, s, c);
    } else {
      OtherCompletes(start, s, c);
    }
  }

  lemma {:induction false} DiscardWsCompletes(start: StartLine, s: State, c: byte)
    requires Sound(s) && s.mode == ValueDiscardWs
    ensures CompletesOrNot(StepCounted(start, s, c)) && IsQuiet(s, StepCounted(start, s, c))
  {
    hide Sound, BeginLine;
  }

  lemma {:induction false} ValueCompletes(start: StartLine, s: State, c: byte)
    requires Sound(s) && s.mode == Value
    ensures CompletesOrNot(StepCounted(start, s, c)) && IsQuiet(s, StepCounted(start, s, c))
  {
    hide Sound, NextOfValue, IsHeaderChar;
    ValueByteAlone(s, c);
    assert StepCounted(start, s, c) == StepValue(s, c);
    hide StepCounted;
  }

  lemma {:induction false} OtherCompletes(start: StartLine, s: State, c: byte)
    requires Sound(s) && CountsBytes(s.mode) && (s.mode == ChunkSizeStart ==> s.nread == 1)
    requires s.mode !in {FieldStart, HeadersAlmostDone, ValueDiscardLws, ValueLws, ValueDiscardWs, Value}
    ensures CompletesOrNot(StepCounted(start, s, c))
    ensures s.mode != ChunkSizeAlmostDone ==> IsQuiet(s, StepCounted(start, s, c))
  {
    hide Sound, NextOfName, IsToken, Unhex, StepFieldStart, StepHeadersAlmostDone, StepDiscardLws, StepValueLws,
      BeginValue, StepValue;
  }

  lemma {:induction false} BodyCompletes(s: State, c: byte)
    requires Sound(s) && !CountsBytes(s.mode) && s.mode != Complete
    ensures CompletesOrNot(StepBody(s, c))
  {
  }

  lemma RefusedCompletes(e: Error)
    ensures CompletesOrNot(Refused(e, []))
  {
  }

  lemma {:induction false} StepCompletes(start: StartLine, s: State, c: byte)
    requires Valid(s) && s.mode != Complete
    ensures CompletesOrNot(StepByte(start, s, c))
  {
    hide StepBody, StepCounted, CompletesOrNot, Sound, CountsBytes;
    if !CountsBytes(s.mode) {
      BodyCompletes(s, c);
    } else if s.nread < start.limit {
      SoundWith(s, s.nread + 1);
      CountedCompletes(start, s.(nread := s.nread + 1), c);
    } else {
      RefusedCompletes(HeaderOverflow);
    }
  }
}

/**
 What is refused, and why.  For every state and every byte the table here says whether the byte is taken, by its
 value and by what has been read so far; the machine is proved to follow it, and to stay within the limit on header
 bytes, which makes it refuse a byte exactly when the limit is used up.
 */
module HttpRefusals {
  import opened Bytes
  import opened HttpMessage
  import opened HttpBody
  import opened HttpValues

  /** Where the bytes of a head, of a size line or of a trailer are counted. */
  predicate InLine(mode: Mode) {
    match mode
    case FieldStart | Field => true
    case ValueDiscardWs | ValueDiscardWsAlmostDone | ValueDiscardLws => true
    case Value | ValueLws | HeaderAlmostDone | HeadersAlmostDone => true
    case ChunkSizeStart | ChunkSize | ChunkParameters | ChunkSizeAlmostDone => true
    case _ => false
  }

  function OnlyIf(taken: bool, e: Error): Option<Error> { if taken then None else Some(e) }

  /** The LF of the empty line: a body in chunks must not have a length as well. */
  function AtEmptyLine(s: State): Option<Error> {
    OnlyIf(s.flags.trailing || !(s.flags.chunked || s.line == IsChunked) || !s.flags.contentLength,
           UnexpectedContentLength)
  }

  function AtLineStart(s: State, c: byte): Option<Error> {
    if c == 10 then AtEmptyLine(s) else OnlyIf(c == 13 || IsTokenChar(c), InvalidHeaderToken)
  }

  function AtValueStart(s: State, c: byte): Option<Error> {
    if c == 32 || c == 9 || c == 13 || c == 10 || s.line != ContentLength then None
    else if !(48 <= c <= 57) then Some(InvalidContentLength)
    else OnlyIf(!s.flags.contentLength, UnexpectedContentLength)
  }

  function InValueOf(s: State, c: byte): Option<Error> {
    if c == 13 || c == 10 then None
    else if !(c == 9 || 32 <= c <= 126 || 128 <= c) then Some(InvalidHeaderToken)
    else if s.line == ContentLengthNum then
      OnlyIf(c == 32 || (48 <= c <= 57 && s.length <= 1844674407370955160), InvalidContentLength)
    else OnlyIf(s.line == ContentLengthWs ==> c == 32, InvalidContentLength)
  }

  /** The digits of a size, as the decoding table has them. */
  predicate IsSizeDigit(c: byte) { 48 <= c <= 57 || 65 <= c <= 70 || 97 <= c <= 102 || 128 <= c }

  function InSizeOf(s: State, c: byte): Option<Error> {
    if IsSizeDigit(c) then OnlyIf(s.length <= 1152921504606846974, InvalidContentLength)
    else OnlyIf(c == 13 || c == 59 || c == 32, InvalidChunkSize)
  }

  /** None: the byte is taken. */
  function Refusal(start: StartLine, s: State, c: byte): Option<Error> {
    if InLine(s.mode) && s.nread >= start.limit then Some(HeaderOverflow) else ByMode(s, c)
  }

  function ByMode(s: State, c: byte): Option<Error> {
    match s.mode
    case FieldStart => AtLineStart(s.(line := General), c)
    case Field => OnlyIf(c == 58 || IsTokenChar(c), InvalidHeaderToken)
    case ValueDiscardWs => AtValueStart(s, c)
    case ValueDiscardWsAlmostDone => OnlyIf(c == 10, StrictViolation)
    case ValueDiscardLws =>
      if c == 32 || c == 9 then None
      else if s.line == ContentLength then Some(InvalidContentLength)
      else AtLineStart(s, c)
    case Value => InValueOf(s, c)
    case HeaderAlmostDone => OnlyIf(c == 10, LfExpected)
    case ValueLws => if c == 32 || c == 9 then None else AtLineStart(s, c)
    case HeadersAlmostDone => if c == 10 then AtEmptyLine(s.(line := General)) else Some(StrictViolation)
    case ChunkSizeStart => OnlyIf(IsSizeDigit(c), InvalidChunkSize)
    case ChunkSize => InSizeOf(s, c)
    case ChunkSizeAlmostDone => OnlyIf(c == 10, StrictViolation)
    case ChunkDataAlmostDone => OnlyIf(c == 13, StrictViolation)
    case ChunkDataDone => OnlyIf(c == 10, StrictViolation)
    case _ => None
  }

  function ErrorOf(step: Step): Option<Error> {
    match step
    case Taken(_, _) => None
    case Refused(e, _) => Some(e)
  }

  /** In every state every byte is taken or refused as the table says. */
  lemma {:induction false} RefusedExactly(start: StartLine, s: State, c: byte)
    requires Valid(s) && s.mode != Complete
    ensures ErrorOf(StepByte(start, s, c)) == Refusal(start, s, c)
  {
    hide StepCounted, StepBody, Sound, ByMode;
    if InLine(s.mode) && s.nread < start.limit {
      SoundWith(s, s.nread + 1);
      CountedRefusal(start, s.(nread := s.nread + 1), c);
      SameRefusal(s, s.nread + 1, c);
    } else if !InLine(s.mode) {
      BodyRefusal(s, c);
    }
  }

  lemma SameRefusal(s: State, n: nat, c: byte)
    ensures ByMode(s.(nread := n), c) == ByMode(s, c)
  {
  }

  lemma {:induction false} BodyRefusal(s: State, c: byte)
    requires Sound(s) && !InLine(s.mode) && s.mode != Complete
    ensures ErrorOf(StepBody(s, c)) == ByMode(s, c)
  {
  }

  lemma {:induction false} CountedRefusal(start: StartLine, s: State, c: byte)
    requires Sound(s) && InLine(s.mode)
    requires s.mode == ChunkSizeStart ==> s.nread == 1
    ensures ErrorOf(StepCounted(start, s, c)) == ByMode(s, c)
  {
    hide StepFieldStart, StepValueLws, StepDiscardLws, StepValue, StepHeadersAlmostDone, StepChunkSize, BeginValue,
      AtLineStart, AtEmptyLine, AtValueStart, InValueOf, InSizeOf, IsToken, IsTokenChar, Sound, Conclude, NextOfName;
    match s.mode
    case FieldStart => LineStartRefusal(start, s, c);
    case Field => TokenAlphabet(c);
    case ValueDiscardWs => ValueStartRefusal(start, s, c);
    case ValueDiscardLws => DiscardLwsRefusal(start, s, c);
    case Value => ValueRefusal(s, c);
    case ValueLws => ValueLwsRefusal(start, s, c);
    case HeadersAlmostDone => EmptyLineRefusal(start, s, c);
    case ChunkSize => SizeRefusal(s, c);
    case _ =>
  }

  lemma {:induction false} EmptyLineRefusal(start: StartLine, s: State, c: byte)
    requires Sound(s) && (s.mode == FieldStart || s.mode == HeadersAlmostDone)
    ensures ErrorOf(StepHeadersAlmostDone(start, s, c))
         == if c == 10 then AtEmptyLine(s.(line := General)) else Some(StrictViolation)
  {
    hide NeedsEof, Sound;
  }

  lemma {:induction false} LineStartRefusal(start: StartLine, s: State, c: byte)
    requires Sound(s) && s.mode == FieldStart
    ensures ErrorOf(StepFieldStart(start, s, c)) == AtLineStart(s.(line := General), c)
  {
    hide StepHeadersAlmostDone, AtEmptyLine, IsToken, IsTokenChar, FirstOfName, Sound;
    TokenAlphabet(c);
    EmptyLineRefusal(start, s, c);
  }

  lemma {:induction false} ValueStartRefusal(start: StartLine, s: State, c: byte)
    requires Sound(s) && s.mode == ValueDiscardWs
    ensures ErrorOf(StepCounted(start, s, c)) == AtValueStart(s, c)
  {
    hide BeginLine, Sound;
  }

  /** The flags that the line before has earned count at the empty line. */
  lemma ConcludedRefusal(s: State, c: byte)
    ensures AtLineStart(s.(mode := FieldStart, flags := Conclude(s.line, s.flags), line := General), c)
         == AtLineStart(s, c)
  {
  }

  lemma ConcludedIsSound(s: State)
    requires Sound(s) && (s.mode == ValueLws || s.mode == ValueDiscardLws)
    ensures Sound(s.(mode := FieldStart, flags := Conclude(s.line, s.flags)))
  {
  }

  lemma {:induction false} DiscardLwsRefusal(start: StartLine, s: State, c: byte)
    requires Sound(s) && s.mode == ValueDiscardLws
    ensures ErrorOf(StepDiscardLws(start, s, c)) == ByMode(s, c)
  {
    hide StepFieldStart, Sound, AtLineStart, Conclude;
    ConcludedIsSound(s);
    ConcludedRefusal(s, c);
    LineStartRefusal(start, s.(mode := FieldStart, flags := Conclude(s.line, s.flags)), c);
  }

  lemma {:induction false} ValueLwsRefusal(start: StartLine, s: State, c: byte)
    requires Sound(s) && s.mode == ValueLws
    ensures ErrorOf(StepValueLws(start, s, c)) == ByMode(s, c)
  {
    hide StepFieldStart, AtLineStart, Conclude, BeginLine;
    ConcludedIsSound(s);
    ConcludedRefusal(s, c);
    LineStartRefusal(start, s.(mode := FieldStart, flags := Conclude(s.line, s.flags)), c);
  }

  lemma {:induction false} ValueRefusal(s: State, c: byte)
    requires Sound(s) && s.mode == Value
    ensures ErrorOf(StepValue(s, c)) == InValueOf(s, c)
  {
    hide Against, AfterOption, FirstOfToken, Lower, IsToken, Sound;
  }

  lemma {:induction false} SizeRefusal(s: State, c: byte)
    requires Sound(s) && s.mode == ChunkSize
    ensures ErrorOf(StepChunkSize(s, c)) == InSizeOf(s, c)
  {
    hide Sound;
  }

  // ---------- the limit ----------

  /** Never more header bytes than the limit allows, and a byte is refused for it only when they are used up. */
  lemma {:induction false} LimitIsKept(start: StartLine, s: State, input: bytes)
    requires Valid(s) && (InLine(s.mode) ==> s.nread <= start.limit)
    ensures var r := Run(start, s, input);
            && (InLine(r.outcome.state.mode) ==> r.outcome.state.nread <= start.limit)
            && (r.outcome.Failed? && r.outcome.error == HeaderOverflow ==> r.outcome.state.nread == start.limit)
    decreases |input|
  {
    hide StepByte, Valid, Refusal;
    if input != [] && s.mode != Complete {
      RefusedExactly(start, s, input[0]);
      LimitStep(start, s, input[0]);
      if StepByte(start, s, input[0]).Taken? {
        LimitIsKept(start, StepByte(start, s, input[0]).state, input[1..]);
      }
    }
  }

  lemma {:induction false} LimitStep(start: StartLine, s: State, c: byte)
    requires Valid(s) && s.mode != Complete && (InLine(s.mode) ==> s.nread <= start.limit)
    ensures match StepByte(start, s, c)
            case Taken(s1, _) => InLine(s1.mode) ==> s1.nread <= start.limit
            case Refused(e, _) => e == HeaderOverflow ==> s.nread == start.limit
  {
    hide Sound, NextOfName, NeedsEof, BeginLine, FirstOfName, FirstOfToken, Against, IsToken, IsHeaderChar, Conclude,
      Unhex, Lower;
  }
}

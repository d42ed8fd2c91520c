/**
 The header lines and the body of an HTTP message, as a machine that takes one byte at a time.  The
 real parser runs through names, values and body data in inner loops and reports text by marks; here
 each byte is one step, and a byte of text is reported when it is read.
 */
module HttpMessage {
  import opened Bytes

  const ULLONG_MAX := 0xffff_ffff_ffff_ffff

  datatype Mode =
    | FieldStart | Field
    | ValueDiscardWs | ValueDiscardWsAlmostDone | ValueDiscardLws
    | Value | ValueLws | HeaderAlmostDone
    | ChunkSizeStart | ChunkSize | ChunkParameters | ChunkSizeAlmostDone
    | HeadersAlmostDone
    | ChunkData | ChunkDataAlmostDone | ChunkDataDone
    | BodyIdentity | BodyIdentityEof
    | Complete

  /** What is known about the current header line. */
  datatype Line =
    | General
    | NameC | NameCO | NameCON
    | NameConnection | NameProxyConnection | NameContentLength | NameTransferEncoding | NameUpgrade
    | Connection | ContentLength | ContentLengthNum | ContentLengthWs | TransferEncoding | Upgrade
    | ValueChunked
    | TokenStart | ValueKeepAlive | ValueClose | ValueUpgrade | Token
    | IsChunked | IsKeepAlive | IsClose | IsUpgrade

  datatype Flags = Flags(chunked: bool, keepAlive: bool, close: bool, connectionUpgrade: bool,
                         trailing: bool, upgrade: bool, contentLength: bool)

  const NO_FLAGS := Flags(false, false, false, false, false, false, false)

  datatype Error =
    | InvalidHeaderToken | LfExpected | InvalidContentLength | UnexpectedContentLength
    | StrictViolation | InvalidChunkSize | HeaderOverflow

  /** What is fixed before the header lines: what the start line says, how many bytes it took, and the
      largest number of header bytes allowed. */
  datatype StartLine = StartLine(request: bool, connect: bool, status: nat, taken: nat, limit: nat)

  /** Callbacks, with text reported byte by byte; NameEnd and ValueEnd are the calls that are made
      because a text is complete, not because a buffer is. */
  datatype Event =
    | NameByte(b: byte)
    | ValueByte(b: byte)
    | NameEnd
    | ValueEnd
    | HeadersComplete
    | ChunkHeader(length: nat)
    | BodyByte(b: byte)
    | ChunkComplete
    | MessageComplete

  /** 'length' is content_length: ULLONG_MAX as long as no length is known.  'nread' counts header bytes. */
  datatype State = State(mode: Mode, line: Line, index: nat, flags: Flags, length: nat, upgrade: bool, nread: nat)

  function AfterStartLine(start: StartLine): State {
    State(FieldStart, General, 0, NO_FLAGS, ULLONG_MAX, false, start.taken)
  }

  /** The modes in which bytes count against the limit: header lines, and the size lines of chunks. */
  predicate CountsBytes(mode: Mode) {
    mode !in {ChunkData, ChunkDataAlmostDone, ChunkDataDone, BodyIdentity, BodyIdentityEof, Complete}
  }

  /** A byte that is refused may end an empty value first: then the end of the value has been reported. */
  datatype Step = Taken(state: State, events: seq<Event>) | Refused(error: Error, events: seq<Event>)

  // ---------- characters ----------

  /** RFC 7230 section 3.2.6. */
  predicate IsToken(c: byte) {
    IsAlpha(c) || IsDigit(c) || c in {33, 35, 36, 37, 38, 39, 42, 43, 45, 46, 94, 95, 96, 124, 126}
  }

  function LowerToken(c: byte): byte { if 65 <= c <= 90 then c + 32 else c }

  /** The bit 0x20 set, which lowers letters and changes some other characters too. */
  function Lower(c: byte): byte { if (c / 32) % 2 == 1 then c else c + 32 }

  predicate IsHeaderChar(c: byte) { c == CR || c == LF || c == 9 || (c > 31 && c != 127) }

  /** The decoding table.  It spells out 128 of its 256 entries, so that the others are 0. */
  function Unhex(c: byte): (v: int)
    ensures -1 <= v < 16
  {
    if IsHexDigit(c) then HexValue(c)
    else if c < 128 then -1
    else 0
  }

  const CONNECTION: bytes := [99, 111, 110, 110, 101, 99, 116, 105, 111, 110]
  const PROXY_CONNECTION: bytes := [112, 114, 111, 120, 121, 45] + CONNECTION
  const CONTENT_LENGTH: bytes := [99, 111, 110, 116, 101, 110, 116, 45, 108, 101, 110, 103, 116, 104]
  const TRANSFER_ENCODING: bytes :=
    [116, 114, 97, 110, 115, 102, 101, 114, 45, 101, 110, 99, 111, 100, 105, 110, 103]
  const UPGRADE: bytes := [117, 112, 103, 114, 97, 100, 101]
  const CHUNKED: bytes := [99, 104, 117, 110, 107, 101, 100]
  const KEEP_ALIVE: bytes := [107, 101, 101, 112, 45, 97, 108, 105, 118, 101]
  const CLOSE: bytes := [99, 108, 111, 115, 101]

  // ---------- names and values ----------

  /** One more character against a word: still matching, complete, or lost. */
  function Against(word: bytes, index: nat, c: byte, on: Line, done: Line, lost: Line): Line {
    if index >= |word| || c != word[index] then lost
    else if index == |word| - 1 then done
    else on
  }

  function FirstOfName(c: byte): Line {
    if c == 99 then NameC
    else if c == 112 then NameProxyConnection
    else if c == 116 then NameTransferEncoding
    else if c == 117 then NameUpgrade
    else General
  }

  /** The line state after a further character of the name, lowered; 'index' is its position when the
      state keeps count. */
  function NextOfName(line: Line, index: nat, c: byte): Line {
    match line
    case NameC => if c == 111 then NameCO else General
    case NameCO => if c == 110 then NameCON else General
    case NameCON => if c == 110 then NameConnection else if c == 116 then NameContentLength else General
    case NameConnection => Against(CONNECTION, index, c, line, Connection, General)
    case NameProxyConnection => Against(PROXY_CONNECTION, index, c, line, Connection, General)
    case NameContentLength => Against(CONTENT_LENGTH, index, c, line, ContentLength, General)
    case NameTransferEncoding => Against(TRANSFER_ENCODING, index, c, line, TransferEncoding, General)
    case NameUpgrade => Against(UPGRADE, index, c, line, Upgrade, General)
    case _ => General
  }

  predicate CountsName(line: Line) {
    || line.NameC? || line.NameCO? || line.NameCON?
    || line.NameConnection? || line.NameProxyConnection? || line.NameContentLength?
    || line.NameTransferEncoding? || line.NameUpgrade?
  }

  predicate IsNameLine(line: Line) {
    || CountsName(line)
    || line.General? || line.Connection? || line.ContentLength? || line.TransferEncoding? || line.Upgrade?
  }

  predicate IsValueLine(line: Line) {
    || line.General? || line.ContentLengthNum? || line.ContentLengthWs? || line.ValueChunked?
    || line.TokenStart? || line.ValueKeepAlive? || line.ValueClose? || line.ValueUpgrade? || line.Token?
    || line.IsChunked? || line.IsKeepAlive? || line.IsClose? || line.IsUpgrade?
  }

  function FirstOfToken(c: byte, other: Line): Line {
    if c == 107 then ValueKeepAlive
    else if c == 99 then ValueClose
    else if c == 117 then ValueUpgrade
    else other
  }

  /** The flags that the end of a connection option or of a value turns on. */
  function Conclude(line: Line, flags: Flags): Flags {
    match line
    case IsKeepAlive => flags.(keepAlive := true)
    case IsClose => flags.(close := true)
    case IsUpgrade => flags.(connectionUpgrade := true)
    case IsChunked => flags.(chunked := true)
    case _ => flags
  }

  predicate ReadsName(mode: Mode) {
    mode.Field? || mode.ValueDiscardWs? || mode.ValueDiscardWsAlmostDone? || mode.ValueDiscardLws?
  }

  predicate ReadsValue(mode: Mode) {
    mode.Value? || mode.HeaderAlmostDone? || mode.ValueLws?
  }

  predicate ReadsChunks(mode: Mode) {
    || mode.ChunkSizeStart? || mode.ChunkSize? || mode.ChunkParameters? || mode.ChunkSizeAlmostDone?
    || mode.ChunkData? || mode.ChunkDataAlmostDone? || mode.ChunkDataDone?
  }

  /** The invariant of the machine.  It makes the parser's own assertions hold: a line state fits the
      place it is used in, chunk states occur only in chunked messages, and a body is being read only
      while a known, non-zero number of bytes is outstanding. */
  ghost predicate Sound(s: State) {
    && s.length <= ULLONG_MAX
    && (s.flags.trailing ==> s.flags.chunked)
    && (s.line == ContentLengthNum ==> s.length < ULLONG_MAX)
    && (ReadsName(s.mode) ==> IsNameLine(s.line))
    && (ReadsValue(s.mode) ==> IsValueLine(s.line))
    && (ReadsChunks(s.mode) ==> s.flags.chunked)
    && (s.mode.ChunkSize? || s.mode.ChunkParameters? || s.mode.ChunkSizeAlmostDone? ==> s.length < ULLONG_MAX)
    && (s.mode.ChunkData? || s.mode.BodyIdentity? ==> 0 < s.length < ULLONG_MAX)
    && (s.mode.ChunkDataAlmostDone? ==> s.length == 0)
  }

  /** Between two bytes.  The count starts anew with every chunk size. */
  ghost predicate Valid(s: State) {
    Sound(s) && (s.mode == ChunkSizeStart ==> s.nread == 0)
  }

  lemma SoundWith(s: State, n: nat)
    requires Sound(s)
    ensures Sound(s.(nread := n))
  {
  }

  ghost predicate StepOk(r: Step) {
    r.Taken? ==> Valid(r.state)
  }

  /** What the first character of a value says, unless the value is a length. */
  function BeginLine(line: Line, c: byte): (r: Line)
    requires line != ContentLength && (IsNameLine(line) || IsValueLine(line))
    ensures IsValueLine(r) && r != ContentLengthNum
  {
    match line
    case TransferEncoding => if Lower(c) == 99 then ValueChunked else General
    case ContentLengthWs => ContentLengthWs
    case Connection => FirstOfToken(Lower(c), Token)
    case TokenStart => TokenStart
    case _ => General
  }

  /** The first character of a value. */
  function BeginValue(s: State, c: byte): (r: Step)
    requires Sound(s) && (s.mode.ValueDiscardWs? || s.mode.ValueLws?)
    ensures StepOk(r)
  {
    if s.line != ContentLength then
      Taken(s.(mode := Value, index := 0, line := BeginLine(s.line, c),
               flags := if s.line == Upgrade then s.flags.(upgrade := true) else s.flags),
            [ValueByte(c)])
    else if !IsDigit(c) then Refused(InvalidContentLength, [])
    else if s.flags.contentLength then Refused(UnexpectedContentLength, [])
    else
      Taken(s.(mode := Value, index := 0, line := ContentLengthNum, length := c - 48,
               flags := s.flags.(contentLength := true)),
            [ValueByte(c)])
  }

  /** A further character of a value that is neither CR nor LF. */
  function NextOfValue(s: State, c: byte): (r: Step)
    requires Sound(s) && s.mode == Value
    ensures StepOk(r) && (r.Refused? ==> r.error == InvalidContentLength)
  {
    var e := [ValueByte(c)];
    var i := s.index + 1;
    match s.line
    case ContentLengthNum =>
      if c == 32 then Taken(s.(line := ContentLengthWs), e)
      else if !IsDigit(c) || (ULLONG_MAX - 10) / 10 < s.length then Refused(InvalidContentLength, [])
      else Taken(s.(length := s.length * 10 + (c - 48)), e)
    case ContentLengthWs => if c == 32 then Taken(s, e) else Refused(InvalidContentLength, [])
    case ValueChunked =>
      Taken(s.(index := i, line := Against(CHUNKED, i, Lower(c), ValueChunked, IsChunked, General)), e)
    case TokenStart =>
      var other := if IsToken(Lower(c)) then Token else if c == 32 then TokenStart else General;
      Taken(s.(line := FirstOfToken(Lower(c), other)), e)
    case ValueKeepAlive =>
      Taken(s.(index := i, line := Against(KEEP_ALIVE, i, Lower(c), ValueKeepAlive, IsKeepAlive, Token)), e)
    case ValueClose => Taken(s.(index := i, line := Against(CLOSE, i, Lower(c), ValueClose, IsClose, Token)), e)
    case ValueUpgrade =>
      Taken(s.(index := i, line := Against(UPGRADE, i, Lower(c), ValueUpgrade, IsUpgrade, Token)), e)
    case Token => if c == 44 then Taken(s.(line := TokenStart, index := 0), e) else Taken(s, e)
    case IsChunked => Taken(if c == 32 then s else s.(line := General), e)
    case IsKeepAlive => Taken(AfterOption(s, c), e)
    case IsClose => Taken(AfterOption(s, c), e)
    case IsUpgrade => Taken(AfterOption(s, c), e)
    case _ => Taken(s.(line := General), e)
  }

  /** After a complete connection option: a comma confirms it, a space keeps it, anything else spoils it. */
  function AfterOption(s: State, c: byte): State {
    if c == 44 then s.(flags := Conclude(s.line, s.flags), line := TokenStart, index := 0)
    else if c == 32 then s
    else s.(line := Token)
  }

  // ---------- the steps ----------

  function StepField(s: State, c: byte): (r: Step)
    requires Sound(s) && s.mode == Field
    ensures StepOk(r)
  {
    if IsToken(c) then
      Taken(s.(line := NextOfName(s.line, s.index + 1, LowerToken(c)),
               index := if CountsName(s.line) then s.index + 1 else s.index), [NameByte(c)])
    else if c == 58 then Taken(s.(mode := ValueDiscardWs), [NameEnd])
    else Refused(InvalidHeaderToken, [])
  }

  function StepFieldStart(start: StartLine, s: State, c: byte): (r: Step)
    requires Sound(s) && s.mode == FieldStart
    ensures StepOk(r)
  {
    if c == CR then Taken(s.(mode := HeadersAlmostDone), [])
    else if c == LF then StepHeadersAlmostDone(start, s, c)
    else if IsToken(c) then
      Taken(s.(mode := Field, index := 0, line := FirstOfName(LowerToken(c))), [NameByte(c)])
    else Refused(InvalidHeaderToken, [])
  }

  function StepValue(s: State, c: byte): (r: Step)
    requires Sound(s) && s.mode == Value
    ensures StepOk(r)
  {
    if c == CR then Taken(s.(mode := HeaderAlmostDone), [ValueEnd])
    else if c == LF then Taken(s.(mode := ValueLws), [ValueEnd])
    else if !IsHeaderChar(c) then Refused(InvalidHeaderToken, [])
    else NextOfValue(s, c)
  }

  /** The byte after a header line: a blank continues its value. */
  function StepValueLws(start: StartLine, s: State, c: byte): (r: Step)
    requires Sound(s) && s.mode == ValueLws
    ensures StepOk(r)
  {
    if c == 32 || c == 9 then
      BeginValue(s.(line := if s.line == ContentLengthNum then ContentLengthWs else s.line), c)
    else StepFieldStart(start, s.(mode := FieldStart, flags := Conclude(s.line, s.flags)), c)
  }

  function StepDiscardLws(start: StartLine, s: State, c: byte): (r: Step)
    requires Sound(s) && s.mode == ValueDiscardLws
    ensures StepOk(r)
  {
    if c == 32 || c == 9 then Taken(s.(mode := ValueDiscardWs), [])
    else if s.line == ContentLength then Refused(InvalidContentLength, [])
    else
      match StepFieldStart(start, s.(mode := FieldStart, flags := Conclude(s.line, s.flags)), c)
      case Refused(e, events) => Refused(e, [ValueEnd] + events)
      case Taken(t, events) => Taken(t, [ValueEnd] + events)
  }

  predicate NeedsEof(start: StartLine, s: State) {
    && !start.request
    && !(start.status / 100 == 1 || start.status == 204 || start.status == 304)
    && !s.flags.chunked && s.length == ULLONG_MAX
  }

  /** The line feed after the last header: the body, if any, is decided here. */
  function StepHeadersAlmostDone(start: StartLine, s: State, c: byte): (r: Step)
    requires Sound(s) && (s.mode.FieldStart? || s.mode.HeadersAlmostDone?)
    ensures StepOk(r)
  {
    if c != LF then Refused(StrictViolation, [])
    else if s.flags.trailing then Taken(s.(mode := Complete), [ChunkComplete, MessageComplete])
    else if s.flags.chunked && s.flags.contentLength then Refused(UnexpectedContentLength, [])
    else
      var upgrade := if s.flags.upgrade && s.flags.connectionUpgrade
                     then start.request || start.status == 101 else start.connect;
      var t := s.(upgrade := upgrade, nread := 0);
      var hasBody := s.flags.chunked || 0 < s.length < ULLONG_MAX;
      if upgrade && (start.connect || !hasBody) then Taken(t.(mode := Complete), [HeadersComplete, MessageComplete])
      else if s.flags.chunked then Taken(t.(mode := ChunkSizeStart), [HeadersComplete])
      else if 0 < s.length < ULLONG_MAX then Taken(t.(mode := BodyIdentity), [HeadersComplete])
      else if s.length != 0 && NeedsEof(start, s) then Taken(t.(mode := BodyIdentityEof), [HeadersComplete])
      else Taken(t.(mode := Complete), [HeadersComplete, MessageComplete])
  }

  function StepChunkSize(s: State, c: byte): (r: Step)
    requires Sound(s) && s.mode == ChunkSize
    ensures StepOk(r)
  {
    if c == CR then Taken(s.(mode := ChunkSizeAlmostDone), [])
    else if Unhex(c) == -1 then
      if c == 59 || c == 32 then Taken(s.(mode := ChunkParameters), []) else Refused(InvalidChunkSize, [])
    else if (ULLONG_MAX - 16) / 16 < s.length then Refused(InvalidContentLength, [])
    else Taken(s.(length := s.length * 16 + Unhex(c)), [])
  }

  /** What a byte does once it has been counted.  At the start of a chunk size it is the first. */
  function StepCounted(start: StartLine, s: State, c: byte): (r: Step)
    requires Sound(s) && CountsBytes(s.mode)
    requires s.mode == ChunkSizeStart ==> s.nread == 1
    ensures StepOk(r)
  {
    match s.mode
    case FieldStart => StepFieldStart(start, s, c)
    case Field => StepField(s, c)
    case ValueDiscardWs =>
      if c == 32 || c == 9 then Taken(s, [])
      else if c == CR then Taken(s.(mode := ValueDiscardWsAlmostDone), [])
      else if c == LF then Taken(s.(mode := ValueDiscardLws), [])
      else BeginValue(s, c)
    case ValueDiscardWsAlmostDone =>
      if c != LF then Refused(StrictViolation, []) else Taken(s.(mode := ValueDiscardLws), [])
    case ValueDiscardLws => StepDiscardLws(start, s, c)
    case Value => StepValue(s, c)
    case HeaderAlmostDone => if c != LF then Refused(LfExpected, []) else Taken(s.(mode := ValueLws), [])
    case ValueLws => StepValueLws(start, s, c)
    case HeadersAlmostDone => StepHeadersAlmostDone(start, s, c)
    case ChunkSizeStart =>
      if Unhex(c) == -1 then Refused(InvalidChunkSize, []) else Taken(s.(mode := ChunkSize, length := Unhex(c)), [])
    case ChunkSize => StepChunkSize(s, c)
    case ChunkParameters => if c == CR then Taken(s.(mode := ChunkSizeAlmostDone), []) else Taken(s, [])
    case ChunkSizeAlmostDone =>
      if c != LF then Refused(StrictViolation, [])
      else if s.length == 0 then
        Taken(s.(mode := FieldStart, nread := 0, flags := s.flags.(trailing := true)), [ChunkHeader(0)])
      else Taken(s.(mode := ChunkData, nread := 0), [ChunkHeader(s.length)])
  }

  /** A byte of a body, or of the line end after the data of a chunk. */
  function StepBody(s: State, c: byte): (r: Step)
    requires Sound(s) && !CountsBytes(s.mode) && s.mode != Complete
    ensures StepOk(r)
  {
    match s.mode
    case ChunkData =>
      Taken(s.(length := s.length - 1, mode := if s.length == 1 then ChunkDataAlmostDone else ChunkData), [BodyByte(c)])
    case ChunkDataAlmostDone => if c != CR then Refused(StrictViolation, []) else Taken(s.(mode := ChunkDataDone), [])
    case ChunkDataDone =>
      if c != LF then Refused(StrictViolation, []) else Taken(s.(mode := ChunkSizeStart, nread := 0), [ChunkComplete])
    case BodyIdentity =>
      if s.length == 1 then Taken(s.(length := 0, mode := Complete), [BodyByte(c), MessageComplete])
      else Taken(s.(length := s.length - 1), [BodyByte(c)])
    case BodyIdentityEof => Taken(s, [BodyByte(c)])
  }

  /** One byte: refused when it is a header byte too many. */
  function StepByte(start: StartLine, s: State, c: byte): (r: Step)
    requires Valid(s) && s.mode != Complete
    ensures StepOk(r)
  {
    if !CountsBytes(s.mode) then StepBody(s, c)
    else if s.nread >= start.limit then Refused(HeaderOverflow, [])
    else StepCounted(start, s.(nread := s.nread + 1), c)
  }

  // ---------- runs ----------

  /** A failure comes with the state in which the byte was refused. */
  datatype Outcome = Going(state: State) | Failed(error: Error, state: State)

  datatype Result = Result(outcome: Outcome, events: seq<Event>, consumed: nat)

  /** Stops at the end of the message, or at the first byte that is refused. */
  function Run(start: StartLine, s: State, input: bytes): (r: Result)
    requires Valid(s)
    ensures r.consumed <= |input|
    ensures Valid(r.outcome.state)
    ensures r.outcome.Going? && r.consumed < |input| ==> r.outcome.state.mode == Complete
    decreases |input|
  {
    if input == [] || s.mode == Complete then Result(Going(s), [], 0)
    else match StepByte(start, s, input[0])
         case Refused(e, events) => Result(Failed(e, s), events, 0)
         case Taken(s', events) =>
           var r := Run(start, s', input[1..]);
           Result(r.outcome, events + r.events, 1 + r.consumed)
  }

  /** Nothing more is read after this. */
  predicate Stopped(r: Result) {
    r.outcome.Failed? || r.outcome.state.mode == Complete
  }

  function Prefixed(events: seq<Event>, consumed: nat, r: Result): Result {
    Result(r.outcome, events + r.events, consumed + r.consumed)
  }

  /** Calls are made until the message is complete or has failed. */
  function FeedAll(start: StartLine, s: State, pieces: seq<bytes>): (r: Result)
    requires Valid(s)
    decreases |pieces|
  {
    if pieces == [] then Result(Going(s), [], 0)
    else
      var first := Run(start, s, pieces[0]);
      if Stopped(first) then first
      else Prefixed(first.events, first.consumed, FeedAll(start, first.outcome.state, pieces[1..]))
  }

  lemma {:induction false} RunStep(start: StartLine, s: State, input: bytes)
    requires Valid(s) && s.mode != Complete && input != [] && StepByte(start, s, input[0]).Taken?
    ensures var step := StepByte(start, s, input[0]);
            Run(start, s, input) == Prefixed(step.events, 1, Run(start, step.state, input[1..]))
  {
    hide StepByte, Valid;
  }

  /** The limit cannot be exceeded by fewer bytes than it leaves. */
  lemma {:induction false} WithinLimit(start: StartLine, s: State, input: bytes)
    requires Valid(s) && s.nread + |input| <= start.limit
    ensures var r := Run(start, s, input); r.outcome.Failed? ==> r.outcome.error != HeaderOverflow
    decreases |input|
  {
    hide StepByte, Valid;
    if input != [] && s.mode != Complete {
      StepWithinLimit(start, s, input[0]);
      var step := StepByte(start, s, input[0]);
      if step.Taken? {
        RunStep(start, s, input);
        WithinLimit(start, step.state, input[1..]);
      }
    }
  }

  lemma {:induction false} StepWithinLimit(start: StartLine, s: State, c: byte)
    requires Valid(s) && s.mode != Complete && s.nread < start.limit
    ensures match StepByte(start, s, c)
            case Refused(e, _) => e != HeaderOverflow
            case Taken(s', _) => s'.nread <= s.nread + 1
  {
    hide Sound, NextOfName, NeedsEof, BeginLine, FirstOfName, FirstOfToken, Against, IsToken, IsHeaderChar, Conclude,
      Unhex, Lower;
  }

  lemma {:induction false} RunAppend(start: StartLine, s: State, a: bytes, b: bytes)
    requires Valid(s)
    ensures var first := Run(start, s, a);
            Run(start, s, a + b) ==
              if Stopped(first) then first
              else Prefixed(first.events, first.consumed, Run(start, first.outcome.state, b))
    decreases |a|
  {
    hide StepByte, Valid;
    if a == [] {
      assert a + b == b;
      assert s.mode != Complete ==> [] + Run(start, s, b).events == Run(start, s, b).events;
    } else if s.mode != Complete {
      assert (a + b)[0] == a[0] && (a + b)[1..] == a[1..] + b;
      var step := StepByte(start, s, a[0]);
      if step.Taken? {
        RunStep(start, s, a);
        RunStep(start, s, a + b);
        RunAppend(start, step.state, a[1..], b);
        hide Run;
        var first := Run(start, step.state, a[1..]);
        if !Stopped(first) {
          var rest := Run(start, first.outcome.state, b);
          assert step.events + (first.events + rest.events) == (step.events + first.events) + rest.events;
        }
      }
    }
  }

  /** Split independence: data, flags, final state, errors and the end of the message do not depend on
      how the bytes were cut. */
  lemma {:induction false} SplitIndependence(start: StartLine, s: State, pieces: seq<bytes>)
    requires Valid(s)
    ensures FeedAll(start, s, pieces) == Run(start, s, Concat(pieces))
    decreases |pieces|
  {
    hide StepByte, Valid;
    if pieces != [] {
      RunAppend(start, s, pieces[0], Concat(pieces[1..]));
      var first := Run(start, s, pieces[0]);
      if !Stopped(first) {
        SplitIndependence(start, first.outcome.state, pieces[1..]);
      }
    }
  }
}

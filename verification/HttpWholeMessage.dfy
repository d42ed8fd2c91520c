/** Messages as they are written: header lines, the empty line, and what comes behind it by their leave: nothing, a
    body of known length, chunks with trailer lines, or all up to the end. */
module HttpWholeMessage {
  import opened Bytes
  import opened HttpMessage
  import opened HttpBody
  import opened HttpValues
  import opened HttpHeaders

  // ---------- the end of a message ----------

  /** The message is complete after 'n' bytes, with these callbacks, flags and upgrade. */
  ghost predicate Ends(r: Result, e: seq<Event>, n: nat, flags: Flags, upgrade: bool) {
    && r.outcome.Going? && r.outcome.state.mode == Complete && r.outcome.state.flags == flags
    && r.outcome.state.upgrade == upgrade && r.events == e && r.consumed == n
  }

  lemma {:induction false} EndsThen(start: StartLine, s: State, a: bytes, more: bytes, s1: State, e: seq<Event>,
                                    rest: seq<Event>, n: nat, flags: Flags, upgrade: bool)
    requires Leads(start, s, a, more, s1, e) && Ends(Run(start, s1, more), rest, n, flags, upgrade)
    ensures Ends(Run(start, s, a + more), e + rest, |a| + n, flags, upgrade)
  {
    hide Run;
  }

  /** The header lines and the empty line. */
  function HeadText(hs: seq<Header>, crlf: bool): bytes { HeadersText(hs) + Eol(crlf) }

  /** Header lines within the limit. */
  ghost predicate HeadOk(start: StartLine, hs: seq<Header>, crlf: bool) {
    HeadersOk(hs, false) && start.taken + |HeadText(hs, crlf)| <= start.limit
  }

  predicate SaysChunks(hs: seq<Header>) { exists h | h in hs :: SaysChunked(h) }

  predicate HasLength(hs: seq<Header>) { exists h | h in hs :: IsLength(h.name) }

  /** The upgrade that a message asks for: both headers, in a request or in a response with status 101. */
  predicate Upgrades(start: StartLine, hs: seq<Header>) {
    && (exists h | h in hs :: SaysUpgrade(h)) && (exists h | h in hs :: Asks(h, "upgrade"))
    && (start.request || start.status == 101)
  }

  /** The state at the empty line. */
  ghost predicate AtEmptyLine(start: StartLine, hs: seq<Header>, s: State) {
    && Valid(s) && s.mode == FieldStart && !s.upgrade && s.flags == FlagsAfterAll(NO_FLAGS, hs)
    && s.length == LengthAfterAll(ULLONG_MAX, hs) && s.nread == start.taken + |HeadersText(hs)|
  }

  lemma {:induction false} HeadRead(start: StartLine, hs: seq<Header>, crlf: bool, tail: bytes) returns (s: State)
    requires HeadOk(start, hs, crlf)
    ensures Leads(start, AfterStartLine(start), HeadersText(hs), Eol(crlf) + tail, s, HeadersEvents(hs))
    ensures AtEmptyLine(start, hs, s)
  {
    hide HeadersText, HeadersEvents, HeadersOk, Leads, FlagsAfterAll, LengthAfterAll;
    assert Eol(crlf) + tail != [] && !IsBlank((Eol(crlf) + tail)[0]);
    s := LinesRead(start, AfterStartLine(start), hs, Eol(crlf) + tail);
  }

  /** The last byte of the empty line. */
  function Decided(start: StartLine, s: State, crlf: bool): Step
    requires Valid(s) && s.mode == FieldStart
  {
    StepHeadersAlmostDone(start, s.(mode := HeadersAlmostDone, nread := s.nread + |Eol(crlf)|), LF)
  }

  lemma {:induction false} OneByte(start: StartLine, s: State, c: byte, tail: bytes)
    requires Valid(s) && s.mode != Complete
    ensures match StepByte(start, s, c)
            case Taken(s1, e) => Leads(start, s, [c], tail, s1, e)
            case Refused(error, e) => Run(start, s, [c] + tail) == Result(Failed(error, s), e, 0)
  {
    hide StepByte, Valid;
    assert ([c] + tail)[1..] == tail;
  }

  lemma {:induction false} EmptyLineStep(start: StartLine, s: State, crlf: bool)
    requires Valid(s) && s.mode == FieldStart && s.nread + |Eol(crlf)| <= start.limit
    ensures var s1 := Counted(s, 1).(mode := HeadersAlmostDone);
            && Valid(s1) && StepByte(start, s, CR) == Taken(s1, [])
            && Decided(start, s, crlf) == StepByte(start, if crlf then s1 else s, LF)
  {
    hide StepField, StepValue, StepValueLws, StepDiscardLws, StepChunkSize, BeginValue;
  }

  /** The empty line decides what follows. */
  lemma {:induction false} EmptyLineRead(start: StartLine, s: State, crlf: bool, tail: bytes)
    requires Valid(s) && s.mode == FieldStart && s.nread + |Eol(crlf)| <= start.limit
    ensures match Decided(start, s, crlf)
            case Taken(s1, e) => Leads(start, s, Eol(crlf), tail, s1, e)
            case Refused(error, e) =>
              var r := Run(start, s, Eol(crlf) + tail);
              r.outcome.Failed? && r.outcome.error == error && r.events == e && r.consumed == |Eol(crlf)| - 1
  {
    hide StepByte, Valid, Decided;
    EmptyLineStep(start, s, crlf);
    var s1 := Counted(s, 1).(mode := HeadersAlmostDone);
    if !crlf {
      OneByte(start, s, LF, tail);
    } else {
      OneByte(start, s, CR, [LF] + tail);
      OneByte(start, s1, LF, tail);
      Regroup([CR], [LF], tail);
      assert [CR] + [LF] == Eol(crlf);
      match Decided(start, s, crlf)
      case Taken(s2, e) =>
        assert [] + e == e;
        LeadsOn(start, s, [CR], s1, [], [LF], s2, e, tail);
      case Refused(error, e) =>
        assert [] + e == e;
    }
  }

  // ---------- messages without a length ----------

  /** The body of a message that goes on until the connection ends. */
  lemma {:induction false} BodyUntilEof(start: StartLine, s: State, tail: bytes)
    requires Valid(s) && s.mode == BodyIdentityEof
    ensures Run(start, s, tail) == Result(Going(s), BodyBytes(tail), |tail|)
    decreases |tail|
  {
    if tail != [] {
      BodyUntilEof(start, s, tail[1..]);
    }
  }

  predicate IsBodiless(start: StartLine) {
    start.request || 100 <= start.status <= 199 || start.status == 204 || start.status == 304
  }

  /** What the header lines mean at the empty line. */
  lemma {:induction false} HeadMeans(start: StartLine, hs: seq<Header>, s: State)
    requires AtEmptyLine(start, hs, s) && HeadersOk(hs, false)
    ensures s.flags.chunked == SaysChunks(hs) && s.flags.contentLength == HasLength(hs) && !s.flags.trailing
    ensures !HasLength(hs) ==> s.length == ULLONG_MAX
    ensures UpgradeFound(start, s) == Upgrades(start, hs)
  {
    hide HeadersOk, IsLength, SaysChunked, Asks, SaysUpgrade;
    FlagsMean(NO_FLAGS, hs, false);
    LengthMeans(ULLONG_MAX, hs, false);
  }

  predicate UpgradeFound(start: StartLine, s: State) {
    s.flags.upgrade && s.flags.connectionUpgrade && (start.request || start.status == 101)
  }

  /** The header lines, and what the empty line and everything behind it amount to. */
  lemma {:induction false} HeadThen(start: StartLine, hs: seq<Header>, crlf: bool, tail: bytes, s: State, s1: State,
                                    e: seq<Event>, rest: seq<Event>, n: nat, flags: Flags)
    requires AtEmptyLine(start, hs, s)
    requires Leads(start, AfterStartLine(start), HeadersText(hs), Eol(crlf) + tail, s, HeadersEvents(hs))
    requires Leads(start, s, Eol(crlf), tail, s1, e)
    requires Ends(Run(start, s1, tail), rest, n, flags, s1.upgrade)
    ensures Ends(Run(start, AfterStartLine(start), HeadText(hs, crlf) + tail), HeadersEvents(hs) + (e + rest),
                 |HeadText(hs, crlf)| + n, flags, s1.upgrade)
  {
    hide Run, Leads, HeadersText, HeadersEvents, Eol;
    EndsThen(start, s, Eol(crlf), tail, s1, e, rest, n, flags, s1.upgrade);
    Regroup(HeadersText(hs), Eol(crlf), tail);
    EndsThen(start, AfterStartLine(start), HeadersText(hs), Eol(crlf) + tail, s, HeadersEvents(hs), e + rest,
             |Eol(crlf)| + n, flags, s1.upgrade);
  }

  /** With neither length nor chunks, a request and a response without a body are complete at the empty line. */
  lemma {:induction false} BodilessMessage(start: StartLine, hs: seq<Header>, crlf: bool, tail: bytes)
    requires !start.connect && IsBodiless(start) && HeadOk(start, hs, crlf) && !SaysChunks(hs) && !HasLength(hs)
    ensures Ends(Run(start, AfterStartLine(start), HeadText(hs, crlf) + tail),
                 HeadersEvents(hs) + [HeadersComplete, MessageComplete], |HeadText(hs, crlf)|,
                 FlagsAfterAll(NO_FLAGS, hs), Upgrades(start, hs))
  {
    hide Run, Leads, HeadersText, HeadersEvents, HeadersOk, FlagsAfterAll, Eol, Valid, SaysChunks, HasLength, Upgrades,
      LengthAfterAll, Ends, Decided;
    var s := HeadRead(start, hs, crlf, tail);
    HeadMeans(start, hs, s);
    EmptyLineRead(start, s, crlf, tail);
    var s1 := s.(mode := Complete, nread := 0, upgrade := UpgradeFound(start, s));
    BodilessDecided(start, s, crlf);
    CompleteEnds(start, s1, tail);
    var e := [HeadersComplete, MessageComplete];
    assert e + [] == e;
    HeadThen(start, hs, crlf, tail, s, s1, e, [], 0, s1.flags);
  }

  lemma CompleteEnds(start: StartLine, s: State, tail: bytes)
    requires Valid(s) && s.mode == Complete
    ensures Ends(Run(start, s, tail), [], 0, s.flags, s.upgrade)
  {
  }

  lemma {:induction false} BodilessDecided(start: StartLine, s: State, crlf: bool)
    requires !start.connect && IsBodiless(start) && Valid(s) && s.mode == FieldStart
    requires !s.flags.chunked && !s.flags.contentLength && s.length == ULLONG_MAX && !s.flags.trailing
    ensures var s1 := s.(mode := Complete, nread := 0, upgrade := UpgradeFound(start, s));
            Valid(s1) && Decided(start, s, crlf) == Taken(s1, [HeadersComplete, MessageComplete])
  {
  }

  /** Any other response without a length delivers everything that follows, and is never complete. */
  lemma {:induction false} OpenMessage(start: StartLine, hs: seq<Header>, crlf: bool, tail: bytes)
    requires !start.connect && !IsBodiless(start) && HeadOk(start, hs, crlf) && !SaysChunks(hs) && !HasLength(hs)
    ensures var r := Run(start, AfterStartLine(start), HeadText(hs, crlf) + tail);
            && r.outcome.Going? && r.outcome.state.mode == BodyIdentityEof && !r.outcome.state.upgrade
            && r.events == HeadersEvents(hs) + ([HeadersComplete] + BodyBytes(tail))
            && r.consumed == |HeadText(hs, crlf) + tail|
  {
    hide Run, HeadersText, HeadersEvents, HeadersOk, FlagsAfterAll, Eol, Valid, SaysChunks, HasLength, Upgrades,
      LengthAfterAll, Decided, BodyBytes;
    var s := HeadRead(start, hs, crlf, tail);
    HeadMeans(start, hs, s);
    EmptyLineRead(start, s, crlf, tail);
    OpenDecided(start, s, crlf);
    var s1 := s.(mode := BodyIdentityEof, nread := 0);
    BodyUntilEof(start, s1, tail);
    LeadsOn(start, AfterStartLine(start), HeadersText(hs), s, HeadersEvents(hs), Eol(crlf), s1, [HeadersComplete],
            tail);
    Regroup(HeadersEvents(hs), [HeadersComplete], BodyBytes(tail));
  }

  lemma {:induction false} OpenDecided(start: StartLine, s: State, crlf: bool)
    requires !start.connect && !IsBodiless(start) && Valid(s) && s.mode == FieldStart && !s.upgrade
    requires !s.flags.chunked && !s.flags.contentLength && s.length == ULLONG_MAX && !s.flags.trailing
    ensures var s1 := s.(mode := BodyIdentityEof, nread := 0);
            Valid(s1) && Decided(start, s, crlf) == Taken(s1, [HeadersComplete])
  {
  }

  /** After CONNECT the rest is another protocol, whatever the header lines announce. */
  lemma {:induction false} ConnectMessage(start: StartLine, hs: seq<Header>, crlf: bool, tail: bytes)
    requires start.connect && start.request && HeadOk(start, hs, crlf) && !(SaysChunks(hs) && HasLength(hs))
    ensures Ends(Run(start, AfterStartLine(start), HeadText(hs, crlf) + tail),
                 HeadersEvents(hs) + [HeadersComplete, MessageComplete], |HeadText(hs, crlf)|,
                 FlagsAfterAll(NO_FLAGS, hs), true)
  {
    hide Run, Leads, HeadersText, HeadersEvents, HeadersOk, FlagsAfterAll, Eol, Valid, SaysChunks, HasLength, Upgrades,
      LengthAfterAll, Ends, Decided;
    var s := HeadRead(start, hs, crlf, tail);
    HeadMeans(start, hs, s);
    EmptyLineRead(start, s, crlf, tail);
    var s1 := s.(mode := Complete, nread := 0, upgrade := true);
    ConnectDecided(start, s, crlf);
    CompleteEnds(start, s1, tail);
    var e := [HeadersComplete, MessageComplete];
    assert e + [] == e;
    HeadThen(start, hs, crlf, tail, s, s1, e, [], 0, s1.flags);
  }

  lemma {:induction false} ConnectDecided(start: StartLine, s: State, crlf: bool)
    requires start.connect && start.request && Valid(s) && s.mode == FieldStart
    requires !(s.flags.chunked && s.flags.contentLength) && !s.flags.trailing
    ensures var s1 := s.(mode := Complete, nread := 0, upgrade := true);
            Valid(s1) && Decided(start, s, crlf) == Taken(s1, [HeadersComplete, MessageComplete])
  {
  }

  /** Chunks and a length together are refused at the empty line. */
  lemma {:induction false} BothAreRefused(start: StartLine, hs: seq<Header>, crlf: bool, tail: bytes)
    requires HeadOk(start, hs, crlf) && SaysChunks(hs) && HasLength(hs)
    ensures var r := Run(start, AfterStartLine(start), HeadText(hs, crlf) + tail);
            && r.outcome.Failed? && r.outcome.error == UnexpectedContentLength && r.events == HeadersEvents(hs)
            && r.consumed == |HeadText(hs, crlf)| - 1
  {
    hide Run, HeadersText, HeadersEvents, HeadersOk, FlagsAfterAll, Valid, SaysChunks, HasLength, Upgrades,
      LengthAfterAll;
    var s := HeadRead(start, hs, crlf, tail);
    HeadMeans(start, hs, s);
    EmptyLineRead(start, s, crlf, tail);
    Regroup(HeadersText(hs), Eol(crlf), tail);
    assert HeadersEvents(hs) + [] == HeadersEvents(hs);
  }

  // ---------- a body with a length ----------

  /** Some line announces the number of bytes of the body. */
  predicate Announces(hs: seq<Header>, n: nat) {
    exists h | h in hs :: IsLength(h.name) && h.content.Number? && ValueOf(DecimalDigits(h.content.digits), 10) == n
  }

  lemma {:induction false} LengthAnnounced(hs: seq<Header>, n: nat)
    requires HeadersOk(hs, false) && Announces(hs, n)
    ensures HasLength(hs) && LengthAfterAll(ULLONG_MAX, hs) == n && n < ULLONG_MAX
  {
    hide HeadersOk, IsLength, ValueOf, HeaderOk;
    LengthMeans(ULLONG_MAX, hs, false);
    var h :| h in hs && IsLength(h.name);
    EachIsOk(hs, false, h);
    AcceptedIsKnown(h);
  }

  lemma {:induction false} EachIsOk(hs: seq<Header>, known: bool, h: Header)
    requires HeadersOk(hs, known) && h in hs
    ensures HeaderOk(h)
    decreases |hs|
  {
    hide HeaderOk, IsLength;
    if h != hs[0] {
      EachIsOk(hs[1..], known || IsLength(hs[0].name), h);
    }
  }

  lemma {:induction false} AcceptedIsKnown(h: Header)
    requires HeaderOk(h) && IsLength(h.name)
    ensures h.content.Number? && ValueOf(DecimalDigits(h.content.digits), 10) < ULLONG_MAX
  {
    hide IsHeaderName, IsGap, IsFold;
    var d := DecimalDigits(h.content.digits);
    ValueAppend(d[..|d| - 1], d[|d| - 1], 10);
    assert d[..|d| - 1] + [d[|d| - 1]] == d;
  }

  /** Exactly the announced bytes are the body; what follows is not touched. */
  lemma {:induction false} LengthMessage(start: StartLine, hs: seq<Header>, crlf: bool, body: bytes, tail: bytes)
    requires !start.connect && HeadOk(start, hs, crlf) && !SaysChunks(hs) && Announces(hs, |body|)
    ensures Ends(Run(start, AfterStartLine(start), HeadText(hs, crlf) + (body + tail)),
                 HeadersEvents(hs) + ([HeadersComplete] + (BodyBytes(body) + [MessageComplete])),
                 |HeadText(hs, crlf)| + |body|, FlagsAfterAll(NO_FLAGS, hs), Upgrades(start, hs))
  {
    hide Run, Leads, HeadersText, HeadersEvents, HeadersOk, FlagsAfterAll, Eol, Valid, SaysChunks, HasLength, Upgrades,
      LengthAfterAll, Ends, Decided, Announces;
    var s := HeadRead(start, hs, crlf, body + tail);
    HeadMeans(start, hs, s);
    LengthAnnounced(hs, |body|);
    EmptyLineRead(start, s, crlf, body + tail);
    LengthDecided(start, s, crlf);
    var up := UpgradeFound(start, s);
    if body == [] {
      var e := [HeadersComplete, MessageComplete];
      var s1 := s.(mode := Complete, nread := 0, upgrade := up);
      assert e + [] == e && e == [HeadersComplete] + (BodyBytes(body) + [MessageComplete]);
      CompleteEnds(start, s1, body + tail);
      HeadThen(start, hs, crlf, body + tail, s, s1, e, [], 0, s1.flags);
    } else {
      var s1 := s.(mode := BodyIdentity, nread := 0, upgrade := up);
      BodyEnds(start, s1, body, tail);
      HeadThen(start, hs, crlf, body + tail, s, s1, [HeadersComplete], BodyBytes(body) + [MessageComplete], |body|,
               s1.flags);
    }
  }

  lemma {:induction false} BodyEnds(start: StartLine, s: State, body: bytes, tail: bytes)
    requires Valid(s) && s.mode == BodyIdentity && s.length == |body|
    ensures Ends(Run(start, s, body + tail), BodyBytes(body) + [MessageComplete], |body|, s.flags, s.upgrade)
  {
    hide Run;
    IdentityConserves(start, s, body + tail);
    assert (body + tail)[..|body|] == body;
    assert body + [] == body;
  }

  lemma {:induction false} LengthDecided(start: StartLine, s: State, crlf: bool)
    requires !start.connect && Valid(s) && s.mode == FieldStart && s.length < ULLONG_MAX
    requires !s.flags.chunked && s.flags.contentLength && !s.flags.trailing
    ensures var s1 := s.(mode := if s.length == 0 then Complete else BodyIdentity, nread := 0,
                         upgrade := UpgradeFound(start, s));
            && Valid(s1)
            && Decided(start, s, crlf)
               == Taken(s1, if s.length == 0 then [HeadersComplete, MessageComplete] else [HeadersComplete])
  {
  }

  // ---------- a body in chunks ----------

  /** The size in hexadecimal, an extension that is ignored, and the data. */
  datatype Chunk = Chunk(size: bytes, extension: bytes, data: bytes)

  /** The size line of every chunk must keep within the limit by itself. */
  ghost predicate IsChunk(start: StartLine, c: Chunk) {
    && c.size != [] && AreSizeDigits(c.size) && |c.size| + |c.extension| + 2 <= start.limit
    && Accepted(HexDigits(c.size), 16, HEX_LIMIT) && ValueOf(HexDigits(c.size), 16) == |c.data|
    && (c.extension != [] ==> (c.extension[0] == 59 || c.extension[0] == 32) && CR !in c.extension)
  }

  function EncodeChunk(c: Chunk): bytes {
    (c.size + (c.extension + CRLF)) + (c.data + CRLF)
  }

  function ChunkEvents(c: Chunk): seq<Event> {
    [ChunkHeader(|c.data|)] + (BodyBytes(c.data) + [ChunkComplete])
  }

  ghost predicate InChunks(s: State) {
    Valid(s) && s.flags.chunked && !s.flags.trailing
  }

  lemma {:induction false} ExtensionByte(start: StartLine, s: State, c: byte)
    requires Valid(s) && (s.mode == ChunkParameters || s.mode == ChunkSize) && s.nread < start.limit
    requires s.mode == ChunkSize ==> c == 59 || c == 32 || c == CR
    ensures var s1 := Counted(s, 1).(mode := if c == CR then ChunkSizeAlmostDone else ChunkParameters);
            Valid(s1) && Goes(start, s, [c], s1, [])
  {
    hide Run;
    assert StepByte(start, s, c)
        == Taken(Counted(s, 1).(mode := if c == CR then ChunkSizeAlmostDone else ChunkParameters), []);
    hide StepByte;
    GoesByte(start, s, c);
  }

  /** The rest of the line after a chunk size. */
  lemma {:induction false} ExtensionGoes(start: StartLine, s: State, t: bytes)
    requires Valid(s) && CR !in t && (s.mode == ChunkParameters || s.mode == ChunkSize)
    requires s.mode == ChunkSize && t != [] ==> t[0] == 59 || t[0] == 32
    requires s.nread + |t| + 1 <= start.limit
    ensures Valid(Counted(s, |t| + 1).(mode := ChunkSizeAlmostDone))
    ensures Goes(start, s, t + [CR], Counted(s, |t| + 1).(mode := ChunkSizeAlmostDone), [])
    decreases |t|
  {
    hide Goes, Valid;
    var end := Counted(s, |t| + 1).(mode := ChunkSizeAlmostDone);
    if t == [] {
      ExtensionByte(start, s, CR);
      assert t + [CR] == [CR];
    } else {
      var s1 := Counted(s, 1).(mode := ChunkParameters);
      ExtensionByte(start, s, t[0]);
      ExtensionGoes(start, s1, t[1..]);
      FirstThen(t, [CR]);
      GoesCons(start, s, t[0], s1, [], t[1..] + [CR], end, [], t + [CR], []);
    }
  }

  /** The state after the size line of the last chunk, and of any other. */
  function AfterSizeLine(s: State, data: bytes): State {
    if data == [] then s.(mode := FieldStart, length := 0, flags := s.flags.(trailing := true))
    else s.(mode := ChunkData, length := |data|)
  }

  /** A chunk size with its line. */
  lemma {:induction false} SizeLineGoes(start: StartLine, s: State, c: Chunk)
    requires InChunks(s) && s.mode == ChunkSizeStart && IsChunk(start, c)
    ensures Goes(start, s, c.size + (c.extension + CRLF), AfterSizeLine(s, c.data), [ChunkHeader(|c.data|)])
  {
    var s1 := InSize(s, |c.data|, |c.size|);
    var s3 := AfterSizeLine(s, c.data);
    hide Goes, Valid, ValueOf, AfterSizeLine;
    ChunkSizeIsExact(start, s, c.size);
    GoesValid(start, s, c.size, s1, []);
    RestOfSizeLine(start, s, c);
    var e := [ChunkHeader(|c.data|)];
    assert [] + e == e;
    GoesOn(start, s, c.size, s1, [], c.extension + CRLF, s3, e);
  }

  lemma {:induction false} RestOfSizeLine(start: StartLine, s: State, c: Chunk)
    requires s.mode == ChunkSizeStart && s.nread == 0 && Valid(InSize(s, |c.data|, |c.size|)) && IsChunk(start, c)
    ensures Goes(start, InSize(s, |c.data|, |c.size|), c.extension + CRLF, AfterSizeLine(s, c.data),
                 [ChunkHeader(|c.data|)])
  {
    var s1 := InSize(s, |c.data|, |c.size|);
    var s2 := Counted(s1, |c.extension| + 1).(mode := ChunkSizeAlmostDone);
    hide Goes, Valid, ValueOf;
    ExtensionGoes(start, s1, c.extension);
    EndOfSizeLine(start, s2);
    assert (c.extension + [CR]) + [LF] == c.extension + CRLF;
    var e := [ChunkHeader(|c.data|)];
    assert [] + e == e;
    GoesOn(start, s1, c.extension + [CR], s2, [], [LF], AfterSizeLine(s, c.data), e);
  }

  lemma {:induction false} EndOfSizeLine(start: StartLine, s: State)
    requires Valid(s) && s.mode == ChunkSizeAlmostDone && s.nread < start.limit
    ensures Goes(start, s, [LF],
                 if s.length == 0 then s.(mode := FieldStart, flags := s.flags.(trailing := true), nread := 0)
                 else s.(mode := ChunkData, nread := 0),
                 [ChunkHeader(s.length)])
  {
    GoesByte(start, s, LF);
  }

  lemma {:induction false} EndOfData(start: StartLine, s: State)
    requires Valid(s) && s.mode == ChunkDataAlmostDone
    ensures Goes(start, s, CRLF, s.(mode := ChunkSizeStart, nread := 0), [ChunkComplete])
  {
    GoesTwo(start, s, CR, s.(mode := ChunkDataDone), [], LF, s.(mode := ChunkSizeStart, nread := 0), [ChunkComplete],
            [ChunkComplete]);
  }

  lemma {:induction false} ChunkGoes(start: StartLine, s: State, c: Chunk)
    requires InChunks(s) && s.mode == ChunkSizeStart && IsChunk(start, c) && c.data != []
    ensures Goes(start, s, EncodeChunk(c), s.(length := 0), ChunkEvents(c))
  {
    var s1 := s.(mode := ChunkData, length := |c.data|);
    var s2 := s.(mode := ChunkDataAlmostDone, length := 0);
    var end := s.(length := 0);
    SizeLineGoes(start, s, c);
    GoesValid(start, s, c.size + (c.extension + CRLF), s1, [ChunkHeader(|c.data|)]);
    ChunkDataConserves(start, s1, c.data);
    EndOfData(start, s2);
    hide Goes, StepByte, IsChunk;
    GoesOn(start, s1, c.data, s2, BodyBytes(c.data), CRLF, end, [ChunkComplete]);
    GoesOn(start, s, c.size + (c.extension + CRLF), s1, [ChunkHeader(|c.data|)], c.data + CRLF, end,
           BodyBytes(c.data) + [ChunkComplete]);
  }

  /** The last chunk, of size zero, the trailer lines and the empty line after them. */
  function EncodeEnd(last: Chunk, trailers: seq<Header>, crlf: bool): bytes {
    (last.size + (last.extension + CRLF)) + HeadText(trailers, crlf)
  }

  function EndEvents(trailers: seq<Header>): seq<Event> {
    [ChunkHeader(0)] + (HeadersEvents(trailers) + [ChunkComplete, MessageComplete])
  }

  function EncodeChunks(cs: seq<Chunk>, last: Chunk, trailers: seq<Header>, crlf: bool): bytes {
    if cs == [] then EncodeEnd(last, trailers, crlf)
    else EncodeChunk(cs[0]) + EncodeChunks(cs[1..], last, trailers, crlf)
  }

  function ChunksEvents(cs: seq<Chunk>, trailers: seq<Header>): seq<Event> {
    if cs == [] then EndEvents(trailers) else ChunkEvents(cs[0]) + ChunksEvents(cs[1..], trailers)
  }

  /** The payloads, one after the other. */
  function Payload(cs: seq<Chunk>): bytes {
    if cs == [] then [] else cs[0].data + Payload(cs[1..])
  }

  lemma {:induction false} ChunkDelivered(data: bytes)
    ensures BodyOf([ChunkHeader(|data|)] + (BodyBytes(data) + [ChunkComplete])) == data
  {
    hide BodyOf;
    BodyOfAppend([ChunkHeader(|data|)], BodyBytes(data) + [ChunkComplete]);
    BodyOfAppend(BodyBytes(data), [ChunkComplete]);
    BodyOfBytes(data);
    NoBody([ChunkHeader(|data|)]);
    NoBody([ChunkComplete]);
  }

  lemma {:induction false} LinesHaveNoBody(hs: seq<Header>)
    ensures BodyOf(HeadersEvents(hs)) == []
    decreases |hs|
  {
    hide BodyOf, HeaderEvents;
    NoBody([]);
    if hs != [] {
      LineHasNoBody(hs[0]);
      LinesHaveNoBody(hs[1..]);
      BodyOfAppend(HeaderEvents(hs[0]), HeadersEvents(hs[1..]));
    }
  }

  lemma {:induction false} LineHasNoBody(h: Header)
    ensures BodyOf(HeaderEvents(h)) == []
  {
    hide BodyOf, ContentText;
    FoldsHaveNoBody(h.folds);
    NoBody(NameBytes(h.name) + [NameEnd]);
    NoBody(ValueBytes(ContentText(h.content)));
    NoBody([ValueEnd]);
    BodyOfAppend(FoldsEvents(h.folds), [ValueEnd]);
    BodyOfAppend(ValueBytes(ContentText(h.content)), FoldsEvents(h.folds) + [ValueEnd]);
    BodyOfAppend(NameBytes(h.name) + [NameEnd],
                 ValueBytes(ContentText(h.content)) + (FoldsEvents(h.folds) + [ValueEnd]));
  }

  lemma {:induction false} FoldsHaveNoBody(fs: seq<Fold>)
    ensures BodyOf(FoldsEvents(fs)) == []
    decreases |fs|
  {
    hide BodyOf;
    NoBody([]);
    if fs != [] {
      FoldsHaveNoBody(fs[1..]);
      NoBody([ValueEnd]);
      NoBody(ValueBytes(fs[0].text));
      BodyOfAppend(ValueBytes(fs[0].text), FoldsEvents(fs[1..]));
      BodyOfAppend([ValueEnd], ValueBytes(fs[0].text) + FoldsEvents(fs[1..]));
    }
  }

  /** The body delivered is exactly the concatenated payloads. */
  lemma {:induction false} PayloadDelivered(cs: seq<Chunk>, trailers: seq<Header>)
    ensures BodyOf(ChunksEvents(cs, trailers)) == Payload(cs)
    decreases |cs|
  {
    hide BodyOf;
    if cs == [] {
      NoBody([ChunkHeader(0)]);
      NoBody([ChunkComplete, MessageComplete]);
      LinesHaveNoBody(trailers);
      BodyOfAppend(HeadersEvents(trailers), [ChunkComplete, MessageComplete]);
      BodyOfAppend([ChunkHeader(0)], HeadersEvents(trailers) + [ChunkComplete, MessageComplete]);
    } else {
      BodyOfAppend(ChunkEvents(cs[0]), ChunksEvents(cs[1..], trailers));
      ChunkDelivered(cs[0].data);
      PayloadDelivered(cs[1..], trailers);
    }
  }

  // ---------- messages in chunks ----------

  /** Data comes in non-empty chunks, the last one is empty, and the trailer keeps within the limit. */
  ghost predicate AreChunks(start: StartLine, cs: seq<Chunk>, last: Chunk, trailers: seq<Header>, crlf: bool) {
    && (forall i | 0 <= i < |cs| :: IsChunk(start, cs[i]) && cs[i].data != [])
    && IsChunk(start, last) && last.data == []
    && HeadersOk(trailers, false) && |HeadText(trailers, crlf)| <= start.limit
  }

  /** The last chunk and the trailer. */
  lemma {:induction false} EndRead(start: StartLine, s: State, last: Chunk, trailers: seq<Header>, crlf: bool,
                                   tail: bytes)
    requires InChunks(s) && s.mode == ChunkSizeStart && !s.flags.contentLength
    requires AreChunks(start, [], last, trailers, crlf)
    ensures Ends(Run(start, s, EncodeEnd(last, trailers, crlf) + tail), EndEvents(trailers),
                 |EncodeEnd(last, trailers, crlf)|, FlagsAfterAll(s.flags.(trailing := true), trailers), s.upgrade)
  {
    hide Run, Goes, IsChunk, HeadersText, HeadersEvents, HeadersOk, FlagsAfterAll, Eol, LengthAfterAll, Leads, Ends;
    var sizeLine := last.size + (last.extension + CRLF);
    var s1 := AfterSizeLine(s, []);
    SizeLineGoes(start, s, last);
    GoesLeads(start, s, sizeLine, HeadText(trailers, crlf) + tail, s1, [ChunkHeader(0)]);
    TrailerEnds(start, s1, trailers, crlf, tail);
    EndsThen(start, s, sizeLine, HeadText(trailers, crlf) + tail, s1, [ChunkHeader(0)],
             HeadersEvents(trailers) + [ChunkComplete, MessageComplete], |HeadText(trailers, crlf)|,
             FlagsAfterAll(s1.flags, trailers), s.upgrade);
    Regroup(sizeLine, HeadText(trailers, crlf), tail);
  }

  lemma {:induction false} TrailerEnds(start: StartLine, s: State, trailers: seq<Header>, crlf: bool, tail: bytes)
    requires Valid(s) && s.mode == FieldStart && s.flags.trailing && !s.flags.contentLength
    requires HeadersOk(trailers, false) && s.nread == 0 && |HeadText(trailers, crlf)| <= start.limit
    ensures Ends(Run(start, s, HeadText(trailers, crlf) + tail),
                 HeadersEvents(trailers) + [ChunkComplete, MessageComplete], |HeadText(trailers, crlf)|,
                 FlagsAfterAll(s.flags, trailers), s.upgrade)
  {
    hide Run, Leads, HeadersText, HeadersEvents, HeadersOk, FlagsAfterAll, Valid, LengthAfterAll, Ends, Decided;
    assert Eol(crlf) + tail != [] && !IsBlank((Eol(crlf) + tail)[0]);
    var s1 := LinesRead(start, s, trailers, Eol(crlf) + tail);
    StillTrailing(s.flags, trailers);
    EmptyLineRead(start, s1, crlf, tail);
    TrailerDecided(start, s1, crlf);
    var s2 := Decided(start, s1, crlf).state;
    var e := [ChunkComplete, MessageComplete];
    CompleteEnds(start, s2, tail);
    assert e + [] == e;
    EndsThen(start, s1, Eol(crlf), tail, s2, e, [], 0, s2.flags, s2.upgrade);
    Regroup(HeadersText(trailers), Eol(crlf), tail);
    EndsThen(start, s, HeadersText(trailers), Eol(crlf) + tail, s1, HeadersEvents(trailers), e, |Eol(crlf)|, s2.flags,
             s2.upgrade);
  }

  lemma {:induction false} StillTrailing(flags: Flags, hs: seq<Header>)
    requires HeadersOk(hs, false)
    ensures FlagsAfterAll(flags, hs).trailing == flags.trailing
  {
    hide FlagsAfterAll, HeadersOk, IsLength, SaysChunked, Asks, SaysUpgrade;
    FlagsMean(flags, hs, false);
  }

  lemma {:induction false} TrailerDecided(start: StartLine, s: State, crlf: bool)
    requires Valid(s) && s.mode == FieldStart && s.flags.trailing
    ensures match Decided(start, s, crlf)
            case Taken(s1, e) =>
              && s1.mode == Complete && s1.flags == s.flags && s1.upgrade == s.upgrade && Valid(s1)
              && e == [ChunkComplete, MessageComplete]
            case Refused(_, _) => false
  {
  }

  lemma {:induction false} ChunksRead(start: StartLine, s: State, cs: seq<Chunk>, last: Chunk, trailers: seq<Header>,
                                      crlf: bool, tail: bytes)
    requires InChunks(s) && s.mode == ChunkSizeStart && !s.flags.contentLength
    requires AreChunks(start, cs, last, trailers, crlf)
    ensures Ends(Run(start, s, EncodeChunks(cs, last, trailers, crlf) + tail), ChunksEvents(cs, trailers),
                 |EncodeChunks(cs, last, trailers, crlf)|, FlagsAfterAll(s.flags.(trailing := true), trailers),
                 s.upgrade)
    decreases |cs|
  {
    hide Run, Goes, IsChunk, EncodeEnd, EndEvents, EncodeChunk, ChunkEvents, HeadText, HeadersOk, FlagsAfterAll, Leads,
      Ends;
    if cs == [] {
      EndRead(start, s, last, trailers, crlf, tail);
    } else {
      var rest := EncodeChunks(cs[1..], last, trailers, crlf);
      ChunkGoes(start, s, cs[0]);
      ChunksRead(start, s.(length := 0), cs[1..], last, trailers, crlf, tail);
      GoesLeads(start, s, EncodeChunk(cs[0]), rest + tail, s.(length := 0), ChunkEvents(cs[0]));
      Regroup(EncodeChunk(cs[0]), rest, tail);
      EndsThen(start, s, EncodeChunk(cs[0]), rest + tail, s.(length := 0), ChunkEvents(cs[0]),
               ChunksEvents(cs[1..], trailers), |rest|, FlagsAfterAll(s.flags.(trailing := true), trailers), s.upgrade);
    }
  }

  /** The chunks are delivered, joined, and the message is complete behind the trailer. */
  lemma {:induction false} ChunkedMessage(start: StartLine, hs: seq<Header>, crlf: bool, cs: seq<Chunk>, last: Chunk,
                                          trailers: seq<Header>, crlf': bool, tail: bytes)
    requires !start.connect && HeadOk(start, hs, crlf) && SaysChunks(hs) && !HasLength(hs)
    requires AreChunks(start, cs, last, trailers, crlf')
    ensures Ends(Run(start, AfterStartLine(start),
                     HeadText(hs, crlf) + (EncodeChunks(cs, last, trailers, crlf') + tail)),
                 HeadersEvents(hs) + ([HeadersComplete] + ChunksEvents(cs, trailers)),
                 |HeadText(hs, crlf)| + |EncodeChunks(cs, last, trailers, crlf')|,
                 FlagsAfterAll(FlagsAfterAll(NO_FLAGS, hs).(trailing := true), trailers), Upgrades(start, hs))
    ensures BodyOf(ChunksEvents(cs, trailers)) == Payload(cs)
  {
    hide Run, Leads, HeadersText, HeadersEvents, HeadersOk, FlagsAfterAll, Eol, SaysChunks, HasLength, Upgrades,
      LengthAfterAll, Ends, Decided, AreChunks, EncodeChunks, ChunksEvents;
    PayloadDelivered(cs, trailers);
    var rest := EncodeChunks(cs, last, trailers, crlf') + tail;
    var s := HeadRead(start, hs, crlf, rest);
    HeadMeans(start, hs, s);
    EmptyLineRead(start, s, crlf, rest);
    ChunkedDecided(start, s, crlf);
    var s1 := s.(mode := ChunkSizeStart, nread := 0, upgrade := UpgradeFound(start, s));
    ChunksRead(start, s1, cs, last, trailers, crlf', tail);
    HeadThen(start, hs, crlf, rest, s, s1, [HeadersComplete], ChunksEvents(cs, trailers),
             |EncodeChunks(cs, last, trailers, crlf')|, FlagsAfterAll(s1.flags.(trailing := true), trailers));
  }

  lemma {:induction false} ChunkedDecided(start: StartLine, s: State, crlf: bool)
    requires !start.connect && Valid(s) && s.mode == FieldStart
    requires s.flags.chunked && !s.flags.contentLength && !s.flags.trailing
    ensures var s1 := s.(mode := ChunkSizeStart, nread := 0, upgrade := UpgradeFound(start, s));
            Valid(s1) && Decided(start, s, crlf) == Taken(s1, [HeadersComplete])
  {
  }

  // ---------- the same in pieces ----------

  lemma {:induction false} BodilessMessageInPieces(start: StartLine, hs: seq<Header>, crlf: bool, tail: bytes,
                                                   pieces: seq<bytes>)
    requires !start.connect && IsBodiless(start) && HeadOk(start, hs, crlf) && !SaysChunks(hs) && !HasLength(hs)
    requires Concat(pieces) == HeadText(hs, crlf) + tail
    ensures Ends(FeedAll(start, AfterStartLine(start), pieces), HeadersEvents(hs) + [HeadersComplete, MessageComplete],
                 |HeadText(hs, crlf)|, FlagsAfterAll(NO_FLAGS, hs), Upgrades(start, hs))
  {
    hide Run, Ends, HeadersOk, SaysChunks, HasLength, HeadText, HeadersEvents, FlagsAfterAll, Upgrades;
    BodilessMessage(start, hs, crlf, tail);
    SplitIndependence(start, AfterStartLine(start), pieces);
  }

  lemma {:induction false} OpenMessageInPieces(start: StartLine, hs: seq<Header>, crlf: bool, tail: bytes,
                                               pieces: seq<bytes>)
    requires !start.connect && !IsBodiless(start) && HeadOk(start, hs, crlf) && !SaysChunks(hs) && !HasLength(hs)
    requires Concat(pieces) == HeadText(hs, crlf) + tail
    ensures var r := FeedAll(start, AfterStartLine(start), pieces);
            && r.outcome.Going? && r.outcome.state.mode == BodyIdentityEof && !r.outcome.state.upgrade
            && r.events == HeadersEvents(hs) + ([HeadersComplete] + BodyBytes(tail)) && r.consumed == |Concat(pieces)|
  {
    hide Run, HeadersOk, SaysChunks, HasLength, HeadText, HeadersEvents;
    OpenMessage(start, hs, crlf, tail);
    SplitIndependence(start, AfterStartLine(start), pieces);
  }

  lemma {:induction false} ConnectMessageInPieces(start: StartLine, hs: seq<Header>, crlf: bool, tail: bytes,
                                                  pieces: seq<bytes>)
    requires start.connect && start.request && HeadOk(start, hs, crlf) && !(SaysChunks(hs) && HasLength(hs))
    requires Concat(pieces) == HeadText(hs, crlf) + tail
    ensures Ends(FeedAll(start, AfterStartLine(start), pieces), HeadersEvents(hs) + [HeadersComplete, MessageComplete],
                 |HeadText(hs, crlf)|, FlagsAfterAll(NO_FLAGS, hs), true)
  {
    hide Run, Ends, HeadersOk, SaysChunks, HasLength, HeadText, HeadersEvents, FlagsAfterAll;
    ConnectMessage(start, hs, crlf, tail);
    SplitIndependence(start, AfterStartLine(start), pieces);
  }

  lemma {:induction false} LengthMessageInPieces(start: StartLine, hs: seq<Header>, crlf: bool, body: bytes,
                                                 tail: bytes, pieces: seq<bytes>)
    requires !start.connect && HeadOk(start, hs, crlf) && !SaysChunks(hs) && Announces(hs, |body|)
    requires Concat(pieces) == HeadText(hs, crlf) + (body + tail)
    ensures Ends(FeedAll(start, AfterStartLine(start), pieces),
                 HeadersEvents(hs) + ([HeadersComplete] + (BodyBytes(body) + [MessageComplete])),
                 |HeadText(hs, crlf)| + |body|, FlagsAfterAll(NO_FLAGS, hs), Upgrades(start, hs))
  {
    hide Run, Ends, HeadersOk, SaysChunks, Announces, HeadText, HeadersEvents, FlagsAfterAll, Upgrades;
    LengthMessage(start, hs, crlf, body, tail);
    SplitIndependence(start, AfterStartLine(start), pieces);
  }

  lemma {:induction false} ChunkedMessageInPieces(start: StartLine, hs: seq<Header>, crlf: bool, cs: seq<Chunk>,
                                                  last: Chunk, trailers: seq<Header>, crlf': bool, tail: bytes,
                                                  pieces: seq<bytes>)
    requires !start.connect && HeadOk(start, hs, crlf) && SaysChunks(hs) && !HasLength(hs)
    requires AreChunks(start, cs, last, trailers, crlf')
    requires Concat(pieces) == HeadText(hs, crlf) + (EncodeChunks(cs, last, trailers, crlf') + tail)
    ensures Ends(FeedAll(start, AfterStartLine(start), pieces),
                 HeadersEvents(hs) + ([HeadersComplete] + ChunksEvents(cs, trailers)),
                 |HeadText(hs, crlf)| + |EncodeChunks(cs, last, trailers, crlf')|,
                 FlagsAfterAll(FlagsAfterAll(NO_FLAGS, hs).(trailing := true), trailers), Upgrades(start, hs))
  {
    hide Run, Ends, HeadersOk, SaysChunks, HasLength, HeadText, HeadersEvents, FlagsAfterAll, Upgrades, AreChunks,
      EncodeChunks, ChunksEvents;
    ChunkedMessage(start, hs, crlf, cs, last, trailers, crlf', tail);
    SplitIndependence(start, AfterStartLine(start), pieces);
  }
}

/** Header lines as they may be written, with blanks, folds, bare line feeds and empty values: each is reported as it
    stands, and together they leave exactly the flags and the body length they ask for. */
module HttpHeaders {
  import opened Bytes
  import opened HttpMessage
  import opened HttpBody
  import opened HttpValues

  // ---------- what a line may be ----------

  /** A value: any text, the options of a Connection header, or a number with spaces behind it. */
  datatype Content = Text(text: bytes) | Options(os: seq<Opt>) | Number(digits: bytes, spaces: nat)

  /** A line end, and a further line of the value. */
  datatype Fold = Fold(crlf: bool, text: bytes)

  datatype Header = Header(name: bytes, gap: bytes, content: Content, folds: seq<Fold>, crlf: bool)

  function Eol(crlf: bool): (t: bytes)
    ensures t != []
  {
    if crlf then [13, 10] else [10]
  }

  function ContentText(c: Content): bytes {
    match c
    case Text(t) => t
    case Options(os) => if os == [] then [] else OptionsText(os)
    case Number(digits, n) => digits + Spaces(n)
  }

  function FoldsText(fs: seq<Fold>): bytes {
    if fs == [] then [] else Eol(fs[0].crlf) + (fs[0].text + FoldsText(fs[1..]))
  }

  function FoldsEvents(fs: seq<Fold>): seq<Event> {
    if fs == [] then [] else [ValueEnd] + (ValueBytes(fs[0].text) + FoldsEvents(fs[1..]))
  }

  function HeaderText(h: Header): (t: bytes)
  {
    (h.name + ([58] + h.gap)) + (ContentText(h.content) + (FoldsText(h.folds) + Eol(h.crlf)))
  }

  /** The name, its end, the value, and the end of each of its lines. */
  function HeaderEvents(h: Header): seq<Event> {
    (NameBytes(h.name) + [NameEnd]) + (ValueBytes(ContentText(h.content)) + (FoldsEvents(h.folds) + [ValueEnd]))
  }

  /** Blanks, and line ends that are followed by a blank. */
  predicate IsGap(g: bytes)
    decreases |g|
  {
    if g == [] then true
    else if IsBlank(g[0]) then IsGap(g[1..])
    else if g[0] == 10 then |g| > 1 && IsBlank(g[1]) && IsGap(g[2..])
    else |g| > 2 && g[0] == 13 && g[1] == 10 && IsBlank(g[2]) && IsGap(g[3..])
  }

  predicate IsConnection(name: bytes) { Spells(name, "connection") || Spells(name, "proxy-connection") }

  predicate IsLength(name: bytes) { Spells(name, "content-length") }

  predicate IsTransfer(name: bytes) { Spells(name, "transfer-encoding") }

  predicate IsUpgradeName(name: bytes) { Spells(name, "upgrade") }

  /** A name that the parser has no special use for. */
  predicate IsOrdinary(name: bytes) {
    !IsConnection(name) && !IsLength(name) && !IsTransfer(name) && !IsUpgradeName(name)
  }

  predicate IsFold(f: Fold) { f.text != [] && IsBlank(f.text[0]) && IsText(f.text[1..]) }

  ghost predicate ContentOk(name: bytes, c: Content) {
    match c
    case Text(t) => !IsLength(name) && (t == [] || (IsValue(t) && !IsConnection(name)))
    case Options(os) => IsConnection(name) && os != [] && OptionsOk(os) && IsValue(os[0].text)
    case Number(d, _) =>
      IsLength(name) && d != [] && (forall i | 0 <= i < |d| :: IsDigit(d[i])) &&
      Accepted(DecimalDigits(d), 10, DECIMAL_LIMIT)
  }

  ghost predicate HeaderOk(h: Header) {
    && IsHeaderName(h.name) && IsGap(h.gap) && ContentOk(h.name, h.content)
    && (forall i | 0 <= i < |h.folds| :: IsFold(h.folds[i]))
    && (h.folds != [] ==> ContentText(h.content) != [])
    && (IsLength(h.name) ==> forall i | 0 <= i < |h.folds| :: AllSpaces(h.folds[i].text[1..]))
  }

  /** The options that count: the last one before a further line is lost. */
  function OptionsOf(h: Header): seq<Opt> {
    if !h.content.Options? then []
    else if h.folds != [] && h.content.os != [] then h.content.os[..|h.content.os| - 1]
    else h.content.os
  }

  predicate SaysChunked(h: Header) {
    IsTransfer(h.name) && SpellsPadded(ContentText(h.content), "chunked") && h.folds == []
  }

  /** The flags that a line turns on. */
  function FlagsAfter(flags: Flags, h: Header): Flags {
    if IsLength(h.name) then flags.(contentLength := true)
    else if h.content.Options? then OptionsFlags(flags, OptionsOf(h))
    else if SaysChunked(h) then flags.(chunked := true)
    else if IsUpgradeName(h.name) && ContentText(h.content) != [] then flags.(upgrade := true)
    else flags
  }

  /** The length that a line announces. */
  function LengthAfter(length: nat, h: Header): nat {
    if h.content.Number? then ValueOf(DecimalDigits(h.content.digits), 10) else length
  }

  // ---------- what a run leads to ----------

  /** The same, except perhaps for the state in which an input was refused. */
  predicate Alike(a: Result, b: Result) {
    && a.events == b.events && a.consumed == b.consumed
    && (a.outcome == b.outcome ||
        (a.outcome.Failed? && b.outcome.Failed? && a.outcome.error == b.outcome.error))
  }

  /** Reading 'a' leads from 's' to 's1' with these callbacks, given that 'more' comes behind it. */
  ghost predicate Leads(start: StartLine, s: State, a: bytes, more: bytes, s1: State, e: seq<Event>) {
    Valid(s) && Valid(s1) && Alike(Run(start, s, a + more), Prefixed(e, |a|, Run(start, s1, more)))
  }

  lemma {:induction false} GoesLeads(start: StartLine, s: State, a: bytes, more: bytes, s1: State, e: seq<Event>)
    requires Goes(start, s, a, s1, e) && s1.mode != Complete
    ensures Leads(start, s, a, more, s1, e)
  {
    hide Run, Valid;
    GoesThen(start, s, a, s1, e, more);
  }

  lemma {:induction false} LeadsOn(start: StartLine, s: State, a: bytes, s1: State, e1: seq<Event>,
                                   b: bytes, s2: State, e2: seq<Event>, more: bytes)
    requires Leads(start, s, a, b + more, s1, e1) && Leads(start, s1, b, more, s2, e2)
    ensures Leads(start, s, a + b, more, s2, e1 + e2)
  {
    hide Run, Valid;
    Regroup(a, b, more);
    Regroup(e1, e2, Run(start, s2, more).events);
  }

  // ---------- names ----------

  lemma {:induction false} KnownNames(name: bytes)
    ensures IsConnection(name) <==> Known(Lowered(name)) == Connection
    ensures IsLength(name) <==> Known(Lowered(name)) == ContentLength
    ensures IsTransfer(name) <==> Known(Lowered(name)) == TransferEncoding
    ensures IsUpgradeName(name) <==> Known(Lowered(name)) == Upgrade
  {
    hide Spells, Lowered;
    ConnectionIsSpelt();
    ProxyConnectionIsSpelt();
    ContentLengthIsSpelt();
    TransferEncodingIsSpelt();
    UpgradeIsSpelt();
    SpellsLowered(name, CONNECTION, "connection");
    SpellsLowered(name, PROXY_CONNECTION, "proxy-connection");
    SpellsLowered(name, CONTENT_LENGTH, "content-length");
    SpellsLowered(name, TRANSFER_ENCODING, "transfer-encoding");
    SpellsLowered(name, UPGRADE, "upgrade");
  }

  lemma HeaderNameIsName(name: bytes)
    requires IsHeaderName(name)
    ensures IsName(name)
  {
    hide IsToken, IsTokenChar;
    forall i | 0 <= i < |name| ensures IsToken(name[i]) {
      TokenAlphabet(name[i]);
    }
  }

  /** The state after a name, its colon and 'n' bytes of gap. */
  function AfterColon(s: State, name: bytes, n: nat): State
    requires name != []
  {
    InName(s, Lowered(name)).(mode := ValueDiscardWs, nread := s.nread + |name| + 1 + n)
  }

  lemma {:induction false} NameGoes(start: StartLine, s: State, name: bytes, gap: bytes)
    requires Valid(s) && s.mode == FieldStart && IsHeaderName(name) && IsGap(gap)
    requires s.nread + |name| + 1 + |gap| <= start.limit
    ensures Goes(start, s, name + ([58] + gap), AfterColon(s, name, |gap|), NameBytes(name) + [NameEnd])
    ensures Valid(AfterColon(s, name, |gap|))
  {
    hide Goes, Valid, IsGap, Known, NameIndex, NameBytes, Lowered;
    var s1 := InName(s, Lowered(name));
    HeaderNameIsName(name);
    NameIsRecognised(start, s, name);
    GoesValid(start, s, name, s1, NameBytes(name));
    ColonGoes(start, s1);
    var s2 := AfterColon(s, name, 0);
    GapGoes(start, s2, gap);
    GoesOn(start, s1, [58], s2, [NameEnd], gap, AfterColon(s, name, |gap|), []);
    assert [NameEnd] + [] == [NameEnd];
    GoesOn(start, s, name, s1, NameBytes(name), [58] + gap, AfterColon(s, name, |gap|), [NameEnd]);
    GoesValid(start, s, name + ([58] + gap), AfterColon(s, name, |gap|), NameBytes(name) + [NameEnd]);
  }

  lemma {:induction false} ColonGoes(start: StartLine, s: State)
    requires Valid(s) && s.mode == Field && s.nread < start.limit
    ensures var s1 := s.(mode := ValueDiscardWs, nread := s.nread + 1);
            Valid(s1) && Goes(start, s, [58], s1, [NameEnd])
  {
    hide Run;
    ColonStep(start, s);
    hide StepByte;
    GoesByte(start, s, 58);
  }

  lemma {:induction false} ColonStep(start: StartLine, s: State)
    requires Valid(s) && s.mode == Field && s.nread < start.limit
    ensures StepByte(start, s, 58) == Taken(s.(mode := ValueDiscardWs, nread := s.nread + 1), [NameEnd])
  {
    hide NextOfName, StepFieldStart, StepValue, StepValueLws, StepDiscardLws, StepHeadersAlmostDone, StepChunkSize,
      BeginValue;
  }

  // ---------- gaps ----------

  lemma {:induction false} GapGoes(start: StartLine, s: State, gap: bytes)
    requires Valid(s) && s.mode == ValueDiscardWs && IsGap(gap) && s.nread + |gap| <= start.limit
    ensures Goes(start, s, gap, Counted(s, |gap|), [])
    decreases |gap|
  {
    hide Goes, Valid;
    if gap == [] {
      GoesNowhere(start, s);
    } else {
      var n := if IsBlank(gap[0]) then 1 else if gap[0] == 10 then 2 else 3;
      FirstOfGap(gap, n);
      GapPart(start, s, gap[..n]);
      GapGoes(start, Counted(s, n), gap[n..]);
      assert Counted(Counted(s, n), |gap| - n) == Counted(s, |gap|);
      GoesOn(start, s, gap[..n], Counted(s, n), [], gap[n..], Counted(s, |gap|), []);
      assert gap[..n] + gap[n..] == gap;
      var none: seq<Event> := [];
      assert none + none == none;
    }
  }

  /** A blank, or a line end and a blank. */
  predicate IsGapPart(t: bytes) {
    || (|t| == 1 && IsBlank(t[0]))
    || (|t| == 2 && t[0] == 10 && IsBlank(t[1]))
    || (|t| == 3 && t[0] == 13 && t[1] == 10 && IsBlank(t[2]))
  }

  lemma FirstOfGap(gap: bytes, n: nat)
    requires gap != [] && IsGap(gap) && n == if IsBlank(gap[0]) then 1 else if gap[0] == 10 then 2 else 3
    ensures n <= |gap| && IsGapPart(gap[..n]) && IsGap(gap[n..])
  {
  }

  /** The modes in which blanks are skipped before a value. */
  lemma {:induction false} SkipStep(start: StartLine, s: State, c: byte, mode: Mode)
    requires Valid(s) && s.nread < start.limit
    requires || (s.mode == ValueDiscardWs && IsBlank(c) && mode == ValueDiscardWs)
             || (s.mode == ValueDiscardWs && c == 13 && mode == ValueDiscardWsAlmostDone)
             || (s.mode == ValueDiscardWs && c == 10 && mode == ValueDiscardLws)
             || (s.mode == ValueDiscardWsAlmostDone && c == 10 && mode == ValueDiscardLws)
             || (s.mode == ValueDiscardLws && IsBlank(c) && mode == ValueDiscardWs)
    ensures var s1 := s.(mode := mode, nread := s.nread + 1);
            Valid(s1) && Goes(start, s, [c], s1, [])
  {
    hide Run;
    assert StepByte(start, s, c) == Taken(s.(mode := mode, nread := s.nread + 1), []);
    hide StepByte;
    GoesByte(start, s, c);
  }

  lemma {:induction false} GapPart(start: StartLine, s: State, t: bytes)
    requires Valid(s) && s.mode == ValueDiscardWs && IsGapPart(t) && s.nread + |t| <= start.limit
    ensures Goes(start, s, t, Counted(s, |t|), []) && Valid(Counted(s, |t|))
  {
    hide Goes, Valid;
    var none: seq<Event> := [];
    assert none + none == none;
    if |t| == 1 {
      SkipStep(start, s, t[0], ValueDiscardWs);
      assert t == [t[0]];
    } else {
      var crlf := |t| == 3;
      var s1 := Counted(s, |t| - 1).(mode := ValueDiscardLws);
      EolSkipped(start, s, crlf);
      SkipStep(start, s1, t[|t| - 1], ValueDiscardWs);
      assert s1.(mode := ValueDiscardWs, nread := s1.nread + 1) == Counted(s, |t|);
      GoesOn(start, s, Eol(crlf), s1, [], [t[|t| - 1]], Counted(s, |t|), []);
      assert t == Eol(crlf) + [t[|t| - 1]];
    }
  }

  /** A line end where a value is expected. */
  lemma {:induction false} EolSkipped(start: StartLine, s: State, crlf: bool)
    requires Valid(s) && s.mode == ValueDiscardWs && s.nread + |Eol(crlf)| <= start.limit
    ensures var s1 := Counted(s, |Eol(crlf)|).(mode := ValueDiscardLws);
            Valid(s1) && Goes(start, s, Eol(crlf), s1, [])
  {
    hide Goes, Valid;
    if !crlf {
      SkipStep(start, s, 10, ValueDiscardLws);
    } else {
      var s1 := Counted(s, 1).(mode := ValueDiscardWsAlmostDone);
      SkipStep(start, s, 13, ValueDiscardWsAlmostDone);
      SkipStep(start, s1, 10, ValueDiscardLws);
      GoesOn(start, s, [13], s1, [], [10], Counted(s, 2).(mode := ValueDiscardLws), []);
      assert [13 as byte] + [10] == [13, 10];
      var none: seq<Event> := [];
      assert none + none == none;
    }
  }

  // ---------- values ----------

  /** Where a value has been read that asks for the flags 'once', for 'flags' if it ends here, and for this length. */
  ghost predicate ValueRead(s: State, n: nat, once: Flags, flags: Flags, length: nat, s1: State) {
    && s1 == s.(mode := Value, line := s1.line, index := s1.index, flags := once, length := length,
                nread := s.nread + n)
    && Conclude(s1.line, s1.flags) == flags && s1.line != TokenStart
  }

  /** The flags that a line turns on if another line of its value follows, and if none does. */
  function FlagsOnce(flags: Flags, h: Header): Flags { FlagsAfter(flags, h.(folds := [Fold(true, [32])])) }

  function FlagsIfLast(flags: Flags, h: Header): Flags { FlagsAfter(flags, h.(folds := [])) }

  lemma {:induction false} ContentGoes(start: StartLine, s: State, h: Header) returns (s1: State)
    requires Valid(s) && s.mode == ValueDiscardWs && s.line == Known(Lowered(h.name)) && ContentOk(h.name, h.content)
    requires ContentText(h.content) != [] && s.nread + |ContentText(h.content)| <= start.limit
    requires IsLength(h.name) ==> !s.flags.contentLength
    ensures Valid(s1) && Goes(start, s, ContentText(h.content), s1, ValueBytes(ContentText(h.content)))
    ensures ValueRead(s, |ContentText(h.content)|, FlagsOnce(s.flags, h), FlagsIfLast(s.flags, h),
                      LengthAfter(s.length, h), s1)
    ensures IsLength(h.name) <==> IsLengthLine(s1.line)
  {
    hide Goes, Valid, Known, IsText, Scans, Scan, Run, SpellsPadded, Spells, OptionsOk, OptionsText, OptionsFlags,
      Conclude, ValueBytes, Begun;
    KnownNames(h.name);
    match h.content
    case Number(d, n) =>
      s1 := NumberGoes(start, s, d, n);
    case Options(os) =>
      s1 := OptionsGo(start, s, os);
    case Text(t) =>
      s1 := TextGoes(start, s, t);
  }

  predicate IsLengthLine(line: Line) { line == ContentLengthNum || line == ContentLengthWs }

  /** Text in any header but Content-Length and Connection. */
  lemma {:induction false} TextGoes(start: StartLine, s: State, t: bytes) returns (s1: State)
    requires Valid(s) && s.mode == ValueDiscardWs && s.line != Connection && s.line != ContentLength && IsValue(t)
    requires s.nread + |t| <= start.limit
    ensures Valid(s1) && Goes(start, s, t, s1, ValueBytes(t))
    ensures var flags := if s.line == TransferEncoding && SpellsPadded(t, "chunked") then s.flags.(chunked := true)
                         else if s.line == Upgrade then s.flags.(upgrade := true)
                         else s.flags;
            ValueRead(s, |t|, if s.line == TransferEncoding then s.flags else flags, flags, s.length, s1)
    ensures !IsLengthLine(s1.line)
  {
    hide Goes, Valid, IsValue, Scans, Scan, ScanByte, SpellsPadded, ValueBytes;
    ValueGoes(start, s, t);
    ValueNotEmpty(t);
    var s0 := Begun(s, t[0]);
    s1 := Scan(s0, t[1..]);
    GoesValid(start, s, t, s1, ValueBytes(t));
    if s.line == TransferEncoding {
      ChunkedIsExact(s, t);
    } else {
      LostStays(s0, ChunkedWord, t[1..]);
    }
  }

  lemma ValueNotEmpty(t: bytes)
    requires IsValue(t)
    ensures t != []
  {
  }

  lemma {:induction false} OptionsGo(start: StartLine, s: State, os: seq<Opt>) returns (s1: State)
    requires Valid(s) && s.mode == ValueDiscardWs && s.line == Connection
    requires os != [] && OptionsOk(os) && IsValue(os[0].text) && s.nread + |OptionsText(os)| <= start.limit
    ensures Valid(s1) && Goes(start, s, OptionsText(os), s1, ValueBytes(OptionsText(os)))
    ensures ValueRead(s, |OptionsText(os)|, OptionsFlags(s.flags, os[..|os| - 1]), OptionsFlags(s.flags, os), s.length,
                      s1)
    ensures !IsLengthLine(s1.line)
  {
    hide Goes, Valid, IsText, Scans, Scan, ScanByte, OptionsText, OptionsOk, OptionsFlags, OptionBegun, ValueBytes,
      Conclude, Begun;
    var t := OptionsText(os);
    OptionsAreValue(os);
    ValueGoes(start, s, t);
    var s0 := Begun(s, t[0]);
    s1 := Scan(s0, t[1..]);
    GoesValid(start, s, t, s1, ValueBytes(t));
    BegunOnly(s, t[0]);
    ConnectionBegins(s, os[0].text);
    OptionsRead(s0, os);
  }

  lemma BegunOnly(s: State, c: byte)
    requires s.line == Connection
    ensures var r := Begun(s, c);
            r == s.(mode := Value, line := r.line, index := 0, flags := s.flags, nread := s.nread + 1)
  {
  }

  /** A list of options is a value. */
  lemma {:induction false} OptionsAreValue(os: seq<Opt>)
    requires os != [] && OptionsOk(os) && IsValue(os[0].text)
    ensures IsValue(OptionsText(os)) && OptionsText(os)[0] == os[0].text[0]
    ensures IsText(os[0].text) ==> IsText(OptionsText(os))
    decreases |os|
  {
    hide StartsOption, IsText, OptionText, Unfinished;
    OptionIsText(os[0]);
    if |os| > 1 {
      StartsWithText(os[1].text);
      OptionsAreValue(os[1..]);
      ListIsText(OptionText(os[0]), Spaces(os[0].after), OptionsText(os[1..]));
    } else {
      assert OptionText(os[0]) + [] == OptionText(os[0]);
    }
  }

  lemma OptionIsText(o: Opt)
    requires IsOption(o.text)
    ensures OptionText(o) != [] && OptionText(o)[0] == o.text[0] && IsText(OptionText(o)[1..])
    ensures IsText(o.text) ==> IsText(OptionText(o))
  {
  }

  lemma StartsWithText(t: bytes)
    requires IsOption(t) && StartsOption(t[0])
    ensures IsValue(t) && IsText(t)
  {
  }

  lemma ListIsText(t: bytes, lead: bytes, more: bytes)
    requires t != [] && IsText(t[1..]) && AllSpaces(lead) && IsText(more)
    ensures var all := t + ([44] + (lead + more)); all[0] == t[0] && IsText(all[1..]) && (IsText(t) ==> IsText(all))
  {
    var all := t + ([44] + (lead + more));
    assert all[1..] == t[1..] + ([44] + (lead + more));
  }

  lemma {:induction false} NumberGoes(start: StartLine, s: State, d: bytes, n: nat) returns (s1: State)
    requires Valid(s) && s.mode == ValueDiscardWs && s.line == ContentLength && !s.flags.contentLength
    requires d != [] && (forall i | 0 <= i < |d| :: IsDigit(d[i])) && Accepted(DecimalDigits(d), 10, DECIMAL_LIMIT)
    requires s.nread + |d| + n <= start.limit
    ensures Valid(s1) && Goes(start, s, d + Spaces(n), s1, ValueBytes(d + Spaces(n)))
    ensures var flags := s.flags.(contentLength := true);
            ValueRead(s, |d| + n, flags, flags, ValueOf(DecimalDigits(d), 10), s1)
    ensures IsLengthLine(s1.line)
  {
    hide Goes, Valid, Accepted, ValueOf, DecimalDigits, ValueBytes;
    var s0 := InLength(s, ValueOf(DecimalDigits(d), 10), |d|);
    LengthIsExact(start, s, d);
    GoesValid(start, s, d, s0, ValueBytes(d));
    LengthSpaces(start, s0, n);
    s1 := s0.(line := if n == 0 then s0.line else ContentLengthWs, nread := s0.nread + n);
    GoesOn(start, s, d, s0, ValueBytes(d), Spaces(n), s1, ValueBytes(Spaces(n)));
    GoesValid(start, s, d + Spaces(n), s1, ValueBytes(d) + ValueBytes(Spaces(n)));
    ValueBytesAppend(d, Spaces(n));
  }

  lemma ValueBytesAppend(a: bytes, b: bytes)
    ensures ValueBytes(a + b) == ValueBytes(a) + ValueBytes(b)
  {
  }

  lemma {:induction false} LengthSpaces(start: StartLine, s: State, n: nat)
    requires Valid(s) && s.mode == Value && (s.line == ContentLengthNum || s.line == ContentLengthWs)
    requires s.nread + n <= start.limit
    ensures Goes(start, s, Spaces(n), s.(line := if n == 0 then s.line else ContentLengthWs, nread := s.nread + n),
                 ValueBytes(Spaces(n)))
    decreases n
  {
    hide Goes, Valid, Run, StepByte;
    if n == 0 {
      GoesNowhere(start, s);
    } else {
      var s1 := s.(line := ContentLengthWs, nread := s.nread + 1);
      LengthSpace(start, s);
      LengthSpaces(start, s1, n - 1);
      assert Spaces(n) == [32] + Spaces(n - 1) && ValueBytes(Spaces(n)) == [ValueByte(32)] + ValueBytes(Spaces(n - 1));
      GoesOn(start, s, [32], s1, [ValueByte(32)], Spaces(n - 1), s1.(nread := s.nread + n),
             ValueBytes(Spaces(n - 1)));
    }
  }

  lemma {:induction false} LengthSpace(start: StartLine, s: State)
    requires Valid(s) && s.mode == Value && (s.line == ContentLengthNum || s.line == ContentLengthWs)
    requires s.nread < start.limit
    ensures var s1 := s.(line := ContentLengthWs, nread := s.nread + 1);
            Valid(s1) && Goes(start, s, [32], s1, [ValueByte(32)])
  {
    hide Run;
    assert StepByte(start, s, 32) == Taken(s.(line := ContentLengthWs, nread := s.nread + 1), [ValueByte(32)]);
    hide StepByte;
    GoesByte(start, s, 32);
  }

  // ---------- line ends and further lines ----------

  lemma {:induction false} EolGoes(start: StartLine, s: State, crlf: bool)
    requires Valid(s) && s.mode == Value && s.nread + |Eol(crlf)| <= start.limit
    ensures var s1 := Counted(s, |Eol(crlf)|).(mode := ValueLws);
            Valid(s1) && Goes(start, s, Eol(crlf), s1, [ValueEnd])
  {
    var s1 := Counted(s, 1).(mode := if crlf then HeaderAlmostDone else ValueLws);
    hide Run, StepByte;
    EolStep(start, s, if crlf then 13 else 10);
    GoesByte(start, s, if crlf then 13 else 10);
    if crlf {
      EolStep(start, s1, 10);
      GoesTwo(start, s, 13, s1, [ValueEnd], 10, Counted(s, 2).(mode := ValueLws), [], [ValueEnd]);
    }
  }

  lemma {:induction false} EolStep(start: StartLine, s: State, c: byte)
    requires Valid(s) && s.nread < start.limit
    requires (s.mode == Value && (c == 13 || c == 10)) || (s.mode == HeaderAlmostDone && c == 10)
    ensures var s1 := Counted(s, 1).(mode := if c == 13 then HeaderAlmostDone else ValueLws);
            Valid(s1) && StepByte(start, s, c) == Taken(s1, if s.mode == Value then [ValueEnd] else [])
  {
    hide NextOfValue, StepFieldStart, StepField, StepValueLws, StepDiscardLws, StepHeadersAlmostDone, StepChunkSize,
      BeginValue;
  }

  /** What a further line makes of a value: a number may have only spaces from here on, a list that has just seen its
      comma goes on, and anything else is mere text. */
  function FoldLine(line: Line): Line {
    if IsLengthLine(line) then ContentLengthWs else if line == TokenStart then TokenStart else General
  }

  lemma {:induction false} FoldBegins(start: StartLine, s: State, c: byte)
    requires Valid(s) && s.mode == ValueLws && IsBlank(c) && s.nread < start.limit
    ensures var s0 := Counted(s, 1).(mode := Value, index := 0, line := FoldLine(s.line));
            && Valid(s0) && (!IsLengthLine(s.line) ==> Scans(s0))
            && Goes(start, s, [c], s0, [ValueByte(c)])
  {
    hide Run, FirstOfToken, Lower;
    assert StepByte(start, s, c)
        == Taken(Counted(s, 1).(mode := Value, index := 0, line := FoldLine(s.line)), [ValueByte(c)]);
    hide StepByte;
    GoesByte(start, s, c);
  }

  /** A further line of a value, of spaces only if the value is a length. */
  lemma {:induction false} FoldGoes(start: StartLine, s: State, f: Fold) returns (s1: State)
    requires Valid(s) && s.mode == ValueLws && s.line != TokenStart && IsFold(f) && s.nread + |f.text| <= start.limit
    requires IsLengthLine(s.line) ==> AllSpaces(f.text[1..])
    ensures Valid(s1) && Goes(start, s, f.text, s1, ValueBytes(f.text))
    ensures s1 == s.(mode := Value, line := FoldLine(s.line), index := s1.index, nread := s.nread + |f.text|)
  {
    hide Goes, Valid, IsText, Scans, Scan, ScanByte, ValueBytes, AllSpaces;
    var t := f.text;
    var s0 := Counted(s, 1).(mode := Value, index := 0, line := FoldLine(s.line));
    FoldBegins(start, s, t[0]);
    if IsLengthLine(s.line) {
      OnlySpaces(t[1..]);
      LengthSpaces(start, s0, |t| - 1);
      s1 := Counted(s0, |t| - 1);
    } else {
      ScanGoes(start, s0, t[1..]);
      LostStays(s0, ChunkedWord, t[1..]);
      s1 := Scan(s0, t[1..]);
    }
    GoesValid(start, s0, t[1..], s1, ValueBytes(t[1..]));
    FirstAndRest(t, 0);
    assert t[0..] == t;
    GoesCons(start, s, t[0], s0, [ValueByte(t[0])], t[1..], s1, ValueBytes(t[1..]), t, ValueBytes(t));
  }

  lemma OnlySpaces(t: bytes)
    requires AllSpaces(t)
    ensures t == Spaces(|t|)
  {
  }

  /** The rest of a value, line by line. */
  lemma {:induction false} FoldsGo(start: StartLine, s: State, fs: seq<Fold>, crlf: bool) returns (s1: State)
    requires Valid(s) && s.mode == Value && s.line != TokenStart
    requires forall i | 0 <= i < |fs| :: IsFold(fs[i]) && (IsLengthLine(s.line) ==> AllSpaces(fs[i].text[1..]))
    requires s.nread + |FoldsText(fs) + Eol(crlf)| <= start.limit
    ensures Valid(s1) && Goes(start, s, FoldsText(fs) + Eol(crlf), s1, FoldsEvents(fs) + [ValueEnd])
    ensures s1 == s.(mode := ValueLws, line := if fs == [] then s.line else FoldLine(s.line), index := s1.index,
                     nread := s.nread + |FoldsText(fs) + Eol(crlf)|)
    decreases |fs|
  {
    hide Goes, Valid, IsFold, Eol, ValueBytes, AllSpaces;
    if fs == [] {
      EolGoes(start, s, crlf);
      s1 := Counted(s, |Eol(crlf)|).(mode := ValueLws);
      assert [] + Eol(crlf) == Eol(crlf);
      var end := [ValueEnd];
      assert [] + end == end;
    } else {
      var f, rest := fs[0], FoldsText(fs[1..]) + Eol(crlf);
      var restEvents := FoldsEvents(fs[1..]) + [ValueEnd];
      FoldsCons(fs, crlf);
      EolGoes(start, s, f.crlf);
      var s2 := Counted(s, |Eol(f.crlf)|).(mode := ValueLws);
      var s3 := FoldGoes(start, s2, f);
      s1 := FoldsGo(start, s3, fs[1..], crlf);
      GoesOn(start, s2, f.text, s3, ValueBytes(f.text), rest, s1, restEvents);
      GoesOn(start, s, Eol(f.crlf), s2, [ValueEnd], f.text + rest, s1, ValueBytes(f.text) + restEvents);
    }
  }

  lemma FoldsCons(fs: seq<Fold>, crlf: bool)
    requires fs != []
    ensures FoldsText(fs) + Eol(crlf) == Eol(fs[0].crlf) + (fs[0].text + (FoldsText(fs[1..]) + Eol(crlf)))
    ensures FoldsEvents(fs) + [ValueEnd] == [ValueEnd] + (ValueBytes(fs[0].text) + (FoldsEvents(fs[1..]) + [ValueEnd]))
  {
    hide Eol, ValueBytes;
    var f, t, e := fs[0], FoldsText(fs[1..]), FoldsEvents(fs[1..]);
    Regroup(Eol(f.crlf), f.text + t, Eol(crlf));
    Regroup(f.text, t, Eol(crlf));
    Regroup([ValueEnd], ValueBytes(f.text) + e, [ValueEnd]);
    Regroup(ValueBytes(f.text), e, [ValueEnd]);
  }

  // ---------- the next line ----------

  /** At the start of a line, with the flags that the value before it has earned. */
  function Concluded(s: State): State {
    s.(mode := FieldStart, flags := Conclude(s.line, s.flags))
  }

  /** A value is over when the next line does not begin with a blank; an empty one is reported only now. */
  lemma {:induction false} NextLine(start: StartLine, s: State, more: bytes)
    requires Valid(s) && (s.mode == ValueLws || (s.mode == ValueDiscardLws && s.line != ContentLength))
    requires more != [] && !IsBlank(more[0]) && s.nread < start.limit
    ensures Leads(start, s, [], more, Concluded(s), if s.mode == ValueLws then [] else [ValueEnd])
  {
    hide StepByte, Valid;
    ConcludedIsValid(s);
    assert [] + more == more;
    if s.mode == ValueLws {
      AfterLws(start, s, more[0]);
    } else {
      AfterDiscardLws(start, s, more[0]);
    }
  }

  lemma ConcludedIsValid(s: State)
    requires Valid(s)
    ensures Valid(Concluded(s))
  {
  }

  lemma {:induction false} AfterLws(start: StartLine, s: State, c: byte)
    requires Valid(s) && s.mode == ValueLws && !IsBlank(c) && s.nread < start.limit && Valid(Concluded(s))
    ensures StepByte(start, s, c) == StepByte(start, Concluded(s), c)
  {
    hide StepFieldStart, StepField, StepValue, StepDiscardLws, StepHeadersAlmostDone, StepChunkSize, Conclude,
      BeginValue;
  }

  lemma {:induction false} AfterDiscardLws(start: StartLine, s: State, c: byte)
    requires Valid(s) && s.mode == ValueDiscardLws && s.line != ContentLength && !IsBlank(c)
    requires s.nread < start.limit && Valid(Concluded(s))
    ensures StepByte(start, s, c) ==
              match StepByte(start, Concluded(s), c)
              case Refused(e, events) => Refused(e, [ValueEnd] + events)
              case Taken(t, events) => Taken(t, [ValueEnd] + events)
  {
    hide StepFieldStart, StepField, StepValue, StepValueLws, StepHeadersAlmostDone, StepChunkSize, Conclude,
      BeginValue;
  }

  // ---------- whole lines ----------

  /** At the start of a line again. */
  ghost predicate AtLine(s: State, n: nat, flags: Flags, length: nat, s1: State) {
    && Valid(s1)
    && s1 == s.(mode := FieldStart, line := s1.line, index := s1.index, flags := flags, length := length,
                nread := s.nread + n)
  }

  /** A line with an empty value. */
  lemma {:induction false} EmptyValue(start: StartLine, s: State, crlf: bool, more: bytes) returns (s1: State)
    requires Valid(s) && s.mode == ValueDiscardWs && IsNameLine(s.line) && s.line != ContentLength
    requires more != [] && !IsBlank(more[0]) && s.nread + |Eol(crlf)| < start.limit
    ensures Leads(start, s, Eol(crlf), more, s1, [ValueEnd])
    ensures AtLine(s, |Eol(crlf)|, s.flags, s.length, s1)
  {
    hide Goes, Run, Leads, Valid;
    var s0 := Counted(s, |Eol(crlf)|).(mode := ValueDiscardLws);
    EolSkipped(start, s, crlf);
    NextLine(start, s0, more);
    ConcludedIsValid(s0);
    s1 := Concluded(s0);
    assert [] + more == more && Eol(crlf) + [] == Eol(crlf);
    GoesLeads(start, s, Eol(crlf), [] + more, s0, []);
    LeadsOn(start, s, Eol(crlf), s0, [], [], s1, [ValueEnd], more);
    var end := [ValueEnd];
    assert [] + end == end;
  }

  /** A value with its further lines, up to the next line. */
  lemma {:induction false} ValueLines(start: StartLine, s: State, h: Header, more: bytes) returns (s1: State)
    requires Valid(s) && s.mode == ValueDiscardWs && s.line == Known(Lowered(h.name)) && HeaderOk(h)
    requires ContentText(h.content) != [] && (IsLength(h.name) ==> !s.flags.contentLength)
    requires more != [] && !IsBlank(more[0])
    requires s.nread + |ContentText(h.content) + (FoldsText(h.folds) + Eol(h.crlf))| < start.limit
    ensures Leads(start, s, ContentText(h.content) + (FoldsText(h.folds) + Eol(h.crlf)), more, s1,
                  ValueBytes(ContentText(h.content)) + (FoldsEvents(h.folds) + [ValueEnd]))
    ensures AtLine(s, |ContentText(h.content) + (FoldsText(h.folds) + Eol(h.crlf))|, FlagsAfter(s.flags, h),
                   LengthAfter(s.length, h), s1)
  {
    hide Goes, Run, Leads, Valid, Known, Lowered, ContentOk, IsHeaderName, IsGap, ContentText, FoldsText, FoldsEvents,
      Eol, ValueBytes, FlagsAfter, LengthAfter, Conclude, IsFold, Spells;
    var t, rest := ContentText(h.content), FoldsText(h.folds) + Eol(h.crlf);
    var e, restEvents := ValueBytes(t), FoldsEvents(h.folds) + [ValueEnd];
    var s2 := ContentGoes(start, s, h);
    var s3 := FoldsGo(start, s2, h.folds, h.crlf);
    GoesOn(start, s, t, s2, e, rest, s3, restEvents);
    NextLine(start, s3, more);
    ConcludedIsValid(s3);
    FoldsForget(s.flags, h, s2.line);
    s1 := Concluded(s3);
    assert [] + more == more && (t + rest) + [] == t + rest;
    assert (e + restEvents) + [] == e + restEvents;
    GoesLeads(start, s, t + rest, [] + more, s3, e + restEvents);
    LeadsOn(start, s, t + rest, s3, e + restEvents, [], s1, [], more);
  }

  /** The flags after a value, with further lines or without. */
  lemma FoldsForget(flags: Flags, h: Header, line: Line)
    ensures h.folds == [] ==> FlagsIfLast(flags, h) == FlagsAfter(flags, h)
    ensures h.folds != [] ==> FlagsOnce(flags, h) == FlagsAfter(flags, h)
    ensures forall f: Flags :: Conclude(FoldLine(line), f) == f
  {
  }

  /** One line: it is reported as it stands, and says what it says. */
  lemma {:induction false} LineRead(start: StartLine, s: State, h: Header, more: bytes) returns (s1: State)
    requires Valid(s) && s.mode == FieldStart && HeaderOk(h) && (IsLength(h.name) ==> !s.flags.contentLength)
    requires more != [] && !IsBlank(more[0]) && s.nread + |HeaderText(h)| < start.limit
    ensures Leads(start, s, HeaderText(h), more, s1, HeaderEvents(h))
    ensures AtLine(s, |HeaderText(h)|, FlagsAfter(s.flags, h), LengthAfter(s.length, h), s1)
  {
    hide Goes, Run, Leads, Valid, Known, Lowered, ContentOk, IsGap, ContentText, FoldsText, FoldsEvents, Eol,
      ValueBytes, NameBytes, FlagsAfter, LengthAfter, IsFold, Spells, NameIndex;
    var head, rest := h.name + ([58] + h.gap), ContentText(h.content) + (FoldsText(h.folds) + Eol(h.crlf));
    var headEvents := NameBytes(h.name) + [NameEnd];
    var restEvents := ValueBytes(ContentText(h.content)) + (FoldsEvents(h.folds) + [ValueEnd]);
    NameGoes(start, s, h.name, h.gap);
    var s2 := AfterColon(s, h.name, |h.gap|);
    GoesLeads(start, s, head, rest + more, s2, headEvents);
    if ContentText(h.content) == [] {
      EmptyLine(h);
      KnownNames(h.name);
      KnownIsNameLine(Lowered(h.name));
      s1 := EmptyValue(start, s2, h.crlf, more);
    } else {
      s1 := ValueLines(start, s2, h, more);
    }
    LeadsOn(start, s, head, s2, headEvents, rest, s1, restEvents, more);
  }

  lemma KnownIsNameLine(w: bytes)
    ensures IsNameLine(Known(w))
  {
  }

  /** What an empty value leaves of a line. */
  lemma EmptyLine(h: Header)
    requires HeaderOk(h) && ContentText(h.content) == []
    ensures h.folds == [] && !IsLength(h.name)
    ensures ContentText(h.content) + (FoldsText(h.folds) + Eol(h.crlf)) == Eol(h.crlf)
    ensures ValueBytes(ContentText(h.content)) + (FoldsEvents(h.folds) + [ValueEnd]) == [ValueEnd]
    ensures forall flags :: FlagsAfter(flags, h) == flags
    ensures forall length :: LengthAfter(length, h) == length
  {
  }

  function HeadersText(hs: seq<Header>): bytes {
    if hs == [] then [] else HeaderText(hs[0]) + HeadersText(hs[1..])
  }

  function HeadersEvents(hs: seq<Header>): seq<Event> {
    if hs == [] then [] else HeaderEvents(hs[0]) + HeadersEvents(hs[1..])
  }

  function FlagsAfterAll(flags: Flags, hs: seq<Header>): Flags
    decreases |hs|
  {
    if hs == [] then flags else FlagsAfterAll(FlagsAfter(flags, hs[0]), hs[1..])
  }

  function LengthAfterAll(length: nat, hs: seq<Header>): nat
    decreases |hs|
  {
    if hs == [] then length else LengthAfterAll(LengthAfter(length, hs[0]), hs[1..])
  }

  /** Lines of which at most one is a Content-Length, and none if a length is known already. */
  ghost predicate HeadersOk(hs: seq<Header>, known: bool)
    decreases |hs|
  {
    hs == [] ||
    (HeaderOk(hs[0]) && (IsLength(hs[0].name) ==> !known) && HeadersOk(hs[1..], known || IsLength(hs[0].name)))
  }

  /** Any header lines: each is reported as it stands, and together they leave the flags and the length they ask for. */
  lemma {:induction false} LinesRead(start: StartLine, s: State, hs: seq<Header>, more: bytes) returns (s1: State)
    requires Valid(s) && s.mode == FieldStart && HeadersOk(hs, s.flags.contentLength)
    requires more != [] && !IsBlank(more[0]) && s.nread + |HeadersText(hs)| < start.limit
    ensures Leads(start, s, HeadersText(hs), more, s1, HeadersEvents(hs))
    ensures AtLine(s, |HeadersText(hs)|, FlagsAfterAll(s.flags, hs), LengthAfterAll(s.length, hs), s1)
    decreases |hs|
  {
    hide Run, Leads, Valid, HeaderText, HeaderEvents, HeaderOk, FlagsAfter, LengthAfter, IsLength;
    if hs == [] {
      s1 := s;
      LeadsNowhere(start, s, more);
    } else {
      var h, rest := hs[0], HeadersText(hs[1..]);
      LinesBegin(hs[1..], more, s.flags.contentLength || IsLength(h.name));
      var s2 := LineRead(start, s, h, rest + more);
      LengthIsNoted(s.flags, h);
      s1 := LinesRead(start, s2, hs[1..], more);
      LeadsOn(start, s, HeaderText(h), s2, HeaderEvents(h), rest, s1, HeadersEvents(hs[1..]), more);
    }
  }

  lemma LengthIsNoted(flags: Flags, h: Header)
    requires HeaderOk(h)
    ensures FlagsAfter(flags, h).contentLength <==> flags.contentLength || IsLength(h.name)
  {
    if h.content.Options? {
      OptionsMean(flags, OptionsOf(h));
    }
  }

  lemma LeadsNowhere(start: StartLine, s: State, more: bytes)
    requires Valid(s)
    ensures Leads(start, s, [], more, s, [])
  {
    hide Run;
    assert [] + more == more;
    var e := Run(start, s, more).events;
    assert [] + e == e;
  }

  /** A line begins with its name, and so with no blank. */
  lemma LinesBegin(hs: seq<Header>, more: bytes, known: bool)
    requires HeadersOk(hs, known) && more != [] && !IsBlank(more[0])
    ensures HeadersText(hs) + more != [] && !IsBlank((HeadersText(hs) + more)[0])
  {
    hide ContentOk, IsGap, Eol, IsFold, FoldsText, ContentText;
    if hs == [] {
      assert HeadersText(hs) + more == more;
    } else {
      var name := hs[0].name;
      assert IsTokenChar(name[0]);
      assert (HeadersText(hs) + more)[0] == name[0];
    }
  }

  // ---------- what the lines say ----------

  predicate SaysUpgrade(h: Header) { IsUpgradeName(h.name) && ContentText(h.content) != [] }

  /** One of the options of a Connection header is this word. */
  predicate HasOption(os: seq<Opt>, word: string) { exists i | 0 <= i < |os| :: Spells(os[i].text, word) }

  predicate Asks(h: Header, word: string) { h.content.Options? && HasOption(OptionsOf(h), word) }

  lemma {:induction false} OptionsMean(flags: Flags, os: seq<Opt>)
    ensures OptionsFlags(flags, os) ==
              flags.(keepAlive := flags.keepAlive || HasOption(os, "keep-alive"),
                     close := flags.close || HasOption(os, "close"),
                     connectionUpgrade := flags.connectionUpgrade || HasOption(os, "upgrade"))
    decreases |os|
  {
    hide Spells;
    if os != [] {
      hide HasOption;
      OptionsMean(OptionFlags(flags, os[0].text), os[1..]);
      WordsDiffer(os[0].text);
      FirstOption(os, "keep-alive");
      FirstOption(os, "close");
      FirstOption(os, "upgrade");
    }
  }

  lemma WordsDiffer(t: bytes)
    ensures Spells(t, "keep-alive") ==> !Spells(t, "close") && !Spells(t, "upgrade")
    ensures Spells(t, "close") ==> !Spells(t, "upgrade")
  {
  }

  lemma FirstOption(os: seq<Opt>, word: string)
    requires os != []
    ensures HasOption(os, word) <==> Spells(os[0].text, word) || HasOption(os[1..], word)
  {
    hide Spells;
    if HasOption(os[1..], word) {
      var i :| 0 <= i < |os[1..]| && Spells(os[1..][i].text, word);
      assert os[i + 1].text == os[1..][i].text;
    }
    if HasOption(os, word) && !Spells(os[0].text, word) {
      var i :| 0 <= i < |os| && Spells(os[i].text, word);
      assert os[1..][i - 1].text == os[i].text;
    }
  }

  /** The flags after any header lines: each is set exactly if some line asks for it. */
  lemma {:induction false} FlagsMean(flags: Flags, hs: seq<Header>, known: bool)
    requires HeadersOk(hs, known)
    ensures FlagsAfterAll(flags, hs) ==
              Flags(flags.chunked || (exists h | h in hs :: SaysChunked(h)),
                    flags.keepAlive || (exists h | h in hs :: Asks(h, "keep-alive")),
                    flags.close || (exists h | h in hs :: Asks(h, "close")),
                    flags.connectionUpgrade || (exists h | h in hs :: Asks(h, "upgrade")),
                    flags.trailing,
                    flags.upgrade || (exists h | h in hs :: SaysUpgrade(h)),
                    flags.contentLength || (exists h | h in hs :: IsLength(h.name)))
    decreases |hs|
  {
    hide HeaderOk, FlagsAfter, SaysChunked, Asks, SaysUpgrade, IsLength;
    if hs != [] {
      FlagsMean(FlagsAfter(flags, hs[0]), hs[1..], known || IsLength(hs[0].name));
      LineMeans(flags, hs[0]);
      assert hs == [hs[0]] + hs[1..];
    }
  }

  lemma LineMeans(flags: Flags, h: Header)
    requires HeaderOk(h)
    ensures FlagsAfter(flags, h) ==
              Flags(flags.chunked || SaysChunked(h), flags.keepAlive || Asks(h, "keep-alive"),
                    flags.close || Asks(h, "close"), flags.connectionUpgrade || Asks(h, "upgrade"), flags.trailing,
                    flags.upgrade || SaysUpgrade(h), flags.contentLength || IsLength(h.name))
  {
    hide HasOption, SpellsPadded, IsHeaderName, IsGap, IsFold, ContentText;
    if h.content.Options? {
      OptionsMean(flags, OptionsOf(h));
    }
    NamesDiffer(h.name);
  }

  lemma NamesDiffer(name: bytes)
    ensures IsConnection(name) ==> !IsLength(name) && !IsTransfer(name) && !IsUpgradeName(name)
    ensures IsLength(name) ==> !IsTransfer(name) && !IsUpgradeName(name)
    ensures IsTransfer(name) ==> !IsUpgradeName(name)
  {
  }

  /** The length is that of the one Content-Length line, if there is one. */
  lemma {:induction false} LengthMeans(length: nat, hs: seq<Header>, known: bool)
    requires HeadersOk(hs, known)
    ensures (forall h | h in hs :: !IsLength(h.name)) ==> LengthAfterAll(length, hs) == length
    ensures forall h | h in hs && IsLength(h.name) ::
              h.content.Number? && LengthAfterAll(length, hs) == ValueOf(DecimalDigits(h.content.digits), 10)
    decreases |hs|
  {
    if hs != [] {
      LengthOfLine(hs[0]);
      hide HeaderOk, IsLength, ValueOf;
      LengthMeans(LengthAfter(length, hs[0]), hs[1..], known || IsLength(hs[0].name));
      assert hs == [hs[0]] + hs[1..];
      if IsLength(hs[0].name) {
        NoFurtherLength(hs[1..]);
      }
    }
  }

  lemma LengthOfLine(h: Header)
    requires HeaderOk(h)
    ensures h.content.Number? <==> IsLength(h.name)
  {
  }

  lemma {:induction false} NoFurtherLength(hs: seq<Header>)
    requires HeadersOk(hs, true)
    ensures forall h | h in hs :: !IsLength(h.name)
    decreases |hs|
  {
    hide HeaderOk, IsLength;
    if hs != [] {
      NoFurtherLength(hs[1..]);
      assert hs == [hs[0]] + hs[1..];
    }
  }
}

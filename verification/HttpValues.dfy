/** Header values, by their letters in either case: 'chunked', and connection options between commas.  Reading a value
    sets exactly the flags that its options ask for, and it is shown which of them swallow a comma. */
module HttpValues {
  import opened Bytes
  import opened HttpMessage
  import opened HttpBody

  // ---------- letters ----------

  /** RFC 7230 section 3.2.6. */
  predicate IsTokenChar(c: byte) {
    48 <= c <= 57 || 65 <= c <= 90 || 97 <= c <= 122 || c as char in "!#$%&'*+-.^_`|~"
  }

  lemma TokenAlphabet(c: byte)
    ensures IsToken(c) <==> IsTokenChar(c)
  {
  }

  predicate IsHeaderName(t: bytes) {
    t != [] && forall i | 0 <= i < |t| :: IsTokenChar(t[i])
  }

  /** Tab, space, and everything visible or above ASCII. */
  predicate IsText(t: bytes) {
    forall i | 0 <= i < |t| :: t[i] == 9 || 32 <= t[i] <= 126 || 128 <= t[i]
  }

  predicate IsBlank(c: byte) { c == 32 || c == 9 }

  /** 'd' in either case, if it is a letter. */
  predicate Is(c: byte, d: char) {
    c as char == d || ('a' <= d <= 'z' && c as int + 32 == d as int)
  }

  predicate Spells(t: bytes, word: string) {
    |t| == |word| && forall i | 0 <= i < |t| :: Is(t[i], word[i])
  }

  predicate IsWord(word: string) {
    forall i | 0 <= i < |word| :: 'a' <= word[i] <= 'z' || word[i] == '-'
  }

  /** The word in bytes. */
  predicate IsSpelt(w: bytes, word: string) {
    IsWord(word) && |w| == |word| && forall i | 0 <= i < |w| :: w[i] as char == word[i]
  }

  lemma {:induction false} SpellsLowered(t: bytes, w: bytes, word: string)
    requires IsSpelt(w, word)
    ensures Spells(t, word) <==> Lowered(t) == w
  {
    if Spells(t, word) {
      forall i | 0 <= i < |t| ensures Lowered(t)[i] == w[i] {
        assert Is(t[i], word[i]);
      }
    }
    if Lowered(t) == w {
      forall i | 0 <= i < |t| ensures Is(t[i], word[i]) {
        assert Lowered(t)[i] == w[i] && w[i] as char == word[i];
      }
    }
  }

  lemma ConnectionIsSpelt()
    ensures IsSpelt(CONNECTION, "connection")
  {
  }

  lemma ProxyConnectionIsSpelt()
    ensures IsSpelt(PROXY_CONNECTION, "proxy-connection")
  {
  }

  lemma ContentLengthIsSpelt()
    ensures IsSpelt(CONTENT_LENGTH, "content-length")
  {
  }

  lemma TransferEncodingIsSpelt()
    ensures IsSpelt(TRANSFER_ENCODING, "transfer-encoding")
  {
  }

  lemma UpgradeIsSpelt()
    ensures IsSpelt(UPGRADE, "upgrade")
  {
  }

  lemma ValuesAreSpelt()
    ensures IsSpelt(CHUNKED, "chunked") && IsSpelt(KEEP_ALIVE, "keep-alive") && IsSpelt(CLOSE, "close")
  {
  }

  // ---------- reading a value ----------

  /** In the middle of a value that is no length. */
  ghost predicate Scans(s: State) {
    Sound(s) && s.mode == Value && s.line != ContentLengthNum && s.line != ContentLengthWs
  }

  /** One more byte of it. */
  ghost function ScanByte(s: State, c: byte): (r: State)
    requires Scans(s)
    ensures Scans(r)
    ensures r == s.(line := r.line, index := r.index, flags := r.flags, nread := s.nread + 1)
  {
    NextOfValue(s.(nread := s.nread + 1), c).state
  }

  ghost function Scan(s: State, t: bytes): (r: State)
    requires Scans(s)
    ensures Scans(r)
    ensures r == s.(line := r.line, index := r.index, flags := r.flags, nread := s.nread + |t|)
    decreases |t|
  {
    if t == [] then s else Scan(ScanByte(s, t[0]), t[1..])
  }

  lemma {:induction false} ScanAppend(s: State, a: bytes, b: bytes)
    requires Scans(s)
    ensures Scan(s, a + b) == Scan(Scan(s, a), b)
    decreases |a|
  {
    hide ScanByte, Scans;
    if a == [] {
      assert a + b == b;
    } else {
      assert (a + b)[0] == a[0] && (a + b)[1..] == a[1..] + b;
      ScanAppend(ScanByte(s, a[0]), a[1..], b);
    }
  }

  /** Ordinary text in the middle of a value is reported as it is. */
  lemma {:induction false} ScanGoes(start: StartLine, s: State, t: bytes)
    requires Valid(s) && Scans(s) && IsText(t) && s.nread + |t| <= start.limit
    ensures Goes(start, s, t, Scan(s, t), ValueBytes(t))
    decreases |t|
  {
    hide Goes, Valid, Scans, ScanByte;
    if t == [] {
      GoesNowhere(start, s);
    } else {
      hide ValueBytes, Run;
      var s1 := ScanByte(s, t[0]);
      InValue(s);
      TextParts(t);
      OneScanned(start, s, t[0]);
      ScanGoes(start, s1, t[1..]);
      FirstAndRest(t, 0);
      assert t[0..] == t;
      GoesCons(start, s, t[0], s1, [ValueByte(t[0])], t[1..], Scan(s1, t[1..]), ValueBytes(t[1..]), t, ValueBytes(t));
    }
  }

  lemma InValue(s: State)
    requires Scans(s)
    ensures s.mode == Value
  {
  }

  lemma TextParts(t: bytes)
    requires t != [] && IsText(t)
    ensures IsText([t[0]]) && IsText(t[1..])
  {
  }

  lemma {:induction false} OneScanned(start: StartLine, s: State, c: byte)
    requires Valid(s) && Scans(s) && IsText([c]) && s.nread < start.limit
    ensures Valid(ScanByte(s, c)) && Goes(start, s, [c], ScanByte(s, c), [ValueByte(c)])
  {
    hide Run, FirstOfToken, Against, AfterOption, Lower, IsToken;
    assert [c][0] == c;
    assert StepByte(start, s, c) == Taken(ScanByte(s, c), [ValueByte(c)]);
    hide StepByte;
    GoesByte(start, s, c);
  }

  // ---------- words ----------

  /** A word of the parser: the line state in which it is being matched, and the one in which it is complete. */
  datatype Word = KeepAliveWord | CloseWord | UpgradeWord | ChunkedWord

  function Letters(w: Word): (l: string)
    ensures |l| >= 5
  {
    match w
    case KeepAliveWord => "keep-alive"
    case CloseWord => "close"
    case UpgradeWord => "upgrade"
    case ChunkedWord => "chunked"
  }

  function WordBytes(w: Word): (b: bytes)
    ensures IsSpelt(b, Letters(w))
  {
    ValuesAreSpelt();
    UpgradeIsSpelt();
    match w
    case KeepAliveWord => KEEP_ALIVE
    case CloseWord => CLOSE
    case UpgradeWord => UPGRADE
    case ChunkedWord => CHUNKED
  }

  function On(w: Word): Line {
    match w
    case KeepAliveWord => ValueKeepAlive
    case CloseWord => ValueClose
    case UpgradeWord => ValueUpgrade
    case ChunkedWord => ValueChunked
  }

  function Done(w: Word): Line {
    match w
    case KeepAliveWord => IsKeepAlive
    case CloseWord => IsClose
    case UpgradeWord => IsUpgrade
    case ChunkedWord => IsChunked
  }

  function Lost(w: Word): Line { if w.ChunkedWord? then General else Token }

  /** A comma ends an option. */
  predicate Whole(w: Word, t: bytes) { w.ChunkedWord? || 44 !in t }

  predicate AllSpaces(t: bytes) { forall i | 0 <= i < |t| :: t[i] == 32 }

  /** What reading 't' makes of a word of which 'rest' is still missing. */
  function Verdict(w: Word, rest: string, t: bytes): Line
    decreases |t|
  {
    if rest == "" then if AllSpaces(t) then Done(w) else Lost(w)
    else if t == [] then On(w)
    else if Is(t[0], rest[0]) then Verdict(w, rest[1..], t[1..])
    else Lost(w)
  }

  lemma {:induction false} OneLetter(s: State, w: Word, c: byte)
    requires Scans(s) && s.line == On(w) && s.index + 1 < |Letters(w)| && c != 13
    ensures var r := ScanByte(s, c);
            && r.flags == s.flags && r.index == s.index + 1
            && r.line == if !Is(c, Letters(w)[s.index + 1]) then Lost(w)
                         else if s.index + 2 == |Letters(w)| then Done(w) else On(w)
  {
    hide ScanByte, Scans, Lower, Is;
    var i := s.index + 1;
    LowerIs(c, Letters(w)[i]);
    assert WordBytes(w)[i] as char == Letters(w)[i];
    Matched(s, w, c);
  }

  lemma {:induction false} Matched(s: State, w: Word, c: byte)
    requires Scans(s) && s.line == On(w)
    ensures var r := ScanByte(s, c);
            && r.flags == s.flags && r.index == s.index + 1
            && r.line == Against(WordBytes(w), s.index + 1, Lower(c), On(w), Done(w), Lost(w))
  {
    hide Sound, FirstOfToken, AfterOption, IsToken, Lower, Against;
  }

  /** Setting one bit lowers a letter; the one other byte that it turns into a hyphen is CR. */
  lemma LowerIs(c: byte, d: char)
    requires ('a' <= d <= 'z' || d == '-') && c != 13
    ensures Is(c, d) <==> Lower(c) as char == d
  {
  }

  lemma {:induction false} LostStays(s: State, w: Word, t: bytes)
    requires Scans(s) && s.line == Lost(w) && Whole(w, t)
    ensures Scan(s, t).line == Lost(w) && Scan(s, t).flags == s.flags
    decreases |t|
  {
    if t != [] {
      LostStays(ScanByte(s, t[0]), w, t[1..]);
    }
  }

  lemma {:induction false} DoneThen(s: State, w: Word, t: bytes)
    requires Scans(s) && s.line == Done(w) && Whole(w, t)
    ensures Scan(s, t).line == Verdict(w, "", t) && Scan(s, t).flags == s.flags
    decreases |t|
  {
    hide Scans, ScanByte, Done, Lost;
    if t != [] {
      var s1 := ScanByte(s, t[0]);
      BehindWord(s, w, t[0]);
      if t[0] == 32 {
        DoneThen(s1, w, t[1..]);
        assert AllSpaces(t) <==> AllSpaces(t[1..]);
      } else {
        LostStays(s1, w, t[1..]);
      }
    }
  }

  lemma {:induction false} BehindWord(s: State, w: Word, c: byte)
    requires Scans(s) && s.line == Done(w) && Whole(w, [c])
    ensures ScanByte(s, c).line == (if c == 32 then Done(w) else Lost(w)) && ScanByte(s, c).flags == s.flags
  {
    hide Sound;
    assert [c][0] == c;
  }

  lemma {:induction false} WordRead(s: State, w: Word, t: bytes)
    requires Scans(s) && s.line == On(w) && s.index + 1 < |Letters(w)| && Whole(w, t) && 13 !in t
    ensures Scan(s, t).line == Verdict(w, Letters(w)[s.index + 1..], t) && Scan(s, t).flags == s.flags
    decreases |t|
  {
    hide Scans, ScanByte;
    if t != [] {
      var s1 := ScanByte(s, t[0]);
      OneLetter(s, w, t[0]);
      assert Letters(w)[s.index + 1..][1..] == Letters(w)[s.index + 2..];
      if s1.line == Lost(w) {
        LostStays(s1, w, t[1..]);
      } else if s1.line == Done(w) {
        DoneThen(s1, w, t[1..]);
      } else {
        WordRead(s1, w, t[1..]);
      }
    }
  }

  /** The word is there, perhaps with spaces behind it. */
  predicate SpellsPadded(t: bytes, word: string) {
    |t| >= |word| && Spells(t[..|word|], word) && AllSpaces(t[|word|..])
  }

  /** The word is begun and nothing follows. */
  predicate Begins(t: bytes, word: string) {
    |t| < |word| && Spells(t, word[..|t|])
  }

  lemma {:induction false} VerdictMeans(w: Word, rest: string, t: bytes)
    ensures Verdict(w, rest, t) == if SpellsPadded(t, rest) then Done(w) else if Begins(t, rest) then On(w) else Lost(w)
    decreases |t|
  {
    if rest == "" {
      assert t[0..] == t;
    } else if t != [] {
      VerdictMeans(w, rest[1..], t[1..]);
      if |t| >= |rest| {
        assert t[1..][..|rest| - 1] == t[..|rest|][1..] && t[1..][|rest| - 1..] == t[|rest|..];
        SpellsCons(t[..|rest|], rest);
      } else {
        assert rest[1..][..|t| - 1] == rest[..|t|][1..];
        SpellsCons(t, rest[..|t|]);
      }
    }
  }

  lemma SpellsCons(t: bytes, word: string)
    requires t != [] && word != ""
    ensures Spells(t, word) <==> Is(t[0], word[0]) && Spells(t[1..], word[1..])
  {
    if Is(t[0], word[0]) && Spells(t[1..], word[1..]) {
      forall i | 0 <= i < |t| ensures Is(t[i], word[i]) {
        if i > 0 {
          assert Is(t[1..][i - 1], word[1..][i - 1]);
        }
      }
    }
    if Spells(t, word) {
      forall i | 0 <= i < |t| - 1 ensures Is(t[1..][i], word[1..][i]) {
        assert Is(t[i + 1], word[i + 1]);
      }
    }
  }

  // ---------- the first byte ----------

  /** The first byte of a value may be any byte but a blank or a line end. */
  predicate IsValue(t: bytes) {
    t != [] && t[0] != 32 && t[0] != 9 && t[0] != 13 && t[0] != 10 && IsText(t[1..])
  }

  function Begun(s: State, c: byte): State
    requires s.line != ContentLength && IsNameLine(s.line)
  {
    s.(mode := Value, index := 0, line := BeginLine(s.line, c), nread := s.nread + 1,
       flags := if s.line == Upgrade then s.flags.(upgrade := true) else s.flags)
  }

  lemma {:induction false} ValueBegins(start: StartLine, s: State, c: byte)
    requires Valid(s) && s.mode == ValueDiscardWs && s.line != ContentLength && s.nread < start.limit
    requires c != 32 && c != 9 && c != 13 && c != 10
    ensures Goes(start, s, [c], Begun(s, c), [ValueByte(c)]) && Valid(Begun(s, c)) && Scans(Begun(s, c))
  {
    hide Run, Valid, Scans, Begun;
    BeginStep(start, s, c);
    hide StepByte;
    GoesByte(start, s, c);
  }

  lemma {:induction false} BeginStep(start: StartLine, s: State, c: byte)
    requires Valid(s) && s.mode == ValueDiscardWs && s.line != ContentLength && s.nread < start.limit
    requires c != 32 && c != 9 && c != 13 && c != 10
    ensures StepByte(start, s, c) == Taken(Begun(s, c), [ValueByte(c)])
    ensures Valid(Begun(s, c)) && Scans(Begun(s, c))
  {
    hide StepFieldStart, StepField, StepValue, StepValueLws, StepDiscardLws, StepHeadersAlmostDone, StepChunkSize,
      Lower;
  }

  lemma {:induction false} ValueGoes(start: StartLine, s: State, t: bytes)
    requires Valid(s) && s.mode == ValueDiscardWs && s.line != ContentLength && IsValue(t)
    requires s.nread + |t| <= start.limit
    ensures IsNameLine(s.line) && Scans(Begun(s, t[0]))
    ensures Goes(start, s, t, Scan(Begun(s, t[0]), t[1..]), ValueBytes(t))
  {
    assert IsNameLine(s.line);
    hide Goes, Valid, Scans, ValueBytes, Begun;
    var s1 := Begun(s, t[0]);
    ValueBegins(start, s, t[0]);
    BegunCounts(s, t[0]);
    ScanGoes(start, s1, t[1..]);
    FirstAndRest(t, 0);
    assert t[0..] == t;
    GoesCons(start, s, t[0], s1, [ValueByte(t[0])], t[1..], Scan(s1, t[1..]), ValueBytes(t[1..]), t, ValueBytes(t));
  }

  lemma BegunCounts(s: State, c: byte)
    requires s.line != ContentLength && IsNameLine(s.line)
    ensures Begun(s, c).nread == s.nread + 1 && Begun(s, c).mode == Value
  {
  }

  // ---------- chunked ----------

  /** Transfer-Encoding means chunks only if 'chunked' is all it says. */
  lemma {:induction false} ChunkedIsExact(s: State, t: bytes)
    requires Valid(s) && s.mode == ValueDiscardWs && s.line == TransferEncoding && IsValue(t)
    requires Scans(Begun(s, t[0]))
    ensures var s1 := Scan(Begun(s, t[0]), t[1..]);
            && s1.flags == s.flags && (s1.line == ValueChunked || s1.line == IsChunked || s1.line == General)
            && Conclude(s1.line, s.flags) == if SpellsPadded(t, "chunked") then s.flags.(chunked := true) else s.flags
  {
    hide Scans, Scan, ScanByte, Valid, Begun, Is, SpellsPadded, Begins, Verdict, IsText;
    var s0 := Begun(s, t[0]);
    TransferBegins(s, t[0]);
    assert "chunked"[1..] == Letters(ChunkedWord)[s0.index + 1..];
    PaddedCons(t, "chunked");
    if Is(t[0], 'c') {
      NoLineEnd(t);
      WordRead(s0, ChunkedWord, t[1..]);
      VerdictMeans(ChunkedWord, "chunked"[1..], t[1..]);
    } else {
      LostStays(s0, ChunkedWord, t[1..]);
    }
  }

  lemma NoLineEnd(t: bytes)
    requires IsValue(t)
    ensures 13 !in t[1..]
  {
  }

  lemma TransferBegins(s: State, c: byte)
    requires s.line == TransferEncoding && c != 13
    ensures var s0 := Begun(s, c);
            s0.flags == s.flags && s0.index == 0 && s0.line == if Is(c, 'c') then ValueChunked else General
  {
    hide Lower, Is;
    LowerIs(c, 'c');
  }

  lemma PaddedCons(t: bytes, word: string)
    requires t != [] && word != ""
    ensures SpellsPadded(t, word) <==> Is(t[0], word[0]) && SpellsPadded(t[1..], word[1..])
    ensures Begins(t, word) <==> Is(t[0], word[0]) && Begins(t[1..], word[1..])
  {
    hide Is;
    if |t| >= |word| {
      assert t[1..][..|word| - 1] == t[..|word|][1..] && t[1..][|word| - 1..] == t[|word|..];
      SpellsCons(t[..|word|], word);
    } else {
      assert word[1..][..|t| - 1] == word[..|t|][1..];
      SpellsCons(t, word[..|t|]);
    }
  }

  // ---------- connection options ----------

  /** An option, and the spaces before and after the comma behind it. */
  datatype Opt = Opt(text: bytes, before: nat, after: nat)

  function Spaces(n: nat): (t: bytes)
    ensures |t| == n && AllSpaces(t)
  {
    seq(n, i requires 0 <= i < n => 32 as byte)
  }

  function OptionText(o: Opt): bytes { o.text + Spaces(o.before) }

  function OptionsText(os: seq<Opt>): bytes
    requires os != []
  {
    OptionText(os[0]) + if |os| == 1 then [] else [44] + (Spaces(os[0].after) + OptionsText(os[1..]))
  }

  /** Some beginning of a word that the parser looks for. */
  predicate Unfinished(t: bytes) {
    Begins(t, "keep-alive") || Begins(t, "close") || Begins(t, "upgrade")
  }

  /** Free of commas, and without spaces at its end. */
  predicate IsOption(t: bytes) {
    t != [] && IsText(t[1..]) && 44 !in t && t[|t| - 1] != 32
  }

  /** The bytes that may begin an option behind a comma: a letter, a digit, or one of these. */
  predicate StartsOption(c: byte) {
    48 <= c <= 57 || 65 <= c <= 90 || 97 <= c <= 122 || c as char in "!#$%&'*+-.^`|~@\\"
  }

  ghost predicate OptionsOk(os: seq<Opt>) {
    && (forall i | 0 <= i < |os| :: IsOption(os[i].text))
    && (forall i | 0 < i < |os| :: StartsOption(os[i].text[0]))
    && (forall i | 0 <= i < |os| - 1 :: Unfinished(os[i].text) ==> os[i].before > 0)
  }

  function OptionFlags(flags: Flags, t: bytes): Flags {
    if Spells(t, "keep-alive") then flags.(keepAlive := true)
    else if Spells(t, "close") then flags.(close := true)
    else if Spells(t, "upgrade") then flags.(connectionUpgrade := true)
    else flags
  }

  function OptionsFlags(flags: Flags, os: seq<Opt>): Flags
    decreases |os|
  {
    if os == [] then flags else OptionsFlags(OptionFlags(flags, os[0].text), os[1..])
  }

  lemma {:induction false} Trimmed(t: bytes, n: nat, word: string)
    requires t != [] && t[|t| - 1] != 32 && IsWord(word)
    ensures SpellsPadded(t + Spaces(n), word) <==> Spells(t, word)
    ensures Begins(t + Spaces(n), word) <==> n == 0 && Begins(t, word)
  {
    var u := t + Spaces(n);
    if |t| == |word| {
      assert u[..|word|] == t && u[|word|..] == Spaces(n);
    } else if |t| > |word| {
      assert u[|word|..][|t| - 1 - |word|] == t[|t| - 1];
    } else if n > 0 {
      assert u[|t|] == 32 && !Is(32, word[|t|]);
      if |u| >= |word| {
        assert u[..|word|][|t|] == 32;
      } else {
        assert word[..|u|][|t|] == word[|t|];
      }
    } else {
      assert u == t;
    }
  }

  /** The line state behind an option and its spaces. */
  function OptionLine(o: Opt): Line {
    if Spells(o.text, "keep-alive") then IsKeepAlive
    else if Spells(o.text, "close") then IsClose
    else if Spells(o.text, "upgrade") then IsUpgrade
    else if o.before == 0 && Begins(o.text, "keep-alive") then ValueKeepAlive
    else if o.before == 0 && Begins(o.text, "close") then ValueClose
    else if o.before == 0 && Begins(o.text, "upgrade") then ValueUpgrade
    else Token
  }

  /** The first letter decides which word an option can still be. */
  lemma {:induction false} FirstLetterDecides(t: bytes, word: string)
    requires t != [] && word != ""
    ensures Spells(t, word) || Begins(t, word) ==> Is(t[0], word[0])
  {
  }

  ghost predicate OptionBegun(s: State, t: bytes) {
    && Scans(s) && t != [] && s.index == 0
    && s.line == if Is(t[0], 'k') then ValueKeepAlive else if Is(t[0], 'c') then ValueClose
                 else if Is(t[0], 'u') then ValueUpgrade else Token
  }

  lemma {:induction false} OptionRead(s: State, o: Opt)
    requires OptionBegun(s, o.text) && IsOption(o.text)
    ensures var r := Scan(s, OptionText(o)[1..]);
            r.flags == s.flags && r.line == OptionLine(o)
  {
    var t := OptionText(o);
    FirstLetterDecides(o.text, "keep-alive");
    FirstLetterDecides(o.text, "close");
    FirstLetterDecides(o.text, "upgrade");
    assert 44 !in t[1..] && 13 !in t[1..];
    assert t[0] == o.text[0];
    hide Spells, Begins, SpellsPadded, OptionText, IsOption;
    if Is(t[0], 'k') {
      WordOptionRead(s, o, KeepAliveWord);
    } else if Is(t[0], 'c') {
      WordOptionRead(s, o, CloseWord);
    } else if Is(t[0], 'u') {
      WordOptionRead(s, o, UpgradeWord);
    } else {
      hide Scans, Scan;
      LostStays(s, KeepAliveWord, t[1..]);
    }
  }

  lemma LettersAreWord(w: Word)
    ensures IsWord(Letters(w))
  {
  }

  lemma OptionNotEmpty(o: Opt)
    requires o.text != []
    ensures OptionText(o) != [] && OptionText(o)[0] == o.text[0]
  {
  }

  lemma {:induction false} WordOptionRead(s: State, o: Opt, w: Word)
    requires Scans(s) && IsOption(o.text) && !w.ChunkedWord? && s.line == On(w) && s.index == 0
    requires Is(o.text[0], Letters(w)[0]) && 44 !in OptionText(o)[1..] && 13 !in OptionText(o)[1..]
    ensures var r := Scan(s, OptionText(o)[1..]);
            && r.flags == s.flags
            && r.line == if Spells(o.text, Letters(w)) then Done(w)
                         else if o.before == 0 && Begins(o.text, Letters(w)) then On(w) else Token
  {
    hide Scans, Scan, Spells, Begins, SpellsPadded, Is, Letters, IsText, IsWord, AllSpaces;
    var t, l := OptionText(o), Letters(w);
    LettersAreWord(w);
    OptionNotEmpty(o);
    WordRead(s, w, t[1..]);
    VerdictMeans(w, l[1..], t[1..]);
    PaddedCons(t, l);
    Trimmed(o.text, o.before, l);
  }

  /** The comma behind an option confirms it. */
  lemma {:induction false} CommaRead(s: State, o: Opt)
    requires Scans(s) && s.line == OptionLine(o) && (Unfinished(o.text) ==> o.before > 0)
    ensures var r := ScanByte(s, 44);
            r.flags == OptionFlags(s.flags, o.text) && r.line == TokenStart && r.index == 0
  {
    hide Sound, Spells, Begins, Against, Lower, FirstOfToken, IsToken;
  }

  lemma {:induction false} LeadSkipped(s: State, n: nat)
    requires Scans(s) && s.line == TokenStart
    ensures var r := Scan(s, Spaces(n)); r.flags == s.flags && r.line == TokenStart && r.index == s.index
    decreases n
  {
    if n > 0 {
      SpaceSkipped(s);
      hide Scans, ScanByte;
      assert Spaces(n)[1..] == Spaces(n - 1);
      LeadSkipped(ScanByte(s, 32), n - 1);
    }
  }

  lemma {:induction false} SpaceSkipped(s: State)
    requires Scans(s) && s.line == TokenStart
    ensures var r := ScanByte(s, 32); r.flags == s.flags && r.line == TokenStart && r.index == s.index
  {
    hide Sound;
  }

  lemma {:induction false} OptionBegins(s: State, t: bytes)
    requires Scans(s) && s.line == TokenStart && s.index == 0 && t != [] && StartsOption(t[0])
    ensures OptionBegun(ScanByte(s, t[0]), t) && ScanByte(s, t[0]).flags == s.flags
  {
    LowerIs(t[0], 'k');
    LowerIs(t[0], 'c');
    LowerIs(t[0], 'u');
    TokenWhenLowered(t[0]);
    hide Scans, ScanByte, IsToken, Lower, Is, StartsOption;
    BehindComma(s, t[0]);
  }

  lemma {:induction false} BehindComma(s: State, c: byte)
    requires Scans(s) && s.line == TokenStart && c != 32
    ensures var r := ScanByte(s, c);
            && r.flags == s.flags && r.index == s.index
            && r.line == FirstOfToken(Lower(c), if IsToken(Lower(c)) then Token else General)
  {
    hide Sound, IsToken, Lower, FirstOfToken;
  }

  /** The set bit takes the underscore out of the alphabet and puts two others in. */
  lemma {:induction false} TokenWhenLowered(c: byte)
    requires c >= 32 || c == 9
    ensures IsToken(Lower(c)) <==> StartsOption(c)
  {
  }

  lemma {:induction false} ScanCons(s: State, c: byte, t: bytes)
    requires Scans(s)
    ensures Scan(s, [c] + t) == Scan(ScanByte(s, c), t)
  {
    assert ([c] + t)[1..] == t;
  }

  lemma {:induction false} ScanParts(s: State, a: bytes, c: byte, b: bytes, d: byte, more: bytes)
    requires Scans(s)
    ensures Scan(s, a + ([c] + (b + ([d] + more)))) == Scan(ScanByte(Scan(ScanByte(Scan(s, a), c), b), d), more)
  {
    hide Scans, ScanByte, Scan;
    var s1 := Scan(s, a);
    var s2 := ScanByte(s1, c);
    ScanAppend(s, a, [c] + (b + ([d] + more)));
    ScanCons(s1, c, b + ([d] + more));
    ScanAppend(s2, b, [d] + more);
    ScanCons(Scan(s2, b), d, more);
  }

  lemma OptionParts(o: Opt, more: bytes)
    requires o.text != []
    ensures (OptionText(o) + ([44] + (Spaces(o.after) + more)))[1..]
         == OptionText(o)[1..] + ([44] + (Spaces(o.after) + more))
  {
  }

  /** An option, the comma behind it, and the first byte of the next one. */
  lemma {:induction false} OptionAndComma(s: State, o: Opt, t: bytes, more: bytes) returns (s2: State)
    requires OptionBegun(s, o.text) && IsOption(o.text) && (Unfinished(o.text) ==> o.before > 0)
    requires t != [] && StartsOption(t[0]) && more != [] && more[0] == t[0]
    ensures OptionBegun(s2, t) && s2.flags == OptionFlags(s.flags, o.text)
    ensures Scan(s, (OptionText(o) + ([44] + (Spaces(o.after) + more)))[1..]) == Scan(s2, more[1..])
  {
    hide StartsOption, OptionFlags, OptionText, IsOption, Scan, ScanByte, Scans, Spaces, AllSpaces, OptionBegun,
      Unfinished, OptionLine;
    var s3 := CommaAndLead(s, o);
    OptionBegins(s3, t);
    s2 := ScanByte(s3, t[0]);
    assert more == [t[0]] + more[1..];
    OptionIsNotEmpty(o.text);
    OptionParts(o, more);
    ScanParts(s, OptionText(o)[1..], 44, Spaces(o.after), t[0], more[1..]);
  }

  lemma OptionIsNotEmpty(t: bytes)
    requires IsOption(t)
    ensures t != []
  {
  }

  lemma {:induction false} CommaAndLead(s: State, o: Opt) returns (s3: State)
    requires OptionBegun(s, o.text) && IsOption(o.text) && (Unfinished(o.text) ==> o.before > 0)
    ensures Scans(s) && OptionText(o) != []
    ensures s3 == Scan(ScanByte(Scan(s, OptionText(o)[1..]), 44), Spaces(o.after))
    ensures Scans(s3) && s3.line == TokenStart && s3.index == 0 && s3.flags == OptionFlags(s.flags, o.text)
  {
    hide StartsOption, OptionFlags, Scan, ScanByte, Scans, Spaces, AllSpaces, IsText, Unfinished, OptionLine;
    OptionRead(s, o);
    var s1 := Scan(s, OptionText(o)[1..]);
    CommaRead(s1, o);
    LeadSkipped(ScanByte(s1, 44), o.after);
    s3 := Scan(ScanByte(s1, 44), Spaces(o.after));
  }

  /** The flags after a list of options are exactly those that its options stand for. */
  lemma {:induction false} OptionsRead(s: State, os: seq<Opt>)
    requires os != [] && OptionsOk(os) && OptionBegun(s, os[0].text)
    ensures var r := Scan(s, OptionsText(os)[1..]);
            && r.line == OptionLine(os[|os| - 1]) && r.flags == OptionsFlags(s.flags, os[..|os| - 1])
            && Conclude(r.line, r.flags) == OptionsFlags(s.flags, os)
    decreases |os|
  {
    hide Scan, ScanByte, Scans, StartsOption, IsOption, Spells, Begins, OptionText, OptionLine, OptionBegun,
      OptionFlags, Conclude;
    if |os| == 1 {
      assert os == [os[0]] && os[..0] == [];
      LastOption(s, os[0]);
    } else {
      var rest := os[1..];
      StartsWithOption(rest);
      var s2 := OptionAndComma(s, os[0], rest[0].text, OptionsText(rest));
      OptionsRead(s2, rest);
      assert os[..|os| - 1][1..] == rest[..|rest| - 1];
    }
  }

  lemma StartsWithOption(os: seq<Opt>)
    requires os != [] && IsOption(os[0].text)
    ensures os[0].text != [] && OptionsText(os) != [] && OptionsText(os)[0] == os[0].text[0]
  {
  }

  lemma {:induction false} LastOption(s: State, o: Opt)
    requires OptionBegun(s, o.text) && IsOption(o.text)
    ensures var r := Scan(s, OptionsText([o])[1..]);
            && r.line == OptionLine(o) && r.flags == s.flags
            && Conclude(r.line, r.flags) == OptionsFlags(s.flags, [o])
  {
    hide OptionsText, OptionText, Scan, Scans, IsOption, Begins, Spells, OptionBegun;
    OnlyOption(o);
    OptionRead(s, o);
    assert OptionsFlags(OptionFlags(s.flags, o.text), []) == OptionFlags(s.flags, o.text);
  }

  lemma OnlyOption(o: Opt)
    ensures OptionsText([o]) == OptionText(o)
  {
  }

  const COMMA_CLOSE: bytes := [44, 99, 108, 111, 115, 101]

  /** A comma is noticed behind an option, unless the option is the mere beginning of a word: then it is swallowed,
      and with it the option that follows. */
  lemma {:induction false} CommaIsNoticed(s: State, t: bytes)
    requires OptionBegun(s, t) && IsOption(t)
    ensures var r := Scan(s, t[1..] + COMMA_CLOSE);
            Conclude(r.line, r.flags).close <==> s.flags.close || !Unfinished(t)
  {
    hide Scan, Conclude, IsOption, OptionBegun, Unfinished;
    if !Unfinished(t) {
      NoticedComma(s, t);
    } else {
      SwallowedComma(s, t);
    }
  }

  lemma CloseIsOption()
    ensures var t := COMMA_CLOSE[1..]; Spells(t, "close") && IsOption(t) && StartsOption(t[0])
  {
    assert IsSpelt(COMMA_CLOSE[1..], "close");
  }

  lemma {:induction false} NoticedComma(s: State, t: bytes)
    requires OptionBegun(s, t) && IsOption(t) && !Unfinished(t)
    ensures var r := Scan(s, t[1..] + COMMA_CLOSE); Conclude(r.line, r.flags).close
  {
    hide IsOption, OptionBegun, Spells, Begins, Unfinished, StartsOption, Scan, OptionsText, OptionsFlags, OptionFlags,
      Scans, Conclude;
    var os := [Opt(t, 0, 0), Opt(COMMA_CLOSE[1..], 0, 0)];
    CloseIsOption();
    OptionsRead(s, os);
    TwoOptions(t);
    SecondCloses(s.flags, t);
  }

  lemma SecondCloses(flags: Flags, t: bytes)
    ensures OptionsFlags(flags, [Opt(t, 0, 0), Opt(COMMA_CLOSE[1..], 0, 0)]).close
  {
    hide Spells, Begins;
    CloseIsOption();
    var os := [Opt(t, 0, 0), Opt(COMMA_CLOSE[1..], 0, 0)];
    assert os[1..] == [os[1]] && os[1..][1..] == [];
    var f := OptionFlags(flags, t);
    KeepAliveOrClose(COMMA_CLOSE[1..]);
    assert OptionsFlags(f, [os[1]]) == OptionsFlags(OptionFlags(f, COMMA_CLOSE[1..]), []);
  }

  lemma KeepAliveOrClose(t: bytes)
    requires Spells(t, "close")
    ensures !Spells(t, "keep-alive")
  {
  }

  lemma TwoOptions(t: bytes)
    requires IsOption(t)
    ensures OptionsText([Opt(t, 0, 0), Opt(COMMA_CLOSE[1..], 0, 0)])[1..] == t[1..] + COMMA_CLOSE
  {
    hide IsText;
    var os := [Opt(t, 0, 0), Opt(COMMA_CLOSE[1..], 0, 0)];
    assert os[1..] == [os[1]];
    OnlyOption(os[1]);
    assert Spaces(0) == [] && t + [] == t && COMMA_CLOSE[1..] + [] == COMMA_CLOSE[1..];
    assert [44] + COMMA_CLOSE[1..] == COMMA_CLOSE;
  }

  lemma {:induction false} SwallowedComma(s: State, t: bytes)
    requires OptionBegun(s, t) && IsOption(t) && Unfinished(t)
    ensures var r := Scan(s, t[1..] + COMMA_CLOSE); Conclude(r.line, r.flags).close <==> s.flags.close
  {
    hide IsOption, OptionBegun, Unfinished, Scan, Scans, ScanByte;
    UnfinishedRead(s, t);
    CommaAndMore(s, t[1..]);
  }

  lemma {:induction false} CommaAndMore(s: State, t: bytes)
    requires Scans(s)
    requires var line := Scan(s, t).line; line == ValueKeepAlive || line == ValueClose || line == ValueUpgrade
    ensures var r := Scan(s, t + COMMA_CLOSE); r.line == Token && r.flags == Scan(s, t).flags
  {
    hide Scan, Scans, ScanByte;
    var s1 := Scan(s, t);
    CommaSwallowed(s1);
    assert 44 !in COMMA_CLOSE[1..];
    LostStays(ScanByte(s1, 44), CloseWord, COMMA_CLOSE[1..]);
    ScanAppend(s, t, COMMA_CLOSE);
    assert [44] + COMMA_CLOSE[1..] == COMMA_CLOSE;
    ScanCons(s1, 44, COMMA_CLOSE[1..]);
  }

  lemma {:induction false} UnfinishedRead(s: State, t: bytes)
    requires OptionBegun(s, t) && IsOption(t) && Unfinished(t)
    ensures Scans(s) && t != []
    ensures var r := Scan(s, t[1..]);
            r.flags == s.flags && (r.line == ValueKeepAlive || r.line == ValueClose || r.line == ValueUpgrade)
  {
    hide Scan, Scans, IsText;
    var o := Opt(t, 0, 0);
    OptionRead(s, o);
    NoSpaces(t);
    UnfinishedLine(t);
  }

  lemma NoSpaces(t: bytes)
    ensures OptionText(Opt(t, 0, 0)) == t
  {
  }

  lemma UnfinishedLine(t: bytes)
    requires t != [] && Unfinished(t)
    ensures OptionLine(Opt(t, 0, 0)) in {ValueKeepAlive, ValueClose, ValueUpgrade}
  {
    FirstLetterDecides(t, "keep-alive");
    FirstLetterDecides(t, "close");
    FirstLetterDecides(t, "upgrade");
  }

  lemma {:induction false} CommaSwallowed(s: State)
    requires Scans(s) && (s.line == ValueKeepAlive || s.line == ValueClose || s.line == ValueUpgrade)
    ensures ScanByte(s, 44).line == Token && ScanByte(s, 44).flags == s.flags
  {
    hide Sound;
  }

  /** Behind a comma, any other byte than a space or one that may begin an option makes all the rest mean nothing. */
  lemma {:induction false} ListEnds(s: State, t: bytes)
    requires Scans(s) && s.line == TokenStart && t != [] && IsText(t) && t[0] != 32 && !StartsOption(t[0])
    ensures var r := Scan(s, t); Conclude(r.line, r.flags) == s.flags
  {
    var c := t[0];
    assert c != 13 && (c >= 32 || c == 9);
    LowerIs(c, 'k');
    LowerIs(c, 'c');
    LowerIs(c, 'u');
    TokenWhenLowered(c);
    hide Scans, ScanByte, IsToken, Lower, IsText;
    BehindComma(s, c);
    LostStays(ScanByte(s, c), ChunkedWord, t[1..]);
  }

  lemma {:induction false} ConnectionBegins(s: State, t: bytes)
    requires s.line == Connection && t != [] && t[0] != 13 && Scans(Begun(s, t[0]))
    ensures OptionBegun(Begun(s, t[0]), t) && Begun(s, t[0]).flags == s.flags
  {
    LowerIs(t[0], 'k');
    LowerIs(t[0], 'c');
    LowerIs(t[0], 'u');
    hide Scans, Lower, Is;
  }
}

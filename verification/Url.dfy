/**
 Cutting a URL into its fields: one state machine over the whole text, a second one over the part that
 names user, host and port.  The state that a byte leads to says which field the byte belongs to, if any,
 so a text has a sequence of labels, and the fields are its segments: where a label first occurs, and how
 often.  The program, which keeps the field it met last and adds to lengths, computes the same segments.
 */
module Url {
  import opened Bytes

  datatype Field = Schema | Host | Port | Path | Query | Fragment | Userinfo

  datatype Slice = Slice(off: nat, len: nat)

  type Fields = map<Field, Slice>

  // ---------- characters ----------

  predicate IsAlphaNum(c: byte) { IsAlpha(c) || IsDigit(c) }

  /** - _ . ! ~ * ' ( ) */
  predicate IsMark(c: byte) { c == 45 || c == 95 || c == 46 || c == 33 || c == 126 || 39 <= c <= 42 }

  /** Also % ; : & = + $ and the comma. */
  predicate IsUserinfoChar(c: byte) {
    IsAlphaNum(c) || IsMark(c) || c == 37 || c == 59 || c == 58 || c == 38 || c == 61 || c == 43 || c == 36 || c == 44
  }

  /** Visible characters other than # and ?. */
  predicate IsUrlChar(c: byte) { 33 <= c <= 126 && c != 35 && c != 63 }

  predicate IsHostChar(c: byte) { IsAlphaNum(c) || c == 46 || c == 45 }

  predicate IsZoneChar(c: byte) { IsAlphaNum(c) || c == 37 || c == 46 || c == 45 || c == 95 || c == 126 }

  // ---------- the machines ----------

  datatype UrlState =
    | Dead | BeforeUrl | InSchema | SchemaSlash | SchemaSlashSlash | ServerStart | Server | ServerWithAt
    | InPath | QueryStart | InQuery | FragmentStart | InFragment

  /** parse_url_char */
  function UrlChar(s: UrlState, c: byte): UrlState {
    if c == 32 || c == CR || c == LF || c == 9 || c == 12 then Dead
    else match s
      case BeforeUrl => if c == 47 || c == 42 then InPath else if IsAlpha(c) then InSchema else Dead
      case InSchema => if IsAlpha(c) then InSchema else if c == 58 then SchemaSlash else Dead
      case SchemaSlash => if c == 47 then SchemaSlashSlash else Dead
      case SchemaSlashSlash => if c == 47 then ServerStart else Dead
      case ServerStart | Server | ServerWithAt =>
        if s.ServerWithAt? && c == 64 then Dead
        else if c == 47 then InPath
        else if c == 63 then QueryStart
        else if c == 64 then ServerWithAt
        else if IsUserinfoChar(c) || c == 91 || c == 93 then Server
        else Dead
      case InPath =>
        if IsUrlChar(c) then InPath else if c == 63 then QueryStart else if c == 35 then FragmentStart else Dead
      case QueryStart | InQuery =>
        if IsUrlChar(c) || c == 63 then InQuery else if c == 35 then FragmentStart else Dead
      case FragmentStart => if IsUrlChar(c) || c == 63 then InFragment else if c == 35 then FragmentStart else Dead
      case InFragment => if IsUrlChar(c) || c == 63 || c == 35 then InFragment else Dead
      case Dead => Dead
  }

  datatype HostState =
    | HostDead | UserinfoStart | InUserinfo | HostStart | V6Start | InHost | V6 | V6End | ZoneStart | Zone
    | PortStart | InPort

  /** http_parse_host_char */
  function HostChar(s: HostState, c: byte): HostState {
    match s
    case InUserinfo | UserinfoStart =>
      if c == 64 then HostStart else if IsUserinfoChar(c) then InUserinfo else HostDead
    case HostStart => if c == 91 then V6Start else if IsHostChar(c) then InHost else HostDead
    case InHost => if IsHostChar(c) then InHost else if c == 58 then PortStart else HostDead
    case V6End => if c == 58 then PortStart else HostDead
    case V6 | V6Start =>
      if s.V6? && c == 93 then V6End
      else if IsHexDigit(c) || c == 58 || c == 46 then V6
      else if s.V6? && c == 37 then ZoneStart
      else HostDead
    case Zone | ZoneStart =>
      if s.Zone? && c == 93 then V6End else if IsZoneChar(c) then Zone else HostDead
    case InPort | PortStart => if IsDigit(c) then InPort else HostDead
    case HostDead => HostDead
  }

  function UrlRun(s: UrlState, buf: bytes): UrlState {
    if buf == [] then s else UrlChar(UrlRun(s, buf[..|buf| - 1]), buf[|buf| - 1])
  }

  function HostRun(s: HostState, buf: bytes): HostState {
    if buf == [] then s else HostChar(HostRun(s, buf[..|buf| - 1]), buf[|buf| - 1])
  }

  // ---------- fields ----------

  /** The field that a byte belongs to, by the state it leads to. */
  function UrlField(s: UrlState): Option<Field> {
    match s
    case InSchema => Some(Schema)
    case Server | ServerWithAt => Some(Host)
    case InPath => Some(Path)
    case InQuery => Some(Query)
    case InFragment => Some(Fragment)
    case _ => None
  }

  function HostField(s: HostState): Option<Field> {
    match s
    case InUserinfo => Some(Userinfo)
    case InHost | V6 | ZoneStart | Zone => Some(Host)
    case InPort => Some(Port)
    case _ => None
  }

  function UrlLabels(s: UrlState, buf: bytes): (l: seq<Option<Field>>)
    ensures |l| == |buf|
  {
    if buf == [] then [] else UrlLabels(s, buf[..|buf| - 1]) + [UrlField(UrlRun(s, buf))]
  }

  function HostLabels(s: HostState, buf: bytes): (l: seq<Option<Field>>)
    ensures |l| == |buf|
  {
    if buf == [] then [] else HostLabels(s, buf[..|buf| - 1]) + [HostField(HostRun(s, buf))]
  }

  /** A field grows by each byte that bears its label; it starts at the first. */
  function NextFields(fields: Fields, tag: Option<Field>, at: nat): Fields {
    match tag
    case None => fields
    case Some(f) => fields[f := if f in fields then fields[f].(len := fields[f].len + 1) else Slice(at, 1)]
  }

  function Segments(labels: seq<Option<Field>>): Fields {
    if labels == [] then map[]
    else NextFields(Segments(labels[..|labels| - 1]), labels[|labels| - 1], |labels| - 1)
  }

  // ---------- what parsing yields ----------

  datatype Parsed = Parsed(fields: Fields, port: nat)

  function Start(isConnect: bool): UrlState {
    if isConnect then ServerStart else BeforeUrl
  }

  predicate FoundAt(s: UrlState, buf: bytes) {
    buf != [] && (FoundAt(s, buf[..|buf| - 1]) || UrlRun(s, buf).ServerWithAt?)
  }

  function HostStartState(foundAt: bool): HostState {
    if foundAt then UserinfoStart else HostStart
  }

  predicate Accepting(s: HostState) {
    s.InHost? || s.V6End? || s.InPort?
  }

  function Nones(n: nat): (l: seq<Option<Field>>)
    ensures |l| == n
  {
    seq(n, i => None)
  }

  /** The fields of the part that names user, host and port. */
  function HostFields(buf: bytes, span: Slice, foundAt: bool): Option<Fields>
    requires span.off + span.len <= |buf|
  {
    var text := buf[span.off..span.off + span.len];
    var s := HostStartState(foundAt);
    if Accepting(HostRun(s, text)) then Some(Segments(Nones(span.off) + HostLabels(s, text))) else None
  }

  /** The value of a run of digits. */
  function Value(s: bytes): nat {
    ValueOf(DecimalDigits(s), 10)
  }

  lemma {:induction false} ValueNext(s: bytes)
    requires s != []
    ensures Value(s) == 10 * Value(s[..|s| - 1]) + DigitValue(s[|s| - 1])
  {
    var d := DecimalDigits(s[..|s| - 1]);
    assert DecimalDigits(s) == d + [DigitValue(s[|s| - 1])];
    ValueAppend(d, DigitValue(s[|s| - 1]), 10);
  }

  function PortOf(buf: bytes, fields: Fields): nat {
    if Port in fields && fields[Port].off + fields[Port].len <= |buf|
    then Value(buf[fields[Port].off..fields[Port].off + fields[Port].len])
    else 0
  }

  /** http_parser_parse_url, None for an error. */
  function Parse(buf: bytes, isConnect: bool): Option<Parsed> {
    var s := Start(isConnect);
    var base := Segments(UrlLabels(s, buf));
    if buf == [] || UrlRun(s, buf).Dead? || (Schema in base && Host !in base) then None
    else
      SegmentsFit(UrlLabels(s, buf));
      var sub := if Host in base then HostFields(buf, base[Host], FoundAt(s, buf)) else Some(map[]);
      if sub.None? then None
      else
        var fields := base + sub.value;
        if isConnect && fields.Keys != {Host, Port} then None
        else if PortOf(buf, fields) > 0xffff then None
        else Some(Parsed(fields, PortOf(buf, fields)))
  }

  /** Every byte labelled with a field lies in its slice, and no other byte does. */
  ghost predicate Marked(fields: Fields, labels: seq<Option<Field>>) {
    && (forall f | f in fields :: 0 < fields[f].len && fields[f].off + fields[f].len <= |labels|)
    && (forall f, i | f in fields && fields[f].off <= i < fields[f].off + fields[f].len :: labels[i] == Some(f))
    && (forall i | 0 <= i < |labels| && labels[i].Some? ::
          labels[i].value in fields
          && fields[labels[i].value].off <= i < fields[labels[i].value].off + fields[labels[i].value].len)
  }

  lemma {:induction false} SegmentsFit(labels: seq<Option<Field>>)
    ensures forall f | f in Segments(labels) ::
              0 < Segments(labels)[f].len && Segments(labels)[f].off + Segments(labels)[f].len <= |labels|
  {
    if labels != [] {
      SegmentsFit(labels[..|labels| - 1]);
    }
  }

  // ---------- the machines only go forward ----------

  /** The place of a field in a URL. */
  function FieldRank(f: Field): nat {
    match f
    case Schema => 1
    case Userinfo => 11
    case Host => 15
    case Port => 19
    case Path => 21
    case Query => 23
    case Fragment => 25
  }

  function UrlRank(s: UrlState): nat {
    match s
    case BeforeUrl => 0
    case InSchema => 1
    case SchemaSlash => 2
    case SchemaSlashSlash => 3
    case ServerStart => 4
    case Server => 15
    case ServerWithAt => 15
    case InPath => 21
    case QueryStart => 22
    case InQuery => 23
    case FragmentStart => 24
    case InFragment => 25
    case Dead => 26
  }

  function HostRank(s: HostState): nat {
    match s
    case UserinfoStart => 10
    case InUserinfo => 11
    case HostStart => 12
    case V6Start => 13
    case InHost => 15
    case V6 => 15
    case ZoneStart => 15
    case Zone => 15
    case V6End => 16
    case PortStart => 17
    case InPort => 19
    case HostDead => 20
  }

  /** 'fields' are the segments of the labels, in the order of their ranks; only the field of the current
      rank can still grow. */
  ghost predicate Scanned(fields: Fields, labels: seq<Option<Field>>, rank: nat) {
    && Marked(fields, labels)
    && Ordered(fields)
    && (forall f | f in fields ::
          FieldRank(f) < rank || (FieldRank(f) == rank && fields[f].off + fields[f].len == |labels|))
  }

  ghost predicate Ordered(fields: Fields) {
    forall f, g | f in fields && g in fields && FieldRank(f) < FieldRank(g) ::
      fields[f].off + fields[f].len <= fields[g].off
  }

  lemma {:induction false} ScannedNext(fields: Fields, labels: seq<Option<Field>>, rank: nat, tag: Option<Field>,
                                       next: nat)
    requires Scanned(fields, labels, rank) && rank <= next
    requires tag.Some? ==> FieldRank(tag.value) == next
    requires tag == None ==> forall f: Field :: FieldRank(f) != next
    ensures Scanned(NextFields(fields, tag, |labels|), labels + [tag], next)
  {
    hide Marked, Ordered, NextFields;
    MarkedNext(fields, labels, rank, tag, next);
    OrderedNext(fields, labels, rank, tag, next);
    FrontierNext(fields, labels, rank, tag, next);
  }

  lemma {:induction false} FrontierNext(fields: Fields, labels: seq<Option<Field>>, rank: nat, tag: Option<Field>,
                                        next: nat)
    requires Scanned(fields, labels, rank) && rank <= next
    requires tag.Some? ==> FieldRank(tag.value) == next
    requires tag == None ==> forall f: Field :: FieldRank(f) != next
    ensures var r := NextFields(fields, tag, |labels|);
            forall f | f in r :: FieldRank(f) < next || (FieldRank(f) == next && r[f].off + r[f].len == |labels| + 1)
  {
    hide Ordered, Marked;
  }

  lemma {:induction false} OrderedNext(fields: Fields, labels: seq<Option<Field>>, rank: nat, tag: Option<Field>,
                                       next: nat)
    requires Scanned(fields, labels, rank) && rank <= next
    requires tag.Some? ==> FieldRank(tag.value) == next
    ensures Ordered(NextFields(fields, tag, |labels|))
  {
    hide FieldRank;
  }

  lemma {:induction false} MarkedNext(fields: Fields, labels: seq<Option<Field>>, rank: nat, tag: Option<Field>,
                                      next: nat)
    requires Scanned(fields, labels, rank) && rank <= next
    requires tag.Some? ==> FieldRank(tag.value) == next
    ensures Marked(NextFields(fields, tag, |labels|), labels + [tag])
  {
    hide Ordered;
    var l := labels + [tag];
    assert forall i | 0 <= i < |labels| :: l[i] == labels[i];
    if tag.Some? {
      assert tag.value in fields ==> fields[tag.value].off + fields[tag.value].len == |labels|;
      MarkedMore(fields, labels, tag.value);
    } else {
      MarkedNone(fields, labels);
    }
  }

  lemma {:induction false} MarkedNone(fields: Fields, labels: seq<Option<Field>>)
    requires Marked(fields, labels)
    ensures Marked(fields, labels + [None])
  {
  }

  lemma {:induction false} MarkedMore(fields: Fields, labels: seq<Option<Field>>, f: Field)
    requires Marked(fields, labels)
    requires f in fields ==> fields[f].off + fields[f].len == |labels|
    ensures Marked(NextFields(fields, Some(f), |labels|), labels + [Some(f)])
  {
  }

  lemma {:induction false} UrlScanned(s: UrlState, buf: bytes)
    requires s.BeforeUrl? || s.ServerStart?
    requires !UrlRun(s, buf).Dead?
    ensures Scanned(Segments(UrlLabels(s, buf)), UrlLabels(s, buf), UrlRank(UrlRun(s, buf)))
  {
    hide Scanned, NextFields;
    if buf == [] {
      NothingScanned(UrlRank(s));
    } else {
      var most := buf[..|buf| - 1];
      UrlScanned(s, most);
      UrlForward(UrlRun(s, most), buf[|buf| - 1]);
      var l := UrlLabels(s, most);
      ScannedNext(Segments(l), l, UrlRank(UrlRun(s, most)), UrlField(UrlRun(s, buf)), UrlRank(UrlRun(s, buf)));
      assert (l + [UrlField(UrlRun(s, buf))])[..|l|] == l;
    }
  }

  lemma NothingScanned(rank: nat)
    ensures Scanned(map[], [], rank)
  {
  }

  lemma UrlForward(s: UrlState, c: byte)
    ensures var t := UrlChar(s, c);
            && UrlRank(s) <= UrlRank(t)
            && (UrlField(t).Some? ==> FieldRank(UrlField(t).value) == UrlRank(t))
            && (!t.BeforeUrl? && UrlField(t) == None ==> forall f: Field :: FieldRank(f) != UrlRank(t))
            && !t.BeforeUrl?
  {
  }

  lemma HostForward(s: HostState, c: byte)
    ensures var t := HostChar(s, c);
            && HostRank(s) <= HostRank(t)
            && (HostField(t).Some? ==> FieldRank(HostField(t).value) == HostRank(t))
            && (HostField(t) == None ==> forall f: Field :: FieldRank(f) != HostRank(t))
  {
  }

  // ---------- user, host and port ----------

  lemma {:induction false} NoSegments(n: nat)
    ensures Segments(Nones(n)) == map[]
  {
    if n > 0 {
      NoSegments(n - 1);
      assert Nones(n)[..n - 1] == Nones(n - 1);
    }
  }

  predicate PastHostStart(s: HostState) {
    s.InHost? || s.V6? || s.V6End? || s.ZoneStart? || s.Zone? || s.PortStart? || s.InPort?
  }

  lemma {:induction false} HostScanned(n: nat, s: HostState, text: bytes)
    requires s.UserinfoStart? || s.HostStart?
    requires !HostRun(s, text).HostDead?
    ensures var l := Nones(n) + HostLabels(s, text);
            Scanned(Segments(l), l, HostRank(HostRun(s, text)))
    decreases |text|
  {
    hide Scanned, NextFields, HostChar, HostField, HostRank, Segments;
    if text == [] {
      assert Nones(n) + [] == Nones(n);
      NoSegments(n);
      NothingYet(n, HostRank(s));
    } else {
      var most := text[..|text| - 1];
      DeadStays(HostRun(s, most), text[|text| - 1]);
      HostScanned(n, s, most);
      HostForward(HostRun(s, most), text[|text| - 1]);
      var l := Nones(n) + HostLabels(s, most);
      var tag := HostField(HostRun(s, text));
      ScannedNext(Segments(l), l, HostRank(HostRun(s, most)), tag, HostRank(HostRun(s, text)));
      assert Nones(n) + HostLabels(s, text) == l + [tag];
      SegmentsNext(l, tag);
    }
  }

  lemma DeadStays(s: HostState, c: byte)
    ensures s.HostDead? ==> HostChar(s, c).HostDead?
  {
  }

  lemma SegmentsNext(l: seq<Option<Field>>, tag: Option<Field>)
    ensures Segments(l + [tag]) == NextFields(Segments(l), tag, |l|)
  {
    assert (l + [tag])[..|l|] == l;
  }

  lemma {:induction false} HostKeys(n: nat, s: HostState, text: bytes)
    requires s.UserinfoStart? || s.HostStart?
    ensures var l := Nones(n) + HostLabels(s, text);
            && Segments(l).Keys <= {Userinfo, Host, Port}
            && (PastHostStart(HostRun(s, text)) ==> Host in Segments(l))
    decreases |text|
  {
    hide Segments;
    if text == [] {
      assert Nones(n) + [] == Nones(n);
      NoSegments(n);
    } else {
      var most := text[..|text| - 1];
      HostKeys(n, s, most);
      var l := Nones(n) + HostLabels(s, most);
      var tag := HostField(HostRun(s, text));
      assert Nones(n) + HostLabels(s, text) == l + [tag];
      SegmentsNext(l, tag);
    }
  }

  lemma NothingYet(n: nat, rank: nat)
    ensures Scanned(map[], Nones(n), rank)
  {
  }

  /** What the bytes of a field, and those between fields, look like. */
  predicate Belongs(f: Field, c: byte) {
    match f
    case Schema => IsAlpha(c)
    case Userinfo => IsUserinfoChar(c)
    case Host => IsHostChar(c) || IsZoneChar(c) || c == 58
    case Port => IsDigit(c)
    case Path => IsUrlChar(c)
    case Query => IsUrlChar(c) || c == 63
    case Fragment => IsUrlChar(c) || c == 63 || c == 35
  }

  /** : / ? # @ [ ] */
  predicate IsDelimiter(c: byte) {
    c == 58 || c == 47 || c == 63 || c == 35 || c == 64 || c == 91 || c == 93
  }

  lemma {:induction false} HostBytes(s: HostState, text: bytes, i: nat)
    requires s.UserinfoStart? || s.HostStart?
    requires !HostRun(s, text).HostDead? && i < |text|
    ensures var tag := HostLabels(s, text)[i];
            if tag.Some? then Belongs(tag.value, text[i]) else IsDelimiter(text[i])
    decreases |text|
  {
    if i + 1 < |text| {
      HostBytes(s, text[..|text| - 1], i);
    }
  }

  lemma {:induction false} UrlBytes(s: UrlState, buf: bytes, i: nat)
    requires s.BeforeUrl? || s.ServerStart?
    requires !UrlRun(s, buf).Dead? && i < |buf|
    ensures var tag := UrlLabels(s, buf)[i];
            if tag.Some? then tag == Some(Host) || Belongs(tag.value, buf[i]) else IsDelimiter(buf[i])
    decreases |buf|
  {
    if i + 1 < |buf| {
      UrlBytes(s, buf[..|buf| - 1], i);
    }
  }

  // ---------- the whole ----------

  predicate Within(fields: Fields, f: Field, i: int) {
    f in fields && fields[f].off <= i < fields[f].off + fields[f].len
  }

  /** The fields of a parsed URL: non-empty, inside the text, apart from one another and in the order schema,
      userinfo, host, port, path, query, fragment. */
  ghost predicate InOrder(fields: Fields, size: nat) {
    && (forall f | f in fields :: 0 < fields[f].len && fields[f].off + fields[f].len <= size)
    && Ordered(fields)
    && ((Schema in fields || Userinfo in fields || Port in fields) ==> Host in fields)
  }

  /** Each byte of a field is of its kind, and each byte of no field is a delimiter. */
  ghost predicate Accounted(buf: bytes, fields: Fields) {
    && (forall f, i | 0 <= i < |buf| && Within(fields, f, i) :: Belongs(f, buf[i]))
    && (forall i | 0 <= i < |buf| && (forall f :: !Within(fields, f, i)) :: IsDelimiter(buf[i]))
  }

  /** The slices of user, host and port replace the one they were found in. */
  lemma {:induction false} Combined(base: Fields, sub: Fields, size: nat)
    requires Host in base && Host in sub && Port !in base && Userinfo !in base && sub.Keys <= {Userinfo, Host, Port}
    requires Ordered(base) && Ordered(sub) && forall f | f in base ::
               0 < base[f].len && base[f].off + base[f].len <= size
    requires forall f | f in sub :: 0 < sub[f].len && base[Host].off <= sub[f].off
                                    && sub[f].off + sub[f].len <= base[Host].off + base[Host].len
    ensures InOrder(base + sub, size)
  {
    var u := base + sub;
    forall f, g | f in u && g in u && FieldRank(f) < FieldRank(g)
      ensures u[f].off + u[f].len <= u[g].off
    {
      CombinedAt(base, sub, f, g);
    }
  }

  lemma {:induction false} CombinedAt(base: Fields, sub: Fields, f: Field, g: Field)
    requires Host in base && Host in sub && Port !in base && Userinfo !in base && sub.Keys <= {Userinfo, Host, Port}
    requires Ordered(base) && Ordered(sub) && f in base + sub && g in base + sub && FieldRank(f) < FieldRank(g)
    requires forall f | f in sub :: base[Host].off <= sub[f].off
                                    && sub[f].off + sub[f].len <= base[Host].off + base[Host].len
    ensures (base + sub)[f].off + (base + sub)[f].len <= (base + sub)[g].off
  {
    hide Ordered;
    if f in sub && g !in sub {
      assert FieldRank(Host) < FieldRank(g);
      InOrderAt(base, Host, g);
    } else if f !in sub && g in sub {
      assert FieldRank(f) < FieldRank(Host);
      InOrderAt(base, f, Host);
    } else if f in sub {
      InOrderAt(sub, f, g);
    } else {
      InOrderAt(base, f, g);
    }
  }

  lemma InOrderAt(fields: Fields, f: Field, g: Field)
    requires Ordered(fields) && f in fields && g in fields && FieldRank(f) < FieldRank(g)
    ensures fields[f].off + fields[f].len <= fields[g].off
  {
  }

  lemma {:induction false} UrlKeys(s: UrlState, buf: bytes)
    ensures Segments(UrlLabels(s, buf)).Keys <= {Schema, Host, Path, Query, Fragment}
  {
    if buf != [] {
      var l := UrlLabels(s, buf[..|buf| - 1]);
      UrlKeys(s, buf[..|buf| - 1]);
      assert (l + [UrlField(UrlRun(s, buf))])[..|l|] == l;
    }
  }

  lemma {:induction false} HostWithin(buf: bytes, span: Slice, foundAt: bool)
    requires span.off + span.len <= |buf| && HostFields(buf, span, foundAt).Some?
    ensures var sub := HostFields(buf, span, foundAt).value;
            && Ordered(sub) && sub.Keys <= {Userinfo, Host, Port} && Host in sub
            && (forall f | f in sub ::
                  0 < sub[f].len && span.off <= sub[f].off && sub[f].off + sub[f].len <= span.off + span.len)
  {
    hide HostRun, HostLabels, Segments, Ordered;
    var text := buf[span.off..span.off + span.len];
    var s := HostStartState(foundAt);
    HostScanned(span.off, s, text);
    HostKeys(span.off, s, text);
    MarkedAfter(Segments(Nones(span.off) + HostLabels(s, text)), span.off, HostLabels(s, text));
  }

  lemma {:induction false} MarkedAfter(fields: Fields, n: nat, labels: seq<Option<Field>>)
    requires Marked(fields, Nones(n) + labels)
    ensures forall f | f in fields ::
              0 < fields[f].len && n <= fields[f].off && fields[f].off + fields[f].len <= n + |labels|
  {
    var l := Nones(n) + labels;
    forall f | f in fields
      ensures n <= fields[f].off
    {
      assert l[fields[f].off] == Some(f);
    }
  }

  lemma {:induction false} MarkedAt(fields: Fields, labels: seq<Option<Field>>, i: nat)
    requires Marked(fields, labels) && i < |labels|
    ensures forall f :: Within(fields, f, i) <==> labels[i] == Some(f)
  {
  }

  lemma {:induction false} HostAccounted(buf: bytes, span: Slice, foundAt: bool, i: nat)
    requires span.off + span.len <= |buf| && HostFields(buf, span, foundAt).Some?
    requires span.off <= i < span.off + span.len
    ensures var sub := HostFields(buf, span, foundAt).value;
            && (forall f | Within(sub, f, i) :: Belongs(f, buf[i]))
            && ((forall f :: !Within(sub, f, i)) ==> IsDelimiter(buf[i]))
  {
    hide HostRun, HostLabels, Segments, Ordered, Belongs, IsDelimiter;
    var text := buf[span.off..span.off + span.len];
    var s := HostStartState(foundAt);
    HostScanned(span.off, s, text);
    var l := Nones(span.off) + HostLabels(s, text);
    MarkedAt(Segments(l), l, i);
    HostBytes(s, text, i - span.off);
    assert text[i - span.off] == buf[i] && l[i] == HostLabels(s, text)[i - span.off];
  }

  /** On success, for every text: the fields are in order, every byte is accounted for, and the port is the
      value of its digits. */
  lemma {:induction false} ParsedInOrder(buf: bytes, isConnect: bool)
    requires Parse(buf, isConnect).Some?
    ensures var u := Parse(buf, isConnect).value;
            && InOrder(u.fields, |buf|)
            && u.port == PortOf(buf, u.fields) <= 0xffff
            && (isConnect ==> u.fields.Keys == {Host, Port})
  {
    hide UrlRun, UrlLabels, Segments, HostFields, Value, Ordered, InOrder;
    var s := Start(isConnect);
    var l := UrlLabels(s, buf);
    var base := Segments(l);
    UrlScanned(s, buf);
    UrlKeys(s, buf);
    SegmentsFit(l);
    if Host in base {
      HostWithin(buf, base[Host], FoundAt(s, buf));
      Combined(base, HostFields(buf, base[Host], FoundAt(s, buf)).value, |buf|);
    } else {
      assert base + map[] == base;
      InOrderAlone(base, |buf|);
    }
  }

  lemma InOrderAlone(base: Fields, size: nat)
    requires Ordered(base) && base.Keys <= {Path, Query, Fragment}
    requires forall f | f in base :: 0 < base[f].len && base[f].off + base[f].len <= size
    ensures InOrder(base, size)
  {
  }

  lemma {:induction false} ParsedIsAccounted(buf: bytes, isConnect: bool)
    requires Parse(buf, isConnect).Some?
    ensures Accounted(buf, Parse(buf, isConnect).value.fields)
  {
    hide UrlRun, UrlLabels, Segments, HostFields, Value, Ordered, Belongs, IsDelimiter;
    var s := Start(isConnect);
    var base := Segments(UrlLabels(s, buf));
    forall i | 0 <= i < |buf|
      ensures forall f | Within(Parse(buf, isConnect).value.fields, f, i) :: Belongs(f, buf[i])
      ensures (forall f :: !Within(Parse(buf, isConnect).value.fields, f, i)) ==> IsDelimiter(buf[i])
    {
      ByteAccounted(buf, isConnect, i);
    }
  }

  lemma {:induction false} ByteAccounted(buf: bytes, isConnect: bool, i: nat)
    requires Parse(buf, isConnect).Some? && i < |buf|
    ensures var fields := Parse(buf, isConnect).value.fields;
            && (forall f | Within(fields, f, i) :: Belongs(f, buf[i]))
            && ((forall f :: !Within(fields, f, i)) ==> IsDelimiter(buf[i]))
  {
    hide UrlRun, UrlLabels, Segments, HostFields, Value, Ordered, Belongs, IsDelimiter, Within, Marked;
    var s := Start(isConnect);
    var l := UrlLabels(s, buf);
    var base := Segments(l);
    UrlScanned(s, buf);
    UrlBytes(s, buf, i);
    UrlKeys(s, buf);
    MarkedAt(base, l, i);
    SegmentsFit(l);
    SpanHolds(base, Host, i);
    if Host in base {
      var span, foundAt := base[Host], FoundAt(s, buf);
      HostWithin(buf, span, foundAt);
      Elsewhere(base, HostFields(buf, span, foundAt).value, i, l);
      if Within(base, Host, i) {
        HostAccounted(buf, span, foundAt, i);
      }
    } else {
      assert base + map[] == base;
    }
  }

  lemma SpanHolds(fields: Fields, f: Field, i: nat)
    ensures Within(fields, f, i) <==> f in fields && fields[f].off <= i < fields[f].off + fields[f].len
  {
  }

  /** Outside the host's span the fields are those of the first machine, inside they are those of the second. */
  lemma {:induction false} Elsewhere(base: Fields, sub: Fields, i: nat, labels: seq<Option<Field>>)
    requires i < |labels| && Marked(base, labels) && Host in base && Host in sub
    requires sub.Keys <= {Userinfo, Host, Port} && Userinfo !in base && Port !in base
    requires forall f | f in sub ::
               base[Host].off <= sub[f].off && sub[f].off + sub[f].len <= base[Host].off + base[Host].len
    ensures Within(base, Host, i) ==> forall f :: Within(base + sub, f, i) <==> Within(sub, f, i)
    ensures !Within(base, Host, i) ==> forall f :: Within(base + sub, f, i) <==> Within(base, f, i)
  {
    forall f
      ensures Within(base, Host, i) ==> (Within(base + sub, f, i) <==> Within(sub, f, i))
      ensures !Within(base, Host, i) ==> (Within(base + sub, f, i) <==> Within(base, f, i))
    {
      if Within(base, Host, i) && f != Host && f in base {
        assert labels[i] == Some(Host);
      }
    }
  }

  // ---------- the program ----------

  /** struct http_parser_url; the keys of 'fields' are the bits of field_set. */
  class ParsedUrl {
    var fields: Fields
    var port: nat

    constructor ()
      ensures fields == map[] && port == 0
    {
      fields, port := map[], 0;
    }

    /** A field starts at 'at' with its first byte. */
    method Open(f: Field, at: nat)
      modifies this`fields
      ensures fields == old(fields)[f := Slice(at, 1)]
    {
      fields := fields[f := Slice(at, 1)];
    }

    method Lengthen(f: Field)
      requires f in fields
      modifies this`fields
      ensures fields == old(fields)[f := old(fields[f]).(len := old(fields[f].len) + 1)]
    {
      fields := fields[f := fields[f].(len := fields[f].len + 1)];
    }
  }

  /** 'old' is the field met last, the one of the highest rank. */
  ghost predicate IsLast(old0: Option<Field>, fields: Fields) {
    && (old0 == None ==> fields == map[])
    && (old0.Some? ==> old0.value in fields && forall f | f in fields :: FieldRank(f) <= FieldRank(old0.value))
  }

  lemma {:induction false} UrlStep(s: UrlState, buf: bytes, p: nat, old0: Option<Field>)
    requires s.BeforeUrl? || s.ServerStart?
    requires p < |buf| && !UrlRun(s, buf[..p]).Dead? && IsLast(old0, Segments(UrlLabels(s, buf[..p])))
    ensures var t := UrlChar(UrlRun(s, buf[..p]), buf[p]);
            var was, now := Segments(UrlLabels(s, buf[..p])), Segments(UrlLabels(s, buf[..p + 1]));
            && UrlRun(s, buf[..p + 1]) == t
            && FoundAt(s, buf[..p + 1]) == (FoundAt(s, buf[..p]) || t.ServerWithAt?)
            && (!t.Dead? ==>
                  && !t.BeforeUrl?
                  && now == NextFields(was, UrlField(t), p)
                  && (UrlField(t).Some? ==>
                        && ((UrlField(t) == old0) == (UrlField(t).value in was))
                        && IsLast(UrlField(t), now))
                  && (UrlField(t) == None ==> now == was))
  {
    hide UrlChar, FieldRank, UrlField, Segments, Marked, Ordered;
    var most := buf[..p + 1];
    assert most[..p] == buf[..p];
    var t := UrlRun(s, most);
    if !t.Dead? {
      UrlScanned(s, buf[..p]);
      UrlForward(UrlRun(s, buf[..p]), buf[p]);
      SegmentsNext(UrlLabels(s, buf[..p]), UrlField(t));
      FieldRanksDiffer();
    }
  }

  lemma FieldRanksDiffer()
    ensures forall f, g :: FieldRank(f) == FieldRank(g) ==> f == g
  {
  }

  lemma {:induction false} DeadForever(s: UrlState, buf: bytes, p: nat)
    requires p <= |buf| && UrlRun(s, buf[..p]).Dead?
    ensures UrlRun(s, buf).Dead?
    decreases |buf|
  {
    if p < |buf| {
      assert buf[..|buf| - 1][..p] == buf[..p];
      DeadForever(s, buf[..|buf| - 1], p);
    } else {
      assert buf[..p] == buf;
    }
  }

  /** The loop over the URL; false when the machine dies. */
  method ScanUrl(buf: bytes, isConnect: bool, u: ParsedUrl) returns (ok: bool, foundAt: bool)
    requires u.fields == map[]
    modifies u`fields
    ensures ok == !UrlRun(Start(isConnect), buf).Dead?
    ensures ok ==> u.fields == Segments(UrlLabels(Start(isConnect), buf)) && foundAt == FoundAt(Start(isConnect), buf)
  {
    hide UrlRun, UrlLabels, Segments, FoundAt, UrlChar, FieldRank, IsLast;
    ghost var s0 := Start(isConnect);
    var s := Start(isConnect);
    var oldUf: Option<Field> := None;
    foundAt := false;
    var p := 0;
    NothingRun(s0, buf);
    while p < |buf|
      invariant 0 <= p <= |buf| && s == UrlRun(s0, buf[..p]) && !s.Dead?
      invariant u.fields == Segments(UrlLabels(s0, buf[..p])) && foundAt == FoundAt(s0, buf[..p])
      invariant IsLast(oldUf, u.fields)
    {
      UrlStep(s0, buf, p, oldUf);
      s := UrlChar(s, buf[p]);
      var uf: Option<Field>;
      match s {
        case Dead =>
          DeadForever(s0, buf, p + 1);
          return false, foundAt;
        case SchemaSlash | SchemaSlashSlash | ServerStart | QueryStart | FragmentStart =>
          p := p + 1;
          continue;
        case InSchema =>
          uf := Some(Schema);
        case ServerWithAt =>
          foundAt := true;
          uf := Some(Host);
        case Server =>
          uf := Some(Host);
        case InPath =>
          uf := Some(Path);
        case InQuery =>
          uf := Some(Query);
        case InFragment =>
          uf := Some(Fragment);
      }
      if uf == oldUf {
        u.Lengthen(uf.value);
      } else {
        u.Open(uf.value, p);
        oldUf := uf;
      }
      p := p + 1;
    }
    assert buf[..|buf|] == buf;
    ok := true;
  }

  lemma NothingRun(s: UrlState, buf: bytes)
    ensures UrlRun(s, buf[..0]) == s && Segments(UrlLabels(s, buf[..0])) == map[] && !FoundAt(s, buf[..0])
    ensures IsLast(None, map[])
  {
  }

  /** What the host machine has found so far, by the state it is in. */
  lemma {:induction false} HostHas(n: nat, s: HostState, text: bytes)
    requires (s.UserinfoStart? || s.HostStart?) && !HostRun(s, text).HostDead?
    ensures var sub, t := Segments(Nones(n) + HostLabels(s, text)), HostRun(s, text);
            && (Userinfo in sub <== t.InUserinfo?) && (t.UserinfoStart? ==> Userinfo !in sub)
            && (Host in sub <==> PastHostStart(t))
            && (Port in sub <==> t.InPort?)
            && sub.Keys <= {Userinfo, Host, Port}
    decreases |text|
  {
    hide Segments;
    if text == [] {
      assert Nones(n) + [] == Nones(n);
      NoSegments(n);
    } else {
      var most := text[..|text| - 1];
      HostHas(n, s, most);
      var l := Nones(n) + HostLabels(s, most);
      var tag := HostField(HostRun(s, text));
      assert Nones(n) + HostLabels(s, text) == l + [tag];
      SegmentsNext(l, tag);
    }
  }

  /** Which states a field is entered from, and which it goes on from. */
  predicate Begins(s: HostState, t: HostState) {
    match t
    case InHost => s.InHost? || HostField(s) == None
    case V6 => s.V6? || HostField(s) == None
    case ZoneStart | Zone => HostField(s) == Some(Host)
    case InPort => s.InPort? || HostField(s) == None
    case InUserinfo => s.InUserinfo? || HostField(s) == None
    case _ => HostField(t) == None
  }

  lemma MergeNext(bare: Fields, sub: Fields, f: Field, at: nat)
    ensures f in sub ==> (bare + sub)[f := sub[f].(len := sub[f].len + 1)] == bare + NextFields(sub, Some(f), at)
    ensures f !in sub ==> (bare + sub)[f := Slice(at, 1)] == bare + NextFields(sub, Some(f), at)
    ensures (bare + sub)[f := Slice(at, 0)][f := Slice(at, 1)] == (bare + sub)[f := Slice(at, 1)]
  {
  }

  lemma NothingHosted(n: nat, s: HostState, text: bytes)
    ensures HostRun(s, text[..0]) == s && Segments(Nones(n) + HostLabels(s, text[..0])) == map[]
  {
    assert Nones(n) + [] == Nones(n);
    NoSegments(n);
  }

  lemma {:induction false} HostStep(n: nat, s: HostState, text: bytes, k: nat)
    requires (s.UserinfoStart? || s.HostStart?) && k < |text| && !HostRun(s, text[..k]).HostDead?
    ensures var t := HostChar(HostRun(s, text[..k]), text[k]);
            var was := Segments(Nones(n) + HostLabels(s, text[..k]));
            var now := Segments(Nones(n) + HostLabels(s, text[..k + 1]));
            && HostRun(s, text[..k + 1]) == t
            && now == NextFields(was, HostField(t), n + k)
            && (HostField(t).Some? ==>
                  (HostField(t).value in was <==> HostField(HostRun(s, text[..k])) == HostField(t)))
            && (HostField(t) == None ==> now == was)
            && Begins(HostRun(s, text[..k]), t)
  {
    hide Segments;
    var most := text[..k + 1];
    assert most[..k] == text[..k];
    HostHas(n, s, text[..k]);
    var l := Nones(n) + HostLabels(s, text[..k]);
    assert Nones(n) + HostLabels(s, most) == l + [HostField(HostRun(s, most))];
    SegmentsNext(l, HostField(HostRun(s, most)));
  }

  lemma {:induction false} HostDeadForever(s: HostState, text: bytes, k: nat)
    requires k <= |text| && HostRun(s, text[..k]).HostDead?
    ensures HostRun(s, text).HostDead?
    decreases |text|
  {
    if k < |text| {
      assert text[..|text| - 1][..k] == text[..k];
      HostDeadForever(s, text[..|text| - 1], k);
    } else {
      assert text[..k] == text;
    }
  }

  /** http_parse_host */
  method ParseHost(buf: bytes, u: ParsedUrl, foundAt: bool) returns (ok: bool)
    requires Host in u.fields && u.fields[Host].off + u.fields[Host].len <= |buf|
    requires Port !in u.fields && Userinfo !in u.fields
    modifies u`fields
    ensures var sub := HostFields(buf, old(u.fields[Host]), foundAt);
            ok == sub.Some? && (ok ==> u.fields == old(u.fields) + sub.value)
  {
    hide HostRun, HostLabels, Segments, HostChar, NextFields;
    ghost var base, span := u.fields, u.fields[Host];
    ghost var text, s0 := buf[span.off..span.off + span.len], HostStartState(foundAt);
    var start, end := u.fields[Host].off, u.fields[Host].off + u.fields[Host].len;
    u.fields := u.fields[Host := Slice(start, 0)];
    ghost var bare := u.fields;
    var s := HostStartState(foundAt);
    var p := start;
    NothingHosted(span.off, s0, text);
    assert bare + map[] == bare;
    while p < end
      invariant start <= p <= end && s == HostRun(s0, text[..p - start]) && !s.HostDead?
      invariant u.fields == bare + Segments(Nones(start) + HostLabels(s0, text[..p - start]))
    {
      HostStep(start, s0, text, p - start);
      assert text[p - start] == buf[p];
      var t := HostChar(s, buf[p]);
      ghost var sub := Segments(Nones(start) + HostLabels(s0, text[..p - start]));
      if HostField(t).Some? {
        MergeNext(bare, sub, HostField(t).value, p);
      }
      match t {
        case HostDead =>
          HostDeadForever(s0, text, p - start + 1);
          return false;
        case InHost =>
          if !s.InHost? {
            u.fields := u.fields[Host := u.fields[Host].(off := p)];
          }
          u.Lengthen(Host);
        case V6 =>
          if !s.V6? {
            u.fields := u.fields[Host := u.fields[Host].(off := p)];
          }
          u.Lengthen(Host);
        case ZoneStart | Zone =>
          u.Lengthen(Host);
        case InPort =>
          if !s.InPort? {
            u.fields := u.fields[Port := Slice(p, 0)];
          }
          u.Lengthen(Port);
        case InUserinfo =>
          if !s.InUserinfo? {
            u.fields := u.fields[Userinfo := Slice(p, 0)];
          }
          u.Lengthen(Userinfo);
        case _ =>
      }
      s := t;
      p := p + 1;
    }
    assert text[..|text|] == text;
    HostHas(start, s0, text);
    ok := Accepting(s);
  }

  lemma {:induction false} ValueGrows(s: bytes, k: nat)
    requires k <= |s|
    ensures Value(s) >= Value(s[..k])
    decreases |s|
  {
    hide Value;
    if k < |s| {
      assert s[..|s| - 1][..k] == s[..k];
      ValueGrows(s[..|s| - 1], k);
      ValueNext(s);
    } else {
      assert s[..k] == s;
    }
  }

  /** The loop over the digits of the port. */
  method ReadPort(buf: bytes, slice: Slice) returns (ok: bool, v: nat)
    requires slice.off + slice.len <= |buf|
    requires forall i | slice.off <= i < slice.off + slice.len :: IsDigit(buf[i])
    ensures var text := buf[slice.off..slice.off + slice.len];
            ok == (Value(text) <= 0xffff) && (ok ==> v == Value(text))
  {
    ghost var text := buf[slice.off..slice.off + slice.len];
    v := 0;
    assert text[..0] == [] && Value([]) == 0;
    hide Value;
    var p, end := slice.off, slice.off + slice.len;
    while p < end
      invariant slice.off <= p <= end && v == Value(text[..p - slice.off]) <= 0xffff
    {
      ghost var k := p - slice.off;
      assert text[..k + 1][..k] == text[..k] && text[..k + 1][k] == text[k] == buf[p];
      ValueNext(text[..k + 1]);
      v := v * 10;
      v := v + (buf[p] as int - 48);
      if v > 0xffff {
        ValueGrows(text, k + 1);
        return false, v;
      }
      p := p + 1;
    }
    assert text[..|text|] == text;
    ok := true;
  }

  /** The digits are validated already. */
  lemma {:induction false} PortDigits(buf: bytes, span: Slice, foundAt: bool, base: Fields)
    requires span.off + span.len <= |buf| && HostFields(buf, span, foundAt).Some? && Port !in base
    ensures var fields := base + HostFields(buf, span, foundAt).value;
            Port in fields ==>
              && fields[Port].off + fields[Port].len <= |buf|
              && forall i | fields[Port].off <= i < fields[Port].off + fields[Port].len :: IsDigit(buf[i])
  {
    hide HostFields, Ordered;
    HostWithin(buf, span, foundAt);
    var sub := HostFields(buf, span, foundAt).value;
    if Port in sub {
      forall i | sub[Port].off <= i < sub[Port].off + sub[Port].len
        ensures IsDigit(buf[i])
      {
        HostAccounted(buf, span, foundAt, i);
        assert Within(sub, Port, i);
      }
    }
  }

  /** http_parser_parse_url; offsets are 16 bits wide. */
  method ParseUrl(buf: bytes, isConnect: bool, u: ParsedUrl) returns (ok: bool)
    requires |buf| <= 0xffff
    modifies u
    ensures ok == Parse(buf, isConnect).Some?
    ensures ok ==> Parsed(u.fields, u.port) == Parse(buf, isConnect).value
  {
    hide UrlRun, UrlLabels, Segments, HostFields, FoundAt, Value;
    if |buf| == 0 {
      return false;
    }
    u.port, u.fields := 0, map[];
    var foundAt;
    ok, foundAt := ScanUrl(buf, isConnect, u);
    if !ok {
      return false;
    }
    SegmentsFit(UrlLabels(Start(isConnect), buf));
    UrlKeys(Start(isConnect), buf);
    if Schema in u.fields && Host !in u.fields {
      return false;
    }
    ghost var base := u.fields;
    assert base + map[] == base;
    if Host in u.fields {
      ok := ParseHost(buf, u, foundAt);
      if !ok {
        return false;
      }
      PortDigits(buf, base[Host], foundAt, base);
    }
    if isConnect && u.fields.Keys != {Host, Port} {
      return false;
    }
    if Port in u.fields {
      var v;
      ok, v := ReadPort(buf, u.fields[Port]);
      if !ok {
        return false;
      }
      u.port := v;
    }
    return true;
  }
}

/** The texts that are URLs, as a grammar: exactly these are accepted, and every part is found in its field.  The
    grammar is that of the program, which lets some parts be empty. */
module UrlRoundTrip {
  import opened Bytes
  import opened Url
  import opened UrlBlocks
  import opened UrlParts
  import opened UrlSite

  /** The pieces of the site are a user that ends with its @, a host, and a port that is not empty. */
  ghost predicate IsSite(h: Site) {
    SiteFits(h) && HasHost(h) && (h.colon ==> h.port != [])
  }

  /** The parts of a text and the pieces of its site belong together. */
  ghost predicate Belong(p: Parts, h: Site, isConnect: bool) {
    && Fitting(p, isConnect) && p != NO_PARTS
    && if p.site == [] then h == NO_SITE else SiteFits(h) && p.site == SiteText(h)
  }

  /** A scheme needs a host; CONNECT takes a host and a port and nothing else; a port has 16 bits. */
  ghost predicate IsUrl(p: Parts, h: Site, isConnect: bool) {
    && (p.schema != [] ==> p.site != []) && (p.site != [] ==> IsSite(h)) && Value(h.port) <= 65535
    && (isConnect ==>
          p.site != [] && h.user == [] && h.port != [] && p.path == [] && p.query == [] && p.fragment == [])
  }

  function Part(t: bytes): Option<bytes> { if t == [] then None else Some(t) }

  /** Every part is found in its field. */
  ghost predicate Found(buf: bytes, fields: Fields, p: Parts, h: Site) {
    && TextOf(buf, fields, Schema) == Part(p.schema)
    && TextOf(buf, fields, Userinfo) == Part(h.user)
    && TextOf(buf, fields, Host) == Part(HostText(h))
    && TextOf(buf, fields, Port) == Part(h.port)
    && TextOf(buf, fields, Path) == Part(p.path)
    && TextOf(buf, fields, Query) == Part(p.query)
    && TextOf(buf, fields, Fragment) == Part(p.fragment)
  }

  // ---------- fields and blocks ----------

  lemma {:induction false} FieldPresent(bs: seq<bytes>, tags: seq<Option<Field>>, k: nat)
    requires |bs| == |tags| && Distinct(tags) && k < |bs| && tags[k].Some?
    ensures var fields, f := FieldsOf(bs, tags), tags[k].value;
            && (f in fields <==> bs[k] != [])
            && (bs[k] != [] ==> fields[f] == Slice(|Concat(bs[..k])|, |bs[k]|))
    decreases |bs|
  {
    hide Concat;
    var n := |bs| - 1;
    FieldsAreTagged(bs[..n], tags[..n]);
    if k < n {
      assert Distinct(tags[..n]);
      FieldPresent(bs[..n], tags[..n], k);
      assert bs[..n][..k] == bs[..k];
    }
  }

  lemma TextMerged(buf: bytes, base: Fields, sub: Fields, f: Field)
    ensures f in sub ==> TextOf(buf, base + sub, f) == TextOf(buf, sub, f)
    ensures f !in sub ==> TextOf(buf, base + sub, f) == TextOf(buf, base, f)
    ensures f !in sub && f !in base ==> TextOf(buf, base + sub, f) == None
  {
  }

  lemma PortFromText(buf: bytes, fields: Fields)
    ensures PortOf(buf, fields) == match TextOf(buf, fields, Port) case Some(d) => Value(d) case None => 0
  {
  }

  // ---------- the two machines ----------

  ghost function Base(p: Parts): Fields
    requires p.marks <= 3
  {
    FieldsOf(Blocks(p), TAGS)
  }

  /** What precedes the site, and what follows it. */
  function Ahead(p: Parts): bytes
    requires p.marks <= 3
  {
    Concat(Blocks(p)[..2])
  }

  function Rest(p: Parts): bytes
    requires p.marks <= 3
  {
    Concat(Blocks(p)[3..])
  }

  lemma {:induction false} TextAround(p: Parts)
    requires p.marks <= 3
    ensures UrlText(p) == Ahead(p) + (p.site + Rest(p))
  {
    ConcatAround(Blocks(p), 2);
  }

  /** An @ is in a text with a host exactly if one is expected. */
  lemma {:induction false} AtIsExpected(h: Site)
    requires SiteFits(h)
    ensures 64 in SiteText(h) <==> h.ended
    ensures HasHost(h) ==> (h.ended <==> h.at)
  {
    var bs := SiteBlocks(h);
    InConcat(64, bs);
    NoAt(h);
    if h.ended {
      assert 64 in bs[1];
    }
  }

  lemma NoAt(h: Site)
    requires SiteFits(h)
    ensures 64 !in h.user && 64 !in HostText(h) && 64 !in h.port
    ensures forall i | 0 <= i < 7 && i != 1 :: 64 !in SiteBlocks(h)[i]
  {
    assert !IsUserByte(64) && !IsNameByte(64) && !IsAddressByte(64) && !IsZoneByte(64);
  }

  /** What parsing finds first. */
  lemma {:induction false} BaseFound(p: Parts, isConnect: bool)
    requires Fitting(p, isConnect)
    ensures var buf := UrlText(p);
            && !UrlRun(Start(isConnect), buf).Dead? && Segments(UrlLabels(Start(isConnect), buf)) == Base(p)
            && FoundAt(Start(isConnect), buf) == (64 in p.site)
    ensures Schema in Base(p) <==> p.schema != []
    ensures Host in Base(p) <==> p.site != []
    ensures p.site != [] ==> Base(p)[Host] == Slice(|Ahead(p)|, |p.site|)
  {
    hide UrlRun, UrlLabels, Segments, FoundAt, Concat, FieldsOf, PathFits;
    PartsAreRead(p, isConnect);
    TagsDiffer();
    FieldPresent(Blocks(p), TAGS, 0);
    FieldPresent(Blocks(p), TAGS, 2);
  }

  ghost function Sub(p: Parts, h: Site): Fields
    requires p.marks <= 3
  {
    if p.site == [] then map[] else FieldsOf(BlocksBehind(Ahead(p), h), TAGS_BEHIND)
  }

  /** What parsing makes of the site. */
  lemma {:induction false} SiteFound(p: Parts, h: Site)
    requires p.marks <= 3 && p.site != [] && SiteFits(h) && p.site == SiteText(h) && h.at == (64 in p.site)
    ensures var n := |Ahead(p)|;
            && n + |p.site| <= |UrlText(p)|
            && HostFields(UrlText(p), Slice(n, |p.site|), 64 in p.site) == if IsSite(h) then Some(Sub(p, h)) else None
  {
    hide HostRun, HostLabels, Segments, FieldsOf, HostFits, UrlText, Ahead, Rest;
    TextAround(p);
    var pre := Ahead(p);
    assert UrlText(p)[|pre|..|pre| + |p.site|] == p.site;
    SiteIsRead(pre, h);
    IsAccepted(h);
  }

  lemma IsAccepted(h: Site)
    requires SiteFits(h)
    ensures Accepting(SiteState(h)) <==> IsSite(h)
  {
  }

  // ---------- the fields ----------

  lemma {:induction false} BaseTexts(p: Parts)
    requires p.marks <= 3
    ensures var buf, base := UrlText(p), Base(p);
            && TextOf(buf, base, Schema) == Part(p.schema) && TextOf(buf, base, Path) == Part(p.path)
            && TextOf(buf, base, Query) == Part(p.query) && TextOf(buf, base, Fragment) == Part(p.fragment)
            && Userinfo !in base && Port !in base
  {
    hide FieldsOf, TextOf, Concat;
    TagsDiffer();
    assert UrlText(p) + [] == UrlText(p);
    BlockIsField(Blocks(p), TAGS, 0, []);
    BlockIsField(Blocks(p), TAGS, 3, []);
    BlockIsField(Blocks(p), TAGS, 5, []);
    BlockIsField(Blocks(p), TAGS, 7, []);
    NoSuchField(Blocks(p), TAGS, Userinfo);
    NoSuchField(Blocks(p), TAGS, Port);
  }

  lemma {:induction false} SubTexts(p: Parts, h: Site)
    requires p.marks <= 3 && p.site != [] && p.site == SiteText(h)
    ensures var buf, sub := UrlText(p), Sub(p, h);
            && TextOf(buf, sub, Userinfo) == Part(h.user) && TextOf(buf, sub, Host) == Part(HostText(h))
            && TextOf(buf, sub, Port) == Part(h.port)
            && (Userinfo in sub <==> h.user != []) && (Host in sub <==> HostText(h) != [])
            && (Port in sub <==> h.port != [])
            && Schema !in sub && Path !in sub && Query !in sub && Fragment !in sub
  {
    hide FieldsOf, TextOf, Concat, HostText, UrlText, Ahead, Rest;
    var bs := BlocksBehind(Ahead(p), h);
    TagsBehindDiffer();
    TextAround(p);
    TextBehind(Ahead(p), h);
    Regroup(Ahead(p), p.site, Rest(p));
    BlockIsField(bs, TAGS_BEHIND, 1, Rest(p));
    BlockIsField(bs, TAGS_BEHIND, 4, Rest(p));
    BlockIsField(bs, TAGS_BEHIND, 7, Rest(p));
    FieldPresent(bs, TAGS_BEHIND, 1);
    FieldPresent(bs, TAGS_BEHIND, 4);
    FieldPresent(bs, TAGS_BEHIND, 7);
    NoSuchField(bs, TAGS_BEHIND, Schema);
    NoSuchField(bs, TAGS_BEHIND, Path);
    NoSuchField(bs, TAGS_BEHIND, Query);
    NoSuchField(bs, TAGS_BEHIND, Fragment);
  }

  /** Every part is in its field, once the fields of the site have replaced the site. */
  lemma {:induction false} AllFound(p: Parts, h: Site)
    requires p.marks <= 3 && if p.site == [] then h == NO_SITE else p.site == SiteText(h) && HostText(h) != []
    ensures Found(UrlText(p), Base(p) + Sub(p, h), p, h)
  {
    hide TextOf, Base, HostText, UrlText;
    var buf, base, sub := UrlText(p), Base(p), Sub(p, h);
    BaseTexts(p);
    if p.site != [] {
      SubTexts(p, h);
    } else {
      NoHost(p);
    }
    hide Sub;
    TextMerged(buf, base, sub, Schema);
    TextMerged(buf, base, sub, Userinfo);
    TextMerged(buf, base, sub, Host);
    TextMerged(buf, base, sub, Port);
    TextMerged(buf, base, sub, Path);
    TextMerged(buf, base, sub, Query);
    TextMerged(buf, base, sub, Fragment);
  }

  lemma {:induction false} NoHost(p: Parts)
    requires p.marks <= 3 && p.site == []
    ensures Host !in Base(p) && HostText(NO_SITE) == []
  {
    hide Concat, FieldsOf;
    TagsDiffer();
    FieldPresent(Blocks(p), TAGS, 2);
  }

  /** A host is never empty. */
  lemma HostNotEmpty(h: Site)
    requires IsSite(h)
    ensures HostText(h) != []
  {
  }

  /** The fields that are there are those whose parts are not empty. */
  lemma {:induction false} FieldIsThere(buf: bytes, fields: Fields, f: Field)
    requires f in fields ==> fields[f].off + fields[f].len <= |buf|
    ensures f in fields <==> TextOf(buf, fields, f).Some?
  {
  }

  lemma {:induction false} OnlyHostAndPort(buf: bytes, fields: Fields, p: Parts, h: Site)
    requires Found(buf, fields, p, h) && HostText(h) != []
    requires FitIn(fields, |buf|)
    ensures fields.Keys == {Host, Port} <==>
              p.schema == [] && h.user == [] && h.port != [] && p.path == [] && p.query == [] && p.fragment == []
  {
    hide TextOf, HostText;
    FieldIsThere(buf, fields, Schema);
    FieldIsThere(buf, fields, Userinfo);
    FieldIsThere(buf, fields, Host);
    FieldIsThere(buf, fields, Port);
    FieldIsThere(buf, fields, Path);
    FieldIsThere(buf, fields, Query);
    FieldIsThere(buf, fields, Fragment);
    if p.schema == [] && h.user == [] && h.port != [] && p.path == [] && p.query == [] && p.fragment == [] {
      forall f ensures f in fields.Keys <==> f in {Host, Port} {
        AllFields(f);
      }
    }
  }

  lemma AllFields(f: Field)
    ensures f in {Schema, Userinfo, Host, Port, Path, Query, Fragment}
  {
  }

  lemma {:induction false} AllFit(p: Parts, h: Site)
    requires p.marks <= 3 && (p.site != [] ==> p.site == SiteText(h))
    ensures FitIn(Base(p) + Sub(p, h), |UrlText(p)|)
  {
    hide UrlText, Base, Sub, Ahead, SiteText;
    BaseFits(p);
    SubFits(p, h);
    BothFit(Base(p), Sub(p, h), |UrlText(p)|);
  }

  lemma BothFit(base: Fields, sub: Fields, n: nat)
    requires FitIn(base, n) && FitIn(sub, n)
    ensures FitIn(base + sub, n)
  {
    var fields: Fields := base + sub;
    forall f | f in fields ensures fields[f].off + fields[f].len <= n {
      assert fields[f] == if f in sub then sub[f] else base[f];
    }
  }

  lemma BaseFits(p: Parts)
    requires p.marks <= 3
    ensures FitIn(Base(p), |UrlText(p)|)
  {
    FieldsFit(Blocks(p), TAGS);
  }

  lemma SubFits(p: Parts, h: Site)
    requires p.marks <= 3 && (p.site != [] ==> p.site == SiteText(h))
    ensures FitIn(Sub(p, h), |UrlText(p)|)
  {
    hide UrlText, Ahead, Rest, FieldsOf;
    FieldsFit(BlocksBehind(Ahead(p), h), TAGS_BEHIND);
    TextBehind(Ahead(p), h);
    TextAround(p);
  }

  // ---------- exactly the texts that can be composed ----------

  lemma {:induction false} TextNotEmpty(p: Parts)
    requires p.marks <= 3 && p != NO_PARTS
    ensures UrlText(p) != []
  {
    hide Concat;
    var bs := Blocks(p);
    assert |MARKS[..p.marks]| == p.marks && |Hashes(p.hashes)| == p.hashes;
    var k := if p.schema != [] then 0 else if p.marks > 0 then 1 else if p.site != [] then 2 else if p.path != [] then 3
             else if p.question then 4 else if p.query != [] then 5 else if p.hashes > 0 then 6 else 7;
    ConcatAround(bs, k);
  }

  /** The condition on the site, for the fields that parsing has found. */
  lemma {:induction false} PortAndKeys(p: Parts, h: Site)
    requires p.marks <= 3 && if p.site == [] then h == NO_SITE else p.site == SiteText(h) && HostText(h) != []
    ensures var fields := Base(p) + Sub(p, h);
            && PortOf(UrlText(p), fields) == Value(h.port)
            && (fields.Keys == {Host, Port} <==>
                  && p.schema == [] && p.site != [] && h.user == [] && h.port != [] && p.path == [] && p.query == []
                  && p.fragment == [])
  {
    hide TextOf, Base, Sub, HostText, Value, PortOf;
    var fields := Base(p) + Sub(p, h);
    AllFound(p, h);
    AllFit(p, h);
    PortFromText(UrlText(p), fields);
    NoValue();
    if p.site != [] {
      OnlyHostAndPort(UrlText(p), fields, p, h);
    } else {
      NoHost(p);
      hide UrlText;
      FieldIsThere(UrlText(p), fields, Host);
    }
  }

  lemma NoValue()
    ensures Value([]) == 0
  {
  }

  /** Parsing the text of fitting parts. */
  lemma {:induction false} PartsParsed(p: Parts, h: Site, isConnect: bool)
    requires Belong(p, h, isConnect) && p.marks <= 3 && (p.site != [] ==> h.at == (64 in p.site))
    ensures Parse(UrlText(p), isConnect)
         == if IsUrl(p, h, isConnect) then Some(Parsed(Base(p) + Sub(p, h), Value(h.port))) else None
  {
    hide UrlRun, UrlLabels, Segments, FoundAt, HostFields, Value, PortOf, Base, Sub, HostText, IsSite, UrlText, Fitting,
      SiteFits;
    BaseFound(p, isConnect);
    TextNotEmpty(p);
    NoValue();
    SchemaOrConnect(p, isConnect);
    if p.site == [] {
      PortAndKeys(p, h);
      assert Base(p) + map[] == Base(p) + Sub(p, h) by { NoSub(p, h); }
    } else {
      SiteFound(p, h);
      if IsSite(h) {
        HostNotEmpty(h);
        PortAndKeys(p, h);
      }
    }
  }

  lemma NoSub(p: Parts, h: Site)
    requires p.marks <= 3 && p.site == []
    ensures Sub(p, h) == map[]
  {
  }

  lemma SchemaOrConnect(p: Parts, isConnect: bool)
    requires Fitting(p, isConnect)
    ensures p.schema != [] ==> !isConnect
  {
  }

  /** A URL in parts. */
  ghost predicate Composes(buf: bytes, p: Parts, h: Site, isConnect: bool) {
    Belong(p, h, isConnect) && IsUrl(p, h, isConnect) && p.marks <= 3 && buf == UrlText(p)
  }

  /** What is composed of the parts of a URL is accepted, every part is found again, and the port as a number. */
  lemma {:induction false} ComposedIsParsed(buf: bytes, p: Parts, h: Site, isConnect: bool)
    requires Composes(buf, p, h, isConnect)
    ensures var r := Parse(buf, isConnect);
            r.Some? && Found(buf, r.value.fields, p, h) && r.value.port == Value(h.port)
  {
    hide Value, Base, Sub, UrlText, Fitting, Found, Parse, HostText, SiteText;
    if p.site != [] {
      AtIsExpected(h);
      HostNotEmpty(h);
    }
    PartsParsed(p, h, isConnect);
    AllFound(p, h);
  }

  /** A site that is accepted is not refused by the second machine. */
  lemma {:induction false} SiteIsAlive(p: Parts, isConnect: bool)
    requires Fitting(p, isConnect) && p.marks <= 3 && p.site != [] && Parse(UrlText(p), isConnect).Some?
    ensures !HostRun(HostStartState(64 in p.site), p.site).HostDead?
  {
    hide UrlRun, UrlLabels, Segments, FoundAt, HostRun, HostLabels, Value, PortOf, Base, UrlText, Ahead, Rest, Fitting;
    BaseFound(p, isConnect);
    TextAround(p);
    var pre := Ahead(p);
    assert UrlText(p)[|pre|..|pre| + |p.site|] == p.site;
  }

  lemma NoPartsNoText()
    ensures UrlText(NO_PARTS) == []
  {
    NothingRead(false);
  }

  /** What is accepted is composed of the parts of a URL, and these are the fields. */
  lemma {:induction false} ParsedIsComposed(buf: bytes, isConnect: bool) returns (p: Parts, h: Site)
    requires Parse(buf, isConnect).Some?
    ensures Composes(buf, p, h, isConnect)
    ensures Found(buf, Parse(buf, isConnect).value.fields, p, h)
    ensures Parse(buf, isConnect).value.port == Value(h.port)
  {
    hide Value, UrlRun, UrlLabels, Segments, FoundAt, HostFields, Found, PortOf, Fitting, UrlText, Parse, SiteFits,
      HostRun, SiteText, SiteReadAs, IsUrl;
    IsAlive(buf, isConnect);
    p := TextHasParts(buf, isConnect);
    StateReached(buf, p, isConnect);
    SameText(buf, p, isConnect);
    NoPartsNoText();
    h := NO_SITE;
    if p.site != [] {
      SiteIsAlive(p, isConnect);
      h := TextHasSite(Ahead(p), p.site, 64 in p.site);
      SameSite(Ahead(p), p.site, h);
    }
    PartsParsed(p, h, isConnect);
    ComposedIsParsed(buf, p, h, isConnect);
  }

  lemma IsAlive(buf: bytes, isConnect: bool)
    requires Parse(buf, isConnect).Some?
    ensures buf != [] && !UrlRun(Start(isConnect), buf).Dead?
  {
  }

  /** A text is accepted if and only if it is composed of the parts of a URL. */
  lemma {:induction false} AcceptedExactly(buf: bytes, isConnect: bool)
    ensures Parse(buf, isConnect).Some? <==> exists p, h :: Composes(buf, p, h, isConnect)
  {
    hide Parse, Composes, Found, Value;
    if Parse(buf, isConnect).Some? {
      var p, h := ParsedIsComposed(buf, isConnect);
    }
    if p, h :| Composes(buf, p, h, isConnect) {
      ComposedIsParsed(buf, p, h, isConnect);
    }
  }

  /** A fragment directly behind the authority is refused, whatever it is. */
  lemma {:induction false} FragmentNeedsPath(p: Parts, isConnect: bool, fragment: bytes)
    requires Fitting(p, isConnect) && p.marks <= 3 && p.site != [] && p.path == [] && !p.question
    ensures Parse(UrlText(p) + ([35] + fragment), isConnect) == None
  {
    hide UrlRun, UrlLabels, Segments, FoundAt, UrlText, FrontFits, PathFits;
    var buf := UrlText(p) + ([35] + fragment);
    PartsAreRead(p, isConnect);
    RunOn(Start(isConnect), UrlText(p), 35);
    assert buf[..|UrlText(p)| + 1] == UrlText(p) + [35];
    DeadForever(Start(isConnect), buf, |UrlText(p)| + 1);
  }
}

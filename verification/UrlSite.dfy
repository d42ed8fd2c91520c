/**
 The part of a URL that names user, host and port, as the second machine sees it.  The host is a name, or an address
 in brackets, perhaps with a zone.  The machine reads exactly the texts that consist of fitting pieces and gives every
 byte to the field of its piece.  As for the parts of the whole, there is one step for each direction: what fits is
 taken, and what is taken fits.  The pieces stand behind some other text, so their fields are those of blocks of which
 the first belongs to no field.
 */
module UrlSite {
  import opened Bytes
  import opened Url
  import opened UrlBlocks

  /** 'at' says whether an @ is expected, 'ended' whether it has come; the host stands in brackets if 'open'. */
  datatype Site = Site(at: bool, user: bytes, ended: bool, open: bool, name: bytes, percent: bool, zone: bytes,
                       close: bool, colon: bool, port: bytes)

  function Mark(there: bool, c: byte): bytes { if there then [c] else [] }

  /** The host as it is delivered: without brackets. */
  function HostText(h: Site): bytes { h.name + (Mark(h.percent, 37) + h.zone) }

  function SiteBlocks(h: Site): (bs: seq<bytes>)
    ensures |bs| == 7
  {
    [h.user, Mark(h.ended, 64), Mark(h.open, 91), HostText(h), Mark(h.close, 93), Mark(h.colon, 58), h.port]
  }

  const SITE_TAGS: seq<Option<Field>> := [Some(Userinfo), None, None, Some(Host), None, None, Some(Port)]

  predicate HostMayBegin(h: Site) { h.ended || !h.at }

  /** A host that is complete. */
  predicate HasHost(h: Site) { if h.open then h.close else h.name != [] }

  /** The pieces, perhaps not complete yet. */
  ghost predicate SiteFits(h: Site) {
    && (h.user != [] || h.ended ==> h.at) && (forall c | c in h.user :: IsUserByte(c))
    && (h.open || h.name != [] ==> HostMayBegin(h)) && HostFits(h)
    && (h.colon ==> HasHost(h)) && (h.port != [] ==> h.colon) && (forall c | c in h.port :: IsDecimal(c))
  }

  ghost predicate HostFits(h: Site) {
    && (forall c | c in h.name :: if h.open then IsAddressByte(c) else IsNameByte(c))
    && (h.percent ==> h.open && h.name != []) && (h.zone != [] ==> h.percent)
    && (forall c | c in h.zone :: IsZoneByte(c))
    && (h.close ==> h.open && h.name != [] && (h.percent ==> h.zone != []))
  }

  function SiteState(h: Site): HostState {
    if h.port != [] then InPort
    else if h.colon then PortStart
    else if h.close then V6End
    else if h.zone != [] then Zone
    else if h.percent then ZoneStart
    else if h.name != [] then if h.open then V6 else InHost
    else if h.open then V6Start
    else if HostMayBegin(h) then HostStart
    else if h.user != [] then InUserinfo
    else UserinfoStart
  }

  /** The nine pieces in order; the third to the fifth are one block. */
  function Longer(h: Site, k: nat, c: byte): Site {
    match k
    case 0 => h.(user := h.user + [c])
    case 1 => h.(ended := true)
    case 2 => h.(open := true)
    case 3 => h.(name := h.name + [c])
    case 4 => h.(percent := true)
    case 5 => h.(zone := h.zone + [c])
    case 6 => h.(close := true)
    case 7 => h.(colon := true)
    case _ => h.(port := h.port + [c])
  }

  function BlockAt(k: nat): nat { if k < 4 then k else if k < 6 then 3 else if k < 9 then k - 2 else 6 }

  /** The piece that a byte goes to, by the state it leads to. */
  function PieceOf(s: HostState): nat {
    match s
    case InUserinfo => 0
    case HostStart => 1
    case V6Start => 2
    case InHost | V6 => 3
    case ZoneStart => 4
    case Zone => 5
    case V6End => 6
    case PortStart => 7
    case _ => 8
  }

  /** Nothing stands behind piece 'k', and the byte is one for it if it is a mark. */
  predicate LastPiece(h: Site, k: nat, c: byte) {
    && (k == 1 ==> !h.ended && c == 64) && (k == 2 ==> !h.open && c == 91) && (k == 4 ==> !h.percent && c == 37)
    && (k == 6 ==> !h.close && c == 93) && (k == 7 ==> !h.colon && c == 58)
    && (k < 1 ==> !h.ended) && (k < 2 ==> !h.open) && (k < 3 ==> h.name == []) && (k < 4 ==> !h.percent)
    && (k < 5 ==> h.zone == []) && (k < 6 ==> !h.close) && (k < 7 ==> !h.colon) && (k < 8 ==> h.port == [])
  }

  /** The byte may be added to piece 'k'. */
  predicate PieceTakes(h: Site, k: nat, c: byte) {
    match k
    case 0 => h.at && IsUserByte(c)
    case 1 => h.at
    case 2 => HostMayBegin(h)
    case 3 => HostMayBegin(h) && if h.open then IsAddressByte(c) else IsNameByte(c)
    case 4 => h.open && h.name != []
    case 5 => h.percent && IsZoneByte(c)
    case 6 => h.open && h.name != [] && (h.percent ==> h.zone != [])
    case 7 => HasHost(h)
    case _ => h.colon && IsDecimal(c)
  }

  lemma {:induction false} HostGrows(h: Site, k: nat, c: byte)
    requires 3 <= k < 6 && LastPiece(h, k, c)
    ensures HostText(Longer(h, k, c)) == HostText(h) + [c]
  {
    if k == 3 {
      assert (h.name + [c]) + ([] + []) == h.name + ([] + []) + [c];
    } else if k == 4 {
      assert Mark(true, 37) == [c];
    }
  }

  lemma SameHost(h: Site, k: nat, c: byte)
    requires k < 3 || 6 <= k < 9
    ensures HostText(Longer(h, k, c)) == HostText(h)
  {
    hide HostText;
    LongerKeeps(h, k, c);
    SameHostText(h, Longer(h, k, c));
  }

  lemma SameHostText(h: Site, g: Site)
    requires g.name == h.name && g.percent == h.percent && g.zone == h.zone
    ensures HostText(g) == HostText(h)
  {
  }

  lemma LongerKeeps(h: Site, k: nat, c: byte)
    ensures var g := Longer(h, k, c);
            && g.at == h.at
            && (k < 3 || 6 <= k ==> g.name == h.name && g.percent == h.percent && g.zone == h.zone)
  {
    match k
    case 0 =>
    case 1 =>
    case 2 =>
    case 3 =>
    case 4 =>
    case 5 =>
    case 6 =>
    case 7 =>
    case _ =>
  }

  lemma MarkGrows(c: byte)
    ensures Mark(true, c) == Mark(false, c) + [c]
  {
  }

  lemma {:induction false} LongerBlocks(h: Site, k: nat, c: byte)
    requires k < 9 && LastPiece(h, k, c)
    ensures GrowsAt(SiteBlocks(h), BlockAt(k), c, SiteBlocks(Longer(h, k, c)))
  {
    hide HostText, Mark;
    MarkGrows(c);
    if 3 <= k < 6 {
      HostGrows(h, k, c);
    } else {
      SameHost(h, k, c);
    }
    NoneBehind(h, k, c);
    var b := BlockAt(k);
    assert SiteBlocks(Longer(h, k, c)) == SiteBlocks(h)[b := SiteBlocks(h)[b] + [c]];
  }

  lemma NoneBehind(h: Site, k: nat, c: byte)
    requires k < 9 && LastPiece(h, k, c)
    ensures forall j | BlockAt(k) < j < 7 :: SiteBlocks(h)[j] == []
  {
  }

  lemma {:induction false} NextPiece(h: Site, c: byte)
    requires SiteFits(h) && !HostChar(SiteState(h), c).HostDead?
    ensures var k := PieceOf(HostChar(SiteState(h), c)); k < 9 && LastPiece(h, k, c) && PieceTakes(h, k, c)
  {
    KindsOfBytes(c);
    hide IsUserByte, IsNameByte, IsAddressByte, IsZoneByte, IsDecimal;
  }

  lemma {:induction false} LongerFits(h: Site, k: nat, c: byte)
    requires SiteFits(h) && k < 9 && LastPiece(h, k, c) && PieceTakes(h, k, c)
    ensures SiteFits(Longer(h, k, c))
  {
    hide IsUserByte, IsNameByte, IsAddressByte, IsZoneByte, IsDecimal;
  }

  ghost predicate PieceGrows(h: Site, k: nat, c: byte) {
    var s := SiteState(Longer(h, k, c));
    HostChar(SiteState(h), c) == s && k < 9 && HostField(s) == SITE_TAGS[BlockAt(k)] && PieceOf(s) == k
  }

  lemma {:induction false} LongerState(h: Site, k: nat, c: byte)
    requires SiteFits(h) && k < 9 && LastPiece(h, k, c) && PieceTakes(h, k, c)
    ensures PieceGrows(h, k, c)
  {
    KindsOfBytes(c);
    hide IsUserByte, IsNameByte, IsAddressByte, IsZoneByte, IsDecimal;
  }

  const NO_SITE := Site(false, [], false, false, [], false, [], false, false, [])

  function SiteText(h: Site): bytes { Concat(SiteBlocks(h)) }

  ghost predicate SiteEnds(p: Site, k: nat, c: byte, h: Site) {
    SiteFits(p) && k < 9 && LastPiece(p, k, c) && PieceTakes(p, k, c) && Longer(p, k, c) == h
  }

  /** Pieces that are not all empty are shorter pieces and a byte. */
  lemma {:induction false} LastOfSite(h: Site) returns (p: Site, k: nat, c: byte)
    requires SiteFits(h) && h != NO_SITE.(at := h.at)
    ensures SiteEnds(p, k, c, h)
  {
    hide SiteFits, SiteEnds;
    if h.port != [] || h.colon {
      p, k, c := LastOfPort(h);
    } else if h.close || h.zone != [] || h.percent || h.name != [] {
      p, k, c := LastOfHost(h);
    } else {
      p, k, c := LastOfUser(h);
    }
  }

  lemma {:induction false} LastOfPort(h: Site) returns (p: Site, k: nat, c: byte)
    requires SiteFits(h) && (h.port != [] || h.colon)
    ensures SiteEnds(p, k, c, h)
  {
    hide IsUserByte, IsNameByte, IsAddressByte, IsZoneByte, IsDecimal;
    if h.port != [] {
      p, k, c := h.(port := h.port[..|h.port| - 1]), 8, h.port[|h.port| - 1];
    } else {
      p, k, c := h.(colon := false), 7, 58;
    }
  }

  lemma {:induction false} LastOfHost(h: Site) returns (p: Site, k: nat, c: byte)
    requires SiteFits(h) && h.port == [] && !h.colon && (h.close || h.zone != [] || h.percent || h.name != [])
    ensures SiteEnds(p, k, c, h)
  {
    hide IsUserByte, IsNameByte, IsAddressByte, IsZoneByte, IsDecimal;
    if h.close {
      p, k, c := h.(close := false), 6, 93;
    } else if h.zone != [] {
      p, k, c := h.(zone := h.zone[..|h.zone| - 1]), 5, h.zone[|h.zone| - 1];
    } else if h.percent {
      p, k, c := h.(percent := false), 4, 37;
    } else {
      p, k, c := h.(name := h.name[..|h.name| - 1]), 3, h.name[|h.name| - 1];
    }
  }

  lemma {:induction false} LastOfUser(h: Site) returns (p: Site, k: nat, c: byte)
    requires SiteFits(h) && h.port == [] && !h.colon && !h.close && h.zone == [] && !h.percent && h.name == []
    requires h != NO_SITE.(at := h.at)
    ensures SiteEnds(p, k, c, h)
  {
    hide IsUserByte, IsNameByte, IsAddressByte, IsZoneByte, IsDecimal;
    if h.open {
      p, k, c := h.(open := false), 2, 91;
    } else if h.ended {
      p, k, c := h.(ended := false), 1, 64;
    } else {
      p, k, c := h.(user := h.user[..|h.user| - 1]), 0, h.user[|h.user| - 1];
    }
  }

  // ---------- the machine on whole texts ----------

  /** The blocks of a site behind some other text. */
  function BlocksBehind(pre: bytes, h: Site): (bs: seq<bytes>)
    ensures |bs| == 8
  {
    [pre] + SiteBlocks(h)
  }

  const TAGS_BEHIND: seq<Option<Field>> := [None] + SITE_TAGS

  /** What the second machine makes of a text that is cut into these pieces. */
  ghost predicate SiteReadAs(pre: bytes, text: bytes, h: Site) {
    && text == SiteText(h) && HostRun(HostStartState(h.at), text) == SiteState(h)
    && Segments(Nones(|pre|) + HostLabels(HostStartState(h.at), text)) == FieldsOf(BlocksBehind(pre, h), TAGS_BEHIND)
  }

  lemma {:induction false} HostRunOn(s: HostState, text: bytes, c: byte)
    ensures HostRun(s, text + [c]) == HostChar(HostRun(s, text), c)
    ensures HostLabels(s, text + [c]) == HostLabels(s, text) + [HostField(HostChar(HostRun(s, text), c))]
  {
    hide HostChar, HostField;
    var more := text + [c];
    assert more[..|more| - 1] == text && more[|more| - 1] == c;
  }

  lemma TagsBehindDiffer()
    ensures Distinct(TAGS_BEHIND)
  {
  }

  lemma {:induction false} TextBehind(pre: bytes, h: Site)
    ensures Concat(BlocksBehind(pre, h)) == pre + SiteText(h)
  {
    hide SiteBlocks, Concat;
    ConcatFirst(pre, SiteBlocks(h));
  }

  lemma ConcatFirst(a: bytes, bs: seq<bytes>)
    ensures Concat([a] + bs) == a + Concat(bs)
  {
    assert ([a] + bs)[1..] == bs;
  }

  lemma {:induction false} GrowsBehind(pre: bytes, h: Site, k: nat, c: byte, more: Site)
    requires GrowsAt(SiteBlocks(h), k, c, SiteBlocks(more))
    ensures GrowsAt(BlocksBehind(pre, h), k + 1, c, BlocksBehind(pre, more))
  {
    hide SiteBlocks;
    var bs, bs' := BlocksBehind(pre, h), BlocksBehind(pre, more);
    assert bs' == bs[k + 1 := bs[k + 1] + [c]];
    assert forall j | k + 1 < j < 8 :: bs[j] == SiteBlocks(h)[j - 1];
  }

  lemma {:induction false} SiteReadOn(pre: bytes, text: bytes, p: Site, k: nat, c: byte, h: Site)
    requires SiteReadAs(pre, text, p) && k < 9 && LastPiece(p, k, c) && PieceGrows(p, k, c) && h == Longer(p, k, c)
    ensures SiteReadAs(pre, text + [c], h)
  {
    hide SiteBlocks, BlocksBehind, Segments, FieldsOf, GrowsAt, Distinct, HostChar, SiteState, HostField, HostRun,
      HostLabels, Concat, NextFields, LastPiece, PieceOf, Nones;
    var s := HostStartState(p.at);
    var b := BlockAt(k);
    LongerKeeps(p, k, c);
    HostRunOn(s, text, c);
    LongerBlocks(p, k, c);
    GrownText(SiteBlocks(p), b, c, SiteBlocks(h));
    GrowsBehind(pre, p, b, c, h);
    TagsBehindDiffer();
    TextBehind(pre, p);
    GrownFields(BlocksBehind(pre, p), TAGS_BEHIND, b + 1, c, BlocksBehind(pre, h));
    Regroup(Nones(|pre|), HostLabels(s, text), [SITE_TAGS[b]]);
    SegmentsNext(Nones(|pre|) + HostLabels(s, text), SITE_TAGS[b]);
  }

  lemma {:induction false} NoSiteRead(pre: bytes, at: bool)
    ensures SiteFits(NO_SITE.(at := at)) && SiteReadAs(pre, [], NO_SITE.(at := at))
  {
    var h := NO_SITE.(at := at);
    EmptyBlocks(SiteBlocks(h), SITE_TAGS);
    EmptyBehind([pre], [None], SiteBlocks(h), SITE_TAGS);
    assert Nones(|pre|) + [] == Nones(|pre|);
    NoSegments(|pre|);
    OneBlock(pre);
  }

  lemma OneBlock(pre: bytes)
    ensures FieldsOf([pre], [None]) == map[]
  {
    assert [pre][..0] == [];
  }

  /** Empty blocks at the end change nothing. */
  lemma {:induction false} EmptyBehind(bs: seq<bytes>, tags: seq<Option<Field>>, es: seq<bytes>,
                                       more: seq<Option<Field>>)
    requires |bs| == |tags| && |es| == |more| && forall i | 0 <= i < |es| :: es[i] == []
    ensures FieldsOf(bs + es, tags + more) == FieldsOf(bs, tags)
    decreases |es|
  {
    if es == [] {
      assert bs + es == bs && tags + more == tags;
    } else {
      var n := |es| - 1;
      EmptyBehind(bs, tags, es[..n], more[..n]);
      assert (bs + es)[..|bs| + n] == bs + es[..n] && (tags + more)[..|bs| + n] == tags + more[..n];
    }
  }

  /** Composing: fitting pieces are read as what they are. */
  lemma {:induction false} SiteIsRead(pre: bytes, h: Site)
    requires SiteFits(h)
    ensures SiteReadAs(pre, SiteText(h), h)
    decreases |SiteText(h)|
  {
    hide SiteFits, SiteReadAs, SiteBlocks, LastPiece, PieceTakes, PieceGrows, Concat;
    if h == NO_SITE.(at := h.at) {
      NoSiteRead(pre, h.at);
      SameSite(pre, [], h);
    } else {
      var p, k, c := LastOfSite(h);
      LongerState(p, k, c);
      LongerBlocks(p, k, c);
      GrownText(SiteBlocks(p), BlockAt(k), c, SiteBlocks(h));
      SiteIsRead(pre, p);
      SiteReadOn(pre, SiteText(p), p, k, c, h);
    }
  }

  lemma SameSite(pre: bytes, text: bytes, h: Site)
    requires SiteReadAs(pre, text, h)
    ensures text == SiteText(h) && HostRun(HostStartState(h.at), text) == SiteState(h)
  {
  }

  /** Decomposing: whatever the second machine does not refuse consists of fitting pieces. */
  lemma {:induction false} TextHasSite(pre: bytes, text: bytes, at: bool) returns (h: Site)
    requires !HostRun(HostStartState(at), text).HostDead?
    ensures SiteFits(h) && h.at == at && SiteReadAs(pre, text, h)
    decreases |text|
  {
    hide SiteFits, SiteReadAs, SiteBlocks, LastPiece, PieceTakes, PieceGrows, HostChar, HostField, PieceOf, SiteState;
    if text == [] {
      NoSiteRead(pre, at);
      h := NO_SITE.(at := at);
    } else {
      var most, c := text[..|text| - 1], text[|text| - 1];
      assert most + [c] == text;
      HostRunOn(HostStartState(at), most, c);
      DeadHost(c);
      var p := TextHasSite(pre, most, at);
      SameSite(pre, most, p);
      NextPiece(p, c);
      var k := PieceOf(HostChar(SiteState(p), c));
      LongerFits(p, k, c);
      LongerState(p, k, c);
      LongerKeeps(p, k, c);
      h := Longer(p, k, c);
      SiteReadOn(pre, most, p, k, c, h);
    }
  }

  lemma DeadHost(c: byte)
    ensures HostChar(HostDead, c) == HostDead
  {
  }
}

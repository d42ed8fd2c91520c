/**
 The parts of a URL, as the first machine sees them: a scheme with its mark, the part that names user, host and
 port, a path, a query and a fragment.  The machine reads exactly the texts that consist of fitting parts, byte by
 byte, and gives every byte to the field of its part.  This is proved in both directions by one step each: a byte that
 may be added to fitting parts leads the machine to the state of the longer parts, and a byte that the machine takes
 may be added to them.
 */
module UrlParts {
  import opened Bytes
  import opened Url
  import opened UrlBlocks

  // ---------- the parts of a URL ----------

  /** 'marks' says how many bytes of "://" there are, 'hashes' how many hashes precede the fragment. */
  datatype Parts = Parts(schema: bytes, marks: nat, site: bytes, path: bytes, question: bool, query: bytes,
                         hashes: nat, fragment: bytes)

  const MARKS: bytes := [58, 47, 47]

  function Hashes(n: nat): bytes { seq(n, i requires 0 <= i < n => 35 as byte) }

  function Blocks(p: Parts): (bs: seq<bytes>)
    requires p.marks <= 3
    ensures |bs| == 8
  {
    [p.schema, MARKS[..p.marks], p.site, p.path, if p.question then [63] else [], p.query, Hashes(p.hashes),
     p.fragment]
  }

  const TAGS: seq<Option<Field>> :=
    [Some(Schema), None, Some(Host), Some(Path), None, Some(Query), None, Some(Fragment)]

  /** An authority may follow: behind "://", and at once for CONNECT. */
  predicate Opened(p: Parts, isConnect: bool) { isConnect || p.marks == 3 }

  /** Two @ are never neighbours. */
  predicate AtsApart(t: bytes) { forall i | 0 < i < |t| :: t[i] == 64 ==> t[i - 1] != 64 }

  /** The parts, perhaps not complete yet. */
  ghost predicate Fitting(p: Parts, isConnect: bool) {
    && FrontFits(p, isConnect) && PathFits(p, isConnect)
    && (p.question ==> Opened(p, isConnect) || p.path != [])
    && (p.query != [] ==> p.question) && (forall c | c in p.query :: IsQueryByte(c))
    && (p.hashes > 0 ==> p.path != [] || p.question)
    && (p.fragment != [] ==> p.hashes > 0 && p.fragment[0] != 35) && (forall c | c in p.fragment :: IsFragmentByte(c))
  }

  ghost predicate FrontFits(p: Parts, isConnect: bool) {
    && p.marks <= 3 && (forall c | c in p.schema :: IsLetter(c))
    && (p.schema != [] ==> !isConnect) && (p.marks > 0 ==> p.schema != [])
    && (p.site != [] ==> Opened(p, isConnect)) && (forall c | c in p.site :: IsSiteByte(c)) && AtsApart(p.site)
  }

  /** A path begins with a slash; without a scheme it may begin with an asterisk. */
  ghost predicate PathFits(p: Parts, isConnect: bool) {
    && (p.path != [] ==> p.path[0] == 47 || (p.path[0] == 42 && !Opened(p, isConnect)))
    && (p.path != [] && p.schema != [] ==> p.marks == 3) && (forall c | c in p.path :: IsPathByte(c))
  }

  function StateOf(p: Parts, isConnect: bool): UrlState {
    if p.fragment != [] then InFragment
    else if p.hashes > 0 then FragmentStart
    else if p.query != [] then InQuery
    else if p.question then QueryStart
    else if p.path != [] then InPath
    else if p.site != [] then if p.site[|p.site| - 1] == 64 then ServerWithAt else Server
    else if isConnect then ServerStart
    else if p.schema == [] then BeforeUrl
    else if p.marks == 0 then InSchema
    else if p.marks == 1 then SchemaSlash
    else if p.marks == 2 then SchemaSlashSlash
    else ServerStart
  }

  /** One byte leads from some parts to others, in block 'k', as it does in the machine. */
  ghost predicate Leads(p: Parts, k: nat, c: byte, q: Parts, isConnect: bool) {
    && p.marks <= 3 && q.marks <= 3 && k < 8 && GrowsAt(Blocks(p), k, c, Blocks(q))
    && UrlChar(StateOf(p, isConnect), c) == StateOf(q, isConnect)
    && UrlField(StateOf(q, isConnect)) == TAGS[k]
    && (64 in q.site <==> 64 in p.site || StateOf(q, isConnect).ServerWithAt?)
  }

  /** The parts with the byte added to block 'k'. */
  function Grown(p: Parts, k: nat, c: byte): Parts {
    match k
    case 0 => p.(schema := p.schema + [c])
    case 1 => p.(marks := p.marks + 1)
    case 2 => p.(site := p.site + [c])
    case 3 => p.(path := p.path + [c])
    case 4 => p.(question := true)
    case 5 => p.(query := p.query + [c])
    case 6 => p.(hashes := p.hashes + 1)
    case _ => p.(fragment := p.fragment + [c])
  }

  /** The block that a byte goes to, by the state it leads to. */
  function BlockOf(s: UrlState): nat {
    match s
    case InSchema => 0
    case SchemaSlash | SchemaSlashSlash | ServerStart => 1
    case Server | ServerWithAt => 2
    case InPath => 3
    case QueryStart => 4
    case InQuery => 5
    case FragmentStart => 6
    case _ => 7
  }

  /** Nothing stands behind block 'k', and the byte is one for it if it holds only marks. */
  predicate Last(p: Parts, k: nat, c: byte) {
    && (k == 1 ==> p.marks < 3 && c == MARKS[p.marks]) && (k == 4 ==> !p.question && c == 63) && (k == 6 ==> c == 35)
    && (k < 1 ==> p.marks == 0) && (k < 2 ==> p.site == []) && (k < 3 ==> p.path == []) && (k < 4 ==> !p.question)
    && (k < 5 ==> p.query == []) && (k < 6 ==> p.hashes == 0) && (k < 7 ==> p.fragment == [])
  }

  lemma {:induction false} GrownBlocks(p: Parts, k: nat, c: byte)
    requires p.marks <= 3 && k < 8 && Last(p, k, c)
    ensures GrowsAt(Blocks(p), k, c, Blocks(Grown(p, k, c)))
  {
    if k == 1 {
      assert MARKS[..p.marks] + [c] == MARKS[..p.marks + 1];
    } else if k == 4 {
      assert [] + [c] == [63];
    } else if k == 6 {
      assert Hashes(p.hashes) + [c] == Hashes(p.hashes + 1);
    }
    LaterAreEmpty(p, k, c);
    assert Blocks(Grown(p, k, c)) == Blocks(p)[k := Blocks(p)[k] + [c]];
  }

  lemma LaterAreEmpty(p: Parts, k: nat, c: byte)
    requires p.marks <= 3 && k < 8 && Last(p, k, c)
    ensures forall j | k < j < 8 :: Blocks(p)[j] == []
  {
  }

  lemma {:induction false} NextIsLast(p: Parts, c: byte, isConnect: bool)
    requires Fitting(p, isConnect) && !UrlChar(StateOf(p, isConnect), c).Dead?
    ensures p.marks <= 3 && Last(p, BlockOf(UrlChar(StateOf(p, isConnect), c)), c)
  {
    hide IsUserinfoChar, IsUrlChar, IsFragmentByte, IsQueryByte, IsPathByte, IsSiteByte, AtsApart;
  }

  /** The byte may be added to block 'k'. */
  predicate Takes(p: Parts, k: nat, c: byte, isConnect: bool) {
    match k
    case 0 => IsLetter(c) && !isConnect
    case 1 => p.schema != [] && !isConnect
    case 2 => IsSiteByte(c) && Opened(p, isConnect) && (p.site != [] && p.site[|p.site| - 1] == 64 ==> c != 64)
    case 3 =>
      && IsPathByte(c) && (p.path == [] ==> c == 47 || (c == 42 && !Opened(p, isConnect)))
      && (p.schema != [] ==> p.marks == 3)
    case 4 => Opened(p, isConnect) || p.path != []
    case 5 => p.question && IsQueryByte(c)
    case 6 => p.path != [] || p.question
    case _ => p.hashes > 0 && IsFragmentByte(c) && (p.fragment == [] ==> c != 35)
  }

  lemma {:induction false} NextTakes(p: Parts, c: byte, isConnect: bool)
    requires Fitting(p, isConnect) && !UrlChar(StateOf(p, isConnect), c).Dead?
    ensures Takes(p, BlockOf(UrlChar(StateOf(p, isConnect), c)), c, isConnect)
  {
    hide IsUserinfoChar, IsQueryByte, IsFragmentByte, IsSiteByte, AtsApart;
    KindsOfBytes(c);
  }

  lemma {:induction false} GrownFits(p: Parts, k: nat, c: byte, isConnect: bool)
    requires Fitting(p, isConnect) && k < 8 && Last(p, k, c) && Takes(p, k, c, isConnect)
    ensures Fitting(Grown(p, k, c), isConnect)
  {
    hide IsPathByte, IsQueryByte, IsFragmentByte, IsSiteByte, IsLetter;
    if k < 3 {
      GrownFront(p, k, c, isConnect);
    } else {
      hide AtsApart;
    }
  }

  lemma {:induction false} GrownFront(p: Parts, k: nat, c: byte, isConnect: bool)
    requires Fitting(p, isConnect) && k < 3 && Last(p, k, c) && Takes(p, k, c, isConnect)
    ensures Fitting(Grown(p, k, c), isConnect)
  {
    hide IsPathByte, IsQueryByte, IsFragmentByte, IsSiteByte, IsLetter;
  }

  ghost predicate StateGrows(p: Parts, k: nat, c: byte, isConnect: bool) {
    var s := StateOf(Grown(p, k, c), isConnect);
    UrlChar(StateOf(p, isConnect), c) == s && k < 8 && UrlField(s) == TAGS[k] && BlockOf(s) == k
  }

  lemma {:induction false} GrownState(p: Parts, k: nat, c: byte, isConnect: bool)
    requires Fitting(p, isConnect) && k < 8 && Last(p, k, c) && Takes(p, k, c, isConnect)
    ensures StateGrows(p, k, c, isConnect)
  {
    hide StateGrows, Last, Takes, Fitting;
    if k < 2 {
      SchemeGrows(p, k, c, isConnect);
    } else if k == 2 {
      SiteGrows(p, c, isConnect);
    } else if k < 5 {
      PathGrows(p, k, c, isConnect);
    } else {
      EndGrows(p, k, c, isConnect);
    }
  }

  lemma {:induction false} SchemeGrows(p: Parts, k: nat, c: byte, isConnect: bool)
    requires Fitting(p, isConnect) && k < 2 && Last(p, k, c) && Takes(p, k, c, isConnect)
    ensures StateGrows(p, k, c, isConnect)
  {
    hide IsUserinfoChar, IsUrlChar, IsFragmentByte, IsQueryByte, IsPathByte, IsSiteByte, AtsApart, PathFits;
  }

  lemma {:induction false} SiteGrows(p: Parts, c: byte, isConnect: bool)
    requires Fitting(p, isConnect) && Last(p, 2, c) && Takes(p, 2, c, isConnect)
    ensures StateGrows(p, 2, c, isConnect)
  {
    hide IsUrlChar, IsFragmentByte, IsQueryByte, IsPathByte, IsSiteByte, AtsApart, PathFits;
    KindsOfBytes(c);
  }

  lemma {:induction false} PathGrows(p: Parts, k: nat, c: byte, isConnect: bool)
    requires Fitting(p, isConnect) && 3 <= k < 5 && Last(p, k, c) && Takes(p, k, c, isConnect)
    ensures StateGrows(p, k, c, isConnect)
  {
    hide IsUserinfoChar, IsFragmentByte, IsQueryByte, IsPathByte, IsSiteByte, AtsApart;
    KindsOfBytes(c);
  }

  lemma {:induction false} EndGrows(p: Parts, k: nat, c: byte, isConnect: bool)
    requires Fitting(p, isConnect) && 5 <= k < 8 && Last(p, k, c) && Takes(p, k, c, isConnect)
    ensures StateGrows(p, k, c, isConnect)
  {
    hide IsUserinfoChar, IsFragmentByte, IsQueryByte, IsPathByte, IsSiteByte, FrontFits, PathFits;
    KindsOfBytes(c);
  }

  lemma {:induction false} GrownAt(p: Parts, k: nat, c: byte, isConnect: bool)
    requires k < 8 && Last(p, k, c)
    ensures var q := Grown(p, k, c); 64 in q.site <==> 64 in p.site || StateOf(q, isConnect).ServerWithAt?
  {
  }

  lemma StillMarked(p: Parts, k: nat, c: byte, isConnect: bool)
    requires Fitting(p, isConnect) && k < 8 && Last(p, k, c)
    ensures p.marks <= 3 && Grown(p, k, c).marks <= 3
  {
  }

  /** A byte that fits is one that the machine takes, and it leads to the state of the longer parts. */
  lemma {:induction false} FittingLeads(p: Parts, k: nat, c: byte, isConnect: bool)
    requires Fitting(p, isConnect) && k < 8 && Last(p, k, c) && Takes(p, k, c, isConnect)
    ensures Fitting(Grown(p, k, c), isConnect) && Leads(p, k, c, Grown(p, k, c), isConnect)
  {
    hide Takes, Last, GrowsAt, StateOf, Fitting, UrlChar, UrlField, BlockOf;
    StillMarked(p, k, c, isConnect);
    GrownBlocks(p, k, c);
    GrownFits(p, k, c, isConnect);
    GrownState(p, k, c, isConnect);
    GrownAt(p, k, c, isConnect);
  }

  /** Every byte that the machine takes makes fitting parts longer. */
  lemma {:induction false} OneMoreByte(p: Parts, c: byte, isConnect: bool)
    requires Fitting(p, isConnect) && !UrlChar(StateOf(p, isConnect), c).Dead?
    ensures var k := BlockOf(UrlChar(StateOf(p, isConnect), c));
            var q := Grown(p, k, c);
            Fitting(q, isConnect) && Leads(p, k, c, q, isConnect)
  {
    hide Leads, Fitting, Last, Takes, UrlChar, StateOf;
    NextIsLast(p, c, isConnect);
    NextTakes(p, c, isConnect);
    FittingLeads(p, BlockOf(UrlChar(StateOf(p, isConnect), c)), c, isConnect);
  }

  function UrlText(p: Parts): bytes
    requires p.marks <= 3
  {
    Concat(Blocks(p))
  }

  const NO_PARTS := Parts([], 0, [], [], false, [], 0, [])

  /** The last part that is there is the shorter one and a byte. */
  ghost predicate EndsWith(p: Parts, k: nat, c: byte, q: Parts, isConnect: bool) {
    Fitting(p, isConnect) && k < 8 && Last(p, k, c) && Takes(p, k, c, isConnect) && Grown(p, k, c) == q
  }

  /** Parts that are not all empty are shorter parts and a byte. */
  lemma {:induction false} LastByte(q: Parts, isConnect: bool) returns (p: Parts, k: nat, c: byte)
    requires Fitting(q, isConnect) && q != NO_PARTS
    ensures EndsWith(p, k, c, q, isConnect)
  {
    hide Fitting, EndsWith;
    if q.fragment != [] || q.hashes > 0 || q.query != [] || q.question {
      p, k, c := LastOfEnd(q, isConnect);
    } else if q.path != [] {
      p, k, c := q.(path := q.path[..|q.path| - 1]), 3, q.path[|q.path| - 1];
      LastOfPath(q, isConnect);
    } else {
      p, k, c := LastOfFront(q, isConnect);
    }
  }

  lemma {:induction false} LastOfEnd(q: Parts, isConnect: bool) returns (p: Parts, k: nat, c: byte)
    requires Fitting(q, isConnect) && (q.fragment != [] || q.hashes > 0 || q.query != [] || q.question)
    ensures EndsWith(p, k, c, q, isConnect)
  {
    hide FrontFits, PathFits, IsPathByte, IsQueryByte, IsFragmentByte, IsSiteByte, IsLetter;
    if q.fragment != [] {
      p, k, c := q.(fragment := q.fragment[..|q.fragment| - 1]), 7, q.fragment[|q.fragment| - 1];
    } else if q.hashes > 0 {
      p, k, c := q.(hashes := q.hashes - 1), 6, 35;
    } else if q.query != [] {
      p, k, c := q.(query := q.query[..|q.query| - 1]), 5, q.query[|q.query| - 1];
    } else {
      p, k, c := q.(question := false), 4, 63;
    }
    SameFront(p, q, isConnect);
  }

  lemma SameFront(p: Parts, q: Parts, isConnect: bool)
    requires p.schema == q.schema && p.marks == q.marks && p.site == q.site && p.path == q.path
    ensures FrontFits(p, isConnect) == FrontFits(q, isConnect) && PathFits(p, isConnect) == PathFits(q, isConnect)
  {
  }

  lemma {:induction false} LastOfPath(q: Parts, isConnect: bool)
    requires Fitting(q, isConnect) && q.fragment == [] && q.hashes == 0 && q.query == [] && !q.question && q.path != []
    ensures EndsWith(q.(path := q.path[..|q.path| - 1]), 3, q.path[|q.path| - 1], q, isConnect)
  {
    hide IsPathByte, IsQueryByte, IsFragmentByte, IsSiteByte, IsLetter, AtsApart;
    assert q.path[..|q.path| - 1] + [q.path[|q.path| - 1]] == q.path;
  }

  lemma {:induction false} LastOfFront(q: Parts, isConnect: bool) returns (p: Parts, k: nat, c: byte)
    requires Fitting(q, isConnect) && q.fragment == [] && q.hashes == 0 && q.query == [] && !q.question && q.path == []
    requires q != NO_PARTS
    ensures EndsWith(p, k, c, q, isConnect)
  {
    hide IsPathByte, IsQueryByte, IsFragmentByte, IsSiteByte, IsLetter;
    if q.site != [] {
      p, k, c := q.(site := q.site[..|q.site| - 1]), 2, q.site[|q.site| - 1];
    } else if q.marks > 0 {
      p, k, c := q.(marks := q.marks - 1), 1, MARKS[q.marks - 1];
    } else {
      p, k, c := q.(schema := q.schema[..|q.schema| - 1]), 0, q.schema[|q.schema| - 1];
    }
  }

  /** What the first machine makes of a text that is cut into these parts. */
  ghost predicate ReadAs(buf: bytes, p: Parts, isConnect: bool)
    requires p.marks <= 3
  {
    && buf == UrlText(p) && UrlRun(Start(isConnect), buf) == StateOf(p, isConnect)
    && Segments(UrlLabels(Start(isConnect), buf)) == FieldsOf(Blocks(p), TAGS)
    && FoundAt(Start(isConnect), buf) == (64 in p.site)
  }

  lemma {:induction false} NothingRead(isConnect: bool)
    ensures Fitting(NO_PARTS, isConnect) && ReadAs([], NO_PARTS, isConnect)
  {
    assert Hashes(0) == [] && MARKS[..0] == [];
    EmptyBlocks(Blocks(NO_PARTS), TAGS);
  }

  lemma TagsDiffer()
    ensures Distinct(TAGS)
  {
  }

  /** The machine on one more byte. */
  lemma {:induction false} RunOn(s: UrlState, buf: bytes, c: byte)
    ensures UrlRun(s, buf + [c]) == UrlChar(UrlRun(s, buf), c)
    ensures UrlLabels(s, buf + [c]) == UrlLabels(s, buf) + [UrlField(UrlChar(UrlRun(s, buf), c))]
    ensures FoundAt(s, buf + [c]) == (FoundAt(s, buf) || UrlChar(UrlRun(s, buf), c).ServerWithAt?)
  {
    hide UrlChar, UrlField;
    var more := buf + [c];
    assert more[..|more| - 1] == buf && more[|more| - 1] == c;
  }

  lemma {:induction false} ReadOn(buf: bytes, p: Parts, k: nat, c: byte, q: Parts, isConnect: bool)
    requires p.marks <= 3 && ReadAs(buf, p, isConnect) && Leads(p, k, c, q, isConnect)
    ensures ReadAs(buf + [c], q, isConnect)
  {
    hide Blocks, Segments, FieldsOf, GrowsAt, Distinct, UrlChar, StateOf, UrlField, UrlRun, UrlLabels, FoundAt, Concat,
      NextFields;
    RunOn(Start(isConnect), buf, c);
    TagsDiffer();
    GrownText(Blocks(p), k, c, Blocks(q));
    GrownFields(Blocks(p), TAGS, k, c, Blocks(q));
    SegmentsNext(UrlLabels(Start(isConnect), buf), TAGS[k]);
  }

  /** Composing: fitting parts are read as what they are. */
  lemma {:induction false} PartsAreRead(q: Parts, isConnect: bool)
    requires Fitting(q, isConnect)
    ensures ReadAs(UrlText(q), q, isConnect)
    decreases |UrlText(q)|
  {
    hide Fitting, ReadAs, Leads, Last, Takes, Grown, Blocks;
    if q == NO_PARTS {
      NothingRead(isConnect);
      SameText([], q, isConnect);
    } else {
      var p, k, c := LastByte(q, isConnect);
      FittingLeads(p, k, c, isConnect);
      OneLonger(p, k, c, q, isConnect);
      PartsAreRead(p, isConnect);
      ReadOn(UrlText(p), p, k, c, q, isConnect);
    }
  }

  lemma SameText(buf: bytes, p: Parts, isConnect: bool)
    requires p.marks <= 3 && ReadAs(buf, p, isConnect)
    ensures buf == UrlText(p)
  {
  }

  lemma {:induction false} OneLonger(p: Parts, k: nat, c: byte, q: Parts, isConnect: bool)
    requires Leads(p, k, c, q, isConnect)
    ensures p.marks <= 3 && q.marks <= 3 && UrlText(q) == UrlText(p) + [c]
  {
    hide Blocks, GrowsAt;
    GrownText(Blocks(p), k, c, Blocks(q));
  }

  /** Decomposing: whatever the first machine does not refuse consists of fitting parts. */
  lemma {:induction false} TextHasParts(buf: bytes, isConnect: bool) returns (q: Parts)
    requires !UrlRun(Start(isConnect), buf).Dead?
    ensures Fitting(q, isConnect) && ReadAs(buf, q, isConnect)
    decreases |buf|
  {
    hide Fitting, ReadAs, Leads, UrlChar, UrlField;
    if buf == [] {
      NothingRead(isConnect);
      q := NO_PARTS;
    } else {
      var most, c := buf[..|buf| - 1], buf[|buf| - 1];
      DeadRemains(c);
      var p := TextHasParts(most, isConnect);
      StateReached(most, p, isConnect);
      OneMoreByte(p, c, isConnect);
      q := Grown(p, BlockOf(UrlChar(StateOf(p, isConnect), c)), c);
      ReadOn(most, p, BlockOf(UrlChar(StateOf(p, isConnect), c)), c, q, isConnect);
      assert most + [c] == buf;
    }
  }

  lemma DeadRemains(c: byte)
    ensures UrlChar(Dead, c) == Dead
  {
  }

  lemma StateReached(buf: bytes, p: Parts, isConnect: bool)
    requires Fitting(p, isConnect) && ReadAs(buf, p, isConnect)
    ensures p.marks <= 3 && UrlRun(Start(isConnect), buf) == StateOf(p, isConnect)
  {
  }
}

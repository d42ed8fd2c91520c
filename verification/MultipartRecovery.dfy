/** When the multipart parser finds the delimiter, and what it then recovers. */
module MultipartRecovery {
  import opened Bytes
  import opened Multipart

  // On a mismatch the parser gives up all bytes held back and looks only at the mismatching byte again,
  // instead of falling back to a shorter match.  This is right for every part exactly when the delimiter
  // never needs the fallback; a boundary without CR never does.  Bodies encoded with such a boundary are
  // then taken apart exactly.

  // ---------- runs that consume everything ----------

  /** From 's' the whole of 'input' is accepted, leading to 's2' with these events, and every header
      name that is begun ends with its colon or at the end of the input. */
  ghost predicate Goes(boundary: bytes, s: State, input: bytes, s2: State, events: seq<Event>) {
    && Valid(boundary, s)
    && Run(boundary, s, input) == Result(s2, events, |input|)
    && NamesComplete(boundary, s, input)
  }

  lemma {:induction false} GoesNowhere(boundary: bytes, s: State)
    requires Valid(boundary, s)
    ensures Goes(boundary, s, [], s, [])
  {
  }

  lemma {:induction false} GoesByte(boundary: bytes, s: State, c: byte)
    requires Valid(boundary, s) && StepByte(boundary, s, c).Taken?
    requires s.mode == HeaderField ==> c == 58 || IsNameChar(c)
    ensures Goes(boundary, s, [c], StepByte(boundary, s, c).state, StepByte(boundary, s, c).events)
  {
    var step := StepByte(boundary, s, c);
    assert [c][1..] == [];
    assert step.events + [] == step.events;
  }

  lemma {:induction false} GoesOn(boundary: bytes, s: State, a: bytes, s1: State, e1: seq<Event>,
                                  b: bytes, s2: State, e2: seq<Event>)
    requires Goes(boundary, s, a, s1, e1) && Goes(boundary, s1, b, s2, e2)
    ensures Goes(boundary, s, a + b, s2, e1 + e2)
    decreases |a|
  {
    hide StepByte;
    if a == [] {
      assert a + b == b && e1 + e2 == e2;
    } else {
      assert (a + b)[0] == a[0] && (a + b)[1..] == a[1..] + b;
      var step := StepByte(boundary, s, a[0]);
      var r := Run(boundary, step.state, a[1..]);
      GoesOn(boundary, step.state, a[1..], s1, r.events, b, s2, e2);
      assert step.events + (r.events + e2) == (step.events + r.events) + e2;
    }
  }

  /** Two bytes, of which the first makes no callback. */
  lemma {:induction false} GoesTwo(boundary: bytes, s: State, c: byte, s1: State, c': byte, s2: State,
                                   events: seq<Event>)
    requires Valid(boundary, s) && s.mode != HeaderField && s1.mode != HeaderField
    requires StepByte(boundary, s, c) == Taken(s1, [])
    requires StepByte(boundary, s1, c') == Taken(s2, events)
    ensures Goes(boundary, s, [c, c'], s2, events)
  {
    GoesByte(boundary, s, c);
    GoesByte(boundary, s1, c');
    hide Goes, StepByte;
    GoesOn(boundary, s, [c], s1, [], [c'], s2, events);
    assert [c] + [c'] == [c, c'] && [] + events == events;
  }

  // ---------- the delimiter search ----------

  ghost predicate OccursAt(t: bytes, d: bytes, p: nat) {
    p + |d| <= |t| && t[p..p + |d|] == d
  }

  /** 'd' occurs in 't' at 'p', and nowhere before. */
  ghost predicate FirstAt(t: bytes, d: bytes, p: nat) {
    OccursAt(t, d, p) && forall q | 0 <= q < p :: !OccursAt(t, d, q)
  }

  /** Giving up a partial match loses nothing: whatever shorter match ends at the same place fails on
      the same byte. */
  predicate Restartable(d: bytes) {
    forall k, m | 1 <= m < k < |d| :: FallbackFails(d, k, m)
  }

  /** If the last 'm' of 'k' matched bytes are a match too, then it expects the byte that 'k' expected. */
  predicate FallbackFails(d: bytes, k: nat, m: nat)
    requires 1 <= m < k < |d|
  {
    d[k - m..k] == d[..m] ==> d[m] == d[k]
  }

  lemma OccurrenceByte(t: bytes, d: bytes, p: nat, j: nat)
    requires OccursAt(t, d, p) && j < |d|
    ensures t[p + j] == d[j]
  {
    assert t[p..p + |d|][j] == t[p + j];
  }

  /** An occurrence that begins among the first 'k' bytes, which agree with 'd', repeats the start of 'd'. */
  lemma OccurrenceOverlap(t: bytes, d: bytes, k: nat, p: nat)
    requires OccursAt(t, d, p) && 0 < p < k < |d| && k <= |t| && t[..k] == d[..k]
    ensures d[p..k] == d[..k - p]
  {
    forall i | 0 <= i < k - p
      ensures d[p + i] == d[i]
    {
      OccurrenceByte(t, d, p, i);
      assert t[..k][p + i] == d[..k][p + i];
    }
  }

  lemma NoFurtherCr(boundary: bytes, j: nat)
    requires CR !in boundary && 1 <= j < |Delimiter(boundary)|
    ensures Delimiter(boundary)[j] != CR
  {
    assert j >= 2 ==> Delimiter(boundary)[j] == boundary[j - 2];
  }

  lemma NoBorder(boundary: bytes, k: nat, m: nat)
    requires CR !in boundary && 1 <= m < k < |Delimiter(boundary)|
    ensures Delimiter(boundary)[k - m..k] != Delimiter(boundary)[..m]
  {
    var d := Delimiter(boundary);
    NoFurtherCr(boundary, k - m);
    assert d[k - m..k][0] != d[..m][0];
  }

  /** A delimiter with CR only in front is restartable. */
  lemma OneCrIsRestartable(boundary: bytes)
    requires CR !in boundary
    ensures Restartable(Delimiter(boundary))
  {
    var d := Delimiter(boundary);
    forall k, m | 1 <= m < k < |d|
      ensures FallbackFails(d, k, m)
    {
      NoBorder(boundary, k, m);
    }
  }

  /** One byte while 'k' bytes of the delimiter are held back. */
  lemma HeldStep(boundary: bytes, s: State, k: nat, c: byte)
    requires |boundary| > 0 && s.name == [] && k < |Delimiter(boundary)|
    ensures Valid(boundary, Held(s, k))
    ensures var d := Delimiter(boundary);
            StepByte(boundary, Held(s, k), c) ==
              if c != d[k] then GiveUp(d[..k], Held(s, k), c)
              else if k + 1 == |d| then Taken(State(PartDataAlmostEnd, |boundary|, []), [PartEnd])
              else Taken(Held(s, k + 1), [])
  {
    var d := Delimiter(boundary);
    assert d[..1] == [CR];
    assert k >= 2 ==> d[..k] == CRLF + boundary[..k - 2];
    if k == 0 {
      assert DataBytes(d[..0]) + StepData(Held(s, 0), c).events == StepData(Held(s, 0), c).events;
    }
  }

  /** No occurrence begins among held bytes whose match has just failed. */
  lemma NoneWithin(d: bytes, t: bytes, k: nat, p: nat)
    requires Restartable(d) && OccursAt(t, d, p)
    requires k < |d| && k < |t| && t[..k] == d[..k] && t[k] != d[k]
    ensures p >= k
  {
    if p < k {
      OccurrenceByte(t, d, p, k - p);
      if p > 0 {
        OccurrenceOverlap(t, d, k, p);
        Fallback(d, k, k - p, 1);
      }
    }
  }

  lemma SuffixFirst(t: bytes, d: bytes, p: nat, k: nat)
    requires FirstAt(t, d, p) && k <= p
    ensures FirstAt(t[k..], d, p - k)
  {
    assert t[k..][p - k..p - k + |d|] == t[p..p + |d|];
    forall q | 0 <= q < p - k
      ensures !OccursAt(t[k..], d, q)
    {
      if OccursAt(t[k..], d, q) {
        assert t[k..][q..q + |d|] == t[q + k..q + k + |d|];
        assert OccursAt(t, d, q + k);
      }
    }
  }

  /** The delimiter is where it was, seen from a later start. */
  ghost predicate Ahead(boundary: bytes, k: nat, t: bytes, p: nat) {
    var d := Delimiter(boundary);
    FirstAt(t, d, p) && |t| == p + |d| && k < |d| && k <= |t| && t[..k] == d[..k]
  }

  lemma AheadMatched(boundary: bytes, k: nat, t: bytes, p: nat)
    requires Ahead(boundary, k, t, p) && t[k] == Delimiter(boundary)[k]
    ensures k + 1 < |Delimiter(boundary)| ==> Ahead(boundary, k + 1, t, p)
    ensures k + 1 == |Delimiter(boundary)| ==> p == 0 && t[k..] == [t[k]]
  {
    var d := Delimiter(boundary);
    assert t[..k + 1] == t[..k] + [t[k]] == d[..k] + [d[k]] == d[..k + 1];
    if k + 1 == |d| {
      assert OccursAt(t, d, 0);
    }
  }

  lemma AheadMismatched(boundary: bytes, k: nat, t: bytes, p: nat)
    requires Ahead(boundary, k, t, p) && Restartable(Delimiter(boundary)) && t[k] != Delimiter(boundary)[k]
    ensures p >= k
    ensures t[k] == CR ==> Ahead(boundary, 1, t[k..], p - k)
    ensures t[k] != CR ==> p > k && Ahead(boundary, 0, t[k + 1..], p - k - 1)
  {
    var d := Delimiter(boundary);
    NoneWithin(d, t, k, p);
    if t[k] == CR {
      SuffixFirst(t, d, p, k);
      assert t[k..][..1] == [CR] == d[..1];
    } else {
      assert p != k by { assert t[k..k + |d|][0] == t[k]; }
      SuffixFirst(t, d, p, k + 1);
    }
  }

  /** A mismatch on CR: the held bytes are data, and the CR may begin a delimiter. */
  lemma {:induction false} GiveUpAtCr(boundary: bytes, s: State, k: nat, t: bytes, p: nat)
    requires |boundary| > 0 && s.name == []
    requires var d := Delimiter(boundary);
             k < |d| && k <= p <= |t| && k < |t| && t[..k] == d[..k] && t[k] == CR && t[k] != d[k]
    requires Goes(boundary, Held(Held(s, k), 1), t[k..][1..], State(PartDataAlmostEnd, |boundary|, []),
                  DataBytes(t[k..][..p - k]) + [PartEnd])
    ensures Goes(boundary, Held(s, k), t[k..], State(PartDataAlmostEnd, |boundary|, []), DataBytes(t[..p]) + [PartEnd])
  {
    hide Goes, StepByte, Delimiter, DataBytes;
    var d, h := Delimiter(boundary), Held(s, k);
    HeldStep(boundary, s, k, CR);
    GoesByte(boundary, h, CR);
    GoesOn(boundary, h, [CR], Held(h, 1), DataBytes(d[..k]) + [], t[k..][1..],
           State(PartDataAlmostEnd, |boundary|, []), DataBytes(t[k..][..p - k]) + [PartEnd]);
    assert [CR] + t[k..][1..] == t[k..];
    DataAround(d, t, k, 0, p);
    JoinData(d[..k], [], t[k..][..p - k], t[..p]);
  }

  /** A mismatch on another byte: that byte is data as well. */
  lemma {:induction false} GiveUpElsewhere(boundary: bytes, s: State, k: nat, t: bytes, p: nat)
    requires |boundary| > 0 && s.name == []
    requires var d := Delimiter(boundary);
             k < |d| && k < p <= |t| && t[..k] == d[..k] && t[k] != CR && t[k] != d[k]
    requires Goes(boundary, Held(Held(s, k), 0), t[k + 1..][0..], State(PartDataAlmostEnd, |boundary|, []),
                  DataBytes(t[k + 1..][..p - k - 1]) + [PartEnd])
    ensures Goes(boundary, Held(s, k), t[k..], State(PartDataAlmostEnd, |boundary|, []), DataBytes(t[..p]) + [PartEnd])
  {
    hide Goes, StepByte, Delimiter;
    var d, h, c := Delimiter(boundary), Held(s, k), t[k];
    HeldStep(boundary, s, k, c);
    GoesByte(boundary, h, c);
    GoesOn(boundary, h, [c], Held(h, 0), DataBytes(d[..k]) + [DataByte(c)], t[k + 1..][0..],
           State(PartDataAlmostEnd, |boundary|, []), DataBytes(t[k + 1..][..p - k - 1]) + [PartEnd]);
    assert [c] + t[k + 1..][0..] == t[k..];
    assert DataBytes([c]) == [DataByte(c)];
    DataAround(d, t, k, 1, p);
    JoinData(d[..k], [c], t[k + 1..][..p - k - 1], t[..p]);
  }

  /** What was held back, 'n' bytes read since, and the data behind them. */
  lemma DataAround(d: bytes, t: bytes, k: nat, n: nat, p: nat)
    requires k <= |d| && k + n <= p <= |t| && t[..k] == d[..k]
    ensures t[..p] == d[..k] + t[k..k + n] + t[k + n..][..p - k - n]
    ensures n == 0 ==> t[k..k + n] == []
    ensures n == 1 ==> t[k..k + n] == [t[k]]
  {
    assert t[..p] == t[..k] + t[k..k + n] + t[k + n..p];
    assert t[k + n..][..p - k - n] == t[k + n..p];
  }

  lemma JoinData(a: bytes, b: bytes, c: bytes, all: bytes)
    requires all == a + b + c
    ensures DataBytes(a) + DataBytes(b) + (DataBytes(c) + [PartEnd]) == DataBytes(all) + [PartEnd]
    ensures DataBytes([]) == []
  {
  }

  lemma Fallback(d: bytes, k: nat, j: nat, least: nat)
    requires 1 <= least <= j < k < |d|
    requires forall m | least <= m < k :: FallbackFails(d, k, m)
    ensures d[k - j..k] == d[..j] ==> d[j] == d[k]
  {
    assert FallbackFails(d, k, j);
  }

  /** A byte of the delimiter: nothing is reported until the delimiter is complete. */
  lemma {:induction false} MatchOne(boundary: bytes, s: State, k: nat, t: bytes, events: seq<Event>)
    requires |boundary| > 0 && s.name == []
    requires k + 1 < |Delimiter(boundary)| && k < |t| && t[k] == Delimiter(boundary)[k]
    requires Goes(boundary, Held(s, k + 1), t[k + 1..], State(PartDataAlmostEnd, |boundary|, []), events)
    ensures Goes(boundary, Held(s, k), t[k..], State(PartDataAlmostEnd, |boundary|, []), events)
  {
    hide StepByte, Goes;
    HeldStep(boundary, s, k, t[k]);
    GoesByte(boundary, Held(s, k), t[k]);
    GoesOn(boundary, Held(s, k), [t[k]], Held(s, k + 1), [], t[k + 1..], State(PartDataAlmostEnd, |boundary|, []),
           events);
    assert [t[k]] + t[k + 1..] == t[k..] && [] + events == events;
  }

  /** Where the text is searched with 'k' bytes held back, the first occurrence of the delimiter ends
      the part: everything before it is data, and nothing else is. */
  lemma {:induction false} Search(boundary: bytes, s: State, k: nat, t: bytes, p: nat)
    requires |boundary| > 0 && s.name == []
    requires Restartable(Delimiter(boundary)) && Ahead(boundary, k, t, p)
    ensures Goes(boundary, Held(s, k), t[k..], State(PartDataAlmostEnd, |boundary|, []), DataBytes(t[..p]) + [PartEnd])
    decreases |t| - k
  {
    hide StepByte, Goes, Restartable, DataBytes, FirstAt, OccursAt;
    var d := Delimiter(boundary);
    if t[k] == d[k] {
      AheadMatched(boundary, k, t, p);
      if k + 1 < |d| {
        Search(boundary, s, k + 1, t, p);
        MatchOne(boundary, s, k, t, DataBytes(t[..p]) + [PartEnd]);
      } else {
        HeldStep(boundary, s, k, t[k]);
        GoesByte(boundary, Held(s, k), t[k]);
        JoinData([], [], [], t[..p]);
        assert DataBytes(t[..p]) + [PartEnd] == [PartEnd];
      }
    } else {
      AheadMismatched(boundary, k, t, p);
      if t[k] == CR {
        Search(boundary, Held(s, k), 1, t[k..], p - k);
        GiveUpAtCr(boundary, s, k, t, p);
      } else {
        Search(boundary, Held(s, k), 0, t[k + 1..], p - k - 1);
        GiveUpElsewhere(boundary, s, k, t, p);
      }
    }
  }

  // ---------- exactly which boundaries work ----------

  /** Data that the delimiter separates properly from what follows. */
  ghost predicate Separated(boundary: bytes, data: bytes) {
    FirstAt(data + Delimiter(boundary), Delimiter(boundary), |data|)
  }

  /** The parser reports 'data', and then the end of the part. */
  ghost predicate Recovered(boundary: bytes, s: State, data: bytes)
    requires Valid(boundary, Held(s, 0))
  {
    Goes(boundary, Held(s, 0), data + Delimiter(boundary), State(PartDataAlmostEnd, |boundary|, []),
         DataBytes(data) + [PartEnd])
  }

  /** The data of every part is recovered, if and only if the delimiter is restartable. */
  lemma RecoveryCondition(boundary: bytes, s: State)
    requires |boundary| > 0 && s.name == []
    ensures Valid(boundary, Held(s, 0))
    ensures (forall data | Separated(boundary, data) :: Recovered(boundary, s, data))
            <==> Restartable(Delimiter(boundary))
  {
    var d := Delimiter(boundary);
    HeldStep(boundary, s, 0, CR);
    if Restartable(d) {
      forall data | Separated(boundary, data)
        ensures Recovered(boundary, s, data)
      {
        var t := data + d;
        assert t[..0] == d[..0];
        Search(boundary, s, 0, t, |data|);
        assert t[0..] == t && t[..|data|] == data;
      }
    } else {
      var data := LostData(boundary, s);
      assert !Recovered(boundary, s, data);
    }
  }

  /** For any other boundary there is a part whose data comes out wrong: too many bytes. */
  lemma LostData(boundary: bytes, s: State) returns (data: bytes)
    requires |boundary| > 0 && s.name == [] && !Restartable(Delimiter(boundary))
    requires Valid(boundary, Held(s, 0))
    ensures Separated(boundary, data) && !Recovered(boundary, s, data)
  {
    var d := Delimiter(boundary);
    var k, m :| 1 <= m < k < |d| && !FallbackFails(d, k, m);
    m := LongestFallback(d, k, m);
    data := d[..k - m];
    var t := data + d;
    FallbackText(d, k, m);
    WrongEvents(boundary, s, k, m, t);
    NotTheEnd(Run(boundary, Held(s, 0), t).events, data, d[k - m]);
  }

  lemma WrongEvents(boundary: bytes, s: State, k: nat, m: nat, t: bytes)
    requires |boundary| > 0 && s.name == []
    requires 1 <= m < k < |Delimiter(boundary)| && k < |t|
    requires t[..k] == Delimiter(boundary)[..k] && t[k] != Delimiter(boundary)[k]
    ensures Valid(boundary, Held(s, 0))
    ensures var events := Run(boundary, Held(s, 0), t).events;
            |events| > k - m && events[k - m] == DataByte(Delimiter(boundary)[k - m])
  {
    hide Run;
    MatchesPrefix(boundary, s, 0, k, t);
    MismatchReports(boundary, s, k, t);
    assert t[0..] == t;
  }

  lemma NotTheEnd(events: seq<Event>, data: bytes, c: byte)
    requires |events| > |data| && events[|data|] == DataByte(c)
    ensures events != DataBytes(data) + [PartEnd]
  {
    assert (DataBytes(data) + [PartEnd])[|data|] == PartEnd;
  }

  /** A mismatch reports everything held back. */
  lemma {:induction false} MismatchReports(boundary: bytes, s: State, k: nat, t: bytes)
    requires |boundary| > 0 && s.name == []
    requires k < |Delimiter(boundary)| && k < |t| && t[k] != Delimiter(boundary)[k]
    ensures Valid(boundary, Held(s, k))
    ensures var events := Run(boundary, Held(s, k), t[k..]).events;
            |events| >= k && forall i | 0 <= i < k :: events[i] == DataByte(Delimiter(boundary)[i])
  {
    HeldStep(boundary, s, k, t[k]);
    assert t[k..][0] == t[k];
    hide StepByte;
    var step := StepByte(boundary, Held(s, k), t[k]);
    var r := Run(boundary, step.state, t[k..][1..]);
    assert Run(boundary, Held(s, k), t[k..]).events == step.events + r.events;
  }

  /** Of the fallbacks that would have been needed after 'k' bytes, the longest. */
  lemma {:induction false} LongestFallback(d: bytes, k: nat, m0: nat) returns (m: nat)
    requires 1 <= m0 < k < |d| && d[k - m0..k] == d[..m0] && d[m0] != d[k]
    ensures 1 <= m < k && d[k - m..k] == d[..m] && d[m] != d[k]
    ensures forall j | m < j < k :: FallbackFails(d, k, j)
    decreases k - m0
  {
    if j :| m0 < j < k && !FallbackFails(d, k, j) {
      m := LongestFallback(d, k, j);
    } else {
      m := m0;
    }
  }

  lemma FallbackText(d: bytes, k: nat, m: nat)
    requires 1 <= m < k < |d| && d[k - m..k] == d[..m] && d[m] != d[k]
    requires forall j | m < j < k :: FallbackFails(d, k, j)
    ensures var t := d[..k - m] + d;
            |t| > k && t[..k] == d[..k] && t[k] == d[m] && FirstAt(t, d, k - m)
  {
    var t := d[..k - m] + d;
    assert t[..k] == d[..k - m] + d[..m] == d[..k];
    assert t[k - m..k - m + |d|] == d;
    forall q | 0 <= q < k - m
      ensures !OccursAt(t, d, q)
    {
      if OccursAt(t, d, q) {
        OccurrenceByte(t, d, q, k - q);
        if q > 0 {
          OccurrenceOverlap(t, d, k, q);
          Fallback(d, k, k - q, m + 1);
        }
      }
    }
  }

  /** While the text agrees with the delimiter nothing is reported. */
  lemma {:induction false} MatchesPrefix(boundary: bytes, s: State, j: nat, k: nat, t: bytes)
    requires |boundary| > 0 && s.name == []
    requires j <= k < |Delimiter(boundary)| && k <= |t| && t[..k] == Delimiter(boundary)[..k]
    ensures Valid(boundary, Held(s, j)) && Valid(boundary, Held(s, k))
    ensures Run(boundary, Held(s, j), t[j..]).events == Run(boundary, Held(s, k), t[k..]).events
    decreases k - j
  {
    HeldStep(boundary, s, j, if j < k then t[j] else CR);
    if j < k {
      assert t[j] == t[..k][j] == Delimiter(boundary)[..k][j];
      MatchesPrefix(boundary, s, j + 1, k, t);
      assert t[j..][0] == t[j] && t[j..][1..] == t[j + 1..];
      var r := Run(boundary, Held(s, j + 1), t[j + 1..]);
      assert [] + r.events == r.events;
    }
  }

  lemma OccursInside(a: bytes, b: bytes, d: bytes, q: nat)
    requires q + |d| <= |a|
    ensures OccursAt(a + b, d, q) == OccursAt(a, d, q)
  {
    assert (a + b)[q..q + |d|] == a[q..q + |d|];
  }

  /** With no CR in the boundary, data is separated whenever it does not contain the delimiter. */
  lemma SeparatedData(boundary: bytes, data: bytes)
    requires CR !in boundary
    requires forall q | 0 <= q <= |data| :: !OccursAt(data, Delimiter(boundary), q)
    ensures Separated(boundary, data)
  {
    var d := Delimiter(boundary);
    var t := data + d;
    assert t[|data|..|data| + |d|] == d;
    forall q | 0 <= q < |data|
      ensures !OccursAt(t, d, q)
    {
      if OccursAt(t, d, q) {
        if q + |d| <= |data| {
          OccursInside(data, d, d, q);
        } else {
          NoFurtherCr(boundary, |data| - q);
          OccurrenceByte(t, d, q, |data| - q);
        }
      }
    }
  }

  /** A boundary that contains CR can lose its delimiter: here CR LF 'a' CR 'x', after data CR LF 'a'. */
  lemma CrInBoundaryCanFail()
    ensures var boundary: bytes := [97, CR, 120];
            !Restartable(Delimiter(boundary))
  {
    var d := Delimiter([97, CR, 120]);
    assert d[4 - 1..4] == [CR] == d[..1];
    assert !FallbackFails(d, 4, 1);
  }

  // ---------- whole bodies ----------

  datatype Header = Header(name: bytes, value: bytes)
  datatype Part = Part(headers: seq<Header>, data: bytes)

  /** Letters of either case, and the hyphen. */
  predicate IsFieldChar(c: byte) { IsAlpha(c) || c == 45 }

  predicate HeaderOk(h: Header) {
    && (forall i | 0 <= i < |h.name| :: IsFieldChar(h.name[i]))
    && CR !in h.value
    && (h.value != [] ==> h.value[0] != 32)
  }

  ghost predicate PartOk(boundary: bytes, p: Part) {
    (forall i | 0 <= i < |p.headers| :: HeaderOk(p.headers[i])) && Separated(boundary, p.data)
  }

  function EncodeHeader(h: Header): bytes {
    (h.name + [58]) + ([32] + (h.value + CRLF))
  }

  function HeaderEvents(h: Header): seq<Event> {
    NameBytes(h.name) + ValueBytes(h.value)
  }

  function EncodeHeaders(hs: seq<Header>): bytes {
    if hs == [] then CRLF else EncodeHeader(hs[0]) + EncodeHeaders(hs[1..])
  }

  function HeadersEvents(hs: seq<Header>): seq<Event> {
    if hs == [] then [] else HeaderEvents(hs[0]) + HeadersEvents(hs[1..])
  }

  /** Each part ends with the delimiter; two hyphens follow the last one. */
  function EncodeParts(boundary: bytes, ps: seq<Part>): bytes
    requires ps != []
    decreases |ps|, 1
  {
    EncodeHeaders(ps[0].headers) + ((ps[0].data + Delimiter(boundary)) + EncodeRest(boundary, ps))
  }

  function EncodeRest(boundary: bytes, ps: seq<Part>): bytes
    requires ps != []
    decreases |ps|, 0
  {
    if |ps| == 1 then [45, 45] else CRLF + EncodeParts(boundary, ps[1..])
  }

  function PartsEvents(ps: seq<Part>): seq<Event>
    requires ps != []
    decreases |ps|, 1
  {
    HeadersEvents(ps[0].headers) + (([HeadersComplete] + (DataBytes(ps[0].data) + [PartEnd])) + RestEvents(ps))
  }

  function RestEvents(ps: seq<Part>): seq<Event>
    requires ps != []
    decreases |ps|, 0
  {
    if |ps| == 1 then [BodyEnd] else [PartBegin] + PartsEvents(ps[1..])
  }

  function EncodeBody(boundary: bytes, ps: seq<Part>): bytes
    requires ps != []
  {
    boundary + (CRLF + EncodeParts(boundary, ps))
  }

  lemma {:induction false} Opening(boundary: bytes, k: nat)
    requires |boundary| > 0 && k <= |boundary|
    ensures Goes(boundary, State(StartBoundary, k, []), boundary[k..], State(StartBoundary, |boundary|, []), [])
    decreases |boundary| - k
  {
    var s := State(StartBoundary, k, []);
    if k == |boundary| {
      GoesNowhere(boundary, s);
    } else {
      GoesByte(boundary, s, boundary[k]);
      Opening(boundary, k + 1);
      hide StepByte;
      GoesOn(boundary, s, [boundary[k]], State(StartBoundary, k + 1, []), [],
             boundary[k + 1..], State(StartBoundary, |boundary|, []), []);
      assert boundary[k..] == [boundary[k]] + boundary[k + 1..];
    }
  }

  lemma {:induction false} NameGoes(boundary: bytes, s: State, name: bytes)
    requires Valid(boundary, s) && s.mode in {HeaderFieldStart, HeaderField}
    requires forall i | 0 <= i < |name| :: IsNameChar(name[i])
    ensures Goes(boundary, s, name + [58], State(HeaderValueStart, s.index, []), NameBytes(s.name + name))
    decreases |name|
  {
    var end := State(HeaderValueStart, s.index, []);
    if name == [] {
      GoesByte(boundary, s, 58);
      assert name + [58] == [58] && s.name + name == s.name;
    } else {
      var c := name[0];
      var s1 := State(HeaderField, s.index, s.name + [c]);
      GoesByte(boundary, s, c);
      hide Goes, StepByte, NameBytes;
      NameGoes(boundary, s1, name[1..]);
      assert s1.name + name[1..] == s.name + name;
      GoesOn(boundary, s, [c], s1, [], name[1..] + [58], end, NameBytes(s.name + name));
      assert name + [58] == [c] + (name[1..] + [58]);
      assert [] + NameBytes(s.name + name) == NameBytes(s.name + name);
    }
  }

  lemma {:induction false} ValueGoes(boundary: bytes, s: State, value: bytes)
    requires Valid(boundary, s) && s.mode in {HeaderValueStart, HeaderValue} && CR !in value
    requires s.mode == HeaderValueStart && value != [] ==> value[0] != 32
    ensures Goes(boundary, s, value + CRLF, State(HeaderFieldStart, s.index, []), ValueBytes(value))
    decreases |value|
  {
    var end := State(HeaderFieldStart, s.index, []);
    if value == [] {
      GoesTwo(boundary, s, CR, State(HeaderValueAlmostDone, s.index, []), LF, end, []);
      assert value + CRLF == CRLF;
    } else {
      var c := value[0];
      var s1 := State(HeaderValue, s.index, []);
      GoesByte(boundary, s, c);
      ValueGoes(boundary, s1, value[1..]);
      GoesOn(boundary, s, [c], s1, [ValueByte(c)], value[1..] + CRLF, end, ValueBytes(value[1..]));
      assert value + CRLF == [c] + (value[1..] + CRLF);
      assert [ValueByte(c)] + ValueBytes(value[1..]) == ValueBytes(value);
    }
  }

  lemma {:induction false} HeaderGoes(boundary: bytes, h: Header, i: nat)
    requires |boundary| > 0 && HeaderOk(h)
    ensures Goes(boundary, State(HeaderFieldStart, i, []), EncodeHeader(h), State(HeaderFieldStart, i, []),
                 HeaderEvents(h))
  {
    var s, v := State(HeaderFieldStart, i, []), State(HeaderValueStart, i, []);
    NameGoes(boundary, s, h.name);
    GoesByte(boundary, v, 32);
    ValueGoes(boundary, v, h.value);
    hide Goes, StepByte;
    var value := h.value + CRLF;
    GoesOn(boundary, v, [32], v, [], value, s, ValueBytes(h.value));
    assert [] + ValueBytes(h.value) == ValueBytes(h.value) && [] + h.name == h.name;
    GoesOn(boundary, s, h.name + [58], v, NameBytes(h.name), [32] + value, s, ValueBytes(h.value));
  }

  lemma {:induction false} HeadersGo(boundary: bytes, hs: seq<Header>, i: nat)
    requires |boundary| > 0 && forall j | 0 <= j < |hs| :: HeaderOk(hs[j])
    ensures Goes(boundary, State(HeaderFieldStart, i, []), EncodeHeaders(hs), State(PartDataStart, i, []),
                 HeadersEvents(hs))
    decreases |hs|
  {
    var s, end := State(HeaderFieldStart, i, []), State(PartDataStart, i, []);
    if hs == [] {
      GoesTwo(boundary, s, CR, State(HeadersAlmostDone, i, []), LF, end, []);
    } else {
      HeaderGoes(boundary, hs[0], i);
      HeadersGo(boundary, hs[1..], i);
      GoesOn(boundary, s, EncodeHeader(hs[0]), s, HeaderEvents(hs[0]), EncodeHeaders(hs[1..]), end,
             HeadersEvents(hs[1..]));
    }
  }

  /** The data of one part, from the end of its headers. */
  lemma {:induction false} DataGoes(boundary: bytes, data: bytes, i: nat)
    requires |boundary| > 0 && Restartable(Delimiter(boundary)) && Separated(boundary, data)
    ensures Goes(boundary, State(PartDataStart, i, []), data + Delimiter(boundary),
                 State(PartDataAlmostEnd, |boundary|, []), [HeadersComplete] + (DataBytes(data) + [PartEnd]))
  {
    var s := State(PartDataStart, i, []);
    var t := data + Delimiter(boundary);
    assert t[..0] == Delimiter(boundary)[..0];
    Search(boundary, s, 0, t, |data|);
    assert t[0..] == t && t[..|data|] == data;
    var step := StepData(s, t[0]);
    var r := Run(boundary, step.state, t[1..]);
    assert StepByte(boundary, Held(s, 0), t[0]) == step;
    assert [HeadersComplete] + (step.events + r.events) == ([HeadersComplete] + step.events) + r.events;
  }

  /** What can follow a delimiter: two hyphens, or a line end and another part. */
  lemma {:induction false} AfterDelimiter(boundary: bytes)
    requires |boundary| > 0
    ensures var n := |boundary|;
            && Goes(boundary, State(PartDataAlmostEnd, n, []), [45, 45], State(End, n, []), [BodyEnd])
            && Goes(boundary, State(PartDataAlmostEnd, n, []), CRLF, State(HeaderFieldStart, n, []), [PartBegin])
  {
    var n := |boundary|;
    var almost := State(PartDataAlmostEnd, n, []);
    GoesTwo(boundary, almost, 45, State(PartDataFinalHyphen, n, []), 45, State(End, n, []), [BodyEnd]);
    GoesTwo(boundary, almost, CR, State(PartDataEnd, n, []), LF, State(HeaderFieldStart, n, []), [PartBegin]);
  }

  lemma {:induction false} RestGoes(boundary: bytes, ps: seq<Part>)
    requires |boundary| > 0 && Restartable(Delimiter(boundary)) && ps != []
    requires forall j | 0 <= j < |ps| :: PartOk(boundary, ps[j])
    ensures Goes(boundary, State(PartDataAlmostEnd, |boundary|, []), EncodeRest(boundary, ps),
                 State(End, |boundary|, []), RestEvents(ps))
    decreases |ps|, 0
  {
    hide Goes, EncodeParts, PartsEvents;
    AfterDelimiter(boundary);
    var n := |boundary|;
    if |ps| > 1 {
      PartsGo(boundary, ps[1..], n);
      GoesOn(boundary, State(PartDataAlmostEnd, n, []), CRLF, State(HeaderFieldStart, n, []), [PartBegin],
             EncodeParts(boundary, ps[1..]), State(End, n, []), PartsEvents(ps[1..]));
    }
  }

  lemma {:induction false} PartsGo(boundary: bytes, ps: seq<Part>, i: nat)
    requires |boundary| > 0 && Restartable(Delimiter(boundary)) && ps != []
    requires forall j | 0 <= j < |ps| :: PartOk(boundary, ps[j])
    ensures Goes(boundary, State(HeaderFieldStart, i, []), EncodeParts(boundary, ps), State(End, |boundary|, []),
                 PartsEvents(ps))
    decreases |ps|, 1
  {
    hide Goes, EncodeRest, RestEvents, EncodeHeaders, HeadersEvents;
    var mid := State(PartDataStart, i, []);
    var almost, end := State(PartDataAlmostEnd, |boundary|, []), State(End, |boundary|, []);
    var data, dataEvents := ps[0].data + Delimiter(boundary), [HeadersComplete] + (DataBytes(ps[0].data) + [PartEnd]);
    HeadersGo(boundary, ps[0].headers, i);
    DataGoes(boundary, ps[0].data, i);
    RestGoes(boundary, ps);
    GoesOn(boundary, mid, data, almost, dataEvents, EncodeRest(boundary, ps), end, RestEvents(ps));
    GoesOn(boundary, State(HeaderFieldStart, i, []), EncodeHeaders(ps[0].headers), mid, HeadersEvents(ps[0].headers),
           data + EncodeRest(boundary, ps), end, dataEvents + RestEvents(ps));
  }

  lemma {:induction false} BodyGoes(boundary: bytes, ps: seq<Part>)
    requires |boundary| > 0 && Restartable(Delimiter(boundary)) && ps != []
    requires forall j | 0 <= j < |ps| :: PartOk(boundary, ps[j])
    ensures Goes(boundary, INITIAL, EncodeBody(boundary, ps), State(End, |boundary|, []), [PartBegin] + PartsEvents(ps))
  {
    var n := |boundary|;
    var start, open, s, end := State(StartBoundary, 0, []), State(StartBoundary, n, []),
                               State(HeaderFieldStart, 0, []), State(End, n, []);
    Opening(boundary, 0);
    GoesTwo(boundary, open, CR, State(StartBoundary, n + 1, []), LF, s, [PartBegin]);
    PartsGo(boundary, ps, 0);
    SameStart(boundary, EncodeBody(boundary, ps));
    hide Goes, StepByte, EncodeParts, PartsEvents;
    GoesOn(boundary, open, CRLF, s, [PartBegin], EncodeParts(boundary, ps), end, PartsEvents(ps));
    GoesOn(boundary, start, boundary[0..], open, [], CRLF + EncodeParts(boundary, ps), end,
           [PartBegin] + PartsEvents(ps));
    assert boundary[0..] == boundary;
    assert [] + ([PartBegin] + PartsEvents(ps)) == [PartBegin] + PartsEvents(ps);
  }

  /** The initial state treats its first byte like the state after it. */
  lemma {:induction false} SameStart(boundary: bytes, body: bytes)
    requires |boundary| > 0 && body != []
    ensures forall s2, events :: Goes(boundary, State(StartBoundary, 0, []), body, s2, events)
                             ==> Goes(boundary, INITIAL, body, s2, events)
  {
  }

  /** Whatever comes after the last part is passed over. */
  lemma {:induction false} EpilogueGoes(boundary: bytes, n: nat, epilogue: bytes)
    requires |boundary| > 0
    ensures Goes(boundary, State(End, n, []), epilogue, State(End, n, []), [])
    decreases |epilogue|
  {
    if epilogue == [] {
      GoesNowhere(boundary, State(End, n, []));
    } else {
      GoesByte(boundary, State(End, n, []), epilogue[0]);
      EpilogueGoes(boundary, n, epilogue[1..]);
      GoesOn(boundary, State(End, n, []), [epilogue[0]], State(End, n, []), [], epilogue[1..], State(End, n, []), []);
      assert [epilogue[0]] + epilogue[1..] == epilogue;
    }
  }

  /** Each part's headers and exact data come back, in whatever pieces the body arrives and whatever follows it. */
  lemma BodyIsRecovered(boundary: bytes, ps: seq<Part>, epilogue: bytes, pieces: seq<bytes>)
    requires |boundary| > 0 && Restartable(Delimiter(boundary)) && ps != []
    requires forall j | 0 <= j < |ps| :: PartOk(boundary, ps[j])
    requires Concat(pieces) == EncodeBody(boundary, ps) + epilogue
    ensures FeedAll(boundary, INITIAL, pieces)
         == Result(State(End, |boundary|, []), [PartBegin] + PartsEvents(ps), |EncodeBody(boundary, ps)| + |epilogue|)
  {
    var end := State(End, |boundary|, []);
    BodyGoes(boundary, ps);
    EpilogueGoes(boundary, |boundary|, epilogue);
    GoesOn(boundary, INITIAL, EncodeBody(boundary, ps), end, [PartBegin] + PartsEvents(ps), epilogue, end, []);
    assert [PartBegin] + PartsEvents(ps) + [] == [PartBegin] + PartsEvents(ps);
    assert NameBytes([]) == [];
    SplitIndependenceWithNames(boundary, INITIAL, pieces);
  }

  // ---------- what is refused ----------

  /** Exactly these bytes are taken in each state; any other ends the call there. */
  lemma {:induction false} NothingElseIsTaken(boundary: bytes, s: State, c: byte)
    requires Valid(boundary, s)
    ensures StepByte(boundary, s, c).Taken? <==>
              match s.mode
              case Start => c == boundary[0]
              case StartBoundary => c == (boundary + CRLF)[s.index]
              case HeaderFieldStart | HeaderField => c == CR || c == 58 || IsFieldChar(c)
              case HeadersAlmostDone | HeaderValueAlmostDone | PartDataEnd => c == LF
              case PartDataAlmostEnd => c == CR || c == 45
              case PartDataFinalHyphen => c == 45
              case _ => true
  {
  }
}

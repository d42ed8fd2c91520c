/** The multipart/form-data parser as a machine that takes one byte at a time. */
module Multipart {
  import opened Bytes

  // The concrete parser keeps marks into the current buffer and looks at some bytes twice; here a byte of
  // text is reported as soon as it is known to be text.  Part data, once the delimiter search has given up
  // on it, is exactly what was there; the theorems say when the search is right, and that the cut of the
  // input does not matter.

  datatype Mode =
    | Start | StartBoundary
    | HeaderFieldStart | HeaderField | HeadersAlmostDone
    | HeaderValueStart | HeaderValue | HeaderValueAlmostDone
    | PartDataStart | PartData | PartDataAlmostBoundary | PartDataBoundary
    | PartDataAlmostEnd | PartDataEnd | PartDataFinalHyphen | End

  /** Callbacks, with text reported byte by byte. */
  datatype Event =
    | PartBegin
    | NameByte(b: byte)
    | ValueByte(b: byte)
    | HeadersComplete
    | DataByte(b: byte)
    | PartEnd
    | BodyEnd

  /** 'name' is the part of a header name that has been read but not reported. */
  datatype State = State(mode: Mode, index: nat, name: bytes)

  const INITIAL := State(Start, 0, [])

  datatype Step = Taken(state: State, events: seq<Event>) | Refused(state: State)

  function NameBytes(s: bytes): (e: seq<Event>)
    ensures |e| == |s|
  {
    seq(|s|, i requires 0 <= i < |s| => NameByte(s[i]))
  }

  function ValueBytes(s: bytes): (e: seq<Event>)
    ensures |e| == |s|
  {
    seq(|s|, i requires 0 <= i < |s| => ValueByte(s[i]))
  }

  function DataBytes(s: bytes): (e: seq<Event>)
    ensures |e| == |s|
  {
    seq(|s|, i requires 0 <= i < |s| => DataByte(s[i]))
  }

  predicate IsNameChar(c: byte) {
    c == 45 || 97 <= c <= 122 || 65 <= c <= 90
  }

  /** CR LF and the boundary: what separates the data of a part from what follows. */
  function Delimiter(boundary: bytes): bytes {
    CRLF + boundary
  }

  /** The state in which the first 'k' bytes of the delimiter have been seen and are held back. */
  function Held(s: State, k: nat): State {
    if k == 0 then s.(mode := PartData)
    else if k == 1 then s.(mode := PartDataAlmostBoundary)
    else s.(mode := PartDataBoundary, index := k - 2)
  }

  function StepName(s: State, c: byte): Step {
    if c == CR then Taken(State(HeadersAlmostDone, s.index, []), [])
    else if c == 58 then Taken(State(HeaderValueStart, s.index, []), NameBytes(s.name))
    else if IsNameChar(c) then Taken(State(HeaderField, s.index, s.name + [c]), [])
    else Refused(s.(mode := HeaderField))
  }

  function StepValue(s: State, c: byte): Step {
    if c == CR then Taken(s.(mode := HeaderValueAlmostDone), [])
    else Taken(s.(mode := HeaderValue), [ValueByte(c)])
  }

  function StepData(s: State, c: byte): Step {
    if c == CR then Taken(Held(s, 1), []) else Taken(Held(s, 0), [DataByte(c)])
  }

  /** A byte after 'held': the events of the held bytes, then the byte as data. */
  function GiveUp(held: bytes, s: State, c: byte): Step {
    var r := StepData(s, c);
    Taken(r.state, DataBytes(held) + r.events)
  }

  function StepBoundary(boundary: bytes, s: State, c: byte): Step
    requires s.index < |boundary|
  {
    if boundary[s.index] != c then GiveUp(CRLF + boundary[..s.index], s, c)
    else if s.index + 1 == |boundary| then Taken(State(PartDataAlmostEnd, s.index + 1, s.name), [PartEnd])
    else Taken(s.(index := s.index + 1), [])
  }

  function StepStart(boundary: bytes, s: State, c: byte): Step
    requires s.index <= |boundary| + 1
  {
    var t := s.(mode := StartBoundary);
    if s.index == |boundary| then
      if c != CR then Refused(t) else Taken(t.(index := s.index + 1), [])
    else if s.index == |boundary| + 1 then
      if c != LF then Refused(t) else Taken(State(HeaderFieldStart, 0, s.name), [PartBegin])
    else if c != boundary[s.index] then Refused(t)
    else Taken(t.(index := s.index + 1), [])
  }

  ghost predicate Valid(boundary: bytes, s: State) {
    && |boundary| > 0
    && (s.mode == StartBoundary ==> s.index <= |boundary| + 1)
    && (s.mode == PartDataBoundary ==> s.index < |boundary|)
    && (s.name != [] ==> s.mode == HeaderField)
  }

  function StepByte(boundary: bytes, s: State, c: byte): (r: Step)
    requires Valid(boundary, s)
    ensures r.Taken? ==> Valid(boundary, r.state)
  {
    match s.mode
    case Start => StepStart(boundary, s.(index := 0), c)
    case StartBoundary => StepStart(boundary, s, c)
    case HeaderFieldStart => StepName(s, c)
    case HeaderField => StepName(s, c)
    case HeadersAlmostDone => if c != LF then Refused(s) else Taken(s.(mode := PartDataStart), [])
    case HeaderValueStart => if c == 32 then Taken(s, []) else StepValue(s, c)
    case HeaderValue => StepValue(s, c)
    case HeaderValueAlmostDone => if c != LF then Refused(s) else Taken(s.(mode := HeaderFieldStart), [])
    case PartDataStart => var r := StepData(s, c); Taken(r.state, [HeadersComplete] + r.events)
    case PartData => StepData(s, c)
    case PartDataAlmostBoundary => if c == LF then Taken(Held(s, 2), []) else GiveUp([CR], s, c)
    case PartDataBoundary => StepBoundary(boundary, s, c)
    case PartDataAlmostEnd =>
      if c == 45 then Taken(s.(mode := PartDataFinalHyphen), [])
      else if c == CR then Taken(s.(mode := PartDataEnd), [])
      else Refused(s)
    case PartDataFinalHyphen => if c == 45 then Taken(s.(mode := End), [BodyEnd]) else Refused(s)
    case PartDataEnd => if c == LF then Taken(s.(mode := HeaderFieldStart), [PartBegin]) else Refused(s)
    case End => Taken(s, [])
  }

  /** 'consumed' falls short of the input exactly when a byte was refused. */
  datatype Result = Result(state: State, events: seq<Event>, consumed: nat)

  function Run(boundary: bytes, s: State, input: bytes): (r: Result)
    requires Valid(boundary, s)
    ensures r.consumed <= |input|
    ensures r.consumed == |input| ==> Valid(boundary, r.state)
    decreases |input|
  {
    if input == [] then Result(s, [], 0)
    else match StepByte(boundary, s, input[0])
         case Refused(s') => Result(s', [], 0)
         case Taken(s', events) =>
           var r := Run(boundary, s', input[1..]);
           Result(r.state, events + r.events, 1 + r.consumed)
  }

  /** Up to the end of a buffer: a name that is cut off there is reported as far as it goes. */
  function Flushed(boundary: bytes, s: State, input: bytes): (r: Result)
    requires Valid(boundary, s)
    ensures r.state.name == [] && r.consumed <= |input|
    ensures r.consumed == |input| ==> Valid(boundary, r.state)
  {
    var r := Run(boundary, s, input);
    Result(r.state.(name := []),
           r.events + (if r.consumed == |input| then NameBytes(r.state.name) else []),
           r.consumed)
  }

  /** One call. */
  function Execute(boundary: bytes, s: State, input: bytes): (r: Result)
    requires Valid(boundary, s) && s.name == []
    ensures r.state.name == [] && r.consumed <= |input|
    ensures r.consumed == |input| ==> Valid(boundary, r.state)
  {
    Flushed(boundary, s, input)
  }

  /** Calls are made until one of them refuses a byte. */
  function FeedAll(boundary: bytes, s: State, pieces: seq<bytes>): (r: Result)
    requires Valid(boundary, s) && s.name == []
    decreases |pieces|
  {
    if pieces == [] then Result(s, [], 0)
    else
      var first := Execute(boundary, s, pieces[0]);
      if first.consumed < |pieces[0]| then first
      else
        var rest := FeedAll(boundary, first.state, pieces[1..]);
        Result(rest.state, first.events + rest.events, first.consumed + rest.consumed)
  }

  // ---------- the input may be cut anywhere ----------

  lemma {:induction false} RunAppend(boundary: bytes, s: State, a: bytes, b: bytes)
    requires Valid(boundary, s)
    ensures var first := Run(boundary, s, a);
            Run(boundary, s, a + b) ==
              if first.consumed < |a| then first
              else
                var rest := Run(boundary, first.state, b);
                Result(rest.state, first.events + rest.events, first.consumed + rest.consumed)
    decreases |a|
  {
    hide StepByte, Valid;
    if a == [] {
      assert a + b == b;
    } else {
      assert (a + b)[0] == a[0] && (a + b)[1..] == a[1..] + b;
      var step := StepByte(boundary, s, a[0]);
      if step.Taken? {
        RunAppend(boundary, step.state, a[1..], b);
        var first := Run(boundary, step.state, a[1..]);
        if first.consumed == |a[1..]| {
          var rest := Run(boundary, first.state, b);
          assert step.events + (first.events + rest.events) == (step.events + first.events) + rest.events;
        }
      }
    }
  }

  /** The events other than header names. */
  function WithoutNames(e: seq<Event>): seq<Event> {
    if e == [] then []
    else (if e[0].NameByte? then [] else [e[0]]) + WithoutNames(e[1..])
  }

  lemma {:induction false} WithoutNamesAppend(a: seq<Event>, b: seq<Event>)
    ensures WithoutNames(a + b) == WithoutNames(a) + WithoutNames(b)
    decreases |a|
  {
    if a == [] {
      assert a + b == b;
    } else {
      assert (a + b)[0] == a[0] && (a + b)[1..] == a[1..] + b;
      WithoutNamesAppend(a[1..], b);
    }
  }

  lemma {:induction false} NamesVanish(s: bytes)
    ensures WithoutNames(NameBytes(s)) == []
    decreases |s|
  {
    if s != [] {
      assert NameBytes(s)[1..] == NameBytes(s[1..]);
      NamesVanish(s[1..]);
    }
  }

  /** What was held back of a name affects nothing but the report of that name. */
  lemma {:induction false} NameIsInert(boundary: bytes, s: State, name: bytes, input: bytes)
    requires Valid(boundary, s) && (name != [] ==> s.mode == HeaderField)
    ensures var r, r' := Run(boundary, s, input), Run(boundary, s.(name := name), input);
            && r'.consumed == r.consumed
            && r'.state.(name := []) == r.state.(name := [])
            && WithoutNames(r'.events) == WithoutNames(r.events)
    decreases |input|
  {
    if input != [] {
      var s' := s.(name := name);
      var step, step' := StepByte(boundary, s, input[0]), StepByte(boundary, s', input[0]);
      assert step.Taken? == step'.Taken?;
      if step.Taken? {
        NameIsInert(boundary, step.state, step'.state.name, input[1..]);
        WithoutNamesAppend(step.events, Run(boundary, step.state, input[1..]).events);
        WithoutNamesAppend(step'.events, Run(boundary, step'.state, input[1..]).events);
        NamesVanish(s.name);
        NamesVanish(name);
      }
    }
  }

  /** Split independence, for every input: the events other than header names, how much was consumed
      and the state the parser is left in do not depend on the cut. */
  lemma {:induction false} SplitIndependence(boundary: bytes, s: State, pieces: seq<bytes>)
    requires Valid(boundary, s) && s.name == []
    ensures var r, r' := FeedAll(boundary, s, pieces), Execute(boundary, s, Concat(pieces));
            && r.consumed == r'.consumed && r.state == r'.state
            && WithoutNames(r.events) == WithoutNames(r'.events)
    decreases |pieces|
  {
    hide Run, StepByte, Valid, WithoutNames;
    if pieces == [] {
      EmptyCall(boundary, s);
    } else {
      var a, b := pieces[0], Concat(pieces[1..]);
      TwoCalls(boundary, s, a, b);
      var first := Execute(boundary, s, a);
      if first.consumed == |a| {
        SplitIndependence(boundary, first.state, pieces[1..]);
        WithoutNamesAppend(first.events, FeedAll(boundary, first.state, pieces[1..]).events);
        WithoutNamesAppend(first.events, Execute(boundary, first.state, b).events);
      }
    }
  }

  lemma {:induction false} EmptyCall(boundary: bytes, s: State)
    requires Valid(boundary, s) && s.name == []
    ensures Execute(boundary, s, []) == Result(s, [], 0)
  {
  }

  lemma {:induction false} ExecuteWithoutNames(boundary: bytes, s: State, input: bytes)
    requires Valid(boundary, s) && s.name == []
    ensures WithoutNames(Execute(boundary, s, input).events) == WithoutNames(Run(boundary, s, input).events)
  {
    hide Run, WithoutNames;
    var r := Run(boundary, s, input);
    NamesVanish(r.state.name);
    WithoutNamesAppend(r.events, NameBytes(r.state.name));
    assert r.events + [] == r.events;
  }

  /** Two calls against one call with the same bytes. */
  lemma {:induction false} TwoCalls(boundary: bytes, s: State, a: bytes, b: bytes)
    requires Valid(boundary, s) && s.name == []
    ensures var first, whole := Execute(boundary, s, a), Execute(boundary, s, a + b);
            if first.consumed < |a| then
              && whole.consumed == first.consumed && whole.state == first.state
              && WithoutNames(whole.events) == WithoutNames(first.events)
            else
              var rest := Execute(boundary, first.state, b);
              && whole.consumed == first.consumed + rest.consumed && whole.state == rest.state
              && WithoutNames(whole.events) == WithoutNames(first.events + rest.events)
  {
    hide Run, StepByte, WithoutNames;
    RunAppend(boundary, s, a, b);
    ExecuteWithoutNames(boundary, s, a);
    ExecuteWithoutNames(boundary, s, a + b);
    var first := Run(boundary, s, a);
    if first.consumed == |a| {
      NameIsInert(boundary, first.state, [], b);
      var mid := first.state.(name := []);
      ExecuteWithoutNames(boundary, mid, b);
      WithoutNamesAppend(first.events, Run(boundary, first.state, b).events);
      WithoutNamesAppend(Execute(boundary, s, a).events, Execute(boundary, mid, b).events);
    }
  }

  /** No header name is left without its colon. */
  ghost predicate NamesComplete(boundary: bytes, s: State, input: bytes)
    requires Valid(boundary, s)
    decreases |input|
  {
    input != [] ==>
      && (s.mode == HeaderField ==> input[0] == 58 || IsNameChar(input[0]))
      && (StepByte(boundary, s, input[0]).Taken? ==>
            NamesComplete(boundary, StepByte(boundary, s, input[0]).state, input[1..]))
  }

  function Reported(r: Result): seq<Event> {
    r.events + NameBytes(r.state.name)
  }

  lemma NameBytesAppend(a: bytes, b: bytes)
    ensures NameBytes(a + b) == NameBytes(a) + NameBytes(b)
  {
  }

  lemma {:induction false} NameShift(boundary: bytes, s: State, x: bytes, input: bytes)
    requires Valid(boundary, s) && s.mode == HeaderField
    requires NamesComplete(boundary, s, input)
    ensures var r, r' := Run(boundary, s, input), Run(boundary, s.(name := x + s.name), input);
            && r'.consumed == r.consumed
            && r'.state.(name := []) == r.state.(name := [])
            && Reported(r') == NameBytes(x) + Reported(r)
    decreases |input|
  {
    NameBytesAppend(x, s.name);
    if input != [] {
      var c := input[0];
      if c != 58 {
        assert x + (s.name + [c]) == (x + s.name) + [c];
        NameShift(boundary, State(HeaderField, s.index, s.name + [c]), x, input[1..]);
        var r, r' := Run(boundary, s, input), Run(boundary, s.(name := x + s.name), input);
        var t := State(HeaderField, s.index, s.name + [c]);
        assert r.events == [] + Run(boundary, t, input[1..]).events == Run(boundary, t, input[1..]).events;
        var t' := t.(name := x + t.name);
        assert r'.events == [] + Run(boundary, t', input[1..]).events == Run(boundary, t', input[1..]).events;
      } else {
        var rest := Run(boundary, State(HeaderValueStart, s.index, []), input[1..]);
        assert NameBytes(x + s.name) + rest.events + NameBytes(rest.state.name)
            == NameBytes(x) + (NameBytes(s.name) + rest.events + NameBytes(rest.state.name));
      }
    }
  }

  lemma {:induction false} NamesCompleteAppend(boundary: bytes, s: State, name: bytes, a: bytes, b: bytes)
    requires Valid(boundary, s) && NamesComplete(boundary, s, a + b)
    requires name != [] ==> s.mode == HeaderField
    ensures NamesComplete(boundary, s.(name := name), a)
    ensures Run(boundary, s, a).consumed == |a| ==> NamesComplete(boundary, Run(boundary, s, a).state, b)
    decreases |a|
  {
    if a == [] {
      assert a + b == b;
    } else {
      assert (a + b)[0] == a[0] && (a + b)[1..] == a[1..] + b;
      var s' := s.(name := name);
      var step, step' := StepByte(boundary, s, a[0]), StepByte(boundary, s', a[0]);
      if step.Taken? {
        NamesCompleteAppend(boundary, step.state, step'.state.name, a[1..], b);
      }
    }
  }

  /** Two calls against one call, when no name is dropped. */
  lemma {:induction false} TwoCallsWithNames(boundary: bytes, s: State, a: bytes, b: bytes)
    requires Valid(boundary, s) && s.name == []
    requires NamesComplete(boundary, s, a + b)
    requires Execute(boundary, s, a + b).consumed == |a + b|
    ensures var first, whole := Execute(boundary, s, a), Execute(boundary, s, a + b);
            && first.consumed == |a|
            && NamesComplete(boundary, first.state, b)
            && var rest := Execute(boundary, first.state, b);
               && rest.consumed == |b| && whole.state == rest.state
               && whole.events == first.events + rest.events
  {
    hide Run, StepByte, NamesComplete;
    RunAppend(boundary, s, a, b);
    NamesCompleteAppend(boundary, s, [], a, b);
    var first := Run(boundary, s, a);
    var mid := first.state.(name := []);
    assert b + [] == b;
    NamesCompleteAppend(boundary, first.state, [], b, []);
    var rest, whole := Run(boundary, mid, b), Run(boundary, first.state, b);
    if first.state.mode == HeaderField {
      NameShift(boundary, mid, first.state.name, b);
      assert first.state.name + mid.name == first.state.name;
    } else {
      assert mid == first.state;
      assert NameBytes([]) + Reported(rest) == Reported(rest);
    }
    assert (first.events + whole.events) + NameBytes(whole.state.name) == first.events + Reported(whole);
    assert first.events + (NameBytes(first.state.name) + Reported(rest))
        == (first.events + NameBytes(first.state.name)) + Reported(rest);
  }

  /** When every header name ends with its colon, the header names too are independent of the cut. */
  lemma {:induction false} SplitIndependenceWithNames(boundary: bytes, s: State, pieces: seq<bytes>)
    requires Valid(boundary, s) && s.name == []
    requires NamesComplete(boundary, s, Concat(pieces))
    requires Execute(boundary, s, Concat(pieces)).consumed == |Concat(pieces)|
    ensures FeedAll(boundary, s, pieces) == Execute(boundary, s, Concat(pieces))
    decreases |pieces|
  {
    hide Execute, NamesComplete, Valid;
    if pieces == [] {
      EmptyCall(boundary, s);
    } else {
      TwoCallsWithNames(boundary, s, pieces[0], Concat(pieces[1..]));
      SplitIndependenceWithNames(boundary, Execute(boundary, s, pieces[0]).state, pieces[1..]);
    }
  }
}

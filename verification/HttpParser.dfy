/**
 The parser's loop over a buffer: inner loops over names, values and body data, marks that remember
 where a text began, and callbacks for what is left at the end of the buffer.  The inner loops count header
 bytes only when they are done, which is why a call may look at bytes beyond the limit; it is proved that it
 must fail then, and otherwise does what the machine does.
 */
module HttpParser {
  import opened Bytes
  import H = HttpMessage

  // ---------- what is still to come, as a value ----------

  ghost function Total(start: H.StartLine, s: H.State, log: seq<H.Event>, data: bytes, p: nat): H.Result
    requires H.Valid(s) && p <= |data|
  {
    var r := H.Run(start, s, data[p..]);
    H.Result(r.outcome, log + r.events, p + r.consumed)
  }

  lemma {:induction false} TotalTaken(start: H.StartLine, s: H.State, log: seq<H.Event>, data: bytes, p: nat)
    requires H.Valid(s) && p < |data| && s.mode != H.Complete && H.StepByte(start, s, data[p]).Taken?
    ensures var step := H.StepByte(start, s, data[p]);
            Total(start, s, log, data, p) == Total(start, step.state, log + step.events, data, p + 1)
  {
    hide H.StepByte, H.Valid;
    assert data[p..][1..] == data[p + 1..] && data[p..][0] == data[p];
    var step := H.StepByte(start, s, data[p]);
    var r := H.Run(start, step.state, data[p + 1..]);
    assert log + (step.events + r.events) == (log + step.events) + r.events;
  }

  lemma {:induction false} TotalRefused(start: H.StartLine, s: H.State, log: seq<H.Event>, data: bytes, p: nat)
    requires H.Valid(s) && p < |data| && s.mode != H.Complete && H.StepByte(start, s, data[p]).Refused?
    ensures Total(start, s, log, data, p)
         == H.Result(H.Failed(H.StepByte(start, s, data[p]).error, s), log + H.StepByte(start, s, data[p]).events, p)
  {
    hide H.StepByte, H.Valid;
    assert data[p..][0] == data[p];
  }

  lemma {:induction false} TotalEnd(start: H.StartLine, s: H.State, log: seq<H.Event>, data: bytes, p: nat)
    requires H.Valid(s) && p <= |data| && (p == |data| || s.mode == H.Complete)
    ensures Total(start, s, log, data, p) == H.Result(H.Going(s), log, p)
  {
    assert log + [] == log;
  }

  // ---------- texts ----------

  datatype Kind = Name | Value | Body

  function TextEvents(kind: Kind, text: bytes): (e: seq<H.Event>)
    ensures |e| == |text|
  {
    match kind
    case Name => seq(|text|, i requires 0 <= i < |text| => H.NameByte(text[i]))
    case Value => seq(|text|, i requires 0 <= i < |text| => H.ValueByte(text[i]))
    case Body => seq(|text|, i requires 0 <= i < |text| => H.BodyByte(text[i]))
  }

  function TextEvent(kind: Kind, c: byte): H.Event {
    match kind
    case Name => H.NameByte(c)
    case Value => H.ValueByte(c)
    case Body => H.BodyByte(c)
  }

  /** A run of steps that each pass over one byte of text and leave the state alone. */
  lemma {:induction false} TotalSame(start: H.StartLine, s: H.State, log: seq<H.Event>, data: bytes, kind: Kind,
                                     mark: nat, p: nat)
    requires H.Valid(s) && mark <= p < |data| && s.mode != H.Complete
    requires H.StepByte(start, s, data[p]) == H.Taken(s, [TextEvent(kind, data[p])])
    ensures Total(start, s, log + TextEvents(kind, data[mark..p]), data, p)
         == Total(start, s, log + TextEvents(kind, data[mark..p + 1]), data, p + 1)
  {
    hide Total, H.StepByte;
    TotalTaken(start, s, log + TextEvents(kind, data[mark..p]), data, p);
    TextStep(kind, data, mark, p);
    assert (log + TextEvents(kind, data[mark..p])) + [TextEvent(kind, data[p])]
        == log + (TextEvents(kind, data[mark..p]) + [TextEvent(kind, data[p])]);
  }

  lemma TextStep(kind: Kind, data: bytes, mark: nat, p: nat)
    requires mark <= p < |data|
    ensures TextEvents(kind, data[mark..p + 1]) == TextEvents(kind, data[mark..p]) + [TextEvent(kind, data[p])]
  {
    assert data[mark..p + 1] == data[mark..p] + [data[p]];
  }

  /** Body data is taken in bulk: 'n' bytes at once, if that many are outstanding. */
  lemma {:induction false} TotalBulk(start: H.StartLine, s: H.State, log: seq<H.Event>, data: bytes, p: nat, n: nat)
    requires H.Valid(s) && (s.mode == H.ChunkData || s.mode == H.BodyIdentity)
    requires p + n <= |data| && 1 <= n <= s.length
    ensures H.Valid(AfterBulk(s, n))
    ensures Total(start, s, log, data, p)
         == Total(start, AfterBulk(s, n), log + TextEvents(Body, data[p..p + n]) + AtLast(s, n), data, p + n)
    decreases n
  {
    hide Total;
    TotalTaken(start, s, log, data, p);
    var step := H.StepByte(start, s, data[p]);
    assert data[p..p + n] == [data[p]] + data[p + 1..p + n];
    if n == 1 {
      assert data[p + 1..p + n] == [];
      assert TextEvents(Body, [data[p]]) == [H.BodyByte(data[p])];
      assert log + step.events == log + TextEvents(Body, data[p..p + n]) + AtLast(s, n);
    } else {
      TotalBulk(start, step.state, log + step.events, data, p + 1, n - 1);
      BulkText(log, data[p], data[p + 1..p + n]);
    }
  }

  lemma BulkText(log: seq<H.Event>, c: byte, text: bytes)
    ensures log + [H.BodyByte(c)] + TextEvents(Body, text) == log + TextEvents(Body, [c] + text)
  {
  }

  /** The last byte of a body with a known length completes the message. */
  function AtLast(s: H.State, n: nat): seq<H.Event> {
    if s.mode == H.BodyIdentity && n == s.length then [H.MessageComplete] else []
  }

  function AfterBulk(s: H.State, n: nat): H.State
    requires 1 <= n <= s.length
  {
    if n < s.length then s.(length := s.length - n)
    else s.(length := 0, mode := if s.mode == H.ChunkData then H.ChunkDataAlmostDone else H.Complete)
  }

  // ---------- what is reported ----------

  /** What a call over a buffer amounts to when 'base' callbacks were made before it, and its first mode. */
  datatype Goal = Goal(result: H.Result, base: nat, first: H.Mode)

  /** The part of the call itself. */
  function CallOf(goal: Goal): H.Result
    requires goal.base <= |goal.result.events|
  {
    H.Result(goal.result.outcome, goal.result.events[goal.base..], goal.result.consumed)
  }

  predicate IsPending(mode: H.Mode, e: H.Event) {
    || (mode == H.Field && e.NameByte?) || (mode == H.Value && e.ValueByte?)
    || (mode == H.ChunkDataAlmostDone && e.BodyByte?)
  }

  /** The callbacks of a call that fails: all but the text at the end, which was still pending. */
  function Reported(mode: H.Mode, events: seq<H.Event>): (r: seq<H.Event>)
    ensures r <= events
  {
    if events != [] && IsPending(mode, events[|events| - 1]) then Reported(mode, events[..|events| - 1])
    else events
  }

  predicate IsTextOf(kind: Kind, mode: H.Mode) {
    match kind
    case Name => mode == H.Field
    case Value => mode == H.Value
    case Body => mode == H.ChunkDataAlmostDone
  }

  /** What has been reported in this call does not end with text, unless its last piece was just closed. */
  ghost predicate Tidy(log: seq<H.Event>, base: nat, mode: H.Mode) {
    && base <= |log|
    && (base < |log| ==>
          var e := log[|log| - 1];
          !e.NameByte? && !e.ValueByte? && (e.BodyByte? ==> mode == H.ChunkDataDone))
  }

  lemma {:induction false} ReportedText(mode: H.Mode, since: seq<H.Event>, kind: Kind, text: bytes)
    requires IsTextOf(kind, mode)
    requires since == [] || !IsPending(mode, since[|since| - 1])
    ensures Reported(mode, since + TextEvents(kind, text)) == since
    decreases |text|
  {
    if text == [] {
      assert since + TextEvents(kind, text) == since;
    } else {
      var n := |text| - 1;
      ReportedText(mode, since, kind, text[..n]);
      TextStep(kind, text, 0, n);
      assert text[0..n + 1] == text && text[0..n] == text[..n];
      hide TextEvents;
      var front := since + TextEvents(kind, text[..n]);
      assert since + TextEvents(kind, text) == front + [TextEvent(kind, text[n])];
      assert (front + [TextEvent(kind, text[n])])[..|front|] == front;
    }
  }

  // ---------- beyond the limit ----------

  /** An inner loop over a name or a value goes on regardless of the limit: where it stops by itself, at the end of
      the buffer if nothing stops it, and the error of the byte that stops it, if that is one. */
  datatype Stop = Stop(at: nat, error: Option<H.Error>)

  function InnerStop(start: H.StartLine, s: H.State, data: bytes, p: nat): (r: Stop)
    requires H.Sound(s) && s.mode in {H.Field, H.Value} && p <= |data|
    ensures p <= r.at <= |data|
    decreases |data| - p
  {
    if p == |data| then Stop(p, None)
    else
      match H.StepCounted(start, s, data[p])
      case Refused(e, _) => Stop(p, Some(e))
      case Taken(s', _) => if s'.mode == s.mode then InnerStop(start, s', data, p + 1) else Stop(p, None)
  }

  /** Whether the limit was crossed inside an inner loop: then the loop has passed some text in this call, besides
      the byte with which a name or value begins. */
  predicate Inside(first: H.Mode, r: H.Result) {
    && r.outcome.state.mode in {H.Field, H.Value}
    && var mode := r.outcome.state.mode;
       var pending := |r.events| - |Reported(mode, r.events)|;
       pending > if mode == first && pending == r.consumed then 0 else 1
  }

  /** A call in which the machine meets the limit, as 'r' says.  It fails as the machine does, unless it is inside an
      inner loop: then at the byte where that loop stops, with the error met there, if any; a value that ends with
      CR has been reported by then.  In a buffer larger than the limit the loop over a value does not see every
      byte, and may stop anywhere behind the limit. */
  ghost predicate OverflowFits(start: H.StartLine, first: H.Mode, data: bytes, r: H.Result, err: Option<H.Error>,
                               since: seq<H.Event>, consumed: nat)
    requires H.Sound(r.outcome.state) && r.consumed <= |data|
  {
    var s, done := r.outcome.state, Reported(r.outcome.state.mode, r.events);
    if !Inside(first, r) then err == Some(H.HeaderOverflow) && consumed == r.consumed && since == done
    else if s.mode == H.Value && |data| > start.limit then
      && consumed >= r.consumed && done <= since
      && err in {Some(H.HeaderOverflow), Some(H.InvalidHeaderToken), Some(H.InvalidContentLength)}
    else
      var stop := InnerStop(start, s.(nread := 0), data, r.consumed);
      && consumed == (if stop.at == |data| then |data| - 1 else stop.at)
      && err == Some(if s.mode == H.Value && stop.error.Some? then stop.error.value else H.HeaderOverflow)
      && since == if s.mode == H.Value && stop.at < |data| && data[stop.at] == CR
                  then r.events + TextEvents(Value, data[r.consumed..stop.at]) + [H.ValueEnd]
                  else done
  }

  /** The call has failed: at the byte that the machine refuses, with its error and its callbacks except for pending
      text, or as above. */
  ghost predicate Failure(start: H.StartLine, data: bytes, err: Option<H.Error>, log: seq<H.Event>, goal: Goal,
                          p: nat) {
    var r := goal.result;
    && r.outcome.Failed? && H.Sound(r.outcome.state) && r.consumed <= |data| && goal.base <= |r.events|
    && goal.base <= |log| && log[..goal.base] == r.events[..goal.base]
    && if r.outcome.error == H.HeaderOverflow
       then OverflowFits(start, goal.first, data, CallOf(goal), err, log[goal.base..], p)
       else
         && err == Some(r.outcome.error) && r.consumed == p
         && log[goal.base..] == Reported(r.outcome.state.mode, r.events[goal.base..])
  }

  /** The callbacks of the call so far, with pending text. */
  lemma {:induction false} CallWithText(mode: H.Mode, log: seq<H.Event>, kind: Kind, text: bytes, base: nat)
    requires Tidy(log, base, mode) && IsTextOf(kind, mode)
    ensures var all := log + TextEvents(kind, text);
            && all[..base] == log[..base] && all[base..] == log[base..] + TextEvents(kind, text)
            && Reported(mode, all[base..]) == log[base..]
  {
    hide Reported;
    var since := log[base..];
    assert since != [] ==> since[|since| - 1] == log[|log| - 1];
    ReportedText(mode, since, kind, text);
    var all := log + TextEvents(kind, text);
    assert all[base..] == since + TextEvents(kind, text);
  }

  lemma {:induction false} FailsWithText(start: H.StartLine, e: H.Error, s: H.State, log: seq<H.Event>, kind: Kind,
                                         mark: nat, goal: Goal, data: bytes, p: nat)
    requires mark <= p <= |data| && H.Sound(s)
    requires goal.result == H.Result(H.Failed(e, s), log + TextEvents(kind, data[mark..p]), p)
    requires Tidy(log, goal.base, s.mode) && IsTextOf(kind, s.mode) && e != H.HeaderOverflow
    ensures Failure(start, data, Some(e), log, goal, p)
  {
    hide Reported, TextEvents;
    CallWithText(s.mode, log, kind, data[mark..p], goal.base);
  }

  /** A byte that is refused where no text is read; it may have ended an empty value. */
  lemma {:induction false} FailsWithoutText(start: H.StartLine, e: H.Error, s: H.State, log: seq<H.Event>,
                                            events: seq<H.Event>, goal: Goal, data: bytes, p: nat)
    requires p <= |data| && H.Sound(s) && goal.result == H.Result(H.Failed(e, s), log + events, p)
    requires Tidy(log, goal.base, s.mode) && s.mode != H.Field && s.mode != H.Value
    requires forall event | event in events :: event == H.ValueEnd
    requires e == H.HeaderOverflow ==> events == []
    ensures Failure(start, data, Some(e), log + events, goal, p)
  {
    var all := log + events;
    var since := all[goal.base..];
    assert since == log[goal.base..] + events;
    assert since != [] ==> since[|since| - 1] == all[|all| - 1];
    assert all[..goal.base] == log[..goal.base];
    if events != [] {
      assert all[|all| - 1] == events[|events| - 1] && events[|events| - 1] in events;
    } else {
      assert all == log;
      assert since != [] ==> goal.base < |log| && since[|since| - 1] == log[|log| - 1];
    }
    assert since == [] || !IsPending(s.mode, since[|since| - 1]);
    assert Reported(s.mode, since) == since;
    hide Reported, OverflowFits, Tidy;
    assert CallOf(goal).events == since;
    if e == H.HeaderOverflow {
      OverflowOutside(start, goal.first, data, CallOf(goal));
    }
  }

  lemma OverflowOutside(start: H.StartLine, first: H.Mode, data: bytes, r: H.Result)
    requires H.Sound(r.outcome.state) && r.consumed <= |data| && !Inside(first, r)
    ensures OverflowFits(start, first, data, r, Some(H.HeaderOverflow), Reported(r.outcome.state.mode, r.events),
                         r.consumed)
  {
  }

  /** Where a round of the loop begins that is inside a text: at the beginning of the buffer, or behind the first byte
      of the text. */
  predicate RoundAt(first: H.Mode, mode: H.Mode, mark: nat, p: nat) {
    if p == mark then p == 0 && first == mode else p == mark + 1 && (mark == 0 ==> first != mode)
  }

  /** The first byte of a round is one too many. */
  lemma {:induction false} FailsAtRound(start: H.StartLine, s: H.State, log: seq<H.Event>, kind: Kind, mark: nat,
                                        goal: Goal, data: bytes, p: nat)
    requires mark <= p <= |data| && H.Sound(s) && s.mode in {H.Field, H.Value} && RoundAt(goal.first, s.mode, mark, p)
    requires goal.result == H.Result(H.Failed(H.HeaderOverflow, s), log + TextEvents(kind, data[mark..p]), p)
    requires Tidy(log, goal.base, s.mode) && IsTextOf(kind, s.mode)
    ensures Failure(start, data, Some(H.HeaderOverflow), log, goal, p)
  {
    hide Reported;
    CallWithText(s.mode, log, kind, data[mark..p], goal.base);
  }

  /** The limit has been crossed in the inner loop that began at 'from' and now stands at 'p'. */
  ghost predicate Overflown(start: H.StartLine, s: H.State, log: seq<H.Event>, kind: Kind, mark: nat, from: nat,
                            goal: Goal, data: bytes, p: nat) {
    var r := goal.result;
    var q := r.consumed;
    && H.Sound(s) && s.mode in {H.Field, H.Value}
    && r.outcome.Failed? && r.outcome.error == H.HeaderOverflow
    && H.Sound(r.outcome.state) && r.outcome.state.mode == s.mode
    && mark <= from < q <= p <= |data| && q < |data| && RoundAt(goal.first, s.mode, mark, from)
    && r.events == log + TextEvents(kind, data[mark..q])
    && (s.mode == H.Field || |data| <= start.limit ==>
          InnerStop(start, r.outcome.state.(nread := 0), data, q) == InnerStop(start, s.(nread := 0), data, p))
  }

  lemma {:induction false} OverflownCall(start: H.StartLine, s: H.State, log: seq<H.Event>, kind: Kind, mark: nat,
                                         from: nat, goal: Goal, data: bytes, p: nat)
    requires Overflown(start, s, log, kind, mark, from, goal, data, p)
    requires Tidy(log, goal.base, s.mode) && IsTextOf(kind, s.mode)
    ensures goal.base <= |log| && goal.base <= |goal.result.events|
    ensures log[..goal.base] == goal.result.events[..goal.base]
    ensures Reported(s.mode, CallOf(goal).events) == log[goal.base..] && Inside(goal.first, CallOf(goal))
    ensures CallOf(goal).events == log[goal.base..] + TextEvents(kind, data[mark..goal.result.consumed])
  {
    hide Reported, InnerStop;
    CallWithText(s.mode, log, kind, data[mark..goal.result.consumed], goal.base);
  }

  /** The loop stops at the end of the buffer, ... */
  lemma {:induction false} FailsAtEnd(start: H.StartLine, s: H.State, log: seq<H.Event>, kind: Kind, mark: nat,
                                      from: nat, goal: Goal, data: bytes)
    requires Overflown(start, s, log, kind, mark, from, goal, data, |data|)
    requires Tidy(log, goal.base, s.mode) && IsTextOf(kind, s.mode)
    ensures Failure(start, data, Some(H.HeaderOverflow), log, goal, |data| - 1)
  {
    hide Reported, Inside, TextEvents, H.StepCounted, H.Sound, Tidy, RoundAt, IsTextOf;
    OverflownCall(start, s, log, kind, mark, from, goal, data, |data|);
    H.SoundWith(s, 0);
    assert InnerStop(start, s.(nread := 0), data, |data|) == Stop(|data|, None);
  }

  /** ... or at a byte that is not text. */
  lemma {:induction false} FailsAtStop(start: H.StartLine, s: H.State, log: seq<H.Event>, kind: Kind, mark: nat,
                                       from: nat, goal: Goal, data: bytes, p: nat, step: H.Step, e: H.Error)
    requires Overflown(start, s, log, kind, mark, from, goal, data, p) && p < |data|
    requires Tidy(log, goal.base, s.mode) && IsTextOf(kind, s.mode)
    requires step == H.StepCounted(start, s.(nread := 0), data[p])
    requires step.Taken? ==> step.state.mode != s.mode
    requires e == if s.mode == H.Value && step.Refused? then step.error else H.HeaderOverflow
    requires e in {H.HeaderOverflow, H.InvalidHeaderToken, H.InvalidContentLength}
    requires s.mode == H.Value ==> data[p] != CR
    ensures Failure(start, data, Some(e), log, goal, p)
  {
    hide Reported, Inside, TextEvents, H.StepCounted, H.Sound, Tidy, RoundAt, IsTextOf;
    OverflownCall(start, s, log, kind, mark, from, goal, data, p);
    H.SoundWith(s, 0);
    assert InnerStop(start, s.(nread := 0), data, p) == Stop(p, if step.Refused? then Some(step.error) else None);
  }

  /** At a CR the value has been reported by then. */
  lemma {:induction false} FailsAtCr(start: H.StartLine, s: H.State, log: seq<H.Event>, mark: nat, from: nat,
                                     goal: Goal, data: bytes, p: nat, log': seq<H.Event>)
    requires Overflown(start, s, log, Value, mark, from, goal, data, p) && p < |data| && data[p] == CR
    requires Tidy(log, goal.base, s.mode) && s.mode == H.Value
    requires H.StepCounted(start, s.(nread := 0), data[p]).Taken?
    requires H.StepCounted(start, s.(nread := 0), data[p]).state.mode != s.mode
    requires log' == log + TextEvents(Value, data[mark..p]) + [H.ValueEnd]
    ensures Failure(start, data, Some(H.HeaderOverflow), log', goal, p)
  {
    hide Reported, Inside, TextEvents, H.StepCounted, H.Sound, Tidy, RoundAt, IsTextOf;
    assert IsTextOf(Value, s.mode) by { ValueIsText(); }
    OverflownCall(start, s, log, Value, mark, from, goal, data, p);
    var q := goal.result.consumed;
    TextParts(Value, data, mark, q, p);
    H.SoundWith(s, 0);
    assert InnerStop(start, s.(nread := 0), data, p) == Stop(p, None);
    LogWithValue(log, goal.base, TextEvents(Value, data[mark..q]), TextEvents(Value, data[q..p]), log');
    hide InnerStop;
    var since := log'[goal.base..];
    CallBehindCr(start, s, log, mark, from, goal, data, p, since);
  }

  lemma ValueIsText()
    ensures IsTextOf(Value, H.Value)
  {
  }

  lemma LogWithValue(log: seq<H.Event>, base: nat, t: seq<H.Event>, u: seq<H.Event>, log': seq<H.Event>)
    requires base <= |log| && log' == log + (t + u) + [H.ValueEnd]
    ensures log'[..base] == log[..base] && log'[base..] == log[base..] + t + u + [H.ValueEnd]
    ensures log[base..] <= log'[base..]
  {
  }

  lemma CallBehindCr(start: H.StartLine, s: H.State, log: seq<H.Event>, mark: nat, from: nat, goal: Goal, data: bytes,
                     p: nat, since: seq<H.Event>)
    requires Overflown(start, s, log, Value, mark, from, goal, data, p) && p < |data| && data[p] == CR
    requires s.mode == H.Value && goal.base <= |log| && goal.base <= |goal.result.events|
    requires Inside(goal.first, CallOf(goal)) && InnerStop(start, s.(nread := 0), data, p) == Stop(p, None)
    requires Reported(s.mode, CallOf(goal).events) == log[goal.base..] <= since
    requires since == CallOf(goal).events + TextEvents(Value, data[goal.result.consumed..p]) + [H.ValueEnd]
    ensures OverflowFits(start, goal.first, data, CallOf(goal), Some(H.HeaderOverflow), since, p)
  {
    hide Reported, Inside, TextEvents, InnerStop, RoundAt;
  }

  lemma TextParts(kind: Kind, data: bytes, mark: nat, q: nat, p: nat)
    requires mark <= q <= p <= |data|
    ensures TextEvents(kind, data[mark..p]) == TextEvents(kind, data[mark..q]) + TextEvents(kind, data[q..p])
  {
    assert data[mark..p] == data[mark..q] + data[q..p];
  }

  // ---------- inside a name or a value ----------

  /** The inner loop that began at 'from' stands at 'p', and text is pending since 'mark'.  The count of header bytes
      is 'n' there, although it is brought up to date only at the end of the loop.  As long as it is within the limit
      the call amounts to 'goal' from here; beyond it, the call must fail where the loop stops. */
  ghost predicate InText(start: H.StartLine, s: H.State, log: seq<H.Event>, kind: Kind, mark: nat, from: nat, n: nat,
                         goal: Goal, data: bytes, p: nat) {
    && H.Sound(s) && s.mode in {H.Field, H.Value} && IsTextOf(kind, s.mode)
    && mark <= from <= p <= |data| && Tidy(log, goal.base, s.mode)
    && RoundAt(goal.first, s.mode, mark, from) && n < start.limit + (p - from)
    && if n <= start.limit
       then Total(start, s.(nread := n), log + TextEvents(kind, data[mark..p]), data, p) == goal.result
       else Overflown(start, s, log, kind, mark, from, goal, data, p)
  }

  lemma {:induction false} EnterText(start: H.StartLine, s: H.State, log: seq<H.Event>, kind: Kind, mark: nat, m: nat,
                                     goal: Goal, data: bytes, p: nat)
    requires H.Valid(s) && s.mode in {H.Field, H.Value} && IsTextOf(kind, s.mode)
    requires mark <= p <= |data| && Tidy(log, goal.base, s.mode) && RoundAt(goal.first, s.mode, mark, p)
    requires Total(start, s, log + TextEvents(kind, data[mark..p]), data, p) == goal.result
    requires s.nread < start.limit
    ensures InText(start, s.(nread := m), log, kind, mark, p, s.nread, goal, data, p)
  {
    hide Total;
    assert s.(nread := m).(nread := s.nread) == s;
  }

  /** At the end of the buffer the loop is left, or the call fails. */
  lemma {:induction false} LeaveText(start: H.StartLine, s: H.State, log: seq<H.Event>, kind: Kind, mark: nat,
                                     from: nat, goal: Goal, data: bytes, p: nat, n: nat)
    requires InText(start, s, log, kind, mark, from, n, goal, data, p) && p == |data|
    ensures H.Valid(s.(nread := n)) && mark <= p && Tidy(log, goal.base, s.mode)
    ensures if n <= start.limit
            then Total(start, s.(nread := n), log + TextEvents(kind, data[mark..p]), data, p) == goal.result
            else Failure(start, data, Some(H.HeaderOverflow), log, goal, p - 1)
  {
    if n > start.limit {
      FailsAtEnd(start, s, log, kind, mark, from, goal, data);
    }
    hide Total, Overflown, Failure, Tidy, TextEvents;
  }

  /** One byte of text is passed. */
  lemma {:induction false} PassByte(start: H.StartLine, s: H.State, s': H.State, log: seq<H.Event>, kind: Kind,
                                    mark: nat, from: nat, n: nat, goal: Goal, data: bytes, p: nat)
    requires InText(start, s, log, kind, mark, from, n, goal, data, p) && p < |data|
    requires s'.mode == s.mode && H.Sound(s')
    requires H.StepCounted(start, s.(nread := n + 1), data[p])
          == H.Taken(s'.(nread := n + 1), [TextEvent(kind, data[p])])
    requires H.StepCounted(start, s.(nread := 0), data[p]) == H.Taken(s'.(nread := 0), [TextEvent(kind, data[p])])
    ensures InText(start, s', log, kind, mark, from, n + 1, goal, data, p + 1)
  {
    hide Total, H.StepCounted, H.Sound, Tidy, TextEvents, RoundAt;
    if n < start.limit {
      PassWithin(start, s, s', log, kind, mark, n, goal, data, p);
    } else {
      CrossLimit(start, s, log, kind, mark, from, n, goal, data, p);
      H.SoundWith(s, 0);
      H.SoundWith(s', 0);
      assert InnerStop(start, s.(nread := 0), data, p) == InnerStop(start, s'.(nread := 0), data, p + 1);
    }
  }

  lemma {:induction false} PassWithin(start: H.StartLine, s: H.State, s': H.State, log: seq<H.Event>, kind: Kind,
                                      mark: nat, n: nat, goal: Goal, data: bytes, p: nat)
    requires H.Sound(s) && s.mode in {H.Field, H.Value} && mark <= p < |data| && n < start.limit
    requires Total(start, s.(nread := n), log + TextEvents(kind, data[mark..p]), data, p) == goal.result
    requires s'.mode == s.mode && H.Sound(s')
    requires H.StepCounted(start, s.(nread := n + 1), data[p])
          == H.Taken(s'.(nread := n + 1), [TextEvent(kind, data[p])])
    ensures Total(start, s'.(nread := n + 1), log + TextEvents(kind, data[mark..p + 1]), data, p + 1) == goal.result
  {
    hide Total, H.StepCounted;
    TotalTaken(start, s.(nread := n), log + TextEvents(kind, data[mark..p]), data, p);
    TextStep(kind, data, mark, p);
    assert (log + TextEvents(kind, data[mark..p])) + [TextEvent(kind, data[p])]
        == log + (TextEvents(kind, data[mark..p]) + [TextEvent(kind, data[p])]);
  }

  /** The byte after the limit is one too many, whatever it is. */
  lemma {:induction false} CrossLimit(start: H.StartLine, s: H.State, log: seq<H.Event>, kind: Kind, mark: nat,
                                      from: nat, n: nat, goal: Goal, data: bytes, p: nat)
    requires InText(start, s, log, kind, mark, from, n, goal, data, p) && p < |data| && n >= start.limit
    ensures Overflown(start, s, log, kind, mark, from, goal, data, p) && Tidy(log, goal.base, s.mode)
  {
    if n == start.limit {
      hide Total, H.StepCounted, InnerStop;
      TotalRefused(start, s.(nread := n), log + TextEvents(kind, data[mark..p]), data, p);
      assert log + TextEvents(kind, data[mark..p]) + [] == log + TextEvents(kind, data[mark..p]);
      assert s.(nread := n).(nread := 0) == s.(nread := 0);
    }
  }

  /** A byte that does not belong into the text. */
  lemma {:induction false} StopAt(start: H.StartLine, s: H.State, log: seq<H.Event>, kind: Kind, mark: nat,
                                  from: nat, n: nat, goal: Goal, data: bytes, p: nat, e: H.Error)
    requires InText(start, s, log, kind, mark, from, n, goal, data, p) && p < |data|
    requires H.StepCounted(start, s.(nread := n + 1), data[p]) == H.Refused(e, [])
    requires H.StepCounted(start, s.(nread := 0), data[p]) == H.Refused(e, [])
    requires e in {H.InvalidHeaderToken, H.InvalidContentLength}
    requires n >= start.limit ==> s.mode == H.Value && data[p] != CR
    ensures Failure(start, data, Some(e), log, goal, p)
  {
    hide Total, H.StepCounted, Failure, Tidy, TextEvents, RoundAt;
    if n < start.limit {
      TotalRefused(start, s.(nread := n), log + TextEvents(kind, data[mark..p]), data, p);
      assert log + TextEvents(kind, data[mark..p]) + [] == log + TextEvents(kind, data[mark..p]);
      FailsWithText(start, e, s.(nread := n), log, kind, mark, goal, data, p);
    } else {
      CrossLimit(start, s, log, kind, mark, from, n, goal, data, p);
      FailsAtStop(start, s, log, kind, mark, from, goal, data, p, H.Refused(e, []), e);
    }
  }

  /** The byte that ends a text, when it is within the limit. */
  lemma {:induction false} EndText(start: H.StartLine, s: H.State, s': H.State, log: seq<H.Event>, kind: Kind,
                                   mark: nat, from: nat, n: nat, end: H.Event, goal: Goal, data: bytes, p: nat)
    requires InText(start, s, log, kind, mark, from, n, goal, data, p) && p < |data| && n < start.limit
    requires H.StepCounted(start, s.(nread := n + 1), data[p]) == H.Taken(s', [end])
    ensures H.Valid(s') && Tidy(log, goal.base, s.mode)
    ensures Total(start, s', log + TextEvents(kind, data[mark..p]) + [end], data, p + 1) == goal.result
  {
    hide Total, H.StepCounted;
    TotalTaken(start, s.(nread := n), log + TextEvents(kind, data[mark..p]), data, p);
  }

  /** The end of a value. */
  lemma {:induction false} EndValue(start: H.StartLine, s: H.State, log: seq<H.Event>, mark: nat, from: nat, n: nat,
                                    goal: Goal, data: bytes, p: nat)
    requires InText(start, s, log, Value, mark, from, n, goal, data, p)
    requires p < |data| && (data[p] == CR || data[p] == LF)
    ensures mark <= p
    ensures var s' := s.(mode := if data[p] == CR then H.HeaderAlmostDone else H.ValueLws, nread := n + 1);
            var log' := log + TextEvents(Value, data[mark..p]) + [H.ValueEnd];
            if n < start.limit
            then H.Valid(s') && Tidy(log', goal.base, s'.mode) && Total(start, s', log', data, p + 1) == goal.result
            else Failure(start, data, Some(H.HeaderOverflow), if data[p] == CR then log' else log, goal, p)
  {
    hide Total, H.StepCounted, H.NextOfValue, Overflown, Failure, Reported, TextEvents, RoundAt, H.Run;
    var s' := s.(mode := if data[p] == CR then H.HeaderAlmostDone else H.ValueLws, nread := n + 1);
    EndOfValue(start, s, n + 1, data[p]);
    EndOfValue(start, s, 0, data[p]);
    if n < start.limit {
      EndText(start, s, s', log, Value, mark, from, n, H.ValueEnd, goal, data, p);
    } else {
      CrossLimit(start, s, log, Value, mark, from, n, goal, data, p);
      if data[p] == CR {
        FailsAtCr(start, s, log, mark, from, goal, data, p, log + TextEvents(Value, data[mark..p]) + [H.ValueEnd]);
      } else {
        FailsAtStop(start, s, log, Value, mark, from, goal, data, p, H.StepCounted(start, s.(nread := 0), data[p]),
                    H.HeaderOverflow);
      }
    }
  }

  // ---------- the parser ----------

  class Parser {
    const start: H.StartLine
    var mode: H.Mode
    var line: H.Line
    var index: nat
    var flags: H.Flags
    var length: nat
    var upgrade: bool
    var nread: nat
    var err: Option<H.Error>
    /** The callbacks made so far. */
    var log: seq<H.Event>

    function Abs(): H.State
      reads this
    {
      H.State(mode, line, index, flags, length, upgrade, nread)
    }

    constructor (startLine: H.StartLine)
      ensures start == startLine && Abs() == H.AfterStartLine(startLine) && H.Valid(Abs()) && err == None && log == []
    {
      start := startLine;
      mode, line, index, flags := H.FieldStart, H.General, 0, H.NO_FLAGS;
      length, upgrade, nread, err, log := H.ULLONG_MAX, false, startLine.taken, None, [];
    }

    /** Nothing is pending: the call so far amounts to 'goal'. */
    ghost predicate Stands(goal: Goal, data: bytes, p: nat)
      reads this
    {
      && err == None && H.Valid(Abs()) && p <= |data| && Tidy(log, goal.base, mode)
      && Total(start, Abs(), log, data, p) == goal.result
    }

    /** A text is pending since 'mark'. */
    ghost predicate StandsIn(kind: Kind, mark: nat, goal: Goal, data: bytes, p: nat)
      reads this
    {
      && err == None && H.Valid(Abs()) && mark <= p <= |data| && Tidy(log, goal.base, mode)
      && Total(start, Abs(), log + TextEvents(kind, data[mark..p]), data, p) == goal.result
    }

    /** Inside the inner loop that began at 'from', with 'n' header bytes up to 'p'. */
    ghost predicate At(kind: Kind, mark: nat, from: nat, n: nat, goal: Goal, data: bytes, p: nat)
      reads this
    {
      err == None && InText(start, Abs(), log, kind, mark, from, n, goal, data, p)
    }

    lemma AtIsSound(kind: Kind, mark: nat, from: nat, n: nat, goal: Goal, data: bytes, p: nat)
      requires At(kind, mark, from, n, goal, data, p)
      ensures H.Sound(Abs()) && IsTextOf(kind, mode) && mark <= p <= |data|
    {
    }

    ghost predicate HasFailed(goal: Goal, data: bytes, p: nat)
      reads this
    {
      err.Some? && Failure(start, data, err, log, goal, p)
    }

    method Fail(e: H.Error, ghost goal: Goal, ghost data: bytes, ghost p: nat)
      requires Failure(start, data, Some(e), log, goal, p)
      modifies this
      ensures HasFailed(goal, data, p)
    {
      err := Some(e);
    }

    method SetState(s: H.State)
      modifies this
      ensures Abs() == s && log == old(log) && err == old(err)
    {
      mode, line, index, flags, length, upgrade := s.mode, s.line, s.index, s.flags, s.length, s.upgrade;
      nread := s.nread;
    }

    /** Adds to the count of header bytes; beyond the limit the call fails. */
    method Count(n: nat, ghost goal: Goal, ghost data: bytes, ghost p: nat) returns (ok: bool)
      requires nread + n > start.limit ==> Failure(start, data, Some(H.HeaderOverflow), log, goal, p)
      modifies this
      ensures ok <==> old(nread) + n <= start.limit
      ensures ok ==> Abs() == old(Abs()).(nread := old(nread) + n) && log == old(log) && err == old(err)
      ensures !ok ==> HasFailed(goal, data, p)
    {
      nread := nread + n;
      if nread > start.limit {
        Fail(H.HeaderOverflow, goal, data, p);
        return false;
      }
      return true;
    }

    /** The inner loop over a header name; a name that is not special is passed over without looking at
        the line state again.  The byte at 'p' has been counted. */
    method Names(data: bytes, p: nat, mark: nat, ghost goal: Goal) returns (ok: bool, p': nat)
      requires nread >= 1 && At(Name, mark, p, nread - 1, goal, data, p) && p < |data|
      modifies this
      ensures ok && mode == H.Field ==> p' == |data| && StandsIn(Name, mark, goal, data, p')
      ensures ok && mode != H.Field ==> mode == H.ValueDiscardWs && p' > p && Stands(goal, data, p')
      ensures !ok ==> HasFailed(goal, data, p')
    {
      hide InText, Tidy, Failure, TextEvents, Total, H.Run, H.StepCounted, H.Sound, H.NextOfName, H.LowerToken;
      p' := p;
      ghost var n0 := nread - 1;
      while p' < |data| && H.IsToken(data[p'])
        invariant p <= p' <= |data| && nread == n0 + 1
        invariant At(Name, mark, p, n0 + (p' - p), goal, data, p')
      {
        AtIsSound(Name, mark, p, n0 + (p' - p), goal, data, p');
        if line == H.General {
          p' := General(data, p', p, mark, n0 + (p' - p), goal);
        } else {
          var c := data[p'];
          PassName(data, p', p, mark, n0 + (p' - p), goal);
          var next := H.NextOfName(line, index + 1, H.LowerToken(c));
          if H.CountsName(line) {
            index := index + 1;
          }
          line := next;
          p' := p' + 1;
        }
      }
      AtIsSound(Name, mark, p, n0 + (p' - p), goal, data, p');
      if p' == |data| {
        LeaveText(start, Abs(), log, Name, mark, p, goal, data, p', n0 + (p' - p));
        ok := Count(p' - 1 - p, goal, data, p' - 1);
        return ok, if ok then p' else p' - 1;
      }
      ok := CloseName(data, p', p, mark, n0 + (p' - p), goal);
      return ok, if ok then p' + 1 else p';
    }

    /** The byte after a header name: a colon, or an error. */
    method CloseName(data: bytes, p: nat, from: nat, mark: nat, ghost n: nat, ghost goal: Goal) returns (ok: bool)
      requires from <= p < |data| && !H.IsToken(data[p])
      requires n + 1 == nread + (p - from) && At(Name, mark, from, n, goal, data, p)
      modifies this
      ensures ok ==> mode == H.ValueDiscardWs && Stands(goal, data, p + 1)
      ensures !ok ==> HasFailed(goal, data, p)
    {
      hide Total, H.StepCounted, Reported, Failure, TextEvents, H.IsToken, Overflown;
      ghost var s := Abs();
      if n >= start.limit {
        CrossLimit(start, s, log, Name, mark, from, n, goal, data, p);
        NameStops(start, s, data[p]);
        FailsAtStop(start, s, log, Name, mark, from, goal, data, p, H.StepCounted(start, s.(nread := 0), data[p]),
                    H.HeaderOverflow);
      }
      ok := Count(p - from, goal, data, p);
      if !ok {
        return false;
      }
      if data[p] == 58 {
        EndOfName(start, s, n + 1);
        EndText(start, s, s.(mode := H.ValueDiscardWs, nread := n + 1), log, Name, mark, from, n, H.NameEnd,
                goal, data, p);
        mode := H.ValueDiscardWs;
        log := log + TextEvents(Name, data[mark..p]) + [H.NameEnd];
        return true;
      }
      NotOfName(start, s, n + 1, data[p]);
      NotOfName(start, s, 0, data[p]);
      StopAt(start, s, log, Name, mark, from, n, goal, data, p, H.InvalidHeaderToken);
      Fail(H.InvalidHeaderToken, goal, data, p);
      return false;
    }

    /** The state after one more character of a name. */
    ghost function AfterNameByte(c: byte): H.State
      reads this
    {
      Abs().(line := H.NextOfName(line, index + 1, H.LowerToken(c)),
             index := if H.CountsName(line) then index + 1 else index)
    }

    lemma NameByteStep(n: nat, c: byte)
      requires H.Sound(Abs()) && mode == H.Field && H.IsToken(c)
      ensures H.Sound(AfterNameByte(c))
      ensures H.StepCounted(start, Abs().(nread := n), c)
           == H.Taken(AfterNameByte(c).(nread := n), [TextEvent(Name, c)])
    {
    }

    lemma PassName(data: bytes, p: nat, from: nat, mark: nat, n: nat, goal: Goal)
      requires At(Name, mark, from, n, goal, data, p) && p < |data| && H.IsToken(data[p])
      ensures InText(start, AfterNameByte(data[p]), log, Name, mark, from, n + 1, goal, data, p + 1)
    {
      AtIsSound(Name, mark, from, n, goal, data, p);
      hide InText, H.Sound, H.StepCounted, H.IsToken;
      NameByteStep(n + 1, data[p]);
      NameByteStep(0, data[p]);
      PassByte(start, Abs(), AfterNameByte(data[p]), log, Name, mark, from, n, goal, data, p);
    }

    /** The fast loop: at least one character, and all that follow. */
    method General(data: bytes, p: nat, ghost from: nat, mark: nat, ghost n: nat, ghost goal: Goal) returns (p': nat)
      requires mode == H.Field && line == H.General && At(Name, mark, from, n, goal, data, p)
      requires p < |data| && H.IsToken(data[p])
      ensures p < p' <= |data| && At(Name, mark, from, n + (p' - p), goal, data, p')
    {
      hide InText, IsTextOf, H.IsToken;
      p' := p;
      var left := |data| - p;
      var pe := p + (if left < start.limit then left else start.limit);
      while p' + 1 < pe && H.IsToken(data[p' + 1])
        invariant p <= p' < |data| && H.IsToken(data[p'])
        invariant At(Name, mark, from, n + (p' - p), goal, data, p')
      {
        PassGeneral(data, p', from, mark, n + (p' - p), goal);
        p' := p' + 1;
      }
      PassGeneral(data, p', from, mark, n + (p' - p), goal);
      p' := p' + 1;
    }

    lemma PassGeneral(data: bytes, p: nat, from: nat, mark: nat, n: nat, goal: Goal)
      requires mode == H.Field && line == H.General && At(Name, mark, from, n, goal, data, p)
      requires p < |data| && H.IsToken(data[p])
      ensures At(Name, mark, from, n + 1, goal, data, p + 1)
    {
      hide InText, H.IsToken;
      GeneralStays(data[p]);
      PassName(data, p, from, mark, n, goal);
    }

    lemma GeneralStays(c: byte)
      requires line == H.General
      ensures AfterNameByte(c) == Abs()
    {
    }

    /** The inner loop over a header value.  The byte at 'p' has been counted. */
    method Values(data: bytes, p: nat, mark: nat, ghost goal: Goal) returns (ok: bool, p': nat)
      requires nread >= 1 && At(Value, mark, p, nread - 1, goal, data, p) && p < |data|
      modifies this
      ensures ok && mode == H.Value ==> p' == |data| && StandsIn(Value, mark, goal, data, p')
      ensures ok && mode != H.Value ==> mode in {H.HeaderAlmostDone, H.ValueLws} && p' > p && Stands(goal, data, p')
      ensures !ok ==> HasFailed(goal, data, p')
    {
      hide InText, Tidy, Failure, TextEvents, Total, H.Run, H.StepCounted, H.Sound, H.NextOfValue, H.IsHeaderChar;
      p' := p;
      ghost var n0 := nread - 1;
      while p' < |data|
        invariant p <= p' <= |data| && nread == n0 + 1
        invariant At(Value, mark, p, n0 + (p' - p), goal, data, p')
      {
        var c := data[p'];
        ghost var n := n0 + (p' - p);
        AtIsSound(Value, mark, p, n, goal, data, p');
        if c == CR || c == LF {
          ok := CloseValue(data, p', p, mark, n, goal);
          return ok, if ok then p' + 1 else p';
        }
        if !H.IsHeaderChar(c) {
          NotOfValue(start, Abs(), n + 1, c);
          NotOfValue(start, Abs(), 0, c);
          StopAt(start, Abs(), log, Value, mark, p, n, goal, data, p', H.InvalidHeaderToken);
          Fail(H.InvalidHeaderToken, goal, data, p');
          return false, p';
        }
        if line == H.General {
          p' := GeneralValue(data, p', p, mark, n, goal);
        } else {
          ValueByteStep(start, Abs(), n + 1, c);
          ValueByteStep(start, Abs(), 0, c);
          var step := H.NextOfValue(Abs(), c);
          if step.Refused? {
            StopAt(start, Abs(), log, Value, mark, p, n, goal, data, p', step.error);
            Fail(step.error, goal, data, p');
            return false, p';
          }
          PassByte(start, Abs(), step.state, log, Value, mark, p, n, goal, data, p');
          SetState(step.state);
          p' := p' + 1;
        }
      }
      AtIsSound(Value, mark, p, n0 + (p' - p), goal, data, p');
      LeaveText(start, Abs(), log, Value, mark, p, goal, data, p', n0 + (p' - p));
      ok := Count(p' - 1 - p, goal, data, p' - 1);
      return ok, if ok then p' else p' - 1;
    }

    /** The end of a header value: a CR is counted after the callback, a lone LF before it. */
    method CloseValue(data: bytes, p: nat, from: nat, mark: nat, ghost n: nat, ghost goal: Goal) returns (ok: bool)
      requires from <= p < |data| && (data[p] == CR || data[p] == LF)
      requires n + 1 == nread + (p - from) && At(Value, mark, from, n, goal, data, p)
      modifies this
      ensures ok ==> mode in {H.HeaderAlmostDone, H.ValueLws} && Stands(goal, data, p + 1)
      ensures !ok ==> HasFailed(goal, data, p)
    {
      hide Total, H.StepCounted, InText, Overflown, Failure, Reported, TextEvents, RoundAt, Tidy, H.Run, H.Sound;
      var c := data[p];
      EndValue(start, Abs(), log, mark, from, n, goal, data, p);
      mode := if c == CR then H.HeaderAlmostDone else H.ValueLws;
      if c == CR {
        log := log + TextEvents(Value, data[mark..p]) + [H.ValueEnd];
      }
      ok := Count(p - from, goal, data, p);
      if c == LF && ok {
        log := log + TextEvents(Value, data[mark..p]) + [H.ValueEnd];
      }
    }

    /** The fast loop: up to the end of the line, to a character that is not allowed, or over as many bytes as
        the limit allows.  In the last case it also passes the next byte unseen, which cannot matter: the bytes
        passed are then too many already. */
    method GeneralValue(data: bytes, p: nat, ghost from: nat, mark: nat, ghost n: nat, ghost goal: Goal)
      returns (p': nat)
      requires mode == H.Value && line == H.General && At(Value, mark, from, n, goal, data, p)
      requires p < |data| && data[p] != CR && data[p] != LF && H.IsHeaderChar(data[p])
      ensures p < p' <= |data| && At(Value, mark, from, n + (p' - p), goal, data, p')
    {
      hide InText, IsTextOf, H.IsHeaderChar;
      p' := p;
      var left := |data| - p;
      var pe := p + (if left < start.limit then left else start.limit);
      while p' < pe && data[p'] != CR && data[p'] != LF && H.IsHeaderChar(data[p'])
        invariant p <= p' <= pe
        invariant p' == p < pe ==> data[p] != CR && data[p] != LF && H.IsHeaderChar(data[p])
        invariant At(Value, mark, from, n + (p' - p), goal, data, p')
      {
        PassGeneralValue(data, p', from, mark, n + (p' - p), goal);
        p' := p' + 1;
      }
      if p' == pe && pe < |data| {
        SkipByte(data, p', from, mark, n + (p' - p), goal);
        p' := p' + 1;
      }
    }

    lemma SkipByte(data: bytes, p: nat, from: nat, mark: nat, n: nat, goal: Goal)
      requires At(Value, mark, from, n, goal, data, p) && p < |data| && n >= start.limit && |data| > start.limit
      ensures At(Value, mark, from, n + 1, goal, data, p + 1)
    {
      CrossLimit(start, Abs(), log, Value, mark, from, n, goal, data, p);
    }

    lemma PassGeneralValue(data: bytes, p: nat, from: nat, mark: nat, n: nat, goal: Goal)
      requires mode == H.Value && line == H.General && At(Value, mark, from, n, goal, data, p)
      requires p < |data| && data[p] != CR && data[p] != LF && H.IsHeaderChar(data[p])
      ensures At(Value, mark, from, n + 1, goal, data, p + 1)
    {
      AtIsSound(Value, mark, from, n, goal, data, p);
      ValueByteStep(start, Abs(), n + 1, data[p]);
      ValueByteStep(start, Abs(), 0, data[p]);
      hide InText, H.Sound, H.StepCounted, H.IsHeaderChar;
      PassByte(start, Abs(), Abs(), log, Value, mark, from, n, goal, data, p);
    }

    /** Body data with a known length: as much as is outstanding and as there is. */
    method Bulk(data: bytes, p: nat, mark: nat, ghost goal: Goal) returns (p': nat, pending: bool)
      requires mode in {H.ChunkData, H.BodyIdentity} && StandsIn(Body, mark, goal, data, p) && p < |data|
      modifies this
      ensures pending ==> mode in {H.ChunkData, H.ChunkDataAlmostDone, H.BodyIdentity}
                          && p < p' && StandsIn(Body, mark, goal, data, p')
                          && (mode != H.ChunkDataAlmostDone ==> p' == |data|)
      ensures !pending ==> mode == H.Complete && p < p' && Stands(goal, data, p')
    {
      hide Total;
      var available := |data| - p;
      var toRead := if length < available then length else available;
      assert length != 0 && length != H.ULLONG_MAX;
      p' := p + toRead;
      ghost var s := Abs();
      TotalBulk(start, s, log + TextEvents(Body, data[mark..p]), data, p, toRead);
      JoinText(log, data, mark, p, p');
      length := length - toRead;
      if length == 0 && mode == H.BodyIdentity {
        log := log + TextEvents(Body, data[mark..p']) + [H.MessageComplete];
        mode := H.Complete;
        return p', false;
      }
      if length == 0 {
        mode := H.ChunkDataAlmostDone;
      }
      assert log + TextEvents(Body, data[mark..p']) + [] == log + TextEvents(Body, data[mark..p']);
      return p', true;
    }

    lemma JoinText(before: seq<H.Event>, data: bytes, mark: nat, p: nat, p': nat)
      requires mark <= p <= p' <= |data|
      ensures before + TextEvents(Body, data[mark..p]) + TextEvents(Body, data[p..p'])
           == before + TextEvents(Body, data[mark..p'])
    {
      assert data[mark..p'] == data[mark..p] + data[p..p'];
    }

    /** Body data up to the end of the connection: everything there is. */
    method UntilEof(data: bytes, p: nat, mark: nat, ghost goal: Goal) returns (p': nat)
      requires mode == H.BodyIdentityEof && StandsIn(Body, mark, goal, data, p) && p < |data|
      ensures p' == |data| && StandsIn(Body, mark, goal, data, p')
    {
      hide Total, H.Valid;
      p' := |data|;
      ghost var q := p;
      while q < |data|
        invariant p <= q <= |data|
        invariant StandsIn(Body, mark, goal, data, q)
      {
        TotalSame(start, Abs(), log, data, Body, mark, q);
        q := q + 1;
      }
    }

    /** The states that take one byte at a time.  A step into a name or a value sets the mark there. */
    method Single(data: bytes, p: nat, ghost s: H.State, ghost goal: Goal) returns (ok: bool)
      requires err == None && p < |data| && H.Valid(s) && Total(start, s, log, data, p) == goal.result
      requires Abs() == if H.CountsBytes(s.mode) then s.(nread := s.nread + 1) else s
      requires H.CountsBytes(s.mode) ==> s.nread < start.limit
      requires Tidy(log, goal.base, mode)
      requires IsSingle(mode)
      modifies this
      ensures ok && mode == H.Field ==> StandsIn(Name, p, goal, data, p + 1)
      ensures ok && mode == H.Value ==> StandsIn(Value, p, goal, data, p + 1)
      ensures ok && mode != H.Field && mode != H.Value ==> Stands(goal, data, p + 1)
      ensures !ok ==> HasFailed(goal, data, p)
    {
      hide Total, H.StepCounted, H.StepBody;
      assert mode == H.ChunkSizeStart ==> nread == 1 && flags.chunked;
      var step := if H.CountsBytes(mode) then H.StepCounted(start, Abs(), data[p]) else H.StepBody(Abs(), data[p]);
      assert step == H.StepByte(start, s, data[p]);
      hide H.StepByte, H.Sound, H.CountsBytes, Tidy, Failure;
      if step.Refused? {
        SingleRefused(start, s, log, goal, data, p);
        log := log + step.events;
        Fail(step.error, goal, data, p);
        return false;
      }
      SingleTaken(start, s, log, goal, data, p);
      SetState(step.state);
      if mode == H.Field || mode == H.Value {
        log := log + step.events[..|step.events| - 1];
      } else {
        log := log + step.events;
      }
      return true;
    }

    /** The text that is pending, if a mark is set. */
    ghost predicate Marked(field: Option<nat>, value: Option<nat>, body: Option<nat>,
                           goal: Goal, data: bytes, p: nat)
      reads this
    {
      match (field, value, body)
      case (None, None, None) => Stands(goal, data, p)
      case (Some(m), None, None) => StandsIn(Name, m, goal, data, p)
      case (None, Some(m), None) => StandsIn(Value, m, goal, data, p)
      case (None, None, Some(m)) => StandsIn(Body, m, goal, data, p)
      case _ => false
    }

    /** Before a byte is looked at: a name or value being read is marked, and nothing else but a body. */
    ghost predicate InStep(field: Option<nat>, value: Option<nat>, body: Option<nat>) reads this {
      && (field.Some? <==> mode == H.Field)
      && (value.Some? <==> mode == H.Value)
      && (body.Some? ==> mode in {H.ChunkData, H.ChunkDataAlmostDone, H.BodyIdentity, H.BodyIdentityEof})
    }

    /** Where a round begins. */
    ghost predicate RoundOk(field: Option<nat>, value: Option<nat>, goal: Goal, p: nat) reads this {
      && (p == 0 ==> mode == goal.first)
      && (field.Some? ==> RoundAt(goal.first, H.Field, field.value, p))
      && (value.Some? ==> RoundAt(goal.first, H.Value, value.value, p))
    }

    /** One round of the loop. */
    method Round(data: bytes, p: nat, f: Option<nat>, v: Option<nat>, b: Option<nat>, ghost goal: Goal)
      returns (ok: bool, p': nat, field: Option<nat>, value: Option<nat>, body: Option<nat>)
      requires Marked(f, v, b, goal, data, p) && InStep(f, v, b) && p < |data| && mode != H.Complete
      requires RoundOk(f, v, goal, p)
      modifies this
      ensures ok ==> p < p' && Marked(field, value, body, goal, data, p')
      ensures ok ==> InStep(field, value, body) && (p' < |data| ==> RoundOk(field, value, goal, p'))
      ensures !ok ==> HasFailed(goal, data, p')
    {
      hide Total, H.Sound, InText, Failure, TextEvents;
      ok, p', field, value, body := true, p + 1, f, v, b;
      ghost var s := Abs();
      if H.CountsBytes(mode) {
        if nread >= start.limit {
          OneTooMany(data, p, f, v, b, goal);
        }
        ok := Count(1, goal, data, p);
        if !ok {
          p' := p;
          return;
        }
      }
      if mode == H.Field {
        EnterText(start, s, log, Name, f.value, nread, goal, data, p);
        ok, p' := Names(data, p, f.value, goal);
        field := if mode == H.Field then f else None;
      } else if mode == H.Value {
        EnterText(start, s, log, Value, v.value, nread, goal, data, p);
        ok, p' := Values(data, p, v.value, goal);
        value := if mode == H.Value then v else None;
      } else if mode in {H.ChunkData, H.BodyIdentity, H.BodyIdentityEof} {
        var mark := if b.Some? then b.value else p;
        NoText(data, p, log);
        body := Some(mark);
        if mode == H.BodyIdentityEof {
          p' := UntilEof(data, p, mark, goal);
        } else {
          var pending;
          p', pending := Bulk(data, p, mark, goal);
          body := if pending then body else None;
        }
      } else if mode == H.ChunkDataAlmostDone && b.Some? {
        ok := EndOfChunk(data, p, b.value, goal);
        p' := if ok then p + 1 else p;
        body := None;
      } else {
        ok := Single(data, p, s, goal);
        p' := if ok then p + 1 else p;
        field := if mode == H.Field then Some(p) else None;
        value := if mode == H.Value then Some(p) else None;
      }
    }

    lemma NoText(data: bytes, p: nat, log: seq<H.Event>)
      requires p <= |data|
      ensures log + TextEvents(Body, data[p..p]) == log
    {
    }

    lemma OneTooMany(data: bytes, p: nat, f: Option<nat>, v: Option<nat>, b: Option<nat>, goal: Goal)
      requires Marked(f, v, b, goal, data, p) && InStep(f, v, b) && RoundOk(f, v, goal, p)
      requires p < |data| && H.CountsBytes(mode) && nread >= start.limit
      ensures Failure(start, data, Some(H.HeaderOverflow), log, goal, p)
    {
      hide Total, Failure, TextEvents, Tidy, H.StepCounted;
      if f.Some? {
        TooManyInText(data, p, Name, f.value, goal);
      } else if v.Some? {
        TooManyInText(data, p, Value, v.value, goal);
      } else {
        TotalRefused(start, Abs(), log, data, p);
        FailsWithoutText(start, H.HeaderOverflow, Abs(), log, [], goal, data, p);
        assert log + [] == log;
      }
    }

    lemma TooManyInText(data: bytes, p: nat, kind: Kind, mark: nat, goal: Goal)
      requires StandsIn(kind, mark, goal, data, p) && IsTextOf(kind, mode) && RoundAt(goal.first, mode, mark, p)
      requires p < |data| && mode in {H.Field, H.Value} && nread >= start.limit
      ensures Failure(start, data, Some(H.HeaderOverflow), log, goal, p)
    {
      hide Total, Failure, TextEvents, Tidy, H.StepCounted, RoundAt;
      var pending := log + TextEvents(kind, data[mark..p]);
      TotalRefused(start, Abs(), pending, data, p);
      assert pending + [] == pending;
      FailsAtRound(start, Abs(), log, kind, mark, goal, data, p);
    }

    /** The CR after the data of a chunk reports the data. */
    method EndOfChunk(data: bytes, p: nat, mark: nat, ghost goal: Goal) returns (ok: bool)
      requires mode == H.ChunkDataAlmostDone && StandsIn(Body, mark, goal, data, p) && p < |data|
      modifies this
      ensures ok ==> mode == H.ChunkDataDone && Stands(goal, data, p + 1)
      ensures !ok ==> HasFailed(goal, data, p)
    {
      hide Total;
      ghost var pending := log + TextEvents(Body, data[mark..p]);
      assert length == 0;
      if data[p] != CR {
        TotalRefused(start, Abs(), pending, data, p);
        assert pending + [] == pending;
        FailsWithText(start, H.StrictViolation, Abs(), log, Body, mark, goal, data, p);
        Fail(H.StrictViolation, goal, data, p);
        return false;
      }
      TotalTaken(start, Abs(), pending, data, p);
      mode := H.ChunkDataDone;
      log := log + TextEvents(Body, data[mark..p]);
      assert log + [] == log;
      return true;
    }

    /** The text that is pending at the end of the buffer; at most one of the three marks is set. */
    method ReportMarked(data: bytes, p: nat, field: Option<nat>, value: Option<nat>, body: Option<nat>,
                        ghost goal: Goal)
      requires Marked(field, value, body, goal, data, p)
      modifies this
      ensures Abs() == old(Abs()) && err == None && H.Valid(Abs())
      ensures p <= |data| && Total(start, Abs(), log, data, p) == goal.result
    {
      hide Total, H.Sound, TextEvents;
      if field.Some? {
        log := log + TextEvents(Name, data[field.value..p]);
      } else if value.Some? {
        log := log + TextEvents(Value, data[value.value..p]);
      } else if body.Some? {
        log := log + TextEvents(Body, data[body.value..p]);
      }
    }

    /** One call over a buffer.  Unless it fails, it has made exactly the callbacks of the machine and ends in its
        state.  It fails if and only if the machine does: at the same byte, for the same reason and with the same
        callbacks except for text that was pending, as long as the header bytes are within the limit; else as
        OverflowFits says. */
    method Execute(data: bytes) returns (consumed: nat)
      requires err == None && H.Valid(Abs()) && mode != H.Complete && |data| > 0
      modifies this
      ensures var r := H.Run(start, old(Abs()), data);
              match r.outcome
              case Going(s) => err == None && Abs() == s && consumed == r.consumed && log == old(log) + r.events
              case Failed(HeaderOverflow, _) =>
                && err.Some? && old(log) <= log
                && OverflowFits(start, old(mode), data, r, err, log[|old(log)|..], consumed)
              case Failed(e, s) =>
                err == Some(e) && consumed == r.consumed && log == old(log) + Reported(s.mode, r.events)
    {
      hide Total, H.Valid, H.Sound, H.Run, TextEvents, Reported, OverflowFits, Failure, RoundAt;
      var p: nat := 0;
      ghost var goal := Goal(Total(start, Abs(), log, data, 0), |log|, mode);
      ghost var call, was := H.Run(start, Abs(), data), log;
      StartOfCall(start, Abs(), log, data, goal);
      var field: Option<nat> := if mode == H.Field then Some(0) else None;
      var value: Option<nat> := if mode == H.Value then Some(0) else None;
      var body: Option<nat> := None;
      RoundsBegin(goal.first);
      while p < |data| && mode != H.Complete
        invariant Marked(field, value, body, goal, data, p) && InStep(field, value, body)
        invariant p < |data| ==> RoundOk(field, value, goal, p)
        decreases |data| - p
      {
        var ok;
        ok, p, field, value, body := Round(data, p, field, value, body, goal);
        if !ok {
          FailedCall(start, data, err, log, goal, p, was);
          return p;
        }
      }
      ReportMarked(data, p, field, value, body, goal);
      TotalEnd(start, Abs(), log, data, p);
      assert log == log[..|was|] + log[|was|..];
      return p;
    }
  }

  /** At the beginning of a call. */
  lemma {:induction false} StartOfCall(start: H.StartLine, s: H.State, log: seq<H.Event>, data: bytes, goal: Goal)
    requires H.Valid(s) && goal == Goal(Total(start, s, log, data, 0), |log|, s.mode)
    ensures goal.base <= |goal.result.events| && CallOf(goal) == H.Run(start, s, data)
    ensures goal.result.events[..goal.base] == log && Tidy(log, goal.base, s.mode)
    ensures data[0..0] == [] && forall kind :: log + TextEvents(kind, []) == log
  {
    hide H.Run, H.Valid;
    assert data[0..] == data;
    var call := H.Run(start, s, data);
    assert (log + call.events)[..|log|] == log && (log + call.events)[|log|..] == call.events;
  }

  lemma RoundsBegin(first: H.Mode)
    ensures RoundAt(first, first, 0, 0)
  {
  }

  /** What a failure says of the call itself. */
  lemma {:induction false} FailedCall(start: H.StartLine, data: bytes, err: Option<H.Error>, log: seq<H.Event>,
                                      goal: Goal, p: nat, was: seq<H.Event>)
    requires Failure(start, data, err, log, goal, p) && goal.result.events[..goal.base] == was
    ensures var r := CallOf(goal);
            && was <= log && r.outcome.Failed?
            && if r.outcome.error == H.HeaderOverflow
               then OverflowFits(start, goal.first, data, r, err, log[|was|..], p)
               else
                 && err == Some(r.outcome.error) && p == r.consumed
                 && log == was + Reported(r.outcome.state.mode, r.events)
  {
    hide Reported, OverflowFits;
    assert log == log[..|was|] + log[|was|..];
  }

  // ---------- many calls ----------

  /** What has become of a message that amounts to 'r': everything, or a failure; 'before' are the callbacks made
      earlier.  A failure leaves out at most some text of the name, value or chunk it met.  When the limit is
      exceeded this much is said only if 'exact'. */
  ghost predicate Outcome(exact: bool, r: H.Result, before: seq<H.Event>, err: Option<H.Error>, s: H.State,
                          log: seq<H.Event>, consumed: nat) {
    match r.outcome
    case Going(t) => err == None && s == t && consumed == r.consumed && log == before + r.events
    case Failed(e, t) =>
      if e == H.HeaderOverflow && !exact then err.Some? && consumed >= r.consumed
      else
        && err == Some(e) && consumed == r.consumed
        && exists n: nat :: n <= |r.events| && log == before + r.events[..n] && AllPending(t.mode, r.events[n..])
  }

  predicate AllPending(mode: H.Mode, events: seq<H.Event>) {
    forall e | e in events :: IsPending(mode, e)
  }

  lemma {:induction false} ReportedIsPrefix(mode: H.Mode, events: seq<H.Event>)
    ensures var n := |Reported(mode, events)|;
            n <= |events| && Reported(mode, events) == events[..n] && AllPending(mode, events[n..])
    decreases |events|
  {
    if events != [] && IsPending(mode, events[|events| - 1]) {
      var front, last := events[..|events| - 1], events[|events| - 1];
      ReportedIsPrefix(mode, front);
      var n := |Reported(mode, front)|;
      assert events[n..] == front[n..] + [last] && events[..n] == front[..n];
    }
  }

  /** From what one call did to what all calls so far did. */
  lemma {:induction false} OutcomeSoFar(exact: bool, before: seq<H.Event>, events: seq<H.Event>, done: nat, r: H.Result,
                                        err: Option<H.Error>, s: H.State, log: seq<H.Event>, consumed: nat)
    requires Outcome(exact, r, before + events, err, s, log, consumed)
    ensures Outcome(exact, H.Prefixed(events, done, r), before, err, s, log, done + consumed)
  {
    hide AllPending;
    Regroup(before, events, r.events);
    if r.outcome.Failed? && (r.outcome.error != H.HeaderOverflow || exact) {
      var mode := r.outcome.state.mode;
      var n: nat :| n <= |r.events| && log == before + events + r.events[..n] && AllPending(mode, r.events[n..]);
      var all, k := events + r.events, |events| + n;
      CutBoth(events, r.events, n);
      Regroup(before, events, r.events[..n]);
    }
  }

  lemma CutBoth<T>(a: seq<T>, b: seq<T>, n: nat)
    requires n <= |b|
    ensures (a + b)[..|a| + n] == a + b[..n] && (a + b)[|a| + n..] == b[n..]
  {
  }

  /** Calls are made until the message is complete or has failed.  Whatever the pieces, the outcome is that of the
      machine on the whole message; beyond the limit it is so when the bytes come one by one. */
  method ExecuteAll(parser: Parser, pieces: seq<bytes>) returns (consumed: nat)
    requires parser.err == None && H.Valid(parser.Abs()) && parser.mode != H.Complete
    requires forall i | 0 <= i < |pieces| :: pieces[i] != []
    modifies parser
    ensures Outcome(OneByOne(pieces), H.Run(parser.start, old(parser.Abs()), Concat(pieces)), old(parser.log),
                    parser.err, parser.Abs(), parser.log, consumed)
  {
    hide H.Run, H.Valid, Outcome, Reported, H.Sound, OverflowFits;
    ghost var before, events := parser.log, [];
    ghost var exact := OneByOne(pieces);
    ghost var whole := H.Run(parser.start, parser.Abs(), Concat(pieces));
    consumed := 0;
    assert pieces[0..] == pieces && before + [] == before && [] + whole.events == whole.events;
    var i := 0;
    while i < |pieces| && parser.mode != H.Complete
      invariant 0 <= i <= |pieces| && parser.err == None && H.Valid(parser.Abs())
      invariant parser.log == before + events
      invariant whole == H.Prefixed(events, consumed, H.Run(parser.start, parser.Abs(), Concat(pieces[i..])))
    {
      ghost var s, was := parser.Abs(), parser.log;
      ghost var first := H.Run(parser.start, s, pieces[i]);
      assert pieces[i..][0] == pieces[i] && pieces[i..][1..] == pieces[i + 1..];
      var c := parser.Execute(pieces[i]);
      ExecuteIsOutcome(parser.start, s, pieces[i], exact, was, parser.err, parser.Abs(), parser.log, c);
      OneMorePiece(exact, parser.start, s, pieces[i], Concat(pieces[i + 1..]), events, consumed, whole, before,
                   parser.err, parser.Abs(), parser.log, c);
      consumed := consumed + c;
      if parser.err != None {
        return;
      }
      events := events + first.events;
      i := i + 1;
    }
    AtTheEnd(parser.start, parser.Abs(), Concat(pieces[i..]));
    assert events + [] == events;
    EndIsOutcome(exact, whole, before, parser.Abs(), parser.log, consumed);
  }

  predicate OneByOne(pieces: seq<bytes>) {
    forall i | 0 <= i < |pieces| :: |pieces[i]| == 1
  }

  /** One more call: it brings the whole message to its end, or the rest of it is still to come. */
  lemma {:induction false} OneMorePiece(exact: bool, start: H.StartLine, s: H.State, piece: bytes, later: bytes,
                                        events: seq<H.Event>, done: nat, whole: H.Result, before: seq<H.Event>,
                                        err: Option<H.Error>, s': H.State, log: seq<H.Event>, c: nat)
    requires H.Valid(s) && whole == H.Prefixed(events, done, H.Run(start, s, piece + later))
    requires Outcome(exact, H.Run(start, s, piece), before + events, err, s', log, c)
    ensures err.Some? ==> Outcome(exact, whole, before, err, s', log, done + c)
    ensures err.None? ==>
              var first := H.Run(start, s, piece);
              && H.Valid(s') && log == before + (events + first.events)
              && whole == H.Prefixed(events + first.events, done + c, H.Run(start, s', later))
  {
    hide H.Run, H.Valid, Outcome;
    var first := H.Run(start, s, piece);
    H.RunAppend(start, s, piece, later);
    if err.Some? {
      FailureStops(exact, first, before + events, err, s', log, c);
      OutcomeSoFar(exact, before, events, done, first, err, s', log, c);
    } else {
      SuccessGoes(exact, first, before + events, s', log, c);
      RunIsValid(start, s, piece);
      if H.Stopped(first) {
        AtTheEnd(start, s', later);
        assert first.events + [] == first.events;
      }
      PrefixedTwice(events, done, first.events, c, H.Run(start, s', later));
      assert before + (events + first.events) == (before + events) + first.events;
    }
  }

  lemma {:induction false} AtTheEnd(start: H.StartLine, s: H.State, input: bytes)
    requires H.Valid(s) && (s.mode == H.Complete || input == [])
    ensures H.Run(start, s, input) == H.Result(H.Going(s), [], 0)
  {
  }

  lemma {:induction false} RunIsValid(start: H.StartLine, s: H.State, input: bytes)
    requires H.Valid(s)
    ensures var r := H.Run(start, s, input); r.outcome.Going? ==> H.Valid(r.outcome.state)
  {
  }

  lemma PrefixedTwice(a: seq<H.Event>, m: nat, b: seq<H.Event>, n: nat, r: H.Result)
    ensures H.Prefixed(a, m, H.Prefixed(b, n, r)) == H.Prefixed(a + b, m + n, r)
  {
    assert a + (b + r.events) == (a + b) + r.events;
  }

  lemma {:induction false} ExecuteIsOutcome(start: H.StartLine, s0: H.State, data: bytes, exact: bool,
                                            before: seq<H.Event>, err: Option<H.Error>, s: H.State,
                                            log: seq<H.Event>, consumed: nat)
    requires H.Valid(s0) && s0.mode != H.Complete && |data| > 0 && (exact ==> |data| == 1)
    requires var r := H.Run(start, s0, data);
             match r.outcome
             case Going(t) => err == None && s == t && consumed == r.consumed && log == before + r.events
             case Failed(HeaderOverflow, _) =>
               && err.Some? && before <= log
               && OverflowFits(start, s0.mode, data, r, err, log[|before|..], consumed)
             case Failed(e, t) =>
               err == Some(e) && consumed == r.consumed && log == before + Reported(t.mode, r.events)
    ensures Outcome(exact, H.Run(start, s0, data), before, err, s, log, consumed)
  {
    hide AllPending, H.Valid, H.StepByte;
    var r := H.Run(start, s0, data);
    if r.outcome.Failed? {
      ReportedIsPrefix(r.outcome.state.mode, r.events);
      if r.outcome.error == H.HeaderOverflow {
        hide H.Run, Reported;
        RefusedIsThere(start, s0, data);
        if exact {
          OneByteFails(start, s0, data);
        }
        assert log == before + log[|before|..];
      }
    }
  }

  /** The byte that is refused is in the buffer. */
  lemma {:induction false} RefusedIsThere(start: H.StartLine, s: H.State, data: bytes)
    requires H.Valid(s) && H.Run(start, s, data).outcome.Failed?
    ensures H.Run(start, s, data).consumed < |data|
    decreases |data|
  {
    hide H.Valid, H.StepByte;
    if data != [] && s.mode != H.Complete && H.StepByte(start, s, data[0]).Taken? {
      H.RunStep(start, s, data);
      RefusedIsThere(start, H.StepByte(start, s, data[0]).state, data[1..]);
    }
  }

  /** A single byte is never inside an inner loop. */
  lemma {:induction false} OneByteFails(start: H.StartLine, s: H.State, data: bytes)
    requires H.Valid(s) && |data| == 1
    requires var o := H.Run(start, s, data).outcome; o.Failed? && o.error == H.HeaderOverflow
    ensures !Inside(s.mode, H.Run(start, s, data))
  {
    RefusedIsThere(start, s, data);
    RefusedAtOnce(start, s, data);
    hide H.Run, H.StepByte, H.Valid;
  }

  lemma {:induction false} RefusedAtOnce(start: H.StartLine, s: H.State, data: bytes)
    requires H.Valid(s) && data != []
    requires var r := H.Run(start, s, data);
             r.outcome.Failed? && r.outcome.error == H.HeaderOverflow && r.consumed == 0
    ensures H.Run(start, s, data).events == [] && s.mode != H.Complete
  {
    if s.mode != H.Complete {
      OverflowIsSilent(start, s, data[0]);
    }
    hide H.StepByte, H.Valid;
  }

  lemma {:induction false} OverflowIsSilent(start: H.StartLine, s: H.State, c: byte)
    requires H.Valid(s) && s.mode != H.Complete
    ensures var step := H.StepByte(start, s, c);
            step.Refused? && step.error == H.HeaderOverflow ==> step.events == []
  {
    hide H.Sound, H.NextOfName, H.NeedsEof, H.BeginLine, H.FirstOfName, H.FirstOfToken, H.Against, H.IsToken,
      H.IsHeaderChar, H.Conclude, H.Unhex, H.Lower;
  }

  lemma FailureStops(exact: bool, r: H.Result, before: seq<H.Event>, err: Option<H.Error>, s: H.State,
                     log: seq<H.Event>, consumed: nat)
    requires Outcome(exact, r, before, err, s, log, consumed) && err.Some?
    ensures r.outcome.Failed?
  {
  }

  lemma SuccessGoes(exact: bool, r: H.Result, before: seq<H.Event>, s: H.State, log: seq<H.Event>, consumed: nat)
    requires Outcome(exact, r, before, None, s, log, consumed)
    ensures r.outcome == H.Going(s) && consumed == r.consumed && log == before + r.events
  {
  }

  lemma EndIsOutcome(exact: bool, r: H.Result, before: seq<H.Event>, s: H.State, log: seq<H.Event>, consumed: nat)
    requires r.outcome == H.Going(s) && consumed == r.consumed && log == before + r.events
    ensures Outcome(exact, r, before, None, s, log, consumed)
  {
  }

  // ---------- two cuts of one text ----------

  /** Beyond the limit a call does what the machine does if and only if the limit is crossed outside an inner loop, or
      at the byte at which the loop stops anyway: the last one of the buffer, or one that ends the text without an
      error or a callback of its own. */
  lemma {:induction false} AgreeBeyondLimit(start: H.StartLine, first: H.Mode, data: bytes, r: H.Result,
                                            err: Option<H.Error>, since: seq<H.Event>, consumed: nat)
    requires H.Sound(r.outcome.state) && r.consumed < |data|
    requires OverflowFits(start, first, data, r, err, since, consumed)
    requires r.outcome.state.mode == H.Value ==> |data| <= start.limit
    ensures var s := r.outcome.state;
            (err == Some(H.HeaderOverflow) && consumed == r.consumed && since == Reported(s.mode, r.events)) <==>
              || !Inside(first, r)
              || var stop := InnerStop(start, s.(nread := 0), data, r.consumed);
                 || (stop.at == |data| && r.consumed == |data| - 1)
                 || (stop.at == r.consumed && (s.mode == H.Value ==> stop.error == None && data[stop.at] != CR))
  {
    hide InnerStop, TextEvents, H.Sound, Reported;
    ReportedIsPrefix(r.outcome.state.mode, r.events);
    if Inside(first, r) {
      H.SoundWith(r.outcome.state, 0);
      StopErrors(start, r.outcome.state.(nread := 0), data, r.consumed);
    }
  }

  /** The bytes that stop a value are refused for what they are, not for the limit. */
  lemma {:induction false} StopErrors(start: H.StartLine, s: H.State, data: bytes, p: nat)
    requires H.Sound(s) && s.mode in {H.Field, H.Value} && p <= |data|
    ensures var stop := InnerStop(start, s, data, p);
            stop.error != Some(H.HeaderOverflow) && (stop.at == |data| ==> stop.error == None)
    decreases |data| - p
  {
    if p < |data| {
      InTextErrors(start, s, data[p]);
      hide H.StepCounted, H.Sound;
      var step := H.StepCounted(start, s, data[p]);
      if step.Taken? && step.state.mode == s.mode {
        StopErrors(start, step.state, data, p + 1);
      }
    }
  }

  lemma {:induction false} InTextErrors(start: H.StartLine, s: H.State, c: byte)
    requires H.Sound(s) && s.mode in {H.Field, H.Value}
    ensures match H.StepCounted(start, s, c)
            case Refused(e, _) => e != H.HeaderOverflow
            case Taken(s', _) => H.Sound(s')
  {
    hide H.NextOfName, H.IsToken, H.IsHeaderChar, H.StepFieldStart, H.StepValueLws, H.StepDiscardLws,
      H.StepHeadersAlmostDone, H.StepChunkSize, H.BeginValue, H.NextOfValue;
  }

  /** a:bcd and a control character, with four header bytes to go. */
  const TEXT: bytes := [97, 58, 98, 99, 100, 1]
  const TIGHT := H.StartLine(true, false, 0, 6, 10)

  /** The states before each byte; the fifth is one too many. */
  const BEFORE_NAME := H.State(H.FieldStart, H.General, 0, H.NO_FLAGS, H.ULLONG_MAX, false, 6)
  const IN_NAME := BEFORE_NAME.(mode := H.Field, nread := 7)
  const BEHIND_NAME := BEFORE_NAME.(mode := H.ValueDiscardWs, nread := 8)
  const IN_VALUE := BEFORE_NAME.(mode := H.Value, nread := 9)
  const AT_LIMIT := BEFORE_NAME.(mode := H.Value, nread := 10)

  lemma {:induction false} NameBegins()
    ensures H.AfterStartLine(TIGHT) == BEFORE_NAME && H.Valid(BEFORE_NAME)
    ensures H.StepByte(TIGHT, BEFORE_NAME, 97) == H.Taken(IN_NAME, [H.NameByte(97)])
  {
    hide H.StepField, H.StepValue, H.StepValueLws, H.StepDiscardLws, H.StepHeadersAlmostDone, H.StepChunkSize,
      H.BeginValue;
  }

  lemma {:induction false} NameEnds()
    ensures H.Valid(IN_NAME) && H.StepByte(TIGHT, IN_NAME, 58) == H.Taken(BEHIND_NAME, [H.NameEnd])
  {
    hide H.StepFieldStart, H.StepValue, H.StepValueLws, H.StepDiscardLws, H.StepHeadersAlmostDone, H.StepChunkSize,
      H.BeginValue, H.NextOfName;
  }

  lemma {:induction false} ValueSteps()
    ensures H.Valid(BEHIND_NAME) && H.Valid(IN_VALUE) && H.Valid(AT_LIMIT)
    ensures H.StepByte(TIGHT, BEHIND_NAME, 98) == H.Taken(IN_VALUE, [H.ValueByte(98)])
    ensures H.StepByte(TIGHT, IN_VALUE, 99) == H.Taken(AT_LIMIT, [H.ValueByte(99)])
    ensures H.StepByte(TIGHT, AT_LIMIT, 100) == H.Refused(H.HeaderOverflow, [])
  {
    hide H.StepFieldStart, H.StepField, H.StepValueLws, H.StepDiscardLws, H.StepHeadersAlmostDone, H.StepChunkSize;
  }

  lemma {:induction false} RunToLimit()
    ensures H.Valid(H.AfterStartLine(TIGHT))
    ensures H.Run(TIGHT, H.AfterStartLine(TIGHT), TEXT)
         == H.Result(H.Failed(H.HeaderOverflow, AT_LIMIT),
                     [H.NameByte(97), H.NameEnd, H.ValueByte(98), H.ValueByte(99)], 4)
  {
    NameBegins();
    NameEnds();
    ValueSteps();
    LimitRefuses();
    hide H.StepByte, H.Valid, H.Run, TIGHT, TEXT;
    var o: H.Outcome := H.Failed(H.HeaderOverflow, AT_LIMIT);
    var e3: seq<H.Event> := [H.ValueByte(99)];
    var e2, e1 := [H.ValueByte(98)] + e3, [H.NameEnd] + ([H.ValueByte(98)] + e3);
    var t4: bytes := [100, 1];
    var t3: bytes := [99] + t4;
    var t2: bytes := [98] + t3;
    var t1: bytes := [58] + t2;
    OneStepMore(IN_VALUE, 99, t4, AT_LIMIT, H.ValueByte(99), H.Result(o, [], 0));
    assert e3 == [H.ValueByte(99)] + [];
    OneStepMore(BEHIND_NAME, 98, t3, IN_VALUE, H.ValueByte(98), H.Result(o, e3, 1));
    OneStepMore(IN_NAME, 58, t2, BEHIND_NAME, H.NameEnd, H.Result(o, e2, 2));
    OneStepMore(BEFORE_NAME, 97, t1, IN_NAME, H.NameByte(97), H.Result(o, e1, 3));
    TextIs();
    assert [97 as byte] + t1 == [97, 58, 98, 99, 100, 1];
    assert [H.NameByte(97)] + e1 == [H.NameByte(97), H.NameEnd, H.ValueByte(98), H.ValueByte(99)];
  }

  lemma TextIs()
    ensures TEXT == [97, 58, 98, 99, 100, 1]
  {
  }

  lemma {:induction false} LimitRefuses()
    ensures H.Valid(AT_LIMIT)
    ensures H.Run(TIGHT, AT_LIMIT, [100, 1]) == H.Result(H.Failed(H.HeaderOverflow, AT_LIMIT), [], 0)
  {
    ValueSteps();
    hide H.StepByte, H.Valid;
  }

  lemma {:induction false} OneStepMore(s: H.State, c: byte, rest: bytes, s': H.State, e: H.Event, r: H.Result)
    requires H.Valid(s) && s.mode != H.Complete && H.StepByte(TIGHT, s, c) == H.Taken(s', [e])
    requires H.Valid(s') && H.Run(TIGHT, s', rest) == r
    ensures H.Run(TIGHT, s, [c] + rest) == H.Result(r.outcome, [e] + r.events, 1 + r.consumed)
  {
    hide H.StepByte, H.Valid;
    assert ([c] + rest)[0] == c && ([c] + rest)[1..] == rest;
    H.RunStep(TIGHT, s, [c] + rest);
  }

  /** The loop over the value goes on to the control character. */
  lemma {:induction false} LoopBehindLimit()
    ensures InnerStop(TIGHT, AT_LIMIT.(nread := 0), TEXT, 4) == Stop(5, Some(H.InvalidHeaderToken))
  {
    var s := AT_LIMIT.(nread := 0);
    NotOfValue(TIGHT, s, 0, 1);
    ValueByteStep(TIGHT, s, 0, 100);
    assert H.NextOfValue(s, 100).Taken?;
    hide H.StepCounted, H.NextOfValue;
    assert InnerStop(TIGHT, s, TEXT, 5) == Stop(5, Some(H.InvalidHeaderToken));
  }

  lemma {:induction false} LimitIsInside()
    ensures var r := H.Run(TIGHT, H.AfterStartLine(TIGHT), TEXT);
            Inside(H.FieldStart, r) && Reported(H.Value, r.events) == [H.NameByte(97), H.NameEnd]
  {
    RunToLimit();
    hide H.Run;
    var since: seq<H.Event> := [H.NameByte(97), H.NameEnd];
    assert since + TextEvents(Value, [98, 99]) == [H.NameByte(97), H.NameEnd, H.ValueByte(98), H.ValueByte(99)];
    ReportedText(H.Value, since, Value, [98, 99]);
    hide Reported;
  }

  /** Beyond the limit the error and the place depend on how a text is cut: in one piece it is the control character
      that is refused, byte by byte it is the one before. */
  method CutsDiffer() returns (whole: Option<H.Error>, at: nat, cut: Option<H.Error>, at': nat)
    ensures whole == Some(H.InvalidHeaderToken) && at == 5
    ensures cut == Some(H.HeaderOverflow) && at' == 4
  {
    RunToLimit();
    LoopBehindLimit();
    LimitIsInside();
    hide H.Run, H.Valid, Inside, InnerStop, Reported;
    var parser := new Parser(TIGHT);
    at := parser.Execute(TEXT);
    whole := parser.err;
    var parser' := new Parser(TIGHT);
    var pieces: seq<bytes> := [[97], [58], [98], [99], [100], [1]];
    PiecesOfText();
    at' := ExecuteAll(parser', pieces);
    cut := parser'.err;
  }

  lemma PiecesOfText()
    ensures Concat([[97], [58], [98], [99], [100], [1]]) == TEXT
  {
    var p: seq<bytes> := [[97], [58], [98], [99], [100], [1]];
    assert p[1..] == [[58], [98], [99], [100], [1]] && p[1..][1..] == [[98], [99], [100], [1]];
    assert p[1..][1..][1..] == [[99], [100], [1]] && p[1..][1..][1..][1..] == [[100], [1]];
    assert p[1..][1..][1..][1..][1..] == [[1]] && p[1..][1..][1..][1..][1..][1..] == [];
  }

  // ---------- single steps ----------

  ghost predicate IsSingle(mode: H.Mode) {
    mode !in {H.Complete, H.Field, H.Value, H.ChunkData, H.BodyIdentity, H.BodyIdentityEof}
  }

  /** A byte that is taken leaves nothing pending, or is the first of a text. */
  lemma {:induction false} SingleTaken(start: H.StartLine, s: H.State, log: seq<H.Event>, goal: Goal,
                                       data: bytes, p: nat)
    requires H.Valid(s) && p < |data| && Total(start, s, log, data, p) == goal.result
    requires Tidy(log, goal.base, s.mode) && IsSingle(s.mode) && H.StepByte(start, s, data[p]).Taken?
    requires H.CountsBytes(s.mode) ==> s.nread < start.limit
    ensures var step := H.StepByte(start, s, data[p]);
            var n := |step.events| - 1;
            var kind := if step.state.mode == H.Field then Name else Value;
            && H.Valid(step.state)
            && if step.state.mode == H.Field || step.state.mode == H.Value then
                 && n >= 0 && Tidy(log + step.events[..n], goal.base, step.state.mode)
                 && Total(start, step.state, log + step.events[..n] + TextEvents(kind, data[p..p + 1]), data, p + 1)
                    == goal.result
               else
                 && Tidy(log + step.events, goal.base, step.state.mode)
                 && Total(start, step.state, log + step.events, data, p + 1) == goal.result
  {
    hide Total, H.StepByte, H.Valid;
    StepTidies(start, s, data[p]);
    if s.mode == H.ChunkDataDone {
      ChunkDataDoneReports(start, s, data[p]);
    }
    TotalTaken(start, s, log, data, p);
    var step := H.StepByte(start, s, data[p]);
    var n := |step.events| - 1;
    if step.state.mode == H.Field || step.state.mode == H.Value {
      var kind := if step.state.mode == H.Field then Name else Value;
      assert data[p..p + 1] == [data[p]];
      assert TextEvents(kind, [data[p]]) == [step.events[n]];
      assert log + step.events == log + step.events[..n] + TextEvents(kind, data[p..p + 1]);
      TidyMore(log, step.events[..n], goal.base, s.mode, step.state.mode);
    } else {
      TidyMore(log, step.events, goal.base, s.mode, step.state.mode);
    }
  }

  lemma TidyMore(log: seq<H.Event>, events: seq<H.Event>, base: nat, mode: H.Mode, mode': H.Mode)
    requires Tidy(log, base, mode) && (mode == H.ChunkDataDone ==> events != [])
    requires forall e | e in events :: !e.NameByte? && !e.ValueByte? && !e.BodyByte?
    ensures Tidy(log + events, base, mode')
  {
    if events != [] {
      assert (log + events)[|log + events| - 1] == events[|events| - 1];
    } else {
      assert log + events == log;
    }
  }

  lemma {:induction false} SingleRefused(start: H.StartLine, s: H.State, log: seq<H.Event>, goal: Goal,
                                         data: bytes, p: nat)
    requires H.Valid(s) && p < |data| && Total(start, s, log, data, p) == goal.result
    requires Tidy(log, goal.base, s.mode) && IsSingle(s.mode) && H.StepByte(start, s, data[p]).Refused?
    requires H.CountsBytes(s.mode) ==> s.nread < start.limit
    ensures var step := H.StepByte(start, s, data[p]);
            Failure(start, data, Some(step.error), log + step.events, goal, p)
  {
    hide Total, H.StepByte, Failure;
    StepTidies(start, s, data[p]);
    TotalRefused(start, s, log, data, p);
    var step := H.StepByte(start, s, data[p]);
    FailsWithoutText(start, step.error, s, log, step.events, goal, data, p);
  }

  /** What stops a name. */
  lemma {:induction false} NameStops(start: H.StartLine, s: H.State, c: byte)
    requires H.Sound(s) && s.mode == H.Field && !H.IsToken(c)
    ensures var step := H.StepCounted(start, s.(nread := 0), c); step.Taken? ==> step.state.mode != H.Field
  {
    if c == 58 {
      EndOfName(start, s, 0);
    } else {
      NotOfName(start, s, 0, c);
    }
  }

  lemma {:induction false} EndOfName(start: H.StartLine, s: H.State, n: nat)
    requires H.Sound(s) && s.mode == H.Field
    ensures H.StepCounted(start, s.(nread := n), 58)
         == H.Taken(s.(mode := H.ValueDiscardWs, nread := n), [H.NameEnd])
  {
  }

  lemma {:induction false} NotOfName(start: H.StartLine, s: H.State, n: nat, c: byte)
    requires H.Sound(s) && s.mode == H.Field && !H.IsToken(c) && c != 58
    ensures H.StepCounted(start, s.(nread := n), c) == H.Refused(H.InvalidHeaderToken, [])
  {
  }

  lemma {:induction false} NotOfValue(start: H.StartLine, s: H.State, n: nat, c: byte)
    requires H.Sound(s) && s.mode == H.Value && !H.IsHeaderChar(c)
    ensures H.StepCounted(start, s.(nread := n), c) == H.Refused(H.InvalidHeaderToken, [])
  {
  }

  lemma {:induction false} EndOfValue(start: H.StartLine, s: H.State, n: nat, c: byte)
    requires H.Sound(s) && s.mode == H.Value && (c == CR || c == LF)
    ensures H.StepCounted(start, s.(nread := n), c)
         == H.Taken(s.(mode := if c == CR then H.HeaderAlmostDone else H.ValueLws, nread := n), [H.ValueEnd])
  {
  }

  /** A character of a value, whatever the count. */
  lemma {:induction false} ValueByteStep(start: H.StartLine, s: H.State, n: nat, c: byte)
    requires H.Sound(s) && s.mode == H.Value && c != CR && c != LF && H.IsHeaderChar(c)
    ensures var step := H.NextOfValue(s, c);
            match step
            case Refused(e, events) => events == [] && H.StepCounted(start, s.(nread := n), c) == step
            case Taken(s', _) =>
              && s'.mode == H.Value && H.Sound(s') && s'.nread == s.nread
              && (s.line == H.General ==> s' == s)
              && H.StepCounted(start, s.(nread := n), c)
                 == H.Taken(s'.(nread := n), [TextEvent(Value, c)])
  {
    hide H.Against, H.FirstOfToken, H.IsToken, H.Lower, H.Conclude;
  }

  /** A step into a name or a value ends with the byte that it reads, and reports no other text.  No other
      step reports text. */
  ghost predicate IsTidyStep(step: H.Step, c: byte) {
    match step
    case Refused(e, events) => e != H.HeaderOverflow && forall event | event in events :: event == H.ValueEnd
    case Taken(s', events) =>
      var n := |events| - 1;
      && (s'.mode == H.Field ==>
            n >= 0 && events[n] == H.NameByte(c) && forall e | e in events[..n] :: e == H.ValueEnd)
      && (s'.mode == H.Value ==> n == 0 && events[n] == H.ValueByte(c))
      && (s'.mode != H.Field && s'.mode != H.Value ==>
            forall e | e in events :: !e.NameByte? && !e.ValueByte? && !e.BodyByte?)
  }

  lemma {:induction false} FieldStartTidies(start: H.StartLine, s: H.State, c: byte)
    requires H.Sound(s) && s.mode == H.FieldStart
    ensures IsTidyStep(H.StepFieldStart(start, s, c), c)
    ensures var step := H.StepFieldStart(start, s, c);
            step.Taken? && step.state.mode == H.Field ==> step.events == [H.NameByte(c)]
    ensures var step := H.StepFieldStart(start, s, c); step.Taken? ==> step.state.mode != H.Value
  {
    hide H.Sound, H.NeedsEof, H.FirstOfName, H.IsToken;
  }

  lemma {:induction false} DiscardLwsTidies(start: H.StartLine, s: H.State, c: byte)
    requires H.Sound(s) && s.mode == H.ValueDiscardLws
    ensures IsTidyStep(H.StepDiscardLws(start, s, c), c)
  {
    var t := s.(mode := H.FieldStart, flags := H.Conclude(s.line, s.flags));
    FieldStartTidies(start, t, c);
    hide H.StepFieldStart;
    var step := H.StepFieldStart(start, t, c);
    if step.Taken? && step.state.mode == H.Field {
      assert [H.ValueEnd] + step.events == [H.ValueEnd, H.NameByte(c)];
    }
  }

  lemma {:induction false} BeginValueTidies(s: H.State, c: byte)
    requires H.Sound(s) && (s.mode == H.ValueDiscardWs || s.mode == H.ValueLws)
    ensures IsTidyStep(H.BeginValue(s, c), c)
  {
    hide H.BeginLine;
  }

  /** The same after the last name or value. */
  lemma {:induction false} HeadersDoneTidies(start: H.StartLine, s: H.State, c: byte)
    requires H.Sound(s) && s.mode == H.HeadersAlmostDone
    ensures IsTidyStep(H.StepHeadersAlmostDone(start, s, c), c)
  {
    hide H.NeedsEof;
  }

  /** The modes in between never begin a text. */
  lemma {:induction false} OtherStepTidies(start: H.StartLine, s: H.State, c: byte)
    requires H.Valid(s) && IsSingle(s.mode)
    requires s.mode !in {H.FieldStart, H.ValueDiscardLws, H.HeadersAlmostDone, H.ValueDiscardWs, H.ValueLws}
    requires H.CountsBytes(s.mode) ==> s.nread < start.limit
    ensures IsTidyStep(H.StepByte(start, s, c), c)
  {
    hide H.StepFieldStart, H.StepDiscardLws, H.BeginValue, H.StepHeadersAlmostDone, H.StepValueLws, H.StepField,
      H.StepValue, H.Unhex;
  }

  lemma {:induction false} ValueLwsTidies(start: H.StartLine, s: H.State, c: byte)
    requires H.Sound(s) && s.mode == H.ValueLws
    ensures IsTidyStep(H.StepValueLws(start, s, c), c)
  {
    if c == 32 || c == 9 {
      BeginValueTidies(s.(line := if s.line == H.ContentLengthNum then H.ContentLengthWs else s.line), c);
    } else {
      FieldStartTidies(start, s.(mode := H.FieldStart, flags := H.Conclude(s.line, s.flags)), c);
    }
    hide IsTidyStep, H.BeginValue, H.StepFieldStart, H.Conclude;
  }

  lemma {:induction false} DiscardWsTidies(start: H.StartLine, s: H.State, c: byte)
    requires H.Sound(s) && s.mode == H.ValueDiscardWs
    ensures IsTidyStep(H.StepCounted(start, s, c), c)
  {
    hide H.BeginValue;
    BeginValueTidies(s, c);
  }

  lemma {:induction false} StepTidies(start: H.StartLine, s: H.State, c: byte)
    requires H.Valid(s) && IsSingle(s.mode)
    requires H.CountsBytes(s.mode) ==> s.nread < start.limit
    ensures IsTidyStep(H.StepByte(start, s, c), c)
  {
    hide IsTidyStep, H.StepFieldStart, H.StepDiscardLws, H.BeginValue, H.StepHeadersAlmostDone, H.StepValueLws,
      H.Sound;
    var s1 := s.(nread := s.nread + 1);
    H.SoundWith(s, s.nread + 1);
    if s.mode == H.FieldStart {
      FieldStartTidies(start, s1, c);
    } else if s.mode == H.ValueDiscardLws {
      DiscardLwsTidies(start, s1, c);
    } else if s.mode == H.HeadersAlmostDone {
      HeadersDoneTidies(start, s1, c);
    } else if s.mode == H.ValueDiscardWs {
      DiscardWsTidies(start, s1, c);
    } else if s.mode == H.ValueLws {
      ValueLwsTidies(start, s1, c);
    } else {
      OtherStepTidies(start, s, c);
    }
  }

  /** The LF after the data of a chunk reports the chunk. */
  lemma {:induction false} ChunkDataDoneReports(start: H.StartLine, s: H.State, c: byte)
    requires H.Valid(s) && s.mode == H.ChunkDataDone && H.StepByte(start, s, c).Taken?
    ensures H.StepByte(start, s, c).events != [] && H.StepByte(start, s, c).state.mode == H.ChunkSizeStart
  {
  }
}

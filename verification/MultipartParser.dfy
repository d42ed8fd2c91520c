/**
 The incremental parser itself: one loop over the buffer, a mark into it, and a small array that keeps
 the bytes of a delimiter that may turn out not to be one.
 */
module MultipartParser {
  import opened Bytes
  import M = Multipart

  // ---------- what is still to come, as a value ----------

  /** The outcome of a call that has made the callbacks 'log' and stands before byte 'i' in state 's'. */
  ghost function Total(boundary: bytes, s: M.State, log: seq<M.Event>, buf: bytes, i: nat): M.Result
    requires M.Valid(boundary, s) && i <= |buf|
  {
    var r := M.Flushed(boundary, s, buf[i..]);
    M.Result(r.state, log + r.events, i + r.consumed)
  }

  lemma {:induction false} TotalTaken(boundary: bytes, s: M.State, log: seq<M.Event>, buf: bytes, i: nat)
    requires M.Valid(boundary, s) && i < |buf| && M.StepByte(boundary, s, buf[i]).Taken?
    ensures var step := M.StepByte(boundary, s, buf[i]);
            Total(boundary, s, log, buf, i) == Total(boundary, step.state, log + step.events, buf, i + 1)
  {
    hide M.StepByte, M.Valid;
    assert buf[i..][1..] == buf[i + 1..] && buf[i..][0] == buf[i];
    var step := M.StepByte(boundary, s, buf[i]);
    var r := M.Run(boundary, step.state, buf[i + 1..]);
    assert M.Run(boundary, s, buf[i..]) == M.Result(r.state, step.events + r.events, 1 + r.consumed);
    var tail := if r.consumed == |buf[i + 1..]| then M.NameBytes(r.state.name) else [];
    assert log + ((step.events + r.events) + tail) == (log + step.events) + (r.events + tail);
  }

  lemma {:induction false} TotalRefused(boundary: bytes, s: M.State, log: seq<M.Event>, buf: bytes, i: nat)
    requires M.Valid(boundary, s) && i < |buf| && M.StepByte(boundary, s, buf[i]).Refused?
    ensures Total(boundary, s, log, buf, i)
         == M.Result(M.StepByte(boundary, s, buf[i]).state.(name := []), log, i)
  {
    hide M.StepByte, M.Valid;
    assert buf[i..][0] == buf[i];
    assert log + [] == log;
  }

  /** At the end of the buffer a name that was held back is reported. */
  lemma {:induction false} TotalEnd(boundary: bytes, s: M.State, log: seq<M.Event>, buf: bytes)
    requires M.Valid(boundary, s)
    ensures Total(boundary, s, log, buf, |buf|)
         == Total(boundary, s.(name := []), log + M.NameBytes(s.name), buf, |buf|)
         == M.Result(s.(name := []), log + M.NameBytes(s.name), |buf|)
  {
    assert buf[|buf|..] == [];
    assert log + ([] + M.NameBytes(s.name)) == log + M.NameBytes(s.name);
    assert (log + M.NameBytes(s.name)) + ([] + M.NameBytes([])) == log + M.NameBytes(s.name);
  }

  /** Reporting the held bytes as data and looking at the byte again is what the machine does at once. */
  lemma {:induction false} TotalRescan(boundary: bytes, s: M.State, log: seq<M.Event>, buf: bytes, i: nat, held: bytes)
    requires M.Valid(boundary, s) && i < |buf|
    requires M.StepByte(boundary, s, buf[i]) == M.GiveUp(held, s, buf[i])
    requires s.name == []
    ensures Total(boundary, s, log, buf, i)
         == Total(boundary, M.Held(s, 0), log + M.DataBytes(held), buf, i)
  {
    hide Total;
    TotalTaken(boundary, s, log, buf, i);
    TotalTaken(boundary, M.Held(s, 0), log + M.DataBytes(held), buf, i);
    var step := M.StepData(s, buf[i]);
    assert log + (M.DataBytes(held) + step.events) == (log + M.DataBytes(held)) + step.events;
  }

  /** A state that treats the next byte like another one can be replaced by it. */
  lemma {:induction false} TotalSame(boundary: bytes, s: M.State, s': M.State, log: seq<M.Event>, buf: bytes, i: nat)
    requires M.Valid(boundary, s) && M.Valid(boundary, s') && i < |buf|
    requires M.StepByte(boundary, s, buf[i]) == M.StepByte(boundary, s', buf[i])
    ensures Total(boundary, s, log, buf, i) == Total(boundary, s', log, buf, i)
  {
    hide Total, M.Valid;
    if M.StepByte(boundary, s, buf[i]).Taken? {
      TotalTaken(boundary, s, log, buf, i);
      TotalTaken(boundary, s', log, buf, i);
    } else {
      TotalRefused(boundary, s, log, buf, i);
      TotalRefused(boundary, s', log, buf, i);
    }
  }

  /** The first byte of the data also reports that the headers are complete. */
  lemma {:induction false} TotalDataStart(boundary: bytes, s: M.State, log: seq<M.Event>, buf: bytes, i: nat)
    requires M.Valid(boundary, s) && i < |buf| && s.mode == M.PartDataStart
    ensures Total(boundary, s, log, buf, i)
         == Total(boundary, M.Held(s, 0), log + [M.HeadersComplete], buf, i)
  {
    hide Total;
    TotalTaken(boundary, s, log, buf, i);
    TotalTaken(boundary, M.Held(s, 0), log + [M.HeadersComplete], buf, i);
    var step := M.StepData(s, buf[i]);
    assert log + ([M.HeadersComplete] + step.events) == (log + [M.HeadersComplete]) + step.events;
  }

  lemma ValueBytesAppend(text: bytes, c: byte)
    ensures M.ValueBytes(text + [c]) == M.ValueBytes(text) + [M.ValueByte(c)]
  {
  }

  lemma DataBytesAppend(text: bytes, c: byte)
    ensures M.DataBytes(text + [c]) == M.DataBytes(text) + [M.DataByte(c)]
  {
  }

  predicate IsText(mode: M.Mode) {
    mode in {M.HeaderField, M.HeaderValue, M.PartData}
  }

  /** The text passed over since the mark; nothing is left over at the end of the buffer. */
  ghost function Text(mode: M.Mode, buf: bytes, i: nat, mark: nat): bytes
    requires i <= |buf|
  {
    if IsText(mode) && mark <= i < |buf| then buf[mark..i] else []
  }

  /** That text in the machine's view: values and data have been reported, a name is held back. */
  ghost function Reported(mode: M.Mode, text: bytes): seq<M.Event> {
    if mode == M.HeaderValue then M.ValueBytes(text)
    else if mode == M.PartData then M.DataBytes(text)
    else []
  }

  ghost function Ahead(mode: M.Mode, index: nat, text: bytes): M.State {
    M.State(mode, index, if mode == M.HeaderField then text else [])
  }

  class Parser {
    const boundary: bytes
    const lookbehind: array<byte>
    var mode: M.Mode
    var index: nat
    /** The callbacks made so far. */
    var log: seq<M.Event>

    /** A delimiter prefix that is held back is in the look-behind array. */
    ghost predicate Valid()
      reads this, lookbehind
    {
      && lookbehind.Length == |boundary| + 9
      && M.Valid(boundary, Abs())
      && (mode == M.PartDataAlmostBoundary ==> lookbehind[..1] == [CR])
      && (mode == M.PartDataBoundary ==> lookbehind[..2 + index] == CRLF + boundary[..index])
    }

    ghost function Abs(): M.State
      reads this
    {
      M.State(mode, index, [])
    }

    constructor (b: bytes)
      requires |b| > 0
      ensures Valid() && fresh(lookbehind) && boundary == b && Abs() == M.INITIAL && log == []
    {
      boundary := b;
      lookbehind := new byte[|b| + 9](_ => 0);
      mode, index, log := M.Start, 0, [];
    }

    ghost predicate At(buf: bytes, i: nat, mark: nat)
      reads this, lookbehind
    {
      && Valid() && i <= |buf|
      && (IsText(mode) && i < |buf| ==> mark <= i)
    }

    /** What this call will have done in the end. */
    ghost function Outcome(buf: bytes, i: nat, mark: nat): M.Result
      requires At(buf, i, mark)
      reads this, lookbehind
    {
      var text := Text(mode, buf, i, mark);
      Total(boundary, Ahead(mode, index, text), log + Reported(mode, text), buf, i)
    }

    /** A byte of a header name. */
    method NameByte(buf: bytes, i: nat, mark: nat) returns (ok: bool)
      requires At(buf, i, mark) && i < |buf| && mode == M.HeaderField
      modifies this
      ensures ok ==> At(buf, i + 1, mark) && Outcome(buf, i + 1, mark) == old(Outcome(buf, i, mark))
      ensures !ok ==> old(Outcome(buf, i, mark)) == M.Result(Abs(), log, i)
    {
      hide Total;
      var c := buf[i];
      ghost var name := buf[mark..i];
      ghost var s := M.State(M.HeaderField, index, name);
      assert log + [] == log;
      if c == CR {
        TotalTaken(boundary, s, log, buf, i);
        mode := M.HeadersAlmostDone;
        return true;
      }
      if c == 58 {
        TotalTaken(boundary, s, log, buf, i);
        log := log + M.NameBytes(buf[mark..i]);
        mode := M.HeaderValueStart;
        assert log + [] == log;
        return true;
      }
      if !M.IsNameChar(c) {
        TotalRefused(boundary, s, log, buf, i);
        return false;
      }
      TotalTaken(boundary, s, log, buf, i);
      assert buf[mark..i + 1] == name + [c];
      if i == |buf| - 1 {
        TotalEnd(boundary, M.State(M.HeaderField, index, name + [c]), log, buf);
        log := log + M.NameBytes(buf[mark..i + 1]);
        assert log + [] == log;
      }
      return true;
    }

    /** A byte of a header value. */
    method ValueByte(buf: bytes, i: nat, mark: nat)
      requires At(buf, i, mark) && i < |buf| && mode == M.HeaderValue
      modifies this
      ensures At(buf, i + 1, mark) && Outcome(buf, i + 1, mark) == old(Outcome(buf, i, mark))
    {
      hide Total;
      var c := buf[i];
      ghost var text := buf[mark..i];
      TotalTaken(boundary, Abs(), log + M.ValueBytes(text), buf, i);
      if c == CR {
        log := log + M.ValueBytes(buf[mark..i]);
        mode := M.HeaderValueAlmostDone;
        assert log + [] == log;
        return;
      }
      assert buf[mark..i + 1] == text + [c];
      ValueBytesAppend(text, c);
      assert (log + M.ValueBytes(text)) + [M.ValueByte(c)] == log + M.ValueBytes(text + [c]);
      if i == |buf| - 1 {
        log := log + M.ValueBytes(buf[mark..i + 1]);
        assert log + [] == log;
      }
    }

    /** A byte of part data. */
    method DataByte(buf: bytes, i: nat, mark: nat) returns (mark': nat)
      requires At(buf, i, mark) && i < |buf| && mode == M.PartData
      modifies this, lookbehind
      ensures At(buf, i + 1, mark') && Outcome(buf, i + 1, mark') == old(Outcome(buf, i, mark))
    {
      hide Total;
      var c := buf[i];
      mark' := mark;
      ghost var text := buf[mark..i];
      TotalTaken(boundary, Abs(), log + M.DataBytes(text), buf, i);
      if c == CR {
        log := log + M.DataBytes(buf[mark..i]);
        mark' := i;
        mode := M.PartDataAlmostBoundary;
        lookbehind[0] := CR;
        assert lookbehind[..1] == [CR];
        assert log + [] == log;
        return;
      }
      assert buf[mark..i + 1] == text + [c];
      DataBytesAppend(text, c);
      assert (log + M.DataBytes(text)) + [M.DataByte(c)] == log + M.DataBytes(text + [c]);
      if i == |buf| - 1 {
        log := log + M.DataBytes(buf[mark..i + 1]);
        assert log + [] == log;
      }
    }

    /** The byte after a CR in part data; 'again' says that it has to be looked at once more. */
    method AlmostBoundaryByte(buf: bytes, i: nat, mark: nat) returns (again: bool, mark': nat)
      requires At(buf, i, mark) && i < |buf| && mode == M.PartDataAlmostBoundary
      modifies this, lookbehind
      ensures again ==> mode == M.PartData && At(buf, i, mark') && Outcome(buf, i, mark') == old(Outcome(buf, i, mark))
      ensures !again ==> At(buf, i + 1, mark') && Outcome(buf, i + 1, mark') == old(Outcome(buf, i, mark))
    {
      hide Total;
      mark' := mark;
      assert log + [] == log;
      if buf[i] == LF {
        TotalTaken(boundary, Abs(), log, buf, i);
        mode := M.PartDataBoundary;
        lookbehind[1] := LF;
        index := 0;
        assert lookbehind[..2] == CRLF + boundary[..0] by { assert lookbehind[..1][0] == lookbehind[0]; }
        return false, mark';
      }
      TotalRescan(boundary, Abs(), log, buf, i, [CR]);
      log := log + M.DataBytes(lookbehind[..1]);
      mode := M.PartData;
      assert log + M.DataBytes([]) == log;
      return true, i;
    }

    /** A byte while the boundary is being matched. */
    method BoundaryByte(buf: bytes, i: nat, mark: nat) returns (again: bool, mark': nat)
      requires At(buf, i, mark) && i < |buf| && mode == M.PartDataBoundary
      modifies this, lookbehind
      ensures again ==> mode == M.PartData && At(buf, i, mark') && Outcome(buf, i, mark') == old(Outcome(buf, i, mark))
      ensures !again ==> At(buf, i + 1, mark') && Outcome(buf, i + 1, mark') == old(Outcome(buf, i, mark))
    {
      hide Total;
      var c := buf[i];
      mark' := mark;
      ghost var held := CRLF + boundary[..index];
      assert log + [] == log;
      if boundary[index] != c {
        TotalRescan(boundary, Abs(), log, buf, i, held);
        log := log + M.DataBytes(lookbehind[..2 + index]);
        mode := M.PartData;
        assert log + M.DataBytes([]) == log;
        return true, i;
      }
      TotalTaken(boundary, Abs(), log, buf, i);
      lookbehind[2 + index] := c;
      assert lookbehind[..2 + index + 1] == held + [c] == CRLF + boundary[..index + 1];
      index := index + 1;
      if index == |boundary| {
        log := log + [M.PartEnd];
        mode := M.PartDataAlmostEnd;
        assert log + [] == log;
      }
      return false, mark';
    }

    /** A byte of the boundary that opens the body, or of the line end after it. */
    method StartByte(buf: bytes, i: nat, mark: nat) returns (ok: bool)
      requires At(buf, i, mark) && i < |buf| && mode == M.StartBoundary
      modifies this
      ensures ok ==> At(buf, i + 1, mark) && Outcome(buf, i + 1, mark) == old(Outcome(buf, i, mark))
      ensures !ok ==> old(Outcome(buf, i, mark)) == M.Result(Abs(), log, i)
    {
      hide Total;
      var c := buf[i];
      assert log + [] == log;
      if M.StepByte(boundary, Abs(), c).Taken? {
        TotalTaken(boundary, Abs(), log, buf, i);
      } else {
        TotalRefused(boundary, Abs(), log, buf, i);
      }
      if index == |boundary| {
        if c != CR {
          return false;
        }
        index := index + 1;
        return true;
      } else if index == |boundary| + 1 {
        if c != LF {
          return false;
        }
        index := 0;
        log := log + [M.PartBegin];
        mode := M.HeaderFieldStart;
        assert log + [] == log;
        return true;
      }
      if c != boundary[index] {
        return false;
      }
      index := index + 1;
      return true;
    }

    /** The bytes that have a fixed place: line ends and the hyphens of the last boundary. */
    method FixedByte(buf: bytes, i: nat, mark: nat) returns (ok: bool)
      requires At(buf, i, mark) && i < |buf|
      requires mode in {M.HeadersAlmostDone, M.HeaderValueAlmostDone, M.PartDataAlmostEnd,
                        M.PartDataFinalHyphen, M.PartDataEnd, M.End}
      modifies this
      ensures ok ==> At(buf, i + 1, mark) && Outcome(buf, i + 1, mark) == old(Outcome(buf, i, mark))
      ensures !ok ==> old(Outcome(buf, i, mark)) == M.Result(Abs(), log, i)
    {
      hide Total;
      var c := buf[i];
      assert log + [] == log;
      if M.StepByte(boundary, Abs(), c).Taken? {
        TotalTaken(boundary, Abs(), log, buf, i);
      } else {
        TotalRefused(boundary, Abs(), log, buf, i);
      }
      match mode {
        case HeadersAlmostDone =>
          if c != LF { return false; }
          mode := M.PartDataStart;
        case HeaderValueAlmostDone =>
          if c != LF { return false; }
          mode := M.HeaderFieldStart;
          assert log + [] == log;
        case PartDataAlmostEnd =>
          if c == 45 {
            mode := M.PartDataFinalHyphen;
          } else if c == CR {
            mode := M.PartDataEnd;
          } else {
            return false;
          }
        case PartDataFinalHyphen =>
          if c != 45 { return false; }
          log := log + [M.BodyEnd];
          mode := M.End;
        case PartDataEnd =>
          if c != LF { return false; }
          mode := M.HeaderFieldStart;
          log := log + [M.PartBegin];
        case End =>
      }
      assert log + [] == log;
      return true;
    }

    /** The states that only set the mark (or a callback) and fall through to the next one. */
    method Enter(buf: bytes, i: nat, mark: nat) returns (mark': nat)
      requires At(buf, i, mark) && i < |buf|
      modifies this
      ensures At(buf, i, mark') && Outcome(buf, i, mark') == old(Outcome(buf, i, mark))
      ensures mode !in {M.Start, M.HeaderFieldStart, M.PartDataStart}
      ensures mode == M.HeaderValueStart ==> buf[i] == 32
      ensures old(mode) == M.PartData ==> mode == M.PartData
    {
      hide Total;
      mark' := mark;
      assert log + [] == log;
      if mode == M.Start {
        TotalSame(boundary, Abs(), M.State(M.StartBoundary, 0, []), log, buf, i);
        index := 0;
        mode := M.StartBoundary;
      } else if mode == M.HeaderFieldStart {
        TotalSame(boundary, Abs(), M.State(M.HeaderField, index, []), log, buf, i);
        mark' := i;
        mode := M.HeaderField;
      } else if mode == M.HeaderValueStart && buf[i] != 32 {
        TotalSame(boundary, Abs(), M.State(M.HeaderValue, index, []), log, buf, i);
        mark' := i;
        mode := M.HeaderValue;
      } else if mode == M.PartDataStart {
        TotalDataStart(boundary, Abs(), log, buf, i);
        log := log + [M.HeadersComplete];
        mark' := i;
        mode := M.PartData;
        assert log + [] == log;
      }
      assert buf[i..i] == [] && M.ValueBytes([]) == [] && M.DataBytes([]) == [];
    }

    /** Spaces before a header value are skipped. */
    method SkipSpace(buf: bytes, i: nat, mark: nat)
      requires At(buf, i, mark) && i < |buf| && mode == M.HeaderValueStart && buf[i] == 32
      ensures At(buf, i + 1, mark) && Outcome(buf, i + 1, mark) == Outcome(buf, i, mark)
    {
      hide Total;
      assert log + [] == log;
      TotalTaken(boundary, Abs(), log, buf, i);
    }

    /** What one round of the loop does with the byte at 'i'. */
    method Dispatch(buf: bytes, i: nat, mark: nat) returns (ok: bool, again: bool, mark': nat)
      requires At(buf, i, mark) && i < |buf|
      modifies this, lookbehind
      ensures !ok ==> old(Outcome(buf, i, mark)) == M.Result(Abs(), log, i)
      ensures ok && again ==> old(mode) != M.PartData && mode == M.PartData
      ensures ok && again ==> At(buf, i, mark') && Outcome(buf, i, mark') == old(Outcome(buf, i, mark))
      ensures ok && !again ==> At(buf, i + 1, mark') && Outcome(buf, i + 1, mark') == old(Outcome(buf, i, mark))
    {
      hide M.Valid, Total, M.StepByte, Text, Reported, Ahead;
      ok, again := true, false;
      mark' := Enter(buf, i, mark);
      if mode == M.StartBoundary {
        ok := StartByte(buf, i, mark');
      } else if mode == M.HeaderField {
        ok := NameByte(buf, i, mark');
      } else if mode == M.HeaderValueStart {
        SkipSpace(buf, i, mark');
      } else if mode == M.HeaderValue {
        ValueByte(buf, i, mark');
      } else if mode == M.PartData {
        mark' := DataByte(buf, i, mark');
      } else if mode == M.PartDataAlmostBoundary {
        again, mark' := AlmostBoundaryByte(buf, i, mark');
      } else if mode == M.PartDataBoundary {
        again, mark' := BoundaryByte(buf, i, mark');
      } else {
        ok := FixedByte(buf, i, mark');
      }
    }

    /** One call over a buffer: returns how much was consumed. */
    method Execute(buf: bytes) returns (consumed: nat)
      requires Valid()
      modifies this, lookbehind
      ensures var r := M.Execute(boundary, old(Abs()), buf);
              && consumed == r.consumed
              && Abs() == r.state
              && log == old(log) + r.events
      ensures consumed == |buf| ==> Valid()
    {
      hide M.StepByte, M.Run, M.Valid;
      var i: nat, mark: nat := 0, 0;
      ghost var goal := Outcome(buf, 0, 0);
      assert buf[0..] == buf;
      assert log + [] == log;
      assert goal == M.Result(M.Execute(boundary, Abs(), buf).state, log + M.Execute(boundary, Abs(), buf).events,
                              M.Execute(boundary, Abs(), buf).consumed);
      while i < |buf|
        invariant At(buf, i, mark)
        invariant Outcome(buf, i, mark) == goal
        decreases |buf| - i, mode != M.PartData
      {
        var ok, again;
        ok, again, mark := Dispatch(buf, i, mark);
        if !ok {
          return i;
        }
        if !again {
          i := i + 1;
        }
      }
      TotalEnd(boundary, Abs(), log, buf);
      assert log + M.NameBytes([]) == log;
      return |buf|;
    }
  }
}

/** The reply reader of the Redis client, as a machine on the bytes not yet read and a stack of tasks. */
module RespProtocol {
  import opened Bytes

  // ---------- replies ----------

  datatype TextKind = StatusText | ErrorText | BulkText

  /** A reply object.  An array holds one slot per element, empty until the child is attached; the
      element count is kept as announced, which may be negative. */
  datatype Reply =
    | Nil
    | Integer(value: int)
    | Text(kind: TextKind, text: bytes)
    | Array(elements: int, slots: seq<Slot>)

  datatype Slot = Empty | Full(reply: Reply)

  function EmptySlots(n: int): (s: seq<Slot>)
    ensures |s| == if n > 0 then n else 0
  {
    if n > 0 then seq(n, _ => Empty) else []
  }

  function NewArray(n: int): Reply {
    Array(n, EmptySlots(n))
  }

  // ---------- read tasks ----------

  datatype Kind = Unread | ErrorLine | StatusLine | IntegerLine | BulkString | MultiBulk

  /** One entry of the task stack; 'idx' is the position in the parent array. */
  datatype Task = Task(kind: Kind, elements: int, idx: int)

  const MAX_DEPTH := 9

  const ROOT := Task(Unread, -1, -1)

  datatype Error =
    | NoError
    | BadTypeByte(b: byte)
    | TooDeep
    /** The announced number leaves the range in which the C code has a defined meaning. */
    | OutOfRange

  /** 'input' is the unread part of the buffer.  An idle reader has just the root task. */
  datatype State = State(input: bytes, stack: seq<Task>, reply: Slot, err: Error)

  const INITIAL := State([], [ROOT], Empty, NoError)

  /** After an error the buffer, the stack and the partial reply are gone. */
  function Failed(e: Error): State {
    State([], [ROOT], Empty, e)
  }

  // ---------- scanning ----------

  /** The position of the first CR that is followed by LF. */
  function FindNewline(s: bytes): (r: Option<nat>)
    ensures r.Some? ==> r.value + 1 < |s| && s[r.value] == CR && s[r.value + 1] == LF
    ensures r.Some? ==> forall k | 0 <= k < r.value :: !(s[k] == CR && s[k + 1] == LF)
    ensures r.None? ==> forall k | 0 <= k < |s| - 1 :: !(s[k] == CR && s[k + 1] == LF)
  {
    if |s| < 2 then None
    else if s[0] == CR && s[1] == LF then Some(0)
    else match FindNewline(s[1..])
         case None => None
         case Some(n) =>
           assert forall k | 1 <= k < n + 1 :: s[k] == s[1..][k - 1] && s[k + 1] == s[1..][k];
           Some(n + 1)
  }

  lemma NewlineIsFirst(s: bytes, n: nat)
    requires n + 1 < |s| && s[n] == CR && s[n + 1] == LF
    requires forall k | 0 <= k < n :: !(s[k] == CR && s[k + 1] == LF)
    ensures FindNewline(s) == Some(n)
  {
  }

  /** More input never changes a newline that was found. */
  lemma {:induction false} NewlineStable(s: bytes, v: bytes)
    requires FindNewline(s).Some?
    ensures FindNewline(s + v) == FindNewline(s)
  {
    NewlineIsFirst(s + v, FindNewline(s).value);
  }

  datatype Number = Value(value: int) | Overflow

  /** The digits up to the first CR; any other byte gives -1. */
  function ReadDigits(s: bytes, v: int, negative: bool): Number {
    if s == [] || s[0] == CR then Value(if negative then -v else v)
    else if !IsDigit(s[0]) then Value(-1)
    else
      var v' := v * 10 + (s[0] - 48);
      if v' > LLONG_MAX then Overflow else ReadDigits(s[1..], v', negative)
  }

  function ReadLongLong(s: bytes): Number {
    if s != [] && s[0] == 45 then ReadDigits(s[1..], 0, true)
    else if s != [] && s[0] == 43 then ReadDigits(s[1..], 0, false)
    else ReadDigits(s, 0, false)
  }

  // ---------- where a finished object goes ----------

  /** The stack discipline: below the top there are only arrays with a positive element count, each
      child index is within its parent's count, and the reply holds exactly those arrays. */
  ghost predicate StackOk(stack: seq<Task>, slot: Slot) {
    && |stack| >= 1
    && (|stack| > 1 ==>
          && stack[0].kind == MultiBulk && stack[0].elements > 0
          && slot.Full? && slot.reply.Array?
          && slot.reply.elements == |slot.reply.slots| == stack[0].elements
          && 0 <= stack[1].idx < stack[0].elements
          && StackOk(stack[1..], slot.reply.slots[stack[1].idx]))
  }

  /** Storing an object in the slot of the task on top: the write goes through the parent object, so
      it shows in the root. */
  function Attach(slot: Slot, stack: seq<Task>, obj: Reply): Slot
    requires StackOk(stack, slot)
  {
    if |stack| == 1 then Full(obj)
    else
      var i := stack[1].idx;
      Full(Array(slot.reply.elements, slot.reply.slots[i := Attach(slot.reply.slots[i], stack[1..], obj)]))
  }

  /** The stack once the task on top is finished: the innermost array with a child left moves on to
      that child; a stack without such an array is finished. */
  function MoveNext(stack: seq<Task>): (r: seq<Task>)
    requires |stack| >= 1
    ensures |r| <= |stack|
  {
    if |stack| == 1 then []
    else
      var inner := MoveNext(stack[1..]);
      if inner != [] then [stack[0]] + inner
      else if stack[1].idx == stack[0].elements - 1 then []
      else [stack[0], Task(Unread, -1, stack[1].idx + 1)]
  }

  lemma {:induction false} MoveNextRoot(stack: seq<Task>)
    requires |stack| == 1
    ensures MoveNext(stack) == []
  {
  }

  /** Finishing the last child of the innermost array finishes that array. */
  lemma {:induction false} MoveNextPops(stack: seq<Task>)
    requires |stack| >= 2 && stack[|stack| - 1].idx == stack[|stack| - 2].elements - 1
    ensures MoveNext(stack) == MoveNext(stack[..|stack| - 1])
  {
    if |stack| > 2 {
      MoveNextPops(stack[1..]);
      assert stack[1..][..|stack| - 2] == stack[..|stack| - 1][1..];
    }
  }

  /** Finishing any other child moves on to the next one. */
  lemma {:induction false} MoveNextAdvances(stack: seq<Task>)
    requires |stack| >= 2 && stack[|stack| - 1].idx != stack[|stack| - 2].elements - 1
    ensures MoveNext(stack) == stack[..|stack| - 1] + [Task(Unread, -1, stack[|stack| - 1].idx + 1)]
  {
    if |stack| > 2 {
      MoveNextAdvances(stack[1..]);
      assert stack[1..][..|stack| - 2] == stack[..|stack| - 1][1..];
    }
  }

  ghost predicate FrameOk(parent: Task, child: Task) {
    parent.kind == MultiBulk && 0 <= child.idx < parent.elements
  }

  /** The stack discipline, frame by frame. */
  lemma {:induction false} StackFrames(stack: seq<Task>, slot: Slot)
    requires StackOk(stack, slot)
    ensures forall i | 1 <= i < |stack| :: FrameOk(stack[i - 1], stack[i])
  {
    if |stack| > 1 {
      var inner := stack[1..];
      StackFrames(inner, slot.reply.slots[stack[1].idx]);
      forall i | 1 <= i < |stack|
        ensures FrameOk(stack[i - 1], stack[i])
      {
        if i > 1 {
          assert FrameOk(inner[i - 2], inner[i - 1]);
        }
      }
    }
  }

  /** The task on top with its type byte read. */
  function Typed(stack: seq<Task>, kind: Kind): seq<Task>
    requires |stack| >= 1
  {
    stack[|stack| - 1 := stack[|stack| - 1].(kind := kind)]
  }

  /** The task on top turned into an array of 'n' elements, with child 'k' on top of it. */
  function Child(stack: seq<Task>, n: int, k: int): seq<Task>
    requires |stack| >= 1
  {
    stack[|stack| - 1 := stack[|stack| - 1].(kind := MultiBulk, elements := n)] + [Task(Unread, -1, k)]
  }

  /** An array just begun. */
  function Opened(stack: seq<Task>, n: int): seq<Task>
    requires |stack| >= 1
  {
    Child(stack, n, 0)
  }

  lemma {:induction false} AttachKeeps(slot: Slot, stack: seq<Task>, obj: Reply)
    requires StackOk(stack, slot)
    ensures StackOk(stack, Attach(slot, stack, obj))
    ensures MoveNext(stack) != [] ==> StackOk(MoveNext(stack), Attach(slot, stack, obj))
    ensures MoveNext(stack) != [] ==> MoveNext(stack)[|MoveNext(stack)| - 1].kind == Unread
  {
    if |stack| > 1 {
      AttachKeeps(slot.reply.slots[stack[1].idx], stack[1..], obj);
      var inner := MoveNext(stack[1..]);
      if inner != [] {
        assert ([stack[0]] + inner)[1..] == inner;
        MoveNextKeepsFirst(stack[1..]);
      }
    }
  }

  lemma {:induction false} MoveNextKeepsFirst(stack: seq<Task>)
    requires |stack| >= 1 && MoveNext(stack) != []
    ensures MoveNext(stack)[0] == stack[0]
  {
  }

  lemma {:induction false} TypedKeeps(slot: Slot, stack: seq<Task>, kind: Kind)
    requires StackOk(stack, slot)
    ensures StackOk(Typed(stack, kind), slot)
    ensures forall obj :: Attach(slot, Typed(stack, kind), obj) == Attach(slot, stack, obj)
    ensures MoveNext(Typed(stack, kind)) == MoveNext(stack)
  {
    if |stack| > 1 {
      TypedKeeps(slot.reply.slots[stack[1].idx], stack[1..], kind);
      assert Typed(stack, kind)[1..] == Typed(stack[1..], kind);
    }
  }

  lemma {:induction false} OpenedKeeps(slot: Slot, stack: seq<Task>, n: int)
    requires StackOk(stack, slot) && n > 0
    ensures StackOk(Opened(stack, n), Attach(slot, stack, NewArray(n)))
  {
    if |stack| > 1 {
      OpenedKeeps(slot.reply.slots[stack[1].idx], stack[1..], n);
      assert Opened(stack, n)[1..] == Opened(stack[1..], n);
    } else {
      assert Opened(stack, n)[1..] == [Task(Unread, -1, 0)];
    }
  }

  // ---------- one item ----------

  /** 'Blocked' leaves the loop over items: more input is needed, or there was an error. */
  datatype Outcome = Advanced(state: State) | Blocked(state: State)

  ghost predicate Sound(s: State) {
    && |s.stack| >= 1
    && StackOk(s.stack, s.reply)
    && |s.stack| <= MAX_DEPTH
    && (s.err != NoError ==> s == Failed(s.err))
    && (|s.stack| == 1 ==> s.reply == Empty)
  }

  /** What holds whenever the reader waits for input: no array is pending in the last entry. */
  ghost predicate Valid(s: State) {
    Sound(s) && (s.stack[|s.stack| - 1].kind == MultiBulk ==> |s.stack| < MAX_DEPTH)
  }

  /** What holds after an item: as above, or the reply is complete. */
  ghost predicate Reached(s: State) {
    if s.stack == [] then s.reply.Full? && s.err == NoError else Valid(s)
  }

  ghost predicate OutcomeOk(o: Outcome) {
    match o
    case Advanced(s) => Reached(s) && s.err == NoError
    case Blocked(s) => Valid(s)
  }

  function Finish(s: State, consumed: nat, obj: Reply): (r: Outcome)
    requires Sound(s) && consumed <= |s.input| && s.err == NoError
    ensures r.Advanced? && OutcomeOk(r)
    ensures r.state.input == s.input[consumed..]
  {
    AttachKeeps(s.reply, s.stack, obj);
    Advanced(State(s.input[consumed..], MoveNext(s.stack), Attach(s.reply, s.stack, obj), NoError))
  }

  function ProcessLine(s: State): (r: Outcome)
    requires Valid(s) && s.err == NoError
    ensures OutcomeOk(r)
  {
    match FindNewline(s.input)
    case None => Blocked(s)
    case Some(n) =>
      match s.stack[|s.stack| - 1].kind
      case IntegerLine =>
        (match ReadLongLong(s.input)
         case Overflow => Blocked(Failed(OutOfRange))
         case Value(v) => Finish(s, n + 2, Integer(v)))
      case ErrorLine => Finish(s, n + 2, Text(ErrorText, s.input[..n]))
      case _ => Finish(s, n + 2, Text(StatusText, s.input[..n]))
  }

  /** The data of a bulk string, once all of it and the CR LF after it are there. */
  function BulkBody(s: State, start: nat, len: nat): (r: Outcome)
    requires Valid(s) && s.err == NoError && start <= |s.input|
    ensures OutcomeOk(r)
  {
    if start + len + 2 <= |s.input|
    then Finish(s, start + len + 2, Text(BulkText, s.input[start..start + len]))
    else Blocked(s)
  }

  function ProcessBulk(s: State): (r: Outcome)
    requires Valid(s) && s.err == NoError
    ensures OutcomeOk(r)
  {
    match FindNewline(s.input)
    case None => Blocked(s)
    case Some(n) =>
      match ReadLongLong(s.input)
      case Overflow => Blocked(Failed(OutOfRange))
      case Value(len) =>
        if len < 0 then Finish(s, n + 2, Nil)
        else if len + 2 > LLONG_MAX then Blocked(Failed(OutOfRange))
        else BulkBody(s, n + 2, len)
  }

  function ProcessMultiBulk(s: State): (r: Outcome)
    requires Sound(s) && s.err == NoError
    ensures OutcomeOk(r)
  {
    if |s.stack| == MAX_DEPTH then Blocked(Failed(TooDeep))
    else match FindNewline(s.input)
    case None => Blocked(s)
    case Some(n) =>
      match ReadLongLong(s.input)
      case Overflow => Blocked(Failed(OutOfRange))
      case Value(elements) =>
        if elements == -1 then Finish(s, n + 2, Nil)
        else if elements > INT_MAX || elements < -INT_MAX - 1 then Blocked(Failed(OutOfRange))
        else if elements > 0 then
          OpenedKeeps(s.reply, s.stack, elements);
          Advanced(State(s.input[n + 2..], Opened(s.stack, elements),
                         Attach(s.reply, s.stack, NewArray(elements)), NoError))
        else Finish(s, n + 2, NewArray(elements))
  }

  /** The type byte. */
  function KindOf(b: byte): Kind {
    if b == 45 then ErrorLine
    else if b == 43 then StatusLine
    else if b == 58 then IntegerLine
    else if b == 36 then BulkString
    else if b == 42 then MultiBulk
    else Unread
  }

  function ProcessTyped(s: State): (r: Outcome)
    requires Sound(s) && s.err == NoError
    ensures OutcomeOk(r)
  {
    var kind := s.stack[|s.stack| - 1].kind;
    if kind == MultiBulk then ProcessMultiBulk(s)
    else if kind == BulkString then ProcessBulk(s)
    else ProcessLine(s)
  }

  function ProcessItem(s: State): (r: Outcome)
    requires Valid(s) && s.err == NoError
    ensures OutcomeOk(r)
  {
    if s.stack[|s.stack| - 1].kind != Unread then ProcessTyped(s)
    else if s.input == [] then Blocked(s)
    else if KindOf(s.input[0]) == Unread then Blocked(Failed(BadTypeByte(s.input[0])))
    else
      TypedKeeps(s.reply, s.stack, KindOf(s.input[0]));
      ProcessTyped(s.(input := s.input[1..], stack := Typed(s.stack, KindOf(s.input[0]))))
  }

  // ---------- the calls ----------

  /** Every item that succeeds consumes input. */
  lemma {:induction false} ItemConsumes(s: State)
    requires Valid(s) && s.err == NoError
    ensures ProcessItem(s).Advanced? ==> |ProcessItem(s).state.input| < |s.input|
  {
  }

  /** The loop over items: until the reply is complete or an item does not succeed. */
  function Items(s: State): (r: State)
    requires Valid(s) && s.err == NoError
    ensures Reached(r)
    ensures |r.input| <= |s.input|
    ensures r.stack == [] ==> |r.input| < |s.input|
    decreases |s.input|
  {
    match ProcessItem(s)
    case Blocked(s') => s'
    case Advanced(s') =>
      ItemConsumes(s);
      if s'.stack == [] then s' else Items(s')
  }

  /** One request for a reply: at most one reply, and the reader is ready for the next request. */
  function GetReply(s: State): (r: (Option<Reply>, State))
    requires Valid(s)
    ensures Valid(r.1)
    ensures r.0.Some? ==> |r.1.input| < |s.input|
  {
    if s.err != NoError then (None, s)
    else
      var s' := Items(s);
      if s'.stack == [] then (Some(s'.reply.reply), INITIAL.(input := s'.input)) else (None, s')
  }

  /** With nothing to read there is no reply, and nothing changes. */
  lemma {:induction false} NothingToRead(s: State)
    requires Valid(s) && s.err == NoError && s.input == []
    ensures GetReply(s) == (None, s)
  {
  }

  /** Replies are requested until there is none. */
  function Drain(s: State): (r: (seq<Reply>, State))
    requires Valid(s)
    ensures Valid(r.1)
    decreases |s.input|
  {
    match GetReply(s)
    case (None, s') => ([], s')
    case (Some(reply), s') =>
      var (replies, s'') := Drain(s');
      ([reply] + replies, s'')
  }

  /** New bytes are appended, unless there was an error. */
  function Feed(s: State, v: bytes): (r: State)
    requires Valid(s)
    ensures Valid(r)
  {
    if s.err != NoError then s else s.(input := s.input + v)
  }

  /** Feeding piece by piece, with all replies taken after each feed. */
  function FeedAll(s: State, pieces: seq<bytes>): (r: (seq<Reply>, State))
    requires Valid(s)
    ensures Valid(r.1)
    decreases |pieces|
  {
    if pieces == [] then ([], s)
    else
      var (first, s') := Drain(Feed(s, pieces[0]));
      var (rest, s'') := FeedAll(s', pieces[1..]);
      (first + rest, s'')
  }

  // ---------- the stream may be cut anywhere ----------

  lemma {:induction false} DigitsStable(s: bytes, v: bytes, acc: int, negative: bool)
    requires CR in s
    ensures ReadDigits(s + v, acc, negative) == ReadDigits(s, acc, negative)
    decreases |s|
  {
    assert (s + v)[0] == s[0];
    if s[0] != CR && IsDigit(s[0]) {
      assert (s + v)[1..] == s[1..] + v;
      DigitsStable(s[1..], v, acc * 10 + (s[0] - 48), negative);
    }
  }

  lemma {:induction false} NumberStable(s: bytes, v: bytes)
    requires CR in s
    ensures ReadLongLong(s + v) == ReadLongLong(s)
  {
    assert (s + v)[0] == s[0];
    if s[0] == 45 || s[0] == 43 {
      assert (s + v)[1..] == s[1..] + v;
      DigitsStable(s[1..], v, 0, s[0] == 45);
    } else {
      DigitsStable(s, v, 0, false);
    }
  }

  /** 'more' is the outcome 'o' of processing 's' when 'v' was there from the start; an item that
      waits has changed nothing. */
  ghost predicate SameWithMore(more: Outcome, o: Outcome, s: State, v: bytes) {
    match o
    case Advanced(s') => more == Advanced(s'.(input := s'.input + v))
    case Blocked(s') => if s'.err != NoError then more == o else s' == s
  }

  lemma {:induction false} FinishWithMore(s: State, v: bytes, consumed: nat, obj: Reply)
    requires Sound(s) && consumed <= |s.input| && s.err == NoError
    ensures SameWithMore(Finish(s.(input := s.input + v), consumed, obj), Finish(s, consumed, obj), s, v)
  {
    assert (s.input + v)[consumed..] == s.input[consumed..] + v;
  }

  lemma {:induction false} SliceWithMore(s: bytes, v: bytes, i: nat, j: nat)
    requires i <= j <= |s|
    ensures (s + v)[i..j] == s[i..j]
  {
  }

  lemma {:induction false} LineWithMore(s: State, v: bytes)
    requires Valid(s) && s.err == NoError
    requires s.stack[|s.stack| - 1].kind in {ErrorLine, StatusLine, IntegerLine}
    ensures SameWithMore(ProcessLine(s.(input := s.input + v)), ProcessLine(s), s, v)
  {
    hide StackOk, FindNewline, ReadLongLong, Finish;
    match FindNewline(s.input)
    case None =>
    case Some(n) =>
      NewlineStable(s.input, v);
      NumberStable(s.input, v);
      FinishWithMore(s, v, n + 2, Text(StatusText, s.input[..n]));
      FinishWithMore(s, v, n + 2, Text(ErrorText, s.input[..n]));
      if ReadLongLong(s.input).Value? {
        FinishWithMore(s, v, n + 2, Integer(ReadLongLong(s.input).value));
      }
      assert (s.input + v)[..n] == s.input[..n];
  }

  /** A bulk string that waits keeps its length unread, so it is looked at again from the start. */
  lemma {:induction false} BulkBodyWithMore(s: State, v: bytes, start: nat, len: nat)
    requires Valid(s) && s.err == NoError && start <= |s.input|
    ensures SameWithMore(BulkBody(s.(input := s.input + v), start, len), BulkBody(s, start, len), s, v)
  {
    hide StackOk, Finish;
    if start + len + 2 <= |s.input| {
      SliceWithMore(s.input, v, start, start + len);
      FinishWithMore(s, v, start + len + 2, Text(BulkText, s.input[start..start + len]));
    }
  }

  lemma {:induction false} BulkWithMore(s: State, v: bytes)
    requires Valid(s) && s.err == NoError
    requires s.stack[|s.stack| - 1].kind == BulkString
    ensures SameWithMore(ProcessBulk(s.(input := s.input + v)), ProcessBulk(s), s, v)
  {
    hide StackOk, Sound, OutcomeOk, FindNewline, ReadLongLong, Finish, BulkBody;
    match FindNewline(s.input)
    case None =>
    case Some(n) =>
      NewlineStable(s.input, v);
      NumberStable(s.input, v);
      FinishWithMore(s, v, n + 2, Nil);
      var len := ReadLongLong(s.input);
      if len.Value? && len.value >= 0 {
        BulkBodyWithMore(s, v, n + 2, len.value);
      }
  }

  lemma {:induction false} MultiBulkWithMore(s: State, v: bytes)
    requires Sound(s) && s.err == NoError
    requires s.stack[|s.stack| - 1].kind == MultiBulk
    ensures SameWithMore(ProcessMultiBulk(s.(input := s.input + v)), ProcessMultiBulk(s), s, v)
  {
    hide StackOk, OutcomeOk, FindNewline, ReadLongLong, Finish, NewArray, Attach, Opened;
    match FindNewline(s.input)
    case None =>
    case Some(n) =>
      NewlineStable(s.input, v);
      NumberStable(s.input, v);
      assert (s.input + v)[n + 2..] == s.input[n + 2..] + v;
      FinishWithMore(s, v, n + 2, Nil);
      if ReadLongLong(s.input).Value? {
        FinishWithMore(s, v, n + 2, NewArray(ReadLongLong(s.input).value));
      }
  }

  lemma {:induction false} TypedWithMore(s: State, v: bytes)
    requires Sound(s) && s.err == NoError
    requires s.stack[|s.stack| - 1].kind != Unread
    ensures SameWithMore(ProcessTyped(s.(input := s.input + v)), ProcessTyped(s), s, v)
  {
    hide Attach, MoveNext, SameWithMore, ProcessMultiBulk, ProcessBulk, ProcessLine;
    var kind := s.stack[|s.stack| - 1].kind;
    if kind == MultiBulk {
      MultiBulkWithMore(s, v);
    } else if kind == BulkString {
      BulkWithMore(s, v);
    } else {
      LineWithMore(s, v);
    }
  }

  /** An item that succeeds or fails does the same when more input was there; an item that waits can
      be resumed with what comes later. */
  lemma {:induction false} ItemWithMore(s: State, v: bytes)
    requires Valid(s) && s.err == NoError
    ensures var more, o := ProcessItem(s.(input := s.input + v)), ProcessItem(s);
            if o.Advanced? then more == Advanced(o.state.(input := o.state.input + v))
            else if o.state.err != NoError then more == o
            else more == ProcessItem(o.state.(input := o.state.input + v))
  {
    hide StackOk, ProcessTyped;
    if s.stack[|s.stack| - 1].kind != Unread {
      TypedWithMore(s, v);
    } else if s.input != [] {
      assert (s.input + v)[0] == s.input[0];
      assert (s.input + v)[1..] == s.input[1..] + v;
      if KindOf(s.input[0]) != Unread {
        TypedKeeps(s.reply, s.stack, KindOf(s.input[0]));
        TypedWithMore(s.(input := s.input[1..], stack := Typed(s.stack, KindOf(s.input[0]))), v);
      }
    }
  }

  lemma {:induction false} ItemsWithMore(s: State, v: bytes)
    requires Valid(s) && s.err == NoError
    ensures var s', more := Items(s), Items(s.(input := s.input + v));
            if s'.stack == [] then more == s'.(input := s'.input + v)
            else if s'.err != NoError then more == s'
            else more == Items(s'.(input := s'.input + v))
    decreases |s.input|
  {
    hide StackOk, ProcessItem;
    ItemWithMore(s, v);
    match ProcessItem(s)
    case Blocked(_) =>
    case Advanced(s') =>
      ItemConsumes(s);
      if s'.stack != [] {
        ItemsWithMore(s', v);
      }
  }

  lemma {:induction false} GetReplyWithMore(s: State, v: bytes)
    requires Valid(s)
    ensures var (reply, s') := GetReply(s);
            GetReply(Feed(s, v)) == if reply.Some? then (reply, Feed(s', v)) else GetReply(Feed(s', v))
  {
    if s.err == NoError {
      hide StackOk, ProcessItem, Items;
      ItemsWithMore(s, v);
    }
  }

  /** Taking the replies of a prefix first, then the rest, is taking them all. */
  lemma {:induction false} DrainWithMore(s: State, v: bytes)
    requires Valid(s)
    ensures var (r1, s1) := Drain(s);
            var (r2, s2) := Drain(Feed(s1, v));
            Drain(Feed(s, v)) == (r1 + r2, s2)
    decreases |s.input|
  {
    hide StackOk, GetReply, Sound;
    GetReplyWithMore(s, v);
    var (reply, s') := GetReply(s);
    if reply.Some? {
      DrainWithMore(s', v);
      var (r1, s1) := Drain(s');
      var (r2, s2) := Drain(Feed(s1, v));
      assert [reply.value] + (r1 + r2) == ([reply.value] + r1) + r2;
    } else {
      assert Drain(Feed(s, v)) == Drain(Feed(s', v));
      assert [] + Drain(Feed(s', v)).0 == Drain(Feed(s', v)).0;
    }
  }

  /** Once drained, there is nothing more to take. */
  lemma {:induction false} DrainTwice(s: State)
    requires Valid(s)
    ensures Drain(Drain(s).1) == ([], Drain(s).1)
    decreases |s.input|
  {
    DrainWithMore(s, []);
    var s1 := Drain(s).1;
    assert Feed(s, []) == s && Feed(s1, []) == s1 by {
      assert s.input + [] == s.input && s1.input + [] == s1.input;
    }
    var (r1, r2) := (Drain(s).0, Drain(s1).0);
    assert r1 == r1 + r2;
    assert |r1| == |r1| + |r2|;
  }

  /** Split independence: from any drained state, the replies, the error and what is left over depend
      only on the bytes, not on how they were cut into pieces (empty pieces included). */
  lemma {:induction false} SplitIndependence(s: State, pieces: seq<bytes>)
    requires Valid(s) && Drain(s) == ([], s)
    ensures FeedAll(s, pieces) == Drain(Feed(s, Concat(pieces)))
    decreases |pieces|
  {
    hide StackOk, Drain;
    if pieces == [] {
      assert Feed(s, []) == s by { assert s.input + [] == s.input; }
    } else {
      var v, rest := pieces[0], Concat(pieces[1..]);
      var s' := Drain(Feed(s, v)).1;
      DrainTwice(Feed(s, v));
      SplitIndependence(s', pieces[1..]);
      DrainWithMore(Feed(s, v), rest);
      assert Feed(Feed(s, v), rest) == Feed(s, v + rest) by {
        assert (s.input + v) + rest == s.input + (v + rest);
      }
    }
  }

  /** In particular two ways of cutting the same stream give the same replies and the same error. */
  lemma {:induction false} SameReplies(pieces: seq<bytes>, pieces': seq<bytes>)
    requires Concat(pieces) == Concat(pieces')
    ensures FeedAll(INITIAL, pieces) == FeedAll(INITIAL, pieces')
  {
    SplitIndependence(INITIAL, pieces);
    SplitIndependence(INITIAL, pieces');
  }
}

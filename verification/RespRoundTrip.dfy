/** Replies as they may be written, in any pieces: they are rebuilt exactly, and the rest is refused. */
module RespRoundTrip {
  import opened Bytes
  import opened RespProtocol

  // ---------- encoding ----------

  function Encode(r: Reply): bytes {
    match r
    case Nil => [36, 45, 49] + CRLF
    case Integer(v) => [58] + Printed(v) + CRLF
    case Text(StatusText, t) => [43] + t + CRLF
    case Text(ErrorText, t) => [45] + t + CRLF
    case Text(BulkText, t) => [36] + Decimal(|t|) + CRLF + t + CRLF
    case Array(n, slots) => [42] + Printed(n) + CRLF + EncodeSlots(slots)
  }

  function EncodeSlots(slots: seq<Slot>): bytes {
    if slots == [] then [] else EncodeSlot(slots[0]) + EncodeSlots(slots[1..])
  }

  function EncodeSlot(slot: Slot): bytes {
    match slot
    case Empty => []
    case Full(r) => Encode(r)
  }

  function EncodeList(rs: seq<Reply>): bytes {
    if rs == [] then [] else Encode(rs[0]) + EncodeList(rs[1..])
  }

  predicate NoNewline(t: bytes) {
    forall k | 0 <= k < |t| - 1 :: !(t[k] == CR && t[k + 1] == LF)
  }

  /** What the protocol can carry with at most 'depth' nested array levels: numbers whose magnitude
      fits in 63 bits, lines without CR LF, complete arrays. */
  ghost predicate Encodable(r: Reply, depth: nat) {
    match r
    case Nil => true
    case Integer(v) => -LLONG_MAX <= v <= LLONG_MAX
    case Text(BulkText, t) => |t| + 2 <= LLONG_MAX
    case Text(_, t) => NoNewline(t)
    case Array(n, slots) =>
      && depth > 0 && n == |slots| <= INT_MAX
      && forall i | 0 <= i < |slots| :: slots[i].Full? && Encodable(slots[i].reply, depth - 1)
  }

  // ---------- what a server may write ----------

  predicate AllDigits(t: bytes) {
    forall i | 0 <= i < |t| :: IsDigit(t[i])
  }

  function Unsigned(t: bytes): bytes {
    if t != [] && (t[0] == 43 || t[0] == 45) then t[1..] else t
  }

  /** A number as it may be written: a sign, if any, and digits, perhaps with zeros in front. */
  predicate NumberText(n: int, t: bytes) {
    && Unsigned(t) != [] && AllDigits(Unsigned(t))
    && var v: int := ValueOf(DecimalDigits(Unsigned(t)), 10);
       n == if t[0] == 45 then -v else v
  }

  predicate InRange(n: int) { -LLONG_MAX <= n <= LLONG_MAX }

  /** A type byte with a number and its line end. */
  ghost predicate NumberLineText(b: byte, n: int, t: bytes) {
    exists l :: NumberText(n, l) && t == [b] + l + CRLF
  }

  /** The texts that stand for a reply, as a child of at most 'depth' further arrays.  Nil may be written as a bulk
      string with a negative length, or as an array of -1 elements.  The two bytes behind a bulk string are not
      looked at. */
  ghost predicate Spells(r: Reply, t: bytes, depth: nat)
    decreases r
  {
    match r
    case Nil =>
      || (exists n :: -LLONG_MAX <= n < 0 && NumberLineText(36, n, t))
      || (depth > 0 && NumberLineText(42, -1, t))
    case Integer(v) => InRange(v) && NumberLineText(58, v, t)
    case Text(BulkText, x) =>
      |x| + 2 <= LLONG_MAX && exists h, end: bytes :: |end| == 2 && NumberLineText(36, |x|, h) && t == h + (x + end)
    case Text(kind, x) => NoNewline(x) && t == [if kind == StatusText then 43 else 45] + x + CRLF
    case Array(n, slots) =>
      && depth > 0 && -INT_MAX - 1 <= n <= INT_MAX && n != -1
      && |slots| == (if n > 0 then n else 0) && (forall i | 0 <= i < |slots| :: slots[i].Full?)
      && exists h, ts: seq<bytes> ::
           && NumberLineText(42, n, h) && t == h + Concat(ts) && |ts| == |slots|
           && forall i | 0 <= i < |slots| :: Spells(slots[i].reply, ts[i], depth - 1)
  }

  /** One way to write a reply is the usual one. */
  lemma {:induction false} EncodeSpells(r: Reply, depth: nat)
    requires Encodable(r, depth)
    ensures Spells(r, Encode(r), depth)
    decreases r, 0, 0
  {
    if r.Array? {
      var ts := SlotsSpell(r.slots, depth - 1, r);
      ArraySpells(r, depth, ts);
    } else {
      LeafSpells(r, depth);
    }
  }

  lemma {:induction false} LeafSpells(r: Reply, depth: nat)
    requires Encodable(r, depth) && !r.Array?
    ensures Spells(r, Encode(r), depth)
  {
    hide NumberText;
    match r
    case Nil =>
      assert Printed(-1) == [45, 49];
      PrintedIsNumber(-1);
      assert NumberLineText(36, -1, Encode(r));
    case Integer(v) => PrintedIsNumber(v);
    case Text(BulkText, x) =>
      PrintedIsNumber(|x|);
      var h := [36] + Decimal(|x|) + CRLF;
      assert |CRLF| == 2 && NumberLineText(36, |x|, h) && Encode(r) == h + (x + CRLF);
    case Text(_, x) =>
  }

  lemma {:induction false} ArraySpells(r: Reply, depth: nat, ts: seq<bytes>)
    requires Encodable(r, depth) && r.Array? && |ts| == |r.slots| && EncodeSlots(r.slots) == Concat(ts)
    requires forall i | 0 <= i < |ts| :: Spells(r.slots[i].reply, ts[i], depth - 1)
    ensures Spells(r, Encode(r), depth)
  {
    hide NumberText, Concat, EncodeSlots;
    PrintedIsNumber(r.elements);
    var h := [42] + Printed(r.elements) + CRLF;
    assert NumberLineText(42, r.elements, h) && Encode(r) == h + Concat(ts);
  }

  lemma {:induction false} SlotsSpell(slots: seq<Slot>, depth: nat, r: Reply) returns (ts: seq<bytes>)
    requires forall i | 0 <= i < |slots| :: slots[i].Full? && slots[i] < r && Encodable(slots[i].reply, depth)
    ensures |ts| == |slots| && EncodeSlots(slots) == Concat(ts)
    ensures forall i | 0 <= i < |slots| :: Spells(slots[i].reply, ts[i], depth)
    decreases r, -1, |slots|
  {
    if slots == [] {
      ts := [];
    } else {
      var rest := SlotsSpell(slots[1..], depth, r);
      EncodeSpells(slots[0].reply, depth);
      ts := [Encode(slots[0].reply)] + rest;
      assert ts[1..] == rest;
    }
  }

  // ---------- numbers and lines ----------

  lemma {:induction false} PrintedIsNumber(n: int)
    ensures NumberText(n, Printed(n))
  {
    var m := if n < 0 then -n else n;
    DecimalIsNumber(m);
    assert Unsigned(Printed(n)) == Decimal(m);
  }

  lemma {:induction false} DecimalIsNumber(n: nat)
    ensures ValueOf(DecimalDigits(Decimal(n)), 10) == n
  {
    var d := DecimalDigits(Decimal(n));
    if n < 10 {
      assert d == [n] && d[..0] == [];
    } else {
      DecimalIsNumber(n / 10);
      assert d == DecimalDigits(Decimal(n / 10)) + [n % 10];
      ValueAppend(DecimalDigits(Decimal(n / 10)), n % 10, 10);
    }
  }

  /** Digits add up to their value, as long as that fits in 63 bits. */
  lemma {:induction false} DigitsRead(d: bytes, rest: bytes, negative: bool)
    requires AllDigits(d)
    ensures ReadDigits(d + rest, 0, negative)
         == var v := ValueOf(DecimalDigits(d), 10);
            if v <= LLONG_MAX then ReadDigits(rest, v, negative) else Overflow
    decreases |d|
  {
    if d == [] {
      assert d + rest == rest;
    } else {
      var before, c := d[..|d| - 1], d[|d| - 1];
      var last: bytes := [c];
      assert d == before + last;
      Regroup(before, last, rest);
      DigitsRead(before, last + rest, negative);
      assert DecimalDigits(d) == DecimalDigits(before) + [DigitValue(c)];
      ValueAppend(DecimalDigits(before), DigitValue(c), 10);
      hide ValueOf, DecimalDigits, AllDigits;
      assert (last + rest)[0] == c && (last + rest)[1..] == rest;
    }
  }

  lemma {:induction false} NumberReads(n: int, t: bytes, rest: bytes)
    requires NumberText(n, t) && rest != [] && rest[0] == CR
    ensures ReadLongLong(t + rest) == if InRange(n) then Value(n) else Overflow
  {
    var s := t + rest;
    DigitsRead(Unsigned(t), rest, t[0] == 45);
    assert s[0] == t[0];
    if t[0] == 43 || t[0] == 45 {
      assert s[1..] == Unsigned(t) + rest;
    } else {
      assert IsDigit(t[0]);
    }
  }

  /** A byte that is neither a digit nor the line end makes any number -1. */
  lemma {:induction false} JunkReads(d: bytes, c: byte, rest: bytes)
    requires AllDigits(d) && ValueOf(DecimalDigits(d), 10) <= LLONG_MAX && !IsDigit(c) && c != CR
    requires d == [] ==> c != 43 && c != 45
    ensures ReadLongLong(d + ([c] + rest)) == Value(-1)
  {
    DigitsRead(d, [c] + rest, false);
    assert d != [] ==> IsDigit(d[0]) && (d + ([c] + rest))[0] == d[0];
    assert d == [] ==> d + ([c] + rest) == [c] + rest;
  }

  lemma {:induction false} NumberHasNoNewline(n: int, t: bytes)
    requires NumberText(n, t)
    ensures NoNewline(t)
  {
    forall k | 0 <= k < |t|
      ensures t[k] != CR
    {
      assert k > 0 && Unsigned(t) != t ==> t[k] == Unsigned(t)[k - 1];
      assert Unsigned(t) == t ==> IsDigit(t[k]);
    }
  }

  lemma {:induction false} LineEnds(t: bytes, rest: bytes)
    requires NoNewline(t)
    ensures FindNewline(t + CRLF + rest) == Some(|t|)
  {
    var s := t + CRLF + rest;
    forall k | 0 <= k < |t|
      ensures !(s[k] == CR && s[k + 1] == LF)
    {
      if k < |t| - 1 {
        assert s[k] == t[k] && s[k + 1] == t[k + 1];
      }
    }
    NewlineIsFirst(s, |t|);
  }

  lemma {:induction false} NumberLine(n: int, t: bytes, rest: bytes)
    requires NumberText(n, t)
    ensures FindNewline(t + CRLF + rest) == Some(|t|)
    ensures ReadLongLong(t + CRLF + rest) == if InRange(n) then Value(n) else Overflow
    ensures (t + CRLF + rest)[|t| + 2..] == rest
  {
    NumberHasNoNewline(n, t);
    LineEnds(t, rest);
    NumberReads(n, t, CRLF + rest);
    assert t + CRLF + rest == t + (CRLF + rest);
  }

  // ---------- one object at a time ----------

  /** The state once the object on top is 'r' and the rest of the stream is 'rest'. */
  function After(s: State, rest: bytes, r: Reply): (s': State)
    requires Valid(s) && s.err == NoError
    ensures Reached(s') && s'.err == NoError
  {
    AttachKeeps(s.reply, s.stack, r);
    State(rest, MoveNext(s.stack), Attach(s.reply, s.stack, r), NoError)
  }

  /** The rest of the loop over items. */
  function Continue(s: State): State
    requires Reached(s) && s.err == NoError
  {
    if s.stack == [] then s else Items(s)
  }

  lemma {:induction false} MoveNextIgnoresTop(stack: seq<Task>, top: Task)
    requires |stack| >= 1 && top.idx == stack[|stack| - 1].idx
    ensures MoveNext(stack[|stack| - 1 := top]) == MoveNext(stack)
  {
    if |stack| > 1 {
      MoveNextIgnoresTop(stack[1..], top);
      assert stack[|stack| - 1 := top][1..] == stack[1..][|stack| - 2 := top];
    }
  }

  /** After child 'k' comes child 'k + 1', and after the last child whatever follows the array. */
  lemma {:induction false} ChildMoves(stack: seq<Task>, n: int, k: int)
    requires |stack| >= 1 && 0 <= k < n
    ensures MoveNext(Child(stack, n, k)) == if k == n - 1 then MoveNext(stack) else Child(stack, n, k + 1)
  {
    hide MoveNext;
    var top := stack[|stack| - 1].(kind := MultiBulk, elements := n);
    var c := Child(stack, n, k);
    assert c[|c| - 1] == Task(Unread, -1, k) && c[|c| - 2] == top;
    assert c[..|c| - 1] == stack[|stack| - 1 := top];
    if k == n - 1 {
      MoveNextPops(c);
      MoveNextIgnoresTop(stack, top);
    } else {
      MoveNextAdvances(c);
      assert c[..|c| - 1] + [Task(Unread, -1, k + 1)] == Child(stack, n, k + 1);
    }
  }

  /** A child is stored in its own slot of the array, and in no other. */
  lemma {:induction false} ChildAttaches(slot: Slot, stack: seq<Task>, slots: seq<Slot>, k: int, obj: Reply)
    requires StackOk(stack, slot) && 0 <= k < |slots|
    ensures StackOk(Child(stack, |slots|, k), Attach(slot, stack, Array(|slots|, slots)))
    ensures Attach(Attach(slot, stack, Array(|slots|, slots)), Child(stack, |slots|, k), obj)
         == Attach(slot, stack, Array(|slots|, slots[k := Full(obj)]))
  {
    var c := Child(stack, |slots|, k);
    if |stack| > 1 {
      var i := stack[1].idx;
      ChildAttaches(slot.reply.slots[i], stack[1..], slots, k, obj);
      assert c[1..] == Child(stack[1..], |slots|, k) && c[1].idx == i;
      var a := Attach(slot, stack, Array(|slots|, slots));
      assert a.reply.slots[i] == Attach(slot.reply.slots[i], stack[1..], Array(|slots|, slots));
      var mid := Attach(slot, stack, Array(|slots|, slots[k := Full(obj)]));
      assert Attach(a, c, obj).reply.slots == mid.reply.slots;
    } else {
      assert c[1..] == [Task(Unread, -1, k)];
      assert Attach(slots[k], c[1..], obj) == Full(obj);
    }
  }

  lemma {:induction false} RegroupAll(a: bytes, b: bytes, c: bytes, d: bytes, e: bytes)
    ensures a + b + c + d + e == a + (b + c + (d + e))
  {
  }

  ghost predicate AtStart(s: State) {
    Valid(s) && s.err == NoError && s.stack[|s.stack| - 1].kind == Unread
  }

  /** The first byte selects the kind; what is read then does not depend on the kind's mark. */
  lemma {:induction false} TypedStep(s: State, b: byte, body: bytes)
    requires AtStart(s) && s.input == [b] + body && KindOf(b) != Unread
    ensures var t := s.(input := body, stack := Typed(s.stack, KindOf(b)));
            Sound(t) && ProcessItem(s) == ProcessTyped(t)
  {
    assert s.input[1..] == body;
    TypedKeeps(s.reply, s.stack, KindOf(b));
  }

  /** Anywhere in a reply, an integer is read exactly if its magnitude fits in 63 bits, and not at all if not. */
  lemma {:induction false} IntegerStep(s: State, v: int, t: bytes, rest: bytes)
    requires AtStart(s) && NumberLineText(58, v, t) && s.input == t + rest
    ensures ProcessItem(s) == if InRange(v) then Advanced(After(s, rest, Integer(v))) else Blocked(Failed(OutOfRange))
  {
    hide StackOk, Attach, MoveNext, FindNewline, ReadLongLong, NumberText;
    var l :| NumberText(v, l) && t == [58] + l + CRLF;
    var body := l + CRLF + rest;
    assert s.input == [58] + body;
    TypedStep(s, 58, body);
    TypedKeeps(s.reply, s.stack, IntegerLine);
    NumberLine(v, l, rest);
  }

  /** A negative length of a bulk string, ... */
  lemma {:induction false} NilBulkStep(s: State, n: int, t: bytes, rest: bytes)
    requires AtStart(s) && -LLONG_MAX <= n < 0 && NumberLineText(36, n, t) && s.input == t + rest
    ensures ProcessItem(s) == Advanced(After(s, rest, Nil))
  {
    hide StackOk, Attach, MoveNext, FindNewline, ReadLongLong, NumberText;
    var l :| NumberText(n, l) && t == [36] + l + CRLF;
    var body := l + CRLF + rest;
    assert s.input == [36] + body;
    TypedStep(s, 36, body);
    TypedKeeps(s.reply, s.stack, BulkString);
    NumberLine(n, l, rest);
  }

  /** ... and an array of -1 elements, are nil. */
  lemma {:induction false} NilArrayStep(s: State, t: bytes, rest: bytes)
    requires AtStart(s) && |s.stack| < MAX_DEPTH && NumberLineText(42, -1, t) && s.input == t + rest
    ensures ProcessItem(s) == Advanced(After(s, rest, Nil))
  {
    hide StackOk, Attach, MoveNext, FindNewline, ReadLongLong, NumberText;
    var l :| NumberText(-1, l) && t == [42] + l + CRLF;
    var body := l + CRLF + rest;
    assert s.input == [42] + body;
    TypedStep(s, 42, body);
    TypedKeeps(s.reply, s.stack, MultiBulk);
    NumberLine(-1, l, rest);
  }

  lemma {:induction false} BulkRead(t: State, l: bytes, text: bytes, end: bytes, rest: bytes)
    requires Valid(t) && t.err == NoError && |text| + 2 <= LLONG_MAX && |end| == 2 && NumberText(|text|, l)
    requires t.input == l + CRLF + (text + end + rest)
    ensures ProcessBulk(t) == Advanced(After(t, rest, Text(BulkText, text)))
  {
    hide StackOk, Attach, MoveNext, FindNewline, ReadLongLong, NumberText, Sound;
    NumberLine(|text|, l, text + end + rest);
    BulkSlices(t.input, |l| + 2, text, end, rest);
  }

  lemma {:induction false} BulkStep(s: State, h: bytes, text: bytes, end: bytes, rest: bytes)
    requires AtStart(s) && |text| + 2 <= LLONG_MAX && |end| == 2 && NumberLineText(36, |text|, h)
    requires s.input == h + (text + end) + rest
    ensures ProcessItem(s) == Advanced(After(s, rest, Text(BulkText, text)))
  {
    var l :| NumberText(|text|, l) && h == [36] + l + CRLF;
    var body := l + CRLF + (text + end + rest);
    BulkRegroup(l, text, end, rest);
    hide StackOk, Attach, MoveNext, NumberText, ProcessItem, ProcessBulk;
    TypedStep(s, 36, body);
    TypedKeeps(s.reply, s.stack, BulkString);
    BulkRead(s.(input := body, stack := Typed(s.stack, BulkString)), l, text, end, rest);
  }

  lemma BulkRegroup(l: bytes, text: bytes, end: bytes, rest: bytes)
    ensures [36] + l + CRLF + (text + end) + rest == [36] + (l + CRLF + (text + end + rest))
  {
  }

  lemma {:induction false} BulkSlices(body: bytes, n: nat, t: bytes, end: bytes, rest: bytes)
    requires n <= |body| && |end| == 2 && body[n..] == t + end + rest
    ensures n + |t| + 2 <= |body|
    ensures body[n..n + |t|] == t && body[n + |t| + 2..] == rest
  {
    assert body[n..n + |t|] == body[n..][..|t|];
    assert body[n + |t| + 2..] == body[n..][|t| + 2..];
  }

  lemma {:induction false} LineStep(s: State, kind: TextKind, t: bytes, rest: bytes)
    requires AtStart(s) && kind != BulkText && NoNewline(t)
    requires s.input == [if kind == StatusText then 43 else 45] + t + CRLF + rest
    ensures ProcessItem(s) == Advanced(After(s, rest, Text(kind, t)))
  {
    hide StackOk, Attach, MoveNext, FindNewline, ReadLongLong;
    var b: byte := if kind == StatusText then 43 else 45;
    var body := t + CRLF + rest;
    assert s.input == [b] + body;
    TypedStep(s, b, body);
    TypedKeeps(s.reply, s.stack, KindOf(b));
    LineEnds(t, rest);
    assert body[..|t|] == t;
    assert body[|t| + 2..] == rest;
  }

  lemma {:induction false} LeafStep(s: State, r: Reply, t: bytes, rest: bytes)
    requires AtStart(s) && !r.Array? && s.input == t + rest && Spells(r, t, MAX_DEPTH - |s.stack|)
    ensures ProcessItem(s) == Advanced(After(s, rest, r))
  {
    hide StackOk, ProcessItem, After, NumberLineText;
    match r
    case Nil =>
      if MAX_DEPTH - |s.stack| > 0 && NumberLineText(42, -1, t) {
        NilArrayStep(s, t, rest);
      } else {
        var n :| -LLONG_MAX <= n < 0 && NumberLineText(36, n, t);
        NilBulkStep(s, n, t, rest);
      }
    case Integer(v) => IntegerStep(s, v, t, rest);
    case Text(BulkText, x) =>
      var h, end: bytes :| |end| == 2 && NumberLineText(36, |x|, h) && t == h + (x + end);
      BulkStep(s, h, x, end, rest);
    case Text(kind, x) => LineStep(s, kind, x, rest);
  }

  /** A reply, however it is written and with anything behind it, is rebuilt exactly in the slot where it belongs. */
  lemma {:induction false} ParseObject(s: State, r: Reply, t: bytes, rest: bytes)
    requires AtStart(s) && s.input == t + rest && Spells(r, t, MAX_DEPTH - |s.stack|)
    ensures Items(s) == Continue(After(s, rest, r))
    decreases r, 1, 0
  {
    hide Spells, StackOk, Attach, MoveNext, ProcessItem, NumberLineText;
    if !r.Array? {
      LeafStep(s, r, t, rest);
    } else {
      var h, ts := ArrayText(r, t, MAX_DEPTH - |s.stack|);
      ArrayStep(s, r, h, Concat(ts) + rest);
      Regroup(h, Concat(ts), rest);
      if |r.slots| > 0 {
        var s' := ProcessItem(s).state;
        assert ts[0..] == ts;
        assert [] + EmptySlots(|r.slots|) == EmptySlots(|r.slots|);
        ParseChildren(s, s', r, ts, 0, rest);
      } else {
        assert Concat(ts) + rest == rest;
      }
    }
  }

  lemma ArrayText(r: Reply, t: bytes, depth: nat) returns (h: bytes, ts: seq<bytes>)
    requires r.Array? && Spells(r, t, depth)
    ensures depth > 0 && NumberLineText(42, r.elements, h) && t == h + Concat(ts) && |ts| == |r.slots|
    ensures forall i | 0 <= i < |r.slots| :: r.slots[i].Full? && Spells(r.slots[i].reply, ts[i], depth - 1)
    ensures r == Array(r.elements, r.slots) && -INT_MAX - 1 <= r.elements <= INT_MAX && r.elements != -1
    ensures |r.slots| == if r.elements > 0 then r.elements else 0
  {
    h, ts :| && NumberLineText(42, r.elements, h) && t == h + Concat(ts) && |ts| == |r.slots|
             && forall i | 0 <= i < |r.slots| :: Spells(r.slots[i].reply, ts[i], depth - 1);
  }

  /** The slots of an array of which the first 'k' children have been read. */
  function Partly(slots: seq<Slot>, k: nat): (p: seq<Slot>)
    requires k <= |slots|
    ensures |p| == |slots|
  {
    slots[..k] + EmptySlots(|slots| - k)
  }

  lemma {:induction false} ArrayHeader(t: State, n: int, l: bytes, tail: bytes)
    requires Sound(t) && t.err == NoError && |t.stack| < MAX_DEPTH && -INT_MAX - 1 <= n <= INT_MAX && n != -1
    requires NumberText(n, l) && t.input == l + CRLF + tail
    ensures n > 0 ==> StackOk(Opened(t.stack, n), Attach(t.reply, t.stack, NewArray(n)))
    ensures ProcessMultiBulk(t) ==
              if n <= 0 then Finish(t, |l| + 2, NewArray(n))
              else Advanced(State(tail, Opened(t.stack, n), Attach(t.reply, t.stack, NewArray(n)), NoError))
  {
    hide StackOk, Attach, MoveNext, FindNewline, ReadLongLong, NumberText, Finish, Opened;
    NumberLine(n, l, tail);
    if n > 0 {
      OpenedKeeps(t.reply, t.stack, n);
    }
  }

  /** An array begins; one without elements is complete at once. */
  lemma {:induction false} HeaderStep(s: State, n: int, h: bytes, tail: bytes)
    requires AtStart(s) && |s.stack| < MAX_DEPTH && -INT_MAX - 1 <= n <= INT_MAX && n != -1
    requires NumberLineText(42, n, h) && s.input == h + tail
    ensures n > 0 ==> StackOk(Child(s.stack, n, 0), Attach(s.reply, s.stack, NewArray(n)))
    ensures ProcessItem(s) ==
              if n <= 0 then Advanced(After(s, tail, NewArray(n)))
              else Advanced(State(tail, Child(s.stack, n, 0), Attach(s.reply, s.stack, NewArray(n)), NoError))
  {
    hide StackOk, Attach, MoveNext, NumberText, ProcessItem, NewArray, Child, After;
    var l :| NumberText(n, l) && h == [42] + l + CRLF;
    assert h + tail == [42] + (l + CRLF + tail);
    HeaderWith(s, n, l, tail);
  }

  lemma {:induction false} HeaderWith(s: State, n: int, l: bytes, tail: bytes)
    requires AtStart(s) && |s.stack| < MAX_DEPTH && -INT_MAX - 1 <= n <= INT_MAX && n != -1
    requires NumberText(n, l) && s.input == [42] + (l + CRLF + tail)
    ensures n > 0 ==> StackOk(Child(s.stack, n, 0), Attach(s.reply, s.stack, NewArray(n)))
    ensures ProcessItem(s) ==
              if n <= 0 then Advanced(After(s, tail, NewArray(n)))
              else Advanced(State(tail, Child(s.stack, n, 0), Attach(s.reply, s.stack, NewArray(n)), NoError))
  {
    hide StackOk, Attach, MoveNext, NumberText, ProcessItem, ProcessMultiBulk, NewArray;
    var body := l + CRLF + tail;
    var t := s.(input := body, stack := Typed(s.stack, MultiBulk));
    TypedStep(s, 42, body);
    TypedKeeps(s.reply, s.stack, MultiBulk);
    ArrayHeader(t, n, l, tail);
    assert Child(t.stack, n, 0) == Child(s.stack, n, 0);
    assert body[|l| + 2..] == tail;
  }

  lemma {:induction false} ArrayStep(s: State, r: Reply, h: bytes, tail: bytes)
    requires AtStart(s) && r.Array? && |s.stack| < MAX_DEPTH && s.input == h + tail
    requires NumberLineText(42, r.elements, h) && -INT_MAX - 1 <= r.elements <= INT_MAX && r.elements != -1
    requires |r.slots| == if r.elements > 0 then r.elements else 0
    ensures ProcessItem(s) ==
              if |r.slots| == 0 then Advanced(After(s, tail, r))
              else Advanced(State(tail, Child(s.stack, |r.slots|, 0),
                                  Attach(s.reply, s.stack, Array(|r.slots|, Partly(r.slots, 0))), NoError))
  {
    hide StackOk, Attach, MoveNext, ProcessItem, NumberLineText, After;
    HeaderStep(s, r.elements, h, tail);
    assert Partly(r.slots, 0) == EmptySlots(|r.slots|);
    assert r.slots == [] ==> r == NewArray(r.elements);
  }

  lemma {:induction false} ParseChildren(s: State, s': State, r: Reply, ts: seq<bytes>, k: nat, rest: bytes)
    requires AtStart(s) && r.Array? && k < |r.slots| == |ts| == r.elements && |s.stack| < MAX_DEPTH
    requires forall i | 0 <= i < |ts| :: r.slots[i].Full? && Spells(r.slots[i].reply, ts[i], MAX_DEPTH - |s.stack| - 1)
    requires s' == State(Concat(ts[k..]) + rest, Child(s.stack, |r.slots|, k),
                         Attach(s.reply, s.stack, Array(|r.slots|, Partly(r.slots, k))), NoError)
    requires Valid(s')
    ensures Items(s') == Continue(After(s, rest, r))
    decreases r, 0, |r.slots| - k
  {
    hide StackOk, ProcessItem, Attach, MoveNext, Spells, Concat, Partly;
    var n := |r.slots|;
    var obj := r.slots[k].reply;
    var rest' := Concat(ts[k + 1..]) + rest;
    ChildText(ts, k, rest);
    ParseObject(s', obj, ts[k], rest');
    ChildAttaches(s.reply, s.stack, Partly(r.slots, k), k, obj);
    ChildMoves(s.stack, n, k);
    NextPart(r.slots, k);
    if k + 1 < n {
      ParseChildren(s, After(s', rest', obj), r, ts, k + 1, rest);
    }
  }

  /** The text of a child, and the texts of those behind it. */
  lemma ChildText(ts: seq<bytes>, k: nat, rest: bytes)
    requires k < |ts|
    ensures Concat(ts[k..]) + rest == ts[k] + (Concat(ts[k + 1..]) + rest)
    ensures k + 1 == |ts| ==> Concat(ts[k + 1..]) + rest == rest
  {
    assert ts[k..][1..] == ts[k + 1..] && ts[k..][0] == ts[k];
    Regroup(ts[k], Concat(ts[k + 1..]), rest);
  }

  lemma NextPart(slots: seq<Slot>, k: nat)
    requires k < |slots| && slots[k].Full?
    ensures Partly(slots, k)[k := Full(slots[k].reply)] == Partly(slots, k + 1)
    ensures k + 1 == |slots| ==> Partly(slots, k + 1) == slots
  {
  }

  // ---------- whole streams ----------

  ghost predicate AllSpell(rs: seq<Reply>, ts: seq<bytes>) {
    |rs| == |ts| && forall i | 0 <= i < |rs| :: Spells(rs[i], ts[i], 8)
  }

  /** Texts of replies one after the other give the list of replies, and nothing is left over. */
  lemma {:induction false} RoundTrip(rs: seq<Reply>, ts: seq<bytes>)
    requires AllSpell(rs, ts)
    ensures Drain(INITIAL.(input := Concat(ts))) == (rs, INITIAL)
    decreases |rs|
  {
    hide Spells;
    var s := INITIAL.(input := Concat(ts));
    if rs == [] {
      NothingToRead(s);
    } else {
      ParseObject(s, rs[0], ts[0], Concat(ts[1..]));
      RoundTrip(rs[1..], ts[1..]);
      assert GetReply(s) == (Some(rs[0]), INITIAL.(input := Concat(ts[1..])));
      assert [rs[0]] + rs[1..] == rs;
    }
  }

  /** However the stream is cut, the reader hands out exactly the replies that were written. */
  lemma {:induction false} RoundTripInPieces(rs: seq<Reply>, ts: seq<bytes>, pieces: seq<bytes>)
    requires AllSpell(rs, ts) && Concat(pieces) == Concat(ts)
    ensures FeedAll(INITIAL, pieces) == (rs, INITIAL)
  {
    RoundTrip(rs, ts);
    NothingToRead(INITIAL);
    SplitIndependence(INITIAL, pieces);
    assert [] + Concat(ts) == Concat(ts);
  }

  /** An integer comes back if and only if its magnitude is at most LLONG_MAX.  Of the 64-bit integers this
      leaves out one, -LLONG_MAX - 1: the sign is applied only after its digits have left the accumulator. */
  lemma {:induction false} IntegerIsReadBack(v: int)
    ensures Drain(INITIAL.(input := Encode(Integer(v)))) == ([Integer(v)], INITIAL) <==> InRange(v)
    ensures !InRange(v) ==> Drain(INITIAL.(input := Encode(Integer(v)))) == ([], Failed(OutOfRange))
  {
    var s := INITIAL.(input := Encode(Integer(v)));
    assert Encode(Integer(v)) + [] == Encode(Integer(v));
    if InRange(v) {
      EncodeSpells(Integer(v), 8);
      var rs, ts := [Integer(v)], [Encode(Integer(v))];
      assert ts[1..] == [] && Concat(ts) == Encode(Integer(v));
      RoundTrip(rs, ts);
    } else {
      PrintedIsNumber(v);
      IntegerStep(s, v, Encode(Integer(v)), []);
    }
  }

  // ---------- what is refused ----------

  /** A reply begins with one of five bytes; any other is named in the error. */
  lemma {:induction false} UnknownType(s: State)
    requires AtStart(s) && s.input != []
    ensures ProcessItem(s) == Blocked(Failed(BadTypeByte(s.input[0]))) <==> s.input[0] !in {43, 45, 58, 36, 42}
  {
    hide StackOk, Attach, MoveNext, FindNewline, ReadLongLong;
  }

  /** Lengths and counts for which the program has no defined meaning: a count outside int, and a length that leaves no
      room for the line end. */
  lemma {:induction false} NoMeaning(s: State, b: byte, n: int, t: bytes, rest: bytes)
    requires AtStart(s) && |s.stack| < MAX_DEPTH && NumberLineText(b, n, t) && s.input == t + rest
    requires || (b == 42 && !(-0x8000_0000 <= n <= 0x7fff_ffff))
             || (b == 36 && n > 0x7fff_ffff_ffff_fffd)
    ensures ProcessItem(s) == Blocked(Failed(OutOfRange))
  {
    hide StackOk, Attach, MoveNext, FindNewline, ReadLongLong, NumberText;
    var l :| NumberText(n, l) && t == [b] + l + CRLF;
    var body := l + CRLF + rest;
    assert s.input == [b] + body;
    TypedStep(s, b, body);
    TypedKeeps(s.reply, s.stack, KindOf(b));
    NumberLine(n, l, rest);
  }

  /** 'n' arrays of one element, each in the next. */
  function Nest(n: nat): bytes {
    if n == 0 then [] else [42, 49, CR, LF] + Nest(n - 1)
  }

  /** Inside eight arrays, whatever begins like an array is refused, even one without elements. */
  lemma {:induction false} TooDeeply(rest: bytes)
    ensures Drain(INITIAL.(input := Nest(8) + ([42] + rest))) == ([], Failed(TooDeep))
  {
    var s := INITIAL.(input := Nest(8) + ([42] + rest));
    Descends(s, 8, [42] + rest);
  }

  lemma {:induction false} Descends(s: State, n: nat, rest: bytes)
    requires AtStart(s) && |s.stack| + n == MAX_DEPTH && s.input == Nest(n) + rest && rest != [] && rest[0] == 42
    ensures Items(s) == Failed(TooDeep)
    decreases n
  {
    hide StackOk, Attach, MoveNext, FindNewline, ReadLongLong;
    if n == 0 {
      assert s.input == rest;
      TypedKeeps(s.reply, s.stack, MultiBulk);
    } else {
      var h: bytes := [42, 49, CR, LF];
      assert s.input == h + (Nest(n - 1) + rest);
      OneElement(h);
      HeaderStep(s, 1, h, Nest(n - 1) + rest);
      Descends(ProcessItem(s).state, n - 1, rest);
    }
  }

  lemma OneElement(h: bytes)
    requires h == [42, 49, CR, LF]
    ensures NumberLineText(42, 1, h)
  {
    var l: bytes := [49];
    assert DecimalDigits(l) == [1] && [1][..0] == [];
    assert NumberText(1, l) && h == [42] + l + CRLF;
  }
}

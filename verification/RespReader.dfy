/**
 The resumable reply reader: a buffer with a cursor and a stack of nine read tasks, updated in place.
 Every method is tied to the machine of RespProtocol, so the results proved there are about it.
 */
module RespReader {
  import opened Bytes
  import P = RespProtocol

  const TRIM_AT := 1024

  /** Scans for CR LF. */
  method SeekNewline(s: bytes) returns (r: Option<nat>)
    ensures r == P.FindNewline(s)
  {
    var pos := 0;
    var n := |s| - 1;
    while pos < n
      invariant 0 <= pos && (pos <= n || pos == 0)
      invariant forall k | 0 <= k < pos :: !(s[k] == CR && s[k + 1] == LF)
    {
      while pos < n && s[pos] != CR
        invariant 0 <= pos <= n
        invariant forall k | 0 <= k < pos :: !(s[k] == CR && s[k + 1] == LF)
      {
        pos := pos + 1;
      }
      if pos == n {
        return None;
      } else if s[pos + 1] == LF {
        P.NewlineIsFirst(s, pos);
        return Some(pos);
      } else {
        pos := pos + 1;
      }
    }
    return None;
  }

  /** Reads an optional sign and the digits up to the first CR. */
  method ReadLongLong(s: bytes) returns (r: P.Number)
    ensures r == P.ReadLongLong(s)
  {
    var i, negative := 0, false;
    if s != [] && s[0] == 45 {
      negative, i := true, 1;
    } else if s != [] && s[0] == 43 {
      i := 1;
    }
    var v := 0;
    assert s[0..] == s;
    while i < |s| && s[i] != CR
      invariant 0 <= i <= |s|
      invariant P.ReadLongLong(s) == P.ReadDigits(s[i..], v, negative)
    {
      if !IsDigit(s[i]) {
        return P.Value(-1);
      }
      assert s[i..][1..] == s[i + 1..];
      v := v * 10 + (s[i] - 48);
      if v > LLONG_MAX {
        return P.Overflow;
      }
      i := i + 1;
    }
    return P.Value(if negative then -v else v);
  }

  class Reader {
    var err: P.Error
    var buf: bytes
    var pos: nat
    var len: nat
    const rstack: array<P.Task>
    var ridx: int
    var reply: P.Slot

    ghost predicate Layout()
      reads this, rstack
    {
      && pos <= len == |buf|
      && rstack.Length == P.MAX_DEPTH
      && -1 <= ridx < P.MAX_DEPTH
    }

    /** The state between calls. */
    ghost predicate Valid()
      reads this, rstack
    {
      && Layout()
      && P.Valid(Abs())
    }

    /** The state as a value; an idle reader stands before the root item. */
    ghost function Abs(): P.State
      requires Layout()
      reads this, rstack
    {
      P.State(buf[pos..], if ridx == -1 then [P.ROOT] else rstack[..ridx + 1], reply, err)
    }

    /** The state after an item, where an empty stack means that the reply is complete. */
    ghost function Raw(): P.State
      requires Layout()
      reads this, rstack
    {
      P.State(buf[pos..], rstack[..ridx + 1], reply, err)
    }

    /** The state after an item that did not succeed. */
    ghost function Waiting(): P.State
      requires Layout()
      reads this, rstack
    {
      if err == P.NoError then Raw() else Abs()
    }

    constructor ()
      ensures Valid() && fresh(rstack) && Abs() == P.INITIAL
    {
      err, buf, pos, len, ridx, reply := P.NoError, [], 0, 0, -1, P.Empty;
      rstack := new P.Task[P.MAX_DEPTH](_ => P.ROOT);
    }

    /** Errors drop the reply, the buffer and the stack. */
    method SetError(e: P.Error)
      requires Layout() && e != P.NoError
      modifies this
      ensures Layout() && Abs() == P.Failed(e)
    {
      reply, buf, pos, len, ridx, err := P.Empty, [], 0, 0, -1, e;
    }

    /** Leaves the finished task, and every array it completes. */
    method MoveToNextTask()
      requires Layout() && ridx >= 0
      requires P.StackOk(rstack[..ridx + 1], reply)
      modifies this`ridx, rstack
      ensures Layout() && rstack[..ridx + 1] == P.MoveNext(old(rstack[..ridx + 1]))
    {
      hide P.StackOk, P.MoveNext;
      ghost var stack0 := rstack[..ridx + 1];
      P.StackFrames(stack0, reply);
      while ridx >= 0
        invariant 0 <= ridx <= old(ridx)
        invariant rstack[..] == old(rstack[..])
        invariant P.MoveNext(stack0) == P.MoveNext(rstack[..ridx + 1])
        decreases ridx
      {
        if ridx == 0 {
          P.MoveNextRoot(rstack[..ridx + 1]);
          ridx := ridx - 1;
          return;
        }
        ghost var stack := rstack[..ridx + 1];
        assert P.FrameOk(stack0[ridx - 1], stack0[ridx]);
        var cur, prv := rstack[ridx], rstack[ridx - 1];
        assert prv.kind == P.MultiBulk;
        if cur.idx == prv.elements - 1 {
          P.MoveNextPops(stack);
          assert stack[..ridx] == rstack[..ridx];
          ridx := ridx - 1;
        } else {
          assert cur.idx < prv.elements;
          P.MoveNextAdvances(stack);
          rstack[ridx] := cur.(kind := P.Unread, elements := -1, idx := cur.idx + 1);
          assert rstack[..ridx + 1] == stack[..ridx] + [rstack[ridx]];
          return;
        }
      }
    }

    /** Stores the finished object and moves on. */
    method Finish(consumed: nat, obj: P.Reply)
      requires Layout() && ridx >= 0 && P.Sound(Raw()) && err == P.NoError
      requires pos + consumed <= len
      modifies this, rstack
      ensures Layout() && P.Finish(old(Raw()), consumed, obj) == P.Advanced(Raw())
      ensures buf == old(buf) && len == old(len)
    {
      ghost var s := Raw();
      pos := pos + consumed;
      assert buf[pos..] == s.input[consumed..];
      P.AttachKeeps(reply, s.stack, obj);
      reply := P.Attach(reply, rstack[..ridx + 1], obj);
      MoveToNextTask();
    }

    /** Stores an array of 'n' empty slots and descends to its first child. */
    method Open(consumed: nat, n: int)
      requires Layout() && 0 <= ridx < 8 && P.Sound(Raw()) && err == P.NoError
      requires pos + consumed <= len && n > 0
      modifies this, rstack
      ensures Layout()
      ensures Raw() == old(P.State(buf[pos + consumed..], P.Opened(Raw().stack, n),
                                   P.Attach(reply, Raw().stack, P.NewArray(n)), P.NoError))
    {
      ghost var stack := rstack[..ridx + 1];
      pos := pos + consumed;
      reply := P.Attach(reply, rstack[..ridx + 1], P.NewArray(n));
      rstack[ridx] := rstack[ridx].(kind := P.MultiBulk, elements := n);
      ridx := ridx + 1;
      rstack[ridx] := P.Task(P.Unread, -1, 0);
      assert rstack[..ridx + 1] == P.Opened(stack, n);
    }

    method ProcessLineItem() returns (ok: bool)
      requires Layout() && ridx >= 0 && P.Valid(Raw()) && err == P.NoError
      modifies this, rstack
      ensures Layout()
      ensures P.ProcessLine(old(Raw())) == if ok then P.Advanced(Raw()) else P.Blocked(Waiting())
    {
      hide P.StackOk, P.Attach, P.MoveNext, P.FindNewline, P.ReadLongLong, P.Finish;
      var cur := rstack[ridx];
      var line := buf[pos..];
      var n := SeekNewline(line);
      if n == None {
        return false;
      }
      var obj;
      if cur.kind == P.IntegerLine {
        var v := ReadLongLong(line);
        if v == P.Overflow {
          SetError(P.OutOfRange);
          return false;
        }
        obj := P.Integer(v.value);
      } else if cur.kind == P.ErrorLine {
        obj := P.Text(P.ErrorText, line[..n.value]);
      } else {
        obj := P.Text(P.StatusText, line[..n.value]);
      }
      Finish(n.value + 2, obj);
      return true;
    }

    method ProcessBulkItem() returns (ok: bool)
      requires Layout() && ridx >= 0 && P.Valid(Raw()) && err == P.NoError
      modifies this, rstack
      ensures Layout()
      ensures P.ProcessBulk(old(Raw())) == if ok then P.Advanced(Raw()) else P.Blocked(Waiting())
    {
      hide P.StackOk, P.Attach, P.MoveNext, P.FindNewline, P.ReadLongLong, P.Finish;
      var line := buf[pos..];
      var n := SeekNewline(line);
      if n == None {
        return false;
      }
      var bytelen := n.value + 2;
      var v := ReadLongLong(line);
      if v == P.Overflow || v.value + 2 > LLONG_MAX {
        SetError(P.OutOfRange);
        return false;
      }
      if v.value < 0 {
        Finish(bytelen, P.Nil);
        return true;
      }
      bytelen := bytelen + v.value + 2;
      if pos + bytelen <= len {
        Finish(bytelen, P.Text(P.BulkText, line[n.value + 2..n.value + 2 + v.value]));
        return true;
      }
      return false;
    }

    method ProcessMultiBulkItem() returns (ok: bool)
      requires Layout() && ridx >= 0 && P.Sound(Raw()) && err == P.NoError
      modifies this, rstack
      ensures Layout()
      ensures P.ProcessMultiBulk(old(Raw())) == if ok then P.Advanced(Raw()) else P.Blocked(Waiting())
    {
      hide P.StackOk, P.Attach, P.MoveNext, P.FindNewline, P.ReadLongLong, P.Finish;
      if ridx == 8 {
        SetError(P.TooDeep);
        return false;
      }
      var line := buf[pos..];
      var n := SeekNewline(line);
      if n == None {
        return false;
      }
      var v := ReadLongLong(line);
      if v == P.Overflow || v.value > INT_MAX || v.value < -INT_MAX - 1 {
        SetError(P.OutOfRange);
        return false;
      }
      var elements := v.value;
      if elements == -1 {
        Finish(n.value + 2, P.Nil);
      } else if elements > 0 {
        assert line[n.value + 2..] == buf[pos + n.value + 2..];
        Open(n.value + 2, elements);
      } else {
        Finish(n.value + 2, P.NewArray(elements));
      }
      return true;
    }

    method ProcessItem() returns (ok: bool)
      requires Layout() && ridx >= 0 && P.Valid(Raw()) && err == P.NoError
      modifies this, rstack
      ensures Layout()
      ensures P.ProcessItem(old(Raw())) == if ok then P.Advanced(Raw()) else P.Blocked(Waiting())
    {
      hide P.StackOk, P.ProcessMultiBulk, P.ProcessBulk, P.ProcessLine;
      if rstack[ridx].kind == P.Unread {
        if len - pos < 1 {
          return false;
        }
        ghost var s := Raw();
        var b := buf[pos];
        pos := pos + 1;
        var kind := P.KindOf(b);
        if kind == P.Unread {
          SetError(P.BadTypeByte(b));
          return false;
        }
        P.TypedKeeps(reply, s.stack, kind);
        rstack[ridx] := rstack[ridx].(kind := kind);
        assert rstack[..ridx + 1] == P.Typed(s.stack, kind);
        assert buf[pos..] == s.input[1..];
      }
      var kind := rstack[ridx].kind;
      if kind == P.MultiBulk {
        ok := ProcessMultiBulkItem();
      } else if kind == P.BulkString {
        ok := ProcessBulkItem();
      } else {
        ok := ProcessLineItem();
      }
    }

    /** Appends to the buffer. */
    method Feed(v: bytes) returns (ok: bool)
      requires Valid()
      modifies this
      ensures Valid() && ok == (old(err) == P.NoError)
      ensures Abs() == P.Feed(old(Abs()), v)
    {
      if err != P.NoError {
        return false;
      }
      if |v| >= 1 {
        buf := buf + v;
        len := |buf|;
      }
      assert buf[pos..] == old(buf[pos..]) + v;
      return true;
    }

    /** Continues where the last call stopped; the read part of the buffer is dropped now and then. */
    method GetReply() returns (ok: bool, r: Option<P.Reply>)
      requires Valid()
      modifies this, rstack
      ensures Valid() && ok == (err == P.NoError)
      ensures (r, Abs()) == P.GetReply(old(Abs()))
      ensures ok ==> pos < TRIM_AT
    {
      hide P.StackOk, P.ProcessItem, P.Sound;
      r := None;
      if err != P.NoError {
        return false, r;
      }
      if len == 0 {
        P.NothingToRead(Abs());
        return true, r;
      }
      ghost var s := Abs();
      if ridx == -1 {
        rstack[0] := P.ROOT;
        ridx := 0;
        assert rstack[..ridx + 1] == [P.ROOT];
      }
      assert Raw() == s;
      while ridx >= 0
        invariant Layout() && err == P.NoError
        invariant P.Reached(Raw())
        invariant P.Items(s) == if ridx >= 0 then P.Items(Raw()) else Raw()
        decreases |buf[pos..]|
      {
        P.ItemConsumes(Raw());
        var more := ProcessItem();
        if !more {
          assert P.Items(s) == Waiting() && P.Valid(Waiting());
          break;
        }
      }
      if err != P.NoError {
        return false, r;
      }
      ghost var rest := buf[pos..];
      if pos >= TRIM_AT {
        buf := buf[pos..];
        pos := 0;
        len := |buf|;
      }
      assert buf[pos..] == rest;
      if ridx == -1 {
        r := Some(reply.reply);
        reply := P.Empty;
      }
      assert (r, Abs()) == P.GetReply(s);
      return true, r;
    }
  }
}

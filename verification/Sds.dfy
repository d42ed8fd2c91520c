/**
 Strings with a header in front: the length is kept in one of five formats, chosen by size, and there is
 room to grow behind the text.  Stores into a header field are cut to its width, as the machine does.
 Nothing is ever lost by that: the type chosen for a header can hold every length that is stored in it.
 The output buffer of a connection is such a string.
 */
module Sds {
  import opened Bytes

  const TYPE_5: nat := 0
  const TYPE_8: nat := 1
  const TYPE_16: nat := 2
  const TYPE_32: nat := 3
  const TYPE_64: nat := 4

  const MAX_PREALLOC: nat := 0x10_0000
  const SIZE_MAX: nat := 0xffff_ffff_ffff_ffff

  /** The number of values of a length field. */
  function Limit(kind: nat): nat {
    if kind == TYPE_5 then 32
    else if kind == TYPE_8 then 0x100
    else if kind == TYPE_16 then 0x1_0000
    else if kind == TYPE_32 then 0x1_0000_0000
    else 0x1_0000_0000_0000_0000
  }

  /** sdsReqType: the format chosen for a size can hold it, and unless it is the first or the last it can hold one more;
      no narrower one can. */
  function ReqType(size: nat): (kind: nat)
    ensures TYPE_5 <= kind <= TYPE_64
    ensures size <= SIZE_MAX ==> size < Limit(kind)
    ensures kind > TYPE_5 ==> size + 1 >= Limit(kind - 1)
    ensures TYPE_5 < kind < TYPE_64 ==> size + 1 < Limit(kind)
  {
    if size < 32 then TYPE_5
    else if size < 0xff then TYPE_8
    else if size < 0xffff then TYPE_16
    else if size < 0xffff_ffff then TYPE_32
    else TYPE_64
  }

  /** What sdsrange is asked for: both ends count, negative ones from the back, and what lies outside is cut. */
  function RangeOf(s: bytes, start: int, end: int): bytes {
    var first := if start >= 0 then start else if |s| + start < 0 then 0 else |s| + start;
    var last := if end >= 0 then end else if |s| + end < 0 then 0 else |s| + end;
    if first > last || first >= |s| then []
    else s[first..if last < |s| then last + 1 else |s|]
  }

  /** Position 'k' is in the range if and only if it is not before the start and not behind the end; a negative end
      that lies outside stands for the first position. */
  predicate InRange(s: bytes, start: int, end: int, k: int) {
    && 0 <= k < |s| && k >= (if start >= 0 then start else |s| + start)
    && (if end >= 0 then k <= end else k <= |s| + end || k == 0)
  }

  lemma {:induction false} RangeIsExact(s: bytes, start: int, end: int) returns (from: nat)
    ensures from + |RangeOf(s, start, end)| <= |s|
    ensures RangeOf(s, start, end) == s[from..from + |RangeOf(s, start, end)|]
    ensures forall k :: InRange(s, start, end, k) <==> from <= k < from + |RangeOf(s, start, end)|
  {
    var first := if start >= 0 then start else if |s| + start < 0 then 0 else |s| + start;
    from := if RangeOf(s, start, end) == [] then 0 else first;
  }

  /** Conversions to a 32-bit int and to a 64-bit size_t. */
  function AsInt(n: int): int {
    var m := n % 0x1_0000_0000; if m <= INT_MAX then m else m - 0x1_0000_0000
  }

  predicate IsInt(n: int) { -INT_MAX - 1 <= n <= INT_MAX }

  function AsSize(n: int): nat { n % (SIZE_MAX + 1) }

  /** The length of a range, computed in int: it wraps to a negative number, and from there to a huge size, when
      the range is that of all positions. */
  function Span(first: int, last: int): nat {
    if first > last then 0 else AsSize(AsInt(last - first + 1))
  }

  lemma SpanFits(first: nat, last: nat)
    requires IsInt(first) && IsInt(last)
    ensures first > last ==> Span(first, last) == 0
    ensures first <= last && last - first < INT_MAX ==> Span(first, last) == last - first + 1
    ensures Span(first, last) == 0 <==> first > last
  {
    if first <= last {
      var n := last - first + 1;
      if n <= INT_MAX {
        assert AsInt(n) == n && AsSize(n) == n;
      } else {
        assert n == INT_MAX + 1;
        assert AsInt(n) == -INT_MAX - 1;
        assert AsSize(-INT_MAX - 1) == SIZE_MAX - INT_MAX;
      }
    }
  }

  class Str {
    /** The type in the low three bits; for TYPE_5 also the length. */
    var flags: nat
    var hdrLen: nat
    var hdrAlloc: nat
    var buf: array<byte>

    function Kind(): nat
      reads this
    {
      flags % 8
    }

    /** sdslen */
    function Len(): nat
      reads this
    {
      if Kind() == TYPE_5 then flags / 8 else hdrLen
    }

    /** sdsalloc */
    function Alloc(): nat
      reads this
    {
      if Kind() == TYPE_5 then flags / 8 else hdrAlloc
    }

    /** sdsavail */
    function Avail(): int
      reads this
    {
      if Kind() == TYPE_5 then 0 else hdrAlloc - hdrLen
    }

    ghost predicate Valid()
      reads this, buf
    {
      && Kind() <= TYPE_64 && flags < 256
      && Len() <= Alloc() < Limit(Kind()) && Alloc() + 1 <= buf.Length
      && buf[Len()] == 0
    }

    ghost function Contents(): (s: bytes)
      requires Valid()
      reads this, buf
      ensures |s| == Len()
    {
      buf[..Len()]
    }

    /** sdsnewlen */
    constructor NewLen(init: bytes)
      requires |init| <= SIZE_MAX
      ensures Valid() && fresh(buf) && Contents() == init && Alloc() == |init|
      ensures Kind() == if init == [] then TYPE_8 else ReqType(|init|)
    {
      var kind := ReqType(|init|);
      if kind == TYPE_5 && |init| == 0 {
        kind := TYPE_8;
      }
      NewHeader(kind, |init|);
      flags := if kind == TYPE_5 then kind + |init| * 8 else kind;
      hdrLen, hdrAlloc := |init| % Limit(kind), |init| % Limit(kind);
      buf := new byte[|init| + 1](i requires 0 <= i <= |init| => if i < |init| then init[i] else 0);
    }

    static lemma NewHeader(kind: nat, n: nat)
      requires kind <= TYPE_64 && n < Limit(kind)
      ensures n % Limit(kind) == n
      ensures var flags := if kind == TYPE_5 then kind + n * 8 else kind;
              flags < 256 && flags % 8 == kind && (kind == TYPE_5 ==> flags / 8 == n)
    {
    }

    /** Five bits of length are kept above three of type. */
    static lemma ShiftedLength(n: nat)
      ensures (n * 8) % 256 == (n % 32) * 8
      ensures ((n * 8) % 256) % 8 == 0 && ((n * 8) % 256) / 8 == n % 32
    {
      var q, r := n / 32, n % 32;
      assert n * 8 == 256 * q + 8 * r;
      assert (n * 8) / 256 == q;
      assert (8 * r) / 8 == r;
    }

    /** sdssetlen */
    method SetLen(newLen: nat)
      requires Kind() <= TYPE_64
      modifies this`flags, this`hdrLen
      ensures Kind() == old(Kind()) && (old(flags) < 256 ==> flags < 256)
      ensures newLen < Limit(Kind()) ==> Len() == newLen
      ensures Kind() != TYPE_5 ==> flags == old(flags)
    {
      if Kind() == TYPE_5 {
        ShiftedLength(newLen);
        flags := TYPE_5 + (newLen * 8) % 256;
      } else {
        hdrLen := newLen % Limit(Kind());
      }
    }

    /** sdssetalloc */
    method SetAlloc(newLen: nat)
      requires Kind() <= TYPE_64
      modifies this`hdrAlloc
      ensures Kind() != TYPE_5 ==> hdrAlloc == newLen % Limit(Kind())
    {
      if Kind() != TYPE_5 {
        hdrAlloc := newLen % Limit(Kind());
      }
    }

    /** sdsMakeRoomFor: nothing moves while there is room; otherwise the room is doubled, up to a megabyte more. */
    method MakeRoomFor(addLen: nat)
      requires Valid() && Len() + addLen + MAX_PREALLOC <= SIZE_MAX
      modifies this
      ensures Valid() && Contents() == old(Contents()) && Avail() >= addLen
      ensures Avail() == if old(Avail()) >= addLen then old(Avail())
                         else if Len() + addLen < 1048576 then Len() + 2 * addLen
                         else addLen + 1048576
      ensures old(Avail()) >= addLen ==> Kind() == old(Kind()) && buf == old(buf)
      ensures old(Avail()) < addLen ==> Kind() == if ReqType(Alloc()) == TYPE_5 then TYPE_8 else ReqType(Alloc())
      ensures buf == old(buf) || fresh(buf)
    {
      var avail := Avail();
      if avail >= addLen {
        return;
      }
      var len := Len();
      var newLen := len + addLen;
      if newLen < MAX_PREALLOC {
        newLen := newLen * 2;
      } else {
        newLen := newLen + MAX_PREALLOC;
      }
      var kind := ReqType(newLen);
      if kind == TYPE_5 {
        kind := TYPE_8;
      }
      Move(len, newLen, kind);
    }

    /** The text moves to a block of the new size under a header of the new type. */
    method Move(len: nat, newLen: nat, kind: nat)
      requires Valid() && len == Len() <= newLen < Limit(kind) && TYPE_8 <= kind <= TYPE_64
      modifies this
      ensures Valid() && Contents() == old(Contents()) && fresh(buf)
      ensures Len() == len && Alloc() == newLen && Kind() == kind
    {
      var block := new byte[newLen + 1];
      var i := 0;
      while i <= len
        invariant 0 <= i <= len + 1
        modifies block
        invariant forall j | 0 <= j < i :: block[j] == buf[j]
      {
        block[i] := buf[i];
        i := i + 1;
      }
      assert block[..len] == buf[..len];
      buf := block;
      Rehead(len, newLen, kind);
    }

    /** A new header; the old one may stay when the type does. */
    method Rehead(len: nat, newLen: nat, kind: nat)
      requires Kind() <= TYPE_64 && flags < 256 && TYPE_8 <= kind <= TYPE_64 && len <= newLen < Limit(kind)
      requires Len() == len
      modifies this`flags, this`hdrLen, this`hdrAlloc
      ensures flags < 256 && Len() == len && Alloc() == newLen && Kind() == kind
    {
      if Kind() != kind {
        flags := kind;
        SetLen(len);
      }
      SetAlloc(newLen);
    }

    /** sdscatlen */
    method CatLen(t: bytes)
      requires Valid() && Len() + |t| + MAX_PREALLOC <= SIZE_MAX
      modifies this, buf
      ensures Valid() && Contents() == old(Contents()) + t
      ensures buf == old(buf) || fresh(buf)
    {
      hide Limit;
      var curLen := Len();
      MakeRoomFor(|t|);
      ghost var was := Contents();
      var i := 0;
      while i < |t|
        invariant 0 <= i <= |t| && Len() == curLen && Valid0(curLen + |t|)
        invariant buf[..curLen + i] == was + t[..i]
        modifies buf
      {
        buf[curLen + i] := t[i];
        assert buf[..curLen + (i + 1)] == buf[..curLen + i] + [t[i]];
        i := i + 1;
      }
      SetLen(curLen + |t|);
      buf[curLen + |t|] := 0;
      assert buf[..curLen + |t|] == was + t;
    }

    /** The header is sound and there is room for 'n' bytes. */
    ghost predicate Valid0(n: nat)
      reads this
    {
      Kind() <= TYPE_64 && flags < 256 && n <= Alloc() < Limit(Kind()) && Alloc() + 1 <= buf.Length
    }

    /** sdsinclen */
    method IncLen(inc: nat)
      requires Valid() && Len() + inc <= Alloc()
      modifies this`flags, this`hdrLen
      ensures Kind() == old(Kind()) && Len() == old(Len()) + inc && Alloc() == old(Alloc())
    {
      if Kind() == TYPE_5 {
        ShiftedLength(flags / 8 + inc);
        flags := TYPE_5 + ((flags / 8 + inc) * 8) % 256;
      } else {
        hdrLen := (hdrLen + inc) % Limit(Kind());
      }
    }

    /** sdsrange, for strings whose length is an int. */
    method Range(start: int, end: int)
      requires Valid() && Len() <= INT_MAX && IsInt(start) && IsInt(end)
      modifies this`flags, this`hdrLen, buf
      ensures Valid() && Contents() == RangeOf(old(Contents()), start, end)
    {
      ghost var was := Contents();
      var len := Len();
      if len == 0 {
        return;
      }
      var first, newLen := Clip(len, start, end, was);
      if first != 0 && newLen != 0 {
        MoveDown(first, newLen);
      }
      buf[newLen] := 0;
      SetLen(newLen);
      assert buf[..newLen] == was[first..first + newLen];
    }

    /** Where the range starts and how long it is. */
    static method Clip(len: nat, start: int, end: int, ghost s: bytes) returns (first: nat, newLen: nat)
      requires 0 < len == |s| <= INT_MAX && IsInt(start) && IsInt(end)
      ensures first + newLen <= len && RangeOf(s, start, end) == s[first..first + newLen]
    {
      hide Span;
      var from, last := start, end;
      if from < 0 {
        from := len + from;
        if from < 0 {
          from := 0;
        }
      }
      if last < 0 {
        last := len + last;
        if last < 0 {
          last := 0;
        }
      }
      SpanFits(from, last);
      newLen := Span(from, last);
      if newLen != 0 {
        if from >= len {
          newLen := 0;
        } else if last >= len {
          last := len - 1;
          SpanFits(from, last);
          newLen := Span(from, last);
        }
      } else {
        from := 0;
      }
      first := if newLen == 0 then 0 else from;
    }

    /** memmove to the front. */
    method MoveDown(first: nat, newLen: nat)
      requires first + newLen <= buf.Length
      modifies buf
      ensures buf[..newLen] == old(buf[first..first + newLen])
    {
      var i := 0;
      while i < newLen
        invariant 0 <= i <= newLen
        invariant forall j | 0 <= j < i :: buf[j] == old(buf[first + j])
        invariant forall j | i <= j < buf.Length :: buf[j] == old(buf[j])
      {
        buf[i] := buf[first + i];
        i := i + 1;
      }
    }
  }

  /** The output buffer of a connection: commands are appended, and the socket takes what it will. */
  class OutputBuffer {
    var obuf: Str
    ghost var appended: bytes
    ghost var sent: bytes

    /** What was sent followed by what is buffered is all that was appended. */
    ghost predicate Valid()
      reads this, obuf, obuf.buf
    {
      obuf.Valid() && sent + obuf.Contents() == appended
    }

    constructor ()
      ensures Valid() && fresh(obuf) && fresh(obuf.buf) && appended == [] && sent == []
    {
      obuf := new Str.NewLen([]);
      appended, sent := [], [];
    }

    /** __redisAppendCommand */
    method AppendCommand(cmd: bytes)
      requires Valid() && obuf.Len() + |cmd| + MAX_PREALLOC <= SIZE_MAX
      modifies this, obuf, obuf.buf
      ensures Valid() && appended == old(appended) + cmd && sent == old(sent)
      ensures obuf == old(obuf) && (obuf.buf == old(obuf.buf) || fresh(obuf.buf))
    {
      appended := appended + cmd;
      obuf.CatLen(cmd);
    }

    /** redisBufferWrite; 'taken' is what write(2) returns, None when it is to be tried again later. */
    method BufferWrite(taken: Option<nat>) returns (done: bool)
      requires Valid() && obuf.Len() <= INT_MAX && (taken.Some? ==> taken.value <= obuf.Len())
      modifies this, obuf, obuf.buf
      ensures Valid() && appended == old(appended)
      ensures sent == old(sent) + (if taken.Some? then old(obuf.Contents())[..taken.value] else [])
      ensures done == (sent == appended)
      ensures (obuf == old(obuf) && obuf.buf == old(obuf.buf)) || (fresh(obuf) && fresh(obuf.buf))
    {
      ghost var was := obuf.Contents();
      if obuf.Len() > 0 {
        if taken.Some? && taken.value > 0 {
          var n := taken.value;
          sent := sent + was[..n];
          if n == obuf.Len() {
            obuf := new Str.NewLen([]);
          } else {
            obuf.Range(n, -1);
          }
          assert was == was[..n] + was[n..];
        }
      }
      done := obuf.Len() == 0;
    }
  }
}

/**
 Commands in protocol form: the length computed up front, the numbers printed in place, and the bytes
 written.  What is written is the encoding of an array of bulk strings, so the reply reader reads back
 exactly the arguments.  Digits are counted four at a time, printed from the last one and then turned
 around.
 */
module CommandFormatter {
  import opened Bytes
  import P = RespProtocol
  import R = RespRoundTrip

  // ---------- printed numbers ----------

  const SDS_LLSTR_SIZE := 21

  function Pow10(k: nat): (p: nat)
    ensures p >= 1
  {
    if k == 0 then 1 else 10 * Pow10(k - 1)
  }

  lemma {:induction false} DecimalLength(n: nat, k: nat)
    requires k >= 1 && n < Pow10(k)
    ensures |Decimal(n)| <= k
    decreases k
  {
    if n >= 10 {
      assert k >= 2 by { assert Pow10(1) == 10; }
      DecimalLength(n / 10, k - 1);
    }
  }

  /** Room for 20 digits, or a sign and 19 digits, and the terminating zero. */
  lemma NumberFits(n: nat)
    ensures n < 0x1_0000_0000_0000_0000 ==> |Decimal(n)| <= 20
    ensures n <= LLONG_MAX ==> |Decimal(n)| <= 19
  {
    assert Pow10(4) == 1_0000 && Pow10(5) == 10_0000;
    PowAdd(5, 5);
    PowAdd(10, 10);
    PowAdd(4, 5);
    PowAdd(10, 9);
    if n < 0x1_0000_0000_0000_0000 {
      DecimalLength(n, 20);
    }
    if n <= LLONG_MAX {
      DecimalLength(n, 19);
    }
  }

  lemma {:induction false} PowAdd(j: nat, k: nat)
    ensures Pow10(j + k) == Pow10(j) * Pow10(k)
  {
    if j > 0 {
      PowAdd(j - 1, k);
    }
  }

  lemma FourDigits(v: nat)
    requires v >= 10000
    ensures |Decimal(v)| == 4 + |Decimal(v / 10000)|
  {
    assert v / 10 / 10 / 10 / 10 == v / 10000;
    assert |Decimal(v)| == 1 + |Decimal(v / 10)|;
    assert |Decimal(v / 10)| == 1 + |Decimal(v / 10 / 10)|;
    assert |Decimal(v / 10 / 10)| == 1 + |Decimal(v / 10 / 10 / 10)|;
  }

  /** Four digits per round; agrees with the printed number. */
  method CountDigits(v: nat) returns (result: nat)
    ensures result == |Decimal(v)|
  {
    result := 1;
    var w := v;
    while true
      invariant result - 1 + |Decimal(w)| == |Decimal(v)|
      decreases w
    {
      if w < 10 { return result; }
      if w < 100 { return result + 1; }
      if w < 1000 { assert |Decimal(w / 10)| == 2; return result + 2; }
      if w < 10000 { assert |Decimal(w / 10 / 10)| == 2; assert |Decimal(w / 10)| == 3; return result + 3; }
      FourDigits(w);
      w := w / 10000;
      result := result + 4;
    }
  }

  function Reversed(s: bytes): (r: bytes)
    ensures |r| == |s|
    ensures forall k | 0 <= k < |s| :: r[k] == s[|s| - 1 - k]
  {
    if s == [] then [] else Reversed(s[1..]) + [s[0]]
  }

  lemma {:induction false} ReversedAppend(s: bytes, b: byte)
    ensures Reversed(s + [b]) == [b] + Reversed(s)
  {
  }

  /** Swaps from both ends. */
  method ReverseInPlace(s: array<byte>, n: nat)
    requires n <= s.Length
    modifies s
    ensures s[..n] == Reversed(old(s[..n]))
    ensures s[n..] == old(s[n..])
  {
    var lo, hi := 0, n - 1;
    while lo < hi
      invariant 0 <= lo && lo + hi == n - 1 && lo <= hi + 2
      invariant forall k | 0 <= k < lo :: s[k] == old(s[n - 1 - k]) && s[n - 1 - k] == old(s[k])
      invariant forall k | lo <= k <= hi :: s[k] == old(s[k])
      invariant s[n..] == old(s[n..])
    {
      ghost var tail := s[n..];
      s[lo], s[hi] := s[hi], s[lo];
      assert s[n..] == tail;
      lo := lo + 1;
      hi := hi - 1;
    }
    assert forall k | 0 <= k < n :: s[..n][k] == old(s[..n])[n - 1 - k];
  }

  /** The digits that are still to be written. */
  function Front(v: nat): bytes {
    if v == 0 then [] else Decimal(v)
  }

  lemma FrontStep(v: nat)
    requires v > 0
    ensures Decimal(v) == Front(v) == Front(v / 10) + [48 + v % 10]
  {
  }

  /** Writes the digits in reverse order. */
  method PutDigits(s: array<byte>, magnitude: nat) returns (p: nat)
    requires |Decimal(magnitude)| <= s.Length
    modifies s
    ensures p == |Decimal(magnitude)| && Reversed(s[..p]) == Decimal(magnitude)
  {
    hide Decimal, Reversed, Front;
    FirstDigit(magnitude);
    var v: nat;
    v, p := magnitude / 10, 1;
    s[0] := 48 + magnitude % 10;
    ghost var written: bytes := [s[0]];
    while v > 0
      invariant 1 <= p <= |Decimal(magnitude)| && written == s[..p] && |Reversed(written)| == p
      invariant Decimal(magnitude) == Front(v) + Reversed(written)
    {
      OneMoreDigit(v, written);
      s[p] := 48 + v % 10;
      written := written + [s[p]];
      v, p := v / 10, p + 1;
    }
    NothingInFront();
    assert [] + Reversed(written) == Reversed(written);
  }

  lemma FirstDigit(n: nat)
    ensures var w: bytes := [48 + n % 10];
            |Decimal(n)| >= 1 && |Reversed(w)| == 1 && Decimal(n) == Front(n / 10) + Reversed(w)
  {
    var w: bytes := [48 + n % 10];
    assert Reversed(w) == w;
  }

  lemma OneMoreDigit(v: nat, written: bytes)
    requires v > 0
    ensures var digit: byte := 48 + v % 10;
            && Front(v) + Reversed(written) == Front(v / 10) + Reversed(written + [digit])
            && |Reversed(written + [digit])| == |Reversed(written)| + 1 && |Front(v)| >= 1
  {
    var digit: byte := 48 + v % 10;
    FrontStep(v);
    ReversedAppend(written, digit);
    hide Front, Reversed;
    Regroup(Front(v / 10), [digit], Reversed(written));
  }

  lemma NothingInFront()
    ensures Front(0) == []
  {
  }

  /** The digits come out in reverse, then the sign, then everything is turned around. */
  method Ll2Str(s: array<byte>, value: int) returns (l: nat)
    requires s.Length >= SDS_LLSTR_SIZE && -LLONG_MAX <= value <= LLONG_MAX
    modifies s
    ensures l < s.Length && s[..l] == Printed(value) && s[l] == 0
  {
    var v := if value < 0 then -value else value;
    NumberFits(v);
    l := PutDigits(s, v);
    ghost var digits := s[..l];
    if value < 0 {
      s[l] := 45;
      l := l + 1;
      assert s[..l] == digits + [45];
      ReversedAppend(digits, 45);
    }
    Terminate(s, l);
  }

  method Ull2Str(s: array<byte>, v: nat) returns (l: nat)
    requires s.Length >= SDS_LLSTR_SIZE && v < 0x1_0000_0000_0000_0000
    modifies s
    ensures l < s.Length && s[..l] == Decimal(v) && s[l] == 0
  {
    NumberFits(v);
    l := PutDigits(s, v);
    Terminate(s, l);
  }

  method Terminate(s: array<byte>, l: nat)
    requires l < s.Length
    modifies s
    ensures s[..l] == Reversed(old(s[..l])) && s[l] == 0
  {
    s[l] := 0;
    ReverseInPlace(s, l);
    assert s[l] == s[l..][0];
  }

  // ---------- commands ----------

  /** What the reader is to make of a command. */
  function CommandReply(args: seq<bytes>): P.Reply {
    P.Array(|args|, BulkSlots(args))
  }

  function BulkSlots(args: seq<bytes>): (s: seq<P.Slot>)
    ensures |s| == |args|
  {
    seq(|args|, i requires 0 <= i < |args| => P.Full(P.Text(P.BulkText, args[i])))
  }

  method BulkLen(len: nat) returns (n: nat)
    ensures n == 1 + |Decimal(len)| + 2 + len + 2
  {
    var d := CountDigits(len);
    n := 1 + d + 2 + len + 2;
  }

  lemma {:induction false} SlotsAppend(a: seq<P.Slot>, b: seq<P.Slot>)
    ensures R.EncodeSlots(a + b) == R.EncodeSlots(a) + R.EncodeSlots(b)
    decreases |a|
  {
    if a == [] {
      assert a + b == b;
    } else {
      hide R.EncodeSlot;
      SlotsAppend(a[1..], b);
      assert (a + b)[0] == a[0] && (a + b)[1..] == a[1..] + b;
      Regroup(R.EncodeSlot(a[0]), R.EncodeSlots(a[1..]), R.EncodeSlots(b));
    }
  }

  /** The first 'j' arguments in protocol form. */
  ghost function Body(args: seq<bytes>, j: nat): bytes
    requires j <= |args|
  {
    R.EncodeSlots(BulkSlots(args[..j]))
  }

  lemma {:induction false} BodyStep(args: seq<bytes>, j: nat)
    requires j < |args|
    ensures Body(args, j + 1) == Body(args, j) + ([36] + Decimal(|args[j]|) + CRLF + args[j] + CRLF)
  {
    assert BulkSlots(args[..j + 1]) == BulkSlots(args[..j]) + BulkSlots([args[j]]);
    SlotsAppend(BulkSlots(args[..j]), BulkSlots([args[j]]));
    var one := BulkSlots([args[j]]);
    assert one == [P.Full(P.Text(P.BulkText, args[j]))] && one[1..] == [];
    assert R.EncodeSlots(one) == R.EncodeSlot(one[0]) + R.EncodeSlots(one[1..]);
  }

  lemma {:induction false} BodyGrows(args: seq<bytes>, j: nat, k: nat)
    requires j <= k <= |args|
    ensures |Body(args, j)| <= |Body(args, k)|
    decreases k
  {
    if j < k {
      BodyGrows(args, j, k - 1);
      BodyStep(args, k - 1);
    }
  }

  lemma WholeBody(args: seq<bytes>)
    ensures R.Encode(CommandReply(args)) == [42] + Decimal(|args|) + CRLF + Body(args, |args|)
  {
    assert args[..|args|] == args;
  }

  /** The length of the command, computed before anything is written. */
  method TotalLength(args: seq<bytes>) returns (totlen: nat)
    ensures totlen == |R.Encode(CommandReply(args))|
  {
    var d := CountDigits(|args|);
    totlen := 1 + d + 2;
    for j := 0 to |args|
      invariant totlen == 1 + d + 2 + |Body(args, j)|
    {
      var n := BulkLen(|args[j]|);
      BodyStep(args, j);
      totlen := totlen + n;
    }
    WholeBody(args);
  }

  method Write(cmd: array<byte>, pos: nat, s: bytes) returns (next: nat)
    requires pos + |s| <= cmd.Length
    modifies cmd
    ensures next == pos + |s|
    ensures cmd[..next] == old(cmd[..pos]) + s
  {
    forall k | 0 <= k < |s| {
      cmd[pos + k] := s[k];
    }
    next := pos + |s|;
    assert forall k | 0 <= k < pos :: cmd[k] == old(cmd[k]);
    assert cmd[..next] == cmd[..pos] + cmd[pos..next];
    assert cmd[pos..next] == s;
  }

  method WriteArgument(cmd: array<byte>, pos: nat, arg: bytes) returns (next: nat)
    requires pos + 1 + |Decimal(|arg|)| + 2 + |arg| + 2 <= cmd.Length
    modifies cmd
    ensures next == pos + 1 + |Decimal(|arg|)| + 2 + |arg| + 2
    ensures cmd[..next] == old(cmd[..pos]) + ([36] + Decimal(|arg|) + CRLF + arg + CRLF)
  {
    next := Write(cmd, pos, [36] + Decimal(|arg|) + CRLF);
    next := Write(cmd, next, arg);
    next := Write(cmd, next, CRLF);
  }

  /** Allocates exactly the computed length and a terminating zero, and fills all of it. */
  method FormatCommandArgv(args: seq<bytes>) returns (cmd: array<byte>, totlen: nat)
    requires |R.Encode(CommandReply(args))| <= INT_MAX
    ensures fresh(cmd) && cmd.Length == totlen + 1
    ensures cmd[..totlen] == R.Encode(CommandReply(args)) && cmd[totlen] == 0
  {
    totlen := TotalLength(args);
    cmd := new byte[totlen + 1];
    WholeBody(args);
    var header: bytes := [42] + Decimal(|args|) + CRLF;
    var pos := Write(cmd, 0, header);
    assert cmd[..pos] == header + Body(args, 0);
    for j := 0 to |args|
      invariant pos == |header| + |Body(args, j)| <= totlen
      invariant cmd[..pos] == header + Body(args, j)
    {
      BodyStep(args, j);
      BodyGrows(args, j + 1, |args|);
      pos := WriteArgument(cmd, pos, args[j]);
    }
    assert pos == totlen;
    cmd[pos] := 0;
    assert cmd[..totlen] == header + Body(args, |args|);
  }

  /** The same command built by appending; the announced length is met exactly. */
  method FormatSdsCommandArgv(args: seq<bytes>) returns (cmd: bytes, totlen: nat)
    requires |R.Encode(CommandReply(args))| <= INT_MAX
    ensures cmd == R.Encode(CommandReply(args)) && totlen == |cmd|
  {
    totlen := TotalLength(args);
    WholeBody(args);
    cmd := [42] + Decimal(|args|) + CRLF;
    ghost var header := cmd;
    for j := 0 to |args|
      invariant cmd == header + Body(args, j)
    {
      BodyStep(args, j);
      cmd := cmd + ([36] + Decimal(|args[j]|) + CRLF) + args[j] + CRLF;
    }
    assert |cmd| == totlen;
  }

  /** A formatted command, in any pieces, is read back as an array of exactly the arguments. */
  lemma CommandIsReadBack(args: seq<bytes>, pieces: seq<bytes>)
    requires |args| <= INT_MAX
    requires forall i | 0 <= i < |args| :: |args[i]| <= INT_MAX
    requires Concat(pieces) == R.Encode(CommandReply(args))
    ensures P.FeedAll(P.INITIAL, pieces) == ([CommandReply(args)], P.INITIAL)
  {
    var rs, ts := [CommandReply(args)], [R.Encode(CommandReply(args))];
    CommandSpells(args);
    hide CommandReply, R.Encode, R.Spells;
    assert ts[1..] == [] && Concat(ts) == ts[0];
    R.RoundTripInPieces(rs, ts, pieces);
  }

  lemma CommandSpells(args: seq<bytes>)
    requires |args| <= INT_MAX && forall i | 0 <= i < |args| :: |args[i]| <= INT_MAX
    ensures R.Spells(CommandReply(args), R.Encode(CommandReply(args)), 8)
  {
    hide R.Spells, R.Encode;
    R.EncodeSpells(CommandReply(args), 8);
  }
}

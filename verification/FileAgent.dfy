/**
 Following a growing file and handing its content on, block by block.  The agent keeps an offset and the inode it has
 seen last; a block that is not taken is tried again, and with nothing to read it looks whether the file is another
 one, and starts over.  What is handed on is compared here with what the file holds: when it is the content from the
 start on, each byte once, and in which ways it can be less or more.  The conditions are those that hold at the start:
 the mode, whether the file could be opened, and which inode was found.
 */
module FileAgent {
  import opened Bytes
  import opened LineFlow

  const REQ_SIZE: nat := 4096

  /** What the world shows in one turn of the loop: the file at the first and at the second attempt to read
      it (None when it cannot be opened), its inode (None when stat fails), and whether a block is taken. */
  datatype Tick = Tick(first: Option<bytes>, second: Option<bytes>, stat: Option<nat>, accepts: bool)

  /** 'pending' is the block that has been read and not yet taken. */
  datatype Agent = Agent(offset: int, ino: nat, pending: bytes, accepted: seq<bytes>)

  /** What the program finds when it starts: at its end (tail mode), unless the file cannot be opened, which gives -1;
      and the inode, or 0 when stat fails. */
  function Started(isTail: bool, seen: Option<bytes>, stat: Option<nat>): Agent {
    Agent(if !isTail then 0 else if seen.None? then -1 else |seen.value|,
          if stat.None? then 0 else stat.value, [], [])
  }

  /** At most REQ_SIZE bytes from the given offset; none when the file is missing or the offset is bad. */
  function Block(file: Option<bytes>, offset: int): (b: bytes)
    ensures |b| <= REQ_SIZE && (file.None? ==> b == [])
  {
    if file.None? || offset < 0 || offset > |file.value| then []
    else if offset + REQ_SIZE <= |file.value| then file.value[offset..offset + REQ_SIZE]
    else file.value[offset..]
  }

  /** The block to be handed on in this turn. */
  function Next(a: Agent, t: Tick): bytes {
    if a.pending != [] then a.pending
    else if Block(t.first, a.offset) != [] then Block(t.first, a.offset)
    else Block(t.second, a.offset)
  }

  /** With nothing to read and another inode than the one on record, reading starts over. */
  predicate Replaced(a: Agent, t: Tick) {
    Next(a, t) == [] && t.stat.Some? && t.stat.value != a.ino
  }

  function Turn(a: Agent, t: Tick): Agent {
    var block := Next(a, t);
    if block == [] then
      if Replaced(a, t) then a.(ino := t.stat.value, offset := 0) else a
    else
      var b := if a.pending != [] then a else a.(offset := a.offset + |block|);
      if t.accepts then b.(accepted := b.accepted + [block], pending := []) else b.(pending := block)
  }

  function Watch(a: Agent, ticks: seq<Tick>): Agent
    decreases |ticks|
  {
    if ticks == [] then a else Watch(Turn(a, ticks[0]), ticks[1..])
  }

  lemma BlockIs(file: bytes, offset: int, b: bytes)
    requires 0 <= offset && 0 < |b| <= REQ_SIZE && offset + |b| <= |file| && file[offset..offset + |b|] == b
    requires |b| < REQ_SIZE ==> offset + |b| == |file|
    ensures Block(Some(file), offset) == b
  {
  }

  lemma NoBlock(file: Option<bytes>, offset: int)
    requires file.Some? ==> !(0 <= offset < |file.value|)
    ensures Block(file, offset) == []
  {
  }

  // ---------- the program ----------

  class FileReader {
    var offset: int
    var ino: nat

    /** 'seen' is the file when it is opened to find its end; not in tail mode. */
    constructor (isTail: bool, seen: Option<bytes>, stat: Option<nat>)
      ensures Agent(offset, ino, [], []) == Started(isTail, seen, stat)
    {
      offset := 0;
      if isTail {
        offset := if seen.None? then -1 else |seen.value|;
      }
      ino := 0;
      if stat.Some? {
        ino := stat.value;
      }
    }

    /** 0: the bytes of the file from the old offset to the new one, as many as are asked for unless the file ends
        there.  1: there is nothing at the offset.  -1: there is no file. */
    method Read(file: Option<bytes>, previous: bytes) returns (ret: int, buffer: bytes)
      modifies this`offset
      ensures ret == if file.None? then -1 else if 0 <= old(offset) < |file.value| then 0 else 1
      ensures ret == 0 ==>
                && 0 < |buffer| <= REQ_SIZE && offset == old(offset) + |buffer| <= |file.value|
                && file.value[old(offset)..offset] == buffer
                && (|buffer| < REQ_SIZE ==> offset == |file.value|)
      ensures ret != 0 ==> offset == old(offset) && buffer == if ret == 1 then [] else previous
    {
      if file.None? {
        return -1, previous;
      }
      buffer := Block(file, offset);
      ret := if |buffer| == 0 then 1 else 0;
      offset := offset + |buffer|;
    }

    method CheckAndReset(stat: Option<nat>) returns (ret: int)
      modifies this
      ensures ret == if stat.None? then -1 else 0
      ensures ino == if stat.Some? then stat.value else old(ino)
      ensures offset == if stat.Some? && stat.value != old(ino) then 0 else old(offset)
    {
      if stat.None? {
        return -1;
      }
      if stat.value == ino {
        return 0;
      }
      ino, offset := stat.value, 0;
      return 0;
    }
  }

  /** What Read has returned is the block of the specification. */
  lemma WasRead(file: Option<bytes>, offset: int, ret: int, b: bytes)
    requires ret == if file.None? then -1 else if 0 <= offset < |file.value| then 0 else 1
    requires ret == 0 ==>
               && 0 < |b| <= REQ_SIZE && offset + |b| <= |file.value| && file.value[offset..offset + |b|] == b
               && (|b| < REQ_SIZE ==> offset + |b| == |file.value|)
    ensures Block(file, offset) == if ret == 0 then b else []
  {
    if ret == 0 {
      BlockIs(file.value, offset, b);
    } else {
      NoBlock(file, offset);
    }
  }

  /** The beginning of a turn without a block to be retried: two attempts to read, and a look at the inode when
      both find nothing. */
  method ReadTwice(reader: FileReader, tick: Tick, previous: bytes, ghost accepted: seq<bytes>)
    returns (ok: bool, buffer: bytes)
    modifies reader
    ensures var a := Agent(old(reader.offset), old(reader.ino), [], accepted);
            if ok then
              && buffer == Next(a, tick) != [] && reader.offset == a.offset + |buffer| && reader.ino == a.ino
            else Agent(reader.offset, reader.ino, [], accepted) == Turn(a, tick) && Next(a, tick) == []
  {
    hide Block;
    ghost var offset := reader.offset;
    var ret;
    ret, buffer := reader.Read(tick.first, previous);
    WasRead(tick.first, offset, ret, buffer);
    if ret != 0 {
      ret, buffer := reader.Read(tick.second, buffer);
      WasRead(tick.second, offset, ret, buffer);
      if ret != 0 {
        ret := reader.CheckAndReset(tick.stat);
        return false, buffer;
      }
    }
    return true, buffer;
  }

  /** start_watch, for as many turns as there are ticks. */
  method StartWatch(isTail: bool, seen: Option<bytes>, stat: Option<nat>, ticks: seq<Tick>)
    returns (accepted: seq<bytes>, pending: bytes)
    ensures var a := Watch(Started(isTail, seen, stat), ticks); accepted == a.accepted && pending == a.pending
  {
    hide Next, Replaced;
    var reader := new FileReader(isTail, seen, stat);
    accepted := [];
    var buffer: bytes, retry := [], false;
    var i := 0;
    ghost var start := Agent(reader.offset, reader.ino, [], []);
    assert ticks[0..] == ticks;
    while i < |ticks|
      invariant 0 <= i <= |ticks| && (retry ==> buffer != [])
      invariant Watch(Agent(reader.offset, reader.ino, if retry then buffer else [], accepted), ticks[i..])
             == Watch(start, ticks)
    {
      var tick := ticks[i];
      assert ticks[i..][0] == tick && ticks[i..][1..] == ticks[i + 1..];
      NextPending(Agent(reader.offset, reader.ino, if retry then buffer else [], accepted), tick);
      i := i + 1;
      if !retry {
        var ok;
        ok, buffer := ReadTwice(reader, tick, buffer, accepted);
        if !ok {
          continue;
        }
      }
      if !tick.accepts {
        retry := true;
        continue;
      }
      accepted := accepted + [buffer];
      retry := false;
    }
    pending := if retry then buffer else [];
  }

  // ---------- exactly once ----------

  function Latest(file: bytes, seen: Option<bytes>): bytes {
    if seen.Some? then seen.value else file
  }

  predicate Extends(file: bytes, seen: Option<bytes>) {
    seen.Some? ==> file <= seen.value
  }

  /** The file only grows. */
  predicate AppendOnly(file: bytes, ticks: seq<Tick>)
    decreases |ticks|
  {
    ticks == [] ||
    (Extends(file, ticks[0].first) && Extends(Latest(file, ticks[0].first), ticks[0].second)
     && AppendOnly(Latest(Latest(file, ticks[0].first), ticks[0].second), ticks[1..]))
  }

  function Final(file: bytes, ticks: seq<Tick>): bytes
    decreases |ticks|
  {
    if ticks == [] then file else Final(Latest(Latest(file, ticks[0].first), ticks[0].second), ticks[1..])
  }

  /** What has been read so far, taken or not. */
  function Delivered(a: Agent): bytes {
    Concat(a.accepted) + a.pending
  }

  /** Where reading stands; an offset of -1 means that it is still to begin. */
  function Position(a: Agent): nat {
    if a.offset < 0 then 0 else a.offset
  }

  ghost predicate ExactlyOnce(a: Agent, start: nat, file: bytes) {
    start <= Position(a) <= |file| && Delivered(a) == file[start..Position(a)]
  }

  predicate Rewinds(a: Agent, t: Tick) {
    Replaced(a, t) && a.offset > 0
  }

  /** In no turn is the offset set back although something lies before it. */
  predicate NeverRewound(a: Agent, ticks: seq<Tick>)
    decreases |ticks|
  {
    ticks == [] ||
    (!Rewinds(a, ticks[0]) && NeverRewound(Turn(a, ticks[0]), ticks[1..]))
  }

  lemma {:induction false} ConcatMore(chunks: seq<bytes>, c: bytes)
    ensures Concat(chunks + [c]) == Concat(chunks) + c
  {
    if chunks == [] {
      assert [] + [c] == [c] && [c][1..] == [];
      assert c + [] == c && [] + c == c;
    } else {
      ConcatMore(chunks[1..], c);
      assert (chunks + [c])[1..] == chunks[1..] + [c];
      Regroup(chunks[0], Concat(chunks[1..]), c);
    }
  }

  /** A turn adds the block that was read, if any. */
  lemma {:induction false} TurnDelivers(a: Agent, t: Tick)
    ensures Delivered(Turn(a, t)) == Delivered(a) + if a.pending == [] then Next(a, t) else []
  {
    hide Next, Concat;
    var block := Next(a, t);
    ConcatMore(a.accepted, block);
    assert Concat(a.accepted + [block]) + [] == Concat(a.accepted + [block]);
    assert Concat(a.accepted) + [] == Concat(a.accepted);
    NextPending(a, t);
    assert Delivered(a) + [] == Delivered(a);
  }

  /** With nothing to be retried, a turn hands on what lies behind the position, up to 4096 bytes: as the first look
      shows the file or, if that shows nothing, as the second does. */
  lemma {:induction false} TurnLooksTwice(a: Agent, t: Tick)
    requires a.pending == [] && a.offset >= 0
    ensures var file := if t.first.Some? && a.offset < |t.first.value| then t.first.value
                        else if t.second.Some? && a.offset < |t.second.value| then t.second.value
                        else [];
            var end := if a.offset + 4096 < |file| then a.offset + 4096 else |file|;
            var block := if a.offset < |file| then file[a.offset..end] else [];
            && Delivered(Turn(a, t)) == Delivered(a) + block
            && Turn(a, t).accepted == (if block != [] && t.accepts then a.accepted + [block] else a.accepted)
            && (block != [] ==> Turn(a, t).offset == end && Turn(a, t).ino == a.ino)
            && (block == [] ==>
                  if t.stat.Some? && t.stat.value != a.ino then Turn(a, t) == a.(offset := 0, ino := t.stat.value)
                  else Turn(a, t) == a)
  {
    hide Delivered;
    TurnDelivers(a, t);
    NextBlock(t.first, a.offset);
    NextBlock(t.second, a.offset);
  }

  lemma NextBlock(file: Option<bytes>, offset: nat)
    ensures Block(file, offset) ==
              if file.None? || offset >= |file.value| then []
              else file.value[offset..if offset + 4096 < |file.value| then offset + 4096 else |file.value|]
  {
  }

  lemma NextPending(a: Agent, t: Tick)
    ensures a.pending != [] ==> Next(a, t) == a.pending
  {
  }

  /** On a growing file a turn that does not rewind keeps the account exact. */
  lemma {:induction false} TurnKeeps(a: Agent, t: Tick, start: nat, file: bytes)
    requires ExactlyOnce(a, start, file)
    requires Extends(file, t.first) && Extends(Latest(file, t.first), t.second)
    requires !Rewinds(a, t)
    ensures ExactlyOnce(Turn(a, t), start, Latest(Latest(file, t.first), t.second))
  {
    hide Delivered, Turn, Next, Rewinds, Block, Position;
    TurnDelivers(a, t);
    TurnPosition(a, t);
    var later := Latest(Latest(file, t.first), t.second);
    assert later[..|file|] == file;
    if a.pending == [] {
      BlockIsNext(a, t, file);
      Adjacent(file, later, start, Position(a), |Next(a, t)|);
    } else {
      Adjacent(file, later, start, Position(a), 0);
    }
  }

  lemma Adjacent(file: bytes, later: bytes, start: nat, offset: nat, n: nat)
    requires start <= offset <= |file| && offset + n <= |later| && file <= later
    ensures file[start..offset] + later[offset..offset + n] == later[start..offset + n]
  {
  }

  lemma TurnPosition(a: Agent, t: Tick)
    requires !Rewinds(a, t)
    ensures Position(Turn(a, t)) == Position(a) + if a.pending == [] then |Next(a, t)| else 0
  {
  }

  lemma {:induction false} BlockIsNext(a: Agent, t: Tick, file: bytes)
    requires Position(a) <= |file| && a.pending == []
    requires Extends(file, t.first) && Extends(Latest(file, t.first), t.second)
    ensures var b := Next(a, t);
            var later := Latest(Latest(file, t.first), t.second);
            var p := Position(a);
            file <= later && p + |b| <= |later| && b == later[p..p + |b|]
  {
    var later := Latest(Latest(file, t.first), t.second);
    if t.first.Some? {
      assert later[..|t.first.value|] == t.first.value;
    }
  }

  /** How much more has been delivered than lies before the position; it never shrinks. */
  lemma {:induction false} SurplusGrows(a: Agent, ticks: seq<Tick>)
    ensures var b := Watch(a, ticks);
            && |Delivered(b)| - Position(b) >= |Delivered(a)| - Position(a)
            && (!NeverRewound(a, ticks) ==> |Delivered(b)| - Position(b) > |Delivered(a)| - Position(a))
    decreases |ticks|
  {
    hide Delivered, Turn, Next, Rewinds, Position;
    if ticks != [] {
      TurnDelivers(a, ticks[0]);
      if Rewinds(a, ticks[0]) {
        RewoundPosition(a, ticks[0]);
      } else {
        TurnPosition(a, ticks[0]);
      }
      SurplusGrows(Turn(a, ticks[0]), ticks[1..]);
    }
  }

  lemma RewoundPosition(a: Agent, t: Tick)
    requires Rewinds(a, t)
    ensures Position(Turn(a, t)) == 0 < Position(a)
  {
    hide Next;
  }

  lemma {:induction false} NeverRewoundKeeps(a: Agent, ticks: seq<Tick>, start: nat, file: bytes)
    requires ExactlyOnce(a, start, file) && AppendOnly(file, ticks) && NeverRewound(a, ticks)
    ensures ExactlyOnce(Watch(a, ticks), start, Final(file, ticks))
    decreases |ticks|
  {
    hide Turn, Rewinds, ExactlyOnce, Latest;
    if ticks != [] {
      TurnKeeps(a, ticks[0], start, file);
      NeverRewoundKeeps(Turn(a, ticks[0]), ticks[1..], start, Latest(Latest(file, ticks[0].first), ticks[0].second));
    }
  }

  /** The runs in which the file only grows from what was seen at the start on. */
  predicate Grows(isTail: bool, seen: Option<bytes>, file: bytes, ticks: seq<Tick>) {
    (isTail ==> seen.None? || seen.value <= file) && AppendOnly(file, ticks)
  }

  /** On a file that only grows, the blocks handed on are the content from the start on, exactly once, in
      order and without gap, however often blocks are refused and tried again -- if and only if the check
      for a new file never sets a positive offset back. */
  lemma {:induction false} DeliveredExactlyOnce(isTail: bool, seen: Option<bytes>, stat: Option<nat>, file: bytes,
                                                ticks: seq<Tick>)
    requires Grows(isTail, seen, file, ticks)
    ensures var a := Started(isTail, seen, stat);
            ExactlyOnce(Watch(a, ticks), Position(a), Final(file, ticks)) <==> NeverRewound(a, ticks)
  {
    hide Watch, NeverRewound, AppendOnly, Final;
    var a := Started(isTail, seen, stat);
    var start := Position(a);
    assert file[start..start] == [] && Delivered(a) == [];
    SurplusGrows(a, ticks);
    if NeverRewound(a, ticks) {
      NeverRewoundKeeps(a, ticks, start, file);
    }
  }

  /** Every successful stat shows the inode 'n'. */
  predicate Shows(ticks: seq<Tick>, n: nat) {
    forall t | t in ticks :: t.stat == None || t.stat == Some(n)
  }

  /** The first successful look at the inode, at the latest, leaves it on record, and it stays there. */
  lemma {:induction false} NotRewound(a: Agent, n: nat, ticks: seq<Tick>)
    requires Shows(ticks, n) && (a.ino == n || (a.offset < 0 && a.pending == []))
    ensures NeverRewound(a, ticks)
    decreases |ticks|
  {
    hide Shows;
    if ticks != [] {
      FirstShows(ticks, n);
      NotRewound(Turn(a, ticks[0]), n, ticks[1..]);
    }
  }

  lemma FirstShows(ticks: seq<Tick>, n: nat)
    requires Shows(ticks, n) && ticks != []
    ensures (ticks[0].stat == None || ticks[0].stat == Some(n)) && Shows(ticks[1..], n)
  {
    assert ticks[0] in ticks;
  }

  /** The inode found at the start; 0 stands for none. */
  predicate OnRecord(stat: Option<nat>, n: nat) { stat == Some(n) || (stat == None && n == 0) }

  /** What the program can rely on when it starts, as long as nothing but the inode 'n' is seen: in every run and at
      every moment delivery has been exact so far, if and only if 'n' is the inode on record or the end of the
      file was asked for and it could not be opened. */
  lemma {:induction false} ExactInEveryRun(isTail: bool, seen: Option<bytes>, stat: Option<nat>, n: nat)
    ensures var a := Started(isTail, seen, stat);
            (forall file: bytes, ticks | Grows(isTail, seen, file, ticks) && Shows(ticks, n) ::
               ExactlyOnce(Watch(a, ticks), Position(a), Final(file, ticks)))
            <==> OnRecord(stat, n) || (isTail && seen.None?)
  {
    hide Watch, NeverRewound, Grows, Final, ExactlyOnce, Shows;
    var a := Started(isTail, seen, stat);
    if a.ino == n || (isTail && seen.None?) {
      forall file: bytes, ticks | Grows(isTail, seen, file, ticks) && Shows(ticks, n)
        ensures ExactlyOnce(Watch(a, ticks), Position(a), Final(file, ticks))
      {
        NotRewound(a, n, ticks);
        DeliveredExactlyOnce(isTail, seen, stat, file, ticks);
      }
    } else {
      var file := (if isTail then seen.value else []) + [0];
      var ticks := [Poll(file, n), Poll(file, n)];
      SteadyFile(file, n, ticks);
      GrowsFrom(isTail, seen, file, ticks);
      RewoundAtTheEnd(a, n, file);
      DeliveredExactlyOnce(isTail, seen, stat, file, ticks);
    }
  }

  lemma GrowsFrom(isTail: bool, seen: Option<bytes>, file: bytes, ticks: seq<Tick>)
    requires (isTail && seen.Some? ==> seen.value <= file) && AppendOnly(file, ticks)
    ensures Grows(isTail, seen, file, ticks)
  {
  }

  /** A turn in which the file does not change and the block is taken. */
  function Poll(file: bytes, n: nat): Tick {
    Tick(Some(file), Some(file), Some(n), true)
  }

  lemma {:induction false} RewoundAtTheEnd(a: Agent, n: nat, file: bytes)
    requires 0 <= a.offset && |file| == a.offset + 1 && a.pending == [] && a.ino != n
    ensures !NeverRewound(a, [Poll(file, n), Poll(file, n)])
  {
    var t := Poll(file, n);
    var ticks := [t, t];
    var b := Turn(a, t);
    assert b.offset == a.offset + 1 && b.pending == [] && b.ino == a.ino;
    assert ticks[1..] == [t] && Rewinds(b, t);
    assert [t][1..] == [];
  }

  // ---------- everything in the end ----------

  function Copies(t: Tick, k: nat): (s: seq<Tick>)
    ensures |s| == k
  {
    seq(k, i => t)
  }

  /** The number of blocks in 'n' bytes. */
  function Blocks(n: nat): nat { (n + REQ_SIZE - 1) / REQ_SIZE }

  /** Either the inode is on record and reading has begun, or neither. */
  predicate Consistent(a: Agent, n: nat) {
    if a.offset < 0 then a.ino != n && a.pending == [] else a.ino == n
  }

  /** The polls that are still needed: for the block to be retried, to begin, and to read. */
  function Needed(a: Agent, file: bytes): nat
    requires Position(a) <= |file|
  {
    (if a.pending == [] then 0 else 1) + (if a.offset < 0 then 1 else 0) + Blocks(|file| - Position(a))
  }

  lemma {:induction false} PollShrinks(a: Agent, file: bytes, n: nat)
    requires Position(a) <= |file| && Consistent(a, n)
    ensures var b := Turn(a, Poll(file, n));
            && Consistent(b, n) && !Rewinds(a, Poll(file, n)) && Position(b) <= |file|
            && (if Needed(a, file) == 0 then b == a else Needed(b, file) < Needed(a, file))
  {
  }

  lemma {:induction false} ConsistentKeeps(a: Agent, ticks: seq<Tick>, n: nat)
    requires Consistent(a, n) && Shows(ticks, n)
    ensures Consistent(Watch(a, ticks), n)
    decreases |ticks|
  {
    hide Shows;
    if ticks != [] {
      FirstShows(ticks, n);
      ConsistentKeeps(Turn(a, ticks[0]), ticks[1..], n);
    }
  }

  /** Enough polls of a file that has come to rest deliver what is missing, and any more change nothing. */
  lemma {:induction false} Settles(a: Agent, start: nat, file: bytes, n: nat, k: nat)
    requires ExactlyOnce(a, start, file) && Consistent(a, n) && k >= Needed(a, file)
    ensures Concat(Watch(a, Copies(Poll(file, n), k)).accepted) == file[start..]
    decreases k
  {
    hide Turn, Consistent, Rewinds, Needed, Delivered;
    var t := Poll(file, n);
    if k == 0 {
      Finished(a, start, file);
    } else {
      var ticks := Copies(t, k);
      assert ticks[0] == t && ticks[1..] == Copies(t, k - 1);
      PollShrinks(a, file, n);
      TurnKeeps(a, t, start, file);
      Settles(Turn(a, t), start, file, n, k - 1);
    }
  }

  lemma Finished(a: Agent, start: nat, file: bytes)
    requires ExactlyOnce(a, start, file) && Needed(a, file) == 0
    ensures Concat(a.accepted) == file[start..]
  {
    assert Concat(a.accepted) + [] == Concat(a.accepted);
  }

  /** Once the file has come to rest, enough polls have handed on all of it from the start on, each byte once. */
  ghost predicate AllSent(a: Agent, file: bytes, ticks: seq<Tick>, n: nat, k: nat) {
    var f := Final(file, ticks);
    Position(a) <= |f| && Concat(Watch(a, ticks + Copies(Poll(f, n), k)).accepted) == f[Position(a)..]
  }

  /** As long as nothing but the inode 'n' is seen, every run hands on everything in the end and nothing twice, if and
      only if the inode on record differs from 'n' exactly when the end of the file was asked for and it could not
      be opened. */
  lemma {:induction false} AllSentInTheEnd(isTail: bool, seen: Option<bytes>, stat: Option<nat>, n: nat)
    ensures var a := Started(isTail, seen, stat);
            (forall file: bytes, ticks, k: nat
               | Grows(isTail, seen, file, ticks) && Shows(ticks, n) && k >= Blocks(|Final(file, ticks)|) + 2 ::
               AllSent(a, file, ticks, n, k))
            <==> (!OnRecord(stat, n) <==> isTail && seen.None?)
  {
    hide Watch, Grows, Final, Shows, AllSent, Blocks;
    var a := Started(isTail, seen, stat);
    if a.ino != n <==> isTail && seen.None? {
      forall file: bytes, ticks, k: nat
        | Grows(isTail, seen, file, ticks) && Shows(ticks, n) && k >= Blocks(|Final(file, ticks)|) + 2
        ensures AllSent(a, file, ticks, n, k)
      {
        SentInTheEnd(isTail, seen, stat, n, file, ticks, k);
      }
    } else {
      var file := (if isTail && seen.Some? then seen.value else []) + [0];
      var k := Blocks(|file|) + 2;
      assert Final(file, []) == file by { NothingSeen(file); }
      SteadyFile(file, n, []);
      GrowsFrom(isTail, seen, file, []);
      assert Shows([], n) by { NobodyLooks(n); }
      NotAllSent(isTail, seen, stat, n, file, k);
    }
  }

  lemma NothingSeen(file: bytes)
    ensures Final(file, []) == file
  {
  }

  lemma NobodyLooks(n: nat)
    ensures Shows([], n)
  {
  }

  lemma {:induction false} SentInTheEnd(isTail: bool, seen: Option<bytes>, stat: Option<nat>, n: nat, file: bytes,
                                        ticks: seq<Tick>, k: nat)
    requires var a := Started(isTail, seen, stat); a.ino != n <==> isTail && seen.None?
    requires Grows(isTail, seen, file, ticks) && Shows(ticks, n) && k >= Blocks(|Final(file, ticks)|) + 2
    ensures AllSent(Started(isTail, seen, stat), file, ticks, n, k)
  {
    hide Watch, Grows, Final, Shows, NeverRewound, Delivered, Turn;
    var a := Started(isTail, seen, stat);
    NotRewound(a, n, ticks);
    DeliveredExactlyOnce(isTail, seen, stat, file, ticks);
    ConsistentKeeps(a, ticks, n);
    var b, f := Watch(a, ticks), Final(file, ticks);
    WatchBoth(a, ticks, Copies(Poll(f, n), k));
    Settles(b, Position(a), f, n, k);
  }

  /** Each of the two ways in which it fails. */
  lemma {:induction false} NotAllSent(isTail: bool, seen: Option<bytes>, stat: Option<nat>, n: nat, x: bytes, k: nat)
    requires var a := Started(isTail, seen, stat); !(a.ino != n <==> isTail && seen.None?)
    requires |x| == Position(Started(isTail, seen, stat)) + 1 && (isTail && seen.Some? ==> seen.value <= x)
    requires k == Blocks(|x|) + 2
    ensures !AllSent(Started(isTail, seen, stat), x, [], n, k)
  {
    hide Watch, Turn;
    var a := Started(isTail, seen, stat);
    var ticks := Copies(Poll(x, n), k);
    assert [] + ticks == ticks;
    SteadyFile(x, n, ticks);
    if a.ino == n {
      assert Shows(ticks, n);
      NothingIsEverSent(isTail, seen, stat, n, ticks);
    } else {
      var start := Position(a);
      assert Blocks(|x| - start) == 1;
      var again := Copies(Poll(x, n), Blocks(|x| - start)) + [Poll(x, n)] + Copies(Poll(x, n), Blocks(|x|));
      assert ticks == again;
      SentAgain(isTail, seen, stat, n, x);
    }
  }

  /** The file could not be opened, but its inode was found: whatever happens to it, nothing is read as long as
      that inode is seen. */
  lemma {:induction false} NothingIsEverSent(isTail: bool, seen: Option<bytes>, stat: Option<nat>, n: nat,
                                             ticks: seq<Tick>)
    requires isTail && seen.None? && OnRecord(stat, n) && Shows(ticks, n)
    ensures Watch(Started(isTail, seen, stat), ticks) == Started(isTail, seen, stat)
    decreases |ticks|
  {
    hide Shows;
    if ticks != [] {
      FirstShows(ticks, n);
      NothingIsEverSent(isTail, seen, stat, n, ticks[1..]);
    }
  }

  lemma {:induction false} WatchBoth(a: Agent, s: seq<Tick>, t: seq<Tick>)
    ensures Watch(a, s + t) == Watch(Watch(a, s), t)
    decreases |s|
  {
    hide Turn;
    if s == [] {
      assert s + t == t;
    } else {
      assert (s + t)[0] == s[0] && (s + t)[1..] == s[1..] + t;
      WatchBoth(Turn(a, s[0]), s[1..], t);
    }
  }

  /** Polling reads a file to its end. */
  lemma {:induction false} PolledToTheEnd(a: Agent, x: bytes, n: nat)
    requires 0 <= a.offset <= |x| && a.pending == []
    ensures var b := Watch(a, Copies(Poll(x, n), Blocks(|x| - a.offset)));
            && b.offset == |x| && b.ino == a.ino && b.pending == []
            && Concat(b.accepted) == Concat(a.accepted) + x[a.offset..]
    decreases |x| - a.offset
  {
    hide Concat;
    var t, k := Poll(x, n), Blocks(|x| - a.offset);
    var ticks := Copies(t, k);
    if a.offset == |x| {
      assert ticks == [] && Concat(a.accepted) + [] == Concat(a.accepted);
    } else {
      var b, block := Turn(a, t), Block(Some(x), a.offset);
      assert 0 < |block| && b == Agent(a.offset + |block|, a.ino, [], a.accepted + [block]);
      assert ticks[0] == t && ticks[1..] == Copies(t, k - 1);
      assert Blocks(|x| - b.offset) == k - 1;
      PolledToTheEnd(b, x, n);
      ConcatMore(a.accepted, block);
      Regroup(Concat(a.accepted), block, x[b.offset..]);
      assert block + x[b.offset..] == x[a.offset..];
    }
  }

  /** The file was opened, or its end was not asked for, and another inode is on record: after what lies behind the
      start the whole file is sent. */
  lemma {:induction false} SentAgain(isTail: bool, seen: Option<bytes>, stat: Option<nat>, n: nat, x: bytes)
    requires (isTail ==> seen.Some? && |seen.value| <= |x|) && !OnRecord(stat, n)
    ensures var a := Started(isTail, seen, stat);
            var ticks := Copies(Poll(x, n), Blocks(|x| - a.offset)) + [Poll(x, n)] + Copies(Poll(x, n), Blocks(|x|));
            AppendOnly(x, ticks) && Shows(ticks, n) && Concat(Watch(a, ticks).accepted) == x[a.offset..] + x
  {
    hide Concat, Blocks, Watch, Turn;
    var t := Poll(x, n);
    var a := Started(isTail, seen, stat);
    var once, all := Copies(t, Blocks(|x| - a.offset)), Copies(t, Blocks(|x|));
    NothingYet();
    assert x[0..] == x;
    PolledToTheEnd(a, x, n);
    var b := Watch(a, once);
    StartsOver(b, x, n);
    PolledToTheEnd(Turn(b, t), x, n);
    WatchBoth(a, once + [t], all);
    WatchBoth(a, once, [t]);
    WatchOne(b, [t]);
    SteadyFile(x, n, once + [t] + all);
  }

  lemma StartsOver(a: Agent, x: bytes, n: nat)
    requires a.offset >= |x| && a.pending == [] && a.ino != n
    ensures Turn(a, Poll(x, n)) == a.(offset := 0, ino := n)
  {
  }

  /** At the end of a file on record nothing happens. */
  lemma {:induction false} Idle(a: Agent, x: bytes, n: nat, k: nat)
    requires a.offset == |x| && a.ino == n && a.pending == []
    ensures Watch(a, Copies(Poll(x, n), k)) == a
    decreases k
  {
    if k > 0 {
      var ticks := Copies(Poll(x, n), k);
      assert ticks[0] == Poll(x, n) && ticks[1..] == Copies(Poll(x, n), k - 1);
      Idle(a, x, n, k - 1);
    }
  }

  /** The end of a file that is not on record, and what comes of it. */
  lemma {:induction false} ReadAgain(a: Agent, x: bytes, n: nat, k: nat)
    requires a.offset >= |x| && a.pending == [] && a.ino != n && k >= 1 + Blocks(|x|)
    ensures Concat(Watch(a, Copies(Poll(x, n), k)).accepted) == Concat(a.accepted) + x
  {
    hide Concat, Blocks, Watch, Turn;
    var t := Poll(x, n);
    var all, rest := Copies(t, Blocks(|x|)), Copies(t, k - 1 - Blocks(|x|));
    assert Copies(t, k) == [t] + (all + rest);
    assert x[0..] == x;
    StartsOver(a, x, n);
    var b := Turn(a, t);
    WatchBoth(a, [t], all + rest);
    WatchOne(a, [t]);
    WatchBoth(b, all, rest);
    PolledToTheEnd(b, x, n);
    Idle(Watch(b, all), x, n, k - 1 - Blocks(|x|));
  }

  /** When the file has been replaced, the new one is handed on from its beginning, and nothing else is, if and only
      if it had not outgrown the old position when it was first looked at: otherwise what lies behind that position
      is handed on as well, and first. */
  lemma {:induction false} ReplacedFileIsSent(a: Agent, x: bytes, n: nat, k: nat)
    requires a.offset >= 0 && a.pending == [] && a.ino != n && k >= 1 + 2 * Blocks(|x|)
    ensures var sent := Concat(Watch(a, Copies(Poll(x, n), k)).accepted);
            && sent == Concat(a.accepted) + ((if a.offset < |x| then x[a.offset..] else []) + x)
            && (sent == Concat(a.accepted) + x <==> |x| <= a.offset)
  {
    hide Concat, Watch, Turn;
    var t := Poll(x, n);
    if |x| <= a.offset {
      ReadAgain(a, x, n, k);
      assert [] + x == x;
    } else {
      var j := Blocks(|x| - a.offset);
      var b := Watch(a, Copies(t, j));
      assert Copies(t, k) == Copies(t, j) + Copies(t, k - j);
      PolledToTheEnd(a, x, n);
      WatchBoth(a, Copies(t, j), Copies(t, k - j));
      ReadAgain(b, x, n, k - j);
      Regroup(Concat(a.accepted), x[a.offset..], x);
    }
  }

  /** So a file that is created after the agent was started is sent twice when its end was not asked for, ... */
  lemma {:induction false} LateFileIsSentTwice(n: nat, x: bytes)
    requires n != 0
    ensures var ticks := Copies(Poll(x, n), Blocks(|x|)) + [Poll(x, n)] + Copies(Poll(x, n), Blocks(|x|));
            Concat(Watch(Started(false, None, None), ticks).accepted) == x + x
  {
    SentAgain(false, None, None, n, x);
    assert x[0..] == x;
  }

  /** ... and once when it was. */
  lemma {:induction false} LateFileIsSentOnce(n: nat, file: bytes, ticks: seq<Tick>, k: nat)
    requires n != 0 && AppendOnly(file, ticks) && Shows(ticks, n) && k >= Blocks(|Final(file, ticks)|) + 2
    ensures Concat(Watch(Started(true, None, None), ticks + Copies(Poll(Final(file, ticks), n), k)).accepted)
         == Final(file, ticks)
  {
    hide Watch, Final, Shows, AppendOnly, Blocks;
    SentInTheEnd(true, None, None, n, file, ticks, k);
    assert Final(file, ticks)[0..] == Final(file, ticks);
  }

  lemma NothingYet()
    ensures Concat([]) == [] && forall x: bytes :: Concat([]) + x == x
  {
  }

  lemma {:induction false} SteadyFile(x: bytes, n: nat, ticks: seq<Tick>)
    requires forall t | t in ticks :: t == Poll(x, n)
    ensures AppendOnly(x, ticks) && Shows(ticks, n)
    decreases |ticks|
  {
    if ticks != [] {
      assert ticks[0] in ticks && forall t | t in ticks[1..] :: t in ticks;
      SteadyFile(x, n, ticks[1..]);
    }
  }

  lemma WatchOne(a: Agent, ticks: seq<Tick>)
    requires ticks != []
    ensures Watch(a, ticks) == Watch(Turn(a, ticks[0]), ticks[1..])
    ensures |ticks| == 1 ==> Watch(a, ticks) == Turn(a, ticks[0])
  {
  }

  /** From the file to the lines: what the line handler makes of the blocks is what the content holds. */
  lemma {:induction false} LinesOfTheFile(isTail: bool, seen: Option<bytes>, stat: Option<nat>, n: nat, file: bytes,
                                          ticks: seq<Tick>)
    requires Grows(isTail, seen, file, ticks) && Shows(ticks, n)
    requires OnRecord(stat, n) || (isTail && seen.None?)
    ensures var start := Position(Started(isTail, seen, stat));
            var a := Watch(Started(isTail, seen, stat), ticks);
            var end := Position(a) - |a.pending|;
            && start <= end <= |Final(file, ticks)|
            && Lines(Concat(a.accepted)) == Lines(Final(file, ticks)[start..end])
            && (forall c | c in a.accepted :: 0 < |c| <= REQ_SIZE)
  {
    hide Watch, NeverRewound, Grows, Final, Lines, Concat, Shows;
    var a := Started(isTail, seen, stat);
    var start := Position(a);
    NotRewound(a, n, ticks);
    DeliveredExactlyOnce(isTail, seen, stat, file, ticks);
    BlocksAreSmall(a, ticks);
    var b, f := Watch(a, ticks), Final(file, ticks);
    assert f[start..Position(b)][..|Concat(b.accepted)|] == f[start..start + |Concat(b.accepted)|];
  }

  lemma {:induction false} BlocksAreSmall(a: Agent, ticks: seq<Tick>)
    requires |a.pending| <= REQ_SIZE && forall c | c in a.accepted :: 0 < |c| <= REQ_SIZE
    ensures forall c | c in Watch(a, ticks).accepted :: 0 < |c| <= REQ_SIZE
    decreases |ticks|
  {
    if ticks != [] {
      BlocksAreSmall(Turn(a, ticks[0]), ticks[1..]);
    }
  }
}

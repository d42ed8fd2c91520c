/**
 The asynchronous client as it is written: a linked list of callbacks with a head and a tail pointer, and a
 context whose flags are set and read by functions that user code calls back into.  Each method is proved
 to do what the protocol on values says.
 */
module AsyncContext {
  import opened Bytes
  import opened AsyncProtocol

  class Node {
    const cb: Callback
    var next: Node?

    constructor (cb: Callback)
      ensures this.cb == cb && next == null
    {
      this.cb := cb;
      next := null;
    }
  }

  class CallbackList {
    var head: Node?
    var tail: Node?
    ghost var nodes: seq<Node>

    ghost predicate Valid()
      reads this, nodes
    {
      && (forall i, j | 0 <= i < j < |nodes| :: nodes[i] != nodes[j])
      && (nodes == [] ==> head == null && tail == null)
      && (nodes != [] ==> head == nodes[0] && tail == nodes[|nodes| - 1])
      && (nodes != [] ==> nodes[|nodes| - 1].next == null)
      && (forall i | 0 <= i < |nodes| - 1 :: nodes[i].next == nodes[i + 1])
    }

    ghost function Contents(): (c: seq<Callback>)
      reads this
      ensures |c| == |nodes|
    {
      seq(|nodes|, i requires 0 <= i < |nodes| reads this => nodes[i].cb)
    }

    constructor ()
      ensures Valid() && Contents() == [] && nodes == []
    {
      head, tail, nodes := null, null, [];
    }

    method Push(cb: Callback)
      requires Valid()
      modifies this, nodes
      ensures Valid() && Contents() == old(Contents()) + [cb]
      ensures |nodes| > 0 && nodes[..|nodes| - 1] == old(nodes) && fresh(nodes[|nodes| - 1])
    {
      var node := new Node(cb);
      if head == null {
        head := node;
      }
      if tail != null {
        tail.next := node;
      }
      tail := node;
      nodes := nodes + [node];
    }

    method Shift() returns (r: Option<Callback>)
      requires Valid()
      modifies this
      ensures Valid()
      ensures r == if old(nodes) == [] then None else Some(old(Contents()[0]))
      ensures nodes == if old(nodes) == [] then [] else old(nodes[1..])
      ensures Contents() == if old(nodes) == [] then [] else old(Contents()[1..])
    {
      var first := head;
      if first != null {
        assert |nodes| > 1 ==> nodes[0] != nodes[|nodes| - 1];
        assert forall i | 0 <= i < |nodes| - 1 :: nodes[1..][i] == nodes[i + 1];
        head := first.next;
        if first == tail {
          tail := null;
        }
        nodes := nodes[1..];
        return Some(first.cb);
      }
      return None;
    }
  }

  class RedisAsyncContext {
    const replies: CallbackList
    const script: Script
    var obuf: bytes
    var connected: bool
    var disconnecting: bool
    var freeing: bool
    var inCallback: bool
    var err: bool
    var freed: bool
    var aborted: bool
    var accepted: seq<Callback>
    var texts: bytes
    var sent: bytes
    var handled: seq<Handled>
    var log: seq<Handled>
    var received: seq<Reply>
    var disconnects: seq<bool>

    ghost predicate Valid()
      reads this, replies, replies.nodes
    {
      replies.Valid()
    }

    ghost function Footprint(): set<object>
      reads this, replies
    {
      {this, replies} + set n | n in replies.nodes
    }

    ghost function Abs(): State
      reads this, replies
    {
      State(replies.Contents(), obuf, connected, disconnecting, freeing, inCallback, err, freed, aborted,
            accepted, texts, sent, handled, log, received, disconnects)
    }

    constructor (script: Script)
      ensures Valid() && fresh(Footprint()) && this.script == script && Abs() == INITIAL
    {
      this.script := script;
      replies := new CallbackList();
      obuf, texts, sent := [], [], [];
      connected, disconnecting, freeing, inCallback, err := false, false, false, false, false;
      freed, aborted := false, false;
      accepted, handled, log, received, disconnects := [], [], [], [], [];
    }

    method AsyncCommand(cb: Callback, text: bytes) returns (ok: bool)
      requires Valid()
      modifies Footprint()
      ensures Valid() && fresh(Footprint() - old(Footprint()))
      ensures ok == !Refuses(old(Abs())) && Abs() == IssueCommand(old(Abs()), cb, text)
    {
      if disconnecting || freeing {
        return false;
      }
      replies.Push(cb);
      obuf := obuf + text;
      accepted, texts := accepted + [cb], texts + text;
      return true;
    }

    /** The user's callback: every call it makes comes back into the context. */
    method Invoke(calls: seq<Call>)
      requires Valid() && inCallback
      modifies Footprint()
      ensures Valid() && fresh(Footprint() - old(Footprint()))
      ensures Abs() == NestedAll(old(Abs()), calls)
      decreases false, 7, |calls|
    {
      hide Release, RunCallback, DisconnectNow;
      if calls != [] {
        match calls[0] {
          case Command(cb, text) =>
            var _ := AsyncCommand(cb, text);
          case Disconnect =>
            AsyncDisconnect();
          case Free =>
            AsyncFree();
        }
        Invoke(calls[1..]);
      }
    }

    method Run(cb: Callback, reply: Option<Reply>)
      requires Valid() && !inCallback
      modifies Footprint()
      ensures Valid() && fresh(Footprint() - old(Footprint()))
      ensures Abs() == RunCallback(script, old(Abs()), cb, reply)
      decreases true, 2
    {
      hide NestedAll;
      if cb.fn.Some? {
        var calls := script(|log|);
        ghost var s := Abs();
        inCallback := true;
        log := log + [Handled(cb, reply)];
        assert Abs() == s.(inCallback := true, log := s.log + [Handled(cb, reply)]);
        Invoke(calls);
        ghost var u := Abs();
        inCallback := false;
        assert Abs() == u.(inCallback := false);
      }
    }

    method ShiftReply(reply: Option<Reply>) returns (cb: Option<Callback>)
      requires Valid()
      modifies Footprint()
      ensures Valid() && Footprint() <= old(Footprint())
      ensures var s := old(Abs());
              && cb == (if s.pending == [] then None else Some(s.pending[0]))
              && Abs() == if s.pending == [] then s else Shift(s, reply)
    {
      cb := replies.Shift();
      if cb.Some? {
        handled := handled + [Handled(cb.value, reply)];
        if reply.Some? {
          received := received + [reply.value];
        }
      }
    }

    /** __redisAsyncFree */
    method FreeNow()
      requires Valid() && !inCallback && !freed && (Refuses(Abs()) || Abs().pending == [])
      modifies Footprint()
      ensures Valid() && fresh(Footprint() - old(Footprint()))
      ensures Abs() == Release(script, old(Abs()))
      decreases true, 3
    {
      hide RunCallback;
      ghost var s := old(Abs());
      var more := true;
      while more
        invariant Valid() && !inCallback && fresh(Footprint() - old(Footprint()))
        invariant Refuses(Abs()) || Abs().pending == []
        invariant Drain(script, Abs()) == Drain(script, s)
        invariant !more ==> Abs().pending == []
        decreases |Abs().pending|, more
      {
        ghost var t := Abs();
        var cb := ShiftReply(None);
        if cb.Some? {
          DrainUnfolds(script, t);
          Run(cb.value, None);
        } else {
          more := false;
        }
      }
      if connected {
        disconnects := disconnects + [freeing || !err];
      }
      freed := true;
    }

    /** redisAsyncFree */
    method AsyncFree()
      requires Valid() && (inCallback || !freed)
      modifies Footprint()
      ensures Valid() && fresh(Footprint() - old(Footprint()))
      ensures Abs() == if old(inCallback) then Nested(old(Abs()), Free) else UserFreeStep(script, old(Abs()))
      decreases !inCallback, 5
    {
      freeing := true;
      if !inCallback {
        FreeNow();
      }
    }

    /** __redisAsyncDisconnect: with no error noted the list must be empty. */
    method DisconnectContext()
      requires Valid() && !inCallback && !freed && (err || Abs().pending == [])
      modifies Footprint()
      ensures Valid() && fresh(Footprint() - old(Footprint()))
      ensures Abs() == DisconnectNow(script, old(Abs()))
      decreases true, 4
    {
      if !err {
        var ret := replies.Shift();
        assert ret == None;
      } else {
        disconnecting := true;
      }
      FreeNow();
    }

    /** redisAsyncDisconnect */
    method AsyncDisconnect()
      requires Valid() && (inCallback || !freed)
      modifies Footprint()
      ensures Valid() && fresh(Footprint() - old(Footprint()))
      ensures Abs() == if old(inCallback) then Nested(old(Abs()), Disconnect)
                       else UserDisconnectStep(script, old(Abs()))
      decreases !inCallback, 6
    {
      disconnecting := true;
      if !inCallback && replies.head == null {
        DisconnectContext();
      }
    }

    /** A reply that no command waits for. */
    method Spontaneous(reply: Reply)
      requires Valid() && !inCallback && !freed && replies.nodes == []
      modifies Footprint()
      ensures Valid() && fresh(Footprint() - old(Footprint()))
      ensures var s := old(Abs());
              Abs() == if reply.isError then DisconnectNow(script, s.(err := true)) else s.(aborted := true)
    {
      hide DisconnectNow;
      if reply.isError {
        err := true;
        DisconnectContext();
      } else {
        aborted := true;
      }
    }

    /** One reply: 'done' when the context was freed or an assertion failed. */
    method HandleReply(reply: Reply, ghost rest: seq<Reply>, ghost broken: bool) returns (done: bool)
      requires Valid() && !inCallback && !err && !freed
      modifies Footprint()
      ensures Valid() && fresh(Footprint() - old(Footprint()))
      ensures done ==> Abs() == Process(script, old(Abs()), [reply] + rest, broken)
      ensures !done ==> !inCallback && !err && !freed
      ensures !done ==> Process(script, Abs(), rest, broken) == Process(script, old(Abs()), [reply] + rest, broken)
    {
      hide RunCallback, Release, DisconnectNow, Process, Runs;
      ProcessUnfolds(script, Abs(), [reply] + rest, broken);
      assert ([reply] + rest)[1..] == rest;
      var cb := ShiftReply(Some(reply));
      if cb == None {
        Spontaneous(reply);
        return true;
      }
      Run(cb.value, Some(reply));
      if cb.value.fn.Some? && freeing {
        FreeNow();
        return true;
      }
      return false;
    }

    /** redisProcessCallbacks, for the replies that the reader yields before it runs dry or fails. */
    method ProcessCallbacks(replies: seq<Reply>, broken: bool)
      requires Valid() && !inCallback && !err && !freed
      modifies Footprint()
      ensures Valid() && fresh(Footprint() - old(Footprint()))
      ensures Abs() == Process(script, old(Abs()), replies, broken)
    {
      hide RunCallback, Shift, Release, DisconnectNow, Process, Runs;
      var i := 0;
      while i < |replies|
        invariant 0 <= i <= |replies|
        invariant Valid() && !inCallback && !err && !freed && fresh(Footprint() - old(Footprint()))
        invariant Process(script, Abs(), replies[i..], broken) == Process(script, old(Abs()), replies, broken)
      {
        assert replies[i..] == [replies[i]] + replies[i + 1..];
        var done := HandleReply(replies[i], replies[i + 1..], broken);
        if done {
          return;
        }
        i := i + 1;
      }
      ProcessEnds(script, Abs(), broken);
      assert replies[i..] == [];
      if broken {
        err := true;
        DisconnectContext();
      } else if disconnecting && obuf == [] && this.replies.head == null {
        DisconnectContext();
      }
    }

    /** __redisAsyncHandleConnect, called by the first events on a socket. */
    method ConnectFirst(connect: Connect)
      requires Valid() && !inCallback && !freed
      modifies Footprint()
      ensures Valid() && fresh(Footprint() - old(Footprint()))
      ensures Abs() == HandleConnect(script, old(Abs()), connect)
    {
      hide DisconnectNow;
      if !connected {
        match connect
        case Established =>
          connected := true;
        case InProgress =>
          err := true;
        case Failed =>
          err := true;
          DisconnectContext();
      }
    }

    /** redisBufferWrite, when the socket takes at most 'limit' bytes. */
    method BufferWrite(limit: nat)
      requires Valid()
      modifies this
      ensures Valid() && Footprint() == old(Footprint())
      ensures sent + obuf == old(sent + obuf) && |sent| == old(|sent|) + Min(limit, old(|obuf|))
      ensures Abs() == Written(old(Abs()), limit)
    {
      var n := Min(limit, |obuf|);
      assert obuf == obuf[..n] + obuf[n..];
      obuf, sent := obuf[n..], sent + obuf[..n];
    }

    /** redisAsyncHandleRead */
    method HandleRead(connect: Connect, ioError: bool, received: seq<Reply>, broken: bool)
      requires Valid() && !inCallback && !freed
      modifies Footprint()
      ensures Valid() && fresh(Footprint() - old(Footprint()))
      ensures Abs() == Step(script, old(Abs()), Readable(connect, ioError, received, broken))
    {
      hide DisconnectNow, Process, HandleConnect;
      ConnectOutside(script, Abs(), connect);
      ConnectFirst(connect);
      if connected && !freed {
        if ioError || err {
          err := true;
          DisconnectContext();
        } else {
          ProcessCallbacks(received, broken);
        }
      }
    }

    /** redisAsyncHandleWrite */
    method HandleWrite(connect: Connect, ioError: bool, written: nat)
      requires Valid() && !inCallback && !freed
      modifies Footprint()
      ensures Valid() && fresh(Footprint() - old(Footprint()))
      ensures Abs() == Step(script, old(Abs()), Writable(connect, ioError, written))
    {
      hide DisconnectNow, HandleConnect, Written;
      ConnectOutside(script, Abs(), connect);
      ConnectFirst(connect);
      if connected && !freed {
        if ioError || err {
          err := true;
          DisconnectContext();
        } else {
          BufferWrite(written);
        }
      }
    }
  }

  lemma {:induction false} ConnectOutside(script: Script, s: State, connect: Connect)
    requires !s.inCallback && !s.freed
    ensures var t := HandleConnect(script, s, connect); !t.inCallback || t.freed
  {
    hide DisconnectNow;
  }

  lemma {:induction false} ProcessEnds(script: Script, s: State, broken: bool)
    requires !s.err && !s.freed
    ensures Process(script, s, [], broken)
         == if broken then DisconnectNow(script, s.(err := true))
            else if s.disconnecting && s.obuf == [] && s.pending == [] then DisconnectNow(script, s)
            else s
  {
  }

  lemma {:induction false} ProcessUnfolds(script: Script, s: State, replies: seq<Reply>, broken: bool)
    requires !s.err && !s.freed && !s.inCallback && replies != []
    ensures s.pending == [] ==>
              Process(script, s, replies, broken)
              == if replies[0].isError then DisconnectNow(script, s.(err := true)) else s.(aborted := true)
    ensures s.pending != [] ==>
              var u := RunCallback(script, Shift(s, Some(replies[0])), s.pending[0], Some(replies[0]));
              && !u.err && !u.freed && !u.inCallback
              && Process(script, s, replies, broken)
                 == if s.pending[0].fn.Some? && u.freeing then Release(script, u)
                    else Process(script, u, replies[1..], broken)
  {
    hide RunCallback, Heeded, HeededText, Release, DisconnectNow;
    if s.pending != [] {
      RunEffect(script, Shift(s, Some(replies[0])), s.pending[0], Some(replies[0]));
    }
  }

  lemma {:induction false} DrainUnfolds(script: Script, s: State)
    requires s.pending != [] && Refuses(s) && !s.inCallback
    ensures var u := RunCallback(script, Shift(s, None), s.pending[0], None);
            && Refuses(u) && |u.pending| == |s.pending| - 1 && !u.inCallback
            && Drain(script, s) == Drain(script, u)
  {
    hide RunCallback, Heeded, HeededText;
    RunEffect(script, Shift(s, None), s.pending[0], None);
  }
}

/**
 The callback protocol of the asynchronous client, on values.  A callback is arbitrary user code: what
 the n-th one to run does, issue commands, disconnect or free, is given by a script that nothing is
 assumed about.
 */
module AsyncProtocol {
  import opened Bytes

  /** 'fn' is None for a command issued without a callback. */
  datatype Callback = Callback(fn: Option<nat>)

  /** A command comes with its formatted text. */
  datatype Call = Command(cb: Callback, text: bytes) | Disconnect | Free

  type Script = nat -> seq<Call>

  datatype Reply = Reply(id: nat, isError: bool)

  /** A command and the reply with which it left the queue, None for a NULL reply. */
  datatype Handled = Handled(cb: Callback, reply: Option<Reply>)

  /** 'pending' is the list of callbacks, 'obuf' the text not yet written.  From 'accepted' on the rest
      is history: the commands accepted and their texts, the bytes written, how each command left the
      queue, the callbacks that ran, the replies given to commands, and the status of each call to the
      disconnect callback. */
  datatype State = State(
    pending: seq<Callback>, obuf: bytes,
    connected: bool, disconnecting: bool, freeing: bool, inCallback: bool, err: bool,
    freed: bool, aborted: bool,
    accepted: seq<Callback>, texts: bytes, sent: bytes,
    handled: seq<Handled>, log: seq<Handled>, received: seq<Reply>,
    disconnects: seq<bool>)

  const INITIAL :=
    State([], [], false, false, false, false, false, false, false, [], [], [], [], [], [], [])

  /** New commands are refused from the first request to disconnect or free. */
  predicate Refuses(s: State) {
    s.disconnecting || s.freeing
  }

  // ---------- calls ----------

  function IssueCommand(s: State, cb: Callback, text: bytes): State {
    if Refuses(s) then s
    else s.(pending := s.pending + [cb], accepted := s.accepted + [cb],
            obuf := s.obuf + text, texts := s.texts + text)
  }

  /** A call made by a callback: disconnecting and freeing are only noted. */
  function Nested(s: State, call: Call): State {
    match call
    case Command(cb, text) => IssueCommand(s, cb, text)
    case Disconnect => s.(disconnecting := true)
    case Free => s.(freeing := true)
  }

  function NestedAll(s: State, calls: seq<Call>): State
    decreases |calls|
  {
    if calls == [] then s else NestedAll(Nested(s, calls[0]), calls[1..])
  }

  function RunCallback(script: Script, s: State, cb: Callback, reply: Option<Reply>): State {
    if cb.fn == None then s
    else
      var entered := s.(inCallback := true, log := s.log + [Handled(cb, reply)]);
      NestedAll(entered, script(|s.log|)).(inCallback := false)
  }

  function Shift(s: State, reply: Option<Reply>): State
    requires s.pending != []
  {
    s.(pending := s.pending[1..],
       handled := s.handled + [Handled(s.pending[0], reply)],
       received := match reply case Some(r) => s.received + [r] case None => s.received)
  }

  /** The commands that come before any request to disconnect or free, and their texts. */
  function Heeded(calls: seq<Call>): seq<Callback> {
    if calls == [] || !calls[0].Command? then [] else [calls[0].cb] + Heeded(calls[1..])
  }

  function HeededText(calls: seq<Call>): bytes {
    if calls == [] || !calls[0].Command? then [] else calls[0].text + HeededText(calls[1..])
  }

  /** The state after commands were accepted, with the given flags. */
  function Extended(s: State, cbs: seq<Callback>, text: bytes, disconnecting: bool, freeing: bool): State {
    s.(pending := s.pending + cbs, accepted := s.accepted + cbs,
       obuf := s.obuf + text, texts := s.texts + text,
       disconnecting := disconnecting, freeing := freeing)
  }

  lemma ExtendedTwice(s: State, a: seq<Callback>, b: seq<Callback>, u: bytes, v: bytes, d: bool, f: bool,
                      disconnecting: bool, freeing: bool)
    ensures Extended(Extended(s, a, u, d, f), b, v, disconnecting, freeing)
         == Extended(s, a + b, u + v, disconnecting, freeing)
  {
    Regroup(s.pending, a, b);
    Regroup(s.accepted, a, b);
    Regroup(s.obuf, u, v);
    Regroup(s.texts, u, v);
  }

  lemma ExtendedByNothing(s: State)
    ensures Extended(s, [], [], s.disconnecting, s.freeing) == s
  {
  }

  lemma NestedUnfolds(s: State, calls: seq<Call>)
    ensures NestedAll(s, calls) == if calls == [] then s else NestedAll(Nested(s, calls[0]), calls[1..])
  {
  }

  /** One call, in the same form. */
  lemma NestedOne(s: State, call: Call)
    ensures var cbs := if call.Command? && !Refuses(s) then [call.cb] else [];
            var text := if call.Command? && !Refuses(s) then call.text else [];
            Nested(s, call) == Extended(s, cbs, text, s.disconnecting || call.Disconnect?, s.freeing || call.Free?)
  {
  }

  /** What a callback can do to the context, in one step: only the commands before the first request to
      disconnect or free are taken, and the requests are noted. */
  lemma {:induction false} NestedEffect(s: State, calls: seq<Call>)
    ensures NestedAll(s, calls)
         == Extended(s, if Refuses(s) then [] else Heeded(calls), if Refuses(s) then [] else HeededText(calls),
                     s.disconnecting || Disconnect in calls, s.freeing || Free in calls)
    decreases |calls|
  {
    hide NestedAll, Nested, Extended;
    NestedUnfolds(s, calls);
    if calls == [] {
      ExtendedByNothing(s);
    } else {
      var u := Nested(s, calls[0]);
      var d, f := s.disconnecting || Disconnect in calls, s.freeing || Free in calls;
      NestedOne(s, calls[0]);
      NestedFlags(s, calls[0]);
      NestedEffect(u, calls[1..]);
      assert calls == [calls[0]] + calls[1..];
      var taken := calls[0].Command? && !Refuses(s);
      var cbs0, text0 := if taken then [calls[0].cb] else [], if taken then calls[0].text else [];
      var cbs1 := if Refuses(u) then [] else Heeded(calls[1..]);
      var text1 := if Refuses(u) then [] else HeededText(calls[1..]);
      assert cbs0 + cbs1 == (if Refuses(s) then [] else Heeded(calls));
      assert text0 + text1 == (if Refuses(s) then [] else HeededText(calls));
      ExtendedTwice(s, cbs0, cbs1, text0, text1, u.disconnecting, u.freeing, d, f);
    }
  }

  lemma NestedFlags(s: State, call: Call)
    ensures Nested(s, call).disconnecting == (s.disconnecting || call.Disconnect?)
    ensures Nested(s, call).freeing == (s.freeing || call.Free?)
  {
  }

  /** Everything still queued is run with a NULL reply; nothing can be queued meanwhile. */
  function Drain(script: Script, s: State): (r: State)
    requires Refuses(s) || s.pending == []
    ensures r.pending == [] && r.freed == s.freed
    decreases |s.pending|
  {
    if s.pending == [] then s
    else
      var cb := s.pending[0];
      var t := Shift(s, None);
      NestedEffect(t.(inCallback := true, log := t.log + [Handled(cb, None)]), script(|t.log|));
      Drain(script, RunCallback(script, t, cb, None))
  }

  /** The context goes away, once; the disconnect callback learns whether that was intended. */
  function Release(script: Script, s: State): (r: State)
    requires !s.freed && (Refuses(s) || s.pending == [])
    ensures r.freed && r.pending == []
  {
    var d := Drain(script, s);
    d.(freed := true,
       disconnects := if d.connected then d.disconnects + [d.freeing || !d.err] else d.disconnects)
  }

  /** A clean disconnect finds the queue empty; after an error nothing new may be queued. */
  function DisconnectNow(script: Script, s: State): (r: State)
    requires !s.freed && (s.err || s.pending == [])
    ensures r.freed && r.pending == []
  {
    Release(script, if s.err then s.(disconnecting := true) else s)
  }

  // ---------- what the event loop and the user do ----------

  datatype Connect = Established | InProgress | Failed

  datatype Event =
    | UserCommand(cb: Callback, text: bytes)
    | UserDisconnect
    | UserFree
    | Readable(connect: Connect, ioError: bool, replies: seq<Reply>, broken: bool)
    | Writable(connect: Connect, ioError: bool, sent: nat)

  function UserFreeStep(script: Script, s: State): State
    requires !s.freed
  {
    Release(script, s.(freeing := true))
  }

  function UserDisconnectStep(script: Script, s: State): State
    requires !s.freed
  {
    var t := s.(disconnecting := true);
    if t.pending == [] then DisconnectNow(script, t) else t
  }

  /** The replies that have been read are handed out one by one; 'broken' says that the reader fails
      after them.  A reply that no command waits for ends the connection if it is an error; any other
      breaks an assertion. */
  function Process(script: Script, s: State, replies: seq<Reply>, broken: bool): State
    requires !s.err && !s.freed
    decreases |replies|
  {
    if replies == [] then
      if broken then DisconnectNow(script, s.(err := true))
      else if s.disconnecting && s.obuf == [] && s.pending == [] then DisconnectNow(script, s)
      else s
    else if s.pending == [] then
      if replies[0].isError then DisconnectNow(script, s.(err := true)) else s.(aborted := true)
    else
      var cb := s.pending[0];
      var t := Shift(s, Some(replies[0]));
      NestedEffect(t.(inCallback := true, log := t.log + [Handled(cb, Some(replies[0]))]), script(|t.log|));
      var u := RunCallback(script, t, cb, Some(replies[0]));
      if cb.fn.Some? && u.freeing then Release(script, u) else Process(script, u, replies[1..], broken)
  }

  /** The first event on a socket tells whether the connection was made.  Asking leaves an error behind
      even when the answer is that the attempt goes on. */
  function HandleConnect(script: Script, s: State, connect: Connect): State
    requires !s.freed
  {
    if s.connected then s
    else
      match connect
      case Established => s.(connected := true)
      case InProgress => s.(err := true)
      case Failed => DisconnectNow(script, s.(err := true))
  }

  function Min(a: nat, b: nat): nat { if a < b then a else b }

  /** The socket takes at most 'limit' bytes of the buffer. */
  function Written(s: State, limit: nat): State {
    var n := Min(limit, |s.obuf|);
    s.(obuf := s.obuf[n..], sent := s.sent + s.obuf[..n])
  }

  /** One event, outside any callback. */
  function Step(script: Script, s: State, e: Event): State
    requires !s.freed
  {
    match e
    case UserCommand(cb, text) => IssueCommand(s, cb, text)
    case UserDisconnect => UserDisconnectStep(script, s)
    case UserFree => UserFreeStep(script, s)
    case Readable(connect, ioError, replies, broken) =>
      var t := HandleConnect(script, s, connect);
      if !t.connected || t.freed then t
      else if ioError || t.err then DisconnectNow(script, t.(err := true))
      else Process(script, t, replies, broken)
    case Writable(connect, ioError, sent) =>
      var t := HandleConnect(script, s, connect);
      if !t.connected || t.freed then t
      else if ioError || t.err then DisconnectNow(script, t.(err := true))
      else Written(t, sent)
  }

  // ---------- the invariant ----------

  function Callbacks(h: seq<Handled>): (c: seq<Callback>)
    ensures |c| == |h|
  {
    seq(|h|, i requires 0 <= i < |h| => h[i].cb)
  }

  /** The callbacks that have a function, in order. */
  function Runs(h: seq<Handled>): seq<Handled> {
    if h == [] then []
    else Runs(h[..|h| - 1]) + (if h[|h| - 1].cb.fn.Some? then [h[|h| - 1]] else [])
  }

  /** Every accepted command is handled or pending, in the order of acceptance; what ran is what was
      handled and has a function, once each; the i-th reply went to the i-th command, and after the
      last reply there are only NULL replies.  What was written followed by what is still buffered is
      the texts of the accepted commands. */
  ghost predicate History(s: State) {
    && s.sent + s.obuf == s.texts
    && Callbacks(s.handled) + s.pending == s.accepted
    && s.log == Runs(s.handled)
    && |s.received| <= |s.handled|
    && (forall i | 0 <= i < |s.received| :: s.handled[i].reply == Some(s.received[i]))
    && (forall i | |s.received| <= i < |s.handled| :: s.handled[i].reply == None)
  }

  /** While the context lives, every handled command got a reply and nobody has asked for it to be freed. */
  ghost predicate Alive(s: State) {
    History(s) && |s.received| == |s.handled| && !s.freeing && !s.inCallback && !s.freed && s.disconnects == []
  }

  /** After the end: nothing is pending, and the disconnect callback was called once if ever connected; it
      learns of a failure only if there was an error and the user did not ask for the context to be freed. */
  ghost predicate Dead(s: State) {
    History(s) && s.freed && s.pending == [] && s.disconnects == if s.connected then [s.freeing || !s.err] else []
  }

  ghost predicate Inv(s: State) {
    Alive(s) || Dead(s)
  }

  /** The log after the first command has been answered with 'reply'. */
  function Logged(s: State, reply: Option<Reply>): seq<Handled>
    requires s.pending != []
  {
    s.log + if s.pending[0].fn.Some? then [Handled(s.pending[0], reply)] else []
  }

  lemma {:induction false} ShiftKeeps(s: State, reply: Option<Reply>)
    requires s.pending != [] && History(s)
    requires reply.Some? ==> |s.received| == |s.handled|
    ensures var t := Shift(s, reply);
            && History(t.(log := Logged(s, reply)))
            && (reply.Some? ==> |t.received| == |t.handled|)
  {
    var t := Shift(s, reply);
    assert t.handled[..|t.handled| - 1] == s.handled;
    assert Callbacks(t.handled) == Callbacks(s.handled) + [s.pending[0]];
    assert s.pending == [s.pending[0]] + s.pending[1..];
  }

  lemma {:induction false} ExtendedKeeps(s: State, cbs: seq<Callback>, text: bytes, disconnecting: bool, freeing: bool)
    requires History(s)
    ensures History(Extended(s, cbs, text, disconnecting, freeing))
  {
    hide Callbacks, Runs;
    Regroup(Callbacks(s.handled), s.pending, cbs);
    Regroup(s.sent, s.obuf, text);
  }

  lemma {:induction false} RunEffect(script: Script, s: State, cb: Callback, reply: Option<Reply>)
    requires !s.inCallback
    ensures var calls := script(|s.log|);
            RunCallback(script, s, cb, reply)
            == if cb.fn == None then s
               else Extended(s.(log := s.log + [Handled(cb, reply)]),
                             if Refuses(s) then [] else Heeded(calls), if Refuses(s) then [] else HeededText(calls),
                             s.disconnecting || Disconnect in calls, s.freeing || Free in calls)
  {
    hide NestedAll, Heeded, HeededText;
    if cb.fn.Some? {
      NestedEffect(s.(inCallback := true, log := s.log + [Handled(cb, reply)]), script(|s.log|));
    }
  }

  /** A command leaves the queue and its callback runs: the history stays in order. */
  lemma {:induction false} RunKeeps(script: Script, s: State, reply: Option<Reply>)
    requires s.pending != [] && History(s) && !s.inCallback
    requires reply.Some? ==> |s.received| == |s.handled|
    ensures var u := RunCallback(script, Shift(s, reply), s.pending[0], reply);
            && History(u) && !u.inCallback
            && u.handled == s.handled + [Handled(s.pending[0], reply)]
            && (reply.Some? ==> |u.received| == |u.handled|)
            && (Refuses(s) ==> Refuses(u) && |u.pending| == |s.pending| - 1)
            && |u.pending| >= |s.pending| - 1
            && u.err == s.err && u.connected == s.connected && u.freed == s.freed && u.disconnects == s.disconnects
            && u.aborted == s.aborted
            && (s.freeing ==> u.freeing)
            && (s.pending[0].fn == None ==> u.freeing == s.freeing)
  {
    hide RunCallback, Heeded, HeededText, History, Runs;
    var cb := s.pending[0];
    var t := Shift(s, reply);
    ShiftKeeps(s, reply);
    RunEffect(script, t, cb, reply);
    if cb.fn.Some? {
      var calls := script(|t.log|);
      ExtendedKeeps(t.(log := Logged(s, reply)),
                    if Refuses(t) then [] else Heeded(calls), if Refuses(t) then [] else HeededText(calls),
                    t.disconnecting || Disconnect in calls, t.freeing || Free in calls);
    } else {
      assert t.(log := Logged(s, reply)) == t by {
        assert t.log + [] == t.log;
      }
    }
  }

  lemma {:induction false} DrainKeeps(script: Script, s: State)
    requires History(s) && !s.inCallback && (Refuses(s) || s.pending == [])
    ensures var d := Drain(script, s);
            && History(d) && !d.inCallback && d.err == s.err && d.connected == s.connected
            && d.freed == s.freed && d.disconnects == s.disconnects && d.aborted == s.aborted
            && (s.freeing ==> d.freeing)
    decreases |s.pending|
  {
    hide RunCallback, Shift, History;
    if s.pending != [] {
      RunKeeps(script, s, None);
      DrainKeeps(script, RunCallback(script, Shift(s, None), s.pending[0], None));
    }
  }

  lemma {:induction false} ReleaseEnds(script: Script, s: State)
    requires History(s) && !s.inCallback && (Refuses(s) || s.pending == []) && s.disconnects == [] && !s.freed
    ensures Dead(Release(script, s)) && Release(script, s).aborted == s.aborted
    ensures s.freeing ==> Release(script, s).freeing
  {
    DrainKeeps(script, s);
  }

  /** The precondition of DisconnectNow is what the assertion in the clean case checks. */
  lemma {:induction false} DisconnectEnds(script: Script, s: State)
    requires History(s) && !s.inCallback && (s.err || s.pending == []) && s.disconnects == [] && !s.freed
    ensures Dead(DisconnectNow(script, s)) && DisconnectNow(script, s).aborted == s.aborted
  {
    ReleaseEnds(script, if s.err then s.(disconnecting := true) else s);
  }

  lemma {:induction false} ProcessKeeps(script: Script, s: State, replies: seq<Reply>, broken: bool)
    requires Alive(s) && !s.err
    ensures Inv(Process(script, s, replies, broken))
    ensures Process(script, s, replies, broken).aborted && !s.aborted ==> |replies| > |s.pending|
    decreases |replies|
  {
    if replies == [] {
      DisconnectEnds(script, s.(err := true));
      if s.pending == [] {
        DisconnectEnds(script, s);
      }
    } else if s.pending == [] {
      DisconnectEnds(script, s.(err := true));
    } else {
      var cb := s.pending[0];
      RunKeeps(script, s, Some(replies[0]));
      var u := RunCallback(script, Shift(s, Some(replies[0])), cb, Some(replies[0]));
      if cb.fn.Some? && u.freeing {
        ReleaseEnds(script, u);
      } else {
        ProcessKeeps(script, u, replies[1..], broken);
      }
    }
  }

  lemma {:induction false} CommandKeeps(s: State, cb: Callback, text: bytes)
    requires Alive(s)
    ensures Alive(IssueCommand(s, cb, text))
  {
    Regroup(Callbacks(s.handled), s.pending, [cb]);
    Regroup(s.sent, s.obuf, text);
  }

  /** What was written moves from the buffer to the wire. */
  lemma {:induction false} WriteKeeps(s: State, limit: nat)
    requires Alive(s)
    ensures Alive(Written(s, limit)) && Written(s, limit).aborted == s.aborted
  {
    hide Callbacks, Runs;
    var n := Min(limit, |s.obuf|);
    Regroup(s.sent, s.obuf[..n], s.obuf[n..]);
    assert s.obuf[..n] + s.obuf[n..] == s.obuf;
  }

  lemma {:induction false} ConnectKeeps(script: Script, s: State, connect: Connect)
    requires Alive(s)
    ensures var t := HandleConnect(script, s, connect);
            && t.aborted == s.aborted && (if t.freed then Dead(t) else Alive(t))
            && (!t.freed ==> t.pending == s.pending)
  {
    hide DisconnectNow, Runs, Callbacks;
    if connect.Failed? {
      DisconnectEnds(script, s.(err := true));
    }
  }

  /** Every event keeps the invariant, whatever the callbacks do. */
  lemma {:induction false} StepKeeps(script: Script, s: State, e: Event)
    requires Alive(s)
    ensures Inv(Step(script, s, e))
    ensures e.UserFree? ==> Step(script, s, e).freed && Step(script, s, e).freeing
    ensures Step(script, s, e).aborted && !s.aborted ==> e.Readable? && |e.replies| > |s.pending|
  {
    hide DisconnectNow, Process, Release, HandleConnect, IssueCommand, Written, Runs, Callbacks;
    match e
    case UserCommand(cb, text) => 
      CommandKeeps(s, cb, text);
      CommandNeverAborts(s, cb, text);
    case UserDisconnect =>
      if s.pending == [] {
        DisconnectEnds(script, s.(disconnecting := true));
      }
    case UserFree => ReleaseEnds(script, s.(freeing := true));
    case Readable(connect, ioError, replies, broken) =>
      ConnectKeeps(script, s, connect);
      var t := HandleConnect(script, s, connect);
      if !t.freed {
        DisconnectEnds(script, t.(err := true));
        if !t.err {
          ProcessKeeps(script, t, replies, broken);
        }
      }
    case Writable(connect, ioError, sent) =>
      ConnectKeeps(script, s, connect);
      var t := HandleConnect(script, s, connect);
      if !t.freed {
        DisconnectEnds(script, t.(err := true));
        WriteKeeps(t, sent);
      }
  }

  lemma CommandNeverAborts(s: State, cb: Callback, text: bytes)
    ensures IssueCommand(s, cb, text).aborted == s.aborted
  {
  }

  // ---------- whole runs ----------

  /** Events are handled until the context is freed or the assertion about spontaneous replies fails. */
  function Play(script: Script, s: State, events: seq<Event>): State
    requires Inv(s)
    decreases |events|
  {
    if events == [] || s.freed || s.aborted then s
    else
      StepKeeps(script, s, events[0]);
      Play(script, Step(script, s, events[0]), events[1..])
  }

  /** The invariant holds all along, and a run in which the user asks for the context to be freed ends with
      it freed unless the assertion failed before. */
  lemma {:induction false} PlayKeeps(script: Script, s: State, events: seq<Event>)
    requires Inv(s)
    ensures var t := Play(script, s, events);
            Inv(t) && (UserFree in events ==> t.freed || t.aborted)
    decreases |events|
  {
    if events != [] && !s.freed && !s.aborted {
      StepKeeps(script, s, events[0]);
      PlayKeeps(script, Step(script, s, events[0]), events[1..]);
    }
  }

  lemma {:induction false} RunsOfAll(h: seq<Handled>)
    ensures forall x :: x in Runs(h) <==> x in h && x.cb.fn.Some?
    ensures |Runs(h)| <= |h|
    decreases |h|
  {
    if h != [] {
      RunsOfAll(h[..|h| - 1]);
      assert h == h[..|h| - 1] + [h[|h| - 1]];
    }
  }

  /** Over any run that ends with the context freed, the callbacks that ran are exactly those of the
      accepted commands that have one, once each and in the order of acceptance; the first ones got the
      replies, in order, and the others NULL; and the disconnect callback was called at most once. */
  lemma EveryCallbackRunsOnce(script: Script, events: seq<Event>)
    ensures Inv(INITIAL)
    ensures var s := Play(script, INITIAL, events);
            && History(s)
            && (UserFree in events ==> s.freed || s.aborted)
            && (s.freed ==>
                  && Callbacks(s.handled) == s.accepted
                  && s.log == Runs(s.handled)
                  && s.disconnects == if s.connected then [s.freeing || !s.err] else [])
  {
    hide Play;
    assert Alive(INITIAL);
    PlayKeeps(script, INITIAL, events);
    var s := Play(script, INITIAL, events);
    assert s.pending == [] ==> Callbacks(s.handled) + [] == Callbacks(s.handled);
  }
}

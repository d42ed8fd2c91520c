/** What the asynchronous client gets done: everything is sent, every command is answered, every end is told. */
module AsyncProgress {
  import opened Bytes
  import opened AsyncProtocol

  /** No error, and no request to end: the socket is connected, and what is read can be understood. */
  predicate Quiet(e: Event) {
    match e
    case UserCommand(_, _) => true
    case Readable(connect, ioError, _, broken) => connect.Established? && !ioError && !broken
    case Writable(connect, ioError, _) => connect.Established? && !ioError
    case _ => false
  }

  predicate OnSocket(e: Event) { e.Readable? || e.Writable? }

  function RepliesIn(e: Event): seq<Reply> { if e.Readable? then e.replies else [] }

  function Replies(events: seq<Event>): seq<Reply> {
    if events == [] then [] else RepliesIn(events[0]) + Replies(events[1..])
  }

  function RoomIn(e: Event): nat { if e.Writable? then e.sent else 0 }

  /** How much the socket takes in all. */
  function Room(events: seq<Event>): nat {
    if events == [] then 0 else RoomIn(events[0]) + Room(events[1..])
  }

  /** Callbacks that go on working with the connection. */
  ghost predicate OnlyCommands(script: Script) {
    forall n, i | 0 <= i < |script(n)| :: script(n)[i].Command?
  }

  ghost predicate NeverFree(script: Script) {
    forall n, i | 0 <= i < |script(n)| :: !script(n)[i].Free?
  }

  ghost predicate Open(s: State) {
    Alive(s) && !s.err && !s.aborted
  }

  /** No more replies are read than commands are waiting. */
  ghost predicate Paced(script: Script, s: State, events: seq<Event>)
    decreases |events|
  {
    events == [] ||
    (!s.freed && |RepliesIn(events[0])| <= |s.pending| && Paced(script, Step(script, s, events[0]), events[1..]))
  }

  /** What working on leaves: the context is open as before, and has only gained. */
  ghost predicate Continues(s: State, t: State) {
    && Open(t) && !t.disconnecting && s.accepted <= t.accepted && s.texts <= t.texts
  }

  lemma NoFreeIn(script: Script, n: nat)
    requires NeverFree(script)
    ensures Free !in script(n)
  {
  }

  lemma NothingElseIn(script: Script, n: nat)
    requires OnlyCommands(script)
    ensures Free !in script(n) && Disconnect !in script(n)
  {
  }

  /** The flags are not part of the history. */
  lemma HistoryWith(s: State, connected: bool, disconnecting: bool, freeing: bool, err: bool)
    requires History(s)
    ensures History(s.(connected := connected, disconnecting := disconnecting, freeing := freeing, err := err))
  {
    hide Callbacks, Runs;
  }

  // ---------- one reply, and several ----------

  lemma {:induction false} CallbackContinues(script: Script, s: State, reply: Reply)
    requires Open(s) && !s.disconnecting && s.pending != [] && OnlyCommands(script)
    ensures var u := RunCallback(script, Shift(s, Some(reply)), s.pending[0], Some(reply));
            && Continues(s, u) && u.received == s.received + [reply] && u.sent == s.sent && s.obuf <= u.obuf
            && u.connected == s.connected && |u.pending| >= |s.pending| - 1
  {
    hide RunCallback, History, Heeded, HeededText;
    var t := Shift(s, Some(reply));
    RunKeeps(script, s, Some(reply));
    RunEffect(script, t, s.pending[0], Some(reply));
    var calls := script(|t.log|);
    NothingElseIn(script, |t.log|);
  }

  lemma {:induction false} RepliesContinue(script: Script, s: State, replies: seq<Reply>)
    requires Open(s) && !s.disconnecting && |replies| <= |s.pending| && OnlyCommands(script)
    ensures var t := Process(script, s, replies, false);
            && Continues(s, t) && t.received == s.received + replies && t.sent == s.sent && s.obuf <= t.obuf
            && t.connected == s.connected
    decreases |replies|
  {
    hide RunCallback, History, Shift;
    if replies == [] {
      assert s.received + [] == s.received;
    } else {
      var u := RunCallback(script, Shift(s, Some(replies[0])), s.pending[0], Some(replies[0]));
      CallbackContinues(script, s, replies[0]);
      RepliesContinue(script, u, replies[1..]);
      assert s.received + [replies[0]] + replies[1..] == s.received + replies;
    }
  }

  // ---------- events ----------

  lemma {:induction false} StepContinues(script: Script, s: State, e: Event)
    requires Open(s) && !s.disconnecting && OnlyCommands(script) && Quiet(e) && |RepliesIn(e)| <= |s.pending|
    ensures var t := Step(script, s, e);
            && Continues(s, t) && t.received == s.received + RepliesIn(e)
            && t.connected == (s.connected || OnSocket(e))
            && |t.sent| + |t.obuf| >= |s.sent| + |s.obuf|
            && |t.sent| == |s.sent| + Min(RoomIn(e), |s.obuf|)
  {
    hide Runs, Callbacks, Process, OnlyCommands;
    assert s.received + [] == s.received;
    match e
    case UserCommand(cb, text) =>
      CommandKeeps(s, cb, text);
    case Readable(_, _, replies, _) =>
      RepliesContinue(script, s.(connected := true), replies);
    case Writable(_, _, n) =>
      WriteKeeps(s.(connected := true), n);
  }

  /** Once the connection was made, nobody asks again whether it was. */
  lemma {:induction false} AskedOnce(script: Script, s: State, connect: Connect, ioError: bool, replies: seq<Reply>,
                                     broken: bool, n: nat)
    requires !s.freed && s.connected
    ensures Step(script, s, Readable(connect, ioError, replies, broken))
         == Step(script, s, Readable(Established, ioError, replies, broken))
    ensures Step(script, s, Writable(connect, ioError, n)) == Step(script, s, Writable(Established, ioError, n))
  {
  }

  /** Over every run of such events: the context is connected by the first one on its socket, each reply read has been
      given to a command, in order, and of what was to be sent at the beginning as much was sent as the
      socket took. */
  lemma {:induction false} RunContinues(script: Script, s: State, events: seq<Event>)
    requires Open(s) && !s.disconnecting && OnlyCommands(script) && Paced(script, s, events)
    requires forall e | e in events :: Quiet(e)
    ensures Inv(s)
    ensures var t := Play(script, s, events);
            && Continues(s, t) && t.received == s.received + Replies(events)
            && t.connected == (s.connected || exists e :: e in events && OnSocket(e))
            && |t.sent| >= |s.sent| + Min(Room(events), |s.obuf|)
    decreases |events|
  {
    hide Step, History, OnlyCommands, Quiet, OnSocket;
    if events == [] {
      assert s.received + [] == s.received;
    } else {
      var t := Step(script, s, events[0]);
      assert events[0] in events && forall e | e in events[1..] :: e in events;
      StepContinues(script, s, events[0]);
      RunContinues(script, t, events[1..]);
      Regroup(s.received, RepliesIn(events[0]), Replies(events[1..]));
      assert forall e :: e in events <==> e == events[0] || e in events[1..];
    }
  }

  /** Once nothing new is asked for and the socket has taken as much as was in the buffer, everything was sent. */
  lemma {:induction false} EverythingIsSent(script: Script, s: State, events: seq<Event>)
    requires Open(s) && !s.disconnecting && OnlyCommands(script) && Paced(script, s, events)
    requires forall e | e in events :: Quiet(e)
    ensures Inv(s)
    ensures var t := Play(script, s, events);
            t.texts == s.texts && Room(events) >= |s.obuf| ==> t.sent == t.texts && t.obuf == []
  {
    RunContinues(script, s, events);
    hide Play, Runs, Callbacks;
    var t := Play(script, s, events);
    assert |s.sent + s.obuf| == |s.texts| && |t.sent + t.obuf| == |t.texts|;
    assert t.obuf == [] ==> t.sent + t.obuf == t.sent;
  }

  /** From the beginning: the i-th command is answered with the i-th reply, and with as many replies as commands
      nothing is left waiting. */
  lemma {:induction false} EveryCommandIsAnswered(script: Script, events: seq<Event>)
    requires OnlyCommands(script) && Paced(script, INITIAL, events) && forall e | e in events :: Quiet(e)
    ensures Inv(INITIAL)
    ensures var t, replies := Play(script, INITIAL, events), Replies(events);
            && !t.freed && |replies| <= |t.accepted| && |t.handled| == |replies|
            && (forall i | 0 <= i < |replies| :: t.handled[i] == Handled(t.accepted[i], Some(replies[i])))
            && (|replies| == |t.accepted| ==> t.pending == [])
            && (t.connected <==> exists e :: e in events && OnSocket(e))
  {
    assert Alive(INITIAL);
    RunContinues(script, INITIAL, events);
    hide Play, Runs;
    var t, replies := Play(script, INITIAL, events), Replies(events);
    assert [] + replies == replies;
    assert |Callbacks(t.handled) + t.pending| == |t.accepted|;
    forall i | 0 <= i < |replies|
      ensures t.handled[i] == Handled(t.accepted[i], Some(replies[i]))
    {
      assert t.accepted[i] == (Callbacks(t.handled) + t.pending)[i] == t.handled[i].cb;
    }
  }

  // ---------- the orderly end ----------

  lemma {:induction false} CallbackRefused(script: Script, s: State, reply: Reply)
    requires Open(s) && s.disconnecting && s.pending != [] && NeverFree(script)
    ensures var u := RunCallback(script, Shift(s, Some(reply)), s.pending[0], Some(reply));
            && Open(u) && u.disconnecting && u.received == s.received + [reply] && u.sent == s.sent && u.obuf == s.obuf
            && u.pending == s.pending[1..] && u.connected == s.connected && u.accepted == s.accepted
            && u.texts == s.texts
  {
    hide RunCallback, History, Heeded, HeededText;
    var t := Shift(s, Some(reply));
    RunKeeps(script, s, Some(reply));
    RunEffect(script, t, s.pending[0], Some(reply));
    assert t.obuf + [] == t.obuf && t.pending + [] == t.pending && t.accepted + [] == t.accepted;
    assert t.texts + [] == t.texts;
    NoFreeIn(script, |t.log|);
  }

  /** Replies to a context that is to disconnect: it is freed if and only if they are the last ones and there is nothing
      left to be sent. */
  lemma {:induction false} LastReplyEnds(script: Script, s: State, replies: seq<Reply>)
    requires Open(s) && s.disconnecting && |replies| <= |s.pending| && NeverFree(script)
    ensures var t := Process(script, s, replies, false);
            && t.received == s.received + replies && t.sent == s.sent && t.accepted == s.accepted
            && |t.handled| == |t.received| && History(t) && t.connected == s.connected
            && t.obuf == s.obuf && t.texts == s.texts
            && (t.freed <==> |replies| == |s.pending| && s.obuf == [])
            && (t.freed ==> t.disconnects == if s.connected then [true] else [])
            && (!t.freed ==> Open(t) && t.disconnecting && t.obuf == s.obuf && t.pending == s.pending[|replies|..])
    decreases |replies|
  {
    hide RunCallback, History, Shift;
    if replies == [] {
      assert s.received + [] == s.received;
      if s.obuf == [] && s.pending == [] {
        DisconnectEnds(script, s);
        assert Drain(script, s) == s;
      }
    } else {
      var u := RunCallback(script, Shift(s, Some(replies[0])), s.pending[0], Some(replies[0]));
      CallbackRefused(script, s, replies[0]);
      LastReplyEnds(script, u, replies[1..]);
      assert s.received + [replies[0]] + replies[1..] == s.received + replies;
      assert s.pending[1..][|replies| - 1..] == s.pending[|replies|..];
    }
  }

  /** A request to disconnect while commands are waiting: what is in the buffer is still sent, every command gets its
      own reply, and with the last one the context is freed and told that this was intended. */
  lemma {:induction false} OrderlyEnd(script: Script, s: State, n: nat, replies: seq<Reply>)
    requires Open(s) && s.connected && !s.disconnecting && s.pending != [] && NeverFree(script)
    requires n >= |s.obuf| && |replies| == |s.pending|
    ensures Inv(s)
    ensures var t := Play(script, s, [UserDisconnect, Writable(Established, false, n),
                                      Readable(Established, false, replies, false)]);
            && t.freed && t.sent == t.texts == s.texts && t.accepted == s.accepted
            && t.received == s.received + replies && |t.handled| == |t.accepted| == |t.received|
            && t.disconnects == [true]
  {
    hide Process, Runs, Callbacks;
    var a := s.(disconnecting := true);
    var b := Step(script, a, Writable(Established, false, n));
    HistoryWith(s, s.connected, true, s.freeing, s.err);
    WriteKeeps(a, n);
    assert b.obuf == [] && b.sent == s.sent + s.obuf by {
      assert s.obuf[..|s.obuf|] == s.obuf;
    }
    var events := [UserDisconnect, Writable(Established, false, n), Readable(Established, false, replies, false)];
    assert events[1..][1..][1..] == [];
    assert Step(script, s, events[0]) == a && Step(script, a, events[1..][0]) == b;
    LastReplyEnds(script, b, replies);
    var t := Step(script, b, events[1..][1..][0]);
    ThreeSteps(script, s, events, a, b);
    assert |Callbacks(t.handled) + t.pending| == |t.accepted|;
    assert |Callbacks(s.handled) + s.pending| == |s.accepted|;
    assert t.sent + t.obuf == t.texts && t.obuf == [] && t.texts == s.texts;
  }

  lemma ThreeSteps(script: Script, s: State, events: seq<Event>, a: State, b: State)
    requires |events| == 3 && Alive(s) && Alive(a) && Alive(b) && !s.aborted && !a.aborted && !b.aborted
    requires a == Step(script, s, events[0]) && b == Step(script, a, events[1])
    ensures Play(script, s, events) == Step(script, b, events[2])
  {
    hide Step, History;
    assert events[1..][0] == events[1] && events[1..][1..] == [events[2]];
    StepKeeps(script, s, events[0]);
    StepKeeps(script, a, events[1]);
    StepKeeps(script, b, events[2]);
    hide Inv, Alive;
    var last := [events[2]];
    assert last[1..] == [] && last[0] == events[2];
    var t := Step(script, b, events[2]);
    assert Play(script, t, []) == t;
    assert Play(script, b, last) == t;
    assert Play(script, a, events[1..]) == Play(script, b, last);
  }

  // ---------- other ends ----------

  /** Everything waiting is answered with NULL. */
  lemma {:induction false} DrainAnswers(script: Script, s: State)
    requires History(s) && !s.inCallback && (Refuses(s) || s.pending == []) && NeverFree(script)
    ensures var d := Drain(script, s);
            && d.received == s.received && d.sent == s.sent && |d.handled| == |s.handled| + |s.pending|
            && d.accepted == s.accepted && d.freeing == s.freeing
    decreases |s.pending|
  {
    hide History;
    if s.pending != [] {
      var t := Shift(s, None);
      RunKeeps(script, s, None);
      RunEffect(script, t, s.pending[0], None);
      NoFreeIn(script, |t.log|);
      var u := RunCallback(script, t, s.pending[0], None);
      assert t.accepted + [] == t.accepted && t.pending + [] == t.pending;
      hide RunCallback, Shift;
      DrainAnswers(script, u);
    }
  }

  /** The context is gone: nothing more was received, every command that was waiting was told, and the disconnect
      callback learns, if there ever was a connection, whether there was an error. */
  ghost predicate Ended(s: State, t: State, failed: bool) {
    && t.freed && t.pending == [] && t.received == s.received && t.sent == s.sent && t.accepted == s.accepted
    && |t.handled| == |s.handled| + |s.pending|
    && t.disconnects == if t.connected then [!failed] else []
  }

  lemma {:induction false} ErrorEndsIt(script: Script, s: State)
    requires Alive(s) && NeverFree(script) && s.err
    ensures Ended(s, DisconnectNow(script, s), true)
  {
    hide Drain, History;
    HistoryWith(s, s.connected, true, s.freeing, s.err);
    DrainAnswers(script, s.(disconnecting := true));
    DrainKeeps(script, s.(disconnecting := true));
  }

  /** An error on a socket, at any time after the connection was made; a connection that fails; and the first event
      after one that was still being made. */
  lemma {:induction false} ErrorsEnd(script: Script, s: State, connect: Connect, replies: seq<Reply>, broken: bool,
                                     n: nat)
    requires Alive(s) && !s.aborted && NeverFree(script)
    ensures s.connected || connect.Established? ==>
              && Ended(s, Step(script, s, Readable(connect, true, replies, broken)), true)
              && Ended(s, Step(script, s, Writable(connect, true, n)), true)
    ensures !s.connected && connect.Failed? ==>
              forall ioError ::
                && Ended(s, Step(script, s, Readable(connect, ioError, replies, broken)), true)
                && Ended(s, Step(script, s, Writable(connect, ioError, n)), true)
    ensures !s.connected && connect.InProgress? ==>
              forall ioError ::
                && Step(script, s, Readable(connect, ioError, replies, broken)) == s.(err := true)
                && Step(script, s, Writable(connect, ioError, n)) == s.(err := true)
    ensures s.err && (s.connected || connect.Established?) ==>
              && Ended(s, Step(script, s, Readable(connect, false, replies, broken)), true)
              && Ended(s, Step(script, s, Writable(connect, false, n)), true)
  {
    hide DisconnectNow, History, NeverFree;
    HistoryWith(s, true, s.disconnecting, s.freeing, true);
    HistoryWith(s, s.connected, s.disconnecting, s.freeing, true);
    ErrorEndsIt(script, s.(err := true, connected := true));
    ErrorEndsIt(script, s.(err := true));
  }

  /** Replies that break off: those before are handed out, the rest is answered with NULL. */
  lemma {:induction false} BrokenEnds(script: Script, s: State, replies: seq<Reply>)
    requires Open(s) && !s.disconnecting && |replies| <= |s.pending| && OnlyCommands(script)
    ensures var t := Process(script, s, replies, true);
            && t.freed && t.pending == [] && t.received == s.received + replies && |t.handled| == |t.accepted|
            && t.disconnects == if s.connected then [false] else []
    decreases |replies|
  {
    hide RunCallback, History, Shift;
    if replies == [] {
      CommandsNeverFree(script);
      HistoryWith(s, s.connected, s.disconnecting, s.freeing, true);
      HistoryWith(s, s.connected, true, s.freeing, true);
      ErrorEndsIt(script, s.(err := true));
      DisconnectEnds(script, s.(err := true));
      DrainKeeps(script, s.(err := true, disconnecting := true));
      assert s.received + [] == s.received;
      AllHandled(DisconnectNow(script, s.(err := true)));
    } else {
      var u := RunCallback(script, Shift(s, Some(replies[0])), s.pending[0], Some(replies[0]));
      CallbackContinues(script, s, replies[0]);
      BrokenEnds(script, u, replies[1..]);
      assert s.received + [replies[0]] + replies[1..] == s.received + replies;
    }
  }

  lemma CommandsNeverFree(script: Script)
    requires OnlyCommands(script)
    ensures NeverFree(script)
  {
  }

  lemma AllHandled(t: State)
    requires History(t) && t.pending == []
    ensures |t.handled| == |t.accepted|
  {
    assert |Callbacks(t.handled) + t.pending| == |t.accepted|;
  }

  /** A reply that no command waits for: an error ends the connection, anything else breaks the assertion. */
  lemma {:induction false} SpontaneousReply(script: Script, s: State, reply: Reply, more: seq<Reply>, broken: bool)
    requires Open(s) && s.pending == [] && NeverFree(script)
    ensures var t := Process(script, s, [reply] + more, broken);
            if reply.isError then Ended(s, t, true) else t == s.(aborted := true)
  {
    HistoryWith(s, s.connected, s.disconnecting, s.freeing, true);
    hide History;
    ErrorEndsIt(script, s.(err := true));
  }

  /** What the user asks for: a free at once, a disconnect at once only when no command is waiting. */
  lemma {:induction false} UserEnds(script: Script, s: State)
    requires Open(s) && NeverFree(script)
    ensures Ended(s, Step(script, s, UserFree), false)
    ensures var t := Step(script, s, UserDisconnect);
            if s.pending == [] then Ended(s, t, false) else t == s.(disconnecting := true)
  {
    hide History;
    HistoryWith(s, s.connected, s.disconnecting, true, s.err);
    HistoryWith(s, s.connected, true, s.freeing, s.err);
    DrainAnswers(script, s.(freeing := true));
    DrainKeeps(script, s.(freeing := true));
    if s.pending == [] {
      DrainAnswers(script, s.(disconnecting := true));
      DrainKeeps(script, s.(disconnecting := true));
    }
  }
}

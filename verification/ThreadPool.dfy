/** The thread pool as a transition system, over every schedule. */
module ThreadPool {
  // A schedule is any sequence of steps of the worker threads, of threads that add tasks and of the one
  // that destroys the pool; a step that is not enabled does nothing.  What is done under the mutex between
  // two visible points is one step; waiting releases the mutex and falls asleep at once, signals may be
  // lost when nobody sleeps, and threads may wake for no reason.

  import opened Bytes

  type Task = nat

  datatype Thread =
    | Ready
    | Checking
    | Sleeping
    | Woken
    | Running(task: Task)
    | Exited

  /** Who holds the mutex; a thread that adds a task goes through three steps with it. */
  datatype Holder = NoOne | Worker(i: nat) | Adding(task: Task) | Pushed | Signalled | Stopping

  /** 'stopped' is m_pool_state == STOPPED, 'told' that the broadcast after it was made.  The last three
      fields are history: tasks accepted, tasks taken from the queue, tasks that have run to the end. */
  datatype State = State(
    threads: seq<Thread>, holder: Holder, queue: seq<Task>, limit: int,
    stopped: bool, told: bool,
    added: seq<Task>, started: seq<Task>, finished: seq<Task>)

  datatype Step =
    | Spawn
    | Acquire(i: nat)
    | Decide(i: nat)
    | Finish(i: nat)
    | WakeSpuriously(i: nat)
    | LockToAdd(task: Task)
    | PushOrRefuse
    | Signal(i: nat)
    | UnlockAdded
    | LockToStop
    | Stop
    | Broadcast

  function Initial(limit: int): State {
    State([], NoOne, [], limit, false, false, [], [], [])
  }

  predicate IsThread(s: State, i: nat) {
    i < |s.threads|
  }

  predicate NobodySleeps(ts: seq<Thread>) {
    forall i | 0 <= i < |ts| :: !ts[i].Sleeping?
  }

  predicate Enabled(s: State, step: Step) {
    match step
    case Spawn => !s.stopped
    case Acquire(i) => s.holder.NoOne? && IsThread(s, i) && (s.threads[i].Ready? || s.threads[i].Woken?)
    case Decide(i) => s.holder == Worker(i) && IsThread(s, i)
    case Finish(i) => IsThread(s, i) && s.threads[i].Running?
    case WakeSpuriously(i) => IsThread(s, i) && s.threads[i].Sleeping?
    case LockToAdd(_) => s.holder.NoOne?
    case PushOrRefuse => s.holder.Adding?
    case Signal(i) => s.holder.Pushed? && (NobodySleeps(s.threads) || (IsThread(s, i) && s.threads[i].Sleeping?))
    case UnlockAdded => s.holder.Signalled?
    case LockToStop => s.holder.NoOne?
    case Stop => s.holder.Stopping?
    case Broadcast => s.stopped
  }

  function Become(s: State, i: nat, t: Thread): State
    requires IsThread(s, i)
  {
    s.(threads := s.threads[i := t])
  }

  /** The body of the worker's loop, from the test under the mutex to its release. */
  function DecideStep(s: State, i: nat): State
    requires IsThread(s, i)
  {
    if s.stopped then Become(s, i, Exited).(holder := NoOne)
    else if s.queue == [] then Become(s, i, Sleeping).(holder := NoOne)
    else Become(s, i, Running(s.queue[0])).(
           holder := NoOne, queue := s.queue[1..], started := s.started + [s.queue[0]])
  }

  /** A task is refused when the queue is longer than a positive limit. */
  predicate Full(s: State) {
    s.limit > 0 && |s.queue| > s.limit
  }

  function PushStep(s: State): State
    requires s.holder.Adding?
  {
    if Full(s) then s.(holder := NoOne)
    else s.(holder := Pushed, queue := s.queue + [s.holder.task], added := s.added + [s.holder.task])
  }

  function WakeAll(ts: seq<Thread>): (r: seq<Thread>)
    ensures |r| == |ts|
    ensures forall i | 0 <= i < |ts| :: r[i] == if ts[i].Sleeping? then Woken else ts[i]
  {
    if ts == [] then [] else [if ts[0].Sleeping? then Woken else ts[0]] + WakeAll(ts[1..])
  }

  function Apply(s: State, step: Step): State
    requires Enabled(s, step)
  {
    match step
    case Spawn => s.(threads := s.threads + [Ready])
    case Acquire(i) => Become(s, i, Checking).(holder := Worker(i))
    case Decide(i) => DecideStep(s, i)
    case Finish(i) => Become(s, i, Ready).(finished := s.finished + [s.threads[i].task])
    case WakeSpuriously(i) => Become(s, i, Woken)
    case LockToAdd(task) => s.(holder := Adding(task))
    case PushOrRefuse => PushStep(s)
    case Signal(i) => (if NobodySleeps(s.threads) then s else Become(s, i, Woken)).(holder := Signalled)
    case UnlockAdded => s.(holder := NoOne)
    case LockToStop => s.(holder := Stopping)
    case Stop => s.(stopped := true, holder := NoOne)
    case Broadcast => s.(threads := WakeAll(s.threads), told := true)
  }

  function Play(s: State, steps: seq<Step>): State
    decreases |steps|
  {
    if steps == [] then s
    else Play(if Enabled(s, steps[0]) then Apply(s, steps[0]) else s, steps[1..])
  }

  // ---------- counting threads ----------

  function Sum(ts: seq<Thread>, f: Thread -> nat): nat {
    if ts == [] then 0 else f(ts[0]) + Sum(ts[1..], f)
  }

  const ASLEEP: Thread -> nat := (t: Thread) => if t.Sleeping? then 1 else 0

  /** Awake and not executing a task. */
  const IDLE: Thread -> nat := (t: Thread) => if t.Ready? || t.Woken? || t.Checking? then 1 else 0

  /** Steps a worker still needs in order to exit. */
  const RANK: Thread -> nat := (t: Thread) =>
    match t
    case Running(_) => 3
    case Ready => 2
    case Woken => 2
    case Sleeping => 2
    case Checking => 1
    case Exited => 0

  function TaskOf(t: Thread): multiset<Task> {
    if t.Running? then multiset{t.task} else multiset{}
  }

  function RunningTasks(ts: seq<Thread>): multiset<Task> {
    if ts == [] then multiset{} else TaskOf(ts[0]) + RunningTasks(ts[1..])
  }

  lemma {:induction false} SumUpdate(ts: seq<Thread>, i: nat, t: Thread, f: Thread -> nat)
    requires i < |ts|
    ensures Sum(ts[i := t], f) + f(ts[i]) == Sum(ts, f) + f(t)
  {
    if i == 0 {
      assert ts[0 := t][1..] == ts[1..];
    } else {
      SumUpdate(ts[1..], i - 1, t, f);
      assert ts[i := t][1..] == ts[1..][i - 1 := t];
    }
  }

  lemma {:induction false} SumMore(ts: seq<Thread>, t: Thread, f: Thread -> nat)
    ensures Sum(ts + [t], f) == Sum(ts, f) + f(t)
  {
    if ts == [] {
      assert [] + [t] == [t] && [t][1..] == [];
    } else {
      SumMore(ts[1..], t, f);
      assert (ts + [t])[1..] == ts[1..] + [t];
    }
  }

  lemma MultisetShift(a: multiset<Task>, p: multiset<Task>, x: multiset<Task>, q: multiset<Task>, y: multiset<Task>)
    requires p + x == q + y
    ensures a + p + x == a + q + y
  {
    assert a + p + x == a + (p + x);
    assert a + q + y == a + (q + y);
  }

  lemma {:induction false} RunningUpdate(ts: seq<Thread>, i: nat, t: Thread)
    requires i < |ts|
    ensures RunningTasks(ts[i := t]) + TaskOf(ts[i]) == RunningTasks(ts) + TaskOf(t)
  {
    hide TaskOf;
    if i == 0 {
      assert ts[0 := t][1..] == ts[1..];
    } else {
      RunningUpdate(ts[1..], i - 1, t);
      assert ts[i := t][1..] == ts[1..][i - 1 := t];
      MultisetShift(TaskOf(ts[0]), RunningTasks(ts[1..][i - 1 := t]), TaskOf(ts[i]),
                    RunningTasks(ts[1..]), TaskOf(t));
    }
  }

  lemma {:induction false} NotStarted(s: State, i: nat, t: Thread)
    requires IsThread(s, i) && !s.threads[i].Running? && !t.Running?
    ensures RunningTasks(s.threads[i := t]) == RunningTasks(s.threads)
  {
    hide RunningTasks;
    RunningUpdate(s.threads, i, t);
    assert RunningTasks(s.threads) + multiset{} == RunningTasks(s.threads);
  }

  lemma {:induction false} StartsOne(s: State, i: nat, task: Task)
    requires IsThread(s, i) && !s.threads[i].Running?
    ensures RunningTasks(s.threads[i := Running(task)]) == RunningTasks(s.threads) + multiset{task}
  {
    hide RunningTasks;
    RunningUpdate(s.threads, i, Running(task));
  }

  lemma {:induction false} FinishesOne(s: State, i: nat)
    requires IsThread(s, i) && s.threads[i].Running?
    ensures RunningTasks(s.threads) == RunningTasks(s.threads[i := Ready]) + multiset{s.threads[i].task}
  {
    hide RunningTasks;
    RunningUpdate(s.threads, i, Ready);
  }

  lemma {:induction false} RunningMore(ts: seq<Thread>)
    ensures RunningTasks(ts + [Ready]) == RunningTasks(ts)
  {
    if ts == [] {
      assert [] + [Ready] == [Ready] && [Ready][1..] == [];
    } else {
      RunningMore(ts[1..]);
      assert (ts + [Ready])[1..] == ts[1..] + [Ready];
    }
  }

  lemma {:induction false} SleepersCount(ts: seq<Thread>)
    ensures NobodySleeps(ts) <==> Sum(ts, ASLEEP) == 0
  {
    if ts != [] {
      SleepersCount(ts[1..]);
      assert NobodySleeps(ts) ==> NobodySleeps(ts[1..]);
      assert ts == [ts[0]] + ts[1..];
    }
  }

  lemma {:induction false} WakingAll(ts: seq<Thread>)
    ensures Sum(WakeAll(ts), IDLE) == Sum(ts, IDLE) + Sum(ts, ASLEEP)
    ensures Sum(WakeAll(ts), ASLEEP) == 0
    ensures Sum(WakeAll(ts), RANK) == Sum(ts, RANK)
    ensures RunningTasks(WakeAll(ts)) == RunningTasks(ts)
  {
    if ts != [] {
      WakingAll(ts[1..]);
      assert WakeAll(ts)[1..] == WakeAll(ts[1..]);
    }
  }

  // ---------- the invariant ----------

  /** The mutex is held by the thread that is between locking and releasing it. */
  ghost predicate MutexOk(s: State) {
    && (s.holder.Worker? ==> IsThread(s, s.holder.i))
    && (forall i: nat | IsThread(s, i) :: s.threads[i].Checking? <==> s.holder == Worker(i))
  }

  /** Tasks leave the queue in the order in which they came, each once; what has been started is being
      executed or has been finished. */
  ghost predicate TasksOk(s: State) {
    && s.added == s.started + s.queue
    && multiset(s.started) == multiset(s.finished) + RunningTasks(s.threads)
  }

  /** No wake-up is lost: while a thread sleeps, enough threads are awake and idle to take every queued
      task, the one task excepted that has been pushed and not yet signalled. */
  ghost predicate WakeupsOk(s: State) {
    !s.stopped && Sum(s.threads, ASLEEP) > 0
    ==> |s.queue| <= Sum(s.threads, IDLE) + if s.holder.Pushed? then 1 else 0
  }

  ghost predicate LimitOk(s: State) {
    s.limit > 0 ==> |s.queue| <= s.limit + 1
  }

  /** Threads exit only after the stop, and after the broadcast nobody sleeps. */
  ghost predicate StopOk(s: State) {
    && (!s.stopped ==> forall i: nat | IsThread(s, i) :: !s.threads[i].Exited?)
    && (s.told ==> s.stopped && NobodySleeps(s.threads))
  }

  ghost predicate Inv(s: State) {
    MutexOk(s) && TasksOk(s) && WakeupsOk(s) && LimitOk(s) && StopOk(s)
  }

  lemma StartAccounts(started: seq<Task>, finished: seq<Task>, running: multiset<Task>, task: Task)
    requires multiset(started) == multiset(finished) + running
    ensures multiset(started + [task]) == multiset(finished) + (running + multiset{task})
  {
  }

  lemma FinishAccounts(started: seq<Task>, finished: seq<Task>, running: multiset<Task>, task: Task)
    requires multiset(started) == multiset(finished) + (running + multiset{task})
    ensures multiset(started) == multiset(finished + [task]) + running
  {
  }

  lemma {:induction false} TasksKept(s: State, step: Step)
    requires Enabled(s, step) && TasksOk(s) && MutexOk(s)
    ensures TasksOk(Apply(s, step))
  {
    hide RunningTasks, NobodySleeps, Full;
    match step
    case Spawn => RunningMore(s.threads);
    case Acquire(i) => NotStarted(s, i, Checking);
    case Decide(i) =>
      NotStarted(s, i, Exited);
      NotStarted(s, i, Sleeping);
      if s.queue != [] {
        StartsOne(s, i, s.queue[0]);
        StartAccounts(s.started, s.finished, RunningTasks(s.threads), s.queue[0]);
        assert s.started + s.queue == s.started + [s.queue[0]] + s.queue[1..];
      }
    case Finish(i) =>
      FinishesOne(s, i);
      FinishAccounts(s.started, s.finished, RunningTasks(s.threads[i := Ready]), s.threads[i].task);
    case WakeSpuriously(i) => NotStarted(s, i, Woken);
    case PushOrRefuse =>
      assert s.started + (s.queue + [s.holder.task]) == s.started + s.queue + [s.holder.task];
    case Signal(i) =>
      if !NobodySleeps(s.threads) {
        NotStarted(s, i, Woken);
      }
    case Broadcast => WakingAll(s.threads);
    case _ =>
  }

  lemma {:induction false} WakeupsKept(s: State, step: Step)
    requires Enabled(s, step) && Inv(s)
    ensures WakeupsOk(Apply(s, step))
  {
    hide RunningTasks, Sum, TasksOk, NobodySleeps;
    SleepersCount(s.threads);
    match step
    case Spawn =>
      SumMore(s.threads, Ready, ASLEEP);
      SumMore(s.threads, Ready, IDLE);
    case Acquire(i) => Counted(s, i, Checking);
    case Decide(i) =>
      if !s.stopped && s.queue == [] {
        Counted(s, i, Sleeping);
      } else if !s.stopped {
        Counted(s, i, Running(s.queue[0]));
      }
    case Finish(i) => Counted(s, i, Ready);
    case WakeSpuriously(i) => Counted(s, i, Woken);
    case Signal(i) =>
      if !NobodySleeps(s.threads) {
        Counted(s, i, Woken);
      }
    case _ =>
  }

  lemma {:induction false} Counted(s: State, i: nat, t: Thread)
    requires IsThread(s, i)
    ensures var was, r := s.threads[i], Become(s, i, t).threads;
            && Sum(r, ASLEEP) + ASLEEP(was) == Sum(s.threads, ASLEEP) + ASLEEP(t)
            && Sum(r, IDLE) + IDLE(was) == Sum(s.threads, IDLE) + IDLE(t)
            && Sum(r, RANK) + RANK(was) == Sum(s.threads, RANK) + RANK(t)
  {
    SumUpdate(s.threads, i, t, ASLEEP);
    SumUpdate(s.threads, i, t, IDLE);
    SumUpdate(s.threads, i, t, RANK);
  }

  /** Every step of every thread keeps the invariant. */
  lemma {:induction false} StepKeeps(s: State, step: Step)
    requires Enabled(s, step) && Inv(s)
    ensures Inv(Apply(s, step))
  {
    hide RunningTasks, Sum, TasksOk, WakeupsOk;
    TasksKept(s, step);
    WakeupsKept(s, step);
  }

  /** After the stop no further task is started, and a stopped pool stays stopped. */
  lemma {:induction false} StopIsFinal(s: State, step: Step)
    requires Enabled(s, step) && s.stopped
    ensures Apply(s, step).stopped && Apply(s, step).started == s.started
  {
  }

  /** Whatever the schedule. */
  lemma {:induction false} InvariantHolds(s: State, steps: seq<Step>)
    requires Inv(s)
    ensures Inv(Play(s, steps))
    ensures s.stopped ==> Play(s, steps).stopped && Play(s, steps).started == s.started
    decreases |steps|
  {
    hide Inv, Apply, Enabled;
    if steps != [] {
      if Enabled(s, steps[0]) {
        StepKeeps(s, steps[0]);
        if s.stopped {
          StopIsFinal(s, steps[0]);
        }
      }
      InvariantHolds(if Enabled(s, steps[0]) then Apply(s, steps[0]) else s, steps[1..]);
    }
  }

  // ---------- what follows ----------

  /** From the empty pool, every schedule leads to a state in which accepted tasks are the queued, the
      running and the finished ones, started in order; and while nothing has been stopped there is, for a
      task in the queue, a thread that runs or that will take it without being woken. */
  lemma PoolIsSafe(limit: int, steps: seq<Step>)
    ensures var s := Play(Initial(limit), steps);
            && s.started <= s.added
            && multiset(s.added) == multiset(s.queue) + RunningTasks(s.threads) + multiset(s.finished)
            && (limit > 0 ==> |s.queue| <= limit + 1)
            && (s.told ==> NobodySleeps(s.threads))
            && (!s.stopped && s.queue != [] && s.threads != [] && s.holder == NoOne ==> SomebodyWillCome(s))
  {
    hide Apply, Enabled, RunningTasks, Sum;
    InitialOk(limit);
    InvariantHolds(Initial(limit), steps);
    LimitStays(Initial(limit), steps);
    var s := Play(Initial(limit), steps);
    if !s.stopped && s.queue != [] && s.threads != [] && s.holder == NoOne {
      WorkIsTaken(s);
    }
  }

  lemma InitialOk(limit: int)
    ensures Inv(Initial(limit))
  {
  }

  lemma {:induction false} LimitStays(s: State, steps: seq<Step>)
    ensures Play(s, steps).limit == s.limit
    decreases |steps|
  {
    if steps != [] {
      LimitStays(if Enabled(s, steps[0]) then Apply(s, steps[0]) else s, steps[1..]);
    }
  }

  ghost predicate SomebodyWillCome(s: State) {
    exists i: nat :: IsThread(s, i) && (s.threads[i].Running? || Enabled(s, Acquire(i)))
  }

  lemma {:induction false} WorkIsTaken(s: State)
    requires Inv(s) && !s.stopped && s.queue != [] && s.threads != [] && s.holder == NoOne
    ensures SomebodyWillCome(s)
  {
    hide RunningTasks, TasksOk;
    if Sum(s.threads, IDLE) > 0 {
      var i := IdleOne(s.threads);
      assert IsThread(s, i) && Enabled(s, Acquire(i));
    } else {
      SleepersCount(s.threads);
      assert IsThread(s, 0) && s.threads[0] in s.threads;
      NotIdle(s.threads, 0);
    }
  }

  lemma {:induction false} IdleOne(ts: seq<Thread>) returns (i: nat)
    requires Sum(ts, IDLE) > 0
    ensures i < |ts| && IDLE(ts[i]) == 1
  {
    if IDLE(ts[0]) == 1 {
      i := 0;
    } else {
      i := IdleOne(ts[1..]);
      i := i + 1;
    }
  }

  lemma {:induction false} NotIdle(ts: seq<Thread>, i: nat)
    requires Sum(ts, IDLE) == 0 && i < |ts|
    ensures IDLE(ts[i]) == 0
  {
    if i > 0 {
      NotIdle(ts[1..], i - 1);
    }
  }

  // ---------- which tasks are accepted ----------

  /** A task offered to the pool, and how many were queued when its thread took the mutex. */
  datatype Offer = Offer(task: Task, waiting: nat)

  /** The tasks offered along a schedule, in the order in which the mutex was taken for them. */
  function Offers(s: State, steps: seq<Step>): seq<Offer>
    decreases |steps|
  {
    if steps == [] then []
    else if !Enabled(s, steps[0]) then Offers(s, steps[1..])
    else
      (if steps[0].LockToAdd? then [Offer(steps[0].task, |s.queue|)] else [])
      + Offers(Apply(s, steps[0]), steps[1..])
  }

  /** What a caller expects: a positive limit refuses a task when more than that many are waiting, and nothing else
      ever refuses one. */
  predicate IsTaken(limit: int, o: Offer) {
    limit <= 0 || o.waiting <= limit
  }

  function TakenOf(limit: int, offers: seq<Offer>): seq<Task> {
    if offers == [] then []
    else TakenIf(limit, offers[0]) + TakenOf(limit, offers[1..])
  }

  function TakenIf(limit: int, o: Offer): seq<Task> {
    if IsTaken(limit, o) then [o.task] else []
  }

  function TasksOf(offers: seq<Offer>): (r: seq<Task>)
    ensures |r| == |offers|
  {
    seq(|offers|, i requires 0 <= i < |offers| => offers[i].task)
  }

  /** The offer that is being decided, with the mutex held. */
  function Undecided(s: State): seq<Offer> {
    if s.holder.Adding? then [Offer(s.holder.task, |s.queue|)] else []
  }

  lemma {:induction false} TakenBoth(limit: int, a: seq<Offer>, b: seq<Offer>)
    ensures TakenOf(limit, a + b) == TakenOf(limit, a) + TakenOf(limit, b)
    decreases |a|
  {
    if a == [] {
      assert a + b == b;
    } else {
      hide TakenIf;
      assert (a + b)[0] == a[0] && (a + b)[1..] == a[1..] + b;
      TakenBoth(limit, a[1..], b);
      Regroup(TakenIf(limit, a[0]), TakenOf(limit, a[1..]), TakenOf(limit, b));
    }
  }

  /** One step decides at most the offer at hand, by the rule. */
  lemma {:induction false} StepDecides(s: State, step: Step)
    requires Enabled(s, step)
    ensures var t := Apply(s, step);
            var offered := if step.LockToAdd? then [Offer(step.task, |s.queue|)] else [];
            t.added + TakenOf(s.limit, Undecided(t)) == s.added + TakenOf(s.limit, Undecided(s) + offered)
  {
    hide NobodySleeps, WakeAll;
    var undecided := Undecided(s);
    assert undecided + [] == undecided;
    assert [] + Undecided(Apply(s, step)) == Undecided(Apply(s, step));
    assert undecided != [] ==> undecided[1..] == [];
  }

  /** Along every schedule the accepted tasks are those of the offers that the rule takes, in order. */
  lemma {:induction false} OffersDecided(s: State, steps: seq<Step>)
    ensures var t := Play(s, steps);
            t.added + TakenOf(s.limit, Undecided(t)) == s.added + TakenOf(s.limit, Undecided(s) + Offers(s, steps))
    decreases |steps|
  {
    hide Apply, Enabled, TakenOf, Undecided;
    if steps == [] {
      assert Undecided(s) + [] == Undecided(s);
    } else if !Enabled(s, steps[0]) {
      OffersDecided(s, steps[1..]);
    } else {
      var t := Apply(s, steps[0]);
      var offered := if steps[0].LockToAdd? then [Offer(steps[0].task, |s.queue|)] else [];
      var later := Offers(t, steps[1..]);
      StepDecides(s, steps[0]);
      SameLimit(s, steps[0]);
      OffersDecided(t, steps[1..]);
      TakenBoth(s.limit, Undecided(t), later);
      TakenBoth(s.limit, Undecided(s) + offered, later);
      Regroup(Undecided(s), offered, later);
      Regroup(t.added, TakenOf(s.limit, Undecided(t)), TakenOf(s.limit, later));
      Regroup(s.added, TakenOf(s.limit, Undecided(s) + offered), TakenOf(s.limit, later));
    }
  }

  lemma SameLimit(s: State, step: Step)
    requires Enabled(s, step)
    ensures Apply(s, step).limit == s.limit
  {
  }

  /** From the empty pool: a task is refused if and only if there is a positive limit and more tasks than that were
      waiting when it was offered; without a positive limit everything offered is accepted, in order, but for
      the task that is just being added. */
  lemma {:induction false} RefusedOnlyWhenFull(limit: int, steps: seq<Step>)
    ensures var s, offers := Play(Initial(limit), steps), Offers(Initial(limit), steps);
            && s.added + TakenOf(limit, Undecided(s)) == TakenOf(limit, offers)
            && (limit <= 0 ==> s.added + TasksOf(Undecided(s)) == TasksOf(offers))
  {
    hide Play, Offers;
    var s, offers := Play(Initial(limit), steps), Offers(Initial(limit), steps);
    OffersDecided(Initial(limit), steps);
    assert Undecided(Initial(limit)) + offers == offers;
    if limit <= 0 {
      AllTaken(limit, offers);
      AllTaken(limit, Undecided(s));
    }
  }

  lemma {:induction false} AllTaken(limit: int, offers: seq<Offer>)
    requires limit <= 0
    ensures TakenOf(limit, offers) == TasksOf(offers)
    decreases |offers|
  {
    if offers != [] {
      AllTaken(limit, offers[1..]);
      assert TasksOf(offers) == [offers[0].task] + TasksOf(offers[1..]);
    }
  }

  // ---------- every accepted task can be run ----------

  /** With the mutex free, what remains to be done. */
  function Remaining(s: State): nat {
    2 * |s.queue| + Sum(s.threads, BUSY)
  }

  const BUSY: Thread -> nat := (t: Thread) => if t.Running? then 1 else 0

  ghost predicate AtWork(s: State) {
    Inv(s) && !s.stopped && s.threads != [] && s.holder == NoOne
  }

  /** As long as there is work, a thread can do the next piece of it by itself: finish the task it runs, or take
      the first one of the queue. */
  lemma {:induction false} WorkProceeds(s: State) returns (steps: seq<Step>)
    requires AtWork(s) && Remaining(s) > 0
    ensures forall step | step in steps :: WorkerStep(step)
    ensures var t := Play(s, steps); AtWork(t) && Remaining(t) < Remaining(s) && t.added == s.added
  {
    hide Sum, RunningTasks, Inv;
    var i: nat;
    if Sum(s.threads, BUSY) > 0 {
      i := BusyOne(s.threads);
    } else {
      WorkIsTaken(s);
      i :| IsThread(s, i) && (s.threads[i].Running? || Enabled(s, Acquire(i)));
    }
    if s.threads[i].Running? {
      steps := [Finish(i)];
      StepKeeps(s, steps[0]);
      SumUpdate(s.threads, i, Ready, BUSY);
      OneStep(s, steps[0]);
    } else {
      steps := [Acquire(i), Decide(i)];
      var t := Apply(s, Acquire(i));
      StepKeeps(s, Acquire(i));
      StepKeeps(t, Decide(i));
      SumUpdate(s.threads, i, Checking, BUSY);
      SumUpdate(t.threads, i, Running(t.queue[0]), BUSY);
      TwoSteps(s, Acquire(i), Decide(i));
    }
  }

  lemma OneStep(s: State, a: Step)
    requires Enabled(s, a)
    ensures Play(s, [a]) == Apply(s, a)
  {
    hide Apply, Enabled;
    assert [a][1..] == [];
  }

  lemma TwoSteps(s: State, a: Step, b: Step)
    requires Enabled(s, a) && Enabled(Apply(s, a), b)
    ensures Play(s, [a, b]) == Apply(Apply(s, a), b)
  {
    hide Apply, Enabled;
    assert [a, b][1..] == [b];
    OneStep(Apply(s, a), b);
  }

  lemma {:induction false} BusyOne(ts: seq<Thread>) returns (i: nat)
    requires Sum(ts, BUSY) > 0
    ensures i < |ts| && ts[i].Running?
  {
    if ts[0].Running? {
      i := 0;
    } else {
      i := BusyOne(ts[1..]);
      i := i + 1;
    }
  }

  lemma {:induction false} PlayBoth(s: State, a: seq<Step>, b: seq<Step>)
    ensures Play(s, a + b) == Play(Play(s, a), b)
    decreases |a|
  {
    hide Apply, Enabled;
    if a == [] {
      assert a + b == b;
    } else {
      assert (a + b)[1..] == a[1..] + b;
      PlayBoth(if Enabled(s, a[0]) then Apply(s, a[0]) else s, a[1..], b);
    }
  }

  /** From every reachable state of a pool with threads, the workers by themselves can run everything accepted. */
  lemma {:induction false} EverythingCanBeRun(s: State) returns (steps: seq<Step>)
    requires AtWork(s)
    ensures forall step | step in steps :: WorkerStep(step)
    ensures var t := Play(s, steps);
            t.added == s.added && t.queue == [] && t.started == s.added && multiset(t.finished) == multiset(s.added)
    decreases Remaining(s)
  {
    hide Play;
    if Remaining(s) == 0 {
      steps := [];
      NoSteps(s);
      NothingRuns(s.threads);
      assert s.started + [] == s.started;
    } else {
      var first := WorkProceeds(s);
      var rest := EverythingCanBeRun(Play(s, first));
      steps := first + rest;
      PlayBoth(s, first, rest);
    }
  }

  lemma NoSteps(s: State)
    ensures Play(s, []) == s
  {
  }

  lemma {:induction false} NothingRuns(ts: seq<Thread>)
    requires Sum(ts, BUSY) == 0
    ensures RunningTasks(ts) == multiset{}
  {
    if ts != [] {
      NothingRuns(ts[1..]);
    }
  }

  /** A thread with a task can always have it decided: when nobody holds the mutex, four steps put it at the end of
      the queue, unless the limit refuses it. */
  lemma {:induction false} TaskCanBeAdded(s: State, task: Task) returns (steps: seq<Step>)
    requires Inv(s) && s.holder == NoOne && !(s.limit > 0 && |s.queue| > s.limit)
    ensures var t := Play(s, steps);
            && Inv(t) && t.holder == NoOne && t.queue == s.queue + [task] && t.added == s.added + [task]
            && t.stopped == s.stopped && |t.threads| == |s.threads|
  {
    hide Inv, Sum, RunningTasks;
    var a := Apply(s, LockToAdd(task));
    var b := Apply(a, PushOrRefuse);
    var i: nat := 0;
    if !NobodySleeps(b.threads) {
      i :| i < |b.threads| && b.threads[i].Sleeping?;
    }
    var c := Apply(b, Signal(i));
    StepKeeps(s, LockToAdd(task));
    StepKeeps(a, PushOrRefuse);
    StepKeeps(b, Signal(i));
    StepKeeps(c, UnlockAdded);
    steps := [LockToAdd(task), PushOrRefuse] + [Signal(i), UnlockAdded];
    TwoSteps(s, LockToAdd(task), PushOrRefuse);
    TwoSteps(b, Signal(i), UnlockAdded);
    PlayBoth(s, [LockToAdd(task), PushOrRefuse], [Signal(i), UnlockAdded]);
  }

  lemma {:induction false} ThreadsCanBeSpawned(s: State, n: nat) returns (steps: seq<Step>)
    requires Inv(s) && s.holder == NoOne && !s.stopped
    ensures var t := Play(s, steps); Inv(t) && t == s.(threads := s.threads + seq(n, i => Ready))
  {
    hide Inv, Play;
    if n == 0 {
      steps := [];
      NoSteps(s);
      assert s.threads + seq(0, i => Ready) == s.threads;
    } else {
      var rest := ThreadsCanBeSpawned(s, n - 1);
      var t := Play(s, rest);
      StepKeeps(t, Spawn);
      OneStep(t, Spawn);
      PlayBoth(s, rest, [Spawn]);
      steps := rest + [Spawn];
      assert s.threads + seq(n - 1, i => Ready) + [Ready] == s.threads + seq(n, i => Ready);
    }
  }

  lemma {:induction false} TasksCanBeAdded(s: State, tasks: seq<Task>) returns (steps: seq<Step>)
    requires Inv(s) && s.holder == NoOne && s.limit <= 0
    ensures var t := Play(s, steps);
            && Inv(t) && t.holder == NoOne && t.added == s.added + tasks
            && t.stopped == s.stopped && |t.threads| == |s.threads|
    decreases |tasks|
  {
    hide Inv, Play;
    if tasks == [] {
      steps := [];
      NoSteps(s);
      assert s.added + [] == s.added;
    } else {
      var first := TaskCanBeAdded(s, tasks[0]);
      var t := Play(s, first);
      LimitStays(s, first);
      var rest := TasksCanBeAdded(t, tasks[1..]);
      PlayBoth(s, first, rest);
      steps := first + rest;
      assert s.added + [tasks[0]] + tasks[1..] == s.added + tasks;
    }
  }

  /** A whole life: threads are started, any tasks are offered to a pool without a limit, and all of them are run. */
  lemma {:induction false} TasksCanBeRun(limit: int, n: nat, tasks: seq<Task>) returns (steps: seq<Step>)
    requires limit <= 0 && n > 0
    ensures var t := Play(Initial(limit), steps);
            t.added == tasks && t.started == tasks && multiset(t.finished) == multiset(tasks)
  {
    hide Inv, Play;
    InitialOk(limit);
    var s := Initial(limit);
    var a := ThreadsCanBeSpawned(s, n);
    var b := TasksCanBeAdded(Play(s, a), tasks);
    var t := Play(Play(s, a), b);
    var c := EverythingCanBeRun(t);
    PlayBoth(s, a, b);
    PlayBoth(s, a + b, c);
    steps := a + b + c;
    assert [] + tasks == tasks;
  }

  /** And a pool can be stopped whenever the mutex is free. */
  lemma {:induction false} PoolCanBeStopped(s: State)
    requires Inv(s) && s.holder == NoOne
    ensures var t := Play(s, [LockToStop, Stop, Broadcast]);
            Inv(t) && t.told && t.holder == NoOne && t.queue == s.queue
  {
    hide Inv, Play;
    var a := Apply(s, LockToStop);
    var b := Apply(a, Stop);
    StepKeeps(s, LockToStop);
    StepKeeps(a, Stop);
    StepKeeps(b, Broadcast);
    TwoSteps(s, LockToStop, Stop);
    OneStep(b, Broadcast);
    PlayBoth(s, [LockToStop, Stop], [Broadcast]);
    assert [LockToStop, Stop] + [Broadcast] == [LockToStop, Stop, Broadcast];
  }

  // ---------- the end ----------

  ghost predicate AllExited(s: State) {
    forall i: nat | IsThread(s, i) :: s.threads[i].Exited?
  }

  predicate WorkerStep(step: Step) {
    step.Acquire? || step.Decide? || step.Finish? || step.WakeSpuriously?
  }

  /** After the broadcast each step of a worker brings the end nearer, and no other step puts it off. */
  lemma {:induction false} ShutdownShrinks(s: State, step: Step)
    requires Inv(s) && s.told && Enabled(s, step)
    ensures var t := Apply(s, step);
            && t.told
            && (if WorkerStep(step) then Sum(t.threads, RANK) < Sum(s.threads, RANK)
                else Sum(t.threads, RANK) == Sum(s.threads, RANK))
  {
    hide Sum, RunningTasks, TasksOk, WakeupsOk;
    match step
    case Acquire(i) => Counted(s, i, Checking);
    case Decide(i) => Counted(s, i, Exited);
    case Finish(i) => Counted(s, i, Ready);
    case WakeSpuriously(i) => Counted(s, i, Woken);
    case Signal(i) =>
      assert NobodySleeps(s.threads);
    case Broadcast => WakingAll(s.threads);
    case _ =>
  }

  /** Nor is there a deadlock: when no thread that adds or stops holds the mutex, a worker can go on until
      all have exited; those that hold it can always go on themselves. */
  lemma {:induction false} ShutdownProceeds(s: State)
    requires Inv(s) && s.told && !AllExited(s)
    ensures exists step :: Enabled(s, step) && (WorkerStep(step) || !(s.holder.NoOne? || s.holder.Worker?))
  {
    hide Sum, RunningTasks, TasksOk, WakeupsOk;
    var i: nat :| IsThread(s, i) && !s.threads[i].Exited?;
    match s.holder
    case NoOne =>
      if s.threads[i].Running? {
        assert Enabled(s, Finish(i));
      } else {
        assert Enabled(s, Acquire(i));
      }
    case Worker(j) => assert Enabled(s, Decide(j));
    case Adding(_) => assert Enabled(s, PushOrRefuse);
    case Pushed => assert Enabled(s, Signal(0));
    case Signalled => assert Enabled(s, UnlockAdded);
    case Stopping => assert Enabled(s, Stop);
  }

  /** When all threads have exited, what the pool still holds is exactly what was accepted and not run. */
  lemma {:induction false} NothingIsLost(s: State)
    requires Inv(s) && AllExited(s)
    ensures multiset(s.added) == multiset(s.finished) + multiset(s.queue)
  {
    NoneRunning(s.threads);
  }

  lemma {:induction false} NoneRunning(ts: seq<Thread>)
    requires forall i | 0 <= i < |ts| :: ts[i].Exited?
    ensures RunningTasks(ts) == multiset{}
  {
    if ts != [] {
      NoneRunning(ts[1..]);
    }
  }
}

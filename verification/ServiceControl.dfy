/** The Windows service handshake: handler threads post control events to the main loop and wait on a
    condition; the main loop runs the service call and wakes everyone; two semaphores order start-up. */
module ServiceControl {

  /** Control codes; `Startup` is the program's own. */
  datatype Code = Startup | Stop | Pause | Continue | Interrogate | Shutdown | User(n: nat) | Other

  /** Codes whose handler posts an event and waits. */
  predicate Posts(c: Code) {
    !c.Interrogate? && !c.Other?
  }

  /** Where a call of `handler` is. `Resumed` is holding the mutex for the last time. */
  datatype Pc = Arrived | Holding | Posted | Waiting | Woken | Resumed | Finished

  datatype Thread = Thread(code: Code, pc: Pc)

  /** A posted event, labelled with the call that posted it. */
  datatype Event = Event(poster: nat, code: Code)

  /** Where the main thread is: before the loop, in it, or past it. */
  datatype Main =
    | AwaitArgs | Creating | Releasing
    | Polling | Running(e: Event) | Locking(e: Event) | Waking(e: Event) | Unlocking
    | Exited

  datatype ServiceMain = NotStarted | AwaitApp | Registered | Called

  datatype Owner = Free | ByMain | By(thread: nat)

  datatype Receiver = Absent | Present | Deleted

  datatype Status = Stopped | StartPending | StopPending | PausePending | ContinuePending | IsRunning | Paused

  datatype State = State(
    threads: map<nat, Thread>,
    queue: seq<Event>,
    main: Main,
    service: ServiceMain,
    mutex: Owner,
    sem1: nat,
    sem2: nat,
    receiver: Receiver,         // the controller handler object
    quit: bool,
    status: Status,
    returned: set<nat>,         // calls whose service function has returned
    settled: seq<nat>,          // calls that set RUNNING or PAUSED, in order
    posts: seq<Receiver>)       // the receiver at each post

  const START: State :=
    State(map[], [], AwaitArgs, NotStarted, Free, 0, 0, Absent, false, Stopped, {}, [], [])

  datatype Action =
    | ServiceMainStarts | ServiceMainRegisters | StartupCall(id: nat) | Control(id: nat, code: Code)
    | Lock(id: nat) | Post(id: nat) | Wait(id: nat) | Reacquire(id: nat) | Finish(id: nat)
    | MainAcquire | MainGiveUp | MainCreate | MainRelease
    | MainTake | MainCall | MainLock | MainWake | MainUnlock | MainExit

  predicate At(s: State, id: nat, pc: Pc) {
    id in s.threads && s.threads[id].pc == pc
  }

  predicate Enabled(s: State, a: Action) {
    match a
    case ServiceMainStarts => s.service.NotStarted?
    case ServiceMainRegisters => s.service.AwaitApp? && s.sem2 > 0
    case StartupCall(id) => s.service.Registered? && id !in s.threads
    case Control(id, code) => (s.service.Registered? || s.service.Called?) && id !in s.threads && !code.Startup?
    case Lock(id) => At(s, id, Arrived) && s.mutex.Free?
    case Post(id) => At(s, id, Holding)
    case Wait(id) => At(s, id, Posted)
    case Reacquire(id) => At(s, id, Woken) && s.mutex.Free?
    case Finish(id) => At(s, id, Resumed)
    case MainAcquire => s.main.AwaitArgs? && s.sem1 > 0
    case MainGiveUp => s.main.AwaitArgs?
    case MainCreate => s.main.Creating?
    case MainRelease => s.main.Releasing?
    case MainTake => s.main.Polling? && s.queue != []
    case MainCall => s.main.Running?
    case MainLock => s.main.Locking? && s.mutex.Free?
    case MainWake => s.main.Waking?
    case MainUnlock => s.main.Unlocking?
    case MainExit => s.main.Polling? && s.quit
  }

  function Move(s: State, id: nat, pc: Pc): map<nat, Thread>
    requires id in s.threads
  {
    s.threads[id := s.threads[id].(pc := pc)]
  }

  /** `wakeAll`. */
  function AllWoken(threads: map<nat, Thread>): (r: map<nat, Thread>)
    ensures r.Keys == threads.Keys
  {
    map id | id in threads :: if threads[id].pc == Waiting then threads[id].(pc := Woken) else threads[id]
  }

  /** The status set before posting. */
  function Pending(code: Code, status: Status): Status {
    match code
    case Startup => StartPending
    case Stop => StopPending
    case Pause => PausePending
    case Continue => ContinuePending
    case _ => status
  }

  /** The status set after waiting, if the code has one. */
  predicate Settles(code: Code) {
    code.Startup? || code.Pause? || code.Continue?
  }

  function Settled(code: Code, status: Status): Status {
    match code
    case Startup => IsRunning
    case Pause => Paused
    case Continue => IsRunning
    case _ => status
  }

  function Next(s: State, a: Action): State
    requires Enabled(s, a)
  {
    match a
    case ServiceMainStarts => s.(service := AwaitApp, sem1 := s.sem1 + 1)
    case ServiceMainRegisters => s.(service := Registered, sem2 := s.sem2 - 1)
    case StartupCall(id) => s.(service := Called, threads := s.threads[id := Thread(Startup, Arrived)])
    case Control(id, code) => s.(threads := s.threads[id := Thread(code, Arrived)])
    case Lock(id) => s.(threads := Move(s, id, Holding), mutex := By(id))
    case Post(id) =>
      var code := s.threads[id].code;
      if Posts(code) then
        s.(threads := Move(s, id, Posted), status := Pending(code, s.status),
           queue := s.queue + [Event(id, if code.Shutdown? then Stop else code)],
           posts := s.posts + [s.receiver])
      else
        s.(threads := Move(s, id, Resumed))
    case Wait(id) => s.(threads := Move(s, id, Waiting), mutex := Free)
    case Reacquire(id) => s.(threads := Move(s, id, Resumed), mutex := By(id))
    case Finish(id) =>
      var code := s.threads[id].code;
      s.(threads := Move(s, id, Finished), mutex := Free, status := Settled(code, s.status),
         settled := if Settles(code) then s.settled + [id] else s.settled)
    case MainAcquire => s.(main := Creating, sem1 := s.sem1 - 1)
    case MainGiveUp => s.(main := Exited)
    case MainCreate => s.(main := Releasing, receiver := Present)
    case MainRelease => s.(main := Polling, sem2 := s.sem2 + 1)
    case MainTake => s.(main := Running(s.queue[0]), queue := s.queue[1..])
    case MainCall => s.(main := Locking(s.main.e), returned := s.returned + {s.main.e.poster},
                        quit := s.quit || s.main.e.code.Stop?)
    case MainLock => s.(main := Waking(s.main.e), mutex := ByMain)
    case MainWake => s.(main := Unlocking, threads := AllWoken(s.threads))
    case MainUnlock => s.(main := Polling, mutex := Free)
    case MainExit => s.(main := Exited, status := Stopped, receiver := Deleted)
  }

  /** A step that is not enabled does nothing. */
  function Step(s: State, a: Action): State {
    if Enabled(s, a) then Next(s, a) else s
  }

  function Run(s: State, actions: seq<Action>): State
    decreases |actions|
  {
    if actions == [] then s else Run(Step(s, actions[0]), actions[1..])
  }

  // ---------------------------------------------------------------- no lost wake-up

  predicate Queued(s: State, id: nat) {
    exists i :: 0 <= i < |s.queue| && s.queue[i].poster == id
  }

  /** The main loop is at work on an event of `id` and not yet past `wakeAll`. */
  predicate InHand(s: State, id: nat) {
    (s.main.Running? || s.main.Locking? || s.main.Waking?) && s.main.e.poster == id
  }

  predicate MayHold(pc: Pc) {
    pc == Holding || pc == Posted || pc == Resumed
  }

  /** The mutex is held by exactly the thread that thinks it holds it. */
  ghost predicate Exclusive(s: State) {
    && (forall id :: id in s.threads && MayHold(s.threads[id].pc) ==> s.mutex == By(id))
    && (s.main.Waking? || s.main.Unlocking? <==> s.mutex.ByMain?)
    && (s.mutex.By? ==> s.mutex.thread in s.threads && MayHold(s.threads[s.mutex.thread].pc))
  }

  /** Every call that has posted and not been woken has its own event ahead of it. */
  ghost predicate NoneLost(s: State) {
    forall id :: id in s.threads && (s.threads[id].pc == Posted || s.threads[id].pc == Waiting)
                 ==> Queued(s, id) || InHand(s, id)
  }

  /** Controls arrive only after the main thread has created their receiver and entered its loop. */
  ghost predicate Started(s: State) {
    && (s.main.AwaitArgs? || s.main.Creating? || s.main.Releasing?
        ==> s.sem2 == 0 && !s.service.Registered? && !s.service.Called?)
    && (s.sem2 > 0 || s.service.Registered? || s.service.Called? ==> s.receiver != Absent)
    && (s.main.Releasing? ==> s.receiver == Present)
    && (s.threads != map[] ==> s.service.Registered? || s.service.Called?)
    && Absent !in s.posts
  }

  ghost predicate Inv(s: State) {
    Exclusive(s) && NoneLost(s) && Started(s)
  }

  lemma ExclusiveStep(s: State, a: Action)
    requires Exclusive(s)
    ensures Exclusive(Step(s, a))
  {
  }

  lemma StartedStep(s: State, a: Action)
    requires Started(s)
    ensures Started(Step(s, a))
  {
  }

  lemma NoneLostStep(s: State, a: Action)
    requires Exclusive(s) && NoneLost(s)
    ensures NoneLost(Step(s, a))
  {
    var s' := Step(s, a);
    forall id | id in s'.threads && (s'.threads[id].pc == Posted || s'.threads[id].pc == Waiting)
      ensures Queued(s', id) || InHand(s', id)
    {
      if Enabled(s, a) {
        EventKept(s, a, id);
      }
    }
  }

  /** The event of one call that has posted and not been woken. */
  lemma EventKept(s: State, a: Action, id: nat)
    requires Exclusive(s) && NoneLost(s) && Enabled(s, a)
    requires At(Next(s, a), id, Posted) || At(Next(s, a), id, Waiting)
    ensures Queued(Next(s, a), id) || InHand(Next(s, a), id)
  {
    QueuedStep(s, a, id);
  }

  lemma QueuedStep(s: State, a: Action, id: nat)
    requires Enabled(s, a)
    ensures Queued(s, id) ==> Queued(Next(s, a), id) || InHand(Next(s, a), id)
    ensures a == Post(id) && Posts(s.threads[id].code) ==> Queued(Next(s, a), id)
  {
    var s' := Next(s, a);
    if a.Post? && Posts(s.threads[a.id].code) {
      assert s'.queue[|s.queue|].poster == a.id;
      assert forall i :: 0 <= i < |s.queue| ==> s'.queue[i] == s.queue[i];
    } else if a.MainTake? {
      assert forall i :: 1 <= i < |s.queue| ==> s.queue[i] == s'.queue[i - 1];
    } else {
      assert s'.queue == s.queue;
    }
  }

  lemma {:induction false} InvRun(s: State, actions: seq<Action>)
    requires Inv(s)
    ensures Inv(Run(s, actions))
    decreases |actions|
  {
    if actions != [] {
      InvStep(s, actions[0]);
      InvRun(Step(s, actions[0]), actions[1..]);
    }
  }

  /** In every run of any number of concurrent calls: a call waiting on the condition has its own
      event still queued or in hand and not yet past `wakeAll`, and no control event was posted
      before its receiver existed. */
  lemma NoLostWakeup(actions: seq<Action>, id: nat)
    ensures var s := Run(START, actions);
            && (At(s, id, Waiting) ==> Queued(s, id) || InHand(s, id))
            && Absent !in s.posts
  {
    InvRun(START, actions);
  }

  // ---------------------------------------------------------------- progress

  function FirstOf(queue: seq<Event>, id: nat): (i: nat)
    ensures i <= |queue|
    ensures forall j :: 0 <= j < i ==> queue[j].poster != id
    ensures i < |queue| ==> queue[i].poster == id
  {
    if queue == [] || queue[0].poster == id then 0 else 1 + FirstOf(queue[1..], id)
  }

  lemma {:induction false} FirstOfLonger(queue: seq<Event>, more: seq<Event>, id: nat)
    requires FirstOf(queue, id) < |queue|
    ensures FirstOf(queue + more, id) == FirstOf(queue, id)
  {
    if queue[0].poster != id {
      assert (queue + more)[1..] == queue[1..] + more;
      FirstOfLonger(queue[1..], more, id);
    }
  }

  /** Steps of the main loop until it takes the next event. */
  function ToTake(m: Main): nat {
    match m
    case Running(_) => 4
    case Locking(_) => 3
    case Waking(_) => 2
    case Unlocking => 1
    case _ => 0
  }

  /** Steps of the main loop until the event of `id` has been through `wakeAll`. */
  function Rank(s: State, id: nat): nat {
    if InHand(s, id) then ToTake(s.main) - 1
    else ToTake(s.main) + 5 * FirstOf(s.queue, id) + 4
  }

  predicate LoopAction(a: Action) {
    a.MainTake? || a.MainCall? || a.MainLock? || a.MainWake? || a.MainUnlock?
  }

  lemma RankInHand(s: State, a: Action, id: nat)
    requires Enabled(s, a) && InHand(s, id) && InHand(Next(s, a), id)
    ensures Rank(Next(s, a), id) <= Rank(s, id)
    ensures LoopAction(a) ==> Rank(Next(s, a), id) < Rank(s, id)
  {
  }

  lemma RankQueued(s: State, a: Action, id: nat)
    requires Enabled(s, a) && Queued(s, id) && !InHand(s, id) && !a.MainExit?
    ensures Rank(Next(s, a), id) <= Rank(s, id)
    ensures LoopAction(a) ==> Rank(Next(s, a), id) < Rank(s, id)
  {
    assert FirstOf(s.queue, id) < |s.queue| by {
      var k :| 0 <= k < |s.queue| && s.queue[k].poster == id;
    }
    if a.Post? && Posts(s.threads[a.id].code) {
      FirstOfLonger(s.queue, [Event(a.id, if s.threads[a.id].code.Shutdown? then Stop else s.threads[a.id].code)], id);
    }
  }

  /** As long as a call waits, every step of the main loop brings its wake-up nearer, and no step of
      anyone else moves it away. */
  lemma RankFalls(s: State, a: Action, id: nat)
    requires (Queued(s, id) || InHand(s, id)) && Enabled(s, a) && At(s, id, Waiting)
    requires At(Next(s, a), id, Waiting) && !a.MainExit?
    ensures Rank(Next(s, a), id) <= Rank(s, id)
    ensures LoopAction(a) ==> Rank(Next(s, a), id) < Rank(s, id)
  {
    if InHand(s, id) {
      RankInHand(s, a, id);
    } else {
      RankQueued(s, a, id);
    }
  }

  /** How far the holder of the mutex is from letting go. */
  function ToRelease(s: State): nat {
    if s.mutex.By? && s.mutex.thread in s.threads then
      match s.threads[s.mutex.thread].pc
      case Holding => 2
      case Posted => 1
      case Resumed => 1
      case _ => 0
    else 0
  }

  /** The holder of the mutex can move towards letting go. */
  lemma HolderMoves(s: State) returns (a: Action)
    requires Exclusive(s) && s.mutex.By?
    ensures a == Post(s.mutex.thread) || a == Wait(s.mutex.thread) || a == Finish(s.mutex.thread)
    ensures Enabled(s, a) && ToRelease(Next(s, a)) < ToRelease(s)
  {
    var t := s.mutex.thread;
    match s.threads[t].pc
    case Holding => a := Post(t);
    case Posted => a := Wait(t);
    case Resumed => a := Finish(t);
  }

  /** Until the main thread leaves, it can move as long as nobody else holds the mutex. */
  lemma LoopMoves(s: State, id: nat) returns (a: Action)
    requires Inv(s) && At(s, id, Waiting) && !s.main.Exited? && !s.mutex.By?
    ensures LoopAction(a) && Enabled(s, a)
  {
    match s.main
    case Polling => a := MainTake;
    case Running(_) => a := MainCall;
    case Locking(_) => a := MainLock;
    case Waking(_) => a := MainWake;
    case Unlocking => a := MainUnlock;
  }

  lemma MoveKeeps(s: State, a: Action, id: nat)
    requires Enabled(s, a) && At(s, id, Waiting) && (a.Post? || a.Wait? || a.Finish? || LoopAction(a))
    ensures !s.main.Exited? ==> !Next(s, a).main.Exited?
    ensures At(Next(s, a), id, Waiting) || At(Next(s, a), id, Woken)
  {
  }

  /** The next step of a schedule that gets `id` woken. */
  lemma NextMove(s: State, id: nat) returns (a: Action)
    requires Inv(s) && At(s, id, Waiting) && !s.main.Exited?
    ensures Enabled(s, a) && !Next(s, a).main.Exited?
    ensures LoopAction(a) || a.Post? || a.Wait? || a.Finish?
    ensures At(Next(s, a), id, Waiting) ==>
              Rank(Next(s, a), id) < Rank(s, id)
              || (Rank(Next(s, a), id) <= Rank(s, id) && ToRelease(Next(s, a)) < ToRelease(s))
    ensures At(Next(s, a), id, Waiting) || At(Next(s, a), id, Woken)
  {
    if s.mutex.By? {
      a := HolderMoves(s);
    } else {
      a := LoopMoves(s, id);
    }
    MoveKeeps(s, a, id);
    if At(Next(s, a), id, Waiting) {
      RankFalls(s, a, id);
    }
  }

  lemma {:induction false} CanWake(s: State, id: nat) returns (actions: seq<Action>)
    requires Inv(s) && At(s, id, Waiting) && !s.main.Exited?
    ensures At(Run(s, actions), id, Woken)
    decreases Rank(s, id), ToRelease(s)
  {
    var a := NextMove(s, id);
    var s' := Next(s, a);
    if At(s', id, Woken) {
      actions := [a];
      assert Run(s', actions[1..]) == s';
    } else {
      InvRun(s, [a]);
      assert Run(Step(s, a), [a][1..]) == s';
      var rest := CanWake(s', id);
      actions := [a] + rest;
      assert actions[1..] == rest;
    }
  }

  lemma {:induction false} ExitedNeverWakes(s: State, actions: seq<Action>, id: nat)
    requires s.main.Exited? && At(s, id, Waiting)
    ensures At(Run(s, actions), id, Waiting)
    decreases |actions|
  {
    if actions != [] {
      ExitedNeverWakes(Step(s, actions[0]), actions[1..], id);
    }
  }

  ghost predicate StillWaiting(s: State, more: seq<Action>, id: nat) {
    At(Run(s, more), id, Waiting)
  }

  /** A waiting call is stranded, that is, no continuation of the run ever wakes it, if and only if
      the main thread has left its loop. */
  lemma StrandedIff(actions: seq<Action>, id: nat)
    requires At(Run(START, actions), id, Waiting)
    ensures (forall more :: StillWaiting(Run(START, actions), more, id)) <==> Run(START, actions).main.Exited?
  {
    var s := Run(START, actions);
    InvRun(START, actions);
    if s.main.Exited? {
      forall more ensures StillWaiting(s, more, id) {
        ExitedNeverWakes(s, more, id);
      }
    } else {
      var more := CanWake(s, id);
      assert !StillWaiting(s, more, id);
    }
  }

  /** Steps of the main loop that a run takes. */
  function LoopSteps(s: State, actions: seq<Action>): nat
    decreases |actions|
  {
    if actions == [] then 0
    else
      (if Enabled(s, actions[0]) && LoopAction(actions[0]) then 1 else 0)
      + LoopSteps(Step(s, actions[0]), actions[1..])
  }

  predicate PastWaiting(s: State, id: nat) {
    At(s, id, Woken) || At(s, id, Resumed) || At(s, id, Finished)
  }

  lemma PastStep(s: State, a: Action, id: nat)
    requires PastWaiting(s, id)
    ensures PastWaiting(Step(s, a), id)
  {
  }

  lemma {:induction false} StaysPast(s: State, actions: seq<Action>, id: nat)
    requires PastWaiting(s, id)
    ensures PastWaiting(Run(s, actions), id)
    decreases |actions|
  {
    if actions != [] {
      PastStep(s, actions[0], id);
      StaysPast(Step(s, actions[0]), actions[1..], id);
    }
  }

  lemma {:induction false} StaysExited(s: State, actions: seq<Action>)
    requires s.main.Exited?
    ensures Run(s, actions).main.Exited?
    decreases |actions|
  {
    if actions != [] {
      StaysExited(Step(s, actions[0]), actions[1..]);
    }
  }

  /** On every schedule: while a call waits and the main thread has not left, each step of the main loop
      has used up one of at most `Rank` many. So after more steps than that the call has been woken. */
  lemma {:induction false} WokenInTime(s: State, actions: seq<Action>, id: nat)
    requires Inv(s) && At(s, id, Waiting)
    ensures At(Run(s, actions), id, Waiting) && !Run(s, actions).main.Exited? ==>
              Rank(Run(s, actions), id) + LoopSteps(s, actions) <= Rank(s, id)
    decreases |actions|
  {
    if actions != [] {
      var a, later := actions[0], actions[1..];
      var s' := Step(s, a);
      if Enabled(s, a) && a.MainExit? {
        StaysExited(s', later);
      } else if At(s', id, Waiting) {
        InvStep(s, a);
        WokenInTime(s', later, id);
        if Enabled(s, a) {
          RankFalls(s, a, id);
        }
      } else {
        assert At(s', id, Woken);
        StaysPast(s', later, id);
      }
    }
  }

  lemma InvStep(s: State, a: Action)
    requires Inv(s)
    ensures Inv(Step(s, a))
  {
    ExclusiveStep(s, a);
    NoneLostStep(s, a);
    StartedStep(s, a);
  }

  // ---------------------------------------------------------------- reporting too early

  /** Some call reported RUNNING or PAUSED before its service function returned. */
  ghost predicate SettlesEarly(s: State) {
    exists i :: 0 <= i < |s.settled| && s.settled[i] !in s.returned
  }

  predicate InHandOther(s: State, id: nat) {
    (s.main.Running? || s.main.Locking? || s.main.Waking?) && s.main.e.poster != id
  }

  /** The event in hand, or else the next one, is that of another call. */
  predicate OtherFirst(s: State, id: nat) {
    InHandOther(s, id) || (!InHand(s, id) && s.queue != [] && s.queue[0].poster != id)
  }

  /** An event is in the queue, or in hand and its `wakeAll` does not yet hold the mutex. */
  predicate Underway(s: State) {
    s.main.Running? || s.main.Locking? || s.queue != []
  }

  predicate ToPost(s: State, id: nat) {
    (At(s, id, Arrived) || At(s, id, Holding)) && Posts(s.threads[id].code)
  }

  /** The `wakeAll` of another call is still to come, and may come before that of the call `id`. */
  predicate WakeAhead(s: State, id: nat)
    requires id in s.threads
  {
    match s.threads[id].pc
    case Arrived => !s.main.Exited? && (Underway(s) || exists j :: j in s.threads && j != id && ToPost(s, j))
    case Holding => !s.main.Exited? && Underway(s)
    case Posted => !s.main.Exited? && OtherFirst(s, id)
    case Waiting => !s.main.Exited? && OtherFirst(s, id)
    case _ => false
  }

  /** A call that reports when it ends, whose service function has not returned, and that has been or can
      be woken by the `wakeAll` of another. */
  ghost predicate Exposed(s: State, id: nat) {
    && id in s.threads && Settles(s.threads[id].code) && id !in s.returned
    && (At(s, id, Woken) || At(s, id, Resumed) || WakeAhead(s, id))
  }

  /** Events belong to calls that have posted; `wakeAll` comes after the service function. */
  ghost predicate Posters(s: State) {
    && (forall i :: 0 <= i < |s.queue| ==> HasPosted(s, s.queue[i].poster))
    && (s.main.Running? || s.main.Locking? || s.main.Waking? ==> HasPosted(s, s.main.e.poster))
    && (s.main.Locking? || s.main.Waking? ==> s.main.e.poster in s.returned)
  }

  predicate HasPosted(s: State, id: nat) {
    id in s.threads && s.threads[id].pc != Arrived && s.threads[id].pc != Holding
  }

  lemma PostersStep(s: State, a: Action)
    requires Posters(s)
    ensures Posters(Step(s, a))
  {
    var s' := Step(s, a);
    assert forall id :: HasPosted(s, id) ==> HasPosted(s', id);
  }

  predicate Arrival(a: Action) {
    a.StartupCall? || a.Control?
  }

  /** No further call arrives. */
  ghost predicate Closed(actions: seq<Action>) {
    forall a :: a in actions ==> !Arrival(a)
  }

  predicate ThreadAction(a: Action) {
    a.Lock? || a.Post? || a.Wait? || a.Reacquire? || a.Finish?
  }

  lemma ThreadExposesNone(s: State, a: Action, id: nat)
    requires Exclusive(s) && NoneLost(s) && ThreadAction(a) && Exposed(Step(s, a), id)
    ensures Exposed(s, id)
  {
  }

  lemma MainExposesNone(s: State, a: Action, id: nat)
    requires Exclusive(s) && Posters(s) && !Arrival(a) && !ThreadAction(a) && Exposed(Step(s, a), id)
    ensures Exposed(s, id)
  {
  }

  lemma EarlyStep(s: State, a: Action)
    requires !SettlesEarly(s) && forall id :: !Exposed(s, id)
    ensures !SettlesEarly(Step(s, a))
  {
    if Enabled(s, a) && a.Finish? {
      assert !Exposed(s, a.id);
    }
  }

  ghost predicate Safe(s: State) {
    Inv(s) && Posters(s) && !SettlesEarly(s) && forall id :: !Exposed(s, id)
  }

  lemma SafeStep(s: State, a: Action)
    requires Safe(s) && !Arrival(a)
    ensures Safe(Step(s, a))
  {
    InvStep(s, a);
    PostersStep(s, a);
    EarlyStep(s, a);
    forall id ensures !Exposed(Step(s, a), id) {
      if Exposed(Step(s, a), id) {
        if ThreadAction(a) {
          ThreadExposesNone(s, a, id);
        } else {
          MainExposesNone(s, a, id);
        }
      }
    }
  }

  lemma {:induction false} SafeRun(s: State, actions: seq<Action>)
    requires Safe(s) && Closed(actions)
    ensures Safe(Run(s, actions))
    decreases |actions|
  {
    if actions != [] {
      SafeStep(s, actions[0]);
      SafeRun(Step(s, actions[0]), actions[1..]);
    }
  }

  /** How far the mutex is from being free. */
  function ToFree(s: State): nat {
    if s.mutex.ByMain? then (if s.main.Waking? then 2 else 1) else ToRelease(s)
  }

  /** Whoever holds the mutex can move towards letting go. */
  lemma FreeMutex(s: State) returns (a: Action)
    requires Exclusive(s) && !s.mutex.Free?
    ensures Enabled(s, a) && ToFree(Next(s, a)) < ToFree(s)
    ensures a.MainWake? || a.MainUnlock?
            || (s.mutex.By? && a in [Post(s.mutex.thread), Wait(s.mutex.thread), Finish(s.mutex.thread)])
  {
    if s.mutex.By? {
      a := HolderMoves(s);
    } else {
      a := if s.main.Waking? then MainWake else MainUnlock;
    }
  }

  /** One more step in front of a run. */
  lemma StepThen(s: State, a: Action, more: seq<Action>)
    requires !Arrival(a) && Closed(more) && SettlesEarly(Run(Step(s, a), more))
    ensures Closed([a] + more) && SettlesEarly(Run(s, [a] + more))
  {
    assert ([a] + more)[1..] == more;
  }

  lemma FinishedEarly(s: State, id: nat)
    requires Exposed(s, id) && At(s, id, Resumed)
    ensures SettlesEarly(Step(s, Finish(id))) && SettlesEarly(Run(Step(s, Finish(id)), []))
  {
    assert Next(s, Finish(id)).settled[|s.settled|] == id;
  }

  lemma WokenKept(s: State, a: Action, id: nat)
    requires Exposed(s, id) && At(s, id, Woken) && Enabled(s, a)
    requires a.MainWake? || a.MainUnlock? || a.Post? || a.Wait? || a.Finish?
    ensures Exposed(Next(s, a), id) && At(Next(s, a), id, Woken)
  {
  }

  lemma {:induction false} WokenSettles(s: State, id: nat) returns (more: seq<Action>)
    requires Inv(s) && Exposed(s, id) && (At(s, id, Woken) || At(s, id, Resumed))
    ensures Closed(more) && SettlesEarly(Run(s, more))
    decreases if At(s, id, Woken) then 1 else 0, ToFree(s)
  {
    var a := Finish(id);
    if At(s, id, Resumed) {
      FinishedEarly(s, id);
      more := [];
    } else {
      if s.mutex.Free? {
        a := Reacquire(id);
      } else {
        a := FreeMutex(s);
        WokenKept(s, a, id);
      }
      InvStep(s, a);
      more := WokenSettles(Next(s, a), id);
    }
    StepThen(s, a, more);
    more := [a] + more;
  }

  lemma AheadKept(s: State, a: Action, id: nat)
    requires Inv(s) && Exposed(s, id) && At(s, id, Waiting) && Enabled(s, a)
    requires LoopAction(a) || a.Post? || a.Wait? || a.Finish?
    ensures Exposed(Next(s, a), id)
  {
  }

  lemma {:induction false} WaitingSettles(s: State, id: nat) returns (more: seq<Action>)
    requires Inv(s) && Exposed(s, id) && At(s, id, Waiting)
    ensures Closed(more) && SettlesEarly(Run(s, more))
    decreases Rank(s, id), ToRelease(s)
  {
    var a := NextMove(s, id);
    InvStep(s, a);
    AheadKept(s, a, id);
    if At(Next(s, a), id, Waiting) {
      more := WaitingSettles(Next(s, a), id);
    } else {
      more := WokenSettles(Next(s, a), id);
    }
    StepThen(s, a, more);
    more := [a] + more;
  }

  lemma PostedSettles(s: State, id: nat) returns (more: seq<Action>)
    requires Inv(s) && Exposed(s, id) && At(s, id, Posted)
    ensures Closed(more) && SettlesEarly(Run(s, more))
  {
    InvStep(s, Wait(id));
    more := WaitingSettles(Next(s, Wait(id)), id);
    StepThen(s, Wait(id), more);
    more := [Wait(id)] + more;
  }

  lemma PostBehind(s: State, id: nat)
    requires Posters(s) && Exposed(s, id) && At(s, id, Holding)
    ensures Exposed(Next(s, Post(id)), id)
  {
  }

  lemma HoldingSettles(s: State, id: nat) returns (more: seq<Action>)
    requires Inv(s) && Posters(s) && Exposed(s, id) && At(s, id, Holding)
    ensures Closed(more) && SettlesEarly(Run(s, more))
  {
    PostBehind(s, id);
    InvStep(s, Post(id));
    more := PostedSettles(Next(s, Post(id)), id);
    StepThen(s, Post(id), more);
    more := [Post(id)] + more;
  }

  lemma UnderwayKept(s: State, a: Action, id: nat)
    requires Inv(s) && Exposed(s, id) && At(s, id, Arrived) && Enabled(s, a)
    requires a.MainWake? || a.MainUnlock?
             || (s.mutex.By? && a in [Post(s.mutex.thread), Wait(s.mutex.thread), Finish(s.mutex.thread)])
    ensures At(Next(s, a), id, Arrived) && id !in Next(s, a).returned && !Next(s, a).main.Exited?
    ensures Next(s, a).threads[id] == s.threads[id]
    ensures Underway(s) ==> Underway(Next(s, a))
  {
  }

  lemma {:induction false} ArrivedSettles(s: State, id: nat) returns (more: seq<Action>)
    requires Inv(s) && Posters(s) && Exposed(s, id) && At(s, id, Arrived) && Underway(s)
    ensures Closed(more) && SettlesEarly(Run(s, more))
    decreases ToFree(s)
  {
    var a := Lock(id);
    if s.mutex.Free? {
      InvStep(s, a);
      PostersStep(s, a);
      more := HoldingSettles(Next(s, a), id);
    } else {
      a := FreeMutex(s);
      InvStep(s, a);
      PostersStep(s, a);
      UnderwayKept(s, a, id);
      more := ArrivedSettles(Next(s, a), id);
    }
    StepThen(s, a, more);
    more := [a] + more;
  }

  /** A rival that is about to post: let it post first. */
  lemma {:induction false} RivalSettles(s: State, id: nat, j: nat) returns (more: seq<Action>)
    requires Inv(s) && Posters(s) && Exposed(s, id) && At(s, id, Arrived)
    requires j in s.threads && j != id && ToPost(s, j)
    ensures Closed(more) && SettlesEarly(Run(s, more))
    decreases if At(s, j, Arrived) then 1 else 0, ToFree(s)
  {
    if Underway(s) {
      more := ArrivedSettles(s, id);
    } else {
      var a := if At(s, j, Holding) then Post(j) else Lock(j);
      if At(s, j, Arrived) && !s.mutex.Free? {
        a := FreeMutex(s);
        UnderwayKept(s, a, id);
        RivalKept(s, a, j);
      } else {
        RivalStep(s, a, id, j);
      }
      InvStep(s, a);
      PostersStep(s, a);
      var s' := Next(s, a);
      if Underway(s') {
        more := ArrivedSettles(s', id);
      } else {
        more := RivalSettles(s', id, j);
      }
      StepThen(s, a, more);
      more := [a] + more;
    }
  }

  lemma RivalKept(s: State, a: Action, j: nat)
    requires At(s, j, Arrived) && Enabled(s, a)
    requires a.MainWake? || a.MainUnlock? || a.Post? || a.Wait? || a.Finish?
    ensures j in Next(s, a).threads && Next(s, a).threads[j] == s.threads[j]
  {
  }

  lemma RivalStep(s: State, a: Action, id: nat, j: nat)
    requires Inv(s) && Exposed(s, id) && At(s, id, Arrived) && !s.main.Exited? && Enabled(s, a)
    requires j in s.threads && j != id && ToPost(s, j) && (a == Post(j) || a == Lock(j))
    ensures Exposed(Next(s, a), id) && At(Next(s, a), id, Arrived)
    ensures if a == Post(j) then Underway(Next(s, a)) else ToPost(Next(s, a), j) && At(Next(s, a), j, Holding)
  {
    if a == Lock(j) {
      assert ToPost(Next(s, a), j);
    }
  }

  lemma ExposedSettles(s: State, id: nat) returns (more: seq<Action>)
    requires Inv(s) && Posters(s) && Exposed(s, id)
    ensures Closed(more) && SettlesEarly(Run(s, more))
  {
    if At(s, id, Arrived) {
      if Underway(s) {
        more := ArrivedSettles(s, id);
      } else {
        var j :| j in s.threads && j != id && ToPost(s, j);
        more := RivalSettles(s, id, j);
      }
    } else if At(s, id, Holding) {
      more := HoldingSettles(s, id);
    } else if At(s, id, Posted) {
      more := PostedSettles(s, id);
    } else if At(s, id, Waiting) {
      more := WaitingSettles(s, id);
    } else {
      more := WokenSettles(s, id);
    }
  }

  lemma {:induction false} PostersRun(s: State, actions: seq<Action>)
    requires Posters(s)
    ensures Posters(Run(s, actions))
    decreases |actions|
  {
    if actions != [] {
      PostersStep(s, actions[0]);
      PostersRun(Step(s, actions[0]), actions[1..]);
    }
  }

  /** From any reachable state, some run without further calls reports RUNNING or PAUSED too early if and
      only if that has happened already or some call is exposed. */
  lemma SettlesEarlyIff(actions: seq<Action>)
    ensures var s := Run(START, actions);
            (exists more :: Closed(more) && SettlesEarly(Run(s, more)))
            <==> SettlesEarly(s) || exists id :: Exposed(s, id)
  {
    var s := Run(START, actions);
    InvRun(START, actions);
    PostersRun(START, actions);
    if SettlesEarly(s) {
      assert Closed([]) && Run(s, []) == s;
    } else if id :| Exposed(s, id) {
      var more := ExposedSettles(s, id);
    } else {
      forall more | Closed(more) ensures !SettlesEarly(Run(s, more)) {
        SafeRun(s, more);
      }
    }
  }

  // ---------------------------------------------------------------- one control at a time

  predicate StopLike(c: Code) {
    c.Stop? || c.Shutdown?
  }

  /** What a service control manager sends: one control at a time, none before start-up is over, and
      none after a stop or shutdown. */
  ghost predicate Orderly(s: State, a: Action) {
    && (a.StartupCall? || a.Control? ==> forall id :: id in s.threads ==> s.threads[id].pc == Finished)
    && (a.Control? ==> s.service.Called? && forall id :: id in s.threads ==> !StopLike(s.threads[id].code))
  }

  ghost predicate OrderlyRun(s: State, actions: seq<Action>)
    decreases |actions|
  {
    actions == [] || (Orderly(s, actions[0]) && OrderlyRun(Step(s, actions[0]), actions[1..]))
  }

  /** An event in flight belongs to a call that has posted and was not woken. */
  predicate OwnEvent(s: State, e: Event) {
    && e.poster in s.threads
    && (s.threads[e.poster].pc == Posted || s.threads[e.poster].pc == Waiting)
    && (e.code.Stop? ==> StopLike(s.threads[e.poster].code))
  }

  ghost predicate OneAtATime(s: State) {
    forall i, j ::
      i in s.threads && j in s.threads && s.threads[i].pc != Finished && s.threads[j].pc != Finished ==> i == j
  }

  ghost predicate QueueInFlight(s: State) {
    |s.queue| <= 1 && (s.queue != [] ==> s.main.Polling? && OwnEvent(s, s.queue[0]))
  }

  ghost predicate HandInFlight(s: State) {
    && (s.main.Running? || s.main.Locking? || s.main.Waking? ==> s.queue == [] && OwnEvent(s, s.main.e))
    && (s.main.Locking? || s.main.Waking? ==> s.main.e.poster in s.returned)
  }

  ghost predicate InFlight(s: State) {
    QueueInFlight(s) && HandInFlight(s)
  }

  ghost predicate SomeStop(s: State) {
    exists id :: id in s.threads && StopLike(s.threads[id].code)
  }

  ghost predicate NoneToPost(s: State) {
    forall id :: !At(s, id, Arrived) && !At(s, id, Holding)
  }

  ghost predicate Closing(s: State) {
    && (SomeStop(s) ==> s.service.Called?)
    && (s.quit ==> s.queue == [] && SomeStop(s) && NoneToPost(s))
    && (s.receiver.Deleted? ==> s.quit)
    && (s.main.Exited? && !s.quit ==> s.sem2 == 0 && !s.service.Registered? && !s.service.Called?)
    && (forall i :: 0 <= i < |s.posts| ==> s.posts[i] == Present)
  }

  ghost predicate OrderInv(s: State) {
    Safe(s) && OneAtATime(s) && InFlight(s) && Closing(s)
  }

  lemma OneStep(s: State, a: Action)
    requires OneAtATime(s) && Orderly(s, a)
    ensures OneAtATime(Step(s, a))
  {
  }

  lemma QueueStep(s: State, a: Action)
    requires Exclusive(s) && Started(s) && OneAtATime(s) && InFlight(s) && Closing(s) && Orderly(s, a)
    ensures QueueInFlight(Step(s, a))
  {
  }

  lemma HandStep(s: State, a: Action)
    requires Exclusive(s) && Started(s) && OneAtATime(s) && InFlight(s) && Orderly(s, a)
    ensures HandInFlight(Step(s, a))
  {
  }

  lemma InFlightStep(s: State, a: Action)
    requires Exclusive(s) && Started(s) && OneAtATime(s) && InFlight(s) && Closing(s) && Orderly(s, a)
    ensures InFlight(Step(s, a))
  {
    QueueStep(s, a);
    HandStep(s, a);
  }

  /** A call that arrives when all others have ended is not exposed. */
  lemma ArrivalSafe(s: State, a: Action)
    requires Safe(s) && InFlight(s) && Orderly(s, a) && Arrival(a)
    ensures Safe(Step(s, a))
  {
    InvStep(s, a);
    PostersStep(s, a);
    EarlyStep(s, a);
    var s' := Step(s, a);
    assert !Underway(s);
    forall id ensures !Exposed(s', id) {
      if id in s.threads {
        assert s'.threads[id] == s.threads[id];
      } else if id in s'.threads {
        assert forall j :: j in s'.threads && j != id ==> j in s.threads && s'.threads[j] == s.threads[j];
      }
    }
  }

  lemma StopStays(s: State, a: Action)
    requires SomeStop(s)
    ensures SomeStop(Step(s, a))
  {
    var s' := Step(s, a);
    var id :| id in s.threads && StopLike(s.threads[id].code);
    assert id in s'.threads && s'.threads[id].code == s.threads[id].code;
  }

  lemma NewStop(s: State, a: Action)
    requires SomeStop(s) ==> s.service.Called?
    requires Orderly(s, a)
    ensures SomeStop(Step(s, a)) ==> Step(s, a).service.Called?
  {
    var s' := Step(s, a);
    if !SomeStop(s) && !Arrival(a) {
      assert forall id :: id in s'.threads ==> id in s.threads && s'.threads[id].code == s.threads[id].code;
    }
  }

  lemma QuitAfterStop(s: State, a: Action)
    requires InFlight(s) && (s.quit ==> SomeStop(s))
    ensures Step(s, a).quit ==> SomeStop(s)
  {
    if Step(s, a).quit && !s.quit {
      assert StopLike(s.threads[s.main.e.poster].code);
    }
  }

  lemma NoneToPostStep(s: State, a: Action)
    requires OneAtATime(s) && InFlight(s) && Orderly(s, a)
    requires s.quit ==> SomeStop(s) && s.queue == [] && NoneToPost(s)
    requires SomeStop(s) ==> s.service.Called?
    ensures Step(s, a).quit ==> NoneToPost(Step(s, a))
  {
    var s' := Step(s, a);
    if s'.quit {
      forall id ensures !At(s', id, Arrived) && !At(s', id, Holding) {
        if id in s'.threads && id in s.threads {
          assert s.quit || OwnEvent(s, s.main.e);
          assert !At(s, id, Arrived);
        }
      }
    }
  }

  lemma ClosingStep(s: State, a: Action)
    requires Started(s) && OneAtATime(s) && InFlight(s) && Closing(s) && Orderly(s, a)
    ensures Closing(Step(s, a))
  {
    NewStop(s, a);
    QuitAfterStop(s, a);
    if SomeStop(s) {
      StopStays(s, a);
    }
    NoneToPostStep(s, a);
  }

  lemma OrderStep(s: State, a: Action)
    requires OrderInv(s) && Orderly(s, a)
    ensures OrderInv(Step(s, a))
  {
    if Arrival(a) {
      ArrivalSafe(s, a);
    } else {
      SafeStep(s, a);
    }
    OneStep(s, a);
    InFlightStep(s, a);
    ClosingStep(s, a);
  }

  lemma {:induction false} OrderRun(s: State, actions: seq<Action>)
    requires OrderInv(s) && OrderlyRun(s, actions)
    ensures OrderInv(Run(s, actions))
    decreases |actions|
  {
    if actions != [] {
      OrderStep(s, actions[0]);
      OrderRun(Step(s, actions[0]), actions[1..]);
    }
  }

  /** In every orderly run: RUNNING and PAUSED are set only by calls whose `start`, `resume` or `pause`
      has returned, every event is posted to a live receiver, and the main thread never leaves a call
      waiting behind. */
  lemma ServiceOrdering(actions: seq<Action>)
    requires OrderlyRun(START, actions)
    ensures var s := Run(START, actions);
            && (forall i :: 0 <= i < |s.settled| ==> s.settled[i] in s.returned)
            && (forall i :: 0 <= i < |s.posts| ==> s.posts[i] == Present)
            && (s.main.Exited? ==> forall id :: !At(s, id, Waiting))
            && (forall id :: !Exposed(s, id))
  {
    OrderRun(START, actions);
  }

  // ---------------------------------------------------------------- the reported status

  lemma {:induction false} RunMore(s: State, actions: seq<Action>, a: Action)
    ensures Run(s, actions + [a]) == Step(Run(s, actions), a)
    decreases |actions|
  {
    if actions == [] {
      assert actions + [a] == [a] && Run(Step(s, a), [a][1..]) == Step(s, a);
    } else {
      assert (actions + [a])[1..] == actions[1..] + [a];
      RunMore(Step(s, actions[0]), actions[1..], a);
    }
  }

  lemma {:induction false} RunAll(s: State, a: seq<Action>, b: seq<Action>)
    ensures Run(s, a + b) == Run(Run(s, a), b)
    decreases |b|
  {
    if b == [] {
      assert a + b == a;
    } else {
      var n := |b| - 1;
      RunAll(s, a, b[..n]);
      RunMore(s, a + b[..n], b[n]);
      RunMore(Run(s, a), b[..n], b[n]);
      assert a + b == a + b[..n] + [b[n]] && b == b[..n] + [b[n]];
    }
  }

  /** No call posts or ends, and the main thread does not leave. */
  ghost predicate Quiet(actions: seq<Action>) {
    forall a :: a in actions ==> !a.Post? && !a.Finish? && !a.MainExit?
  }

  lemma {:induction false} QuietKeeps(s: State, actions: seq<Action>)
    requires Quiet(actions)
    ensures Run(s, actions).status == s.status
    decreases |actions|
  {
    if actions != [] {
      assert !actions[0].Post? && !actions[0].Finish? && !actions[0].MainExit?;
      QuietKeeps(Step(s, actions[0]), actions[1..]);
    }
  }

  /** In every run: what a call reports when it ends is still reported as long as nobody posts or ends and the
      main thread does not leave: PAUSED after a pause, RUNNING after start-up and continue. */
  lemma FinishReports(actions: seq<Action>, id: nat, quiet: seq<Action>)
    requires At(Run(START, actions), id, Resumed) && Quiet(quiet)
    ensures var code := Run(START, actions).threads[id].code;
            var s := Run(START, actions + [Finish(id)] + quiet);
            && (code.Pause? ==> s.status == Paused)
            && (code.Startup? || code.Continue? ==> s.status == IsRunning)
            && (code.Stop? || code.Shutdown? || code.User? ==> s.status == Run(START, actions).status)
  {
    RunMore(START, actions, Finish(id));
    RunAll(START, actions + [Finish(id)], quiet);
    QuietKeeps(Run(START, actions + [Finish(id)]), quiet);
  }

  /** In every run: what a call reports when it posts, in the same way. A shutdown and the user's own codes
      report nothing of their own. */
  lemma PostReports(actions: seq<Action>, id: nat, quiet: seq<Action>)
    requires At(Run(START, actions), id, Holding) && Quiet(quiet)
    ensures var code := Run(START, actions).threads[id].code;
            var s := Run(START, actions + [Post(id)] + quiet);
            && (code.Startup? ==> s.status == StartPending) && (code.Stop? ==> s.status == StopPending)
            && (code.Pause? ==> s.status == PausePending) && (code.Continue? ==> s.status == ContinuePending)
            && (code.Shutdown? || code.User? || code.Interrogate? || code.Other? ==>
                s.status == Run(START, actions).status)
  {
    RunMore(START, actions, Post(id));
    RunAll(START, actions + [Post(id)], quiet);
    QuietKeeps(Run(START, actions + [Post(id)]), quiet);
  }

  predicate InProgress(s: State, id: nat) {
    At(s, id, Posted) || At(s, id, Waiting) || At(s, id, Woken) || At(s, id, Resumed)
  }

  /** A stop has been posted. */
  ghost predicate Stopping(s: State) {
    exists id :: HasPosted(s, id) && s.threads[id].code.Stop?
  }

  /** The calls on record are those that have ended with a report. */
  ghost predicate OnRecord(s: State) {
    forall i :: 0 <= i < |s.settled| ==>
                  At(s, s.settled[i], Finished) && s.threads[s.settled[i]].code in [Startup, Pause, Continue]
  }

  /** Between calls: stopping once a stop has been posted, else what the last call on record says. */
  ghost predicate RestReported(s: State)
    requires OnRecord(s)
  {
    if Stopping(s) then s.status == StopPending
    else if s.settled == [] then s.status == Stopped
    else
      var last := s.threads[s.settled[|s.settled| - 1]].code;
      s.status == if last == Pause then Paused else IsRunning
  }

  /** While a call is in progress: what it reported when it posted. */
  ghost predicate CallReported(s: State, id: nat)
    requires id in s.threads
  {
    match s.threads[id].code
    case Startup => s.status == StartPending
    case Stop => s.status == StopPending
    case Pause => s.status == PausePending
    case Continue => s.status == ContinuePending
    case _ => OnRecord(s) && RestReported(s)
  }

  ghost predicate Idle(s: State) {
    forall id :: !InProgress(s, id)
  }

  ghost predicate Reported(s: State) {
    && OnRecord(s)
    && (!s.main.Exited? ==> forall id :: InProgress(s, id) ==> CallReported(s, id))
    && (!s.main.Exited? && Idle(s) ==> RestReported(s))
  }

  /** Once a stop or shutdown has arrived, no other call is unfinished. */
  ghost predicate OnlyStops(s: State) {
    SomeStop(s) ==> forall id :: id in s.threads && s.threads[id].pc != Finished ==> StopLike(s.threads[id].code)
  }

  ghost predicate StoppedAtExit(s: State) {
    s.main.Exited? ==> s.status == Stopped
  }

  lemma OnlyStopsStep(s: State, a: Action)
    requires OnlyStops(s) && Closing(s) && Orderly(s, a)
    ensures OnlyStops(Step(s, a))
  {
    var s' := Step(s, a);
    if SomeStop(s') && !SomeStop(s) && !Arrival(a) {
      assert forall id :: id in s'.threads ==> id in s.threads && s'.threads[id].code == s.threads[id].code;
    }
  }

  lemma OnRecordStep(s: State, a: Action)
    requires OnRecord(s)
    ensures OnRecord(Step(s, a))
  {
  }

  /** Nothing has been posted, and nobody has ended. */
  ghost predicate SameCalls(s: State, s': State) {
    && s'.status == s.status && s'.settled == s.settled
    && forall id :: (HasPosted(s, id) <==> HasPosted(s', id)) && (InProgress(s, id) <==> InProgress(s', id))
                    && (HasPosted(s, id) ==> s.threads[id].code == s'.threads[id].code)
  }

  lemma SameReport(s: State, s': State)
    requires SameCalls(s, s') && OnRecord(s) && OnRecord(s')
    ensures RestReported(s) <==> RestReported(s')
    ensures forall id :: InProgress(s, id) ==> (CallReported(s, id) <==> CallReported(s', id))
    ensures Idle(s) <==> Idle(s')
  {
    assert Stopping(s) <==> Stopping(s');
    if s.settled != [] {
      var last := s.settled[|s.settled| - 1];
      assert At(s, last, Finished) && HasPosted(s, last);
    }
  }

  lemma OtherStep(s: State, a: Action)
    requires !a.Post? && !a.Finish? && !a.MainExit? && !a.MainGiveUp?
    ensures SameCalls(s, Step(s, a)) && Step(s, a).main.Exited? == s.main.Exited?
  {
    forall id
      ensures HasPosted(s, id) <==> HasPosted(Step(s, a), id)
      ensures InProgress(s, id) <==> InProgress(Step(s, a), id)
      ensures HasPosted(s, id) ==> s.threads[id].code == Step(s, a).threads[id].code
    {
      OtherCall(s, a, id);
    }
  }

  lemma OtherCall(s: State, a: Action, id: nat)
    requires !a.Post? && !a.Finish? && !a.MainExit? && !a.MainGiveUp?
    ensures HasPosted(s, id) <==> HasPosted(Step(s, a), id)
    ensures InProgress(s, id) <==> InProgress(Step(s, a), id)
    ensures HasPosted(s, id) ==> s.threads[id].code == Step(s, a).threads[id].code
  {
  }

  /** Before a call posts, all others have ended. */
  lemma PostAlone(s: State, id: nat)
    requires OneAtATime(s) && At(s, id, Holding)
    ensures Idle(s)
  {
  }

  /** Only the call `id` has moved, and not back before its post. */
  ghost predicate OnlyMoved(s: State, s': State, id: nat) {
    && id in s.threads && HasPosted(s', id) && s'.threads[id].code == s.threads[id].code
    && forall j :: j != id ==> (j in s.threads <==> j in s'.threads)
                               && (j in s.threads ==> s'.threads[j] == s.threads[j])
  }

  lemma StoppingMoved(s: State, s': State, id: nat)
    requires OnlyMoved(s, s', id)
    ensures s.threads[id].code.Stop? ==> Stopping(s')
    ensures !s.threads[id].code.Stop? ==> (Stopping(s) <==> Stopping(s'))
  {
    assert forall j :: j != id ==> (HasPosted(s, j) <==> HasPosted(s', j));
  }

  lemma RestMoved(s: State, s': State, id: nat)
    requires OnlyMoved(s, s', id) && OnRecord(s) && OnRecord(s') && RestReported(s)
    requires s'.status == s.status && s'.settled == s.settled && !s.threads[id].code.Stop?
    ensures RestReported(s')
  {
    StoppingMoved(s, s', id);
    if s.settled != [] {
      assert s'.threads[s.settled[|s.settled| - 1]].code == s.threads[s.settled[|s.settled| - 1]].code;
    }
  }

  lemma PostMoves(s: State, id: nat)
    requires OneAtATime(s) && At(s, id, Holding)
    ensures OnlyMoved(s, Next(s, Post(id)), id) && InProgress(Next(s, Post(id)), id)
    ensures Next(s, Post(id)).settled == s.settled
    ensures forall j :: InProgress(Next(s, Post(id)), j) ==> j == id
  {
  }

  lemma PostedReport(s: State, id: nat)
    requires OneAtATime(s) && OnRecord(s) && At(s, id, Holding) && RestReported(s)
    ensures OnRecord(Next(s, Post(id))) && CallReported(Next(s, Post(id)), id)
  {
    var s' := Next(s, Post(id));
    OnRecordStep(s, Post(id));
    PostMoves(s, id);
    if s.threads[id].code !in [Startup, Stop, Pause, Continue] {
      RestMoved(s, s', id);
    }
  }

  lemma FinishMoves(s: State, id: nat)
    requires OneAtATime(s) && At(s, id, Resumed)
    ensures OnlyMoved(s, Next(s, Finish(id)), id) && Idle(Next(s, Finish(id)))
  {
  }

  lemma FinishedReport(s: State, id: nat)
    requires OneAtATime(s) && OnRecord(s) && At(s, id, Resumed) && CallReported(s, id) && OnlyStops(s)
    ensures OnRecord(Next(s, Finish(id))) && RestReported(Next(s, Finish(id)))
  {
    var s' := Next(s, Finish(id));
    OnRecordStep(s, Finish(id));
    FinishMoves(s, id);
    StoppingMoved(s, s', id);
    if s.threads[id].code in [Startup, Pause, Continue] {
      assert !Stopping(s);
    } else if !s.threads[id].code.Stop? {
      RestMoved(s, s', id);
    }
  }

  lemma ReportedStep(s: State, a: Action)
    requires OnlyStops(s) && OneAtATime(s) && Reported(s)
    ensures Reported(Step(s, a))
  {
    OnRecordStep(s, a);
    var s' := Step(s, a);
    if !Enabled(s, a) || a.MainExit? || a.MainGiveUp? {
    } else if a.Post? {
      if !s.main.Exited? {
        PostAlone(s, a.id);
        PostedReport(s, a.id);
        PostMoves(s, a.id);
      }
    } else if a.Finish? {
      if !s.main.Exited? {
        assert InProgress(s, a.id);
        FinishedReport(s, a.id);
        FinishMoves(s, a.id);
      }
    } else {
      OtherStep(s, a);
      SameReport(s, s');
    }
  }

  lemma StoppedAtExitStep(s: State, a: Action)
    requires StoppedAtExit(s) && OnlyStops(s) && Closing(s) && Started(s) && Reported(s)
    ensures StoppedAtExit(Step(s, a))
  {
  }

  lemma {:induction false} ReportedRun(s: State, actions: seq<Action>)
    requires OrderInv(s) && OrderlyRun(s, actions) && OnlyStops(s) && Reported(s) && StoppedAtExit(s)
    ensures Reported(Run(s, actions)) && StoppedAtExit(Run(s, actions))
    decreases |actions|
  {
    if actions != [] {
      var a := actions[0];
      OrderStep(s, a);
      OnlyStopsStep(s, a);
      ReportedStep(s, a);
      StoppedAtExitStep(s, a);
      ReportedRun(Step(s, a), actions[1..]);
    }
  }

  /** In every orderly run, as long as the main thread has not left: while a call is in progress its pending
      status is reported, and between calls the status follows the last call on record, PAUSED after a
      pause and RUNNING after start-up and continue, unless a stop has been posted. Once the main thread has
      left, STOPPED is reported. */
  lemma StatusFollowsCalls(actions: seq<Action>)
    requires OrderlyRun(START, actions)
    ensures var s := Run(START, actions);
            && OnRecord(s)
            && (s.main.Exited? ==> s.status == Stopped)
            && (!s.main.Exited? ==> forall id :: InProgress(s, id) ==> CallReported(s, id))
            && (!s.main.Exited? && Idle(s) ==> RestReported(s))
  {
    ReportedRun(START, actions);
  }

  /** The event of a stop or shutdown is a stop; any other call that posts an event posts its own code. */
  ghost predicate EventOf(s: State, e: Event) {
    && e.poster in s.threads
    && var code := s.threads[e.poster].code;
       e.code == (if code == Stop || code == Shutdown then Stop else code) && code != Interrogate && code != Other
  }

  ghost predicate EventCodes(s: State) {
    && (forall i :: 0 <= i < |s.queue| ==> EventOf(s, s.queue[i]))
    && (s.main.Running? ==> EventOf(s, s.main.e))
  }

  /** Only calls that post wait. */
  ghost predicate WaitCodes(s: State) {
    forall id :: At(s, id, Posted) || At(s, id, Waiting) || At(s, id, Woken) ==>
                   s.threads[id].code != Interrogate && s.threads[id].code != Other
  }

  ghost predicate OwnCodes(s: State) {
    EventCodes(s) && WaitCodes(s)
  }

  /** A call keeps its code. */
  ghost predicate CodesKept(s: State, s': State) {
    forall id :: id in s.threads ==> id in s'.threads && s'.threads[id].code == s.threads[id].code
  }

  lemma KeepsCodes(s: State, a: Action)
    ensures CodesKept(s, Step(s, a))
  {
  }

  lemma WaitCodesStep(s: State, a: Action)
    requires WaitCodes(s)
    ensures WaitCodes(Step(s, a))
  {
  }

  lemma EventCodesStep(s: State, a: Action)
    requires EventCodes(s)
    ensures EventCodes(Step(s, a))
  {
    var s' := Step(s, a);
    KeepsCodes(s, a);
    if Enabled(s, a) && a.Post? && Posts(s.threads[a.id].code) {
      assert EventOf(s', s'.queue[|s.queue|]);
      assert forall i :: 0 <= i < |s.queue| ==> s'.queue[i] == s.queue[i];
    }
  }

  lemma OwnCodesStep(s: State, a: Action)
    requires OwnCodes(s)
    ensures OwnCodes(Step(s, a))
  {
    WaitCodesStep(s, a);
    EventCodesStep(s, a);
  }

  ghost predicate StopReturned(s: State) {
    exists id :: id in s.returned && id in s.threads && s.threads[id].code in [Stop, Shutdown]
  }

  ghost predicate QuitsOnStop(s: State) {
    && (s.quit <==> StopReturned(s))
    && (forall id :: id in s.returned ==> id in s.threads)
  }

  lemma SameReturned(s: State, s': State)
    requires QuitsOnStop(s) && CodesKept(s, s') && s'.returned == s.returned && s'.quit == s.quit
    ensures QuitsOnStop(s')
  {
  }

  lemma QuitsOnStopStep(s: State, a: Action)
    requires EventCodes(s) && QuitsOnStop(s)
    ensures QuitsOnStop(Step(s, a))
  {
    KeepsCodes(s, a);
    if Enabled(s, a) && a.MainCall? {
      ReturnedOne(s, Next(s, a), s.main.e);
    } else {
      SameReturned(s, Step(s, a));
    }
  }

  lemma ReturnedOne(s: State, s': State, e: Event)
    requires QuitsOnStop(s) && EventOf(s, e) && s'.threads == s.threads
    requires s'.returned == s.returned + {e.poster} && s'.quit == (s.quit || e.code.Stop?)
    ensures QuitsOnStop(s')
  {
    if s'.quit && !s.quit {
      assert e.poster in s'.returned;
    }
  }

  lemma {:induction false} OwnCodesRun(s: State, actions: seq<Action>)
    requires OwnCodes(s) && QuitsOnStop(s)
    ensures OwnCodes(Run(s, actions)) && QuitsOnStop(Run(s, actions))
    decreases |actions|
  {
    if actions != [] {
      OwnCodesStep(s, actions[0]);
      QuitsOnStopStep(s, actions[0]);
      OwnCodesRun(Step(s, actions[0]), actions[1..]);
    }
  }

  /** In every run: the main loop is told to quit if and only if the service function of a stop or shutdown
      has returned, and calls of the other codes that have none of their own never wait. */
  lemma QuitIff(actions: seq<Action>)
    ensures Run(START, actions).quit <==> StopReturned(Run(START, actions))
    ensures forall id :: At(Run(START, actions), id, Waiting) ==>
                           Run(START, actions).threads[id].code !in [Interrogate, Other]
  {
    OwnCodesRun(START, actions);
  }

  /** Every call that has been woken or has ended, unless it had nothing to post, has been served. */
  ghost predicate Served(s: State) {
    forall id :: PastWaiting(s, id) && s.threads[id].code !in [Interrogate, Other] ==> id in s.returned
  }

  lemma ServedStep(s: State, a: Action)
    requires OneAtATime(s) && InFlight(s) && Served(s)
    ensures Served(Step(s, a))
  {
    var s' := Step(s, a);
    forall id | PastWaiting(s', id) && s'.threads[id].code !in [Interrogate, Other] ensures id in s'.returned {
      ServedCall(s, a, id);
    }
  }

  lemma ServedCall(s: State, a: Action, id: nat)
    requires OneAtATime(s) && InFlight(s) && Served(s)
    requires PastWaiting(Step(s, a), id) && Step(s, a).threads[id].code !in [Interrogate, Other]
    ensures id in Step(s, a).returned
  {
    if !PastWaiting(s, id) {
      assert a.MainWake?;
    }
  }

  lemma {:induction false} ServedRun(s: State, actions: seq<Action>)
    requires OrderInv(s) && OrderlyRun(s, actions) && Served(s)
    ensures Served(Run(s, actions))
    decreases |actions|
  {
    if actions != [] {
      OrderStep(s, actions[0]);
      ServedStep(s, actions[0]);
      ServedRun(Step(s, actions[0]), actions[1..]);
    }
  }

  /** In every orderly run a call of whatever code, but for the two that post nothing, ends only after its
      service function has returned. */
  lemma CallsServed(actions: seq<Action>, id: nat)
    requires OrderlyRun(START, actions) && At(Run(START, actions), id, Finished)
    ensures Run(START, actions).threads[id].code !in [Interrogate, Other] ==> id in Run(START, actions).returned
  {
    ServedRun(START, actions);
  }

  // ---------------------------------------------------------------- two controls at a time

  lemma Run4(s: State, a: Action, b: Action, c: Action, d: Action)
    ensures Run(s, [a, b, c, d]) == Step(Step(Step(Step(s, a), b), c), d)
  {
    assert [a, b, c, d] == [] + [a] + [b] + [c] + [d];
    RunMore(s, [], a);
    RunMore(s, [] + [a], b);
    RunMore(s, [] + [a] + [b], c);
    RunMore(s, [] + [a] + [b] + [c], d);
  }

  // A run, cut where the interesting things have happened: the loop runs; start-up has been posted; a
  // pause has been posted; both calls wait and start-up has been called; everyone is woken.

  const LOOP_RUNS: State := State(map[], [], Polling, AwaitApp, Free, 0, 1, Present, false, Stopped, {}, [], [])

  const STARTUP_POSTED: State :=
    State(map[0 := Thread(Startup, Posted)], [Event(0, Startup)], Polling, Called, By(0), 0, 0, Present, false,
          StartPending, {}, [], [Present])

  const PAUSE_POSTED: State :=
    State(map[0 := Thread(Startup, Waiting), 1 := Thread(Pause, Posted)], [Event(0, Startup), Event(1, Pause)],
          Polling, Called, By(1), 0, 0, Present, false, PausePending, {}, [], [Present, Present])

  const START_CALLED: State :=
    State(map[0 := Thread(Startup, Waiting), 1 := Thread(Pause, Waiting)], [Event(1, Pause)],
          Waking(Event(0, Startup)), Called, ByMain, 0, 0, Present, false, PausePending, {0}, [], [Present, Present])

  lemma ToLoop() returns (actions: seq<Action>)
    ensures Run(START, actions) == LOOP_RUNS
  {
    actions := [ServiceMainStarts, MainAcquire, MainCreate, MainRelease];
    Run4(START, ServiceMainStarts, MainAcquire, MainCreate, MainRelease);
  }

  lemma ToStartupPosted() returns (actions: seq<Action>)
    ensures Run(LOOP_RUNS, actions) == STARTUP_POSTED
  {
    actions := [ServiceMainRegisters, StartupCall(0), Lock(0), Post(0)];
    Run4(LOOP_RUNS, ServiceMainRegisters, StartupCall(0), Lock(0), Post(0));
  }

  lemma ToPausePosted() returns (actions: seq<Action>)
    ensures Run(STARTUP_POSTED, actions) == PAUSE_POSTED
  {
    actions := [Wait(0), Control(1, Pause), Lock(1), Post(1)];
    Run4(STARTUP_POSTED, Wait(0), Control(1, Pause), Lock(1), Post(1));
  }

  lemma ToStartCalled() returns (actions: seq<Action>)
    ensures Run(PAUSE_POSTED, actions) == START_CALLED
  {
    actions := [Wait(1), MainTake, MainCall, MainLock];
    Run4(PAUSE_POSTED, Wait(1), MainTake, MainCall, MainLock);
  }

  const ALL_WOKEN: State :=
    START_CALLED.(threads := map[0 := Thread(Startup, Woken), 1 := Thread(Pause, Woken)],
                  main := Polling, mutex := Free)

  lemma WakeStep()
    ensures Step(Step(START_CALLED, MainWake), MainUnlock) == ALL_WOKEN
  {
    assert AllWoken(START_CALLED.threads) == ALL_WOKEN.threads;
  }

  lemma SettleStep()
    ensures var s := Step(Step(ALL_WOKEN, Reacquire(1)), Finish(1)); s.settled == [1] && s.returned == {0}
  {
    assert Step(ALL_WOKEN, Reacquire(1)).threads[1] == Thread(Pause, Resumed);
  }

  lemma ToSettled() returns (actions: seq<Action>)
    ensures Run(START_CALLED, actions).settled == [1] && Run(START_CALLED, actions).returned == {0}
  {
    actions := [MainWake, MainUnlock, Reacquire(1), Finish(1)];
    Run4(START_CALLED, MainWake, MainUnlock, Reacquire(1), Finish(1));
    WakeStep();
    SettleStep();
  }

  const STOP_POSTED: State :=
    State(map[0 := Thread(Stop, Posted)], [Event(0, Stop)], Polling, Registered, By(0), 0, 0, Present, false,
          StopPending, {}, [], [Present])

  const STOP_CALLED: State :=
    State(map[0 := Thread(Stop, Waiting)], [], Waking(Event(0, Stop)), Registered, ByMain, 0, 0, Present, true,
          StopPending, {0}, [], [Present])

  const STOP_WOKEN: State :=
    State(map[0 := Thread(Stop, Woken)], [], Polling, Registered, Free, 0, 0, Present, true,
          StopPending, {0}, [], [Present])

  const LATE_WAITS: State :=
    State(map[0 := Thread(Stop, Woken), 1 := Thread(Pause, Waiting)], [Event(1, Pause)], Polling, Registered, Free,
          0, 0, Present, true, PausePending, {0}, [], [Present, Present])

  lemma ToStopPosted() returns (actions: seq<Action>)
    ensures Run(LOOP_RUNS, actions) == STOP_POSTED
  {
    actions := [ServiceMainRegisters, Control(0, Stop), Lock(0), Post(0)];
    Run4(LOOP_RUNS, ServiceMainRegisters, Control(0, Stop), Lock(0), Post(0));
  }

  lemma ToStopCalled() returns (actions: seq<Action>)
    ensures Run(STOP_POSTED, actions) == STOP_CALLED
  {
    actions := [Wait(0), MainTake, MainCall, MainLock];
    Run4(STOP_POSTED, Wait(0), MainTake, MainCall, MainLock);
  }

  lemma StopWakes()
    ensures Step(Step(STOP_CALLED, MainWake), MainUnlock) == STOP_WOKEN
  {
    assert AllWoken(STOP_CALLED.threads) == STOP_WOKEN.threads;
  }

  lemma LateWaits()
    ensures Step(Step(Step(Step(STOP_WOKEN, Control(1, Pause)), Lock(1)), Post(1)), Wait(1)) == LATE_WAITS
  {
    var s := Step(Step(STOP_WOKEN, Control(1, Pause)), Lock(1));
    LateHolds(s);
    assert Step(s, Post(1)).threads == map[0 := Thread(Stop, Woken), 1 := Thread(Pause, Posted)];
  }

  lemma LateHolds(s: State)
    requires s == Step(Step(STOP_WOKEN, Control(1, Pause)), Lock(1))
    ensures s == STOP_WOKEN.(threads := map[0 := Thread(Stop, Woken), 1 := Thread(Pause, Holding)], mutex := By(1))
  {
  }

  lemma ToStopWoken() returns (actions: seq<Action>)
    ensures Run(STOP_CALLED, actions) == STOP_WOKEN
  {
    actions := [MainWake, MainUnlock];
    StopWakes();
    assert [MainWake, MainUnlock] == [] + [MainWake] + [MainUnlock];
    RunMore(STOP_CALLED, [], MainWake);
    RunMore(STOP_CALLED, [] + [MainWake], MainUnlock);
  }

  lemma ToLateWaits() returns (actions: seq<Action>)
    ensures Run(STOP_WOKEN, actions) == LATE_WAITS
  {
    actions := [Control(1, Pause), Lock(1), Post(1), Wait(1)];
    Run4(STOP_WOKEN, Control(1, Pause), Lock(1), Post(1), Wait(1));
    LateWaits();
  }

  /** A call can be stranded: a stop is carried out and woken, a pause posts and waits, and then the main
      thread leaves its loop. */
  lemma StrandedReached() returns (actions: seq<Action>)
    ensures Run(START, actions).main.Exited? && At(Run(START, actions), 1, Waiting)
  {
    var boot := ToLoop();
    var first := ToStopPosted();
    var called := ToStopCalled();
    var woken := ToStopWoken();
    var late := ToLateWaits();
    InFive([START, LOOP_RUNS, STOP_POSTED, STOP_CALLED, STOP_WOKEN, LATE_WAITS], [boot, first, called, woken, late]);
    var all := boot + first + called + woken + late;
    RunMore(START, all, MainExit);
    assert Enabled(LATE_WAITS, MainExit);
    actions := all + [MainExit];
  }

  lemma InFive(s: seq<State>, a: seq<seq<Action>>)
    requires |s| == 6 && |a| == 5
    requires forall i :: 0 <= i < 5 ==> Run(s[i], a[i]) == s[i + 1]
    ensures Run(s[0], a[0] + a[1] + a[2] + a[3] + a[4]) == s[5]
  {
    RunAll(s[0], a[0], a[1]);
    RunAll(s[0], a[0] + a[1], a[2]);
    RunAll(s[0], a[0] + a[1] + a[2], a[3]);
    RunAll(s[0], a[0] + a[1] + a[2] + a[3], a[4]);
    assert Run(s[0], a[0]) == s[1] && Run(s[1], a[1]) == s[2] && Run(s[2], a[2]) == s[3];
    assert Run(s[3], a[3]) == s[4] && Run(s[4], a[4]) == s[5];
  }

  /** A pause arriving while the start-up call still waits is woken by the start-up's `wakeAll`: PAUSED
      is then set although `pause` has not returned. So the ordering does need one call at a time. */
  lemma ConcurrentControlSettlesEarly()
    ensures exists actions :: SettlesEarly(Run(START, actions))
  {
    var boot := ToLoop();
    var first := ToStartupPosted();
    var second := ToPausePosted();
    var wake := ToStartCalled();
    var settle := ToSettled();
    var last := Run(START_CALLED, settle);
    InFive([START, LOOP_RUNS, STARTUP_POSTED, PAUSE_POSTED, START_CALLED, last], [boot, first, second, wake, settle]);
    assert last.settled[0] !in last.returned;
    assert SettlesEarly(Run(START, boot + first + second + wake + settle));
  }
}

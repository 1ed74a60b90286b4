/** mq_notify_via_thread.c: the main program and every notification thread first renew the
    one-shot registration and then drain the queue. All threads, the senders and other
    receivers interleave freely. */
module MqNotifyThread {

  type Msg = nat

  /** Where a thread is: before its mq_notify call, or in the loop of drainQueue. A thread that
      has found the queue empty is gone (the main one pauses for good). */
  datatype Pc = Registering | Draining

  /** `registered` is the kernel's notification registration; `failed` records an mq_notify
      call that found the registration in place. The last three fields are the history. */
  datatype State = State(queue: multiset<Msg>, registered: bool, threads: map<nat, Pc>, failed: bool,
                         sent: multiset<Msg>, got: multiset<Msg>, stolen: multiset<Msg>)

  datatype Step =
    | Send(m: Msg, tid: nat)    // tid: the thread that the kernel starts if it notifies
    | Steal(m: Msg)             // another process receives a message
    | HandOver(m: Msg)          // a message goes straight to another, blocked receiver
    | Register(t: nat)          // mq_notify in notifySetup
    | Receive(t: nat, m: Msg)   // mq_receive in drainQueue
    | Finish(t: nat)            // mq_receive fails with EAGAIN

  /** The queue may already hold messages; the main thread, 0, is about to register. */
  function Init(queued: multiset<Msg>): State {
    State(queued, false, map[0 := Registering], false, queued, multiset{}, multiset{})
  }

  predicate Notifies(s: State) {
    s.queue == multiset{} && s.registered
  }

  predicate Enabled(s: State, a: Step) {
    match a
    case Send(_, tid) => tid !in s.threads
    case Steal(m) => m in s.queue
    case HandOver(_) => s.queue == multiset{}
    case Register(t) => t in s.threads && s.threads[t] == Registering
    case Receive(t, m) => t in s.threads && s.threads[t] == Draining && m in s.queue
    case Finish(t) => t in s.threads && s.threads[t] == Draining && s.queue == multiset{}
  }

  function Next(s: State, a: Step): State
    requires Enabled(s, a)
  {
    match a
    case Send(m, tid) =>
      var s' := s.(queue := s.queue + multiset{m}, sent := s.sent + multiset{m});
      if Notifies(s) then s'.(registered := false, threads := s.threads[tid := Registering]) else s'
    case Steal(m) => s.(queue := s.queue - multiset{m}, stolen := s.stolen + multiset{m})
    case HandOver(m) => s.(sent := s.sent + multiset{m}, stolen := s.stolen + multiset{m})
    case Register(t) =>
      if s.registered then s.(failed := true)
      else s.(registered := true, threads := s.threads[t := Draining])
    case Receive(t, m) => s.(queue := s.queue - multiset{m}, got := s.got + multiset{m})
    case Finish(t) => s.(threads := s.threads - {t})
  }

  ghost predicate IsRun(s: State, steps: seq<Step>)
    decreases |steps|
  {
    steps == [] || (Enabled(s, steps[0]) && IsRun(Next(s, steps[0]), steps[1..]))
  }

  ghost function After(s: State, steps: seq<Step>): State
    requires IsRun(s, steps)
    decreases |steps|
  {
    if steps == [] then s else After(Next(s, steps[0]), steps[1..])
  }

  function Registrants(s: State): set<nat> {
    set t | t in s.threads && s.threads[t] == Registering
  }

  /** The one registration token: held by the kernel, or by the one thread that is yet to
      register. */
  ghost predicate OneToken(s: State) {
    if s.registered then Registrants(s) == {} else exists t :: Registrants(s) == {t}
  }

  ghost predicate Inv(s: State) {
    && !s.failed && OneToken(s)
    && (s.queue != multiset{} && s.registered ==> exists t :: t in s.threads && s.threads[t] == Draining)
    && s.sent == s.got + s.stolen + s.queue
  }

  lemma InitInv(queued: multiset<Msg>)
    ensures Inv(Init(queued))
  {
    assert Registrants(Init(queued)) == {0};
  }

  /** A thread that is about to register holds the token and hands it to the kernel. */
  lemma RegisterToken(s: State, t: nat)
    requires OneToken(s) && Enabled(s, Register(t))
    ensures !s.registered && Registrants(s) == {t}
    ensures Registrants(Next(s, Register(t))) == {} && Next(s, Register(t)).threads[t] == Draining
  {
    assert t in Registrants(s);
    var u :| Registrants(s) == {u};
    assert u == t;
    assert forall v :: v in Registrants(Next(s, Register(t))) ==> v in Registrants(s) && v != t;
  }

  lemma NextInv(s: State, a: Step)
    requires Inv(s) && Enabled(s, a)
    ensures Inv(Next(s, a))
  {
    var s' := Next(s, a);
    match a
    case Send(m, tid) =>
      if Notifies(s) {
        assert Registrants(s') == {tid};
      } else {
        assert Registrants(s') == Registrants(s);
      }
    case Steal(m) => assert Registrants(s') == Registrants(s);
    case HandOver(m) => assert Registrants(s') == Registrants(s);
    case Register(t) =>
      RegisterToken(s, t);
    case Receive(t, m) => assert Registrants(s') == Registrants(s) && t in s'.threads;
    case Finish(t) => assert Registrants(s') == Registrants(s);
  }

  lemma {:induction false} RunInv(s: State, steps: seq<Step>)
    requires Inv(s) && IsRun(s, steps)
    ensures Inv(After(s, steps))
    decreases |steps|
  {
    if steps != [] {
      NextInv(s, steps[0]);
      RunInv(Next(s, steps[0]), steps[1..]);
    }
  }

  /** In every run, whatever was queued at the start: mq_notify never meets a registration,
      there is exactly one token, no message is lost, and as long as a message is queued some
      thread is draining or about to register and drain. */
  lemma NothingLost(queued: multiset<Msg>, steps: seq<Step>)
    requires IsRun(Init(queued), steps)
    ensures var s := After(Init(queued), steps);
            && !s.failed && OneToken(s)
            && (s.queue != multiset{} ==> exists t :: t in s.threads)
            && s.sent == s.got + s.stolen + s.queue
            && s.sent == queued + SentIn(steps) && s.got == ReceivedIn(steps) && s.stolen == TakenIn(steps)
  {
    InitInv(queued);
    RunInv(Init(queued), steps);
    FromTheStart(queued, steps);
    var s := After(Init(queued), steps);
    if !s.registered {
      var t :| Registrants(s) == {t};
      assert t in Registrants(s);
    }
  }

  /** The steps the program itself takes. */
  predicate Own(a: Step) {
    a.Register? || a.Receive? || a.Finish?
  }

  /** Work left: two units for a thread that has yet to register, one for one that drains,
      one per queued message. */
  ghost function Load(s: State): nat {
    |s.threads| + |Registrants(s)| + |s.queue|
  }

  lemma LoadShrinks(s: State, a: Step)
    requires Inv(s) && Own(a) && Enabled(s, a)
    ensures Load(Next(s, a)) < Load(s)
  {
    var s' := Next(s, a);
    match a
    case Register(t) =>
      RegisterToken(s, t);
      assert s'.threads.Keys == s.threads.Keys;
    case Receive(t, m) => assert Registrants(s') == Registrants(s);
    case Finish(t) =>
      assert s'.threads.Keys == s.threads.Keys - {t};
      assert Registrants(s') == Registrants(s);
  }

  /** The program can move whenever it has a thread, and every move of its own reduces the
      load; so, left alone, it comes to rest, and then everything sent has been received. */
  lemma ComesToRest(s: State)
    requires Inv(s)
    ensures s.threads != map[] ==> exists a :: Own(a) && Enabled(s, a)
    ensures forall a :: Own(a) && Enabled(s, a) ==> Load(Next(s, a)) < Load(s)
    ensures s.threads == map[] ==> s.queue == multiset{} && s.registered && s.sent == s.got + s.stolen
  {
    if s.threads != map[] {
      var t :| t in s.threads;
      if s.threads[t] == Registering {
        assert Enabled(s, Register(t));
      } else if s.queue == multiset{} {
        assert Enabled(s, Finish(t));
      } else {
        var m :| m in s.queue;
        assert Enabled(s, Receive(t, m));
      }
    } else {
      assert Registrants(s) == {};
    }
    forall a | Own(a) && Enabled(s, a) ensures Load(Next(s, a)) < Load(s) {
      LoadShrinks(s, a);
    }
  }

  lemma {:induction false} OwnRunsAreShort(s: State, steps: seq<Step>)
    requires Inv(s) && IsRun(s, steps) && forall a :: a in steps ==> Own(a)
    ensures |steps| <= Load(s)
    decreases |steps|
  {
    if steps != [] {
      NextInv(s, steps[0]);
      LoadShrinks(s, steps[0]);
      OwnRunsAreShort(Next(s, steps[0]), steps[1..]);
    }
  }

  /** Left alone after any run, the program takes a bounded number of steps; and where it can take
      no more, no thread is left, it is registered, and all that was sent has been received by it or
      by others. */
  lemma LeftAlone(queued: multiset<Msg>, before: seq<Step>, steps: seq<Step>)
    requires IsRun(Init(queued), before) && IsRun(After(Init(queued), before), steps)
    requires forall a :: a in steps ==> Own(a)
    ensures var s := After(Init(queued), before);
            && |steps| <= Load(s)
            && var t := After(s, steps);
               (forall a :: Own(a) ==> !Enabled(t, a)) ==>
                 && t.threads == map[] && t.queue == multiset{} && t.registered
                 && t.sent == t.got + t.stolen
                 && t.got == ReceivedIn(before) + ReceivedIn(steps) && t.stolen == TakenIn(before)
  {
    TwoRuns(Init(queued), before, steps);
    InitInv(queued);
    RunInv(Init(queued), before);
    var s := After(Init(queued), before);
    RunInv(s, steps);
    OwnRunsAreShort(s, steps);
    ComesToRest(After(s, steps));
  }

  // ---------------------------------------------------------------------
  // Who got what
  // ---------------------------------------------------------------------

  /** The message that a step sends, that the program receives by it, or that another takes. */
  function Sends(a: Step): multiset<Msg> {
    if a.Send? || a.HandOver? then multiset{a.m} else multiset{}
  }

  function Receives(a: Step): multiset<Msg> {
    if a.Receive? then multiset{a.m} else multiset{}
  }

  function Takes(a: Step): multiset<Msg> {
    if a.Steal? || a.HandOver? then multiset{a.m} else multiset{}
  }

  /** The same over a run. */
  function SentIn(steps: seq<Step>): multiset<Msg> {
    if steps == [] then multiset{} else Sends(steps[0]) + SentIn(steps[1..])
  }

  function ReceivedIn(steps: seq<Step>): multiset<Msg> {
    if steps == [] then multiset{} else Receives(steps[0]) + ReceivedIn(steps[1..])
  }

  function TakenIn(steps: seq<Step>): multiset<Msg> {
    if steps == [] then multiset{} else Takes(steps[0]) + TakenIn(steps[1..])
  }

  lemma OneStepIs(s: State, a: Step)
    requires Enabled(s, a)
    ensures var s' := Next(s, a);
            && s'.sent == (if a.Send? || a.HandOver? then s.sent + multiset{a.m} else s.sent)
            && s'.got == (if a.Receive? then s.got + multiset{a.m} else s.got)
            && s'.stolen == (if a.Steal? || a.HandOver? then s.stolen + multiset{a.m} else s.stolen)
  {
  }

  lemma OneStep(s: State, a: Step)
    requires Enabled(s, a)
    ensures var s' := Next(s, a);
            s'.sent == s.sent + Sends(a) && s'.got == s.got + Receives(a) && s'.stolen == s.stolen + Takes(a)
  {
    OneStepIs(s, a);
    hide Next, Enabled;
    NothingMore(s.sent);
    NothingMore(s.got);
    NothingMore(s.stolen);
  }

  lemma NothingMore(x: multiset<Msg>)
    ensures x + multiset{} == x
  {
  }

  /** In every run the program has received exactly the messages of its own receiving steps, and
      others exactly those that they took; what was sent and is neither, is queued. */
  lemma {:induction false} WhoGotWhat(s: State, steps: seq<Step>)
    requires IsRun(s, steps)
    ensures var t := After(s, steps);
            && t.sent == s.sent + SentIn(steps) && t.got == s.got + ReceivedIn(steps)
            && t.stolen == s.stolen + TakenIn(steps)
    decreases |steps|
  {
    hide Next, Enabled, Sends, Receives, Takes;
    if steps == [] {
      NothingMore(s.sent);
      NothingMore(s.got);
      NothingMore(s.stolen);
    } else {
      var a, rest := steps[0], steps[1..];
      OneStep(s, a);
      WhoGotWhat(Next(s, a), rest);
      Regroup(s.sent, Sends(a), SentIn(rest));
      Regroup(s.got, Receives(a), ReceivedIn(rest));
      Regroup(s.stolen, Takes(a), TakenIn(rest));
    }
  }

  lemma Regroup(x: multiset<Msg>, y: multiset<Msg>, z: multiset<Msg>)
    ensures x + y + z == x + (y + z)
  {
  }

  lemma {:induction false} NobodyTakes(steps: seq<Step>)
    requires forall a :: a in steps ==> !a.Steal? && !a.HandOver?
    ensures TakenIn(steps) == multiset{}
  {
    if steps != [] {
      assert steps[0] in steps;
      NobodyTakes(steps[1..]);
    }
  }

  lemma FromTheStart(queued: multiset<Msg>, steps: seq<Step>)
    requires IsRun(Init(queued), steps)
    ensures var t := After(Init(queued), steps);
            t.sent == queued + SentIn(steps) && t.got == ReceivedIn(steps) && t.stolen == TakenIn(steps)
  {
    WhoGotWhat(Init(queued), steps);
    hide IsRun, After, SentIn, ReceivedIn, TakenIn;
  }

  /** While others keep away nothing more is taken. */
  lemma TwoRuns(s: State, before: seq<Step>, steps: seq<Step>)
    requires IsRun(s, before) && IsRun(After(s, before), steps) && s.got == multiset{} && s.stolen == multiset{}
    requires forall a :: a in steps ==> Own(a)
    ensures var t := After(After(s, before), steps);
            t.got == ReceivedIn(before) + ReceivedIn(steps) && t.stolen == TakenIn(before)
  {
    WhoGotWhat(s, before);
    WhoGotWhat(After(s, before), steps);
    NobodyTakes(steps);
    hide IsRun, After, SentIn, ReceivedIn, TakenIn;
  }

  /** Without rivals, a program at rest has received all that was ever sent. */
  lemma AllReceived(queued: multiset<Msg>, steps: seq<Step>)
    requires IsRun(Init(queued), steps) && After(Init(queued), steps).threads == map[]
    requires forall a :: a in steps ==> !a.Steal? && !a.HandOver?
    ensures ReceivedIn(steps) == queued + SentIn(steps)
  {
    InitInv(queued);
    RunInv(Init(queued), steps);
    ComesToRest(After(Init(queued), steps));
    WhoGotWhat(Init(queued), steps);
    NobodyTakes(steps);
  }
}

/** mq_notify_sig.c: the notification signal stays blocked except in sigsuspend; the program
    registers once, then waits, renews the registration and drains, for ever. */
module MqNotifySuspend {
  import opened Wrappers

  type Msg = nat

  datatype Pc = FirstRegister | Suspended | Reregister | Drain

  datatype State = State(queue: multiset<Msg>, registered: bool, pending: bool, pc: Pc, failed: bool,
                         sent: multiset<Msg>, got: multiset<Msg>, stolen: multiset<Msg>)

  datatype Step =
    | Send(m: Msg) | Steal(m: Msg) | HandOver(m: Msg)
    | CallNotify        // either mq_notify call
    | Wake              // sigsuspend takes the pending signal and returns
    | Receive(m: Msg) | QueueEmpty

  function Init(queued: multiset<Msg>): State {
    State(queued, false, false, FirstRegister, false, queued, multiset{}, multiset{})
  }

  predicate Enabled(s: State, a: Step) {
    match a
    case Send(_) => true
    case Steal(m) => m in s.queue
    case HandOver(_) => s.queue == multiset{}
    case CallNotify => s.pc == FirstRegister || s.pc == Reregister
    case Wake => s.pc == Suspended && s.pending
    case Receive(m) => s.pc == Drain && m in s.queue
    case QueueEmpty => s.pc == Drain && s.queue == multiset{}
  }

  function Next(s: State, a: Step): State
    requires Enabled(s, a)
  {
    match a
    case Send(m) =>
      var s' := s.(queue := s.queue + multiset{m}, sent := s.sent + multiset{m});
      if s.queue == multiset{} && s.registered then s'.(registered := false, pending := true) else s'
    case Steal(m) => s.(queue := s.queue - multiset{m}, stolen := s.stolen + multiset{m})
    case HandOver(m) => s.(sent := s.sent + multiset{m}, stolen := s.stolen + multiset{m})
    case CallNotify =>
      if s.registered then s.(failed := true)
      else s.(registered := true, pc := if s.pc == FirstRegister then Suspended else Drain)
    case Wake => s.(pending := false, pc := Reregister)
    case Receive(m) => s.(queue := s.queue - multiset{m}, got := s.got + multiset{m})
    case QueueEmpty => s.(pc := Suspended)
  }

  ghost predicate IsRun(s: State, steps: seq<Step>)
    decreases |steps|
  {
    steps == [] || (Enabled(s, steps[0]) && IsRun(Next(s, steps[0]), steps[1..]))
  }

  ghost function After(s: State, steps: seq<Step>): State
    requires IsRun(s, steps)
    decreases |steps|
  {
    if steps == [] then s else After(Next(s, steps[0]), steps[1..])
  }

  function Tokens(s: State): nat {
    Count(s.registered) + Count(s.pending) + Count(s.pc == FirstRegister || s.pc == Reregister)
  }

  predicate Noticed(s: State) {
    s.queue != multiset{} ==> s.pending || s.pc == Reregister || s.pc == Drain
  }

  /** What holds whatever the queue held at the first registration. */
  predicate Sound(s: State) {
    !s.failed && Tokens(s) == 1 && s.sent == s.got + s.stolen + s.queue
  }

  lemma NextSound(s: State, a: Step)
    requires Sound(s) && Enabled(s, a)
    ensures Sound(Next(s, a))
    ensures Noticed(s) && s.pc != FirstRegister ==> Noticed(Next(s, a)) && Next(s, a).pc != FirstRegister
  {
  }

  lemma {:induction false} RunSound(s: State, steps: seq<Step>)
    requires Sound(s) && IsRun(s, steps)
    ensures Sound(After(s, steps))
    decreases |steps|
  {
    if steps != [] {
      NextSound(s, steps[0]);
      RunSound(Next(s, steps[0]), steps[1..]);
    }
  }

  lemma {:induction false} RunNoticed(s: State, steps: seq<Step>)
    requires Sound(s) && Noticed(s) && s.pc != FirstRegister && IsRun(s, steps)
    ensures Noticed(After(s, steps))
    decreases |steps|
  {
    if steps != [] {
      NextSound(s, steps[0]);
      hide Sound, Noticed;
      RunNoticed(Next(s, steps[0]), steps[1..]);
    }
  }

  /** The registration is never attempted twice and no message disappears, in any run. */
  lemma NeverBusy(queued: multiset<Msg>, steps: seq<Step>)
    requires IsRun(Init(queued), steps)
    ensures Sound(After(Init(queued), steps))
  {
    RunSound(Init(queued), steps);
  }

  ghost predicate AlwaysNoticed(s: State) {
    forall steps :: IsRun(s, steps) ==> Noticed(After(s, steps))
  }

  lemma AlwaysMeansNow(s: State)
    ensures AlwaysNoticed(s) ==> Noticed(s)
  {
    if AlwaysNoticed(s) {
      var none: seq<Step> := [];
      assert IsRun(s, none);
      assert After(s, none) == s;
    }
  }

  /** From the first registration on, queued messages are always noticed if and only if the
      queue was empty at that moment -- the precondition that the source states. */
  lemma NoticedIffEmptyAtRegistration(s: State)
    requires Sound(s) && s.pc == FirstRegister
    ensures AlwaysNoticed(Next(s, CallNotify)) <==> s.queue == multiset{}
  {
    var s1 := Next(s, CallNotify);
    AlwaysMeansNow(s1);
    if s.queue == multiset{} {
      forall steps | IsRun(s1, steps) ensures Noticed(After(s1, steps)) {
        RunNoticed(s1, steps);
      }
    }
  }

  /** If messages were there already, then, unless somebody else takes them, the program sleeps
      for ever: no notification comes and nothing is received. */
  lemma {:induction false} SleepsForEver(s: State, steps: seq<Step>)
    requires Sound(s) && s.pc == Suspended && s.registered && s.queue != multiset{}
    requires IsRun(s, steps) && forall a :: a in steps ==> !a.Steal?
    ensures var s' := After(s, steps);
            s'.pc == Suspended && s'.registered && s'.got == s.got && s.queue <= s'.queue
    decreases |steps|
  {
    if steps != [] {
      assert steps[0] in steps;
      assert forall a :: a in steps[1..] ==> a in steps;
      SleepsForEver(Next(s, steps[0]), steps[1..]);
    }
  }

  /** And as soon as the queue has been empty once, everything is noticed from then on. */
  lemma RecoversWhenEmptied(s: State, steps: seq<Step>)
    requires Sound(s) && s.pc != FirstRegister && s.queue == multiset{} && IsRun(s, steps)
    ensures Noticed(After(s, steps))
  {
    RunNoticed(s, steps);
  }

  // ---------------------------------------------------------------------
  // Left alone
  // ---------------------------------------------------------------------

  /** The steps of the program itself. */
  predicate Own(a: Step) {
    !(a.Send? || a.Steal? || a.HandOver?)
  }

  /** Work left: one unit per queued message, and the steps to the next sleep. */
  function Load(s: State): nat {
    |s.queue| + 3 * Count(s.pending) +
    match s.pc case FirstRegister => 1 case Suspended => 0 case Reregister => 2 case Drain => 1
  }

  lemma LoadShrinks(s: State, a: Step)
    requires Sound(s) && Own(a) && Enabled(s, a)
    ensures Load(Next(s, a)) < Load(s)
  {
  }

  lemma {:induction false} OwnRunsAreShort(s: State, steps: seq<Step>)
    requires Sound(s) && IsRun(s, steps) && forall a :: a in steps ==> Own(a)
    ensures |steps| <= Load(s)
    decreases |steps|
  {
    if steps != [] {
      NextSound(s, steps[0]);
      LoadShrinks(s, steps[0]);
      hide Sound, Load;
      OwnRunsAreShort(Next(s, steps[0]), steps[1..]);
    }
  }

  lemma RestIsEmpty(s: State)
    requires Sound(s) && Noticed(s) && s.pc != FirstRegister && forall a :: Own(a) ==> !Enabled(s, a)
    ensures s.pc == Suspended && s.registered && s.queue == multiset{} && s.sent == s.got + s.stolen
  {
    assert !Enabled(s, CallNotify) && !Enabled(s, Wake) && !Enabled(s, QueueEmpty);
    forall m ensures !(s.pc == Drain && m in s.queue) {
      assert !Enabled(s, Receive(m));
    }
  }

  /** With the queue empty at the first registration, the program left alone after any run takes a
      bounded number of steps; and where it can take no more it sleeps, registered, with an empty
      queue, and nothing is lost. */
  lemma LeftAlone(s: State, before: seq<Step>, steps: seq<Step>)
    requires Sound(s) && s.pc == FirstRegister && s.queue == multiset{}
    requires IsRun(Next(s, CallNotify), before) && IsRun(After(Next(s, CallNotify), before), steps)
    requires forall a :: a in steps ==> Own(a)
    ensures var t := After(Next(s, CallNotify), before);
            && |steps| <= Load(t)
            && var u := After(t, steps);
               (forall a :: Own(a) ==> !Enabled(u, a)) ==>
                 && u.pc == Suspended && u.registered && u.queue == multiset{} && u.sent == u.got + u.stolen
                 && u.got == s.got + ReceivedIn(before) + ReceivedIn(steps) && u.stolen == s.stolen + TakenIn(before)
  {
    TwoRuns(Next(s, CallNotify), before, steps);
    var s1 := Next(s, CallNotify);
    NextSound(s, CallNotify);
    RunSound(s1, before);
    RunNoticed(s1, before);
    RunPastRegistration(s1, before);
    var t := After(s1, before);
    RunSound(t, steps);
    RunNoticed(t, steps);
    RunPastRegistration(t, steps);
    OwnRunsAreShort(t, steps);
    var u := After(t, steps);
    hide Sound, Noticed, IsRun, After, Enabled, Next;
    if forall a :: Own(a) ==> !Enabled(u, a) {
      RestIsEmpty(u);
    }
  }

  lemma {:induction false} RunPastRegistration(s: State, steps: seq<Step>)
    requires s.pc != FirstRegister && IsRun(s, steps)
    ensures After(s, steps).pc != FirstRegister
    decreases |steps|
  {
    if steps != [] {
      RunPastRegistration(Next(s, steps[0]), steps[1..]);
    }
  }

  // ---------------------------------------------------------------------
  // Who got what
  // ---------------------------------------------------------------------

  /** The message that a step sends, that the program receives by it, or that another takes. */
  function Sends(a: Step): multiset<Msg> {
    if a.Send? || a.HandOver? then multiset{a.m} else multiset{}
  }

  function Receives(a: Step): multiset<Msg> {
    if a.Receive? then multiset{a.m} else multiset{}
  }

  function Takes(a: Step): multiset<Msg> {
    if a.Steal? || a.HandOver? then multiset{a.m} else multiset{}
  }

  /** The same over a run. */
  function SentIn(steps: seq<Step>): multiset<Msg> {
    if steps == [] then multiset{} else Sends(steps[0]) + SentIn(steps[1..])
  }

  function ReceivedIn(steps: seq<Step>): multiset<Msg> {
    if steps == [] then multiset{} else Receives(steps[0]) + ReceivedIn(steps[1..])
  }

  function TakenIn(steps: seq<Step>): multiset<Msg> {
    if steps == [] then multiset{} else Takes(steps[0]) + TakenIn(steps[1..])
  }

  lemma OneStepIs(s: State, a: Step)
    requires Enabled(s, a)
    ensures var s' := Next(s, a);
            && s'.sent == (if a.Send? || a.HandOver? then s.sent + multiset{a.m} else s.sent)
            && s'.got == (if a.Receive? then s.got + multiset{a.m} else s.got)
            && s'.stolen == (if a.Steal? || a.HandOver? then s.stolen + multiset{a.m} else s.stolen)
  {
  }

  lemma OneStep(s: State, a: Step)
    requires Enabled(s, a)
    ensures var s' := Next(s, a);
            s'.sent == s.sent + Sends(a) && s'.got == s.got + Receives(a) && s'.stolen == s.stolen + Takes(a)
  {
    OneStepIs(s, a);
    hide Next, Enabled;
    NothingMore(s.sent);
    NothingMore(s.got);
    NothingMore(s.stolen);
  }

  lemma NothingMore(x: multiset<Msg>)
    ensures x + multiset{} == x
  {
  }

  /** In every run the program has received exactly the messages of its own receiving steps, and
      others exactly those that they took; what was sent and is neither, is queued. */
  lemma {:induction false} WhoGotWhat(s: State, steps: seq<Step>)
    requires IsRun(s, steps)
    ensures var t := After(s, steps);
            && t.sent == s.sent + SentIn(steps) && t.got == s.got + ReceivedIn(steps)
            && t.stolen == s.stolen + TakenIn(steps)
    decreases |steps|
  {
    hide Next, Enabled, Sends, Receives, Takes;
    if steps == [] {
      NothingMore(s.sent);
      NothingMore(s.got);
      NothingMore(s.stolen);
    } else {
      var a, rest := steps[0], steps[1..];
      OneStep(s, a);
      WhoGotWhat(Next(s, a), rest);
      Regroup(s.sent, Sends(a), SentIn(rest));
      Regroup(s.got, Receives(a), ReceivedIn(rest));
      Regroup(s.stolen, Takes(a), TakenIn(rest));
    }
  }

  lemma Regroup(x: multiset<Msg>, y: multiset<Msg>, z: multiset<Msg>)
    ensures x + y + z == x + (y + z)
  {
  }

  lemma {:induction false} NobodyTakes(steps: seq<Step>)
    requires forall a :: a in steps ==> !a.Steal? && !a.HandOver?
    ensures TakenIn(steps) == multiset{}
  {
    if steps != [] {
      assert steps[0] in steps;
      NobodyTakes(steps[1..]);
    }
  }

  /** While others keep away nothing more is taken. */
  lemma TwoRuns(s: State, before: seq<Step>, steps: seq<Step>)
    requires IsRun(s, before) && IsRun(After(s, before), steps) && forall a :: a in steps ==> Own(a)
    ensures var t := After(After(s, before), steps);
            t.got == s.got + ReceivedIn(before) + ReceivedIn(steps) && t.stolen == s.stolen + TakenIn(before)
  {
    WhoGotWhat(s, before);
    WhoGotWhat(After(s, before), steps);
    NobodyTakes(steps);
    NothingMore(s.stolen + TakenIn(before));
    hide IsRun, After, SentIn, ReceivedIn, TakenIn;
  }

  /** Without rivals, a program with an empty queue has received all that was ever sent. */
  lemma AllReceived(queued: multiset<Msg>, steps: seq<Step>)
    requires IsRun(Init(queued), steps) && After(Init(queued), steps).queue == multiset{}
    requires forall a :: a in steps ==> !a.Steal? && !a.HandOver?
    ensures ReceivedIn(steps) == queued + SentIn(steps)
  {
    RunSound(Init(queued), steps);
    WhoGotWhat(Init(queued), steps);
    NobodyTakes(steps);
  }
}

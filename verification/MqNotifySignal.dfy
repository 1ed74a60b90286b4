/** mq_notify_via_signal.c: a handler sets a flag; the main loop polls the flag, clears it,
    renews the registration and drains the queue. Signals may arrive between any two steps. */
module MqNotifySignal {
  import opened Wrappers

  type Msg = nat

  datatype Pc = Poll | Clear | Register | Drain | Work

  datatype State = State(queue: multiset<Msg>, registered: bool, pending: bool, gotSig: bool, pc: Pc,
                         failed: bool, sent: multiset<Msg>, got: multiset<Msg>, stolen: multiset<Msg>)

  datatype Step =
    | Send(m: Msg) | Steal(m: Msg) | HandOver(m: Msg)
    | Deliver           // the handler runs
    | PollFlag | ClearFlag | CallNotify | Receive(m: Msg) | QueueEmpty | WorkDone

  /** gotSig starts as 1, so that the first round registers and drains. */
  function Init(queued: multiset<Msg>): State {
    State(queued, false, false, true, Poll, false, queued, multiset{}, multiset{})
  }

  predicate Enabled(s: State, a: Step) {
    match a
    case Send(_) => true
    case Steal(m) => m in s.queue
    case HandOver(_) => s.queue == multiset{}
    case Deliver => s.pending
    case PollFlag => s.pc == Poll
    case ClearFlag => s.pc == Clear
    case CallNotify => s.pc == Register
    case Receive(m) => s.pc == Drain && m in s.queue
    case QueueEmpty => s.pc == Drain && s.queue == multiset{}
    case WorkDone => s.pc == Work
  }

  function Next(s: State, a: Step): State
    requires Enabled(s, a)
  {
    match a
    case Send(m) =>
      var s' := s.(queue := s.queue + multiset{m}, sent := s.sent + multiset{m});
      if s.queue == multiset{} && s.registered then s'.(registered := false, pending := true) else s'
    case Steal(m) => s.(queue := s.queue - multiset{m}, stolen := s.stolen + multiset{m})
    case HandOver(m) => s.(sent := s.sent + multiset{m}, stolen := s.stolen + multiset{m})
    case Deliver => s.(pending := false, gotSig := true)
    case PollFlag => s.(pc := if s.gotSig then Clear else Work)
    case ClearFlag => s.(gotSig := false, pc := Register)
    case CallNotify => if s.registered then s.(failed := true) else s.(registered := true, pc := Drain)
    case Receive(m) => s.(queue := s.queue - multiset{m}, got := s.got + multiset{m})
    case QueueEmpty => s.(pc := Work)
    case WorkDone => s.(pc := Poll)
  }

  ghost predicate IsRun(s: State, steps: seq<Step>)
    decreases |steps|
  {
    steps == [] || (Enabled(s, steps[0]) && IsRun(Next(s, steps[0]), steps[1..]))
  }

  ghost function After(s: State, steps: seq<Step>): State
    requires IsRun(s, steps)
    decreases |steps|
  {
    if steps == [] then s else After(Next(s, steps[0]), steps[1..])
  }

  /** The registration is in exactly one place: with the kernel, on its way as a signal, in the
      flag, or with the main loop about to renew it. */
  function Tokens(s: State): nat {
    Count(s.registered) + Count(s.pending) + Count(s.gotSig) + Count(s.pc == Register)
  }

  /** Whoever waits in the queue has been noticed. */
  predicate Noticed(s: State) {
    s.queue != multiset{} ==> s.gotSig || s.pending || s.pc == Register || s.pc == Drain
  }

  predicate Inv(s: State) {
    && !s.failed && Tokens(s) == 1 && Noticed(s)
    && (s.pc == Clear ==> s.gotSig)
    && s.sent == s.got + s.stolen + s.queue
  }

  lemma NextInv(s: State, a: Step)
    requires Inv(s) && Enabled(s, a)
    ensures Inv(Next(s, a))
  {
  }

  lemma {:induction false} RunInv(s: State, steps: seq<Step>)
    requires Inv(s) && IsRun(s, steps)
    ensures Inv(After(s, steps))
    decreases |steps|
  {
    if steps != [] {
      NextInv(s, steps[0]);
      RunInv(Next(s, steps[0]), steps[1..]);
    }
  }

  /** In every run, messages queued before the start included: the registration is never
      attempted twice, no message is lost, and while one is queued the flag is set, the signal
      is pending or the register-and-drain block is in progress. */
  lemma NothingLost(queued: multiset<Msg>, steps: seq<Step>)
    requires IsRun(Init(queued), steps)
    ensures var s := After(Init(queued), steps);
            && !s.failed && Tokens(s) == 1 && Noticed(s) && s.sent == s.got + s.stolen + s.queue
            && s.sent == queued + SentIn(steps) && s.got == ReceivedIn(steps) && s.stolen == TakenIn(steps)
  {
    RunInv(Init(queued), steps);
    FromTheStart(queued, steps);
  }

  /** The steps of the program itself, the handler included. */
  predicate Own(a: Step) {
    !(a.Send? || a.Steal? || a.HandOver?)
  }

  /** How far the program is from the drain loop. */
  function Distance(s: State): nat {
    match s.pc
    case Work => 4
    case Poll => 3
    case Clear => 2
    case Register => 1
    case Drain => 0
  }

  function Load(s: State): nat {
    10 * |s.queue| + Distance(s) + (if s.pending then 6 else 0)
  }

  /** Left alone with a non-empty queue, the program empties it: it always can move, and while
      the flag is set or the block is in progress every move brings it nearer. (While the
      signal is only pending the main loop may idle until it is delivered.) */
  lemma Drains(s: State, a: Step)
    requires Inv(s) && s.queue != multiset{} && Own(a) && Enabled(s, a)
    requires a == Deliver || !s.pending
    ensures Load(Next(s, a)) < Load(s)
  {
    if s.pc == Drain {
      assert a.Receive? || a.Deliver?;
    }
  }

  lemma CanMove(s: State)
    requires Inv(s)
    ensures exists a :: Own(a) && Enabled(s, a)
  {
    match s.pc
    case Poll => assert Enabled(s, PollFlag);
    case Clear => assert Enabled(s, ClearFlag);
    case Register => assert Enabled(s, CallNotify);
    case Work => assert Enabled(s, WorkDone);
    case Drain =>
      if s.queue == multiset{} {
        assert Enabled(s, QueueEmpty);
      } else {
        var m :| m in s.queue;
        assert Enabled(s, Receive(m));
      }
  }

  /** Once the signal is not pending, a run of the program's own steps that leaves a message in the
      queue is short. */
  lemma {:induction false} QueuedRunsAreShort(s: State, steps: seq<Step>)
    requires Inv(s) && !s.pending && IsRun(s, steps) && forall a :: a in steps ==> Own(a)
    ensures After(s, steps).queue <= s.queue
    ensures After(s, steps).queue != multiset{} ==> |steps| <= Load(s)
    decreases |steps|
  {
    if steps != [] {
      var a, s' := steps[0], Next(s, steps[0]);
      assert Own(a);
      NextInv(s, a);
      QueuedRunsAreShort(s', steps[1..]);
      if s.queue != multiset{} {
        Drains(s, a);
      }
    }
  }

  lemma {:induction false} OwnRunsOnlyReceive(s: State, steps: seq<Step>)
    requires IsRun(s, steps) && forall a :: a in steps ==> Own(a)
    ensures After(s, steps).queue <= s.queue
    decreases |steps|
  {
    if steps != [] {
      assert Own(steps[0]);
      OwnRunsOnlyReceive(Next(s, steps[0]), steps[1..]);
    }
  }

  /** After any run, once no signal is pending or it has been delivered, the program left alone
      empties the queue within ten steps for each message and five more. */
  lemma DrainedInTime(queued: multiset<Msg>, before: seq<Step>, until: seq<Step>, steps: seq<Step>)
    requires IsRun(Init(queued), before) && IsRun(After(Init(queued), before), until)
    requires var s := After(Init(queued), before); IsRun(After(s, until), steps) && !After(s, until).pending
    requires (forall a :: a in until ==> Own(a)) && forall a :: a in steps ==> Own(a)
    ensures var s := After(Init(queued), before);
            |steps| >= 10 * |s.queue| + 5 ==> After(After(s, until), steps).queue == multiset{}
  {
    RunInv(Init(queued), before);
    var s := After(Init(queued), before);
    RunInv(s, until);
    OwnRunsOnlyReceive(s, until);
    var s' := After(s, until);
    assert |s'.queue| <= |s.queue| by { Smaller(s'.queue, s.queue); }
    QueuedRunsAreShort(s', steps);
  }

  lemma Smaller(a: multiset<Msg>, b: multiset<Msg>)
    requires a <= b
    ensures |a| <= |b|
  {
    assert b == a + (b - a);
  }

  // ---------------------------------------------------------------------
  // Who got what
  // ---------------------------------------------------------------------

  /** The message that a step sends, that the program receives by it, or that another takes. */
  function Sends(a: Step): multiset<Msg> {
    if a.Send? || a.HandOver? then multiset{a.m} else multiset{}
  }

  function Receives(a: Step): multiset<Msg> {
    if a.Receive? then multiset{a.m} else multiset{}
  }

  function Takes(a: Step): multiset<Msg> {
    if a.Steal? || a.HandOver? then multiset{a.m} else multiset{}
  }

  /** The same over a run. */
  function SentIn(steps: seq<Step>): multiset<Msg> {
    if steps == [] then multiset{} else Sends(steps[0]) + SentIn(steps[1..])
  }

  function ReceivedIn(steps: seq<Step>): multiset<Msg> {
    if steps == [] then multiset{} else Receives(steps[0]) + ReceivedIn(steps[1..])
  }

  function TakenIn(steps: seq<Step>): multiset<Msg> {
    if steps == [] then multiset{} else Takes(steps[0]) + TakenIn(steps[1..])
  }

  lemma OneStepIs(s: State, a: Step)
    requires Enabled(s, a)
    ensures var s' := Next(s, a);
            && s'.sent == (if a.Send? || a.HandOver? then s.sent + multiset{a.m} else s.sent)
            && s'.got == (if a.Receive? then s.got + multiset{a.m} else s.got)
            && s'.stolen == (if a.Steal? || a.HandOver? then s.stolen + multiset{a.m} else s.stolen)
  {
  }

  lemma OneStep(s: State, a: Step)
    requires Enabled(s, a)
    ensures var s' := Next(s, a);
            s'.sent == s.sent + Sends(a) && s'.got == s.got + Receives(a) && s'.stolen == s.stolen + Takes(a)
  {
    OneStepIs(s, a);
    hide Next, Enabled;
    NothingMore(s.sent);
    NothingMore(s.got);
    NothingMore(s.stolen);
  }

  lemma NothingMore(x: multiset<Msg>)
    ensures x + multiset{} == x
  {
  }

  /** In every run the program has received exactly the messages of its own receiving steps, and
      others exactly those that they took; what was sent and is neither, is queued. */
  lemma {:induction false} WhoGotWhat(s: State, steps: seq<Step>)
    requires IsRun(s, steps)
    ensures var t := After(s, steps);
            && t.sent == s.sent + SentIn(steps) && t.got == s.got + ReceivedIn(steps)
            && t.stolen == s.stolen + TakenIn(steps)
    decreases |steps|
  {
    hide Next, Enabled, Sends, Receives, Takes;
    if steps == [] {
      NothingMore(s.sent);
      NothingMore(s.got);
      NothingMore(s.stolen);
    } else {
      var a, rest := steps[0], steps[1..];
      OneStep(s, a);
      WhoGotWhat(Next(s, a), rest);
      Regroup(s.sent, Sends(a), SentIn(rest));
      Regroup(s.got, Receives(a), ReceivedIn(rest));
      Regroup(s.stolen, Takes(a), TakenIn(rest));
    }
  }

  lemma Regroup(x: multiset<Msg>, y: multiset<Msg>, z: multiset<Msg>)
    ensures x + y + z == x + (y + z)
  {
  }

  lemma {:induction false} NobodyTakes(steps: seq<Step>)
    requires forall a :: a in steps ==> !a.Steal? && !a.HandOver?
    ensures TakenIn(steps) == multiset{}
  {
    if steps != [] {
      assert steps[0] in steps;
      NobodyTakes(steps[1..]);
    }
  }

  lemma FromTheStart(queued: multiset<Msg>, steps: seq<Step>)
    requires IsRun(Init(queued), steps)
    ensures var t := After(Init(queued), steps);
            t.sent == queued + SentIn(steps) && t.got == ReceivedIn(steps) && t.stolen == TakenIn(steps)
  {
    WhoGotWhat(Init(queued), steps);
    hide IsRun, After, SentIn, ReceivedIn, TakenIn;
  }

  /** Without rivals, a program with an empty queue has received all that was ever sent. */
  lemma AllReceived(queued: multiset<Msg>, steps: seq<Step>)
    requires IsRun(Init(queued), steps) && After(Init(queued), steps).queue == multiset{}
    requires forall a :: a in steps ==> !a.Steal? && !a.HandOver?
    ensures ReceivedIn(steps) == queued + SentIn(steps)
  {
    RunInv(Init(queued), steps);
    WhoGotWhat(Init(queued), steps);
    NobodyTakes(steps);
  }
}

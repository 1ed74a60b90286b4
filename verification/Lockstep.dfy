/** psem_tty_lockstep_init.c and psem_tty_lockstep_second.c: two processes that take turns at the
    terminal by passing each other a semaphore, each for a number of loops of its own. */
module Lockstep {
  import opened Wrappers

  datatype Who = Init | Second

  /** Where a process is in its loop. */
  datatype Pc = Top | Waited | Printed

  datatype Proc = Proc(nloops: nat, j: nat, pc: Pc)

  datatype Line = Line(who: Who, j: nat)

  datatype State = State(init: Proc, second: Proc, initSem: nat, secondSem: nat, tty: seq<Line>)

  datatype Step = Wait(who: Who) | Print(who: Who) | Post(who: Who)

  function Start(a: nat, b: nat): State {
    State(Proc(a, 0, Top), Proc(b, 0, Top), 0, 1, [])
  }

  function Of(s: State, w: Who): Proc {
    if w.Init? then s.init else s.second
  }

  /** The semaphore a process waits on. */
  function Sem(s: State, w: Who): nat {
    if w.Init? then s.initSem else s.secondSem
  }

  predicate Enabled(s: State, a: Step) {
    var p := Of(s, a.who);
    match a
    case Wait(w) => p.j < p.nloops && p.pc == Top && Sem(s, w) > 0
    case Print(_) => p.pc == Waited
    case Post(_) => p.pc == Printed
  }

  function With(s: State, w: Who, p: Proc): State {
    if w.Init? then s.(init := p) else s.(second := p)
  }

  function Next(s: State, a: Step): State
    requires Enabled(s, a)
  {
    var p := Of(s, a.who);
    match a
    case Wait(Init) => With(s, Init, p.(pc := Waited)).(initSem := s.initSem - 1)
    case Wait(Second) => With(s, Second, p.(pc := Waited)).(secondSem := s.secondSem - 1)
    case Print(w) => With(s, w, p.(pc := Printed)).(tty := s.tty + [Line(w, p.j)])
    case Post(Init) => With(s, Init, p.(j := p.j + 1, pc := Top)).(secondSem := s.secondSem + 1)
    case Post(Second) => With(s, Second, p.(j := p.j + 1, pc := Top)).(initSem := s.initSem + 1)
  }

  ghost predicate IsRun(s: State, steps: seq<Step>)
    decreases |steps|
  {
    steps == [] || (Enabled(s, steps[0]) && IsRun(Next(s, steps[0]), steps[1..]))
  }

  ghost function After(s: State, steps: seq<Step>): State
    requires IsRun(s, steps)
    decreases |steps|
  {
    if steps == [] then s else After(Next(s, steps[0]), steps[1..])
  }

  /** Nothing can ever happen any more: both processes are done or wait in vain. */
  ghost predicate AtRest(s: State) {
    forall a: Step :: !Enabled(s, a)
  }

  predicate Done(p: Proc) {
    p.j == p.nloops
  }

  // ---------------------------------------------------------------------
  // The token
  // ---------------------------------------------------------------------

  function Holding(p: Proc): nat {
    if p.pc == Top then 0 else 1
  }

  /** Second speaks first, then they alternate, each counting its own lines. */
  ghost predicate Alternates(tty: seq<Line>) {
    forall k :: 0 <= k < |tty| ==> tty[k] == Line(if k % 2 == 0 then Second else Init, k / 2)
  }

  /** One token: in a semaphore or with a process; where it is tells how far both have got. */
  ghost predicate Inv(s: State) {
    && s.init.j <= s.init.nloops && s.second.j <= s.second.nloops
    && (s.init.pc != Top ==> s.init.j < s.init.nloops)
    && (s.second.pc != Top ==> s.second.j < s.second.nloops)
    && s.initSem + s.secondSem + Holding(s.init) + Holding(s.second) == 1
    && s.second.j == s.init.j + s.initSem + Holding(s.init)
    && |s.tty| == s.init.j + s.second.j
                  + (if s.init.pc == Printed then 1 else 0) + (if s.second.pc == Printed then 1 else 0)
    && Alternates(s.tty)
  }

  lemma NextInv(s: State, a: Step)
    requires Inv(s) && Enabled(s, a)
    ensures Inv(Next(s, a))
  {
    if a.Print? {
      var k := |s.tty|;
      if a.who.Init? {
        assert k == 2 * s.init.j + 1;
      } else {
        assert k == 2 * s.second.j;
      }
      assert k / 2 == Of(s, a.who).j;
    }
  }

  ghost predicate SameLoops(s: State, t: State) {
    s.init.nloops == t.init.nloops && s.second.nloops == t.second.nloops
  }

  lemma {:induction false} RunInv(s: State, steps: seq<Step>)
    requires Inv(s) && IsRun(s, steps)
    ensures Inv(After(s, steps)) && SameLoops(s, After(s, steps))
    decreases |steps|
  {
    if steps != [] {
      NextInv(s, steps[0]);
      RunInv(Next(s, steps[0]), steps[1..]);
    }
  }

  /** Strict alternation and mutual exclusion, in every reachable state, whatever the loop counts. */
  lemma TakesTurns(a: nat, b: nat, steps: seq<Step>)
    requires IsRun(Start(a, b), steps)
    ensures var t := After(Start(a, b), steps);
            && Alternates(t.tty)
            && t.initSem + t.secondSem + Holding(t.init) + Holding(t.second) == 1
            && t.init.j <= t.second.j <= t.init.j + 1
  {
    RunInv(Start(a, b), steps);
  }

  // ---------------------------------------------------------------------
  // Where every run ends
  // ---------------------------------------------------------------------

  /** Steps left, were there no waiting. */
  function Left(s: State): int {
    ProcLeft(s.init) + ProcLeft(s.second)
  }

  function ProcLeft(p: Proc): int {
    3 * (p.nloops - p.j) - match p.pc case Top => 0 case Waited => 1 case Printed => 2
  }

  lemma {:induction false} RunsAreShort(s: State, steps: seq<Step>)
    requires Inv(s) && IsRun(s, steps)
    ensures |steps| <= Left(s)
    decreases |steps|
  {
    if steps != [] {
      NextInv(s, steps[0]);
      RunsAreShort(Next(s, steps[0]), steps[1..]);
    }
  }

  /** At rest exactly when the token lies where nobody will fetch it. */
  lemma RestIsAnUnclaimedToken(s: State)
    requires Inv(s)
    ensures AtRest(s) <==> (s.secondSem == 1 && Done(s.second)) || (s.initSem == 1 && Done(s.init))
  {
    if AtRest(s) {
      assert !Enabled(s, Wait(Init)) && !Enabled(s, Wait(Second));
      assert !Enabled(s, Print(Init)) && !Enabled(s, Print(Second));
      assert !Enabled(s, Post(Init)) && !Enabled(s, Post(Second));
    }
  }

  /** Every run that can go no further ends in one and the same state, determined by the loop
      counts; no run has more than 3(a + b) steps, so every run gets there. */
  lemma EndIsUnique(a: nat, b: nat, steps: seq<Step>)
    requires IsRun(Start(a, b), steps)
    ensures |steps| <= 3 * (a + b)
    ensures var t := After(Start(a, b), steps);
            AtRest(t) <==> t.init.j == Min(a, b) && t.second.j == Min(b, a + 1)
                           && t.init.pc == Top && t.second.pc == Top
    ensures var t := After(Start(a, b), steps);
            SameLoops(Start(a, b), t) && (AtRest(t) ==> |t.tty| == Min(2 * b, 2 * a + 1))
  {
    var s := Start(a, b);
    RunInv(s, steps);
    RunsAreShort(s, steps);
    RestIsAnUnclaimedToken(After(s, steps));
  }

  /** Both programs terminate, in every maximal run, exactly when the second's loop count is the
      first's or one more; otherwise one of them waits for ever. */
  lemma BothFinishIff(a: nat, b: nat, steps: seq<Step>)
    requires IsRun(Start(a, b), steps) && AtRest(After(Start(a, b), steps))
    ensures var t := After(Start(a, b), steps);
            && (Done(t.init) && Done(t.second) <==> a <= b <= a + 1)
            && (b < a ==> Done(t.second) && !Done(t.init))
            && (a + 1 < b ==> Done(t.init) && !Done(t.second))
  {
    EndIsUnique(a, b, steps);
    hide AtRest, Start, IsRun, After;
    LoopCounts(a, b);
  }

  lemma LoopCounts(a: nat, b: nat)
    ensures Start(a, b).init.nloops == a && Start(a, b).second.nloops == b
  {
  }
}

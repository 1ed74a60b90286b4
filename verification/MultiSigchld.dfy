/** multi_SIGCHLD.c: the parent reaps its children from a SIGCHLD handler that runs only inside
    sigsuspend. Signals do not queue: however many children exit meanwhile, one bit records
    it. Children, kernel and parent interleave freely. */
module MultiSigchld {
  import opened Wrappers

  datatype Pc = Forking | Test | Suspended | Reaping | Returning | Done

  /** Children are numbered in the order of their creation. `stops` counts the SIGCHLDs sent
      because a child was stopped or continued rather than because it exited. */
  datatype State = State(n: nat, forked: nat, alive: set<nat>, zombies: set<nat>, reaped: set<nat>,
                         numLiveChildren: int, pending: bool, sigCnt: nat, pc: Pc, stops: nat)

  datatype Step =
    | Fork | ForkDone           // the creation loop, SIGCHLD blocked
    | Exit(c: nat)              // a child exits and SIGCHLD is generated
    | Stop(c: nat)              // a child is stopped or continued and SIGCHLD is generated
    | TestLive                  // while (numLiveChildren > 0)
    | Catch                     // sigsuspend lets the pending signal in; the handler starts
    | Reap(c: nat)              // waitpid returns a child
    | NoneLeft                  // waitpid returns 0 or fails with ECHILD
    | Return                    // the handler and sigsuspend return; sigCnt++

  function Init(n: nat): State {
    State(n, 0, {}, {}, {}, n, false, 0, Forking, 0)
  }

  predicate Enabled(s: State, a: Step) {
    match a
    case Fork => s.pc == Forking && s.forked < s.n
    case ForkDone => s.pc == Forking && s.forked == s.n
    case Exit(c) => c in s.alive
    case Stop(c) => c in s.alive
    case TestLive => s.pc == Test
    case Catch => s.pc == Suspended && s.pending
    case Reap(c) => s.pc == Reaping && c in s.zombies
    case NoneLeft => s.pc == Reaping && s.zombies == {}
    case Return => s.pc == Returning
  }

  function Next(s: State, a: Step): State
    requires Enabled(s, a)
  {
    match a
    case Fork => s.(forked := s.forked + 1, alive := s.alive + {s.forked})
    case ForkDone => s.(pc := Test)
    case Exit(c) => s.(alive := s.alive - {c}, zombies := s.zombies + {c}, pending := true)
    case Stop(c) => s.(pending := true, stops := s.stops + 1)
    case TestLive => s.(pc := if s.numLiveChildren > 0 then Suspended else Done)
    case Catch => s.(pending := false, pc := Reaping)
    case Reap(c) => s.(zombies := s.zombies - {c}, reaped := s.reaped + {c}, numLiveChildren := s.numLiveChildren - 1)
    case NoneLeft => s.(pc := Returning)
    case Return => s.(sigCnt := s.sigCnt + 1, pc := Test)
  }

  ghost predicate IsRun(s: State, steps: seq<Step>)
    decreases |steps|
  {
    steps == [] || (Enabled(s, steps[0]) && IsRun(Next(s, steps[0]), steps[1..]))
  }

  ghost function After(s: State, steps: seq<Step>): State
    requires IsRun(s, steps)
    decreases |steps|
  {
    if steps == [] then s else After(Next(s, steps[0]), steps[1..])
  }

  /** Every child created so far is alive, a zombie or reaped, and only one of these. */
  ghost predicate Census(s: State) {
    && s.forked <= s.n && (s.pc != Forking ==> s.forked == s.n)
    && (forall c :: c in s.alive || c in s.zombies || c in s.reaped ==> c < s.forked)
    && s.alive !! s.zombies && s.alive !! s.reaped && s.zombies !! s.reaped
    && |s.alive| + |s.zombies| + |s.reaped| == s.forked
    && s.numLiveChildren == s.n - |s.reaped|
  }

  ghost predicate Inv(s: State) {
    && Census(s)
    && (s.zombies != {} ==> s.pending || s.pc == Reaping)
    && (s.pc == Done ==> s.numLiveChildren == 0)
    && (s.pc == Suspended ==> s.numLiveChildren > 0)
    && s.sigCnt + Count(s.pending) + Count(s.pc == Reaping || s.pc == Returning)
       <= |s.zombies| + |s.reaped| + s.stops
  }

  lemma NextCensus(s: State, a: Step)
    requires Census(s) && Enabled(s, a)
    ensures Census(Next(s, a))
  {
    var s' := Next(s, a);
    match a
    case Fork => assert s.forked !in s.alive;
    case Exit(c) => assert |s'.alive| == |s.alive| - 1 && |s'.zombies| == |s.zombies| + 1;
    case Reap(c) => assert |s'.zombies| == |s.zombies| - 1 && |s'.reaped| == |s.reaped| + 1;
    case _ =>
  }

  lemma NextInv(s: State, a: Step)
    requires Inv(s) && Enabled(s, a)
    ensures Inv(Next(s, a))
  {
    NextCensus(s, a);
  }

  lemma {:induction false} RunInv(s: State, steps: seq<Step>)
    requires Inv(s) && IsRun(s, steps)
    ensures Inv(After(s, steps)) && After(s, steps).n == s.n
    decreases |steps|
  {
    if steps != [] {
      NextInv(s, steps[0]);
      RunInv(Next(s, steps[0]), steps[1..]);
    }
  }

  /** In every interleaving: numLiveChildren counts the children not yet reaped; the parent is
      never asleep with a zombie to reap and no signal pending; it ends only when every child
      has been created and reaped; and, stops apart, it catches at most one SIGCHLD per child. */
  lemma EveryRun(n: nat, steps: seq<Step>)
    requires IsRun(Init(n), steps)
    ensures var s := After(Init(n), steps);
            && s.numLiveChildren == n - |s.reaped|
            && (s.pc == Suspended && s.zombies != {} ==> s.pending)
            && (s.pc == Done ==> s.forked == n == |s.reaped| && s.alive == {} && s.zombies == {})
            && s.sigCnt + InHandler(s) == Catches(steps) && s.sigCnt <= n + Stops(steps)
  {
    RunInv(Init(n), steps);
    CatchesAreCounted(Init(n), steps);
  }

  /** Something can always happen until the parent is done: it never hangs. */
  lemma NeverStuck(s: State)
    requires Inv(s) && s.pc != Done
    ensures exists a :: Enabled(s, a) && !a.Stop?
  {
    match s.pc
    case Forking => assert Enabled(s, if s.forked < s.n then Fork else ForkDone);
    case Test => assert Enabled(s, TestLive);
    case Suspended =>
      if s.pending {
        assert Enabled(s, Catch);
      } else {
        assert s.alive != {};
        var c :| c in s.alive;
        assert Enabled(s, Exit(c));
      }
    case Reaping =>
      if s.zombies == {} {
        assert Enabled(s, NoneLeft);
      } else {
        var c :| c in s.zombies;
        assert Enabled(s, Reap(c));
      }
    case Returning => assert Enabled(s, Return);
  }

  /** What is left to happen, weighted. */
  ghost function Potential(s: State): int {
    8 * (s.n - s.forked) + 7 * |s.alive| + |s.zombies| + 5 * Count(s.pending) +
    match s.pc
    case Forking => 2
    case Test => 1
    case Suspended => 0
    case Reaping => 3
    case Returning => 2
    case Done => 0
  }

  lemma PotentialShrinks(s: State, a: Step)
    requires Inv(s) && Enabled(s, a) && !a.Stop?
    ensures 0 <= Potential(Next(s, a)) < Potential(s)
  {
  }

  /** So without stops every run is over after a bounded number of steps. */
  lemma {:induction false} RunsAreShort(s: State, steps: seq<Step>)
    requires Inv(s) && IsRun(s, steps) && forall a :: a in steps ==> !a.Stop?
    ensures |steps| <= Potential(s)
    decreases |steps|
  {
    if steps != [] {
      assert steps[0] in steps;
      PotentialShrinks(s, steps[0]);
      NextInv(s, steps[0]);
      RunsAreShort(Next(s, steps[0]), steps[1..]);
    }
  }

  /** A run that cannot go on has everybody reaped. */
  lemma AllReaped(n: nat, steps: seq<Step>)
    requires IsRun(Init(n), steps) && forall a :: a in steps ==> !a.Stop?
    ensures |steps| <= 8 * n + 2
    ensures var s := After(Init(n), steps);
            (forall a :: Enabled(s, a) ==> a.Stop?) ==> s.pc == Done && |s.reaped| == n
  {
    RunsAreShort(Init(n), steps);
    RunInv(Init(n), steps);
    var s := After(Init(n), steps);
    if s.pc != Done {
      NeverStuck(s);
    }
  }

  // ---------------------------------------------------------------------
  // The count that is printed
  // ---------------------------------------------------------------------

  /** How often the handler was started in a run. */
  function Catches(steps: seq<Step>): nat {
    if steps == [] then 0 else Count(steps[0] == Catch) + Catches(steps[1..])
  }

  /** How often a child was stopped or continued. */
  function Stops(steps: seq<Step>): nat {
    if steps == [] then 0 else Count(steps[0].Stop?) + Stops(steps[1..])
  }

  function InHandler(s: State): nat {
    Count(s.pc == Reaping || s.pc == Returning)
  }

  lemma {:induction false} CatchesAreCounted(s: State, steps: seq<Step>)
    requires IsRun(s, steps)
    ensures After(s, steps).sigCnt + InHandler(After(s, steps)) == s.sigCnt + InHandler(s) + Catches(steps)
    ensures After(s, steps).stops == s.stops + Stops(steps)
    decreases |steps|
  {
    if steps != [] {
      CatchesAreCounted(Next(s, steps[0]), steps[1..]);
    }
  }

  /** Children are reaped in the handler only. */
  lemma {:induction false} ReapedAfterCatch(s: State, steps: seq<Step>)
    requires IsRun(s, steps) && (s.reaped != {} ==> s.sigCnt + InHandler(s) > 0)
    ensures After(s, steps).reaped != {} ==> After(s, steps).sigCnt + InHandler(After(s, steps)) > 0
    decreases |steps|
  {
    if steps != [] {
      ReapedAfterCatch(Next(s, steps[0]), steps[1..]);
    }
  }

  /** The number printed at the end is the number of times that the handler ran: at least once if
      there was a child, and, stops apart, at most once for each. */
  lemma PrintedCount(n: nat, steps: seq<Step>)
    requires IsRun(Init(n), steps)
    ensures var s := After(Init(n), steps);
            s.pc == Done ==> s.sigCnt == Catches(steps) <= n + Stops(steps) && (n >= 1 ==> s.sigCnt >= 1)
  {
    ReapedAfterCatch(Init(n), steps);
    EveryRun(n, steps);
  }
}

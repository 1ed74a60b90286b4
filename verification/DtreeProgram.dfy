/** The two halves of inotify_dtree.c put together: what the buffered program leaves in its cache
    after each operation of another process. */
module DtreeProgram {
  import opened Wrappers
  import opened Paths
  import opened Inotify
  import opened DtreeSpec
  import opened DtreeStream
  import opened DtreeMonitor
  import opened DtreeConsistency

  // ---------------------------------------------------------------------
  // An operation leaves a kernel that the program can go on from
  // ---------------------------------------------------------------------

  lemma DirectoryMask(ev: Event)
    requires ev.mask in {IN_CREATE + IN_ISDIR, IN_MOVED_FROM + IN_ISDIR, IN_MOVED_TO + IN_ISDIR,
                         IN_CREATE, IN_MOVED_FROM, IN_MOVED_TO}
    ensures !Has(ev, IN_IGNORED) && !Has(ev, IN_DELETE_SELF) && !Has(ev, IN_UNMOUNT)
  {
  }

  lemma SelfMask(ev: Event)
    ensures ev.mask == IN_DELETE_SELF ==> !Has(ev, IN_IGNORED)
    ensures ev.mask == IN_IGNORED ==> !Has(ev, IN_DELETE_SELF) && !Has(ev, IN_UNMOUNT)
  {
  }

  /** An event about a name in a watched directory. */
  lemma NamedEventOk(m: Monitor, k': Kernel, p: Path, n: string, mask: nat, cookie: nat)
    requires Consistent(m) && IsDir(m.k, p) && NameOk(n) && cookie < 0x1_0000_0000
    requires mask in {IN_CREATE + IN_ISDIR, IN_MOVED_FROM + IN_ISDIR, IN_MOVED_TO + IN_ISDIR,
                      IN_CREATE, IN_MOVED_FROM, IN_MOVED_TO}
    requires k'.nextWd == m.k.nextWd
    ensures EventOk(k', EventOn(m.k, p, mask, cookie, n))
  {
    hide Has;
    var ev := EventOn(m.k, p, mask, cookie, n);
    DirectoryMask(ev);
    var d := WdOfDir(m, p);
    assert Padded(n) <= NAME_MAX + 1;
  }

  lemma RmdirEventsOk(m: Monitor, d: Dir, k': Kernel)
    requires Consistent(m) && d in m.k.tree && After(m.k, Rmdir(d), k')
    ensures forall ev :: ev in k'.queue ==> EventOk(k', ev)
  {
    hide Has;
    assert IsDir(m.k, d.path);
    var e := WdOfDir(m, d.path);
    assert e == d;
    LostWatch(m, d.ino);
    SelfMask(k'.queue[0]);
    SelfMask(k'.queue[1]);
  }

  lemma OpEventsOk(m: Monitor, op: Op, k': Kernel)
    requires Consistent(m) && OpOk(m, op) && After(m.k, op, k')
    ensures forall ev :: ev in k'.queue ==> EventOk(k', ev)
  {
    hide Consistent, EventOk, EventOn;
    match op
    case Mkdir(p, n, _) => NamedEventOk(m, k', p, n, IN_CREATE + IN_ISDIR, 0);
    case Rmdir(d) => RmdirEventsOk(m, d, k');
    case Rename(p, n, q, n', c) =>
      NamedEventOk(m, k', p, n, IN_MOVED_FROM + IN_ISDIR, c);
      NamedEventOk(m, k', q, n', IN_MOVED_TO + IN_ISDIR, c);
    case MoveIn(p, n, _, c) => NamedEventOk(m, k', p, n, IN_MOVED_TO + IN_ISDIR, c);
    case MoveOut(p, n, c) => NamedEventOk(m, k', p, n, IN_MOVED_FROM + IN_ISDIR, c);
    case FileEvent(p, n, mask, c) => NamedEventOk(m, k', p, n, mask, c);
  }

  lemma QueuedInv(m: Monitor, k': Kernel)
    requires Inv(m) && k' == m.k.(queue := k'.queue) && forall ev :: ev in k'.queue ==> EventOk(k', ev)
    ensures Inv(m.(k := k'))
  {
    hide EventOk;
  }

  /** The invariant of the program holds right after the operation, with its events queued. */
  lemma OpKeepsInv(m: Monitor, op: Op, k': Kernel)
    requires Consistent(m) && OpOk(m, op) && After(m.k, op, k')
    ensures Inv(m.(k := k'))
  {
    hide Inv, EventOk, OpOk, DirsAfter, EventsOf, TreeOk;
    OpEventsOk(m, op, k');
    StillInv(m, k'.(queue := []));
    QueuedInv(m.(k := k'.(queue := [])), k');
  }

  // ---------------------------------------------------------------------
  // The program and a history of operations
  // ---------------------------------------------------------------------

  lemma AtRest(m: Monitor)
    requires Consistent(m)
    ensures m.k.queue == [] && !m.exited
  {
  }

  lemma OutcomeStep(m: Monitor, steps: seq<(Op, Kernel)>)
    requires !m.exited && steps != []
    ensures Outcome(m, steps) == Outcome(RefRun(m.(k := steps[0].1)), steps[1..])
  {
  }

  lemma OutcomeEnds(m: Monitor, steps: seq<(Op, Kernel)>)
    ensures steps == [] || m.exited ==> Outcome(m, steps) == m
  {
  }

  /** Another process performs an operation, the program's main loop runs until nothing is queued,
      and so on: after each round the cache is exactly the directories of the monitored trees. The
      program exits only when all watch descriptors have been issued, or a read size too small for
      an event was set. */
  method Follow(d: DirMonitor, steps: seq<(Op, Kernel)>, readBufferSize: nat)
    requires d.still && d.Valid() && d.Accounted([]) && readBufferSize <= READ_BUF_LEN
    requires Consistent(d.M()) && History(d.M(), steps)
    modifies d
    ensures d.Valid()
    ensures !d.exited ==> Consistent(d.M()) && d.M() == Outcome(old(d.M()), steps) && d.handled == d.log
    ensures d.exited ==> Outcome(old(d.M()), steps).exited || TooSmall(readBufferSize)
  {
    hide Inv, RefRun, OpOk, After, Consistent, Outcome;
    var j := 0;
    AtRest(d.M());
    assert steps[0..] == steps;
    while j < |steps| && !d.exited
      invariant 0 <= j <= |steps| && d.Valid()
      invariant !d.exited ==> d.Accounted([]) && Consistent(d.M()) && History(d.M(), steps[j..])
      invariant !d.exited ==> Outcome(d.M(), steps[j..]) == Outcome(old(d.M()), steps)
      invariant d.exited ==> Outcome(old(d.M()), steps).exited || TooSmall(readBufferSize)
    {
      ghost var before, rest := d.M(), steps[j..];
      assert rest[0] == steps[j] && rest[1..] == steps[j + 1..];
      Round(before, rest);
      AtRest(before);
      d.kernel := steps[j].1;
      d.log := d.log + d.kernel.queue;
      assert d.handled + [] + [] == d.handled;
      d.Drain(readBufferSize);
      OutcomeEnds(RefRun(before.(k := steps[j].1)), rest[1..]);
      j := j + 1;
    }
    if !d.exited {
      AtRest(d.M());
      OutcomeEnds(d.M(), steps[j..]);
      assert d.handled + [] + [] == d.handled;
    }
  }

  /** What is needed of one round. */
  lemma Round(m: Monitor, steps: seq<(Op, Kernel)>)
    requires Consistent(m) && History(m, steps) && steps != []
    ensures Inv(m.(k := steps[0].1))
    ensures var r := RefRun(m.(k := steps[0].1));
            && (!r.exited ==> Consistent(r)) && History(r, steps[1..])
            && Outcome(m, steps) == Outcome(r, steps[1..])
  {
    AtRest(m);
    OpKeepsInv(m, steps[0].0, steps[0].1);
    OpKeepsConsistent(m, steps[0].0, steps[0].1);
    OutcomeStep(m, steps);
    hide *;
    HistoryStep(m, steps);
  }

  lemma HistoryStep(m: Monitor, steps: seq<(Op, Kernel)>)
    requires History(m, steps) && steps != []
    ensures History(RefRun(m.(k := steps[0].1)), steps[1..])
  {
    hide RefRun, OpOk, After;
  }

  /** The whole program: set up over the given directories while the tree is still, then any history
      of operations. */
  method RunProgram(dirs: seq<Path>, k: Kernel, steps: seq<(Op, Kernel)>, readBufferSize: nat) returns (d: DirMonitor)
    requires KernelOk(k) && dirs != [] && readBufferSize <= READ_BUF_LEN
    requires forall e :: e in k.tree ==> exists r :: r in dirs && AtOrBelow(e.path, r)
    requires var m := Reinitialize(Monitor([], AllRoots(dirs), k, false)); !m.exited ==> History(m, steps)
    ensures d.Valid()
    ensures !d.exited ==> Consistent(d.M())
    ensures d.exited ==>
      var m := Reinitialize(Monitor([], AllRoots(dirs), k, false));
      TooSmall(readBufferSize) || Outcome(m, steps).k.nextWd >= WD_LIMIT
  {
    hide Inv, RefRun, Reinitialize, History, Consistent, Outcome, KernelOk;
    ghost var m0 := Monitor([], AllRoots(dirs), k, false);
    AllBelow(dirs, k.tree);
    ReinitializeConsistent(m0);
    ghost var m := Reinitialize(m0);
    d := new DirMonitor(true, dirs, k);
    if d.exited {
      OutcomeEnds(m, steps);
    } else {
      HistoryKeepsConsistent(m, steps);
      Follow(d, steps, readBufferSize);
    }
  }

  lemma {:induction false} RootsOf(dirs: seq<Path>, r: Path)
    ensures Some(r) in AllRoots(dirs) <==> r in dirs
  {
    if dirs != [] {
      RootsOf(dirs[1..], r);
    }
  }

  lemma AllBelow(dirs: seq<Path>, tree: seq<Dir>)
    requires forall e :: e in tree ==> exists r :: r in dirs && AtOrBelow(e.path, r)
    ensures BelowRoots(tree, AllRoots(dirs)) == Dirs(tree)
  {
    forall e | e in tree ensures exists r :: r in AllRoots(dirs) && r.Some? && AtOrBelow(e.path, r.value) {
      var r :| r in dirs && AtOrBelow(e.path, r);
      RootsOf(dirs, r);
      assert Some(r) in AllRoots(dirs);
    }
  }
}

/** The whole event stream processed with one event of lookahead and no buffer: the
    reference for the buffered loop of processInotifyEvents. */
module DtreeStream {
  import opened Wrappers
  import opened Paths
  import opened Inotify
  import opened DtreeSpec

  function WithQueue(m: Monitor, q: seq<Event>): Monitor {
    m.(k := m.k.(queue := q))
  }

  /** The same program with some events still in front of its queue. */
  function Prefixed(m: Monitor, pre: seq<Event>): Monitor {
    WithQueue(m, pre + m.k.queue)
  }

  function NextOf(q: seq<Event>): Option<Event> {
    if |q| > 1 then Some(q[1]) else None
  }

  predicate Idle(m: Monitor) {
    m.exited || m.k.queue == []
  }

  /** Takes the first event, or the first two if they are the halves of a rename. */
  function RefStep(m: Monitor): Monitor {
    if Idle(m) then m
    else
      var q := m.k.queue;
      match Handle(WithQueue(m, []), q[0], NextOf(q), false)
      case (m', One) => Prefixed(m', q[1..])
      case (m', Two) => Prefixed(m', if |q| > 1 then q[2..] else [])
      case (m', _) => m'
  }

  function RefSteps(m: Monitor, n: nat): Monitor {
    if n == 0 then m else RefStep(RefSteps(m, n - 1))
  }

  /** The whole stream, to the last event. */
  function RefRun(m: Monitor): Monitor
    decreases Weight(m.k.queue), |m.k.queue|
  {
    if Idle(m) then m
    else
      RefStepProgress(m);
      RefRun(RefStep(m))
  }

  // ---------------------------------------------------------------------
  // Progress: handling an event queues nothing but "ignored" notices
  // ---------------------------------------------------------------------

  lemma {:induction false} WatchAllQueue(m: Monitor, paths: seq<Path>)
    ensures WatchAll(m, paths).k.queue == m.k.queue
    decreases |paths|
  {
    if paths != [] && !m.exited {
      WatchAllQueue(Traverse(m, paths[0]), paths[1..]);
    }
  }

  lemma {:induction false} WatchRootsQueue(m: Monitor, roots: seq<Option<Path>>)
    ensures WatchRoots(m, roots).k.queue == m.k.queue
    decreases |roots|
  {
    if roots != [] && !m.exited {
      if roots[0].Some? {
        WatchAllQueue(m, Listing(m.k.tree, roots[0].value));
        WatchRootsQueue(WatchSubtree(m, roots[0].value), roots[1..]);
      } else {
        WatchRootsQueue(m, roots[1..]);
      }
    }
  }

  lemma {:induction false} ZapFromWeight(m: Monitor, base: Path, j: nat)
    requires j <= |m.slots|
    ensures Weight(ZapFrom(m, base, j).0.k.queue) == Weight(m.k.queue)
    decreases |m.slots| - j
  {
    if j < |m.slots| {
      var (k', ok) := RmWatch(m.k, m.slots[j].wd);
      RmWatchWork(m.k, m.slots[j].wd);
      if !Doomed(m.slots[j], base) {
        ZapFromWeight(m, base, j + 1);
      } else if ok {
        ZapFromWeight(m.(k := k', slots := m.slots[j := FREE]), base, j + 1);
      }
    }
  }

  ghost predicate Quieter(m: Monitor, r: (Monitor, Verdict)) {
    Weight(r.0.k.queue) <= Weight(m.k.queue) && (r.1 == Discard ==> r.0.k.queue == [])
  }

  lemma ReinitializeQuieter(m: Monitor)
    ensures Quieter(m, (Reinitialize(m), Discard))
  {
    WatchRootsQueue(m.(k := NewInstance(m.k), slots := []), m.roots);
  }

  lemma ZapOrRebuildQuieter(m: Monitor, base: Path)
    ensures Quieter(m, ZapOrRebuild(m, base))
  {
    ZapFromWeight(m, base, 0);
    ReinitializeQuieter(Zap(m, base).0);
  }

  lemma HandleAtQuieter(m: Monitor, j: nat, ev: Event, next: Option<Event>, firstTry: bool)
    requires j < |m.slots|
    ensures Quieter(m, HandleAt(m, j, ev, next, firstTry))
  {
    hide Has, Join, Listing;
    var path := m.slots[j].path;
    if Arrival(ev) {
      WatchAllQueue(m, Listing(m.k.tree, Join(path, ev.name)));
    } else if Has(ev, IN_DELETE_SELF) {
    } else if DirMovedFrom(ev) {
      ReinitializeQuieter(m);
      ZapOrRebuildQuieter(m, Join(path, ev.name));
    } else if Has(ev, IN_Q_OVERFLOW) {
      ReinitializeQuieter(m);
    } else if Has(ev, IN_UNMOUNT) {
    } else if Has(ev, IN_MOVE_SELF) {
      ZapOrRebuildQuieter(DropRoot(m, path), path);
    }
  }

  lemma HandleQuieter(m: Monitor, ev: Event, next: Option<Event>, firstTry: bool)
    ensures Quieter(m, Handle(m, ev, next, firstTry))
    ensures Has(ev, IN_IGNORED) && Handle(m, ev, next, firstTry).1 != Discard ==>
              Handle(m, ev, next, firstTry) == (m, One)
  {
    ReinitializeQuieter(m);
    var j := FindWatch(m.slots, ev.wd);
    if NeedsSlot(ev) && j >= 0 {
      HandleAtQuieter(m, j, ev, next, firstTry);
    }
  }

  lemma RefStepProgress(m: Monitor)
    requires !Idle(m)
    ensures var q, q' := m.k.queue, RefStep(m).k.queue;
            Weight(q') < Weight(q) || (Weight(q') == Weight(q) && |q'| < |q|)
  {
    var q := m.k.queue;
    var (m', v) := Handle(WithQueue(m, []), q[0], NextOf(q), false);
    HandleQuieter(WithQueue(m, []), q[0], NextOf(q), false);
    WeightAppend(q[1..], m'.k.queue);
    if |q| > 1 {
      WeightAppend(q[2..], m'.k.queue);
      assert Weight(q[2..]) <= Weight(q[1..]) by { assert q[1..][1..] == q[2..]; }
    }
  }

  lemma {:induction false} StepsThenRun(m: Monitor, n: nat)
    ensures RefRun(RefSteps(m, n)) == RefRun(m)
  {
    if n > 0 {
      StepsThenRun(m, n - 1);
    }
  }

  // ---------------------------------------------------------------------
  // Handling an event does not look at the queue
  // ---------------------------------------------------------------------

  lemma {:induction false} WatchAllPrefix(m: Monitor, pre: seq<Event>, paths: seq<Path>)
    ensures WatchAll(Prefixed(m, pre), paths) == Prefixed(WatchAll(m, paths), pre)
    decreases |paths|
  {
    if paths != [] && !m.exited {
      assert Traverse(Prefixed(m, pre), paths[0]) == Prefixed(Traverse(m, paths[0]), pre);
      WatchAllPrefix(Traverse(m, paths[0]), pre, paths[1..]);
    }
  }

  lemma {:induction false} ZapFromPrefix(m: Monitor, pre: seq<Event>, base: Path, j: nat)
    requires j <= |m.slots|
    ensures ZapFrom(Prefixed(m, pre), base, j) ==
            (Prefixed(ZapFrom(m, base, j).0, pre), ZapFrom(m, base, j).1)
    decreases |m.slots| - j
  {
    if j < |m.slots| {
      var wd := m.slots[j].wd;
      var (k', ok) := RmWatch(m.k, wd);
      if !Doomed(m.slots[j], base) {
        ZapFromPrefix(m, pre, base, j + 1);
      } else if ok {
        var m' := m.(k := k', slots := m.slots[j := FREE]);
        var p' := Prefixed(m, pre).(k := RmWatch(Prefixed(m, pre).k, wd).0, slots := m.slots[j := FREE]);
        assert p'.k.queue == pre + m'.k.queue;
        assert p' == Prefixed(m', pre);
        ZapFromPrefix(m', pre, base, j + 1);
      }
    }
  }

  ghost predicate SameButPrefix(r: (Monitor, Verdict), r': (Monitor, Verdict), pre: seq<Event>) {
    r'.1 == r.1 && r'.0 == if r.1 == Discard then r.0 else Prefixed(r.0, pre)
  }

  lemma ZapOrRebuildPrefix(m: Monitor, pre: seq<Event>, base: Path)
    ensures SameButPrefix(ZapOrRebuild(m, base), ZapOrRebuild(Prefixed(m, pre), base), pre)
  {
    ZapFromPrefix(m, pre, base, 0);
  }

  lemma ReinitializePrefix(m: Monitor, pre: seq<Event>)
    ensures Reinitialize(Prefixed(m, pre)) == Reinitialize(m)
  {
  }

  lemma MovedFromPrefix(m: Monitor, pre: seq<Event>, path: Path, ev: Event, next: Option<Event>, firstTry: bool)
    ensures SameButPrefix(HandleMovedFrom(m, path, ev, next, firstTry),
                          HandleMovedFrom(Prefixed(m, pre), path, ev, next, firstTry), pre)
  {
    hide Matches, Rewrite, Reinitialize, Join, ZapOrRebuild;
    ReinitializePrefix(m, pre);
    ZapOrRebuildPrefix(m, pre, Join(path, ev.name));
  }

  lemma DropRootPrefix(m: Monitor, pre: seq<Event>, path: Path)
    ensures DropRoot(Prefixed(m, pre), path) == Prefixed(DropRoot(m, path), pre)
  {
  }

  lemma MoveSelfPrefix(m: Monitor, pre: seq<Event>, path: Path)
    ensures SameButPrefix(HandleMoveSelf(m, path), HandleMoveSelf(Prefixed(m, pre), path), pre)
  {
    hide DropRoot, ZapOrRebuild;
    DropRootPrefix(m, pre, path);
    ZapOrRebuildPrefix(DropRoot(m, path), pre, path);
  }

  lemma HandleAtPrefix(m: Monitor, pre: seq<Event>, j: nat, ev: Event, next: Option<Event>, firstTry: bool)
    requires j < |m.slots|
    ensures SameButPrefix(HandleAt(m, j, ev, next, firstTry), HandleAt(Prefixed(m, pre), j, ev, next, firstTry), pre)
  {
    hide Has, Join, Listing, HandleMovedFrom, HandleMoveSelf, Reinitialize, DropRoot, WatchAll;
    var path := m.slots[j].path;
    WatchAllPrefix(m, pre, Listing(m.k.tree, Join(path, ev.name)));
    DropRootPrefix(m, pre, path);
    MovedFromPrefix(m, pre, path, ev, next, firstTry);
    ReinitializePrefix(m, pre);
    MoveSelfPrefix(m, pre, path);
  }

  lemma HandlePrefix(m: Monitor, pre: seq<Event>, ev: Event, next: Option<Event>, firstTry: bool)
    ensures SameButPrefix(Handle(m, ev, next, firstTry), Handle(Prefixed(m, pre), ev, next, firstTry), pre)
  {
    var j := FindWatch(m.slots, ev.wd);
    if NeedsSlot(ev) && j >= 0 {
      HandleAtPrefix(m, pre, j, ev, next, firstTry);
    }
  }

  /** What the buffer does not show matters only for a "moved from" at its very end, which
      is put off. */
  lemma Lookahead(m: Monitor, ev: Event, next: Option<Event>, next': Option<Event>, firstTry: bool)
    requires next == next' || (next == None && firstTry)
    ensures Handle(m, ev, next, firstTry).1 != NeedMore ==>
              Handle(m, ev, next, firstTry) == Handle(m, ev, next', false)
    ensures Handle(m, ev, next, firstTry).1 == NeedMore ==>
              next == None && firstTry && Handle(m, ev, next, firstTry).0 == m
    ensures Handle(m, ev, next, firstTry).1 == Two ==> next.Some?
  {
  }

  /** Events left in front after a step with the given verdict. */
  function Left(v: Verdict, q: seq<Event>): seq<Event>
    requires q != []
  {
    match v
    case One => q[1..]
    case Two => if |q| > 1 then q[2..] else []
    case Discard => []
    case NeedMore => q
  }

  lemma LeftSmaller(v: Verdict, q: seq<Event>)
    requires q != [] && v != NeedMore
    ensures forall ev :: ev in Left(v, q) ==> ev in q
    ensures |Left(v, q)| < |q| && Weight(Left(v, q)) <= Weight(q)
    ensures !Has(q[0], IN_IGNORED) ==> Weight(Left(v, q)) < Weight(q)
  {
    if v == Two && |q| > 1 {
      assert q[1..][1..] == q[2..];
    }
  }

  /** One step of the buffered program, whose buffer still holds `pending` and whose kernel
      queue holds the rest, is one step of the reference, unless it asks to read on first.
      The buffer may end after the event only if that event is being tried for the first
      time or nothing more is queued. */
  lemma BufferedStep(m: Monitor, pending: seq<Event>, firstTry: bool)
    requires pending != [] && !m.exited
    requires |pending| == 1 && !firstTry ==> m.k.queue == []
    ensures var (m', v) := Handle(m, pending[0], NextOf(pending), firstTry);
            && (v == NeedMore ==> |pending| == 1 && firstTry && m' == m)
            && (v == Two ==> |pending| > 1)
            && (v != NeedMore ==> RefStep(Prefixed(m, pending)) == Prefixed(m', Left(v, pending)))
  {
    hide Handle, RefStep;
    var ev, next := pending[0], NextOf(pending);
    var rest := m.k.queue;
    var q := pending + rest;
    var empty := WithQueue(m, []);
    assert Prefixed(empty, rest) == m;
    assert Prefixed(m, pending) == WithQueue(m, q) && WithQueue(WithQueue(m, q), []) == empty;
    HandlePrefix(empty, rest, ev, next, firstTry);
    Lookahead(empty, ev, next, NextOf(q), firstTry);
    Lookahead(m, ev, next, NextOf(q), firstTry);
    var (m0, v) := Handle(empty, ev, next, firstTry);
    if v != NeedMore {
      assert Handle(empty, q[0], NextOf(q), false) == (m0, v);
      StepIs(m, q, m0, v);
      assert Left(v, pending) + (rest + m0.k.queue) == Left(v, q) + m0.k.queue || v == Discard;
    }
  }

  lemma StepIs(m: Monitor, q: seq<Event>, m0: Monitor, v: Verdict)
    requires q != [] && !m.exited
    requires (m0, v) == Handle(WithQueue(m, []), q[0], NextOf(q), false)
    ensures v != NeedMore
    ensures RefStep(WithQueue(m, q)) == Prefixed(m0, Left(v, q))
  {
    Lookahead(WithQueue(m, []), q[0], NextOf(q), NextOf(q), false);
    assert WithQueue(WithQueue(m, q), []) == WithQueue(m, []);
    assert [] + m0.k.queue == m0.k.queue;
  }
}

/** inotify_dtree.c as it runs: the cache array and the root list are updated in place, and
    before every system call other processes may do anything to the tree. */
module DtreeMonitor {
  import opened Wrappers
  import opened Paths
  import opened Inotify
  import opened DtreeSpec
  import opened DtreeStream
  import opened Bytes

  /** The argument of zapSubtree: a string of its own, or a pointer to the pathname stored
      in a cache slot. */
  datatype PathArg = Text(s: Path) | Cached(slot: nat)

  datatype Command = AddCmd(path: Path) | ZapCmd(path: Path) | RebuildCmd

  function Unmonitored(roots: seq<Option<Path>>): nat {
    if roots == [] then 0 else (if roots[0].None? then 1 else 0) + Unmonitored(roots[1..])
  }

  lemma {:induction false} AllUnmonitored(roots: seq<Option<Path>>)
    ensures Unmonitored(roots) <= |roots|
    ensures Unmonitored(roots) == |roots| <==> forall r :: r in roots ==> r == None
  {
    if roots != [] {
      AllUnmonitored(roots[1..]);
      assert roots[0] in roots && forall r :: r in roots <==> r == roots[0] || r in roots[1..];
    }
  }

  /** The root list made from the command line: no root is given up yet. */
  function AllRoots(dirs: seq<Path>): (r: seq<Option<Path>>)
    ensures Unmonitored(r) == 0
  {
    if dirs == [] then [] else [Some(dirs[0])] + AllRoots(dirs[1..])
  }

  lemma {:induction false} DropFirstIs(roots: seq<Option<Path>>, j: nat, path: Path)
    requires j < |roots| && roots[j] == Some(path)
    requires forall i :: 0 <= i < j ==> roots[i] != Some(path)
    ensures DropFirst(roots, path) == roots[j := None]
  {
    hide Unmonitored;
    if j == 0 {
      assert roots[0 := None] == [None] + roots[1..];
    } else {
      DropFirstIs(roots[1..], j - 1, path);
      assert roots[j := None] == [roots[0]] + roots[1..][j - 1 := None];
    }
  }

  lemma {:induction false} OneMoreUnmonitored(roots: seq<Option<Path>>, j: nat)
    requires j < |roots| && roots[j].Some?
    ensures Unmonitored(roots[j := None]) == Unmonitored(roots) + 1
  {
    if j == 0 {
      assert roots[0 := None] == [None] + roots[1..];
    } else {
      OneMoreUnmonitored(roots[1..], j - 1);
      assert roots[j := None] == [roots[0]] + roots[1..][j - 1 := None];
    }
  }

  // ---------------------------------------------------------------------
  // What an event does to slots and roots
  // ---------------------------------------------------------------------

  /** Exactly the live slots at or below the pathname are empty now. */
  ghost predicate Emptied(slots: seq<Slot>, base: Path, slots': seq<Slot>) {
    |slots'| == |slots| && forall n :: 0 <= n < |slots| ==>
      slots'[n] == if slots[n].wd >= 0 && AtOrBelow(slots[n].path, base) then FREE else slots[n]
  }

  /** The first of the roots with that pathname is struck out. */
  ghost predicate Struck(roots: seq<Option<Path>>, path: Path, roots': seq<Option<Path>>) {
    exists i :: StruckAt(roots, path, roots', i)
  }

  ghost predicate StruckAt(roots: seq<Option<Path>>, path: Path, roots': seq<Option<Path>>, i: int) {
    && 0 <= i < |roots| && roots[i] == Some(path) && (forall k :: 0 <= k < i ==> roots[k] != Some(path))
    && roots' == roots[i := None]
  }

  /** An overflow, or an event of a watch that no slot holds, which is not an "ignored" notice. */
  ghost predicate Lost(slots: seq<Slot>, ev: Event) {
    ev.wd == -1 || (!Has(ev, IN_IGNORED) && forall j :: 0 <= j < |slots| ==> slots[j].wd != ev.wd)
  }

  // ---------------------------------------------------------------------
  // Events in a byte buffer
  // ---------------------------------------------------------------------

  datatype ReadResult = Got(n: nat) | Interrupted | BadSize

  /** From offset evp the buffer holds exactly the events `pending`, and numRead is where
      they end -- or, after a read that was interrupted, one byte too little. */
  ghost predicate Holds(b: seq<Byte>, evp: nat, numRead: int, pending: seq<Event>) {
    if pending == [] then numRead <= evp
    else
      var end := evp + SizeAll(pending);
      && (forall ev :: ev in pending ==> Wellformed(ev))
      && end <= |b| && b[evp..end] == EncodeAll(pending)
      && (numRead == end || (numRead == end - 1 && |pending| == 1))
  }

  lemma SizeOfOne(ev: Event)
    ensures SizeAll([ev]) == Size(ev)
    ensures Wellformed(ev) ==> EncodeAll([ev]) == EncodeEvent(ev)
  {
    assert [ev][1..] == [];
  }

  lemma Split<T>(b: seq<T>, i: nat, x: seq<T>, y: seq<T>)
    requires i + |x| + |y| <= |b| && b[i..i + |x| + |y|] == x + y
    ensures b[i..i + |x|] == x && b[i + |x|..i + |x| + |y|] == y
    ensures b[i..] == x + b[i + |x|..]
  {
    var c := b[i..i + |x| + |y|];
    assert c[..|x|] == x && c[|x|..] == y;
    assert b[i..i + |x|] == c[..|x|];
    assert b[i + |x|..i + |x| + |y|] == c[|x|..];
  }

  lemma EventAt(b: seq<Byte>, evp: nat, pending: seq<Event>)
    requires pending != [] && forall ev :: ev in pending ==> Wellformed(ev)
    requires evp + SizeAll(pending) <= |b|
    requires b[evp..evp + SizeAll(pending)] == EncodeAll(pending)
    ensures EncodeEvent(pending[0]) <= b[evp..]
    ensures evp + Size(pending[0]) + SizeAll(pending[1..]) <= |b|
    ensures b[evp + Size(pending[0])..evp + Size(pending[0]) + SizeAll(pending[1..])] == EncodeAll(pending[1..])
  {
    hide EncodeEvent;
    Split(b, evp, EncodeEvent(pending[0]), EncodeAll(pending[1..]));
  }

  /** The structure at evp, and the one after it if that lies below the limit. */
  method EventsAt(buf: array<Byte>, evp: nat, numRead: int, ghost pending: seq<Event>)
    returns (ev: Event, next: Option<Event>)
    requires pending != [] && Holds(buf[..], evp, numRead, pending)
    ensures ev == pending[0] && next == NextOf(pending)
    ensures SizeAll(pending) == Size(ev) + SizeAll(pending[1..])
    ensures next.Some? ==> SizeAll(pending[1..]) == Size(next.value) + SizeAll(pending[2..])
    ensures Holds(buf[..], evp + Size(ev), numRead, pending[1..])
    ensures next.Some? ==> Holds(buf[..], evp + Size(ev) + Size(next.value), numRead, pending[2..])
  {
    hide EncodeEvent, DecodeEvent, Decode, Wellformed;
    EventAt(buf[..], evp, pending);
    DecodeEncode(pending[0], buf[evp..]);
    ev := DecodeEvent(buf[evp..]);
    next := None;
    if evp + Size(ev) < numRead {
      EventAt(buf[..], evp + Size(ev), pending[1..]);
      assert pending[1..][1..] == pending[2..];
      DecodeEncode(pending[1], buf[evp + Size(ev)..]);
      next := Some(DecodeEvent(buf[evp + Size(ev)..]));
    }
  }

  method CopyOut(buf: array<Byte>, off: nat, bytes: seq<Byte>)
    requires off + |bytes| <= buf.Length
    modifies buf
    ensures buf[..off] == old(buf[..off])
    ensures buf[off..off + |bytes|] == bytes
  {
    forall i | 0 <= i < |bytes| {
      buf[off + i] := bytes[i];
    }
    assert buf[off..off + |bytes|] == bytes;
  }

  // ---------------------------------------------------------------------
  // The events of an instance
  // ---------------------------------------------------------------------

  /** The same events have been added to the queue and to the log. */
  ghost predicate Appended(q: seq<Event>, log: seq<Event>, q': seq<Event>, log': seq<Event>) {
    log <= log' && q' == q + log'[|log|..]
  }

  /** The kernel a while later, when nothing has been read from the instance meanwhile. */
  ghost predicate Onward(k: Kernel, log: seq<Event>, k': Kernel, log': seq<Event>) {
    Later(k, k') && Work(k') <= Work(k) && Appended(k.queue, log, k'.queue, log')
  }

  lemma OnwardReflexive(k: Kernel, log: seq<Event>)
    ensures Onward(k, log, k, log)
  {
    assert k.queue + log[|log|..] == k.queue;
  }

  lemma AppendedTransitive(q: seq<Event>, l: seq<Event>, q1: seq<Event>, l1: seq<Event>, q2: seq<Event>, l2: seq<Event>)
    requires Appended(q, l, q1, l1) && Appended(q1, l1, q2, l2)
    ensures Appended(q, l, q2, l2)
  {
    assert l2[|l|..] == l1[|l|..] + l2[|l1|..];
  }

  lemma OnwardTransitive(k: Kernel, l: seq<Event>, k1: Kernel, l1: seq<Event>, k2: Kernel, l2: seq<Event>)
    requires Onward(k, l, k1, l1) && Onward(k1, l1, k2, l2)
    ensures Onward(k, l, k2, l2)
  {
    hide Work;
    LaterTransitive(k, k1, k2);
    hide Later;
    AppendedTransitive(k.queue, l, k1.queue, l1, k2.queue, l2);
  }

  lemma OnwardByOthers(k: Kernel, log: seq<Event>, k': Kernel)
    requires EnvStep(k, k')
    ensures Onward(k, log, k', log + k'.queue[|k.queue|..])
  {
    EnvStepIsLater(k, k');
    EnvStepWork(k, k');
    hide Later, Work;
  }

  lemma OnwardByAdding(k: Kernel, log: seq<Event>, path: Path)
    requires KernelOk(k)
    ensures Onward(k, log, AddWatch(k, path).0, log)
  {
    AddWatchOk(k, path);
    hide Later, Work;
    assert k.queue + log[|log|..] == k.queue;
  }

  /** The notice that the removal of a watch queues. */
  function Notice(k: Kernel, wd: int): seq<Event> {
    if RmWatch(k, wd).1 then [Event(wd, IN_IGNORED, 0, 0, "")] else []
  }

  lemma OnwardByRemoving(k: Kernel, log: seq<Event>, wd: int)
    requires KernelOk(k)
    ensures Onward(k, log, RmWatch(k, wd).0, log + Notice(k, wd))
  {
    RmWatchOk(k, wd);
    RmWatchWork(k, wd);
    hide Later, Work;
    assert k.queue + [] == k.queue;
  }

  lemma OnwardParts(k: Kernel, log: seq<Event>, k': Kernel, log': seq<Event>)
    requires Onward(k, log, k', log')
    ensures Later(k, k') && Work(k') <= Work(k) && Appended(k.queue, log, k'.queue, log') && k'.inst == k.inst
  {
  }

  /** Nothing that was handled or logged is taken back. */
  ghost predicate Continued(handled: seq<Event>, log: seq<Event>, handled': seq<Event>, log': seq<Event>) {
    handled <= handled' && log <= log'
  }

  /** The events that a verdict disposes of. */
  function Done(v: Verdict, pending: seq<Event>): seq<Event>
    requires pending != []
  {
    match v
    case One => [pending[0]]
    case Two => if |pending| > 1 then pending[..2] else pending
    case _ => []
  }

  /** Handled events move from the buffer to the account, new ones to the end of the queue. */
  lemma Disposed(handled: seq<Event>, pending: seq<Event>, v: Verdict, q: seq<Event>, log: seq<Event>,
              q': seq<Event>, log': seq<Event>)
    requires pending != [] && (v == One || (v == Two && |pending| > 1))
    requires handled + pending + q == log && Appended(q, log, q', log')
    ensures handled + Done(v, pending) + Left(v, pending) + q' == log'
  {
    assert Done(v, pending) + Left(v, pending) == pending;
    assert handled + Done(v, pending) + Left(v, pending) == handled + pending;
    assert handled + pending + q' == handled + pending + q + log'[|log|..] == log';
  }

  lemma Refilled(handled: seq<Event>, ev: Event, q: seq<Event>, log: seq<Event>,
                 pending: seq<Event>, q': seq<Event>, log': seq<Event>)
    requires handled + [ev] + q == log && Appended([ev] + q, log, pending + q', log')
    ensures handled + pending + q' == log' && log <= log'
  {
    assert handled + pending + q' == handled + (pending + q') == handled + [ev] + q + log'[|log|..] == log';
  }

  lemma FirstRead(handled: seq<Event>, q: seq<Event>, log: seq<Event>, pending: seq<Event>, q': seq<Event>, log': seq<Event>)
    requires handled + [] + q == log && Appended(q, log, pending + q', log')
    ensures handled + pending + q' == log' && log <= log'
  {
    assert handled + pending + q' == handled + (pending + q') == handled + [] + q + log'[|log|..] == log';
  }

  lemma StillAccounted(handled: seq<Event>, k: Kernel, log: seq<Event>, k': Kernel, log': seq<Event>)
    requires Onward(k, log, k', log') && handled + [] + k.queue == log
    ensures handled + [] + k'.queue == log' && log <= log' && k'.inst == k.inst
  {
    assert handled + [] + k'.queue == handled + [] + k.queue + log'[|log|..] == log';
  }

  /** What the interactive commands do. */
  function Commanded(m: Monitor, cmd: Command): Monitor {
    match cmd
    case AddCmd(path) => WatchSubtree(Zap(m, path).0, path)
    case ZapCmd(path) => Zap(m, path).0
    case RebuildCmd => Reinitialize(m)
  }

  lemma Behind(ev: Event, q: seq<Event>, log: seq<Event>, evs: seq<Event>, q': seq<Event>, log': seq<Event>)
    requires Appended(q, log, evs + q', log')
    ensures Appended([ev] + q, log, [ev] + evs + q', log')
  {
    assert [ev] + evs + q' == [ev] + (evs + q') == [ev] + q + log'[|log|..];
  }

  /** Less is left in kernel and buffer: by weight, then by number. */
  ghost predicate Less(k: Kernel, pending: seq<Event>, k': Kernel, pending': seq<Event>) {
    || Work(k') + Weight(pending') < Work(k) + Weight(pending)
    || (Work(k') + Weight(pending') == Work(k) + Weight(pending)
        && k'.future + |k'.queue| + |pending'| < k.future + |k.queue| + |pending|)
  }

  ghost predicate NoMore(k: Kernel, pending: seq<Event>, k': Kernel, pending': seq<Event>) {
    || Less(k, pending, k', pending')
    || (Work(k') + Weight(pending') == Work(k) + Weight(pending)
        && k'.future + |k'.queue| + |pending'| == k.future + |k.queue| + |pending|)
  }

  /** Progress of the loop: less is left, or the same and the second try is due. */
  ghost predicate Nearer(k: Kernel, pending: seq<Event>, firstTry: bool, k': Kernel, pending': seq<Event>, firstTry': bool) {
    Less(k, pending, k', pending') || (NoMore(k, pending, k', pending') && firstTry && !firstTry')
  }

  lemma NearerByStep(k: Kernel, pending: seq<Event>, firstTry: bool, k': Kernel, v: Verdict)
    requires pending != [] && v != NeedMore && Work(k') <= Work(k)
    requires Has(pending[0], IN_IGNORED) ==> k' == k
    ensures Nearer(k, pending, firstTry, k', Left(v, pending), true)
  {
    hide Weight, Work, Has;
    LeftSmaller(v, pending);
  }

  lemma NearerByRefill(k: Kernel, ev: Event, k': Kernel, pending': seq<Event>)
    requires Work(k') + Weight(pending') <= Work(k) + Weight([ev])
    requires k'.future + |k'.queue| + |pending'| <= k.future + |k.queue| + 1
    ensures Nearer(k, [ev], true, k', pending', false)
  {
    hide Weight, Work;
  }

  lemma LogGrows(q: seq<Event>, log: seq<Event>, q': seq<Event>, log': seq<Event>)
    requires Appended(q, log, q', log')
    ensures log <= log'
  {
  }

  lemma NewInstanceWork(k: Kernel)
    ensures Work(NewInstance(k)) <= Work(k)
  {
  }

  /** A read size, set by option, with which read() may refuse an event. */
  predicate TooSmall(readBufferSize: nat) {
    0 < readBufferSize < HEADER + NAME_MAX + 1
  }

  lemma ExitedForGood(m: Monitor)
    ensures m.exited ==> RefRun(m) == m
  {
  }

  lemma NoMoreEvents(k: Kernel, k': Kernel)
    requires EnvStep(k, k')
    ensures k'.future + |k'.queue| <= k.future + |k.queue|
  {
  }

  lemma FirstFits(m: Monitor)
    requires Inv(m) && m.k.queue != []
    ensures Size(m.k.queue[0]) <= HEADER + NAME_MAX + 1
  {
    assert m.k.queue[0] in m.k.queue;
  }

  /** A loop that has come to the end of what was read has come to the end of the events. */
  lemma HoldsTo(b: seq<Byte>, evp: nat, numRead: int, pending: seq<Event>)
    requires Holds(b, evp, numRead, pending)
    ensures evp < numRead <==> pending != []
  {
  }

  lemma HoldsOne(b: seq<Byte>, evp: nat, numRead: int, ev: Event)
    requires Holds(b, evp, numRead, [ev])
    ensures Wellformed(ev) && evp + Size(ev) <= |b| && b[evp..evp + Size(ev)] == EncodeAll([ev])
  {
    SizeOfOne(ev);
  }

  /** The postponed event and what was read behind it. */
  lemma HoldsJoined(b: seq<Byte>, ev: Event, evs: seq<Event>, n: nat)
    requires Wellformed(ev) && (forall e :: e in evs ==> Wellformed(e)) && n == SizeAll(evs) && evs != []
    requires Size(ev) + n <= |b| && b[..Size(ev)] == EncodeAll([ev]) && b[Size(ev)..Size(ev) + n] == EncodeAll(evs)
    ensures Holds(b, 0, Size(ev) + n, [ev] + evs)
  {
    hide EncodeEvent, Wellformed;
    SizeOfOne(ev);
    EncodeAllAppend([ev], evs);
    assert b[0..Size(ev) + n] == b[..Size(ev)] + b[Size(ev)..Size(ev) + n];
  }

  lemma HoldsAlone(b: seq<Byte>, ev: Event)
    requires Wellformed(ev) && Size(ev) <= |b| && b[..Size(ev)] == EncodeAll([ev])
    ensures Holds(b, 0, Size(ev) - 1, [ev])
  {
    SizeOfOne(ev);
    assert b[0..Size(ev)] == b[..Size(ev)];
  }

  lemma KernelIsOk(m: Monitor)
    requires Inv(m)
    ensures KernelOk(m.k)
  {
  }

  lemma OnwardKeepsEqual(k: Kernel, log: seq<Event>, k': Kernel, log': seq<Event>)
    requires Onward(k, log, k', log')
    ensures k'.inst == k.inst && (log == k.queue ==> log' == k'.queue) && Work(k') <= Work(k)
  {
  }

  /** The size_t that processNextInotifyEvent returns, as the caller's int. */
  function Consumed(v: Verdict, ev: Event, next: Option<Event>): int {
    match v
    case One => Size(ev)
    case Two => Size(ev) + (if next.Some? then Size(next.value) else 0)
    case Discard => READ_BUF_LEN
    case NeedMore => -1
  }

  class DirMonitor {
    /** Whether all other processes keep still; then everything is determined. */
    const still: bool

    var slots: seq<Slot>
    var roots: seq<Option<Path>>
    var ignoreRootDirs: nat
    var kernel: Kernel
    var exited: bool

    /** All events queued on the current inotify instance, and those of them that have been
        handled. */
    ghost var log: seq<Event>
    ghost var handled: seq<Event>

    ghost function M(): Monitor
      reads this
    {
      Monitor(slots, roots, kernel, exited)
    }

    ghost predicate Valid()
      reads this
    {
      Inv(M()) && ignoreRootDirs == Unmonitored(roots)
    }

    /** Every event of the instance has been handled, is in the buffer or is queued: in this
        order, none missing and none twice. */
    ghost predicate Accounted(pending: seq<Event>)
      reads this
    {
      handled + pending + kernel.queue == log
    }

    // -------------------------------------------------------------------
    // The environment
    // -------------------------------------------------------------------

    method Interfere()
      requires Valid()
      modifies this`kernel, this`log
      ensures Valid() && EnvStep(old(kernel), kernel)
      ensures Onward(old(kernel), old(log), kernel, log)
      ensures still ==> kernel == old(kernel)
    {
      assert EnvStep(kernel, kernel);
      var k' :| EnvStep(kernel, k') && (still ==> k' == kernel);
      EnvStepKeepsInv(M(), k');
      OnwardByOthers(kernel, log, k');
      log := log + k'.queue[|kernel.queue|..];
      kernel := k';
    }

    /** The pathnames for which nftw() calls back. While directories move about, they may
        be any. */
    method Nftw(path: Path) returns (paths: seq<Path>)
      requires Valid()
      modifies this`kernel, this`log
      ensures Valid()
      ensures Onward(old(kernel), old(log), kernel, log)
      ensures still ==> kernel == old(kernel) && paths == Listing(kernel.tree, path)
    {
      Interfere();
      var listed := Listing(kernel.tree, path);
      assert still ==> listed == Listing(kernel.tree, path);
      paths :| still ==> paths == Listing(kernel.tree, path);
    }

    // -------------------------------------------------------------------
    // The cache
    // -------------------------------------------------------------------

    /** findWatch; findEmptyCacheSlot runs the same search for -1. */
    method Find(wd: int) returns (r: int)
      ensures r == FindWatch(slots, wd)
    {
      var j := 0;
      while j < |slots|
        invariant 0 <= j <= |slots|
        invariant forall i :: 0 <= i < j ==> slots[i].wd != wd
      {
        if slots[j].wd == wd {
          assert HasWd(slots, wd);
          return j;
        }
        j := j + 1;
      }
      return -1;
    }

    method PathnameInCache(path: Path) returns (r: bool)
      ensures r == PathCached(slots, path)
    {
      var j := 0;
      while j < |slots|
        invariant 0 <= j <= |slots|
        invariant forall i :: 0 <= i < j ==> !(Live(slots[i]) && slots[i].path == path)
      {
        if Live(slots[j]) && slots[j].path == path {
          return true;
        }
        j := j + 1;
      }
      return false;
    }

    method FindEmptyCacheSlot() returns (slot: nat)
      modifies this`slots
      ensures slot < |slots| && slots[slot].wd == -1
      ensures slots == if HasWd(old(slots), -1) then old(slots) else old(slots) + Blank(ALLOC_INCR)
      ensures slot == if HasWd(old(slots), -1) then FindWatch(old(slots), -1) else |old(slots)|
    {
      var j := Find(-1);
      if j >= 0 {
        return j;
      }
      slot := |slots|;
      slots := slots + Blank(ALLOC_INCR);
    }

    method AddWatchToCache(wd: int, path: Path)
      modifies this`slots
      ensures slots == AddSlot(old(slots), wd, path)
    {
      var slot := FindEmptyCacheSlot();
      slots := slots[slot := Slot(wd, path)];
      assert slots == AddSlot(old(slots), wd, path);
    }

    // -------------------------------------------------------------------
    // Walking a tree
    // -------------------------------------------------------------------

    method TraverseTree(path: Path)
      requires Valid() && !exited
      modifies this`slots, this`kernel, this`exited, this`log
      ensures Valid()
      ensures Onward(old(kernel), old(log), kernel, log)
      ensures still ==> M() == Traverse(old(M()), path)
    {
      hide Inv, Onward, Later, Work;
      Interfere();
      ghost var m := M();
      TraverseKeepsInv(m, path);
      KernelIsOk(m);
      OnwardByAdding(kernel, log, path);
      OnwardTransitive(old(kernel), old(log), kernel, log, AddWatch(kernel, path).0, log);
      var (k', r) := AddWatch(kernel, path);
      kernel := k';
      if r.Failed? {
        exited := true;
      } else if r.Watching? {
        var j := Find(r.wd);
        if j < 0 {
          AddWatchToCache(r.wd, path);
        }
      }
      assert M() == Traverse(m, path);
    }

    method WatchDir(path: Path)
      requires Valid() && !exited
      modifies this`slots, this`kernel, this`exited, this`log
      ensures Valid()
      ensures Onward(old(kernel), old(log), kernel, log)
      ensures still ==> M() == WatchSubtree(old(M()), path)
    {
      hide Inv, Onward, Later, Work, Listing, Traverse;
      var paths := Nftw(path);
      var j := 0;
      while j < |paths| && !exited
        invariant 0 <= j <= |paths| && Valid()
        invariant Onward(old(kernel), old(log), kernel, log)
        invariant still ==> WatchAll(M(), paths[j..]) == WatchSubtree(old(M()), path)
      {
        assert paths[j..][1..] == paths[j + 1..];
        label before:
        TraverseTree(paths[j]);
        OnwardTransitive(old(kernel), old(log), old@before(kernel), old@before(log), kernel, log);
        j := j + 1;
      }
    }

    method Rebuild()
      requires Valid() && !exited
      modifies this`slots, this`kernel, this`exited, this`log, this`handled
      ensures Valid() && kernel.inst > old(kernel.inst) && handled == [] && Accounted([])
      ensures Work(kernel) <= old(Work(kernel))
      ensures still ==> M() == Reinitialize(old(M()))
    {
      hide Inv, Work, WatchSubtree, Onward;
      Interfere();
      OnwardParts(old(kernel), old(log), kernel, log);
      NewInstanceOk(M());
      NewInstanceWork(kernel);
      kernel, log, handled := NewInstance(kernel), [], [];
      slots := [];
      ghost var start := M();
      var j := 0;
      while j < |roots| && !exited
        invariant 0 <= j <= |roots| && Valid()
        invariant kernel.inst > old(kernel.inst) && log == kernel.queue && handled == []
        invariant Work(kernel) <= old(Work(kernel))
        invariant still ==> WatchRoots(M(), roots[j..]) == WatchRoots(start, roots)
      {
        assert roots[j..][1..] == roots[j + 1..];
        if roots[j].Some? {
          label before:
          WatchDir(roots[j].value);
          OnwardKeepsEqual(old@before(kernel), old@before(log), kernel, log);
        }
        j := j + 1;
      }
      assert [] + [] + kernel.queue == kernel.queue;
    }

    // -------------------------------------------------------------------
    // Renames and removals
    // -------------------------------------------------------------------

    method RewriteCachedPaths(oldPrefix: Path, oldName: string, newPrefix: Path, newName: string)
      requires Valid()
      modifies this`slots
      ensures Valid()
      ensures slots == Rewrite(old(slots), Join(oldPrefix, oldName), Join(newPrefix, newName))
    {
      var fullPath, newPath := Join(oldPrefix, oldName), Join(newPrefix, newName);
      RewriteKeepsInv(M(), fullPath, newPath);
      var j := 0;
      while j < |slots|
        invariant 0 <= j <= |slots| == |old(slots)|
        invariant forall i :: 0 <= i < j ==> slots[i] == Rewrite(old(slots), fullPath, newPath)[i]
        invariant forall i :: j <= i < |slots| ==> slots[i] == old(slots)[i]
      {
        if AtOrBelow(slots[j].path, fullPath) {
          slots := slots[j := slots[j].(path := newPath + slots[j].path[|fullPath|..])];
        }
        j := j + 1;
      }
      assert slots == Rewrite(old(slots), fullPath, newPath);
    }

    ghost function Deref(arg: PathArg): Path
      reads this
      requires arg.Cached? ==> arg.slot < |slots|
    {
      match arg case Text(s) => s case Cached(j) => slots[j].path
    }

    /** inotify_rm_watch and, if it succeeds, markCacheSlotEmpty. */
    method RemoveWatch(j: nat) returns (removed: bool)
      requires Valid() && j < |slots|
      modifies this`slots, this`kernel, this`log
      ensures Valid()
      ensures Onward(old(kernel), old(log), kernel, log)
      ensures slots == if removed then old(slots)[j := FREE] else old(slots)
      ensures still ==> (kernel, removed) == RmWatch(old(kernel), old(slots)[j].wd)
    {
      hide Inv, Onward, Later, Work;
      Interfere();
      RemoveKeepsInv(M(), j);
      KernelIsOk(M());
      OnwardByRemoving(kernel, log, slots[j].wd);
      OnwardTransitive(old(kernel), old(log), kernel, log, RmWatch(kernel, slots[j].wd).0, log + Notice(kernel, slots[j].wd));
      var (k', ok) := RmWatch(kernel, slots[j].wd);
      log := log + Notice(kernel, slots[j].wd);
      kernel := k';
      if ok {
        slots := slots[j := FREE];
      }
      return ok;
    }

    /** One round of the loop of zapSubtree. */
    method ZapSlot(j: nat, pn: Path) returns (ok: bool)
      requires Valid() && j < |slots|
      modifies this`slots, this`kernel, this`log
      ensures Valid()
      ensures Onward(old(kernel), old(log), kernel, log)
      ensures |slots| == |old(slots)|
      ensures ok ==> slots == if Doomed(old(slots)[j], pn) then old(slots)[j := FREE] else old(slots)
      ensures still && ok ==> ZapFrom(M(), pn, j + 1) == ZapFrom(old(M()), pn, j)
      ensures still && !ok ==> (M(), false) == ZapFrom(old(M()), pn, j)
    {
      if slots[j].wd >= 0 && AtOrBelow(slots[j].path, pn) {
        ok := RemoveWatch(j);
      } else {
        ok := true;
      }
    }

    method ZapSubtree(arg: PathArg) returns (ok: bool)
      requires Valid()
      requires arg.Cached? ==> arg.slot < |slots|
      modifies this`slots, this`kernel, this`log
      ensures Valid()
      ensures Onward(old(kernel), old(log), kernel, log)
      ensures still ==> (M(), ok) == Zap(old(M()), old(Deref(arg)))
      ensures ok ==> |slots| == |old(slots)|
      ensures ok ==> forall j :: 0 <= j < |slots| ==>
                slots[j] == if Doomed(old(slots)[j], old(Deref(arg))) then FREE else old(slots)[j]
    {
      hide Inv, Onward, Later, Work;
      OnwardReflexive(kernel, log);
      var pn := match arg case Text(s) => s case Cached(j) => slots[j].path;
      var j := 0;
      while j < |slots|
        invariant 0 <= j <= |slots| == |old(slots)| && Valid()
        invariant Onward(old(kernel), old(log), kernel, log)
        invariant forall i :: 0 <= i < j ==> slots[i] == if Doomed(old(slots)[i], pn) then FREE else old(slots)[i]
        invariant forall i :: j <= i < |slots| ==> slots[i] == old(slots)[i]
        invariant still ==> ZapFrom(M(), pn, j) == Zap(old(M()), pn)
      {
        label before:
        var removed := ZapSlot(j, pn);
        OnwardTransitive(old(kernel), old(log), old@before(kernel), old@before(log), kernel, log);
        if !removed {
          return false;
        }
        j := j + 1;
      }
      return true;
    }

    method FindRoot(path: Path) returns (r: int)
      ensures -1 <= r < |roots|
      ensures r >= 0 ==> roots[r] == Some(path) && forall i :: 0 <= i < r ==> roots[i] != Some(path)
      ensures r >= 0 <==> IsRoot(roots, path)
    {
      var j := 0;
      while j < |roots|
        invariant 0 <= j <= |roots|
        invariant forall i :: 0 <= i < j ==> roots[i] != Some(path)
      {
        if roots[j] == Some(path) {
          return j;
        }
        j := j + 1;
      }
      return -1;
    }

    method ZapRootDirPath(path: Path)
      requires Valid()
      modifies this`roots, this`ignoreRootDirs, this`exited
      ensures Valid()
      ensures M() == DropRoot(old(M()), path)
      ensures IsRoot(old(roots), path) ==> Struck(old(roots), path, roots)
    {
      var j := FindRoot(path);
      if j < 0 {
        exited := true;
        return;
      }
      DropFirstIs(roots, j, path);
      OneMoreUnmonitored(roots, j);
      assert StruckAt(roots, path, roots[j := None], j);
      roots := roots[j := None];
      ignoreRootDirs := ignoreRootDirs + 1;
      AllUnmonitored(roots);
      if ignoreRootDirs == |roots| {
        exited := true;
      }
    }

    // -------------------------------------------------------------------
    // One event
    // -------------------------------------------------------------------

    method ZapOrRebuildM(arg: PathArg) returns (v: Verdict)
      requires Valid() && !exited
      requires arg.Cached? ==> arg.slot < |slots|
      modifies this`slots, this`kernel, this`exited, this`log, this`handled
      ensures Valid()
      ensures v == One || v == Discard
      ensures v != Discard ==> Onward(old(kernel), old(log), kernel, log) && handled == old(handled)
      ensures v == Discard ==> kernel.inst > old(kernel.inst) && handled == [] && Accounted([])
      ensures Work(kernel) <= old(Work(kernel))
      ensures v == One ==> Emptied(old(slots), old(Deref(arg)), slots)
      ensures still ==> (M(), v) == ZapOrRebuild(old(M()), old(Deref(arg)))
    {
      var ok := ZapSubtree(arg);
      if ok {
        return One;
      }
      Rebuild();
      return Discard;
    }

    method MovedFrom(j: nat, ev: Event, next: Option<Event>, firstTry: bool) returns (v: Verdict)
      requires Valid() && !exited && j < |slots|
      modifies this`slots, this`kernel, this`exited, this`log, this`handled
      ensures Valid()
      ensures v == Two ==> next.Some?
      ensures v == NeedMore ==> next.None? && firstTry && kernel == old(kernel) && log == old(log) && !exited
      ensures v != Discard ==> Onward(old(kernel), old(log), kernel, log) && handled == old(handled)
      ensures v == Discard ==> kernel.inst > old(kernel.inst) && handled == [] && Accounted([])
      ensures Work(kernel) <= old(Work(kernel))
      ensures next.Some? && Has(next.value, IN_MOVED_TO) && next.value.cookie == ev.cookie ==>
        v == if HasWd(old(slots), next.value.wd) then Two else Discard
      ensures next.Some? && !(Has(next.value, IN_MOVED_TO) && next.value.cookie == ev.cookie) ==> v == One || v == Discard
      ensures next.None? ==> if firstTry then v == NeedMore && slots == old(slots) else v == One || v == Discard
      ensures v == One ==> Emptied(old(slots), old(slots)[j].path + "/" + ev.name, slots)
      ensures v == Two ==>
        var to := FindWatch(old(slots), next.value.wd);
        to >= 0 && slots == Rewrite(old(slots), old(slots)[j].path + "/" + ev.name, old(slots)[to].path + "/" + next.value.name)
      ensures still ==> (M(), v) == HandleMovedFrom(old(M()), old(slots)[j].path, ev, next, firstTry)
    {
      hide Inv, Onward, Rewrite, FindWatch, Emptied, Has, Reinitialize, ZapOrRebuild, Work;
      OnwardReflexive(kernel, log);
      var path := slots[j].path;
      if Matches(ev, next) {
        var to := Find(next.value.wd);
        if to == -1 {
          Rebuild();
          return Discard;
        }
        RewriteCachedPaths(path, ev.name, slots[to].path, next.value.name);
        return Two;
      } else if next.Some? || !firstTry {
        v := ZapOrRebuildM(Text(Join(path, ev.name)));
      } else {
        return NeedMore;
      }
    }

    method MoveSelf(j: nat) returns (v: Verdict)
      requires Valid() && !exited && j < |slots|
      modifies this
      ensures Valid()
      ensures v == One || v == Discard
      ensures v != Discard ==> Onward(old(kernel), old(log), kernel, log) && handled == old(handled)
      ensures v == Discard ==> kernel.inst > old(kernel.inst) && handled == [] && Accounted([])
      ensures Work(kernel) <= old(Work(kernel))
      ensures !IsRoot(old(roots), old(slots)[j].path) ==> v == One && M() == old(M())
      ensures IsRoot(old(roots), old(slots)[j].path) ==> Struck(old(roots), old(slots)[j].path, roots)
      ensures IsRoot(old(roots), old(slots)[j].path) && v == One && !exited ==>
        Emptied(old(slots), old(slots)[j].path, slots)
      ensures still ==> (M(), v) == HandleMoveSelf(old(M()), old(slots)[j].path)
    {
      OnwardReflexive(kernel, log);
      var r := FindRoot(slots[j].path);
      if r < 0 {
        return One;
      }
      ZapRootDirPath(slots[j].path);
      if exited {
        return One;
      }
      v := ZapOrRebuildM(Cached(j));
    }

    /** A directory appeared below that of slot j. */
    method Arrived(j: nat, name: string)
      requires Valid() && !exited && j < |slots|
      modifies this`slots, this`kernel, this`exited, this`log
      ensures Valid() && Onward(old(kernel), old(log), kernel, log)
      ensures still ==> var path := Join(old(slots)[j].path, name);
                        M() == if PathCached(old(slots), path) then old(M()) else WatchSubtree(old(M()), path)
    {
      hide Inv, Onward, WatchSubtree;
      OnwardReflexive(kernel, log);
      var fullPath := Join(slots[j].path, name);
      var cached := PathnameInCache(fullPath);
      if !cached {
        WatchDir(fullPath);
      }
    }

    /** The directory of slot j is gone, and its watch with it. */
    method DeletedSelf(j: nat)
      requires Valid() && !exited && j < |slots| && slots[j].wd !in kernel.watches.Values
      modifies this`slots, this`roots, this`ignoreRootDirs, this`exited
      ensures Valid()
      ensures var m := if IsRoot(old(roots), old(slots)[j].path) then DropRoot(old(M()), old(slots)[j].path) else old(M());
              M() == if m.exited then m else ClearSlot(m, j)
    {
      var r := FindRoot(slots[j].path);
      if r >= 0 {
        ZapRootDirPath(slots[j].path);
      }
      if !exited {
        ClearSlotKeepsInv(M(), j);
        slots := slots[j := FREE];
      }
    }

    /** An event whose watch was found in slot j. */
    method ProcessAt(j: nat, ev: Event, next: Option<Event>, firstTry: bool) returns (v: Verdict)
      requires Valid() && !exited && EventOk(kernel, ev)
      requires j < |slots| && slots[j].wd == ev.wd
      modifies this
      ensures Valid()
      ensures v == Two ==> next.Some?
      ensures v == NeedMore ==> next.None? && firstTry && kernel == old(kernel) && log == old(log) && !exited
      ensures v != Discard ==> Onward(old(kernel), old(log), kernel, log) && handled == old(handled)
      ensures v == Discard ==> kernel.inst > old(kernel.inst) && handled == [] && Accounted([])
      ensures Work(kernel) <= old(Work(kernel))
      ensures still ==> (M(), v) == HandleAt(old(M()), j, ev, next, firstTry)
    {
      hide Inv, Onward, Later, Work, WatchSubtree, HandleMovedFrom, HandleMoveSelf, Reinitialize, DropRoot;
      OnwardReflexive(kernel, log);
      if Arrival(ev) {
        Arrived(j, ev.name);
        OnwardParts(old(kernel), old(log), kernel, log);
        return One;
      } else if Has(ev, IN_DELETE_SELF) {
        DeletedSelf(j);
        return One;
      } else if DirMovedFrom(ev) {
        v := MovedFrom(j, ev, next, firstTry);
      } else if Has(ev, IN_Q_OVERFLOW) {
        Rebuild();
        return Discard;
      } else if Has(ev, IN_UNMOUNT) {
        ClearSlotKeepsInv(M(), j);
        slots := slots[j := FREE];
        return One;
      } else if Has(ev, IN_MOVE_SELF) {
        v := MoveSelf(j);
      } else {
        return One;
      }
    }

    /** processNextInotifyEvent. */
    method ProcessNextEvent(ev: Event, next: Option<Event>, firstTry: bool) returns (v: Verdict)
      requires Valid() && !exited && EventOk(kernel, ev)
      modifies this
      ensures Valid()
      ensures v == Two ==> next.Some?
      ensures v == NeedMore ==> next.None? && firstTry && kernel == old(kernel) && log == old(log) && !exited
      ensures v != Discard ==> Onward(old(kernel), old(log), kernel, log) && handled == old(handled)
      ensures v == Discard ==> kernel.inst > old(kernel.inst) && handled == [] && Accounted([])
      ensures Work(kernel) <= old(Work(kernel))
      ensures Has(ev, IN_IGNORED) ==> v == One && M() == old(M())
      ensures Lost(old(slots), ev) ==> v == Discard
      ensures still ==> (M(), v) == Handle(old(M()), ev, next, firstTry)
    {
      OnwardReflexive(kernel, log);
      if !NeedsSlot(ev) {
        if Has(ev, IN_Q_OVERFLOW) {
          Rebuild();
          return Discard;
        }
        return One;
      }
      var j := Find(ev.wd);
      if j == -1 {
        FailedLookupMeansRemoved(M(), ev);
        Rebuild();
        return Discard;
      }
      v := ProcessAt(j, ev, next, firstTry);
    }

    // -------------------------------------------------------------------
    // The buffered loop
    // -------------------------------------------------------------------

    /** The kernel's half of read(): some whole events leave the front of the queue, as many
        as the kernel likes and the count allows. */
    method TakeEvents(cnt: nat) returns (r: ReadResult, evs: seq<Event>)
      requires Valid()
      modifies this`kernel, this`log
      ensures Valid() && Later(old(kernel), kernel) && kernel.inst == old(kernel.inst)
      ensures Work(kernel) + Weight(evs) <= old(Work(kernel))
      ensures kernel.future + |kernel.queue| + |evs| <= old(kernel.future + |kernel.queue|)
      ensures forall ev :: ev in evs ==> EventOk(kernel, ev) && Wellformed(ev)
      ensures r.Got? <==> evs != []
      ensures r.Got? ==> r.n == SizeAll(evs) <= cnt
      ensures r.Interrupted? ==> old(kernel.queue) == []
      ensures cnt >= HEADER + NAME_MAX + 1 ==> !r.BadSize?
      ensures Appended(old(kernel.queue), old(log), evs + kernel.queue, log)
      ensures still ==> kernel == old(kernel).(queue := kernel.queue) && evs + kernel.queue == old(kernel.queue)
    {
      hide Inv, Later, Work, Weight, Onward, EnvStep, EventOk, Wellformed, Appended, SizeAll;
      Interfere();
      OnwardParts(old(kernel), old(log), kernel, log);
      NoMoreEvents(old(kernel), kernel);
      assert [] + kernel.queue == kernel.queue;
      if kernel.queue == [] {
        return Interrupted, [];
      }
      FirstFits(M());
      if Size(kernel.queue[0]) > cnt {
        return BadSize, [];
      }
      SizeOfOne(kernel.queue[0]);
      assert kernel.queue[..1] == [kernel.queue[0]];
      var n :| 1 <= n <= |kernel.queue| && SizeAll(kernel.queue[..n]) <= cnt;
      var q := kernel.queue;
      evs := q[..n];
      assert q == evs + q[n..];
      TakeKeepsInv(M(), n);
      LaterTransitive(old(kernel), kernel, kernel.(queue := q[n..]));
      kernel := kernel.(queue := q[n..]);
      r := Got(SizeAll(evs));
    }

    /** read() on the inotify descriptor. */
    method Read(buf: array<Byte>, off: nat, cnt: nat) returns (r: ReadResult, ghost evs: seq<Event>)
      requires Valid() && off + cnt <= buf.Length
      modifies this`kernel, this`log, buf
      ensures Valid() && Later(old(kernel), kernel) && kernel.inst == old(kernel.inst)
      ensures Work(kernel) + Weight(evs) <= old(Work(kernel))
      ensures kernel.future + |kernel.queue| + |evs| <= old(kernel.future + |kernel.queue|)
      ensures forall ev :: ev in evs ==> EventOk(kernel, ev) && Wellformed(ev)
      ensures buf[..off] == old(buf[..off])
      ensures r.Got? <==> evs != []
      ensures r.Got? ==> r.n == SizeAll(evs) <= cnt && buf[off..off + r.n] == EncodeAll(evs)
      ensures r.Interrupted? ==> old(kernel.queue) == []
      ensures cnt >= HEADER + NAME_MAX + 1 ==> !r.BadSize?
      ensures Appended(old(kernel.queue), old(log), evs + kernel.queue, log)
      ensures still ==> kernel == old(kernel).(queue := kernel.queue) && evs + kernel.queue == old(kernel.queue)
    {
      hide Inv, Onward, Later, Work, EventOk, Wellformed;
      var got;
      r, got := TakeEvents(cnt);
      evs := got;
      if r.Got? {
        var bytes := EncodeAll(got);
        CopyOut(buf, off, bytes);
      }
    }

    method Shuffle(buf: array<Byte>, evp: nat, n: nat)
      requires evp + n <= buf.Length
      modifies buf
      ensures buf[..n] == old(buf[evp..evp + n])
    {
      for j := 0 to n
        invariant forall i :: 0 <= i < j ==> buf[i] == old(buf[evp + i])
        invariant forall i :: j <= i < buf.Length ==> buf[i] == old(buf[i])
      {
        buf[j] := buf[evp + j];
      }
    }

    /** A "moved from" ended the buffer: its bytes move to the front and the next read is
        added behind them. When the alarm interrupts that read, the -1 it returned is added
        to the count all the same, since errno is never -1. */
    method Refill(buf: array<Byte>, evp: nat, numRead: nat, ghost ev: Event)
      returns (numRead': int, ghost pending: seq<Event>)
      requires Valid() && !exited && buf.Length == READ_BUF_LEN
      requires EventOk(kernel, ev)
      requires numRead == evp + Size(ev) && Holds(buf[..], evp, numRead, [ev])
      modifies this`kernel, this`log, buf
      ensures Valid() && Later(old(kernel), kernel) && kernel.inst == old(kernel.inst)
      ensures pending != [] && pending[0] == ev && Holds(buf[..], 0, numRead', pending)
      ensures forall e :: e in pending ==> EventOk(kernel, e)
      ensures Work(kernel) + Weight(pending) <= old(Work(kernel)) + Weight([ev])
      ensures kernel.future + |kernel.queue| + |pending| <= old(kernel.future + |kernel.queue|) + 1
      ensures Appended([ev] + old(kernel.queue), old(log), pending + kernel.queue, log)
      ensures still ==> kernel == old(kernel).(queue := kernel.queue) && pending + kernel.queue == [ev] + old(kernel.queue)
      ensures |pending| == 1 ==> old(kernel.queue) == []
    {
      hide Inv, Onward, Later, Work, Weight, EventOk, Holds, EncodeAll, SizeAll;
      HoldsOne(buf[..], evp, numRead, ev);
      assert buf[..][evp..evp + Size(ev)] == buf[evp..evp + Size(ev)];
      numRead' := numRead - evp;
      Shuffle(buf, evp, numRead');
      var r;
      ghost var evs;
      r, evs := Read(buf, numRead', READ_BUF_LEN - numRead');
      LaterKeepsEvent(old(kernel), kernel, ev);
      pending := [ev] + evs;
      Behind(ev, old(kernel.queue), old(log), evs, kernel.queue, log);
      hide Appended;
      WeightAppend([ev], evs);
      hide Wellformed;
      assert buf[..][..numRead'] == buf[..numRead'];
      match r {
        case Got(n) =>
          assert buf[..][numRead'..numRead' + n] == buf[numRead'..numRead' + n];
          HoldsJoined(buf[..], ev, evs, n);
          numRead' := numRead' + n;
        case Interrupted =>
          HoldsAlone(buf[..], ev);
          assert [ev] + [] == [ev];
          numRead' := numRead' - 1;
        case BadSize => assert false;
      }
    }

    /** The next event, or pair of events, handled and accounted for. */
    method Dispose(ev: Event, next: Option<Event>, firstTry: bool, ghost pending: seq<Event>) returns (v: Verdict)
      requires Valid() && !exited && pending != [] && ev == pending[0] && next == NextOf(pending)
      requires forall e :: e in pending ==> EventOk(kernel, e)
      requires !firstTry && |pending| == 1 && still ==> kernel.queue == []
      requires Accounted(pending)
      modifies this
      ensures Valid() && (v == Two ==> next.Some?)
      ensures Accounted(Left(v, pending)) && forall e :: e in Left(v, pending) ==> EventOk(kernel, e)
      ensures v == NeedMore ==> |pending| == 1 && firstTry && kernel == old(kernel) && log == old(log) && handled == old(handled) && !exited
      ensures v != NeedMore ==> Nearer(old(kernel), pending, firstTry, kernel, Left(v, pending), true)
      ensures v != NeedMore && v != Discard ==> kernel.inst == old(kernel.inst) && |handled| > |old(handled)|
      ensures v != Discard ==> Continued(old(handled), old(log), handled, log)
      ensures v == Discard ==> kernel.inst > old(kernel.inst) && handled == []
      ensures still ==> Prefixed(M(), Left(v, pending)) ==
                        if v != NeedMore then RefStep(Prefixed(old(M()), pending)) else Prefixed(old(M()), pending)
    {
      hide Inv, Onward, Later, Work, Weight, Handle, EventOk, RefStep, Nearer, Appended, Has;
      assert ev in pending;
      if still {
        BufferedStep(M(), pending, firstTry);
      }
      v := ProcessNextEvent(ev, next, firstTry);
      if v != NeedMore {
        LeftSmaller(v, pending);
        if v != Discard {
          OnwardParts(old(kernel), old(log), kernel, log);
          LogGrows(old(kernel.queue), old(log), kernel.queue, log);
          LaterKeepsAll(old(kernel), kernel, Left(v, pending));
          Disposed(handled, pending, v, old(kernel.queue), old(log), kernel.queue, log);
          handled := handled + Done(v, pending);
        }
        NearerByStep(old(kernel), pending, firstTry, kernel, v);
      }
    }

    /** One round of the loop: an event or a pair of events is processed, or the buffer is
        refilled. */
    method Turn(buf: array<Byte>, evp: nat, numRead: int, firstTry: bool, ghost pending: seq<Event>)
      returns (evp': nat, numRead': int, firstTry': bool, ghost pending': seq<Event>, ghost stepped: bool)
      requires Valid() && !exited && buf.Length == READ_BUF_LEN
      requires pending != [] && Holds(buf[..], evp, numRead, pending)
      requires forall ev :: ev in pending ==> EventOk(kernel, ev)
      requires firstTry ==> numRead == evp + SizeAll(pending)
      requires !firstTry && |pending| == 1 && still ==> kernel.queue == []
      requires Accounted(pending)
      modifies this, buf
      ensures Valid() && Holds(buf[..], evp', numRead', pending')
      ensures forall ev :: ev in pending' ==> EventOk(kernel, ev)
      ensures firstTry' && pending' != [] ==> numRead' == evp' + SizeAll(pending')
      ensures !firstTry' && |pending'| == 1 && still ==> kernel.queue == []
      ensures !stepped ==> pending' != [] && firstTry && !firstTry' && !exited
      ensures stepped ==> firstTry'
      ensures Accounted(pending')
      ensures kernel.inst == old(kernel.inst) ==> Continued(old(handled), old(log), handled, log)
      ensures stepped && kernel.inst == old(kernel.inst) ==> |handled| > |old(handled)|
      ensures kernel.inst != old(kernel.inst) ==> kernel.inst > old(kernel.inst) && handled == [] && pending' == []
      ensures still ==> Prefixed(M(), pending') ==
                        if stepped then RefStep(Prefixed(old(M()), pending)) else Prefixed(old(M()), pending)
      ensures Nearer(old(kernel), pending, firstTry, kernel, pending', firstTry')
    {
      hide Inv, Onward, Later, Work, Weight, SizeAll, EventOk, EncodeAll, RefStep, Wellformed, Nearer, Appended, Has;
      var ev, next := EventsAt(buf, evp, numRead, pending);
      var v := Dispose(ev, next, firstTry, pending);
      var evLen := Consumed(v, ev, next);
      if evLen > 0 {
        evp', numRead', firstTry', pending', stepped := evp + evLen, numRead, true, Left(v, pending), true;
      } else {
        assert |pending| == 1 && pending == [ev];
        numRead', pending' := Refill(buf, evp, numRead, ev);
        Refilled(handled, ev, old(kernel.queue), old(log), pending', kernel.queue, log);
        NearerByRefill(old(kernel), ev, kernel, pending');
        evp', firstTry', stepped := 0, false, false;
      }
    }

    /** The loop over the buffer, which holds the events `first` to begin with. */
    method ProcessBuffer(buf: array<Byte>, size: nat, ghost first: seq<Event>) returns (ghost n: nat)
      requires Valid() && !exited && buf.Length == READ_BUF_LEN
      requires first != [] && Holds(buf[..], 0, size, first) && size == SizeAll(first)
      requires forall ev :: ev in first ==> EventOk(kernel, ev)
      requires Accounted(first)
      modifies this, buf
      ensures Valid() && (!exited ==> Accounted([]))
      ensures kernel.inst == old(kernel.inst) ==> Continued(old(handled), old(log), handled, log)
      ensures kernel.inst == old(kernel.inst) && !exited ==> |handled| > |old(handled)|
      ensures kernel.inst >= old(kernel.inst)
      ensures !exited ==> Less(old(kernel), first, kernel, [])
      ensures still && !exited ==> n > 0 && M() == RefSteps(Prefixed(old(M()), first), n)
      ensures still && exited ==> RefSteps(Prefixed(old(M()), first), n).exited
    {
      hide Inv, Later, RefStep, EncodeAll, Work, Weight, EventOk, Wellformed, Holds;
      n := 0;
      HoldsTo(buf[..], 0, size, first);
      var evp: nat, numRead: int, firstTry := 0, size, true;
      ghost var pending := first;
      while evp < numRead && !exited
        invariant Valid() && buf.Length == READ_BUF_LEN
        invariant Holds(buf[..], evp, numRead, pending)
        invariant forall ev :: ev in pending ==> EventOk(kernel, ev)
        invariant firstTry && pending != [] ==> numRead == evp + SizeAll(pending)
        invariant !firstTry && |pending| == 1 && still ==> kernel.queue == []
        invariant still ==> Prefixed(M(), pending) == RefSteps(Prefixed(old(M()), first), n)
        invariant n == 0 ==> pending != []
        invariant Accounted(pending)
        invariant kernel.inst == old(kernel.inst) ==> Continued(old(handled), old(log), handled, log)
        invariant kernel.inst == old(kernel.inst) && n > 0 ==> |handled| > |old(handled)|
        invariant kernel.inst != old(kernel.inst) ==> kernel.inst > old(kernel.inst) && pending == []
        invariant NoMore(old(kernel), first, kernel, pending) && (n > 0 ==> Less(old(kernel), first, kernel, pending))
        decreases Work(kernel) + Weight(pending), kernel.future + |kernel.queue| + |pending|, firstTry
      {
        ghost var stepped;
        HoldsTo(buf[..], evp, numRead, pending);
        evp, numRead, firstTry, pending, stepped := Turn(buf, evp, numRead, firstTry, pending);
        n := if stepped then n + 1 else n;
      }
      HoldsTo(buf[..], evp, numRead, pending);
    }

    method ProcessInotifyEvents(readBufferSize: nat) returns (ghost n: nat)
      requires Valid() && !exited
      requires readBufferSize <= READ_BUF_LEN
      requires kernel.queue != [] && Accounted([])
      modifies this
      ensures Valid() && (!exited ==> Accounted([]))
      ensures kernel.inst == old(kernel.inst) ==> Continued(old(handled), old(log), handled, log)
      ensures kernel.inst == old(kernel.inst) && !exited ==> |handled| > |old(handled)|
      ensures kernel.inst >= old(kernel.inst)
      ensures !exited ==> Less(old(kernel), [], kernel, [])
      ensures still && !exited ==> n > 0 && M() == RefSteps(old(M()), n)
      ensures still && exited ==> RefSteps(old(M()), n).exited || TooSmall(readBufferSize)
    {
      hide Inv, Later, RefStep, EncodeAll, Work, Appended, EventOk, RefSteps;
      n := 0;
      var buf := new Byte[READ_BUF_LEN];
      var cnt := if readBufferSize > 0 then readBufferSize else READ_BUF_LEN;
      var r;
      ghost var pending;
      r, pending := Read(buf, 0, cnt);
      FirstRead(handled, old(kernel.queue), old(log), pending, kernel.queue, log);
      if !r.Got? {
        ExitKeepsInv(M());
        exited := true;
        return;
      }
      assert still ==> Prefixed(M(), pending) == old(M());
      n := ProcessBuffer(buf, r.n, pending);
    }

    // -------------------------------------------------------------------
    // The program as a whole
    // -------------------------------------------------------------------

    constructor (still: bool, dirs: seq<Path>, k: Kernel)
      requires KernelOk(k) && dirs != []
      ensures Valid() && this.still == still && Accounted([])
      ensures still ==> M() == Reinitialize(Monitor([], AllRoots(dirs), k, false))
    {
      this.still := still;
      slots, exited, ignoreRootDirs := [], false, 0;
      roots := AllRoots(dirs);
      kernel, log, handled := NewInstance(k), [], [];
      new;
      ghost var m0 := Monitor([], roots, k, false);
      NewInstanceOk(m0);
      ghost var start := M();
      assert start == m0.(k := NewInstance(m0.k), slots := []);
      var j := 0;
      while j < |roots| && !exited
        invariant 0 <= j <= |roots| && Valid() && roots == AllRoots(dirs) && log == kernel.queue && handled == []
        invariant still ==> WatchRoots(M(), roots[j..]) == WatchRoots(start, roots)
      {
        assert roots[j..][1..] == roots[j + 1..];
        if roots[j].Some? {
          label before:
          WatchDir(roots[j].value);
          OnwardKeepsEqual(old@before(kernel), old@before(log), kernel, log);
        }
        j := j + 1;
      }
    }

    /** The interactive commands that touch the cache: a, z and 0. */
    method ExecuteCommand(cmd: Command)
      requires Valid() && !exited && Accounted([])
      modifies this
      ensures Valid() && Accounted([])
      ensures kernel.inst == old(kernel.inst) ==> handled == old(handled) && old(log) <= log
      ensures kernel.inst >= old(kernel.inst)
      ensures still ==> M() == Commanded(old(M()), cmd)
    {
      hide Inv, Onward, WatchSubtree, Zap, Reinitialize;
      match cmd {
        case AddCmd(path) =>
          var _ := ZapSubtree(Text(path));
          ghost var k1, log1 := kernel, log;
          WatchDir(path);
          OnwardTransitive(old(kernel), old(log), k1, log1, kernel, log);
          StillAccounted(handled, old(kernel), old(log), kernel, log);
        case ZapCmd(path) =>
          var _ := ZapSubtree(Text(path));
          StillAccounted(handled, old(kernel), old(log), kernel, log);
        case RebuildCmd =>
          Rebuild();
      }
    }

    /** Any number of turns of the main loop, each serving a command or the inotify
        descriptor, with anything happening to the tree in between. */
    method Serve(turns: seq<Option<Command>>, readBufferSize: nat)
      requires Valid() && readBufferSize <= READ_BUF_LEN && Accounted([])
      modifies this
      ensures Valid() && (!exited ==> Accounted([])) && kernel.inst >= old(kernel.inst)
      ensures kernel.inst == old(kernel.inst) ==> Continued(old(handled), old(log), handled, log)
    {
      hide Inv, Onward;
      var j := 0;
      while j < |turns| && !exited
        invariant Valid() && (!exited ==> Accounted([])) && kernel.inst >= old(kernel.inst)
        invariant kernel.inst == old(kernel.inst) ==> Continued(old(handled), old(log), handled, log)
      {
        ghost var k0, log0 := kernel, log;
        Interfere();
        StillAccounted(handled, k0, log0, kernel, log);
        if turns[j].Some? {
          ExecuteCommand(turns[j].value);
        } else if kernel.queue != [] {
          var _ := ProcessInotifyEvents(readBufferSize);
        }
        j := j + 1;
      }
    }

    /** The main loop without commands until nothing is queued, whatever other processes do
        meanwhile: it ends, and then every event of the instance has been handled. If they keep
        still, the cache ends up as if the stream had been processed whole, however the reads cut
        it. */
    method Drain(readBufferSize: nat)
      requires Valid() && readBufferSize <= READ_BUF_LEN && Accounted([])
      modifies this
      ensures Valid() && kernel.inst >= old(kernel.inst)
      ensures !exited ==> kernel.queue == [] && handled == log
      ensures kernel.inst == old(kernel.inst) ==> Continued(old(handled), old(log), handled, log)
      ensures still && !exited ==> M() == RefRun(old(M()))
      ensures still && exited ==> RefRun(old(M())).exited || TooSmall(readBufferSize)
    {
      hide Inv, Onward, Work, Weight;
      while !exited
        invariant Valid() && (!exited ==> Accounted([])) && kernel.inst >= old(kernel.inst)
        invariant kernel.inst == old(kernel.inst) ==> Continued(old(handled), old(log), handled, log)
        invariant still && !exited ==> RefRun(M()) == RefRun(old(M()))
        invariant still && exited ==> RefRun(old(M())).exited || TooSmall(readBufferSize)
        decreases !exited, Work(kernel) + Weight([]), kernel.future + |kernel.queue|
      {
        ghost var k0, log0 := kernel, log;
        Interfere();
        OnwardParts(k0, log0, kernel, log);
        StillAccounted(handled, k0, log0, kernel, log);
        if kernel.queue == [] {
          assert handled + [] + [] == handled;
          return;
        }
        ghost var before := M();
        ghost var n := ProcessInotifyEvents(readBufferSize);
        if still {
          StepsThenRun(before, n);
          ExitedForGood(RefSteps(before, n));
        }
      }
    }
  }
}

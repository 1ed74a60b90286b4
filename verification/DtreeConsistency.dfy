/** The purpose of inotify_dtree.c: as directories come, go and move, the cache stays equal
    to the monitored trees. Each operation's events are processed before the next operation
    happens, operations stay strictly below the roots, and a rename takes a free name. */
module DtreeConsistency {
  import opened Wrappers
  import opened Paths
  import opened Inotify
  import opened DtreeSpec
  import opened DtreeStream

  // ---------------------------------------------------------------------
  // What it means to be consistent
  // ---------------------------------------------------------------------

  function Dirs(tree: seq<Dir>): set<Dir> {
    set d | d in tree
  }

  /** The live slots are exactly the watched directories `ds`, under their own pathnames. */
  ghost predicate Tracks(m: Monitor, ds: set<Dir>) {
    && Inv(m)
    && (forall d :: d in ds ==> d.ino in m.k.watches && Slot(m.k.watches[d.ino], d.path) in m.slots)
    && (forall s :: s in m.slots && Live(s) ==>
          exists d :: d in ds && d.ino in m.k.watches && s == Slot(m.k.watches[d.ino], d.path))
  }

  ghost predicate Consistent(m: Monitor) {
    Tracks(m, Dirs(m.k.tree)) && m.k.queue == [] && !m.exited
  }

  /** In other words: a pathname is cached if and only if it is a directory of the trees. */
  lemma CachedIffDirectory(m: Monitor, p: Path)
    requires Consistent(m)
    ensures PathCached(m.slots, p) <==> exists d :: d in m.k.tree && d.path == p
  {
    if PathCached(m.slots, p) {
      var j :| 0 <= j < |m.slots| && Live(m.slots[j]) && m.slots[j].path == p;
      assert m.slots[j] in m.slots;
    }
    if d :| d in m.k.tree && d.path == p {
      assert d in Dirs(m.k.tree);
      var j :| 0 <= j < |m.slots| && m.slots[j] == Slot(m.k.watches[d.ino], p);
    }
  }

  /** And no pathname is cached twice. */
  lemma OneSlotPerDirectory(m: Monitor, i: nat, j: nat)
    requires Consistent(m) && i < j < |m.slots| && Live(m.slots[i]) && Live(m.slots[j])
    ensures m.slots[i].path != m.slots[j].path
  {
    assert m.slots[i] in m.slots && m.slots[j] in m.slots;
    var d :| d in m.k.tree && d.ino in m.k.watches && m.slots[i] == Slot(m.k.watches[d.ino], d.path);
    var e :| e in m.k.tree && e.ino in m.k.watches && m.slots[j] == Slot(m.k.watches[e.ino], e.path);
    assert d != e;
  }

  /** The slot found for the descriptor of a tracked directory holds its pathname. */
  lemma FoundSlot(m: Monitor, ds: set<Dir>, d: Dir)
    requires Tracks(m, ds) && d in ds
    ensures d.ino in m.k.watches
    ensures var j := FindWatch(m.slots, m.k.watches[d.ino]);
            j >= 0 && m.slots[j] == Slot(m.k.watches[d.ino], d.path)
  {
    var s := Slot(m.k.watches[d.ino], d.path);
    var n :| 0 <= n < |m.slots| && m.slots[n] == s;
    assert HasWd(m.slots, s.wd);
    var j := FindWatch(m.slots, s.wd);
    assert j == n;
  }

  // ---------------------------------------------------------------------
  // Walking a tree that stands still
  // ---------------------------------------------------------------------

  lemma AddSlotMembers(slots: seq<Slot>, wd: int, path: Path)
    ensures forall s :: Live(s) ==> (s in AddSlot(slots, wd, path) <==> s in slots || s == Slot(wd, path))
  {
    var r := AddSlot(slots, wd, path);
    var i := FindWatch(slots, -1);
    forall s | Live(s) ensures s in r <==> s in slots || s == Slot(wd, path) {
      if s in slots {
        var n :| 0 <= n < |slots| && slots[n] == s;
        assert r[n] == s;
      }
      assert r[if i >= 0 then i else |slots|] == Slot(wd, path);
      if s in r {
        var n :| 0 <= n < |r| && r[n] == s;
        assert n < |slots| && n != i ==> slots[n] == s;
      }
    }
  }

  /** A directory that already has a watch is already tracked. */
  lemma WatchedIsTracked(m: Monitor, ds: set<Dir>, d: Dir)
    requires Tracks(m, ds) && ds <= Dirs(m.k.tree) && d in m.k.tree
    requires d.ino in m.k.watches
    ensures d in ds && HasWd(m.slots, m.k.watches[d.ino])
  {
    var wd := m.k.watches[d.ino];
    assert HasWd(m.slots, wd);
    var n :| 0 <= n < |m.slots| && m.slots[n].wd == wd;
    assert m.slots[n] in m.slots;
    var e :| e in ds && e.ino in m.k.watches && m.slots[n] == Slot(m.k.watches[e.ino], e.path);
    assert e in Dirs(m.k.tree);
  }

  lemma NewlyTracked(m: Monitor, m': Monitor, ds: set<Dir>, d: Dir)
    requires Tracks(m, ds) && Inv(m')
    requires d.ino !in m.k.watches && m'.k.watches == m.k.watches[d.ino := m.k.nextWd]
    requires m.k.nextWd >= 0
    requires m'.slots == AddSlot(m.slots, m.k.nextWd, d.path)
    ensures Tracks(m', ds + {d})
  {
    hide Inv, AddSlot;
    AddSlotMembers(m.slots, m.k.nextWd, d.path);
    forall e | e in ds + {d}
      ensures e.ino in m'.k.watches && Slot(m'.k.watches[e.ino], e.path) in m'.slots
    {
      if e != d {
        assert e.ino in m.k.watches && Slot(m.k.watches[e.ino], e.path) in m.slots;
        WatchIsLive(m, e.ino);
      }
    }
    forall s | s in m'.slots && Live(s)
      ensures exists e :: e in ds + {d} && e.ino in m'.k.watches && s == Slot(m'.k.watches[e.ino], e.path)
    {
      if s in m.slots {
        var e :| e in ds && e.ino in m.k.watches && s == Slot(m.k.watches[e.ino], e.path);
        assert e in ds + {d} && s == Slot(m'.k.watches[e.ino], e.path);
      } else {
        assert d in ds + {d} && s == Slot(m'.k.watches[d.ino], d.path);
      }
    }
  }

  lemma WatchIsLive(m: Monitor, ino: nat)
    requires Inv(m) && ino in m.k.watches
    ensures m.k.watches[ino] >= 0
  {
  }

  lemma TraverseTracks(m: Monitor, ds: set<Dir>, d: Dir)
    requires Tracks(m, ds) && ds <= Dirs(m.k.tree) && d in m.k.tree
    ensures var m' := Traverse(m, d.path);
            && m'.k.tree == m.k.tree && m'.k.queue == m.k.queue && m'.roots == m.roots
            && (m'.exited ==> m.exited || m'.k.nextWd >= WD_LIMIT)
            && (!m'.exited ==> Tracks(m', ds + {d}))
  {
    hide Tracks, HasWd, AddSlot;
    var m' := Traverse(m, d.path);
    assert Inv(m) by { TracksInv(m, ds); }
    TraverseKeepsInv(m, d.path);
    assert Inode(m.k.tree, d.path) == d.ino;
    if d.ino in m.k.watches {
      WatchedIsTracked(m, ds, d);
      assert ds + {d} == ds;
    } else if m.k.nextWd < WD_LIMIT {
      FreshWd(m);
      NewlyTracked(m, m', ds, d);
    }
  }

  lemma TracksInv(m: Monitor, ds: set<Dir>)
    requires Tracks(m, ds)
    ensures Inv(m)
  {
  }

  lemma FreshWd(m: Monitor)
    requires Inv(m)
    ensures !HasWd(m.slots, m.k.nextWd) && m.k.nextWd >= 0
  {
  }

  /** The directories of the tree named by some pathnames. */
  ghost function Named(tree: seq<Dir>, paths: seq<Path>): set<Dir> {
    set d | d in tree && d.path in paths
  }

  lemma {:induction false} WatchAllTracks(m: Monitor, ds: set<Dir>, paths: seq<Path>)
    requires Tracks(m, ds) && ds <= Dirs(m.k.tree)
    requires forall p :: p in paths ==> exists d :: d in m.k.tree && d.path == p
    ensures var m' := WatchAll(m, paths);
            && m'.k.tree == m.k.tree && m'.k.queue == m.k.queue && m'.roots == m.roots
            && (m'.exited ==> m.exited || m'.k.nextWd >= WD_LIMIT)
            && (!m'.exited ==> Tracks(m', ds + Named(m.k.tree, paths)))
    decreases |paths|
  {
    hide Tracks, Traverse, TreeOk;
    var tree := m.k.tree;
    if paths == [] {
      assert ds + Named(tree, paths) == ds;
    } else if !m.exited {
      assert paths[0] in paths;
      var d :| d in tree && d.path == paths[0];
      TraverseTracks(m, ds, d);
      var m1 := Traverse(m, paths[0]);
      if !m1.exited {
        assert forall p :: p in paths[1..] ==> p in paths;
        WatchAllTracks(m1, ds + {d}, paths[1..]);
        TracksInv(m, ds);
        NamedFirst(m, paths, d);
        assert ds + {d} + Named(tree, paths[1..]) == ds + ({d} + Named(tree, paths[1..]));
      }
    }
  }

  lemma NamedFirst(m: Monitor, paths: seq<Path>, d: Dir)
    requires Inv(m) && paths != [] && d in m.k.tree && d.path == paths[0]
    ensures Named(m.k.tree, paths) == {d} + Named(m.k.tree, paths[1..])
  {
    assert forall p :: p in paths <==> p == paths[0] || p in paths[1..];
  }

  ghost function Below(tree: seq<Dir>, base: Path): set<Dir> {
    set d | d in tree && AtOrBelow(d.path, base)
  }

  lemma WatchSubtreeTracks(m: Monitor, ds: set<Dir>, base: Path)
    requires Tracks(m, ds) && ds <= Dirs(m.k.tree)
    ensures var m' := WatchSubtree(m, base);
            && m'.k.tree == m.k.tree && m'.k.queue == m.k.queue && m'.roots == m.roots
            && (m'.exited ==> m.exited || m'.k.nextWd >= WD_LIMIT)
            && (!m'.exited ==> Tracks(m', ds + Below(m.k.tree, base)))
  {
    WatchAllTracks(m, ds, Listing(m.k.tree, base));
    assert Named(m.k.tree, Listing(m.k.tree, base)) == Below(m.k.tree, base);
  }

  ghost function BelowRoots(tree: seq<Dir>, roots: seq<Option<Path>>): set<Dir> {
    set d | d in tree && exists r :: r in roots && r.Some? && AtOrBelow(d.path, r.value)
  }

  lemma {:induction false} WatchRootsTracks(m: Monitor, ds: set<Dir>, roots: seq<Option<Path>>)
    requires Tracks(m, ds) && ds <= Dirs(m.k.tree)
    ensures var m' := WatchRoots(m, roots);
            && m'.k.tree == m.k.tree && m'.k.queue == m.k.queue && m'.roots == m.roots
            && (m'.exited ==> m.exited || m'.k.nextWd >= WD_LIMIT)
            && (!m'.exited ==> Tracks(m', ds + BelowRoots(m.k.tree, roots)))
    decreases |roots|
  {
    var tree := m.k.tree;
    if roots == [] {
      assert ds + BelowRoots(tree, roots) == ds;
    } else if !m.exited {
      var rest := roots[1..];
      assert forall r :: r in roots <==> r == roots[0] || r in rest;
      if roots[0].Some? {
        var base := roots[0].value;
        WatchSubtreeTracks(m, ds, base);
        var m1 := WatchSubtree(m, base);
        assert ds + Below(tree, base) + BelowRoots(tree, rest) == ds + BelowRoots(tree, roots);
        if !m1.exited {
          WatchRootsTracks(m1, ds + Below(tree, base), rest);
        }
      } else {
        assert BelowRoots(tree, roots) == BelowRoots(tree, rest);
        WatchRootsTracks(m, ds, rest);
      }
    }
  }

  /** A rebuild from any cache whatsoever leaves it equal to the trees below the roots,
      unless it exits because all descriptors have been issued. */
  lemma ReinitializeConsistent(m: Monitor)
    requires KernelOk(m.k) && !m.exited
    ensures var m' := Reinitialize(m);
            && m'.k.tree == m.k.tree && m'.roots == m.roots
            && (m'.exited ==> m'.k.nextWd >= WD_LIMIT)
            && (!m'.exited ==> Tracks(m', BelowRoots(m.k.tree, m.roots)) && m'.k.queue == [])
            && (!m'.exited && BelowRoots(m.k.tree, m.roots) == Dirs(m.k.tree) ==> Consistent(m'))
  {
    var m0 := m.(k := NewInstance(m.k), slots := []);
    NewInstanceOk(m);
    WatchRootsTracks(m0, {}, m.roots);
    assert {} + BelowRoots(m.k.tree, m.roots) == BelowRoots(m.k.tree, m.roots);
  }

  // ---------------------------------------------------------------------
  // Operations on the file system and the events they cause
  // ---------------------------------------------------------------------

  /** What another process does. `sub` of a directory moved in are the directories that come
      with it, already under their new pathnames. */
  datatype Op =
    | Mkdir(parent: Path, name: string, ino: nat)
    | Rmdir(dir: Dir)
    | Rename(parent: Path, name: string, newParent: Path, newName: string, cookie: nat)
    | MoveIn(parent: Path, name: string, sub: set<Dir>, cookie: nat)
    | MoveOut(parent: Path, name: string, cookie: nat)
    | FileEvent(parent: Path, name: string, mask: nat, cookie: nat)

  predicate NameOk(n: string) {
    IsName(n) && |n| <= NAME_MAX && forall i :: 0 <= i < |n| ==> 0 < n[i] as int < 256
  }

  ghost predicate IsDir(k: Kernel, p: Path) {
    exists d :: d in k.tree && d.path == p
  }

  ghost predicate Free(k: Kernel, p: Path) {
    forall d :: d in k.tree ==> !AtOrBelow(d.path, p)
  }

  ghost predicate OpOk(m: Monitor, op: Op) {
    var k := m.k;
    match op
    case Mkdir(p, n, ino) =>
      IsDir(k, p) && NameOk(n) && Free(k, Join(p, n)) && ino !in k.watches
    case Rmdir(d) =>
      && d in k.tree && !IsRoot(m.roots, d.path)
      && (forall e :: e in k.tree && AtOrBelow(e.path, d.path) ==> e == d)
    case Rename(p, n, q, n', c) =>
      && IsDir(k, p) && IsDir(k, q) && NameOk(n) && NameOk(n') && c < 0x1_0000_0000
      && IsDir(k, Join(p, n)) && Free(k, Join(q, n'))
      && !AtOrBelow(q, Join(p, n))
      && (forall r :: r in m.roots && r.Some? ==> !AtOrBelow(r.value, Join(p, n)))
    case MoveIn(p, n, sub, c) =>
      && IsDir(k, p) && NameOk(n) && Free(k, Join(p, n)) && c < 0x1_0000_0000
      && (forall d :: d in sub ==> AtOrBelow(d.path, Join(p, n)) && d.ino !in k.watches)
    case MoveOut(p, n, c) =>
      && IsDir(k, p) && NameOk(n) && IsDir(k, Join(p, n)) && c < 0x1_0000_0000
      && (forall r :: r in m.roots && r.Some? ==> !AtOrBelow(r.value, Join(p, n)))
    case FileEvent(p, n, mask, c) =>
      IsDir(k, p) && NameOk(n) && c < 0x1_0000_0000 && mask in {IN_CREATE, IN_MOVED_FROM, IN_MOVED_TO}
  }

  /** The directories after the operation. */
  ghost function DirsAfter(k: Kernel, op: Op): set<Dir> {
    var ds := Dirs(k.tree);
    match op
    case Mkdir(p, n, ino) => ds + {Dir(Join(p, n), ino)}
    case Rmdir(d) => ds - {d}
    case Rename(p, n, q, n', _) => set d | d in ds :: Dir(Moved(d.path, Join(p, n), Join(q, n')), d.ino)
    case MoveIn(_, _, sub, _) => ds + sub
    case MoveOut(p, n, _) => set d | d in ds && !AtOrBelow(d.path, Join(p, n))
    case FileEvent(_, _, _, _) => ds
  }

  function Padded(n: string): nat {
    (|n| + 16) / 16 * 16
  }

  function WdOf(k: Kernel, p: Path): int {
    var ino := Inode(k.tree, p);
    if ino in k.watches then k.watches[ino] else -1
  }

  function EventOn(k: Kernel, p: Path, mask: nat, cookie: nat, name: string): Event {
    Event(WdOf(k, p), mask, cookie, Padded(name), name)
  }

  function EventsOf(k: Kernel, op: Op): seq<Event> {
    match op
    case Mkdir(p, n, _) => [EventOn(k, p, IN_CREATE + IN_ISDIR, 0, n)]
    case Rmdir(d) => [Event(WdOf(k, d.path), IN_DELETE_SELF, 0, 0, ""), Event(WdOf(k, d.path), IN_IGNORED, 0, 0, "")]
    case Rename(p, n, q, n', c) => [EventOn(k, p, IN_MOVED_FROM + IN_ISDIR, c, n), EventOn(k, q, IN_MOVED_TO + IN_ISDIR, c, n')]
    case MoveIn(p, n, _, c) => [EventOn(k, p, IN_MOVED_TO + IN_ISDIR, c, n)]
    case MoveOut(p, n, c) => [EventOn(k, p, IN_MOVED_FROM + IN_ISDIR, c, n)]
    case FileEvent(p, n, mask, c) => [EventOn(k, p, mask, c, n)]
  }

  /** The kernel after the operation: the tree has changed (and may be walked in any order),
      a removed directory has lost its watch, every other watch stays with its directory, and
      the events are queued. */
  ghost predicate After(k: Kernel, op: Op, k': Kernel) {
    && TreeOk(k'.tree) && Dirs(k'.tree) == DirsAfter(k, op)
    && k' == k.(tree := k'.tree, queue := EventsOf(k, op),
                watches := if op.Rmdir? then k.watches - {op.dir.ino} else k.watches)
  }

  // ---------------------------------------------------------------------
  // Event by event
  // ---------------------------------------------------------------------

  lemma WdOfDir(m: Monitor, p: Path) returns (d: Dir)
    requires Consistent(m) && IsDir(m.k, p)
    ensures d in m.k.tree && d.path == p && d.ino in m.k.watches
    ensures WdOf(m.k, p) == m.k.watches[d.ino] && 1 <= WdOf(m.k, p)
    ensures var j := FindWatch(m.slots, WdOf(m.k, p)); j >= 0 && m.slots[j].path == p
  {
    d :| d in m.k.tree && d.path == p;
    var ino := Inode(m.k.tree, p);
    assert ino == d.ino;
    FoundSlot(m, Dirs(m.k.tree), d);
  }

  /** A kernel that differs from a good one in its tree, its queue and lost watches only. */
  lemma StillInv(m: Monitor, k': Kernel)
    requires Inv(m)
    requires TreeOk(k'.tree) && k'.nextWd == m.k.nextWd && k'.queue == []
    requires k'.watches.Keys <= m.k.watches.Keys && forall i :: i in k'.watches ==> k'.watches[i] == m.k.watches[i]
    ensures Inv(m.(k := k'))
  {
  }

  /** Directories that gain company keep being tracked. */
  lemma StillTracks(m: Monitor, ds: set<Dir>, k': Kernel)
    requires Tracks(m, ds) && Inv(m.(k := k')) && k'.watches == m.k.watches
    ensures Tracks(m.(k := k'), ds)
  {
  }

  lemma LastEvent(m: Monitor, ev: Event)
    requires !m.exited && m.k.queue == [ev]
    ensures RefStep(m) == Handle(WithQueue(m, []), ev, None, false).0
    ensures RefStep(m).k.queue == [] ==> RefRun(m) == RefStep(m)
  {
    Lookahead(WithQueue(m, []), ev, None, None, false);
    var (m', v) := Handle(WithQueue(m, []), ev, None, false);
    assert m.k.queue[1..] == [] && [] + m'.k.queue == m'.k.queue;
    assert Prefixed(m', []) == m';
  }

  /** A directory arrives, alone or with others: mkdir and a move into the tree. */
  lemma ArrivalConsistent(m: Monitor, k': Kernel, p: Path, n: string, ev: Event)
    requires Consistent(m) && IsDir(m.k, p) && Free(m.k, Join(p, n))
    requires ev.wd == WdOf(m.k, p) && ev.name == n && Arrival(ev) && !Has(ev, IN_IGNORED)
    requires TreeOk(k'.tree) && Dirs(m.k.tree) <= Dirs(k'.tree)
    requires forall d :: d in k'.tree && d !in m.k.tree ==> AtOrBelow(d.path, Join(p, n))
    requires k' == m.k.(tree := k'.tree, queue := [ev])
    ensures var r := RefRun(m.(k := k'));
            && r.k.tree == k'.tree
            && (r.exited ==> r.k.nextWd >= WD_LIMIT)
            && (!r.exited ==> Consistent(r))
  {
    hide Tracks, Handle, RefRun, RefStep;
    var d := WdOfDir(m, p);
    var base := Join(p, n);
    var ds := Dirs(m.k.tree);
    var m1 := WithQueue(m.(k := k'), []);
    assert Inv(m) by { TracksInv(m, ds); }
    StillInv(m, m1.k);
    StillTracks(m, ds, m1.k);
    WatchSubtreeTracks(m1, ds, base);
    assert ds + Below(k'.tree, base) == Dirs(k'.tree);
    CachedIffDirectory(m, base);
    HandleArrival(m1, FindWatch(m.slots, ev.wd), ev);
    LastEvent(m.(k := k'), ev);
  }

  lemma HandleArrival(m: Monitor, j: nat, ev: Event)
    requires NeedsSlot(ev) && Arrival(ev) && j == FindWatch(m.slots, ev.wd)
    requires !PathCached(m.slots, Join(m.slots[j].path, ev.name))
    ensures Handle(m, ev, None, false) == (WatchSubtree(m, Join(m.slots[j].path, ev.name)), One)
  {
  }

  // -- rmdir ------------------------------------------------------------

  lemma LostWatch(m: Monitor, ino: nat)
    requires Inv(m) && ino in m.k.watches
    ensures m.k.watches[ino] !in (m.k.watches - {ino}).Values
  {
  }

  lemma DistinctWatches(m: Monitor, i: nat, j: nat)
    requires Inv(m) && i in m.k.watches && j in m.k.watches && i != j
    ensures m.k.watches[i] != m.k.watches[j]
  {
  }

  lemma DistinctSlots(m: Monitor, i: nat, j: nat)
    requires Inv(m) && i < |m.slots| && j < |m.slots| && i != j && Live(m.slots[i])
    ensures m.slots[i].wd != m.slots[j].wd
  {
  }

  /** The slot of another directory survives. */
  lemma ClearedKeeps(m: Monitor, ds: set<Dir>, d: Dir, j: nat, k': Kernel, e: Dir)
    requires Tracks(m, ds) && d in ds && j < |m.slots| && e in ds && e.ino != d.ino
    requires m.slots[j] == Slot(m.k.watches[d.ino], d.path)
    requires k'.watches == m.k.watches - {d.ino}
    ensures e.ino in k'.watches && Slot(k'.watches[e.ino], e.path) in ClearSlot(m.(k := k'), j).slots
  {
    var m' := ClearSlot(m.(k := k'), j);
    var n :| 0 <= n < |m.slots| && m.slots[n] == Slot(m.k.watches[e.ino], e.path);
    DistinctWatches(m, d.ino, e.ino);
    assert m'.slots[n] == m.slots[n];
  }

  /** A live slot left belongs to another directory. */
  lemma ClearedOnly(m: Monitor, ds: set<Dir>, d: Dir, j: nat, k': Kernel, s: Slot)
    requires Tracks(m, ds) && d in ds && j < |m.slots| && Live(s)
    requires m.slots[j] == Slot(m.k.watches[d.ino], d.path)
    requires k'.watches == m.k.watches - {d.ino} && s in ClearSlot(m.(k := k'), j).slots
    requires forall e :: e in ds && e != d ==> e.ino != d.ino
    ensures exists e :: e in ds - {d} && e.ino in k'.watches && s == Slot(k'.watches[e.ino], e.path)
  {
    var m' := ClearSlot(m.(k := k'), j);
    var n :| 0 <= n < |m'.slots| && m'.slots[n] == s;
    assert m.slots[n] == s && s in m.slots;
    var e :| e in ds && e.ino in m.k.watches && s == Slot(m.k.watches[e.ino], e.path);
    DistinctSlots(m, n, j);
    assert e in ds - {d};
  }

  lemma ClearedTracks(m: Monitor, ds: set<Dir>, d: Dir, j: nat, k': Kernel)
    requires Tracks(m, ds) && d in ds && j < |m.slots|
    requires forall e :: e in ds && e != d ==> e.ino != d.ino
    requires m.slots[j] == Slot(m.k.watches[d.ino], d.path)
    requires k'.watches == m.k.watches - {d.ino} && Inv(m.(k := k'))
    ensures Tracks(ClearSlot(m.(k := k'), j), ds - {d})
  {
    var m' := ClearSlot(m.(k := k'), j);
    LostWatch(m, d.ino);
    ClearSlotKeepsInv(m.(k := k'), j);
    hide Inv;
    forall e | e in ds - {d} ensures e.ino in k'.watches && Slot(k'.watches[e.ino], e.path) in m'.slots {
      ClearedKeeps(m, ds, d, j, k', e);
    }
    forall s | s in m'.slots && Live(s)
      ensures exists e :: e in ds - {d} && e.ino in k'.watches && s == Slot(k'.watches[e.ino], e.path)
    {
      ClearedOnly(m, ds, d, j, k', s);
    }
  }

  lemma HandleDeleteSelf(m: Monitor, j: nat, ev: Event, next: Option<Event>)
    requires ev.mask == IN_DELETE_SELF && ev.wd != -1
    requires j == FindWatch(m.slots, ev.wd) && !IsRoot(m.roots, m.slots[j].path) && !m.exited
    ensures Handle(m, ev, next, false) == (ClearSlot(m, j), One)
  {
    hide Has;
    MaskFlags(ev);
  }

  /** "Ignored" notices change nothing. */
  lemma {:induction false} IgnoredRun(m: Monitor)
    requires !m.exited
    requires forall ev :: ev in m.k.queue ==> ev.mask == IN_IGNORED
    ensures RefRun(m) == WithQueue(m, [])
    decreases |m.k.queue|
  {
    var q := m.k.queue;
    if q != [] {
      assert q[0] in q;
      assert Handle(WithQueue(m, []), q[0], NextOf(q), false) == (WithQueue(m, []), One);
      assert RefStep(m) == WithQueue(m, q[1..]);
      IgnoredRun(WithQueue(m, q[1..]));
    }
  }

  lemma RmdirConsistent(m: Monitor, d: Dir, k': Kernel)
    requires Consistent(m) && OpOk(m, Rmdir(d)) && After(m.k, Rmdir(d), k')
    ensures Consistent(RefRun(m.(k := k'))) && RefRun(m.(k := k')).k.tree == k'.tree
  {
    hide Tracks, Handle, RefRun, RefStep;
    var ds := Dirs(m.k.tree);
    assert IsDir(m.k, d.path);
    var e := WdOfDir(m, d.path);
    assert e == d;
    FoundSlot(m, ds, d);
    var m0 := m.(k := k');
    var m1 := WithQueue(m0, []);
    var j := FindWatch(m.slots, m.k.watches[d.ino]);
    assert Inv(m) by { TracksInv(m, ds); }
    StillInv(m, m1.k);
    ClearedTracks(m, ds, d, j, m1.k);
    var ev, ig := k'.queue[0], k'.queue[1];
    HandleDeleteSelf(m1, j, ev, Some(ig));
    var m2 := ClearSlot(m1, j);
    StepIs(m0, k'.queue, m2, One);
    assert m0 == WithQueue(m0, k'.queue);
    assert RefStep(m0) == WithQueue(m2, [ig]);
    RunUnfold(m0);
    IgnoredRun(WithQueue(m2, [ig]));
    assert WithQueue(WithQueue(m2, [ig]), []) == m2;
  }

  lemma RunUnfold(m: Monitor)
    requires !Idle(m)
    ensures RefRun(m) == RefRun(RefStep(m))
  {
  }

  lemma RunIdle(m: Monitor)
    requires Idle(m)
    ensures RefRun(m) == m
  {
  }

  // -- rename -----------------------------------------------------------

  lemma RewrittenHas(m: Monitor, ds: set<Dir>, from: Path, to: Path, d: Dir)
    requires Tracks(m, ds) && from != "" && d in ds
    ensures d.ino in m.k.watches && Slot(m.k.watches[d.ino], Moved(d.path, from, to)) in Rewrite(m.slots, from, to)
  {
    hide Inv, Moved;
    var n :| 0 <= n < |m.slots| && m.slots[n] == Slot(m.k.watches[d.ino], d.path);
    assert Rewrite(m.slots, from, to)[n] == Slot(m.k.watches[d.ino], Moved(d.path, from, to));
  }

  lemma RewrittenOnly(m: Monitor, ds: set<Dir>, from: Path, to: Path, s: Slot)
    requires Tracks(m, ds) && from != "" && s in Rewrite(m.slots, from, to) && Live(s)
    ensures exists d :: d in ds && d.ino in m.k.watches && s == Slot(m.k.watches[d.ino], Moved(d.path, from, to))
  {
    hide Inv, Moved;
    var r := Rewrite(m.slots, from, to);
    var n :| 0 <= n < |r| && r[n] == s;
    assert m.slots[n] in m.slots && Live(m.slots[n]);
    var d :| d in ds && d.ino in m.k.watches && m.slots[n] == Slot(m.k.watches[d.ino], d.path);
  }

  lemma TracksFrom(m: Monitor, ds: set<Dir>)
    requires Inv(m)
    requires forall d :: d in ds ==> d.ino in m.k.watches && Slot(m.k.watches[d.ino], d.path) in m.slots
    requires forall s :: s in m.slots && Live(s) ==>
               exists d :: d in ds && d.ino in m.k.watches && s == Slot(m.k.watches[d.ino], d.path)
    ensures Tracks(m, ds)
  {
    hide Inv;
  }

  lemma RewrittenTracks(m: Monitor, ds: set<Dir>, from: Path, to: Path, k': Kernel)
    requires Tracks(m, ds) && from != ""
    requires k'.watches == m.k.watches && Inv(m.(k := k'))
    ensures Tracks(m.(slots := Rewrite(m.slots, from, to), k := k'),
                   set d | d in ds :: Dir(Moved(d.path, from, to), d.ino))
  {
    hide Inv, Moved, Rewrite, Live, Tracks;
    var ds' := set d | d in ds :: Dir(Moved(d.path, from, to), d.ino);
    var r := Rewrite(m.slots, from, to);
    RewriteKeepsInv(m.(k := k'), from, to);
    forall e | e in ds' ensures e.ino in k'.watches && Slot(k'.watches[e.ino], e.path) in r {
      var d :| d in ds && e == Dir(Moved(d.path, from, to), d.ino);
      RewrittenHas(m, ds, from, to, d);
    }
    forall s | s in r && Live(s)
      ensures exists e :: e in ds' && e.ino in k'.watches && s == Slot(k'.watches[e.ino], e.path)
    {
      RewrittenOnly(m, ds, from, to, s);
      var d :| d in ds && d.ino in m.k.watches && s == Slot(m.k.watches[d.ino], Moved(d.path, from, to));
      assert Dir(Moved(d.path, from, to), d.ino) in ds';
    }
    TracksFrom(m.(slots := r, k := k'), ds');
  }

  lemma HandleRename(m: Monitor, i: nat, j: nat, ev: Event, next: Event)
    requires ev.mask == IN_MOVED_FROM + IN_ISDIR && next.mask == IN_MOVED_TO + IN_ISDIR && ev.cookie == next.cookie
    requires ev.wd != -1 && i == FindWatch(m.slots, ev.wd) && j == FindWatch(m.slots, next.wd)
    ensures Handle(m, ev, Some(next), false) ==
            (m.(slots := Rewrite(m.slots, Join(m.slots[i].path, ev.name), Join(m.slots[j].path, next.name))), Two)
  {
    hide Has;
    MaskFlags(ev);
    MaskFlags(next);
  }

  lemma RenameConsistent(m: Monitor, op: Op, k': Kernel)
    requires op.Rename? && Consistent(m) && OpOk(m, op) && After(m.k, op, k')
    ensures Consistent(RefRun(m.(k := k'))) && RefRun(m.(k := k')).k.tree == k'.tree
  {
    hide Tracks, Handle, RefRun, RefStep, Rewrite;
    var ds := Dirs(m.k.tree);
    var from, to := Join(op.parent, op.name), Join(op.newParent, op.newName);
    var d := WdOfDir(m, op.parent);
    var e := WdOfDir(m, op.newParent);
    var m0 := m.(k := k');
    var m1 := WithQueue(m0, []);
    assert Inv(m) by { TracksInv(m, ds); }
    StillInv(m, m1.k);
    RewrittenTracks(m, ds, from, to, m1.k);
    var q := k'.queue;
    HandleRename(m1, FindWatch(m.slots, q[0].wd), FindWatch(m.slots, q[1].wd), q[0], q[1]);
    var m2 := m1.(slots := Rewrite(m.slots, from, to));
    StepIs(m0, q, m2, Two);
    assert m0 == WithQueue(m0, q);
    assert q[2..] == [] && Prefixed(m2, []) == m2;
    RunUnfold(m0);
    RunIdle(m2);
  }

  // -- move out ---------------------------------------------------------

  /** The slot and the watch of a directory at or below `base` in slot j or later. */
  ghost predicate ToGo(slots: seq<Slot>, base: Path, j: nat, wd: int) {
    exists n :: j <= n < |slots| && Doomed(slots[n], base) && slots[n].wd == wd
  }

  /** From slot j on exactly the doomed slots have been emptied, exactly their watches are
      gone, and nothing but "ignored" notices has been queued. */
  ghost predicate Zapped(m: Monitor, m': Monitor, base: Path, j: nat) {
    && |m'.slots| == |m.slots|
    && m'.k.tree == m.k.tree && m'.roots == m.roots && m'.exited == m.exited
    && (forall n :: 0 <= n < |m.slots| ==>
          m'.slots[n] == if j <= n && Doomed(m.slots[n], base) then FREE else m.slots[n])
    && (forall i :: i in m'.k.watches <==> i in m.k.watches && !ToGo(m.slots, base, j, m.k.watches[i]))
    && (forall i :: i in m'.k.watches ==> m'.k.watches[i] == m.k.watches[i])
    && m.k.queue <= m'.k.queue
    && (forall n :: |m.k.queue| <= n < |m'.k.queue| ==> m'.k.queue[n].mask == IN_IGNORED)
  }

  lemma ZappedSkip(m: Monitor, m': Monitor, base: Path, j: nat)
    requires j < |m.slots| && !Doomed(m.slots[j], base) && Zapped(m, m', base, j + 1)
    ensures Zapped(m, m', base, j)
  {
    forall w ensures ToGo(m.slots, base, j, w) <==> ToGo(m.slots, base, j + 1, w) {
    }
  }

  lemma ZappedTake(m: Monitor, m1: Monitor, m': Monitor, base: Path, j: nat)
    requires j < |m.slots| && Doomed(m.slots[j], base) && m.slots[j].wd in m.k.watches.Values
    requires m1 == ClearSlot(m.(k := RmWatch(m.k, m.slots[j].wd).0), j)
    requires Zapped(m1, m', base, j + 1)
    ensures Zapped(m, m', base, j)
  {
    var wd := m.slots[j].wd;
    forall w ensures ToGo(m.slots, base, j, w) <==> w == wd || ToGo(m1.slots, base, j + 1, w) {
      assert forall n :: j + 1 <= n < |m.slots| ==> m1.slots[n] == m.slots[n];
    }
    assert m1.k.queue == m.k.queue + [Event(wd, IN_IGNORED, 0, 0, "")];
    assert forall n :: 0 <= n < |m1.k.queue| ==> m'.k.queue[n] == m1.k.queue[n];
  }

  /** Every slot to be emptied still has its watch. */
  ghost predicate DoomedWatched(m: Monitor, base: Path, j: nat) {
    forall n :: j <= n < |m.slots| && Doomed(m.slots[n], base) ==> m.slots[n].wd in m.k.watches.Values
  }

  /** Removing one watch leaves the others. */
  lemma OthersWatched(m: Monitor, base: Path, j: nat)
    requires Inv(m) && j < |m.slots| && Live(m.slots[j]) && m.slots[j].wd in m.k.watches.Values
    ensures var m1 := ClearSlot(m.(k := RmWatch(m.k, m.slots[j].wd).0), j);
            DoomedWatched(m, base, j + 1) <==> DoomedWatched(m1, base, j + 1)
  {
    var m1 := ClearSlot(m.(k := RmWatch(m.k, m.slots[j].wd).0), j);
    forall n | j + 1 <= n < |m1.slots| && Live(m.slots[n])
      ensures m1.slots[n] == m.slots[n]
      ensures m1.slots[n].wd in m1.k.watches.Values <==> m.slots[n].wd in m.k.watches.Values
    {
      if m.slots[n].wd in m.k.watches.Values {
        var i :| i in m.k.watches && m.k.watches[i] == m.slots[n].wd;
        assert i in m1.k.watches && m1.k.watches[i] == m1.slots[n].wd;
      }
    }
  }

  /** When every slot to be emptied still has its watch, no removal fails. */
  lemma {:induction false} ZapFromAll(m: Monitor, base: Path, j: nat)
    requires Inv(m) && j <= |m.slots| && DoomedWatched(m, base, j)
    ensures var (m', ok) := ZapFrom(m, base, j);
            ok && Inv(m') && Zapped(m, m', base, j)
    decreases |m.slots| - j
  {
    if j < |m.slots| {
      hide Inv, Zapped;
      var m' := ZapFrom(m, base, j).0;
      if !Doomed(m.slots[j], base) {
        ZapFromAll(m, base, j + 1);
        ZappedSkip(m, m', base, j);
      } else {
        RemoveKeepsInv(m, j);
        OthersWatched(m, base, j);
        var m1 := ClearSlot(m.(k := RmWatch(m.k, m.slots[j].wd).0), j);
        ZapFromAll(m1, base, j + 1);
        ZappedTake(m, m1, m', base, j);
      }
    }
  }

  lemma TrackedWatches(m: Monitor, ds: set<Dir>, n: nat)
    requires Tracks(m, ds) && n < |m.slots| && Live(m.slots[n])
    ensures m.slots[n].wd in m.k.watches.Values
  {
    assert m.slots[n] in m.slots;
  }

  /** Descriptors being distinct, the watch of a slot that stays, stays. */
  lemma NotToGo(m: Monitor, base: Path, n: nat)
    requires Inv(m) && n < |m.slots| && Live(m.slots[n]) && !Doomed(m.slots[n], base)
    ensures !ToGo(m.slots, base, 0, m.slots[n].wd)
  {
  }

  lemma ZappedTracks(m: Monitor, m': Monitor, ds: set<Dir>, base: Path)
    requires Tracks(m, ds) && Inv(m') && Zapped(m, m', base, 0)
    ensures Tracks(m', set d | d in ds && !AtOrBelow(d.path, base))
  {
    hide Inv, ToGo;
    var ds' := set d | d in ds && !AtOrBelow(d.path, base);
    forall d | d in ds' ensures d.ino in m'.k.watches && Slot(m'.k.watches[d.ino], d.path) in m'.slots {
      WatchIsLive(m, d.ino);
      var n :| 0 <= n < |m.slots| && m.slots[n] == Slot(m.k.watches[d.ino], d.path);
      NotToGo(m, base, n);
      assert m'.slots[n] == m.slots[n];
    }
    forall s | s in m'.slots && Live(s)
      ensures exists d :: d in ds' && d.ino in m'.k.watches && s == Slot(m'.k.watches[d.ino], d.path)
    {
      var n :| 0 <= n < |m'.slots| && m'.slots[n] == s;
      assert m.slots[n] == s && s in m.slots;
      var d :| d in ds && d.ino in m.k.watches && s == Slot(m.k.watches[d.ino], d.path);
      NotToGo(m, base, n);
      assert d in ds';
    }
  }

  lemma HandleMoveOut(m: Monitor, i: nat, ev: Event)
    requires ev.mask == IN_MOVED_FROM + IN_ISDIR && ev.wd != -1 && i == FindWatch(m.slots, ev.wd)
    ensures Handle(m, ev, None, false) == ZapOrRebuild(m, Join(m.slots[i].path, ev.name))
  {
    hide Has;
    MaskFlags(ev);
  }

  lemma MoveOutConsistent(m: Monitor, op: Op, k': Kernel)
    requires op.MoveOut? && Consistent(m) && OpOk(m, op) && After(m.k, op, k')
    ensures Consistent(RefRun(m.(k := k'))) && RefRun(m.(k := k')).k.tree == k'.tree
  {
    hide Tracks, Handle, RefRun, RefStep, ZapFrom;
    var ds := Dirs(m.k.tree);
    var base := Join(op.parent, op.name);
    var d := WdOfDir(m, op.parent);
    var m0 := m.(k := k');
    var m1 := WithQueue(m0, []);
    assert Inv(m) by { TracksInv(m, ds); }
    StillInv(m, m1.k);
    StillTracks(m, ds, m1.k);
    forall n | 0 <= n < |m1.slots| && Live(m1.slots[n]) ensures m1.slots[n].wd in m1.k.watches.Values {
      TrackedWatches(m1, ds, n);
    }
    ZapFromAll(m1, base, 0);
    var m2 := Zap(m1, base).0;
    ZappedTracks(m1, m2, ds, base);
    var ev := k'.queue[0];
    HandleMoveOut(m1, FindWatch(m.slots, ev.wd), ev);
    LastEvent(m0, ev);
    RunUnfold(m0);
    IgnoredRun(m2);
    var m3 := WithQueue(m2, []);
    StillInv(m2, m3.k);
    StillTracks(m2, Dirs(k'.tree), m3.k);
  }

  // -- everything -------------------------------------------------------

  lemma HandleFileEvent(m: Monitor, i: nat, ev: Event)
    requires ev.mask in {IN_CREATE, IN_MOVED_FROM, IN_MOVED_TO}
    requires ev.wd != -1 && i == FindWatch(m.slots, ev.wd)
    ensures Handle(m, ev, None, false) == (m, One)
  {
    hide Has;
    MaskFlags(ev);
  }

  lemma FileEventConsistent(m: Monitor, op: Op, k': Kernel)
    requires op.FileEvent? && Consistent(m) && OpOk(m, op) && After(m.k, op, k')
    ensures Consistent(RefRun(m.(k := k'))) && RefRun(m.(k := k')).k.tree == k'.tree
  {
    hide Tracks, Handle, RefRun, RefStep;
    var ds := Dirs(m.k.tree);
    var d := WdOfDir(m, op.parent);
    var m1 := WithQueue(m.(k := k'), []);
    assert Inv(m) by { TracksInv(m, ds); }
    StillInv(m, m1.k);
    StillTracks(m, ds, m1.k);
    var ev := k'.queue[0];
    HandleFileEvent(m1, FindWatch(m.slots, ev.wd), ev);
    LastEvent(m.(k := k'), ev);
  }

  /** After any operation, once its events have been processed, the cache is again exactly the
      monitored trees -- unless the program has exited because no descriptor was left. */
  lemma OpKeepsConsistent(m: Monitor, op: Op, k': Kernel)
    requires Consistent(m) && OpOk(m, op) && After(m.k, op, k')
    ensures var r := RefRun(m.(k := k'));
            && r.k.tree == k'.tree
            && (r.exited ==> r.k.nextWd >= WD_LIMIT)
            && (!r.exited ==> Consistent(r))
  {
    hide Tracks, RefRun;
    match op
    case Mkdir(p, n, ino) =>
      assert forall d :: d in k'.tree <==> d in Dirs(k'.tree);
      MaskFlags(k'.queue[0]);
      ArrivalConsistent(m, k', p, n, k'.queue[0]);
    case MoveIn(p, n, sub, c) =>
      assert forall d :: d in k'.tree <==> d in Dirs(k'.tree);
      MaskFlags(k'.queue[0]);
      ArrivalConsistent(m, k', p, n, k'.queue[0]);
    case Rmdir(d) => RmdirConsistent(m, d, k');
    case Rename(_, _, _, _, _) => RenameConsistent(m, op, k');
    case MoveOut(_, _, _) => MoveOutConsistent(m, op, k');
    case FileEvent(_, _, _, _) => FileEventConsistent(m, op, k');
  }

  /** A history: operations one after the other, each with the kernel it leads to. */
  ghost predicate History(m: Monitor, steps: seq<(Op, Kernel)>)
    decreases |steps|
  {
    steps != [] ==>
      && OpOk(m, steps[0].0) && After(m.k, steps[0].0, steps[0].1)
      && History(RefRun(m.(k := steps[0].1)), steps[1..])
  }

  ghost function Outcome(m: Monitor, steps: seq<(Op, Kernel)>): Monitor
    decreases |steps|
  {
    if steps == [] || m.exited then m else Outcome(RefRun(m.(k := steps[0].1)), steps[1..])
  }

  /** After every history the cached pathnames are exactly the directories, or all descriptors have
      been issued. */
  lemma {:induction false} HistoryKeepsConsistent(m: Monitor, steps: seq<(Op, Kernel)>)
    requires Consistent(m) && History(m, steps)
    ensures var r := Outcome(m, steps);
            if r.exited then r.k.nextWd >= WD_LIMIT else Consistent(r)
    decreases |steps|
  {
    if steps != [] {
      OpKeepsConsistent(m, steps[0].0, steps[0].1);
      var m' := RefRun(m.(k := steps[0].1));
      if !m'.exited {
        HistoryKeepsConsistent(m', steps[1..]);
      }
    }
  }

  // ---------------------------------------------------------------------
  // Laws of rewriteCachedPaths
  // ---------------------------------------------------------------------

  /** Exactly the slots at or below the old pathname change. */
  lemma RewriteTouches(slots: seq<Slot>, from: Path, to: Path, j: nat)
    requires from != to && j < |slots|
    ensures Rewrite(slots, from, to)[j] != slots[j] <==> AtOrBelow(slots[j].path, from)
    ensures Rewrite(slots, from, to)[j].wd == slots[j].wd
  {
    var p := slots[j].path;
    if AtOrBelow(p, from) {
      assert p == from + p[|from|..];
      Cancel(from, to, p[|from|..]);
    }
  }

  lemma Cancel(a: string, b: string, t: string)
    requires a != b
    ensures a + t != b + t
  {
    if |a| == |b| {
      assert (a + t)[..|a|] == a && (b + t)[..|b|] == b;
    }
  }

  /** The inverse rename restores the cache if and only if nothing at or below the new
      pathname had been cached except what lay below the old one as well. */
  lemma RewriteUndone(slots: seq<Slot>, from: Path, to: Path)
    requires from != to
    ensures Rewrite(Rewrite(slots, from, to), to, from) == slots <==>
            forall s :: s in slots && AtOrBelow(s.path, to) ==> AtOrBelow(s.path, from)
  {
    var r := Rewrite(Rewrite(slots, from, to), to, from);
    forall j | 0 <= j < |slots|
      ensures r[j] == slots[j] <==> (AtOrBelow(slots[j].path, to) ==> AtOrBelow(slots[j].path, from))
    {
      var p := slots[j].path;
      if AtOrBelow(p, to) && !AtOrBelow(p, from) {
        assert p == to + p[|to|..];
        Cancel(from, to, p[|to|..]);
      } else {
        MovedBack(p, from, to);
      }
    }
    if r == slots {
      forall s | s in slots && AtOrBelow(s.path, to) ensures AtOrBelow(s.path, from) {
        var j :| 0 <= j < |slots| && slots[j] == s;
      }
    }
  }

  /** Cached pathnames stay distinct when nothing was cached at or below the new one. */
  lemma RewriteDistinct(slots: seq<Slot>, from: Path, to: Path, i: nat, j: nat)
    requires i < |slots| && j < |slots| && slots[i].path != slots[j].path
    requires forall s :: s in slots && AtOrBelow(s.path, to) ==> AtOrBelow(s.path, from)
    ensures Rewrite(slots, from, to)[i].path != Rewrite(slots, from, to)[j].path
  {
    assert slots[i] in slots && slots[j] in slots;
    if Moved(slots[i].path, from, to) == Moved(slots[j].path, from, to) {
      MovedInjective(slots[i].path, slots[j].path, from, to);
    }
  }
}

/** inotify_dtree.c as functions on its whole state: what each operation leaves behind when
    nobody else touches the tree meanwhile, and the invariant that survives even when
    somebody does. */
module DtreeSpec {
  import opened Wrappers
  import opened Paths
  import opened Inotify

  // ---------------------------------------------------------------------
  // The cache
  // ---------------------------------------------------------------------

  /** struct watch; wd is -1 in an unused slot. */
  datatype Slot = Slot(wd: int, path: Path)

  const FREE := Slot(-1, "")
  const ALLOC_INCR: nat := 200

  predicate Live(s: Slot) {
    s.wd >= 0
  }

  predicate HasWd(slots: seq<Slot>, wd: int) {
    exists j :: 0 <= j < |slots| && slots[j].wd == wd
  }

  predicate PathCached(slots: seq<Slot>, path: Path) {
    exists j :: 0 <= j < |slots| && Live(slots[j]) && slots[j].path == path
  }

  /** The first slot holding `wd`, or -1. */
  function FindWatch(slots: seq<Slot>, wd: int): (r: int)
    ensures -1 <= r < |slots|
    ensures r >= 0 ==> slots[r].wd == wd && forall j :: 0 <= j < r ==> slots[j].wd != wd
    ensures r == -1 <==> !HasWd(slots, wd)
  {
    if |slots| == 0 then -1
    else
      var n := |slots| - 1;
      var r := FindWatch(slots[..n], wd);
      if r >= 0 then assert slots[r].wd == wd; r
      else if slots[n].wd == wd then n else
        assert forall j :: 0 <= j < n ==> slots[j] == slots[..n][j];
        -1
  }

  function Blank(n: nat): (s: seq<Slot>)
    ensures |s| == n && forall j :: 0 <= j < n ==> s[j] == FREE
  {
    seq(n, _ => FREE)
  }

  function AddSlot(slots: seq<Slot>, wd: int, path: Path): seq<Slot> {
    var i := FindWatch(slots, -1);
    if i >= 0 then slots[i := Slot(wd, path)]
    else slots + [Slot(wd, path)] + Blank(ALLOC_INCR - 1)
  }

  function Rewrite(slots: seq<Slot>, from: Path, to: Path): (r: seq<Slot>)
    ensures |r| == |slots|
    ensures forall j :: 0 <= j < |r| ==> r[j] == slots[j].(path := Moved(slots[j].path, from, to))
  {
    seq(|slots|, j requires 0 <= j < |slots| => slots[j].(path := Moved(slots[j].path, from, to)))
  }

  // ---------------------------------------------------------------------
  // The program
  // ---------------------------------------------------------------------

  /** The global variables of the program beside the kernel state it works on. A root
      pathname that is no longer monitored is None. */
  datatype Monitor = Monitor(slots: seq<Slot>, roots: seq<Option<Path>>, k: Kernel, exited: bool)

  /** traverseTree for one directory. */
  function Traverse(m: Monitor, path: Path): Monitor {
    match AddWatch(m.k, path)
    case (k', Watching(wd)) =>
      if HasWd(m.slots, wd) then m.(k := k') else m.(k := k', slots := AddSlot(m.slots, wd, path))
    case (k', NoEntry) => m.(k := k')
    case (k', Failed) => m.(k := k', exited := true)
  }

  function WatchAll(m: Monitor, paths: seq<Path>): Monitor
    decreases |paths|
  {
    if paths == [] || m.exited then m else WatchAll(Traverse(m, paths[0]), paths[1..])
  }

  function WatchSubtree(m: Monitor, path: Path): Monitor {
    WatchAll(m, Listing(m.k.tree, path))
  }

  predicate Doomed(s: Slot, base: Path) {
    Live(s) && AtOrBelow(s.path, base)
  }

  /** The loop of zapSubtree from slot j on; the flag is false if a removal failed. */
  function ZapFrom(m: Monitor, base: Path, j: nat): (Monitor, bool)
    requires j <= |m.slots|
    decreases |m.slots| - j
  {
    if j == |m.slots| then (m, true)
    else if !Doomed(m.slots[j], base) then ZapFrom(m, base, j + 1)
    else
      var (k', ok) := RmWatch(m.k, m.slots[j].wd);
      if !ok then (m.(k := k'), false)
      else ZapFrom(m.(k := k', slots := m.slots[j := FREE]), base, j + 1)
  }

  function Zap(m: Monitor, base: Path): (Monitor, bool) {
    ZapFrom(m, base, 0)
  }

  function WatchRoots(m: Monitor, roots: seq<Option<Path>>): Monitor
    decreases |roots|
  {
    if roots == [] || m.exited then m
    else WatchRoots(if roots[0].Some? then WatchSubtree(m, roots[0].value) else m, roots[1..])
  }

  function Reinitialize(m: Monitor): Monitor {
    WatchRoots(m.(k := NewInstance(m.k), slots := []), m.roots)
  }

  predicate IsRoot(roots: seq<Option<Path>>, path: Path) {
    Some(path) in roots
  }

  /** zapRootDirPath: the first root with that pathname is dropped; the program ends when
      none is left, or when there was none. */
  function DropRoot(m: Monitor, path: Path): Monitor {
    if !IsRoot(m.roots, path) then m.(exited := true)
    else
      var roots := DropFirst(m.roots, path);
      m.(roots := roots, exited := m.exited || forall r :: r in roots ==> r == None)
  }

  function DropFirst(roots: seq<Option<Path>>, path: Path): (r: seq<Option<Path>>)
    ensures |r| == |roots|
    ensures forall i :: 0 <= i < |r| ==> r[i] == roots[i] || (roots[i] == Some(path) && r[i] == None)
  {
    if roots == [] then []
    else if roots[0] == Some(path) then [None] + roots[1..]
    else [roots[0]] + DropFirst(roots[1..], path)
  }

  function ClearSlot(m: Monitor, j: nat): Monitor
    requires j < |m.slots|
  {
    m.(slots := m.slots[j := FREE])
  }

  // ---------------------------------------------------------------------
  // One event
  // ---------------------------------------------------------------------

  /** What processNextInotifyEvent tells its caller: so many events consumed, everything in
      the buffer to be discarded, or the buffer ends where a matching event might follow. */
  datatype Verdict = One | Two | Discard | NeedMore

  predicate NeedsSlot(ev: Event) {
    ev.wd != -1 && !Has(ev, IN_IGNORED)
  }

  predicate Arrival(ev: Event) {
    Has(ev, IN_ISDIR) && (Has(ev, IN_CREATE) || Has(ev, IN_MOVED_TO))
  }

  predicate DirMovedFrom(ev: Event) {
    Has(ev, IN_MOVED_FROM) && Has(ev, IN_ISDIR)
  }

  predicate Matches(ev: Event, next: Option<Event>) {
    next.Some? && Has(next.value, IN_MOVED_TO) && next.value.cookie == ev.cookie
  }

  /** Zap, or rebuild if some removal failed. */
  function ZapOrRebuild(m: Monitor, base: Path): (Monitor, Verdict) {
    var (m', ok) := Zap(m, base);
    if ok then (m', One) else (Reinitialize(m'), Discard)
  }

  function HandleMovedFrom(m: Monitor, path: Path, ev: Event, next: Option<Event>, firstTry: bool): (Monitor, Verdict) {
    if Matches(ev, next) then
      var to := FindWatch(m.slots, next.value.wd);
      if to == -1 then (Reinitialize(m), Discard)
      else (m.(slots := Rewrite(m.slots, Join(path, ev.name), Join(m.slots[to].path, next.value.name))), Two)
    else if next.Some? || !firstTry then ZapOrRebuild(m, Join(path, ev.name))
    else (m, NeedMore)
  }

  function HandleMoveSelf(m: Monitor, path: Path): (Monitor, Verdict) {
    if !IsRoot(m.roots, path) then (m, One)
    else
      var m' := DropRoot(m, path);
      if m'.exited then (m', One) else ZapOrRebuild(m', path)
  }

  /** An event on the watch that slot j holds. */
  function HandleAt(m: Monitor, j: nat, ev: Event, next: Option<Event>, firstTry: bool): (Monitor, Verdict)
    requires j < |m.slots|
  {
    var path := m.slots[j].path;
    if Arrival(ev) then
      (if PathCached(m.slots, Join(path, ev.name)) then m else WatchSubtree(m, Join(path, ev.name)), One)
    else if Has(ev, IN_DELETE_SELF) then
      var m' := if IsRoot(m.roots, path) then DropRoot(m, path) else m;
      (if m'.exited then m' else ClearSlot(m', j), One)
    else if DirMovedFrom(ev) then HandleMovedFrom(m, path, ev, next, firstTry)
    else if Has(ev, IN_Q_OVERFLOW) then (Reinitialize(m), Discard)
    else if Has(ev, IN_UNMOUNT) then (ClearSlot(m, j), One)
    else if Has(ev, IN_MOVE_SELF) then HandleMoveSelf(m, path)
    else (m, One)
  }

  /** processNextInotifyEvent on the event `ev` followed in the buffer by `next`. */
  function Handle(m: Monitor, ev: Event, next: Option<Event>, firstTry: bool): (Monitor, Verdict) {
    if !NeedsSlot(ev) then
      if Has(ev, IN_Q_OVERFLOW) then (Reinitialize(m), Discard) else (m, One)
    else
      var j := FindWatch(m.slots, ev.wd);
      if j == -1 then (Reinitialize(m), Discard) else HandleAt(m, j, ev, next, firstTry)
  }

  // ---------------------------------------------------------------------
  // The invariant
  // ---------------------------------------------------------------------

  /** Live slots have pairwise distinct descriptors that the instance issued, and every
      watch that the instance holds has a live slot (hence exactly one). */
  ghost predicate SlotsOk(slots: seq<Slot>, k: Kernel) {
    && (forall j :: 0 <= j < |slots| ==> slots[j] == FREE || 1 <= slots[j].wd < k.nextWd)
    && (forall i, j :: 0 <= i < j < |slots| && Live(slots[i]) && Live(slots[j]) ==> slots[i].wd != slots[j].wd)
    && (forall i :: i in k.watches ==> HasWd(slots, k.watches[i]))
  }

  ghost predicate Inv(m: Monitor) {
    KernelOk(m.k) && SlotsOk(m.slots, m.k)
  }

  lemma EnvStepKeepsInv(m: Monitor, k': Kernel)
    requires Inv(m) && EnvStep(m.k, k')
    ensures Inv(m.(k := k'))
  {
  }

  /** Events leaving the front of the queue. */
  lemma TakeKeepsInv(m: Monitor, n: nat)
    requires Inv(m) && n <= |m.k.queue|
    ensures var k' := m.k.(queue := m.k.queue[n..]);
            && Inv(m.(k := k')) && Later(m.k, k')
            && (forall ev :: ev in m.k.queue[..n] ==> EventOk(k', ev) && Wellformed(ev))
            && Work(k') + Weight(m.k.queue[..n]) == Work(m.k)
  {
    var q := m.k.queue;
    assert q == q[..n] + q[n..];
    WeightAppend(q[..n], q[n..]);
    var k' := m.k.(queue := q[n..]);
    forall ev | ev in q[..n] || ev in q[n..] ensures EventOk(k', ev) {
      assert ev in q && EventOk(m.k, ev);
    }
  }

  lemma ExitKeepsInv(m: Monitor)
    requires Inv(m)
    ensures Inv(m.(exited := true))
  {
  }

  lemma AddSlotOk(slots: seq<Slot>, k: Kernel, wd: int, path: Path)
    requires forall j :: 0 <= j < |slots| ==> slots[j] == FREE || 1 <= slots[j].wd < k.nextWd
    requires forall i, j :: 0 <= i < j < |slots| && Live(slots[i]) && Live(slots[j]) ==> slots[i].wd != slots[j].wd
    requires !HasWd(slots, wd) && 1 <= wd < k.nextWd
    ensures var r := AddSlot(slots, wd, path);
            && (forall j :: 0 <= j < |r| ==> r[j] == FREE || 1 <= r[j].wd < k.nextWd)
            && (forall i, j :: 0 <= i < j < |r| && Live(r[i]) && Live(r[j]) ==> r[i].wd != r[j].wd)
            && HasWd(r, wd)
            && (forall w :: w != -1 && HasWd(slots, w) ==> HasWd(r, w))
  {
    var r := AddSlot(slots, wd, path);
    var i := FindWatch(slots, -1);
    assert r[if i >= 0 then i else |slots|].wd == wd;
    forall w | w != -1 && HasWd(slots, w) ensures HasWd(r, w) {
      var j :| 0 <= j < |slots| && slots[j].wd == w;
      assert r[j].wd == w;
    }
  }

  lemma WatchAdded(slots: seq<Slot>, k: Kernel, k': Kernel, wd: int, path: Path)
    requires SlotsOk(slots, k)
    requires k.nextWd <= k'.nextWd && 1 <= wd < k'.nextWd
    requires forall i :: i in k'.watches ==>
               k'.watches[i] == wd || (i in k.watches && k'.watches[i] == k.watches[i] != -1)
    ensures SlotsOk(if HasWd(slots, wd) then slots else AddSlot(slots, wd, path), k')
  {
    if !HasWd(slots, wd) {
      hide AddSlot;
      AddSlotOk(slots, k', wd, path);
    }
  }

  lemma TraverseKeepsInv(m: Monitor, path: Path)
    requires Inv(m)
    ensures Inv(Traverse(m, path))
  {
    hide SlotsOk, HasWd, AddSlot;
    AddWatchOk(m.k, path);
    var (k', r) := AddWatch(m.k, path);
    if r.Watching? {
      WatchAdded(m.slots, m.k, k', r.wd, path);
    }
  }

  lemma ClearSlotKeepsInv(m: Monitor, j: nat)
    requires Inv(m) && j < |m.slots|
    requires m.slots[j].wd !in m.k.watches.Values
    ensures Inv(ClearSlot(m, j))
  {
    var m' := ClearSlot(m, j);
    forall i | i in m.k.watches ensures HasWd(m'.slots, m.k.watches[i]) {
      assert m.k.watches[i] in m.k.watches.Values;
      var n :| 0 <= n < |m.slots| && m.slots[n].wd == m.k.watches[i];
      assert m'.slots[n].wd == m.k.watches[i];
    }
  }

  /** inotify_rm_watch followed by markCacheSlotEmpty. */
  lemma RemoveKeepsInv(m: Monitor, j: nat)
    requires Inv(m) && j < |m.slots|
    ensures var (k', ok) := RmWatch(m.k, m.slots[j].wd);
            Inv(if ok then ClearSlot(m.(k := k'), j) else m.(k := k'))
  {
    var (k', ok) := RmWatch(m.k, m.slots[j].wd);
    RmWatchOk(m.k, m.slots[j].wd);
    assert Inv(m.(k := k'));
    if ok {
      ClearSlotKeepsInv(m.(k := k'), j);
    }
  }

  lemma RewriteKeepsInv(m: Monitor, from: Path, to: Path)
    requires Inv(m) && from != ""
    ensures Inv(m.(slots := Rewrite(m.slots, from, to)))
  {
    var r := Rewrite(m.slots, from, to);
    forall i | i in m.k.watches ensures HasWd(r, m.k.watches[i]) {
      var n :| 0 <= n < |m.slots| && m.slots[n].wd == m.k.watches[i];
      assert r[n].wd == m.k.watches[i];
    }
  }

  lemma NewInstanceOk(m: Monitor)
    requires KernelOk(m.k)
    ensures Inv(m.(k := NewInstance(m.k), slots := []))
  {
  }

  /** A lookup can only fail for an event of a watch that is already gone. */
  lemma FailedLookupMeansRemoved(m: Monitor, ev: Event)
    requires Inv(m) && EventOk(m.k, ev) && NeedsSlot(ev)
    requires FindWatch(m.slots, ev.wd) == -1
    ensures 1 <= ev.wd < m.k.nextWd && ev.wd !in m.k.watches.Values
  {
  }

  /** Every watch has exactly one live slot. */
  lemma OneSlotPerWatch(m: Monitor, ino: nat)
    requires Inv(m) && ino in m.k.watches
    ensures exists j :: 0 <= j < |m.slots| && m.slots[j].wd == m.k.watches[ino] &&
              forall n :: 0 <= n < |m.slots| && m.slots[n].wd == m.k.watches[ino] ==> n == j
  {
    var j :| 0 <= j < |m.slots| && m.slots[j].wd == m.k.watches[ino];
    assert forall n :: 0 <= n < |m.slots| && m.slots[n].wd == m.k.watches[ino] ==> n == j;
  }
}

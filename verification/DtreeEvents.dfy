/** What processNextInotifyEvent of inotify_dtree.c does with each kind of event, in any state of
    the cache: said of slots, roots and watches. */
module DtreeEvents {
  import opened Wrappers
  import opened Paths
  import opened Inotify
  import opened DtreeSpec
  import opened DtreeMonitor
  import opened DtreeConsistency

  // ---------------------------------------------------------------------
  // Rebuilding
  // ---------------------------------------------------------------------

  lemma {:induction false} WatchAllSameInstance(m: Monitor, paths: seq<Path>)
    ensures WatchAll(m, paths).k.inst == m.k.inst
    decreases |paths|
  {
    if paths != [] && !m.exited {
      WatchAllSameInstance(Traverse(m, paths[0]), paths[1..]);
    }
  }

  lemma {:induction false} WatchRootsSameInstance(m: Monitor, roots: seq<Option<Path>>)
    ensures WatchRoots(m, roots).k.inst == m.k.inst
    decreases |roots|
  {
    if roots != [] && !m.exited {
      if roots[0].Some? {
        WatchAllSameInstance(m, Listing(m.k.tree, roots[0].value));
        WatchRootsSameInstance(WatchSubtree(m, roots[0].value), roots[1..]);
      } else {
        WatchRootsSameInstance(m, roots[1..]);
      }
    }
  }

  /** Everything read is discarded, the instance is a new one, and its cache is exactly the
      directories below the given roots, unless descriptors ran out. */
  ghost predicate Rebuilt(m: Monitor, roots: seq<Option<Path>>, r: (Monitor, Verdict)) {
    && r.1 == Discard && r.0.k.inst == m.k.inst + 1 && r.0.k.tree == m.k.tree && r.0.roots == roots
    && if r.0.exited then r.0.k.nextWd >= WD_LIMIT
       else r.0.k.queue == [] && Tracks(r.0, BelowRoots(m.k.tree, roots))
  }

  lemma ReinitializeRebuilds(m: Monitor)
    requires KernelOk(m.k) && !m.exited
    ensures Rebuilt(m, m.roots, (Reinitialize(m), Discard))
  {
    hide KernelOk, WatchRoots, Tracks, BelowRoots;
    ReinitializeConsistent(m);
    WatchRootsSameInstance(m.(k := NewInstance(m.k), slots := []), m.roots);
  }

  /** After lost events, and when the cache turns out not to know a watch, the cache is rebuilt. */
  lemma LostMeansRebuilt(m: Monitor, ev: Event, next: Option<Event>, firstTry: bool)
    requires Inv(m) && EventOk(m.k, ev) && !m.exited && Lost(m.slots, ev)
    ensures Rebuilt(m, m.roots, Handle(m, ev, next, firstTry))
  {
    assert ev.wd == -1 ==> Has(ev, IN_Q_OVERFLOW);
    assert ev.wd != -1 ==> FindWatch(m.slots, ev.wd) == -1;
    ReinitializeRebuilds(m);
    hide Has, Rebuilt, Reinitialize, HandleAt;
  }

  // ---------------------------------------------------------------------
  // Zapping
  // ---------------------------------------------------------------------

  /** A removal fails exactly when some slot to be emptied has lost its watch. */
  lemma {:induction false} ZapFromFails(m: Monitor, base: Path, j: nat)
    requires Inv(m) && j <= |m.slots| && !DoomedWatched(m, base, j)
    ensures !ZapFrom(m, base, j).1
    decreases |m.slots| - j
  {
    hide Inv;
    var n :| j <= n < |m.slots| && Doomed(m.slots[n], base) && m.slots[n].wd !in m.k.watches.Values;
    if !Doomed(m.slots[j], base) {
      assert !DoomedWatched(m, base, j + 1);
      ZapFromFails(m, base, j + 1);
    } else if m.slots[j].wd in m.k.watches.Values {
      assert !DoomedWatched(m, base, j + 1);
      RemoveKeepsInv(m, j);
      OthersWatched(m, base, j);
      ZapFromFails(ClearSlot(m.(k := RmWatch(m.k, m.slots[j].wd).0), j), base, j + 1);
    }
  }

  /** Even one that fails leaves a sound state. */
  lemma {:induction false} ZapFromKeeps(m: Monitor, base: Path, j: nat)
    requires Inv(m) && j <= |m.slots|
    ensures var m' := ZapFrom(m, base, j).0;
            && Inv(m') && m'.k.tree == m.k.tree && m'.k.inst == m.k.inst
            && m'.roots == m.roots && m'.exited == m.exited
    decreases |m.slots| - j
  {
    if j < |m.slots| {
      RemoveKeepsInv(m, j);
      hide Inv;
      if !Doomed(m.slots[j], base) {
        ZapFromKeeps(m, base, j + 1);
      } else if RmWatch(m.k, m.slots[j].wd).1 {
        ZapFromKeeps(ClearSlot(m.(k := RmWatch(m.k, m.slots[j].wd).0), j), base, j + 1);
      }
    }
  }

  /** All slots at or below the pathname are emptied if each still has its watch; otherwise the
      cache is rebuilt. */
  ghost predicate ZappedOrRebuilt(m: Monitor, roots: seq<Option<Path>>, base: Path, r: (Monitor, Verdict)) {
    if forall n :: 0 <= n < |m.slots| && m.slots[n].wd >= 0 && AtOrBelow(m.slots[n].path, base) ==>
         m.slots[n].wd in m.k.watches.Values
    then r.1 == One && !r.0.exited && r.0.roots == roots && Emptied(m.slots, base, r.0.slots)
    else Rebuilt(m, roots, r)
  }

  lemma ZapOrRebuildIs(m: Monitor, base: Path)
    requires Inv(m) && !m.exited
    ensures ZappedOrRebuilt(m, m.roots, base, ZapOrRebuild(m, base))
  {
    hide Inv, Tracks, ZapFrom, Reinitialize;
    if DoomedWatched(m, base, 0) {
      ZapFromAll(m, base, 0);
    } else {
      ZapFromFails(m, base, 0);
      ZapFromKeeps(m, base, 0);
      KernelIsOk(Zap(m, base).0);
      ReinitializeRebuilds(Zap(m, base).0);
    }
  }

  // ---------------------------------------------------------------------
  // Roots
  // ---------------------------------------------------------------------

  lemma FirstRoot(roots: seq<Option<Path>>, path: Path) returns (i: nat)
    requires Some(path) in roots
    ensures i < |roots| && roots[i] == Some(path) && forall k :: 0 <= k < i ==> roots[k] != Some(path)
  {
    i := 0;
    while roots[i] != Some(path)
      invariant i < |roots| && forall k :: 0 <= k < i ==> roots[k] != Some(path)
      decreases |roots| - i
    {
      i := i + 1;
    }
  }

  lemma NoneLeft(roots: seq<Option<Path>>)
    ensures (forall r :: r in roots ==> r == None) <==> forall i :: 0 <= i < |roots| ==> roots[i] == None
  {
    if forall r :: r in roots ==> r == None {
      forall i | 0 <= i < |roots| ensures roots[i] == None {
        assert roots[i] in roots;
      }
    }
  }

  /** zapRootDirPath: the program ends exactly when no root is left, or there was no such root. */
  lemma DropRootIs(m: Monitor, path: Path)
    requires !m.exited
    ensures var m' := DropRoot(m, path);
            && m'.slots == m.slots && m'.k == m.k
            && (Some(path) !in m.roots ==> m'.exited)
            && (Some(path) in m.roots ==>
                  && Struck(m.roots, path, m'.roots)
                  && (m'.exited <==> forall i :: 0 <= i < |m'.roots| ==> m'.roots[i] == None))
  {
    if Some(path) in m.roots {
      var i := FirstRoot(m.roots, path);
      DropFirstIs(m.roots, i, path);
      var roots' := DropRoot(m, path).roots;
      assert StruckAt(m.roots, path, roots', i);
      NoneLeft(roots');
      hide StruckAt, DropFirst;
    }
  }

  /** The first slot with the watch of an event. */
  ghost predicate SlotOf(slots: seq<Slot>, ev: Event, j: nat) {
    j < |slots| && slots[j].wd == ev.wd && forall n :: 0 <= n < j ==> slots[n].wd != ev.wd
  }

  lemma HandleIsHandleAt(m: Monitor, ev: Event, next: Option<Event>, firstTry: bool, j: nat)
    requires SlotOf(m.slots, ev, j) && ev.wd != -1 && !Has(ev, IN_IGNORED)
    ensures Handle(m, ev, next, firstTry) == HandleAt(m, j, ev, next, firstTry)
  {
    hide Has, HandleAt;
    assert HasWd(m.slots, ev.wd);
    assert FindWatch(m.slots, ev.wd) == j;
  }

  /** A monitored directory is deleted: its slot is emptied, and if it was a root it is struck out,
      which ends the program if it was the last one. Nothing else changes. */
  lemma Deleted(m: Monitor, ev: Event, next: Option<Event>, firstTry: bool, j: nat)
    requires !m.exited && SlotOf(m.slots, ev, j) && ev.wd != -1 && ev.mask == IN_DELETE_SELF
    ensures var (m', v) := Handle(m, ev, next, firstTry);
            var path := m.slots[j].path;
            && v == One && m'.k == m.k
            && (Some(path) !in m.roots ==> m' == m.(slots := m.slots[j := FREE]))
            && (Some(path) in m.roots ==>
                  && Struck(m.roots, path, m'.roots)
                  && (m'.exited <==> forall i :: 0 <= i < |m'.roots| ==> m'.roots[i] == None)
                  && (!m'.exited ==> m'.slots == m.slots[j := FREE]))
  {
    MaskFlags(ev);
    HandleIsHandleAt(m, ev, next, firstTry, j);
    DropRootIs(m, m.slots[j].path);
    hide Has, DropRoot, Struck;
  }

  /** A file system is unmounted: the slot is emptied and nothing else changes. */
  lemma Unmounted(m: Monitor, ev: Event, next: Option<Event>, firstTry: bool, j: nat)
    requires SlotOf(m.slots, ev, j) && ev.wd != -1 && ev.mask == IN_UNMOUNT
    ensures Handle(m, ev, next, firstTry) == (m.(slots := m.slots[j := FREE]), One)
  {
    UnmountFlags(ev);
    HandleIsHandleAt(m, ev, next, firstTry, j);
    hide Has;
  }

  lemma UnmountFlags(ev: Event)
    requires ev.mask == IN_UNMOUNT
    ensures Has(ev, IN_UNMOUNT) && !Has(ev, IN_ISDIR) && !Has(ev, IN_IGNORED) && !Has(ev, IN_DELETE_SELF)
    ensures !Has(ev, IN_Q_OVERFLOW)
  {
  }

  lemma MoveSelfFlags(ev: Event)
    requires ev.mask == IN_MOVE_SELF
    ensures Has(ev, IN_MOVE_SELF) && !Has(ev, IN_ISDIR) && !Has(ev, IN_IGNORED) && !Has(ev, IN_DELETE_SELF)
    ensures !Has(ev, IN_Q_OVERFLOW) && !Has(ev, IN_UNMOUNT)
  {
  }

  /** A root has moved away: it is struck out, and unless it was the last one its subtree leaves the
      cache, or the cache is rebuilt over the other roots. Another directory's move is no matter. */
  lemma RootMoved(m: Monitor, ev: Event, next: Option<Event>, firstTry: bool, j: nat)
    requires Inv(m) && !m.exited && SlotOf(m.slots, ev, j) && ev.wd != -1 && ev.mask == IN_MOVE_SELF
    ensures var (m', v) := Handle(m, ev, next, firstTry);
            var path := m.slots[j].path;
            && (Some(path) !in m.roots ==> m' == m && v == One)
            && (Some(path) in m.roots ==>
                  exists roots' :: Struck(m.roots, path, roots') && m'.roots == roots'
                    && if forall i :: 0 <= i < |roots'| ==> roots'[i] == None
                       then v == One && m'.exited && m'.slots == m.slots
                       else ZappedOrRebuilt(m, roots', path, (m', v)))
  {
    MoveSelfFlags(ev);
    HandleIsHandleAt(m, ev, next, firstTry, j);
    hide Has;
    var path := m.slots[j].path;
    DropRootIs(m, path);
    if Some(path) in m.roots {
      var d := DropRoot(m, path);
      assert Inv(d);
      if !d.exited {
        ZapOrRebuildIs(d, path);
        SameAfterDrop(m, d, path, ZapOrRebuild(d, path));
      }
      hide Inv, DropRoot, ZapOrRebuild, Struck, ZappedOrRebuilt;
      assert Struck(m.roots, path, d.roots);
    }
  }

  lemma SameAfterDrop(m: Monitor, d: Monitor, path: Path, r: (Monitor, Verdict))
    requires d.k == m.k && d.slots == m.slots && ZappedOrRebuilt(d, d.roots, path, r)
    ensures ZappedOrRebuilt(m, d.roots, path, r) && r.0.roots == d.roots
  {
    hide Tracks, BelowRoots;
  }

  // ---------------------------------------------------------------------
  // A directory moved
  // ---------------------------------------------------------------------

  /** Followed by its "moved to" in a directory that the cache knows: every pathname at or below the
      old name gets the new one, and nothing else changes. */
  lemma Renamed(m: Monitor, ev: Event, next: Event, firstTry: bool, j: nat, t: nat)
    requires SlotOf(m.slots, ev, j) && ev.wd != -1 && SlotOf(m.slots, next, t)
    requires ev.mask == IN_MOVED_FROM + IN_ISDIR && Has(next, IN_MOVED_TO) && next.cookie == ev.cookie
    ensures var (m', v) := Handle(m, ev, Some(next), firstTry);
            var from, to := m.slots[j].path + "/" + ev.name, m.slots[t].path + "/" + next.name;
            && v == Two && m' == m.(slots := m'.slots) && |m'.slots| == |m.slots|
            && forall n :: 0 <= n < |m.slots| ==>
                 m'.slots[n] == if AtOrBelow(m.slots[n].path, from)
                                then Slot(m.slots[n].wd, to + m.slots[n].path[|from|..]) else m.slots[n]
  {
    MaskFlags(ev);
    HandleIsHandleAt(m, ev, Some(next), firstTry, j);
    assert HasWd(m.slots, next.wd);
    assert FindWatch(m.slots, next.wd) == t;
    hide Has, FindWatch;
  }

  /** Followed by its "moved to" in a directory that the cache does not know: a rebuild. */
  lemma RenamedToUnknown(m: Monitor, ev: Event, next: Event, firstTry: bool, j: nat)
    requires Inv(m) && !m.exited && SlotOf(m.slots, ev, j) && ev.wd != -1
    requires forall n :: 0 <= n < |m.slots| ==> m.slots[n].wd != next.wd
    requires ev.mask == IN_MOVED_FROM + IN_ISDIR && Has(next, IN_MOVED_TO) && next.cookie == ev.cookie
    ensures Rebuilt(m, m.roots, Handle(m, ev, Some(next), firstTry))
  {
    MaskFlags(ev);
    HandleIsHandleAt(m, ev, Some(next), firstTry, j);
    assert FindWatch(m.slots, next.wd) == -1;
    ReinitializeRebuilds(m);
    hide Has, FindWatch, Rebuilt, Reinitialize;
  }

  /** Followed by anything else, or by nothing although there was time: it has left the trees. */
  lemma MovedAway(m: Monitor, ev: Event, next: Option<Event>, firstTry: bool, j: nat)
    requires Inv(m) && !m.exited && SlotOf(m.slots, ev, j) && ev.wd != -1 && ev.mask == IN_MOVED_FROM + IN_ISDIR
    requires if next.None? then !firstTry else !Has(next.value, IN_MOVED_TO) || next.value.cookie != ev.cookie
    ensures ZappedOrRebuilt(m, m.roots, m.slots[j].path + "/" + ev.name, Handle(m, ev, next, firstTry))
  {
    MaskFlags(ev);
    HandleIsHandleAt(m, ev, next, firstTry, j);
    ZapOrRebuildIs(m, Join(m.slots[j].path, ev.name));
    hide Has, ZappedOrRebuilt, ZapOrRebuild;
  }

  /** At the end of the buffer for the first time: it is put off and nothing changes. */
  lemma PutOff(m: Monitor, ev: Event, j: nat)
    requires SlotOf(m.slots, ev, j) && ev.wd != -1 && ev.mask == IN_MOVED_FROM + IN_ISDIR
    ensures Handle(m, ev, None, true) == (m, NeedMore)
  {
    MaskFlags(ev);
    HandleIsHandleAt(m, ev, None, true, j);
    hide Has;
  }

  // ---------------------------------------------------------------------
  // A directory arrives
  // ---------------------------------------------------------------------

  /** Live slots stay, new ones are for the given pathnames, and no watch is lost. */
  ghost predicate Extended(m: Monitor, paths: seq<Path>, m': Monitor) {
    && m'.k.tree == m.k.tree && m'.roots == m.roots && |m.slots| <= |m'.slots|
    && (forall n :: 0 <= n < |m.slots| && m.slots[n].wd >= 0 ==> m'.slots[n] == m.slots[n])
    && (forall n :: 0 <= n < |m'.slots| && m'.slots[n].wd >= 0 ==>
          (n < |m.slots| && m'.slots[n] == m.slots[n]) || m'.slots[n].path in paths)
    && m.k.watches.Keys <= m'.k.watches.Keys
  }

  lemma AddSlotExtends(slots: seq<Slot>, wd: int, path: Path)
    ensures var r := AddSlot(slots, wd, path);
            && |slots| <= |r|
            && (forall n :: 0 <= n < |slots| && slots[n].wd >= 0 ==> r[n] == slots[n])
            && (forall n :: 0 <= n < |r| && r[n].wd >= 0 ==> (n < |slots| && r[n] == slots[n]) || r[n].path == path)
  {
    hide FindWatch;
  }

  lemma InodeIs(m: Monitor, path: Path)
    requires Inv(m)
    ensures forall d :: d in m.k.tree && d.path == path ==> d.ino == Inode(m.k.tree, path)
  {
    assert TreeOk(m.k.tree);
    hide Inv, KernelOk;
  }

  lemma TraverseExtends(m: Monitor, path: Path)
    requires Inv(m)
    ensures var m' := Traverse(m, path);
            && Extended(m, [path], m')
            && (m'.exited && !m.exited ==> m'.k.nextWd >= WD_LIMIT)
            && (!m'.exited ==> forall d :: d in m.k.tree && d.path == path ==> d.ino in m'.k.watches)
  {
    hide Inv, AddSlot, HasWd, Inode;
    InodeIs(m, path);
    var (k', r) := AddWatch(m.k, path);
    if r.Watching? {
      AddSlotExtends(m.slots, r.wd, path);
    }
  }

  lemma ExtendedTwice(m: Monitor, ps: seq<Path>, m1: Monitor, qs: seq<Path>, m2: Monitor)
    requires Extended(m, ps, m1) && Extended(m1, qs, m2)
    ensures Extended(m, ps + qs, m2)
  {
  }

  lemma WatchesGrow(m: Monitor, ps: seq<Path>, m': Monitor)
    requires Extended(m, ps, m')
    ensures m.k.watches.Keys <= m'.k.watches.Keys && m'.k.tree == m.k.tree
  {
  }

  lemma {:induction false} WatchAllExtends(m: Monitor, paths: seq<Path>)
    requires Inv(m)
    ensures var m' := WatchAll(m, paths);
            && Extended(m, paths, m')
            && (m'.exited && !m.exited ==> m'.k.nextWd >= WD_LIMIT)
            && (!m'.exited ==> forall d :: d in m.k.tree && d.path in paths ==> d.ino in m'.k.watches)
    decreases |paths|
  {
    if paths != [] && !m.exited {
      var m1 := Traverse(m, paths[0]);
      TraverseExtends(m, paths[0]);
      TraverseKeepsInv(m, paths[0]);
      hide Inv, Traverse;
      WatchAllExtends(m1, paths[1..]);
      assert paths == [paths[0]] + paths[1..];
      ExtendedTwice(m, [paths[0]], m1, paths[1..], WatchAll(m1, paths[1..]));
      WatchesGrow(m1, paths[1..], WatchAll(m1, paths[1..]));
      hide Extended;
    }
  }

  /** A directory was created or moved in: unless its pathname is cached already, every directory at
      or below it is watched from now on, and nothing that was cached is lost. */
  lemma Arrived(m: Monitor, ev: Event, next: Option<Event>, firstTry: bool, j: nat)
    requires Inv(m) && !m.exited && SlotOf(m.slots, ev, j) && ev.wd != -1
    requires ev.mask == IN_CREATE + IN_ISDIR || ev.mask == IN_MOVED_TO + IN_ISDIR
    ensures var (m', v) := Handle(m, ev, next, firstTry);
            var path := m.slots[j].path + "/" + ev.name;
            && v == One
            && if exists n :: 0 <= n < |m.slots| && m.slots[n].wd >= 0 && m.slots[n].path == path then m' == m
               else
                 && (forall p :: p in m'.slots && p.wd >= 0 && p !in m.slots ==> AtOrBelow(p.path, path))
                 && (forall n :: 0 <= n < |m.slots| && m.slots[n].wd >= 0 ==> m.slots[n] in m'.slots)
                 && (m'.exited ==> m'.k.nextWd >= WD_LIMIT)
                 && (!m'.exited ==> forall d :: d in m.k.tree && AtOrBelow(d.path, path) ==> d.ino in m'.k.watches)
  {
    MaskFlags(ev);
    HandleIsHandleAt(m, ev, next, firstTry, j);
    hide Has;
    var path := Join(m.slots[j].path, ev.name);
    WatchAllExtends(m, Listing(m.k.tree, path));
    hide Inv, WatchAll;
    SlotsExtended(m, Listing(m.k.tree, path), WatchSubtree(m, path));
    hide Extended;
  }

  lemma SlotsExtended(m: Monitor, paths: seq<Path>, m': Monitor)
    requires Extended(m, paths, m')
    ensures forall s :: s in m'.slots && s.wd >= 0 && s !in m.slots ==> s.path in paths
    ensures forall n :: 0 <= n < |m.slots| && m.slots[n].wd >= 0 ==> m.slots[n] in m'.slots
  {
    forall s | s in m'.slots && s.wd >= 0 && s !in m.slots ensures s.path in paths {
      var n :| 0 <= n < |m'.slots| && m'.slots[n] == s;
    }
    forall n | 0 <= n < |m.slots| && m.slots[n].wd >= 0 ensures m.slots[n] in m'.slots {
      assert m'.slots[n] == m.slots[n];
    }
  }

  // ---------------------------------------------------------------------
  // Commands
  // ---------------------------------------------------------------------

  /** "z": exactly the slots at or below the pathname are emptied, if each still has its watch. */
  lemma ZapCommand(m: Monitor, path: Path)
    requires Inv(m) && DoomedWatched(m, path, 0)
    ensures var m' := Commanded(m, ZapCmd(path));
            Emptied(m.slots, path, m'.slots) && m'.roots == m.roots && m'.exited == m.exited
  {
    ZapFromAll(m, path, 0);
  }

  /** "a": a subtree is refreshed. At or below the pathname only directories that exist are cached
      afterwards, all of them are watched, and other slots are as they were. */
  lemma AddCommand(m: Monitor, path: Path)
    requires Inv(m) && !m.exited && DoomedWatched(m, path, 0)
    ensures var m' := Commanded(m, AddCmd(path));
            && (forall s :: s in m'.slots && s.wd >= 0 && AtOrBelow(s.path, path) ==>
                  exists d :: d in m.k.tree && d.path == s.path)
            && (forall s :: s in m.slots && s.wd >= 0 && !AtOrBelow(s.path, path) ==> s in m'.slots)
            && (m'.exited ==> m'.k.nextWd >= WD_LIMIT)
            && (!m'.exited ==> forall d :: d in m.k.tree && AtOrBelow(d.path, path) ==> d.ino in m'.k.watches)
  {
    ZapFromAll(m, path, 0);
    var m1 := Zap(m, path).0;
    var paths := Listing(m1.k.tree, path);
    WatchAllExtends(m1, paths);
    var m' := WatchAll(m1, paths);
    SlotsExtended(m1, paths, m');
    hide Inv, WatchAll, Extended, ZapFrom, Listing;
    forall s | s in m1.slots ensures !(s.wd >= 0 && AtOrBelow(s.path, path)) {
      var n :| 0 <= n < |m1.slots| && m1.slots[n] == s;
      assert m1.slots[n] == if Doomed(m.slots[n], path) then FREE else m.slots[n];
    }
    forall s | s in m'.slots && s.wd >= 0 && AtOrBelow(s.path, path) ensures exists d :: d in m.k.tree && d.path == s.path {
      assert s !in m1.slots;
    }
    forall s | s in m.slots && s.wd >= 0 && !AtOrBelow(s.path, path) ensures s in m'.slots {
      var n :| 0 <= n < |m.slots| && m.slots[n] == s;
      assert m1.slots[n] == s;
    }
  }

  /** "0": a rebuild. */
  lemma RebuildCommand(m: Monitor)
    requires Inv(m) && !m.exited
    ensures Rebuilt(m, m.roots, (Commanded(m, RebuildCmd), Discard))
  {
    KernelIsOk(m);
    hide Inv, Rebuilt, Reinitialize;
    ReinitializeRebuilds(m);
  }
}

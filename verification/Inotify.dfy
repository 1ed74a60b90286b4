/** The environment of inotify_dtree.c: the directory tree, one inotify instance with
    its watch table and event queue, and the layout of events in a read() buffer.
    Only what the program relies on is fixed; everything else may change at will. */
module Inotify {
  import opened Paths
  import opened Bytes

  // ---------------------------------------------------------------------
  // Events
  // ---------------------------------------------------------------------

  const IN_MOVED_FROM: nat := 0x40
  const IN_MOVED_TO: nat := 0x80
  const IN_CREATE: nat := 0x100
  const IN_DELETE_SELF: nat := 0x400
  const IN_MOVE_SELF: nat := 0x800
  const IN_UNMOUNT: nat := 0x2000
  const IN_Q_OVERFLOW: nat := 0x4000
  const IN_IGNORED: nat := 0x8000
  const IN_ISDIR: nat := 0x4000_0000

  /** struct inotify_event; `len` is the padded size of the name field. */
  datatype Event = Event(wd: int, mask: nat, cookie: nat, len: nat, name: string)

  /** `mask & bit` for a power of two. */
  predicate Has(ev: Event, bit: nat)
    requires bit > 0
  {
    ev.mask / bit % 2 == 1
  }

  /** The flags of the masks that directory operations produce. */
  lemma MaskFlags(ev: Event)
    ensures ev.mask == IN_MOVED_FROM + IN_ISDIR ==>
              Has(ev, IN_ISDIR) && Has(ev, IN_MOVED_FROM) && !Has(ev, IN_CREATE) && !Has(ev, IN_MOVED_TO) &&
              !Has(ev, IN_DELETE_SELF) && !Has(ev, IN_IGNORED)
    ensures ev.mask == IN_MOVED_TO + IN_ISDIR ==> Has(ev, IN_ISDIR) && Has(ev, IN_MOVED_TO) && !Has(ev, IN_IGNORED)
    ensures ev.mask == IN_CREATE + IN_ISDIR ==> Has(ev, IN_ISDIR) && Has(ev, IN_CREATE) && !Has(ev, IN_IGNORED)
    ensures ev.mask in {IN_CREATE, IN_MOVED_FROM, IN_MOVED_TO} ==>
              !Has(ev, IN_ISDIR) && !Has(ev, IN_DELETE_SELF) && !Has(ev, IN_IGNORED) &&
              !Has(ev, IN_Q_OVERFLOW) && !Has(ev, IN_UNMOUNT) && !Has(ev, IN_MOVE_SELF)
    ensures ev.mask == IN_DELETE_SELF ==> Has(ev, IN_DELETE_SELF) && !Has(ev, IN_ISDIR) && !Has(ev, IN_IGNORED)
  {
  }

  const HEADER: nat := 16
  const NAME_MAX: nat := 255
  const WD_LIMIT: int := 0x8000_0000
  const READ_BUF_LEN: nat := 100 * (HEADER + NAME_MAX + 1)

  function Size(ev: Event): nat {
    HEADER + ev.len
  }

  function SizeAll(evs: seq<Event>): nat {
    if evs == [] then 0 else Size(evs[0]) + SizeAll(evs[1..])
  }

  /** What fits the fields of the structure: 32-bit numbers and a NUL-padded name. */
  predicate Wellformed(ev: Event) {
    && -1 <= ev.wd < WD_LIMIT
    && ev.mask < 0x1_0000_0000
    && ev.cookie < 0x1_0000_0000
    && ev.len <= NAME_MAX + 1
    && |ev.name| <= ev.len
    && (forall i :: 0 <= i < |ev.name| ==> 0 < ev.name[i] as int < 256)
  }

  // ---------------------------------------------------------------------
  // Events as bytes
  // ---------------------------------------------------------------------

  function NameBytes(ev: Event): (s: seq<Byte>)
    requires Wellformed(ev)
    ensures |s| == ev.len
  {
    seq(ev.len, i requires 0 <= i < ev.len => if i < |ev.name| then ev.name[i] as int else 0)
  }

  function Unsigned(wd: int): nat
    requires -1 <= wd < WD_LIMIT
  {
    if wd < 0 then 0xFFFF_FFFF else wd
  }

  function EncodeEvent(ev: Event): (s: seq<Byte>)
    requires Wellformed(ev)
    ensures |s| == Size(ev)
  {
    Encode(Unsigned(ev.wd), 4) + Encode(ev.mask, 4) + Encode(ev.cookie, 4) + Encode(ev.len, 4) + NameBytes(ev)
  }

  function EncodeAll(evs: seq<Event>): (s: seq<Byte>)
    requires forall ev :: ev in evs ==> Wellformed(ev)
    ensures |s| == SizeAll(evs)
  {
    if evs == [] then [] else EncodeEvent(evs[0]) + EncodeAll(evs[1..])
  }

  function CString(s: seq<Byte>): string {
    if s == [] || s[0] == 0 then "" else [s[0] as char] + CString(s[1..])
  }

  /** Reading a structure at the start of `s`, as the cast of the buffer pointer does. */
  function DecodeEvent(s: seq<Byte>): Event
    requires |s| >= HEADER && |s| >= HEADER + Decode(s[12..16])
  {
    var w := Decode(s[0..4]);
    var len := Decode(s[12..16]);
    Event(if w >= WD_LIMIT then w - 0x1_0000_0000 else w,
          Decode(s[4..8]), Decode(s[8..12]), len, CString(s[16..16 + len]))
  }

  lemma {:induction false} CStringPrefix(name: string, s: seq<Byte>)
    requires |name| <= |s|
    requires forall i :: 0 <= i < |name| ==> 0 < name[i] as int < 256 && s[i] == name[i] as int
    requires forall i :: |name| <= i < |s| ==> s[i] == 0
    ensures CString(s) == name
  {
    if name != "" {
      CStringPrefix(name[1..], s[1..]);
      assert name == [name[0]] + name[1..];
    }
  }

  /** Whatever follows an event in the buffer, reading at its first byte gives it back. */
  lemma DecodeEncode(ev: Event, s: seq<Byte>)
    requires Wellformed(ev) && EncodeEvent(ev) <= s
    ensures Decode(s[12..16]) == ev.len && DecodeEvent(s) == ev
  {
    var e := EncodeEvent(ev);
    Widths();
    RoundTrip(Unsigned(ev.wd), 4);
    RoundTrip(ev.mask, 4);
    RoundTrip(ev.cookie, 4);
    RoundTrip(ev.len, 4);
    assert s[0..4] == e[0..4] == Encode(Unsigned(ev.wd), 4);
    assert s[4..8] == e[4..8] == Encode(ev.mask, 4);
    assert s[8..12] == e[8..12] == Encode(ev.cookie, 4);
    assert s[12..16] == e[12..16] == Encode(ev.len, 4);
    assert s[16..16 + ev.len] == e[16..] == NameBytes(ev);
    CStringPrefix(ev.name, NameBytes(ev));
  }

  lemma {:induction false} EncodeAllAppend(xs: seq<Event>, ys: seq<Event>)
    requires forall ev :: ev in xs + ys ==> Wellformed(ev)
    ensures forall ev :: ev in xs ==> Wellformed(ev)
    ensures forall ev :: ev in ys ==> Wellformed(ev)
    ensures EncodeAll(xs + ys) == EncodeAll(xs) + EncodeAll(ys)
  {
    forall ev | ev in xs ensures Wellformed(ev) { assert ev in xs + ys; }
    forall ev | ev in ys ensures Wellformed(ev) { assert ev in xs + ys; }
    if xs == [] {
      assert xs + ys == ys;
    } else {
      assert (xs + ys)[1..] == xs[1..] + ys;
      EncodeAllAppend(xs[1..], ys);
    }
  }

  // ---------------------------------------------------------------------
  // Kernel state
  // ---------------------------------------------------------------------

  datatype Dir = Dir(path: Path, ino: nat)

  /** The directories below the monitored roots, listed in the order in which a tree walk
      meets them; the watch table and queue of the current inotify instance; and how many
      more events other processes are going to cause, which is any finite number. */
  datatype Kernel = Kernel(inst: nat, tree: seq<Dir>, watches: map<nat, int>, nextWd: int,
                           queue: seq<Event>, future: nat)

  predicate TreeOk(tree: seq<Dir>) {
    forall i, j :: 0 <= i < j < |tree| ==> tree[i].path != tree[j].path && tree[i].ino != tree[j].ino
  }

  /** What inotify(7) guarantees of an event read from the instance: it names a descriptor
      that the instance issued (or -1 for an overflow), an overflow and an "ignored" event
      carry no other flag, and a directory reported as deleted or unmounted has already
      lost its watch. */
  predicate EventOk(k: Kernel, ev: Event) {
    && Wellformed(ev)
    && (ev.wd == -1 || 1 <= ev.wd < k.nextWd)
    && (ev.wd == -1 ==> ev.mask == IN_Q_OVERFLOW)
    && (Has(ev, IN_IGNORED) ==> ev.mask == IN_IGNORED)
    && (Has(ev, IN_DELETE_SELF) || Has(ev, IN_UNMOUNT) ==> ev.wd !in k.watches.Values)
  }

  predicate KernelOk(k: Kernel) {
    && TreeOk(k.tree)
    && 1 <= k.nextWd <= WD_LIMIT
    && (forall i :: i in k.watches ==> 1 <= k.watches[i] < k.nextWd)
    && (forall i, j :: i in k.watches && j in k.watches && i != j ==> k.watches[i] != k.watches[j])
    && (forall ev :: ev in k.queue ==> EventOk(k, ev))
  }

  /** Anything other processes may do to the tree between two system calls of the program:
      directories come and go and move, watches of deleted directories disappear, events
      are queued. Descriptors are issued only to the program. */
  predicate EnvStep(k: Kernel, k': Kernel) {
    && KernelOk(k')
    && k'.inst == k.inst && k'.nextWd == k.nextWd
    && k'.watches.Keys <= k.watches.Keys
    && (forall i :: i in k'.watches ==> k'.watches[i] == k.watches[i])
    && k.queue <= k'.queue
    && k'.future + |k'.queue| <= k.future + |k.queue|
  }

  /** The kernel a while later, on the same instance: descriptors are only ever issued
      afresh, so no watch that is gone comes back. */
  ghost predicate Later(k: Kernel, k': Kernel) {
    && k'.inst == k.inst && k.nextWd <= k'.nextWd
    && (forall i :: i in k'.watches ==> k'.watches[i] in k.watches.Values || k.nextWd <= k'.watches[i])
  }

  lemma LaterKeepsEvent(k: Kernel, k': Kernel, ev: Event)
    requires Later(k, k') && EventOk(k, ev)
    ensures EventOk(k', ev)
  {
  }

  lemma LaterKeepsAll(k: Kernel, k': Kernel, evs: seq<Event>)
    requires Later(k, k') && forall ev :: ev in evs ==> EventOk(k, ev)
    ensures forall ev :: ev in evs ==> EventOk(k', ev)
  {
    forall ev | ev in evs ensures EventOk(k', ev) { LaterKeepsEvent(k, k', ev); }
  }

  lemma LaterTransitive(k: Kernel, k': Kernel, k'': Kernel)
    requires Later(k, k') && Later(k', k'')
    ensures Later(k, k'')
  {
  }

  /** Events that may make the program act, as opposed to "ignored" notices. */
  function Weight(evs: seq<Event>): (w: nat)
    ensures w <= |evs|
  {
    if evs == [] then 0 else (if Has(evs[0], IN_IGNORED) then 0 else 1) + Weight(evs[1..])
  }

  /** Events of weight that are queued or yet to come. */
  function Work(k: Kernel): nat {
    k.future + Weight(k.queue)
  }

  lemma {:induction false} WeightAppend(xs: seq<Event>, ys: seq<Event>)
    ensures Weight(xs + ys) == Weight(xs) + Weight(ys)
  {
    if xs == [] {
      assert xs + ys == ys;
    } else {
      assert (xs + ys)[1..] == xs[1..] + ys;
      WeightAppend(xs[1..], ys);
    }
  }

  lemma EnvStepWork(k: Kernel, k': Kernel)
    requires EnvStep(k, k')
    ensures Work(k') <= Work(k)
  {
    var added := k'.queue[|k.queue|..];
    assert k'.queue == k.queue + added;
    WeightAppend(k.queue, added);
  }

  lemma RmWatchWork(k: Kernel, wd: int)
    ensures Work(RmWatch(k, wd).0) == Work(k)
  {
    WeightAppend(k.queue, [Event(wd, IN_IGNORED, 0, 0, "")]);
  }

  lemma EnvStepIsLater(k: Kernel, k': Kernel)
    requires EnvStep(k, k')
    ensures Later(k, k')
  {
    assert forall i :: i in k'.watches ==> i in k.watches && k'.watches[i] == k.watches[i];
  }

  // ---------------------------------------------------------------------
  // System calls
  // ---------------------------------------------------------------------

  datatype AddResult = Watching(wd: int) | NoEntry | Failed

  function Inode(tree: seq<Dir>, path: Path): (r: int)
    ensures r >= 0 ==> exists d :: d in tree && d.path == path && d.ino == r
    ensures r < 0 ==> forall d :: d in tree ==> d.path != path
  {
    if tree == [] then -1 else if tree[0].path == path then tree[0].ino else Inode(tree[1..], path)
  }

  /** inotify_add_watch: one descriptor per directory, and a new one for a directory that
      is not watched yet. Descriptors run out rather than being reused. */
  function AddWatch(k: Kernel, path: Path): (Kernel, AddResult) {
    var ino := Inode(k.tree, path);
    if ino < 0 then (k, NoEntry)
    else if ino in k.watches then (k, Watching(k.watches[ino]))
    else if k.nextWd >= WD_LIMIT then (k, Failed)
    else (k.(watches := k.watches[ino := k.nextWd], nextWd := k.nextWd + 1), Watching(k.nextWd))
  }

  /** inotify_rm_watch: fails if the descriptor is no longer held; otherwise an "ignored"
      event is queued. */
  function RmWatch(k: Kernel, wd: int): (Kernel, bool) {
    if wd !in k.watches.Values then (k, false)
    else (k.(watches := map i | i in k.watches && k.watches[i] != wd :: k.watches[i],
             queue := k.queue + [Event(wd, IN_IGNORED, 0, 0, "")]), true)
  }

  /** close() of the old descriptor and inotify_init(): an empty watch table and queue. */
  function NewInstance(k: Kernel): Kernel {
    Kernel(k.inst + 1, k.tree, map[], 1, [], k.future)
  }

  /** The directories nftw() reports below `path`, in its order. */
  function Listing(tree: seq<Dir>, path: Path): (r: seq<Path>)
    ensures forall p :: p in r <==> AtOrBelow(p, path) && exists d :: d in tree && d.path == p
  {
    if tree == [] then []
    else if AtOrBelow(tree[0].path, path) then [tree[0].path] + Listing(tree[1..], path)
    else Listing(tree[1..], path)
  }

  lemma AddWatchOk(k: Kernel, path: Path)
    requires KernelOk(k)
    ensures KernelOk(AddWatch(k, path).0) && Later(k, AddWatch(k, path).0)
    ensures Work(AddWatch(k, path).0) == Work(k)
  {
    var k' := AddWatch(k, path).0;
    assert forall w :: w in k'.watches.Values ==> w in k.watches.Values || w == k.nextWd;
  }

  lemma RmWatchOk(k: Kernel, wd: int)
    requires KernelOk(k)
    ensures KernelOk(RmWatch(k, wd).0) && Later(k, RmWatch(k, wd).0)
    ensures RmWatch(k, wd).1 ==> wd !in RmWatch(k, wd).0.watches.Values
  {
    var (k', ok) := RmWatch(k, wd);
    assert forall w :: w in k'.watches.Values ==> w in k.watches.Values && (ok ==> w != wd);
  }
}

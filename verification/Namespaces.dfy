/** namespaces_of.go: the map of discovered namespaces is built by recursion up the kernel's
    parent relation and displayed by recursion down the children lists. */
module Namespaces {

  import opened Wrappers

  datatype NamespaceID = NamespaceID(device: nat, inode: nat)

  /** The special entry for namespaces whose owner cannot be seen. */
  const INVIS := NamespaceID(0, 0)

  const CLONE_NEWUSER := 0x1000_0000

  /** A namespace as the kernel knows it. `parent` is what the ioctl for the parent or owning
      namespace yields; None stands for EPERM. */
  datatype Node = Node(nsType: int, creatorUID: int, parent: Option<NamespaceID>)

  type System = map<NamespaceID, Node>

  datatype Attribs = Attribs(nsType: int, pids: seq<int>, children: seq<NamespaceID>, creatorUID: int)

  type NamespaceList = map<NamespaceID, Attribs>

  /** No namespace file is (0, 0), and a parent is pinned into existence by its child. */
  ghost predicate SystemOk(sys: System) {
    INVIS !in sys && forall e :: e in sys && sys[e].parent.Some? ==> sys[e].parent.value in sys
  }

  /** A topmost visible namespace of the hierarchy. */
  predicate IsTop(sys: System, pidns: bool, e: NamespaceID) {
    e in sys && sys[e].parent == None && (sys[e].nsType == CLONE_NEWUSER || pidns)
  }

  /** Where an entry belongs: below its parent, or below the special entry if its owner is
      invisible; topmost ones belong nowhere. */
  function TrueParent(sys: System, pidns: bool, e: NamespaceID): Option<NamespaceID> {
    if e !in sys || IsTop(sys, pidns, e) then None
    else if sys[e].parent == None then Some(INVIS)
    else sys[e].parent
  }

  // ---------------------------------------------------------------------
  // The invariant of the map
  // ---------------------------------------------------------------------

  ghost predicate EntryOk(sys: System, e: NamespaceID, a: Attribs) {
    if e == INVIS then a.nsType == CLONE_NEWUSER
    else
      && e in sys && a.nsType == sys[e].nsType
      && (a.nsType == CLONE_NEWUSER ==> a.creatorUID == sys[e].creatorUID)
  }

  /** Each entry carries the kernel's attributes and, unless it is still being added (`open`),
      is listed exactly once among the children of its true parent, which is present; and
      nothing else is listed anywhere. */
  ghost predicate Good(sys: System, pidns: bool, list: NamespaceList, open: set<NamespaceID>) {
    && (forall e :: e in list ==> EntryOk(sys, e, list[e]))
    && (forall e :: e in list && e !in open && TrueParent(sys, pidns, e).Some? ==>
          var p := TrueParent(sys, pidns, e).value;
          p in list && multiset(list[p].children)[e] == 1)
    && (forall p, c :: p in list && c in list[p].children ==>
          c in list && c !in open && TrueParent(sys, pidns, c) == Some(p))
    && open <= list.Keys && INVIS !in open
  }

  lemma ChildrenListed(sys: System, pidns: bool, list: NamespaceList, ns: NamespaceID)
    requires Good(sys, pidns, list, {}) && ns in list
    ensures forall c :: c in list[ns].children ==> c in list && TrueParent(sys, pidns, c) == Some(ns)
  {
    hide TrueParent, EntryOk;
  }

  /** Over all children lists, an entry occurs only in that of its true parent. */
  lemma OnceOverAll(sys: System, pidns: bool, list: NamespaceList, e: NamespaceID)
    requires Good(sys, pidns, list, {}) && e in list
    ensures forall p :: p in list ==>
              multiset(list[p].children)[e] == if TrueParent(sys, pidns, e) == Some(p) then 1 else 0
  {
    forall p | p in list
      ensures multiset(list[p].children)[e] == if TrueParent(sys, pidns, e) == Some(p) then 1 else 0
    {
      assert e in list[p].children <==> multiset(list[p].children)[e] > 0;
    }
  }

  function Link(list: NamespaceList, p: NamespaceID, c: NamespaceID): NamespaceList
    requires p in list
  {
    list[p := list[p].(children := list[p].children + [c])]
  }

  lemma LinkGood(sys: System, pidns: bool, list: NamespaceList, open: set<NamespaceID>, p: NamespaceID, c: NamespaceID)
    requires Good(sys, pidns, list, open) && p in list && c in open && TrueParent(sys, pidns, c) == Some(p)
    ensures Good(sys, pidns, Link(list, p, c), open - {c})
  {
    var list' := Link(list, p, c);
    assert c !in list[p].children;
    assert multiset(list'[p].children) == multiset(list[p].children) + multiset{c};
    forall q, d | q in list' && d in list'[q].children
      ensures d in list' && d !in open - {c} && TrueParent(sys, pidns, d) == Some(q)
    {
      assert d in list[q].children || (q == p && d == c);
    }
  }

  lemma FreshGood(sys: System, pidns: bool, list: NamespaceList, open: set<NamespaceID>, e: NamespaceID, a: Attribs)
    requires Good(sys, pidns, list, open) && e !in list && e != INVIS
    requires EntryOk(sys, e, a) && a.children == []
    ensures Good(sys, pidns, list[e := a], open + {e})
  {
  }

  lemma FreshInvis(sys: System, pidns: bool, list: NamespaceList, open: set<NamespaceID>)
    requires SystemOk(sys) && Good(sys, pidns, list, open) && INVIS !in list
    ensures Good(sys, pidns, list[INVIS := Attribs(CLONE_NEWUSER, [], [], 0)], open)
  {
  }

  // ---------------------------------------------------------------------
  // Ancestors and member processes
  // ---------------------------------------------------------------------

  ghost function Up(sys: System, e: NamespaceID, n: nat): Option<NamespaceID>
    decreases n
  {
    if n == 0 then Some(e)
    else if e !in sys || sys[e].parent == None then None
    else Up(sys, sys[e].parent.value, n - 1)
  }

  ghost predicate AncestorOrSelf(sys: System, a: NamespaceID, e: NamespaceID) {
    exists n: nat :: Up(sys, e, n) == Some(a)
  }

  lemma ParentsAncestors(sys: System, e: NamespaceID, a: NamespaceID)
    requires e in sys && sys[e].parent.Some? && AncestorOrSelf(sys, a, sys[e].parent.value)
    ensures AncestorOrSelf(sys, a, e)
  {
    var n: nat :| Up(sys, sys[e].parent.value, n) == Some(a);
    assert Up(sys, e, n + 1) == Some(a);
  }

  lemma {:induction false} UpAdd(sys: System, e: NamespaceID, a: NamespaceID, i: nat, j: nat)
    requires Up(sys, e, i) == Some(a)
    ensures Up(sys, e, i + j) == Up(sys, a, j)
    decreases i
  {
    if i > 0 {
      UpAdd(sys, sys[e].parent.value, a, i - 1, j);
    }
  }

  lemma {:induction false} UpStaysNone(sys: System, e: NamespaceID, a: nat, b: nat)
    requires Up(sys, e, a) == None && a <= b
    ensures Up(sys, e, b) == None
    decreases a
  {
    if e in sys && sys[e].parent.Some? {
      UpStaysNone(sys, sys[e].parent.value, a - 1, b - 1);
    }
  }

  /** Going up from a namespace on a cycle never ends. */
  lemma {:induction false} NoEnd(sys: System, e: NamespaceID, c: nat, m: nat)
    requires c >= 1 && Up(sys, e, c) == Some(e)
    ensures Up(sys, e, m).Some?
    decreases m
  {
    if m >= c {
      UpAdd(sys, e, e, c, m - c);
      NoEnd(sys, e, c, m - c);
    } else if Up(sys, e, m) == None {
      UpStaysNone(sys, e, m, c);
    }
  }

  /** The topmost namespace above a given one. */
  ghost predicate TopOf(sys: System, pidns: bool, e: NamespaceID, ns: NamespaceID) {
    IsTop(sys, pidns, e) && AncestorOrSelf(sys, e, ns)
  }

  lemma TopEnds(sys: System, pidns: bool, e: NamespaceID, ns: NamespaceID, n: nat, m: nat)
    requires IsTop(sys, pidns, e) && Up(sys, ns, n) == Some(e) && n < m
    ensures Up(sys, ns, m) == None
  {
    UpAdd(sys, ns, e, n, m - n);
  }

  lemma TopOfParent(sys: System, pidns: bool, e: NamespaceID, ns: NamespaceID)
    requires ns in sys && sys[ns].parent.Some?
    ensures TopOf(sys, pidns, e, ns) <==> TopOf(sys, pidns, e, sys[ns].parent.value)
    ensures TopOf(sys, pidns, e, ns) ==> e != ns
  {
    if TopOf(sys, pidns, e, ns) {
      var n: nat :| Up(sys, ns, n) == Some(e);
      assert n > 0 && Up(sys, sys[ns].parent.value, n - 1) == Some(e);
    }
    if TopOf(sys, pidns, e, sys[ns].parent.value) {
      ParentsAncestors(sys, ns, e);
    }
  }

  lemma TopOfItself(sys: System, pidns: bool, e: NamespaceID, ns: NamespaceID)
    requires ns in sys && sys[ns].parent == None
    ensures TopOf(sys, pidns, e, ns) <==> e == ns && IsTop(sys, pidns, ns)
  {
    assert Up(sys, ns, 0) == Some(ns);
  }

  function PidsIn(list: NamespaceList, e: NamespaceID): seq<int> {
    if e in list then list[e].pids else []
  }

  /** The PIDs that a sequence of additions records for one namespace, in order. */
  function Members(procs: seq<(NamespaceID, int)>, e: NamespaceID): seq<int> {
    if procs == [] then []
    else
      var last := procs[|procs| - 1];
      Members(procs[..|procs| - 1], e) + if last.0 == e && last.1 > 0 then [last.1] else []
  }

  /** The PIDs recorded for e are those of the additions at certain places, which are in order, and
      which are all the places where e stands with a positive PID. */
  ghost predicate PidsAt(procs: seq<(NamespaceID, int)>, e: NamespaceID, pids: seq<int>, at: seq<nat>) {
    && |at| == |pids|
    && (forall k :: 0 <= k < |at| ==> at[k] < |procs| && procs[at[k]] == (e, pids[k]) && pids[k] > 0)
    && (forall k, l :: 0 <= k < l < |at| ==> at[k] < at[l])
    && (forall i: nat :: i < |procs| && procs[i].0 == e && procs[i].1 > 0 ==> i in at)
  }

  lemma {:induction false} MembersAt(procs: seq<(NamespaceID, int)>, e: NamespaceID) returns (at: seq<nat>)
    ensures PidsAt(procs, e, Members(procs, e), at)
  {
    if procs == [] {
      at := [];
    } else {
      var n := |procs| - 1;
      var at0 := MembersAt(procs[..n], e);
      at := at0 + if procs[n].0 == e && procs[n].1 > 0 then [n] else [];
      forall i: nat | i < |procs| && procs[i].0 == e && procs[i].1 > 0 ensures i in at {
        assert i < n ==> procs[..n][i] == procs[i] && i in at0;
      }
    }
  }

  /** What adding `ns` may do to the map: entries appear for ns and its ancestors only (and the
      special one), none disappears, and PIDs stay where they are. */
  ghost predicate Grown(sys: System, list: NamespaceList, list': NamespaceList, ns: NamespaceID) {
    && list.Keys <= list'.Keys
    && (forall e :: e in list' ==> list'[e].pids == PidsIn(list, e))
    && (forall e :: e in list' && e !in list ==> e == INVIS || AncestorOrSelf(sys, e, ns))
  }

  lemma GrownByFresh(sys: System, list: NamespaceList, ns: NamespaceID, a: Attribs)
    requires ns !in list && a.pids == []
    ensures Grown(sys, list, list[ns := a], ns)
  {
    assert Up(sys, ns, 0) == Some(ns);
  }

  lemma GrownByInvis(sys: System, list: NamespaceList, list': NamespaceList, ns: NamespaceID, a: Attribs)
    requires Grown(sys, list, list', ns) && INVIS !in list' && a.pids == []
    ensures Grown(sys, list, list'[INVIS := a], ns)
  {
  }

  lemma GrownByParent(sys: System, list: NamespaceList, list1: NamespaceList, list2: NamespaceList, ns: NamespaceID)
    requires ns in sys && sys[ns].parent.Some?
    requires Grown(sys, list, list1, ns) && Grown(sys, list1, list2, sys[ns].parent.value)
    ensures Grown(sys, list, list2, ns)
  {
    forall e | e in list2 && e !in list ensures e == INVIS || AncestorOrSelf(sys, e, ns) {
      if e !in list1 && e != INVIS {
        ParentsAncestors(sys, ns, e);
      }
    }
  }

  lemma GrownByLink(sys: System, list: NamespaceList, list': NamespaceList, ns: NamespaceID, p: NamespaceID, c: NamespaceID)
    requires Grown(sys, list, list', ns) && p in list'
    ensures Grown(sys, list, Link(list', p, c), ns)
  {
  }

  function WithPid(list: NamespaceList, e: NamespaceID, pid: int): NamespaceList
    requires e in list
  {
    list[e := list[e].(pids := list[e].pids + [pid])]
  }

  lemma WithPidGood(sys: System, pidns: bool, list: NamespaceList, open: set<NamespaceID>, e: NamespaceID, pid: int)
    requires Good(sys, pidns, list, open) && e in list
    ensures Good(sys, pidns, WithPid(list, e, pid), open)
  {
    var list' := WithPid(list, e, pid);
    assert forall p :: p in list' ==> p in list && list'[p].children == list[p].children;
  }

  lemma GrownReflexive(sys: System, list: NamespaceList, ns: NamespaceID)
    ensures Grown(sys, list, list, ns)
  {
  }

  lemma GrownKeys(sys: System, list: NamespaceList, list': NamespaceList, ns: NamespaceID)
    requires Grown(sys, list, list', ns)
    ensures list.Keys <= list'.Keys
  {
  }

  /** A topmost entry is complete without being anybody's child. */
  lemma TopGood(sys: System, pidns: bool, list: NamespaceList, open: set<NamespaceID>, ns: NamespaceID)
    requires Good(sys, pidns, list, open + {ns}) && IsTop(sys, pidns, ns)
    ensures Good(sys, pidns, list, open)
  {
  }

  lemma OpenListed(sys: System, pidns: bool, list: NamespaceList, open: set<NamespaceID>)
    requires Good(sys, pidns, list, open)
    ensures open <= list.Keys
  {
  }

  function ChildrenIn(list: NamespaceList, e: NamespaceID): seq<NamespaceID> {
    if e in list then list[e].children else []
  }

  /** Children lists only grow at their ends, by entries that were not in the map. */
  ghost predicate Appended(list: NamespaceList, list': NamespaceList) {
    && list.Keys <= list'.Keys
    && (forall e :: e in list' ==> ChildrenIn(list, e) <= list'[e].children)
    && (forall e, k :: e in list' && |ChildrenIn(list, e)| <= k < |list'[e].children| ==> list'[e].children[k] !in list)
  }

  lemma AppendedReflexive(list: NamespaceList)
    ensures Appended(list, list)
  {
  }

  lemma AppendedFresh(list: NamespaceList, list': NamespaceList, e: NamespaceID, a: Attribs)
    requires Appended(list, list') && e !in list' && a.children == []
    ensures Appended(list, list'[e := a])
  {
  }

  lemma AppendedTwice(list: NamespaceList, list1: NamespaceList, list2: NamespaceList)
    requires Appended(list, list1) && Appended(list1, list2)
    ensures Appended(list, list2)
  {
    forall e | e in list2
      ensures ChildrenIn(list, e) <= list2[e].children
      ensures forall k :: |ChildrenIn(list, e)| <= k < |list2[e].children| ==> list2[e].children[k] !in list
    {
      assert ChildrenIn(list1, e) <= list2[e].children;
      assert ChildrenIn(list, e) <= ChildrenIn(list1, e);
    }
  }

  lemma AppendedLink(list: NamespaceList, list': NamespaceList, p: NamespaceID, c: NamespaceID)
    requires Appended(list, list') && p in list' && c !in list
    ensures Appended(list, Link(list', p, c))
  {
  }

  lemma AppendedPid(list: NamespaceList, list': NamespaceList, e: NamespaceID, pid: int)
    requires Appended(list, list') && e in list'
    ensures Appended(list, WithPid(list', e, pid))
  {
  }

  // ---------------------------------------------------------------------
  // The order of children
  // ---------------------------------------------------------------------

  /** Process i is in the namespace e or in one below it. */
  ghost predicate SeenBy(sys: System, procs: seq<(NamespaceID, int)>, e: NamespaceID, i: nat) {
    i < |procs| && AncestorOrSelf(sys, e, procs[i].0)
  }

  ghost predicate Seen(sys: System, procs: seq<(NamespaceID, int)>, e: NamespaceID) {
    exists h: nat :: SeenBy(sys, procs, e, h)
  }

  /** By the time a process is in y or below it, one has been in x or below it. */
  ghost predicate NoLater(sys: System, procs: seq<(NamespaceID, int)>, x: NamespaceID, y: NamespaceID) {
    forall i: nat :: SeenBy(sys, procs, y, i) ==> exists h: nat :: h <= i && SeenBy(sys, procs, x, h)
  }

  /** Every child was seen by some process, and no later than the children listed after it. */
  ghost predicate InOrderSeen(sys: System, procs: seq<(NamespaceID, int)>, cs: seq<NamespaceID>) {
    && (forall a :: 0 <= a < |cs| ==> Seen(sys, procs, cs[a]))
    && (forall a, b :: 0 <= a < b < |cs| ==> NoLater(sys, procs, cs[a], cs[b]))
  }

  ghost predicate ChildrenInOrder(sys: System, procs: seq<(NamespaceID, int)>, list: NamespaceList) {
    forall e :: e in list ==> InOrderSeen(sys, procs, list[e].children)
  }

  lemma SeenStill(sys: System, procs: seq<(NamespaceID, int)>, p: (NamespaceID, int), e: NamespaceID, i: nat)
    requires i < |procs|
    ensures SeenBy(sys, procs + [p], e, i) <==> SeenBy(sys, procs, e, i)
  {
    hide AncestorOrSelf;
  }

  lemma NoLaterStill(sys: System, procs: seq<(NamespaceID, int)>, p: (NamespaceID, int), x: NamespaceID, y: NamespaceID)
    requires Seen(sys, procs, x) && NoLater(sys, procs, x, y)
    ensures Seen(sys, procs + [p], x) && NoLater(sys, procs + [p], x, y)
  {
    var g: nat :| SeenBy(sys, procs, x, g);
    SeenStill(sys, procs, p, x, g);
    forall i: nat | SeenBy(sys, procs + [p], y, i) ensures exists h: nat :: h <= i && SeenBy(sys, procs + [p], x, h) {
      if i < |procs| {
        SeenStill(sys, procs, p, y, i);
        var h: nat :| h <= i && SeenBy(sys, procs, x, h);
        SeenStill(sys, procs, p, x, h);
      }
    }
  }

  /** With one more process, the children listed before stay in order. */
  lemma StillInOrder(sys: System, procs: seq<(NamespaceID, int)>, p: (NamespaceID, int), cs: seq<NamespaceID>)
    requires InOrderSeen(sys, procs, cs)
    ensures InOrderSeen(sys, procs + [p], cs)
  {
    forall a | 0 <= a < |cs| ensures Seen(sys, procs + [p], cs[a]) {
      var g: nat :| SeenBy(sys, procs, cs[a], g);
      SeenStill(sys, procs, p, cs[a], g);
    }
    hide Seen, NoLater;
    forall a, b | 0 <= a < b < |cs| ensures NoLater(sys, procs + [p], cs[a], cs[b]) {
      NoLaterStill(sys, procs, p, cs[a], cs[b]);
    }
  }

  /** The last process is the first to see y. */
  ghost predicate FirstSeen(sys: System, procs: seq<(NamespaceID, int)>, p: (NamespaceID, int), y: NamespaceID) {
    AncestorOrSelf(sys, y, p.0) && forall i: nat :: !SeenBy(sys, procs, y, i)
  }

  lemma SeenLast(sys: System, procs: seq<(NamespaceID, int)>, p: (NamespaceID, int), x: NamespaceID, y: NamespaceID)
    requires FirstSeen(sys, procs, p, y)
    ensures Seen(sys, procs + [p], y) && (Seen(sys, procs + [p], x) ==> NoLater(sys, procs + [p], x, y))
  {
    hide AncestorOrSelf;
    var procs' := procs + [p];
    assert SeenBy(sys, procs', y, |procs|);
    if Seen(sys, procs', x) {
      var h: nat :| SeenBy(sys, procs', x, h);
      forall i: nat | SeenBy(sys, procs', y, i) ensures h <= i {
        if i < |procs| {
          SeenStill(sys, procs, p, y, i);
        }
      }
    }
  }

  lemma NewAtEnd(sys: System, procs: seq<(NamespaceID, int)>, p: (NamespaceID, int), cs: seq<NamespaceID>, cs': seq<NamespaceID>)
    requires InOrderSeen(sys, procs + [p], cs) && cs <= cs'
    requires forall k :: |cs| <= k < |cs'| ==> FirstSeen(sys, procs, p, cs'[k])
    ensures InOrderSeen(sys, procs + [p], cs')
  {
    hide Seen, NoLater, FirstSeen;
    forall a | 0 <= a < |cs'| ensures Seen(sys, procs + [p], cs'[a]) {
      if a < |cs| {
        assert cs'[a] == cs[a];
      } else {
        SeenLast(sys, procs, p, cs'[a], cs'[a]);
      }
    }
    forall a, b | 0 <= a < b < |cs'| ensures NoLater(sys, procs + [p], cs'[a], cs'[b]) {
      if b < |cs| {
        assert cs'[a] == cs[a] && cs'[b] == cs[b];
      } else {
        SeenLast(sys, procs, p, cs'[a], cs'[b]);
      }
    }
  }

  /** Every namespace above a listed one is listed. */
  lemma {:induction false} AllAboveListed(sys: System, pidns: bool, list: NamespaceList, ns: NamespaceID, n: nat)
    requires SystemOk(sys) && Good(sys, pidns, list, {}) && ns in list && ns in sys
    ensures Up(sys, ns, n).Some? ==> Up(sys, ns, n).value in list
    decreases n
  {
    if n > 0 && sys[ns].parent.Some? {
      assert TrueParent(sys, pidns, ns) == sys[ns].parent;
      AllAboveListed(sys, pidns, list, sys[ns].parent.value, n - 1);
    }
  }

  lemma UnlistedUnseen(sys: System, pidns: bool, procs: seq<(NamespaceID, int)>, list: NamespaceList, e: NamespaceID, i: nat)
    requires SystemOk(sys) && Good(sys, pidns, list, {}) && e !in list
    requires forall q :: q in procs ==> q.0 in sys && q.0 in list
    ensures !SeenBy(sys, procs, e, i)
  {
    hide Good, SystemOk;
    if SeenBy(sys, procs, e, i) {
      var n: nat :| Up(sys, procs[i].0, n) == Some(e);
      assert procs[i] in procs;
      AllAboveListed(sys, pidns, list, procs[i].0, n);
    }
  }

  lemma ChildrenNext(sys: System, pidns: bool, procs: seq<(NamespaceID, int)>, p: (NamespaceID, int),
                     list: NamespaceList, list': NamespaceList)
    requires SystemOk(sys) && Good(sys, pidns, list, {}) && Good(sys, pidns, list', {}) && Appended(list, list')
    requires forall q :: q in procs ==> q.0 in sys && q.0 in list
    requires forall e :: e in list' && e !in list ==> e == INVIS || AncestorOrSelf(sys, e, p.0)
    requires ChildrenInOrder(sys, procs, list)
    ensures ChildrenInOrder(sys, procs + [p], list')
  {
    forall e | e in list' ensures InOrderSeen(sys, procs + [p], list'[e].children) {
      var cs, cs' := ChildrenIn(list, e), list'[e].children;
      assert InOrderSeen(sys, procs, cs);
      StillInOrder(sys, procs, p, cs);
      ChildrenListed(sys, pidns, list', e);
      forall k | |cs| <= k < |cs'| ensures FirstSeen(sys, procs, p, cs'[k]) {
        assert cs'[k] in cs' && cs'[k] !in list && cs'[k] != INVIS;
        forall i: nat ensures !SeenBy(sys, procs, cs'[k], i) {
          UnlistedUnseen(sys, pidns, procs, list, cs'[k], i);
        }
      }
      NewAtEnd(sys, procs, p, cs, cs');
    }
  }

  /** How many namespaces are not in the map yet. */
  ghost function Missing(sys: System, list: NamespaceList): nat {
    |sys.Keys - list.Keys|
  }

  lemma FewerMissing(sys: System, list: NamespaceList, ns: NamespaceID, a: Attribs)
    requires ns in sys && ns !in list
    ensures Missing(sys, list[ns := a]) < Missing(sys, list)
  {
    assert sys.Keys - list.Keys == (sys.Keys - list[ns := a].Keys) + {ns};
  }

  // ---------------------------------------------------------------------
  // The root
  // ---------------------------------------------------------------------

  /** Entries that are being added lie strictly below the one that is asked for. */
  ghost predicate Above(sys: System, ns: NamespaceID, open: set<NamespaceID>) {
    forall o :: o in open ==> Climbs(sys, o, ns)
  }

  ghost predicate Climbs(sys: System, o: NamespaceID, ns: NamespaceID) {
    exists k: nat :: k >= 1 && Up(sys, o, k) == Some(ns)
  }

  lemma AboveParent(sys: System, ns: NamespaceID, open: set<NamespaceID>)
    requires Above(sys, ns, open) && ns in sys && sys[ns].parent.Some?
    ensures Above(sys, sys[ns].parent.value, open + {ns})
  {
    var p := sys[ns].parent.value;
    assert Up(sys, ns, 1) == Some(p);
    forall o | o in open ensures Climbs(sys, o, p) {
      var k: nat :| k >= 1 && Up(sys, o, k) == Some(ns);
      UpAdd(sys, o, ns, k, 1);
      assert Up(sys, o, k + 1) == Some(p);
    }
    assert Climbs(sys, ns, p);
  }

  /** An entry on the way from a listed one to the topmost above it is complete. */
  lemma NotOpen(sys: System, pidns: bool, open: set<NamespaceID>, ns: NamespaceID, e: NamespaceID, n: nat, i: nat)
    requires Above(sys, ns, open) && IsTop(sys, pidns, e) && Up(sys, ns, n) == Some(e) && i <= n
    ensures Up(sys, ns, i).Some? && Up(sys, ns, i).value !in open
  {
    if Up(sys, ns, i) == None {
      UpStaysNone(sys, ns, i, n);
    }
    TopEnds(sys, pidns, e, ns, n, n + 1);
    var x := Up(sys, ns, i).value;
    if x in open {
      assert Climbs(sys, x, ns);
      var k: nat :| k >= 1 && Up(sys, x, k) == Some(ns);
      UpAdd(sys, ns, x, i, k);
      NoEnd(sys, ns, i + k, n + 1);
    }
  }

  lemma {:induction false} ListedUpTo(sys: System, pidns: bool, list: NamespaceList, open: set<NamespaceID>,
                                      ns: NamespaceID, e: NamespaceID, n: nat, i: nat)
    requires SystemOk(sys) && Good(sys, pidns, list, open) && Above(sys, ns, open) && ns in list && ns in sys
    requires IsTop(sys, pidns, e) && Up(sys, ns, n) == Some(e) && i <= n
    ensures Up(sys, ns, i).Some? && Up(sys, ns, i).value in list && Up(sys, ns, i).value in sys
  {
    if i > 0 {
      ListedUpTo(sys, pidns, list, open, ns, e, n, i - 1);
      NotOpen(sys, pidns, open, ns, e, n, i - 1);
      NotOpen(sys, pidns, open, ns, e, n, i);
      UpAdd(sys, ns, Up(sys, ns, i - 1).value, i - 1, 1);
      hide Above;
    }
  }

  /** The topmost namespace above a listed one is listed. */
  lemma TopIsListed(sys: System, pidns: bool, list: NamespaceList, open: set<NamespaceID>, ns: NamespaceID, e: NamespaceID)
    requires SystemOk(sys) && Good(sys, pidns, list, open) && Above(sys, ns, open) && ns in list && ns in sys
    requires TopOf(sys, pidns, e, ns)
    ensures e in list
  {
    hide Good, SystemOk, Above;
    var n: nat :| Up(sys, ns, n) == Some(e);
    ListedUpTo(sys, pidns, list, open, ns, e, n, n);
  }

  /** What adding `ns` does to rootNS: it becomes the topmost namespace above ns if that was not
      listed before. */
  ghost predicate RootAfter(sys: System, pidns: bool, list: NamespaceList, root: NamespaceID, ns: NamespaceID, root': NamespaceID) {
    && (forall e :: TopOf(sys, pidns, e, ns) && e !in list ==> root' == e)
    && ((forall e :: TopOf(sys, pidns, e, ns) ==> e in list) ==> root' == root)
  }

  lemma RootOfListed(sys: System, pidns: bool, list: NamespaceList, open: set<NamespaceID>, ns: NamespaceID, root: NamespaceID)
    requires SystemOk(sys) && Good(sys, pidns, list, open) && Above(sys, ns, open) && ns in list && ns in sys
    ensures RootAfter(sys, pidns, list, root, ns, root)
  {
    forall e | TopOf(sys, pidns, e, ns) ensures e in list {
      TopIsListed(sys, pidns, list, open, ns, e);
    }
  }

  lemma RootOfParentless(sys: System, pidns: bool, list: NamespaceList, root: NamespaceID, ns: NamespaceID)
    requires ns in sys && sys[ns].parent == None && ns !in list
    ensures RootAfter(sys, pidns, list, root, ns, if IsTop(sys, pidns, ns) then ns else root)
  {
    forall e ensures TopOf(sys, pidns, e, ns) <==> e == ns && IsTop(sys, pidns, ns) {
      TopOfItself(sys, pidns, e, ns);
    }
  }

  lemma RootOfChild(sys: System, pidns: bool, list: NamespaceList, list1: NamespaceList, root: NamespaceID,
                    ns: NamespaceID, root': NamespaceID)
    requires ns in sys && sys[ns].parent.Some? && list1.Keys == list.Keys + {ns}
    requires RootAfter(sys, pidns, list1, root, sys[ns].parent.value, root')
    ensures RootAfter(sys, pidns, list, root, ns, root')
  {
    forall e ensures TopOf(sys, pidns, e, ns) <==> TopOf(sys, pidns, e, sys[ns].parent.value)
             ensures TopOf(sys, pidns, e, ns) ==> e != ns {
      TopOfParent(sys, pidns, e, ns);
    }
    assert forall e :: e in list1 <==> e in list1.Keys;
    assert forall e :: e in list <==> e in list.Keys;
    hide TopOf;
  }

  /** A topmost namespace that the scan has come across. */
  ghost predicate Found(sys: System, pidns: bool, procs: seq<(NamespaceID, int)>, e: NamespaceID) {
    exists i :: 0 <= i < |procs| && TopOf(sys, pidns, e, procs[i].0)
  }

  /** Process i is the first whose namespace is below `root`, and no later one brings a topmost
      namespace that had not been found. */
  ghost predicate LastAt(sys: System, pidns: bool, procs: seq<(NamespaceID, int)>, root: NamespaceID, i: nat) {
    && i < |procs| && TopOf(sys, pidns, root, procs[i].0) && !Found(sys, pidns, procs[..i], root)
    && forall e :: Found(sys, pidns, procs, e) ==> Found(sys, pidns, procs[..i + 1], e)
  }

  /** rootNS after a scan: the last topmost namespace found, or its zero value if there is none. */
  ghost predicate FoundLast(sys: System, pidns: bool, procs: seq<(NamespaceID, int)>, root: NamespaceID) {
    if exists e :: Found(sys, pidns, procs, e) then exists i: nat :: LastAt(sys, pidns, procs, root, i)
    else root == INVIS
  }

  lemma FoundAppend(sys: System, pidns: bool, procs: seq<(NamespaceID, int)>, p: (NamespaceID, int), e: NamespaceID)
    ensures Found(sys, pidns, procs + [p], e) <==> Found(sys, pidns, procs, e) || TopOf(sys, pidns, e, p.0)
  {
    hide TopOf;
    var procs' := procs + [p];
    assert procs'[|procs|] == p;
    if Found(sys, pidns, procs, e) {
      var i :| 0 <= i < |procs| && TopOf(sys, pidns, e, procs[i].0);
      assert procs'[i] == procs[i];
    }
  }

  /** The topmost entries of the map are those found. */
  lemma TopsListed(sys: System, pidns: bool, procs: seq<(NamespaceID, int)>, list: NamespaceList, e: NamespaceID)
    requires SystemOk(sys) && Good(sys, pidns, list, {}) && Recorded(sys, procs, list)
    requires (forall p :: p in procs ==> p.0 in sys) && IsTop(sys, pidns, e)
    ensures e in list <==> Found(sys, pidns, procs, e)
  {
    if e in list {
      var p :| p in procs && AncestorOrSelf(sys, e, p.0);
      var i :| 0 <= i < |procs| && procs[i] == p;
      assert TopOf(sys, pidns, e, procs[i].0);
    }
    if Found(sys, pidns, procs, e) {
      var i :| 0 <= i < |procs| && TopOf(sys, pidns, e, procs[i].0);
      assert procs[i] in procs;
      TopIsListed(sys, pidns, list, {}, procs[i].0, e);
    }
  }

  /** A newly found topmost namespace is the last one. */
  lemma FoundNew(sys: System, pidns: bool, procs: seq<(NamespaceID, int)>, p: (NamespaceID, int), e: NamespaceID)
    requires TopOf(sys, pidns, e, p.0) && !Found(sys, pidns, procs, e)
    ensures FoundLast(sys, pidns, procs + [p], e)
  {
    hide TopOf;
    var procs' := procs + [p];
    FoundAppend(sys, pidns, procs, p, e);
    assert procs'[..|procs|] == procs && procs'[..|procs| + 1] == procs' && procs'[|procs|] == p;
    assert LastAt(sys, pidns, procs', e, |procs|);
  }

  lemma FoundOld(sys: System, pidns: bool, procs: seq<(NamespaceID, int)>, p: (NamespaceID, int), root: NamespaceID)
    requires FoundLast(sys, pidns, procs, root)
    requires forall e :: TopOf(sys, pidns, e, p.0) ==> Found(sys, pidns, procs, e)
    ensures FoundLast(sys, pidns, procs + [p], root)
  {
    hide TopOf;
    var procs' := procs + [p];
    forall e ensures Found(sys, pidns, procs', e) <==> Found(sys, pidns, procs, e) {
      FoundAppend(sys, pidns, procs, p, e);
    }
    hide Found;
    if i: nat :| LastAt(sys, pidns, procs, root, i) {
      assert procs'[..i] == procs[..i] && procs'[..i + 1] == procs[..i + 1] && procs'[i] == procs[i];
      assert LastAt(sys, pidns, procs', root, i);
    }
  }

  lemma FoundNext(sys: System, pidns: bool, procs: seq<(NamespaceID, int)>, p: (NamespaceID, int),
                  list: NamespaceList, root: NamespaceID, root': NamespaceID)
    requires SystemOk(sys) && Good(sys, pidns, list, {}) && Recorded(sys, procs, list)
    requires (forall q :: q in procs ==> q.0 in sys) && FoundLast(sys, pidns, procs, root)
    requires RootAfter(sys, pidns, list, root, p.0, root')
    ensures FoundLast(sys, pidns, procs + [p], root')
  {
    forall e | TopOf(sys, pidns, e, p.0) ensures e in list <==> Found(sys, pidns, procs, e) {
      TopsListed(sys, pidns, procs, list, e);
    }
    hide SystemOk, Good, Recorded, FoundLast, TopOf, Found;
    if e :| TopOf(sys, pidns, e, p.0) && e !in list {
      FoundNew(sys, pidns, procs, p, e);
    } else {
      FoundOld(sys, pidns, procs, p, root);
    }
  }

  lemma ParentListed(sys: System, e: NamespaceID)
    requires SystemOk(sys) && e in sys
    ensures e != INVIS && (sys[e].parent.Some? ==> sys[e].parent.value in sys)
  {
  }

  lemma WhichParent(sys: System, pidns: bool, e: NamespaceID)
    requires e in sys
    ensures IsTop(sys, pidns, e) <==> sys[e].parent == None && (sys[e].nsType == CLONE_NEWUSER || pidns)
    ensures !IsTop(sys, pidns, e) ==>
      TrueParent(sys, pidns, e) == Some(if sys[e].parent == None then INVIS else sys[e].parent.value)
  {
  }

  lemma EmptyGood(sys: System, pidns: bool, root: NamespaceID)
    ensures Good(sys, pidns, map[], {}) && Recorded(sys, [], map[]) && ChildrenInOrder(sys, [], map[])
    ensures root == INVIS ==> FoundLast(sys, pidns, [], root)
  {
  }

  /** The map after a scan: every namespace of a process has an entry, every entry is there on
      account of some process, and it lists exactly the PIDs recorded for it, in order. */
  ghost predicate Recorded(sys: System, procs: seq<(NamespaceID, int)>, list: NamespaceList) {
    && (forall p :: p in procs ==> p.0 in list)
    && (forall e :: e in list ==> e == INVIS || exists p :: p in procs && AncestorOrSelf(sys, e, p.0))
    && (forall e :: PidsIn(list, e) == Members(procs, e))
  }

  lemma RecordedNext(sys: System, procs: seq<(NamespaceID, int)>, p: (NamespaceID, int), list: NamespaceList, list': NamespaceList)
    requires Recorded(sys, procs, list) && p.0 in list'
    requires p.1 <= 0 ==> Grown(sys, list, list', p.0)
    requires p.1 > 0 ==> exists l :: Grown(sys, list, l, p.0) && p.0 in l && list' == WithPid(l, p.0, p.1)
    ensures Recorded(sys, procs + [p], list')
  {
    hide Grown, AncestorOrSelf, PidsIn, Members;
    var l :| Grown(sys, list, l, p.0) && p.0 in l && list' == if p.1 > 0 then WithPid(l, p.0, p.1) else l;
    var procs' := procs + [p];
    assert p in procs' && forall q :: q in procs ==> q in procs';
    GrownKeys(sys, list, l, p.0);
    forall e | e in list' ensures e == INVIS || exists q :: q in procs' && AncestorOrSelf(sys, e, q.0) {
      if e !in list {
        GrownNew(sys, list, l, p.0, e);
      } else if e != INVIS {
        var q :| q in procs && AncestorOrSelf(sys, e, q.0);
        assert q in procs';
      }
    }
    forall e ensures PidsIn(list', e) == Members(procs', e) {
      GrownPids(sys, list, l, p.0, e);
      PidsNext(procs, p, l, e);
    }
  }

  lemma PidsNext(procs: seq<(NamespaceID, int)>, p: (NamespaceID, int), l: NamespaceList, e: NamespaceID)
    requires p.0 in l && PidsIn(l, e) == Members(procs, e)
    ensures PidsIn(if p.1 > 0 then WithPid(l, p.0, p.1) else l, e) == Members(procs + [p], e)
  {
    assert (procs + [p])[..|procs|] == procs;
  }

  lemma GrownNew(sys: System, list: NamespaceList, list': NamespaceList, ns: NamespaceID, e: NamespaceID)
    requires Grown(sys, list, list', ns) && e in list' && e !in list
    ensures e == INVIS || AncestorOrSelf(sys, e, ns)
  {
  }

  lemma GrownPids(sys: System, list: NamespaceList, list': NamespaceList, ns: NamespaceID, e: NamespaceID)
    requires Grown(sys, list, list', ns)
    ensures PidsIn(list', e) == PidsIn(list, e)
  {
  }

  class NamespaceInfo {
    const sys: System
    const pidns: bool

    var nsList: NamespaceList
    var rootNS: NamespaceID

    constructor (sys: System, pidns: bool)
      ensures this.sys == sys && this.pidns == pidns && nsList == map[] && rootNS == INVIS
    {
      this.sys, this.pidns := sys, pidns;
      nsList, rootNS := map[], INVIS;
    }

    method AddNamespace(ns: NamespaceID, pid: int, ghost open: set<NamespaceID>) returns (r: NamespaceID)
      requires SystemOk(sys) && ns in sys
      requires Good(sys, pidns, nsList, open) && Above(sys, ns, open)
      modifies this
      ensures r == ns && ns in nsList
      ensures Good(sys, pidns, nsList, open) && RootAfter(sys, pidns, old(nsList), old(rootNS), ns, rootNS)
      ensures pid <= 0 ==> Grown(sys, old(nsList), nsList, ns)
      ensures pid > 0 ==> exists list :: Grown(sys, old(nsList), list, ns) && ns in list && nsList == WithPid(list, ns, pid)
      ensures Appended(old(nsList), nsList)
      decreases Missing(sys, nsList), 1
    {
      hide Good, Grown, SystemOk, Missing, RootAfter, Above, Appended;
      if ns !in nsList {
        AddNamespaceToList(ns, open);
      } else {
        GrownReflexive(sys, nsList, ns);
        AppendedReflexive(nsList);
        RootOfListed(sys, pidns, nsList, open, ns, rootNS);
      }
      if pid > 0 {
        WithPidGood(sys, pidns, nsList, open, ns, pid);
        AppendedPid(old(nsList), nsList, ns, pid);
        ghost var list := nsList;
        nsList := WithPid(nsList, ns, pid);
        assert Grown(sys, old(nsList), list, ns);
      }
      return ns;
    }

    method AddNamespaceToList(ns: NamespaceID, ghost open: set<NamespaceID>)
      requires SystemOk(sys) && ns in sys && ns !in nsList
      requires Good(sys, pidns, nsList, open) && Above(sys, ns, open)
      modifies this
      ensures ns in nsList
      ensures Good(sys, pidns, nsList, open) && RootAfter(sys, pidns, old(nsList), old(rootNS), ns, rootNS)
      ensures Grown(sys, old(nsList), nsList, ns) && Appended(old(nsList), nsList)
      decreases Missing(sys, nsList), 0
    {
      hide Good, Grown, SystemOk, Missing, RootAfter, Above, Appended;
      var node := sys[ns];
      ParentListed(sys, ns);
      WhichParent(sys, pidns, ns);
      hide IsTop, TrueParent;
      OpenListed(sys, pidns, nsList, open);
      InsertEntry(ns, open);
      assert open + {ns} - {ns} == open;
      if node.parent == None {
        RootOfParentless(sys, pidns, old(nsList), rootNS, ns);
        if node.nsType == CLONE_NEWUSER || pidns {
          TopGood(sys, pidns, nsList, open, ns);
          rootNS := ns;
        } else {
          AttachInvisible(ns, open + {ns}, old(nsList));
        }
      } else {
        ghost var list1 := nsList;
        AboveParent(sys, ns, open);
        var parent := AddNamespace(node.parent.value, -1, open + {ns});
        GrownByParent(sys, old(nsList), list1, nsList, ns);
        AppendedTwice(old(nsList), list1, nsList);
        RootOfChild(sys, pidns, old(nsList), list1, old(rootNS), ns, rootNS);
        Attach(parent, ns, open + {ns}, old(nsList));
      }
    }

    /** An entry without children or PIDs, not linked to a parent yet. */
    method InsertEntry(ns: NamespaceID, ghost open: set<NamespaceID>)
      requires SystemOk(sys) && ns in sys && ns !in nsList && Good(sys, pidns, nsList, open)
      modifies this`nsList
      ensures ns in nsList && nsList.Keys == old(nsList).Keys + {ns}
      ensures Good(sys, pidns, nsList, open + {ns}) && Grown(sys, old(nsList), nsList, ns)
      ensures Missing(sys, nsList) < Missing(sys, old(nsList)) && Appended(old(nsList), nsList)
    {
      hide Good, Grown, SystemOk, Missing, Appended;
      var node := sys[ns];
      ParentListed(sys, ns);
      var uid := if node.nsType == CLONE_NEWUSER then node.creatorUID else 0;
      var attribs := Attribs(node.nsType, [], [], uid);
      FreshGood(sys, pidns, nsList, open, ns, attribs);
      GrownByFresh(sys, nsList, ns, attribs);
      FewerMissing(sys, nsList, ns, attribs);
      AppendedReflexive(nsList);
      AppendedFresh(nsList, nsList, ns, attribs);
      nsList := nsList[ns := attribs];
    }

    /** The owner of `ns` is not visible: it goes below the special entry, created on demand. */
    method AttachInvisible(ns: NamespaceID, ghost open: set<NamespaceID>, ghost start: NamespaceList)
      requires SystemOk(sys) && ns in nsList && ns in open && TrueParent(sys, pidns, ns) == Some(INVIS)
      requires Good(sys, pidns, nsList, open) && Grown(sys, start, nsList, ns) && Appended(start, nsList) && ns !in start
      modifies this`nsList
      ensures ns in nsList
      ensures Good(sys, pidns, nsList, open - {ns}) && Grown(sys, start, nsList, ns) && Appended(start, nsList)
    {
      hide Good, Grown, Appended;
      if INVIS !in nsList {
        var attribs := Attribs(CLONE_NEWUSER, [], [], 0);
        FreshInvis(sys, pidns, nsList, open);
        GrownByInvis(sys, start, nsList, ns, attribs);
        AppendedFresh(start, nsList, INVIS, attribs);
        nsList := nsList[INVIS := attribs];
      }
      Attach(INVIS, ns, open, start);
    }

    /** The new entry is appended to the children of its parent. */
    method Attach(parent: NamespaceID, ns: NamespaceID, ghost open: set<NamespaceID>, ghost start: NamespaceList)
      requires parent in nsList && ns in open && TrueParent(sys, pidns, ns) == Some(parent)
      requires Good(sys, pidns, nsList, open) && Grown(sys, start, nsList, ns) && Appended(start, nsList) && ns !in start
      modifies this`nsList
      ensures ns in nsList
      ensures Good(sys, pidns, nsList, open - {ns}) && Grown(sys, start, nsList, ns) && Appended(start, nsList)
    {
      hide Good, Grown, Appended;
      OpenListed(sys, pidns, nsList, open);
      LinkGood(sys, pidns, nsList, open, parent, ns);
      GrownByLink(sys, start, nsList, ns, parent, ns);
      AppendedLink(start, nsList, parent, ns);
      nsList := Link(nsList, parent, ns);
    }

    /** The scan over all processes: each PID with the namespace that one of its symlinks names. */
    method AddAll(procs: seq<(NamespaceID, int)>)
      requires SystemOk(sys) && nsList == map[] && rootNS == INVIS
      requires forall p :: p in procs ==> p.0 in sys
      modifies this
      ensures Scanned(sys, pidns, procs, nsList, rootNS)
    {
      hide SystemOk, Good, Grown, Recorded, RootAfter, FoundLast, Above, Appended, ChildrenInOrder;
      EmptyGood(sys, pidns, rootNS);
      var j := 0;
      assert procs[..0] == [];
      while j < |procs|
        invariant 0 <= j <= |procs|
        invariant Good(sys, pidns, nsList, {}) && FoundLast(sys, pidns, procs[..j], rootNS)
        invariant Recorded(sys, procs[..j], nsList) && ChildrenInOrder(sys, procs[..j], nsList)
      {
        assert procs[j] in procs;
        ghost var list0, root0 := nsList, rootNS;
        NothingOpen(sys, procs[j].0);
        var _ := AddNamespace(procs[j].0, procs[j].1, {});
        RecordedNext(sys, procs[..j], procs[j], list0, nsList);
        assert forall q :: q in procs[..j] ==> q in procs;
        ScannedOn(sys, pidns, procs[..j], procs[j], list0, nsList);
        FoundNext(sys, pidns, procs[..j], procs[j], list0, root0, rootNS);
        assert procs[..j + 1] == procs[..j] + [procs[j]];
        j := j + 1;
      }
      assert procs[..j] == procs;
    }
  }

  lemma ScannedOn(sys: System, pidns: bool, procs: seq<(NamespaceID, int)>, p: (NamespaceID, int),
                  list: NamespaceList, list': NamespaceList)
    requires SystemOk(sys) && Good(sys, pidns, list, {}) && Good(sys, pidns, list', {}) && Appended(list, list')
    requires (forall q :: q in procs ==> q.0 in sys) && Recorded(sys, procs, list)
    requires p.1 <= 0 ==> Grown(sys, list, list', p.0)
    requires p.1 > 0 ==> exists l :: Grown(sys, list, l, p.0) && p.0 in l && list' == WithPid(l, p.0, p.1)
    requires ChildrenInOrder(sys, procs, list)
    ensures ChildrenInOrder(sys, procs + [p], list')
  {
    hide Good, SystemOk, Appended, ChildrenInOrder, AncestorOrSelf, Members;
    forall e | e in list' && e !in list ensures e == INVIS || AncestorOrSelf(sys, e, p.0) {
    }
    ChildrenNext(sys, pidns, procs, p, list, list');
  }

  lemma NothingOpen(sys: System, ns: NamespaceID)
    ensures Above(sys, ns, {})
  {
  }

  /** What a scan leaves: the map closed and complete, children in the order in which they were
      first seen, and rootNS the last topmost namespace found. */
  ghost predicate Scanned(sys: System, pidns: bool, procs: seq<(NamespaceID, int)>, list: NamespaceList, root: NamespaceID) {
    && SystemOk(sys) && (forall p :: p in procs ==> p.0 in sys)
    && Good(sys, pidns, list, {}) && Recorded(sys, procs, list) && FoundLast(sys, pidns, procs, root)
    && ChildrenInOrder(sys, procs, list)
  }
}

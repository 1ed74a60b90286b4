/** The display of namespaces_of.go: a recursion over the children lists, from the root and
    from the special entry for invisible owners. */
module NamespaceDisplay {
  import opened Wrappers
  import opened Namespaces

  /** What a display depends on: the finished map over an acyclic parent relation, in which
      every entry has a depth, and the types that are to be shown beside user namespaces. */
  datatype View = View(sys: System, pidns: bool, list: NamespaceList, types: set<int>,
                       depth: map<NamespaceID, nat>, bound: nat)

  function Parent(v: View, e: NamespaceID): Option<NamespaceID> {
    TrueParent(v.sys, v.pidns, e)
  }

  predicate Top(v: View, e: NamespaceID) {
    IsTop(v.sys, v.pidns, e)
  }

  ghost predicate Ready(v: View) {
    && SystemOk(v.sys) && Good(v.sys, v.pidns, v.list, {})
    && (forall e :: e in v.list ==> e in v.depth && v.depth[e] <= v.bound)
    && (forall e :: e in v.list && Parent(v, e).Some? ==>
          Parent(v, e).value in v.list && v.depth[e] == v.depth[Parent(v, e).value] + 1)
    && (forall e :: e in v.list && Parent(v, e) == None ==> v.depth[e] == 0)
  }

  predicate Shows(v: View, e: NamespaceID) {
    e in v.list && (v.list[e].nsType == CLONE_NEWUSER || v.list[e].nsType in v.types)
  }

  /** displayNamespaceTree: the lines printed, each an entry and its level. */
  ghost function Tree(v: View, ns: NamespaceID, level: nat): seq<(NamespaceID, nat)>
    requires Ready(v) && ns in v.list
    decreases v.bound - v.depth[ns], 1, 0
  {
    ChildrenOk(v, ns);
    (if Shows(v, ns) then [(ns, level)] else []) +
    Trees(v, ns, v.list[ns].children, level + 1)
  }

  ghost function Trees(v: View, ns: NamespaceID, cs: seq<NamespaceID>, level: nat): seq<(NamespaceID, nat)>
    requires Ready(v) && ns in v.list
    requires forall c :: c in cs ==> c in v.list && Parent(v, c) == Some(ns)
    decreases v.bound - v.depth[ns], 0, |cs|
  {
    if cs == [] then []
    else Tree(v, cs[0], level) +
         Trees(v, ns, cs[1..], level)
  }

  /** displayNamespaceHierarchies without --subtree. */
  ghost function Hierarchies(v: View, root: NamespaceID): seq<(NamespaceID, nat)>
    requires Ready(v) && root in v.list
  {
    Tree(v, root, 0) +
    if INVIS in v.list then Tree(v, INVIS, 0) else []
  }

  // ---------------------------------------------------------------------
  // Descent
  // ---------------------------------------------------------------------

  ghost predicate Under(v: View, e: NamespaceID, ns: NamespaceID)
    requires Ready(v) && e in v.list
    decreases v.depth[e]
  {
    e == ns ||
    (Parent(v, e).Some? && Under(v, Parent(v, e).value, ns))
  }

  lemma {:induction false} UnderDeeper(v: View, e: NamespaceID, ns: NamespaceID)
    requires Ready(v) && e in v.list && ns in v.list
    requires Under(v, e, ns)
    ensures v.depth[e] >= v.depth[ns]
    decreases v.depth[e]
  {
    if e != ns {
      UnderDeeper(v, Parent(v, e).value, ns);
    }
  }

  /** An entry has only one ancestor at each depth. */
  lemma {:induction false} UnderUnique(v: View, e: NamespaceID, a: NamespaceID, b: NamespaceID)
    requires Ready(v) && e in v.list && a in v.list && b in v.list && v.depth[a] == v.depth[b]
    requires Under(v, e, a) && Under(v, e, b)
    ensures a == b
    decreases v.depth[e]
  {
    if e != a && e != b {
      UnderUnique(v, Parent(v, e).value, a, b);
    } else if e == a && e != b {
      UnderDeeper(v, Parent(v, e).value, b);
    } else if e == b && e != a {
      UnderDeeper(v, Parent(v, e).value, a);
    }
  }

  /** Strictly below an entry means at or below one of its children. */
  lemma {:induction false} UnderChild(v: View, e: NamespaceID, ns: NamespaceID)
    requires Ready(v) && e in v.list && ns in v.list && e != ns
    ensures Under(v, e, ns) <==>
            exists c :: c in v.list[ns].children && Under(v, e, c)
    decreases v.depth[e]
  {
    var tp := Parent(v, e);
    if tp == Some(ns) {
      assert e in v.list[ns].children;
    } else if tp.Some? {
      UnderChild(v, tp.value, ns);
      assert e !in v.list[ns].children;
    } else {
      assert e !in v.list[ns].children;
    }
  }

  // ---------------------------------------------------------------------
  // What is printed
  // ---------------------------------------------------------------------

  /** How many lines show an entry. */
  ghost function Lines(out: seq<(NamespaceID, nat)>, e: NamespaceID): nat {
    if out == [] then 0 else (if out[0].0 == e then 1 else 0) + Lines(out[1..], e)
  }

  lemma {:induction false} LinesAppend(xs: seq<(NamespaceID, nat)>, ys: seq<(NamespaceID, nat)>, e: NamespaceID)
    ensures Lines(xs + ys, e) == Lines(xs, e) + Lines(ys, e)
  {
    if xs == [] {
      assert xs + ys == ys;
    } else {
      assert (xs + ys)[1..] == xs[1..] + ys;
      LinesAppend(xs[1..], ys, e);
    }
  }

  lemma {:induction false} TreeLines(v: View, ns: NamespaceID, level: nat, e: NamespaceID)
    requires Ready(v) && ns in v.list && e in v.list
    ensures Lines(Tree(v, ns, level), e) ==
            if Under(v, e, ns) && (v.list[e].nsType == CLONE_NEWUSER || v.list[e].nsType in v.types) then 1 else 0
    decreases v.bound - v.depth[ns], 1, 0
  {
    hide Good, Parent;
    var cs := v.list[ns].children;
    ChildrenOk(v, ns);
    var head := if Shows(v, ns) then [(ns, level)] else [];
    var rest := Trees(v, ns, cs, level + 1);
    LinesAppend(head, rest, e);
    OnceEach(v, ns);
    TreesLines(v, ns, cs, level + 1, e);
    if e == ns {
      forall c | c in cs ensures !Under(v, e, c) {
        NotUnderChild(v, ns, c);
      }
    } else {
      UnderChild(v, e, ns);
    }
  }

  lemma ChildrenOk(v: View, ns: NamespaceID)
    requires Ready(v) && ns in v.list
    ensures forall c :: c in v.list[ns].children ==> c in v.list && Parent(v, c) == Some(ns)
  {
    ChildrenListed(v.sys, v.pidns, v.list, ns);
    hide Good;
  }

  lemma NotUnderChild(v: View, ns: NamespaceID, c: NamespaceID)
    requires Ready(v) && ns in v.list && c in v.list && Parent(v, c) == Some(ns)
    ensures !Under(v, ns, c)
  {
    if Under(v, ns, c) {
      UnderDeeper(v, ns, c);
    }
  }

  lemma NoRepeats(cs: seq<NamespaceID>)
    requires cs != [] && forall c :: c in cs ==> multiset(cs)[c] == 1
    ensures cs[0] !in cs[1..]
    ensures forall c :: c in cs[1..] ==> c in cs && multiset(cs[1..])[c] == 1
  {
    var c0, rest := cs[0], cs[1..];
    assert cs == [c0] + rest && c0 in cs;
    assert multiset(cs) == multiset{c0} + multiset(rest);
    assert multiset(cs)[c0] == 1 + multiset(rest)[c0];
  }

  lemma OnceEach(v: View, ns: NamespaceID)
    requires Ready(v) && ns in v.list
    ensures forall c :: c in v.list[ns].children ==> multiset(v.list[ns].children)[c] == 1
  {
    ChildrenListed(v.sys, v.pidns, v.list, ns);
    hide Good;
    forall c | c in v.list[ns].children ensures multiset(v.list[ns].children)[c] == 1 {
      OnceOverAll(v.sys, v.pidns, v.list, c);
    }
  }

  lemma {:induction false} TreesLines(v: View, ns: NamespaceID, cs: seq<NamespaceID>, level: nat, e: NamespaceID)
    requires Ready(v) && ns in v.list && e in v.list
    requires forall c :: c in cs ==> c in v.list && Parent(v, c) == Some(ns)
    requires forall c :: c in cs ==> multiset(cs)[c] == 1
    ensures Lines(Trees(v, ns, cs, level), e) ==
            if (exists c :: c in cs && Under(v, e, c)) && Shows(v, e) then 1 else 0
    decreases v.bound - v.depth[ns], 0, |cs|
  {
    if cs != [] {
      var c0, rest := cs[0], cs[1..];
      NoRepeats(cs);
      assert forall c :: c in cs <==> c == c0 || c in rest;
      hide Good;
      LinesAppend(Tree(v, c0, level),
                  Trees(v, ns, rest, level), e);
      TreeLines(v, c0, level, e);
      TreesLines(v, ns, rest, level, e);
      if Under(v, e, c0) {
        forall c | c in rest ensures !Under(v, e, c) {
          if Under(v, e, c) {
            UnderUnique(v, e, c0, c);
          }
        }
      }
    }
  }

  /** Every line shows an entry at its own depth below the start. */
  lemma {:induction false} TreeLevels(v: View, ns: NamespaceID, level: nat)
    requires Ready(v) && ns in v.list
    ensures forall x :: x in Tree(v, ns, level) ==>
              x.0 in v.list && x.1 == level + v.depth[x.0] - v.depth[ns]
    decreases v.bound - v.depth[ns], 1, 0
  {
    ChildrenOk(v, ns);
    hide Ready, Good;
    TreesLevels(v, ns, v.list[ns].children, level + 1);
  }

  lemma {:induction false} TreesLevels(v: View, ns: NamespaceID, cs: seq<NamespaceID>, level: nat)
    requires Ready(v) && ns in v.list
    requires forall c :: c in cs ==> c in v.list && Parent(v, c) == Some(ns)
    ensures forall x :: x in Trees(v, ns, cs, level) ==>
              x.0 in v.list && x.1 == level + v.depth[x.0] - v.depth[ns] - 1
    decreases v.bound - v.depth[ns], 0, |cs|
  {
    if cs != [] {
      TreeLevels(v, cs[0], level);
      TreesLevels(v, ns, cs[1..], level);
    }
  }

  // ---------------------------------------------------------------------
  // The whole display
  // ---------------------------------------------------------------------

  /** Following true parents ends at a topmost entry or at the special one. */
  lemma {:induction false} UnderSomeTop(v: View, e: NamespaceID)
    requires Ready(v) && e in v.list
    ensures exists r :: r in v.list && (r == INVIS || Top(v, r)) && Under(v, e, r)
    decreases v.depth[e]
  {
    var tp := Parent(v, e);
    if tp.Some? {
      UnderSomeTop(v, tp.value);
    } else {
      assert Under(v, e, e);
    }
  }

  /** Lines of the whole display: one for each entry below the chosen root or below the special
      entry whose type is shown. */
  lemma HierarchiesLines(v: View, root: NamespaceID, e: NamespaceID)
    requires Ready(v)
    requires root in v.list && Top(v, root) && e in v.list
    ensures Lines(Hierarchies(v, root), e) ==
            if Shows(v, e) && (Under(v, e, root) ||
                                        (INVIS in v.list && Under(v, e, INVIS)))
            then 1 else 0
  {
    var t := Tree(v, root, 0);
    TreeLines(v, root, 0, e);
    if INVIS in v.list {
      LinesAppend(t, Tree(v, INVIS, 0), e);
      TreeLines(v, INVIS, 0, e);
      if Under(v, e, root) && Under(v, e, INVIS) {
        UnderUnique(v, e, root, INVIS);
      }
    } else {
      assert t + [] == t;
    }
  }

  /** Without a topmost entry the special one is displayed as the root, and once more. */
  lemma HierarchiesTwice(v: View, e: NamespaceID)
    requires Ready(v) && INVIS in v.list && e in v.list
    ensures Lines(Hierarchies(v, INVIS), e) == if Shows(v, e) && Under(v, e, INVIS) then 2 else 0
  {
    TreeLines(v, INVIS, 0, e);
    LinesAppend(Tree(v, INVIS, 0), Tree(v, INVIS, 0), e);
  }

  lemma HierarchiesLevels(v: View, root: NamespaceID)
    requires Ready(v) && root in v.list && (Top(v, root) || root == INVIS)
    ensures forall x :: x in Hierarchies(v, root) ==> x.0 in v.list && x.1 == v.depth[x.0]
  {
    TreeLevels(v, root, 0);
    if INVIS in v.list {
      TreeLevels(v, INVIS, 0);
    }
  }

  // ---------------------------------------------------------------------
  // What is displayed after a scan
  // ---------------------------------------------------------------------

  /** A display of what a scan of at least one process has left. In the user namespace hierarchy
      the topmost entries are user namespaces, which are always shown; the PID hierarchy is shown
      with all types. */
  ghost predicate AfterScan(v: View, procs: seq<(NamespaceID, int)>, root: NamespaceID) {
    && Ready(v) && procs != [] && Scanned(v.sys, v.pidns, procs, v.list, root)
    && (v.pidns ==> forall e :: e in v.list && e != INVIS ==> v.list[e].nsType in v.types)
  }

  lemma TopsAreFound(v: View, procs: seq<(NamespaceID, int)>, root: NamespaceID, e: NamespaceID)
    requires AfterScan(v, procs, root) && Top(v, e)
    ensures e in v.list <==> Found(v.sys, v.pidns, procs, e)
    ensures e in v.list ==> Shows(v, e)
  {
    TopsListed(v.sys, v.pidns, procs, v.list, e);
  }

  lemma FirstIsListed(v: View, procs: seq<(NamespaceID, int)>, root: NamespaceID)
    requires AfterScan(v, procs, root)
    ensures procs[0].0 in v.list
  {
    assert procs[0] in procs;
  }

  /** rootNS is a topmost entry if one was found; otherwise it is the special entry, which exists. */
  lemma RootIsListed(v: View, procs: seq<(NamespaceID, int)>, root: NamespaceID)
    requires AfterScan(v, procs, root)
    ensures root in v.list
    ensures (exists e :: Found(v.sys, v.pidns, procs, e)) ==> Top(v, root)
    ensures (forall e :: !Found(v.sys, v.pidns, procs, e)) ==> root == INVIS
  {
    if exists e :: Found(v.sys, v.pidns, procs, e) {
      var i: nat :| LastAt(v.sys, v.pidns, procs, root, i);
      TopsAreFound(v, procs, root, root);
    } else {
      FirstIsListed(v, procs, root);
      UnderSomeTop(v, procs[0].0);
      var r :| r in v.list && (r == INVIS || Top(v, r)) && Under(v, procs[0].0, r);
      if r != INVIS {
        TopsAreFound(v, procs, root, r);
      }
    }
  }

  /** The number of lines for each entry: two if no topmost namespace was found; otherwise one if it
      is below the last one found or below the special entry, and none if it is not. */
  lemma ScanLines(v: View, procs: seq<(NamespaceID, int)>, root: NamespaceID, e: NamespaceID)
    requires AfterScan(v, procs, root) && Shows(v, e)
    ensures root in v.list
    ensures Lines(Hierarchies(v, root), e) ==
      if forall t :: !Found(v.sys, v.pidns, procs, t) then 2
      else if Under(v, e, root) || (INVIS in v.list && Under(v, e, INVIS)) then 1 else 0
  {
    RootIsListed(v, procs, root);
    if forall t :: !Found(v.sys, v.pidns, procs, t) {
      HierarchiesTwice(v, e);
      UnderSomeTop(v, e);
      var r :| r in v.list && (r == INVIS || Top(v, r)) && Under(v, e, r);
      if r != INVIS {
        TopsAreFound(v, procs, root, r);
      }
    } else {
      HierarchiesLines(v, root, e);
    }
  }

  ghost predicate OneTop(sys: System, pidns: bool, procs: seq<(NamespaceID, int)>) {
    && (exists t :: Found(sys, pidns, procs, t))
    && forall a, b :: Found(sys, pidns, procs, a) && Found(sys, pidns, procs, b) ==> a == b
  }

  lemma OnceIfOneTop(v: View, procs: seq<(NamespaceID, int)>, root: NamespaceID, e: NamespaceID)
    requires AfterScan(v, procs, root) && OneTop(v.sys, v.pidns, procs) && Shows(v, e)
    ensures root in v.list && Lines(Hierarchies(v, root), e) == 1
  {
    RootIsListed(v, procs, root);
    ScanLines(v, procs, root, e);
    UnderSomeTop(v, e);
    var r :| r in v.list && (r == INVIS || Top(v, r)) && Under(v, e, r);
    TopsAreFound(v, procs, root, root);
    if r != INVIS {
      TopsAreFound(v, procs, root, r);
    }
  }

  /** An entry that is not displayed once. */
  lemma NotOnce(v: View, procs: seq<(NamespaceID, int)>, root: NamespaceID) returns (e: NamespaceID)
    requires AfterScan(v, procs, root) && !OneTop(v.sys, v.pidns, procs)
    ensures root in v.list && Shows(v, e) && Lines(Hierarchies(v, root), e) != 1
  {
    RootIsListed(v, procs, root);
    if forall t :: !Found(v.sys, v.pidns, procs, t) {
      e := INVIS;
      ScanLines(v, procs, root, e);
    } else {
      var a, b :| Found(v.sys, v.pidns, procs, a) && Found(v.sys, v.pidns, procs, b) && a != b;
      e := if a == root then b else a;
      TopsAreFound(v, procs, root, e);
      ScanLines(v, procs, root, e);
      TopIsAlone(v, e, root);
      if INVIS in v.list {
        TopIsAlone(v, e, INVIS);
      }
    }
  }

  lemma TopIsAlone(v: View, e: NamespaceID, r: NamespaceID)
    requires Ready(v) && e in v.list && Top(v, e) && r != e
    ensures !Under(v, e, r)
  {
  }

  /** After a scan every entry to be shown is displayed exactly once if and only if exactly one
      topmost namespace was found. Every line has the depth of its entry. */
  lemma DisplayedOnce(v: View, procs: seq<(NamespaceID, int)>, root: NamespaceID)
    requires AfterScan(v, procs, root)
    ensures root in v.list
    ensures (forall e :: Shows(v, e) ==> Lines(Hierarchies(v, root), e) == 1) <==> OneTop(v.sys, v.pidns, procs)
    ensures forall x :: x in Hierarchies(v, root) ==> x.0 in v.list && x.1 == v.depth[x.0]
  {
    RootIsListed(v, procs, root);
    HierarchiesLevels(v, root);
    if OneTop(v.sys, v.pidns, procs) {
      forall e | Shows(v, e) ensures Lines(Hierarchies(v, root), e) == 1 {
        OnceIfOneTop(v, procs, root, e);
      }
    } else {
      var e := NotOnce(v, procs, root);
    }
  }

  lemma LastOfTwo(sys: System, pidns: bool, a: NamespaceID, b: NamespaceID, root: NamespaceID)
    requires a != b && a in sys && b in sys && sys[a].parent == None && sys[b].parent == None
    requires IsTop(sys, pidns, a) && IsTop(sys, pidns, b) && FoundLast(sys, pidns, [(a, 1), (b, 2)], root)
    ensures root == b && Found(sys, pidns, [(a, 1), (b, 2)], a)
  {
    var procs := [(a, 1), (b, 2)];
    TopOfItself(sys, pidns, a, a);
    TopOfItself(sys, pidns, b, b);
    TopOfItself(sys, pidns, b, a);
    TopOfItself(sys, pidns, root, b);
    hide TopOf, IsTop;
    assert TopOf(sys, pidns, a, procs[0].0) && TopOf(sys, pidns, b, procs[1].0);
    assert Found(sys, pidns, procs, b);
    var i: nat :| LastAt(sys, pidns, procs, root, i);
    assert procs[..1] == [(a, 1)] && !Found(sys, pidns, procs[..1], b);
  }

  /** Two user namespaces whose parents cannot be seen, and a process in each: only the second is
      displayed. */
  lemma SecondTopHidesFirst(v: View, root: NamespaceID, a: NamespaceID, b: NamespaceID)
    requires a != b && a != INVIS && b != INVIS
    requires v.sys == map[a := Node(CLONE_NEWUSER, 0, None), b := Node(CLONE_NEWUSER, 0, None)]
    requires AfterScan(v, [(a, 1), (b, 2)], root)
    ensures root == b && root in v.list && Shows(v, a) && Lines(Hierarchies(v, root), a) == 0
  {
    var procs := [(a, 1), (b, 2)];
    assert Top(v, a) && Top(v, b);
    LastOfTwo(v.sys, v.pidns, a, b, root);
    hide LastAt, Scanned;
    TopsAreFound(v, procs, root, a);
    ScanLines(v, procs, root, a);
    TopIsAlone(v, a, b);
    if INVIS in v.list {
      TopIsAlone(v, a, INVIS);
    }
  }

  /** A namespace whose owner cannot be seen, and nothing else: displayed twice. */
  lemma NoTopShowsTwice(v: View, root: NamespaceID, a: NamespaceID, netns: int)
    requires a != INVIS && netns != CLONE_NEWUSER && !v.pidns && netns in v.types
    requires v.sys == map[a := Node(netns, 0, None)] && AfterScan(v, [(a, 1)], root)
    ensures root in v.list && Shows(v, a) && Lines(Hierarchies(v, root), a) == 2
  {
    var procs := [(a, 1)];
    FirstIsListed(v, procs, root);
    forall t ensures !Found(v.sys, v.pidns, procs, t) {
      TopOfItself(v.sys, v.pidns, t, a);
    }
    ScanLines(v, procs, root, a);
  }

  // ---------------------------------------------------------------------
  // Acyclic systems have depths
  // ---------------------------------------------------------------------

  /** Going up from any namespace comes to an end. */
  ghost predicate Acyclic(sys: System) {
    forall e :: e in sys ==> exists n: nat :: Up(sys, e, n) == None
  }

  ghost predicate IsHeight(sys: System, e: NamespaceID, h: nat) {
    Up(sys, e, h).Some? && Up(sys, e, h + 1) == None
  }

  lemma HeightUnique(sys: System, e: NamespaceID, h: nat, k: nat)
    requires IsHeight(sys, e, h) && IsHeight(sys, e, k)
    ensures h == k
  {
    if h < k {
      UpStaysNone(sys, e, h + 1, k);
    } else if k < h {
      UpStaysNone(sys, e, k + 1, h);
    }
  }

  lemma {:induction false} HeightExists(sys: System, e: NamespaceID, n: nat) returns (h: nat)
    requires Up(sys, e, n) == None
    ensures IsHeight(sys, e, h)
    decreases n
  {
    if Up(sys, e, n - 1) == None {
      h := HeightExists(sys, e, n - 1);
    } else {
      h := n - 1;
    }
  }

  ghost function Height(sys: System, e: NamespaceID): (h: nat)
    requires Acyclic(sys) && e in sys
    ensures IsHeight(sys, e, h)
  {
    assert exists k: nat :: IsHeight(sys, e, k) by {
      var n: nat :| Up(sys, e, n) == None;
      var k := HeightExists(sys, e, n);
    }
    var h: nat :| IsHeight(sys, e, h);
    h
  }

  lemma HeightOfParent(sys: System, e: NamespaceID)
    requires SystemOk(sys) && Acyclic(sys) && e in sys
    ensures sys[e].parent == None ==> Height(sys, e) == 0 && Up(sys, e, 0) == Some(e)
    ensures sys[e].parent.Some? ==>
              var p := sys[e].parent.value;
              Height(sys, e) == Height(sys, p) + 1 && Up(sys, e, Height(sys, e)) == Up(sys, p, Height(sys, p))
  {
    if sys[e].parent == None {
      assert IsHeight(sys, e, 0) by { assert Up(sys, e, 1) == None; }
      HeightUnique(sys, e, 0, Height(sys, e));
    } else {
      var p := sys[e].parent.value;
      assert Up(sys, e, Height(sys, p) + 1) == Up(sys, p, Height(sys, p));
      assert Up(sys, e, Height(sys, p) + 2) == Up(sys, p, Height(sys, p) + 1);
      assert IsHeight(sys, e, Height(sys, p) + 1);
      HeightUnique(sys, e, Height(sys, p) + 1, Height(sys, e));
    }
  }

  /** Steps up to the topmost entry, one more if that in turn goes below the special entry. */
  ghost function Depth(sys: System, pidns: bool, e: NamespaceID): nat
    requires Acyclic(sys)
  {
    if e !in sys then 0
    else Height(sys, e) + if IsTop(sys, pidns, Up(sys, e, Height(sys, e)).value) then 0 else 1
  }

  lemma {:induction false} Bounded(m: map<NamespaceID, nat>, keys: set<NamespaceID>) returns (bound: nat)
    requires keys <= m.Keys
    ensures forall e :: e in keys ==> m[e] <= bound
    decreases |keys|
  {
    if keys == {} {
      bound := 0;
    } else {
      var e :| e in keys;
      bound := Bounded(m, keys - {e});
      bound := if m[e] > bound then m[e] else bound;
    }
  }

  /** So for any acyclic system the finished map can be displayed. */
  lemma AcyclicIsReady(sys: System, pidns: bool, list: NamespaceList, types: set<int>) returns (v: View)
    requires SystemOk(sys) && Acyclic(sys) && Good(sys, pidns, list, {})
    ensures v == View(sys, pidns, list, types, v.depth, v.bound) && Ready(v)
  {
    var depth := map e | e in list :: Depth(sys, pidns, e);
    var bound := Bounded(depth, depth.Keys);
    v := View(sys, pidns, list, types, depth, bound);
    forall e | e in list
      ensures Parent(v, e).Some? ==> Parent(v, e).value in list && depth[e] == depth[Parent(v, e).value] + 1
      ensures Parent(v, e) == None ==> depth[e] == 0
    {
      if e in sys {
        HeightOfParent(sys, e);
      }
    }
  }

  /** main(): scan the processes, then display. For every acyclic system the display is complete and
      without repetition if and only if exactly one topmost namespace was found. */
  method Run(sys: System, pidns: bool, procs: seq<(NamespaceID, int)>, types: set<int>)
    returns (info: NamespaceInfo, ghost v: View)
    requires SystemOk(sys) && Acyclic(sys) && procs != [] && forall p :: p in procs ==> p.0 in sys
    requires pidns ==> forall e :: e in sys ==> sys[e].nsType in types
    ensures v.sys == sys && v.pidns == pidns && v.types == types && v.list == info.nsList
    ensures AfterScan(v, procs, info.rootNS) && info.rootNS in v.list
    ensures (forall e :: Shows(v, e) ==> Lines(Hierarchies(v, info.rootNS), e) == 1) <==> OneTop(sys, pidns, procs)
  {
    hide Acyclic, SystemOk, Recorded, FoundLast, Ready, OneTop, Hierarchies;
    info := new NamespaceInfo(sys, pidns);
    info.AddAll(procs);
    v := AcyclicIsReady(sys, pidns, info.nsList, types);
    DisplayedOnce(v, procs, info.rootNS);
  }
}

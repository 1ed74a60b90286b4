/** The order of the lines that namespaces_of.go displays: what lies below an entry follows it at
    once, siblings follow the order of the children list, and so the indentation can be read as
    the tree. */
module NamespaceOrder {
  import opened Wrappers
  import opened Namespaces
  import opened NamespaceDisplay

  // ---------------------------------------------------------------------
  // An order on entries, given by the parent relation and the children lists
  // ---------------------------------------------------------------------

  /** x is at or below child i of p, and y at or below child j. */
  ghost predicate Branch(v: View, p: NamespaceID, i: nat, j: nat, x: NamespaceID, y: NamespaceID)
    requires Ready(v) && x in v.list && y in v.list
  {
    && p in v.list && i < |v.list[p].children| && j < |v.list[p].children|
    && Under(v, x, v.list[p].children[i]) && Under(v, y, v.list[p].children[j])
  }

  /** Below the point where they part, x is in the branch that is listed first. */
  ghost predicate Before(v: View, x: NamespaceID, y: NamespaceID)
    requires Ready(v) && x in v.list && y in v.list
  {
    exists p, i: nat, j: nat :: i < j && Branch(v, p, i, j, x, y)
  }

  /** y is strictly below x, or in a later branch. */
  ghost predicate Precedes(v: View, x: NamespaceID, y: NamespaceID)
    requires Ready(v) && x in v.list && y in v.list
  {
    (x != y && Under(v, y, x)) || Before(v, x, y)
  }

  lemma {:induction false} UnderTransitive(v: View, x: NamespaceID, y: NamespaceID, z: NamespaceID)
    requires Ready(v) && x in v.list && y in v.list && Under(v, x, y) && Under(v, y, z)
    ensures Under(v, x, z)
    decreases v.depth[x]
  {
    hide Good;
    if x != y {
      UnderTransitive(v, Parent(v, x).value, y, z);
    }
  }

  /** Of two ancestors of an entry the deeper one is below the other. */
  lemma {:induction false} OneLineUp(v: View, e: NamespaceID, a: NamespaceID, b: NamespaceID)
    requires Ready(v) && e in v.list && a in v.list && b in v.list
    requires Under(v, e, a) && Under(v, e, b) && v.depth[a] >= v.depth[b]
    ensures Under(v, a, b)
    decreases v.depth[e]
  {
    hide Good;
    if e != a {
      UnderDeeper(v, Parent(v, e).value, a);
      OneLineUp(v, Parent(v, e).value, a, b);
    }
  }

  lemma UnderBoth(v: View, x: NamespaceID, y: NamespaceID)
    requires Ready(v) && x in v.list && y in v.list && Under(v, x, y) && Under(v, y, x)
    ensures x == y
  {
    hide Good;
    UnderDeeper(v, x, y);
    UnderDeeper(v, y, x);
    UnderUnique(v, x, x, y);
  }

  /** An entry is in one branch only. */
  lemma OneBranch(v: View, p: NamespaceID, i: nat, j: nat, e: NamespaceID)
    requires Ready(v) && e in v.list && Branch(v, p, i, j, e, e)
    ensures i == j
  {
    OnceEach(v, p);
    ChildrenOk(v, p);
    hide Good;
    var cs := v.list[p].children;
    UnderUnique(v, e, cs[i], cs[j]);
    if i != j {
      NoTwice(cs, i, j);
    }
  }

  lemma NoTwice(cs: seq<NamespaceID>, i: nat, j: nat)
    requires i < |cs| && j < |cs| && i != j && cs[i] == cs[j]
    ensures multiset(cs)[cs[i]] >= 2
  {
    var a, b := if i < j then i else j, if i < j then j else i;
    assert cs == cs[..a] + [cs[a]] + cs[a + 1..b] + [cs[b]] + cs[b + 1..];
  }

  lemma ChildFacts(v: View, p: NamespaceID, i: nat)
    requires Ready(v) && p in v.list && i < |v.list[p].children|
    ensures var c := v.list[p].children[i]; c in v.list && Under(v, c, p) && v.depth[c] == v.depth[p] + 1
  {
    ChildrenOk(v, p);
    hide Good;
    assert v.list[p].children[i] in v.list[p].children;
    assert Under(v, p, p);
  }

  lemma BeforeNotUnder(v: View, x: NamespaceID, y: NamespaceID)
    requires Ready(v) && x in v.list && y in v.list && Before(v, x, y)
    ensures !Under(v, x, y) && !Under(v, y, x)
  {
    hide Good;
    var p, i: nat, j: nat :| i < j && Branch(v, p, i, j, x, y);
    hide Before;
    var cs := v.list[p].children;
    ChildFacts(v, p, i);
    ChildFacts(v, p, j);
    if Under(v, x, y) {
      UnderTransitive(v, x, y, cs[j]);
      OneBranch(v, p, i, j, x);
    }
    if Under(v, y, x) {
      UnderTransitive(v, y, x, cs[i]);
      OneBranch(v, p, i, j, y);
    }
  }

  /** Two entries do not part once more, the other way round: the second point would be the first,
      or inside one of its branches, or the first inside one of the branches of the second. */
  lemma PartOnce(v: View, p: NamespaceID, i: nat, j: nat, q: NamespaceID, a: nat, b: nat, y: NamespaceID, z: NamespaceID)
    requires Ready(v) && y in v.list && z in v.list && i < j && a < b && Branch(v, p, i, j, z, y)
    ensures !Branch(v, q, a, b, y, z)
  {
    hide Good;
    if Branch(v, q, a, b, y, z) {
      Ancestors(v, p, i, j, z, y);
      Ancestors(v, q, a, b, y, z);
      var cs, ds := v.list[p].children, v.list[q].children;
      if v.depth[p] == v.depth[q] {
        UnderUnique(v, y, p, q);
        OneBranch(v, p, j, a, y);
        OneBranch(v, p, i, b, z);
      } else if v.depth[p] < v.depth[q] {
        Deeper(v, q, y, z, cs[j]);
        OneBranch(v, p, i, j, z);
      } else {
        Deeper(v, p, y, z, ds[a]);
        OneBranch(v, q, a, b, z);
      }
    }
  }

  lemma Ancestors(v: View, p: NamespaceID, i: nat, j: nat, x: NamespaceID, y: NamespaceID)
    requires Ready(v) && x in v.list && y in v.list && Branch(v, p, i, j, x, y)
    ensures Under(v, x, p) && Under(v, y, p)
    ensures v.list[p].children[i] in v.list && v.depth[v.list[p].children[i]] == v.depth[p] + 1
    ensures v.list[p].children[j] in v.list && v.depth[v.list[p].children[j]] == v.depth[p] + 1
  {
    hide Good;
    ChildFacts(v, p, i);
    ChildFacts(v, p, j);
    UnderTransitive(v, x, v.list[p].children[i], p);
    UnderTransitive(v, y, v.list[p].children[j], p);
  }

  /** If q is above y and z, and c above y but not deeper than q, then c is above z. */
  lemma Deeper(v: View, q: NamespaceID, y: NamespaceID, z: NamespaceID, c: NamespaceID)
    requires Ready(v) && q in v.list && y in v.list && z in v.list && c in v.list
    requires Under(v, y, q) && Under(v, z, q) && Under(v, y, c) && v.depth[q] >= v.depth[c]
    ensures Under(v, z, c)
  {
    hide Good;
    OneLineUp(v, y, q, c);
    UnderTransitive(v, z, q, c);
  }

  /** What stands between an entry and something below it is below it too. */
  lemma BetweenIsUnder(v: View, x: NamespaceID, y: NamespaceID, z: NamespaceID)
    requires Ready(v) && x in v.list && y in v.list && z in v.list
    requires Precedes(v, x, y) && Precedes(v, y, z) && Under(v, z, x)
    ensures Under(v, y, x)
  {
    hide Good;
    if !Under(v, y, x) {
      var p, i: nat, j: nat :| i < j && Branch(v, p, i, j, x, y);
      ChildFacts(v, p, i);
      UnderTransitive(v, z, x, v.list[p].children[i]);
      assert Branch(v, p, i, j, z, y);
      if Under(v, z, y) {
        assert Before(v, z, y);
        BeforeNotUnder(v, z, y);
      } else {
        var q, a: nat, b: nat :| a < b && Branch(v, q, a, b, y, z);
        PartOnce(v, p, i, j, q, a, b, y, z);
      }
    }
  }

  lemma PrecedesIrreflexive(v: View, x: NamespaceID)
    requires Ready(v) && x in v.list
    ensures !Precedes(v, x, x)
  {
    hide Good;
    if Before(v, x, x) {
      assert Under(v, x, x);
      BeforeNotUnder(v, x, x);
    }
  }

  lemma PrecedesAsymmetric(v: View, x: NamespaceID, y: NamespaceID)
    requires Ready(v) && x in v.list && y in v.list && Precedes(v, x, y)
    ensures !Precedes(v, y, x)
  {
    hide Good;
    if Precedes(v, y, x) {
      assert Under(v, x, x) && Under(v, y, y);
      BetweenIsUnder(v, x, y, x);
      BetweenIsUnder(v, y, x, y);
      UnderBoth(v, x, y);
      PrecedesIrreflexive(v, x);
    }
  }

  // ---------------------------------------------------------------------
  // The lines come in that order
  // ---------------------------------------------------------------------

  ghost predicate Ordered(v: View, out: seq<(NamespaceID, nat)>)
    requires Ready(v)
  {
    && (forall i :: 0 <= i < |out| ==> out[i].0 in v.list)
    && (forall i, j :: 0 <= i < j < |out| ==> Precedes(v, out[i].0, out[j].0))
  }

  ghost predicate AllUnder(v: View, out: seq<(NamespaceID, nat)>, ns: NamespaceID)
    requires Ready(v)
  {
    forall i :: 0 <= i < |out| ==> out[i].0 in v.list && Under(v, out[i].0, ns)
  }

  /** Every line is at or below one of the children from k on. */
  ghost predicate FromChild(v: View, out: seq<(NamespaceID, nat)>, ns: NamespaceID, k: nat)
    requires Ready(v) && ns in v.list
  {
    forall i :: 0 <= i < |out| ==> out[i].0 in v.list && UnderChildFrom(v, out[i].0, ns, k)
  }

  ghost predicate UnderChildFrom(v: View, e: NamespaceID, ns: NamespaceID, k: nat)
    requires Ready(v) && ns in v.list && e in v.list
  {
    exists m: nat :: k <= m < |v.list[ns].children| && Under(v, e, v.list[ns].children[m])
  }

  lemma ChildrenFrom(v: View, ns: NamespaceID, k: nat)
    requires Ready(v) && ns in v.list && k <= |v.list[ns].children|
    ensures forall c :: c in v.list[ns].children[k..] ==> c in v.list && Parent(v, c) == Some(ns)
  {
    ChildrenOk(v, ns);
    hide Good;
    assert forall c :: c in v.list[ns].children[k..] ==> c in v.list[ns].children;
  }

  lemma FromFirst(v: View, out: seq<(NamespaceID, nat)>, ns: NamespaceID, k: nat)
    requires Ready(v) && ns in v.list && k < |v.list[ns].children| && AllUnder(v, out, v.list[ns].children[k])
    ensures FromChild(v, out, ns, k)
  {
    hide Good, Ready, Under;
  }

  lemma FromRest(v: View, xs: seq<(NamespaceID, nat)>, ys: seq<(NamespaceID, nat)>, ns: NamespaceID, k: nat)
    requires Ready(v) && ns in v.list && FromChild(v, xs, ns, k) && FromChild(v, ys, ns, k + 1)
    ensures FromChild(v, xs + ys, ns, k)
  {
    hide Good, Ready, Under;
    forall i | 0 <= i < |ys| ensures UnderChildFrom(v, ys[i].0, ns, k) {
      assert UnderChildFrom(v, ys[i].0, ns, k + 1);
    }
    hide UnderChildFrom;
  }

  /** Joining the lines of one branch and those of later ones. */
  lemma JoinOrdered(v: View, xs: seq<(NamespaceID, nat)>, ys: seq<(NamespaceID, nat)>, ns: NamespaceID, k: nat)
    requires Ready(v) && ns in v.list && k < |v.list[ns].children|
    requires Ordered(v, xs) && Ordered(v, ys)
    requires AllUnder(v, xs, v.list[ns].children[k]) && FromChild(v, ys, ns, k + 1)
    ensures Ordered(v, xs + ys)
  {
    hide Good, Ready, Under;
    forall i, j | 0 <= i < |xs| && 0 <= j < |ys| ensures Precedes(v, xs[i].0, ys[j].0) {
      assert UnderChildFrom(v, ys[j].0, ns, k + 1);
      var m: nat :| k + 1 <= m < |v.list[ns].children| && Under(v, ys[j].0, v.list[ns].children[m]);
      assert Branch(v, ns, k, m, xs[i].0, ys[j].0);
    }
    hide Precedes;
  }

  lemma HeadOrdered(v: View, ys: seq<(NamespaceID, nat)>, ns: NamespaceID, level: nat)
    requires Ready(v) && ns in v.list && Ordered(v, ys) && FromChild(v, ys, ns, 0)
    ensures Ordered(v, [(ns, level)] + ys) && AllUnder(v, [(ns, level)] + ys, ns) && AllUnder(v, ys, ns)
  {
    hide Good;
    forall j | 0 <= j < |ys| ensures Under(v, ys[j].0, ns) && Precedes(v, ns, ys[j].0) {
      assert UnderChildFrom(v, ys[j].0, ns, 0);
      var m: nat :| 0 <= m < |v.list[ns].children| && Under(v, ys[j].0, v.list[ns].children[m]);
      ChildrenOk(v, ns);
      ChildFacts(v, ns, m);
      UnderTransitive(v, ys[j].0, v.list[ns].children[m], ns);
      NotUnderChild(v, ns, v.list[ns].children[m]);
    }
    hide Ready, Under, Precedes, FromChild;
    assert Under(v, ns, ns) by { UnderSelf(v, ns); }
  }

  lemma UnderSelf(v: View, ns: NamespaceID)
    requires Ready(v) && ns in v.list
    ensures Under(v, ns, ns)
  {
    hide Good;
  }

  lemma {:induction false} TreeOrdered(v: View, ns: NamespaceID, level: nat)
    requires Ready(v) && ns in v.list
    ensures Ordered(v, Tree(v, ns, level)) && AllUnder(v, Tree(v, ns, level), ns)
    decreases v.bound - v.depth[ns], 1, 0
  {
    hide Good, Under, Ordered, AllUnder, FromChild;
    var cs := v.list[ns].children;
    assert cs[0..] == cs;
    ChildrenFrom(v, ns, 0);
    TreesOrdered(v, ns, 0, level + 1);
    HeadOrdered(v, Trees(v, ns, cs, level + 1), ns, level);
    hide Ready;
    assert [] + Trees(v, ns, cs, level + 1) == Trees(v, ns, cs, level + 1);
  }

  lemma {:induction false} TreesOrdered(v: View, ns: NamespaceID, k: nat, level: nat)
    requires Ready(v) && ns in v.list && k <= |v.list[ns].children|
    requires forall c :: c in v.list[ns].children[k..] ==> c in v.list && Parent(v, c) == Some(ns)
    ensures Ordered(v, Trees(v, ns, v.list[ns].children[k..], level))
    ensures FromChild(v, Trees(v, ns, v.list[ns].children[k..], level), ns, k)
    decreases v.bound - v.depth[ns], 0, |v.list[ns].children| - k
  {
    hide Good, Under;
    var cs := v.list[ns].children[k..];
    if k < |v.list[ns].children| {
      var rest := v.list[ns].children[k + 1..];
      assert cs[0] == v.list[ns].children[k] && cs[1..] == rest;
      ChildrenFrom(v, ns, k + 1);
      TreeOrdered(v, cs[0], level);
      TreesOrdered(v, ns, k + 1, level);
      hide Ordered, AllUnder, FromChild;
      JoinOrdered(v, Tree(v, cs[0], level), Trees(v, ns, rest, level), ns, k);
      FromFirst(v, Tree(v, cs[0], level), ns, k);
      FromRest(v, Tree(v, cs[0], level), Trees(v, ns, rest, level), ns, k);
    }
  }

  /** One line stands before another if and only if its entry precedes the other. */
  lemma LinesInOrder(v: View, ns: NamespaceID, level: nat, i: nat, j: nat)
    requires Ready(v) && ns in v.list && i < |Tree(v, ns, level)| && j < |Tree(v, ns, level)|
    ensures var out := Tree(v, ns, level);
            && out[i].0 in v.list && out[j].0 in v.list
            && (i < j <==> Precedes(v, out[i].0, out[j].0))
  {
    var out := Tree(v, ns, level);
    TreeOrdered(v, ns, level);
    InOrder(v, out, i, j);
  }

  lemma InOrder(v: View, out: seq<(NamespaceID, nat)>, i: nat, j: nat)
    requires Ready(v) && Ordered(v, out) && i < |out| && j < |out|
    ensures i < j <==> Precedes(v, out[i].0, out[j].0)
  {
    hide Good, Ready, Under, Precedes;
    PrecedesIrreflexive(v, out[i].0);
    if j < i {
      PrecedesAsymmetric(v, out[j].0, out[i].0);
    }
  }

  ghost predicate SiblingsAt(v: View, p: NamespaceID, a: nat, b: nat, x: NamespaceID, y: NamespaceID) {
    p in v.list && a < b < |v.list[p].children| && v.list[p].children[a] == x && v.list[p].children[b] == y
  }

  /** x and y are children of one entry, x listed before y. */
  ghost predicate Siblings(v: View, x: NamespaceID, y: NamespaceID) {
    exists p, a: nat, b: nat :: SiblingsAt(v, p, a, b, x, y)
  }

  /** An entry comes after its parent, and siblings come in the order of the children list. */
  lemma FamilyInOrder(v: View, ns: NamespaceID, level: nat, i: nat, j: nat)
    requires Ready(v) && ns in v.list && i < |Tree(v, ns, level)| && j < |Tree(v, ns, level)|
    ensures var out := Tree(v, ns, level);
            && out[i].0 in v.list && out[j].0 in v.list
            && (Parent(v, out[j].0) == Some(out[i].0) ==> i < j)
            && (Siblings(v, out[i].0, out[j].0) ==> i < j)
  {
    LinesInOrder(v, ns, level, i, j);
    hide Good;
    var x, y := Tree(v, ns, level)[i].0, Tree(v, ns, level)[j].0;
    UnderSelf(v, x);
    UnderSelf(v, y);
    assert Parent(v, y) == Some(x) ==> x != y && Under(v, y, x);
    if Siblings(v, x, y) {
      var p, a: nat, b: nat :| SiblingsAt(v, p, a, b, x, y);
      assert Branch(v, p, a, b, x, y);
    }
  }

  /** The lines between an entry and one below it are all below it. */
  lemma LinesBetween(v: View, ns: NamespaceID, level: nat, i: nat, k: nat, j: nat)
    requires Ready(v) && ns in v.list && i <= k <= j < |Tree(v, ns, level)|
    ensures var out := Tree(v, ns, level);
            && out[i].0 in v.list && out[k].0 in v.list && out[j].0 in v.list
            && (Under(v, out[j].0, out[i].0) ==> Under(v, out[k].0, out[i].0))
  {
    TreeOrdered(v, ns, level);
    Between(v, Tree(v, ns, level), i, k, j);
  }

  lemma Between(v: View, out: seq<(NamespaceID, nat)>, i: nat, k: nat, j: nat)
    requires Ready(v) && Ordered(v, out) && i <= k <= j < |out|
    ensures Under(v, out[j].0, out[i].0) ==> Under(v, out[k].0, out[i].0)
  {
    hide Good, Ready, Under, Precedes;
    UnderSelf(v, out[i].0);
    if i < k < j && Under(v, out[j].0, out[i].0) {
      BetweenIsUnder(v, out[i].0, out[k].0, out[j].0);
    }
  }

  // ---------------------------------------------------------------------
  // Reading the tree off the indentation
  // ---------------------------------------------------------------------

  /** Nothing is shown below an entry that is not. */
  ghost predicate ParentsShown(v: View)
    requires Ready(v)
  {
    forall e :: e in v.list && Shows(v, e) && Parent(v, e).Some? ==> Shows(v, Parent(v, e).value)
  }

  ghost predicate OwnersAreUsers(sys: System) {
    forall e :: e in sys && sys[e].parent.Some? && sys[e].parent.value in sys ==>
      sys[sys[e].parent.value].nsType == CLONE_NEWUSER
  }

  /** That is so if owners are user namespaces, as they are for the kernel, and in the PID hierarchy
      if all its types are shown. */
  lemma ParentsAreShown(v: View)
    requires Ready(v)
    requires !v.pidns ==> OwnersAreUsers(v.sys)
    requires v.pidns ==> forall e :: e in v.list && e != INVIS ==> v.list[e].nsType in v.types
    ensures ParentsShown(v)
  {
    forall e | e in v.list && Parent(v, e).Some? ensures Shows(v, Parent(v, e).value) {
      assert EntryOk(v.sys, Parent(v, e).value, v.list[Parent(v, e).value]);
    }
  }

  lemma {:induction false} HasLine(out: seq<(NamespaceID, nat)>, e: NamespaceID) returns (q: nat)
    requires Lines(out, e) > 0
    ensures q < |out| && out[q].0 == e
  {
    if out[0].0 == e {
      q := 0;
    } else {
      q := HasLine(out[1..], e);
      q := q + 1;
    }
  }

  /** Levels are depths, up to a constant, and every line but those of ns has one for its parent. */
  ghost predicate Indented(v: View, out: seq<(NamespaceID, nat)>, ns: NamespaceID, d: int)
    requires Ready(v)
  {
    forall k :: 0 <= k < |out| ==>
      && out[k].0 in v.list && out[k].1 == v.depth[out[k].0] + d
      && (out[k].0 == ns || (Parent(v, out[k].0).Some? && Listed(out, Parent(v, out[k].0).value)))
  }

  ghost predicate Listed(out: seq<(NamespaceID, nat)>, e: NamespaceID) {
    exists q: nat :: q < |out| && out[q].0 == e
  }

  lemma TreeIndented(v: View, ns: NamespaceID, level: nat)
    requires Ready(v) && ns in v.list && ParentsShown(v)
    ensures Indented(v, Tree(v, ns, level), ns, level - v.depth[ns])
  {
    hide Good;
    var out := Tree(v, ns, level);
    TreeLevels(v, ns, level);
    TreeOrdered(v, ns, level);
    forall k | 0 <= k < |out|
      ensures out[k].0 in v.list && out[k].1 == v.depth[out[k].0] + level - v.depth[ns]
      ensures out[k].0 == ns || (Parent(v, out[k].0).Some? && Listed(out, Parent(v, out[k].0).value))
    {
      assert out[k] in out;
      var e := out[k].0;
      if e != ns {
        assert Shows(v, e) by { OnlyShown(v, ns, level, k); }
        var p := Parent(v, e).value;
        TreeLines(v, ns, level, p);
        var q := HasLine(out, p);
      }
    }
  }

  lemma {:induction false} LinesOf(out: seq<(NamespaceID, nat)>, k: nat)
    requires k < |out|
    ensures Lines(out, out[k].0) > 0
  {
    if k > 0 {
      LinesOf(out[1..], k - 1);
    }
  }

  lemma OnlyShown(v: View, ns: NamespaceID, level: nat, k: nat)
    requires Ready(v) && ns in v.list && k < |Tree(v, ns, level)|
    ensures Shows(v, Tree(v, ns, level)[k].0)
  {
    hide Good;
    var out := Tree(v, ns, level);
    TreeLevels(v, ns, level);
    assert out[k] in out;
    LinesOf(out, k);
    TreeLines(v, ns, level, out[k].0);
  }

  /** The lines after i up to j are indented further than line i. */
  ghost predicate FurtherIn(out: seq<(NamespaceID, nat)>, i: nat, j: nat)
    requires i < j < |out|
  {
    forall k :: i < k <= j ==> out[k].1 > out[i].1
  }

  lemma FurtherInJoined(t: seq<(NamespaceID, nat)>, u: seq<(NamespaceID, nat)>, i: nat, j: nat)
    requires i < j < |t + u|
    ensures j < |t| ==> (FurtherIn(t + u, i, j) <==> FurtherIn(t, i, j))
    ensures i >= |t| ==> (FurtherIn(t + u, i, j) <==> FurtherIn(u, i - |t|, j - |t|))
    ensures i < |t| <= j && u[0].1 == 0 ==> !FurtherIn(t + u, i, j)
  {
    var out := t + u;
    if j < |t| {
      assert forall k :: i < k <= j ==> out[k] == t[k];
    } else if i >= |t| {
      assert forall k :: i < k <= j ==> out[k] == u[k - |t|];
      assert forall k :: i - |t| < k <= j - |t| ==> u[k] == out[k + |t|];
    } else {
      assert out[|t|] == u[0];
    }
  }

  /** Lines that are all indented further than an earlier one are below it. */
  lemma {:induction false} IndentedIsUnder(v: View, out: seq<(NamespaceID, nat)>, ns: NamespaceID, d: int, i: nat, j: nat)
    requires Ready(v) && ns in v.list && Ordered(v, out) && AllUnder(v, out, ns) && Indented(v, out, ns, d)
    requires i < j < |out| && FurtherIn(out, i, j)
    ensures Under(v, out[j].0, out[i].0)
    decreases j
  {
    hide Good, Ordered;
    var x, y := out[i].0, out[j].0;
    UnderDeeper(v, x, ns);
    assert y != ns;
    var p := Parent(v, y).value;
    assert Listed(out, p);
    var q: nat :| q < |out| && out[q].0 == p;
    assert Under(v, y, p) by { UnderSelf(v, p); }
    ParentEarlier(v, out, q, j);
    if q > i {
      IndentedIsUnder(v, out, ns, d, i, q);
      UnderTransitive(v, y, p, x);
    } else {
      Between(v, out, q, i, j);
      UnderSelf(v, x);
      UnderDeeper(v, x, p);
      UnderUnique(v, x, x, p);
    }
  }

  lemma ParentEarlier(v: View, out: seq<(NamespaceID, nat)>, q: nat, j: nat)
    requires Ready(v) && Ordered(v, out) && q < |out| && j < |out| && Parent(v, out[j].0) == Some(out[q].0)
    ensures q < j
  {
    InOrder(v, out, q, j);
    hide Good, Ordered;
    UnderSelf(v, out[q].0);
  }

  lemma UnderIsIndented(v: View, out: seq<(NamespaceID, nat)>, ns: NamespaceID, d: int, i: nat, j: nat, k: nat)
    requires Ready(v) && ns in v.list && Ordered(v, out) && Indented(v, out, ns, d)
    requires i < k <= j < |out| && Under(v, out[j].0, out[i].0)
    ensures out[k].1 > out[i].1
  {
    Between(v, out, i, k, j);
    InOrder(v, out, i, k);
    hide Good, Ordered;
    var x, z := out[i].0, out[k].0;
    PrecedesIrreflexive(v, x);
    UnderDeeper(v, z, x);
    if v.depth[z] == v.depth[x] {
      UnderSelf(v, z);
      UnderUnique(v, z, z, x);
    }
  }

  lemma AllFurtherIn(v: View, out: seq<(NamespaceID, nat)>, ns: NamespaceID, d: int, i: nat, j: nat)
    requires Ready(v) && ns in v.list && Ordered(v, out) && Indented(v, out, ns, d)
    requires i < j < |out| && out[i].0 in v.list && out[j].0 in v.list && Under(v, out[j].0, out[i].0)
    ensures FurtherIn(out, i, j)
  {
    hide Good, Ready, Under, Ordered, Indented;
    forall k | i < k <= j ensures out[k].1 > out[i].1 {
      UnderIsIndented(v, out, ns, d, i, j, k);
    }
  }

  lemma FurtherInIff(v: View, out: seq<(NamespaceID, nat)>, ns: NamespaceID, d: int, i: nat, j: nat)
    requires Ready(v) && ns in v.list && Ordered(v, out) && AllUnder(v, out, ns) && Indented(v, out, ns, d)
    requires i < j < |out|
    ensures out[i].0 in v.list && out[j].0 in v.list
    ensures Under(v, out[j].0, out[i].0) <==> FurtherIn(out, i, j)
  {
    hide Good, Ready, Under, Ordered, Indented, FurtherIn;
    if Under(v, out[j].0, out[i].0) {
      AllFurtherIn(v, out, ns, d, i, j);
    } else if FurtherIn(out, i, j) {
      IndentedIsUnder(v, out, ns, d, i, j);
    }
  }

  /** One line is below an earlier one if and only if it and all between are indented further. */
  lemma ReadAsTree(v: View, ns: NamespaceID, level: nat, i: nat, j: nat)
    requires Ready(v) && ns in v.list && ParentsShown(v) && i < j < |Tree(v, ns, level)|
    ensures var out := Tree(v, ns, level);
            && out[i].0 in v.list && out[j].0 in v.list
            && (Under(v, out[j].0, out[i].0) <==> FurtherIn(out, i, j))
  {
    hide Good, Under, Ordered, AllUnder, Indented, FurtherIn, ParentsShown, Tree;
    TreeOrdered(v, ns, level);
    TreeIndented(v, ns, level);
    FurtherInIff(v, Tree(v, ns, level), ns, level - v.depth[ns], i, j);
  }

  // ---------------------------------------------------------------------
  // The whole display
  // ---------------------------------------------------------------------

  lemma NotBoth(v: View, root: NamespaceID, e: NamespaceID)
    requires Ready(v) && root in v.list && Top(v, root) && INVIS in v.list && e in v.list
    ensures v.depth[root] == 0 && !(Under(v, e, root) && Under(v, e, INVIS))
  {
    hide Good;
    if Under(v, e, root) && Under(v, e, INVIS) {
      UnderUnique(v, e, root, INVIS);
    }
  }

  /** The lines of the root come first, then those of the special entry, each in order. */
  lemma HierarchiesInOrder(v: View, root: NamespaceID, i: nat, j: nat)
    requires Ready(v) && root in v.list && Top(v, root)
    requires i < |Hierarchies(v, root)| && j < |Hierarchies(v, root)|
    ensures var out := Hierarchies(v, root);
            && out[i].0 in v.list && out[j].0 in v.list
            && (i < j <==> Precedes(v, out[i].0, out[j].0) ||
                           (INVIS in v.list && Under(v, out[i].0, root) && Under(v, out[j].0, INVIS)))
  {
    var t := Tree(v, root, 0);
    TreeOrdered(v, root, 0);
    if INVIS !in v.list {
      assert t + [] == t;
      InOrder(v, t, i, j);
    } else {
      var u := Tree(v, INVIS, 0);
      TreeOrdered(v, INVIS, 0);
      TwoTrees(v, root, t, u, i, j);
    }
  }

  lemma TwoTrees(v: View, root: NamespaceID, t: seq<(NamespaceID, nat)>, u: seq<(NamespaceID, nat)>, i: nat, j: nat)
    requires Ready(v) && root in v.list && Top(v, root) && INVIS in v.list && i < |t + u| && j < |t + u|
    requires Ordered(v, t) && AllUnder(v, t, root) && Ordered(v, u) && AllUnder(v, u, INVIS)
    ensures var out := t + u;
            && out[i].0 in v.list && out[j].0 in v.list
            && (i < j <==> Precedes(v, out[i].0, out[j].0) || (Under(v, out[i].0, root) && Under(v, out[j].0, INVIS)))
  {
    hide Good, Ready, Under, Precedes, Ordered, Top;
    var x, y := (t + u)[i].0, (t + u)[j].0;
    NotBoth(v, root, x);
    NotBoth(v, root, y);
    if i < |t| && j < |t| {
      InOrder(v, t, i, j);
    } else if i >= |t| && j >= |t| {
      InOrder(v, u, i - |t|, j - |t|);
    } else if j < |t| {
      if Precedes(v, x, y) {
        SameTop(v, x, y, root);
      }
    }
  }

  /** If one entry precedes another, both have the same topmost entry above them. */
  lemma SameTop(v: View, x: NamespaceID, y: NamespaceID, r: NamespaceID)
    requires Ready(v) && x in v.list && y in v.list && Precedes(v, x, y) && r in v.list && v.depth[r] == 0
    ensures Under(v, x, r) <==> Under(v, y, r)
  {
    hide Good;
    if Under(v, y, x) {
      UnderSelf(v, x);
      SharedTop(v, x, x, y, r);
    } else {
      var p, i: nat, j: nat :| i < j && Branch(v, p, i, j, x, y);
      Ancestors(v, p, i, j, x, y);
      SharedTop(v, p, x, y, r);
    }
  }

  lemma SharedTop(v: View, a: NamespaceID, x: NamespaceID, y: NamespaceID, r: NamespaceID)
    requires Ready(v) && a in v.list && x in v.list && y in v.list && r in v.list && v.depth[r] == 0
    requires Under(v, x, a) && Under(v, y, a)
    ensures Under(v, x, r) <==> Under(v, y, r)
  {
    hide Good;
    if Under(v, x, r) {
      Deeper(v, a, x, y, r);
    }
    if Under(v, y, r) {
      Deeper(v, a, y, x, r);
    }
  }

  lemma SpecialFirst(v: View)
    requires Ready(v) && INVIS in v.list
    ensures |Tree(v, INVIS, 0)| > 0 && Tree(v, INVIS, 0)[0] == (INVIS, 0)
  {
    assert EntryOk(v.sys, INVIS, v.list[INVIS]);
  }

  /** So the whole display can be read as a tree: below an earlier line is what is indented further,
      together with all between. */
  lemma DisplayReadAsTree(v: View, root: NamespaceID, i: nat, j: nat)
    requires Ready(v) && root in v.list && Top(v, root) && ParentsShown(v) && i < j < |Hierarchies(v, root)|
    ensures var out := Hierarchies(v, root);
            && out[i].0 in v.list && out[j].0 in v.list
            && (Under(v, out[j].0, out[i].0) <==> FurtherIn(out, i, j))
  {
    var t := Tree(v, root, 0);
    var out := Hierarchies(v, root);
    if INVIS !in v.list {
      assert out == t;
      ReadAsTree(v, root, 0, i, j);
    } else {
      var u := Tree(v, INVIS, 0);
      assert out == t + u;
      hide Good, Ready, Under, Hierarchies, Tree, ParentsShown, FurtherIn;
      FurtherInJoined(t, u, i, j);
      if j < |t| {
        ReadAsTree(v, root, 0, i, j);
      } else if i >= |t| {
        ReadAsTree(v, INVIS, 0, i - |t|, j - |t|);
      } else {
        SpecialFirst(v);
        Apart(v, root, t, u, i, j - |t|);
      }
    }
  }

  lemma Apart(v: View, root: NamespaceID, t: seq<(NamespaceID, nat)>, u: seq<(NamespaceID, nat)>, i: nat, j: nat)
    requires Ready(v) && root in v.list && Top(v, root) && INVIS in v.list && i < |t| && j < |u|
    requires t == Tree(v, root, 0) && u == Tree(v, INVIS, 0)
    ensures t[i].0 in v.list && u[j].0 in v.list && !Under(v, u[j].0, t[i].0)
  {
    TreeOrdered(v, root, 0);
    TreeOrdered(v, INVIS, 0);
    hide Good, Ready, Tree, Ordered, Under;
    NotBoth(v, root, u[j].0);
    if Under(v, u[j].0, t[i].0) {
      UnderTransitive(v, u[j].0, t[i].0, root);
    }
  }
}

/** The update half of acl_update.c: findEntry(), setPerms() and the loop of main() that applies the
    parsed entries to a file's access control list, over a list model of libacl. */
module AclUpdate {
  import opened Wrappers
  import opened AclText

  /** What identifies an entry: the qualifier counts for named users and groups only. */
  datatype Key = Key(tag: Tag, qual: nat)

  const MASK := Key(Mask, 0)

  function KeyOf(tag: Tag, qual: nat): Key {
    Key(tag, if tag == User || tag == Group then qual else 0)
  }

  /** Two entries have the same key if they have the same tag and, for named users and groups, the
      same qualifier. */
  lemma KeyIff(t: Tag, q: nat, t': Tag, q': nat)
    ensures KeyOf(t, q) == KeyOf(t', q') <==> t == t' && (t == User || t == Group ==> q == q')
  {
  }

  function AceKey(a: Ace): Key {
    KeyOf(a.tag, a.qual)
  }

  // ---------------------------------------------------------------------
  // Access control lists as maps
  // ---------------------------------------------------------------------

  type View = map<Key, Perms>

  /** The entries whose permissions the mask limits. */
  predicate GroupClass(k: Key) {
    k.tag == User || k.tag == GroupObj || k.tag == Group
  }

  function Or(p: Perms, q: Perms): Perms {
    Perms(p.read || q.read, p.write || q.write, p.execute || q.execute)
  }

  /** p grants exactly what some entry for a named user, the group or a named group grants. */
  ghost predicate IsUnion(m: View, p: Perms) {
    && (p.read <==> exists k :: k in m && k.tag in {User, GroupObj, Group} && m[k].read)
    && (p.write <==> exists k :: k in m && k.tag in {User, GroupObj, Group} && m[k].write)
    && (p.execute <==> exists k :: k in m && k.tag in {User, GroupObj, Group} && m[k].execute)
  }

  ghost function Union(m: View): (p: Perms)
    ensures IsUnion(m, p)
  {
    Perms(
      exists k :: k in m && GroupClass(k) && m[k].read,
      exists k :: k in m && GroupClass(k) && m[k].write,
      exists k :: k in m && GroupClass(k) && m[k].execute)
  }

  /** acl_calc_mask() */
  ghost function Recalculated(m: View): View {
    m[MASK := Union(m)]
  }

  ghost function Changed(m: View, a: Ace, remove: bool): View {
    if remove then m - {AceKey(a)} else m[AceKey(a) := a.perms]
  }

  ghost function Step(m: View, a: Ace, remove: bool, recalc: bool): View {
    var c := Changed(m, a, remove);
    if recalc then Recalculated(c) else c
  }

  /** All entries of a list applied in turn. */
  ghost function Applied(m: View, list: seq<Ace>, remove: bool, recalc: bool): View {
    if list == [] then m
    else Step(Applied(m, list[..|list| - 1], remove, recalc), list[|list| - 1], remove, recalc)
  }

  // ---------------------------------------------------------------------
  // What applying a list does
  // ---------------------------------------------------------------------

  /** Equal but perhaps for the mask. */
  ghost predicate SameButMask(m: View, n: View) {
    m - {MASK} == n - {MASK}
  }

  lemma SameUnion(m: View, n: View)
    requires SameButMask(m, n)
    ensures Union(m) == Union(n) && Recalculated(m) == Recalculated(n)
  {
    assert forall k :: GroupClass(k) ==> k != MASK;
    assert forall k :: k in m && k != MASK ==> k in m - {MASK} && (m - {MASK})[k] == m[k];
    assert forall k :: k in n && k != MASK ==> k in n - {MASK} && (n - {MASK})[k] == n[k];
  }

  lemma ChangedSame(m: View, n: View, a: Ace, remove: bool)
    requires SameButMask(m, n)
    ensures SameButMask(Changed(m, a, remove), Changed(n, a, remove))
  {
    var k := AceKey(a);
    assert forall x :: x in m && x != MASK ==> x in m - {MASK} && (m - {MASK})[x] == m[x];
    assert forall x :: x in n && x != MASK ==> x in n - {MASK} && (n - {MASK})[x] == n[x];
  }

  lemma {:induction false} AppliedSame(m: View, list: seq<Ace>, remove: bool)
    ensures SameButMask(Applied(m, list, remove, true), Applied(m, list, remove, false))
  {
    if list != [] {
      var n := |list| - 1;
      AppliedSame(m, list[..n], remove);
      var x, y := Applied(m, list[..n], remove, true), Applied(m, list[..n], remove, false);
      ChangedSame(x, y, list[n], remove);
    }
  }

  /** Recalculating the mask after every entry comes to the same as recalculating it once, at the end. */
  lemma RecalculateOnce(m: View, list: seq<Ace>, remove: bool)
    requires list != []
    ensures Applied(m, list, remove, true) == Recalculated(Applied(m, list, remove, false))
  {
    var n := |list| - 1;
    AppliedSame(m, list[..n], remove);
    var x, y := Applied(m, list[..n], remove, true), Applied(m, list[..n], remove, false);
    ChangedSame(x, y, list[n], remove);
    SameUnion(Changed(x, list[n], remove), Changed(y, list[n], remove));
  }

  /** The last permissions a list gives a key. */
  function Last(list: seq<Ace>, k: Key): Option<Perms> {
    if list == [] then None
    else if AceKey(list[|list| - 1]) == k then Some(list[|list| - 1].perms)
    else Last(list[..|list| - 1], k)
  }

  lemma {:induction false} PlainEffect(m: View, list: seq<Ace>, remove: bool, k: Key)
    ensures var t := Applied(m, list, remove, false);
            if Last(list, k) == None then (k in t <==> k in m) && (k in m ==> t[k] == m[k])
            else if remove then k !in t
            else k in t && t[k] == Last(list, k).value
  {
    if list != [] {
      PlainEffect(m, list[..|list| - 1], remove, k);
    }
  }

  /** The whole effect of a list, key by key: a key it names gets the permissions of its last
      specification (or goes, with -x); other keys stay as they were; and the mask, unless -n was
      given, ends as the union of what the group class then has. */
  lemma Effect(m: View, list: seq<Ace>, remove: bool, recalc: bool, k: Key)
    requires k != MASK || !recalc
    ensures var t := Applied(m, list, remove, recalc);
            && (if Last(list, k) == None then (k in t <==> k in m) && (k in m ==> t[k] == m[k])
                else if remove then k !in t
                else k in t && t[k] == Last(list, k).value)
            && (recalc && list != [] ==> MASK in t && IsUnion(t, t[MASK]))
  {
    PlainEffect(m, list, remove, k);
    if recalc {
      AppliedSame(m, list, remove);
      var t, u := Applied(m, list, remove, true), Applied(m, list, remove, false);
      assert k in t <==> k in t - {MASK};
      assert k in u <==> k in u - {MASK};
      assert k in t ==> (t - {MASK})[k] == t[k];
      assert k in u ==> (u - {MASK})[k] == u[k];
      if list != [] {
        RecalculateOnce(m, list, remove);
        assert SameButMask(t, u);
        SameUnion(t, u);
      }
    }
  }

  // ---------------------------------------------------------------------
  // libacl
  // ---------------------------------------------------------------------

  /** A list of entries stands for a map: no two entries have the same key. */
  ghost predicate Shows(es: seq<Ace>, m: View) {
    && (forall i, j :: 0 <= i < j < |es| ==> AceKey(es[i]) != AceKey(es[j]))
    && (forall i :: 0 <= i < |es| ==> AceKey(es[i]) in m && m[AceKey(es[i])] == es[i].perms)
    && (forall k :: k in m ==> exists i :: 0 <= i < |es| && AceKey(es[i]) == k)
  }

  predicate HasTag(es: seq<Ace>, tag: Tag) {
    exists i :: 0 <= i < |es| && es[i].tag == tag
  }

  /** acl_valid(), for lists without duplicate keys. */
  predicate AclValid(es: seq<Ace>) {
    && HasTag(es, UserObj) && HasTag(es, GroupObj) && HasTag(es, Other)
    && (HasTag(es, User) || HasTag(es, Group) ==> HasTag(es, Mask))
  }

  /** The same, of the map. */
  ghost predicate ViewValid(m: View) {
    && Key(UserObj, 0) in m && Key(GroupObj, 0) in m && Key(Other, 0) in m
    && ((exists k :: k in m && (k.tag == User || k.tag == Group)) ==> MASK in m)
  }

  lemma TagInView(es: seq<Ace>, m: View, tag: Tag)
    requires Shows(es, m)
    ensures HasTag(es, tag) <==> exists k :: k in m && k.tag == tag
    ensures tag != User && tag != Group ==> (HasTag(es, tag) <==> Key(tag, 0) in m)
  {
    if HasTag(es, tag) {
      var i :| 0 <= i < |es| && es[i].tag == tag;
      assert AceKey(es[i]) in m;
    }
    if k :| k in m && k.tag == tag {
      var i :| 0 <= i < |es| && AceKey(es[i]) == k;
      assert es[i].tag == tag;
    }
  }

  lemma ValidIff(es: seq<Ace>, m: View)
    requires Shows(es, m)
    ensures AclValid(es) <==> ViewValid(m)
  {
    TagInView(es, m, UserObj);
    TagInView(es, m, GroupObj);
    TagInView(es, m, Other);
    TagInView(es, m, Mask);
    TagInView(es, m, User);
    TagInView(es, m, Group);
    hide Shows, HasTag;
  }

  predicate Named(k: Key) {
    k.tag == User || k.tag == Group
  }

  predicate Required(tag: Tag) {
    tag == UserObj || tag == GroupObj || tag == Other
  }

  /** The required entries are there, or the new one is the one that was missing; and there is a mask,
      or the new entry is one, or none is needed. */
  ghost predicate AdditionOk(m: View, a: Ace, recalc: bool) {
    && (forall t :: Required(t) ==> Key(t, 0) in m || a.tag == t)
    && (recalc || MASK in m || a.tag == Mask || (!Named(AceKey(a)) && forall k :: k in m ==> !Named(k)))
  }

  /** The required entries are there and stay; and so does the mask, or none is needed. */
  ghost predicate RemovalOk(m: View, a: Ace, recalc: bool) {
    && (forall t :: Required(t) ==> Key(t, 0) in m && a.tag != t)
    && (recalc || (MASK in m && a.tag != Mask) || forall k :: k in m && k != AceKey(a) ==> !Named(k))
  }

  lemma ViewValidIs(m: View)
    ensures ViewValid(m) <==>
      (forall t :: Required(t) ==> Key(t, 0) in m) && (MASK in m || forall k :: k in m ==> !Named(k))
  {
    assert Required(UserObj) && Required(GroupObj) && Required(Other);
    assert forall k :: k in m && Named(k) <==> k in m && (k.tag == User || k.tag == Group);
  }

  lemma AdditionValid(m: View, a: Ace, recalc: bool)
    ensures ViewValid(Step(m, a, false, recalc)) <==> AdditionOk(m, a, recalc)
  {
    hide Union, ViewValid;
    var t := Step(m, a, false, recalc);
    ViewValidIs(t);
    assert forall g :: Required(g) ==> (Key(g, 0) in t <==> Key(g, 0) in m || a.tag == g);
    assert AceKey(a) in t && forall k :: k in m ==> k in t;
    assert forall k :: k in t ==> k in m || k == AceKey(a) || k == MASK;
    assert !Named(MASK);
  }

  lemma RemovalValid(m: View, a: Ace, recalc: bool)
    ensures ViewValid(Step(m, a, true, recalc)) <==> RemovalOk(m, a, recalc)
  {
    hide Union, ViewValid;
    var t := Step(m, a, true, recalc);
    ViewValidIs(t);
    assert forall g :: Required(g) ==> (Key(g, 0) in t <==> Key(g, 0) in m && a.tag != g);
    assert forall k :: k in m && k != AceKey(a) ==> k in t;
    assert forall k :: k in t ==> (k in m && k != AceKey(a)) || k == MASK;
    assert !Named(MASK);
  }

  /** When the list after a step is refused, so that the program gives up, whatever the list was. */
  lemma RefusedIff(m: View, a: Ace, remove: bool, recalc: bool)
    ensures ViewValid(Step(m, a, remove, recalc)) <==>
      if remove then RemovalOk(m, a, recalc) else AdditionOk(m, a, recalc)
  {
    if remove {
      RemovalValid(m, a, recalc);
    } else {
      AdditionValid(m, a, recalc);
    }
  }

  /** From a valid list -m is refused exactly when -n was given and a first named entry arrives while
      there is no mask; -x exactly when one of the three required entries goes or, under -n, the mask
      while named entries remain. */
  lemma RefusedFromValid(m: View, a: Ace, remove: bool, recalc: bool)
    requires ViewValid(m)
    ensures !ViewValid(Step(m, a, remove, recalc)) <==>
      if !remove then !recalc && Named(AceKey(a)) && MASK !in m
      else Required(a.tag) || (!recalc && a.tag == Mask && exists k :: k in m && Named(k))
  {
    hide ViewValid, Step;
    ViewValidIs(m);
    RefusedIff(m, a, remove, recalc);
    assert a.tag == Mask ==> AceKey(a) == MASK && !Named(MASK);
  }

  /** A directory without a default list: acl_get_file() gives an empty one, and -d -m never gets
      beyond its first entry. */
  lemma NoDefaultListCreated(list: seq<Ace>, recalc: bool)
    requires list != []
    ensures !ViewValid(Applied(map[], list[..1], false, recalc))
  {
    AppliedNext(map[], list, 0, false, recalc);
    AppliedNone(map[], false, recalc);
    hide ViewValid, Step, Applied;
    RefusedIff(map[], list[0], false, recalc);
    assert Required(UserObj) && Required(Other);
  }

  /** Without -n, a list that -m has left valid stays valid whatever is added. */
  lemma {:induction false} StaysValid(m: View, list: seq<Ace>, n: nat)
    requires 1 <= n <= |list| && AdditionOk(m, list[0], true)
    ensures ViewValid(Applied(m, list[..n], false, true))
  {
    AppliedNext(m, list, n - 1, false, true);
    var before := Applied(m, list[..n - 1], false, true);
    if n == 1 {
      assert list[..0] == [];
      AppliedNone(m, false, true);
    } else {
      StaysValid(m, list, n - 1);
      ViewValidIs(before);
    }
    hide ViewValid, Step, Applied;
    RefusedIff(before, list[n - 1], false, true);
  }

  lemma ValidTakesAny(m: View, a: Ace)
    requires ViewValid(m)
    ensures AdditionOk(m, a, true)
  {
    ViewValidIs(m);
  }

  // ---------------------------------------------------------------------
  // The same, entry by entry
  // ---------------------------------------------------------------------

  /** a is an entry for this tag and, for a named user or group, this qualifier. */
  predicate For(a: Ace, tag: Tag, qual: nat) {
    a.tag == tag && (tag == User || tag == Group ==> a.qual == qual)
  }

  ghost predicate Mentions(es: seq<Ace>, tag: Tag, qual: nat) {
    exists i :: 0 <= i < |es| && For(es[i], tag, qual)
  }

  ghost predicate Gives(es: seq<Ace>, tag: Tag, qual: nat, p: Perms) {
    exists i :: 0 <= i < |es| && For(es[i], tag, qual) && es[i].perms == p
  }

  ghost predicate OnePerName(es: seq<Ace>) {
    forall i, j :: 0 <= i < j < |es| ==> !For(es[i], es[j].tag, es[j].qual)
  }

  /** No entry of the list after i is for the same tag and qualifier. */
  ghost predicate NamedLast(list: seq<Ace>, i: nat)
    requires i < |list|
  {
    forall j :: i < j < |list| ==> !For(list[j], list[i].tag, list[i].qual)
  }

  /** p grants what some entry for a named user, the group or a named group grants. */
  ghost predicate GroupTotal(es: seq<Ace>, p: Perms) {
    && (p.read <==> exists i :: 0 <= i < |es| && es[i].tag in {User, GroupObj, Group} && es[i].perms.read)
    && (p.write <==> exists i :: 0 <= i < |es| && es[i].tag in {User, GroupObj, Group} && es[i].perms.write)
    && (p.execute <==> exists i :: 0 <= i < |es| && es[i].tag in {User, GroupObj, Group} && es[i].perms.execute)
  }

  ghost predicate Keeps(es: seq<Ace>, fs: seq<Ace>, tag: Tag, qual: nat) {
    forall p :: Gives(fs, tag, qual, p) <==> Gives(es, tag, qual, p)
  }

  /** What a list does to the entries es, which become fs. Apart from a mask that is recalculated:
      what the list does not name keeps its permissions; what it names has those it was last given,
      or is gone with -x. A recalculated mask is the total of the group class. No name occurs twice. */
  ghost predicate Outcome(es: seq<Ace>, fs: seq<Ace>, list: seq<Ace>, remove: bool, recalc: bool) {
    && (forall tag, qual :: (tag == Mask ==> !recalc) && !Mentions(list, tag, qual) ==> Keeps(es, fs, tag, qual))
    && (forall i :: 0 <= i < |list| && (list[i].tag == Mask ==> !recalc) && NamedLast(list, i) ==>
          if remove then !Mentions(fs, list[i].tag, list[i].qual)
          else Gives(fs, list[i].tag, list[i].qual, list[i].perms))
    && (recalc && list != [] ==> exists p :: Gives(fs, Mask, 0, p) && GroupTotal(fs, p))
    && OnePerName(fs)
  }

  lemma GivesIff(es: seq<Ace>, m: View, tag: Tag, qual: nat)
    requires Shows(es, m)
    ensures forall p :: Gives(es, tag, qual, p) <==> KeyOf(tag, qual) in m && m[KeyOf(tag, qual)] == p
    ensures Mentions(es, tag, qual) <==> KeyOf(tag, qual) in m
  {
    var k := KeyOf(tag, qual);
    assert forall i :: 0 <= i < |es| ==> (For(es[i], tag, qual) <==> AceKey(es[i]) == k);
    hide For, KeyOf, AceKey;
    if k in m {
      var i :| 0 <= i < |es| && AceKey(es[i]) == k;
      assert For(es[i], tag, qual) && m[AceKey(es[i])] == es[i].perms;
    }
  }

  lemma {:induction false} LastNone(list: seq<Ace>, tag: Tag, qual: nat)
    ensures Last(list, KeyOf(tag, qual)) == None <==> !Mentions(list, tag, qual)
  {
    if list != [] {
      var n := |list| - 1;
      LastNone(list[..n], tag, qual);
      assert AceKey(list[n]) == KeyOf(tag, qual) <==> For(list[n], tag, qual);
      hide For, KeyOf, AceKey, Last;
      if i :| 0 <= i < |list| && For(list[i], tag, qual) {
        assert i < n ==> For(list[..n][i], tag, qual);
      }
      if i :| 0 <= i < n && For(list[..n][i], tag, qual) {
        assert For(list[i], tag, qual);
      }
    }
  }

  lemma {:induction false} LastIs(list: seq<Ace>, i: nat)
    requires i < |list| && NamedLast(list, i)
    ensures Last(list, KeyOf(list[i].tag, list[i].qual)) == Some(list[i].perms)
    decreases |list|
  {
    var n := |list| - 1;
    assert AceKey(list[n]) == KeyOf(list[i].tag, list[i].qual) <==> For(list[n], list[i].tag, list[i].qual);
    if i < n {
      assert NamedLast(list[..n], i);
      LastIs(list[..n], i);
    }
  }

  lemma TotalIs(es: seq<Ace>, m: View, p: Perms)
    requires Shows(es, m) && IsUnion(m, p)
    ensures GroupTotal(es, p)
  {
    hide Shows;
    forall i | 0 <= i < |es| ensures AceKey(es[i]) in m && m[AceKey(es[i])] == es[i].perms {
      ShownAt(es, m, i);
    }
    forall k | k in m ensures exists i :: 0 <= i < |es| && AceKey(es[i]) == k && es[i].perms == m[k] {
      ShownOf(es, m, k);
    }
  }

  lemma ShownAt(es: seq<Ace>, m: View, i: nat)
    requires Shows(es, m) && i < |es|
    ensures AceKey(es[i]) in m && m[AceKey(es[i])] == es[i].perms
  {
  }

  lemma ShownOf(es: seq<Ace>, m: View, k: Key)
    requires Shows(es, m) && k in m
    ensures exists i :: 0 <= i < |es| && AceKey(es[i]) == k && es[i].perms == m[k]
  {
    var i :| 0 <= i < |es| && AceKey(es[i]) == k;
    assert m[AceKey(es[i])] == es[i].perms;
  }

  lemma Unnamed(es: seq<Ace>, m: View, fs: seq<Ace>, n: View, list: seq<Ace>, remove: bool, recalc: bool, tag: Tag, qual: nat)
    requires Shows(es, m) && Shows(fs, n) && n == Applied(m, list, remove, recalc)
    requires (tag == Mask ==> !recalc) && !Mentions(list, tag, qual)
    ensures Keeps(es, fs, tag, qual)
  {
    GivesIff(es, m, tag, qual);
    GivesIff(fs, n, tag, qual);
    LastNone(list, tag, qual);
    Effect(m, list, remove, recalc, KeyOf(tag, qual));
    hide Gives, Mentions, Shows, Applied;
  }

  lemma NamedAt(fs: seq<Ace>, m: View, n: View, list: seq<Ace>, remove: bool, recalc: bool, i: nat)
    requires Shows(fs, n) && n == Applied(m, list, remove, recalc)
    requires i < |list| && (list[i].tag == Mask ==> !recalc) && NamedLast(list, i)
    ensures if remove then !Mentions(fs, list[i].tag, list[i].qual) else Gives(fs, list[i].tag, list[i].qual, list[i].perms)
  {
    GivesIff(fs, n, list[i].tag, list[i].qual);
    LastIs(list, i);
    Effect(m, list, remove, recalc, KeyOf(list[i].tag, list[i].qual));
    hide Gives, Mentions, Shows, Applied, NamedLast;
  }

  lemma MaskIs(fs: seq<Ace>, m: View, n: View, list: seq<Ace>, remove: bool)
    requires Shows(fs, n) && n == Applied(m, list, remove, true) && list != []
    ensures exists p :: Gives(fs, Mask, 0, p) && GroupTotal(fs, p)
  {
    GivesIff(fs, n, Mask, 0);
    Effect(m, list, remove, true, KeyOf(Other, 0));
    TotalIs(fs, n, n[MASK]);
    hide Gives, GroupTotal, Shows, Applied, IsUnion;
    assert Gives(fs, Mask, 0, n[MASK]);
  }

  lemma ShowsOnce(es: seq<Ace>, m: View)
    requires Shows(es, m)
    ensures OnePerName(es)
  {
    forall i, j | 0 <= i < j < |es| ensures !For(es[i], es[j].tag, es[j].qual) {
      assert AceKey(es[i]) != AceKey(es[j]);
    }
  }

  lemma OutcomeOf(es: seq<Ace>, m: View, fs: seq<Ace>, n: View, list: seq<Ace>, remove: bool, recalc: bool)
    requires Shows(es, m) && Shows(fs, n) && n == Applied(m, list, remove, recalc)
    ensures Outcome(es, fs, list, remove, recalc)
  {
    hide Shows, Applied, Keeps, Mentions, Gives, NamedLast, GroupTotal, OnePerName;
    forall tag, qual | (tag == Mask ==> !recalc) && !Mentions(list, tag, qual) ensures Keeps(es, fs, tag, qual) {
      Unnamed(es, m, fs, n, list, remove, recalc, tag, qual);
    }
    forall i | 0 <= i < |list| && (list[i].tag == Mask ==> !recalc) && NamedLast(list, i)
      ensures if remove then !Mentions(fs, list[i].tag, list[i].qual) else Gives(fs, list[i].tag, list[i].qual, list[i].perms)
    {
      NamedAt(fs, m, n, list, remove, recalc, i);
    }
    if recalc && list != [] {
      MaskIs(fs, m, n, list, remove);
    }
    ShowsOnce(fs, n);
  }

  // ---------------------------------------------------------------------
  // The update
  // ---------------------------------------------------------------------

  /** The list after entry j is valid, and is stored. */
  ghost predicate Accepted(m: View, list: seq<Ace>, j: nat, remove: bool, recalc: bool, setOk: seq<bool>)
    requires j < |list| == |setOk|
  {
    setOk[j] && ViewValid(Applied(m, list[..j + 1], remove, recalc))
  }

  /** Without -n, -m is refused at its first entry or not at all. */
  lemma Refusal(m: View, list: seq<Ace>, j: nat, remove: bool, recalc: bool, setOk: seq<bool>)
    requires j < |list| == |setOk|
    ensures !remove && recalc && setOk[j] && AdditionOk(m, list[0], true) ==> Accepted(m, list, j, remove, recalc, setOk)
    ensures !remove && recalc && j == 0 && !AdditionOk(m, list[0], true) ==> !Accepted(m, list, j, remove, recalc, setOk)
  {
    if !remove && recalc {
      if AdditionOk(m, list[0], true) {
        StaysValid(m, list, j + 1);
      } else if j == 0 {
        AppliedNext(m, list, 0, false, true);
        assert list[..0] == [];
        AppliedNone(m, false, true);
        RefusedIff(m, list[0], false, true);
      }
    }
  }

  class AclFile {
    var acl: seq<Ace>           // in memory
    var file: seq<Ace>          // on disk
    ghost var m: View
    ghost var stored: View

    ghost predicate Valid()
      reads this
    {
      Shows(acl, m) && Shows(file, stored)
    }

    method FindEntry(tag: Tag, qual: nat) returns (i: int)
      requires Valid()
      ensures i == -1 <==> KeyOf(tag, qual) !in m
      ensures i != -1 ==> 0 <= i < |acl| && AceKey(acl[i]) == KeyOf(tag, qual)
      ensures i != -1 ==> acl[i].tag == tag && (tag == User || tag == Group ==> acl[i].qual == qual)
      ensures i == -1 ==> forall j :: 0 <= j < |acl| && acl[j].tag == tag ==> (tag == User || tag == Group) && acl[j].qual != qual
    {
      i := 0;
      while i < |acl|
        invariant 0 <= i <= |acl|
        invariant forall j :: 0 <= j < i ==> AceKey(acl[j]) != KeyOf(tag, qual)
      {
        if acl[i].tag == tag {
          if tag == User || tag == Group {
            if acl[i].qual == qual { return; }
          } else {
            return;
          }
        }
        i := i + 1;
      }
      i := -1;
    }

    /** setPerms(): clear the permission set, then add what is asked for. */
    method SetPerms(i: nat, perms: Perms)
      requires Valid() && i < |acl|
      modifies `acl, `m
      ensures Valid() && m == old(m)[AceKey(old(acl)[i]) := perms]
      ensures |acl| == |old(acl)| && forall j :: 0 <= j < |acl| ==> AceKey(acl[j]) == AceKey(old(acl)[j])
    {
      hide Shows;
      var p := NONE;
      if perms.read { p := p.(read := true); }
      if perms.write { p := p.(write := true); }
      if perms.execute { p := p.(execute := true); }
      PermsSet(acl, m, i, p);
      m := m[AceKey(acl[i]) := perms];
      acl := acl[i := acl[i].(perms := p)];
    }

    /** acl_create_entry() with its tag and qualifier set */
    method CreateEntry(tag: Tag, qual: nat) returns (i: nat)
      requires Valid() && KeyOf(tag, qual) !in m
      modifies `acl, `m
      ensures Valid() && m == old(m)[KeyOf(tag, qual) := NONE]
      ensures i < |acl| && AceKey(acl[i]) == KeyOf(tag, qual)
      ensures acl == old(acl) + [Ace(tag, qual, NONE)]
    {
      i := |acl|;
      Created(acl, m, Ace(tag, qual, NONE));
      acl := acl + [Ace(tag, qual, NONE)];
      m := m[KeyOf(tag, qual) := NONE];
    }

    /** acl_delete_entry() */
    method DeleteEntry(i: nat)
      requires Valid() && i < |acl|
      modifies `acl, `m
      ensures Valid() && m == old(m) - {AceKey(old(acl)[i])}
    {
      Deleted(acl, m, i);
      m := m - {AceKey(acl[i])};
      acl := acl[..i] + acl[i + 1..];
    }

    method GroupClassUnion() returns (p: Perms)
      requires Valid()
      ensures p == Union(m)
    {
      p := NONE;
      for i := 0 to |acl|
        invariant PartUnion(acl, i, p)
      {
        PartNext(acl, i, p);
        if GroupClass(AceKey(acl[i])) {
          p := Or(p, acl[i].perms);
        }
      }
      PartIsUnion(acl, m, p);
    }

    /** acl_calc_mask() */
    method CalcMask()
      requires Valid()
      modifies `acl, `m
      ensures Valid() && m == Recalculated(old(m))
    {
      hide Shows, Union;
      var p := GroupClassUnion();
      var i := FindEntry(Mask, 0);
      if i == -1 {
        i := CreateEntry(Mask, 0);
      }
      SetPerms(i, p);
    }

    /** One turn of the loop over the entries, up to the recalculated mask. */
    method ApplyEntry(a: Ace, removeACL: bool, recalcMask: bool)
      requires Valid()
      modifies `acl, `m
      ensures Valid() && m == Step(old(m), a, removeACL, recalcMask)
    {
      hide Shows, Recalculated;
      var i := FindEntry(a.tag, a.qual);
      if removeACL {
        if i != -1 {
          DeleteEntry(i);
        }
        assert m == old(m) - {AceKey(a)};
      } else {
        if i == -1 {
          i := CreateEntry(a.tag, a.qual);
        }
        SetPerms(i, a.perms);
        assert m == old(m)[AceKey(a) := a.perms];
      }
      if recalcMask {
        CalcMask();
      }
    }

    /** The loop over the entries for one file. The program ends at the first list that acl_valid()
        refuses or acl_set_file() fails to store; setOk tells whether it does. What is on disk is
        then the effect of the entries before that one, and of all of them if there was none. */
    method Update(list: seq<Ace>, removeACL: bool, recalcMask: bool, setOk: seq<bool>) returns (done: nat)
      requires Valid() && m == stored && |setOk| == |list|
      modifies this
      ensures Valid() && done <= |list|
      ensures stored == Applied(old(m), list[..done], removeACL, recalcMask)
      ensures Outcome(old(file), file, list[..done], removeACL, recalcMask)
      ensures done == |list| ==> m == stored
      ensures forall j :: 0 <= j < done ==> Accepted(old(m), list, j, removeACL, recalcMask, setOk)
      ensures done < |list| ==> !Accepted(old(m), list, done, removeACL, recalcMask, setOk)
      ensures !removeACL && recalcMask && list != [] && (forall j :: 0 <= j < |list| ==> setOk[j]) ==>
        (done == |list| <==> AdditionOk(old(m), list[0], true))
      ensures !removeACL && recalcMask && ViewValid(old(m)) && (forall j :: 0 <= j < |list| ==> setOk[j]) ==>
        done == |list|
    {
      hide Shows, Applied, Step, AclValid, ViewValid, Outcome;
      done := 0;
      AppliedNone(m, removeACL, recalcMask);
      if list != [] {
        Refusal(m, list, 0, removeACL, recalcMask, setOk);
        if ViewValid(m) {
          ValidTakesAny(m, list[0]);
        }
      }
      while done < |list|
        invariant done <= |list| && Valid() && m == stored
        invariant m == Applied(old(m), list[..done], removeACL, recalcMask)
        invariant forall j :: 0 <= j < done ==> Accepted(old(m), list, j, removeACL, recalcMask, setOk)
      {
        ApplyEntry(list[done], removeACL, recalcMask);
        AppliedNext(old(m), list, done, removeACL, recalcMask);
        ValidIff(acl, m);
        assert Accepted(old(m), list, done, removeACL, recalcMask, setOk) <==> setOk[done] && AclValid(acl);
        Refusal(old(m), list, done, removeACL, recalcMask, setOk);
        if !AclValid(acl) { break; }
        if !setOk[done] { break; }
        file := acl;
        stored := m;
        done := done + 1;
      }
      OutcomeOf(old(file), old(m), file, stored, list[..done], removeACL, recalcMask);
    }
  }

  lemma AppliedNone(m: View, remove: bool, recalc: bool)
    ensures Applied(m, [], remove, recalc) == m
  {
  }

  lemma AppliedNext(m: View, list: seq<Ace>, n: nat, remove: bool, recalc: bool)
    requires n < |list|
    ensures Applied(m, list[..n + 1], remove, recalc)
         == Step(Applied(m, list[..n], remove, recalc), list[n], remove, recalc)
  {
    assert list[..n + 1][..n] == list[..n];
  }

  lemma PermsSet(es: seq<Ace>, m: View, i: nat, p: Perms)
    requires Shows(es, m) && i < |es|
    ensures Shows(es[i := es[i].(perms := p)], m[AceKey(es[i]) := p])
  {
    var fs, n := es[i := es[i].(perms := p)], m[AceKey(es[i]) := p];
    assert forall j :: 0 <= j < |es| ==> AceKey(fs[j]) == AceKey(es[j]);
    hide AceKey;
    forall j | 0 <= j < |fs| ensures AceKey(fs[j]) in n && n[AceKey(fs[j])] == fs[j].perms {
      assert AceKey(es[j]) in m && (j != i ==> AceKey(es[j]) != AceKey(es[i]));
    }
    Covered(es, m, fs, n);
  }

  lemma Created(es: seq<Ace>, m: View, a: Ace)
    requires Shows(es, m) && AceKey(a) !in m
    ensures Shows(es + [a], m[AceKey(a) := a.perms])
  {
    var fs, n := es + [a], m[AceKey(a) := a.perms];
    assert forall j :: 0 <= j < |es| ==> fs[j] == es[j];
    assert fs[|es|] == a;
    Covered(es, m, fs, n);
  }

  /** Keys of a map that comes from another by adding keys of fs all have an entry in fs. */
  lemma Covered(es: seq<Ace>, m: View, fs: seq<Ace>, n: View)
    requires forall k :: k in m ==> exists i :: 0 <= i < |es| && AceKey(es[i]) == k
    requires |fs| >= |es| && forall i :: 0 <= i < |es| ==> AceKey(fs[i]) == AceKey(es[i])
    requires forall k :: k in n && k !in m ==> exists i :: 0 <= i < |fs| && AceKey(fs[i]) == k
    ensures forall k :: k in n ==> exists i :: 0 <= i < |fs| && AceKey(fs[i]) == k
  {
    forall k | k in n && k in m ensures exists i :: 0 <= i < |fs| && AceKey(fs[i]) == k {
      var i :| 0 <= i < |es| && AceKey(es[i]) == k;
      assert AceKey(fs[i]) == k;
    }
  }

  /** The index in the list before entry i went. */
  function Skip(j: nat, i: nat): nat {
    if j < i then j else j + 1
  }

  lemma Without(es: seq<Ace>, i: nat, j: nat)
    requires i < |es| && j < |es| - 1
    ensures (es[..i] + es[i + 1..])[j] == es[Skip(j, i)]
  {
  }

  lemma DeletedIsCovered(es: seq<Ace>, m: View, i: nat, k: Key)
    requires Shows(es, m) && i < |es| && k in m && k != AceKey(es[i])
    ensures var fs := es[..i] + es[i + 1..];
            exists j :: 0 <= j < |fs| && AceKey(fs[j]) == k
  {
    var j :| 0 <= j < |es| && AceKey(es[j]) == k;
    Without(es, i, if j < i then j else j - 1);
  }

  lemma Deleted(es: seq<Ace>, m: View, i: nat)
    requires Shows(es, m) && i < |es|
    ensures Shows(es[..i] + es[i + 1..], m - {AceKey(es[i])})
  {
    var fs := es[..i] + es[i + 1..];
    var n := m - {AceKey(es[i])};
    forall j | 0 <= j < |fs| ensures fs[j] == es[Skip(j, i)] && AceKey(fs[j]) in n && n[AceKey(fs[j])] == fs[j].perms {
      Without(es, i, j);
      assert AceKey(es[Skip(j, i)]) != AceKey(es[i]);
    }
    forall k | k in n ensures exists j :: 0 <= j < |fs| && AceKey(fs[j]) == k {
      DeletedIsCovered(es, m, i, k);
    }
    hide AceKey;
  }

  /** p is the union over the first n entries. */
  ghost predicate PartUnion(es: seq<Ace>, n: nat, p: Perms)
    requires n <= |es|
  {
    && (p.read <==> exists i :: 0 <= i < n && GroupClass(AceKey(es[i])) && es[i].perms.read)
    && (p.write <==> exists i :: 0 <= i < n && GroupClass(AceKey(es[i])) && es[i].perms.write)
    && (p.execute <==> exists i :: 0 <= i < n && GroupClass(AceKey(es[i])) && es[i].perms.execute)
  }

  lemma PartNext(es: seq<Ace>, n: nat, p: Perms)
    requires n < |es| && PartUnion(es, n, p)
    ensures PartUnion(es, n + 1, if GroupClass(AceKey(es[n])) then Or(p, es[n].perms) else p)
  {
    hide GroupClass;
  }

  lemma PartIsUnion(es: seq<Ace>, m: View, p: Perms)
    requires Shows(es, m) && PartUnion(es, |es|, p)
    ensures p == Union(m)
  {
    forall i | 0 <= i < |es| ensures AceKey(es[i]) in m && m[AceKey(es[i])] == es[i].perms {
    }
    forall k | k in m ensures exists i :: 0 <= i < |es| && AceKey(es[i]) == k && es[i].perms == m[k] {
      var i :| 0 <= i < |es| && AceKey(es[i]) == k;
      assert es[i].perms == m[AceKey(es[i])];
    }
  }
}

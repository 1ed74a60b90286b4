/** parseEntrySpec() and parseACL() of acl_update.c: they work inside the argument string, putting
    terminators over its colons and commas, and fill the array of entries as they go. */
module AclParse {
  import opened Wrappers
  import opened AclText

  /** A C string starts at p and ends at its terminator. */
  ghost predicate CString(b: seq<char>, p: nat, end: nat) {
    p <= end < |b| && b[end] == '\0' && forall k :: p <= k < end ==> b[k] != '\0'
  }

  method StrChr(buf: array<char>, p: nat, c: char, ghost end: nat) returns (q: int)
    requires CString(buf[..], p, end) && c != '\0'
    ensures var k := IndexOf(buf[p..end], c);
            q == Found(k, p, end)
  {
    hide IndexOf;
    q := p;
    while buf[q] != c && buf[q] != '\0'
      invariant p <= q <= end
      invariant c !in buf[p..q]
      decreases end - q
    {
      assert q < end;
      assert buf[p..q + 1] == buf[p..q] + [buf[q]];
      q := q + 1;
    }
    assert q < end ==> buf[p..end][q - p] == buf[q];
    assert buf[p..end][..q - p] == buf[p..q];
    IndexIs(buf[p..end], c, q - p);
    if buf[q] == '\0' {
      q := -1;
    }
  }

  /** strcmp() == 0 */
  method StrEq(buf: array<char>, p: nat, lit: string, ghost end: nat) returns (b: bool)
    requires CString(buf[..], p, end) && '\0' !in lit
    ensures b <==> buf[p..end] == lit
  {
    var i := 0;
    while i < |lit| && buf[p + i] == lit[i]
      invariant i <= |lit| && p + i <= end
      invariant buf[p..p + i] == lit[..i]
    {
      assert lit[i] in lit;
      i := i + 1;
    }
    b := i == |lit| && buf[p + i] == '\0';
    assert p + i < end ==> buf[p..end][i] == buf[p + i];
    assert buf[p..end][..i] == buf[p..p + i];
  }

  /** The string at p, as a value to hand to the user and group databases. */
  method StringAt(buf: array<char>, p: nat, ghost end: nat) returns (s: string)
    requires CString(buf[..], p, end)
    ensures s == buf[p..end]
  {
    var q := p;
    while buf[q] != '\0'
      invariant p <= q <= end
      decreases end - q
    {
      q := q + 1;
    }
    s := buf[p..q];
  }

  ghost predicate OthersKept(a: seq<Ace>, b: seq<Ace>, n: nat) {
    |a| == |b| && forall k :: 0 <= k < |a| && k != n ==> a[k] == b[k]
  }

  /** Permission letters seen so far. */
  function Seen(p: string): Perms {
    Perms('r' in p, 'w' in p, 'x' in p)
  }

  method ParsePerms(buf: array<char>, p: nat, aclist: array<Ace>, n: nat, ghost end: nat) returns (ok: bool)
    requires CString(buf[..], p, end) && n < aclist.Length
    modifies aclist
    ensures OthersKept(old(aclist[..]), aclist[..], n)
    ensures ok <==> PermsOf(buf[p..end]).Some?
    ensures ok ==> aclist[n] == old(aclist[n]).(perms := PermsOf(buf[p..end]).value)
  {
    aclist[n] := aclist[n].(perms := NONE);
    var q := p;
    while buf[q] != '\0'
      invariant p <= q <= end
      invariant forall k :: p <= k < q ==> PermChar(buf[k])
      invariant aclist[n] == old(aclist[n]).(perms := Seen(buf[p..q]))
      invariant OthersKept(old(aclist[..]), aclist[..], n)
      decreases end - q
    {
      assert buf[p..q + 1] == buf[p..q] + [buf[q]];
      assert buf[p..end][q - p] == buf[q];
      if buf[q] == 'r' {
        aclist[n] := aclist[n].(perms := aclist[n].perms.(read := true));
      } else if buf[q] == 'w' {
        aclist[n] := aclist[n].(perms := aclist[n].perms.(write := true));
      } else if buf[q] == 'x' {
        aclist[n] := aclist[n].(perms := aclist[n].perms.(execute := true));
      } else if buf[q] != '-' {
        return false;
      }
      q := q + 1;
    }
    return true;
  }

  method ParseTag(buf: array<char>, p: nat, hasQual: bool, ghost end: nat) returns (tag: Option<Tag>)
    requires CString(buf[..], p, end)
    ensures tag == TagOf(buf[p..end], hasQual)
  {
    var b := StrEq(buf, p, "u", end);
    var l := StrEq(buf, p, "user", end);
    if b || l { return Some(if hasQual then User else UserObj); }
    b := StrEq(buf, p, "g", end);
    l := StrEq(buf, p, "group", end);
    if b || l { return Some(if hasQual then Group else GroupObj); }
    b := StrEq(buf, p, "o", end);
    l := StrEq(buf, p, "other", end);
    if b || l { return Some(Other); }
    b := StrEq(buf, p, "m", end);
    l := StrEq(buf, p, "mask", end);
    if b || l { return Some(Mask); }
    return None;
  }

  /** All that happens to the string: separators between start and end become terminators. */
  ghost predicate Cleared(was: seq<char>, b: seq<char>, start: nat, end: nat, separator: char) {
    && |b| == |was|
    && forall k :: 0 <= k < |b| ==>
         b[k] == was[k] || (start <= k < end && was[k] == separator && b[k] == '\0')
  }

  /** The string b between start and end, cut at colons found at colon1 and colon2 (or not: -1). */
  ghost predicate Parts(b: seq<char>, start: nat, end: nat, colon1: int, colon2: int, sp: Spelling) {
    && start <= colon1 < end < |b|
    && b[start..colon1] == sp.tag
    && (colon2 == -1 || (colon1 < colon2 < end && b[colon2] == ':'))
    && b[colon1 + 1..if colon2 == -1 then end else colon2] == sp.qual
    && sp.perms == if colon2 == -1 then "" else b[colon2 + 1..end]
  }

  /** What strchr() returns. */
  function Found(k: nat, p: nat, end: nat): int {
    if p + k == end then -1 else p + k
  }

  lemma CutAt(s: string, c1: nat)
    requires IndexOf(s, ':') == c1 < |s|
    ensures Cut(s) == Some(CutRest(s[..c1], s[c1 + 1..], IndexOf(s[c1 + 1..], ':')))
  {
    hide IndexOf, CutRest;
  }

  lemma RestParts(b: seq<char>, start: nat, end: nat, colon1: nat, k: nat)
    requires start <= colon1 < end < |b| && k <= end - colon1 - 1
    requires k < end - colon1 - 1 ==> b[colon1 + 1 + k] == ':'
    ensures Parts(b, start, end, colon1, Found(k, colon1 + 1, end),
                  CutRest(b[start..colon1], b[colon1 + 1..end], k))
  {
    Slices(b, colon1 + 1, end, k);
  }

  lemma ColonsCut(b: seq<char>, start: nat, end: nat, colon1: int, colon2: int)
    requires start <= end < |b| && colon1 == Found(IndexOf(b[start..end], ':'), start, end) != -1
    requires colon2 == Found(IndexOf(b[colon1 + 1..end], ':'), colon1 + 1, end)
    ensures Cut(b[start..end]).Some? && Parts(b, start, end, colon1, colon2, Cut(b[start..end]).value)
  {
    hide IndexOf, Cut, CutRest, Parts;
    var k := IndexOf(b[colon1 + 1..end], ':');
    RestParts(b, start, end, colon1, k);
    CutAt(b[start..end], colon1 - start);
    Slices(b, start, end, colon1 - start);
  }

  lemma Slices(b: seq<char>, p: nat, end: nat, k: nat)
    requires p <= end <= |b| && k <= end - p
    ensures b[p..end][..k] == b[p..p + k] && (k < end - p ==> b[p..end][k + 1..] == b[p + k + 1..end])
  {
  }

  lemma NoColon(s: string)
    requires IndexOf(s, ':') == |s|
    ensures Cut(s) == None
  {
  }

  /** The first half of parseEntrySpec(): find the colons and end the tag at the first one. */
  method FindColons(buf: array<char>, start: nat, ghost end: nat)
    returns (colon1: int, colon2: int, hasQual: bool, hasPerms: bool)
    requires CString(buf[..], start, end)
    modifies buf
    ensures colon1 == -1 <==> Cut(old(buf[start..end])) == None
    ensures colon1 == -1 ==> buf[..] == old(buf[..])
    ensures colon1 != -1 ==>
      var sp := Cut(old(buf[start..end])).value;
      && Parts(old(buf[..]), start, end, colon1, colon2, sp)
      && buf[..] == old(buf[..])[colon1 := '\0'] && old(buf[colon1]) == ':'
      && (hasQual <==> sp.qual != "") && (hasPerms <==> sp.perms != "")
  {
    hide IndexOf, Cut;
    ghost var b := buf[..];
    assert buf[start..end] == b[start..end];
    colon1 := StrChr(buf, start, ':', end);
    if colon1 == -1 {
      NoColon(buf[start..end]);
      return -1, -1, false, false;
    }
    hasQual := buf[colon1 + 1] != '\0' && buf[colon1 + 1] != ':';
    buf[colon1] := '\0';
    assert buf[colon1 + 1..end] == b[colon1 + 1..end];
    colon2 := StrChr(buf, colon1 + 1, ':', end);
    hasPerms := colon2 != -1 && buf[colon2 + 1] != '\0';
    ColonsCut(b, start, end, colon1, colon2);
  }

  /** The qualifier of a user or group entry, looked up by name. */
  method StoreQual(buf: array<char>, p: nat, aclist: array<Ace>, n: nat, ids: Ids, ghost end: nat) returns (ok: bool)
    requires CString(buf[..], p, end) && n < aclist.Length
    modifies aclist
    ensures OthersKept(old(aclist[..]), aclist[..], n)
    ensures var tag := old(aclist[n]).tag;
            var q := QualOf(tag, buf[p..end], ids);
            && (ok <==> !((tag == User || tag == Group) && q == NO_ID))
            && aclist[n] == old(aclist[n]).(qual := q)
  {
    aclist[n] := aclist[n].(qual := 0);
    ok := true;
    if aclist[n].tag == User {
      var name := StringAt(buf, p, end);
      aclist[n] := aclist[n].(qual := ids.users(name));
      ok := aclist[n].qual != NO_ID;
    } else if aclist[n].tag == Group {
      var name := StringAt(buf, p, end);
      aclist[n] := aclist[n].(qual := ids.groups(name));
      ok := aclist[n].qual != NO_ID;
    }
  }

  lemma TagEnded(b: seq<char>, start: nat, end: nat, colon1: nat, colon2: int, sp: Spelling)
    requires CString(b, start, end) && Parts(b, start, end, colon1, colon2, sp)
    ensures CString(b[colon1 := '\0'], start, colon1) && b[colon1 := '\0'][start..colon1] == sp.tag
  {
  }

  ghost predicate Ended(b: seq<char>, end: nat, colon1: nat, colon2: int, sp: Spelling)
    requires colon2 >= -1
  {
    var qualEnd := if colon2 == -1 then end else colon2;
    && CString(b, colon1 + 1, qualEnd) && b[colon1 + 1..qualEnd] == sp.qual
    && (colon2 >= 0 ==> CString(b, colon2 + 1, end) && b[colon2 + 1..end] == sp.perms)
  }

  lemma QualEnded(b: seq<char>, start: nat, end: nat, colon1: nat, colon2: int, sp: Spelling, b': seq<char>)
    requires CString(b, start, end) && Parts(b, start, end, colon1, colon2, sp) && b[colon1] == ':'
    requires b' == if colon2 == -1 then b[colon1 := '\0'] else b[colon1 := '\0'][colon2 := '\0']
    ensures Ended(b', end, colon1, colon2, sp) && Cleared(b, b', start, end, ':')
  {
  }

  /** The last part of parseEntrySpec(): the qualifier, then the permissions if there are any. */
  method FinishEntry(buf: array<char>, colon1: nat, colon2: int, aclist: array<Ace>, n: nat, hasPerms: bool, ids: Ids,
                     ghost end: nat, ghost sp: Spelling)
    returns (ok: bool)
    requires colon2 >= -1 && Ended(buf[..], end, colon1, colon2, sp) && n < aclist.Length
    requires hasPerms ==> colon2 >= 0
    modifies aclist
    ensures OthersKept(old(aclist[..]), aclist[..], n)
    ensures var tag := old(aclist[n]).tag;
            var q := QualOf(tag, sp.qual, ids);
            && (ok <==> !((tag == User || tag == Group) && q == NO_ID) && (hasPerms ==> PermsOf(sp.perms).Some?))
            && (ok ==> aclist[n] == Ace(tag, q, if hasPerms then PermsOf(sp.perms).value else old(aclist[n]).perms))
  {
    hide PermsOf, QualOf;
    ghost var qualEnd := if colon2 == -1 then end else colon2;
    assert buf[colon1 + 1..qualEnd] == buf[..][colon1 + 1..qualEnd];
    ok := StoreQual(buf, colon1 + 1, aclist, n, ids, qualEnd);
    if ok && hasPerms {
      assert buf[colon2 + 1..end] == buf[..][colon2 + 1..end];
      ok := ParsePerms(buf, colon2 + 1, aclist, n, end);
    }
  }

  method ParseEntrySpec(buf: array<char>, start: nat, aclist: array<Ace>, n: nat, permsReqd: bool, ids: Ids,
                        ghost end: nat)
    returns (ok: bool)
    requires CString(buf[..], start, end) && n < aclist.Length
    modifies buf, aclist
    ensures Cleared(old(buf[..]), buf[..], start, end, ':')
    ensures OthersKept(old(aclist[..]), aclist[..], n)
    ensures var r := ParseEntry(old(buf[start..end]), permsReqd, ids, old(aclist[n]).perms);
            (ok <==> r.Some?) && (ok ==> aclist[n] == r.value)
  {
    hide IndexOf, Cut, TagOf, PermsOf, QualOf;
    ghost var b := buf[..];
    assert buf[start..end] == b[start..end];
    ghost var cut := Cut(b[start..end]);
    var colon1, colon2, hasQual, hasPerms := FindColons(buf, start, end);
    if colon1 == -1 || hasPerms != permsReqd { return false; }
    ghost var sp := cut.value;
    TagEnded(b, start, end, colon1, colon2, sp);
    assert buf[start..colon1] == buf[..][start..colon1];
    var tag := ParseTag(buf, start, hasQual, colon1);
    if tag == None { return false; }
    aclist[n] := aclist[n].(tag := tag.value);
    if colon2 != -1 {
      buf[colon2] := '\0';
    }
    QualEnded(b, start, end, colon1, colon2, sp, buf[..]);
    assert hasPerms ==> colon2 >= 0;
    hide CString, Cleared, Parts, Ended;
    ok := FinishEntry(buf, colon1, colon2, aclist, n, hasPerms, ids, end, sp);
  }

  // ---------------------------------------------------------------------
  // The list
  // ---------------------------------------------------------------------

  lemma {:induction false} BadEntryStays(pieces: seq<string>, m: nat, permsReqd: bool, ids: Ids, stale: seq<Ace>)
    requires m <= |pieces| <= |stale| && ParseAll(pieces[..m], permsReqd, ids, stale) == None
    ensures ParseAll(pieces, permsReqd, ids, stale) == None
  {
    hide ParseEntry;
    if m < |pieces| {
      var n := |pieces| - 1;
      assert pieces[..n][..m] == pieces[..m];
      BadEntryStays(pieces[..n], m, permsReqd, ids, stale);
    } else {
      assert pieces[..m] == pieces;
    }
  }

  /** The pieces from the n-th on are those of the string from next on. */
  ghost predicate At(pieces: seq<string>, n: nat, b: seq<char>, next: nat, end: nat) {
    n < |pieces| && next <= end < |b| && pieces[n..] == Pieces(b[next..end])
  }

  lemma NextPiece(pieces: seq<string>, n: nat, b: seq<char>, next: nat, end: nat, comma: int)
    requires At(pieces, n, b, next, end) && comma == Found(IndexOf(b[next..end], ','), next, end)
    ensures comma == -1 ==> b[next..end] == pieces[n] && |pieces| == n + 1
    ensures comma != -1 ==> next <= comma < end && b[next..comma] == pieces[n] && n + 1 < |pieces| && At(pieces, n + 1, b, comma + 1, end)
  {
    hide IndexOf;
    var s := b[next..end];
    assert pieces[n] == pieces[n..][0];
    Slices(b, next, end, IndexOf(s, ','));
    if comma != -1 {
      assert pieces[n + 1..] == pieces[n..][1..];
    }
  }

  ghost predicate Terminators(was: seq<char>, b: seq<char>) {
    |b| == |was| && forall k :: 0 <= k < |b| ==>
      b[k] == was[k] || ((was[k] == ':' || was[k] == ',') && b[k] == '\0')
  }

  /** Where the list stands when n entries have been stored. */
  ghost predicate Stored(pieces: seq<string>, n: nat, permsReqd: bool, ids: Ids, was: seq<Ace>, now: seq<Ace>) {
    && n <= |pieces| && n <= |was| == |now|
    && ParseAll(pieces[..n], permsReqd, ids, was) == Some(now[..n]) && now[n..] == was[n..]
  }

  lemma OneMore(pieces: seq<string>, n: nat, permsReqd: bool, ids: Ids, was: seq<Ace>, now: seq<Ace>, now': seq<Ace>)
    requires Stored(pieces, n, permsReqd, ids, was, now) && n < |pieces| && n < |was| && OthersKept(now, now', n)
    requires ParseEntry(pieces[n], permsReqd, ids, now[n].perms) == Some(now'[n])
    ensures Stored(pieces, n + 1, permsReqd, ids, was, now')
  {
    hide ParseEntry;
    assert now[n] == now[n..][0] == was[n..][0];
    assert now'[n + 1..] == now[n..][1..] && was[n + 1..] == was[n..][1..];
    assert pieces[..n + 1][..n] == pieces[..n];
    assert now'[..n + 1] == now[..n] + [now'[n]];
  }

  lemma Rejected(pieces: seq<string>, n: nat, permsReqd: bool, ids: Ids, was: seq<Ace>, now: seq<Ace>)
    requires Stored(pieces, n, permsReqd, ids, was, now) && n < |pieces| && n < |was|
    requires ParseEntry(pieces[n], permsReqd, ids, now[n].perms) == None
    ensures |pieces| <= |was| ==> ParseAll(pieces, permsReqd, ids, was) == None
  {
    hide ParseEntry;
    assert now[n] == now[n..][0] == was[n..][0];
    assert pieces[..n + 1][..n] == pieces[..n];
    if |pieces| <= |was| {
      BadEntryStays(pieces, n + 1, permsReqd, ids, was);
    }
  }

  /** What is left of the string. */
  ghost predicate Unread(was: seq<char>, b: seq<char>, next: nat, end: nat) {
    Terminators(was, b) && next <= end < |b| && forall k :: next <= k <= end ==> b[k] == was[k]
  }

  /** One turn of the loop of parseACL(): end the entry at the next comma, if any, and parse it. */
  method ParseNext(buf: array<char>, next: nat, aclist: array<Ace>, n: nat, permsReqd: bool, ids: Ids,
                   ghost b0: seq<char>, ghost end: nat)
    returns (ok: bool, comma: int)
    requires CString(b0, 0, end) && Unread(b0, buf[..], next, end) && n < aclist.Length
    modifies buf, aclist
    ensures comma == Found(IndexOf(b0[next..end], ','), next, end)
    ensures Terminators(b0, buf[..]) && (comma != -1 ==> Unread(b0, buf[..], comma + 1, end))
    ensures OthersKept(old(aclist[..]), aclist[..], n)
    ensures var r := ParseEntry(b0[next..if comma == -1 then end else comma], permsReqd, ids, old(aclist[n]).perms);
            r == if ok then Some(aclist[n]) else None
  {
    hide IndexOf, ParseEntry;
    assert buf[next..end] == b0[next..end];
    comma := StrChr(buf, next, ',', end);
    ghost var stop := if comma == -1 then end else comma;
    if comma != -1 {
      buf[comma] := '\0';
    }
    assert buf[next..stop] == b0[next..stop];
    ok := ParseEntrySpec(buf, next, aclist, n, permsReqd, ids, stop);
  }

  method ParseACL(buf: array<char>, aclist: array<Ace>, permsReqd: bool, ids: Ids, ghost end: nat)
    returns (r: int)
    requires CString(buf[..], 0, end) && aclist.Length == MAX_ENTRIES
    modifies buf, aclist
    ensures Terminators(old(buf[..]), buf[..])
    ensures match ParseAcl(old(buf[..end]), permsReqd, ids, old(aclist[..]))
            case None => r == -1
            case Some(aces) => r == |aces| && aclist[..r] == aces && aclist[r..] == old(aclist[r..])
  {
    hide IndexOf, ParseEntry, ParseAll;
    ghost var b0, was := buf[..], aclist[..];
    ghost var pieces := Pieces(b0[..end]);
    assert b0[..end] == buf[..end] == b0[0..end] && pieces[0..] == pieces;
    StartsEmpty(pieces, permsReqd, ids, was);
    var next, n := 0, 0;
    assert At(pieces, 0, b0, 0, end);
    hide Pieces, Stored, At;
    while true
      invariant Unread(b0, buf[..], next, end)
      invariant n < |pieces| && At(pieces, n, b0, next, end)
      invariant n <= MAX_ENTRIES && Stored(pieces, n, permsReqd, ids, was, aclist[..])
      decreases end - next
    {
      if n >= MAX_ENTRIES { return -1; }
      ghost var now := aclist[..];
      var ok, comma := ParseNext(buf, next, aclist, n, permsReqd, ids, b0, end);
      NextPiece(pieces, n, b0, next, end, comma);
      if !ok {
        Rejected(pieces, n, permsReqd, ids, was, now);
        return -1;
      }
      OneMore(pieces, n, permsReqd, ids, was, now, aclist[..]);
      if comma == -1 { break; }
      next := comma + 1;
      n := n + 1;
    }
    AllStored(pieces, permsReqd, ids, was, aclist[..]);
    return n + 1;
  }

  lemma StartsEmpty(pieces: seq<string>, permsReqd: bool, ids: Ids, was: seq<Ace>)
    ensures Stored(pieces, 0, permsReqd, ids, was, was)
  {
  }

  lemma AllStored(pieces: seq<string>, permsReqd: bool, ids: Ids, was: seq<Ace>, now: seq<Ace>)
    requires Stored(pieces, |pieces|, permsReqd, ids, was, now)
    ensures |pieces| <= |was| == |now| && now[|pieces|..] == was[|pieces|..]
    ensures ParseAll(pieces, permsReqd, ids, was) == Some(now[..|pieces|])
  {
    hide ParseAll;
    assert pieces[..|pieces|] == pieces;
  }
}

/** The text form of access control lists that acl_update.c takes on its command line: the
    entries it stands for, a grammar for it, and the proof that the two agree. */
module AclText {
  import opened Wrappers

  const MAX_ENTRIES: nat := 10000
  const NO_ID: nat := 0xFFFF_FFFF      // -1 as an id_t

  datatype Tag = UserObj | User | GroupObj | Group | Other | Mask

  datatype Perms = Perms(read: bool, write: bool, execute: bool)

  const NONE := Perms(false, false, false)

  datatype Ace = Ace(tag: Tag, qual: nat, perms: Perms)

  /** userIdFromName() and groupIdFromName(); NO_ID for a name they do not know. */
  datatype Ids = Ids(users: string -> nat, groups: string -> nat)

  // ---------------------------------------------------------------------
  // What the parser makes of a text
  // ---------------------------------------------------------------------

  /** Where c first occurs, or the length. */
  function IndexOf(s: string, c: char): (k: nat)
    ensures k <= |s| && c !in s[..k] && (k < |s| ==> s[k] == c)
  {
    if s == [] || s[0] == c then 0
    else
      var k := IndexOf(s[1..], c);
      assert s[..1 + k] == [s[0]] + s[1..][..k];
      1 + k
  }

  lemma {:induction false} IndexIs(s: string, c: char, k: nat)
    requires k <= |s| && c !in s[..k] && (k < |s| ==> s[k] == c)
    ensures IndexOf(s, c) == k
  {
    if k > 0 {
      assert s[..k][0] == s[0];
      assert s[..k] == [s[0]] + s[1..][..k - 1];
      IndexIs(s[1..], c, k - 1);
    }
  }

  /** A text cut at its first two colons. */
  datatype Spelling = Spelling(tag: string, qual: string, perms: string)

  function Cut(s: string): Option<Spelling> {
    var c1 := IndexOf(s, ':');
    if c1 == |s| then None else Some(CutRest(s[..c1], s[c1 + 1..], IndexOf(s[c1 + 1..], ':')))
  }

  function CutRest(tag: string, rest: string, c2: nat): Spelling
    requires c2 <= |rest|
  {
    Spelling(tag, rest[..c2], if c2 < |rest| then rest[c2 + 1..] else "")
  }

  predicate Means(tag: string, short: string, long: string) {
    tag == short || tag == long
  }

  function TagOf(tag: string, hasQual: bool): Option<Tag> {
    if Means(tag, "u", "user") then Some(if hasQual then User else UserObj)
    else if Means(tag, "g", "group") then Some(if hasQual then Group else GroupObj)
    else if Means(tag, "o", "other") then Some(Other)
    else if Means(tag, "m", "mask") then Some(Mask)
    else None
  }

  predicate PermChar(c: char) {
    c == 'r' || c == 'w' || c == 'x' || c == '-'
  }

  function PermsOf(p: string): Option<Perms> {
    if forall k :: 0 <= k < |p| ==> PermChar(p[k]) then Some(Perms('r' in p, 'w' in p, 'x' in p)) else None
  }

  function QualOf(tag: Tag, qual: string, ids: Ids): nat {
    match tag
    case User => ids.users(qual)
    case Group => ids.groups(qual)
    case _ => 0
  }

  /** What the parts stand for; where no permissions are given, those already in the structure stay. */
  function Meaning(sp: Spelling, permsReqd: bool, ids: Ids, stale: Perms): Option<Ace> {
    if (sp.perms != "") != permsReqd then None
    else
      match TagOf(sp.tag, sp.qual != "")
      case None => None
      case Some(tag) =>
        var q := QualOf(tag, sp.qual, ids);
        if (tag == User || tag == Group) && q == NO_ID then None
        else if !permsReqd then Some(Ace(tag, q, stale))
        else
          match PermsOf(sp.perms)
          case None => None
          case Some(p) => Some(Ace(tag, q, p))
  }

  function ParseEntry(s: string, permsReqd: bool, ids: Ids, stale: Perms): Option<Ace> {
    match Cut(s)
    case None => None
    case Some(sp) => Meaning(sp, permsReqd, ids, stale)
  }

  /** The text between commas. */
  function Pieces(s: string): (r: seq<string>)
    ensures |r| >= 1
  {
    var k := IndexOf(s, ',');
    if k == |s| then [s] else [s[..k]] + Pieces(s[k + 1..])
  }

  function ParseAll(pieces: seq<string>, permsReqd: bool, ids: Ids, stale: seq<Ace>): (r: Option<seq<Ace>>)
    requires |stale| >= |pieces|
    ensures r.Some? ==> |r.value| == |pieces|
  {
    if pieces == [] then Some([])
    else
      var n := |pieces| - 1;
      var before := ParseAll(pieces[..n], permsReqd, ids, stale);
      var last := ParseEntry(pieces[n], permsReqd, ids, stale[n].perms);
      if before.Some? && last.Some? then Some(before.value + [last.value]) else None
  }

  function ParseAcl(s: string, permsReqd: bool, ids: Ids, stale: seq<Ace>): Option<seq<Ace>>
    requires |stale| == MAX_ENTRIES
  {
    if |Pieces(s)| > MAX_ENTRIES then None else ParseAll(Pieces(s), permsReqd, ids, stale)
  }

  // ---------------------------------------------------------------------
  // The grammar
  // ---------------------------------------------------------------------

  function Text(sp: Spelling): string {
    sp.tag + ":" + sp.qual + ":" + sp.perms
  }

  /** The tag, in either form, and the qualifier name the tag and qualifier of an entry. */
  ghost predicate Names(tag: string, qual: string, a: Ace, ids: Ids) {
    match a.tag
    case UserObj => tag in {"u", "user"} && qual == "" && a.qual == 0
    case User => tag in {"u", "user"} && qual != "" && a.qual == ids.users(qual) != NO_ID
    case GroupObj => tag in {"g", "group"} && qual == "" && a.qual == 0
    case Group => tag in {"g", "group"} && qual != "" && a.qual == ids.groups(qual) != NO_ID
    case Other => tag in {"o", "other"} && a.qual == 0
    case Mask => tag in {"m", "mask"} && a.qual == 0
  }

  /** The texts that name an entry: either form of the tag, any name of the user or group, the
      permission letters in any order and number, with dashes at will. */
  ghost predicate Spells(sp: Spelling, a: Ace, ids: Ids) {
    && ':' !in sp.qual && sp.perms != "" && Names(sp.tag, sp.qual, a, ids)
    && (forall k :: 0 <= k < |sp.perms| ==> sp.perms[k] in {'r', 'w', 'x', '-'})
    && a.perms == Perms('r' in sp.perms, 'w' in sp.perms, 'x' in sp.perms)
  }

  lemma TagsDiffer(tag: string)
    ensures Means(tag, "g", "group") || Means(tag, "o", "other") || Means(tag, "m", "mask")
            ==> !Means(tag, "u", "user")
    ensures Means(tag, "o", "other") || Means(tag, "m", "mask") ==> !Means(tag, "g", "group")
    ensures Means(tag, "m", "mask") ==> !Means(tag, "o", "other")
    ensures Means(tag, "u", "user") || Means(tag, "g", "group") || Means(tag, "o", "other") || Means(tag, "m", "mask")
            ==> ':' !in tag
    ensures Means(tag, "u", "user") <==> tag in {"u", "user"}
    ensures Means(tag, "g", "group") <==> tag in {"g", "group"}
    ensures Means(tag, "o", "other") <==> tag in {"o", "other"}
    ensures Means(tag, "m", "mask") <==> tag in {"m", "mask"}
  {
    if |tag| > 0 {
      var c := tag[0];
      assert Means(tag, "u", "user") ==> c == 'u';
      assert Means(tag, "g", "group") ==> c == 'g';
      assert Means(tag, "o", "other") ==> c == 'o';
      assert Means(tag, "m", "mask") ==> c == 'm';
    }
  }

  lemma MeaningIff(sp: Spelling, ids: Ids, stale: Perms, a: Ace)
    requires ':' !in sp.qual
    ensures Meaning(sp, true, ids, stale) == Some(a) <==> Spells(sp, a, ids)
  {
    TagsDiffer(sp.tag);
    hide Means;
  }

  /** Where the first separator of two joined texts is. */
  lemma SplitAt(p: string, c: char, rest: string)
    requires c !in p
    ensures var t := p + [c] + rest;
            IndexOf(t, c) == |p| && t[..|p|] == p && t[|p| + 1..] == rest
  {
    var t := p + [c] + rest;
    assert t[..|p|] == p && t[|p|] == c;
    IndexIs(t, c, |p|);
  }

  lemma CutOfText(sp: Spelling)
    requires ':' !in sp.tag && ':' !in sp.qual
    ensures Cut(Text(sp)) == Some(sp)
  {
    hide IndexOf;
    var rest := sp.qual + ":" + sp.perms;
    SplitAt(sp.tag, ':', rest);
    SplitAt(sp.qual, ':', sp.perms);
    assert Text(sp) == sp.tag + ":" + rest;
  }

  lemma TextOfCut(s: string)
    requires Cut(s).Some?
    ensures var sp := Cut(s).value;
            ':' !in sp.tag && ':' !in sp.qual && (sp.perms != "" ==> Text(sp) == s)
  {
    hide IndexOf;
    var c1 := IndexOf(s, ':');
    var rest := s[c1 + 1..];
    var c2 := IndexOf(rest, ':');
    if c2 < |rest| {
      Rejoined(s, c1, c2);
    }
  }

  lemma Rejoined(s: string, c1: nat, c2: nat)
    requires c1 < |s| && c2 < |s[c1 + 1..]| && s[c1] == ':' && s[c1 + 1..][c2] == ':'
    ensures Text(Spelling(s[..c1], s[c1 + 1..][..c2], s[c1 + 1..][c2 + 1..])) == s
  {
  }

  lemma SpellingParses(sp: Spelling, a: Ace, ids: Ids, stale: Perms)
    requires Spells(sp, a, ids)
    ensures ParseEntry(Text(sp), true, ids, stale) == Some(a)
  {
    MeaningIff(sp, ids, stale, a);
    TagsDiffer(sp.tag);
    hide Means;
    CutOfText(sp);
    hide Meaning, Cut, Text;
  }

  lemma ParsedIsSpelling(s: string, ids: Ids, stale: Perms, a: Ace)
    requires ParseEntry(s, true, ids, stale) == Some(a)
    ensures Cut(s).Some? && Text(Cut(s).value) == s && Spells(Cut(s).value, a, ids)
  {
    hide Cut, Text, Spells;
    var sp := Cut(s).value;
    TextOfCut(s);
    MeaningIff(sp, ids, stale, a);
  }

  /** The parser accepts a text as an entry if and only if the text spells that entry. */
  lemma EntryIff(s: string, ids: Ids, stale: Perms, a: Ace)
    ensures ParseEntry(s, true, ids, stale) == Some(a)
       <==> exists sp :: Text(sp) == s && Spells(sp, a, ids)
  {
    if ParseEntry(s, true, ids, stale) == Some(a) {
      ParsedIsSpelling(s, ids, stale, a);
    }
    forall sp | Text(sp) == s && Spells(sp, a, ids) ensures ParseEntry(s, true, ids, stale) == Some(a) {
      SpellingParses(sp, a, ids, stale);
    }
  }

  /** The text of an entry without permissions, with or without a second colon. */
  function ShortText(tag: string, qual: string, colon: bool): string {
    tag + ":" + qual + if colon then ":" else ""
  }

  lemma ShortMeaningIff(sp: Spelling, ids: Ids, stale: Perms, a: Ace)
    ensures Meaning(sp, false, ids, stale) == Some(a)
       <==> sp.perms == "" && a.perms == stale && Names(sp.tag, sp.qual, a, ids)
  {
    TagsDiffer(sp.tag);
    hide Means;
  }

  lemma CutOfShort(tag: string, qual: string, colon: bool)
    requires ':' !in tag && ':' !in qual
    ensures Cut(ShortText(tag, qual, colon)) == Some(Spelling(tag, qual, ""))
  {
    if colon {
      CutOfText(Spelling(tag, qual, ""));
      assert ShortText(tag, qual, true) == Text(Spelling(tag, qual, ""));
    } else {
      SplitAt(tag, ':', qual);
      assert qual[..|qual|] == qual;
      IndexIs(qual, ':', |qual|);
      assert ShortText(tag, qual, false) == tag + ":" + qual;
      hide IndexOf;
    }
  }

  lemma ShortOfCut(s: string)
    requires Cut(s).Some? && Cut(s).value.perms == ""
    ensures exists colon :: s == ShortText(Cut(s).value.tag, Cut(s).value.qual, colon)
  {
    hide IndexOf;
    var c1 := IndexOf(s, ':');
    var rest := s[c1 + 1..];
    var c2 := IndexOf(rest, ':');
    assert s == s[..c1] + ":" + rest;
    if c2 < |rest| {
      assert rest == rest[..c2] + ":";
      assert s == ShortText(s[..c1], rest[..c2], true);
    } else {
      assert rest[..c2] == rest;
      assert s == ShortText(s[..c1], rest, false);
    }
  }

  /** Where permissions must not be given: accepted if and only if the text is tag, colon and
      qualifier, with at most one more colon; the permissions stay what they were. */
  lemma ShortEntryIff(s: string, ids: Ids, stale: Perms, a: Ace)
    ensures ParseEntry(s, false, ids, stale) == Some(a)
       <==> exists tag, qual, colon ::
              s == ShortText(tag, qual, colon) && ':' !in qual && a.perms == stale && Names(tag, qual, a, ids)
  {
    if ParseEntry(s, false, ids, stale) == Some(a) {
      ShortMeaningIff(Cut(s).value, ids, stale, a);
      TextOfCut(s);
      ShortOfCut(s);
      hide Cut, Meaning;
    }
    forall tag, qual, colon |
        s == ShortText(tag, qual, colon) && ':' !in qual && a.perms == stale && Names(tag, qual, a, ids)
      ensures ParseEntry(s, false, ids, stale) == Some(a)
    {
      ShortParses(tag, qual, colon, a, ids);
    }
  }

  lemma ShortParses(tag: string, qual: string, colon: bool, a: Ace, ids: Ids)
    requires ':' !in qual && Names(tag, qual, a, ids)
    ensures ParseEntry(ShortText(tag, qual, colon), false, ids, a.perms) == Some(a)
  {
    TagsDiffer(tag);
    ShortMeaningIff(Spelling(tag, qual, ""), ids, a.perms, a);
    hide Means;
    CutOfShort(tag, qual, colon);
    hide Cut, Meaning, ShortText;
  }

  // ---------------------------------------------------------------------
  // Lists
  // ---------------------------------------------------------------------

  function Joined(texts: seq<string>): string
    requires texts != []
  {
    if |texts| == 1 then texts[0] else texts[0] + "," + Joined(texts[1..])
  }

  ghost predicate NoCommas(texts: seq<string>) {
    forall k :: 0 <= k < |texts| ==> ',' !in texts[k]
  }

  lemma JoinedCons(p: string, ps: seq<string>)
    requires ps != [] && ',' !in p && NoCommas(ps)
    ensures Joined([p] + ps) == p + "," + Joined(ps) && NoCommas([p] + ps)
  {
    assert ([p] + ps)[1..] == ps;
  }

  lemma PiecesCons(p: string, s: string)
    requires ',' !in p
    ensures Pieces(p + "," + s) == [p] + Pieces(s)
  {
    hide IndexOf;
    SplitAt(p, ',', s);
  }

  lemma PiecesOfOne(p: string)
    requires ',' !in p
    ensures Pieces(p) == [p]
  {
    assert p[..|p|] == p;
    IndexIs(p, ',', |p|);
    hide IndexOf;
  }

  lemma {:induction false} PiecesOfJoined(texts: seq<string>)
    requires texts != [] && NoCommas(texts)
    ensures Pieces(Joined(texts)) == texts
  {
    hide Pieces;
    if |texts| == 1 {
      PiecesOfOne(texts[0]);
    } else {
      PiecesOfJoined(texts[1..]);
      PiecesCons(texts[0], Joined(texts[1..]));
    }
  }

  lemma {:induction false} JoinedPieces(s: string)
    ensures Joined(Pieces(s)) == s && NoCommas(Pieces(s))
    decreases |s|
  {
    hide IndexOf;
    var k := IndexOf(s, ',');
    if k == |s| {
      assert s[..k] == s;
    } else {
      JoinedPieces(s[k + 1..]);
      JoinedCons(s[..k], Pieces(s[k + 1..]));
      assert s == s[..k] + "," + s[k + 1..];
      assert Pieces(s) == [s[..k]] + Pieces(s[k + 1..]);
      hide Pieces, Joined, NoCommas;
    }
  }

  ghost predicate SpellsText(s: string, a: Ace, ids: Ids) {
    exists sp :: Text(sp) == s && Spells(sp, a, ids)
  }

  ghost predicate ShortSpells(s: string, a: Ace, ids: Ids) {
    exists tag, qual, colon :: s == ShortText(tag, qual, colon) && ':' !in qual && Names(tag, qual, a, ids)
  }

  /** A text of an entry, in the form that is asked for; without permissions they stay what they
      were. */
  ghost predicate EntryText(s: string, a: Ace, permsReqd: bool, ids: Ids, stale: Perms) {
    if permsReqd then SpellsText(s, a, ids) else ShortSpells(s, a, ids) && a.perms == stale
  }

  lemma EntryTextIff(s: string, permsReqd: bool, ids: Ids, stale: Perms, a: Ace)
    ensures ParseEntry(s, permsReqd, ids, stale) == Some(a) <==> EntryText(s, a, permsReqd, ids, stale)
  {
    hide ParseEntry, Spells, Text, ShortText, Names;
    if permsReqd {
      EntryIff(s, ids, stale, a);
    } else {
      ShortEntryIff(s, ids, stale, a);
    }
  }

  /** Every text in a list is one of the entry at its place. */
  ghost predicate AllTexts(texts: seq<string>, aces: seq<Ace>, permsReqd: bool, ids: Ids, stale: seq<Ace>) {
    && |texts| == |aces| <= |stale|
    && forall k :: 0 <= k < |texts| ==> EntryText(texts[k], aces[k], permsReqd, ids, stale[k].perms)
  }

  lemma {:induction false} AllIff(texts: seq<string>, permsReqd: bool, ids: Ids, stale: seq<Ace>, aces: seq<Ace>)
    requires |stale| >= |texts|
    ensures ParseAll(texts, permsReqd, ids, stale) == Some(aces) <==> AllTexts(texts, aces, permsReqd, ids, stale)
  {
    hide ParseEntry, EntryText;
    if |aces| == |texts| > 0 {
      var n := |texts| - 1;
      AllIff(texts[..n], permsReqd, ids, stale, aces[..n]);
      EntryTextIff(texts[n], permsReqd, ids, stale[n].perms, aces[n]);
      ParseAllLast(texts, permsReqd, ids, stale, aces);
      AllTextsLast(texts, aces, permsReqd, ids, stale);
      hide ParseAll, AllTexts;
    }
  }

  lemma ParseAllLast(texts: seq<string>, permsReqd: bool, ids: Ids, stale: seq<Ace>, aces: seq<Ace>)
    requires |stale| >= |texts| == |aces| > 0
    ensures var n := |texts| - 1;
            (ParseAll(texts, permsReqd, ids, stale) == Some(aces)
             <==> ParseAll(texts[..n], permsReqd, ids, stale) == Some(aces[..n])
                  && ParseEntry(texts[n], permsReqd, ids, stale[n].perms) == Some(aces[n]))
  {
    hide ParseEntry;
    var n := |texts| - 1;
    assert aces == aces[..n] + [aces[n]];
    var before := ParseAll(texts[..n], permsReqd, ids, stale);
    if before.Some? {
      assert forall x: Ace :: (before.value + [x])[..n] == before.value;
    }
  }

  lemma AllTextsLast(texts: seq<string>, aces: seq<Ace>, permsReqd: bool, ids: Ids, stale: seq<Ace>)
    requires |stale| >= |texts| == |aces| > 0
    ensures var n := |texts| - 1;
            (AllTexts(texts, aces, permsReqd, ids, stale)
             <==> AllTexts(texts[..n], aces[..n], permsReqd, ids, stale)
                  && EntryText(texts[n], aces[n], permsReqd, ids, stale[n].perms))
  {
    hide EntryText;
    var n := |texts| - 1;
    if AllTexts(texts[..n], aces[..n], permsReqd, ids, stale)
       && EntryText(texts[n], aces[n], permsReqd, ids, stale[n].perms) {
      forall k | 0 <= k < |texts| ensures EntryText(texts[k], aces[k], permsReqd, ids, stale[k].perms) {
        assert k < n ==> EntryText(texts[..n][k], aces[..n][k], permsReqd, ids, stale[k].perms);
      }
    }
  }

  /** A whole list, with permissions or without: accepted with these entries if and only if it is at
      most MAX_ENTRIES texts without commas, each a text of its entry, with commas between them. */
  lemma ListIff(s: string, permsReqd: bool, ids: Ids, stale: seq<Ace>, aces: seq<Ace>)
    requires |stale| == MAX_ENTRIES
    ensures ParseAcl(s, permsReqd, ids, stale) == Some(aces)
       <==> exists texts: seq<string> ::
              && 0 < |texts| <= MAX_ENTRIES && NoCommas(texts)
              && Joined(texts) == s && AllTexts(texts, aces, permsReqd, ids, stale)
  {
    hide AllTexts, ParseAll;
    JoinedPieces(s);
    if |Pieces(s)| <= MAX_ENTRIES {
      AllIff(Pieces(s), permsReqd, ids, stale, aces);
    }
    forall texts: seq<string> |
        && 0 < |texts| <= MAX_ENTRIES && NoCommas(texts)
        && Joined(texts) == s && AllTexts(texts, aces, permsReqd, ids, stale)
      ensures ParseAcl(s, permsReqd, ids, stale) == Some(aces)
    {
      PiecesOfJoined(texts);
    }
  }

  // ---------------------------------------------------------------------
  // Printing and parsing back
  // ---------------------------------------------------------------------

  /** The usual form, given a way to name users and groups. */
  function Canonical(a: Ace, names: Tag -> nat -> string): Spelling {
    var tag := match a.tag
      case UserObj => "u" case User => "u" case GroupObj => "g" case Group => "g"
      case Other => "o" case Mask => "m";
    Spelling(
      tag,
      if a.tag == User || a.tag == Group then names(a.tag)(a.qual) else "",
      [if a.perms.read then 'r' else '-', if a.perms.write then 'w' else '-', if a.perms.execute then 'x' else '-'])
  }

  function Print(aces: seq<Ace>, names: Tag -> nat -> string): string
    requires aces != []
  {
    Joined(seq(|aces|, k requires 0 <= k < |aces| => Text(Canonical(aces[k], names))))
  }

  /** Users and groups are named so that the name leads back to them; nobody else has a qualifier. */
  ghost predicate Wellformed(a: Ace, ids: Ids, names: Tag -> nat -> string) {
    if a.tag == User || a.tag == Group then
      var name := names(a.tag)(a.qual);
      && name != "" && ':' !in name && ',' !in name
      && a.qual == (if a.tag == User then ids.users(name) else ids.groups(name)) != NO_ID
    else a.qual == 0
  }

  lemma CanonicalSpells(a: Ace, ids: Ids, names: Tag -> nat -> string)
    requires Wellformed(a, ids, names)
    ensures Spells(Canonical(a, names), a, ids) && ',' !in Text(Canonical(a, names))
  {
    var sp := Canonical(a, names);
    assert sp.perms[0] == 'r' <==> a.perms.read;
    assert sp.perms[1] == 'w' <==> a.perms.write;
    assert sp.perms[2] == 'x' <==> a.perms.execute;
  }

  lemma RoundTrip(aces: seq<Ace>, ids: Ids, names: Tag -> nat -> string, stale: seq<Ace>)
    requires 1 <= |aces| <= MAX_ENTRIES && |stale| == MAX_ENTRIES
    requires forall k :: 0 <= k < |aces| ==> Wellformed(aces[k], ids, names)
    ensures ParseAcl(Print(aces, names), true, ids, stale) == Some(aces)
  {
    var texts := seq(|aces|, k requires 0 <= k < |aces| => Text(Canonical(aces[k], names)));
    forall k | 0 <= k < |texts| ensures ',' !in texts[k] && SpellsText(texts[k], aces[k], ids) {
      CanonicalSpells(aces[k], ids, names);
    }
    hide SpellsText, ParseAcl, Wellformed;
    assert AllTexts(texts, aces, true, ids, stale);
    ListIff(Print(aces, names), true, ids, stale, aces);
  }
}

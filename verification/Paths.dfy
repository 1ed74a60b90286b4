/** Pathnames as the inotify cache stores them: a root pathname followed by
    "/name" for every directory on the way down. */
module Paths {

  type Path = string

  /** A directory entry name: never empty, never containing the separator. */
  predicate IsName(n: string) {
    n != "" && '/' !in n
  }

  /** The "%s/%s" of the source. */
  function Join(p: Path, n: string): Path {
    p + "/" + n
  }

  /** The test shared by rewriteCachedPaths and zapSubtree: the first strlen(base)
      characters agree and the next one is a separator or the terminator. */
  predicate AtOrBelow(p: Path, base: Path) {
    base <= p && (|p| == |base| || p[|base|] == '/')
  }

  /** What a rename of the directory `from` to `to` makes of the pathname `p`. */
  function Moved(p: Path, from: Path, to: Path): Path {
    if AtOrBelow(p, from) then to + p[|from|..] else p
  }

  // ---------------------------------------------------------------------
  // Reference: a directory as a list of names below a root
  // ---------------------------------------------------------------------

  predicate AreNames(ns: seq<string>) {
    forall n :: n in ns ==> IsName(n)
  }

  function Tail(ns: seq<string>): string {
    if ns == [] then "" else "/" + ns[0] + Tail(ns[1..])
  }

  function Render(root: Path, ns: seq<string>): Path {
    root + Tail(ns)
  }

  lemma {:induction false} TailAppend(xs: seq<string>, ys: seq<string>)
    ensures Tail(xs + ys) == Tail(xs) + Tail(ys)
  {
    if xs == [] {
      assert xs + ys == ys;
    } else {
      assert (xs + ys)[1..] == xs[1..] + ys;
      TailAppend(xs[1..], ys);
    }
  }

  lemma TailHead(ns: seq<string>)
    ensures Tail(ns) == "" || Tail(ns)[0] == '/'
    ensures Tail(ns) == "" <==> ns == []
  {
  }

  /** Two names that differ are told apart before the separator that follows them. */
  lemma NamesSeparate(x: string, s: string, y: string, t: string)
    requires IsName(x) && IsName(y) && x != y
    requires s == "" || s[0] == '/'
    requires t == "" || t[0] == '/'
    ensures !AtOrBelow("/" + y + t, "/" + x + s)
  {
    var l, r := "/" + x + s, "/" + y + t;
    if |x| < |y| {
      assert r[1 + |x|] == y[|x|];
      assert s != "" ==> l[1 + |x|] == '/';
    } else if |y| < |x| {
      assert l[1 + |y|] == x[|y|];
      assert t != "" ==> r[1 + |y|] == '/';
    } else {
      assert l[1..1 + |x|] == x && r[1..1 + |x|] == y;
    }
  }

  lemma SamePrefix(h: string, t: string, s: string)
    ensures AtOrBelow(h + t, h + s) <==> AtOrBelow(t, s)
  {
    assert (h + t)[|h|..] == t && (h + s)[|h|..] == s;
  }

  lemma {:induction false} TailOrder(xs: seq<string>, ys: seq<string>)
    requires AreNames(xs) && AreNames(ys)
    ensures AtOrBelow(Tail(ys), Tail(xs)) <==> xs <= ys
  {
    if xs == [] {
      TailHead(ys);
    } else if ys != [] {
      var s, t := Tail(xs[1..]), Tail(ys[1..]);
      TailHead(xs[1..]);
      TailHead(ys[1..]);
      TailOrder(xs[1..], ys[1..]);
      assert xs == [xs[0]] + xs[1..] && ys == [ys[0]] + ys[1..];
      if xs[0] == ys[0] {
        var h := "/" + xs[0];
        assert Tail(xs) == h + s && Tail(ys) == h + t;
        SamePrefix(h, t, s);
      } else {
        NamesSeparate(xs[0], s, ys[0], t);
      }
    }
  }

  /** The string test recognises exactly the directory itself and its descendants:
      a sibling whose name merely starts with the same characters is never taken. */
  lemma AtOrBelowIsDescent(root: Path, xs: seq<string>, ys: seq<string>)
    requires AreNames(xs) && AreNames(ys)
    ensures AtOrBelow(Render(root, ys), Render(root, xs)) <==> xs <= ys
  {
    TailOrder(xs, ys);
    SamePrefix(root, Tail(ys), Tail(xs));
  }

  lemma RenderAppend(root: Path, xs: seq<string>, zs: seq<string>)
    ensures Render(root, xs + zs) == Render(root, xs) + Tail(zs)
  {
    TailAppend(xs, zs);
  }

  /** Rewriting the string moves the directory: names above are replaced, names
      below are kept. */
  lemma MovedIsTreeMove(root: Path, xs: seq<string>, ys: seq<string>, root': Path, ws: seq<string>)
    requires AreNames(xs) && AreNames(ys)
    ensures Moved(Render(root, ys), Render(root, xs), Render(root', ws)) ==
            if xs <= ys then Render(root', ws + ys[|xs|..]) else Render(root, ys)
  {
    AtOrBelowIsDescent(root, xs, ys);
    if xs <= ys {
      var zs := ys[|xs|..];
      assert ys == xs + zs;
      RenderAppend(root, xs, zs);
      RenderAppend(root', ws, zs);
    }
  }

  // ---------------------------------------------------------------------
  // Laws of the string operations
  // ---------------------------------------------------------------------

  lemma MovedLandsBelow(p: Path, from: Path, to: Path)
    requires AtOrBelow(p, from)
    ensures AtOrBelow(Moved(p, from, to), to)
  {
  }

  /** A move is injective on pathnames none of which was below the target. */
  lemma MovedInjective(p: Path, q: Path, from: Path, to: Path)
    requires Moved(p, from, to) == Moved(q, from, to)
    requires !AtOrBelow(p, to) || AtOrBelow(p, from)
    requires !AtOrBelow(q, to) || AtOrBelow(q, from)
    ensures p == q
  {
    if AtOrBelow(p, from) && AtOrBelow(q, from) {
      var m := Moved(p, from, to);
      assert p[|from|..] == m[|to|..] == q[|from|..];
      assert p == from + p[|from|..] && q == from + q[|from|..];
    } else if AtOrBelow(p, from) {
      MovedLandsBelow(p, from, to);
    } else if AtOrBelow(q, from) {
      MovedLandsBelow(q, from, to);
    }
  }

  /** The inverse rename restores every pathname that was not below the target. */
  lemma MovedBack(p: Path, from: Path, to: Path)
    requires !AtOrBelow(p, to) || AtOrBelow(p, from)
    ensures Moved(Moved(p, from, to), to, from) == p
  {
    if AtOrBelow(p, from) {
      MovedLandsBelow(p, from, to);
      assert Moved(p, from, to)[|to|..] == p[|from|..];
      assert p == from + p[|from|..];
    }
  }
}

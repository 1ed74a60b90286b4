/** The two wrapText functions: words are put on a line as long as they fit. */
module WrapText {

  // ---------------------------------------------------------------------
  // Words
  // ---------------------------------------------------------------------

  predicate IsSpace(c: char) {
    c in {' ', '\t', '\n', '\r', '\U{0B}', '\U{0C}'}
  }

  predicate IsWord(w: string) {
    w != "" && forall i :: 0 <= i < |w| ==> !IsSpace(w[i])
  }

  predicate Blank(s: string) {
    forall i :: 0 <= i < |s| ==> IsSpace(s[i])
  }

  /** Where the word at the start of `s` ends. */
  function WordEnd(s: string): (k: nat)
    ensures k <= |s| && (forall i :: 0 <= i < k ==> !IsSpace(s[i])) && (k < |s| ==> IsSpace(s[k]))
  {
    if s == "" || IsSpace(s[0]) then 0 else 1 + WordEnd(s[1..])
  }

  /** strings.Fields. */
  function Fields(s: string): (ws: seq<string>)
    ensures forall w :: w in ws ==> IsWord(w)
    decreases |s|
  {
    if s == "" then []
    else if IsSpace(s[0]) then Fields(s[1..])
    else
      var k := WordEnd(s);
      [s[..k]] + Fields(s[k..])
  }

  lemma {:induction false} FieldsOfGap(gap: string, w: string)
    requires Blank(gap) && IsWord(w)
    ensures Fields(gap + w) == [w]
  {
    if gap == "" {
      assert gap + w == w && WordEnd(w) == |w|;
      assert w[..|w|] == w && w[|w|..] == "";
    } else {
      assert (gap + w)[1..] == gap[1..] + w;
      FieldsOfGap(gap[1..], w);
    }
  }

  /** A word added after white space is one more field. */
  lemma {:induction false} FieldsAppend(s: string, gap: string, w: string)
    requires gap != "" && Blank(gap) && IsWord(w)
    ensures Fields(s + gap + w) == Fields(s) + [w]
    decreases |s|
  {
    var t := s + gap + w;
    if s == "" {
      assert t == gap + w;
      FieldsOfGap(gap, w);
    } else if IsSpace(s[0]) {
      assert t[1..] == s[1..] + gap + w;
      FieldsAppend(s[1..], gap, w);
    } else {
      var k := WordEnd(s);
      assert t[k] == if k < |s| then s[k] else gap[0];
      assert WordEnd(t) == k;
      assert t[..k] == s[..k] && t[k..] == s[k..] + gap + w;
      FieldsAppend(s[k..], gap, w);
    }
  }

  // ---------------------------------------------------------------------
  // Lines
  // ---------------------------------------------------------------------

  type Line = seq<string>

  function Width(l: Line): int {
    if l == [] then -1 else Width(l[..|l| - 1]) + 1 + |l[|l| - 1]|
  }

  function Words(ls: seq<Line>): seq<string> {
    if ls == [] then [] else Words(ls[..|ls| - 1]) + ls[|ls| - 1]
  }

  /** The width available on line i: the first line may have less than the others. */
  function Budget(first: int, rest: int, i: nat): int {
    if i == 0 then first else rest
  }

  predicate Fits(l: Line, budget: int) {
    |l| == 1 || (|l| > 1 && Width(l) <= budget)
  }

  /** An admissible way of breaking words into lines. */
  predicate Breaking(ls: seq<Line>, words: seq<string>, first: int, rest: int) {
    Words(ls) == words && forall i :: 0 <= i < |ls| ==> Fits(ls[i], Budget(first, rest, i))
  }

  /** One round of the loop: the word goes on the last line if it fits there. */
  function Place(ls: seq<Line>, w: string, first: int, rest: int): seq<Line>
    requires ls != []
  {
    var n := |ls| - 1;
    if Width(ls[n]) + |w| + 1 > Budget(first, rest, n) then ls + [[w]] else ls[..n] + [ls[n] + [w]]
  }

  predicate Overflows(ls: seq<Line>, w: string, first: int, rest: int)
    requires ls != []
  {
    Width(ls[|ls| - 1]) + |w| + 1 > Budget(first, rest, |ls| - 1)
  }

  function Greedy(words: seq<string>, first: int, rest: int): (ls: seq<Line>)
    ensures words != [] ==> ls != []
  {
    if words == [] then []
    else if |words| == 1 then [[words[0]]]
    else Place(Greedy(words[..|words| - 1], first, rest), words[|words| - 1], first, rest)
  }

  lemma WidthSnoc(l: Line, w: string)
    ensures Width(l + [w]) == Width(l) + 1 + |w|
  {
    assert (l + [w])[..|l|] == l;
  }

  lemma WidthOfOne(w: string)
    ensures Width([w]) == |w|
  {
    WidthSnoc([], w);
    assert [] + [w] == [w];
  }

  lemma WidthAtLeast(l: Line)
    requires l != []
    ensures Width(l) >= |l[|l| - 1]|
  {
    var m := l[..|l| - 1];
    if m != [] {
      WidthAtLeast(m);
    }
  }

  /** The lines and the width of the last one after a word has been placed. */
  lemma PlaceWidth(ls: seq<Line>, w: string, first: int, rest: int)
    requires ls != []
    ensures var ls' := Place(ls, w, first, rest);
            && |ls'| == (if Overflows(ls, w, first, rest) then |ls| + 1 else |ls|)
            && Width(ls'[|ls'| - 1]) == (if Overflows(ls, w, first, rest) then |w| else Width(ls[|ls| - 1]) + 1 + |w|)
  {
    WidthOfOne(w);
    WidthSnoc(ls[|ls| - 1], w);
  }

  lemma WordsSnoc(ls: seq<Line>, l: Line)
    ensures Words(ls + [l]) == Words(ls) + l
  {
    assert (ls + [l])[..|ls|] == ls;
  }

  lemma PlaceBreaks(ls: seq<Line>, words: seq<string>, w: string, first: int, rest: int)
    requires ls != [] && Breaking(ls, words, first, rest)
    ensures Breaking(Place(ls, w, first, rest), words + [w], first, rest)
  {
    var n := |ls| - 1;
    assert ls == ls[..n] + [ls[n]];
    WordsSnoc(ls[..n], ls[n]);
    WordsSnoc(ls[..n], ls[n] + [w]);
    WordsSnoc(ls, [w]);
    WidthSnoc(ls[n], w);
  }

  /** Greedy wrapping keeps the words in order and every line fits, unless it is one word. */
  lemma {:induction false} GreedyBreaks(words: seq<string>, first: int, rest: int)
    ensures Breaking(Greedy(words, first, rest), words, first, rest)
  {
    if |words| == 1 {
      WordsSnoc([], [words[0]]);
      assert [] + [[words[0]]] == [[words[0]]];
    } else if |words| > 1 {
      var n := |words| - 1;
      GreedyBreaks(words[..n], first, rest);
      PlaceBreaks(Greedy(words[..n], first, rest), words[..n], words[n], first, rest);
      assert words == words[..n] + [words[n]];
    }
  }

  // ---------------------------------------------------------------------
  // No breaking uses fewer lines
  // ---------------------------------------------------------------------

  /** Fewer lines, or as many and a last line that is no longer. */
  predicate NoWorse(a: seq<Line>, b: seq<Line>) {
    a != [] && b != [] &&
    (|a| < |b| || (|a| == |b| && Width(a[|a| - 1]) <= Width(b[|b| - 1])))
  }

  /** A breaking without its last word. */
  function Unplace(ls: seq<Line>): seq<Line>
    requires ls != [] && ls[|ls| - 1] != []
  {
    var n := |ls| - 1;
    var l := ls[n];
    if |l| == 1 then ls[..n] else ls[..n] + [l[..|l| - 1]]
  }

  lemma UnplaceBreaks(ls: seq<Line>, words: seq<string>, w: string, first: int, rest: int)
    requires Breaking(ls, words + [w], first, rest)
    ensures ls != [] && ls[|ls| - 1] != []
    ensures ls[|ls| - 1][|ls[|ls| - 1]| - 1] == w
    ensures Breaking(Unplace(ls), words, first, rest)
  {
    var n := |ls| - 1;
    var l := ls[n];
    assert ls == ls[..n] + [l];
    WordsSnoc(ls[..n], l);
    var all := words + [w];
    assert all[|all| - 1] == w && all[..|all| - 1] == words;
    assert l[|l| - 1] == all[|all| - 1];
    if |l| == 1 {
      assert Words(ls[..n]) == words;
    } else {
      var l' := l[..|l| - 1];
      assert l == l' + [w];
      WordsSnoc(ls[..n], l');
      assert Words(Unplace(ls)) == words by {
        assert Words(ls[..n]) + l' + [w] == all;
      }
      WidthSnoc(l', w);
    }
  }

  lemma PlaceNoWorse(a: seq<Line>, b: seq<Line>, words: seq<string>, w: string, first: int, rest: int)
    requires words != [] && Breaking(b, words + [w], first, rest)
    requires a != []
    requires b != [] && b[|b| - 1] != [] && NoWorse(a, Unplace(b))
    ensures NoWorse(Place(a, w, first, rest), b)
  {
    hide Width, Words, Place;
    UnplaceBreaks(b, words, w, first, rest);
    PlaceWidth(a, w, first, rest);
    var last := b[|b| - 1];
    assert Fits(last, Budget(first, rest, |b| - 1));
    WidthAtLeast(last);
    if |last| > 1 {
      WidthSnoc(last[..|last| - 1], w);
      assert last == last[..|last| - 1] + [w];
    } else {
      assert last == [w];
    }
  }

  /** Among all admissible breakings of the same words none has fewer lines. */
  lemma {:induction false} GreedyOptimal(words: seq<string>, first: int, rest: int, b: seq<Line>)
    requires words != [] && Breaking(b, words, first, rest)
    ensures NoWorse(Greedy(words, first, rest), b)
  {
    var n := |words| - 1;
    assert words == words[..n] + [words[n]];
    UnplaceBreaks(b, words[..n], words[n], first, rest);
    if n == 0 {
      WidthAtLeast(b[|b| - 1]);
      WidthOfOne(words[0]);
    } else {
      GreedyOptimal(words[..n], first, rest, Unplace(b));
      PlaceNoWorse(Greedy(words[..n], first, rest), b, words[..n], words[n], first, rest);
    }
  }

  // ---------------------------------------------------------------------
  // The text
  // ---------------------------------------------------------------------

  function LineText(l: Line): string {
    if l == [] then "" else if |l| == 1 then l[0] else LineText(l[..|l| - 1]) + " " + l[|l| - 1]
  }

  function Text(ls: seq<Line>, indent: string): string {
    if ls == [] then ""
    else if |ls| == 1 then LineText(ls[0])
    else Text(ls[..|ls| - 1], indent) + "\n" + indent + LineText(ls[|ls| - 1])
  }

  /** The printed width of a line is its width. */
  lemma {:induction false} LineTextWidth(l: Line)
    requires l != []
    ensures |LineText(l)| == Width(l)
  {
    if |l| == 1 {
      assert l == [] + [l[0]];
      WidthSnoc([], l[0]);
    } else {
      LineTextWidth(l[..|l| - 1]);
    }
  }

  lemma TextNewLine(ls: seq<Line>, w: string, indent: string)
    requires ls != []
    ensures Text(ls + [[w]], indent) == Text(ls, indent) + "\n" + indent + w
  {
    assert (ls + [[w]])[..|ls|] == ls;
  }

  lemma TextSameLine(ls: seq<Line>, w: string, indent: string)
    requires ls != [] && ls[|ls| - 1] != []
    ensures var n := |ls| - 1; Text(ls[..n] + [ls[n] + [w]], indent) == Text(ls, indent) + " " + w
  {
    var n := |ls| - 1;
    var l := ls[n];
    assert (l + [w])[..|l|] == l;
    assert LineText(l + [w]) == LineText(l) + " " + w;
    var ls' := ls[..n] + [l + [w]];
    assert ls'[..n] == ls[..n] && ls'[n] == l + [w];
  }

  lemma GreedyLinesFull(words: seq<string>, first: int, rest: int)
    requires words != []
    ensures forall i :: 0 <= i < |Greedy(words, first, rest)| ==> Greedy(words, first, rest)[i] != []
  {
    GreedyBreaks(words, first, rest);
  }

  /** What one round of the loop adds to the text. */
  lemma PlaceText(ls: seq<Line>, w: string, first: int, rest: int, indent: string)
    requires ls != [] && ls[|ls| - 1] != []
    ensures Text(Place(ls, w, first, rest), indent) ==
            if Overflows(ls, w, first, rest) then Text(ls, indent) + "\n" + indent + w else Text(ls, indent) + " " + w
  {
    hide Text, Width;
    TextNewLine(ls, w, indent);
    TextSameLine(ls, w, indent);
  }

  lemma GreedySnoc(words: seq<string>, j: nat, first: int, rest: int)
    requires 1 <= j < |words|
    ensures var ls := Greedy(words[..j], first, rest);
            && ls != [] && ls[|ls| - 1] != []
            && Greedy(words[..j + 1], first, rest) == Place(ls, words[j], first, rest)
  {
    assert words[..j + 1][..j] == words[..j];
    GreedyLinesFull(words[..j], first, rest);
  }

  lemma GreedyOne(words: seq<string>, first: int, rest: int, indent: string)
    requires words != []
    ensures var ls := Greedy(words[..1], first, rest);
            |ls| == 1 && ls[0] == [words[0]] && Width(ls[0]) == |words[0]| && Text(ls, indent) == words[0]
  {
    WidthOfOne(words[0]);
    assert words[..1] == [words[0]];
  }

  /** Reading the wrapped text back gives the words. */
  lemma {:induction false} FieldsOfText(words: seq<string>, n: nat, first: int, rest: int, indent: string)
    requires Blank(indent) && forall w :: w in words ==> IsWord(w)
    requires 1 <= n <= |words|
    ensures Fields(Text(Greedy(words[..n], first, rest), indent)) == words[..n]
  {
    hide Text, Greedy, Place, Width, Fields;
    if n == 1 {
      GreedyOne(words, first, rest, indent);
      FieldsOfGap("", words[0]);
      assert "" + words[0] == words[0];
    } else {
      var w := words[n - 1];
      assert w in words;
      FieldsOfText(words, n - 1, first, rest, indent);
      GreedySnoc(words, n - 1, first, rest);
      var ls := Greedy(words[..n - 1], first, rest);
      PlaceText(ls, w, first, rest, indent);
      var t, gap := Text(ls, indent), "\n" + indent;
      assert t + gap + w == t + "\n" + indent + w;
      FieldsAppend(t, gap, w);
      FieldsAppend(t, " ", w);
      assert words[..n] == words[..n - 1] + [w];
    }
  }

  // ---------------------------------------------------------------------
  // The text, character by character
  // ---------------------------------------------------------------------

  /** The pieces of a text between the occurrences of c. */
  function Split(s: string, c: char): (r: seq<string>)
    ensures r != []
  {
    if s == "" then [""]
    else
      var n := |s| - 1;
      var r := Split(s[..n], c);
      if s[n] == c then r + [""] else r[..|r| - 1] + [r[|r| - 1] + [s[n]]]
  }

  lemma {:induction false} SplitNone(s: string, c: char)
    requires c !in s
    ensures Split(s, c) == [s]
  {
    if s != "" {
      var n := |s| - 1;
      assert s == s[..n] + [s[n]];
      SplitNone(s[..n], c);
    }
  }

  lemma {:induction false} SplitSnoc(s: string, c: char, t: string)
    requires c !in t
    ensures Split(s + [c] + t, c) == Split(s, c) + [t]
    decreases |t|
  {
    var u := s + [c] + t;
    var m := |u| - 1;
    if t == "" {
      assert u[..m] == s;
    } else {
      var n := |t| - 1;
      assert t == t[..n] + [t[n]];
      assert u[..m] == s + [c] + t[..n] && u[m] == t[n];
      SplitSnoc(s, c, t[..n]);
    }
  }

  /** Single spaces separate the words of a line. */
  lemma {:induction false} SplitLine(l: Line)
    requires l != [] && forall w :: w in l ==> IsWord(w)
    ensures Split(LineText(l), ' ') == l && '\n' !in LineText(l)
  {
    hide Split;
    var n := |l| - 1;
    assert l[n] in l && IsWord(l[n]);
    if n == 0 {
      SplitNone(l[0], ' ');
      assert l == [l[0]];
    } else {
      SplitLine(l[..n]);
      SplitSnoc(LineText(l[..n]), ' ', l[n]);
      assert l == l[..n] + [l[n]];
    }
  }

  /** What is printed: one line of text for each line, the first behind `start`, the others behind
      `indent`, with single spaces between the words. */
  ghost predicate Printed(result: string, ls: seq<Line>, start: string, indent: string) {
    var r := Split(result, '\n');
    && |r| == |ls|
    && forall i :: 0 <= i < |ls| ==>
         && r[i] == (if i == 0 then start else indent) + LineText(ls[i])
         && Split(LineText(ls[i]), ' ') == ls[i]
  }

  lemma PrintedSnoc(before: string, ls: seq<Line>, start: string, indent: string, l: Line)
    requires ls != [] && Printed(before, ls, start, indent)
    requires '\n' !in indent && '\n' !in LineText(l) && Split(LineText(l), ' ') == l
    ensures Printed(before + "\n" + (indent + LineText(l)), ls + [l], start, indent)
  {
    SplitSnoc(before, '\n', indent + LineText(l));
    hide Split, LineText;
  }

  lemma {:induction false} PrintedText(ls: seq<Line>, start: string, indent: string)
    requires ls != [] && '\n' !in start && '\n' !in indent
    requires forall i :: 0 <= i < |ls| ==> ls[i] != [] && forall w :: w in ls[i] ==> IsWord(w)
    ensures Printed(start + Text(ls, indent), ls, start, indent)
  {
    hide Split, LineText, IsWord;
    var n := |ls| - 1;
    SplitLine(ls[n]);
    if n == 0 {
      SplitNone(start + LineText(ls[0]), '\n');
    } else {
      hide Printed;
      PrintedText(ls[..n], start, indent);
      PrintedSnoc(start + Text(ls[..n], indent), ls[..n], start, indent, ls[n]);
      assert ls == ls[..n] + [ls[n]];
      assert start + Text(ls, indent) == start + Text(ls[..n], indent) + "\n" + (indent + LineText(ls[n]));
    }
  }

  lemma {:induction false} WordsOfLine(ls: seq<Line>, i: nat, w: string)
    requires i < |ls| && w in ls[i]
    ensures w in Words(ls)
  {
    var n := |ls| - 1;
    if i < n {
      WordsOfLine(ls[..n], i, w);
    }
  }

  lemma GreedyPrinted(words: seq<string>, first: int, rest: int, start: string, indent: string)
    requires words != [] && (forall w :: w in words ==> IsWord(w)) && '\n' !in start && '\n' !in indent
    ensures var ls := Greedy(words, first, rest); Printed(start + Text(ls, indent), ls, start, indent)
  {
    hide Greedy, Words, Printed, Text, IsWord;
    var ls := Greedy(words, first, rest);
    GreedyBreaks(words, first, rest);
    GreedyLinesFull(words, first, rest);
    forall i, w | 0 <= i < |ls| && w in ls[i] ensures IsWord(w) {
      WordsOfLine(ls, i, w);
    }
    PrintedText(ls, start, indent);
  }

  // ---------------------------------------------------------------------
  // The programs
  // ---------------------------------------------------------------------

  /** wrapText of namespaces_of.go. */
  method Wrap(text: string, width: int, indent: string) returns (result: string)
    ensures Fields(text) == [] ==> result == ""
    ensures Fields(text) != [] ==> result == indent + Text(Greedy(Fields(text), width, width), indent)
    ensures Blank(indent) ==> Fields(result) == Fields(text)
    ensures Fields(text) != [] && '\n' !in indent ==> Printed(result, Greedy(Fields(text), width, width), indent, indent)
  {
    hide Text, Greedy, Place, Width, Printed;
    var words := Fields(text);
    if |words| == 0 {
      return "";
    }
    result := indent + words[0];
    var col := |words[0]|;
    GreedyOne(words, width, width, indent);
    ghost var ls := Greedy(words[..1], width, width);
    for j := 1 to |words|
      invariant ls != [] && ls == Greedy(words[..j], width, width)
      invariant result == indent + Text(ls, indent)
      invariant col == Width(ls[|ls| - 1])
    {
      var word := words[j];
      GreedySnoc(words, j, width, width);
      PlaceText(ls, word, width, width, indent);
      PlaceWidth(ls, word, width, width);
      ls := Place(ls, word, width, width);
      if col + |word| + 1 > width {
        result := result + "\n" + indent + word;
        col := |word|;
      } else {
        result := result + " " + word;
        col := col + 1 + |word|;
      }
      assert result == indent + Text(ls, indent);
    }
    assert words[..|words|] == words;
    if Blank(indent) {
      FieldsOfText(words, |words|, width, width, indent);
      SkipBlank(indent, Text(ls, indent));
    }
    if '\n' !in indent {
      GreedyPrinted(words, width, width, indent, indent);
    }
  }

  lemma {:induction false} SkipBlank(indent: string, s: string)
    requires Blank(indent)
    ensures Fields(indent + s) == Fields(s)
  {
    if indent == "" {
      assert indent + s == s;
    } else {
      assert (indent + s)[1..] == indent[1..] + s;
      SkipBlank(indent[1..], s);
    }
  }

  function Spaces(n: nat): (s: string)
    ensures |s| == n && Blank(s) && forall k :: 0 <= k < n ==> s[k] == ' '
  {
    seq(n, _ => ' ')
  }

  /** wrapText of view_v2_cgroups.go: the first line starts with a prefix, the others with as
      many spaces. The prefix is taken off the width and also counted on the first line. */
  method WrapPrefixed(text: string, prefix: string, width: int, indent: string) returns (result: string)
    ensures Fields(text) == [] ==> result == ""
    ensures Fields(text) != [] ==>
              result == indent + prefix + Text(Greedy(Fields(text), width - 2 * |prefix|, width - |prefix|),
                                               indent + Spaces(|prefix|))
    ensures Fields(text) != [] && '\n' !in indent + prefix ==>
              Printed(result, Greedy(Fields(text), width - 2 * |prefix|, width - |prefix|),
                      indent + prefix, indent + Spaces(|prefix|))
  {
    hide Text, Greedy, Place, Width, Fields, Printed;
    var words := Fields(text);
    if |words| == 0 {
      return "";
    }
    result := indent + prefix + words[0];
    var col := |prefix| + |words[0]|;
    var width' := width - |prefix|;
    var indent' := indent + Spaces(|prefix|);
    ghost var first := width - 2 * |prefix|;
    GreedyOne(words, first, width', indent');
    ghost var ls := Greedy(words[..1], first, width');
    for j := 1 to |words|
      invariant ls != [] && ls == Greedy(words[..j], first, width')
      invariant result == indent + prefix + Text(ls, indent')
      invariant col == Width(ls[|ls| - 1]) + if |ls| == 1 then |prefix| else 0
    {
      var word := words[j];
      GreedySnoc(words, j, first, width');
      PlaceText(ls, word, first, width', indent');
      PlaceWidth(ls, word, first, width');
      ls := Place(ls, word, first, width');
      if col + |word| + 1 > width' {
        result := result + "\n" + indent' + word;
        col := |word|;
      } else {
        result := result + " " + word;
        col := col + 1 + |word|;
      }
      assert result == indent + prefix + Text(ls, indent');
    }
    assert words[..|words|] == words;
    if '\n' !in indent + prefix {
      assert '\n' !in indent';
      GreedyPrinted(words, first, width', indent + prefix, indent');
    }
  }

  /** With its prefix or the equal padding counted, every line of more than one word stays
      within the width; and behind the prefix the words are all there. */
  lemma PrefixedLines(text: string, prefix: string, width: int, indent: string)
    requires Fields(text) != []
    ensures var ls := Greedy(Fields(text), width - 2 * |prefix|, width - |prefix|);
            && Words(ls) == Fields(text)
            && (forall i :: 0 <= i < |ls| && |ls[i]| > 1 ==> |prefix| + |LineText(ls[i])| <= width)
            && (Blank(indent) ==> Fields(Text(ls, indent + Spaces(|prefix|))) == Fields(text))
  {
    hide Text, LineText, Greedy, Fields, Words;
    var first, rest := width - 2 * |prefix|, width - |prefix|;
    var ls := Greedy(Fields(text), first, rest);
    GreedyBreaks(Fields(text), first, rest);
    forall i | 0 <= i < |ls| && |ls[i]| > 1 ensures |prefix| + |LineText(ls[i])| <= width {
      LineTextWidth(ls[i]);
    }
    if Blank(indent) {
      FieldsOfText(Fields(text), |Fields(text)|, first, rest, indent + Spaces(|prefix|));
      assert Fields(text)[..|Fields(text)|] == Fields(text);
    }
  }

  /** The unprefixed text: the words, lines within the width, and as few lines as possible. */
  lemma WrappedLines(text: string, width: int, b: seq<Line>)
    requires Fields(text) != []
    ensures var ls := Greedy(Fields(text), width, width);
            && Words(ls) == Fields(text)
            && (forall i :: 0 <= i < |ls| && |ls[i]| > 1 ==> |LineText(ls[i])| <= width)
            && (Breaking(b, Fields(text), width, width) ==> |ls| <= |b|)
  {
    var ls := Greedy(Fields(text), width, width);
    GreedyBreaks(Fields(text), width, width);
    forall i | 0 <= i < |ls| && |ls[i]| > 1 ensures |LineText(ls[i])| <= width {
      LineTextWidth(ls[i]);
    }
    if Breaking(b, Fields(text), width, width) {
      GreedyOptimal(Fields(text), width, width, b);
    }
  }

  // ---------------------------------------------------------------------
  // What counting the prefix twice costs
  // ---------------------------------------------------------------------

  lemma {:induction false} FirstLineShorter(ls: seq<Line>)
    requires |ls| >= 1 && forall i :: 0 <= i < |ls| ==> ls[i] != []
    ensures |ls| == 1 ==> Words(ls) == ls[0]
    ensures |ls| > 1 ==> |ls[0]| < |Words(ls)|
  {
    var n := |ls| - 1;
    if n >= 1 {
      FirstLineShorter(ls[..n]);
    }
  }

  /** All words are on the first line if there is no other; otherwise some are not. */
  lemma FirstOfGreedy(words: seq<string>, first: int, rest: int)
    requires words != []
    ensures var ls := Greedy(words, first, rest);
            if |ls| == 1 then ls[0] == words else |ls[0]| < |words|
  {
    hide Greedy, Words;
    GreedyBreaks(words, first, rest);
    GreedyLinesFull(words, first, rest);
    FirstLineShorter(Greedy(words, first, rest));
  }

  lemma PlaceFirst(ls: seq<Line>, w: string, first: int, rest: int)
    requires ls != []
    ensures Place(ls, w, first, rest)[0] == if |ls| == 1 && !Overflows(ls, w, first, rest) then ls[0] + [w] else ls[0]
    ensures Place(ls, w, first, rest) != []
  {
    hide Width;
  }

  /** The first line takes the first j words if and only if they fit, or are one word. */
  lemma {:induction false} FirstLine(words: seq<string>, first: int, rest: int, j: nat)
    requires 1 <= j <= |words|
    ensures |Greedy(words, first, rest)[0]| >= j <==> j == 1 || Width(words[..j]) <= first
    decreases |words|
  {
    var n := |words| - 1;
    if n > 0 {
      var start, w := words[..n], words[n];
      var ls := Greedy(start, first, rest);
      assert words[..n + 1] == words == start + [w];
      GreedySnoc(words, n, first, rest);
      FirstOfGreedy(start, first, rest);
      PlaceFirst(ls, w, first, rest);
      hide Greedy, Place;
      FirstLine(start, first, rest, if j <= n then j else n);
      assert start[..n] == start && (j <= n ==> start[..j] == words[..j]) && (j > n ==> words[..j] == words);
      WidthSnoc(start, w);
      hide Width;
    }
  }

  /** Some first words, two at least, that fit in g but not in f. */
  ghost predicate FitsOnlyWider(words: seq<string>, f: int, g: int) {
    exists j :: 2 <= j <= |words| && f < Width(words[..j]) <= g
  }

  lemma FewerWords(words: seq<string>, f: int, g: int)
    requires |words| > 1 && !FitsOnlyWider(words, f, g)
    ensures var n := |words| - 1;
            !FitsOnlyWider(words[..n], f, g) && !(f < Width(words[..n]) + 1 + |words[n]| <= g)
  {
    hide Width;
    var n := |words| - 1;
    forall j | 2 <= j <= n ensures !(f < Width(words[..n][..j]) <= g) {
      assert words[..n][..j] == words[..j];
    }
    assert words[..n + 1] == words[..n] + [words[n]];
    WidthSnoc(words[..n], words[n]);
  }

  lemma {:induction false} SameWhenNothingBetween(words: seq<string>, f: int, g: int, rest: int)
    requires f <= g && !FitsOnlyWider(words, f, g)
    ensures Greedy(words, f, rest) == Greedy(words, g, rest)
  {
    var n := |words| - 1;
    if n > 0 {
      FewerWords(words, f, g);
      SameWhenNothingBetween(words[..n], f, g, rest);
      hide FitsOnlyWider, Width;
      FirstOfGreedy(words[..n], f, rest);
    }
  }

  /** A narrower first line makes a difference if and only if some first words fit in the wider one
      only; and it never saves a line. */
  lemma NarrowerFirstLine(words: seq<string>, f: int, g: int, rest: int)
    requires f <= g && words != []
    ensures Greedy(words, f, rest) == Greedy(words, g, rest) <==> !FitsOnlyWider(words, f, g)
    ensures |Greedy(words, g, rest)| <= |Greedy(words, f, rest)|
  {
    hide Greedy, Width;
    if FitsOnlyWider(words, f, g) {
      var j :| 2 <= j <= |words| && f < Width(words[..j]) <= g;
      FirstLine(words, f, rest, j);
      FirstLine(words, g, rest, j);
    } else {
      SameWhenNothingBetween(words, f, g, rest);
    }
    GreedyBreaks(words, f, rest);
    GreedyOptimal(words, g, rest, Greedy(words, f, rest));
  }

  /** So the prefixed text is broken as it would be with the prefix counted once if and only if no
      first words, two at least, need more than the width less two prefixes and at most the width
      less one. */
  lemma PrefixCountedTwice(text: string, prefix: string, width: int)
    requires Fields(text) != []
    ensures var once, twice := width - |prefix|, width - 2 * |prefix|;
            && (Greedy(Fields(text), twice, once) == Greedy(Fields(text), once, once)
                <==> !FitsOnlyWider(Fields(text), twice, once))
            && |Greedy(Fields(text), once, once)| <= |Greedy(Fields(text), twice, once)|
  {
    hide Fields, Greedy, FitsOnlyWider;
    NarrowerFirstLine(Fields(text), width - 2 * |prefix|, width - |prefix|, width - |prefix|);
  }

  /** Two words behind a prefix of two columns fit in a width of six, and are broken all the same. */
  lemma OneLineBecomesTwo()
    ensures Fields("a b") == ["a", "b"]
    ensures Greedy(["a", "b"], 6 - 2 * |"pp"|, 6 - |"pp"|) == [["a"], ["b"]]
    ensures Greedy(["a", "b"], 6 - |"pp"|, 6 - |"pp"|) == [["a", "b"]]
    ensures |"pp"| + |LineText(["a", "b"])| <= 6
  {
    FieldsOfGap("", "a");
    assert "" + "a" == "a" && "a" + " " + "b" == "a b";
    FieldsAppend("a", " ", "b");
    assert ["a"] + ["b"] == ["a", "b"];
    hide Fields;
    WidthOfOne("a");
    WidthSnoc(["a"], "b");
    assert ["a", "b"][..1] == ["a"];
    GreedySnoc(["a", "b"], 1, 2, 4);
    GreedySnoc(["a", "b"], 1, 4, 4);
    assert ["a", "b"][..2] == ["a", "b"];
    hide Width;
    LineTextWidth(["a", "b"]);
  }
}

/**
 Text as Python takes it apart: blanks and line ends over the whole of Unicode, lines, words, and the
 order of strings.
 */
module PythonText {
  import opened Seqs

  predicate IsSpace(c: char) {
    || '\t' <= c <= '\r' || '\U{1c}' <= c <= ' ' || c == '\U{85}' || c == '\U{a0}' || c == '\U{1680}'
    || '\U{2000}' <= c <= '\U{200a}' || c == '\U{2028}' || c == '\U{2029}' || c == '\U{202f}'
    || c == '\U{205f}' || c == '\U{3000}'
  }

  predicate IsLineBreak(c: char) {
    '\n' <= c <= '\r' || '\U{1c}' <= c <= '\U{1e}' || c == '\U{85}' || c == '\U{2028}' || c == '\U{2029}'
  }

  /** The code points of the blanks, and of those among them that end a line. */
  lemma BlanksAre(c: char)
    ensures IsSpace(c) <==>
            c as int in {0x9, 0xa, 0xb, 0xc, 0xd, 0x1c, 0x1d, 0x1e, 0x1f, 0x20, 0x85, 0xa0, 0x1680,
                         0x2000, 0x2001, 0x2002, 0x2003, 0x2004, 0x2005, 0x2006, 0x2007, 0x2008, 0x2009, 0x200a,
                         0x2028, 0x2029, 0x202f, 0x205f, 0x3000}
    ensures IsLineBreak(c) <==>
            c as int in {0xa, 0xb, 0xc, 0xd, 0x1c, 0x1d, 0x1e, 0x85, 0x2028, 0x2029}
  {
  }

  predicate NoSpace(s: string) {
    forall k :: 0 <= k < |s| ==> !IsSpace(s[k])
  }

  /** The length of the line a text starts with. */
  function LineLength(text: string): (n: nat)
    ensures n <= |text|
    ensures forall k :: 0 <= k < n ==> !IsLineBreak(text[k])
    ensures n < |text| ==> IsLineBreak(text[n])
  {
    if text == "" || IsLineBreak(text[0]) then 0 else 1 + LineLength(text[1..])
  }

  /** The length of the line end at an index: a carriage return and line feed is one end. */
  function EndLength(text: string, n: nat): (k: nat)
    requires n < |text|
    ensures 1 <= k && n + k <= |text|
  {
    if text[n] == '\r' && n + 1 < |text| && text[n + 1] == '\n' then 2 else 1
  }

  /** The lines of a text, without their ends. */
  function SplitLines(text: string): seq<string>
    decreases |text|
  {
    var n := LineLength(text);
    if text == "" then []
    else if n == |text| then [text]
    else [text[..n]] + SplitLines(text[n + EndLength(text, n)..])
  }

  function StripLeft(s: string): string {
    if s != "" && IsSpace(s[0]) then StripLeft(s[1..]) else s
  }

  function StripRight(s: string): string {
    if s != "" && IsSpace(s[|s| - 1]) then StripRight(s[..|s| - 1]) else s
  }

  function Strip(s: string): string {
    StripRight(StripLeft(s))
  }

  function WordLength(s: string): (n: nat)
    ensures n <= |s|
    ensures forall k :: 0 <= k < n ==> !IsSpace(s[k])
    ensures n < |s| ==> IsSpace(s[n])
  {
    if s == "" || IsSpace(s[0]) then 0 else 1 + WordLength(s[1..])
  }

  /** The words of a line, however many blanks are between them. */
  function Words(s: string): seq<string>
    decreases |s|
  {
    if s == "" then []
    else if IsSpace(s[0]) then Words(s[1..])
    else [s[..WordLength(s)]] + Words(s[WordLength(s)..])
  }

  lemma {:induction false} WordsAreClean(s: string)
    ensures forall k :: 0 <= k < |Words(s)| ==> Words(s)[k] != "" && NoSpace(Words(s)[k])
    ensures s != "" && !IsSpace(s[0]) ==> Words(s) != [] && Words(s)[0][0] == s[0]
    decreases |s|
  {
    if s == "" {
    } else if IsSpace(s[0]) {
      WordsAreClean(s[1..]);
    } else {
      WordsAreClean(s[WordLength(s)..]);
    }
  }

  lemma {:induction false} StripLeftStarts(s: string)
    ensures StripLeft(s) != "" ==> !IsSpace(StripLeft(s)[0])
    decreases |s|
  {
    if s == "" || !IsSpace(s[0]) {
    } else {
      StripLeftStarts(s[1..]);
    }
  }

  lemma {:induction false} StripRightStarts(s: string)
    ensures StripRight(s) != "" ==> s != "" && StripRight(s)[0] == s[0]
    decreases |s|
  {
    if s == "" || !IsSpace(s[|s| - 1]) {
    } else {
      StripRightStarts(s[..|s| - 1]);
    }
  }

  lemma {:induction false} LineLengthIs(line: string, rest: string)
    requires NoLineBreak(line) && rest != "" && IsLineBreak(rest[0])
    ensures LineLength(line + rest) == |line|
    decreases |line|
  {
    if line == "" {
      JoinEmpty(rest);
    } else {
      LineLengthIs(line[1..], rest);
      DropOfJoin(line, rest, 1);
    }
  }

  predicate NoLineBreak(s: string) {
    forall k :: 0 <= k < |s| ==> !IsLineBreak(s[k])
  }

  /** A text without a line end is one line. */
  lemma SplitLast(line: string)
    requires line != "" && NoLineBreak(line)
    ensures SplitLines(line) == [line]
  {
  }

  /** Any line end ends the first line, */
  lemma SplitAt(line: string, c: char, rest: string)
    requires NoLineBreak(line) && IsLineBreak(c)
    requires !(c == '\r' && rest != "" && rest[0] == '\n')
    ensures SplitLines(line + [c] + rest) == [line] + SplitLines(rest)
  {
    var text := line + [c] + rest;
    JoinAssociates(line, [c], rest);
    LineLengthIs(line, [c] + rest);
    assert text[|line|] == c && text[..|line|] == line && text[|line| + 1..] == rest;
    assert rest != "" ==> text[|line| + 1] == rest[0];
  }

  /** and a carriage return with a line feed is one of them. */
  lemma SplitAtPair(line: string, rest: string)
    requires NoLineBreak(line)
    ensures SplitLines(line + "\r\n" + rest) == [line] + SplitLines(rest)
  {
    var text := line + "\r\n" + rest;
    JoinAssociates(line, "\r\n", rest);
    LineLengthIs(line, "\r\n" + rest);
    assert text[|line|] == '\r' && text[|line| + 1] == '\n';
    assert text[..|line|] == line && text[|line| + 2..] == rest;
  }

  lemma SplitFirstLine(line: string, rest: string)
    requires NoLineBreak(line)
    ensures SplitLines(line + "\n" + rest) == [line] + SplitLines(rest)
  {
    SplitAt(line, '\n', rest);
  }

  lemma {:induction false} LineLengthOfJoin(s: string, t: string)
    requires LineLength(s) < |s|
    ensures LineLength(s + t) == LineLength(s)
    decreases |s|
  {
    if IsLineBreak(s[0]) {
    } else {
      LineLengthOfJoin(s[1..], t);
      DropOfJoin(s, t, 1);
    }
  }

  lemma LineLengthBefore(a: string)
    ensures LineLength(a + "\n") <= |a|
  {
    var n := LineLength(a + "\n");
    if n > |a| {
      assert IsLineBreak((a + "\n")[|a|]);
    }
  }

  lemma SplitOne(text: string, n: nat)
    requires n == LineLength(text) < |text|
    ensures SplitLines(text) == [text[..n]] + SplitLines(text[n + EndLength(text, n)..])
  {
  }

  /** With and without what follows, a text that ends a line has the same first line and line end. */
  lemma FirstEndAlike(a: string, b: string, n: nat)
    requires n == LineLength(a + "\n")
    ensures n <= |a| && n == LineLength(a + "\n" + b)
    ensures (a + "\n" + b)[..n] == (a + "\n")[..n]
    ensures EndLength(a + "\n" + b, n) == EndLength(a + "\n", n)
  {
    LineLengthBefore(a);
    LineLengthOfJoin(a + "\n", b);
  }

  lemma DropBoth(a: string, b: string, k: nat)
    requires k <= |a| + 1
    ensures (a + "\n" + b)[k..] == if k <= |a| then a[k..] + "\n" + b else b
    ensures (a + "\n")[k..] == if k <= |a| then a[k..] + "\n" else ""
  {
  }

  /** A line end that is written separates what is before it from what comes after. */
  lemma {:induction false} SplitJoin(a: string, b: string)
    ensures SplitLines(a + "\n" + b) == SplitLines(a + "\n") + SplitLines(b)
    decreases |a|
  {
    var n := LineLength(a + "\n");
    FirstEndAlike(a, b, n);
    var k := n + EndLength(a + "\n", n);
    SplitOne(a + "\n" + b, n);
    SplitOne(a + "\n", n);
    DropBoth(a, b, k);
    JoinAssociates([(a + "\n")[..n]], SplitLines((a + "\n")[k..]), SplitLines(b));
    if k > |a| {
      JoinEmpty(SplitLines(b));
    } else {
      SplitJoin(a[k..], b);
    }
  }

  lemma {:induction false} WordLengthIs(word: string, rest: string)
    requires NoSpace(word) && (rest == "" || IsSpace(rest[0]))
    ensures WordLength(word + rest) == |word|
    decreases |word|
  {
    if word == "" {
      JoinEmpty(rest);
    } else {
      WordLengthIs(word[1..], rest);
      DropOfJoin(word, rest, 1);
    }
  }

  lemma OneWord(word: string)
    requires word != "" && NoSpace(word)
    ensures Words(word) == [word]
  {
    WordLengthIs(word, "");
    JoinEmpty(word);
    assert word[|word|..] == "" && word[..|word|] == word;
  }

  /** Any blank ends a word. */
  lemma WordAt(word: string, c: char, rest: string)
    requires word != "" && NoSpace(word) && IsSpace(c)
    ensures Words(word + [c] + rest) == [word] + Words(rest)
  {
    var s := word + [c] + rest;
    JoinAssociates(word, [c], rest);
    WordLengthIs(word, [c] + rest);
    assert s[..|word|] == word && s[|word|..] == [c] + rest;
    assert ([c] + rest)[1..] == rest;
  }

  /** Blanks before a word do not count, */
  lemma BlankFirst(c: char, rest: string)
    requires IsSpace(c)
    ensures Words([c] + rest) == Words(rest)
  {
    assert ([c] + rest)[1..] == rest;
  }

  /** nor do blanks after the last. */
  lemma {:induction false} BlankLast(s: string, c: char)
    requires IsSpace(c)
    ensures Words(s + [c]) == Words(s)
    decreases |s|
  {
    if s == "" {
      BlankFirst(c, "");
      JoinEmpty([c]);
    } else if IsSpace(s[0]) {
      BlankLast(s[1..], c);
      DropOfJoin(s, [c], 1);
    } else {
      var n := WordLength(s);
      BlankLast(s[n..], c);
      assert s == s[..n] + s[n..];
      JoinAssociates(s[..n], s[n..], [c]);
      WordLengthIs(s[..n], s[n..] + [c]);
      TakeOfJoin(s, [c], n);
      DropOfJoin(s, [c], n);
    }
  }

  lemma {:induction false} WordsOfStripLeft(s: string)
    ensures Words(StripLeft(s)) == Words(s)
    decreases |s|
  {
    if s == "" || !IsSpace(s[0]) {
    } else {
      WordsOfStripLeft(s[1..]);
    }
  }

  lemma {:induction false} WordsOfStripRight(s: string)
    ensures Words(StripRight(s)) == Words(s)
    decreases |s|
  {
    if s == "" || !IsSpace(s[|s| - 1]) {
    } else {
      WordsOfStripRight(s[..|s| - 1]);
      BlankLast(s[..|s| - 1], s[|s| - 1]);
      assert s == s[..|s| - 1] + [s[|s| - 1]];
    }
  }

  /** Stripping a text does not change its words. */
  lemma WordsOfStrip(s: string)
    ensures Words(Strip(s)) == Words(s)
  {
    WordsOfStripLeft(s);
    WordsOfStripRight(StripLeft(s));
  }

  lemma FirstWord(word: string, rest: string)
    requires word != "" && NoSpace(word)
    ensures Words(word + " " + rest) == [word] + Words(rest)
  {
    WordAt(word, ' ', rest);
  }

  /** Strings in code point order. */
  predicate Precedes(a: string, b: string) {
    b != "" && (a == "" || a[0] < b[0] || (a[0] == b[0] && Precedes(a[1..], b[1..])))
  }

  /** a and b agree up to p, where a ends or has the smaller character. */
  ghost predicate LessAt(a: string, b: string, p: nat) {
    && p <= |a| && p < |b| && a[..p] == b[..p]
    && (p < |a| ==> a[p] < b[p])
  }

  ghost predicate ComesFirst(a: string, b: string) {
    exists p: nat :: LessAt(a, b, p)
  }

  lemma LessAtLater(a: string, b: string, p: nat)
    requires a != "" && b != "" && a[0] == b[0]
    ensures LessAt(a[1..], b[1..], p) <==> LessAt(a, b, p + 1)
  {
    if LessAt(a[1..], b[1..], p) {
      assert a[..p + 1] == [a[0]] + a[1..][..p] && b[..p + 1] == [b[0]] + b[1..][..p];
    }
    if LessAt(a, b, p + 1) {
      assert a[1..][..p] == a[..p + 1][1..] && b[1..][..p] == b[..p + 1][1..];
    }
  }

  lemma {:induction false} PrecedesAt(a: string, b: string) returns (p: nat)
    requires Precedes(a, b)
    ensures LessAt(a, b, p)
    decreases |a|
  {
    if a == "" || a[0] < b[0] {
      p := 0;
    } else {
      p := PrecedesAt(a[1..], b[1..]);
      LessAtLater(a, b, p);
      p := p + 1;
    }
  }

  lemma {:induction false} AtPrecedes(a: string, b: string, p: nat)
    requires LessAt(a, b, p)
    ensures Precedes(a, b)
    decreases p
  {
    if p == 0 {
    } else {
      assert a[..p][0] == a[0] && b[..p][0] == b[0];
      LessAtLater(a, b, p - 1);
      AtPrecedes(a[1..], b[1..], p - 1);
    }
  }

  /** The order without the recursion: where two strings first differ, the lower code point is first,
      and a string comes before those it begins. */
  lemma PrecedesIff(a: string, b: string)
    ensures Precedes(a, b) <==> ComesFirst(a, b)
  {
    if Precedes(a, b) {
      var p := PrecedesAt(a, b);
    }
    if p: nat :| LessAt(a, b, p) {
      AtPrecedes(a, b, p);
    }
  }

  lemma {:induction false} PrecedesTotal(a: string, b: string)
    ensures Precedes(a, b) || a == b || Precedes(b, a)
    decreases |a|
  {
    if a == "" || b == "" || a[0] != b[0] {
    } else {
      PrecedesTotal(a[1..], b[1..]);
      assert a == [a[0]] + a[1..] && b == [b[0]] + b[1..];
    }
  }

  lemma {:induction false} PrecedesTransitive(a: string, b: string, c: string)
    requires Precedes(a, b) && Precedes(b, c)
    ensures Precedes(a, c)
    decreases |a|
  {
    if a == "" || a[0] != b[0] || b[0] != c[0] {
    } else {
      PrecedesTransitive(a[1..], b[1..], c[1..]);
    }
  }

  lemma {:induction false} PrecedesIrreflexive(a: string)
    ensures !Precedes(a, a)
    decreases |a|
  {
    if a == "" {
    } else {
      PrecedesIrreflexive(a[1..]);
    }
  }

  lemma {:induction false} PrecedesPrefix(a: string, b: string)
    requires b != ""
    ensures Precedes(a, a + b)
    decreases |a|
  {
    if a == "" {
    } else {
      PrecedesPrefix(a[1..], b);
      DropOfJoin(a, b, 1);
    }
  }

  lemma PrecedesOneWay(a: string, b: string)
    requires Precedes(a, b)
    ensures a != b && !Precedes(b, a)
  {
    PrecedesIrreflexive(a);
    if Precedes(b, a) {
      PrecedesTransitive(a, b, a);
    }
  }

  ghost predicate IsFirst(name: string, names: set<string>) {
    name in names && forall n :: n in names && n != name ==> Precedes(name, n)
  }

  lemma {:induction false} FirstExists(names: set<string>)
    requires names != {}
    ensures exists name :: IsFirst(name, names)
    decreases |names|
  {
    var x :| x in names;
    var rest := names - {x};
    if rest == {} {
      assert forall n :: n in names && n != x ==> n in rest;
      assert IsFirst(x, names);
    } else {
      FirstExists(rest);
      var y :| IsFirst(y, rest);
      PrecedesTotal(x, y);
      if Precedes(x, y) {
        forall n | n in names && n != x
          ensures Precedes(x, n)
        {
          if n != y {
            PrecedesTransitive(x, y, n);
          }
        }
        assert IsFirst(x, names);
      } else {
        assert IsFirst(y, names);
      }
    }
  }

  ghost predicate Sorted(names: seq<string>) {
    forall i, j :: 0 <= i < j < |names| ==> Precedes(names[i], names[j])
  }

  lemma SortedMeans(names: seq<string>)
    requires Sorted(names)
    ensures forall i, j :: 0 <= i < j < |names| ==> ComesFirst(names[i], names[j])
  {
    forall i, j | 0 <= i < j < |names|
      ensures ComesFirst(names[i], names[j])
    {
      var p := PrecedesAt(names[i], names[j]);
    }
  }

  lemma SortedAt(names: seq<string>, i: nat, j: nat)
    requires Sorted(names) && i < |names| && j < |names|
    ensures names[j] in names[..i] <==> j < i
    ensures names[j] in names[i + 1..] <==> i < j
    ensures j < i <==> Precedes(names[j], names[i])
    ensures i < j <==> Precedes(names[i], names[j])
  {
    forall k: nat, l: nat | k < l < |names|
      ensures names[k] != names[l] && !Precedes(names[l], names[k])
    {
      PrecedesOneWay(names[k], names[l]);
    }
    PrecedesIrreflexive(names[i]);
    if j < i {
      assert names[..i][j] == names[j];
    }
    if i < j {
      assert names[i + 1..][j - i - 1] == names[j];
    }
  }
}

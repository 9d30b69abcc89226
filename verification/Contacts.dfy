/**
 The contacts file: one contact a line, a name and a key of 64 characters. It is read leniently and
 written back whole, sorted, on every save. Blanks and line ends are Python's. Its lower case is a
 parameter, as it depends on the Unicode tables and may change the length of a text.
 */
module Contacts {
  import opened Types
  import opened Seqs
  import opened PythonText

  // Lower case

  type Lowering = string -> string

  /** Lowering twice is lowering once, and neither makes nor removes blanks. */
  ghost predicate Lowers(lower: Lowering) {
    && (forall s: string {:trigger lower(lower(s))} :: lower(lower(s)) == lower(s))
    && (forall s: string {:trigger NoSpace(lower(s))} :: NoSpace(lower(s)) <==> NoSpace(s))
  }

  ghost predicate KeepsLength(lower: Lowering) {
    forall s: string :: |lower(s)| == |s|
  }

  function AsciiLowerChar(c: char): char {
    if 'A' <= c <= 'Z' then (c as int + 32) as char else c
  }

  /** The lower case of ASCII text. */
  function AsciiLower(s: string): (r: string)
    ensures |r| == |s|
    ensures forall k :: 0 <= k < |s| ==> r[k] == AsciiLowerChar(s[k])
  {
    seq(|s|, k requires 0 <= k < |s| => AsciiLowerChar(s[k]))
  }

  lemma AsciiLowers()
    ensures Lowers(AsciiLower) && KeepsLength(AsciiLower)
  {
    forall s: string
      ensures AsciiLower(AsciiLower(s)) == AsciiLower(s)
    {
    }
    forall s: string
      ensures NoSpace(AsciiLower(s)) <==> NoSpace(s)
    {
      assert forall k :: 0 <= k < |s| ==> IsSpace(AsciiLower(s)[k]) == IsSpace(s[k]);
    }
  }

  // Reading

  type Book = map<string, string>

  const KEY_LENGTH: nat := 64

  /** The contact on a line, if there is one. */
  function ContactOn(lower: Lowering, line: string): Option<(string, string)> {
    var stripped := Strip(line);
    if stripped == "" || stripped[0] == '#' then None
    else
      var parts := Words(stripped);
      if |parts| >= 2 && |parts[1]| == KEY_LENGTH then Some((parts[0], lower(parts[1]))) else None
  }

  /** In other words: the first two words of a line, unless the first starts with '#' or the second has
      not 64 characters; stripping the line makes no difference. */
  lemma ContactOnMeans(lower: Lowering, line: string)
    ensures var words := Words(line);
            ContactOn(lower, line) ==
            if |words| >= 2 && !("#" <= words[0]) && |words[1]| == 64 then Some((words[0], lower(words[1]))) else None
  {
    var stripped := Strip(line);
    WordsOfStrip(line);
    StripLeftStarts(line);
    StripRightStarts(StripLeft(line));
    WordsAreClean(stripped);
  }

  function Enter(lower: Lowering, book: Book, line: string): Book {
    match ContactOn(lower, line)
    case None => book
    case Some((name, key)) => book[name := key]
  }

  /** Later lines win. */
  function BookOf(lower: Lowering, lines: seq<string>): Book {
    if lines == [] then map[] else Enter(lower, BookOf(lower, lines[..|lines| - 1]), lines[|lines| - 1])
  }

  function Load(lower: Lowering, text: string): Book {
    BookOf(lower, SplitLines(text))
  }

  method LoadContacts(lower: Lowering, text: string) returns (out: Book)
    ensures out == Load(lower, text)
  {
    out := map[];
    var lines := SplitLines(text);
    for k := 0 to |lines|
      invariant out == BookOf(lower, lines[..k])
    {
      TakeOneMore(lines, k);
      BookOfSnoc(lower, lines[..k], lines[k]);
      var line := Strip(lines[k]);
      if line == "" || line[0] == '#' {
        continue;
      }
      var parts := Words(line);
      if |parts| >= 2 && |parts[1]| == KEY_LENGTH {
        out := out[parts[0] := lower(parts[1])];
      }
    }
    assert lines[..|lines|] == lines;
  }

  lemma BookOfSnoc(lower: Lowering, lines: seq<string>, line: string)
    ensures BookOf(lower, lines + [line]) == Enter(lower, BookOf(lower, lines), line)
  {
    assert (lines + [line])[..|lines|] == lines;
  }

  lemma EnterSum(lower: Lowering, a: Book, b: Book, line: string)
    ensures Enter(lower, a + b, line) == a + Enter(lower, b, line)
  {
  }

  lemma {:induction false} BookOfJoin(lower: Lowering, a: seq<string>, b: seq<string>)
    ensures BookOf(lower, a + b) == BookOf(lower, a) + BookOf(lower, b)
    decreases |b|
  {
    if b == [] {
      JoinEmpty(a);
    } else {
      var front, last := b[..|b| - 1], b[|b| - 1];
      assert b == front + [last];
      BookOfJoin(lower, a, front);
      JoinAssociates(a, front, [last]);
      BookOfSnoc(lower, a + front, last);
      BookOfSnoc(lower, front, last);
      EnterSum(lower, BookOf(lower, a), BookOf(lower, front), last);
    }
  }

  // What reading yields

  /** A name that stays in one piece on a line of its own. */
  predicate CleanName(name: string) {
    name != "" && NoSpace(name) && name[0] != '#'
  }

  ghost predicate CleanEntry(lower: Lowering, name: string, value: string) {
    CleanName(name) && NoSpace(value) && lower(value) == value
  }

  ghost predicate CleanBook(lower: Lowering, book: Book) {
    forall name :: name in book ==> CleanEntry(lower, name, book[name])
  }

  lemma ContactIsClean(lower: Lowering, line: string)
    requires Lowers(lower)
    ensures var c := ContactOn(lower, line);
            c.Some? ==> CleanEntry(lower, c.value.0, c.value.1)
  {
    var stripped := Strip(line);
    StripLeftStarts(line);
    StripRightStarts(StripLeft(line));
    WordsAreClean(stripped);
    if ContactOn(lower, line).Some? {
      var key := Words(stripped)[1];
      assert NoSpace(lower(key)) && lower(lower(key)) == lower(key);
    }
  }

  /** Every key has its length. */
  ghost predicate FullKeys(book: Book) {
    forall n :: n in book ==> |book[n]| == 64
  }

  /** Whatever the file holds, every name read is one word, and every key one lower-case word. */
  lemma {:induction false} LoadIsClean(lower: Lowering, lines: seq<string>)
    requires Lowers(lower)
    ensures CleanBook(lower, BookOf(lower, lines))
    decreases |lines|
  {
    if lines == [] {
    } else {
      LoadIsClean(lower, lines[..|lines| - 1]);
      ContactIsClean(lower, lines[|lines| - 1]);
    }
  }

  /** Under a lower case that keeps lengths, every key read has its length. */
  lemma {:induction false} LoadIsFull(lower: Lowering, lines: seq<string>)
    requires KeepsLength(lower)
    ensures FullKeys(BookOf(lower, lines))
    decreases |lines|
  {
    if lines == [] {
    } else {
      LoadIsFull(lower, lines[..|lines| - 1]);
    }
  }

  // Writing

  function LineOf(name: string, value: string): string {
    name + " " + value
  }

  predicate Within(names: seq<string>, book: Book) {
    forall n :: n in names ==> n in book
  }

  function Render(book: Book, names: seq<string>): string
    requires Within(names, book)
  {
    if names == [] then ""
    else
      assert Within(names[1..], book);
      LineOf(names[0], book[names[0]]) + "\n" + Render(book, names[1..])
  }

  /** What is written for each contact, character by character. */
  lemma LineLayout(book: Book, name: string)
    requires name in book
    ensures var line := Render(book, [name]);
            && |line| == |name| + 1 + |book[name]| + 1
            && line[..|name|] == name && line[|name|] == ' '
            && line[|name| + 1..|line| - 1] == book[name] && line[|line| - 1] == '\n'
  {
    assert [name][1..] == [];
    JoinEmpty(LineOf(name, book[name]) + "\n");
  }

  /** The names of a book, each once and in order. */
  ghost predicate Lists(names: seq<string>, book: Book) {
    Sorted(names) && forall n :: n in names <==> n in book
  }

  /** The least name of a set; it is found by scanning them all. */
  method FirstOf(names: set<string>) returns (name: string)
    requires names != {}
    ensures IsFirst(name, names)
  {
    FirstExists(names);
    name :| name in names && forall n :: n in names && n != name ==> Precedes(name, n);
  }

  method SortNames(book: Book) returns (names: seq<string>)
    ensures Lists(names, book)
    ensures forall i, j :: 0 <= i < j < |names| ==> ComesFirst(names[i], names[j])
  {
    names := [];
    var rest := book.Keys;
    while rest != {}
      invariant rest <= book.Keys
      invariant forall n :: n in names <==> n in book && n !in rest
      invariant Sorted(names)
      invariant forall i, n :: 0 <= i < |names| && n in rest ==> Precedes(names[i], n)
      decreases |rest|
    {
      var name := FirstOf(rest);
      assert forall n :: n in names + [name] <==> n in names || n == name;
      names := names + [name];
      rest := rest - {name};
    }
    SortedMeans(names);
  }

  // Reading what was written

  lemma BlankAtEnd(name: string)
    requires CleanName(name)
    ensures Strip(name + " ") == name
  {
    var s := name + " ";
    assert s[0] == name[0] && s[|s| - 1] == ' ' && s[..|s| - 1] == name;
    assert StripLeft(s) == s && StripRight(name) == name;
  }

  /** The line of a clean contact holds that contact, if its key still has its length. */
  lemma LineReads(lower: Lowering, name: string, value: string)
    requires CleanEntry(lower, name, value)
    ensures ContactOn(lower, LineOf(name, value)) == if |value| == KEY_LENGTH then Some((name, value)) else None
  {
    var line := LineOf(name, value);
    if value == "" {
      JoinEmpty(name + " ");
      BlankAtEnd(name);
      OneWord(name);
    } else {
      assert line[0] == name[0] && line[|line| - 1] == value[|value| - 1];
      assert Strip(line) == line;
      FirstWord(name, value);
      OneWord(value);
    }
  }

  lemma LineIsOne(name: string, value: string)
    requires NoSpace(name) && NoSpace(value)
    ensures NoLineBreak(LineOf(name, value))
  {
  }

  lemma OneLine(line: string)
    requires NoLineBreak(line)
    ensures SplitLines(line + "\n") == [line]
  {
    SplitFirstLine(line, "");
    JoinEmpty(line + "\n");
  }

  /** The lines of some contacts. */
  ghost function LinesFor(book: Book, names: seq<string>): (lines: seq<string>)
    requires Within(names, book)
    ensures |lines| == |names|
  {
    seq(|names|, k requires 0 <= k < |names| => LineOf(names[k], book[names[k]]))
  }

  lemma LinesForFirst(book: Book, names: seq<string>)
    requires names != [] && Within(names, book)
    ensures Within(names[1..], book)
    ensures LinesFor(book, names) == [LineOf(names[0], book[names[0]])] + LinesFor(book, names[1..])
  {
  }

  ghost predicate CleanPart(lower: Lowering, book: Book, names: seq<string>) {
    forall n :: n in names ==> n in book && CleanEntry(lower, n, book[n])
  }

  /** The text of clean contacts splits into their lines, whatever follows it. */
  lemma {:induction false} RenderSplits(lower: Lowering, book: Book, names: seq<string>, rest: string)
    requires CleanPart(lower, book, names)
    ensures SplitLines(Render(book, names) + rest) == LinesFor(book, names) + SplitLines(rest)
    decreases |names|
  {
    if names == [] {
      JoinEmpty(rest);
      JoinEmpty(SplitLines(rest));
    } else {
      var name := names[0];
      assert name in names;
      var line := LineOf(name, book[name]);
      LineIsOne(name, book[name]);
      RenderSplits(lower, book, names[1..], rest);
      SplitFirstLine(line, Render(book, names[1..]) + rest);
      JoinAssociates(line + "\n", Render(book, names[1..]), rest);
      LinesForFirst(book, names);
      JoinAssociates([line], LinesFor(book, names[1..]), SplitLines(rest));
    }
  }

  /** The contacts that are read again: those whose key has its length. */
  ghost function Kept(book: Book, names: set<string>): Book {
    map n | n in names && n in book && |book[n]| == KEY_LENGTH :: book[n]
  }

  ghost function SetOf(names: seq<string>): set<string> {
    set n | n in names
  }

  lemma KeptOneMore(book: Book, names: set<string>, last: string)
    requires last in book
    ensures Kept(book, names + {last}) ==
            if |book[last]| == KEY_LENGTH then Kept(book, names)[last := book[last]] else Kept(book, names)
    ensures |book[last]| != KEY_LENGTH ==> last !in Kept(book, names)
  {
  }

  lemma LinesForLast(book: Book, front: seq<string>, last: string)
    requires Within(front, book) && last in book
    ensures Within(front + [last], book)
    ensures LinesFor(book, front + [last]) == LinesFor(book, front) + [LineOf(last, book[last])]
  {
  }

  lemma {:induction false} LinesRead(lower: Lowering, book: Book, names: seq<string>)
    requires CleanPart(lower, book, names)
    ensures BookOf(lower, LinesFor(book, names)) == Kept(book, SetOf(names))
    decreases |names|
  {
    if names == [] {
    } else {
      var front, last := names[..|names| - 1], names[|names| - 1];
      assert names == front + [last];
      assert last in names && forall n :: n in front ==> n in names;
      LinesRead(lower, book, front);
      LinesForLast(book, front, last);
      BookOfSnoc(lower, LinesFor(book, front), LineOf(last, book[last]));
      LineReads(lower, last, book[last]);
      KeptOneMore(book, SetOf(front), last);
      assert SetOf(names) == SetOf(front) + {last};
    }
  }

  lemma {:induction false} RenderJoin(book: Book, a: seq<string>, b: seq<string>)
    requires Within(a, book) && Within(b, book)
    ensures Within(a + b, book) && Render(book, a + b) == Render(book, a) + Render(book, b)
    decreases |a|
  {
    if a == [] {
      JoinEmpty(b);
      JoinEmpty(Render(book, b));
    } else {
      DropOfJoin(a, b, 1);
      assert a[0] in a;
      RenderJoin(book, a[1..], b);
      JoinAssociates(LineOf(a[0], book[a[0]]) + "\n", Render(book, a[1..]), Render(book, b));
    }
  }

  lemma {:induction false} RenderLines(lower: Lowering, book: Book, names: seq<string>)
    requires CleanPart(lower, book, names)
    ensures SplitLines(Render(book, names)) == LinesFor(book, names)
  {
    RenderSplits(lower, book, names, "");
    JoinEmpty(Render(book, names));
    JoinEmpty(LinesFor(book, names));
  }

  /** A clean book that is written is read back without the keys that have not their length, so as it
      was exactly if all have. */
  lemma {:induction false} RenderReads(lower: Lowering, book: Book, names: seq<string>)
    requires CleanBook(lower, book) && Lists(names, book)
    ensures Load(lower, Render(book, names)) == Kept(book, book.Keys)
    ensures Load(lower, Render(book, names)) == book <==> FullKeys(book)
  {
    RenderLines(lower, book, names);
    LinesRead(lower, book, names);
    assert SetOf(names) == book.Keys;
    KeptIsAll(book);
  }

  lemma KeptIsAll(book: Book)
    ensures Kept(book, book.Keys) == book <==> FullKeys(book)
  {
    if Kept(book, book.Keys) == book {
      forall n | n in book
        ensures |book[n]| == KEY_LENGTH
      {
        assert n in Kept(book, book.Keys);
      }
    }
  }

  // Saving

  /** `after` is the book written out with its names in order. */
  ghost predicate Writes(book: Book, names: seq<string>, after: string) {
    Lists(names, book) && after == Render(book, names)
  }

  ghost predicate Written(book: Book, after: string) {
    exists names: seq<string> :: Writes(book, names, after)
  }

  /** `after` is what saving a contact leaves in the file. */
  ghost predicate Saves(lower: Lowering, text: string, name: string, key: string, after: string) {
    Written(Load(lower, text)[name := lower(key)], after)
  }

  method SaveContact(lower: Lowering, text: string, name: string, key: string) returns (after: string)
    ensures Saves(lower, text, name, key, after)
  {
    var contacts := LoadContacts(lower, text);
    contacts := contacts[name := lower(key)];
    var names := SortNames(contacts);
    after := "";
    var k := 0;
    assert names[0..] == names;
    while k < |names|
      invariant k <= |names| && Within(names[k..], contacts)
      invariant after + Render(contacts, names[k..]) == Render(contacts, names)
    {
      assert names[k..][0] == names[k] && names[k..][1..] == names[k + 1..];
      JoinAssociates(after, LineOf(names[k], contacts[names[k]]) + "\n", Render(contacts, names[k + 1..]));
      after := after + (LineOf(names[k], contacts[names[k]]) + "\n");
      k := k + 1;
    }
    JoinEmpty(after);
    assert Writes(contacts, names, after);
  }

  /** The contacts that the text of the saved one amounts to, were it alone in the file. */
  ghost function Added(lower: Lowering, name: string, key: string): Book {
    Load(lower, LineOf(name, lower(key)) + "\n")
  }

  ghost function Before(book: Book, name: string): set<string> {
    set n | n in book && Precedes(n, name)
  }

  ghost function Behind(book: Book, name: string): set<string> {
    set n | n in book && Precedes(name, n)
  }

  /** A sorted list splits at a name into those that precede it and those that follow. */
  lemma SortedSplits(names: seq<string>, book: Book, i: nat)
    requires Lists(names, book) && i < |names|
    ensures SetOf(names[..i]) == Before(book, names[i])
    ensures SetOf(names[i + 1..]) == Behind(book, names[i])
  {
    forall n | n in book
      ensures n in names[..i] <==> Precedes(n, names[i])
      ensures n in names[i + 1..] <==> Precedes(names[i], n)
    {
      assert n in names;
      var j :| 0 <= j < |names| && names[j] == n;
      SortedAt(names, i, j);
    }
    assert forall n :: n in names[..i] || n in names[i + 1..] ==> n in names;
  }

  /** The lines of the written text, around one of its contacts. */
  lemma {:induction false} TextSplits(lower: Lowering, book: Book, names: seq<string>, i: nat)
    requires i < |names| && Within(names, book)
    requires CleanPart(lower, book, names[..i]) && CleanPart(lower, book, names[i + 1..])
    ensures SplitLines(Render(book, names)) ==
            LinesFor(book, names[..i])
            + (SplitLines(LineOf(names[i], book[names[i]]) + "\n") + LinesFor(book, names[i + 1..]))
  {
    var front, back := names[..i], names[i + 1..];
    var line, behind := LineOf(names[i], book[names[i]]), Render(book, back);
    assert names == front + ([names[i]] + back);
    RenderJoin(book, front, [names[i]] + back);
    assert ([names[i]] + back)[1..] == back;
    assert Render(book, [names[i]] + back) == line + "\n" + behind;
    RenderSplits(lower, book, front, line + "\n" + behind);
    SplitJoin(line, behind);
    RenderLines(lower, book, back);
  }

  lemma BookOfThree(lower: Lowering, a: seq<string>, b: seq<string>, c: seq<string>)
    ensures BookOf(lower, a + (b + c)) == BookOf(lower, a) + BookOf(lower, b) + BookOf(lower, c)
  {
    BookOfJoin(lower, a, b + c);
    BookOfJoin(lower, b, c);
  }

  /** What the written text reads as, around one of its contacts. */
  lemma {:induction false} TextReads(lower: Lowering, book: Book, names: seq<string>, i: nat)
    requires i < |names| && Within(names, book)
    requires CleanPart(lower, book, names[..i]) && CleanPart(lower, book, names[i + 1..])
    ensures Load(lower, Render(book, names)) ==
            Kept(book, SetOf(names[..i]))
            + Load(lower, LineOf(names[i], book[names[i]]) + "\n")
            + Kept(book, SetOf(names[i + 1..]))
  {
    var front, back := LinesFor(book, names[..i]), LinesFor(book, names[i + 1..]);
    TextSplits(lower, book, names, i);
    BookOfThree(lower, front, SplitLines(LineOf(names[i], book[names[i]]) + "\n"), back);
    LinesRead(lower, book, names[..i]);
    LinesRead(lower, book, names[i + 1..]);
  }

  /** Around the saved contact stand the old ones that precede and follow it. */
  lemma SortedAround(contacts: Book, name: string, value: string, names: seq<string>, i: nat)
    requires Lists(names, contacts[name := value]) && i < |names| && names[i] == name
    ensures SetOf(names[..i]) == Before(contacts, name)
    ensures SetOf(names[i + 1..]) == Behind(contacts, name)
  {
    SortedSplits(names, contacts[name := value], i);
    PrecedesIrreflexive(name);
  }

  /** The other contacts of a book that is written are as they were. */
  lemma OthersAreClean(lower: Lowering, contacts: Book, name: string, value: string, part: seq<string>)
    requires CleanBook(lower, contacts) && SetOf(part) <= contacts.Keys - {name}
    ensures var book := contacts[name := value];
            CleanPart(lower, book, part) && Kept(book, SetOf(part)) == Kept(contacts, SetOf(part))
  {
    forall n | n in part
      ensures n in contacts && n != name
    {
      assert n in SetOf(part);
    }
  }

  /**
   What any save leaves, whatever the name and the key: the old contacts that precede the name, then
   what the saved text amounts to, then those that follow, each overriding the ones before; and of
   the old contacts only those whose lower-case key still has 64 characters.
   */
  lemma SaveReads(lower: Lowering, text: string, name: string, key: string, after: string)
    requires Lowers(lower) && Saves(lower, text, name, key, after)
    ensures var contacts := Load(lower, text);
            Load(lower, after) ==
            Kept(contacts, Before(contacts, name)) + Added(lower, name, key) + Kept(contacts, Behind(contacts, name))
  {
    var contacts := Load(lower, text);
    var book := contacts[name := lower(key)];
    var names: seq<string> :| Writes(book, names, after);
    assert name in names;
    var i :| 0 <= i < |names| && names[i] == name;
    LoadIsClean(lower, SplitLines(text));
    SortedAround(contacts, name, lower(key), names, i);
    PrecedesIrreflexive(name);
    OthersAreClean(lower, contacts, name, lower(key), names[..i]);
    OthersAreClean(lower, contacts, name, lower(key), names[i + 1..]);
    TextReads(lower, book, names, i);
  }

  ghost predicate Has(book: Book, name: string, value: string) {
    name in book && book[name] == value
  }

  /**
   When another contact survives a save: one whose key has its length, unless the saved text goes
   after it and gives its name a different key; one whose key has not, only if the saved text
   happens to restore it.
   */
  lemma OtherSurvivesIff(lower: Lowering, text: string, name: string, key: string, after: string, other: string)
    requires Lowers(lower) && Saves(lower, text, name, key, after)
    requires other != name && other in Load(lower, text)
    ensures var value := Load(lower, text)[other];
            var added := Added(lower, name, key);
            Has(Load(lower, after), other, value) <==>
            if |value| == 64 then Precedes(name, other) || other !in added || Has(added, other, value)
            else Has(added, other, value)
  {
    SaveReads(lower, text, name, key, after);
    PrecedesTotal(name, other);
    if Precedes(name, other) {
      PrecedesOneWay(name, other);
    }
  }

  lemma LineLoads(lower: Lowering, line: string)
    requires NoLineBreak(line)
    ensures Load(lower, line + "\n") == Enter(lower, map[], line)
  {
    OneLine(line);
    BookOfSnoc(lower, [], line);
    JoinEmpty([line]);
  }

  lemma ThreeWords(a: string, b: string, c: string)
    requires a != "" && NoSpace(a) && b != "" && NoSpace(b) && c != "" && NoSpace(c)
    ensures Words(LineOf(LineOf(a, b), c)) == [a, b, c]
  {
    assert LineOf(LineOf(a, b), c) == a + " " + (b + " " + c);
    FirstWord(a, b + " " + c);
    FirstWord(b, c);
    OneWord(c);
  }

  lemma ThreeWordsRead(lower: Lowering, other: string, taken: string, value: string)
    requires CleanEntry(lower, other, taken) && |taken| == KEY_LENGTH
    requires NoSpace(value) && value != ""
    ensures ContactOn(lower, LineOf(LineOf(other, taken), value)) == Some((other, taken))
  {
    var line := LineOf(LineOf(other, taken), value);
    assert line[0] == other[0] && line[|line| - 1] == value[|value| - 1];
    assert Strip(line) == line;
    ThreeWords(other, taken, value);
  }

  /** A name of two words, the second as long as a key, is read as the first word with that key. */
  lemma TwoWordName(lower: Lowering, other: string, taken: string, key: string)
    requires CleanEntry(lower, other, taken) && |taken| == KEY_LENGTH
    requires NoSpace(lower(key)) && lower(key) != ""
    ensures Added(lower, LineOf(other, taken), key) == map[other := taken]
  {
    ThreeWordsRead(lower, other, taken, lower(key));
    LineLoads(lower, LineOf(LineOf(other, taken), lower(key)));
  }

  /** So saving under such a name changes the contact of the first word. */
  lemma OtherOverwritten(lower: Lowering, text: string, other: string, taken: string, key: string, after: string)
    requires Lowers(lower) && CleanEntry(lower, other, taken) && |taken| == KEY_LENGTH
    requires NoSpace(lower(key)) && lower(key) != ""
    requires Saves(lower, text, LineOf(other, taken), key, after)
    ensures Has(Load(lower, after), other, taken)
  {
    TwoWordName(lower, other, taken, key);
    SaveReads(lower, text, LineOf(other, taken), key, after);
    JoinAssociates(other, " ", taken);
    PrecedesPrefix(other, " " + taken);
    PrecedesOneWay(other, LineOf(other, taken));
  }

  /** A clean contact adds itself and no other, if its key has its length. */
  lemma CleanAdds(lower: Lowering, name: string, key: string)
    requires CleanEntry(lower, name, lower(key))
    ensures Added(lower, name, key) == if |lower(key)| == KEY_LENGTH then map[name := lower(key)] else map[]
  {
    var line := LineOf(name, lower(key));
    LineIsOne(name, lower(key));
    LineLoads(lower, line);
    LineReads(lower, name, lower(key));
  }

  /** The old contacts that are read again, without the one saved. */
  lemma KeptAround(contacts: Book, name: string, added: Book, after: Book)
    requires after == Kept(contacts, Before(contacts, name)) + added + Kept(contacts, Behind(contacts, name))
    ensures name in after <==> name in added
    ensures name in added ==> after[name] == added[name]
    ensures forall n :: n in contacts && n != name && n !in added ==>
              (n in after <==> |contacts[n]| == KEY_LENGTH) && (n in after ==> after[n] == contacts[n])
    ensures forall n :: n in after && n !in added ==> n in contacts
  {
    PrecedesIrreflexive(name);
    forall n | n in contacts && n != name
      ensures Precedes(n, name) || Precedes(name, n)
    {
      PrecedesTotal(n, name);
    }
  }

  /** When the contacts around the saved one and itself are all there. */
  lemma KeptAll(contacts: Book, name: string, value: string, added: Book, after: Book)
    requires added == if |value| == KEY_LENGTH then map[name := value] else map[]
    requires after == Kept(contacts, Before(contacts, name)) + added + Kept(contacts, Behind(contacts, name))
    ensures after == contacts[name := value] <==> |value| == KEY_LENGTH && FullKeys(contacts - {name})
  {
    var book := contacts[name := value];
    KeptAround(contacts, name, added, after);
    if |value| != KEY_LENGTH {
      assert name in book && name !in after;
    } else if !FullKeys(contacts - {name}) {
      var n :| n in contacts - {name} && |contacts[n]| != KEY_LENGTH;
      assert n in book && n !in after;
    } else {
      forall n | n in book
        ensures n in after && after[n] == book[n]
      {
        assert n != name ==> n in contacts - {name};
      }
      assert after.Keys == book.Keys;
    }
  }

  /** What a clean save leaves. */
  lemma CleanSaveReads(lower: Lowering, text: string, name: string, key: string, after: string)
    requires Lowers(lower) && Saves(lower, text, name, key, after)
    requires CleanEntry(lower, name, lower(key))
    ensures Load(lower, after) == Load(lower, text)[name := lower(key)] <==>
            |lower(key)| == KEY_LENGTH && FullKeys(Load(lower, text) - {name})
  {
    SaveReads(lower, text, name, key, after);
    CleanAdds(lower, name, key);
    KeptAll(Load(lower, text), name, lower(key), Added(lower, name, key), Load(lower, after));
  }

  /**
   Saving a contact and reading the file again gives the old contacts with that one changed,
   exactly when the name is one word that does not start with '#', the key is one word whose lower
   case has 64 characters, and so have all the other keys.
   */
  lemma SavedIff(lower: Lowering, text: string, name: string, key: string, after: string)
    requires Lowers(lower) && Saves(lower, text, name, key, after)
    ensures Load(lower, after) == Load(lower, text)[name := lower(key)] <==>
            && CleanName(name) && NoSpace(key) && |lower(key)| == 64
            && FullKeys(Load(lower, text) - {name})
  {
    assert NoSpace(lower(key)) == NoSpace(key) && lower(lower(key)) == lower(key);
    if CleanEntry(lower, name, lower(key)) {
      CleanSaveReads(lower, text, name, key, after);
    } else {
      LoadIsClean(lower, SplitLines(after));
      assert Has(Load(lower, text)[name := lower(key)], name, lower(key));
    }
  }

  ghost predicate SaveRun(lower: Lowering, texts: seq<string>, saves: seq<(string, string)>) {
    && |texts| == |saves| + 1
    && forall k :: 0 <= k < |saves| ==> Saves(lower, texts[k], saves[k].0, saves[k].1, texts[k + 1])
  }

  ghost predicate CleanSave(lower: Lowering, save: (string, string)) {
    CleanName(save.0) && NoSpace(save.1) && |lower(save.1)| == 64
  }

  ghost function Updated(lower: Lowering, book: Book, saves: seq<(string, string)>): Book {
    if saves == [] then book
    else Updated(lower, book, saves[..|saves| - 1])[saves[|saves| - 1].0 := lower(saves[|saves| - 1].1)]
  }

  lemma SaveKeepsFull(lower: Lowering, text: string, save: (string, string), after: string)
    requires Lowers(lower) && Saves(lower, text, save.0, save.1, after)
    requires CleanSave(lower, save) && FullKeys(Load(lower, text))
    ensures Load(lower, after) == Load(lower, text)[save.0 := lower(save.1)]
    ensures FullKeys(Load(lower, after))
  {
    SavedIff(lower, text, save.0, save.1, after);
  }

  lemma UpdatedOnce(lower: Lowering, book: Book, saves: seq<(string, string)>, n: nat)
    requires n < |saves|
    ensures Updated(lower, book, saves[..n + 1]) == Updated(lower, book, saves[..n])[saves[n].0 := lower(saves[n].1)]
  {
    assert saves[..n + 1][..n] == saves[..n];
  }

  /** After each of a run of clean saves the file reads as the first contacts with the saves applied. */
  lemma {:induction false} RunOfSaves(
    lower: Lowering, texts: seq<string>, saves: seq<(string, string)>, n: nat)
    requires Lowers(lower) && SaveRun(lower, texts, saves) && FullKeys(Load(lower, texts[0]))
    requires forall k :: 0 <= k < |saves| ==> CleanSave(lower, saves[k])
    requires n <= |saves|
    ensures Load(lower, texts[n]) == Updated(lower, Load(lower, texts[0]), saves[..n])
    ensures FullKeys(Load(lower, texts[n]))
    decreases n
  {
    if n == 0 {
    } else {
      RunOfSaves(lower, texts, saves, n - 1);
      SaveKeepsFull(lower, texts[n - 1], saves[n - 1], texts[n]);
      UpdatedOnce(lower, Load(lower, texts[0]), saves, n - 1);
    }
  }
}

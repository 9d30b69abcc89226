/**
 What names that are no plain text do to a generated header. Such a name can close its literal and go
 on with declarations of its own, but it cannot get the names of all files into the table.
 */
module HeaderNames {
  import opened Types
  import opened Seqs
  import opened LiteralText
  import opened EmbeddedFiles

  // Texts that lead up to the end of a name

  /** The end of a name's declaration: the quote that the generator prints, and what comes after it. */
  function End(after: string): string {
    "\"" + (";\n" + after)
  }

  /** A text that is some characters of a name and then the end of its declaration. */
  ghost predicate InName(text: string, after: string) {
    |text| >= |End(after)| && text[|text| - |End(after)|..] == End(after)
  }

  /** How many characters of the name are still ahead. */
  ghost function Ahead(text: string, after: string): nat
    requires InName(text, after)
  {
    |text| - |End(after)|
  }

  lemma QuoteAhead(text: string, after: string)
    requires InName(text, after)
    ensures text[Ahead(text, after)] == '\"'
    ensures Ahead(text, after) == 0 ==> text == End(after)
  {
    var n := Ahead(text, after);
    assert text[n..][0] == '\"';
    assert text[0..] == text;
  }

  lemma StaysInName(text: string, after: string, n: nat)
    requires InName(text, after) && n <= Ahead(text, after)
    ensures InName(text[n..], after) && Ahead(text[n..], after) == Ahead(text, after) - n
  {
    DropDrop(text, n, Ahead(text, after) - n);
  }

  ghost predicate NoQuote(s: string) {
    forall k :: 0 <= k < |s| ==> s[k] != '\"'
  }

  lemma ExpectInName(text: string, prefix: string, after: string)
    requires InName(text, after) && NoQuote(prefix) && Expect(text, prefix).Some?
    ensures var t := Expect(text, prefix).value;
            InName(t, after) && Ahead(t, after) == Ahead(text, after) - |prefix|
  {
    QuoteAhead(text, after);
    assert |prefix| <= Ahead(text, after);
    StaysInName(text, after, |prefix|);
  }

  lemma DecimalInName(text: string, after: string)
    requires InName(text, after) && ReadDecimal(text).Some?
    ensures var t := ReadDecimal(text).value.1;
            InName(t, after) && Ahead(t, after) <= Ahead(text, after)
  {
    QuoteAhead(text, after);
    StaysInName(text, after, Span(text, IsDigit));
  }

  lemma IdentInName(text: string, after: string)
    requires InName(text, after) && ReadIdent(text).Some?
    ensures var t := ReadIdent(text).value.1;
            InName(t, after) && Ahead(t, after) <= Ahead(text, after)
  {
    QuoteAhead(text, after);
    StaysInName(text, after, Span(text, IsIdent));
  }

  /** The fixed texts of the generator, as the reader meets them. */
  lemma TextsHaveNoQuote()
    ensures NoQuote(STRING_DECL) && NoQuote(" = ") && NoQuote("std::string(") && NoQuote(";\n")
    ensures NoQuote("  const std::string *") && NoQuote("  {&") && NoQuote(", ") && NoQuote("&") && NoQuote("},\n")
  {
  }

  lemma TableHasNoQuote()
    ensures NoQuote(TABLE_START) && NoQuote(TABLE_ROWS) && NoQuote(TABLE_END)
  {
  }

  lemma NamedInName(text: string, before: string, behind: string, after: string)
    requires InName(text, after) && NoQuote(before) && NoQuote(behind) && ReadNamed(text, before, behind).Some?
    ensures var t := ReadNamed(text, before, behind).value.1;
            InName(t, after) && Ahead(t, after) <= Ahead(text, after)
  {
    ExpectInName(text, before, after);
    var t := Expect(text, before).value;
    IdentInName(t, after);
    ExpectInName(ReadIdent(t).value.1, behind, after);
  }

  lemma NumberInName(text: string, before: string, behind: string, after: string)
    requires InName(text, after) && NoQuote(before) && NoQuote(behind) && ReadNumber(text, before, behind).Some?
    ensures var t := ReadNumber(text, before, behind).value.1;
            InName(t, after) && Ahead(t, after) <= Ahead(text, after)
  {
    ExpectInName(text, before, after);
    var t := Expect(text, before).value;
    DecimalInName(t, after);
    ExpectInName(ReadDecimal(t).value.1, behind, after);
  }

  // Literals that start in a name

  /** Past the end of a name nothing is a literal: the line ends. */
  lemma NoLiteralAfter(after: string)
    ensures Literals(true, ";\n" + after) == None
    ensures Literals(false, ";\n" + after) == Some(([], ";\n" + after))
  {
    var t := ";\n" + after;
    assert t[0] == ';' && t[1..] == "\n" + after;
    assert Literals(true, "\n" + after) == None;
  }

  lemma EndDropped(after: string)
    ensures End(after)[0] == '\"' && End(after)[1..] == ";\n" + after
  {
  }

  /** An escape sequence takes a quote only as its one character. */
  lemma EscapeStops(text: string, q: nat)
    requires Escape(text).Some? && q < Escape(text).value.1 && text[q] == '\"'
    ensures q == 0 && Escape(text).value.1 == 1
  {
  }

  /** Where reading literals can get to: still in the name, or just past its closing quote. */
  ghost predicate Reaches(text: string, after: string, rest: string)
    requires InName(text, after)
  {
    rest == ";\n" + after || (InName(rest, after) && Ahead(rest, after) <= Ahead(text, after))
  }

  lemma AtTheEnd(inside: bool, after: string)
    ensures Literals(inside, End(after)) == if inside then Some(([], ";\n" + after)) else None
  {
    EndDropped(after);
    NoLiteralAfter(after);
  }

  /** An escape sequence in a name stays in it, or the literal is not closed on its line. */
  lemma EscapeInName(text: string, after: string)
    requires InName(text, after) && Ahead(text, after) > 0 && Escape(text[1..]).Some?
    requires 1 + Escape(text[1..]).value.1 > Ahead(text, after)
    ensures text[1 + Escape(text[1..]).value.1..] == ";\n" + after
  {
    var n := Ahead(text, after);
    QuoteAhead(text, after);
    EscapeStops(text[1..], n - 1);
    assert n == 1;
    EndDropped(after);
    DropDrop(text, 1, 1);
    assert text[1..] == End(after);
  }

  lemma {:induction false} LiteralsInName(inside: bool, text: string, after: string)
    requires InName(text, after) && Literals(inside, text).Some?
    ensures Reaches(text, after, Literals(inside, text).value.1)
    decreases |text|
  {
    QuoteAhead(text, after);
    if Ahead(text, after) == 0 {
      AtTheEnd(inside, after);
    } else {
      StaysInName(text, after, 1);
      if !inside {
        if IsBlank(text[0]) {
          LiteralsInName(false, text[1..], after);
        } else if text[0] == '\"' {
          LiteralsInName(true, text[1..], after);
        }
      } else if text[0] == '\"' {
        LiteralsInName(false, text[1..], after);
      } else if text[0] == '\\' {
        var n := Escape(text[1..]).value.1;
        if 1 + n > Ahead(text, after) {
          EscapeInName(text, after);
          NoLiteralAfter(after);
        } else {
          StaysInName(text, after, 1 + n);
          LiteralsInName(true, text[1 + n..], after);
        }
      } else {
        LiteralsInName(true, text[1..], after);
      }
    }
  }

  /** A literal that starts in a name has at most as many units as characters are ahead, and fewer if
      it ends before the name does. */
  lemma UnitsInName(text: string, after: string)
    requires InName(text, after) && Literals(true, text).Some?
    ensures var (units, rest) := Literals(true, text).value;
            && Reaches(text, after, rest)
            && |units| <= Ahead(text, after)
            && (rest != ";\n" + after ==> |units| < Ahead(text, after))
  {
    UnitsBound(true, text);
    LiteralsInName(true, text, after);
  }

  // Declarations that start in a name

  lemma StringInName(text: string, after: string)
    requires InName(text, after) && ReadString(text).Some?
    ensures var (units, rest) := ReadString(text).value;
            |units| < Ahead(text, after) && Reaches(text, after, rest)
  {
    if Ahead(text, after) == 0 {
      QuoteAhead(text, after);
      EndDropped(after);
      NoLiteralAfter(after);
    } else {
      StaysInName(text, after, 1);
      UnitsInName(text[1..], after);
    }
  }

  lemma {:induction false} BlanksInName(text: string, after: string)
    requires InName(text, after) && ReadAfterBlanks(text).Some?
    ensures var (units, rest) := ReadAfterBlanks(text).value;
            |units| < Ahead(text, after) && Reaches(text, after, rest)
    decreases |text|
  {
    QuoteAhead(text, after);
    if IsBlank(text[0]) {
      StaysInName(text, after, 1);
      BlanksInName(text[1..], after);
    } else {
      StringInName(text, after);
    }
  }

  /** What is in a name and up to `n` characters before its end, or just after it. */
  ghost predicate Near(text: string, after: string, n: nat) {
    text == after || (InName(text, after) && Ahead(text, after) <= n)
  }

  lemma NameCloses(text: string, after: string, t: string)
    requires InName(text, after) && Reaches(text, after, t) && Expect(t, ";\n").Some?
    ensures Near(Expect(t, ";\n").value, after, Ahead(text, after))
  {
    if t == ";\n" + after {
      Expected(";\n", after);
    } else {
      ExpectInName(t, ";\n", after);
    }
  }

  lemma SizeInName(text: string, after: string, t: string)
    requires InName(text, after) && Reaches(text, after, t) && ReadNumber(t, ",\n  ", ");\n\n").Some?
    ensures var rest := ReadNumber(t, ",\n  ", ");\n\n").value.1;
            InName(rest, after) && Ahead(rest, after) <= Ahead(text, after)
  {
    assert t[0] == ',';
    NumberInName(t, ",\n  ", ");\n\n", after);
  }

  lemma CountedInName(text: string, after: string)
    requires InName(text, after) && ReadCounted(text).Some?
    ensures |ReadCounted(text).value.0| < Ahead(text, after)
    ensures Near(ReadCounted(text).value.1, after, Ahead(text, after))
  {
    BlanksInName(text, after);
    SizeInName(text, after, ReadAfterBlanks(text).value.1);
  }

  lemma ValueInName(text: string, after: string)
    requires InName(text, after) && ReadValue(text).Some?
    ensures |ReadValue(text).value.0| < Ahead(text, after)
    ensures Near(ReadValue(text).value.1, after, Ahead(text, after))
  {
    if text[0] == '\"' {
      StringInName(text, after);
      NameCloses(text, after, ReadString(text).value.1);
    } else {
      ExpectInName(text, "std::string(", after);
      CountedInName(Expect(text, "std::string(").value, after);
    }
  }

  /** A variable declared in a name has a shorter value, and what follows is in the name or after it. */
  lemma VariableInName(text: string, after: string)
    requires InName(text, after) && ReadVariable(text).Some?
    ensures |ReadVariable(text).value.0.value| < Ahead(text, after)
    ensures Near(ReadVariable(text).value.1, after, Ahead(text, after))
  {
    TextsHaveNoQuote();
    NamedInName(text, STRING_DECL, " = ", after);
    ValueInName(ReadNamed(text, STRING_DECL, " = ").value.1, after);
  }

  // A table that starts in a name

  lemma FieldsInName(text: string, after: string)
    requires InName(text, after) && ReadFields(text).Some?
    ensures InName(ReadFields(text).value.1, after)
  {
    TextsHaveNoQuote();
    NamedInName(text, "  const std::string *", ";\n", after);
    NamedInName(ReadNamed(text, "  const std::string *", ";\n").value.1, "  const std::string *", ";\n", after);
  }

  lemma StructInName(text: string, after: string)
    requires InName(text, after) && ReadStruct(text).Some?
    ensures InName(ReadStruct(text).value.1, after)
  {
    TableHasNoQuote();
    ExpectInName(text, TABLE_START, after);
    var t := Expect(text, TABLE_START).value;
    FieldsInName(t, after);
    ExpectInName(ReadFields(t).value.1, TABLE_ROWS, after);
  }

  lemma RowInName(text: string, after: string)
    requires InName(text, after) && ReadRow(text).Some?
    ensures InName(ReadRow(text).value.1, after)
  {
    TextsHaveNoQuote();
    NamedInName(text, "  {&", ", ", after);
    NamedInName(ReadNamed(text, "  {&", ", ").value.1, "&", "},\n", after);
  }

  lemma {:induction false} RowsInName(text: string, after: string)
    requires InName(text, after) && ReadRows(text).Some?
    ensures InName(ReadRows(text).value.1, after)
    decreases |text|
  {
    if TABLE_END <= text {
      TableHasNoQuote();
      ExpectInName(text, TABLE_END, after);
    } else {
      RowInName(text, after);
      RowsInName(ReadRow(text).value.1, after);
    }
  }

  /** Such a table is not the last thing in a header: the rest of the name is still to come. */
  lemma TableNotInName(text: string, after: string, code: string)
    requires ReadTable(text, code).Some? && |after| >= |Rest(code)|
    ensures !InName(text, after)
  {
    if InName(text, after) {
      StructInName(text, after);
      RowsInName(ReadStruct(text).value.1, after);
    }
  }

  // The names that a header declares

  ghost predicate PlainUnits(units: seq<nat>) {
    forall k :: 0 <= k < |units| ==> units[k] != '\"' as nat && units[k] != '\\' as nat && units[k] != '\n' as nat
  }

  /** A name that is plain or has fewer than n units. */
  ghost predicate Short(units: seq<nat>, n: nat) {
    |units| < n || PlainUnits(units)
  }

  lemma PlainCodes(s: string)
    ensures PlainUnits(Codes(s)) <==> Plain(s)
  {
    forall k | 0 <= k < |s|
      ensures Codes(s)[k] == s[k] as nat
    {
    }
    if !Plain(s) {
      var k :| 0 <= k < |s| && (s[k] == '\"' || s[k] == '\\' || s[k] == '\n');
      assert Codes(s)[k] == s[k] as nat;
    }
  }

  /** Every variable has a short value, but for those that the contents are declared as. */
  ghost predicate AllShort(vars: seq<Variable>, n: nat) {
    forall k :: 0 <= k < |vars| ==> Short(vars[k].value, n) || DATA_START <= vars[k].ident
  }

  /** No name that is not plain has more than n characters. */
  ghost predicate Bounded(files: seq<File>, n: nat) {
    forall k :: 0 <= k < |files| && !Plain(files[k].name) ==> |files[k].name| <= n
  }

  lemma NameThenEnd(name: string, after: string)
    ensures InName(name + End(after), after) && Ahead(name + End(after), after) == |name|
    ensures "\"" + name + "\"" + (";\n" + after) == "\"" + (name + End(after))
    ensures name + "\"" + (";\n" + after) == name + End(after)
  {
    DropOfJoin(name, End(after), |name|);
    JoinAssociates(name, "\"", ";\n" + after);
    JoinAssociates("\"" + name, "\"", ";\n" + after);
    JoinAssociates("\"", name, End(after));
  }

  /** Reading the generator's own declaration of a name is reading what stands for it. */
  lemma NameUnits(i: nat, name: string, after: string)
    requires ReadVariable(NameText(i, name) + after).Some?
    ensures var r := Literals(true, name + End(after));
            && r.Some? && Expect(r.value.1, ";\n").Some?
            && ReadVariable(NameText(i, name) + after) ==
               Some((Variable(NameIdent(i), r.value.0), Expect(r.value.1, ";\n").value))
  {
    var text := name + End(after);
    NameThenEnd(name, after);
    NameReadsAs(i, name, after);
    assert ("\"" + text)[0] == '\"' && ("\"" + text)[1..] == text;
  }

  lemma NotPlainIsShort(i: nat, name: string, after: string)
    requires ReadVariable(NameText(i, name) + after).Some? && !Plain(name)
    ensures |ReadVariable(NameText(i, name) + after).value.0.value| < |name|
    ensures Near(ReadVariable(NameText(i, name) + after).value.1, after, |name|)
  {
    var text := name + End(after);
    NameUnits(i, name, after);
    NameThenEnd(name, after);
    UnitsInName(text, after);
    NotPlainShrinks(name, ";\n" + after);
    NameCloses(text, after, Literals(true, text).value.1);
  }

  /** The generator's own declaration of a name gives it back if it is plain, and fewer units if not. */
  lemma NameIsShort(i: nat, name: string, after: string, n: nat)
    requires ReadVariable(NameText(i, name) + after).Some? && (!Plain(name) ==> |name| <= n)
    ensures Short(ReadVariable(NameText(i, name) + after).value.0.value, n)
    ensures Near(ReadVariable(NameText(i, name) + after).value.1, after, n)
  {
    if Plain(name) {
      NameReads(i, name, after);
      PlainCodes(name);
    } else {
      NotPlainIsShort(i, name, after);
    }
  }

  /** What follows the k-th name. */
  ghost function AfterName(files: seq<File>, k: nat, rest: string): string
    requires k < |files|
  {
    DataText(k + 1, files[k].bytes) + (FilesText(files, k + 1) + rest)
  }

  /** Where reading the declarations can be: before the k-th file, in its name, or after its name. */
  ghost predicate Position(files: seq<File>, k: nat, rest: string, n: nat, text: string)
    requires k <= |files|
  {
    text == FilesText(files, k) + rest || (k < |files| && Near(text, AfterName(files, k, rest), n))
  }

  /** One variable is read: its value is short or it is of contents, and reading has a new position. */
  ghost predicate Moves(files: seq<File>, next: nat, rest: string, n: nat, text: string) {
    && next <= |files| && ReadVariable(text).Some?
    && (Short(ReadVariable(text).value.0.value, n) || DATA_START <= ReadVariable(text).value.0.ident)
    && Position(files, next, rest, n, ReadVariable(text).value.1)
  }

  lemma BeforeFile(files: seq<File>, k: nat, rest: string, n: nat)
    requires k < |files| && Bounded(files, n) && ReadVariable(FilesText(files, k) + rest).Some?
    ensures Moves(files, k, rest, n, FilesText(files, k) + rest)
  {
    FilesTextJoin(files, k, rest);
    NameIsShort(k + 1, files[k].name, AfterName(files, k, rest), n);
  }

  lemma InsideName(files: seq<File>, k: nat, rest: string, n: nat, text: string)
    requires k < |files| && InName(text, AfterName(files, k, rest)) && Ahead(text, AfterName(files, k, rest)) <= n
    requires ReadVariable(text).Some?
    ensures Moves(files, k, rest, n, text)
  {
    VariableInName(text, AfterName(files, k, rest));
  }

  lemma BehindName(files: seq<File>, k: nat, rest: string, n: nat)
    requires k < |files| && ReadVariable(AfterName(files, k, rest)).Some?
    ensures Moves(files, k + 1, rest, n, AfterName(files, k, rest))
  {
    DataReadsIff(k + 1, files[k].bytes, FilesText(files, k + 1) + rest);
  }

  lemma OneVariable(files: seq<File>, k: nat, rest: string, n: nat, text: string) returns (next: nat)
    requires k < |files| && Bounded(files, n) && Position(files, k, rest, n, text) && ReadVariable(text).Some?
    ensures Moves(files, next, rest, n, text)
  {
    if text == FilesText(files, k) + rest {
      BeforeFile(files, k, rest, n);
      next := k;
    } else if text == AfterName(files, k, rest) {
      BehindName(files, k, rest, n);
      next := k + 1;
    } else {
      InsideName(files, k, rest, n, text);
      next := k;
    }
  }

  lemma ReadsOne(text: string)
    requires STRING_DECL <= text && ReadVariables(text).Some?
    ensures ReadVariable(text).Some?
    ensures var (v, t) := ReadVariable(text).value;
            && |t| < |text| && ReadVariables(t).Some?
            && ReadVariables(text).value == ([v] + ReadVariables(t).value.0, ReadVariables(t).value.1)
  {
  }

  lemma ShortFirst(v: Variable, vars: seq<Variable>, n: nat)
    requires (Short(v.value, n) || DATA_START <= v.ident) && AllShort(vars, n)
    ensures AllShort([v] + vars, n)
  {
  }

  /** Where the declarations end: at the table, or still in a name. */
  ghost predicate Ends(files: seq<File>, rest: string, end: string) {
    end == rest || exists k: nat :: EndsIn(files, k, rest, end)
  }

  ghost predicate EndsIn(files: seq<File>, k: nat, rest: string, end: string) {
    k < |files| && InName(end, AfterName(files, k, rest))
  }

  lemma StopsHere(files: seq<File>, k: nat, rest: string, n: nat, text: string)
    requires k <= |files| && Position(files, k, rest, n, text) && !(STRING_DECL <= text)
    ensures Ends(files, rest, text)
  {
    if k == |files| {
      JoinEmpty(rest);
    } else {
      FilesTextJoin(files, k, rest);
      TextsStart(k + 1, files[k].name, files[k].bytes, AfterName(files, k, rest));
      TextsStart(k + 1, files[k].name, files[k].bytes, FilesText(files, k + 1) + rest);
      assert EndsIn(files, k, rest, text);
    }
  }

  /** Every value that is declared is short or of contents, wherever reading starts. */
  lemma {:induction false} DeclaredShort(files: seq<File>, k: nat, rest: string, n: nat, text: string)
    requires k <= |files| && Bounded(files, n) && !(STRING_DECL <= rest)
    requires Position(files, k, rest, n, text) && ReadVariables(text).Some?
    ensures AllShort(ReadVariables(text).value.0, n) && Ends(files, rest, ReadVariables(text).value.1)
    decreases |text|
  {
    if !(STRING_DECL <= text) {
      StopsHere(files, k, rest, n, text);
    } else {
      JoinEmpty(rest);
      ReadsOne(text);
      var next := OneVariable(files, k, rest, n, text);
      var (v, t) := ReadVariable(text).value;
      DeclaredShort(files, next, rest, n, t);
      ShortFirst(v, ReadVariables(t).value.0, n);
    }
  }

  lemma {:induction false} ValueIsShort(vars: seq<Variable>, ident: string, n: nat)
    requires AllShort(vars, n) && ValueOf(vars, ident).Some? && !(DATA_START <= ident)
    ensures Short(ValueOf(vars, ident).value, n)
    decreases |vars|
  {
    if vars[0].ident == ident {
    } else {
      ValueIsShort(vars[1..], ident, n);
    }
  }

  lemma NameIsNoData(i: nat)
    ensures !(DATA_START <= NameIdent(i))
  {
    assert NameIdent(i)[17] == NAME_START[17] == 'n' && DATA_START[17] == 'd';
  }

  /** The first row of a table that can be resolved. */
  lemma ResolvesFirst(vars: seq<Variable>, m: nat, j: nat)
    requires j < m && Resolve(vars, ("name", "data"), Rows(m, j)).Some?
    ensures ValueOf(vars, NameIdent(j + 1)).Some? && Resolve(vars, ("name", "data"), Rows(m, j + 1)).Some?
    ensures var entries := Resolve(vars, ("name", "data"), Rows(m, j)).value;
            && entries != [] && entries[0].name == ValueOf(vars, NameIdent(j + 1)).value
            && entries[1..] == Resolve(vars, ("name", "data"), Rows(m, j + 1)).value
  {
    assert Rows(m, j)[1..] == Rows(m, j + 1);
  }

  /** So every name in the generator's table is. */
  lemma {:induction false} ResolvesShort(vars: seq<Variable>, m: nat, j: nat, n: nat, k: nat)
    requires AllShort(vars, n) && j <= m && Resolve(vars, ("name", "data"), Rows(m, j)).Some?
    requires k < |Resolve(vars, ("name", "data"), Rows(m, j)).value|
    ensures Short(Resolve(vars, ("name", "data"), Rows(m, j)).value[k].name, n)
    decreases m - j
  {
    assert j < m;
    ResolvesFirst(vars, m, j);
    if k == 0 {
      NameIsNoData(j + 1);
      ValueIsShort(vars, NameIdent(j + 1), n);
    } else {
      ResolvesShort(vars, m, j + 1, n, k - 1);
    }
  }

  lemma Longest(files: seq<File>) returns (k: nat)
    requires !PlainNames(files)
    ensures k < |files| && !Plain(files[k].name) && Bounded(files, |files[k].name|)
  {
    k :| k < |files| && !Plain(files[k].name);
    for j := 0 to |files|
      invariant k < |files| && !Plain(files[k].name)
      invariant forall i :: 0 <= i < j && !Plain(files[i].name) ==> |files[i].name| <= |files[k].name|
    {
      if !Plain(files[j].name) && |files[j].name| > |files[k].name| {
        k := j;
      }
    }
  }

  lemma AfterIsLong(files: seq<File>, k: nat, code: string)
    requires k < |files|
    ensures |AfterName(files, k, TableText(|files|, code))| >= |Rest(code)|
  {
  }

  /** A header that can be read is read down to the generator's own table. */
  lemma EndsAtTable(files: seq<File>, code: string, end: string)
    requires Ends(files, TableText(|files|, code), end) && ReadTable(end, code).Some?
    ensures end == TableText(|files|, code)
  {
    forall k: nat | EndsIn(files, k, TableText(|files|, code), end)
      ensures false
    {
      AfterIsLong(files, k, code);
      TableNotInName(end, AfterName(files, k, TableText(|files|, code)), code);
    }
  }

  lemma BodyIsShort(files: seq<File>, code: string, n: nat, k: nat)
    requires Bounded(files, n)
    requires var r := ReadBody(FilesText(files, 0) + TableText(|files|, code), code); r.Some? && k < |r.value|
    ensures Short(ReadBody(FilesText(files, 0) + TableText(|files|, code), code).value[k].name, n)
  {
    var rest := TableText(|files|, code);
    var (vars, end) := ReadVariables(FilesText(files, 0) + rest).value;
    TableIsNoVariable(|files|, code);
    DeclaredShort(files, 0, rest, n, FilesText(files, 0) + rest);
    EndsAtTable(files, code, end);
    TableReads(|files|, code);
    ResolvesShort(vars, |files|, 0, n, k);
  }

  /** The longest name that is not plain is not in the table. */
  lemma NotPlainIsLost(files: seq<File>, code: string)
    requires !PlainNames(files)
    ensures ReadHeader(Header(files, code), code) != Some(Entries(files, 0))
  {
    var k := Longest(files);
    HeaderIsBody(files, code);
    PlainCodes(files[k].name);
    assert !Short(Entries(files, 0)[k].name, |files[k].name|);
    if ReadHeader(Header(files, code), code) == Some(Entries(files, 0)) {
      BodyIsShort(files, code, |files[k].name|, k);
    }
  }

  /**
   Read as C++, a header holds exactly the names and bytes of the files it was made of, in order, if
   and only if no file is empty and no name has a quote, a backslash or a line end in it.
   */
  lemma HeaderReadsBackIff(files: seq<File>, code: string)
    ensures ReadHeader(Header(files, code), code) == Some(Entries(files, 0)) <==>
            NoneEmpty(files, 0) && PlainNames(files)
  {
    if PlainNames(files) {
      PlainHeaderReads(files, code);
    } else {
      NotPlainIsLost(files, code);
    }
  }
}

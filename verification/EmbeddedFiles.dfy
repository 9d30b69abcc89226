/**
 The header generator: it prints files as C++ string literals, with a table of their names and
 contents. Read as C++, the header holds exactly those names and contents.
 */
module EmbeddedFiles {
  import opened Types
  import opened Seqs
  import opened LiteralText

  datatype File = File(name: string, bytes: Bytes)

  // The fixed texts that are printed

  const PROLOGUE := "#ifndef TRANSLATION_FILES_H\n#define TRANSLATION_FILES_H\n\n#include <string>\n\n"
  const STRING_DECL := "static const std::string "
  const NAME_START := "translation_file_name_"
  const DATA_START := "translation_file_data_"
  const TABLE_START := "static const struct embedded_file {\n"
  const FIELD_NAME := "  const std::string *name;\n"
  const FIELD_DATA := "  const std::string *data;\n"
  const TABLE_ROWS := "} embedded_files[] = {\n"
  const TABLE_END := "  {NULL, NULL}\n};\n\n"
  const EPILOGUE := "#endif /* TRANSLATION_FILES_H */\n"

  // What is printed

  /** A byte as \xhh. */
  function HexEscape(b: Byte): string {
    ['\\', 'x', HexDigit(b / 16), HexDigit(b % 16)]
  }

  /** What goes before byte j: every 16 bytes the literal is closed and a new line opens the next. */
  function Break(j: nat): string {
    if j % 16 != 0 then "" else if j > 0 then "\"\n  \"" else "\n  \""
  }

  /** The bytes from the j-th on. */
  function BytesText(bytes: Bytes, j: nat): string
    requires j <= |bytes|
    decreases |bytes| - j
  {
    if j == |bytes| then "" else Break(j) + HexEscape(bytes[j]) + BytesText(bytes, j + 1)
  }

  function NameIdent(i: nat): string {
    NAME_START + Decimal(i)
  }

  function DataIdent(i: nat): string {
    DATA_START + Decimal(i)
  }

  function NameText(i: nat, name: string): string {
    STRING_DECL + (NameIdent(i) + (" = " + ("\"" + name + "\"" + ";\n")))
  }

  function SizeText(n: nat): string {
    ",\n  " + (Decimal(n) + ");\n\n")
  }

  function DataStart(i: nat): string {
    STRING_DECL + (DataIdent(i) + (" = " + "std::string("))
  }

  function DataText(i: nat, bytes: Bytes): string {
    DataStart(i) + (BytesText(bytes, 0) + ("\"" + SizeText(|bytes|)))
  }

  /** The declarations of the files from the k-th on; they are numbered from one. */
  function FilesText(files: seq<File>, k: nat): string
    requires k <= |files|
    decreases |files| - k
  {
    if k == |files| then ""
    else NameText(k + 1, files[k].name) + (DataText(k + 1, files[k].bytes) + FilesText(files, k + 1))
  }

  function RowText(i: nat): string {
    "  {&" + (NameIdent(i) + (", " + ("&" + (DataIdent(i) + "},\n"))))
  }

  function RowsText(n: nat, k: nat): string
    requires k <= n
    decreases n - k
  {
    if k == n then "" else RowText(k + 1) + RowsText(n, k + 1)
  }

  function Rest(code: string): string {
    code + "\n" + EPILOGUE
  }

  /** The struct of the table, up to its first row. */
  function StructText(): string {
    TABLE_START + (FIELD_NAME + (FIELD_DATA + TABLE_ROWS))
  }

  /** The table of n files and all that follows it. */
  function TableText(n: nat, code: string): string {
    StructText() + (RowsText(n, 0) + (TABLE_END + Rest(code)))
  }

  /** The header around the lookup function's text. */
  function Header(files: seq<File>, code: string): string {
    PROLOGUE + (FilesText(files, 0) + TableText(|files|, code))
  }

  /** Some bytes as escapes, with no break between them. */
  ghost function Escapes(bytes: Bytes): string {
    if bytes == [] then "" else HexEscape(bytes[0]) + Escapes(bytes[1..])
  }

  lemma HexEscapeIs(b: Byte)
    ensures HexEscape(b) == "\\x" + ["0123456789abcdef"[b / 16], "0123456789abcdef"[b % 16]]
  {
    HexDigitIs(b / 16);
    HexDigitIs(b % 16);
  }

  lemma EscapesFirst(bytes: Bytes, j: nat, end: nat)
    requires j < end <= |bytes|
    ensures Escapes(bytes[j..end]) == HexEscape(bytes[j]) + Escapes(bytes[j + 1..end])
  {
    assert bytes[j..end][0] == bytes[j] && bytes[j..end][1..] == bytes[j + 1..end];
  }

  lemma BytesTextFirst(bytes: Bytes, j: nat)
    requires j < |bytes|
    ensures BytesText(bytes, j) == Break(j) + (HexEscape(bytes[j]) + BytesText(bytes, j + 1))
  {
    JoinAssociates(Break(j), HexEscape(bytes[j]), BytesText(bytes, j + 1));
  }

  /** Up to the next multiple of sixteen there is no break. */
  lemma {:induction false} LineGoesOn(bytes: Bytes, j: nat, end: nat)
    requires j <= end <= |bytes|
    requires forall i :: j <= i < end ==> i % 16 != 0
    ensures BytesText(bytes, j) == Escapes(bytes[j..end]) + BytesText(bytes, end)
    decreases end - j
  {
    if j == end {
      JoinEmpty(BytesText(bytes, j));
    } else {
      LineGoesOn(bytes, j + 1, end);
      BytesTextFirst(bytes, j);
      EscapesFirst(bytes, j, end);
      JoinEmpty(HexEscape(bytes[j]) + BytesText(bytes, j + 1));
      JoinAssociates(HexEscape(bytes[j]), Escapes(bytes[j + 1..end]), BytesText(bytes, end));
    }
  }

  /** Every sixteen bytes are one literal on a line of its own; only the last may have fewer. */
  lemma LineOfBytes(bytes: Bytes, j: nat, end: nat)
    requires j % 16 == 0 && j < end <= j + 16 && end <= |bytes|
    ensures BytesText(bytes, j) ==
            (if j == 0 then "\n  \"" else "\"\n  \"") + (Escapes(bytes[j..end]) + BytesText(bytes, end))
  {
    LineGoesOn(bytes, j + 1, end);
    BytesTextFirst(bytes, j);
    EscapesFirst(bytes, j, end);
    JoinAssociates(HexEscape(bytes[j]), Escapes(bytes[j + 1..end]), BytesText(bytes, end));
  }

  // The generator

  method EmitBytes(bytes: Bytes, out: string) returns (text: string)
    ensures text == out + BytesText(bytes, 0)
  {
    text := out;
    var j := 0;
    while j < |bytes|
      invariant j <= |bytes| && text + BytesText(bytes, j) == out + BytesText(bytes, 0)
    {
      ghost var before := text;
      if j % 16 == 0 {
        if j > 0 {
          text := text + "\"";
        }
        text := text + "\n  \"";
      }
      assert text == before + Break(j);
      BytesTextFirst(bytes, j);
      JoinAssociates(before, Break(j), HexEscape(bytes[j]) + BytesText(bytes, j + 1));
      JoinAssociates(text, HexEscape(bytes[j]), BytesText(bytes, j + 1));
      text := text + HexEscape(bytes[j]);
      j := j + 1;
    }
    JoinEmpty(text);
  }

  /** Every join here is one formatted print. */
  method EmitFile(i: nat, file: File, out: string) returns (text: string)
    ensures text == out + (NameText(i, file.name) + DataText(i, file.bytes))
  {
    var named := out + NameText(i, file.name);
    var started := named + DataStart(i);
    text := EmitBytes(file.bytes, started);
    text := text + ("\"" + SizeText(|file.bytes|));
    JoinAssociates(started, BytesText(file.bytes, 0), "\"" + SizeText(|file.bytes|));
    JoinAssociates(named, DataStart(i), BytesText(file.bytes, 0) + ("\"" + SizeText(|file.bytes|)));
    JoinAssociates(out, NameText(i, file.name), DataText(i, file.bytes));
  }

  method EmitFiles(files: seq<File>, out: string) returns (text: string)
    ensures text == out + FilesText(files, 0)
  {
    text := out;
    var k := 0;
    while k < |files|
      invariant k <= |files| && text + FilesText(files, k) == out + FilesText(files, 0)
    {
      FilesStep(files, k, text);
      text := EmitFile(k + 1, files[k], text);
      k := k + 1;
    }
    JoinEmpty(text);
  }

  method EmitRows(n: nat, out: string) returns (text: string)
    ensures text == out + RowsText(n, 0)
  {
    text := out;
    var i := 0;
    while i < n
      invariant i <= n && text + RowsText(n, i) == out + RowsText(n, 0)
    {
      JoinAssociates(text, RowText(i + 1), RowsText(n, i + 1));
      text := text + RowText(i + 1);
      i := i + 1;
    }
    JoinEmpty(text);
  }

  method Generate(files: seq<File>, code: string) returns (text: string)
    ensures text == Header(files, code)
  {
    text := EmitFiles(files, PROLOGUE);
    ghost var declared := text;
    text := text + TABLE_START;
    text := text + FIELD_NAME;
    text := text + FIELD_DATA;
    text := text + TABLE_ROWS;
    StructJoin(declared);
    ghost var started := text;
    text := EmitRows(|files|, text);
    text := text + TABLE_END;
    text := text + (code + "\n");
    text := text + EPILOGUE;
    GeneratedJoin(files, code, declared, started);
  }

  lemma StructJoin(out: string)
    ensures (((out + TABLE_START) + FIELD_NAME) + FIELD_DATA) + TABLE_ROWS == out + StructText()
  {
    JoinAssociates((out + TABLE_START) + FIELD_NAME, FIELD_DATA, TABLE_ROWS);
    JoinAssociates(out + TABLE_START, FIELD_NAME, FIELD_DATA + TABLE_ROWS);
    JoinAssociates(out, TABLE_START, FIELD_NAME + (FIELD_DATA + TABLE_ROWS));
  }

  lemma GeneratedJoin(files: seq<File>, code: string, declared: string, started: string)
    requires declared == PROLOGUE + FilesText(files, 0) && started == declared + StructText()
    ensures (((started + RowsText(|files|, 0)) + TABLE_END) + (code + "\n")) + EPILOGUE == Header(files, code)
  {
    var rows := RowsText(|files|, 0);
    JoinAssociates((started + rows) + TABLE_END, code + "\n", EPILOGUE);
    JoinAssociates(started + rows, TABLE_END, Rest(code));
    JoinAssociates(started, rows, TABLE_END + Rest(code));
    JoinAssociates(declared, StructText(), rows + (TABLE_END + Rest(code)));
    JoinAssociates(PROLOGUE, FilesText(files, 0), TableText(|files|, code));
  }

  lemma FilesStep(files: seq<File>, k: nat, out: string)
    requires k < |files|
    ensures out + FilesText(files, k) ==
            (out + (NameText(k + 1, files[k].name) + DataText(k + 1, files[k].bytes))) + FilesText(files, k + 1)
  {
    var a, b, c := NameText(k + 1, files[k].name), DataText(k + 1, files[k].bytes), FilesText(files, k + 1);
    JoinAssociates(a, b, c);
    JoinAssociates(out, a + b, c);
  }

  // How it is read

  predicate IsIdent(c: char) {
    'a' <= c <= 'z' || 'A' <= c <= 'Z' || IsDigit(c) || c == '_'
  }

  function ReadIdent(text: string): Option<(string, string)> {
    var n := Span(text, IsIdent);
    if n == 0 || IsDigit(text[0]) then None else Some((text[..n], text[n..]))
  }

  /** An identifier between two given texts. */
  function ReadNamed(text: string, before: string, behind: string): Option<(string, string)> {
    var t :- Expect(text, before);
    var (ident, t1) :- ReadIdent(t);
    var t2 :- Expect(t1, behind);
    Some((ident, t2))
  }

  function ReadAfterBlanks(text: string): Option<(seq<nat>, string)> {
    if text != "" && IsBlank(text[0]) then ReadAfterBlanks(text[1..]) else ReadString(text)
  }

  /** A number between two given texts. */
  function ReadNumber(text: string, before: string, behind: string): Option<(nat, string)> {
    var t :- Expect(text, before);
    var (i, t1) :- ReadDecimal(t);
    var t2 :- Expect(t1, behind);
    Some((i, t2))
  }

  /** A string built from the first so many units of a literal. */
  function ReadCounted(text: string): Option<(seq<nat>, string)> {
    var (units, t1) :- ReadAfterBlanks(text);
    var (n, t2) :- ReadNumber(t1, ",\n  ", ");\n\n");
    if n <= |units| then Some((units[..n], t2)) else None
  }

  /** What a variable is initialised with: a literal, or a string built from one. */
  function ReadValue(text: string): Option<(seq<nat>, string)> {
    if text != "" && text[0] == '\"' then
      var (units, t) :- ReadString(text);
      var t1 :- Expect(t, ";\n");
      Some((units, t1))
    else
      var t :- Expect(text, "std::string(");
      ReadCounted(t)
  }

  datatype Variable = Variable(ident: string, value: seq<nat>)

  function ReadVariable(text: string): Option<(Variable, string)> {
    var (ident, t) :- ReadNamed(text, "static const std::string ", " = ");
    var (value, t1) :- ReadValue(t);
    Some((Variable(ident, value), t1))
  }

  function ReadVariables(text: string): Option<(seq<Variable>, string)>
    decreases |text|
  {
    if !("static const std::string " <= text) then Some(([], text))
    else
      var (v, t) :- ReadVariable(text);
      if |t| >= |text| then None
      else
        var (vars, rest) :- ReadVariables(t);
        Some(([v] + vars, rest))
  }

  /** The two fields of the table's struct, in the order they are declared. */
  function ReadFields(text: string): Option<((string, string), string)> {
    var (first, t) :- ReadNamed(text, "  const std::string *", ";\n");
    var (second, t1) :- ReadNamed(t, "  const std::string *", ";\n");
    Some(((first, second), t1))
  }

  function ReadStruct(text: string): Option<((string, string), string)> {
    var t :- Expect(text, "static const struct embedded_file {\n");
    var (fields, t1) :- ReadFields(t);
    var t2 :- Expect(t1, "} embedded_files[] = {\n");
    Some((fields, t2))
  }

  /** The two variables that a row has the addresses of. */
  function ReadRow(text: string): Option<((string, string), string)> {
    var (a, t) :- ReadNamed(text, "  {&", ", ");
    var (b, t1) :- ReadNamed(t, "&", "},\n");
    Some(((a, b), t1))
  }

  function ReadRows(text: string): Option<(seq<(string, string)>, string)>
    decreases |text|
  {
    var end := "  {NULL, NULL}\n};\n\n";
    if end <= text then Some(([], text[|end|..]))
    else
      var (row, t) :- ReadRow(text);
      if |t| >= |text| then None
      else
        var (rows, rest) :- ReadRows(t);
        Some(([row] + rows, rest))
  }

  function ValueOf(vars: seq<Variable>, ident: string): Option<seq<nat>> {
    if vars == [] then None
    else if vars[0].ident == ident then Some(vars[0].value)
    else ValueOf(vars[1..], ident)
  }

  /** What the lookup function sees of a row: the fields by their names. */
  datatype Entry = Entry(name: seq<nat>, data: seq<nat>)

  /** Each value of a row goes to the field declared in its place. */
  function FieldsOf(fields: (string, string), first: seq<nat>, second: seq<nat>): Option<Entry> {
    if fields == ("name", "data") then Some(Entry(first, second))
    else if fields == ("data", "name") then Some(Entry(second, first))
    else None
  }

  function Resolve(vars: seq<Variable>, fields: (string, string), rows: seq<(string, string)>): Option<seq<Entry>> {
    if rows == [] then Some([])
    else
      var first :- ValueOf(vars, rows[0].0);
      var second :- ValueOf(vars, rows[0].1);
      var entry :- FieldsOf(fields, first, second);
      var entries :- Resolve(vars, fields, rows[1..]);
      Some([entry] + entries)
  }

  /** No variable is declared twice. */
  predicate NoRepeats(vars: seq<Variable>) {
    forall i, j :: 0 <= i < j < |vars| ==> vars[i].ident != vars[j].ident
  }

  /** The struct and the rows, down to the lookup function and the end of the header. */
  function ReadTable(text: string, code: string): Option<((string, string), seq<(string, string)>)> {
    var (fields, t) :- ReadStruct(text);
    var (rows, t1) :- ReadRows(t);
    if t1 == code + "\n" + "#endif /* TRANSLATION_FILES_H */\n" then Some((fields, rows)) else None
  }

  /** The table that declarations and rows define. */
  function ReadBody(text: string, code: string): Option<seq<Entry>> {
    var (vars, t) :- ReadVariables(text);
    var (fields, rows) :- ReadTable(t, code);
    if NoRepeats(vars) then Resolve(vars, fields, rows) else None
  }

  /** The table a header defines, around the text of the lookup function. */
  function ReadHeader(text: string, code: string): Option<seq<Entry>> {
    var t :- Expect(text, "#ifndef TRANSLATION_FILES_H\n#define TRANSLATION_FILES_H\n\n#include <string>\n\n");
    ReadBody(t, code)
  }

  // The bytes

  ghost predicate EndsLiteral(rest: string) {
    rest != "" && rest[0] != '\"' && !IsBlank(rest[0])
  }

  /** After an escape comes another one, or the end of the literal: no digit. */
  lemma AfterEscape(bytes: Bytes, j: nat, rest: string)
    requires j <= |bytes|
    ensures var t := BytesText(bytes, j) + ("\"" + rest);
            t != "" && !IsHex(t[0])
  {
    if j < |bytes| && j % 16 != 0 {
      assert BytesText(bytes, j)[0] == '\\';
    }
  }

  lemma TwoHexDigits(b: Byte)
    ensures var digits := [HexDigit(b / 16), HexDigit(b % 16)];
            ValueInBase(digits, 16) == b
  {
    var digits := [HexDigit(b / 16), HexDigit(b % 16)];
    var high := [HexDigit(b / 16)];
    assert digits[..1] == high && high[..0] == "";
    assert ValueInBase(high, 16) == b / 16;
  }

  lemma EscapeReads(b: Byte, rest: string)
    requires rest != "" && !IsHex(rest[0])
    ensures Escape(['x', HexDigit(b / 16), HexDigit(b % 16)] + rest) == Some((b, 3))
  {
    var digits := [HexDigit(b / 16), HexDigit(b % 16)];
    var text := ['x', HexDigit(b / 16), HexDigit(b % 16)] + rest;
    assert text[1..] == digits + rest;
    SpanIs(digits + rest, IsHex, 2);
    assert text[1..3] == digits;
    TwoHexDigits(b);
  }

  lemma ReadsByte(b: Byte, rest: string)
    requires rest != "" && !IsHex(rest[0])
    requires Literals(true, rest).Some?
    ensures var (units, r) := Literals(true, rest).value;
            Literals(true, HexEscape(b) + rest) == Some(([b] + units, r))
  {
    var text := HexEscape(b) + rest;
    EscapeReads(b, rest);
    assert text[1..] == ['x', HexDigit(b / 16), HexDigit(b % 16)] + rest;
    assert text[4..] == rest;
  }

  lemma SkipsBlanks(rest: string)
    ensures Literals(false, "\n  \"" + rest) == Literals(true, rest)
    ensures ReadAfterBlanks("\n  \"" + rest) == Literals(true, rest)
  {
    var e := "\"" + rest;
    assert e[1..] == rest;
    OneBlank(' ', e);
    OneBlank(' ', [' '] + e);
    OneBlank('\n', [' '] + ([' '] + e));
    assert ['\n'] + ([' '] + ([' '] + e)) == "\n  \"" + rest;
  }

  lemma OneBlank(c: char, rest: string)
    requires IsBlank(c)
    ensures Literals(false, [c] + rest) == Literals(false, rest)
    ensures ReadAfterBlanks([c] + rest) == ReadAfterBlanks(rest)
  {
    assert ([c] + rest)[1..] == rest;
  }

  lemma ReadsBreak(rest: string)
    ensures Literals(true, "\"\n  \"" + rest) == Literals(true, rest)
  {
    SkipsBlanks(rest);
    assert ("\"\n  \"" + rest)[1..] == "\n  \"" + rest;
  }

  /** One byte, and the break before it, read from within a literal. */
  lemma ReadsBreakAndByte(j: nat, b: Byte, rest: string)
    requires j > 0 && rest != "" && !IsHex(rest[0])
    requires Literals(true, rest).Some?
    ensures var (units, r) := Literals(true, rest).value;
            Literals(true, Break(j) + (HexEscape(b) + rest)) == Some(([b] + units, r))
  {
    ReadsByte(b, rest);
    ReadsBreak(HexEscape(b) + rest);
    JoinEmpty(HexEscape(b) + rest);
  }

  lemma BytesStep(bytes: Bytes, j: nat)
    requires j < |bytes|
    ensures bytes[j..] == [bytes[j]] + bytes[j + 1..]
  {
  }

  lemma BytesTextJoin(bytes: Bytes, j: nat, close: string)
    requires j < |bytes|
    ensures BytesText(bytes, j) + close == Break(j) + (HexEscape(bytes[j]) + (BytesText(bytes, j + 1) + close))
  {
    JoinAssociates(Break(j) + HexEscape(bytes[j]), BytesText(bytes, j + 1), close);
    JoinAssociates(Break(j), HexEscape(bytes[j]), BytesText(bytes, j + 1) + close);
  }

  lemma ReadsClose(rest: string)
    requires EndsLiteral(rest)
    ensures Literals(true, "\"" + rest) == Some(([], rest))
  {
    assert ("\"" + rest)[1..] == rest;
  }

  /** From within the literal, the bytes still to come are read, across all the lines. */
  lemma {:induction false} BytesRead(bytes: Bytes, j: nat, rest: string)
    requires 0 < j <= |bytes| && EndsLiteral(rest)
    ensures Literals(true, BytesText(bytes, j) + ("\"" + rest)) == Some((bytes[j..], rest))
    decreases |bytes| - j
  {
    if j == |bytes| {
      ReadsClose(rest);
      JoinEmpty("\"" + rest);
      assert bytes[j..] == [];
    } else {
      BytesRead(bytes, j + 1, rest);
      AfterEscape(bytes, j + 1, rest);
      ReadsBreakAndByte(j, bytes[j], BytesText(bytes, j + 1) + ("\"" + rest));
      BytesTextJoin(bytes, j, "\"" + rest);
      BytesStep(bytes, j);
    }
  }

  lemma SizeStarts(n: nat, rest: string)
    ensures var size := SizeText(n) + rest;
            |size| >= 2 && size[0] == ',' && size[1] == '\n'
  {
  }

  /** A quote that opens a literal on a line end opens nothing. */
  lemma NothingOpened(size: string)
    requires |size| >= 2 && size[0] == ',' && size[1] == '\n'
    ensures ReadAfterBlanks("\"" + size) == None
  {
    assert ("\"" + size)[1..] == size;
    assert Literals(true, size[1..]) == None;
  }

  /** The printed bytes read back as the file's, unless there are none: then no literal is opened,
      and the quote that should close one opens it on a line end. */
  lemma BytesReadBackIff(bytes: Bytes, n: nat, rest: string)
    ensures var size := SizeText(n) + rest;
            var text := BytesText(bytes, 0) + ("\"" + size);
            if bytes == [] then ReadAfterBlanks(text) == None
            else ReadAfterBlanks(text) == Some((bytes, size))
  {
    var size := SizeText(n) + rest;
    SizeStarts(n, rest);
    if bytes == [] {
      JoinEmpty("\"" + size);
      NothingOpened(size);
    } else {
      var tail := BytesText(bytes, 1) + ("\"" + size);
      BytesRead(bytes, 1, size);
      AfterEscape(bytes, 1, size);
      ReadsByte(bytes[0], tail);
      BytesTextJoin(bytes, 0, "\"" + size);
      SkipsBlanks(HexEscape(bytes[0]) + tail);
      BytesStep(bytes, 0);
      assert bytes[0..] == bytes;
    }
  }

  // The declarations

  lemma IdentReads(ident: string, rest: string)
    requires ident != "" && !IsDigit(ident[0]) && forall k :: 0 <= k < |ident| ==> IsIdent(ident[k])
    requires rest != "" && !IsIdent(rest[0])
    ensures ReadIdent(ident + rest) == Some((ident, rest))
  {
    SpanIs(ident + rest, IsIdent, |ident|);
    TakeOfJoin(ident, rest, |ident|);
    DropOfJoin(ident, rest, |ident|);
    assert ident[..|ident|] == ident && ident[|ident|..] + rest == rest;
  }

  lemma IdentsAre(i: nat)
    ensures forall k :: 0 <= k < |NameIdent(i)| ==> IsIdent(NameIdent(i)[k])
    ensures forall k :: 0 <= k < |DataIdent(i)| ==> IsIdent(DataIdent(i)[k])
  {
    assert forall k :: 0 <= k < |NAME_START| ==> IsIdent(NAME_START[k]);
    assert forall k :: 0 <= k < |DATA_START| ==> IsIdent(DATA_START[k]);
  }

  lemma NameIdentReads(i: nat, rest: string)
    requires rest != "" && !IsIdent(rest[0])
    ensures ReadIdent(NameIdent(i) + rest) == Some((NameIdent(i), rest))
  {
    IdentsAre(i);
    assert NameIdent(i)[0] == NAME_START[0] == 't';
    IdentReads(NameIdent(i), rest);
  }

  lemma DataIdentReads(i: nat, rest: string)
    requires rest != "" && !IsIdent(rest[0])
    ensures ReadIdent(DataIdent(i) + rest) == Some((DataIdent(i), rest))
  {
    IdentsAre(i);
    assert DataIdent(i)[0] == DATA_START[0] == 't';
    IdentReads(DataIdent(i), rest);
  }

  /** An identifier and what stands around it. */
  lemma NamedReads(before: string, ident: string, behind: string, rest: string)
    requires behind != "" && ReadIdent(ident + (behind + rest)) == Some((ident, behind + rest))
    ensures ReadNamed(before + (ident + (behind + rest)), before, behind) == Some((ident, rest))
  {
    Expected(before, ident + (behind + rest));
    Expected(behind, rest);
  }

  lemma NumberReads(before: string, i: nat, behind: string, rest: string)
    requires behind != "" && !IsDigit(behind[0])
    ensures ReadNumber(before + (Decimal(i) + (behind + rest)), before, behind) == Some((i, rest))
  {
    Expected(before, Decimal(i) + (behind + rest));
    DecimalReads(i, behind + rest);
    Expected(behind, rest);
  }

  /** The start of a declaration, up to what the variable is initialised with. */
  lemma VariableReads(ident: string, init: string)
    requires ReadIdent(ident + (" = " + init)) == Some((ident, " = " + init))
    ensures ReadVariable(STRING_DECL + (ident + (" = " + init))) ==
            match ReadValue(init)
            case None => None
            case Some(r) => Some((Variable(ident, r.0), r.1))
  {
    NamedReads(STRING_DECL, ident, " = ", init);
  }

  lemma NameTextJoin(i: nat, name: string, rest: string)
    ensures NameText(i, name) + rest ==
            STRING_DECL + (NameIdent(i) + (" = " + ("\"" + name + "\"" + (";\n" + rest))))
  {
    var quoted := "\"" + name + "\"";
    JoinAssociates(STRING_DECL, NameIdent(i) + (" = " + (quoted + ";\n")), rest);
    JoinAssociates(NameIdent(i), " = " + (quoted + ";\n"), rest);
    JoinAssociates(" = ", quoted + ";\n", rest);
    JoinAssociates(quoted, ";\n", rest);
  }

  /** Reading the declaration of a name is reading what is printed for it. */
  lemma NameReadsAs(i: nat, name: string, rest: string)
    ensures ReadVariable(NameText(i, name) + rest) ==
            match ReadValue("\"" + name + "\"" + (";\n" + rest))
            case None => None
            case Some(r) => Some((Variable(NameIdent(i), r.0), r.1))
  {
    var init := "\"" + name + "\"" + (";\n" + rest);
    NameTextJoin(i, name, rest);
    NameIdentReads(i, " = " + init);
    VariableReads(NameIdent(i), init);
  }

  lemma NameReads(i: nat, name: string, rest: string)
    requires Plain(name)
    ensures ReadVariable(NameText(i, name) + rest) == Some((Variable(NameIdent(i), Codes(name)), rest))
  {
    NameReadsAs(i, name, rest);
    QuotedReadsBackIff(name, ";\n" + rest);
    Expected(";\n", rest);
  }

  lemma DataTextJoin(i: nat, bytes: Bytes, rest: string)
    ensures DataText(i, bytes) + rest ==
            STRING_DECL + (DataIdent(i)
                           + (" = " + ("std::string("
                                       + (BytesText(bytes, 0) + ("\"" + (SizeText(|bytes|) + rest))))))
  {
    var b, q, z := BytesText(bytes, 0), "\"", SizeText(|bytes|);
    JoinAssociates(DataStart(i), b + (q + z), rest);
    JoinAssociates(b, q + z, rest);
    JoinAssociates(q, z, rest);
    var tail := b + (q + (z + rest));
    JoinAssociates(STRING_DECL, DataIdent(i) + (" = " + "std::string("), tail);
    JoinAssociates(DataIdent(i), " = " + "std::string(", tail);
    JoinAssociates(" = ", "std::string(", tail);
  }

  lemma SizeReads(n: nat, rest: string)
    ensures ReadNumber(SizeText(n) + rest, ",\n  ", ");\n\n") == Some((n, rest))
  {
    JoinAssociates(",\n  ", Decimal(n) + ");\n\n", rest);
    JoinAssociates(Decimal(n), ");\n\n", rest);
    NumberReads(",\n  ", n, ");\n\n", rest);
  }

  lemma CountedReadsIff(bytes: Bytes, rest: string)
    ensures ReadCounted(BytesText(bytes, 0) + ("\"" + (SizeText(|bytes|) + rest))) ==
            if bytes == [] then None else Some((bytes, rest))
  {
    BytesReadBackIff(bytes, |bytes|, rest);
    SizeReads(|bytes|, rest);
    assert bytes[..|bytes|] == bytes;
  }

  lemma DataReadsIff(i: nat, bytes: Bytes, rest: string)
    ensures ReadVariable(DataText(i, bytes) + rest) ==
            if bytes == [] then None else Some((Variable(DataIdent(i), bytes), rest))
  {
    var counted := BytesText(bytes, 0) + ("\"" + (SizeText(|bytes|) + rest));
    var init := "std::string(" + counted;
    DataTextJoin(i, bytes, rest);
    DataIdentReads(i, " = " + init);
    VariableReads(DataIdent(i), init);
    assert init[0] == 's';
    Expected("std::string(", counted);
    CountedReadsIff(bytes, rest);
  }

  ghost function Vars(files: seq<File>, k: nat): (vars: seq<Variable>)
    requires k <= |files|
    ensures |vars| == 2 * (|files| - k)
    decreases |files| - k
  {
    if k == |files| then []
    else [Variable(NameIdent(k + 1), Codes(files[k].name))]
         + ([Variable(DataIdent(k + 1), files[k].bytes)] + Vars(files, k + 1))
  }

  ghost predicate PlainNames(files: seq<File>) {
    forall f :: f in files ==> Plain(f.name)
  }

  ghost predicate NoneEmpty(files: seq<File>, k: nat) {
    forall j :: k <= j < |files| ==> files[j].bytes != []
  }

  lemma FilesTextJoin(files: seq<File>, k: nat, rest: string)
    requires k < |files|
    ensures FilesText(files, k) + rest ==
            NameText(k + 1, files[k].name) + (DataText(k + 1, files[k].bytes) + (FilesText(files, k + 1) + rest))
  {
    var a, b, c := NameText(k + 1, files[k].name), DataText(k + 1, files[k].bytes), FilesText(files, k + 1);
    JoinAssociates(a, b + c, rest);
    JoinAssociates(b, c, rest);
  }

  lemma TextsStart(i: nat, name: string, bytes: Bytes, rest: string)
    ensures STRING_DECL <= NameText(i, name) + rest && STRING_DECL <= DataText(i, bytes) + rest
  {
    NameTextJoin(i, name, rest);
    DataTextJoin(i, bytes, rest);
  }

  /** One more variable in front. */
  lemma ReadsFirst(text: string, v: Variable, tail: string)
    requires STRING_DECL <= text && ReadVariable(text) == Some((v, tail)) && |tail| < |text|
    ensures ReadVariables(text) == match ReadVariables(tail)
                                   case None => None
                                   case Some(r) => Some(([v] + r.0, r.1))
  {
  }

  lemma ReadsOneFile(i: nat, f: File, tail: string)
    requires Plain(f.name)
    ensures var text := NameText(i, f.name) + (DataText(i, f.bytes) + tail);
            if f.bytes == [] then ReadVariables(text) == None
            else match ReadVariables(tail)
                 case None => ReadVariables(text) == None
                 case Some(r) =>
                   ReadVariables(text) ==
                   Some(([Variable(NameIdent(i), Codes(f.name))] + ([Variable(DataIdent(i), f.bytes)] + r.0), r.1))
  {
    var data := DataText(i, f.bytes) + tail;
    TextsStart(i, f.name, f.bytes, data);
    TextsStart(i, f.name, f.bytes, tail);
    NameReads(i, f.name, data);
    DataReadsIff(i, f.bytes, tail);
    ReadsFirst(NameText(i, f.name) + data, Variable(NameIdent(i), Codes(f.name)), data);
    if f.bytes != [] {
      ReadsFirst(data, Variable(DataIdent(i), f.bytes), tail);
    }
  }

  lemma {:induction false} FilesRead(files: seq<File>, k: nat, rest: string)
    requires k <= |files| && PlainNames(files) && !(STRING_DECL <= rest)
    ensures ReadVariables(FilesText(files, k) + rest) ==
            if NoneEmpty(files, k) then Some((Vars(files, k), rest)) else None
    decreases |files| - k
  {
    if k == |files| {
      JoinEmpty(rest);
    } else {
      FilesTextJoin(files, k, rest);
      FilesRead(files, k + 1, rest);
      assert files[k] in files;
      ReadsOneFile(k + 1, files[k], FilesText(files, k + 1) + rest);
      assert NoneEmpty(files, k) <==> files[k].bytes != [] && NoneEmpty(files, k + 1);
    }
  }

  // The identifiers

  lemma JoinInjective(a: string, b: string, c: string)
    requires a + b == a + c
    ensures b == c
  {
    assert (a + b)[|a|..] == b && (a + c)[|a|..] == c;
  }

  lemma IdentsDiffer(i: nat, j: nat)
    ensures NameIdent(i) != DataIdent(j)
    ensures i != j ==> NameIdent(i) != NameIdent(j) && DataIdent(i) != DataIdent(j)
  {
    assert NameIdent(i)[17] == NAME_START[17] == 'n' && DataIdent(j)[17] == DATA_START[17] == 'd';
    DecimalValue(i);
    DecimalValue(j);
    if NameIdent(i) == NameIdent(j) {
      JoinInjective(NAME_START, Decimal(i), Decimal(j));
    }
    if DataIdent(i) == DataIdent(j) {
      JoinInjective(DATA_START, Decimal(i), Decimal(j));
    }
  }

  ghost predicate Declares(vars: seq<Variable>, ident: string) {
    exists j :: 0 <= j < |vars| && vars[j].ident == ident
  }

  lemma DeclaresFirst(v: Variable, vars: seq<Variable>, ident: string)
    ensures Declares([v] + vars, ident) <==> v.ident == ident || Declares(vars, ident)
  {
    if Declares(vars, ident) {
      var j :| 0 <= j < |vars| && vars[j].ident == ident;
      assert ([v] + vars)[j + 1].ident == ident;
    }
    assert ([v] + vars)[0] == v;
  }

  lemma NoRepeatsFirst(v: Variable, vars: seq<Variable>)
    requires NoRepeats(vars) && !Declares(vars, v.ident)
    ensures NoRepeats([v] + vars)
  {
  }

  /** The files from the k-th on declare no variable with a number up to k. */
  lemma {:induction false} NotDeclared(files: seq<File>, k: nat, i: nat)
    requires i <= k <= |files|
    ensures !Declares(Vars(files, k), NameIdent(i)) && !Declares(Vars(files, k), DataIdent(i))
    decreases |files| - k
  {
    if k == |files| {
    } else {
      NotDeclared(files, k + 1, i);
      IdentsDiffer(i, k + 1);
      IdentsDiffer(k + 1, i);
      var name, data := Variable(NameIdent(k + 1), Codes(files[k].name)), Variable(DataIdent(k + 1), files[k].bytes);
      var vars := Vars(files, k + 1);
      DeclaresFirst(data, vars, NameIdent(i));
      DeclaresFirst(data, vars, DataIdent(i));
      DeclaresFirst(name, [data] + vars, NameIdent(i));
      DeclaresFirst(name, [data] + vars, DataIdent(i));
    }
  }

  lemma {:induction false} VarsDiffer(files: seq<File>, k: nat)
    requires k <= |files|
    ensures NoRepeats(Vars(files, k))
    decreases |files| - k
  {
    if k == |files| {
    } else {
      var name, data := Variable(NameIdent(k + 1), Codes(files[k].name)), Variable(DataIdent(k + 1), files[k].bytes);
      VarsDiffer(files, k + 1);
      NotDeclared(files, k + 1, k + 1);
      NoRepeatsFirst(data, Vars(files, k + 1));
      IdentsDiffer(k + 1, k + 1);
      DeclaresFirst(data, Vars(files, k + 1), name.ident);
      NoRepeatsFirst(name, [data] + Vars(files, k + 1));
    }
  }

  lemma {:induction false} VarFound(files: seq<File>, k: nat, i: nat)
    requires k < i <= |files|
    ensures ValueOf(Vars(files, k), NameIdent(i)) == Some(Codes(files[i - 1].name))
    ensures ValueOf(Vars(files, k), DataIdent(i)) == Some(files[i - 1].bytes)
    decreases i - k
  {
    var vars := Vars(files, k);
    assert vars[1..][1..] == Vars(files, k + 1);
    IdentsDiffer(i, k + 1);
    IdentsDiffer(k + 1, i);
    if i == k + 1 {
    } else {
      VarFound(files, k + 1, i);
    }
  }

  // The table

  ghost function Rows(n: nat, k: nat): (rows: seq<(string, string)>)
    requires k <= n
    ensures |rows| == n - k
    ensures forall j :: 0 <= j < n - k ==> rows[j] == (NameIdent(k + j + 1), DataIdent(k + j + 1))
    decreases n - k
  {
    if k == n then [] else [(NameIdent(k + 1), DataIdent(k + 1))] + Rows(n, k + 1)
  }

  lemma RowTextJoin(i: nat, rest: string)
    ensures RowText(i) + rest == "  {&" + (NameIdent(i) + (", " + ("&" + (DataIdent(i) + ("},\n" + rest)))))
  {
    var a, b := NameIdent(i), DataIdent(i);
    JoinAssociates("  {&", a + (", " + ("&" + (b + "},\n"))), rest);
    JoinAssociates(a, ", " + ("&" + (b + "},\n")), rest);
    JoinAssociates(", ", "&" + (b + "},\n"), rest);
    JoinAssociates("&", b + "},\n", rest);
    JoinAssociates(b, "},\n", rest);
  }

  lemma RowReads(i: nat, rest: string)
    ensures ReadRow(RowText(i) + rest) == Some(((NameIdent(i), DataIdent(i)), rest))
  {
    var t := "&" + (DataIdent(i) + ("},\n" + rest));
    RowTextJoin(i, rest);
    NameIdentReads(i, ", " + t);
    NamedReads("  {&", NameIdent(i), ", ", t);
    DataIdentReads(i, "},\n" + rest);
    NamedReads("&", DataIdent(i), "},\n", rest);
  }

  lemma RowIsNoEnd(i: nat, rest: string)
    ensures !(TABLE_END <= RowText(i) + rest) && |RowText(i)| > 0
  {
    assert TABLE_END[3] == 'N' && (RowText(i) + rest)[3] == '&';
  }

  lemma {:induction false} RowsRead(n: nat, k: nat, rest: string)
    requires k <= n
    ensures ReadRows(RowsText(n, k) + (TABLE_END + rest)) == Some((Rows(n, k), rest))
    decreases n - k
  {
    var last := TABLE_END + rest;
    if k == n {
      JoinEmpty(last);
      Expected(TABLE_END, rest);
    } else {
      var tail := RowsText(n, k + 1) + last;
      JoinAssociates(RowText(k + 1), RowsText(n, k + 1), last);
      RowsRead(n, k + 1, rest);
      RowReads(k + 1, tail);
      RowIsNoEnd(k + 1, tail);
    }
  }

  ghost function Entries(files: seq<File>, k: nat): (entries: seq<Entry>)
    requires k <= |files|
    ensures |entries| == |files| - k
    ensures forall j :: 0 <= j < |files| - k ==> entries[j] == Entry(Codes(files[k + j].name), files[k + j].bytes)
    decreases |files| - k
  {
    if k == |files| then []
    else [Entry(Codes(files[k].name), files[k].bytes)] + Entries(files, k + 1)
  }

  lemma {:induction false} TableResolves(files: seq<File>, k: nat)
    requires k <= |files|
    ensures Resolve(Vars(files, 0), ("name", "data"), Rows(|files|, k)) == Some(Entries(files, k))
    decreases |files| - k
  {
    if k == |files| {
    } else {
      assert Rows(|files|, k)[1..] == Rows(|files|, k + 1);
      VarFound(files, 0, k + 1);
      TableResolves(files, k + 1);
    }
  }

  /** No declaration can be mistaken for the start of the table. */
  lemma TableIsNoVariable(n: nat, code: string)
    ensures !(STRING_DECL <= TableText(n, code))
  {
    assert STRING_DECL[15] == 'd' && TABLE_START[15] == 'r';
    assert TableText(n, code)[15] == StructText()[15] == TABLE_START[15];
  }

  lemma FieldReads(field: string, name: string, rest: string)
    requires field == "  const std::string *" + (name + ";\n")
    requires name != "" && !IsDigit(name[0]) && forall k :: 0 <= k < |name| ==> IsIdent(name[k])
    ensures ReadNamed(field + rest, "  const std::string *", ";\n") == Some((name, rest))
  {
    JoinAssociates("  const std::string *", name + ";\n", rest);
    JoinAssociates(name, ";\n", rest);
    IdentReads(name, ";\n" + rest);
    NamedReads("  const std::string *", name, ";\n", rest);
  }

  lemma StructTextJoin(rest: string)
    ensures StructText() + rest == TABLE_START + (FIELD_NAME + (FIELD_DATA + (TABLE_ROWS + rest)))
  {
    JoinAssociates(TABLE_START, FIELD_NAME + (FIELD_DATA + TABLE_ROWS), rest);
    JoinAssociates(FIELD_NAME, FIELD_DATA + TABLE_ROWS, rest);
    JoinAssociates(FIELD_DATA, TABLE_ROWS, rest);
  }

  lemma FieldsRead(rest: string)
    ensures ReadNamed(FIELD_NAME + rest, "  const std::string *", ";\n") == Some(("name", rest))
    ensures ReadNamed(FIELD_DATA + rest, "  const std::string *", ";\n") == Some(("data", rest))
  {
    FieldReads(FIELD_NAME, "name", rest);
    FieldReads(FIELD_DATA, "data", rest);
  }

  /** The struct as it is printed has the name first and the contents second. */
  lemma StructReads(rest: string)
    ensures ReadStruct(StructText() + rest) == Some((("name", "data"), rest))
  {
    var t2 := TABLE_ROWS + rest;
    StructTextJoin(rest);
    Expected(TABLE_START, FIELD_NAME + (FIELD_DATA + t2));
    FieldsRead(FIELD_DATA + t2);
    FieldsRead(t2);
    Expected(TABLE_ROWS, rest);
  }

  lemma TableReads(n: nat, code: string)
    ensures ReadTable(TableText(n, code), code) == Some((("name", "data"), Rows(n, 0)))
  {
    StructReads(RowsText(n, 0) + (TABLE_END + Rest(code)));
    RowsRead(n, 0, Rest(code));
  }

  lemma HeaderIsBody(files: seq<File>, code: string)
    ensures ReadHeader(Header(files, code), code) == ReadBody(FilesText(files, 0) + TableText(|files|, code), code)
  {
    Expected(PROLOGUE, FilesText(files, 0) + TableText(|files|, code));
  }

  /**
   Read as C++, the header of files with plain names holds exactly their names and bytes, in order,
   if no file is empty; and if one is, the header cannot be read at all.
   */
  lemma PlainHeaderReads(files: seq<File>, code: string)
    requires PlainNames(files)
    ensures ReadHeader(Header(files, code), code) == if NoneEmpty(files, 0) then Some(Entries(files, 0)) else None
  {
    HeaderIsBody(files, code);
    TableIsNoVariable(|files|, code);
    FilesRead(files, 0, TableText(|files|, code));
    TableReads(|files|, code);
    VarsDiffer(files, 0);
    TableResolves(files, 0);
  }

  // The lookup

  lemma CodesInjective(a: string, b: string)
    ensures Codes(a) == Codes(b) <==> a == b
  {
    if Codes(a) == Codes(b) {
      forall k | 0 <= k < |a|
        ensures a[k] == b[k]
      {
        assert Codes(a)[k] == Codes(b)[k];
      }
    }
  }

  /** An entry of the table has a given name exactly when the file printed there has. */
  lemma EntryNamed(files: seq<File>, k: nat, name: string)
    requires k < |files|
    ensures Entries(files, 0)[k].name == Codes(name) <==> files[k].name == name
    ensures Entries(files, 0)[k].data == files[k].bytes
  {
    CodesInjective(files[k].name, name);
  }

  /** Walks the table up to its null entry. */
  method FindEmbeddedFile(table: seq<Entry>, name: seq<nat>) returns (data: Option<seq<nat>>)
    ensures data.None? <==> forall k :: 0 <= k < |table| ==> table[k].name != name
    ensures data.Some? ==> exists k :: 0 <= k < |table| && table[k].name == name && table[k].data == data.value
                                       && forall j :: 0 <= j < k ==> table[j].name != name
  {
    var p := 0;
    while p < |table|
      invariant p <= |table| && forall k :: 0 <= k < p ==> table[k].name != name
    {
      if table[p].name == name {
        return Some(table[p].data);
      }
      p := p + 1;
    }
    return None;
  }
}

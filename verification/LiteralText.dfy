/**
 C++ string literals as the compiler reads them: escape sequences and string literals after
 sections 5.13.3 and 5.13.5 of ISO/IEC 14882:2020, adjacent literals joined after section 5.2.
 */
module LiteralText {
  import opened Types
  import opened Seqs

  // Digits

  predicate IsHex(c: char) {
    '0' <= c <= '9' || 'a' <= c <= 'f' || 'A' <= c <= 'F'
  }

  function HexValue(c: char): (v: nat)
    requires IsHex(c)
    ensures v < 16
  {
    if c <= '9' then c as int - '0' as int
    else if c <= 'F' then c as int - 'A' as int + 10
    else c as int - 'a' as int + 10
  }

  function HexDigit(v: nat): (c: char)
    requires v < 16
    ensures IsHex(c) && HexValue(c) == v
  {
    if v < 10 then ('0' as int + v) as char else ('a' as int + v - 10) as char
  }

  predicate IsDigit(c: char) {
    '0' <= c <= '9'
  }

  predicate IsOctal(c: char) {
    '0' <= c <= '7'
  }

  /** How many characters from the start satisfy p. */
  function Span(text: string, p: char -> bool): (n: nat)
    ensures n <= |text|
    ensures forall k :: 0 <= k < n ==> p(text[k])
    ensures n < |text| ==> !p(text[n])
  {
    if text == "" || !p(text[0]) then 0 else 1 + Span(text[1..], p)
  }

  lemma SpanIs(text: string, p: char -> bool, n: nat)
    requires n <= |text| && (n < |text| ==> !p(text[n]))
    requires forall k :: 0 <= k < n ==> p(text[k])
    ensures Span(text, p) == n
  {
  }

  function ValueInBase(digits: string, base: nat): nat
    requires forall k :: 0 <= k < |digits| ==> IsHex(digits[k])
  {
    if digits == "" then 0
    else ValueInBase(digits[..|digits| - 1], base) * base + HexValue(digits[|digits| - 1])
  }

  /** n in decimal, as %d prints it. */
  function Decimal(n: nat): (s: string)
    ensures |s| > 0 && forall k :: 0 <= k < |s| ==> IsDigit(s[k])
  {
    if n < 10 then [HexDigit(n)] else Decimal(n / 10) + [HexDigit(n % 10)]
  }

  /** The digits as they are written. */
  lemma HexDigitIs(v: nat)
    requires v < 16
    ensures HexDigit(v) == "0123456789abcdef"[v]
  {
  }

  /** n without its last k digits. */
  ghost function Shifted(n: nat, k: nat): nat {
    if k == 0 then n else Shifted(n / 10, k - 1)
  }

  /** Units last, tens before them, and so on; and no zero in front. */
  lemma {:induction false} DecimalDigit(n: nat, k: nat)
    requires k < |Decimal(n)|
    ensures Decimal(n)[|Decimal(n)| - 1 - k] == "0123456789"[Shifted(n, k) % 10]
    ensures n > 0 ==> Decimal(n)[0] != '0'
  {
    HexDigitIs(n % 10);
    if n < 10 {
    } else {
      assert |Decimal(n)| == |Decimal(n / 10)| + 1 && Decimal(n)[0] == Decimal(n / 10)[0];
      DecimalDigit(n / 10, if k == 0 then 0 else k - 1);
    }
  }

  lemma {:induction false} DecimalValue(n: nat)
    ensures ValueInBase(Decimal(n), 10) == n
  {
    if n < 10 {
      assert [HexDigit(n)][..0] == "";
    } else {
      DecimalValue(n / 10);
      var s := Decimal(n);
      assert s[..|s| - 1] == Decimal(n / 10);
    }
  }

  /** A decimal number, as long as digits go on, and what follows it. */
  function ReadDecimal(text: string): Option<(nat, string)> {
    var n := Span(text, IsDigit);
    if n == 0 then None else Some((ValueInBase(text[..n], 10), text[n..]))
  }

  lemma DecimalReads(n: nat, rest: string)
    requires rest == "" || !IsDigit(rest[0])
    ensures ReadDecimal(Decimal(n) + rest) == Some((n, rest))
  {
    var digits := Decimal(n);
    SpanIs(digits + rest, IsDigit, |digits|);
    DecimalValue(n);
    TakeOfJoin(digits, rest, |digits|);
    DropOfJoin(digits, rest, |digits|);
    assert digits[..|digits|] == digits && digits[|digits|..] + rest == rest;
  }

  function Expect(text: string, prefix: string): Option<string> {
    if prefix <= text then Some(text[|prefix|..]) else None
  }

  lemma Expected(prefix: string, rest: string)
    ensures Expect(prefix + rest, prefix) == Some(rest)
  {
    DropOfJoin(prefix, rest, |prefix|);
    assert prefix[|prefix|..] + rest == rest;
  }

  // Literals

  /** What a simple escape sequence stands for. */
  function SimpleEscape(c: char): Option<nat> {
    match c
    case '\'' => Some(0x27)
    case '\"' => Some(0x22)
    case '?' => Some(0x3f)
    case '\\' => Some(0x5c)
    case 'a' => Some(0x07)
    case 'b' => Some(0x08)
    case 'f' => Some(0x0c)
    case 'n' => Some(0x0a)
    case 'r' => Some(0x0d)
    case 't' => Some(0x09)
    case 'v' => Some(0x0b)
    case _ => None
  }

  /** The value of the escape sequence after a backslash, and its length: a hexadecimal one runs
      as long as hexadecimal digits go on, an octal one takes at most three digits. */
  function Escape(text: string): (r: Option<(nat, nat)>)
    ensures r.Some? ==> 0 < r.value.1 <= |text|
  {
    if text == "" then None
    else if text[0] == 'x' then
      var n := Span(text[1..], IsHex);
      if n == 0 then None
      else
        var value := ValueInBase(text[1..1 + n], 16);
        if value < 256 then Some((value, 1 + n)) else None
    else if IsOctal(text[0]) then
      var m := Span(text, IsOctal);
      var n := if m < 3 then m else 3;
      var value := ValueInBase(text[..n], 8);
      if value < 256 then Some((value, n)) else None
    else match SimpleEscape(text[0]) case Some(v) => Some((v, 1)) case None => None
  }

  predicate IsBlank(c: char) {
    c == ' ' || c == '\n' || c == '\t'
  }

  /** Reads literals one after the other, blanks between them apart, up to the first character
      that starts none; `inside` says that the text starts within a literal. */
  function Literals(inside: bool, text: string): Option<(seq<nat>, string)>
    decreases |text|
  {
    if text == "" then (if inside then None else Some(([], text)))
    else if !inside then
      if IsBlank(text[0]) then Literals(false, text[1..])
      else if text[0] == '\"' then Literals(true, text[1..])
      else Some(([], text))
    else if text[0] == '\"' then Literals(false, text[1..])
    else if text[0] == '\n' then None
    else if text[0] == '\\' then
      var (value, n) :- Escape(text[1..]);
      var (units, rest) :- Literals(true, text[1 + n..]);
      Some(([value] + units, rest))
    else
      var (units, rest) :- Literals(true, text[1..]);
      Some(([text[0] as nat] + units, rest))
  }

  /** The literal sequence a text starts with. */
  function ReadString(text: string): Option<(seq<nat>, string)> {
    if text == "" || text[0] != '\"' then None else Literals(true, text[1..])
  }

  function Codes(s: string): (codes: seq<nat>)
    ensures |codes| == |s|
  {
    seq(|s|, k requires 0 <= k < |s| => s[k] as nat)
  }

  /** Characters that a literal holds as they are. */
  predicate Plain(s: string) {
    forall k :: 0 <= k < |s| ==> s[k] != '\"' && s[k] != '\\' && s[k] != '\n'
  }

  lemma {:induction false} PlainReads(s: string, rest: string)
    requires Plain(s) && (rest == "" || (rest[0] != '\"' && !IsBlank(rest[0])))
    ensures Literals(true, s + "\"" + rest) == Some((Codes(s), rest))
    decreases |s|
  {
    var text := s + "\"" + rest;
    if s == "" {
      assert text[0] == '\"' && text[1..] == rest;
    } else {
      PlainReads(s[1..], rest);
      assert text[0] == s[0] && text[1..] == s[1..] + "\"" + rest;
      assert Codes(s) == [s[0] as nat] + Codes(s[1..]);
    }
  }

  /** A literal holds fewer units than the characters it was read from: its quotes are not among them. */
  lemma {:induction false} UnitsBound(inside: bool, text: string)
    requires Literals(inside, text).Some?
    ensures var (units, rest) := Literals(inside, text).value;
            && |units| + |rest| <= |text|
            && (inside || rest != text ==> |units| + |rest| < |text|)
    decreases |text|
  {
    if text == "" {
    } else {
      if !inside {
        if IsBlank(text[0]) {
          UnitsBound(false, text[1..]);
        } else if text[0] == '\"' {
          UnitsBound(true, text[1..]);
        }
      } else if text[0] == '\"' {
        UnitsBound(false, text[1..]);
      } else if text[0] == '\\' {
        UnitsBound(true, text[1 + Escape(text[1..]).value.1..]);
      } else {
        UnitsBound(true, text[1..]);
      }
    }
  }

  /** A string that is not plain has fewer units than characters when it is read up to its own quote. */
  lemma {:induction false} NotPlainShrinks(s: string, rest: string)
    requires !Plain(s)
    ensures var r := Literals(true, s + "\"" + rest);
            r.Some? && r.value.1 == rest ==> |r.value.0| < |s|
    decreases |s|
  {
    var text := s + "\"" + rest;
    assert text[0] == s[0] && text[1..] == s[1..] + "\"" + rest;
    if s[0] == '\"' {
      if Literals(false, text[1..]).Some? {
        UnitsBound(false, text[1..]);
      }
    } else if s[0] == '\\' {
      var e := Escape(text[1..]);
      if e.Some? && Literals(true, text[1 + e.value.1..]).Some? {
        UnitsBound(true, text[1 + e.value.1..]);
      }
    } else if s[0] != '\n' {
      NotPlainShrinks(s[1..], rest);
    }
  }

  /** Quoted as it stands, a string reads back as itself exactly when it is plain. */
  lemma QuotedReadsBackIff(s: string, rest: string)
    requires rest == "" || (rest[0] != '\"' && !IsBlank(rest[0]))
    ensures ReadString("\"" + s + "\"" + rest) == Some((Codes(s), rest)) <==> Plain(s)
  {
    var text := "\"" + s + "\"" + rest;
    assert text[1..] == s + "\"" + rest;
    if Plain(s) {
      PlainReads(s, rest);
    } else {
      NotPlainShrinks(s, rest);
    }
  }
}

/** JavaScript value semantics that the deck's server and client code rely on:
    keys that may be missing or null, the truthiness used by `||`, number
    formatting, `parseInt`, `String.prototype.startsWith`/`replace`, and the
    `textContent` of markup. */
module Js {

  datatype Option<T> = None | Some(value: T)

  /** A JSON object member: the key is missing (`undefined`), present with
      `null`, or present with a value. */
  datatype Opt<T> = Absent | Null | Val(v: T)

  /** JS truthiness of a string-valued member: only a non-empty string is truthy. */
  predicate TruthyStr(o: Opt<string>) {
    o.Val? && o.v != ""
  }

  /** `a || b` on string-valued members. */
  function OrStr(a: Opt<string>, b: Opt<string>): (r: Opt<string>)
    ensures TruthyStr(a) ==> r == a
    ensures !TruthyStr(a) ==> r == b
  {
    if TruthyStr(a) then a else b
  }

  /** The text a template literal `${x}` produces for a string-valued member. */
  function Display(o: Opt<string>): (r: string)
    ensures o.Val? ==> r == o.v
    ensures o.Absent? ==> r == "undefined"
    ensures o.Null? ==> r == "null"
  {
    match o
    case Absent => "undefined"
    case Null => "null"
    case Val(s) => s
  }

  // ---------------------------------------------------------------------
  // Decimal numerals

  predicate IsDigit(c: char) { '0' <= c <= '9' }

  function DigitChar(d: nat): (c: char)
    requires d < 10
    ensures IsDigit(c) && c as int - '0' as int == d
  {
    ['0', '1', '2', '3', '4', '5', '6', '7', '8', '9'][d]
  }

  /** The decimal numeral JS prints for a non-negative integer. */
  function NatStr(n: nat): (s: string)
    ensures |s| > 0
    ensures forall i :: 0 <= i < |s| ==> IsDigit(s[i])
  {
    if n < 10 then [DigitChar(n)] else NatStr(n / 10) + [DigitChar(n % 10)]
  }

  /** The decimal numeral JS prints for any integer. */
  function IntStr(n: int): (s: string)
    ensures n >= 0 ==> s == NatStr(n)
    ensures n < 0 ==> s == "-" + NatStr(-n)
  {
    if n >= 0 then NatStr(n) else "-" + NatStr(-n)
  }

  function DigitValue(c: char): (v: nat)
    requires IsDigit(c)
    ensures v < 10
  {
    (c as int - '0' as int) as nat
  }

  function DecValue(d: string): nat
    requires forall i :: 0 <= i < |d| ==> IsDigit(d[i])
  {
    if d == [] then 0 else DecValue(d[..|d| - 1]) * 10 + DigitValue(d[|d| - 1])
  }

  lemma {:induction false} DecValueNatStr(n: nat)
    ensures DecValue(NatStr(n)) == n
  {
    if n >= 10 {
      var s := NatStr(n);
      assert s[..|s| - 1] == NatStr(n / 10);
      DecValueNatStr(n / 10);
    }
  }

  // ---------------------------------------------------------------------
  // parseInt(s) with no radix argument

  /** The characters JS's `parseInt` skips at the start: WhiteSpace and
      LineTerminator of the ECMAScript grammar. */
  predicate IsJsSpace(c: char) {
    c == '\t' || c == '\n' || c == '\U{000B}' || c == '\U{000C}' || c == '\r' || c == ' '
    || c == '\U{00A0}' || c == '\U{1680}' || ('\U{2000}' <= c <= '\U{200A}')
    || c == '\U{2028}' || c == '\U{2029}' || c == '\U{202F}' || c == '\U{205F}'
    || c == '\U{3000}' || c == '\U{FEFF}'
  }

  function TrimStart(s: string): (r: string)
    ensures r == [] || !IsJsSpace(r[0])
    ensures |r| <= |s| && r == s[|s| - |r|..]
  {
    if s != [] && IsJsSpace(s[0]) then TrimStart(s[1..]) else s
  }

  /** The longest prefix of `s` made of decimal digits. */
  function DecPrefix(s: string): (r: string)
    ensures |r| <= |s| && r == s[..|r|]
    ensures forall i :: 0 <= i < |r| ==> IsDigit(r[i])
    ensures |r| < |s| ==> !IsDigit(s[|r|])
  {
    if s != [] && IsDigit(s[0]) then [s[0]] + DecPrefix(s[1..]) else []
  }

  predicate IsHexDigit(c: char) {
    IsDigit(c) || 'a' <= c <= 'f' || 'A' <= c <= 'F'
  }

  function HexDigitValue(c: char): (v: nat)
    requires IsHexDigit(c)
    ensures v < 16
  {
    if IsDigit(c) then c as int - '0' as int
    else if 'a' <= c <= 'f' then c as int - 'a' as int + 10
    else c as int - 'A' as int + 10
  }

  function HexPrefix(s: string): (r: string)
    ensures |r| <= |s| && r == s[..|r|]
    ensures forall i :: 0 <= i < |r| ==> IsHexDigit(r[i])
  {
    if s != [] && IsHexDigit(s[0]) then [s[0]] + HexPrefix(s[1..]) else []
  }

  function HexValue(d: string): nat
    requires forall i :: 0 <= i < |d| ==> IsHexDigit(d[i])
  {
    if d == [] then 0 else HexValue(d[..|d| - 1]) * 16 + HexDigitValue(d[|d| - 1])
  }

  /** `parseInt(s)`: None stands for NaN. Leading white space is skipped, an
      optional sign is read, a `0x`/`0X` prefix selects base 16, and the
      longest run of digits that follows is the value; trailing text is
      ignored. */
  function ParseInt(s: string): Option<int> {
    var t := TrimStart(s);
    var neg := t != [] && t[0] == '-';
    var u := if t != [] && (t[0] == '-' || t[0] == '+') then t[1..] else t;
    var sign := if neg then -1 else 1;
    if |u| >= 2 && u[0] == '0' && (u[1] == 'x' || u[1] == 'X') then
      var h := HexPrefix(u[2..]);
      if h == [] then None else Some(sign * HexValue(h))
    else
      var d := DecPrefix(u);
      if d == [] then None else Some(sign * DecValue(d))
  }

  /** A numeral JS prints for a non-negative integer parses back to it. */
  lemma ParseIntNatStr(n: nat)
    ensures ParseInt(NatStr(n)) == Some(n)
  {
    var s := NatStr(n);
    assert !IsJsSpace(s[0]);
    assert TrimStart(s) == s;
    assert s[0] != '-' && s[0] != '+';
    assert |s| >= 2 ==> IsDigit(s[1]);
    DecPrefixAllDigits(s);
    DecValueNatStr(n);
  }

  lemma {:induction false} DecPrefixAllDigits(s: string)
    requires forall i :: 0 <= i < |s| ==> IsDigit(s[i])
    ensures DecPrefix(s) == s
  {
    if s != [] {
      DecPrefixAllDigits(s[1..]);
    }
  }

  // ---------------------------------------------------------------------
  // String.prototype.startsWith / replace

  predicate StartsWith(s: string, prefix: string) {
    |prefix| <= |s| && s[..|prefix|] == prefix
  }

  /** First index at or after `from` where `pat` occurs in `s`. */
  function IndexOfFrom(s: string, pat: string, from: nat): (r: Option<nat>)
    requires from <= |s|
    ensures r.Some? ==> from <= r.value && r.value + |pat| <= |s| && s[r.value..r.value + |pat|] == pat
    ensures r.Some? ==> forall j :: from <= j < r.value ==> !StartsWith(s[j..], pat)
    ensures r.None? ==> forall j :: from <= j <= |s| ==> !StartsWith(s[j..], pat)
    decreases |s| - from
  {
    if StartsWith(s[from..], pat) then Some(from)
    else if from == |s| then None
    else IndexOfFrom(s, pat, from + 1)
  }

  /** `s.replace(pat, rep)` with a string pattern: only the first occurrence
      is replaced. */
  function ReplaceFirst(s: string, pat: string, rep: string): (r: string)
    ensures StartsWith(s, pat) ==> r == rep + s[|pat|..]
  {
    match IndexOfFrom(s, pat, 0)
    case None => s
    case Some(i) => s[..i] + rep + s[i + |pat|..]
  }

  // ---------------------------------------------------------------------
  // textContent

  /** Whether the character after a `<` makes the HTML tokenizer open
      markup: a letter starts a tag, `/` an end tag, `!` a comment or
      declaration, `?` a bogus comment. After anything else the `<` is text. */
  predicate OpensMarkup(c: char) {
    ('a' <= c <= 'z') || ('A' <= c <= 'Z') || c == '/' || c == '!' || c == '?'
  }

  /** Whether `t` holds a `<` that opens markup. */
  predicate HasMarkup(t: string) {
    exists i :: 0 <= i < |t| - 1 && t[i] == '<' && OpensMarkup(t[i + 1])
  }

  /** The `textContent` of an element whose inner markup is `m`: markup
      (from a `<` that opens it to the next `>`) is dropped, an unterminated
      one drops the rest, and every other character is text. Character
      references are not decoded. */
  function TextContent(m: string): (r: string)
    ensures |r| <= |m|
    ensures !HasMarkup(m) ==> r == m
  {
    if m == [] then []
    else if |m| > 1 && m[0] == '<' && OpensMarkup(m[1]) then SkipTag(m[1..])
    else
      assert !HasMarkup(m) ==> !HasMarkup(m[1..]) by {
        if HasMarkup(m[1..]) {
          var i :| 0 <= i < |m[1..]| - 1 && m[1..][i] == '<' && OpensMarkup(m[1..][i + 1]);
          assert m[i + 1] == '<' && OpensMarkup(m[i + 2]);
        }
      }
      [m[0]] + TextContent(m[1..])
  }

  function SkipTag(m: string): (r: string)
    ensures |r| <= |m|
  {
    if m == [] then []
    else if m[0] == '>' then TextContent(m[1..])
    else SkipTag(m[1..])
  }

  /** A `<` followed by a space is text, so a comparison survives reading. */
  lemma LessThanIsText()
    ensures TextContent("Revenue < cost") == "Revenue < cost"
  {
    var t := "Revenue < cost";
    assert !HasMarkup(t) by {
      forall i | 0 <= i < |t| - 1 && t[i] == '<' ensures !OpensMarkup(t[i + 1]) {
        assert i == 8;
      }
    }
  }

  /** Text that looks like a tag is markup once written into an element:
      `a<b` reads back as `a`. */
  lemma MarkupLikeTextLost()
    ensures TextContent("a<b") == "a"
  {
    assert "a<b"[1..] == "<b";
    assert "<b"[1..] == "b";
    assert "b"[1..] == [];
  }

  /** Reading back is not idempotent: text read out of markup can itself
      open markup, as `<` followed by a tag's content does. */
  lemma ReadBackNotIdempotent()
    ensures TextContent("<<b>x") == "<x"
    ensures TextContent("<x") == ""
  {
    var m := "<<b>x";
    assert m[1..] == "<b>x";
    assert TextContent(m) == [m[0]] + TextContent("<b>x");
    assert "<b>x"[1..] == "b>x";
    assert "b>x"[1..] == ">x";
    assert ">x"[1..] == "x";
    assert "x"[1..] == [];
    assert TextContent("<b>x") == "x";
    assert "<x"[1..] == "x";
  }

}

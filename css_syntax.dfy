/**
 * The part of CSS Syntax Module Level 3 (tokenization, section 4) that reads
 * back what the inspector writes: identifier sequences with backslash escapes,
 * double-quoted strings, and the "would start an identifier" test.  It is the
 * reading side of the escaper in CssEscape and the parser under the
 * selector matching in Selectors.
 */
module CssSyntax {
  import opened Wrappers
  import Radix

  const Replacement: char := '\U{FFFD}'

  /** Newlines after input preprocessing: LF, CR and FF all count. */
  predicate IsNewline(c: char) {
    c == '\n' || c == '\r' || c as int == 0x0C
  }

  predicate IsWhitespace(c: char) {
    IsNewline(c) || c == '\t' || c == ' '
  }

  predicate IsHexDigit(c: char) {
    '0' <= c <= '9' || 'a' <= c <= 'f' || 'A' <= c <= 'F'
  }

  predicate IsDecimalDigit(c: char) {
    '0' <= c <= '9'
  }

  predicate IsIdentStart(c: char) {
    'a' <= c <= 'z' || 'A' <= c <= 'Z' || c == '_' || c as int >= 0x80
  }

  predicate IsIdentChar(c: char) {
    IsIdentStart(c) || IsDecimalDigit(c) || c == '-'
  }

  /** A backslash at index i that begins an escape (not a line continuation). */
  predicate ValidEscapeAt(t: string, i: nat) {
    i < |t| && t[i] == '\\' && (i + 1 >= |t| || !IsNewline(t[i + 1]))
  }

  /** "Check if three code points would start an ident sequence". */
  predicate StartsIdent(t: string) {
    |t| > 0 &&
    if t[0] == '-' then |t| > 1 && (IsIdentStart(t[1]) || t[1] == '-' || ValidEscapeAt(t, 1))
    else IsIdentStart(t[0]) || ValidEscapeAt(t, 0)
  }

  /** What was read and what is left of the input. */
  datatype Decoded = Decoded(value: string, rest: string)

  /** The number of leading hex digits of t, at most max. */
  function HexRun(t: string, max: nat): (n: nat)
    ensures n <= max && n <= |t|
    ensures forall i :: 0 <= i < n ==> IsHexDigit(t[i])
    ensures n < max && n < |t| ==> !IsHexDigit(t[n])
    decreases max
  {
    if max == 0 || t == [] || !IsHexDigit(t[0]) then 0 else 1 + HexRun(t[1..], max - 1)
  }

  /**
   * "Consume an escaped code point": t is what follows the backslash.  Gives
   * the code point and how many characters of t it used.
   */
  function ConsumeEscaped(t: string): (r: (char, nat))
    ensures r.1 <= |t|
    ensures t != [] ==> r.1 >= 1
  {
    if t == [] then (Replacement, 0)
    else if IsHexDigit(t[0]) then
      var n := HexRun(t, 6);
      var v := Radix.FromRadix(t[..n], 16);
      var used := if n < |t| && IsWhitespace(t[n]) then n + 1 else n;
      (if v == 0 || 0xD800 <= v <= 0xDFFF || v > 0x10FFFF then Replacement else v as char, used)
    else (t[0], 1)
  }

  /** "Consume an ident sequence": identifier characters and escapes. */
  function ConsumeIdentSeq(t: string): (d: Decoded)
    ensures |d.rest| <= |t|
    decreases |t|
  {
    if t != [] && IsIdentChar(t[0]) then
      var d := ConsumeIdentSeq(t[1..]);
      Decoded([t[0]] + d.value, d.rest)
    else if ValidEscapeAt(t, 0) then
      var e := ConsumeEscaped(t[1..]);
      var d := ConsumeIdentSeq(t[1 + e.1..]);
      Decoded([e.0] + d.value, d.rest)
    else Decoded([], t)
  }

  /**
   * "Consume a string token" after its opening double quote; the rest starts
   * after the closing quote.  None is a bad string (an unescaped newline).
   */
  function ConsumeStringBody(t: string): (r: Option<Decoded>)
    ensures r.Some? ==> |r.value.rest| <= |t|
    decreases |t|
  {
    if t == [] then Some(Decoded([], []))
    else if t[0] == '"' then Some(Decoded([], t[1..]))
    else if IsNewline(t[0]) then None
    else if t[0] == '\\' then
      if |t| == 1 then Some(Decoded([], []))
      else if IsNewline(t[1]) then ConsumeStringBody(t[2..])
      else
        var e := ConsumeEscaped(t[1..]);
        match ConsumeStringBody(t[1 + e.1..])
        case None => None
        case Some(d) => Some(Decoded([e.0] + d.value, d.rest))
    else
      match ConsumeStringBody(t[1..])
      case None => None
      case Some(d) => Some(Decoded([t[0]] + d.value, d.rest))
  }

  /** An identifier that needs no escape: an identifier-start character, then identifier characters. */
  predicate IsPlainIdent(s: string) {
    s != [] && IsIdentStart(s[0]) && forall k :: 0 <= k < |s| ==> IsIdentChar(s[k])
  }

  /** A string body that needs no escape: no quote, backslash or newline. */
  predicate IsPlainString(s: string) {
    forall k :: 0 <= k < |s| ==> s[k] != '"' && s[k] != '\\' && !IsNewline(s[k])
  }

  /** Identifier characters read back as themselves, up to the first character that is not one. */
  lemma {:induction false} PlainIdentReadsBack(s: string, d: string)
    requires forall k :: 0 <= k < |s| ==> IsIdentChar(s[k])
    requires d == [] || (!IsIdentChar(d[0]) && d[0] != '\\')
    ensures ConsumeIdentSeq(s + d) == Decoded(s, d)
  {
    if s != [] {
      assert (s + d)[1..] == s[1..] + d;
      PlainIdentReadsBack(s[1..], d);
      assert [s[0]] + s[1..] == s;
    }
  }

  /** A plain string body reads back as itself up to the closing quote. */
  lemma {:induction false} PlainStringReadsBack(s: string, d: string)
    requires IsPlainString(s)
    ensures ConsumeStringBody(s + ['"'] + d) == Some(Decoded(s, d))
  {
    if s != [] {
      assert (s + ['"'] + d)[1..] == s[1..] + ['"'] + d;
      PlainStringReadsBack(s[1..], d);
      assert [s[0]] + s[1..] == s;
    }
  }
}

/**
 * The cssEscape polyfill (mths.be/cssescape v0.2.1): "serialize an
 * identifier" from the CSS Object Model draft, section 2.1 "Common
 * Serializing Idioms".  Characters are taken one at a time; JavaScript works
 * on UTF-16 code units, this model on Unicode scalar values, which gives the
 * same output because every special case concerns a character below U+0080.
 */
module CssEscape {
  import opened Wrappers
  import opened CssSyntax
  import Radix

  /** The InvalidCharacterError the polyfill throws. */
  datatype EscapeError = InvalidCharacterError

  predicate IsAsciiDigit(c: char) {
    '0' <= c <= '9'
  }

  /** Characters written as a backslash, lower-case hex code point and a space. */
  predicate EscapedAsCodePoint(s: string, i: nat)
    requires i < |s|
  {
    var c := s[i];
    (0x01 <= c as int <= 0x1F) || c as int == 0x7F ||
    (i == 0 && IsAsciiDigit(c)) ||
    (i == 1 && IsAsciiDigit(c) && s[0] == '-')
  }

  /** Characters copied as they are. */
  predicate PassesThrough(c: char) {
    c as int >= 0x80 || c == '-' || c == '_' || IsAsciiDigit(c) ||
    'A' <= c <= 'Z' || 'a' <= c <= 'z'
  }

  /** The output for the character at index i (which is not U+0000). */
  function EscapeAt(s: string, i: nat): string
    requires i < |s| && s[i] as int != 0
  {
    if EscapedAsCodePoint(s, i) then ['\\'] + Radix.ToRadix(s[i] as int, 16) + [' ']
    else if PassesThrough(s[i]) then [s[i]]
    else ['\\', s[i]]
  }

  /** The loop of the polyfill from index i on. */
  function EscapeFrom(s: string, i: nat): Result<string, EscapeError>
    requires i <= |s|
    decreases |s| - i
  {
    if i == |s| then Success([])
    else if s[i] as int == 0 then Failure(InvalidCharacterError)
    else
      match EscapeFrom(s, i + 1)
      case Failure(e) => Failure(e)
      case Success(t) => Success(EscapeAt(s, i) + t)
  }

  /** The loop throws exactly when a U+0000 lies ahead. */
  lemma {:induction false} EscapeFromFails(s: string, i: nat)
    requires i <= |s|
    ensures EscapeFrom(s, i).Failure? <==> exists j :: i <= j < |s| && s[j] as int == 0
    decreases |s| - i
  {
    if i < |s| && s[i] as int != 0 {
      EscapeFromFails(s, i + 1);
      if EscapeFrom(s, i).Failure? {
        var j :| i + 1 <= j < |s| && s[j] as int == 0;
      }
    }
  }

  /** cssEscape(value): fails exactly when the value holds U+0000. */
  function CssEscape(s: string): (r: Result<string, EscapeError>)
    ensures r.Failure? <==> !NulFree(s)
  {
    EscapeFromFails(s, 0);
    EscapeFrom(s, 0)
  }

  predicate NulFree(s: string) {
    forall j :: 0 <= j < |s| ==> s[j] as int != 0
  }

  /** What may follow an escaped identifier without being read into it. */
  predicate EndsIdent(d: string) {
    d == [] || (!IsIdentChar(d[0]) && d[0] != '\\')
  }

  /** The code-point escape of a character below U+0080 reads back as that character. */
  lemma {:induction false} HexEscapeReadsBack(c: char, t: string)
    requires 0 < c as int < 0x80
    ensures var h := Radix.ToRadix(c as int, 16);
            ConsumeEscaped(h + [' '] + t) == (c, |h| + 1)
  {
    var h := Radix.ToRadix(c as int, 16);
    var u := h + [' '] + t;
    Radix.ToRadixTwoDigits(c as int, 16);
    HexPrefix(h, t);
    HexRunStops(h, [' '] + t);
    Radix.FromToRadix(c as int, 16);
  }

  lemma {:induction false} HexPrefix(h: string, t: string)
    ensures var u := h + [' '] + t;
            u == h + ([' '] + t) && u[..|h|] == h && u[|h|] == ' ' &&
            forall k :: 0 <= k < |h| ==> u[k] == h[k]
  {
    var u := h + [' '] + t;
    assert u[..|h|] == h;
  }

  /** A backslash, a code point in hex, a space: where its parts sit. */
  lemma {:induction false} EscapeParts(h: string, t: string)
    requires h != []
    ensures var u := ['\\'] + h + [' '] + t;
            u[0] == '\\' && u[1] == h[0] && u[1..] == h + [' '] + t && u[1 + |h| + 1..] == t
  {
    var u := ['\\'] + h + [' '] + t;
    assert u[1..] == h + [' '] + t;
    assert u[1 + |h| + 1..] == t;
  }

  /** The hex run of a short run of hex digits stops at the first non-hex character. */
  lemma {:induction false} HexRunStops(h: string, t: string)
    requires |h| <= 6
    requires forall k :: 0 <= k < |h| ==> IsHexDigit(h[k])
    requires t != [] && !IsHexDigit(t[0])
    ensures HexRun(h + t, 6) == |h|
  {
  }

  /** Reading one escaped character back, followed by anything. */
  lemma {:induction false} EscapeAtReadsBack(s: string, i: nat, t: string)
    requires i < |s| && s[i] as int != 0
    ensures ConsumeIdentSeq(EscapeAt(s, i) + t)
         == Decoded([s[i]] + ConsumeIdentSeq(t).value, ConsumeIdentSeq(t).rest)
  {
    var c := s[i];
    if EscapedAsCodePoint(s, i) {
      CodePointReadsBack(c, t);
    } else if PassesThrough(c) {
      PlainCharReadsBack(c, t);
    } else {
      BackslashCharReadsBack(c, t);
    }
  }

  lemma {:induction false} CodePointReadsBack(c: char, t: string)
    requires 0 < c as int < 0x80
    ensures ConsumeIdentSeq(['\\'] + Radix.ToRadix(c as int, 16) + [' '] + t)
         == Decoded([c] + ConsumeIdentSeq(t).value, ConsumeIdentSeq(t).rest)
  {
    var h := Radix.ToRadix(c as int, 16);
    var u := ['\\'] + h + [' '] + t;
    EscapeParts(h, t);
    HexEscapeReadsBack(c, t);
    assert !IsIdentChar(u[0]);
    assert ValidEscapeAt(u, 0) by {
      assert Radix.IsDigit(h[0], 16);
    }
  }

  lemma {:induction false} PlainCharReadsBack(c: char, t: string)
    requires IsIdentChar(c)
    ensures ConsumeIdentSeq([c] + t) == Decoded([c] + ConsumeIdentSeq(t).value, ConsumeIdentSeq(t).rest)
  {
    assert ([c] + t)[1..] == t;
  }

  lemma {:induction false} BackslashCharReadsBack(c: char, t: string)
    requires !IsNewline(c) && !IsHexDigit(c)
    ensures ConsumeIdentSeq(['\\', c] + t) == Decoded([c] + ConsumeIdentSeq(t).value, ConsumeIdentSeq(t).rest)
  {
    var u := ['\\', c] + t;
    assert u[1..] == [c] + t;
    assert u[2..] == t;
  }

  /** The escaper's output reads back, as a CSS identifier, to its input. */
  lemma {:induction false} EscapeFromReadsBack(s: string, i: nat, d: string)
    requires i <= |s|
    requires EscapeFrom(s, i).Success?
    requires EndsIdent(d)
    ensures ConsumeIdentSeq(EscapeFrom(s, i).value + d) == Decoded(s[i..], d)
    decreases |s| - i
  {
    if i < |s| {
      EscapeFromReadsBack(s, i + 1, d);
      EscapeFromStep(s, i, d);
    }
  }

  /** One step of the read-back: the escape of s[i] in front of the rest. */
  lemma {:induction false} EscapeFromStep(s: string, i: nat, d: string)
    requires i < |s| && EscapeFrom(s, i).Success?
    requires ConsumeIdentSeq(EscapeFrom(s, i + 1).value + d) == Decoded(s[i + 1..], d)
    ensures ConsumeIdentSeq(EscapeFrom(s, i).value + d) == Decoded(s[i..], d)
  {
    var t := EscapeFrom(s, i + 1).value;
    var a := EscapeAt(s, i);
    assert EscapeFrom(s, i).value == a + t;
    EscapeAtReadsBack(s, i, t + d);
    PrependIdent(EscapeFrom(s, i).value, a, t, s[i], s[i + 1..], d);
    SliceCons(s, i);
  }

  lemma {:induction false} SliceCons(s: string, i: nat)
    requires i < |s|
    ensures s[i..] == [s[i]] + s[i + 1..]
  {
  }

  /** Substituting what the rest reads back as. */
  lemma {:induction false} PrependIdent(x: string, a: string, t: string, c: char, v: string, d: string)
    requires x == a + t
    requires ConsumeIdentSeq(t + d) == Decoded(v, d)
    requires ConsumeIdentSeq(a + (t + d)) == Decoded([c] + ConsumeIdentSeq(t + d).value, ConsumeIdentSeq(t + d).rest)
    ensures ConsumeIdentSeq(x + d) == Decoded([c] + v, d)
  {
    Associative(x, a, t, d);
  }

  lemma {:induction false} Associative(x: string, a: string, t: string, d: string)
    requires x == a + t
    ensures x + d == a + (t + d)
  {
  }

  /** Round trip: an identifier escaped by cssEscape and read back by a CSS tokenizer is the original. */
  lemma {:induction false} EscapeRoundTrip(s: string, d: string)
    requires CssEscape(s).Success?
    requires EndsIdent(d)
    ensures ConsumeIdentSeq(CssEscape(s).value + d) == Decoded(s, d)
  {
    EscapeFromReadsBack(s, 0, d);
  }

  /** A decoded string with one more character in front; bad strings stay bad. */
  function Prepend(c: char, r: Option<Decoded>): Option<Decoded> {
    match r
    case None => None
    case Some(d) => Some(Decoded([c] + d.value, d.rest))
  }

  /** Reading one escaped character back inside a double-quoted string. */
  lemma {:induction false} EscapeAtReadsBackInString(s: string, i: nat, t: string)
    requires i < |s| && s[i] as int != 0
    ensures ConsumeStringBody(EscapeAt(s, i) + t) == Prepend(s[i], ConsumeStringBody(t))
  {
    var c := s[i];
    if EscapedAsCodePoint(s, i) {
      HexEscapeReadsBackInString(c, t);
    } else if PassesThrough(c) {
      var u := EscapeAt(s, i) + t;
      assert u[0] == c && u[1..] == t;
    } else {
      var u := EscapeAt(s, i) + t;
      assert u[0] == '\\' && u[1] == c;
      assert u[2..] == t;
      assert ConsumeEscaped(u[1..]) == (c, 1);
    }
  }

  lemma {:induction false} HexEscapeReadsBackInString(c: char, t: string)
    requires 0 < c as int < 0x80
    requires (0x01 <= c as int <= 0x1F) || c as int == 0x7F || IsAsciiDigit(c)
    ensures ConsumeStringBody(['\\'] + Radix.ToRadix(c as int, 16) + [' '] + t)
         == Prepend(c, ConsumeStringBody(t))
  {
    var h := Radix.ToRadix(c as int, 16);
    var u := ['\\'] + h + [' '] + t;
    EscapeParts(h, t);
    HexEscapeReadsBack(c, t);
    assert Radix.IsDigit(h[0], 16);
  }

  /** The escaper's output, read back as the body of a double-quoted string, is its input. */
  lemma {:induction false} EscapeFromReadsBackInString(s: string, i: nat, d: string)
    requires i <= |s|
    requires EscapeFrom(s, i).Success?
    ensures ConsumeStringBody(EscapeFrom(s, i).value + (['"'] + d)) == Some(Decoded(s[i..], d))
    decreases |s| - i
  {
    if i == |s| {
      var u := EscapeFrom(s, i).value + (['"'] + d);
      assert u == ['"'] + d && u[1..] == d;
      assert s[i..] == [];
    } else {
      EscapeFromReadsBackInString(s, i + 1, d);
      EscapeFromStepInString(s, i, d);
    }
  }

  lemma {:induction false} EscapeFromStepInString(s: string, i: nat, d: string)
    requires i < |s| && EscapeFrom(s, i).Success?
    requires ConsumeStringBody(EscapeFrom(s, i + 1).value + (['"'] + d)) == Some(Decoded(s[i + 1..], d))
    ensures ConsumeStringBody(EscapeFrom(s, i).value + (['"'] + d)) == Some(Decoded(s[i..], d))
  {
    var t := EscapeFrom(s, i + 1).value;
    var a := EscapeAt(s, i);
    assert EscapeFrom(s, i).value == a + t;
    EscapeAtReadsBackInString(s, i, t + (['"'] + d));
    PrependString(EscapeFrom(s, i).value, a, t, s[i], s[i + 1..], ['"'] + d, d);
    SliceCons(s, i);
  }

  /** Substituting what the rest of a string body reads back as. */
  lemma {:induction false} PrependString(x: string, a: string, t: string, c: char, v: string, q: string, d: string)
    requires x == a + t
    requires ConsumeStringBody(t + q) == Some(Decoded(v, d))
    requires ConsumeStringBody(a + (t + q)) == Prepend(c, ConsumeStringBody(t + q))
    ensures ConsumeStringBody(x + q) == Some(Decoded([c] + v, d))
  {
    Associative(x, a, t, q);
  }

  /** Round trip inside a quoted attribute value: `"` + cssEscape(s) + `"` is the string s. */
  lemma {:induction false} EscapeStringRoundTrip(s: string, d: string)
    requires CssEscape(s).Success?
    ensures ConsumeStringBody(CssEscape(s).value + ['"'] + d) == Some(Decoded(s, d))
  {
    EscapeFromReadsBackInString(s, 0, d);
    Associative(CssEscape(s).value + ['"'], CssEscape(s).value, ['"'], d);
  }

  /**
   * The output of cssEscape starts an identifier unless the input is empty or
   * a lone hyphen: a leading digit, or a digit after a leading hyphen, is
   * escaped precisely so that this holds.
   */
  lemma {:induction false} EscapeStartsIdent(s: string, d: string)
    requires CssEscape(s).Success?
    requires s != [] && s != "-"
    ensures StartsIdent(CssEscape(s).value + d)
  {
    var out := CssEscape(s).value + d;
    if s[0] == '-' {
      assert EscapeFrom(s, 1).value == EscapeAt(s, 1) + EscapeFrom(s, 2).value;
      Associative(EscapeFrom(s, 1).value, EscapeAt(s, 1), EscapeFrom(s, 2).value, d);
      DashEscapeStartsIdent(s, EscapeFrom(s, 2).value + d);
      assert out == EscapeAt(s, 0) + (EscapeFrom(s, 1).value + d);
    } else {
      assert out == EscapeAt(s, 0) + (EscapeFrom(s, 1).value + d);
      FirstEscapeStartsIdent(s, EscapeFrom(s, 1).value + d);
    }
  }

  /** A first character other than '-' is escaped into something that starts an identifier. */
  lemma {:induction false} FirstEscapeStartsIdent(s: string, u: string)
    requires s != [] && s[0] as int != 0 && s[0] != '-'
    ensures StartsIdent(EscapeAt(s, 0) + u)
  {
    var out := EscapeAt(s, 0) + u;
    if EscapedAsCodePoint(s, 0) {
      var h := Radix.ToRadix(s[0] as int, 16);
      EscapeParts(h, u);
      assert Radix.IsDigit(h[0], 16);
    }
  }

  /** After a leading '-', the second character's escape keeps the identifier going. */
  lemma {:induction false} DashEscapeStartsIdent(s: string, u: string)
    requires |s| >= 2 && s[0] == '-' && s[1] as int != 0
    ensures StartsIdent(EscapeAt(s, 0) + (EscapeAt(s, 1) + u))
  {
    var a := EscapeAt(s, 1);
    assert EscapeAt(s, 0) == "-";
    if EscapedAsCodePoint(s, 1) {
      var h := Radix.ToRadix(s[1] as int, 16);
      EscapeParts(h, u);
      assert Radix.IsDigit(h[0], 16);
    }
    assert (EscapeAt(s, 0) + (a + u))[1..] == a + u;
  }

  /** "1a" serializes as "\31 a": a leading digit becomes a code-point escape. */
  lemma {:induction false} EscapeLeadingDigit()
    ensures CssEscape("1a") == Success("\\31 a")
  {
    var s := "1a";
    assert Radix.ToRadix(3, 16) == "3";
    assert Radix.ToRadix(0x31, 16) == "31";
    assert EscapeAt(s, 0) == "\\31 ";
    assert EscapeAt(s, 1) == "a";
    assert s[1] as int != 0 && s[0] as int != 0 && |s| == 2;
    assert EscapeFrom(s, 2) == Success([]);
    assert EscapeFrom(s, 1) == Success(EscapeAt(s, 1) + []);
    assert EscapeAt(s, 1) + [] == EscapeAt(s, 1);
    assert EscapeFrom(s, 0) == Success(EscapeAt(s, 0) + EscapeAt(s, 1));
    assert EscapeAt(s, 0) + EscapeAt(s, 1) == "\\31 a";
  }
}

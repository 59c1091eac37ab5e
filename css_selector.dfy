/**
 * Compound selectors of the shapes the inspector writes: an optional type
 * selector followed by id, class and attribute selectors and :nth-of-type(n),
 * with no whitespace.  ParseCompound reads such a selector the way a CSS
 * parser would; anything else is refused (None), which is how a selector the
 * browser rejects behaves: querySelectorAll throws and the inspector catches
 * it as "no match".
 */
module CssSelector {
  import opened Wrappers
  import opened CssSyntax
  import Radix

  datatype AttrOp = Equals | PrefixMatch

  /** One simple selector after the type selector. */
  datatype Simple =
    | IdSel(name: string)
    | ClassSel(name: string)
    | AttrSel(attr: string, op: AttrOp, value: string)
    | NthOfType(n: nat)

  datatype Compound = Compound(tag: Option<string>, simples: seq<Simple>)

  const NthOfTypeOpen: string := ":nth-of-type("

  /** The number of leading decimal digits of t. */
  function DigitRun(t: string): (n: nat)
    ensures n <= |t|
    ensures forall i :: 0 <= i < n ==> IsDecimalDigit(t[i])
    ensures n < |t| ==> !IsDecimalDigit(t[n])
  {
    if t == [] || !IsDecimalDigit(t[0]) then 0 else 1 + DigitRun(t[1..])
  }

  function PrependSimple(s: Simple, r: Option<seq<Simple>>): Option<seq<Simple>> {
    match r
    case None => None
    case Some(ss) => Some([s] + ss)
  }

  /** A whole compound selector, or None if t is not one. */
  function ParseCompound(t: string): Option<Compound> {
    if StartsIdent(t) then
      var d := ConsumeIdentSeq(t);
      match ParseSimples(d.rest)
      case None => None
      case Some(ss) => Some(Compound(Some(d.value), ss))
    else if t == [] then None
    else
      match ParseSimples(t)
      case None => None
      case Some(ss) => Some(Compound(None, ss))
  }

  /** The simple selectors that make up all of t. */
  function ParseSimples(t: string): Option<seq<Simple>>
    decreases |t|, 1
  {
    if t == [] then Some([])
    else if t[0] == '#' || t[0] == '.' then ParseName(t)
    else if t[0] == '[' then ParseAttr(t)
    else if t[0] == ':' then ParseNth(t)
    else None
  }

  /** '#' or '.' followed by an identifier, then the rest. */
  function ParseName(t: string): Option<seq<Simple>>
    requires t != []
    decreases |t|, 0
  {
    if StartsIdent(t[1..]) then
      var d := ConsumeIdentSeq(t[1..]);
      PrependSimple(if t[0] == '#' then IdSel(d.value) else ClassSel(d.value), ParseSimples(d.rest))
    else None
  }

  /** The operator after an attribute name and how many characters it takes with its opening quote. */
  function ParseAttrOp(r: string): Option<(AttrOp, nat)> {
    if |r| >= 2 && r[0] == '=' && r[1] == '"' then Some((Equals, 2))
    else if |r| >= 3 && r[0] == '^' && r[1] == '=' && r[2] == '"' then Some((PrefixMatch, 3))
    else None
  }

  /** '[' name '="' value '"]' or '[' name '^="' value '"]', then the rest. */
  function ParseAttr(t: string): Option<seq<Simple>>
    requires t != []
    decreases |t|, 0
  {
    if !StartsIdent(t[1..]) then None
    else
      var name := ConsumeIdentSeq(t[1..]);
      match ParseAttrOp(name.rest)
      case None => None
      case Some(op) =>
        if op.1 > |name.rest| then None
        else
          match ConsumeStringBody(name.rest[op.1..])
          case None => None
          case Some(v) =>
            if v.rest != [] && v.rest[0] == ']' then
              PrependSimple(AttrSel(name.value, op.0, v.value), ParseSimples(v.rest[1..]))
            else None
  }

  /** ':nth-of-type(' decimal digits ')', then the rest. */
  function ParseNth(t: string): Option<seq<Simple>>
    decreases |t|, 0
  {
    if |t| > |NthOfTypeOpen| && t[..|NthOfTypeOpen|] == NthOfTypeOpen then
      var u := t[|NthOfTypeOpen|..];
      var n := DigitRun(u);
      if 0 < n < |u| && u[n] == ')' then
        PrependSimple(NthOfType(Radix.FromRadix(u[..n], 10)), ParseSimples(u[n + 1..]))
      else None
    else None
  }

  /** The simple selectors xs in front of whatever the rest parses to. */
  function Then(xs: seq<Simple>, r: Option<seq<Simple>>): Option<seq<Simple>> {
    match r
    case None => None
    case Some(ss) => Some(xs + ss)
  }

  lemma {:induction false} ThenThen(xs: seq<Simple>, ys: seq<Simple>, r: Option<seq<Simple>>)
    ensures Then(xs, Then(ys, r)) == Then(xs + ys, r)
  {
    if r.Some? {
      assert xs + (ys + r.value) == (xs + ys) + r.value;
    }
  }

  lemma {:induction false} ThenEnd(xs: seq<Simple>, t: string)
    requires t == []
    ensures Then(xs, ParseSimples(t)) == Some(xs)
  {
    assert xs + [] == xs;
  }

  lemma {:induction false} ThenNothing(r: Option<seq<Simple>>)
    ensures Then([], r) == r
  {
    if r.Some? {
      assert [] + r.value == r.value;
    }
  }

  /** Reading '#' or '.' and an identifier written as text, which decodes to value. */
  lemma {:induction false} ParseNameStep(mark: char, text: string, value: string, r: string)
    requires mark == '#' || mark == '.'
    requires StartsIdent(text + r) && ConsumeIdentSeq(text + r) == Decoded(value, r)
    ensures ParseSimples([mark] + text + r)
         == Then([if mark == '#' then IdSel(value) else ClassSel(value)], ParseSimples(r))
  {
    assert ([mark] + text + r)[1..] == text + r;
  }

  /** Reading an attribute selector whose quoted value, written as text, decodes to value. */
  lemma {:induction false} ParseAttrStep(k: string, op: AttrOp, text: string, value: string, r: string)
    requires IsPlainIdent(k)
    requires ConsumeStringBody(text + ['"'] + ("]" + r)) == Some(Decoded(value, "]" + r))
    ensures ParseSimples("[" + k + (if op == PrefixMatch then "^" else "") + "=\"" + text + "\"]" + r)
         == Then([AttrSel(k, op, value)], ParseSimples(r))
  {
    var opText := (if op == PrefixMatch then "^" else "") + "=\"";
    var after := opText + (text + ['"'] + ("]" + r));
    AttrLayout(k, op, text, r);
    AttrNameStep(k, after);
    AttrStep(['['] + (k + after), k, after, op, |opText|);
  }

  /** Where the parts of a written attribute selector sit. */
  lemma {:induction false} AttrLayout(k: string, op: AttrOp, text: string, r: string)
    ensures var opText := (if op == PrefixMatch then "^" else "") + "=\"";
            var body := text + ['"'] + ("]" + r);
            var after := opText + body;
            "[" + k + (if op == PrefixMatch then "^" else "") + "=\"" + text + "\"]" + r == ['['] + (k + after) &&
            ParseAttrOp(after) == Some((op, |opText|)) && after[|opText|..] == body &&
            ("]" + r)[1..] == r && ("]" + r)[0] == ']'
  {
    var opText := (if op == PrefixMatch then "^" else "") + "=\"";
    var body := text + ['"'] + ("]" + r);
    var after := opText + body;
    assert "[" + k + (if op == PrefixMatch then "^" else "") + "=\"" + text + "\"]" + r == ['['] + (k + after);
    assert after[|opText|..] == body;
    assert ("]" + r)[1..] == r;
  }

  lemma {:induction false} AttrNameStep(k: string, after: string)
    requires IsPlainIdent(k)
    requires after != [] && (after[0] == '=' || after[0] == '^')
    ensures StartsIdent(k + after) && ConsumeIdentSeq(k + after) == Decoded(k, after)
  {
    PlainIdentReadsBack(k, after);
  }

  lemma {:induction false} AttrStep(t: string, k: string, after: string, op: AttrOp, n: nat)
    requires t != [] && t[0] == '[' && t[1..] == k + after
    requires StartsIdent(k + after) && ConsumeIdentSeq(k + after) == Decoded(k, after)
    requires ParseAttrOp(after) == Some((op, n)) && n <= |after|
    ensures ParseSimples(t) == match ConsumeStringBody(after[n..])
                               case None => None
                               case Some(v) =>
                                 if v.rest != [] && v.rest[0] == ']' then
                                   PrependSimple(AttrSel(k, op, v.value), ParseSimples(v.rest[1..]))
                                 else None
  {
    assert ParseSimples(t) == ParseAttr(t);
  }

  /** Reading :nth-of-type(n) with n in decimal. */
  lemma {:induction false} ParseNthStep(n: nat, r: string)
    ensures ParseSimples(NthOfTypeOpen + Radix.ToRadix(n, 10) + ")" + r) == Then([NthOfType(n)], ParseSimples(r))
  {
    var digits := Radix.ToRadix(n, 10);
    var u := digits + ")" + r;
    var t := NthOfTypeOpen + u;
    assert t == NthOfTypeOpen + digits + ")" + r;
    DecimalDigits(n);
    DigitRunStops(digits, ")" + r);
    assert digits + (")" + r) == u;
    assert DigitRun(u) == |digits| && 0 < |digits| < |u| && u[|digits|] == ')';
    assert u[..|digits|] == digits && u[|digits| + 1..] == r;
    Radix.FromToRadix(n, 10);
    NthStep(t, u);
  }

  lemma {:induction false} NthStep(t: string, u: string)
    requires t == NthOfTypeOpen + u && u != []
    ensures ParseSimples(t) == ParseNth(t)
    ensures ParseNth(t) == (var n := DigitRun(u);
                            if 0 < n < |u| && u[n] == ')' then
                              PrependSimple(NthOfType(Radix.FromRadix(u[..n], 10)), ParseSimples(u[n + 1..]))
                            else None)
  {
    assert t[0] == ':';
    assert t[..|NthOfTypeOpen|] == NthOfTypeOpen && t[|NthOfTypeOpen|..] == u;
  }

  lemma {:induction false} DecimalDigits(n: nat)
    ensures forall k :: 0 <= k < |Radix.ToRadix(n, 10)| ==> IsDecimalDigit(Radix.ToRadix(n, 10)[k])
  {
    var digits := Radix.ToRadix(n, 10);
    forall k | 0 <= k < |digits|
      ensures IsDecimalDigit(digits[k])
    {
      assert Radix.IsDigit(digits[k], 10);
    }
  }

  lemma {:induction false} DigitRunStops(digits: string, t: string)
    requires forall k :: 0 <= k < |digits| ==> IsDecimalDigit(digits[k])
    requires t != [] && !IsDecimalDigit(t[0])
    ensures DigitRun(digits + t) == |digits|
  {
    if digits != [] {
      assert (digits + t)[1..] == digits[1..] + t;
      DigitRunStops(digits[1..], t);
    }
  }

  /** A compound selector that starts with a type selector written as text, which decodes to value. */
  lemma {:induction false} ParseTypedStep(text: string, value: string, r: string)
    requires StartsIdent(text + r) && ConsumeIdentSeq(text + r) == Decoded(value, r)
    ensures ParseCompound(text + r)
         == (match ParseSimples(r) case None => None case Some(ss) => Some(Compound(Some(value), ss)))
  {
  }

  /** A compound selector that starts with '#', '.', '[' or ':' has no type selector. */
  lemma {:induction false} ParseUntypedStep(t: string)
    requires t != [] && (t[0] == '#' || t[0] == '.' || t[0] == '[' || t[0] == ':')
    ensures ParseCompound(t) == (match ParseSimples(t) case None => None case Some(ss) => Some(Compound(None, ss)))
  {
  }
}

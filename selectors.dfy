/**
 * Selector synthesis: the coarse per-node selector reported in the layout
 * (selectorFromNode), the fine per-node segment with :nth-of-type
 * disambiguation (cosmeticFilterFromNode), the climb that joins segments into
 * a filter (cosmeticFilterFromTarget), and the lookups of nodes by selector
 * and node id (selectNodes, cosmeticFilterFromEntries).
 *
 * document.querySelectorAll is the host's: it is the parameter `query`, which
 * gives the matching elements in document order and [] for a selector the
 * browser rejects (elementsFromSelector's try/catch).  The scoped query
 * ':scope > ' + segment that cosmeticFilterFromNode runs on a parent is
 * evaluated here, by parsing the segment and matching it against the parent's
 * children.
 */
module Selectors {
  import opened Wrappers
  import opened Dom
  import opened CssSyntax
  import opened CssSelector
  import CssEscape
  import Radix

  /** What the selector code can throw: cssEscape's error, or reading a property of null. */
  datatype SelectorError = InvalidCharacterError | TypeError

  /** document.querySelectorAll as the host evaluates it. */
  type Query = string -> seq<Path>

  /** The host's query only ever yields elements of the document. */
  ghost predicate QueryResolves(doc: Document, query: Query) {
    forall s: string, i :: 0 <= i < |query(s)| ==> ValidPath(doc, query(s)[i])
  }

  function Escape(s: string): (r: Result<string, SelectorError>)
    ensures r.Success? <==> CssEscape.CssEscape(s).Success?
    ensures r.Success? ==> r.value == CssEscape.CssEscape(s).value
    ensures r.Failure? ==> r.error == InvalidCharacterError
  {
    match CssEscape.CssEscape(s)
    case Success(t) => Success(t)
    case Failure(_) => Failure(InvalidCharacterError)
  }

  lemma {:induction false} EscapeEmpty(s: string)
    ensures Escape(s).Success? ==> (Escape(s).value == [] <==> s == [])
  {
    if s != [] && Escape(s).Success? {
      assert s[0] as int != 0;
      assert CssEscape.EscapeAt(s, 0) != [];
    }
  }

  // ---- String helpers ---------------------------------------------------------

  /** WhiteSpace and LineTerminator of ECMAScript, what String.prototype.trim removes. */
  predicate IsJsWhitespace(c: char) {
    var n := c as int;
    (0x09 <= n <= 0x0D) || n == 0x20 || n == 0xA0 || n == 0x1680 ||
    (0x2000 <= n <= 0x200A) || n == 0x2028 || n == 0x2029 || n == 0x202F ||
    n == 0x205F || n == 0x3000 || n == 0xFEFF
  }

  function TrimStart(s: string): string
    decreases |s|
  {
    if s != [] && IsJsWhitespace(s[0]) then TrimStart(s[1..]) else s
  }

  function TrimEnd(s: string): string
    decreases |s|
  {
    if s != [] && IsJsWhitespace(s[|s| - 1]) then TrimEnd(s[..|s| - 1]) else s
  }

  /** String.prototype.trim. */
  function Trim(s: string): string {
    TrimEnd(TrimStart(s))
  }

  /** TrimStart drops exactly the leading white space. */
  lemma {:induction false} TrimStartSpec(s: string)
    ensures var r := TrimStart(s);
            |r| <= |s| && r == s[|s| - |r|..] &&
            (r == [] || !IsJsWhitespace(r[0])) &&
            forall k :: 0 <= k < |s| - |r| ==> IsJsWhitespace(s[k])
    decreases |s|
  {
    if s != [] && IsJsWhitespace(s[0]) {
      TrimStartSpec(s[1..]);
    }
  }

  /** TrimEnd drops exactly the trailing white space. */
  lemma {:induction false} TrimEndSpec(s: string)
    ensures var r := TrimEnd(s);
            |r| <= |s| && r == s[..|r|] &&
            (r == [] || !IsJsWhitespace(r[|r| - 1])) &&
            forall k :: |r| <= k < |s| ==> IsJsWhitespace(s[k])
    decreases |s|
  {
    if s != [] && IsJsWhitespace(s[|s| - 1]) {
      TrimEndSpec(s[..|s| - 1]);
    }
  }

  /**
   * trim removes white space from both ends and nothing else: the result is
   * the slice s[a..b] with only white space outside it, and it neither starts
   * nor ends with white space; a string without it is its own trim.
   */
  lemma {:induction false} TrimSpec(s: string)
    ensures exists a, b :: 0 <= a <= b <= |s| && Trim(s) == s[a..b] &&
              (forall k :: 0 <= k < a ==> IsJsWhitespace(s[k])) &&
              (forall k :: b <= k < |s| ==> IsJsWhitespace(s[k]))
    ensures var r := Trim(s);
            r == [] || (!IsJsWhitespace(r[0]) && !IsJsWhitespace(r[|r| - 1]))
    ensures s == [] || (!IsJsWhitespace(s[0]) && !IsJsWhitespace(s[|s| - 1])) ==> Trim(s) == s
  {
    TrimStartSpec(s);
    var t := TrimStart(s);
    TrimEndSpec(t);
    var r := TrimEnd(t);
    var a := |s| - |t|;
    var b := a + |r|;
    assert r == s[a..b];
    forall k | b <= k < |s|
      ensures IsJsWhitespace(s[k])
    {
      assert s[k] == t[k - a];
    }
    if r != [] {
      assert r[0] == t[0];
    }
  }

  /** String.prototype.indexOf for one character. */
  function IndexOf(s: string, c: char): (r: Option<nat>)
    ensures r.Some? ==> r.value < |s| && s[r.value] == c && c !in s[..r.value]
    ensures r.None? ==> c !in s
  {
    if c !in s then None
    else if s[0] == c then Some(0)
    else
      var k := IndexOf(s[1..], c).value;
      assert s[..k + 1] == [s[0]] + s[1..][..k];
      Some(k + 1)
  }

  predicate IsJsLineTerminator(c: char) {
    c == '\n' || c == '\r' || c as int == 0x2028 || c as int == 0x2029
  }

  /** A '?' that the pattern /\?.*$/ can match from: no line terminator follows it. */
  predicate QueryStart(v: string, q: int) {
    0 <= q < |v| && v[q] == '?' && forall k :: q < k < |v| ==> !IsJsLineTerminator(v[k])
  }

  /**
   * v.replace(/\?.*$/, ''): '.' does not cross a line terminator and '$' is the
   * end of the input, so the first '?' after the last line terminator starts
   * what is removed; without such a '?' the value is left as it is.
   */
  function StripQuery(v: string): (r: string)
    ensures |r| <= |v| && r == v[..|r|]
    ensures |r| < |v| ==> QueryStart(v, |r|)
    ensures forall q :: 0 <= q < |r| ==> !QueryStart(v, q)
    decreases |v|
  {
    if v == [] then []
    else
      var init := v[..|v| - 1];
      var head := StripQuery(init);
      var c := v[|v| - 1];
      QueryStartSnoc(v);
      if IsJsLineTerminator(c) then v
      else if head != init then head
      else if c == '?' then init
      else v
  }

  /** Where the last character is not a line terminator, a '?' before it starts a query in v exactly when it does in v without it. */
  lemma {:induction false} QueryStartSnoc(v: string)
    requires v != []
    ensures IsJsLineTerminator(v[|v| - 1]) ==> forall q :: 0 <= q < |v| ==> !QueryStart(v, q)
    ensures !IsJsLineTerminator(v[|v| - 1]) ==>
              forall q :: 0 <= q < |v| - 1 ==> (QueryStart(v, q) <==> QueryStart(v[..|v| - 1], q))
  {
    var init := v[..|v| - 1];
    if IsJsLineTerminator(v[|v| - 1]) {
      forall q | 0 <= q < |v| - 1
        ensures !QueryStart(v, q)
      {
        assert q < |v| - 1 < |v|;
      }
    } else {
      forall q | 0 <= q < |v| - 1
        ensures QueryStart(v, q) <==> QueryStart(init, q)
      {
        if QueryStart(init, q) {
          forall k | q < k < |v|
            ensures !IsJsLineTerminator(v[k])
          {
            if k < |v| - 1 {
              assert v[k] == init[k];
            }
          }
        }
      }
    }
  }

  function Join(segs: seq<string>, sep: string): string {
    if segs == [] then []
    else if |segs| == 1 then segs[0]
    else Join(segs[..|segs| - 1], sep) + sep + segs[|segs| - 1]
  }

  // ---- Coarse selector (selectorFromNode) ----------------------------------

  /** resourceAttrNames: the attribute that names the resource of an a, iframe, img or object. */
  function ResourceAttrName(tag: string): Option<string> {
    if tag == "a" then Some("href")
    else if tag == "iframe" || tag == "img" then Some("src")
    else if tag == "object" then Some("data")
    else None
  }

  /** node.getAttribute(name) || ''. */
  function AttrOrEmpty(e: Elem, name: string): string {
    if name in e.attrs then e.attrs[name] else ""
  }

  predicate AllNulFree(cs: seq<string>) {
    cs == [] || (CssEscape.NulFree(cs[0]) && AllNulFree(cs[1..]))
  }

  /** '.' + cssEscape(c) for every class, in the order given. */
  function EscapedClasses(cs: seq<string>): (r: Result<string, SelectorError>)
    ensures r.Success? <==> AllNulFree(cs)
    ensures r.Success? ==> (r.value == [] <==> cs == []) && (r.value != [] ==> r.value[0] == '.')
    ensures r.Failure? ==> r.error == InvalidCharacterError
  {
    if cs == [] then Success([])
    else
      var first :- Escape(cs[0]);
      var rest :- EscapedClasses(cs[1..]);
      Success(['.'] + first + rest)
  }

  /** The resource attribute of the coarse selector: trimmed, cut at '#' into a prefix match, omitted when empty. */
  function CoarseAttr(e: Elem): (r: Option<Simple>)
    ensures r.Some? ==> r.value.AttrSel? && IsPlainIdent(r.value.attr) && r.value.value != []
  {
    match ResourceAttrName(e.tag)
    case None => None
    case Some(attr) =>
      var str := Trim(AttrOrEmpty(e, attr));
      var cut := IndexOf(str, '#');
      var value := if cut.Some? then str[..cut.value] else str;
      if value == [] then None
      else Some(AttrSel(attr, if cut.Some? then PrefixMatch else Equals, value))
  }

  /** The resource attribute as the coarse selector writes it, its value escaped. */
  function ResourceAttrPart(e: Elem): Result<string, SelectorError> {
    EscapedAttr(CoarseAttr(e))
  }

  function EscapedAttr(a: Option<Simple>): Result<string, SelectorError> {
    match a
    case Some(AttrSel(attr, op, value)) =>
      var esc :- Escape(value);
      Success("[" + attr + (if op == PrefixMatch then "^" else "") + "=\"" + esc + "\"]")
    case _ => Success([])
  }

  /** selectorFromNode: escaped tag, '#' + escaped trimmed id, '.' + each escaped class, resource attribute. */
  function SelectorFromNode(e: Elem): Result<string, SelectorError> {
    var tag :- Escape(e.tag);
    var tail :- CoarseTail(Trim(e.id), e.classes, CoarseAttr(e));
    Success(tag + tail)
  }

  /** What follows the tag in the coarse selector. */
  function CoarseTail(id: string, classes: seq<string>, a: Option<Simple>): Result<string, SelectorError> {
    var idPart :- IdPart(id);
    var classPart :- EscapedClasses(classes);
    var attrPart :- EscapedAttr(a);
    Success(idPart + (classPart + attrPart))
  }

  function IdPart(id: string): Result<string, SelectorError> {
    if id != [] then
      var esc :- Escape(id);
      Success(['#'] + esc)
    else Success([])
  }

  // ---- Matching generated compound selectors ---------------------------------

  function CountTag(cs: seq<Elem>, tag: string): nat {
    if cs == [] then 0 else CountTag(cs[..|cs| - 1], tag) + (if cs[|cs| - 1].tag == tag then 1 else 0)
  }

  /** The n for which cs[i] is :nth-of-type(n) among its siblings cs. */
  function NthOfTypeIndex(cs: seq<Elem>, i: nat): nat
    requires i < |cs|
  {
    1 + CountTag(cs[..i], cs[i].tag)
  }

  predicate SimpleMatches(cs: seq<Elem>, i: nat, s: Simple)
    requires i < |cs|
  {
    var e := cs[i];
    match s
    case IdSel(name) => e.id == name
    case ClassSel(name) => name in e.classes
    case AttrSel(attr, op, value) =>
      attr in e.attrs &&
      (if op == Equals then e.attrs[attr] == value
       else value != [] && value <= e.attrs[attr])
    case NthOfType(n) => n == NthOfTypeIndex(cs, i)
  }

  /** The child cs[i] of some parent matches the compound selector c. */
  predicate CompoundMatches(cs: seq<Elem>, i: nat, c: Compound)
    requires i < |cs|
  {
    (c.tag.None? || c.tag.value == cs[i].tag) && AllMatch(cs, i, c.simples)
  }

  predicate AllMatch(cs: seq<Elem>, i: nat, ss: seq<Simple>)
    requires i < |cs|
  {
    forall k :: 0 <= k < |ss| ==> SimpleMatches(cs, i, ss[k])
  }

  lemma {:induction false} AllMatchConcat(cs: seq<Elem>, i: nat, a: seq<Simple>, b: seq<Simple>)
    requires i < |cs|
    ensures AllMatch(cs, i, a + b) <==> AllMatch(cs, i, a) && AllMatch(cs, i, b)
  {
    if AllMatch(cs, i, a) && AllMatch(cs, i, b) {
      forall k | 0 <= k < |a + b|
        ensures SimpleMatches(cs, i, (a + b)[k])
      {
        if k >= |a| {
          assert (a + b)[k] == b[k - |a|];
        }
      }
    }
    if AllMatch(cs, i, a + b) {
      forall k | 0 <= k < |a|
        ensures SimpleMatches(cs, i, a[k])
      {
        assert (a + b)[k] == a[k];
      }
      forall k | 0 <= k < |b|
        ensures SimpleMatches(cs, i, b[k])
      {
        assert (a + b)[|a| + k] == b[k];
      }
    }
  }

  /** The children of a parent that a selector text matches; none when it does not parse. */
  function MatchingChildren(cs: seq<Elem>, sel: string): set<nat> {
    match ParseCompound(sel)
    case None => {}
    case Some(c) => set i | 0 <= i < |cs| && CompoundMatches(cs, i, c)
  }

  /**
   * The elements ':scope > ' + sel selects on node.parentElement, as indices
   * among its children; for a node without parent the query runs on the
   * document, where :scope is the document element.
   */
  function ScopeChildren(doc: Document, p: Path): seq<Elem>
    requires WellFormed(doc) && ValidPath(doc, p)
  {
    if |p| >= 2 then ParentPath(doc, p); At(doc, Parent(p)).children else doc.roots[0].children
  }

  // ---- Fine segment (cosmeticFilterFromNode) -------------------------------

  function Reversed(cs: seq<string>): seq<string> {
    if cs == [] then [] else [cs[|cs| - 1]] + Reversed(cs[..|cs| - 1])
  }

  /** Reversed lists the same strings, last first. */
  lemma {:induction false} ReversedSpec(cs: seq<string>)
    ensures |Reversed(cs)| == |cs| && forall k :: 0 <= k < |cs| ==> Reversed(cs)[k] == cs[|cs| - 1 - k]
  {
    if cs != [] {
      ReversedSpec(cs[..|cs| - 1]);
    }
  }

  /**
   * The attribute the fine segment adds: href without its query for a, a
   * non-empty alt for img.  As written the stripped href is matched with '=';
   * `fixed` matches it as a prefix instead (see the README's findings).
   */
  function SegmentAttr(e: Elem, fixed: bool): Option<Simple> {
    if e.tag == "a" && "href" in e.attrs && e.attrs["href"] != [] && StripQuery(e.attrs["href"]) != [] then
      var v := StripQuery(e.attrs["href"]);
      Some(AttrSel("href", if fixed && v != e.attrs["href"] then PrefixMatch else Equals, v))
    else if e.tag == "img" && "alt" in e.attrs && e.attrs["alt"] != [] then
      Some(AttrSel("alt", Equals, e.attrs["alt"]))
    else None
  }

  /** The attribute as the segment writes it: name, operator and the value as it is, unescaped. */
  function AttrText(a: Option<Simple>): string {
    match a
    case Some(AttrSel(k, op, v)) => "[" + k + (if op == PrefixMatch then "^" else "") + "=\"" + v + "\"]"
    case _ => []
  }

  /** The identifying part of the segment: '#' + escaped id, else each class escaped, last class first. */
  function SegmentSuffix(e: Elem): (r: Result<string, SelectorError>)
    ensures r.Success? ==> (r.value == [] <==> e.id == [] && e.classes == [])
    ensures r.Failure? ==> r.error == InvalidCharacterError
  {
    var id :- Escape(e.id);
    if id != [] then Success(['#'] + id)
    else
      assert e.id == [] by { EscapeEmpty(e.id); }
      EscapedClasses(Reversed(e.classes))
  }

  /**
   * The segment text: the tag when there is no id or class (and, when fixed,
   * also in front of :nth-of-type), the suffix, the attribute and :nth-of-type(n).
   */
  function Render(e: Elem, suffix: string, fixed: bool, nth: Option<nat>): string {
    var typed := suffix == [] || (fixed && nth.Some?);
    (if typed then e.tag else []) + (suffix + (AttrText(SegmentAttr(e, fixed)) + NthText(nth)))
  }

  function NthText(nth: Option<nat>): string {
    if nth.Some? then NthOfTypeOpen + Radix.ToRadix(nth.value, 10) + ")" else []
  }

  /** The k of :nth-of-type(k): one plus the preceding element siblings with the same tag; 1 for a node without parent. */
  function NthIndex(doc: Document, p: Path): nat
    requires ValidPath(doc, p)
  {
    if |p| >= 2 then ParentPath(doc, p); NthOfTypeIndex(At(doc, Parent(p)).children, Last(p)) else 1
  }

  /** cosmeticFilterFromNode: the segment, with :nth-of-type(k) when it matches more than one child of the scope. */
  function Segment(doc: Document, p: Path, fixed: bool): Result<string, SelectorError>
    requires WellFormed(doc) && ValidPath(doc, p)
  {
    SegmentAmong(ScopeChildren(doc, p), At(doc, p), NthIndex(doc, p), fixed)
  }

  /** The segment of e, whose :nth-of-type index is k, when the scope query runs over the elements cs. */
  function SegmentAmong(cs: seq<Elem>, e: Elem, k: nat, fixed: bool): Result<string, SelectorError> {
    var suffix :- SegmentSuffix(e);
    var base := Render(e, suffix, fixed, None);
    if |MatchingChildren(cs, base)| > 1 then Success(Render(e, suffix, fixed, Some(k)))
    else Success(base)
  }

  /** A node below a root is the child Last(p) of its scope, and its index there is its :nth-of-type index. */
  lemma {:induction false} ScopeOf(doc: Document, p: Path)
    requires WellFormed(doc) && ValidPath(doc, p) && |p| >= 2
    ensures Last(p) < |ScopeChildren(doc, p)| && ScopeChildren(doc, p)[Last(p)] == At(doc, p)
    ensures NthIndex(doc, p) == NthOfTypeIndex(ScopeChildren(doc, p), Last(p))
  {
    ParentPath(doc, p);
  }

  /**
   * cosmeticFilterFromNode: with fixed false as the source writes it, with
   * fixed true with the two corrections of the README's findings.
   */
  function CosmeticFilterFromNode(doc: Document, p: Path, fixed: bool): Result<string, SelectorError>
    requires WellFormed(doc) && ValidPath(doc, p)
  {
    Segment(doc, p, fixed)
  }

  // ---- From a picked node to a filter (cosmeticFilterFromTarget) ------------

  predicate StartsWith(s: string, c: char) {
    s != [] && s[0] == c
  }

  predicate EndsWith(s: string, t: string) {
    |t| <= |s| && s[|s| - |t|..] == t
  }

  lemma {:induction false} EndsWithTrans(s: string, t: string, u: string)
    requires EndsWith(s, t) && EndsWith(t, u)
    ensures EndsWith(s, u)
  {
    assert s[|s| - |u|..] == t[|t| - |u|..];
  }

  /**
   * The segments from the node at p up to, and not including, document.body:
   * the climb stops early at a segment that starts with '#', and fails reading
   * the parent of a root it reaches without meeting either.  Each segment is
   * cosmeticFilterFromNode's, as written or corrected as fixed says.
   */
  function Climb(doc: Document, p: Path, fixed: bool): Result<seq<string>, SelectorError>
    requires WellFormed(doc) && ValidPath(doc, p)
    decreases |p|
  {
    if p == Body(doc) then Success([])
    else
      var seg :- CosmeticFilterFromNode(doc, p, fixed);
      if StartsWith(seg, '#') then Success([seg])
      else if |p| < 2 then Failure(TypeError)
      else
        ParentPath(doc, p);
        var up :- Climb(doc, Parent(p), fixed);
        Success(up + [seg])
  }

  /** The last of elems[..n] whose node id is nid (nodeToIdMap.get(elem) === nid). */
  function FindLastWithId(doc: Document, ids: map<Key, string>, elems: seq<Path>, nid: string, n: nat): (r: Option<nat>)
    requires n <= |elems| && forall i :: 0 <= i < |elems| ==> ValidPath(doc, elems[i])
    ensures r.Some? ==> r.value < n && HasId(doc, ids, elems[r.value], nid)
    ensures forall i :: (if r.Some? then r.value else 0) <= i < n && (r.None? || i != r.value) ==>
              !HasId(doc, ids, elems[i], nid)
  {
    if n == 0 then None
    else if HasId(doc, ids, elems[n - 1], nid) then Some(n - 1)
    else FindLastWithId(doc, ids, elems, nid, n - 1)
  }

  predicate HasId(doc: Document, ids: map<Key, string>, p: Path, nid: string)
    requires ValidPath(doc, p)
  {
    At(doc, p).key in ids && ids[At(doc, p).key] == nid
  }

  /**
   * cosmeticFilterFromTarget: the most concise filter for the node nid among
   * the matches of coarse, built from the segments of Climb(…, fixed).
   */
  function CosmeticFilterFromTarget(doc: Document, ids: map<Key, string>, query: Query, nid: string, coarse: string, fixed: bool): (r: Result<string, SelectorError>)
    requires WellFormed(doc) && QueryResolves(doc, query)
    ensures (forall i :: 0 <= i < |query(coarse)| ==> !HasId(doc, ids, query(coarse)[i], nid)) ==> r == Success(coarse)
    ensures r.Success? && (exists i :: 0 <= i < |query(coarse)| && HasId(doc, ids, query(coarse)[i], nid)) ==>
              StartsWith(r.value, '#') || (StartsWith(r.value, '.') && |query(r.value)| == 1) ||
              (|r.value| >= 7 && r.value[..7] == "body > ")
  {
    var elems := query(coarse);
    match FindLastWithId(doc, ids, elems, nid, |elems|)
    case None => Success(coarse)
    case Some(i) =>
      var segs :- Climb(doc, elems[i], fixed);
      Success(Anchor(query, Join(segs, " > ")))
  }

  /**
   * The last step of cosmeticFilterFromTarget: the joined segments as they are
   * when they start with an id, or with a class and select one element only;
   * anchored with "body > " otherwise.
   */
  function Anchor(query: Query, fine: string): (r: string)
    ensures StartsWith(r, '#') || (StartsWith(r, '.') && |query(r)| == 1) || (|r| >= 7 && r[..7] == "body > ")
    ensures EndsWith(r, fine)
    ensures StartsWith(fine, '#') ==> r == fine
  {
    if StartsWith(fine, '#') then fine
    else if StartsWith(fine, '.') && |query(fine)| == 1 then fine
    else "body > " + fine
  }

  /** What the picker sends back for a node: its node id and its coarse selector. */
  datatype Entry = Entry(nid: string, selector: string)

  /**
   * cosmeticFilterFromEntries: one filter per entry, taken last entry first;
   * an exception aborts the lot.  fixed is passed down to the segments.
   */
  function CosmeticFilterFromEntries(doc: Document, ids: map<Key, string>, query: Query, entries: seq<Entry>, fixed: bool): Result<seq<string>, SelectorError>
    requires WellFormed(doc) && QueryResolves(doc, query)
  {
    CollectLastFirst(Targets(doc, ids, query, entries, fixed))
  }

  /** cosmeticFilterFromTarget for each entry, in entry order. */
  function Targets(doc: Document, ids: map<Key, string>, query: Query, entries: seq<Entry>, fixed: bool): (rs: seq<Result<string, SelectorError>>)
    requires WellFormed(doc) && QueryResolves(doc, query)
    ensures |rs| == |entries|
    ensures forall j :: 0 <= j < |entries| ==>
              rs[j] == CosmeticFilterFromTarget(doc, ids, query, entries[j].nid, entries[j].selector, fixed)
  {
    seq(|entries|, j requires 0 <= j < |entries| =>
      CosmeticFilterFromTarget(doc, ids, query, entries[j].nid, entries[j].selector, fixed))
  }

  /** The values of rs, last first, or the first failure met going from the end. */
  function CollectLastFirst<T, E>(rs: seq<Result<T, E>>): Result<seq<T>, E> {
    if rs == [] then Success([])
    else
      var first :- rs[|rs| - 1];
      var rest :- CollectLastFirst(rs[..|rs| - 1]);
      Success([first] + rest)
  }

  /** selectNodes: every match of the selector, or only the last match that carries node id nid. */
  function SelectNodes(doc: Document, ids: map<Key, string>, query: Query, selector: string, nid: string): (r: seq<Path>)
    requires QueryResolves(doc, query)
    ensures var elems := query(selector);
            nid == [] ==> r == elems
    ensures var elems := query(selector);
            nid != [] ==>
              |r| <= 1 &&
              (r == [] <==> forall i :: 0 <= i < |elems| ==> !HasId(doc, ids, elems[i], nid)) &&
              (r != [] ==> exists i :: 0 <= i < |elems| && r[0] == elems[i] && HasId(doc, ids, elems[i], nid) &&
                                        forall j :: i < j < |elems| ==> !HasId(doc, ids, elems[j], nid))
  {
    var elems := query(selector);
    if nid == [] then elems
    else
      match FindLastWithId(doc, ids, elems, nid, |elems|)
      case None => []
      case Some(i) => [elems[i]]
  }

  // ---- What the coarse selector selects --------------------------------------

  /** A name a selector can carry after cssEscape: not empty, not a lone '-', free of U+0000. */
  predicate Readable(s: string) {
    s != [] && s != "-" && CssEscape.NulFree(s)
  }

  function ClassSimples(cs: seq<string>): seq<Simple> {
    if cs == [] then [] else [ClassSel(cs[0])] + ClassSimples(cs[1..])
  }

  function OptSimple(a: Option<Simple>): seq<Simple> {
    if a.Some? then [a.value] else []
  }

  /** What selectorFromNode asks of a node: its tag, trimmed id, classes and resource attribute. */
  function CoarseCompound(e: Elem): Compound {
    Compound(Some(e.tag), IdSimples(Trim(e.id)) + (ClassSimples(e.classes) + OptSimple(CoarseAttr(e))))
  }

  predicate CoarseReadable(e: Elem) {
    Readable(e.tag) &&
    (Trim(e.id) != [] ==> Readable(Trim(e.id))) &&
    AllReadable(e.classes) &&
    (CoarseAttr(e).Some? ==> CssEscape.NulFree(CoarseAttr(e).value.value))
  }

  predicate AllReadable(cs: seq<string>) {
    cs == [] || (Readable(cs[0]) && AllReadable(cs[1..]))
  }

  /** '#' or '.' and an escaped name read back as an id or class selector. */
  lemma {:induction false} NameReadsBack(mark: char, name: string, r: string)
    requires mark == '#' || mark == '.'
    requires Readable(name) && CssEscape.EndsIdent(r)
    ensures Escape(name).Success?
    ensures ParseSimples([mark] + Escape(name).value + r)
         == Then([if mark == '#' then IdSel(name) else ClassSel(name)], ParseSimples(r))
  {
    CssEscape.EscapeStartsIdent(name, r);
    CssEscape.EscapeRoundTrip(name, r);
    ParseNameStep(mark, Escape(name).value, name, r);
  }

  lemma {:induction false} ClassesReadBack(cs: seq<string>, r: string)
    requires AllReadable(cs)
    requires CssEscape.EndsIdent(r)
    ensures EscapedClasses(cs).Success?
    ensures ParseSimples(EscapedClasses(cs).value + r) == Then(ClassSimples(cs), ParseSimples(r))
    ensures CssEscape.EndsIdent(EscapedClasses(cs).value + r)
  {
    if cs == [] {
      assert EscapedClasses(cs).value + r == r;
      ThenNothing(ParseSimples(r));
    } else {
      ClassesReadBack(cs[1..], r);
      var rest := EscapedClasses(cs[1..]).value + r;
      NameReadsBack('.', cs[0], rest);
      EscapedClassesCons(cs, r);
      ThenThen([ClassSel(cs[0])], ClassSimples(cs[1..]), ParseSimples(r));
    }
  }

  lemma {:induction false} EscapedClassesCons(cs: seq<string>, r: string)
    requires cs != [] && AllReadable(cs)
    ensures EscapedClasses(cs).Success? && Escape(cs[0]).Success? && EscapedClasses(cs[1..]).Success?
    ensures EscapedClasses(cs).value + r == ['.'] + Escape(cs[0]).value + (EscapedClasses(cs[1..]).value + r)
    ensures ClassSimples(cs) == [ClassSel(cs[0])] + ClassSimples(cs[1..])
  {
    ReadableNulFree(cs[1..]);
    var head := ['.'] + Escape(cs[0]).value;
    var tail := EscapedClasses(cs[1..]).value;
    assert EscapedClasses(cs).value == head + tail;
    Associative(head, tail, r);
  }

  lemma {:induction false} ReadableNulFree(cs: seq<string>)
    requires AllReadable(cs)
    ensures AllNulFree(cs)
  {
    if cs != [] {
      ReadableNulFree(cs[1..]);
    }
  }

  lemma {:induction false} EscapedAttrReadsBack(a: Option<Simple>, r: string)
    requires a.Some? ==> a.value.AttrSel? && IsPlainIdent(a.value.attr) && CssEscape.NulFree(a.value.value)
    ensures EscapedAttr(a).Success?
    ensures ParseSimples(EscapedAttr(a).value + r) == Then(OptSimple(a), ParseSimples(r))
    ensures EscapedAttr(a).value == [] || EscapedAttr(a).value[0] == '['
  {
    match a
    case None =>
      assert EscapedAttr(a).value + r == r;
      ThenNothing(ParseSimples(r));
    case Some(s) =>
      var esc := Escape(s.value).value;
      CssEscape.EscapeStringRoundTrip(s.value, "]" + r);
      ParseAttrStep(s.attr, s.op, esc, s.value, r);
  }

  lemma {:induction false} EscapedAttrReadsBackAlone(a: Option<Simple>)
    requires a.Some? ==> a.value.AttrSel? && IsPlainIdent(a.value.attr) && CssEscape.NulFree(a.value.value)
    ensures EscapedAttr(a).Success?
    ensures ParseSimples(EscapedAttr(a).value) == Some(OptSimple(a))
    ensures CssEscape.EndsIdent(EscapedAttr(a).value)
  {
    EscapedAttrReadsBack(a, []);
    ThenEnd(OptSimple(a), []);
    assert EscapedAttr(a).value + [] == EscapedAttr(a).value;
  }

  lemma {:induction false} IdPartReadsBack(id: string, rest: string, more: seq<Simple>)
    requires id != [] ==> Readable(id)
    requires CssEscape.EndsIdent(rest) && ParseSimples(rest) == Some(more)
    ensures IdPart(id).Success?
    ensures ParseSimples(IdPart(id).value + rest) == Some(IdSimples(id) + more)
    ensures CssEscape.EndsIdent(IdPart(id).value + rest)
  {
    if id != [] {
      NameReadsBack('#', id, rest);
      assert IdPart(id).value + rest == ['#'] + Escape(id).value + rest;
    } else {
      assert IdPart(id).value + rest == rest;
      assert [] + more == more;
    }
  }

  function IdSimples(id: string): seq<Simple> {
    if id != [] then [IdSel(id)] else []
  }

  lemma {:induction false} CoarseTailReadsBack(id: string, classes: seq<string>, a: Option<Simple>)
    requires id != [] ==> Readable(id)
    requires AllReadable(classes)
    requires a.Some? ==> a.value.AttrSel? && IsPlainIdent(a.value.attr) && CssEscape.NulFree(a.value.value)
    ensures CoarseTail(id, classes, a).Success?
    ensures ParseSimples(CoarseTail(id, classes, a).value) == Some(IdSimples(id) + (ClassSimples(classes) + OptSimple(a)))
    ensures CssEscape.EndsIdent(CoarseTail(id, classes, a).value)
  {
    EscapedAttrReadsBackAlone(a);
    var attrPart := EscapedAttr(a).value;
    ClassesReadBack(classes, attrPart);
    var rest := EscapedClasses(classes).value + attrPart;
    IdPartReadsBack(id, rest, ClassSimples(classes) + OptSimple(a));
  }

  /** Round trip: the coarse selector of a node reads back as its tag, trimmed id, classes and resource attribute. */
  lemma {:induction false} SelectorFromNodeReadsBack(e: Elem)
    requires CoarseReadable(e)
    ensures SelectorFromNode(e).Success?
    ensures ParseCompound(SelectorFromNode(e).value) == Some(CoarseCompound(e))
  {
    CoarseTailReadsBack(Trim(e.id), e.classes, CoarseAttr(e));
    var tail := CoarseTail(Trim(e.id), e.classes, CoarseAttr(e)).value;
    var tag := Escape(e.tag).value;
    CssEscape.EscapeStartsIdent(e.tag, tail);
    CssEscape.EscapeRoundTrip(e.tag, tail);
    ParseTypedStep(tag, e.tag, tail);
  }

  /** A node matches its own coarse selector when its id and resource attribute carry no surrounding white space. */
  lemma {:induction false} CoarseSelectorMatches(cs: seq<Elem>, i: nat)
    requires i < |cs|
    requires Trim(cs[i].id) == [] || Trim(cs[i].id) == cs[i].id
    requires ResourceAttrName(cs[i].tag).Some? ==>
               Trim(AttrOrEmpty(cs[i], ResourceAttrName(cs[i].tag).value)) == AttrOrEmpty(cs[i], ResourceAttrName(cs[i].tag).value)
    ensures CompoundMatches(cs, i, CoarseCompound(cs[i]))
  {
    var e := cs[i];
    var id := Trim(e.id);
    var ids := IdSimples(id);
    ClassesMatch(cs, i, e.classes);
    CoarseAttrMatches(cs, i);
    assert AllMatch(cs, i, ids);
    AllMatchConcat(cs, i, ClassSimples(e.classes), OptSimple(CoarseAttr(e)));
    AllMatchConcat(cs, i, ids, ClassSimples(e.classes) + OptSimple(CoarseAttr(e)));
  }

  /** A node carries every class of a list drawn from its own classes. */
  lemma {:induction false} ClassesMatch(cs: seq<Elem>, i: nat, classes: seq<string>)
    requires i < |cs| && forall k :: 0 <= k < |classes| ==> classes[k] in cs[i].classes
    ensures AllMatch(cs, i, ClassSimples(classes))
  {
    if classes != [] {
      ClassesMatch(cs, i, classes[1..]);
      AllMatchConcat(cs, i, [ClassSel(classes[0])], ClassSimples(classes[1..]));
    }
  }

  lemma {:induction false} CoarseAttrMatches(cs: seq<Elem>, i: nat)
    requires i < |cs|
    requires ResourceAttrName(cs[i].tag).Some? ==>
               Trim(AttrOrEmpty(cs[i], ResourceAttrName(cs[i].tag).value)) == AttrOrEmpty(cs[i], ResourceAttrName(cs[i].tag).value)
    ensures AllMatch(cs, i, OptSimple(CoarseAttr(cs[i])))
  {
    var e := cs[i];
    if CoarseAttr(e).Some? {
      var attr := ResourceAttrName(e.tag).value;
      var str := AttrOrEmpty(e, attr);
      assert attr in e.attrs && e.attrs[attr] == str;
      var cut := IndexOf(str, '#');
      if cut.Some? {
        assert str[..cut.value] <= str;
      }
      assert SimpleMatches(cs, i, CoarseAttr(e).value);
    }
  }

  /** ... and misses it when the id has surrounding white space: the selector names the trimmed id. */
  lemma {:induction false} CoarseSelectorMissesPaddedId(cs: seq<Elem>, i: nat)
    requires i < |cs|
    requires Trim(cs[i].id) != [] && Trim(cs[i].id) != cs[i].id
    ensures !CompoundMatches(cs, i, CoarseCompound(cs[i]))
  {
    assert CoarseCompound(cs[i]).simples[0] == IdSel(Trim(cs[i].id));
  }

  // ---- What the fine segment selects ----------------------------------------

  predicate AllReadableAt(cs: seq<string>) {
    forall k :: 0 <= k < |cs| ==> Readable(cs[k])
  }

  lemma {:induction false} AllReadableIff(cs: seq<string>)
    ensures AllReadable(cs) <==> AllReadableAt(cs)
  {
    if cs != [] {
      AllReadableIff(cs[1..]);
      if AllReadableAt(cs) {
        assert forall k :: 0 <= k < |cs| - 1 ==> cs[1..][k] == cs[k + 1];
      }
      if AllReadable(cs) {
        forall k | 0 <= k < |cs|
          ensures Readable(cs[k])
        {
          if k > 0 {
            assert cs[k] == cs[1..][k - 1];
          }
        }
      }
    }
  }

  /** What a node's segment needs to read back: a plain tag, a readable id or classes, a plain attribute value. */
  predicate FineReadable(e: Elem, fixed: bool) {
    IsPlainIdent(e.tag) &&
    (e.id != [] ==> Readable(e.id)) &&
    AllReadable(e.classes) &&
    (SegmentAttr(e, fixed).Some? ==> IsPlainString(SegmentAttr(e, fixed).value.value))
  }

  function NthSimples(nth: Option<nat>): seq<Simple> {
    if nth.Some? then [NthOfType(nth.value)] else []
  }

  function SuffixSimples(e: Elem): seq<Simple> {
    if e.id != [] then [IdSel(e.id)] else ClassSimples(Reversed(e.classes))
  }

  /** What a segment asks of a node. */
  function FineCompound(e: Elem, fixed: bool, nth: Option<nat>): Compound {
    var typed := (e.id == [] && e.classes == []) || (fixed && nth.Some?);
    Compound(if typed then Some(e.tag) else None,
             SuffixSimples(e) + (OptSimple(SegmentAttr(e, fixed)) + NthSimples(nth)))
  }

  lemma {:induction false} NthTextReadsBack(nth: Option<nat>)
    ensures ParseSimples(NthText(nth)) == Some(NthSimples(nth))
    ensures CssEscape.EndsIdent(NthText(nth))
  {
    if nth.Some? {
      ParseNthStep(nth.value, []);
      ThenEnd([NthOfType(nth.value)], []);
      assert NthText(nth) + [] == NthText(nth);
    }
  }

  lemma {:induction false} AttrTextReadsBack(a: Option<Simple>, r: string)
    requires a.Some? ==> a.value.AttrSel? && IsPlainIdent(a.value.attr) && IsPlainString(a.value.value)
    requires CssEscape.EndsIdent(r)
    ensures ParseSimples(AttrText(a) + r) == Then(OptSimple(a), ParseSimples(r))
    ensures CssEscape.EndsIdent(AttrText(a) + r)
  {
    match a
    case None =>
      assert AttrText(a) + r == r;
      ThenNothing(ParseSimples(r));
    case Some(s) =>
      PlainStringReadsBack(s.value, "]" + r);
      ParseAttrStep(s.attr, s.op, s.value, s.value, r);
  }

  lemma {:induction false} SegmentAttrPlain(e: Elem, fixed: bool)
    ensures SegmentAttr(e, fixed).Some? ==> SegmentAttr(e, fixed).value.AttrSel? && IsPlainIdent(SegmentAttr(e, fixed).value.attr)
  {
  }

  lemma {:induction false} SuffixReadsBack(e: Elem, r: string)
    requires (e.id != [] ==> Readable(e.id)) && AllReadable(e.classes)
    requires CssEscape.EndsIdent(r)
    ensures SegmentSuffix(e).Success?
    ensures ParseSimples(SegmentSuffix(e).value + r) == Then(SuffixSimples(e), ParseSimples(r))
    ensures SegmentSuffix(e).value != [] ==> SegmentSuffix(e).value[0] == '#' || SegmentSuffix(e).value[0] == '.'
    ensures SegmentSuffix(e).value != [] ==> (SegmentSuffix(e).value + r)[0] == SegmentSuffix(e).value[0]
    ensures CssEscape.EndsIdent(SegmentSuffix(e).value + r)
  {
    if e.id != [] {
      NameReadsBack('#', e.id, r);
      assert SegmentSuffix(e).value == ['#'] + Escape(e.id).value;
    } else {
      EscapeEmpty(e.id);
      AllReadableIff(e.classes);
      ReversedSpec(e.classes);
      AllReadableIff(Reversed(e.classes));
      ClassesReadBack(Reversed(e.classes), r);
    }
  }

  /** Round trip: a node's segment reads back as its id or classes, its attribute and :nth-of-type(n). */
  lemma {:induction false} SegmentReadsBack(e: Elem, fixed: bool, nth: Option<nat>)
    requires FineReadable(e, fixed)
    ensures SegmentSuffix(e).Success?
    ensures ParseCompound(Render(e, SegmentSuffix(e).value, fixed, nth)) == Some(FineCompound(e, fixed, nth))
  {
    SegmentTailReadsBack(e, fixed, nth);
    var suffix := SegmentSuffix(e).value;
    var rest := suffix + (AttrText(SegmentAttr(e, fixed)) + NthText(nth));
    if suffix == [] || (fixed && nth.Some?) {
      PlainIdentReadsBack(e.tag, rest);
      ParseTypedStep(e.tag, e.tag, rest);
    } else {
      assert Render(e, suffix, fixed, nth) == rest;
      ParseUntypedStep(rest);
    }
  }

  /** What follows the type selector of a segment reads back as the simple selectors of the segment. */
  lemma {:induction false} SegmentTailReadsBack(e: Elem, fixed: bool, nth: Option<nat>)
    requires FineReadable(e, fixed)
    ensures SegmentSuffix(e).Success?
    ensures var rest := SegmentSuffix(e).value + (AttrText(SegmentAttr(e, fixed)) + NthText(nth));
            ParseSimples(rest) == Some(FineCompound(e, fixed, nth).simples) &&
            CssEscape.EndsIdent(rest) &&
            (SegmentSuffix(e).value == [] <==> e.id == [] && e.classes == []) &&
            (SegmentSuffix(e).value != [] ==> rest[0] == '#' || rest[0] == '.') &&
            Render(e, SegmentSuffix(e).value, fixed, nth) ==
              (if SegmentSuffix(e).value == [] || (fixed && nth.Some?) then e.tag else []) + rest
  {
    NthTextReadsBack(nth);
    var a := SegmentAttr(e, fixed);
    SegmentAttrPlain(e, fixed);
    AttrTextReadsBack(a, NthText(nth));
    var tail := AttrText(a) + NthText(nth);
    SuffixReadsBack(e, tail);
  }

  /** With the corrections, a node matches its own segment. */
  lemma {:induction false} FineSelfMatch(cs: seq<Elem>, i: nat, nth: Option<nat>)
    requires i < |cs| && (nth.Some? ==> nth.value == NthOfTypeIndex(cs, i))
    ensures CompoundMatches(cs, i, FineCompound(cs[i], true, nth))
  {
    var e := cs[i];
    if e.id == [] {
      ReversedSpec(e.classes);
      ClassesMatch(cs, i, Reversed(e.classes));
    }
    assert AllMatch(cs, i, SuffixSimples(e));
    var a := SegmentAttr(e, true);
    if e.tag == "a" && "href" in e.attrs && e.attrs["href"] != [] && StripQuery(e.attrs["href"]) != [] {
      assert StripQuery(e.attrs["href"]) <= e.attrs["href"];
    }
    assert AllMatch(cs, i, OptSimple(a));
    assert AllMatch(cs, i, NthSimples(nth));
    AllMatchConcat(cs, i, OptSimple(a), NthSimples(nth));
    AllMatchConcat(cs, i, SuffixSimples(e), OptSimple(a) + NthSimples(nth));
  }

  lemma {:induction false} CountTagGrows(cs: seq<Elem>, j: nat, i: nat, tag: string)
    requires j <= i <= |cs|
    ensures CountTag(cs[..j], tag) <= CountTag(cs[..i], tag)
    decreases i - j
  {
    if j < i {
      CountTagGrows(cs, j, i - 1, tag);
      assert cs[..i][..i - 1] == cs[..i - 1];
    }
  }

  /** Siblings with the same tag have distinct :nth-of-type indices, in document order. */
  lemma {:induction false} NthOfTypeIncreasing(cs: seq<Elem>, i: nat, j: nat)
    requires i < j < |cs| && cs[i].tag == cs[j].tag
    ensures NthOfTypeIndex(cs, i) < NthOfTypeIndex(cs, j)
  {
    CountTagGrows(cs, i + 1, j, cs[i].tag);
    assert cs[..i + 1][..i] == cs[..i];
  }

  /** A compound with the node's tag and :nth-of-type index matches no other sibling. */
  lemma {:induction false} NthCompoundUnique(cs: seq<Elem>, i: nat, j: nat, c: Compound, k: nat)
    requires i < |cs| && j < |cs|
    requires c.tag == Some(cs[i].tag) && k < |c.simples| && c.simples[k] == NthOfType(NthOfTypeIndex(cs, i))
    requires CompoundMatches(cs, j, c)
    ensures j == i
  {
    assert SimpleMatches(cs, j, c.simples[k]);
    if i < j {
      NthOfTypeIncreasing(cs, i, j);
    } else if j < i {
      NthOfTypeIncreasing(cs, j, i);
    }
  }

  lemma {:induction false} SingletonFromCard(m: set<nat>, i: nat)
    requires i in m && |m| <= 1
    ensures m == {i}
  {
    var rest := m - {i};
    assert m * {i} == {i};
    assert |rest| == 0;
    assert m == rest + {i};
  }

  /**
   * Intended property of cosmeticFilterFromNode: the segment of a node selects,
   * among the children of the node's parent, that node and no other.
   */
  lemma {:induction false} SegmentSelectsOnlyNode(doc: Document, p: Path)
    requires WellFormed(doc) && ValidPath(doc, p) && |p| >= 2
    requires FineReadable(At(doc, p), true)
    ensures CosmeticFilterFromNode(doc, p, true).Success?
    ensures MatchingChildren(ScopeChildren(doc, p), CosmeticFilterFromNode(doc, p, true).value) == {Last(p)}
  {
    ScopeOf(doc, p);
    SegmentAmongSelectsOnly(ScopeChildren(doc, p), Last(p));
  }

  /** The corrected segment of the child i selects, among cs, the child i and no other. */
  lemma {:induction false} SegmentAmongSelectsOnly(cs: seq<Elem>, i: nat)
    requires i < |cs| && FineReadable(cs[i], true)
    ensures var seg := SegmentAmong(cs, cs[i], NthOfTypeIndex(cs, i), true);
            seg.Success? && MatchingChildren(cs, seg.value) == {i}
  {
    var e := cs[i];
    SegmentReadsBack(e, true, None);
    var suffix := SegmentSuffix(e).value;
    var m := MatchingChildren(cs, Render(e, suffix, true, None));
    FineSelfMatch(cs, i, None);
    if |m| > 1 {
      NthSelectsOnly(cs, i);
    } else {
      SingletonFromCard(m, i);
    }
  }

  /** With its :nth-of-type index, the corrected segment of the child i selects it alone. */
  lemma {:induction false} NthSelectsOnly(cs: seq<Elem>, i: nat)
    requires i < |cs| && FineReadable(cs[i], true)
    ensures SegmentSuffix(cs[i]).Success?
    ensures MatchingChildren(cs, Render(cs[i], SegmentSuffix(cs[i]).value, true, Some(NthOfTypeIndex(cs, i)))) == {i}
  {
    var e := cs[i];
    var k := NthOfTypeIndex(cs, i);
    SegmentReadsBack(e, true, Some(k));
    var c := FineCompound(e, true, Some(k));
    FineSelfMatch(cs, i, Some(k));
    var n := |c.simples| - 1;
    assert c.simples[n] == NthOfType(k);
    var sel := MatchingChildren(cs, Render(e, SegmentSuffix(e).value, true, Some(k)));
    forall j | j in sel
      ensures j == i
    {
      NthCompoundUnique(cs, i, j, c, n);
    }
  }

  // ---- The climb and the filter it yields -----------------------------------

  /**
   * The climb lists, top first, the segments of the node and of its ancestors
   * up to a segment starting with '#' or up to the child of body; only the top
   * segment may start with '#'.
   */
  lemma {:induction false} ClimbShape(doc: Document, p: Path, fixed: bool)
    requires WellFormed(doc) && ValidPath(doc, p)
    requires Climb(doc, p, fixed).Success?
    ensures Shaped(p, Body(doc), Climb(doc, p, fixed).value)
    decreases |p|
  {
    if p != Body(doc) {
      var seg := CosmeticFilterFromNode(doc, p, fixed).value;
      if !StartsWith(seg, '#') {
        ParentPath(doc, p);
        ClimbShape(doc, Parent(p), fixed);
        ShapedStep(p, Body(doc), Climb(doc, Parent(p), fixed).value, seg);
      }
    }
  }

  /**
   * segs, the climb from p, has at most one segment per level, is empty
   * exactly at body, starts with an id segment or reaches up to the child of
   * body, and holds no id segment below its top.
   */
  predicate Shaped(p: Path, body: Path, segs: seq<string>) {
    |segs| <= |p| &&
    (segs == [] <==> p == body) &&
    (segs != [] ==> StartsWith(segs[0], '#') || p[..|p| - |segs|] == body) &&
    (forall j :: 0 < j < |segs| ==> !StartsWith(segs[j], '#'))
  }

  /** One level more: a segment that is not an id, under the climb of the parent. */
  lemma {:induction false} ShapedStep(p: Path, body: Path, up: seq<string>, seg: string)
    requires |p| >= 2 && p != body && !StartsWith(seg, '#')
    requires Shaped(p[..|p| - 1], body, up)
    ensures Shaped(p, body, up + [seg])
  {
    var q := p[..|p| - 1];
    var segs := up + [seg];
    assert p[..|p| - |segs|] == q[..|q| - |up|];
    forall j | 0 < j < |segs|
      ensures !StartsWith(segs[j], '#')
    {
      if j < |up| {
        assert segs[j] == up[j];
      }
    }
  }

  /** segs are, top first, the segments of the node at p and of its nearest ancestors, the last one p's own. */
  predicate SegmentsOf(doc: Document, p: Path, segs: seq<string>, fixed: bool)
    requires WellFormed(doc) && ValidPath(doc, p)
    decreases |p|
  {
    segs == [] ||
    (CosmeticFilterFromNode(doc, p, fixed) == Success(segs[|segs| - 1]) &&
     (|segs| == 1 || (|p| >= 2 && ValidPath(doc, Parent(p)) && SegmentsOf(doc, Parent(p), segs[..|segs| - 1], fixed))))
  }

  /** Each segment of the climb is the segment of the ancestor at its depth. */
  lemma {:induction false} ClimbSegments(doc: Document, p: Path, fixed: bool)
    requires WellFormed(doc) && ValidPath(doc, p)
    requires Climb(doc, p, fixed).Success?
    ensures SegmentsOf(doc, p, Climb(doc, p, fixed).value, fixed)
    decreases |p|
  {
    var segs := Climb(doc, p, fixed).value;
    if p != Body(doc) {
      var seg := CosmeticFilterFromNode(doc, p, fixed).value;
      if !StartsWith(seg, '#') {
        ParentPath(doc, p);
        ClimbSegments(doc, Parent(p), fixed);
        var up := Climb(doc, Parent(p), fixed).value;
        assert segs == up + [seg];
        assert segs[..|segs| - 1] == up;
      }
    }
  }

  /** Below body the climb cannot reach the parent of a root: it fails only when cssEscape does. */
  lemma {:induction false} ClimbUnderBody(doc: Document, p: Path, fixed: bool)
    requires WellFormed(doc) && ValidPath(doc, p)
    requires |p| >= 2 && p[..2] == Body(doc)
    ensures Climb(doc, p, fixed).Success? || Climb(doc, p, fixed).error == InvalidCharacterError
    decreases |p|
  {
    if p != Body(doc) && CosmeticFilterFromNode(doc, p, fixed).Success? {
      assert |p| > 2;
      ParentPath(doc, p);
      assert Parent(p)[..2] == p[..2];
      ClimbUnderBody(doc, Parent(p), fixed);
    }
  }

  /** Outside body the climb ends reading the parent of a root, a TypeError (the html element without an id, say). */
  lemma {:induction false} ClimbAboveBody(doc: Document, fixed: bool)
    requires WellFormed(doc) && ValidPath(doc, [0])
    requires doc.roots[0].tag == "html" && doc.roots[0].id == [] && doc.roots[0].classes == []
    ensures Climb(doc, [0], fixed) == Failure(TypeError)
  {
    var e := At(doc, [0]);
    assert e == doc.roots[0];
    assert Escape(e.id) == Success([]);
    assert Reversed(e.classes) == [];
    assert SegmentSuffix(e) == Success([]);
    var seg := CosmeticFilterFromNode(doc, [0], fixed);
    assert seg.Success? && seg.value[0] == 'h';
  }

  /** The joined climb ends with the node's own segment. */
  lemma {:induction false} JoinEndsWith(segs: seq<string>, sep: string)
    requires segs != []
    ensures EndsWith(Join(segs, sep), segs[|segs| - 1])
  {
  }

  /** The joined climb starts with its top segment. */
  lemma {:induction false} JoinStartsWith(segs: seq<string>, sep: string)
    requires segs != []
    ensures |segs[0]| <= |Join(segs, sep)| && Join(segs, sep)[..|segs[0]|] == segs[0]
    decreases |segs|
  {
    if |segs| > 1 {
      JoinStartsWith(segs[..|segs| - 1], sep);
    }
  }

  /** Collecting fails exactly when one result is a failure, and otherwise lists the values last first. */
  lemma {:induction false} CollectLastFirstSpec<T, E>(rs: seq<Result<T, E>>)
    ensures CollectLastFirst(rs).Failure? <==> exists j :: 0 <= j < |rs| && rs[j].Failure?
    ensures CollectLastFirst(rs).Success? ==>
              |CollectLastFirst(rs).value| == |rs| &&
              forall j :: 0 <= j < |rs| ==> rs[|rs| - 1 - j] == Success(CollectLastFirst(rs).value[j])
  {
    if rs != [] {
      var n := |rs|;
      var init := rs[..n - 1];
      CollectLastFirstSpec(init);
      var r := CollectLastFirst(rs);
      if r.Failure? {
        if rs[n - 1].Success? {
          var j :| 0 <= j < |init| && init[j].Failure?;
          assert rs[j] == init[j];
        }
      } else {
        var rest := CollectLastFirst(init).value;
        assert r.value == [rs[n - 1].value] + rest;
        forall j | 0 <= j < n
          ensures rs[n - 1 - j] == Success(r.value[j])
        {
          if j > 0 {
            assert r.value[j] == rest[j - 1];
            assert rs[n - 1 - j] == init[|init| - 1 - (j - 1)];
          }
        }
        forall j | 0 <= j < n
          ensures rs[j].Success?
        {
          if j < n - 1 {
            assert rs[j] == init[j];
          }
        }
      }
    }
  }

  /** When the node is found, the climb's last segment is the node's own. */
  lemma {:induction false} ClimbEndsWithOwn(doc: Document, p: Path, fixed: bool)
    requires WellFormed(doc) && ValidPath(doc, p) && p != Body(doc)
    requires Climb(doc, p, fixed).Success?
    ensures var segs := Climb(doc, p, fixed).value;
            CosmeticFilterFromNode(doc, p, fixed).Success? && segs != [] && segs[|segs| - 1] == CosmeticFilterFromNode(doc, p, fixed).value
  {
  }

  /** When the node is found below body, the filter ends with the node's own segment. */
  lemma {:induction false} TargetEndsWithOwnSegment(doc: Document, ids: map<Key, string>, query: Query, nid: string, coarse: string, i: nat, fixed: bool)
    requires WellFormed(doc) && QueryResolves(doc, query)
    requires FindLastWithId(doc, ids, query(coarse), nid, |query(coarse)|) == Some(i)
    requires query(coarse)[i] != Body(doc)
    requires CosmeticFilterFromTarget(doc, ids, query, nid, coarse, fixed).Success?
    ensures var own := CosmeticFilterFromNode(doc, query(coarse)[i], fixed);
            own.Success? && EndsWith(CosmeticFilterFromTarget(doc, ids, query, nid, coarse, fixed).value, own.value)
  {
    var p := query(coarse)[i];
    TargetFound(doc, ids, query, nid, coarse, i, fixed);
    ClimbEndsWithOwn(doc, p, fixed);
    AnchorKeepsLast(query, Climb(doc, p, fixed).value);
  }

  /**
   * Once the node is found, the filter is the anchored join of a list of
   * segments, top first, of the node and of its nearest ancestors, reaching
   * up to an id segment or to the child of body; it fails only when the climb
   * does, and under body only by the escaper's InvalidCharacterError.
   */
  lemma {:induction false} TargetFound(doc: Document, ids: map<Key, string>, query: Query, nid: string, coarse: string, i: nat, fixed: bool)
    requires WellFormed(doc) && QueryResolves(doc, query)
    requires FindLastWithId(doc, ids, query(coarse), nid, |query(coarse)|) == Some(i)
    ensures i < |query(coarse)| && ValidPath(doc, query(coarse)[i]) && HasId(doc, ids, query(coarse)[i], nid)
    ensures var p := query(coarse)[i];
            var r := CosmeticFilterFromTarget(doc, ids, query, nid, coarse, fixed);
            (r.Failure? <==> Climb(doc, p, fixed).Failure?) &&
            (r.Success? ==> exists segs :: SegmentsOf(doc, p, segs, fixed) && Shaped(p, Body(doc), segs) &&
                                           r.value == Anchor(query, Join(segs, " > "))) &&
            (r.Failure? && |p| >= 2 && p[..2] == Body(doc) ==> r.error == InvalidCharacterError)
  {
    var p := query(coarse)[i];
    var climb := Climb(doc, p, fixed);
    if climb.Success? {
      ClimbShape(doc, p, fixed);
      ClimbSegments(doc, p, fixed);
      var segs := climb.value;
      assert SegmentsOf(doc, p, segs, fixed) && Shaped(p, Body(doc), segs);
    } else if |p| >= 2 && p[..2] == Body(doc) {
      ClimbUnderBody(doc, p, fixed);
    }
  }

  /** The anchored join of the segments ends with the last segment. */
  lemma {:induction false} AnchorKeepsLast(query: Query, segs: seq<string>)
    requires segs != []
    ensures EndsWith(Anchor(query, Join(segs, " > ")), segs[|segs| - 1])
  {
    JoinEndsWith(segs, " > ");
    EndsWithTrans(Anchor(query, Join(segs, " > ")), Join(segs, " > "), segs[|segs| - 1]);
  }

  /** One filter per entry, the last entry's first; the lot fails exactly when one entry fails. */
  lemma {:induction false} EntriesSpec(doc: Document, ids: map<Key, string>, query: Query, entries: seq<Entry>, fixed: bool)
    requires WellFormed(doc) && QueryResolves(doc, query)
    ensures var r := CosmeticFilterFromEntries(doc, ids, query, entries, fixed);
            r.Failure? <==> exists j :: 0 <= j < |entries| && CosmeticFilterFromTarget(doc, ids, query, entries[j].nid, entries[j].selector, fixed).Failure?
    ensures var r := CosmeticFilterFromEntries(doc, ids, query, entries, fixed);
            r.Success? ==>
              |r.value| == |entries| &&
              forall j :: 0 <= j < |entries| ==>
                CosmeticFilterFromTarget(doc, ids, query, entries[|entries| - 1 - j].nid, entries[|entries| - 1 - j].selector, fixed) == Success(r.value[j])
  {
    EntriesFail(doc, ids, query, entries, fixed);
    EntriesValues(doc, ids, query, entries, fixed);
  }

  lemma {:induction false} EntriesFail(doc: Document, ids: map<Key, string>, query: Query, entries: seq<Entry>, fixed: bool)
    requires WellFormed(doc) && QueryResolves(doc, query)
    ensures CosmeticFilterFromEntries(doc, ids, query, entries, fixed).Failure? <==>
              exists j :: 0 <= j < |entries| && CosmeticFilterFromTarget(doc, ids, query, entries[j].nid, entries[j].selector, fixed).Failure?
  {
    var rs := Targets(doc, ids, query, entries, fixed);
    CollectLastFirstSpec(rs);
    if exists j :: 0 <= j < |entries| && CosmeticFilterFromTarget(doc, ids, query, entries[j].nid, entries[j].selector, fixed).Failure? {
      var j :| 0 <= j < |entries| && CosmeticFilterFromTarget(doc, ids, query, entries[j].nid, entries[j].selector, fixed).Failure?;
      assert rs[j].Failure?;
    }
  }

  lemma {:induction false} EntriesValues(doc: Document, ids: map<Key, string>, query: Query, entries: seq<Entry>, fixed: bool)
    requires WellFormed(doc) && QueryResolves(doc, query)
    ensures var r := CosmeticFilterFromEntries(doc, ids, query, entries, fixed);
            r.Success? ==>
              |r.value| == |entries| &&
              forall j :: 0 <= j < |entries| ==>
                CosmeticFilterFromTarget(doc, ids, query, entries[|entries| - 1 - j].nid, entries[|entries| - 1 - j].selector, fixed) == Success(r.value[j])
  {
    var rs := Targets(doc, ids, query, entries, fixed);
    CollectLastFirstSpec(rs);
    var r := CollectLastFirst(rs);
    if r.Success? {
      forall j | 0 <= j < |entries|
        ensures CosmeticFilterFromTarget(doc, ids, query, entries[|entries| - 1 - j].nid, entries[|entries| - 1 - j].selector, fixed) == Success(r.value[j])
      {
        assert rs[|rs| - 1 - j] == Success(r.value[j]);
      }
    }
  }

  // ---- The source's segment, as written -------------------------------------

  /** As written, an anchor whose href carries a query fails its own segment: '=' compares the stripped href with the whole. */
  lemma {:induction false} AsWrittenHrefMissesAnchor(cs: seq<Elem>, i: nat, nth: Option<nat>)
    requires i < |cs| && cs[i].tag == "a" && "href" in cs[i].attrs
    requires StripQuery(cs[i].attrs["href"]) != [] && StripQuery(cs[i].attrs["href"]) != cs[i].attrs["href"]
    ensures !CompoundMatches(cs, i, FineCompound(cs[i], false, nth))
  {
    var e := cs[i];
    var c := FineCompound(e, false, nth);
    var k := |SuffixSimples(e)|;
    assert c.simples[k] == AttrSel("href", Equals, StripQuery(e.attrs["href"]));
  }

  /** ... so the segment cosmeticFilterFromNode returns for such an anchor does not select it. */
  lemma {:induction false} AsWrittenSegmentMissesAnchor(doc: Document, p: Path)
    requires WellFormed(doc) && ValidPath(doc, p) && |p| >= 2
    requires FineReadable(At(doc, p), false)
    requires At(doc, p).tag == "a" && "href" in At(doc, p).attrs
    requires StripQuery(At(doc, p).attrs["href"]) != [] && StripQuery(At(doc, p).attrs["href"]) != At(doc, p).attrs["href"]
    ensures CosmeticFilterFromNode(doc, p, false).Success?
    ensures Last(p) !in MatchingChildren(ScopeChildren(doc, p), CosmeticFilterFromNode(doc, p, false).value)
  {
    ScopeOf(doc, p);
    AsWrittenAmongMissesAnchor(ScopeChildren(doc, p), Last(p), NthIndex(doc, p));
  }

  lemma {:induction false} AsWrittenAmongMissesAnchor(cs: seq<Elem>, i: nat, k: nat)
    requires i < |cs| && FineReadable(cs[i], false)
    requires cs[i].tag == "a" && "href" in cs[i].attrs
    requires StripQuery(cs[i].attrs["href"]) != [] && StripQuery(cs[i].attrs["href"]) != cs[i].attrs["href"]
    ensures var seg := SegmentAmong(cs, cs[i], k, false);
            seg.Success? && i !in MatchingChildren(cs, seg.value)
  {
    var e := cs[i];
    SegmentReadsBack(e, false, None);
    SegmentReadsBack(e, false, Some(k));
    AsWrittenHrefMissesAnchor(cs, i, None);
    AsWrittenHrefMissesAnchor(cs, i, Some(k));
  }

  /** As written, :nth-of-type without a type selector can still match siblings of another tag. */
  lemma {:induction false} AsWrittenNthOfTypeAmbiguous(doc: Document, p: Path, j: nat)
    requires WellFormed(doc) && ValidPath(doc, p) && |p| >= 2
    requires FineReadable(At(doc, p), false)
    requires var cs := ScopeChildren(doc, p);
             var i := Last(p);
             i < |cs| && j < |cs| && j != i && cs[j].tag != cs[i].tag &&
             (cs[i].id != [] || cs[i].classes != []) &&
             CompoundMatches(cs, j, FineCompound(cs[i], false, None)) &&
             NthOfTypeIndex(cs, j) == NthOfTypeIndex(cs, i)
    ensures CosmeticFilterFromNode(doc, p, false).Success?
    ensures j in MatchingChildren(ScopeChildren(doc, p), CosmeticFilterFromNode(doc, p, false).value)
  {
    ScopeOf(doc, p);
    AsWrittenAmongAmbiguous(ScopeChildren(doc, p), Last(p), j);
  }

  lemma {:induction false} AsWrittenAmongAmbiguous(cs: seq<Elem>, i: nat, j: nat)
    requires i < |cs| && j < |cs| && FineReadable(cs[i], false)
    requires CompoundMatches(cs, j, FineCompound(cs[i], false, None))
    requires NthOfTypeIndex(cs, j) == NthOfTypeIndex(cs, i)
    ensures var seg := SegmentAmong(cs, cs[i], NthOfTypeIndex(cs, i), false);
            seg.Success? && j in MatchingChildren(cs, seg.value)
  {
    AmbiguousBase(cs, i, j);
    AmbiguousNth(cs, i, j);
  }

  /** The as-written segment without :nth-of-type selects the child j. */
  lemma {:induction false} AmbiguousBase(cs: seq<Elem>, i: nat, j: nat)
    requires i < |cs| && j < |cs| && FineReadable(cs[i], false)
    requires CompoundMatches(cs, j, FineCompound(cs[i], false, None))
    ensures SegmentSuffix(cs[i]).Success?
    ensures j in MatchingChildren(cs, Render(cs[i], SegmentSuffix(cs[i]).value, false, None))
  {
    SegmentReadsBack(cs[i], false, None);
    MatchedChild(cs, j, Render(cs[i], SegmentSuffix(cs[i]).value, false, None), FineCompound(cs[i], false, None));
  }

  /** The as-written segment with the :nth-of-type index of child i also selects the child j. */
  lemma {:induction false} AmbiguousNth(cs: seq<Elem>, i: nat, j: nat)
    requires i < |cs| && j < |cs| && FineReadable(cs[i], false)
    requires CompoundMatches(cs, j, FineCompound(cs[i], false, None))
    requires NthOfTypeIndex(cs, j) == NthOfTypeIndex(cs, i)
    ensures SegmentSuffix(cs[i]).Success?
    ensures j in MatchingChildren(cs, Render(cs[i], SegmentSuffix(cs[i]).value, false, Some(NthOfTypeIndex(cs, i))))
  {
    var k := NthOfTypeIndex(cs, i);
    SegmentReadsBack(cs[i], false, Some(k));
    var c := FineCompound(cs[i], false, None);
    var cn := FineCompound(cs[i], false, Some(k));
    assert cn.simples == c.simples + [NthOfType(k)];
    AllMatchConcat(cs, j, c.simples, [NthOfType(k)]);
    MatchedChild(cs, j, Render(cs[i], SegmentSuffix(cs[i]).value, false, Some(k)), cn);
  }

  /** A child that a parsed selector's compound matches is among the children the selector matches. */
  lemma {:induction false} MatchedChild(cs: seq<Elem>, j: nat, sel: string, c: Compound)
    requires j < |cs| && ParseCompound(sel) == Some(c) && CompoundMatches(cs, j, c)
    ensures j in MatchingChildren(cs, sel)
  {
  }

  /** A node without an id, with class "a" and the given tag. */
  function ClassA(key: Key, tag: string): Elem {
    Elem(key, tag, "", ["a"], map[], [])
  }

  /** A body holding div.a, span.a, div.a, span.a. */
  const Mixed: Document :=
    Document([Elem(0, "html", "", [], map[], [
      Elem(1, "body", "", [], map[], [ClassA(2, "div"), ClassA(3, "span"), ClassA(4, "div"), ClassA(5, "span")])])], 0)

  /** The second div and the second span of Mixed are both second of their type. */
  lemma {:induction false} MixedCounts()
    ensures var cs := [ClassA(2, "div"), ClassA(3, "span"), ClassA(4, "div"), ClassA(5, "span")];
            NthOfTypeIndex(cs, 2) == 2 && NthOfTypeIndex(cs, 3) == 2
  {
    var cs := [ClassA(2, "div"), ClassA(3, "span"), ClassA(4, "div"), ClassA(5, "span")];
    var two := [ClassA(2, "div"), ClassA(3, "span")];
    assert cs[..2] == two && cs[..3] == two + [ClassA(4, "div")];
    assert two[..1] == [ClassA(2, "div")] && two[..1][..0] == [];
    assert (two + [ClassA(4, "div")])[..2] == two;
    assert CountTag(two, "div") == 1;
    assert CountTag(two[..1], "span") == 0 && CountTag(two, "span") == 1;
    assert CountTag(two + [ClassA(4, "div")], "span") == 1;
  }

  /**
   * The third child's segment, as written, is .a:nth-of-type(2), which the
   * fourth child (the second span) matches as well: the segment is ambiguous.
   */
  lemma {:induction false} NthOfTypeAmbiguityExample()
    ensures CosmeticFilterFromNode(Mixed, [0, 0, 2], false).Success?
    ensures 3 in MatchingChildren(ScopeChildren(Mixed, [0, 0, 2]), CosmeticFilterFromNode(Mixed, [0, 0, 2], false).value)
  {
    MixedThirdChild();
    MixedThirdCompound();
    MixedCounts();
    AsWrittenNthOfTypeAmbiguous(Mixed, [0, 0, 2], 3);
  }

  /** The node at [0, 0, 2] of Mixed is the second div, among the four children of body. */
  lemma {:induction false} MixedThirdChild()
    ensures WellFormed(Mixed) && ValidPath(Mixed, [0, 0, 2])
    ensures ScopeChildren(Mixed, [0, 0, 2]) == [ClassA(2, "div"), ClassA(3, "span"), ClassA(4, "div"), ClassA(5, "span")]
    ensures At(Mixed, [0, 0, 2]) == ClassA(4, "div")
  {
    assert ValidPath(Mixed, [0, 0, 2]);
  }

  /** As written, the second div's compound is .a alone, which the second span matches too. */
  lemma {:induction false} MixedThirdCompound()
    ensures FineReadable(ClassA(4, "div"), false)
    ensures FineCompound(ClassA(4, "div"), false, None) == Compound(None, [ClassSel("a")])
    ensures CompoundMatches([ClassA(2, "div"), ClassA(3, "span"), ClassA(4, "div"), ClassA(5, "span")], 3,
                            Compound(None, [ClassSel("a")]))
  {
    assert AllReadable(ClassA(4, "div").classes);
  }
}

/**
 * The page as the inspector sees it: element nodes only (text and comment
 * nodes never reach the walks, which follow firstElementChild and
 * nextElementSibling).  Every element the page still holds is in a forest:
 * roots[0] is the document element, any further root is a subtree that was
 * detached from the document but is still referenced (a node named by a
 * pending mutation record, say).  A node is addressed by its path: the index
 * of its root, then child indices.  firstElementChild, nextElementSibling,
 * previousElementSibling and parentElement become path arithmetic, and the
 * node's identity (what a WeakMap or Map is keyed by) is its key.
 */
module Dom {
  import opened Wrappers

  /** The identity of a node object. */
  type Key = nat

  /** An element: identity, localName, id, classList, attributes, element children. */
  datatype Elem = Elem(
    key: Key,
    tag: string,
    id: string,
    classes: seq<string>,
    attrs: map<string, string>,
    children: seq<Elem>)

  type Path = seq<nat>

  /** All live elements, and the index of document.body among the document element's children. */
  datatype Document = Document(roots: seq<Elem>, bodyIndex: nat)

  predicate WellFormed(doc: Document) {
    |doc.roots| > 0 && doc.bodyIndex < |doc.roots[0].children|
  }

  /** document.body. */
  function Body(doc: Document): Path {
    [0, doc.bodyIndex]
  }

  predicate ValidIn(e: Elem, q: Path)
    decreases |q|
  {
    q == [] || (q[0] < |e.children| && ValidIn(e.children[q[0]], q[1..]))
  }

  function AtIn(e: Elem, q: Path): Elem
    requires ValidIn(e, q)
    decreases |q|
  {
    if q == [] then e else AtIn(e.children[q[0]], q[1..])
  }

  predicate ValidPath(doc: Document, p: Path) {
    |p| >= 1 && p[0] < |doc.roots| && ValidIn(doc.roots[p[0]], p[1..])
  }

  /** The element at a path. */
  function At(doc: Document, p: Path): Elem
    requires ValidPath(doc, p)
  {
    AtIn(doc.roots[p[0]], p[1..])
  }

  function Parent(p: Path): Path
    requires |p| >= 2
  {
    p[..|p| - 1]
  }

  function Last(p: Path): nat
    requires |p| >= 1
  {
    p[|p| - 1]
  }

  /** Stepping into a child of a valid path. */
  lemma {:induction false} ChildIn(e: Elem, q: Path, i: nat)
    requires ValidIn(e, q) && i < |AtIn(e, q).children|
    ensures ValidIn(e, q + [i]) && AtIn(e, q + [i]) == AtIn(e, q).children[i]
    decreases |q|
  {
    if q != [] {
      assert (q + [i])[1..] == q[1..] + [i];
      ChildIn(e.children[q[0]], q[1..], i);
    }
  }

  /** The parent of a valid path is valid and holds it as a child. */
  lemma {:induction false} ParentIn(e: Elem, q: Path)
    requires ValidIn(e, q) && q != []
    ensures ValidIn(e, q[..|q| - 1])
    ensures q[|q| - 1] < |AtIn(e, q[..|q| - 1]).children|
    ensures AtIn(e, q) == AtIn(e, q[..|q| - 1]).children[q[|q| - 1]]
    decreases |q|
  {
    if |q| > 1 {
      ParentIn(e.children[q[0]], q[1..]);
      assert q[1..][..|q[1..]| - 1] == q[..|q| - 1][1..];
    }
  }

  lemma {:induction false} ChildPath(doc: Document, p: Path, i: nat)
    requires ValidPath(doc, p) && i < |At(doc, p).children|
    ensures ValidPath(doc, p + [i]) && At(doc, p + [i]) == At(doc, p).children[i]
  {
    assert (p + [i])[1..] == p[1..] + [i];
    ChildIn(doc.roots[p[0]], p[1..], i);
  }

  lemma {:induction false} ParentPath(doc: Document, p: Path)
    requires ValidPath(doc, p) && |p| >= 2
    ensures ValidPath(doc, Parent(p))
    ensures Last(p) < |At(doc, Parent(p)).children|
    ensures At(doc, p) == At(doc, Parent(p)).children[Last(p)]
  {
    ParentIn(doc.roots[p[0]], p[1..]);
    assert p[1..][..|p[1..]| - 1] == Parent(p)[1..];
  }

  /** A path one step below a valid path is valid only for an index below the child count. */
  lemma {:induction false} ChildBound(doc: Document, p: Path, i: nat)
    requires ValidPath(doc, p)
    ensures ValidPath(doc, p + [i]) ==> i < |At(doc, p).children|
  {
    if ValidPath(doc, p + [i]) {
      ParentPath(doc, p + [i]);
      assert Parent(p + [i]) == p;
    }
  }

  /** node.firstElementChild: null exactly when the node has no element child. */
  function FirstChild(doc: Document, p: Path): (r: Option<Path>)
    requires ValidPath(doc, p)
    ensures r.Some? <==> |At(doc, p).children| > 0
    ensures r.Some? ==> ValidPath(doc, r.value) && r.value == p + [0] && At(doc, r.value) == At(doc, p).children[0]
  {
    if |At(doc, p).children| > 0 then ChildPath(doc, p, 0); Some(p + [0]) else None
  }

  /** node.nextElementSibling: null for a root and for the last child, the next index otherwise. */
  function NextSibling(doc: Document, p: Path): (r: Option<Path>)
    requires ValidPath(doc, p)
    ensures r.None? <==> |p| < 2 || !ValidPath(doc, Parent(p) + [Last(p) + 1])
    ensures r.Some? ==> |p| >= 2 && ValidPath(doc, r.value) && r.value == Parent(p) + [Last(p) + 1]
  {
    if |p| < 2 then None
    else
      ParentPath(doc, p);
      if Last(p) + 1 < |At(doc, Parent(p)).children| then
        ChildPath(doc, Parent(p), Last(p) + 1);
        Some(Parent(p) + [Last(p) + 1])
      else
        ChildBound(doc, Parent(p), Last(p) + 1);
        None
  }

  /** node.previousElementSibling: null exactly for a root and for a first child. */
  function PrevSibling(doc: Document, p: Path): (r: Option<Path>)
    requires ValidPath(doc, p)
    ensures r.None? <==> |p| < 2 || Last(p) == 0
    ensures r.Some? ==> |p| >= 2 && Last(p) >= 1 && ValidPath(doc, r.value) && r.value == Parent(p) + [Last(p) - 1]
  {
    if |p| >= 2 && Last(p) >= 1 then
      ParentPath(doc, p);
      ChildPath(doc, Parent(p), Last(p) - 1);
      Some(Parent(p) + [Last(p) - 1])
    else None
  }

  /** node.parentElement. */
  function ParentElement(doc: Document, p: Path): (r: Option<Path>)
    requires ValidPath(doc, p)
    ensures r.Some? <==> |p| >= 2
    ensures r.Some? ==> |p| >= 2 && ValidPath(doc, r.value) && r.value == Parent(p) &&
                        Last(p) < |At(doc, r.value).children| && At(doc, r.value).children[Last(p)] == At(doc, p)
  {
    if |p| >= 2 then ParentPath(doc, p); Some(Parent(p)) else None
  }

  // ---- Document order -------------------------------------------------------

  /** The element e placed at path p and its descendants, in document (pre-)order. */
  function SubtreeFrom(e: Elem, p: Path): seq<Path>
    decreases e, 1
  {
    [p] + KidsFrom(e.children, p, 0)
  }

  /** The subtrees of cs[i..], children of the node at p, in document order. */
  function KidsFrom(cs: seq<Elem>, p: Path, i: nat): seq<Path>
    decreases cs, |cs| - i
  {
    if i >= |cs| then [] else SubtreeFrom(cs[i], p + [i]) + KidsFrom(cs, p, i + 1)
  }

  /** The node at p and its descendants, in document order. */
  function Subtree(doc: Document, p: Path): seq<Path>
    requires ValidPath(doc, p)
  {
    SubtreeFrom(At(doc, p), p)
  }

  /**
   * What a walk visits after the subtree of p when its top level is depth
   * `top` (the walk never climbs above a node of that depth): the later
   * siblings' subtrees, then the same for the parent.
   */
  function After(doc: Document, p: Path, top: nat): seq<Path>
    requires ValidPath(doc, p) && 2 <= top <= |p|
    decreases |p|
  {
    ParentPath(doc, p);
    KidsFrom(At(doc, Parent(p)).children, Parent(p), Last(p) + 1) +
    (if |p| > top then After(doc, Parent(p), top) else [])
  }

  /** What a walk visits from p on: p's subtree, then what comes after it. */
  function Rest(doc: Document, p: Path, top: nat): seq<Path>
    requires ValidPath(doc, p) && 2 <= top <= |p|
  {
    Subtree(doc, p) + After(doc, p, top)
  }

  /** One step of a walk from p: into the first child if there is one, else past p's subtree. */
  lemma {:induction false} RestStep(doc: Document, p: Path, top: nat)
    requires ValidPath(doc, p) && 2 <= top <= |p|
    ensures FirstChild(doc, p).Some? ==> Rest(doc, p, top) == [p] + Rest(doc, p + [0], top)
    ensures FirstChild(doc, p).None? ==> Rest(doc, p, top) == [p] + After(doc, p, top)
  {
    var e := At(doc, p);
    if |e.children| > 0 {
      ChildPath(doc, p, 0);
      var c := p + [0];
      assert Parent(c) == p && Last(c) == 0;
      calc {
        Rest(doc, p, top);
        [p] + KidsFrom(e.children, p, 0) + After(doc, p, top);
        [p] + (SubtreeFrom(e.children[0], c) + KidsFrom(e.children, p, 1)) + After(doc, p, top);
        [p] + (Subtree(doc, c) + (KidsFrom(e.children, p, 1) + After(doc, p, top)));
        [p] + (Subtree(doc, c) + After(doc, c, top));
      }
    } else {
      assert KidsFrom(e.children, p, 0) == [];
    }
  }

  /** Past a subtree: on to the next sibling if there is one, else past the parent's subtree. */
  lemma {:induction false} AfterStep(doc: Document, p: Path, top: nat)
    requires ValidPath(doc, p) && 2 <= top <= |p|
    ensures NextSibling(doc, p).Some? ==> After(doc, p, top) == Rest(doc, NextSibling(doc, p).value, top)
    ensures NextSibling(doc, p).None? && |p| == top ==> After(doc, p, top) == []
    ensures NextSibling(doc, p).None? && |p| > top ==>
      ValidPath(doc, Parent(p)) && After(doc, p, top) == After(doc, Parent(p), top)
  {
    ParentPath(doc, p);
    if Last(p) + 1 < |At(doc, Parent(p)).children| {
      AfterSibling(doc, p, top);
    } else {
      assert KidsFrom(At(doc, Parent(p)).children, Parent(p), Last(p) + 1) == [];
    }
  }

  lemma {:induction false} AfterSibling(doc: Document, p: Path, top: nat)
    requires ValidPath(doc, p) && 2 <= top <= |p|
    requires ValidPath(doc, Parent(p)) && Last(p) + 1 < |At(doc, Parent(p)).children|
    ensures ValidPath(doc, Parent(p) + [Last(p) + 1])
    ensures After(doc, p, top) == Rest(doc, Parent(p) + [Last(p) + 1], top)
  {
    var q := Parent(p);
    var cs := At(doc, q).children;
    var n := q + [Last(p) + 1];
    ChildPath(doc, q, Last(p) + 1);
    assert Parent(n) == q && Last(n) == Last(p) + 1;
    var up := if |p| > top then After(doc, q, top) else [];
    var later := KidsFrom(cs, q, Last(p) + 2);
    assert After(doc, n, top) == later + up;
    assert After(doc, p, top) == (Subtree(doc, n) + later) + up;
    Associative(Subtree(doc, n), later, up);
  }

  /**
   * Where a walk that never climbs above depth `top` goes once p's subtree is
   * done: p's next sibling, or that of its nearest ancestor that has one.
   */
  function NextUp(doc: Document, p: Path, top: nat): (r: Option<Path>)
    requires ValidPath(doc, p) && 2 <= top <= |p|
    ensures r.Some? ==> ValidPath(doc, r.value) && top <= |r.value| <= |p|
    decreases |p|
  {
    match NextSibling(doc, p)
    case Some(s) => Some(s)
    case None => if |p| > top then ParentPath(doc, p); NextUp(doc, Parent(p), top) else None
  }

  /** What the walk visits past p's subtree is what it visits from where it climbs to. */
  lemma {:induction false} NextUpSpec(doc: Document, p: Path, top: nat)
    requires ValidPath(doc, p) && 2 <= top <= |p|
    ensures var r := NextUp(doc, p, top);
            After(doc, p, top) == if r.Some? then Rest(doc, r.value, top) else []
    decreases |p|
  {
    AfterStep(doc, p, top);
    if NextSibling(doc, p).None? && |p| > top {
      NextUpSpec(doc, Parent(p), top);
    }
  }

  /** Where a walk that never climbs above depth `top` goes after p: into p's first child, or past p's subtree. */
  function WalkNext(doc: Document, p: Path, top: nat): (r: Option<Path>)
    requires ValidPath(doc, p) && 2 <= top <= |p|
    ensures r.Some? ==> ValidPath(doc, r.value) && top <= |r.value|
  {
    if FirstChild(doc, p).Some? then FirstChild(doc, p) else NextUp(doc, p, top)
  }

  /** The walk from p is p, then the walk from where it goes next. */
  lemma {:induction false} WalkNextSpec(doc: Document, p: Path, top: nat)
    requires ValidPath(doc, p) && 2 <= top <= |p|
    ensures var n := WalkNext(doc, p, top);
            Rest(doc, p, top) == [p] + (if n.Some? then Rest(doc, n.value, top) else [])
  {
    RestStep(doc, p, top);
    NextUpSpec(doc, p, top);
  }

  /** A walk that never climbs above depth `top` stays below the ancestor at depth top - 1 it started under. */
  lemma {:induction false} NextUpBelow(doc: Document, p: Path, top: nat)
    requires ValidPath(doc, p) && 2 <= top <= |p|
    ensures NextUp(doc, p, top).Some? ==> NextUp(doc, p, top).value[..top - 1] == p[..top - 1]
    decreases |p|
  {
    var s := NextSibling(doc, p);
    if s.Some? {
      assert s.value[..top - 1] == Parent(p)[..top - 1] == p[..top - 1];
    } else if |p| > top {
      ParentPath(doc, p);
      NextUpBelow(doc, Parent(p), top);
      assert Parent(p)[..top - 1] == p[..top - 1];
    }
  }

  lemma {:induction false} WalkNextBelow(doc: Document, p: Path, top: nat)
    requires ValidPath(doc, p) && 2 <= top <= |p|
    ensures WalkNext(doc, p, top).Some? ==> WalkNext(doc, p, top).value[..top - 1] == p[..top - 1]
  {
    if FirstChild(doc, p).Some? {
      assert (p + [0])[..top - 1] == p[..top - 1];
    } else {
      NextUpBelow(doc, p, top);
    }
  }

  lemma {:induction false} Associative<T>(a: seq<T>, b: seq<T>, c: seq<T>)
    ensures (a + b) + c == a + (b + c)
  {
  }

  // ---- Which paths a walk visits ----------------------------------------------

  /** Every path of the list names an element. */
  predicate AllValid(doc: Document, ws: seq<Path>) {
    forall x :: x in ws ==> ValidPath(doc, x)
  }

  /** Every path of a subtree extends the subtree's own path and leads to a descendant. */
  lemma {:induction false} SubtreeShape(e: Elem, p: Path)
    ensures forall x :: x in SubtreeFrom(e, p) ==> |x| >= |p| && x[..|p|] == p && ValidIn(e, x[|p|..])
    decreases e, 1
  {
    KidsShape(e.children, p, 0);
    forall x | x in SubtreeFrom(e, p)
      ensures |x| >= |p| && x[..|p|] == p && ValidIn(e, x[|p|..])
    {
      if x == p {
        assert x[|p|..] == [];
      } else {
        assert x in KidsFrom(e.children, p, 0);
        assert x[|p|..][1..] == x[|p| + 1..];
      }
    }
  }

  /** Every path of the subtrees of cs[i..] goes through one of them. */
  lemma {:induction false} KidsShape(cs: seq<Elem>, p: Path, i: nat)
    ensures forall x :: x in KidsFrom(cs, p, i) ==>
              |x| > |p| && x[..|p|] == p && x[|p|] < |cs| && ValidIn(cs[x[|p|]], x[|p| + 1..])
    decreases cs, |cs| - i
  {
    if i < |cs| {
      SubtreeShape(cs[i], p + [i]);
      KidsShape(cs, p, i + 1);
      forall x | x in SubtreeFrom(cs[i], p + [i])
        ensures |x| > |p| && x[..|p|] == p && x[|p|] < |cs| && ValidIn(cs[x[|p|]], x[|p| + 1..])
      {
        assert x[..|p| + 1] == p + [i];
        assert x[..|p|] == (p + [i])[..|p|];
        assert x[|p|] == (p + [i])[|p|];
      }
    }
  }

  lemma {:induction false} ValidInConcat(e: Elem, q: Path, y: Path)
    requires ValidIn(e, q) && ValidIn(AtIn(e, q), y)
    ensures ValidIn(e, q + y)
    decreases |q|
  {
    if q != [] {
      assert (q + y)[1..] == q[1..] + y;
      ValidInConcat(e.children[q[0]], q[1..], y);
    } else {
      assert q + y == y;
    }
  }

  /** The subtrees of the children of q from the i-th on hold elements of the document below q. */
  lemma {:induction false} KidsValid(doc: Document, q: Path, i: nat)
    requires ValidPath(doc, q)
    ensures forall x :: x in KidsFrom(At(doc, q).children, q, i) ==> ValidPath(doc, x) && |x| > |q| && x[..|q|] == q
  {
    KidsShape(At(doc, q).children, q, i);
    forall x | x in KidsFrom(At(doc, q).children, q, i)
      ensures ValidPath(doc, x)
    {
      assert x[|q|..][1..] == x[|q| + 1..];
      ValidInConcat(doc.roots[q[0]], q[1..], x[|q|..]);
      assert q[1..] + x[|q|..] == x[1..];
    }
  }

  /** A subtree holds elements of the document below its root. */
  lemma {:induction false} SubtreeValid(doc: Document, p: Path)
    requires ValidPath(doc, p)
    ensures AllValid(doc, Subtree(doc, p))
    ensures forall x :: x in Subtree(doc, p) ==> |x| >= |p| && x[..|p|] == p
  {
    KidsValid(doc, p, 0);
  }

  /** What a walk visits past a subtree is made of elements of the document no higher than `top`. */
  lemma {:induction false} AfterValid(doc: Document, p: Path, top: nat)
    requires ValidPath(doc, p) && 2 <= top <= |p|
    ensures AllValid(doc, After(doc, p, top))
    ensures forall x :: x in After(doc, p, top) ==> |x| >= top
    decreases |p|
  {
    ParentPath(doc, p);
    KidsValid(doc, Parent(p), Last(p) + 1);
    if |p| > top {
      AfterValid(doc, Parent(p), top);
    }
  }

  lemma {:induction false} RestValid(doc: Document, p: Path, top: nat)
    requires ValidPath(doc, p) && 2 <= top <= |p|
    ensures AllValid(doc, Rest(doc, p, top))
    ensures forall x :: x in Rest(doc, p, top) ==> |x| >= top
  {
    SubtreeValid(doc, p);
    AfterValid(doc, p, top);
  }

  /** The descendants of p in document order: the walk from its first child that never climbs above p's children. */
  lemma {:induction false} DescendantsWalk(doc: Document, p: Path)
    requires ValidPath(doc, p)
    ensures FirstChild(doc, p).Some? ==> Subtree(doc, p) == [p] + Rest(doc, p + [0], |p| + 1)
    ensures FirstChild(doc, p).None? ==> Subtree(doc, p) == [p]
  {
    var cs := At(doc, p).children;
    if |cs| > 0 {
      ChildPath(doc, p, 0);
      var c := p + [0];
      assert Parent(c) == p && Last(c) == 0;
      assert After(doc, c, |p| + 1) == KidsFrom(cs, p, 1);
      assert KidsFrom(cs, p, 0) == Subtree(doc, c) + KidsFrom(cs, p, 1);
    } else {
      assert KidsFrom(cs, p, 0) == [];
    }
  }
}

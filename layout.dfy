/**
 * The data domLayout reports to the logger panel and the pure rules behind
 * it: node ids, what domNodeFactory makes of one element, the walk that folds
 * the factory over a list of elements, the descendant count that
 * patchLayoutData fills in, the previous-sibling lookup of the journal, and
 * the orders in which the journal visits added and removed nodes.  The
 * methods of DomInspector.DomLayout are proved against these functions.
 */
module Layout {
  import opened Wrappers
  import opened Dom
  import opened Selectors
  import Radix

  /** An entry of the layout or of the journal's node table: DomRoot and DomNode.  lvl is None for a journal node. */
  datatype DomNode = DomNode(nid: string, lvl: Option<nat>, sel: string, cnt: nat, filter: Option<string>)

  /** What is fixed for a page load: vAPI.sessionId and nodeToCosmeticFilterMap. */
  datatype Env = Env(session: string, filters: map<Key, string>)

  function Lookup<K, V>(m: map<K, V>, k: K): (r: Option<V>)
    ensures r.Some? <==> k in m
    ensures r.Some? ==> r.value == m[k]
  {
    if k in m then Some(m[k]) else None
  }

  // ---- Node ids ---------------------------------------------------------------

  /** The node id made from the n-th value of idGenerator: 'n' then n in base 36. */
  function Nid(n: nat): (r: string)
    ensures |r| >= 2 && r[0] == 'n'
  {
    "n" + Radix.ToRadix(n, 36)
  }

  /** The number a node id was made from. */
  function NidValue(s: string): nat {
    if s == [] then 0 else Radix.FromRadix(s[1..], 36)
  }

  /** A node id gives back the counter value it was made from. */
  lemma {:induction false} NidReadsBack(n: nat)
    ensures NidValue(Nid(n)) == n
  {
    assert Nid(n)[1..] == Radix.ToRadix(n, 36);
    Radix.FromToRadix(n, 36);
  }

  /** Two counter values never give the same node id. */
  lemma {:induction false} NidInjective(n: nat, m: nat)
    requires n != m
    ensures Nid(n) != Nid(m)
  {
    NidReadsBack(n);
    NidReadsBack(m);
  }

  /** The node ids handed out while the counter was below n. */
  function Issued(n: nat): set<string> {
    set k: nat | k < n :: Nid(k)
  }

  /** The id made from the counter is not one handed out before. */
  lemma {:induction false} NidFresh(n: nat)
    ensures Nid(n) !in Issued(n)
    ensures Issued(n + 1) == Issued(n) + {Nid(n)}
  {
    forall k: nat | k < n
      ensures Nid(k) != Nid(n)
    {
      NidInjective(k, n);
    }
  }

  /** idGenerator and nodeToIdMap. */
  datatype Ids = Ids(counter: nat, nodeIds: map<Key, string>)

  /** Every id nodeToIdMap holds was handed out by the counter. */
  predicate IdsIssued(ids: Ids) {
    forall k :: k in ids.nodeIds ==> ids.nodeIds[k] in Issued(ids.counter)
  }

  /** newNodeId: the counter's id, bound to the node. */
  function Mint(ids: Ids, key: Key): (string, Ids) {
    (Nid(ids.counter), Ids(ids.counter + 1, ids.nodeIds[key := Nid(ids.counter)]))
  }

  /** newNodeId hands out an id no node had, and keeps every id an issued one. */
  lemma {:induction false} MintFresh(ids: Ids, key: Key)
    requires IdsIssued(ids)
    ensures var (nid, next) := Mint(ids, key);
            (forall k :: k in ids.nodeIds ==> ids.nodeIds[k] != nid) &&
            IdsIssued(next) && next.nodeIds[key] == nid && next.counter == ids.counter + 1
  {
    NidFresh(ids.counter);
  }

  // ---- domNodeFactory ---------------------------------------------------------

  const SkipTagNames: set<string> := {"br", "link", "meta", "script", "style"}

  /** Nodes domNodeFactory gives null for: the tags above, and the inspector's own nodes. */
  predicate Skipped(e: Elem, session: string) {
    e.tag in SkipTagNames || session in e.classes
  }

  datatype Outcome = Skip | Built(node: DomNode) | Threw(error: SelectorError)

  /**
   * domNodeFactory(level, node): null for a skipped node; a DomRoot for
   * document.body at level 0 and a DomNode otherwise.  Both constructors call
   * newNodeId first, so a DomNode whose selector throws has already used up an
   * id.  level is None where the journal passes undefined.
   */
  function Factory(env: Env, doc: Document, ids: Ids, level: Option<nat>, p: Path): (r: (Outcome, Ids))
    requires WellFormed(doc) && ValidPath(doc, p)
    ensures r.0.Skip? <==> Skipped(At(doc, p), env.session)
    ensures r.0.Skip? ==> r.1 == ids
    ensures !r.0.Skip? ==> r.1.counter == ids.counter + 1 && (IdsIssued(ids) ==> IdsIssued(r.1))
    ensures !r.0.Skip? ==> r.1.nodeIds == ids.nodeIds[IdKey(doc, level, p) := Nid(ids.counter)]
    ensures r.0.Built? ==> r.0.node.nid == Nid(ids.counter) && r.0.node.cnt == 0 && r.0.node.lvl == level
    ensures r.0.Built? ==> r.0.node.filter == Lookup(env.filters, IdKey(doc, level, p))
    ensures r.0.Built? ==> if IsRootVisit(doc, level, p) then r.0.node.sel == "body"
                           else SelectorFromNode(At(doc, p)) == Success(r.0.node.sel)
    ensures r.0.Threw? <==> !Skipped(At(doc, p), env.session) && !IsRootVisit(doc, level, p) &&
                            SelectorFromNode(At(doc, p)).Failure?
  {
    var e := At(doc, p);
    if Skipped(e, env.session) then (Skip, ids)
    else if level == Some(0) && e.tag == "body" then
      var m := Mint(ids, At(doc, Body(doc)).key);
      (Built(RootNode(env, doc, ids.counter)), m.1)
    else
      var m := Mint(ids, e.key);
      match SelectorFromNode(e)
      case Failure(err) => (Threw(err), m.1)
      case Success(sel) => (Built(DomNode(m.0, level, sel, 0, Lookup(env.filters, e.key))), m.1)
  }

  /** The factory makes a DomRoot: level 0 and a body element. */
  predicate IsRootVisit(doc: Document, level: Option<nat>, p: Path)
    requires ValidPath(doc, p)
  {
    level == Some(0) && At(doc, p).tag == "body"
  }

  /** The node newNodeId binds the id to: document.body for a DomRoot, the element itself otherwise. */
  function IdKey(doc: Document, level: Option<nat>, p: Path): Key
    requires WellFormed(doc) && ValidPath(doc, p)
  {
    if IsRootVisit(doc, level, p) then At(doc, Body(doc)).key else At(doc, p).key
  }

  /** DomRoot: always document.body, whichever node the factory was given. */
  function RootNode(env: Env, doc: Document, counter: nat): (r: DomNode)
    requires WellFormed(doc)
    ensures r.lvl == Some(0) && r.sel == "body" && r.cnt == 0
  {
    DomNode(Nid(counter), Some(0), "body", 0, Lookup(env.filters, At(doc, Body(doc)).key))
  }

  // ---- Folding the factory over a walk -----------------------------------------

  /** An element the factory made a node for, with that node. */
  datatype Visit = Visit(path: Path, node: DomNode)

  /** The state of a walk: the ids, the nodes made so far, and the exception that ended it, if any. */
  datatype Pass = Pass(ids: Ids, made: seq<Visit>, error: Option<SelectorError>)

  /** The elements of the nodes made, in order. */
  function Paths(made: seq<Visit>): (r: seq<Path>)
    ensures |r| == |made|
    decreases |made|
  {
    if made == [] then [] else Paths(made[..|made| - 1]) + [made[|made| - 1].path]
  }

  /** The nodes made, in order. */
  function Nodes(made: seq<Visit>): (r: seq<DomNode>)
    ensures |r| == |made|
    decreases |made|
  {
    if made == [] then [] else Nodes(made[..|made| - 1]) + [made[|made| - 1].node]
  }

  lemma {:induction false} PathsAt(made: seq<Visit>)
    ensures forall i :: 0 <= i < |made| ==> Paths(made)[i] == made[i].path
    decreases |made|
  {
    if made != [] {
      PathsAt(made[..|made| - 1]);
    }
  }

  lemma {:induction false} NodesAt(made: seq<Visit>)
    ensures forall i :: 0 <= i < |made| ==> Nodes(made)[i] == made[i].node
    decreases |made|
  {
    if made != [] {
      NodesAt(made[..|made| - 1]);
    }
  }

  /** The level the walk passes for a node: its depth below document.html's children, or undefined in the journal. */
  function Level(p: Path, journal: bool): Option<nat> {
    if journal || |p| < 2 then None else Some(|p| - 2)
  }

  /** One node of a walk; after an exception nothing more happens. */
  function Step(env: Env, doc: Document, journal: bool, pass: Pass, p: Path): (r: Pass)
    requires WellFormed(doc) && ValidPath(doc, p)
  {
    if pass.error.Some? then pass
    else
      var f := Factory(env, doc, pass.ids, Level(p, journal), p);
      match f.0
      case Skip => Pass(f.1, pass.made, None)
      case Built(n) => Pass(f.1, pass.made + [Visit(p, n)], None)
      case Threw(err) => Pass(f.1, pass.made, Some(err))
  }

  /** The walk over ws, one Step per path, from pass. */
  function Continue(env: Env, doc: Document, journal: bool, pass: Pass, ws: seq<Path>): Pass
    requires WellFormed(doc) && AllValid(doc, ws)
    decreases |ws|
  {
    if ws == [] then pass
    else Step(env, doc, journal, Continue(env, doc, journal, pass, ws[..|ws| - 1]), ws[|ws| - 1])
  }

  /** A walk over a + b is the walk over a, continued over b. */
  lemma {:induction false} ContinueAppend(env: Env, doc: Document, journal: bool, pass: Pass, a: seq<Path>, b: seq<Path>)
    requires WellFormed(doc) && AllValid(doc, a) && AllValid(doc, b)
    ensures AllValid(doc, a + b)
    ensures Continue(env, doc, journal, pass, a + b) ==
            Continue(env, doc, journal, Continue(env, doc, journal, pass, a), b)
    decreases |b|
  {
    if b != [] {
      assert (a + b)[..|a + b| - 1] == a + b[..|b| - 1];
      assert (a + b)[|a + b| - 1] == b[|b| - 1];
      ContinueAppend(env, doc, journal, pass, a, b[..|b| - 1]);
    } else {
      assert a + b == a;
    }
  }

  /** After an exception the walk changes nothing more. */
  lemma {:induction false} ContinueStuck(env: Env, doc: Document, journal: bool, pass: Pass, ws: seq<Path>)
    requires WellFormed(doc) && AllValid(doc, ws) && pass.error.Some?
    ensures Continue(env, doc, journal, pass, ws) == pass
    decreases |ws|
  {
    if ws != [] {
      ContinueStuck(env, doc, journal, pass, ws[..|ws| - 1]);
    }
  }

  /** One step more: the pass over ws + [p]. */
  lemma {:induction false} ContinueStep(env: Env, doc: Document, journal: bool, pass: Pass, ws: seq<Path>, p: Path)
    requires WellFormed(doc) && AllValid(doc, ws) && ValidPath(doc, p)
    ensures AllValid(doc, ws + [p])
    ensures Continue(env, doc, journal, pass, ws + [p]) == Step(env, doc, journal, Continue(env, doc, journal, pass, ws), p)
  {
    assert (ws + [p])[..|ws|] == ws;
  }

  /**
   * The n-th node a walk makes carries the n-th id handed out from base; the
   * counter has moved once per node made, and once more for the node that threw.
   */
  predicate Numbered(pass: Pass, base: nat) {
    pass.ids.counter == base + |pass.made| + (if pass.error.Some? then 1 else 0) &&
    forall i :: 0 <= i < |pass.made| ==> pass.made[i].node.nid == Nid(base + i)
  }

  lemma {:induction false} ContinueNumbered(env: Env, doc: Document, journal: bool, pass: Pass, ws: seq<Path>, base: nat)
    requires WellFormed(doc) && AllValid(doc, ws) && Numbered(pass, base)
    ensures Numbered(Continue(env, doc, journal, pass, ws), base)
    decreases |ws|
  {
    if ws != [] {
      ContinueNumbered(env, doc, journal, pass, ws[..|ws| - 1], base);
      StepNumbered(env, doc, journal, Continue(env, doc, journal, pass, ws[..|ws| - 1]), ws[|ws| - 1], base);
    }
  }

  lemma {:induction false} StepNumbered(env: Env, doc: Document, journal: bool, pass: Pass, p: Path, base: nat)
    requires WellFormed(doc) && ValidPath(doc, p) && Numbered(pass, base)
    ensures Numbered(Step(env, doc, journal, pass, p), base)
  {
    if pass.error.None? {
      var f := Factory(env, doc, pass.ids, Level(p, journal), p);
      var r := Step(env, doc, journal, pass, p);
      match f.0
      case Skip =>
        assert r == Pass(pass.ids, pass.made, None);
      case Built(n) =>
        var made := pass.made + [Visit(p, n)];
        assert r == Pass(f.1, made, None);
        assert f.1.counter == pass.ids.counter + 1 && n.nid == Nid(pass.ids.counter);
        assert forall i :: 0 <= i < |pass.made| ==> made[i] == pass.made[i];
      case Threw(err) =>
        assert r == Pass(f.1, pass.made, Some(err));
        assert f.1.counter == pass.ids.counter + 1;
    }
  }

  /** The nodes a walk makes from a fresh start carry distinct ids that were not issued before it. */
  lemma {:induction false} WalkIdsFresh(env: Env, doc: Document, journal: bool, ids: Ids, ws: seq<Path>)
    requires WellFormed(doc) && AllValid(doc, ws)
    ensures var made := Continue(env, doc, journal, Pass(ids, [], None), ws).made;
            forall i, j :: 0 <= i < j < |made| ==>
              made[i].node.nid != made[j].node.nid && made[i].node.nid !in Issued(ids.counter)
  {
    ContinueNumbered(env, doc, journal, Pass(ids, [], None), ws, ids.counter);
    var made := Continue(env, doc, journal, Pass(ids, [], None), ws).made;
    forall i, j | 0 <= i < j < |made|
      ensures made[i].node.nid != made[j].node.nid && made[i].node.nid !in Issued(ids.counter)
    {
      NidInjective(ids.counter + i, ids.counter + j);
      forall k: nat | k < ids.counter
        ensures Nid(k) != made[i].node.nid
      {
        NidInjective(k, ids.counter + i);
      }
    }
  }

  /** A walk keeps every id in nodeToIdMap an issued one. */
  lemma {:induction false} ContinueIssued(env: Env, doc: Document, journal: bool, pass: Pass, ws: seq<Path>)
    requires WellFormed(doc) && AllValid(doc, ws) && IdsIssued(pass.ids)
    ensures IdsIssued(Continue(env, doc, journal, pass, ws).ids)
    decreases |ws|
  {
    if ws != [] {
      var before := Continue(env, doc, journal, pass, ws[..|ws| - 1]);
      ContinueIssued(env, doc, journal, pass, ws[..|ws| - 1]);
      if before.error.None? {
        NidFresh(before.ids.counter);
      }
    }
  }

  /** The journal's node table after the nodes of a walk are stored by their ids. */
  function WithNodes(nodes: map<string, DomNode>, made: seq<Visit>): map<string, DomNode>
    decreases |made|
  {
    if made == [] then nodes
    else
      var n := made[|made| - 1].node;
      WithNodes(nodes, made[..|made| - 1])[n.nid := n]
  }

  /** Every node the table holds is stored under its own id, and holds the nodes of the walk. */
  lemma {:induction false} WithNodesKeyed(nodes: map<string, DomNode>, made: seq<Visit>)
    requires forall nid :: nid in nodes ==> nodes[nid].nid == nid
    ensures var m := WithNodes(nodes, made);
            (forall nid :: nid in m ==> m[nid].nid == nid) &&
            (forall i :: 0 <= i < |made| ==> made[i].node.nid in m) &&
            m.Keys == nodes.Keys + NidsOf(made)
    decreases |made|
  {
    if made != [] {
      WithNodesKeyed(nodes, made[..|made| - 1]);
      var m := WithNodes(nodes, made);
      forall i | 0 <= i < |made|
        ensures made[i].node.nid in m
      {
        if i < |made| - 1 {
          assert made[..|made| - 1][i] == made[i];
        }
      }
      assert made == made[..|made| - 1] + [made[|made| - 1]];
    }
  }

  function NidsOf(made: seq<Visit>): set<string> {
    set v | v in made :: v.node.nid
  }

  /** A walk that starts with nodes already made goes as the same walk from none, after them. */
  lemma {:induction false} ContinueFrom(env: Env, doc: Document, journal: bool, ids: Ids, made: seq<Visit>, ws: seq<Path>)
    requires WellFormed(doc) && AllValid(doc, ws)
    ensures var q := Continue(env, doc, journal, Pass(ids, [], None), ws);
            Continue(env, doc, journal, Pass(ids, made, None), ws) == Pass(q.ids, made + q.made, q.error)
    decreases |ws|
  {
    if ws != [] {
      var p := ws[|ws| - 1];
      ContinueFrom(env, doc, journal, ids, made, ws[..|ws| - 1]);
      var q := Continue(env, doc, journal, Pass(ids, [], None), ws[..|ws| - 1]);
      if q.error.None? {
        var f := Factory(env, doc, q.ids, Level(p, journal), p);
        if f.0.Built? {
          Associative(made, q.made, [Visit(p, f.0.node)]);
        }
      }
    }
  }

  /** Storing the nodes of a + b is storing those of a, then those of b. */
  lemma {:induction false} WithNodesAppend(nodes: map<string, DomNode>, a: seq<Visit>, b: seq<Visit>)
    ensures WithNodes(nodes, a + b) == WithNodes(WithNodes(nodes, a), b)
    decreases |b|
  {
    if b == [] {
      assert a + b == a;
    } else {
      assert (a + b)[..|a + b| - 1] == a + b[..|b| - 1];
      assert (a + b)[|a + b| - 1] == b[|b| - 1];
      WithNodesAppend(nodes, a, b[..|b| - 1]);
    }
  }

  lemma {:induction false} PathsAppend(a: seq<Visit>, b: seq<Visit>)
    ensures Paths(a + b) == Paths(a) + Paths(b)
    decreases |b|
  {
    if b == [] {
      assert a + b == a;
    } else {
      assert (a + b)[..|a + b| - 1] == a + b[..|b| - 1];
      PathsAppend(a, b[..|b| - 1]);
    }
  }

  /** The walk of getLayoutData: document.body's subtree, then the subtrees of body's later siblings. */
  function LayoutWalk(doc: Document): (w: seq<Path>)
    requires WellFormed(doc)
    ensures AllValid(doc, w)
  {
    RestValid(doc, Body(doc), 2);
    Rest(doc, Body(doc), 2)
  }

  /** The factory folded over the walk of getLayoutData, from the given ids. */
  function LayoutPass(env: Env, doc: Document, ids: Ids): Pass
    requires WellFormed(doc)
  {
    Continue(env, doc, false, Pass(ids, [], None), LayoutWalk(doc))
  }

  /** The elements of ws the factory does not skip, in order. */
  function Unskipped(doc: Document, session: string, ws: seq<Path>): seq<Path>
    requires AllValid(doc, ws)
    decreases |ws|
  {
    if ws == [] then []
    else
      var p := ws[|ws| - 1];
      Unskipped(doc, session, ws[..|ws| - 1]) + (if Skipped(At(doc, p), session) then [] else [p])
  }

  /**
   * A walk that ends without an exception makes a node for exactly the
   * elements it does not skip, in the order it visits them: a skipped element
   * is left out, and the walk still goes on to what follows it.
   */
  lemma {:induction false} WalkKeepsUnskipped(env: Env, doc: Document, journal: bool, ids: Ids, ws: seq<Path>)
    requires WellFormed(doc) && AllValid(doc, ws)
    requires Continue(env, doc, journal, Pass(ids, [], None), ws).error.None?
    ensures Paths(Continue(env, doc, journal, Pass(ids, [], None), ws).made) == Unskipped(doc, env.session, ws)
    decreases |ws|
  {
    if ws != [] {
      WalkKeepsUnskipped(env, doc, journal, ids, ws[..|ws| - 1]);
    }
  }

  /**
   * Each node of a layout walk carries the level of its element (its depth
   * below document.html's children) and a count of 0.
   */
  predicate LeveledVisits(made: seq<Visit>) {
    forall i :: 0 <= i < |made| ==>
      |made[i].path| >= 2 && made[i].node.lvl == Some(|made[i].path| - 2) && made[i].node.cnt == 0
  }

  /** The first node made is at depth 0, and each later one at most one level deeper than the one before it. */
  predicate Stepwise(made: seq<Visit>) {
    (made != [] ==> |made[0].path| == 2) &&
    forall i :: 0 <= i < |made| - 1 ==> |made[i + 1].path| <= |made[i].path| + 1
  }

  /** The walk is at a node that is at most one level deeper than the last node made, if it is below depth 0. */
  predicate Reaches(made: seq<Visit>, node: Path) {
    |node| > 2 ==> made != [] && |node| <= |made[|made| - 1].path| + 1
  }

  /**
   * Keeping what the factory made of a node keeps the layout leveled and, when
   * skipped nodes are leaves, stepwise: a node the walk goes down from was not
   * skipped, so it is the last node made when the walk reaches its first child.
   */
  lemma {:induction false} KeptStepwise(doc: Document, session: string, made: seq<Visit>, node: Path, o: Outcome)
    requires ValidPath(doc, node) && |node| >= 2 && LeveledVisits(made) && !o.Threw?
    requires o.Skip? <==> Skipped(At(doc, node), session)
    requires o.Built? ==> o.node.lvl == Some(|node| - 2) && o.node.cnt == 0
    requires SkippedAreLeaves(doc, session) ==> Stepwise(made) && Reaches(made, node)
    ensures LeveledVisits(made + Kept(node, o))
    ensures SkippedAreLeaves(doc, session) ==>
              Stepwise(made + Kept(node, o)) &&
              (FirstChild(doc, node).Some? ==> Reaches(made + Kept(node, o), node + [0])) &&
              (forall q :: |q| <= |node| ==> Reaches(made + Kept(node, o), q))
  {
    var m := made + Kept(node, o);
    if o.Skip? {
      assert m == made;
    } else {
      assert m[|m| - 1] == Visit(node, o.node);
      assert forall i :: 0 <= i < |made| ==> m[i] == made[i];
    }
  }

  /** The nodes of such a walk all have a level and a count of 0. */
  lemma {:induction false} LeveledNodes(made: seq<Visit>)
    requires LeveledVisits(made)
    ensures Leveled(Nodes(made)) && forall i :: 0 <= i < |made| ==> Nodes(made)[i].cnt == 0
  {
    NodesAt(made);
  }

  /** Such nodes form a layout patchLayoutData can count: levels from 0, never more than one deeper. */
  lemma {:induction false} StepwiseGraded(made: seq<Visit>)
    requires LeveledVisits(made) && Stepwise(made)
    ensures Leveled(Nodes(made))
    ensures var lv := Levels(Nodes(made)); Graded(lv) && (made != [] ==> lv[0] == 0)
  {
    NodesAt(made);
    assert Leveled(Nodes(made));
    var lv := Levels(Nodes(made));
    forall i | 0 <= i < |lv| - 1
      ensures lv[i + 1] <= lv[i] + 1
    {
      assert lv[i] == |made[i].path| - 2 && lv[i + 1] == |made[i + 1].path| - 2;
    }
  }

  /** What the walk keeps of one node: the node the factory made, if it made one. */
  function Kept(p: Path, o: Outcome): seq<Visit> {
    if o.Built? then [Visit(p, o.node)] else []
  }

  /**
   * One node of the walk of getLayoutData: the factory's outcome extends the
   * pass, or ends the whole walk when it throws; the walk then goes on into
   * the first child, or past the node's subtree.
   */
  lemma {:induction false} LayoutVisit(env: Env, doc: Document, start: Ids, done: seq<Path>, made: seq<Visit>,
                                        node: Path, ids: Ids, o: Outcome, next: Ids)
    requires WellFormed(doc) && ValidPath(doc, node) && |node| >= 2 && AllValid(doc, done)
    requires done + Rest(doc, node, 2) == LayoutWalk(doc)
    requires Continue(env, doc, false, Pass(start, [], None), done) == Pass(ids, made, None)
    requires (o, next) == Factory(env, doc, ids, Some(|node| - 2), node)
    ensures AllValid(doc, done + [node])
    ensures o.Threw? ==> LayoutPass(env, doc, start) == Pass(next, made, Some(o.error))
    ensures !o.Threw? ==> Continue(env, doc, false, Pass(start, [], None), done + [node]) ==
                          Pass(next, made + Kept(node, o), None)
    ensures FirstChild(doc, node).Some? ==> done + [node] + Rest(doc, node + [0], 2) == LayoutWalk(doc)
    ensures FirstChild(doc, node).None? ==> done + [node] + After(doc, node, 2) == LayoutWalk(doc)
  {
    RestStep(doc, node, 2);
    ContinueStep(env, doc, false, Pass(start, [], None), done, node);
    var rest := if FirstChild(doc, node).Some? then Rest(doc, node + [0], 2) else After(doc, node, 2);
    Associative(done, [node], rest);
    if o.Threw? {
      RestValid(doc, node, 2);
      ContinueAppend(env, doc, false, Pass(start, [], None), done + [node], rest);
      ContinueStuck(env, doc, false, Pass(next, made, Some(o.error)), rest);
    } else if o.Skip? {
      assert made + Kept(node, o) == made;
    }
  }

  /** getLayoutData after the walk has passed `done`: the ids it stands at and the layout it has collected. */
  predicate Progress(env: Env, doc: Document, start: Ids, done: seq<Path>, ids: Ids, layout: seq<DomNode>)
    requires WellFormed(doc)
  {
    AllValid(doc, done) &&
    var pass := Continue(env, doc, false, Pass(start, [], None), done);
    pass.ids == ids && pass.error.None? && Nodes(pass.made) == layout
  }

  /** One node of getLayoutData's walk, as the method sees it: the factory's outcome and where the walk goes next. */
  lemma {:induction false} LayoutProgress(env: Env, doc: Document, start: Ids, done: seq<Path>, layout: seq<DomNode>,
                                           node: Path, ids: Ids, o: Outcome, next: Ids)
    requires WellFormed(doc) && ValidPath(doc, node) && |node| >= 2
    requires done + Rest(doc, node, 2) == LayoutWalk(doc)
    requires Progress(env, doc, start, done, ids, layout)
    requires (o, next) == Factory(env, doc, ids, Some(|node| - 2), node)
    ensures o.Threw? ==> LayoutPass(env, doc, start).ids == next && LayoutPass(env, doc, start).error == Some(o.error)
    ensures !o.Threw? ==> Progress(env, doc, start, done + [node], next, layout + (if o.Built? then [o.node] else []))
    ensures FirstChild(doc, node).Some? ==> done + [node] + Rest(doc, node + [0], 2) == LayoutWalk(doc)
    ensures FirstChild(doc, node).None? ==> done + [node] + After(doc, node, 2) == LayoutWalk(doc)
  {
    var made := Continue(env, doc, false, Pass(start, [], None), done).made;
    LayoutVisit(env, doc, start, done, made, node, ids, o, next);
    if o.Built? {
      assert Nodes(made + Kept(node, o)) == Nodes(made) + [o.node];
    } else if o.Skip? {
      assert made + Kept(node, o) == made;
    }
  }

  /** Once the walk has passed everything, the progress made is LayoutPass. */
  lemma {:induction false} LayoutDone(env: Env, doc: Document, start: Ids, ids: Ids, layout: seq<DomNode>)
    requires WellFormed(doc) && Progress(env, doc, start, LayoutWalk(doc), ids, layout)
    ensures LayoutPass(env, doc, start) == Pass(ids, LayoutPass(env, doc, start).made, None)
    ensures Nodes(LayoutPass(env, doc, start).made) == layout
  {
  }

  /**
   * The nodes getLayoutData makes carry their depth as level and, when skipped
   * nodes are leaves, start at level 0 and never go more than one level deeper
   * from one to the next: shown along the walk from the node at which the
   * walk stands after `done`.
   */
  lemma {:induction false} WalkStepwise(env: Env, doc: Document, start: Ids, done: seq<Path>, node: Path)
    requires WellFormed(doc) && StepwiseAt(env, doc, start, done, node)
    ensures WalkStepwiseDone(env, doc, start)
    decreases |LayoutWalk(doc)| - |done|
  {
    if VisitOutcome(env, doc, start, done, node).Threw? {
      StepwiseThrew(env, doc, start, done, node);
    } else if FirstChild(doc, node).Some? {
      StepwiseDown(env, doc, start, done, node);
      WalkStepwise(env, doc, start, done + [node], node + [0]);
    } else if NextUp(doc, node, 2).Some? {
      StepwiseAcross(env, doc, start, done, node);
      WalkStepwise(env, doc, start, done + [node], NextUp(doc, node, 2).value);
    } else {
      StepwiseLast(env, doc, start, done, node);
    }
  }

  /** The layout walk has passed `done` and stands at node, with the made nodes leveled and, when skipped nodes are leaves, stepwise. */
  ghost predicate StepwiseAt(env: Env, doc: Document, start: Ids, done: seq<Path>, node: Path)
    requires WellFormed(doc)
  {
    ValidPath(doc, node) && |node| >= 2 && AllValid(doc, done) &&
    done + Rest(doc, node, 2) == LayoutWalk(doc) &&
    var pass := Continue(env, doc, false, Pass(start, [], None), done);
    pass.error.None? && LeveledVisits(pass.made) &&
    (SkippedAreLeaves(doc, env.session) ==> Stepwise(pass.made) && Reaches(pass.made, node))
  }

  /** The nodes of the whole layout walk are leveled and, when skipped nodes are leaves, stepwise. */
  ghost predicate WalkStepwiseDone(env: Env, doc: Document, start: Ids)
    requires WellFormed(doc)
  {
    var made := LayoutPass(env, doc, start).made;
    LeveledVisits(made) && (SkippedAreLeaves(doc, env.session) ==> Stepwise(made))
  }

  /** What the factory makes of node after the walk has passed `done`. */
  function VisitOutcome(env: Env, doc: Document, start: Ids, done: seq<Path>, node: Path): Outcome
    requires WellFormed(doc) && ValidPath(doc, node) && |node| >= 2 && AllValid(doc, done)
  {
    Factory(env, doc, Continue(env, doc, false, Pass(start, [], None), done).ids, Some(|node| - 2), node).0
  }

  /** A visit that throws ends the walk with the nodes made before it. */
  lemma {:induction false} StepwiseThrew(env: Env, doc: Document, start: Ids, done: seq<Path>, node: Path)
    requires WellFormed(doc) && StepwiseAt(env, doc, start, done, node)
    requires VisitOutcome(env, doc, start, done, node).Threw?
    ensures WalkStepwiseDone(env, doc, start)
  {
    var pass := Continue(env, doc, false, Pass(start, [], None), done);
    var f := Factory(env, doc, pass.ids, Some(|node| - 2), node);
    LayoutVisit(env, doc, start, done, pass.made, node, pass.ids, f.0, f.1);
  }

  /** From a node with children, the walk goes on at its first child. */
  lemma {:induction false} StepwiseDown(env: Env, doc: Document, start: Ids, done: seq<Path>, node: Path)
    requires WellFormed(doc) && StepwiseAt(env, doc, start, done, node)
    requires !VisitOutcome(env, doc, start, done, node).Threw? && FirstChild(doc, node).Some?
    ensures StepwiseAt(env, doc, start, done + [node], node + [0])
  {
    var pass := Continue(env, doc, false, Pass(start, [], None), done);
    var f := Factory(env, doc, pass.ids, Some(|node| - 2), node);
    LayoutVisit(env, doc, start, done, pass.made, node, pass.ids, f.0, f.1);
    KeptStepwise(doc, env.session, pass.made, node, f.0);
  }

  /** From a leaf with a following node, the walk goes on past the leaf's subtree. */
  lemma {:induction false} StepwiseAcross(env: Env, doc: Document, start: Ids, done: seq<Path>, node: Path)
    requires WellFormed(doc) && StepwiseAt(env, doc, start, done, node)
    requires !VisitOutcome(env, doc, start, done, node).Threw? && FirstChild(doc, node).None?
    requires NextUp(doc, node, 2).Some?
    ensures StepwiseAt(env, doc, start, done + [node], NextUp(doc, node, 2).value)
  {
    var pass := Continue(env, doc, false, Pass(start, [], None), done);
    var f := Factory(env, doc, pass.ids, Some(|node| - 2), node);
    LayoutVisit(env, doc, start, done, pass.made, node, pass.ids, f.0, f.1);
    KeptStepwise(doc, env.session, pass.made, node, f.0);
    NextUpSpec(doc, node, 2);
  }

  /** The last node of the walk ends it. */
  lemma {:induction false} StepwiseLast(env: Env, doc: Document, start: Ids, done: seq<Path>, node: Path)
    requires WellFormed(doc) && StepwiseAt(env, doc, start, done, node)
    requires !VisitOutcome(env, doc, start, done, node).Threw? && FirstChild(doc, node).None?
    requires NextUp(doc, node, 2).None?
    ensures WalkStepwiseDone(env, doc, start)
  {
    var pass := Continue(env, doc, false, Pass(start, [], None), done);
    var f := Factory(env, doc, pass.ids, Some(|node| - 2), node);
    LayoutVisit(env, doc, start, done, pass.made, node, pass.ids, f.0, f.1);
    KeptStepwise(doc, env.session, pass.made, node, f.0);
    NextUpSpec(doc, node, 2);
    assert done + [node] == LayoutWalk(doc);
  }

  /**
   * The layout getLayoutData makes, when it makes one, is leveled with all
   * counts 0; graded from level 0 when skipped nodes are leaves.
   */
  lemma {:induction false} LayoutShape(env: Env, doc: Document, start: Ids)
    requires WellFormed(doc) && LayoutPass(env, doc, start).error.None?
    ensures var made := LayoutPass(env, doc, start).made;
            Leveled(Nodes(made)) && (forall i :: 0 <= i < |made| ==> Nodes(made)[i].cnt == 0) &&
            (SkippedAreLeaves(doc, env.session) ==>
               var lv := Levels(Nodes(made)); Graded(lv) && (lv != [] ==> lv[0] == 0))
  {
    assert [] + Rest(doc, Body(doc), 2) == LayoutWalk(doc);
    WalkStepwise(env, doc, start, [], Body(doc));
    var made := LayoutPass(env, doc, start).made;
    LeveledNodes(made);
    if SkippedAreLeaves(doc, env.session) {
      StepwiseGraded(made);
    }
  }

  /** Skipped nodes have no element children (script, style, br, link and meta usually have none). */
  ghost predicate SkippedAreLeaves(doc: Document, session: string) {
    forall q :: ValidPath(doc, q) && Skipped(At(doc, q), session) ==> At(doc, q).children == []
  }

  // ---- patchLayoutData --------------------------------------------------------

  /** Every node of the layout has a level (the journal's nodes do not). */
  predicate Leveled(layout: seq<DomNode>) {
    forall i :: 0 <= i < |layout| ==> layout[i].lvl.Some?
  }

  function Levels(layout: seq<DomNode>): (lv: seq<nat>)
    requires Leveled(layout)
    ensures |lv| == |layout| && forall i :: 0 <= i < |layout| ==> lv[i] == layout[i].lvl.value
  {
    seq(|layout|, i requires 0 <= i < |layout| => layout[i].lvl.value)
  }

  /** Going down the layout, no node is more than one level deeper than the node before it. */
  predicate Graded(lv: seq<nat>) {
    forall i :: 0 <= i < |lv| - 1 ==> lv[i + 1] <= lv[i] + 1
  }

  /** How many entries from i on, in a row, are deeper than level k. */
  function Run(lv: seq<nat>, i: nat, k: nat): nat
    decreases |lv| - i
  {
    if i < |lv| && lv[i] > k then 1 + Run(lv, i + 1, k) else 0
  }

  /** The descendant count of entry i: the entries after it up to the next one at its level or above. */
  function Descendants(lv: seq<nat>, i: nat): nat
    requires i < |lv|
  {
    Run(lv, i + 1, lv[i])
  }

  /**
   * layout is the full layout of a walk that made `made`: the nodes it built,
   * in order, each with a descendant count, which is exact when skipped nodes
   * are leaves.
   */
  ghost predicate FullLayoutOf(doc: Document, session: string, made: seq<Visit>, layout: seq<DomNode>) {
    var nodes := Nodes(made);
    |layout| == |nodes| && (forall i :: 0 <= i < |nodes| ==> layout[i] == nodes[i].(cnt := layout[i].cnt)) &&
    (SkippedAreLeaves(doc, session) ==>
       Leveled(layout) && Graded(Levels(layout)) &&
       forall i :: 0 <= i < |layout| ==> layout[i].cnt == Descendants(Levels(layout), i))
  }

  /** Run counts exactly the deeper entries before the first one that is not deeper. */
  lemma {:induction false} RunSpec(lv: seq<nat>, i: nat, k: nat)
    requires i <= |lv|
    ensures var n := Run(lv, i, k);
            i + n <= |lv| && (forall j :: i <= j < i + n ==> lv[j] > k) && (i + n < |lv| ==> lv[i + n] <= k)
    decreases |lv| - i
  {
    if i < |lv| && lv[i] > k {
      RunSpec(lv, i + 1, k);
    }
  }

  /** A run deeper than k + 1 is also deeper than k. */
  lemma {:induction false} RunShrinks(lv: seq<nat>, i: nat, k: nat)
    ensures Run(lv, i, k + 1) <= Run(lv, i, k)
    decreases |lv| - i
  {
    if i < |lv| && lv[i] > k + 1 {
      RunShrinks(lv, i + 1, k);
    }
  }

  /** When every later entry is deeper than the first (body alone at level 0), the first counts all the others. */
  lemma {:induction false} FirstHoldsAll(lv: seq<nat>)
    requires |lv| > 0 && forall j :: 0 < j < |lv| ==> lv[j] > lv[0]
    ensures Descendants(lv, 0) == |lv| - 1
  {
    RunSpec(lv, 1, lv[0]);
  }

  // ---- previousElementSiblingId ---------------------------------------------

  /** What previousElementSiblingId answers: null (no sibling), or the id map's entry, which may be undefined. */
  datatype Prev = NoSibling | Sibling(nid: Option<string>)

  /** The index of the last child before i whose tag is not a skipped one. */
  function NearestKept(cs: seq<Elem>, i: nat): (r: Option<nat>)
    requires i <= |cs|
    ensures r.Some? ==> r.value < i && cs[r.value].tag !in SkipTagNames &&
                        forall j :: r.value < j < i ==> cs[j].tag in SkipTagNames
    ensures r.None? ==> forall j :: 0 <= j < i ==> cs[j].tag in SkipTagNames
    decreases i
  {
    if i == 0 then None
    else if cs[i - 1].tag in SkipTagNames then NearestKept(cs, i - 1)
    else Some(i - 1)
  }

  /**
   * The id of the nearest earlier sibling whose tag is not skipped; the
   * inspector's own nodes are not passed over.  null when every earlier
   * sibling is skipped (or there is none, or the node is a root).
   */
  function PrevSiblingId(doc: Document, ids: map<Key, string>, p: Path): Prev
    requires ValidPath(doc, p)
  {
    if |p| < 2 then NoSibling
    else
      ParentPath(doc, p);
      var cs := At(doc, Parent(p)).children;
      match NearestKept(cs, Last(p))
      case None => NoSibling
      case Some(j) => Sibling(Lookup(ids, cs[j].key))
  }

  /** previousElementSiblingId gives the id of the nearest earlier sibling whose tag is not skipped, or null when there is none. */
  lemma {:induction false} PrevSiblingIdSpec(doc: Document, ids: map<Key, string>, p: Path)
    requires ValidPath(doc, p)
    ensures |p| < 2 ==> PrevSiblingId(doc, ids, p) == NoSibling
    ensures |p| >= 2 ==>
              var r := PrevSiblingId(doc, ids, p);
              var cs := At(doc, ParentElement(doc, p).value).children;
              (r == NoSibling <==> forall j :: 0 <= j < Last(p) ==> cs[j].tag in SkipTagNames) &&
              (r.Sibling? ==> exists j :: 0 <= j < Last(p) && cs[j].tag !in SkipTagNames &&
                                (forall m :: j < m < Last(p) ==> cs[m].tag in SkipTagNames) &&
                                r.nid == Lookup(ids, cs[j].key))
  {
    if |p| >= 2 {
      ParentPath(doc, p);
      var cs := At(doc, Parent(p)).children;
      var near := NearestKept(cs, Last(p));
      if near.Some? {
        var j := near.value;
        assert cs[j].tag !in SkipTagNames;
      }
    }
  }

  // ---- The journal --------------------------------------------------------------

  /** An added node of a mutation record: an element, at its path, or a node of another type (text, comment). */
  datatype NodeRef = Element(path: Path) | Other

  /** A removed node: it has left the document, so only its identity is left to go by. */
  datatype Gone = GoneElement(key: Key) | GoneOther

  /** A MutationRecord of a childList observer. */
  datatype Record = Record(addedNodes: seq<NodeRef>, removedNodes: seq<Gone>)

  /** A journal entry: what -1 for a removed node, what 1 for an added one (its id, its parent's, its previous sibling's). */
  datatype JournalEntry = Removed(gone: string) | Added(nid: Option<string>, parent: Option<string>, prev: Prev)

  predicate RefsIn(doc: Document, list: seq<NodeRef>) {
    forall n :: n in list && n.Element? ==> ValidPath(doc, n.path)
  }

  predicate ListsIn(doc: Document, lists: seq<seq<NodeRef>>) {
    forall l :: l in lists ==> RefsIn(doc, l)
  }

  /** The elements an added node brings: none for a non-element or a parentless node, else its subtree in document order. */
  function NodeWalk(doc: Document, n: NodeRef): (r: seq<Path>)
    requires n.Element? ==> ValidPath(doc, n.path)
    ensures AllValid(doc, r)
  {
    if n.Element? && |n.path| >= 2 then SubtreeValid(doc, n.path); Subtree(doc, n.path) else []
  }

  function ListWalk(doc: Document, list: seq<NodeRef>): (r: seq<Path>)
    requires RefsIn(doc, list)
    ensures AllValid(doc, r)
    decreases |list|
  {
    if list == [] then []
    else ListWalk(doc, list[..|list| - 1]) + NodeWalk(doc, list[|list| - 1])
  }

  /** The walk of journalFromBranch: the descendants of root in document order, never climbing above root's children. */
  function BranchWalk(doc: Document, root: Path): (w: seq<Path>)
    requires ValidPath(doc, root)
    ensures AllValid(doc, w)
  {
    match FirstChild(doc, root)
    case None => []
    case Some(c) => RestValid(doc, c, |root| + 1); Rest(doc, c, |root| + 1)
  }

  /** An added element is passed to the factory, then its branch: its whole subtree. */
  lemma {:induction false} NodeWalkSplits(doc: Document, p: Path)
    requires ValidPath(doc, p) && |p| >= 2
    ensures NodeWalk(doc, Element(p)) == [p] + BranchWalk(doc, p)
  {
    DescendantsWalk(doc, p);
  }

  /** The elements journalFromMutations passes to the factory, in the order it does. */
  function JournalWalk(doc: Document, lists: seq<seq<NodeRef>>): (r: seq<Path>)
    requires ListsIn(doc, lists)
    ensures AllValid(doc, r)
    decreases |lists|
  {
    if lists == [] then []
    else JournalWalk(doc, lists[..|lists| - 1]) + ListWalk(doc, lists[|lists| - 1])
  }

  /** The walk over the first j nodes of a list is where the walk over the list begins. */
  lemma {:induction false} ListWalkPrefix(doc: Document, list: seq<NodeRef>, j: nat)
    requires RefsIn(doc, list) && j <= |list|
    ensures ListWalk(doc, list[..j]) <= ListWalk(doc, list)
    decreases |list| - j
  {
    if j < |list| {
      ListWalkPrefix(doc, list, j + 1);
      assert list[..j + 1][..j] == list[..j];
    } else {
      assert list[..j] == list;
    }
  }

  lemma {:induction false} JournalWalkPrefix(doc: Document, lists: seq<seq<NodeRef>>, i: nat)
    requires ListsIn(doc, lists) && i <= |lists|
    ensures JournalWalk(doc, lists[..i]) <= JournalWalk(doc, lists)
    decreases |lists| - i
  {
    if i < |lists| {
      JournalWalkPrefix(doc, lists, i + 1);
      var pre := lists[..i + 1];
      assert pre[..|pre| - 1] == lists[..i];
      assert JournalWalk(doc, pre) == JournalWalk(doc, lists[..i]) + ListWalk(doc, pre[|pre| - 1]);
    } else {
      assert lists[..i] == lists;
    }
  }

  /**
   * The journal after the factory has gone over ws from ids: the ids it
   * stands at, the node table with the nodes made stored by id, the added
   * elements, and the exception that ended the walk, if any.
   */
  predicate JournalAfter(env: Env, doc: Document, ids0: Ids, nodes0: map<string, DomNode>, added0: seq<Path>,
                         ws: seq<Path>, ids: Ids, nodes: map<string, DomNode>, added: seq<Path>, err: Option<SelectorError>)
    requires WellFormed(doc) && AllValid(doc, ws)
  {
    var pass := Continue(env, doc, true, Pass(ids0, [], None), ws);
    ids == pass.ids && err == pass.error && nodes == WithNodes(nodes0, pass.made) && added == added0 + Paths(pass.made)
  }

  /** The journal over a single element: the factory's outcome, stored and recorded when it made a node. */
  lemma {:induction false} JournalOne(env: Env, doc: Document, ids: Ids, nodes: map<string, DomNode>, added: seq<Path>,
                                       p: Path, o: Outcome, next: Ids)
    requires WellFormed(doc) && ValidPath(doc, p)
    requires (o, next) == Factory(env, doc, ids, None, p)
    ensures AllValid(doc, [p])
    ensures JournalAfter(env, doc, ids, nodes, added, [p], next,
                         if o.Built? then nodes[o.node.nid := o.node] else nodes,
                         if o.Built? then added + [p] else added,
                         if o.Threw? then Some(o.error) else None)
  {
    var pass := Pass(ids, [], None);
    assert [p][..0] == [];
    assert Continue(env, doc, true, pass, [p]) == Step(env, doc, true, pass, p);
    if o.Built? {
      var made := [Visit(p, o.node)];
      assert made[..0] == [];
      assert Step(env, doc, true, pass, p) == Pass(next, made, None);
      assert WithNodes(nodes, made) == nodes[o.node.nid := o.node];
      assert Paths(made) == [p];
    } else {
      assert Step(env, doc, true, pass, p).made == [];
    }
  }

  /** The journal over a + b is the journal over a, continued over b. */
  lemma {:induction false} JournalAfterAppend(env: Env, doc: Document, ids0: Ids, nodes0: map<string, DomNode>, added0: seq<Path>,
                                               a: seq<Path>, ids1: Ids, nodes1: map<string, DomNode>, added1: seq<Path>,
                                               b: seq<Path>, ids2: Ids, nodes2: map<string, DomNode>, added2: seq<Path>,
                                               err: Option<SelectorError>)
    requires WellFormed(doc) && AllValid(doc, a) && AllValid(doc, b)
    requires JournalAfter(env, doc, ids0, nodes0, added0, a, ids1, nodes1, added1, None)
    requires JournalAfter(env, doc, ids1, nodes1, added1, b, ids2, nodes2, added2, err)
    ensures AllValid(doc, a + b)
    ensures JournalAfter(env, doc, ids0, nodes0, added0, a + b, ids2, nodes2, added2, err)
  {
    ContinueAppend(env, doc, true, Pass(ids0, [], None), a, b);
    var qa := Continue(env, doc, true, Pass(ids0, [], None), a);
    assert qa == Pass(ids1, qa.made, None);
    ContinueFrom(env, doc, true, ids1, qa.made, b);
    var qb := Continue(env, doc, true, Pass(ids1, [], None), b);
    WithNodesAppend(nodes0, qa.made, qb.made);
    PathsAppend(qa.made, qb.made);
    Associative(added0, Paths(qa.made), Paths(qb.made));
  }

  /** Once the factory has thrown, the rest of the walk changes nothing. */
  lemma {:induction false} JournalAfterStuck(env: Env, doc: Document, ids0: Ids, nodes0: map<string, DomNode>, added0: seq<Path>,
                                              a: seq<Path>, b: seq<Path>, ids: Ids, nodes: map<string, DomNode>, added: seq<Path>,
                                              e: SelectorError)
    requires WellFormed(doc) && AllValid(doc, a) && AllValid(doc, b) && a <= b
    requires JournalAfter(env, doc, ids0, nodes0, added0, a, ids, nodes, added, Some(e))
    ensures JournalAfter(env, doc, ids0, nodes0, added0, b, ids, nodes, added, Some(e))
  {
    var rest := b[|a|..];
    assert b == a + rest;
    ContinueAppend(env, doc, true, Pass(ids0, [], None), a, rest);
    ContinueStuck(env, doc, true, Continue(env, doc, true, Pass(ids0, [], None), a), rest);
  }

  /**
   * journalFromBranch after the walk has passed `done`: the journal over it,
   * and the node the walk stands at (below root's children, and the walk
   * from it finishes the branch), or None once the branch is done.
   */
  predicate BranchState(env: Env, doc: Document, root: Path, start: Ids, nodes0: map<string, DomNode>, added0: seq<Path>,
                        done: seq<Path>, ids: Ids, nodes: map<string, DomNode>, added: seq<Path>, node: Option<Path>)
    requires WellFormed(doc) && ValidPath(doc, root)
  {
    AllValid(doc, done) && JournalAfter(env, doc, start, nodes0, added0, done, ids, nodes, added, None) &&
    match node
    case Some(p) =>
      ValidPath(doc, p) && |root| + 1 <= |p| && p[..|root|] == root &&
      done + Rest(doc, p, |root| + 1) == BranchWalk(doc, root)
    case None => done == BranchWalk(doc, root)
  }

  /** Where journalFromBranch starts: root's first child, with nothing done. */
  lemma {:induction false} BranchStart(env: Env, doc: Document, root: Path, ids: Ids, nodes: map<string, DomNode>, added: seq<Path>)
    requires WellFormed(doc) && ValidPath(doc, root)
    ensures BranchState(env, doc, root, ids, nodes, added, [], ids, nodes, added, FirstChild(doc, root))
  {
    var c := FirstChild(doc, root);
    if c.Some? {
      assert c.value[..|root|] == root;
    }
  }

  /**
   * One node of the walk of journalFromBranch: the factory's outcome extends
   * the journal, or ends the whole walk when it throws; the walk then goes on
   * to WalkNext.
   */
  lemma {:induction false} BranchVisit(env: Env, doc: Document, root: Path, start: Ids, nodes0: map<string, DomNode>,
                                        added0: seq<Path>, done: seq<Path>, p: Path,
                                        ids: Ids, nodes: map<string, DomNode>, added: seq<Path>, o: Outcome, next: Ids)
    requires WellFormed(doc) && ValidPath(doc, root)
    requires BranchState(env, doc, root, start, nodes0, added0, done, ids, nodes, added, Some(p))
    requires (o, next) == Factory(env, doc, ids, None, p)
    ensures o.Threw? ==> JournalAfter(env, doc, start, nodes0, added0, BranchWalk(doc, root), next, nodes, added, Some(o.error))
    ensures !o.Threw? ==> BranchState(env, doc, root, start, nodes0, added0, done + [p], next,
                                      if o.Built? then nodes[o.node.nid := o.node] else nodes,
                                      if o.Built? then added + [p] else added, WalkNext(doc, p, |root| + 1))
  {
    var top := |root| + 1;
    var w := BranchWalk(doc, root);
    var nodes' := if o.Built? then nodes[o.node.nid := o.node] else nodes;
    var added' := if o.Built? then added + [p] else added;
    var e := if o.Threw? then Some(o.error) else None;
    JournalOne(env, doc, ids, nodes, added, p, o, next);
    JournalAfterAppend(env, doc, start, nodes0, added0, done, ids, nodes, added, [p], next, nodes', added', e);
    WalkNextSpec(doc, p, top);
    WalkNextBelow(doc, p, top);
    var n := WalkNext(doc, p, top);
    var rest := if n.Some? then Rest(doc, n.value, top) else [];
    Associative(done, [p], rest);
    if o.Threw? {
      JournalAfterStuck(env, doc, start, nodes0, added0, done + [p], w, next, nodes, added, o.error);
    } else if n.Some? {
      assert p[..top - 1] == root;
    }
  }

  /** A node of an added list that brings no element leaves the walk as it was. */
  lemma {:induction false} ListSkip(doc: Document, list: seq<NodeRef>, j: nat)
    requires RefsIn(doc, list) && j < |list| && (list[j].Element? ==> ValidPath(doc, list[j].path) && |list[j].path| < 2)
    ensures ListWalk(doc, list[..j + 1]) == ListWalk(doc, list[..j])
  {
    assert list[..j + 1][..j] == list[..j];
  }

  /**
   * An added element of a list: the factory's outcome extends the journal
   * over the list so far, or ends the walk over the whole list.
   */
  lemma {:induction false} ListNode(env: Env, doc: Document, list: seq<NodeRef>, j: nat, start: Ids,
                                     nodes0: map<string, DomNode>, added0: seq<Path>,
                                     ids: Ids, nodes: map<string, DomNode>, added: seq<Path>, o: Outcome, next: Ids)
    requires WellFormed(doc) && RefsIn(doc, list) && j < |list| && list[j].Element? && |list[j].path| >= 2
    requires JournalAfter(env, doc, start, nodes0, added0, ListWalk(doc, list[..j]), ids, nodes, added, None)
    requires (o, next) == Factory(env, doc, ids, None, list[j].path)
    ensures AllValid(doc, ListWalk(doc, list[..j]) + [list[j].path])
    ensures o.Threw? ==> JournalAfter(env, doc, start, nodes0, added0, ListWalk(doc, list), next, nodes, added, Some(o.error))
    ensures !o.Threw? ==> JournalAfter(env, doc, start, nodes0, added0, ListWalk(doc, list[..j]) + [list[j].path], next,
                                       if o.Built? then nodes[o.node.nid := o.node] else nodes,
                                       if o.Built? then added + [list[j].path] else added, None)
  {
    var p := list[j].path;
    var before := ListWalk(doc, list[..j]);
    var nodes' := if o.Built? then nodes[o.node.nid := o.node] else nodes;
    var added' := if o.Built? then added + [p] else added;
    var e := if o.Threw? then Some(o.error) else None;
    JournalOne(env, doc, ids, nodes, added, p, o, next);
    JournalAfterAppend(env, doc, start, nodes0, added0, before, ids, nodes, added, [p], next, nodes', added', e);
    if o.Threw? {
      ElementStartsRest(doc, list, j);
      JournalAfterStuck(env, doc, start, nodes0, added0, before + [p], ListWalk(doc, list), next, nodes, added, o.error);
    }
  }

  /** The walk over a list begins with the walk over its first j nodes and then the element at j. */
  lemma {:induction false} ElementStartsRest(doc: Document, list: seq<NodeRef>, j: nat)
    requires RefsIn(doc, list) && j < |list| && list[j].Element? && |list[j].path| >= 2
    ensures AllValid(doc, ListWalk(doc, list[..j]) + [list[j].path])
    ensures ListWalk(doc, list[..j]) + [list[j].path] <= ListWalk(doc, list)
  {
    ListWalkPrefix(doc, list, j + 1);
    ListWalkElement(doc, list, j);
    var w := ListWalk(doc, list[..j]) + [list[j].path];
    assert ListWalk(doc, list[..j + 1])[..|w|] == w;
  }

  /**
   * After the factory, journalFromBranch over the added element's branch:
   * the journal over the list up to and with that element; when the branch
   * threw, the walk over the whole list.
   */
  lemma {:induction false} ListBranch(env: Env, doc: Document, list: seq<NodeRef>, j: nat, start: Ids,
                                       nodes0: map<string, DomNode>, added0: seq<Path>,
                                       ids1: Ids, nodes1: map<string, DomNode>, added1: seq<Path>,
                                       ids2: Ids, nodes2: map<string, DomNode>, added2: seq<Path>, err: Option<SelectorError>)
    requires WellFormed(doc) && RefsIn(doc, list) && j < |list| && list[j].Element? && |list[j].path| >= 2
    requires AllValid(doc, ListWalk(doc, list[..j]) + [list[j].path])
    requires JournalAfter(env, doc, start, nodes0, added0, ListWalk(doc, list[..j]) + [list[j].path], ids1, nodes1, added1, None)
    requires JournalAfter(env, doc, ids1, nodes1, added1, BranchWalk(doc, list[j].path), ids2, nodes2, added2, err)
    ensures JournalAfter(env, doc, start, nodes0, added0, ListWalk(doc, list[..j + 1]), ids2, nodes2, added2, err)
    ensures err.Some? ==> JournalAfter(env, doc, start, nodes0, added0, ListWalk(doc, list), ids2, nodes2, added2, err)
  {
    var p := list[j].path;
    var before := ListWalk(doc, list[..j]);
    JournalAfterAppend(env, doc, start, nodes0, added0, before + [p], ids1, nodes1, added1, BranchWalk(doc, p),
                       ids2, nodes2, added2, err);
    ListWalkElement(doc, list, j);
    if err.Some? {
      ListWalkPrefix(doc, list, j + 1);
      JournalAfterStuck(env, doc, start, nodes0, added0, ListWalk(doc, list[..j + 1]), ListWalk(doc, list),
                        ids2, nodes2, added2, err.value);
    }
  }

  /** The walk over one more node of a list, when that node is an element below a root: it, then its branch. */
  lemma {:induction false} ListWalkElement(doc: Document, list: seq<NodeRef>, j: nat)
    requires RefsIn(doc, list) && j < |list| && list[j].Element? && |list[j].path| >= 2
    ensures ListWalk(doc, list[..j + 1]) == ListWalk(doc, list[..j]) + [list[j].path] + BranchWalk(doc, list[j].path)
  {
    assert list[..j + 1][..j] == list[..j];
    NodeWalkSplits(doc, list[j].path);
    Associative(ListWalk(doc, list[..j]), [list[j].path], BranchWalk(doc, list[j].path));
  }

  /** The journal over the lists so far, continued over the next list; when that threw, over all of them. */
  lemma {:induction false} ListsStep(env: Env, doc: Document, lists: seq<seq<NodeRef>>, i: nat, start: Ids,
                                      nodes0: map<string, DomNode>, added0: seq<Path>,
                                      ids1: Ids, nodes1: map<string, DomNode>, added1: seq<Path>,
                                      ids2: Ids, nodes2: map<string, DomNode>, added2: seq<Path>, err: Option<SelectorError>)
    requires WellFormed(doc) && ListsIn(doc, lists) && i < |lists|
    requires JournalAfter(env, doc, start, nodes0, added0, JournalWalk(doc, lists[..i]), ids1, nodes1, added1, None)
    requires JournalAfter(env, doc, ids1, nodes1, added1, ListWalk(doc, lists[i]), ids2, nodes2, added2, err)
    ensures JournalAfter(env, doc, start, nodes0, added0, JournalWalk(doc, lists[..i + 1]), ids2, nodes2, added2, err)
    ensures err.Some? ==> JournalAfter(env, doc, start, nodes0, added0, JournalWalk(doc, lists), ids2, nodes2, added2, err)
  {
    assert lists[..i + 1][..i] == lists[..i];
    JournalAfterAppend(env, doc, start, nodes0, added0, JournalWalk(doc, lists[..i]), ids1, nodes1, added1,
                       ListWalk(doc, lists[i]), ids2, nodes2, added2, err);
    if err.Some? {
      JournalWalkPrefix(doc, lists, i + 1);
      JournalAfterStuck(env, doc, start, nodes0, added0, JournalWalk(doc, lists[..i + 1]), JournalWalk(doc, lists),
                        ids2, nodes2, added2, err.value);
    }
  }

  /** Every element a walk made a node for is one of the walk's, so names an element. */
  lemma {:induction false} ContinuePathsValid(env: Env, doc: Document, journal: bool, pass: Pass, ws: seq<Path>)
    requires WellFormed(doc) && AllValid(doc, ws) && AllValid(doc, Paths(pass.made))
    ensures AllValid(doc, Paths(Continue(env, doc, journal, pass, ws).made))
    decreases |ws|
  {
    if ws != [] {
      var before := Continue(env, doc, journal, pass, ws[..|ws| - 1]);
      ContinuePathsValid(env, doc, journal, pass, ws[..|ws| - 1]);
      var after := Step(env, doc, journal, before, ws[|ws| - 1]);
      if |after.made| > |before.made| {
        assert after.made[..|before.made|] == before.made;
      }
    }
  }

  /** The factory folded over the walk of journalFromMutations, from the given ids. */
  function JournalPass(env: Env, doc: Document, ids: Ids, lists: seq<seq<NodeRef>>): (pass: Pass)
    requires WellFormed(doc) && ListsIn(doc, lists)
    ensures AllValid(doc, Paths(pass.made))
  {
    ContinuePathsValid(env, doc, true, Pass(ids, [], None), JournalWalk(doc, lists));
    Continue(env, doc, true, Pass(ids, [], None), JournalWalk(doc, lists))
  }

  /** The journal keeps every id in nodeToIdMap an issued one and every node of the table under its own id. */
  lemma {:induction false} JournalKeepsValid(env: Env, doc: Document, ids0: Ids, nodes0: map<string, DomNode>, added0: seq<Path>,
                                              ws: seq<Path>, ids: Ids, nodes: map<string, DomNode>, added: seq<Path>,
                                              err: Option<SelectorError>)
    requires WellFormed(doc) && AllValid(doc, ws)
    requires IdsIssued(ids0) && forall nid :: nid in nodes0 ==> nodes0[nid].nid == nid
    requires JournalAfter(env, doc, ids0, nodes0, added0, ws, ids, nodes, added, err)
    ensures IdsIssued(ids) && forall nid :: nid in nodes ==> nodes[nid].nid == nid
  {
    ContinueIssued(env, doc, true, Pass(ids0, [], None), ws);
    WithNodesKeyed(nodes0, Continue(env, doc, true, Pass(ids0, [], None), ws).made);
  }

  /** A removed node the journal emits a -1 for: an element that nodeToIdMap has an id for. */
  predicate Tracked(ids: map<Key, string>, n: Gone) {
    n.GoneElement? && n.key in ids
  }

  /**
   * The positions in list of the nodes that get a -1 entry, in increasing
   * order (so each once); TrackedIndicesComplete shows none is missing.
   */
  function TrackedIndices(ids: map<Key, string>, list: seq<Gone>): (idx: seq<nat>)
    ensures forall i :: 0 <= i < |idx| ==> idx[i] < |list| && Tracked(ids, list[idx[i]])
    ensures forall i, k :: 0 <= i < k < |idx| ==> idx[i] < idx[k]
    decreases |list|
  {
    if list == [] then []
    else
      var init := list[..|list| - 1];
      var rest := TrackedIndices(ids, init);
      assert forall i :: 0 <= i < |rest| ==> list[rest[i]] == init[rest[i]];
      rest + (if Tracked(ids, list[|list| - 1]) then [|list| - 1] else [])
  }

  /** Every position of a removed element with an id is among the tracked positions. */
  lemma {:induction false} TrackedIndicesComplete(ids: map<Key, string>, list: seq<Gone>)
    ensures forall j :: 0 <= j < |list| && Tracked(ids, list[j]) ==> j in TrackedIndices(ids, list)
    decreases |list|
  {
    if list != [] {
      var init := list[..|list| - 1];
      TrackedIndicesComplete(ids, init);
      var rest := TrackedIndices(ids, init);
      var idx := TrackedIndices(ids, list);
      assert idx == rest + (if Tracked(ids, list[|list| - 1]) then [|list| - 1] else []);
      forall j | 0 <= j < |list| && Tracked(ids, list[j])
        ensures j in idx
      {
        if j < |init| {
          assert list[j] == init[j];
          assert j in rest;
        }
      }
    }
  }

  /**
   * The entries for one list of removed nodes: for each removed element that
   * has an id, in list order, one -1 entry naming that id, and nothing else.
   */
  function RemovedIn(ids: map<Key, string>, list: seq<Gone>): seq<JournalEntry>
    decreases |list|
  {
    if list == [] then []
    else
      var n := list[|list| - 1];
      RemovedIn(ids, list[..|list| - 1]) + (if Tracked(ids, n) then [Removed(ids[n.key])] else [])
  }

  /** RemovedIn gives, at the i-th tracked position of the list, a -1 entry naming that node's id. */
  lemma {:induction false} RemovedInSpec(ids: map<Key, string>, list: seq<Gone>)
    ensures var r := RemovedIn(ids, list);
            var idx := TrackedIndices(ids, list);
            |r| == |idx| && forall i :: 0 <= i < |idx| ==> r[i] == Removed(ids[list[idx[i]].key])
    decreases |list|
  {
    if list != [] {
      var init := list[..|list| - 1];
      RemovedInSpec(ids, init);
      RemovedInSnoc(ids, list, RemovedIn(ids, init), RemovedIn(ids, list));
    }
  }

  /** The step of RemovedIn's contract: the entries of the list but its last node, then the last node's. */
  lemma {:induction false} RemovedInSnoc(ids: map<Key, string>, list: seq<Gone>, before: seq<JournalEntry>, r: seq<JournalEntry>)
    requires list != []
    requires var idx := TrackedIndices(ids, list[..|list| - 1]);
             |before| == |idx| && forall i :: 0 <= i < |idx| ==> before[i] == Removed(ids[list[..|list| - 1][idx[i]].key])
    requires var n := list[|list| - 1]; r == before + (if Tracked(ids, n) then [Removed(ids[n.key])] else [])
    ensures var idx := TrackedIndices(ids, list);
            |r| == |idx| && forall i :: 0 <= i < |idx| ==> r[i] == Removed(ids[list[idx[i]].key])
  {
    var init := list[..|list| - 1];
    var rest := TrackedIndices(ids, init);
    var idx := TrackedIndices(ids, list);
    assert idx == rest + (if Tracked(ids, list[|list| - 1]) then [|list| - 1] else []);
    forall i | 0 <= i < |idx|
      ensures r[i] == Removed(ids[list[idx[i]].key])
    {
      if i < |rest| {
        assert list[rest[i]] == init[rest[i]];
      }
    }
  }

  /** RemovedIn over one more node of the list. */
  lemma {:induction false} RemovedInStep(ids: map<Key, string>, list: seq<Gone>, j: nat)
    requires j < |list|
    ensures RemovedIn(ids, list[..j + 1]) ==
              RemovedIn(ids, list[..j]) + (if list[j].GoneElement? && list[j].key in ids then [Removed(ids[list[j].key])] else [])
  {
    assert list[..j + 1][..j] == list[..j];
  }

  /** The entries for all lists of removed nodes, list by list: those of the lists laid end to end. */
  function RemovedEntries(ids: map<Key, string>, lists: seq<seq<Gone>>): (r: seq<JournalEntry>)
    ensures r == RemovedIn(ids, Flatten(lists))
    decreases |lists|
  {
    if lists == [] then []
    else
      var init := lists[..|lists| - 1];
      RemovedInAppend(ids, Flatten(init), lists[|lists| - 1]);
      RemovedEntries(ids, init) + RemovedIn(ids, lists[|lists| - 1])
  }

  /** The entries of two lists one after the other are those of the first, then those of the second. */
  lemma {:induction false} RemovedInAppend(ids: map<Key, string>, a: seq<Gone>, b: seq<Gone>)
    ensures RemovedIn(ids, a + b) == RemovedIn(ids, a) + RemovedIn(ids, b)
    decreases |b|
  {
    if b == [] {
      assert a + b == a;
    } else {
      var b0 := b[..|b| - 1];
      RemovedInAppend(ids, a, b0);
      assert (a + b)[..|a + b| - 1] == a + b0;
      assert (a + b)[|a + b| - 1] == b[|b| - 1];
    }
  }

  /** The +1 entry of an added node: its id, its parent's id (undefined for a root) and its previous sibling's. */
  function AddedEntry(doc: Document, ids: map<Key, string>, p: Path): JournalEntry
    requires ValidPath(doc, p)
  {
    var parent := match ParentElement(doc, p) case None => None case Some(q) => Lookup(ids, At(doc, q).key);
    Added(Lookup(ids, At(doc, p).key), parent, PrevSiblingId(doc, ids, p))
  }

  /**
   * The +1 entry of an added node carries the node's id, its parent's id
   * (undefined for a root) and the id of its nearest earlier sibling that is
   * not skipped (null when there is none).
   */
  lemma {:induction false} AddedEntrySpec(doc: Document, ids: map<Key, string>, p: Path)
    requires ValidPath(doc, p)
    ensures var r := AddedEntry(doc, ids, p);
            r.Added? && r.nid == Lookup(ids, At(doc, p).key) &&
            r.parent == (if |p| < 2 then None else Lookup(ids, At(doc, ParentElement(doc, p).value).key))
    ensures var r := AddedEntry(doc, ids, p);
            |p| >= 2 ==>
              var cs := At(doc, ParentElement(doc, p).value).children;
              (r.prev == NoSibling <==> forall j :: 0 <= j < Last(p) ==> cs[j].tag in SkipTagNames) &&
              (r.prev.Sibling? ==> exists j :: 0 <= j < Last(p) && cs[j].tag !in SkipTagNames &&
                                     (forall m :: j < m < Last(p) ==> cs[m].tag in SkipTagNames) &&
                                     r.prev.nid == Lookup(ids, cs[j].key))
  {
    PrevSiblingIdSpec(doc, ids, p);
  }

  /** The entries for the added nodes, in the order they were made. */
  function AddedEntries(doc: Document, ids: map<Key, string>, ps: seq<Path>): (r: seq<JournalEntry>)
    requires AllValid(doc, ps)
    ensures |r| == |ps| && forall i :: 0 <= i < |ps| ==> r[i] == AddedEntry(doc, ids, ps[i])
  {
    seq(|ps|, i requires 0 <= i < |ps| => AddedEntry(doc, ids, ps[i]))
  }

  /**
   * es starts with one -1 for each removed element that has an id, in the
   * order of the removed lists laid end to end, naming that id.
   */
  predicate RemovalsLead(ids: map<Key, string>, lists: seq<seq<Gone>>, es: seq<JournalEntry>)
  {
    var gone := Flatten(lists);
    var idx := TrackedIndices(ids, gone);
    |idx| <= |es| && forall i :: 0 <= i < |idx| ==> es[i] == Removed(ids[gone[idx[i]].key])
  }

  /**
   * From position start on, es holds one 1 per added element, in order,
   * carrying its id, its parent's id and its previous sibling's.
   */
  predicate AdditionsFollow(doc: Document, ids: map<Key, string>, start: nat, added: seq<Path>, es: seq<JournalEntry>)
    requires AllValid(doc, added)
  {
    |es| == start + |added| && forall k :: 0 <= k < |added| ==> es[start + k] == AddedEntry(doc, ids, added[k])
  }

  /** No 1 entry comes before a -1 entry. */
  predicate RemovalsFirst(es: seq<JournalEntry>)
  {
    forall i, j :: 0 <= i < j < |es| && es[i].Added? ==> es[j].Added?
  }

  /** The entries of one flush: the removals, then the additions. */
  lemma {:induction false} FlushEntries(doc: Document, ids: map<Key, string>, lists: seq<seq<Gone>>, added: seq<Path>)
    requires AllValid(doc, added)
    ensures var es := RemovedEntries(ids, lists) + AddedEntries(doc, ids, added);
            var count := |TrackedIndices(ids, Flatten(lists))|;
            RemovalsLead(ids, lists, es) && AdditionsFollow(doc, ids, count, added, es) && RemovalsFirst(es)
  {
    var removed := RemovedEntries(ids, lists);
    var adds := AddedEntries(doc, ids, added);
    FlushRemovedPart(ids, lists, adds);
    FlushAddedPart(doc, ids, removed, added);
    RemovedThenAdded(removed, adds);
  }

  /** The -1 entries of a flush, whatever follows them. */
  lemma {:induction false} FlushRemovedPart(ids: map<Key, string>, lists: seq<seq<Gone>>, adds: seq<JournalEntry>)
    ensures |RemovedEntries(ids, lists)| == |TrackedIndices(ids, Flatten(lists))|
    ensures RemovalsLead(ids, lists, RemovedEntries(ids, lists) + adds)
    ensures forall i :: 0 <= i < |RemovedEntries(ids, lists)| ==> RemovedEntries(ids, lists)[i].Removed?
  {
    RemovedInSpec(ids, Flatten(lists));
    Concat(RemovedEntries(ids, lists), adds);
  }

  /** The 1 entries of a flush, whatever precedes them. */
  lemma {:induction false} FlushAddedPart(doc: Document, ids: map<Key, string>, removed: seq<JournalEntry>, added: seq<Path>)
    requires AllValid(doc, added)
    ensures AdditionsFollow(doc, ids, |removed|, added, removed + AddedEntries(doc, ids, added))
    ensures forall k :: 0 <= k < |added| ==> AddedEntries(doc, ids, added)[k].Added?
  {
    Concat(removed, AddedEntries(doc, ids, added));
  }

  lemma {:induction false} Concat<T>(a: seq<T>, b: seq<T>)
    ensures |a + b| == |a| + |b|
    ensures forall i :: 0 <= i < |a| ==> (a + b)[i] == a[i]
    ensures forall k :: 0 <= k < |b| ==> (a + b)[|a| + k] == b[k]
  {
  }

  /** Removals followed by additions: no addition comes before a removal. */
  lemma {:induction false} RemovedThenAdded(removed: seq<JournalEntry>, adds: seq<JournalEntry>)
    requires forall i :: 0 <= i < |removed| ==> removed[i].Removed?
    requires forall k :: 0 <= k < |adds| ==> adds[k].Added?
    ensures RemovalsFirst(removed + adds)
  {
    Concat(removed, adds);
    var es := removed + adds;
    assert forall i :: 0 <= i < |removed| ==> es[i].Removed?;
    assert forall j :: |removed| <= j < |es| ==> es[j] == adds[j - |removed|];
  }

  // ---- onMutationObserved -------------------------------------------------------

  function AddedLists(records: seq<Record>): (r: seq<seq<NodeRef>>)
    ensures |r| == |records| && forall i :: 0 <= i < |records| ==> r[i] == records[i].addedNodes
  {
    seq(|records|, i requires 0 <= i < |records| => records[i].addedNodes)
  }

  function RemovedLists(records: seq<Record>): (r: seq<seq<Gone>>)
    ensures |r| == |records| && forall i :: 0 <= i < |records| ==> r[i] == records[i].removedNodes
  {
    seq(|records|, i requires 0 <= i < |records| => records[i].removedNodes)
  }

  /** The lists that are not empty, in order. */
  function NonEmpty<T>(lists: seq<seq<T>>): seq<seq<T>>
    decreases |lists|
  {
    if lists == [] then []
    else NonEmpty(lists[..|lists| - 1]) + (if lists[|lists| - 1] != [] then [lists[|lists| - 1]] else [])
  }

  /** The buffered lists after one more record. */
  lemma {:induction false} BufferStep(records: seq<Record>, i: nat)
    requires i < |records|
    ensures NonEmpty(AddedLists(records[..i + 1])) == NonEmpty(AddedLists(records[..i])) +
              (if records[i].addedNodes != [] then [records[i].addedNodes] else [])
    ensures NonEmpty(RemovedLists(records[..i + 1])) == NonEmpty(RemovedLists(records[..i])) +
              (if records[i].removedNodes != [] then [records[i].removedNodes] else [])
  {
    assert AddedLists(records[..i + 1])[..i] == AddedLists(records[..i]);
    assert RemovedLists(records[..i + 1])[..i] == RemovedLists(records[..i]);
  }

  function Flatten<T>(lists: seq<seq<T>>): seq<T>
    decreases |lists|
  {
    if lists == [] then [] else Flatten(lists[..|lists| - 1]) + lists[|lists| - 1]
  }

  /** Dropping the empty lists loses no node and keeps the order; what is kept is never empty. */
  lemma {:induction false} NonEmptyKeepsNodes<T>(lists: seq<seq<T>>)
    ensures Flatten(NonEmpty(lists)) == Flatten(lists)
    ensures forall l :: l in NonEmpty(lists) ==> l != []
    decreases |lists|
  {
    if lists != [] {
      var init := lists[..|lists| - 1];
      var last := lists[|lists| - 1];
      NonEmptyKeepsNodes(init);
      if last != [] {
        FlattenSnoc(NonEmpty(init), last);
      } else {
        assert NonEmpty(lists) == NonEmpty(init) + [] == NonEmpty(init);
        assert Flatten(lists) == Flatten(init) + last == Flatten(init);
      }
    }
  }

  lemma {:induction false} FlattenSnoc<T>(lists: seq<seq<T>>, l: seq<T>)
    ensures Flatten(lists + [l]) == Flatten(lists) + l
  {
    assert (lists + [l])[..|lists|] == lists;
  }
}

/**
 * The state of domLayout and the operations on it: node ids, the full layout
 * (getLayoutData, patchLayoutData), the journal of DOM mutations
 * (onMutationObserved, journalFromMutations, journalFromBranch) and the
 * getLayout / shutdown entry points.  Each page is given to an operation as
 * the Document it sees when the operation runs.
 */
module DomInspector {
  import opened Wrappers
  import opened Dom
  import opened Selectors
  import opened Layout
  import Radix

  /** patchLayoutData: fills in each node's descendant count, walking the layout backwards with a stack of counts. */
  method PatchLayoutData(layout: array<DomNode>)
    requires Leveled(layout[..])
    modifies layout
    ensures forall i :: 0 <= i < layout.Length ==> layout[i] == old(layout[i]).(cnt := layout[i].cnt)
    ensures var lv := Levels(old(layout[..]));
            Graded(lv) ==> forall i :: 0 <= i < layout.Length ==>
              layout[i].cnt == if Descendants(lv, i) > 0 then Descendants(lv, i) else old(layout[i].cnt)
  {
    ghost var before := layout[..];
    ghost var lv := Levels(before);
    var stack: seq<nat> := [];
    var ptr: int := -1;
    var lvl: nat := 0;
    var i := layout.Length;
    while i > 0
      invariant 0 <= i <= layout.Length && ptr == lvl - 1
      invariant PatchInv(lv, i, before, layout[..], stack, lvl)
    {
      i := i - 1;
      var node := layout[i];
      LevelAt(lv, i, before, layout[..], stack, lvl);
      var level := node.lvl.value;
      if level == lvl {
        ghost var low := stack;
        // stack[ptr] += 1; before any push ptr is undefined and names no slot of the array
        if ptr >= 0 {
          stack := stack[ptr := stack[ptr] + 1];
        }
        SameLevel(lv, i, before, layout[..], low, stack);
      } else if level > lvl {
        ghost var low := stack;
        while lvl < level
          invariant |stack| == lvl <= level
          invariant stack == low + Zeros(lvl - |low|)
        {
          stack := stack + [0];
          lvl := lvl + 1;
        }
        ptr := lvl - 1;
        stack := stack[ptr := stack[ptr] + 1];
        Deeper(lv, i, before, layout[..], low, stack);
      } else {
        ghost var high := stack;
        ghost var current := layout[..];
        var cnt := stack[|stack| - 1];
        stack := stack[..|stack| - 1];
        layout[i] := node.(cnt := cnt);
        lvl := lvl - 1;
        ptr := lvl - 1;
        if ptr >= 0 {
          stack := stack[ptr := stack[ptr] + cnt + 1];
        }
        Shallower(lv, i, before, current, high, stack);
      }
    }
  }

  /**
   * After entries i.. are read: only counts have changed, none before i, and
   * (for a graded layout) each entry from i on with descendants holds their count.
   */
  ghost predicate Patched(lv: seq<nat>, i: nat, before: seq<DomNode>, after: seq<DomNode>) {
    |after| == |before| == |lv| && i <= |lv| &&
    (forall j :: 0 <= j < |after| ==> after[j] == before[j].(cnt := after[j].cnt)) &&
    (forall j :: 0 <= j < i ==> after[j] == before[j]) &&
    (Graded(lv) ==> forall j :: i <= j < |lv| ==>
       after[j].cnt == if Descendants(lv, j) > 0 then Descendants(lv, j) else before[j].cnt)
  }

  /** The stack of counts after entries i.. are read: slot k holds the run deeper than k that is not deeper than k + 1. */
  ghost predicate StackHolds(lv: seq<nat>, i: nat, stack: seq<nat>) {
    forall k :: 0 <= k < |stack| ==> stack[k] + Run(lv, i, k + 1) == Run(lv, i, k)
  }

  /** The loop invariant of patchLayoutData: the array so far, and (graded) the level and the stack of counts. */
  ghost predicate PatchInv(lv: seq<nat>, i: nat, before: seq<DomNode>, after: seq<DomNode>, stack: seq<nat>, lvl: nat) {
    Patched(lv, i, before, after) && |stack| == lvl &&
    (Graded(lv) ==> lvl == (if i < |lv| then lv[i] else 0) && StackHolds(lv, i, stack))
  }

  lemma {:induction false} LevelAt(lv: seq<nat>, i: nat, before: seq<DomNode>, after: seq<DomNode>, stack: seq<nat>, lvl: nat)
    requires i < |lv| && PatchInv(lv, i + 1, before, after, stack, lvl) && Leveled(before) && lv == Levels(before)
    ensures after[i] == before[i] && after[i].lvl == Some(lv[i])
  {
  }

  function Zeros(n: nat): (z: seq<nat>)
    ensures |z| == n && forall k :: 0 <= k < n ==> z[k] == 0
  {
    seq(n, k => 0)
  }

  /** An entry at the current level adds itself to the innermost count and has no descendants. */
  lemma {:induction false} SameLevel(lv: seq<nat>, i: nat, before: seq<DomNode>, after: seq<DomNode>, low: seq<nat>, stack: seq<nat>)
    requires i < |lv| && PatchInv(lv, i + 1, before, after, low, lv[i])
    requires stack == if |low| >= 1 then low[|low| - 1 := low[|low| - 1] + 1] else low
    ensures PatchInv(lv, i, before, after, stack, lv[i])
  {
    if Graded(lv) {
      assert Run(lv, i + 1, lv[i]) == 0;
      forall k | 0 <= k < |stack|
        ensures stack[k] + Run(lv, i, k + 1) == Run(lv, i, k)
      {
        assert Run(lv, i, k) == 1 + Run(lv, i + 1, k);
        assert low[k] + Run(lv, i + 1, k + 1) == Run(lv, i + 1, k);
      }
    }
  }

  /** An entry deeper than the current level opens new counts, the innermost holding it alone; it has no descendants. */
  lemma {:induction false} Deeper(lv: seq<nat>, i: nat, before: seq<DomNode>, after: seq<DomNode>, low: seq<nat>, stack: seq<nat>)
    requires i < |lv| && |low| < lv[i] && PatchInv(lv, i + 1, before, after, low, |low|)
    requires var mid := low + Zeros(lv[i] - |low|); stack == mid[lv[i] - 1 := mid[lv[i] - 1] + 1]
    ensures PatchInv(lv, i, before, after, stack, lv[i])
  {
    if Graded(lv) {
      forall k | 0 <= k < |stack|
        ensures stack[k] + Run(lv, i, k + 1) == Run(lv, i, k)
      {
        assert Run(lv, i, k) == 1 + Run(lv, i + 1, k);
        if k < |low| {
          assert stack[k] == low[k];
        }
      }
    }
  }

  /**
   * An entry above the current level closes the innermost count, which (graded)
   * is its descendant count, stores it, and adds it with the entry to the next.
   */
  lemma {:induction false} Shallower(lv: seq<nat>, i: nat, before: seq<DomNode>, after: seq<DomNode>, high: seq<nat>, stack: seq<nat>)
    requires i < |lv| && lv[i] < |high| && PatchInv(lv, i + 1, before, after, high, |high|)
    requires var s := high[..|high| - 1]; stack == if |s| >= 1 then s[|s| - 1 := s[|s| - 1] + high[|high| - 1] + 1] else s
    ensures PatchInv(lv, i, before, after[i := after[i].(cnt := high[|high| - 1])], stack, |high| - 1)
  {
    if Graded(lv) {
      assert i + 1 < |lv|;
      assert lv[i + 1] <= lv[i] + 1;
      assert Run(lv, i + 1, lv[i] + 1) == 0;
      forall k | 0 <= k < |stack|
        ensures stack[k] + Run(lv, i, k + 1) == Run(lv, i, k)
      {
        assert Run(lv, i, k) == 1 + Run(lv, i + 1, k);
      }
    }
  }

  /** The stack of getLayoutData at a node: its ancestors from document.body (or body's sibling) down. */
  function Ancestors(p: Path): (r: seq<Path>)
    requires |p| >= 2
    ensures |r| == |p| - 2 && forall k :: 0 <= k < |r| ==> r[k] == p[..k + 2]
  {
    seq(|p| - 2, k requires 0 <= k < |p| - 2 => p[..k + 2])
  }

  /** Going down to a child pushes the node. */
  lemma {:induction false} AncestorsDown(p: Path)
    requires |p| >= 2
    ensures Ancestors(p + [0]) == Ancestors(p) + [p]
  {
    var a := Ancestors(p + [0]);
    assert (p + [0])[..|p|] == p;
    forall k | 0 <= k < |a|
      ensures a[k] == (Ancestors(p) + [p])[k]
    {
      if k < |p| - 2 {
        assert (p + [0])[..k + 2] == p[..k + 2];
      }
    }
  }

  /** Going across to a later sibling keeps the stack. */
  lemma {:induction false} AncestorsAcross(p: Path, x: nat)
    requires |p| >= 2
    ensures Ancestors(Parent(p) + [x]) == Ancestors(p)
  {
    var q := Parent(p) + [x];
    forall k | 0 <= k < |p| - 2
      ensures Ancestors(q)[k] == Ancestors(p)[k]
    {
      assert q[..k + 2] == Parent(p)[..k + 2] == p[..k + 2];
    }
  }

  /** Popping the stack gives the parent and the parent's stack. */
  lemma {:induction false} AncestorsUp(p: Path)
    requires |p| > 2
    ensures Ancestors(p)[|p| - 3] == Parent(p) && Ancestors(Parent(p)) == Ancestors(p)[..|p| - 3]
  {
    var a := Ancestors(Parent(p));
    forall k | 0 <= k < |a|
      ensures a[k] == Ancestors(p)[k]
    {
      assert Parent(p)[..k + 2] == p[..k + 2];
    }
  }

  /**
   * The climb of getLayoutData after a node without children: pop ancestors
   * until one has a next sibling, and go there; None when the stack runs out.
   */
  method ClimbToSibling(doc: Document, node: Path, stack: seq<Path>, lvl: nat)
    returns (next: Option<Path>, stack': seq<Path>, lvl': nat)
    requires ValidPath(doc, node) && |node| >= 2 && lvl == |node| - 2 && stack == Ancestors(node)
    ensures next == NextUp(doc, node, 2)
    ensures next.Some? ==> lvl' == |next.value| - 2 && stack' == Ancestors(next.value)
  {
    var cur := node;
    stack' := stack;
    lvl' := lvl;
    while NextSibling(doc, cur).None? && stack' != []
      invariant ValidPath(doc, cur) && |cur| >= 2 && lvl' == |cur| - 2 && stack' == Ancestors(cur)
      invariant NextUp(doc, cur, 2) == NextUp(doc, node, 2)
      decreases |stack'|
    {
      AncestorsUp(cur);
      ParentPath(doc, cur);
      cur := stack'[|stack'| - 1];
      stack' := stack'[..|stack'| - 1];
      lvl' := lvl' - 1;
    }
    next := NextSibling(doc, cur);
    if next.Some? {
      AncestorsAcross(cur, Last(cur) + 1);
    }
  }

  /** The step of journalFromBranch after a node: down to the first child, else right to the next sibling, else up then right. */
  method NextInBranch(doc: Document, root: Path, p: Path) returns (next: Option<Path>)
    requires ValidPath(doc, root) && ValidPath(doc, p) && |root| + 1 <= |p| && p[..|root|] == root
    ensures next == WalkNext(doc, p, |root| + 1)
  {
    next := FirstChild(doc, p);
    if next.Some? {
      return;
    }
    next := NextSibling(doc, p);
    if next.Some? {
      return;
    }
    next := ClimbInBranch(doc, root, p);
  }

  /**
   * The climb of journalFromBranch from a node without a next sibling: up
   * through the parents, stopping at root's children, to the first that has
   * a next sibling.
   */
  method ClimbInBranch(doc: Document, root: Path, node: Path) returns (next: Option<Path>)
    requires ValidPath(doc, root) && ValidPath(doc, node)
    requires |root| + 1 <= |node| && node[..|root|] == root && NextSibling(doc, node).None?
    ensures next == NextUp(doc, node, |root| + 1)
  {
    var cur := node;
    while true
      invariant ValidPath(doc, cur) && |root| + 1 <= |cur| && cur[..|root|] == root && NextSibling(doc, cur).None?
      invariant NextUp(doc, cur, |root| + 1) == NextUp(doc, node, |root| + 1)
      decreases |cur|
    {
      if ParentElement(doc, cur) == Some(root) {
        return None;
      }
      ParentPath(doc, cur);
      assert Parent(cur)[..|root|] == cur[..|root|];
      cur := Parent(cur);
      next := NextSibling(doc, cur);
      if next.Some? {
        return;
      }
    }
  }

  /** What getLayout sends back with a layout: everything, the journal since the last call, or nothing new. */
  datatype Status = Full(layout: seq<DomNode>) | Incremental(journal: seq<JournalEntry>, nodes: map<string, DomNode>) | NoChange

  /** getLayout's response: the fingerprint it answers for and the status. */
  datatype Response = Response(fingerprint: string, status: Status)

  /**
   * domLayout: the id counter and the node-to-id map, the mutation observer and
   * its debounce timer (as flags), and the buffers of the journal.
   */
  class DomLayout {
    /** vAPI.sessionId, which domFingerprint returns. */
    const session: string
    /** nodeToCosmeticFilterMap, built once when domLayout is set up. */
    const filters: map<Key, string>
    var idGenerator: nat
    var nodeToIdMap: map<Key, string>
    /** mutationObserver !== null */
    var observing: bool
    /** mutationTimer !== null */
    var timerPending: bool
    var addedNodelists: seq<seq<NodeRef>>
    var removedNodelist: seq<seq<Gone>>
    var journalEntries: seq<JournalEntry>
    var journalNodes: map<string, DomNode>

    function Setup(): Env {
      Env(session, filters)
    }

    function IdState(): Ids
      reads this`idGenerator, this`nodeToIdMap
    {
      Ids(idGenerator, nodeToIdMap)
    }

    /**
     * Every id the map holds was handed out by the counter, the journal's
     * table holds each node under its own id, and without an observer there
     * is no timer and nothing buffered.
     */
    ghost predicate Valid()
      reads this
    {
      IdsIssued(IdState()) &&
      (forall nid :: nid in journalNodes ==> journalNodes[nid].nid == nid) &&
      (!observing ==> !timerPending && addedNodelists == [] && removedNodelist == [] &&
                      journalEntries == [] && journalNodes == map[])
    }

    constructor (session: string, filters: map<Key, string>)
      ensures Valid() && this.session == session && this.filters == filters
      ensures idGenerator == 0 && nodeToIdMap == map[] && !observing
    {
      this.session := session;
      this.filters := filters;
      idGenerator := 0;
      nodeToIdMap := map[];
      observing := false;
      timerPending := false;
      addedNodelists := [];
      removedNodelist := [];
      journalEntries := [];
      journalNodes := map[];
    }

    /** newNodeId: 'n' and the counter in base 36, bound to the node; the counter moves on. */
    method NewNodeId(key: Key) returns (nid: string)
      modifies this`idGenerator, this`nodeToIdMap
      ensures (nid, IdState()) == Mint(old(IdState()), key)
      ensures nid !in Issued(old(idGenerator)) && nid in Issued(idGenerator)
    {
      NidFresh(idGenerator);
      nid := "n" + Radix.ToRadix(idGenerator, 36);
      nodeToIdMap := nodeToIdMap[key := nid];
      idGenerator := idGenerator + 1;
    }

    /**
     * getLayoutData: from document.body, down first children and across next
     * siblings, climbing back through a stack of ancestors, collecting what
     * the factory makes.  An exception from the factory ends the walk.
     */
    method GetLayoutData(doc: Document) returns (r: Result<seq<DomNode>, SelectorError>)
      requires WellFormed(doc)
      modifies this`idGenerator, this`nodeToIdMap
      ensures var pass := LayoutPass(Setup(), doc, old(IdState()));
              IdState() == pass.ids &&
              r == if pass.error.Some? then Failure(pass.error.value) else Success(Nodes(pass.made))
    {
      ghost var start := IdState();
      ghost var w := LayoutWalk(doc);
      ghost var done: seq<Path> := [];
      var layout: seq<DomNode> := [];
      var stack: seq<Path> := [];
      var node := Body(doc);
      var lvl: nat := 0;
      var walking := true;
      while walking
        invariant Progress(Setup(), doc, start, done, IdState(), layout)
        invariant walking ==> ValidPath(doc, node) && |node| >= 2 && lvl == |node| - 2 && stack == Ancestors(node) &&
                              done + Rest(doc, node, 2) == w
        invariant !walking ==> done == w
        decreases |w| - |done|
      {
        ghost var ids := IdState();
        var o := DomNodeFactory(doc, Some(lvl), node);
        LayoutProgress(Setup(), doc, start, done, layout, node, ids, o, IdState());
        done := done + [node];
        if o.Threw? {
          return Failure(o.error);
        }
        layout := layout + (if o.Built? then [o.node] else []);
        var child := FirstChild(doc, node);
        if child.Some? {
          AncestorsDown(node);
          stack := stack + [node];
          lvl := lvl + 1;
          node := child.value;
        } else {
          NextUpSpec(doc, node, 2);
          var next;
          next, stack, lvl := ClimbToSibling(doc, node, stack, lvl);
          if next.None? {
            walking := false;
          } else {
            node := next.value;
          }
        }
      }
      LayoutDone(Setup(), doc, start, IdState(), layout);
      return Success(layout);
    }

    /**
     * previousElementSiblingId: back over the earlier siblings, past the
     * skipped tags, to the first one left; its entry in nodeToIdMap.
     */
    method PreviousElementSiblingId(doc: Document, p: Path) returns (r: Prev)
      requires ValidPath(doc, p)
      ensures r == PrevSiblingId(doc, nodeToIdMap, p)
    {
      ghost var cs: seq<Elem> := [];
      if |p| >= 2 {
        ParentPath(doc, p);
        cs := At(doc, Parent(p)).children;
      }
      var sibling := p;
      while true
        invariant ValidPath(doc, sibling) && |sibling| == |p|
        invariant |p| < 2 ==> sibling == p
        invariant |p| >= 2 ==> sibling == Parent(p) + [Last(sibling)] && Last(sibling) <= Last(p) < |cs| &&
                               cs == At(doc, Parent(p)).children &&
                               NearestKept(cs, Last(sibling)) == NearestKept(cs, Last(p))
        decreases if |sibling| >= 2 then Last(sibling) else 0
      {
        var prev := PrevSibling(doc, sibling);
        if prev.None? {
          return NoSibling;
        }
        ChildPath(doc, Parent(p), Last(sibling) - 1);
        sibling := prev.value;
        if At(doc, sibling).tag in SkipTagNames {
          continue;
        }
        return Sibling(Lookup(nodeToIdMap, At(doc, sibling).key));
      }
    }

    /**
     * journalFromBranch: the descendants of root in document order, each
     * passed to the factory with an undefined level; what it makes goes into
     * journalNodes and its element onto `added`.  An exception ends the walk.
     */
    method JournalFromBranch(doc: Document, root: Path, added: seq<Path>) returns (more: seq<Path>, err: Option<SelectorError>)
      requires WellFormed(doc) && ValidPath(doc, root)
      modifies this`idGenerator, this`nodeToIdMap, this`journalNodes
      ensures JournalAfter(Setup(), doc, old(IdState()), old(journalNodes), added, BranchWalk(doc, root),
                           IdState(), journalNodes, more, err)
    {
      ghost var start := IdState();
      ghost var nodes0 := journalNodes;
      ghost var done: seq<Path> := [];
      more := added;
      var node := FirstChild(doc, root);
      BranchStart(Setup(), doc, root, start, nodes0, added);
      while node.Some?
        invariant BranchState(Setup(), doc, root, start, nodes0, added, done, IdState(), journalNodes, more, node)
        decreases |BranchWalk(doc, root)| - |done|
      {
        var p := node.value;
        ghost var ids := IdState();
        ghost var nodes := journalNodes;
        ghost var before := more;
        var o := DomNodeFactory(doc, None, p);
        BranchVisit(Setup(), doc, root, start, nodes0, added, done, p, ids, nodes, before, o, IdState());
        if o.Threw? {
          return more, Some(o.error);
        }
        done := done + [p];
        journalNodes := if o.Built? then journalNodes[o.node.nid := o.node] else journalNodes;
        more := if o.Built? then more + [p] else more;
        node := NextInBranch(doc, root, p);
      }
      err := None;
    }

    /**
     * One list of addedNodelists in journalFromMutations: each element that
     * still has a parent goes to the factory, then its branch to
     * journalFromBranch; text and comment nodes are passed over.
     */
    method JournalFromList(doc: Document, list: seq<NodeRef>, added: seq<Path>) returns (more: seq<Path>, err: Option<SelectorError>)
      requires WellFormed(doc) && RefsIn(doc, list)
      modifies this`idGenerator, this`nodeToIdMap, this`journalNodes
      ensures JournalAfter(Setup(), doc, old(IdState()), old(journalNodes), added, ListWalk(doc, list),
                           IdState(), journalNodes, more, err)
    {
      ghost var start := IdState();
      ghost var nodes0 := journalNodes;
      more := added;
      for j := 0 to |list|
        invariant JournalAfter(Setup(), doc, start, nodes0, added, ListWalk(doc, list[..j]), IdState(), journalNodes, more, None)
      {
        var n := list[j];
        if n.Other? {
          ListSkip(doc, list, j);
          continue;
        }
        if ParentElement(doc, n.path).None? {
          ListSkip(doc, list, j);
          continue;
        }
        ghost var ids := IdState();
        ghost var nodes := journalNodes;
        ghost var before := more;
        var o := DomNodeFactory(doc, None, n.path);
        ListNode(Setup(), doc, list, j, start, nodes0, added, ids, nodes, before, o, IdState());
        if o.Threw? {
          return more, Some(o.error);
        }
        journalNodes := if o.Built? then journalNodes[o.node.nid := o.node] else journalNodes;
        more := if o.Built? then more + [n.path] else more;
        ghost var ids1 := IdState();
        ghost var nodes1 := journalNodes;
        ghost var added1 := more;
        var e;
        more, e := JournalFromBranch(doc, n.path, more);
        ListBranch(Setup(), doc, list, j, start, nodes0, added, ids1, nodes1, added1, IdState(), journalNodes, more, e);
        if e.Some? {
          return more, e;
        }
      }
      assert list[..|list|] == list;
      err := None;
    }

    /**
     * journalFromMutations, run by the debounce timer: mint ids for what the
     * added lists bring, then journal the removed elements that had an id,
     * then the added elements with their parents' and previous siblings'
     * ids.  Without an observer it only drops the buffers.  An exception from
     * the factory ends it with the buffers still in place.
     */
    method JournalFromMutations(doc: Document) returns (err: Option<SelectorError>)
      requires Valid() && WellFormed(doc) && ListsIn(doc, addedNodelists)
      modifies this`idGenerator, this`nodeToIdMap, this`timerPending, this`addedNodelists, this`removedNodelist,
               this`journalEntries, this`journalNodes
      ensures Valid() && !timerPending
      ensures !old(observing) ==>
                err.None? && addedNodelists == [] && removedNodelist == [] && IdState() == old(IdState()) &&
                journalEntries == old(journalEntries) && journalNodes == old(journalNodes)
      ensures old(observing) ==>
                var pass := JournalPass(Setup(), doc, old(IdState()), old(addedNodelists));
                IdState() == pass.ids && err == pass.error && journalNodes == WithNodes(old(journalNodes), pass.made) &&
                (err.Some? ==> addedNodelists == old(addedNodelists) && removedNodelist == old(removedNodelist) &&
                               journalEntries == old(journalEntries)) &&
                (err.None? ==> addedNodelists == [] && removedNodelist == [] &&
                               journalEntries == old(journalEntries) + RemovedEntries(nodeToIdMap, old(removedNodelist)) +
                                                 AddedEntries(doc, nodeToIdMap, Paths(pass.made)))
    {
      timerPending := false;
      if !observing {
        addedNodelists := [];
        removedNodelist := [];
        return None;
      }
      ghost var start := IdState();
      ghost var pass := JournalPass(Setup(), doc, start, addedNodelists);
      ghost var nodes0 := journalNodes;
      var added, e := JournalMint(doc, addedNodelists);
      JournalKeepsValid(Setup(), doc, start, nodes0, [], JournalWalk(doc, addedNodelists), IdState(), journalNodes, added, e);
      assert IdState() == pass.ids && e == pass.error && journalNodes == WithNodes(nodes0, pass.made) && added == Paths(pass.made);
      if e.Some? {
        return e;
      }
      JournalEmit(doc, added);
      err := None;
    }

    /** The end of journalFromMutations once every added node has its id: clear the buffers, then -1 entries, then 1 entries. */
    method JournalEmit(doc: Document, added: seq<Path>)
      requires AllValid(doc, added)
      modifies this`addedNodelists, this`removedNodelist, this`journalEntries
      ensures addedNodelists == [] && removedNodelist == []
      ensures journalEntries == old(journalEntries) + RemovedEntries(nodeToIdMap, old(removedNodelist)) +
                                AddedEntries(doc, nodeToIdMap, added)
    {
      addedNodelists := [];
      JournalRemoved(removedNodelist);
      removedNodelist := [];
      JournalAdded(doc, added);
    }

    /** The added part of journalFromMutations: each list of addedNodelists in turn. */
    method JournalMint(doc: Document, lists: seq<seq<NodeRef>>) returns (added: seq<Path>, err: Option<SelectorError>)
      requires WellFormed(doc) && ListsIn(doc, lists)
      modifies this`idGenerator, this`nodeToIdMap, this`journalNodes
      ensures JournalAfter(Setup(), doc, old(IdState()), old(journalNodes), [], JournalWalk(doc, lists),
                           IdState(), journalNodes, added, err)
    {
      ghost var start := IdState();
      ghost var nodes0 := journalNodes;
      added := [];
      for i := 0 to |lists|
        invariant JournalAfter(Setup(), doc, start, nodes0, [], JournalWalk(doc, lists[..i]), IdState(), journalNodes, added, None)
      {
        ghost var ids1 := IdState();
        ghost var nodes1 := journalNodes;
        ghost var added1 := added;
        var e;
        added, e := JournalFromList(doc, lists[i], added);
        ListsStep(Setup(), doc, lists, i, start, nodes0, [], ids1, nodes1, added1, IdState(), journalNodes, added, e);
        if e.Some? {
          return added, e;
        }
      }
      assert lists[..|lists|] == lists;
      err := None;
    }

    /** The removed part of journalFromMutations: a -1 entry for each removed element nodeToIdMap has an id for. */
    method JournalRemoved(lists: seq<seq<Gone>>)
      modifies this`journalEntries
      ensures journalEntries == old(journalEntries) + RemovedEntries(nodeToIdMap, lists)
    {
      for i := 0 to |lists|
        invariant journalEntries == old(journalEntries) + RemovedEntries(nodeToIdMap, lists[..i])
      {
        JournalRemovedIn(lists[i]);
        assert lists[..i + 1][..i] == lists[..i];
        assert RemovedEntries(nodeToIdMap, lists[..i + 1]) == RemovedEntries(nodeToIdMap, lists[..i]) + RemovedIn(nodeToIdMap, lists[i]);
        Associative(old(journalEntries), RemovedEntries(nodeToIdMap, lists[..i]), RemovedIn(nodeToIdMap, lists[i]));
      }
      assert lists[..|lists|] == lists;
    }

    /** One list of removed nodes: a -1 entry for each element that has an id. */
    method JournalRemovedIn(list: seq<Gone>)
      modifies this`journalEntries
      ensures journalEntries == old(journalEntries) + RemovedIn(nodeToIdMap, list)
    {
      for j := 0 to |list|
        invariant journalEntries == old(journalEntries) + RemovedIn(nodeToIdMap, list[..j])
      {
        RemovedInStep(nodeToIdMap, list, j);
        var n := list[j];
        if n.GoneOther? {
          continue;
        }
        var nid := Lookup(nodeToIdMap, n.key);
        if nid.None? {
          continue;
        }
        journalEntries := journalEntries + [Removed(nid.value)];
      }
      assert list[..|list|] == list;
    }

    /** The added part of journalFromMutations: a 1 entry for each added element, with the ids around it. */
    method JournalAdded(doc: Document, added: seq<Path>)
      requires AllValid(doc, added)
      modifies this`journalEntries
      ensures journalEntries == old(journalEntries) + AddedEntries(doc, nodeToIdMap, added)
    {
      for k := 0 to |added|
        invariant journalEntries == old(journalEntries) + AddedEntries(doc, nodeToIdMap, added[..k])
      {
        var node := added[k];
        var u := ParentElement(doc, node);
        var parent := if u.Some? then Lookup(nodeToIdMap, At(doc, u.value).key) else None;
        var l := PreviousElementSiblingId(doc, node);
        journalEntries := journalEntries + [Added(Lookup(nodeToIdMap, At(doc, node).key), parent, l)];
        assert AddedEntries(doc, nodeToIdMap, added[..k + 1]) == AddedEntries(doc, nodeToIdMap, added[..k]) + [AddedEntry(doc, nodeToIdMap, node)];
      }
      assert added[..|added|] == added;
    }

    /**
     * patchLayoutData(getLayoutData()): the nodes of the layout walk, in
     * order, each with its descendant count filled in.
     */
    method FullLayout(doc: Document) returns (r: Result<seq<DomNode>, SelectorError>)
      requires WellFormed(doc)
      modifies this`idGenerator, this`nodeToIdMap
      ensures var pass := LayoutPass(Setup(), doc, old(IdState()));
              IdState() == pass.ids && (r.Failure? <==> pass.error.Some?) &&
              (r.Failure? ==> pass.error == Some(r.error)) &&
              (r.Success? ==> FullLayoutOf(doc, session, pass.made, r.value))
    {
      ghost var start := IdState();
      var data := GetLayoutData(doc);
      if data.Failure? {
        return Failure(data.error);
      }
      var nodes := data.value;
      LayoutShape(Setup(), doc, start);
      var layout := new DomNode[|nodes|](i requires 0 <= i < |nodes| => nodes[i]);
      assert layout[..] == nodes;
      PatchLayoutData(layout);
      ghost var lv := Levels(nodes);
      assert Leveled(layout[..]) && Levels(layout[..]) == lv;
      return Success(layout[..]);
    }

    /** shutdown (and reset): no observer, no timer, empty buffers and journal, a new nodeToIdMap; the counter goes on. */
    method Shutdown()
      modifies this`nodeToIdMap, this`observing, this`timerPending, this`addedNodelists, this`removedNodelist,
               this`journalEntries, this`journalNodes
      ensures Valid() && !observing && nodeToIdMap == map[]
    {
      if timerPending {
        timerPending := false;
      }
      if observing {
        observing := false;
      }
      addedNodelists := [];
      removedNodelist := [];
      journalEntries := [];
      journalNodes := map[];
      nodeToIdMap := map[];
    }

    /** onMutationObserved: buffer the records' non-empty added and removed lists, and arm the timer. */
    method OnMutationObserved(records: seq<Record>)
      requires Valid() && observing
      modifies this`addedNodelists, this`removedNodelist, this`timerPending
      ensures Valid() && timerPending
      ensures addedNodelists == old(addedNodelists) + NonEmpty(AddedLists(records))
      ensures removedNodelist == old(removedNodelist) + NonEmpty(RemovedLists(records))
    {
      BufferRecords(records);
      if !timerPending {
        timerPending := true;
      }
    }

    /** The loop of onMutationObserved over the records. */
    method BufferRecords(records: seq<Record>)
      modifies this`addedNodelists, this`removedNodelist
      ensures addedNodelists == old(addedNodelists) + NonEmpty(AddedLists(records))
      ensures removedNodelist == old(removedNodelist) + NonEmpty(RemovedLists(records))
    {
      for i := 0 to |records|
        invariant addedNodelists == old(addedNodelists) + NonEmpty(AddedLists(records[..i]))
        invariant removedNodelist == old(removedNodelist) + NonEmpty(RemovedLists(records[..i]))
      {
        var record := records[i];
        BufferStep(records, i);
        if record.addedNodes != [] {
          addedNodelists := addedNodelists + [record.addedNodes];
        }
        if record.removedNodes != [] {
          removedNodelist := removedNodelist + [record.removedNodes];
        }
      }
      assert records[..|records|] == records;
    }

    /**
     * getLayout: a fingerprint other than the session's resets everything
     * first.  Without an observer, start observing and send the full layout;
     * otherwise send the journal and clear it, or report no change.
     */
    method GetLayout(doc: Document, fingerprint: string) returns (r: Result<Response, SelectorError>)
      requires Valid() && WellFormed(doc)
      modifies this`idGenerator, this`nodeToIdMap, this`observing, this`timerPending, this`addedNodelists,
               this`removedNodelist, this`journalEntries, this`journalNodes
      ensures Valid() && observing
      ensures r.Success? ==> r.value.fingerprint == session
      ensures fingerprint != session || !old(observing) ==>
                var pass := LayoutPass(Setup(), doc, if fingerprint != session then Ids(old(idGenerator), map[]) else old(IdState()));
                IdState() == pass.ids && (r.Failure? <==> pass.error.Some?) &&
                (r.Success? ==> r.value.status.Full? && FullLayoutOf(doc, session, pass.made, r.value.status.layout)) &&
                !timerPending && addedNodelists == [] && removedNodelist == [] && journalEntries == [] && journalNodes == map[]
      ensures fingerprint == session && old(observing) ==>
                IdState() == old(IdState()) && timerPending == old(timerPending) &&
                addedNodelists == old(addedNodelists) && removedNodelist == old(removedNodelist) &&
                if old(journalEntries) != [] then
                  r == Success(Response(session, Incremental(old(journalEntries), old(journalNodes)))) &&
                  journalEntries == [] && journalNodes == map[]
                else
                  r == Success(Response(session, NoChange)) && journalNodes == old(journalNodes) && journalEntries == []
    {
      if fingerprint != session {
        Shutdown();
      }
      if !observing {
        observing := true;
        ContinueIssued(Setup(), doc, false, Pass(IdState(), [], None), LayoutWalk(doc));
        var layout := FullLayout(doc);
        if layout.Failure? {
          return Failure(layout.error);
        }
        return Success(Response(session, Full(layout.value)));
      }
      if journalEntries != [] {
        r := Success(Response(session, Incremental(journalEntries, journalNodes)));
        journalEntries := [];
        journalNodes := map[];
        return;
      }
      return Success(Response(session, NoChange));
    }

    /** domNodeFactory: null (Skip) for a skipped node, else a fresh id and a DomRoot or a DomNode. */
    method DomNodeFactory(doc: Document, level: Option<nat>, p: Path) returns (o: Outcome)
      requires WellFormed(doc) && ValidPath(doc, p)
      modifies this`idGenerator, this`nodeToIdMap
      ensures (o, IdState()) == Factory(Setup(), doc, old(IdState()), level, p)
    {
      var e := At(doc, p);
      if e.tag in SkipTagNames {
        return Skip;
      }
      if session in e.classes {
        return Skip;
      }
      if level == Some(0) && e.tag == "body" {
        var nid := NewNodeId(At(doc, Body(doc)).key);
        return Built(DomNode(nid, Some(0), "body", 0, Lookup(filters, At(doc, Body(doc)).key)));
      }
      var nid := NewNodeId(e.key);
      var sel := SelectorFromNode(e);
      if sel.Failure? {
        return Threw(sel.error);
      }
      return Built(DomNode(nid, level, sel.value, 0, Lookup(filters, e.key)));
    }
  }
}

/**
 * The toggle records of the inspector: toggleNodes hides or reveals nodes by
 * writing their inline `display` declaration and remembers what it found in
 * toggledNodes, resetToggledNodes puts the remembered declarations back, and
 * forgetToggledNodes drops the records.  Restoring takes a `fixed` flag: false
 * is the restore branch as the script writes it, true the one it evidently
 * means (see the README's findings).
 */
module Toggles {
  import opened Wrappers
  import Dom

  /** An inline `display` declaration: its value and whether it is !important. */
  datatype Display = Display(value: string, important: bool)

  /** The inline `display` declaration of every element; a missing key has none. */
  type Styles = map<Dom.Key, Display>

  /** toggledNodes: per node, the display value it had (None for the script's null). */
  type Records = map<Dom.Key, Option<string>>

  datatype State = State(styles: Styles, records: Records)

  /** The declaration of node k, if any. */
  function DisplayOf(styles: Styles, k: Dom.Key): Option<Display> {
    if k in styles then Some(styles[k]) else None
  }

  /** A style sheet never holds a declaration with an empty value, and a record is never the empty string. */
  predicate Consistent(st: State) {
    (forall k :: k in st.styles ==> st.styles[k].value != []) &&
    (forall k :: k in st.records && st.records[k].Some? ==> st.records[k].value != [])
  }

  /**
   * style.setProperty('display', value, priority): an empty value removes the
   * declaration (CSSOM, "setProperty"), any other replaces it, priority
   * included.
   */
  function SetProperty(styles: Styles, k: Dom.Key, value: string, important: bool): (r: Styles)
    ensures DisplayOf(r, k) == (if value == [] then None else Some(Display(value, important)))
    ensures r - {k} == styles - {k}
  {
    if value == [] then styles - {k} else styles[k := Display(value, important)]
  }

  /** style.removeProperty('display'). */
  function RemoveProperty(styles: Styles, k: Dom.Key): (r: Styles)
    ensures DisplayOf(r, k).None?
    ensures r - {k} == styles - {k}
  {
    styles - {k}
  }

  /** `style.getPropertyValue('display') || null`: the value, or None when there is no declaration. */
  function SavedDisplay(styles: Styles, k: Dom.Key): (v: Option<string>)
    requires Consistent(State(styles, map[]))
    ensures v.Some? <==> DisplayOf(styles, k).Some?
    ensures v.Some? ==> v.value == styles[k].value && v.value != []
  {
    if k in styles && styles[k].value != [] then Some(styles[k].value) else None
  }

  /**
   * The restore branch as written: removeProperty when a value was saved, and
   * setProperty('display', null) when none was, where null becomes the empty
   * string (WebIDL [LegacyNullToEmptyString]) and so removes the declaration too.
   */
  function RestoreAsWritten(styles: Styles, k: Dom.Key, saved: Option<string>): (r: Styles)
    ensures DisplayOf(r, k).None?
    ensures r - {k} == styles - {k}
  {
    match saved
    case Some(_) => RemoveProperty(styles, k)
    case None => SetProperty(styles, k, [], false)
  }

  /** The restore the branch means: put the saved value back, or remove the declaration when none was saved. */
  function RestoreFixed(styles: Styles, k: Dom.Key, saved: Option<string>): (r: Styles)
    ensures saved.Some? && saved.value != [] ==> DisplayOf(r, k) == Some(Display(saved.value, false))
    ensures saved.None? ==> DisplayOf(r, k).None?
    ensures r - {k} == styles - {k}
  {
    match saved
    case Some(v) => SetProperty(styles, k, v, false)
    case None => RemoveProperty(styles, k)
  }

  function Restore(styles: Styles, k: Dom.Key, saved: Option<string>, fixed: bool): Styles {
    if fixed then RestoreFixed(styles, k, saved) else RestoreAsWritten(styles, k, saved)
  }

  /**
   * One iteration of toggleNodes for node k:
   *   any, any:       restore what was saved and drop the record (nothing when there is none);
   *   any, hidden:    save the current value, set `display: none`;
   *   hidden, any:    save "none", set `display: initial !important`;
   *   hidden, hidden: drop the record, set `display: none !important`.
   */
  function ToggleOne(st: State, k: Dom.Key, original: bool, target: bool, fixed: bool): State
    requires Consistent(st)
  {
    if original && target then
      if k in st.records then State(Restore(st.styles, k, st.records[k], fixed), st.records - {k})
      else st
    else if original then
      State(SetProperty(st.styles, k, "none", false), st.records[k := SavedDisplay(st.styles, k)])
    else if target then
      State(SetProperty(st.styles, k, "initial", true), st.records[k := Some("none")])
    else
      State(SetProperty(st.styles, k, "none", true), st.records - {k})
  }

  /** toggleNodes over a list: the loop runs from the last node to the first. */
  function ToggleAll(st: State, nodes: seq<Dom.Key>, original: bool, target: bool, fixed: bool): (r: State)
    requires Consistent(st)
    ensures Consistent(r)
    decreases |nodes|
  {
    if nodes == [] then st
    else
      var mid := ToggleAll(st, nodes[1..], original, target, fixed);
      ToggleOneKeeps(mid, nodes[0], original, target, fixed);
      ToggleOne(mid, nodes[0], original, target, fixed)
  }

  /** What the declaration of k is after resetToggledNodes. */
  function RestoredAt(styles: Styles, records: Records, k: Dom.Key, fixed: bool): Option<Display> {
    if k in records then DisplayOf(Restore(styles, k, records[k], fixed), k) else DisplayOf(styles, k)
  }

  /** The declarations after resetToggledNodes: each recorded node restored, the others as they were. */
  function ResetStyles(styles: Styles, records: Records, fixed: bool): (r: Styles)
    requires Consistent(State(styles, records))
    ensures forall k :: DisplayOf(r, k) == RestoredAt(styles, records, k, fixed)
    ensures Consistent(State(r, map[]))
  {
    map k | k in styles.Keys + records.Keys && RestoredAt(styles, records, k, fixed).Some? ::
      RestoredAt(styles, records, k, fixed).value
  }

  /** Two style maps that give every node the same declaration are equal. */
  lemma {:induction false} SameDisplays(a: Styles, b: Styles)
    requires forall k :: DisplayOf(a, k) == DisplayOf(b, k)
    ensures a == b
  {
    forall k | k in a
      ensures k in b && a[k] == b[k]
    {
      assert DisplayOf(a, k) == DisplayOf(b, k);
    }
    forall k | k in b
      ensures k in a
    {
      assert DisplayOf(a, k) == DisplayOf(b, k);
    }
  }

  /** The declaration a hide-then-restore should leave: the original value, without its priority. */
  function Unprioritised(d: Option<Display>): Option<Display> {
    match d
    case None => None
    case Some(x) => Some(Display(x.value, false))
  }

  /** The declaration the three writing cases of toggleNodes leave on a node. */
  function Written(original: bool, target: bool): Display {
    if original then Display("none", false)
    else if target then Display("initial", true)
    else Display("none", true)
  }

  /** A toggle step touches node k and nothing else, and keeps the state well formed. */
  lemma {:induction false} ToggleOneKeeps(st: State, k: Dom.Key, original: bool, target: bool, fixed: bool)
    requires Consistent(st)
    ensures var r := ToggleOne(st, k, original, target, fixed);
            Consistent(r) && r.styles - {k} == st.styles - {k} && r.records - {k} == st.records - {k}
  {
    var r := ToggleOne(st, k, original, target, fixed);
    forall j | j in r.styles
      ensures r.styles[j].value != []
    {
      if j != k {
        assert j in r.styles - {k};
      }
    }
    forall j | j in r.records && r.records[j].Some?
      ensures r.records[j].value != []
    {
      if j != k {
        assert j in r.records - {k};
      }
    }
  }

  /**
   * Hiding a node and then restoring it gives back its declaration without
   * the priority, and forgets the record.
   */
  lemma {:induction false} HideThenRestore(st: State, k: Dom.Key)
    requires Consistent(st)
    ensures var h := ToggleOne(st, k, true, false, true);
            var r := ToggleOne(h, k, true, true, true);
            DisplayOf(r.styles, k) == Unprioritised(DisplayOf(st.styles, k)) &&
            r.styles - {k} == st.styles - {k} && r.records == st.records - {k}
  {
    var h := ToggleOne(st, k, true, false, true);
    ToggleOneKeeps(st, k, true, false, true);
    assert h.records[k] == SavedDisplay(st.styles, k);
    var r := ToggleOne(h, k, true, true, true);
    assert r.records == st.records - {k};
  }

  /** As written, the same round trip always leaves the node without an inline display. */
  lemma {:induction false} HideThenRestoreAsWritten(st: State, k: Dom.Key)
    requires Consistent(st)
    ensures var h := ToggleOne(st, k, true, false, false);
            var r := ToggleOne(h, k, true, true, false);
            DisplayOf(r.styles, k).None? && r.styles - {k} == st.styles - {k}
  {
    var h := ToggleOne(st, k, true, false, false);
    ToggleOneKeeps(st, k, true, false, false);
    assert k in h.records;
  }

  /** An element with an inline `display: flex` loses it on a hide-then-restore as written. */
  lemma {:induction false} AsWrittenLosesFlex()
    ensures var st := State(map[7 := Display("flex", false)], map[]);
            var r := ToggleOne(ToggleOne(st, 7, true, false, false), 7, true, true, false);
            DisplayOf(st.styles, 7) == Some(Display("flex", false)) && DisplayOf(r.styles, 7).None?
  {
    var st := State(map[7 := Display("flex", false)], map[]);
    HideThenRestoreAsWritten(st, 7);
  }

  /** Revealing a hidden node and restoring it leaves it hidden again, inline. */
  lemma {:induction false} ShowThenRestore(st: State, k: Dom.Key)
    requires Consistent(st)
    ensures var h := ToggleOne(st, k, false, true, true);
            var r := ToggleOne(h, k, true, true, true);
            DisplayOf(h.styles, k) == Some(Display("initial", true)) &&
            DisplayOf(r.styles, k) == Some(Display("none", false)) && r.records == st.records - {k}
  {
    var h := ToggleOne(st, k, false, true, true);
    assert h.records[k] == Some("none");
  }

  /**
   * The three writing cases of toggleNodes leave every listed node with the
   * case's declaration and every other node as it was.
   */
  lemma {:induction false} ToggleAllWrites(st: State, nodes: seq<Dom.Key>, original: bool, target: bool, fixed: bool)
    requires Consistent(st) && !(original && target)
    ensures forall k :: DisplayOf(ToggleAll(st, nodes, original, target, fixed).styles, k) ==
              if k in nodes then Some(Written(original, target)) else DisplayOf(st.styles, k)
    decreases |nodes|
  {
    if nodes != [] {
      var mid := ToggleAll(st, nodes[1..], original, target, fixed);
      ToggleAllWrites(st, nodes[1..], original, target, fixed);
      var r := ToggleOne(mid, nodes[0], original, target, fixed);
      assert ToggleAll(st, nodes, original, target, fixed) == r;
      forall k
        ensures DisplayOf(r.styles, k) == if k in nodes then Some(Written(original, target)) else DisplayOf(st.styles, k)
      {
        if k != nodes[0] {
          assert DisplayOf(r.styles, k) == DisplayOf(r.styles - {nodes[0]}, k);
          assert DisplayOf(mid.styles, k) == DisplayOf(mid.styles - {nodes[0]}, k);
          assert k in nodes <==> k in nodes[1..];
        }
      }
    }
  }

  /** No node occurs twice in the list, as in what querySelectorAll returns. */
  predicate Distinct(nodes: seq<Dom.Key>) {
    forall i, j :: 0 <= i < j < |nodes| ==> nodes[i] != nodes[j]
  }

  /**
   * Hiding a list of distinct nodes records, for each, the value it had before,
   * and keeps the records of the other nodes.
   */
  lemma {:induction false} HideAllRecords(st: State, nodes: seq<Dom.Key>, fixed: bool)
    requires Consistent(st) && Distinct(nodes)
    ensures var h := ToggleAll(st, nodes, true, false, fixed);
            (forall k :: k in nodes ==> k in h.records && h.records[k] == SavedDisplay(st.styles, k)) &&
            (forall k :: k !in nodes ==> (k in h.records <==> k in st.records)) &&
            (forall k :: k !in nodes && k in st.records ==> h.records[k] == st.records[k])
    decreases |nodes|
  {
    if nodes != [] {
      var k0 := nodes[0];
      var mid := ToggleAll(st, nodes[1..], true, false, fixed);
      HideAllRecords(st, nodes[1..], fixed);
      ToggleAllWrites(st, nodes[1..], true, false, fixed);
      assert k0 !in nodes[1..];
      assert DisplayOf(mid.styles, k0) == DisplayOf(st.styles, k0);
      var h := ToggleOne(mid, k0, true, false, fixed);
      assert ToggleAll(st, nodes, true, false, fixed) == h;
      forall k | k in nodes
        ensures k in h.records && h.records[k] == SavedDisplay(st.styles, k)
      {
        if k != k0 {
          assert k in nodes[1..];
        }
      }
      forall k | k !in nodes
        ensures (k in h.records <==> k in st.records) && (k in st.records ==> h.records[k] == st.records[k])
      {
        assert k !in nodes[1..];
      }
    }
  }

  /**
   * Hiding a list of distinct nodes, then resetting,
   * gives every node back its declaration (without the priority) and leaves
   * the nodes that were neither listed nor recorded untouched.
   */
  lemma {:induction false} HideAllThenReset(st: State, nodes: seq<Dom.Key>)
    requires Consistent(st) && Distinct(nodes)
    ensures var h := ToggleAll(st, nodes, true, false, true);
            (forall k :: k in nodes ==>
               RestoredAt(h.styles, h.records, k, true) == Unprioritised(DisplayOf(st.styles, k))) &&
            (forall k :: k !in nodes && k !in st.records ==>
               RestoredAt(h.styles, h.records, k, true) == DisplayOf(st.styles, k))
  {
    var h := ToggleAll(st, nodes, true, false, true);
    HideAllRecords(st, nodes, true);
    ToggleAllWrites(st, nodes, true, false, true);
    forall k | k in nodes
      ensures RestoredAt(h.styles, h.records, k, true) == Unprioritised(DisplayOf(st.styles, k))
    {
      assert h.records[k] == SavedDisplay(st.styles, k);
    }
  }

  /** The module state toggleNodes and resetToggledNodes work on. */
  class Toggler {
    /** The inline `display` declarations of the page's elements. */
    var styles: Styles
    var toggledNodes: Records

    ghost predicate Valid()
      reads this
    {
      Consistent(State(styles, toggledNodes))
    }

    function Current(): State
      reads this
    {
      State(styles, toggledNodes)
    }

    constructor(page: Styles)
      requires Consistent(State(page, map[]))
      ensures Valid() && styles == page && toggledNodes == map[]
    {
      styles := page;
      toggledNodes := map[];
    }

    method ToggleNodes(nodes: seq<Dom.Key>, original: bool, target: bool, fixed: bool)
      requires Valid()
      modifies this
      ensures Valid()
      ensures Current() == ToggleAll(old(Current()), nodes, original, target, fixed)
    {
      var i := |nodes|;
      if i == 0 {
        return;
      }
      while i > 0
        invariant 0 <= i <= |nodes|
        invariant Consistent(old(Current()))
        invariant Current() == ToggleAll(old(Current()), nodes[i..], original, target, fixed)
        decreases i
      {
        i := i - 1;
        var node := nodes[i];
        assert nodes[i..][1..] == nodes[i + 1..];
        if original {
          if target {
            if node !in toggledNodes {
              continue;
            }
            var value := toggledNodes[node];
            styles := Restore(styles, node, value, fixed);
            toggledNodes := toggledNodes - {node};
          } else {
            var value := SavedDisplay(styles, node);
            toggledNodes := toggledNodes[node := value];
            styles := SetProperty(styles, node, "none", false);
          }
        } else {
          if target {
            toggledNodes := toggledNodes[node := Some("none")];
            styles := SetProperty(styles, node, "initial", true);
          } else {
            toggledNodes := toggledNodes - {node};
            styles := SetProperty(styles, node, "none", true);
          }
        }
      }
    }

    /** resetToggledNodes: restore every recorded node, then clear the records. */
    method ResetToggledNodes(fixed: bool)
      requires Valid()
      modifies this
      ensures Valid() && toggledNodes == map[]
      ensures styles == ResetStyles(old(styles), old(toggledNodes), fixed)
    {
      var todo := toggledNodes.Keys;
      while todo != {}
        invariant todo <= toggledNodes.Keys && toggledNodes == old(toggledNodes)
        invariant Consistent(State(styles, map[]))
        invariant forall k :: DisplayOf(styles, k) ==
                    if k in todo then DisplayOf(old(styles), k) else RestoredAt(old(styles), toggledNodes, k, fixed)
        decreases todo
      {
        var node :| node in todo;
        var value := toggledNodes[node];
        var before := styles;
        styles := Restore(styles, node, value, fixed);
        forall k
          ensures DisplayOf(styles, k) == if k in todo - {node} then DisplayOf(old(styles), k)
                                          else RestoredAt(old(styles), toggledNodes, k, fixed)
        {
          if k != node {
            assert DisplayOf(styles, k) == DisplayOf(styles - {node}, k);
            assert DisplayOf(before, k) == DisplayOf(before - {node}, k);
          } else {
            assert DisplayOf(before - {node}, k) == DisplayOf(old(styles) - {node}, k);
            assert Restore(before, k, value, fixed) - {k} == before - {k};
            assert DisplayOf(Restore(before, k, value, fixed), k) == DisplayOf(Restore(old(styles), k, value, fixed), k);
          }
        }
        forall k | k in styles
          ensures styles[k].value != []
        {
          if k != node {
            assert k in styles - {node};
          }
        }
        todo := todo - {node};
      }
      SameDisplays(styles, ResetStyles(old(styles), old(toggledNodes), fixed));
      toggledNodes := map[];
    }

    /**
     * The 'showInteractive' message: reset, hide what the hiding filters
     * select, reveal what the unhiding filters select.  A node in both lists
     * ends up revealed.
     */
    method ShowInteractive(hiding: seq<Dom.Key>, unhiding: seq<Dom.Key>, fixed: bool)
      requires Valid()
      modifies this
      ensures Valid()
      ensures Current() == ToggleAll(ToggleAll(State(ResetStyles(old(styles), old(toggledNodes), fixed), map[]),
                                               hiding, true, false, fixed), unhiding, false, true, fixed)
      ensures forall k :: DisplayOf(styles, k) ==
                (if k in unhiding then Some(Display("initial", true))
                 else if k in hiding then Some(Display("none", false))
                 else RestoredAt(old(styles), old(toggledNodes), k, fixed))
    {
      ResetToggledNodes(fixed);
      ghost var reset := Current();
      ToggleNodes(hiding, true, false, fixed);
      ghost var hidden := Current();
      ToggleNodes(unhiding, false, true, fixed);
      ToggleAllWrites(reset, hiding, true, false, fixed);
      ToggleAllWrites(hidden, unhiding, false, true, fixed);
    }

    /** The 'commitFilters' message: as 'showInteractive', then forget the records so nothing is restored later. */
    method CommitFilters(hiding: seq<Dom.Key>, unhiding: seq<Dom.Key>, fixed: bool)
      requires Valid()
      modifies this
      ensures Valid() && toggledNodes == map[]
      ensures styles == ToggleAll(ToggleAll(State(ResetStyles(old(styles), old(toggledNodes), fixed), map[]),
                                            hiding, true, false, fixed), unhiding, false, true, fixed).styles
      ensures forall k :: DisplayOf(styles, k) ==
                (if k in unhiding then Some(Display("initial", true))
                 else if k in hiding then Some(Display("none", false))
                 else RestoredAt(old(styles), old(toggledNodes), k, fixed))
    {
      ShowInteractive(hiding, unhiding, fixed);
      ForgetToggledNodes();
    }

    /** forgetToggledNodes: drop the records, keep the declarations. */
    method ForgetToggledNodes()
      requires Valid()
      modifies this`toggledNodes
      ensures Valid() && toggledNodes == map[]
    {
      toggledNodes := map[];
    }
  }
}

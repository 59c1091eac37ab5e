# DOM inspector of the uBlock logger, modelled in Dafny

`src/js/scriptlets/dom-inspector.js` is the content script behind the logger's DOM
inspector. It walks the page and reports a layout: one entry per element, with a
node id, a depth, a short selector and a descendant count. It then watches the page for
mutations and reports them as a journal of -1 and +1 entries. For a node the user
points at, it builds a cosmetic filter. It also hides or reveals nodes by writing their
inline `display` declaration.

This project models the sequential logic under the browser glue. Each piece is proved
against a specification function or a partner definition:

* **cssEscape** (`CssEscape`). This is the polyfill of the CSSOM "serialize an
  identifier" algorithm. It is modelled as a function that returns a `Result` and
  fails with `InvalidCharacterError` exactly when the input holds U+0000. Its partner
  is a decoder written after section 4 of CSS Syntax Module Level 3 (`CssSyntax`). The
  escaped text reads back as the original text, both as an identifier sequence and
  inside a double-quoted string.
* **Node ids and the layout** (`Layout`, `DomInspector.DomLayout`).
  * `newNodeId` mints `'n'` followed by the counter in base 36 (`Radix`). Ids are never
    issued twice, even across `shutdown`.
  * `domNodeFactory` skips br/link/meta/script/style and the inspector's own nodes.
  * `getLayoutData` is an explicit-stack, pre-order walk. It is proved equal to a fold
    of the factory over the document's pre-order.
  * `patchLayoutData` is an in-place pass over an `array`. When skipped elements have no
    element children, it is proved to fill each entry's count with the number of its
    descendants.
* **Selector synthesis** (`Selectors`, over the selector grammar in `CssSelector`).
  * `selectorFromNode` gives the coarse selector.
  * `cosmeticFilterFromNode` gives the fine segment with `:nth-of-type`.
  * `cosmeticFilterFromTarget` climbs, joins and anchors the segments.
  * `cosmeticFilterFromEntries` and `selectNodes` are also modelled.

  The generated selectors are parsed back, and their matching is evaluated over the
  element tree. `document.querySelectorAll` itself is a parameter, the oracle `query`.
* **The mutation journal and `getLayout`** (`DomInspector.DomLayout`). The class holds
  the counter, `nodeToIdMap`, the journal buffers, the journal itself, and the observer
  and debounce timer as flags. Its methods are proved against fold specifications: the
  journal is proved to be the walk of the added lists, with every -1 placed before
  every +1.
* **Toggle records** (`Toggles`). `toggleNodes`, `resetToggledNodes`,
  `forgetToggledNodes`, and the `showInteractive` / `commitFilters` message handlers are
  modelled as a class over a style map and the `toggledNodes` map.

The page is a forest of element values. `roots[0]` is the document element, and any
further root is a detached subtree still referenced by a pending mutation record. A
node is addressed by its path. `firstElementChild`, `nextElementSibling`,
`previousElementSibling` and `parentElement` are path arithmetic. A node's identity,
which is what the WeakMap and the Map are keyed by, is its `key`.

Where the script misbehaves, the affected member takes a `fixed: bool` flag:

* `false` is the code as written;
* `true` is the evidently intended code.

Both are proved about (see "## Findings").

## Model

| member | source | states |
|---|---|---|
| Radix.ToRadix | src/js/scriptlets/dom-inspector.js:181 | `toString(base)` yields at least one digit of the base and no leading zero |
| Radix.FromToRadix | src/js/scriptlets/dom-inspector.js:181 | reading a base-36 (or base-16) rendering back gives the number rendered |
| Radix.ToRadixInjective | src/js/scriptlets/dom-inspector.js:181 | different counters render as different digit strings |
| CssEscape.CssEscape | src/js/scriptlets/dom-inspector.js:70-133 | the escaper fails (InvalidCharacterError) exactly when the input contains U+0000 |
| CssEscape.EscapeFromFails | src/js/scriptlets/dom-inspector.js:77-88 | the loop from index i throws iff some code unit from i on is U+0000 |
| CssEscape.HexEscapeReadsBack | src/js/scriptlets/dom-inspector.js:105-106 | a code-point escape (backslash, lower-case hex, space) is consumed as exactly that character, space included |
| CssEscape.CodePointReadsBack | src/js/scriptlets/dom-inspector.js:90-107 | a control character, U+007F or an escaped digit reads back as itself inside an identifier |
| CssEscape.PlainCharReadsBack | src/js/scriptlets/dom-inspector.js:114-124 | a character passed through unescaped reads back as itself |
| CssEscape.BackslashCharReadsBack | src/js/scriptlets/dom-inspector.js:127-129 | a character prefixed with a single backslash reads back as itself |
| CssEscape.EscapeRoundTrip | src/js/scriptlets/dom-inspector.js:70-133 | when the escape succeeds, the CSS tokenizer consumes the output as an identifier sequence whose value is the input, leaving what follows |
| CssEscape.EscapeStringRoundTrip | src/js/scriptlets/dom-inspector.js:70-133 | the escaped text inside a double-quoted string reads back as the input up to the closing quote |
| CssEscape.EscapeStartsIdent | src/js/scriptlets/dom-inspector.js:90-103 | for any non-empty input other than "-", the output starts an identifier (a leading digit, or a digit after a leading dash, is escaped) |
| CssEscape.EscapeLeadingDigit | src/js/scriptlets/dom-inspector.js:96-106 | `"1a"` escapes to `"\31 a"` |
| Selectors.EscapeEmpty | src/js/scriptlets/dom-inspector.js:218-219 | an escaped string is empty iff the input was empty |
| Selectors.TrimSpec | src/js/scriptlets/dom-inspector.js:217 | `trim()` gives a slice of the input with only JavaScript white space before and after it, which itself neither starts nor ends with white space; a string without edge white space is left alone |
| Selectors.IndexOf | src/js/scriptlets/dom-inspector.js:234 | `indexOf('#')` gives the first occurrence, or none when the character is absent |
| Selectors.StripQuery | src/js/scriptlets/dom-inspector.js:615 | `replace(/\?.*$/, '')` keeps a prefix of the value: it cuts at the first `?` after which no line terminator occurs, and changes nothing when there is no such `?` |
| Selectors.EscapedClasses | src/js/scriptlets/dom-inspector.js:223-228 | the class part succeeds iff every class is NUL-free, is empty iff there are no classes, and starts with `.` otherwise |
| Selectors.CoarseAttr | src/js/scriptlets/dom-inspector.js:229-244 | the resource attribute selector (href/src/data) is only emitted with a plain attribute name and a non-empty value |
| Selectors.SelectorFromNodeReadsBack | src/js/scriptlets/dom-inspector.js:211-246 | the coarse selector parses as: the tag, `#` and the trimmed id, every class in classList order, then `[attr="v"]` or `[attr^="v"]` with the value trimmed and cut at `#` |
| Selectors.CoarseSelectorMatches | src/js/scriptlets/dom-inspector.js:211-246 | the coarse selector matches the node it was made from, when the id and the attribute value have no surrounding white space |
| Selectors.CoarseSelectorMissesPaddedId | src/js/scriptlets/dom-inspector.js:216-219 | when the id has surrounding white space, the coarse selector (trimmed id) does not match its own node |
| Selectors.ReversedSpec | src/js/scriptlets/dom-inspector.js:597-600 | the class segment lists the classes in reverse classList order |
| Selectors.SegmentSuffix | src/js/scriptlets/dom-inspector.js:587-602 | the id/class suffix is empty iff the node has neither an id nor classes, and fails only with InvalidCharacterError |
| Selectors.SegmentReadsBack | src/js/scriptlets/dom-inspector.js:581-657 | the fine segment parses as: the tag only when there is no id or class, `#id` or the classes, the href or alt attribute, and `:nth-of-type(k)` |
| Selectors.FineSelfMatch | src/js/scriptlets/dom-inspector.js:581-657 | the corrected segment matches its own node among the parent's children |
| Selectors.NthOfTypeIncreasing | src/js/scriptlets/dom-inspector.js:645-653 | the `:nth-of-type` index strictly increases along siblings of one tag |
| Selectors.ScopeOf | src/js/scriptlets/dom-inspector.js:643-653 | the `:scope >` query runs over the parent's children, the node is one of them, and its index is 1 + the number of earlier siblings of its tag |
| Selectors.SegmentSelectsOnlyNode | src/js/scriptlets/dom-inspector.js:639-656 | with the corrections, the segment for a node matches exactly that node among its parent's children |
| Selectors.SegmentAmongSelectsOnly | src/js/scriptlets/dom-inspector.js:639-656 | the same, stated over a sibling list |
| Selectors.NthSelectsOnly | src/js/scriptlets/dom-inspector.js:653 | a segment narrowed with the tag and `:nth-of-type` matches exactly one sibling |
| Selectors.NthCompoundUnique | src/js/scriptlets/dom-inspector.js:645-653 | a tagged compound with the node's `:nth-of-type` index matches no other sibling |
| Selectors.AsWrittenHrefMissesAnchor | src/js/scriptlets/dom-inspector.js:612-634 | as written, an anchor whose href has a query string is not matched by its own `[href="…"]` selector |
| Selectors.AsWrittenSegmentMissesAnchor | src/js/scriptlets/dom-inspector.js:612-656 | as written, the segment for such an anchor does not select the anchor among its siblings |
| Selectors.AsWrittenAmongMissesAnchor | src/js/scriptlets/dom-inspector.js:612-656 | the same, over a sibling list and for any `:nth-of-type` index |
| Selectors.AsWrittenNthOfTypeAmbiguous | src/js/scriptlets/dom-inspector.js:643-654 | as written, a sibling of another tag with the same classes and the same per-tag index is also selected |
| Selectors.AsWrittenAmongAmbiguous | src/js/scriptlets/dom-inspector.js:643-654 | the same, over a sibling list |
| Selectors.MixedCounts | src/js/scriptlets/dom-inspector.js:645-653 | in div, span, div, span the second div and the second span both get `:nth-of-type(2)` |
| Selectors.NthOfTypeAmbiguityExample | src/js/scriptlets/dom-inspector.js:643-654 | for a concrete page, the as-written segment of a div also selects the span beside it |
| Selectors.ClimbShape | src/js/scriptlets/dom-inspector.js:675-684 | the climb yields one segment per ancestor up to body, or stops at the first `#` segment, outermost first |
| Selectors.ClimbSegments | src/js/scriptlets/dom-inspector.js:675-684 | each climbed segment is the segment of the corresponding ancestor |
| Selectors.ClimbUnderBody | src/js/scriptlets/dom-inspector.js:677-684 | for a node under body, the climb fails only through the escaper |
| Selectors.ClimbAboveBody | src/js/scriptlets/dom-inspector.js:677-683 | for a node above body (the html element), the climb walks past the top and reads a property of null (TypeError) |
| Selectors.ClimbEndsWithOwn | src/js/scriptlets/dom-inspector.js:678-679 | the last climbed segment is the node's own segment |
| Selectors.FindLastWithId | src/js/scriptlets/dom-inspector.js:662-670 | the search returns the last matched element carrying the nid, or none when no element carries it |
| Selectors.CosmeticFilterFromTarget | src/js/scriptlets/dom-inspector.js:661-693 | with no matched element carrying the nid, the result is the coarse selector; otherwise it starts with `#`, or starts with `.` and matches one element, or starts with `body > ` |
| Selectors.TargetFound | src/js/scriptlets/dom-inspector.js:671-692 | once the last match carrying the nid is found, the filter is the anchored join of that node's segment and its nearest ancestors', top first, up to an id segment or to body's child; it fails exactly when the climb does, and for a node under body only with InvalidCharacterError |
| Selectors.TargetEndsWithOwnSegment | src/js/scriptlets/dom-inspector.js:675-692 | the filter for a target ends with the target's own segment |
| Selectors.Anchor | src/js/scriptlets/dom-inspector.js:685-692 | the anchored filter starts with `#`, or with `.` and a single match, or with `body > `; it ends with the joined segments and is left alone when they start with `#` |
| Selectors.AnchorKeepsLast | src/js/scriptlets/dom-inspector.js:685-692 | anchoring keeps the last segment at the end |
| Selectors.JoinEndsWith | src/js/scriptlets/dom-inspector.js:685 | joining with ` > ` ends with the last segment |
| Selectors.JoinStartsWith | src/js/scriptlets/dom-inspector.js:685-686 | joining with ` > ` starts with the first segment |
| Selectors.CollectLastFirstSpec | src/js/scriptlets/dom-inspector.js:569-574 | collecting from the last entry fails iff some entry fails, and otherwise gives the results in reverse order |
| Selectors.EntriesSpec | src/js/scriptlets/dom-inspector.js:567-575 | cosmeticFilterFromEntries gives one filter per entry, in reverse entry order, and throws iff some entry throws |
| Selectors.SelectNodes | src/js/scriptlets/dom-inspector.js:824-837 | with an empty nid, every match; otherwise the last match carrying the nid, or nothing when none carries it |
| Dom.FirstChild | src/js/scriptlets/dom-inspector.js:294-297 | `firstElementChild` exists iff the node has children, and is child 0 |
| Dom.NextSibling | src/js/scriptlets/dom-inspector.js:301-309 | `nextElementSibling` exists iff the node has a parent with a child after it, and is that child |
| Dom.PrevSibling | src/js/scriptlets/dom-inspector.js:360 | `previousElementSibling` exists iff the node has a parent and is not its first child, and is the child before it |
| Dom.ParentElement | src/js/scriptlets/dom-inspector.js:392-395 | `parentElement` exists iff the node is not a root, and is the path without its last index |
| Dom.WalkNextSpec | src/js/scriptlets/dom-inspector.js:293-309 | one step of the down/right/up-then-right walk continues the pre-order of the rest of the tree |
| Dom.NextUpSpec | src/js/scriptlets/dom-inspector.js:300-308 | climbing to the first ancestor with a next sibling continues the pre-order after the node's subtree |
| Dom.DescendantsWalk | src/js/scriptlets/dom-inspector.js:371-402 | a node's subtree in pre-order is the node, then the walk from its first child |
| Layout.Nid | src/js/scriptlets/dom-inspector.js:181 | an id is `n` followed by at least one digit |
| Layout.NidReadsBack | src/js/scriptlets/dom-inspector.js:181 | the counter can be read back from the id |
| Layout.NidInjective | src/js/scriptlets/dom-inspector.js:181 | different counters give different ids |
| Layout.NidFresh | src/js/scriptlets/dom-inspector.js:176-184 | the id for counter n was not issued before n, and issuing it adds exactly it |
| Layout.MintFresh | src/js/scriptlets/dom-inspector.js:180-184 | a newly minted id differs from every id in the map, the map now sends the node to it, and the counter goes up by one |
| Layout.Factory | src/js/scriptlets/dom-inspector.js:264-277 | null exactly for skipped tags and the inspector's own nodes, with nothing spent; otherwise the next id, bound to body's key for the level-0 body and to the node's key otherwise; a DomRoot with selector `body` for body at level 0, else a DomNode carrying selectorFromNode's selector, or its exception; the node's filter is the one looked up under that same key |
| Layout.WalkIdsFresh | src/js/scriptlets/dom-inspector.js:176-184 | the nodes of one walk carry pairwise distinct ids, none issued before the walk |
| Layout.ContinueIssued | src/js/scriptlets/dom-inspector.js:176-184 | a walk keeps every id in the map among those issued |
| Layout.WalkKeepsUnskipped | src/js/scriptlets/dom-inspector.js:264-277 | a walk that does not throw makes a node for every visited element that is not skipped, in visiting order, and for no other |
| Layout.LayoutShape | src/js/scriptlets/dom-inspector.js:281-313 | the layout's entries have levels and count 0; when skipped nodes are leaves, the levels start at 0 and rise by at most one per entry |
| Layout.LayoutDone | src/js/scriptlets/dom-inspector.js:281-313 | a loop that reaches the end of the pre-order has produced the fold's layout |
| Layout.RunSpec | src/js/scriptlets/dom-inspector.js:317-346 | the descendant count of an entry is the run of following entries deeper than it |
| Layout.FirstHoldsAll | src/js/scriptlets/dom-inspector.js:317-346 | body, the only entry at level 0, has count = length - 1 |
| Layout.NearestKept | src/js/scriptlets/dom-inspector.js:357-369 | the previous sibling reported is the nearest earlier sibling whose tag is not skipped |
| Layout.NodeWalkSplits | src/js/scriptlets/dom-inspector.js:429-434 | an added element is visited, then its branch in pre-order |
| Layout.JournalWalkPrefix | src/js/scriptlets/dom-inspector.js:418-436 | the walk over the first i added lists is a prefix of the whole walk |
| Layout.JournalKeepsValid | src/js/scriptlets/dom-inspector.js:418-436 | minting the journal keeps every mapped id issued and every node of the table under its own id |
| Layout.RemovedInSpec | src/js/scriptlets/dom-inspector.js:440-454 | one -1 entry per removed element that has an id, in list order, naming that id, and none for any other node |
| Layout.TrackedIndices | src/js/scriptlets/dom-inspector.js:440-448 | the positions in a removed list of the elements that have an id, strictly increasing |
| Layout.TrackedIndicesComplete | src/js/scriptlets/dom-inspector.js:440-448 | no position of a removed element with an id is missing from them |
| Layout.RemovedEntries | src/js/scriptlets/dom-inspector.js:438-455 | the -1 entries of all removed lists are those of the lists laid end to end |
| Layout.AddedEntrySpec | src/js/scriptlets/dom-inspector.js:456-464 | a +1 entry carries the node's id, its parent's id (none for a root) and the id of the nearest earlier sibling whose tag is not skipped, or no sibling when every earlier one is skipped |
| Layout.PrevSiblingIdSpec | src/js/scriptlets/dom-inspector.js:357-369 | the previous-sibling id is absent iff every earlier sibling is skipped, and otherwise that of the nearest earlier sibling that is not |
| Layout.FlushEntries | src/js/scriptlets/dom-inspector.js:438-464 | a flush emits one -1 per removed element with an id, over the lists in order, then one +1 per added node in order with its ids, and no +1 entry precedes a -1 entry |
| Layout.NonEmptyKeepsNodes | src/js/scriptlets/dom-inspector.js:469-477 | dropping empty lists loses no node, and keeps only non-empty lists |
| DomInspector.PatchLayoutData | src/js/scriptlets/dom-inspector.js:317-346 | in place, only counts change, and on levels that start at 0 and rise by at most one, each entry with descendants gets their number |
| DomInspector.ClimbToSibling | src/js/scriptlets/dom-inspector.js:300-308 | popping the stack gives the first ancestor-or-self with a next sibling, with the stack and level kept in step |
| DomInspector.NextInBranch | src/js/scriptlets/dom-inspector.js:380-400 | the branch walk's down/right/up step gives the next node in pre-order inside the branch |
| DomInspector.ClimbInBranch | src/js/scriptlets/dom-inspector.js:390-400 | the up-then-right loop stops at the branch root |
| DomInspector.DomLayout.constructor | src/js/scriptlets/dom-inspector.js:147 | a fresh domLayout: counter 0, an empty map, no observer, nothing buffered |
| DomInspector.DomLayout.NewNodeId | src/js/scriptlets/dom-inspector.js:180-184 | mints the next id, a fresh one, and overwrites the node's map entry |
| DomInspector.DomLayout.DomNodeFactory | src/js/scriptlets/dom-inspector.js:264-277 | gives the factory's outcome and its new id state |
| DomInspector.DomLayout.GetLayoutData | src/js/scriptlets/dom-inspector.js:281-313 | the explicit-stack loop gives the fold of the factory over the pre-order of body and the elements after it, or the exception that stopped it |
| DomInspector.DomLayout.PreviousElementSiblingId | src/js/scriptlets/dom-inspector.js:357-369 | the loop gives the nearest earlier non-skipped sibling's id |
| DomInspector.DomLayout.JournalFromBranch | src/js/scriptlets/dom-inspector.js:371-402 | the walk of a branch mints ids and records nodes exactly as the fold over the branch's pre-order |
| DomInspector.DomLayout.JournalFromList | src/js/scriptlets/dom-inspector.js:420-435 | one added list: non-elements and roots are skipped, then each element and its branch |
| DomInspector.DomLayout.JournalMint | src/js/scriptlets/dom-inspector.js:418-436 | all added lists, as the fold over their combined walk |
| DomInspector.DomLayout.JournalRemovedIn | src/js/scriptlets/dom-inspector.js:440-454 | appends the -1 entries of one removed list |
| DomInspector.DomLayout.JournalRemoved | src/js/scriptlets/dom-inspector.js:438-455 | appends the -1 entries of every removed list in order |
| DomInspector.DomLayout.JournalAdded | src/js/scriptlets/dom-inspector.js:456-464 | appends one +1 entry per added node |
| DomInspector.DomLayout.JournalEmit | src/js/scriptlets/dom-inspector.js:437-464 | empties the buffers and appends the removals, then the additions |
| DomInspector.DomLayout.JournalFromMutations | src/js/scriptlets/dom-inspector.js:404-465 | clears the timer; with no observer it drops the buffers; otherwise it mints the added nodes and then either keeps everything buffered after a throw, or appends all -1 then all +1 entries and empties the buffers |
| DomInspector.DomLayout.BufferRecords | src/js/scriptlets/dom-inspector.js:468-477 | appends each record's non-empty added and removed lists, in record order |
| DomInspector.DomLayout.OnMutationObserved | src/js/scriptlets/dom-inspector.js:467-481 | buffers the records and leaves a timer pending |
| DomInspector.DomLayout.FullLayout | src/js/scriptlets/dom-inspector.js:505 | gives the nodes the layout fold built, in order, each with a descendant count that is exact when skipped nodes are leaves, or the fold's exception |
| DomInspector.DomLayout.GetLayout | src/js/scriptlets/dom-inspector.js:485-521 | on a fingerprint mismatch it resets first; with no observer it installs one and answers `full` with the whole layout (as FullLayout) or the walk's exception; otherwise `incremental` with the journal (then emptied), or `nochange` |
| DomInspector.DomLayout.Shutdown | src/js/scriptlets/dom-inspector.js:527-541 | drops the observer, the timer, the buffers and the map, and keeps the counter |
| Toggles.SetProperty | src/js/scriptlets/dom-inspector.js:882-890 | `setProperty('display', v, prio)` sets the declaration, or removes it for an empty value, and touches no other node |
| Toggles.RemoveProperty | src/js/scriptlets/dom-inspector.js:875 | `removeProperty('display')` leaves the node without a declaration |
| Toggles.SavedDisplay | src/js/scriptlets/dom-inspector.js:881 | `getPropertyValue('display')`, or null when that is empty, is the declared value, or null without one |
| Toggles.RestoreAsWritten | src/js/scriptlets/dom-inspector.js:874-878 | as written, restoring leaves no declaration, whatever was saved |
| Toggles.RestoreFixed | src/js/scriptlets/dom-inspector.js:874-878 | corrected, restoring puts back the saved value, or removes the declaration when none was saved |
| Toggles.ToggleAll | src/js/scriptlets/dom-inspector.js:860-894 | toggling a list keeps every declared and saved value non-empty |
| Toggles.ToggleOneKeeps | src/js/scriptlets/dom-inspector.js:866-893 | one toggle changes only the node's own declaration and record |
| Toggles.ToggleAllWrites | src/js/scriptlets/dom-inspector.js:880-891 | hiding or revealing writes `none` or `initial !important` (per the table at 854-858) on exactly the listed nodes |
| Toggles.HideAllRecords | src/js/scriptlets/dom-inspector.js:880-883 | hiding records each listed node's prior display value and leaves other records alone |
| Toggles.HideThenRestore | src/js/scriptlets/dom-inspector.js:868-883 | corrected, hiding and then restoring a node gives back its declaration (without `!important`) and drops its record |
| Toggles.HideThenRestoreAsWritten | src/js/scriptlets/dom-inspector.js:868-883 | as written, hiding and then restoring a node leaves it with no declaration |
| Toggles.AsWrittenLosesFlex | src/js/scriptlets/dom-inspector.js:874-883 | as written, an inline `display: flex` is gone after hide and restore |
| Toggles.ShowThenRestore | src/js/scriptlets/dom-inspector.js:870-887 | revealing writes `initial !important`, and restoring then writes the recorded `none` |
| Toggles.HideAllThenReset | src/js/scriptlets/dom-inspector.js:802-814 | corrected, resetting after hiding a list restores each listed node's declaration, and leaves untouched nodes as they were |
| Toggles.Toggler.constructor | src/js/scriptlets/dom-inspector.js:148 | starts with the page's declarations and no records |
| Toggles.Toggler.ToggleNodes | src/js/scriptlets/dom-inspector.js:860-894 | the loop from the last node down equals the toggle fold over the list |
| Toggles.ResetStyles | src/js/scriptlets/dom-inspector.js:802-814 | after a reset every recorded node has its restored declaration, every other node keeps its own, and no empty value appears |
| Toggles.Toggler.ResetToggledNodes | src/js/scriptlets/dom-inspector.js:802-814 | the declarations become those of ResetStyles, and the records are cleared |
| Toggles.Toggler.ForgetToggledNodes | src/js/scriptlets/dom-inspector.js:818-820 | clears the records and changes no declaration |
| Toggles.Toggler.ShowInteractive | src/js/scriptlets/dom-inspector.js:944-950 | the new declarations and records are a reset, then hiding the first list, then revealing the second; so unhidden nodes show `initial !important`, hidden ones `none`, and every other node its restored declaration |
| Toggles.Toggler.CommitFilters | src/js/scriptlets/dom-inspector.js:905-912 | the same declarations as showInteractive (reset, hide, reveal), with the records forgotten |

## Left out

- Highlighting and scrolling (`highlightElements`, `onScrolled`): floating-point geometry, SVG paths and `window.scrollBy`.
- Widget installation, environment guards, and the messaging channel with its teardown: browser I/O.
- `onMessage` dispatch: only `showInteractive` and `commitFilters` are modelled, as `Toggles.Toggler` methods. `selectNodes(request.hide, '')` is taken as already resolved to node keys.
- The MutationObserver and the debounce timer are booleans. Their firing is the caller invoking `OnMutationObserved` or `JournalFromMutations`.
- `document.querySelectorAll` is an oracle parameter, not an implementation of selector matching over the whole document. Only the `:scope >` sibling query of `cosmeticFilterFromNode` is evaluated, by parsing the segment and matching it over the parent's children.
- `nodeToCosmeticFilterMap`: it runs page selectors from `vAPI.styles`. It is a fixed map from node to filter string.
- The native `CSS.escape` branch and the `:scope` feature detection: the polyfill and `':scope > '` are assumed.
- The `url` and `hostname` fields of the layout response: they come from `window.location`.
- `nodeToIdMap` is an ordinary map. WeakMap garbage collection is not observable by the script.
- The journal takes the page as it is when the timer fires. An added node that was moved or removed again before the flush is assumed to sit at its current path.
- DomInspector.PatchLayoutData: its count equals the number of descendants only when no entry is more than one level below the entry before it. Lines 317-346 pop the stack once per level drop, so a skipped element with an element child makes the count short. With levels `[0, 2, 1]` (body, a child of a skipped element, body's next child) body gets 1 instead of 2. `FullLayoutOf` therefore states exact counts only under `SkippedAreLeaves`.
- Toggles.SavedDisplay: `getPropertyValue` drops the `!important` priority. The model states that loss as the corrected restore's result (`Unprioritised`) rather than modelling a priority read.
- CssEscape.EscapeStartsIdent: excludes the input `"-"`. The polyfill version used here has no rule for a lone hyphen, so `"-"` escapes to `"-"`, which does not start an identifier.
- Toggles.RestoreFixed: the correction holds only for records made by hiding (lines 880-883). A node revealed at lines 886-887 has the record `"none"`. Restoring it as written removes the inline declaration, which gives back the page's own state. The corrected restore instead writes an inline `display: none` the page never had (`Toggles.ShowThenRestore`). For such records the code as written is the better of the two, and the model states no intended behaviour for them.
- Selectors.SegmentSelectsOnlyNode: requires id, class and attribute text that reads back unambiguously. `cosmeticFilterFromNode` does not escape attribute values, so a value with a quote or backslash yields a selector the browser rejects. An id or class with U+0000 makes the escaper throw.

## Findings

| source | as written | input that shows it | evidently intended | confidence | as-written member | corrected member |
|---|---|---|---|---|---|---|
| src/js/scriptlets/dom-inspector.js:612-634 | `cosmeticFilterFromNode` strips the query from `href` and then emits `[href="…"]`, an exact match | `<a href="/x?y=1">`: the segment `a[href="/x"]` no longer matches the anchor | a prefix match `[href^="…"]` on the stripped value | not executed | Selectors.AsWrittenSegmentMissesAnchor | Selectors.SegmentSelectsOnlyNode |
| src/js/scriptlets/dom-inspector.js:643-654 | `:nth-of-type(k)` is appended to a segment that has no type selector when the id or classes are present | `<div class=a>`, `<span class=a>`, `<div class=a>`, `<span class=a>`: `.a:nth-of-type(2)` selects both the second div and the second span | prefix the tag when `:nth-of-type` is appended | not executed | Selectors.NthOfTypeAmbiguityExample | Selectors.SegmentAmongSelectsOnly |
| src/js/scriptlets/dom-inspector.js:874-878 | the restore calls `removeProperty('display')` when a value was saved, and `setProperty('display', null)` when none was | a node with inline `display: flex`, hidden and then restored, loses its `display: flex` | for records made by hiding (lines 880-883), the two branches swapped: set the saved value back, remove the declaration when nothing was saved; for records made by revealing (886-887) the code as written is better (see `Toggles.RestoreFixed` under "## Left out") | not executed | Toggles.AsWrittenLosesFlex | Toggles.HideThenRestore |

The third finding also holds for `resetToggledNodes` (lines 807-811), which has the same two branches.
`Toggles.HideThenRestoreAsWritten` shows the general case: after hide and restore, the node never has a
declaration. `Toggles.HideAllThenReset` is the corrected property over a whole reset.

The corrected behaviour is the one the rest of the model uses:

- `CosmeticFilterFromNode` takes `fixed`, and so do the functions above it that
  use its segments: `Climb`, `CosmeticFilterFromTarget` and `CosmeticFilterFromEntries`.
  The uniqueness property is proved with `true`; the as-written counterexamples use `false`.
- The toggle methods take `fixed` as a parameter.

/**
 * The two sidebars (scripts/sidebar.js): selecting an item of a sortable
 * list, what an item does when dragged into the other list, the resize
 * bars that write the panel widths into CSS variables, and the merge of
 * both sidebars on a narrow window.
 *
 * A sidebar holds one sortable list of items and, after it, the panels
 * those items refer to by id. Panel ids are unique in the document.
 */
module Sidebar {
  import opened Options
  import opened Text
  import opened Sortable

  const Selected := "selected"
  const CataloguePanel := "catalogue-panel"

  predicate IsSelected(it: Item)
  {
    Selected in it.classes
  }

  /** At most one item of the list is selected. */
  predicate SingleSelection(l: seq<Item>)
  {
    forall i, j :: 0 <= i < |l| && 0 <= j < |l| && IsSelected(l[i]) && IsSelected(l[j]) ==> i == j
  }

  predicate NoneSelected(l: seq<Item>)
  {
    forall i :: 0 <= i < |l| ==> !IsSelected(l[i])
  }

  /** `list.querySelector(".item.selected")`: the first selected item. */
  function FirstSelected(l: seq<Item>): (a: Option<nat>)
    ensures a.Some? ==> a.value < |l| && IsSelected(l[a.value])
    ensures a.Some? ==> forall j :: 0 <= j < a.value ==> !IsSelected(l[j])
    ensures a.None? <==> NoneSelected(l)
  {
    if |l| == 0 then None
    else if IsSelected(l[0]) then Some(0)
    else
      match FirstSelected(l[1..])
      case None => None
      case Some(k) => Some(k + 1)
  }

  function Deselect(it: Item): (r: Item)
    ensures !IsSelected(r)
    ensures r.id == it.id && r.ref == it.ref
    ensures forall c :: c != Selected ==> (c in r.classes <==> c in it.classes)
  {
    it.(classes := it.classes - {Selected})
  }

  /** Deselects the first selected item of the list, if any. */
  function DeselectFirst(l: seq<Item>): (r: seq<Item>)
    ensures |r| == |l| && Ids(r) == Ids(l)
    ensures NoneSelected(l) ==> r == l
    ensures SingleSelection(l) ==> NoneSelected(r)
    ensures forall j :: 0 <= j < |l| && !IsSelected(l[j]) ==> r[j] == l[j]
  {
    match FirstSelected(l)
    case None => l
    case Some(a) =>
      var r := l[a := Deselect(l[a])];
      assert Ids(r) == Ids(l);
      r
  }

  // ---------------------------------------------------------------------
  // Item click

  /** The list after a click, and whether the preview is told to `scroll` (which updates the catalogue highlight). */
  datatype Click = Click(list: seq<Item>, scrollPreview: bool)

  /**
   * The `click` handler of item `k`: the first selected item of the list,
   * when it is another item, is deselected; then `selected` is toggled on
   * the clicked item. Only the clicked item and the previously selected
   * one can change, and only in their `selected` class.
   */
  function OnItemClick(l: seq<Item>, k: nat): (r: Click)
    requires k < |l|
    ensures |r.list| == |l| && Ids(r.list) == Ids(l)
    ensures IsSelected(r.list[k]) <==> !IsSelected(l[k])
    ensures forall j :: 0 <= j < |l| && j != k && !IsSelected(l[j]) ==> r.list[j] == l[j]
    ensures forall j, c :: 0 <= j < |l| && c != Selected ==> (c in r.list[j].classes <==> c in l[j].classes)
    ensures r.scrollPreview <==> IsSelected(r.list[k]) && l[k].ref == CataloguePanel
  {
    var a := FirstSelected(l);
    var l1 := if a.Some? && a.value != k then l[a.value := Deselect(l[a.value])] else l;
    var l2 := l1[k := l1[k].(classes := ClassList.Toggle(l1[k].classes, Selected))];
    assert Ids(l2) == Ids(l);
    Click(l2, IsSelected(l2[k]) && l2[k].ref == CataloguePanel)
  }

  /**
   * With at most one item selected before, a click leaves at most one:
   * clicking an unselected item makes it the only selected one, clicking
   * the selected item leaves none selected.
   */
  lemma ClickKeepsSingleSelection(l: seq<Item>, k: nat)
    requires k < |l| && SingleSelection(l)
    ensures var r := OnItemClick(l, k).list;
      && SingleSelection(r)
      && (forall j :: 0 <= j < |r| && j != k ==> !IsSelected(r[j]))
      && (!IsSelected(l[k]) ==> IsSelected(r[k]))
      && (IsSelected(l[k]) ==> NoneSelected(r))
  {
    var r := OnItemClick(l, k).list;
    var a := FirstSelected(l);
    forall j | 0 <= j < |r| && j != k
      ensures !IsSelected(r[j])
    {
      if IsSelected(l[j]) {
        assert a.Some? && a.value == j;
      }
    }
  }

  // ---------------------------------------------------------------------
  // Panels

  /** No id occurs twice. */
  predicate Unique(s: seq<string>)
  {
    UniqueIn(multiset(s))
  }

  predicate UniqueIn(m: multiset<string>)
  {
    forall x :: x in m ==> m[x] <= 1
  }

  /** The sequence without the first occurrence of `x`. */
  function RemoveFirst(s: seq<string>, x: string): (r: seq<string>)
    ensures multiset(r) == multiset(s) - multiset{x}
  {
    if |s| == 0 then []
    else if s[0] == x then
      assert s == [s[0]] + s[1..];
      s[1..]
    else
      assert s == [s[0]] + s[1..];
      [s[0]] + RemoveFirst(s[1..], x)
  }

  /**
   * `bar.appendChild(document.getElementById(ref))`: the panel is
   * detached from whichever sidebar holds it and put last in `to`. With no
   * such panel `appendChild(null)` throws, which is `None`.
   */
  function MovePanel(to: seq<string>, from: seq<string>, ref: string): (r: Option<(seq<string>, seq<string>)>)
    requires Unique(to + from)
    ensures r.None? <==> ref !in to + from
    ensures r.Some? ==>
      && |r.value.0| > 0 && r.value.0[|r.value.0| - 1] == ref
      && ref !in r.value.1
      && multiset(r.value.0 + r.value.1) == multiset(to + from)
  {
    if ref in to then
      MoveWithinBar(to, from, ref);
      Some((RemoveFirst(to, ref) + [ref], from))
    else if ref in from then
      MoveAcrossBars(to, from, ref);
      Some((to + [ref], RemoveFirst(from, ref)))
    else None
  }

  /** Moving panel `ref` leaves every other panel in the sidebar that held it. */
  lemma MovePanelKeepsOthers(to: seq<string>, from: seq<string>, ref: string, x: string)
    requires Unique(to + from) && x != ref
    ensures MovePanel(to, from, ref).Some? ==>
      && multiset(MovePanel(to, from, ref).value.0)[x] == multiset(to)[x]
      && multiset(MovePanel(to, from, ref).value.1)[x] == multiset(from)[x]
  {
    if ref in to {
      MoveWithinBar(to, from, ref);
    } else if ref in from {
      MoveAcrossBars(to, from, ref);
    }
  }

  /** A panel re-appended to the sidebar that holds it: the same panels, and none of them in the other sidebar. */
  lemma MoveWithinBar(to: seq<string>, from: seq<string>, ref: string)
    requires Unique(to + from) && ref in to
    ensures multiset(RemoveFirst(to, ref) + [ref]) == multiset(to)
    ensures ref !in from
  {
    assert multiset(to + from)[ref] == multiset(to)[ref] + multiset(from)[ref];
  }

  /** A panel appended from the other sidebar: it leaves that sidebar entirely. */
  lemma MoveAcrossBars(to: seq<string>, from: seq<string>, ref: string)
    requires Unique(to + from) && ref !in to && ref in from
    ensures multiset(to + [ref]) == multiset(to) + multiset{ref}
    ensures multiset(RemoveFirst(from, ref)) == multiset(from) - multiset{ref}
    ensures ref !in RemoveFirst(from, ref)
    ensures multiset((to + [ref]) + RemoveFirst(from, ref)) == multiset(to + from)
  {
    assert multiset(to + from)[ref] == multiset(to)[ref] + multiset(from)[ref];
    assert multiset(RemoveFirst(from, ref))[ref] == 0;
  }

  /** A sidebar: its sortable list and the ids of its panels in order. */
  datatype Bar = Bar(list: seq<Item>, panels: seq<string>)

  /**
   * The `movetonewlist` handler of an item dragged into the list of sidebar
   * `dest` from sidebar `source`: when the item is selected, the
   * destination's selected item is deselected; then the item's panel moves
   * into `dest`. With no such panel `appendChild(null)` throws after the
   * deselection; `dispatchEvent` only reports the exception, so the
   * deselection stays, the panels stay where they were, and the drag
   * handler still moves the item afterwards.
   */
  function OnMoveToNewList(item: Item, dest: Bar, source: Bar): (r: (Bar, Bar))
    requires Unique(dest.panels + source.panels)
    ensures Ids(r.0.list) == Ids(dest.list) && r.1.list == source.list
    ensures !IsSelected(item) ==> r.0.list == dest.list
    ensures IsSelected(item) && SingleSelection(dest.list) ==> NoneSelected(r.0.list)
    ensures item.ref in dest.panels + source.panels ==> LastIs(r.0.panels, item.ref) && item.ref !in r.1.panels
    ensures item.ref !in dest.panels + source.panels ==> r.0.panels == dest.panels && r.1.panels == source.panels
    ensures multiset(r.0.panels + r.1.panels) == multiset(dest.panels + source.panels)
  {
    var l := if IsSelected(item) then DeselectFirst(dest.list) else dest.list;
    match MovePanel(dest.panels, source.panels, item.ref)
    case None => (Bar(l, dest.panels), source)
    case Some((d, s)) => (Bar(l, d), Bar(source.list, s))
  }

  predicate LastIs(s: seq<string>, x: string)
  {
    |s| > 0 && s[|s| - 1] == x
  }

  /** Two lists that agree, position by position, on which items are selected. */
  predicate SameSelection(a: seq<Item>, b: seq<Item>)
  {
    |a| == |b| && forall i :: 0 <= i < |a| ==> (IsSelected(a[i]) <==> IsSelected(b[i]))
  }

  /** Detaching the same node from two lists with the same identities keeps them in agreement. */
  lemma SameSelectionWithout(a: seq<Item>, b: seq<Item>, id: nat)
    requires SameSelection(a, b) && Ids(a) == Ids(b)
    ensures SameSelection(Without(a, id), Without(b, id))
  {
  }

  /** Dropping one position keeps at most one item selected, on plain sequences. */
  lemma SingleSelectionDrop(items: seq<Item>, rest: seq<Item>, f: int)
    requires SingleSelection(items)
    requires f < 0 ==> rest == items
    requires f >= 0 ==> f < |items| && |rest| == |items| - 1 && forall j :: 0 <= j < |rest| ==> rest[j] == items[if j < f then j else j + 1]
    ensures SingleSelection(rest)
  {
    forall i, j | 0 <= i < |rest| && 0 <= j < |rest| && IsSelected(rest[i]) && IsSelected(rest[j])
      ensures i == j
    {
      var i' := if f >= 0 && i >= f then i + 1 else i;
      var j' := if f >= 0 && j >= f then j + 1 else j;
      assert rest[i] == items[i'] && rest[j] == items[j'];
    }
  }

  /** Detaching a node keeps at most one item selected. */
  lemma SingleSelectionWithout(items: seq<Item>, id: nat)
    requires SingleSelection(items)
    ensures SingleSelection(Without(items, id))
  {
    SingleSelectionDrop(items, Without(items, id), Find(Ids(items), id));
  }

  /** Putting `x` into a list keeps at most one item selected when `x` is the only selected one. */
  lemma SingleSelectionInsert(rest: seq<Item>, r: seq<Item>, k: nat, x: Item)
    requires k <= |rest| && |r| == |rest| + 1 && r[k] == x
    requires forall j :: 0 <= j < |r| && j != k ==> r[j] == rest[if j < k then j else j - 1]
    requires SingleSelection(rest)
    requires IsSelected(x) ==> NoneSelected(rest)
    ensures SingleSelection(r)
  {
    forall i, j | 0 <= i < |r| && 0 <= j < |r| && IsSelected(r[i]) && IsSelected(r[j])
      ensures i == j
    {
      if i != k && j != k {
        assert IsSelected(rest[if i < k then i else i - 1]);
        assert IsSelected(rest[if j < k then j else j - 1]);
      }
    }
  }

  /** The list the dragged item is inserted into, once it is detached, agrees in selection with the old list without it. */
  lemma DetachedSelection(items: seq<Item>, dragging: Item, next: Option<nat>)
    requires CanInsert(items, dragging, next)
    ensures var anim := AnimateRange(items, DraggingIndex(items, dragging.id), SiblingIndex(items, next));
      SameSelection(Without(anim, dragging.id), Without(items, dragging.id))
  {
    var anim := AnimateRange(items, DraggingIndex(items, dragging.id), SiblingIndex(items, next));
    assert SameSelection(anim, items);
    SameSelectionWithout(anim, items, dragging.id);
  }

  /** The drag handler's insertion keeps selection single when the inserted item is the only selected one. */
  lemma MoveKeepsSingleSelection(items: seq<Item>, dragging: Item, next: Option<nat>)
    requires CanInsert(items, dragging, next)
    requires SingleSelection(items)
    requires IsSelected(dragging) ==> NoneSelected(Without(items, dragging.id))
    ensures SingleSelection(MoveWithAnimation(items, dragging, next))
  {
    var di := DraggingIndex(items, dragging.id);
    var si := SiblingIndex(items, next);
    var anim := AnimateRange(items, di, si);
    var x := Moved(dragging, di, si);
    var rest := Without(anim, dragging.id);
    var k := InsertPosition(anim, x, next);
    DetachedSelection(items, dragging, next);
    SingleSelectionWithout(items, dragging.id);
    assert SingleSelection(rest);
    assert IsSelected(x) ==> NoneSelected(rest);
    InsertAtShape(rest, k, x);
    SingleSelectionInsert(rest, InsertAt(rest, k, x), k, x);
  }

  /**
   * Dragging an item into another sidebar's list keeps that list's
   * selection single: the `movetonewlist` handler runs before the item is
   * inserted, and its deselection happens whether or not the panel exists.
   */
  lemma DragIntoOtherListKeepsSingleSelection(item: Item, dest: Bar, source: Bar, next: Option<nat>)
    requires Unique(dest.panels + source.panels)
    requires CanInsert(dest.list, item, next) && Find(Ids(dest.list), item.id) < 0
    requires SingleSelection(dest.list)
    ensures SingleSelection(MoveWithAnimation(OnMoveToNewList(item, dest, source).0.list, item, next))
  {
    var l := OnMoveToNewList(item, dest, source).0.list;
    assert Find(Ids(l), item.id) < 0;
    assert Without(l, item.id) == l;
    assert SingleSelection(l) by {
      if IsSelected(item) {
        assert NoneSelected(l);
      } else {
        assert l == dest.list;
      }
    }
    MoveKeepsSingleSelection(l, item, next);
  }

  /**
   * The other way into a list, `dragleave`, deselects nothing: when the
   * shared drag counter reaches zero on a list the dragged item is not in,
   * the item is appended to that list with its `selected` class, next to
   * the list's own selected item. No `movetonewlist` is dispatched on
   * this path, so the list ends with two selected items.
   */
  lemma DragLeaveIntoOtherListCanDoubleSelect(items: seq<Item>, dragging: Item, i: nat)
    requires Distinct(Ids(items)) && Find(Ids(items), dragging.id) < 0
    requires i < |items| && IsSelected(items[i])
    requires IsSelected(dragging)
    ensures OnDragLeave(1, items, dragging).1.Some?
    ensures !SingleSelection(OnDragLeave(1, items, dragging).1.value)
  {
    var r := MoveWithAnimation(items, dragging, None);
    MoveAnimatesExactlyTheShifted(items, dragging, None);
    MovePlacesDragged(items, dragging, None);
    var di := DraggingIndex(items, dragging.id);
    assert di == |items| && Shift(i, di, |items|) == i;
    assert r[i] == items[i];
    var k := |r| - 1;
    assert k == |items| && i != k;
    assert IsSelected(r[k]);
    var l := OnDragLeave(1, items, dragging).1.value;
    assert l == MarkLastOut(r);
    assert IsSelected(l[i]) && IsSelected(l[k]);
  }

  // ---------------------------------------------------------------------
  // Resize bars

  /** The CSS variables holding widths, as the strings `getPropertyValue` returns (e.g. "250px"). */
  datatype Widths = Widths(sortableList: string, leftPanel: string, rightPanel: string)

  /** `s.slice(0, -2)`: the value without its unit. */
  function DropUnit(s: string): (r: string)
    ensures |r| == if |s| >= 2 then |s| - 2 else 0
    ensures r <= s
  {
    if |s| >= 2 then s[..|s| - 2] else ""
  }

  /** The template literal `${n}px`. */
  function Px(n: int): string
  {
    IntToString(n) + "px"
  }

  /** A width written by a resize bar reads back as the same number. */
  lemma PxRoundTrip(n: int)
    ensures ParseInt(DropUnit(Px(n))) == Some(n)
  {
    assert DropUnit(Px(n)) == IntToString(n);
    ParseIntOfIntToString(n);
  }

  datatype Side = Left | Right

  /** The left bar's guard: both widths parse and `clientX < bodyWidth - slw - rpw`. */
  predicate LeftGuard(w: Widths, bodyWidth: int, clientX: int)
  {
    var slw := ParseInt(DropUnit(w.sortableList));
    var rpw := ParseInt(DropUnit(w.rightPanel));
    slw.Some? && rpw.Some? && clientX < bodyWidth - slw.value - rpw.value
  }

  /** The right bar's guard: both widths parse and `clientX > slw + lpw`. */
  predicate RightGuard(w: Widths, bodyWidth: int, clientX: int)
  {
    var slw := ParseInt(DropUnit(w.sortableList));
    var lpw := ParseInt(DropUnit(w.leftPanel));
    slw.Some? && lpw.Some? && clientX > slw.value + lpw.value
  }

  /**
   * The left bar while pressed: under its guard the left width is written
   * as `${clientX - slw}px`, otherwise nothing changes. A width that does
   * not parse is `NaN`, and every comparison with it is false. This is
   * `LeftBarStep` on the widths as `parseInt` reads them.
   */
  function LeftBarMove(w: Widths, bodyWidth: int, clientX: int): (r: Widths)
    ensures r.sortableList == w.sortableList && r.rightPanel == w.rightPanel
    ensures !LeftGuard(w, bodyWidth, clientX) ==> r == w
    ensures LeftGuard(w, bodyWidth, clientX) ==> r.leftPanel == Px(clientX - ParseInt(DropUnit(w.sortableList)).value)
  {
    LeftBarStep(w, ParseInt(DropUnit(w.sortableList)), ParseInt(DropUnit(w.rightPanel)), bodyWidth, clientX)
  }

  /** The left bar's step once the widths are read (`None` is `NaN`). */
  function LeftBarStep(w: Widths, slw: Option<int>, rpw: Option<int>, bodyWidth: int, clientX: int): Widths
  {
    if slw.Some? && rpw.Some? && clientX < bodyWidth - slw.value - rpw.value then
      w.(leftPanel := Px(clientX - slw.value))
    else w
  }

  /**
   * When the sortable list is `slw` wide and the right panel `rpw`, the
   * left width the bar writes reads back as `clientX - slw`, and it stays
   * below `bodyWidth - 2 * slw - rpw`.
   */
  lemma LeftBarWidth(w: Widths, slw: Option<int>, rpw: Option<int>, bodyWidth: int, clientX: int)
    requires slw.Some? && rpw.Some? && clientX < bodyWidth - slw.value - rpw.value
    ensures ParseInt(DropUnit(LeftBarStep(w, slw, rpw, bodyWidth, clientX).leftPanel)) == Some(clientX - slw.value)
    ensures clientX - slw.value < bodyWidth - 2 * slw.value - rpw.value
  {
    PxRoundTrip(clientX - slw.value);
  }

  /**
   * The right bar while pressed: under its guard the right width is
   * written as `${bodyWidth - clientX - slw}px`, otherwise nothing changes.
   * This is `RightBarStep` on the widths as `parseInt` reads them.
   */
  function RightBarMove(w: Widths, bodyWidth: int, clientX: int): (r: Widths)
    ensures r.sortableList == w.sortableList && r.leftPanel == w.leftPanel
    ensures !RightGuard(w, bodyWidth, clientX) ==> r == w
    ensures RightGuard(w, bodyWidth, clientX) ==> r.rightPanel == Px(bodyWidth - clientX - ParseInt(DropUnit(w.sortableList)).value)
  {
    RightBarStep(w, ParseInt(DropUnit(w.sortableList)), ParseInt(DropUnit(w.leftPanel)), bodyWidth, clientX)
  }

  /** The right bar's step once the widths are read. */
  function RightBarStep(w: Widths, slw: Option<int>, lpw: Option<int>, bodyWidth: int, clientX: int): Widths
  {
    if slw.Some? && lpw.Some? && clientX > slw.value + lpw.value then
      w.(rightPanel := Px(bodyWidth - clientX - slw.value))
    else w
  }

  /**
   * When the sortable list is `slw` wide and the left panel `lpw`, the
   * right width the bar writes reads back as `bodyWidth - clientX - slw`,
   * and it stays below `bodyWidth - 2 * slw - lpw`.
   */
  lemma RightBarWidth(w: Widths, slw: Option<int>, lpw: Option<int>, bodyWidth: int, clientX: int)
    requires slw.Some? && lpw.Some? && clientX > slw.value + lpw.value
    ensures ParseInt(DropUnit(RightBarStep(w, slw, lpw, bodyWidth, clientX).rightPanel)) == Some(bodyWidth - clientX - slw.value)
    ensures bodyWidth - clientX - slw.value < bodyWidth - 2 * slw.value - lpw.value
  {
    PxRoundTrip(bodyWidth - clientX - slw.value);
  }

  /** A `mousemove` over the resize bar of sidebar `side`: nothing unless the bar is pressed. */
  function OnBarMouseMove(side: Side, pressed: bool, w: Widths, bodyWidth: int, clientX: int): (r: Widths)
    ensures !pressed ==> r == w
    ensures r.sortableList == w.sortableList
    ensures side.Left? ==> r.rightPanel == w.rightPanel
    ensures side.Right? ==> r.leftPanel == w.leftPanel
  {
    if !pressed then w
    else if side.Left? then LeftBarMove(w, bodyWidth, clientX)
    else RightBarMove(w, bodyWidth, clientX)
  }

  /** The events a resize bar listens to. */
  datatype BarEvent = MouseDown | MouseUp | MouseMove(clientX: int)

  /** A resize bar: whether it carries `_clicked`, and the widths. */
  datatype BarState = BarState(pressed: bool, widths: Widths)

  function BarStep(side: Side, bodyWidth: int, s: BarState, e: BarEvent): BarState
  {
    match e
    case MouseDown => s.(pressed := true)
    case MouseUp => s.(pressed := false)
    case MouseMove(x) => s.(widths := OnBarMouseMove(side, s.pressed, s.widths, bodyWidth, x))
  }

  function BarRun(side: Side, bodyWidth: int, s: BarState, es: seq<BarEvent>): BarState
    decreases |es|
  {
    if |es| == 0 then s else BarRun(side, bodyWidth, BarStep(side, bodyWidth, s, es[0]), es[1..])
  }

  /** Whether the last press event in `es` was a `mousedown` (`pressed` when there is none). */
  function PressedAfter(pressed: bool, es: seq<BarEvent>): bool
    decreases |es|
  {
    if |es| == 0 then pressed
    else PressedAfter(if es[0].MouseDown? then true else if es[0].MouseUp? then false else pressed, es[1..])
  }

  /**
   * `_clicked` is set exactly between a `mousedown` and the next `mouseup`,
   * and a bar that is not pressed and sees no `mousedown` never changes the
   * widths.
   */
  lemma {:induction false} BarPressedBetweenDownAndUp(side: Side, bodyWidth: int, s: BarState, es: seq<BarEvent>)
    decreases |es|
    ensures BarRun(side, bodyWidth, s, es).pressed == PressedAfter(s.pressed, es)
    ensures !s.pressed && (forall i :: 0 <= i < |es| ==> !es[i].MouseDown?) ==> BarRun(side, bodyWidth, s, es) == s
  {
    if |es| > 0 {
      BarPressedBetweenDownAndUp(side, bodyWidth, BarStep(side, bodyWidth, s, es[0]), es[1..]);
    }
  }

  // ---------------------------------------------------------------------
  // Narrow window

  /** The window width below which both sidebars are merged into the left one. */
  const NarrowWidth := 769

  /** The `data-ref` of every item, in order. */
  function Refs(l: seq<Item>): (r: seq<string>)
    ensures |r| == |l| && forall i :: 0 <= i < |l| ==> r[i] == l[i].ref
  {
    seq(|l|, i requires 0 <= i < |l| => l[i].ref)
  }

  /** Some item of `l` names a panel that is not among `panels`. */
  predicate Missing(l: seq<Item>, panels: seq<string>)
  {
    exists i :: 0 <= i < |l| && l[i].ref !in panels
  }

  /**
   * The panel half of the merge: each ref, in order, has its panel moved
   * to the end of `to`. `None` as soon as one names no panel.
   */
  function MovePanels(to: seq<string>, from: seq<string>, refs: seq<string>): Option<(seq<string>, seq<string>)>
    requires Unique(to + from)
    decreases |refs|
  {
    if |refs| == 0 then Some((to, from))
    else
      match MovePanel(to, from, refs[0])
      case None => None
      case Some((t, f)) => MovePanels(t, f, refs[1..])
  }

  /** A panel already in `to` and not in `from` stays so whatever is moved after it. */
  lemma {:induction false} MovePanelsKeepsPlaced(to: seq<string>, from: seq<string>, refs: seq<string>, x: string)
    requires Unique(to + from)
    requires x in to && x !in from
    ensures MovePanels(to, from, refs).Some? ==> Placed(x, MovePanels(to, from, refs).value)
    decreases |refs|
  {
    if |refs| > 0 && MovePanel(to, from, refs[0]).Some? {
      var m := MovePanel(to, from, refs[0]).value;
      if x != refs[0] {
        MovePanelKeepsOthers(to, from, refs[0], x);
        assert multiset(m.0)[x] == multiset(to)[x];
        assert multiset(m.1)[x] == multiset(from)[x];
      } else {
        assert m.0[|m.0| - 1] == x;
      }
      MovePanelsKeepsPlaced(m.0, m.1, refs[1..], x);
    }
  }

  /** Moving the panels of `refs` fails exactly when one of them names no panel. */
  lemma {:induction false} MovePanelsFails(to: seq<string>, from: seq<string>, refs: seq<string>)
    requires Unique(to + from)
    ensures MovePanels(to, from, refs).None? <==> exists i :: 0 <= i < |refs| && refs[i] !in multiset(to + from)
    decreases |refs|
  {
    if |refs| > 0 {
      if MovePanel(to, from, refs[0]).None? {
        assert refs[0] !in multiset(to + from);
      } else {
        var m := MovePanel(to, from, refs[0]).value;
        MovePanelsFails(m.0, m.1, refs[1..]);
        if MovePanels(to, from, refs).None? {
          var i :| 0 <= i < |refs[1..]| && refs[1..][i] !in multiset(m.0 + m.1);
          assert refs[i + 1] !in multiset(to + from);
        } else {
          forall i | 0 <= i < |refs|
            ensures refs[i] in multiset(to + from)
          {
            if i == 0 {
              assert refs[0] in to + from;
            } else {
              assert refs[1..][i - 1] == refs[i];
            }
          }
        }
      }
    }
  }

  /**
   * When moving the panels of `refs` succeeds, every one of them ends in
   * `to` and none in `from`, and no panel is lost or duplicated.
   */
  lemma {:induction false} MovePanelsPlaces(to: seq<string>, from: seq<string>, refs: seq<string>)
    requires Unique(to + from)
    ensures MovePanels(to, from, refs).Some? ==>
      var r := MovePanels(to, from, refs).value;
      && multiset(r.0 + r.1) == multiset(to + from)
      && forall i :: 0 <= i < |refs| ==> refs[i] in r.0 && refs[i] !in r.1
  {
    MovePanelsKeepsPanels(to, from, refs);
    MovePanelsPlacesEach(to, from, refs);
    if MovePanels(to, from, refs).Some? {
      var r := MovePanels(to, from, refs).value;
      forall i | 0 <= i < |refs|
        ensures refs[i] in r.0 && refs[i] !in r.1
      {
        assert Placed(refs[i], r);
      }
    }
  }

  /** Moving panels between the two sidebars loses and duplicates none. */
  lemma {:induction false} MovePanelsKeepsPanels(to: seq<string>, from: seq<string>, refs: seq<string>)
    requires Unique(to + from)
    ensures MovePanels(to, from, refs).Some? ==>
      var r := MovePanels(to, from, refs).value;
      multiset(r.0 + r.1) == multiset(to + from)
    decreases |refs|
  {
    if |refs| > 0 && MovePanel(to, from, refs[0]).Some? {
      var m := MovePanel(to, from, refs[0]).value;
      MovePanelsKeepsPanels(m.0, m.1, refs[1..]);
    }
  }

  /** Panel `x` is in the first sidebar of `p` and not in the second. */
  predicate Placed(x: string, p: (seq<string>, seq<string>))
  {
    x in p.0 && x !in p.1
  }

  /** Every panel named in `refs` ends in `to` and not in `from`. */
  lemma {:induction false} MovePanelsPlacesEach(to: seq<string>, from: seq<string>, refs: seq<string>)
    requires Unique(to + from)
    ensures MovePanels(to, from, refs).Some? ==>
      forall i :: 0 <= i < |refs| ==> Placed(refs[i], MovePanels(to, from, refs).value)
    decreases |refs|
  {
    if |refs| > 0 && MovePanel(to, from, refs[0]).Some? {
      var m := MovePanelsFirst(to, from, refs);
      MovePanelsPlacesEach(m.0, m.1, refs[1..]);
      MovePanelsKeepsPlaced(m.0, m.1, refs[1..], refs[0]);
      PlacedCons(refs, MovePanels(to, from, refs));
    }
  }

  /** The first step of `MovePanels`: the first panel is placed, and the rest are moved from there. */
  lemma MovePanelsFirst(to: seq<string>, from: seq<string>, refs: seq<string>) returns (m: (seq<string>, seq<string>))
    requires Unique(to + from)
    requires |refs| > 0 && MovePanel(to, from, refs[0]).Some?
    ensures m == MovePanel(to, from, refs[0]).value
    ensures Unique(m.0 + m.1) && Placed(refs[0], m)
    ensures MovePanels(to, from, refs) == MovePanels(m.0, m.1, refs[1..])
  {
    m := MovePanel(to, from, refs[0]).value;
    assert m.0[|m.0| - 1] == refs[0];
  }

  /** A result that places the first panel and all of the others places all of them. */
  lemma PlacedCons(refs: seq<string>, r: Option<(seq<string>, seq<string>)>)
    requires |refs| > 0
    requires r.Some? ==> Placed(refs[0], r.value)
    requires r.Some? ==> forall i :: 0 <= i < |refs[1..]| ==> Placed(refs[1..][i], r.value)
    ensures r.Some? ==> forall i :: 0 <= i < |refs| ==> Placed(refs[i], r.value)
  {
    if r.Some? {
      forall i | 0 <= i < |refs|
        ensures Placed(refs[i], r.value)
      {
        if i > 0 {
          assert refs[1..][i - 1] == refs[i];
        }
      }
    }
  }

  /** `Missing` read on the refs and the multiset of the panels. */
  lemma MissingRefs(l: seq<Item>, panels: seq<string>)
    ensures Missing(l, panels) <==> exists i :: 0 <= i < |Refs(l)| && Refs(l)[i] !in multiset(panels)
  {
    if Missing(l, panels) {
      var i :| 0 <= i < |l| && l[i].ref !in panels;
      assert Refs(l)[i] !in multiset(panels);
    }
  }

  /**
   * The first `forEach` of `onResize`: each item of the right list, in
   * order, is appended to the left list and its panel moved into the left
   * sidebar. The items move without condition, so only the panels can make
   * it fail: `None` when some panel is missing and `appendChild` throws.
   */
  method MergeRightIntoLeft(left: Bar, right: Bar) returns (r: Option<(Bar, Bar)>)
    requires Unique(left.panels + right.panels)
    ensures r.None? <==> Missing(right.list, left.panels + right.panels)
    ensures r.Some? ==>
      && r.value.0.list == left.list + right.list
      && r.value.1.list == []
      && (forall i :: 0 <= i < |right.list| ==> right.list[i].ref in r.value.0.panels && right.list[i].ref !in r.value.1.panels)
      && multiset(r.value.0.panels + r.value.1.panels) == multiset(left.panels + right.panels)
  {
    var refs := Refs(right.list);
    MissingRefs(right.list, left.panels + right.panels);
    MovePanelsFails(left.panels, right.panels, refs);
    MovePanelsPlaces(left.panels, right.panels, refs);
    var panels := MovePanels(left.panels, right.panels, refs);
    if panels.None? {
      return None;
    }
    r := Some((Bar(left.list + right.list, panels.value.0), Bar([], panels.value.1)));
  }

  /**
   * `onResize`: on a narrow window both sidebars are merged into the left
   * one, then no item of the left list is selected.
   */
  method OnResize(left: Bar, right: Bar, innerWidth: int) returns (r: Option<(Bar, Bar)>)
    requires Unique(left.panels + right.panels)
    ensures innerWidth >= NarrowWidth ==> r == Some((left, right))
    ensures innerWidth < NarrowWidth ==>
      (r.None? <==> Missing(right.list, left.panels + right.panels))
    ensures innerWidth < NarrowWidth && r.Some? ==>
      && r.value.1.list == []
      && |r.value.0.list| == |left.list| + |right.list|
      && (forall i :: 0 <= i < |r.value.0.list| ==> r.value.0.list[i] == Deselect((left.list + right.list)[i]))
      && NoneSelected(r.value.0.list)
      && (forall i :: 0 <= i < |right.list| ==> right.list[i].ref in r.value.0.panels && right.list[i].ref !in r.value.1.panels)
      && multiset(r.value.0.panels + r.value.1.panels) == multiset(left.panels + right.panels)
  {
    if innerWidth >= NarrowWidth {
      return Some((left, right));
    }
    var merged := MergeRightIntoLeft(left, right);
    if merged.None? {
      return None;
    }
    var (l, rb) := merged.value;
    var cleared := seq(|l.list|, j requires 0 <= j < |l.list| => Deselect(l.list[j]));
    r := Some((l.(list := cleared), rb));
  }
}

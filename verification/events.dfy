/**
 * The page-level handlers of scripts/events.js: `switchState`, which flips
 * the `data-state` of the page wrapper between showing the navigation and
 * showing only the preview, and `addExpanderForAllBranch`, which gives
 * every branch item of the navigation an expander that opens and closes it.
 */
module PageEvents {
  import opened ClassList

  // ---------------------------------------------------------------------
  // switchState

  /** Navigation and preview both shown. */
  const Default := "default"

  /** Only the preview shown. */
  const OnlyPreview := "only-preview"

  predicate ValidState(s: string)
  {
    s == Default || s == OnlyPreview
  }

  /**
   * `switchState` on the wrapper's `data-state`: `"default"` becomes
   * `"only-preview"`, and any other value, a valid one or not, becomes
   * `"default"`.
   */
  function SwitchState(state: string): (r: string)
    ensures ValidState(r)
    ensures r == OnlyPreview <==> state == Default
  {
    if state == Default then OnlyPreview else Default
  }

  /**
   * Switching twice gives back a valid state, and from any state the page
   * ends in a valid one after a single switch and stays two-periodic.
   */
  lemma SwitchStateTwice(state: string)
    ensures ValidState(state) ==> SwitchState(SwitchState(state)) == state
    ensures !ValidState(state) ==> SwitchState(SwitchState(state)) == OnlyPreview
    ensures SwitchState(SwitchState(SwitchState(state))) == SwitchState(state)
  {
  }

  // ---------------------------------------------------------------------
  // addExpanderForAllBranch

  /** Class of the items of the navigation tree. */
  const NavTreeItem := "nav-tree-item"

  /** Class of the items that have sub-items. */
  const BranchClass := "_branch"

  /** Class of an opened branch. */
  const Opened := "_opened"

  /**
   * A node of the document: an element with its classes and children, or
   * an expander `div.nav-tree-item-expander` created by the load handler.
   */
  datatype Node =
    | Element(classes: Classes, children: seq<Node>)
    | Expander

  /** Whether the node matches `.nav-tree-item._branch`. */
  predicate IsBranch(n: Node)
  {
    n.Element? && NavTreeItem in n.classes && BranchClass in n.classes
  }

  /**
   * `addExpanderForAllBranch`: every element matching
   * `.nav-tree-item._branch` gets a fresh expander prepended to its
   * children. The matches are collected before any expander is added, and
   * an expander matches nothing, so the order of the `forEach` does not
   * matter and the whole document is rewritten in one pass.
   */
  function AddExpanders(n: Node): (r: Node)
    ensures r.Element? <==> n.Element?
    ensures n.Element? ==> r.classes == n.classes
    ensures n.Element? ==> |r.children| == |n.children| + (if IsBranch(n) then 1 else 0)
    decreases n
  {
    match n
    case Expander => Expander
    case Element(cls, kids) =>
      var mapped := seq(|kids|, i requires 0 <= i < |kids| => AddExpanders(kids[i]));
      Element(cls, if IsBranch(n) then [Expander] + mapped else mapped)
  }

  /** A document before the load handler: no expander anywhere. */
  predicate NoExpanders(n: Node)
    decreases n
  {
    n.Element? && forall i :: 0 <= i < |n.children| ==> NoExpanders(n.children[i])
  }

  /**
   * Every branch has exactly one expander among its children, and it is
   * the first; no other element has one.
   */
  predicate WellExpanded(n: Node)
    decreases n
  {
    match n
    case Expander => true
    case Element(_, kids) =>
      && (if IsBranch(n)
          then |kids| > 0 && kids[0].Expander? && forall i :: 1 <= i < |kids| ==> kids[i].Element?
          else forall i :: 0 <= i < |kids| ==> kids[i].Element?)
      && forall i :: 0 <= i < |kids| ==> WellExpanded(kids[i])
  }

  /** After the load handler on a document without expanders, every branch has exactly one, placed first. */
  lemma {:induction false} AddExpandersWellExpanded(n: Node)
    requires NoExpanders(n)
    ensures WellExpanded(AddExpanders(n))
    decreases n
  {
    var r := AddExpanders(n);
    var off := if IsBranch(n) then 1 else 0;
    forall i | 0 <= i < |n.children|
      ensures r.children[i + off] == AddExpanders(n.children[i])
      ensures r.children[i + off].Element? && WellExpanded(r.children[i + off])
    {
      AddExpandersWellExpanded(n.children[i]);
    }
    forall j | off <= j < |r.children|
      ensures r.children[j].Element? && WellExpanded(r.children[j])
    {
      assert r.children[(j - off) + off] == r.children[j];
    }
  }

  /** The children that are not expanders, in order. */
  function Kept(kids: seq<Node>): (r: seq<Node>)
    ensures forall i :: 0 <= i < |r| ==> r[i] in kids && r[i].Element?
    ensures |r| <= |kids|
  {
    if |kids| == 0 then []
    else if kids[0].Expander? then Kept(kids[1..])
    else [kids[0]] + Kept(kids[1..])
  }

  /** The document with every expander removed. */
  function Strip(n: Node): (r: Node)
    ensures n.Element? ==> r.Element? && r.classes == n.classes
    ensures NoExpanders(r) <==> n.Element?
    decreases n
  {
    match n
    case Expander => Expander
    case Element(cls, kids) =>
      var kept := Kept(kids);
      Element(cls, seq(|kept|, i requires 0 <= i < |kept| => assert kept[i] in kids; Strip(kept[i])))
  }

  /** A sequence of elements keeps every child. */
  lemma {:induction false} KeptElements(kids: seq<Node>)
    requires forall i :: 0 <= i < |kids| ==> kids[i].Element?
    ensures Kept(kids) == kids
  {
    if |kids| > 0 {
      KeptElements(kids[1..]);
    }
  }

  /**
   * Removing the expanders again gives back the document the handler
   * started from: the handler adds expanders and changes nothing else.
   */
  lemma {:induction false} StripAddExpanders(n: Node)
    requires NoExpanders(n)
    ensures Strip(AddExpanders(n)) == n
    decreases n
  {
    var kids := n.children;
    var mapped := seq(|kids|, i requires 0 <= i < |kids| => AddExpanders(kids[i]));
    assert AddExpanders(n).children == if IsBranch(n) then [Expander] + mapped else mapped;
    KeptElements(mapped);
    if IsBranch(n) {
      assert Kept([Expander] + mapped) == Kept(mapped) by {
        assert ([Expander] + mapped)[1..] == mapped;
      }
    }
    var r := Strip(AddExpanders(n));
    forall i | 0 <= i < |kids|
      ensures r.children[i] == kids[i]
    {
      StripAddExpanders(kids[i]);
    }
  }

  /**
   * The click handler of an expander: its element loses `_opened` when it
   * has it and gains it otherwise. Nothing else of the element changes.
   */
  function OnExpanderClick(element: Node): (r: Node)
    requires element.Element?
    ensures r.Element? && r.children == element.children
    ensures Opened in r.classes <==> Opened !in element.classes
    ensures forall c :: c != Opened ==> (c in r.classes <==> c in element.classes)
  {
    element.(classes := Toggle(element.classes, Opened))
  }

  /** Two clicks on an expander leave its element as it was. */
  lemma OnExpanderClickTwice(element: Node)
    requires element.Element?
    ensures OnExpanderClick(OnExpanderClick(element)) == element
  {
    ToggleTwice(element.classes, Opened);
  }
}

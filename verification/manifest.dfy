/**
 * `createNotesNavTree` and its recursive `buildTree` (scripts/navtree.js):
 * a walk over the `notes` element of nav.xml that fills a `NavTree`.
 * `notes` elements are transparent, each `note` becomes a link item with
 * a `data-src`, each `note-list` a branch holding its children, and any
 * other element is skipped with everything inside it.
 */
module Manifest {
  import opened Options
  import opened NavTree

  /** An element of nav.xml: tag name, attributes, inner markup and element children. */
  datatype Tag = Tag(name: string, attrs: map<string, string>, inner: string, children: seq<Tag>)

  /** `tag.getAttribute(a)`, with `None` for `null`. */
  function Attr(t: Tag, a: string): Option<string>
  {
    if a in t.attrs then Some(t.attrs[a]) else None
  }

  /** `setAttribute` stores the string form of its value, so a missing `src` is stored as "null". */
  function AttrText(v: Option<string>): string
  {
    v.GetOr("null")
  }

  /** Setting `innerText` to `null` shows nothing. */
  function TextOrEmpty(v: Option<string>): string
  {
    v.GetOr("")
  }

  /** An item with its label's `data-src` set. */
  function WithSrc(n: Node, src: string): Node
  {
    match n
    case Item(c) => Item(c.(src := Some(src)))
    case Branch(c, o, kids) => Branch(c.(src := Some(src)), o, kids)
  }

  /** The item a `note` element ends up as: its inner markup as label, its `src` as `data-src`. */
  function NoteItem(tag: Tag, withCallback: bool): Node
  {
    WithSrc(NewItem(tag.inner, withCallback), AttrText(Attr(tag, "src")))
  }

  /** The branch a `note-list` element ends up as, holding `kids`. */
  function ListBranch(tag: Tag, kids: seq<Node>): Node
  {
    var nb := NewBranch(TextOrEmpty(Attr(tag, "name")));
    Branch(nb.content, nb.isOpen, kids)
  }

  // ---------------------------------------------------------------------
  // Reference definition: what each element contributes to its parent list

  /** The items `tag` contributes, in order, to the list it is built into. */
  function Build(tag: Tag, withCallback: bool): seq<Node>
    decreases tag, 1
  {
    if tag.name == "notes" then BuildAll(tag.children, withCallback)
    else if tag.name == "note" then [NoteItem(tag, withCallback)]
    else if tag.name == "note-list" then [ListBranch(tag, BuildAll(tag.children, withCallback))]
    else []
  }

  function BuildAll(tags: seq<Tag>, withCallback: bool): seq<Node>
    decreases tags, 0
  {
    if |tags| == 0 then [] else Build(tags[0], withCallback) + BuildAll(tags[1..], withCallback)
  }

  // ---------------------------------------------------------------------
  // buildTree, element by element, on a widget

  /**
   * `buildTree(tag, parent)`: builds the items of `tag` into the list at
   * `parent`, through `createNavItem`/`createNavList` and `setAttribute`.
   * Its effect is to append `Build(tag)` to that list and to change
   * nothing else.
   */
  function BuildTree(tag: Tag, t: Tree, parent: Path, withCallback: bool): (r: Tree)
    requires ListAt(t.roots, parent).Some?
    ensures r.roots == SetListAt(t.roots, parent, ListAt(t.roots, parent).value + Build(tag, withCallback))
    ensures ListAt(r.roots, parent) == Some(ListAt(t.roots, parent).value + Build(tag, withCallback))
    ensures r.avatar == t.avatar
    decreases tag, 1
  {
    var l := ListAt(t.roots, parent).value;
    if tag.name == "notes" then
      var r := BuildChildren(tag.children, t, parent, withCallback);
      r
    else if tag.name == "note" then
      var (t1, p) := CreateNavItem(t, tag.inner, withCallback, parent);
      var item := Get(t1.roots, p).value;
      NoteSetsSrc(t, tag, withCallback, parent);
      t1.(roots := SetAt(t1.roots, p, WithSrc(item, AttrText(Attr(tag, "src")))))
    else if tag.name == "note-list" then
      var (t1, p) := CreateNavList(t, TextOrEmpty(Attr(tag, "name")), parent);
      NoteListNests(t, tag, parent, withCallback);
      BuildChildren(tag.children, t1, p, withCallback)
    else
      SetListAtSame(t.roots, parent);
      ListAtSetListAt(t.roots, parent, l);
      assert l + [] == l;
      t
  }

  /**
   * Filling the list of a fresh `note-list` branch with `kids` is one
   * replacement of the parent list, which then ends with that branch.
   */
  lemma NoteListNests(t: Tree, tag: Tag, parent: Path, withCallback: bool)
    requires ListAt(t.roots, parent).Some?
    ensures var (t1, p) := CreateNavList(t, TextOrEmpty(Attr(tag, "name")), parent);
      var l := ListAt(t.roots, parent).value;
      var kids := BuildAll(tag.children, withCallback);
      && ListAt(t1.roots, p) == Some([])
      && SetListAt(t1.roots, p, [] + kids) == SetListAt(t.roots, parent, l + [ListBranch(tag, kids)])
      && ListAt(SetListAt(t.roots, parent, l + [ListBranch(tag, kids)]), parent) == Some(l + [ListBranch(tag, kids)])
  {
    var l := ListAt(t.roots, parent).value;
    var kids := BuildAll(tag.children, withCallback);
    var nb := NewBranch(TextOrEmpty(Attr(tag, "name")));
    SetListAtNested(t.roots, parent, l + [nb], |l|, kids);
    assert (l + [nb])[|l| := nb.(children := kids)] == l + [ListBranch(tag, kids)];
    assert [] + kids == kids;
    ListAtSetListAt(t.roots, parent, l + [ListBranch(tag, kids)]);
  }

  /** Setting `data-src` on the freshly appended item is one replacement of the parent list. */
  lemma NoteSetsSrc(t: Tree, tag: Tag, withCallback: bool, parent: Path)
    requires ListAt(t.roots, parent).Some?
    ensures var (t1, p) := CreateNavItem(t, tag.inner, withCallback, parent);
      && Get(t1.roots, p).Some?
      && SetAt(t1.roots, p, WithSrc(Get(t1.roots, p).value, AttrText(Attr(tag, "src"))))
         == SetListAt(t.roots, parent, ListAt(t.roots, parent).value + [NoteItem(tag, withCallback)])
      && ListAt(SetListAt(t.roots, parent, ListAt(t.roots, parent).value + [NoteItem(tag, withCallback)]), parent)
         == Some(ListAt(t.roots, parent).value + [NoteItem(tag, withCallback)])
  {
    var l := ListAt(t.roots, parent).value;
    var (t1, p) := CreateNavItem(t, tag.inner, withCallback, parent);
    var item := NewItem(tag.inner, withCallback);
    ListAtOfParent(t1.roots, p);
    assert Parent(p) == parent && Last(p) == |l|;
    assert Get(t1.roots, p) == Some(item);
    SetListAtTwice(t.roots, parent, l + [item], l + [NoteItem(tag, withCallback)]);
    assert (l + [item])[|l| := WithSrc(item, AttrText(Attr(tag, "src")))] == l + [NoteItem(tag, withCallback)];
    ListAtSetListAt(t.roots, parent, l + [NoteItem(tag, withCallback)]);
  }

  /** `for (let child of tag.children) buildTree(child, parent)`. */
  function BuildChildren(tags: seq<Tag>, t: Tree, parent: Path, withCallback: bool): (r: Tree)
    requires ListAt(t.roots, parent).Some?
    ensures r.roots == SetListAt(t.roots, parent, ListAt(t.roots, parent).value + BuildAll(tags, withCallback))
    ensures ListAt(r.roots, parent) == Some(ListAt(t.roots, parent).value + BuildAll(tags, withCallback))
    ensures r.avatar == t.avatar
    decreases tags, 0
  {
    var l := ListAt(t.roots, parent).value;
    if |tags| == 0 then
      SetListAtSame(t.roots, parent);
      assert l + [] == l;
      t
    else
      var t1 := BuildTree(tags[0], t, parent, withCallback);
      var r := BuildChildren(tags[1..], t1, parent, withCallback);
      SetListAtTwice(t.roots, parent, l + Build(tags[0], withCallback),
        l + Build(tags[0], withCallback) + BuildAll(tags[1..], withCallback));
      assert l + Build(tags[0], withCallback) + BuildAll(tags[1..], withCallback)
          == l + BuildAll(tags, withCallback);
      r
  }

  /**
   * `createNotesNavTree(treeRoot, notes, callback)`: a fresh widget whose
   * top-level list holds exactly what `notes` contributes. `withCallback`
   * says whether the callback passed is non-null.
   */
  function CreateNotesNavTree(notes: Tag, withCallback: bool): (r: Tree)
    ensures r.roots == Build(notes, withCallback)
    ensures r.avatar == ""
  {
    BuildTree(notes, NewTree(), [], withCallback)
  }

  // ---------------------------------------------------------------------
  // Traversals of the manifest and of the built tree

  /** Every element of the manifest in pre-order. */
  function Preorder(tag: Tag): seq<Tag>
    decreases tag, 1
  {
    [tag] + PreorderAll(tag.children)
  }

  function PreorderAll(tags: seq<Tag>): seq<Tag>
    decreases tags, 0
  {
    if |tags| == 0 then [] else Preorder(tags[0]) + PreorderAll(tags[1..])
  }

  /**
   * The elements `buildTree` reaches, in the order it reaches them: it
   * descends into `notes` and `note-list`, stops at `note`, and never
   * enters any other element.
   */
  function Visited(tag: Tag): seq<Tag>
    decreases tag, 1
  {
    if tag.name == "notes" || tag.name == "note-list" then [tag] + VisitedAll(tag.children)
    else if tag.name == "note" then [tag]
    else []
  }

  function VisitedAll(tags: seq<Tag>): seq<Tag>
    decreases tags, 0
  {
    if |tags| == 0 then [] else Visited(tags[0]) + VisitedAll(tags[1..])
  }

  /** A manifest made only of the three known elements, with `note` elements empty. */
  predicate Recognized(tag: Tag)
    decreases tag, 1
  {
    && (tag.name == "notes" || tag.name == "note" || tag.name == "note-list")
    && (tag.name == "note" ==> |tag.children| == 0)
    && RecognizedAll(tag.children)
  }

  predicate RecognizedAll(tags: seq<Tag>)
    decreases tags, 0
  {
    |tags| == 0 || (Recognized(tags[0]) && RecognizedAll(tags[1..]))
  }

  /** The labels of the plain items of a list, in document order. */
  function Leaves(ns: seq<Node>): seq<Content>
    decreases ns
  {
    if |ns| == 0 then []
    else
      var own := match ns[0]
        case Item(c) => [c]
        case Branch(_, _, kids) => Leaves(kids);
      own + Leaves(ns[1..])
  }

  /** The labels of the branches of a list, in document order. */
  function BranchLabels(ns: seq<Node>): seq<string>
    decreases ns
  {
    if |ns| == 0 then []
    else
      var own := match ns[0]
        case Item(_) => []
        case Branch(c, _, kids) => [c.text] + BranchLabels(kids);
      own + BranchLabels(ns[1..])
  }

  /** The labels the `note` elements of a sequence of elements call for, in order. */
  function NoteContents(tags: seq<Tag>, withCallback: bool): seq<Content>
  {
    if |tags| == 0 then []
    else
      var own := if tags[0].name == "note" then [NoteItem(tags[0], withCallback).content] else [];
      own + NoteContents(tags[1..], withCallback)
  }

  /** The names the `note-list` elements of a sequence of elements call for, in order. */
  function ListNames(tags: seq<Tag>): seq<string>
  {
    if |tags| == 0 then []
    else
      var own := if tags[0].name == "note-list" then [TextOrEmpty(Attr(tags[0], "name"))] else [];
      own + ListNames(tags[1..])
  }

  lemma {:induction false} LeavesAppend(a: seq<Node>, b: seq<Node>)
    ensures Leaves(a + b) == Leaves(a) + Leaves(b)
    decreases a
  {
    if |a| > 0 {
      assert (a + b)[0] == a[0];
      assert (a + b)[1..] == a[1..] + b;
      LeavesAppend(a[1..], b);
    } else {
      assert a + b == b;
    }
  }

  lemma {:induction false} BranchLabelsAppend(a: seq<Node>, b: seq<Node>)
    ensures BranchLabels(a + b) == BranchLabels(a) + BranchLabels(b)
    decreases a
  {
    if |a| > 0 {
      assert (a + b)[0] == a[0];
      assert (a + b)[1..] == a[1..] + b;
      BranchLabelsAppend(a[1..], b);
    } else {
      assert a + b == b;
    }
  }

  lemma {:induction false} NoteContentsAppend(a: seq<Tag>, b: seq<Tag>, withCallback: bool)
    ensures NoteContents(a + b, withCallback) == NoteContents(a, withCallback) + NoteContents(b, withCallback)
  {
    if |a| > 0 {
      assert (a + b)[0] == a[0];
      assert (a + b)[1..] == a[1..] + b;
      NoteContentsAppend(a[1..], b, withCallback);
    } else {
      assert a + b == b;
    }
  }

  lemma {:induction false} ListNamesAppend(a: seq<Tag>, b: seq<Tag>)
    ensures ListNames(a + b) == ListNames(a) + ListNames(b)
  {
    if |a| > 0 {
      assert (a + b)[0] == a[0];
      assert (a + b)[1..] == a[1..] + b;
      ListNamesAppend(a[1..], b);
    } else {
      assert a + b == b;
    }
  }

  /**
   * The plain items of the built tree, in document order, are the `note`
   * elements `buildTree` reaches, in the order it reaches them: label the
   * note's inner markup, `data-src` its `src`, a link when a callback was
   * given, inactive.
   */
  lemma {:induction false} LeavesFollowManifest(tag: Tag, withCallback: bool)
    ensures Leaves(Build(tag, withCallback)) == NoteContents(Visited(tag), withCallback)
    decreases tag, 1
  {
    if tag.name == "notes" || tag.name == "note-list" {
      LeavesFollowManifestAll(tag.children, withCallback);
      NoteContentsAppend([tag], VisitedAll(tag.children), withCallback);
      if tag.name == "note-list" {
        var kids := BuildAll(tag.children, withCallback);
        assert Build(tag, withCallback) == [ListBranch(tag, kids)];
        assert Leaves([ListBranch(tag, kids)]) == Leaves(kids) + Leaves([]);
      }
    } else if tag.name == "note" {
      assert Leaves([NoteItem(tag, withCallback)]) == [NoteItem(tag, withCallback).content] + Leaves([]);
    }
  }

  lemma {:induction false} LeavesFollowManifestAll(tags: seq<Tag>, withCallback: bool)
    ensures Leaves(BuildAll(tags, withCallback)) == NoteContents(VisitedAll(tags), withCallback)
    decreases tags, 0
  {
    if |tags| > 0 {
      LeavesFollowManifest(tags[0], withCallback);
      LeavesFollowManifestAll(tags[1..], withCallback);
      LeavesAppend(Build(tags[0], withCallback), BuildAll(tags[1..], withCallback));
      NoteContentsAppend(Visited(tags[0]), VisitedAll(tags[1..]), withCallback);
    }
  }

  /** The branches of the built tree, in document order, are labelled by the `note-list` elements reached. */
  lemma {:induction false} BranchesFollowManifest(tag: Tag, withCallback: bool)
    ensures BranchLabels(Build(tag, withCallback)) == ListNames(Visited(tag))
    decreases tag, 1
  {
    if tag.name == "notes" || tag.name == "note-list" {
      BranchesFollowManifestAll(tag.children, withCallback);
      ListNamesAppend([tag], VisitedAll(tag.children));
      if tag.name == "note-list" {
        var kids := BuildAll(tag.children, withCallback);
        assert BranchLabels([ListBranch(tag, kids)])
            == [TextOrEmpty(Attr(tag, "name"))] + BranchLabels(kids) + BranchLabels([]);
      }
    } else if tag.name == "note" {
      assert BranchLabels([NoteItem(tag, withCallback)]) == [] + BranchLabels([]);
    }
  }

  lemma {:induction false} BranchesFollowManifestAll(tags: seq<Tag>, withCallback: bool)
    ensures BranchLabels(BuildAll(tags, withCallback)) == ListNames(VisitedAll(tags))
    decreases tags, 0
  {
    if |tags| > 0 {
      BranchesFollowManifest(tags[0], withCallback);
      BranchesFollowManifestAll(tags[1..], withCallback);
      BranchLabelsAppend(Build(tags[0], withCallback), BuildAll(tags[1..], withCallback));
      ListNamesAppend(Visited(tags[0]), VisitedAll(tags[1..]));
    }
  }

  /** In a manifest made of the known elements only, `buildTree` reaches every element, in pre-order. */
  lemma {:induction false} VisitedIsPreorder(tag: Tag)
    requires Recognized(tag)
    ensures Visited(tag) == Preorder(tag)
    decreases tag, 1
  {
    VisitedIsPreorderAll(tag.children);
    if tag.name == "note" {
      assert PreorderAll(tag.children) == [];
    }
  }

  lemma {:induction false} VisitedIsPreorderAll(tags: seq<Tag>)
    requires RecognizedAll(tags)
    ensures VisitedAll(tags) == PreorderAll(tags)
    decreases tags, 0
  {
    if |tags| > 0 {
      VisitedIsPreorder(tags[0]);
      VisitedIsPreorderAll(tags[1..]);
    }
  }

  /**
   * For a manifest of known elements, the items of the sidebar tree, in
   * document order, are its `note` elements in pre-order and its branches
   * its `note-list` elements in pre-order.
   */
  lemma NotesNavTreeFollowsManifest(notes: Tag, withCallback: bool)
    requires Recognized(notes)
    ensures Leaves(CreateNotesNavTree(notes, withCallback).roots) == NoteContents(Preorder(notes), withCallback)
    ensures BranchLabels(CreateNotesNavTree(notes, withCallback).roots) == ListNames(Preorder(notes))
  {
    VisitedIsPreorder(notes);
    LeavesFollowManifest(notes, withCallback);
    BranchesFollowManifest(notes, withCallback);
  }

  /** An element of any other name adds nothing, whatever it contains. */
  lemma UnknownElementSkipped(tag: Tag, t: Tree, parent: Path, withCallback: bool)
    requires ListAt(t.roots, parent).Some?
    requires tag.name != "notes" && tag.name != "note" && tag.name != "note-list"
    ensures BuildTree(tag, t, parent, withCallback) == t
    ensures Visited(tag) == []
  {
    SetListAtSame(t.roots, parent);
    assert ListAt(t.roots, parent).value + [] == ListAt(t.roots, parent).value;
  }

  // ---------------------------------------------------------------------
  // The widget the program starts from

  /** No item `buildTree` creates is active. */
  lemma {:induction false} BuildNoneActive(tag: Tag, withCallback: bool)
    ensures NoneActive(Build(tag, withCallback))
    decreases tag, 1
  {
    if tag.name == "notes" {
      BuildAllNoneActive(tag.children, withCallback);
    } else if tag.name == "note-list" {
      BuildAllNoneActive(tag.children, withCallback);
      assert Build(tag, withCallback)[0].children == BuildAll(tag.children, withCallback);
    }
  }

  lemma {:induction false} BuildAllNoneActive(tags: seq<Tag>, withCallback: bool)
    ensures NoneActive(BuildAll(tags, withCallback))
    decreases tags, 0
  {
    if |tags| > 0 {
      BuildNoneActive(tags[0], withCallback);
      BuildAllNoneActive(tags[1..], withCallback);
      NoneActiveAppend(Build(tags[0], withCallback), BuildAll(tags[1..], withCallback));
    }
  }

  /**
   * The widget `createNotesNavTree` builds has no active item and an empty
   * avatar, so it starts out satisfying "only links are active, at most
   * one" and "the avatar shows a label of this widget", which every
   * sequence of events then keeps.
   */
  lemma NotesNavTreeStartsValid(notes: Tag, withCallback: bool)
    ensures forall q :: !ActiveAt(CreateNotesNavTree(notes, withCallback).roots, q)
    ensures SelectionInvariant(CreateNotesNavTree(notes, withCallback).roots)
    ensures AvatarShowsLabel(CreateNotesNavTree(notes, withCallback))
  {
    BuildNoneActive(notes, withCallback);
    NoneActiveAt(Build(notes, withCallback));
    NoneActiveInvariants(CreateNotesNavTree(notes, withCallback));
  }

  /** Whatever events follow, the built widget keeps both invariants. */
  lemma NotesNavTreeRunValid(notes: Tag, withCallback: bool, es: seq<Event>)
    ensures SelectionInvariant(Run(CreateNotesNavTree(notes, withCallback), es).roots)
    ensures AvatarShowsLabel(Run(CreateNotesNavTree(notes, withCallback), es))
  {
    NotesNavTreeStartsValid(notes, withCallback);
    RunKeepsInvariants(CreateNotesNavTree(notes, withCallback), es);
  }
}

/**
 * The `NavTree` widget of scripts/navtree.js as values: a tree of
 * `li.nav-tree-item` elements, each holding one `span.nav-tree-item-content`,
 * where `_branch` items also own an expander and a nested
 * `ul.nav-tree-list`. DOM element handles become paths of child indices
 * from the widget's top-level list.
 */
module NavTree {
  import opened Options

  /**
   * The `span.nav-tree-item-content` of an item: its text, its `title`
   * attribute, whether it carries `nav-tree-link` (it was created with a
   * click callback), whether it carries `_activate`, and its `data-src`.
   */
  datatype Content = Content(text: string, title: string, link: bool, active: bool, src: Option<string>)

  /**
   * An `li.nav-tree-item`: a plain item, or a `_branch` item whose
   * `_opened` class is `isOpen` and whose nested list holds `children`.
   */
  datatype Node =
    | Item(content: Content)
    | Branch(content: Content, isOpen: bool, children: seq<Node>)

  /** One widget: the text shown by its single shared avatar, and its top-level list. */
  datatype Tree = Tree(avatar: string, roots: seq<Node>)

  /** An element of the widget, as the child indices leading to it from the top-level list. */
  type Path = seq<nat>

  /** `new NavTree(root)`: an empty top-level list and an empty avatar. */
  function NewTree(): Tree
  {
    Tree("", [])
  }

  /** The item `p` leads to, if any. */
  function Get(ns: seq<Node>, p: Path): Option<Node>
    decreases p
  {
    if |p| == 0 || p[0] >= |ns| then None
    else if |p| == 1 then Some(ns[p[0]])
    else match ns[p[0]]
      case Item(_) => None
      case Branch(_, _, kids) => Get(kids, p[1..])
  }

  /** The list new items go into: the top-level list for `[]`, else the nested list of the branch at `p`. */
  function ListAt(ns: seq<Node>, p: Path): Option<seq<Node>>
  {
    if |p| == 0 then Some(ns)
    else match Get(ns, p)
      case Some(Branch(_, _, kids)) => Some(kids)
      case _ => None
  }

  /** `ns` with the list at `p` replaced by `l`. */
  function SetListAt(ns: seq<Node>, p: Path, l: seq<Node>): seq<Node>
    requires ListAt(ns, p).Some?
    decreases p
  {
    if |p| == 0 then l
    else
      var b := ns[p[0]];
      ns[p[0] := b.(children := SetListAt(b.children, p[1..], l))]
  }

  /** The parent list of the element at a non-empty path. */
  function Parent(p: Path): Path
    requires |p| >= 1
  {
    p[..|p| - 1]
  }

  function Last(p: Path): nat
    requires |p| >= 1
  {
    p[|p| - 1]
  }

  /** `ns` with the item at `p` replaced by `n`, its position kept. */
  function SetAt(ns: seq<Node>, p: Path, n: Node): seq<Node>
    requires Get(ns, p).Some?
  {
    ListAtOfParent(ns, p);
    var l := ListAt(ns, Parent(p)).value;
    SetListAt(ns, Parent(p), l[Last(p) := n])
  }

  /** An item minus its nested items: what a change to the nested list leaves alone. */
  function Shell(n: Node): Node
  {
    match n
    case Item(c) => Item(c)
    case Branch(c, o, _) => Branch(c, o, [])
  }

  function ShellAt(ns: seq<Node>, p: Path): Option<Node>
  {
    match Get(ns, p)
    case Some(n) => Some(Shell(n))
    case None => None
  }

  /** `p` and `q` part ways: neither lies inside the other. */
  predicate Diverge(p: Path, q: Path)
  {
    exists i :: 0 <= i < |p| && i < |q| && p[i] != q[i]
  }

  // ---------------------------------------------------------------------
  // Addressing lemmas

  /** An item reached through a list is reached by extending that list's path. */
  lemma {:induction false} GetThroughList(ns: seq<Node>, p: Path, r: Path)
    requires ListAt(ns, p).Some?
    requires |r| >= 1
    ensures Get(ns, p + r) == Get(ListAt(ns, p).value, r)
    decreases p
  {
    if |p| > 0 {
      var b := ns[p[0]];
      assert (p + r)[0] == p[0];
      assert (p + r)[1..] == p[1..] + r;
      if |p| == 1 {
        assert p[1..] == [];
        assert [] + r == r;
      } else {
        GetThroughList(b.children, p[1..], r);
      }
    } else {
      assert p + r == r;
    }
  }

  /** Every item sits in the list of its parent path, at its last index. */
  lemma ListAtOfParent(ns: seq<Node>, p: Path)
    requires Get(ns, p).Some?
    ensures ListAt(ns, Parent(p)).Some?
    ensures Last(p) < |ListAt(ns, Parent(p)).value|
    ensures Get(ns, p) == Some(ListAt(ns, Parent(p)).value[Last(p)])
  {
    ListAtOfParentRec(ns, p);
  }

  lemma {:induction false} ListAtOfParentRec(ns: seq<Node>, p: Path)
    requires Get(ns, p).Some?
    ensures ListAt(ns, Parent(p)).Some?
    ensures Last(p) < |ListAt(ns, Parent(p)).value|
    ensures Get(ns, p) == Some(ListAt(ns, Parent(p)).value[Last(p)])
    decreases p
  {
    if |p| > 1 {
      var b := ns[p[0]];
      var r := p[1..];
      ListAtOfParentRec(b.children, r);
      assert Parent(r) == Parent(p)[1..];
      if |Parent(r)| == 0 {
        assert Parent(p) == [p[0]];
        assert Get(ns, Parent(p)) == Some(b);
      } else {
        assert Get(ns, Parent(p)) == Get(b.children, Parent(r));
      }
    }
  }

  /** Replacing the list at `p` by itself changes nothing. */
  lemma {:induction false} SetListAtSame(ns: seq<Node>, p: Path)
    requires ListAt(ns, p).Some?
    ensures SetListAt(ns, p, ListAt(ns, p).value) == ns
    decreases p
  {
    if |p| > 0 {
      var b := ns[p[0]];
      if |p| > 1 {
        SetListAtSame(b.children, p[1..]);
      }
    }
  }

  /** After replacing the list at `p`, the list at `p` is the replacement. */
  lemma {:induction false} ListAtSetListAt(ns: seq<Node>, p: Path, l: seq<Node>)
    requires ListAt(ns, p).Some?
    ensures ListAt(SetListAt(ns, p, l), p) == Some(l)
    decreases p
  {
    if |p| > 1 {
      var b := ns[p[0]];
      ListAtSetListAt(b.children, p[1..], l);
    }
  }

  /** A second replacement of the same list overrides the first. */
  lemma {:induction false} SetListAtTwice(ns: seq<Node>, p: Path, a: seq<Node>, b: seq<Node>)
    requires ListAt(ns, p).Some?
    ensures ListAt(SetListAt(ns, p, a), p).Some?
    ensures SetListAt(SetListAt(ns, p, a), p, b) == SetListAt(ns, p, b)
    decreases p
  {
    ListAtSetListAt(ns, p, a);
    if |p| > 1 {
      var n := ns[p[0]];
      SetListAtTwice(n.children, p[1..], a, b);
    }
  }

  /**
   * Replacing the nested list of the `k`-th branch of a freshly replaced
   * list is one replacement of the outer list.
   */
  lemma {:induction false} SetListAtNested(ns: seq<Node>, p: Path, m: seq<Node>, k: nat, kids: seq<Node>)
    requires ListAt(ns, p).Some?
    requires k < |m| && m[k].Branch?
    ensures ListAt(SetListAt(ns, p, m), p + [k]).Some?
    ensures SetListAt(SetListAt(ns, p, m), p + [k], kids)
         == SetListAt(ns, p, m[k := m[k].(children := kids)])
    decreases p
  {
    var ns1 := SetListAt(ns, p, m);
    ListAtSetListAt(ns, p, m);
    GetThroughList(ns1, p, [k]);
    if |p| == 0 {
      assert p + [k] == [k];
    } else {
      var b := ns[p[0]];
      SetListAtNested(b.children, p[1..], m, k, kids);
      assert (p + [k])[0] == p[0];
      assert (p + [k])[1..] == p[1..] + [k];
    }
  }

  /**
   * What replacing the list at `p` does to every path `q`: paths into the
   * new list read the new list, paths above it keep their shells, and all
   * other paths are untouched.
   */
  lemma {:induction false} GetAfterSetListAt(ns: seq<Node>, p: Path, l: seq<Node>, q: Path)
    requires ListAt(ns, p).Some?
    ensures |q| > |p| && q[..|p|] == p ==> Get(SetListAt(ns, p, l), q) == Get(l, q[|p|..])
    ensures Diverge(p, q) ==> Get(SetListAt(ns, p, l), q) == Get(ns, q)
    ensures 1 <= |q| <= |p| && q == p[..|q|] ==>
              ShellAt(SetListAt(ns, p, l), q) == ShellAt(ns, q) && Get(ns, q).Some?
    decreases p
  {
    var ns' := SetListAt(ns, p, l);
    if |p| == 0 {
      assert q[..0] == [];
      assert q[0..] == q;
      assert !Diverge(p, q);
    } else if |q| == 0 {
      assert !Diverge(p, q);
    } else {
      var b := ns[p[0]];
      var b' := b.(children := SetListAt(b.children, p[1..], l));
      assert ns'[p[0]] == b';
      if q[0] != p[0] {
        assert Diverge(p, q);
        assert !(|q| > |p| && q[..|p|] == p) by {
          if |q| > |p| { assert q[..|p|][0] == q[0]; }
        }
        if q[0] < |ns| {
          assert ns'[q[0]] == ns[q[0]];
        }
      } else {
        GetAfterSetListAt(b.children, p[1..], l, q[1..]);
        if |q| > |p| && q[..|p|] == p {
          assert q[1..][..|p[1..]|] == p[1..];
          assert q[1..][|p[1..]|..] == q[|p|..];
          if |p| == 1 {
            assert q[1..] == q[|p|..];
          }
        }
        if Diverge(p, q) {
          var i :| 0 <= i < |p| && i < |q| && p[i] != q[i];
          assert i > 0;
          assert p[1..][i - 1] != q[1..][i - 1];
          assert Diverge(p[1..], q[1..]);
        }
        if 1 <= |q| <= |p| && q == p[..|q|] {
          if |q| > 1 {
            assert q[1..] == p[1..][..|q[1..]|];
          }
        }
      }
    }
  }

  /** Every path either runs into `p`'s list, parts ways with `p`, or is a prefix of `p`. */
  lemma PathCases(p: Path, q: Path)
    ensures (|q| > |p| && q[..|p|] == p) || Diverge(p, q) || (|q| <= |p| && q == p[..|q|])
  {
    if !Diverge(p, q) {
      if |q| > |p| {
        assert forall i :: 0 <= i < |p| ==> q[..|p|][i] == p[i];
      } else {
        assert forall i :: 0 <= i < |q| ==> q[i] == p[..|q|][i];
      }
    }
  }

  /** `m` may stand in for `n` without disturbing anything nested below it. */
  predicate SameChildren(n: Node, m: Node)
  {
    n.Branch? == m.Branch? && (n.Branch? ==> n.children == m.children)
  }

  /**
   * Replacing one item by one with the same nested items changes what is
   * read at that path and at no other: every other path keeps its shell.
   */
  lemma SetAtEffect(ns: seq<Node>, p: Path, n: Node)
    requires Get(ns, p).Some? && SameChildren(Get(ns, p).value, n)
    ensures Get(SetAt(ns, p, n), p) == Some(n)
    ensures forall q :: q != p ==> ShellAt(SetAt(ns, p, n), q) == ShellAt(ns, q)
  {
    ListAtOfParent(ns, p);
    var par, k := Parent(p), Last(p);
    var l := ListAt(ns, par).value;
    var l' := l[k := n];
    var ns' := SetAt(ns, p, n);
    assert ns' == SetListAt(ns, par, l');
    assert p == par + [k];
    GetAfterSetListAt(ns, par, l', p);
    assert p[..|par|] == par && p[|par|..] == [k];
    forall q | q != p
      ensures ShellAt(ns', q) == ShellAt(ns, q)
    {
      PathCases(par, q);
      GetAfterSetListAt(ns, par, l', q);
      if |q| > |par| && q[..|par|] == par {
        var r := q[|par|..];
        assert q == par + r;
        GetThroughList(ns, par, r);
        if r[0] == k {
          assert r != [k];
        } else if r[0] < |l| {
          assert l'[r[0]] == l[r[0]];
        }
        assert Get(l', r) == Get(l, r);
      }
    }
  }

  lemma SetAtKeepsOthers(ns: seq<Node>, p: Path, n: Node, q: Path)
    requires Get(ns, p).Some? && SameChildren(Get(ns, p).value, n)
    requires q != p
    ensures ShellAt(SetAt(ns, p, n), q) == ShellAt(ns, q)
  {
    SetAtEffect(ns, p, n);
  }

  // ---------------------------------------------------------------------
  // Creating items

  /**
   * What the label's `innerText` reads back right after it was assigned
   * `text`: the assignment turns every line feed and carriage return into a
   * `<br>`, and on a span not yet in the document `innerText` reads only
   * the text nodes, so the line breaks are gone.
   */
  function NoBreaks(text: string): (r: string)
    ensures |r| <= |text|
    ensures forall i :: 0 <= i < |r| ==> r[i] != '\n' && r[i] != '\r'
  {
    if |text| == 0 then ""
    else if text[0] == '\n' || text[0] == '\r' then NoBreaks(text[1..])
    else [text[0]] + NoBreaks(text[1..])
  }

  /** A text without line breaks reads back unchanged. */
  lemma {:induction false} NoBreaksKeepsLine(text: string)
    requires forall i :: 0 <= i < |text| ==> text[i] != '\n' && text[i] != '\r'
    ensures NoBreaks(text) == text
  {
    if |text| > 0 {
      NoBreaksKeepsLine(text[1..]);
      assert text == [text[0]] + text[1..];
    }
  }

  /** Reading back drops exactly the line breaks: every other character keeps its count. */
  lemma {:induction false} NoBreaksCounts(text: string)
    ensures forall c :: c != '\n' && c != '\r' ==> multiset(NoBreaks(text))[c] == multiset(text)[c]
    ensures multiset(NoBreaks(text))['\n'] == 0 && multiset(NoBreaks(text))['\r'] == 0
  {
    if |text| > 0 {
      NoBreaksCounts(text[1..]);
      assert text == [text[0]] + text[1..];
    }
  }

  /** A note written over several lines of the manifest is titled by its middle line. */
  lemma NoBreaksExample()
    ensures NoBreaks("\n  Intro\n") == "  Intro"
  {
    var line := "  Intro";
    var x := line + "\n";
    assert "\n  Intro\n" == "\n" + x;
    assert ("\n" + x)[1..] == x;
    assert NoBreaks("\n" + x) == NoBreaks(x);
    NoBreaksAppendBreak(line);
    NoBreaksKeepsLine(line);
  }

  lemma {:induction false} NoBreaksAppendBreak(line: string)
    ensures NoBreaks(line + "\n") == NoBreaks(line)
  {
    if |line| > 0 {
      assert (line + "\n")[1..] == line[1..] + "\n";
      NoBreaksAppendBreak(line[1..]);
    } else {
      assert line + "\n" == "\n";
    }
  }

  /** The item `createNavItem(text, callback)` builds: inactive, titled by its text read back, a link exactly when a callback was given. */
  function NewItem(text: string, withCallback: bool): Node
  {
    Item(Content(text, NoBreaks(text), withCallback, false, None))
  }

  /** Appending to a list keeps every item already in the tree as it was. */
  lemma AppendKeepsItems(ns: seq<Node>, p: Path, n: Node)
    requires ListAt(ns, p).Some?
    ensures forall q :: Get(ns, q).Some? ==>
      ShellAt(SetListAt(ns, p, ListAt(ns, p).value + [n]), q) == ShellAt(ns, q)
  {
    var l := ListAt(ns, p).value;
    var l' := l + [n];
    forall q | Get(ns, q).Some?
      ensures ShellAt(SetListAt(ns, p, l'), q) == ShellAt(ns, q)
    {
      PathCases(p, q);
      GetAfterSetListAt(ns, p, l', q);
      if |q| > |p| && q[..|p|] == p {
        var r := q[|p|..];
        assert q == p + r;
        GetThroughList(ns, p, r);
        assert l'[r[0]] == l[r[0]];
        assert Get(l', r) == Get(l, r);
      } else if !Diverge(p, q) && |q| == 0 {
        assert false;
      }
    }
  }

  /**
   * `createNavItem(text, callback, parent)`: appends a new item at the end
   * of the list at `parent` and returns the new item's path.
   */
  function CreateNavItem(t: Tree, text: string, withCallback: bool, parent: Path): (r: (Tree, Path))
    requires ListAt(t.roots, parent).Some?
    ensures ListAt(r.0.roots, parent) == Some(ListAt(t.roots, parent).value + [NewItem(text, withCallback)])
    ensures r.1 == parent + [|ListAt(t.roots, parent).value|]
    ensures Get(r.0.roots, r.1).Some?
    ensures var c := Get(r.0.roots, r.1).value.content;
      c.text == text && c.title == NoBreaks(text) && c.link == withCallback && !c.active
    ensures r.0.avatar == t.avatar
    ensures forall q :: Get(t.roots, q).Some? ==> ShellAt(r.0.roots, q) == ShellAt(t.roots, q)
  {
    var l := ListAt(t.roots, parent).value;
    var roots := SetListAt(t.roots, parent, l + [NewItem(text, withCallback)]);
    ListAtSetListAt(t.roots, parent, l + [NewItem(text, withCallback)]);
    GetThroughList(roots, parent, [|l|]);
    AppendKeepsItems(t.roots, parent, NewItem(text, withCallback));
    (t.(roots := roots), parent + [|l|])
  }

  /** The `_branch` item `createNavList(text)` leaves behind: closed, not a link, with an empty nested list. */
  function NewBranch(text: string): Node
  {
    Branch(Content(text, NoBreaks(text), false, false, None), false, [])
  }

  /**
   * `createNavList(text, parent)`: creates an item without a callback,
   * turns it into a closed `_branch` with an expander and an empty nested
   * list, and returns the path of that branch, whose list is where its
   * entries go.
   */
  function CreateNavList(t: Tree, text: string, parent: Path): (r: (Tree, Path))
    requires ListAt(t.roots, parent).Some?
    ensures r.0.roots == SetListAt(t.roots, parent, ListAt(t.roots, parent).value + [NewBranch(text)])
    ensures ListAt(r.0.roots, parent) == Some(ListAt(t.roots, parent).value + [NewBranch(text)])
    ensures r.1 == parent + [|ListAt(t.roots, parent).value|]
    ensures ListAt(r.0.roots, r.1) == Some([])
    ensures var n := Get(r.0.roots, r.1).value;
      n.Branch? && !n.isOpen && n.content.text == text && n.content.title == NoBreaks(text)
      && !n.content.link && !n.content.active
    ensures r.0.avatar == t.avatar
    ensures forall q :: Get(t.roots, q).Some? ==> ShellAt(r.0.roots, q) == ShellAt(t.roots, q)
  {
    var l := ListAt(t.roots, parent).value;
    var (t1, p) := CreateNavItem(t, text, false, parent);
    ListAtOfParent(t1.roots, p);
    assert Parent(p) == parent;
    var roots := SetAt(t1.roots, p, NewBranch(text));
    SetListAtTwice(t.roots, parent, l + [NewItem(text, false)], l + [NewBranch(text)]);
    assert (l + [NewItem(text, false)])[|l| := NewBranch(text)] == l + [NewBranch(text)];
    ListAtSetListAt(t.roots, parent, l + [NewBranch(text)]);
    GetThroughList(roots, parent, [|l|]);
    AppendKeepsItems(t.roots, parent, NewBranch(text));
    (t1.(roots := roots), p)
  }

  // ---------------------------------------------------------------------
  // Selection

  ghost predicate ActiveAt(ns: seq<Node>, p: Path)
  {
    Get(ns, p).Some? && Get(ns, p).value.content.active
  }

  ghost predicate LinkAt(ns: seq<Node>, p: Path)
  {
    Get(ns, p).Some? && Get(ns, p).value.content.link
  }

  /** Only links are ever active, and at most one item of the widget is. */
  ghost predicate SelectionInvariant(ns: seq<Node>)
  {
    && (forall q :: ActiveAt(ns, q) ==> LinkAt(ns, q))
    && (forall q1, q2 :: ActiveAt(ns, q1) && ActiveAt(ns, q2) ==> q1 == q2)
  }

  /** No item of the list, nor any item nested in it, carries `_activate`. */
  predicate NoneActive(ns: seq<Node>)
    decreases ns
  {
    forall i :: 0 <= i < |ns| ==>
      && !ns[i].content.active
      && (ns[i].Branch? ==> NoneActive(ns[i].children))
  }

  /** Two lists with no active item make one. */
  lemma NoneActiveAppend(a: seq<Node>, b: seq<Node>)
    requires NoneActive(a) && NoneActive(b)
    ensures NoneActive(a + b)
  {
    forall i | 0 <= i < |a + b|
      ensures !(a + b)[i].content.active && ((a + b)[i].Branch? ==> NoneActive((a + b)[i].children))
    {
      if i < |a| {
        assert (a + b)[i] == a[i];
      } else {
        assert (a + b)[i] == b[i - |a|];
      }
    }
  }

  /** With no item active, no path leads to an active item. */
  lemma {:induction false} NoneActiveAt(ns: seq<Node>)
    requires NoneActive(ns)
    ensures forall q :: !ActiveAt(ns, q)
    decreases ns
  {
    forall q | Get(ns, q).Some?
      ensures !Get(ns, q).value.content.active
    {
      if |q| > 1 {
        var n := ns[q[0]];
        NoneActiveAt(n.children);
        assert !ActiveAt(n.children, q[1..]);
      }
    }
  }

  /** A widget with no active item and an empty avatar satisfies both invariants the events keep. */
  lemma NoneActiveInvariants(t: Tree)
    requires NoneActive(t.roots) && t.avatar == ""
    ensures SelectionInvariant(t.roots) && AvatarShowsLabel(t)
  {
    NoneActiveAt(t.roots);
  }

  /** `querySelector(".nav-tree-link._activate")`: the first active link in document order. */
  function FirstActive(ns: seq<Node>): (r: Option<Path>)
    ensures r.Some? ==> |r.value| >= 1
    decreases ns
  {
    if |ns| == 0 then None
    else if ns[0].content.link && ns[0].content.active then Some([0])
    else
      var inside := if ns[0].Branch? then FirstActive(ns[0].children) else None;
      if inside.Some? then Some([0] + inside.value)
      else
        var later := FirstActive(ns[1..]);
        if later.Some? then Some([later.value[0] + 1] + later.value[1..]) else None
  }

  lemma GetInFirst(ns: seq<Node>, r: Path)
    requires |ns| > 0 && ns[0].Branch? && |r| >= 1
    ensures Get(ns, [0] + r) == Get(ns[0].children, r)
  {
    assert ([0] + r)[1..] == r;
  }

  lemma GetInLater(ns: seq<Node>, r: Path)
    requires |ns| > 0 && |r| >= 1
    ensures Get(ns, [r[0] + 1] + r[1..]) == Get(ns[1..], r)
  {
    var q := [r[0] + 1] + r[1..];
    assert q[1..] == r[1..];
    if r[0] < |ns| - 1 {
      assert ns[q[0]] == ns[1..][r[0]];
    }
  }

  /** The first active link found is an active link, and none is found only when there is none. */
  lemma {:induction false} FirstActiveSpec(ns: seq<Node>)
    ensures FirstActive(ns).Some? ==> ActiveAt(ns, FirstActive(ns).value) && LinkAt(ns, FirstActive(ns).value)
    ensures FirstActive(ns).None? ==> forall q :: !(ActiveAt(ns, q) && LinkAt(ns, q))
    decreases ns
  {
    if |ns| > 0 {
      var c := ns[0].content;
      var inside := if ns[0].Branch? then FirstActive(ns[0].children) else None;
      var later := FirstActive(ns[1..]);
      if ns[0].Branch? {
        FirstActiveSpec(ns[0].children);
        if inside.Some? {
          GetInFirst(ns, inside.value);
        }
      }
      FirstActiveSpec(ns[1..]);
      if later.Some? {
        GetInLater(ns, later.value);
      }
      if FirstActive(ns).None? {
        forall q | ActiveAt(ns, q) && LinkAt(ns, q)
          ensures false
        {
          if q[0] == 0 {
            if |q| > 1 {
              assert ns[0].Branch?;
              GetInFirst(ns, q[1..]);
              assert q == [0] + q[1..];
              assert ActiveAt(ns[0].children, q[1..]) && LinkAt(ns[0].children, q[1..]);
            }
          } else {
            var r := [q[0] - 1] + q[1..];
            GetInLater(ns, r);
            assert q == [r[0] + 1] + r[1..];
            assert ActiveAt(ns[1..], r) && LinkAt(ns[1..], r);
          }
        }
      }
    }
  }

  /**
   * `q` comes before `p` in document order: at the first index where the
   * paths differ `q` is smaller, or `q` leads to a branch that `p` lies
   * inside (a branch's label comes before its nested items).
   */
  predicate Precedes(q: Path, p: Path)
    decreases |q|
  {
    && |q| > 0 && |p| > 0
    && (|| q[0] < p[0]
        || (q[0] == p[0] && |q| == 1 && |p| > 1)
        || (q[0] == p[0] && |q| > 1 && Precedes(q[1..], p[1..])))
  }

  /** Dropping the first list entry moves every later path one place up, keeping their order. */
  lemma PrecedesInLater(q: Path, l: Path)
    requires |q| >= 1 && |l| >= 1 && q[0] >= 1
    requires Precedes(q, [l[0] + 1] + l[1..])
    ensures Precedes([q[0] - 1] + q[1..], l)
  {
    var r := [q[0] - 1] + q[1..];
    var f := [l[0] + 1] + l[1..];
    assert r[1..] == q[1..] && f[1..] == l[1..];
  }

  /**
   * `querySelector` finds the first active link in document order: no
   * active link comes before the one `FirstActive` returns.
   */
  lemma {:induction false} FirstActiveIsFirst(ns: seq<Node>)
    ensures FirstActive(ns).Some? ==>
      forall q :: Precedes(q, FirstActive(ns).value) ==> !(ActiveAt(ns, q) && LinkAt(ns, q))
    decreases ns
  {
    if |ns| > 0 && FirstActive(ns).Some? {
      var f := FirstActive(ns).value;
      var c := ns[0].content;
      var inside := if ns[0].Branch? then FirstActive(ns[0].children) else None;
      var later := FirstActive(ns[1..]);
      if !(c.link && c.active) {
        if inside.Some? {
          assert f == [0] + inside.value;
        } else {
          assert later.Some? && f == [later.value[0] + 1] + later.value[1..];
        }
        forall q | Precedes(q, f)
          ensures !(ActiveAt(ns, q) && LinkAt(ns, q))
        {
          if q[0] == 0 {
            if |q| > 1 && ns[0].Branch? {
              GetInFirst(ns, q[1..]);
              assert q == [0] + q[1..];
              if inside.Some? {
                assert f == [0] + inside.value;
                assert f[1..] == inside.value;
                assert Precedes(q[1..], inside.value);
                FirstActiveIsFirst(ns[0].children);
                assert !(ActiveAt(ns[0].children, q[1..]) && LinkAt(ns[0].children, q[1..]));
              } else {
                FirstActiveSpec(ns[0].children);
                assert !(ActiveAt(ns[0].children, q[1..]) && LinkAt(ns[0].children, q[1..]));
              }
              assert Get(ns, q) == Get(ns[0].children, q[1..]);
            } else if |q| == 1 {
              assert Get(ns, q) == Some(ns[0]);
            }
            assert !(ActiveAt(ns, q) && LinkAt(ns, q));
          } else {
            assert inside.None?;
            var r := [q[0] - 1] + q[1..];
            PrecedesInLater(q, later.value);
            GetInLater(ns, r);
            assert q == [r[0] + 1] + r[1..];
            FirstActiveIsFirst(ns[1..]);
            assert !(ActiveAt(ns[1..], r) && LinkAt(ns[1..], r));
            assert !(ActiveAt(ns, q) && LinkAt(ns, q));
          }
        }
      }
    }
  }

  function WithActive(n: Node, active: bool): Node
  {
    match n
    case Item(c) => Item(c.(active := active))
    case Branch(c, o, kids) => Branch(c.(active := active), o, kids)
  }

  /** Equal shells mean the same item exists with the same label flags and open state. */
  lemma SameShell(a: seq<Node>, b: seq<Node>, q: Path)
    requires ShellAt(a, q) == ShellAt(b, q)
    ensures Get(a, q).Some? <==> Get(b, q).Some?
    ensures Get(a, q).Some? ==> Shell(Get(a, q).value) == Shell(Get(b, q).value)
    ensures Get(a, q).Some? ==> Get(a, q).value.content == Get(b, q).value.content
  {
  }

  /** Removes `_activate` from the first active link, if there is one. */
  function ClearFirstActive(ns: seq<Node>): (r: seq<Node>)
    ensures FirstActive(ns).None? ==> r == ns
    ensures FirstActive(ns).Some? ==> ActivationOnlyAt(ns, r, FirstActive(ns).value, false)
    ensures forall q :: Get(r, q).Some? <==> Get(ns, q).Some?
  {
    FirstActiveSpec(ns);
    match FirstActive(ns)
    case None => ns
    case Some(f) =>
      SetActiveEffect(ns, f, false);
      var r := SetAt(ns, f, WithActive(Get(ns, f).value, false));
      assert forall q :: Get(r, q).Some? <==> Get(ns, q).Some? by {
        forall q ensures Get(r, q).Some? <==> Get(ns, q).Some? {
          if q != f {
            SameShell(r, ns, q);
          }
        }
      }
      r
  }

  /**
   * `onItemClick` on the item at `p`: unless it is already active, the
   * first active link loses `_activate` and the clicked item gains it.
   */
  function OnItemClick(t: Tree, p: Path): Tree
    requires Get(t.roots, p).Some?
  {
    var n := Get(t.roots, p).value;
    if n.content.active then t
    else
      var ns1 := ClearFirstActive(t.roots);
      t.(roots := SetAt(ns1, p, WithActive(Get(ns1, p).value, true)))
  }

  /** A change of one item's activation that keeps every other item's shell. */
  ghost predicate ActivationOnlyAt(ns: seq<Node>, ns': seq<Node>, p: Path, active: bool)
  {
    && Get(ns, p).Some?
    && Get(ns', p) == Some(WithActive(Get(ns, p).value, active))
    && (forall q :: q != p ==> ShellAt(ns', q) == ShellAt(ns, q))
  }

  lemma SetActiveEffect(ns: seq<Node>, p: Path, active: bool)
    requires Get(ns, p).Some?
    ensures ActivationOnlyAt(ns, SetAt(ns, p, WithActive(Get(ns, p).value, active)), p, active)
  {
    SetAtEffect(ns, p, WithActive(Get(ns, p).value, active));
  }

  /**
   * After a click on a link, the clicked item is the one and only active
   * item, link flags and texts are unchanged, and the selection invariant
   * still holds. A click on the active item changes nothing.
   */
  lemma OnItemClickSelects(t: Tree, p: Path)
    requires SelectionInvariant(t.roots)
    requires LinkAt(t.roots, p)
    ensures Get(t.roots, p).value.content.active ==> OnItemClick(t, p) == t
    ensures forall q :: ActiveAt(OnItemClick(t, p).roots, q) <==> q == p
    ensures forall q :: LinkAt(OnItemClick(t, p).roots, q) <==> LinkAt(t.roots, q)
    ensures forall q :: Get(OnItemClick(t, p).roots, q).Some? <==> Get(t.roots, q).Some?
    ensures forall q :: Get(t.roots, q).Some? ==>
      Get(OnItemClick(t, p).roots, q).value.content.text == Get(t.roots, q).value.content.text
    ensures OnItemClick(t, p).avatar == t.avatar
    ensures SelectionInvariant(OnItemClick(t, p).roots)
  {
    var ns := t.roots;
    var r := OnItemClick(t, p);
    var n := Get(ns, p).value;
    if !n.content.active {
      FirstActiveSpec(ns);
      var first := FirstActive(ns);
      var ns1 := ClearFirstActive(ns);
      if first.Some? {
        assert first.value != p;
      }
      assert forall q :: !ActiveAt(ns1, q) by {
        forall q ensures !ActiveAt(ns1, q) {
          if first.None? {
            assert !(ActiveAt(ns, q) && LinkAt(ns, q));
            assert ns1 == ns;
          } else if q != first.value {
            SameShell(ns1, ns, q);
            assert ActiveAt(ns, first.value);
            assert ActiveAt(ns1, q) == ActiveAt(ns, q);
          }
        }
      }
      if first.Some? {
        SameShell(ns1, ns, p);
      }
      SetActiveEffect(ns1, p, true);
      assert r.roots == SetAt(ns1, p, WithActive(Get(ns1, p).value, true));
      forall q
        ensures ActiveAt(r.roots, q) <==> q == p
        ensures LinkAt(r.roots, q) <==> LinkAt(ns, q)
        ensures Get(r.roots, q).Some? <==> Get(ns, q).Some?
        ensures Get(ns, q).Some? ==> Get(r.roots, q).value.content.text == Get(ns, q).value.content.text
      {
        if q != p {
          SameShell(r.roots, ns1, q);
          assert !ActiveAt(ns1, q);
          assert !ActiveAt(r.roots, q);
          if first.Some? && q != first.value {
            SameShell(ns1, ns, q);
          }
        } else {
          assert Get(r.roots, p).value.content.active;
          assert ActiveAt(r.roots, q);
        }
      }
    } else {
      assert ActiveAt(ns, p);
    }
  }

  /** An item with its activation and nested items ignored: its text, title, link flag, `data-src` and open state. */
  function Plain(n: Node): Node
  {
    Shell(WithActive(n, false))
  }

  /** Two widgets that hold the same items and differ at most in which of them carry `_activate`. */
  ghost predicate SameButActivation(a: seq<Node>, b: seq<Node>)
  {
    && (forall q :: Get(a, q).Some? <==> Get(b, q).Some?)
    && (forall q :: Get(a, q).Some? && Get(b, q).Some? ==> Plain(Get(a, q).value) == Plain(Get(b, q).value))
  }

  lemma ActivationOnlyAtSame(a: seq<Node>, b: seq<Node>, p: Path, active: bool)
    requires ActivationOnlyAt(a, b, p, active)
    ensures SameButActivation(a, b)
  {
    forall q
      ensures Get(a, q).Some? <==> Get(b, q).Some?
      ensures Get(a, q).Some? && Get(b, q).Some? ==> Plain(Get(a, q).value) == Plain(Get(b, q).value)
    {
      if q != p {
        SameShell(b, a, q);
      }
    }
  }

  /**
   * A click changes nothing but activation: every item keeps its text,
   * title, link flag, `data-src` and open state, and no item appears or
   * disappears.
   */
  lemma OnItemClickOnlyActivates(t: Tree, p: Path)
    requires Get(t.roots, p).Some?
    ensures SameButActivation(t.roots, OnItemClick(t, p).roots)
    ensures OnItemClick(t, p).avatar == t.avatar
  {
    var ns := t.roots;
    if !Get(ns, p).value.content.active {
      var ns1 := ClearFirstActive(ns);
      if FirstActive(ns).Some? {
        ActivationOnlyAtSame(ns, ns1, FirstActive(ns).value, false);
      }
      assert Get(ns1, p).Some?;
      SetActiveEffect(ns1, p, true);
      ActivationOnlyAtSame(ns1, OnItemClick(t, p).roots, p, true);
    }
  }

  // ---------------------------------------------------------------------
  // Expander

  /** A click on the expander of the branch at `p` flips that branch's `_opened` class. */
  function ToggleOpen(t: Tree, p: Path): (r: Tree)
    requires Get(t.roots, p).Some? && Get(t.roots, p).value.Branch?
    ensures var b := Get(t.roots, p).value;
      Get(r.roots, p) == Some(Branch(b.content, !b.isOpen, b.children))
    ensures forall q :: q != p ==> ShellAt(r.roots, q) == ShellAt(t.roots, q)
    ensures r.avatar == t.avatar
  {
    var b := Get(t.roots, p).value;
    SetAtEffect(t.roots, p, b.(isOpen := !b.isOpen));
    t.(roots := SetAt(t.roots, p, b.(isOpen := !b.isOpen)))
  }

  /** Two clicks on the same expander restore the widget exactly. */
  lemma ToggleOpenTwice(t: Tree, p: Path)
    requires Get(t.roots, p).Some? && Get(t.roots, p).value.Branch?
    ensures Get(ToggleOpen(t, p).roots, p).value.Branch?
    ensures ToggleOpen(ToggleOpen(t, p), p) == t
  {
    var ns := t.roots;
    var b := Get(ns, p).value;
    ListAtOfParent(ns, p);
    var par, k := Parent(p), Last(p);
    var l := ListAt(ns, par).value;
    var ns1 := ToggleOpen(t, p).roots;
    assert ns1 == SetListAt(ns, par, l[k := b.(isOpen := !b.isOpen)]);
    ListAtSetListAt(ns, par, l[k := b.(isOpen := !b.isOpen)]);
    SetListAtTwice(ns, par, l[k := b.(isOpen := !b.isOpen)], l);
    assert l[k := b.(isOpen := !b.isOpen)][k := b] == l;
    SetListAtSame(ns, par);
  }

  // ---------------------------------------------------------------------
  // Avatar

  /** `summonAvatar` on the label of the item at `p`: the shared avatar shows a copy of that label. */
  function SummonAvatar(t: Tree, p: Path): (r: Tree)
    requires Get(t.roots, p).Some?
    ensures r.roots == t.roots
    ensures r.avatar == Get(t.roots, p).value.content.text
  {
    t.(avatar := Get(t.roots, p).value.content.text)
  }

  /** `hiddenAvatar`: the shared avatar is emptied. */
  function HideAvatar(t: Tree): (r: Tree)
    ensures r.roots == t.roots && r.avatar == ""
  {
    t.(avatar := "")
  }

  /** The avatar is empty or shows the label of an item of its own widget. */
  ghost predicate AvatarShowsLabel(t: Tree)
  {
    t.avatar == "" || exists q :: Get(t.roots, q).Some? && Get(t.roots, q).value.content.text == t.avatar
  }

  // ---------------------------------------------------------------------
  // Events

  /** The pointer events a widget reacts to, aimed at the item at a path. */
  datatype Event = MouseEnter(p: Path) | MouseOut | Click(p: Path) | ExpanderClick(p: Path)

  /**
   * The listeners of a click on the label at `p`, in registration order:
   * `onItemClick`, then the caller's callback, which is given the widget
   * as the activation left it. An item created without a callback has no
   * click listener at all. The result is the widget afterwards and what
   * the callback observed, if it ran.
   */
  function DispatchClick(t: Tree, p: Path): (r: (Tree, Option<Tree>))
    requires Get(t.roots, p).Some?
    ensures r.1.Some? <==> Get(t.roots, p).value.content.link
    ensures r.1.Some? ==> r.1.value == r.0
    ensures !Get(t.roots, p).value.content.link ==> r.0 == t
  {
    if Get(t.roots, p).value.content.link then
      var afterActivation := OnItemClick(t, p);
      (afterActivation, Some(afterActivation))
    else (t, None)
  }

  /** Because activation listens first, the callback sees the clicked link already active and alone. */
  lemma CallbackSeesActivation(t: Tree, p: Path)
    requires SelectionInvariant(t.roots) && LinkAt(t.roots, p)
    ensures DispatchClick(t, p).1.Some?
    ensures forall q :: ActiveAt(DispatchClick(t, p).1.value.roots, q) <==> q == p
  {
    OnItemClickSelects(t, p);
  }

  /** One event; an event aimed at no item, or at an expander a plain item lacks, does nothing. */
  function Step(t: Tree, e: Event): Tree
  {
    match e
    case MouseEnter(p) => if Get(t.roots, p).Some? then SummonAvatar(t, p) else t
    case MouseOut => HideAvatar(t)
    case Click(p) => if Get(t.roots, p).Some? then DispatchClick(t, p).0 else t
    case ExpanderClick(p) =>
      if Get(t.roots, p).Some? && Get(t.roots, p).value.Branch? then ToggleOpen(t, p) else t
  }

  function Run(t: Tree, es: seq<Event>): Tree
    decreases |es|
  {
    if |es| == 0 then t else Run(Step(t, es[0]), es[1..])
  }

  predicate IsClick(e: Event)
  {
    e.Click?
  }

  /** One event keeps both invariants, and any event but a click keeps the activation of every item. */
  lemma StepKeepsInvariants(t: Tree, e: Event)
    requires SelectionInvariant(t.roots) && AvatarShowsLabel(t)
    ensures SelectionInvariant(Step(t, e).roots) && AvatarShowsLabel(Step(t, e))
    ensures !IsClick(e) ==> forall q :: ActiveAt(Step(t, e).roots, q) <==> ActiveAt(t.roots, q)
    ensures !IsClick(e) ==> forall q :: LinkAt(Step(t, e).roots, q) <==> LinkAt(t.roots, q)
  {
    var t' := Step(t, e);
    match e
    case MouseEnter(p) =>
      if Get(t.roots, p).Some? {
        assert Get(t'.roots, p).Some? && Get(t'.roots, p).value.content.text == t'.avatar;
      }
    case MouseOut =>
    case Click(p) =>
      if Get(t.roots, p).Some? && Get(t.roots, p).value.content.link {
        OnItemClickSelects(t, p);
        if t.avatar != "" {
          var w :| Get(t.roots, w).Some? && Get(t.roots, w).value.content.text == t.avatar;
          assert Get(t'.roots, w).Some? && Get(t'.roots, w).value.content.text == t'.avatar;
        }
      }
    case ExpanderClick(p) =>
      if Get(t.roots, p).Some? && Get(t.roots, p).value.Branch? {
        var b := Get(t.roots, p).value;
        forall q ensures ShellAt(t'.roots, q).Some? == ShellAt(t.roots, q).Some?
          ensures Get(t.roots, q).Some? ==> Get(t'.roots, q).value.content == Get(t.roots, q).value.content
        {
          if q != p {
            assert ShellAt(t'.roots, q) == ShellAt(t.roots, q);
          }
        }
        assert forall q :: ActiveAt(t'.roots, q) <==> ActiveAt(t.roots, q);
        assert forall q :: LinkAt(t'.roots, q) <==> LinkAt(t.roots, q);
        if t.avatar != "" {
          var w :| Get(t.roots, w).Some? && Get(t.roots, w).value.content.text == t.avatar;
          assert Get(t'.roots, w).Some? && Get(t'.roots, w).value.content.text == t'.avatar;
        }
      }
  }

  /** Any run of events keeps both invariants. */
  lemma {:induction false} RunKeepsInvariants(t: Tree, es: seq<Event>)
    requires SelectionInvariant(t.roots) && AvatarShowsLabel(t)
    ensures SelectionInvariant(Run(t, es).roots) && AvatarShowsLabel(Run(t, es))
    decreases |es|
  {
    if |es| > 0 {
      StepKeepsInvariants(t, es[0]);
      RunKeepsInvariants(Step(t, es[0]), es[1..]);
    }
  }

  /**
   * After a click on a link, whatever hovering and expanding follows, the
   * clicked link is the one and only active item: the active item is the
   * most recently clicked link.
   */
  lemma {:induction false} LastClickedIsActive(t: Tree, p: Path, es: seq<Event>)
    requires SelectionInvariant(t.roots) && AvatarShowsLabel(t) && LinkAt(t.roots, p)
    requires forall i :: 0 <= i < |es| ==> !IsClick(es[i])
    ensures forall q :: ActiveAt(Run(Step(t, Click(p)), es).roots, q) <==> q == p
    decreases |es|
  {
    OnItemClickSelects(t, p);
    StepKeepsInvariants(t, Click(p));
    NonClicksKeepActivation(Step(t, Click(p)), es);
  }

  lemma {:induction false} NonClicksKeepActivation(t: Tree, es: seq<Event>)
    requires SelectionInvariant(t.roots) && AvatarShowsLabel(t)
    requires forall i :: 0 <= i < |es| ==> !IsClick(es[i])
    ensures forall q :: ActiveAt(Run(t, es).roots, q) <==> ActiveAt(t.roots, q)
    decreases |es|
  {
    if |es| > 0 {
      StepKeepsInvariants(t, es[0]);
      NonClicksKeepActivation(Step(t, es[0]), es[1..]);
    }
  }

  /** An item created without a callback is not a link, so no event ever makes it active. */
  lemma {:induction false} NonLinkNeverActive(t: Tree, p: Path, es: seq<Event>)
    requires SelectionInvariant(t.roots) && AvatarShowsLabel(t)
    requires Get(t.roots, p).Some? && !LinkAt(t.roots, p)
    ensures !ActiveAt(Run(t, es).roots, p)
    decreases |es|
  {
    if |es| > 0 {
      var t' := Step(t, es[0]);
      StepKeepsInvariants(t, es[0]);
      StepKeepsShape(t, es[0], p);
      NonLinkNeverActive(t', p, es[1..]);
    }
  }

  /** No event adds or removes items or changes link flags. */
  lemma StepKeepsShape(t: Tree, e: Event, p: Path)
    requires SelectionInvariant(t.roots)
    ensures Get(Step(t, e).roots, p).Some? <==> Get(t.roots, p).Some?
    ensures LinkAt(Step(t, e).roots, p) <==> LinkAt(t.roots, p)
  {
    match e
    case Click(c) =>
      if Get(t.roots, c).Some? && Get(t.roots, c).value.content.link {
        OnItemClickSelects(t, c);
      }
    case ExpanderClick(c) =>
      if Get(t.roots, c).Some? && Get(t.roots, c).value.Branch? && p != c {
        assert ShellAt(Step(t, e).roots, p) == ShellAt(t.roots, p);
      }
    case _ =>
  }
}

/**
 * Drag-and-drop reordering of the sidebar's sortable lists
 * (scripts/sortable.js): the floored `mod` built on JavaScript's truncating
 * `%`, the animation classes, `moveWithAnimation`, the choice of the
 * insertion sibling in `onDragOver`, and the shared `dragCounter`.
 *
 * A list is the sequence of its `.item` children; an item is identified by
 * `id`, standing for DOM node identity. Layout enters as each item's
 * `offsetTop` and `offsetHeight` and the event's `pageY`, as integers.
 */
module Sortable {
  import opened Options
  import opened ClassList

  // ---------------------------------------------------------------------
  // Integer arithmetic of JavaScript

  function Abs(x: int): nat
  {
    if x < 0 then -x else x
  }

  /** The integer quotient of JavaScript's `%`: truncated toward zero. */
  function JsQuot(x: int, n: int): int
    requires n != 0
  {
    if (x >= 0) == (n > 0) then Abs(x) / Abs(n) else -(Abs(x) / Abs(n))
  }

  /** JavaScript's `x % n` on integers: `x - n * q` with `q` truncated, so the remainder takes the sign of `x`. */
  function JsRem(x: int, n: int): (r: int)
    requires n != 0
    ensures Abs(r) < Abs(n)
    ensures x >= 0 ==> r >= 0
    ensures x <= 0 ==> r <= 0
    ensures (x - r) % n == 0
  {
    MultipleMod(n, JsQuot(x, n));
    var q := Abs(x) / Abs(n);
    var m := Abs(x) % Abs(n);
    assert Abs(x) == Abs(n) * q + m;
    assert n * JsQuot(x, n) == if x >= 0 then Abs(n) * q else -(Abs(n) * q);
    x - n * JsQuot(x, n)
  }

  /** A multiple of `n` leaves no remainder. */
  lemma MultipleMod(n: int, k: int)
    requires n != 0
    ensures (n * k) % n == 0
  {
    var t := n * k;
    var d := k - t / n;
    assert t % n == n * d;
    if d > 0 {
      assert n * d == n * (d - 1) + n;
      assert Abs(n * d) >= Abs(n) by { MulMonotone(n, d); }
    } else if d < 0 {
      assert Abs(n * d) >= Abs(n) by { MulMonotone(n, -d); }
    }
  }

  lemma MulMonotone(n: int, d: int)
    requires d >= 1
    ensures Abs(n * d) >= Abs(n) && Abs(n * -d) >= Abs(n)
  {
    if d > 1 {
      MulMonotone(n, d - 1);
      assert n * d == n * (d - 1) + n;
      assert n * -d == n * -(d - 1) - n;
    }
  }

  /** The quotient and remainder of a division by a positive number are unique. */
  lemma ModUnique(x: int, n: int, q: int, r: int)
    requires n > 0 && 0 <= r < n && x == n * q + r
    ensures x % n == r
  {
    var t := q - x / n;
    assert n * t == x % n - r;
  }

  /**
   * `Number.prototype.mod`: `((x % n) + n) % n` with JavaScript's `%`.
   * `None` stands for `NaN`, which is what `% 0` gives. For a positive
   * `n` it is the floored modulo, which is Dafny's `%` there.
   */
  function Mod(x: int, n: int): (r: Option<int>)
    ensures r.None? <==> n == 0
    ensures n > 0 ==> r.Some? && 0 <= r.value < n && r.value == x % n
    ensures n < 0 ==> r.Some? && n < r.value <= 0
    ensures r.Some? ==> (x - r.value) % n == 0
    ensures n > 0 && 0 <= x < n ==> r == Some(x)
    ensures n > 0 && x == -1 ==> r == Some(n - 1)
  {
    if n == 0 then None
    else
      ModOfRemainders(x, n);
      ModCongruent(x, n);
      Some(JsRem(JsRem(x, n) + n, n))
  }

  /** For any divisor, `mod` differs from `x` by a multiple of `n`. */
  lemma ModCongruent(x: int, n: int)
    requires n != 0
    ensures (x - JsRem(JsRem(x, n) + n, n)) % n == 0
  {
    var a := JsRem(x, n);
    CongruentChain(x, a, JsRem(a + n, n), n);
  }

  /** Two steps that each move by a multiple of `n`, less one `n`, move by a multiple of `n`. */
  lemma CongruentChain(x: int, a: int, b: int, n: int)
    requires n != 0 && (x - a) % n == 0 && (a + n - b) % n == 0
    ensures (x - b) % n == 0
  {
    var p, q := (x - a) / n, (a + n - b) / n;
    assert x - a == n * p;
    assert a + n - b == n * q;
    assert x - b == n * p + n * q - n;
    Distribute(n, p, q);
    MultipleMod(n, p + q - 1);
  }

  lemma Distribute(n: int, p: int, q: int)
    ensures n * p + n * q - n == n * (p + q - 1)
  {
  }

  lemma ModOfRemainders(x: int, n: int)
    requires n != 0
    ensures var b := JsRem(JsRem(x, n) + n, n);
      && (n > 0 ==> b == x % n)
      && (n > 0 && 0 <= x < n ==> b == x)
      && (n > 0 && x == -1 ==> b == n - 1)
  {
    var a := JsRem(x, n);
    var b := JsRem(a + n, n);
    if n > 0 {
      assert b == x - n * (JsQuot(x, n) + JsQuot(a + n, n) - 1);
      ModUnique(x, n, JsQuot(x, n) + JsQuot(a + n, n) - 1, b);
      if 0 <= x < n {
        ModUnique(x, n, 0, x);
      }
      if x == -1 {
        ModUnique(x, n, -1, n - 1);
      }
    }
  }

  // ---------------------------------------------------------------------
  // Animation classes

  const MoveUp := "move-up"
  const MoveDown := "move-down"
  const InsertUp := "insert-up"
  const InsertDown := "insert-down"
  const AnimationClasses: set<string> := {MoveUp, MoveDown, InsertUp, InsertDown}

  const Dragging := "dragging"
  const Out := "out"

  /** `removeAnimation`: drops the four animation classes and keeps every other class. */
  function RemoveAnimation(cls: Classes): (r: Classes)
    ensures r !! AnimationClasses
    ensures forall c :: c !in AnimationClasses ==> (c in r <==> c in cls)
  {
    cls - AnimationClasses
  }

  /** `removeAnimation` followed by adding animation class `a`. */
  function Animate(cls: Classes, a: string): (r: Classes)
    requires a in AnimationClasses
    ensures r * AnimationClasses == {a}
    ensures forall c :: c !in AnimationClasses ==> (c in r <==> c in cls)
  {
    RemoveAnimation(cls) + {a}
  }

  /** The per-item listeners: `dragstart` (after its zero timeout), `dragend` and `animationend`. */
  function OnItemDragStart(cls: Classes): (r: Classes)
    ensures Dragging in r
    ensures forall c :: c != Dragging ==> (c in r <==> c in cls)
  {
    cls + {Dragging}
  }

  function OnItemDragEnd(cls: Classes): (r: Classes)
    ensures Dragging !in r && Out !in r
    ensures forall c :: c != Dragging && c != Out ==> (c in r <==> c in cls)
  {
    cls - {Dragging, Out}
  }

  function OnAnimationEnd(cls: Classes): (r: Classes)
    ensures r !! AnimationClasses
    ensures forall c :: c !in AnimationClasses ==> (c in r <==> c in cls)
  {
    RemoveAnimation(cls)
  }

  // ---------------------------------------------------------------------
  // Lists of items

  /** An `.item`: its identity, classes, `data-ref` (the id of its panel) and vertical layout. */
  datatype Item = Item(id: nat, classes: Classes, ref: string, top: int, height: int)

  function Ids(items: seq<Item>): (ids: seq<nat>)
    ensures |ids| == |items|
    ensures forall i :: 0 <= i < |items| ==> ids[i] == items[i].id
  {
    seq(|items|, i requires 0 <= i < |items| => items[i].id)
  }

  /** No node appears twice among the children of one element. */
  predicate Distinct(ids: seq<nat>)
  {
    forall i, j :: 0 <= i < j < |ids| ==> ids[i] != ids[j]
  }

  /** `Array.prototype.indexOf`: the first position holding `id`, or -1. */
  function Find(ids: seq<nat>, id: nat): (k: int)
    ensures -1 <= k < |ids|
    ensures k >= 0 ==> ids[k] == id && forall j :: 0 <= j < k ==> ids[j] != id
    ensures k == -1 ==> forall j :: 0 <= j < |ids| ==> ids[j] != id
  {
    if |ids| == 0 then -1
    else if ids[0] == id then 0
    else
      var k := Find(ids[1..], id);
      if k == -1 then -1 else k + 1
  }

  /** The list with node `id` detached from it (unchanged when it is not a child). */
  function Without(items: seq<Item>, id: nat): (r: seq<Item>)
    ensures Find(Ids(items), id) < 0 ==> r == items
    ensures Find(Ids(items), id) >= 0 ==>
      && |r| == |items| - 1
      && (forall i :: 0 <= i < Find(Ids(items), id) ==> r[i] == items[i])
      && (forall i :: Find(Ids(items), id) <= i < |r| ==> r[i] == items[i + 1])
  {
    var j := Find(Ids(items), id);
    if j < 0 then items else items[..j] + items[j + 1..]
  }

  lemma WithoutDistinct(items: seq<Item>, id: nat)
    requires Distinct(Ids(items))
    ensures Distinct(Ids(Without(items, id)))
    ensures forall i :: 0 <= i < |Without(items, id)| ==> Without(items, id)[i].id != id
  {
    var j := Find(Ids(items), id);
    var r := Without(items, id);
    if j >= 0 {
      forall a, b | 0 <= a < b < |r|
        ensures Ids(r)[a] != Ids(r)[b]
      {
        var a' := if a < j then a else a + 1;
        var b' := if b < j then b else b + 1;
        assert Ids(items)[a'] != Ids(items)[b'];
      }
      forall i | 0 <= i < |r|
        ensures r[i].id != id
      {
        var i' := if i < j then i else i + 1;
        assert Ids(items)[i'] != Ids(items)[j];
      }
    }
  }

  /** A sibling other than the moved node is still a child once the moved node is detached. */
  lemma WithoutKeepsOthers(items: seq<Item>, id: nat, n: nat)
    requires Find(Ids(items), n) >= 0 && n != id
    ensures Find(Ids(Without(items, id)), n) >= 0
  {
    var m := Find(Ids(items), n);
    var j := Find(Ids(items), id);
    if j >= 0 {
      var r := Without(items, id);
      if m < j {
        assert r[m] == items[m];
        assert Ids(r)[m] == n;
      } else {
        assert m > j;
        assert r[m - 1] == items[m];
        assert Ids(r)[m - 1] == n;
      }
    }
  }

  /** Whether `insertBefore(x, next)` is defined: the reference node, when given, is another child. */
  predicate CanInsert(items: seq<Item>, x: Item, next: Option<nat>)
  {
    && Distinct(Ids(items))
    && (next.Some? ==> next.value != x.id && Find(Ids(items), next.value) >= 0)
  }

  /** Where `insertBefore` puts `x` within the list once `x` is detached. */
  function InsertPosition(items: seq<Item>, x: Item, next: Option<nat>): (k: nat)
    requires CanInsert(items, x, next)
    ensures k <= |Without(items, x.id)|
    ensures next.Some? ==> k < |Without(items, x.id)| && Without(items, x.id)[k].id == next.value
  {
    var rest := Without(items, x.id);
    if next.None? then |rest|
    else
      WithoutKeepsOthers(items, x.id, next.value);
      Find(Ids(rest), next.value)
  }

  function InsertAt(rest: seq<Item>, k: nat, x: Item): seq<Item>
    requires k <= |rest|
  {
    rest[..k] + [x] + rest[k..]
  }

  /** Where the nodes of `rest` end up once `x` is put at position `k`. */
  lemma InsertAtShape(rest: seq<Item>, k: nat, x: Item)
    requires k <= |rest|
    ensures var r := InsertAt(rest, k, x);
      && |r| == |rest| + 1 && r[k] == x
      && (forall j :: 0 <= j < k ==> r[j] == rest[j])
      && (forall j :: k < j < |r| ==> r[j] == rest[j - 1])
  {
  }

  /** Putting a node that is not among `rest` at position `k`. */
  lemma InsertAtFacts(rest: seq<Item>, k: nat, x: Item)
    requires k <= |rest| && Distinct(Ids(rest))
    requires forall i :: 0 <= i < |rest| ==> rest[i].id != x.id
    ensures var r := InsertAt(rest, k, x);
      && Distinct(Ids(r))
      && Find(Ids(r), x.id) == k
      && Without(r, x.id) == rest
      && multiset(r) == multiset(rest) + multiset{x}
  {
    InsertAtDistinct(rest, k, x);
    InsertAtFind(rest, k, x);
    InsertAtWithout(rest, k, x);
    InsertAtMultiset(rest, k, x);
  }

  /** The list with a new node put in still holds each node once. */
  lemma InsertAtDistinct(rest: seq<Item>, k: nat, x: Item)
    requires k <= |rest| && Distinct(Ids(rest))
    requires forall i :: 0 <= i < |rest| ==> rest[i].id != x.id
    ensures Distinct(Ids(InsertAt(rest, k, x)))
  {
    var r := InsertAt(rest, k, x);
    InsertAtShape(rest, k, x);
    forall a, b | 0 <= a < b < |r|
      ensures Ids(r)[a] != Ids(r)[b]
    {
      if a != k && b != k {
        assert Ids(rest)[if a < k then a else a - 1] != Ids(rest)[if b < k then b else b - 1];
      } else if a == k {
        assert rest[b - 1].id != x.id;
      } else {
        assert rest[a].id != x.id;
      }
    }
  }

  /** A new node put at `k` is found at `k`. */
  lemma InsertAtFind(rest: seq<Item>, k: nat, x: Item)
    requires k <= |rest|
    requires forall i :: 0 <= i < |rest| ==> rest[i].id != x.id
    ensures Find(Ids(InsertAt(rest, k, x)), x.id) == k
  {
    InsertAtShape(rest, k, x);
    assert Ids(InsertAt(rest, k, x))[k] == x.id;
  }

  /** Detaching the node put at `k` gives back the list. */
  lemma InsertAtWithout(rest: seq<Item>, k: nat, x: Item)
    requires k <= |rest|
    requires Find(Ids(InsertAt(rest, k, x)), x.id) == k
    ensures Without(InsertAt(rest, k, x), x.id) == rest
  {
    var r := InsertAt(rest, k, x);
    assert r[..k] == rest[..k];
    assert r[k + 1..] == rest[k..];
    assert rest[..k] + rest[k..] == rest;
  }

  lemma InsertAtMultiset(rest: seq<Item>, k: nat, x: Item)
    requires k <= |rest|
    ensures multiset(InsertAt(rest, k, x)) == multiset(rest) + multiset{x}
  {
    assert rest == rest[..k] + rest[k..];
    assert multiset(rest) == multiset(rest[..k]) + multiset(rest[k..]);
  }

  /**
   * `list.insertBefore(x, next)`: `x` is detached from wherever it was and
   * put directly before `next`, or last when `next` is null. The result
   * holds every other node once, `x` once, and the other nodes in their
   * old relative order.
   */
  function InsertBefore(items: seq<Item>, x: Item, next: Option<nat>): (r: seq<Item>)
    requires CanInsert(items, x, next)
    ensures Distinct(Ids(r))
    ensures Without(r, x.id) == Without(items, x.id)
    ensures 0 <= Find(Ids(r), x.id) < |r| && r[Find(Ids(r), x.id)] == x
    ensures next.None? ==> Find(Ids(r), x.id) == |r| - 1
    ensures next.Some? ==> Find(Ids(r), x.id) + 1 < |r| && r[Find(Ids(r), x.id) + 1].id == next.value
    ensures multiset(r) == multiset(Without(items, x.id)) + multiset{x}
  {
    var rest := Without(items, x.id);
    var k := InsertPosition(items, x, next);
    WithoutDistinct(items, x.id);
    InsertAtFacts(rest, k, x);
    InsertAt(rest, k, x)
  }

  /** Moving a node already in the list is a permutation of the list, with `x` as the new state of that node. */
  lemma InsertBeforePermutes(items: seq<Item>, x: Item, next: Option<nat>)
    requires CanInsert(items, x, next)
    requires Find(Ids(items), x.id) >= 0 && items[Find(Ids(items), x.id)] == x
    ensures multiset(InsertBefore(items, x, next)) == multiset(items)
  {
    var j := Find(Ids(items), x.id);
    var rest := Without(items, x.id);
    assert rest == items[..j] + items[j + 1..];
    assert items == items[..j] + [x] + items[j + 1..];
    assert multiset(items) == multiset(items[..j]) + multiset{x} + multiset(items[j + 1..]);
  }

  // ---------------------------------------------------------------------
  // moveWithAnimation

  /** `items.indexOf(draggingItem).mod(childElementCount + 1)`: the item's position, or the count when it is elsewhere. */
  function DraggingIndex(items: seq<Item>, d: nat): (di: nat)
    ensures di == if Find(Ids(items), d) >= 0 then Find(Ids(items), d) else |items|
  {
    Mod(Find(Ids(items), d), |items| + 1).value
  }

  /** `items.indexOf(nextSibling).mod(childElementCount + 1)`: `null` is found nowhere, so it maps to the count. */
  function SiblingIndex(items: seq<Item>, next: Option<nat>): (si: nat)
    ensures next.None? ==> si == |items|
    ensures next.Some? ==> si == if Find(Ids(items), next.value) >= 0 then Find(Ids(items), next.value) else |items|
  {
    var k := if next.None? then -1 else Find(Ids(items), next.value);
    Mod(k, |items| + 1).value
  }

  /** Where an item that is not the dragged one ends up, given its old position `i`. */
  function Shift(i: int, di: int, si: int): int
  {
    if si <= i < di then i + 1
    else if di < i < si then i - 1
    else i
  }

  /** An item's classes after the animation loop, stated by how far it moves. */
  function ShiftedClasses(cls: Classes, i: int, di: int, si: int): Classes
  {
    if Shift(i, di, si) == i + 1 then Animate(cls, MoveDown)
    else if Shift(i, di, si) == i - 1 then Animate(cls, MoveUp)
    else cls
  }

  /**
   * The `for (let i = start; i < end; ++i)` loop: the items in
   * `[start, end)` get animation `a`. With the bounds and class that
   * `moveWithAnimation` picks, these are exactly the items that shift.
   */
  function AnimateRange(items: seq<Item>, di: nat, si: nat): (r: seq<Item>)
    requires di <= |items| && si <= |items|
    ensures Ids(r) == Ids(items)
    ensures forall i :: 0 <= i < |items| && i != di ==>
      r[i] == items[i].(classes := ShiftedClasses(items[i].classes, i, di, si))
    ensures forall i, c :: 0 <= i < |items| && c !in AnimationClasses ==> (c in r[i].classes <==> c in items[i].classes)
  {
    var down := si < di;
    var start := if down then si else di + 1;
    var end := if down then di else si;
    var a := if down then MoveDown else MoveUp;
    var r := seq(|items|, i requires 0 <= i < |items| =>
      if start <= i < end then items[i].(classes := Animate(items[i].classes, a)) else items[i]);
    assert Ids(r) == Ids(items);
    r
  }

  /** The dragged item's new state: `insert-up` when it goes up, `insert-down` otherwise, and no `out`. */
  function Moved(dragging: Item, di: nat, si: nat): Item
  {
    dragging.(classes := Animate(dragging.classes, if si < di then InsertUp else InsertDown) - {Out})
  }

  /**
   * `moveWithAnimation(draggingItem, nextSibling, items)`: the items the
   * dragged item passes over are animated, then the dragged item is
   * inserted before the sibling and loses `out`.
   */
  function MoveWithAnimation(items: seq<Item>, dragging: Item, next: Option<nat>): (r: seq<Item>)
    requires CanInsert(items, dragging, next)
    ensures Distinct(Ids(r))
    ensures Find(Ids(r), dragging.id) >= 0
    ensures Ids(Without(r, dragging.id)) == Ids(Without(items, dragging.id))
  {
    var di := DraggingIndex(items, dragging.id);
    var si := SiblingIndex(items, next);
    var anim := AnimateRange(items, di, si);
    SameIdsWithout(anim, items, dragging.id);
    InsertBefore(anim, Moved(dragging, di, si), next)
  }

  /** Detaching a node only depends on the identities in the list. */
  lemma SameIdsWithout(a: seq<Item>, b: seq<Item>, id: nat)
    requires Ids(a) == Ids(b)
    ensures Ids(Without(a, id)) == Ids(Without(b, id))
  {
  }

  /**
   * The position at which the dragged item is put back, counted in the
   * list without it: the sibling's old place, one less when the dragged
   * item stood before the sibling.
   */
  lemma InsertPositionIndex(items: seq<Item>, dragging: Item, next: Option<nat>)
    requires CanInsert(items, dragging, next)
    ensures var di := DraggingIndex(items, dragging.id);
      var si := SiblingIndex(items, next);
      InsertPosition(items, Moved(dragging, di, si), next) == if si > di then si - 1 else si
  {
    var di := DraggingIndex(items, dragging.id);
    var si := SiblingIndex(items, next);
    var x := Moved(dragging, di, si);
    var rest := Without(items, dragging.id);
    var k := InsertPosition(items, x, next);
    WithoutDistinct(items, dragging.id);
    if next.Some? {
      var m := Find(Ids(items), next.value);
      var m' := if m < di then m else m - 1;
      assert rest[m'] == items[m];
      assert Ids(rest)[m'] == next.value == Ids(rest)[k];
    }
  }

  /** Where `insertBefore` moves position `i` when it detaches position `di` and inserts at `k`. */
  function Reposition(i: int, di: int, k: int): int
  {
    var ri := if i < di then i else i - 1;
    if ri < k then ri else ri + 1
  }

  /** Index arithmetic: with the insertion point above, `Reposition` is `Shift`. */
  lemma ShiftArithmetic(i: int, di: int, si: int, k: int)
    requires i != di && k == (if si > di then si - 1 else si)
    ensures Reposition(i, di, k) == Shift(i, di, si)
  {
  }

  /** Positions through detach-then-insert, on plain sequences. */
  lemma RepositionAll(items: seq<Item>, rest: seq<Item>, r: seq<Item>, di: nat, k: nat)
    requires k <= |rest| && |r| == |rest| + 1
    requires forall j :: 0 <= j < |r| && j != k ==> r[j] == rest[if j < k then j else j - 1]
    requires di <= |items|
    requires di == |items| ==> rest == items
    requires di < |items| ==> |rest| == |items| - 1 && forall j :: 0 <= j < |rest| ==> rest[j] == items[if j < di then j else j + 1]
    ensures forall i :: 0 <= i < |items| && i != di ==>
      0 <= Reposition(i, di, k) < |r| && r[Reposition(i, di, k)] == items[i]
  {
    forall i | 0 <= i < |items| && i != di
      ensures 0 <= Reposition(i, di, k) < |r| && r[Reposition(i, di, k)] == items[i]
    {
      var ri := if i < di then i else i - 1;
      assert rest[ri] == items[i];
      var ni := if ri < k then ri else ri + 1;
      assert r[ni] == rest[ri];
    }
  }

  /** Every node other than `x` is found, unchanged, at its repositioned place. */
  lemma InsertBeforeRepositions(items: seq<Item>, x: Item, next: Option<nat>)
    requires CanInsert(items, x, next)
    ensures var r := InsertBefore(items, x, next);
      var di := DraggingIndex(items, x.id);
      var k := InsertPosition(items, x, next);
      forall i :: 0 <= i < |items| && i != di ==>
        0 <= Reposition(i, di, k) < |r| && r[Reposition(i, di, k)] == items[i]
  {
    var k := InsertPosition(items, x, next);
    var rest := Without(items, x.id);
    InsertAtShape(rest, k, x);
    RepositionAll(items, rest, InsertAt(rest, k, x), DraggingIndex(items, x.id), k);
  }

  /**
   * The animation matches the motion: every other item that moves one
   * place down carries exactly `move-down`, every one that moves one place
   * up exactly `move-up`, and an item that keeps its place keeps its
   * classes; no item moves further.
   */
  lemma MoveAnimatesExactlyTheShifted(items: seq<Item>, dragging: Item, next: Option<nat>)
    requires CanInsert(items, dragging, next)
    ensures var r := MoveWithAnimation(items, dragging, next);
      var di := DraggingIndex(items, dragging.id);
      var si := SiblingIndex(items, next);
      forall i :: 0 <= i < |items| && i != di ==>
        && 0 <= Shift(i, di, si) < |r|
        && r[Shift(i, di, si)] == items[i].(classes := ShiftedClasses(items[i].classes, i, di, si))
  {
    var di := DraggingIndex(items, dragging.id);
    var si := SiblingIndex(items, next);
    var anim := AnimateRange(items, di, si);
    var x := Moved(dragging, di, si);
    var k := InsertPosition(anim, x, next);
    assert DraggingIndex(anim, dragging.id) == di;
    assert SiblingIndex(anim, next) == si;
    InsertPositionIndex(anim, dragging, next);
    InsertBeforeRepositions(anim, x, next);
    forall i | 0 <= i < |items| && i != di
      ensures Reposition(i, di, k) == Shift(i, di, si)
    {
      ShiftArithmetic(i, di, si, k);
    }
  }

  /**
   * The dragged item ends directly before the sibling, or last without
   * one. It carries `insert-up` when it ends above its old place and
   * `insert-down` otherwise, and no `out`. The list gains a node exactly
   * when the dragged item came from elsewhere.
   */
  lemma MovePlacesDragged(items: seq<Item>, dragging: Item, next: Option<nat>)
    requires CanInsert(items, dragging, next)
    ensures var r := MoveWithAnimation(items, dragging, next);
      var k := Find(Ids(r), dragging.id);
      var di := DraggingIndex(items, dragging.id);
      && 0 <= k < |r|
      && (next.None? ==> k == |r| - 1)
      && (next.Some? ==> k + 1 < |r| && r[k + 1].id == next.value)
      && r[k].id == dragging.id
      && r[k].classes == Animate(dragging.classes, if k < di then InsertUp else InsertDown) - {Out}
      && |r| == if Find(Ids(items), dragging.id) >= 0 then |items| else |items| + 1
  {
    MoveFindsDragged(items, dragging, next);
    MoveMarksDragged(items, dragging, next);
    MoveLength(items, dragging, next);
  }

  /** The dragged item is in the list afterwards, before the sibling or last. */
  lemma MoveFindsDragged(items: seq<Item>, dragging: Item, next: Option<nat>)
    requires CanInsert(items, dragging, next)
    ensures var r := MoveWithAnimation(items, dragging, next);
      var k := Find(Ids(r), dragging.id);
      && 0 <= k < |r|
      && (next.None? ==> k == |r| - 1)
      && (next.Some? ==> k + 1 < |r| && r[k + 1].id == next.value)
      && r[k].id == dragging.id
  {
    var di := DraggingIndex(items, dragging.id);
    var si := SiblingIndex(items, next);
    var x := Moved(dragging, di, si);
    assert x.id == dragging.id;
  }

  /** The animation class of the dragged item says on which side of its old place it ends. */
  lemma MoveMarksDragged(items: seq<Item>, dragging: Item, next: Option<nat>)
    requires CanInsert(items, dragging, next)
    ensures var r := MoveWithAnimation(items, dragging, next);
      var k := Find(Ids(r), dragging.id);
      var di := DraggingIndex(items, dragging.id);
      && 0 <= k < |r|
      && r[k].classes == Animate(dragging.classes, if k < di then InsertUp else InsertDown) - {Out}
  {
    var di := DraggingIndex(items, dragging.id);
    var si := SiblingIndex(items, next);
    MoveDraggedIndex(items, dragging, next);
    assert Moved(dragging, di, si).id == dragging.id;
  }

  /** Where the dragged item ends, counted in the list after the move. */
  lemma MoveDraggedIndex(items: seq<Item>, dragging: Item, next: Option<nat>)
    requires CanInsert(items, dragging, next)
    ensures var di := DraggingIndex(items, dragging.id);
      var si := SiblingIndex(items, next);
      Find(Ids(MoveWithAnimation(items, dragging, next)), dragging.id) == if si > di then si - 1 else si
  {
    var di := DraggingIndex(items, dragging.id);
    var si := SiblingIndex(items, next);
    var anim := AnimateRange(items, di, si);
    var x := Moved(dragging, di, si);
    assert MoveWithAnimation(items, dragging, next) == InsertBefore(anim, x, next);
    InsertBeforeFind(anim, x, next);
    assert DraggingIndex(anim, dragging.id) == di;
    assert SiblingIndex(anim, next) == si;
    InsertPositionIndex(anim, dragging, next);
  }

  /** The list gains a node exactly when the dragged item came from elsewhere. */
  lemma MoveLength(items: seq<Item>, dragging: Item, next: Option<nat>)
    requires CanInsert(items, dragging, next)
    ensures |MoveWithAnimation(items, dragging, next)| == if Find(Ids(items), dragging.id) >= 0 then |items| else |items| + 1
  {
    var di := DraggingIndex(items, dragging.id);
    var si := SiblingIndex(items, next);
    var anim := AnimateRange(items, di, si);
    assert Find(Ids(anim), dragging.id) == Find(Ids(items), dragging.id);
  }

  /** `insertBefore` puts the node at the place `InsertPosition` names. */
  lemma InsertBeforeFind(items: seq<Item>, x: Item, next: Option<nat>)
    requires CanInsert(items, x, next)
    ensures Find(Ids(InsertBefore(items, x, next)), x.id) == InsertPosition(items, x, next)
  {
    var rest := Without(items, x.id);
    var k := InsertPosition(items, x, next);
    WithoutDistinct(items, x.id);
    InsertAtFind(rest, k, x);
  }

  // ---------------------------------------------------------------------
  // onDragOver

  /** `sibling.matches(".item:not(.dragging)") && pageY <= offsetTop + offsetHeight / 2`, without the division. */
  predicate Qualifies(it: Item, pageY: int)
  {
    Dragging !in it.classes && 2 * pageY <= 2 * it.top + it.height
  }

  /** `items.find(...)`: the position of the first qualifying item, if any. */
  function FindNext(items: seq<Item>, pageY: int): (k: Option<nat>)
    ensures k.Some? ==> k.value < |items| && Qualifies(items[k.value], pageY)
    ensures k.Some? ==> forall j :: 0 <= j < k.value ==> !Qualifies(items[j], pageY)
    ensures k.None? ==> forall j :: 0 <= j < |items| ==> !Qualifies(items[j], pageY)
  {
    if |items| == 0 then None
    else if Qualifies(items[0], pageY) then Some(0)
    else
      match FindNext(items[1..], pageY)
      case None => None
      case Some(k) => Some(k + 1)
  }

  /** The node of a found position. */
  function NodeAt(items: seq<Item>, k: Option<nat>): Option<nat>
    requires k.Some? ==> k.value < |items|
  {
    if k.None? then None else Some(items[k.value].id)
  }

  /**
   * The node found by `document.querySelector(".dragging")` carries the
   * class, and when it is a child of this list it is that child.
   */
  predicate DraggingState(items: seq<Item>, dragging: Item)
  {
    && Distinct(Ids(items))
    && Dragging in dragging.classes
    && forall i :: 0 <= i < |items| && items[i].id == dragging.id ==> items[i] == dragging
  }

  /**
   * `draggingItem.nextElementSibling`: read from this list when the item is
   * one of its children; `elsewhere` is its next sibling in the list it is in.
   */
  function NextElementSibling(items: seq<Item>, dragging: Item, elsewhere: Option<nat>): Option<nat>
  {
    var j := Find(Ids(items), dragging.id);
    if j < 0 then elsewhere
    else if j + 1 < |items| then Some(items[j + 1].id)
    else None
  }

  /** What a `dragover` on a list does: nothing, or a reorder, announced with `movetonewlist` when the item comes from another list. */
  datatype DragOver = Stay | Reorder(list: seq<Item>, fromOtherList: bool)

  /**
   * `onDragOver`: the dragged item is moved before the first qualifying
   * sibling unless it already sits there and is not marked `out`.
   */
  function OnDragOver(items: seq<Item>, dragging: Item, elsewhere: Option<nat>, pageY: int): (r: DragOver)
    requires DraggingState(items, dragging)
    ensures r.Stay? <==>
      NodeAt(items, FindNext(items, pageY)) == NextElementSibling(items, dragging, elsewhere) && Out !in dragging.classes
    ensures r.Reorder? ==> (r.fromOtherList <==> Find(Ids(items), dragging.id) < 0)
  {
    var next := NodeAt(items, FindNext(items, pageY));
    if next != NextElementSibling(items, dragging, elsewhere) || Out in dragging.classes then
      assert next.Some? ==> next.value != dragging.id;
      Reorder(MoveWithAnimation(items, dragging, next), Find(Ids(items), dragging.id) < 0)
    else Stay
  }

  /**
   * After a reordering `dragover` the dragged item sits directly before the
   * first sibling that is not being dragged and whose middle is at or
   * below the pointer, or last when there is none.
   */
  lemma DragOverPlacesBeforeFirstQualifying(items: seq<Item>, dragging: Item, elsewhere: Option<nat>, pageY: int)
    requires DraggingState(items, dragging)
    ensures var r := OnDragOver(items, dragging, elsewhere, pageY);
      var f := FindNext(items, pageY);
      r.Reorder? ==>
        var k := Find(Ids(r.list), dragging.id);
        && 0 <= k < |r.list|
        && (f.None? ==> k == |r.list| - 1)
        && (f.Some? ==> k + 1 < |r.list| && r.list[k + 1].id == items[f.value].id)
  {
    DragOverMoves(items, dragging, elsewhere, pageY);
    DragOverTarget(items, dragging, pageY);
    MoveFindsDragged(items, dragging, NodeAt(items, FindNext(items, pageY)));
  }

  /** A reordering `dragover` keeps the relative order of the other items. */
  lemma DragOverKeepsOrder(items: seq<Item>, dragging: Item, elsewhere: Option<nat>, pageY: int)
    requires DraggingState(items, dragging)
    ensures var r := OnDragOver(items, dragging, elsewhere, pageY);
      r.Reorder? ==> Ids(Without(r.list, dragging.id)) == Ids(Without(items, dragging.id))
  {
    DragOverMoves(items, dragging, elsewhere, pageY);
  }

  /** A reordering `dragover` is `moveWithAnimation` before the found node. */
  lemma DragOverMoves(items: seq<Item>, dragging: Item, elsewhere: Option<nat>, pageY: int)
    requires DraggingState(items, dragging)
    ensures var r := OnDragOver(items, dragging, elsewhere, pageY);
      var next := NodeAt(items, FindNext(items, pageY));
      && (next.Some? ==> next.value != dragging.id)
      && (r.Reorder? ==> r.list == MoveWithAnimation(items, dragging, next))
  {
    DragOverTarget(items, dragging, pageY);
  }

  /** The node found for a `dragover` is a child other than the dragged item, so it can be inserted before. */
  lemma DragOverTarget(items: seq<Item>, dragging: Item, pageY: int)
    requires DraggingState(items, dragging)
    ensures var f := FindNext(items, pageY);
      && CanInsert(items, dragging, NodeAt(items, f))
      && (f.None? ==> NodeAt(items, f).None?)
      && (f.Some? ==> NodeAt(items, f) == Some(items[f.value].id))
  {
    var f := FindNext(items, pageY);
    if f.Some? {
      assert Ids(items)[f.value] == items[f.value].id;
      assert items[f.value].id != dragging.id by {
        assert Dragging !in items[f.value].classes;
      }
    }
  }

  // ---------------------------------------------------------------------
  // dragCounter

  /** The list-level events that touch the counter shared by all lists. */
  datatype CounterEvent = ListDragStart | ListDragEnter | ListDragLeave

  /** One event's effect on the counter. */
  function CounterStep(counter: int, e: CounterEvent): int
  {
    match e
    case ListDragStart => 0
    case ListDragEnter => counter + 1
    case ListDragLeave => counter - 1
  }

  function Counter(counter: int, es: seq<CounterEvent>): int
    decreases |es|
  {
    if |es| == 0 then counter else Counter(CounterStep(counter, es[0]), es[1..])
  }

  function Occurrences(es: seq<CounterEvent>, e: CounterEvent): nat
  {
    if |es| == 0 then 0 else (if es[0] == e then 1 else 0) + Occurrences(es[1..], e)
  }

  /**
   * Since the last `dragstart`, the counter is the number of `dragenter`s
   * minus the number of `dragleave`s.
   */
  lemma {:induction false} CounterBalance(counter: int, es: seq<CounterEvent>)
    requires ListDragStart !in es
    decreases |es|
    ensures Counter(counter, es) == counter + Occurrences(es, ListDragEnter) - Occurrences(es, ListDragLeave)
  {
    if |es| > 0 {
      assert ListDragStart !in es[1..] by {
        assert forall e :: e in es[1..] ==> e in es;
      }
      CounterBalance(CounterStep(counter, es[0]), es[1..]);
    }
  }

  /** A `dragstart` resets the count: afterwards the counter is `dragenter`s minus `dragleave`s. */
  lemma CounterSinceStart(counter: int, es: seq<CounterEvent>)
    requires ListDragStart !in es
    ensures Counter(counter, [ListDragStart] + es) == Occurrences(es, ListDragEnter) - Occurrences(es, ListDragLeave)
  {
    assert ([ListDragStart] + es)[1..] == es;
    CounterBalance(0, es);
  }

  /**
   * The `dragleave` handler: the counter drops by one; when it reaches
   * zero the dragged item is moved to the end of this list and marked
   * `out`.
   */
  function OnDragLeave(counter: int, items: seq<Item>, dragging: Item): (r: (int, Option<seq<Item>>))
    requires Distinct(Ids(items))
    ensures r.0 == counter - 1
    ensures r.1.Some? <==> counter == 1
    ensures r.1.Some? ==>
      var l := r.1.value;
      && |l| > 0 && l[|l| - 1].id == dragging.id && Out in l[|l| - 1].classes
      && Ids(Without(l, dragging.id)) == Ids(Without(items, dragging.id))
  {
    var c := counter - 1;
    if c == 0 then
      var moved := MoveWithAnimation(items, dragging, None);
      MoveEndsLast(items, dragging);
      var l := MarkLastOut(moved);
      SameIdsWithout(l, moved, dragging.id);
      (c, Some(l))
    else (c, None)
  }

  /** Moving with no sibling leaves the dragged item last. */
  lemma MoveEndsLast(items: seq<Item>, dragging: Item)
    requires Distinct(Ids(items))
    ensures var m := MoveWithAnimation(items, dragging, None);
      |m| > 0 && m[|m| - 1].id == dragging.id
  {
    MoveFindsDragged(items, dragging, None);
  }

  /** The last item gains `out`; the identities stay. */
  function MarkLastOut(l: seq<Item>): (r: seq<Item>)
    requires |l| > 0
    ensures Ids(r) == Ids(l)
    ensures Out in r[|r| - 1].classes
  {
    var k := |l| - 1;
    var r := l[k := l[k].(classes := l[k].classes + {Out})];
    assert Ids(r) == Ids(l);
    r
  }
}

/** The battle code's point quadtree (QuadTree.cs). A node holds a rectangle, a
    capacity, a level, a list of objects and a four-slot child array; objects are
    routed down by comparing their position with the node's midpoints, and a node
    that holds more than its capacity below MaxDepth splits into four half-size
    children and pushes its routable objects one level down.

    The file has two layers: the abstract value `Tree` with the insertion function
    `InsertInto` and the lemmas about it, and the classes `QuadTreeNode` and
    `QuadTree` that do the same work in place and are proved to follow `InsertInto`. */
module BattleQuadTree {

  /** Deepest level at which a node may still split (QuadTree.MaxDepth). */
  const MaxDepth := 5

  /** The x/y part of a game object's transform.position. */
  datatype Position = Position(x: real, y: real)

  /** A game object as the tree sees it: its identity and its position at the
      time of the call. */
  datatype GameObject = GameObject(id: nat, position: Position)

  /** Unity's Rect: the minimum corner, a width and a height. */
  datatype Rect = Rect(xMin: real, yMin: real, width: real, height: real)

  /** Unity's Rect.Contains: closed at the minimum edges, open at the maximum ones. */
  predicate Contains(r: Rect, p: Position) {
    r.xMin <= p.x < r.xMin + r.width && r.yMin <= p.y < r.yMin + r.height
  }

  function VerticalMidpoint(r: Rect): real { r.xMin + r.width / 2.0 }

  function HorizontalMidpoint(r: Rect): real { r.yMin + r.height / 2.0 }

  /** The quadrant a position is routed to, following the diagram
        1 | 0
        --+--
        2 | 3
      where "top" means a y above the horizontal midpoint; -1 when the position
      lies on either midpoint line. */
  function GetChildIndex(boundary: Rect, p: Position): (index: int)
    ensures -1 <= index <= 3
  {
    var verticalMidpoint := VerticalMidpoint(boundary);
    var horizontalMidpoint := HorizontalMidpoint(boundary);
    var topQuadrant := p.y > horizontalMidpoint;
    var bottomQuadrant := p.y < horizontalMidpoint;
    var topAndBottomQuadrant := p.y <= horizontalMidpoint && p.y >= horizontalMidpoint;
    var leftQuadrant := p.x < verticalMidpoint;
    var rightQuadrant := p.x > verticalMidpoint;
    var leftAndRightQuadrant := p.x >= verticalMidpoint && p.x <= verticalMidpoint;
    if topAndBottomQuadrant && leftAndRightQuadrant then -1
    else if leftQuadrant then
      (if topQuadrant then 1 else if bottomQuadrant then 2 else -1)
    else if rightQuadrant then
      (if topQuadrant then 0 else if bottomQuadrant then 3 else -1)
    else -1
  }

  /** The routing rule as the diagram draws it: -1 exactly on a midpoint line, and
      otherwise the quadrant of the diagram, with "top" meaning a larger y. */
  lemma GetChildIndexFollowsDiagram(boundary: Rect, p: Position)
    ensures var index := GetChildIndex(boundary, p);
            var vm := VerticalMidpoint(boundary);
            var hm := HorizontalMidpoint(boundary);
            && (index == -1 <==> p.x == vm || p.y == hm)
            && (index == 0 <==> p.x > vm && p.y > hm)
            && (index == 1 <==> p.x < vm && p.y > hm)
            && (index == 2 <==> p.x < vm && p.y < hm)
            && (index == 3 <==> p.x > vm && p.y < hm)
  {
  }

  /** The four rectangles SplitNode gives its children, in slot order. */
  function SplitRects(b: Rect): seq<Rect> {
    var subWidth := b.width / 2.0;
    var subHeight := b.height / 2.0;
    [ Rect(b.xMin + subWidth, b.yMin, subWidth, subHeight),
      Rect(b.xMin, b.yMin, subWidth, subHeight),
      Rect(b.xMin, b.yMin + subHeight, subWidth, subHeight),
      Rect(b.xMin + subWidth, b.yMin + subHeight, subWidth, subHeight) ]
  }

  // ---------------------------------------------------------------------------
  // The abstract tree

  /** The value of a node and everything below it. `children` is empty for a leaf
      and has four entries, in slot order, for a node that has split. */
  datatype Tree = Tree(boundary: Rect, maxObjectCount: int, level: int,
                       objects: seq<GameObject>, children: seq<Tree>)

  /** A freshly constructed node: no objects, no children. */
  function EmptyNode(boundary: Rect, maxObjectCount: int, level: int): Tree {
    Tree(boundary, maxObjectCount, level, [], [])
  }

  /** The children SplitNode creates for `n`. */
  function SplitChildren(n: Tree): seq<Tree> {
    var rs := SplitRects(n.boundary);
    [ EmptyNode(rs[0], n.maxObjectCount, n.level + 1),
      EmptyNode(rs[1], n.maxObjectCount, n.level + 1),
      EmptyNode(rs[2], n.maxObjectCount, n.level + 1),
      EmptyNode(rs[3], n.maxObjectCount, n.level + 1) ]
  }

  /** The objects of `s` whose child index in `b` is `k`, in their order in `s`. */
  function Routed(b: Rect, s: seq<GameObject>, k: int): (r: seq<GameObject>)
    ensures |r| <= |s|
    ensures forall i :: 0 <= i < |r| ==> GetChildIndex(b, r[i].position) == k
  {
    if s == [] then []
    else
      var last := s[|s| - 1];
      Routed(b, s[..|s| - 1], k) + (if GetChildIndex(b, last.position) == k then [last] else [])
  }

  /** `c` with `xs` appended to its object list. */
  function Append(c: Tree, xs: seq<GameObject>): Tree {
    c.(objects := c.objects + xs)
  }

  /** The redistribution loop of InsertRecursive run over `objs` on a node with
      children: objects with child index -1 stay, in order; every other object is
      appended, in order, to the child its index names. */
  function Distribute(n: Tree, objs: seq<GameObject>): Tree
    requires |n.children| == 4
  {
    var b := n.boundary;
    n.(objects := Routed(b, objs, -1),
       children := [ Append(n.children[0], Routed(b, objs, 0)),
                     Append(n.children[1], Routed(b, objs, 1)),
                     Append(n.children[2], Routed(b, objs, 2)),
                     Append(n.children[3], Routed(b, objs, 3)) ])
  }

  /** Adding `obj` at the node where routing stopped: append it, and when the node
      is over capacity below MaxDepth, split it if it has no children yet and
      redistribute its objects. */
  function Absorb(n: Tree, obj: GameObject): Tree {
    var objs := n.objects + [obj];
    if |objs| > n.maxObjectCount && n.level < MaxDepth then
      var withChildren := if |n.children| == 4 then n else n.(children := SplitChildren(n));
      Distribute(withChildren, objs)
    else
      n.(objects := objs)
  }

  /** InsertRecursive on the abstract tree. */
  function InsertInto(t: Tree, obj: GameObject): (r: Tree)
    ensures r.boundary == t.boundary && r.maxObjectCount == t.maxObjectCount && r.level == t.level
    decreases t
  {
    var index := GetChildIndex(t.boundary, obj.position);
    if |t.children| == 4 && index != -1 then
      t.(children := t.children[index := InsertInto(t.children[index], obj)])
    else
      Absorb(t, obj)
  }

  /** Every object stored anywhere in the subtree, with multiplicity. */
  function AllObjects(t: Tree): multiset<GameObject>
    decreases t, 1
  {
    multiset(t.objects) + ChildrenObjects(t)
  }

  /** Every object stored below `t`'s own list. */
  function ChildrenObjects(t: Tree): multiset<GameObject>
    decreases t, 0
  {
    if |t.children| == 4 then
      AllObjects(t.children[0]) + AllObjects(t.children[1]) +
      AllObjects(t.children[2]) + AllObjects(t.children[3])
    else multiset{}
  }

  /** Number of levels below `t`. */
  function Height(t: Tree): nat
    decreases t
  {
    if |t.children| == 4 then
      1 + Max(Max(Height(t.children[0]), Height(t.children[1])),
              Max(Height(t.children[2]), Height(t.children[3])))
    else 0
  }

  function Max(a: nat, b: nat): nat { if a < b then b else a }

  /** The shape every tree built by the class keeps:
      - a node has all four children or none;
      - only a node below MaxDepth has children;
      - the children are the four halves SplitNode made, one level deeper, with
        the parent's capacity;
      - a node with children keeps only objects that lie on a midpoint line. */
  ghost predicate Invariant(t: Tree)
    decreases t
  {
    && (t.children == [] || |t.children| == 4)
    && (t.children != [] ==>
          && t.level < MaxDepth
          && (forall k :: 0 <= k < 4 ==>
                && t.children[k].boundary == SplitRects(t.boundary)[k]
                && t.children[k].maxObjectCount == t.maxObjectCount
                && t.children[k].level == t.level + 1)
          && (forall i :: 0 <= i < |t.objects| ==> GetChildIndex(t.boundary, t.objects[i].position) == -1))
    && (forall k :: 0 <= k < |t.children| ==> Invariant(t.children[k]))
  }

  // ---------------------------------------------------------------------------
  // Lemmas about splitting and routing

  /** The four split rectangles are half the parent's size and tile it: a point
      lies in the parent exactly when it lies in one of them. */
  lemma SplitRectsTile(b: Rect, p: Position)
    ensures |SplitRects(b)| == 4
    ensures forall k :: 0 <= k < 4 ==>
              SplitRects(b)[k].width == b.width / 2.0 && SplitRects(b)[k].height == b.height / 2.0
    ensures Contains(b, p) <==> exists k :: 0 <= k < 4 && Contains(SplitRects(b)[k], p)
  {
    var rs := SplitRects(b);
    if Contains(b, p) {
      var right := p.x >= b.xMin + b.width / 2.0;
      var upper := p.y >= b.yMin + b.height / 2.0;
      var k := if right && !upper then 0 else if !right && !upper then 1 else if !right then 2 else 3;
      assert Contains(rs[k], p);
    }
  }

  /** No point lies in two of the split rectangles. */
  lemma SplitRectsDisjoint(b: Rect, p: Position, k: int, l: int)
    requires 0 <= k < l < 4
    ensures !(Contains(SplitRects(b)[k], p) && Contains(SplitRects(b)[l], p))
  {
  }

  /** Routing compares only with the parent's midpoints, while SplitNode gives slots
      0 and 1 the lower-y halves: a routed position never lies inside the boundary
      of the child it is routed to. */
  lemma RoutedChildMissesPosition(b: Rect, p: Position)
    requires GetChildIndex(b, p) != -1
    ensures !Contains(SplitRects(b)[GetChildIndex(b, p)], p)
  {
  }

  /** The child that does contain a routed position inside the parent is the slot
      mirrored across the horizontal midpoint (0 with 3, 1 with 2). */
  lemma RoutedPositionInMirroredChild(b: Rect, p: Position)
    requires Contains(b, p) && GetChildIndex(b, p) != -1
    ensures Contains(SplitRects(b)[3 - GetChildIndex(b, p)], p)
  {
  }

  /** Routing one more object extends exactly one routed list, at its end. */
  lemma RoutedSnoc(b: Rect, init: seq<GameObject>, last: GameObject, k: int)
    ensures Routed(b, init + [last], k) ==
            Routed(b, init, k) + (if GetChildIndex(b, last.position) == k then [last] else [])
  {
    assert (init + [last])[..|init|] == init;
  }

  /** Routing is a filter that keeps order: routing two lists one after the
      other gives the first list's routed objects followed by the second's. */
  lemma {:induction false} RoutedAppend(b: Rect, s1: seq<GameObject>, s2: seq<GameObject>, k: int)
    ensures Routed(b, s1 + s2, k) == Routed(b, s1, k) + Routed(b, s2, k)
  {
    if s2 == [] {
      assert s1 + s2 == s1;
    } else {
      var init, last := s2[..|s2| - 1], s2[|s2| - 1];
      assert s2 == init + [last];
      assert s1 + s2 == (s1 + init) + [last];
      RoutedAppend(b, s1, init, k);
      RoutedSnoc(b, s1 + init, last, k);
      RoutedSnoc(b, init, last, k);
    }
  }

  /** A single object is routed to the destination its child index names. */
  lemma RoutedSingle(b: Rect, x: GameObject, k: int)
    ensures Routed(b, [x], k) == (if GetChildIndex(b, x.position) == k then [x] else [])
  {
    assert [x][..0] == [];
  }

  lemma RoutedSnocMiss(b: Rect, init: seq<GameObject>, last: GameObject, k: int)
    requires GetChildIndex(b, last.position) != k
    ensures Routed(b, init + [last], k) == Routed(b, init, k)
  {
    assert (init + [last])[..|init|] == init;
  }

  lemma RoutedSnocHit(b: Rect, init: seq<GameObject>, last: GameObject)
    ensures var k := GetChildIndex(b, last.position);
            Routed(b, init + [last], k) == Routed(b, init, k) + [last]
  {
    assert (init + [last])[..|init|] == init;
  }

  /** The node in the middle of the redistribution loop, after the first `j`
      objects of `objs` have been looked at: those of them with index -1 stay,
      followed by the objects not yet looked at; the others have been appended to
      their children. */
  function Pending(n: Tree, objs: seq<GameObject>, j: nat): (r: Tree)
    requires |n.children| == 4 && j <= |objs|
    ensures |r.objects| == |Routed(n.boundary, objs[..j], -1)| + |objs| - j
    ensures |r.children| == 4
  {
    Distribute(n, objs[..j]).(objects := Routed(n.boundary, objs[..j], -1) + objs[j..])
  }

  /** Before the loop nothing has moved. */
  lemma PendingStart(n: Tree)
    requires |n.children| == 4
    ensures Pending(n, n.objects, 0) == n
  {
    var objs := n.objects;
    assert objs[..0] == [];
    var p := Pending(n, objs, 0);
    forall k | 0 <= k < 4
      ensures p.children[k] == n.children[k]
    {
      assert Routed(n.boundary, objs[..0], k) == [];
      AppendNothing(n.children[k]);
    }
    assert p.children == n.children;
  }

  /** After the loop every object has been looked at: the node is `Distribute`'s. */
  lemma PendingEnd(n: Tree, objs: seq<GameObject>)
    requires |n.children| == 4
    ensures Pending(n, objs, |objs|) == Distribute(n, objs)
  {
    assert objs[..|objs|] == objs;
    assert objs[|objs|..] == [];
  }

  /** One iteration: the object at position `|Routed(.., -1)|` of the node's list
      is `objs[j]`; it stays when its index is -1 and otherwise leaves the list
      and is appended to the child its index names. */
  lemma PendingStep(n: Tree, objs: seq<GameObject>, j: nat)
    requires |n.children| == 4 && j < |objs|
    ensures var p := Pending(n, objs, j);
            var i := |Routed(n.boundary, objs[..j], -1)|;
            var index := GetChildIndex(n.boundary, objs[j].position);
            && i < |p.objects| && p.objects[i] == objs[j]
            && |Routed(n.boundary, objs[..j + 1], -1)| == (if index == -1 then i + 1 else i)
            && Pending(n, objs, j + 1) ==
               if index == -1 then p
               else p.(objects := p.objects[..i] + p.objects[i + 1..],
                       children := p.children[index := Append(p.children[index], [objs[j]])])
  {
    var p := Pending(n, objs, j);
    var q := Pending(n, objs, j + 1);
    var index := GetChildIndex(n.boundary, objs[j].position);
    PendingStepObjects(n, objs, j);
    PendingStepChildren(n, objs, j);
    if index == -1 {
      assert q == p;
    } else {
      var i := |Routed(n.boundary, objs[..j], -1)|;
      assert q == p.(objects := p.objects[..i] + p.objects[i + 1..],
                     children := p.children[index := Append(p.children[index], [objs[j]])]);
    }
  }

  /** The object-list half of PendingStep. */
  lemma PendingStepObjects(n: Tree, objs: seq<GameObject>, j: nat)
    requires |n.children| == 4 && j < |objs|
    ensures var r := Routed(n.boundary, objs[..j], -1);
            var rest := objs[j + 1..];
            && Pending(n, objs, j).objects == r + [objs[j]] + rest
            && Routed(n.boundary, objs[..j + 1], -1) ==
               (if GetChildIndex(n.boundary, objs[j].position) == -1 then r + [objs[j]] else r)
            && Pending(n, objs, j + 1).objects ==
               if GetChildIndex(n.boundary, objs[j].position) == -1 then r + [objs[j]] + rest else r + rest
  {
    var r := Routed(n.boundary, objs[..j], -1);
    RoutedSnoc(n.boundary, objs[..j], objs[j], -1);
    assert objs[..j + 1] == objs[..j] + [objs[j]];
    assert objs[j..] == [objs[j]] + objs[j + 1..];
  }

  /** The children half of PendingStep. */
  lemma PendingStepChildren(n: Tree, objs: seq<GameObject>, j: nat)
    requires |n.children| == 4 && j < |objs|
    ensures var p := Pending(n, objs, j);
            var index := GetChildIndex(n.boundary, objs[j].position);
            Pending(n, objs, j + 1).children ==
              if index == -1 then p.children
              else p.children[index := Append(p.children[index], [objs[j]])]
  {
    var b := n.boundary;
    var x := objs[j];
    var init := objs[..j];
    assert objs[..j + 1] == init + [x];
    var p := Distribute(n, init).children;
    var q := Distribute(n, init + [x]).children;
    AppendRoutedSnoc(n.children[0], b, init, x, 0);
    AppendRoutedSnoc(n.children[1], b, init, x, 1);
    AppendRoutedSnoc(n.children[2], b, init, x, 2);
    AppendRoutedSnoc(n.children[3], b, init, x, 3);
    var index := GetChildIndex(b, x.position);
    if index == -1 {
      assert q == p;
    } else {
      assert q == p[index := Append(p[index], [x])];
    }
  }

  /** A child's appended list after one more object: it gains that object when
      the object's index names the child. */
  lemma AppendRoutedSnoc(c: Tree, b: Rect, init: seq<GameObject>, x: GameObject, k: int)
    ensures Append(c, Routed(b, init + [x], k)) ==
            if GetChildIndex(b, x.position) == k then Append(Append(c, Routed(b, init, k)), [x])
            else Append(c, Routed(b, init, k))
  {
    RoutedSnoc(b, init, x, k);
    assert c.objects + (Routed(b, init, k) + [x]) == c.objects + Routed(b, init, k) + [x];
  }

  /** The five routed lists of `s`, as one multiset. */
  function RoutedParts(b: Rect, s: seq<GameObject>): multiset<GameObject> {
    multiset(Routed(b, s, -1)) + multiset(Routed(b, s, 0)) + multiset(Routed(b, s, 1)) +
    multiset(Routed(b, s, 2)) + multiset(Routed(b, s, 3))
  }

  /** Adding `x` to the `i`-th of five multisets adds it to their sum. */
  lemma AddToOnePart<T>(a: multiset<T>, b: multiset<T>, c: multiset<T>, d: multiset<T>, e: multiset<T>,
                        x: multiset<T>, i: int)
    requires 0 <= i < 5
    ensures (if i == 0 then a + x else a) + (if i == 1 then b + x else b) + (if i == 2 then c + x else c)
          + (if i == 3 then d + x else d) + (if i == 4 then e + x else e) == a + b + c + d + e + x
  {
  }

  lemma RoutedPartsSnoc(b: Rect, init: seq<GameObject>, last: GameObject)
    ensures RoutedParts(b, init + [last]) == RoutedParts(b, init) + multiset{last}
  {
    var s := init + [last];
    var index := GetChildIndex(b, last.position);
    var m := [multiset(Routed(b, init, -1)), multiset(Routed(b, init, 0)),
      multiset(Routed(b, init, 1)), multiset(Routed(b, init, 2)), multiset(Routed(b, init, 3))];
    RoutedSnocHit(b, init, last);
    assert multiset(Routed(b, s, index)) == m[index + 1] + multiset{last};
    if index != -1 { RoutedSnocMiss(b, init, last, -1); }
    if index != 0 { RoutedSnocMiss(b, init, last, 0); }
    if index != 1 { RoutedSnocMiss(b, init, last, 1); }
    if index != 2 { RoutedSnocMiss(b, init, last, 2); }
    if index != 3 { RoutedSnocMiss(b, init, last, 3); }
    AddToOnePart(m[0], m[1], m[2], m[3], m[4], multiset{last}, index + 1);
  }

  /** Redistribution moves objects and neither copies nor drops them: what stays
      and what is handed down to the four children together are exactly the
      objects of `s`. */
  lemma {:induction false} RoutedPartition(b: Rect, s: seq<GameObject>)
    ensures multiset(s) == RoutedParts(b, s)
  {
    if s != [] {
      var init := s[..|s| - 1];
      var last := s[|s| - 1];
      RoutedPartition(b, init);
      assert s == init + [last];
      RoutedPartsSnoc(b, init, last);
    }
  }

  /** When every object lies on a midpoint line, redistribution leaves them all
      where they are. */
  lemma {:induction false} RoutedUnroutable(b: Rect, s: seq<GameObject>, k: int)
    requires forall i :: 0 <= i < |s| ==> GetChildIndex(b, s[i].position) == -1
    ensures Routed(b, s, -1) == s
    ensures k != -1 ==> Routed(b, s, k) == []
  {
    if s != [] {
      var init := s[..|s| - 1];
      var last := s[|s| - 1];
      RoutedUnroutable(b, init, k);
      assert s == init + [last];
      RoutedSnoc(b, init, last, -1);
      RoutedSnoc(b, init, last, k);
    }
  }

  lemma AppendNothing(c: Tree)
    ensures Append(c, []) == c
  {
    assert c.objects + [] == c.objects;
  }

  lemma AppendAllObjects(c: Tree, xs: seq<GameObject>)
    ensures AllObjects(Append(c, xs)) == AllObjects(c) + multiset(xs)
  {
  }

  /** Redistribution keeps every object of the node and its children. */
  lemma DistributeConserves(n: Tree, objs: seq<GameObject>)
    requires |n.children| == 4
    ensures AllObjects(Distribute(n, objs)) == ChildrenObjects(n) + multiset(objs)
  {
    var b := n.boundary;
    RoutedPartition(b, objs);
    AppendAllObjects(n.children[0], Routed(b, objs, 0));
    AppendAllObjects(n.children[1], Routed(b, objs, 1));
    AppendAllObjects(n.children[2], Routed(b, objs, 2));
    AppendAllObjects(n.children[3], Routed(b, objs, 3));
  }

  /** The four children SplitNode creates hold nothing. */
  lemma SplitChildrenEmpty(t: Tree)
    ensures ChildrenObjects(t.(children := SplitChildren(t))) == multiset{}
  {
    var n := t.(children := SplitChildren(t));
    assert forall k :: 0 <= k < 4 ==> AllObjects(n.children[k]) == multiset{};
  }

  /** Absorbing stores exactly one more occurrence of the object in the subtree. */
  lemma AbsorbAddsOne(t: Tree, obj: GameObject)
    ensures AllObjects(Absorb(t, obj)) == AllObjects(t) + multiset{obj}
  {
    var objs := t.objects + [obj];
    if |objs| > t.maxObjectCount && t.level < MaxDepth {
      if |t.children| == 4 {
        DistributeConserves(t, objs);
      } else {
        var n := t.(children := SplitChildren(t));
        DistributeConserves(n, objs);
        SplitChildrenEmpty(t);
        assert ChildrenObjects(t) == multiset{};
      }
    }
  }

  /** Growing the `i`-th of four multisets by `x` grows their sum by `x`. */
  lemma GrowOnePart<T>(a: multiset<T>, b: multiset<T>, c: multiset<T>, d: multiset<T>, x: multiset<T>, i: int)
    requires 0 <= i < 4
    ensures (if i == 0 then a + x else a) + (if i == 1 then b + x else b) + (if i == 2 then c + x else c)
            + (if i == 3 then d + x else d) == a + b + c + d + x
  {
  }

  /** Replacing one child by one holding `m` more objects adds `m` below the node. */
  lemma ReplaceChildObjects(t: Tree, i: int, c: Tree, m: multiset<GameObject>)
    requires |t.children| == 4 && 0 <= i < 4
    requires AllObjects(c) == AllObjects(t.children[i]) + m
    ensures ChildrenObjects(t.(children := t.children[i := c])) == ChildrenObjects(t) + m
  {
    var u := t.(children := t.children[i := c]);
    assert forall k :: 0 <= k < 4 ==> u.children[k] == if k == i then c else t.children[k];
    GrowOnePart(AllObjects(t.children[0]), AllObjects(t.children[1]), AllObjects(t.children[2]),
                AllObjects(t.children[3]), m, i);
  }

  // ---------------------------------------------------------------------------
  // Lemmas about insertion

  /** One insertion stores exactly one more occurrence of the object. */
  lemma {:induction false} InsertAddsOne(t: Tree, obj: GameObject)
    ensures AllObjects(InsertInto(t, obj)) == AllObjects(t) + multiset{obj}
    decreases t
  {
    var index := GetChildIndex(t.boundary, obj.position);
    if |t.children| == 4 && index != -1 {
      var c := InsertInto(t.children[index], obj);
      var u := t.(children := t.children[index := c]);
      assert InsertInto(t, obj) == u;
      InsertAddsOne(t.children[index], obj);
      ReplaceChildObjects(t, index, c, multiset{obj});
    } else {
      assert InsertInto(t, obj) == Absorb(t, obj);
      AbsorbAddsOne(t, obj);
    }
  }

  /** Inserting into a node with children whose index is not -1 changes only the
      child the object is routed to, and that child gains the object. */
  lemma InsertChangesOnlyRoutedChild(t: Tree, obj: GameObject)
    requires |t.children| == 4 && GetChildIndex(t.boundary, obj.position) != -1
    ensures var r := InsertInto(t, obj);
            var index := GetChildIndex(t.boundary, obj.position);
            && r.objects == t.objects && |r.children| == 4
            && (forall k :: 0 <= k < 4 && k != index ==> r.children[k] == t.children[k])
            && AllObjects(r.children[index]) == AllObjects(t.children[index]) + multiset{obj}
  {
    InsertAddsOne(t.children[GetChildIndex(t.boundary, obj.position)], obj);
  }

  /** A leaf splits on insertion exactly when it then holds more than its capacity
      and lies above MaxDepth. */
  lemma LeafSplitsWhenOverfull(t: Tree, obj: GameObject)
    requires t.children == []
    ensures |InsertInto(t, obj).children| == 4
            <==> |t.objects| + 1 > t.maxObjectCount && t.level < MaxDepth
  {
  }

  /** Redistributing objects that all lie on a midpoint line keeps them at the
      node and leaves the children alone. */
  lemma DistributeUnroutable(n: Tree, objs: seq<GameObject>)
    requires |n.children| == 4
    requires forall i :: 0 <= i < |objs| ==> GetChildIndex(n.boundary, objs[i].position) == -1
    ensures Distribute(n, objs) == n.(objects := objs)
  {
    var b := n.boundary;
    RoutedUnroutable(b, objs, 0);
    RoutedUnroutable(b, objs, 1);
    RoutedUnroutable(b, objs, 2);
    RoutedUnroutable(b, objs, 3);
    AppendNothing(n.children[0]);
    AppendNothing(n.children[1]);
    AppendNothing(n.children[2]);
    AppendNothing(n.children[3]);
    assert Distribute(n, objs).children == [n.children[0], n.children[1], n.children[2], n.children[3]];
  }

  /** A node with children whose objects, and the new one, all lie on a midpoint
      line absorbs the object into its own list and leaves its children alone. */
  lemma AbsorbOnMidpoint(t: Tree, obj: GameObject)
    requires |t.children| == 4
    requires forall i :: 0 <= i < |t.objects| ==> GetChildIndex(t.boundary, t.objects[i].position) == -1
    requires GetChildIndex(t.boundary, obj.position) == -1
    ensures Absorb(t, obj) == t.(objects := t.objects + [obj])
  {
    var objs := t.objects + [obj];
    if |objs| > t.maxObjectCount && t.level < MaxDepth {
      assert forall i :: 0 <= i < |objs| ==> GetChildIndex(t.boundary, objs[i].position) == -1;
      DistributeUnroutable(t, objs);
    }
  }

  /** Splitting a node below MaxDepth and redistributing any objects gives four
      correct leaves and keeps only midpoint objects at the node. */
  lemma FreshSplitInvariant(t: Tree, objs: seq<GameObject>)
    requires t.children == [] && t.level < MaxDepth
    ensures Invariant(Distribute(t.(children := SplitChildren(t)), objs))
  {
    var r := Distribute(t.(children := SplitChildren(t)), objs);
    assert forall k :: 0 <= k < 4 ==> r.children[k].children == [];
    assert forall k :: 0 <= k < 4 ==> Invariant(r.children[k]);
  }

  /** Absorbing an object keeps the shape invariant. */
  lemma AbsorbPreservesInvariant(t: Tree, obj: GameObject)
    requires Invariant(t)
    requires |t.children| == 4 ==> GetChildIndex(t.boundary, obj.position) == -1
    ensures Invariant(Absorb(t, obj))
  {
    var objs := t.objects + [obj];
    if |t.children| == 4 {
      AbsorbOnMidpoint(t, obj);
      var r := Absorb(t, obj);
      assert forall i :: 0 <= i < |r.objects| ==> GetChildIndex(t.boundary, r.objects[i].position) == -1;
    } else if |objs| > t.maxObjectCount && t.level < MaxDepth {
      FreshSplitInvariant(t, objs);
    }
  }

  /** Insertion keeps the tree's shape invariant. */
  lemma {:induction false} InsertPreservesInvariant(t: Tree, obj: GameObject)
    requires Invariant(t)
    ensures Invariant(InsertInto(t, obj))
    decreases t
  {
    var index := GetChildIndex(t.boundary, obj.position);
    if |t.children| == 4 && index != -1 {
      InsertPreservesInvariant(t.children[index], obj);
      var r := InsertInto(t, obj);
      assert forall k :: 0 <= k < 4 ==> Invariant(r.children[k]);
    } else {
      AbsorbPreservesInvariant(t, obj);
    }
  }

  /** In a tree that keeps the invariant, no node lies deeper than MaxDepth: a
      root at level 0 has height at most 5. */
  lemma {:induction false} LevelBound(t: Tree)
    requires Invariant(t) && t.level <= MaxDepth
    ensures t.level + Height(t) <= MaxDepth
    decreases t
  {
    if |t.children| == 4 {
      LevelBound(t.children[0]);
      LevelBound(t.children[1]);
      LevelBound(t.children[2]);
      LevelBound(t.children[3]);
    }
  }

  /** Redistribution does not look at the children's capacity: a child can end up
      holding more objects than MaxObjectCount. */
  lemma ChildMayExceedCapacity()
    ensures var a := GameObject(1, Position(1.0, 1.0));
            var b := GameObject(2, Position(1.0, 1.5));
            var t := Tree(Rect(0.0, 0.0, 4.0, 4.0), 1, 0, [a], []);
            var r := InsertInto(t, b);
            |r.children| == 4 && r.objects == [] && r.children[2].objects == [a, b]
            && |r.children[2].objects| > r.children[2].maxObjectCount
  {
    var a := GameObject(1, Position(1.0, 1.0));
    var b := GameObject(2, Position(1.0, 1.5));
    var bound := Rect(0.0, 0.0, 4.0, 4.0);
    assert GetChildIndex(bound, a.position) == 2;
    assert GetChildIndex(bound, b.position) == 2;
    assert [a, b] == [a] + [b];
    assert [a] == [] + [a];
    RoutedSnocHit(bound, [], a);
    RoutedSnocHit(bound, [a], b);
    RoutedSnocMiss(bound, [], a, -1);
    RoutedSnocMiss(bound, [a], b, -1);
  }

  // ---------------------------------------------------------------------------
  // The classes

  /** A node of the tree, updated in place. `Children` is the four-slot array of
      the source: all four slots are null until SplitNode fills them. */
  class QuadTreeNode {
    const Boundary: Rect
    const MaxObjectCount: int
    const Level: int
    var Objects: seq<GameObject>
    const Children: array<QuadTreeNode?>

    ghost var Model: Tree
    ghost var Repr: set<object>

    /** The node and the subtree below it agree with `Model`, and every child
        keeps the same invariant. */
    ghost predicate Valid()
      reads this, Repr
      decreases Repr, 1
    {
      && Frame()
      && (Children[0] != null ==> SubtreesValid())
    }

    /** The four children of a split node are valid. */
    ghost predicate SubtreesValid()
      requires Frame() && Children[0] != null
      reads this, Repr
      decreases Repr, 0
    {
      Children[0].Valid() && Children[1].Valid() && Children[2].Valid() && Children[3].Valid()
    }

    /** The part of `Valid` that looks at this node only: its fields agree with
        `Model`, the four slots are all null or all set, and the children's
        footprints are disjoint and hold neither this node nor its array. */
    ghost predicate Frame()
      reads this, Repr
    {
      && this in Repr && Children in Repr
      && Children.Length == 4
      && Model.boundary == Boundary && Model.maxObjectCount == MaxObjectCount
      && Model.level == Level && Model.objects == Objects
      && (Children[0] == null ==>
            Children[1] == null && Children[2] == null && Children[3] == null && Model.children == [])
      && (Children[0] != null ==>
            && |Model.children| == 4
            && ChildFrame(0) && ChildFrame(1) && ChildFrame(2) && ChildFrame(3)
            && Children[0].Repr !! Children[1].Repr && Children[0].Repr !! Children[2].Repr
            && Children[0].Repr !! Children[3].Repr && Children[1].Repr !! Children[2].Repr
            && Children[1].Repr !! Children[3].Repr && Children[2].Repr !! Children[3].Repr)
    }

    /** Slot `k` holds a child inside this node's footprint whose model is the
        `k`-th child of `Model`. */
    ghost predicate ChildFrame(k: int)
      reads this, Repr, Children
    {
      && 0 <= k < Children.Length && k < |Model.children|
      && Children[k] != null && Children[k] in Repr && Children[k].Repr <= Repr
      && this !in Children[k].Repr && Children !in Children[k].Repr
      && Children[k].Model == Model.children[k]
    }

    constructor(boundary: Rect, maxObjectCount: int, level: int)
      ensures Valid() && fresh(Repr) && Repr == {this, Children} && Children[0] == null
      ensures Model == EmptyNode(boundary, maxObjectCount, level)
    {
      Boundary := boundary;
      MaxObjectCount := maxObjectCount;
      Level := level;
      Objects := [];
      Children := new QuadTreeNode?[4](_ => null);
      Model := EmptyNode(boundary, maxObjectCount, level);
      Repr := {this, Children};
    }

    /** Empties the node. As in the source, each old child subtree is cleared
        (ClearSlot states it becomes an empty leaf) before its slot is nulled,
        after which no path from this node reaches it. */
    method Clear()
      requires Valid()
      modifies Repr
      ensures Valid() && fresh(Repr - old(Repr))
      ensures Model == EmptyNode(Boundary, MaxObjectCount, Level)
      decreases Repr, 1
    {
      assert SlotsFrom(0);
      Objects := [];
      for i := 0 to Children.Length
        invariant Objects == [] && Repr == old(Repr)
        invariant forall k :: 0 <= k < i ==> Children[k] == null
        invariant SlotsFrom(i)
      {
        ClearSlot(i);
      }
      Model := EmptyNode(Boundary, MaxObjectCount, Level);
      Repr := {this, Children};
    }

    /** Clears the subtree in slot `i`, if any, and empties the slot. */
    method ClearSlot(i: int)
      requires 0 <= i < 4 && SlotsFrom(i)
      modifies Repr
      ensures Repr == old(Repr) && Objects == old(Objects)
      ensures SlotsFrom(i + 1) && Children[i] == null
      ensures forall k :: 0 <= k < 4 && k != i ==> Children[k] == old(Children[k])
      ensures var c := old(Children[i]);
              c != null ==> c.Model == EmptyNode(c.Boundary, c.MaxObjectCount, c.Level)
      decreases Repr, 0
    {
      if Children[i] != null {
        Children[i].Clear();
        Children[i] := null;
      }
    }

    /** Slots `i` to 3 hold valid children, or nothing, with disjoint footprints
        inside this node's footprint. */
    ghost predicate SlotsFrom(i: int)
      reads this, Repr
    {
      && this in Repr && Children in Repr && Children.Length == 4 && 0 <= i <= 4
      && (forall k :: i <= k < 4 && Children[k] != null ==>
            && Children[k] in Repr && Children[k].Repr <= Repr
            && this !in Children[k].Repr && Children !in Children[k].Repr
            && Children[k].Valid())
      && (forall k, l :: i <= k < l < 4 && Children[k] != null && Children[l] != null ==>
            Children[k].Repr !! Children[l].Repr)
    }

    /** Fills the four empty slots with fresh leaves. */
    method Adopt(c0: QuadTreeNode, c1: QuadTreeNode, c2: QuadTreeNode, c3: QuadTreeNode)
      requires Valid() && Children[0] == null
      requires c0.Frame() && c1.Frame() && c2.Frame() && c3.Frame()
      requires c0.Children[0] == null && c1.Children[0] == null && c2.Children[0] == null && c3.Children[0] == null
      requires c0.Repr !! Repr && c1.Repr !! Repr && c2.Repr !! Repr && c3.Repr !! Repr
      requires c0.Repr !! c1.Repr && c0.Repr !! c2.Repr && c0.Repr !! c3.Repr
      requires c1.Repr !! c2.Repr && c1.Repr !! c3.Repr && c2.Repr !! c3.Repr
      modifies this, Children
      ensures Valid() && Repr == old(Repr) + c0.Repr + c1.Repr + c2.Repr + c3.Repr
      ensures Model == old(Model).(children := [c0.Model, c1.Model, c2.Model, c3.Model])
    {
      Children[0] := c0;
      Children[1] := c1;
      Children[2] := c2;
      Children[3] := c3;
      Model := Model.(children := [c0.Model, c1.Model, c2.Model, c3.Model]);
      Repr := Repr + c0.Repr + c1.Repr + c2.Repr + c3.Repr;
    }

    /** `Frame()` with child `index` let go: that child is valid and its
        footprint, which may have grown, stays clear of this node, its array and
        its siblings, but it need not be inside `Repr` nor agree with `Model`. */
    ghost predicate Detached(index: int)
      reads this, Repr, Children
      reads if 0 <= index < Children.Length && Children[index] != null then {Children[index]} + Children[index].Repr else {}
    {
      && 0 <= index < 4 && this in Repr && Children in Repr && Children.Length == 4
      && Model.boundary == Boundary && Model.maxObjectCount == MaxObjectCount
      && Model.level == Level && Model.objects == Objects && |Model.children| == 4
      && Children[0] != null && Children[1] != null && Children[2] != null && Children[3] != null
      && Children[index] in Repr && Children[index].Valid()
      && this !in Children[index].Repr && Children !in Children[index].Repr
      && (forall k | 0 <= k < 4 && k != index :: ChildFrame(k) && Children[k].Valid())
      && Children[0].Repr !! Children[1].Repr && Children[0].Repr !! Children[2].Repr
      && Children[0].Repr !! Children[3].Repr && Children[1].Repr !! Children[2].Repr
      && Children[1].Repr !! Children[3].Repr && Children[2].Repr !! Children[3].Repr
    }

    /** Takes in the new state of child `index`. */
    ghost method Reattach(index: int)
      requires Detached(index)
      modifies this
      ensures Valid() && Repr == old(Repr) + Children[index].Repr
      ensures Model == old(Model).(children := old(Model).children[index := Children[index].Model])
    {
      Model := Model.(children := Model.children[index := Children[index].Model]);
      Repr := Repr + Children[index].Repr;
    }

    /** `Objects.RemoveAt(i)` after the object has gone to child `index`: drops
        it from this node's list and takes in that child's new state. */
    method RemoveAt(i: int, index: int)
      requires Detached(index) && 0 <= i < |Objects|
      modifies this
      ensures Valid() && Repr == old(Repr) + Children[index].Repr
      ensures Objects == old(Objects[..i] + Objects[i + 1..])
      ensures Model == old(Model).(objects := Objects, children := old(Model).children[index := Children[index].Model])
    {
      Objects := Objects[..i] + Objects[i + 1..];
      Model := Model.(objects := Objects, children := Model.children[index := Children[index].Model]);
      Repr := Repr + Children[index].Repr;
    }

    /** `Objects.Add` on this node. */
    method AddObject(obj: GameObject)
      requires Valid()
      modifies this
      ensures Valid() && Repr == old(Repr)
      ensures Model == Append(old(Model), [obj])
    {
      Objects := Objects + [obj];
      Model := Append(Model, [obj]);
    }
  }

  /** A node whose footprint is untouched keeps its invariant and its model. */
  twostate lemma ValidFrame(n: QuadTreeNode)
    requires old(n.Valid()) && unchanged(old(n.Repr))
    ensures n.Valid() && n.Repr == old(n.Repr) && n.Model == old(n.Model)
  {
  }

  /** The tree: a root node at level 0 whose subtree keeps `Invariant`. */
  class QuadTree {
    const root: QuadTreeNode

    ghost var Repr: set<object>

    ghost predicate Valid()
      reads this, Repr
    {
      && this in Repr && root in Repr && root.Repr <= Repr && this !in root.Repr
      && root.Valid() && root.Level == 0 && Invariant(root.Model)
    }

    ghost function Model(): Tree
      reads this, root
    {
      root.Model
    }

    constructor(boundary: Rect, maxObjects: int)
      ensures Valid() && fresh(Repr)
      ensures Model() == EmptyNode(boundary, maxObjects, 0)
    {
      root := new QuadTreeNode(boundary, maxObjects, 0);
      new;
      Repr := {this} + root.Repr;
    }

    /** Inserts `obj`: the tree becomes `InsertInto` of the old one, stores exactly
        one more occurrence of `obj`, and keeps its shape invariant. */
    method Insert(obj: GameObject)
      requires Valid()
      modifies Repr
      ensures Valid() && fresh(Repr - old(Repr))
      ensures Model() == InsertInto(old(Model()), obj)
      ensures AllObjects(Model()) == AllObjects(old(Model())) + multiset{obj}
    {
      InsertRecursive(root, obj);
      Repr := Repr + root.Repr;
      InsertPreservesInvariant(old(root.Model), obj);
      InsertAddsOne(old(root.Model), obj);
    }

    /** Routes `obj` down while the node has children and a child index; stores
        it at the node where routing stops, then splits and redistributes that
        node when it is over capacity below MaxDepth. */
    method InsertRecursive(node: QuadTreeNode, obj: GameObject)
      requires node.Valid()
      modifies node.Repr
      ensures node.Valid() && old(node.Repr) <= node.Repr && fresh(node.Repr - old(node.Repr))
      ensures node.Model == InsertInto(old(node.Model), obj)
      decreases node.Repr, 1
    {
      if node.Children[0] != null {
        var index := GetChildIndex(node.Boundary, obj.position);
        if index != -1 {
          InsertIntoChild(node, index, obj);
          node.Reattach(index);
          return;
        }
      }
      Store(node, obj);
    }

    /** The routing step of InsertRecursive: inserts `obj` into child `index`,
        which may grow by fresh objects; the node's other children keep their
        place in the node. */
    method InsertIntoChild(node: QuadTreeNode, index: int, obj: GameObject)
      requires node.Valid() && node.Children[0] != null && 0 <= index < 4
      modifies node.Children[index].Repr
      ensures node.Detached(index)
      ensures node.Children[index].Model == InsertInto(old(node.Children[index].Model), obj)
      ensures old(node.Children[index].Repr) <= node.Children[index].Repr
      ensures fresh(node.Children[index].Repr - old(node.Children[index].Repr))
      decreases node.Repr, 0
    {
      var child := node.Children[index];
      label Before:
      InsertRecursive(child, obj);
      forall k | 0 <= k < 4 && k != index
        ensures node.ChildFrame(k) && node.Children[k].Valid() && node.Children[k].Repr !! child.Repr
      {
        ValidFrame@Before(node.Children[k]);
      }
      assert node.Detached(index);
    }

    /** The tail of InsertRecursive, where routing has stopped: appends `obj` to
        the node's list, and when the node is then over capacity below MaxDepth,
        splits it if it has no children and redistributes its objects. */
    method Store(node: QuadTreeNode, obj: GameObject)
      requires node.Valid()
      modifies node.Repr
      ensures node.Valid() && old(node.Repr) <= node.Repr && fresh(node.Repr - old(node.Repr))
      ensures node.Model == Absorb(old(node.Model), obj)
    {
      node.AddObject(obj);
      if |node.Objects| > node.MaxObjectCount && node.Level < MaxDepth {
        if node.Children[0] == null {
          SplitNode(node);
        }
        Redistribute(node);
      }
    }

    /** The redistribution loop of InsertRecursive: every object of the node with
        a child index moves, in order, to the end of that child's list; the others
        stay, in order. */
    method Redistribute(node: QuadTreeNode)
      requires node.Valid() && node.Children[0] != null
      modifies node.Repr
      ensures node.Valid() && node.Repr == old(node.Repr)
      ensures node.Model == Distribute(old(node.Model), old(node.Objects))
    {
      ghost var objs := node.Objects;
      ghost var m0 := node.Model;
      ghost var j := 0;
      PendingStart(m0);
      var i := 0;
      while i < |node.Objects|
        invariant 0 <= j <= |objs| && i == |Routed(m0.boundary, objs[..j], -1)|
        invariant node.Valid() && node.Children[0] != null && node.Repr == old(node.Repr)
        invariant node.Model == Pending(m0, objs, j)
        decreases |objs| - j
      {
        PendingStep(m0, objs, j);
        var index := GetChildIndex(node.Boundary, node.Objects[i].position);
        if index != -1 {
          assert node.ChildFrame(index);
          MoveToChild(node, i, index);
        } else {
          i := i + 1;
        }
        j := j + 1;
      }
      assert j == |objs|;
      PendingEnd(m0, objs);
    }

    /** The branch of the redistribution loop that moves `node.Objects[i]` to
        child `index`: the child's list gains it at the end, the node's list
        loses it. */
    method MoveToChild(node: QuadTreeNode, i: int, index: int)
      requires node.Valid() && node.Children[0] != null
      requires 0 <= i < |node.Objects| && 0 <= index < 4
      modifies node, node.Children[index]
      ensures node.Valid() && node.Repr == old(node.Repr)
      ensures node.Model == old(node.Model).(
                objects := old(node.Objects[..i] + node.Objects[i + 1..]),
                children := old(node.Model.children[index := Append(node.Model.children[index], [node.Objects[i]])]))
    {
      AddToChild(node, index, node.Objects[i]);
      node.RemoveAt(i, index);
    }

    /** `node.Children[index].Objects.Add(x)`: the child gains `x` at the end of
        its list, and the node's other children keep their place in the node. */
    method AddToChild(node: QuadTreeNode, index: int, x: GameObject)
      requires node.Valid() && node.Children[0] != null && 0 <= index < 4
      modifies node.Children[index]
      ensures node.Children[index].Valid()
      ensures node.Children[index].Model == Append(old(node.Children[index].Model), [x])
      ensures node.Children[index].Repr == old(node.Children[index].Repr) && node.Detached(index)
    {
      var child := node.Children[index];
      label Before:
      child.AddObject(x);
      forall k | 0 <= k < 4 && k != index
        ensures node.ChildFrame(k) && node.Children[k].Valid() && node.Children[k].Repr == old(node.Children[k].Repr)
      {
        ValidFrame@Before(node.Children[k]);
      }
      assert node.Detached(index);
    }

    /** Gives `node` the four children of SplitRects, one level deeper and with the
        node's capacity. */
    method SplitNode(node: QuadTreeNode)
      requires node.Valid() && node.Children[0] == null
      modifies node, node.Children
      ensures node.Valid() && old(node.Repr) <= node.Repr && fresh(node.Repr - old(node.Repr))
      ensures node.Model == old(node.Model).(children := SplitChildren(old(node.Model)))
    {
      var subWidth := node.Boundary.width / 2.0;
      var subHeight := node.Boundary.height / 2.0;
      var x := node.Boundary.xMin;
      var y := node.Boundary.yMin;
      ghost var sc := SplitChildren(node.Model);
      var c0 := new QuadTreeNode(Rect(x + subWidth, y, subWidth, subHeight), node.MaxObjectCount, node.Level + 1);
      assert c0.Model == sc[0];
      var c1 := new QuadTreeNode(Rect(x, y, subWidth, subHeight), node.MaxObjectCount, node.Level + 1);
      assert c1.Model == sc[1];
      var c2 := new QuadTreeNode(Rect(x, y + subHeight, subWidth, subHeight), node.MaxObjectCount, node.Level + 1);
      assert c2.Model == sc[2];
      var c3 := new QuadTreeNode(Rect(x + subWidth, y + subHeight, subWidth, subHeight), node.MaxObjectCount, node.Level + 1);
      assert c3.Model == sc[3];
      assert [c0.Model, c1.Model, c2.Model, c3.Model] == sc;
      assert fresh(c0.Repr + c1.Repr + c2.Repr + c3.Repr);
      node.Adopt(c0, c1, c2, c3);
    }
  }
}

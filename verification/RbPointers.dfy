/**
 The red-black tree with its pointers (internal/structures/rb_tree.go:46-80, 115-302): the writes to left, right
 and parent links, colours and the root, in the order of the code. Every operation leaves all links
 right, the tree red-black, and its in-order sequence as promised; the sentinel's own parent link, which
 the fix-up of a deletion follows, included.
 */
module RbPointers {
  import opened OrderedEntries
  import opened RbLinks
  import opened RbTree
  import opened Records

  /** What a rotation writes: `t` sinks to its side, its other child rises. */
  function RotatedCell(a: Arena, t: Tree, path: Path, side: bool, i: Id): (c: Cell)
    requires t.Node? && Child(t, !side).Node? && i in a
  {
    var y := Child(t, !side);
    if i == t.id then WithKid(a[i], !side, IdOf(Child(y, side))).(parent := y.id)
    else if i == y.id then WithKid(a[i], side, t.id).(parent := ParentId(path, |path|))
    else if i == IdOf(Child(y, side)) && i != SENTINEL then a[i].(parent := t.id)
    else if |path| > 0 && i == path[|path| - 1].id then WithKid(a[i], path[|path| - 1].toLeft, y.id)
    else a[i]
  }

  /** The nodes that a rotation writes to are different ones. */
  lemma RotationIds(a: Arena, root: Id, t: Tree, path: Path, side: bool)
    requires Focused(a, root, t, path) && t.Node? && Child(t, !side).Node?
    ensures var y := Child(t, !side); var b := Child(y, side);
            && t.id != y.id && t.id in a && y.id in a && t.id != SENTINEL && y.id != SENTINEL
            && a[t.id] == CellOf(t, ParentId(path, |path|)) && a[y.id] == CellOf(y, t.id)
            && (b.Node? ==> b.id in a && b.id != t.id && b.id != y.id && b.id != SENTINEL)
            && (|path| > 0 ==> var p := path[|path| - 1].id;
                 p in a && p != SENTINEL && p != t.id && p != y.id && p != IdOf(b) && (t.id == a[p].left <==> path[|path| - 1].toLeft))
  {
    var y := Child(t, !side);
    LinkedIds(a, t, ParentId(path, |path|));
    assert Linked(a, y, t.id) && Separate(y) && y.id in Ids(y);
    var b := Child(y, side);
    assert Linked(a, b, y.id);
    if b.Node? {
      assert b.id in Ids(b) && b.id in Ids(y);
    }
    if |path| > 0 {
      ParentLink(a, root, t, path);
      assert path[|path| - 1].id in PathIds(path, |path|);
    }
  }

  lemma TowardIds(t: Tree, side: bool)
    requires t.Node? && Child(t, !side).Node? && Separate(t)
    ensures Ids(Toward(t, side)) == Ids(t) && Separate(Toward(t, side))
  {
  }

  lemma RotatedLinked(a: Arena, t: Tree, parent: Id, side: bool, a': Arena)
    requires Linked(a, t, parent) && Separate(t) && t.Node? && Child(t, !side).Node? && SENTINEL !in Ids(t)
    requires var y := Child(t, !side); var b := Child(y, side);
             && t.id in a' && y.id in a && (b.Node? ==> b.id in a) && a'[t.id] == WithKid(a[t.id], !side, IdOf(b)).(parent := y.id)
             && y.id in a' && a'[y.id] == WithKid(a[y.id], side, t.id).(parent := parent)
             && (b.Node? ==> b.id in a' && a'[b.id] == a[b.id].(parent := t.id))
             && SameAt(a, a', Ids(t) - {t.id, y.id, IdOf(b)})
    ensures Linked(a', Toward(t, side), parent)
  {
    var y := Child(t, !side);
    var b := Child(y, side);
    Reparented(a, a', b, y.id, t.id);
    LinkedSame(a, a', Child(t, side), t.id);
    LinkedSame(a, a', Child(y, !side), y.id);
  }

  /** After these writes the links are those of the rotated tree. */
  lemma RotatedFocused(a: Arena, root: Id, t: Tree, path: Path, side: bool, a': Arena, root': Id)
    requires Focused(a, root, t, path) && t.Node? && Child(t, !side).Node?
    requires a'.Keys == a.Keys && forall i :: i in a ==> a'[i] == RotatedCell(a, t, path, side, i)
    requires root' == if |path| == 0 then Child(t, !side).id else root
    ensures Focused(a', root', Toward(t, side), path) && a'[SENTINEL] == a[SENTINEL]
  {
    RotationIds(a, root, t, path, side);
    LinkedIds(a, t, ParentId(path, |path|));
    PathLinkedIds(a, path, |path|, t.id);
    RotatedLinked(a, t, ParentId(path, |path|), side, a');
    TowardIds(t, side);
    Replace(a, root, t.id, path, a', root', Toward(t, side));
  }

  /** The writes of a rotation, one after the other: `x` sinks to its side. */
  function RotateWrites(a: Arena, x: Id, side: bool): (a': Arena)
    requires x in a && Kid(a[x], !side) in a && Kid(a[x], !side) != x && a[x].parent != x
    requires var b := Kid(a[Kid(a[x], !side)], side); b in a && (b != SENTINEL ==> b != x)
    requires a[x].parent in a
  {
    var y := Kid(a[x], !side);
    var b := Kid(a[y], side);
    var a1 := a[x := WithKid(a[x], !side, b)];
    var a2 := if b != SENTINEL then a1[b := a1[b].(parent := x)] else a1;
    var a3 := a2[y := a2[y].(parent := a2[x].parent)];
    var p := a3[x].parent;
    var a4 := if p == SENTINEL then a3 else if x == Kid(a3[p], side) then a3[p := WithKid(a3[p], side, y)] else a3[p := WithKid(a3[p], !side, y)];
    var a5 := a4[y := WithKid(a4[y], side, x)];
    a5[x := a5[x].(parent := y)]
  }

  /** What they amount to. */
  lemma RotateWritesAt(a: Arena, root: Id, t: Tree, path: Path, side: bool, i: Id)
    requires Focused(a, root, t, path) && t.Node? && Child(t, !side).Node? && i in a
    ensures var y := Child(t, !side);
            && t.id in a && Kid(a[t.id], !side) in a && Kid(a[t.id], !side) != t.id && a[t.id].parent != t.id
            && Kid(a[y.id], side) in a && (Kid(a[y.id], side) != SENTINEL ==> Kid(a[y.id], side) != t.id) && a[t.id].parent in a
            && Kid(a[t.id], !side) == y.id && a[t.id].parent == ParentId(path, |path|)
    ensures i in RotateWrites(a, t.id, side) && RotateWrites(a, t.id, side)[i] == RotatedCell(a, t, path, side, i)
  {
    RotationIds(a, root, t, path, side);
    if |path| > 0 {
      LinkTwice(a[path[|path| - 1].id], side, path[|path| - 1].toLeft, t.id, Child(t, !side).id);
      ParentLink(a, root, t, path);
    }
  }

  lemma LinkTwice(c: Cell, side: bool, toLeft: bool, x: Id, y: Id)
    requires Kid(c, toLeft) == x != Kid(c, !toLeft)
    ensures (if x == Kid(c, side) then WithKid(c, side, y) else WithKid(c, !side, y)) == WithKid(c, toLeft, y)
  {
  }

  lemma RotateKeepsFocus(a: Arena, root: Id, t: Tree, path: Path, side: bool, a': Arena, root': Id)
    requires Focused(a, root, t, path) && t.Node? && Child(t, !side).Node?
    requires var y := Child(t, !side);
             && t.id in a && Kid(a[t.id], !side) in a && Kid(a[t.id], !side) != t.id && a[t.id].parent != t.id
             && Kid(a[y.id], side) in a && (Kid(a[y.id], side) != SENTINEL ==> Kid(a[y.id], side) != t.id) && a[t.id].parent in a
             && Kid(a[t.id], !side) == y.id
    requires a' == RotateWrites(a, t.id, side) && root' == if |path| == 0 then Child(t, !side).id else root
    ensures Focused(a', root', Toward(t, side), path) && a'[SENTINEL] == a[SENTINEL] && a'.Keys == a.Keys
  {
    forall i | i in a ensures i in a' && a'[i] == RotatedCell(a, t, path, side, i) {
      RotateWritesAt(a, root, t, path, side, i);
    }
    RotatedFocused(a, root, t, path, side, a', root');
  }

  class RBTree {
    var nodes: Arena
    var root: Id
    var next: Id
    var size: nat
    ghost var tree: Tree

    /** All links are right, the tree is red-black, and its entries are in order. */
    ghost predicate Valid()
      reads this
    {
      && Focused(nodes, root, tree, []) && Good(tree) && Sorted(InOrder(tree))
      && next > SENTINEL && forall i :: i in nodes ==> i < next
    }

    /** `NewRBTree`: the sentinel alone. */
    constructor ()
      ensures Valid() && InOrder(tree) == [] && size == 0
    {
      nodes := map[SENTINEL := Cell(SENTINEL, SENTINEL, SENTINEL, Black, Record(0.0, [], 0, Put, 0))];
      root, next, size, tree := SENTINEL, SENTINEL + 1, 0, Nil;
      assert RedBlack(Nil, 0);
    }

    /** `leftRotate`. */
    method LeftRotate(x: Id, ghost t: Tree, ghost path: Path)
      requires Focused(nodes, root, t, path) && t.Node? && t.right.Node? && x == t.id
      modifies this`nodes, this`root
      ensures Focused(nodes, root, RbTree.LeftRotate(t), path)
      ensures nodes.Keys == old(nodes.Keys) && nodes[SENTINEL] == old(nodes[SENTINEL])
    {
      ghost var a, r := nodes, root;
      RotateWritesAt(a, r, t, path, true, SENTINEL);
      var y := nodes[x].right;
      nodes := nodes[x := nodes[x].(right := nodes[y].left)];
      if nodes[y].left != SENTINEL {
        nodes := nodes[nodes[y].left := nodes[nodes[y].left].(parent := x)];
      }
      nodes := nodes[y := nodes[y].(parent := nodes[x].parent)];
      var p := nodes[x].parent;
      if p == SENTINEL {
        root := y;
      } else if x == nodes[p].left {
        nodes := nodes[p := nodes[p].(left := y)];
      } else {
        nodes := nodes[p := nodes[p].(right := y)];
      }
      nodes := nodes[y := nodes[y].(left := x)];
      nodes := nodes[x := nodes[x].(parent := y)];
      assert nodes == RotateWrites(a, x, true);
      RotateKeepsFocus(a, r, t, path, true, nodes, root);
    }

    /** `rightRotate`. */
    method RightRotate(x: Id, ghost t: Tree, ghost path: Path)
      requires Focused(nodes, root, t, path) && t.Node? && t.left.Node? && x == t.id
      modifies this`nodes, this`root
      ensures Focused(nodes, root, RbTree.RightRotate(t), path)
      ensures nodes.Keys == old(nodes.Keys) && nodes[SENTINEL] == old(nodes[SENTINEL])
    {
      ghost var a, r := nodes, root;
      RotateWritesAt(a, r, t, path, false, SENTINEL);
      var y := nodes[x].left;
      nodes := nodes[x := nodes[x].(left := nodes[y].right)];
      if nodes[y].right != SENTINEL {
        nodes := nodes[nodes[y].right := nodes[nodes[y].right].(parent := x)];
      }
      nodes := nodes[y := nodes[y].(parent := nodes[x].parent)];
      var p := nodes[x].parent;
      if p == SENTINEL {
        root := y;
      } else if x == nodes[p].right {
        nodes := nodes[p := nodes[p].(right := y)];
      } else {
        nodes := nodes[p := nodes[p].(left := y)];
      }
      nodes := nodes[y := nodes[y].(right := x)];
      nodes := nodes[x := nodes[x].(parent := y)];
      assert nodes == RotateWrites(a, x, false);
      RotateKeepsFocus(a, r, t, path, false, nodes, root);
    }

    method Paint(i: Id, c: Color)
      requires i in nodes
      modifies this`nodes
      ensures nodes == old(nodes)[i := old(nodes)[i].(color := c)] && nodes.Keys == old(nodes.Keys)
    {
      nodes := nodes[i := nodes[i].(color := c)];
    }

    // ---------------------------------------------------------------- insertion

    /** Red uncle: parent and uncle black, grandparent red; the grandparent is next. */
    method Recolor(z: Id, ghost zt: Tree, ghost path: Path) returns (g: Id)
      requires Focused(nodes, root, zt, path) && zt.Node? && z == zt.id && |path| >= 2
      requires path[|path| - 2].other.Node?
      modifies this`nodes
      ensures Focused(nodes, root, Recoloured(zt, path[|path| - 1], path[|path| - 2]), path[..|path| - 2])
      ensures g == path[|path| - 2].id && nodes.Keys == old(nodes.Keys)
    {
      ghost var n := |path|;
      ghost var pf, gf, path1, path2 := path[n - 1], path[n - 2], path[..n - 1], path[..n - 2];
      ghost var side := gf.toLeft;
      Above(nodes, root, zt, path);
      FocusUp(nodes, root, zt, path);
      ghost var t1 := Close(pf, zt);
      Above(nodes, root, t1, path1);
      ParentLink(nodes, root, t1, path1);
      var p := nodes[z].parent;
      g := nodes[p].parent;
      var y := if p == nodes[g].left then nodes[g].right else nodes[g].left;
      Recolored(nodes, root, t1, path1, Black, nodes[p := nodes[p].(color := Black)]);
      Paint(p, Black);
      FocusUp(nodes, root, Blacken(t1), path1);
      assert path1[..n - 2] == path2;
      ghost var t2 := Close(gf, Blacken(t1));
      ChildOf(nodes, root, t2, path2, !side);
      RecoloredChild(nodes, root, t2, path2, !side, Black, nodes[y := nodes[y].(color := Black)]);
      Paint(y, Black);
      ghost var t3 := Tinted(t2, !side, Black);
      Above(nodes, root, t3, path2);
      Recolored(nodes, root, t3, path2, Red, nodes[g := nodes[g].(color := Red)]);
      Paint(g, Red);
      assert Redden(t3) == Recoloured(zt, pf, gf);
    }

    /** The parent is rotated first when the node is on its inner side; then the upper of the two is black. */
    method Straighten(z: Id, ghost zt: Tree, ghost path: Path) returns (z': Id)
      requires Focused(nodes, root, zt, path) && zt.Node? && z == zt.id && |path| >= 2
      modifies this`nodes, this`root
      ensures Focused(nodes, root, Blacken(Upper(zt, path[|path| - 1], path[|path| - 2].toLeft)), path[..|path| - 1])
      ensures z' == Child(Upper(zt, path[|path| - 1], path[|path| - 2].toLeft), path[|path| - 2].toLeft).id
      ensures z' in nodes && nodes[z'].parent == Upper(zt, path[|path| - 1], path[|path| - 2].toLeft).id && nodes.Keys == old(nodes.Keys)
    {
      ghost var n := |path|;
      ghost var pf, side, path1 := path[n - 1], path[n - 2].toLeft, path[..n - 1];
      ghost var t1 := Close(pf, zt);
      Above(nodes, root, zt, path);
      ParentLink(nodes, root, zt, path);
      FocusUp(nodes, root, zt, path);
      Above(nodes, root, t1, path1);
      ParentLink(nodes, root, t1, path1);
      var p := nodes[z].parent;
      z' := z;
      if p == nodes[nodes[p].parent].left {
        if z == nodes[p].right {
          z' := p;
          LeftRotate(z', t1, path1);
        }
      } else {
        if z == nodes[p].left {
          z' := p;
          RightRotate(z', t1, path1);
        }
      }
      ghost var upper := Upper(zt, pf, side);
      ChildOf(nodes, root, upper, path1, side);
      Above(nodes, root, upper, path1);
      Recolored(nodes, root, upper, path1, Black, nodes[upper.id := nodes[upper.id].(color := Black)]);
      Paint(nodes[z'].parent, Black);
      ChildOf(nodes, root, Blacken(upper), path1, side);
    }

    /** Black uncle: one or two rotations; the node ends up below a black one. */
    method BlackUncle(z: Id, ghost zt: Tree, ghost path: Path, ghost top: Tree, ghost path': Path) returns (z': Id)
      requires Focused(nodes, root, zt, path) && zt.Node? && z == zt.id && |path| >= 2
      requires top == Rotated(zt, path[|path| - 1], path[|path| - 2]) && top.Node?
      requires path' == path[..|path| - 2] + [Down(top, path[|path| - 2].toLeft)]
      modifies this`nodes, this`root
      ensures Focused(nodes, root, Child(top, path[|path| - 2].toLeft), path') && nodes.Keys == old(nodes.Keys)
      ensures Child(top, path[|path| - 2].toLeft).Node? && z' == Child(top, path[|path| - 2].toLeft).id
    {
      ghost var n := |path|;
      ghost var pf, gf, path1, path2 := path[n - 1], path[n - 2], path[..n - 1], path[..n - 2];
      ghost var upper := Upper(zt, pf, gf.toLeft);
      RotatedIsUpper(zt, pf, gf);
      z' := Straighten(z, zt, path);
      Above(nodes, root, Blacken(upper), path1);
      ParentLink(nodes, root, Blacken(upper), path1);
      FocusUp(nodes, root, Blacken(upper), path1);
      assert path1[..n - 2] == path2 && path1[n - 2] == gf;
      ghost var t2 := Close(gf, Blacken(upper));
      Above(nodes, root, t2, path2);
      var u := nodes[z'].parent;
      var g := nodes[u].parent;
      var toLeft := u == nodes[g].left;
      Recolored(nodes, root, t2, path2, Red, nodes[g := nodes[g].(color := Red)]);
      Paint(g, Red);
      if toLeft {
        RightRotate(g, Redden(t2), path2);
      } else {
        LeftRotate(g, Redden(t2), path2);
      }
      FocusDown(nodes, root, top, path2, gf.toLeft, path');
    }

    /** `insertFixup`, from a red node that may have a red parent. */
    method InsertFixup(z0: Id, ghost zt0: Tree, ghost path0: Path, ghost k0: int) returns (ghost whole: Tree)
      requires Focused(nodes, root, zt0, path0) && zt0.Node? && z0 == zt0.id
      requires RedBlack(zt0, k0) && ColorOf(zt0) == Red && Takes(path0, |path0|, k0)
      modifies this`nodes, this`root
      ensures Focused(nodes, root, whole, []) && Good(whole) && InOrder(whole) == Around(zt0, path0) && nodes.Keys == old(nodes.Keys)
    {
      var z := z0;
      ghost var zt, path, k := zt0, path0, k0;
      Above(nodes, root, zt, path);
      while nodes[nodes[z].parent].color == Red
        invariant Focused(nodes, root, zt, path) && zt.Node? && z == zt.id && nodes.Keys == old(nodes.Keys)
        invariant z in nodes && nodes[z].parent == ParentId(path, |path|) && ParentId(path, |path|) in nodes
        invariant nodes[nodes[z].parent].color == if |path| > 0 then path[|path| - 1].color else Black
        invariant RedBlack(zt, k) && ColorOf(zt) == Red && Takes(path, |path|, k) && Around(zt, path) == Around(zt0, path0)
        decreases |path|
      {
        z, zt, path, k := FixupOnce(z, zt, path, k);
        Above(nodes, root, zt, path);
      }
      whole := PaintRoot(zt, path, k);
    }

    /** One round of the loop. */
    method FixupOnce(z: Id, ghost zt: Tree, ghost path: Path, ghost k: int) returns (z': Id, ghost zt': Tree, ghost path': Path, ghost k': int)
      requires Focused(nodes, root, zt, path) && zt.Node? && z == zt.id
      requires RedBlack(zt, k) && ColorOf(zt) == Red && Takes(path, |path|, k) && |path| > 0 && path[|path| - 1].color == Red
      modifies this`nodes, this`root
      ensures Focused(nodes, root, zt', path') && zt'.Node? && z' == zt'.id && nodes.Keys == old(nodes.Keys) && |path'| < |path|
      ensures RedBlack(zt', k') && ColorOf(zt') == Red && Takes(path', |path'|, k') && Around(zt', path') == Around(zt, path)
    {
      Grandparent(path, k);
      ghost var n := |path|;
      ghost var pf, gf := path[n - 1], path[n - 2];
      var y := Uncle(z, zt, path);
      if nodes[y].color == Red {
        zt', path', k' := Recoloured(zt, pf, gf), path[..n - 2], k + 1;
        RecolourStep(zt, path, k, zt', path');
        z' := Recolor(z, zt, path);
      } else {
        ghost var top := Rotated(zt, pf, gf);
        RotatedIsUpper(zt, pf, gf);
        zt', path', k' := Child(top, gf.toLeft), path[..n - 2] + [Down(top, gf.toLeft)], k;
        RotateStep(zt, path, k, top, zt', path');
        z' := BlackUncle(z, zt, path, top, path');
      }
    }

    /** The other child of the grandparent. */
    method Uncle(z: Id, ghost zt: Tree, ghost path: Path) returns (y: Id)
      requires Focused(nodes, root, zt, path) && zt.Node? && z == zt.id && |path| >= 2
      ensures y in nodes && nodes[y].color == ColorOf(path[|path| - 2].other) && y == IdOf(path[|path| - 2].other)
    {
      ghost var n := |path|;
      ghost var pf, gf, path1, path2 := path[n - 1], path[n - 2], path[..n - 1], path[..n - 2];
      ghost var t1 := Close(pf, zt);
      Above(nodes, root, zt, path);
      FocusUp(nodes, root, zt, path);
      Above(nodes, root, t1, path1);
      ParentLink(nodes, root, t1, path1);
      FocusUp(nodes, root, t1, path1);
      ChildOf(nodes, root, Close(gf, t1), path1[..n - 2], !gf.toLeft);
      var p := nodes[z].parent;
      var g := nodes[p].parent;
      y := if p == nodes[g].left then nodes[g].right else nodes[g].left;
    }

    /** The root becomes black. */
    method PaintRoot(ghost zt: Tree, ghost path: Path, ghost k: int) returns (ghost whole: Tree)
      requires Focused(nodes, root, zt, path) && zt.Node?
      requires RedBlack(zt, k) && Takes(path, |path|, k) && (|path| > 0 && path[|path| - 1].color == Red ==> ColorOf(zt) == Black)
      modifies this`nodes
      ensures Focused(nodes, root, whole, []) && Good(whole) && InOrder(whole) == Around(zt, path) && nodes.Keys == old(nodes.Keys)
    {
      ghost var j := PlugGood(zt, path, |path|, k);
      PlugInOrder(zt, path, |path|);
      ghost var plugged := Plug(zt, path, |path|);
      assert path[..|path|] == path;
      FocusTop(nodes, root, zt, path, |path|, path);
      PlugIsNode(zt, path, |path|);
      BlackenGood(plugged, j);
      whole := Blacken(plugged);
      Above(nodes, root, plugged, []);
      Recolored(nodes, root, plugged, [], Black, nodes[root := nodes[root].(color := Black)]);
      Paint(root, Black);
    }

    /** `Insert`: the tree is as it should be, and the in-order sequence gains exactly the new entry where it belongs. */
    method Insert(e: Record)
      requires Valid()
      modifies this
      ensures Valid() && exists k: nat :: Inserted(old(InOrder(tree)), e, InOrder(tree), k)
      ensures size == old(size) + 1
    {
      ghost var before := InOrder(tree);
      var y, path, k := FindParent(e);
      ghost var b, a := Before(path, |path|), After(path, |path|);
      var z := LinkNode(e, y, path);
      size := size + 1;
      ghost var zt := Node(Red, Nil, e, Nil, z);
      ghost var whole := InsertFixup(z, zt, path, k);
      tree := whole;
      assert InOrder(zt) == [e];
      InsertedAt(b, a, e, before);
      InsertedSorted(before, e, InOrder(tree), |b|);
    }

    /** The descent: the node to hang the entry under, behind everything it does not precede. */
    method FindParent(e: Record) returns (y: Id, ghost path: Path, ghost k: int)
      requires Valid()
      ensures Focused(nodes, root, Nil, path) && y == ParentId(path, |path|) && Seated(Nil, path, k)
      ensures |path| > 0 ==> (path[|path| - 1].toLeft <==> Cmp(e, path[|path| - 1].entry) < 0)
      ensures Between(Before(path, |path|), e, After(path, |path|)) && Before(path, |path|) + After(path, |path|) == InOrder(tree)
    {
      y := SENTINEL;
      var x := root;
      ghost var xt := tree;
      path := [];
      k :| RedBlack(tree, k);
      AroundAll(tree);
      while x != SENTINEL
        invariant Focused(nodes, root, xt, path) && x == IdOf(xt) && y == ParentId(path, |path|)
        invariant OnTheWay(e, xt, path, k, InOrder(tree))
        decreases xt
      {
        Above(nodes, root, xt, path);
        var toLeft := Cmp(e, nodes[x].entry) < 0;
        ghost var path' := path + [Down(xt, toLeft)];
        FocusDown(nodes, root, xt, path, toLeft, path');
        k := FurtherDown(e, xt, path, k, InOrder(tree), toLeft, path');
        y := x;
        x := if toLeft then nodes[x].left else nodes[x].right;
        xt, path := Child(xt, toLeft), path';
      }
      Above(nodes, root, xt, path);
      Arrived(e, path, k, InOrder(tree));
    }

    /** A new red node under this parent. */
    method LinkNode(e: Record, y: Id, ghost path: Path) returns (z: Id)
      requires Focused(nodes, root, Nil, path) && y == ParentId(path, |path|) && next > SENTINEL && forall i :: i in nodes ==> i < next
      requires |path| > 0 ==> (path[|path| - 1].toLeft <==> Cmp(e, path[|path| - 1].entry) < 0)
      modifies this`nodes, this`root, this`next
      ensures Focused(nodes, root, Node(Red, Nil, e, Nil, z), path) && forall i :: i in nodes ==> i < next
    {
      ghost var a, r := nodes, root;
      PathLinkedIds(a, path, |path|, SENTINEL);
      if |path| > 0 {
        ParentLink(a, r, Nil, path);
      }
      z := next;
      next := next + 1;
      nodes := nodes[z := Cell(SENTINEL, SENTINEL, y, Red, e)];
      if y == SENTINEL {
        root := z;
      } else if Cmp(e, nodes[y].entry) < 0 {
        nodes := nodes[y := nodes[y].(left := z)];
      } else {
        nodes := nodes[y := nodes[y].(right := z)];
      }
      Replace(a, r, SENTINEL, path, nodes, root, Node(Red, Nil, e, Nil, z));
    }

    // ---------------------------------------------------------------- deletion

    /** `transplant`: `v` hangs where `u` did, the sentinel included, and knows its parent. */
    method Transplant(u: Id, v: Id, ghost path: Path, ghost vt: Tree, ghost parent: Id)
      requires Hangs(nodes, root, u, path) && v == IdOf(vt)
      requires Linked(nodes, vt, parent) && Separate(vt) && Ids(vt) !! PathIds(path, |path|)
      modifies this`nodes, this`root
      ensures Focused(nodes, root, vt, path) && nodes.Keys == old(nodes.Keys)
      ensures v in nodes && nodes[v] == old(nodes)[v].(parent := ParentId(path, |path|))
      ensures forall i :: i in nodes && i != v && (|path| == 0 || i != ParentId(path, |path|)) ==> nodes[i] == old(nodes)[i]
    {
      ghost var a, r := nodes, root;
      LinkedIds(a, vt, parent);
      PathLinkedIds(a, path, |path|, u);
      if |path| > 0 {
        SocketLink(a, r, u, path);
      }
      var p := nodes[u].parent;
      if p == SENTINEL {
        root := v;
      } else if u == nodes[p].left {
        nodes := nodes[p := nodes[p].(left := v)];
      } else {
        nodes := nodes[p := nodes[p].(right := v)];
      }
      nodes := nodes[v := nodes[v].(parent := nodes[u].parent)];
      Transplanted(a, r, u, path, vt, parent, nodes, root);
    }

    /** The node in focus knows its parent; of the sentinel that is not to be taken for granted. */
    ghost predicate Stands(x: Id, xt: Tree, path: Path)
      reads this
    {
      Focused(nodes, root, xt, path) && x == IdOf(xt) && x in nodes && nodes[x].parent == ParentId(path, |path|)
    }

    /** The sibling, on the side that is not the node's. */
    method Sibling(x: Id, ghost xt: Tree, ghost path: Path) returns (p: Id, side: bool, w: Id)
      requires Stands(x, xt, path) && |path| > 0 && path[|path| - 1].other.Node?
      ensures p == path[|path| - 1].id && side == path[|path| - 1].toLeft && w == path[|path| - 1].other.id && w in nodes && p in nodes
      ensures nodes[w].color == path[|path| - 1].other.color
    {
      ParentLink(nodes, root, xt, path);
      p := nodes[x].parent;
      side := x == nodes[p].left;
      w := if side then nodes[p].right else nodes[p].left;
    }

    method RotateToward(x: Id, side: bool, ghost t: Tree, ghost path: Path)
      requires Focused(nodes, root, t, path) && t.Node? && Child(t, !side).Node? && x == t.id
      modifies this`nodes, this`root
      ensures Focused(nodes, root, Toward(t, side), path)
      ensures nodes.Keys == old(nodes.Keys) && nodes[SENTINEL] == old(nodes[SENTINEL])
    {
      if side {
        LeftRotate(x, t, path);
      } else {
        RightRotate(x, t, path);
      }
    }

    /** The child in focus changes its colour. */
    method PaintChild(i: Id, c: Color, side: bool, ghost t: Tree, ghost path: Path)
      requires Focused(nodes, root, t, path) && t.Node? && Child(t, side).Node? && i == Child(t, side).id
      modifies this`nodes
      ensures Focused(nodes, root, Tinted(t, side, c), path) && nodes.Keys == old(nodes.Keys) && nodes[SENTINEL] == old(nodes[SENTINEL])
    {
      ChildOf(nodes, root, t, path, side);
      RecoloredChild(nodes, root, t, path, side, c, nodes[i := nodes[i].(color := c)]);
      Paint(i, c);
    }

    method PaintTop(i: Id, c: Color, ghost t: Tree, ghost path: Path)
      requires Focused(nodes, root, t, path) && t.Node? && i == t.id
      modifies this`nodes
      ensures Focused(nodes, root, t.(color := c), path) && nodes.Keys == old(nodes.Keys) && nodes[SENTINEL] == old(nodes[SENTINEL])
    {
      Above(nodes, root, t, path);
      Recolored(nodes, root, t, path, c, nodes[i := nodes[i].(color := c)]);
      Paint(i, c);
    }

    /** Red sibling: black, the parent red, and a rotation; the node has a black sibling then. */
    method RaiseSibling(x: Id, ghost xt: Tree, ghost path: Path, ghost path': Path)
      requires Stands(x, xt, path) && |path| > 0 && path[|path| - 1].other.Node?
      requires path' == path[..|path| - 1] + SiblingUp(path[|path| - 1])
      modifies this`nodes, this`root
      ensures Stands(x, xt, path') && nodes.Keys == old(nodes.Keys)
    {
      ghost var f, above := path[|path| - 1], path[..|path| - 1];
      var p, side, w := Sibling(x, xt, path);
      FocusUp(nodes, root, xt, path);
      ghost var t := Close(f, xt);
      PaintChild(w, Black, !side, t, above);
      PaintTop(p, Red, Tinted(t, !side, Black), above);
      RotateToward(p, side, Redden(Tinted(t, !side, Black)), above);
      SiblingUpRotates(f, xt);
      ghost var s0, s1 := SiblingUp(f)[0], SiblingUp(f)[1];
      FocusClose(nodes, root, Close(s1, xt), s0, above, above + [s0]);
      FocusClose(nodes, root, xt, s1, above + [s0], path');
      Above(nodes, root, xt, path');
    }

    /** Black sibling with black children: it becomes red. */
    method PaintSibling(x: Id, ghost xt: Tree, ghost path: Path) returns (p: Id)
      requires Stands(x, xt, path) && |path| > 0 && path[|path| - 1].other.Node?
      modifies this`nodes
      ensures Stands(p, SiblingRed(path[|path| - 1], xt), path[..|path| - 1]) && nodes.Keys == old(nodes.Keys)
    {
      ghost var f, above := path[|path| - 1], path[..|path| - 1];
      var side, w;
      p, side, w := Sibling(x, xt, path);
      FocusUp(nodes, root, xt, path);
      PaintChild(w, Red, !side, Close(f, xt), above);
      Above(nodes, root, SiblingRed(f, xt), above);
    }

    /** Black sibling whose red child is on the near side: it is rotated to the far side. */
    method TurnSibling(x: Id, ghost xt: Tree, ghost path: Path, ghost path': Path)
      requires Stands(x, xt, path) && |path| > 0
      requires var f := path[|path| - 1]; f.other.Node? && (ColorOf(Far(f.other, f.toLeft)) == Black ==> Child(f.other, f.toLeft).Node?)
      requires path' == path[..|path| - 1] + [path[|path| - 1].(other := Turned(path[|path| - 1].other, path[|path| - 1].toLeft))]
      modifies this`nodes, this`root
      ensures Stands(x, xt, path') && nodes.Keys == old(nodes.Keys)
    {
      ghost var f, above := path[|path| - 1], path[..|path| - 1];
      var p, side, w := Sibling(x, xt, path);
      FocusUp(nodes, root, xt, path);
      ghost var t := Close(f, xt);
      ghost var wpath := above + [Down(t, !side)];
      FocusDown(nodes, root, t, above, !side, wpath);
      ChildOf(nodes, root, f.other, wpath, !side);
      ChildOf(nodes, root, f.other, wpath, side);
      var far := if side then nodes[w].right else nodes[w].left;
      if nodes[far].color == Black {
        var near := if side then nodes[w].left else nodes[w].right;
        PaintChild(near, Black, side, f.other, wpath);
        PaintTop(w, Red, Tinted(f.other, side, Black), wpath);
        RotateToward(w, !side, Redden(Tinted(f.other, side, Black)), wpath);
      }
      ghost var turned := Turned(f.other, side);
      FocusUp(nodes, root, turned, wpath);
      assert wpath[..|wpath| - 1] == above;
      ghost var f' := f.(other := turned);
      assert Close(Down(t, !side), turned) == Close(f', xt);
      FocusClose(nodes, root, xt, f', above, path');
      Above(nodes, root, xt, path');
    }

    /** Black sibling whose far child is red: colours, and the rotation that ends the loop. */
    method Lend(x: Id, ghost xt: Tree, ghost path: Path, ghost result: Tree)
      requires Stands(x, xt, path) && |path| > 0
      requires path[|path| - 1].other.Node? && Far(path[|path| - 1].other, path[|path| - 1].toLeft).Node?
      requires result == Lent(path[|path| - 1], xt)
      modifies this`nodes, this`root
      ensures Focused(nodes, root, result, path[..|path| - 1]) && nodes.Keys == old(nodes.Keys)
    {
      ghost var f, above := path[|path| - 1], path[..|path| - 1];
      var p, side, w := Sibling(x, xt, path);
      FocusUp(nodes, root, xt, path);
      ghost var t := Close(f, xt);
      Above(nodes, root, t, above);
      PaintChild(w, nodes[p].color, !side, t, above);
      ghost var t1 := Tinted(t, !side, f.color);
      PaintTop(p, Black, t1, above);
      ghost var t2 := Blacken(t1);
      ghost var wpath := above + [Down(t2, !side)];
      FocusDown(nodes, root, t2, above, !side, wpath);
      ghost var wt := Child(t2, !side);
      ChildOf(nodes, root, wt, wpath, !side);
      var far := if side then nodes[w].right else nodes[w].left;
      PaintChild(far, Black, !side, wt, wpath);
      FocusUp(nodes, root, Tinted(wt, !side, Black), wpath);
      assert wpath[..|wpath| - 1] == above;
      RotateToward(p, side, Close(Down(t2, !side), Tinted(wt, !side, Black)), above);
    }

    /** One round of `deleteFixup`. */
    method DeleteOnce(x: Id, ghost xt: Tree, ghost path: Path, ghost k: int) returns (x': Id, ghost xt': Tree, ghost path': Path, ghost k': int)
      requires Stands(x, xt, path) && Short(xt, path, k) && |path| > 0 && ColorOf(xt) == Black
      modifies this`nodes, this`root
      ensures Stands(x', xt', path') && Short(xt', path', k') && nodes.Keys == old(nodes.Keys) && Around(xt', path') == Around(xt, path)
      ensures (if ColorOf(xt') == Black then |path'| else 0) < |path|
    {
      ghost var n := |path| - 1;
      ShortParent(xt, path, k);
      var p, side, w := Sibling(x, xt, path);
      ghost var here := path;
      if nodes[w].color == Red {
        here := path[..n] + SiblingUp(path[n]);
        SiblingUpShort(xt, path, k, here);
        SiblingUpInOrder(xt, path, path[n], path[..n], here);
        RaiseSibling(x, xt, path, here);
      }
      x', xt', path', k' := DeleteBlackSibling(x, xt, here, k);
    }

    /** The rest of the round, once the sibling is black. */
    method DeleteBlackSibling(x: Id, ghost xt: Tree, ghost path: Path, ghost k: int)
      returns (x': Id, ghost xt': Tree, ghost path': Path, ghost k': int)
      requires Stands(x, xt, path) && Short(xt, path, k) && |path| > 0 && ColorOf(xt) == Black && ColorOf(path[|path| - 1].other) == Black
      modifies this`nodes, this`root
      ensures Stands(x', xt', path') && Short(xt', path', k') && nodes.Keys == old(nodes.Keys) && Around(xt', path') == Around(xt, path)
      ensures path' == [] || (path' == path[..|path| - 1] && (path[|path| - 1].color == Red ==> ColorOf(xt') == Red))
    {
      ghost var n := |path| - 1;
      ghost var f, above := path[n], path[..n];
      ShortParent(xt, path, k);
      var bothBlack := BlackNephews(x, xt, path);
      if bothBlack {
        SiblingRedShort(xt, f, above, k);
        xt', path', k' := SiblingRed(f, xt), above, if f.color == Black then k + 1 else k;
        OneUp(xt, path, xt');
        x' := PaintSibling(x, xt, path);
      } else {
        k' := LendShort(xt, path, k);
        TurnAndLend(x, xt, path);
        xt', path' := Plug(SiblingLends(f, xt), above, n), [];
        Above(nodes, root, xt', []);
        x' := root;
      }
    }

    /** The rotations that end the loop. */
    method TurnAndLend(x: Id, ghost xt: Tree, ghost path: Path)
      requires Stands(x, xt, path) && |path| > 0
      requires var f := path[|path| - 1]; f.other.Node? && CanTurn(f.other, f.toLeft) && SiblingLends(f, xt) == Lent(f.(other := Turned(f.other, f.toLeft)), xt)
      modifies this`nodes, this`root
      ensures Focused(nodes, root, Plug(SiblingLends(path[|path| - 1], xt), path[..|path| - 1], |path| - 1), []) && nodes.Keys == old(nodes.Keys)
    {
      ghost var n := |path| - 1;
      ghost var f, above := path[n], path[..n];
      ghost var turned := above + [f.(other := Turned(f.other, f.toLeft))];
      TurnSibling(x, xt, path, turned);
      assert turned[..|turned| - 1] == above;
      Lend(x, xt, turned, SiblingLends(f, xt));
      assert above[..n] == above;
      FocusTop(nodes, root, SiblingLends(f, xt), above, n, above);
    }

    /** Whether the sibling's children are both black. */
    method BlackNephews(x: Id, ghost xt: Tree, ghost path: Path) returns (both: bool)
      requires Stands(x, xt, path) && |path| > 0 && path[|path| - 1].other.Node?
      ensures both <==> ColorOf(path[|path| - 1].other.left) == Black && ColorOf(path[|path| - 1].other.right) == Black
    {
      ghost var f, above := path[|path| - 1], path[..|path| - 1];
      var p, side, w := Sibling(x, xt, path);
      FocusUp(nodes, root, xt, path);
      ghost var t := Close(f, xt);
      ghost var wpath := above + [Down(t, !side)];
      FocusDown(nodes, root, t, above, !side, wpath);
      ChildOf(nodes, root, f.other, wpath, true);
      ChildOf(nodes, root, f.other, wpath, false);
      both := nodes[nodes[w].left].color == Black && nodes[nodes[w].right].color == Black;
    }

    /** `deleteFixup`. */
    method DeleteFixup(x0: Id, ghost xt0: Tree, ghost path0: Path, ghost k0: int) returns (ghost whole: Tree)
      requires Stands(x0, xt0, path0) && Short(xt0, path0, k0)
      modifies this`nodes, this`root
      ensures Focused(nodes, root, whole, []) && Good(whole) && InOrder(whole) == Around(xt0, path0) && nodes.Keys == old(nodes.Keys)
    {
      var x := x0;
      ghost var xt, path, k := xt0, path0, k0;
      AtRoot(nodes, root, xt, path);
      while x != root && nodes[x].color == Black
        invariant Stands(x, xt, path) && Short(xt, path, k) && nodes.Keys == old(nodes.Keys) && Around(xt, path) == Around(xt0, path0)
        invariant (x == root <==> |path| == 0) && nodes[x].color == ColorOf(xt)
        decreases if ColorOf(xt) == Black then |path| else 0
      {
        x, xt, path, k := DeleteOnce(x, xt, path, k);
        AtRoot(nodes, root, xt, path);
      }
      whole := PaintEnd(x, xt, path, k);
    }

    /** The last node looked at becomes black, also when it is the sentinel. */
    method PaintEnd(x: Id, ghost xt: Tree, ghost path: Path, ghost k: int) returns (ghost whole: Tree)
      requires Stands(x, xt, path) && Short(xt, path, k) && (|path| == 0 || ColorOf(xt) == Red)
      modifies this`nodes
      ensures Focused(nodes, root, whole, []) && Good(whole) && InOrder(whole) == Around(xt, path) && nodes.Keys == old(nodes.Keys)
    {
      BlackenShort(xt, path, k);
      ghost var a := nodes;
      Paint(x, Black);
      PaintedEnd(a, root, xt, path, nodes);
      ghost var j := PlugGood(Blacken(xt), path, |path|, if ColorOf(xt) == Red then k + 1 else k);
      whole := Plug(Blacken(xt), path, |path|);
      PlugInOrder(Blacken(xt), path, |path|);
      assert path[..|path|] == path;
      FocusTop(nodes, root, Blacken(xt), path, |path|, path);
    }

    /** `minimum`: down the left links, each one more ancestor. */
    method Minimum(x0: Id, ghost t0: Tree, ghost path0: Path, ghost k0: int) returns (x: Id, ghost t: Tree, ghost path: Path, ghost k: int)
      requires Focused(nodes, root, t0, path0) && t0.Node? && x0 == t0.id && Seated(t0, path0, k0)
      ensures Focused(nodes, root, t, path) && t.Node? && t.left.Nil? && x == t.id && Seated(t, path, k)
      ensures Deeper(t0, path0, t, path)
    {
      x, t, path, k := x0, t0, path0, k0;
      Above(nodes, root, t, path);
      while nodes[x].left != SENTINEL
        invariant Focused(nodes, root, t, path) && t.Node? && x == t.id && x in nodes && Seated(t, path, k)
        invariant Kid(nodes[x], true) == IdOf(t.left) && Deeper(t0, path0, t, path)
        decreases t
      {
        ghost var path' := path + [Down(t, true)];
        ChildOf(nodes, root, t, path, true);
        FocusDown(nodes, root, t, path, true, path');
        DownSeated(t, path, k, true, path');
        DeeperStill(t0, path0, t, path, path');
        x := nodes[x].left;
        k := if t.color == Black then k - 1 else k;
        t, path := t.left, path';
        ChildOf(nodes, root, t, path, true);
      }
      ChildOf(nodes, root, t, path, true);
    }

    /**
     The successor `y` of `z` leaves its place to its right child, which then knows its parent, and gets the
     right child of `z`; there is less to do when it is that child itself.
     */
    method TakeOut(z: Id, y: Id, x: Id, ghost zt: Tree, ghost path: Path, ghost yt: Tree, ghost deep: Path) returns (ghost up: Id)
      requires Focused(nodes, root, yt, deep) && Successor(zt, path, yt, deep) && z == zt.id && y == yt.id && x == IdOf(yt.right)
      modifies this`nodes, this`root
      ensures Hangs(nodes, root, z, path) && Beside(nodes, zt, path, yt, Rest(path, yt, deep), up) && nodes.Keys == old(nodes.Keys)
      ensures x in nodes && nodes[x].parent == if |deep| == |path| + 1 then y else ParentId(deep, |deep|)
    {
      Above(nodes, root, yt, deep);
      ChildOf(nodes, root, yt, deep, false);
      ParentIsZ(nodes, root, zt, path, yt, deep);
      if nodes[y].parent == z {
        up := z;
        ghost var a := nodes;
        nodes := nodes[x := nodes[x].(parent := y)];
        Adopted(a, root, zt, path, yt, nodes);
      } else {
        up := TakeFromBelow(z, y, x, zt, path, yt, deep);
      }
    }

    /** The successor is further down: it leaves its place to its right child and gets the right child of `z`. */
    method TakeFromBelow(z: Id, y: Id, x: Id, ghost zt: Tree, ghost path: Path, ghost yt: Tree, ghost deep: Path) returns (ghost up: Id)
      requires Focused(nodes, root, yt, deep) && Successor(zt, path, yt, deep) && z == zt.id && y == yt.id && x == IdOf(yt.right)
      requires |deep| > |path| + 1
      modifies this`nodes, this`root
      ensures Hangs(nodes, root, z, path) && Beside(nodes, zt, path, yt, Rest(path, yt, deep), up) && nodes.Keys == old(nodes.Keys)
      ensures x in nodes && nodes[x].parent == ParentId(deep, |deep|)
    {
      Above(nodes, root, yt, deep);
      ChildOf(nodes, root, yt, deep, true);
      FocusHangs(nodes, root, yt, deep);
      LinkedIds(nodes, yt, ParentId(deep, |deep|));
      PathLinkedIds(nodes, deep, |deep|, y);
      up := nodes[y].parent;
      Transplant(y, x, deep, yt.right, y);
      ghost var zt1 := RestInFocus(nodes, root, zt, path, yt, deep);
      Above(nodes, root, zt1, path);
      ChildOf(nodes, root, zt1, path, false);
      ghost var a := nodes;
      nodes := nodes[y := nodes[y].(right := nodes[z].right)];
      nodes := nodes[nodes[y].right := nodes[nodes[y].right].(parent := y)];
      Hooked(a, root, zt1, path, yt, up, nodes);
      RestNotRoot(path, yt, deep);
    }

    /** The successor takes the node's place, left subtree and colour. */
    method PutInPlace(z: Id, y: Id, ghost zt: Tree, ghost path: Path, ghost yt: Tree, ghost r: Tree, ghost up: Id)
      requires Hangs(nodes, root, z, path) && Beside(nodes, zt, path, yt, r, up) && z == zt.id && y == yt.id && zt.left.Node?
      modifies this`nodes, this`root
      ensures Focused(nodes, root, Node(zt.color, zt.left, yt.entry, r, y), path)
      ensures nodes.Keys == old(nodes.Keys) && forall i :: i in nodes && Aside(i, zt, path, yt) ==> nodes[i].parent == old(nodes)[i].parent
    {
      LinkedIds(nodes, zt.left, z);
      LinkedIds(nodes, Right(yt, r), up);
      Transplant(z, y, path, Right(yt, r), up);
      StillBeside(old(nodes), nodes, zt, path, yt, r);
      ghost var a := nodes;
      nodes := nodes[y := nodes[y].(left := nodes[z].left)];
      nodes := nodes[nodes[y].left := nodes[nodes[y].left].(parent := y)];
      nodes := nodes[y := nodes[y].(color := nodes[z].color)];
      InPlace(a, root, zt, path, yt, r, nodes);
    }

    /** Two children: the successor takes the node's place; what is left to look at is the successor's own. */
    method TakeSuccessor(z: Id, ghost zt: Tree, ghost path: Path, ghost k: int)
      returns (x: Id, color: Color, ghost yt: Tree, ghost xpath: Path, ghost j: int)
      requires Focused(nodes, root, zt, path) && zt.Node? && zt.left.Node? && zt.right.Node? && z == zt.id && Seated(zt, path, k)
      modifies this`nodes, this`root
      ensures yt.Node? && yt.left.Nil? && color == yt.color && Seated(yt, xpath, j) && Stands(x, yt.right, xpath) && nodes.Keys == old(nodes.Keys)
      ensures Around(yt.right, xpath) == Without(zt, path)
    {
      ghost var down := path + [Down(zt, false)];
      FocusDown(nodes, root, zt, path, false, down);
      DownSeated(zt, path, k, false, down);
      ChildOf(nodes, root, zt, path, false);
      var y;
      ghost var deep;
      y, yt, deep, j := Minimum(nodes[z].right, zt.right, down, if zt.color == Black then k - 1 else k);
      Above(nodes, root, yt, deep);
      color := nodes[y].color;
      x := nodes[y].right;
      xpath := deep[|path| := deep[|path|].(entry := yt.entry, id := yt.id)];
      SuccessorSeated(zt, path, yt, deep, xpath, j);
      SuccessorAround(zt, path, yt, deep, xpath);
      MoveSuccessor(z, y, x, zt, path, yt, deep, xpath);
    }

    /** The successor leaves its place and takes the node's. */
    method MoveSuccessor(z: Id, y: Id, x: Id, ghost zt: Tree, ghost path: Path, ghost yt: Tree, ghost deep: Path, ghost xpath: Path)
      requires Focused(nodes, root, yt, deep) && Successor(zt, path, yt, deep) && z == zt.id && y == yt.id && x == IdOf(yt.right)
      requires |path| < |deep| && xpath == deep[|path| := deep[|path|].(entry := yt.entry, id := yt.id)]
      modifies this`nodes, this`root
      ensures Stands(x, yt.right, xpath) && nodes.Keys == old(nodes.Keys)
    {
      ghost var up := TakeOut(z, y, x, zt, path, yt, deep);
      NotMoved(nodes, zt, path, yt, Rest(path, yt, deep), up);
      PutInPlace(z, y, zt, path, yt, Rest(path, yt, deep), up);
      DescendAgain(nodes, root, zt, path, yt, deep, xpath);
      Above(nodes, root, yt.right, xpath);
    }

    /** The three cases of `Delete`, by the children of the node, and the fix-up when a black node has left its place. */
    method Remove(z: Id, ghost zt: Tree, ghost path: Path, ghost k: int) returns (ghost whole: Tree)
      requires Focused(nodes, root, zt, path) && zt.Node? && z == zt.id && Seated(zt, path, k)
      modifies this`nodes, this`root
      ensures Focused(nodes, root, whole, []) && Good(whole) && InOrder(whole) == Without(zt, path) && nodes.Keys == old(nodes.Keys)
    {
      ChildOf(nodes, root, zt, path, true);
      ChildOf(nodes, root, zt, path, false);
      FocusHangs(nodes, root, zt, path);
      OneChild(zt, path);
      var color := nodes[z].color;
      var x;
      ghost var yt, xt, xpath, j := zt, zt, path, k;
      if nodes[z].left == SENTINEL {
        x, xt := nodes[z].right, zt.right;
        Transplant(z, x, path, zt.right, z);
      } else if nodes[z].right == SENTINEL {
        x, xt := nodes[z].left, zt.left;
        Transplant(z, x, path, zt.left, z);
      } else {
        x, color, yt, xpath, j := TakeSuccessor(z, zt, path, k);
        xt := yt.right;
      }
      UnlinkedShort(yt, xt, xpath, j);
      if color == Black {
        whole := DeleteFixup(x, xt, xpath, j - 1);
      } else {
        whole := Plug(xt, xpath, |xpath|);
        assert xpath[..|xpath|] == xpath;
        FocusTop(nodes, root, xt, xpath, |xpath|, xpath);
      }
    }

    /** `Delete` of a node of the tree: the tree is as it should be, and exactly the node's entry is gone; nothing for the sentinel. */
    method Delete(z: Id)
      requires Valid() && (z == SENTINEL || z in Ids(tree))
      modifies this
      ensures Valid() && size == old(size)
      ensures z == SENTINEL ==> nodes == old(nodes) && tree == old(tree)
      ensures z != SENTINEL ==>
                z in old(nodes) && exists k: nat :: OneOut(old(InOrder(tree)), k, old(nodes)[z].entry, InOrder(tree))
    {
      LinkedIds(nodes, tree, SENTINEL);
      if z == SENTINEL {
        return;
      }
      ghost var before := InOrder(tree);
      ghost var zt, path := FocusOn(nodes, root, tree, z);
      Above(nodes, root, zt, path);
      ghost var j :| RedBlack(tree, j);
      ghost var k := PlugSeated(zt, path, |path|, j);
      WithoutNode(zt, path, tree);
      ghost var whole := Remove(z, zt, path, k);
      OneOutSorted(before, |Before(path, |path|)| + |InOrder(zt.left)|, zt.entry, InOrder(whole));
      tree := whole;
    }
  }

  /** All entries around a node, and those of its subtrees. */
  ghost function Without(zt: Tree, path: Path): (s: seq<Record>)
    requires zt.Node?
  {
    Before(path, |path|) + (InOrder(zt.left) + InOrder(zt.right)) + After(path, |path|)
  }

  lemma OneChild(zt: Tree, path: Path)
    requires zt.Node?
    ensures zt.left.Nil? ==> Around(zt.right, path) == Without(zt, path)
    ensures zt.right.Nil? ==> Around(zt.left, path) == Without(zt, path)
  {
    OnlyOne(InOrder(zt.left), InOrder(zt.right));
  }

  /** A node with one child at most leaves its place to it: one black node short, or as good as before. */
  lemma UnlinkedShort(y: Tree, x: Tree, path: Path, k: int)
    requires y.Node? && Seated(y, path, k) && ((y.left.Nil? && x == y.right) || (y.right.Nil? && x == y.left))
    ensures y.color == Black ==> Short(x, path, k - 1)
    ensures y.color == Red ==> Good(Plug(x, path, |path|)) && InOrder(Plug(x, path, |path|)) == Around(x, path)
  {
    if y.color == Black {
      BlackenGood(x, k - 1);
    } else {
      var j := PlugGood(x, path, |path|, k);
      PlugInOrder(x, path, |path|);
    }
  }

  /** A node of the tree with its path. */
  lemma FocusOn(a: Arena, root: Id, tree: Tree, z: Id) returns (zt: Tree, path: Path)
    requires Focused(a, root, tree, []) && z in Ids(tree)
    ensures zt.Node? && zt.id == z && Focused(a, root, zt, path) && Plug(zt, path, |path|) == tree
  {
    zt, path := Locate(tree, [], z);
    PlugIsFrom(zt, path, |path|);
    assert path[..|path|] == path && path[..0] == [];
    FocusRange(a, root, zt, path, |path|, 0, path, []);
  }

  lemma OneOutSorted(s: seq<Record>, k: nat, e: Record, s': seq<Record>)
    requires Sorted(s) && OneOut(s, k, e, s')
    ensures Sorted(s')
  {
    forall i, j | 0 <= i < j < |s'| ensures Le(s'[i], s'[j]) {
      assert s'[i] == s[if i < k then i else i + 1] && s'[j] == s[if j < k then j else j + 1];
    }
  }

  lemma SuccessorSeated(zt: Tree, path: Path, yt: Tree, deep: Path, deep': Path, k: int)
    requires Successor(zt, path, yt, deep) && Seated(yt, deep, k)
    requires |path| < |deep| && deep' == deep[|path| := deep[|path|].(entry := yt.entry, id := yt.id)]
    ensures Seated(yt, deep', k)
  {
    EntrySeated(yt, deep, deep', |path|, k);
  }

  lemma SuccessorAround(zt: Tree, path: Path, yt: Tree, deep: Path, deep': Path)
    requires Successor(zt, path, yt, deep)
    requires |path| < |deep| && deep' == deep[|path| := deep[|path|].(entry := yt.entry, id := yt.id)]
    ensures Around(yt.right, deep') == Without(zt, path)
  {
    var m, down := |path|, path + [Down(zt, false)];
    DeepSame(zt, path, down, deep);
    EntryInOrder(deep, deep', m, |deep|);
    NoLeft(yt);
    SplicedOut(Before(path, m), InOrder(zt.left), yt.entry, InOrder(yt), InOrder(yt.right), After(deep, |deep|),
               InOrder(zt.right), After(path, m), Before(deep', |deep'|));
  }

  lemma NotMoved(a: Arena, zt: Tree, path: Path, yt: Tree, r: Tree, up: Id)
    requires Beside(a, zt, path, yt, r, up) && zt.left.Node?
    ensures Aside(SENTINEL, zt, path, yt)
  {
  }

  lemma NewPathStarts(zt: Tree, path: Path, yt: Tree, deep: Path, deep': Path)
    requires Successor(zt, path, yt, deep) && |path| < |deep| && deep' == deep[|path| := deep[|path|].(entry := yt.entry, id := yt.id)]
    ensures deep'[|path|] == Down(zt, false).(entry := yt.entry, id := yt.id)
    ensures deep'[..|path| + 1] == path + [deep'[|path|]] && deep'[..|deep|] == deep'
  {
    var down := path + [Down(zt, false)];
    assert forall i :: 0 <= i < |down| ==> deep[i] == deep[..|down|][i] == down[i];
  }

  lemma ClosedOver(zt: Tree, entry: Record, id: Id, f: Frame, r: Tree)
    requires zt.Node? && f == Down(zt, false).(entry := entry, id := id)
    ensures Close(f, r) == Node(zt.color, zt.left, entry, r, id)
  {
  }

  /** From the successor in its new place back down to where it was. */
  lemma DescendAgain(a: Arena, root: Id, zt: Tree, path: Path, yt: Tree, deep: Path, deep': Path)
    requires Successor(zt, path, yt, deep) && Focused(a, root, Node(zt.color, zt.left, yt.entry, Rest(path, yt, deep), yt.id), path)
    requires |path| < |deep| && deep' == deep[|path| := deep[|path|].(entry := yt.entry, id := yt.id)]
    ensures Focused(a, root, yt.right, deep')
  {
    var m, n := |path|, |deep|;
    var r, f := Rest(path, yt, deep), deep'[m];
    NewPathStarts(zt, path, yt, deep, deep');
    ClosedOver(zt, yt.entry, yt.id, f, r);
    PlugFromSame(yt.right, deep, deep', n, m + 1);
    FocusFurther(a, root, yt.right, deep', r, f, path);
  }

  lemma FocusFurther(a: Arena, root: Id, t: Tree, deep: Path, r: Tree, f: Frame, path: Path)
    requires |path| < |deep| && deep[..|path| + 1] == path + [f] && r == PlugFrom(t, deep, |deep|, |path| + 1)
    requires Focused(a, root, Close(f, r), path)
    ensures Focused(a, root, t, deep)
  {
    var near := path + [f];
    FocusClose(a, root, r, f, path, near);
    assert deep[..|deep|] == deep;
    FocusRange(a, root, t, deep, |deep|, |path| + 1, deep, near);
  }

  /** None of the nodes whose parent changes when the successor takes its place. */
  ghost predicate Aside(i: Id, zt: Tree, path: Path, yt: Tree)
    requires zt.Node? && yt.Node?
  {
    i != yt.id && i != IdOf(zt.left)
  }

  lemma StillBeside(a: Arena, a': Arena, zt: Tree, path: Path, yt: Tree, r: Tree)
    requires zt.Node? && yt.Node? && zt.id in a && a[zt.id].left == IdOf(zt.left) && a[zt.id].color == zt.color
    requires Linked(a, zt.left, zt.id) && Ids(zt.left) !! PathIds(path, |path|) && Ids(Right(yt, r)) !! Ids(zt.left)
    requires zt.id !in Ids(Right(yt, r)) && zt.id !in PathIds(path, |path|) && a'.Keys == a.Keys
    requires forall i :: i in a && i != yt.id && (|path| == 0 || i != ParentId(path, |path|)) ==> a'[i] == a[i]
    ensures zt.id in a' && a'[zt.id] == a[zt.id] && Linked(a', zt.left, zt.id)
  {
    assert yt.id in Ids(Right(yt, r));
    if |path| > 0 {
      assert ParentId(path, |path|) in PathIds(path, |path|);
    }
    LinkedSame(a, a', zt.left, zt.id);
  }

  lemma InPlace(a: Arena, root: Id, zt: Tree, path: Path, yt: Tree, r: Tree, a': Arena)
    requires zt.Node? && zt.left.Node? && yt.Node? && Focused(a, root, Right(yt, r), path)
    requires zt.id in a && a[zt.id].left == zt.left.id && a[zt.id].color == zt.color && Linked(a, zt.left, zt.id)
    requires Separate(zt.left) && Ids(zt.left) !! PathIds(path, |path|) && Ids(Right(yt, r)) !! Ids(zt.left)
    requires yt.id in a && zt.left.id in a && yt.id != zt.id && zt.id !in Ids(zt.left)
    requires a' == a[yt.id := a[yt.id].(left := zt.left.id, color := zt.color)][zt.left.id := a[zt.left.id].(parent := yt.id)]
    ensures Focused(a', root, Node(zt.color, zt.left, yt.entry, r, yt.id), path)
  {
    var t := Node(zt.color, zt.left, yt.entry, r, yt.id);
    LinkedIds(a, Right(yt, r), ParentId(path, |path|));
    LinkedIds(a, zt.left, zt.id);
    PathLinkedIds(a, path, |path|, yt.id);
    assert yt.id in Ids(Right(yt, r)) && zt.left.id in Ids(zt.left) && Ids(r) <= Ids(Right(yt, r));
    Reparented(a, a', zt.left, zt.id, yt.id);
    assert Linked(a, r, yt.id);
    LinkedSame(a, a', r, yt.id);
    assert Ids(t) == Ids(zt.left) + Ids(Right(yt, r));
    Replace(a, root, yt.id, path, a', root, t);
  }

  /** The successor of a node with two children, and its path. */
  ghost predicate Successor(zt: Tree, path: Path, yt: Tree, deep: Path) {
    && zt.Node? && zt.left.Node? && zt.right.Node? && yt.Node? && yt.left.Nil?
    && Deeper(zt.right, path + [Down(zt, false)], yt, deep)
  }

  /** The right subtree without its smallest node. */
  function Rest(path: Path, yt: Tree, deep: Path): (r: Tree)
    requires yt.Node?
  {
    if |path| + 1 <= |deep| then PlugFrom(yt.right, deep, |deep|, |path| + 1) else Nil
  }

  /** The successor with the right subtree it gets, as yet without a left one. */
  function Right(yt: Tree, r: Tree): (t: Tree)
    requires yt.Node?
  {
    Node(yt.color, Nil, yt.entry, r, yt.id)
  }

  /** Ready for the successor to take its place: it has the right subtree, the removed node still the left one. */
  ghost predicate Beside(a: Arena, zt: Tree, path: Path, yt: Tree, r: Tree, up: Id) {
    && zt.Node? && yt.Node? && zt.id in a && a[zt.id].left == IdOf(zt.left) && a[zt.id].color == zt.color
    && Linked(a, zt.left, zt.id) && Separate(zt.left) && Ids(zt.left) !! PathIds(path, |path|) && zt.id !in Ids(zt.left)
    && Linked(a, Right(yt, r), up) && Separate(Right(yt, r)) && Ids(Right(yt, r)) !! PathIds(path, |path|)
    && Ids(Right(yt, r)) !! Ids(zt.left) && zt.id !in Ids(Right(yt, r))
  }

  /** The successor's parent is the node itself exactly when it is the right child. */
  lemma ParentIsZ(a: Arena, root: Id, zt: Tree, path: Path, yt: Tree, deep: Path)
    requires Focused(a, root, yt, deep) && Successor(zt, path, yt, deep)
    ensures ParentId(deep, |deep|) == zt.id <==> |deep| == |path| + 1
    ensures |deep| == |path| + 1 ==> zt.right == yt && deep == path + [Down(zt, false)] && Rest(path, yt, deep) == yt.right
    ensures Focused(a, root, zt, path)
  {
    var down, n := path + [Down(zt, false)], |deep|;
    FocusRange(a, root, yt, deep, n, |down|, deep, down);
    FocusUp(a, root, zt.right, down);
    assert down[..|path|] == path && Close(Down(zt, false), zt.right) == zt;
    assert deep[..n] == deep;
    assert deep[|path|] == deep[..|down|][|path|] == Down(zt, false);
    if n > |down| {
      IdInPath(deep, n - 1, |path|);
    }
  }

  lemma {:induction false} IdInPath(path: Path, n: nat, i: nat)
    requires i < n <= |path|
    ensures path[i].id in PathIds(path, n)
  {
    if i < n - 1 {
      IdInPath(path, n - 1, i);
    }
  }

  /** The right child is the successor: its own child, or the sentinel, has it for a parent. */
  lemma Adopted(a: Arena, root: Id, zt: Tree, path: Path, yt: Tree, a': Arena)
    requires Focused(a, root, zt, path) && zt.Node? && zt.right == yt && yt.Node? && yt.left.Nil? && IdOf(yt.right) in a
    requires a' == a[IdOf(yt.right) := a[IdOf(yt.right)].(parent := yt.id)]
    ensures Hangs(a', root, zt.id, path) && Beside(a', zt, path, yt, yt.right, zt.id)
  {
    LinkedIds(a, zt, ParentId(path, |path|));
    PathLinkedIds(a, path, |path|, zt.id);
    if yt.right.Node? {
      assert Linked(a, yt, zt.id) && Linked(a, yt.right, yt.id);
      assert a' == a;
    } else {
      LinkedSame(a, a', zt, ParentId(path, |path|));
      PathLinkedSame(a, a', path, |path|, zt.id);
    }
    assert zt.id in Ids(zt) && Ids(yt) <= Ids(zt) && Ids(zt.left) <= Ids(zt);
    assert Right(yt, yt.right) == yt;
  }

  /** With the successor out of its place the focus goes back to the node. */
  lemma RestInFocus(a: Arena, root: Id, zt: Tree, path: Path, yt: Tree, deep: Path) returns (zt1: Tree)
    requires Successor(zt, path, yt, deep) && Focused(a, root, yt.right, deep) && |deep| > |path| + 1
    requires yt.id !in Ids(yt.right) && yt.id !in PathIds(deep, |deep|)
    ensures zt1 == zt.(right := Rest(path, yt, deep)) && zt1.right.Node? && Focused(a, root, zt1, path)
    ensures yt.id !in Ids(zt1) && yt.id !in PathIds(path, |path|)
  {
    var down, n, m := path + [Down(zt, false)], |deep|, |path| + 1;
    var r := Rest(path, yt, deep);
    FocusRange(a, root, yt.right, deep, n, m, deep, down);
    assert deep[..n] == deep;
    FocusUp(a, root, r, down);
    zt1 := zt.(right := r);
    assert down[..|path|] == path && Close(Down(zt, false), r) == zt1;
    PlugFromIds(yt.right, deep, n, m);
    PathPrefix(a, down, deep, m, SENTINEL);
    PathPrefix(a, down, path, |path|, SENTINEL);
    assert PathIds(down, m) == PathIds(down, |path|) + {zt.id} + Ids(zt.left);
    CloseIds(Down(zt, false), r);
  }

  lemma RestNotRoot(path: Path, yt: Tree, deep: Path)
    requires yt.Node? && |deep| > |path| + 1
    ensures Rest(path, yt, deep).Node? && Rest(path, yt, deep).id == deep[|path| + 1].id
  {
  }

  /** The right subtree hangs on the successor now. */
  lemma Hooked(a: Arena, root: Id, zt: Tree, path: Path, yt: Tree, up: Id, a': Arena)
    requires Focused(a, root, zt, path) && zt.Node? && zt.right.Node? && yt.Node? && yt.left.Nil?
    requires yt.id != SENTINEL && yt.id !in Ids(zt) && yt.id !in PathIds(path, |path|)
    requires yt.id in a && a[yt.id].left == SENTINEL && a[yt.id].parent == up && a[yt.id].color == yt.color && a[yt.id].entry == yt.entry
    requires zt.right.id in a && a' == a[yt.id := a[yt.id].(right := zt.right.id)][zt.right.id := a[zt.right.id].(parent := yt.id)]
    ensures Hangs(a', root, zt.id, path) && Beside(a', zt, path, yt, zt.right, up)
  {
    LinkedIds(a, zt, ParentId(path, |path|));
    PathLinkedIds(a, path, |path|, zt.id);
    assert zt.id in Ids(zt) && zt.right.id in Ids(zt.right) && Ids(zt.right) <= Ids(zt) && Ids(zt.left) <= Ids(zt);
    PathLinkedSame(a, a', path, |path|, zt.id);
    LinkedSame(a, a', zt.left, zt.id);
    Reparented(a, a', zt.right, zt.id, yt.id);
  }

  /** Down the left links only, to `t` with its path. */
  ghost predicate Deeper(t0: Tree, path0: Path, t: Tree, path: Path) {
    && |path0| <= |path| && path[..|path0|] == path0 && (forall i :: |path0| <= i < |path| ==> path[i].toLeft)
    && PlugFrom(t, path, |path|, |path0|) == t0 && InOrder(t) + After(path, |path|) == InOrder(t0) + After(path0, |path0|)
  }

  lemma DeeperStill(t0: Tree, path0: Path, t: Tree, path: Path, path': Path)
    requires Deeper(t0, path0, t, path) && t.Node? && path' == path + [Down(t, true)]
    ensures Deeper(t0, path0, t.left, path')
  {
    PlugFromDown(t, path, path', true, |path0|);
    DownLeft(t, path, path');
    assert path'[..|path0|] == path[..|path0|];
  }

  lemma PaintedEnd(a: Arena, root: Id, x: Tree, path: Path, a': Arena)
    requires Focused(a, root, x, path) && IdOf(x) in a && a' == a[IdOf(x) := a[IdOf(x)].(color := Black)]
    ensures Focused(a', root, Blacken(x), path)
  {
    if x.Node? {
      Recolored(a, root, x, path, Black, a');
    } else {
      assert a' == a;
    }
  }

  lemma {:induction false} FirstInPath(path: Path, n: nat)
    requires 0 < n <= |path|
    ensures path[0].id in PathIds(path, n)
  {
    if n > 1 {
      FirstInPath(path, n - 1);
    }
  }

  /** The node in focus is the root exactly when it has no ancestors. */
  lemma AtRoot(a: Arena, root: Id, x: Tree, path: Path)
    requires Focused(a, root, x, path)
    ensures (IdOf(x) == root <==> |path| == 0) && IdOf(x) in a && a[IdOf(x)].color == ColorOf(x)
  {
    if |path| > 0 {
      FirstInPath(path, |path|);
      PathLinkedIds(a, path, |path|, IdOf(x));
      if x.Node? {
        assert x.id in Ids(x);
      }
    }
  }

  /** The sibling with its far child red lends a black node. */
  function Lent(f: Frame, xt: Tree): (t: Tree)
    requires f.other.Node? && Far(f.other, f.toLeft).Node?
  {
    var w := f.other;
    Toward(Close(f.(color := Black, other := Sided(f.toLeft, f.color, Child(w, f.toLeft), w.entry, Blacken(Far(w, f.toLeft)), w.id)), xt), f.toLeft)
  }

  /** The sibling has a red child, on the far side after turning. */
  ghost predicate CanTurn(w: Tree, side: bool)
    requires w.Node?
  {
    && (ColorOf(Far(w, side)) == Black ==> Child(w, side).Node?)
    && Turned(w, side).Node? && Far(Turned(w, side), side).Node?
  }

  lemma LendShort(x: Tree, path: Path, k: int) returns (j: int)
    requires Short(x, path, k) && |path| > 0 && ColorOf(x) == Black && path[|path| - 1].other.Node? && path[|path| - 1].other.color == Black
    requires ColorOf(path[|path| - 1].other.left) == Red || ColorOf(path[|path| - 1].other.right) == Red
    ensures var n := |path| - 1; var f, above := path[n], path[..n]; var t := Turned(f.other, f.toLeft);
            && CanTurn(f.other, f.toLeft) && SiblingLends(f, x) == Lent(f.(other := t), x)
            && Short(Plug(SiblingLends(f, x), above, n), [], j) && Around(Plug(SiblingLends(f, x), above, n), []) == Around(x, path)
  {
    var n := |path| - 1;
    var f, above := path[n], path[..n];
    ShortParent(x, path, k);
    TurnedLends(f.other, f.toLeft, k);
    LentGood(f, x, k);
    LentInOrder(f, x);
    OneUp(x, path, SiblingLends(f, x));
    j := PlugGood(SiblingLends(f, x), above, n, if f.color == Black then k + 2 else k + 1);
    PlugInOrder(SiblingLends(f, x), above, n);
    BlackenGood(Plug(SiblingLends(f, x), above, n), j);
    AroundAll(Plug(SiblingLends(f, x), above, n));
  }

  lemma Transplanted(a: Arena, root: Id, u: Id, path: Path, vt: Tree, parent: Id, a': Arena, root': Id)
    requires PathFits(a, root, path, u) && SENTINEL in a && a[SENTINEL].color == Black && Linked(a, vt, parent) && Separate(vt) && Ids(vt) !! PathIds(path, |path|)
    requires a'.Keys == a.Keys && IdOf(vt) in a
    requires IdOf(vt) in a' && a'[IdOf(vt)] == a[IdOf(vt)].(parent := ParentId(path, |path|))
    requires forall i :: i in a && i != IdOf(vt) && (|path| == 0 || i != ParentId(path, |path|)) ==> i in a' && a'[i] == a[i]
    requires |path| > 0 ==>
               var f := path[|path| - 1]; f.id in a && a'[f.id] == WithKid(a[f.id], f.toLeft, IdOf(vt)) && root' == root
    requires |path| == 0 ==> root' == IdOf(vt)
    ensures Focused(a', root', vt, path)
  {
    LinkedIds(a, vt, parent);
    PathLinkedIds(a, path, |path|, u);
    if |path| > 0 {
      assert path[|path| - 1].id in PathIds(path, |path|);
    }
    if vt.Node? {
      assert vt.id in Ids(vt);
    }
    Reparented(a, a', vt, parent, ParentId(path, |path|));
    Replace(a, root, u, path, a', root', vt);
  }

  /** The entry belongs below this subtree, which is where it was on the way down. */
  ghost predicate OnTheWay(e: Record, x: Tree, path: Path, k: int, all: seq<Record>) {
    && Seated(x, path, k) && Between(Before(path, |path|), e, After(path, |path|)) && Sorted(InOrder(x)) && Around(x, path) == all
    && (|path| > 0 ==> (path[|path| - 1].toLeft <==> Cmp(e, path[|path| - 1].entry) < 0))
  }

  lemma Arrived(e: Record, path: Path, k: int, all: seq<Record>)
    requires OnTheWay(e, Nil, path, k, all)
    ensures Before(path, |path|) + After(path, |path|) == all
  {
    var b := Before(path, |path|);
    assert b + [] == b;
  }

  lemma FurtherDown(e: Record, x: Tree, path: Path, k: int, all: seq<Record>, toLeft: bool, path': Path) returns (k': int)
    requires OnTheWay(e, x, path, k, all) && x.Node? && toLeft == (Cmp(e, x.entry) < 0) && path' == path + [Down(x, toLeft)]
    ensures OnTheWay(e, Child(x, toLeft), path', k', all)
  {
    k' := if x.color == Black then k - 1 else k;
    DownSeated(x, path, k, toLeft, path');
    DownInOrder(x, path, toLeft, path');
    BetweenDown(x, path, e, toLeft, path');
  }

  lemma AroundAll(t: Tree)
    ensures Around(t, []) == InOrder(t)
  {
    assert [] + InOrder(t) + [] == InOrder(t);
  }

  lemma RecolourStep(z: Tree, path: Path, k: int, z': Tree, path': Path)
    requires RedBlack(z, k) && ColorOf(z) == Red && Takes(path, |path|, k) && |path| >= 2 && path[|path| - 1].color == Red
    requires ColorOf(path[|path| - 2].other) == Red && path' == path[..|path| - 2]
    requires z' == Recoloured(z, path[|path| - 1], path[|path| - 2])
    ensures RedBlack(z', k + 1) && ColorOf(z') == Red && Takes(path', |path'|, k + 1) && Around(z', path') == Around(z, path)
  {
    Grandparent(path, k);
    RecolouredGood(z, path[|path| - 1], path[|path| - 2], k);
    TwoUp(z, path, z');
  }

  lemma RotateStep(z: Tree, path: Path, k: int, top: Tree, z': Tree, path': Path)
    requires RedBlack(z, k) && ColorOf(z) == Red && Takes(path, |path|, k) && |path| >= 2 && path[|path| - 1].color == Red
    requires ColorOf(path[|path| - 2].other) == Black && top == Rotated(z, path[|path| - 1], path[|path| - 2]) && top.Node?
    requires z' == Child(top, path[|path| - 2].toLeft) && path' == path[..|path| - 2] + [Down(top, path[|path| - 2].toLeft)]
    ensures RedBlack(z', k) && ColorOf(z') == Red && Takes(path', |path'|, k) && Around(z', path') == Around(z, path)
  {
    var pf, gf, above := path[|path| - 1], path[|path| - 2], path[..|path| - 2];
    Grandparent(path, k);
    RotatedGood(z, pf, gf, k);
    RotatedInOrder(z, pf, gf);
    TwoUp(z, path, top);
    RotatedIsUpper(z, pf, gf);
    OuterRed(z, pf, gf.toLeft);
    DownSeated(top, above, k + 1, gf.toLeft, path');
    DownInOrder(top, above, gf.toLeft, path');
  }

  lemma {:induction false} PlugIsNode(t: Tree, path: Path, n: nat)
    requires n <= |path| && t.Node?
    ensures Plug(t, path, n).Node?
    decreases n
  {
    if n > 0 {
      PlugIsNode(Close(path[n - 1], t), path, n - 1);
    }
  }

  /** The red node or its red parent, whichever is outside now. */
  lemma OuterRed(z: Tree, p: Frame, side: bool)
    requires z.Node? && z.color == Red && p.color == Red
    ensures ColorOf(Child(Upper(z, p, side), side)) == Red
  {
  }

  /** The subtree of the parent once the node is on the outer side. */
  function Upper(z: Tree, p: Frame, side: bool): (t: Tree)
    requires z.Node?
    ensures t.Node? && Child(t, side).Node?
  {
    if p.toLeft == side then Close(p, z) else Toward(Close(p, z), side)
  }

  lemma RotatedIsUpper(z: Tree, p: Frame, g: Frame)
    requires z.Node?
    ensures Rotated(z, p, g) == Toward(Redden(Close(g, Blacken(Upper(z, p, g.toLeft)))), !g.toLeft)
    ensures Rotated(z, p, g).Node? && Child(Rotated(z, p, g), g.toLeft) == Child(Upper(z, p, g.toLeft), g.toLeft)
  {
  }
}

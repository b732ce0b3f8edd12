/**
 What the red-black tree of the memtable (internal/structures/rb_tree.go) looks like and what its steps
 make of it, on values; `RbPointers` has the nodes with their links. A node with its chain of parents is
 a subtree with its path: one frame for every ancestor, the parent last.
 */
module RbTree {
  import opened Keys
  import opened OrderedEntries
  import opened Records

  datatype Color = Red | Black

  datatype Tree = Nil | Node(color: Color, left: Tree, entry: Record, right: Tree, id: nat)

  /** An ancestor: whether the way down goes to its left, its colour and entry, and its other child. */
  datatype Frame = Frame(toLeft: bool, color: Color, entry: Record, other: Tree, id: nat)

  type Path = seq<Frame>

  /** The sentinel is black. */
  function ColorOf(t: Tree): Color { if t.Nil? then Black else t.color }

  function Blacken(t: Tree): Tree { if t.Nil? then t else t.(color := Black) }

  function Redden(t: Tree): Tree { if t.Nil? then t else t.(color := Red) }

  /** The ancestor with its two children. */
  function Close(f: Frame, t: Tree): Tree {
    if f.toLeft then Node(f.color, t, f.entry, f.other, f.id) else Node(f.color, f.other, f.entry, t, f.id)
  }

  /** The whole tree around a subtree, from the first `n` ancestors. */
  function Plug(t: Tree, path: Path, n: nat): Tree
    requires n <= |path|
    decreases n
  {
    if n == 0 then t else Plug(Close(path[n - 1], t), path, n - 1)
  }

  // ------------------------------------------------------------------ contents

  function InOrder(t: Tree): seq<Record> {
    if t.Nil? then [] else InOrder(t.left) + [t.entry] + InOrder(t.right)
  }

  /** The entries before a subtree with this path. */
  function Before(path: Path, n: nat): seq<Record>
    requires n <= |path|
  {
    if n == 0 then []
    else if path[n - 1].toLeft then Before(path, n - 1)
    else Before(path, n - 1) + InOrder(path[n - 1].other) + [path[n - 1].entry]
  }

  /** The entries behind it. */
  function After(path: Path, n: nat): seq<Record>
    requires n <= |path|
  {
    if n == 0 then []
    else if path[n - 1].toLeft then [path[n - 1].entry] + InOrder(path[n - 1].other) + After(path, n - 1)
    else After(path, n - 1)
  }

  /** The whole sequence around a subtree. */
  ghost function Around(x: Tree, path: Path): seq<Record> { Before(path, |path|) + InOrder(x) + After(path, |path|) }

  lemma CloseParts(b: seq<Record>, o: seq<Record>, x: Record, t: seq<Record>, a: seq<Record>)
    ensures b + (o + [x] + t) + a == b + o + [x] + t + a
    ensures b + (t + [x] + o) + a == b + t + ([x] + o + a)
  {
  }

  lemma {:induction false} PlugInOrder(t: Tree, path: Path, n: nat)
    requires n <= |path|
    ensures InOrder(Plug(t, path, n)) == Before(path, n) + InOrder(t) + After(path, n)
    decreases n
  {
    if n == 0 {
      assert [] + InOrder(t) + [] == InOrder(t);
    } else {
      var f := path[n - 1];
      PlugInOrder(Close(f, t), path, n - 1);
      CloseParts(Before(path, n - 1), InOrder(f.other), f.entry, InOrder(t), After(path, n - 1));
    }
  }

  lemma {:induction false} PathSame(p: Path, q: Path, n: nat)
    requires n <= |p| && n <= |q| && forall i :: 0 <= i < n ==> p[i] == q[i]
    ensures Before(p, n) == Before(q, n) && After(p, n) == After(q, n)
  {
    if n > 0 {
      PathSame(p, q, n - 1);
    }
  }

  lemma {:induction false} PlugSame(t: Tree, p: Path, q: Path, n: nat)
    requires n <= |p| && n <= |q| && forall i :: 0 <= i < n ==> p[i] == q[i]
    ensures Plug(t, p, n) == Plug(t, q, n)
    decreases n
  {
    if n > 0 {
      PlugSame(Close(p[n - 1], t), p, q, n - 1);
    }
  }

  // ------------------------------------------------------------------ shape

  /** Every way down passes `k` black nodes. */
  ghost predicate BlackHeight(t: Tree, k: int) {
    if t.Nil? then k == 0
    else var below := if t.color == Black then k - 1 else k; BlackHeight(t.left, below) && BlackHeight(t.right, below)
  }

  /** No red node has a red child. */
  ghost predicate NoRedRed(t: Tree) {
    t.Node? ==>
      && NoRedRed(t.left) && NoRedRed(t.right)
      && (t.color == Red ==> ColorOf(t.left) == Black && ColorOf(t.right) == Black)
  }

  ghost predicate RedBlack(t: Tree, k: int) { BlackHeight(t, k) && NoRedRed(t) }

  /** The ancestors take a subtree of black height `k`: siblings match, no red node has a red neighbour, the root is black. */
  ghost predicate Takes(path: Path, n: nat, k: int)
    requires n <= |path|
  {
    n > 0 ==>
      var f := path[n - 1];
      && RedBlack(f.other, k)
      && (f.color == Red ==> ColorOf(f.other) == Black && n > 1 && path[n - 2].color == Black)
      && (n == 1 ==> f.color == Black)
      && Takes(path, n - 1, if f.color == Black then k + 1 else k)
  }

  lemma {:induction false} TakesSame(p: Path, q: Path, n: nat, k: int)
    requires n <= |p| && n <= |q| && (forall i :: 0 <= i < n ==> p[i] == q[i]) && Takes(p, n, k)
    ensures Takes(q, n, k)
  {
    if n > 0 {
      TakesSame(p, q, n - 1, if p[n - 1].color == Black then k + 1 else k);
    }
  }

  /** A subtree that fits its path, and is not a red child of a red parent, makes a red-black tree. */
  lemma {:induction false} PlugGood(t: Tree, path: Path, n: nat, k: int) returns (j: int)
    requires n <= |path| && RedBlack(t, k) && Takes(path, n, k)
    requires n > 0 && path[n - 1].color == Red ==> ColorOf(t) == Black
    ensures RedBlack(Plug(t, path, n), j) && (n > 0 ==> ColorOf(Plug(t, path, n)) == Black)
    decreases n
  {
    if n == 0 {
      j := k;
    } else {
      var f := path[n - 1];
      var up := Close(f, t);
      assert RedBlack(up, if f.color == Black then k + 1 else k);
      j := PlugGood(up, path, n - 1, if f.color == Black then k + 1 else k);
    }
  }

  /** Blackening the root of a red-black tree keeps it one. */
  lemma BlackenGood(t: Tree, k: int)
    requires RedBlack(t, k)
    ensures RedBlack(Blacken(t), if ColorOf(t) == Red then k + 1 else k) && InOrder(Blacken(t)) == InOrder(t)
  {
  }

  // ------------------------------------------------------------------ rotations

  /** `leftRotate` at the root of a subtree. */
  function LeftRotate(x: Tree): Tree {
    if x.Nil? || x.right.Nil? then x
    else x.right.(left := x.(right := x.right.left))
  }

  function RightRotate(x: Tree): Tree {
    if x.Nil? || x.left.Nil? then x
    else x.left.(right := x.(left := x.left.right))
  }

  lemma Regroup(a: seq<Record>, b: seq<Record>, c: seq<Record>, x: Record, y: Record)
    ensures a + [x] + (b + [y] + c) == a + [x] + b + [y] + c
  {
  }

  lemma LeftRotateInOrder(x: Tree)
    ensures InOrder(LeftRotate(x)) == InOrder(x)
  {
    if x.Node? && x.right.Node? {
      Regroup(InOrder(x.left), InOrder(x.right.left), InOrder(x.right.right), x.entry, x.right.entry);
    }
  }

  lemma RightRotateInOrder(x: Tree)
    ensures InOrder(RightRotate(x)) == InOrder(x)
  {
    if x.Node? && x.left.Node? {
      Regroup(InOrder(x.left.left), InOrder(x.left.right), InOrder(x.right), x.left.entry, x.entry);
    }
  }

  // ------------------------------------------------------------------ insertion

  /** The descent of `Insert` takes one step. */
  function Down(x: Tree, toLeft: bool): Frame
    requires x.Node?
  {
    Frame(toLeft, x.color, x.entry, if toLeft then x.right else x.left, x.id)
  }

  function Child(x: Tree, toLeft: bool): Tree
    requires x.Node?
  {
    if toLeft then x.left else x.right
  }

  /** A red-black subtree where it belongs: its path takes it, and it is no red child of a red parent. */
  ghost predicate Seated(x: Tree, path: Path, k: int) {
    && RedBlack(x, k) && Takes(path, |path|, k)
    && (if |path| == 0 then ColorOf(x) == Black else path[|path| - 1].color == Red ==> ColorOf(x) == Black)
  }

  lemma DownSeated(x: Tree, path: Path, k: int, toLeft: bool, path': Path)
    requires Seated(x, path, k) && x.Node? && path' == path + [Down(x, toLeft)]
    ensures Seated(Child(x, toLeft), path', if x.color == Black then k - 1 else k)
  {
    TakesSame(path, path', |path|, k);
  }

  lemma DownSides(x: Tree, path: Path, toLeft: bool, path': Path)
    requires x.Node? && path' == path + [Down(x, toLeft)]
    ensures Before(path', |path'|) == (if toLeft then Before(path, |path|) else Before(path, |path|) + InOrder(x.left) + [x.entry])
    ensures After(path', |path'|) == (if toLeft then [x.entry] + InOrder(x.right) + After(path, |path|) else After(path, |path|))
  {
    PathSame(path, path', |path|);
  }

  lemma DownInOrder(x: Tree, path: Path, toLeft: bool, path': Path)
    requires x.Node? && path' == path + [Down(x, toLeft)]
    ensures Before(path', |path'|) == (if toLeft then Before(path, |path|) else Before(path, |path|) + InOrder(x.left) + [x.entry])
    ensures After(path', |path'|) == (if toLeft then [x.entry] + InOrder(x.right) + After(path, |path|) else After(path, |path|))
    ensures Around(Child(x, toLeft), path') == Around(x, path)
  {
    DownSides(x, path, toLeft, path');
    var b, a, l, r := Before(path, |path|), After(path, |path|), InOrder(x.left), InOrder(x.right);
    if toLeft {
      CloseParts(b, r, x.entry, l, a);
    } else {
      CloseParts(b, l, x.entry, r, a);
    }
  }

  /** The two nodes above a red node whose parent is red. */
  lemma Grandparent(path: Path, k: int)
    requires |path| > 0 && Takes(path, |path|, k) && path[|path| - 1].color == Red
    ensures var n := |path|;
            && n >= 2 && path[n - 2].color == Black && RedBlack(path[n - 1].other, k) && ColorOf(path[n - 1].other) == Black
            && RedBlack(path[n - 2].other, k) && Takes(path[..n - 2], n - 2, k + 1)
  {
    var n := |path|;
    TakesSame(path, path[..n - 2], n - 2, k + 1);
  }

  /** Red uncle: recolour, and go on from the grandparent. */
  function Recoloured(z: Tree, p: Frame, g: Frame): Tree {
    Redden(Close(g.(other := Blacken(g.other)), Blacken(Close(p, z))))
  }

  /** Black uncle: one or two rotations, and the job is done. */
  function Rotated(z: Tree, p: Frame, g: Frame): Tree {
    var parent := Close(p, z);
    if g.toLeft then
      var upper := if p.toLeft then parent else LeftRotate(parent);
      RightRotate(Redden(Close(g, Blacken(upper))))
    else
      var upper := if p.toLeft then RightRotate(parent) else parent;
      LeftRotate(Redden(Close(g, Blacken(upper))))
  }

  lemma RecolouredGood(z: Tree, p: Frame, g: Frame, k: int)
    requires RedBlack(z, k) && ColorOf(z) == Red && RedBlack(p.other, k) && RedBlack(g.other, k)
    requires p.color == Red && ColorOf(p.other) == Black && g.color == Black && ColorOf(g.other) == Red
    ensures RedBlack(Recoloured(z, p, g), k + 1) && ColorOf(Recoloured(z, p, g)) == Red
    ensures InOrder(Recoloured(z, p, g)) == InOrder(Close(g, Close(p, z)))
  {
  }

  lemma RotatedGood(z: Tree, p: Frame, g: Frame, k: int)
    requires RedBlack(z, k) && ColorOf(z) == Red && RedBlack(p.other, k) && RedBlack(g.other, k)
    requires p.color == Red && ColorOf(p.other) == Black && g.color == Black && ColorOf(g.other) == Black
    ensures RedBlack(Rotated(z, p, g), k + 1) && ColorOf(Rotated(z, p, g)) == Black
  {
  }

  lemma RotatedInOrder(z: Tree, p: Frame, g: Frame)
    ensures InOrder(Rotated(z, p, g)) == InOrder(Close(g, Close(p, z)))
  {
    var parent := Close(p, z);
    LeftRotateInOrder(parent);
    RightRotateInOrder(parent);
    var upper := if g.toLeft then (if p.toLeft then parent else LeftRotate(parent)) else if p.toLeft then RightRotate(parent) else parent;
    assert InOrder(upper) == InOrder(parent);
    var top := Redden(Close(g, Blacken(upper)));
    assert InOrder(Blacken(upper)) == InOrder(upper);
    assert InOrder(top) == InOrder(Close(g, parent));
    LeftRotateInOrder(top);
    RightRotateInOrder(top);
  }

  /** What lies around a subtree does not change when the two frames above it are closed over it. */
  lemma TwoUp(z: Tree, path: Path, t: Tree)
    requires |path| >= 2 && InOrder(t) == InOrder(Close(path[|path| - 2], Close(path[|path| - 1], z)))
    ensures var n := |path| - 2;
            Before(path[..n], n) + InOrder(t) + After(path[..n], n) == Before(path, |path|) + InOrder(z) + After(path, |path|)
  {
    var n := |path| - 2;
    PathSame(path, path[..n], n);
    PlugInOrder(z, path, |path|);
    PlugInOrder(Close(path[n], Close(path[n + 1], z)), path, n);
  }

  /** A tree as the operations keep it: red-black, with a black root. */
  ghost predicate Good(root: Tree) { ColorOf(root) == Black && exists k :: RedBlack(root, k) }

  lemma BetweenDown(x: Tree, path: Path, e: Record, toLeft: bool, path': Path)
    requires x.Node? && path' == path + [Down(x, toLeft)] && toLeft == (Cmp(e, x.entry) < 0)
    requires Between(Before(path, |path|), e, After(path, |path|)) && Sorted(InOrder(x))
    ensures Between(Before(path', |path'|), e, After(path', |path'|)) && Sorted(InOrder(Child(x, toLeft)))
  {
    DownInOrder(x, path, toLeft, path');
    SortedParts(InOrder(x.left), x.entry, InOrder(x.right));
    LeIsCmp(e, x.entry);
    LeIsCmp(x.entry, e);
    if toLeft {
      BetweenMore([], e, [x.entry] + InOrder(x.right), After(path, |path|), InOrder(x.left), x.entry, InOrder(x.right), true);
    } else {
      BetweenMore(Before(path, |path|), e, [], [], InOrder(x.left), x.entry, InOrder(x.right), false);
    }
  }

  lemma BetweenMore(p: seq<Record>, e: Record, m: seq<Record>, q: seq<Record>, l: seq<Record>, x: Record, r: seq<Record>, toLeft: bool)
    requires (forall i :: 0 <= i < |l| ==> Le(l[i], x)) && (forall i :: 0 <= i < |r| ==> Le(x, r[i]))
    requires toLeft ==> Le(e, x) && m == [x] + r && forall i :: 0 <= i < |q| ==> Le(e, q[i])
    requires !toLeft ==> Le(x, e) && forall i :: 0 <= i < |p| ==> Le(p[i], e)
    ensures toLeft ==> forall i :: 0 <= i < |m + q| ==> Le(e, (m + q)[i])
    ensures !toLeft ==> forall i :: 0 <= i < |p + l + [x]| ==> Le((p + l + [x])[i], e)
  {
    if toLeft {
      forall i | 0 <= i < |m + q| ensures Le(e, (m + q)[i]) {
        if 0 < i < |m| {
          LeTransitive(e, x, r[i - 1]);
        }
      }
    } else {
      var s := p + l + [x];
      forall i | 0 <= i < |s| ensures Le(s[i], e) {
        if |p| <= i < |p| + |l| {
          assert s[i] == l[i - |p|];
          LeTransitive(l[i - |p|], x, e);
        }
      }
    }
  }

  lemma InsertedAt(b: seq<Record>, a: seq<Record>, e: Record, s: seq<Record>)
    requires s == b + a && Between(b, e, a)
    ensures Inserted(s, e, b + [e] + a, |b|)
  {
    assert s[..|b|] == b && s[|b|..] == a;
  }

  // ------------------------------------------------------------------ deletion: the fix-up

  /** A node with one child on a given side and the other opposite; the two halves of the fix-up are mirror images. */
  function Sided(toLeft: bool, color: Color, near: Tree, entry: Record, far: Tree, id: nat): Tree {
    if toLeft then Node(color, near, entry, far, id) else Node(color, far, entry, near, id)
  }

  function Far(t: Tree, toLeft: bool): Tree
    requires t.Node?
  {
    Child(t, !toLeft)
  }

  /** The rotation that lets the node on a given side sink. */
  function Toward(t: Tree, toLeft: bool): Tree { if toLeft then LeftRotate(t) else RightRotate(t) }

  lemma TowardInOrder(t: Tree, toLeft: bool)
    ensures InOrder(Toward(t, toLeft)) == InOrder(t)
  {
    LeftRotateInOrder(t);
    RightRotateInOrder(t);
  }

  lemma {:induction false} HeightNonNegative(t: Tree, k: int)
    requires BlackHeight(t, k)
    ensures k >= 0 && (k > 0 ==> t.Node?)
  {
    if t.Node? {
      HeightNonNegative(t.left, if t.color == Black then k - 1 else k);
    }
  }

  /** A subtree whose root alone may be a red node with a red child. */
  ghost predicate Loose(t: Tree, k: int) { BlackHeight(t, k) && NoRedRed(Blacken(t)) }

  /** A subtree whose place expects one black node more than it has. */
  ghost predicate Short(x: Tree, path: Path, k: int) {
    Loose(x, k) && Takes(path, |path|, k + 1)
  }

  /** The parent of such a subtree, and its sibling. */
  ghost predicate Under(p: Frame, above: Path, k: int) {
    && p.other.Node? && RedBlack(p.other, k + 1) && (p.color == Red ==> ColorOf(p.other) == Black)
    && Takes(above, |above|, if p.color == Black then k + 2 else k + 1)
    && (p.color == Red ==> |above| > 0 && above[|above| - 1].color == Black) && (|above| == 0 ==> p.color == Black)
  }

  lemma ShortParent(x: Tree, path: Path, k: int)
    requires Short(x, path, k) && |path| > 0
    ensures Under(path[|path| - 1], path[..|path| - 1], k)
  {
    HeightNonNegative(x, k);
    HeightNonNegative(path[|path| - 1].other, k + 1);
    var n := |path| - 1;
    TakesSame(path, path[..n], n, if path[n].color == Black then k + 2 else k + 1);
  }

  /** Red sibling: it turns black, the parent red, and the rotation leaves these two frames above the node. */
  function SiblingUp(p: Frame): (frames: seq<Frame>)
    requires p.other.Node?
    ensures |frames| == 2
  {
    var w := p.other;
    [Frame(p.toLeft, Black, w.entry, Far(w, p.toLeft), w.id), Frame(p.toLeft, Red, p.entry, Child(w, p.toLeft), p.id)]
  }

  /** Black sibling with black children: it becomes red, and the parent is looked at next. */
  function SiblingRed(p: Frame, x: Tree): Tree { Close(p.(other := Redden(p.other)), x) }

  /** The sibling after the rotation that puts its red child on the far side, if it is not there yet. */
  function Turned(w: Tree, side: bool): Tree
    requires w.Node?
  {
    if ColorOf(Far(w, side)) == Black then Toward(Sided(side, Red, Blacken(Child(w, side)), w.entry, Far(w, side), w.id), !side)
    else w
  }

  /** Black sibling with a red child: it takes the parent's colour and, by a rotation, its place. */
  function SiblingLends(p: Frame, x: Tree): Tree
    requires p.other.Node?
  {
    var w := Turned(p.other, p.toLeft);
    if w.Nil? then w else
    var top := Sided(p.toLeft, p.color, Child(w, p.toLeft), w.entry, Blacken(Far(w, p.toLeft)), w.id);
    Toward(Close(p.(color := Black, other := top), x), p.toLeft)
  }

  lemma SiblingUpRotates(p: Frame, x: Tree)
    requires p.other.Node?
    ensures Close(SiblingUp(p)[0], Close(SiblingUp(p)[1], x)) == Toward(Close(p.(color := Red, other := Blacken(p.other)), x), p.toLeft)
  {
  }

  lemma SiblingUpSame(p: Frame, x: Tree)
    requires p.other.Node?
    ensures InOrder(Close(SiblingUp(p)[0], Close(SiblingUp(p)[1], x))) == InOrder(Close(p, x))
  {
    SiblingUpRotates(p, x);
    var w := Blacken(p.other);
    assert InOrder(w) == InOrder(p.other);
    TowardInOrder(Close(p.(color := Red, other := w), x), p.toLeft);
  }

  lemma SiblingUpInOrder(x: Tree, path: Path, p: Frame, above: Path, path': Path)
    requires path == above + [p] && p.other.Node? && path' == above + SiblingUp(p)
    ensures Around(x, path') == Around(x, path)
  {
    var n := |above|;
    assert path'[n] == SiblingUp(p)[0] && path'[n + 1] == SiblingUp(p)[1] && path[n] == p;
    SiblingUpSame(p, x);
    assert path'[..n] == above && path[..n] == above;
    TwoUp(x, path', Close(p, x));
    OneUp(x, path, Close(p, x));
  }

  lemma SiblingUpShort(x: Tree, path: Path, k: int, path': Path)
    requires Short(x, path, k) && |path| > 0 && ColorOf(path[|path| - 1].other) == Red
    requires path' == path[..|path| - 1] + SiblingUp(path[|path| - 1])
    ensures Short(x, path', k) && ColorOf(path'[|path'| - 1].other) == Black
  {
    ShortParent(x, path, k);
    var n := |path| - 1;
    var p := path[n];
    assert path'[n] == SiblingUp(p)[0] && path'[n + 1] == SiblingUp(p)[1];
    TakesSame(path[..n], path', n, k + 2);
  }

  lemma SiblingRedShort(x: Tree, p: Frame, above: Path, k: int)
    requires Loose(x, k) && ColorOf(x) == Black && Under(p, above, k)
    requires ColorOf(p.other) == Black && ColorOf(p.other.left) == Black && ColorOf(p.other.right) == Black
    ensures Short(SiblingRed(p, x), above, if p.color == Black then k + 1 else k)
    ensures InOrder(SiblingRed(p, x)) == InOrder(Close(p, x))
  {
  }

  /** The sibling with its far child red: black, and both children as high as the node that is short. */
  ghost predicate CanLend(w: Tree, side: bool, k: int) {
    && w.Node? && RedBlack(Child(w, side), k) && Far(w, side).Node? && Far(w, side).color == Red && RedBlack(Far(w, side), k)
  }

  lemma TurnedLends(w: Tree, side: bool, k: int)
    requires w.Node? && RedBlack(w, k + 1) && w.color == Black && (ColorOf(w.left) == Red || ColorOf(w.right) == Red)
    ensures CanLend(Turned(w, side), side, k) && InOrder(Turned(w, side)) == InOrder(w)
  {
    if ColorOf(Far(w, side)) == Black {
      var t := Sided(side, Red, Blacken(Child(w, side)), w.entry, Far(w, side), w.id);
      TowardInOrder(t, !side);
      assert InOrder(t) == InOrder(w);
      var near := Child(w, side);
      assert NoRedRed(near) && BlackHeight(near, k) && near.color == Red;
    }
  }

  lemma LentGood(p: Frame, x: Tree, k: int)
    requires RedBlack(x, k) && p.other.Node? && CanLend(Turned(p.other, p.toLeft), p.toLeft, k)
    ensures RedBlack(SiblingLends(p, x), if p.color == Black then k + 2 else k + 1)
    ensures SiblingLends(p, x).Node? && SiblingLends(p, x).color == p.color
  {
  }

  lemma LentInOrder(p: Frame, x: Tree)
    requires p.other.Node? && Turned(p.other, p.toLeft).Node? && InOrder(Turned(p.other, p.toLeft)) == InOrder(p.other)
    ensures InOrder(SiblingLends(p, x)) == InOrder(Close(p, x))
  {
    var w := Turned(p.other, p.toLeft);
    var top := Sided(p.toLeft, p.color, Child(w, p.toLeft), w.entry, Blacken(Far(w, p.toLeft)), w.id);
    assert InOrder(top) == InOrder(w);
    TowardInOrder(Close(p.(color := Black, other := top), x), p.toLeft);
  }

  lemma OneUp(x: Tree, path: Path, t: Tree)
    requires |path| > 0 && InOrder(t) == InOrder(Close(path[|path| - 1], x))
    ensures var n := |path| - 1;
            Before(path[..n], n) + InOrder(t) + After(path[..n], n) == Before(path, |path|) + InOrder(x) + After(path, |path|)
  {
    var n := |path| - 1;
    PathSame(path, path[..n], n);
    PlugInOrder(x, path, |path|);
    PlugInOrder(Close(path[n], x), path, n);
  }

  /** The end of the loop at a node that is red, or the root. */
  lemma BlackenShort(x: Tree, path: Path, k: int)
    requires Short(x, path, k) && (|path| == 0 || ColorOf(x) == Red)
    ensures RedBlack(Blacken(x), if ColorOf(x) == Red then k + 1 else k) && ColorOf(Blacken(x)) == Black
    ensures InOrder(Blacken(x)) == InOrder(x)
  {
  }

  // ------------------------------------------------------------------ deletion

  /** In a red-black tree every node sits as it should. */
  lemma {:induction false} PlugSeated(t: Tree, path: Path, n: nat, j: int) returns (k: int)
    requires n <= |path| && RedBlack(Plug(t, path, n), j) && ColorOf(Plug(t, path, n)) == Black
    ensures RedBlack(t, k) && Takes(path, n, k)
    ensures if n == 0 then ColorOf(t) == Black else path[n - 1].color == Red ==> ColorOf(t) == Black
    decreases n
  {
    if n == 0 {
      k := j;
    } else {
      var f := path[n - 1];
      var up := PlugSeated(Close(f, t), path, n - 1, j);
      k := if f.color == Black then up - 1 else up;
    }
  }

  lemma DownLeft(x: Tree, path: Path, path': Path)
    requires x.Node? && path' == path + [Down(x, true)]
    ensures InOrder(x.left) + After(path', |path'|) == InOrder(x) + After(path, |path|)
  {
    DownSides(x, path, true, path');
    LeftParts(InOrder(x.left), x.entry, InOrder(x.right), After(path, |path|));
  }

  lemma LeftParts(l: seq<Record>, x: Record, r: seq<Record>, a: seq<Record>)
    ensures l + ([x] + r + a) == l + [x] + r + a
  {
  }

  /** The removed node's frame takes the successor's entry: nothing of the shape changes. */
  lemma {:induction false} EntryTakes(path: Path, path': Path, m: nat, n: nat, k: int)
    requires n <= |path| == |path'| && m < |path| && path' == path[m := path[m].(entry := path'[m].entry, id := path'[m].id)] && Takes(path, n, k)
    ensures Takes(path', n, k)
  {
    if n > 0 {
      EntryTakes(path, path', m, n - 1, if path[n - 1].color == Black then k + 1 else k);
    }
  }

  /** The descent that follows goes left only, so just the entry in front is another one. */
  lemma {:induction false} EntryInOrder(path: Path, path': Path, m: nat, n: nat)
    requires m < n <= |path| == |path'| && path' == path[m := path[m].(entry := path'[m].entry, id := path'[m].id)]
    requires !path[m].toLeft && forall i :: m < i < n ==> path[i].toLeft
    ensures After(path', n) == After(path, n)
    ensures Before(path', n) == Before(path, m) + InOrder(path[m].other) + [path'[m].entry]
  {
    if n == m + 1 {
      PathSame(path, path', m);
    } else {
      EntryInOrder(path, path', m, n - 1);
    }
  }

  lemma SplicedOut(b: seq<Record>, l: seq<Record>, e: Record, y: seq<Record>, r: seq<Record>, a: seq<Record>,
                   zr: seq<Record>, za: seq<Record>, front: seq<Record>)
    requires y == [e] + r && y + a == zr + za && front == b + l + [e]
    ensures front + r + a == b + (l + zr) + za
  {
    assert front + r + a == b + l + (y + a);
    assert b + l + (zr + za) == b + (l + zr) + za;
  }

  lemma NoLeft(y: Tree)
    requires y.Node? && y.left.Nil?
    ensures InOrder(y) == [y.entry] + InOrder(y.right)
  {
  }

  lemma EntrySeated(y: Tree, path: Path, path': Path, m: nat, k: int)
    requires |path| == |path'| && m < |path| && path' == path[m := path[m].(entry := path'[m].entry, id := path'[m].id)] && Seated(y, path, k)
    ensures Seated(y, path', k)
  {
    EntryTakes(path, path', m, |path|, k);
  }

  lemma DeepSame(z: Tree, path: Path, down: Path, deep: Path)
    requires z.Node? && down == path + [Down(z, false)] && |down| <= |deep| && deep[..|down|] == down
    ensures deep[|path|].other == z.left && !deep[|path|].toLeft
    ensures Before(deep, |path|) == Before(path, |path|) && After(down, |down|) == After(path, |path|)
  {
    Starts(path, Down(z, false), down, deep);
    PathSame(deep, path, |path|);
    PathSame(down, path, |path|);
  }

  lemma Starts(path: Path, f: Frame, down: Path, deep: Path)
    requires down == path + [f] && |down| <= |deep| && deep[..|down|] == down
    ensures deep[|path|] == down[|path|] == f && forall i :: 0 <= i < |path| ==> deep[i] == path[i] == down[i]
  {
    assert forall i :: 0 <= i < |down| ==> deep[..|down|][i] == deep[i];
  }

  /** Exactly the entry `e`, at position `k`, is gone. */
  ghost predicate OneOut(s: seq<Record>, k: nat, e: Record, s': seq<Record>) {
    k < |s| && s[k] == e && s' == s[..k] + s[k + 1..]
  }

  lemma CutOut(b: seq<Record>, l: seq<Record>, e: Record, r: seq<Record>, a: seq<Record>, c: seq<Record>, s: seq<Record>)
    requires c == l + [e] + r && s == b + c + a
    ensures OneOut(s, |b| + |l|, e, b + (l + r) + a)
  {
    var k := |b| + |l|;
    assert s[..k] == b + l;
    assert s[k + 1..] == r + a;
  }

  lemma {:induction false} WithoutNode(z: Tree, path: Path, root: Tree)
    requires z.Node? && Plug(z, path, |path|) == root
    ensures OneOut(InOrder(root), |Before(path, |path|)| + |InOrder(z.left)|, z.entry,
                   Before(path, |path|) + (InOrder(z.left) + InOrder(z.right)) + After(path, |path|))
  {
    PlugInOrder(z, path, |path|);
    var b, a := Before(path, |path|), After(path, |path|);
    CutOut(b, InOrder(z.left), z.entry, InOrder(z.right), a, InOrder(z), InOrder(root));
  }

  lemma OnlyOne(l: seq<Record>, r: seq<Record>)
    ensures l == [] ==> l + r == r
    ensures r == [] ==> l + r == l
  {
  }
}

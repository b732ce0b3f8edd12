/**
 The nodes of the red-black tree with their links (internal/structures/rb_tree.go:12-44): every node knows its
 children and its parent, and a sentinel stands for all missing ones. What a subtree with its path of
 ancestors says of the nodes is `Focused`; the pointer writes of the operations are judged by it.
 */
module RbLinks {
  import opened RbTree
  import opened Records

  type Id = nat

  const SENTINEL: Id := 0

  datatype Cell = Cell(left: Id, right: Id, parent: Id, color: Color, entry: Record)

  type Arena = map<Id, Cell>

  function IdOf(t: Tree): (i: Id) { if t.Nil? then SENTINEL else t.id }

  function Kid(c: Cell, toLeft: bool): (i: Id) { if toLeft then c.left else c.right }

  function WithKid(c: Cell, toLeft: bool, i: Id): (c': Cell) { if toLeft then c.(left := i) else c.(right := i) }

  /** The node at the root of a subtree, as it should be. */
  function CellOf(t: Tree, parent: Id): (c: Cell)
    requires t.Node?
  {
    Cell(IdOf(t.left), IdOf(t.right), parent, t.color, t.entry)
  }

  /** An ancestor, as it should be above the node `hole`. */
  function FrameCell(f: Frame, hole: Id, parent: Id): (c: Cell) {
    Cell(if f.toLeft then hole else IdOf(f.other), if f.toLeft then IdOf(f.other) else hole, parent, f.color, f.entry)
  }

  // ------------------------------------------------------------------ links

  /** The nodes of a subtree are there, and all links between them and up to `parent` are right. */
  ghost predicate Linked(a: Arena, t: Tree, parent: Id) {
    t.Node? ==>
      && t.id != SENTINEL && t.id in a && a[t.id] == CellOf(t, parent)
      && Linked(a, t.left, t.id) && Linked(a, t.right, t.id)
  }

  function ParentId(path: Path, n: nat): (i: Id)
    requires n <= |path|
  {
    if n == 0 then SENTINEL else path[n - 1].id
  }

  /** The same of the ancestors and what hangs on them. */
  ghost predicate PathLinked(a: Arena, path: Path, n: nat, hole: Id)
    requires n <= |path|
  {
    n > 0 ==>
      var f := path[n - 1];
      && f.id != SENTINEL && f.id in a && a[f.id] == FrameCell(f, hole, ParentId(path, n - 1))
      && Linked(a, f.other, f.id) && PathLinked(a, path, n - 1, f.id)
  }

  ghost function Ids(t: Tree): (ids: set<Id>) { if t.Nil? then {} else Ids(t.left) + {t.id} + Ids(t.right) }

  ghost function PathIds(path: Path, n: nat): (ids: set<Id>)
    requires n <= |path|
  {
    if n == 0 then {} else PathIds(path, n - 1) + {path[n - 1].id} + Ids(path[n - 1].other)
  }

  /** Every node occurs once. */
  ghost predicate Separate(t: Tree) {
    t.Node? ==>
      && t.id !in Ids(t.left) && t.id !in Ids(t.right) && Ids(t.left) !! Ids(t.right)
      && Separate(t.left) && Separate(t.right)
  }

  ghost predicate PathSeparate(path: Path, n: nat)
    requires n <= |path|
  {
    n > 0 ==>
      var f := path[n - 1];
      && f.id !in PathIds(path, n - 1) && f.id !in Ids(f.other) && Ids(f.other) !! PathIds(path, n - 1)
      && Separate(f.other) && PathSeparate(path, n - 1)
  }

  /** The nodes are those of the subtree and of its path, and all links are right. */
  ghost predicate Focused(a: Arena, root: Id, t: Tree, path: Path) {
    && SENTINEL in a && a[SENTINEL].color == Black
    && Linked(a, t, ParentId(path, |path|)) && PathLinked(a, path, |path|, IdOf(t))
    && Separate(t) && PathSeparate(path, |path|) && Ids(t) !! PathIds(path, |path|)
    && root == if |path| == 0 then IdOf(t) else path[0].id
  }

  lemma {:induction false} LinkedIds(a: Arena, t: Tree, parent: Id)
    requires Linked(a, t, parent)
    ensures SENTINEL !in Ids(t) && forall i :: i in Ids(t) ==> i in a
  {
    if t.Node? {
      LinkedIds(a, t.left, t.id);
      LinkedIds(a, t.right, t.id);
    }
  }

  lemma {:induction false} PathLinkedIds(a: Arena, path: Path, n: nat, hole: Id)
    requires n <= |path| && PathLinked(a, path, n, hole)
    ensures SENTINEL !in PathIds(path, n) && forall i :: i in PathIds(path, n) ==> i in a
    decreases n
  {
    if n > 0 {
      LinkedIds(a, path[n - 1].other, path[n - 1].id);
      PathLinkedIds(a, path, n - 1, path[n - 1].id);
    }
  }

  /** The two maps agree on these nodes. */
  ghost predicate SameAt(a: Arena, a': Arena, ids: set<Id>) {
    forall i :: i in ids && i in a ==> i in a' && a'[i] == a[i]
  }

  lemma {:induction false} LinkedSame(a: Arena, a': Arena, t: Tree, parent: Id)
    requires Linked(a, t, parent) && SameAt(a, a', Ids(t))
    ensures Linked(a', t, parent)
  {
    if t.Node? {
      LinkedSame(a, a', t.left, t.id);
      LinkedSame(a, a', t.right, t.id);
    }
  }

  lemma {:induction false} PathLinkedSame(a: Arena, a': Arena, path: Path, n: nat, hole: Id)
    requires n <= |path| && PathLinked(a, path, n, hole) && SameAt(a, a', PathIds(path, n))
    ensures PathLinked(a', path, n, hole)
    decreases n
  {
    if n > 0 {
      LinkedSame(a, a', path[n - 1].other, path[n - 1].id);
      PathLinkedSame(a, a', path, n - 1, path[n - 1].id);
    }
  }

  /** A subtree hung on another parent. */
  lemma Reparented(a: Arena, a': Arena, t: Tree, parent: Id, parent': Id)
    requires Linked(a, t, parent) && Separate(t) && SameAt(a, a', Ids(t) - {IdOf(t)})
    requires t.Node? ==> t.id in a' && a'[t.id] == a[t.id].(parent := parent')
    ensures Linked(a', t, parent')
  {
    if t.Node? {
      LinkedSame(a, a', t.left, t.id);
      LinkedSame(a, a', t.right, t.id);
    }
  }

  lemma {:induction false} PathPrefix(a: Arena, p: Path, q: Path, n: nat, hole: Id)
    requires n <= |p| && n <= |q| && forall i :: 0 <= i < n ==> p[i] == q[i]
    ensures PathLinked(a, p, n, hole) == PathLinked(a, q, n, hole) && PathIds(p, n) == PathIds(q, n)
    ensures PathSeparate(p, n) == PathSeparate(q, n)
    decreases n
  {
    if n > 0 {
      PathPrefix(a, p, q, n - 1, p[n - 1].id);
    }
  }

  // ------------------------------------------------------------------ moving the focus

  lemma CloseIds(f: Frame, x: Tree)
    ensures Ids(Close(f, x)) == Ids(x) + {f.id} + Ids(f.other)
    ensures Separate(Close(f, x)) <==>
            f.id !in Ids(x) && f.id !in Ids(f.other) && Ids(x) !! Ids(f.other) && Separate(x) && Separate(f.other)
  {
  }

  lemma CloseLinked(a: Arena, f: Frame, x: Tree, parent: Id)
    ensures Linked(a, Close(f, x), parent) <==>
            && f.id != SENTINEL && f.id in a && a[f.id] == FrameCell(f, IdOf(x), parent)
            && Linked(a, f.other, f.id) && Linked(a, x, f.id)
  {
  }

  /** A node's subtree and its parent's say the same of the nodes. */
  lemma FocusClose(a: Arena, root: Id, x: Tree, f: Frame, above: Path, path: Path)
    requires path == above + [f]
    ensures Focused(a, root, x, path) <==> Focused(a, root, Close(f, x), above)
  {
    var n := |above|;
    PathPrefix(a, path, above, n, f.id);
    CloseIds(f, x);
    CloseLinked(a, f, x, ParentId(above, n));
    assert PathIds(path, n + 1) == PathIds(above, n) + {f.id} + Ids(f.other);
    assert ParentId(path, n) == ParentId(above, n);
  }

  lemma FocusUp(a: Arena, root: Id, x: Tree, path: Path)
    requires Focused(a, root, x, path) && |path| > 0
    ensures Focused(a, root, Close(path[|path| - 1], x), path[..|path| - 1])
  {
    var n := |path| - 1;
    assert path == path[..n] + [path[n]];
    FocusClose(a, root, x, path[n], path[..n], path);
  }

  lemma FocusDown(a: Arena, root: Id, t: Tree, path: Path, toLeft: bool, path': Path)
    requires Focused(a, root, t, path) && t.Node? && path' == path + [Down(t, toLeft)]
    ensures Focused(a, root, Child(t, toLeft), path')
  {
    FocusClose(a, root, Child(t, toLeft), Down(t, toLeft), path, path');
    assert Close(Down(t, toLeft), Child(t, toLeft)) == t;
  }

  lemma {:induction false} FocusTop(a: Arena, root: Id, t: Tree, path: Path, n: nat, top: Path)
    requires n <= |path| && top == path[..n] && Focused(a, root, t, top)
    ensures Focused(a, root, Plug(t, path, n), [])
    decreases n
  {
    if n > 0 {
      FocusUp(a, root, t, top);
      assert top[n - 1] == path[n - 1] && top[..n - 1] == path[..n - 1];
      FocusTop(a, root, Close(path[n - 1], t), path, n - 1, path[..n - 1]);
    } else {
      assert top == [];
    }
  }

  // ------------------------------------------------------------------ writing at the focus

  /** The ancestors are there, above this node. */
  ghost predicate PathFits(a: Arena, root: Id, path: Path, hole: Id) {
    PathLinked(a, path, |path|, hole) && PathSeparate(path, |path|) && root == if |path| == 0 then hole else path[0].id
  }

  /** The subtree in focus has been replaced, and its parent's link, or the root, with it. */
  lemma Replace(a: Arena, root: Id, hole: Id, path: Path, a': Arena, root': Id, t': Tree)
    requires PathFits(a, root, path, hole) && SENTINEL in a' && a'[SENTINEL].color == Black
    requires Linked(a', t', ParentId(path, |path|)) && Separate(t') && Ids(t') !! PathIds(path, |path|)
    requires SameAt(a, a', PathIds(path, |path|) - {ParentId(path, |path|)})
    requires |path| > 0 ==>
               var f := path[|path| - 1]; f.id in a' && a'[f.id] == WithKid(a[f.id], f.toLeft, IdOf(t')) && root' == root
    requires |path| == 0 ==> root' == IdOf(t')
    ensures Focused(a', root', t', path)
  {
    var n := |path|;
    if n > 0 {
      var f := path[n - 1];
      LinkedSame(a, a', f.other, f.id);
      PathLinkedSame(a, a', path, n - 1, f.id);
    }
  }

  /** A new colour for the node in focus. */
  lemma Recolored(a: Arena, root: Id, t: Tree, path: Path, c: Color, a': Arena)
    requires Focused(a, root, t, path) && t.Node? && a' == a[t.id := a[t.id].(color := c)]
    ensures Focused(a', root, t.(color := c), path) && a'[SENTINEL] == a[SENTINEL]
  {
    var t' := t.(color := c);
    assert Ids(t') == Ids(t);
    LinkedSame(a, a', t.left, t.id);
    LinkedSame(a, a', t.right, t.id);
    PathLinkedIds(a, path, |path|, t.id);
    Replace(a, root, t.id, path, a', root, t');
  }

  /** A child with another colour. */
  function Tinted(t: Tree, toLeft: bool, c: Color): (t': Tree)
    requires t.Node? && Child(t, toLeft).Node?
  {
    if toLeft then t.(left := t.left.(color := c)) else t.(right := t.right.(color := c))
  }

  lemma RecoloredChild(a: Arena, root: Id, t: Tree, path: Path, toLeft: bool, c: Color, a': Arena)
    requires Focused(a, root, t, path) && t.Node? && Child(t, toLeft).Node? && Child(t, toLeft).id in a
    requires a' == a[Child(t, toLeft).id := a[Child(t, toLeft).id].(color := c)]
    ensures Focused(a', root, Tinted(t, toLeft, c), path) && a'[SENTINEL] == a[SENTINEL]
  {
    var below := path + [Down(t, toLeft)];
    FocusDown(a, root, t, path, toLeft, below);
    Recolored(a, root, Child(t, toLeft), below, c, a');
    FocusUp(a', root, Child(t, toLeft).(color := c), below);
    assert below[..|below| - 1] == path;
  }

  /** The node in focus, its parent, and the colour of that. */
  lemma Above(a: Arena, root: Id, x: Tree, path: Path)
    requires Focused(a, root, x, path)
    ensures ParentId(path, |path|) in a
    ensures a[ParentId(path, |path|)].color == if |path| > 0 then path[|path| - 1].color else Black
    ensures x.Node? ==> x.id in a && x.id != SENTINEL && a[x.id] == CellOf(x, ParentId(path, |path|))
  {
    if |path| > 0 {
      ParentLink(a, root, x, path);
    }
  }

  /** A missing child is the sentinel, which is there and black. */
  lemma ChildOf(a: Arena, root: Id, x: Tree, path: Path, toLeft: bool)
    requires Focused(a, root, x, path) && x.Node?
    ensures x.id in a && Kid(a[x.id], toLeft) == IdOf(Child(x, toLeft)) && IdOf(Child(x, toLeft)) in a
    ensures a[IdOf(Child(x, toLeft))].color == ColorOf(Child(x, toLeft))
    ensures Child(x, toLeft).Node? ==> Child(x, toLeft).id != SENTINEL && a[Child(x, toLeft).id] == CellOf(Child(x, toLeft), x.id)
  {
    Above(a, root, x, path);
    assert Linked(a, Child(x, toLeft), x.id);
  }

  /** A node that hangs below the last of these ancestors, whatever hangs on the node. */
  ghost predicate Hangs(a: Arena, root: Id, u: Id, path: Path) {
    && SENTINEL in a && a[SENTINEL].color == Black && PathFits(a, root, path, u)
    && u != SENTINEL && u in a && u !in PathIds(path, |path|) && a[u].parent == ParentId(path, |path|)
  }

  lemma FocusHangs(a: Arena, root: Id, t: Tree, path: Path)
    requires Focused(a, root, t, path) && t.Node?
    ensures Hangs(a, root, t.id, path)
  {
    assert t.id in Ids(t);
  }

  /** The parent of a node outside all of the path. */
  lemma SocketLink(a: Arena, root: Id, u: Id, path: Path)
    requires PathFits(a, root, path, u) && u != SENTINEL && u !in PathIds(path, |path|) && |path| > 0
    ensures var f := path[|path| - 1];
            && f.id in a && f.id != SENTINEL && u != f.id && a[f.id] == FrameCell(f, u, ParentId(path, |path| - 1))
            && u != IdOf(f.other) && (u == a[f.id].left <==> f.toLeft)
  {
    var f := path[|path| - 1];
    if f.other.Node? {
      assert f.other.id in Ids(f.other);
    }
  }

  // ------------------------------------------------------------------ several steps up or down

  /** The subtree around `t`, from the ancestors between `m` and `n`. */
  function PlugFrom(t: Tree, path: Path, n: nat, m: nat): (t': Tree)
    requires m <= n <= |path|
    ensures m < n ==> t'.Node? && t'.id == path[m].id
    decreases n
  {
    if n == m then t else PlugFrom(Close(path[n - 1], t), path, n - 1, m)
  }

  lemma {:induction false} PlugFromSame(t: Tree, p: Path, q: Path, n: nat, m: nat)
    requires m <= n <= |p| && n <= |q| && forall i :: m <= i < n ==> p[i] == q[i]
    ensures PlugFrom(t, p, n, m) == PlugFrom(t, q, n, m)
    decreases n
  {
    if m < n {
      PlugFromSame(Close(p[n - 1], t), p, q, n - 1, m);
    }
  }

  /** One more ancestor at the bottom. */
  lemma PlugFromDown(t: Tree, path: Path, path': Path, toLeft: bool, m: nat)
    requires m <= |path| && t.Node? && path' == path + [Down(t, toLeft)]
    ensures PlugFrom(Child(t, toLeft), path', |path'|, m) == PlugFrom(t, path, |path|, m)
  {
    assert Close(Down(t, toLeft), Child(t, toLeft)) == t;
    PlugFromSame(t, path, path', |path|, m);
  }

  lemma {:induction false} PlugFromIds(t: Tree, path: Path, n: nat, m: nat)
    requires m <= n <= |path|
    ensures Ids(PlugFrom(t, path, n, m)) <= Ids(t) + PathIds(path, n) && PathIds(path, m) <= PathIds(path, n)
    decreases n
  {
    if m < n {
      CloseIds(path[n - 1], t);
      PlugFromIds(Close(path[n - 1], t), path, n - 1, m);
    }
  }

  /** The focus may move along the path, up and down. */
  lemma {:induction false} FocusRange(a: Arena, root: Id, t: Tree, path: Path, n: nat, m: nat, low: Path, high: Path)
    requires m <= n <= |path| && low == path[..n] && high == path[..m]
    ensures Focused(a, root, t, low) <==> Focused(a, root, PlugFrom(t, path, n, m), high)
    decreases n
  {
    if m < n {
      var up := path[..n - 1];
      assert low == up + [path[n - 1]];
      FocusClose(a, root, t, path[n - 1], up, low);
      FocusRange(a, root, Close(path[n - 1], t), path, n - 1, m, up, high);
    }
  }

  lemma {:induction false} PlugIsFrom(t: Tree, path: Path, n: nat)
    requires n <= |path|
    ensures Plug(t, path, n) == PlugFrom(t, path, n, 0)
    decreases n
  {
    if n > 0 {
      PlugIsFrom(Close(path[n - 1], t), path, n - 1);
    }
  }

  /** The way to a node of the tree. */
  lemma {:induction false} Locate(t: Tree, path: Path, z: Id) returns (zt: Tree, zpath: Path)
    requires z in Ids(t)
    ensures zt.Node? && zt.id == z && PlugFrom(zt, zpath, |zpath|, 0) == PlugFrom(t, path, |path|, 0)
    decreases t
  {
    if t.id == z {
      zt, zpath := t, path;
    } else {
      var toLeft := z in Ids(t.left);
      var below := path + [Down(t, toLeft)];
      PlugFromDown(t, path, below, toLeft, 0);
      zt, zpath := Locate(Child(t, toLeft), below, z);
    }
  }

  /** The parent in focus has this link to the node in focus. */
  lemma ParentLink(a: Arena, root: Id, x: Tree, path: Path)
    requires Focused(a, root, x, path) && |path| > 0
    ensures var f := path[|path| - 1];
            && f.id in a && f.id != SENTINEL && a[f.id] == FrameCell(f, IdOf(x), ParentId(path, |path| - 1))
            && (x.Node? || f.other.Node? ==> IdOf(x) != IdOf(f.other) && (IdOf(x) == a[f.id].left <==> f.toLeft))
            && f.id !in Ids(x) && Linked(a, f.other, f.id)
  {
    var f := path[|path| - 1];
    LinkedIds(a, x, f.id);
    LinkedIds(a, f.other, f.id);
    assert f.id in PathIds(path, |path|);
    if x.Node? {
      assert x.id in Ids(x) && (f.other.Node? ==> f.other.id in Ids(f.other));
    }
  }
}

/**
 Searching a red-black tree, and its iterator, which follows the parent links
 (internal/structures/rb_tree.go:82-99, 304-313, 335-393).
 */
module RbSearch {
  import opened Keys
  import opened Options
  import opened OrderedEntries
  import opened RbLinks
  import opened RbPointers
  import opened RbTree
  import opened Records

  // ------------------------------------------------------------------ LowerBound

  ghost predicate Below(s: seq<Record>, key: Key) { forall i :: 0 <= i < |s| ==> s[i].key < key }

  /** Where the search has come: everything in front is below the key, and the candidate, if any, comes right behind. */
  ghost predicate Sought(x: Tree, path: Path, c: Tree, cpath: Path, front: seq<Record>, key: Key) {
    var b, a := Before(path, |path|), After(path, |path|);
    && Below(b, key) && Sorted(InOrder(x))
    && (if c.Nil? then a == []
        else a == [c.entry] + InOrder(c.right) + After(cpath, |cpath|) && c.entry.key >= key && b + InOrder(x) == front + InOrder(c.left))
  }

  lemma BelowMore(b: seq<Record>, l: seq<Record>, x: Record, r: seq<Record>, key: Key)
    requires Below(b, key) && Sorted(l + [x] + r) && x.key < key
    ensures Below(b + l + [x], key)
  {
    SortedParts(l, x, r);
    var s := b + l + [x];
    forall i | 0 <= i < |s| ensures s[i].key < key {
      if |b| <= i < |b| + |l| {
        assert s[i] == l[i - |b|];
        assert Le(l[i - |b|], x);
      }
    }
  }

  lemma SoughtLeft(x: Tree, path: Path, c: Tree, cpath: Path, front: seq<Record>, key: Key, path': Path)
    requires Sought(x, path, c, cpath, front, key) && x.Node? && x.entry.key >= key && path' == path + [Down(x, true)]
    ensures Sought(x.left, path', x, path, Before(path, |path|), key)
  {
    DownSides(x, path, true, path');
    SortedParts(InOrder(x.left), x.entry, InOrder(x.right));
  }

  lemma Regroup(b: seq<Record>, l: seq<Record>, x: Record, r: seq<Record>)
    ensures b + l + [x] + r == b + (l + [x] + r)
  {
  }

  lemma SoughtRight(x: Tree, path: Path, c: Tree, cpath: Path, front: seq<Record>, key: Key, path': Path)
    requires Sought(x, path, c, cpath, front, key) && x.Node? && x.entry.key < key && path' == path + [Down(x, false)]
    ensures Sought(x.right, path', c, cpath, front, key)
  {
    DownSides(x, path, false, path');
    SortedParts(InOrder(x.left), x.entry, InOrder(x.right));
    BelowMore(Before(path, |path|), InOrder(x.left), x.entry, InOrder(x.right), key);
    Regroup(Before(path, |path|), InOrder(x.left), x.entry, InOrder(x.right));
  }

  /** The second loop: down the left links while they hold the key itself. */
  function Leftmost(c: Tree, key: Key): (r: Tree)
    requires c.Node?
    ensures r.Node?
  {
    if c.left.Node? && c.left.entry.key == key then Leftmost(c.left, key) else c
  }

  /** It never moves: nothing below the candidate to the left has the key any more. */
  lemma LeftmostStays(c: Tree, b: seq<Record>, front: seq<Record>, key: Key)
    requires c.Node? && Below(b, key) && b == front + InOrder(c.left)
    ensures Leftmost(c, key) == c
  {
    if c.left.Node? {
      var k := |front| + |InOrder(c.left.left)|;
      assert b[k] == c.left.entry;
    }
  }

  lemma FoundFirst(b: seq<Record>, a: seq<Record>, key: Key, s: seq<Record>)
    requires s == b + a && Below(b, key) && (a != [] ==> a[0].key >= key)
    ensures CutAt(s, key, |b|) && s[|b|..] == a && FirstNotBelow(s, key, if a == [] then None else Some(a[0]))
  {
    assert a != [] ==> s[|b|] == a[0];
    assert forall j :: 0 <= j < |b| ==> s[j] == b[j];
  }

  /** The search of `LowerBound` and `Seek`: the node of the newest version at the first key not below the target. */
  method Find(tree: RBTree, key: Key) returns (candidate: Id, ghost c: Tree, ghost cpath: Path, ghost k: nat)
    requires tree.Valid()
    ensures candidate == IdOf(c) && (c.Node? ==> Focused(tree.nodes, tree.root, c, cpath))
    ensures CutAt(InOrder(tree.tree), key, k)
    ensures InOrder(tree.tree)[k..] == if c.Nil? then [] else [c.entry] + InOrder(c.right) + After(cpath, |cpath|)
  {
    var node := tree.root;
    candidate := SENTINEL;
    c, cpath := Nil, [];
    ghost var t, path: Path, front: seq<Record> := tree.tree, [], [];
    AroundAll(t);
    while node != SENTINEL
      invariant Focused(tree.nodes, tree.root, t, path) && node == IdOf(t) && candidate == IdOf(c)
      invariant c.Node? ==> Focused(tree.nodes, tree.root, c, cpath)
      invariant Around(t, path) == InOrder(tree.tree) && Sought(t, path, c, cpath, front, key)
      decreases t
    {
      Above(tree.nodes, tree.root, t, path);
      ghost var toLeft := t.entry.key >= key;
      ghost var path' := path + [Down(t, toLeft)];
      FocusDown(tree.nodes, tree.root, t, path, toLeft, path');
      DownInOrder(t, path, toLeft, path');
      if tree.nodes[node].entry.key >= key {
        SoughtLeft(t, path, c, cpath, front, key, path');
        front, c, cpath := Before(path, |path|), t, path;
        candidate := node;
        node := tree.nodes[node].left;
      } else {
        SoughtRight(t, path, c, cpath, front, key, path');
        node := tree.nodes[node].right;
      }
      t, path := Child(t, toLeft), path';
    }
    Above(tree.nodes, tree.root, t, path);
    ghost var b := Before(path, |path|);
    assert b + [] == b;
    EndIsNil(c, tree.nodes, tree.root, cpath);
    if candidate != SENTINEL {
      LeftmostStays(c, b, front, key);
      candidate := GoLeftmost(tree, candidate, key, c, cpath);
    }
    k := |b|;
    FoundFirst(b, After(path, |path|), key, InOrder(tree.tree));
  }

  /** `LowerBound`: the sentinel if there is no such node. */
  method LowerBound(tree: RBTree, key: Key) returns (candidate: Id)
    requires tree.Valid()
    ensures candidate != SENTINEL ==> candidate in tree.nodes && candidate in Ids(tree.tree)
    ensures FirstNotBelow(InOrder(tree.tree), key, if candidate == SENTINEL then None else Some(tree.nodes[candidate].entry))
  {
    ghost var c, path, k;
    candidate, c, path, k := Find(tree, key);
    EndIsNil(c, tree.nodes, tree.root, path);
    ghost var s := InOrder(tree.tree);
    if candidate != SENTINEL {
      Above(tree.nodes, tree.root, c, path);
      FocusedInTree(tree.nodes, tree.root, c, path, tree.tree);
      assert s[k] == s[k..][0] == c.entry;
    } else {
      assert |s[k..]| == 0;
    }
  }

  method GoLeftmost(tree: RBTree, candidate0: Id, key: Key, ghost c0: Tree, ghost path0: Path) returns (candidate: Id)
    requires Focused(tree.nodes, tree.root, c0, path0) && c0.Node? && candidate0 == c0.id
    ensures candidate == Leftmost(c0, key).id
  {
    candidate := candidate0;
    ghost var c, path := c0, path0;
    ChildOf(tree.nodes, tree.root, c, path, true);
    while tree.nodes[candidate].left != SENTINEL && tree.nodes[tree.nodes[candidate].left].entry.key == key
      invariant Focused(tree.nodes, tree.root, c, path) && c.Node? && candidate == c.id && Leftmost(c, key) == Leftmost(c0, key)
      invariant candidate in tree.nodes && tree.nodes[candidate].left == IdOf(c.left) && IdOf(c.left) in tree.nodes
      invariant c.left.Node? ==> c.left.id != SENTINEL && tree.nodes[c.left.id].entry == c.left.entry
      decreases c
    {
      ghost var path' := path + [Down(c, true)];
      FocusDown(tree.nodes, tree.root, c, path, true, path');
      candidate := tree.nodes[candidate].left;
      c, path := c.left, path';
      ChildOf(tree.nodes, tree.root, c, path, true);
    }
  }

  /** A node in focus is one of the tree. */
  lemma FocusedInTree(a: Arena, root: Id, t: Tree, path: Path, tree: Tree)
    requires Focused(a, root, t, path) && Focused(a, root, tree, []) && t.Node?
    ensures t.id in Ids(tree)
  {
    assert path[..|path|] == path;
    FocusTop(a, root, t, path, |path|, path);
    SameTree(a, Plug(t, path, |path|), tree, SENTINEL);
    InPlugged(t, path, |path|);
  }

  /** The links leave only one tree. */
  lemma {:induction false} SameTree(a: Arena, t: Tree, t': Tree, parent: Id)
    requires Linked(a, t, parent) && Linked(a, t', parent) && IdOf(t) == IdOf(t')
    ensures t == t'
  {
    if t.Node? {
      SameTree(a, t.left, t'.left, t.id);
      SameTree(a, t.right, t'.right, t.id);
    }
  }

  lemma {:induction false} InPlugged(t: Tree, path: Path, n: nat)
    requires n <= |path|
    ensures Ids(t) <= Ids(Plug(t, path, n)) && (t.Node? ==> t.id in Ids(t))
    decreases n
  {
    if n > 0 {
      CloseIds(path[n - 1], t);
      InPlugged(Close(path[n - 1], t), path, n - 1);
    }
  }

  // ------------------------------------------------------------------ iterator

  /** The node the iterator stands on; the sentinel behind the last one. */
  class Iterator {
    const tree: RBTree
    var current: Id
    ghost var at: Tree
    ghost var path: Path

    ghost predicate Valid()
      reads this, tree
    {
      tree.Valid() && current == IdOf(at) && (at.Node? ==> Focused(tree.nodes, tree.root, at, path))
    }

    constructor (tree: RBTree)
      requires tree.Valid()
      ensures Valid() && this.tree == tree
    {
      this.tree := tree;
      current, at, path := SENTINEL, Nil, [];
    }

    /** What is still to come, the current entry first. */
    ghost function Remaining(): (s: seq<Record>)
      reads this
    {
      if at.Nil? then [] else [at.entry] + InOrder(at.right) + After(path, |path|)
    }

    /** `Value`. */
    method Value() returns (r: Record)
      requires Valid() && Remaining() != []
      ensures r == Remaining()[0]
    {
      Above(tree.nodes, tree.root, at, path);
      r := tree.nodes[current].entry;
    }

    /** Down the left links from the node. */
    method DescendLeft()
      requires Valid() && at.Node?
      modifies this
      ensures Valid() && Remaining() == old(InOrder(at) + After(path, |path|))
    {
      ChildOf(tree.nodes, tree.root, at, path, true);
      while tree.nodes[current].left != SENTINEL
        invariant Valid() && at.Node? && InOrder(at) + After(path, |path|) == old(InOrder(at) + After(path, |path|))
        invariant current in tree.nodes && tree.nodes[current].left == IdOf(at.left) && (at.left.Node? ==> at.left.id != SENTINEL)
        decreases at
      {
        ghost var below := path + [Down(at, true)];
        FocusDown(tree.nodes, tree.root, at, path, true, below);
        DownLeft(at, path, below);
        current := tree.nodes[current].left;
        at, path := at.left, below;
        ChildOf(tree.nodes, tree.root, at, path, true);
      }
      NoLeft(at);
    }

    /** `SeekToFirst`: everything is to come. */
    method SeekToFirst()
      requires Valid()
      modifies this
      ensures Valid() && Remaining() == InOrder(tree.tree)
    {
      current := tree.root;
      at, path := tree.tree, [];
      Above(tree.nodes, tree.root, at, path);
      if current != SENTINEL {
        DescendLeft();
        assert InOrder(tree.tree) + [] == InOrder(tree.tree);
      }
    }

    /** `Seek`: exactly the entries not below the key are to come. */
    method Seek(key: Key) returns (ghost k: nat)
      requires Valid()
      modifies this
      ensures Valid() && CutAt(InOrder(tree.tree), key, k) && Remaining() == InOrder(tree.tree)[k..]
    {
      current, at, path, k := Find(tree, key);
    }

    /** `Next`: exactly the current entry has gone by; at the end nothing happens. */
    method Next()
      requires Valid()
      modifies this
      ensures Valid()
      ensures old(Remaining()) == [] ==> Remaining() == []
      ensures old(Remaining()) != [] ==> Remaining() == old(Remaining())[1..]
    {
      if current == SENTINEL {
        EndIsNil(at, tree.nodes, tree.root, path);
        return;
      }
      FirstGone(at.entry, InOrder(at.right), After(path, |path|));
      ChildOf(tree.nodes, tree.root, at, path, false);
      if tree.nodes[current].right != SENTINEL {
        ghost var below := path + [Down(at, false)];
        FocusDown(tree.nodes, tree.root, at, path, false, below);
        DownSides(at, path, false, below);
        current := tree.nodes[current].right;
        at, path := at.right, below;
        DescendLeft();
      } else {
        assert [] + After(path, |path|) == After(path, |path|);
        Climb();
      }
    }

    /** Up the parent links, past every ancestor whose right child this was. */
    method Climb()
      requires Valid() && at.Node?
      modifies this
      ensures Valid() && Remaining() == old(After(path, |path|))
    {
      Above(tree.nodes, tree.root, at, path);
      var parent := tree.nodes[current].parent;
      while parent != SENTINEL && current == tree.nodes[parent].right
        invariant Valid() && at.Node? && parent == ParentId(path, |path|) && parent in tree.nodes
        invariant After(path, |path|) == old(After(path, |path|))
        decreases |path|
      {
        parent := MoveUp(parent);
      }
      if parent == SENTINEL {
        AtTop(tree.nodes, tree.root, at, path);
        current, at, path := SENTINEL, Nil, [];
      } else {
        var _ := MoveUp(parent);
      }
    }

    /** To the parent, whose own parent is looked up. */
    method MoveUp(parent: Id) returns (next: Id)
      requires Valid() && at.Node? && parent == ParentId(path, |path|) && parent != SENTINEL && parent in tree.nodes
      modifies this
      ensures Valid() && at.Node? && next == ParentId(path, |path|) && next in tree.nodes && |path| < |old(path)|
      ensures if old(current) == tree.nodes[parent].right then After(path, |path|) == old(After(path, |path|))
              else Remaining() == old(After(path, |path|))
    {
      GoUp(tree.nodes, tree.root, at, path);
      current := parent;
      at, path := Close(path[|path| - 1], at), path[..|path| - 1];
      Above(tree.nodes, tree.root, at, path);
      next := tree.nodes[parent].parent;
    }
  }

  lemma EndIsNil(t: Tree, a: Arena, root: Id, path: Path)
    requires t.Node? ==> Focused(a, root, t, path)
    ensures IdOf(t) == SENTINEL ==> t.Nil?
  {
    if t.Node? {
      Above(a, root, t, path);
    }
  }

  /** Without a parent there are no ancestors. */
  lemma AtTop(a: Arena, root: Id, t: Tree, path: Path)
    requires Focused(a, root, t, path) && ParentId(path, |path|) == SENTINEL
    ensures path == []
  {
    if |path| > 0 {
      ParentLink(a, root, t, path);
    }
  }

  /** One step up: past an ancestor from its right, or to one from its left. */
  lemma GoUp(a: Arena, root: Id, t: Tree, path: Path)
    requires Focused(a, root, t, path) && t.Node? && ParentId(path, |path|) != SENTINEL
    ensures |path| > 0
    ensures var n := |path| - 1; var f := path[n];
            && f.id in a && (t.id == a[f.id].right <==> !f.toLeft)
            && Focused(a, root, Close(f, t), path[..n]) && Close(f, t).id == ParentId(path, |path|)
            && After(path[..n], n) == After(path, n)
            && (f.toLeft ==> [f.entry] + InOrder(Close(f, t).right) + After(path[..n], n) == After(path, |path|))
  {
    var n := |path| - 1;
    ParentLink(a, root, t, path);
    FocusUp(a, root, t, path);
    PathSame(path, path[..n], n);
  }

  lemma FirstGone(e: Record, r: seq<Record>, a: seq<Record>)
    ensures ([e] + r + a)[1..] == r + a
  {
  }

  /** `EntriesInOrder`: the iterator lists exactly the tree's entries, in order. */
  method EntriesInOrder(tree: RBTree) returns (entries: seq<Record>)
    requires tree.Valid()
    ensures entries == InOrder(tree.tree)
  {
    var it := new Iterator(tree);
    it.SeekToFirst();
    entries := [];
    while it.current != SENTINEL
      invariant fresh(it) && it.Valid() && it.tree == tree && entries + it.Remaining() == InOrder(tree.tree)
      decreases |it.Remaining()|
    {
      Taken(entries, it.Remaining());
      var r := it.Value();
      entries := entries + [r];
      it.Next();
    }
    EndIsNil(it.at, tree.nodes, tree.root, it.path);
  }

  lemma Taken(done: seq<Record>, rest: seq<Record>)
    requires rest != []
    ensures done + [rest[0]] + rest[1..] == done + rest
  {
  }
}

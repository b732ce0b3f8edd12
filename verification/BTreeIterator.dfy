/**
 The iterator of the B-tree (internal/structures/b_tree.go:342-441, 476-490): the node it stands on, an index
 in it, and a stack of the nodes above with the index of the entry that comes next there.
 */
module BTreeIterator {
  import opened BTree
  import opened Keys
  import opened Options
  import opened OrderedEntries
  import opened Records

  datatype StackEntry = StackEntry(node: Tree, index: nat)

  /** Every node below has entries, and one child more than entries. */
  ghost predicate Walkable(t: Tree) {
    t.Leaf? || (|t.kids| == |t.data| + 1 && forall i :: 0 <= i < |t.kids| ==> |t.kids[i].data| > 0 && Walkable(t.kids[i]))
  }

  lemma {:induction false} GoodWalkable(t: Tree, deg: nat, h: nat, min: int)
    requires deg >= 2 && Good(t, deg, h, min)
    ensures Walkable(t)
    decreases h
  {
    if t.Node? {
      forall i | 0 <= i < |t.kids| ensures |t.kids[i].data| > 0 && Walkable(t.kids[i]) {
        GoodChild(t, deg, h, min, i);
        GoodWalkable(t.kids[i], deg, h - 1, deg - 1);
      }
    }
  }

  ghost predicate Parent(e: StackEntry) { e.node.Node? && Walkable(e.node) && e.index <= |e.node.data| }

  ghost predicate Parents(stack: seq<StackEntry>) { forall i :: 0 <= i < |stack| ==> Parent(stack[i]) }

  /** What is still to come from the first `n` parents, the last pushed first. */
  ghost function Coming(stack: seq<StackEntry>, n: nat): (s: seq<Record>)
    requires n <= |stack| && Parents(stack)
  {
    if n == 0 then [] else PostFrom(stack[n - 1].node, stack[n - 1].index) + Coming(stack, n - 1)
  }

  lemma {:induction false} ComingSame(a: seq<StackEntry>, b: seq<StackEntry>, n: nat)
    requires n <= |a| && n <= |b| && Parents(a) && Parents(b) && forall i :: 0 <= i < n ==> a[i] == b[i]
    ensures Coming(a, n) == Coming(b, n)
  {
    if n > 0 {
      ComingSame(a, b, n - 1);
    }
  }

  lemma Pushed(stack: seq<StackEntry>, e: StackEntry, stack': seq<StackEntry>)
    requires Parents(stack) && Parent(e) && stack' == stack + [e]
    ensures Parents(stack') && Coming(stack', |stack'|) == PostFrom(e.node, e.index) + Coming(stack, |stack|)
  {
    ComingSame(stack, stack', |stack|);
  }

  lemma Popped(stack: seq<StackEntry>, stack': seq<StackEntry>)
    requires Parents(stack) && stack != [] && stack' == stack[..|stack| - 1]
    ensures Parents(stack')
    ensures Coming(stack, |stack|) == PostFrom(stack[|stack| - 1].node, stack[|stack| - 1].index) + Coming(stack', |stack'|)
  {
    ComingSame(stack, stack', |stack'|);
  }

  /** Entry `i` of a node and what comes behind it there. */
  ghost function From(t: Tree, i: nat): (s: seq<Record>)
    requires Walkable(t) && i <= |t.data|
  {
    if t.Leaf? then t.data[i..] else PostFrom(t, i)
  }

  /** Down to the first child. */
  lemma FirstChild(t: Tree, coming: seq<Record>)
    requires t.Node? && Walkable(t)
    ensures InOrder(t) + coming == InOrder(t.kids[0]) + (PostFrom(t, 0) + coming)
  {
    Focus(t, 0);
    assert [] + InOrder(t.kids[0]) + PostFrom(t, 0) == InOrder(t.kids[0]) + PostFrom(t, 0);
    Regrouped(InOrder(t.kids[0]), PostFrom(t, 0), coming);
  }

  lemma Regrouped(a: seq<Record>, b: seq<Record>, c: seq<Record>)
    ensures a + b + c == a + (b + c)
  {
  }

  lemma NextChild(t: Tree, i: nat, coming: seq<Record>)
    requires t.Node? && Walkable(t) && i < |t.data|
    ensures PostFrom(t, i) + coming == [t.data[i]] + (InOrder(t.kids[i + 1]) + (PostFrom(t, i + 1) + coming))
  {
    Regrouped([t.data[i]] + InOrder(t.kids[i + 1]), PostFrom(t, i + 1), coming);
    Regrouped([t.data[i]], InOrder(t.kids[i + 1]), PostFrom(t, i + 1) + coming);
  }

  lemma AlongLeaf(t: Tree, i: nat, coming: seq<Record>)
    requires t.Leaf? && i < |t.data|
    ensures From(t, i) + coming != [] && (From(t, i) + coming)[1..] == From(t, i + 1) + coming
    ensures i + 1 == |t.data| ==> From(t, i + 1) + coming == coming
  {
    assert t.data[i..] == [t.data[i]] + t.data[i + 1..];
    Regrouped([t.data[i]], t.data[i + 1..], coming);
  }

  lemma DownRight(t: Tree, i: nat, coming: seq<Record>)
    requires t.Node? && Walkable(t) && i < |t.data|
    ensures From(t, i) + coming != [] && (From(t, i) + coming)[1..] == InOrder(t.kids[i + 1]) + (PostFrom(t, i + 1) + coming)
  {
    NextChild(t, i, coming);
    FirstGone(t.data[i], InOrder(t.kids[i + 1]) + (PostFrom(t, i + 1) + coming));
  }

  lemma FirstGone(x: Record, rest: seq<Record>)
    ensures ([x] + rest)[1..] == rest
  {
  }

  // ------------------------------------------------------------------ seeking

  /** The leaf that the descent ends in has an entry that is not before the target. */
  predicate InLeaf(t: Tree, target: Record)
    decreases t
  {
    var i := FirstFrom(t.data, target, 0);
    if t.Leaf? then i < |t.data| else i < |t.kids| && InLeaf(t.kids[i], target)
  }

  /** The first `k` entries come before the target and the next, if there is one, does not. */
  ghost predicate SplitAt(s: seq<Record>, target: Record, k: nat) {
    k <= |s| && (forall i :: 0 <= i < k ==> Cmp(s[i], target) < 0) && (k < |s| ==> Cmp(s[k], target) >= 0)
  }

  /** The descent has come down to `t`. */
  ghost predicate Seeking(s: seq<Record>, t: Tree, before: seq<Record>, coming: seq<Record>, target: Record) {
    && s == before + (InOrder(t) + coming) && Sorted(InOrder(t))
    && (forall i :: 0 <= i < |before| ==> Cmp(before[i], target) < 0) && (coming != [] ==> Cmp(coming[0], target) >= 0)
  }

  lemma SeekDown(s: seq<Record>, t: Tree, i: nat, before: seq<Record>, coming: seq<Record>, before': seq<Record>, coming': seq<Record>, target: Record)
    requires Seeking(s, t, before, coming, target) && t.Node? && Walkable(t) && i == FirstFrom(t.data, target, 0)
    requires before' == before + PreTo(t, i) && coming' == PostFrom(t, i) + coming
    ensures Seeking(s, t.kids[i], before', coming', target)
  {
    var p, c, q := PreTo(t, i), InOrder(t.kids[i]), PostFrom(t, i);
    Focus(t, i);
    SortedMid(p, c, q, InOrder(t));
    Neighbours(t, i);
    AllBefore(p, target);
    Regrouped(p + c, q, coming);
    Regrouped(p, c, q + coming);
    Regrouped(before, p, c + (q + coming));
    assert q == [] ==> coming' == coming;
  }

  lemma SeekLeaf(s: seq<Record>, t: Tree, i: nat, before: seq<Record>, coming: seq<Record>, target: Record, k: nat, inLeaf: bool)
    requires Seeking(s, t, before, coming, target) && t.Leaf? && i == FirstFrom(t.data, target, 0) && k == |before| + i
    requires inLeaf == InLeaf(t, target)
    ensures SplitAt(s, target, k) && From(t, i) + coming == s[k..] && (inLeaf <==> i < |t.data|) && (inLeaf ==> k < |s|)
  {
    forall j | 0 <= j < k ensures Cmp(s[j], target) < 0 {
      assert s[j] == if j < |before| then before[j] else t.data[j - |before|];
    }
    Behind(s, before, t.data, i, coming, k);
  }

  lemma Behind(s: seq<Record>, before: seq<Record>, data: seq<Record>, i: nat, coming: seq<Record>, k: nat)
    requires s == before + (data + coming) && i <= |data| && k == |before| + i
    ensures s[k..] == data[i..] + coming
    ensures k < |s| ==> s[k] == if i < |data| then data[i] else coming[0]
  {
    assert data == data[..i] + data[i..];
  }

  class Iterator {
    const root: Tree
    var node: Option<Tree>
    var index: nat
    var stack: seq<StackEntry>

    ghost predicate Valid()
      reads this
    {
      Parents(stack) && (node.Some? ==> Walkable(node.value) && index <= |node.value.data|)
    }

    /** `Valid` of the original. */
    predicate Standing()
      reads this
    {
      node.Some?
    }

    /** `Key` reads behind the end of the node. */
    predicate Fails()
      reads this
    {
      node.Some? && index >= |node.value.data|
    }

    constructor (root: Tree)
      requires Walkable(root)
      ensures Valid() && this.root == root && !Standing()
    {
      this.root, node, index, stack := root, None, 0, [];
    }

    /** The entries from the current one on. */
    ghost function Remaining(): (s: seq<Record>)
      requires Valid()
      reads this
    {
      if node.None? then [] else From(node.value, index) + Coming(stack, |stack|)
    }

    /** Down the first children to a leaf. */
    method GoLeft(start: Tree)
      requires Valid() && Walkable(start)
      modifies this`node, this`index, this`stack
      ensures Valid() && Standing() && Remaining() == InOrder(start) + Coming(old(stack), |old(stack)|)
      ensures Fails() <==> start == Leaf([])
    {
      var t := start;
      while t.Node?
        invariant Walkable(t) && Parents(stack) && (t == start || |t.data| > 0) && (start.Leaf? ==> t == start)
        invariant InOrder(t) + Coming(stack, |stack|) == InOrder(start) + Coming(old(stack), |old(stack)|)
        decreases t
      {
        FirstChild(t, Coming(stack, |stack|));
        Pushed(stack, StackEntry(t, 0), stack + [StackEntry(t, 0)]);
        stack := stack + [StackEntry(t, 0)];
        t := t.kids[0];
      }
      node, index := Some(t), 0;
      assert t.data[0..] == t.data;
    }

    /** `SeekToFirst`: everything is to come; on an empty tree the iterator stands, and reading its entry fails. */
    method SeekToFirst()
      requires Walkable(root)
      modifies this`node, this`index, this`stack
      ensures Valid() && Standing() && Remaining() == InOrder(root)
      ensures Fails() <==> root == Leaf([])
    {
      stack, node := [], None;
      GoLeft(root);
      assert InOrder(root) + [] == InOrder(root);
    }

    /**
     `Seek`: exactly the entries not before the target are to come, if the leaf at the end of the descent has the first
     of them. If that one lies in an inner node, the iterator is at its end, and all of them are missed.
     */
    method Seek(target: Record) returns (ghost k: nat)
      requires Walkable(root) && Sorted(InOrder(root))
      modifies this`node, this`index, this`stack
      ensures Valid() && !Fails() && SplitAt(InOrder(root), target, k)
      ensures Remaining() == if InLeaf(root, target) then InOrder(root)[k..] else []
      ensures Standing() <==> InLeaf(root, target)
      ensures InLeaf(root, target) ==> k < |InOrder(root)|
    {
      var t;
      ghost var before;
      t, before := Descend(target);
      var i := FirstFrom(t.data, target, 0);
      k := |before| + i;
      ghost var inLeaf := InLeaf(t, target);
      SeekLeaf(InOrder(root), t, i, before, Coming(stack, |stack|), target, k, inLeaf);
      Stand(t, i, inLeaf);
    }

    /** At the entry of the leaf, or at the end. */
    method Stand(t: Tree, i: nat, ghost inLeaf: bool)
      requires Parents(stack) && Walkable(t) && i <= |t.data| && (inLeaf <==> i < |t.data|)
      modifies this`node, this`index
      ensures Valid() && !Fails() && (Standing() <==> inLeaf) && Remaining() == if inLeaf then From(t, i) + Coming(stack, |stack|) else []
    {
      if i < |t.data| {
        node, index := Some(t), i;
      } else {
        node, index := None, 0;
      }
    }

    /** The descent of `Seek`. */
    method Descend(target: Record) returns (t: Tree, ghost before: seq<Record>)
      requires Walkable(root) && Sorted(InOrder(root))
      modifies this`stack
      ensures t.Leaf? && Parents(stack) && InLeaf(t, target) == InLeaf(root, target)
      ensures Seeking(InOrder(root), t, before, Coming(stack, |stack|), target)
    {
      stack, t, before := [], root, [];
      ghost var s, inLeaf := InOrder(root), InLeaf(root, target);
      assert s == [] + (s + []);
      while t.Node?
        invariant Walkable(t) && Parents(stack) && InLeaf(t, target) == inLeaf
        invariant Seeking(s, t, before, Coming(stack, |stack|), target)
        decreases t
      {
        var i := FirstFrom(t.data, target, 0);
        ghost var coming := Coming(stack, |stack|);
        Pushed(stack, StackEntry(t, i), stack + [StackEntry(t, i)]);
        stack := stack + [StackEntry(t, i)];
        SeekDown(s, t, i, before, coming, before + PreTo(t, i), Coming(stack, |stack|), target);
        before := before + PreTo(t, i);
        t := t.kids[i];
      }
    }

    /** Back up to the nearest node above with an entry still to come. */
    method GoUp()
      requires Valid()
      modifies this`node, this`index, this`stack
      ensures Valid() && !Fails() && Remaining() == Coming(old(stack), |old(stack)|)
      ensures Standing() <==> Remaining() != []
    {
      while |stack| > 0
        invariant Parents(stack) && Coming(stack, |stack|) == Coming(old(stack), |old(stack)|)
        decreases |stack|
      {
        var top := stack[|stack| - 1];
        Popped(stack, stack[..|stack| - 1]);
        stack := stack[..|stack| - 1];
        if top.index < |top.node.data| {
          node, index := Some(top.node), top.index;
          return;
        }
      }
      node, index := None, 0;
    }

    /** `Next`: exactly the current entry has gone by; at the end nothing happens. */
    method Next()
      requires Valid() && !Fails()
      modifies this`node, this`index, this`stack
      ensures Valid() && !Fails()
      ensures Remaining() == if old(Remaining()) == [] then [] else old(Remaining())[1..]
      ensures old(Standing()) ==> (Standing() <==> Remaining() != [])
    {
      if node.None? {
        return;
      }
      var t := node.value;
      if t.Node? {
        DownRight(t, index, Coming(stack, |stack|));
        Pushed(stack, StackEntry(t, index + 1), stack + [StackEntry(t, index + 1)]);
        stack := stack + [StackEntry(t, index + 1)];
        GoLeft(t.kids[index + 1]);
        return;
      }
      AlongLeaf(t, index, Coming(stack, |stack|));
      if index + 1 < |t.data| {
        index := index + 1;
        return;
      }
      GoUp();
    }
  }

  /** The iterator from the first entry on lists the in-order sequence; of an empty tree it tries to read an entry. */
  method EntriesInOrder(root: Tree) returns (failed: bool, result: seq<Record>)
    requires Walkable(root)
    ensures failed <==> root == Leaf([])
    ensures !failed ==> result == InOrder(root)
  {
    var it := new Iterator(root);
    it.SeekToFirst();
    result := [];
    if it.Fails() {
      return true, [];
    }
    failed := false;
    result := Rest(it);
  }

  /** Reading and moving on until the end. */
  method Rest(it: Iterator) returns (result: seq<Record>)
    requires it.Valid() && !it.Fails() && (it.Standing() <==> it.Remaining() != [])
    modifies it`node, it`index, it`stack
    ensures result == old(it.Remaining())
  {
    result := [];
    while it.node.Some?
      invariant it.Valid() && !it.Fails() && (it.Standing() <==> it.Remaining() != [])
      invariant result + it.Remaining() == old(it.Remaining())
      decreases |it.Remaining()|
    {
      var r := it.node.value.data[it.index];
      Reads(it.node.value, it.index, Coming(it.stack, |it.stack|));
      NextEntry(result, r, it.Remaining());
      result := result + [r];
      it.Next();
    }
  }

  lemma Reads(t: Tree, i: nat, coming: seq<Record>)
    requires Walkable(t) && i < |t.data|
    ensures From(t, i) + coming != [] && (From(t, i) + coming)[0] == t.data[i]
  {
  }

  lemma NextEntry(done: seq<Record>, x: Record, remaining: seq<Record>)
    requires remaining != [] && remaining[0] == x
    ensures done + [x] + remaining[1..] == done + remaining
  {
    assert [x] + remaining[1..] == remaining;
  }

  /** The entries listed from a target on: those not before it, or none when the first of them lies in an inner node. */
  method EntriesFrom(root: Tree, target: Record) returns (result: seq<Record>, ghost k: nat)
    requires Walkable(root) && Sorted(InOrder(root))
    ensures SplitAt(InOrder(root), target, k) && result == if InLeaf(root, target) then InOrder(root)[k..] else []
    ensures result == InOrder(root)[k..] <==> InLeaf(root, target) || k == |InOrder(root)|
  {
    var it := new Iterator(root);
    k := it.Seek(target);
    result := Rest(it);
  }
}

/**
 The AVL tree of the memtable (internal/structures/avl_tree.go:46-293): insertion, deletion, search and
 the iterator with its stack of parents. Nodes are values; each function returns the node that takes
 the place of the one it was given, as the originals do.
 */
module AvlTree {
  import opened Keys
  import opened Options
  import opened OrderedEntries
  import opened Records

  datatype Tree = Nil | Node(entry: Record, left: Tree, right: Tree, height: int)

  function Height(t: Tree): int { if t.Nil? then 0 else t.height }

  function Max(a: int, b: int): int { if a > b then a else b }

  /** A node with its height set from its children. */
  function Mk(e: Record, l: Tree, r: Tree): Tree { Node(e, l, r, Max(Height(l), Height(r)) + 1) }

  function LeftRotate(x: Tree): Tree {
    if x.Nil? || x.right.Nil? then x
    else Mk(x.right.entry, Mk(x.entry, x.left, x.right.left), x.right.right)
  }

  function RightRotate(x: Tree): Tree {
    if x.Nil? || x.left.Nil? then x
    else Mk(x.left.entry, x.left.left, Mk(x.entry, x.left.right, x.right))
  }

  function LeftRightRotate(x: Tree): Tree {
    if x.Nil? || x.left.Nil? then x else RightRotate(x.(left := LeftRotate(x.left)))
  }

  function RightLeftRotate(x: Tree): Tree {
    if x.Nil? || x.right.Nil? then x else LeftRotate(x.(right := RightRotate(x.right)))
  }

  function Balance(t: Tree): int
    requires t.Node?
  {
    Height(t.left) - Height(t.right)
  }

  /** The end of `insertNode`. */
  function InsertFix(t: Tree, e: Record): Tree
    requires t.Node? && (Balance(t) > 1 ==> t.left.Node?) && (Balance(t) < -1 ==> t.right.Node?)
  {
    if Balance(t) > 1 && Cmp(e, t.left.entry) <= 0 then RightRotate(t)
    else if Balance(t) > 1 then LeftRightRotate(t)
    else if Balance(t) < -1 && Cmp(e, t.right.entry) > 0 then LeftRotate(t)
    else if Balance(t) < -1 then RightLeftRotate(t)
    else t
  }

  /** Stored heights are exact and sibling heights differ by at most one. */
  ghost predicate Balanced(t: Tree) {
    t.Node? ==>
      && t.height == Max(Height(t.left), Height(t.right)) + 1 && -1 <= Balance(t) <= 1
      && Balanced(t.left) && Balanced(t.right)
  }

  function InOrder(t: Tree): seq<Record> {
    if t.Nil? then [] else InOrder(t.left) + [t.entry] + InOrder(t.right)
  }

  // ------------------------------------------------------------------ rotations

  lemma Regroup(a: seq<Record>, b: seq<Record>, c: seq<Record>, x: Record, y: Record)
    ensures a + [x] + (b + [y] + c) == a + [x] + b + [y] + c
  {
  }

  lemma LeftRotateInOrder(x: Tree)
    ensures InOrder(LeftRotate(x)) == InOrder(x)
  {
    if x.Node? && x.right.Node? {
      Regroup(InOrder(x.left), InOrder(x.right.left), InOrder(x.right.right), x.entry, x.right.entry);
    }
  }

  lemma RightRotateInOrder(x: Tree)
    ensures InOrder(RightRotate(x)) == InOrder(x)
  {
    if x.Node? && x.left.Node? {
      Regroup(InOrder(x.left.left), InOrder(x.left.right), InOrder(x.right), x.left.entry, x.entry);
    }
  }

  lemma LeftRightInOrder(x: Tree)
    ensures InOrder(LeftRightRotate(x)) == InOrder(x)
  {
    if x.Node? && x.left.Node? {
      LeftRotateInOrder(x.left);
      RightRotateInOrder(x.(left := LeftRotate(x.left)));
    }
  }

  lemma RightLeftInOrder(x: Tree)
    ensures InOrder(RightLeftRotate(x)) == InOrder(x)
  {
    if x.Node? && x.right.Node? {
      RightRotateInOrder(x.right);
      LeftRotateInOrder(x.(right := RightRotate(x.right)));
    }
  }

  /** A node whose children are balanced and differ by at most two, as after one insertion or deletion below it. */
  ghost predicate Leaning(t: Tree) {
    && t.Node? && t.height == Max(Height(t.left), Height(t.right)) + 1 && Balanced(t.left) && Balanced(t.right)
    && -2 <= Balance(t) <= 2
  }

  lemma {:induction false} HeightPositive(t: Tree)
    requires Balanced(t)
    ensures Height(t) >= 0 && (Height(t) == 0 <==> t.Nil?)
  {
    if t.Node? {
      HeightPositive(t.left);
      HeightPositive(t.right);
    }
  }

  /** The four rotations restore the balance of a node that leans by two. */
  lemma FixRight(t: Tree)
    requires Leaning(t) && Balance(t) == 2
    ensures t.left.Node?
    ensures Balance(t.left) >= 0 ==> Balanced(RightRotate(t)) && Height(RightRotate(t)) == t.height - One(Balance(t.left) > 0)
    ensures Balance(t.left) < 0 ==> Balanced(LeftRightRotate(t)) && Height(LeftRightRotate(t)) == t.height - 1
  {
    HeightPositive(t.left);
    HeightPositive(t.right);
    HeightPositive(t.left.left);
    HeightPositive(t.left.right);
    if Balance(t.left) < 0 {
      HeightPositive(t.left.right.left);
      HeightPositive(t.left.right.right);
    }
  }

  lemma FixLeft(t: Tree)
    requires Leaning(t) && Balance(t) == -2
    ensures t.right.Node?
    ensures Balance(t.right) <= 0 ==> Balanced(LeftRotate(t)) && Height(LeftRotate(t)) == t.height - One(Balance(t.right) < 0)
    ensures Balance(t.right) > 0 ==> Balanced(RightLeftRotate(t)) && Height(RightLeftRotate(t)) == t.height - 1
  {
    HeightPositive(t.left);
    HeightPositive(t.right);
    HeightPositive(t.right.left);
    HeightPositive(t.right.right);
    if Balance(t.right) > 0 {
      HeightPositive(t.right.left.left);
      HeightPositive(t.right.left.right);
    }
  }

  function One(b: bool): int { if b then 1 else 0 }

  // ------------------------------------------------------------------ insertion

  /** `insertNode`. */
  function Insert(t: Tree, e: Record): (t': Tree)
    requires Balanced(t)
    ensures Balanced(t') && t'.Node? && Height(t) <= Height(t') <= Height(t) + 1
    ensures Height(t') > Height(t) && t.Node? ==> Grown(t', e)
  {
    HeightPositive(t);
    if t.Nil? then Node(e, Nil, Nil, 1)
    else if Cmp(e, t.entry) <= 0 then
      var below := Insert(t.left, e);
      InsertFixes(t, e, below);
      InsertFix(Mk(t.entry, below, t.right), e)
    else
      var below := Insert(t.right, e);
      InsertFixes(t, e, below);
      InsertFix(Mk(t.entry, t.left, below), e)
  }

  /** A node that has become higher leans to the side where the entry went. */
  ghost predicate Grown(t: Tree, e: Record) {
    t.Node? && Balance(t) == if Cmp(e, t.entry) <= 0 then 1 else -1
  }

  lemma InsertFixes(t: Tree, e: Record, below: Tree)
    requires t.Node? && Balanced(t) && Balanced(below) && below.Node?
    requires var child := if Cmp(e, t.entry) <= 0 then t.left else t.right;
             && Height(child) <= Height(below) <= Height(child) + 1
             && (Height(below) > Height(child) && child.Node? ==> Grown(below, e))
    ensures var m := if Cmp(e, t.entry) <= 0 then Mk(t.entry, below, t.right) else Mk(t.entry, t.left, below);
            && (Balance(m) > 1 ==> m.left.Node?) && (Balance(m) < -1 ==> m.right.Node?)
            && Balanced(InsertFix(m, e)) && InsertFix(m, e).Node?
            && Height(t) <= Height(InsertFix(m, e)) <= Height(t) + 1
            && (Height(InsertFix(m, e)) > Height(t) ==> Grown(InsertFix(m, e), e))
  {
    HeightPositive(t.left);
    HeightPositive(t.right);
    var m := if Cmp(e, t.entry) <= 0 then Mk(t.entry, below, t.right) else Mk(t.entry, t.left, below);
    if Balance(m) == 2 {
      FixRight(m);
    } else if Balance(m) == -2 {
      FixLeft(m);
    }
  }

  lemma InsertFixInOrder(t: Tree, e: Record)
    requires t.Node? && (Balance(t) > 1 ==> t.left.Node?) && (Balance(t) < -1 ==> t.right.Node?)
    ensures InOrder(InsertFix(t, e)) == InOrder(t)
  {
    RightRotateInOrder(t);
    LeftRightInOrder(t);
    LeftRotateInOrder(t);
    RightLeftInOrder(t);
  }

  /** Position `k` divides the entries into those below `e` and the others. */
  ghost predicate Divides(s: seq<Record>, e: Record, k: nat) {
    && k <= |s| && (forall i :: 0 <= i < k ==> Cmp(e, s[i]) > 0) && (forall i :: k <= i < |s| ==> Cmp(e, s[i]) <= 0)
  }

  lemma DividesLeft(l: seq<Record>, x: Record, r: seq<Record>, e: Record, k: nat)
    requires Sorted(l + [x] + r) && Cmp(e, x) <= 0 && Divides(l, e, k)
    ensures Divides(l + [x] + r, e, k) && Sorted(l) && (l + [x] + r)[..k] + [e] + (l + [x] + r)[k..] == l[..k] + [e] + l[k..] + [x] + r
  {
    var s := l + [x] + r;
    SortedParts(l, x, r);
    assert s[k..] == l[k..] + [x] + r;
  }

  lemma DividesRight(l: seq<Record>, x: Record, r: seq<Record>, e: Record, k: nat)
    requires Sorted(l + [x] + r) && Cmp(e, x) > 0 && Divides(r, e, k)
    ensures var s, n := l + [x] + r, |l| + 1 + k;
            Divides(s, e, n) && Sorted(r) && s[..n] + [e] + s[n..] == l + [x] + (r[..k] + [e] + r[k..])
  {
    var s, n := l + [x] + r, |l| + 1 + k;
    SortedParts(l, x, r);
    assert forall i :: 0 <= i < |l| ==> s[i] == l[i];
    assert s[..n] == l + [x] + r[..k];
    assert s[n..] == r[k..];
  }

  lemma InsertSorts(s: seq<Record>, e: Record, k: nat)
    requires Sorted(s) && Divides(s, e, k)
    ensures Sorted(s[..k] + [e] + s[k..])
  {
  }

  lemma {:induction false} InsertBetween(t: Tree, e: Record) returns (k: nat)
    requires Balanced(t) && Sorted(InOrder(t))
    ensures Divides(InOrder(t), e, k) && InOrder(Insert(t, e)) == InOrder(t)[..k] + [e] + InOrder(t)[k..]
  {
    if t.Nil? {
      k := 0;
    } else {
      var l, r := InOrder(t.left), InOrder(t.right);
      SortedParts(l, t.entry, r);
      if Cmp(e, t.entry) <= 0 {
        k := InsertBetween(t.left, e);
        InsertFixInOrder(Mk(t.entry, Insert(t.left, e), t.right), e);
        DividesLeft(l, t.entry, r, e, k);
      } else {
        var j := InsertBetween(t.right, e);
        InsertFixInOrder(Mk(t.entry, t.left, Insert(t.right, e)), e);
        DividesRight(l, t.entry, r, e, j);
        k := |l| + 1 + j;
      }
    }
  }

  /** Insertion puts the entry in front of everything it does not follow, and changes nothing else. */
  lemma InsertInOrder(t: Tree, e: Record) returns (k: nat)
    requires Balanced(t) && Sorted(InOrder(t))
    ensures Divides(InOrder(t), e, k) && InOrder(Insert(t, e)) == InOrder(t)[..k] + [e] + InOrder(t)[k..]
    ensures Sorted(InOrder(Insert(t, e)))
  {
    k := InsertBetween(t, e);
    InsertSorts(InOrder(t), e, k);
  }

  // ------------------------------------------------------------------ deletion

  /** The end of `deleteNode`. */
  function DeleteFix(t: Tree): Tree
    requires t.Node? && (Balance(t) > 1 ==> t.left.Node?) && (Balance(t) < -1 ==> t.right.Node?)
  {
    if Balance(t) > 1 && Balance(t.left) >= 0 then RightRotate(t)
    else if Balance(t) > 1 then LeftRightRotate(t)
    else if Balance(t) < -1 && Balance(t.right) <= 0 then LeftRotate(t)
    else if Balance(t) < -1 then RightLeftRotate(t)
    else t
  }

  /** The leftmost entry below a node: its successor when taken from the right child. */
  function First(t: Tree): Record
    requires t.Node?
  {
    if t.left.Nil? then t.entry else First(t.left)
  }

  lemma DeleteFixes(t: Tree, h: int)
    requires Leaning(t) && t.height <= h <= t.height + 1
    requires Balance(t) == 2 || Balance(t) == -2 ==> t.height == h
    ensures (Balance(t) > 1 ==> t.left.Node?) && (Balance(t) < -1 ==> t.right.Node?)
    ensures Balanced(DeleteFix(t)) && h - 1 <= Height(DeleteFix(t)) <= h
  {
    if Balance(t) == 2 {
      FixRight(t);
    } else if Balance(t) == -2 {
      FixLeft(t);
    }
  }

  /** `deleteNode`. */
  function Delete(t: Tree, e: Record): (t': Tree)
    requires Balanced(t)
    ensures Balanced(t') && Height(t) - 1 <= Height(t') <= Height(t)
    decreases t, 1
  {
    if t.Nil? then Nil
    else if Cmp(e, t.entry) < 0 then
      var m := Mk(t.entry, Delete(t.left, e), t.right);
      DeleteFixes(m, t.height);
      DeleteFix(m)
    else if Cmp(e, t.entry) > 0 then
      var m := Mk(t.entry, t.left, Delete(t.right, e));
      DeleteFixes(m, t.height);
      DeleteFix(m)
    else DeleteHere(t)
  }

  /** The entry is at this node. */
  function DeleteHere(t: Tree): (t': Tree)
    requires t.Node? && Balanced(t)
    ensures Balanced(t') && Height(t) - 1 <= Height(t') <= Height(t)
    decreases t, 0
  {
    HeightPositive(t.left);
    HeightPositive(t.right);
    if t.left.Nil? then (if t.right.Nil? then Nil else assert DeleteFix(Mk(t.right.entry, t.right.left, t.right.right)) == t.right; t.right)
    else if t.right.Nil? then assert DeleteFix(Mk(t.left.entry, t.left.left, t.left.right)) == t.left; t.left
    else
      var next := First(t.right);
      var m := Mk(next, t.left, Delete(t.right, next));
      DeleteFixes(m, t.height);
      DeleteFix(m)
  }

  lemma DeleteFixInOrder(t: Tree)
    requires t.Node? && (Balance(t) > 1 ==> t.left.Node?) && (Balance(t) < -1 ==> t.right.Node?)
    ensures InOrder(DeleteFix(t)) == InOrder(t)
  {
    RightRotateInOrder(t);
    LeftRightInOrder(t);
    LeftRotateInOrder(t);
    RightLeftInOrder(t);
  }

  lemma {:induction false} FirstIsFirst(t: Tree)
    requires t.Node?
    ensures InOrder(t) != [] && InOrder(t)[0] == First(t)
  {
    if t.left.Node? {
      FirstIsFirst(t.left);
    }
  }

  lemma StrictChildren(t: Tree)
    requires t.Node? && Strict(InOrder(t))
    ensures Strict(InOrder(t.left)) && Strict(InOrder(t.right))
  {
    StrictParts(InOrder(t.left), t.entry, InOrder(t.right), InOrder(t));
  }

  lemma {:induction false} DeleteBelow(t: Tree, e: Record)
    requires t.Node? && Balanced(t)
    ensures Cmp(e, t.entry) < 0 ==> InOrder(Delete(t, e)) == InOrder(Delete(t.left, e)) + [t.entry] + InOrder(t.right)
    ensures Cmp(e, t.entry) > 0 ==> InOrder(Delete(t, e)) == InOrder(t.left) + [t.entry] + InOrder(Delete(t.right, e))
  {
    if Cmp(e, t.entry) != 0 {
      var m := if Cmp(e, t.entry) < 0 then Mk(t.entry, Delete(t.left, e), t.right) else Mk(t.entry, t.left, Delete(t.right, e));
      DeleteFixes(m, t.height);
      DeleteFixInOrder(m);
    }
  }

  lemma {:induction false} DeleteLeft(t: Tree, e: Record, d: seq<Record>, s': seq<Record>, k: int)
    requires t.Node? && Strict(InOrder(t)) && Cmp(e, t.entry) < 0 && Removed(InOrder(t.left), e, d, k)
    requires s' == d + [t.entry] + InOrder(t.right)
    ensures Removed(InOrder(t), e, s', k)
  {
    RemovedLeft(InOrder(t.left), t.entry, InOrder(t.right), InOrder(t), e, d, k);
  }

  lemma {:induction false} DeleteRight(t: Tree, e: Record, d: seq<Record>, s': seq<Record>, k: int)
    requires t.Node? && Strict(InOrder(t)) && Cmp(e, t.entry) > 0 && Removed(InOrder(t.right), e, d, k)
    requires s' == InOrder(t.left) + [t.entry] + d
    ensures Removed(InOrder(t), e, s', if k == -1 then -1 else |InOrder(t.left)| + 1 + k)
  {
    RemovedRight(InOrder(t.left), t.entry, InOrder(t.right), InOrder(t), e, d, k);
  }

  /** Deletion takes away exactly the entry that compares equal, if there is one. */
  lemma {:induction false} DeleteInOrder(t: Tree, e: Record) returns (k: int)
    requires Balanced(t) && Strict(InOrder(t))
    ensures Removed(InOrder(t), e, InOrder(Delete(t, e)), k)
    decreases t, 1
  {
    if t.Nil? {
      k := -1;
    } else {
      StrictChildren(t);
      if Cmp(e, t.entry) < 0 {
        k := DeleteInOrder(t.left, e);
        DeleteBelow(t, e);
        DeleteLeft(t, e, InOrder(Delete(t.left, e)), InOrder(Delete(t, e)), k);
      } else if Cmp(e, t.entry) > 0 {
        var j := DeleteInOrder(t.right, e);
        DeleteBelow(t, e);
        DeleteRight(t, e, InOrder(Delete(t.right, e)), InOrder(Delete(t, e)), j);
        k := if j == -1 then -1 else |InOrder(t.left)| + 1 + j;
      } else {
        DeleteHereInOrder(t);
        RemovedHere(InOrder(t.left), t.entry, InOrder(t.right), InOrder(t), e);
        k := |InOrder(t.left)|;
      }
    }
  }

  lemma HeadFirst(l: seq<Record>, x: Record, r: seq<Record>)
    requires r != [] && r[0] == x
    ensures l + [x] + r[1..] == l + r
  {
    assert [x] + r[1..] == r;
    assert l + [x] + r[1..] == l + ([x] + r[1..]);
  }

  /** At the node itself: its entry goes, the successor taking its place when there are two children. */
  lemma {:induction false} DeleteHereInOrder(t: Tree)
    requires t.Node? && Balanced(t) && Strict(InOrder(t))
    ensures InOrder(DeleteHere(t)) == InOrder(t.left) + InOrder(t.right)
    decreases t, 0
  {
    var l, r := InOrder(t.left), InOrder(t.right);
    StrictChildren(t);
    if t.left.Node? && t.right.Node? {
      var next := First(t.right);
      FirstIsFirst(t.right);
      var k := DeleteInOrder(t.right, next);
      FirstRemoved(r, InOrder(Delete(t.right, next)), k);
      var m := Mk(next, t.left, Delete(t.right, next));
      HeightPositive(t.left);
      HeightPositive(t.right);
      DeleteFixes(m, t.height);
      DeleteFixInOrder(m);
      HeadFirst(l, next, r);
    }
  }

  // ------------------------------------------------------------------ search and iteration

  lemma FirstInLeft(l: seq<Record>, x: Record, r: seq<Record>, key: Key, e: Option<Record>)
    requires x.key >= key && FirstNotBelow(l, key, e)
    ensures FirstNotBelow(l + [x] + r, key, if e.None? then Some(x) else e)
  {
    var s := l + [x] + r;
    assert s[|l|] == x && forall i :: 0 <= i < |l| ==> s[i] == l[i];
    if e.Some? {
      var i :| 0 <= i < |l| && l[i] == e.value && e.value.key >= key && forall j :: 0 <= j < i ==> l[j].key < key;
      assert s[i] == e.value;
    }
  }

  lemma FirstInRight(l: seq<Record>, x: Record, r: seq<Record>, s: seq<Record>, key: Key, e: Option<Record>)
    requires s == l + [x] + r && Sorted(s) && x.key < key && FirstNotBelow(r, key, e)
    ensures FirstNotBelow(s, key, e)
  {
    SortedParts(l, x, r);
    Middle(l, x, r, s);
    if e.Some? {
      var i :| 0 <= i < |r| && r[i] == e.value && e.value.key >= key && forall j :: 0 <= j < i ==> r[j].key < key;
      assert s[|l| + 1 + i] == e.value;
    }
  }

  /** What the descent of `LowerBound` ends with, from a candidate on. */
  function Descend(t: Tree, key: Key, candidate: Option<Record>): Option<Record> {
    if t.Nil? then candidate
    else if t.entry.key >= key then Descend(t.left, key, Some(t.entry))
    else Descend(t.right, key, candidate)
  }

  lemma {:induction false} DescendFinds(t: Tree, key: Key, candidate: Option<Record>)
    requires Sorted(InOrder(t))
    ensures exists e :: FirstNotBelow(InOrder(t), key, e) && Descend(t, key, candidate) == if e.None? then candidate else e
  {
    if t.Nil? {
      assert FirstNotBelow(InOrder(t), key, None);
    } else {
      var l, r := InOrder(t.left), InOrder(t.right);
      SortedParts(l, t.entry, r);
      if t.entry.key >= key {
        DescendFinds(t.left, key, Some(t.entry));
        var e :| FirstNotBelow(l, key, e) && Descend(t.left, key, Some(t.entry)) == if e.None? then Some(t.entry) else e;
        FirstInLeft(l, t.entry, r, key, e);
      } else {
        DescendFinds(t.right, key, candidate);
        var e :| FirstNotBelow(r, key, e) && Descend(t.right, key, candidate) == if e.None? then candidate else e;
        FirstInRight(l, t.entry, r, InOrder(t), key, e);
      }
    }
  }

  /** `LowerBound`. */
  method LowerBound(root: Tree, key: Key) returns (candidate: Option<Record>)
    requires Sorted(InOrder(root))
    ensures FirstNotBelow(InOrder(root), key, candidate)
  {
    var node := root;
    candidate := None;
    while node.Node?
      invariant Descend(node, key, candidate) == Descend(root, key, None)
      decreases node
    {
      if node.entry.key >= key {
        candidate, node := Some(node.entry), node.left;
      } else {
        node := node.right;
      }
    }
    DescendFinds(root, key, None);
  }

  /** A parent on the iterator's stack, and whether the way down went to its left. */
  datatype StackEntry = StackEntry(node: Tree, cameFromLeft: bool)

  /** A node's entry and all that follows below it. */
  function FromNode(t: Tree): seq<Record> {
    if t.Nil? then [] else [t.entry] + InOrder(t.right)
  }

  /** What is still to come from the first `n` parents, the last pushed first. */
  function Coming(stack: seq<StackEntry>, n: nat): seq<Record>
    requires n <= |stack|
  {
    if n == 0 then []
    else (if stack[n - 1].cameFromLeft then FromNode(stack[n - 1].node) else []) + Coming(stack, n - 1)
  }

  lemma {:induction false} ComingSame(a: seq<StackEntry>, b: seq<StackEntry>, n: nat)
    requires n <= |a| && n <= |b| && forall i :: 0 <= i < n ==> a[i] == b[i]
    ensures Coming(a, n) == Coming(b, n)
  {
    if n > 0 {
      ComingSame(a, b, n - 1);
    }
  }

  /** One parent more on the stack. */
  lemma Pushed(stack: seq<StackEntry>, e: StackEntry, stack': seq<StackEntry>)
    requires stack' == stack + [e]
    ensures Coming(stack', |stack'|) == (if e.cameFromLeft then FromNode(e.node) else []) + Coming(stack, |stack|)
  {
    ComingSame(stack, stack', |stack|);
  }

  lemma LeftStep(t: Tree, coming: seq<Record>)
    requires t.Node?
    ensures InOrder(t) + coming == InOrder(t.left) + (FromNode(t) + coming)
  {
    Associates(InOrder(t.left), [t.entry], InOrder(t.right), coming);
  }

  lemma Associates(a: seq<Record>, b: seq<Record>, c: seq<Record>, d: seq<Record>)
    ensures a + b + c + d == a + (b + c + d)
  {
  }

  lemma DropHead(x: Record, r: seq<Record>, coming: seq<Record>)
    ensures ([x] + r + coming)[1..] == r + coming
  {
  }

  /** What a seek leaves on the stack of the node it found: the node itself, when it has a left child. */
  function Stale(found: Tree): seq<Record> {
    if found.Node? && found.left.Node? then FromNode(found) else []
  }

  /** A seek has come down to `t`, with `found` the last node not below the key and `rest` what follows that node. */
  ghost predicate Seeking(s: seq<Record>, t: Tree, found: Tree, before: seq<Record>, rest: seq<Record>, coming: seq<Record>, key: Key) {
    && s == before + InOrder(t) + (FromNode(found) + rest) && (forall i :: 0 <= i < |before| ==> before[i].key < key)
    && coming == Stale(found) + rest && (found.Node? ==> found.entry.key >= key)
    && (found.Node? && t.Node? ==> found.left.Node?) && (found.Nil? ==> rest == [])
  }

  lemma SeekStart(root: Tree, key: Key)
    ensures Seeking(InOrder(root), root, Nil, [], [], [], key)
  {
  }

  lemma SeekLeft(s: seq<Record>, t: Tree, found: Tree, before: seq<Record>, rest: seq<Record>, coming: seq<Record>, coming': seq<Record>, key: Key)
    requires Seeking(s, t, found, before, rest, coming, key) && t.Node? && t.entry.key >= key && coming' == Stale(t) + coming
    ensures Seeking(s, t.left, t, before, coming, coming', key)
  {
    assert coming == FromNode(found) + rest;
    LeftStep(t, coming);
    MoveInto(before, InOrder(t), coming, InOrder(t.left), FromNode(t));
  }

  lemma MoveInto(before: seq<Record>, all: seq<Record>, coming: seq<Record>, l: seq<Record>, from: seq<Record>)
    requires all + coming == l + (from + coming)
    ensures before + all + coming == before + l + (from + coming)
  {
    assert before + all + coming == before + (all + coming);
    assert before + l + (from + coming) == before + (l + (from + coming));
  }

  lemma SeekRight(s: seq<Record>, t: Tree, found: Tree, before: seq<Record>, rest: seq<Record>, coming: seq<Record>, key: Key, before': seq<Record>)
    requires Seeking(s, t, found, before, rest, coming, key) && t.Node? && t.entry.key < key && Sorted(s)
    requires before' == before + (InOrder(t.left) + [t.entry])
    ensures Seeking(s, t.right, found, before', rest, coming, key)
  {
    var l, r, behind := InOrder(t.left), InOrder(t.right), FromNode(found) + rest;
    assert before + (l + [t.entry] + r) + behind == before' + r + behind;
    assert s[|before| + |l|] == t.entry;
    forall i | 0 <= i < |before'| ensures before'[i].key < key {
      assert s[i] == before'[i];
      assert i >= |before| && i < |before| + |l| ==> Le(s[i], s[|before| + |l|]);
    }
  }

  lemma SeekEnd(s: seq<Record>, found: Tree, before: seq<Record>, rest: seq<Record>, coming: seq<Record>, key: Key)
    requires Seeking(s, Nil, found, before, rest, coming, key)
    ensures CutAt(s, key, |before|) && (found.Node? <==> |before| < |s|)
    ensures found.Node? ==> FromNode(found) <= s[|before|..]
    ensures found.Node? ==> FromNode(found) + coming == FromNode(found) + Stale(found) + s[|before|..][|FromNode(found)|..]
    ensures found.Node? ==> (FromNode(found) + coming == s[|before|..] <==> found.left.Nil?)
  {
    var from := FromNode(found);
    assert s == before + (from + rest);
    CutBehind(s, before, from, rest, key);
    if found.Node? {
      Repeated(s[|before|..], from, Stale(found), rest);
    }
  }

  lemma CutBehind(s: seq<Record>, before: seq<Record>, from: seq<Record>, rest: seq<Record>, key: Key)
    requires s == before + (from + rest) && (forall i :: 0 <= i < |before| ==> before[i].key < key)
    requires if from == [] then rest == [] else from[0].key >= key
    ensures CutAt(s, key, |before|) && s[|before|..] == from + rest
  {
    assert from != [] ==> s[|before|] == from[0];
  }

  lemma Repeated(all: seq<Record>, from: seq<Record>, stale: seq<Record>, rest: seq<Record>)
    requires all == from + rest && (stale == [] || stale == from) && from != []
    ensures from <= all && from + (stale + rest) == from + stale + all[|from|..]
    ensures from + (stale + rest) == all <==> stale == []
  {
    if stale == [] {
      assert stale + rest == rest;
    } else {
      assert |from + (stale + rest)| == |all| + |from|;
    }
  }

  class Iterator {
    var root: Tree
    var current: Tree
    var stack: seq<StackEntry>

    /** Parents are nodes. */
    ghost predicate Valid()
      reads this
    {
      forall i :: 0 <= i < |stack| ==> stack[i].node.Node?
    }

    constructor (root: Tree)
      ensures Valid() && this.root == root && current == Nil
    {
      this.root, current, stack := root, Nil, [];
    }

    /** The entries from the current one on. */
    function Remaining(): seq<Record>
      reads this
    {
      if current.Nil? then [] else FromNode(current) + Coming(stack, |stack|)
    }

    /** Down to the leftmost node, noting the parents. */
    method GoLeft(start: Tree)
      requires start.Node? && Valid()
      modifies this`current, this`stack
      ensures Valid() && current.Node? && Remaining() == InOrder(start) + Coming(old(stack), |old(stack)|)
    {
      var node := start;
      while node.left.Node?
        invariant node.Node? && Valid()
        invariant InOrder(node) + Coming(stack, |stack|) == InOrder(start) + Coming(old(stack), |old(stack)|)
        decreases node
      {
        LeftStep(node, Coming(stack, |stack|));
        Pushed(stack, StackEntry(node, true), stack + [StackEntry(node, true)]);
        stack := stack + [StackEntry(node, true)];
        node := node.left;
      }
      LeftStep(node, Coming(stack, |stack|));
      assert InOrder(node.left) == [];
      current := node;
    }

    method SeekToFirst()
      modifies this`current, this`stack
      ensures Valid() && Remaining() == InOrder(root)
    {
      stack, current := [], Nil;
      if root.Node? {
        GoLeft(root);
        assert InOrder(root) + [] == InOrder(root);
      }
    }

    /**
     `Seek`: the iterator stands on the first entry not below the key. What follows is the rest of the tree if and only
     if the node found has no left child; otherwise that node and what is below it on its right come up a second time.
     */
    method Seek(key: Key) returns (ghost k: nat)
      requires Sorted(InOrder(root))
      modifies this`current, this`stack
      ensures Valid() && CutAt(InOrder(root), key, k) && (current.Nil? <==> k == |InOrder(root)|)
      ensures current.Node? ==> FromNode(current) <= InOrder(root)[k..]
      ensures current.Node? ==> Remaining() == FromNode(current) + Stale(current) + InOrder(root)[k..][|FromNode(current)|..]
      ensures Remaining() == InOrder(root)[k..] <==> current.Nil? || current.left.Nil?
    {
      stack, current := [], Nil;
      var node := root;
      ghost var before, rest: seq<Record> := [], [];
      SeekStart(root, key);
      while node.Node?
        invariant Valid() && Seeking(InOrder(root), node, current, before, rest, Coming(stack, |stack|), key)
        decreases node
      {
        ghost var coming := Coming(stack, |stack|);
        if node.entry.key >= key {
          if node.left.Node? {
            Pushed(stack, StackEntry(node, true), stack + [StackEntry(node, true)]);
            stack := stack + [StackEntry(node, true)];
          }
          assert Coming(stack, |stack|) == Stale(node) + coming;
          SeekLeft(InOrder(root), node, current, before, rest, coming, Coming(stack, |stack|), key);
          rest := coming;
          current, node := node, node.left;
        } else {
          if node.right.Node? {
            Pushed(stack, StackEntry(node, false), stack + [StackEntry(node, false)]);
            stack := stack + [StackEntry(node, false)];
          }
          assert Coming(stack, |stack|) == coming;
          ghost var before' := before + (InOrder(node.left) + [node.entry]);
          SeekRight(InOrder(root), node, current, before, rest, coming, key, before');
          before := before';
          node := node.right;
        }
      }
      k := |before|;
      SeekEnd(InOrder(root), current, before, rest, Coming(stack, |stack|), key);
    }

    /** Back up to the nearest parent reached from its left. */
    method GoUp()
      requires Valid()
      modifies this`current, this`stack
      ensures Valid() && Remaining() == Coming(old(stack), |old(stack)|)
    {
      while |stack| > 0
        invariant Valid() && Coming(stack, |stack|) == Coming(old(stack), |old(stack)|)
        decreases |stack|
      {
        var n := |stack| - 1;
        var entry := stack[n];
        ComingSame(stack, stack[..n], n);
        stack := stack[..n];
        if entry.cameFromLeft {
          current := entry.node;
          return;
        }
      }
      current := Nil;
    }

    method Next()
      requires Valid()
      modifies this`current, this`stack
      ensures Valid()
      ensures Remaining() == if old(Remaining()) == [] then [] else old(Remaining())[1..]
    {
      if current.Nil? {
        return;
      }
      DropHead(current.entry, InOrder(current.right), Coming(stack, |stack|));
      if current.right.Node? {
        Pushed(stack, StackEntry(current, false), stack + [StackEntry(current, false)]);
        stack := stack + [StackEntry(current, false)];
        GoLeft(current.right);
        return;
      }
      GoUp();
    }
  }

  /** `EntriesInOrder`: the iterator from the first entry on lists exactly the in-order sequence. */
  method EntriesInOrder(root: Tree) returns (result: seq<Record>)
    ensures result == InOrder(root)
  {
    var it := new Iterator(root);
    it.SeekToFirst();
    result := [];
    while it.current.Node?
      invariant it.Valid() && result + it.Remaining() == InOrder(root)
      decreases |it.Remaining()|
    {
      NextEntry(result, it.current.entry, it.Remaining());
      result := result + [it.current.entry];
      it.Next();
    }
  }

  lemma NextEntry(done: seq<Record>, x: Record, remaining: seq<Record>)
    requires remaining != [] && remaining[0] == x
    ensures done + [x] + remaining[1..] == done + remaining
  {
    HeadFirst(done, x, remaining);
  }

  /** The entries listed from a key on: those not below it if and only if the first of them has no left child. */
  method EntriesFrom(root: Tree, key: Key) returns (result: seq<Record>, ghost k: nat, ghost found: Tree)
    requires Sorted(InOrder(root))
    ensures CutAt(InOrder(root), key, k) && (found.Nil? <==> k == |InOrder(root)|)
    ensures found.Node? ==> FromNode(found) <= InOrder(root)[k..]
    ensures result == if found.Nil? then [] else FromNode(found) + Stale(found) + InOrder(root)[k..][|FromNode(found)|..]
    ensures result == InOrder(root)[k..] <==> found.Nil? || found.left.Nil?
  {
    var it := new Iterator(root);
    k := it.Seek(key);
    found := it.current;
    ghost var all := it.Remaining();
    result := [];
    while it.current.Node?
      invariant it.Valid() && result + it.Remaining() == all
      decreases |it.Remaining()|
    {
      NextEntry(result, it.current.entry, it.Remaining());
      result := result + [it.current.entry];
      it.Next();
    }
  }
}

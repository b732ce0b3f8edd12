/**
 The B-tree of the memtable (internal/structures/b_tree.go:45-75, 109-315): insertion with splitting,
 deletion with borrowing and merging, search. Nodes are values; each function returns the node that
 the original leaves in place of the one it works on.
 */
module BTree {
  import opened Keys
  import opened Options
  import opened OrderedEntries
  import opened Records

  datatype Tree = Leaf(data: seq<Record>) | Node(data: seq<Record>, kids: seq<Tree>)

  // ------------------------------------------------------------------ contents

  /** One child more than entries. */
  ghost predicate Regular(t: Tree) { t.Node? ==> |t.kids| == |t.data| + 1 }

  /** The entries below the first `n` children, each with the entry behind it. */
  ghost function PreTo(t: Tree, n: nat): (s: seq<Record>)
    requires t.Node? && n <= |t.data| && n <= |t.kids|
    decreases t, n
  {
    if n == 0 then [] else PreTo(t, n - 1) + InOrder(t.kids[n - 1]) + [t.data[n - 1]]
  }

  /** `inOrder`. */
  ghost function InOrder(t: Tree): (s: seq<Record>)
    decreases t, |t.data| + 1
  {
    match t
    case Leaf(data) => data
    case Node(data, kids) => if |kids| == |data| + 1 then PreTo(t, |data|) + InOrder(kids[|data|]) else []
  }

  /** Entry `n` and everything behind it. */
  ghost function PostFrom(t: Tree, n: nat): (s: seq<Record>)
    requires t.Node? && Regular(t) && n <= |t.data|
    decreases |t.data| - n
  {
    if n == |t.data| then [] else [t.data[n]] + InOrder(t.kids[n + 1]) + PostFrom(t, n + 1)
  }

  lemma Move(p: seq<Record>, c: seq<Record>, x: seq<Record>, d: seq<Record>, q: seq<Record>)
    ensures p + c + (x + d + q) == p + c + x + d + q
  {
  }

  /** Everything before child `i`, the child, everything behind it. */
  lemma {:induction false} Focus(t: Tree, i: nat)
    requires t.Node? && Regular(t) && i <= |t.data|
    ensures InOrder(t) == PreTo(t, i) + InOrder(t.kids[i]) + PostFrom(t, i)
    decreases |t.data| - i
  {
    if i == |t.data| {
      assert InOrder(t) + [] == InOrder(t);
    } else {
      Focus(t, i + 1);
      Move(PreTo(t, i), InOrder(t.kids[i]), [t.data[i]], InOrder(t.kids[i + 1]), PostFrom(t, i + 1));
    }
  }

  lemma {:induction false} PreSame(a: Tree, b: Tree, n: nat)
    requires a.Node? && b.Node? && n <= |a.data| && n <= |a.kids| && n <= |b.data| && n <= |b.kids|
    requires forall i :: 0 <= i < n ==> a.data[i] == b.data[i] && a.kids[i] == b.kids[i]
    ensures PreTo(a, n) == PreTo(b, n)
  {
    if n > 0 {
      PreSame(a, b, n - 1);
    }
  }

  lemma {:induction false} PostSame(a: Tree, b: Tree, m: nat, n: nat)
    requires a.Node? && b.Node? && Regular(a) && Regular(b) && m <= |a.data| && n <= |b.data|
    requires a.data[m..] == b.data[n..] && a.kids[m + 1..] == b.kids[n + 1..]
    ensures PostFrom(a, m) == PostFrom(b, n)
    decreases |a.data| - m
  {
    assert |a.data[m..]| == |a.data| - m && |b.data[n..]| == |b.data| - n;
    if m < |a.data| {
      assert a.data[m] == a.data[m..][0] == b.data[n..][0] == b.data[n];
      assert a.kids[m + 1] == a.kids[m + 1..][0] == b.kids[n + 1..][0] == b.kids[n + 1];
      assert a.data[m + 1..] == a.data[m..][1..] == b.data[n..][1..] == b.data[n + 1..];
      assert a.kids[m + 2..] == a.kids[m + 1..][1..] == b.kids[n + 1..][1..] == b.kids[n + 2..];
      PostSame(a, b, m + 1, n + 1);
    }
  }

  // ------------------------------------------------------------------ shape

  /** All leaves at depth `h`, and every node regular. */
  ghost predicate Uniform(t: Tree, h: nat)
    decreases t
  {
    match t
    case Leaf(_) => h == 0
    case Node(data, kids) => h > 0 && |kids| == |data| + 1 && forall i :: 0 <= i < |kids| ==> Uniform(kids[i], h - 1)
  }

  /** At least `min` entries here, at most 2·deg-1, and deg-1 to 2·deg-1 in every node below. */
  ghost predicate Sized(t: Tree, deg: nat, min: int)
    decreases t
  {
    && min <= |t.data| <= 2 * deg - 1
    && (t.Node? ==> forall i :: 0 <= i < |t.kids| ==> Sized(t.kids[i], deg, deg - 1))
  }

  ghost predicate Good(t: Tree, deg: nat, h: nat, min: int) { Uniform(t, h) && Sized(t, deg, min) }

  lemma GoodChild(t: Tree, deg: nat, h: nat, min: int, i: nat)
    requires Good(t, deg, h, min) && t.Node? && i <= |t.data|
    ensures h > 0 && Regular(t) && Good(t.kids[i], deg, h - 1, deg - 1)
  {
  }

  /** A node with one child exchanged. */
  function WithKid(t: Tree, i: nat, c: Tree): Tree
    requires t.Node? && i < |t.kids|
  {
    Node(t.data, t.kids[i := c])
  }

  lemma WithKidGood(t: Tree, deg: nat, h: nat, min: int, i: nat, c: Tree)
    requires Good(t, deg, h, min) && t.Node? && i <= |t.data| && h > 0 && Good(c, deg, h - 1, deg - 1)
    ensures Good(WithKid(t, i, c), deg, h, min)
  {
  }

  lemma WithKidInOrder(t: Tree, i: nat, c: Tree)
    requires t.Node? && Regular(t) && i <= |t.data|
    ensures InOrder(WithKid(t, i, c)) == PreTo(t, i) + InOrder(c) + PostFrom(t, i)
  {
    var t' := WithKid(t, i, c);
    Focus(t', i);
    PreSame(t, t', i);
    PostSame(t, t', i, i);
  }

  // ------------------------------------------------------------------ splitting

  function LowerHalf(c: Tree, deg: nat): Tree
    requires 0 < deg <= |c.data| && (c.Node? ==> deg <= |c.kids|)
  {
    match c case Leaf(d) => Leaf(d[..deg - 1]) case Node(d, k) => Node(d[..deg - 1], k[..deg])
  }

  function UpperHalf(c: Tree, deg: nat): Tree
    requires 0 < deg <= |c.data| && (c.Node? ==> deg <= |c.kids|)
  {
    match c case Leaf(d) => Leaf(d[deg..]) case Node(d, k) => Node(d[deg..], k[deg..])
  }

  /** `splitChild`: the median moves up between the two halves of child `i`. */
  function SplitChild(t: Tree, i: nat, deg: nat): Tree
    requires t.Node? && Regular(t) && i <= |t.data| && 0 < deg <= |t.kids[i].data| && Regular(t.kids[i])
  {
    var c := t.kids[i];
    Node(t.data[..i] + [c.data[deg - 1]] + t.data[i..],
         t.kids[..i] + [LowerHalf(c, deg), UpperHalf(c, deg)] + t.kids[i + 1..])
  }

  lemma LowerInOrder(c: Tree, deg: nat, lo: Tree)
    requires c.Node? && Regular(c) && 0 < deg <= |c.data| && lo == LowerHalf(c, deg)
    ensures InOrder(lo) == PreTo(c, deg - 1) + InOrder(c.kids[deg - 1])
  {
    PreSame(c, lo, deg - 1);
  }

  lemma UpperInOrder(c: Tree, deg: nat, hi: Tree)
    requires c.Node? && Regular(c) && 0 < deg <= |c.data| && hi == UpperHalf(c, deg)
    ensures InOrder(hi) == InOrder(c.kids[deg]) + PostFrom(c, deg)
  {
    FocusFirst(hi);
    assert hi.kids[0] == c.kids[deg];
    assert c.kids[deg + 1..] == hi.kids[1..];
    PostSame(c, hi, deg, 0);
  }

  lemma FocusFirst(t: Tree)
    requires t.Node? && Regular(t)
    ensures InOrder(t) == InOrder(t.kids[0]) + PostFrom(t, 0)
  {
    Focus(t, 0);
    assert [] + InOrder(t.kids[0]) == InOrder(t.kids[0]);
  }

  /** A full node is its two halves with the median between. */
  lemma HalvesInOrder(c: Tree, deg: nat)
    requires 0 < deg <= |c.data| && Regular(c)
    ensures InOrder(c) == InOrder(LowerHalf(c, deg)) + [c.data[deg - 1]] + InOrder(UpperHalf(c, deg))
  {
    if c.Leaf? {
      assert c.data == c.data[..deg - 1] + [c.data[deg - 1]] + c.data[deg..];
    } else {
      LowerInOrder(c, deg, LowerHalf(c, deg));
      UpperInOrder(c, deg, UpperHalf(c, deg));
      Focus(c, deg - 1);
      HalvesMeet(PreTo(c, deg - 1), InOrder(c.kids[deg - 1]), c.data[deg - 1], InOrder(c.kids[deg]), PostFrom(c, deg));
    }
  }

  lemma HalvesMeet(p: seq<Record>, a: seq<Record>, x: Record, b: seq<Record>, q: seq<Record>)
    ensures p + a + ([x] + b + q) == p + a + [x] + (b + q)
  {
  }

  /** Around a split nothing changes. */
  lemma SplitAround(t: Tree, i: nat, deg: nat, t': Tree)
    requires t.Node? && Regular(t) && i <= |t.data| && 0 < deg <= |t.kids[i].data| && Regular(t.kids[i]) && t' == SplitChild(t, i, deg)
    ensures Regular(t') && |t'.data| == |t.data| + 1
    ensures t'.kids[i] == LowerHalf(t.kids[i], deg) && t'.data[i] == t.kids[i].data[deg - 1] && t'.kids[i + 1] == UpperHalf(t.kids[i], deg)
    ensures PreTo(t', i) == PreTo(t, i) && PostFrom(t', i + 1) == PostFrom(t, i)
  {
    PreSame(t, t', i);
    assert t'.data[i + 1..] == t.data[i..];
    assert t'.kids[i + 2..] == t.kids[i + 1..];
    PostSame(t, t', i, i + 1);
  }

  /** Splitting a child leaves the contents as they are. */
  lemma SplitInOrder(t: Tree, i: nat, deg: nat)
    requires t.Node? && Regular(t) && i <= |t.data| && 0 < deg <= |t.kids[i].data| && Regular(t.kids[i])
    ensures InOrder(SplitChild(t, i, deg)) == InOrder(t)
  {
    var t', c := SplitChild(t, i, deg), t.kids[i];
    SplitAround(t, i, deg, t');
    Focus(t, i);
    Focus(t', i);
    HalvesInOrder(c, deg);
    SplitParts(PreTo(t, i), InOrder(LowerHalf(c, deg)), c.data[deg - 1], InOrder(UpperHalf(c, deg)), PostFrom(t, i));
  }

  lemma SplitParts(p: seq<Record>, a: seq<Record>, x: Record, b: seq<Record>, q: seq<Record>)
    ensures p + (a + [x] + b) + q == p + a + ([x] + b + q)
  {
  }

  /** The halves of a full node, and the node above them. */
  lemma SplitGood(t: Tree, i: nat, deg: nat, h: nat, min: int)
    requires deg >= 2 && Good(t, deg, h, min) && t.Node? && i <= |t.data| < 2 * deg - 1 && Regular(t)
    requires |t.kids[i].data| == 2 * deg - 1 && Regular(t.kids[i])
    ensures Good(SplitChild(t, i, deg), deg, h, min + 1)
    ensures Good(LowerHalf(t.kids[i], deg), deg, h - 1, deg - 1) && |LowerHalf(t.kids[i], deg).data| == deg - 1
    ensures Good(UpperHalf(t.kids[i], deg), deg, h - 1, deg - 1) && |UpperHalf(t.kids[i], deg).data| == deg - 1
  {
    var c := t.kids[i];
    assert Good(c, deg, h - 1, deg - 1);
    var t' := SplitChild(t, i, deg);
    assert forall j :: 0 <= j < |t'.kids| ==> t'.kids[j] == (if j < i then t.kids[j] else if j == i then LowerHalf(c, deg)
                                                             else if j == i + 1 then UpperHalf(c, deg) else t.kids[j - 1]);
  }

  // ------------------------------------------------------------------ insertion

  /** The scan from the right in `insertNonFull`: behind the last entry that `e` is not below. */
  function Slot(data: seq<Record>, e: Record, n: nat): (k: nat)
    requires n <= |data|
    ensures k <= n && (k > 0 ==> Cmp(e, data[k - 1]) >= 0) && forall i :: k <= i < n ==> Cmp(e, data[i]) < 0
  {
    if n > 0 && Cmp(e, data[n - 1]) < 0 then Slot(data, e, n - 1) else n
  }

  /** The node to descend from, its full child split first, and the child to descend to. */
  function Prepared(t: Tree, e: Record, deg: nat): (r: (Tree, nat))
    requires deg > 0 && t.Node? && Regular(t) && forall i :: 0 <= i < |t.kids| ==> Regular(t.kids[i])
    ensures r.0.Node? && Regular(r.0) && r.1 <= |r.0.data|
  {
    var i := Slot(t.data, e, |t.data|);
    if |t.kids[i].data| == 2 * deg - 1 then
      var t' := SplitChild(t, i, deg);
      (t', if Cmp(e, t'.data[i]) > 0 then i + 1 else i)
    else (t, i)
  }

  lemma GoodRegular(t: Tree, deg: nat, h: nat, min: int)
    requires Good(t, deg, h, min)
    ensures Regular(t) && (t.Node? ==> forall i :: 0 <= i < |t.kids| ==> Regular(t.kids[i]))
  {
    if t.Node? {
      forall i | 0 <= i < |t.kids| ensures Regular(t.kids[i]) {
        assert Uniform(t.kids[i], h - 1);
      }
    }
  }

  /** The child to descend to has room, and the node above it is as it should be. */
  lemma PreparedGood(t: Tree, e: Record, deg: nat, h: nat, min: int)
    requires deg >= 2 && Good(t, deg, h, min) && t.Node? && |t.data| < 2 * deg - 1
    requires Regular(t) && forall i :: 0 <= i < |t.kids| ==> Regular(t.kids[i])
    ensures var r := Prepared(t, e, deg);
            h > 0 && Good(r.0, deg, h, min) && Good(r.0.kids[r.1], deg, h - 1, deg - 1) && |r.0.kids[r.1].data| < 2 * deg - 1
  {
    var i := Slot(t.data, e, |t.data|);
    GoodChild(t, deg, h, min, i);
    if |t.kids[i].data| == 2 * deg - 1 {
      SplitGood(t, i, deg, h, min);
      SplitAround(t, i, deg, SplitChild(t, i, deg));
    }
  }

  /** `insertNonFull`. */
  function InsertNonFull(t: Tree, e: Record, deg: nat, ghost h: nat, ghost min: int): (t': Tree)
    requires deg >= 2 && Good(t, deg, h, min) && |t.data| < 2 * deg - 1
    ensures Good(t', deg, h, min) && |t.data| <= |t'.data|
    decreases h
  {
    GoodRegular(t, deg, h, min);
    match t
    case Leaf(data) =>
      var k := Slot(data, e, |data|);
      Leaf(data[..k] + [e] + data[k..])
    case Node(data, kids) =>
      PreparedGood(t, e, deg, h, min);
      var (p, i) := Prepared(t, e, deg);
      var c := InsertNonFull(p.kids[i], e, deg, h - 1, deg - 1);
      WithKidGood(p, deg, h, min, i, c);
      WithKid(p, i, c)
  }

  /** `Insert`: a full root is first put under a new one. */
  function InsertRoot(root: Tree, e: Record, deg: nat, ghost h: nat): (r: Tree)
    requires deg >= 2 && Good(root, deg, h, 0)
    ensures exists h': nat :: h <= h' <= h + 1 && Good(r, deg, h', 0)
  {
    GoodRegular(root, deg, h, 0);
    if |root.data| == 2 * deg - 1 then
      var top := Node([], [root]);
      RootGood(root, deg, h);
      SplitGood(top, 0, deg, h + 1, 0);
      InsertNonFull(SplitChild(top, 0, deg), e, deg, h + 1, 0)
    else InsertNonFull(root, e, deg, h, 0)
  }

  lemma RootGood(root: Tree, deg: nat, h: nat)
    requires Good(root, deg, h, 0) && |root.data| == 2 * deg - 1 && deg >= 2
    ensures Good(Node([], [root]), deg, h + 1, 0) && Regular(Node([], [root]))
  {
    assert Sized(root, deg, deg - 1);
  }

  /** The entries next to child `i`. */
  lemma Neighbours(t: Tree, i: nat)
    requires t.Node? && Regular(t) && i <= |t.data|
    ensures PreTo(t, i) == [] <==> i == 0
    ensures i > 0 ==> PreTo(t, i)[|PreTo(t, i)| - 1] == t.data[i - 1]
    ensures PostFrom(t, i) == [] <==> i == |t.data|
    ensures i < |t.data| ==> PostFrom(t, i)[0] == t.data[i]
  {
  }

  /** An entry that belongs between its neighbours belongs below child `i`. */
  lemma BetweenAt(t: Tree, i: nat, e: Record)
    requires t.Node? && Regular(t) && i <= |t.data| && Sorted(InOrder(t))
    requires (i > 0 ==> Le(t.data[i - 1], e)) && (i < |t.data| ==> Le(e, t.data[i]))
    ensures Between(PreTo(t, i), e, PostFrom(t, i)) && Sorted(InOrder(t.kids[i]))
  {
    Focus(t, i);
    SortedMid(PreTo(t, i), InOrder(t.kids[i]), PostFrom(t, i), InOrder(t));
    Neighbours(t, i);
    BetweenEnds(PreTo(t, i), e, PostFrom(t, i));
  }

  /** The child that was prepared is where the entry belongs, and preparing changes no contents. */
  lemma PreparedPlace(t: Tree, e: Record, deg: nat)
    requires deg > 0 && t.Node? && Regular(t) && (forall i :: 0 <= i < |t.kids| ==> Regular(t.kids[i])) && Sorted(InOrder(t))
    ensures var r := Prepared(t, e, deg);
            && InOrder(r.0) == InOrder(t) && (r.1 > 0 ==> Le(r.0.data[r.1 - 1], e)) && (r.1 < |r.0.data| ==> Le(e, r.0.data[r.1]))
  {
    var i := Slot(t.data, e, |t.data|);
    if i > 0 {
      LeIsCmp(t.data[i - 1], e);
      LeIsCmp(e, t.data[i - 1]);
    }
    if i < |t.data| {
      LeIsCmp(e, t.data[i]);
    }
    if |t.kids[i].data| == 2 * deg - 1 {
      SplitInOrder(t, i, deg);
      SplitPlace(t, e, deg, i, SplitChild(t, i, deg));
    }
  }

  /** The middle entry, now at `i`, decides between the two halves. */
  lemma SplitPlace(t: Tree, e: Record, deg: nat, i: nat, t': Tree)
    requires deg > 0 && t.Node? && Regular(t) && i <= |t.data| && |t.kids[i].data| == 2 * deg - 1 && Regular(t.kids[i])
    requires t' == SplitChild(t, i, deg)
    requires (i > 0 ==> Le(t.data[i - 1], e)) && (i < |t.data| ==> Le(e, t.data[i]))
    ensures t'.Node? && i < |t'.data|
    ensures Cmp(e, t'.data[i]) > 0 ==> Le(t'.data[i], e) && (i + 1 < |t'.data| ==> Le(e, t'.data[i + 1]))
    ensures Cmp(e, t'.data[i]) <= 0 ==> Le(e, t'.data[i]) && (i > 0 ==> Le(t'.data[i - 1], e))
  {
    SplitAround(t, i, deg, t');
    LeIsCmp(e, t'.data[i]);
    LeIsCmp(t'.data[i], e);
  }

  lemma SlotInserts(data: seq<Record>, e: Record)
    requires Sorted(data)
    ensures var k := Slot(data, e, |data|); Inserted(data, e, data[..k] + [e] + data[k..], k)
  {
    var k := Slot(data, e, |data|);
    var a, b := data[..k], data[k..];
    if k > 0 {
      LeIsCmp(e, data[k - 1]);
      LeIsCmp(data[k - 1], e);
    }
    if k < |data| {
      LeIsCmp(e, data[k]);
    }
    BetweenEnds(a, e, b);
  }

  /** The in-order sequence gains exactly the new entry, where it belongs. */
  lemma {:induction false} InsertNonFullInOrder(t: Tree, e: Record, deg: nat, h: nat, min: int) returns (k: nat)
    requires deg >= 2 && Good(t, deg, h, min) && |t.data| < 2 * deg - 1 && Sorted(InOrder(t))
    ensures Inserted(InOrder(t), e, InOrder(InsertNonFull(t, e, deg, h, min)), k)
    decreases h
  {
    GoodRegular(t, deg, h, min);
    if t.Leaf? {
      SlotInserts(t.data, e);
      k := Slot(t.data, e, |t.data|);
    } else {
      PreparedGood(t, e, deg, h, min);
      PreparedPlace(t, e, deg);
      var (p, i) := Prepared(t, e, deg);
      BetweenAt(p, i, e);
      var j := InsertNonFullInOrder(p.kids[i], e, deg, h - 1, deg - 1);
      k := InsertBelow(p, i, e, InsertNonFull(p.kids[i], e, deg, h - 1, deg - 1), j);
    }
  }

  /** A change below child `i` that inserts is one that inserts in the whole. */
  lemma InsertBelow(p: Tree, i: nat, e: Record, c: Tree, j: nat) returns (k: nat)
    requires p.Node? && Regular(p) && i <= |p.data| && Between(PreTo(p, i), e, PostFrom(p, i))
    requires Inserted(InOrder(p.kids[i]), e, InOrder(c), j)
    ensures Inserted(InOrder(p), e, InOrder(WithKid(p, i, c)), k)
  {
    Focus(p, i);
    WithKidInOrder(p, i, c);
    InsertedMid(PreTo(p, i), InOrder(p.kids[i]), PostFrom(p, i), e, InOrder(c), j);
    k := |PreTo(p, i)| + j;
  }

  lemma InsertInOrder(root: Tree, e: Record, deg: nat, h: nat) returns (k: nat)
    requires deg >= 2 && Good(root, deg, h, 0) && Sorted(InOrder(root))
    ensures Inserted(InOrder(root), e, InOrder(InsertRoot(root, e, deg, h)), k) && Sorted(InOrder(InsertRoot(root, e, deg, h)))
  {
    GoodRegular(root, deg, h, 0);
    if |root.data| == 2 * deg - 1 {
      var top := Node([], [root]);
      RootGood(root, deg, h);
      SplitGood(top, 0, deg, h + 1, 0);
      SplitInOrder(top, 0, deg);
      Focus(top, 0);
      assert PreTo(top, 0) == [] && PostFrom(top, 0) == [];
      assert [] + InOrder(root) + [] == InOrder(root);
      k := InsertNonFullInOrder(SplitChild(top, 0, deg), e, deg, h + 1, 0);
    } else {
      k := InsertNonFullInOrder(root, e, deg, h, 0);
    }
    InsertedSorted(InOrder(root), e, InOrder(InsertRoot(root, e, deg, h)), k);
  }

  // ------------------------------------------------------------------ borrowing and merging

  /** Two neighbouring nodes of a kind. */
  ghost predicate Siblings(l: Tree, r: Tree) { (l.Node? <==> r.Node?) && Regular(l) && Regular(r) }

  /** `merge` of two children with the entry between them. */
  function Joined(l: Tree, m: Record, r: Tree): Tree {
    if l.Node? && r.Node? then Node(l.data + [m] + r.data, l.kids + r.kids) else Leaf(l.data + [m] + r.data)
  }

  lemma JoinedInOrder(l: Tree, m: Record, r: Tree)
    requires Siblings(l, r)
    ensures InOrder(Joined(l, m, r)) == InOrder(l) + [m] + InOrder(r) && Regular(Joined(l, m, r))
  {
    if l.Node? {
      var t, n := Joined(l, m, r), |l.data|;
      PreSame(l, t, n);
      Focus(t, n);
      assert t.kids[n] == l.kids[n] && t.kids[n + 1] == r.kids[0];
      assert t.data[n + 1..] == r.data[0..];
      assert t.kids[n + 2..] == r.kids[1..];
      PostSame(t, r, n + 1, 0);
      FocusFirst(r);
      JoinedParts(PreTo(l, n), InOrder(l.kids[n]), m, InOrder(r.kids[0]), PostFrom(r, 0));
    }
  }

  lemma JoinedParts(p: seq<Record>, a: seq<Record>, x: Record, b: seq<Record>, q: seq<Record>)
    ensures p + a + ([x] + b + q) == p + a + [x] + (b + q)
  {
  }

  function DropLast(t: Tree): Tree
    requires |t.data| > 0 && (t.Node? ==> |t.kids| > 0)
  {
    match t case Leaf(d) => Leaf(d[..|d| - 1]) case Node(d, k) => Node(d[..|d| - 1], k[..|k| - 1])
  }

  function DropFirst(t: Tree): Tree
    requires |t.data| > 0 && (t.Node? ==> |t.kids| > 0)
  {
    match t case Leaf(d) => Leaf(d[1..]) case Node(d, k) => Node(d[1..], k[1..])
  }

  /** `m` and the last child of `l`, in front of `r`. */
  function PushFront(m: Record, l: Tree, r: Tree): Tree {
    if l.Node? && r.Node? && |l.kids| > 0 then Node([m] + r.data, [l.kids[|l.kids| - 1]] + r.kids) else Leaf([m] + r.data)
  }

  /** `m` and the first child of `r`, behind `l`. */
  function PushBack(l: Tree, m: Record, r: Tree): Tree {
    if l.Node? && r.Node? && |r.kids| > 0 then Node(l.data + [m], l.kids + [r.kids[0]]) else Leaf(l.data + [m])
  }

  /** Moving an entry through the parent leaves the joined node as it is. */
  lemma BorrowPrevJoins(l: Tree, m: Record, r: Tree)
    requires Siblings(l, r) && |l.data| > 0
    ensures Siblings(DropLast(l), PushFront(m, l, r))
    ensures Joined(DropLast(l), l.data[|l.data| - 1], PushFront(m, l, r)) == Joined(l, m, r)
  {
    var x := l.data[|l.data| - 1];
    assert l.data[..|l.data| - 1] + [x] + ([m] + r.data) == l.data + [m] + r.data;
    if l.Node? {
      assert l.kids[..|l.kids| - 1] + ([l.kids[|l.kids| - 1]] + r.kids) == l.kids + r.kids;
    }
  }

  lemma BorrowNextJoins(l: Tree, m: Record, r: Tree)
    requires Siblings(l, r) && |r.data| > 0
    ensures Siblings(PushBack(l, m, r), DropFirst(r))
    ensures Joined(PushBack(l, m, r), r.data[0], DropFirst(r)) == Joined(l, m, r)
  {
    assert l.data + [m] + [r.data[0]] + r.data[1..] == l.data + [m] + r.data;
    if l.Node? {
      assert l.kids + [r.kids[0]] + r.kids[1..] == l.kids + r.kids;
    }
  }

  lemma BorrowPrevInOrder(l: Tree, m: Record, r: Tree)
    requires Siblings(l, r) && |l.data| > 0
    ensures InOrder(DropLast(l)) + [l.data[|l.data| - 1]] + InOrder(PushFront(m, l, r)) == InOrder(l) + [m] + InOrder(r)
  {
    BorrowPrevJoins(l, m, r);
    JoinedInOrder(l, m, r);
    JoinedInOrder(DropLast(l), l.data[|l.data| - 1], PushFront(m, l, r));
  }

  lemma BorrowNextInOrder(l: Tree, m: Record, r: Tree)
    requires Siblings(l, r) && |r.data| > 0
    ensures InOrder(PushBack(l, m, r)) + [r.data[0]] + InOrder(DropFirst(r)) == InOrder(l) + [m] + InOrder(r)
  {
    BorrowNextJoins(l, m, r);
    JoinedInOrder(l, m, r);
    JoinedInOrder(PushBack(l, m, r), r.data[0], DropFirst(r));
  }

  /** Children `i` and `i+1` and the entry between them exchanged. */
  function WithPair(t: Tree, i: nat, l: Tree, m: Record, r: Tree): Tree
    requires t.Node? && i < |t.data| && i + 1 < |t.kids|
  {
    Node(t.data[i := m], t.kids[i := l][i + 1 := r])
  }

  /** `merge` in the parent. */
  function WithJoined(t: Tree, i: nat, c: Tree): Tree
    requires t.Node? && i < |t.data| && i + 1 < |t.kids|
  {
    Node(t.data[..i] + t.data[i + 1..], t.kids[..i] + [c] + t.kids[i + 2..])
  }

  lemma PairFocus(t: Tree, i: nat)
    requires t.Node? && Regular(t) && i < |t.data|
    ensures InOrder(t) == PreTo(t, i) + (InOrder(t.kids[i]) + [t.data[i]] + InOrder(t.kids[i + 1])) + PostFrom(t, i + 1)
  {
    Focus(t, i);
    SplitParts(PreTo(t, i), InOrder(t.kids[i]), t.data[i], InOrder(t.kids[i + 1]), PostFrom(t, i + 1));
  }

  lemma WithPairInOrder(t: Tree, i: nat, l: Tree, m: Record, r: Tree)
    requires t.Node? && Regular(t) && i < |t.data|
    requires InOrder(l) + [m] + InOrder(r) == InOrder(t.kids[i]) + [t.data[i]] + InOrder(t.kids[i + 1])
    ensures Regular(WithPair(t, i, l, m, r)) && InOrder(WithPair(t, i, l, m, r)) == InOrder(t)
  {
    var t' := WithPair(t, i, l, m, r);
    PairFocus(t, i);
    PairFocus(t', i);
    PreSame(t, t', i);
    assert t'.data[i + 1..] == t.data[i + 1..];
    assert t'.kids[i + 2..] == t.kids[i + 2..];
    PostSame(t, t', i + 1, i + 1);
  }

  lemma WithJoinedAround(t: Tree, i: nat, c: Tree, t': Tree)
    requires t.Node? && Regular(t) && i < |t.data| && t' == WithJoined(t, i, c)
    ensures Regular(t') && |t'.data| == |t.data| - 1 && t'.kids[i] == c
    ensures PreTo(t', i) == PreTo(t, i) && PostFrom(t', i) == PostFrom(t, i + 1)
  {
    PreSame(t, t', i);
    assert t'.data[i..] == t.data[i + 1..];
    assert t'.kids[i + 1..] == t.kids[i + 2..];
    PostSame(t', t, i, i + 1);
  }

  lemma WithJoinedInOrder(t: Tree, i: nat, c: Tree)
    requires t.Node? && Regular(t) && i < |t.data|
    requires InOrder(c) == InOrder(t.kids[i]) + [t.data[i]] + InOrder(t.kids[i + 1])
    ensures Regular(WithJoined(t, i, c)) && InOrder(WithJoined(t, i, c)) == InOrder(t)
  {
    WithJoinedAround(t, i, c, WithJoined(t, i, c));
    PairFocus(t, i);
    Focus(WithJoined(t, i, c), i);
  }

  // ------------------------------------------------------------------ shapes of these steps

  lemma GoodSiblings(t: Tree, deg: nat, h: nat, min: int, i: nat)
    requires deg >= 2 && Good(t, deg, h, min) && t.Node? && i < |t.data|
    ensures h > 0 && Regular(t) && Siblings(t.kids[i], t.kids[i + 1])
    ensures Good(t.kids[i], deg, h - 1, deg - 1) && Good(t.kids[i + 1], deg, h - 1, deg - 1)
  {
    GoodRegular(t, deg, h, min);
    assert Uniform(t.kids[i], h - 1) && Uniform(t.kids[i + 1], h - 1);
  }

  lemma JoinedGood(l: Tree, m: Record, r: Tree, deg: nat, h: nat)
    requires deg >= 2 && Siblings(l, r) && Good(l, deg, h, deg - 1) && Good(r, deg, h, deg - 1)
    requires |l.data| == deg - 1 && |r.data| == deg - 1
    ensures Good(Joined(l, m, r), deg, h, deg) && |Joined(l, m, r).data| == 2 * deg - 1
  {
  }

  lemma BorrowPrevGood(l: Tree, m: Record, r: Tree, deg: nat, h: nat)
    requires deg >= 2 && Siblings(l, r) && Good(l, deg, h, deg) && Good(r, deg, h, deg - 1) && |r.data| == deg - 1
    ensures Good(DropLast(l), deg, h, deg - 1) && Good(PushFront(m, l, r), deg, h, deg)
  {
  }

  lemma BorrowNextGood(l: Tree, m: Record, r: Tree, deg: nat, h: nat)
    requires deg >= 2 && Siblings(l, r) && Good(r, deg, h, deg) && Good(l, deg, h, deg - 1) && |l.data| == deg - 1
    ensures Good(DropFirst(r), deg, h, deg - 1) && Good(PushBack(l, m, r), deg, h, deg)
  {
  }

  lemma WithPairGood(t: Tree, deg: nat, h: nat, min: int, i: nat, l: Tree, m: Record, r: Tree)
    requires Good(t, deg, h, min) && t.Node? && h > 0 && i < |t.data|
    requires Good(l, deg, h - 1, deg - 1) && Good(r, deg, h - 1, deg - 1)
    ensures Good(WithPair(t, i, l, m, r), deg, h, min)
  {
  }

  lemma WithJoinedGood(t: Tree, deg: nat, h: nat, min: int, i: nat, c: Tree)
    requires Good(t, deg, h, min) && t.Node? && h > 0 && i < |t.data| && Good(c, deg, h - 1, deg - 1)
    ensures Good(WithJoined(t, i, c), deg, h, min - 1)
  {
    var t' := WithJoined(t, i, c);
    assert forall j :: 0 <= j < |t'.kids| ==> t'.kids[j] == (if j < i then t.kids[j] else if j == i then c else t.kids[j + 1]);
  }

  // ------------------------------------------------------------------ filling a child

  /** `merge` of children `i` and `i+1`. */
  function Merge(t: Tree, i: nat): Tree
    requires t.Node? && i < |t.data| && i + 1 < |t.kids|
  {
    WithJoined(t, i, Joined(t.kids[i], t.data[i], t.kids[i + 1]))
  }

  /** `borrowFromPrev`, for child `i+1`. */
  function BorrowFromPrev(t: Tree, i: nat): Tree
    requires t.Node? && i < |t.data| && i + 1 < |t.kids| && |t.kids[i].data| > 0 && Regular(t.kids[i])
  {
    var l, r := t.kids[i], t.kids[i + 1];
    WithPair(t, i, DropLast(l), l.data[|l.data| - 1], PushFront(t.data[i], l, r))
  }

  /** `borrowFromNext`, for child `i`. */
  function BorrowFromNext(t: Tree, i: nat): Tree
    requires t.Node? && i < |t.data| && i + 1 < |t.kids| && |t.kids[i + 1].data| > 0 && Regular(t.kids[i + 1])
  {
    var l, r := t.kids[i], t.kids[i + 1];
    WithPair(t, i, PushBack(l, t.data[i], r), r.data[0], DropFirst(r))
  }

  /** Every child can lend and merge. */
  ghost predicate Fillable(t: Tree) {
    t.Node? && Regular(t) && |t.data| > 0 && forall i :: 0 <= i < |t.kids| ==> |t.kids[i].data| > 0 && Regular(t.kids[i])
  }

  /** `fill`: borrow from a neighbour that can spare an entry, or else merge with one. */
  function Fill(t: Tree, i: nat, deg: nat): (t': Tree)
    requires Fillable(t) && i <= |t.data|
  {
    if i > 0 && |t.kids[i - 1].data| >= deg then BorrowFromPrev(t, i - 1)
    else if i < |t.kids| - 1 && |t.kids[i + 1].data| >= deg then BorrowFromNext(t, i)
    else if i < |t.kids| - 1 then Merge(t, i)
    else Merge(t, i - 1)
  }

  lemma GoodFillable(t: Tree, deg: nat, h: nat, min: int)
    requires deg >= 2 && Good(t, deg, h, min) && t.Node? && |t.data| > 0
    ensures Fillable(t)
  {
    GoodRegular(t, deg, h, min);
    forall i | 0 <= i < |t.kids| ensures |t.kids[i].data| > 0 {
      assert Sized(t.kids[i], deg, deg - 1);
    }
  }

  lemma MergeGood(t: Tree, deg: nat, h: nat, min: int, i: nat)
    requires deg >= 2 && Good(t, deg, h, min) && t.Node? && i < |t.data| && Regular(t)
    requires |t.kids[i].data| < deg && |t.kids[i + 1].data| < deg
    ensures Good(Merge(t, i), deg, h, min - 1) && InOrder(Merge(t, i)) == InOrder(t)
    ensures Good(Joined(t.kids[i], t.data[i], t.kids[i + 1]), deg, h - 1, deg)
  {
    GoodSiblings(t, deg, h, min, i);
    JoinedGood(t.kids[i], t.data[i], t.kids[i + 1], deg, h - 1);
    JoinedInOrder(t.kids[i], t.data[i], t.kids[i + 1]);
    WithJoinedGood(t, deg, h, min, i, Joined(t.kids[i], t.data[i], t.kids[i + 1]));
    WithJoinedInOrder(t, i, Joined(t.kids[i], t.data[i], t.kids[i + 1]));
  }

  lemma PrevGood(t: Tree, deg: nat, h: nat, min: int, i: nat)
    requires deg >= 2 && Good(t, deg, h, min) && t.Node? && i < |t.data| && Regular(t)
    requires |t.kids[i].data| >= deg && |t.kids[i + 1].data| < deg && Regular(t.kids[i])
    ensures Good(BorrowFromPrev(t, i), deg, h, min) && InOrder(BorrowFromPrev(t, i)) == InOrder(t)
    ensures Good(BorrowFromPrev(t, i).kids[i + 1], deg, h - 1, deg)
  {
    GoodSiblings(t, deg, h, min, i);
    var l, m, r := t.kids[i], t.data[i], t.kids[i + 1];
    BorrowPrevGood(l, m, r, deg, h - 1);
    BorrowPrevInOrder(l, m, r);
    WithPairGood(t, deg, h, min, i, DropLast(l), l.data[|l.data| - 1], PushFront(m, l, r));
    WithPairInOrder(t, i, DropLast(l), l.data[|l.data| - 1], PushFront(m, l, r));
  }

  lemma NextGood(t: Tree, deg: nat, h: nat, min: int, i: nat)
    requires deg >= 2 && Good(t, deg, h, min) && t.Node? && i < |t.data| && Regular(t)
    requires |t.kids[i].data| < deg && |t.kids[i + 1].data| >= deg && Regular(t.kids[i + 1])
    ensures Good(BorrowFromNext(t, i), deg, h, min) && InOrder(BorrowFromNext(t, i)) == InOrder(t)
    ensures Good(BorrowFromNext(t, i).kids[i], deg, h - 1, deg)
  {
    GoodSiblings(t, deg, h, min, i);
    var l, m, r := t.kids[i], t.data[i], t.kids[i + 1];
    BorrowNextGood(l, m, r, deg, h - 1);
    BorrowNextInOrder(l, m, r);
    WithPairGood(t, deg, h, min, i, PushBack(l, m, r), r.data[0], DropFirst(r));
    WithPairInOrder(t, i, PushBack(l, m, r), r.data[0], DropFirst(r));
  }

  /** The node to descend from, its child filled first if it is short, and the child to descend to. */
  function Readied(t: Tree, i: nat, deg: nat): (r: (Tree, nat))
    requires Fillable(t) && i <= |t.data|
  {
    var t' := if |t.kids[i].data| < deg then Fill(t, i, deg) else t;
    (t', if i > |t'.data| then i - 1 else i)
  }

  lemma FillGood(t: Tree, i: nat, deg: nat, h: nat, min: int)
    requires deg >= 2 && Good(t, deg, h, min) && Fillable(t) && i <= |t.data| && |t.kids[i].data| < deg
    ensures var t' := Fill(t, i, deg);
            && t'.Node? && Regular(t') && Good(t', deg, h, min - 1) && InOrder(t') == InOrder(t) && h > 0
            && Good(t'.kids[if i > |t'.data| then i - 1 else i], deg, h - 1, deg)
  {
    GoodChild(t, deg, h, min, i);
    if i > 0 && |t.kids[i - 1].data| >= deg {
      BorrowedPrev(t, i, deg, h, min);
    } else if i < |t.kids| - 1 && |t.kids[i + 1].data| >= deg {
      BorrowedNext(t, i, deg, h, min);
    } else {
      MergedGood(t, if i < |t.kids| - 1 then i else i - 1, deg, h, min);
    }
  }

  lemma BorrowedPrev(t: Tree, i: nat, deg: nat, h: nat, min: int)
    requires deg >= 2 && Good(t, deg, h, min) && Fillable(t) && 0 < i <= |t.data| && |t.kids[i].data| < deg
    requires |t.kids[i - 1].data| >= deg
    ensures var t' := BorrowFromPrev(t, i - 1);
            && t'.Node? && Regular(t') && |t'.data| == |t.data| && Good(t', deg, h, min - 1) && InOrder(t') == InOrder(t) && h > 0
            && Good(t'.kids[i], deg, h - 1, deg)
  {
    PrevGood(t, deg, h, min, i - 1);
  }

  lemma BorrowedNext(t: Tree, i: nat, deg: nat, h: nat, min: int)
    requires deg >= 2 && Good(t, deg, h, min) && Fillable(t) && i < |t.data| && |t.kids[i].data| < deg
    requires |t.kids[i + 1].data| >= deg
    ensures var t' := BorrowFromNext(t, i);
            && t'.Node? && Regular(t') && |t'.data| == |t.data| && Good(t', deg, h, min - 1) && InOrder(t') == InOrder(t) && h > 0
            && Good(t'.kids[i], deg, h - 1, deg)
  {
    NextGood(t, deg, h, min, i);
  }

  lemma MergedGood(t: Tree, i: nat, deg: nat, h: nat, min: int)
    requires deg >= 2 && Good(t, deg, h, min) && Fillable(t) && i < |t.data| && |t.kids[i].data| < deg && |t.kids[i + 1].data| < deg
    ensures var t' := Merge(t, i);
            && t'.Node? && Regular(t') && |t'.data| == |t.data| - 1 && Good(t', deg, h, min - 1) && InOrder(t') == InOrder(t) && h > 0
            && Good(t'.kids[i], deg, h - 1, deg)
  {
    MergeGood(t, deg, h, min, i);
  }

  lemma ReadiedGood(t: Tree, i: nat, deg: nat, h: nat, min: int)
    requires deg >= 2 && Good(t, deg, h, min) && Fillable(t) && i <= |t.data|
    ensures var r := Readied(t, i, deg);
            && h > 0 && r.0.Node? && Regular(r.0) && r.1 <= |r.0.data| && Good(r.0, deg, h, min - 1)
            && Good(r.0.kids[r.1], deg, h - 1, deg) && InOrder(r.0) == InOrder(t)
  {
    if |t.kids[i].data| < deg {
      FillGood(t, i, deg, h, min);
    } else {
      GoodChild(t, deg, h, min, i);
    }
  }

  // ------------------------------------------------------------------ deletion

  /** The scan of `delete`: the first entry that `e` is not above. */
  function Position(data: seq<Record>, e: Record, i: nat): (k: nat)
    requires i <= |data|
    ensures i <= k <= |data| && (forall j :: i <= j < k ==> Cmp(e, data[j]) > 0) && (k < |data| ==> Cmp(e, data[k]) <= 0)
    decreases |data| - i
  {
    if i < |data| && Cmp(e, data[i]) > 0 then Position(data, e, i + 1) else i
  }

  /** `getMax` and `getMin`. */
  function GetMax(t: Tree, ghost deg: nat, ghost h: nat): Record
    requires deg >= 2 && Good(t, deg, h, deg - 1)
    decreases h
  {
    GoodRegular(t, deg, h, deg - 1);
    match t
    case Leaf(data) => data[|data| - 1]
    case Node(data, kids) => GoodChild(t, deg, h, deg - 1, |data|); GetMax(kids[|kids| - 1], deg, h - 1)
  }

  function GetMin(t: Tree, ghost deg: nat, ghost h: nat): Record
    requires deg >= 2 && Good(t, deg, h, deg - 1)
    decreases h
  {
    GoodRegular(t, deg, h, deg - 1);
    match t
    case Leaf(data) => data[0]
    case Node(data, kids) => GoodChild(t, deg, h, deg - 1, 0); GetMin(kids[0], deg, h - 1)
  }

  lemma {:induction false} MaxIsLast(t: Tree, deg: nat, h: nat)
    requires deg >= 2 && Good(t, deg, h, deg - 1)
    ensures InOrder(t) != [] && InOrder(t)[|InOrder(t)| - 1] == GetMax(t, deg, h)
    decreases h
  {
    GoodRegular(t, deg, h, deg - 1);
    if t.Node? {
      GoodChild(t, deg, h, deg - 1, |t.data|);
      MaxIsLast(t.kids[|t.data|], deg, h - 1);
    }
  }

  lemma {:induction false} MinIsFirst(t: Tree, deg: nat, h: nat)
    requires deg >= 2 && Good(t, deg, h, deg - 1)
    ensures InOrder(t) != [] && InOrder(t)[0] == GetMin(t, deg, h)
    decreases h
  {
    GoodRegular(t, deg, h, deg - 1);
    if t.Node? {
      GoodChild(t, deg, h, deg - 1, 0);
      MinIsFirst(t.kids[0], deg, h - 1);
      FocusFirst(t);
    }
  }

  /** A node that `delete` may be called on: an inner one has an entry. */
  ghost predicate Deletable(t: Tree, deg: nat, h: nat, min: int) {
    deg >= 2 && Good(t, deg, h, min) && (t.Node? ==> |t.data| > 0)
  }

  lemma DeletableChild(c: Tree, deg: nat, h: nat)
    requires deg >= 2 && Good(c, deg, h, deg)
    ensures Deletable(c, deg, h, deg) && Good(c, deg, h, deg - 1)
  {
  }

  /** `delete`: whether the entry was there, and the node without it. */
  function DeleteNode(t: Tree, e: Record, deg: nat, ghost h: nat, ghost min: int): (r: (bool, Tree))
    requires Deletable(t, deg, h, min)
    ensures Good(r.1, deg, h, min - 1)
    decreases h, 2
  {
    var i := Position(t.data, e, 0);
    if i < |t.data| && Cmp(e, t.data[i]) == 0 then
      if t.Leaf? then (true, Leaf(t.data[..i] + t.data[i + 1..])) else DeleteHere(t, i, e, deg, h, min)
    else if t.Leaf? then (false, t)
    else
      GoodFillable(t, deg, h, min);
      ReadiedGood(t, i, deg, h, min);
      var (p, j) := Readied(t, i, deg);
      DeleteIn(p, j, e, deg, h, min - 1)
  }

  /** Deletion continued in child `j`. */
  function DeleteIn(p: Tree, j: nat, e: Record, deg: nat, ghost h: nat, ghost min: int): (r: (bool, Tree))
    requires deg >= 2 && p.Node? && Good(p, deg, h, min) && j <= |p.data| && Regular(p) && h > 0 && Good(p.kids[j], deg, h - 1, deg)
    ensures Good(r.1, deg, h, min)
    decreases h, 0
  {
    DeletableChild(p.kids[j], deg, h - 1);
    var (found, c) := DeleteNode(p.kids[j], e, deg, h - 1, deg);
    WithKidGood(p, deg, h, min, j, c);
    (found, WithKid(p, j, c))
  }

  /** The entry is in this inner node: its predecessor or successor takes its place, or the two children are merged. */
  function DeleteHere(t: Tree, i: nat, e: Record, deg: nat, ghost h: nat, ghost min: int): (r: (bool, Tree))
    requires Deletable(t, deg, h, min) && t.Node? && i < |t.data|
    ensures Good(r.1, deg, h, min - 1)
    decreases h, 1
  {
    GoodSiblings(t, deg, h, min, i);
    var l, r := t.kids[i], t.kids[i + 1];
    if |l.data| >= deg then
      DeletableChild(l, deg, h - 1);
      var pred := GetMax(l, deg, h - 1);
      var (found, l') := DeleteNode(l, pred, deg, h - 1, deg);
      WithPairGood(t, deg, h, min, i, l', pred, r);
      (found, WithPair(t, i, l', pred, r))
    else if |r.data| >= deg then
      DeletableChild(r, deg, h - 1);
      var succ := GetMin(r, deg, h - 1);
      var (found, r') := DeleteNode(r, succ, deg, h - 1, deg);
      WithPairGood(t, deg, h, min, i, l, succ, r');
      (found, WithPair(t, i, l, succ, r'))
    else
      MergeGood(t, deg, h, min, i);
      WithJoinedAround(t, i, Joined(l, t.data[i], r), Merge(t, i));
      DeleteIn(Merge(t, i), i, e, deg, h, min - 1)
  }

  /** An entry strictly between its neighbours is, if anywhere, below child `i`. */
  lemma ApartAt(t: Tree, i: nat, e: Record)
    requires t.Node? && Regular(t) && i <= |t.data| && Strict(InOrder(t))
    requires (i > 0 ==> Cmp(e, t.data[i - 1]) > 0) && (i < |t.data| ==> Cmp(e, t.data[i]) < 0)
    ensures Apart(PreTo(t, i), e, PostFrom(t, i)) && Strict(InOrder(t.kids[i]))
  {
    Focus(t, i);
    StrictMid(PreTo(t, i), InOrder(t.kids[i]), PostFrom(t, i), InOrder(t));
    Neighbours(t, i);
    ApartEnds(PreTo(t, i), e, PostFrom(t, i));
  }

  lemma {:induction false} EntryBelow(t: Tree, k: nat)
    requires Regular(t) && k < |t.data|
    ensures t.data[k] in InOrder(t)
  {
    if t.Node? {
      Focus(t, k);
      Neighbours(t, k);
      var p, c, q := PreTo(t, k), InOrder(t.kids[k]), PostFrom(t, k);
      assert (p + c + q)[|p| + |c|] == q[0];
    }
  }

  lemma {:induction false} BelowInPre(t: Tree, i: nat, m: nat, x: Record)
    requires t.Node? && Regular(t) && m < i <= |t.data| && (x in InOrder(t.kids[m]) || x == t.data[m])
    ensures x in PreTo(t, i)
    decreases i
  {
    if m < i - 1 {
      BelowInPre(t, i - 1, m, x);
    }
  }

  lemma {:induction false} BelowInPost(t: Tree, i: nat, m: nat, x: Record)
    requires t.Node? && Regular(t) && i <= m < |t.data| && (x in InOrder(t.kids[m + 1]) || x == t.data[m])
    ensures x in PostFrom(t, i)
    decreases m - i
  {
    if i < m {
      BelowInPost(t, i + 1, m, x);
    }
  }

  /** How an entry compares with the entries around child `i`, the neighbours' last and first included. */
  ghost predicate Around(t: Tree, i: nat, e: Record)
    requires Fillable(t) && i <= |t.data|
  {
    && (i > 0 ==> Cmp(e, t.data[i - 1]) > 0 && Cmp(e, t.kids[i - 1].data[|t.kids[i - 1].data| - 1]) > 0)
    && (i > 1 ==> Cmp(e, t.data[i - 2]) > 0)
    && (i < |t.data| ==> Cmp(e, t.data[i]) < 0 && Cmp(e, t.kids[i + 1].data[0]) < 0)
    && (i + 1 < |t.data| ==> Cmp(e, t.data[i + 1]) < 0)
  }

  lemma AbovePre(t: Tree, i: nat, m: nat, x: Record, e: Record, p: seq<Record>, q: seq<Record>)
    requires t.Node? && Regular(t) && m < i <= |t.data| && (x in InOrder(t.kids[m]) || x == t.data[m])
    requires p == PreTo(t, i) && Apart(p, e, q)
    ensures Cmp(e, x) > 0
  {
    BelowInPre(t, i, m, x);
  }

  lemma BelowPost(t: Tree, i: nat, m: nat, x: Record, e: Record, p: seq<Record>, q: seq<Record>)
    requires t.Node? && Regular(t) && i <= m < |t.data| && (x in InOrder(t.kids[m + 1]) || x == t.data[m])
    requires q == PostFrom(t, i) && Apart(p, e, q)
    ensures Cmp(e, x) < 0
  {
    BelowInPost(t, i, m, x);
  }

  lemma ApartAround(t: Tree, i: nat, e: Record)
    requires Fillable(t) && i <= |t.data| && Apart(PreTo(t, i), e, PostFrom(t, i))
    ensures Around(t, i, e)
  {
    var p, q := PreTo(t, i), PostFrom(t, i);
    ApartBefore(t, i, e, p, q);
    ApartBehind(t, i, e, p, q);
  }

  lemma ApartBefore(t: Tree, i: nat, e: Record, p: seq<Record>, q: seq<Record>)
    requires Fillable(t) && i <= |t.data| && p == PreTo(t, i) && Apart(p, e, q)
    ensures i > 0 ==> Cmp(e, t.data[i - 1]) > 0 && Cmp(e, t.kids[i - 1].data[|t.kids[i - 1].data| - 1]) > 0
    ensures i > 1 ==> Cmp(e, t.data[i - 2]) > 0
  {
    if i > 0 {
      var l := t.kids[i - 1];
      EntryBelow(l, |l.data| - 1);
      AbovePre(t, i, i - 1, t.data[i - 1], e, p, q);
      AbovePre(t, i, i - 1, l.data[|l.data| - 1], e, p, q);
    }
    if i > 1 {
      AbovePre(t, i, i - 2, t.data[i - 2], e, p, q);
    }
  }

  lemma ApartBehind(t: Tree, i: nat, e: Record, p: seq<Record>, q: seq<Record>)
    requires Fillable(t) && i <= |t.data| && q == PostFrom(t, i) && Apart(p, e, q)
    ensures i < |t.data| ==> Cmp(e, t.data[i]) < 0 && Cmp(e, t.kids[i + 1].data[0]) < 0
    ensures i + 1 < |t.data| ==> Cmp(e, t.data[i + 1]) < 0
  {
    if i < |t.data| {
      EntryBelow(t.kids[i + 1], 0);
      BelowPost(t, i, i, t.data[i], e, p, q);
      BelowPost(t, i, i, t.kids[i + 1].data[0], e, p, q);
    }
    if i + 1 < |t.data| {
      BelowPost(t, i, i + 1, t.data[i + 1], e, p, q);
    }
  }

  /** The entry lies strictly between the neighbours of child `j`. */
  ghost predicate Fits(t: Tree, j: nat, e: Record) {
    t.Node? && j <= |t.data| && (j > 0 ==> Cmp(e, t.data[j - 1]) > 0) && (j < |t.data| ==> Cmp(e, t.data[j]) < 0)
  }

  /** Filling child `i` leaves the entry between the neighbours of the child to descend to. */
  lemma FillPlace(t: Tree, i: nat, deg: nat, e: Record)
    requires Fillable(t) && i <= |t.data| && Around(t, i, e)
    ensures var t' := Fill(t, i, deg); Fits(t', if i > |t'.data| then i - 1 else i, e)
  {
  }

  lemma ReadiedPlace(t: Tree, i: nat, deg: nat, e: Record)
    requires Fillable(t) && i <= |t.data| && Fits(t, i, e) && Apart(PreTo(t, i), e, PostFrom(t, i))
    ensures var r := Readied(t, i, deg); Fits(r.0, r.1, e)
  {
    ApartAround(t, i, e);
    FillPlace(t, i, deg, e);
  }

  lemma PositionFits(t: Tree, e: Record, i: nat)
    requires t.Node? && i == Position(t.data, e, 0) && (i < |t.data| ==> Cmp(e, t.data[i]) != 0)
    ensures Fits(t, i, e)
  {
  }

  // ------------------------------------------------------------------ what deletion does to the contents

  lemma LeafDelete(data: seq<Record>, e: Record, i: nat)
    requires Strict(data) && i == Position(data, e, 0)
    ensures i < |data| && Cmp(e, data[i]) == 0 ==> Removed(data, e, data[..i] + data[i + 1..], i)
    ensures !(i < |data| && Cmp(e, data[i]) == 0) ==> Removed(data, e, data, -1)
  {
    if i < |data| && Cmp(e, data[i]) != 0 {
      forall j | i < j < |data| ensures Cmp(e, data[j]) != 0 {
        CmpTransitive(e, data[i], data[j]);
      }
    }
  }

  /** A removal below child `j` is a removal in the whole. */
  lemma RemoveBelow(p: Tree, j: nat, e: Record, c: Tree, k: int)
    requires p.Node? && Regular(p) && j <= |p.data| && Apart(PreTo(p, j), e, PostFrom(p, j))
    requires Removed(InOrder(p.kids[j]), e, InOrder(c), k)
    ensures Removed(InOrder(p), e, InOrder(WithKid(p, j, c)), if k == -1 then -1 else |PreTo(p, j)| + k)
  {
    Focus(p, j);
    WithKidInOrder(p, j, c);
    RemovedMid(PreTo(p, j), InOrder(p.kids[j]), PostFrom(p, j), e, InOrder(c), k);
  }

  /** Taking out the last entry below, and putting it in place of the entry deleted. */
  lemma PredecessorMoves(t: Tree, i: nat, l': Tree, pred: Record)
    requires t.Node? && Regular(t) && i < |t.data|
    requires InOrder(l') + [pred] == InOrder(t.kids[i])
    ensures Regular(WithPair(t, i, l', pred, t.kids[i + 1]))
    ensures InOrder(WithPair(t, i, l', pred, t.kids[i + 1]))
            == PreTo(t, i) + InOrder(t.kids[i]) + InOrder(t.kids[i + 1]) + PostFrom(t, i + 1)
  {
    var r, t' := t.kids[i + 1], WithPair(t, i, l', pred, t.kids[i + 1]);
    PairFocus(t', i);
    PreSame(t, t', i);
    assert t'.data[i + 1..] == t.data[i + 1..];
    assert t'.kids[i + 2..] == t.kids[i + 2..];
    PostSame(t, t', i + 1, i + 1);
    assert PreTo(t, i) + (InOrder(l') + [pred] + InOrder(r)) == PreTo(t, i) + (InOrder(l') + [pred]) + InOrder(r);
  }

  lemma SuccessorMoves(t: Tree, i: nat, succ: Record, r': Tree)
    requires t.Node? && Regular(t) && i < |t.data|
    requires [succ] + InOrder(r') == InOrder(t.kids[i + 1])
    ensures Regular(WithPair(t, i, t.kids[i], succ, r'))
    ensures InOrder(WithPair(t, i, t.kids[i], succ, r'))
            == PreTo(t, i) + InOrder(t.kids[i]) + InOrder(t.kids[i + 1]) + PostFrom(t, i + 1)
  {
    var l, t' := t.kids[i], WithPair(t, i, t.kids[i], succ, r');
    PairFocus(t', i);
    PreSame(t, t', i);
    assert t'.data[i + 1..] == t.data[i + 1..];
    assert t'.kids[i + 2..] == t.kids[i + 2..];
    PostSame(t, t', i + 1, i + 1);
    assert PreTo(t, i) + (InOrder(l) + [succ] + InOrder(r')) == PreTo(t, i) + InOrder(l) + ([succ] + InOrder(r'));
  }

  /** The whole without entry `i`. */
  lemma EntryOut(t: Tree, i: nat, e: Record, s': seq<Record>)
    requires t.Node? && Regular(t) && i < |t.data| && Cmp(e, t.data[i]) == 0
    requires s' == PreTo(t, i) + InOrder(t.kids[i]) + InOrder(t.kids[i + 1]) + PostFrom(t, i + 1)
    ensures Removed(InOrder(t), e, s', |PreTo(t, i)| + |InOrder(t.kids[i])|)
  {
    var p, a, x, b, q := PreTo(t, i), InOrder(t.kids[i]), t.data[i], InOrder(t.kids[i + 1]), PostFrom(t, i + 1);
    PairFocus(t, i);
    PairParts(p, a, x, b, q);
    RemovedHere(p + a, x, b + q, InOrder(t), e);
  }

  lemma PairParts(p: seq<Record>, a: seq<Record>, x: Record, b: seq<Record>, q: seq<Record>)
    ensures p + (a + [x] + b) + q == (p + a) + [x] + (b + q)
    ensures (p + a) + (b + q) == p + a + b + q
  {
  }

  /** Deletion takes away exactly the entry that compares equal, if there is one, and says whether there was. */
  lemma {:induction false} DeleteInOrder(t: Tree, e: Record, deg: nat, h: nat, min: int) returns (k: int)
    requires Deletable(t, deg, h, min) && Strict(InOrder(t))
    ensures var r := DeleteNode(t, e, deg, h, min); Removed(InOrder(t), e, InOrder(r.1), k) && (r.0 <==> k != -1)
    decreases h, 2
  {
    var i := Position(t.data, e, 0);
    if t.Leaf? {
      LeafDelete(t.data, e, i);
      k := if i < |t.data| && Cmp(e, t.data[i]) == 0 then i else -1;
    } else if i < |t.data| && Cmp(e, t.data[i]) == 0 {
      k := DeleteHereInOrder(t, i, e, deg, h, min);
    } else {
      k := DeleteBelowInOrder(t, i, e, deg, h, min);
    }
  }

  /** The entry, if anywhere, is below child `i`, which is filled first. */
  lemma {:induction false} DeleteBelowInOrder(t: Tree, i: nat, e: Record, deg: nat, h: nat, min: int) returns (k: int)
    requires Deletable(t, deg, h, min) && Strict(InOrder(t)) && t.Node?
    requires i == Position(t.data, e, 0) && (i < |t.data| ==> Cmp(e, t.data[i]) != 0)
    ensures var r := DeleteNode(t, e, deg, h, min); Removed(InOrder(t), e, InOrder(r.1), k) && (r.0 <==> k != -1)
    decreases h, 1
  {
    GoodFillable(t, deg, h, min);
    PositionFits(t, e, i);
    ApartAt(t, i, e);
    ReadiedGood(t, i, deg, h, min);
    ReadiedPlace(t, i, deg, e);
    var (p, j) := Readied(t, i, deg);
    ApartAt(p, j, e);
    k := DeleteInInOrder(p, j, e, deg, h, min - 1);
  }

  lemma {:induction false} DeleteInInOrder(p: Tree, j: nat, e: Record, deg: nat, h: nat, min: int) returns (k: int)
    requires deg >= 2 && p.Node? && Good(p, deg, h, min) && j <= |p.data| && Regular(p) && h > 0 && Good(p.kids[j], deg, h - 1, deg)
    requires Apart(PreTo(p, j), e, PostFrom(p, j)) && Strict(InOrder(p.kids[j]))
    ensures var r := DeleteIn(p, j, e, deg, h, min); Removed(InOrder(p), e, InOrder(r.1), k) && (r.0 <==> k != -1)
    decreases h, 0, 0
  {
    DeletableChild(p.kids[j], deg, h - 1);
    var n := DeleteInOrder(p.kids[j], e, deg, h - 1, deg);
    RemoveBelow(p, j, e, DeleteNode(p.kids[j], e, deg, h - 1, deg).1, n);
    k := if n == -1 then -1 else |PreTo(p, j)| + n;
  }

  lemma {:induction false} DeleteHereInOrder(t: Tree, i: nat, e: Record, deg: nat, h: nat, min: int) returns (k: int)
    requires Deletable(t, deg, h, min) && t.Node? && i < |t.data| && Cmp(e, t.data[i]) == 0 && Strict(InOrder(t))
    ensures var r := DeleteHere(t, i, e, deg, h, min); Removed(InOrder(t), e, InOrder(r.1), k) && r.0 && k != -1
    decreases h, 1
  {
    GoodSiblings(t, deg, h, min, i);
    if |t.kids[i].data| >= deg || |t.kids[i + 1].data| >= deg {
      StrictKids(t, i);
      k := |PreTo(t, i)| + |InOrder(t.kids[i])|;
      DeletePair(t, i, e, deg, h, min);
    } else {
      k := DeleteMerged(t, i, e, deg, h, min);
    }
  }

  lemma {:induction false} DeletePair(t: Tree, i: nat, e: Record, deg: nat, h: nat, min: int)
    requires Deletable(t, deg, h, min) && t.Node? && Regular(t) && i < |t.data| && Cmp(e, t.data[i]) == 0 && h > 0
    requires |t.kids[i].data| >= deg || |t.kids[i + 1].data| >= deg
    requires Strict(InOrder(t.kids[i])) && Strict(InOrder(t.kids[i + 1]))
    ensures var r := DeleteHere(t, i, e, deg, h, min);
            r.0 && Removed(InOrder(t), e, InOrder(r.1), |PreTo(t, i)| + |InOrder(t.kids[i])|)
    decreases h, 1, 0
  {
    GoodSiblings(t, deg, h, min, i);
    if |t.kids[i].data| >= deg {
      TakePredecessor(t, i, e, deg, h);
    } else {
      TakeSuccessor(t, i, e, deg, h);
    }
  }

  lemma {:induction false} DeleteMerged(t: Tree, i: nat, e: Record, deg: nat, h: nat, min: int) returns (k: int)
    requires Deletable(t, deg, h, min) && t.Node? && Regular(t) && i < |t.data| && Cmp(e, t.data[i]) == 0 && Strict(InOrder(t))
    requires |t.kids[i].data| < deg && |t.kids[i + 1].data| < deg && h > 0
    ensures var m := Merge(t, i);
            m.Node? && Regular(m) && i <= |m.data| && Good(m, deg, h, min - 1) && Good(m.kids[i], deg, h - 1, deg)
    ensures var r := DeleteIn(Merge(t, i), i, e, deg, h, min - 1); Removed(InOrder(t), e, InOrder(r.1), k) && r.0 && k != -1
    decreases h, 0, 1
  {
    MergeGood(t, deg, h, min, i);
    WithJoinedAround(t, i, Joined(t.kids[i], t.data[i], t.kids[i + 1]), Merge(t, i));
    MergePlace(t, i, e, deg, h, min);
    k := DeleteInInOrder(Merge(t, i), i, e, deg, h, min - 1);
    MergeFinds(t, i, e, InOrder(DeleteIn(Merge(t, i), i, e, deg, h, min - 1).1), k);
  }

  lemma StrictKids(t: Tree, i: nat)
    requires t.Node? && Regular(t) && i < |t.data| && Strict(InOrder(t))
    ensures Strict(InOrder(t.kids[i])) && Strict(InOrder(t.kids[i + 1]))
  {
    Focus(t, i);
    StrictMid(PreTo(t, i), InOrder(t.kids[i]), PostFrom(t, i), InOrder(t));
    Focus(t, i + 1);
    StrictMid(PreTo(t, i + 1), InOrder(t.kids[i + 1]), PostFrom(t, i + 1), InOrder(t));
  }

  lemma {:induction false} TakePredecessor(t: Tree, i: nat, e: Record, deg: nat, h: nat)
    requires deg >= 2 && h > 0 && t.Node? && Regular(t) && i < |t.data| && Cmp(e, t.data[i]) == 0
    requires Good(t.kids[i], deg, h - 1, deg) && Good(t.kids[i], deg, h - 1, deg - 1) && Strict(InOrder(t.kids[i]))
    requires Deletable(t.kids[i], deg, h - 1, deg)
    ensures var pred := GetMax(t.kids[i], deg, h - 1);
            var d := DeleteNode(t.kids[i], pred, deg, h - 1, deg);
            d.0 && Removed(InOrder(t), e, InOrder(WithPair(t, i, d.1, pred, t.kids[i + 1])), |PreTo(t, i)| + |InOrder(t.kids[i])|)
    decreases h, 0
  {
    var l := t.kids[i];
    var pred := GetMax(l, deg, h - 1);
    MaxIsLast(l, deg, h - 1);
    var n := DeleteInOrder(l, pred, deg, h - 1, deg);
    var l' := DeleteNode(l, pred, deg, h - 1, deg).1;
    LastRemoved(InOrder(l), InOrder(l'), n);
    PredecessorMoves(t, i, l', pred);
    EntryOut(t, i, e, InOrder(WithPair(t, i, l', pred, t.kids[i + 1])));
  }

  lemma {:induction false} TakeSuccessor(t: Tree, i: nat, e: Record, deg: nat, h: nat)
    requires deg >= 2 && h > 0 && t.Node? && Regular(t) && i < |t.data| && Cmp(e, t.data[i]) == 0
    requires Good(t.kids[i + 1], deg, h - 1, deg) && Good(t.kids[i + 1], deg, h - 1, deg - 1) && Strict(InOrder(t.kids[i + 1]))
    requires Deletable(t.kids[i + 1], deg, h - 1, deg)
    ensures var succ := GetMin(t.kids[i + 1], deg, h - 1);
            var d := DeleteNode(t.kids[i + 1], succ, deg, h - 1, deg);
            d.0 && Removed(InOrder(t), e, InOrder(WithPair(t, i, t.kids[i], succ, d.1)), |PreTo(t, i)| + |InOrder(t.kids[i])|)
    decreases h, 0
  {
    var r := t.kids[i + 1];
    var succ := GetMin(r, deg, h - 1);
    MinIsFirst(r, deg, h - 1);
    var n := DeleteInOrder(r, succ, deg, h - 1, deg);
    var r' := DeleteNode(r, succ, deg, h - 1, deg).1;
    FirstRemoved(InOrder(r), InOrder(r'), n);
    SuccessorMoves(t, i, succ, r');
    EntryOut(t, i, e, InOrder(WithPair(t, i, t.kids[i], succ, r')));
  }

  /** The entry to delete is in the merged child. */
  lemma MergePlace(t: Tree, i: nat, e: Record, deg: nat, h: nat, min: int)
    requires deg >= 2 && t.Node? && Regular(t) && i < |t.data| && Cmp(e, t.data[i]) == 0 && Strict(InOrder(t))
    requires InOrder(Merge(t, i)) == InOrder(t) && Regular(Merge(t, i))
    requires PreTo(Merge(t, i), i) == PreTo(t, i) && PostFrom(Merge(t, i), i) == PostFrom(t, i + 1)
    ensures Apart(PreTo(Merge(t, i), i), e, PostFrom(Merge(t, i), i)) && Strict(InOrder(Merge(t, i).kids[i]))
  {
    var m := Merge(t, i);
    Focus(m, i);
    StrictMid(PreTo(m, i), InOrder(m.kids[i]), PostFrom(m, i), InOrder(m));
    AroundEntry(t, i, e);
  }

  /** Before an entry everything is below it, behind it everything above. */
  lemma AroundEntry(t: Tree, i: nat, e: Record)
    requires t.Node? && Regular(t) && i < |t.data| && Cmp(e, t.data[i]) == 0 && Strict(InOrder(t))
    ensures Apart(PreTo(t, i), e, PostFrom(t, i + 1))
  {
    var p, a, x, b, q := PreTo(t, i), InOrder(t.kids[i]), t.data[i], InOrder(t.kids[i + 1]), PostFrom(t, i + 1);
    PairFocus(t, i);
    PairParts(p, a, x, b, q);
    StrictParts(p + a, x, b + q, InOrder(t));
    forall j | 0 <= j < |p| ensures Cmp(e, p[j]) > 0 {
      assert (p + a)[j] == p[j];
      CmpEqual(e, x, p[j]);
    }
    forall j | 0 <= j < |q| ensures Cmp(e, q[j]) < 0 {
      assert (b + q)[|b| + j] == q[j];
      CmpEqual(e, x, q[j]);
    }
  }

  lemma CmpEqual(e: Record, x: Record, y: Record)
    requires Cmp(e, x) == 0
    ensures (Cmp(y, x) < 0 ==> Cmp(e, y) > 0) && (Cmp(x, y) < 0 ==> Cmp(e, y) < 0)
  {
  }

  /** The entry is there, so it is found. */
  lemma MergeFinds(t: Tree, i: nat, e: Record, s': seq<Record>, k: int)
    requires t.Node? && Regular(t) && i < |t.data| && Cmp(e, t.data[i]) == 0 && Removed(InOrder(t), e, s', k)
    ensures k != -1
  {
    EntryBelow(t, i);
  }

  // ------------------------------------------------------------------ the whole tree

  /** A root as `Insert` and `Delete` of a present entry leave it. */
  ghost predicate GoodRoot(t: Tree, deg: nat, h: nat) { Deletable(t, deg, h, 0) }

  /** The end of `Delete`: a root without entries gives way to its only child, when something was deleted. */
  function Shrunk(found: bool, t: Tree): Tree {
    if found && |t.data| == 0 && t.Node? && |t.kids| > 0 then t.kids[0] else t
  }

  lemma ShrunkGood(t: Tree, deg: nat, h: nat)
    requires deg >= 2 && Good(t, deg, h, -1)
    ensures InOrder(Shrunk(true, t)) == InOrder(t)
    ensures exists h': nat :: h' <= h && GoodRoot(Shrunk(true, t), deg, h')
  {
    GoodRegular(t, deg, h, -1);
    if |t.data| == 0 && t.Node? {
      GoodChild(t, deg, h, -1, 0);
      FocusFirst(t);
      assert PostFrom(t, 0) == [];
      assert GoodRoot(t.kids[0], deg, h - 1);
    } else {
      assert GoodRoot(t, deg, h);
    }
  }

  /** An inner node without entries, with one child. */
  predicate Keyless(t: Tree) { t.Node? && |t.data| == 0 }

  /** `fill` on any node; merging with the child before the first one fails. */
  function TryFill(t: Tree, i: nat, deg: nat): (t': Option<Tree>)
    requires t.Node? && i <= |t.data| && |t.kids| == |t.data| + 1
    requires forall j :: 0 <= j < |t.kids| ==> |t.kids[j].data| > 0 && Regular(t.kids[j])
    ensures t'.None? <==> Keyless(t)
  {
    if i > 0 && |t.kids[i - 1].data| >= deg then Some(BorrowFromPrev(t, i - 1))
    else if i < |t.kids| - 1 && |t.kids[i + 1].data| >= deg then Some(BorrowFromNext(t, i))
    else if i < |t.kids| - 1 then Some(Merge(t, i))
    else if i == 0 then None
    else Some(Merge(t, i - 1))
  }

  lemma TryFillIsFill(t: Tree, i: nat, deg: nat)
    requires Fillable(t) && i <= |t.data| && |t.kids| == |t.data| + 1
    ensures TryFill(t, i, deg) == Some(Fill(t, i, deg))
  {
  }

  /** The root has no entry and its child none to spare. */
  ghost predicate Stuck(root: Tree, deg: nat) {
    Keyless(root) && |root.kids| == 1 && |root.kids[0].data| == deg - 1
  }

  /** `delete` at the root, which may have been left without entries; it fails when that cannot be filled. */
  function DeleteRoot(root: Tree, e: Record, deg: nat, ghost h: nat): (r: Option<(bool, Tree)>)
    requires deg >= 2 && Good(root, deg, h, 0)
    ensures r.None? <==> Stuck(root, deg)
    ensures r.Some? ==> Good(r.value.1, deg, h, 0)
  {
    if !Keyless(root) then Some(DeleteNode(root, e, deg, h, 0))
    else
      GoodChild(root, deg, h, 0, 0);
      GoodRegular(root.kids[0], deg, h - 1, deg - 1);
      if |root.kids[0].data| < deg then
        assert TryFill(root, 0, deg).None?;
        None
      else Some(DeleteIn(root, 0, e, deg, h, 0))
  }

  /** Exactly the entry that compares equal is gone, if there was one, also from below a root without entries. */
  lemma DeleteRootInOrder(root: Tree, e: Record, deg: nat, h: nat) returns (k: int)
    requires deg >= 2 && Good(root, deg, h, 0) && Strict(InOrder(root)) && !Stuck(root, deg)
    ensures var r := DeleteRoot(root, e, deg, h).value; Removed(InOrder(root), e, InOrder(r.1), k) && (r.0 <==> k != -1)
  {
    if Keyless(root) {
      k := DeleteBelowRoot(root, e, deg, h);
    } else {
      k := DeleteInOrder(root, e, deg, h, 0);
    }
  }

  lemma OnlyChild(root: Tree)
    requires root.Node? && Regular(root) && root.data == []
    ensures PreTo(root, 0) == [] && PostFrom(root, 0) == [] && InOrder(root) == InOrder(root.kids[0])
  {
    FocusFirst(root);
    Focus(root, 0);
  }

  lemma DeleteBelowRoot(root: Tree, e: Record, deg: nat, h: nat) returns (k: int)
    requires deg >= 2 && Good(root, deg, h, 0) && Strict(InOrder(root)) && Keyless(root) && !Stuck(root, deg)
    ensures var r := DeleteRoot(root, e, deg, h).value; Removed(InOrder(root), e, InOrder(r.1), k) && (r.0 <==> k != -1)
  {
    GoodChild(root, deg, h, 0, 0);
    GoodRegular(root, deg, h, 0);
    OnlyChild(root);
    k := DeleteInInOrder(root, 0, e, deg, h, 0);
  }

  /** After a deletion that found its entry the root has entries, or is a leaf. */
  lemma ShrunkRoot(t: Tree, deg: nat, h: nat) returns (h': nat)
    requires deg >= 2 && Good(t, deg, h, 0)
    ensures InOrder(Shrunk(true, t)) == InOrder(t) && GoodRoot(Shrunk(true, t), deg, h')
  {
    assert Good(t, deg, h, -1);
    ShrunkGood(t, deg, h);
    h' :| h' <= h && GoodRoot(Shrunk(true, t), deg, h');
  }

  class BTreeMap {
    const deg: nat
    var root: Tree
    var size: nat
    ghost var height: nat

    /** The root may be an inner node without entries. */
    ghost predicate Valid()
      reads this
    {
      deg >= 2 && Good(root, deg, height, 0) && Sorted(InOrder(root)) && size == |InOrder(root)|
    }

    constructor (deg: nat)
      requires deg >= 2
      ensures Valid() && InOrder(root) == [] && !Keyless(root) && this.deg == deg && root == Leaf([])
    {
      this.deg, root, size, height := deg, Leaf([]), 0, 0;
    }

    /** `Insert`, of any entry and into any tree: exactly the entry is there too, where it belongs. */
    method Insert(e: Record)
      requires Valid()
      modifies this
      ensures Valid() && exists k: nat :: Inserted(old(InOrder(root)), e, InOrder(root), k)
      ensures root == InsertRoot(old(root), e, deg, old(height))
      ensures Keyless(root) ==> Keyless(old(root))
      ensures Strict(old(InOrder(root))) && Absent(old(InOrder(root)), e) ==> Strict(InOrder(root))
    {
      ghost var before := InOrder(root);
      ghost var k := InsertInOrder(root, e, deg, height);
      var r := InsertRoot(root, e, deg, height);
      ghost var h: nat :| height <= h <= height + 1 && Good(r, deg, h, 0);
      InsertedSorted(before, e, InOrder(r), k);
      if Strict(before) && Absent(before, e) {
        InsertedStrict(before, e, InOrder(r), k);
      }
      InsertKeepsEntries(root, e, deg, height);
      root, height := r, h;
      size := size + 1;
    }

    /**
     `Delete`: it fails exactly on a root without entries over a child that has none to spare. Otherwise the
     tree is as it should be, the root has entries again if the entry was there, and of different entries
     exactly the one that compares equal is gone, if there was one.
     */
    method Delete(e: Record) returns (panicked: bool, found: bool)
      requires Valid()
      modifies this
      ensures panicked <==> Stuck(old(root), deg)
      ensures panicked ==> root == old(root) && size == old(size) && height == old(height)
      ensures !panicked ==> var r := DeleteRoot(old(root), e, deg, old(height)).value; found == r.0 && root == Shrunk(r.0, r.1)
      ensures !panicked && found ==> GoodRoot(root, deg, height)
      ensures !panicked && old(Strict(InOrder(root))) ==>
                && Valid() && Strict(InOrder(root)) && (found <==> !Absent(old(InOrder(root)), e))
                && exists k :: Removed(old(InOrder(root)), e, InOrder(root), k) && (found <==> k != -1)
      ensures !panicked && !found && old(Strict(InOrder(root))) ==>
                (Keyless(root) <==> Keyless(old(root)) || Meagre(old(root), deg))
    {
      ghost var before := InOrder(root);
      var r := DeleteRoot(root, e, deg, height);
      if r.None? {
        return true, false;
      }
      panicked, found := false, r.value.0;
      ghost var k := -1;
      if Strict(before) {
        k := DeleteRootInOrder(root, e, deg, height);
        RemovedSize(before, e, InOrder(r.value.1), k);
        AbsentLeavesKeyless(root, e, deg, height);
      }
      if found {
        size := size - 1;
        height := ShrunkRoot(r.value.1, deg, height);
      }
      root := Shrunk(found, r.value.1);
      assert Strict(before) ==> Removed(before, e, InOrder(root), k);
    }
  }

  lemma StrictSorted(s: seq<Record>)
    requires Strict(s)
    ensures Sorted(s)
  {
    forall i, j | 0 <= i < j < |s| ensures Le(s[i], s[j]) {
      LeIsCmp(s[i], s[j]);
    }
  }

  lemma InsertedStrict(s: seq<Record>, e: Record, s': seq<Record>, k: nat)
    requires Strict(s) && Absent(s, e) && Inserted(s, e, s', k)
    ensures Strict(s') && |s'| == |s| + 1
  {
    var a, b := s[..k], s[k..];
    Middle(a, e, b, s');
    forall i, j | 0 <= i < j < |s'| ensures Cmp(s'[i], s'[j]) < 0 {
      if j == k {
        LeIsCmp(a[i], e);
        assert Cmp(e, s[i]) != 0;
      } else if i == k {
        LeIsCmp(e, b[j - k - 1]);
        assert Cmp(e, s[j - 1]) != 0;
      } else {
        assert s'[i] == s[if i < k then i else i - 1] && s'[j] == s[if j < k then j else j - 1];
      }
    }
  }

  lemma RemovedStrict(s: seq<Record>, e: Record, s': seq<Record>, k: int)
    requires Strict(s) && Removed(s, e, s', k) && k != -1
    ensures Strict(s') && |s'| == |s| - 1 && !Absent(s, e)
  {
    forall i, j | 0 <= i < j < |s'| ensures Cmp(s'[i], s'[j]) < 0 {
      assert s'[i] == s[if i < k then i else i + 1] && s'[j] == s[if j < k then j else j + 1];
    }
  }

  lemma RemovedSize(s: seq<Record>, e: Record, s': seq<Record>, k: int)
    requires Strict(s) && Removed(s, e, s', k)
    ensures Strict(s') && Sorted(s') && |s'| == (if k == -1 then |s| else |s| - 1) && (k == -1 <==> Absent(s, e))
  {
    if k != -1 {
      RemovedStrict(s, e, s', k);
    }
    StrictSorted(s');
  }

  /** Insertion leaves no inner root without entries. */
  lemma InsertKeepsEntries(root: Tree, e: Record, deg: nat, h: nat)
    requires deg >= 2 && Good(root, deg, h, 0)
    ensures Keyless(InsertRoot(root, e, deg, h)) ==> Keyless(root)
  {
    GoodRegular(root, deg, h, 0);
    if |root.data| == 2 * deg - 1 {
      RootGood(root, deg, h);
      SplitGood(Node([], [root]), 0, deg, h + 1, 0);
    }
  }

  /** A root of one entry over two children that can spare none. */
  ghost predicate Meagre(t: Tree, deg: nat) {
    t.Node? && |t.data| == 1 && Regular(t) && |t.kids[0].data| == deg - 1 && |t.kids[1].data| == deg - 1
  }

  lemma DescentSize(t: Tree, e: Record, deg: nat, h: nat, i: nat)
    requires GoodRoot(t, deg, h) && t.Node? && i == Position(t.data, e, 0) && (i < |t.data| ==> Cmp(e, t.data[i]) != 0)
    ensures Fillable(t) && |DeleteNode(t, e, deg, h, 0).1.data| == |Readied(t, i, deg).0.data|
    ensures DeleteNode(t, e, deg, h, 0).1.Node?
  {
    GoodFillable(t, deg, h, 0);
    ReadiedGood(t, i, deg, h, 0);
  }

  lemma ReadiedSize(t: Tree, i: nat, deg: nat, h: nat)
    requires GoodRoot(t, deg, h) && Fillable(t) && i <= |t.data|
    ensures |Readied(t, i, deg).0.data| == 0 <==> Meagre(t, deg)
  {
    GoodChild(t, deg, h, 0, 0);
    GoodChild(t, deg, h, 0, 1);
  }

  /**
   Looking for an entry that is not there leaves a root without entries, which `Delete` does not
   shrink then, exactly when the root has one entry over two children that can spare none.
   */
  lemma KeylessExactly(t: Tree, e: Record, deg: nat, h: nat)
    requires GoodRoot(t, deg, h) && Strict(InOrder(t)) && Absent(InOrder(t), e)
    ensures !DeleteNode(t, e, deg, h, 0).0
    ensures Keyless(DeleteNode(t, e, deg, h, 0).1) <==> Meagre(t, deg)
  {
    var k := DeleteInOrder(t, e, deg, h, 0);
    if t.Node? {
      GoodRegular(t, deg, h, 0);
      var i := Position(t.data, e, 0);
      if i < |t.data| {
        EntryBelow(t, i);
      }
      DescentSize(t, e, deg, h, i);
      ReadiedSize(t, i, deg, h);
    }
  }

  lemma AbsentLeavesKeyless(root: Tree, e: Record, deg: nat, h: nat)
    requires deg >= 2 && Good(root, deg, h, 0) && Strict(InOrder(root)) && !Stuck(root, deg)
    ensures var r := DeleteRoot(root, e, deg, h).value; !r.0 ==> (Keyless(r.1) <==> Keyless(root) || Meagre(root, deg))
  {
    var k := DeleteRootInOrder(root, e, deg, h);
    if k == -1 && !Keyless(root) {
      KeylessExactly(root, e, deg, h);
    }
  }

  // ------------------------------------------------------------------ search

  /** `lowerBound`. */
  function LowerBound(t: Tree, target: Record): Option<Record>
    decreases t
  {
    var i := FirstFrom(t.data, target, 0);
    var here := if i < |t.data| then Some(t.data[i]) else None;
    if t.Leaf? || i >= |t.kids| then here
    else
      var below := LowerBound(t.kids[i], target);
      if below.Some? then below else here
  }

  /** The scan of `lowerBound`: the first entry that is not before the target. */
  function FirstFrom(data: seq<Record>, target: Record, i: nat): (k: nat)
    requires i <= |data|
    ensures i <= k <= |data| && (forall j :: i <= j < k ==> Cmp(data[j], target) < 0) && (k < |data| ==> Cmp(data[k], target) >= 0)
    decreases |data| - i
  {
    if i < |data| && Cmp(data[i], target) < 0 then FirstFrom(data, target, i + 1) else i
  }

  /** The first entry in order that is not before the target, at position `k`; none at the end. */
  ghost predicate FirstNotBefore(s: seq<Record>, target: Record, r: Option<Record>, k: nat) {
    && k <= |s| && (forall i :: 0 <= i < k ==> Cmp(s[i], target) < 0)
    && (if k < |s| then Cmp(s[k], target) >= 0 && r == Some(s[k]) else r == None)
  }

  lemma BeforeTransitive(a: Record, b: Record, target: Record)
    requires Le(a, b) && Cmp(b, target) < 0
    ensures Cmp(a, target) < 0
  {
  }

  lemma AllBefore(p: seq<Record>, target: Record)
    requires Sorted(p) && (p == [] || Cmp(p[|p| - 1], target) < 0)
    ensures forall i :: 0 <= i < |p| ==> Cmp(p[i], target) < 0
  {
    forall i | 0 <= i < |p| ensures Cmp(p[i], target) < 0 {
      if i < |p| - 1 {
        BeforeTransitive(p[i], p[|p| - 1], target);
      }
    }
  }

  lemma FirstInMid(p: seq<Record>, c: seq<Record>, q: seq<Record>, s: seq<Record>, target: Record, r: Option<Record>, k: nat)
    requires s == p + c + q && FirstNotBefore(c, target, r, k) && (forall i :: 0 <= i < |p| ==> Cmp(p[i], target) < 0)
    requires q != [] ==> Cmp(q[0], target) >= 0
    ensures FirstNotBefore(s, target, if r.Some? then r else if q != [] then Some(q[0]) else None, |p| + k)
  {
    Thirds(p, c, q, s);
    if k == |c| && q != [] {
      assert s[|p| + |c|] == q[0];
    }
  }

  /** Search agrees with a scan of the in-order sequence. */
  lemma {:induction false} LowerBoundScans(t: Tree, target: Record, h: nat) returns (k: nat)
    requires Uniform(t, h) && Sorted(InOrder(t))
    ensures FirstNotBefore(InOrder(t), target, LowerBound(t, target), k)
    decreases h
  {
    var i := FirstFrom(t.data, target, 0);
    if t.Leaf? {
      k := i;
    } else {
      var p, c, q := PreTo(t, i), InOrder(t.kids[i]), PostFrom(t, i);
      Focus(t, i);
      SortedMid(p, c, q, InOrder(t));
      Neighbours(t, i);
      AllBefore(p, target);
      var j := LowerBoundScans(t.kids[i], target, h - 1);
      FirstInMid(p, c, q, InOrder(t), target, LowerBound(t.kids[i], target), j);
      k := |p| + j;
    }
  }
}

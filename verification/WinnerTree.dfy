/**
 `WinnerTree` (internal/structures/winner_tree.go): a tournament over input iterators.
 Leaves occupy the first `k` nodes; node `n >= k` plays the two nodes `2(n-k)` and
 `2(n-k)+1` against each other, and the last node is the overall winner.
 */
module WinnerTree {
  import opened Records
  import opened KWayMerge

  const NIL := -1

  /** An iterator reference that is neither nil nor exhausted. */
  predicate Playing(streams: seq<seq<Record>>, pos: seq<nat>, a: int)
    requires Positions(streams, pos)
  {
    a >= 0 && Live(streams, pos, a)
  }

  /** `iterator.Compare`: the winner rule for inputs that may be nil or exhausted. */
  function Compare(streams: seq<seq<Record>>, pos: seq<nat>, a: int, b: int): (w: int)
    requires Positions(streams, pos)
    ensures w == a || w == b
    ensures Playing(streams, pos, a) || Playing(streams, pos, b) ==> Playing(streams, pos, w)
    ensures Playing(streams, pos, a) ==> Le(Cur(streams, pos, w), Cur(streams, pos, a))
    ensures Playing(streams, pos, b) ==> Le(Cur(streams, pos, w), Cur(streams, pos, b))
    ensures !Playing(streams, pos, a) ==> w == b
    ensures Playing(streams, pos, a) && (!Playing(streams, pos, b) || Le(Cur(streams, pos, a), Cur(streams, pos, b))) ==> w == a
  {
    if !Playing(streams, pos, a) then b
    else if !Playing(streams, pos, b) then a
    else if Cmp(Cur(streams, pos, a), Cur(streams, pos, b)) <= 0 then a
    else b
  }

  function Parent(k: nat, c: nat): (p: nat) { k + c / 2 }

  /** Nodes from the parent of `c` up to the root. */
  function PathFrom(k: nat, c: nat): (path: seq<nat>)
    requires k > 0 && c <= 2 * k - 2
    decreases 2 * k - c
  {
    if c == 2 * k - 2 then [] else [Parent(k, c)] + PathFrom(k, Parent(k, c))
  }

  /** Leaf `leaf` lies in the subtree of node `n`. */
  ghost predicate Under(k: nat, n: nat, leaf: nat)
    requires n < 2 * k - 1
  {
    n == leaf || (n >= k && (Under(k, 2 * (n - k), leaf) || Under(k, 2 * (n - k) + 1, leaf)))
  }

  lemma {:induction false} PathAscends(k: nat, c: nat)
    requires k > 0 && c <= 2 * k - 2
    ensures forall i :: 0 <= i < |PathFrom(k, c)| ==> c < PathFrom(k, c)[i] && k <= PathFrom(k, c)[i] <= 2 * k - 2
    ensures forall i, j :: 0 <= i < j < |PathFrom(k, c)| ==> PathFrom(k, c)[i] < PathFrom(k, c)[j]
    ensures forall i :: 0 < i < |PathFrom(k, c)| ==> PathFrom(k, c)[i] == Parent(k, PathFrom(k, c)[i - 1])
    ensures PathFrom(k, c) != [] ==> PathFrom(k, c)[|PathFrom(k, c)| - 1] == 2 * k - 2
    decreases 2 * k - c
  {
    if c != 2 * k - 2 {
      PathAscends(k, Parent(k, c));
    }
  }

  /** A path contains the parent of each of its members below the root. */
  lemma {:induction false} PathClosed(k: nat, c: nat, n: nat)
    requires k > 0 && c <= 2 * k - 2 && n < 2 * k - 2
    requires n == c || n in PathFrom(k, c)
    ensures Parent(k, n) in PathFrom(k, c)
    decreases 2 * k - c
  {
    if n != c && c != 2 * k - 2 {
      PathClosed(k, Parent(k, c), n);
    }
  }

  lemma {:induction false} UnderOnPath(k: nat, n: nat, leaf: nat)
    requires n < 2 * k - 1 && leaf < k && Under(k, n, leaf) && n != leaf
    ensures n in PathFrom(k, leaf)
    decreases n
  {
    var l := 2 * (n - k);
    var c := if Under(k, l, leaf) then l else l + 1;
    if c != leaf {
      UnderOnPath(k, c, leaf);
    }
    PathClosed(k, leaf, c);
    assert Parent(k, c) == n;
  }

  /** Each inner node holds the winner of its two children; leaves hold the inputs in order. */
  ghost predicate Leaves(nodes: seq<int>, k: nat, count: nat) {
    && 0 < k && count <= k && |nodes| == 2 * k - 1
    && (forall i :: 0 <= i < k ==> nodes[i] == if i < count then i else NIL)
    && (forall n :: 0 <= n < |nodes| ==> NIL <= nodes[n] < count)
  }

  ghost predicate Played(nodes: seq<int>, k: nat, streams: seq<seq<Record>>, pos: seq<nat>, n: nat)
    requires Positions(streams, pos) && |nodes| == 2 * k - 1 && k <= n < |nodes|
  {
    nodes[n] == Compare(streams, pos, nodes[2 * (n - k)], nodes[2 * (n - k) + 1])
  }

  ghost predicate Tournament(nodes: seq<int>, k: nat, streams: seq<seq<Record>>, pos: seq<nat>)
    requires Positions(streams, pos)
  {
    Leaves(nodes, k, |streams|) && forall n: nat :: k <= n < |nodes| ==> Played(nodes, k, streams, pos, n)
  }

  lemma {:induction false} HolderUnder(nodes: seq<int>, k: nat, streams: seq<seq<Record>>, pos: seq<nat>, n: nat)
    requires Positions(streams, pos) && Tournament(nodes, k, streams, pos) && n < |nodes| && nodes[n] >= 0
    ensures Under(k, n, nodes[n])
    decreases n
  {
    if n >= k {
      assert Played(nodes, k, streams, pos, n);
      var l := 2 * (n - k);
      var c := if nodes[n] == nodes[l] then l else l + 1;
      HolderUnder(nodes, k, streams, pos, c);
    }
  }

  /** The root beats every node. */
  lemma {:induction false} RootBeats(nodes: seq<int>, k: nat, streams: seq<seq<Record>>, pos: seq<nat>, c: nat)
    requires Positions(streams, pos) && Tournament(nodes, k, streams, pos) && c < |nodes|
    requires Playing(streams, pos, nodes[c])
    ensures Playing(streams, pos, nodes[2 * k - 2])
    ensures Le(Cur(streams, pos, nodes[2 * k - 2]), Cur(streams, pos, nodes[c]))
    decreases 2 * k - c
  {
    if c != 2 * k - 2 {
      var p := Parent(k, c);
      assert Played(nodes, k, streams, pos, p);
      assert c == 2 * (p - k) || c == 2 * (p - k) + 1;
      RootBeats(nodes, k, streams, pos, p);
    }
  }

  lemma RootLeast(nodes: seq<int>, k: nat, streams: seq<seq<Record>>, pos: seq<nat>)
    requires Positions(streams, pos) && Tournament(nodes, k, streams, pos)
    ensures Playing(streams, pos, nodes[2 * k - 2]) ==> Least(streams, pos, nodes[2 * k - 2])
    ensures !Playing(streams, pos, nodes[2 * k - 2]) ==> forall i: nat :: !Live(streams, pos, i)
  {
    forall i: nat | Live(streams, pos, i)
      ensures Playing(streams, pos, nodes[2 * k - 2])
      ensures Le(Cur(streams, pos, nodes[2 * k - 2]), Cur(streams, pos, i))
    {
      RootBeats(nodes, k, streams, pos, i);
    }
  }

  /** The smallest power of two not below `n`. */
  method LeafCount(n: nat) returns (k: nat)
    requires n > 0
    ensures n <= k && k > 0
  {
    k := 1;
    while k < n
      invariant k > 0
    {
      k := 2 * k;
    }
  }

  class Tree {
    const streams: seq<seq<Record>>
    const k: nat
    var pos: seq<nat>
    var nodes: seq<int>
    var pathToRoot: seq<seq<nat>>

    ghost predicate Valid()
      reads this
    {
      && Positions(streams, pos) && Tournament(nodes, k, streams, pos)
      && |pathToRoot| == k
      && forall i :: 0 <= i < k ==> pathToRoot[i] == PathFrom(k, i)
    }

    /** `NewWinnerTree`: leaves in input order, then the tournament, then the paths. */
    constructor (streams: seq<seq<Record>>)
      requires |streams| > 0
      ensures Valid() && this.streams == streams && pos == Start(streams)
    {
      this.streams := streams;
      this.pos := Start(streams);
      var k := LeafCount(|streams|);
      this.k := k;
      this.nodes := seq(2 * k - 1, i => if 0 <= i < |streams| then i else NIL);
      this.pathToRoot := [];
      new;
      Build();
      ComputePaths();
    }

    method Build()
      requires Positions(streams, pos) && Leaves(nodes, k, |streams|)
      modifies this`nodes
      ensures Tournament(nodes, k, streams, pos)
    {
      for n := k to 2 * k - 1
        invariant Leaves(nodes, k, |streams|)
        invariant forall m: nat :: k <= m < n ==> Played(nodes, k, streams, pos, m)
      {
        var left := 2 * (n - k);
        var w := Compare(streams, pos, nodes[left], nodes[left + 1]);
        var next := nodes[n := w];
        forall m: nat | k <= m <= n ensures Played(next, k, streams, pos, m) {
          assert m < n ==> Played(nodes, k, streams, pos, m);
        }
        nodes := next;
      }
    }

    method ComputePaths()
      requires k > 0
      modifies this`pathToRoot
      ensures |pathToRoot| == k && forall i :: 0 <= i < k ==> pathToRoot[i] == PathFrom(k, i)
    {
      pathToRoot := [];
      for leaf := 0 to k
        invariant |pathToRoot| == leaf
        invariant forall i :: 0 <= i < leaf ==> pathToRoot[i] == PathFrom(k, i)
      {
        var path: seq<nat> := [];
        var cur: nat := leaf;
        while cur != 2 * k - 2
          invariant cur <= 2 * k - 2
          invariant path + PathFrom(k, cur) == PathFrom(k, leaf)
          decreases 2 * k - cur
        {
          var p := Parent(k, cur);
          assert PathFrom(k, cur) == [p] + PathFrom(k, p);
          path := path + [p];
          cur := p;
        }
        pathToRoot := pathToRoot + [path];
      }
    }

    method Winner() returns (w: int)
      requires Valid()
      ensures Playing(streams, pos, w) ==> Least(streams, pos, w)
      ensures !Playing(streams, pos, w) ==> forall i: nat :: !Live(streams, pos, i)
    {
      RootLeast(nodes, k, streams, pos);
      w := nodes[2 * k - 2];
    }

    /** `Advance`: move input `w` on and replay the matches on its path to the root. */
    method Advance(w: nat)
      requires Valid() && Live(streams, pos, w)
      modifies this`pos, this`nodes
      ensures Valid() && pos == old(pos)[w := old(pos)[w] + 1]
    {
      ghost var oldPos := pos;
      pos := pos[w := pos[w] + 1];
      Update(w, oldPos);
    }

    /** `Update` of an input that was moved, be it exhausted before or after. */
    method Update(w: nat, ghost oldPos: seq<nat>)
      requires MovedOne(streams, oldPos, pos, w) && Tournament(nodes, k, streams, oldPos)
      requires |pathToRoot| == k && forall i :: 0 <= i < k ==> pathToRoot[i] == PathFrom(k, i)
      modifies this`nodes
      ensures Valid()
    {
      MoveUnsettlesPath(nodes, k, streams, oldPos, pos, w);
      ghost var newPos := pos;
      var path := pathToRoot[w];
      for j := 0 to |path|
        invariant pos == newPos && Settled(nodes, k, streams, pos, path, j)
      {
        ReplayMatch(path, j);
      }
      SettledAll(nodes, k, streams, pos, path);
    }

    /** One round of the loop: the match at step `j` of the path. */
    method ReplayMatch(path: seq<nat>, j: nat)
      requires Settled(nodes, k, streams, pos, path, j) && j < |path|
      modifies this`nodes
      ensures Settled(nodes, k, streams, pos, path, j + 1)
    {
      var p := path[j];
      var left := 2 * (p - k);
      Replay(nodes, k, streams, pos, path, j, left);
      nodes := nodes[p := Compare(streams, pos, nodes[left], nodes[left + 1])];
    }
  }

  ghost predicate MovedOne(streams: seq<seq<Record>>, oldPos: seq<nat>, pos: seq<nat>, w: nat) {
    Positions(streams, oldPos) && Positions(streams, pos) && w < |pos| && pos == oldPos[w := pos[w]]
  }

  /** A path to the root, from its first inner node. */
  ghost predicate IsPath(path: seq<nat>, k: nat) {
    && (forall i :: 0 <= i < |path| ==> k <= path[i] <= 2 * k - 2)
    && (forall i, j :: 0 <= i && j == i + 1 && j < |path| ==> path[j] == Parent(k, path[i]))
    && (path != [] ==> path[|path| - 1] == 2 * k - 2)
  }

  /** Every match off the rest of the path, from step `j` on, has its current result. */
  ghost predicate Settled(nodes: seq<int>, k: nat, streams: seq<seq<Record>>, pos: seq<nat>, path: seq<nat>, j: nat) {
    && Positions(streams, pos) && Leaves(nodes, k, |streams|) && IsPath(path, k) && j <= |path|
    && forall n: nat :: k <= n < |nodes| && n !in path[j..] ==> Played(nodes, k, streams, pos, n)
  }

  lemma SettledAll(nodes: seq<int>, k: nat, streams: seq<seq<Record>>, pos: seq<nat>, path: seq<nat>)
    requires Settled(nodes, k, streams, pos, path, |path|)
    ensures Tournament(nodes, k, streams, pos)
  {
  }

  lemma MoveUnsettlesPath(nodes: seq<int>, k: nat, streams: seq<seq<Record>>, oldPos: seq<nat>, pos: seq<nat>, w: nat)
    requires MovedOne(streams, oldPos, pos, w)
    requires Tournament(nodes, k, streams, oldPos)
    ensures Settled(nodes, k, streams, pos, PathFrom(k, w), 0)
  {
    var path := PathFrom(k, w);
    PathAscends(k, w);
    assert path[0..] == path;
    forall n: nat | k <= n < |nodes| && n !in path ensures Played(nodes, k, streams, pos, n) {
      OffPath(nodes, k, streams, oldPos, pos, w, n);
    }
  }

  /** A match whose subtree does not contain the moved input keeps its result. */
  lemma OffPath(nodes: seq<int>, k: nat, streams: seq<seq<Record>>, oldPos: seq<nat>, pos: seq<nat>, w: nat, n: nat)
    requires MovedOne(streams, oldPos, pos, w)
    requires Tournament(nodes, k, streams, oldPos)
    requires k <= n < |nodes| && n !in PathFrom(k, w)
    ensures Played(nodes, k, streams, pos, n)
  {
    var l := 2 * (n - k);
    assert Played(nodes, k, streams, oldPos, n);
    if nodes[l] == w {
      HolderUnder(nodes, k, streams, oldPos, l);
      UnderOnPath(k, n, w);
    } else if nodes[l + 1] == w {
      HolderUnder(nodes, k, streams, oldPos, l + 1);
      UnderOnPath(k, n, w);
    }
  }

  /** Replaying one match on the path settles that node and disturbs only nodes later on the path. */
  lemma Replay(nodes: seq<int>, k: nat, streams: seq<seq<Record>>, pos: seq<nat>, path: seq<nat>, j: nat, l: nat)
    requires j < |path| && Settled(nodes, k, streams, pos, path, j) && l == 2 * (path[j] - k)
    ensures Settled(nodes[path[j] := Compare(streams, pos, nodes[l], nodes[l + 1])], k, streams, pos, path, j + 1)
  {
    var p := path[j];
    var nodes' := nodes[p := Compare(streams, pos, nodes[l], nodes[l + 1])];
    assert path[j..] == [p] + path[j + 1..];
    assert j + 1 < |path| ==> path[j + 1] in path[j + 1..] && path[j + 1] == Parent(k, p);
    forall n: nat | k <= n < |nodes'| && n !in path[j + 1..] ensures Played(nodes', k, streams, pos, n) {
      if n != p {
        assert Played(nodes, k, streams, pos, n);
        assert n != Parent(k, p);
      }
    }
  }

  /** `Next` of the raw merge iterator over a winner tree. */
  method EmitWinner(tree: Tree, out: seq<Record>, w: nat) returns (out': seq<Record>)
    requires tree.Valid() && Merging(tree.streams, tree.pos, out) && Least(tree.streams, tree.pos, w)
    modifies tree
    ensures tree.Valid() && Merging(tree.streams, tree.pos, out')
    ensures |Remaining(tree.streams, tree.pos)| < old(|Remaining(tree.streams, tree.pos)|)
  {
    EmitsLeast(tree.streams, tree.pos, out, w);
    out' := out + [Cur(tree.streams, tree.pos, w)];
    tree.Advance(w);
  }

  /** Draining the winner tree lists all records of all inputs in order. */
  method MergeWithWinnerTree(streams: seq<seq<Record>>) returns (out: seq<Record>)
    requires AllSorted(streams) && |streams| > 0
    ensures Sorted(out)
    ensures multiset(out) == Remaining(streams, Start(streams))
  {
    var tree := new Tree(streams);
    out := [];
    StartMerging(streams);
    var w := tree.Winner();
    while Playing(streams, tree.pos, w)
      invariant tree.streams == streams && tree.Valid() && fresh(tree)
      invariant Merging(streams, tree.pos, out)
      invariant Playing(streams, tree.pos, w) ==> Least(streams, tree.pos, w)
      invariant !Playing(streams, tree.pos, w) ==> forall i: nat :: !Live(streams, tree.pos, i)
      decreases |Remaining(streams, tree.pos)|
    {
      out := EmitWinner(tree, out, w);
      w := tree.Winner();
    }
    NothingRemains(streams, tree.pos);
  }
}

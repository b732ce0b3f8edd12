/**
 The Merkle tree over the data blocks of a table (internal/sstable/merkle.go): building it level by
 level with the last node of an odd level paired with itself, inclusion proofs, verification, and
 the search for corrupted blocks. The pair hash is a parameter.
 */
module Merkle {
  import opened Options

  type Hash = nat

  type PairHash = (Hash, Hash) -> Hash

  datatype Tree = Leaf(hash: Hash) | Node(hash: Hash, left: Tree, right: Tree)

  function Combine(pair: PairHash, l: Tree, r: Tree): Tree { Node(pair(l.hash, r.hash), l, r) }

  /** The partner of node `i` (an even position) on its level: the next node, or itself at the end. */
  function Partner<T>(level: seq<T>, i: nat): T
    requires i < |level|
  {
    if i + 1 < |level| then level[i + 1] else level[i]
  }

  function Parents(pair: PairHash, level: seq<Tree>): (next: seq<Tree>)
    ensures |next| == (|level| + 1) / 2
  {
    seq((|level| + 1) / 2, k requires 0 <= k < (|level| + 1) / 2 => Combine(pair, level[2 * k], Partner(level, 2 * k)))
  }

  function Root(pair: PairHash, level: seq<Tree>): (root: Tree)
    requires |level| > 0
    decreases |level|
  {
    if |level| == 1 then level[0] else Root(pair, Parents(pair, level))
  }

  function LeavesOf(hashes: seq<Hash>): (level: seq<Tree>)
    ensures |level| == |hashes| && forall i :: 0 <= i < |level| ==> level[i] == Leaf(hashes[i])
  {
    seq(|hashes|, i requires 0 <= i < |hashes| => Leaf(hashes[i]))
  }

  /** One level up, as in the loops of `Build` and `GetProof`. */
  method NextLevel(pair: PairHash, level: seq<Tree>) returns (next: seq<Tree>)
    ensures next == Parents(pair, level)
  {
    next := [];
    var i := 0;
    while i < |level|
      invariant i == 2 * |next| && |next| <= (|level| + 1) / 2
      invariant forall k :: 0 <= k < |next| ==> next[k] == Parents(pair, level)[k]
    {
      if i + 1 < |level| {
        next := next + [Combine(pair, level[i], level[i + 1])];
      } else {
        next := next + [Combine(pair, level[i], level[i])];
      }
      i := i + 2;
    }
  }

  /** `Build`: an error without leaves. */
  method Build(pair: PairHash, hashes: seq<Hash>) returns (root: Option<Tree>)
    ensures root == if hashes == [] then None else Some(Root(pair, LeavesOf(hashes)))
    ensures hashes != [] ==> root.value.hash == HashAt(pair, hashes, Depth(|hashes|), 0)
  {
    if |hashes| == 0 {
      return None;
    }
    RootByPosition(pair, hashes, Depth(|hashes|));
    var level := LeavesOf(hashes);
    while |level| > 1
      invariant |level| > 0 && Root(pair, level) == Root(pair, LeavesOf(hashes))
      decreases |level|
    {
      level := NextLevel(pair, level);
    }
    return Some(level[0]);
  }

  // ------------------------------------------------------------------ the tree by position

  /** How many nodes there are `d` levels above `n` leaves, and how many levels there are. */
  ghost function Width(n: nat, d: nat): (w: nat) { if d == 0 then n else (Width(n, d - 1) + 1) / 2 }

  ghost function Depth(n: nat): (d: nat) { if n <= 1 then 0 else 1 + Depth((n + 1) / 2) }

  /** The hash of node `k`, `d` levels above the leaves: of two neighbours, or of the last node twice when it has none. */
  ghost function HashAt(pair: PairHash, leaves: seq<Hash>, d: nat, k: nat): (h: Hash) {
    if d == 0 then if k < |leaves| then leaves[k] else 0
    else
      var right := if 2 * k + 1 < Width(|leaves|, d - 1) then 2 * k + 1 else 2 * k;
      pair(HashAt(pair, leaves, d - 1, 2 * k), HashAt(pair, leaves, d - 1, right))
  }

  lemma HashAbove(pair: PairHash, leaves: seq<Hash>, d: nat, k: nat, right: nat)
    requires right == if 2 * k + 1 < Width(|leaves|, d) then 2 * k + 1 else 2 * k
    ensures HashAt(pair, leaves, d + 1, k) == pair(HashAt(pair, leaves, d, 2 * k), HashAt(pair, leaves, d, right))
    ensures Width(|leaves|, d + 1) == (Width(|leaves|, d) + 1) / 2
  {
  }

  /** This level lies `d` levels above the leaves. */
  ghost predicate LevelAt(pair: PairHash, leaves: seq<Hash>, d: nat, level: seq<Tree>) {
    |level| == Width(|leaves|, d) && forall k :: 0 <= k < |level| ==> NodeAt(pair, leaves, d, k, level[k].hash)
  }

  ghost predicate NodeAt(pair: PairHash, leaves: seq<Hash>, d: nat, k: nat, h: Hash) { h == HashAt(pair, leaves, d, k) }

  lemma ParentAt(pair: PairHash, leaves: seq<Hash>, d: nat, e: nat, level: seq<Tree>, k: nat, h: Hash)
    requires LevelAt(pair, leaves, d, level) && e == d + 1 && 2 * k < |level|
    requires h == pair(level[2 * k].hash, level[if 2 * k + 1 < |level| then 2 * k + 1 else 2 * k].hash)
    ensures NodeAt(pair, leaves, e, k, h)
  {
    var right := if 2 * k + 1 < |level| then 2 * k + 1 else 2 * k;
    HashAbove(pair, leaves, d, k, right);
    assert NodeAt(pair, leaves, d, 2 * k, level[2 * k].hash) && NodeAt(pair, leaves, d, right, level[right].hash);
  }

  lemma ParentsAt(pair: PairHash, leaves: seq<Hash>, d: nat, e: nat, level: seq<Tree>, next: seq<Tree>)
    requires LevelAt(pair, leaves, d, level) && e == d + 1 && next == Parents(pair, level)
    ensures LevelAt(pair, leaves, e, next)
  {
    HashAbove(pair, leaves, d, 0, if 1 < Width(|leaves|, d) then 1 else 0);
    forall k | 0 <= k < |next| ensures NodeAt(pair, leaves, e, k, next[k].hash) {
      ParentAt(pair, leaves, d, e, level, k, next[k].hash);
    }
  }

  lemma {:induction false} RootAt(pair: PairHash, leaves: seq<Hash>, d: nat, level: seq<Tree>, top: nat)
    requires |level| > 0 && LevelAt(pair, leaves, d, level) && top == d + Depth(|level|)
    ensures Width(|leaves|, top) == 1 && NodeAt(pair, leaves, top, 0, Root(pair, level).hash)
    decreases |level|
  {
    if |level| > 1 {
      var next := Parents(pair, level);
      ParentsAt(pair, leaves, d, d + 1, level, next);
      RootAt(pair, leaves, d + 1, next, top);
    }
  }

  /** The levels built from the leaves up end in the tree that is described from the root down. */
  lemma RootByPosition(pair: PairHash, hashes: seq<Hash>, top: nat)
    requires hashes != [] && top == Depth(|hashes|)
    ensures Width(|hashes|, top) == 1 && Root(pair, LeavesOf(hashes)).hash == HashAt(pair, hashes, top, 0)
  {
    var d := 0;
    LeavesAt(pair, hashes, d, LeavesOf(hashes));
    RootAt(pair, hashes, d, LeavesOf(hashes), top);
    assert NodeAt(pair, hashes, top, 0, Root(pair, LeavesOf(hashes)).hash);
  }

  lemma LeavesAt(pair: PairHash, hashes: seq<Hash>, d: nat, level: seq<Tree>)
    requires d == 0 && level == LeavesOf(hashes)
    ensures LevelAt(pair, hashes, d, level)
  {
  }

  // ------------------------------------------------------------------ hashes alone

  ghost predicate Injective(pair: PairHash) {
    forall a, b, c, d :: pair(a, b) == pair(c, d) ==> a == c && b == d
  }

  function Hashes(level: seq<Tree>): (hs: seq<Hash>)
    ensures |hs| == |level| && forall i :: 0 <= i < |hs| ==> hs[i] == level[i].hash
  {
    seq(|level|, i requires 0 <= i < |level| => level[i].hash)
  }

  /** Equal hashes one level up mean equal hashes here. */
  lemma ParentsInjective(pair: PairHash, a: seq<Tree>, b: seq<Tree>)
    requires Injective(pair) && |a| == |b| && Hashes(Parents(pair, a)) == Hashes(Parents(pair, b))
    ensures Hashes(a) == Hashes(b)
  {
    forall i | 0 <= i < |a| ensures a[i].hash == b[i].hash {
      var k := i / 2;
      assert Parents(pair, a)[k].hash == Hashes(Parents(pair, a))[k] == Hashes(Parents(pair, b))[k] == Parents(pair, b)[k].hash;
      assert i == 2 * k || i == 2 * k + 1;
    }
  }

  /** The root hash determines all hashes of the level. */
  lemma {:induction false} RootInjective(pair: PairHash, a: seq<Tree>, b: seq<Tree>)
    requires Injective(pair) && |a| == |b| > 0 && Root(pair, a).hash == Root(pair, b).hash
    ensures Hashes(a) == Hashes(b)
    decreases |a|
  {
    if |a| == 1 {
      assert Hashes(a)[0] == Hashes(b)[0];
    } else {
      RootInjective(pair, Parents(pair, a), Parents(pair, b));
      ParentsInjective(pair, a, b);
    }
  }

  /** A root matches if and only if every block hash does. */
  lemma RootMatches(pair: PairHash, xs: seq<Hash>, ys: seq<Hash>)
    requires Injective(pair) && |xs| == |ys| > 0
    ensures Root(pair, LeavesOf(xs)).hash == Root(pair, LeavesOf(ys)).hash <==> xs == ys
  {
    if Root(pair, LeavesOf(xs)).hash == Root(pair, LeavesOf(ys)).hash {
      RootInjective(pair, LeavesOf(xs), LeavesOf(ys));
      forall i | 0 <= i < |xs| ensures xs[i] == ys[i] {
        assert Hashes(LeavesOf(xs))[i] == Hashes(LeavesOf(ys))[i];
      }
    }
  }

  // ------------------------------------------------------------------ inclusion proofs

  datatype ProofStep = ProofStep(hash: Hash, isLeft: bool)

  datatype Proof = Proof(index: nat, block: Hash, steps: seq<ProofStep>, root: Hash)

  function Sibling(level: seq<Tree>, index: nat): ProofStep
    requires index < |level|
  {
    if index % 2 == 0 then ProofStep(Partner(level, index).hash, false) else ProofStep(level[index - 1].hash, true)
  }

  function Path(pair: PairHash, level: seq<Tree>, index: nat): (steps: seq<ProofStep>)
    requires index < |level|
    decreases |level|
  {
    if |level| == 1 then [] else [Sibling(level, index)] + Path(pair, Parents(pair, level), index / 2)
  }

  function Climb(pair: PairHash, h: Hash, step: ProofStep): Hash {
    if step.isLeft then pair(step.hash, h) else pair(h, step.hash)
  }

  /** The hash after the first `n` steps of a proof. */
  function Climbed(pair: PairHash, h: Hash, steps: seq<ProofStep>, n: nat): Hash
    requires n <= |steps|
  {
    if n == 0 then h else Climb(pair, Climbed(pair, h, steps, n - 1), steps[n - 1])
  }

  /** `GetProof`: an error for an index out of range. */
  method GetProof(pair: PairHash, hashes: seq<Hash>, index: nat) returns (proof: Option<Proof>)
    ensures proof == if index >= |hashes| then None
                     else Some(Proof(index, hashes[index], Path(pair, LeavesOf(hashes), index),
                                     Root(pair, LeavesOf(hashes)).hash))
  {
    if index >= |hashes| {
      return None;
    }
    var root := Build(pair, hashes);
    var steps := CollectSteps(pair, LeavesOf(hashes), index);
    return Some(Proof(index, hashes[index], steps, root.value.hash));
  }

  method SiblingStep(level: seq<Tree>, index: nat) returns (step: ProofStep)
    requires index < |level|
    ensures step == Sibling(level, index)
  {
    var sibling := if index % 2 == 0 then index + 1 else index - 1;
    if sibling >= |level| {
      sibling := index;
    }
    step := ProofStep(level[sibling].hash, index % 2 != 0);
  }

  /** The loop of `GetProof`. */
  method CollectSteps(pair: PairHash, leaves: seq<Tree>, index: nat) returns (steps: seq<ProofStep>)
    requires index < |leaves|
    ensures steps == Path(pair, leaves, index)
  {
    steps := [];
    var level: seq<Tree>, i: nat := leaves, index;
    while |level| > 1
      invariant i < |level| && steps + Path(pair, level, i) == Path(pair, leaves, index)
      decreases |level|
    {
      var step := SiblingStep(level, i);
      ghost var rest := Path(pair, Parents(pair, level), i / 2);
      assert steps + ([step] + rest) == steps + [step] + rest;
      steps := steps + [step];
      level := NextLevel(pair, level);
      i := i / 2;
    }
  }

  /** `VerifyProof`. */
  method VerifyProof(pair: PairHash, proof: Proof) returns (ok: bool)
    ensures ok <==> Climbed(pair, proof.block, proof.steps, |proof.steps|) == proof.root
  {
    if |proof.steps| == 0 {
      return proof.block == proof.root;
    }
    var current := proof.block;
    for i := 0 to |proof.steps|
      invariant current == Climbed(pair, proof.block, proof.steps, i)
    {
      var step := proof.steps[i];
      current := if step.isLeft then pair(step.hash, current) else pair(current, step.hash);
    }
    ok := current == proof.root;
  }

  lemma {:induction false} ClimbFirst(pair: PairHash, h: Hash, first: ProofStep, rest: seq<ProofStep>, n: nat)
    requires n <= |rest|
    ensures Climbed(pair, h, [first] + rest, n + 1) == Climbed(pair, Climb(pair, h, first), rest, n)
  {
    if n > 0 {
      ClimbFirst(pair, h, first, rest, n - 1);
    } else {
      assert Climbed(pair, h, [first] + rest, 0) == h;
    }
  }

  lemma ClimbOnce(pair: PairHash, level: seq<Tree>, index: nat)
    requires index < |level|
    ensures Climb(pair, level[index].hash, Sibling(level, index)) == Parents(pair, level)[index / 2].hash
  {
    var k := index / 2;
    assert Parents(pair, level)[k] == Combine(pair, level[2 * k], Partner(level, 2 * k));
    assert index == 2 * k || index == 2 * k + 1;
  }

  /** The proof of any block, on a level of any size, leads to the root. */
  lemma {:induction false} PathLeadsToRoot(pair: PairHash, level: seq<Tree>, index: nat)
    requires index < |level|
    ensures var steps := Path(pair, level, index);
            Climbed(pair, level[index].hash, steps, |steps|) == Root(pair, level).hash
    decreases |level|
  {
    if |level| > 1 {
      var next, rest := Parents(pair, level), Path(pair, Parents(pair, level), index / 2);
      PathLeadsToRoot(pair, next, index / 2);
      ClimbFirst(pair, level[index].hash, Sibling(level, index), rest, |rest|);
      ClimbOnce(pair, level, index);
    }
  }

  /** With the same steps, different block hashes lead to different roots. */
  lemma {:induction false} ClimbInjective(pair: PairHash, h: Hash, h': Hash, steps: seq<ProofStep>, n: nat)
    requires Injective(pair) && n <= |steps| && Climbed(pair, h, steps, n) == Climbed(pair, h', steps, n)
    ensures h == h'
  {
    if n > 0 {
      ClimbInjective(pair, h, h', steps, n - 1);
    }
  }

  /** `ValidateBlock`: a block passes if and only if it has the hash the tree was built from. */
  method ValidateBlock(pair: PairHash, hashes: seq<Hash>, index: nat, blockHash: Hash) returns (ok: bool)
    requires Injective(pair)
    ensures ok <==> index < |hashes| && blockHash == hashes[index]
  {
    var proof := GetProof(pair, hashes, index);
    if proof.None? {
      return false;
    }
    ok := VerifyProof(pair, proof.value.(block := blockHash));
    var steps := proof.value.steps;
    PathLeadsToRoot(pair, LeavesOf(hashes), index);
    if ok {
      ClimbInjective(pair, blockHash, hashes[index], steps, |steps|);
    }
  }

  // ------------------------------------------------------------------ finding corrupted blocks

  /** `findCorruptedBlocks`: compares two trees and halves the range of block numbers on the way down. */
  function FindCorrupted(expected: Tree, actual: Tree, start: nat, end: nat): (found: seq<nat>)
    requires start <= end
    decreases expected
  {
    if expected.Leaf? then (if expected.hash != actual.hash then [start] else [])
    else if expected.hash == actual.hash || actual.Leaf? then []
    else
      var mid := start + (end - start) / 2;
      FindCorrupted(expected.left, actual.left, start, mid)
      + if end > mid then FindCorrupted(expected.right, actual.right, mid, end) else []
  }

  datatype Validation = Error | Result(valid: bool, corrupted: seq<nat>)

  /** `Verify` against a tree built from `leaves`. */
  method Verify(pair: PairHash, leaves: seq<Hash>, blocks: seq<Hash>) returns (v: Validation)
    requires Injective(pair)
    ensures blocks == [] || |blocks| != |leaves| ==> v == Error
    ensures blocks != [] && |blocks| == |leaves| ==> v.Result? && (v.valid <==> blocks == leaves)
    ensures v.Result? && v.valid ==> v.corrupted == []
    ensures v.Result? && !v.valid ==> v.corrupted == Reported(pair, leaves, blocks)
  {
    if |blocks| == 0 || |blocks| != |leaves| {
      return Error;
    }
    var expected := Build(pair, leaves);
    var actual := Build(pair, blocks);
    RootMatches(pair, leaves, blocks);
    if expected.value.hash == actual.value.hash {
      return Result(true, []);
    }
    return Result(false, FindCorrupted(expected.value, actual.value, 0, |leaves|));
  }

  /** The block numbers `Verify` reports. */
  function Reported(pair: PairHash, xs: seq<Hash>, ys: seq<Hash>): seq<nat>
    requires |xs| == |ys| > 0
  {
    FindCorrupted(Root(pair, LeavesOf(xs)), Root(pair, LeavesOf(ys)), 0, |xs|)
  }

  /** The positions where two lists of hashes differ, counted from `start`. */
  function Differences(xs: seq<Hash>, ys: seq<Hash>, start: nat, n: nat): (found: seq<nat>)
    requires n <= |xs| == |ys|
  {
    if n == 0 then []
    else if xs[n - 1] != ys[n - 1] then Differences(xs, ys, start, n - 1) + [start + n - 1]
    else Differences(xs, ys, start, n - 1)
  }

  lemma {:induction false} DifferencesIn(xs: seq<Hash>, ys: seq<Hash>, start: nat, n: nat, k: nat)
    requires n <= |xs| == |ys|
    ensures k in Differences(xs, ys, start, n) <==> start <= k < start + n && xs[k - start] != ys[k - start]
  {
    if n > 0 {
      DifferencesIn(xs, ys, start, n - 1, k);
    }
  }

  lemma {:induction false} DifferencesConcat(xs: seq<Hash>, ys: seq<Hash>, xs': seq<Hash>, ys': seq<Hash>, start: nat, n: nat)
    requires |xs| == |ys| && n <= |xs'| == |ys'|
    ensures Differences(xs + xs', ys + ys', start, |xs| + n)
            == Differences(xs, ys, start, |xs|) + Differences(xs', ys', start + |xs|, n)
  {
    if n > 0 {
      DifferencesConcat(xs, ys, xs', ys', start, n - 1);
    } else {
      DifferencesPrefix(xs, ys, xs', ys', start, |xs|);
    }
  }

  lemma {:induction false} DifferencesPrefix(xs: seq<Hash>, ys: seq<Hash>, xs': seq<Hash>, ys': seq<Hash>, start: nat, n: nat)
    requires n <= |xs| == |ys| && |xs'| == |ys'|
    ensures Differences(xs + xs', ys + ys', start, n) == Differences(xs, ys, start, n)
  {
    if n > 0 {
      DifferencesPrefix(xs, ys, xs', ys', start, n - 1);
    }
  }

  lemma {:induction false} NoDifferences(xs: seq<Hash>, start: nat, n: nat)
    requires n <= |xs|
    ensures Differences(xs, xs, start, n) == []
  {
    if n > 0 {
      NoDifferences(xs, start, n - 1);
    }
  }

  function Pow2(k: nat): (p: nat)
    ensures p > 0
  {
    if k == 0 then 1 else 2 * Pow2(k - 1)
  }

  /** A tree with all leaves at depth `d`, each inner hash that of its children. */
  ghost predicate Perfect(pair: PairHash, t: Tree, d: nat) {
    if d == 0 then t.Leaf?
    else t.Node? && t.hash == pair(t.left.hash, t.right.hash) && Perfect(pair, t.left, d - 1) && Perfect(pair, t.right, d - 1)
  }

  function Leaves(t: Tree): (hs: seq<Hash>) {
    if t.Leaf? then [t.hash] else Leaves(t.left) + Leaves(t.right)
  }

  lemma {:induction false} PerfectSize(pair: PairHash, t: Tree, d: nat)
    requires Perfect(pair, t, d)
    ensures |Leaves(t)| == Pow2(d)
  {
    if d > 0 {
      PerfectSize(pair, t.left, d - 1);
      PerfectSize(pair, t.right, d - 1);
    }
  }

  lemma {:induction false} PerfectInjective(pair: PairHash, e: Tree, a: Tree, d: nat)
    requires Injective(pair) && Perfect(pair, e, d) && Perfect(pair, a, d) && e.hash == a.hash
    ensures Leaves(e) == Leaves(a)
  {
    if d > 0 {
      PerfectInjective(pair, e.left, a.left, d - 1);
      PerfectInjective(pair, e.right, a.right, d - 1);
    }
  }

  /** One level of the search, where the range is the tree's own. */
  lemma FindSplits(e: Tree, a: Tree, start: nat, mid: nat, end: nat, half: nat)
    requires e.Node? && a.Node? && e.hash != a.hash && half > 0 && mid == start + half && end == mid + half
    requires |Leaves(e.left)| == |Leaves(a.left)| == |Leaves(e.right)| == |Leaves(a.right)| == half
    requires FindCorrupted(e.left, a.left, start, mid) == Differences(Leaves(e.left), Leaves(a.left), start, half)
    requires FindCorrupted(e.right, a.right, mid, end) == Differences(Leaves(e.right), Leaves(a.right), mid, half)
    ensures FindCorrupted(e, a, start, end) == Differences(Leaves(e), Leaves(a), start, half + half)
  {
    DifferencesConcat(Leaves(e.left), Leaves(a.left), Leaves(e.right), Leaves(a.right), start, half);
    FindBothHalves(e, a, start, mid, end, half);
  }

  lemma FindBothHalves(e: Tree, a: Tree, start: nat, mid: nat, end: nat, half: nat)
    requires e.Node? && a.Node? && e.hash != a.hash && half > 0 && mid == start + half && end == mid + half
    ensures FindCorrupted(e, a, start, end) == FindCorrupted(e.left, a.left, start, mid) + FindCorrupted(e.right, a.right, mid, end)
  {
    assert start + (end - start) / 2 == mid;
  }

  lemma FindAtLeaf(e: Tree, a: Tree, start: nat)
    requires e.Leaf? && a.Leaf?
    ensures FindCorrupted(e, a, start, start + 1) == Differences(Leaves(e), Leaves(a), start, 1)
  {
    assert Differences(Leaves(e), Leaves(a), start, 0) == [];
  }

  lemma FindNothing(e: Tree, a: Tree, start: nat, end: nat, n: nat)
    requires e.Node? && e.hash == a.hash && Leaves(e) == Leaves(a) && n <= |Leaves(e)| && start <= end
    ensures FindCorrupted(e, a, start, end) == Differences(Leaves(e), Leaves(a), start, n)
  {
    NoDifferences(Leaves(e), start, n);
  }

  /** On perfect trees, halving the range follows the tree: the differences are reported exactly. */
  lemma {:induction false} FindExact(pair: PairHash, e: Tree, a: Tree, d: nat, start: nat, end: nat, n: nat)
    requires Injective(pair) && Perfect(pair, e, d) && Perfect(pair, a, d) && n == Pow2(d) && end == start + n
    ensures |Leaves(e)| == |Leaves(a)| == n
    ensures FindCorrupted(e, a, start, end) == Differences(Leaves(e), Leaves(a), start, n)
    decreases d
  {
    PerfectSize(pair, e, d);
    PerfectSize(pair, a, d);
    if d == 0 {
      FindAtLeaf(e, a, start);
    } else if e.hash == a.hash {
      PerfectInjective(pair, e, a, d);
      FindNothing(e, a, start, end, n);
    } else {
      var half := Pow2(d - 1);
      var mid := start + half;
      FindExact(pair, e.left, a.left, d - 1, start, mid, half);
      FindExact(pair, e.right, a.right, d - 1, mid, end, half);
      FindSplits(e, a, start, mid, end, half);
    }
  }

  // ------------------------------------------------------------------ what is reported of any tree

  /** The leaf at the end of a path of left (false) and right turns. */
  ghost function LeafAt(t: Tree, path: seq<bool>): (h: Option<Hash>)
    decreases t
  {
    if path == [] then if t.Leaf? then Some(t.hash) else None
    else if t.Leaf? then None
    else LeafAt(if path[0] then t.right else t.left, path[1..])
  }

  /** The index that halving the range along a path ends in; none where it turns right in an empty range. */
  ghost function IndexAlong(start: nat, end: nat, path: seq<bool>): (index: Option<nat>)
    requires start <= end
    decreases |path|
  {
    var mid := start + (end - start) / 2;
    if path == [] then Some(start)
    else if !path[0] then IndexAlong(start, mid, path[1..])
    else if mid < end then IndexAlong(mid, end, path[1..])
    else None
  }

  /** Two trees with the same paths, each inner hash that of its children. */
  ghost predicate Alike(pair: PairHash, e: Tree, a: Tree) {
    if e.Leaf? then a.Leaf?
    else
      && a.Node? && e.hash == pair(e.left.hash, e.right.hash) && a.hash == pair(a.left.hash, a.right.hash)
      && Alike(pair, e.left, a.left) && Alike(pair, e.right, a.right)
  }

  ghost predicate DiffersAt(e: Tree, a: Tree, path: seq<bool>) { LeafAt(e, path).Some? && LeafAt(e, path) != LeafAt(a, path) }

  lemma {:induction false} EqualEverywhere(pair: PairHash, e: Tree, a: Tree, path: seq<bool>)
    requires Injective(pair) && Alike(pair, e, a) && e.hash == a.hash
    ensures LeafAt(e, path) == LeafAt(a, path)
    decreases e
  {
    if e.Node? && path != [] {
      if path[0] {
        EqualEverywhere(pair, e.right, a.right, path[1..]);
      } else {
        EqualEverywhere(pair, e.left, a.left, path[1..]);
      }
    }
  }

  /** The halving along the path of some differing leaf ends in this index. */
  ghost predicate Ends(e: Tree, a: Tree, start: nat, end: nat, f: nat)
    requires start <= end
  {
    exists path :: DiffersAt(e, a, path) && IndexAlong(start, end, path) == Some(f)
  }

  /** An index is reported exactly when the halving along the path of some differing leaf ends in it. */
  lemma {:induction false} ReportedAlong(pair: PairHash, e: Tree, a: Tree, start: nat, end: nat, f: nat)
    requires Injective(pair) && Alike(pair, e, a) && start <= end
    ensures f in FindCorrupted(e, a, start, end) <==> Ends(e, a, start, end, f)
    decreases e
  {
    if e.Leaf? {
      assert DiffersAt(e, a, []) <==> e.hash != a.hash;
      assert IndexAlong(start, end, []) == Some(start);
    } else if e.hash == a.hash {
      forall path ensures !DiffersAt(e, a, path) {
        EqualEverywhere(pair, e, a, path);
      }
    } else {
      var mid := start + (end - start) / 2;
      ReportedAlong(pair, e.left, a.left, start, mid, f);
      ReportedAlong(pair, e.right, a.right, mid, end, f);
      EndsBelow(e, a, start, mid, end, f);
      FoundBelow(e, a, start, mid, end, f);
    }
  }

  lemma EndsBelow(e: Tree, a: Tree, start: nat, mid: nat, end: nat, f: nat)
    requires e.Node? && a.Node? && start <= end && mid == start + (end - start) / 2
    ensures Ends(e, a, start, end, f) <==> Ends(e.left, a.left, start, mid, f) || (mid < end && Ends(e.right, a.right, mid, end, f))
  {
    if Ends(e.left, a.left, start, mid, f) {
      var rest :| DiffersAt(e.left, a.left, rest) && IndexAlong(start, mid, rest) == Some(f);
      Turned(e, a, start, mid, end, f, false, rest, [false] + rest);
    }
    if mid < end && Ends(e.right, a.right, mid, end, f) {
      var rest :| DiffersAt(e.right, a.right, rest) && IndexAlong(mid, end, rest) == Some(f);
      Turned(e, a, start, mid, end, f, true, rest, [true] + rest);
    }
    if Ends(e, a, start, end, f) {
      var path :| DiffersAt(e, a, path) && IndexAlong(start, end, path) == Some(f);
      if path[0] {
        assert DiffersAt(e.right, a.right, path[1..]) && IndexAlong(mid, end, path[1..]) == Some(f);
      } else {
        assert DiffersAt(e.left, a.left, path[1..]) && IndexAlong(start, mid, path[1..]) == Some(f);
      }
    }
  }

  lemma Turned(e: Tree, a: Tree, start: nat, mid: nat, end: nat, f: nat, toRight: bool, rest: seq<bool>, path: seq<bool>)
    requires e.Node? && a.Node? && start <= end && mid == start + (end - start) / 2 && path == [toRight] + rest
    requires if toRight then mid < end && DiffersAt(e.right, a.right, rest) && IndexAlong(mid, end, rest) == Some(f)
             else DiffersAt(e.left, a.left, rest) && IndexAlong(start, mid, rest) == Some(f)
    ensures Ends(e, a, start, end, f)
  {
    assert path[1..] == rest;
    assert DiffersAt(e, a, path) && IndexAlong(start, end, path) == Some(f);
  }

  lemma FoundBelow(e: Tree, a: Tree, start: nat, mid: nat, end: nat, f: nat)
    requires e.Node? && a.Node? && e.hash != a.hash && start <= end && mid == start + (end - start) / 2
    ensures f in FindCorrupted(e, a, start, end) <==>
            f in FindCorrupted(e.left, a.left, start, mid) || (mid < end && f in FindCorrupted(e.right, a.right, mid, end))
  {
  }

  lemma AlikeParents(pair: PairHash, l: seq<Tree>, m: seq<Tree>)
    requires |l| == |m| && forall i :: 0 <= i < |l| ==> Alike(pair, l[i], m[i])
    ensures forall i :: 0 <= i < |Parents(pair, l)| ==> Alike(pair, Parents(pair, l)[i], Parents(pair, m)[i])
  {
  }

  lemma {:induction false} AlikeRoots(pair: PairHash, l: seq<Tree>, m: seq<Tree>)
    requires 0 < |l| == |m| && forall i :: 0 <= i < |l| ==> Alike(pair, l[i], m[i])
    ensures Alike(pair, Root(pair, l), Root(pair, m))
    decreases |l|
  {
    if |l| > 1 {
      AlikeParents(pair, l, m);
      AlikeRoots(pair, Parents(pair, l), Parents(pair, m));
    }
  }

  /** For any number of blocks: exactly the indices that the paths of corrupted blocks are halved to are reported. */
  lemma ReportedExactly(pair: PairHash, xs: seq<Hash>, ys: seq<Hash>, f: nat)
    requires Injective(pair) && |xs| == |ys| > 0
    ensures f in Reported(pair, xs, ys) <==> Ends(Root(pair, LeavesOf(xs)), Root(pair, LeavesOf(ys)), 0, |xs|, f)
  {
    AlikeRoots(pair, LeavesOf(xs), LeavesOf(ys));
    ReportedAlong(pair, Root(pair, LeavesOf(xs)), Root(pair, LeavesOf(ys)), 0, |xs|, f);
  }

  // ------------------------------------------------------------------ the shape of built trees

  /** The leaves under the first `n` trees of a level. */
  ghost function AllLeaves(level: seq<Tree>, n: nat): (hs: seq<Hash>)
    requires n <= |level|
  {
    if n == 0 then [] else AllLeaves(level, n - 1) + Leaves(level[n - 1])
  }

  lemma {:induction false} ParentLeaves(pair: PairHash, level: seq<Tree>, next: seq<Tree>, n: nat)
    requires |level| % 2 == 0 && next == Parents(pair, level) && n <= |next|
    ensures AllLeaves(next, n) == AllLeaves(level, 2 * n)
  {
    if n > 0 {
      ParentLeaves(pair, level, next, n - 1);
      var front, l, r := AllLeaves(level, 2 * n - 2), level[2 * n - 2], level[2 * n - 1];
      assert next[n - 1] == Combine(pair, level[2 * (n - 1)], Partner(level, 2 * (n - 1)));
      assert next[n - 1] == Combine(pair, l, r);
      assert AllLeaves(level, 2 * n - 1) == front + Leaves(l);
      assert front + Leaves(l) + Leaves(r) == front + (Leaves(l) + Leaves(r));
    }
  }

  ghost predicate AllPerfect(pair: PairHash, level: seq<Tree>, d: nat) {
    forall i :: 0 <= i < |level| ==> Perfect(pair, level[i], d)
  }

  lemma ParentsPerfect(pair: PairHash, level: seq<Tree>, next: seq<Tree>, d: nat)
    requires |level| % 2 == 0 && AllPerfect(pair, level, d) && next == Parents(pair, level)
    ensures AllPerfect(pair, next, d + 1)
  {
    forall i | 0 <= i < |next| ensures Perfect(pair, next[i], d + 1) {
      assert next[i] == Combine(pair, level[2 * i], Partner(level, 2 * i));
    }
  }

  lemma HalfPow2(k: nat, m: nat)
    requires k > 0 && m == Pow2(k)
    ensures m > 1 && m % 2 == 0 && (m + 1) / 2 == Pow2(k - 1)
  {
  }

  /** From a level of 2^k perfect trees comes a perfect tree. */
  lemma {:induction false} RootPerfect(pair: PairHash, level: seq<Tree>, d: nat, k: nat)
    requires |level| == Pow2(k) && AllPerfect(pair, level, d)
    ensures Perfect(pair, Root(pair, level), d + k)
    decreases k
  {
    if k > 0 {
      HalfPow2(k, |level|);
      ParentsPerfect(pair, level, Parents(pair, level), d);
      RootPerfect(pair, Parents(pair, level), d + 1, k - 1);
    }
  }

  /** And it has the same leaves. */
  lemma {:induction false} RootLeaves(pair: PairHash, level: seq<Tree>, k: nat)
    requires |level| == Pow2(k)
    ensures Leaves(Root(pair, level)) == AllLeaves(level, |level|)
    decreases k
  {
    if k == 0 {
      assert AllLeaves(level, 1) == AllLeaves(level, 0) + Leaves(level[0]);
    } else {
      HalfPow2(k, |level|);
      var next := Parents(pair, level);
      ParentLeaves(pair, level, next, |next|);
      RootLeaves(pair, next, k - 1);
    }
  }

  lemma {:induction false} LeavesOfLeaves(hashes: seq<Hash>, level: seq<Tree>, n: nat)
    requires level == LeavesOf(hashes) && n <= |hashes|
    ensures AllLeaves(level, n) == hashes[..n] && (n == |hashes| ==> AllLeaves(level, n) == hashes)
  {
    if n > 0 {
      LeavesOfLeaves(hashes, level, n - 1);
      assert Leaves(level[n - 1]) == [hashes[n - 1]];
    }
  }

  lemma BuiltPerfect(pair: PairHash, xs: seq<Hash>, level: seq<Tree>, k: nat)
    requires |xs| == Pow2(k) && level == LeavesOf(xs)
    ensures Perfect(pair, Root(pair, level), k)
  {
    assert AllPerfect(pair, level, 0);
    RootPerfect(pair, level, 0, k);
  }

  lemma BuiltLeaves(pair: PairHash, xs: seq<Hash>, level: seq<Tree>, k: nat)
    requires |xs| == Pow2(k) && level == LeavesOf(xs)
    ensures Leaves(Root(pair, level)) == xs
  {
    RootLeaves(pair, level, k);
    LeavesOfLeaves(xs, level, |xs|);
  }

  lemma FindInBuilt(pair: PairHash, e: Tree, a: Tree, xs: seq<Hash>, ys: seq<Hash>, k: nat)
    requires Injective(pair) && |xs| == |ys| == Pow2(k) && Perfect(pair, e, k) && Perfect(pair, a, k)
    requires Leaves(e) == xs && Leaves(a) == ys
    ensures FindCorrupted(e, a, 0, |xs|) == Differences(xs, ys, 0, |xs|)
  {
    FindExact(pair, e, a, k, 0, |xs|, |xs|);
  }

  /** For a power of two of blocks, exactly the corrupted ones are reported. */
  lemma ReportedExact(pair: PairHash, xs: seq<Hash>, ys: seq<Hash>, k: nat)
    requires Injective(pair) && |xs| == |ys| == Pow2(k)
    ensures Reported(pair, xs, ys) == Differences(xs, ys, 0, |xs|)
  {
    var l, m := LeavesOf(xs), LeavesOf(ys);
    BuiltPerfect(pair, xs, l, k);
    BuiltPerfect(pair, ys, m, k);
    BuiltLeaves(pair, xs, l, k);
    BuiltLeaves(pair, ys, m, k);
    FindInBuilt(pair, Root(pair, l), Root(pair, m), xs, ys, k);
  }

  // ------------------------------------------------------------------ other block counts

  /** Two trees that differ only in their second leaf, which is `k` levels down on the left. */
  ghost predicate SecondDiffers(e: Tree, a: Tree, k: nat) {
    && k > 0 && e.Node? && a.Node? && e.hash != a.hash
    && (if k == 1 then e.left == a.left && e.right.Leaf? && e.right.hash != a.right.hash
        else e.right == a.right && SecondDiffers(e.left, a.left, k - 1))
  }

  /** When the range is too short for the tree, the second block is reported as the first. */
  lemma {:induction false} FindMisplaced(e: Tree, a: Tree, k: nat, end: nat)
    requires SecondDiffers(e, a, k) && Pow2(k - 1) <= end < Pow2(k)
    ensures FindCorrupted(e, a, 0, end) == [0]
    decreases k
  {
    if k == 1 {
      assert FindCorrupted(e.left, a.left, 0, 0) == [];
    } else {
      assert Pow2(k - 2) <= end / 2 < Pow2(k - 1);
      FindMisplaced(e.left, a.left, k - 1, end / 2);
      assert FindCorrupted(e.right, a.right, end / 2, end) == [];
    }
  }

  ghost predicate SameBehind(a: seq<Tree>, b: seq<Tree>) {
    |a| == |b| > 0 && forall i :: 1 <= i < |a| ==> a[i] == b[i]
  }

  lemma SameBehindParents(pair: PairHash, a: seq<Tree>, b: seq<Tree>)
    requires |a| == |b| > 0 && forall i :: 2 <= i < |a| ==> a[i] == b[i]
    ensures SameBehind(Parents(pair, a), Parents(pair, b))
  {
    var a', b' := Parents(pair, a), Parents(pair, b);
    forall k | 1 <= k < |a'| ensures a'[k] == b'[k] {
      assert a'[k] == Combine(pair, a[2 * k], Partner(a, 2 * k));
      assert b'[k] == Combine(pair, b[2 * k], Partner(b, 2 * k));
    }
  }

  lemma Products(h: nat, p: nat, q: nat)
    requires q == h * p
    ensures h * (2 * p) == 2 * q && (h - 1) * (2 * p) == 2 * q - 2 * p
    ensures 2 * h * p == 2 * q && (2 * h - 1) * p == 2 * q - p && (2 * h - 2) * p == 2 * q - 2 * p
  {
  }

  lemma HalveBounds(m: nat, h: nat, p: nat, n: nat)
    requires m >= 2 && p > 0 && (m - 1) * p < n <= m * p && (m == 2 * h || m == 2 * h - 1)
    ensures p < n && (h - 1) * (2 * p) < n <= h * (2 * p)
  {
    Products(h, p, h * p);
    assert h * p >= 1 * p;
    if m == 2 * h - 1 {
      assert h * p >= 2 * p;
    }
  }

  /** The difference stays on the left edge up to the root, whose height is that of the block count. */
  lemma {:induction false} LeftEdge(pair: PairHash, a: seq<Tree>, b: seq<Tree>, k: nat, n: nat) returns (h: nat)
    requires Injective(pair) && SameBehind(a, b) && SecondDiffers(a[0], b[0], k)
    requires Pow2(k - 1) < n && (|a| - 1) * Pow2(k) < n <= |a| * Pow2(k)
    ensures SecondDiffers(Root(pair, a), Root(pair, b), h) && Pow2(h - 1) < n <= Pow2(h)
    decreases |a|
  {
    if |a| == 1 {
      h := k;
    } else {
      var a', b' := Parents(pair, a), Parents(pair, b);
      SameBehindParents(pair, a, b);
      EdgeUp(pair, a, b, k);
      HalveBounds(|a|, |a'|, Pow2(k), n);
      h := LeftEdge(pair, a', b', k + 1, n);
    }
  }

  lemma EdgeUp(pair: PairHash, a: seq<Tree>, b: seq<Tree>, k: nat)
    requires Injective(pair) && SameBehind(a, b) && |a| > 1 && SecondDiffers(a[0], b[0], k)
    ensures SecondDiffers(Parents(pair, a)[0], Parents(pair, b)[0], k + 1)
  {
    assert Parents(pair, a)[0] == Combine(pair, a[2 * 0], Partner(a, 2 * 0));
    assert Parents(pair, b)[0] == Combine(pair, b[2 * 0], Partner(b, 2 * 0));
  }

  ghost predicate IsPow2(n: nat) { exists k: nat :: Pow2(k) == n }

  lemma SmallPowers()
    ensures IsPow2(1) && IsPow2(2)
  {
    assert Pow2(0) == 1 && Pow2(1) == 2;
  }

  /** The leaves' parents, when only the second block differs. */
  lemma FirstParents(pair: PairHash, xs: seq<Hash>, ys: seq<Hash>)
    requires Injective(pair) && |xs| == |ys| > 1 && xs[1] != ys[1]
    requires forall i :: 0 <= i < |xs| && i != 1 ==> xs[i] == ys[i]
    ensures var a, b := Parents(pair, LeavesOf(xs)), Parents(pair, LeavesOf(ys));
            SameBehind(a, b) && SecondDiffers(a[0], b[0], 1)
  {
    var l, m := LeavesOf(xs), LeavesOf(ys);
    SameBehindParents(pair, l, m);
    assert Parents(pair, l)[0] == Combine(pair, l[2 * 0], Partner(l, 2 * 0));
    assert Parents(pair, m)[0] == Combine(pair, m[2 * 0], Partner(m, 2 * 0));
  }

  /** For any other number of blocks, a corrupted second block is reported as the first. */
  lemma Misreported(pair: PairHash, xs: seq<Hash>, ys: seq<Hash>)
    requires Injective(pair) && |xs| == |ys| > 0 && !IsPow2(|xs|)
    requires |xs| > 1 ==> xs[1] != ys[1]
    requires forall i :: 0 <= i < |xs| && i != 1 ==> xs[i] == ys[i]
    ensures Reported(pair, xs, ys) == [0]
  {
    SmallPowers();
    var n := |xs|;
    var a, b := Parents(pair, LeavesOf(xs)), Parents(pair, LeavesOf(ys));
    FirstParents(pair, xs, ys);
    assert Pow2(0) == 1 && Pow2(1) == 2;
    assert (|a| - 1) * 2 < n <= |a| * 2;
    var h := LeftEdge(pair, a, b, 1, n);
    assert Pow2(h) != n;
    FindMisplaced(Root(pair, LeavesOf(xs)), Root(pair, LeavesOf(ys)), h, n);
  }

  /** Exactly the corrupted blocks are reported, whatever the hashes, if and only if the block count is a power of two. */
  lemma ExactIffPowerOfTwo(pair: PairHash, n: nat)
    requires Injective(pair) && n > 0
    ensures IsPow2(n) <==> forall xs: seq<Hash>, ys: seq<Hash> :: |xs| == |ys| == n ==>
                             Reported(pair, xs, ys) == Differences(xs, ys, 0, n)
  {
    if IsPow2(n) {
      var k: nat :| Pow2(k) == n;
      forall xs: seq<Hash>, ys: seq<Hash> | |xs| == |ys| == n ensures Reported(pair, xs, ys) == Differences(xs, ys, 0, n) {
        ReportedExact(pair, xs, ys, k);
      }
    } else {
      SmallPowers();
      var xs: seq<Hash> := seq(n, _ => 0);
      var ys := xs[1 := 1];
      Misreported(pair, xs, ys);
      DifferencesIn(xs, ys, 0, n, 0);
      assert 0 in Reported(pair, xs, ys);
    }
  }
}

/** Sequences of entries in the comparator's order, and taking one entry out or finding one. */
module OrderedEntries {
  import opened Keys
  import opened Options
  import opened Records

  lemma SortedParts(l: seq<Record>, x: Record, r: seq<Record>)
    requires Sorted(l + [x] + r)
    ensures Sorted(l) && Sorted(r)
    ensures (forall i :: 0 <= i < |l| ==> Le(l[i], x)) && (forall i :: 0 <= i < |r| ==> Le(x, r[i]))
  {
    var s := l + [x] + r;
    assert forall i :: 0 <= i < |l| ==> l[i] == s[i];
    assert s[|l|] == x;
    assert forall i :: 0 <= i < |r| ==> r[i] == s[|l| + 1 + i];
  }

  /** In order, and no two entries with the same key and sequence number. */
  ghost predicate Strict(s: seq<Record>) {
    forall i, j :: 0 <= i < j < |s| ==> Cmp(s[i], s[j]) < 0
  }

  /** Entry `k`, which compares equal to `e`, is gone; or (-1) there was none and nothing is. */
  ghost predicate Removed(s: seq<Record>, e: Record, s': seq<Record>, k: int) {
    if k == -1 then s' == s && Absent(s, e)
    else 0 <= k < |s| && Cmp(e, s[k]) == 0 && s' == s[..k] + s[k + 1..]
  }

  ghost predicate Absent(s: seq<Record>, e: Record) {
    forall i :: 0 <= i < |s| ==> Cmp(e, s[i]) != 0
  }

  lemma Middle(l: seq<Record>, x: Record, r: seq<Record>, s: seq<Record>)
    requires s == l + [x] + r
    ensures |s| == |l| + 1 + |r| && s[|l|] == x
    ensures (forall i :: 0 <= i < |l| ==> s[i] == l[i]) && (forall i :: |l| < i < |s| ==> s[i] == r[i - |l| - 1])
  {
  }

  lemma StrictParts(l: seq<Record>, x: Record, r: seq<Record>, s: seq<Record>)
    requires s == l + [x] + r && Strict(s)
    ensures Strict(l) && Strict(r)
    ensures (forall i :: 0 <= i < |l| ==> Cmp(l[i], x) < 0) && (forall i :: 0 <= i < |r| ==> Cmp(x, r[i]) < 0)
  {
    Middle(l, x, r, s);
    forall i, j | 0 <= i < j < |r| ensures Cmp(r[i], r[j]) < 0 {
      assert r[i] == s[|l| + 1 + i] && r[j] == s[|l| + 1 + j];
    }
    forall i | 0 <= i < |r| ensures Cmp(x, r[i]) < 0 {
      assert r[i] == s[|l| + 1 + i];
    }
  }

  lemma CutLeft(l: seq<Record>, x: Record, r: seq<Record>, s: seq<Record>, k: nat)
    requires s == l + [x] + r && k < |l|
    ensures s[k] == l[k] && s[..k] + s[k + 1..] == l[..k] + l[k + 1..] + [x] + r
  {
    assert s[..k] == l[..k];
    assert s[k + 1..] == l[k + 1..] + [x] + r;
    assert l[..k] + (l[k + 1..] + [x] + r) == l[..k] + l[k + 1..] + [x] + r;
  }

  lemma CutRight(l: seq<Record>, x: Record, r: seq<Record>, s: seq<Record>, k: nat, n: nat)
    requires s == l + [x] + r && k < |r| && n == |l| + 1 + k
    ensures s[n] == r[k] && s[..n] + s[n + 1..] == l + [x] + (r[..k] + r[k + 1..])
  {
    assert s[..n] == l + [x] + r[..k];
    assert s[n + 1..] == r[k + 1..];
  }

  lemma CmpTransitive(a: Record, b: Record, c: Record)
    ensures Cmp(a, b) < 0 && Cmp(b, c) < 0 ==> Cmp(a, c) < 0
    ensures Cmp(a, b) > 0 && Cmp(c, b) < 0 ==> Cmp(a, c) > 0
  {
  }

  lemma AbsentLeft(l: seq<Record>, x: Record, r: seq<Record>, s: seq<Record>, e: Record)
    requires s == l + [x] + r && Strict(s) && Cmp(e, x) < 0 && Absent(l, e)
    ensures Absent(s, e)
  {
    StrictParts(l, x, r, s);
    Middle(l, x, r, s);
    forall i | 0 <= i < |s| ensures Cmp(e, s[i]) != 0 {
      if i > |l| {
        CmpTransitive(e, x, r[i - |l| - 1]);
      }
    }
  }

  lemma AbsentRight(l: seq<Record>, x: Record, r: seq<Record>, s: seq<Record>, e: Record)
    requires s == l + [x] + r && Strict(s) && Cmp(e, x) > 0 && Absent(r, e)
    ensures Absent(s, e)
  {
    StrictParts(l, x, r, s);
    Middle(l, x, r, s);
    forall i | 0 <= i < |s| ensures Cmp(e, s[i]) != 0 {
      if i < |l| {
        CmpTransitive(e, x, l[i]);
      }
    }
  }

  lemma RemovedLeft(l: seq<Record>, x: Record, r: seq<Record>, s: seq<Record>, e: Record, l': seq<Record>, k: int)
    requires s == l + [x] + r && Strict(s) && Cmp(e, x) < 0 && Removed(l, e, l', k)
    ensures Removed(s, e, l' + [x] + r, k)
  {
    if k == -1 {
      AbsentLeft(l, x, r, s, e);
    } else {
      CutLeft(l, x, r, s, k);
    }
  }

  lemma RemovedRight(l: seq<Record>, x: Record, r: seq<Record>, s: seq<Record>, e: Record, r': seq<Record>, k: int)
    requires s == l + [x] + r && Strict(s) && Cmp(e, x) > 0 && Removed(r, e, r', k)
    ensures Removed(s, e, l + [x] + r', if k == -1 then -1 else |l| + 1 + k)
  {
    if k == -1 {
      AbsentRight(l, x, r, s, e);
    } else {
      CutRight(l, x, r, s, k, |l| + 1 + k);
    }
  }

  lemma RemovedHere(l: seq<Record>, x: Record, r: seq<Record>, s: seq<Record>, e: Record)
    requires s == l + [x] + r && Cmp(e, x) == 0
    ensures Removed(s, e, l + r, |l|)
  {
    Middle(l, x, r, s);
    assert s[..|l|] == l && s[|l| + 1..] == r;
  }

  lemma CmpSelf(e: Record)
    ensures Cmp(e, e) == 0
  {
  }

  /** The newest version at the first key not below the target: the first entry in order with such a key. */
  ghost predicate FirstNotBelow(s: seq<Record>, key: Key, e: Option<Record>) {
    match e
    case None => forall i :: 0 <= i < |s| ==> s[i].key < key
    case Some(r) => exists i :: 0 <= i < |s| && s[i] == r && r.key >= key && forall j :: 0 <= j < i ==> s[j].key < key
  }

  /** The first `k` entries are below the key and the next, if there is one, is not. */
  ghost predicate CutAt(s: seq<Record>, key: Key, k: nat) {
    k <= |s| && (forall i :: 0 <= i < k ==> s[i].key < key) && (k < |s| ==> s[k].key >= key)
  }

  // ------------------------------------------------------------------ three stretches

  lemma Thirds(p: seq<Record>, c: seq<Record>, q: seq<Record>, s: seq<Record>)
    requires s == p + c + q
    ensures |s| == |p| + |c| + |q| && (forall i :: 0 <= i < |p| ==> s[i] == p[i])
    ensures (forall i :: |p| <= i < |p| + |c| ==> s[i] == c[i - |p|]) && (forall i :: |p| + |c| <= i < |s| ==> s[i] == q[i - |p| - |c|])
  {
  }

  lemma SortedMid(p: seq<Record>, c: seq<Record>, q: seq<Record>, s: seq<Record>)
    requires s == p + c + q && Sorted(s)
    ensures Sorted(p) && Sorted(c) && Sorted(q)
  {
    Thirds(p, c, q, s);
    forall i, j | 0 <= i < j < |c| ensures Le(c[i], c[j]) {
      assert c[i] == s[|p| + i] && c[j] == s[|p| + j];
    }
    forall i, j | 0 <= i < j < |q| ensures Le(q[i], q[j]) {
      assert q[i] == s[|p| + |c| + i] && q[j] == s[|p| + |c| + j];
    }
  }

  /** Nothing in front is above `e`, nothing behind below it. */
  ghost predicate Between(p: seq<Record>, e: Record, q: seq<Record>) {
    (forall i :: 0 <= i < |p| ==> Le(p[i], e)) && (forall i :: 0 <= i < |q| ==> Le(e, q[i]))
  }

  lemma LeTransitive(a: Record, b: Record, c: Record)
    requires Le(a, b) && Le(b, c)
    ensures Le(a, c)
  {
  }

  lemma BetweenEnds(p: seq<Record>, e: Record, q: seq<Record>)
    requires Sorted(p) && Sorted(q) && (p == [] || Le(p[|p| - 1], e)) && (q == [] || Le(e, q[0]))
    ensures Between(p, e, q)
  {
    forall i | 0 <= i < |p| ensures Le(p[i], e) {
      if i < |p| - 1 {
        LeTransitive(p[i], p[|p| - 1], e);
      }
    }
    forall i | 0 <= i < |q| ensures Le(e, q[i]) {
      if i > 0 {
        LeTransitive(e, q[0], q[i]);
      }
    }
  }

  /** `e` has been put in at position `k`, where it belongs. */
  ghost predicate Inserted(s: seq<Record>, e: Record, s': seq<Record>, k: nat) {
    k <= |s| && s' == s[..k] + [e] + s[k..] && Between(s[..k], e, s[k..])
  }

  lemma InsertedMid(p: seq<Record>, c: seq<Record>, q: seq<Record>, e: Record, c': seq<Record>, k: nat)
    requires Inserted(c, e, c', k) && Between(p, e, q)
    ensures Inserted(p + c + q, e, p + c' + q, |p| + k)
  {
    var s, n := p + c + q, |p| + k;
    assert s[..n] == p + c[..k];
    assert s[n..] == c[k..] + q;
    assert p + (c[..k] + [e] + c[k..]) + q == (p + c[..k]) + [e] + (c[k..] + q);
  }

  lemma InsertedSorted(s: seq<Record>, e: Record, s': seq<Record>, k: nat)
    requires Sorted(s) && Inserted(s, e, s', k)
    ensures Sorted(s')
  {
    var a, b := s[..k], s[k..];
    assert forall i :: 0 <= i < |a| ==> a[i] == s[i];
    assert forall i :: 0 <= i < |b| ==> b[i] == s[k + i];
    Middle(a, e, b, s');
    forall i, j | 0 <= i < j < |s'| ensures Le(s'[i], s'[j]) {
      if i < k && j > k {
        LeTransitive(a[i], e, b[j - k - 1]);
      }
    }
  }

  /** Everything in front is below `e`, everything behind above it. */
  ghost predicate Apart(p: seq<Record>, e: Record, q: seq<Record>) {
    (forall i :: 0 <= i < |p| ==> Cmp(e, p[i]) > 0) && (forall i :: 0 <= i < |q| ==> Cmp(e, q[i]) < 0)
  }

  lemma StrictMid(p: seq<Record>, c: seq<Record>, q: seq<Record>, s: seq<Record>)
    requires s == p + c + q && Strict(s)
    ensures Strict(p) && Strict(c) && Strict(q)
  {
    Thirds(p, c, q, s);
    forall i, j | 0 <= i < j < |c| ensures Cmp(c[i], c[j]) < 0 {
      assert c[i] == s[|p| + i] && c[j] == s[|p| + j];
    }
    forall i, j | 0 <= i < j < |q| ensures Cmp(q[i], q[j]) < 0 {
      assert q[i] == s[|p| + |c| + i] && q[j] == s[|p| + |c| + j];
    }
  }

  lemma ApartEnds(p: seq<Record>, e: Record, q: seq<Record>)
    requires Strict(p) && Strict(q) && (p == [] || Cmp(e, p[|p| - 1]) > 0) && (q == [] || Cmp(e, q[0]) < 0)
    ensures Apart(p, e, q)
  {
    forall i | 0 <= i < |p| ensures Cmp(e, p[i]) > 0 {
      if i < |p| - 1 {
        CmpTransitive(e, p[|p| - 1], p[i]);
      }
    }
    forall i | 0 <= i < |q| ensures Cmp(e, q[i]) < 0 {
      if i > 0 {
        CmpTransitive(e, q[0], q[i]);
      }
    }
  }

  lemma CutMid(p: seq<Record>, c: seq<Record>, q: seq<Record>, s: seq<Record>, k: nat, n: nat)
    requires s == p + c + q && k < |c| && n == |p| + k
    ensures s[n] == c[k] && s[..n] + s[n + 1..] == p + (c[..k] + c[k + 1..]) + q
  {
    assert s[..n] == p + c[..k];
    assert s[n + 1..] == c[k + 1..] + q;
    assert (p + c[..k]) + (c[k + 1..] + q) == p + (c[..k] + c[k + 1..]) + q;
  }

  lemma RemovedMid(p: seq<Record>, c: seq<Record>, q: seq<Record>, e: Record, c': seq<Record>, k: int)
    requires Removed(c, e, c', k) && Apart(p, e, q)
    ensures Removed(p + c + q, e, p + c' + q, if k == -1 then -1 else |p| + k)
  {
    var s := p + c + q;
    if k == -1 {
      Thirds(p, c, q, s);
    } else {
      CutMid(p, c, q, s, k, |p| + k);
    }
  }

  /** The first of different entries is the only one that compares equal to itself. */
  lemma FirstRemoved(r: seq<Record>, r': seq<Record>, k: int)
    requires r != [] && Strict(r) && Removed(r, r[0], r', k)
    ensures k != -1 && r' == r[1..] && [r[0]] + r' == r
  {
    CmpSelf(r[0]);
    assert r[..0] + r[1..] == r[1..];
  }

  lemma LastRemoved(c: seq<Record>, c': seq<Record>, k: int)
    requires c != [] && Strict(c) && Removed(c, c[|c| - 1], c', k)
    ensures k != -1 && c' + [c[|c| - 1]] == c
  {
    CmpSelf(c[|c| - 1]);
    assert k == |c| - 1;
  }
}

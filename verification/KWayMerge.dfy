/**
 Merging any number of sorted inputs: what a merge owes its caller, independent of the
 structure that selects the next input. `MinHeap` and `WinnerTree` implement it.
 */
module KWayMerge {
  import opened Records

  /** Input `i` has been consumed up to `pos[i]`. */
  predicate Positions(streams: seq<seq<Record>>, pos: seq<nat>) {
    |pos| == |streams| && forall i :: 0 <= i < |pos| ==> pos[i] <= |streams[i]|
  }

  predicate Live(streams: seq<seq<Record>>, pos: seq<nat>, i: nat)
    requires Positions(streams, pos)
  {
    i < |streams| && pos[i] < |streams[i]|
  }

  function Cur(streams: seq<seq<Record>>, pos: seq<nat>, i: nat): (r: Record)
    requires Positions(streams, pos) && Live(streams, pos, i)
  {
    streams[i][pos[i]]
  }

  /** Everything not yet consumed. */
  ghost function Remaining(streams: seq<seq<Record>>, pos: seq<nat>): (m: multiset<Record>)
    requires Positions(streams, pos)
  {
    if |streams| == 0 then multiset{}
    else
      var n := |streams| - 1;
      Remaining(streams[..n], pos[..n]) + multiset(streams[n][pos[n]..])
  }

  function Start(streams: seq<seq<Record>>): (pos: seq<nat>)
    ensures Positions(streams, pos)
  {
    seq(|streams|, _ => 0)
  }

  /** Input `w` is live and its current record comes before every other current record. */
  ghost predicate Least(streams: seq<seq<Record>>, pos: seq<nat>, w: nat)
    requires Positions(streams, pos)
  {
    && Live(streams, pos, w)
    && forall i: nat :: Live(streams, pos, i) ==> Le(Cur(streams, pos, w), Cur(streams, pos, i))
  }

  /** Everything in `out` comes before everything not yet consumed. */
  ghost predicate Precedes(streams: seq<seq<Record>>, pos: seq<nat>, out: seq<Record>)
    requires Positions(streams, pos)
  {
    forall x, i: nat :: x in out && Live(streams, pos, i) ==> Le(x, Cur(streams, pos, i))
  }

  ghost predicate AllSorted(streams: seq<seq<Record>>) {
    forall i :: 0 <= i < |streams| ==> Sorted(streams[i])
  }

  /** All inputs are sorted, and `out` is the sorted list of what has been consumed. */
  ghost predicate Merging(streams: seq<seq<Record>>, pos: seq<nat>, out: seq<Record>) {
    && Positions(streams, pos)
    && AllSorted(streams)
    && Sorted(out)
    && Precedes(streams, pos, out)
    && multiset(out) + Remaining(streams, pos) == Remaining(streams, Start(streams))
  }

  /** Consuming one record takes exactly that record out of what remains. */
  lemma {:induction false} AdvanceRemaining(streams: seq<seq<Record>>, pos: seq<nat>, w: nat)
    requires Positions(streams, pos) && Live(streams, pos, w)
    ensures Positions(streams, pos[w := pos[w] + 1])
    ensures Remaining(streams, pos) == Remaining(streams, pos[w := pos[w] + 1]) + multiset{Cur(streams, pos, w)}
  {
    var n := |streams| - 1;
    var pos' := pos[w := pos[w] + 1];
    if w == n {
      assert pos'[..n] == pos[..n];
      assert streams[n][pos[n]..] == [streams[n][pos[n]]] + streams[n][pos[n] + 1..];
    } else {
      AdvanceRemaining(streams[..n], pos[..n], w);
      assert pos'[..n] == pos[..n][w := pos[..n][w] + 1];
    }
  }

  lemma EmitPrecedes(streams: seq<seq<Record>>, pos: seq<nat>, out: seq<Record>, w: nat, pos': seq<nat>)
    requires Positions(streams, pos) && AllSorted(streams) && Precedes(streams, pos, out) && Least(streams, pos, w)
    requires pos' == pos[w := pos[w] + 1]
    ensures Positions(streams, pos') && Precedes(streams, pos', out + [Cur(streams, pos, w)])
  {
    var r := Cur(streams, pos, w);
    forall x, i: nat | x in out + [r] && Live(streams, pos', i)
      ensures Le(x, Cur(streams, pos', i))
    {
      assert Live(streams, pos, i);
      assert Le(x, Cur(streams, pos, i));
      if i == w {
        assert Sorted(streams[i]);
        assert Le(streams[i][pos[i]], streams[i][pos[i] + 1]);
      }
    }
  }

  /** Emitting the least current record keeps the merge going. */
  lemma EmitStep(streams: seq<seq<Record>>, pos: seq<nat>, out: seq<Record>, w: nat, pos': seq<nat>)
    requires Merging(streams, pos, out) && Least(streams, pos, w)
    requires pos' == pos[w := pos[w] + 1]
    ensures Merging(streams, pos', out + [Cur(streams, pos, w)])
  {
    EmitPrecedes(streams, pos, out, w, pos');
    AdvanceRemaining(streams, pos, w);
    var r := Cur(streams, pos, w);
    assert forall x :: x in out ==> Le(x, r);
    assert Sorted(out + [r]);
    assert multiset(out + [r]) == multiset(out) + multiset{r};
  }

  lemma EmitsLeast(streams: seq<seq<Record>>, pos: seq<nat>, out: seq<Record>, w: nat)
    requires Merging(streams, pos, out) && Least(streams, pos, w)
    ensures Positions(streams, pos[w := pos[w] + 1]) && Merging(streams, pos[w := pos[w] + 1], out + [Cur(streams, pos, w)])
    ensures |Remaining(streams, pos[w := pos[w] + 1])| < |Remaining(streams, pos)|
  {
    EmitStep(streams, pos, out, w, pos[w := pos[w] + 1]);
    AdvanceRemaining(streams, pos, w);
  }

  lemma StartMerging(streams: seq<seq<Record>>)
    requires AllSorted(streams)
    ensures Merging(streams, Start(streams), [])
  {
  }

  lemma {:induction false} NothingRemains(streams: seq<seq<Record>>, pos: seq<nat>)
    requires Positions(streams, pos)
    requires forall i: nat :: !Live(streams, pos, i)
    ensures Remaining(streams, pos) == multiset{}
  {
    if |streams| > 0 {
      var n := |streams| - 1;
      assert !Live(streams, pos, n);
      forall i: nat ensures !Live(streams[..n], pos[..n], i) {
        assert !Live(streams, pos, i);
      }
      NothingRemains(streams[..n], pos[..n]);
    }
  }

  lemma {:induction false} InRemaining(streams: seq<seq<Record>>, pos: seq<nat>, r: Record)
    requires Positions(streams, pos)
    ensures r in Remaining(streams, pos) <==> exists i :: 0 <= i < |streams| && r in streams[i][pos[i]..]
  {
    if |streams| > 0 {
      var n := |streams| - 1;
      InRemaining(streams[..n], pos[..n], r);
      if r in Remaining(streams[..n], pos[..n]) {
        var i :| 0 <= i < n && r in streams[..n][i][pos[..n][i]..];
        assert r in streams[i][pos[i]..];
      }
      if i :| 0 <= i < |streams| && r in streams[i][pos[i]..] {
        if i < n {
          assert r in streams[..n][i][pos[..n][i]..];
        }
      }
    }
  }

  lemma InUnconsumed(streams: seq<seq<Record>>, pos: seq<nat>, r: Record)
    requires Positions(streams, pos) && forall i :: 0 <= i < |pos| ==> pos[i] == 0
    ensures r in Remaining(streams, pos) <==> exists i :: 0 <= i < |streams| && r in streams[i]
  {
    InRemaining(streams, pos, r);
    if r in Remaining(streams, pos) {
      var i :| 0 <= i < |streams| && r in streams[i][pos[i]..];
      assert r in streams[i];
    }
    if i :| 0 <= i < |streams| && r in streams[i] {
      assert streams[i][pos[i]..] == streams[i];
    }
  }

  /** The merged output holds exactly the records of the inputs. */
  lemma MergedRecords(streams: seq<seq<Record>>, out: seq<Record>, r: Record)
    requires multiset(out) == Remaining(streams, Start(streams))
    ensures r in out <==> exists i :: 0 <= i < |streams| && r in streams[i]
  {
    InUnconsumed(streams, Start(streams), r);
    assert r in out <==> r in multiset(out);
  }

  /** No two different records have the same key and sequence number. */
  ghost predicate OnePerVersion(m: multiset<Record>) {
    forall a, b :: a in m && b in m && a.key == b.key && a.seqId == b.seqId ==> a == b
  }

  lemma HeadsAgree(a: seq<Record>, b: seq<Record>)
    requires Sorted(a) && Sorted(b) && multiset(a) == multiset(b) && OnePerVersion(multiset(a))
    requires |a| > 0 && |b| > 0
    ensures a[0] == b[0]
  {
    assert a[0] in multiset(b) && b[0] in multiset(a);
    var i :| 0 <= i < |b| && b[i] == a[0];
    var j :| 0 <= j < |a| && a[j] == b[0];
  }

  lemma TailOf(a: seq<Record>, s: seq<Record>)
    requires Sorted(a) && OnePerVersion(multiset(a)) && |a| > 0 && s == a[1..]
    ensures Sorted(s) && OnePerVersion(multiset(s)) && a == [a[0]] + s
    ensures multiset(s) == multiset(a) - multiset{a[0]}
  {
    assert a == [a[0]] + s;
  }

  lemma SameLength(a: seq<Record>, b: seq<Record>)
    requires multiset(a) == multiset(b)
    ensures |a| == |b|
  {
    assert |a| == |multiset(a)| == |multiset(b)| == |b|;
  }

  /** A sorted list is determined by its contents when a version is one record. */
  lemma {:induction false} SortedUnique(a: seq<Record>, b: seq<Record>)
    requires Sorted(a) && Sorted(b) && multiset(a) == multiset(b) && OnePerVersion(multiset(a))
    ensures a == b
    decreases |a|
  {
    SameLength(a, b);
    if |a| > 0 {
      HeadsAgree(a, b);
      var s, t := a[1..], b[1..];
      TailOf(a, s);
      TailOf(b, t);
      SortedUnique(s, t);
    }
  }

  /** Any two merges of the same inputs emit the same stream when a version is one record. */
  lemma MergesAgree(streams: seq<seq<Record>>, a: seq<Record>, b: seq<Record>)
    requires OnePerVersion(Remaining(streams, Start(streams)))
    requires Sorted(a) && multiset(a) == Remaining(streams, Start(streams))
    requires Sorted(b) && multiset(b) == Remaining(streams, Start(streams))
    ensures a == b
  {
    SortedUnique(a, b);
  }
}

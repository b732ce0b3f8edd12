/** Records of the engine and the order in which tables and merges list them. */
module Records {
  import opened Keys

  datatype OpType = Put | Del | Merge | RangeDel

  datatype Record = Record(key: Key, value: Bytes, seqId: nat, op: OpType, expiresAt: int)

  /** `recordComparator`: key ascending, then sequence number descending. */
  function Cmp(a: Record, b: Record): (c: int)
    ensures -1 <= c <= 1
  {
    if a.key < b.key then -1
    else if a.key > b.key then 1
    else if a.seqId > b.seqId then -1
    else if a.seqId < b.seqId then 1
    else 0
  }

  /** `a` may come before `b`. */
  predicate Le(a: Record, b: Record) {
    a.key < b.key || (a.key == b.key && a.seqId >= b.seqId)
  }

  lemma LeIsCmp(a: Record, b: Record)
    ensures Le(a, b) <==> Cmp(a, b) <= 0
    ensures Le(a, b) && Le(b, a) <==> Cmp(a, b) == 0
  {
  }

  ghost predicate Sorted(s: seq<Record>) {
    forall i, j :: 0 <= i < j < |s| ==> Le(s[i], s[j])
  }

  /** Position `p` is where a new key begins. */
  predicate Head(stream: seq<Record>, p: nat)
    requires p < |stream|
  {
    p == 0 || stream[p - 1].key != stream[p].key
  }

  /** Keys before a head are smaller than its key. */
  lemma SmallerBeforeHead(stream: seq<Record>, q: nat, p: nat)
    requires Sorted(stream) && q < p < |stream| && Head(stream, p)
    ensures stream[q].key < stream[p].key
  {
    assert Le(stream[q], stream[p - 1]) || q == p - 1;
    assert Le(stream[p - 1], stream[p]);
  }

  /** In a sorted stream a head is the newest record of its key. */
  lemma HeadIsNewest(stream: seq<Record>, p: nat, x: Record)
    requires Sorted(stream) && p < |stream| && Head(stream, p)
    requires x in stream && x.key == stream[p].key
    ensures x.seqId <= stream[p].seqId
  {
    forall q | 0 <= q < p ensures stream[q].key < stream[p].key {
      SmallerBeforeHead(stream, q, p);
    }
    var q :| 0 <= q < |stream| && stream[q] == x;
    assert q == p || Le(stream[p], stream[q]);
  }

  lemma NewestHasHead(stream: seq<Record>, r: Record) returns (p: nat)
    requires Sorted(stream) && r in stream
    requires forall x :: x in stream && x.key == r.key ==> x.seqId <= r.seqId
    requires forall a, b :: a in stream && b in stream && a.key == b.key && a.seqId == b.seqId ==> a == b
    ensures p < |stream| && Head(stream, p) && stream[p] == r
  {
    p :| 0 <= p < |stream| && stream[p] == r;
    while !Head(stream, p)
      invariant 0 <= p < |stream| && stream[p] == r
      decreases p
    {
      assert Le(stream[p - 1], stream[p]);
      assert stream[p - 1] in stream;
      p := p - 1;
    }
  }
}

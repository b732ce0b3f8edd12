/**
 The record loop of `MergeSSTables` (internal/sstable/manager.go:382-476) over the merged
 stream of its input tables, for plain keys: no snapshots, no probabilistic structures.
 */
module MergeLoop {
  import opened Keys
  import opened Records
  import opened RangeTombstones
  import opened KWayMerge
  import opened Tables

  predicate Expired(r: Record, now: int) {
    r.expiresAt != 0 && r.expiresAt < now
  }

  ghost predicate NoneExpired(tables: set<Table>, now: int) {
    forall r :: HasRecord(tables, r) ==> !Expired(r, now)
  }

  /** What a merge at time `now` writes: an expired newest record is dropped, and nothing takes its place. */
  ghost predicate KeptAt(inputs: set<Table>, skip: bool, now: int, r: Record) {
    IsNewest(inputs, r) && Keeps(inputs, skip, r) && (r.op == Del || !Expired(r, now))
  }

  /** Table `m` is the result of merging `inputs` at time `now`. */
  ghost predicate MergedAt(m: Table, inputs: set<Table>, skip: bool, now: int) {
    (forall r :: r in m.records <==> KeptAt(inputs, skip, now, r)) && TombstonesOf(m, inputs, skip)
  }

  /** While nothing has expired, time does not matter. */
  lemma MergedUnexpired(m: Table, inputs: set<Table>, skip: bool, now: int)
    requires MergedAt(m, inputs, skip, now) && NoneExpired(inputs, now)
    ensures MergeOf(m, inputs, skip)
  {
  }


  /** Whether the loop writes the first record of a key. */
  ghost predicate Writes(frags: seq<Tombstone>, skip: bool, now: int, r: Record) {
    if r.op == Del then !skip else !Covered(frags, r.key, r.seqId) && !Expired(r, now)
  }

  /** The record `r` is a written head among the first `n` records. */
  ghost predicate WrittenBefore(stream: seq<Record>, frags: seq<Tombstone>, skip: bool, now: int, n: nat, r: Record)
    requires n <= |stream|
  {
    exists p: nat :: p < n && Head(stream, p) && stream[p] == r && Writes(frags, skip, now, r)
  }

  /** `out` holds exactly the written heads among the first `n` records of the stream. */
  ghost predicate WrittenHeads(stream: seq<Record>, frags: seq<Tombstone>, skip: bool, now: int, n: nat, out: seq<Record>)
    requires n <= |stream|
  {
    && (forall i, j :: 0 <= i < j < |out| ==> out[i].key < out[j].key)
    && (forall r :: r in out <==> WrittenBefore(stream, frags, skip, now, n, r))
  }

  lemma GroupWrites(stream: seq<Record>, frags: seq<Tombstone>, skip: bool, now: int, i: nat, j: nat, r: Record)
    requires i < j <= |stream| && Head(stream, i)
    requires forall p :: i <= p < j ==> stream[p].key == stream[i].key
    ensures WrittenBefore(stream, frags, skip, now, j, r) <==>
            WrittenBefore(stream, frags, skip, now, i, r) || (r == stream[i] && Writes(frags, skip, now, r))
  {
    if WrittenBefore(stream, frags, skip, now, j, r) {
      var p: nat :| p < j && Head(stream, p) && stream[p] == r && Writes(frags, skip, now, r);
      assert p <= i;
    }
  }

  /** A group of one key, from `i` to `j`, contributes at most its first record. */
  lemma GroupDone(stream: seq<Record>, frags: seq<Tombstone>, skip: bool, now: int, i: nat, j: nat, out: seq<Record>, out': seq<Record>)
    requires Sorted(stream) && i < j <= |stream| && Head(stream, i)
    requires forall p :: i <= p < j ==> stream[p].key == stream[i].key
    requires WrittenHeads(stream, frags, skip, now, i, out)
    requires out' == if Writes(frags, skip, now, stream[i]) then out + [stream[i]] else out
    ensures WrittenHeads(stream, frags, skip, now, j, out')
  {
    forall r | r in out ensures r.key < stream[i].key {
      var p: nat :| p < i && Head(stream, p) && stream[p] == r && Writes(frags, skip, now, r);
      SmallerBeforeHead(stream, p, i);
    }
    forall r ensures r in out' <==> WrittenBefore(stream, frags, skip, now, j, r) {
      GroupWrites(stream, frags, skip, now, i, j, r);
    }
    assert forall k :: 0 <= k < |out| ==> out[k] in out;
  }

  method WriteMerged(stream: seq<Record>, frags: seq<Tombstone>, skip: bool, now: int) returns (out: seq<Record>)
    requires Sorted(stream) && Fragmented(frags)
    ensures WrittenHeads(stream, frags, skip, now, |stream|, out)
    ensures forall i, j :: 0 <= i < j < |out| ==> out[i].key < out[j].key
    ensures forall r :: r in out <==>
              (exists p: nat :: p < |stream| && Head(stream, p) && stream[p] == r)
              && if r.op == Del then !skip else !Covered(frags, r.key, r.seqId) && (r.expiresAt == 0 || now <= r.expiresAt)
  {
    out := [];
    var i := 0;
    while i < |stream|
      invariant 0 <= i <= |stream|
      invariant i < |stream| ==> Head(stream, i)
      invariant WrittenHeads(stream, frags, skip, now, i, out)
    {
      var first := stream[i];
      var currentKey := first.key;
      var j := i;
      while j < |stream| && stream[j].key == currentKey
        invariant i <= j <= |stream|
        invariant forall p :: i <= p < j ==> stream[p].key == currentKey
        invariant j == i ==> stream[i].key == currentKey
      {
        j := j + 1;
      }
      ghost var before := out;
      if first.op == Del {
        if !skip {
          out := out + [first];
        }
      } else {
        var covered := IsCoveredByRangeTombstone(frags, currentKey, first.seqId);
        if !covered {
          if !Expired(first, now) {
            out := out + [first];
          }
        }
      }
      GroupDone(stream, frags, skip, now, i, j, before, out);
      i := j;
    }
  }

  /** The stream of a merge: sorted, and exactly the records of the input tables. */
  ghost predicate StreamOf(stream: seq<Record>, inputs: set<Table>) {
    Sorted(stream) && forall r :: r in stream <==> HasRecord(inputs, r)
  }

  /** What the loop writes is what a merge keeps. */
  lemma LoopIsMerge(stream: seq<Record>, inputs: set<Table>, frags: seq<Tombstone>, skip: bool, now: int, out: seq<Record>,
                    r: Record)
    requires StreamOf(stream, inputs) && UniqueVersions(inputs)
    requires forall key, s: nat :: Covered(frags, key, s) <==> Hides(inputs, key, s)
    requires WrittenHeads(stream, frags, skip, now, |stream|, out)
    ensures r in out <==> KeptAt(inputs, skip, now, r)
  {
    if r in out {
      var p: nat :| p < |stream| && Head(stream, p) && stream[p] == r && Writes(frags, skip, now, r);
      assert r in stream;
      forall x | HasRecord(inputs, x) && x.key == r.key ensures x.seqId <= r.seqId {
        HeadIsNewest(stream, p, x);
      }
    }
    if KeptAt(inputs, skip, now, r) {
      var p := NewestHasHead(stream, r);
      assert Writes(frags, skip, now, r);
    }
  }
}

/**
 Truncating the log after a memtable flush (internal/wal/wal.go:282-323, 428-539, 641-678,
 internal/wal/manifest.go): blocks are skipped, records filtered and whole segments deleted,
 and what recovery yields is the earlier result without the flushed operations.
 */
module WalTruncation {
  import opened Keys
  import opened WalRecord
  import opened WalRecovery

  // ------------------------------------------------------------------ records above a sequence number

  /** Of the first `n` records, those with a sequence number above `t`. */
  function KeptTo(recs: seq<Rec>, t: nat, n: nat): (kept: seq<Rec>)
    requires n <= |recs|
    ensures |kept| <= n && forall i :: 0 <= i < |kept| ==> kept[i].seqId > t
  {
    if n == 0 then []
    else if recs[n - 1].seqId > t then KeptTo(recs, t, n - 1) + [recs[n - 1]]
    else KeptTo(recs, t, n - 1)
  }

  function Kept(recs: seq<Rec>, t: nat): (kept: seq<Rec>)
    ensures forall i :: 0 <= i < |kept| ==> kept[i].seqId > t
  {
    KeptTo(recs, t, |recs|)
  }

  ghost predicate AllUpTo(recs: seq<Rec>, t: nat) { forall i :: 0 <= i < |recs| ==> recs[i].seqId <= t }

  ghost predicate AllAbove(recs: seq<Rec>, t: nat) { forall i :: 0 <= i < |recs| ==> recs[i].seqId > t }

  lemma {:induction false} KeptConcatTo(a: seq<Rec>, b: seq<Rec>, s: seq<Rec>, t: nat, n: nat)
    requires s == a + b && n <= |s|
    ensures KeptTo(s, t, n) == if n <= |a| then KeptTo(a, t, n) else Kept(a, t) + KeptTo(b, t, n - |a|)
  {
    if n > 0 {
      KeptConcatTo(a, b, s, t, n - 1);
      assert s[n - 1] == if n <= |a| then a[n - 1] else b[n - 1 - |a|];
    }
  }

  lemma KeptConcat(a: seq<Rec>, b: seq<Rec>, t: nat)
    ensures Kept(a + b, t) == Kept(a, t) + Kept(b, t)
  {
    KeptConcatTo(a, b, a + b, t, |a| + |b|);
    if b == [] {
      assert a + b == a;
    }
  }

  lemma {:induction false} KeptNoneTo(recs: seq<Rec>, t: nat, n: nat)
    requires n <= |recs| && AllUpTo(recs, t)
    ensures KeptTo(recs, t, n) == []
  {
    if n > 0 {
      KeptNoneTo(recs, t, n - 1);
    }
  }

  lemma {:induction false} KeptAllTo(recs: seq<Rec>, t: nat, n: nat)
    requires n <= |recs| && AllAbove(recs, t)
    ensures KeptTo(recs, t, n) == recs[..n]
  {
    if n > 0 {
      KeptAllTo(recs, t, n - 1);
    }
  }

  lemma KeptAll(recs: seq<Rec>, t: nat)
    requires AllAbove(recs, t)
    ensures Kept(recs, t) == recs
  {
    KeptAllTo(recs, t, |recs|);
  }

  lemma {:induction false} KeptTwiceTo(recs: seq<Rec>, s: nat, t: nat, n: nat)
    requires n <= |recs|
    ensures Kept(KeptTo(recs, s, n), t) == KeptTo(recs, if s < t then t else s, n)
  {
    if n > 0 {
      KeptTwiceTo(recs, s, t, n - 1);
      if recs[n - 1].seqId > s {
        var front, last := KeptTo(recs, s, n - 1), recs[n - 1];
        KeptConcat(front, [last], t);
        assert Kept([last], t) == KeptTo([last], t, 0) + (if last.seqId > t then [last] else []);
      }
    }
  }

  /** Filtering twice is filtering once, above the larger number. */
  lemma KeptTwice(recs: seq<Rec>, s: nat, t: nat)
    ensures Kept(Kept(recs, s), t) == Kept(recs, if s < t then t else s)
  {
    KeptTwiceTo(recs, s, t, |recs|);
  }

  // ------------------------------------------------------------------ reading segments

  /** A manifest entry. */
  datatype Meta = Meta(id: nat, validFrom: nat, flushedUpTo: nat)

  /** The records of a segment from block `b` on; an empty block ends it. */
  function ReadFrom(blocks: seq<seq<Rec>>, b: nat): (recs: seq<Rec>)
    decreases |blocks| - b
  {
    if b >= |blocks| || blocks[b] == [] then [] else blocks[b] + ReadFrom(blocks, b + 1)
  }

  type Files = map<nat, seq<seq<Rec>>>

  ghost predicate Present(files: Files, metas: seq<Meta>) {
    forall i :: 0 <= i < |metas| ==> metas[i].id in files
  }

  function Raw(files: Files, m: Meta): seq<Rec>
    requires m.id in files
  {
    ReadFrom(files[m.id], m.validFrom)
  }

  /** What is read of one segment. */
  function Part(files: Files, m: Meta): seq<Rec>
    requires m.id in files
  {
    Kept(Raw(files, m), m.flushedUpTo)
  }

  /** What is read of the segments from `i` on. */
  function Stream(files: Files, metas: seq<Meta>, i: nat): (recs: seq<Rec>)
    requires i <= |metas| && Present(files, metas)
    decreases |metas| - i
  {
    if i == |metas| then [] else Part(files, metas[i]) + Stream(files, metas, i + 1)
  }

  /** Sequence numbers never decrease along the log. */
  ghost predicate Nondecreasing(recs: seq<Rec>) {
    forall i, j :: 0 <= i < j < |recs| ==> recs[i].seqId <= recs[j].seqId
  }

  ghost predicate NotAbove(a: seq<Rec>, b: seq<Rec>) {
    forall i, j :: 0 <= i < |a| && 0 <= j < |b| ==> a[i].seqId <= b[j].seqId
  }

  ghost predicate Ordered(files: Files, metas: seq<Meta>)
    requires Present(files, metas)
  {
    && (forall i :: 0 <= i < |metas| ==> Nondecreasing(Raw(files, metas[i])))
    && (forall i, j :: 0 <= i < j < |metas| ==> NotAbove(Raw(files, metas[i]), Raw(files, metas[j])))
  }

  /** Segment numbers increase; only the oldest segment may be partly flushed, and nothing behind it is. */
  ghost predicate Tidy(files: Files, metas: seq<Meta>)
    requires Present(files, metas)
  {
    && |metas| > 0 && metas[0].id > 0
    && (forall i, j :: 0 <= i < j < |metas| ==> metas[i].id < metas[j].id)
    && (forall i :: 0 < i < |metas| ==> metas[i].validFrom == 0 && metas[i].flushedUpTo == 0
                                          && AllAbove(Raw(files, metas[i]), metas[0].flushedUpTo))
  }

  // ------------------------------------------------------------------ searching for the target

  ghost predicate HasUpTo(recs: seq<Rec>, t: nat) { exists k :: 0 <= k < |recs| && recs[k].seqId <= t }

  /** Block `b` is reached when reading from `from`. */
  ghost predicate Reached(blocks: seq<seq<Rec>>, from: nat, b: nat) {
    from <= b < |blocks| && forall k :: from <= k <= b ==> blocks[k] != []
  }

  ghost predicate Hit(blocks: seq<seq<Rec>>, from: nat, t: nat, b: nat) {
    Reached(blocks, from, b) && HasUpTo(blocks[b], t)
  }

  /** The records of blocks `from` up to `b`. */
  ghost function Between(blocks: seq<seq<Rec>>, from: nat, b: nat): (recs: seq<Rec>)
    requires from <= b <= |blocks|
    decreases b - from
  {
    if from == b then [] else blocks[from] + Between(blocks, from + 1, b)
  }

  lemma {:induction false} ReadSplit(blocks: seq<seq<Rec>>, from: nat, b: nat)
    requires Reached(blocks, from, b)
    ensures ReadFrom(blocks, from) == Between(blocks, from, b) + ReadFrom(blocks, b)
    decreases b - from
  {
    if from < b {
      ReadSplit(blocks, from + 1, b);
    }
  }

  /** A record read lies in a block that is reached. */
  lemma {:induction false} ReadInBlock(blocks: seq<seq<Rec>>, from: nat, k: nat) returns (b: nat, j: nat)
    requires k < |ReadFrom(blocks, from)|
    ensures Reached(blocks, from, b) && j < |blocks[b]| && blocks[b][j] == ReadFrom(blocks, from)[k]
    decreases |blocks| - from
  {
    if k < |blocks[from]| {
      b, j := from, k;
    } else {
      b, j := ReadInBlock(blocks, from + 1, k - |blocks[from]|);
    }
  }

  /** No block hit: every record read is above the target. */
  lemma NoHit(blocks: seq<seq<Rec>>, from: nat, t: nat)
    requires forall b :: !Hit(blocks, from, t, b)
    ensures AllAbove(ReadFrom(blocks, from), t)
  {
    forall k | 0 <= k < |ReadFrom(blocks, from)| ensures ReadFrom(blocks, from)[k].seqId > t {
      var b, j := ReadInBlock(blocks, from, k);
      assert !Hit(blocks, from, t, b);
    }
  }

  /** Up to a hit, nothing is above the target; so the blocks before the hit may be skipped. */
  lemma HitSkips(blocks: seq<seq<Rec>>, from: nat, t: nat, b: nat)
    requires Hit(blocks, from, t, b) && Nondecreasing(ReadFrom(blocks, from))
    ensures Kept(ReadFrom(blocks, from), t) == Kept(ReadFrom(blocks, b), t)
    ensures HasUpTo(ReadFrom(blocks, from), t)
  {
    ReadSplit(blocks, from, b);
    var front, rest, all := Between(blocks, from, b), ReadFrom(blocks, b), ReadFrom(blocks, from);
    var j :| 0 <= j < |blocks[b]| && blocks[b][j].seqId <= t;
    assert all[|front| + j] == rest[j] == blocks[b][j];
    forall i | 0 <= i < |front| ensures front[i].seqId <= t {
      assert all[i] == front[i];
    }
    KeptNoneTo(front, t, |front|);
    KeptConcat(front, rest, t);
  }

  // ------------------------------------------------------------------ the effect of a truncation

  /** Segment `j` is skipped by the search for `t`, or holds nothing up to it. */
  ghost predicate Clear(files: Files, m: Meta, t: nat)
    requires m.id in files
  {
    m.flushedUpTo >= t || AllAbove(Raw(files, m), t)
  }

  /** The manifest after truncation at block `b` of segment `i`: older segments gone. */
  function Truncated(metas: seq<Meta>, i: nat, b: nat, t: nat): (metas': seq<Meta>)
    requires i < |metas|
  {
    [Meta(metas[i].id, b, t)] + metas[i + 1..]
  }

  /** Segments in which the search finds nothing are not changed by filtering. */
  lemma {:induction false} TailKept(files: Files, metas: seq<Meta>, i: nat, t: nat)
    requires i <= |metas| && Present(files, metas)
    requires forall j :: i <= j < |metas| ==> Clear(files, metas[j], t)
    ensures Kept(Stream(files, metas, i), t) == Stream(files, metas, i)
    decreases |metas| - i
  {
    if i < |metas| {
      TailKept(files, metas, i + 1, t);
      var part := Part(files, metas[i]);
      KeptConcat(part, Stream(files, metas, i + 1), t);
      if metas[i].flushedUpTo < t {
        KeptAll(Raw(files, metas[i]), metas[i].flushedUpTo);
      }
      KeptAll(part, t);
    }
  }

  /** Segments before the one hit are flushed entirely. */
  lemma {:induction false} HeadDropped(files: Files, metas: seq<Meta>, k: nat, i: nat, t: nat)
    requires k <= i < |metas| && Present(files, metas) && Ordered(files, metas) && HasUpTo(Raw(files, metas[i]), t)
    ensures Kept(Stream(files, metas, k), t) == Kept(Stream(files, metas, i), t)
    decreases i - k
  {
    if k < i {
      HeadDropped(files, metas, k + 1, i, t);
      var part, raw := Part(files, metas[k]), Raw(files, metas[k]);
      KeptConcat(part, Stream(files, metas, k + 1), t);
      assert NotAbove(raw, Raw(files, metas[i]));
      KeptTwice(raw, metas[k].flushedUpTo, t);
      KeptNoneTo(raw, if metas[k].flushedUpTo < t then t else metas[k].flushedUpTo, |raw|);
    }
  }

  lemma {:induction false} SameStream(files: Files, files': Files, metas: seq<Meta>, metas': seq<Meta>, i: nat, i': nat)
    requires Present(files, metas) && Present(files', metas') && i <= |metas| && i' <= |metas'| && metas[i..] == metas'[i'..]
    requires forall k :: i <= k < |metas| ==> metas[k].id in files' && files'[metas[k].id] == files[metas[k].id]
    ensures Stream(files, metas, i) == Stream(files', metas', i')
    decreases |metas| - i
  {
    assert |metas| - i == |metas[i..]| == |metas'| - i';
    if i < |metas| {
      assert metas[i] == metas[i..][0] == metas'[i'];
      assert metas[i + 1..] == metas[i..][1..] == metas'[i' + 1..];
      SameStream(files, files', metas, metas', i + 1, i' + 1);
    }
  }

  /** Truncation at the last hit reads exactly what is above the target. */
  lemma TruncatedStream(files: Files, metas: seq<Meta>, i: nat, b: nat, t: nat, files': Files)
    requires Present(files, metas) && Ordered(files, metas) && i < |metas|
    requires metas[i].flushedUpTo < t && Hit(files[metas[i].id], metas[i].validFrom, t, b)
    requires forall j :: i < j < |metas| ==> Clear(files, metas[j], t)
    requires Present(files', Truncated(metas, i, b, t))
    requires forall k :: i <= k < |metas| ==> metas[k].id in files' && files'[metas[k].id] == files[metas[k].id]
    ensures Stream(files', Truncated(metas, i, b, t), 0) == Kept(Stream(files, metas, 0), t)
  {
    var blocks, raw := files[metas[i].id], Raw(files, metas[i]);
    HitSkips(blocks, metas[i].validFrom, t, b);
    HeadDropped(files, metas, 0, i, t);
    TailKept(files, metas, i + 1, t);
    KeptConcat(Part(files, metas[i]), Stream(files, metas, i + 1), t);
    KeptTwice(raw, metas[i].flushedUpTo, t);
    SameStream(files, files', metas, Truncated(metas, i, b, t), i + 1, 1);
  }

  /** What is read from a later block is a stretch at the end. */
  lemma RestIsLater(blocks: seq<seq<Rec>>, from: nat, b: nat)
    requires Reached(blocks, from, b) && Nondecreasing(ReadFrom(blocks, from))
    ensures Nondecreasing(ReadFrom(blocks, b))
    ensures forall r :: r in ReadFrom(blocks, b) ==> r in ReadFrom(blocks, from)
  {
    ReadSplit(blocks, from, b);
    var front, rest, all := Between(blocks, from, b), ReadFrom(blocks, b), ReadFrom(blocks, from);
    assert forall k :: 0 <= k < |rest| ==> rest[k] == all[|front| + k];
  }

  lemma NotAboveSubset(a: seq<Rec>, a': seq<Rec>, b: seq<Rec>)
    requires NotAbove(a, b) && forall r :: r in a' ==> r in a
    ensures NotAbove(a', b)
  {
    forall i, j | 0 <= i < |a'| && 0 <= j < |b| ensures a'[i].seqId <= b[j].seqId {
      assert a'[i] in a;
    }
  }

  lemma UpToSubset(a: seq<Rec>, a': seq<Rec>, t: nat)
    requires AllUpTo(a, t) && forall r :: r in a' ==> r in a
    ensures AllUpTo(a', t)
  {
    forall i | 0 <= i < |a'| ensures a'[i].seqId <= t {
      assert a'[i] in a;
    }
  }

  lemma TruncatedOrdered(files: Files, metas: seq<Meta>, i: nat, b: nat, t: nat, metas': seq<Meta>)
    requires Present(files, metas) && Ordered(files, metas) && i < |metas| && metas' == Truncated(metas, i, b, t)
    requires Reached(files[metas[i].id], metas[i].validFrom, b)
    ensures Present(files, metas') && Ordered(files, metas')
  {
    RestIsLater(files[metas[i].id], metas[i].validFrom, b);
    assert forall k :: 0 < k < |metas'| ==> metas'[k] == metas[i + k];
    forall k | 0 < k < |metas'| ensures NotAbove(Raw(files, metas'[0]), Raw(files, metas'[k])) {
      NotAboveSubset(Raw(files, metas[i]), Raw(files, metas'[0]), Raw(files, metas[i + k]));
    }
  }

  /** Truncation leaves only the oldest segment partly flushed. */
  lemma TruncatedTidy(files: Files, metas: seq<Meta>, i: nat, b: nat, t: nat, metas': seq<Meta>)
    requires Present(files, metas) && Tidy(files, metas) && i < |metas| && metas' == Truncated(metas, i, b, t) && 0 < t
    requires forall j :: i < j < |metas| ==> Clear(files, metas[j], t)
    ensures Present(files, metas') && Tidy(files, metas')
  {
    assert forall k :: 0 < k < |metas'| ==> metas'[k] == metas[i + k];
  }

  /** Segments older than a hit were flushed less far. */
  lemma OlderFlushedLess(files: Files, metas: seq<Meta>, i: nat, b: nat, t: nat, k: nat)
    requires Present(files, metas) && Ordered(files, metas) && Tidy(files, metas) && k <= i < |metas|
    requires metas[i].flushedUpTo < t && Hit(files[metas[i].id], metas[i].validFrom, t, b)
    ensures metas[k].flushedUpTo <= t
  {
    if k == 0 && i > 0 {
      HitSkips(files[metas[i].id], metas[i].validFrom, t, b);
    }
  }

  // ------------------------------------------------------------------ appending

  /** Writing a fragment at the end of the used blocks. */
  lemma {:induction false} AppendRead(blocks: seq<seq<Rec>>, from: nat, p: nat, f: Rec)
    requires from <= p < |blocks| && (forall k :: from <= k < p ==> blocks[k] != []) && forall k :: p < k < |blocks| ==> blocks[k] == []
    ensures ReadFrom(blocks[p := blocks[p] + [f]], from) == ReadFrom(blocks, from) + [f]
    decreases p - from
  {
    var blocks' := blocks[p := blocks[p] + [f]];
    if from < p {
      AppendRead(blocks, from + 1, p, f);
    } else {
      assert ReadFrom(blocks', p + 1) == [];
      assert ReadFrom(blocks, p + 1) == [];
    }
  }

  /** Sequence numbers of the log are bounded by the last one given out. */
  ghost predicate Bounded(files: Files, metas: seq<Meta>, lastSeq: nat)
    requires Present(files, metas)
  {
    forall i :: 0 <= i < |metas| ==> AllUpTo(Raw(files, metas[i]), lastSeq)
  }

  /** The active file is filled block by block, and its valid part ends at the block being written. */
  ghost predicate Filling(blocks: seq<seq<Rec>>, validFrom: nat, cur: nat) {
    && validFrom <= cur < |blocks|
    && (forall k :: 0 <= k < cur ==> blocks[k] != []) && forall k :: cur < k < |blocks| ==> blocks[k] == []
  }

  /** The log that the manifest describes is in order. */
  ghost predicate Sound(files: Files, metas: seq<Meta>, lastSeq: nat) {
    Present(files, metas) && Ordered(files, metas) && Tidy(files, metas) && Bounded(files, metas, lastSeq)
  }

  /** The newest segment is the active one, and `cur` is its block being written. */
  ghost predicate Placed(files: Files, metas: seq<Meta>, low: nat, active: nat, cur: nat, maxBlocks: nat) {
    && |metas| > 0 && Present(files, metas) && low < metas[0].id && active == metas[|metas| - 1].id
    && (forall i :: 0 <= i < |metas| ==> |files[metas[i].id]| == maxBlocks)
    && Filling(files[active], metas[|metas| - 1].validFrom, cur)
  }

  /** What is read is all that was ever written, without what was flushed. */
  ghost predicate Reads(files: Files, metas: seq<Meta>, written: seq<Rec>, flushed: nat) {
    && |metas| > 0 && Present(files, metas)
    && metas[0].flushedUpTo <= flushed && Stream(files, metas, 0) == Kept(written, flushed)
  }

  /** All that holds between calls. */
  ghost predicate Consistent(files: Files, metas: seq<Meta>, low: nat, active: nat, cur: nat, maxBlocks: nat,
                             written: seq<Rec>, flushed: nat, lastSeq: nat) {
    && maxBlocks > 0 && Sound(files, metas, lastSeq) && Placed(files, metas, low, active, cur, maxBlocks)
    && Reads(files, metas, written, flushed)
  }

  /** Segment files with `f` added at block `p` of the newest. */
  ghost function Added(files: Files, id: nat, p: nat, f: Rec): Files
    requires id in files && p < |files[id]|
  {
    files[id := files[id][p := files[id][p] + [f]]]
  }

  lemma AddedPart(files: Files, m: Meta, f: Rec, files': Files)
    requires m.id in files && m.id in files' && Raw(files', m) == Raw(files, m) + [f] && f.seqId > m.flushedUpTo
    ensures Part(files', m) == Part(files, m) + [f]
  {
    KeptConcat(Raw(files, m), [f], m.flushedUpTo);
    assert AllAbove([f], m.flushedUpTo);
    KeptAll([f], m.flushedUpTo);
  }

  lemma SnocBehind(part: seq<Rec>, rest: seq<Rec>, f: Rec)
    ensures part + (rest + [f]) == part + rest + [f]
    ensures part + [f] + [] == part + [] + [f]
  {
  }

  lemma StreamStep(files: Files, metas: seq<Meta>, i: nat, part: seq<Rec>, rest: seq<Rec>)
    requires Present(files, metas) && i < |metas| && Part(files, metas[i]) == part && Stream(files, metas, i + 1) == rest
    ensures Stream(files, metas, i) == part + rest
  {
  }

  lemma {:induction false} AddedStream(files: Files, metas: seq<Meta>, i: nat, n: nat, f: Rec, files': Files)
    requires Present(files, metas) && Present(files', metas) && i <= n == |metas| - 1
    requires forall k :: 0 <= k < n ==> Part(files', metas[k]) == Part(files, metas[k])
    requires Part(files', metas[n]) == Part(files, metas[n]) + [f]
    ensures Stream(files', metas, i) == Stream(files, metas, i) + [f]
    decreases n - i
  {
    var part := Part(files, metas[i]);
    if i < n {
      AddedStream(files, metas, i + 1, n, f, files');
      var rest := Stream(files, metas, i + 1);
      StreamStep(files, metas, i, part, rest);
      StreamStep(files', metas, i, part, rest + [f]);
      SnocBehind(part, rest, f);
    } else {
      StreamStep(files, metas, i, part, []);
      StreamStep(files', metas, i, part + [f], []);
      SnocBehind(part, [], f);
    }
  }

  /** A record behind others with smaller or equal sequence numbers. */
  lemma SnocOrdered(a: seq<Rec>, b: seq<Rec>, f: Rec)
    requires AllUpTo(a, f.seqId) && AllUpTo(b, f.seqId)
    ensures AllUpTo(b + [f], f.seqId)
    ensures Nondecreasing(b) ==> Nondecreasing(b + [f])
    ensures NotAbove(a, b) ==> NotAbove(a, b + [f])
  {
  }

  lemma AddedOrdered(files: Files, metas: seq<Meta>, n: nat, f: Rec, files': Files)
    requires Present(files, metas) && Present(files', metas) && n == |metas| - 1
    requires Ordered(files, metas) && Bounded(files, metas, f.seqId)
    requires forall k :: 0 <= k < n ==> Raw(files', metas[k]) == Raw(files, metas[k])
    requires Raw(files', metas[n]) == Raw(files, metas[n]) + [f]
    ensures Ordered(files', metas) && Bounded(files', metas, f.seqId)
  {
    forall k | 0 <= k <= n
      ensures Nondecreasing(Raw(files', metas[k])) && (k < n ==> NotAbove(Raw(files', metas[k]), Raw(files', metas[n])))
      ensures AllUpTo(Raw(files', metas[k]), f.seqId)
    {
      SnocOrdered(Raw(files, metas[k]), Raw(files, metas[n]), f);
    }
  }

  lemma AddedTidy(files: Files, metas: seq<Meta>, n: nat, f: Rec, files': Files)
    requires Present(files, metas) && Present(files', metas) && n == |metas| - 1 && Tidy(files, metas)
    requires metas[0].flushedUpTo < f.seqId
    requires forall k :: 0 <= k < n ==> Raw(files', metas[k]) == Raw(files, metas[k])
    requires Raw(files', metas[n]) == Raw(files, metas[n]) + [f]
    ensures Tidy(files', metas)
  {
  }

  /** A new, empty segment behind the others. */
  lemma {:induction false} NewSegmentStream(files: Files, metas: seq<Meta>, i: nat, m: Meta, files': Files, metas': seq<Meta>)
    requires Present(files, metas) && i <= |metas| && metas' == metas + [m] && Present(files', metas')
    requires m.id in files' && Raw(files', m) == []
    requires forall k :: 0 <= k < |metas| ==> metas[k].id in files' && files'[metas[k].id] == files[metas[k].id]
    ensures Stream(files', metas', i) == Stream(files, metas, i)
    decreases |metas| - i
  {
    if i < |metas| {
      NewSegmentStream(files, metas, i + 1, m, files', metas');
      assert metas'[i] == metas[i];
      assert Part(files', metas'[i]) == Part(files, metas[i]);
    } else {
      assert metas'[i] == m && Stream(files', metas', i + 1) == [];
    }
  }

  lemma NewSegmentOrdered(files: Files, metas: seq<Meta>, m: Meta, files': Files, metas': seq<Meta>, lastSeq: nat)
    requires Present(files, metas) && Ordered(files, metas) && Bounded(files, metas, lastSeq)
    requires metas' == metas + [m] && Present(files', metas') && m.id in files' && Raw(files', m) == []
    requires forall k :: 0 <= k < |metas| ==> metas[k].id in files' && Raw(files', metas[k]) == Raw(files, metas[k])
    ensures Ordered(files', metas') && Bounded(files', metas', lastSeq)
  {
    assert forall k :: 0 <= k < |metas| ==> metas'[k] == metas[k];
    assert metas'[|metas|] == m;
  }

  lemma NewSegmentTidy(files: Files, metas: seq<Meta>, m: Meta, files': Files, metas': seq<Meta>)
    requires Present(files, metas) && Tidy(files, metas)
    requires metas' == metas + [m] && Present(files', metas') && m.id in files' && Raw(files', m) == []
    requires forall k :: 0 <= k < |metas| ==> metas[k].id in files' && Raw(files', metas[k]) == Raw(files, metas[k])
    requires metas[|metas| - 1].id < m.id && m.validFrom == m.flushedUpTo == 0
    ensures Tidy(files', metas')
  {
    assert forall k :: 0 <= k < |metas| ==> metas'[k] == metas[k];
    assert metas'[|metas|] == m;
  }

  /** One fragment more in the log. */
  lemma AddSound(files: Files, metas: seq<Meta>, lastSeq: nat, n: nat, f: Rec, files': Files)
    requires Sound(files, metas, lastSeq) && n == |metas| - 1 && Present(files', metas)
    requires lastSeq <= f.seqId && metas[0].flushedUpTo < f.seqId
    requires forall k :: 0 <= k < n ==> Raw(files', metas[k]) == Raw(files, metas[k])
    requires Raw(files', metas[n]) == Raw(files, metas[n]) + [f]
    ensures Sound(files', metas, f.seqId)
  {
    assert Bounded(files, metas, f.seqId);
    AddedOrdered(files, metas, n, f, files');
    AddedTidy(files, metas, n, f, files');
  }

  lemma AddReads(files: Files, metas: seq<Meta>, written: seq<Rec>, flushed: nat, n: nat, f: Rec, files': Files)
    requires Reads(files, metas, written, flushed) && n == |metas| - 1 && Present(files', metas)
    requires flushed < f.seqId && metas[n].flushedUpTo < f.seqId
    requires forall k :: 0 <= k < n ==> Raw(files', metas[k]) == Raw(files, metas[k])
    requires Raw(files', metas[n]) == Raw(files, metas[n]) + [f]
    ensures Reads(files', metas, written + [f], flushed)
  {
    AddedPart(files, metas[n], f, files');
    AddedStream(files, metas, 0, n, f, files');
    KeptConcat(written, [f], flushed);
    assert AllAbove([f], flushed);
    KeptAll([f], flushed);
  }

  /** The raw contents of the segments after a write to block `p` of the newest one. */
  lemma AddRaw(files: Files, metas: seq<Meta>, low: nat, active: nat, cur: nat, maxBlocks: nat, n: nat, p: nat, f: Rec, files': Files)
    requires Placed(files, metas, low, active, cur, maxBlocks) && n == |metas| - 1
    requires forall k :: 0 <= k < n ==> metas[k].id < active
    requires p == cur || (p == cur + 1 < maxBlocks && files[active][cur] != [])
    requires files' == Added(files, active, p, f)
    ensures Placed(files', metas, low, active, p, maxBlocks)
    ensures forall k :: 0 <= k < n ==> Raw(files', metas[k]) == Raw(files, metas[k])
    ensures Raw(files', metas[n]) == Raw(files, metas[n]) + [f]
  {
    AppendRead(files[active], metas[n].validFrom, p, f);
  }

  /** Truncation at the last hit. */
  lemma TruncateSound(files: Files, metas: seq<Meta>, lastSeq: nat, i: nat, b: nat, t: nat, metas': seq<Meta>)
    requires Sound(files, metas, lastSeq)
    requires i < |metas| && metas[i].flushedUpTo < t && Hit(files[metas[i].id], metas[i].validFrom, t, b)
    requires forall j :: i < j < |metas| ==> Clear(files, metas[j], t)
    requires metas' == Truncated(metas, i, b, t)
    ensures Sound(files, metas', lastSeq)
  {
    assert forall k :: 0 < k < |metas'| ==> metas'[k] == metas[i + k];
    TruncatedOrdered(files, metas, i, b, t, metas');
    TruncatedTidy(files, metas, i, b, t, metas');
    RestIsLater(files[metas[i].id], metas[i].validFrom, b);
    assert AllUpTo(Raw(files, metas'[0]), lastSeq) by {
      UpToSubset(Raw(files, metas[i]), Raw(files, metas'[0]), lastSeq);
    }
  }

  /** The hit is in a block already written, so the place to write stays valid. */
  lemma TruncatePlaced(files: Files, metas: seq<Meta>, low: nat, active: nat, cur: nat, maxBlocks: nat,
                       i: nat, b: nat, t: nat, low': nat, metas': seq<Meta>)
    requires Placed(files, metas, low, active, cur, maxBlocks) && i < |metas| && low' < metas[i].id
    requires Reached(files[metas[i].id], metas[i].validFrom, b) && metas' == Truncated(metas, i, b, t)
    ensures Placed(files, metas', low', active, cur, maxBlocks)
  {
    if i == |metas| - 1 {
      assert files[active][b] != [];
    }
    assert forall k :: 0 < k < |metas'| ==> metas'[k] == metas[i + k];
  }

  /** Deleting files of segments that are not in the manifest changes nothing. */
  lemma SameFiles(files: Files, files': Files, metas: seq<Meta>, lastSeq: nat, low: nat, active: nat, cur: nat, maxBlocks: nat)
    requires Sound(files, metas, lastSeq) && Placed(files, metas, low, active, cur, maxBlocks)
    requires forall k :: 0 <= k < |metas| ==> metas[k].id in files' && files'[metas[k].id] == files[metas[k].id]
    ensures Sound(files', metas, lastSeq) && Placed(files', metas, low, active, cur, maxBlocks)
  {
    assert forall k :: 0 <= k < |metas| ==> Raw(files', metas[k]) == Raw(files, metas[k]);
  }

  lemma TruncateReads(files: Files, metas: seq<Meta>, written: seq<Rec>, flushed: nat,
                      i: nat, b: nat, t: nat, files': Files, metas': seq<Meta>)
    requires Reads(files, metas, written, flushed) && Ordered(files, metas)
    requires i < |metas| && metas[i].flushedUpTo < t && Hit(files[metas[i].id], metas[i].validFrom, t, b)
    requires forall j :: i < j < |metas| ==> Clear(files, metas[j], t)
    requires metas' == Truncated(metas, i, b, t) && Present(files', metas')
    requires forall k :: i <= k < |metas| ==> metas[k].id in files' && files'[metas[k].id] == files[metas[k].id]
    ensures Reads(files', metas', written, if flushed < t then t else flushed)
  {
    TruncatedStream(files, metas, i, b, t, files');
    KeptTwice(written, flushed, t);
  }

  function EmptyBlocks(n: nat): (blocks: seq<seq<Rec>>)
    ensures |blocks| == n && forall k :: 0 <= k < n ==> blocks[k] == []
  {
    seq(n, _ => [])
  }

  /** Rotation to a new segment. */
  lemma RotateSound(files: Files, metas: seq<Meta>, lastSeq: nat, m: Meta, files': Files, metas': seq<Meta>)
    requires Sound(files, metas, lastSeq) && metas[|metas| - 1].id < m.id && m.validFrom == m.flushedUpTo == 0
    requires metas' == metas + [m] && Present(files', metas') && m.id in files' && Raw(files', m) == []
    requires forall k :: 0 <= k < |metas| ==> metas[k].id in files' && files'[metas[k].id] == files[metas[k].id]
    ensures Sound(files', metas', lastSeq) && Stream(files', metas', 0) == Stream(files, metas, 0)
  {
    NewSegmentOrdered(files, metas, m, files', metas', lastSeq);
    NewSegmentTidy(files, metas, m, files', metas');
    NewSegmentStream(files, metas, 0, m, files', metas');
  }

  lemma RotatePlaced(files: Files, metas: seq<Meta>, low: nat, active: nat, cur: nat, maxBlocks: nat,
                     m: Meta, files': Files, metas': seq<Meta>)
    requires Placed(files, metas, low, active, cur, maxBlocks) && maxBlocks > 0 && m.validFrom == 0
    requires metas' == metas + [m] && files' == files[m.id := EmptyBlocks(maxBlocks)]
    requires forall k :: 0 <= k < |metas| ==> metas[k].id < m.id
    ensures Placed(files', metas', low, m.id, 0, maxBlocks) && Raw(files', m) == []
    ensures forall k :: 0 <= k < |metas| ==> metas[k].id in files' && files'[metas[k].id] == files[metas[k].id]
  {
    assert forall k :: 0 <= k < |metas| ==> metas'[k] == metas[k];
    assert metas'[|metas|] == m;
  }

  lemma RotateReads(files: Files, metas: seq<Meta>, written: seq<Rec>, flushed: nat, m: Meta, files': Files, metas': seq<Meta>)
    requires Reads(files, metas, written, flushed) && metas' == metas + [m] && Present(files', metas')
    requires Stream(files', metas', 0) == Stream(files, metas, 0)
    ensures Reads(files', metas', written, flushed)
  {
    assert metas'[0] == metas[0];
  }

  lemma Rotate(files: Files, metas: seq<Meta>, low: nat, active: nat, cur: nat, maxBlocks: nat,
               written: seq<Rec>, flushed: nat, lastSeq: nat, m: Meta, files': Files, metas': seq<Meta>)
    requires Consistent(files, metas, low, active, cur, maxBlocks, written, flushed, lastSeq)
    requires m == Meta(active + 1, 0, 0) && metas' == metas + [m] && files' == files[m.id := EmptyBlocks(maxBlocks)]
    ensures Consistent(files', metas', low, m.id, 0, maxBlocks, written, flushed, lastSeq)
  {
    RotatePlaced(files, metas, low, active, cur, maxBlocks, m, files', metas');
    RotateSound(files, metas, lastSeq, m, files', metas');
    RotateReads(files, metas, written, flushed, m, files', metas');
  }

  lemma Add(files: Files, metas: seq<Meta>, low: nat, active: nat, cur: nat, maxBlocks: nat,
            written: seq<Rec>, flushed: nat, lastSeq: nat, p: nat, f: Rec, files': Files)
    requires Consistent(files, metas, low, active, cur, maxBlocks, written, flushed, lastSeq)
    requires p == cur || (p == cur + 1 < maxBlocks && files[active][cur] != [])
    requires files' == Added(files, active, p, f) && lastSeq <= f.seqId && flushed < f.seqId
    ensures Consistent(files', metas, low, active, p, maxBlocks, written + [f], flushed, f.seqId)
  {
    var n := |metas| - 1;
    AddRaw(files, metas, low, active, cur, maxBlocks, n, p, f, files');
    AddSound(files, metas, lastSeq, n, f, files');
    AddReads(files, metas, written, flushed, n, f, files');
  }

  function Max(a: nat, b: nat): nat { if a < b then b else a }

  /** Truncation at the last hit keeps everything consistent and forgets just what is flushed. */
  lemma Truncate(files: Files, metas: seq<Meta>, low: nat, active: nat, cur: nat, maxBlocks: nat,
                 written: seq<Rec>, flushed: nat, lastSeq: nat,
                 i: nat, b: nat, t: nat, low': nat, files': Files, metas': seq<Meta>)
    requires Consistent(files, metas, low, active, cur, maxBlocks, written, flushed, lastSeq)
    requires i < |metas| && metas[i].flushedUpTo < t && Hit(files[metas[i].id], metas[i].validFrom, t, b)
    requires forall j :: i < j < |metas| ==> Clear(files, metas[j], t)
    requires low' < metas[i].id && metas' == Truncated(metas, i, b, t)
    requires forall k :: i <= k < |metas| ==> metas[k].id in files' && files'[metas[k].id] == files[metas[k].id]
    ensures Consistent(files', metas', low', active, cur, maxBlocks, written, Max(flushed, t), lastSeq)
  {
    TruncateSound(files, metas, lastSeq, i, b, t, metas');
    TruncatePlaced(files, metas, low, active, cur, maxBlocks, i, b, t, low', metas');
    assert forall k :: 0 <= k < |metas'| ==> metas'[k].id == metas[i + k].id;
    SameFiles(files, files', metas', lastSeq, low', active, cur, maxBlocks);
    TruncateReads(files, metas, written, flushed, i, b, t, files', metas');
  }

  /** What the manifest updates of a truncation need. */
  lemma CutReady(files: Files, metas: seq<Meta>, low: nat, active: nat, cur: nat, maxBlocks: nat,
                 written: seq<Rec>, flushed: nat, lastSeq: nat, i: nat, b: nat, t: nat)
    requires Consistent(files, metas, low, active, cur, maxBlocks, written, flushed, lastSeq) && HitAt(files, metas, i, b, t)
    ensures Increasing(metas) && |metas| > 0 && 0 < metas[0].id && low < metas[0].id && active == metas[|metas| - 1].id
    ensures forall k :: 0 <= k <= i ==> metas[k].flushedUpTo <= t
  {
    forall k | 0 <= k <= i ensures metas[k].flushedUpTo <= t {
      OlderFlushedLess(files, metas, i, b, t, k);
    }
  }

  /** Nothing found: nothing up to the target is read anyway. */
  lemma NotFound(files: Files, metas: seq<Meta>, low: nat, active: nat, cur: nat, maxBlocks: nat,
                 written: seq<Rec>, flushed: nat, lastSeq: nat, t: nat)
    requires Consistent(files, metas, low, active, cur, maxBlocks, written, flushed, lastSeq)
    requires forall j :: 0 <= j < |metas| ==> Clear(files, metas[j], t)
    ensures Consistent(files, metas, low, active, cur, maxBlocks, written, Max(flushed, t), lastSeq)
  {
    TailKept(files, metas, 0, t);
    KeptTwice(written, flushed, t);
  }

  /** Block `b` of segment `i` is read and holds a record up to the target, of more than is flushed from the segment. */
  ghost predicate HitAt(files: Files, metas: seq<Meta>, i: nat, b: nat, t: nat) {
    i < |metas| && metas[i].id in files && metas[i].flushedUpTo < t && Hit(files[metas[i].id], metas[i].validFrom, t, b)
  }

  ghost predicate LastHit(files: Files, metas: seq<Meta>, i: nat, b: nat, t: nat) {
    HitAt(files, metas, i, b, t) && forall j: nat, c: nat :: HitAt(files, metas, j, c, t) ==> j < i || (j == i && c <= b)
  }

  /** Cut at the last hit, everything below it gone. */
  ghost predicate CutAtLastHit(files: Files, metas: seq<Meta>, t: nat, metas': seq<Meta>, low': nat) {
    exists i: nat, b: nat :: LastHit(files, metas, i, b, t) && metas' == Truncated(metas, i, b, t) && low' + 1 == metas[i].id
  }

  // ------------------------------------------------------------------ the log

  method HoldsUpTo(recs: seq<Rec>, t: nat) returns (found: bool)
    ensures found <==> HasUpTo(recs, t)
  {
    found := false;
    for i := 0 to |recs|
      invariant found <==> exists k :: 0 <= k < i && recs[k].seqId <= t
    {
      if recs[i].seqId <= t {
        found := true;
      }
    }
  }

  /** The blocks of one segment: the last one read that holds a record up to the target. */
  method SearchSegment(blocks: seq<seq<Rec>>, from: nat, t: nat) returns (found: bool, block: nat)
    ensures found ==> Hit(blocks, from, t, block)
    ensures forall c: nat :: Hit(blocks, from, t, c) ==> found && c <= block
  {
    found, block := false, from;
    var b := from;
    while b < |blocks|
      invariant from <= b && (forall k :: from <= k < b ==> k < |blocks| && blocks[k] != [])
      invariant found ==> Hit(blocks, from, t, block)
      invariant forall c: nat :: c < b && Hit(blocks, from, t, c) ==> found && c <= block
    {
      if |blocks[b]| == 0 {
        break;
      }
      var any := HoldsUpTo(blocks[b], t);
      if any {
        found, block := true, b;
      }
      b := b + 1;
    }
  }

  /** The search of `MemtableFlushed`: the last segment and block that hold a record up to the target. */
  method Search(files: Files, metas: seq<Meta>, maxBlocks: nat, t: nat) returns (found: bool, i: nat, block: nat)
    requires Present(files, metas) && forall k :: 0 <= k < |metas| ==> |files[metas[k].id]| == maxBlocks
    ensures if found then LastHit(files, metas, i, block, t) else forall j: nat, c: nat :: !HitAt(files, metas, j, c, t)
    ensures forall j :: (if found then i + 1 else 0) <= j < |metas| ==> Clear(files, metas[j], t)
  {
    found, i, block := false, 0, 0;
    for k := 0 to |metas|
      invariant found ==> i < k && HitAt(files, metas, i, block, t)
      invariant forall j: nat, c: nat :: j < k && HitAt(files, metas, j, c, t) ==> found && (j < i || (j == i && c <= block))
      invariant forall j :: (if found then i + 1 else 0) <= j < k ==> Clear(files, metas[j], t)
    {
      var m := metas[k];
      if m.validFrom >= maxBlocks || m.flushedUpTo >= t {
        continue;
      }
      var hit, b := SearchSegment(files[m.id], m.validFrom, t);
      if hit {
        found, i, block := true, k, b;
      } else {
        NoHit(files[m.id], m.validFrom, t);
      }
    }
  }

  /** The first entry with this identifier, or the end if there is none. */
  ghost predicate IsPlace(metas: seq<Meta>, id: nat, at: nat) {
    at <= |metas| && (at < |metas| ==> metas[at].id == id) && forall k :: 0 <= k < at ==> metas[k].id != id
  }

  ghost predicate Increasing(metas: seq<Meta>) {
    forall i, j :: 0 <= i < j < |metas| ==> metas[i].id < metas[j].id
  }

  /** Segments before `n` marked as flushed entirely. */
  function Marked(metas: seq<Meta>, n: nat, maxBlocks: nat, t: nat): (metas': seq<Meta>)
    requires n <= |metas|
    ensures |metas'| == |metas|
  {
    seq(|metas|, k requires 0 <= k < |metas| => if k < n then Meta(metas[k].id, maxBlocks, t) else metas[k])
  }

  /** The manifest between the two halves of a truncation. */
  lemma MarkedTail(metas: seq<Meta>, base: seq<Meta>, i: nat, b: nat, t: nat, maxBlocks: nat, marked: seq<Meta>)
    requires i < |metas| && base == metas[i := Meta(metas[i].id, b, t)] && marked == Marked(base, i, maxBlocks, t)
    requires Increasing(metas)
    ensures marked[i..] == Truncated(metas, i, b, t) && (i == 0 ==> marked == marked[i..])
    ensures Increasing(marked) && marked[i].id == metas[i].id
    ensures forall k :: 0 <= k < |marked| ==> (marked[k].id < metas[i].id <==> k < i)
  {
    assert forall k :: 0 <= k < |marked| ==> marked[k].id == metas[k].id;
  }

  lemma DropOne(metas: seq<Meta>, k: nat, rest: seq<Meta>)
    requires k < |metas| && rest == metas[k..]
    ensures rest[..0] + rest[1..] == metas[k + 1..]
  {
  }

  class WAL {
    const maxBlocks: nat
    var files: Files
    var segments: seq<Meta>
    var lowWatermark: nat
    var activeId: nat
    var currentBlock: nat
    ghost var written: seq<Rec>
    ghost var flushed: nat
    ghost var lastSeq: nat

    ghost predicate Valid()
      reads this
    {
      Consistent(files, segments, lowWatermark, activeId, currentBlock, maxBlocks, written, flushed, lastSeq)
    }

    /** `OpenWAL` in an empty directory. */
    constructor (maxBlocks: nat)
      requires maxBlocks > 0
      ensures Valid() && written == [] && flushed == 0 && lastSeq == 0
    {
      this.maxBlocks := maxBlocks;
      files, segments := map[1 := EmptyBlocks(maxBlocks)], [Meta(1, 0, 0)];
      lowWatermark, activeId, currentBlock := 0, 1, 0;
      written, flushed, lastSeq := [], 0, 0;
    }

    /** `ReadAllRecordsFromBlock`. */
    method ReadSegment(m: Meta) returns (recs: seq<Rec>)
      requires m.id in files
      ensures recs == Raw(files, m)
    {
      recs := [];
      var b, blocks := m.validFrom, files[m.id];
      while b < |blocks|
        invariant recs + ReadFrom(blocks, b) == Raw(files, m)
      {
        if |blocks[b]| == 0 {
          return;
        }
        recs, b := recs + blocks[b], b + 1;
      }
    }

    /** The records above what the manifest entry says is flushed. */
    method FilterFlushed(recs: seq<Rec>, t: nat) returns (kept: seq<Rec>)
      ensures kept == Kept(recs, t)
    {
      kept := [];
      for i := 0 to |recs|
        invariant kept == KeptTo(recs, t, i)
      {
        if recs[i].seqId <= t {
          continue;
        }
        kept := kept + [recs[i]];
      }
    }

    method ReadPart(m: Meta) returns (part: seq<Rec>)
      requires m.id in files && |files[m.id]| == maxBlocks
      ensures part == Part(files, m)
    {
      if m.validFrom >= maxBlocks {
        return [];
      }
      var recs := ReadSegment(m);
      part := FilterFlushed(recs, m.flushedUpTo);
    }

    /** `ReadAllFragments`: all that was written and not flushed, in order. */
    method ReadAllFragments() returns (all: seq<Rec>)
      requires Valid()
      ensures all == Kept(written, flushed)
    {
      all := [];
      for i := 0 to |segments|
        invariant all + Stream(files, segments, i) == Stream(files, segments, 0)
      {
        var part := ReadPart(segments[i]);
        all := all + part;
      }
    }

    /** `RotateSegment`. */
    method RotateSegment()
      requires Valid()
      modifies this`files, this`segments, this`activeId, this`currentBlock
      ensures Valid() && currentBlock == 0
    {
      var m := Meta(activeId + 1, 0, 0);
      ghost var files', segments' := files[m.id := EmptyBlocks(maxBlocks)], segments + [m];
      Rotate(files, segments, lowWatermark, activeId, currentBlock, maxBlocks, written, flushed, lastSeq, m, files', segments');
      files, segments := files[m.id := EmptyBlocks(maxBlocks)], segments + [m];
      activeId, currentBlock := m.id, 0;
    }

    /**
     A fragment reaches the log, in the block being written or, when that one is in use, in the next.
     Its sequence number is no smaller than any before it and above every flush so far.
     */
    method AppendFragment(f: Rec, nextBlock: bool)
      requires Valid() && lastSeq <= f.seqId && flushed < f.seqId
      requires nextBlock ==> currentBlock + 1 < maxBlocks && files[activeId][currentBlock] != []
      modifies this`files, this`currentBlock, this`written, this`lastSeq
      ensures Valid() && written == old(written) + [f] && lastSeq == f.seqId
      ensures currentBlock == old(currentBlock) + if nextBlock then 1 else 0
      ensures files == old(files)[activeId := old(files)[activeId][currentBlock := old(files)[activeId][currentBlock] + [f]]]
    {
      var p := if nextBlock then currentBlock + 1 else currentBlock;
      Add(files, segments, lowWatermark, activeId, currentBlock, maxBlocks, written, flushed, lastSeq,
          p, f, Added(files, activeId, p, f));
      files := files[activeId := files[activeId][p := files[activeId][p] + [f]]];
      currentBlock := p;
      written, lastSeq := written + [f], f.seqId;
    }

    /** `SetValidFromBlock` of the manifest. */
    method SetValidFromBlock(id: nat, blockId: nat, ghost at: nat) returns (ok: bool)
      requires IsPlace(segments, id, at)
      modifies this`segments
      ensures ok <==> at < |old(segments)|
      ensures segments == if ok then old(segments)[at := old(segments)[at].(validFrom := blockId)] else old(segments)
    {
      for i := 0 to |segments|
        invariant i <= at && segments == old(segments)
      {
        if segments[i].id == id {
          segments := segments[i := segments[i].(validFrom := blockId)];
          return true;
        }
      }
      ok := false;
    }

    /** `SetFlushedUpToSeqID` of the manifest: never backwards. */
    method SetFlushedUpTo(id: nat, seqId: nat, ghost at: nat) returns (ok: bool)
      requires IsPlace(segments, id, at)
      modifies this`segments
      ensures ok <==> at < |old(segments)| && old(segments)[at].flushedUpTo <= seqId
      ensures segments == if ok then old(segments)[at := old(segments)[at].(flushedUpTo := seqId)] else old(segments)
    {
      for i := 0 to |segments|
        invariant i <= at && segments == old(segments)
      {
        if segments[i].id == id {
          if seqId < segments[i].flushedUpTo {
            return false;
          }
          segments := segments[i := segments[i].(flushedUpTo := seqId)];
          return true;
        }
      }
      ok := false;
    }

    /** Entries of segments older than the one hit: nothing valid in them any more. */
    method MarkOlder(snapshot: seq<Meta>, foundId: nat, t: nat, ghost i: nat) returns (ok: bool)
      requires Increasing(segments) && |snapshot| == |segments| && i < |segments| && segments[i].id == foundId
      requires forall k :: 0 <= k < |segments| ==> snapshot[k].id == segments[k].id
      requires forall k :: 0 <= k < i ==> segments[k].flushedUpTo <= t
      modifies this`segments
      ensures ok && segments == Marked(old(segments), i, maxBlocks, t)
    {
      ok := true;
      for k := 0 to |snapshot|
        invariant ok && segments == Marked(old(segments), if k < i then k else i, maxBlocks, t)
      {
        if snapshot[k].id >= foundId {
          continue;
        }
        ok := SetValidFromBlock(snapshot[k].id, maxBlocks, k);
        if !ok {
          return;
        }
        ok := SetFlushedUpTo(snapshot[k].id, t, k);
        if !ok {
          return;
        }
      }
    }

    /** `RemoveSegment` of the manifest. */
    method RemoveSegment(id: nat, ghost at: nat)
      requires IsPlace(segments, id, at)
      modifies this`segments
      ensures segments == if at < |old(segments)| then old(segments)[..at] + old(segments)[at + 1..] else old(segments)
    {
      for i := 0 to |segments|
        invariant i <= at && segments == old(segments)
      {
        if segments[i].id == id {
          segments := segments[..i] + segments[i + 1..];
          return;
        }
      }
    }

    method RemoveFirst(id: nat, ghost snapshot: seq<Meta>, ghost k: nat)
      requires k < |snapshot| && segments == snapshot[k..] && snapshot[k].id == id
      modifies this`segments
      ensures segments == snapshot[k + 1..]
    {
      DropOne(snapshot, k, segments);
      RemoveSegment(id, 0);
    }

    /** `DeleteOldSegments`: files and entries up to the low watermark go, but never the active segment. */
    method DeleteOldSegments(ghost n: nat)
      requires Increasing(segments) && n <= |segments| && lowWatermark < activeId
      requires forall k :: 0 <= k < |segments| ==> (segments[k].id <= lowWatermark <==> k < n)
      modifies this`segments, this`files
      ensures segments == old(segments)[n..]
      ensures forall id :: id in old(files) && id > lowWatermark ==> id in files && files[id] == old(files)[id]
      ensures forall id :: id in files ==> id in old(files) && forall k :: 0 <= k < n ==> old(segments)[k].id != id
    {
      var snapshot := segments;
      for k := 0 to |snapshot|
        invariant segments == snapshot[if k < n then k else n..]
        invariant forall id :: id in old(files) && id > lowWatermark ==> id in files && files[id] == old(files)[id]
        invariant forall id :: id in files ==> id in old(files) && forall j :: 0 <= j < k && j < n ==> snapshot[j].id != id
      {
        var id := snapshot[k].id;
        if id > lowWatermark || id == activeId {
          continue;
        }
        files := files - {id};
        RemoveFirst(id, snapshot, k);
      }
    }

    /** `SetLowWatermark`: refused for the active segment, and never backwards. */
    method SetLowWatermark(id: nat, ghost n: nat) returns (ok: bool)
      requires Increasing(segments) && n <= |segments|
      requires forall k :: 0 <= k < |segments| ==> (segments[k].id <= id <==> k < n)
      modifies this`segments, this`files, this`lowWatermark
      ensures ok <==> old(lowWatermark) <= id < activeId
      ensures ok ==> lowWatermark == id && segments == old(segments)[n..]
      ensures ok ==> forall i :: i in old(files) && i > id ==> i in files && files[i] == old(files)[i]
      ensures !ok ==> unchanged(this)
    {
      if id >= activeId || id < lowWatermark {
        return false;
      }
      lowWatermark := id;
      DeleteOldSegments(n);
      ok := true;
    }

    /** The manifest updates and deletions of `MemtableFlushed`, once the place is found. */
    method TruncateAt(i: nat, b: nat, t: nat) returns (ok: bool)
      requires Increasing(segments) && i < |segments| && 0 < segments[0].id && lowWatermark < segments[0].id
      requires activeId == segments[|segments| - 1].id && forall k :: 0 <= k <= i ==> segments[k].flushedUpTo <= t
      modifies this`segments, this`files, this`lowWatermark
      ensures ok && segments == Truncated(old(segments), i, b, t) && lowWatermark == old(segments)[i].id - 1
      ensures forall id :: id in old(files) && id >= old(segments)[i].id ==> id in files && files[id] == old(files)[id]
    {
      var snapshot, id := segments, segments[i].id;
      ok := SetValidFromBlock(id, b, i);
      ok := SetFlushedUpTo(id, t, i);
      if !ok {
        return;
      }
      ok := MarkOlder(snapshot, id, t, i);
      if !ok {
        return;
      }
      MarkedTail(snapshot, snapshot[i := Meta(id, b, t)], i, b, t, maxBlocks, segments);
      if id > 1 {
        ok := SetLowWatermark(id - 1, i);
      }
    }

    /** The log goes on consistently from there. */
    method TruncateFound(i: nat, b: nat, t: nat) returns (ok: bool)
      requires Valid() && LastHit(files, segments, i, b, t)
      requires forall j :: i < j < |segments| ==> Clear(files, segments[j], t)
      modifies this`segments, this`files, this`lowWatermark, this`flushed
      ensures Valid() && ok && flushed == Max(old(flushed), t)
      ensures CutAtLastHit(old(files), old(segments), t, segments, lowWatermark)
    {
      ghost var files0, segments0, low0 := files, segments, lowWatermark;
      CutReady(files, segments, lowWatermark, activeId, currentBlock, maxBlocks, written, flushed, lastSeq, i, b, t);
      ok := TruncateAt(i, b, t);
      Truncate(files0, segments0, low0, activeId, currentBlock, maxBlocks, written, flushed, lastSeq,
               i, b, t, lowWatermark, files, segments);
      flushed := Max(flushed, t);
    }

    /**
     `MemtableFlushed`: with or without a block to truncate at, what is read afterwards is what was
     read before without the records up to the target. When it finds nothing to drop it reports an
     error and changes nothing.
     */
    method MemtableFlushed(t: nat) returns (ok: bool)
      requires Valid()
      modifies this
      ensures Valid() && written == old(written) && flushed == Max(old(flushed), t) && lastSeq == old(lastSeq)
      ensures !ok ==> unchanged(`files) && unchanged(`segments) && unchanged(`lowWatermark)
      ensures !ok ==> forall i: nat, b: nat :: !HitAt(old(files), old(segments), i, b, t)
      ensures ok ==> CutAtLastHit(old(files), old(segments), t, segments, lowWatermark)
    {
      var found, i, b := Search(files, segments, maxBlocks, t);
      if !found {
        NotFound(files, segments, lowWatermark, activeId, currentBlock, maxBlocks, written, flushed, lastSeq, t);
        flushed := Max(flushed, t);
        return false;
      }
      ok := TruncateFound(i, b, t);
    }
  }
}

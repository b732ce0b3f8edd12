/**
 Recovery of a truncated log (internal/wal/wal.go:262-280): it yields the operations of the whole
 log above the flushed sequence number, if and only if no batch has its start record flushed and
 its commit record not.
 */
module WalFlush {
  import opened Keys
  import opened Options
  import opened WalRecord
  import opened WalRecovery
  import opened WalTruncation

  // ------------------------------------------------------------------ fragments

  lemma KeptPieces(fs: seq<Rec>, r: Rec, t: nat)
    requires PiecesOf(fs, r)
    ensures Kept(fs, t) == if r.seqId > t then fs else []
  {
    if r.seqId > t {
      KeptAll(fs, t);
    } else {
      KeptNoneTo(fs, t, |fs|);
    }
  }

  lemma KeptOne(r: Rec, one: seq<Rec>, t: nat)
    requires one == [r]
    ensures Kept(one, t) == if r.seqId > t then one else []
  {
    assert KeptTo(one, t, 0) == [];
  }

  /** All fragments of a record are kept or none is, so joining and filtering commute. */
  lemma {:induction false} JoinKept(pieces: seq<seq<Rec>>, recs: seq<Rec>, t: nat, c: nat)
    requires Fragmented(pieces, recs) && c <= |recs|
    ensures var kept := Kept(Flat(pieces, c), t);
            JoinFrom(JOIN_START, kept, |kept|) == JoinState(Kept(recs[..c], t), None, false)
  {
    if c > 0 {
      JoinKept(pieces, recs, t, c - 1);
      JoinKeptStep(Flat(pieces, c - 1), pieces[c - 1], recs[..c - 1], recs[c - 1], t);
      assert recs[..c] == recs[..c - 1] + [recs[c - 1]];
    }
  }

  lemma JoinKeptStep(front: seq<Rec>, fs: seq<Rec>, recs: seq<Rec>, r: Rec, t: nat)
    requires PiecesOf(fs, r)
    requires JoinFrom(JOIN_START, Kept(front, t), |Kept(front, t)|) == JoinState(Kept(recs, t), None, false)
    ensures var kept := Kept(front + fs, t);
            JoinFrom(JOIN_START, kept, |kept|) == JoinState(Kept(recs + [r], t), None, false)
  {
    KeptConcat(front, fs, t);
    KeptConcat(recs, [r], t);
    KeptPieces(fs, r, t);
    KeptOne(r, [r], t);
    if r.seqId > t {
      JoinOneMore(Kept(front, t), fs, Kept(recs, t), r);
    } else {
      assert Kept(front, t) + [] == Kept(front, t) && Kept(recs, t) + [] == Kept(recs, t);
    }
  }

  // ------------------------------------------------------------------ operations

  function KeptOpsTo(ops: seq<LogOp>, t: nat, n: nat): (kept: seq<LogOp>)
    requires n <= |ops|
  {
    if n == 0 then []
    else if ops[n - 1].seqId > t then KeptOpsTo(ops, t, n - 1) + [ops[n - 1]]
    else KeptOpsTo(ops, t, n - 1)
  }

  /** The operations with a sequence number above `t`. */
  function KeptOps(ops: seq<LogOp>, t: nat): (kept: seq<LogOp>) { KeptOpsTo(ops, t, |ops|) }

  lemma {:induction false} KeptOpsConcatTo(a: seq<LogOp>, b: seq<LogOp>, t: nat, n: nat)
    requires n <= |a| + |b|
    ensures KeptOpsTo(a + b, t, n) == if n <= |a| then KeptOpsTo(a, t, n) else KeptOps(a, t) + KeptOpsTo(b, t, n - |a|)
  {
    if n > 0 {
      KeptOpsConcatTo(a, b, t, n - 1);
    }
  }

  lemma KeptOpsConcat(a: seq<LogOp>, b: seq<LogOp>, t: nat)
    ensures KeptOps(a + b, t) == KeptOps(a, t) + KeptOps(b, t)
  {
    KeptOpsConcatTo(a, b, t, |a| + |b|);
    if b == [] {
      assert a + b == a;
    }
  }

  lemma {:induction false} KeptOpsUniform(ops: seq<LogOp>, t: nat, n: nat)
    requires n <= |ops|
    ensures (forall i :: 0 <= i < |ops| ==> ops[i].seqId > t) ==> KeptOpsTo(ops, t, n) == ops[..n]
    ensures (forall i :: 0 <= i < |ops| ==> ops[i].seqId <= t) ==> KeptOpsTo(ops, t, n) == []
  {
    if n > 0 {
      KeptOpsUniform(ops, t, n - 1);
    }
  }

  // ------------------------------------------------------------------ units of work

  /** Within a batch, sequence numbers do not decrease. */
  ghost predicate OrderedUnit(u: Unit) {
    && GoodUnit(u)
    && (u.Batch? ==> forall i, j :: 0 <= i < j < |u.ops| ==> u.ops[i].seqId <= u.ops[j].seqId)
  }

  /** The flush target lies inside the batch. */
  predicate Split(u: Unit, t: nat)
    requires u.Batch? ==> |u.ops| > 0
  {
    u.Batch? && u.ops[0].seqId <= t < u.ops[|u.ops| - 1].seqId
  }

  /** What recovery makes of the kept records of a unit: nothing at all of a batch that was split. */
  function Remainder(u: Unit, t: nat): seq<LogOp>
    requires u.Batch? ==> |u.ops| > 0
  {
    if Split(u, t) then [] else KeptOps(UnitOps(u), t)
  }

  lemma {:induction false} KeptFrom(recs: seq<Rec>, t: nat, n: nat, k: nat)
    requires n <= |recs| && k < |KeptTo(recs, t, n)|
    ensures KeptTo(recs, t, n)[k] in recs[..n]
  {
    if k < |KeptTo(recs, t, n - 1)| {
      KeptFrom(recs, t, n - 1, k);
      assert recs[..n - 1] <= recs[..n];
    } else {
      assert recs[..n][n - 1] == recs[n - 1];
    }
  }

  /** Records of a batch whose start is missing are ignored. */
  lemma {:induction false} OrphansIgnored(s: TxnState, recs: seq<Rec>, n: nat)
    requires s.started == {} && n <= |recs|
    requires forall i :: 0 <= i < |recs| ==> recs[i].kind == Transaction || recs[i].kind == Commit
    ensures ApplyFrom(s, recs, n) == s
  {
    if n > 0 {
      OrphansIgnored(s, recs, n - 1);
    }
  }

  lemma BatchSeqIds(u: Unit, recs: seq<Rec>)
    requires u.Batch? && OrderedUnit(u) && recs == UnitRecords(u)
    ensures forall i :: 0 <= i < |recs| ==> u.ops[0].seqId <= recs[i].seqId <= u.ops[|u.ops| - 1].seqId
    ensures recs[0].seqId == u.ops[0].seqId && recs[0].kind == Start
    ensures forall i :: 0 < i < |recs| ==> recs[i].kind == Transaction || recs[i].kind == Commit
  {
    var n := |u.ops|;
    assert recs[n + 1] == Marker(u.ops[n - 1], Commit, u.txnId);
    assert forall i :: 1 <= i < n + 1 ==> recs[i] == RecordOf(u.ops[i - 1], Transaction, u.txnId);
  }

  lemma SplitLosesBatch(u: Unit, t: nat, result: seq<LogOp>, kept: seq<Rec>)
    requires u.Batch? && OrderedUnit(u) && Split(u, t) && kept == Kept(UnitRecords(u), t)
    ensures ApplyFrom(TxnState(result, {}, map[]), kept, |kept|) == TxnState(result, {}, map[])
  {
    var recs := UnitRecords(u);
    BatchSeqIds(u, recs);
    forall k | 0 <= k < |kept| ensures kept[k].kind == Transaction || kept[k].kind == Commit {
      KeptFrom(recs, t, |recs|, k);
      assert recs[..|recs|] == recs;
    }
    OrphansIgnored(TxnState(result, {}, map[]), kept, |kept|);
  }

  /** Not split: kept whole or not at all. */
  lemma UnsplitUnit(u: Unit, t: nat, recs: seq<Rec>)
    requires OrderedUnit(u) && !Split(u, t) && recs == UnitRecords(u)
    ensures (Kept(recs, t) == recs && Remainder(u, t) == UnitOps(u)) || (Kept(recs, t) == [] && Remainder(u, t) == [])
  {
    var ops := UnitOps(u);
    if u.Batch? {
      BatchSeqIds(u, recs);
    }
    KeptOpsUniform(ops, t, |ops|);
    assert ops[..|ops|] == ops;
    if ops[0].seqId > t {
      KeptAll(recs, t);
    } else {
      KeptNoneTo(recs, t, |recs|);
    }
  }

  lemma ApplyKeptUnit(u: Unit, t: nat, result: seq<LogOp>, kept: seq<Rec>)
    requires OrderedUnit(u) && kept == Kept(UnitRecords(u), t)
    ensures ApplyFrom(TxnState(result, {}, map[]), kept, |kept|) == TxnState(result + Remainder(u, t), {}, map[])
  {
    if Split(u, t) {
      SplitLosesBatch(u, t, result, kept);
    } else {
      UnsplitUnit(u, t, UnitRecords(u));
      if kept == [] {
        assert Remainder(u, t) == [];
      } else {
        ApplyUnit(result, u, |kept|);
      }
    }
  }

  // ------------------------------------------------------------------ the whole log

  ghost function Remainders(units: seq<Unit>, t: nat): (parts: seq<seq<LogOp>>)
    requires GoodUnits(units)
    ensures |parts| == |units| && forall i :: 0 <= i < |units| ==> parts[i] == Remainder(units[i], t)
  {
    seq(|units|, i requires 0 <= i < |units| => Remainder(units[i], t))
  }

  ghost predicate OrderedUnits(units: seq<Unit>) {
    forall i :: 0 <= i < |units| ==> OrderedUnit(units[i])
  }

  /** The kept ones of these records, applied, yield `result` and leave no batch open. */
  ghost predicate KeptYields(recs: seq<Rec>, t: nat, result: seq<LogOp>) {
    var kept := Kept(recs, t);
    ApplyFrom(TXN_START, kept, |kept|) == TxnState(result, {}, map[])
  }

  /** The records of a unit, and what of its operations is recovered above `t`. */
  ghost predicate PartsOf(u: Unit, recs: seq<Rec>, rest: seq<LogOp>, t: nat) {
    OrderedUnit(u) && recs == UnitRecords(u) && rest == Remainder(u, t)
  }

  lemma {:induction false} ApplyKept(units: seq<Unit>, parts: seq<seq<Rec>>, rests: seq<seq<LogOp>>, t: nat, n: nat)
    requires |parts| == |rests| == |units| && n <= |units| && forall i :: 0 <= i < |units| ==> PartsOf(units[i], parts[i], rests[i], t)
    ensures KeptYields(Flat(parts, n), t, FlatOps(rests, n))
  {
    if n == 0 {
      NothingYields(t);
    } else {
      ApplyKept(units, parts, rests, t, n - 1);
      ApplyKeptStep(Flat(parts, n - 1), units[n - 1], parts[n - 1], t, FlatOps(rests, n - 1), rests[n - 1]);
    }
  }

  lemma NothingYields(t: nat)
    ensures KeptYields([], t, [])
  {
  }

  lemma ApplyAfter(front: seq<Rec>, rest: seq<Rec>, s: TxnState)
    requires ApplyFrom(TXN_START, front, |front|) == s
    ensures ApplyFrom(TXN_START, front + rest, |front + rest|) == ApplyFrom(s, rest, |rest|)
  {
    ApplyConcat(TXN_START, front, rest, |rest|);
  }

  lemma ApplyKeptStep(front: seq<Rec>, u: Unit, recs: seq<Rec>, t: nat, result: seq<LogOp>, rest: seq<LogOp>)
    requires PartsOf(u, recs, rest, t) && KeptYields(front, t, result)
    ensures KeptYields(front + recs, t, result + rest)
  {
    var kept := Kept(recs, t);
    KeptConcat(front, recs, t);
    ApplyKeptUnit(u, t, result, kept);
    ApplyAfter(Kept(front, t), kept, TxnState(result, {}, map[]));
  }

  /** A split batch has an operation above the target that is lost; nothing else is. */
  lemma RemainderLoses(u: Unit, t: nat)
    requires GoodUnit(u)
    ensures Split(u, t) ==> Remainder(u, t) == [] != KeptOps(UnitOps(u), t)
    ensures !Split(u, t) ==> Remainder(u, t) == KeptOps(UnitOps(u), t)
  {
  }

  /** Concatenations of parts that are equal, or empty on one side only, agree just when all parts do. */
  lemma {:induction false} FlatCompare(a: seq<seq<LogOp>>, b: seq<seq<LogOp>>, n: nat)
    requires |a| == |b| && n <= |a| && forall i :: 0 <= i < |a| ==> a[i] == b[i] || a[i] == []
    ensures |FlatOps(a, n)| <= |FlatOps(b, n)|
    ensures FlatOps(a, n) == FlatOps(b, n) <==> forall i :: 0 <= i < n ==> a[i] == b[i]
  {
    if n > 0 {
      FlatCompare(a, b, n - 1);
      var x, y := FlatOps(a, n - 1), FlatOps(b, n - 1);
      if a[n - 1] == b[n - 1] && x + a[n - 1] == y + b[n - 1] {
        assert x == (x + a[n - 1])[..|x|] == (y + b[n - 1])[..|y|] == y;
      }
    }
  }

  lemma {:induction false} KeptOfFlat(parts: seq<seq<LogOp>>, kept: seq<seq<LogOp>>, t: nat, n: nat)
    requires |kept| == |parts| && n <= |parts| && forall i :: 0 <= i < |parts| ==> kept[i] == KeptOps(parts[i], t)
    ensures KeptOps(FlatOps(parts, n), t) == FlatOps(kept, n)
  {
    if n > 0 {
      KeptOfFlat(parts, kept, t, n - 1);
      KeptOpsConcat(FlatOps(parts, n - 1), parts[n - 1], t);
    }
  }

  /** The remainders make up all kept operations if and only if no batch is split. */
  lemma RemaindersExact(units: seq<Unit>, parts: seq<seq<LogOp>>, rests: seq<seq<LogOp>>, t: nat)
    requires GoodUnits(units) && parts == OpParts(units) && rests == Remainders(units, t)
    ensures FlatOps(rests, |units|) == KeptOps(FlatOps(parts, |units|), t)
            <==> forall i :: 0 <= i < |units| ==> !Split(units[i], t)
  {
    var kept := seq(|parts|, i requires 0 <= i < |parts| => KeptOps(parts[i], t));
    KeptOfFlat(parts, kept, t, |parts|);
    forall i | 0 <= i < |units| ensures (rests[i] == kept[i] || rests[i] == []) && (rests[i] == kept[i] <==> !Split(units[i], t)) {
      RemainderLoses(units[i], t);
    }
    FlatCompare(rests, kept, |units|);
  }

  lemma JoinedKept(pieces: seq<seq<Rec>>, recs: seq<Rec>, t: nat)
    requires Fragmented(pieces, recs)
    ensures Joined(Kept(Flat(pieces, |pieces|), t)) == Kept(recs, t)
  {
    JoinKept(pieces, recs, t, |recs|);
    assert recs[..|recs|] == recs;
  }

  lemma AppliedKept(units: seq<Unit>, parts: seq<seq<Rec>>, recs: seq<Rec>, rests: seq<seq<LogOp>>, t: nat)
    requires OrderedUnits(units) && parts == RecordParts(units) && recs == Flat(parts, |parts|) && rests == Remainders(units, t)
    ensures Applied(Kept(recs, t)) == FlatOps(rests, |rests|)
  {
    ApplyKept(units, parts, rests, t, |units|);
  }

  /** Recovery of what is left of the log above `t`. */
  lemma RecoverKept(units: seq<Unit>, parts: seq<seq<Rec>>, pieces: seq<seq<Rec>>, rests: seq<seq<LogOp>>, t: nat)
    requires OrderedUnits(units) && parts == RecordParts(units) && Fragmented(pieces, Flat(parts, |parts|))
    requires rests == Remainders(units, t)
    ensures Recovered(Kept(Flat(pieces, |pieces|), t)) == FlatOps(rests, |rests|)
  {
    JoinedKept(pieces, Flat(parts, |parts|), t);
    AppliedKept(units, parts, Flat(parts, |parts|), rests, t);
  }

  /**
   For every log of single writes and batches and every target: recovery after the flush yields the
   earlier result restricted to sequence numbers above the target, if and only if the target splits
   no batch.
   */
  lemma FlushExact(units: seq<Unit>, parts: seq<seq<Rec>>, pieces: seq<seq<Rec>>, t: nat)
    requires OrderedUnits(units) && parts == RecordParts(units) && Fragmented(pieces, Flat(parts, |parts|))
    ensures Recovered(Kept(Flat(pieces, |pieces|), t)) == KeptOps(Recovered(Flat(pieces, |pieces|)), t)
            <==> forall i :: 0 <= i < |units| ==> !Split(units[i], t)
  {
    RecoverKept(units, parts, pieces, Remainders(units, t), t);
    WholeLogRecovers(units, pieces);
    RemaindersExact(units, OpParts(units), Remainders(units, t), t);
  }

  /** `Recover`. */
  method Recover(w: WAL) returns (ops: seq<LogOp>)
    requires w.Valid()
    ensures ops == Recovered(Kept(w.written, w.flushed))
  {
    var frags := w.ReadAllFragments();
    var joined := JoinFragments(frags);
    ops := ApplyTransactions(joined);
  }

  /**
   `MemtableFlushed` and then `Recover`: both results are what the log's fragments above the mark hold,
   and the later is the earlier without what was flushed if and only if the target splits no batch.
   */
  method FlushAndRecover(w: WAL, t: nat, ghost units: seq<Unit>, ghost pieces: seq<seq<Rec>>)
    returns (before: seq<LogOp>, after: seq<LogOp>)
    requires w.Valid() && w.written == Flat(pieces, |pieces|)
    requires OrderedUnits(units) && Fragmented(pieces, Flat(RecordParts(units), |units|))
    requires forall i :: 0 <= i < |units| ==> !Split(units[i], w.flushed)
    modifies w
    ensures w.Valid() && w.written == old(w.written) && w.flushed == Max(old(w.flushed), t)
    ensures before == Recovered(Kept(w.written, old(w.flushed))) && after == Recovered(Kept(w.written, w.flushed))
    ensures before == KeptOps(FlatOps(OpParts(units), |units|), old(w.flushed))
    ensures after == KeptOps(before, t) <==> forall i :: 0 <= i < |units| ==> !Split(units[i], Max(old(w.flushed), t))
  {
    ghost var f := w.flushed;
    before := Recover(w);
    var _ := w.MemtableFlushed(t);
    after := Recover(w);
    FlushedTwice(units, pieces, w.written, f, t, before, after);
  }

  /** A log already flushed to `f` is flushed to `t`. */
  lemma FlushedTwice(units: seq<Unit>, pieces: seq<seq<Rec>>, written: seq<Rec>, f: nat, t: nat, before: seq<LogOp>, after: seq<LogOp>)
    requires OrderedUnits(units) && Fragmented(pieces, Flat(RecordParts(units), |units|)) && written == Flat(pieces, |pieces|)
    requires forall i :: 0 <= i < |units| ==> !Split(units[i], f)
    requires before == Recovered(Kept(written, f)) && after == Recovered(Kept(written, Max(f, t)))
    ensures before == KeptOps(FlatOps(OpParts(units), |units|), f)
    ensures after == KeptOps(before, t) <==> forall i :: 0 <= i < |units| ==> !Split(units[i], Max(f, t))
  {
    var all := Recovered(written);
    WholeLogRecovers(units, pieces);
    FlushExact(units, RecordParts(units), pieces, f);
    FlushExact(units, RecordParts(units), pieces, Max(f, t));
    KeptOpsTwice(all, f, t);
  }

  lemma {:induction false} KeptOpsTwiceTo(ops: seq<LogOp>, s: nat, t: nat, n: nat)
    requires n <= |ops|
    ensures KeptOps(KeptOpsTo(ops, s, n), t) == KeptOpsTo(ops, Max(s, t), n)
  {
    if n > 0 {
      KeptOpsTwiceTo(ops, s, t, n - 1);
      if ops[n - 1].seqId > s {
        var last := [ops[n - 1]];
        KeptOpsConcat(KeptOpsTo(ops, s, n - 1), last, t);
        assert KeptOps(last, t) == KeptOpsTo(last, t, 0) + (if ops[n - 1].seqId > t then last else []);
      }
    }
  }

  lemma KeptOpsTwice(ops: seq<LogOp>, s: nat, t: nat)
    ensures KeptOps(KeptOps(ops, s), t) == KeptOps(ops, Max(s, t))
  {
    KeptOpsTwiceTo(ops, s, t, |ops|);
  }
}

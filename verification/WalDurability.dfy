/**
 What recovery makes of the log as it was written (internal/wal/wal.go:145-300, 325-426): of every single
 operation and every batch, exactly what a reader finds, and when that is everything.
 */
module WalDurability {
  import opened ByteOrder
  import opened Keys
  import opened Options
  import opened WalRecord
  import opened WalBlocks
  import opened WalSegment
  import opened WalRecovery
  import opened WalLog

  // ------------------------------------------------------------------ reading

  /** `ReadAllFragments` of a log from which nothing was flushed: segment after segment. */
  method ReadAllFragments(log: Log) returns (frags: seq<Rec>)
    requires log.Valid() && log.Synced() && log.crc(Zeros(43)) != 0
    ensures exists j :: Joins(JOIN_START, frags, j) && Continues(j, log.State())
  {
    frags := [];
    for i := 0 to |log.files|
      invariant frags == ReadClosed(log.contents, log.blockSize, i)
    {
      var recs := ReadAllRecords(log.crc, log.blockSize, log.files[i], log.contents[i]);
      frags := frags + recs;
    }
    ghost var closed := frags;
    var last := ReadAllRecords(log.crc, log.blockSize, log.active.disk, log.active.blocks);
    frags := frags + last;
    var _ := JoinSegment(closed, log.base, last, log.active.Now(), frags);
  }

  /** `Recover`. */
  method Recover(log: Log) returns (ops: seq<LogOp>)
    requires log.Valid() && log.Synced() && log.crc(Zeros(43)) != 0
    ensures ops == Applied(log.State().found)
  {
    var frags := ReadAllFragments(log);
    var joined := JoinFragments(frags);
    ops := ApplyTransactions(joined);
  }

  // ------------------------------------------------------------------ what is found

  ghost predicate LostAt(s: LogState, recs: seq<Rec>, n: nat, size: nat, maxBlocks: nat)
    requires n < |recs| && size > KEY_START
  {
    Loses(Run(s, recs, n, size, maxBlocks), recs[n], size, maxBlocks)
  }

  /** Which of these records no reader finds. */
  ghost function Lost(s: LogState, recs: seq<Rec>, size: nat, maxBlocks: nat): (lost: seq<bool>)
    requires size > KEY_START
    ensures |lost| == |recs|
  {
    seq(|recs|, i requires 0 <= i < |recs| => LostAt(s, recs, i, size, maxBlocks))
  }

  /** The first `n` records without the lost ones. */
  ghost function Seen(recs: seq<Rec>, lost: seq<bool>, n: nat): (seen: seq<Rec>)
    requires n <= |recs| == |lost|
  {
    if n == 0 then [] else Seen(recs, lost, n - 1) + if lost[n - 1] then [] else [recs[n - 1]]
  }

  lemma {:induction false} RunFinds(s: LogState, recs: seq<Rec>, lost: seq<bool>, n: nat, size: nat, maxBlocks: nat)
    requires n <= |recs| && size > KEY_START && lost == Lost(s, recs, size, maxBlocks)
    ensures Run(s, recs, n, size, maxBlocks).found == s.found + Seen(recs, lost, n)
  {
    if n == 0 {
      assert s.found + [] == s.found;
    } else {
      RunFinds(s, recs, lost, n - 1, size, maxBlocks);
      assert lost[n - 1] == LostAt(s, recs, n - 1, size, maxBlocks);
      FoundSnoc(s.found, Seen(recs, lost, n - 1), recs[n - 1]);
    }
  }

  lemma FoundSnoc(a: seq<Rec>, b: seq<Rec>, r: Rec)
    ensures a + b + [r] == a + (b + [r]) && a + b == a + (b + [])
  {
  }

  // ------------------------------------------------------------------ what is applied

  ghost function ApplyAll(t: TxnState, recs: seq<Rec>): (t': TxnState) { ApplyFrom(t, recs, |recs|) }

  lemma ApplyAllSnoc(t: TxnState, recs: seq<Rec>, r: Rec)
    ensures ApplyAll(t, recs + [r]) == TxnStep(ApplyAll(t, recs), r)
  {
    assert (recs + [r])[..|recs|] == recs[..|recs|];
    ApplySame(t, recs + [r], recs, |recs|);
  }

  lemma ApplyAllConcat(t: TxnState, a: seq<Rec>, b: seq<Rec>)
    ensures ApplyAll(t, a + b) == ApplyAll(ApplyAll(t, a), b)
  {
    ApplyConcat(t, a, b, |b|);
  }

  /** The operations of a batch that are found, of the first `n`; the start record comes before them. */
  ghost function FoundOps(ops: seq<LogOp>, lost: seq<bool>, n: nat): (found: seq<LogOp>)
    requires n <= |ops| < |lost|
    ensures |found| <= n
  {
    if n == 0 then [] else FoundOps(ops, lost, n - 1) + if lost[n] then [] else [ops[n - 1]]
  }

  /** What recovery gives back of a unit: of a batch nothing, unless both of its markers are found. */
  ghost function FoundOf(u: Unit, lost: seq<bool>): (ops: seq<LogOp>)
    requires GoodUnit(u) && |lost| == |UnitRecords(u)|
  {
    match u
    case One(op) => if lost[0] then [] else [op]
    case Batch(id, ops) => if lost[0] || lost[|ops| + 1] then [] else FoundOps(ops, lost, |ops|)
  }

  lemma OpStep(t: TxnState, id: nat, found: seq<LogOp>, op: LogOp, r: Rec)
    requires id !in t.started && OpRecord(r, op, id)
    ensures TxnStep(t, r) == t
    ensures TxnStep(TxnState(t.result, t.started + {id}, t.pending[id := found]), r)
            == TxnState(t.result, t.started + {id}, t.pending[id := found + [op]])
  {
    assert Payload(r) == op;
    assert t.pending[id := found][id := found + [op]] == t.pending[id := found + [op]];
  }

  lemma {:induction false} ApplyFoundBatch(t: TxnState, recs: seq<Rec>, lost: seq<bool>, id: nat, ops: seq<LogOp>, n: nat)
    requires BatchOf(recs, id, ops) && |lost| == |recs| && id !in t.started && n <= |ops|
    ensures ApplyAll(t, Seen(recs, lost, n + 1))
            == if lost[0] then t else TxnState(t.result, t.started + {id}, t.pending[id := FoundOps(ops, lost, n)])
  {
    var seen := Seen(recs, lost, n);
    ApplyAllSnoc(t, seen, recs[n]);
    assert seen + [] == seen;
    if n > 0 {
      ApplyFoundBatch(t, recs, lost, id, ops, n - 1);
      assert OpRecord(recs[1 + (n - 1)], ops[n - 1], id);
      var found := FoundOps(ops, lost, n - 1);
      assert found + [] == found;
      OpStep(t, id, found, ops[n - 1], recs[n]);
    }
  }

  ghost function UnitIds(u: Unit): set<nat> { if u.Batch? then {u.txnId} else {} }

  lemma ApplyFoundOne(t: TxnState, recs: seq<Rec>, lost: seq<bool>, op: LogOp)
    requires recs == [RecordOf(op, Single, 0)] && |lost| == 1
    ensures var t' := ApplyAll(t, Seen(recs, lost, 1));
            t'.result == t.result + (if lost[0] then [] else [op]) && t'.started == t.started
  {
    var none := Seen(recs, lost, 0);
    assert none == [] && ApplyAll(t, none) == t;
    ApplyAllSnoc(t, none, recs[0]);
    assert none + [] == none && t.result + [] == t.result;
    assert Payload(recs[0]) == op;
  }

  lemma CommitStep(t: TxnState, id: nat, found: seq<LogOp>, r: Rec)
    requires id !in t.started && r.kind == Commit && r.txnId == id
    ensures TxnStep(t, r) == t
    ensures var t' := TxnStep(TxnState(t.result, t.started + {id}, t.pending[id := found]), r);
            t'.result == t.result + found && t'.started <= t.started
  {
  }

  lemma ApplyCommit(t: TxnState, seen: seq<Rec>, all: seq<Rec>, id: nat, found: seq<LogOp>, r: Rec, lostFirst: bool, lostLast: bool)
    requires id !in t.started && r.kind == Commit && r.txnId == id && all == seen + if lostLast then [] else [r]
    requires ApplyAll(t, seen) == if lostFirst then t else TxnState(t.result, t.started + {id}, t.pending[id := found])
    ensures var t' := ApplyAll(t, all);
            t'.result == t.result + (if lostFirst || lostLast then [] else found) && t'.started <= t.started + {id}
  {
    ApplyAllSnoc(t, seen, r);
    CommitStep(t, id, found, r);
    assert seen + [] == seen && t.result + [] == t.result;
  }

  lemma ApplyFoundCommit(t: TxnState, recs: seq<Rec>, lost: seq<bool>, id: nat, ops: seq<LogOp>, m: nat)
    requires BatchOf(recs, id, ops) && |lost| == |recs| && m == |ops| && id !in t.started
    ensures var t' := ApplyAll(t, Seen(recs, lost, |recs|));
            t'.result == t.result + (if lost[0] || lost[m + 1] then [] else FoundOps(ops, lost, m)) && t'.started <= t.started + {id}
  {
    ApplyFoundBatch(t, recs, lost, id, ops, m);
    ApplyCommit(t, Seen(recs, lost, m + 1), Seen(recs, lost, |recs|), id, FoundOps(ops, lost, m), recs[m + 1], lost[0], lost[m + 1]);
  }

  /** Whatever batches were left without their commit record, the records found of a unit give back its found operations. */
  lemma ApplyFoundUnit(t: TxnState, recs: seq<Rec>, lost: seq<bool>, u: Unit)
    requires GoodUnit(u) && recs == UnitRecords(u) && |lost| == |recs| && UnitIds(u) !! t.started
    ensures var t' := ApplyAll(t, Seen(recs, lost, |recs|));
            t'.result == t.result + FoundOf(u, lost) && t'.started <= t.started + UnitIds(u)
  {
    match u
    case One(op) => ApplyFoundOne(t, recs, lost, op);
    case Batch(id, ops) =>
      BatchInOrder(id, ops, recs);
      ApplyFoundCommit(t, recs, lost, id, ops, |ops|);
  }

  /** What recovery gives back of a unit that is written to this log. */
  ghost function UnitFound(s: LogState, u: Unit, size: nat, maxBlocks: nat): (ops: seq<LogOp>)
    requires GoodUnit(u) && size > KEY_START
  {
    FoundOf(u, Lost(s, UnitRecords(u), size, maxBlocks))
  }

  // ------------------------------------------------------------------ the whole log

  ghost predicate Follows(s: LogState, s': LogState, u: Unit, size: nat, maxBlocks: nat)
    requires GoodUnit(u) && size > KEY_START
  {
    s' == AfterUnit(s, u, size, maxBlocks)
  }

  /** The log before and after every unit, from an empty log on. */
  ghost predicate Logs(logs: seq<LogState>, units: seq<Unit>, size: nat, maxBlocks: nat)
    requires GoodUnits(units) && size > KEY_START
  {
    && |logs| == |units| + 1 && logs[0] == LogState(Place(0, size), [], false)
    && forall i :: 0 <= i < |units| ==> Follows(logs[i], logs[i + 1], units[i], size, maxBlocks)
  }

  /** What recovery gives back of each unit. */
  ghost function FoundParts(logs: seq<LogState>, units: seq<Unit>, size: nat, maxBlocks: nat): (parts: seq<seq<LogOp>>)
    requires GoodUnits(units) && |logs| == |units| + 1 && size > KEY_START
    ensures |parts| == |units|
  {
    seq(|units|, i requires 0 <= i < |units| => UnitFound(logs[i], units[i], size, maxBlocks))
  }

  /** No two batches have one number. */
  ghost predicate DistinctTxns(units: seq<Unit>) {
    forall i, j :: 0 <= i < j < |units| ==> UnitIds(units[i]) !! UnitIds(units[j])
  }

  ghost function IdsTo(units: seq<Unit>, n: nat): set<nat>
    requires n <= |units|
  {
    if n == 0 then {} else IdsTo(units, n - 1) + UnitIds(units[n - 1])
  }

  lemma {:induction false} IdsApart(units: seq<Unit>, n: nat, j: nat)
    requires DistinctTxns(units) && n <= j < |units|
    ensures IdsTo(units, n) !! UnitIds(units[j])
  {
    if n > 0 {
      IdsApart(units, n - 1, j);
    }
  }

  /** The batches left open by these records have numbers of earlier units. */
  ghost predicate RecoversOps(s: LogState, ops: seq<LogOp>, ids: set<nat>) {
    var t := ApplyAll(TXN_START, s.found);
    t.result == ops && t.started <= ids
  }

  lemma ApplyAfterUnit(s: LogState, u: Unit, t: TxnState, size: nat, maxBlocks: nat)
    requires GoodUnit(u) && size > KEY_START && ApplyAll(TXN_START, s.found) == t && UnitIds(u) !! t.started
    ensures var t' := ApplyAll(TXN_START, AfterUnit(s, u, size, maxBlocks).found);
            t'.result == t.result + UnitFound(s, u, size, maxBlocks) && t'.started <= t.started + UnitIds(u)
  {
    var recs := UnitRecords(u);
    var lost := Lost(s, recs, size, maxBlocks);
    RunFinds(s, recs, lost, |recs|, size, maxBlocks);
    ApplyAllConcat(TXN_START, s.found, Seen(recs, lost, |recs|));
    ApplyFoundUnit(t, recs, lost, u);
  }

  lemma RecoveredNext(s: LogState, s': LogState, u: Unit, ops: seq<LogOp>, ids: set<nat>, found: seq<LogOp>, size: nat, maxBlocks: nat)
    requires GoodUnit(u) && size > KEY_START && RecoversOps(s, ops, ids) && ids !! UnitIds(u) && Follows(s, s', u, size, maxBlocks)
    requires found == UnitFound(s, u, size, maxBlocks)
    ensures RecoversOps(s', ops + found, ids + UnitIds(u))
  {
    ApplyAfterUnit(s, u, ApplyAll(TXN_START, s.found), size, maxBlocks);
  }

  lemma {:induction false} RecoveredTo(logs: seq<LogState>, units: seq<Unit>, found: seq<seq<LogOp>>, n: nat, size: nat, maxBlocks: nat)
    requires GoodUnits(units) && DistinctTxns(units) && n <= |units| && size > KEY_START && Logs(logs, units, size, maxBlocks)
    requires found == FoundParts(logs, units, size, maxBlocks)
    ensures RecoversOps(logs[n], FlatOps(found, n), IdsTo(units, n))
  {
    if n > 0 {
      RecoveredTo(logs, units, found, n - 1, size, maxBlocks);
      IdsApart(units, n - 1, n - 1);
      assert Follows(logs[n - 1], logs[n - 1 + 1], units[n - 1], size, maxBlocks);
      RecoveredNext(logs[n - 1], logs[n], units[n - 1], FlatOps(found, n - 1), IdsTo(units, n - 1), found[n - 1], size, maxBlocks);
    }
  }

  /** Recovery gives back exactly what is found of each unit, in order. */
  lemma RecoveredExactly(logs: seq<LogState>, units: seq<Unit>, n: nat, size: nat, maxBlocks: nat)
    requires GoodUnits(units) && DistinctTxns(units) && n <= |units| && size > KEY_START && Logs(logs, units, size, maxBlocks)
    ensures Applied(logs[n].found) == FlatOps(FoundParts(logs, units, size, maxBlocks), n)
  {
    RecoveredTo(logs, units, FoundParts(logs, units, size, maxBlocks), n, size, maxBlocks);
  }

  // ------------------------------------------------------------------ when nothing is lost

  /** A header without payload in the last bytes of a block, or a record cut by the end of the segment. */
  predicate Misplaced(p: Place, r: Rec, size: nat, maxBlocks: nat)
    requires size > KEY_START
  {
    Hidden(p, r) || Torn(p, r, size, maxBlocks)
  }

  ghost predicate MisplacedAt(s: LogState, recs: seq<Rec>, n: nat, size: nat, maxBlocks: nat)
    requires n < |recs| && size > KEY_START
  {
    Misplaced(Run(s, recs, n, size, maxBlocks).at, recs[n], size, maxBlocks)
  }

  ghost predicate PlacedTo(s: LogState, recs: seq<Rec>, n: nat, size: nat, maxBlocks: nat)
    requires n <= |recs| && size > KEY_START
  {
    forall k :: 0 <= k < n ==> !MisplacedAt(s, recs, k, size, maxBlocks)
  }

  ghost predicate UnitPlaced(s: LogState, u: Unit, size: nat, maxBlocks: nat)
    requires GoodUnit(u) && size > KEY_START
  {
    PlacedTo(s, UnitRecords(u), |UnitRecords(u)|, size, maxBlocks)
  }

  ghost predicate AllPlaced(logs: seq<LogState>, units: seq<Unit>, n: nat, size: nat, maxBlocks: nat)
    requires GoodUnits(units) && n <= |units| < |logs| && size > KEY_START
  {
    forall i :: 0 <= i < n ==> UnitPlaced(logs[i], units[i], size, maxBlocks)
  }

  lemma PlacedNext(s: LogState, recs: seq<Rec>, n: nat, size: nat, maxBlocks: nat)
    requires n < |recs| && size > KEY_START
    ensures PlacedTo(s, recs, n + 1, size, maxBlocks) <==> PlacedTo(s, recs, n, size, maxBlocks) && !MisplacedAt(s, recs, n, size, maxBlocks)
  {
  }

  /** While no record was torn, a record is lost exactly where it is misplaced. */
  lemma LostHere(s: LogState, recs: seq<Rec>, n: nat, size: nat, maxBlocks: nat)
    requires n < |recs| && size > KEY_START && !Run(s, recs, n, size, maxBlocks).torn
    ensures LostAt(s, recs, n, size, maxBlocks) <==> MisplacedAt(s, recs, n, size, maxBlocks)
    ensures !MisplacedAt(s, recs, n, size, maxBlocks) ==> !Run(s, recs, n + 1, size, maxBlocks).torn
  {
  }

  lemma {:induction false} PlacedIsFound(s: LogState, recs: seq<Rec>, n: nat, size: nat, maxBlocks: nat)
    requires n <= |recs| && size > KEY_START && !s.torn && PlacedTo(s, recs, n, size, maxBlocks)
    ensures !Run(s, recs, n, size, maxBlocks).torn && forall k :: 0 <= k < n ==> !LostAt(s, recs, k, size, maxBlocks)
  {
    if n > 0 {
      PlacedNext(s, recs, n - 1, size, maxBlocks);
      PlacedIsFound(s, recs, n - 1, size, maxBlocks);
      LostHere(s, recs, n - 1, size, maxBlocks);
    }
  }

  /** The first misplaced record is lost. */
  lemma {:induction false} MisplacedIsLost(s: LogState, recs: seq<Rec>, n: nat, size: nat, maxBlocks: nat) returns (k: nat)
    requires n <= |recs| && size > KEY_START && !s.torn && !PlacedTo(s, recs, n, size, maxBlocks)
    ensures k < n && LostAt(s, recs, k, size, maxBlocks)
  {
    if PlacedTo(s, recs, n - 1, size, maxBlocks) {
      PlacedNext(s, recs, n - 1, size, maxBlocks);
      PlacedIsFound(s, recs, n - 1, size, maxBlocks);
      LostHere(s, recs, n - 1, size, maxBlocks);
      k := n - 1;
    } else {
      k := MisplacedIsLost(s, recs, n - 1, size, maxBlocks);
    }
  }

  lemma {:induction false} FoundOpsAll(ops: seq<LogOp>, lost: seq<bool>, n: nat)
    requires n <= |ops| < |lost| && forall k :: 0 <= k < |lost| ==> !lost[k]
    ensures FoundOps(ops, lost, n) == ops[..n]
  {
    if n > 0 {
      FoundOpsAll(ops, lost, n - 1);
    }
  }

  lemma {:induction false} FoundOpsLost(ops: seq<LogOp>, lost: seq<bool>, n: nat, k: nat)
    requires 0 < k <= n <= |ops| < |lost| && lost[k]
    ensures |FoundOps(ops, lost, n)| < n
  {
    if k < n {
      FoundOpsLost(ops, lost, n - 1, k);
    }
  }

  lemma FoundOfAll(u: Unit, lost: seq<bool>)
    requires GoodUnit(u) && |lost| == |UnitRecords(u)| && forall k :: 0 <= k < |lost| ==> !lost[k]
    ensures FoundOf(u, lost) == UnitOps(u)
  {
    if u.Batch? {
      FoundOpsAll(u.ops, lost, |u.ops|);
      assert u.ops[..|u.ops|] == u.ops;
    }
  }

  lemma FoundOfLost(u: Unit, lost: seq<bool>, k: nat)
    requires GoodUnit(u) && |lost| == |UnitRecords(u)| && k < |lost| && lost[k]
    ensures |FoundOf(u, lost)| < |UnitOps(u)|
  {
    if u.Batch? && 0 < k <= |u.ops| {
      FoundOpsLost(u.ops, lost, |u.ops|, k);
    }
  }

  /** A unit comes back whole when none of its records is misplaced, */
  lemma PlacedUnitFound(s: LogState, s': LogState, u: Unit, size: nat, maxBlocks: nat)
    requires GoodUnit(u) && size > KEY_START && !s.torn && UnitPlaced(s, u, size, maxBlocks) && Follows(s, s', u, size, maxBlocks)
    ensures UnitFound(s, u, size, maxBlocks) == UnitOps(u) && !s'.torn
  {
    var recs := UnitRecords(u);
    PlacedIsFound(s, recs, |recs|, size, maxBlocks);
    FoundOfAll(u, Lost(s, recs, size, maxBlocks));
  }

  /** and shorter when one is. */
  lemma MisplacedUnitFound(s: LogState, u: Unit, size: nat, maxBlocks: nat)
    requires GoodUnit(u) && size > KEY_START && !s.torn && !UnitPlaced(s, u, size, maxBlocks)
    ensures |UnitFound(s, u, size, maxBlocks)| < |UnitOps(u)|
  {
    var recs := UnitRecords(u);
    var k := MisplacedIsLost(s, recs, |recs|, size, maxBlocks);
    FoundOfLost(u, Lost(s, recs, size, maxBlocks), k);
  }

  lemma UnitFoundAtMost(s: LogState, u: Unit, size: nat, maxBlocks: nat)
    requires GoodUnit(u) && size > KEY_START
    ensures |UnitFound(s, u, size, maxBlocks)| <= |UnitOps(u)|
  {
  }

  /** Nothing behind an incomplete record comes back. */
  lemma TornUnitFound(s: LogState, s': LogState, u: Unit, size: nat, maxBlocks: nat)
    requires GoodUnit(u) && size > KEY_START && s.torn && Follows(s, s', u, size, maxBlocks)
    ensures UnitFound(s, u, size, maxBlocks) == [] && s'.torn
  {
    TornStays(s, UnitRecords(u), |UnitRecords(u)|, size, maxBlocks);
    TornStays(s, UnitRecords(u), 0, size, maxBlocks);
  }

  lemma {:induction false} TornStays(s: LogState, recs: seq<Rec>, n: nat, size: nat, maxBlocks: nat)
    requires n <= |recs| && size > KEY_START && s.torn
    ensures Run(s, recs, n, size, maxBlocks).torn && (n < |recs| ==> LostAt(s, recs, n, size, maxBlocks))
  {
    if n > 0 {
      TornStays(s, recs, n - 1, size, maxBlocks);
    }
  }

  lemma {:induction false} LogsTorn(logs: seq<LogState>, units: seq<Unit>, i: nat, n: nat, size: nat, maxBlocks: nat)
    requires GoodUnits(units) && i <= n <= |units| && size > KEY_START && Logs(logs, units, size, maxBlocks) && logs[i].torn
    ensures logs[n].torn && forall k :: i <= k < n ==> logs[k].torn
    decreases n
  {
    if i < n {
      LogsTorn(logs, units, i, n - 1, size, maxBlocks);
      assert Follows(logs[n - 1], logs[n - 1 + 1], units[n - 1], size, maxBlocks);
      TornUnitFound(logs[n - 1], logs[n], units[n - 1], size, maxBlocks);
    }
  }

  lemma TornPart(logs: seq<LogState>, units: seq<Unit>, k: nat, size: nat, maxBlocks: nat)
    requires GoodUnits(units) && k < |units| && size > KEY_START && Logs(logs, units, size, maxBlocks) && logs[k].torn
    ensures FoundParts(logs, units, size, maxBlocks)[k] == []
  {
    assert Follows(logs[k], logs[k + 1], units[k], size, maxBlocks);
    TornUnitFound(logs[k], logs[k + 1], units[k], size, maxBlocks);
  }

  lemma {:induction false} FlatOpsNothing(found: seq<seq<LogOp>>, i: nat, n: nat)
    requires i <= n <= |found| && forall k :: i <= k < n ==> found[k] == []
    ensures FlatOps(found, n) == FlatOps(found, i)
    decreases n
  {
    if i < n {
      FlatOpsNothing(found, i, n - 1);
    }
  }

  /** Of what is written behind an incomplete record nothing comes back. */
  lemma TornEnds(logs: seq<LogState>, units: seq<Unit>, i: nat, n: nat, size: nat, maxBlocks: nat)
    requires GoodUnits(units) && DistinctTxns(units) && i <= n <= |units| && size > KEY_START && Logs(logs, units, size, maxBlocks)
    requires logs[i].torn
    ensures logs[n].torn && Applied(logs[n].found) == Applied(logs[i].found)
  {
    LogsTorn(logs, units, i, n, size, maxBlocks);
    var found := FoundParts(logs, units, size, maxBlocks);
    forall k | i <= k < n ensures found[k] == [] {
      TornPart(logs, units, k, size, maxBlocks);
    }
    FlatOpsNothing(found, i, n);
    RecoveredExactly(logs, units, i, size, maxBlocks);
    RecoveredExactly(logs, units, n, size, maxBlocks);
  }

  /** Of each of the first `n` units everything is found, or some part is missing. */
  ghost predicate Compares(s: LogState, found: seq<LogOp>, all: seq<LogOp>, placed: bool) {
    if placed then found == all && !s.torn else |found| < |all|
  }

  lemma ComparesNext(s: LogState, s': LogState, u: Unit, found: seq<LogOp>, all: seq<LogOp>, placed: bool, size: nat, maxBlocks: nat)
    requires GoodUnit(u) && size > KEY_START && Compares(s, found, all, placed) && Follows(s, s', u, size, maxBlocks)
    ensures Compares(s', found + UnitFound(s, u, size, maxBlocks), all + UnitOps(u), placed && UnitPlaced(s, u, size, maxBlocks))
  {
    UnitFoundAtMost(s, u, size, maxBlocks);
    if placed {
      if UnitPlaced(s, u, size, maxBlocks) {
        PlacedUnitFound(s, s', u, size, maxBlocks);
      } else {
        MisplacedUnitFound(s, u, size, maxBlocks);
      }
    }
  }

  lemma {:induction false} ComparesTo(logs: seq<LogState>, units: seq<Unit>, found: seq<seq<LogOp>>, all: seq<seq<LogOp>>, n: nat, size: nat, maxBlocks: nat)
    requires GoodUnits(units) && n <= |units| && size > KEY_START && Logs(logs, units, size, maxBlocks)
    requires found == FoundParts(logs, units, size, maxBlocks) && all == OpParts(units)
    ensures Compares(logs[n], FlatOps(found, n), FlatOps(all, n), AllPlaced(logs, units, n, size, maxBlocks))
  {
    if n > 0 {
      ComparesTo(logs, units, found, all, n - 1, size, maxBlocks);
      assert Follows(logs[n - 1], logs[n - 1 + 1], units[n - 1], size, maxBlocks);
      ComparesNext(logs[n - 1], logs[n], units[n - 1], FlatOps(found, n - 1), FlatOps(all, n - 1), AllPlaced(logs, units, n - 1, size, maxBlocks), size, maxBlocks);
      assert AllPlaced(logs, units, n, size, maxBlocks)
             <==> AllPlaced(logs, units, n - 1, size, maxBlocks) && UnitPlaced(logs[n - 1], units[n - 1], size, maxBlocks);
    }
  }

  /**
   Everything written comes back if and only if no record is misplaced: none without payload has just the room
   for its header, and none that is longer than the rest of its segment is begun there.
   */
  lemma EverythingRecovered(logs: seq<LogState>, units: seq<Unit>, n: nat, size: nat, maxBlocks: nat)
    requires GoodUnits(units) && DistinctTxns(units) && n <= |units| && size > KEY_START && Logs(logs, units, size, maxBlocks)
    ensures Applied(logs[n].found) == FlatOps(OpParts(units), n) <==> AllPlaced(logs, units, n, size, maxBlocks)
  {
    RecoveredExactly(logs, units, n, size, maxBlocks);
    ComparesTo(logs, units, FoundParts(logs, units, size, maxBlocks), OpParts(units), n, size, maxBlocks);
  }

  // ------------------------------------------------------------------ from writing to recovery

  /** The batches are numbered as the log numbers them. */
  ghost predicate Numbered(units: seq<Unit>) {
    forall i :: 0 <= i < |units| && units[i].Batch? ==> units[i].txnId == 1 + Batches(units, i)
  }

  ghost function Batches(units: seq<Unit>, n: nat): (count: nat)
    requires n <= |units|
  {
    if n == 0 then 0 else Batches(units, n - 1) + if units[n - 1].Batch? then 1 else 0
  }

  lemma {:induction false} BatchesGrow(units: seq<Unit>, i: nat, j: nat)
    requires i < j <= |units|
    ensures Batches(units, i) + (if units[i].Batch? then 1 else 0) <= Batches(units, j)
    decreases j
  {
    if i + 1 < j {
      BatchesGrow(units, i, j - 1);
    }
  }

  lemma NumberedApart(units: seq<Unit>)
    requires Numbered(units)
    ensures DistinctTxns(units)
  {
    forall i, j | 0 <= i < j < |units| ensures UnitIds(units[i]) !! UnitIds(units[j]) {
      BatchesGrow(units, i, j);
    }
  }

  /** Sizes and numbers of a unit are within their fields. */
  ghost predicate UnitFits(u: Unit)
    requires GoodUnit(u)
  {
    match u
    case One(op) => Fits(RecordOf(op, Single, 0))
    case Batch(id, ops) => forall i :: 0 <= i < |ops| ==> Fits(RecordOf(ops[i], Transaction, id))
  }

  /** `Put` or `BatchWrite`. */
  method WriteUnit(log: Log, u: Unit) returns (ok: bool)
    requires log.Valid() && GoodUnit(u) && UnitFits(u) && (u.Batch? ==> u.txnId == log.nextTxnId)
    modifies log, log.active, log.active.block, log.active.block.data
    ensures log.Valid() && (log.active == old(log.active) || fresh(log.active))
    ensures (log.active.block == old(log.active.block) && log.active.block.data == old(log.active.block.data))
            || (fresh(log.active.block) && fresh(log.active.block.data))
    ensures log.nextTxnId == old(log.nextTxnId) + if u.Batch? then 1 else 0
    ensures ok <==> UnitTaken(u, log.blockSize, log.maxBlocks)
    ensures ok ==> log.Synced() && Follows(old(log.State()), log.State(), u, log.blockSize, log.maxBlocks)
  {
    match u {
      case One(op) => ok := log.Append(op);
      case Batch(_, ops) => ok := log.BatchWrite(ops);
    }
  }

  /** The first units are written. */
  ghost predicate WrittenTo(logs: seq<LogState>, s: LogState, units: seq<Unit>, n: nat, size: nat, maxBlocks: nat)
    requires GoodUnits(units) && size > KEY_START
  {
    && n <= |units| && |logs| == n + 1 && logs[n] == s && logs[0] == LogState(Place(0, size), [], false)
    && (forall i :: 0 <= i < n ==> UnitTaken(units[i], size, maxBlocks))
    && (forall i :: 0 <= i < n ==> Follows(logs[i], logs[i + 1], units[i], size, maxBlocks))
  }

  lemma WrittenNext(logs: seq<LogState>, s: LogState, s': LogState, units: seq<Unit>, n: nat, size: nat, maxBlocks: nat)
    requires GoodUnits(units) && size > KEY_START && n < |units| && WrittenTo(logs, s, units, n, size, maxBlocks)
    requires UnitTaken(units[n], size, maxBlocks) && Follows(s, s', units[n], size, maxBlocks)
    ensures WrittenTo(logs + [s'], s', units, n + 1, size, maxBlocks)
  {
  }

  /** Writing goes on, or has stopped at a unit with a record that no segment takes. */
  ghost predicate Writing(logs: seq<LogState>, s: LogState, units: seq<Unit>, n: nat, size: nat, maxBlocks: nat, ok: bool)
    requires GoodUnits(units) && size > KEY_START
  {
    && n <= |units| && |logs| == n + 1
    && if ok then WrittenTo(logs, s, units, n, size, maxBlocks)
       else WrittenTo(logs, logs[n], units, n, size, maxBlocks) && n < |units| && !UnitTaken(units[n], size, maxBlocks)
  }

  ghost predicate Takes(u: Unit, id: nat, next: nat) {
    next == id + (if u.Batch? then 1 else 0) && (u.Batch? ==> u.txnId == id)
  }

  /** The next number of the log before and after every unit. */
  ghost predicate Counted(ids: seq<nat>, units: seq<Unit>) {
    |ids| == |units| + 1 && forall i :: 0 <= i < |units| ==> Takes(units[i], ids[i], ids[i + 1])
  }

  lemma Count(units: seq<Unit>) returns (ids: seq<nat>)
    requires Numbered(units)
    ensures Counted(ids, units) && ids[0] == 1
  {
    ids := seq(|units| + 1, i requires 0 <= i <= |units| => 1 + Batches(units, i));
  }

  method WriteNext(log: Log, units: seq<Unit>, n: nat, ghost logs: seq<LogState>, ghost next: nat)
    returns (ok: bool, ghost logs': seq<LogState>)
    requires log.Valid() && GoodUnits(units) && n < |units| && UnitFits(units[n]) && Takes(units[n], log.nextTxnId, next)
    requires Writing(logs, log.State(), units, n, log.blockSize, log.maxBlocks, true)
    modifies log, log.active, log.active.block, log.active.block.data
    ensures log.Valid() && (log.active == old(log.active) || fresh(log.active))
    ensures (log.active.block == old(log.active.block) && log.active.block.data == old(log.active.block.data))
            || (fresh(log.active.block) && fresh(log.active.block.data))
    ensures log.nextTxnId == next && (ok ==> log.Synced())
    ensures Writing(logs', log.State(), units, if ok then n + 1 else n, log.blockSize, log.maxBlocks, ok)
  {
    ghost var s := log.State();
    ok := WriteUnit(log, units[n]);
    logs' := logs;
    if ok {
      WrittenNext(logs, s, log.State(), units, n, log.blockSize, log.maxBlocks);
      logs' := logs + [log.State()];
    }
  }

  /** Unit after unit, until one has a record that no segment takes. */
  method WriteAll(log: Log, units: seq<Unit>, ghost empty: seq<LogState>, start: nat, ghost ids: seq<nat>)
    returns (n: nat, ok: bool, ghost logs: seq<LogState>)
    requires log.Valid() && log.Synced() && GoodUnits(units) && start == 0 && Counted(ids, units) && ids[start] == log.nextTxnId
    requires Writing(empty, log.State(), units, start, log.blockSize, log.maxBlocks, true)
    requires forall i :: 0 <= i < |units| ==> UnitFits(units[i])
    modifies log, log.active, log.active.block, log.active.block.data
    ensures log.Valid() && (ok ==> log.Synced() && n == |units|)
    ensures Writing(logs, log.State(), units, n, log.blockSize, log.maxBlocks, ok)
  {
    n, ok, logs := start, true, empty;
    while ok && n < |units|
      invariant n <= |units| && log.Valid() && (ok ==> log.Synced() && log.nextTxnId == ids[n])
      invariant log.active == old(log.active) || fresh(log.active)
      invariant (log.active.block == old(log.active.block) && log.active.block.data == old(log.active.block.data))
                || (fresh(log.active.block) && fresh(log.active.block.data))
      invariant Writing(logs, log.State(), units, n, log.blockSize, log.maxBlocks, ok)
      decreases |units| - n, ok
    {
      ok, logs := WriteNext(log, units, n, logs, ids[n + 1]);
      if ok {
        n := n + 1;
      }
    }
  }

  lemma WrittenAll(logs: seq<LogState>, s: LogState, units: seq<Unit>, n: nat, size: nat, maxBlocks: nat)
    requires GoodUnits(units) && size > KEY_START && n == |units| && WrittenTo(logs, s, units, n, size, maxBlocks) && Numbered(units)
    ensures Logs(logs, units, size, maxBlocks) && Applied(s.found) == FlatOps(FoundParts(logs, units, size, maxBlocks), n)
    ensures Applied(s.found) == FlatOps(OpParts(units), n) <==> AllPlaced(logs, units, n, size, maxBlocks)
  {
    NumberedApart(units);
    RecoveredExactly(logs, units, n, size, maxBlocks);
    EverythingRecovered(logs, units, n, size, maxBlocks);
  }

  /**
   Written, synced and recovered, as bytes of blocks of segments: of every unit comes back what is found of it,
   so everything exactly when no record is misplaced.
   */
  method WriteAndRecover(crc: Bytes -> U32, blockSize: nat, maxBlocks: nat, units: seq<Unit>)
    returns (n: nat, ops: Option<seq<LogOp>>, ghost logs: seq<LogState>)
    requires blockSize > KEY_START && maxBlocks > 0 && crc(Zeros(43)) != 0
    requires GoodUnits(units) && Numbered(units) && forall i :: 0 <= i < |units| ==> UnitFits(units[i])
    ensures n <= |units| && (forall i :: 0 <= i < n ==> UnitTaken(units[i], blockSize, maxBlocks))
    ensures n < |units| ==> !UnitTaken(units[n], blockSize, maxBlocks)
    ensures ops.Some? <==> n == |units|
    ensures ops.Some? ==> Logs(logs, units, blockSize, maxBlocks) && ops.value == FlatOps(FoundParts(logs, units, blockSize, maxBlocks), n)
    ensures ops.Some? ==> (ops.value == FlatOps(OpParts(units), n) <==> AllPlaced(logs, units, n, blockSize, maxBlocks))
  {
    var log := new Log(crc, blockSize, maxBlocks);
    var ok;
    ghost var ids := Count(units);
    n, ok, logs := WriteAll(log, units, [log.State()], 0, ids);
    ops := None;
    if ok {
      var recovered := Recover(log);
      WrittenAll(logs, log.State(), units, n, blockSize, maxBlocks);
      ops := Some(recovered);
    }
  }

  // ------------------------------------------------------------------ what is lost

  lemma FieldsHold()
    ensures Pow256(8) > 1000
  {
    assert Pow256(1) == 256 && Pow256(2) == 65536;
    PowGrows(2, 8);
  }

  lemma {:induction false} PowGrows(m: nat, n: nat)
    requires m <= n
    ensures Pow256(m) <= Pow256(n)
    decreases n
  {
    if m < n {
      PowGrows(m, n - 1);
    }
  }

  function Write(seqId: nat, length: nat): (op: LogOp) {
    LogOp(seqId, 0, 0, seq(length, _ => 1), [])
  }

  /** These units are written and synced without error to a new log, and recovery gives back just these operations. */
  ghost predicate GivesBack(units: seq<Unit>, logs: seq<LogState>, ops: seq<LogOp>, size: nat, maxBlocks: nat) {
    && GoodUnits(units) && Numbered(units) && size > KEY_START && Logs(logs, units, size, maxBlocks)
    && (forall i :: 0 <= i < |units| ==> UnitFits(units[i]) && UnitTaken(units[i], size, maxBlocks))
    && Applied(logs[|units|].found) == ops
  }

  lemma OneFound(s: LogState, op: LogOp, r: Rec, size: nat, maxBlocks: nat)
    requires r == RecordOf(op, Single, 0) && size > KEY_START
    ensures UnitFound(s, One(op), size, maxBlocks) == if Loses(s, r, size, maxBlocks) then [] else [op]
  {
    var recs := UnitRecords(One(op));
    assert Run(s, recs, 0, size, maxBlocks) == s && recs[0] == r;
    assert Lost(s, recs, size, maxBlocks)[0] == LostAt(s, recs, 0, size, maxBlocks);
  }

  /** In a segment of one block of 100 bytes a record of 60 does not fit behind one of 50: the second write is lost. */
  lemma SyncedWriteLost() returns (units: seq<Unit>, logs: seq<LogState>, first: LogOp, second: LogOp)
    ensures units == [One(first), One(second)] && GivesBack(units, logs, [first], 100, 1)
  {
    first, second := Write(1, 50 - KEY_START), Write(2, 60 - KEY_START);
    FieldsHold();
    units := [One(first), One(second)];
    var s := LogState(Place(0, 100), [], false);
    logs := [s, AfterUnit(s, units[0], 100, 1), AfterUnit(AfterUnit(s, units[0], 100, 1), units[1], 100, 1)];
    SecondIsTorn(logs, units, first, second, 100, 1);
    NumberedApart(units);
    RecoveredExactly(logs, units, 2, 100, 1);
  }

  lemma SecondIsTorn(logs: seq<LogState>, units: seq<Unit>, first: LogOp, second: LogOp, size: nat, maxBlocks: nat)
    requires first == Write(1, 50 - KEY_START) && second == Write(2, 60 - KEY_START) && units == [One(first), One(second)]
    requires size == 100 && maxBlocks == 1 && Logs(logs, units, size, maxBlocks)
    ensures UnitTaken(units[0], size, maxBlocks) && UnitTaken(units[1], size, maxBlocks)
    ensures FlatOps(FoundParts(logs, units, size, maxBlocks), 2) == [first]
  {
    var a, b := RecordOf(first, Single, 0), RecordOf(second, Single, 0);
    assert Follows(logs[0], logs[0 + 1], units[0], size, maxBlocks);
    AfterOne(logs[0], first, a, size, maxBlocks);
    AfterOne(logs[1], second, b, size, maxBlocks);
    assert logs[1] == Next(logs[0], a, size, maxBlocks) && logs[1].at == Place(0, 50);
    assert Torn(logs[1].at, b, size, maxBlocks);
    var found := FoundParts(logs, units, size, maxBlocks);
    OneFound(logs[0], first, a, size, maxBlocks);
    OneFound(logs[1], second, b, size, maxBlocks);
    assert found[0] == [first] && found[1] == [];
    assert FlatOps(found, 0) == [];
    assert FlatOps(found, 1) == [first];
  }

  /** In a block of 144 bytes the commit record behind a record of 50 is a header in the last 47: the batch is lost. */
  lemma CommittedBatchLost() returns (units: seq<Unit>, logs: seq<LogState>, op: LogOp)
    ensures units == [Batch(1, [op])] && GivesBack(units, logs, [], 144, 1)
  {
    op := Write(1, 50 - KEY_START);
    FieldsHold();
    units := [Batch(1, [op])];
    var s := LogState(Place(0, 144), [], false);
    logs := [s, AfterUnit(s, units[0], 144, 1)];
    CommitIsHidden(logs, units, op, 1, 144, 1);
    NumberedApart(units);
    RecoveredExactly(logs, units, 1, 144, 1);
  }

  lemma CommitIsHidden(logs: seq<LogState>, units: seq<Unit>, op: LogOp, id: nat, size: nat, maxBlocks: nat)
    requires op == Write(1, 50 - KEY_START) && units == [Batch(id, [op])] && size == 144 && maxBlocks == 1
    requires Logs(logs, units, size, maxBlocks)
    ensures UnitTaken(units[0], size, maxBlocks) && FlatOps(FoundParts(logs, units, size, maxBlocks), 1) == []
  {
    var ops, s := [op], logs[0];
    var recs := UnitRecords(Batch(id, ops));
    BatchInOrder(id, ops, recs);
    assert OpRecord(recs[1 + 0], ops[0], id);
    var one := Run(s, recs, 1, size, maxBlocks);
    assert one == Next(Run(s, recs, 0, size, maxBlocks), recs[0], size, maxBlocks) && one.at == Place(0, 97);
    var two := Run(s, recs, 2, size, maxBlocks);
    assert two == Next(one, recs[1], size, maxBlocks) && two.at == Place(0, 47);
    assert Lost(s, recs, size, maxBlocks)[2] == LostAt(s, recs, 2, size, maxBlocks);
    var found := FoundParts(logs, units, size, maxBlocks);
    assert found[0] == [] && FlatOps(found, 0) == [];
  }
}

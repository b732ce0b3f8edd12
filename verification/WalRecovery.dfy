/**
 Recovery from the log (internal/wal/wal.go:182-260, 325-426): rejoining fragments, and
 applying batches only when their commit record is there.
 */
module WalRecovery {
  import opened Keys
  import opened Options
  import opened WalRecord

  /** The operation a recovered record carries. */
  datatype LogOp = LogOp(seqId: nat, expiresAt: nat, op: Byte, key: Bytes, value: Bytes)

  function Payload(r: Rec): LogOp { LogOp(r.seqId, r.expiresAt, r.op, r.key, r.value) }

  // ------------------------------------------------------------------ JoinFragments

  /** Records joined so far, the record being joined, and whether joining has stopped. */
  datatype JoinState = JoinState(out: seq<Rec>, current: Option<Rec>, stopped: bool)

  function Extended(r: Rec, f: Rec): Rec { r.(key := r.key + f.key, value := r.value + f.value) }

  function JoinStep(s: JoinState, f: Rec): (s': JoinState)
    ensures s.out <= s'.out
  {
    if s.stopped then s
    else
      match f.frag
      case Full =>
        if s.current.Some? then s.(stopped := true) else s.(out := s.out + [f])
      case First =>
        if s.current.Some? then s.(stopped := true) else s.(current := Some(f.(frag := Full)))
      case Middle =>
        if s.current.None? then s.(stopped := true) else s.(current := Some(Extended(s.current.value, f)))
      case Last =>
        if s.current.None? then s.(stopped := true)
        else s.(out := s.out + [Extended(s.current.value, f)], current := None)
  }

  /** Joining the first `n` fragments, from a given state. */
  function JoinFrom(s: JoinState, frags: seq<Rec>, n: nat): (s': JoinState)
    requires n <= |frags|
  {
    if n == 0 then s else JoinStep(JoinFrom(s, frags, n - 1), frags[n - 1])
  }

  const JOIN_START := JoinState([], None, false)

  function Joined(frags: seq<Rec>): (recs: seq<Rec>) { JoinFrom(JOIN_START, frags, |frags|).out }

  /** `JoinFragments`. */
  method JoinFragments(frags: seq<Rec>) returns (records: seq<Rec>)
    ensures records == Joined(frags)
  {
    records := [];
    var current: Option<Rec> := None;
    for i := 0 to |frags|
      invariant JoinFrom(JOIN_START, frags, i) == JoinState(records, current, false)
    {
      var f := frags[i];
      match f.frag {
        case Full =>
          if current.Some? {
            StoppedStays(JOIN_START, frags, i + 1, |frags|);
            return;
          }
          records := records + [f];
        case First =>
          if current.Some? {
            StoppedStays(JOIN_START, frags, i + 1, |frags|);
            return;
          }
          current := Some(f.(frag := Full));
        case Middle =>
          if current.None? {
            StoppedStays(JOIN_START, frags, i + 1, |frags|);
            return;
          }
          current := Some(Extended(current.value, f));
        case Last =>
          if current.None? {
            StoppedStays(JOIN_START, frags, i + 1, |frags|);
            return;
          }
          records := records + [Extended(current.value, f)];
          current := None;
      }
    }
  }

  lemma {:induction false} StoppedStays(s: JoinState, frags: seq<Rec>, i: nat, n: nat)
    requires i <= n <= |frags| && JoinFrom(s, frags, i).stopped
    ensures JoinFrom(s, frags, n) == JoinFrom(s, frags, i)
    decreases n
  {
    if i < n {
      StoppedStays(s, frags, i, n - 1);
    }
  }

  /** Joining a longer stretch only adds records at the end. */
  lemma {:induction false} JoinGrows(s: JoinState, frags: seq<Rec>, i: nat, n: nat)
    requires i <= n <= |frags|
    ensures JoinFrom(s, frags, i).out <= JoinFrom(s, frags, n).out
    decreases n
  {
    if i < n {
      JoinGrows(s, frags, i, n - 1);
    }
  }

  lemma {:induction false} JoinSame(s: JoinState, a: seq<Rec>, b: seq<Rec>, n: nat)
    requires n <= |a| && n <= |b| && a[..n] == b[..n]
    ensures JoinFrom(s, a, n) == JoinFrom(s, b, n)
  {
    if n > 0 {
      assert a[..n - 1] == a[..n][..n - 1] == b[..n][..n - 1] == b[..n - 1];
      assert a[n - 1] == a[..n][n - 1] == b[..n][n - 1] == b[n - 1];
      JoinSame(s, a, b, n - 1);
    }
  }

  /** Joining one stretch and then another. */
  lemma {:induction false} JoinConcat(s: JoinState, a: seq<Rec>, b: seq<Rec>, n: nat)
    requires n <= |b|
    ensures JoinFrom(s, a + b, |a| + n) == JoinFrom(JoinFrom(s, a, |a|), b, n)
  {
    if n > 0 {
      JoinConcat(s, a, b, n - 1);
    } else {
      assert (a + b)[..|a|] == a[..|a|];
      JoinSame(s, a + b, a, |a|);
    }
  }

  // ------------------------------------------------------------------ ApplyTransactions

  datatype TxnState = TxnState(result: seq<LogOp>, started: set<nat>, pending: map<nat, seq<LogOp>>)

  function Pending(s: TxnState, id: nat): seq<LogOp> { if id in s.pending then s.pending[id] else [] }

  function TxnStep(s: TxnState, r: Rec): (s': TxnState)
    ensures s.result <= s'.result
  {
    match r.kind
    case Single => s.(result := s.result + [Payload(r)])
    case Start => s.(started := s.started + {r.txnId}, pending := s.pending[r.txnId := []])
    case Transaction =>
      if r.txnId in s.started then s.(pending := s.pending[r.txnId := Pending(s, r.txnId) + [Payload(r)]]) else s
    case Commit =>
      if r.txnId in s.started
      then TxnState(s.result + Pending(s, r.txnId), s.started - {r.txnId}, s.pending - {r.txnId})
      else s
  }

  function ApplyFrom(s: TxnState, recs: seq<Rec>, n: nat): (s': TxnState)
    requires n <= |recs|
  {
    if n == 0 then s else TxnStep(ApplyFrom(s, recs, n - 1), recs[n - 1])
  }

  const TXN_START := TxnState([], {}, map[])

  function Applied(recs: seq<Rec>): (ops: seq<LogOp>) { ApplyFrom(TXN_START, recs, |recs|).result }

  /** `ApplyTransactions`. */
  method ApplyTransactions(recs: seq<Rec>) returns (result: seq<LogOp>)
    ensures result == Applied(recs)
  {
    result := [];
    var started: set<nat> := {};
    var pending: map<nat, seq<LogOp>> := map[];
    for i := 0 to |recs|
      invariant ApplyFrom(TXN_START, recs, i) == TxnState(result, started, pending)
    {
      var r := recs[i];
      match r.kind {
        case Single =>
          result := result + [Payload(r)];
        case Start =>
          started := started + {r.txnId};
          pending := pending[r.txnId := []];
        case Transaction =>
          if r.txnId in started {
            pending := pending[r.txnId := (if r.txnId in pending then pending[r.txnId] else []) + [Payload(r)]];
          }
        case Commit =>
          if r.txnId in started {
            result := result + (if r.txnId in pending then pending[r.txnId] else []);
            started := started - {r.txnId};
            pending := pending - {r.txnId};
          }
      }
    }
  }

  lemma {:induction false} ApplyGrows(s: TxnState, recs: seq<Rec>, i: nat, n: nat)
    requires i <= n <= |recs|
    ensures ApplyFrom(s, recs, i).result <= ApplyFrom(s, recs, n).result
    decreases n
  {
    if i < n {
      ApplyGrows(s, recs, i, n - 1);
    }
  }

  lemma {:induction false} ApplySame(s: TxnState, a: seq<Rec>, b: seq<Rec>, n: nat)
    requires n <= |a| && n <= |b| && a[..n] == b[..n]
    ensures ApplyFrom(s, a, n) == ApplyFrom(s, b, n)
  {
    if n > 0 {
      assert a[..n - 1] == a[..n][..n - 1] == b[..n][..n - 1] == b[..n - 1];
      assert a[n - 1] == a[..n][n - 1] == b[..n][n - 1] == b[n - 1];
      ApplySame(s, a, b, n - 1);
    }
  }

  lemma {:induction false} ApplyConcat(s: TxnState, a: seq<Rec>, b: seq<Rec>, n: nat)
    requires n <= |b|
    ensures ApplyFrom(s, a + b, |a| + n) == ApplyFrom(ApplyFrom(s, a, |a|), b, n)
  {
    if n > 0 {
      ApplyConcat(s, a, b, n - 1);
    } else {
      assert (a + b)[..|a|] == a[..|a|];
      ApplySame(s, a + b, a, |a|);
    }
  }

  // ------------------------------------------------------------------ recovery

  /** What `Recover` makes of a fragment stream. */
  function Recovered(frags: seq<Rec>): (ops: seq<LogOp>) { Applied(Joined(frags)) }

  /** Cutting the fragment stream anywhere recovers a prefix of the operations. */
  lemma RecoverPrefix(frags: seq<Rec>, n: nat)
    requires n <= |frags|
    ensures Recovered(frags[..n]) <= Recovered(frags)
  {
    var a, b := Joined(frags[..n]), Joined(frags);
    JoinSame(JOIN_START, frags[..n], frags, n);
    JoinGrows(JOIN_START, frags, n, |frags|);
    assert a <= b;
    ApplySame(TXN_START, a, b, |a|);
    ApplyGrows(TXN_START, b, |a|, |b|);
  }

  // ------------------------------------------------------------------ what was written

  /** A record with its payload cut into pieces: one full record, or a first, middle and last fragments. */
  ghost predicate SameMeta(f: Rec, r: Rec) {
    f.kind == r.kind && f.txnId == r.txnId && f.seqId == r.seqId && f.expiresAt == r.expiresAt && f.op == r.op
  }

  /** Fragments `fs` are a complete fragmentation of record `r`. */
  ghost predicate PiecesOf(fs: seq<Rec>, r: Rec) {
    && |fs| > 0
    && (forall i :: 0 <= i < |fs| ==> SameMeta(fs[i], r))
    && (if |fs| == 1 then fs[0] == r && r.frag == Full
        else
          && fs[0].frag == First && fs[|fs| - 1].frag == Last
          && (forall i :: 0 < i < |fs| - 1 ==> fs[i].frag == Middle)
          && r == r.(frag := Full, key := KeysTo(fs, |fs|), value := ValuesTo(fs, |fs|)))
  }

  ghost function KeysTo(fs: seq<Rec>, n: nat): Bytes
    requires n <= |fs|
  {
    if n == 0 then [] else KeysTo(fs, n - 1) + fs[n - 1].key
  }

  ghost function ValuesTo(fs: seq<Rec>, n: nat): Bytes
    requires n <= |fs|
  {
    if n == 0 then [] else ValuesTo(fs, n - 1) + fs[n - 1].value
  }

  /** While its fragments arrive, a record is being joined; with the last one it is out. */
  lemma {:induction false} JoinPieces(out: seq<Rec>, fs: seq<Rec>, r: Rec, n: nat)
    requires PiecesOf(fs, r) && n <= |fs|
    ensures var s := JoinFrom(JoinState(out, None, false), fs, n);
            !s.stopped
            && (if n == 0 then s == JoinState(out, None, false)
                else if n == |fs| then s == JoinState(out + [r], None, false)
                else s.out == out && s.current == Some(r.(frag := Full, key := KeysTo(fs, n), value := ValuesTo(fs, n))))
  {
    if n > 0 {
      JoinPieces(out, fs, r, n - 1);
      if n == 1 {
        assert KeysTo(fs, 1) == KeysTo(fs, 0) + fs[0].key == fs[0].key;
        assert ValuesTo(fs, 1) == ValuesTo(fs, 0) + fs[0].value == fs[0].value;
      }
    }
  }

  lemma JoinAfter(front: seq<Rec>, rest: seq<Rec>, s: JoinState)
    requires JoinFrom(JOIN_START, front, |front|) == s
    ensures JoinFrom(JOIN_START, front + rest, |front + rest|) == JoinFrom(s, rest, |rest|)
  {
    JoinConcat(JOIN_START, front, rest, |rest|);
  }

  lemma CutPieces(out: seq<Rec>, fs: seq<Rec>, r: Rec, cut: seq<Rec>)
    requires PiecesOf(fs, r) && cut < fs
    ensures JoinFrom(JoinState(out, None, false), cut, |cut|).out == out
  {
    JoinPieces(out, fs, r, |cut|);
    JoinSame(JoinState(out, None, false), cut, fs, |cut|);
  }

  lemma JoinOneMore(front: seq<Rec>, fs: seq<Rec>, out: seq<Rec>, r: Rec)
    requires JoinFrom(JOIN_START, front, |front|) == JoinState(out, None, false) && PiecesOf(fs, r)
    ensures JoinFrom(JOIN_START, front + fs, |front + fs|) == JoinState(out + [r], None, false)
  {
    JoinPieces(out, fs, r, |fs|);
    JoinAfter(front, fs, JoinState(out, None, false));
  }

  /** A record whose fragments are not all there is not joined. */
  lemma JoinPart(front: seq<Rec>, fs: seq<Rec>, cut: seq<Rec>, out: seq<Rec>, r: Rec)
    requires JoinFrom(JOIN_START, front, |front|) == JoinState(out, None, false) && PiecesOf(fs, r) && cut < fs
    ensures Joined(front + cut) == out
  {
    CutPieces(out, fs, r, cut);
    JoinAfter(front, cut, JoinState(out, None, false));
  }

  /** Records `recs`, each with its fragments, as they lie in the log one after the other. */
  ghost predicate Fragmented(pieces: seq<seq<Rec>>, recs: seq<Rec>) {
    |pieces| == |recs| && forall i :: 0 <= i < |recs| ==> PiecesOf(pieces[i], recs[i])
  }

  ghost function Flat(pieces: seq<seq<Rec>>, n: nat): (frags: seq<Rec>)
    requires n <= |pieces|
  {
    if n == 0 then [] else Flat(pieces, n - 1) + pieces[n - 1]
  }

  /** Reading the fragments of the first `c` records and `k` fragments of the next joins just those `c`. */
  lemma {:induction false} JoinLog(pieces: seq<seq<Rec>>, recs: seq<Rec>, c: nat)
    requires Fragmented(pieces, recs) && c <= |recs|
    ensures JoinFrom(JOIN_START, Flat(pieces, c), |Flat(pieces, c)|) == JoinState(recs[..c], None, false)
  {
    if c > 0 {
      JoinLog(pieces, recs, c - 1);
      JoinOneMore(Flat(pieces, c - 1), pieces[c - 1], recs[..c - 1], recs[c - 1]);
      assert recs[..c] == recs[..c - 1] + [recs[c - 1]];
    }
  }

  lemma JoinCut(pieces: seq<seq<Rec>>, recs: seq<Rec>, c: nat, k: nat)
    requires Fragmented(pieces, recs) && c < |recs| && k < |pieces[c]|
    ensures Joined(Flat(pieces, c) + pieces[c][..k]) == recs[..c]
  {
    JoinLog(pieces, recs, c);
    JoinPart(Flat(pieces, c), pieces[c], pieces[c][..k], recs[..c], recs[c]);
  }

  /** One write to the log: a single operation, or a batch (`BatchWrite`). */
  datatype Unit = One(op: LogOp) | Batch(txnId: nat, ops: seq<LogOp>)

  function RecordOf(op: LogOp, kind: RecType, txnId: nat): Rec {
    Rec(Full, kind, txnId, op.seqId, op.expiresAt, op.op, op.key, op.value)
  }

  /** Start and commit records carry no key and no value. */
  function Marker(op: LogOp, kind: RecType, txnId: nat): Rec {
    Rec(Full, kind, txnId, op.seqId, op.expiresAt, 0, [], [])
  }

  function BatchRecords(txnId: nat, ops: seq<LogOp>, n: nat): (recs: seq<Rec>)
    requires 0 < n <= |ops| + 1 && |ops| > 0
    ensures |recs| == n && recs[0] == Marker(ops[0], Start, txnId)
    ensures forall i :: 1 <= i < n ==> recs[i] == RecordOf(ops[i - 1], Transaction, txnId)
  {
    if n == 1 then [Marker(ops[0], Start, txnId)]
    else BatchRecords(txnId, ops, n - 1) + [RecordOf(ops[n - 2], Transaction, txnId)]
  }

  ghost predicate GoodUnit(u: Unit) { u.Batch? ==> |u.ops| > 0 }

  function UnitRecords(u: Unit): (recs: seq<Rec>)
    requires u.Batch? ==> |u.ops| > 0
    ensures |recs| == if u.Batch? then |u.ops| + 2 else 1
  {
    match u
    case One(op) => [RecordOf(op, Single, 0)]
    case Batch(id, ops) => BatchRecords(id, ops, |ops| + 1) + [Marker(ops[|ops| - 1], Commit, id)]
  }

  /** What a batch is in the log, field by field. */
  lemma BatchLayout(id: nat, ops: seq<LogOp>)
    requires |ops| > 0
    ensures var recs, last := UnitRecords(Batch(id, ops)), ops[|ops| - 1];
            && |recs| == |ops| + 2
            && recs[0] == Rec(Full, Start, id, ops[0].seqId, ops[0].expiresAt, 0, [], [])
            && recs[|ops| + 1] == Rec(Full, Commit, id, last.seqId, last.expiresAt, 0, [], [])
            && forall i :: 0 <= i < |ops| ==>
                 recs[1 + i] == Rec(Full, Transaction, id, ops[i].seqId, ops[i].expiresAt, ops[i].op, ops[i].key, ops[i].value)
  {
    var recs, front := UnitRecords(Batch(id, ops)), BatchRecords(id, ops, |ops| + 1);
    forall i | 0 <= i < |ops|
      ensures recs[1 + i] == Rec(Full, Transaction, id, ops[i].seqId, ops[i].expiresAt, ops[i].op, ops[i].key, ops[i].value)
    {
      assert recs[1 + i] == front[1 + i];
    }
  }

  function UnitOps(u: Unit): seq<LogOp> {
    match u case One(op) => [op] case Batch(_, ops) => ops
  }

  ghost predicate GoodUnits(units: seq<Unit>) {
    forall i :: 0 <= i < |units| ==> GoodUnit(units[i])
  }

  /** The records of each unit, and the operations of each. */
  ghost function RecordParts(units: seq<Unit>): (parts: seq<seq<Rec>>)
    requires GoodUnits(units)
    ensures |parts| == |units|
  {
    seq(|units|, i requires 0 <= i < |units| => UnitRecords(units[i]))
  }

  ghost function OpParts(units: seq<Unit>): (parts: seq<seq<LogOp>>)
    ensures |parts| == |units|
  {
    seq(|units|, i requires 0 <= i < |units| => UnitOps(units[i]))
  }

  ghost function FlatOps(parts: seq<seq<LogOp>>, n: nat): (ops: seq<LogOp>)
    requires n <= |parts|
  {
    if n == 0 then [] else FlatOps(parts, n - 1) + parts[n - 1]
  }

  /** Inside a batch nothing is applied; its operations wait under its transaction number. */
  lemma {:induction false} ApplyInsideBatch(result: seq<LogOp>, u: Unit, n: nat)
    requires u.Batch? && |u.ops| > 0 && 0 < n <= |u.ops| + 1
    ensures ApplyFrom(TxnState(result, {}, map[]), UnitRecords(u), n)
            == TxnState(result, {u.txnId}, map[u.txnId := u.ops[..n - 1]])
  {
    var recs := UnitRecords(u);
    if n == 1 {
      assert ApplyFrom(TxnState(result, {}, map[]), recs, 0) == TxnState(result, {}, map[]);
      assert recs[0].kind == Start && recs[0].txnId == u.txnId;
      assert u.ops[..0] == [];
    } else {
      ApplyInsideBatch(result, u, n - 1);
      assert recs[n - 1] == RecordOf(u.ops[n - 2], Transaction, u.txnId);
      assert Payload(recs[n - 1]) == u.ops[n - 2];
      assert u.ops[..n - 1] == u.ops[..n - 2] + [u.ops[n - 2]];
    }
  }

  /** A unit applies all of its operations with its last record and none before it. */
  lemma ApplyUnit(result: seq<LogOp>, u: Unit, n: nat)
    requires GoodUnit(u) && n <= |UnitRecords(u)|
    ensures ApplyFrom(TxnState(result, {}, map[]), UnitRecords(u), n).result
            == if n == |UnitRecords(u)| then result + UnitOps(u) else result
    ensures n == |UnitRecords(u)| ==>
              ApplyFrom(TxnState(result, {}, map[]), UnitRecords(u), n) == TxnState(result + UnitOps(u), {}, map[])
  {
    var s := TxnState(result, {}, map[]);
    var recs := UnitRecords(u);
    match u
    case One(op) =>
      if n == 1 {
        assert ApplyFrom(s, recs, 0) == s;
        assert Payload(recs[0]) == op;
      }
    case Batch(id, ops) =>
      if 0 < n <= |ops| + 1 {
        ApplyInsideBatch(result, u, n);
      } else if n == |ops| + 2 {
        ApplyInsideBatch(result, u, n - 1);
        assert recs[n - 1].kind == Commit && recs[n - 1].txnId == id;
        assert ops[..|ops|] == ops;
      }
  }

  /** The first `n` of these records applied with no batch open. */
  ghost function Outcome(result: seq<LogOp>, recs: seq<Rec>, n: nat): TxnState
    requires n <= |recs|
  {
    ApplyFrom(TxnState(result, {}, map[]), recs, n)
  }

  /** These records apply these operations, all with the last record and none before it. */
  ghost predicate Atomic(recs: seq<Rec>, ops: seq<LogOp>) {
    forall result, n: nat {:trigger Outcome(result, recs, n)} :: n <= |recs| ==>
      var s := Outcome(result, recs, n);
      && s.result == (if n == |recs| then result + ops else result)
      && (n == |recs| ==> s.started == {} && s.pending == map[])
  }

  ghost predicate AllAtomic(parts: seq<seq<Rec>>, opParts: seq<seq<LogOp>>) {
    |parts| == |opParts| && forall i :: 0 <= i < |parts| ==> |parts[i]| > 0 && Atomic(parts[i], opParts[i])
  }

  lemma UnitsAreAtomic(units: seq<Unit>)
    requires GoodUnits(units)
    ensures AllAtomic(RecordParts(units), OpParts(units))
  {
    forall i | 0 <= i < |units| ensures |RecordParts(units)[i]| > 0 && Atomic(RecordParts(units)[i], OpParts(units)[i]) {
      var u := units[i];
      forall result, n: nat | n <= |UnitRecords(u)|
        ensures var s := Outcome(result, UnitRecords(u), n);
                && s.result == (if n == |UnitRecords(u)| then result + UnitOps(u) else result)
                && (n == |UnitRecords(u)| ==> s.started == {} && s.pending == map[])
      {
        ApplyUnit(result, u, n);
      }
    }
  }

  lemma AtomicCut(recs: seq<Rec>, ops: seq<LogOp>, result: seq<LogOp>, n: nat)
    requires Atomic(recs, ops) && n <= |recs|
    ensures var s := ApplyFrom(TxnState(result, {}, map[]), recs, n);
            if n == |recs| then s == TxnState(result + ops, {}, map[]) else s.result == result
  {
    var _ := Outcome(result, recs, n);
  }

  lemma {:induction false} ApplyParts(parts: seq<seq<Rec>>, opParts: seq<seq<LogOp>>, n: nat)
    requires AllAtomic(parts, opParts) && n <= |parts|
    ensures ApplyFrom(TXN_START, Flat(parts, n), |Flat(parts, n)|) == TxnState(FlatOps(opParts, n), {}, map[])
  {
    if n > 0 {
      ApplyParts(parts, opParts, n - 1);
      var front, recs := Flat(parts, n - 1), parts[n - 1];
      ApplyConcat(TXN_START, front, recs, |recs|);
      AtomicCut(recs, opParts[n - 1], FlatOps(opParts, n - 1), |recs|);
    }
  }

  /** Records cut inside part `n`: exactly the operations of the parts before it. */
  lemma ApplyCut(parts: seq<seq<Rec>>, opParts: seq<seq<LogOp>>, n: nat, k: nat)
    requires AllAtomic(parts, opParts) && n < |parts| && k < |parts[n]|
    ensures Applied(Flat(parts, n) + parts[n][..k]) == FlatOps(opParts, n)
  {
    var front, recs := Flat(parts, n), parts[n];
    ApplyParts(parts, opParts, n);
    ApplyConcat(TXN_START, front, recs[..k], k);
    ApplySame(TxnState(FlatOps(opParts, n), {}, map[]), recs[..k], recs, k);
    AtomicCut(recs, opParts[n], FlatOps(opParts, n), k);
  }

  lemma {:induction false} FlatPrefix(parts: seq<seq<Rec>>, n: nat, m: nat)
    requires n <= m <= |parts|
    ensures Flat(parts, n) <= Flat(parts, m)
    decreases m
  {
    if n < m {
      FlatPrefix(parts, n, m - 1);
    }
  }

  lemma CutOfParts(parts: seq<seq<Rec>>, n: nat, k: nat)
    requires n < |parts| && k < |parts[n]|
    ensures |Flat(parts, n)| + k < |Flat(parts, |parts|)|
    ensures Flat(parts, |parts|)[..|Flat(parts, n)| + k] == Flat(parts, n) + parts[n][..k]
  {
    FlatPrefix(parts, n + 1, |parts|);
    var all, upto := Flat(parts, |parts|), Flat(parts, n + 1);
    assert all[..|upto|] == upto;
    assert upto == Flat(parts, n) + parts[n];
    assert all[..|Flat(parts, n)| + k] == upto[..|Flat(parts, n)| + k];
  }

  lemma JoinedCut(parts: seq<seq<Rec>>, pieces: seq<seq<Rec>>, n: nat, k: nat, c: nat, cut: nat)
    requires Fragmented(pieces, Flat(parts, |parts|)) && n < |parts| && k < |parts[n]|
    requires c == |Flat(parts, n)| + k && c < |pieces| && cut < |pieces[c]|
    ensures Joined(Flat(pieces, c) + pieces[c][..cut]) == Flat(parts, n) + parts[n][..k]
  {
    CutOfParts(parts, n, k);
    JoinCut(pieces, Flat(parts, |parts|), c, cut);
  }

  lemma CutIsAtomic(parts: seq<seq<Rec>>, opParts: seq<seq<LogOp>>, stream: seq<Rec>, n: nat, k: nat)
    requires AllAtomic(parts, opParts) && n < |parts| && k < |parts[n]| && Joined(stream) == Flat(parts, n) + parts[n][..k]
    ensures Recovered(stream) == FlatOps(opParts, n)
  {
    ApplyCut(parts, opParts, n, k);
  }

  /**
   Atomic batches, on fragments: with the fragments of `c` whole records in the log, where the
   `c`-th record falls inside unit `n`, recovery yields the operations of the first `n` units
   whole, and nothing of unit `n`, whatever part of the next record's fragments follows.
   */
  lemma BatchesAreAtomic(units: seq<Unit>, parts: seq<seq<Rec>>, pieces: seq<seq<Rec>>, n: nat, k: nat, c: nat, cut: nat)
    requires GoodUnits(units) && parts == RecordParts(units) && Fragmented(pieces, Flat(parts, |parts|))
    requires n < |parts| && k < |parts[n]| && c == |Flat(parts, n)| + k < |pieces| && cut < |pieces[c]|
    ensures Recovered(Flat(pieces, c) + pieces[c][..cut]) == FlatOps(OpParts(units), n)
  {
    JoinedCut(parts, pieces, n, k, c, cut);
    UnitsAreAtomic(units);
    CutIsAtomic(parts, OpParts(units), Flat(pieces, c) + pieces[c][..cut], n, k);
  }

  /** The whole log recovers every operation of every unit. */
  lemma WholeLogRecovers(units: seq<Unit>, pieces: seq<seq<Rec>>)
    requires GoodUnits(units) && Fragmented(pieces, Flat(RecordParts(units), |units|))
    ensures Recovered(Flat(pieces, |pieces|)) == FlatOps(OpParts(units), |units|)
  {
    var parts := RecordParts(units);
    var all := Flat(parts, |parts|);
    JoinLog(pieces, all, |all|);
    assert all[..|all|] == all;
    UnitsAreAtomic(units);
    ApplyParts(parts, OpParts(units), |parts|);
  }
}

/**
 The log over all of its segments (internal/wal/wal.go:145-300, 325-426, 541-556): a record that does not
 fit the segment being written goes to a new one, and recovery reads one segment after the other. What is
 recovered is less than what was written in two cases, and the theorems say exactly when.
 */
module WalLog {
  import opened ByteOrder
  import opened Keys
  import opened Options
  import opened WalRecord
  import opened WalBlocks
  import opened WalSegment
  import opened WalRecovery

  // ------------------------------------------------------------------ what a reader finds

  /** Where writing goes on, the records a reader finds, and whether an incomplete record keeps it from the rest. */
  datatype LogState = LogState(at: Place, found: seq<Rec>, torn: bool)

  /** No segment takes the record. */
  predicate TooLarge(r: Rec, size: nat, maxBlocks: nat)
    requires size > KEY_START
  {
    After(Place(0, size), r, size).block >= maxBlocks
  }

  /**
   No reader finds the record: an incomplete one lies before it, possibly its own first fragments at the end of
   the segment before, or it has no payload and just the room for its header.
   */
  predicate Loses(s: LogState, r: Rec, size: nat, maxBlocks: nat)
    requires size > KEY_START
  {
    s.torn || Hidden(s.at, r) || Torn(s.at, r, size, maxBlocks)
  }

  /** Writing one record, to a new segment if it does not fit. */
  function Next(s: LogState, r: Rec, size: nat, maxBlocks: nat): (s': LogState)
    requires size > KEY_START
  {
    var here := After(s.at, r, size);
    LogState(if here.block < maxBlocks then here else After(Place(0, size), r, size),
             if Loses(s, r, size, maxBlocks) then s.found else s.found + [r],
             s.torn || Torn(s.at, r, size, maxBlocks))
  }

  /** What a reader makes of an active segment behind closed ones. */
  ghost function LogOf(base: JoinState, a: Reading): (s: LogState) {
    LogState(a.at, if Whole(base) then base.out + a.log else base.out, !Whole(base) || a.open.Some?)
  }

  /** Joining goes on behind these fragments. */
  ghost predicate Whole(s: JoinState) { s.current.None? && !s.stopped }

  /** Writing the first `n` of these records. */
  ghost function Run(s: LogState, recs: seq<Rec>, n: nat, size: nat, maxBlocks: nat): (s': LogState)
    requires n <= |recs| && size > KEY_START
  {
    if n == 0 then s else Next(Run(s, recs, n - 1, size, maxBlocks), recs[n - 1], size, maxBlocks)
  }

  /** Writing a single operation or a batch. */
  ghost function AfterUnit(s: LogState, u: Unit, size: nat, maxBlocks: nat): (s': LogState)
    requires GoodUnit(u) && size > KEY_START
  {
    Run(s, UnitRecords(u), |UnitRecords(u)|, size, maxBlocks)
  }

  ghost predicate Taken(recs: seq<Rec>, n: nat, size: nat, maxBlocks: nat)
    requires n <= |recs| && size > KEY_START
  {
    forall i :: 0 <= i < n ==> !TooLarge(recs[i], size, maxBlocks)
  }

  /** A segment takes every record of the unit. */
  ghost predicate UnitTaken(u: Unit, size: nat, maxBlocks: nat)
    requires GoodUnit(u) && size > KEY_START
  {
    Taken(UnitRecords(u), |UnitRecords(u)|, size, maxBlocks)
  }

  /** The log behind so many records, and whether a segment took each of them. */
  datatype Progress = Progress(log: LogState, taken: bool)

  ghost predicate Proceeds(p: Progress, p': Progress, r: Rec, size: nat, maxBlocks: nat)
    requires size > KEY_START
  {
    p' == Progress(Next(p.log, r, size, maxBlocks), p.taken && !TooLarge(r, size, maxBlocks))
  }

  ghost predicate Proceeding(trace: seq<Progress>, recs: seq<Rec>, size: nat, maxBlocks: nat)
    requires size > KEY_START
  {
    |trace| == |recs| + 1 && forall i :: 0 <= i < |recs| ==> Proceeds(trace[i], trace[i + 1], recs[i], size, maxBlocks)
  }

  /** Record after record written, or one that no segment takes. */
  ghost predicate InBatch(s: LogState, trace: seq<Progress>, n: nat, ok: bool) {
    n < |trace| && if ok then trace[n] == Progress(s, true) else !trace[|trace| - 1].taken
  }

  lemma {:induction false} NotTaken(trace: seq<Progress>, recs: seq<Rec>, n: nat, m: nat, size: nat, maxBlocks: nat)
    requires size > KEY_START && Proceeding(trace, recs, size, maxBlocks) && n <= m <= |recs| && !trace[n].taken
    ensures !trace[m].taken
    decreases m
  {
    if n < m {
      NotTaken(trace, recs, n, m - 1, size, maxBlocks);
      assert Proceeds(trace[m - 1], trace[m - 1 + 1], recs[m - 1], size, maxBlocks);
    }
  }

  lemma InBatchNext(s: LogState, s': LogState, trace: seq<Progress>, recs: seq<Rec>, n: nat, size: nat, maxBlocks: nat, ok: bool)
    requires size > KEY_START && Proceeding(trace, recs, size, maxBlocks) && n < |recs| && InBatch(s, trace, n, true)
    requires (ok <==> !TooLarge(recs[n], size, maxBlocks)) && (ok ==> s' == Next(s, recs[n], size, maxBlocks))
    ensures InBatch(s', trace, n + 1, ok)
  {
    assert Proceeds(trace[n], trace[n + 1], recs[n], size, maxBlocks);
    if !ok {
      NotTaken(trace, recs, n + 1, |recs|, size, maxBlocks);
    }
  }

  /** Writing a whole unit. */
  lemma UnitProgress(s: LogState, u: Unit, size: nat, maxBlocks: nat) returns (trace: seq<Progress>)
    requires GoodUnit(u) && size > KEY_START
    ensures Proceeding(trace, UnitRecords(u), size, maxBlocks) && trace[0] == Progress(s, true)
    ensures trace[|UnitRecords(u)|] == Progress(AfterUnit(s, u, size, maxBlocks), UnitTaken(u, size, maxBlocks))
  {
    var recs := UnitRecords(u);
    trace := seq(|recs| + 1, i requires 0 <= i <= |recs| => Progress(Run(s, recs, i, size, maxBlocks), Taken(recs, i, size, maxBlocks)));
    forall i | 0 <= i < |recs| ensures Proceeds(trace[i], trace[i + 1], recs[i], size, maxBlocks) {
      TakenNext(recs, i, size, maxBlocks);
    }
  }

  lemma TakenNext(recs: seq<Rec>, n: nat, size: nat, maxBlocks: nat)
    requires n < |recs| && size > KEY_START
    ensures Taken(recs, n + 1, size, maxBlocks) <==> Taken(recs, n, size, maxBlocks) && !TooLarge(recs[n], size, maxBlocks)
  {
  }

  lemma AfterOne(s: LogState, op: LogOp, r: Rec, size: nat, maxBlocks: nat)
    requires r == RecordOf(op, Single, 0) && size > KEY_START
    ensures AfterUnit(s, One(op), size, maxBlocks) == Next(s, r, size, maxBlocks)
    ensures UnitTaken(One(op), size, maxBlocks) <==> !TooLarge(r, size, maxBlocks)
  {
    var recs := UnitRecords(One(op));
    assert Run(s, recs, 0, size, maxBlocks) == s && recs[0] == r;
  }

  ghost predicate OpRecord(r: Rec, op: LogOp, id: nat) { r == RecordOf(op, Transaction, id) }

  /** Record `first + i` carries operation `i`. */
  ghost predicate Carries(recs: seq<Rec>, first: nat, ops: seq<LogOp>, i: nat, id: nat) {
    i < |ops| && first + i < |recs| && OpRecord(recs[first + i], ops[i], id) && Fits(recs[first + i])
  }

  /** The records of a batch one by one. */
  ghost predicate BatchOf(recs: seq<Rec>, id: nat, ops: seq<LogOp>) {
    && |recs| == |ops| + 2 > 2 && recs[0] == Marker(ops[0], Start, id) && recs[1 + |ops|] == Marker(ops[|ops| - 1], Commit, id)
    && (forall i :: 0 <= i < |ops| ==> OpRecord(recs[1 + i], ops[i], id))
  }

  /** A whole record within its fields. */
  ghost predicate RecordAt(recs: seq<Rec>, n: nat, r: Rec) {
    n < |recs| && recs[n] == r && r.frag == Full && Fits(r)
  }

  /** Start record, operations, commit record. */
  ghost predicate BatchAt(recs: seq<Rec>, id: nat, ops: seq<LogOp>, first: nat, second: nat, last: nat) {
    && |ops| > 0 && first == 0 && second == 1 && last == 1 + |ops| && |recs| == last + 1
    && RecordAt(recs, first, Marker(ops[0], Start, id)) && RecordAt(recs, last, Marker(ops[|ops| - 1], Commit, id))
    && (forall i :: 0 <= i < |ops| ==> Carries(recs, second, ops, i, id))
  }

  lemma CarriedAt(recs: seq<Rec>, first: nat, ops: seq<LogOp>, i: nat, id: nat, n: nat)
    requires Carries(recs, first, ops, i, id) && n == first + i
    ensures RecordAt(recs, n, RecordOf(ops[i], Transaction, id))
  {
  }

  lemma AllFit(recs: seq<Rec>, id: nat, ops: seq<LogOp>, first: nat, second: nat, last: nat)
    requires |ops| > 0 && recs == UnitRecords(Batch(id, ops)) && forall i :: 0 <= i < |ops| ==> Fits(RecordOf(ops[i], Transaction, id))
    requires first == 0 && second == 1 && last == 1 + |ops|
    ensures BatchAt(recs, id, ops, first, second, last)
  {
    BatchInOrder(id, ops, recs);
    assert Fits(RecordOf(ops[0], Transaction, id)) && Fits(RecordOf(ops[|ops| - 1], Transaction, id));
    assert |recs[0].key| == 0 && |recs[0].value| == 0 && |recs[last].key| == 0 && |recs[last].value| == 0;
  }

  lemma BatchInOrder(id: nat, ops: seq<LogOp>, recs: seq<Rec>)
    requires |ops| > 0 && recs == UnitRecords(Batch(id, ops))
    ensures BatchOf(recs, id, ops)
  {
    var front := BatchRecords(id, ops, |ops| + 1);
    forall i | 0 <= i < |ops| ensures OpRecord(recs[1 + i], ops[i], id) {
      assert recs[i + 1] == front[i + 1];
    }
  }

  lemma {:induction false} FilledGrows(a: nat, b: nat, left: nat, more: nat, size: nat)
    requires size > KEY_START && a <= b && left <= more
    ensures Filled(a, left, size).block <= Filled(b, more, size).block
    decreases more
  {
    if KEY_START + left > size {
      FilledGrows(a + 1, b + 1, left - (size - KEY_START), more - (size - KEY_START), size);
    }
  }

  /** What fits behind other records fits an empty segment. */
  lemma TooLargeAnywhere(p: Place, r: Rec, size: nat, maxBlocks: nat)
    requires size > KEY_START && p.room <= size && TooLarge(r, size, maxBlocks)
    ensures After(p, r, size).block >= maxBlocks
  {
    var payload := |r.key| + |r.value|;
    if Size(r) > size {
      FilledGrows(1, p.block + 1, payload - (size - KEY_START), if p.room <= KEY_START then payload else payload - (p.room - KEY_START), size);
    }
  }

  // ------------------------------------------------------------------ joining over segments

  /** Joining behind whole records. */
  lemma {:induction false} JoinShift(s: JoinState, frags: seq<Rec>, n: nat)
    requires Whole(s) && n <= |frags|
    ensures var j := JoinFrom(JOIN_START, frags, n);
            JoinFrom(s, frags, n) == JoinState(s.out + j.out, j.current, j.stopped)
  {
    if n == 0 {
      assert s.out + [] == s.out;
    } else {
      JoinShift(s, frags, n - 1);
      var j := JoinFrom(JOIN_START, frags, n - 1);
      ShiftStep(s.out, j, frags[n - 1]);
    }
  }

  lemma ShiftStep(out: seq<Rec>, j: JoinState, f: Rec)
    ensures var j' := JoinStep(j, f);
            JoinStep(JoinState(out + j.out, j.current, j.stopped), f) == JoinState(out + j'.out, j'.current, j'.stopped)
  {
    assert out + j.out + [f] == out + (j.out + [f]);
    if j.current.Some? {
      var last := [Extended(j.current.value, f)];
      assert out + j.out + last == out + (j.out + last);
    }
  }

  /** A segment whose fragments join begins with a whole record or a first fragment; neither continues an incomplete one. */
  lemma JoinBroken(s: JoinState, frags: seq<Rec>)
    requires !Whole(s) && !JoinFrom(JOIN_START, frags, |frags|).stopped
    ensures JoinFrom(s, frags, |frags|).out == s.out && !Whole(JoinFrom(s, frags, |frags|))
  {
    if frags != [] {
      FirstOfSegment(frags, JOIN_START);
      FirstBreaks(frags, s);
      StoppedStays(s, frags, 1, |frags|);
    }
  }

  lemma FirstOfSegment(frags: seq<Rec>, start: JoinState)
    requires frags != [] && start == JOIN_START && !JoinFrom(start, frags, |frags|).stopped
    ensures frags[0].frag == Full || frags[0].frag == First
  {
    assert JoinFrom(start, frags, 1) == JoinStep(JoinFrom(start, frags, 0), frags[0]);
    if JoinFrom(start, frags, 1).stopped {
      StoppedStays(start, frags, 1, |frags|);
    }
  }

  lemma FirstBreaks(frags: seq<Rec>, s: JoinState)
    requires frags != [] && (frags[0].frag == Full || frags[0].frag == First) && !Whole(s)
    ensures JoinFrom(s, frags, 1) == s.(stopped := true)
  {
    assert JoinFrom(s, frags, 1) == JoinStep(JoinFrom(s, frags, 0), frags[0]);
  }

  ghost predicate Joins(s: JoinState, frags: seq<Rec>, j: JoinState) {
    JoinFrom(s, frags, |frags|) == j
  }

  lemma JoinsConcat(start: JoinState, a: seq<Rec>, j: JoinState, b: seq<Rec>, j': JoinState, all: seq<Rec>)
    requires Joins(start, a, j) && Joins(j, b, j') && all == a + b
    ensures Joins(start, all, j')
  {
    JoinConcat(start, a, b, |b|);
  }

  /** Joining has come to this state of the log. */
  ghost predicate Continues(j: JoinState, s: LogState) {
    j.out == s.found && (Whole(j) <==> !s.torn)
  }

  /** The active segment read behind the closed ones. */
  lemma JoinActive(base: JoinState, stream: seq<Rec>, a: Reading, j: JoinState)
    requires Joins(JOIN_START, stream, JoinState(a.log, a.open, false)) && Joins(base, stream, j)
    ensures Continues(j, LogOf(base, a))
  {
    if Whole(base) {
      JoinShift(base, stream, |stream|);
    } else {
      JoinBroken(base, stream);
    }
  }

  lemma JoinSegment(closed: seq<Rec>, base: JoinState, stream: seq<Rec>, a: Reading, all: seq<Rec>) returns (j: JoinState)
    requires Joins(JOIN_START, closed, base) && Joins(JOIN_START, stream, JoinState(a.log, a.open, false)) && all == closed + stream
    ensures Joins(JOIN_START, all, j) && Continues(j, LogOf(base, a))
  {
    j := JoinFrom(base, stream, |stream|);
    JoinsConcat(JOIN_START, closed, base, stream, j, all);
    JoinActive(base, stream, a, j);
  }

  // ------------------------------------------------------------------ appending

  /** The record does not fit behind the others; its first fragments may be written. */
  ghost predicate Overflows(s: LogState, s': LogState, r: Rec, size: nat, maxBlocks: nat)
    requires size > KEY_START
  {
    After(s.at, r, size).block >= maxBlocks && s'.found == s.found && s'.torn == (s.torn || Torn(s.at, r, size, maxBlocks))
  }

  /** Behind an overflow only a segment that is full takes appends. */
  predicate Usable(a: Reading, size: nat, maxBlocks: nat) {
    a.at.block < maxBlocks && a.at.room <= size && (a.open.Some? ==> a.at.block + 1 == maxBlocks && a.at.room == 0)
  }

  /** The active segment takes the record, or not. */
  lemma NextHere(base: JoinState, a: Reading, a': Reading, r: Rec, size: nat, maxBlocks: nat, ok: bool)
    requires size > KEY_START && Appends(a, a', r, size, maxBlocks, ok) && Usable(a, size, maxBlocks) && a'.at.block < maxBlocks
    ensures Usable(a', size, maxBlocks)
    ensures if ok then LogOf(base, a') == Next(LogOf(base, a), r, size, maxBlocks) && !TooLarge(r, size, maxBlocks)
            else Overflows(LogOf(base, a), LogOf(base, a'), r, size, maxBlocks)
  {
    assert base.out + (a.log + [r]) == base.out + a.log + [r];
    if TooLarge(r, size, maxBlocks) {
      TooLargeAnywhere(a.at, r, size, maxBlocks);
    }
  }

  ghost function Begun(s: LogState, size: nat): LogState { LogState(Place(0, size), s.found, s.torn) }

  /** A new segment takes the record, or none does. */
  lemma NextSegment(s: LogState, full: LogState, s': LogState, r: Rec, size: nat, maxBlocks: nat)
    requires size > KEY_START && s.at.block < maxBlocks && Overflows(s, full, r, size, maxBlocks)
    ensures !TooLarge(r, size, maxBlocks) ==> Next(Begun(full, size), r, size, maxBlocks) == Next(s, r, size, maxBlocks)
    ensures TooLarge(r, size, maxBlocks) && Overflows(Begun(full, size), s', r, size, maxBlocks) ==> s'.found == s.found && s'.torn
  {
  }

  /** The files of closed segments hold these fragments. */
  ghost predicate Closed(crc: Bytes -> U32, size: nat, files: seq<seq<Bytes>>, contents: seq<seq<seq<Rec>>>) {
    |files| == |contents| && forall i :: 0 <= i < |files| ==> OnDisk(crc, size, files[i], contents[i])
  }

  /** What is read from the first `n` closed segments. */
  ghost function ReadClosed(contents: seq<seq<seq<Rec>>>, size: nat, n: nat): (frags: seq<Rec>)
    requires n <= |contents|
  {
    if n == 0 then [] else ReadClosed(contents, size, n - 1) + ReadStream(contents[n - 1], size, |contents[n - 1]|)
  }

  lemma {:induction false} ReadClosedSame(a: seq<seq<seq<Rec>>>, b: seq<seq<seq<Rec>>>, size: nat, n: nat)
    requires n <= |a| && n <= |b| && forall i :: 0 <= i < n ==> a[i] == b[i]
    ensures ReadClosed(a, size, n) == ReadClosed(b, size, n)
  {
    if n > 0 {
      ReadClosedSame(a, b, size, n - 1);
    }
  }

  ghost predicate Based(contents: seq<seq<seq<Rec>>>, size: nat, base: JoinState) {
    Joins(JOIN_START, ReadClosed(contents, size, |contents|), base)
  }

  /** Closing the active segment. */
  lemma CloseSegment(contents: seq<seq<seq<Rec>>>, size: nat, base: JoinState, blocks: seq<seq<Rec>>, a: Reading,
                     contents': seq<seq<seq<Rec>>>) returns (base': JoinState)
    requires Based(contents, size, base) && Recovers(size, blocks, a.log, a.open) && contents' == contents + [blocks]
    ensures Based(contents', size, base') && Continues(base', LogOf(base, a))
  {
    var closed, stream := ReadClosed(contents, size, |contents|), ReadStream(blocks, size, |blocks|);
    var all := ReadClosed(contents', size, |contents'|);
    ReadClosedSnoc(contents, blocks, size, contents');
    base' := JoinSegment(closed, base, stream, a, all);
  }

  lemma ReadClosedSnoc(contents: seq<seq<seq<Rec>>>, blocks: seq<seq<Rec>>, size: nat, contents': seq<seq<seq<Rec>>>)
    requires contents' == contents + [blocks]
    ensures ReadClosed(contents', size, |contents'|) == ReadClosed(contents, size, |contents|) + ReadStream(blocks, size, |blocks|)
  {
    ReadClosedSame(contents, contents', size, |contents|);
  }

  lemma ClosedSnoc(crc: Bytes -> U32, size: nat, files: seq<seq<Bytes>>, contents: seq<seq<seq<Rec>>>, disk: seq<Bytes>, blocks: seq<seq<Rec>>)
    requires Closed(crc, size, files, contents) && OnDisk(crc, size, disk, blocks)
    ensures Closed(crc, size, files + [disk], contents + [blocks])
  {
  }

  lemma CloseFile(crc: Bytes -> U32, size: nat, files: seq<seq<Bytes>>, contents: seq<seq<seq<Rec>>>, base: JoinState,
                  disk: seq<Bytes>, blocks: seq<seq<Rec>>, a: Reading, files': seq<seq<Bytes>>)
    returns (contents': seq<seq<seq<Rec>>>, base': JoinState)
    requires Closed(crc, size, files, contents) && OnDisk(crc, size, disk, blocks) && files' == files + [disk]
    requires Based(contents, size, base) && Recovers(size, blocks, a.log, a.open)
    ensures Closed(crc, size, files', contents') && Based(contents', size, base')
    ensures LogOf(base', Reading(Place(0, size), [], None, true)) == Begun(LogOf(base, a), size)
  {
    contents' := contents + [blocks];
    base' := CloseSegment(contents, size, base, blocks, a, contents');
    BegunState(base', LogOf(base, a), size);
    ClosedSnoc(crc, size, files, contents, disk, blocks);
  }

  lemma BegunState(base: JoinState, s: LogState, size: nat)
    requires Continues(base, s)
    ensures LogOf(base, Reading(Place(0, size), [], None, true)) == Begun(s, size)
  {
    assert base.out + [] == base.out;
  }

  class Log {
    const crc: Bytes -> U32
    const blockSize: nat
    const maxBlocks: nat
    var files: seq<seq<Bytes>>
    var active: Segment
    var nextTxnId: nat
    ghost var contents: seq<seq<seq<Rec>>>
    ghost var base: JoinState

    ghost predicate Valid()
      reads this, active, active.block, active.block.data
    {
      && active.Valid() && active.crc == crc && active.blockSize == blockSize && active.maxBlocks == maxBlocks
      && Usable(active.Now(), blockSize, maxBlocks)
      && Closed(crc, blockSize, files, contents) && Based(contents, blockSize, base)
    }

    /** The active segment's file is up to date. */
    ghost predicate Synced()
      reads this, active
    {
      OnDisk(crc, blockSize, active.disk, active.blocks)
    }

    ghost function State(): (s: LogState)
      reads this, active, active.block
    {
      LogOf(base, active.Now())
    }

    constructor (crc: Bytes -> U32, blockSize: nat, maxBlocks: nat)
      requires blockSize > KEY_START && maxBlocks > 0
      ensures Valid() && Synced() && State() == LogState(Place(0, blockSize), [], false)
      ensures this.crc == crc && this.blockSize == blockSize && this.maxBlocks == maxBlocks && nextTxnId == 1
      ensures fresh(active) && fresh(active.block) && fresh(active.block.data)
    {
      this.crc, this.blockSize, this.maxBlocks := crc, blockSize, maxBlocks;
      files, contents, base, nextTxnId := [], [], JOIN_START, 1;
      var first := new Segment(crc, blockSize, maxBlocks);
      first.Sync();
      active := first;
    }

    /** `Sync`. */
    method Sync()
      requires Valid()
      modifies active`disk
      ensures Valid() && State() == old(State()) && Synced()
    {
      active.Sync();
    }

    /** The active segment joins the closed ones. */
    method CloseActive()
      requires Valid() && Synced()
      modifies this`files, this`contents, this`base
      ensures Closed(crc, blockSize, files, contents) && Based(contents, blockSize, base)
      ensures LogOf(base, Reading(Place(0, blockSize), [], None, true)) == Begun(old(State()), blockSize)
    {
      var more := files + [active.disk];
      ghost var written, base' := CloseFile(crc, blockSize, files, contents, base, active.disk, active.blocks, active.Now(), more);
      files, contents, base := more, written, base';
    }

    method BeginSegment(ghost begun: LogState)
      requires blockSize > KEY_START && maxBlocks > 0 && Closed(crc, blockSize, files, contents) && Based(contents, blockSize, base)
      requires LogOf(base, Reading(Place(0, blockSize), [], None, true)) == begun
      modifies this`active
      ensures Valid() && fresh(active) && fresh(active.block) && fresh(active.block.data) && State() == begun
    {
      active := new Segment(crc, blockSize, maxBlocks);
    }

    /** `RotateSegment`. */
    method RotateSegment()
      requires Valid()
      modifies this`files, this`active, this`contents, this`base, active`disk
      ensures Valid() && fresh(active) && fresh(active.block) && fresh(active.block.data)
      ensures State() == Begun(old(State()), blockSize)
    {
      ghost var begun := Begun(State(), blockSize);
      Sync();
      CloseActive();
      BeginSegment(begun);
    }

    method AppendHere(r: Rec) returns (ok: bool)
      requires Valid() && r.frag == Full && Fits(r)
      modifies active, active.block, active.block.data
      ensures Valid() && (active.block == old(active.block) || (fresh(active.block) && fresh(active.block.data)))
      ensures ok ==> !TooLarge(r, blockSize, maxBlocks) && State() == Next(old(State()), r, blockSize, maxBlocks)
      ensures !ok ==> Overflows(old(State()), State(), r, blockSize, maxBlocks) && active.IsFull()
    {
      ghost var before := active.Now();
      ok := active.AppendWALRecord(r);
      NextHere(base, before, active.Now(), r, blockSize, maxBlocks, ok);
    }

    method AppendToNew(r: Rec, ghost begun: LogState) returns (ok: bool)
      requires Valid() && r.frag == Full && Fits(r) && begun == Begun(State(), blockSize)
      modifies this`files, this`active, this`contents, this`base, active
      ensures Valid() && fresh(active) && fresh(active.block) && fresh(active.block.data)
      ensures ok ==> !TooLarge(r, blockSize, maxBlocks) && State() == Next(begun, r, blockSize, maxBlocks)
      ensures !ok ==> Overflows(begun, State(), r, blockSize, maxBlocks)
    {
      RotateSegment();
      ok := AppendHere(r);
    }

    /** To the active segment or, when that is full, to a new one. */
    method AppendSomewhere(r: Rec) returns (ok: bool)
      requires Valid() && r.frag == Full && Fits(r)
      modifies this`files, this`active, this`contents, this`base, active, active.block, active.block.data
      ensures Valid() && (active == old(active) || fresh(active))
      ensures (active.block == old(active.block) && active.block.data == old(active.block.data)) || (fresh(active.block) && fresh(active.block.data))
      ensures ok <==> !TooLarge(r, blockSize, maxBlocks)
      ensures ok ==> State() == Next(old(State()), r, blockSize, maxBlocks)
      ensures !ok ==> State().found == old(State()).found && State().torn
    {
      ghost var s := State();
      ok := AppendHere(r);
      if !ok && active.IsFull() {
        ghost var full := State();
        ok := AppendToNew(r, Begun(full, blockSize));
        NextSegment(s, full, State(), r, blockSize, maxBlocks);
      }
    }

    /**
     `AppendWALRecord`: to the active segment, or to a new one, and then to disk. It fails exactly when no segment takes
     the record; then an incomplete record lies in the log.
     */
    method AppendWALRecord(r: Rec) returns (ok: bool)
      requires Valid() && r.frag == Full && Fits(r)
      modifies this`files, this`active, this`contents, this`base, active, active.block, active.block.data
      ensures Valid() && (active == old(active) || fresh(active))
      ensures (active.block == old(active.block) && active.block.data == old(active.block.data)) || (fresh(active.block) && fresh(active.block.data))
      ensures ok <==> !TooLarge(r, blockSize, maxBlocks)
      ensures ok ==> Synced() && State() == Next(old(State()), r, blockSize, maxBlocks)
      ensures !ok ==> State().found == old(State()).found && State().torn
    {
      ok := AppendSomewhere(r);
      if ok {
        Sync();
      }
    }

    /** `Append`. */
    method Append(op: LogOp) returns (ok: bool)
      requires Valid() && Fits(RecordOf(op, Single, 0))
      modifies this`files, this`active, this`contents, this`base, active, active.block, active.block.data
      ensures Valid() && (active == old(active) || fresh(active))
      ensures (active.block == old(active.block) && active.block.data == old(active.block.data)) || (fresh(active.block) && fresh(active.block.data))
      ensures ok <==> UnitTaken(One(op), blockSize, maxBlocks)
      ensures ok ==> Synced() && State() == AfterUnit(old(State()), One(op), blockSize, maxBlocks)
    {
      var r := RecordOf(op, Single, 0);
      AfterOne(State(), op, r, blockSize, maxBlocks);
      ok := AppendWALRecord(r);
    }

    /** One of the records of a batch. */
    method AppendNth(r: Rec, ghost trace: seq<Progress>, ghost recs: seq<Rec>, ghost n: nat) returns (ok: bool)
      requires Valid() && RecordAt(recs, n, r)
      requires Proceeding(trace, recs, blockSize, maxBlocks) && InBatch(State(), trace, n, true)
      modifies this`files, this`active, this`contents, this`base, active, active.block, active.block.data
      ensures Valid() && (active == old(active) || fresh(active))
      ensures (active.block == old(active.block) && active.block.data == old(active.block.data)) || (fresh(active.block) && fresh(active.block.data))
      ensures InBatch(State(), trace, n + 1, ok) && (ok ==> Synced())
    {
      ghost var s := State();
      ok := AppendWALRecord(r);
      InBatchNext(s, State(), trace, recs, n, blockSize, maxBlocks, ok);
    }

    /** The operations of a batch, behind its start record. */
    method AppendOps(id: nat, ops: seq<LogOp>, ghost trace: seq<Progress>, ghost recs: seq<Rec>, ghost first: nat)
      returns (ok: bool, ghost n: nat)
      requires Valid() && first + |ops| < |recs| && Proceeding(trace, recs, blockSize, maxBlocks) && InBatch(State(), trace, first, true)
      requires forall i :: 0 <= i < |ops| ==> Carries(recs, first, ops, i, id)
      modifies this`files, this`active, this`contents, this`base, active, active.block, active.block.data
      ensures Valid() && (active == old(active) || fresh(active))
      ensures (active.block == old(active.block) && active.block.data == old(active.block.data)) || (fresh(active.block) && fresh(active.block.data))
      ensures InBatch(State(), trace, n, ok) && (ok ==> n == first + |ops|)
    {
      ok, n := true, first;
      var i := 0;
      while ok && i < |ops|
        invariant 0 <= i <= |ops| && Valid() && (active == old(active) || fresh(active))
        invariant (active.block == old(active.block) && active.block.data == old(active.block.data)) || (fresh(active.block) && fresh(active.block.data))
        invariant n == first + i && InBatch(State(), trace, n, ok)
      {
        CarriedAt(recs, first, ops, i, id, n);
        ok := AppendNth(RecordOf(ops[i], Transaction, id), trace, recs, n);
        i, n := i + 1, n + 1;
      }
    }

    /** The records of a batch that is not empty. */
    method AppendBatch(id: nat, ops: seq<LogOp>, ghost trace: seq<Progress>, ghost recs: seq<Rec>, ghost first: nat, ghost second: nat, ghost last: nat)
      returns (ok: bool, ghost n: nat)
      requires Valid() && Proceeding(trace, recs, blockSize, maxBlocks) && InBatch(State(), trace, first, true) && BatchAt(recs, id, ops, first, second, last)
      modifies this`files, this`active, this`contents, this`base, active, active.block, active.block.data
      ensures Valid() && (active == old(active) || fresh(active))
      ensures (active.block == old(active.block) && active.block.data == old(active.block.data)) || (fresh(active.block) && fresh(active.block.data))
      ensures InBatch(State(), trace, n, ok) && (ok ==> n == |recs| && Synced())
    {
      n := second;
      ok := AppendNth(Marker(ops[0], Start, id), trace, recs, first);
      if ok {
        ok, n := AppendOps(id, ops, trace, recs, n);
      }
      if ok {
        ok := AppendNth(Marker(ops[|ops| - 1], Commit, id), trace, recs, last);
        n := last + 1;
      }
    }

    /** `BatchWrite`: a start record, the operations and a commit record, under a number of their own. */
    method BatchWrite(ops: seq<LogOp>) returns (ok: bool)
      requires Valid() && forall i :: 0 <= i < |ops| ==> Fits(RecordOf(ops[i], Transaction, nextTxnId))
      modifies this, active, active.block, active.block.data
      ensures Valid() && (active == old(active) || fresh(active))
      ensures (active.block == old(active.block) && active.block.data == old(active.block.data)) || (fresh(active.block) && fresh(active.block.data))
      ensures ops == [] ==> ok && nextTxnId == old(nextTxnId) && State() == old(State()) && active == old(active) && unchanged(active)
      ensures ops != [] ==> nextTxnId == old(nextTxnId) + 1
      ensures ops != [] ==> (ok <==> UnitTaken(Batch(old(nextTxnId), ops), blockSize, maxBlocks))
      ensures ops != [] && ok ==> Synced() && State() == AfterUnit(old(State()), Batch(old(nextTxnId), ops), blockSize, maxBlocks)
    {
      if |ops| == 0 {
        return true;
      }
      var id := nextTxnId;
      nextTxnId := nextTxnId + 1;
      ghost var recs := UnitRecords(Batch(id, ops));
      AllFit(recs, id, ops, 0, 1, 1 + |ops|);
      ghost var trace := UnitProgress(State(), Batch(id, ops), blockSize, maxBlocks);
      ghost var n;
      ok, n := AppendBatch(id, ops, trace, recs, 0, 1, 1 + |ops|);
    }
  }
}

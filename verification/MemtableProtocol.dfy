/**
 Memtable rotation and background flushing (internal/memtable/manager.go:60-143, 222-245) as a
 transition system. One step is one stretch of code under the lock, or one channel or wait-group
 operation, so a run is any interleaving of writers, the flush worker, resets and a close.
 */
module MemtableProtocol {
  import opened Keys

  /** A write as it reaches the active table. */
  datatype Op = Op(key: Bytes, value: Bytes, seqId: nat, kind: Byte)

  /** The configured number of immutable tables, also the channel's capacity, and `ShouldFlush`. */
  datatype Config = Config(maxTables: nat, full: seq<Op> -> bool)

  /** The worker: waiting, holding a table it received, flushing it, or about to report it done. */
  datatype Worker = Idle | Received(t: nat) | Flushing(t: nat) | Finishing(t: nat)

  /** `Close`: its own table may still have to be sent; then the channel is closed; then it waits. */
  datatype Closer = NotClosing | CloseSending(t: nat) | ReadyToClose | Waiting | Returned

  /** One call of the flush handler. */
  datatype Flushed = Flushed(table: nat, entries: seq<Op>)

  /**
   Tables are numbered as they are made, the last one being active; `contents` lists what was
   written to each. Writers are counted by where they are: about to look at the active table in
   `rotate`, asleep on the condition, woken up; `sending` holds the tables rotated and not yet sent.
   The process ends when a writer sends on the closed channel (`panicked`), or when the worker asks for
   a list of negative capacity in `removeImmutable` (`crashed`).
   */
  datatype State = State(
    contents: seq<seq<Op>>, immutable: seq<nat>,
    checking: nat, asleep: nat, awake: nat, sending: set<nat>, channel: seq<nat>,
    worker: Worker, wg: nat, closer: Closer, panicked: bool, crashed: bool,
    flushed: seq<Flushed>, discarded: set<nat>)

  datatype Step =
    | Put(op: Op) | Remove(op: Op) | Rotate | Rerun | Send(t: nat)
    | Receive | Take | Flush | Done | ResetAll | Close | CloseChannel | CloseReturn

  const INITIAL := State([[]], [], 0, 0, 0, {}, [], Idle, 0, NotClosing, false, false, [], {})

  function Active(s: State): (t: nat)
    requires |s.contents| > 0
  {
    |s.contents| - 1
  }

  predicate Closed(s: State) { s.closer.Waiting? || s.closer.Returned? }

  /** The loop of `removeImmutable`, on the first `n` tables. */
  function Without(tables: seq<nat>, t: nat, n: nat): (rest: seq<nat>)
    requires n <= |tables|
  {
    if n == 0 then []
    else if tables[n - 1] != t then Without(tables, t, n - 1) + [tables[n - 1]]
    else Without(tables, t, n - 1)
  }

  function TableSet(tables: seq<nat>): set<nat> { set t | t in tables }

  /** The active table becomes immutable and a new one takes its place. */
  function Rotated(s: State): State
    requires |s.contents| > 0
  {
    s.(immutable := s.immutable + [Active(s)], contents := s.contents + [[]],
       wg := s.wg + 1, sending := s.sending + {Active(s)})
  }

  /** `rotate` behind its check: sleep while there are too many immutable tables. */
  function RotateOrSleep(cfg: Config, s: State): State
    requires |s.contents| > 0
  {
    if |s.immutable| >= cfg.maxTables then s.(asleep := s.asleep + 1) else Rotated(s)
  }

  function Written(s: State, op: Op): State
    requires |s.contents| > 0
  {
    s.(contents := s.contents[Active(s) := s.contents[Active(s)] + [op]])
  }

  /** The process has not ended. */
  predicate Running(s: State) { !s.panicked && !s.crashed }

  predicate Enabled(cfg: Config, s: State, step: Step) {
    |s.contents| > 0 && Running(s)
    && match step
       case Put(_) => true
       case Remove(_) => true
       case Rotate => s.checking > 0
       case Rerun => s.awake > 0
       case Send(t) => t in s.sending && (Closed(s) || |s.channel| < cfg.maxTables)
       case Receive => s.worker.Idle? && s.channel != []
       case Take => s.worker.Received?
       case Flush => s.worker.Flushing? && s.worker.t < |s.contents|
       case Done => s.worker.Finishing? && s.wg > 0
       case ResetAll => true
       case Close => s.closer.NotClosing?
       case CloseChannel => s.closer.ReadyToClose? || (s.closer.CloseSending? && s.closer.t !in s.sending)
       case CloseReturn => s.closer.Waiting? && s.wg == 0
  }

  function Apply(cfg: Config, s: State, step: Step): (s': State)
    requires Enabled(cfg, s, step)
  {
    match step
    case Put(op) =>
      var w := Written(s, op);
      if cfg.full(w.contents[Active(w)]) then w.(checking := w.checking + 1) else w
    case Remove(op) => Written(s, op)
    case Rotate =>
      var c := s.(checking := s.checking - 1);
      if cfg.full(s.contents[Active(s)]) then RotateOrSleep(cfg, c) else c
    case Rerun => RotateOrSleep(cfg, s.(awake := s.awake - 1))
    case Send(t) =>
      if Closed(s) then s.(panicked := true) else s.(channel := s.channel + [t], sending := s.sending - {t})
    case Receive => s.(worker := Received(s.channel[0]), channel := s.channel[1..])
    case Take =>
      var t := s.worker.t;
      if s.immutable == [] then s.(crashed := true) else
      var w := s.(worker := if t in s.immutable then Flushing(t) else Finishing(t),
                  immutable := Without(s.immutable, t, |s.immutable|));
      if s.asleep > 0 then w.(asleep := s.asleep - 1, awake := s.awake + 1) else w
    case Flush =>
      var t := s.worker.t;
      s.(worker := Finishing(t), flushed := s.flushed + [Flushed(t, s.contents[t])])
    case Done => s.(worker := Idle, wg := s.wg - 1)
    case ResetAll =>
      s.(discarded := s.discarded + {Active(s)} + TableSet(s.immutable),
         contents := s.contents + [[]], immutable := [])
    case Close =>
      if cfg.full(s.contents[Active(s)]) then Rotated(s).(closer := CloseSending(Active(s)))
      else s.(closer := ReadyToClose)
    case CloseChannel => s.(closer := Waiting)
    case CloseReturn => s.(closer := Returned)
  }

  // ------------------------------------------------------------------ runs

  /** One step of a run. */
  ghost predicate Next(cfg: Config, s: State, step: Step, s': State) {
    Enabled(cfg, s, step) && s' == Apply(cfg, s, step)
  }

  /** The steps of a run, and the states it goes through. */
  ghost predicate Run(cfg: Config, steps: seq<Step>, states: seq<State>) {
    && |states| == |steps| + 1 && states[0] == INITIAL
    && forall i {:trigger steps[i]} :: 0 <= i < |steps| ==> Next(cfg, states[i], steps[i], states[i + 1])
  }

  /** The writes of a run, in order. */
  ghost function Writes(steps: seq<Step>, n: nat): seq<Op>
    requires n <= |steps|
  {
    if n == 0 then []
    else if steps[n - 1].Put? || steps[n - 1].Remove? then Writes(steps, n - 1) + [steps[n - 1].op]
    else Writes(steps, n - 1)
  }

  ghost function Flat(contents: seq<seq<Op>>, n: nat): seq<Op>
    requires n <= |contents|
  {
    if n == 0 then [] else Flat(contents, n - 1) + contents[n - 1]
  }

  // ------------------------------------------------------------------ what every step keeps

  ghost predicate Distinct(tables: seq<nat>) {
    forall i, j :: 0 <= i < j < |tables| ==> tables[i] != tables[j]
  }

  /** Rotated and not yet looked at by the worker. */
  predicate Queued(sending: set<nat>, channel: seq<nat>, worker: Worker, t: nat) {
    t in sending || t in channel || worker == Received(t)
  }

  /** The table's entries have gone to the flush handler. */
  ghost predicate IsFlushed(flushed: seq<Flushed>, t: nat) {
    exists k :: 0 <= k < |flushed| && flushed[k].table == t
  }

  function One(b: bool): nat { if b then 1 else 0 }

  /** In how many of the four places a table is: immutable, in flight, flushed, discarded. */
  ghost function Places(immutable: seq<nat>, worker: Worker, flushed: seq<Flushed>, discarded: set<nat>, t: nat): nat {
    One(t in immutable) + One(worker == Flushing(t)) + One(IsFlushed(flushed, t)) + One(t in discarded)
  }

  /** No table travels twice through the channel, and the wait group counts those that travel. */
  ghost predicate Travels(active: nat, sending: set<nat>, channel: seq<nat>, worker: Worker, wg: nat) {
    && Distinct(channel)
    && (forall t :: t in channel ==> t !in sending && t < active)
    && (forall t :: t in sending ==> t < active)
    && (!worker.Idle? ==> worker.t < active && worker.t !in channel && worker.t !in sending)
    && wg == |sending| + |channel| + One(!worker.Idle?)
  }

  ghost predicate Pipeline(s: State) {
    |s.contents| > 0 && Travels(Active(s), s.sending, s.channel, s.worker, s.wg)
  }

  /** Every older table is in exactly one place, and the active one in none. */
  ghost predicate Placed(active: nat, immutable: seq<nat>, worker: Worker, flushed: seq<Flushed>, discarded: set<nat>) {
    forall t: nat :: Places(immutable, worker, flushed, discarded, t) == One(t < active)
  }

  /** The immutable tables are different, and each is on its way to the worker. */
  ghost predicate Coming(immutable: seq<nat>, sending: set<nat>, channel: seq<nat>, worker: Worker) {
    Distinct(immutable) && forall t :: t in immutable ==> Queued(sending, channel, worker, t)
  }

  ghost predicate Accounted(s: State) {
    && |s.contents| > 0 && Placed(Active(s), s.immutable, s.worker, s.flushed, s.discarded)
    && Coming(s.immutable, s.sending, s.channel, s.worker)
  }

  /** No table is flushed twice, and what is flushed is all that was ever written to the table. */
  ghost predicate FlushedWhole(s: State) {
    && |s.contents| > 0
    && (forall i, j :: 0 <= i < j < |s.flushed| ==> s.flushed[i].table != s.flushed[j].table)
    && (forall k :: 0 <= k < |s.flushed| ==>
          s.flushed[k].table < Active(s) && s.flushed[k].entries == s.contents[s.flushed[k].table])
  }

  /** Rotation keeps at most `maxTables` immutable tables, `Close` may add one; the channel holds `maxTables`. */
  ghost predicate Limited(cfg: Config, s: State) {
    |s.immutable| <= cfg.maxTables + One(!s.closer.NotClosing?) && |s.channel| <= cfg.maxTables
  }

  /** A sleeping writer will be woken: a table is still to be looked at, or another writer is awake. */
  ghost predicate NoLostWakeup(s: State) {
    s.asleep > 0 ==> s.awake > 0 || s.sending != {} || s.channel != [] || s.worker.Received?
  }

  ghost predicate Inv(cfg: Config, s: State) {
    Pipeline(s) && Accounted(s) && FlushedWhole(s) && Limited(cfg, s) && (cfg.maxTables > 0 ==> NoLostWakeup(s))
  }

  lemma {:induction false} WithoutIn(tables: seq<nat>, t: nat, n: nat)
    requires n <= |tables|
    ensures forall x :: x in Without(tables, t, n) <==> x in tables[..n] && x != t
    ensures |Without(tables, t, n)| <= n
  {
    if n > 0 {
      WithoutIn(tables, t, n - 1);
      assert tables[..n] == tables[..n - 1] + [tables[n - 1]];
    }
  }

  lemma {:induction false} WithoutDistinct(tables: seq<nat>, t: nat, n: nat)
    requires n <= |tables| && Distinct(tables)
    ensures Distinct(Without(tables, t, n))
  {
    if n > 0 {
      WithoutDistinct(tables, t, n - 1);
      WithoutIn(tables, t, n - 1);
      assert tables[n - 1] !in tables[..n - 1];
      var rest := Without(tables, t, n - 1);
      assert forall i :: 0 <= i < |rest| ==> rest[i] in rest;
    }
  }

  lemma WithoutAll(tables: seq<nat>, t: nat)
    ensures forall x :: x in Without(tables, t, |tables|) <==> x in tables && x != t
    ensures |Without(tables, t, |tables|)| <= |tables|
    ensures Distinct(tables) ==> Distinct(Without(tables, t, |tables|))
  {
    WithoutIn(tables, t, |tables|);
    assert tables[..|tables|] == tables;
    if Distinct(tables) {
      WithoutDistinct(tables, t, |tables|);
    }
  }

  lemma TravelsMore(active: nat, sending: set<nat>, channel: seq<nat>, worker: Worker, wg: nat)
    requires Travels(active, sending, channel, worker, wg)
    ensures Travels(active + 1, sending + {active}, channel, worker, wg + 1)
  {
    assert active !in sending;
  }

  lemma TravelsSent(active: nat, sending: set<nat>, channel: seq<nat>, worker: Worker, wg: nat, t: nat)
    requires Travels(active, sending, channel, worker, wg) && t in sending
    ensures Travels(active, sending - {t}, channel + [t], worker, wg)
  {
  }

  lemma TravelsReceived(active: nat, sending: set<nat>, channel: seq<nat>, wg: nat)
    requires Travels(active, sending, channel, Idle, wg) && channel != []
    ensures Travels(active, sending, channel[1..], Received(channel[0]), wg)
  {
    assert forall t :: t in channel[1..] ==> t in channel && t != channel[0];
    assert channel[0] in channel;
  }

  predicate Rotates(step: Step) { step.Rotate? || step.Rerun? || step.Close? }

  predicate ByWorker(step: Step) { step.Receive? || step.Take? || step.Flush? || step.Done? }

  /** These steps put the active table aside, or only move a writer. */
  lemma RotatesOrNot(cfg: Config, s: State, step: Step, s': State)
    requires Enabled(cfg, s, step) && Rotates(step) && s' == Apply(cfg, s, step)
    ensures s'.channel == s.channel && s'.worker == s.worker && s'.flushed == s.flushed && s'.discarded == s.discarded
    ensures || (s'.contents == s.contents && s'.sending == s.sending && s'.wg == s.wg && s'.immutable == s.immutable)
            || (s'.contents == s.contents + [[]] && s'.sending == s.sending + {Active(s)} && s'.wg == s.wg + 1
                && s'.immutable == s.immutable + [Active(s)])
  {
  }

  lemma RotatePipeline(cfg: Config, s: State, step: Step)
    requires Pipeline(s) && Enabled(cfg, s, step) && Rotates(step)
    ensures Pipeline(Apply(cfg, s, step))
  {
    var s' := Apply(cfg, s, step);
    TravelsMore(Active(s), s.sending, s.channel, s.worker, s.wg);
    assert Pipeline(s') by {
      RotatesOrNot(cfg, s, step, s');
    }
  }

  lemma WorkerPipeline(cfg: Config, s: State, step: Step)
    requires Pipeline(s) && Enabled(cfg, s, step) && ByWorker(step)
    ensures Pipeline(Apply(cfg, s, step))
  {
    if step.Receive? {
      TravelsReceived(Active(s), s.sending, s.channel, s.wg);
    }
  }

  lemma OtherPipeline(cfg: Config, s: State, step: Step)
    requires Pipeline(s) && Enabled(cfg, s, step) && !Rotates(step) && !ByWorker(step)
    ensures Pipeline(Apply(cfg, s, step))
  {
    if step.Send? {
      TravelsSent(Active(s), s.sending, s.channel, s.worker, s.wg, step.t);
    }
  }

  lemma StepPipeline(cfg: Config, s: State, step: Step)
    requires Pipeline(s) && Enabled(cfg, s, step)
    ensures Pipeline(Apply(cfg, s, step))
  {
    if Rotates(step) {
      RotatePipeline(cfg, s, step);
    } else if ByWorker(step) {
      WorkerPipeline(cfg, s, step);
    } else {
      OtherPipeline(cfg, s, step);
    }
  }

  // ------------------------------------------------------------------ where tables are

  lemma SnocFlushed(flushed: seq<Flushed>, f: Flushed, t: nat)
    ensures IsFlushed(flushed + [f], t) <==> IsFlushed(flushed, t) || f.table == t
  {
    if IsFlushed(flushed, t) {
      var k :| 0 <= k < |flushed| && flushed[k].table == t;
      assert (flushed + [f])[k].table == t;
    }
    assert (flushed + [f])[|flushed|] == f;
  }

  lemma PlacedRotated(active: nat, immutable: seq<nat>, worker: Worker, flushed: seq<Flushed>, discarded: set<nat>)
    requires Placed(active, immutable, worker, flushed, discarded)
    ensures Placed(active + 1, immutable + [active], worker, flushed, discarded)
  {
    forall t: nat ensures Places(immutable + [active], worker, flushed, discarded, t) == One(t < active + 1) {
      assert Places(immutable, worker, flushed, discarded, t) == One(t < active);
    }
  }

  lemma PlacedReset(active: nat, immutable: seq<nat>, worker: Worker, flushed: seq<Flushed>, discarded: set<nat>, discarded': set<nat>)
    requires Placed(active, immutable, worker, flushed, discarded)
    requires discarded' == discarded + {active} + TableSet(immutable)
    ensures Placed(active + 1, [], worker, flushed, discarded')
  {
    forall t: nat ensures Places([], worker, flushed, discarded', t) == One(t < active + 1) {
      assert Places(immutable, worker, flushed, discarded, t) == One(t < active);
    }
  }

  lemma PlacedTaken(active: nat, immutable: seq<nat>, x: nat, rest: seq<nat>, flushed: seq<Flushed>, discarded: set<nat>)
    requires Placed(active, immutable, Received(x), flushed, discarded) && rest == Without(immutable, x, |immutable|)
    ensures Placed(active, rest, if x in immutable then Flushing(x) else Finishing(x), flushed, discarded)
  {
    WithoutAll(immutable, x);
    var worker := if x in immutable then Flushing(x) else Finishing(x);
    forall t: nat ensures Places(rest, worker, flushed, discarded, t) == One(t < active) {
      assert Places(immutable, Received(x), flushed, discarded, t) == One(t < active);
    }
  }

  lemma PlacedFlushed(active: nat, immutable: seq<nat>, x: nat, flushed: seq<Flushed>, f: Flushed, discarded: set<nat>)
    requires Placed(active, immutable, Flushing(x), flushed, discarded) && f.table == x
    ensures Placed(active, immutable, Finishing(x), flushed + [f], discarded)
  {
    forall t: nat ensures Places(immutable, Finishing(x), flushed + [f], discarded, t) == One(t < active) {
      SnocFlushed(flushed, f, t);
      assert Places(immutable, Flushing(x), flushed, discarded, t) == One(t < active);
    }
  }

  /** A worker that neither starts nor ends a flush leaves every table where it is. */
  lemma PlacedSame(active: nat, immutable: seq<nat>, worker: Worker, worker': Worker, flushed: seq<Flushed>, discarded: set<nat>)
    requires Placed(active, immutable, worker, flushed, discarded) && !worker.Flushing? && !worker'.Flushing?
    ensures Placed(active, immutable, worker', flushed, discarded)
  {
    forall t: nat ensures Places(immutable, worker', flushed, discarded, t) == One(t < active) {
      assert Places(immutable, worker, flushed, discarded, t) == One(t < active);
    }
  }

  lemma ComingTaken(immutable: seq<nat>, sending: set<nat>, channel: seq<nat>, x: nat, rest: seq<nat>, worker': Worker)
    requires Coming(immutable, sending, channel, Received(x)) && rest == Without(immutable, x, |immutable|)
    ensures Coming(rest, sending, channel, worker')
  {
    WithoutAll(immutable, x);
  }

  lemma ComingReceived(immutable: seq<nat>, sending: set<nat>, channel: seq<nat>)
    requires Coming(immutable, sending, channel, Idle) && channel != []
    ensures Coming(immutable, sending, channel[1..], Received(channel[0]))
  {
    assert channel == [channel[0]] + channel[1..];
  }

  lemma ComingRotated(active: nat, immutable: seq<nat>, sending: set<nat>, channel: seq<nat>, worker: Worker,
                      flushed: seq<Flushed>, discarded: set<nat>)
    requires Placed(active, immutable, worker, flushed, discarded) && Coming(immutable, sending, channel, worker)
    ensures Coming(immutable + [active], sending + {active}, channel, worker)
  {
    assert Places(immutable, worker, flushed, discarded, active) == 0;
  }

  lemma RotateAccounted(cfg: Config, s: State, step: Step)
    requires Accounted(s) && Enabled(cfg, s, step) && Rotates(step)
    ensures Accounted(Apply(cfg, s, step))
  {
    PlacedRotated(Active(s), s.immutable, s.worker, s.flushed, s.discarded);
    ComingRotated(Active(s), s.immutable, s.sending, s.channel, s.worker, s.flushed, s.discarded);
  }

  lemma WorkerAccounted(cfg: Config, s: State, step: Step)
    requires Accounted(s) && Enabled(cfg, s, step) && ByWorker(step)
    ensures Accounted(Apply(cfg, s, step))
  {
    match step
    case Receive =>
      PlacedSame(Active(s), s.immutable, s.worker, Received(s.channel[0]), s.flushed, s.discarded);
      ComingReceived(s.immutable, s.sending, s.channel);
    case Take =>
      if s.immutable == [] {
        return;
      }
      var s' := Apply(cfg, s, step);
      PlacedTaken(Active(s), s.immutable, s.worker.t, s'.immutable, s.flushed, s.discarded);
      ComingTaken(s.immutable, s.sending, s.channel, s.worker.t, s'.immutable, s'.worker);
    case Flush =>
      PlacedFlushed(Active(s), s.immutable, s.worker.t, s.flushed, Flushed(s.worker.t, s.contents[s.worker.t]), s.discarded);
    case Done =>
      PlacedSame(Active(s), s.immutable, s.worker, Idle, s.flushed, s.discarded);
  }

  lemma OtherAccounted(cfg: Config, s: State, step: Step)
    requires Accounted(s) && Enabled(cfg, s, step) && !Rotates(step) && !ByWorker(step)
    ensures Accounted(Apply(cfg, s, step))
  {
    if step.ResetAll? {
      PlacedReset(Active(s), s.immutable, s.worker, s.flushed, s.discarded, Apply(cfg, s, step).discarded);
    }
  }

  lemma StepFlushedWhole(cfg: Config, s: State, step: Step)
    requires Accounted(s) && FlushedWhole(s) && Enabled(cfg, s, step)
    ensures FlushedWhole(Apply(cfg, s, step))
  {
    if step.Flush? {
      var t := s.worker.t;
      assert Places(s.immutable, s.worker, s.flushed, s.discarded, t) == One(t < Active(s));
      assert !IsFlushed(s.flushed, t);
    }
  }

  lemma StepLimited(cfg: Config, s: State, step: Step)
    requires Limited(cfg, s) && Enabled(cfg, s, step)
    ensures Limited(cfg, Apply(cfg, s, step))
  {
    if step.Take? {
      WithoutAll(s.immutable, s.worker.t);
    }
  }

  /** A writer goes to sleep only while an immutable table is on its way to the worker. */
  lemma FullMeansComing(cfg: Config, s: State)
    requires Accounted(s) && cfg.maxTables > 0 && |s.immutable| >= cfg.maxTables
    ensures s.sending != {} || s.channel != [] || s.worker.Received?
  {
    assert s.immutable[0] in s.immutable;
  }

  lemma StepNoLostWakeup(cfg: Config, s: State, step: Step)
    requires Accounted(s) && cfg.maxTables > 0 && NoLostWakeup(s) && Enabled(cfg, s, step)
    ensures NoLostWakeup(Apply(cfg, s, step))
  {
    if |s.immutable| >= cfg.maxTables {
      FullMeansComing(cfg, s);
    }
  }

  lemma StepInv(cfg: Config, s: State, step: Step)
    requires Inv(cfg, s) && Enabled(cfg, s, step)
    ensures Inv(cfg, Apply(cfg, s, step))
  {
    StepPipeline(cfg, s, step);
    StepAccounted(cfg, s, step);
    StepFlushedWhole(cfg, s, step);
    StepLimited(cfg, s, step);
    if cfg.maxTables > 0 {
      StepNoLostWakeup(cfg, s, step);
    }
  }

  lemma StepAccounted(cfg: Config, s: State, step: Step)
    requires Accounted(s) && Enabled(cfg, s, step)
    ensures Accounted(Apply(cfg, s, step))
  {
    if Rotates(step) {
      RotateAccounted(cfg, s, step);
    } else if ByWorker(step) {
      WorkerAccounted(cfg, s, step);
    } else {
      OtherAccounted(cfg, s, step);
    }
  }

  lemma InitialInv(cfg: Config)
    ensures Inv(cfg, INITIAL)
  {
  }

  lemma NextInv(cfg: Config, s: State, step: Step, s': State)
    requires Inv(cfg, s) && Next(cfg, s, step, s')
    ensures Inv(cfg, s')
  {
    StepInv(cfg, s, step);
  }

  /** Over every run, whatever the interleaving. */
  lemma {:induction false} RunInv(cfg: Config, steps: seq<Step>, states: seq<State>, n: nat)
    requires Run(cfg, steps, states) && n <= |steps|
    ensures Inv(cfg, states[n])
  {
    if n == 0 {
      InitialInv(cfg);
    } else {
      RunInv(cfg, steps, states, n - 1);
      NextInv(cfg, states[n - 1], steps[n - 1], states[n]);
    }
  }

  // ------------------------------------------------------------------ entries

  lemma {:induction false} FlatSame(a: seq<seq<Op>>, b: seq<seq<Op>>, n: nat)
    requires n <= |a| && n <= |b| && forall i :: 0 <= i < n ==> a[i] == b[i]
    ensures Flat(a, n) == Flat(b, n)
  {
    if n > 0 {
      FlatSame(a, b, n - 1);
    }
  }

  lemma FlatWritten(contents: seq<seq<Op>>, op: Op, n: nat, contents': seq<seq<Op>>)
    requires |contents| == n + 1 && contents' == contents[n := contents[n] + [op]]
    ensures Flat(contents', n + 1) == Flat(contents, n + 1) + [op]
  {
    FlatSame(contents, contents', n);
    assert Flat(contents, n) + contents[n] + [op] == Flat(contents, n) + (contents[n] + [op]);
  }

  lemma FlatFresh(contents: seq<seq<Op>>, contents': seq<seq<Op>>)
    requires contents' == contents + [[]]
    ensures Flat(contents', |contents'|) == Flat(contents, |contents|)
  {
    FlatSame(contents, contents', |contents|);
    assert contents'[|contents|] == [];
  }

  /** A step writes its operation behind all others, or changes no entry. */
  lemma StepConserves(cfg: Config, s: State, step: Step, s': State)
    requires |s.contents| > 0 && Next(cfg, s, step, s')
    ensures |s'.contents| > 0
    ensures Flat(s'.contents, |s'.contents|)
            == Flat(s.contents, |s.contents|) + if step.Put? || step.Remove? then [step.op] else []
  {
    var all := Flat(s.contents, |s.contents|);
    if step.Put? || step.Remove? {
      FlatWritten(s.contents, step.op, Active(s), s'.contents);
    } else {
      assert all + [] == all;
      if |s'.contents| != |s.contents| {
        FlatFresh(s.contents, s'.contents);
      }
    }
  }

  /** Entries are conserved: the tables, in the order they were made, hold all writes of the run in order. */
  lemma {:induction false} RunConserves(cfg: Config, steps: seq<Step>, states: seq<State>, n: nat)
    requires Run(cfg, steps, states) && n <= |steps|
    ensures var s := states[n]; |s.contents| > 0 && Flat(s.contents, |s.contents|) == Writes(steps, n)
  {
    if n == 0 {
      assert Flat(INITIAL.contents, 1) == Flat(INITIAL.contents, 0) + [];
    } else {
      RunConserves(cfg, steps, states, n - 1);
      StepConserves(cfg, states[n - 1], steps[n - 1], states[n]);
    }
  }

  // ------------------------------------------------------------------ whole runs

  /**
   Every run: all writes are in the tables, in order; every older table is in exactly one of the four
   places; no table is flushed twice, and each flush got all that was written to its table.
   */
  lemma RunSafe(cfg: Config, steps: seq<Step>, states: seq<State>, n: nat)
    requires Run(cfg, steps, states) && n <= |steps|
    ensures var s := states[n];
            && |s.contents| > 0 && Flat(s.contents, |s.contents|) == Writes(steps, n)
            && Placed(Active(s), s.immutable, s.worker, s.flushed, s.discarded) && FlushedWhole(s)
            && |s.immutable| <= cfg.maxTables + One(!s.closer.NotClosing?)
  {
    RunConserves(cfg, steps, states, n);
    RunInv(cfg, steps, states, n);
  }

  lemma NextDiscards(cfg: Config, s: State, step: Step, s': State)
    requires Next(cfg, s, step, s')
    ensures s.discarded <= s'.discarded
    ensures step.ResetAll? ==> forall t: nat :: t == Active(s) || t in s.immutable ==> t in s'.discarded
  {
  }

  lemma {:induction false} DiscardedGrows(cfg: Config, steps: seq<Step>, states: seq<State>, m: nat, n: nat)
    requires Run(cfg, steps, states) && m <= n <= |steps|
    ensures states[m].discarded <= states[n].discarded
    decreases n
  {
    if m < n {
      DiscardedGrows(cfg, steps, states, m, n - 1);
      NextDiscards(cfg, states[n - 1], steps[n - 1], states[n]);
    }
  }

  lemma DiscardedNotFlushed(s: State, t: nat)
    requires Accounted(s) && t in s.discarded
    ensures !IsFlushed(s.flushed, t)
  {
    assert Places(s.immutable, s.worker, s.flushed, s.discarded, t) == One(t < Active(s));
  }

  /** A table that is active or immutable when `ResetAll` runs is never flushed. */
  lemma ResetNeverFlushed(cfg: Config, steps: seq<Step>, states: seq<State>, m: nat, n: nat, t: nat)
    requires Run(cfg, steps, states) && m < n <= |steps| && steps[m].ResetAll? && |states[m].contents| > 0
    requires t == Active(states[m]) || t in states[m].immutable
    ensures !IsFlushed(states[n].flushed, t)
  {
    NextDiscards(cfg, states[m], steps[m], states[m + 1]);
    DiscardedGrows(cfg, steps, states, m + 1, n);
    RunInv(cfg, steps, states, n);
    DiscardedNotFlushed(states[n], t);
  }

  /** Nothing travels any more: what is older is flushed or was discarded by a reset. */
  ghost predicate Settled(s: State) {
    |s.contents| > 0 && forall t: nat :: t < Active(s) ==> IsFlushed(s.flushed, t) || t in s.discarded
  }

  lemma AllSettled(s: State)
    requires Pipeline(s) && Accounted(s) && s.wg == 0
    ensures Settled(s)
  {
    forall t: nat | t < Active(s) ensures IsFlushed(s.flushed, t) || t in s.discarded {
      assert Places(s.immutable, s.worker, s.flushed, s.discarded, t) == 1;
      assert !Queued(s.sending, s.channel, s.worker, t);
    }
  }

  /** When `Close` returns, every older table has been flushed, or was discarded by a reset. */
  lemma CloseWaits(cfg: Config, steps: seq<Step>, states: seq<State>, n: nat)
    requires Run(cfg, steps, states) && n < |steps| && steps[n].CloseReturn?
    ensures Settled(states[n + 1])
  {
    RunInv(cfg, steps, states, n + 1);
    assert Next(cfg, states[n], steps[n], states[n + 1]);
    AllSettled(states[n + 1]);
  }

  /** No writer is between its put and its send. */
  predicate NoWriter(s: State) { s.checking == 0 && s.asleep == 0 && s.awake == 0 }

  /** Only the table of `Close` itself may still have to be sent. */
  ghost predicate OnlyCloser(s: State) {
    && NoWriter(s) && !s.panicked && !s.closer.NotClosing?
    && (forall t :: t in s.sending ==> s.closer == CloseSending(t))
  }

  lemma CloseStarts(cfg: Config, s: State, step: Step, s': State)
    requires Next(cfg, s, step, s') && step.Close? && NoWriter(s) && s.sending == {}
    ensures OnlyCloser(s')
  {
  }

  lemma CloseGoesOn(cfg: Config, s: State, step: Step, s': State)
    requires OnlyCloser(s) && Next(cfg, s, step, s') && !step.Put?
    ensures OnlyCloser(s')
  {
  }

  /** With no writer running, `Close` never makes a send panic on the closed channel. */
  lemma {:induction false} CloseWithoutWriters(cfg: Config, steps: seq<Step>, states: seq<State>, m: nat, n: nat)
    requires Run(cfg, steps, states) && m < n <= |steps| && steps[m].Close?
    requires NoWriter(states[m]) && states[m].sending == {}
    requires forall k :: m <= k < n ==> !steps[k].Put?
    ensures !states[n].panicked && OnlyCloser(states[n])
    decreases n
  {
    if m + 1 < n {
      CloseWithoutWriters(cfg, steps, states, m, n - 1);
      CloseGoesOn(cfg, states[n - 1], steps[n - 1], states[n]);
    } else {
      CloseStarts(cfg, states[m], steps[m], states[n]);
    }
  }

  // ------------------------------------------------------------------ the crash of the worker

  /** The worker will get this table, unless the send finds the channel closed. */
  ghost predicate Arriving(s: State, t: nat) {
    t in s.channel || s.worker == Received(t) || (t in s.sending && !Closed(s))
  }

  /** Every table on its way to the worker is still an immutable one. */
  ghost predicate Wanted(s: State) {
    forall t :: Arriving(s, t) ==> t in s.immutable
  }

  /** Only a reset makes tables on their way unwanted, and a worker that gets a wanted table does not crash. */
  lemma WantedStep(cfg: Config, s: State, step: Step)
    requires Inv(cfg, s) && Wanted(s) && Enabled(cfg, s, step)
    requires step.ResetAll? ==> forall t :: !Arriving(s, t)
    ensures Wanted(Apply(cfg, s, step)) && !Apply(cfg, s, step).crashed
  {
    if ByWorker(step) {
      WantedByWorker(cfg, s, step);
    } else {
      WantedByOthers(cfg, s, step);
    }
  }

  lemma WantedByOthers(cfg: Config, s: State, step: Step)
    requires Inv(cfg, s) && Wanted(s) && Enabled(cfg, s, step) && !ByWorker(step)
    requires step.ResetAll? ==> forall t :: !Arriving(s, t)
    ensures Wanted(Apply(cfg, s, step)) && !Apply(cfg, s, step).crashed
  {
    var s' := Apply(cfg, s, step);
    forall t | Arriving(s', t) ensures t in s'.immutable {
      if step.Send? && t == step.t {
        assert Arriving(s, t);
      } else if Rotates(step) && t == Active(s) {
        RotatesOrNot(cfg, s, step, s');
      } else {
        assert Arriving(s, t);
      }
    }
  }

  lemma WantedByWorker(cfg: Config, s: State, step: Step)
    requires Inv(cfg, s) && Wanted(s) && Enabled(cfg, s, step) && ByWorker(step)
    ensures Wanted(Apply(cfg, s, step)) && !Apply(cfg, s, step).crashed
  {
    if step.Take? {
      assert Arriving(s, s.worker.t);
      WithoutAll(s.immutable, s.worker.t);
      forall t | Arriving(Apply(cfg, s, step), t) ensures t in Without(s.immutable, s.worker.t, |s.immutable|) {
        assert Arriving(s, t);
      }
    } else {
      forall t | Arriving(Apply(cfg, s, step), t) ensures t in s.immutable {
        assert Arriving(s, t);
      }
    }
  }

  lemma WantedNext(cfg: Config, s: State, step: Step, s': State)
    requires Inv(cfg, s) && Wanted(s) && Next(cfg, s, step, s')
    requires step.ResetAll? ==> forall t :: !Arriving(s, t)
    ensures Wanted(s') && !s'.crashed
  {
    WantedStep(cfg, s, step);
  }

  /** A run in which every reset finds no table on its way never crashes. */
  lemma {:induction false} NeverCrashes(cfg: Config, steps: seq<Step>, states: seq<State>, n: nat)
    requires Run(cfg, steps, states) && n <= |steps|
    requires forall m, t :: 0 <= m < n && steps[m].ResetAll? ==> !Arriving(states[m], t)
    ensures Wanted(states[n]) && !states[n].crashed
  {
    if n > 0 {
      NeverCrashes(cfg, steps, states, n - 1);
      RunInv(cfg, steps, states, n - 1);
      WantedNext(cfg, states[n - 1], steps[n - 1], states[n]);
    }
  }

  /** The run goes on from `s` to `s'`. */
  ghost predicate RunsTo(cfg: Config, s: State, steps: seq<Step>, s': State)
    decreases |steps|
  {
    if steps == [] then s == s'
    else Enabled(cfg, s, steps[0]) && RunsTo(cfg, Apply(cfg, s, steps[0]), steps[1..], s')
  }

  lemma RunsOn(cfg: Config, s: State, step: Step, rest: seq<Step>, s': State)
    requires Enabled(cfg, s, step) && RunsTo(cfg, Apply(cfg, s, step), rest, s')
    ensures RunsTo(cfg, s, [step] + rest, s')
  {
    assert ([step] + rest)[1..] == rest;
  }

  /** The process can crash from here without another reset. */
  ghost predicate CanCrash(cfg: Config, s: State) {
    exists steps: seq<Step>, s': State :: RunsTo(cfg, s, steps, s') && s'.crashed && forall k :: 0 <= k < |steps| ==> !steps[k].ResetAll?
  }

  lemma {:induction false} WantedStays(cfg: Config, s: State, steps: seq<Step>, s': State)
    requires Inv(cfg, s) && Wanted(s) && !s.crashed && RunsTo(cfg, s, steps, s')
    requires forall k :: 0 <= k < |steps| ==> !steps[k].ResetAll?
    ensures !s'.crashed
    decreases |steps|
  {
    if steps != [] {
      StepInv(cfg, s, steps[0]);
      WantedStep(cfg, s, steps[0]);
      WantedStays(cfg, Apply(cfg, s, steps[0]), steps[1..], s');
    }
  }

  /** What the worker does next on the way to its next table, if nobody rotates. */
  function TowardsTake(s: State, t: nat): (step: Step) {
    match s.worker
    case Received(_) => Take
    case Flushing(_) => Flush
    case Finishing(_) => Done
    case Idle => if s.channel != [] then Receive else Send(t)
  }

  lemma TowardsTakeStep(cfg: Config, s: State, t: nat) returns (t': nat)
    requires Inv(cfg, s) && cfg.maxTables > 0 && Running(s) && s.immutable == [] && Arriving(s, t)
    ensures Enabled(cfg, s, TowardsTake(s, t))
    ensures var s' := Apply(cfg, s, TowardsTake(s, t));
            s'.crashed || (Running(s') && s'.immutable == [] && Arriving(s', t') && Work(s') < Work(s))
  {
    t' := t;
    if s.worker.Idle? && s.channel != [] {
      t' := s.channel[0];
    }
  }

  /** With no immutable table left, a table on its way leads to the crash. */
  lemma {:induction false} CrashFollows(cfg: Config, s: State, t: nat) returns (steps: seq<Step>, s': State)
    requires Inv(cfg, s) && cfg.maxTables > 0 && Running(s) && s.immutable == [] && Arriving(s, t)
    ensures RunsTo(cfg, s, steps, s') && s'.crashed
    ensures forall k :: 0 <= k < |steps| ==> Internal(steps[k])
    decreases Work(s)
  {
    var step := TowardsTake(s, t);
    var t' := TowardsTakeStep(cfg, s, t);
    var next := Apply(cfg, s, step);
    StepInv(cfg, s, step);
    var rest: seq<Step> := [];
    s' := next;
    if !next.crashed {
      rest, s' := CrashFollows(cfg, next, t');
    }
    steps := [step] + rest;
    RunsOn(cfg, s, step, rest, s');
  }

  /** After a reset the process can crash without another one if and only if the reset found a table on its way to the worker. */
  lemma ResetArmsCrash(cfg: Config, s: State)
    requires Inv(cfg, s) && cfg.maxTables > 0 && Running(s)
    ensures CanCrash(cfg, Apply(cfg, s, ResetAll)) <==> exists t :: Arriving(s, t)
  {
    var s' := Apply(cfg, s, ResetAll);
    StepInv(cfg, s, ResetAll);
    if t :| Arriving(s, t) {
      assert Arriving(s', t);
      var steps, s'' := CrashFollows(cfg, s', t);
      assert RunsTo(cfg, s', steps, s'') && s''.crashed;
    } else {
      assert forall t :: Arriving(s', t) ==> Arriving(s, t);
      if CanCrash(cfg, s') {
        var steps: seq<Step>, s'': State :| RunsTo(cfg, s', steps, s'') && s''.crashed && forall k :: 0 <= k < |steps| ==> !steps[k].ResetAll?;
        WantedStays(cfg, s', steps, s'');
        assert false;
      }
    }
  }

  /** The worker crashes exactly when it looks at its table and there is no immutable one. */
  lemma TakeCrashes(cfg: Config, steps: seq<Step>, states: seq<State>, n: nat)
    requires Run(cfg, steps, states) && n < |steps| && !states[n].crashed
    ensures states[n + 1].crashed <==> steps[n].Take? && states[n].immutable == []
  {
    assert Next(cfg, states[n], steps[n], states[n + 1]);
  }

  /** A writer panics exactly when it sends and the channel is closed. */
  lemma SendPanics(cfg: Config, steps: seq<Step>, states: seq<State>, n: nat)
    requires Run(cfg, steps, states) && n < |steps| && !states[n].panicked
    ensures states[n + 1].panicked <==> steps[n].Send? && (states[n].closer.Waiting? || states[n].closer.Returned?)
  {
    assert Next(cfg, states[n], steps[n], states[n + 1]);
  }

  /** A close that overtakes a writer between its rotation and its send. */
  lemma CloseMeetsSender(cfg: Config, op: Op) returns (steps: seq<Step>, states: seq<State>)
    requires cfg.full([op]) && !cfg.full([]) && cfg.maxTables > 0
    ensures Run(cfg, steps, states) && states[|steps|].panicked
    ensures steps == [Step.Put(op), Rotate, Close, CloseChannel, Send(0)]
  {
    var s;
    steps, states := [], [INITIAL];
    steps, states, s := FillAndRotate(cfg, steps, states, op);
    steps, states, s := Extend(cfg, steps, states, Close);
    steps, states, s := Extend(cfg, steps, states, CloseChannel);
    steps, states, s := Extend(cfg, steps, states, Send(0));
  }

  /** Puts and removes wait for nothing but the lock. */
  lemma WritesGoOn(cfg: Config, s: State, op: Op)
    requires Inv(cfg, s) && Running(s)
    ensures Enabled(cfg, s, Step.Put(op)) && Enabled(cfg, s, Step.Remove(op))
  {
  }

  lemma SentOne(cfg: Config, op: Op) returns (steps: seq<Step>, states: seq<State>, s: State)
    requires cfg.full([op]) && cfg.maxTables > 0
    ensures Run(cfg, steps, states) && s == states[|steps|] && steps == [Step.Put(op), Rotate, Send(0)]
    ensures s == INITIAL.(contents := [[op], []], immutable := [0], wg := 1, channel := [0])
  {
    steps, states := [], [INITIAL];
    assert [] + [op] == [op];
    steps, states, s := Extend(cfg, steps, states, Step.Put(op));
    steps, states, s := Extend(cfg, steps, states, Rotate);
    steps, states, s := Extend(cfg, steps, states, Send(0));
  }

  /** One table filled, rotated and sent, then a reset before the worker looks at it. */
  lemma ResetCrashes(cfg: Config, op: Op) returns (steps: seq<Step>, states: seq<State>)
    requires cfg.full([op]) && cfg.maxTables > 0
    ensures Run(cfg, steps, states) && states[|steps|].crashed
    ensures steps == [Step.Put(op), Rotate, Send(0), ResetAll, Receive, Take]
  {
    var s;
    steps, states, s := SentOne(cfg, op);
    steps, states, s := Extend(cfg, steps, states, ResetAll);
    steps, states, s := Extend(cfg, steps, states, Receive);
    steps, states, s := Extend(cfg, steps, states, Take);
  }

  // ------------------------------------------------------------------ progress

  /** The steps writers and the worker take on their own. */
  predicate Internal(step: Step) { step.Rotate? || step.Rerun? || step.Send? || ByWorker(step) }

  /** All writers are done and every table sent has been dealt with. */
  predicate Quiet(s: State) { NoWriter(s) && s.sending == {} && s.channel == [] && s.worker.Idle? }

  function Stage(w: Worker): nat {
    match w case Idle => 0 case Received(_) => 4 case Flushing(_) => 2 case Finishing(_) => 1
  }

  /** Work left over. */
  function Work(s: State): nat {
    8 * s.checking + 7 * s.awake + 6 * s.asleep + 6 * |s.sending| + 5 * |s.channel| + Stage(s.worker) + One(!s.crashed)
  }

  /** Every internal step is progress, so writers and worker can only take so many of them. */
  lemma InternalProgress(cfg: Config, s: State, step: Step)
    requires Pipeline(s) && Enabled(cfg, s, step) && Internal(step) && (Closed(s) ==> s.sending == {})
    ensures Work(Apply(cfg, s, step)) < Work(s)
  {
    if ByWorker(step) {
      WorkerProgress(cfg, s, step);
    } else {
      WriterProgress(cfg, s, step);
    }
  }

  lemma WorkerProgress(cfg: Config, s: State, step: Step)
    requires Pipeline(s) && Enabled(cfg, s, step) && ByWorker(step)
    ensures Work(Apply(cfg, s, step)) < Work(s)
  {
  }

  lemma WriterProgress(cfg: Config, s: State, step: Step)
    requires Enabled(cfg, s, step) && (step.Rotate? || step.Rerun? || step.Send?) && (Closed(s) ==> s.sending == {})
    ensures Work(Apply(cfg, s, step)) < Work(s)
  {
  }

  /** Unless all is quiet, someone can go on: no writer sleeps for good. */
  lemma NoDeadlock(cfg: Config, s: State) returns (step: Step)
    requires Inv(cfg, s) && cfg.maxTables > 0 && Running(s) && !Quiet(s)
    ensures Enabled(cfg, s, step) && Internal(step)
  {
    match s.worker
    case Received(_) => step := Take;
    case Flushing(_) => step := Flush;
    case Finishing(_) => step := Done;
    case Idle =>
      if s.channel != [] {
        step := Receive;
      } else if s.sending != {} {
        var t :| t in s.sending;
        step := Send(t);
      } else if s.awake > 0 {
        step := Rerun;
      } else {
        step := Rotate;
      }
  }

  /**
   Left alone, writers and worker come to rest with every table sent flushed or dropped, or the worker
   crashes, which it does not if every table on its way is still an immutable one.
   */
  lemma {:induction false} Drains(cfg: Config, s: State) returns (steps: seq<Step>, s': State)
    requires Inv(cfg, s) && cfg.maxTables > 0 && Running(s) && !Closed(s)
    ensures RunsTo(cfg, s, steps, s') && Inv(cfg, s') && |steps| <= Work(s)
    ensures s'.crashed || (Quiet(s') && Settled(s'))
    ensures Wanted(s) ==> !s'.crashed
    ensures forall k :: 0 <= k < |steps| ==> Internal(steps[k])
    decreases Work(s)
  {
    if Quiet(s) {
      steps, s' := [], s;
      AllSettled(s);
    } else {
      var step, next := InternalStep(cfg, s);
      var rest: seq<Step> := [];
      s' := next;
      if !next.crashed {
        rest, s' := Drains(cfg, next);
      }
      steps := [step] + rest;
      RunsOn(cfg, s, step, rest, s');
    }
  }

  lemma InternalStep(cfg: Config, s: State) returns (step: Step, next: State)
    requires Inv(cfg, s) && cfg.maxTables > 0 && Running(s) && !Closed(s) && !Quiet(s)
    ensures Next(cfg, s, step, next) && Internal(step) && Inv(cfg, next) && Work(next) < Work(s)
    ensures !next.panicked && !Closed(next) && (Wanted(s) ==> Wanted(next) && !next.crashed)
  {
    step := NoDeadlock(cfg, s);
    next := Apply(cfg, s, step);
    StepInv(cfg, s, step);
    InternalProgress(cfg, s, step);
    if Wanted(s) {
      WantedStep(cfg, s, step);
    }
  }

  /** How far `Close` still has to go. */
  function Closing(c: Closer): nat {
    match c case NotClosing => 4 case CloseSending(_) => 3 case ReadyToClose => 2 case Waiting => 1 case Returned => 0
  }

  /** The next step of a `Close` that nobody holds up. */
  lemma CloseStep(cfg: Config, s: State) returns (step: Step)
    requires Inv(cfg, s) && cfg.maxTables > 0 && Running(s) && OnlyCloser(s) && Wanted(s) && !(Quiet(s) && s.closer.Returned?)
    ensures Enabled(cfg, s, step) && !step.Put? && !step.ResetAll?
    ensures var s' := Apply(cfg, s, step);
            Work(s') < Work(s) || (Work(s') == Work(s) && Closing(s'.closer) < Closing(s.closer))
  {
    if !Quiet(s) {
      step := NoDeadlock(cfg, s);
      InternalProgress(cfg, s, step);
    } else if s.closer.Waiting? {
      step := CloseReturn;
    } else {
      step := CloseChannel;
    }
  }

  /** With no writer running and every table on its way an immutable one, `Close` returns, and by then every older table is flushed or discarded. */
  lemma {:induction false} CloseCompletes(cfg: Config, s: State) returns (steps: seq<Step>, s': State)
    requires Inv(cfg, s) && cfg.maxTables > 0 && Running(s) && OnlyCloser(s) && Wanted(s)
    ensures RunsTo(cfg, s, steps, s') && s'.closer.Returned? && Running(s') && Settled(s')
    decreases Work(s), Closing(s.closer)
  {
    if Quiet(s) && s.closer.Returned? {
      steps, s' := [], s;
      AllSettled(s);
    } else {
      var step := CloseStep(cfg, s);
      var next := Apply(cfg, s, step);
      StepInv(cfg, s, step);
      WantedStep(cfg, s, step);
      CloseGoesOn(cfg, s, step, next);
      var rest;
      rest, s' := CloseCompletes(cfg, next);
      steps := [step] + rest;
      RunsOn(cfg, s, step, rest, s');
    }
  }

  // ------------------------------------------------------------------ the order of flushes

  /** Tables travel, and are flushed, in the order they were made. */
  ghost predicate InOrder(sending: set<nat>, channel: seq<nat>, worker: Worker, flushed: seq<Flushed>) {
    && (forall i, j :: 0 <= i < j < |flushed| ==> flushed[i].table < flushed[j].table)
    && (forall i, j :: 0 <= i < j < |channel| ==> channel[i] < channel[j])
    && (forall i, t :: 0 <= i < |channel| && t in sending ==> channel[i] < t)
    && (!worker.Idle? ==> (forall i :: 0 <= i < |channel| ==> worker.t < channel[i]) && forall t :: t in sending ==> worker.t < t)
    && (forall k :: 0 <= k < |flushed| ==>
          && (forall i :: 0 <= i < |channel| ==> flushed[k].table < channel[i])
          && (forall t :: t in sending ==> flushed[k].table < t)
          && (worker.Received? || worker.Flushing? ==> flushed[k].table < worker.t)
          && (worker.Finishing? ==> flushed[k].table <= worker.t))
  }

  lemma OrderRotated(active: nat, sending: set<nat>, channel: seq<nat>, worker: Worker, wg: nat, flushed: seq<Flushed>)
    requires InOrder(sending, channel, worker, flushed) && Travels(active, sending, channel, worker, wg) && sending == {}
    requires forall k :: 0 <= k < |flushed| ==> flushed[k].table < active
    ensures InOrder({active}, channel, worker, flushed)
  {
    assert forall i :: 0 <= i < |channel| ==> channel[i] in channel;
  }

  lemma OrderSent(sending: set<nat>, channel: seq<nat>, worker: Worker, flushed: seq<Flushed>, t: nat)
    requires InOrder(sending, channel, worker, flushed) && sending == {t}
    ensures InOrder({}, channel + [t], worker, flushed)
  {
  }

  lemma OrderReceived(sending: set<nat>, channel: seq<nat>, flushed: seq<Flushed>, x: nat, rest: seq<nat>)
    requires InOrder(sending, channel, Idle, flushed) && channel == [x] + rest
    ensures InOrder(sending, rest, Received(x), flushed)
  {
    assert channel[0] == x && forall i :: 0 <= i < |rest| ==> rest[i] == channel[i + 1];
  }

  lemma OrderFlushed(sending: set<nat>, channel: seq<nat>, x: nat, flushed: seq<Flushed>, f: Flushed)
    requires InOrder(sending, channel, Flushing(x), flushed) && f.table == x
    ensures InOrder(sending, channel, Finishing(x), flushed + [f])
  {
  }

  /** The worker moves on with the same table, or is done with it. */
  lemma OrderMoved(sending: set<nat>, channel: seq<nat>, worker: Worker, worker': Worker, flushed: seq<Flushed>)
    requires InOrder(sending, channel, worker, flushed)
    requires worker'.Idle? || (!worker.Idle? && worker'.t == worker.t && (worker'.Finishing? || !worker.Finishing?))
    ensures InOrder(sending, channel, worker', flushed)
  {
  }

  lemma OneElement(sending: set<nat>, t: nat)
    requires |sending| <= 1 && t in sending
    ensures sending == {t}
  {
    assert |sending - {t}| == 0;
  }

  lemma RotateInOrder(cfg: Config, s: State, step: Step, s': State)
    requires Pipeline(s) && FlushedWhole(s) && InOrder(s.sending, s.channel, s.worker, s.flushed)
    requires Next(cfg, s, step, s') && Rotates(step) && |s'.sending| <= 1
    ensures InOrder(s'.sending, s'.channel, s'.worker, s'.flushed)
  {
    RotatesOrNot(cfg, s, step, s');
    if s'.contents != s.contents {
      assert s.sending == {} by {
        OneElement(s'.sending, Active(s));
        assert Active(s) !in s.sending;
      }
      OrderRotated(Active(s), s.sending, s.channel, s.worker, s.wg, s.flushed);
    }
  }

  lemma WorkerInOrder(cfg: Config, s: State, step: Step, s': State)
    requires InOrder(s.sending, s.channel, s.worker, s.flushed) && Next(cfg, s, step, s') && ByWorker(step)
    ensures InOrder(s'.sending, s'.channel, s'.worker, s'.flushed)
  {
    if step.Receive? {
      OrderReceived(s.sending, s.channel, s.flushed, s.channel[0], s.channel[1..]);
    } else if step.Flush? {
      OrderFlushed(s.sending, s.channel, s.worker.t, s.flushed, Flushed(s.worker.t, s.contents[s.worker.t]));
    } else {
      OrderMoved(s.sending, s.channel, s.worker, s'.worker, s.flushed);
    }
  }

  lemma OtherInOrder(cfg: Config, s: State, step: Step, s': State)
    requires InOrder(s.sending, s.channel, s.worker, s.flushed) && Next(cfg, s, step, s')
    requires !Rotates(step) && !ByWorker(step) && |s.sending| <= 1
    ensures InOrder(s'.sending, s'.channel, s'.worker, s'.flushed)
  {
    if step.Send? {
      OneElement(s.sending, step.t);
      OrderSent(s.sending, s.channel, s.worker, s.flushed, step.t);
    }
  }

  lemma OrderStep(cfg: Config, s: State, step: Step, s': State)
    requires Inv(cfg, s) && InOrder(s.sending, s.channel, s.worker, s.flushed) && Next(cfg, s, step, s')
    requires |s.sending| <= 1 && |s'.sending| <= 1
    ensures InOrder(s'.sending, s'.channel, s'.worker, s'.flushed)
  {
    if Rotates(step) {
      RotateInOrder(cfg, s, step, s');
    } else if ByWorker(step) {
      WorkerInOrder(cfg, s, step, s');
    } else {
      OtherInOrder(cfg, s, step, s');
    }
  }

  /** While no two writers send at the same time, tables are flushed in the order they were made. */
  lemma {:induction false} FlushOrder(cfg: Config, steps: seq<Step>, states: seq<State>, n: nat)
    requires Run(cfg, steps, states) && n <= |steps|
    requires forall k :: 0 <= k <= n ==> |states[k].sending| <= 1
    ensures InOrder(states[n].sending, states[n].channel, states[n].worker, states[n].flushed)
  {
    if n > 0 {
      FlushOrder(cfg, steps, states, n - 1);
      RunInv(cfg, steps, states, n - 1);
      OrderStep(cfg, states[n - 1], steps[n - 1], states[n]);
    }
  }

  /** A run goes on by one step. */
  lemma Extend(cfg: Config, steps: seq<Step>, states: seq<State>, step: Step)
    returns (steps': seq<Step>, states': seq<State>, s': State)
    requires Run(cfg, steps, states) && Enabled(cfg, states[|steps|], step)
    ensures Run(cfg, steps', states') && s' == states'[|steps'|] == Apply(cfg, states[|steps|], step)
    ensures steps' == steps + [step]
  {
    s' := Apply(cfg, states[|steps|], step);
    steps', states' := steps + [step], states + [s'];
  }

  /** The worker flushes the table at the head of the channel. */
  lemma FlushHead(cfg: Config, steps: seq<Step>, states: seq<State>)
    returns (steps': seq<Step>, states': seq<State>, s': State)
    requires Run(cfg, steps, states)
    requires var s := states[|steps|];
             && s.worker.Idle? && s.channel != [] && s.channel[0] in s.immutable && s.wg > 0 && s.asleep == 0
             && Running(s) && s.channel[0] < |s.contents|
    ensures Run(cfg, steps', states') && s' == states'[|steps'|]
    ensures var s := states[|steps|];
            s' == s.(channel := s.channel[1..], immutable := Without(s.immutable, s.channel[0], |s.immutable|),
                     wg := s.wg - 1, flushed := s.flushed + [Flushed(s.channel[0], s.contents[s.channel[0]])])
  {
    steps', states', s' := Extend(cfg, steps, states, Receive);
    steps', states', s' := Extend(cfg, steps', states', Take);
    steps', states', s' := Extend(cfg, steps', states', Flush);
    steps', states', s' := Extend(cfg, steps', states', Done);
  }

  /** A writer fills the active table and puts it aside, without sending it yet. */
  lemma FillAndRotate(cfg: Config, steps: seq<Step>, states: seq<State>, op: Op)
    returns (steps': seq<Step>, states': seq<State>, s': State)
    requires Run(cfg, steps, states) && cfg.full([op])
    requires var s := states[|steps|];
             |s.contents| > 0 && s.contents[Active(s)] == [] && s.checking == 0 && Running(s) && |s.immutable| < cfg.maxTables
    ensures Run(cfg, steps', states') && s' == states'[|steps'|] && steps' == steps + [Step.Put(op), Rotate]
    ensures var s := states[|steps|]; s' == Rotated(s.(contents := s.contents[Active(s) := [op]]))
  {
    assert [] + [op] == [op];
    steps', states', s' := Extend(cfg, steps, states, Put(op));
    steps', states', s' := Extend(cfg, steps', states', Rotate);
  }

  lemma WithoutExamples()
    ensures Without([0, 1], 1, 2) == [0]
  {
    assert Without([0, 1], 1, 1) == Without([0, 1], 1, 0) + [0];
  }

  lemma SendSwapped(cfg: Config, op: Op) returns (steps: seq<Step>, states: seq<State>, s: State)
    requires cfg.full([op]) && cfg.maxTables > 1
    ensures Run(cfg, steps, states) && s == states[|steps|]
    ensures s == INITIAL.(contents := [[op], [op], []], immutable := [0, 1], wg := 2, channel := [1, 0])
  {
    steps, states := [], [INITIAL];
    steps, states, s := FillAndRotate(cfg, steps, states, op);
    steps, states, s := FillAndRotate(cfg, steps, states, op);
    steps, states, s := Extend(cfg, steps, states, Send(1));
    steps, states, s := Extend(cfg, steps, states, Send(0));
  }

  /** Two writers that send at the same time can have their tables flushed in the opposite order. */
  lemma OutOfOrder(cfg: Config, op: Op) returns (steps: seq<Step>, states: seq<State>)
    requires cfg.full([op]) && cfg.maxTables > 1
    ensures Run(cfg, steps, states) && states[|steps|].flushed == [Flushed(1, [op]), Flushed(0, [op])]
  {
    var s;
    steps, states, s := SendSwapped(cfg, op);
    WithoutExamples();
    steps, states, s := FlushHead(cfg, steps, states);
    steps, states, s := FlushHead(cfg, steps, states);
  }

  // ------------------------------------------------------------------ the manager

  lemma RotateDone(cfg: Config, s: State, checked: State, s': State)
    requires Inv(cfg, s) && Enabled(cfg, s, Rotate) && checked == s.(checking := s.checking - 1)
    requires s' == if cfg.full(s.contents[Active(s)]) then RotateOrSleep(cfg, checked) else checked
    ensures Inv(cfg, s') && Next(cfg, s, Rotate, s')
  {
    StepInv(cfg, s, Rotate);
  }

  /** The manager's own fields; each method is one stretch of code under its lock. */
  class MemtableManager {
    const cfg: Config
    var tables: seq<seq<Op>>
    var immutable: seq<nat>
    var channel: seq<nat>
    var wg: nat
    var asleep: nat
    var awake: nat
    ghost var rest: State

    /** The state of the protocol; what the manager does not store itself is in `rest`. */
    ghost function Abs(): State
      reads this
    {
      rest.(contents := tables, immutable := immutable, channel := channel, wg := wg, asleep := asleep, awake := awake)
    }

    ghost predicate Valid()
      reads this
    {
      Inv(cfg, Abs())
    }

    constructor (cfg: Config)
      ensures Valid() && Abs() == INITIAL && this.cfg == cfg
    {
      this.cfg := cfg;
      tables, immutable, channel, wg, asleep, awake := [[]], [], [], 0, 0, 0;
      rest := INITIAL;
      new;
      InitialInv(cfg);
    }

    /** `Put` up to the unlock: whether to go on to `rotate`. */
    method Put(op: Op) returns (shouldRotate: bool)
      requires Valid() && Running(Abs())
      modifies this`tables, this`rest
      ensures Valid() && Next(cfg, old(Abs()), Step.Put(op), Abs())
      ensures shouldRotate <==> cfg.full(tables[|tables| - 1])
    {
      StepInv(cfg, Abs(), Step.Put(op));
      var n := |tables| - 1;
      tables := tables[n := tables[n] + [op]];
      shouldRotate := cfg.full(tables[n]);
      rest := rest.(checking := rest.checking + One(shouldRotate));
    }

    /** The tail of `rotate` and of `Close`: put the active table aside. */
    method SetAside() returns (t: nat)
      requires |tables| > 0
      modifies this`tables, this`immutable, this`wg, this`rest
      ensures Abs() == Rotated(old(Abs())) && t == |old(tables)| - 1
    {
      t := |tables| - 1;
      immutable := immutable + [t];
      tables := tables + [[]];
      wg := wg + 1;
      rest := rest.(sending := rest.sending + {t});
    }

    /** `rotate` up to sending: nothing if the table is not full any more, asleep if there are too many. */
    method RotateSection() returns (toSend: seq<nat>)
      requires Valid() && Enabled(cfg, Abs(), Rotate)
      modifies this
      ensures Valid() && Next(cfg, old(Abs()), Rotate, Abs())
      ensures toSend == if cfg.full(old(tables)[|old(tables)| - 1]) && |old(immutable)| < cfg.maxTables then [|old(tables)| - 1] else []
    {
      ghost var s := Abs();
      ghost var checked := s.(checking := s.checking - 1);
      toSend := [];
      rest := rest.(checking := rest.checking - 1);
      assert Abs() == checked;
      if !cfg.full(tables[|tables| - 1]) {
        RotateDone(cfg, s, checked, Abs());
        return;
      }
      if |immutable| >= cfg.maxTables {
        asleep := asleep + 1;
        RotateDone(cfg, s, checked, Abs());
        return;
      }
      var t := SetAside();
      toSend := [t];
      RotateDone(cfg, s, checked, Abs());
    }

    method ContainsImmutable(t: nat) returns (found: bool)
      ensures found <==> t in immutable
    {
      found := false;
      for i := 0 to |immutable|
        invariant t !in immutable[..i]
      {
        if immutable[i] == t {
          return true;
        }
      }
    }

    /** `removeImmutable`: asking for a list of capacity one less than the old one fails when that is empty. */
    method RemoveImmutable(t: nat) returns (ok: bool)
      modifies this`immutable
      ensures ok <==> old(immutable) != []
      ensures immutable == if ok then Without(old(immutable), t, |old(immutable)|) else old(immutable)
    {
      if |immutable| - 1 < 0 {
        return false;
      }
      var newList := [];
      for i := 0 to |immutable|
        invariant newList == Without(immutable, t, i)
      {
        if immutable[i] != t {
          newList := newList + [immutable[i]];
        }
      }
      immutable := newList;
      ok := true;
    }

    /** The worker under the lock: whether to flush the table, which leaves the immutable ones; one writer is woken. */
    method TakeSection(t: nat) returns (ok: bool, shouldFlush: bool)
      requires Valid() && Enabled(cfg, Abs(), Take) && t == Abs().worker.t
      modifies this`immutable, this`asleep, this`awake, this`rest
      ensures Valid() && Next(cfg, old(Abs()), Take, Abs())
      ensures ok <==> !Abs().crashed
      ensures shouldFlush <==> Abs().worker == Flushing(t)
    {
      StepInv(cfg, Abs(), Take);
      shouldFlush := ContainsImmutable(t);
      ok := RemoveImmutable(t);
      if !ok {
        rest := rest.(crashed := true);
        return;
      }
      if asleep > 0 {
        asleep, awake := asleep - 1, awake + 1;
      }
      rest := rest.(worker := if shouldFlush then Flushing(t) else Finishing(t));
    }

    method ResetAll()
      requires Valid() && Running(Abs())
      modifies this`tables, this`immutable, this`rest
      ensures Valid() && Next(cfg, old(Abs()), Step.ResetAll, Abs())
    {
      StepInv(cfg, Abs(), Step.ResetAll);
      rest := rest.(discarded := rest.discarded + {|tables| - 1} + TableSet(immutable));
      tables := tables + [[]];
      immutable := [];
    }
  }
}

/**
 `ForwardRangeDelChecker` (internal/sstable/range_del_iterator.go): range-delete checks for
 keys presented in ascending order, with one fragment iterator per table, a heap of inactive
 iterators by start key, a heap of active ones by end key, and the active iterators listed by
 descending sequence number.

 Whatever order the heaps deliver the iterators in, one call moves each iterator by the same
 small automaton, `StepIter`. The checker is proved to run that automaton, and the automaton
 is proved against coverage.
 */
module RangeDelChecker {
  import opened Keys
  import opened Options
  import opened RangeTombstones

  /** Where one table's fragment iterator stands. */
  datatype IterState = Inactive(pos: nat) | Active(pos: nat) | Done

  /** The first fragment at or after `p` that ends after the key. */
  function SkipEnded(fs: seq<Tombstone>, p: nat, key: Key): (q: nat)
    requires p <= |fs|
    ensures p <= q <= |fs| && (q < |fs| ==> key < fs[q].end)
    ensures forall j :: p <= j < q ==> fs[j].end <= key
    decreases |fs| - p
  {
    if p < |fs| && fs[p].end <= key then SkipEnded(fs, p + 1, key) else p
  }

  function Activate(fs: seq<Tombstone>, p: nat, key: Key): (s: IterState)
    requires p <= |fs|
  {
    var q := SkipEnded(fs, p, key);
    if q < |fs| then Active(q) else Done
  }

  /** `classifyIter` for an iterator that now stands at `p`. */
  function Classify(fs: seq<Tombstone>, p: nat, key: Key): (s: IterState)
    requires p <= |fs|
  {
    if p == |fs| then Done
    else if fs[p].start <= key then Activate(fs, p, key)
    else Inactive(p)
  }

  predicate InRange(fs: seq<Tombstone>, s: IterState) {
    match s
    case Inactive(p) => p < |fs|
    case Active(p) => p < |fs|
    case Done => true
  }

  /** What one `ShouldDelete` call does to one iterator. */
  function StepIter(fs: seq<Tombstone>, s: IterState, key: Key): (s': IterState)
    requires InRange(fs, s)
    ensures InRange(fs, s')
  {
    match s
    case Active(p) => if fs[p].end <= key then Classify(fs, p + 1, key) else s
    case Inactive(p) => if fs[p].start <= key then Activate(fs, p, key) else s
    case Done => Done
  }

  /** Some active fragment is newer than the record. */
  ghost predicate Deletes(frags: seq<seq<Tombstone>>, states: seq<IterState>, seqId: nat) {
    exists i :: 0 <= i < |frags| && i < |states| && states[i].Active? && InRange(frags[i], states[i])
                && frags[i][states[i].pos].seqId > seqId
  }

  ghost predicate AllInRange(frags: seq<seq<Tombstone>>, states: seq<IterState>) {
    |states| == |frags| && forall i :: 0 <= i < |frags| ==> InRange(frags[i], states[i])
  }

  ghost function StepAll(frags: seq<seq<Tombstone>>, states: seq<IterState>, key: Key): (states': seq<IterState>)
    requires AllInRange(frags, states)
    ensures AllInRange(frags, states')
    ensures forall i :: 0 <= i < |frags| ==> states'[i] == StepIter(frags[i], states[i], key)
  {
    seq(|frags|, i requires 0 <= i < |frags| => StepIter(frags[i], states[i], key))
  }

  // ------------------------------------------------------------------ the automaton against coverage

  /** After a call with `key`: passed fragments have ended, waiting ones have not begun. */
  ghost predicate At(fs: seq<Tombstone>, s: IterState, key: Key) {
    && InRange(fs, s)
    && (match s
        case Active(p) => key < fs[p].end && forall j :: 0 <= j < p ==> fs[j].end <= key
        case Inactive(p) => key < fs[p].start && forall j :: 0 <= j < p ==> fs[j].end <= key
        case Done => forall j :: 0 <= j < |fs| ==> fs[j].end <= key)
  }

  function First(fs: seq<Tombstone>): (s: IterState) {
    if |fs| > 0 then Inactive(0) else Done
  }

  /** Where a seek files an iterator: at the first fragment that ends after the key, active if that has begun. */
  function Sought(fs: seq<Tombstone>, key: Key): (s: IterState)
    ensures InRange(fs, s) && At(fs, s, key) && FirstBegun(fs, s, key)
  {
    var q := SkipEnded(fs, 0, key);
    if q == |fs| then Done else if fs[q].start <= key then Active(q) else Inactive(q)
  }

  /** Where an iterator stands before the first call: at its first fragment, or where a seek left it. */
  function Begin(fs: seq<Tombstone>, origin: Option<Key>): (s: IterState)
    ensures InRange(fs, s)
  {
    if origin.None? then First(fs) else Sought(fs, origin.value)
  }

  lemma ActivateIsAt(fs: seq<Tombstone>, p: nat, key: Key)
    requires p <= |fs| && forall j :: 0 <= j < p ==> fs[j].end <= key
    ensures At(fs, Activate(fs, p, key), key)
  {
  }

  lemma ClassifyIsAt(fs: seq<Tombstone>, p: nat, key: Key)
    requires p <= |fs| && forall j :: 0 <= j < p ==> fs[j].end <= key
    ensures At(fs, Classify(fs, p, key), key)
  {
    ActivateIsAt(fs, p, key);
  }

  /** Everything before the iterator's position ended at or before the key. */
  ghost predicate Passed(fs: seq<Tombstone>, s: IterState, key: Key) {
    forall j :: 0 <= j < |fs| && (s.Done? || j < s.pos) ==> fs[j].end <= key
  }

  /** A call keeps the iterator in step with the key, from the start or from any earlier key. */
  lemma StepKeepsAt(fs: seq<Tombstone>, s: IterState, key: Key)
    requires InRange(fs, s) && Passed(fs, s, key)
    ensures At(fs, StepIter(fs, s, key), key)
  {
    match s
    case Active(p) =>
      if fs[p].end <= key {
        ClassifyIsAt(fs, p + 1, key);
      }
    case Inactive(p) =>
      if fs[p].start <= key {
        ActivateIsAt(fs, p, key);
      }
    case Done =>
  }

  /** An iterator in step never misses: a fragment spanning the key is the active one. */
  lemma SpanningIsActive(fs: seq<Tombstone>, s: IterState, key: Key, j: nat)
    requires Fragmented(fs) && At(fs, s, key) && j < |fs| && fs[j].Spans(key)
    ensures s == Active(j)
  {
  }

  /** Fragments without gaps between them. */
  ghost predicate Contiguous(fs: seq<Tombstone>) {
    forall i, j :: 0 <= i && j == i + 1 && j < |fs| ==> fs[i].end == fs[j].start
  }

  /** The keys ascend, from the one that was sought on if there was a seek. */
  ghost predicate Ascending(origin: Option<Key>, keys: seq<Key>) {
    && (forall i, j :: 0 <= i < j < |keys| ==> keys[i] <= keys[j])
    && (origin.Some? ==> forall i :: 0 <= i < |keys| ==> origin.value <= keys[i])
  }

  ghost function BeginAll(frags: seq<seq<Tombstone>>, origin: Option<Key>): (states: seq<IterState>)
    ensures AllInRange(frags, states)
    ensures forall i :: 0 <= i < |frags| ==> states[i] == Begin(frags[i], origin)
  {
    seq(|frags|, i requires 0 <= i < |frags| => Begin(frags[i], origin))
  }

  /** The iterators after a whole sequence of calls. */
  ghost function After(frags: seq<seq<Tombstone>>, origin: Option<Key>, keys: seq<Key>): (states: seq<IterState>)
    ensures AllInRange(frags, states)
  {
    if |keys| == 0 then BeginAll(frags, origin)
    else StepAll(frags, After(frags, origin, keys[..|keys| - 1]), keys[|keys| - 1])
  }

  ghost predicate AllFragmented(frags: seq<seq<Tombstone>>) {
    forall i :: 0 <= i < |frags| ==> Fragmented(frags[i])
  }

  lemma {:induction false} AfterIsAt(frags: seq<seq<Tombstone>>, origin: Option<Key>, keys: seq<Key>, i: nat)
    requires AllFragmented(frags) && Ascending(origin, keys) && |keys| > 0 && i < |frags|
    ensures At(frags[i], After(frags, origin, keys)[i], keys[|keys| - 1])
  {
    var n := |keys| - 1;
    var before := After(frags, origin, keys[..n]);
    if n > 0 {
      AfterIsAt(frags, origin, keys[..n], i);
      assert keys[..n][n - 1] <= keys[n];
    }
    assert Passed(frags[i], before[i], keys[n]);
    StepKeepsAt(frags[i], before[i], keys[n]);
  }

  /** The specification of a check across tables. */
  ghost predicate CoveredByAny(frags: seq<seq<Tombstone>>, key: Key, seqId: nat) {
    exists i :: 0 <= i < |frags| && Covered(frags[i], key, seqId)
  }

  /** For every ascending key sequence, a covered record is never let through. */
  lemma NeverMisses(frags: seq<seq<Tombstone>>, origin: Option<Key>, keys: seq<Key>, seqId: nat)
    requires AllFragmented(frags) && Ascending(origin, keys) && |keys| > 0
    ensures CoveredByAny(frags, keys[|keys| - 1], seqId) ==> Deletes(frags, After(frags, origin, keys), seqId)
  {
    var key := keys[|keys| - 1];
    if CoveredByAny(frags, key, seqId) {
      var i :| 0 <= i < |frags| && Covered(frags[i], key, seqId);
      var f :| f in frags[i] && f.Spans(key) && f.seqId > seqId;
      var j :| 0 <= j < |frags[i]| && frags[i][j] == f;
      AfterIsAt(frags, origin, keys, i);
      SpanningIsActive(frags[i], After(frags, origin, keys)[i], key, j);
    }
  }

  /** The key lies between fragments `j` and `j + 1` of list `i`. */
  ghost predicate InGap(frags: seq<seq<Tombstone>>, i: nat, j: nat, key: Key) {
    i < |frags| && j + 1 < |frags[i]| && frags[i][j].end <= key < frags[i][j + 1].start
  }

  /** Wherever a list has a gap, what its next fragment would hide is hidden by some list. */
  ghost predicate GapsCovered(frags: seq<seq<Tombstone>>) {
    forall i: nat, j: nat, key, seqId: nat ::
      InGap(frags, i, j, key) && seqId < frags[i][j + 1].seqId ==> CoveredByAny(frags, key, seqId)
  }

  lemma ContiguousHasNoGaps(frags: seq<seq<Tombstone>>)
    requires forall i :: 0 <= i < |frags| ==> Contiguous(frags[i])
    ensures GapsCovered(frags)
  {
  }

  /** The first fragment is not activated before it begins. */
  predicate FirstBegun(fs: seq<Tombstone>, s: IterState, key: Key) {
    s == Active(0) && |fs| > 0 ==> fs[0].start <= key
  }

  lemma {:induction false} AfterFirstBegun(frags: seq<seq<Tombstone>>, origin: Option<Key>, keys: seq<Key>, i: nat)
    requires AllFragmented(frags) && Ascending(origin, keys) && |keys| > 0 && i < |frags|
    ensures FirstBegun(frags[i], After(frags, origin, keys)[i], keys[|keys| - 1])
  {
    var n := |keys| - 1;
    if n > 0 {
      AfterFirstBegun(frags, origin, keys[..n], i);
      assert keys[..n][n - 1] <= keys[n];
    } else {
      assert After(frags, origin, keys[..n])[i] == Begin(frags[i], origin);
    }
  }

  /** An active fragment that spans the key, or the next one after a gap around it. */
  lemma ActiveOrGap(frags: seq<seq<Tombstone>>, origin: Option<Key>, keys: seq<Key>, i: nat, p: nat)
    requires AllFragmented(frags) && Ascending(origin, keys) && |keys| > 0 && i < |frags| && After(frags, origin, keys)[i] == Active(p)
    ensures p < |frags[i]| && (frags[i][p].Spans(keys[|keys| - 1]) || (p > 0 && InGap(frags, i, p - 1, keys[|keys| - 1])))
  {
    AfterIsAt(frags, origin, keys, i);
    AfterFirstBegun(frags, origin, keys, i);
  }

  /** With every gap covered the answer is exact, for every ascending key sequence. */
  lemma ExactWhenGapsCovered(frags: seq<seq<Tombstone>>, origin: Option<Key>, keys: seq<Key>, seqId: nat)
    requires AllFragmented(frags) && Ascending(origin, keys) && |keys| > 0 && GapsCovered(frags)
    ensures Deletes(frags, After(frags, origin, keys), seqId) <==> CoveredByAny(frags, keys[|keys| - 1], seqId)
  {
    var key := keys[|keys| - 1];
    var states := After(frags, origin, keys);
    NeverMisses(frags, origin, keys, seqId);
    if Deletes(frags, states, seqId) {
      var i :| 0 <= i < |frags| && states[i].Active? && InRange(frags[i], states[i]) && frags[i][states[i].pos].seqId > seqId;
      var p := states[i].pos;
      ActiveOrGap(frags, origin, keys, i, p);
      var f := frags[i][p];
      if f.Spans(key) {
        assert f in frags[i];
        assert Covered(frags[i], key, seqId);
      } else {
        assert InGap(frags, i, p - 1, key);
      }
    }
  }

  lemma {:induction false} SkipPast(fs: seq<Tombstone>, p: nat, j: nat, key: Key)
    requires Fragmented(fs) && p <= j && j + 1 < |fs| && fs[j].end <= key < fs[j + 1].end
    ensures SkipEnded(fs, p, key) == j + 1
    decreases j - p
  {
    if p < j {
      assert fs[p].end <= fs[j].start < fs[j].end;
      SkipPast(fs, p + 1, j, key);
    }
  }

  /** A first key in a gap activates the fragment behind it, which has not begun. */
  lemma GapActivatesNext(frags: seq<seq<Tombstone>>, i: nat, j: nat, key: Key)
    requires AllFragmented(frags) && InGap(frags, i, j, key)
    ensures After(frags, None, [key])[i] == Active(j + 1)
  {
    var fs := frags[i];
    assert fs[0].start <= key by {
      assert j == 0 || fs[0].end <= fs[j].start;
      assert fs[j].start < fs[j].end;
    }
    assert fs[j + 1].start < fs[j + 1].end;
    SkipPast(fs, 0, j, key);
    assert [key][..0] == [];
    assert After(frags, None, []) == BeginAll(frags, None);
    assert After(frags, None, [key])[i] == StepIter(fs, First(fs), key);
  }

  /** A gap that nothing covers breaks exactness: the key in it is deleted although nothing hides it. */
  lemma GapDeletesUncovered(frags: seq<seq<Tombstone>>, i: nat, j: nat, key: Key, seqId: nat)
    requires AllFragmented(frags) && InGap(frags, i, j, key) && seqId < frags[i][j + 1].seqId && !CoveredByAny(frags, key, seqId)
    ensures Deletes(frags, After(frags, None, [key]), seqId) && !ExactOn(frags, None, [key], seqId)
  {
    GapActivatesNext(frags, i, j, key);
    var states := After(frags, None, [key]);
    assert states[i].Active? && InRange(frags[i], states[i]) && frags[i][states[i].pos].seqId > seqId;
  }

  /** The answer to the last of these calls is what coverage says. */
  ghost predicate ExactOn(frags: seq<seq<Tombstone>>, origin: Option<Key>, keys: seq<Key>, seqId: nat)
    requires |keys| > 0
  {
    Deletes(frags, After(frags, origin, keys), seqId) <==> CoveredByAny(frags, keys[|keys| - 1], seqId)
  }

  ghost predicate AlwaysExact(frags: seq<seq<Tombstone>>) {
    forall origin, keys, seqId: nat :: Ascending(origin, keys) && |keys| > 0 ==> ExactOn(frags, origin, keys, seqId)
  }

  /** For any number of tables: the checker is exact on all key sequences if and only if every gap of every table is covered. */
  lemma ExactIffGapsCovered(frags: seq<seq<Tombstone>>)
    requires AllFragmented(frags)
    ensures AlwaysExact(frags) <==> GapsCovered(frags)
  {
    if GapsCovered(frags) {
      forall origin, keys, seqId: nat | Ascending(origin, keys) && |keys| > 0 ensures ExactOn(frags, origin, keys, seqId) {
        ExactWhenGapsCovered(frags, origin, keys, seqId);
      }
    } else {
      var i: nat, j: nat, key, seqId: nat :| InGap(frags, i, j, key) && seqId < frags[i][j + 1].seqId && !CoveredByAny(frags, key, seqId);
      GapDeletesUncovered(frags, i, j, key, seqId);
      var keys := [key];
      assert Ascending(None, keys) && !ExactOn(frags, None, keys, seqId);
    }
  }

  lemma GapUncovered(fs: seq<Tombstone>, j: nat)
    requires Fragmented(fs) && j + 1 < |fs| && fs[j].end != fs[j + 1].start
    ensures InGap([fs], 0, j, fs[j].end) && !CoveredByAny([fs], fs[j].end, 0)
  {
    var key := fs[j].end;
    forall f | f in fs ensures !f.Spans(key) {
      var k :| 0 <= k < |fs| && fs[k] == f;
      assert k <= j || (k == j + 1 || fs[j + 1].end <= fs[k].start);
      assert k < j ==> fs[k].end <= fs[j].start;
    }
  }

  /** For one table that means: its fragments have no gaps. */
  lemma ExactIffContiguous(fs: seq<Tombstone>)
    requires Fragmented(fs)
    ensures AlwaysExact([fs]) <==> Contiguous(fs)
  {
    ExactIffGapsCovered([fs]);
    if Contiguous(fs) {
      ContiguousHasNoGaps([fs]);
    } else {
      var i, j :| 0 <= i && j == i + 1 && j < |fs| && fs[i].end != fs[j].start;
      GapUncovered(fs, i);
      assert ([fs])[0][i + 1].seqId > 0;
    }
  }

  // ------------------------------------------------------------------ the checker itself

  /** Heap membership and positions, read as an iterator state. */
  ghost function StateOf(active: set<nat>, inactive: set<nat>, pos: seq<nat>, i: nat): (s: IterState)
    requires i < |pos|
  {
    if i in active then Active(pos[i]) else if i in inactive then Inactive(pos[i]) else Done
  }

  /** Each iterator sits in at most one heap, and only while it has a current fragment. */
  ghost predicate HeapsOk(frags: seq<seq<Tombstone>>, active: set<nat>, inactive: set<nat>, pos: seq<nat>) {
    && |pos| == |frags| && active !! inactive
    && forall i :: i in active || i in inactive ==> i < |frags| && pos[i] < |frags[i]|
  }

  ghost function StatesOf(frags: seq<seq<Tombstone>>, active: set<nat>, inactive: set<nat>, pos: seq<nat>): (states: seq<IterState>)
    requires HeapsOk(frags, active, inactive, pos)
    ensures AllInRange(frags, states)
    ensures forall i :: 0 <= i < |frags| ==> states[i] == StateOf(active, inactive, pos, i)
  {
    seq(|frags|, i requires 0 <= i < |frags| => StateOf(active, inactive, pos, i))
  }

  /** Sequence number of an iterator's current fragment; zero when it has none. */
  function CurSeq(frags: seq<seq<Tombstone>>, pos: seq<nat>, i: nat): (s: nat) {
    if i < |frags| && i < |pos| && pos[i] < |frags[i]| then frags[i][pos[i]].seqId else 0
  }

  /** The list holds each member of the set once. */
  ghost predicate Lists(list: seq<nat>, members: set<nat>) {
    && (forall i :: i in list <==> i in members)
    && (forall a, b :: 0 <= a < b < |list| ==> list[a] != list[b])
  }

  ghost predicate Descending(frags: seq<seq<Tombstone>>, pos: seq<nat>, list: seq<nat>) {
    forall a, b :: 0 <= a < b < |list| ==> CurSeq(frags, pos, list[a]) >= CurSeq(frags, pos, list[b])
  }

  /** `FragmentedTombstoneIter.Seek`: binary search for the first fragment that ends after the key. */
  method SeekFragment(fs: seq<Tombstone>, key: Key) returns (q: nat)
    requires Fragmented(fs)
    ensures q == SkipEnded(fs, 0, key)
  {
    var lo, hi := 0, |fs|;
    while lo < hi
      invariant 0 <= lo <= hi <= |fs|
      invariant forall j :: 0 <= j < lo ==> fs[j].end <= key
      invariant hi < |fs| ==> key < fs[hi].end
    {
      var mid := lo + (hi - lo) / 2;
      if fs[mid].end <= key {
        EndsAscend(fs, mid);
        lo := mid + 1;
      } else {
        hi := mid;
      }
    }
    q := lo;
  }

  lemma EndsAscend(fs: seq<Tombstone>, k: nat)
    requires Fragmented(fs) && k < |fs|
    ensures forall j :: 0 <= j <= k ==> fs[j].end <= fs[k].end
  {
  }

  /** The iterators before `n` are where the seek puts them, the others in no heap yet. */
  ghost predicate SoughtTo(frags: seq<seq<Tombstone>>, states: seq<IterState>, key: Key, n: nat) {
    && n <= |frags| == |states|
    && forall i :: 0 <= i < |frags| ==> states[i] == if i < n then Sought(frags[i], key) else Done
  }

  lemma SoughtNext(frags: seq<seq<Tombstone>>, states: seq<IterState>, states': seq<IterState>, key: Key, n: nat)
    requires SoughtTo(frags, states, key, n) && n < |frags| == |states'|
    requires forall i :: 0 <= i < |frags| ==> states'[i] == if i == n then Sought(frags[i], key) else states[i]
    ensures SoughtTo(frags, states', key, n + 1)
  {
  }

  class ForwardRangeDelChecker {
    const frags: seq<seq<Tombstone>>
    var pos: seq<nat>
    var active: set<nat>
    var inactive: set<nat>
    var seqNums: seq<nat>

    ghost predicate Valid()
      reads this
    {
      HeapsOk(frags, active, inactive, pos) && Lists(seqNums, active) && Descending(frags, pos, seqNums)
    }

    ghost function States(): (states: seq<IterState>)
      requires Valid()
      reads this
      ensures AllInRange(frags, states)
    {
      StatesOf(frags, active, inactive, pos)
    }

    /** `NewForwardRangeDelChecker` with `SeekToFirst`: every iterator at its first fragment. */
    constructor (frags: seq<seq<Tombstone>>)
      ensures Valid() && this.frags == frags && States() == After(frags, None, [])
    {
      this.frags := frags;
      pos := seq(|frags|, _ => 0);
      active, inactive, seqNums := {}, {}, [];
      new;
      SeekToFirst();
    }

    method SeekToFirst()
      requires Valid()
      modifies this
      ensures Valid() && States() == After(frags, None, [])
    {
      pos := seq(|frags|, _ => 0);
      active, seqNums := {}, [];
      inactive := set i | 0 <= i < |frags| && |frags[i]| > 0;
    }

    /** One round of `Seek`. */
    method SeekOne(i: nat, key: Key)
      requires Valid() && i < |frags| && Fragmented(frags[i]) && i !in active && i !in inactive
      modifies this
      ensures Valid() && StateOf(active, inactive, pos, i) == Sought(frags[i], key)
      ensures forall j :: 0 <= j < |frags| && j != i ==> StateOf(active, inactive, pos, j) == old(StateOf(active, inactive, pos, j))
    {
      var q := SeekFragment(frags[i], key);
      IdleMove(frags, pos, seqNums, i, q);
      pos := pos[i := q];
      if q == |frags[i]| {
        return;
      }
      if frags[i][q].start <= key {
        PushActive(i);
      } else {
        inactive := inactive + {i};
      }
    }

    /** `Seek`: every iterator to its first fragment that ends after the key, and into the heap where that belongs. */
    method Seek(key: Key)
      requires Valid() && AllFragmented(frags)
      modifies this
      ensures Valid() && States() == After(frags, Some(key), [])
    {
      active, inactive, seqNums := {}, {}, [];
      for i := 0 to |frags|
        invariant Valid() && SoughtTo(frags, States(), key, i)
      {
        ghost var before := States();
        assert before[i] == Done;
        SeekOne(i, key);
        SoughtNext(frags, before, States(), key, i);
      }
    }

    /** The root of the active heap: an active iterator whose fragment ends first. */
    method FirstToEnd() returns (top: nat)
      requires Valid() && active != {}
      ensures top in active && forall j :: j in active ==> frags[top][pos[top]].end <= frags[j][pos[j]].end
    {
      top :| top in active;
      var rest := active - {top};
      while rest != {}
        invariant top in active && rest <= active
        invariant forall j :: j in active && j !in rest ==> frags[top][pos[top]].end <= frags[j][pos[j]].end
        decreases rest
      {
        var j :| j in rest;
        rest := rest - {j};
        if frags[j][pos[j]].end < frags[top][pos[top]].end {
          top := j;
        }
      }
    }

    /** The root of the inactive heap: an inactive iterator whose fragment starts first. */
    method FirstToStart() returns (top: nat)
      requires Valid() && inactive != {}
      ensures top in inactive && forall j :: j in inactive ==> frags[top][pos[top]].start <= frags[j][pos[j]].start
    {
      top :| top in inactive;
      var rest := inactive - {top};
      while rest != {}
        invariant top in inactive && rest <= inactive
        invariant forall j :: j in inactive && j !in rest ==> frags[top][pos[top]].start <= frags[j][pos[j]].start
        decreases rest
      {
        var j :| j in rest;
        rest := rest - {j};
        if frags[j][pos[j]].start < frags[top][pos[top]].start {
          top := j;
        }
      }
    }

    /** `activeSeqSet.Insert` together with the push on the active heap. */
    method PushActive(i: nat)
      requires Valid() && i < |frags| && pos[i] < |frags[i]| && i !in active && i !in inactive
      modifies this`active, this`seqNums
      ensures Valid() && active == old(active) + {i}
    {
      var p := 0;
      while p < |seqNums| && CurSeq(frags, pos, seqNums[p]) > CurSeq(frags, pos, i)
        invariant 0 <= p <= |seqNums|
        invariant forall a :: 0 <= a < p ==> CurSeq(frags, pos, seqNums[a]) > CurSeq(frags, pos, i)
      {
        p := p + 1;
      }
      InsertLists(seqNums, active, i, p);
      InsertKeepsOrder(frags, pos, seqNums, i, p);
      active := active + {i};
      seqNums := seqNums[..p] + [i] + seqNums[p..];
    }

    /** `activeSeqSet.Remove` together with the pop from the active heap. */
    method PopActive(i: nat)
      requires Valid() && i in active
      modifies this`active, this`seqNums
      ensures Valid() && active == old(active) - {i}
    {
      var p := 0;
      while seqNums[p] != i
        invariant 0 <= p < |seqNums|
        invariant forall a :: 0 <= a < p ==> seqNums[a] != i
        decreases |seqNums| - p
      {
        p := p + 1;
      }
      RemoveLists(seqNums, active, p);
      RemoveKeepsOrder(frags, pos, seqNums, p);
      active := active - {i};
      seqNums := seqNums[..p] + seqNums[p + 1..];
    }

    /** Push an idle iterator onto the active heap at its first fragment ending after the key, if any. */
    method ActivateIter(i: nat, key: Key)
      requires Valid() && i < |frags| && pos[i] <= |frags[i]| && i !in active && i !in inactive
      modifies this`pos, this`active, this`seqNums
      ensures Valid() && StateOf(active, inactive, pos, i) == Activate(frags[i], old(pos[i]), key)
      ensures forall j :: 0 <= j < |frags| && j != i ==> StateOf(active, inactive, pos, j) == old(StateOf(active, inactive, pos, j))
    {
      var p := pos[i];
      while p < |frags[i]| && frags[i][p].end <= key
        invariant pos[i] <= p <= |frags[i]|
        invariant SkipEnded(frags[i], p, key) == SkipEnded(frags[i], old(pos[i]), key)
      {
        p := p + 1;
      }
      IdleMove(frags, pos, seqNums, i, p);
      pos := pos[i := p];
      if p < |frags[i]| {
        PushActive(i);
      }
    }

    /** `classifyIter`: file an idle iterator under active, inactive or neither. */
    method ClassifyIter(i: nat, key: Key)
      requires Valid() && i < |frags| && pos[i] <= |frags[i]| && i !in active && i !in inactive
      modifies this
      ensures Valid() && StateOf(active, inactive, pos, i) == Classify(frags[i], old(pos[i]), key)
      ensures forall j :: 0 <= j < |frags| && j != i ==> StateOf(active, inactive, pos, j) == old(StateOf(active, inactive, pos, j))
    {
      if pos[i] == |frags[i]| {
        return;
      }
      if frags[i][pos[i]].start <= key {
        ActivateIter(i, key);
      } else {
        inactive := inactive + {i};
      }
    }

    /** Take one iterator whose fragment has ended off the active heap and file it again. */
    method RetireTop(top: nat, key: Key)
      requires Valid() && top in active && frags[top][pos[top]].end <= key
      modifies this
      ensures Valid()
      ensures States() == old(States())[top := StepIter(frags[top], old(States())[top], key)]
    {
      ghost var before := States();
      PopActive(top);
      IdleMove(frags, pos, seqNums, top, pos[top] + 1);
      pos := pos[top := pos[top] + 1];
      ClassifyIter(top, key);
      forall i | 0 <= i < |frags| ensures States()[i] == if i == top then StepIter(frags[i], before[i], key) else before[i] {
      }
    }

    /** Take one iterator whose fragment has begun off the inactive heap and activate it. */
    method ActivateTop(top: nat, key: Key)
      requires Valid() && top in inactive && frags[top][pos[top]].start <= key
      modifies this
      ensures Valid() && inactive == old(inactive) - {top}
      ensures States() == old(States())[top := StepIter(frags[top], old(States())[top], key)]
    {
      ghost var before := States();
      inactive := inactive - {top};
      ActivateIter(top, key);
      forall i | 0 <= i < |frags| ensures States()[i] == if i == top then StepIter(frags[i], before[i], key) else before[i] {
      }
    }

    /** The first loop of `ShouldDelete`. */
    method RetireEnded(key: Key)
      requires Valid()
      modifies this
      ensures Valid() && Between(frags, old(States()), States(), key)
      ensures forall i :: i in active ==> key < frags[i][pos[i]].end
    {
      ghost var s0 := States();
      while active != {}
        invariant Valid() && Between(frags, s0, States(), key)
        decreases EndedIn(frags, States(), key)
      {
        var top := FirstToEnd();
        if frags[top][pos[top]].end > key {
          return;
        }
        BetweenStep(frags, s0, States(), key, top);
        EndedShrinks(frags, States(), key, top);
        RetireTop(top, key);
      }
    }

    /** The second loop of `ShouldDelete`. */
    method ActivateBegun(key: Key, ghost s0: seq<IterState>)
      requires Valid() && Between(frags, s0, States(), key)
      requires forall i :: i in active ==> key < frags[i][pos[i]].end
      modifies this
      ensures Valid() && States() == StepAll(frags, s0, key)
    {
      while inactive != {}
        invariant Valid() && Between(frags, s0, States(), key)
        invariant forall i :: i in active ==> key < frags[i][pos[i]].end
        decreases inactive
      {
        var top := FirstToStart();
        if frags[top][pos[top]].start > key {
          break;
        }
        BetweenStep(frags, s0, States(), key, top);
        ghost var before := States();
        ActivateTop(top, key);
        forall i | i in active ensures key < frags[i][pos[i]].end {
          assert States()[i] == Active(pos[i]);
          assert i != top ==> before[i] == Active(pos[i]);
        }
      }
      forall i | 0 <= i < |frags| ensures States()[i] == StepIter(frags[i], s0[i], key) {
      }
    }

    /** `ShouldDelete`: move every iterator to the key, then compare with the newest active fragment. */
    method ShouldDelete(key: Key, keySeqId: nat) returns (deleted: bool)
      requires Valid()
      modifies this
      ensures Valid() && States() == StepAll(frags, old(States()), key)
      ensures deleted <==> Deletes(frags, States(), keySeqId)
    {
      ghost var s0 := States();
      RetireEnded(key);
      ActivateBegun(key, s0);
      var newest := if |seqNums| == 0 then 0 else CurSeq(frags, pos, seqNums[0]);
      deleted := newest > keySeqId;
      HeadIsNewest(frags, active, inactive, pos, seqNums, keySeqId);
    }
  }

  /** Moving an iterator that is in no heap does not reorder the active ones. */
  lemma IdleMove(frags: seq<seq<Tombstone>>, pos: seq<nat>, list: seq<nat>, i: nat, p: nat)
    requires Descending(frags, pos, list) && i < |pos| && i !in list
    ensures Descending(frags, pos[i := p], list)
  {
    forall a, b | 0 <= a < b < |list| ensures CurSeq(frags, pos[i := p], list[a]) >= CurSeq(frags, pos[i := p], list[b]) {
      assert list[a] in list && list[b] in list;
    }
  }

  /** During a call each iterator has either not moved yet or made its step. */
  ghost predicate Between(frags: seq<seq<Tombstone>>, s0: seq<IterState>, s: seq<IterState>, key: Key) {
    && AllInRange(frags, s0) && AllInRange(frags, s)
    && forall i :: 0 <= i < |frags| ==> s[i] == s0[i] || s[i] == StepIter(frags[i], s0[i], key)
  }

  /** After its step an iterator has nothing left to do for this key. */
  lemma StepSettles(fs: seq<Tombstone>, s: IterState, key: Key)
    requires InRange(fs, s)
    ensures var t := StepIter(fs, s, key);
            (t.Active? ==> key < fs[t.pos].end) && (t.Inactive? ==> key < fs[t.pos].start)
  {
  }

  /** An iterator that still has to move has not moved yet, so its move is its step. */
  lemma BetweenStep(frags: seq<seq<Tombstone>>, s0: seq<IterState>, s: seq<IterState>, key: Key, top: nat)
    requires Between(frags, s0, s, key) && top < |frags|
    requires (s[top].Active? && frags[top][s[top].pos].end <= key) || (s[top].Inactive? && frags[top][s[top].pos].start <= key)
    ensures Between(frags, s0, s[top := StepIter(frags[top], s[top], key)], key)
  {
    StepSettles(frags[top], s0[top], key);
  }

  /** Active iterators whose fragment has ended. */
  ghost function EndedIn(frags: seq<seq<Tombstone>>, s: seq<IterState>, key: Key): (ended: set<int>)
    requires AllInRange(frags, s)
  {
    set i | 0 <= i < |frags| && s[i].Active? && frags[i][s[i].pos].end <= key
  }

  lemma EndedShrinks(frags: seq<seq<Tombstone>>, s: seq<IterState>, key: Key, top: nat)
    requires AllInRange(frags, s) && top < |frags| && s[top].Active? && frags[top][s[top].pos].end <= key
    ensures AllInRange(frags, s[top := StepIter(frags[top], s[top], key)])
    ensures EndedIn(frags, s[top := StepIter(frags[top], s[top], key)], key) < EndedIn(frags, s, key)
  {
    StepSettles(frags[top], s[top], key);
    assert top in EndedIn(frags, s, key);
    assert top !in EndedIn(frags, s[top := StepIter(frags[top], s[top], key)], key);
  }

  /** The head of `seqNums` is the newest active fragment. */
  lemma HeadIsNewest(frags: seq<seq<Tombstone>>, active: set<nat>, inactive: set<nat>, pos: seq<nat>, seqNums: seq<nat>, seqId: nat)
    requires HeapsOk(frags, active, inactive, pos) && Lists(seqNums, active) && Descending(frags, pos, seqNums)
    ensures Deletes(frags, StatesOf(frags, active, inactive, pos), seqId) <==>
            |seqNums| > 0 && CurSeq(frags, pos, seqNums[0]) > seqId
  {
    var states := StatesOf(frags, active, inactive, pos);
    if |seqNums| > 0 {
      assert seqNums[0] in seqNums;
      assert states[seqNums[0]] == Active(pos[seqNums[0]]);
    }
    if Deletes(frags, states, seqId) {
      var i: nat :| i < |frags| && states[i].Active? && InRange(frags[i], states[i]) && frags[i][states[i].pos].seqId > seqId;
      assert i in active;
      assert i in seqNums;
      var a :| 0 <= a < |seqNums| && seqNums[a] == i;
    }
  }

  lemma InsertMembers(list: seq<nat>, i: nat, p: nat)
    requires p <= |list|
    ensures forall x :: x in list[..p] + [i] + list[p..] <==> x in list || x == i
  {
    assert list == list[..p] + list[p..];
  }

  lemma InsertLists(list: seq<nat>, members: set<nat>, i: nat, p: nat)
    requires Lists(list, members) && i !in members && p <= |list|
    ensures Lists(list[..p] + [i] + list[p..], members + {i})
  {
    var out := list[..p] + [i] + list[p..];
    InsertMembers(list, i, p);
    forall a, b | 0 <= a < b < |out| ensures out[a] != out[b] {
      if a == p {
        assert out[b] == list[b - 1] && list[b - 1] in list;
      } else if b == p {
        assert out[a] == list[a] && list[a] in list;
      } else {
        assert out[a] == list[if a < p then a else a - 1];
        assert out[b] == list[if b < p then b else b - 1];
      }
    }
  }

  lemma InsertKeepsOrder(frags: seq<seq<Tombstone>>, pos: seq<nat>, list: seq<nat>, i: nat, p: nat)
    requires Descending(frags, pos, list) && p <= |list|
    requires forall a :: 0 <= a < p ==> CurSeq(frags, pos, list[a]) > CurSeq(frags, pos, i)
    requires p < |list| ==> CurSeq(frags, pos, list[p]) <= CurSeq(frags, pos, i)
    ensures Descending(frags, pos, list[..p] + [i] + list[p..])
  {
    var out := list[..p] + [i] + list[p..];
    forall a, b | 0 <= a < b < |out| ensures CurSeq(frags, pos, out[a]) >= CurSeq(frags, pos, out[b]) {
      if a == p {
        assert out[b] == list[b - 1];
        assert b == p + 1 || CurSeq(frags, pos, list[p]) >= CurSeq(frags, pos, list[b - 1]);
      } else if b > p {
        assert b == p || out[b] == list[b - 1];
      }
    }
  }

  lemma RemoveLists(list: seq<nat>, members: set<nat>, p: nat)
    requires Lists(list, members) && p < |list|
    ensures Lists(list[..p] + list[p + 1..], members - {list[p]})
  {
    var out := list[..p] + list[p + 1..];
    assert forall a :: 0 <= a < |out| ==> out[a] == if a < p then list[a] else list[a + 1];
    forall x ensures x in out <==> x in list && x != list[p] {
      if x in list && x != list[p] {
        var a :| 0 <= a < |list| && list[a] == x;
        assert out[if a < p then a else a - 1] == x;
      }
    }
  }

  lemma RemoveKeepsOrder(frags: seq<seq<Tombstone>>, pos: seq<nat>, list: seq<nat>, p: nat)
    requires Descending(frags, pos, list) && p < |list|
    ensures Descending(frags, pos, list[..p] + list[p + 1..])
  {
    var out := list[..p] + list[p + 1..];
    assert forall a :: 0 <= a < |out| ==> out[a] == if a < p then list[a] else list[a + 1];
  }

  /** The answer `a` never misses, and is exact when gaps are covered. */
  ghost predicate GoodAnswer(frags: seq<seq<Tombstone>>, key: Key, seqId: nat, a: bool) {
    && (CoveredByAny(frags, key, seqId) ==> a)
    && (GapsCovered(frags) && a ==> CoveredByAny(frags, key, seqId))
  }

  lemma AnswerIsGood(frags: seq<seq<Tombstone>>, origin: Option<Key>, keys: seq<Key>, seqId: nat)
    requires AllFragmented(frags) && Ascending(origin, keys) && |keys| > 0
    ensures GoodAnswer(frags, keys[|keys| - 1], seqId, Deletes(frags, After(frags, origin, keys), seqId))
  {
    NeverMisses(frags, origin, keys, seqId);
    if GapsCovered(frags) {
      ExactWhenGapsCovered(frags, origin, keys, seqId);
    }
  }

  ghost predicate GoodAnswers(frags: seq<seq<Tombstone>>, keys: seq<Key>, seqIds: seq<nat>, answers: seq<bool>)
    requires |answers| <= |keys| == |seqIds|
  {
    forall n :: 0 <= n < |answers| ==> GoodAnswer(frags, keys[n], seqIds[n], answers[n])
  }

  /** The next check of a scan. */
  method CheckNext(checker: ForwardRangeDelChecker, ghost origin: Option<Key>, keys: seq<Key>, seqIds: seq<nat>, answers: seq<bool>)
    returns (out: seq<bool>)
    requires checker.Valid() && AllFragmented(checker.frags) && Ascending(origin, keys) && |answers| < |keys| == |seqIds|
    requires checker.States() == After(checker.frags, origin, keys[..|answers|]) && GoodAnswers(checker.frags, keys, seqIds, answers)
    modifies checker
    ensures checker.Valid() && |out| == |answers| + 1
    ensures checker.States() == After(checker.frags, origin, keys[..|out|]) && GoodAnswers(checker.frags, keys, seqIds, out)
  {
    var n := |answers|;
    var answer := checker.ShouldDelete(keys[n], seqIds[n]);
    NextCall(checker.frags, origin, keys, n, seqIds[n]);
    out := answers + [answer];
  }

  /** A whole scan, after a seek or from the start: every answer, for every ascending key sequence. */
  method CheckKeys(frags: seq<seq<Tombstone>>, origin: Option<Key>, keys: seq<Key>, seqIds: seq<nat>) returns (answers: seq<bool>)
    requires AllFragmented(frags) && Ascending(origin, keys) && |seqIds| == |keys|
    ensures |answers| == |keys| && GoodAnswers(frags, keys, seqIds, answers)
  {
    var checker := new ForwardRangeDelChecker(frags);
    if origin.Some? {
      checker.Seek(origin.value);
    }
    answers := [];
    assert keys[..0] == [];
    while |answers| < |keys|
      invariant fresh(checker) && checker.Valid() && checker.frags == frags && |answers| <= |keys|
      invariant checker.States() == After(frags, origin, keys[..|answers|]) && GoodAnswers(frags, keys, seqIds, answers)
    {
      answers := CheckNext(checker, origin, keys, seqIds, answers);
    }
  }

  lemma NextCall(frags: seq<seq<Tombstone>>, origin: Option<Key>, keys: seq<Key>, n: nat, seqId: nat)
    requires AllFragmented(frags) && Ascending(origin, keys) && n < |keys|
    ensures After(frags, origin, keys[..n + 1]) == StepAll(frags, After(frags, origin, keys[..n]), keys[n])
    ensures GoodAnswer(frags, keys[n], seqId, Deletes(frags, After(frags, origin, keys[..n + 1]), seqId))
  {
    assert keys[..n + 1][..n] == keys[..n];
    AnswerIsGood(frags, origin, keys[..n + 1], seqId);
  }
}

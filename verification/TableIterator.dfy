/**
 The iterator of a scan over many tables (`SSTableMergeIterator`, internal/sstable/iterator.go:460-577): the merged
 stream of their records, filtered by the forward range-delete checker.
 */
module TableIterator {
  import opened Keys
  import opened Options
  import opened Records
  import opened RangeTombstones
  import opened RangeDelChecker
  import opened KWayMerge
  import opened MergeSeek

  /** Whether a newest record is one to show. */
  ghost predicate Shows(frags: seq<seq<Tombstone>>, r: Record) {
    r.op != Del && !CoveredByAny(frags, r.key, r.seqId)
  }

  ghost predicate ShownBefore(stream: seq<Record>, frags: seq<seq<Tombstone>>, n: nat, r: Record)
    requires n <= |stream|
  {
    exists p: nat :: p < n && Head(stream, p) && stream[p] == r && Shows(frags, r)
  }

  /** Up to position `n` the scan gave out `out`: only what is to be shown and, when gaps are covered, all of it. */
  ghost predicate ScannedTo(stream: seq<Record>, frags: seq<seq<Tombstone>>, n: nat, out: seq<Record>)
    requires n <= |stream|
  {
    && (forall i, j :: 0 <= i < j < |out| ==> out[i].key < out[j].key)
    && (forall r :: r in out ==> ShownBefore(stream, frags, n, r))
    && (GapsCovered(frags) ==> forall r :: ShownBefore(stream, frags, n, r) ==> r in out)
  }

  /** From `i` to `j` there are records of one key, and no more behind. */
  ghost predicate Group(stream: seq<Record>, i: nat, j: nat) {
    && i < j <= |stream| && (forall p :: i <= p < j ==> stream[p].key == stream[i].key)
    && (j < |stream| ==> stream[j].key != stream[i].key)
  }

  lemma GroupHeads(stream: seq<Record>, i: nat, j: nat)
    requires Group(stream, i, j)
    ensures forall p :: i < p < j ==> !Head(stream, p)
    ensures j < |stream| ==> Head(stream, j)
  {
    forall p | i < p < j ensures !Head(stream, p) {
      assert stream[p - 1].key == stream[i].key == stream[p].key;
    }
    assert stream[j - 1].key == stream[i].key;
  }

  lemma GroupShown(stream: seq<Record>, frags: seq<seq<Tombstone>>, i: nat, j: nat, r: Record)
    requires Group(stream, i, j)
    ensures ShownBefore(stream, frags, j, r) <==>
            ShownBefore(stream, frags, i, r) || (Head(stream, i) && r == stream[i] && Shows(frags, r))
  {
    GroupHeads(stream, i, j);
    if ShownBefore(stream, frags, j, r) {
      var p: nat :| p < j && Head(stream, p) && stream[p] == r && Shows(frags, r);
      assert p <= i;
    }
  }

  /** A group is skipped: its first record is none to show, or the rest of a group seen before. */
  lemma Skipped(stream: seq<Record>, frags: seq<seq<Tombstone>>, i: nat, j: nat, out: seq<Record>)
    requires Group(stream, i, j) && ScannedTo(stream, frags, i, out)
    requires GapsCovered(frags) && Head(stream, i) ==> !Shows(frags, stream[i])
    ensures ScannedTo(stream, frags, j, out)
  {
    forall r ensures r in out ==> ShownBefore(stream, frags, j, r) {
      GroupShown(stream, frags, i, j, r);
    }
    if GapsCovered(frags) {
      forall r | ShownBefore(stream, frags, j, r) ensures r in out {
        GroupShown(stream, frags, i, j, r);
      }
    }
  }

  /** A group is given out. */
  lemma GivenOut(stream: seq<Record>, frags: seq<seq<Tombstone>>, i: nat, j: nat, out: seq<Record>)
    requires Sorted(stream) && Group(stream, i, j) && Head(stream, i) && ScannedTo(stream, frags, i, out) && Shows(frags, stream[i])
    ensures ScannedTo(stream, frags, j, out + [stream[i]])
  {
    var out' := out + [stream[i]];
    forall r | r in out ensures r.key < stream[i].key {
      assert ShownBefore(stream, frags, i, r);
      var p: nat :| p < i && Head(stream, p) && stream[p] == r && Shows(frags, r);
      SmallerBeforeHead(stream, p, i);
    }
    assert forall k :: 0 <= k < |out| ==> out[k] in out;
    forall r ensures r in out' ==> ShownBefore(stream, frags, j, r) {
      GroupShown(stream, frags, i, j, r);
    }
    if GapsCovered(frags) {
      forall r | ShownBefore(stream, frags, j, r) ensures r in out' {
        GroupShown(stream, frags, i, j, r);
      }
    }
  }

  /** Whether a record lies at or behind where the scan was sought to. */
  predicate From(origin: Option<Key>, r: Record) { origin.Some? ==> origin.value <= r.key }

  /** The keys asked about so far ascend, and no record still to come is below them. */
  ghost predicate Asked(origin: Option<Key>, calls: seq<Key>, stream: seq<Record>, at: nat) {
    && Ascending(origin, calls) && (forall c, p :: 0 <= c < |calls| && at <= p < |stream| ==> calls[c] <= stream[p].key)
    && forall p :: 0 <= p < |stream| ==> From(origin, stream[p])
  }

  lemma AskedLater(origin: Option<Key>, calls: seq<Key>, stream: seq<Record>, at: nat, at': nat)
    requires Asked(origin, calls, stream, at) && at <= at'
    ensures Asked(origin, calls, stream, at')
  {
  }

  lemma AskedNext(origin: Option<Key>, calls: seq<Key>, stream: seq<Record>, at: nat)
    requires Asked(origin, calls, stream, at) && Sorted(stream) && at < |stream|
    ensures Asked(origin, calls + [stream[at].key], stream, at)
  {
    var calls' := calls + [stream[at].key];
    forall p | at <= p < |stream| ensures stream[at].key <= stream[p].key {
      assert at == p || Le(stream[at], stream[p]);
    }
    assert forall c :: 0 <= c < |calls| ==> calls'[c] == calls[c];
  }

  /** The raw iterator is at this place of its stream. */
  ghost predicate Reads(stream: seq<Record>, at: nat, rest: seq<Record>, current: Option<Record>) {
    && Sorted(stream) && at <= |stream| && rest == stream[at..]
    && (current.Some? <==> at < |stream|) && (current.Some? ==> current.value == stream[at])
  }

  lemma ReadsNext(stream: seq<Record>, at: nat, rest: seq<Record>, rest': seq<Record>, current': Option<Record>)
    requires Sorted(stream) && at < |stream| && rest == stream[at..] && rest' == rest[1..]
    requires current' == if rest' == [] then None else Some(rest'[0])
    ensures Reads(stream, at + 1, rest', current')
  {
  }

  /** The checker has been asked these keys. */
  ghost predicate Checks(frags: seq<seq<Tombstone>>, states: seq<IterState>, origin: Option<Key>, calls: seq<Key>, stream: seq<Record>, at: nat) {
    AllFragmented(frags) && states == After(frags, origin, calls) && Asked(origin, calls, stream, at)
  }

  lemma CheckedNext(frags: seq<seq<Tombstone>>, origin: Option<Key>, calls: seq<Key>, stream: seq<Record>, at: nat)
    requires AllFragmented(frags) && Asked(origin, calls, stream, at) && Sorted(stream) && at < |stream|
    ensures var states := StepAll(frags, After(frags, origin, calls), stream[at].key);
            && Checks(frags, states, origin, calls + [stream[at].key], stream, at)
            && GoodAnswer(frags, stream[at].key, stream[at].seqId, Deletes(frags, states, stream[at].seqId))
  {
    AskedNext(origin, calls, stream, at);
    var calls' := calls + [stream[at].key];
    assert calls'[..|calls'| - 1] == calls;
    AnswerIsGood(frags, origin, calls', stream[at].seqId);
  }

  lemma AtFirst(stream: seq<Record>, origin: Option<Key>, current: Option<Record>, frags: seq<seq<Tombstone>>)
    requires Sorted(stream) && current == (if stream == [] then None else Some(stream[0])) && AllFragmented(frags)
    requires forall p :: 0 <= p < |stream| ==> From(origin, stream[p])
    ensures Reads(stream, 0, stream, current) && Checks(frags, After(frags, origin, []), origin, [], stream, 0)
    ensures ScannedTo(stream, frags, 0, [])
  {
  }

  class TableMergeIterator {
    const raw: RawMergeIterator
    const checker: ForwardRangeDelChecker
    var current: Option<Record>
    ghost var stream: seq<Record>
    ghost var at: nat
    ghost var origin: Option<Key>
    ghost var calls: seq<Key>

    ghost predicate Valid()
      reads this`stream, this`at, this`origin, this`calls, raw, raw.heap, checker
    {
      && raw.Valid() && checker.Valid() && Reads(stream, at, raw.Rest(), raw.current)
      && Checks(checker.frags, checker.States(), origin, calls, stream, at)
    }

    /** On a record to show, or at the end. */
    ghost predicate Settled()
      reads this, checker
    {
      && at <= |stream| && (current.Some? <==> at < |stream|)
      && (current.Some? ==> current.value == stream[at] && Head(stream, at) && Shows(checker.frags, stream[at]))
    }

    /** `NewSSTableMergeIterator` over the tables' records and every table's fragments. */
    constructor (streams: seq<seq<Record>>, frags: seq<seq<Tombstone>>)
      requires AllSorted(streams) && OnePerVersion(Remaining(streams, Start(streams))) && AllFragmented(frags)
      ensures Valid() && Settled() && fresh(raw) && fresh(raw.heap) && fresh(checker)
      ensures raw.heap.streams == streams && checker.frags == frags
      ensures stream == Restarted(streams, Start(streams), None) && ScannedTo(stream, frags, at, [])
    {
      raw := new RawMergeIterator(streams);
      checker := new ForwardRangeDelChecker(frags);
      current := None;
      new;
      BroughtStart(streams);
      Begin(None, Start(streams));
      Advance(None, []);
    }

    /** On to the next record of the merged stream. */
    method Step()
      requires Valid() && at < |stream|
      modifies this`at, raw, raw.heap
      ensures Valid() && at == old(at) + 1
    {
      ghost var rest := raw.Rest();
      raw.Next();
      ReadsNext(stream, at, rest, raw.Rest(), raw.current);
      AskedLater(origin, calls, stream, at, at + 1);
      at := at + 1;
    }

    method SkipCurrentKey()
      requires Valid()
      modifies this`at, raw, raw.heap
      ensures Valid() && (if old(at) == |stream| then at == old(at) else Group(stream, old(at), at))
    {
      if raw.current.None? {
        return;
      }
      var currentKey := raw.current.value.key;
      while raw.current.Some? && raw.current.value.key == currentKey
        invariant Valid() && old(at) <= at && (at == old(at) ==> stream[at].key == currentKey)
        invariant forall p :: old(at) <= p < at ==> stream[p].key == currentKey
        decreases |stream| - at
      {
        Step();
      }
    }

    /** The checker is asked about the record at hand. */
    method Ask() returns (deleted: bool)
      requires Valid() && at < |stream|
      modifies this`calls, checker
      ensures Valid() && GoodAnswer(checker.frags, stream[at].key, stream[at].seqId, deleted)
    {
      deleted := checker.ShouldDelete(raw.current.value.key, raw.current.value.seqId);
      CheckedNext(checker.frags, origin, calls, stream, at);
      calls := calls + [stream[at].key];
    }

    /** Whether the record at hand is skipped: the rest of a key, a delete, or covered. */
    method ToSkip(prevKey: Option<Key>) returns (skip: bool)
      requires Valid() && at < |stream| && (Head(stream, at) <==> prevKey != Some(stream[at].key))
      modifies this`calls, checker
      ensures Valid()
      ensures skip && GapsCovered(checker.frags) && Head(stream, at) ==> !Shows(checker.frags, stream[at])
      ensures !skip ==> Head(stream, at) && Shows(checker.frags, stream[at])
    {
      if prevKey == Some(raw.current.value.key) {
        return true;
      }
      if raw.current.value.op == Del {
        return true;
      }
      skip := Ask();
    }

    /** `advance`: on to the next record to show. */
    method Advance(prevKey0: Option<Key>, ghost out: seq<Record>)
      requires Valid() && ScannedTo(stream, checker.frags, at, out)
      requires at < |stream| ==> (Head(stream, at) <==> prevKey0 != Some(stream[at].key))
      modifies this`current, this`at, this`calls, raw, raw.heap, checker
      ensures Valid() && Settled() && old(at) <= at && ScannedTo(stream, checker.frags, at, out)
    {
      var found := FindNext(prevKey0, out);
      current := raw.current;
    }

    /** Its loop. */
    method FindNext(prevKey0: Option<Key>, ghost out: seq<Record>) returns (found: bool)
      requires Valid() && ScannedTo(stream, checker.frags, at, out)
      requires at < |stream| ==> (Head(stream, at) <==> prevKey0 != Some(stream[at].key))
      modifies this`at, this`calls, raw, raw.heap, checker
      ensures Valid() && old(at) <= at && ScannedTo(stream, checker.frags, at, out)
      ensures if found then at < |stream| && Head(stream, at) && Shows(checker.frags, stream[at]) else at == |stream|
      ensures raw.current == if found then Some(stream[at]) else None
    {
      var prevKey := prevKey0;
      found := false;
      while !found && raw.current.Some?
        invariant Valid() && old(at) <= at && ScannedTo(stream, checker.frags, at, out)
        invariant found ==> at < |stream| && Head(stream, at) && Shows(checker.frags, stream[at])
        invariant !found && at < |stream| ==> (Head(stream, at) <==> prevKey != Some(stream[at].key))
        decreases !found, |stream| - at
      {
        found, prevKey := Round(prevKey, out);
      }
    }

    /** One round of its loop: whether the record at hand is one to show, or else past its key. */
    method Round(prevKey0: Option<Key>, ghost out: seq<Record>) returns (found: bool, prevKey: Option<Key>)
      requires Valid() && at < |stream| && ScannedTo(stream, checker.frags, at, out)
      requires Head(stream, at) <==> prevKey0 != Some(stream[at].key)
      modifies this`at, this`calls, raw, raw.heap, checker
      ensures Valid() && ScannedTo(stream, checker.frags, at, out)
      ensures if found then at == old(at) && Head(stream, at) && Shows(checker.frags, stream[at]) else old(at) < at
      ensures !found && at < |stream| ==> (Head(stream, at) <==> prevKey != Some(stream[at].key))
    {
      var skip := ToSkip(prevKey0);
      if !skip {
        return true, prevKey0;
      }
      found := false;
      prevKey := PassBy(out);
    }

    /** The key at hand is passed by. */
    method PassBy(ghost out: seq<Record>) returns (prevKey: Option<Key>)
      requires Valid() && at < |stream| && ScannedTo(stream, checker.frags, at, out)
      requires GapsCovered(checker.frags) && Head(stream, at) ==> !Shows(checker.frags, stream[at])
      modifies this`at, raw, raw.heap
      ensures Valid() && old(at) < at && ScannedTo(stream, checker.frags, at, out)
      ensures at < |stream| ==> Head(stream, at) && prevKey != Some(stream[at].key)
    {
      ghost var i := at;
      prevKey := Some(raw.current.value.key);
      SkipCurrentKey();
      GroupHeads(stream, i, at);
      Skipped(stream, checker.frags, i, at, out);
    }

    /** `Next`: the current record has been given out. */
    method Next(ghost out: seq<Record>)
      requires Valid() && Settled() && current.Some? && ScannedTo(stream, checker.frags, at, out)
      modifies this`current, this`at, this`calls, raw, raw.heap, checker
      ensures Valid() && Settled() && at > old(at)
      ensures ScannedTo(stream, checker.frags, at, out + [old(current.value)])
    {
      ghost var i := at;
      var prevKey := current.value.key;
      SkipCurrentKey();
      GroupHeads(stream, i, at);
      GivenOut(stream, checker.frags, i, at, out);
      Advance(Some(prevKey), out + [stream[i]]);
    }

    /** `SeekToFirst`. */
    method SeekToFirst()
      requires Valid()
      modifies this, raw, raw.heap, checker
      ensures Valid() && Settled() && ScannedTo(stream, checker.frags, at, [])
      ensures stream == Restarted(raw.heap.streams, old(raw.heap.pos), None)
    {
      raw.SeekToFirst();
      checker.SeekToFirst();
      Begin(None, old(raw.heap.pos));
      Advance(None, []);
    }

    /** `Seek`. */
    method Seek(target: Key)
      requires Valid()
      modifies this, raw, raw.heap, checker
      ensures Valid() && Settled() && ScannedTo(stream, checker.frags, at, [])
      ensures stream == Restarted(raw.heap.streams, old(raw.heap.pos), Some(target))
    {
      raw.Seek(target);
      checker.Seek(target);
      Begin(Some(target), old(raw.heap.pos));
      Advance(None, []);
    }

    /** In both, the stream that begins here. */
    ghost method Begin(from: Option<Key>, pos: seq<nat>)
      requires raw.Valid() && Positions(raw.heap.streams, pos)
      requires raw.heap.pos == Brought(raw.heap.streams, pos, SentTo(raw.heap.streams, from))
      requires AllFragmented(checker.frags) && checker.Valid() && checker.States() == After(checker.frags, from, [])
      modifies this`stream, this`at, this`origin, this`calls
      ensures Valid() && at == 0 && ScannedTo(stream, checker.frags, at, [])
      ensures stream == Restarted(raw.heap.streams, pos, from)
    {
      RestartedFrom(raw.heap.streams, pos, from);
      stream, at, origin, calls := raw.Rest(), 0, from, [];
      AtFirst(stream, from, raw.current, checker.frags);
    }
  }

  /** Where the inputs are sent. */
  function SentTo(streams: seq<seq<Record>>, origin: Option<Key>): (to: seq<nat>)
    ensures Positions(streams, to)
  {
    if origin.None? then Start(streams) else SoughtAll(streams, origin.value)
  }

  /** The stream after a seek at these positions. */
  ghost function Restarted(streams: seq<seq<Record>>, pos: seq<nat>, origin: Option<Key>): seq<Record>
    requires Positions(streams, pos)
  {
    Merged(streams, Brought(streams, pos, SentTo(streams, origin)))
  }

  lemma BroughtStart(streams: seq<seq<Record>>)
    ensures Brought(streams, Start(streams), SentTo(streams, None)) == Start(streams)
  {
  }

  lemma SentRest(s: seq<Record>, origin: Option<Key>, to: nat, r: Record)
    requires Sorted(s) && to == (if origin.None? then 0 else SeekPos(s, origin.value))
    ensures to <= |s| && (r in s[to..] <==> r in s && From(origin, r))
  {
    assert s == s[..to] + s[to..];
    forall k | to <= k < |s| ensures From(origin, s[k]) {
      assert k == to || Le(s[to], s[k]);
    }
  }

  /** It is made of the records from the target on of the inputs that were not exhausted. */
  lemma RestartedHas(streams: seq<seq<Record>>, pos: seq<nat>, origin: Option<Key>, r: Record)
    requires Positions(streams, pos) && AllSorted(streams)
    ensures r in Restarted(streams, pos, origin) <==>
            From(origin, r) && exists i :: 0 <= i < |streams| && pos[i] < |streams[i]| && r in streams[i]
  {
    var to := SentTo(streams, origin);
    var brought := Brought(streams, pos, to);
    MergedIs(streams, brought);
    InRemaining(streams, brought, r);
    assert r in Restarted(streams, pos, origin) <==> r in multiset(Restarted(streams, pos, origin));
    forall i | 0 <= i < |streams|
      ensures r in streams[i][brought[i]..] <==> pos[i] < |streams[i]| && r in streams[i] && From(origin, r)
    {
      SentRest(streams[i], origin, to[i], r);
    }
  }

  lemma RestartedFrom(streams: seq<seq<Record>>, pos: seq<nat>, origin: Option<Key>)
    requires Positions(streams, pos) && AllSorted(streams)
    ensures Sorted(Restarted(streams, pos, origin))
    ensures forall p :: 0 <= p < |Restarted(streams, pos, origin)| ==> From(origin, Restarted(streams, pos, origin)[p])
  {
    var stream := Restarted(streams, pos, origin);
    MergedIs(streams, Brought(streams, pos, SentTo(streams, origin)));
    forall p | 0 <= p < |stream| ensures From(origin, stream[p]) {
      RestartedHas(streams, pos, origin, stream[p]);
    }
  }

  /** Reading an iterator to its end. */
  method Drain(it: TableMergeIterator) returns (out: seq<Record>)
    requires it.Valid() && it.Settled() && ScannedTo(it.stream, it.checker.frags, it.at, [])
    modifies it`current, it`at, it`calls, it.raw, it.raw.heap, it.checker
    ensures it.Valid() && it.at == |it.stream| && ScannedTo(it.stream, it.checker.frags, |it.stream|, out)
  {
    out := [];
    while it.current.Some?
      invariant it.Valid() && it.Settled() && ScannedTo(it.stream, it.checker.frags, it.at, out)
      decreases |it.stream| - it.at
    {
      var r := it.current.value;
      it.Next(out);
      out := out + [r];
    }
  }
}

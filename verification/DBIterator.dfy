/**
 `DBIterator` and `RangeIterator` (internal/iterator): the merged view of a memtable stream
 and a table stream, both sorted by key ascending and sequence number descending.
 */
module DBIterator {
  import opened Keys
  import opened Records

  datatype Entry = Entry(key: Key, value: Bytes, op: OpType, seqId: nat)

  /** `compareEntries`: newer entries of the same key come first. */
  function CompareEntries(a: Entry, b: Entry): (c: int)
    ensures -1 <= c <= 1
    ensures c < 0 <==> a.key < b.key || (a.key == b.key && a.seqId > b.seqId)
    ensures c == 0 <==> a.key == b.key && a.seqId == b.seqId
  {
    if a.key < b.key then -1
    else if a.key > b.key then 1
    else if a.seqId > b.seqId then -1
    else if a.seqId < b.seqId then 1
    else 0
  }

  predicate Before(a: Entry, b: Entry) {
    a.key < b.key || (a.key == b.key && a.seqId >= b.seqId)
  }

  ghost predicate SortedEntries(s: seq<Entry>) {
    forall i, j :: 0 <= i < j < |s| ==> Before(s[i], s[j])
  }

  /** `skipKey` on one stream. */
  function SkipKey(s: seq<Entry>, key: Key): (rest: seq<Entry>)
    ensures |rest| <= |s| && (|s| > 0 && s[0].key == key ==> |rest| < |s|)
  {
    if |s| > 0 && s[0].key == key then SkipKey(s[1..], key) else s
  }

  /** The entry `selectWinner` picks. */
  function WinnerOf(mem: seq<Entry>, table: seq<Entry>): (e: Entry)
    requires |mem| > 0 || |table| > 0
  {
    if |table| == 0 then mem[0]
    else if |mem| == 0 then table[0]
    else if CompareEntries(mem[0], table[0]) <= 0 then mem[0]
    else table[0]
  }

  predicate Hidden(e: Entry, covered: (Key, nat) -> bool) {
    e.op == Del || covered(e.key, e.seqId)
  }

  /** What the caller sees of an entry. */
  function Shown(e: Entry): Entry { e.(op := Put) }

  /** Everything the iterator yields from two positions on. */
  ghost function Yield(mem: seq<Entry>, table: seq<Entry>, covered: (Key, nat) -> bool): (out: seq<Entry>)
    decreases |mem| + |table|
  {
    if |mem| == 0 && |table| == 0 then []
    else
      var e := WinnerOf(mem, table);
      var rest := Yield(SkipKey(mem, e.key), SkipKey(table, e.key), covered);
      if Hidden(e, covered) then rest else [Shown(e)] + rest
  }

  lemma YieldUnfold(mem: seq<Entry>, table: seq<Entry>, covered: (Key, nat) -> bool)
    requires |mem| > 0 || |table| > 0
    ensures var e := WinnerOf(mem, table);
            var mem', table' := SkipKey(mem, e.key), SkipKey(table, e.key);
            && Yield(mem, table, covered)
               == (if Hidden(e, covered) then [] else [Shown(e)]) + Yield(mem', table', covered)
            && |mem'| + |table'| < |mem| + |table|
  {
  }

  // ------------------------------------------------------------------ what is yielded

  ghost predicate In(e: Entry, mem: seq<Entry>, table: seq<Entry>) {
    e in mem || e in table
  }

  /** No entry of the same key in either stream is newer. */
  ghost predicate Newest(e: Entry, mem: seq<Entry>, table: seq<Entry>) {
    In(e, mem, table) && forall x :: In(x, mem, table) && x.key == e.key ==> x.seqId <= e.seqId
  }

  /** The newest entry of its key; of two with one sequence number the memtable's. */
  ghost predicate Leads(e: Entry, mem: seq<Entry>, table: seq<Entry>) {
    Newest(e, mem, table) && (e in mem || forall x :: x in mem && x.key == e.key ==> x.seqId < e.seqId)
  }

  ghost predicate AllAtLeast(s: seq<Entry>, key: Key) {
    forall i :: 0 <= i < |s| ==> s[i].key >= key
  }

  lemma {:induction false} SkipKeyMembers(s: seq<Entry>, key: Key)
    requires SortedEntries(s) && AllAtLeast(s, key)
    ensures SortedEntries(SkipKey(s, key))
    ensures forall e :: e in SkipKey(s, key) <==> e in s && e.key != key
    ensures forall e :: e in SkipKey(s, key) ==> e.key > key
  {
    if |s| > 0 && s[0].key == key {
      SkipKeyMembers(s[1..], key);
      assert s == [s[0]] + s[1..];
    } else {
      forall e | e in s ensures e.key > key {
        var i :| 0 <= i < |s| && s[i] == e;
        assert i == 0 || Before(s[0], s[i]);
      }
    }
  }

  /** The winner's key is the smallest left, and no entry of it is newer. */
  lemma WinnerLeads(mem: seq<Entry>, table: seq<Entry>)
    requires SortedEntries(mem) && SortedEntries(table) && (|mem| > 0 || |table| > 0)
    ensures var e := WinnerOf(mem, table); AllAtLeast(mem, e.key) && AllAtLeast(table, e.key) && Newest(e, mem, table)
    ensures Leads(WinnerOf(mem, table), mem, table)
  {
    var e := WinnerOf(mem, table);
    forall i | 0 <= i < |mem| ensures Before(e, mem[i]) {
      assert i == 0 || Before(mem[0], mem[i]);
    }
    forall i | 0 <= i < |table| ensures Before(e, table[i]) {
      assert i == 0 || Before(table[0], table[i]);
    }
  }

  /** Skipping a key removes exactly its entries from both streams. */
  lemma SkipBoth(mem: seq<Entry>, table: seq<Entry>, key: Key)
    requires SortedEntries(mem) && SortedEntries(table) && AllAtLeast(mem, key) && AllAtLeast(table, key)
    ensures SortedEntries(SkipKey(mem, key)) && SortedEntries(SkipKey(table, key))
    ensures forall x :: In(x, SkipKey(mem, key), SkipKey(table, key)) <==> In(x, mem, table) && x.key != key
    ensures forall x :: In(x, SkipKey(mem, key), SkipKey(table, key)) ==> x.key > key
  {
    SkipKeyMembers(mem, key);
    SkipKeyMembers(table, key);
  }

  ghost predicate IncreasingKeys(s: seq<Entry>) {
    forall i, j :: 0 <= i < j < |s| ==> s[i].key < s[j].key
  }

  /** `y` shows the newest entry of its key, which is neither a delete nor covered. */
  ghost predicate ShowsNewest(y: Entry, mem: seq<Entry>, table: seq<Entry>, covered: (Key, nat) -> bool) {
    exists e :: Leads(e, mem, table) && e.op != Del && !covered(e.key, e.seqId) && y == Entry(e.key, e.value, Put, e.seqId)
  }

  /** What is newest once a smaller key has been skipped was newest before. */
  lemma ShowsAfterSkip(y: Entry, mem: seq<Entry>, table: seq<Entry>, covered: (Key, nat) -> bool, key: Key)
    requires SortedEntries(mem) && SortedEntries(table) && AllAtLeast(mem, key) && AllAtLeast(table, key)
    requires ShowsNewest(y, SkipKey(mem, key), SkipKey(table, key), covered)
    ensures ShowsNewest(y, mem, table, covered) && y.key > key
  {
    var mem', table' := SkipKey(mem, key), SkipKey(table, key);
    SkipBoth(mem, table, key);
    var x :| Leads(x, mem', table') && x.op != Del && !covered(x.key, x.seqId) && y == Entry(x.key, x.value, Put, x.seqId);
    SkipKeyMembers(mem, key);
    assert Leads(x, mem, table);
  }

  lemma PrependSmaller(e: Entry, rest: seq<Entry>)
    requires IncreasingKeys(rest) && forall y :: y in rest ==> y.key > e.key
    ensures IncreasingKeys([e] + rest)
  {
    assert forall i :: 0 <= i < |rest| ==> rest[i] in rest;
  }

  /** Keys come out strictly increasing, each with its newest entry. */
  lemma {:induction false} YieldSound(mem: seq<Entry>, table: seq<Entry>, covered: (Key, nat) -> bool)
    requires SortedEntries(mem) && SortedEntries(table)
    ensures IncreasingKeys(Yield(mem, table, covered))
    ensures forall y :: y in Yield(mem, table, covered) ==> ShowsNewest(y, mem, table, covered)
    decreases |mem| + |table|
  {
    if |mem| > 0 || |table| > 0 {
      var e := WinnerOf(mem, table);
      WinnerLeads(mem, table);
      var rest := Yield(SkipKey(mem, e.key), SkipKey(table, e.key), covered);
      assert SortedEntries(SkipKey(mem, e.key)) && SortedEntries(SkipKey(table, e.key)) by {
        SkipBoth(mem, table, e.key);
      }
      YieldSound(SkipKey(mem, e.key), SkipKey(table, e.key), covered);
      assert !Hidden(e, covered) ==> ShowsNewest(Shown(e), mem, table, covered);
      forall y | y in rest ensures ShowsNewest(y, mem, table, covered) && y.key > e.key {
        ShowsAfterSkip(y, mem, table, covered, e.key);
      }
      PrependSmaller(Shown(e), rest);
    }
  }

  /** Every key whose newest entry is visible comes out. */
  lemma {:induction false} YieldComplete(mem: seq<Entry>, table: seq<Entry>, covered: (Key, nat) -> bool, e: Entry)
    requires SortedEntries(mem) && SortedEntries(table)
    requires Newest(e, mem, table)
    requires forall x :: In(x, mem, table) && x.key == e.key && x.seqId == e.seqId ==> x.op != Del && !covered(x.key, x.seqId)
    ensures exists y :: y in Yield(mem, table, covered) && y.key == e.key && y.seqId == e.seqId
    decreases |mem| + |table|
  {
    var w := WinnerOf(mem, table);
    WinnerLeads(mem, table);
    var mem', table' := SkipKey(mem, w.key), SkipKey(table, w.key);
    var rest := Yield(mem', table', covered);
    if e.key == w.key {
      assert In(w, mem, table) && w.seqId == e.seqId;
      assert ([Shown(w)] + rest)[0] == Shown(w);
      assert Shown(w) in Yield(mem, table, covered);
    } else {
      SkipBoth(mem, table, w.key);
      assert Newest(e, mem', table');
      YieldComplete(mem', table', covered, e);
      var y :| y in rest && y.key == e.key && y.seqId == e.seqId;
      assert y in Yield(mem, table, covered);
    }
  }

  ghost predicate DistinctEntries(mem: seq<Entry>, table: seq<Entry>) {
    forall a, b :: In(a, mem, table) && In(b, mem, table) && a.key == b.key && a.seqId == b.seqId ==> a == b
  }

  /** With distinct versions: exactly the newest entries that are neither deletes nor covered. */
  lemma YieldExact(mem: seq<Entry>, table: seq<Entry>, covered: (Key, nat) -> bool, y: Entry)
    requires SortedEntries(mem) && SortedEntries(table) && DistinctEntries(mem, table)
    ensures y in Yield(mem, table, covered) <==>
            exists e :: Newest(e, mem, table) && e.op != Del && !covered(e.key, e.seqId)
                        && y.key == e.key && y.value == e.value && y.seqId == e.seqId && y.op == Put
  {
    YieldSound(mem, table, covered);
    if e :| Newest(e, mem, table) && e.op != Del && !covered(e.key, e.seqId) && y == Entry(e.key, e.value, Put, e.seqId) {
      YieldComplete(mem, table, covered, e);
      var z :| z in Yield(mem, table, covered) && z.key == e.key && z.seqId == e.seqId;
      var x :| Newest(x, mem, table) && z == Entry(x.key, x.value, Put, x.seqId);
    }
  }

  // ------------------------------------------------------------------ ranges

  /** A stream's `Seek`: the entries from the first key at or above the target. */
  function SeekIn(s: seq<Entry>, lo: Key): (rest: seq<Entry>)
  {
    if |s| > 0 && s[0].key < lo then SeekIn(s[1..], lo) else s
  }

  ghost function FromKey(s: seq<Entry>, lo: Key): (rest: seq<Entry>) {
    if |s| == 0 then [] else (if s[0].key >= lo then [s[0]] else []) + FromKey(s[1..], lo)
  }

  lemma {:induction false} FromKeyAll(s: seq<Entry>, lo: Key)
    requires AllAtLeast(s, lo)
    ensures FromKey(s, lo) == s
  {
    if |s| > 0 {
      FromKeyAll(s[1..], lo);
    }
  }

  lemma {:induction false} SeekSkips(s: seq<Entry>, key: Key, lo: Key)
    requires key < lo
    ensures SeekIn(SkipKey(s, key), lo) == SeekIn(s, lo)
  {
    if |s| > 0 && s[0].key == key {
      SeekSkips(s[1..], key, lo);
    }
  }

  lemma SeekNothing(s: seq<Entry>, lo: Key)
    requires AllAtLeast(s, lo)
    ensures SeekIn(s, lo) == s
  {
  }

  lemma SeekBelowAll(mem: seq<Entry>, table: seq<Entry>, covered: (Key, nat) -> bool, lo: Key)
    requires SortedEntries(mem) && SortedEntries(table) && AllAtLeast(mem, lo) && AllAtLeast(table, lo)
    ensures Yield(SeekIn(mem, lo), SeekIn(table, lo), covered) == FromKey(Yield(mem, table, covered), lo)
  {
    SeekNothing(mem, lo);
    SeekNothing(table, lo);
    YieldSound(mem, table, covered);
    var all := Yield(mem, table, covered);
    forall i | 0 <= i < |all| ensures all[i].key >= lo {
      assert all[i] in all;
      var e :| Newest(e, mem, table) && all[i] == Entry(e.key, e.value, Put, e.seqId);
    }
    FromKeyAll(all, lo);
  }

  lemma FromKeyDropsHead(e: Entry, rest: seq<Entry>, lo: Key)
    requires e.key < lo
    ensures FromKey([e] + rest, lo) == FromKey(rest, lo)
  {
    assert ([e] + rest)[1..] == rest;
  }

  /** Seeking both streams first yields what the full scan yields from that key on. */
  lemma {:induction false} SeekYields(mem: seq<Entry>, table: seq<Entry>, covered: (Key, nat) -> bool, lo: Key)
    requires SortedEntries(mem) && SortedEntries(table)
    ensures Yield(SeekIn(mem, lo), SeekIn(table, lo), covered) == FromKey(Yield(mem, table, covered), lo)
    decreases |mem| + |table|
  {
    if |mem| > 0 || |table| > 0 {
      var e := WinnerOf(mem, table);
      WinnerLeads(mem, table);
      if e.key < lo {
        SkipBoth(mem, table, e.key);
        SeekSkips(mem, e.key, lo);
        SeekSkips(table, e.key, lo);
        SeekYields(SkipKey(mem, e.key), SkipKey(table, e.key), covered, lo);
        FromKeyDropsHead(Shown(e), Yield(SkipKey(mem, e.key), SkipKey(table, e.key), covered), lo);
      } else {
        SeekBelowAll(mem, table, covered, lo);
      }
    }
  }

  // ------------------------------------------------------------------ the iterators

  class Iterator {
    var mem: seq<Entry>
    var table: seq<Entry>
    const covered: (Key, nat) -> bool
    var memPos: nat
    var tablePos: nat
    var current: Entry
    var valid: bool

    ghost predicate Valid()
      reads this
    {
      memPos <= |mem| && tablePos <= |table|
    }

    /** What `Next` calls would still deliver, not counting the current entry. */
    ghost function Rest(): (out: seq<Entry>)
      requires Valid()
      reads this
    {
      Yield(mem[memPos..], table[tablePos..], covered)
    }

    /** The current entry, if any, followed by what is still to come. */
    ghost function Pending(): (out: seq<Entry>)
      requires Valid()
      reads this
    {
      if valid then [current] + Rest() else []
    }

    /** `NewDBIteratorWithRangeDel`. */
    constructor (mem: seq<Entry>, table: seq<Entry>, covered: (Key, nat) -> bool)
      ensures Valid() && this.mem == mem && this.table == table && this.covered == covered
      ensures Pending() == Yield(mem, table, covered)
    {
      this.mem, this.table, this.covered := mem, table, covered;
      memPos, tablePos, current, valid := 0, 0, Entry(0.0, [], Put, 0), false;
      new;
      Advance();
    }

    /** `skipKey`: step both streams past a key. */
    method SkipPast(key: Key)
      requires Valid()
      modifies this`memPos, this`tablePos
      ensures Valid()
      ensures mem[memPos..] == SkipKey(mem[old(memPos)..], key) && table[tablePos..] == SkipKey(table[old(tablePos)..], key)
    {
      memPos := SkipFrom(mem, memPos, key);
      tablePos := SkipFrom(table, tablePos, key);
    }

    /** `selectWinner`, with the entry it selects. */
    method SelectWinner() returns (found: bool, e: Entry)
      requires Valid()
      ensures found <==> memPos < |mem| || tablePos < |table|
      ensures found ==> e == WinnerOf(mem[memPos..], table[tablePos..])
    {
      if memPos == |mem| && tablePos == |table| {
        return false, current;
      }
      if tablePos == |table| {
        return true, mem[memPos];
      }
      if memPos == |mem| {
        return true, table[tablePos];
      }
      if CompareEntries(mem[memPos], table[tablePos]) <= 0 {
        return true, mem[memPos];
      }
      return true, table[tablePos];
    }

    /** `advance`: on to the next visible key. */
    method Advance()
      requires Valid()
      modifies this`memPos, this`tablePos, this`current, this`valid
      ensures Valid() && Pending() == old(Rest())
    {
      while true
        invariant Valid() && Rest() == old(Rest())
        decreases |mem| - memPos + |table| - tablePos
      {
        var found, e := SelectWinner();
        if !found {
          valid := false;
          return;
        }
        YieldUnfold(mem[memPos..], table[tablePos..], covered);
        SkipPast(e.key);
        if e.op != Del && !covered(e.key, e.seqId) {
          current := Shown(e);
          valid := true;
          return;
        }
      }
    }

    method Next()
      requires Valid()
      modifies this
      ensures Valid() && Pending() == if old(valid) then old(Pending())[1..] else []
    {
      if !valid {
        return;
      }
      Advance();
    }

    /** `Seek` and `SeekToFirst`: both inner iterators seek, which leaves these entries to come, then on to a visible one. */
    method Seek(memSought: seq<Entry>, tableSought: seq<Entry>)
      requires Valid()
      modifies this
      ensures Valid() && Pending() == Yield(memSought, tableSought, covered)
    {
      mem, table, memPos, tablePos := memSought, tableSought, 0, 0;
      Advance();
    }
  }

  /** One of the two loops of `skipKey`. */
  method SkipFrom(s: seq<Entry>, start: nat, key: Key) returns (i: nat)
    requires start <= |s|
    ensures start <= i <= |s| && s[i..] == SkipKey(s[start..], key)
  {
    i := start;
    while i < |s| && s[i].key == key
      invariant start <= i <= |s| && SkipKey(s[i..], key) == SkipKey(s[start..], key)
    {
      assert s[i..][1..] == s[i + 1..];
      i := i + 1;
    }
  }

  /** A bound of a range scan; an empty key means no bound. */
  datatype Bound = Unbounded | At(key: Key)

  /** `RangeIterator.Valid` for the current key. */
  predicate InBounds(key: Key, lower: Bound, upper: Bound) {
    (lower.At? ==> key >= lower.key) && (upper.At? ==> key <= upper.key)
  }

  ghost function WithinBounds(s: seq<Entry>, lower: Bound, upper: Bound): (out: seq<Entry>) {
    if |s| == 0 then []
    else (if InBounds(s[0].key, lower, upper) then [s[0]] else []) + WithinBounds(s[1..], lower, upper)
  }

  lemma {:induction false} NoneWithin(s: seq<Entry>, lower: Bound, upper: Bound)
    requires forall i :: 0 <= i < |s| ==> !InBounds(s[i].key, lower, upper)
    ensures WithinBounds(s, lower, upper) == []
  {
    if |s| > 0 {
      NoneWithin(s[1..], lower, upper);
    }
  }

  /** Starting at the lower bound loses nothing that is within bounds. */
  lemma {:induction false} WithinFrom(s: seq<Entry>, lower: Bound, upper: Bound)
    requires lower.At?
    ensures WithinBounds(FromKey(s, lower.key), lower, upper) == WithinBounds(s, lower, upper)
  {
    if |s| > 0 {
      WithinFrom(s[1..], lower, upper);
      var rest := FromKey(s[1..], lower.key);
      if s[0].key >= lower.key {
        assert ([s[0]] + rest)[1..] == rest;
      } else {
        assert FromKey(s, lower.key) == rest;
        assert WithinBounds(s, lower, upper) == WithinBounds(s[1..], lower, upper);
      }
    }
  }

  /** Entries in key order, none below the lower bound. */
  ghost predicate Scannable(s: seq<Entry>, lower: Bound) {
    IncreasingKeys(s) && (lower.At? ==> AllAtLeast(s, lower.key))
  }

  /** Once a key is out of bounds, so is everything after it. */
  lemma StopIsFinal(s: seq<Entry>, lower: Bound, upper: Bound)
    requires Scannable(s, lower) && (|s| > 0 ==> !InBounds(s[0].key, lower, upper))
    ensures WithinBounds(s, lower, upper) == []
  {
    forall i | 0 <= i < |s| ensures !InBounds(s[i].key, lower, upper) {
      assert i == 0 || s[0].key < s[i].key;
    }
    NoneWithin(s, lower, upper);
  }

  lemma StepWithin(s: seq<Entry>, lower: Bound, upper: Bound)
    requires Scannable(s, lower) && |s| > 0 && InBounds(s[0].key, lower, upper)
    ensures Scannable(s[1..], lower) && WithinBounds(s, lower, upper) == [s[0]] + WithinBounds(s[1..], lower, upper)
  {
  }

  lemma Emitted(out: seq<Entry>, e: Entry, rest: seq<Entry>)
    ensures out + ([e] + rest) == out + [e] + rest
  {
  }

  /** The scan loop of a caller: read while valid. */
  method ReadWhileInBounds(it: Iterator, lower: Bound, upper: Bound) returns (out: seq<Entry>)
    requires it.Valid() && Scannable(it.Pending(), lower)
    modifies it
    ensures out == WithinBounds(old(it.Pending()), lower, upper)
  {
    ghost var all := it.Pending();
    out := [];
    while it.valid && InBounds(it.current.key, lower, upper)
      invariant it.Valid() && Scannable(it.Pending(), lower)
      invariant out + WithinBounds(it.Pending(), lower, upper) == WithinBounds(all, lower, upper)
      decreases |it.Pending()|
    {
      ghost var left := it.Pending();
      StepWithin(left, lower, upper);
      Emitted(out, left[0], WithinBounds(left[1..], lower, upper));
      out := out + [it.current];
      it.Next();
    }
    StopIsFinal(it.Pending(), lower, upper);
  }

  /** What an inner iterator that seeks as it should delivers. */
  function SeekTo(s: seq<Entry>, lower: Bound): (rest: seq<Entry>) {
    if lower.At? then SeekIn(s, lower.key) else s
  }

  /** A sorted stream from the bound on. */
  ghost predicate Sought(s: seq<Entry>, lower: Bound) { SortedEntries(s) && (lower.At? ==> AllAtLeast(s, lower.key)) }

  lemma YieldScannable(mem: seq<Entry>, table: seq<Entry>, covered: (Key, nat) -> bool, lower: Bound)
    requires Sought(mem, lower) && Sought(table, lower)
    ensures Scannable(Yield(mem, table, covered), lower)
  {
    YieldSound(mem, table, covered);
    var all := Yield(mem, table, covered);
    forall i | 0 <= i < |all| && lower.At? ensures all[i].key >= lower.key {
      assert all[i] in all;
      var e :| Newest(e, mem, table) && all[i] == Entry(e.key, e.value, Put, e.seqId);
    }
  }

  /** When both inner iterators seek as they should, nothing within the bounds is lost or added. */
  lemma SoughtYields(mem: seq<Entry>, table: seq<Entry>, covered: (Key, nat) -> bool, lower: Bound, upper: Bound)
    requires SortedEntries(mem) && SortedEntries(table)
    ensures WithinBounds(Yield(SeekTo(mem, lower), SeekTo(table, lower), covered), lower, upper)
            == WithinBounds(Yield(mem, table, covered), lower, upper)
  {
    if lower.At? {
      SeekYields(mem, table, covered, lower.key);
      WithinFrom(Yield(mem, table, covered), lower, upper);
    }
  }

  /**
   A range scan with `RangeIterator`: opened over `mem` and `table`, it seeks to the lower bound, upon which the inner
   iterators deliver `memSought` and `tableSought`, and stops at the first key out of bounds.
   */
  method RangeScan(mem: seq<Entry>, table: seq<Entry>, memSought: seq<Entry>, tableSought: seq<Entry>,
                   covered: (Key, nat) -> bool, lower: Bound, upper: Bound)
    returns (out: seq<Entry>)
    requires SortedEntries(mem) && SortedEntries(table) && Sought(memSought, lower) && Sought(tableSought, lower)
    ensures out == WithinBounds(Yield(memSought, tableSought, covered), lower, upper)
    ensures forall y :: y in out <==>
              y in Yield(memSought, tableSought, covered) && (lower.At? ==> lower.key <= y.key) && (upper.At? ==> y.key <= upper.key)
    ensures memSought == SeekTo(mem, lower) && tableSought == SeekTo(table, lower) ==>
              out == WithinBounds(Yield(mem, table, covered), lower, upper) && IncreasingKeys(out) &&
              forall y :: y in out <==>
                y in Yield(mem, table, covered) && (lower.At? ==> lower.key <= y.key) && (upper.At? ==> y.key <= upper.key)
  {
    var it := new Iterator(mem, table, covered);
    it.Seek(memSought, tableSought);
    YieldScannable(memSought, tableSought, covered, lower);
    out := ReadWhileInBounds(it, lower, upper);
    SoughtYields(mem, table, covered, lower, upper);
    AllWithin(Yield(memSought, tableSought, covered), lower, upper);
    AllWithin(Yield(mem, table, covered), lower, upper);
    YieldSound(mem, table, covered);
  }

  lemma AllWithin(s: seq<Entry>, lower: Bound, upper: Bound)
    ensures forall y :: y in WithinBounds(s, lower, upper) <==>
              y in s && (lower.At? ==> lower.key <= y.key) && (upper.At? ==> y.key <= upper.key)
    ensures IncreasingKeys(s) ==> IncreasingKeys(WithinBounds(s, lower, upper))
  {
    forall y ensures y in WithinBounds(s, lower, upper) <==> y in s && InBounds(y.key, lower, upper) {
      InWithin(s, lower, upper, y);
    }
    if IncreasingKeys(s) {
      WithinIncreases(s, lower, upper);
    }
  }

  lemma {:induction false} WithinIncreases(s: seq<Entry>, lower: Bound, upper: Bound)
    requires IncreasingKeys(s)
    ensures IncreasingKeys(WithinBounds(s, lower, upper))
  {
    if |s| > 0 {
      WithinIncreases(s[1..], lower, upper);
      var rest := WithinBounds(s[1..], lower, upper);
      forall y | y in rest ensures y.key > s[0].key {
        InWithin(s[1..], lower, upper, y);
        var i :| 0 <= i < |s[1..]| && s[1..][i] == y;
      }
      PrependSmaller(s[0], rest);
    }
  }

  lemma {:induction false} InWithin(s: seq<Entry>, lower: Bound, upper: Bound, y: Entry)
    ensures y in WithinBounds(s, lower, upper) <==> y in s && InBounds(y.key, lower, upper)
  {
    if |s| > 0 {
      InWithin(s[1..], lower, upper, y);
      assert s == [s[0]] + s[1..];
    }
  }

  /** A range scan shows exactly the visible newest entries whose keys are within bounds. */
  lemma RangeExact(mem: seq<Entry>, table: seq<Entry>, covered: (Key, nat) -> bool, lower: Bound, upper: Bound, y: Entry)
    requires SortedEntries(mem) && SortedEntries(table) && DistinctEntries(mem, table)
    ensures y in WithinBounds(Yield(mem, table, covered), lower, upper) <==>
            ShowsNewest(y, mem, table, covered) && (lower.At? ==> lower.key <= y.key) && (upper.At? ==> y.key <= upper.key)
  {
    InWithin(Yield(mem, table, covered), lower, upper, y);
    YieldExact(mem, table, covered, y);
  }
}

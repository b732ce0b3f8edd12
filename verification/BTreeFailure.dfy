/**
 A run of a B-tree in which deleting an entry that is there fails (internal/structures/b_tree.go:109-186, 228-240,
 263-315): eighteen inserts in ascending order, three deletes of absent entries, which leave the root without entries
 over a child that has none to spare, and then the delete of the first entry.
 */
module BTreeFailure {
  import opened BTree
  import opened Keys
  import opened Options
  import opened OrderedEntries
  import opened Records

  function Entry(n: nat): Record { Record(n as real, [], 1, Put, 0) }

  /** An entry between the sixth and the seventh, which is never there. */
  function Between(): Record { Record(6.5, [], 1, Put, 0) }

  // ------------------------------------------------------------------ ascending inserts

  /** How many entries a tree of this height has with one in every node. */
  function Width(h: nat): nat { if h == 0 then 1 else 2 * Width(h - 1) + 1 }

  /** That tree, with the entries from `k` on. */
  function Thin(h: nat, k: nat): Tree {
    if h == 0 then Leaf([Entry(k)])
    else Node([Entry(k + Width(h - 1))], [Thin(h - 1, k), Thin(h - 1, k + Width(h - 1) + 1)])
  }

  /** Where `d` thin trees, with an entry behind each, end. */
  function End(d: nat, k: nat, h: nat): nat { if d == 0 then k else End(d - 1, k + Width(h) + 1, h) }

  /** A node of `d` entries over thin trees and, behind them, `last`. */
  function Top(d: nat, k: nat, h: nat, last: Tree): (t: Tree)
    requires d > 0
    ensures t.Node? && |t.data| == d && |t.kids| == d + 1 && t.kids[d] == last
  {
    if d == 1 then Node([Entry(k + Width(h))], [Thin(h, k), last])
    else
      var t := Top(d - 1, k + Width(h) + 1, h, last);
      Node([Entry(k + Width(h))] + t.data, [Thin(h, k)] + t.kids)
  }

  function From(k: nat, n: nat): (s: seq<Record>)
    ensures |s| == n && forall i :: 0 <= i < n ==> s[i] == Entry(k + i)
  {
    seq(n, i requires 0 <= i < n => Entry(k + i))
  }

  /** What ascending inserts lead to: thin but for the nodes on the right, which have these numbers of entries. */
  function Spine(ds: seq<nat>, k: nat): (t: Tree)
    requires Digits(ds)
    ensures |t.data| == ds[0] && (t.Leaf? <==> |ds| == 1)
  {
    if |ds| == 1 then Leaf(From(k, ds[0])) else Top(ds[0], k, |ds| - 2, Spine(ds[1..], End(ds[0], k, |ds| - 2)))
  }

  /** No node is empty, but for a leaf alone, and none has more than three entries. */
  ghost predicate Digits(ds: seq<nat>) {
    |ds| > 0 && (forall i :: 0 <= i < |ds| ==> ds[i] <= 3) && (|ds| > 1 ==> forall i :: 0 <= i < |ds| ==> ds[i] > 0)
  }

  /** The number of the first entry that is not there. */
  function Next(ds: seq<nat>, k: nat): nat
    requires |ds| > 0
  {
    if |ds| == 1 then k + ds[0] else Next(ds[1..], End(ds[0], k, |ds| - 2))
  }

  lemma {:induction false} EndGrows(d: nat, k: nat, h: nat)
    ensures End(d, k, h) >= k
  {
    if d > 0 {
      EndGrows(d - 1, k + Width(h) + 1, h);
    }
  }

  lemma {:induction false} NextGrows(ds: seq<nat>, k: nat)
    requires |ds| > 0
    ensures Next(ds, k) >= k
  {
    if |ds| > 1 {
      EndGrows(ds[0], k, |ds| - 2);
      NextGrows(ds[1..], End(ds[0], k, |ds| - 2));
    }
  }

  /** All entries of the node come before `n`. */
  lemma {:induction false} TopBelow(d: nat, k: nat, h: nat, last: Tree, n: nat)
    requires d > 0 && n >= End(d, k, h)
    ensures forall i :: 0 <= i < d ==> Cmp(Entry(n), Top(d, k, h, last).data[i]) > 0
  {
    if d > 1 {
      TopBelow(d - 1, k + Width(h) + 1, h, last, n);
    }
    EndGrows(d - 1, k + Width(h) + 1, h);
  }

  lemma {:induction false} TopExchanged(d: nat, k: nat, h: nat, last: Tree, c: Tree)
    requires d > 0
    ensures WithKid(Top(d, k, h, last), d, c) == Top(d, k, h, c)
  {
    if d > 1 {
      TopExchanged(d - 1, k + Width(h) + 1, h, last, c);
      var t := Top(d - 1, k + Width(h) + 1, h, last);
      assert ([Thin(h, k)] + t.kids)[d := c] == [Thin(h, k)] + t.kids[d - 1 := c];
    } else {
      assert [Thin(h, k), last][1 := c] == [Thin(h, k), c];
    }
  }

  /** One thin tree more in front of the last child. */
  lemma {:induction false} TopGrown(d: nat, k: nat, h: nat, last: Tree, upper: Tree, t: Tree)
    requires d > 0 && t == Top(d, k, h, last)
    ensures Node(t.data + [Entry(End(d, k, h) + Width(h))], t.kids[..d] + [Thin(h, End(d, k, h)), upper]) == Top(d + 1, k, h, upper)
  {
    var k' := k + Width(h) + 1;
    if d > 1 {
      var s := Top(d - 1, k', h, last);
      TopGrown(d - 1, k', h, last, upper, s);
      assert t.kids[..d] == [Thin(h, k)] + s.kids[..d - 1];
      var x, m := Entry(End(d, k, h) + Width(h)), Thin(h, End(d, k, h));
      assert t.data + [x] == [Entry(k + Width(h))] + (s.data + [x]);
      assert t.kids[..d] + [m, upper] == [Thin(h, k)] + (s.kids[..d - 1] + [m, upper]);
    } else {
      assert End(1, k, h) == End(0, k', h) == k';
      assert Top(1, k', h, upper) == Node([Entry(k' + Width(h))], [Thin(h, k'), upper]);
      assert t.kids[..1] == [Thin(h, k)];
      assert [Thin(h, k)] + [Thin(h, k'), upper] == t.kids[..1] + [Thin(h, k'), upper];
    }
  }

  lemma SpineOf(d: nat, rest: seq<nat>, k: nat)
    requires Digits([d] + rest)
    ensures rest == [] ==> Spine([d] + rest, k) == Leaf(From(k, d))
    ensures rest != [] ==> d > 0 && Digits(rest) && Spine([d] + rest, k) == Top(d, k, |rest| - 1, Spine(rest, End(d, k, |rest| - 1)))
    ensures Next([d] + rest, k) == if rest == [] then k + d else Next(rest, End(d, k, |rest| - 1))
  {
    var ds := [d] + rest;
    assert ds[1..] == rest && ds[0] == d;
    assert rest != [] ==> forall i :: 0 <= i < |rest| ==> rest[i] == ds[i + 1];
  }

  lemma DigitsAhead(d: nat, rest: seq<nat>)
    requires (rest == [] && d <= 3) || (Digits(rest) && rest[0] > 0 && 0 < d <= 3)
    ensures Digits([d] + rest)
  {
  }

  /** The halves of a full node on the right: a thin tree, an entry, and a spine that starts with one. */
  ghost predicate Halved(rest: seq<nat>, k: nat, t: Tree) {
    && Digits([1] + rest) && Regular(t) && |t.data| == 3
    && LowerHalf(t, 2) == Thin(|rest|, k) && t.data[1] == Entry(k + Width(|rest|))
    && UpperHalf(t, 2) == Spine([1] + rest, k + Width(|rest|) + 1)
  }

  lemma SpineHalves(rest: seq<nat>, k: nat, t: Tree)
    requires Digits([3] + rest) && t == Spine([3] + rest, k)
    ensures Halved(rest, k, t)
  {
    SpineOf(3, rest, k);
    if rest == [] {
      LeafHalved(rest, k, t);
    } else {
      assert rest[0] == ([3] + rest)[1];
      TopHalved(rest, k, t, Spine(rest, End(3, k, |rest| - 1)));
    }
  }

  lemma LeafHalved(rest: seq<nat>, k: nat, t: Tree)
    requires rest == [] && t == Leaf(From(k, 3))
    ensures Halved(rest, k, t)
  {
    DigitsAhead(1, rest);
    SpineOf(1, rest, k + 2);
    LeafHalves(k, t);
  }

  lemma TopHalved(rest: seq<nat>, k: nat, t: Tree, last: Tree)
    requires rest != [] && Digits(rest) && rest[0] > 0 && last == Spine(rest, End(3, k, |rest| - 1)) && t == Top(3, k, |rest| - 1, last)
    ensures Halved(rest, k, t)
  {
    var h, k' := |rest| - 1, k + Width(|rest|) + 1;
    DigitsAhead(1, rest);
    TopHalves(k, h, last, t);
    SpineOf(1, rest, k');
  }

  lemma LeafHalves(k: nat, t: Tree)
    requires t == Leaf(From(k, 3))
    ensures LowerHalf(t, 2) == Thin(0, k) && t.data[1] == Entry(k + Width(0)) && UpperHalf(t, 2) == Leaf(From(k + 2, 1))
  {
    assert t.data[..1] == [Entry(k)] && t.data[2..] == From(k + 2, 1);
  }

  lemma TopHalves(k: nat, h: nat, last: Tree, t: Tree)
    requires t == Top(3, k, h, last)
    ensures LowerHalf(t, 2) == Thin(h + 1, k) && t.data[1] == Entry(k + Width(h + 1))
    ensures UpperHalf(t, 2) == Top(1, k + Width(h + 1) + 1, h, last) && End(3, k, h) == End(1, k + Width(h + 1) + 1, h)
  {
    var w := Width(h);
    var k1, k2 := k + w + 1, k + w + 1 + w + 1;
    assert Top(1, k2, h, last) == Node([Entry(k2 + w)], [Thin(h, k2), last]);
    assert Top(2, k1, h, last) == Node([Entry(k1 + w), Entry(k2 + w)], [Thin(h, k1), Thin(h, k2), last]);
    assert t == Node([Entry(k + w), Entry(k1 + w), Entry(k2 + w)], [Thin(h, k), Thin(h, k1), Thin(h, k2), last]);
    assert t.data[..1] == [Entry(k + w)] && t.kids[..2] == [Thin(h, k), Thin(h, k1)];
    assert t.data[2..] == [Entry(k2 + w)] && t.kids[2..] == [Thin(h, k2), last];
    assert End(1, k2, h) == End(2, k1, h) == End(3, k, h);
  }

  /** What one more insert does to the numbers of entries on the right. */
  function Incr(d: nat, rest: seq<nat>): (ds: seq<nat>)
    ensures |ds| == |rest| + 1
    decreases |rest|
  {
    if rest == [] then [d + 1]
    else if rest[0] == 3 then [d + 1] + Incr(1, rest[1..])
    else [d] + Incr(rest[0], rest[1..])
  }

  lemma {:induction false} IncrDigits(d: nat, rest: seq<nat>)
    requires Digits([d] + rest) && d < 3
    ensures Digits(Incr(d, rest)) && Incr(d, rest)[0] > 0
    decreases |rest|
  {
    if rest != [] {
      SpineOf(d, rest, 0);
      assert rest == [rest[0]] + rest[1..] && d == ([d] + rest)[0];
      var low := if rest[0] == 3 then 1 else rest[0];
      if rest[1..] != [] {
        SpineOf(rest[0], rest[1..], 0);
        assert rest[1] == rest[1..][0];
      }
      DigitsAhead(low, rest[1..]);
      IncrDigits(low, rest[1..]);
      DigitsAhead(if rest[0] == 3 then d + 1 else d, Incr(low, rest[1..]));
    }
  }

  lemma SlotAtEnd(data: seq<Record>, e: Record)
    requires forall i :: 0 <= i < |data| ==> Cmp(e, data[i]) > 0
    ensures Slot(data, e, |data|) == |data|
  {
  }

  /** An entry above all others goes into the last child. */
  lemma InsertInto(t: Tree, e: Record, h: nat, min: int, c: Tree)
    requires t.Node? && h > 0 && Good(t, 2, h, min) && |t.data| < 3 && |t.kids| == |t.data| + 1
    requires (forall i :: 0 <= i < |t.data| ==> Cmp(e, t.data[i]) > 0) && |t.kids[|t.data|].data| < 3
    requires Good(t.kids[|t.data|], 2, h - 1, 1) && c == InsertNonFull(t.kids[|t.data|], e, 2, h - 1, 1)
    ensures InsertNonFull(t, e, 2, h, min) == WithKid(t, |t.data|, c)
  {
    GoodRegular(t, 2, h, min);
    SlotAtEnd(t.data, e);
    PreparedGood(t, e, 2, h, min);
    assert Prepared(t, e, 2) == (t, |t.data|);
  }

  /** And if that is full, into its upper half. */
  lemma InsertIntoSplit(t: Tree, e: Record, h: nat, min: int, p: Tree, d: nat, c: Tree)
    requires t.Node? && h > 0 && Good(t, 2, h, min) && |t.data| == d < 3 && |t.kids| == d + 1 && |t.kids[d].data| == 3
    requires Regular(t) && Regular(t.kids[d]) && p == SplitChild(t, d, 2) && |p.data| == d + 1 && |p.kids| == d + 2
    requires forall i :: 0 <= i < |p.data| ==> Cmp(e, p.data[i]) > 0
    requires Good(p.kids[d + 1], 2, h - 1, 1) && |p.kids[d + 1].data| < 3 && c == InsertNonFull(p.kids[d + 1], e, 2, h - 1, 1)
    ensures InsertNonFull(t, e, 2, h, min) == WithKid(p, d + 1, c)
  {
    GoodRegular(t, 2, h, min);
    assert forall i :: 0 <= i < d ==> t.data[i] == p.data[i];
    SlotAtEnd(t.data, e);
    PreparedGood(t, e, 2, h, min);
    assert Prepared(t, e, 2) == (p, d + 1);
  }

  /** Where the insert goes on: into the last child, split first if it is full. */
  lemma {:induction false} InsertSpine(d: nat, rest: seq<nat>, k: nat, h: nat, min: int, t: Tree, n: nat)
    requires Digits([d] + rest) && d < 3 && t == Spine([d] + rest, k) && Good(t, 2, h, min) && n == Next([d] + rest, k)
    ensures Digits(Incr(d, rest)) && InsertNonFull(t, Entry(n), 2, h, min) == Spine(Incr(d, rest), k)
    decreases |rest|, 0
  {
    IncrDigits(d, rest);
    SpineOf(d, rest, k);
    if rest == [] {
      InsertLast(d, k, h, min, t);
    } else {
      assert rest == [rest[0]] + rest[1..];
      GoodChild(t, 2, h, min, d);
      if rest[0] == 3 {
        InsertSplit(d, rest[1..], k, h, min, t, n);
      } else {
        InsertOn(d, rest[0], rest[1..], k, h, min, t, n);
      }
    }
  }

  lemma InsertLast(d: nat, k: nat, h: nat, min: int, t: Tree)
    requires d < 3 && t == Leaf(From(k, d)) && Good(t, 2, h, min)
    ensures Digits([d + 1]) && InsertNonFull(t, Entry(k + d), 2, h, min) == Spine([d + 1], k)
  {
    SlotAtEnd(t.data, Entry(k + d));
    assert t.data[..d] + [Entry(k + d)] + t.data[d..] == From(k, d + 1);
  }

  lemma {:induction false} InsertOn(d: nat, c: nat, rest: seq<nat>, k: nat, h: nat, min: int, t: Tree, n: nat)
    requires Digits([c] + rest) && 0 < d < 3 && c < 3 && h > 0
    requires t == Top(d, k, |rest|, Spine([c] + rest, End(d, k, |rest|))) && Good(t, 2, h, min) && Good(t.kids[d], 2, h - 1, 1)
    requires n == Next([c] + rest, End(d, k, |rest|))
    ensures Digits([d] + Incr(c, rest)) && InsertNonFull(t, Entry(n), 2, h, min) == Spine([d] + Incr(c, rest), k)
    decreases |rest|, 1
  {
    var k' := End(d, k, |rest|);
    var last := Spine([c] + rest, k');
    NextGrows([c] + rest, k');
    TopBelow(d, k, |rest|, last, n);
    InsertSpine(c, rest, k', h - 1, 1, last, n);
    IncrDigits(c, rest);
    var low := Incr(c, rest);
    InsertInto(t, Entry(n), h, min, Spine(low, k'));
    LastExchanged(d, k, |rest|, low, last);
  }

  /** With another spine for its last child a node is again one. */
  lemma LastExchanged(d: nat, k: nat, g: nat, low: seq<nat>, last: Tree)
    requires 0 < d <= 3 && Digits(low) && low[0] > 0 && |low| == g + 1
    ensures Digits([d] + low) && WithKid(Top(d, k, g, last), d, Spine(low, End(d, k, g))) == Spine([d] + low, k)
  {
    TopExchanged(d, k, g, last, Spine(low, End(d, k, g)));
    DigitsAhead(d, low);
    SpineOf(d, low, k);
  }

  lemma {:induction false} InsertSplit(d: nat, rest: seq<nat>, k: nat, h: nat, min: int, t: Tree, n: nat)
    requires Digits([3] + rest) && 0 < d < 3 && h > 0
    requires t == Top(d, k, |rest|, Spine([3] + rest, End(d, k, |rest|))) && Good(t, 2, h, min) && Good(t.kids[d], 2, h - 1, 1)
    requires n == Next([3] + rest, End(d, k, |rest|))
    ensures Digits([d + 1] + Incr(1, rest)) && InsertNonFull(t, Entry(n), 2, h, min) == Spine([d + 1] + Incr(1, rest), k)
    decreases |rest|, 2
  {
    var last := Spine([3] + rest, End(d, k, |rest|));
    SplitFacts(d, rest, k, h, min, t, n, last);
    UpperInserted(d, rest, k, h, n);
    IncrDigits(1, rest);
    IntoUpper(d, k, |rest|, h, min, t, last, Spine([1] + rest, End(d + 1, k, |rest|)), n, Incr(1, rest));
  }

  lemma {:induction false} UpperInserted(d: nat, rest: seq<nat>, k: nat, h: nat, n: nat)
    requires Digits([1] + rest) && n == Next([1] + rest, End(d + 1, k, |rest|)) && h > 0
    requires Good(Spine([1] + rest, End(d + 1, k, |rest|)), 2, h - 1, 1)
    ensures Digits(Incr(1, rest))
    ensures InsertNonFull(Spine([1] + rest, End(d + 1, k, |rest|)), Entry(n), 2, h - 1, 1) == Spine(Incr(1, rest), End(d + 1, k, |rest|))
    decreases |rest|, 1
  {
    InsertSpine(1, rest, End(d + 1, k, |rest|), h - 1, 1, Spine([1] + rest, End(d + 1, k, |rest|)), n);
  }

  lemma SplitFacts(d: nat, rest: seq<nat>, k: nat, h: nat, min: int, t: Tree, n: nat, last: Tree)
    requires Digits([3] + rest) && 0 < d < 3 && h > 0 && last == Spine([3] + rest, End(d, k, |rest|))
    requires t == Top(d, k, |rest|, last) && Good(t, 2, h, min) && Good(t.kids[d], 2, h - 1, 1)
    requires n == Next([3] + rest, End(d, k, |rest|))
    ensures Digits([1] + rest) && n == Next([1] + rest, End(d + 1, k, |rest|)) && n >= End(d + 1, k, |rest|)
    ensures Regular(t) && Regular(last) && |last.data| == 3
    ensures var upper := Spine([1] + rest, End(d + 1, k, |rest|));
            SplitChild(t, d, 2) == Top(d + 1, k, |rest|, upper) && Good(upper, 2, h - 1, 1) && |upper.data| == 1
  {
    var k' := End(d, k, |rest|);
    SpineHalves(rest, k', last);
    SplitNext(rest, k');
    EndNext(d, k, |rest|);
    NextGrows([1] + rest, k' + Width(|rest|) + 1);
    UpperGood(last, h - 1);
    GoodRegular(t, 2, h, min);
    SplitIsTop(d, k, |rest|, last, UpperHalf(last, 2), t);
  }

  lemma IntoUpper(d: nat, k: nat, g: nat, h: nat, min: int, t: Tree, last: Tree, upper: Tree, n: nat, low: seq<nat>)
    requires Digits(low) && |low| == g + 1 && low[0] > 0 && 0 < d < 3 && h > 0
    requires t == Top(d, k, g, last) && Good(t, 2, h, min) && Regular(t) && Regular(last) && |last.data| == 3
    requires SplitChild(t, d, 2) == Top(d + 1, k, g, upper) && Good(upper, 2, h - 1, 1) && |upper.data| < 3
    requires n >= End(d + 1, k, g) && InsertNonFull(upper, Entry(n), 2, h - 1, 1) == Spine(low, End(d + 1, k, g))
    ensures Digits([d + 1] + low) && InsertNonFull(t, Entry(n), 2, h, min) == Spine([d + 1] + low, k)
  {
    TopBelow(d + 1, k, g, upper, n);
    InsertIntoSplit(t, Entry(n), h, min, Top(d + 1, k, g, upper), d, Spine(low, End(d + 1, k, g)));
    LastExchanged(d + 1, k, g, low, upper);
  }

  lemma UpperGood(c: Tree, h: nat)
    requires Good(c, 2, h, 1) && |c.data| == 3 && Regular(c)
    ensures Good(UpperHalf(c, 2), 2, h, 1) && |UpperHalf(c, 2).data| == 1
  {
  }

  lemma {:induction false} EndNext(d: nat, k: nat, h: nat)
    ensures End(d + 1, k, h) == End(d, k, h) + Width(h) + 1
  {
    if d > 0 {
      EndNext(d - 1, k + Width(h) + 1, h);
    }
  }

  /** A split leaves the number of the next entry as it is. */
  lemma SplitNext(rest: seq<nat>, k: nat)
    ensures Next([3] + rest, k) == Next([1] + rest, k + Width(|rest|) + 1)
  {
    assert ([3] + rest)[1..] == rest && ([1] + rest)[1..] == rest;
    if rest != [] {
      var w := Width(|rest| - 1);
      var k1, k2 := k + w + 1, k + w + 1 + w + 1;
      assert End(1, k2, |rest| - 1) == End(2, k1, |rest| - 1) == End(3, k, |rest| - 1);
    }
  }

  lemma SplitIsTop(d: nat, k: nat, h: nat, last: Tree, upper: Tree, t: Tree)
    requires d > 0 && t == Top(d, k, h, last) && |last.data| >= 2 && Regular(last) && Regular(t)
    requires LowerHalf(last, 2) == Thin(h, End(d, k, h)) && UpperHalf(last, 2) == upper
    requires last.data[1] == Entry(End(d, k, h) + Width(h))
    ensures SplitChild(t, d, 2) == Top(d + 1, k, h, upper)
  {
    TopGrown(d, k, h, last, upper, t);
    assert t.data[..d] == t.data && t.data[d..] == [] && t.kids[d + 1..] == [];
  }

  // ------------------------------------------------------------------ the root

  function NextDigits(d: nat, rest: seq<nat>): (ds: seq<nat>)
    ensures |ds| > 0
  {
    if d == 3 then Incr(1, [1] + rest) else Incr(d, rest)
  }

  /** Inserting the next entry at the root. */
  lemma InsertNext(d: nat, rest: seq<nat>, k: nat, h: nat, t: Tree, n: nat)
    requires Digits([d] + rest) && t == Spine([d] + rest, k) && Good(t, 2, h, 0) && n == Next([d] + rest, k)
    ensures Digits(NextDigits(d, rest)) && InsertRoot(t, Entry(n), 2, h) == Spine(NextDigits(d, rest), k)
  {
    assert d == ([d] + rest)[0];
    if d == 3 {
      RootSplits(rest, k, h, t, n);
    } else {
      InsertSpine(d, rest, k, h, 0, t, n);
    }
  }

  lemma RootHalved(rest: seq<nat>, k: nat, t: Tree, top: Tree)
    requires Halved(rest, k, t) && top == Node([], [t])
    ensures Digits([1] + ([1] + rest)) && SplitChild(top, 0, 2) == Spine([1] + ([1] + rest), k)
  {
    var upper := Spine([1] + rest, k + Width(|rest|) + 1);
    DigitsAhead(1, [1] + rest);
    SpineOf(1, [1] + rest, k);
    assert End(1, k, |rest|) == k + Width(|rest|) + 1;
    assert SplitChild(top, 0, 2) == Node([Entry(k + Width(|rest|))], [Thin(|rest|, k), upper]);
  }

  lemma RootSplits(rest: seq<nat>, k: nat, h: nat, t: Tree, n: nat)
    requires Digits([3] + rest) && t == Spine([3] + rest, k) && Good(t, 2, h, 0) && n == Next([3] + rest, k)
    ensures Digits(Incr(1, [1] + rest)) && InsertRoot(t, Entry(n), 2, h) == Spine(Incr(1, [1] + rest), k)
  {
    var top := Node([], [t]);
    SpineHalves(rest, k, t);
    RootHalved(rest, k, t, top);
    var up := SplitChild(top, 0, 2);
    SplitNext(rest, k);
    assert End(1, k, |rest|) == k + Width(|rest|) + 1;
    RootGood(t, 2, h);
    SplitGood(top, 0, 2, h + 1, 0);
    SpineOf(1, [1] + rest, k);
    InsertSpine(1, [1] + rest, k, h + 1, 0, up, n);
  }

  // ------------------------------------------------------------------ the eighteen inserts

  function DigitsAt(n: nat): (ds: seq<nat>)
    ensures |ds| > 0
  {
    if n == 0 then [0]
    else
      var ds := DigitsAt(n - 1);
      NextDigits(ds[0], ds[1..])
  }

  lemma Eighteen()
    ensures DigitsAt(18) == [1, 1, 2, 2]
  {
    assert DigitsAt(3) == [3];
    assert DigitsAt(5) == [1, 3];
    assert DigitsAt(7) == [2, 3];
    assert DigitsAt(9) == [1, 1, 3];
    assert DigitsAt(11) == [1, 2, 3];
    assert DigitsAt(13) == [2, 1, 3];
    assert DigitsAt(15) == [2, 2, 3];
    assert DigitsAt(17) == [3, 1, 3];
  }

  // ------------------------------------------------------------------ the deletes of absent entries

  function One(k: nat): Tree { Leaf([Entry(k)]) }

  function Three(k: nat): Tree { Leaf([Entry(k), Entry(k + 1), Entry(k + 2)]) }

  function Right(): (t: Tree)
    ensures t.Node? && |t.data| == 2
  {
    Spine([2, 2], 13)
  }

  function Start(): Tree { Node([Entry(8)], [Thin(2, 1), Node([Entry(12)], [Thin(1, 9), Right()])]) }

  lemma OneOver(rest: seq<nat>, k: nat)
    requires Digits([1] + rest) && rest != []
    ensures var w := Width(|rest| - 1);
            Digits(rest) && Spine([1] + rest, k) == Node([Entry(k + w)], [Thin(|rest| - 1, k), Spine(rest, k + w + 1)])
  {
    SpineOf(1, rest, k);
    assert End(1, k, |rest| - 1) == k + Width(|rest| - 1) + 1;
  }

  lemma StartIs()
    ensures Spine([1, 1, 2, 2], 1) == Start()
  {
    assert [1] + [1, 2, 2] == [1, 1, 2, 2] && [1] + [2, 2] == [1, 2, 2];
    assert Width(0) == 1 && Width(1) == 3 && Width(2) == 7;
    OneOver([1, 2, 2], 1);
    OneOver([2, 2], 9);
  }

  /** The child below which the delete goes on is as it should be. */
  lemma Down(t: Tree, e: Record, h: nat, min: int, p: Tree, j: nat)
    requires Deletable(t, 2, h, min) && t.Node? && Fillable(t) && Readied(t, Position(t.data, e, 0), 2) == (p, j)
    ensures h > 0 && p.Node? && j < |p.kids| && Deletable(p.kids[j], 2, h - 1, 2) && Regular(p.kids[j])
    ensures p.kids[j].Node? ==> Fillable(p.kids[j])
  {
    ReadiedGood(t, Position(t.data, e, 0), 2, h, min);
    DeletableChild(p.kids[j], 2, h - 1);
    GoodRegular(p.kids[j], 2, h - 1, 2);
    if p.kids[j].Node? {
      GoodFillable(p.kids[j], 2, h - 1, 2);
    }
  }

  /** And what comes back takes its place. */
  lemma Descends(t: Tree, e: Record, h: nat, min: int, p: Tree, j: nat, c: Tree)
    requires Deletable(t, 2, h, min) && t.Node? && Fillable(t) && Readied(t, Position(t.data, e, 0), 2) == (p, j)
    requires Position(t.data, e, 0) < |t.data| ==> Cmp(e, t.data[Position(t.data, e, 0)]) != 0
    requires h > 0 && p.Node? && j < |p.kids| && Deletable(p.kids[j], 2, h - 1, 2) && DeleteNode(p.kids[j], e, 2, h - 1, 2) == (false, c)
    ensures DeleteNode(t, e, 2, h, min) == (false, WithKid(p, j, c))
  {
  }

  lemma LeafMisses(k: nat, e: Record, h: nat)
    requires Deletable(Three(k), 2, h, 2)
    requires Cmp(e, Entry(k)) < 0 || (Cmp(e, Entry(k + 1)) > 0 && Cmp(e, Entry(k)) > 0 && Cmp(e, Entry(k + 2)) < 0)
    ensures DeleteNode(Three(k), e, 2, h, 2) == (false, Three(k))
  {
  }

  function First(): Tree { Node([Entry(8), Entry(12)], [Node([Entry(4), Entry(6)], [Three(1), One(5), One(7)]), Thin(1, 9), Right()]) }

  function Second(): Tree { Node([Entry(8), Entry(12)], [Node([Entry(4)], [Three(1), Three(5)]), Thin(1, 9), Right()]) }

  function Third(): Tree { Node([Entry(12)], [Node([Entry(4), Entry(8), Entry(10)], [Three(1), Three(5), One(9), One(11)]), Right()]) }

  lemma ThinIs(k: nat)
    ensures Thin(1, k) == Node([Entry(k + 1)], [One(k), One(k + 2)])
    ensures Thin(2, k) == Node([Entry(k + 3)], [Thin(1, k), Thin(1, k + 4)])
  {
    assert Width(0) == 1 && Width(1) == 3;
  }

  function Four(): Tree { Node([Entry(2), Entry(4), Entry(6)], [One(1), One(3), One(5), One(7)]) }

  function Joint(): Tree { Node([Entry(4), Entry(8), Entry(12)], [Thin(1, 1), Thin(1, 5), Thin(1, 9), Right()]) }

  /** The first delete merges on every level. */
  lemma FirstRoot()
    ensures Readied(Start(), 0, 2) == (Node([], [Joint()]), 0)
  {
    ThinIs(1);
    assert Joined(Start().kids[0], Entry(8), Start().kids[1]) == Joint();
    assert WithJoined(Start(), 0, Joint()) == Node([], [Joint()]);
  }

  lemma FirstJoint()
    ensures Readied(Joint(), 0, 2) == (Node([Entry(8), Entry(12)], [Four(), Thin(1, 9), Right()]), 0)
  {
    ThinIs(1);
    ThinIs(5);
    assert Joined(Joint().kids[0], Entry(4), Joint().kids[1]) == Four();
    assert WithJoined(Joint(), 0, Four()) == Node([Entry(8), Entry(12)], [Four(), Thin(1, 9), Right()]);
  }

  lemma FirstFour()
    ensures Readied(Four(), 0, 2) == (Node([Entry(4), Entry(6)], [Three(1), One(5), One(7)]), 0)
  {
    assert Joined(One(1), Entry(2), One(3)) == Three(1);
    assert WithJoined(Four(), 0, Three(1)) == Node([Entry(4), Entry(6)], [Three(1), One(5), One(7)]);
  }

  lemma DeleteFour(h: nat, q: Tree)
    requires Deletable(Four(), 2, h, 2) && Fillable(Four()) && q == Node([Entry(4), Entry(6)], [Three(1), One(5), One(7)])
    ensures DeleteNode(Four(), Entry(0), 2, h, 2) == (false, q)
  {
    FirstFour();
    Down(Four(), Entry(0), h, 2, q, 0);
    LeafMisses(1, Entry(0), h - 1);
    Descends(Four(), Entry(0), h, 2, q, 0, Three(1));
    assert WithKid(q, 0, Three(1)) == q;
  }

  lemma DeleteJoint(h: nat)
    requires Deletable(Joint(), 2, h, 2) && Fillable(Joint())
    ensures DeleteNode(Joint(), Entry(0), 2, h, 2) == (false, First())
  {
    var e := Entry(0);
    var p := Node([Entry(8), Entry(12)], [Four(), Thin(1, 9), Right()]);
    var q := Node([Entry(4), Entry(6)], [Three(1), One(5), One(7)]);
    FirstJoint();
    Down(Joint(), e, h, 2, p, 0);
    DeleteFour(h - 1, q);
    Descends(Joint(), e, h, 2, p, 0, q);
    assert WithKid(p, 0, q) == First();
  }

  /** The only two children of the root merge. */
  ghost predicate Merging(t: Tree, joint: Tree) {
    t.Node? && |t.data| == 1 && |t.kids| == 2 && Fillable(t) && |joint.data| >= 2 && Readied(t, 0, 2) == (Node([], [joint]), 0)
  }

  lemma JointGood(t: Tree, h: nat, joint: Tree)
    requires Good(t, 2, h, 0) && Merging(t, joint)
    ensures h > 0 && Deletable(joint, 2, h - 1, 2) && (joint.Node? ==> Fillable(joint))
  {
    Down(t, t.data[0], h, 0, Node([], [joint]), 0);
  }

  lemma RootMerges(t: Tree, e: Record, h: nat, joint: Tree, c: Tree)
    requires Good(t, 2, h, 0) && Merging(t, joint) && Cmp(e, t.data[0]) < 0
    requires h > 0 && Deletable(joint, 2, h - 1, 2) && DeleteNode(joint, e, 2, h - 1, 2) == (false, c)
    ensures DeleteRoot(t, e, 2, h) == Some((false, Node([], [c])))
  {
    var root := Node([], [joint]);
    Down(t, e, h, 0, root, 0);
    Descends(t, e, h, 0, root, 0, c);
    assert WithKid(root, 0, c) == Node([], [c]);
  }

  lemma FirstMerging(h: nat)
    requires Good(Start(), 2, h, 0)
    ensures Merging(Start(), Joint()) && Cmp(Entry(0), Start().data[0]) < 0
  {
    GoodFillable(Start(), 2, h, 0);
    FirstRoot();
  }

  lemma FirstDelete(h: nat)
    requires Good(Start(), 2, h, 0)
    ensures DeleteRoot(Start(), Entry(0), 2, h) == Some((false, Node([], [First()])))
  {
    FirstMerging(h);
    JointGood(Start(), h, Joint());
    DeleteJoint(h - 1);
    RootMerges(Start(), Entry(0), h, Joint(), First());
  }

  /** A delete from below a root without entries goes on in its only child. */
  lemma BelowKeyless(t: Tree, e: Record, h: nat, c: Tree)
    requires Good(Node([], [t]), 2, h, 0) && |t.data| >= 2 && h > 0 && Deletable(t, 2, h - 1, 2)
    requires DeleteNode(t, e, 2, h - 1, 2) == (false, c)
    ensures DeleteRoot(Node([], [t]), e, 2, h) == Some((false, Node([], [c])))
  {
    assert WithKid(Node([], [t]), 0, c) == Node([], [c]);
  }

  lemma OnlyGood(t: Tree, h: nat)
    requires Good(Node([], [t]), 2, h, 0) && |t.data| >= 2
    ensures h > 0 && Deletable(t, 2, h - 1, 2) && Regular(t) && (t.Node? ==> Fillable(t))
  {
    var root := Node([], [t]);
    GoodChild(root, 2, h, 0, 0);
    assert Good(root.kids[0], 2, h - 1, 2);
    GoodRegular(t, 2, h - 1, 2);
    if t.Node? {
      GoodFillable(t, 2, h - 1, 2);
    }
  }

  /** The second one, between the sixth entry and the seventh, merges two leaves. */
  lemma SecondDelete(h: nat)
    requires Good(Node([], [First()]), 2, h, 0)
    ensures DeleteRoot(Node([], [First()]), Between(), 2, h) == Some((false, Node([], [Second()])))
  {
    var e, t := Between(), First();
    OnlyGood(t, h);
    assert Position(t.data, e, 0) == 0 && Readied(t, 0, 2) == (t, 0);
    Down(t, e, h - 1, 2, t, 0);
    var s, q := t.kids[0], Node([Entry(4)], [Three(1), Three(5)]);
    assert Position(s.data, e, 0) == 2;
    SecondJoin(s, q);
    Down(s, e, h - 2, 2, q, 1);
    LeafMisses(5, e, h - 3);
    Descends(s, e, h - 2, 2, q, 1, Three(5));
    assert WithKid(q, 1, Three(5)) == q;
    Descends(t, e, h - 1, 2, t, 0, q);
    assert WithKid(t, 0, q) == Second();
    BelowKeyless(t, e, h, Second());
  }

  lemma SecondJoin(s: Tree, q: Tree)
    requires s == Node([Entry(4), Entry(6)], [Three(1), One(5), One(7)]) && q == Node([Entry(4)], [Three(1), Three(5)])
    ensures Readied(s, 2, 2) == (q, 1)
  {
    assert |s.kids[1].data| == 1 && |s.kids[2].data| == 1;
    assert Joined(One(5), Entry(6), One(7)) == Three(5);
    assert WithJoined(s, 1, Three(5)) == q;
  }

  /** The third one merges two inner nodes, and their parent is left with one entry. */
  lemma ThirdDelete(h: nat)
    requires Good(Node([], [Second()]), 2, h, 0)
    ensures DeleteRoot(Node([], [Second()]), Entry(0), 2, h) == Some((false, Node([], [Third()])))
  {
    var e, t := Entry(0), Second();
    OnlyGood(t, h);
    assert Position(t.data, e, 0) == 0;
    ThirdJoin();
    Down(t, e, h - 1, 2, Third(), 0);
    var s := Third().kids[0];
    assert Position(s.data, e, 0) == 0 && Readied(s, 0, 2) == (s, 0);
    Down(s, e, h - 2, 2, s, 0);
    LeafMisses(1, e, h - 3);
    Descends(s, e, h - 2, 2, s, 0, Three(1));
    assert WithKid(s, 0, Three(1)) == s;
    Descends(t, e, h - 1, 2, Third(), 0, s);
    assert WithKid(Third(), 0, s) == Third();
    BelowKeyless(t, e, h, Third());
  }

  lemma ThirdJoin()
    ensures Readied(Second(), 0, 2) == (Third(), 0)
  {
    ThinIs(9);
    var l := Second().kids[0];
    assert Joined(l, Entry(8), Thin(1, 9)) == Third().kids[0];
    assert WithJoined(Second(), 0, Third().kids[0]) == Third();
  }

  /** The first entry is there, and the root is stuck. */
  lemma ThirdStuck(h: nat)
    requires Good(Node([], [Third()]), 2, h, 0)
    ensures Stuck(Node([], [Third()]), 2) && Entry(1) in InOrder(Node([], [Third()]))
  {
    var root, t := Node([], [Third()]), Third();
    GoodRegular(root, 2, h, 0);
    GoodChild(root, 2, h, 0, 0);
    GoodRegular(t, 2, h - 1, 1);
    GoodChild(t, 2, h - 1, 1, 0);
    var s := t.kids[0];
    OnlyChild(root);
    FocusFirst(t);
    GoodRegular(s, 2, h - 2, 1);
    FocusFirst(s);
    assert InOrder(s.kids[0]) == [Entry(1), Entry(2), Entry(3)];
    assert InOrder(s)[0] == Entry(1) && InOrder(t)[0] == Entry(1);
  }

  // ------------------------------------------------------------------ the run

  ghost predicate UpTo(s: seq<Record>, n: nat) { Strict(s) && forall i :: 0 <= i < |s| ==> s[i].key <= n as real }

  lemma UpToAbsent(s: seq<Record>, n: nat)
    requires UpTo(s, n)
    ensures Absent(s, Entry(n + 1))
  {
  }

  lemma UpToNext(s: seq<Record>, n: nat, s': seq<Record>, k: nat)
    requires UpTo(s, n) && Strict(s') && Inserted(s, Entry(n + 1), s', k)
    ensures UpTo(s', n + 1)
  {
  }

  datatype Call = Insert(e: Record) | Delete(e: Record)

  /** What a call that does not fail leaves of the tree. */
  ghost predicate Follows(call: Call, before: Tree, after: Tree) {
    exists h: nat :: Good(before, 2, h, 0) && LeavesAt(call, before, after, h)
  }

  ghost predicate LeavesAt(call: Call, before: Tree, after: Tree, h: nat)
    requires Good(before, 2, h, 0)
  {
    match call
    case Insert(e) => after == InsertRoot(before, e, 2, h)
    case Delete(e) => var r := DeleteRoot(before, e, 2, h); r.Some? && after == Shrunk(r.value.0, r.value.1)
  }

  /** The tree before and after every call, from the empty tree on. */
  ghost predicate Trace(calls: seq<Call>, roots: seq<Tree>) {
    && |roots| == |calls| + 1 && roots[0] == Leaf([])
    && forall i :: 0 <= i < |calls| ==> Follows(calls[i], roots[i], roots[i + 1])
  }

  lemma TraceNext(calls: seq<Call>, roots: seq<Tree>, call: Call, after: Tree)
    requires Trace(calls, roots) && Follows(call, roots[|calls|], after)
    ensures Trace(calls + [call], roots + [after])
  {
  }

  function Ascending(n: nat): (calls: seq<Call>) {
    if n == 0 then [] else Ascending(n - 1) + [Insert(Entry(n))]
  }

  /** The tree after so many ascending inserts. */
  ghost predicate Ascended(root: Tree, n: nat) {
    var ds := DigitsAt(n);
    Digits(ds) && Next(ds, 1) == n + 1 && root == Spine(ds, 1) && UpTo(InOrder(root), n)
  }

  /** Ascending inserts into an empty tree. */
  method InsertAscending(n: nat) returns (m: BTreeMap, ghost roots: seq<Tree>)
    ensures fresh(m) && m.Valid() && m.deg == 2 && Ascended(m.root, n)
    ensures Trace(Ascending(n), roots) && roots[|Ascending(n)|] == m.root
  {
    m := new BTreeMap(2);
    NothingYet(m.root);
    roots := [m.root];
    for i := 0 to n
      invariant fresh(m) && m.Valid() && m.deg == 2 && Ascended(m.root, i)
      invariant Trace(Ascending(i), roots) && roots[|Ascending(i)|] == m.root
    {
      InsertNextInto(m, i);
      TraceNext(Ascending(i), roots, Insert(Entry(i + 1)), m.root);
      roots := roots + [m.root];
    }
  }

  lemma NothingYet(root: Tree)
    requires root == Leaf([])
    ensures Ascended(root, 0)
  {
    assert Spine([0], 1) == Leaf(From(1, 0));
  }

  method InsertNextInto(m: BTreeMap, i: nat)
    requires m.Valid() && m.deg == 2 && Ascended(m.root, i)
    modifies m
    ensures m.Valid() && Ascended(m.root, i + 1) && Follows(Insert(Entry(i + 1)), old(m.root), m.root)
  {
    ghost var before, h := m.root, m.height;
    UpToAbsent(InOrder(before), i);
    m.Insert(Entry(i + 1));
    ghost var k: nat :| Inserted(InOrder(before), Entry(i + 1), InOrder(m.root), k);
    Ascends(before, m.root, i, h, k);
    assert LeavesAt(Insert(Entry(i + 1)), before, m.root, h);
  }

  lemma Ascends(before: Tree, after: Tree, i: nat, h: nat, k: nat)
    requires Ascended(before, i) && Good(before, 2, h, 0) && after == InsertRoot(before, Entry(i + 1), 2, h)
    requires Strict(InOrder(after)) && Inserted(InOrder(before), Entry(i + 1), InOrder(after), k)
    ensures Ascended(after, i + 1)
  {
    NextDigitsOf(DigitsAt(i), i, before, after, h);
    UpToNext(InOrder(before), i, InOrder(after), k);
  }

  lemma NextDigitsOf(ds: seq<nat>, i: nat, before: Tree, after: Tree, h: nat)
    requires Digits(ds) && Next(ds, 1) == i + 1 && before == Spine(ds, 1) && Good(before, 2, h, 0)
    requires after == InsertRoot(before, Entry(i + 1), 2, h)
    ensures var ds' := NextDigits(ds[0], ds[1..]); Digits(ds') && Next(ds', 1) == i + 2 && after == Spine(ds', 1)
  {
    assert [ds[0]] + ds[1..] == ds;
    InsertNext(ds[0], ds[1..], 1, h, before, i + 1);
    NextCounts(ds[0], ds[1..], 1);
  }

  /** The number of the next entry goes up by one. */
  lemma {:induction false} IncrCounts(d: nat, rest: seq<nat>, k: nat)
    requires Digits([d] + rest) && d < 3
    ensures Next(Incr(d, rest), k) == Next([d] + rest, k) + 1
    decreases |rest|
  {
    SpineOf(d, rest, k);
    if rest != [] {
      assert rest == [rest[0]] + rest[1..];
      if rest[0] == 3 {
        IncrHead(rest[1..]);
        IncrCounts(1, rest[1..], End(d + 1, k, |rest| - 1));
        IncrFull(d, rest, k);
      } else {
        IncrCounts(rest[0], rest[1..], End(d, k, |rest| - 1));
        var low := Incr(rest[0], rest[1..]);
        assert ([d] + low)[1..] == low;
      }
    }
  }

  lemma IncrFull(d: nat, rest: seq<nat>, k: nat)
    requires Digits([d] + rest) && d < 3 && rest != [] && rest[0] == 3 && Digits([1] + rest[1..])
    requires Next(Incr(1, rest[1..]), End(d + 1, k, |rest| - 1)) == Next([1] + rest[1..], End(d + 1, k, |rest| - 1)) + 1
    ensures Next(Incr(d, rest), k) == Next([d] + rest, k) + 1
  {
    SpineOf(d, rest, k);
    assert rest == [rest[0]] + rest[1..];
    SplitNext(rest[1..], End(d, k, |rest| - 1));
    EndNext(d, k, |rest| - 1);
    var low := Incr(1, rest[1..]);
    assert ([d + 1] + low)[1..] == low;
  }

  lemma IncrHead(rest: seq<nat>)
    requires Digits([3] + rest)
    ensures Digits([1] + rest)
  {
    SpineOf(3, rest, 0);
    if rest != [] {
      assert rest[0] == ([3] + rest)[1];
    }
    DigitsAhead(1, rest);
  }

  lemma NextCounts(d: nat, rest: seq<nat>, k: nat)
    requires Digits([d] + rest)
    ensures Next(NextDigits(d, rest), k) == Next([d] + rest, k) + 1
  {
    assert d == ([d] + rest)[0];
    if d == 3 {
      IncrHead(rest);
      DigitsAhead(1, [1] + rest);
      IncrCounts(1, [1] + rest, k);
      SplitNext(rest, k);
      SpineOf(1, [1] + rest, k);
      assert End(1, k, |rest|) == k + Width(|rest|) + 1;
    } else {
      IncrCounts(d, rest, k);
    }
  }

  /** The delete of an entry that is not in this tree leaves the other. */
  ghost predicate Misses(t: Tree, e: Record, t': Tree) {
    forall h: nat :: Good(t, 2, h, 0) ==> DeleteRoot(t, e, 2, h) == Some((false, t'))
  }

  lemma ThreeMiss()
    ensures Misses(Start(), Entry(0), Node([], [First()]))
    ensures Misses(Node([], [First()]), Between(), Node([], [Second()]))
    ensures Misses(Node([], [Second()]), Entry(0), Node([], [Third()]))
  {
    forall h: nat | Good(Start(), 2, h, 0) ensures DeleteRoot(Start(), Entry(0), 2, h) == Some((false, Node([], [First()]))) {
      FirstDelete(h);
    }
    forall h: nat | Good(Node([], [First()]), 2, h, 0)
      ensures DeleteRoot(Node([], [First()]), Between(), 2, h) == Some((false, Node([], [Second()])))
    {
      SecondDelete(h);
    }
    forall h: nat | Good(Node([], [Second()]), 2, h, 0)
      ensures DeleteRoot(Node([], [Second()]), Entry(0), 2, h) == Some((false, Node([], [Third()])))
    {
      ThirdDelete(h);
    }
  }

  method DeleteAbsent(m: BTreeMap, e: Record, ghost after: Tree, ghost calls: seq<Call>, ghost roots: seq<Tree>) returns (ghost roots': seq<Tree>)
    requires m.Valid() && m.deg == 2 && Strict(InOrder(m.root)) && Misses(m.root, e, after)
    requires Trace(calls, roots) && roots[|calls|] == m.root
    modifies m
    ensures m.Valid() && m.root == after && Strict(InOrder(m.root))
    ensures Trace(calls + [Delete(e)], roots') && roots'[|calls| + 1] == m.root
  {
    ghost var before, h := m.root, m.height;
    var panicked, found := m.Delete(e);
    assert LeavesAt(Delete(e), before, m.root, h);
    TraceNext(calls, roots, Delete(e), m.root);
    roots' := roots + [m.root];
  }

  method DeleteThree(m: BTreeMap, e: Record, e': Record, ghost first: Tree, ghost second: Tree, ghost third: Tree,
                     ghost calls: seq<Call>, ghost roots: seq<Tree>)
    returns (ghost roots': seq<Tree>)
    requires m.Valid() && m.deg == 2 && Strict(InOrder(m.root)) && Trace(calls, roots) && roots[|calls|] == m.root
    requires Misses(m.root, e, first) && Misses(first, e', second) && Misses(second, e, third)
    modifies m
    ensures m.Valid() && m.root == third
    ensures Trace(calls + [Delete(e)] + [Delete(e')] + [Delete(e)], roots') && roots'[|calls| + 3] == m.root
  {
    roots' := DeleteAbsent(m, e, first, calls, roots);
    roots' := DeleteAbsent(m, e', second, calls + [Delete(e)], roots');
    roots' := DeleteAbsent(m, e, third, calls + [Delete(e)] + [Delete(e')], roots');
  }

  /** So many ascending inserts and three deletes of entries that are not there. */
  function Calls(n: nat): (calls: seq<Call>) { Ascending(n) + [Delete(Entry(0))] + [Delete(Between())] + [Delete(Entry(0))] }

  method DeleteAgain(m: BTreeMap, e: Record) returns (panicked: bool)
    requires m.Valid() && Stuck(m.root, m.deg)
    modifies m
    ensures panicked && m.Valid() && m.root == old(m.root)
  {
    var found;
    panicked, found := m.Delete(e);
  }

  /** After these calls, none of which fails, the delete of an entry that is there does. */
  method PresentEntryFails(n: nat) returns (m: BTreeMap, ghost roots: seq<Tree>, panicked: bool)
    requires n == 18
    ensures Trace(Calls(n), roots) && roots[|Calls(n)|] == m.root && m.Valid() && m.deg == 2
    ensures Entry(1) in InOrder(m.root) && Stuck(m.root, 2) && panicked
  {
    m, roots := InsertAscending(n);
    Eighteen();
    StartIs();
    ThreeMiss();
    roots := DeleteThree(m, Entry(0), Between(), Node([], [First()]), Node([], [Second()]), Node([], [Third()]), Ascending(n), roots);
    ThirdStuck(m.height);
    panicked := DeleteAgain(m, Entry(1));
  }
}

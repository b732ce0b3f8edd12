/**
 Value and key encodings inside a data block: variable-length integers (package encoding/binary),
 delta-encoded keys with restart points (internal/encoders/delta_encoder_bytes.go) and dictionary
 values (internal/encoders/adaptive_encoder.go).
 */
module Encoders {
  import opened ByteOrder
  import opened IndexWidth
  import opened Keys
  import opened Options

  // ------------------------------------------------------------------ variable-length integers

  /** `AppendUvarint`: seven bits a byte, the high bit set on all but the last. */
  function Uvarint(n: nat): (b: Bytes)
    ensures |b| > 0
  {
    if n < 128 then [n as Byte] else [(n % 128 + 128) as Byte] + Uvarint(n / 128)
  }

  /** `Uvarint` of a buffer: the value and the number of bytes; nothing if cut short or beyond 64 bits. */
  function ReadUvarint(data: Bytes, pos: nat, i: nat): (r: Option<(nat, nat)>)
    requires pos <= |data|
    ensures r.Some? ==> 0 < r.value.1 && pos + r.value.1 <= |data|
    decreases |data| - pos
  {
    if pos == |data| || i >= 10 then None
    else if data[pos] < 128 then (if i == 9 && data[pos] > 1 then None else Some((data[pos] as nat, 1)))
    else
      var rest := ReadUvarint(data, pos + 1, i + 1);
      if rest.None? then None
      else Some((data[pos] as nat - 128 + 128 * rest.value.0, rest.value.1 + 1))
  }

  /** What is left of 64 bits after `i` bytes. */
  function Room(i: nat): (n: nat)
    decreases 9 - i
  {
    if i >= 9 then 2 else 128 * Room(i + 1)
  }

  lemma {:induction false} UvarintRoundTrip(data: Bytes, pos: nat, n: nat, i: nat)
    requires Holds(data, pos, Uvarint(n)) && i <= 9 && n < Room(i)
    ensures pos <= |data| && ReadUvarint(data, pos, i) == Some((n, |Uvarint(n)|))
    decreases n
  {
    HoldsAt(data, pos, Uvarint(n), 0);
    if n >= 128 {
      HoldsSplit(data, pos, [(n % 128 + 128) as Byte], Uvarint(n / 128));
      UvarintRoundTrip(data, pos + 1, n / 128, i + 1);
    }
  }

  /** Seven bits of each byte, the lowest first. */
  ghost function SevenBits(b: Bytes): (n: nat) { if b == [] then 0 else b[0] as nat % 128 + 128 * SevenBits(b[1..]) }

  /** Only the last byte has its high bit clear. */
  ghost predicate Ends(b: Bytes) {
    b != [] && b[|b| - 1] < 128 && forall i :: 0 <= i < |b| - 1 ==> b[i] >= 128
  }

  /** Bytes up to the first whose high bit is clear, within what is left of ten bytes and of 64 bits. */
  ghost predicate VarintAt(data: Bytes, pos: nat, i: nat, n: nat, k: nat) {
    && pos + k <= |data| && Ends(data[pos..pos + k]) && n == SevenBits(data[pos..pos + k])
    && k <= 10 - i && n < Room(i)
  }

  lemma MoreBits(data: Bytes, pos: nat, i: nat, n: nat, k: nat)
    requires pos < |data| && data[pos] >= 128 && i < 9
    ensures VarintAt(data, pos, i, data[pos] as nat - 128 + 128 * n, k + 1) <==> VarintAt(data, pos + 1, i + 1, n, k)
  {
    if pos + 1 + k <= |data| {
      FirstSeven(data[pos..pos + 1 + k], data[pos + 1..pos + 1 + k]);
    }
  }

  lemma LastBits(data: Bytes, pos: nat, i: nat, n: nat, k: nat)
    requires pos < |data| && i <= 9 && (data[pos] < 128 || i == 9)
    ensures VarintAt(data, pos, i, n, k) <==> data[pos] < 128 && n == data[pos] as nat && k == 1 && (i == 9 ==> data[pos] <= 1)
  {
    RoomFits(i);
    if 0 < k && pos + k <= |data| {
      FirstSeven(data[pos..pos + k], data[pos + 1..pos + k]);
    }
  }

  lemma {:induction false} RoomFits(i: nat)
    requires i <= 9
    ensures Room(i) >= 2 && (i < 9 ==> Room(i) >= 128)
    decreases 9 - i
  {
    if i < 9 {
      RoomFits(i + 1);
    }
  }

  /** Exactly such bytes are read. */
  lemma UvarintExactly(data: Bytes, pos: nat, i: nat, n: nat, k: nat)
    requires pos <= |data| && i <= 9
    ensures ReadUvarint(data, pos, i) == Some((n, k)) <==> VarintAt(data, pos, i, n, k)
  {
    if ReadUvarint(data, pos, i) == Some((n, k)) {
      UvarintSound(data, pos, i, n, k);
    }
    if VarintAt(data, pos, i, n, k) {
      UvarintComplete(data, pos, i, n, k);
    }
  }

  lemma {:induction false} UvarintSound(data: Bytes, pos: nat, i: nat, n: nat, k: nat)
    requires pos <= |data| && i <= 9 && ReadUvarint(data, pos, i) == Some((n, k))
    ensures VarintAt(data, pos, i, n, k)
    decreases 10 - i
  {
    if data[pos] >= 128 && i < 9 {
      var rest := ReadUvarint(data, pos + 1, i + 1).value;
      UvarintSound(data, pos + 1, i + 1, rest.0, rest.1);
      MoreBits(data, pos, i, rest.0, rest.1);
    } else {
      LastBits(data, pos, i, n, k);
    }
  }

  lemma {:induction false} UvarintComplete(data: Bytes, pos: nat, i: nat, n: nat, k: nat)
    requires i <= 9 && VarintAt(data, pos, i, n, k)
    ensures pos < |data| && ReadUvarint(data, pos, i) == Some((n, k))
    decreases 10 - i
  {
    if data[pos] >= 128 && i < 9 {
      FirstSeven(data[pos..pos + k], data[pos + 1..pos + k]);
      var more := SevenBits(data[pos + 1..pos + k]);
      MoreBits(data, pos, i, more, k - 1);
      UvarintComplete(data, pos + 1, i + 1, more, k - 1);
    } else {
      LastBits(data, pos, i, n, k);
    }
  }

  lemma FirstSeven(b: Bytes, rest: Bytes)
    requires b != [] && rest == b[1..]
    ensures SevenBits(b) == b[0] as nat % 128 + 128 * SevenBits(rest)
    ensures b[0] >= 128 ==> (Ends(b) <==> Ends(rest))
    ensures b[0] < 128 ==> (Ends(b) <==> rest == [])
  {
    if Ends(rest) && b[0] >= 128 {
      forall i | 0 <= i < |b| - 1 ensures b[i] >= 128 {
        assert i > 0 ==> b[i] == rest[i - 1];
      }
    }
    if Ends(b) && rest != [] {
      forall i | 0 <= i < |rest| - 1 ensures rest[i] >= 128 {
        assert rest[i] == b[i + 1];
      }
    }
  }

  lemma {:induction false} UvarintShort(n: nat, i: nat)
    requires i <= 9 && n < Room(i)
    ensures |Uvarint(n)| <= 10 - i
    decreases n
  {
    if n >= 128 {
      UvarintShort(n / 128, i + 1);
    }
  }

  lemma {:induction false} UvarintSmall(n: nat)
    ensures |Uvarint(n)| <= 1 + n
  {
    if n >= 128 {
      UvarintSmall(n / 128);
    }
  }

  /** Every 64-bit value fits. */
  lemma RoomIs64Bits()
    ensures Room(0) == 0x1_0000_0000_0000_0000
  {
    assert Room(8) == 256 && Room(7) == 32768;
    assert Room(6) == 4194304 && Room(5) == 536870912;
    assert Room(4) == 68719476736 && Room(3) == 8796093022208;
    assert Room(2) == 1125899906842624 && Room(1) == 144115188075855872;
  }

  // ------------------------------------------------------------------ keys

  /** `sharedPrefixLen`. */
  method SharedPrefixLen(a: Bytes, b: Bytes) returns (n: nat)
    ensures n == Shared(a, b, 0)
  {
    var m := if |b| < |a| then |b| else |a|;
    n := 0;
    while n < m
      invariant n <= m && Shared(a, b, n) == Shared(a, b, 0)
    {
      if a[n] != b[n] {
        return;
      }
      n := n + 1;
    }
  }

  /** The length of the common prefix, given that the first `i` bytes agree. */
  function Shared(a: Bytes, b: Bytes, i: nat): (n: nat)
    decreases |a| - i
  {
    if i < |a| && i < |b| && a[i] == b[i] then Shared(a, b, i + 1) else i
  }

  lemma {:induction false} SharedIsPrefix(a: Bytes, b: Bytes, i: nat)
    requires i <= |a| && i <= |b| && a[..i] == b[..i]
    ensures i <= Shared(a, b, i) <= |a| && Shared(a, b, i) <= |b|
    ensures a[..Shared(a, b, i)] == b[..Shared(a, b, i)]
    ensures Shared(a, b, i) < |a| && Shared(a, b, i) < |b| ==> a[Shared(a, b, i)] != b[Shared(a, b, i)]
    decreases |a| - i
  {
    if i < |a| && i < |b| && a[i] == b[i] {
      assert a[..i + 1] == a[..i] + [a[i]] == b[..i + 1];
      SharedIsPrefix(a, b, i + 1);
    }
  }

  /** The bytes of a key behind a previous one. */
  function KeyBytes(prev: Bytes, key: Bytes): (b: Bytes) {
    SharedIsPrefix(prev, key, 0);
    var shared := Shared(prev, key, 0);
    Uvarint(shared) + (Uvarint(|key| - shared) + key[shared..])
  }

  /** The longest prefix that the two have in common. */
  ghost predicate LongestShared(a: Bytes, b: Bytes, n: nat) {
    n <= |a| && n <= |b| && a[..n] == b[..n] && (n < |a| && n < |b| ==> a[n] != b[n])
  }

  /** What is written of a key: the length of the longest prefix shared with the previous one, and the rest. */
  lemma KeyShares(prev: Bytes, key: Bytes, n: nat)
    requires LongestShared(prev, key, n)
    ensures KeyBytes(prev, key) == Uvarint(n) + (Uvarint(|key| - n) + key[n..])
  {
    SharedIsPrefix(prev, key, 0);
    SharedOnce(prev, key, n, Shared(prev, key, 0));
  }

  lemma SharedOnce(a: Bytes, b: Bytes, n: nat, m: nat)
    requires LongestShared(a, b, n) && LongestShared(a, b, m)
    ensures n == m
  {
    forall i | 0 <= i < n ensures a[i] == b[i] {
      assert a[..n][i] == b[..n][i];
    }
    forall i | 0 <= i < m ensures a[i] == b[i] {
      assert a[..m][i] == b[..m][i];
    }
  }

  /** `Decode` of the delta encoder: the key and the position behind it. */
  function ReadKey(data: Bytes, pos: nat, prev: Bytes): (r: Option<(Bytes, nat)>)
    requires pos <= |data|
    ensures r.Some? ==> pos < r.value.1 <= |data|
  {
    var shared := ReadUvarint(data, pos, 0);
    if shared.None? then None
    else
      var p := pos + shared.value.1;
      var rest := ReadUvarint(data, p, 0);
      if rest.None? then None
      else
        var q := p + rest.value.1;
        if shared.value.0 > |prev| || q + rest.value.0 > |data| then None
        else Some((prev[..shared.value.0] + data[q..q + rest.value.0], q + rest.value.0))
  }

  lemma ReadKeyAt(data: Bytes, pos: nat, prev: Bytes, shared: nat, n: nat, suffix: Bytes, m: nat)
    requires pos <= |data| && ReadUvarint(data, pos, 0) == Some((shared, n)) && ReadUvarint(data, pos + n, 0) == Some((|suffix|, m))
    requires shared <= |prev| && Holds(data, pos + n + m, suffix)
    ensures ReadKey(data, pos, prev) == Some((prev[..shared] + suffix, pos + n + m + |suffix|))
  {
  }

  lemma ReadUvarints(data: Bytes, pos: nat, x: nat, y: nat, head: Bytes, len: Bytes)
    requires head == Uvarint(x) && len == Uvarint(y) && x < Room(0) && y < Room(0)
    requires Holds(data, pos, head) && Holds(data, pos + |head|, len)
    ensures pos <= |data| && ReadUvarint(data, pos, 0) == Some((x, |head|))
    ensures pos + |head| <= |data| && ReadUvarint(data, pos + |head|, 0) == Some((y, |len|))
  {
    UvarintRoundTrip(data, pos, x, 0);
    UvarintRoundTrip(data, pos + |head|, y, 0);
  }

  lemma ReadPieces(data: Bytes, pos: nat, prev: Bytes, shared: nat, suffix: Bytes, head: Bytes, len: Bytes)
    requires head == Uvarint(shared) && len == Uvarint(|suffix|) && shared < Room(0) && |suffix| < Room(0)
    requires Holds(data, pos, head + (len + suffix)) && shared <= |prev|
    ensures pos <= |data| && ReadKey(data, pos, prev) == Some((prev[..shared] + suffix, pos + |head + (len + suffix)|))
  {
    HoldsThree(data, pos, head, len, suffix);
    ReadUvarints(data, pos, shared, |suffix|, head, len);
    ReadKeyAt(data, pos, prev, shared, |head|, suffix, |len|);
  }

  lemma HoldsThree(data: Bytes, pos: nat, a: Bytes, b: Bytes, c: Bytes)
    requires Holds(data, pos, a + (b + c))
    ensures Holds(data, pos, a) && Holds(data, pos + |a|, b) && Holds(data, pos + |a| + |b|, c)
  {
    HoldsSplit(data, pos, a, b + c);
    HoldsSplit(data, pos + |a|, b, c);
  }

  /** A key is read back with its previous key, or with any if it was written without one. */
  lemma KeyRoundTrip(data: Bytes, pos: nat, prev: Bytes, prev': Bytes, key: Bytes)
    requires Holds(data, pos, KeyBytes(prev, key)) && |key| < Room(0) && (prev' == prev || prev == [])
    ensures pos <= |data| && ReadKey(data, pos, prev') == Some((key, pos + |KeyBytes(prev, key)|))
  {
    SharedIsPrefix(prev, key, 0);
    var shared := Shared(prev, key, 0);
    ReadPieces(data, pos, prev', shared, key[shared..], Uvarint(shared), Uvarint(|key| - shared));
    assert prev'[..shared] + key[shared..] == key;
  }

  /** The delta encoder. */
  class DeltaEncoder {
    const restartInterval: nat
    var prevKey: Bytes
    var entryIndex: nat
    var restartArray: seq<nat>

    constructor (restartInterval: nat)
      ensures this.restartInterval == restartInterval && prevKey == [] && entryIndex == 0 && restartArray == []
    {
      this.restartInterval := restartInterval;
      prevKey, entryIndex, restartArray := [], 0, [];
    }

    method Reset()
      modifies this
      ensures prevKey == [] && entryIndex == 0 && restartArray == []
    {
      prevKey, entryIndex, restartArray := [], 0, [];
    }

    predicate AtRestart()
      reads this
    {
      entryIndex == 0 || entryIndex == restartInterval
    }

    /** `Encode`: at a restart point the whole key, noting the offset; otherwise what differs from the last. */
    method Encode(key: Bytes, offset: nat, buf: Bytes) returns (buf': Bytes)
      modifies this
      ensures buf' == buf + KeyBytes(if old(AtRestart()) then [] else old(prevKey), key)
      ensures restartArray == if old(AtRestart()) then old(restartArray) + [offset] else old(restartArray)
      ensures prevKey == key && entryIndex == if old(AtRestart()) then 1 else old(entryIndex) + 1
      ensures old(entryIndex) == 0 || old(entryIndex) == restartInterval ==>
                buf' == buf + (Uvarint(0) + (Uvarint(|key|) + key)) && restartArray == old(restartArray) + [offset]
      ensures !(old(entryIndex) == 0 || old(entryIndex) == restartInterval) ==> restartArray == old(restartArray)
      ensures !(old(entryIndex) == 0 || old(entryIndex) == restartInterval) ==>
                forall n: nat :: LongestShared(old(prevKey), key, n) ==> buf' == buf + (Uvarint(n) + (Uvarint(|key| - n) + key[n..]))
    {
      ghost var last := prevKey;
      var shared := 0;
      if entryIndex == 0 || entryIndex == restartInterval {
        restartArray, prevKey, entryIndex := restartArray + [offset], [], 0;
      } else {
        shared := SharedPrefixLen(prevKey, key);
      }
      SharedIsPrefix(prevKey, key, 0);
      buf' := buf + Uvarint(shared) + Uvarint(|key| - shared) + key[shared..];
      prevKey, entryIndex := key, entryIndex + 1;
      KeyShares([], key, 0);
      forall n: nat | LongestShared(last, key, n) ensures KeyBytes(last, key) == Uvarint(n) + (Uvarint(|key| - n) + key[n..]) {
        KeyShares(last, key, n);
      }
    }

    /** `Decode`: the previous key changes only when the bytes are a key. */
    method Decode(data: Bytes, pos: nat) returns (r: Option<(Bytes, nat)>)
      requires pos <= |data|
      modifies this`prevKey
      ensures r == ReadKey(data, pos, old(prevKey))
      ensures prevKey == if r.Some? then r.value.0 else old(prevKey)
    {
      var shared := ReadUvarint(data, pos, 0);
      if shared.None? {
        return None;
      }
      var p := pos + shared.value.1;
      var nonShared := ReadUvarint(data, p, 0);
      if nonShared.None? {
        return None;
      }
      p := p + nonShared.value.1;
      if shared.value.0 > |prevKey| || p + nonShared.value.0 > |data| {
        return None;
      }
      var key := prevKey[..shared.value.0] + data[p..p + nonShared.value.0];
      prevKey := key;
      return Some((key, p + nonShared.value.0));
    }
  }

  // ------------------------------------------------------------------ values

  datatype Candidate = Candidate(freq: nat, lastSeen: nat)

  /** When a value was last seen among the first `n`, counting from one; zero if never. */
  function LastSeen(seen: seq<Bytes>, n: nat, value: Bytes): (t: nat)
    requires n <= |seen|
    ensures t <= n
  {
    if n == 0 then 0 else if seen[n - 1] == value then n else LastSeen(seen, n - 1, value)
  }

  /** How often a value has been seen without being away for longer than the window; a window of zero is endless. */
  function Streak(seen: seq<Bytes>, n: nat, value: Bytes, window: nat): (count: nat)
    requires n <= |seen|
  {
    if n == 0 then 0
    else if seen[n - 1] != value then Streak(seen, n - 1, value, window)
    else
      var before := LastSeen(seen, n - 1, value);
      if before > 0 && (window == 0 || n - before <= window) then Streak(seen, n - 1, value, window) + 1 else 1
  }

  lemma {:induction false} SeenSame(seen: seq<Bytes>, x: Bytes, n: nat, value: Bytes, window: nat)
    requires n <= |seen|
    ensures LastSeen(seen + [x], n, value) == LastSeen(seen, n, value)
    ensures Streak(seen + [x], n, value, window) == Streak(seen, n, value, window)
  {
    if n > 0 {
      SeenSame(seen, x, n - 1, value, window);
    }
  }

  /** A candidate has its streak, and outside the dictionary just the values seen within the window are candidates. */
  ghost predicate TrackedAt(candidates: map<Bytes, Candidate>, dictionary: map<Bytes, nat>, seen: seq<Bytes>, window: nat, v: Bytes) {
    var n, last := |seen|, LastSeen(seen, |seen|, v);
    && (v in candidates ==> candidates[v] == Candidate(Streak(seen, n, v, window), last))
    && (v !in dictionary ==> (v in candidates <==> last > 0 && (window == 0 || n - last <= window)))
  }

  ghost predicate Tracked(candidates: map<Bytes, Candidate>, dictionary: map<Bytes, nat>, seen: seq<Bytes>, window: nat) {
    forall v :: TrackedAt(candidates, dictionary, seen, window, v)
  }

  /** The candidates once another value has come and old ones have gone. */
  function Aged(candidates: map<Bytes, Candidate>, now: nat, window: nat): (rest: map<Bytes, Candidate>) {
    if window == 0 then candidates
    else map v | v in candidates && now - candidates[v].lastSeen <= window :: candidates[v]
  }

  /** The candidate that a value outside the dictionary becomes. */
  function Counted(candidates: map<Bytes, Candidate>, value: Bytes, now: nat): (c: Candidate) {
    if value in candidates then Candidate(candidates[value].freq + 1, now) else Candidate(1, now)
  }

  lemma AgedTracked(candidates: map<Bytes, Candidate>, dictionary: map<Bytes, nat>, seen: seq<Bytes>, window: nat, value: Bytes, v: Bytes)
    requires TrackedAt(candidates, dictionary, seen, window, v)
    ensures var seen', aged := seen + [value], Aged(candidates, |seen| + 1, window);
            && (v != value ==> TrackedAt(aged, dictionary, seen', window, v))
            && (v !in dictionary && v == value ==>
                  Counted(aged, v, |seen'|) == Candidate(Streak(seen', |seen'|, v, window), |seen'|))
  {
    SeenSame(seen, value, |seen|, v, window);
  }

  /** A value in the dictionary only makes time pass. */
  lemma KnownTracked(candidates: map<Bytes, Candidate>, dictionary: map<Bytes, nat>, seen: seq<Bytes>, window: nat, value: Bytes)
    requires Tracked(candidates, dictionary, seen, window) && value in dictionary && value !in candidates
    ensures Tracked(Aged(candidates, |seen| + 1, window), dictionary, seen + [value], window)
  {
    var aged, seen' := Aged(candidates, |seen| + 1, window), seen + [value];
    forall v ensures TrackedAt(aged, dictionary, seen', window, v) {
      assert TrackedAt(candidates, dictionary, seen, window, v);
      AgedTracked(candidates, dictionary, seen, window, value, v);
    }
  }

  /** A value outside the dictionary becomes, or stays, a candidate. */
  lemma CountedTracked(candidates: map<Bytes, Candidate>, dictionary: map<Bytes, nat>, seen: seq<Bytes>, window: nat, value: Bytes,
                       aged: map<Bytes, Candidate>, c: Candidate)
    requires Tracked(candidates, dictionary, seen, window) && value !in dictionary
    requires aged == Aged(candidates, |seen| + 1, window) && c == Counted(aged, value, |seen| + 1)
    ensures c == Candidate(Streak(seen + [value], |seen| + 1, value, window), |seen| + 1)
    ensures Tracked(aged[value := c], dictionary, seen + [value], window)
  {
    assert TrackedAt(candidates, dictionary, seen, window, value);
    AgedTracked(candidates, dictionary, seen, window, value, value);
    var next, seen' := aged[value := c], seen + [value];
    forall v ensures TrackedAt(next, dictionary, seen', window, v) {
      assert TrackedAt(candidates, dictionary, seen, window, v);
      AgedTracked(candidates, dictionary, seen, window, value, v);
    }
  }

  lemma PromotedTracked(candidates: map<Bytes, Candidate>, dictionary: map<Bytes, nat>, seen: seq<Bytes>, window: nat, value: Bytes, k: nat)
    requires Tracked(candidates, dictionary, seen, window)
    ensures Tracked(candidates - {value}, dictionary[value := k], seen, window)
  {
    var rest, dictionary' := candidates - {value}, dictionary[value := k];
    forall v ensures TrackedAt(rest, dictionary', seen, window, v) {
      assert TrackedAt(candidates, dictionary, seen, window, v);
    }
  }

  /** `keys` and `dictionary` say the same: the position of every dictionary value. */
  ghost predicate Consistent(keys: seq<Bytes>, dictionary: map<Bytes, nat>) {
    && |dictionary| == |keys|
    && (forall v :: v in dictionary ==> dictionary[v] < |keys| && keys[dictionary[v]] == v)
    && (forall i :: 0 <= i < |keys| ==> keys[i] in dictionary && dictionary[keys[i]] == i)
  }

  lemma ConsistentSnoc(keys: seq<Bytes>, dictionary: map<Bytes, nat>, value: Bytes)
    requires Consistent(keys, dictionary) && value !in dictionary
    ensures Consistent(keys + [value], dictionary[value := |keys|])
  {
    assert dictionary[value := |keys|].Keys == dictionary.Keys + {value};
    assert |dictionary[value := |keys|]| == |dictionary| + 1;
  }

  /** An encoded value without its flag: a dictionary position, or the value itself. */
  datatype EncodedValue = EncodedValue(isEncoded: bool, bytes: Bytes)

  /** `Decode`: nothing for bytes that are too short, or for a position outside the dictionary. */
  function DecodeValue(keys: seq<Bytes>, e: EncodedValue): (v: Option<Bytes>) {
    if !e.isEncoded then Some(e.bytes)
    else
      var idx := ReadIndex(e.bytes, |keys|);
      if idx.None? || idx.value >= |keys| then None else Some(keys[idx.value])
  }

  /** What `Encode` makes of a value with this dictionary. */
  ghost predicate Encodes(keys: seq<Bytes>, e: EncodedValue, v: Bytes) {
    if e.isEncoded then exists idx :: 0 <= idx < |keys| && keys[idx] == v && e.bytes == IndexBytes(idx, |keys|)
    else e.bytes == v
  }

  /** The dictionary and the values that have gone by. */
  datatype DictState = DictState(keys: seq<Bytes>, seen: seq<Bytes>)

  /** What one more value makes of it: it enters the dictionary exactly when its streak reaches the threshold. */
  ghost function Grown(d: DictState, value: Bytes, threshold: nat, window: nat): DictState {
    var seen := d.seen + [value];
    DictState(if value in d.keys || Streak(seen, |seen|, value, window) < threshold then d.keys else d.keys + [value], seen)
  }

  ghost function GrownBy(d: DictState, values: seq<Bytes>, threshold: nat, window: nat): DictState {
    if values == [] then d
    else Grown(GrownBy(d, values[..|values| - 1], threshold, window), values[|values| - 1], threshold, window)
  }

  lemma GrownByOne(d: DictState, values: seq<Bytes>, value: Bytes, threshold: nat, window: nat)
    ensures GrownBy(d, values + [value], threshold, window) == Grown(GrownBy(d, values, threshold, window), value, threshold, window)
  {
    assert (values + [value])[..|values|] == values;
  }

  /** The one encoding of a value: its position in the dictionary, or itself. */
  ghost function Coded(keys: seq<Bytes>, v: Bytes): EncodedValue {
    if i: nat :| i < |keys| && keys[i] == v then EncodedValue(true, IndexBytes(i, |keys|)) else EncodedValue(false, v)
  }

  /** A dictionary that has grown decodes a position to its value if and only if positions still take as many bytes; otherwise to nothing. */
  lemma DecodeLater(keys: seq<Bytes>, keys': seq<Bytes>, e: EncodedValue, v: Bytes)
    requires keys <= keys' && Encodes(keys, e, v)
    ensures DecodeValue(keys', e) == if !e.isEncoded || IndexSize(|keys'|) == IndexSize(|keys|) then Some(v) else None
  {
    if e.isEncoded {
      var idx :| 0 <= idx < |keys| && keys[idx] == v && e.bytes == IndexBytes(idx, |keys|);
      IndexLater(idx, |keys|, |keys'|, e.bytes);
    }
  }

  /** Up to 256 values it always does. */
  lemma DecodeUpTo256(keys: seq<Bytes>, keys': seq<Bytes>, e: EncodedValue, v: Bytes)
    requires keys <= keys' && Encodes(keys, e, v) && |keys'| <= 256
    ensures DecodeValue(keys', e) == Some(v)
  {
    DecodeLater(keys, keys', e, v);
    if e.isEncoded {
      OneByte(|keys|);
      OneByte(|keys'|);
    }
  }

  /** A position written with up to 256 values is lost once there are more. */
  lemma LostBeyond256(keys: seq<Bytes>, keys': seq<Bytes>, e: EncodedValue, v: Bytes)
    requires keys <= keys' && Encodes(keys, e, v) && e.isEncoded && |keys| <= 256 < |keys'|
    ensures DecodeValue(keys', e) == None
  {
    DecodeLater(keys, keys', e, v);
    OneByte(|keys|);
    OneByte(|keys'|);
  }

  lemma CodedAt(keys: seq<Bytes>, dictionary: map<Bytes, nat>, value: Bytes)
    requires Consistent(keys, dictionary) && value in dictionary
    ensures Coded(keys, value) == EncodedValue(true, IndexBytes(dictionary[value], |keys|))
  {
    assert keys[dictionary[value]] == value;
    var i: nat :| i < |keys| && keys[i] == value && Coded(keys, value) == EncodedValue(true, IndexBytes(i, |keys|));
  }

  /** The adaptive encoder. */
  class AdaptiveEncoder {
    const threshold: nat
    const windowSize: nat
    var keys: seq<Bytes>
    var dictionary: map<Bytes, nat>
    var candidates: map<Bytes, Candidate>
    var entryCount: nat
    var bitWidth: nat
    ghost var seen: seq<Bytes>

    ghost predicate Valid()
      reads this
    {
      && Consistent(keys, dictionary) && bitWidth == BitWidth(|keys|) && entryCount == |seen|
      && candidates.Keys !! dictionary.Keys && Tracked(candidates, dictionary, seen, windowSize)
    }

    ghost function State(): DictState
      reads this
    {
      DictState(keys, seen)
    }

    constructor (threshold: nat, windowSize: nat)
      ensures Valid() && keys == [] && seen == [] && this.threshold == threshold && this.windowSize == windowSize
    {
      this.threshold, this.windowSize := threshold, windowSize;
      keys, dictionary, candidates, entryCount, bitWidth := [], map[], map[], 0, 0;
      seen := [];
    }

    /** `AddToDict`: the value enters the dictionary exactly when its streak reaches the threshold. */
    method AddToDict(value: Bytes)
      requires Valid()
      modifies this
      ensures Valid() && seen == old(seen) + [value]
      ensures State() == Grown(old(State()), value, threshold, windowSize)
      ensures keys == if value in old(keys) || Streak(seen, |seen|, value, windowSize) < threshold then old(keys) else old(keys) + [value]
    {
      ghost var candidates0 := candidates;
      entryCount := entryCount + 1;
      candidates := Aged(candidates, entryCount, windowSize);
      if value in dictionary {
        KnownTracked(candidates0, dictionary, seen, windowSize, value);
        seen := seen + [value];
        return;
      }
      var c := Counted(candidates, value, entryCount);
      CountedTracked(candidates0, dictionary, seen, windowSize, value, candidates, c);
      candidates := candidates[value := c];
      seen := seen + [value];
      if c.freq >= threshold {
        Promote(value);
      }
    }

    /** The value gets the next position. */
    method Promote(value: Bytes)
      requires Consistent(keys, dictionary) && Tracked(candidates, dictionary, seen, windowSize) && entryCount == |seen|
      requires candidates.Keys - {value} !! dictionary.Keys && value !in dictionary
      modifies this`keys, this`dictionary, this`candidates, this`bitWidth
      ensures Valid() && keys == old(keys) + [value]
    {
      PromotedTracked(candidates, dictionary, seen, windowSize, value, |keys|);
      ConsistentSnoc(keys, dictionary, value);
      dictionary := dictionary[value := |keys|];
      keys := keys + [value];
      candidates := candidates - {value};
      bitWidth := BitWidth(|keys|);
    }

    /** `Encode`: the position for a value of the dictionary, the value itself for any other. */
    method Encode(value: Bytes) returns (e: EncodedValue)
      requires Valid()
      ensures Encodes(keys, e, value) && (e.isEncoded <==> value in keys) && e == Coded(keys, value)
      ensures |e.bytes| == if e.isEncoded then IndexSize(|keys|) else |value|
    {
      if value in dictionary {
        e := EncodedValue(true, IndexBytes(dictionary[value], |keys|));
        assert keys[dictionary[value]] == value;
        CodedAt(keys, dictionary, value);
      } else {
        e := EncodedValue(false, value);
      }
    }
  }
}

// The string hash table: keys and values in one growing block of 32-bit words, found through a
// Robin Hood table of hashes and word offsets.
module StringTable {
  import opened Words
  import opened RobinHood

  // A record: padding, key, NUL, key length, value. `u` is the word offset of the value.
  datatype Record = Record(key: seq<u8>, u: nat)

  // Words of metadata in front of the first record.
  const META: nat := 3

  // Words from the start of a record to its value.
  function KeyWords(len: nat): (w: nat)
    ensures 4 * w >= len + 5 && w >= 2
  {
    (len + 8) / 4
  }

  // The length is added up in 32 bits. Only for the keys that records are made of here does that
  // give the words they need.
  lemma LengthLimit(len: u32)
    ensures (len + 8) % TWO_32 / 4 == KeyWords(len) <==> len + 8 < TWO_32
  {
  }

  function Start(r: Record): int {
    r.u - KeyWords(|r.key|)
  }

  // ---------- Layout of the records ----------

  // The records lie one behind the other and end at `size`.
  ghost predicate Laid(log: seq<Record>, valueLength: nat, size: int) {
    if |log| == 0 then size == META
    else
      var last := log[|log| - 1];
      last.u + valueLength == size && Laid(log[..|log| - 1], valueLength, Start(last))
  }

  lemma {:induction false} LaidAtLeastMeta(log: seq<Record>, valueLength: nat, size: int)
    requires Laid(log, valueLength, size)
    ensures size >= META
    ensures |log| > 0 ==> size > META
  {
    if |log| > 0 {
      LaidAtLeastMeta(log[..|log| - 1], valueLength, Start(log[|log| - 1]));
    }
  }

  // Every record lies between the metadata and the end, ...
  lemma {:induction false} RecordWithin(log: seq<Record>, valueLength: nat, size: int, i: nat)
    requires Laid(log, valueLength, size) && i < |log|
    ensures META <= Start(log[i]) && log[i].u + valueLength <= size
  {
    var n := |log| - 1;
    LaidAtLeastMeta(log[..n], valueLength, Start(log[n]));
    if i < n {
      RecordWithin(log[..n], valueLength, Start(log[n]), i);
    }
  }

  // ... and no two overlap.
  lemma {:induction false} RecordsDisjoint(log: seq<Record>, valueLength: nat, size: int, i: nat, j: nat)
    requires Laid(log, valueLength, size) && i < j < |log|
    ensures log[i].u + valueLength <= Start(log[j])
  {
    var n := |log| - 1;
    if j < n {
      RecordsDisjoint(log[..n], valueLength, Start(log[n]), i, j);
    } else {
      RecordWithin(log[..n], valueLength, Start(log[n]), i);
    }
  }

  // ---------- Bytes of the records ----------

  // The key of a record with value offset `u` can be read back.
  ghost predicate KeyStored(bytes: seq<u8>, key: seq<u8>, u: nat) {
    && |key| + 5 <= 4 * u <= |bytes|
    && |key| + 8 < TWO_32
    && FromLe32(bytes[4 * u - 4..4 * u]) == |key|
    && bytes[4 * u - 5 - |key|..4 * u - 5] == key
    && bytes[4 * u - 5] == 0
  }

  ghost predicate AllStored(bytes: seq<u8>, log: seq<Record>) {
    forall i :: 0 <= i < |log| ==> KeyStored(bytes, log[i].key, log[i].u)
  }

  // `ptr[-1] == key_len && !memcmp(...)`
  predicate Matches(bytes: seq<u8>, key: seq<u8>, u: nat) {
    && |key| + 5 <= 4 * u <= |bytes|
    && FromLe32(bytes[4 * u - 4..4 * u]) == |key|
    && bytes[4 * u - 5 - |key|..4 * u - 5] == key
  }

  lemma MatchesItsKey(bytes: seq<u8>, stored: seq<u8>, u: nat, key: seq<u8>)
    requires KeyStored(bytes, stored, u)
    ensures Matches(bytes, key, u) <==> key == stored
  {
  }

  lemma StoredSurvives(a: seq<u8>, b: seq<u8>, log: seq<Record>, valueLength: nat, size: nat)
    requires AllStored(a, log) && Laid(log, valueLength, size)
    requires 4 * size <= |a| && 4 * size <= |b| && a[..4 * size] == b[..4 * size]
    ensures AllStored(b, log)
  {
    forall i | 0 <= i < |log|
      ensures KeyStored(b, log[i].key, log[i].u)
    {
      RecordWithin(log, valueLength, size, i);
      KeySurvives(a, b, log[i].key, log[i].u, 4 * size);
    }
  }

  lemma KeySurvives(a: seq<u8>, b: seq<u8>, key: seq<u8>, u: nat, n: nat)
    requires KeyStored(a, key, u) && 4 * u <= n <= |a| && n <= |b| && a[..n] == b[..n]
    ensures KeyStored(b, key, u)
  {
    assert a[4 * u - 4..4 * u] == a[..n][4 * u - 4..4 * u] == b[4 * u - 4..4 * u];
    assert a[4 * u - 5 - |key|..4 * u - 5] == a[..n][4 * u - 5 - |key|..4 * u - 5] == b[4 * u - 5 - |key|..4 * u - 5];
    assert a[4 * u - 5] == a[..n][4 * u - 5] == b[..n][4 * u - 5];
  }

  // ---------- The hash side ----------

  ghost predicate DistinctKeys(log: seq<Record>) {
    forall i, j :: 0 <= i < j < |log| ==> log[i].key != log[j].key
  }

  ghost predicate SmallOffsets(log: seq<Record>) {
    forall i :: 0 <= i < |log| ==> 0 < log[i].u < TWO_32
  }

  ghost function SlotOf(hash: seq<u8> -> u32, r: Record): Slot
    requires r.u < TWO_32
  {
    Slot(hash(r.key), r.u)
  }

  // The slots that stand for the records.
  ghost function SlotsOf(hash: seq<u8> -> u32, log: seq<Record>): multiset<Slot>
    requires SmallOffsets(log)
  {
    if |log| == 0 then multiset{}
    else SlotsOf(hash, log[..|log| - 1]) + multiset{SlotOf(hash, log[|log| - 1])}
  }

  lemma {:induction false} SlotHasRecord(hash: seq<u8> -> u32, log: seq<Record>, s: Slot)
    requires SmallOffsets(log) && s in SlotsOf(hash, log)
    ensures exists i :: 0 <= i < |log| && SlotOf(hash, log[i]) == s
  {
    var n := |log| - 1;
    if s == SlotOf(hash, log[n]) {
      assert SlotOf(hash, log[n]) == s;
    } else {
      SlotHasRecord(hash, log[..n], s);
      var i :| 0 <= i < n && SlotOf(hash, log[..n][i]) == s;
      assert SlotOf(hash, log[i]) == s;
    }
  }

  lemma {:induction false} RecordHasSlot(hash: seq<u8> -> u32, log: seq<Record>, i: nat)
    requires SmallOffsets(log) && i < |log|
    ensures SlotOf(hash, log[i]) in SlotsOf(hash, log)
  {
    var n := |log| - 1;
    if i < n {
      RecordHasSlot(hash, log[..n], i);
      assert log[..n][i] == log[i];
    }
  }

  lemma {:induction false} SlotsCount(hash: seq<u8> -> u32, log: seq<Record>)
    requires SmallOffsets(log)
    ensures |SlotsOf(hash, log)| == |log|
  {
    if |log| > 0 {
      SlotsCount(hash, log[..|log| - 1]);
    }
  }

  // A slot less displaced than the probe is long: every entry with this hash was passed.
  lemma AllPassed(t: seq<Slot>, hash: u32, d: nat, j: nat)
    requires Ordered(t) && Reach(t, ProbeAt(|t|, hash, d)) < d && j < |t| && t[j] != EMPTY && t[j].hash == hash
    ensures Reach(t, j) < d && ProbeAt(|t|, hash, Reach(t, j)) == j
  {
    AtOfDist(|t|, j, hash);
    if d <= Reach(t, j) {
      ReachAlong(t, j, d);
    }
  }

  // ---------- Searching ----------

  // How a search ends: at the key's value, at an empty slot, or at an entry nearer its home.
  datatype Probe = Found(u: nat) | Vacant(idx: nat) | Poorer(idx: nat, d2: nat)

  ghost predicate Mismatch(t: seq<Slot>, bytes: seq<u8>, hash: u32, key: seq<u8>, i: nat) {
    i < |t| && t[i] != EMPTY && (t[i].hash == hash ==> !Matches(bytes, key, t[i].value))
  }

  // The first `d` probes meet other keys.
  ghost predicate PassedKeys(t: seq<Slot>, bytes: seq<u8>, hash: u32, key: seq<u8>, d: nat) {
    |t| > 0 && forall k :: 0 <= k < d ==> Mismatch(t, bytes, hash, key, ProbeAt(|t|, hash, k))
  }

  ghost predicate AbsentKey(log: seq<Record>, key: seq<u8>) {
    forall i :: 0 <= i < |log| ==> log[i].key != key
  }

  // The table holds one slot for each record.
  ghost predicate Sound(t: seq<Slot>, count: nat, hash: seq<u8> -> u32, log: seq<Record>) {
    && |t| >= 4 && Ordered(t)
    && SmallOffsets(log) && DistinctKeys(log)
    && count == |log| == Used(t)
    && Entries(t) == SlotsOf(hash, log)
  }

  // What the outcome of a search for `key` says.
  ghost predicate Lands(t: seq<Slot>, hash: u32, log: seq<Record>, key: seq<u8>, p: Probe, d: nat) {
    match p
    case Found(u) => Record(key, u) in log
    case Vacant(i) => |t| > 0 && AbsentKey(log, key) && Carries(t, hash, d) && i == ProbeAt(|t|, hash, d)
                      && t[i] == EMPTY
    case Poorer(i, d2) =>
      && |t| > 0 && AbsentKey(log, key) && Carries(t, hash, d) && i == ProbeAt(|t|, hash, d)
      && t[i] != EMPTY && d2 == Dist(|t|, i, t[i].hash) < d
  }

  lemma SearchEnds(t: seq<Slot>, bytes: seq<u8>, count: nat, hash: seq<u8> -> u32, log: seq<Record>, key: seq<u8>,
                   d: nat)
    requires Sound(t, count, hash, log) && AllStored(bytes, log)
    requires PassedKeys(t, bytes, hash(key), key, d) && Reach(t, ProbeAt(|t|, hash(key), d)) < d
    ensures AbsentKey(log, key)
  {
    hide Ordered, ProbeAt, Matches, KeyStored;
    forall i | 0 <= i < |log|
      ensures log[i].key != key
    {
      var s := SlotOf(hash, log[i]);
      RecordHasSlot(hash, log, i);
      assert s in multiset(t);
      var j :| 0 <= j < |t| && t[j] == s;
      MatchesItsKey(bytes, log[i].key, log[i].u, key);
      if s.hash == hash(key) {
        AllPassed(t, hash(key), d, j);
        PassedKeyAt(t, bytes, hash(key), key, d, Reach(t, j));
      }
    }
  }

  lemma PassedKeyAt(t: seq<Slot>, bytes: seq<u8>, hash: u32, key: seq<u8>, d: nat, k: nat)
    requires PassedKeys(t, bytes, hash, key, d) && k < d
    ensures Mismatch(t, bytes, hash, key, ProbeAt(|t|, hash, k))
  {
  }

  // A slot whose stored key matches is that of the key's record.
  lemma MatchIsRecord(t: seq<Slot>, bytes: seq<u8>, count: nat, hash: seq<u8> -> u32, log: seq<Record>, key: seq<u8>,
                      i: nat)
    requires Sound(t, count, hash, log) && AllStored(bytes, log) && i < |t| && t[i] != EMPTY
    requires Matches(bytes, key, t[i].value)
    ensures Record(key, t[i].value) in log
  {
    hide Ordered, Matches, KeyStored;
    assert t[i] in multiset(t);
    SlotHasRecord(hash, log, t[i]);
    var k :| 0 <= k < |log| && SlotOf(hash, log[k]) == t[i];
    MatchesItsKey(bytes, log[k].key, log[k].u, key);
  }

  lemma SearchStarts(t: seq<Slot>, bytes: seq<u8>, hash: u32, key: seq<u8>)
    requires |t| > 0
    ensures PassedKeys(t, bytes, hash, key, 0) && Carries(t, hash, 0)
  {
  }

  lemma SearchStep(t: seq<Slot>, bytes: seq<u8>, count: nat, hash: seq<u8> -> u32, log: seq<Record>, key: seq<u8>,
                   d: nat)
    requires Sound(t, count, hash, log) && AllStored(bytes, log) && EMPTY in t
    requires PassedKeys(t, bytes, hash(key), key, d) && Carries(t, hash(key), d)
    ensures var h := hash(key);
            var i := ProbeAt(|t|, h, d);
            var slot := t[i];
            if slot == EMPTY then Lands(t, h, log, key, Vacant(i), d)
            else if slot.hash == h && Matches(bytes, key, slot.value) then Lands(t, h, log, key, Found(slot.value), d)
            else if slot.hash != h && Dist(|t|, i, slot.hash) < d then
              Lands(t, h, log, key, Poorer(i, Dist(|t|, i, slot.hash)), d)
            else d + 1 < |t| && PassedKeys(t, bytes, h, key, d + 1) && Carries(t, h, d + 1)
  {
    hide Sound, Ordered, AllStored, Matches;
    var h := hash(key);
    var i := ProbeAt(|t|, h, d);
    var slot := t[i];
    var e :| 0 <= e < |t| && t[e] == EMPTY;
    EmptyLiesAhead(t, h, d, e);
    if d < |t| {
      DistOfAt(|t|, h, d);
    }
    if slot != EMPTY && slot.hash == h && Matches(bytes, key, slot.value) {
      MatchIsRecord(t, bytes, count, hash, log, key, i);
    } else if Reach(t, i) < d {
      SearchEnds(t, bytes, count, hash, log, key, d);
    } else {
      MoveStep(t, h, d);
    }
  }

  // ---------- The table ----------

  class Sht {
    const hash: seq<u8> -> u32
    const valueLength: nat // in words
    var bytes: array<u8>   // the block of words, metadata included
    var size: nat          // words in use
    var table: array<Slot>
    var count: nat
    ghost var log: seq<Record> // the records, in the order of insertion

    ghost predicate Valid()
      reads this, bytes, table
    {
      && Sound(table[..], count, hash, log)
      && 4 * count < 3 * (table.Length - 1)
      && Laid(log, valueLength, size)
      && 4 * size <= bytes.Length && bytes.Length % 4 == 0
      && AllStored(bytes[..], log)
    }

    constructor (hash: seq<u8> -> u32, valueBytes: nat)
      ensures Valid() && log == [] && this.hash == hash && valueLength == (valueBytes + 3) / 4
      ensures fresh(bytes) && fresh(table)
    {
      this.hash := hash;
      valueLength := (valueBytes + 3) / 4;
      bytes := new u8[64](_ => 0);
      size := META;
      table := new Slot[4](_ => EMPTY);
      count := 0;
      log := [];
      new;
      assert table[..] == seq(4, _ => EMPTY);
      AllEmptyIsOrdered(4);
    }

    // The probe loop of interning and of the lookups.
    method Search(key: seq<u8>) returns (p: Probe, ghost d: nat)
      requires Valid()
      ensures Lands(table[..], hash(key), log, key, p, d)
    {
      hide Ordered, Sound, Lands, Carries, PassedKeys, Matches, AllStored, Laid, ProbeAt, Dist, Used;
      SoundFacts(table[..], count, hash, log);
      var n := table.Length;
      var h := hash(key);
      var at := 0;
      d := 0;
      SearchStarts(table[..], bytes[..], h, key);
      while true
        invariant d == at && at < n
        invariant PassedKeys(table[..], bytes[..], h, key, at) && Carries(table[..], h, at)
        decreases n - at
      {
        var idx := ProbeAt(n, h, at);
        var slot := table[idx];
        SearchStep(table[..], bytes[..], count, hash, log, key, at);
        if slot == EMPTY {
          return Vacant(idx), at;
        } else if slot.hash == h {
          if Matches(bytes[..], key, slot.value) {
            return Found(slot.value), at;
          }
        } else if Dist(n, idx, slot.hash) < at {
          return Poorer(idx, Dist(n, idx, slot.hash)), at;
        }
        at := at + 1;
        d := at;
      }
    }

    method Lookup(key: seq<u8>) returns (u: nat)
      requires Valid()
      ensures u != 0 ==> Record(key, u) in log
      ensures u == 0 ==> AbsentKey(log, key)
    {
      var p, d := Search(key);
      u := if p.Found? then p.u else 0;
    }

    // Appends a record for `key` with a zero value, growing the block if it is full.
    method AddToContents(key: seq<u8>) returns (u: nat)
      requires 4 * size <= bytes.Length && bytes.Length % 4 == 0 && |key| + 8 < TWO_32
      requires size + KeyWords(|key|) + valueLength < TWO_32
      modifies this`bytes, this`size, bytes
      ensures u == old(size) + KeyWords(|key|) && size == u + valueLength
      ensures 4 * size <= bytes.Length && bytes.Length % 4 == 0
      ensures bytes == old(bytes) || fresh(bytes)
      ensures bytes[..4 * old(size)] == old(bytes[..4 * size])
      ensures KeyStored(bytes[..], key, u)
      ensures forall i :: 4 * u <= i < 4 * size ==> bytes[i] == 0
    {
      hide KeyStored, KeyWords;
      u := size + KeyWords(|key|);
      var newSize := u + valueLength;
      if newSize > bytes.Length / 4 {
        var newCapacity := (bytes.Length / 4 * 2) % TWO_32;
        if newCapacity < newSize {
          newCapacity := newSize;
        }
        bytes := Grown(bytes, 4 * newCapacity, 4 * size);
      }
      WriteRecord(bytes, key, size, valueLength);
      size := newSize;
    }

    // The value offset of `key`, entered if it is not there yet.
    method Intern(key: seq<u8>) returns (u: nat)
      requires Valid() && |key| + 8 < TWO_32
      requires size + KeyWords(|key|) + valueLength < TWO_32
      modifies this`bytes, this`size, this`table, this`count, this`log, bytes, table
      ensures Valid() && (bytes == old(bytes) || fresh(bytes)) && (table == old(table) || fresh(table))
      ensures Record(key, u) in log && u != 0
      ensures log == if AbsentKey(old(log), key) then old(log) + [Record(key, u)] else old(log)
      ensures 4 * old(size) <= bytes.Length && bytes[..4 * old(size)] == old(bytes[..4 * size])
      ensures AbsentKey(old(log), key) ==> forall i :: 4 * u <= i < 4 * size ==> bytes[i] == 0
    {
      hide Ordered, Lands, Carries, Holds, Matches, Entries, Used, AllStored, Laid, KeyStored, Sound, ProbeAt, Dist;
      var p, d := Search(key);
      if p.Found? {
        FoundFacts(table[..], bytes[..], count, hash, log, valueLength, size, key, p, d);
        return p.u;
      }
      ghost var was, wasSize := bytes[..], size;
      u := AddToContents(key);
      LaidNext(log, valueLength, wasSize, key);
      StoredNext(was, bytes[..], log, valueLength, wasSize, key, u);
      Enter(key, u, p, d);
      log := log + [Record(key, u)];
      assert log[|log| - 1] == Record(key, u);
    }

    // Puts the slot of a new record where the search for it ended.
    method Enter(key: seq<u8>, u: u32, p: Probe, ghost d: nat)
      requires Sound(table[..], count, hash, log) && 4 * count < 3 * (table.Length - 1)
      requires !p.Found? && u > 0 && Lands(table[..], hash(key), log, key, p, d)
      modifies this`table, this`count, table
      ensures table == old(table) || fresh(table)
      ensures Sound(table[..], count, hash, log + [Record(key, u)])
      ensures 4 * count < 3 * (table.Length - 1)
      ensures AbsentKey(log, key)
    {
      hide Ordered, Lands, Carries, Holds, Entries, Used, Sound, ProbeAt, Dist;
      var s := Slot(hash(key), u);
      ghost var t := table[..];
      EnterFacts(t, count, hash, log, key, s, p, d);
      var slot := table[p.idx];
      table[p.idx] := s;
      assert table[..] == t[p.idx := s];
      if p.Poorer? {
        Reinsert(table, slot, p.d2);
      }
      EnteredIsSound(t, count, hash, log, key, u, p, d, table[..]);
      count := count + 1;
      if 4 * count >= 3 * (table.Length - 1) {
        var bigger := Rehash(table);
        RehashedIsSound(table[..], bigger[..], count, hash, log + [Record(key, u)]);
        table := bigger;
      }
    }

    // The value offset of the last record, 0 if there is none.
    method IterStart() returns (u: nat)
      requires Valid()
      ensures u == if log == [] then 0 else log[|log| - 1].u
    {
      LaidAtLeastMeta(log, valueLength, size);
      u := if size <= META then 0 else size - valueLength;
    }

    // The value offset of the record before the one at `u`, 0 if that was the first: the key
    // length in front of the value leads back to where the record starts.
    method IterNext(u: nat, ghost i: nat) returns (r: nat)
      requires Valid() && i < |log| && log[i].u == u
      ensures r == if i == 0 then 0 else log[i - 1].u
    {
      RecordWithin(log, valueLength, size, i);
      StartOfRecord(log, valueLength, size, i);
      assert KeyStored(bytes[..], log[i].key, u);
      var start := u - KeyWords(FromLe32(bytes[4 * u - 4..4 * u]));
      assert bytes[4 * u - 4..4 * u] == bytes[..][4 * u - 4..4 * u];
      r := if start <= META then 0 else start - valueLength;
    }
  }

  // ---------- Steps of interning ----------

  lemma SoundFacts(t: seq<Slot>, count: nat, hash: seq<u8> -> u32, log: seq<Record>)
    requires Sound(t, count, hash, log) && 4 * count < 3 * (|t| - 1)
    ensures |t| >= 4 && EMPTY in t
  {
    RoomLeft(t);
  }

  // `realloc` to a larger block; the first `used` bytes matter.
  method Grown(bytes: array<u8>, n: nat, used: nat) returns (bigger: array<u8>)
    requires used <= bytes.Length <= n
    ensures fresh(bigger) && bigger.Length == n && bigger[..used] == bytes[..used]
  {
    bigger := new u8[n](_ => 0);
    forall i | 0 <= i < bytes.Length {
      bigger[i] := bytes[i];
    }
  }

  // Writes a record from word `start` on: the key with its NUL and length, and a zero value.
  method WriteRecord(bytes: array<u8>, key: seq<u8>, start: nat, valueLength: nat)
    requires |key| + 8 < TWO_32 && 4 * (start + KeyWords(|key|) + valueLength) <= bytes.Length
    modifies bytes
    ensures bytes[..4 * start] == old(bytes[..4 * start])
    ensures KeyStored(bytes[..], key, start + KeyWords(|key|))
    ensures forall i :: 4 * (start + KeyWords(|key|)) <= i < 4 * (start + KeyWords(|key|) + valueLength) ==>
              bytes[i] == 0
  {
    hide Le32, FromLe32;
    var u := start + KeyWords(|key|);
    var len := Le32(|key|);
    forall i | 4 * u <= i < 4 * (u + valueLength) {
      bytes[i] := 0;
    }
    forall k | 0 <= k < 4 {
      bytes[4 * u - 4 + k] := len[k];
    }
    forall k | 0 <= k < 4 {
      bytes[4 * u - 8 + k] := 0;
    }
    forall k | 0 <= k < |key| {
      bytes[4 * u - 5 - |key| + k] := key[k];
    }
    assert bytes[4 * u - 4..4 * u] == len;
    Le32RoundTrip(|key|);
    assert bytes[4 * u - 5 - |key|..4 * u - 5] == key;
    assert bytes[..][4 * u - 4..4 * u] == len && bytes[..][4 * u - 5 - |key|..4 * u - 5] == key;
  }

  lemma FoundFacts(t: seq<Slot>, bytes: seq<u8>, count: nat, hash: seq<u8> -> u32, log: seq<Record>,
                   valueLength: nat, size: nat, key: seq<u8>, p: Probe, d: nat)
    requires Sound(t, count, hash, log) && Lands(t, hash(key), log, key, p, d) && p.Found?
    ensures Record(key, p.u) in log && p.u != 0 && !AbsentKey(log, key)
  {
  }

  lemma LaidNext(log: seq<Record>, valueLength: nat, size: nat, key: seq<u8>)
    requires Laid(log, valueLength, size)
    ensures var u := size + KeyWords(|key|);
            Laid(log + [Record(key, u)], valueLength, u + valueLength)
  {
    hide KeyWords;
    assert (log + [Record(key, size + KeyWords(|key|))])[..|log|] == log;
  }

  lemma StoredNext(a: seq<u8>, b: seq<u8>, log: seq<Record>, valueLength: nat, size: nat, key: seq<u8>, u: nat)
    requires AllStored(a, log) && Laid(log, valueLength, size) && KeyStored(b, key, u)
    requires 4 * size <= |a| && 4 * size <= |b| && a[..4 * size] == b[..4 * size]
    ensures AllStored(b, log + [Record(key, u)])
  {
    StoredSurvives(a, b, log, valueLength, size);
  }

  lemma EnterFacts(t: seq<Slot>, count: nat, hash: seq<u8> -> u32, log: seq<Record>, key: seq<u8>, s: Slot, p: Probe,
                   d: nat)
    requires Sound(t, count, hash, log) && 4 * count < 3 * (|t| - 1)
    requires s != EMPTY && s.hash == hash(key) && !p.Found? && Lands(t, hash(key), log, key, p, d)
    ensures p.idx < |t| && AbsentKey(log, key)
    ensures p.Poorer? ==>
              var t' := t[p.idx := s];
              t[p.idx] != EMPTY && Ordered(t') && Carries(t', t[p.idx].hash, p.d2) && EMPTY in t'
  {
    if p.Poorer? {
      RoomLeft(t);
      var e :| 0 <= e < |t| && t[e] == EMPTY;
      SwapStep(t, s, d, e);
      assert t[p.idx := s][e] == EMPTY;
    }
  }

  lemma EnteredIsSound(t: seq<Slot>, count: nat, hash: seq<u8> -> u32, log: seq<Record>, key: seq<u8>, u: u32,
                       p: Probe, d: nat, now: seq<Slot>)
    requires Sound(t, count, hash, log) && u > 0
    requires !p.Found? && Lands(t, hash(key), log, key, p, d)
    requires p.Vacant? ==> now == t[p.idx := Slot(hash(key), u)]
    requires p.Poorer? ==>
               && Ordered(now) && |now| == |t|
               && Holds(now, EMPTY, multiset(t[p.idx := Slot(hash(key), u)]) + multiset{t[p.idx]})
    ensures Sound(now, count + 1, hash, log + [Record(key, u)])
  {
    var s := Slot(hash(key), u);
    var log' := log + [Record(key, u)];
    if p.Vacant? {
      FillStep(t, s, d);
    }
    EnteredBag(t, p.idx, s, now);
    FilledOne(t, now, s);
    assert log'[..|log|] == log;
  }

  lemma RehashedIsSound(t: seq<Slot>, bigger: seq<Slot>, count: nat, hash: seq<u8> -> u32, log: seq<Record>)
    requires Sound(t, count, hash, log) && Ordered(bigger) && |bigger| == 2 * |t|
    requires Entries(bigger) == Entries(t) && Used(bigger) == Used(t)
    ensures Sound(bigger, count, hash, log)
  {
  }

  // ---------- Iteration ----------

  lemma {:induction false} StartOfRecord(log: seq<Record>, valueLength: nat, size: int, i: nat)
    requires Laid(log, valueLength, size) && i < |log|
    ensures Start(log[i]) == if i == 0 then META else log[i - 1].u + valueLength
    ensures i > 0 ==> log[i - 1].u > 0 && Start(log[i]) > META
  {
    var n := |log| - 1;
    if i < n {
      StartOfRecord(log[..n], valueLength, Start(log[n]), i);
    } else if i > 0 {
      RecordWithin(log[..n], valueLength, Start(log[n]), i - 1);
      assert log[..n][i - 1] == log[i - 1];
    }
  }
}

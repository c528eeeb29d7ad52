// Interning of dynamic strings: references into an existing string table, a hash table over them,
// and the switch to a new string table that keeps every reference valid.
module DynStrings {
  import opened Words
  import opened AddressMap
  import opened FileView
  import opened StringMemory

  // ---------- The hash table ----------

  // `len` counts the terminating zero, so that it is 0 exactly in an empty slot.
  datatype Slot = Slot(len: nat, hash: u32, encoded: nat)

  const NONE := Slot(0, 0, 0)

  predicate IsEmpty(e: Slot) {
    e.len == 0
  }

  // Every slot is reached.
  lemma AtReaches(n: nat, hash: u32, i: nat) returns (d: nat)
    requires i < n
    ensures d < n && ProbeAt(n, hash, d) == i
  {
    var q, r := hash / n, hash % n;
    assert hash == q * n + r;
    if i >= r {
      d := i - r;
      QuotientIs(hash + d, n, q, i);
    } else {
      d := i + n - r;
      assert (q + 1) * n == q * n + n;
      QuotientIs(hash + d, n, q + 1, i);
    }
  }

  // The first `d` slots from the hash's home are taken.
  ghost predicate TakenFor(t: seq<Slot>, hash: u32, d: nat)
    requires |t| > 0
  {
    forall k :: 0 <= k < d ==> !IsEmpty(t[ProbeAt(|t|, hash, k)])
  }

  ghost predicate PlacedAt(t: seq<Slot>, i: nat, d: nat)
    requires i < |t|
  {
    d < |t| && ProbeAt(|t|, t[i].hash, d) == i && TakenFor(t, t[i].hash, d)
  }

  // A search for an entry gets to it before it gets to an empty slot. Empty slots are all zeros.
  ghost predicate Linear(t: seq<Slot>) {
    && |t| > 0
    && (forall i :: 0 <= i < |t| && IsEmpty(t[i]) ==> t[i] == NONE)
    && forall i :: 0 <= i < |t| && !IsEmpty(t[i]) ==> exists d :: PlacedAt(t, i, d)
  }

  function Used(t: seq<Slot>): (c: nat)
    ensures c <= |t|
  {
    if |t| == 0 then 0 else Used(t[..|t| - 1]) + if IsEmpty(t[|t| - 1]) then 0 else 1
  }

  lemma {:induction false} UsedIsRoom(t: seq<Slot>) returns (i: nat)
    requires Used(t) < |t|
    ensures i < |t| && IsEmpty(t[i])
  {
    if IsEmpty(t[|t| - 1]) {
      i := |t| - 1;
    } else {
      i := UsedIsRoom(t[..|t| - 1]);
    }
  }

  lemma {:induction false} UsedMore(t: seq<Slot>, i: nat, e: Slot)
    requires i < |t| && IsEmpty(t[i]) && !IsEmpty(e)
    ensures Used(t[i := e]) == Used(t) + 1
  {
    var n := |t| - 1;
    if i < n {
      UsedMore(t[..n], i, e);
      assert t[i := e][..n] == t[..n][i := e];
    } else {
      assert t[i := e][..n] == t[..n];
    }
  }

  lemma {:induction false} UsedOfEmpty(t: seq<Slot>)
    requires forall i :: 0 <= i < |t| ==> IsEmpty(t[i])
    ensures Used(t) == 0
  {
    if |t| > 0 {
      UsedOfEmpty(t[..|t| - 1]);
    }
  }

  // Putting an entry into the first empty slot of its search.
  lemma PutKeepsLinear(t: seq<Slot>, d: nat, e: Slot)
    requires Linear(t) && !IsEmpty(e) && d < |t| && TakenFor(t, e.hash, d) && IsEmpty(t[ProbeAt(|t|, e.hash, d)])
    ensures Linear(t[ProbeAt(|t|, e.hash, d) := e])
  {
    hide ProbeAt;
    var slot := ProbeAt(|t|, e.hash, d);
    var t' := t[slot := e];
    forall i | 0 <= i < |t'| && !IsEmpty(t'[i])
      ensures exists d' :: PlacedAt(t', i, d')
    {
      if i == slot {
        assert PlacedAt(t', i, d);
      } else {
        var d' :| PlacedAt(t, i, d');
        assert PlacedAt(t', i, d');
      }
    }
  }

  // A search that ends at an empty slot has seen every entry with its hash.
  lemma SearchSeesAll(t: seq<Slot>, hash: u32, d: nat, i: nat) returns (k: nat)
    requires Linear(t) && IsEmpty(t[ProbeAt(|t|, hash, d)]) && i < |t| && !IsEmpty(t[i]) && t[i].hash == hash
    ensures k < d && ProbeAt(|t|, hash, k) == i
  {
    hide ProbeAt;
    k :| PlacedAt(t, i, k);
  }

  // A search cannot go around a table that has room.
  lemma SearchEnds(t: seq<Slot>, hash: u32, d: nat)
    requires |t| > 0 && Used(t) < |t| && TakenFor(t, hash, d)
    ensures d < |t|
  {
    hide ProbeAt, Used;
    var i := UsedIsRoom(t);
    var k := AtReaches(|t|, hash, i);
  }

  // ---------- Growing the table ----------

  // The two tables hold the same entries.
  ghost predicate SameEntries(a: seq<Slot>, b: seq<Slot>) {
    forall e :: !IsEmpty(e) ==> (e in a <==> e in b)
  }

  method FindRoom(t: array<Slot>, hash: u32) returns (i: nat, ghost d: nat)
    requires t.Length > 0 && Used(t[..]) < t.Length
    ensures d < t.Length && i == ProbeAt(t.Length, hash, d) && TakenFor(t[..], hash, d) && IsEmpty(t[i])
  {
    hide ProbeAt, Used;
    var k := 0;
    while true
      invariant 0 <= k <= t.Length && TakenFor(t[..], hash, k)
      decreases t.Length - k
    {
      SearchEnds(t[..], hash, k);
      i, d := ProbeAt(t.Length, hash, k), k;
      if IsEmpty(t[i]) {
        return;
      }
      k := k + 1;
    }
  }

  lemma InsertInto(t: seq<Slot>, d: nat, e: Slot)
    requires Linear(t) && !IsEmpty(e) && d < |t| && TakenFor(t, e.hash, d) && IsEmpty(t[ProbeAt(|t|, e.hash, d)])
    ensures var t' := t[ProbeAt(|t|, e.hash, d) := e];
            && Linear(t') && Used(t') == Used(t) + 1
            && forall x :: !IsEmpty(x) ==> (x in t' <==> x in t || x == e)
  {
    hide ProbeAt;
    var i := ProbeAt(|t|, e.hash, d);
    PutKeepsLinear(t, d, e);
    UsedMore(t, i, e);
    forall x | !IsEmpty(x)
      ensures x in t[i := e] <==> x in t || x == e
    {
      MemberAfterUpdate(t, i, e, x);
    }
  }

  lemma MemberAfterUpdate(t: seq<Slot>, i: nat, e: Slot, x: Slot)
    requires i < |t| && IsEmpty(t[i]) && !IsEmpty(x)
    ensures x in t[i := e] <==> x in t || x == e
  {
    if x in t {
      var k :| 0 <= k < |t| && t[k] == x;
      assert t[i := e][k] == x;
    }
    assert t[i := e][i] == e;
  }

  // A table of twice the size with the same entries.
  method Rehash(t: array<Slot>) returns (bigger: array<Slot>)
    requires t.Length > 0
    ensures fresh(bigger) && bigger.Length == 2 * t.Length
    ensures Linear(bigger[..]) && Used(bigger[..]) == Used(t[..]) && SameEntries(bigger[..], t[..])
  {
    hide ProbeAt, Linear, TakenFor;
    bigger := new Slot[2 * t.Length](_ => NONE);
    EmptyTable(bigger[..]);
    for k := 0 to t.Length
      invariant Linear(bigger[..]) && Used(bigger[..]) == Used(t[..k]) && SameEntries(bigger[..], t[..k])
    {
      assert t[..k + 1] == t[..k] + [t[k]];
      assert t[..k + 1][..k] == t[..k];
      var e := t[k];
      if !IsEmpty(e) {
        ghost var d;
        var i;
        i, d := FindRoom(bigger, e.hash);
        InsertInto(bigger[..], d, e);
        ghost var was := bigger[..];
        bigger[i] := e;
        assert bigger[..] == was[i := e];
      }
    }
    assert t[..t.Length] == t[..];
  }

  lemma EmptyTable(t: seq<Slot>)
    requires |t| > 0 && forall i :: 0 <= i < |t| ==> t[i] == NONE
    ensures Linear(t) && Used(t) == 0 && forall e :: !IsEmpty(e) ==> e !in t
  {
    UsedOfEmpty(t);
  }

  // ---------- What the table is for ----------

  type StrHash = Str -> u32

  // The slot tells the truth about the string it refers to.
  ghost predicate Describes(mem: Memory, e: Slot, hash: StrHash) {
    && e.encoded > 0 && TerminatedAt(mem, e.encoded)
    && e.len == |StringAt(mem, e.encoded)| + 1
    && e.hash == hash(StringAt(mem, e.encoded))
  }

  // Every slot that was filled from the original table is right. Once there is a new table, a slot
  // may be wrong, but it still lies within the table.
  ghost predicate SlotOk(mem: Memory, e: Slot, hash: StrHash) {
    if mem.Mapped? then Describes(mem, e, hash) && Reachable(mem, e.encoded)
    else e.encoded > 0 && e.encoded + e.len <= |mem.bytes|
  }

  ghost predicate HasRef(t: seq<Slot>, mem: Memory, ref: nat, hash: StrHash) {
    exists e :: e in t && !IsEmpty(e) && e.encoded == ref && Describes(mem, e, hash)
  }

  // Every known reference is in the table with its string, except 0.
  ghost predicate Sound(t: seq<Slot>, count: nat, mem: Memory, known: set<nat>, hash: StrHash) {
    && Linear(t) && count == Used(t)
    && (forall e :: e in t && !IsEmpty(e) ==> SlotOk(mem, e, hash) && (mem.Mapped? ==> e.encoded in known))
    && (forall ref :: ref in known && ref != 0 ==> HasRef(t, mem, ref, hash))
  }

  lemma NothingKnown(t: seq<Slot>, mem: Memory, hash: StrHash)
    requires |t| > 0 && forall i :: 0 <= i < |t| ==> t[i] == NONE
    ensures Sound(t, 0, mem, {}, hash)
  {
    EmptyTable(t);
  }

  lemma SoundFacts(t: seq<Slot>, count: nat, mem: Memory, known: set<nat>, hash: StrHash)
    requires Sound(t, count, mem, known, hash)
    ensures Linear(t) && count == Used(t) && |t| > 0
  {
  }

  lemma SoundInsert(t: seq<Slot>, count: nat, mem: Memory, known: set<nat>, hash: StrHash, d: nat, e: Slot)
    requires Sound(t, count, mem, known, hash) && Describes(mem, e, hash) && SlotOk(mem, e, hash) && !IsEmpty(e)
    requires d < |t| && TakenFor(t, e.hash, d) && IsEmpty(t[ProbeAt(|t|, e.hash, d)])
    ensures Sound(t[ProbeAt(|t|, e.hash, d) := e], count + 1, mem, known + {e.encoded}, hash)
  {
    hide ProbeAt, Linear, TakenFor, Describes, Used, SlotOk;
    InsertInto(t, d, e);
    var t' := t[ProbeAt(|t|, e.hash, d) := e];
    forall ref | ref in known + {e.encoded} && ref != 0
      ensures HasRef(t', mem, ref, hash)
    {
      if ref in known {
        var x :| x in t && !IsEmpty(x) && x.encoded == ref && Describes(mem, x, hash);
        assert x in t';
      } else {
        assert e in t';
      }
    }
  }

  lemma SoundRehashed(t: seq<Slot>, t': seq<Slot>, count: nat, mem: Memory, known: set<nat>, hash: StrHash)
    requires Sound(t, count, mem, known, hash) && Linear(t') && Used(t') == Used(t) && SameEntries(t', t)
    ensures Sound(t', count, mem, known, hash)
  {
    hide Linear, Describes, Used, SlotOk;
    forall ref | ref in known && ref != 0
      ensures HasRef(t', mem, ref, hash)
    {
      var x :| x in t && !IsEmpty(x) && x.encoded == ref && Describes(mem, x, hash);
      assert x in t';
    }
  }

  // A slot that is right makes its reference known.
  lemma SoundKnown(t: seq<Slot>, count: nat, mem: Memory, known: set<nat>, hash: StrHash, i: nat)
    requires Sound(t, count, mem, known, hash) && i < |t| && !IsEmpty(t[i]) && Describes(mem, t[i], hash)
    ensures Sound(t, count, mem, known + {t[i].encoded}, hash)
  {
    hide Describes, Used, SlotOk;
    assert t[i] in t;
  }

  // Seeing a reference of the original table again, or reference 0, adds nothing.
  lemma SoundAgain(t: seq<Slot>, count: nat, mem: Memory, known: set<nat>, hash: StrHash, i: nat, ref: nat)
    requires Sound(t, count, mem, known, hash) && mem.Mapped? && i < |t| && t[i].encoded == ref
    ensures Sound(t, count, mem, known + {ref}, hash)
  {
    hide Describes, Used;
    if !IsEmpty(t[i]) {
      assert t[i] in t && SlotOk(mem, t[i], hash);
      SoundKnown(t, count, mem, known, hash, i);
    }
  }

  // What a known reference denotes.
  lemma KnownDescribed(t: seq<Slot>, count: nat, mem: Memory, known: set<nat>, hash: StrHash, ref: nat)
    returns (e: Slot)
    requires Sound(t, count, mem, known, hash) && ref in known && ref != 0
    ensures e in t && !IsEmpty(e) && e.encoded == ref && Describes(mem, e, hash) && SlotOk(mem, e, hash)
  {
    assert HasRef(t, mem, ref, hash);
    e :| e in t && !IsEmpty(e) && e.encoded == ref && Describes(mem, e, hash);
  }

  // The references that still denote the same string in other memory remain known there.
  lemma SoundMoved(t: seq<Slot>, count: nat, mem: Memory, mem': Memory, known: set<nat>, known': set<nat>,
                   hash: StrHash)
    requires Sound(t, count, mem, known, hash) && mem'.Flat? && MaxEnd(t) <= |mem'.bytes|
    requires forall q :: q in known' && q != 0 ==>
               q in known && StringAt(mem', q) == StringAt(mem, q) && TerminatedAt(mem', q)
    ensures Sound(t, count, mem', known', hash)
  {
    hide Linear, Used, StringAt, TerminatedAt, MaxEnd;
    forall e | e in t && !IsEmpty(e)
      ensures SlotOk(mem', e, hash)
    {
      assert SlotOk(mem, e, hash);
    }
    forall q | q in known' && q != 0
      ensures HasRef(t, mem', q, hash)
    {
      var e := KnownDescribed(t, count, mem, known, hash, q);
      assert Describes(mem', e, hash);
    }
  }

  // ---------- The string editor ----------

  datatype State = ReadOnly | Existing | Building

  // `Sparse` stands for the compaction of a string table that is mostly unused.
  datatype Outcome = Encoded(ref: nat) | Sparse

  // What a string table promises: it starts with a zero, and its strings end. A map of a single
  // entry must not be read from address 0 (see `FileView.RoomIsLength`).
  ghost predicate GoodTable(mem: Memory, refs: seq<nat>) {
    && mem.Mapped? && !NeedsAll64Bits(mem.es, mem.base)
    && StringAt(mem, 0) == []
    && forall i :: 0 <= i < |refs| && refs[i] != 0 ==> Reachable(mem, refs[i])
  }

  ghost function RefSet(refs: seq<nat>): (s: set<nat>)
    ensures forall r :: r in s <==> r in refs
  {
    set r | r in refs
  }

  // The end of the last string that the table refers to, and the total size of the strings.
  function MaxEnd(t: seq<Slot>): (m: nat)
    ensures forall e :: e in t && !IsEmpty(e) ==> e.encoded + e.len <= m
  {
    if |t| == 0 then 0
    else
      var m, e := MaxEnd(t[..|t| - 1]), t[|t| - 1];
      assert t == t[..|t| - 1] + [e];
      if IsEmpty(e) then m else Max(m, e.encoded + e.len)
  }

  function SumLen(t: seq<Slot>): nat {
    if |t| == 0 then 0 else SumLen(t[..|t| - 1]) + t[|t| - 1].len
  }

  // Everything that the table refers to lies within the memory.
  lemma {:induction false} MaxEndWithin(t: seq<Slot>, mem: Memory, hash: StrHash)
    requires forall e :: e in t && !IsEmpty(e) ==> SlotOk(mem, e, hash)
    ensures if mem.Mapped? then mem.base + MaxEnd(t) <= TWO_64 && MaxEnd(t) < TWO_64 else MaxEnd(t) <= |mem.bytes|
  {
    if |t| > 0 {
      var e := t[|t| - 1];
      assert t == t[..|t| - 1] + [e];
      assert e in t;
      MaxEndWithin(t[..|t| - 1], mem, hash);
    }
  }

  // What lies between the strings is at most an eighth of their length, or all of it at most 1K.
  predicate IsDense(t: seq<Slot>) {
    MaxEnd(t) - SumLen(t) <= SumLen(t) / 8 || MaxEnd(t) <= 1024
  }

  method MaxAndSum(t: array<Slot>) returns (maxEnd: nat, sumLen: nat)
    ensures maxEnd == MaxEnd(t[..]) && sumLen == SumLen(t[..])
  {
    maxEnd, sumLen := 0, 0;
    for i := 0 to t.Length
      invariant maxEnd == MaxEnd(t[..i]) && sumLen == SumLen(t[..i])
    {
      assert t[..i + 1][..i] == t[..i];
      if !IsEmpty(t[i]) {
        sumLen := sumLen + t[i].len;
        maxEnd := Max(maxEnd, t[i].encoded + t[i].len);
      }
    }
    assert t[..t.Length] == t[..];
  }

  lemma NothingTaken(t: seq<Slot>, hash: u32)
    requires |t| > 0
    ensures TakenFor(t, hash, 0)
  {
  }

  lemma TakenNext(t: seq<Slot>, hash: u32, k: nat)
    requires |t| > 0 && TakenFor(t, hash, k) && !IsEmpty(t[ProbeAt(|t|, hash, k)])
    ensures TakenFor(t, hash, k + 1)
  {
    hide ProbeAt;
  }

  lemma EmptyIsNone(t: seq<Slot>, i: nat)
    requires Linear(t) && i < |t| && IsEmpty(t[i])
    ensures t[i] == NONE
  {
  }

  lemma RefsReachable(mem: Memory, refs: seq<nat>, i: nat)
    requires GoodTable(mem, refs) && i < |refs|
    ensures refs[i] != 0 ==> Reachable(mem, refs[i])
  {
  }

  lemma SlotDescribes(mem: Memory, ref: nat, hash: StrHash, e: Slot)
    requires mem.Mapped? && ref > 0 && Reachable(mem, ref)
    requires e == Slot(|StringAt(mem, ref)| + 1, hash(StringAt(mem, ref)), ref)
    ensures Describes(mem, e, hash) && SlotOk(mem, e, hash)
  {
  }

  // The slot's string is another one.
  ghost predicate Missed(e: Slot, mem: Memory, str: Str, hash: StrHash) {
    !(Describes(mem, e, hash) && StringAt(mem, e.encoded) == str)
  }

  lemma HitDescribes(t: seq<Slot>, count: nat, mem: Memory, known: set<nat>, hash: StrHash, i: nat, str: Str)
    requires Sound(t, count, mem, known, hash) && i < |t| && !IsEmpty(t[i])
    requires t[i].len == |str| + 1 && t[i].hash == hash(str) && StringAt(mem, t[i].encoded) == str
    ensures t[i].encoded != 0 && Describes(mem, t[i], hash) && (mem.Mapped? ==> t[i].encoded in known)
  {
    assert t[i] in t && SlotOk(mem, t[i], hash);
  }

  // A string that the search missed is not known.
  lemma NotInTable(t: seq<Slot>, count: nat, mem: Memory, known: set<nat>, hash: StrHash, str: Str, d: nat)
    requires Sound(t, count, mem, known, hash) && IsEmpty(t[ProbeAt(|t|, hash(str), d)])
    requires forall l :: 0 <= l < d ==> Missed(t[ProbeAt(|t|, hash(str), l)], mem, str, hash)
    ensures forall q :: q in known && q != 0 ==> StringAt(mem, q) != str
  {
    hide ProbeAt, StringAt, TerminatedAt, Linear, Used;
    SoundFacts(t, count, mem, known, hash);
    forall q | q in known && q != 0
      ensures StringAt(mem, q) != str
    {
      var e := KnownDescribed(t, count, mem, known, hash, q);
      if StringAt(mem, q) == str {
        var i :| 0 <= i < |t| && t[i] == e;
        var l := SearchSeesAll(t, hash(str), d, i);
      }
    }
  }

  lemma MaxEndOfSound(t: seq<Slot>, count: nat, mem: Memory, known: set<nat>, hash: StrHash)
    requires Sound(t, count, mem, known, hash)
    ensures if mem.Mapped? then mem.base + MaxEnd(t) <= TWO_64 && MaxEnd(t) < TWO_64 else MaxEnd(t) <= |mem.bytes|
  {
    hide Describes, Linear, Used, SlotOk;
    MaxEndWithin(t, mem, hash);
  }

  // A known reference and its string lie below the end of what the table refers to.
  lemma KnownWithin(t: seq<Slot>, count: nat, mem: Memory, known: set<nat>, hash: StrHash, q: nat)
    requires Sound(t, count, mem, known, hash) && q in known && q != 0
    ensures q + |StringAt(mem, q)| < MaxEnd(t)
    ensures Reachable(mem, q) && TerminatedAt(mem, q)
  {
    hide StringAt, TerminatedAt, Linear, Used, MaxEnd;
    var e := KnownDescribed(t, count, mem, known, hash, q);
  }

  // ---------- From the original table to a new one ----------

  // What the new table starts with: the used part of the old one as the map shows it, or an empty
  // string if no part is used.
  ghost function FirstBytes(t: seq<Slot>, mem: Memory): (b: seq<u8>)
    requires mem.Mapped? && mem.base + MaxEnd(t) <= TWO_64
    ensures |b| > 0
  {
    if MaxEnd(t) == 0 then [0] else Shown(mem, MaxEnd(t))
  }

  // The reference denotes the same string in the new table.
  ghost predicate Survives(mem: Memory, q: nat)
    requires mem.Mapped?
  {
    q == 0 || (Reachable(mem, q) && ShownAlike(mem, q))
  }

  ghost function Surviving(mem: Memory, known: set<nat>): set<nat>
    requires mem.Mapped?
  {
    set q | q in known && Survives(mem, q)
  }

  lemma FirstByteIsZero(t: seq<Slot>, mem: Memory)
    requires mem.Mapped? && mem.base + MaxEnd(t) <= TWO_64 && StringAt(mem, 0) == []
    ensures FirstBytes(t, mem)[0] == 0
  {
    hide MaxEnd;
    if MaxEnd(t) > 0 {
      ZeroShown(mem);
      assert Shown(mem, MaxEnd(t))[0] == ByteShown(mem, mem.base + 0);
    }
  }

  lemma ZeroShown(mem: Memory)
    requires mem.Mapped? && StringAt(mem, 0) == []
    ensures ByteShown(mem, mem.base) == 0
  {
    assert Address(mem.base, 0) == mem.base;
    assert InFile(mem.es, mem.f, mem.base);
  }

  // Exactly the surviving references denote what they did.
  lemma SwitchKeeps(t: seq<Slot>, count: nat, mem: Memory, known: set<nat>, hash: StrHash, q: nat)
    requires Sound(t, count, mem, known, hash) && mem.Mapped? && mem.base + MaxEnd(t) <= TWO_64
             && StringAt(mem, 0) == []
    requires q in known
    ensures CString(FirstBytes(t, mem), q) == StringAt(mem, q) <==> Survives(mem, q)
    ensures q != 0 ==> q + |StringAt(mem, q)| < |FirstBytes(t, mem)|
  {
    hide Sound, MaxEnd, StringAt, ShownAlike, Reachable, TerminatedAt;
    if q == 0 {
      FirstByteIsZero(t, mem);
    } else {
      KnownWithin(t, count, mem, known, hash, q);
      SurvivesExactly(mem, MaxEnd(t), q);
    }
  }

  lemma SwitchIsSound(t: seq<Slot>, count: nat, mem: Memory, known: set<nat>, hash: StrHash)
    requires Sound(t, count, mem, known, hash) && mem.Mapped? && mem.base + MaxEnd(t) <= TWO_64
             && StringAt(mem, 0) == []
    ensures Sound(t, count, Flat(FirstBytes(t, mem)), Surviving(mem, known), hash)
  {
    hide Sound, MaxEnd, Survives;
    var mem' := Flat(FirstBytes(t, mem));
    forall q | q in Surviving(mem, known) && q != 0
      ensures q in known && StringAt(mem', q) == StringAt(mem, q) && TerminatedAt(mem', q)
    {
      SwitchKeeps(t, count, mem, known, hash, q);
    }
    FirstBytesReach(t, mem);
    SoundMoved(t, count, mem, mem', known, Surviving(mem, known), hash);
  }

  // It stays so when the new table is added to.
  lemma SwitchKeepsLonger(t: seq<Slot>, count: nat, mem: Memory, known: set<nat>, hash: StrHash, q: nat, bytes: seq<u8>)
    requires Sound(t, count, mem, known, hash) && mem.Mapped? && mem.base + MaxEnd(t) <= TWO_64
             && StringAt(mem, 0) == []
    requires q in known && |FirstBytes(t, mem)| <= |bytes| && bytes[..|FirstBytes(t, mem)|] == FirstBytes(t, mem)
    ensures CString(bytes, q) == StringAt(mem, q) <==> Survives(mem, q)
  {
    hide Sound, MaxEnd, StringAt, CString, Survives, FirstBytes;
    var w := FirstBytes(t, mem);
    SwitchKeeps(t, count, mem, known, hash, q);
    assert w[..|w|] == w;
    CStringPrefix(w, bytes, q, |w|, StringAt(mem, q));
  }

  lemma FirstBytesReach(t: seq<Slot>, mem: Memory)
    requires mem.Mapped? && mem.base + MaxEnd(t) <= TWO_64
    ensures MaxEnd(t) <= |FirstBytes(t, mem)|
  {
    hide MaxEnd;
  }

  // A new string behind the others.
  lemma SoundAppended(t: seq<Slot>, count: nat, bytes: seq<u8>, known: set<nat>, hash: StrHash, str: Str, d: nat)
    requires Sound(t, count, Flat(bytes), known, hash) && |bytes| > 0 && bytes[0] == 0 && NoZero(str)
    requires d < |t| && TakenFor(t, hash(str), d) && IsEmpty(t[ProbeAt(|t|, hash(str), d)])
    ensures var bytes' := bytes + str + [0];
            && Sound(t[ProbeAt(|t|, hash(str), d) := Slot(|str| + 1, hash(str), |bytes|)], count + 1, Flat(bytes'),
                     known + {|bytes|}, hash)
            && CString(bytes', |bytes|) == str
            && forall q :: q in known ==> CString(bytes', q) == CString(bytes, q)
  {
    hide CString, Linear, Used, MaxEnd, Sound, ProbeAt, TakenFor;
    var bytes', e := bytes + str + [0], Slot(|str| + 1, hash(str), |bytes|);
    MaxEndOfSound(t, count, Flat(bytes), known, hash);
    SoundOfLonger(t, count, bytes, bytes', known, hash);
    assert bytes'[|bytes|..|bytes| + |str|] == str;
    CStringIs(bytes', |bytes|, str);
    SoundInsert(t, count, Flat(bytes'), known, hash, d, e);
  }

  // The table is only added to, behind what the references need.
  lemma SoundOfLonger(t: seq<Slot>, count: nat, bytes: seq<u8>, bytes': seq<u8>, known: set<nat>, hash: StrHash)
    requires Sound(t, count, Flat(bytes), known, hash) && |bytes| <= |bytes'| && bytes == bytes'[..|bytes|]
    requires |bytes| > 0 && bytes[0] == 0
    ensures Sound(t, count, Flat(bytes'), known, hash)
    ensures forall q :: q in known ==> CString(bytes', q) == CString(bytes, q)
  {
    hide Sound, Linear, Used, MaxEnd;
    MaxEndOfSound(t, count, Flat(bytes), known, hash);
    forall q | q in known
      ensures CString(bytes', q) == CString(bytes, q)
      ensures q != 0 ==> Terminated(bytes', q)
    {
      if q != 0 {
        KnownWithin(t, count, Flat(bytes), known, hash, q);
        assert bytes[..|bytes|] == bytes;
        CStringPrefix(bytes, bytes', q, |bytes|, CString(bytes, q));
      }
    }
    SoundMoved(t, count, Flat(bytes), Flat(bytes'), known, known, hash);
  }

  // Copies a string with its terminating zero.
  method CopyString(buffer: array<u8>, at: nat, str: Str)
    requires at + |str| < buffer.Length
    modifies buffer
    ensures buffer[..at + |str| + 1] == old(buffer[..at]) + str + [0]
  {
    forall k | 0 <= k < |str| {
      buffer[at + k] := str[k];
    }
    buffer[at + |str|] := 0;
    assert buffer[..at] == old(buffer[..at]);
    assert buffer[at..at + |str|] == str;
    assert buffer[..at + |str| + 1] == buffer[..at] + buffer[at..at + |str|] + [buffer[at + |str|]];
  }

  class DynStr {
    const vmap: V2fMap
    const f: seq<u8>
    const base: u64
    const refs: seq<nat>
    const hash: StrHash
    ghost const es: seq<Entry> // what the map holds
    var state: State
    var table: array<Slot>
    var count: nat
    var toAdd: array<u8>
    var size: nat
    // The references that must go on denoting what they denote.
    ghost var known: set<nat>

    // The original table.
    ghost function Origin(): MemoryBase {
      Mapped(es, f, base)
    }

    ghost predicate Backed()
      reads vmap, vmap.entries
    {
      vmap.Valid() && vmap.Contents() == es && GoodMemory(Origin()) && GoodTable(Origin(), refs)
    }

    ghost function Mem(): Memory
      reads this, toAdd
      requires size <= toAdd.Length && GoodMemory(Origin())
    {
      if state == Building then Flat(toAdd[..size]) else Origin()
    }

    ghost predicate Valid()
      reads this, table, toAdd, vmap, vmap.entries
    {
      && size <= toAdd.Length && Backed()
      && (table.Length == 0 || table.Length >= 16)
      && (state == ReadOnly ==> known == RefSet(refs))
      && (state != ReadOnly ==> InUse())
    }

    ghost predicate InUse()
      reads this, table, toAdd
      requires size <= toAdd.Length && GoodMemory(Origin())
    {
      && table.Length >= 16 && 4 * count < 3 * (table.Length - 1)
      && Sound(table[..], count, Mem(), known, hash)
      && (state == Building ==> size > 0 && toAdd[0] == 0)
    }

    ghost function Decode(ref: nat): Str
      reads this, toAdd
      requires size <= toAdd.Length && GoodMemory(Origin())
    {
      StringAt(Mem(), ref)
    }

    constructor (m: V2fMap, f: seq<u8>, base: u64, refs: seq<nat>, hash: StrHash)
      requires m.Valid() && GoodMemory(Mapped(m.Contents(), f, base)) && GoodTable(Mapped(m.Contents(), f, base), refs)
      ensures Valid() && state == ReadOnly && vmap == m && es == m.Contents() && this.f == f && this.base == base
      ensures this.refs == refs && known == RefSet(refs) && fresh(table) && fresh(toAdd)
    {
      vmap := m;
      this.f := f;
      this.base := base;
      this.refs := refs;
      this.hash := hash;
      es := m.Contents();
      state := ReadOnly;
      table := new Slot[0];
      count := 0;
      toAdd := new u8[0];
      size := 0;
      known := RefSet(refs);
    }

    // Counts a new slot and doubles the table when three quarters of it are taken.
    method Counted(ghost mem: Memory, ghost now: set<nat>)
      requires table.Length >= 16 && 4 * count < 3 * (table.Length - 1) && Sound(table[..], count + 1, mem, now, hash)
      modifies this`count, this`table
      ensures table.Length >= 16 && 4 * count < 3 * (table.Length - 1) && Sound(table[..], count, mem, now, hash)
      ensures table == old(table) || fresh(table)
    {
      hide Sound, Linear, Used, SameEntries;
      count := count + 1;
      if 4 * count >= 3 * (table.Length - 1) {
        SoundFacts(table[..], count, mem, now, hash);
        var bigger := Rehash(table);
        SoundRehashed(table[..], bigger[..], count, mem, now, hash);
        table := bigger;
      }
    }

    // Reads a string of the original table: through the map once, then on in the file.
    method ReadOriginal(ref: nat) returns (s: Str)
      requires Backed()
      modifies vmap`cached
      ensures Backed() && s == StringAt(Origin(), ref)
    {
      hide CString, At, InFile, GoodTable;
      var a := (base as int + ref) % TWO_64;
      var i := vmap.Lookup(a);
      var x := vmap.entries[i].v2f;
      if Special(x) {
        s := [];
      } else {
        s := CString(f, Offset(x, a));
      }
    }

    // Notes an existing reference, unless the search comes across it.
    method AddExisting(ref: nat, ghost now: set<nat>)
      requires Backed() && (ref != 0 ==> Reachable(Origin(), ref))
      requires table.Length >= 16 && 4 * count < 3 * (table.Length - 1) && Sound(table[..], count, Origin(), now, hash)
      modifies this`count, this`table, table, vmap`cached
      ensures Backed() && (table == old(table) || fresh(table))
      ensures table.Length >= 16 && 4 * count < 3 * (table.Length - 1)
              && Sound(table[..], count, Origin(), now + {ref}, hash)
    {
      hide Sound, Linear, Used, ProbeAt, TakenFor, GoodTable, GoodMemory, Reachable, StringAt, TerminatedAt, SlotOk,
           Describes;
      var s := ReadOriginal(ref);
      var e := Slot(|s| + 1, hash(s), ref);
      SoundFacts(table[..], count, Origin(), now, hash);
      var k := 0;
      NothingTaken(table[..], e.hash);
      while true
        invariant table == old(table) && count == old(count) && table[..] == old(table[..]) && Backed()
        invariant 0 <= k <= table.Length && TakenFor(table[..], e.hash, k)
        decreases table.Length - k
      {
        SearchEnds(table[..], e.hash, k);
        var i := ProbeAt(table.Length, e.hash, k);
        if table[i].encoded == ref {
          SoundAgain(table[..], count, Origin(), now, hash, i, ref);
          return;
        } else if IsEmpty(table[i]) {
          EmptyIsNone(table[..], i);
          SlotDescribes(Origin(), ref, hash, e);
          SoundInsert(table[..], count, Origin(), now, hash, k, e);
          ghost var was := table[..];
          table[i] := e;
          assert table[..] == was[i := e];
          Counted(Origin(), now + {ref});
          return;
        }
        TakenNext(table[..], e.hash, k);
        k := k + 1;
      }
    }

    // Makes the table of the references that there are.
    method BuildTable()
      requires Valid() && state == ReadOnly
      modifies this`state, this`count, this`table, table, vmap`cached
      ensures Valid() && state == Existing && (table == old(table) || fresh(table))
    {
      hide Sound, Linear, Used, RefSet, GoodTable, GoodMemory, Reachable;
      count := 0;
      if table.Length != 0 {
        forall i | 0 <= i < table.Length {
          table[i] := NONE;
        }
      } else {
        table := new Slot[16](_ => NONE);
      }
      NothingKnown(table[..], Origin(), hash);
      assert RefSet(refs[..0]) == {};
      for i := 0 to |refs|
        invariant (table == old(table) || fresh(table)) && Backed()
        invariant table.Length >= 16 && 4 * count < 3 * (table.Length - 1)
        invariant Sound(table[..], count, Origin(), RefSet(refs[..i]), hash)
      {
        RefsReachable(Origin(), refs, i);
        assert refs[..i + 1] == refs[..i] + [refs[i]];
        assert RefSet(refs[..i + 1]) == RefSet(refs[..i]) + {refs[i]};
        AddExisting(refs[i], RefSet(refs[..i]));
      }
      assert refs[..|refs|] == refs;
      state := Existing;
    }

    // The search for the string ends at slot `i`, which is empty.
    ghost predicate IsPlaceFor(str: Str, i: nat, d: nat)
      reads this, table
    {
      && d < table.Length && i == ProbeAt(table.Length, hash(str), d)
      && TakenFor(table[..], hash(str), d) && IsEmpty(table[i])
    }

    // Looks for the string; otherwise finds the slot for it.
    method Search(str: Str) returns (found: bool, ref: nat, i: nat, ghost d: nat)
      requires Valid() && state != ReadOnly
      modifies vmap`cached
      ensures Valid()
      ensures found ==> ref != 0 && Decode(ref) == str && Sound(table[..], count, Mem(), known + {ref}, hash)
      ensures found && state == Existing ==> ref in known
      ensures !found ==> forall q :: q in known && q != 0 ==> Decode(q) != str
      ensures !found ==> IsPlaceFor(str, i, d)
    {
      hide Sound, Linear, Used, ProbeAt, TakenFor, GoodTable, GoodMemory, StringAt, TerminatedAt, Describes;
      var h := hash(str);
      SoundFacts(table[..], count, Mem(), known, hash);
      NothingTaken(table[..], h);
      var k := 0;
      while true
        invariant Valid()
        invariant 0 <= k <= table.Length && TakenFor(table[..], h, k)
        invariant forall l :: 0 <= l < k ==> Missed(table[ProbeAt(table.Length, h, l)], Mem(), str, hash)
        decreases table.Length - k
      {
        SearchEnds(table[..], h, k);
        i, d := ProbeAt(table.Length, h, k), k;
        var e := table[i];
        if e.len == |str| + 1 && e.hash == h {
          var existing := Decoded(e.encoded);
          if existing == str {
            HitDescribes(table[..], count, Mem(), known, hash, i, str);
            SoundKnown(table[..], count, Mem(), known, hash, i);
            return true, e.encoded, i, d;
          }
        } else if IsEmpty(e) {
          NotInTable(table[..], count, Mem(), known, hash, str, k);
          return false, 0, i, d;
        } else {
          MissedOther(Mem(), e, str, hash);
        }
        TakenNext(table[..], h, k);
        k := k + 1;
      }
    }

    // The string that a reference denotes.
    method Decoded(ref: nat) returns (s: Str)
      requires Valid()
      modifies vmap`cached
      ensures Valid() && s == Decode(ref)
    {
      if state == Building {
        s := CString(toAdd[..size], ref);
      } else {
        s := ReadOriginal(ref);
      }
    }

    // Makes a buffer of at least the given size; what was in it is given up.
    method Allocate(n: nat)
      modifies this`toAdd, this`size
      ensures size == n <= toAdd.Length && (toAdd == old(toAdd) || fresh(toAdd))
    {
      size := n;
      if n > toAdd.Length {
        toAdd := new u8[n + 32](_ => 0);
      }
    }

    // Fills the buffer with the first `n` bytes that the map shows of the original table.
    method Materialise(n: nat)
      requires Backed() && 0 < n == size <= toAdd.Length && base + n <= TWO_64 && n < TWO_64
      modifies vmap`cached, toAdd
      ensures Backed() && toAdd[..size] == Shown(Origin(), n)
    {
      hide At, View, InFile;
      AllShown(Origin(), n);
      ghost var was := toAdd[..];
      var single := MaterialiseRange(vmap, f, base, n, toAdd);
      assert toAdd[..] == Written(es, f, base, n, was);
    }

    // Starts a new string table: an empty one, or the used part of the old one as the map shows it.
    // From then on only the references that survived this are known.
    method StartBuilding() returns (sparse: bool)
      requires Valid() && state == Existing
      modifies this`state, this`toAdd, this`size, this`known, toAdd, vmap`cached
      ensures Valid() && (toAdd == old(toAdd) || fresh(toAdd))
      ensures sparse ==> state == Existing && known == old(known)
      ensures sparse <==> !IsDense(table[..])
      ensures !sparse ==> state == Building && base + MaxEnd(table[..]) <= TWO_64
      ensures !sparse ==> Mem() == Flat(FirstBytes(table[..], Origin()))
      ensures !sparse ==> known == Surviving(Origin(), old(known))
      ensures !sparse ==> forall q :: q in old(known) ==> (Decode(q) == old(Decode(q)) <==> Survives(Origin(), q))
    {
      hide Sound, Linear, Used, GoodTable, MaxEnd, SumLen, CString, Survives, GoodMemory, FirstBytes, Surviving,
           StringAt, At;
      ghost var t := table[..];
      var maxOff, sumLen := MaxAndSum(table);
      MaxEndOfSound(table[..], count, Origin(), known, hash);
      StartsEmpty(Origin(), refs);
      if maxOff > 0 && !(maxOff <= sumLen + sumLen / 8 || maxOff <= 1024) {
        return true;
      }
      Fill(maxOff, t);
      assert table[..] == t;
      FirstByteIsZero(t, Origin());
      SwitchIsSound(t, count, Origin(), known, hash);
      FlatIsGood(toAdd[..size]);
      forall q | q in known
        ensures StringAt(Flat(toAdd[..size]), q) == StringAt(Origin(), q) <==> Survives(Origin(), q)
      {
        FlatString(toAdd[..size], q);
        SwitchKeeps(t, count, Origin(), known, hash, q);
      }
      known := Surviving(Origin(), known);
      state := Building;
      sparse := false;
    }

    // Fills the new table: with the used part of the old one, or with an empty string.
    method Fill(maxOff: nat, ghost t: seq<Slot>)
      requires Backed() && size <= toAdd.Length
      requires maxOff == MaxEnd(t) && base + maxOff <= TWO_64 && maxOff < TWO_64
      modifies this`toAdd, this`size, toAdd, vmap`cached
      ensures Backed() && 0 < size <= toAdd.Length && toAdd[..size] == FirstBytes(t, Origin())
      ensures toAdd == old(toAdd) || fresh(toAdd)
    {
      hide MaxEnd, GoodTable, GoodMemory, Shown, At;
      if maxOff == 0 {
        Allocate(1);
        toAdd[0] := 0;
      } else {
        Allocate(maxOff);
        Materialise(maxOff);
      }
    }

    // Makes room for `len` more bytes, in a bigger buffer if need be.
    method Reserve(len: nat)
      requires size <= toAdd.Length
      modifies this`toAdd
      ensures size + len <= toAdd.Length && toAdd[..size] == old(toAdd[..size])
      ensures toAdd == old(toAdd) || fresh(toAdd)
    {
      if toAdd.Length - size < len {
        var bigger := new u8[toAdd.Length + (if len < toAdd.Length then toAdd.Length else len)](_ => 0);
        forall k | 0 <= k < size {
          bigger[k] := toAdd[k];
        }
        toAdd := bigger;
      }
    }

    // Writes the string behind the others.
    method Write(str: Str)
      requires 0 < size <= toAdd.Length
      modifies this`toAdd, this`size, toAdd
      ensures size == old(size) + |str| + 1 <= toAdd.Length && toAdd[..size] == old(toAdd[..size]) + str + [0]
      ensures toAdd == old(toAdd) || fresh(toAdd)
    {
      Reserve(|str| + 1);
      CopyString(toAdd, size, str);
      size := size + |str| + 1;
    }

    // Adds a string that is not in the table.
    method Append(str: Str, i: nat, ghost d: nat) returns (ref: nat)
      requires Valid() && state == Building && NoZero(str)
      requires IsPlaceFor(str, i, d)
      modifies this, table, toAdd
      ensures Valid() && state == Building && (table == old(table) || fresh(table))
              && (toAdd == old(toAdd) || fresh(toAdd))
      ensures ref == old(size) && Mem() == Flat(old(Mem()).bytes + str + [0]) && known == old(known) + {ref}
      ensures Decode(ref) == str && forall q :: q in old(known) ==> Decode(q) == old(Decode(q))
    {
      hide Sound, Linear, Used, GoodTable, CString, ProbeAt, TakenFor;
      ghost var bytes, t := toAdd[..size], table[..];
      SoundAppended(t, count, bytes, known, hash, str, d);
      ref := size;
      Write(str);
      table[i] := Slot(|str| + 1, hash(str), ref);
      assert table[..] == t[i := Slot(|str| + 1, hash(str), ref)];
      known := known + {ref};
      ghost var bytes' := toAdd[..size];
      Counted(Flat(bytes'), known);
      assert Mem() == Flat(bytes') && bytes'[0] == bytes[0];
    }

    // Adds a string for which the search found a place but no reference.
    method EncodeNew(str: Str, i: nat, ghost d: nat) returns (r: Outcome)
      requires Valid() && state != ReadOnly && NoZero(str)
      requires IsPlaceFor(str, i, d)
      modifies this, table, toAdd, vmap`cached
      ensures Valid() && (table == old(table) || fresh(table)) && (toAdd == old(toAdd) || fresh(toAdd))
      ensures r.Sparse? ==>
                known == old(known) && state == old(state) == Existing && Mem() == old(Mem()) && !IsDense(table[..])
      ensures r.Encoded? ==> state == Building && Decode(r.ref) == str && r.ref !in old(known)
      ensures r.Encoded? ==>
                known == (if Switched(old(state)) then Surviving(Origin(), old(known)) else old(known)) + {r.ref}
      ensures r.Encoded? && old(state) == Building ==>
                Mem() == Flat(old(Mem()).bytes + str + [0]) &&
                forall q :: q in old(known) ==> Decode(q) == old(Decode(q))
      ensures r.Encoded? && old(state) == Existing ==>
                forall q :: q in old(known) ==> (Decode(q) == old(Decode(q)) <==> Survives(Origin(), q))
    {
      hide Sound, Linear, Used, GoodTable, CString, ProbeAt, TakenFor, IsDense, StringAt, Survives, GoodMemory, MaxEnd,
           FirstBytes, Surviving, RefSet, At;
      ghost var t, count0, known0, first := table[..], count, known, state != Building;
      if state != Building {
        var sparse := StartBuilding();
        if sparse {
          return Sparse;
        }
      }
      KnownBelow(table[..], count, toAdd[..size], known, hash);
      var ref := Append(str, i, d);
      r := Encoded(ref);
      if first {
        StartsEmpty(Origin(), refs);
        forall q | q in known0
          ensures Decode(q) == StringAt(Origin(), q) <==> Survives(Origin(), q)
          ensures q != ref
        {
          FlatString(toAdd[..size], q);
          SwitchKeeps(t, count0, Origin(), known0, hash, q);
          SwitchKeepsLonger(t, count0, Origin(), known0, hash, q, toAdd[..size]);
        }
      }
    }

    // The reference of a string: an existing one if there is one, otherwise a new one. The first
    // new string moves all strings to a new table; the known references that the map does not show
    // alike are given up then, and only those.
    method Encode(str: Str) returns (r: Outcome)
      requires Valid() && NoZero(str)
      modifies this, table, toAdd, vmap`cached
      ensures Valid() && (table == old(table) || fresh(table)) && (toAdd == old(toAdd) || fresh(toAdd))
      ensures r.Sparse? ==> known == old(known) && old(state) != Building && state != Building && !IsDense(table[..])
      ensures r.Encoded? ==> Decode(r.ref) == str && r.ref in known
      ensures state == Building <==> old(state) == Building || (r.Encoded? && !old(Knows(str)))
      ensures r.Encoded? ==>
                known == (if Switched(old(state)) then Surviving(Origin(), old(known)) else old(known)) + {r.ref}
      ensures !Switched(old(state)) ==> forall q :: q in old(known) ==> Decode(q) == old(Decode(q))
      ensures Switched(old(state)) ==>
                r.ref !in old(known) &&
                forall q :: q in old(known) ==> (Decode(q) == old(Decode(q)) <==> Survives(Origin(), q))
      ensures r.Encoded? && old(Knows(str)) ==> Mem() == old(Mem())
      ensures r.Encoded? && old(state) == Building ==>
                Mem() == old(Mem()) || (r.ref !in old(known) && Mem() == Flat(old(Mem()).bytes + str + [0]))
    {
      hide Sound, Linear, Used, GoodTable, CString, ProbeAt, TakenFor, IsDense, StringAt, Survives, GoodMemory, MaxEnd,
           FirstBytes, Surviving, RefSet, At;
      if state == ReadOnly {
        BuildTable();
      }
      var found, ref, i, d := Search(str);
      if found {
        known := known + {ref};
        r := Encoded(ref);
      } else {
        r := EncodeNew(str, i, d);
      }
    }

    // The new table was started since the state was `was`.
    ghost predicate Switched(was: State)
      reads this
    {
      state == Building && was != Building
    }

    // Some known reference other than 0 denotes the string.
    ghost predicate Knows(str: Str)
      reads this, toAdd
      requires size <= toAdd.Length && GoodMemory(Origin())
    {
      exists q :: q in known && q != 0 && Decode(q) == str
    }
  }

  lemma MissedOther(mem: Memory, e: Slot, str: Str, hash: StrHash)
    requires e.len != |str| + 1 || e.hash != hash(str)
    ensures Missed(e, mem, str, hash)
  {
  }

  lemma AllShown(mem: Memory, n: nat)
    requires mem.Mapped? && mem.base + n <= TWO_64
    ensures AllInFile(mem.es, mem.f, mem.base, n)
  {
  }

  lemma FlatIsGood(bytes: seq<u8>)
    ensures GoodMemory(Flat(bytes))
  {
  }

  lemma FlatString(bytes: seq<u8>, q: nat)
    ensures StringAt(Flat(bytes), q) == CString(bytes, q)
  {
  }

  lemma StartsEmpty(mem: Memory, refs: seq<nat>)
    requires GoodTable(mem, refs)
    ensures StringAt(mem, 0) == []
  {
  }

  lemma KnownBelow(t: seq<Slot>, count: nat, bytes: seq<u8>, known: set<nat>, hash: StrHash)
    requires Sound(t, count, Flat(bytes), known, hash) && |bytes| > 0
    ensures |bytes| !in known
  {
    MaxEndOfSound(t, count, Flat(bytes), known, hash);
    forall q | q in known
      ensures q != |bytes|
    {
      if q != 0 {
        KnownWithin(t, count, Flat(bytes), known, hash, q);
      }
    }
  }
}

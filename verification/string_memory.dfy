// Where references to dynamic strings are decoded, and what is left of the strings in a buffer filled from the map.
module StringMemory {
  import opened Words
  import opened AddressMap
  import opened FileView

  type Str = seq<u8>

  // The bytes from `i` up to the next zero.
  function CString(mem: seq<u8>, i: nat): (s: Str)
    ensures |s| > 0 ==> i + |s| <= |mem|
    decreases |mem| - i
  {
    if i >= |mem| || mem[i] == 0 then [] else [mem[i]] + CString(mem, i + 1)
  }

  ghost predicate NoZero(s: Str) {
    forall i :: 0 <= i < |s| ==> s[i] != 0
  }

  // The string at `i` ends within the memory.
  predicate Terminated(mem: seq<u8>, i: nat) {
    i + |CString(mem, i)| < |mem|
  }

  lemma {:induction false} CStringIs(mem: seq<u8>, i: nat, s: Str)
    requires i + |s| < |mem| && mem[i..i + |s|] == s && mem[i + |s|] == 0 && NoZero(s)
    ensures CString(mem, i) == s
    decreases |s|
  {
    if |s| > 0 {
      assert mem[i] == mem[i..i + |s|][0] == s[0];
      assert mem[i + 1..i + |s|] == mem[i..i + |s|][1..] == s[1..];
      CStringIs(mem, i + 1, s[1..]);
    }
  }

  lemma {:induction false} CStringBytes(mem: seq<u8>, i: nat)
    ensures var s := CString(mem, i);
            && NoZero(s) && (forall k :: 0 <= k < |s| ==> i + k < |mem| && mem[i + k] == s[k])
            && (i + |s| < |mem| ==> mem[i + |s|] == 0)
    decreases |mem| - i
  {
    if i < |mem| && mem[i] != 0 {
      CStringBytes(mem, i + 1);
      var s := CString(mem, i);
      forall k | 0 <= k < |s|
        ensures i + k < |mem| && mem[i + k] == s[k] != 0
      {
        assert k > 0 ==> s[k] == CString(mem, i + 1)[k - 1];
      }
    }
  }

  // Changing bytes only behind position `n` leaves the strings before it alone.
  lemma CStringPrefix(a: seq<u8>, b: seq<u8>, i: nat, n: nat, s: Str)
    requires i + |s| < n <= |a| && n <= |b| && a[..n] == b[..n]
    ensures CString(a, i) == s <==> CString(b, i) == s
  {
    if CString(a, i) == s {
      SameStart(a, b, i, n, s);
    }
    if CString(b, i) == s {
      SameStart(b, a, i, n, s);
    }
  }

  lemma SameStart(a: seq<u8>, b: seq<u8>, i: nat, n: nat, s: Str)
    requires i + |s| < n <= |a| && n <= |b| && a[..n] == b[..n] && CString(a, i) == s
    ensures CString(b, i) == s
  {
    CStringBytes(a, i);
    forall k | 0 <= k < |s|
      ensures b[i..i + |s|][k] == s[k]
    {
      assert a[..n][i + k] == b[..n][i + k];
    }
    assert a[..n][i + |s|] == b[..n][i + |s|];
    CStringIs(b, i, s);
  }

  // ---------- Decoding a reference ----------

  // The map with the file and the address of the original table, or the bytes of a new one.
  datatype MemoryBase = Mapped(es: seq<Entry>, f: seq<u8>, base: u64) | Flat(bytes: seq<u8>)

  // The map leads nowhere outside of the file.
  ghost predicate GoodMemory(m: MemoryBase) {
    m.Mapped? ==> Sorted(m.es) && |m.f| < TWO_64 && forall v: u64 :: InFile(m.es, m.f, v)
  }

  type Memory = m: MemoryBase | GoodMemory(m) ghost witness Flat([])

  function Address(base: u64, ref: nat): u64 {
    (base + ref) % TWO_64
  }

  // Through the map a string is read from the file as it lies there, whatever the map says of the
  // addresses behind its first byte.
  ghost function StringAt(m: Memory, ref: nat): Str {
    match m
    case Flat(bytes) => CString(bytes, ref)
    case Mapped(es, f, base) =>
      var a := Address(base, ref);
      if Special(At(es, a)) then [] else CString(f, Offset(At(es, a), a))
  }

  ghost predicate TerminatedAt(m: Memory, ref: nat) {
    match m
    case Flat(bytes) => Terminated(bytes, ref)
    case Mapped(es, f, base) =>
      var a := Address(base, ref);
      Special(At(es, a)) || Terminated(f, Offset(At(es, a), a))
  }

  // The string and its zero end within the address space, at an offset of 64 bits.
  ghost predicate Reachable(m: Memory, ref: nat) {
    m.Mapped? ==>
      TerminatedAt(m, ref) && m.base + ref + |StringAt(m, ref)| < TWO_64 && ref + |StringAt(m, ref)| + 1 < TWO_64
  }

  // ---------- What the map shows of a string ----------

  // The first `n` bytes of the original table as the map shows them.
  ghost function Shown(m: Memory, n: nat): (b: seq<u8>)
    requires m.Mapped? && m.base + n <= TWO_64
    ensures |b| == n && forall k :: 0 <= k < n ==> b[k] == ByteShown(m, m.base + k)
  {
    View(m.es, m.f, m.base, n)
  }

  ghost function ByteShown(m: Memory, v: u64): u8
    requires m.Mapped?
  {
    ByteAt(m.es, m.f, v)
  }

  // How far the entry goes that a reference leads into.
  ghost function RoomAt(m: Memory, ref: nat): int
    requires m.Mapped? && m.base + ref < TWO_64
  {
    Base(m.es, Index(m.es, m.base + ref) + 1) - (m.base + ref)
  }

  // Behind the end of the entry the map goes on to show the bytes that the file goes on with. A
  // string that ends within the entry needs nothing.
  ghost predicate ShownAlike(m: Memory, ref: nat)
    requires m.Mapped? && Reachable(m, ref)
  {
    var s := StringAt(m, ref) + [0];
    forall k :: RoomAt(m, ref) <= k < |s| ==> ByteShown(m, m.base + ref + k) == s[k]
  }

  // The bytes of one entry as they lie in the file.
  lemma EntryByte(es: seq<Entry>, f: seq<u8>, i: nat, a: u64, k: nat)
    requires Sorted(es) && |f| < TWO_64 && forall v: u64 :: InFile(es, f, v)
    requires i < |es| && es[i].vbase <= a && a + k < Base(es, i + 1)
    ensures Special(es[i].v2f) ==> ByteAt(es, f, a + k) == 0
    ensures !Special(es[i].v2f) ==>
              Offset(es[i].v2f, a) + k < |f| && ByteAt(es, f, a + k) == f[Offset(es[i].v2f, a) + k]
  {
    hide Offset, Special;
    IndexUnique(es, i, a + k);
    if !Special(es[i].v2f) {
      OffsetsRunOn(es, f, i, a, k);
    }
  }

  lemma StringAtIs(m: Memory, ref: nat, i: nat)
    requires m.Mapped? && m.base + ref < TWO_64 && Contains(m.es, i, m.base + ref)
    ensures Index(m.es, m.base + ref) == i
    ensures StringAt(m, ref) == if Special(m.es[i].v2f) then [] else CString(m.f, Offset(m.es[i].v2f, m.base + ref))
    ensures TerminatedAt(m, ref) <==> Special(m.es[i].v2f) || Terminated(m.f, Offset(m.es[i].v2f, m.base + ref))
  {
    hide Offset, Special, CString;
    IndexUnique(m.es, i, m.base + ref);
    assert Address(m.base, ref) == m.base + ref;
  }

  // Within the entry it always does.
  lemma ShownWithinEntry(m: Memory, ref: nat, k: nat)
    requires m.Mapped? && Reachable(m, ref) && k <= |StringAt(m, ref)| && k < RoomAt(m, ref)
    ensures ByteShown(m, m.base + ref + k) == (StringAt(m, ref) + [0])[k]
  {
    hide CString, Offset, Special, StringAt, TerminatedAt, At, InFile, ByteAt;
    var Mapped(es, f, base) := m;
    var a: u64 := base + ref;
    var i := Index(es, a);
    EntryByte(es, f, i, a, k);
    StringAtIs(m, ref, i);
    if !Special(es[i].v2f) {
      CStringBytes(f, Offset(es[i].v2f, a));
    }
  }

  lemma ShownByte(m: Memory, n: nat, ref: nat, k: nat)
    requires m.Mapped? && Reachable(m, ref) && m.base + n <= TWO_64 && ref + |StringAt(m, ref)| < n
    requires k <= |StringAt(m, ref)| && (ShownAlike(m, ref) || k < RoomAt(m, ref))
    ensures Shown(m, n)[ref + k] == (StringAt(m, ref) + [0])[k]
  {
    hide StringAt, ByteShown;
    if k < RoomAt(m, ref) {
      ShownWithinEntry(m, ref, k);
    }
  }

  // Filling a buffer with what the map shows keeps the string that a reference denotes if and only
  // if the map shows what lies in the file for as long as the string goes on.
  lemma SurvivesExactly(m: Memory, n: nat, ref: nat)
    requires m.Mapped? && Reachable(m, ref) && m.base + n <= TWO_64 && ref + |StringAt(m, ref)| < n
    ensures CString(Shown(m, n), ref) == StringAt(m, ref) <==> ShownAlike(m, ref)
  {
    hide CString, StringAt, ByteShown, RoomAt;
    var w, s := Shown(m, n), StringAt(m, ref);
    if ShownAlike(m, ref) {
      forall k | 0 <= k < |s|
        ensures w[ref..ref + |s|][k] == s[k]
      {
        ShownByte(m, n, ref, k);
      }
      ShownByte(m, n, ref, |s|);
      StringHasNoZero(m, ref);
      CStringIs(w, ref, s);
    }
    if CString(w, ref) == s {
      CStringBytes(w, ref);
      RoomIsPositive(m, ref);
      forall k: nat | RoomAt(m, ref) <= k < |s + [0]|
        ensures ByteShown(m, m.base + ref + k) == (s + [0])[k]
      {
        assert w[ref + k] == ByteShown(m, m.base + (ref + k));
      }
    }
  }

  lemma RoomIsPositive(m: Memory, ref: nat)
    requires m.Mapped? && m.base + ref < TWO_64
    ensures RoomAt(m, ref) > 0
  {
  }

  lemma StringHasNoZero(m: Memory, ref: nat)
    ensures NoZero(StringAt(m, ref))
  {
    match m
    case Flat(bytes) => CStringBytes(bytes, ref);
    case Mapped(es, f, base) =>
      CStringBytes(f, Offset(At(es, Address(base, ref)), Address(base, ref)));
  }

  // Strings that end within their entry always survive, in particular the empty ones.
  lemma ShortSurvives(m: Memory, ref: nat)
    requires m.Mapped? && Reachable(m, ref) && |StringAt(m, ref)| < RoomAt(m, ref)
    ensures ShownAlike(m, ref)
  {
  }

  // A string that runs on in the file beyond its entry, whose successor shows zeros: it is cut.
  lemma CutString() returns (m: Memory)
    ensures m.Mapped? && Reachable(m, 1) && StringAt(m, 1) == [65, 66] && StringAt(m, 0) == []
    ensures m.base + 4 <= TWO_64 && CString(Shown(m, 4), 1) == [65] && !ShownAlike(m, 1)
  {
    var es: seq<Entry> := [Entry(0, 0), Entry(2, V2F_ZEROFILL)];
    var f: seq<u8> := [0, 65, 66, 0];
    forall v: u64
      ensures At(es, v) == if v < 2 then 0 else V2F_ZEROFILL
    {
      IndexUnique(es, if v < 2 then 0 else 1, v);
    }
    m := Mapped(es, f, 0);
    CStringIs(f, 1, [65, 66]);
    var w := Shown(m, 4);
    assert w[1] == ByteShown(m, 0 + 1) && w[2] == ByteShown(m, 0 + 2);
    CStringIs(w, 1, [65]);
    SurvivesExactly(m, 4, 1);
  }
}

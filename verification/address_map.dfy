// Sorted map from 64-bit addresses to 64-bit values, kept as an array of range starts that ends
// with a sentinel: the map from virtual address to file offset.
module AddressMap {
  import opened Words

  datatype Entry = Entry(vbase: u64, v2f: u64)

  const V2F_ZEROFILL: u64 := 1
  const V2F_UNMAPPED: u64 := 2

  // `v2f & V2F_SPECIAL`
  predicate Special(v2f: u64) {
    v2f % 4 != 0
  }

  // ---------- Entries as a function of the address ----------

  // Where entry `i` starts; the sentinel stands for 2^64.
  function Base(es: seq<Entry>, i: nat): nat
    requires i <= |es|
  {
    if i < |es| then es[i].vbase else TWO_64
  }

  ghost predicate Sorted(es: seq<Entry>) {
    && |es| > 0
    && es[0].vbase == 0
    && forall i, j :: 0 <= i < j < |es| ==> es[i].vbase < es[j].vbase
  }

  ghost predicate Canonical(es: seq<Entry>) {
    && Sorted(es)
    && forall i :: 0 < i < |es| ==> Differs(es, i)
  }

  ghost predicate Differs(es: seq<Entry>, i: nat)
    requires 0 < i < |es|
  {
    es[i - 1].v2f != es[i].v2f
  }

  predicate Contains(es: seq<Entry>, i: nat, v: u64) {
    i < |es| && Base(es, i) <= v < Base(es, i + 1)
  }

  // The entry that holds `v`: the last one that starts at or before it.
  ghost function Index(es: seq<Entry>, v: u64): (i: nat)
    requires Sorted(es)
    ensures Contains(es, i, v)
  {
    IndexExists(es, v, |es|);
    var i :| Contains(es, i, v);
    i
  }

  lemma {:induction false} IndexExists(es: seq<Entry>, v: u64, n: nat)
    requires Sorted(es) && 0 < n <= |es| && v < Base(es, n)
    ensures exists i :: Contains(es, i, v)
  {
    if v < es[n - 1].vbase {
      IndexExists(es, v, n - 1);
    } else {
      assert Contains(es, n - 1, v);
    }
  }

  lemma IndexUnique(es: seq<Entry>, i: nat, v: u64)
    requires Sorted(es) && Contains(es, i, v)
    ensures Index(es, v) == i
  {
    var j := Index(es, v);
  }

  // The value of the map at `v`.
  ghost function At(es: seq<Entry>, v: u64): u64
    requires Sorted(es)
  {
    es[Index(es, v)].v2f
  }

  lemma AtIs(es: seq<Entry>, i: nat, v: u64)
    requires Sorted(es) && Contains(es, i, v)
    ensures At(es, v) == es[i].v2f
  {
    IndexUnique(es, i, v);
  }

  lemma BaseBelowNext(es: seq<Entry>, i: nat)
    requires Sorted(es) && i < |es|
    ensures es[i].vbase < Base(es, i + 1)
  {
  }

  lemma StartsAtZero(es: seq<Entry>)
    requires Sorted(es)
    ensures |es| > 0 && es[0].vbase == 0
  {
  }

  ghost predicate SameMap(a: seq<Entry>, b: seq<Entry>)
    requires Sorted(a) && Sorted(b)
  {
    forall v: u64 :: At(a, v) == At(b, v)
  }

  lemma ValueAtBase(es: seq<Entry>, i: nat)
    requires Sorted(es) && i < |es|
    ensures At(es, es[i].vbase) == es[i].v2f
  {
    if i + 1 < |es| {
      assert es[i].vbase < es[i + 1].vbase;
    }
    IndexUnique(es, i, es[i].vbase);
  }

  // Canonical entries are determined by the function they denote.
  lemma {:induction false} CanonicalUpTo(a: seq<Entry>, b: seq<Entry>, n: nat)
    requires Canonical(a) && Canonical(b) && SameMap(a, b) && n <= |a|
    ensures n <= |b| && a[..n] == b[..n]
  {
    if n == 1 {
      ValueAtBase(a, 0);
      ValueAtBase(b, 0);
    } else if n > 1 {
      CanonicalUpTo(a, b, n - 1);
      assert a[n - 2] == a[..n - 1][n - 2] == b[..n - 1][n - 2] == b[n - 2];
      NextBaseNotLater(b, a, n - 1);
      NextBaseNotLater(a, b, n - 1);
      assert n <= |b|;
      ValueAtBase(a, n - 1);
      ValueAtBase(b, n - 1);
      assert a[..n] == a[..n - 1] + [a[n - 1]] && b[..n] == b[..n - 1] + [b[n - 1]];
    }
  }

  // Where `b` goes on to a next entry after a shared one, so does `a`, and not later.
  lemma NextBaseNotLater(a: seq<Entry>, b: seq<Entry>, n: nat)
    requires Canonical(a) && Canonical(b) && SameMap(a, b) && 0 < n <= |a| && n <= |b|
    requires a[n - 1] == b[n - 1]
    ensures Base(a, n) <= Base(b, n)
  {
    if n < |b| {
      assert Differs(b, n) && b[n - 1].vbase < b[n].vbase;
      ValueAtBase(b, n);
      if b[n].vbase < Base(a, n) {
        IndexUnique(a, n - 1, b[n].vbase);
      }
    }
  }

  lemma CanonicalIsUnique(a: seq<Entry>, b: seq<Entry>)
    requires Canonical(a) && Canonical(b) && SameMap(a, b)
    ensures a == b
  {
    CanonicalUpTo(a, b, |a|);
    CanonicalUpTo(b, a, |b|);
  }

  // ---------- Replacing a stretch of entries ----------

  // `es` with the entries from `itr` to `tail` replaced by one that covers [vbase, vend], and
  // the rest starting right behind it.
  function Splice(es: seq<Entry>, itr: nat, tail: nat, vbase: u64, vend: u64, v2f: u64): (r: seq<Entry>)
    requires itr <= |es| && tail <= |es| && (tail < |es| ==> vend < TWO_64 - 1)
  {
    es[..itr] + [Entry(vbase, v2f)] +
    (if tail < |es| then [Entry(vend + 1, es[tail].v2f)] + es[tail + 1..] else [])
  }

  ghost predicate Spliceable(es: seq<Entry>, itr: nat, tail: nat, vbase: u64, vend: u64) {
    && Sorted(es)
    && itr <= |es| && tail <= |es| && vbase <= vend
    && (if itr == 0 then vbase == 0 else es[itr - 1].vbase < vbase)
    && vbase <= Base(es, itr)
    && (if tail < |es| then es[tail].vbase <= vend + 1 < Base(es, tail + 1) else vend == TWO_64 - 1)
  }

  lemma SpliceEntries(es: seq<Entry>, itr: nat, tail: nat, vbase: u64, vend: u64, v2f: u64, k: nat)
    requires itr <= |es| && tail <= |es| && (tail < |es| ==> vend < TWO_64 - 1)
    requires k < |Splice(es, itr, tail, vbase, vend, v2f)|
    ensures Splice(es, itr, tail, vbase, vend, v2f)[k] ==
            if k < itr then es[k]
            else if k == itr then Entry(vbase, v2f)
            else if k == itr + 1 then Entry(vend + 1, es[tail].v2f)
            else es[tail + (k - itr - 1)]
  {
  }

  lemma SpliceIsSorted(es: seq<Entry>, itr: nat, tail: nat, vbase: u64, vend: u64, v2f: u64)
    requires Spliceable(es, itr, tail, vbase, vend)
    ensures tail < |es| ==> vend < TWO_64 - 1
    ensures Sorted(Splice(es, itr, tail, vbase, vend, v2f))
  {
    var ns := Splice(es, itr, tail, vbase, vend, v2f);
    forall i, j | 0 <= i < j < |ns|
      ensures ns[i].vbase < ns[j].vbase
    {
      SpliceEntries(es, itr, tail, vbase, vend, v2f, i);
      SpliceEntries(es, itr, tail, vbase, vend, v2f, j);
    }
  }

  lemma SpliceAt(es: seq<Entry>, itr: nat, tail: nat, vbase: u64, vend: u64, v2f: u64, v: u64)
    requires Spliceable(es, itr, tail, vbase, vend)
    ensures tail < |es| ==> vend < TWO_64 - 1
    ensures Sorted(Splice(es, itr, tail, vbase, vend, v2f))
    ensures At(Splice(es, itr, tail, vbase, vend, v2f), v) == if vbase <= v <= vend then v2f else At(es, v)
  {
    hide Splice;
    SpliceIsSorted(es, itr, tail, vbase, vend, v2f);
    SpliceLength(es, itr, tail, vbase, vend, v2f);
    var ns := Splice(es, itr, tail, vbase, vend, v2f);
    var k := Index(es, v);
    var n := if v < vbase then k else if v <= vend then itr else itr + 1 + (k - tail);
    assert v < vbase ==> k < itr;
    assert v > vend ==> tail <= k;
    SpliceEntries(es, itr, tail, vbase, vend, v2f, n);
    if n + 1 < |ns| {
      SpliceEntries(es, itr, tail, vbase, vend, v2f, n + 1);
    }
    IndexUnique(ns, n, v);
  }

  lemma SpliceLength(es: seq<Entry>, itr: nat, tail: nat, vbase: u64, vend: u64, v2f: u64)
    requires itr <= |es| && tail <= |es| && (tail < |es| ==> vend < TWO_64 - 1)
    ensures |Splice(es, itr, tail, vbase, vend, v2f)| == itr + 1 + |es| - tail
  {
  }

  lemma SpliceIsCanonical(es: seq<Entry>, itr: nat, tail: nat, vbase: u64, vend: u64, v2f: u64)
    requires Spliceable(es, itr, tail, vbase, vend) && Canonical(es)
    requires itr > 0 ==> es[itr - 1].v2f != v2f
    requires tail < |es| ==> es[tail].v2f != v2f
    ensures tail < |es| ==> vend < TWO_64 - 1
    ensures Canonical(Splice(es, itr, tail, vbase, vend, v2f))
  {
    SpliceIsSorted(es, itr, tail, vbase, vend, v2f);
    var ns := Splice(es, itr, tail, vbase, vend, v2f);
    forall i | 0 < i < |ns|
      ensures Differs(ns, i)
    {
      if i < itr {
        assert Differs(es, i);
      } else if i > itr + 1 {
        assert Differs(es, tail + (i - itr - 1));
      }
    }
  }

  // Setting a range overrides the map there and nowhere else.
  ghost predicate Overrides(es: seq<Entry>, now: seq<Entry>, vbase: u64, size: nat, v2f: u64) {
    Sorted(es) && Sorted(now) &&
    forall v: u64 :: At(now, v) == if vbase <= v < vbase + size then v2f else At(es, v)
  }

  // Entry `itr` is the first to be replaced; from `from` on the map already has the value.
  ghost predicate FrontTrimmed(es: seq<Entry>, itr: nat, from: u64, vbase: u64, v2f: u64) {
    && Sorted(es) && itr <= |es| && from <= vbase && from <= Base(es, itr)
    && (if itr == 0 then from == 0 else es[itr - 1].vbase < from)
    && (forall v: u64 :: from <= v < vbase ==> At(es, v) == v2f)
    && (Canonical(es) && itr > 0 ==> es[itr - 1].v2f != v2f)
  }

  ghost predicate BackTrimmed(es: seq<Entry>, tail: nat, to: u64, vend: u64, v2f: u64) {
    && Sorted(es) && tail <= |es| && vend <= to
    && (if tail < |es| then es[tail].vbase <= to + 1 < Base(es, tail + 1) else to == TWO_64 - 1)
    && (forall v: u64 :: vend < v <= to ==> At(es, v) == v2f)
    && (Canonical(es) && tail < |es| ==> es[tail].v2f != v2f)
  }

  lemma TrimmedFront(es: seq<Entry>, i: nat, vbase: u64, v2f: u64)
    requires Sorted(es) && Contains(es, i, vbase)
    ensures var k := if es[i].vbase != vbase then i + 1 else i;
            if vbase != 0 && es[k - 1].v2f == v2f then FrontTrimmed(es, k - 1, es[k - 1].vbase, vbase, v2f)
            else FrontTrimmed(es, k, vbase, vbase, v2f)
  {
    var k := if es[i].vbase != vbase then i + 1 else i;
    if vbase != 0 && es[k - 1].v2f == v2f {
      forall v: u64 | es[k - 1].vbase <= v < vbase
        ensures At(es, v) == v2f
      {
        IndexUnique(es, k - 1, v);
      }
      assert Canonical(es) && k > 1 ==> Differs(es, k - 1);
    }
  }

  lemma TrimmedBack(es: seq<Entry>, i: nat, vend: u64, v2f: u64)
    requires Sorted(es) && Contains(es, i, vend)
    ensures var k := if Base(es, i + 1) - 1 == vend then i + 1 else i;
            if k < |es| && es[k].v2f == v2f then BackTrimmed(es, k + 1, Base(es, k + 1) - 1, vend, v2f)
            else BackTrimmed(es, k, vend, vend, v2f)
  {
    var k := if Base(es, i + 1) - 1 == vend then i + 1 else i;
    if k < |es| && es[k].v2f == v2f {
      forall v: u64 | vend < v < Base(es, k + 1)
        ensures At(es, v) == v2f
      {
        IndexUnique(es, k, v);
      }
      assert Canonical(es) && k + 1 < |es| ==> Differs(es, k + 1);
    }
  }

  lemma TrimmedIsSpliceable(es: seq<Entry>, itr: nat, tail: nat, from: u64, to: u64, vbase: u64, vend: u64, v2f: u64)
    requires FrontTrimmed(es, itr, from, vbase, v2f) && BackTrimmed(es, tail, to, vend, v2f) && vbase <= vend
    ensures Spliceable(es, itr, tail, from, to)
  {
  }

  lemma SpliceOverrides(es: seq<Entry>, itr: nat, tail: nat, from: u64, to: u64, vbase: u64, vend: u64, v2f: u64)
    requires FrontTrimmed(es, itr, from, vbase, v2f) && BackTrimmed(es, tail, to, vend, v2f) && vbase <= vend
    ensures tail < |es| ==> to < TWO_64 - 1
    ensures Overrides(es, Splice(es, itr, tail, from, to, v2f), vbase, vend - vbase + 1, v2f)
    ensures Canonical(es) ==> Canonical(Splice(es, itr, tail, from, to, v2f))
  {
    TrimmedIsSpliceable(es, itr, tail, from, to, vbase, vend, v2f);
    SpliceIsSorted(es, itr, tail, from, to, v2f);
    forall v: u64
      ensures At(Splice(es, itr, tail, from, to, v2f), v) == if vbase <= v <= vend then v2f else At(es, v)
    {
      SpliceAt(es, itr, tail, from, to, v2f, v);
    }
    if Canonical(es) {
      SpliceIsCanonical(es, itr, tail, from, to, v2f);
    }
  }

  // ---------- The array with its cursor ----------

  // `x - 1` and `x + 1` on addresses, wrapping: the sentinel's base 0 stands for 2^64.
  function Dec(x: u64): u64 {
    if x == 0 then TWO_64 - 1 else x - 1
  }

  function Inc(x: u64): u64 {
    if x == TWO_64 - 1 then 0 else x + 1
  }

  class V2fMap {
    var entries: array<Entry>
    var count: nat
    var cached: nat

    ghost predicate Valid()
      reads this, entries
    {
      && 0 < count < entries.Length
      && cached < count
      && 4 <= entries.Length
      && Sorted(entries[..count])
      && entries[count].vbase == 0
    }

    ghost function Contents(): (es: seq<Entry>)
      reads this, entries
      requires Valid()
      ensures Sorted(es)
    {
      entries[..count]
    }

    constructor (initial: u64)
      ensures Valid() && Contents() == [Entry(0, initial)] && fresh(entries)
    {
      entries := new Entry[4](_ => Entry(0, initial));
      count := 1;
      cached := 0;
    }

    // The sentinel's base, less one, is the last address of all.
    lemma SentinelIsTop(i: nat)
      requires Valid() && i < count
      ensures Dec(entries[i + 1].vbase) == Base(Contents(), i + 1) - 1
    {
      assert i + 1 < count ==> entries[i].vbase < entries[i + 1].vbase;
    }

    // `entries[i + 1].vbase - 1`: the last address of entry `i`.
    method EndOf(i: nat) returns (last: u64)
      requires Valid() && i < count
      ensures last == Base(Contents(), i + 1) - 1
    {
      SentinelIsTop(i);
      last := Dec(entries[i + 1].vbase);
    }

    method Lookup(v: u64) returns (i: nat)
      requires Valid()
      modifies this`cached
      ensures Valid() && cached == i && Contents() == old(Contents())
      ensures Contains(Contents(), i, v) && entries[i].v2f == At(Contents(), v)
    {
      hide At, Sorted;
      StartsAtZero(Contents());
      i := cached;
      BaseBelowNext(Contents(), i);
      if v >= entries[i].vbase {
        var last := EndOf(i);
        while v > last
          invariant Valid() && cached == old(cached)
          invariant i < count && entries[i].vbase <= v && last == Base(Contents(), i + 1) - 1
          decreases count - i
        {
          assert Base(Contents(), i + 1) <= v;
          i := i + 1;
          last := EndOf(i);
        }
      } else {
        while v < entries[i].vbase
          invariant Valid() && cached == old(cached)
          invariant i < count && v < Base(Contents(), i + 1)
          decreases i
        {
          i := i - 1;
        }
      }
      cached := i;
      AtIs(Contents(), i, v);
    }

    // Doubles the array when two more entries might not fit.
    method EnsureRoom()
      requires Valid()
      modifies this
      ensures Valid() && count + 2 < entries.Length
      ensures Contents() == old(Contents())
      ensures entries == old(entries) || fresh(entries)
    {
      hide Sorted;
      if count + 2 >= entries.Length {
        var bigger := new Entry[entries.Length * 2](_ => Entry(0, 0));
        forall k | 0 <= k < entries.Length {
          bigger[k] := entries[k];
        }
        ghost var es := Contents();
        assert bigger[..count] == es;
        assert bigger[count] == entries[count];
        entries := bigger;
        cached := 0;
        assert entries[..count] == es;
      }
    }

    // The entries in which the range starts and ends.
    method Locate(vbase: u64, vend: u64) returns (itr: nat, tail: nat)
      requires Valid() && vbase <= vend
      ensures itr <= tail
      ensures Contains(Contents(), itr, vbase) && Contains(Contents(), tail, vend)
    {
      ghost var es := Contents();
      tail := count - 1;
      while vend < entries[tail].vbase
        invariant tail < count && vend < Base(es, tail + 1)
      {
        tail := tail - 1;
      }
      itr := tail;
      while vbase < entries[itr].vbase
        invariant itr <= tail && vbase < Base(es, itr + 1)
      {
        itr := itr - 1;
      }
    }

    // Drops what becomes redundant in front of the range.
    method TrimFront(i: nat, vbase: u64, v2f: u64) returns (itr: nat, from: u64)
      requires Valid() && Contains(Contents(), i, vbase)
      ensures i <= itr + 1 && itr <= i + 1
      ensures FrontTrimmed(Contents(), itr, from, vbase, v2f)
    {
      itr, from := i, vbase;
      if entries[itr].vbase != vbase {
        itr := itr + 1;
      }
      if from != 0 && entries[itr - 1].v2f == v2f {
        from := entries[itr - 1].vbase;
        itr := itr - 1;
      }
      TrimmedFront(Contents(), i, vbase, v2f);
    }

    // Drops what becomes redundant behind the range.
    method TrimBack(i: nat, vend: u64, v2f: u64) returns (tail: nat, to: u64)
      requires Valid() && Contains(Contents(), i, vend)
      ensures i <= tail
      ensures BackTrimmed(Contents(), tail, to, vend, v2f)
    {
      hide BackTrimmed, Canonical;
      tail, to := i, vend;
      var last := EndOf(i);
      if last == vend {
        tail := tail + 1;
      }
      if tail < count && entries[tail].v2f == v2f {
        to := EndOf(tail);
        tail := tail + 1;
      }
      TrimmedBack(Contents(), i, vend, v2f);
    }

    // Sets the map to `v2f` on [vbase, vbase + size).
    method SetRange(vbase: u64, size: u64, v2f: u64)
      requires Valid() && vbase + size <= TWO_64
      modifies this, entries
      ensures Valid()
      ensures entries == old(entries) || fresh(entries)
      ensures Overrides(old(Contents()), Contents(), vbase, size, v2f)
      ensures old(Canonical(Contents())) ==> Canonical(Contents())
    {
      if size == 0 {
        return;
      }
      EnsureRoom();
      ghost var es := Contents();
      var vend := vbase + size - 1;
      var i, j := Locate(vbase, vend);
      var itr, from := TrimFront(i, vbase, v2f);
      var tail, to := TrimBack(j, vend, v2f);
      TrimmedIsSpliceable(es, itr, tail, from, to, vbase, vend, v2f);
      SpliceOverrides(es, itr, tail, from, to, vbase, vend, v2f);
      Replace(itr, tail, from, to, v2f);
    }

    // Moves the entries from `tail` on, sentinel included, to behind `itr`.
    method MakeSpace(itr: nat, tail: nat)
      requires count + 2 < entries.Length && itr <= tail + 1 && itr <= count && tail <= count && cached < count
      modifies this`count, this`cached, entries
      ensures count == itr + 1 + (old(count) - tail) && cached < count < entries.Length
      ensures Opened(old(entries[..count + 1]), entries[..count + 1], itr, tail)
    {
      ghost var raw := entries[..count + 1];
      if itr + 1 != tail {
        var n := count + 1 - tail;
        forall k | 0 <= k < n {
          entries[itr + 1 + k] := entries[tail + k];
        }
        count := itr + n;
        cached := itr;
      }
      assert entries[..count + 1][..itr] == raw[..itr];
      assert entries[..count + 1][itr + 1..] == raw[tail..];
    }

    method Insert(itr: nat, from: u64, to: u64, v2f: u64)
      requires itr < count < entries.Length
      modifies entries
      ensures entries[..count + 1] == Inserted(old(entries[..count + 1]), itr, from, to, v2f)
    {
      ghost var moved := entries[..count + 1];
      entries[itr] := Entry(from, v2f);
      entries[itr + 1] := Entry(Inc(to), entries[itr + 1].v2f);
      assert entries[..count + 1] == Inserted(moved, itr, from, to, v2f);
    }

    // Makes space for the new record and inserts it.
    method Replace(itr: nat, tail: nat, from: u64, to: u64, v2f: u64)
      requires Valid() && count + 2 < entries.Length && itr <= tail + 1
      requires Spliceable(Contents(), itr, tail, from, to)
      modifies this, entries
      ensures Valid() && entries == old(entries)
      ensures tail < old(count) ==> to < TWO_64 - 1
      ensures Contents() == Splice(old(Contents()), itr, tail, from, to, v2f)
    {
      hide Sorted, Spliceable, Opened, Inserted, Splice;
      ghost var es := Contents();
      ghost var raw := entries[..count + 1];
      SpliceBounds(es, itr, tail, from, to);
      assert raw[..|es|] == es;
      MakeSpace(itr, tail);
      ghost var moved := entries[..count + 1];
      Insert(itr, from, to, v2f);
      SpliceOfRaw(es, raw, moved, itr, tail, from, to, v2f);
      assert entries[..count] == entries[..count + 1][..count];
    }
  }

  ghost predicate Opened(raw: seq<Entry>, moved: seq<Entry>, itr: nat, tail: nat) {
    && itr <= |raw| && tail <= |raw|
    && |moved| == itr + 1 + (|raw| - tail)
    && moved[..itr] == raw[..itr]
    && moved[itr + 1..] == raw[tail..]
  }

  function Inserted(moved: seq<Entry>, itr: nat, from: u64, to: u64, v2f: u64): (now: seq<Entry>)
    requires itr + 1 < |moved|
    ensures |now| == |moved|
  {
    moved[itr := Entry(from, v2f)][itr + 1 := Entry(Inc(to), moved[itr + 1].v2f)]
  }

  lemma SpliceBounds(es: seq<Entry>, itr: nat, tail: nat, from: u64, to: u64)
    requires Spliceable(es, itr, tail, from, to)
    ensures itr <= |es| && tail <= |es| && (tail < |es| ==> to < TWO_64 - 1)
  {
  }

  // The entries with their sentinel, after the move and after the insertion.
  lemma SpliceOfRaw(es: seq<Entry>, raw: seq<Entry>, moved: seq<Entry>, itr: nat, tail: nat, from: u64, to: u64,
                    v2f: u64)
    requires Spliceable(es, itr, tail, from, to) && itr <= tail + 1
    requires |raw| == |es| + 1 && raw[..|es|] == es && raw[|es|].vbase == 0
    requires Opened(raw, moved, itr, tail) && itr + 1 < |moved|
    ensures var now := Inserted(moved, itr, from, to, v2f);
            && (tail < |es| ==> to < TWO_64 - 1)
            && now[..|now| - 1] == Splice(es, itr, tail, from, to, v2f)
            && now[|now| - 1].vbase == 0
            && Sorted(now[..|now| - 1])
  {
    SpliceIsSorted(es, itr, tail, from, to, v2f);
    hide Sorted, Spliceable;
    var now := Inserted(moved, itr, from, to, v2f);
    var ns := Splice(es, itr, tail, from, to, v2f);
    SpliceBounds(es, itr, tail, from, to);
    assert forall k :: 0 <= k < |es| ==> raw[k] == raw[..|es|][k];
    forall k | 0 <= k < |now| - 1
      ensures now[k] == ns[k]
    {
      if k < itr {
        assert moved[k] == moved[..itr][k] == raw[..itr][k];
      } else if k > itr {
        assert moved[k] == moved[itr + 1..][k - itr - 1] == raw[tail..][k - itr - 1];
      }
    }
    assert moved[|now| - 1] == moved[itr + 1..][|es| - tail] == raw[tail..][|es| - tail];
  }
}

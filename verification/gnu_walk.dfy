// Counting the symbols of a GNU hash table by walking it through the address map, entry by entry.
module GnuWalk {
  import opened Words
  import opened AddressMap
  import opened FileView
  import GnuHash

  // ---------- Words as the map shows them ----------

  // The map leads nowhere outside of the file.
  ghost predicate Complete(es: seq<Entry>, f: seq<u8>) {
    Sorted(es) && |f| < TWO_64 && forall v: u64 :: InFile(es, f, v)
  }

  ghost function WordAt(es: seq<Entry>, f: seq<u8>, v: nat): u32
    requires Complete(es, f) && v + 4 <= TWO_64
  {
    FromLe32(View(es, f, v, 4))
  }

  // The stretch of `n` words from `v` on ends before the last entry, and no word of it lies in two.
  // Of the last entry the walk has no end: the sentinel's base is 0.
  ghost predicate Walkable(es: seq<Entry>, v: nat, n: nat) {
    && Sorted(es) && v + 4 * n <= es[|es| - 1].vbase
    && forall i :: 0 <= i < |es| && v < es[i].vbase < v + 4 * n ==> (es[i].vbase - v) % 4 == 0
  }

  lemma StandsFacts(es: seq<Entry>, v0: nat, n: nat, k: nat, e: nat)
    requires StandsIn(es, v0, n, k, e)
    ensures Sorted(es) && v0 + 4 * n < TWO_64 && k < n && e + 1 < |es| && v0 + 4 * k < es[e + 1].vbase
  {
  }

  lemma StretchOfEntry(es: seq<Entry>, f: seq<u8>, e: nat, v: nat)
    requires Complete(es, f) && e < |es| && es[e].vbase <= v && v + 4 <= Base(es, e + 1)
    ensures v < TWO_64 && At(es, v) == es[e].v2f
    ensures Special(es[e].v2f) ==> WordAt(es, f, v) == 0
    ensures !Special(es[e].v2f) ==>
              var o := Offset(es[e].v2f, v); o + 4 <= |f| && WordAt(es, f, v) == FromLe32(f[o..o + 4])
  {
    hide View, Offset;
    IndexUnique(es, e, v);
    StretchIsView(es, f, e, v, 4);
  }

  // ---------- The largest bucket ----------

  ghost function BucketsSeen(es: seq<Entry>, f: seq<u8>, v: nat, n: nat): (s: seq<nat>)
    requires Complete(es, f) && v + 4 * n <= TWO_64
    ensures |s| == n && forall b :: 0 <= b < n ==> s[b] == WordAt(es, f, v + 4 * b)
  {
    seq(n, b requires 0 <= b < n => WordAt(es, f, v + 4 * b))
  }

  // Where the walk stands: in front of word `k`, in entry `e`.
  ghost predicate StandsIn(es: seq<Entry>, v0: nat, n: nat, k: nat, e: nat) {
    Walkable(es, v0, n) && k < n && e + 1 < |es| && es[e].vbase <= v0 + 4 * k < es[e + 1].vbase
  }

  // The words up to the end of the entry are whole, and behind them the next entry starts.
  lemma EntryEnds(es: seq<Entry>, v0: nat, n: nat, k: nat, e: nat)
    requires StandsIn(es, v0, n, k, e)
    ensures var next := es[e + 1].vbase;
            && (next < v0 + 4 * n ==> (next - v0) % 4 == 0 && StandsIn(es, v0, n, (next - v0) / 4, e + 1))
            && forall j :: k <= j < n && v0 + 4 * j < next ==> v0 + 4 * j + 4 <= next
  {
    assert es[e + 1].vbase <= es[|es| - 1].vbase;
  }

  // The word that the next entry starts with, or the end of the stretch.
  function NextWord(v0: nat, n: nat, next: u64): nat {
    if v0 <= next < v0 + 4 * n then (next - v0) / 4 else n
  }

  lemma NextStands(es: seq<Entry>, v0: nat, n: nat, k: nat, e: nat)
    requires StandsIn(es, v0, n, k, e)
    ensures var next := es[e + 1].vbase;
            var k' := NextWord(v0, n, next);
            && k < k' <= n && v0 + 4 * k' <= next
            && (if next < v0 + 4 * n then next == v0 + 4 * k' && StandsIn(es, v0, n, k', e + 1) else k' == n)
            && ((if next > v0 + 4 * n then v0 + 4 * n else next) - (v0 + 4 * k)) / 4 == k' - k
  {
    hide StandsIn;
    StandsFacts(es, v0, n, k, e);
    EntryEnds(es, v0, n, k, e);
  }

  lemma FirstEntry(es: seq<Entry>, v0: nat, n: nat, e: nat)
    requires Walkable(es, v0, n) && n > 0 && v0 < TWO_64 && Contains(es, e, v0)
    ensures StandsIn(es, v0, n, 0, e)
  {
    assert e < |es| - 1;
  }

  lemma {:induction false} MaxOfZeros(s: seq<nat>, k: nat, n: nat)
    requires k <= n <= |s| && forall i :: k <= i < n ==> s[i] == 0
    ensures GnuHash.MaxOf(s, n) == GnuHash.MaxOf(s, k)
    decreases n
  {
    if k < n {
      MaxOfZeros(s, k, n - 1);
    }
  }

  // The words of an entry without file contents are zeros and can be left out.
  lemma ZerosLeftOut(es: seq<Entry>, f: seq<u8>, v0: nat, n: nat, k: nat, e: nat, k': nat)
    requires Complete(es, f) && v0 + 4 * n <= TWO_64 && StandsIn(es, v0, n, k, e) && Special(es[e].v2f)
    requires k <= k' <= n && v0 + 4 * k' <= es[e + 1].vbase
    ensures GnuHash.MaxOf(BucketsSeen(es, f, v0, n), k') == GnuHash.MaxOf(BucketsSeen(es, f, v0, n), k)
  {
    hide WordAt;
    forall b | k <= b < k'
      ensures BucketsSeen(es, f, v0, n)[b] == 0
    {
      StretchOfEntry(es, f, e, v0 + 4 * b);
    }
    MaxOfZeros(BucketsSeen(es, f, v0, n), k, k');
  }

  // The largest of the words of one entry, and of what was found before.
  method MaxOfEntry(f: seq<u8>, x: u64, v: nat, words: nat, max0: u32,
                    ghost es: seq<Entry>, ghost v0: nat, ghost n: nat, ghost k: nat, ghost e: nat)
    returns (max: u32)
    requires Complete(es, f) && v0 + 4 * n <= TWO_64 && StandsIn(es, v0, n, k, e) && v == v0 + 4 * k
    requires x == es[e].v2f && !Special(x) && k + words <= n && v + 4 * words <= es[e + 1].vbase
    requires max0 == GnuHash.MaxOf(BucketsSeen(es, f, v0, n), k)
    ensures max == GnuHash.MaxOf(BucketsSeen(es, f, v0, n), k + words)
  {
    hide WordAt, Offset, StandsIn, Complete, GnuHash.MaxOf, View;
    max := max0;
    for i := 0 to words
      invariant max == GnuHash.MaxOf(BucketsSeen(es, f, v0, n), k + i)
    {
      EntryWord(es, f, v0, n, k, e, i);
      var o := Offset(x, v + 4 * i);
      var word := FromLe32(f[o..o + 4]);
      MaxNext(BucketsSeen(es, f, v0, n), k + i);
      if word > max { max := word; }
    }
  }

  lemma MaxNext(s: seq<nat>, n: nat)
    requires n < |s|
    ensures GnuHash.MaxOf(s, n + 1) == if s[n] > GnuHash.MaxOf(s, n) then s[n] else GnuHash.MaxOf(s, n)
  {
  }

  lemma EntryWord(es: seq<Entry>, f: seq<u8>, v0: nat, n: nat, k: nat, e: nat, i: nat)
    requires Complete(es, f) && v0 + 4 * n <= TWO_64 && StandsIn(es, v0, n, k, e)
    requires k + i < n && v0 + 4 * (k + i) + 4 <= es[e + 1].vbase && !Special(es[e].v2f)
    ensures v0 + 4 * k + 4 * i < TWO_64
    ensures var o := Offset(es[e].v2f, v0 + 4 * k + 4 * i);
            o + 4 <= |f| && WordAt(es, f, v0 + 4 * (k + i)) == FromLe32(f[o..o + 4])
    ensures !Special(At(es, v0 + 4 * k + 4 * i))
  {
    hide WordAt, Offset;
    StretchOfEntry(es, f, e, v0 + 4 * k + 4 * i);
  }

  // The largest of `n` bucket words from `v0` on. Entries without file contents are passed over.
  method MaxBucket(m: V2fMap, f: seq<u8>, v0: u64, n: nat) returns (max: u32)
    requires m.Valid() && Complete(m.Contents(), f) && Walkable(m.Contents(), v0, n)
    modifies m`cached
    ensures m.Valid() && m.Contents() == old(m.Contents()) && v0 + 4 * n <= TWO_64
    ensures max == GnuHash.MaxOf(BucketsSeen(m.Contents(), f, v0, n), n)
  {
    hide WordAt, Offset, StandsIn, Complete, BucketsSeen, View, Walkable, GnuHash.MaxOf, At, Special, NextWord;
    ghost var es := m.Contents();
    WalkableFits(es, v0, n);
    max := 0;
    if n == 0 {
      return;
    }
    var e: nat := m.Lookup(v0);
    FirstEntry(es, v0, n, e);
    var v: nat := v0;
    ghost var k: nat := 0;
    while v < v0 + 4 * n
      invariant m.Valid() && m.Contents() == es
      invariant k <= n && (v < v0 + 4 * n ==> v == v0 + 4 * k && StandsIn(es, v0, n, k, e))
      invariant v >= v0 + 4 * n ==> k == n
      invariant max == GnuHash.MaxOf(BucketsSeen(es, f, v0, n), k)
      decreases |es| - e
    {
      NextStands(es, v0, n, k, e);
      InsideMap(m, es, v0, n, k, e);
      var x, next := m.entries[e].v2f, m.entries[e + 1].vbase;
      ghost var k' := NextWord(v0, n, next);
      if Special(x) {
        ZerosLeftOut(es, f, v0, n, k, e, k');
        v := next;
      } else {
        var end := if next > v0 + 4 * n then v0 + 4 * n else next;
        max := MaxOfEntry(f, x, v, (end - v) / 4, max, es, v0, n, k, e);
        v := end;
      }
      k, e := k', e + 1;
    }
  }

  lemma WalkableFits(es: seq<Entry>, v0: nat, n: nat)
    requires Walkable(es, v0, n)
    ensures v0 + 4 * n < TWO_64
  {
  }

  lemma InsideMap(m: V2fMap, es: seq<Entry>, v0: nat, n: nat, k: nat, e: nat)
    requires m.Valid() && m.Contents() == es && StandsIn(es, v0, n, k, e)
    ensures e + 1 < |es| == m.count < m.entries.Length && v0 + 4 * k < es[e + 1].vbase
    ensures m.entries[e] == es[e] && m.entries[e + 1] == es[e + 1]
  {
  }

  // ---------- The chain ----------

  // How many of the first `k` words from `v` on lie in entries without file contents.
  ghost function SpecialWords(es: seq<Entry>, v: nat, k: nat): (c: nat)
    requires Sorted(es) && v + 4 * k <= TWO_64
    ensures c <= k
  {
    if k == 0 then 0 else SpecialWords(es, v, k - 1) + if Special(At(es, v + 4 * (k - 1))) then 1 else 0
  }

  // What the walk has counted in front of word `k`: a special entry's words are subtracted.
  ghost function Tally(es: seq<Entry>, v: nat, start: u32, k: nat): u32
    requires Sorted(es) && v + 4 * k <= TWO_64
  {
    (start + k - 2 * SpecialWords(es, v, k)) % TWO_32
  }

  lemma {:induction false} AllSpecial(es: seq<Entry>, v: nat, k: nat, k': nat)
    requires Sorted(es) && k <= k' && v + 4 * k' <= TWO_64
    requires forall j :: k <= j < k' ==> Special(At(es, v + 4 * j))
    ensures SpecialWords(es, v, k') == SpecialWords(es, v, k) + (k' - k)
    decreases k'
  {
    hide At;
    if k < k' {
      AllSpecial(es, v, k, k' - 1);
    }
  }

  // The chain from `v` on ends with word `last`, the first odd one.
  ghost predicate EndsAt(es: seq<Entry>, f: seq<u8>, v: nat, last: nat)
    requires Complete(es, f) && v + 4 * (last + 1) <= TWO_64
  {
    && WordAt(es, f, v + 4 * last) % 2 == 1
    && forall j :: 0 <= j < last ==> WordAt(es, f, v + 4 * j) % 2 == 0
  }

  // `(v - e[1].vbase) / 4`, added to the count.
  function Skipped(n: u32, v: u64, next: u64): u32 {
    (n + (v as int - next) % TWO_64 / 4) % TWO_32
  }

  lemma SkippedIs(n: u32, v: u64, next: u64)
    requires v < next && (next - v) % 4 == 0
    ensures Skipped(n, v, next) == (n - (next - v) / 4) % TWO_32
  {
    var d, q := (next - v) / 4, TWO_64 / 4;
    assert next - v == 4 * d && (v as int - next) % TWO_64 == 4 * (q - d);
    assert q == 0x4000_0000 * TWO_32;
    Wrapped(n - d, 0x4000_0000);
  }

  lemma Wrapped(a: int, q: nat)
    ensures (a + q * TWO_32) % TWO_32 == a % TWO_32
  {
    var b, r := a / TWO_32, a % TWO_32;
    assert a == b * TWO_32 + r;
    QuotientIs(a + q * TWO_32, TWO_32, b + q, r);
  }

  lemma SpecialPassed(es: seq<Entry>, f: seq<u8>, v0: u64, start: u32, last: nat, k: nat, e: nat)
    requires Complete(es, f) && StandsIn(es, v0, last + 1, k, e) && Special(es[e].v2f) && EndsAt(es, f, v0, last)
    ensures var next := es[e + 1].vbase;
            && next < v0 + 4 * (last + 1) && (next - v0) % 4 == 0
            && StandsIn(es, v0, last + 1, (next - v0) / 4, e + 1)
            && Tally(es, v0, start, (next - v0) / 4) == Skipped(Tally(es, v0, start, k), v0 + 4 * k, next)
  {
    hide WordAt, At, Skipped;
    EntryEnds(es, v0, last + 1, k, e);
    var next := es[e + 1].vbase;
    if next > v0 + 4 * last {
      StretchOfEntry(es, f, e, v0 + 4 * last);
    } else {
      var k' := (next - v0) / 4;
      forall j | k <= j < k'
        ensures Special(At(es, v0 + 4 * j))
      {
        StretchOfEntry(es, f, e, v0 + 4 * j);
      }
      AllSpecial(es, v0, k, k');
      SkippedIs(Tally(es, v0, start, k), v0 + 4 * k, next);
      var t := start + k - 2 * SpecialWords(es, v0, k);
      var b := t / TWO_32;
      assert t == b * TWO_32 + t % TWO_32;
      ModShift(t, k' - k);
    }
  }

  lemma ModShift(t: int, d: int)
    ensures (t % TWO_32 - d) % TWO_32 == (t - d) % TWO_32
    ensures (t % TWO_32 + 1) % TWO_32 == (t + 1) % TWO_32
  {
  }

  // Counts the words of one entry with file contents, up to the first odd one.
  method CountEntry(f: seq<u8>, x: u64, v: nat, next: u64, n0: u32, ghost es: seq<Entry>, ghost v0: nat,
                    ghost start: u32, ghost last: nat, ghost k: nat, ghost e: nat)
    returns (done: bool, n: u32)
    requires Complete(es, f) && StandsIn(es, v0, last + 1, k, e) && EndsAt(es, f, v0, last)
    requires v == v0 + 4 * k && x == es[e].v2f && next == es[e + 1].vbase && !Special(x)
    requires n0 == Tally(es, v0, start, k)
    ensures done ==> n == Tally(es, v0, start, last + 1)
    ensures !done ==>
              && next < v0 + 4 * (last + 1) && (next - v0) % 4 == 0
              && n == Tally(es, v0, start, (next - v0) / 4) && StandsIn(es, v0, last + 1, (next - v0) / 4, e + 1)
  {
    hide WordAt, Offset, StandsIn, Complete, EndsAt, Tally, Walkable;
    n := n0;
    var w := v;
    ghost var i: nat := 0;
    StandsFacts(es, v0, last + 1, k, e);
    while w < next
      invariant w == v + 4 * i && k + i <= last && w <= next && n == Tally(es, v0, start, k + i)
      decreases next - w
    {
      EntryEndsAgain(es, f, v0, last, k, e, i);
      EntryWord(es, f, v0, last + 1, k, e, i);
      var o := Offset(x, w);
      var word := FromLe32(f[o..o + 4]);
      CountedOne(es, f, v0, start, last, k + i);
      n := (n + 1) % TWO_32;
      i := i + 1;
      if word % 2 == 1 {
        return true, n;
      }
      w := w + 4;
    }
    done := false;
    StandsNext(es, v0, last + 1, k, e);
  }

  lemma EntryEndsAgain(es: seq<Entry>, f: seq<u8>, v0: nat, last: nat, k: nat, e: nat, i: nat)
    requires StandsIn(es, v0, last + 1, k, e) && k + i <= last && v0 + 4 * (k + i) < es[e + 1].vbase
    ensures v0 + 4 * (last + 1) <= TWO_64 && v0 + 4 * (k + i) + 4 <= es[e + 1].vbase
  {
    EntryEnds(es, v0, last + 1, k, e);
    WalkableFits(es, v0, last + 1);
  }

  lemma CountedOne(es: seq<Entry>, f: seq<u8>, v0: nat, start: u32, last: nat, j: nat)
    requires Complete(es, f) && v0 + 4 * (last + 1) <= TWO_64 && EndsAt(es, f, v0, last) && j <= last
    requires !Special(At(es, v0 + 4 * j))
    ensures (Tally(es, v0, start, j) + 1) % TWO_32 == Tally(es, v0, start, j + 1)
    ensures WordAt(es, f, v0 + 4 * j) % 2 == 1 <==> j == last
  {
    hide WordAt, At;
    ModShift(start + j - 2 * SpecialWords(es, v0, j), 0);
  }

  lemma StandsNext(es: seq<Entry>, v0: nat, n: nat, k: nat, e: nat)
    requires StandsIn(es, v0, n, k, e) && es[e + 1].vbase < v0 + 4 * n
    ensures (es[e + 1].vbase - v0) % 4 == 0 && StandsIn(es, v0, n, (es[e + 1].vbase - v0) / 4, e + 1)
  {
    EntryEnds(es, v0, n, k, e);
  }

  // Walks the chain from `v0` on to its end.
  method WalkChain(m: V2fMap, f: seq<u8>, v0: u64, start: u32, ghost last: nat) returns (n: u32)
    requires m.Valid() && Complete(m.Contents(), f) && Walkable(m.Contents(), v0, last + 1)
    requires v0 + 4 * (last + 1) <= TWO_64 && EndsAt(m.Contents(), f, v0, last)
    modifies m`cached
    ensures m.Valid() && m.Contents() == old(m.Contents())
    ensures n == Tally(m.Contents(), v0, start, last + 1)
  {
    hide WordAt, StandsIn, Complete, EndsAt, Tally, Walkable, Skipped;
    ghost var es := m.Contents();
    var e: nat := m.Lookup(v0);
    FirstEntry(es, v0, last + 1, e);
    var v: u64 := v0;
    ghost var k: nat := 0;
    n := start;
    NothingTallied(es, v0, start);
    while true
      invariant m.Valid() && m.Contents() == es && v == v0 + 4 * k && k <= last
      invariant StandsIn(es, v0, last + 1, k, e) && n == Tally(es, v0, start, k)
      decreases |es| - e
    {
      InsideMap(m, es, v0, last + 1, k, e);
      var x, next := m.entries[e].v2f, m.entries[e + 1].vbase;
      if Special(x) {
        SpecialPassed(es, f, v0, start, last, k, e);
        n := Skipped(n, v, next);
      } else {
        var done;
        done, n := CountEntry(f, x, v, next, n, es, v0, start, last, k, e);
        if done {
          return;
        }
      }
      v, k, e := next, (next - v0) / 4, e + 1;
    }
  }

  lemma NothingTallied(es: seq<Entry>, v0: u64, start: u32)
    requires Sorted(es)
    ensures Tally(es, v0, start, 0) == start
  {
  }

  // The count is right if and only if none of the chain lies in an entry without file contents.
  lemma TallyExactly(es: seq<Entry>, v: nat, start: u32, k: nat)
    requires Sorted(es) && v + 4 * k <= TWO_64 && start + k < TWO_32 && k < 0x8000_0000
    ensures Tally(es, v, start, k) == start + k <==> SpecialWords(es, v, k) == 0
  {
    var c := SpecialWords(es, v, k);
    if start + k - 2 * c < 0 {
      assert (start + k - 2 * c) % TWO_32 == start + k - 2 * c + TWO_32;
    }
  }

  // A chain of three words of which the middle one has no file contents: it counts as one.
  lemma MiddleMiscounts(start: u32) returns (es: seq<Entry>, f: seq<u8>)
    requires start + 3 < TWO_32
    ensures Complete(es, f) && Walkable(es, 0, 3) && EndsAt(es, f, 0, 2)
    ensures Tally(es, 0, start, 3) == start + 1
  {
    hide View;
    es := [Entry(0, 0), Entry(4, V2F_ZEROFILL), Entry(8, 0), Entry(12, V2F_UNMAPPED)];
    f := [2, 0, 0, 0, 2, 0, 0, 0, 1, 0, 0, 0];
    forall v: u64
      ensures At(es, v) == if v < 4 then 0 else if v < 8 then V2F_ZEROFILL else if v < 12 then 0 else V2F_UNMAPPED
    {
      IndexUnique(es, if v < 4 then 0 else if v < 8 then 1 else if v < 12 then 2 else 3, v);
    }
    StretchOfEntry(es, f, 0, 0);
    StretchOfEntry(es, f, 1, 4);
    StretchOfEntry(es, f, 2, 8);
    assert SpecialWords(es, 0, 1) == 0 && SpecialWords(es, 0, 2) == 1;
  }

  // ---------- The number of symbols ----------

  // The map shows the table: its buckets from `v` on, then its chains.
  ghost predicate Shows(es: seq<Entry>, f: seq<u8>, v: nat, t: GnuHash.GnuTable)
    requires Complete(es, f)
  {
    && v + 4 * (|t.buckets| + |t.chains|) <= TWO_64
    && t.buckets == BucketsSeen(es, f, v, |t.buckets|)
    && forall i :: 0 <= i < |t.chains| ==> t.chains[i] == WordAt(es, f, v + 4 * |t.buckets| + 4 * i)
  }

  // Where the chain that starts last starts, if there is one.
  function ChainStart(v: nat, t: GnuHash.GnuTable): int {
    v + 4 * |t.buckets| + 4 * (GnuHash.MaxOf(t.buckets, |t.buckets|) - t.symOffset)
  }

  // Both parts of the table that are walked can be walked.
  ghost predicate WalkableTable(es: seq<Entry>, v: nat, t: GnuHash.GnuTable, count: nat) {
    && Walkable(es, v, |t.buckets|)
    && var max := GnuHash.MaxOf(t.buckets, |t.buckets|);
       max > 0 ==> t.symOffset <= max < count && Walkable(es, ChainStart(v, t), count - max)
  }

  // `count` is what the table says; the chains have fewer than 2^30 words.
  method SymbolCount(m: V2fMap, f: seq<u8>, v: u64, nBucket: nat, symOffset: nat,
                     ghost t: GnuHash.GnuTable, ghost count: nat)
    returns (n: u32)
    requires m.Valid() && Complete(m.Contents(), f) && Shows(m.Contents(), f, v, t)
    requires nBucket == |t.buckets| && symOffset == t.symOffset && |t.chains| < 0x4000_0000
    requires GnuHash.IsCount(t, count) && count < TWO_32 && WalkableTable(m.Contents(), v, t, count)
    modifies m`cached
    ensures m.Valid() && m.Contents() == old(m.Contents())
    ensures var max := GnuHash.MaxOf(t.buckets, |t.buckets|);
            if max == 0 then n == count == 0
            else
              && max < count && Sorted(m.Contents())
              && 0 <= ChainStart(v, t) && ChainStart(v, t) + 4 * (count - max) <= TWO_64
              && (n == count <==> SpecialWords(m.Contents(), ChainStart(v, t), count - max) == 0)
  {
    hide WordAt, Complete, Shows, Walkable, BucketsSeen, EndsAt, GnuHash.MaxOf, Tally, SpecialWords;
    ghost var es := m.Contents();
    TableSeen(es, f, v, t, count);
    var max := MaxBucket(m, f, v, nBucket);
    if max == 0 {
      return 0;
    }
    var start := v + 4 * nBucket + (max - symOffset) * 4 % TWO_32;
    ghost var last := count - max - 1;
    ChainSeen(es, f, v, t, count);
    n := WalkChain(m, f, start, max, last);
    TallyExactly(es, start, max, count - max);
  }

  lemma TableSeen(es: seq<Entry>, f: seq<u8>, v: nat, t: GnuHash.GnuTable, count: nat)
    requires Complete(es, f) && Shows(es, f, v, t) && GnuHash.IsCount(t, count)
    ensures v + 4 * |t.buckets| <= TWO_64 && t.buckets == BucketsSeen(es, f, v, |t.buckets|)
    ensures GnuHash.MaxOf(t.buckets, |t.buckets|) == 0 ==> count == 0
    ensures Sorted(es)
  {
    hide WordAt;
  }

  lemma ChainSeen(es: seq<Entry>, f: seq<u8>, v: u64, t: GnuHash.GnuTable, count: nat)
    requires Complete(es, f) && Shows(es, f, v, t) && |t.chains| < 0x4000_0000
    requires GnuHash.IsCount(t, count) && GnuHash.MaxOf(t.buckets, |t.buckets|) > 0 && WalkableTable(es, v, t, count)
    ensures var max := GnuHash.MaxOf(t.buckets, |t.buckets|);
            && t.symOffset <= max < count && (max - t.symOffset) * 4 < TWO_32 && count - max <= |t.chains|
            && 0 <= ChainStart(v, t) && ChainStart(v, t) + 4 * (count - max) < TWO_64
            && Walkable(es, ChainStart(v, t), count - max) && EndsAt(es, f, ChainStart(v, t), count - max - 1)
  {
    hide WordAt, BucketsSeen, GnuHash.MaxOf;
    var max := GnuHash.MaxOf(t.buckets, |t.buckets|);
    WalkableFits(es, ChainStart(v, t), count - max);
    forall j | 0 <= j < count - max
      ensures WordAt(es, f, ChainStart(v, t) + 4 * j) == GnuHash.Chain(t, max + j)
    {
      assert t.chains[max + j - t.symOffset] == WordAt(es, f, v + 4 * |t.buckets| + 4 * (max + j - t.symOffset));
    }
  }
}

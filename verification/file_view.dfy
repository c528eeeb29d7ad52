// Reading file contents by virtual address.
module FileView {
  import opened Words
  import opened AddressMap

  // The file offset of `v` under the map value `x`: their sum, wrapping.
  function Offset(x: u64, v: u64): u64 {
    (x + v) % TWO_64
  }

  ghost predicate InFile(es: seq<Entry>, f: seq<u8>, v: u64)
    requires Sorted(es)
  {
    !Special(At(es, v)) ==> Offset(At(es, v), v) < |f|
  }

  // The byte that is seen at `v`.
  ghost function ByteAt(es: seq<Entry>, f: seq<u8>, v: u64): u8
    requires Sorted(es) && InFile(es, f, v)
  {
    if Special(At(es, v)) then 0 else f[Offset(At(es, v), v)]
  }

  ghost predicate AllInFile(es: seq<Entry>, f: seq<u8>, vbase: nat, len: nat)
    requires Sorted(es) && vbase + len <= TWO_64
  {
    forall v :: vbase <= v < vbase + len ==> InFile(es, f, v)
  }

  // Offsets within one entry follow each other without wrapping, as the file ends before 2^64.
  lemma {:induction false} OffsetsRunOn(es: seq<Entry>, f: seq<u8>, i: nat, v: u64, k: nat)
    requires Sorted(es) && i < |es| && es[i].vbase <= v && v + k < Base(es, i + 1)
    requires !Special(es[i].v2f) && |f| < TWO_64
    requires AllInFile(es, f, v, k + 1)
    ensures Offset(es[i].v2f, v + k) == Offset(es[i].v2f, v) + k < |f|
  {
    IndexUnique(es, i, v + k);
    assert InFile(es, f, v + k);
    if k > 0 {
      OffsetsRunOn(es, f, i, v, k - 1);
      var s := es[i].v2f + v + k - 1;
      QuotientIs(s + 1, TWO_64, s / TWO_64, s % TWO_64 + 1);
    }
  }

  // The bytes that are seen in [v, v + n).
  ghost function View(es: seq<Entry>, f: seq<u8>, v: nat, n: nat): (b: seq<u8>)
    requires Sorted(es) && v + n <= TWO_64 && AllInFile(es, f, v, n)
    ensures |b| == n
  {
    seq<u8>(n, k requires 0 <= k < n => assert InFile(es, f, v + k); ByteAt(es, f, v + k))
  }

  // What `memset` or `memcpy` writes for a stretch of one entry.
  function Stretch(f: seq<u8>, x: u64, v: u64, n: nat): (b: seq<u8>)
    requires !Special(x) ==> Offset(x, v) + n <= |f|
  {
    if Special(x) then seq(n, _ => 0) else f[Offset(x, v)..Offset(x, v) + n]
  }

  lemma StretchIsView(es: seq<Entry>, f: seq<u8>, i: nat, v: u64, n: nat)
    requires Sorted(es) && i < |es| && es[i].vbase <= v && v + n <= Base(es, i + 1) && n > 0
    requires |f| < TWO_64 && AllInFile(es, f, v, n)
    ensures !Special(es[i].v2f) ==> Offset(es[i].v2f, v) + n <= |f|
    ensures View(es, f, v, n) == Stretch(f, es[i].v2f, v, n)
  {
    var x := es[i].v2f;
    if !Special(x) {
      OffsetsRunOn(es, f, i, v, n - 1);
    }
    forall k | 0 <= k < n
      ensures View(es, f, v, n)[k] == Stretch(f, x, v, n)[k]
    {
      assert InFile(es, f, v + k);
      IndexUnique(es, i, v + k);
      assert View(es, f, v, n)[k] == ByteAt(es, f, v + k);
      if !Special(x) {
        OffsetsRunOn(es, f, i, v, k);
        assert Stretch(f, x, v, n)[k] == f[Offset(x, v) + k];
      }
    }
  }

  lemma ViewSplits(es: seq<Entry>, f: seq<u8>, v: nat, m: nat, n: nat)
    requires Sorted(es) && v + m + n <= TWO_64 && AllInFile(es, f, v, m + n)
    ensures AllInFile(es, f, v, m) && AllInFile(es, f, v + m, n)
    ensures View(es, f, v, m + n) == View(es, f, v, m) + View(es, f, v + m, n)
  {
  }

  // Whether the range lies in a single file-backed entry.
  ghost predicate Contiguous(es: seq<Entry>, vbase: nat, len: nat)
    requires Sorted(es) && vbase + len <= TWO_64
  {
    len > 0 && !Special(At(es, vbase)) && vbase + len <= Base(es, Index(es, vbase) + 1)
  }

  function Overwrite(s: seq<u8>, at: nat, t: seq<u8>): (r: seq<u8>)
    requires at + |t| <= |s|
  {
    s[..at] + t + s[at + |t|..]
  }

  method Copy(src: seq<u8>, dst: array<u8>, at: nat)
    requires at + |src| <= dst.Length
    modifies dst
    ensures dst[..] == Overwrite(old(dst[..]), at, src)
  {
    forall k | 0 <= k < |src| {
      dst[at + k] := src[k];
    }
  }

  // The length of entry `e` from `v` on, as `e[1].vbase - vbase` gives it: a 64-bit difference,
  // in which the sentinel's base is 0.
  function Room(es: seq<Entry>, e: nat, v: u64): (n: u64)
    requires e < |es|
  {
    ((if e + 1 < |es| then es[e + 1].vbase else 0) - v) % TWO_64
  }

  // Only where a single entry is read from address 0 is the true length, 2^64, out of reach.
  predicate NeedsAll64Bits(es: seq<Entry>, v: u64) {
    |es| == 1 && v == 0
  }

  lemma RoomIsLength(es: seq<Entry>, e: nat, v: u64)
    requires Sorted(es) && Contains(es, e, v)
    ensures Room(es, e, v) == Base(es, e + 1) - v <==> !NeedsAll64Bits(es, v)
  {
    assert e + 1 < |es| ==> es[e].vbase < es[e + 1].vbase;
    assert e > 0 ==> es[0].vbase < es[e].vbase;
  }

  lemma StaysWithin64Bits(es: seq<Entry>, v: u64, v': u64)
    requires !NeedsAll64Bits(es, v) && v <= v'
    ensures !NeedsAll64Bits(es, v')
  {
  }

  // How much one turn of the copy loop copies from entry `e`.
  function Taken(es: seq<Entry>, e: nat, v: u64, limit: nat): (n: nat)
    requires e < |es|
    ensures n <= limit
  {
    if Room(es, e, v) < limit then Room(es, e, v) else limit
  }

  // The entry that the loop goes on with when `done` of `len` bytes are copied.
  function NextEntry(e: nat, done: nat, len: nat): nat {
    if done < len then e + 1 else e
  }

  // There the first turn copies nothing and goes on to the sentinel, behind the only entry.
  lemma NoRoomAtZero(x: u64, len: nat)
    requires len > 0
    ensures var es := [Entry(0, x)];
            && Sorted(es) && Contains(es, 0, 0) && Base(es, 1) == TWO_64
            && Taken(es, 0, 0, len) == 0 && NextEntry(0, Taken(es, 0, 0, len), len) == |es|
  {
    assert Room([Entry(0, x)], 0, 0) == 0;
  }

  // Copies what is seen at [v, v + limit), up to the end of entry `e`.
  method CopyEntry(m: V2fMap, f: seq<u8>, e: nat, v: u64, limit: nat, dst: array<u8>, at: nat)
    returns (here: nat, special: bool)
    requires m.Valid() && Contains(m.Contents(), e, v) && 0 < limit && v + limit <= TWO_64 && at + limit <= dst.Length
    requires |f| < TWO_64 && AllInFile(m.Contents(), f, v, limit)
    requires !NeedsAll64Bits(m.Contents(), v)
    modifies dst
    ensures m.Valid() && m.Contents() == old(m.Contents())
    ensures special == Special(m.Contents()[e].v2f)
    ensures 0 < here == Taken(m.Contents(), e, v, limit)
    ensures here == if Base(m.Contents(), e + 1) - v < limit then Base(m.Contents(), e + 1) - v else limit
    ensures AllInFile(m.Contents(), f, v, here)
    ensures dst[..] == Overwrite(old(dst[..]), at, View(m.Contents(), f, v, here))
  {
    ghost var es := m.Contents();
    RoomIsLength(es, e, v);
    here := (m.entries[e + 1].vbase - v) % TWO_64;
    assert here == Room(es, e, v);
    if here > limit {
      here := limit;
    }
    var x := m.entries[e].v2f;
    assert x == es[e].v2f;
    special := Special(x);
    ViewSplits(es, f, v, here, limit - here);
    StretchIsView(es, f, e, v, here);
    Copy(Stretch(f, x, v, here), dst, at);
  }

  // Copies out the bytes seen in [vbase, vbase + len), entry by entry.
  method MaterialiseRange(m: V2fMap, f: seq<u8>, vbase: u64, len: u64, dst: array<u8>) returns (single: bool)
    requires m.Valid() && vbase + len <= TWO_64 && len <= dst.Length
    requires |f| < TWO_64 && AllInFile(m.Contents(), f, vbase, len)
    requires len > 0 ==> !NeedsAll64Bits(m.Contents(), vbase)
    modifies m`cached, dst
    ensures m.Valid() && m.Contents() == old(m.Contents())
    ensures dst[..] == Written(m.Contents(), f, vbase, len, old(dst[..]))
    ensures single <==> Contiguous(m.Contents(), vbase, len)
  {
    hide *;
    ghost var es := m.Contents();
    ghost var was := dst[..];
    if len == 0 {
      NothingWritten(es, f, vbase, was);
      return false;
    }
    var e: nat := m.Lookup(vbase);
    ghost var first := e;
    var nSet, nCopy := 0, 0;
    var done: nat := 0;
    Started(es, f, e, vbase, len, was);
    while done < len
      invariant m.Valid() && m.Contents() == es && done <= len
      invariant Halfway(es, f, first, e, vbase, len, done, nSet, nCopy, was, dst[..])
    {
      HalfwayRoom(es, f, first, e, vbase, len, done, nSet, nCopy, was, dst[..]);
      ghost var before := dst[..];
      StaysWithin64Bits(es, vbase, vbase + done);
      var here, special := CopyEntry(m, f, e, vbase + done, len - done, dst, done);
      HalfwayStep(es, f, first, e, vbase, len, done, here, nSet, nCopy, was, before);
      nSet, nCopy := if special then nSet + 1 else nSet, if special then nCopy else nCopy + 1;
      done := done + here;
      e := NextEntry(e, done, len);
    }
    HalfwayEnds(es, f, first, e, vbase, len, nSet, nCopy, was, dst[..]);
    single := nCopy == 1 && nSet == 0;
  }

  lemma NothingWritten(es: seq<Entry>, f: seq<u8>, vbase: u64, was: seq<u8>)
    requires Sorted(es)
    ensures AllInFile(es, f, vbase, 0) && Written(es, f, vbase, 0, was) == was
    ensures !Contiguous(es, vbase, 0)
  {
  }

  // The destination when the first `done` bytes are written.
  ghost function Written(es: seq<Entry>, f: seq<u8>, vbase: nat, done: nat, was: seq<u8>): seq<u8>
    requires Sorted(es) && vbase + done <= TWO_64 && AllInFile(es, f, vbase, done) && done <= |was|
  {
    View(es, f, vbase, done) + was[done..]
  }

  lemma ProgressStep(es: seq<Entry>, f: seq<u8>, vbase: nat, done: nat, here: nat, was: seq<u8>)
    requires Sorted(es) && vbase + done + here <= TWO_64 && done + here <= |was|
    requires AllInFile(es, f, vbase, done + here)
    ensures AllInFile(es, f, vbase, done) && AllInFile(es, f, vbase + done, here)
    ensures Overwrite(Written(es, f, vbase, done, was), done, View(es, f, vbase + done, here)) ==
            Written(es, f, vbase, done + here, was)
  {
    ViewSplits(es, f, vbase, done, here);
  }

  // How many stretches were copied and zeroed on the way from entry `first` to entry `e`.
  ghost predicate Tallied(es: seq<Entry>, first: nat, e: nat, vbase: nat, len: nat, done: nat, nSet: nat, nCopy: nat) {
    && Sorted(es) && first <= e < |es| && vbase + len <= TWO_64 && done <= len
    && nSet + nCopy == e - first + (if done == len then 1 else 0)
    && (e > first || done == len > 0 ==> (nCopy > 0 || Special(es[first].v2f)) && (nSet > 0 || !Special(es[first].v2f)))
    && (e > first ==> Base(es, first + 1) < vbase + len)
    && (e == first && done == len > 0 ==> vbase + len <= Base(es, first + 1))
  }

  lemma Tally(es: seq<Entry>, first: nat, e: nat, vbase: nat, len: nat, done: nat, here: nat, nSet: nat, nCopy: nat)
    requires Tallied(es, first, e, vbase, len, done, nSet, nCopy) && done < len
    requires Contains(es, e, vbase + done)
    requires here == (if Base(es, e + 1) < vbase + len then Base(es, e + 1) else vbase + len) - (vbase + done)
    ensures var special := Special(es[e].v2f);
            Tallied(es, first, if done + here < len then e + 1 else e, vbase, len, done + here,
                    if special then nSet + 1 else nSet, if special then nCopy else nCopy + 1)
  {
  }

  lemma TallyMeans(es: seq<Entry>, first: nat, e: nat, vbase: u64, len: nat, nSet: nat, nCopy: nat)
    requires Tallied(es, first, e, vbase, len, len, nSet, nCopy) && len > 0 && Contains(es, first, vbase)
    ensures nCopy == 1 && nSet == 0 <==> Contiguous(es, vbase, len)
  {
    IndexUnique(es, first, vbase);
  }

  // Where the loop stands when `done` bytes are written and entry `e` is next.
  ghost predicate Halfway(es: seq<Entry>, f: seq<u8>, first: nat, e: nat, vbase: nat, len: nat, done: nat,
                          nSet: nat, nCopy: nat, was: seq<u8>, now: seq<u8>)
  {
    && Tallied(es, first, e, vbase, len, done, nSet, nCopy)
    && len <= |was|
    && vbase < TWO_64 && Contains(es, first, vbase)
    && (done < len ==> Contains(es, e, vbase + done))
    && AllInFile(es, f, vbase, len) && AllInFile(es, f, vbase, done)
    && now == Written(es, f, vbase, done, was)
  }

  lemma Started(es: seq<Entry>, f: seq<u8>, e: nat, vbase: u64, len: nat, was: seq<u8>)
    requires Sorted(es) && Contains(es, e, vbase) && vbase + len <= TWO_64 && 0 < len <= |was|
    requires AllInFile(es, f, vbase, len)
    ensures Halfway(es, f, e, e, vbase, len, 0, 0, 0, was, was)
  {
  }

  lemma HalfwayRoom(es: seq<Entry>, f: seq<u8>, first: nat, e: nat, vbase: nat, len: nat, done: nat,
                    nSet: nat, nCopy: nat, was: seq<u8>, now: seq<u8>)
    requires Halfway(es, f, first, e, vbase, len, done, nSet, nCopy, was, now) && done < len
    ensures vbase + done < 0x1_0000_0000_0000_0000
    ensures vbase + len <= TWO_64 && Contains(es, e, vbase + done) && AllInFile(es, f, vbase + done, len - done)
    ensures |now| == |was|
  {
  }

  lemma HalfwayStep(es: seq<Entry>, f: seq<u8>, first: nat, e: nat, vbase: nat, len: nat, done: nat, here: nat,
                    nSet: nat, nCopy: nat, was: seq<u8>, now: seq<u8>)
    requires Halfway(es, f, first, e, vbase, len, done, nSet, nCopy, was, now) && done < len
    requires vbase + len <= TWO_64 && Contains(es, e, vbase + done)
    requires here == (if Base(es, e + 1) < vbase + len then Base(es, e + 1) else vbase + len) - (vbase + done)
    requires AllInFile(es, f, vbase + done, here)
    ensures done + here <= |now|
    ensures var special := Special(es[e].v2f);
            Halfway(es, f, first, NextEntry(e, done + here, len), vbase, len, done + here,
                    if special then nSet + 1 else nSet, if special then nCopy else nCopy + 1, was,
                    Overwrite(now, done, View(es, f, vbase + done, here)))
  {
    ViewSplits(es, f, vbase, done + here, len - done - here);
    ProgressStep(es, f, vbase, done, here, was);
    Tally(es, first, e, vbase, len, done, here, nSet, nCopy);
  }

  lemma HalfwayEnds(es: seq<Entry>, f: seq<u8>, first: nat, e: nat, vbase: u64, len: nat,
                    nSet: nat, nCopy: nat, was: seq<u8>, now: seq<u8>)
    requires Halfway(es, f, first, e, vbase, len, len, nSet, nCopy, was, now) && len > 0
    ensures Sorted(es) && vbase + len <= TWO_64 && AllInFile(es, f, vbase, len)
    ensures now == Written(es, f, vbase, len, was)
    ensures nCopy == 1 && nSet == 0 <==> Contiguous(es, vbase, len)
  {
    TallyMeans(es, first, e, vbase, len, nSet, nCopy);
  }
}

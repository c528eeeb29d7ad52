// Retrying an edit over larger buckets: the scan of the program headers, the dealing out of new
// ranges, and the address map rebuilt over the extended program headers.
module Relayout {
  import opened Words
  import opened Allocator
  import opened Layout
  import opened BucketOrder
  import opened AddressMap

  // ---------- Where the original file ends ----------

  // How far the segments reach in the file and in memory, and the largest page they ask for.
  datatype Reach = Reach(f: nat, v: nat, page: nat)

  function WiderPage(page: nat, align: nat): nat {
    if page < align <= 0x10000 && IsPow2(align) then align else page
  }

  function ReachOf(phdrs: seq<Phdr>, n: nat, guestPage: nat): (r: Reach)
    requires n <= |phdrs| && guestPage > 0
    ensures r.page > 0
  {
    if n == 0 then Reach(0, 0, guestPage)
    else
      var was, p := ReachOf(phdrs, n - 1, guestPage), phdrs[n - 1];
      if !p.load then was
      else Reach(Max(was.f, p.offset + p.filesz), Max(was.v, p.vaddr + p.memsz), WiderPage(was.page, p.align))
  }

  function FirstLoad(phdrs: seq<Phdr>): (p: Option<Phdr>)
    ensures p.Some? ==> p.value in phdrs && p.value.load
  {
    if phdrs == [] then None else if phdrs[0].load then Some(phdrs[0]) else FirstLoad(phdrs[1..])
  }

  function PlanFor(phdrs: seq<Phdr>, guestPage: nat, fSize: nat): (c: Plan)
    requires guestPage > 0
    ensures c.page > 0 && fSize <= c.f0
  {
    var r := ReachOf(phdrs, |phdrs|, guestPage);
    Plan(r.page, Max(AlignUp(r.f, r.page), fSize), AlignUp(r.v, r.page), FirstLoad(phdrs), phdrs == [])
  }

  // What the format promises of an original segment.
  ghost predicate WellFormed(p: Phdr, guestPage: nat)
    requires guestPage > 0
  {
    p.load ==>
      && p.filesz <= p.memsz
      && (p.align > 0 ==> IsPow2(p.align) && Congruent(p.vaddr, p.offset, p.align))
      && Congruent(p.vaddr, p.offset, guestPage)
  }

  ghost predicate Originals(phdrs: seq<Phdr>, guestPage: nat) {
    && IsPow2(guestPage) && guestPage >= 4
    && forall i :: 0 <= i < |phdrs| ==> WellFormed(phdrs[i], guestPage)
  }

  lemma {:induction false} ReachCovers(phdrs: seq<Phdr>, n: nat, guestPage: nat, i: nat)
    requires IsPow2(guestPage) && n <= |phdrs|
    ensures var r := ReachOf(phdrs, n, guestPage);
            && IsPow2(r.page) && guestPage <= r.page
            && (i < n && phdrs[i].load ==>
                  phdrs[i].offset + phdrs[i].filesz <= r.f && phdrs[i].vaddr + phdrs[i].memsz <= r.v
                  && (IsPow2(phdrs[i].align) && phdrs[i].align <= 64 * 1024 ==> phdrs[i].align <= r.page))
            && (r.page != guestPage ==> AsksForPage(phdrs, n, r.page))
  {
    if n > 0 {
      ReachCovers(phdrs, n - 1, guestPage, i);
    }
  }

  // One of the first n original segments is to be aligned to that page, which is at most 64K.
  ghost predicate AsksForPage(phdrs: seq<Phdr>, n: nat, page: nat)
    requires n <= |phdrs|
  {
    page <= 64 * 1024 && exists k :: 0 <= k < n && phdrs[k].load && phdrs[k].align == page
  }

  lemma {:induction false} FirstLoadIs(phdrs: seq<Phdr>)
    ensures var p := FirstLoad(phdrs);
            if p.None? then forall i :: 0 <= i < |phdrs| ==> !phdrs[i].load else IsFirstLoad(phdrs, p.value)
  {
    if phdrs != [] && !phdrs[0].load {
      FirstLoadIs(phdrs[1..]);
      assert forall i :: 0 < i < |phdrs| ==> phdrs[i] == phdrs[1..][i - 1];
      if FirstLoad(phdrs).Some? {
        var i :| 0 <= i < |phdrs[1..]| && phdrs[1..][i] == FirstLoad(phdrs).value && phdrs[1..][i].load
                 && forall j :: 0 <= j < i ==> !phdrs[1..][j].load;
        assert phdrs[i + 1] == FirstLoad(phdrs).value;
        assert forall j :: 0 < j < i + 1 ==> phdrs[j] == phdrs[1..][j - 1];
      }
    }
  }

  ghost predicate IsFirstLoad(phdrs: seq<Phdr>, p: Phdr) {
    exists i :: 0 <= i < |phdrs| && phdrs[i] == p && phdrs[i].load && forall j :: 0 <= j < i ==> !phdrs[j].load
  }

  // The plan starts behind every original segment, on pages that no original segment reaches. The page
  // is the largest that is asked for.
  lemma PlanIsGood(phdrs: seq<Phdr>, guestPage: nat, fSize: nat)
    requires Originals(phdrs, guestPage)
    ensures var c := PlanFor(phdrs, guestPage, fSize);
            && GoodPlan(c) && c.page % guestPage == 0 && c.v0 % c.page == 0
            && forall i :: 0 <= i < |phdrs| && phdrs[i].load ==>
                 && phdrs[i].offset + phdrs[i].filesz <= c.f0 && phdrs[i].vaddr + phdrs[i].memsz <= c.v0
                 && (IsPow2(phdrs[i].align) && phdrs[i].align <= 64 * 1024 ==> phdrs[i].align <= c.page)
    ensures var c := PlanFor(phdrs, guestPage, fSize);
            && (c.page == guestPage || AsksForPage(phdrs, |phdrs|, c.page))
            && (if c.first.None? then forall i :: 0 <= i < |phdrs| ==> !phdrs[i].load
                else IsFirstLoad(phdrs, c.first.value))
            && (c.noHeaders <==> |phdrs| == 0)
  {
    FirstLoadIs(phdrs);
    var r := ReachOf(phdrs, |phdrs|, guestPage);
    ReachCovers(phdrs, |phdrs|, guestPage, 0);
    AlignUpIsLeastMultiple(r.f, r.page);
    AlignUpIsLeastMultiple(r.v, r.page);
    Pow2Divides(guestPage, r.page);
    forall i | 0 <= i < |phdrs| && phdrs[i].load
      ensures phdrs[i].offset + phdrs[i].filesz <= r.f && phdrs[i].vaddr + phdrs[i].memsz <= r.v
      ensures IsPow2(phdrs[i].align) && phdrs[i].align <= 64 * 1024 ==> phdrs[i].align <= r.page
    {
      ReachCovers(phdrs, |phdrs|, guestPage, i);
    }
  }

  method Scan(phdrs: seq<Phdr>, guestPage: nat, fSize: nat) returns (c: Plan)
    requires guestPage > 0
    ensures c == PlanFor(phdrs, guestPage, fSize)
  {
    var f: nat, v: nat, page := 0, 0, guestPage;
    for n := 0 to |phdrs|
      invariant ReachOf(phdrs, n, guestPage) == Reach(f, v, page)
    {
      var p := phdrs[n];
      if p.load {
        if f < p.offset + p.filesz { f := p.offset + p.filesz; }
        if v < p.vaddr + p.memsz { v := p.vaddr + p.memsz; }
        if p.align > page && p.align <= 0x10000 && IsPow2(p.align) { page := p.align; }
      }
    }
    f := AlignUp(f, page);
    v := AlignUp(v, page);
    if f < fSize { f := fSize; }
    c := Plan(page, f, v, FirstLoad(phdrs), phdrs == []);
  }

  // ---------- Dealing out the ranges ----------

  // Finds the place of a new segment that a bucket needs.
  method Open(c: Plan, ghost st: Progress, f0: nat, v0: nat, first: bool, b: Bucket) returns (f: nat, v: nat, ld: Phdr)
    requires c.page > 0
    requires f0 == st.f && v0 == st.v && first == (st.loads == [])
    ensures OpenLoad(c, st, b) == Progress(f, v, st.loads + [ld], st.spots)
  {
    hide AlignUp, CongruentUp, Padding, FlagsFor;
    f, v := f0, v0;
    var flags, align := FlagsFor(b.category), c.page;
    if flags == PF_R && c.first.Some? && c.first.value.align > align {
      align := c.first.value.align;
    }
    v := CongruentUp(AlignUp(v, c.page), f, align);
    if flags == PF_R && c.first.Some? {
      var required := c.first.value.vaddr + f - v;
      if required < 0 {
        f := CongruentUp(f - (required - required % c.page), v, align);
      } else if c.first.value.offset < required && c.first.value.filesz != 0 {
        var excess := required - c.first.value.offset;
        if excess <= 0x40000 && excess % c.page == 0 {
          v := v + excess;
        }
      }
    }
    var bump := Padding(v, b.alignment);
    f, v := f + bump, v + bump;
    if f == v && c.noHeaders && first && flags == PF_R {
      ld := Phdr(true, flags, 0, 0, 0, 0, align);
    } else {
      ld := Phdr(true, flags, f, v, 0, 0, align);
    }
  }

  // The buckets laid out so far, and behind them those still to come.
  ghost predicate Halfway(c: Plan, was: seq<Bucket>, now: seq<Bucket>, i: nat, st: Progress)
    requires c.page > 0
  {
    && Layable(was) && i <= |was| == |now|
    && st == LayAll(c, was, i)
    && |st.spots| == i
    && now == BucketsOf(st.spots) + was[i..]
  }

  lemma HalfwayStep(c: Plan, was: seq<Bucket>, now: seq<Bucket>, i: nat, st: Progress, st': Progress, b: Bucket)
    requires c.page > 0 && Halfway(c, was, now, i, st) && i < |was|
    requires SizeOf(was[i]) >= 0 && st' == Lay(c, st, was[i])
    requires |st'.spots| == i + 1 && st'.spots[..i] == st.spots && b == st'.spots[i].bucket
    ensures Halfway(c, was, now[i := b], i + 1, st')
  {
    hide Lay;
    assert BucketsOf(st'.spots)[..i] == BucketsOf(st.spots);
    assert was[i..] == [was[i]] + was[i + 1..];
  }

  // Gives one bucket its range, behind what is already laid out.
  method Deal(c: Plan, ghost st: Progress, f0: nat, v0: nat, loads0: seq<Phdr>, b: Bucket)
    returns (f: nat, v: nat, loads: seq<Phdr>, b': Bucket)
    requires c.page > 0 && SizeOf(b) >= 0
    requires f0 == st.f && v0 == st.v && loads0 == st.loads
    ensures var st' := Lay(c, st, b);
            && st'.f == f && st'.v == v && st'.loads == loads
            && |st'.spots| == |st.spots| + 1 && st'.spots[..|st.spots|] == st.spots
               && st'.spots[|st.spots|].bucket == b'
  {
    hide OpenLoad, AlignUp, Padding, FlagsFor;
    f, v, loads := f0, v0, loads0;
    var size := (if b.current > b.end then b.current else b.end) - b.start;
    if b.category == F {
      f := AlignUp(f, b.alignment);
      b' := Set(b, f, f + size);
      f := f + size;
    } else {
      if |loads| == 0 || loads[|loads| - 1].flags != FlagsFor(b.category) {
        var ld;
        f, v, ld := Open(c, st, f, v, |loads| == 0, b);
        loads := loads + [ld];
      }
      var bump := Padding(v, b.alignment);
      v := v + bump;
      b' := Set(b, v, v + size);
      v := v + size;
      if b.category != VRWZero {
        f := f + bump + size;
      }
      var ld := loads[|loads| - 1];
      loads := loads[|loads| - 1 := ld.(memsz := Clip(v - ld.vaddr), filesz := Clip(f - ld.offset))];
    }
  }

  lemma HalfwayStarts(c: Plan, was: seq<Bucket>)
    requires c.page > 0 && Layable(was)
    ensures Halfway(c, was, was, 0, LayAll(c, was, 0))
    ensures LayAll(c, was, 0) == Progress(c.f0, c.v0, [], [])
  {
  }

  lemma HalfwayNext(c: Plan, was: seq<Bucket>, now: seq<Bucket>, i: nat, st: Progress)
    requires c.page > 0 && Halfway(c, was, now, i, st)
    ensures i <= |was| == |now| && |st.spots| == i
    ensures i < |was| ==> now[i] == was[i] && SizeOf(was[i]) >= 0
    ensures i == |was| ==> Layable(was) && now == BucketsOf(st.spots) && st == LayAll(c, was, |was|)
  {
  }

  // Gives every bucket its new range in place; `loads` are the program headers to append.
  method LayOut(c: Plan, buckets: array<Bucket>) returns (loads: seq<Phdr>, f: nat, ghost st: Progress)
    requires c.page > 0 && Layable(buckets[..])
    modifies buckets
    ensures st == LayAll(c, old(buckets[..]), buckets.Length)
    ensures buckets[..] == BucketsOf(st.spots) && loads == st.loads && f == st.f
  {
    hide Lay, AlignUp, Halfway, BucketsOf, LayAll, Layable, IsPow2;
    var v := c.v0;
    f, loads, st := c.f0, [], LayAll(c, buckets[..], 0);
    ghost var was := buckets[..];
    HalfwayStarts(c, was);
    for i := 0 to buckets.Length
      invariant Halfway(c, was, buckets[..], i, st)
      invariant st.f == f && st.v == v && st.loads == loads
    {
      var b := buckets[i];
      ghost var before, now := st, buckets[..];
      HalfwayNext(c, was, now, i, st);
      st := Lay(c, st, b);
      f, v, loads, b := Deal(c, before, f, v, loads, b);
      buckets[i] := b;
      assert buckets[..] == now[i := b];
      HalfwayStep(c, was, now, i, before, st, b);
    }
    HalfwayNext(c, was, buckets[..], buckets.Length, st);
  }

  // ---------- The address map over the program headers ----------

  function PageDown(x: nat, page: nat): (r: nat)
    requires page > 0
    ensures r <= x
  {
    x - x % page
  }

  // The value that leads from addresses of the segment to file offsets.
  function Delta(p: Phdr): u64 {
    (p.offset - p.vaddr) % TWO_64
  }

  // The end of the segment's pages that are mapped from the file.
  function PagesEnd(p: Phdr, page: nat): int
    requires page > 0
  {
    AlignUp(p.offset + p.filesz, page) - p.offset + p.vaddr
  }

  // What a loader that has mapped the segment has at `v`: whole pages from the file as far as the
  // file goes, and zeros behind the segment's contents.
  function Loaded(p: Phdr, page: nat, fSize: nat, v: nat, was: u64): u64
    requires page > 0
  {
    if !p.load then was
    else if p.vaddr + p.filesz <= v < p.vaddr + p.memsz then V2F_ZEROFILL
    else if PageDown(p.vaddr, page) <= v < PagesEnd(p, page) then
      if v - p.vaddr + p.offset < fSize then Delta(p) else V2F_ZEROFILL
    else was
  }

  function Mapped(phdrs: seq<Phdr>, n: nat, page: nat, fSize: nat, v: nat): u64
    requires page > 0 && n <= |phdrs|
  {
    if n == 0 then V2F_UNMAPPED
    else Loaded(phdrs[n - 1], page, fSize, v, Mapped(phdrs, n - 1, page, fSize, v))
  }

  // The segment's pages exist both as addresses and as file offsets.
  ghost predicate Mappable(p: Phdr, page: nat)
    requires page > 0
  {
    p.load ==>
      && Congruent(p.vaddr, p.offset, page)
      && p.vaddr + p.filesz + page < TWO_64 && p.vaddr + p.memsz < TWO_64
      && p.offset + p.filesz + page < TWO_64
  }

  // Where the segment's pages lie: they start as far before its contents in memory as in the file.
  lemma PagesAre(p: Phdr, page: nat)
    requires p.load && page > 0 && Mappable(p, page)
    ensures PageDown(p.vaddr, page) == p.vaddr - p.vaddr % page && p.vaddr % page <= p.offset
    ensures p.offset + p.filesz <= AlignUp(p.offset + p.filesz, page) < p.offset + p.filesz + page
  {
    hide AlignUp, Congruent;
    CongruentMeans(p.vaddr, p.offset, page);
    AlignUpIsLeastMultiple(p.offset + p.filesz, page);
    assert PageDown(p.offset, page) >= 0;
  }

  // Maps the segment's pages from the file as far as the file goes.
  method MapPages(m: V2fMap, p: Phdr, page: nat, fSize: u64)
    requires m.Valid() && Canonical(m.Contents()) && p.load && page > 0 && Mappable(p, page)
    modifies m, m.entries
    ensures m.Valid() && Canonical(m.Contents())
    ensures m.entries == old(m.entries) || fresh(m.entries)
    ensures forall v: u64 :: At(m.Contents(), v) ==
              if PageDown(p.vaddr, page) <= v < PagesEnd(p, page) then
                if v - p.vaddr + p.offset < fSize then Delta(p) else V2F_ZEROFILL
              else old(At(m.Contents(), v))
  {
    hide AlignUp, Canonical, At, Sorted, Congruent, PageDown;
    PagesAre(p, page);
    var pgoff := p.vaddr % page;
    var fbase, vbase := p.offset - pgoff, p.vaddr - pgoff;
    var fend := AlignUp(p.offset + p.filesz, page);
    var delta := (fbase - vbase) % TWO_64;
    if fend <= fSize {
      m.SetRange(vbase, fend - fbase, delta);
    } else if fbase <= fSize {
      m.SetRange(vbase, fSize - fbase, delta);
      m.SetRange(vbase + (fSize - fbase), fend - fSize, V2F_ZEROFILL);
    } else {
      m.SetRange(vbase, fend - fbase, V2F_ZEROFILL);
    }
  }

  // Sets the map to what the segment has loaded.
  method MapLoad(m: V2fMap, p: Phdr, page: nat, fSize: u64)
    requires m.Valid() && Canonical(m.Contents()) && p.load && page > 0 && Mappable(p, page)
    modifies m, m.entries
    ensures m.Valid() && Canonical(m.Contents())
    ensures m.entries == old(m.entries) || fresh(m.entries)
    ensures forall v: u64 :: At(m.Contents(), v) == Loaded(p, page, fSize, v, old(At(m.Contents(), v)))
  {
    hide AlignUp, Canonical, At, Sorted, Congruent, PageDown, PagesEnd;
    MapPages(m, p, page, fSize);
    if p.memsz > p.filesz {
      m.SetRange(p.vaddr + p.filesz, p.memsz - p.filesz, V2F_ZEROFILL);
    }
  }

  method BuildMap(phdrs: seq<Phdr>, page: nat, fSize: u64) returns (m: V2fMap)
    requires page > 0 && forall i :: 0 <= i < |phdrs| ==> Mappable(phdrs[i], page)
    ensures fresh(m) && fresh(m.entries) && m.Valid() && Canonical(m.Contents())
    ensures forall v: u64 :: At(m.Contents(), v) == Mapped(phdrs, |phdrs|, page, fSize, v)
  {
    m := new V2fMap(V2F_UNMAPPED);
    for n := 0 to |phdrs|
      invariant m.Valid() && Canonical(m.Contents()) && fresh(m) && fresh(m.entries)
      invariant forall v: u64 :: At(m.Contents(), v) == Mapped(phdrs, n, page, fSize, v)
    {
      if phdrs[n].load {
        MapLoad(m, phdrs[n], page, fSize);
      }
    }
  }

  // ---------- Layout and address map agree ----------

  // The segment has a say in what is at `v`.
  predicate Touches(p: Phdr, page: nat, v: nat)
    requires page > 0
  {
    p.load && (PageDown(p.vaddr, page) <= v < PagesEnd(p, page) || p.vaddr + p.filesz <= v < p.vaddr + p.memsz)
  }

  lemma {:induction false} UntouchedSince(phdrs: seq<Phdr>, m: nat, n: nat, page: nat, fSize: nat, v: nat)
    requires page > 0 && m <= n <= |phdrs|
    requires forall k :: m <= k < n ==> !Touches(phdrs[k], page, v)
    ensures Mapped(phdrs, n, page, fSize, v) == Mapped(phdrs, m, page, fSize, v)
  {
    hide Touches;
    if m < n {
      UntouchedSince(phdrs, m, n - 1, page, fSize, v);
      NotTouched(phdrs[n - 1], page, fSize, v, Mapped(phdrs, n - 1, page, fSize, v));
    }
  }

  // The address lies on a page with contents of the segment, or where the segment has zeros.
  predicate Shares(p: Phdr, page: nat, v: nat)
    requires page > 0
  {
    && p.load
    && ((p.vaddr / page <= v / page && v / page * page < p.vaddr + p.filesz)
        || p.vaddr + p.filesz <= v < p.vaddr + p.memsz)
  }

  lemma PageStart(x: nat, page: nat, v: nat)
    requires page > 0
    ensures PageDown(x, page) <= v <==> x / page <= v / page
  {
    var i, j := x / page, v / page;
    assert PageDown(x, page) == i * page && v == j * page + v % page;
    assert (i - j) * page == i * page - j * page;
    ProductAtLeast(i - j, page);
  }

  lemma PageStop(p: Phdr, page: nat, v: nat)
    requires p.load && page > 0 && Mappable(p, page)
    ensures v < PagesEnd(p, page) <==> v / page * page < p.vaddr + p.filesz
  {
    hide AlignUp;
    AlignUpIsLeastMultiple(p.offset + p.filesz, page);
    MultiplesAdd(AlignUp(p.offset + p.filesz, page), p.vaddr - p.offset, page);
    EndOfPages(p.vaddr + p.filesz, PagesEnd(p, page), page, v);
  }

  lemma EndOfPages(x: int, end: int, page: nat, v: nat)
    requires page > 0 && end % page == 0 && end - page < x <= end
    ensures v < end <==> v / page * page < x
  {
    var start := v / page * page;
    PageDownIs(v, page);
    MultiplesAdd(end, start, page);
    if start < end < start + page {
      assert false;
    }
  }

  lemma PageDownIs(v: nat, page: nat)
    requires page > 0
    ensures v / page * page == v - v % page && (v / page * page) % page == 0
  {
    var q := v / page;
    QuotientIs(q * page, page, q, 0);
  }

  lemma TouchesShares(p: Phdr, page: nat, v: nat)
    requires page > 0 && Mappable(p, page)
    ensures Touches(p, page, v) <==> Shares(p, page, v)
  {
    hide AlignUp, Congruent;
    if p.load {
      PagesAre(p, page);
      PageStart(p.vaddr, page, v);
      PageStop(p, page, v);
    }
  }

  // What the loader has at an address is decided by the last segment that shares it: zeros behind its
  // contents and behind the end of the file, otherwise the file as the segment places it.
  lemma LastSegmentShows(phdrs: seq<Phdr>, page: nat, fSize: nat, v: u64, k: nat)
    requires page > 0 && page % 4 == 0 && k < |phdrs| && forall j :: 0 <= j < |phdrs| ==> Mappable(phdrs[j], page)
    requires Shares(phdrs[k], page, v) && forall j :: k < j < |phdrs| ==> !Shares(phdrs[j], page, v)
    ensures var p, value := phdrs[k], Mapped(phdrs, |phdrs|, page, fSize, v);
            var at := v - p.vaddr + p.offset;
            if p.vaddr + p.filesz <= v < p.vaddr + p.memsz || at >= fSize then value == 1
            else value % 4 == 0 && (v + value) % TWO_64 == at
  {
    hide Touches, Mappable, Loaded, Delta, PagesEnd;
    forall j | k <= j < |phdrs|
      ensures Touches(phdrs[j], page, v) <==> Shares(phdrs[j], page, v)
    {
      TouchesShares(phdrs[j], page, v);
    }
    UntouchedSince(phdrs, k + 1, |phdrs|, page, fSize, v);
    LoadedShows(phdrs[k], page, fSize, v, Mapped(phdrs, k, page, fSize, v));
  }

  lemma LoadedShows(p: Phdr, page: nat, fSize: nat, v: u64, was: u64)
    requires page > 0 && page % 4 == 0 && p.load && Mappable(p, page) && Touches(p, page, v)
    ensures var value, at := Loaded(p, page, fSize, v, was), v - p.vaddr + p.offset;
            if p.vaddr + p.filesz <= v < p.vaddr + p.memsz || at >= fSize then value == 1
            else !Special(value) && (v + value) % TWO_64 == at
  {
    hide AlignUp, Delta, Special;
    PagesAre(p, page);
    MultipleOfMultiple(p.vaddr - p.offset, 4, page);
    if !(p.vaddr + p.filesz <= v < p.vaddr + p.memsz) {
      DeltaLeads(p, v);
    }
  }

  // An address that no segment has a say in is unmapped.
  lemma UntouchedIsUnmapped(phdrs: seq<Phdr>, page: nat, fSize: nat, v: nat)
    requires page > 0
    requires forall k :: 0 <= k < |phdrs| ==> Mappable(phdrs[k], page) && !Shares(phdrs[k], page, v)
    ensures Mapped(phdrs, |phdrs|, page, fSize, v) == 2
  {
    hide Mappable, Touches;
    forall k | 0 <= k < |phdrs|
      ensures !Touches(phdrs[k], page, v)
    {
      TouchesShares(phdrs[k], page, v);
    }
    UntouchedSince(phdrs, 0, |phdrs|, page, fSize, v);
  }

  lemma NotTouched(p: Phdr, page: nat, fSize: nat, v: nat, was: u64)
    requires page > 0 && !Touches(p, page, v)
    ensures Loaded(p, page, fSize, v, was) == was
  {
  }

  // A segment that starts at or behind a page boundary leaves everything before it alone.
  lemma StartsBehind(p: Phdr, page: nat, x: nat, v: nat)
    requires page > 0 && x % page == 0 && v < x <= p.vaddr
    ensures !Touches(p, page, v)
  {
    var q, r := x / page, p.vaddr / page;
    assert x == q * page && p.vaddr == r * page + p.vaddr % page;
    assert (r - q) * page == r * page - q * page;
    ProductAtLeast(r - q, page);
  }

  // The pages that matter to the layout consist of whole guest pages.
  ghost predicate Paged(c: Plan, page: nat) {
    page > 0 && IsPow2(c.page) && c.page % page == 0
  }

  // No later segment touches an address of an earlier one.
  lemma LaterLoadsAside(c: Plan, st: Progress, page: nat, h: nat, k: nat, v: nat)
    requires Paged(c, page) && LoadsSound(c, st.loads) && h < k < |st.loads|
    requires v < st.loads[h].vaddr + st.loads[h].memsz
    ensures !Touches(st.loads[k], page, v)
  {
    hide Touches, AlignUp, GoodLoad;
    var end := st.loads[h].vaddr + st.loads[h].memsz;
    assert Before(c, st.loads[h], st.loads[k]);
    AlignUpIsLeastMultiple(end, c.page);
    MultipleOfMultiple(AlignUp(end, c.page), page, c.page);
    StartsBehind(st.loads[k], page, AlignUp(end, c.page), v);
  }

  // The new segments leave the addresses of the original ones alone.
  lemma OriginalsUndisturbed(phdrs: seq<Phdr>, guestPage: nat, fSize: nat, st: Progress, v: nat)
    requires Originals(phdrs, guestPage) && |phdrs| > 0
    requires var c := PlanFor(phdrs, guestPage, fSize); LoadsSound(c, st.loads) && v < c.v0
    ensures Mapped(phdrs + st.loads, |phdrs + st.loads|, guestPage, st.f, v) ==
            Mapped(phdrs + st.loads, |phdrs|, guestPage, st.f, v)
  {
    hide Touches, PlanFor, AlignUp, GoodLoad, Before;
    var c, all := PlanFor(phdrs, guestPage, fSize), phdrs + st.loads;
    HeadersThere(phdrs, guestPage, fSize);
    PlanIsGood(phdrs, guestPage, fSize);
    AlignUpIsLeastMultiple(c.v0, c.page);
    MultipleOfMultiple(c.v0, guestPage, c.page);
    forall k | |phdrs| <= k < |all|
      ensures !Touches(all[k], guestPage, v)
    {
      assert AboveOriginal(c, st.loads[k - |phdrs|]);
      StartsBehind(all[k], guestPage, c.v0, v);
    }
    UntouchedSince(all, |phdrs|, |all|, guestPage, st.f, v);
  }

  lemma HeadersThere(phdrs: seq<Phdr>, guestPage: nat, fSize: nat)
    requires guestPage > 0
    ensures PlanFor(phdrs, guestPage, fSize).noHeaders <==> |phdrs| == 0
  {
  }

  // The map sends the bucket's addresses to file space that the original file did not have.
  ghost predicate Reaches(value: u64, s: Spot, c: Plan, st: Progress, v: nat) {
    var at := s.pos + (v - s.bucket.start);
    if FileBacked(s.bucket) then !Special(value) && (v + value) % TWO_64 == at && c.f0 <= at < st.f
    else value == 1
  }

  lemma LoadedFromFile(p: Phdr, page: nat, fSize: nat, v: nat, was: u64)
    requires page > 0 && p.load && p.vaddr <= v < p.vaddr + p.filesz && p.offset + p.filesz <= fSize
    ensures Loaded(p, page, fSize, v, was) == Delta(p)
  {
    hide AlignUp;
    AlignUpIsLeastMultiple(p.offset + p.filesz, page);
  }

  lemma OffsetIsWords(c: Plan, page: nat, ld: Phdr)
    requires Paged(c, page) && page % 4 == 0 && GoodLoad(c, ld)
    ensures (ld.vaddr - ld.offset) % 4 == 0
  {
    MultipleOfMultiple(ld.vaddr - ld.offset, c.page, ld.align);
    MultipleOfMultiple(ld.vaddr - ld.offset, page, c.page);
    MultipleOfMultiple(ld.vaddr - ld.offset, 4, page);
  }

  lemma LoadedReaches(c: Plan, st: Progress, page: nat, s: Spot, v: nat, was: u64)
    requires Paged(c, page) && page % 4 == 0 && st.f < TWO_64 && LoadsSound(c, st.loads) && TipSound(c, st)
    requires Placed(c, st.loads, s) && Passed(st, s) && s.bucket.category != F && s.bucket.start <= v < s.bucket.end
    requires s.home < |st.loads|
    ensures Reaches(Loaded(st.loads[s.home], page, st.f, v, was), s, c, st, v)
  {
    hide Loaded, LoadsSound, TipSound, Congruent, Delta, Special;
    var ld := st.loads[s.home];
    LoadIsGood(c, st.loads, s.home);
    if FileBacked(s.bucket) {
      LoadsBelowTip(c, st, s.home);
      LoadedFromFile(ld, page, st.f, v, was);
      OffsetIsWords(c, page, ld);
      DeltaLeads(ld, v);
    } else {
      LoadedZero(ld, page, st.f, v, was);
    }
  }

  lemma LoadedZero(p: Phdr, page: nat, fSize: nat, v: nat, was: u64)
    requires page > 0 && p.load && p.vaddr + p.filesz <= v < p.vaddr + p.memsz
    ensures Loaded(p, page, fSize, v, was) == V2F_ZEROFILL
  {
  }

  lemma LoadIsGood(c: Plan, loads: seq<Phdr>, k: nat)
    requires c.page > 0 && LoadsSound(c, loads) && k < |loads|
    ensures GoodLoad(c, loads[k])
  {
  }

  // Adding the value to an address of the segment gives the file offset.
  lemma DeltaLeads(p: Phdr, v: nat)
    requires (p.vaddr - p.offset) % 4 == 0 && 0 <= v - p.vaddr + p.offset < TWO_64
    ensures !Special(Delta(p)) && (v + Delta(p)) % TWO_64 == v - p.vaddr + p.offset
  {
  }

  // Every address of every bucket, through the segments old and new.
  lemma SpotReaches(phdrs: seq<Phdr>, c: Plan, st: Progress, page: nat, i: nat, v: nat)
    requires Paged(c, page) && page % 4 == 0 && st.f < TWO_64 && Sound(c, st) && i < |st.spots|
    requires var b := st.spots[i].bucket; b.category != F && b.start <= v < b.end
    ensures Reaches(Mapped(phdrs + st.loads, |phdrs + st.loads|, page, st.f, v), st.spots[i], c, st, v)
  {
    hide Reaches, Touches, LoadsSound, Loaded, Tight, TipSound, Apart;
    var s, all := st.spots[i], phdrs + st.loads;
    assert Placed(c, st.loads, s) && Passed(st, s);
    var h := |phdrs| + s.home;
    assert all[h] == st.loads[s.home];
    LoadedReaches(c, st, page, s, v, Mapped(all, h, page, st.f, v));
    forall k | h < k < |all|
      ensures !Touches(all[k], page, v)
    {
      LaterLoadsAside(c, st, page, s.home, k - |phdrs|, v);
    }
    UntouchedSince(all, h + 1, |all|, page, st.f, v);
  }

  // No two addresses of buckets with contents share a file byte.
  lemma ContentsApart(c: Plan, st: Progress, i: nat, v: nat, j: nat, w: nat)
    requires SpotsSound(c, st) && i < |st.spots| && j < |st.spots|
    requires var b := st.spots[i].bucket; FileBacked(b) && b.start <= v < b.end
    requires var b := st.spots[j].bucket; FileBacked(b) && b.start <= w < b.end
    requires i != j || v != w
    ensures st.spots[i].pos + (v - st.spots[i].bucket.start) != st.spots[j].pos + (w - st.spots[j].bucket.start)
  {
    hide Placed, Passed;
    if i < j {
      assert Apart(st.spots[i], st.spots[j]);
    } else if j < i {
      assert Apart(st.spots[j], st.spots[i]);
    }
  }

  // The extended file and address space stay within 64 bits.
  ghost predicate Fits(st: Progress, page: nat) {
    st.f + page < TWO_64 && st.v + page < TWO_64
  }

  lemma AllMappable(phdrs: seq<Phdr>, guestPage: nat, fSize: nat, st: Progress, k: nat)
    requires Originals(phdrs, guestPage) && Sound(PlanFor(phdrs, guestPage, fSize), st) && Fits(st, guestPage)
    requires k < |phdrs + st.loads|
    ensures Mappable((phdrs + st.loads)[k], guestPage)
  {
    hide PlanFor, Before, AboveOriginal, SpotsSound, Tight;
    var c := PlanFor(phdrs, guestPage, fSize);
    PlanIsGood(phdrs, guestPage, fSize);
    if k < |phdrs| {
      assert WellFormed(phdrs[k], guestPage);
    } else {
      var ld := st.loads[k - |phdrs|];
      assert GoodLoad(c, ld);
      LoadsBelowTip(c, st, k - |phdrs|);
      MultipleOfMultiple(ld.vaddr - ld.offset, c.page, ld.align);
      MultipleOfMultiple(ld.vaddr - ld.offset, guestPage, c.page);
    }
  }

  // Whichever way the buckets are sorted, their layout fits.
  ghost predicate SortingsFit(c: Plan, was: seq<Bucket>, page: nat)
    requires c.page > 0
  {
    forall bs :: SortingOf(bs, was) && Layable(bs) ==> Fits(LayAll(c, bs, |bs|), page)
  }

  // Sorts the buckets, lays them out and rebuilds the map. Whatever is allocated from the buckets
  // in the next pass then has file bytes of its own, or reads as zero.
  method Retry(phdrs: seq<Phdr>, buckets: array<Bucket>, guestPage: nat, fSize: nat)
    returns (phdrs': seq<Phdr>, f: u64, m: V2fMap, ghost bs: seq<Bucket>, ghost st: Progress)
    requires Originals(phdrs, guestPage) && Layable(buckets[..])
    requires SortingsFit(PlanFor(phdrs, guestPage, fSize), buckets[..], guestPage)
    modifies buckets
    ensures SortingOf(bs, old(buckets[..])) && Layable(bs)
    ensures st == LayAll(PlanFor(phdrs, guestPage, fSize), bs, |bs|)
    ensures Sound(PlanFor(phdrs, guestPage, fSize), st) && |st.spots| == buckets.Length
    ensures phdrs' == phdrs + st.loads && f == st.f && buckets[..] == BucketsOf(st.spots)
    ensures forall i :: 0 <= i < buckets.Length && buckets[i].category != F ==>
              st.spots[i].home < |st.loads| && Permits(st.loads[st.spots[i].home].flags, buckets[i].category)
    ensures |st.loads| <= 3 && (st.loads == [] || |st.loads| + 1 <= ExtraPhdrs(bs))
    ensures fresh(m) && m.Valid() && Canonical(m.Contents())
    ensures forall i, v: u64 ::
              0 <= i < buckets.Length && buckets[i].category != F && buckets[i].start <= v < buckets[i].end ==>
              Reaches(At(m.Contents(), v), st.spots[i], PlanFor(phdrs, guestPage, fSize), st, v)
  {
    hide Sound, PlanFor, LayAll, Reaches, Canonical, At, Ordered, Layable, SortingOf, Permits, ExtraPhdrs;
    ghost var was := buckets[..];
    SortBuckets(buckets);
    bs := buckets[..];
    SortingLayable(bs, was);
    var c := Scan(phdrs, guestPage, fSize);
    PlanIsGood(phdrs, guestPage, fSize);
    LayAllSound(c, bs, |bs|);
    var loads;
    loads, f, st := LayOut(c, buckets);
    phdrs' := phdrs + loads;
    forall k | 0 <= k < |phdrs'|
      ensures Mappable(phdrs'[k], guestPage)
    {
      AllMappable(phdrs, guestPage, fSize, st, k);
    }
    m := BuildMap(phdrs', guestPage, f);
    GuestPageIsWords(phdrs, guestPage);
    SegmentsFit(c, bs);
    forall i | 0 <= i < buckets.Length && buckets[i].category != F
      ensures st.spots[i].home < |st.loads| && Permits(st.loads[st.spots[i].home].flags, buckets[i].category)
    {
      assert buckets[i] == buckets[..][i] == st.spots[i].bucket;
      SpotPermissions(c, st, i);
    }
    forall i, v: u64 | 0 <= i < buckets.Length && buckets[i].category != F && buckets[i].start <= v < buckets[i].end
      ensures Reaches(At(m.Contents(), v), st.spots[i], c, st, v)
    {
      assert buckets[i] == buckets[..][i] == st.spots[i].bucket;
      SpotReaches(phdrs, c, st, guestPage, i, v);
    }
  }

  lemma GuestPageIsWords(phdrs: seq<Phdr>, guestPage: nat)
    requires Originals(phdrs, guestPage)
    ensures guestPage % 4 == 0
  {
    assert IsPow2(4);
    Pow2Divides(4, guestPage);
  }

  // ---------- From a request to file bytes ----------

  // A pass that starts from the laid out buckets and needs no other retry.
  ghost predicate GoodPass(c: Plan, bs: seq<Bucket>, st: Progress, rs: seq<Request>) {
    && GoodPlan(c) && Layable(bs) && Ordered(bs) && Unique(bs) && st == LayAll(c, bs, |bs|)
    && !ServeAll(State(BucketsOf(st.spots), false), rs).retry
  }

  // Every pass of an edit but the first that needs no other retry is one.
  lemma EditPassIsGood(c: Plan, passes: seq<State>, asked: seq<seq<Request>>, k: nat)
    returns (bs: seq<Bucket>, st: Progress)
    requires GoodPlan(c) && IsEdit(c, passes, asked) && 0 < k < |passes| == |asked|
    requires !ServeAll(passes[k], asked[k]).retry
    ensures GoodPass(c, bs, st, asked[k]) && passes[k] == State(BucketsOf(st.spots), false)
  {
    hide Layable, Ordered, LayAll, Unique, Fresh, SortingOf, ServeAll;
    RoomIsMostTaken(c, passes, asked, k - 1);
    assert Succeeds(c, passes[k - 1], asked[k - 1], passes[k]);
    bs :| LaidAnew(c, passes[k - 1], asked[k - 1], bs, passes[k]);
    SortedIsReady(passes[k - 1], asked[k - 1], bs);
    st := LayAll(c, bs, |bs|);
  }

  // What request `i` was given.
  function Given(st: Progress, rs: seq<Request>, i: nat): nat
    requires i < |rs|
  {
    AnswerAt(State(BucketsOf(st.spots), false), rs, i)
  }

  ghost predicate IsGiven(st: Progress, rs: seq<Request>, i: nat, v: nat) {
    i < |rs| && Given(st, rs, i) <= v < Given(st, rs, i) + rs[i].size
  }

  // The bucket that served request `i`.
  function ServedBy(st: Progress, rs: seq<Request>, i: nat): nat
    requires i < |rs|
  {
    Find(BucketsOf(st.spots), rs[i].category, Alignment(rs[i]))
  }

  // Everything that is handed out lies in a bucket that was laid out.
  lemma GivenLiesInBucket(c: Plan, bs: seq<Bucket>, st: Progress, rs: seq<Request>, i: nat, v: nat)
    requires GoodPass(c, bs, st, rs) && IsGiven(st, rs, i, v)
    ensures var k := ServedBy(st, rs, i);
            && k < |st.spots| && st.spots[k].bucket.category == rs[i].category
            && st.spots[k].bucket.start <= v < st.spots[k].bucket.end
            && (rs[i].alignment > 0 ==> Given(st, rs, i) % rs[i].alignment == 0)
  {
    hide GoodPlan, Layable, Ordered, LayAll, Unique, Relaid, Untouched, Find, AnswerAt, ServeAll, Replay, SizesFor;
    LayoutRelays(c, bs);
    ServedWithin(State(BucketsOf(st.spots), false), rs, i);
  }

  // So every byte of a file-backed allocation has a file byte behind the original file, and the
  // rebuilt map finds it; other allocations read as zero.
  lemma GivenReaches(phdrs: seq<Phdr>, guestPage: nat, fSize: nat, bs: seq<Bucket>, st: Progress, rs: seq<Request>,
                     i: nat, v: nat)
    requires Originals(phdrs, guestPage) && GoodPass(PlanFor(phdrs, guestPage, fSize), bs, st, rs) && st.f < TWO_64
    requires IsGiven(st, rs, i, v) && rs[i].category != F
    ensures ServedBy(st, rs, i) < |st.spots|
    ensures Reaches(Mapped(phdrs + st.loads, |phdrs + st.loads|, guestPage, st.f, v), st.spots[ServedBy(st, rs, i)],
                    PlanFor(phdrs, guestPage, fSize), st, v)
  {
    hide LayAll, Unique, AnswerAt, ServeAll, Reaches, Mapped, Find, Sound, ReachOf, Ordered, Layable;
    var c := PlanFor(phdrs, guestPage, fSize);
    PlanIsGood(phdrs, guestPage, fSize);
    GivenLiesInBucket(c, bs, st, rs, i, v);
    LayAllSound(c, bs, |bs|);
    GuestPageIsWords(phdrs, guestPage);
    SpotReaches(phdrs, c, st, guestPage, ServedBy(st, rs, i), v);
  }

  // Different requests for address space never share an address, whatever buckets they went to, ...
  lemma GivenApart(c: Plan, bs: seq<Bucket>, st: Progress, rs: seq<Request>, i: nat, v: nat, j: nat, w: nat)
    requires GoodPass(c, bs, st, rs) && i < j && IsGiven(st, rs, i, v) && IsGiven(st, rs, j, w)
    requires rs[i].category != F && rs[j].category != F
    ensures v != w
  {
    hide GoodPass, GoodPlan, Layable, Ordered, LayAll, Unique, Untouched, Find, AnswerAt, ServeAll, Placed, Passed;
    GivenLiesInBucket(c, bs, st, rs, i, v);
    GivenLiesInBucket(c, bs, st, rs, j, w);
    var k, l := ServedBy(st, rs, i), ServedBy(st, rs, j);
    PassIsSound(c, bs, st, rs);
    if k == l {
      SameBucketApart(c, bs, st, rs, i, j);
    } else if k < l {
      assert Apart(st.spots[k], st.spots[l]);
    } else {
      assert Apart(st.spots[l], st.spots[k]);
    }
  }

  // ... and requests with contents, for address space or file space, never share a file byte.
  lemma GivenContentsApart(c: Plan, bs: seq<Bucket>, st: Progress, rs: seq<Request>, i: nat, v: nat, j: nat, w: nat)
    requires GoodPass(c, bs, st, rs) && i < j && IsGiven(st, rs, i, v) && IsGiven(st, rs, j, w)
    requires rs[i].category != VRWZero && rs[j].category != VRWZero
    ensures var k, l := ServedBy(st, rs, i), ServedBy(st, rs, j);
            && k < |st.spots| && l < |st.spots|
            && st.spots[k].pos + (v - st.spots[k].bucket.start) != st.spots[l].pos + (w - st.spots[l].bucket.start)
  {
    hide GoodPass, GoodPlan, Layable, Ordered, LayAll, Unique, Untouched, Find, AnswerAt, ServeAll, SpotsSound;
    GivenLiesInBucket(c, bs, st, rs, i, v);
    GivenLiesInBucket(c, bs, st, rs, j, w);
    var k, l := ServedBy(st, rs, i), ServedBy(st, rs, j);
    PassIsSound(c, bs, st, rs);
    if k == l {
      SameBucketApart(c, bs, st, rs, i, j);
    }
    ContentsApart(c, st, k, v, l, w);
  }

  lemma PassIsSound(c: Plan, bs: seq<Bucket>, st: Progress, rs: seq<Request>)
    requires GoodPass(c, bs, st, rs)
    ensures SpotsSound(c, st)
  {
    hide LayAll, SpotsSound, ServeAll;
    LayAllSound(c, bs, |bs|);
  }

  lemma SameBucketApart(c: Plan, bs: seq<Bucket>, st: Progress, rs: seq<Request>, i: nat, j: nat)
    requires GoodPass(c, bs, st, rs) && i < j < |rs|
    requires ServedBy(st, rs, i) == ServedBy(st, rs, j) < |st.spots|
    ensures Given(st, rs, i) + rs[i].size <= Given(st, rs, j)
  {
    hide GoodPlan, Layable, Ordered, LayAll, Unique, Relaid, Untouched, Find, AnswerAt, ServeAll;
    LayoutRelays(c, bs);
    ServedDisjoint(State(BucketsOf(st.spots), false), rs, i, j);
  }
}

// Laying the allocation buckets out behind an existing file: new file space, new address space
// and the PT_LOAD segments that map one onto the other.
module Layout {
  import opened Words
  import opened Allocator

  const PF_X: nat := 1
  const PF_W: nat := 2
  const PF_R: nat := 4

  // A program header; `load` says that its type is PT_LOAD.
  datatype Phdr = Phdr(load: bool, flags: nat, offset: nat, vaddr: nat, filesz: nat, memsz: nat, align: nat)

  // ---------- Powers of two ----------

  lemma {:induction false} Pow2Divides(a: nat, b: nat)
    requires IsPow2(a) && IsPow2(b) && a <= b
    ensures b % a == 0
  {
    if a > 1 {
      Pow2Divides(a / 2, b / 2);
      var q := (b / 2) / (a / 2);
      assert b / 2 == q * (a / 2);
      assert q * a == 2 * (q * (a / 2));
      QuotientIs(b, a, q, 0);
    }
  }

  // ---------- Congruence ----------

  predicate Congruent(x: int, y: int, a: nat)
    requires a > 0
  {
    (x - y) % a == 0
  }

  lemma CongruentMeans(x: nat, y: nat, a: nat)
    requires a > 0
    ensures Congruent(x, y, a) <==> x % a == y % a
  {
    var p, q := x / a, y / a;
    assert x == p * a + x % a && y == q * a + y % a;
    assert (p - q) * a == p * a - q * a;
    if x % a >= y % a {
      QuotientIs(x - y, a, p - q, x % a - y % a);
    } else {
      assert (p - q - 1) * a == (p - q) * a - a;
      QuotientIs(x - y, a, p - q - 1, x % a - y % a + a);
    }
  }

  // The first address from `x` on that is congruent to `target`.
  function CongruentUp(x: nat, target: nat, a: nat): (r: nat)
    requires a > 0
  {
    var r := x - x % a + target % a;
    if r < x then r + a else r
  }

  lemma CongruentUpIs(x: nat, target: nat, a: nat)
    requires a > 0
    ensures x <= CongruentUp(x, target, a) < x + a
    ensures Congruent(CongruentUp(x, target, a), target, a)
  {
    var r, q, p := CongruentUp(x, target, a), x / a, target / a;
    assert x == q * a + x % a && target == p * a + target % a;
    assert (q - p) * a == q * a - p * a && (q - p + 1) * a == q * a - p * a + a;
    if x - x % a + target % a < x {
      QuotientIs(r - target, a, q - p + 1, 0);
    } else {
      QuotientIs(r - target, a, q - p, 0);
    }
  }

  // ---------- The layout as a function ----------

  // What the layout starts from: the page size, the end of the original file and of its segments
  // in the file and in memory, and the original segment that comes first.
  datatype Plan = Plan(page: nat, f0: nat, v0: nat, first: Option<Phdr>, noHeaders: bool)

  // A bucket that has its place: the segment it lies in, and where its contents lie in the file.
  datatype Spot = Spot(bucket: Bucket, home: nat, pos: nat)

  // `loads` are the new segments, `spots` the buckets placed so far.
  datatype Progress = Progress(f: nat, v: nat, loads: seq<Phdr>, spots: seq<Spot>)

  function FlagsFor(c: Category): nat {
    match c
    case VRX => PF_R + PF_X
    case VRW => PF_R + PF_W
    case VRWZero => PF_R + PF_W
    case _ => PF_R
  }

  function SizeOf(b: Bucket): int {
    (if b.current > b.end then b.current else b.end) - b.start
  }

  function LoadAlign(c: Plan, flags: nat): nat {
    if flags == PF_R && c.first.Some? && c.first.value.align > c.page then c.first.value.align else c.page
  }

  // Where a new segment goes in the file and in memory, before the bucket's own alignment.
  function OpenAt(c: Plan, f: nat, v: nat, flags: nat): (fv: (nat, nat))
    requires c.page > 0
  {
    var align := LoadAlign(c, flags);
    var v := CongruentUp(AlignUp(v, c.page), f, align);
    if flags == PF_R && c.first.Some? then
      var first := c.first.value;
      // The offset that the first segment would need in order to share the new headers' mapping.
      var required := first.vaddr + f - v;
      if required < 0 then
        (CongruentUp(f - (required - required % c.page), v, align), v)
      else if first.offset < required && first.filesz != 0
              && required - first.offset <= 0x40000 && (required - first.offset) % c.page == 0 then
        (f, v + (required - first.offset))
      else (f, v)
    else (f, v)
  }

  function OpenLoad(c: Plan, st: Progress, b: Bucket): (st': Progress)
    requires c.page > 0
  {
    var flags := FlagsFor(b.category);
    var (f, v) := OpenAt(c, st.f, st.v, flags);
    var bump := Padding(v, b.alignment);
    var f, v := f + bump, v + bump;
    // A file without headers gets its ELF header mapped by the first segment.
    var whole := f == v && c.noHeaders && st.loads == [] && flags == PF_R;
    var load := Phdr(true, flags, if whole then 0 else f, if whole then 0 else v, 0, 0, LoadAlign(c, flags));
    st.(f := f, v := v, loads := st.loads + [load])
  }

  function LastLoad(st: Progress): Phdr
    requires |st.loads| > 0
  {
    st.loads[|st.loads| - 1]
  }

  predicate NeedsLoad(st: Progress, b: Bucket) {
    |st.loads| == 0 || LastLoad(st).flags != FlagsFor(b.category)
  }

  // Extends the last segment by the bucket.
  function PlaceBucket(st: Progress, b: Bucket): (st': Progress)
    requires |st.loads| > 0 && SizeOf(b) >= 0
  {
    var ld := LastLoad(st);
    var bump := Padding(st.v, b.alignment);
    var start := st.v + bump;
    var end := start + SizeOf(b);
    var f := if b.category == VRWZero then st.f else st.f + bump + SizeOf(b);
    Progress(f, end,
             st.loads[|st.loads| - 1 := ld.(memsz := Clip(end - ld.vaddr), filesz := Clip(f - ld.offset))],
             st.spots + [Spot(Set(b, start, end), |st.loads| - 1, st.f + bump)])
  }

  function Set(b: Bucket, start: nat, end: nat): Bucket {
    b.(start := start, current := start, end := end)
  }

  function Clip(x: int): nat {
    if x < 0 then 0 else x
  }

  function PlaceInFile(st: Progress, b: Bucket): (st': Progress)
    requires SizeOf(b) >= 0
  {
    var start := AlignUp(st.f, b.alignment);
    var end := start + SizeOf(b);
    st.(f := end, spots := st.spots + [Spot(Set(b, start, end), 0, start)])
  }

  function Lay(c: Plan, st: Progress, b: Bucket): (st': Progress)
    requires c.page > 0 && SizeOf(b) >= 0
  {
    if b.category == F then PlaceInFile(st, b)
    else PlaceBucket(if NeedsLoad(st, b) then OpenLoad(c, st, b) else st, b)
  }

  ghost predicate Layable(bs: seq<Bucket>) {
    forall i :: 0 <= i < |bs| ==> bs[i].start <= bs[i].end
  }

  function LayAll(c: Plan, bs: seq<Bucket>, n: nat): (st: Progress)
    requires c.page > 0 && Layable(bs) && n <= |bs|
  {
    if n == 0 then Progress(c.f0, c.v0, [], []) else Lay(c, LayAll(c, bs, n - 1), bs[n - 1])
  }

  // ---------- Opening a segment ----------

  ghost predicate GoodPlan(c: Plan) {
    && IsPow2(c.page)
    && (c.first.Some? && c.first.value.align > 0 ==>
         IsPow2(c.first.value.align) && Congruent(c.first.value.vaddr, c.first.value.offset, c.first.value.align))
  }

  lemma LoadAlignIs(c: Plan, flags: nat)
    requires GoodPlan(c)
    ensures LoadAlign(c, flags) > 0 && LoadAlign(c, flags) % c.page == 0 && IsPow2(LoadAlign(c, flags))
  {
    Pow2Divides(c.page, LoadAlign(c, flags));
  }

  // File space and address space only grow, the address moves to a new page, and the two are
  // congruent.
  lemma OpenAtIs(c: Plan, f: nat, v: nat, flags: nat)
    requires GoodPlan(c)
    ensures var (f', v') := OpenAt(c, f, v, flags);
            && f <= f' && AlignUp(v, c.page) <= v' && Congruent(v', f', LoadAlign(c, flags))
            && (flags == 4 && c.first.Some? ==> 0 <= c.first.value.vaddr + f' - v')
  {
    var align := LoadAlign(c, flags);
    LoadAlignIs(c, flags);
    var v1 := CongruentUp(AlignUp(v, c.page), f, align);
    CongruentUpIs(AlignUp(v, c.page), f, align);
    if flags == PF_R && c.first.Some? {
      var first := c.first.value;
      var required := first.vaddr + f - v1;
      if required < 0 {
        var f1 := f - (required - required % c.page);
        CongruentUpIs(f1, v1, align);
        CongruentSwaps(CongruentUp(f1, v1, align), v1, align);
      } else {
        ExcessIsCongruent(c, f, v1, align);
      }
    }
  }

  // There is no earlier place, unless the first segment is to be moved to cover the new headers: then
  // file space is skipped by what its offset would fall below 0, rounded up, or address space by what
  // brings it to the offset that it has, if that is at most 256K.
  lemma OpenAtIsLeast(c: Plan, f: nat, v: nat, flags: nat, least: nat)
    requires GoodPlan(c) && Congruent(least, f, LoadAlign(c, flags))
    requires AlignUp(v, c.page) <= least < AlignUp(v, c.page) + LoadAlign(c, flags)
    ensures var (f', v') := OpenAt(c, f, v, flags);
            if flags != 4 || c.first.None? then (f', v') == (f, least)
            else
              var first := c.first.value;
              var needed := first.vaddr + f - least;
              if needed < 0 then v' == least && f' - f < c.page + LoadAlign(c, flags) - needed
              else
                && f' == f
                && (v' == least || first.vaddr + f - v' == first.offset)
                && (v' != least <==> 0 < needed - first.offset <= 256 * 1024 && first.filesz > 0
                                     && (needed - first.offset) % c.page == 0)
  {
    var align := LoadAlign(c, flags);
    LoadAlignIs(c, flags);
    CongruentUpIs(AlignUp(v, c.page), f, align);
    OnlyCongruent(least, CongruentUp(AlignUp(v, c.page), f, align), f, AlignUp(v, c.page), align);
    if flags == PF_R && c.first.Some? {
      var required := c.first.value.vaddr + f - least;
      if required < 0 {
        CongruentUpIs(f - (required - required % c.page), least, align);
      }
    }
  }

  // A number has one companion within each stretch of the modulus.
  lemma OnlyCongruent(x: int, y: int, target: int, from: int, a: nat)
    requires a > 0 && Congruent(x, target, a) && Congruent(y, target, a)
    requires from <= x < from + a && from <= y < from + a
    ensures x == y
  {
    CongruentSwaps(y, target, a);
    MultiplesAdd(x - target, target - y, a);
    assert (x - y) % a == 0;
    var d := if x < y then y - x else x - y;
    MultiplesAdd(0, x - y, a);
    assert d % a == 0 && 0 <= d < a;
  }

  lemma CongruentSwaps(x: int, y: int, a: nat)
    requires a > 0 && Congruent(x, y, a)
    ensures Congruent(y, x, a)
  {
    MultiplesAdd(0, x - y, a);
  }

  // Skipping address space up to the first segment's mapping keeps the congruence.
  lemma ExcessIsCongruent(c: Plan, f: nat, v: nat, align: nat)
    requires GoodPlan(c) && c.first.Some? && align == LoadAlign(c, PF_R) && Congruent(v, f, align)
    ensures var excess := c.first.value.vaddr + f - v - c.first.value.offset;
            excess % c.page == 0 ==> Congruent(v + excess, f, align)
  {
    var first := c.first.value;
    var excess := first.vaddr + f - v - first.offset;
    if align == first.align {
      MultiplesAdd(first.vaddr - first.offset, v - f, align);
      MultiplesAdd(v - f, excess, align);
    } else if excess % c.page == 0 {
      MultiplesAdd(v - f, excess, align);
    }
  }

  // ---------- What the layout keeps ----------

  function Rank(c: Category): nat {
    match c
    case F => 0
    case VR => 1
    case VRNearX => 2
    case VRX => 3
    case VRW => 4
    case VRWZero => 5
  }

  predicate FileBacked(b: Bucket) {
    b.category != VRWZero
  }

  ghost predicate GoodLoad(c: Plan, ld: Phdr)
    requires c.page > 0
  {
    && ld.load
    && ld.align > 0 && ld.align % c.page == 0
    && Congruent(ld.vaddr, ld.offset, ld.align)
    && ld.filesz <= ld.memsz
    && CoversHeaders(c, ld)
  }

  // The program headers go to a segment that is read-only. It is aligned like the first segment, and
  // that segment could be moved to cover the headers without its file offset becoming negative.
  ghost predicate CoversHeaders(c: Plan, ld: Phdr) {
    ld.flags == 4 && c.first.Some? ==>
      c.first.value.align <= ld.align && 0 <= c.first.value.vaddr + ld.offset - ld.vaddr
  }

  ghost predicate Before(c: Plan, a: Phdr, b: Phdr)
    requires c.page > 0
  {
    AlignUp(a.vaddr + a.memsz, c.page) <= b.vaddr && a.offset + a.filesz <= b.offset
  }

  ghost predicate AboveOriginal(c: Plan, ld: Phdr)
    requires c.page > 0
  {
    AlignUp(c.v0, c.page) <= ld.vaddr && c.f0 <= ld.offset
  }

  ghost predicate LoadsSound(c: Plan, loads: seq<Phdr>)
    requires c.page > 0
  {
    && (forall k :: 0 <= k < |loads| ==> GoodLoad(c, loads[k]))
    && (forall k, l :: 0 <= k < l < |loads| ==> Before(c, loads[k], loads[l]))
    && (forall k :: 0 <= k < |loads| ==> c.noHeaders || AboveOriginal(c, loads[k]))
  }

  // The layout has moved up to the end of the last segment.
  ghost predicate TipSound(c: Plan, st: Progress) {
    && c.f0 <= st.f && c.v0 <= st.v
    && (|st.loads| > 0 ==>
         && st.v == LastLoad(st).vaddr + LastLoad(st).memsz
         && st.f == LastLoad(st).offset + LastLoad(st).filesz)
  }

  // A bucket is aligned and lies in its segment; its contents lie behind the original file.
  ghost predicate Placed(c: Plan, loads: seq<Phdr>, s: Spot) {
    var b := s.bucket;
    && b.start % b.alignment == 0
    && b.current == b.start <= b.end
    && c.f0 <= s.pos
    && (if b.category == F then s.pos == b.start else s.home < |loads| && c.v0 <= b.start && InLoad(loads[s.home], s))
  }

  ghost predicate InLoad(ld: Phdr, s: Spot) {
    var b := s.bucket;
    && ld.flags == FlagsFor(b.category)
    && ld.vaddr <= b.start && b.end <= ld.vaddr + ld.memsz
    && (if FileBacked(b) then b.end <= ld.vaddr + ld.filesz && s.pos == b.start - ld.vaddr + ld.offset
        else ld.vaddr + ld.filesz <= b.start)
  }

  // Buckets follow each other in memory and, as far as they have contents, in the file.
  ghost predicate Apart(s: Spot, t: Spot) {
    var a, b := s.bucket, t.bucket;
    && Rank(a.category) <= Rank(b.category)
    && (a.category != F && b.category != F ==> a.end <= b.start)
    && (FileBacked(a) && FileBacked(b) ==> s.pos + (a.end - a.start) <= t.pos)
  }

  // The layout has moved past the bucket.
  ghost predicate Passed(st: Progress, s: Spot) {
    && (s.bucket.category != F ==> s.bucket.end <= st.v)
    && (FileBacked(s.bucket) ==> s.pos + (s.bucket.end - s.bucket.start) <= st.f)
  }

  ghost predicate SpotsSound(c: Plan, st: Progress) {
    && (forall i :: 0 <= i < |st.spots| ==> Placed(c, st.loads, st.spots[i]) && Passed(st, st.spots[i]))
    && (forall i, j :: 0 <= i < j < |st.spots| ==> Apart(st.spots[i], st.spots[j]))
  }

  // As long as only buckets with contents were placed in it, the last segment has no zero tail.
  ghost predicate Tight(st: Progress) {
    |st.loads| > 0 ==>
      && |st.spots| > 0 && st.spots[|st.spots| - 1].bucket.category != F
      && (FileBacked(st.spots[|st.spots| - 1].bucket) ==> LastLoad(st).filesz == LastLoad(st).memsz)
  }

  ghost predicate Sound(c: Plan, st: Progress)
    requires c.page > 0
  {
    LoadsSound(c, st.loads) && TipSound(c, st) && SpotsSound(c, st) && Tight(st)
  }

  // Buckets come in the order of their categories.
  ghost predicate Follows(st: Progress, b: Bucket) {
    |st.spots| > 0 ==> Rank(st.spots[|st.spots| - 1].bucket.category) <= Rank(b.category)
  }

  lemma PlaceInFileKeeps(c: Plan, st: Progress, b: Bucket)
    requires GoodPlan(c) && Sound(c, st) && Follows(st, b)
    requires b.start <= b.end && b.category == F
    ensures Sound(c, PlaceInFile(st, b))
  {
    AlignUpIsLeastMultiple(st.f, b.alignment);
  }

  // The state in which a bucket is added to the last segment.
  ghost predicate Ready(c: Plan, st: Progress, b: Bucket)
    requires c.page > 0
  {
    && |st.loads| > 0 && c.f0 <= st.f && c.v0 <= st.v
    && LoadsSound(c, st.loads) && SpotsSound(c, st)
    && LastLoad(st).flags == FlagsFor(b.category)
    && LastLoad(st).vaddr + LastLoad(st).memsz <= st.v
    && LastLoad(st).offset + LastLoad(st).filesz <= st.f
    && (if FileBacked(b) then st.f - LastLoad(st).offset == st.v - LastLoad(st).vaddr
        else LastLoad(st).filesz == st.f - LastLoad(st).offset <= st.v - LastLoad(st).vaddr)
  }

  lemma LoadsBelowTip(c: Plan, st: Progress, k: nat)
    requires IsPow2(c.page) && LoadsSound(c, st.loads) && TipSound(c, st) && k < |st.loads|
    ensures st.loads[k].vaddr + st.loads[k].memsz <= st.v
    ensures st.loads[k].offset + st.loads[k].filesz <= st.f
  {
    var ld := st.loads[k];
    AlignUpIsLeastMultiple(ld.vaddr + ld.memsz, c.page);
    if k < |st.loads| - 1 {
      assert Before(c, ld, LastLoad(st));
    }
  }

  lemma AppendLoad(c: Plan, st: Progress, ld: Phdr)
    requires IsPow2(c.page) && LoadsSound(c, st.loads) && TipSound(c, st) && GoodLoad(c, ld)
    requires (AlignUp(st.v, c.page) <= ld.vaddr && st.f <= ld.offset) || (st.loads == [] && c.noHeaders)
    ensures LoadsSound(c, st.loads + [ld])
  {
    var loads, n := st.loads + [ld], |st.loads|;
    if n > 0 || !c.noHeaders {
      forall k | 0 <= k < n
        ensures Before(c, st.loads[k], ld)
      {
        LoadsBelowTip(c, st, k);
        AlignUpMonotone(st.loads[k].vaddr + st.loads[k].memsz, st.v, c.page);
      }
      AlignUpMonotone(c.v0, st.v, c.page);
      assert AboveOriginal(c, ld);
    }
    forall k | 0 <= k < |loads|
      ensures GoodLoad(c, loads[k]) && (c.noHeaders || AboveOriginal(c, loads[k]))
    {
      assert k < n ==> loads[k] == st.loads[k];
    }
  }

  lemma SpotsStay(c: Plan, st: Progress, st': Progress)
    requires SpotsSound(c, st) && st'.spots == st.spots && st.f <= st'.f && st.v <= st'.v
    requires |st.loads| <= |st'.loads| && st'.loads[..|st.loads|] == st.loads
    ensures SpotsSound(c, st')
  {
    forall i | 0 <= i < |st.spots|
      ensures Placed(c, st'.loads, st.spots[i]) && Passed(st', st.spots[i])
    {
      var s := st.spots[i];
      assert Placed(c, st.loads, s) && Passed(st, s);
      if s.bucket.category != F {
        assert st'.loads[s.home] == st'.loads[..|st.loads|][s.home];
      }
    }
  }

  lemma NewLoadIsGood(c: Plan, st: Progress, b: Bucket)
    requires GoodPlan(c)
    ensures GoodLoad(c, LastLoad(OpenLoad(c, st, b)))
  {
    hide OpenAt, Padding, IsPow2;
    OpenAtIs(c, st.f, st.v, FlagsFor(b.category));
    LoadAlignIs(c, FlagsFor(b.category));
  }

  lemma OpenLoadReady(c: Plan, st: Progress, b: Bucket)
    requires GoodPlan(c) && Sound(c, st) && b.category != F
    ensures Ready(c, OpenLoad(c, st, b), b)
  {
    hide Before, AboveOriginal, OpenAt, Placed, Passed, Apart, SpotsSound, LoadsSound, Congruent, GoodLoad, Padding;
    OpenAtIs(c, st.f, st.v, FlagsFor(b.category));
    AlignUpIsLeastMultiple(st.v, c.page);
    var st' := OpenLoad(c, st, b);
    NewLoadIsGood(c, st, b);
    AppendLoad(c, st, LastLoad(st'));
    SpotsStay(c, st, st');
  }

  // Growing the last segment.
  lemma GrowLoad(c: Plan, loads: seq<Phdr>, ld: Phdr)
    requires c.page > 0 && LoadsSound(c, loads) && |loads| > 0 && GoodLoad(c, ld)
    requires var last := loads[|loads| - 1]; ld.vaddr == last.vaddr && ld.offset == last.offset
    ensures LoadsSound(c, loads[|loads| - 1 := ld])
  {
    var n := |loads| - 1;
    var loads' := loads[n := ld];
    forall k | 0 <= k < |loads'|
      ensures GoodLoad(c, loads'[k]) && (c.noHeaders || AboveOriginal(c, loads'[k]))
    {
      assert GoodLoad(c, loads[k]) && (c.noHeaders || AboveOriginal(c, loads[k]));
    }
    forall k, l | 0 <= k < l < |loads'|
      ensures Before(c, loads'[k], loads'[l])
    {
      assert Before(c, loads[k], loads[l]);
    }
  }

  lemma SpotsGrow(c: Plan, st: Progress, ld: Phdr, s: Spot, f: nat, v: nat)
    requires SpotsSound(c, st) && |st.loads| > 0 && st.f <= f && st.v <= v
    requires var last := LastLoad(st);
             ld == last.(memsz := ld.memsz, filesz := ld.filesz) && last.memsz <= ld.memsz && last.filesz <= ld.filesz
    requires Placed(c, st.loads[|st.loads| - 1 := ld], s) && s.bucket.category != F
    requires st.v <= s.bucket.start && s.bucket.end <= v
    requires Follows(st, s.bucket)
    requires if FileBacked(s.bucket) then st.f <= s.pos && s.pos + (s.bucket.end - s.bucket.start) <= f
             else ld.filesz == LastLoad(st).filesz
    ensures SpotsSound(c, Progress(f, v, st.loads[|st.loads| - 1 := ld], st.spots + [s]))
  {
    hide LoadsSound, TipSound, IsPow2;
    var st' := Progress(f, v, st.loads[|st.loads| - 1 := ld], st.spots + [s]);
    var n := |st.spots|;
    forall i | 0 <= i < |st'.spots|
      ensures Placed(c, st'.loads, st'.spots[i]) && Passed(st', st'.spots[i])
    {
      if i < n {
        assert Placed(c, st.loads, st.spots[i]) && Passed(st, st.spots[i]);
        assert i < n - 1 ==> Apart(st.spots[i], st.spots[n - 1]);
      }
    }
    forall i, j | 0 <= i < j < |st'.spots|
      ensures Apart(st'.spots[i], st'.spots[j])
    {
      if j < n {
        assert Apart(st.spots[i], st.spots[j]);
      } else {
        assert Passed(st, st.spots[i]);
        assert i < n - 1 ==> Apart(st.spots[i], st.spots[n - 1]);
      }
    }
  }

  lemma PlaceBucketKeeps(c: Plan, st: Progress, b: Bucket)
    requires GoodPlan(c) && Ready(c, st, b) && Follows(st, b)
    requires b.start <= b.end && b.category != F
    ensures Sound(c, PlaceBucket(st, b))
  {
    hide Before, AboveOriginal, SpotsSound, LoadsSound;
    PaddingReachesAlignment(st.v, b.alignment);
    AlignUpIsLeastMultiple(st.v, b.alignment);
    var st' := PlaceBucket(st, b);
    var s := st'.spots[|st.spots|];
    LastIsGood(c, st.loads);
    GrowLoad(c, st.loads, LastLoad(st'));
    SpotsGrow(c, st, LastLoad(st'), s, st'.f, st'.v);
  }

  lemma LastIsGood(c: Plan, loads: seq<Phdr>)
    requires c.page > 0 && |loads| > 0 && LoadsSound(c, loads)
    ensures GoodLoad(c, loads[|loads| - 1])
  {
  }

  // Adding to the segment that is already the last.
  lemma StaysReady(c: Plan, st: Progress, b: Bucket)
    requires GoodPlan(c) && Sound(c, st) && Follows(st, b) && !NeedsLoad(st, b) && b.category != F
    ensures Ready(c, st, b)
  {
    hide Before, AboveOriginal, SpotsSound, Placed;
    LastIsGood(c, st.loads);
  }

  lemma FollowsStill(c: Plan, st: Progress, b: Bucket)
    requires c.page > 0 && Follows(st, b)
    ensures Follows(OpenLoad(c, st, b), b)
  {
  }

  lemma LayKeeps(c: Plan, st: Progress, b: Bucket)
    requires GoodPlan(c) && Sound(c, st) && Follows(st, b) && b.start <= b.end
    ensures Sound(c, Lay(c, st, b))
  {
    hide Sound, Ready, NeedsLoad, OpenLoad, PlaceBucket, PlaceInFile, Follows;
    if b.category == F {
      PlaceInFileKeeps(c, st, b);
    } else if NeedsLoad(st, b) {
      OpenLoadReady(c, st, b);
      FollowsStill(c, st, b);
      PlaceBucketKeeps(c, OpenLoad(c, st, b), b);
    } else {
      StaysReady(c, st, b);
      PlaceBucketKeeps(c, st, b);
    }
  }

  ghost predicate Ordered(bs: seq<Bucket>) {
    forall i, j :: 0 <= i < j < |bs| ==> Rank(bs[i].category) <= Rank(bs[j].category)
  }

  // What a bucket turns into: it keeps what it serves and gets the size that was asked of it.
  ghost predicate Becomes(b: Bucket, s: Spot) {
    && Serves(s.bucket, b.category, b.alignment)
    && s.bucket.end - s.bucket.start == SizeOf(b)
  }

  lemma LayAdds(c: Plan, st: Progress, b: Bucket)
    requires GoodPlan(c) && b.start <= b.end
    ensures var st' := Lay(c, st, b);
            |st'.spots| == |st.spots| + 1 && st'.spots[..|st.spots|] == st.spots && Becomes(b, st'.spots[|st.spots|])
  {
  }

  lemma {:induction false} LayAllSound(c: Plan, bs: seq<Bucket>, n: nat)
    requires GoodPlan(c) && Layable(bs) && Ordered(bs) && n <= |bs|
    ensures Sound(c, LayAll(c, bs, n))
    ensures |LayAll(c, bs, n).spots| == n
    ensures forall i :: 0 <= i < n ==> Becomes(bs[i], LayAll(c, bs, n).spots[i])
    ensures c.f0 <= LayAll(c, bs, n).f
  {
    hide Lay, GoodLoad, Before, Placed, InLoad, Apart, Passed;
    if n > 0 {
      var st := LayAll(c, bs, n - 1);
      LayAllSound(c, bs, n - 1);
      if n > 1 {
        assert Becomes(bs[n - 2], st.spots[n - 2]);
      }
      LayKeeps(c, st, bs[n - 1]);
      LayAdds(c, st, bs[n - 1]);
      var st' := LayAll(c, bs, n);
      forall i | 0 <= i < n
        ensures Becomes(bs[i], st'.spots[i])
      {
        assert i < n - 1 ==> st'.spots[i] == st'.spots[..n - 1][i];
      }
    }
  }

  function BucketsOf(spots: seq<Spot>): (bs: seq<Bucket>)
    ensures |bs| == |spots| && forall i :: 0 <= i < |bs| ==> bs[i] == spots[i].bucket
  {
    seq(|spots|, i requires 0 <= i < |spots| => spots[i].bucket)
  }

  lemma PlacedRelays(c: Plan, st: Progress, i: nat, b: Bucket)
    requires c.page > 0 && Sound(c, st) && i < |st.spots| && Becomes(b, st.spots[i])
    ensures RelaidBucket(b, st.spots[i].bucket)
  {
    hide LoadsSound, TipSound, Apart, Tight, InLoad;
    assert Placed(c, st.loads, st.spots[i]);
  }

  lemma RelaidEach(bs: seq<Bucket>, after: seq<Bucket>)
    requires Unique(bs) && |after| == |bs| && forall i :: 0 <= i < |bs| ==> RelaidBucket(bs[i], after[i])
    ensures Relaid(bs, after) && Unique(after) && Untouched(after)
  {
    hide Find;
    forall category, alignment: PowerOf2
      ensures RelaidBucket(BucketFor(bs, category, alignment), BucketFor(after, category, alignment))
    {
      SamePlaces(bs, after, category, alignment);
    }
    forall category, alignment: PowerOf2
      ensures var b := BucketFor(after, category, alignment); b.current == b.start && b.start % alignment == 0
    {
      assert RelaidBucket(BucketFor(bs, category, alignment), BucketFor(after, category, alignment));
    }
  }

  // So laying out is a retry in the allocator's sense: the next pass starts from buckets that
  // are untouched, aligned, and large enough for the same requests.
  lemma LayoutRelays(c: Plan, bs: seq<Bucket>)
    requires GoodPlan(c) && Layable(bs) && Ordered(bs) && Unique(bs)
    ensures var after := BucketsOf(LayAll(c, bs, |bs|).spots);
            Relaid(bs, after) && Unique(after) && Untouched(after)
  {
    hide LayAll, Sound, Becomes, Unique, Relaid, Untouched, RelaidBucket, Ordered;
    var st := LayAll(c, bs, |bs|);
    var after := BucketsOf(st.spots);
    LayAllSound(c, bs, |bs|);
    forall i | 0 <= i < |bs|
      ensures RelaidBucket(bs[i], after[i])
    {
      PlacedRelays(c, st, i, bs[i]);
    }
    RelaidEach(bs, after);
  }

  lemma SamePlaces(bs: seq<Bucket>, after: seq<Bucket>, category: Category, alignment: PowerOf2)
    requires |after| == |bs|
    requires forall i :: 0 <= i < |bs| ==> RelaidBucket(bs[i], after[i])
    ensures Find(after, category, alignment) == Find(bs, category, alignment)
  {
    var i, j := Find(after, category, alignment), Find(bs, category, alignment);
    if i < |bs| {
      assert RelaidBucket(bs[i], after[i]);
    }
    if j < |bs| {
      assert RelaidBucket(bs[j], after[j]);
    }
  }

  // ---------- Permissions, and how many segments there are ----------

  // What the bits of p_flags say: 4 is readable, 2 writable, 1 executable. Only code is executable,
  // and only data that is to be written is writable.
  predicate Permits(flags: nat, c: Category) {
    && flags < 8 && flags / 4 == 1
    && (flags / 2 % 2 == 1 <==> c == VRW || c == VRWZero)
    && (flags % 2 == 1 <==> c == VRX)
  }

  // Every bucket in address space lies in a segment with the permissions that its category needs.
  lemma SpotPermissions(c: Plan, st: Progress, i: nat)
    requires c.page > 0 && Sound(c, st) && i < |st.spots| && st.spots[i].bucket.category != F
    ensures st.spots[i].home < |st.loads| && Permits(st.loads[st.spots[i].home].flags, st.spots[i].bucket.category)
  {
    hide LoadsSound, TipSound, Apart, Tight, Passed;
    assert Placed(c, st.loads, st.spots[i]);
  }

  ghost predicate HasCategory(bs: seq<Bucket>, n: nat, cs: set<Category>)
    requires n <= |bs|
  {
    exists i :: 0 <= i < n && bs[i].category in cs
  }

  // The segments come in the order of their permissions, no two have the same, and each is there
  // for some bucket; the last one for the bucket that was placed last.
  ghost predicate Stepped(bs: seq<Bucket>, n: nat, st: Progress)
    requires n <= |bs|
  {
    && (forall k, l :: 0 <= k < l < |st.loads| ==> st.loads[k].flags < st.loads[l].flags)
    && (forall k :: 0 <= k < |st.loads| ==> NeededFor(bs, n, st.loads[k].flags))
    && (|st.loads| > 0 ==>
          && |st.spots| > 0 && st.spots[|st.spots| - 1].bucket.category != F
          && Permits(LastLoad(st).flags, st.spots[|st.spots| - 1].bucket.category))
  }

  ghost predicate NeededFor(bs: seq<Bucket>, n: nat, flags: nat)
    requires n <= |bs|
  {
    exists i :: 0 <= i < n && bs[i].category != F && Permits(flags, bs[i].category)
  }

  lemma FlagsPermit(c: Category)
    requires c != F
    ensures Permits(FlagsFor(c), c)
    ensures forall d :: d != F && Rank(d) <= Rank(c) ==> FlagsFor(d) <= FlagsFor(c)
    ensures forall flags :: Permits(flags, c) ==> flags == FlagsFor(c)
  {
  }

  lemma LaySteps(c: Plan, bs: seq<Bucket>, n: nat, st: Progress)
    requires c.page > 0 && n < |bs| && Stepped(bs, n, st) && Follows(st, bs[n]) && SizeOf(bs[n]) >= 0
    ensures Stepped(bs, n + 1, Lay(c, st, bs[n]))
  {
    hide Permits, OpenAt, Padding, FlagsFor;
    var b, st' := bs[n], Lay(c, st, bs[n]);
    forall flags | NeededFor(bs, n, flags)
      ensures NeededFor(bs, n + 1, flags)
    {
    }
    if b.category != F {
      FlagsPermit(b.category);
      if |st.loads| > 0 {
        FlagsPermit(st.spots[|st.spots| - 1].bucket.category);
      }
      assert bs[n].category != F && Permits(LastLoad(st').flags, bs[n].category);
      assert NeededFor(bs, n + 1, LastLoad(st').flags);
    } else if |st.loads| > 0 {
      FIsFirst(st.spots[|st.spots| - 1].bucket.category);
    }
  }

  lemma FIsFirst(c: Category)
    ensures Rank(c) <= Rank(F) ==> c == F
  {
  }

  lemma {:induction false} LayAllSteps(c: Plan, bs: seq<Bucket>, n: nat)
    requires GoodPlan(c) && Layable(bs) && Ordered(bs) && n <= |bs|
    ensures Stepped(bs, n, LayAll(c, bs, n))
  {
    hide Lay, Sound, Stepped;
    if n == 0 {
      NothingStepped(c, bs);
    } else {
      LayAllSteps(c, bs, n - 1);
      LayAllSound(c, bs, n - 1);
      var st := LayAll(c, bs, n - 1);
      if n > 1 {
        assert Becomes(bs[n - 2], st.spots[n - 2]);
      }
      LaySteps(c, bs, n - 1, st);
    }
  }

  lemma NothingStepped(c: Plan, bs: seq<Bucket>)
    requires c.page > 0 && Layable(bs)
    ensures Stepped(bs, 0, LayAll(c, bs, 0))
  {
  }

  // As many program headers as are reserved for buckets of these categories.
  ghost function ExtraPhdrs(bs: seq<Bucket>): nat {
    (if HasCategory(bs, |bs|, {VR, VRNearX, VRX, VRW, VRWZero}) then 2 else 0) +
    (if HasCategory(bs, |bs|, {VRX}) then 1 else 0) + (if HasCategory(bs, |bs|, {VRW, VRWZero}) then 1 else 0)
  }

  // The sorted buckets need no more segments than are reserved, one being left over for others.
  lemma SegmentsFit(c: Plan, bs: seq<Bucket>)
    requires GoodPlan(c) && Layable(bs) && Ordered(bs)
    ensures var loads := LayAll(c, bs, |bs|).loads;
            && |loads| <= 3 && (loads == [] || |loads| + 1 <= ExtraPhdrs(bs))
            && forall k, l :: 0 <= k < l < |loads| ==> loads[k].flags != loads[l].flags
  {
    hide LayAll, Ordered, Layable;
    LayAllSteps(c, bs, |bs|);
    var loads := LayAll(c, bs, |bs|).loads;
    forall k | 0 <= k < |loads|
      ensures loads[k].flags in {4, 5, 6}
      ensures HasCategory(bs, |bs|, {VR, VRNearX, VRX, VRW, VRWZero})
      ensures loads[k].flags == 5 ==> HasCategory(bs, |bs|, {VRX})
      ensures loads[k].flags == 6 ==> HasCategory(bs, |bs|, {VRW, VRWZero})
    {
      assert NeededFor(bs, |bs|, loads[k].flags);
      var i :| 0 <= i < |bs| && bs[i].category != F && Permits(loads[k].flags, bs[i].category);
    }
    forall k | 0 <= k < |loads|
      ensures loads[k].flags >= 4 + k
    {
      FlagsClimb(loads, k);
    }
    assert |loads| > 0 ==> loads[|loads| - 1].flags in {4, 5, 6};
    assert |loads| > 1 ==> loads[1].flags in {4, 5, 6};
  }

  lemma {:induction false} FlagsClimb(loads: seq<Phdr>, k: nat)
    requires k < |loads| && loads[0].flags >= 4
    requires forall k, l :: 0 <= k < l < |loads| ==> loads[k].flags < loads[l].flags
    ensures loads[k].flags >= 4 + k
  {
    if k > 0 {
      FlagsClimb(loads, k - 1);
    }
  }
}

// When a branch over padding is safe: the lengths of the code that it spans decide it, or there is
// a function around it in which a pass moves a position left. The examples are functions of five
// sites, and their runs are given position by position.
module Retreat {
  import opened Words
  import opened Relaxation

  predicate IsMask(mask: u8) {
    mask in {1, 3, 7, 15, 31, 63, 127, 255}
  }

  // The last pass of the run moves position `m` left.
  ghost predicate MovesLeft(fn: Fn, run: seq<seq<nat>>, m: nat) {
    && IsRun(fn, run) && |run| >= 2 && m <= |fn.sites|
    && |run[|run| - 1]| == |run[|run| - 2]| == |fn.sites| + 1
    && run[|run| - 1][m] < run[|run| - 2][m]
  }

  // ---------- Branches over one align ----------

  // What a branch spans: `before` bytes of code, an align, and `after` bytes of code, which for a
  // branch backwards are those of its own site.
  datatype Span = Span(kind: BranchKind, forward: bool, before: nat, mask: u8, after: nat)

  predicate IsSpan(s: Span) {
    s.kind != Call && IsMask(s.mask) && (!s.forward ==> s.after > 0)
  }

  ghost predicate HasSpan(fn: Fn, i: nat, s: Span) {
    && i < |fn.sites| && Relaxable(fn, i) && fn.sites[i].reloc.kind == s.kind
    && if s.forward then
         && LabelOf(fn, i) == i + 3
         && fn.sites[i + 1].reloc == Align(s.mask) && |fn.sites[i + 1].code| == s.before
         && |fn.sites[i + 2].code| == s.after
       else
         && LabelOf(fn, i) + 1 == i
         && fn.sites[i - 1].reloc == Align(s.mask) && |fn.sites[i - 1].code| == s.before
         && |fn.sites[i].code| == s.after
  }

  // The function has such a branch, and no other branch spans padding.
  ghost predicate OnlySpan(fn: Fn, i: nat, s: Span) {
    && HasSpan(fn, i, s)
    && forall i' :: 0 <= i' < |fn.sites| && Relaxable(fn, i') && i' != i ==> SpansNoPadding(fn, i')
  }

  // Without padding the label is in reach, with all the padding there can be it is not.
  predicate Undecided(s: Span) {
    s.before + s.after < 0x80 <= s.before + s.after + s.mask
  }

  // No function around such a branch ever moves left.
  ghost predicate Safe(s: Span) {
    forall fn: Fn, run, i: nat, m: nat :: Resolvable(fn) && OnlySpan(fn, i, s) ==> !MovesLeft(fn, run, m)
  }

  // ---------- Decided spans ----------

  lemma PaddingIsBounded(x: nat, mask: u8)
    ensures x <= AlignUp(x, mask + 1) <= x + mask
  {
    AlignUpIsLeastMultiple(x, mask + 1);
  }

  lemma SpanBounds(fn: Fn, short: set<nat>, i: nat, s: Span, r: nat)
    requires IsSpan(s) && HasSpan(fn, i, s)
    ensures var c := s.before + s.after;
            if s.forward then
              r + c <= Nearest(fn, i + 1, i + 3, r) && Farthest(fn, short, i + 1, i + 3, r) <= r + c + s.mask
            else
              && r + c + 1 <= ShortEnd(fn, i, Nearest(fn, i - 1, i, r))
              && ShortEnd(fn, i, Farthest(fn, short, i - 1, i, r)) <= r + c + s.mask + 1
  {
    hide AlignUp;
    PaddingIsBounded(r + s.before, s.mask);
    if s.forward {
      LabelAt(fn, i);
      assert Nearest(fn, i + 1, i + 2, r) == AlignUp(r + s.before, s.mask + 1);
      assert Farthest(fn, short, i + 1, i + 2, r) == AlignUp(r + s.before, s.mask + 1);
    }
  }

  lemma LabelAt(fn: Fn, i: nat)
    requires i < |fn.sites| && Relaxable(fn, i) && LabelOf(fn, i) > 0
    ensures fn.sites[LabelOf(fn, i) - 1].reloc.DefLabel?
  {
    assert IsDefinition(fn.sites, fn.sites[i].reloc.name, LabelOf(fn, i));
  }

  lemma DecidedSpan(fn: Fn, i: nat, s: Span)
    requires IsSpan(s) && OnlySpan(fn, i, s) && !Undecided(s)
    ensures SpansDecided(fn)
  {
    hide Farthest, Nearest, ShortEnd, Relaxable, HasSpan;
    SpanFacts(fn, i, s);
    if s.before + s.after >= 0x80 {
      forall r | r in Starts(fn, {}, SpanStart(fn, i))
        ensures FallsShortFrom(fn, i, r)
      {
        SpanBounds(fn, {}, i, s, r);
      }
    } else {
      var short := ShortInRounds(fn, |fn.sites| - 1);
      forall r | r in Starts(fn, short, SpanStart(fn, i))
        ensures ReachesFrom(fn, short, i, r)
      {
        SpanBounds(fn, short, i, s, r);
      }
      assert i in AlwaysShort(fn);
    }
  }

  lemma SpanFacts(fn: Fn, i: nat, s: Span)
    requires IsSpan(s) && HasSpan(fn, i, s)
    ensures i < |fn.sites| && Relaxable(fn, i) && (s.forward <==> LabelOf(fn, i) > i)
    ensures SpanStart(fn, i) == if s.forward then i + 1 else i - 1
    ensures SpanEnd(fn, i) == if s.forward then i + 3 else i
  {
  }

  // ---------- Passes over a few sites ----------

  // The end of a local branch, by the displacement that its pass looks at.
  lemma BranchEnd(fn: Fn, prev: seq<nat>, cur: seq<nat>, i: nat, displacement: int)
    requires i < |fn.sites| && Relaxable(fn, i) && |prev| == |fn.sites| + 1 && i < |cur|
    requires var k := LabelOf(fn, i);
             if k > i then
               && prev[k] < 0x8000_0000 && prev[i + 1] < 0x8000_0000
               && displacement == prev[k] as int - prev[i + 1] as int
             else
               && k < |cur| && cur[k] < 0x8000_0000 && ShortEnd(fn, i, cur[i]) < 0x8000_0000
               && displacement == cur[k] as int - ShortEnd(fn, i, cur[i])
    ensures SiteEnd(fn, prev, cur, i) ==
            cur[i] + |fn.sites[i].code| +
            (if -0x80 <= displacement < 0x80 then 1 else if fn.sites[i].reloc.kind == Jcc then 5 else 4)
  {
    var k := LabelOf(fn, i);
    if k > i {
      ShortFitsIsByteRange(prev[k], prev[i + 1]);
    } else {
      ShortFitsIsByteRange(cur[k], ShortEnd(fn, i, cur[i]));
    }
  }

  lemma LabelEnd(fn: Fn, prev: seq<nat>, cur: seq<nat>, i: nat)
    requires i < |fn.sites| && |prev| == |fn.sites| + 1 && i < |cur|
    ensures fn.sites[i].reloc.DefLabel? ==> SiteEnd(fn, prev, cur, i) == cur[i] + |fn.sites[i].code|
    ensures fn.sites[i].reloc.Align? ==>
              SiteEnd(fn, prev, cur, i) == AlignUp(cur[i] + |fn.sites[i].code|, fn.sites[i].reloc.mask + 1)
  {
  }

  lemma PassOfFive(fn: Fn, prev: seq<nat>, next: seq<nat>)
    requires |fn.sites| == 5 && |prev| == |next| == 6 && next[0] == 0
    requires next[1] == SiteEnd(fn, prev, next, 0) && next[2] == SiteEnd(fn, prev, next, 1)
    requires next[3] == SiteEnd(fn, prev, next, 2) && next[4] == SiteEnd(fn, prev, next, 3)
    requires next[5] == SiteEnd(fn, prev, next, 4)
    ensures IsPass(fn, prev, next)
  {
    hide SiteEnd;
  }

  lemma RunOf(fn: Fn, run: seq<seq<nat>>)
    requires |run| >= 2 && run[0] == Zeros(|fn.sites| + 1) && IsPass(fn, run[0], run[1])
    requires |run| >= 3 ==> IsPass(fn, run[1], run[2])
    requires |run| >= 4 ==> IsPass(fn, run[2], run[3])
    requires |run| <= 4
    ensures IsRun(fn, run)
  {
    hide IsPass;
  }

  // A few short sites are no 2 GiB.
  lemma {:induction false} LongPositionBelow(fn: FnBase, n: nat)
    requires n <= |fn.sites| && forall i :: 0 <= i < n ==> |fn.sites[i].code| < 0x400 && !fn.sites[i].reloc.LabelLut?
    requires forall i :: 0 <= i < n && fn.sites[i].reloc.RipRef? ==> |fn.sites[i].reloc.imm| < 0x100
    ensures LongPosition(fn, n) <= n * 0x1000
  {
    if n > 0 {
      LongPositionBelow(fn, n - 1);
      var site := fn.sites[n - 1];
      if site.reloc.Align? {
        AlignUpIsLeastMultiple(LongPosition(fn, n - 1) + |site.code|, site.reloc.mask + 1);
      }
    }
  }

  lemma ShortPrograms(fn: FnBase)
    requires |fn.sites| < 0x100 && fn.tail == []
    requires forall i :: 0 <= i < |fn.sites| ==> |fn.sites[i].code| < 0x400
    requires forall i :: 0 <= i < |fn.sites| ==> !fn.sites[i].reloc.LabelLut? && !fn.sites[i].reloc.RipRef?
    ensures Fits(fn)
  {
    LongPositionBelow(fn, |fn.sites|);
  }

  // ---------- Undecided spans ----------

  // How much padding the first pass inserts, so that moving the align by `d` makes less do.
  function FirstPadding(s: Span, d: nat): nat
    requires Undecided(s)
  {
    if s.mask >= d then Max(0x80 - (s.before + s.after), d) else s.mask
  }

  lemma AlignUpTo(x: nat, a: nat, m: nat)
    requires a > 0 && m * a < x + a && x <= m * a
    ensures AlignUp(x, a) == m * a
  {
    QuotientIs(x + a - 1, a, m, x + a - 1 - m * a);
  }

  lemma Pads512(mask: u8, x: nat)
    requires IsMask(mask) && 512 - mask <= x <= 512
    ensures AlignUp(x, mask + 1) == 512
  {
    AlignUpTo(x, mask + 1, 512 / (mask + 1));
  }

  lemma LessPadding(s: Span, d: nat)
    requires IsSpan(s) && Undecided(s) && (d == 7 || d == 3)
    ensures var p := FirstPadding(s, d);
            var x := 512 - p + d;
            && 0x80 <= p + s.before + s.after && p + s.before <= 0x100 && p <= s.mask
            && AlignUp(512 - p, s.mask + 1) == 512
            && x <= AlignUp(x, s.mask + 1) <= 518
            && AlignUp(x, s.mask + 1) - x + s.before + s.after < 0x80
            && (d == 3 ==> AlignUp(x, s.mask + 1) <= 514)
  {
    hide AlignUp;
    var p := FirstPadding(s, d);
    Pads512(s.mask, 512 - p);
    if s.mask >= d {
      Pads512(s.mask, 512 - p + d);
    } else if s.mask == 3 {
      AlignUpTo(516, 4, 129);
    } else if d == 7 {
      AlignUpTo(518, 2, 259);
    } else {
      AlignUpTo(514, 2, 257);
    }
  }

  function Filler(n: nat): (s: seq<u8>)
    ensures |s| == n
  {
    seq(n, _ => 0x90)
  }

  function Opcode(kind: BranchKind): u8 {
    if kind == Jmp then 0xe9 else 0x74
  }

  // The examples start with a branch over 128 bytes, which is short in the first pass and long
  // from then on. In front of a branch forwards it is one of the other kind, so that together the
  // two grow by seven bytes.
  function Other(kind: BranchKind): BranchKind {
    if kind == Jmp then Jcc else Jmp
  }

  // By how much the long form is longer.
  function Growth(kind: BranchKind): nat {
    if kind == Jmp then 3 else 4
  }

  function Forward(s: Span): (fn: Fn)
    requires IsSpan(s) && Undecided(s)
  {
    var p := FirstPadding(s, 7);
    LessPadding(s, 7);
    var sites := [Site([Opcode(Other(s.kind))], Branch(Other(s.kind), 1)), Site(Filler(128), DefLabel(1)),
                  Site(Filler(380 - p - s.before) + [Opcode(s.kind)], Branch(s.kind, 2)),
                  Site(Filler(s.before), Align(s.mask)), Site(Filler(s.after), DefLabel(2))];
    var fn := Fn(sites, [], map[], map[0 := 0, 1 := 2, 2 := 5]);
    ShortPrograms(fn);
    fn
  }

  lemma ForwardFacts(s: Span)
    requires IsSpan(s) && Undecided(s)
    ensures var fn, p: int := Forward(s), FirstPadding(s, 7);
            && |fn.sites| == 5 && fn.labels == map[0 := 0, 1 := 2, 2 := 5]
            && |fn.sites[0].code| == 1 && fn.sites[0].reloc == Branch(Other(s.kind), 1)
            && |fn.sites[1].code| == 128 && fn.sites[1].reloc == DefLabel(1)
            && |fn.sites[2].code| == 381 - p - s.before && fn.sites[2].reloc == Branch(s.kind, 2)
            && |fn.sites[3].code| == s.before && fn.sites[3].reloc == Align(s.mask)
            && |fn.sites[4].code| == s.after && fn.sites[4].reloc == DefLabel(2)
  {
    LessPadding(s, 7);
  }

  function ForwardRun(s: Span): seq<seq<nat>>
    requires IsSpan(s) && Undecided(s)
  {
    var p, d := FirstPadding(s, 7), Growth(Other(s.kind));
    LessPadding(s, 7);
    var b: nat := 512 - p - s.before;
    var q, r := AlignUp(b + 7 + s.before, s.mask + 1), AlignUp(b + d + s.before, s.mask + 1);
    var first: seq<nat> := [0, 2, 130, b, 512, 512 + s.after];
    var long: seq<nat> := [0, 2 + d, 130 + d, b + 7, q, q + s.after];
    var short: seq<nat> := [0, 2 + d, 130 + d, b + d, r, r + s.after];
    [Zeros(6), first, long, short]
  }

  lemma ForwardRunFacts(s: Span, t: nat)
    requires IsSpan(s) && Undecided(s) && t < 3
    ensures |ForwardRun(s)| == 4
    ensures var prev, next := ForwardRun(s)[t], ForwardRun(s)[t + 1];
            var d, b: int := Growth(Other(s.kind)), 512 - FirstPadding(s, 7) - s.before;
            && |prev| == |next| == 6
            && next[0] == 0 && next[1] == (if t == 0 then 2 else 2 + d) && next[2] == next[1] + 128
            && next[3] == b + (if t == 0 then 0 else if t == 1 then 7 else d)
            && next[4] == AlignUp(next[3] + s.before, s.mask + 1) && next[5] == next[4] + s.after
            && (t == 0 ==> prev == Zeros(6))
            && (t > 0 ==> prev[2] == prev[1] + 128 && prev[5] == prev[4] + s.after)
            && (t == 1 ==> prev[5] >= prev[3] + 0x80)
            && (t == 2 ==> prev[3] <= prev[5] < prev[3] + 0x80)
            && prev[1] < 600 && prev[2] < 600 && prev[3] < 700 && prev[5] < 1000
  {
    hide AlignUp;
    LessPadding(s, 7);
  }

  lemma ForwardEnds(s: Span, t: nat, prev: seq<nat>, next: seq<nat>)
    requires IsSpan(s) && Undecided(s) && t < 3
    requires prev == ForwardRun(s)[t] && next == ForwardRun(s)[t + 1]
    ensures var fn := Forward(s);
            && |fn.sites| == 5 && |prev| == |next| == 6 && next[0] == 0
            && next[1] == SiteEnd(fn, prev, next, 0) && next[2] == SiteEnd(fn, prev, next, 1)
            && next[3] == SiteEnd(fn, prev, next, 2) && next[4] == SiteEnd(fn, prev, next, 3)
            && next[5] == SiteEnd(fn, prev, next, 4)
  {
    hide AlignUp, SiteEnd, IsPass, Fits, Forward, ForwardRun, FirstPadding;
    var fn := Forward(s);
    ForwardFacts(s);
    ForwardRunFacts(s, t);
    BranchEnd(fn, prev, next, 0, prev[2] as int - prev[1] as int);
    LabelEnd(fn, prev, next, 1);
    BranchEnd(fn, prev, next, 2, prev[5] as int - prev[3] as int);
    LabelEnd(fn, prev, next, 3);
    LabelEnd(fn, prev, next, 4);
  }

  lemma ForwardPass(s: Span, t: nat)
    requires IsSpan(s) && Undecided(s) && t < 3
    ensures |ForwardRun(s)| == 4 && IsPass(Forward(s), ForwardRun(s)[t], ForwardRun(s)[t + 1])
  {
    hide AlignUp, SiteEnd, IsPass, Fits, Forward, ForwardRun;
    ForwardRunFacts(s, t);
    ForwardEnds(s, t, ForwardRun(s)[t], ForwardRun(s)[t + 1]);
    PassOfFive(Forward(s), ForwardRun(s)[t], ForwardRun(s)[t + 1]);
  }

  lemma ForwardSpan(s: Span)
    requires IsSpan(s) && Undecided(s) && s.forward
    ensures OnlySpan(Forward(s), 2, s) && Resolvable(Forward(s))
  {
    hide Forward, FirstPadding;
    ForwardFacts(s);
  }

  lemma ForwardRetreats(s: Span)
    requires IsSpan(s) && Undecided(s) && s.forward
    ensures Resolvable(Forward(s)) && OnlySpan(Forward(s), 2, s) && MovesLeft(Forward(s), ForwardRun(s), 3)
  {
    hide IsPass, IsRun, Forward, ForwardRun, OnlySpan, Resolvable, AlignUp, FirstPadding;
    ForwardSpan(s);
    ForwardPass(s, 0);
    ForwardPass(s, 1);
    ForwardPass(s, 2);
    ForwardFacts(s);
    ForwardRunFacts(s, 0);
    ForwardRunFacts(s, 1);
    ForwardRunFacts(s, 2);
    RunOf(Forward(s), ForwardRun(s));
  }

  function Backward(s: Span): (fn: Fn)
    requires IsSpan(s) && Undecided(s) && !s.forward
  {
    var p := FirstPadding(s, 3);
    LessPadding(s, 3);
    var sites := [Site([0xe9], Branch(Jmp, 1)), Site(Filler(128), DefLabel(1)),
                  Site(Filler(382 - p - s.before), DefLabel(2)), Site(Filler(s.before), Align(s.mask)),
                  Site(Filler(s.after - 1) + [Opcode(s.kind)], Branch(s.kind, 2))];
    var fn := Fn(sites, [], map[], map[0 := 0, 1 := 2, 2 := 3]);
    ShortPrograms(fn);
    fn
  }

  lemma BackwardFacts(s: Span)
    requires IsSpan(s) && Undecided(s) && !s.forward
    ensures var fn, p: int := Backward(s), FirstPadding(s, 3);
            && |fn.sites| == 5 && fn.labels == map[0 := 0, 1 := 2, 2 := 3]
            && |fn.sites[0].code| == 1 && fn.sites[0].reloc == Branch(Jmp, 1)
            && |fn.sites[1].code| == 128 && fn.sites[1].reloc == DefLabel(1)
            && |fn.sites[2].code| == 382 - p - s.before && fn.sites[2].reloc == DefLabel(2)
            && |fn.sites[3].code| == s.before && fn.sites[3].reloc == Align(s.mask)
            && |fn.sites[4].code| == s.after && fn.sites[4].reloc == Branch(s.kind, 2)
  {
    LessPadding(s, 3);
  }

  function BackwardRun(s: Span): seq<seq<nat>>
    requires IsSpan(s) && Undecided(s)
  {
    var p := FirstPadding(s, 3);
    LessPadding(s, 3);
    var b: nat := 512 - p - s.before;
    var q := AlignUp(b + 3 + s.before, s.mask + 1);
    var first: seq<nat> := [0, 2, 130, b, 512, 513 + s.after + Growth(s.kind)];
    var second: seq<nat> := [0, 5, 133, b + 3, q, q + s.after + 1];
    [Zeros(6), first, second]
  }

  lemma BackwardRunFacts(s: Span, t: nat)
    requires IsSpan(s) && Undecided(s) && t < 2
    ensures |BackwardRun(s)| == 3
    ensures var prev, next := BackwardRun(s)[t], BackwardRun(s)[t + 1];
            var b: int := 512 - FirstPadding(s, 3) - s.before;
            && |prev| == |next| == 6
            && next[0] == 0 && next[1] == (if t == 0 then 2 else 5) && next[2] == next[1] + 128
            && next[3] == b + (if t == 0 then 0 else 3)
            && next[4] == AlignUp(next[3] + s.before, s.mask + 1)
            && next[5] == next[4] + s.after + 1 + (if t == 0 then Growth(s.kind) else 0)
            && (t == 0 ==> prev == Zeros(6) && next[4] + s.after + 1 > next[3] + 0x80)
            && (t == 1 ==> prev[2] == prev[1] + 128 && next[3] <= next[4] && next[4] + s.after + 1 <= next[3] + 0x80)
            && (t == 1 ==> next[5] < prev[5])
            && prev[1] < 600 && prev[2] < 600 && next[3] < 700 && next[4] < 700
  {
    hide AlignUp;
    LessPadding(s, 3);
  }

  lemma BackwardEnds(s: Span, t: nat, prev: seq<nat>, next: seq<nat>)
    requires IsSpan(s) && Undecided(s) && !s.forward && t < 2
    requires prev == BackwardRun(s)[t] && next == BackwardRun(s)[t + 1]
    ensures var fn := Backward(s);
            && |fn.sites| == 5 && |prev| == |next| == 6 && next[0] == 0
            && next[1] == SiteEnd(fn, prev, next, 0) && next[2] == SiteEnd(fn, prev, next, 1)
            && next[3] == SiteEnd(fn, prev, next, 2) && next[4] == SiteEnd(fn, prev, next, 3)
            && next[5] == SiteEnd(fn, prev, next, 4)
  {
    hide AlignUp, SiteEnd, IsPass, Fits, Backward, BackwardRun, FirstPadding;
    var fn := Backward(s);
    BackwardFacts(s);
    BackwardRunFacts(s, t);
    BranchEnd(fn, prev, next, 0, prev[2] as int - prev[1] as int);
    LabelEnd(fn, prev, next, 1);
    LabelEnd(fn, prev, next, 2);
    LabelEnd(fn, prev, next, 3);
    BranchEnd(fn, prev, next, 4, next[3] as int - ShortEnd(fn, 4, next[4]));
  }

  lemma BackwardPass(s: Span, t: nat)
    requires IsSpan(s) && Undecided(s) && !s.forward && t < 2
    ensures |BackwardRun(s)| == 3 && IsPass(Backward(s), BackwardRun(s)[t], BackwardRun(s)[t + 1])
  {
    hide AlignUp, SiteEnd, IsPass, Fits, Backward, BackwardRun;
    BackwardRunFacts(s, t);
    BackwardEnds(s, t, BackwardRun(s)[t], BackwardRun(s)[t + 1]);
    PassOfFive(Backward(s), BackwardRun(s)[t], BackwardRun(s)[t + 1]);
  }

  lemma BackwardSpan(s: Span)
    requires IsSpan(s) && Undecided(s) && !s.forward
    ensures OnlySpan(Backward(s), 4, s) && Resolvable(Backward(s))
  {
    hide Backward, FirstPadding;
    BackwardFacts(s);
  }

  lemma BackwardRetreats(s: Span)
    requires IsSpan(s) && Undecided(s) && !s.forward
    ensures Resolvable(Backward(s)) && OnlySpan(Backward(s), 4, s) && MovesLeft(Backward(s), BackwardRun(s), 5)
  {
    hide IsPass, IsRun, Backward, BackwardRun, OnlySpan, Resolvable, AlignUp, FirstPadding;
    BackwardSpan(s);
    BackwardPass(s, 0);
    BackwardPass(s, 1);
    BackwardFacts(s);
    BackwardRunFacts(s, 0);
    BackwardRunFacts(s, 1);
    RunOf(Backward(s), BackwardRun(s));
  }

  // ---------- The exact condition for such a span ----------

  // For every kind of branch, direction, alignment and lengths: if the lengths do not decide the
  // form, there is a function around the branch that retreats, ...
  lemma UndecidedCanRetreat(s: Span) returns (fn: Fn, run: seq<seq<nat>>, i: nat, m: nat)
    requires IsSpan(s) && Undecided(s)
    ensures Resolvable(fn) && OnlySpan(fn, i, s) && MovesLeft(fn, run, m)
  {
    hide Resolvable, OnlySpan, MovesLeft;
    if s.forward {
      ForwardRetreats(s);
      fn, run, i, m := Forward(s), ForwardRun(s), 2, 3;
    } else {
      BackwardRetreats(s);
      fn, run, i, m := Backward(s), BackwardRun(s), 4, 5;
    }
  }

  // ... and if they do, there is none.
  lemma SafeExactly(s: Span)
    requires IsSpan(s)
    ensures Safe(s) <==> !Undecided(s)
  {
    hide OnlySpan, Undecided, IsSpan, Resolvable;
    if Undecided(s) {
      var fn, run, i, m := UndecidedCanRetreat(s);
    } else {
      forall fn: Fn, run, i: nat, m: nat | Resolvable(fn) && OnlySpan(fn, i, s)
        ensures !MovesLeft(fn, run, m)
      {
        DecidedSpan(fn, i, s);
        if IsRun(fn, run) && |run| >= 2 && m <= |fn.sites| {
          NeverMovesLeft(fn, run, |run| - 2, m);
        }
      }
    }
  }
}

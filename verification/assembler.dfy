// `resolve_labels_for_func`: label scan, relaxation loop and emission pass over one function.
module Assembler {
  import opened Words
  import opened Relaxation
  import opened Emission
  import TableCode

  // How the function is left; everything but `Emitted` is one of the source's fatal exits.
  datatype Outcome =
    | Emitted(code: seq<u8>, relocs: seq<RunReloc>, positions: seq<nat>)
    | DuplicateLabel(site: nat)
    | UnresolvedName(site: nat)
    | MovedLeft(site: nat)
    | BadLut(site: nat)
    | Inconsistent

  // ---------- Label scan ----------

  // The labels of the first `n` sites, the function's own name being position 0.
  function LabelTable(f: Func, n: nat): (r: Option<Labels>)
    requires n <= |f.sites|
  {
    if n == 0 then Some(map[f.name := 0])
    else
      var r := LabelTable(f, n - 1);
      var reloc := f.sites[n - 1].reloc;
      if r.None? || !reloc.DefLabel? then r
      else if reloc.name in r.value then None
      else Some(r.value[reloc.name := n])
  }

  // The table holds exactly the function's name and the labels defined by the first `n` sites.
  ghost predicate Holds(f: Func, n: nat, L: Labels)
    requires n <= |f.sites|
  {
    && f.name in L && L[f.name] == 0
    && (forall name :: name in L ==> Backed(f, n, name, L[name]))
    && (forall j :: 0 <= j < n ==> f.sites[j].reloc.DefLabel? ==> Defines(L, f.sites[j].reloc.name, j + 1))
  }

  ghost predicate Backed(f: Func, n: nat, name: Name, k: nat) {
    if k == 0 then name == f.name else k <= n && k <= |f.sites| && f.sites[k - 1].reloc == DefLabel(name)
  }

  ghost predicate Defines(L: Labels, name: Name, k: nat) {
    name in L && L[name] == k
  }

  lemma {:induction false} LabelTableIsGood(f: Func, n: nat)
    requires n <= |f.sites| && LabelTable(f, n).Some?
    ensures Holds(f, n, LabelTable(f, n).value)
  {
    if n > 0 {
      LabelTableIsGood(f, n - 1);
      HoldsStep(f, n - 1, LabelTable(f, n - 1).value);
    }
  }

  lemma HoldsStep(f: Func, n: nat, L: Labels)
    requires n < |f.sites| && Holds(f, n, L)
    ensures var reloc := f.sites[n].reloc;
            (!reloc.DefLabel? ==> Holds(f, n + 1, L)) &&
            (reloc.DefLabel? && reloc.name !in L ==> Holds(f, n + 1, L[reloc.name := n + 1]))
  {
  }

  lemma HeldLabelsAreGood(f: Func, L: Labels)
    requires Holds(f, |f.sites|, L)
    ensures GoodLabels(f.sites, L)
  {
    forall name | name in L
      ensures IsDefinition(f.sites, name, L[name])
    {
      assert Backed(f, |f.sites|, name, L[name]);
    }
  }

  // Site `j` defines the function's own name, or a label that an earlier site defines.
  ghost predicate Redefines(f: Func, j: nat) {
    && j < |f.sites| && f.sites[j].reloc.DefLabel?
    && (f.sites[j].reloc.name == f.name || exists k :: 0 <= k < j && f.sites[k].reloc == f.sites[j].reloc)
  }

  lemma {:induction false} LabelTableFails(f: Func, n: nat)
    requires n <= |f.sites|
    ensures LabelTable(f, n).None? <==> exists j :: 0 <= j < n && Redefines(f, j)
  {
    if n > 0 {
      LabelTableFails(f, n - 1);
      if LabelTable(f, n - 1).Some? && f.sites[n - 1].reloc.DefLabel? {
        LabelTableIsGood(f, n - 1);
        HeldNames(f, n - 1, LabelTable(f, n - 1).value);
      }
    }
  }

  lemma HeldNames(f: Func, n: nat, L: Labels)
    requires n < |f.sites| && Holds(f, n, L) && f.sites[n].reloc.DefLabel?
    ensures f.sites[n].reloc.name in L <==> Redefines(f, n)
  {
    var name := f.sites[n].reloc.name;
    if name in L {
      assert Backed(f, n, name, L[name]);
    }
    if k :| 0 <= k < n && f.sites[k].reloc == f.sites[n].reloc {
      assert Defines(L, name, k + 1);
    }
  }

  // The table of the whole function, or the first definition that comes twice.
  method ScanLabels(f: Func) returns (r: Option<Labels>, site: nat)
    ensures r == LabelTable(f, |f.sites|)
    ensures r.Some? ==> Holds(f, |f.sites|, r.value) && forall j :: 0 <= j < |f.sites| ==> !Redefines(f, j)
    ensures r.None? ==> Redefines(f, site) && forall j :: 0 <= j < site ==> !Redefines(f, j)
  {
    var labels: Labels := map[f.name := 0];
    site := 0;
    for i := 0 to |f.sites|
      invariant LabelTable(f, i) == Some(labels)
    {
      var reloc := f.sites[i].reloc;
      if reloc.DefLabel? {
        if reloc.name in labels {
          LabelTableFails(f, i);
          LabelTableFails(f, i + 1);
          LabelTableFails(f, |f.sites|);
          return None, i;
        }
        labels := labels[reloc.name := i + 1];
      }
    }
    r := Some(labels);
    LabelTableFails(f, |f.sites|);
    LabelTableIsGood(f, |f.sites|);
  }

  // ---------- Relaxation ----------

  // The first `n` sites of the pass that follows `prev`.
  function NextPrefix(fn: Fn, prev: seq<nat>, n: nat): (s: seq<nat>)
    requires |prev| == |fn.sites| + 1 && n <= |fn.sites|
    ensures |s| == n + 1 && s[0] == 0
  {
    if n == 0 then [0]
    else
      var s := NextPrefix(fn, prev, n - 1);
      s + [SiteEnd(fn, prev, s, n - 1)]
  }

  function NextPass(fn: Fn, prev: seq<nat>): (s: seq<nat>)
    requires |prev| == |fn.sites| + 1
  {
    NextPrefix(fn, prev, |fn.sites|)
  }

  lemma {:induction false} NextPrefixIsPrefix(fn: Fn, prev: seq<nat>, m: nat, n: nat)
    requires |prev| == |fn.sites| + 1 && m <= n <= |fn.sites|
    ensures NextPrefix(fn, prev, m) == NextPrefix(fn, prev, n)[..m + 1]
    decreases n
  {
    if m < n {
      NextPrefixIsPrefix(fn, prev, m, n - 1);
    }
  }

  lemma NextPassIsPass(fn: Fn, prev: seq<nat>)
    requires |prev| == |fn.sites| + 1
    ensures IsPass(fn, prev, NextPass(fn, prev))
  {
    var next := NextPass(fn, prev);
    forall i | 0 <= i < |fn.sites|
      ensures next[i + 1] == SiteEnd(fn, prev, next, i)
    {
      var s := NextPrefix(fn, prev, i);
      NextPrefixIsPrefix(fn, prev, i, |fn.sites|);
      NextPrefixIsPrefix(fn, prev, i + 1, |fn.sites|);
      assert next[i + 1] == NextPrefix(fn, prev, i + 1)[i + 1];
      assert s[i] == next[i];
      if Relaxable(fn, i) && fn.labels[fn.sites[i].reloc.name] <= i {
        assert s[fn.labels[fn.sites[i].reloc.name]] == next[fn.labels[fn.sites[i].reloc.name]];
      }
    }
  }

  // Room left below the all-long bound, summed over all positions.
  function Slack(fn: Fn, p: seq<nat>, n: nat): (s: int)
    requires n <= |p| && |p| == |fn.sites| + 1
  {
    if n == 0 then 0 else Slack(fn, p, n - 1) + LongPosition(fn, n - 1) - p[n - 1]
  }

  lemma {:induction false} SlackShrinks(fn: Fn, p: seq<nat>, q: seq<nat>, n: nat)
    requires |p| == |q| == |fn.sites| + 1 && n <= |p| && Bounded(fn, q)
    requires forall i :: 0 <= i < n ==> p[i] <= q[i]
    ensures 0 <= Slack(fn, q, n) <= Slack(fn, p, n)
    ensures p[..n] != q[..n] ==> Slack(fn, q, n) < Slack(fn, p, n)
  {
    if n > 0 {
      SlackShrinks(fn, p, q, n - 1);
      assert p[..n] == p[..n - 1] + [p[n - 1]];
      assert q[..n] == q[..n - 1] + [q[n - 1]];
    }
  }

  lemma PassIsBounded(fn: Fn, prev: seq<nat>, next: seq<nat>)
    requires IsPass(fn, prev, next)
    ensures Bounded(fn, next)
  {
    forall i | 0 <= i <= |fn.sites|
      ensures next[i] <= LongPosition(fn, i) < 0x8000_0000
    {
      LongPositionMonotone(fn, i, |fn.sites|);
      PassUnderLongBound(fn, prev, next, i);
    }
  }

  // The end of site `i`, which starts at `off`, read off the array that still holds the last
  // pass's positions beyond index `i`.
  method PlaceSite(fn: Fn, positions: array<nat>, i: nat, off: nat, ghost prev: seq<nat>)
    returns (end: nat)
    requires i < |fn.sites|
    requires |prev| == |fn.sites| + 1 && positions[..] == NextPrefix(fn, prev, i) + prev[i + 1..]
    requires off == positions[i]
    ensures end == SiteEnd(fn, prev, NextPrefix(fn, prev, i), i)
  {
    ghost var cur := NextPrefix(fn, prev, i);
    assert forall k :: 0 <= k <= i ==> positions[k] == positions[..][k] == cur[k];
    assert forall k :: i < k <= |fn.sites| ==> positions[k] == positions[..][k] == prev[k];
    var Site(code, reloc) := fn.sites[i];
    end := off + |code|;
    match reloc
    case RipRef(imm, _) =>
      end := end + 4 + |imm|;
    case Branch(kind, name) =>
      if name in fn.labels {
        if kind != Call {
          var k := fn.labels[name];
          assert k > i ==> k != i + 1;
          var d := Sub32(positions[k], if k >= i + 1 then positions[i + 1] else end + 1);
          assert d == if k > i then Sub32(prev[k], prev[i + 1]) else Sub32(cur[k], ShortEnd(fn, i, cur[i]));
          if ShortFits(d) {
            return end + 1;
          }
        }
      } else if name in fn.globals && fn.globals[name].isExtern {
        end := end + 1;
      }
      end := end + 4 + (if kind == Jcc then 1 else 0);
    case Align(mask) =>
      end := AlignUp(end, mask + 1);
    case LabelLut(reg, _) =>
      end := end + 30;
      if reg >= 4 { end := end + 1; }
      if reg % 8 == 5 { end := end + 1; }
    case DefLabel(_) =>
    case PhantomRef(_) =>
  }

  datatype Relaxed = Settled | Unresolved(site: nat) | Retreat(site: nat)

  datatype Moved = Left | Not | Right

  // Places site `i` and records its end, unless that would move it left.
  method PlaceNext(fn: Fn, positions: array<nat>, i: nat, off: nat, ghost prev: seq<nat>)
    returns (end: nat, moved: Moved)
    requires i < |fn.sites|
    requires |prev| == |fn.sites| + 1 && positions[..] == NextPrefix(fn, prev, i) + prev[i + 1..]
    requires off == NextPrefix(fn, prev, i)[i]
    modifies positions
    ensures NextPrefix(fn, prev, i + 1) == NextPrefix(fn, prev, i) + [end]
    ensures moved == if end < prev[i + 1] then Left else if end == prev[i + 1] then Not else Right
    ensures moved != Left ==> positions[..] == NextPrefix(fn, prev, i + 1) + prev[i + 2..]
  {
    ghost var cur := NextPrefix(fn, prev, i);
    assert off == positions[..][i] && prev[i + 1] == positions[..][i + 1];
    end := PlaceSite(fn, positions, i, off, prev);
    if end < positions[i + 1] {
      return end, Left;
    }
    moved := if end == positions[i + 1] then Not else Right;
    GrowPrefix(prev, cur, end);
    positions[i + 1] := end;
    assert positions[..] == (cur + prev[i + 1..])[i + 1 := end];
  }

  // The first `n` sites resolve their names and are placed no further left than before.
  ghost predicate Advances(fn: Fn, prev: seq<nat>, n: nat)
    requires |prev| == |fn.sites| + 1 && n <= |fn.sites|
  {
    n == 0 || (Advances(fn, prev, n - 1) && Resolves(fn, n - 1) && prev[n] <= NextPrefix(fn, prev, n)[n])
  }

  ghost predicate AnyMoves(fn: Fn, prev: seq<nat>, n: nat)
    requires |prev| == |fn.sites| + 1 && n <= |fn.sites|
  {
    n > 0 && (AnyMoves(fn, prev, n - 1) || prev[n] != NextPrefix(fn, prev, n)[n])
  }

  lemma {:induction false} AdvancesMeans(fn: Fn, prev: seq<nat>, n: nat)
    requires |prev| == |fn.sites| + 1 && n <= |fn.sites| && prev[0] == 0
    requires Advances(fn, prev, n)
    ensures forall j :: 0 <= j < n ==> Resolves(fn, j)
    ensures forall j :: 0 <= j <= n ==> prev[j] <= NextPrefix(fn, prev, n)[j]
    ensures AnyMoves(fn, prev, n) <==> NextPrefix(fn, prev, n) != prev[..n + 1]
  {
    if n > 0 {
      AdvancesMeans(fn, prev, n - 1);
      GrowPrefix(prev, NextPrefix(fn, prev, n - 1), NextPrefix(fn, prev, n)[n]);
    }
  }

  // One pass over all sites, in place.
  method Pass(fn: Fn, positions: array<nat>) returns (r: Relaxed, unstable: bool, nReloc: nat)
    requires positions.Length == |fn.sites| + 1 && positions[0] == 0
    modifies positions
    ensures r.Settled? ==>
              && positions[..] == NextPass(fn, old(positions[..]))
              && Advances(fn, old(positions[..]), |fn.sites|)
              && unstable == AnyMoves(fn, old(positions[..]), |fn.sites|)
              && nReloc == CountRelocs(fn, |fn.sites|)
    ensures r.Unresolved? ==>
              r.site < |fn.sites| && Advances(fn, old(positions[..]), r.site) && !Resolves(fn, r.site)
    ensures r.Retreat? ==>
              && r.site < |fn.sites| && Advances(fn, old(positions[..]), r.site)
              && NextPass(fn, old(positions[..]))[r.site + 1] < old(positions[r.site + 1])
  {
    hide Resolves, RelocsAt, SiteEnd;
    ghost var prev := positions[..];
    var off := 0;
    unstable := false;
    nReloc := 0;
    for i := 0 to |fn.sites|
      invariant positions[..] == NextPrefix(fn, prev, i) + prev[i + 1..]
      invariant off == NextPrefix(fn, prev, i)[i]
      invariant Advances(fn, prev, i)
      invariant unstable == AnyMoves(fn, prev, i)
      invariant nReloc == CountRelocs(fn, i)
    {
      if !Resolves(fn, i) {
        return Unresolved(i), unstable, nReloc;
      }
      var moved;
      off, moved := PlaceNext(fn, positions, i, off, prev);
      if moved == Left {
        NextPrefixIsPrefix(fn, prev, i + 1, |fn.sites|);
        return Retreat(i), unstable, nReloc;
      }
      unstable := unstable || moved == Right;
      nReloc := nReloc + RelocsAt(fn, i);
    }
    assert positions[..] == NextPass(fn, prev);
    r := Settled;
  }

  lemma GrowPrefix(prev: seq<nat>, cur: seq<nat>, x: nat)
    requires |cur| < |prev|
    ensures (cur + prev[|cur|..])[|cur| := x] == cur + [x] + prev[|cur| + 1..]
    ensures cur + [x] == prev[..|cur| + 1] <==> cur == prev[..|cur|] && x == prev[|cur|]
  {
    assert prev[..|cur| + 1] == prev[..|cur|] + [prev[|cur|]];
  }

  // All passes of a run but possibly the last changed something.
  ghost predicate Changing(run: seq<seq<nat>>, n: nat) {
    forall u :: 0 < u < n && u < |run| ==> run[u - 1] != run[u]
  }

  lemma ExtendRun(fn: Fn, run: seq<seq<nat>>, next: seq<nat>)
    requires IsRun(fn, run) && Changing(run, |run|) && IsPass(fn, run[|run| - 1], next)
    ensures var run' := run + [next];
            && IsRun(fn, run')
            && Changing(run', |run|) && (Rising(run, |run|) ==> Rising(run', |run|))
            && (run[|run| - 1] != next ==> Changing(run', |run'|))
  {
  }

  // What follows from a pass that placed every site.
  lemma PassCompletes(fn: Fn, prev: seq<nat>)
    requires Bounded(fn, prev) && prev[0] == 0 && Advances(fn, prev, |fn.sites|)
    ensures var next := NextPass(fn, prev);
            && Bounded(fn, next)
            && Resolvable(fn)
            && (AnyMoves(fn, prev, |fn.sites|) <==> next != prev)
            && Slack(fn, next, |next|) >= 0
            && (next == prev ==> Stable(fn, next))
            && (next != prev ==> Slack(fn, next, |next|) < Slack(fn, prev, |prev|))
  {
    var next := NextPass(fn, prev);
    NextPassIsPass(fn, prev);
    PassIsBounded(fn, prev, next);
    AdvancesMeans(fn, prev, |fn.sites|);
    assert prev[..|next|] == prev && next[..|next|] == next;
    SlackShrinks(fn, prev, next, |next|);
  }

  method Clear(positions: array<nat>)
    modifies positions
    ensures positions[..] == Zeros(positions.Length)
  {
    for j := 0 to positions.Length
      invariant forall u :: 0 <= u < j ==> positions[u] == 0
    {
      positions[j] := 0;
    }
  }

  // Positions move apart until a pass changes none of them.
  method Relax(fn: Fn, positions: array<nat>) returns (r: Relaxed, nReloc: nat, ghost run: seq<seq<nat>>)
    requires positions.Length == |fn.sites| + 1
    modifies positions
    ensures IsRun(fn, run) && Changing(run, |run| - 1)
    ensures SpansDecided(fn) ==> |run| - 1 <= |RelaxableSites(fn)| + 2
    ensures r.Settled? ==>
              Stable(fn, positions[..]) && Settles(fn, run, positions[..]) && nReloc == CountRelocs(fn, |fn.sites|)
    ensures r.Unresolved? ==>
              r.site < |fn.sites| && !Resolves(fn, r.site) && forall j :: 0 <= j < r.site ==> Resolves(fn, j)
    ensures r.Retreat? ==> Resolvable(fn) && RetreatsFirst(fn, run, r.site)
  {
    hide IsRun, IsPass, Stable, Resolvable, SpansDecided, RelaxableSites, Advances, AnyMoves, CountRelocs, Resolves,
         Slack, LongPosition, Changing, Rising, Settles, RetreatsFirst;
    Clear(positions);
    run := [positions[..]];
    RunStarts(fn);
    nReloc := 0;
    var unstable := true;
    while unstable
      invariant |run| > 0 && IsRun(fn, run) && run[|run| - 1] == positions[..]
      invariant Changing(run, if unstable then |run| else |run| - 1)
      invariant Rising(run, |run|) && (|run| > 1 ==> Resolvable(fn))
      invariant !unstable ==> Settles(fn, run, positions[..])
      invariant Bounded(fn, positions[..]) && positions[0] == 0
      invariant !unstable ==> Stable(fn, positions[..]) && nReloc == CountRelocs(fn, |fn.sites|)
      decreases Slack(fn, positions[..], |fn.sites| + 1), unstable
    {
      ghost var prev := positions[..];
      NextPassIsPass(fn, prev);
      ExtendRun(fn, run, NextPass(fn, prev));
      run := run + [NextPass(fn, prev)];
      r, unstable, nReloc := Pass(fn, positions);
      if !r.Settled? {
        AdvancesMeans(fn, prev, r.site);
        if r.Retreat? { RetreatIsFirst(fn, run, r.site); }
        FewPasses(fn, run);
        return;
      }
      PassCompletes(fn, prev);
      RunRises(fn, run);
    }
    FewPasses(fn, run);
    r := Settled;
  }

  lemma FewPasses(fn: Fn, run: seq<seq<nat>>)
    requires IsRun(fn, run) && Changing(run, |run| - 1)
    ensures SpansDecided(fn) ==> |run| - 1 <= |RelaxableSites(fn)| + 2
  {
    if SpansDecided(fn) {
      PassesAreFew(fn, run);
    }
  }

  lemma RunStarts(fn: Fn)
    ensures IsRun(fn, [Zeros(|fn.sites| + 1)]) && Bounded(fn, Zeros(|fn.sites| + 1))
    ensures Changing([Zeros(|fn.sites| + 1)], 1) && Rising([Zeros(|fn.sites| + 1)], 1)
  {
    RunIsBounded(fn, [Zeros(|fn.sites| + 1)], 0);
  }

  // None of the first `n` positions lies further left.
  ghost predicate NotLeft(a: seq<nat>, b: seq<nat>, n: nat) {
    n <= |a| == |b| && forall j :: 0 <= j < n ==> a[j] <= b[j]
  }

  ghost predicate Rising(run: seq<seq<nat>>, n: nat) {
    forall u :: 0 < u < n && u < |run| ==> NotLeft(run[u - 1], run[u], |run[u]|)
  }

  // The run ends with a pass that changes nothing, and no pass of it moves anything left.
  ghost predicate Settles(fn: Fn, run: seq<seq<nat>>, p: seq<nat>) {
    IsRun(fn, run) && Rising(run, |run|) && |run| > 1 && p == run[|run| - 1] == run[|run| - 2]
  }

  // The run ends with the first pass that moves anything left, and `site` is the first that is moved.
  ghost predicate RetreatsFirst(fn: Fn, run: seq<seq<nat>>, site: nat) {
    && IsRun(fn, run) && Rising(run, |run| - 1) && Retreats(fn, run, site)
    && NotLeft(run[|run| - 2], run[|run| - 1], site + 1)
  }

  lemma RunRises(fn: Fn, run: seq<seq<nat>>)
    requires IsRun(fn, run) && |run| > 1 && Rising(run, |run| - 1)
    requires |run[|run| - 2]| == |fn.sites| + 1 && run[|run| - 2][0] == 0
    requires run[|run| - 1] == NextPass(fn, run[|run| - 2]) && Advances(fn, run[|run| - 2], |fn.sites|)
    ensures Rising(run, |run|)
    ensures run[|run| - 1] == run[|run| - 2] ==> Settles(fn, run, run[|run| - 1])
  {
    hide IsRun, Advances, NextPrefix;
    AdvancesMeans(fn, run[|run| - 2], |fn.sites|);
    assert NotLeft(run[|run| - 2], run[|run| - 1], |fn.sites| + 1);
  }

  lemma RetreatIsFirst(fn: Fn, run: seq<seq<nat>>, site: nat)
    requires IsRun(fn, run) && |run| > 1 && Rising(run, |run| - 1) && site < |fn.sites|
    requires |run[|run| - 2]| == |fn.sites| + 1 && run[|run| - 2][0] == 0
    requires run[|run| - 1] == NextPass(fn, run[|run| - 2]) && Advances(fn, run[|run| - 2], site)
    requires run[|run| - 1][site + 1] < run[|run| - 2][site + 1]
    ensures RetreatsFirst(fn, run, site) && |run| > 2
  {
    hide IsPass, Advances, NextPrefix;
    AdvancesMeans(fn, run[|run| - 2], site);
    NextPrefixIsPrefix(fn, run[|run| - 2], site, |fn.sites|);
    var before, upTo := run[|run| - 2], NextPrefix(fn, run[|run| - 2], site);
    assert upTo == run[|run| - 1][..site + 1];
    forall j | 0 <= j < site + 1
      ensures before[j] <= run[|run| - 1][j]
    {
      assert before[j] <= upTo[j];
    }
  }

  // Where a run goes is determined, ...
  lemma {:induction false} OnePass(fn: Fn, prev: seq<nat>, a: seq<nat>, b: seq<nat>, n: nat)
    requires IsPass(fn, prev, a) && IsPass(fn, prev, b) && n <= |fn.sites|
    ensures a[..n + 1] == b[..n + 1]
  {
    if n > 0 {
      OnePass(fn, prev, a, b, n - 1);
      SameEnd(fn, prev, a, b, n - 1);
      assert a[..n + 1] == a[..n] + [a[n]] && b[..n + 1] == b[..n] + [b[n]];
    }
  }

  lemma SameEnd(fn: Fn, prev: seq<nat>, a: seq<nat>, b: seq<nat>, i: nat)
    requires IsPass(fn, prev, a) && IsPass(fn, prev, b) && i < |fn.sites| && a[..i + 1] == b[..i + 1]
    ensures a[i + 1] == b[i + 1]
  {
    assert a[i + 1] == SiteEnd(fn, prev, a, i) && b[i + 1] == SiteEnd(fn, prev, b, i);
    assert a[i] == a[..i + 1][i] == b[..i + 1][i] == b[i];
    if Relaxable(fn, i) && LabelOf(fn, i) <= i {
      assert a[LabelOf(fn, i)] == a[..i + 1][LabelOf(fn, i)] == b[..i + 1][LabelOf(fn, i)];
    }
  }

  lemma {:induction false} RunsAgree(fn: Fn, run: seq<seq<nat>>, run': seq<seq<nat>>, t: nat)
    requires IsRun(fn, run) && IsRun(fn, run') && t < |run| && t < |run'|
    ensures run[t] == run'[t]
  {
    hide IsPass;
    if t > 0 {
      RunsAgree(fn, run, run', t - 1);
      assert IsPass(fn, run[t - 1], run[t]) && IsPass(fn, run'[t - 1], run'[t]);
      SamePass(fn, run[t - 1], run[t], run'[t]);
    }
  }

  lemma SamePass(fn: Fn, prev: seq<nat>, a: seq<nat>, b: seq<nat>)
    requires IsPass(fn, prev, a) && IsPass(fn, prev, b)
    ensures a == b
  {
    OnePass(fn, prev, a, b, |fn.sites|);
    assert a[..|a|] == a && b[..|b|] == b;
  }

  // ... and stays where it settles, ...
  lemma {:induction false} StaysSettled(fn: Fn, run: seq<seq<nat>>, run': seq<seq<nat>>, p: seq<nat>, t: nat)
    requires Settles(fn, run, p) && IsRun(fn, run') && |run| - 2 <= t < |run'|
    ensures run'[t] == p
  {
    hide IsPass, Rising;
    if t == |run| - 2 {
      RunsAgree(fn, run, run', t);
    } else {
      StaysSettled(fn, run, run', p, t - 1);
      assert IsPass(fn, run[|run| - 2], run[|run| - 1]) && IsPass(fn, run'[t - 1], run'[t]);
      SamePass(fn, p, p, run'[t]);
    }
  }

  // ... so a function does either of the two and not the other.
  lemma SettlesOrRetreats(fn: Fn, run: seq<seq<nat>>, p: seq<nat>, run': seq<seq<nat>>, site: nat)
    requires Settles(fn, run, p)
    ensures !RetreatsFirst(fn, run', site)
  {
    hide IsPass;
    if IsRun(fn, run') && 1 < |run'| && site < |fn.sites| {
      var t := |run'| - 1;
      if t < |run| {
        RunsAgree(fn, run, run', t);
        RunsAgree(fn, run, run', t - 1);
        assert NotLeft(run[t - 1], run[t], |run[t]|);
      } else {
        StaysSettled(fn, run, run', p, t);
        StaysSettled(fn, run, run', p, t - 1);
      }
    }
  }

  // The last pass of the run places `site` further left than the pass before.
  ghost predicate Retreats(fn: Fn, run: seq<seq<nat>>, site: nat) {
    && 1 < |run| && site < |fn.sites|
    && |run[|run| - 1]| == |run[|run| - 2]| == |fn.sites| + 1
    && run[|run| - 1][site + 1] < run[|run| - 2][site + 1]
  }

  // ---------- Emission ----------

  // Subtracts the lowest label from all of them, in place.
  method SubtractMin(labels: array<nat>) returns (min: nat)
    modifies labels
    ensures labels[..] == Deltas(old(labels[..])) && min == MinOf(old(labels[..]))
  {
    ghost var at := labels[..];
    min := TWO_32 - 1;
    for j := 0 to labels.Length
      invariant min == MinUpTo(at, j)
    {
      if labels[j] < min {
        min := labels[j];
      }
    }
    for j := 0 to labels.Length
      invariant forall k :: 0 <= k < j ==> labels[k] == at[k] - min
      invariant forall k :: j <= k < labels.Length ==> labels[k] == at[k]
    {
      labels[j] := labels[j] - min;
    }
  }

  // The positions of some labels, unless one of them is undefined.
  method LookUpLabels(fn: Fn, p: seq<nat>, names: seq<Name>) returns (ok: bool, labels: array<nat>)
    requires |p| == |fn.sites| + 1
    ensures ok <==> forall j :: 0 <= j < |names| ==> names[j] in fn.labels
    ensures ok ==> labels[..] == LabelPositions(fn, p, names)
    ensures fresh(labels)
  {
    labels := new nat[|names|];
    for j := 0 to |names|
      invariant forall k :: 0 <= k < j ==> names[k] in fn.labels
      invariant forall k :: 0 <= k < j ==> labels[k] == p[fn.labels[names[k]]]
    {
      if names[j] !in fn.labels {
        return false, labels;
      }
      assert IsDefinition(fn.sites, names[j], fn.labels[names[j]]);
      labels[j] := p[fn.labels[names[j]]];
    }
    ok := true;
  }

  // The table of one label look-up: distances from the lowest label, packed into bytes.
  method EmitLut(fn: Fn, p: seq<nat>, i: nat, off: nat) returns (r: Option<seq<u8>>)
    requires Stable(fn, p) && i < |fn.sites| && fn.sites[i].reloc.LabelLut?
    requires off == p[i] + |fn.sites[i].code|
    ensures r.Some? <==> LutEncodable(fn, p, i)
    ensures r.Some? ==> SiteBytes(fn, p, i) == fn.sites[i].code + r.value
  {
    hide *;
    StableFacts(fn, p);
    LutCase(fn, p, i);
    var LabelLut(reg, names) := fn.sites[i].reloc;
    var ok, labels := LookUpLabels(fn, p, names);
    if !ok {
      return None;
    }
    var min := SubtractMin(labels);
    ghost var deltas := labels[..];
    var shift := PackLabels(labels);
    if shift.None? {
      return None;
    }
    PackedIs(deltas, shift.value, labels[..]);
    r := Some(LutBytes(reg, labels[..], min, shift.value, off));
  }

  lemma LutCase(fn: Fn, p: seq<nat>, i: nat)
    requires Stable(fn, p) && i < |fn.sites| && fn.sites[i].reloc.LabelLut?
    ensures |p| == |fn.sites| + 1 && fn.sites[i].reloc.reg < 16 && |fn.sites[i].reloc.names| <= 8
    ensures LutEncodable(fn, p, i) <==>
              && (forall j :: 0 <= j < |fn.sites[i].reloc.names| ==> fn.sites[i].reloc.names[j] in fn.labels)
              && LutShift(Deltas(LabelPositions(fn, p, fn.sites[i].reloc.names))).Some?
    ensures LutEncodable(fn, p, i) ==>
              var at := LabelPositions(fn, p, fn.sites[i].reloc.names);
              var shift := LutShift(Deltas(at)).value;
              SiteBytes(fn, p, i) == fn.sites[i].code +
                LutBytes(fn.sites[i].reloc.reg, Packed(Deltas(at), shift), MinOf(at), shift, p[i] + |fn.sites[i].code|)
  {
    assert WellFormedSite(fn.sites[i]);
  }

  lemma PackedIs(deltas: seq<nat>, shift: nat, bytes: seq<nat>)
    requires shift <= 3 && Packs(deltas, shift) && |bytes| == |deltas|
    requires forall j :: 0 <= j < |deltas| ==> bytes[j] * Scale(shift) == deltas[j]
    ensures bytes == Packed(deltas, shift)
  {
    forall j | 0 <= j < |deltas|
      ensures bytes[j] == Packed(deltas, shift)[j]
    {
      QuotientIs(deltas[j], Scale(shift), bytes[j], 0);
    }
  }

  // The second pass. It checks every position against those of the first.
  method Emit(fn: Fn, p: seq<nat>) returns (r: Outcome)
    requires Stable(fn, p)
    ensures r.Emitted? || r.BadLut?
    ensures r.Emitted? ==>
              && LutsEncodable(fn, p, |fn.sites|)
              && r.code == CodeUpTo(fn, p, |fn.sites|) + fn.tail
              && r.relocs == RelocsUpTo(fn, p, |fn.sites|)
              && r.positions == p
    ensures r.BadLut? ==>
              r.site < |fn.sites| && LutsEncodable(fn, p, r.site) && !LutEncodable(fn, p, r.site)
  {
    hide SiteBytes, SiteRelocs, LutEncodable, Stable, Resolvable;
    StableFacts(fn, p);
    var out: seq<u8> := [];
    var relocs: seq<RunReloc> := [];
    for i := 0 to |fn.sites|
      invariant LutsEncodable(fn, p, i)
      invariant out == CodeUpTo(fn, p, i)
      invariant relocs == RelocsUpTo(fn, p, i)
    {
      CodeFillsPositions(fn, p, i);
      if fn.sites[i].reloc.LabelLut? {
        var table := EmitLut(fn, p, i, |out| + |fn.sites[i].code|);
        if table.None? {
          return BadLut(i);
        }
        out := out + (fn.sites[i].code + table.value);
      } else {
        PlainIsEncodable(fn, p, i);
        out := out + SiteBytes(fn, p, i);
      }
      relocs := relocs + SiteRelocs(fn, p, i);
      CodeFillsPositions(fn, p, i + 1);
      if p[i + 1] != |out| {
        return Inconsistent;
      }
    }
    r := Emitted(out + fn.tail, relocs, p);
  }

  // ---------- The whole function ----------

  // What is promised of emitted code, given the labels of the function.
  ghost predicate Correct(fn: Fn, code: seq<u8>, relocs: seq<RunReloc>, p: seq<nat>) {
    && Resolvable(fn)
    && ValidLayout(fn, p)
    && (SpansDecided(fn) ==> forall v :: ValidLayout(fn, v) ==> NothingShrinks(fn, p, v))
    && (forall i :: 0 <= i < |fn.sites| ==>
          SiteMeans(fn, p, i, code) && CodeStands(fn, p, i, code) && TableCode.TableRuns(fn, p, i, code))
    && |code| == p[|fn.sites|] + |fn.tail| && code[p[|fn.sites|]..] == fn.tail
    && relocs == RelocsUpTo(fn, p, |fn.sites|) && |relocs| == CountRelocs(fn, |fn.sites|)
    && (forall i :: 0 <= i < |fn.sites| ==> FixupsMean(fn, p, i, code))
  }

  // The loop settles at `p`, and there the table at site `i` is the first that cannot be encoded.
  ghost predicate FailsAt(fn: Fn, run: seq<seq<nat>>, p: seq<nat>, i: nat) {
    && Stable(fn, p) && Settles(fn, run, p)
    && i < |fn.sites| && HasBadTable(fn, p, i) && forall j :: 0 <= j < i ==> !HasBadTable(fn, p, j)
  }

  // One of the table's names is no label, or the labels lie too far apart, or too unevenly.
  ghost predicate HasBadTable(fn: Fn, p: seq<nat>, i: nat)
    requires i < |fn.sites| && |p| == |fn.sites| + 1
  {
    && fn.sites[i].reloc.LabelLut?
    && var names := fn.sites[i].reloc.names;
       && ((forall j :: 0 <= j < |names| ==> names[j] in fn.labels) ==>
             forall s :: 0 <= s <= 3 ==> !FitsTable(LabelPositions(fn, p, names), s))
  }

  lemma FailsIsBad(fn: Fn, run: seq<seq<nat>>, p: seq<nat>, i: nat)
    requires Stable(fn, p) && Settles(fn, run, p) && i < |fn.sites|
    requires LutsEncodable(fn, p, i) && !LutEncodable(fn, p, i)
    ensures FailsAt(fn, run, p, i)
  {
    hide Settles, IsPass, Resolvable, LutEncodable;
    forall j | 0 <= j <= i
      ensures HasBadTable(fn, p, j) <==> !LutEncodable(fn, p, j)
    {
      TableFails(fn, p, j);
    }
  }

  // The name is the function's own or that of a label in it.
  ghost predicate IsLabel(f: Func, name: Name) {
    name == f.name || exists j :: 0 <= j < |f.sites| && f.sites[j].reloc == DefLabel(name)
  }

  // Site `i` refers to what is neither a label nor a symbol, where it needs a symbol to no symbol,
  // or with a jcc to a symbol that is defined elsewhere.
  ghost predicate IsUndefined(f: Func, i: nat)
    requires i < |f.sites|
  {
    match f.sites[i].reloc
    case RipRef(_, name) => !IsLabel(f, name) && name !in f.globals
    case Branch(kind, name) =>
      !IsLabel(f, name) && (name in f.globals ==> kind == Jcc && f.globals[name].isExtern)
    case PhantomRef(name) => name !in f.globals
    case DefLabel(_) => false
    case Align(_) => false
    case LabelLut(_, _) => false
  }

  // What each way to end, other than at a label that is defined twice, says of the function.
  ghost predicate EndsAs(f: Func, fn: Fn, r: Outcome) {
    match r
    case Emitted(code, relocs, p) => Correct(fn, code, relocs, p) && exists run :: Settles(fn, run, p)
    case UnresolvedName(i) => IsFirstUndefined(f, i)
    case MovedLeft(i) => Resolvable(fn) && !SpansDecided(fn) && exists run :: RetreatsFirst(fn, run, i)
    case BadLut(i) => i < |fn.sites| && exists run, p :: FailsAt(fn, run, p, i)
    case DuplicateLabel(_) => false
    case Inconsistent => false
  }

  ghost predicate IsFirstUndefined(f: Func, i: nat) {
    i < |f.sites| && IsUndefined(f, i) && forall j :: 0 <= j < i ==> !IsUndefined(f, j)
  }

  lemma LabelsAre(f: Func, L: Labels, name: Name)
    requires Holds(f, |f.sites|, L)
    ensures name in L <==> IsLabel(f, name)
  {
    if name in L {
      assert Backed(f, |f.sites|, name, L[name]);
    }
    if j :| 0 <= j < |f.sites| && f.sites[j].reloc == DefLabel(name) {
      assert f.sites[j].reloc.DefLabel? && Defines(L, f.sites[j].reloc.name, j + 1);
    }
  }

  lemma ResolvesIffDefined(f: Func, fn: Fn, i: nat)
    requires fn.sites == f.sites && fn.globals == f.globals && Holds(f, |f.sites|, fn.labels) && i < |f.sites|
    ensures Resolves(fn, i) <==> !IsUndefined(f, i)
  {
    hide Holds, IsLabel;
    match f.sites[i].reloc
    case RipRef(_, name) => LabelsAre(f, fn.labels, name);
    case Branch(_, name) => LabelsAre(f, fn.labels, name);
    case _ =>
  }

  // Resolves the labels of one function and emits it. It ends in one of five ways, and says which:
  // the labels decide the first two, where the run of passes goes the third.
  method ResolveLabels(f: Func) returns (r: Outcome)
    requires WellFormed(f.sites)
    requires forall L :: LabelTable(f, |f.sites|) == Some(L) ==> Fits(Fn(f.sites, f.tail, f.globals, L))
    ensures !r.Inconsistent?
    ensures r.DuplicateLabel? <==> exists j :: 0 <= j < |f.sites| && Redefines(f, j)
    ensures r.DuplicateLabel? ==> Redefines(f, r.site) && forall j :: 0 <= j < r.site ==> !Redefines(f, j)
    ensures r.DuplicateLabel? <==> LabelTable(f, |f.sites|).None?
    ensures !r.DuplicateLabel? ==>
      var fn := Fn(f.sites, f.tail, f.globals, LabelTable(f, |f.sites|).value);
      Holds(f, |f.sites|, fn.labels) && GoodLabels(f.sites, fn.labels) && EndsAs(f, fn, r)
    ensures !r.DuplicateLabel? ==>
      var fn := Fn(f.sites, f.tail, f.globals, LabelTable(f, |f.sites|).value);
      && (r.UnresolvedName? <==> exists i :: 0 <= i < |f.sites| && IsUndefined(f, i))
      && (r.MovedLeft? <==> Resolvable(fn) && exists run, i :: RetreatsFirst(fn, run, i))
  {
    var L, site := ScanLabels(f);
    if L.None? {
      return DuplicateLabel(site);
    }
    LabelTableIsGood(f, |f.sites|);
    HeldLabelsAreGood(f, L.value);
    var fn: Fn := Fn(f.sites, f.tail, f.globals, L.value);
    forall i | 0 <= i < |f.sites|
      ensures Resolves(fn, i) <==> !IsUndefined(f, i)
    {
      ResolvesIffDefined(f, fn, i);
    }
    var positions := new nat[|f.sites| + 1];
    var relaxed, nReloc, run := Relax(fn, positions);
    match relaxed
    case Unresolved(i) =>
      r := UnresolvedName(i);
    case Retreat(i) =>
      if SpansDecided(fn) {
        NeverMovesLeft(fn, run, |run| - 2, i + 1);
      }
      r := MovedLeft(i);
    case Settled =>
      var p := positions[..];
      forall run', i
        ensures !RetreatsFirst(fn, run', i)
      {
        SettlesOrRetreats(fn, run, p, run', i);
      }
      r := Emit(fn, p);
      if r.Emitted? {
        EmittedIsCorrect(fn, run, p);
      } else {
        FailsIsBad(fn, run, p, r.site);
      }
  }

  lemma EmittedIsCorrect(fn: Fn, run: seq<seq<nat>>, p: seq<nat>)
    requires IsRun(fn, run) && p == run[|run| - 1] && Stable(fn, p) && LutsEncodable(fn, p, |fn.sites|)
    ensures Correct(fn, CodeUpTo(fn, p, |fn.sites|) + fn.tail, RelocsUpTo(fn, p, |fn.sites|), p)
  {
    StableIsLayout(fn, p);
    if SpansDecided(fn) {
      forall v | ValidLayout(fn, v)
        ensures NothingShrinks(fn, p, v)
      {
        RunBelowEveryLayout(fn, run, |run| - 1, v);
      }
    }
    forall i | 0 <= i < |fn.sites|
      ensures SiteMeans(fn, p, i, CodeUpTo(fn, p, |fn.sites|) + fn.tail)
      ensures CodeStands(fn, p, i, CodeUpTo(fn, p, |fn.sites|) + fn.tail)
      ensures TableCode.TableRuns(fn, p, i, CodeUpTo(fn, p, |fn.sites|) + fn.tail)
    {
      CodeMeans(fn, p, i);
      SiteStandsInCode(fn, p, |fn.sites|, i, fn.tail);
      TableCode.SiteTableRuns(fn, p, i, CodeUpTo(fn, p, |fn.sites|) + fn.tail);
    }
    forall i | 0 <= i < |fn.sites|
      ensures FixupsMean(fn, p, i, CodeUpTo(fn, p, |fn.sites|) + fn.tail)
    {
      SiteFixupsMean(fn, p, i, CodeUpTo(fn, p, |fn.sites|) + fn.tail);
    }
    CodeFillsPositions(fn, p, |fn.sites|);
    RelocsAsCounted(fn, p, |fn.sites|);
  }
}

// Branch relaxation in the x86_64 assembler: positions move apart until a pass leaves them unchanged.
module Relaxation {
  import opened Words

  // The payload of a function is a stream of code chunks and relocation commands. It is read here
  // as `sites`, one for each relocation command: the code bytes since the previous command, then
  // the command itself. The bytes that a command takes back from the chunk before it (the four
  // bytes naming a symbol, the alignment mask, the immediate after a rip-relative operand) belong
  // to the command.

  type Name = u32

  datatype BranchKind = Call | Jmp | Jcc

  datatype Reloc =
    | RipRef(imm: seq<u8>, name: Name)
    | Branch(kind: BranchKind, name: Name)
    | DefLabel(name: Name)
    | Align(mask: u8)
    | LabelLut(reg: nat, names: seq<Name>)
    | PhantomRef(name: Name)

  datatype Site = Site(code: seq<u8>, reloc: Reloc)

  // A symbol of the whole file; `isExtern` is ASM_SYM_FLAG_EXTERN.
  datatype Global = Global(index: u32, isExtern: bool)

  // A function as parsed.
  datatype Func = Func(name: Name, sites: seq<Site>, tail: seq<u8>, globals: map<Name, Global>)

  // Label names to positions: index 0 is the start of the function, index i + 1 the end of site i.
  type Labels = map<Name, nat>

  // A function together with its label table.
  datatype FnBase = Fn(sites: seq<Site>, tail: seq<u8>, globals: map<Name, Global>, labels: Labels)

  // What the parser and the label scan guarantee, and code shorter than 2 GiB.
  type Fn = fn: FnBase | WellFormed(fn.sites) && GoodLabels(fn.sites, fn.labels) && Fits(fn)
    witness Fn([], [], map[], map[])

  // The opcode byte in front of the operand: e8 for call, e9 for jmp, 7x for jcc.
  predicate OpcodeOf(kind: BranchKind, b: u8) {
    match kind
    case Call => b == 0xe8
    case Jmp => b == 0xe9
    case Jcc => 0x70 <= b < 0x80
  }

  predicate WellFormedSite(s: Site) {
    match s.reloc
    case Branch(kind, _) => |s.code| > 0 && OpcodeOf(kind, s.code[|s.code| - 1])
    case RipRef(imm, _) => |imm| in {0, 1, 2, 4}
    case Align(mask) => mask in {0, 1, 3, 7, 15, 31, 63, 127, 255}
    case LabelLut(reg, names) => reg < 16 && |names| <= 8
    case _ => true
  }

  predicate WellFormed(sites: seq<Site>) {
    forall i :: 0 <= i < |sites| ==> WellFormedSite(sites[i])
  }

  // Every entry is the function itself or one of its label definitions.
  predicate GoodLabels(sites: seq<Site>, labels: Labels) {
    forall name :: name in labels ==> IsDefinition(sites, name, labels[name])
  }

  predicate IsDefinition(sites: seq<Site>, name: Name, k: nat) {
    k == 0 || (k <= |sites| && sites[k - 1].reloc == DefLabel(name))
  }

  predicate Fits(fn: FnBase) {
    LongPosition(fn, |fn.sites|) + |fn.tail| < 0x8000_0000
  }

  predicate Resolves(fn: Fn, i: nat)
    requires i < |fn.sites|
  {
    match fn.sites[i].reloc
    case RipRef(_, name) => name in fn.labels || name in fn.globals
    case Branch(kind, name) => name in fn.labels || (name in fn.globals && !(kind == Jcc && fn.globals[name].isExtern))
    case PhantomRef(name) => name in fn.globals
    case _ => true
  }

  predicate Resolvable(fn: Fn) {
    forall i :: 0 <= i < |fn.sites| ==> Resolves(fn, i)
  }

  // A local jmp or jcc: the sites that have both a short and a long form.
  predicate Relaxable(fn: FnBase, i: nat)
    requires i < |fn.sites|
  {
    var r := fn.sites[i].reloc;
    r.Branch? && r.kind != Call && r.name in fn.labels
  }

  // ---------- One pass ----------

  // The test `(int8_t)(uint8_t)k == (int32_t)(uint32_t)k`.
  predicate ShortFits(k: u32) {
    Signed8(k % 0x100) == Signed32(k)
  }

  lemma ShortFitsIsByteRange(a: nat, b: nat)
    requires a < 0x8000_0000 && b < 0x8000_0000
    ensures ShortFits(Sub32(a, b)) <==> -0x80 <= a - b < 0x80
  {
    Displacement32(a, b);
  }

  function LutSize(reg: nat): nat {
    30 + (if reg >= 4 then 1 else 0) + (if reg % 8 == 5 then 1 else 0)
  }

  // Where a site ends when its bytes start at `off` and any branch takes its long form.
  function LongEnd(fn: FnBase, i: nat, off: nat): (end: nat)
    requires i < |fn.sites|
  {
    var o := off + |fn.sites[i].code|;
    match fn.sites[i].reloc
    case RipRef(imm, _) => o + 4 + |imm|
    case Branch(kind, name) =>
      o + 4 + (if kind == Jcc then 1 else 0) +
      (if name !in fn.labels && name in fn.globals && fn.globals[name].isExtern then 1 else 0)
    case Align(mask) => AlignUp(o, mask + 1)
    case LabelLut(reg, _) => o + LutSize(reg)
    case DefLabel(_) => o
    case PhantomRef(_) => o
  }

  function ShortEnd(fn: Fn, i: nat, off: nat): nat
    requires i < |fn.sites|
  {
    off + |fn.sites[i].code| + 1
  }

  // The choice made at site `i` of a pass: `cur` holds this pass's positions up to index `i`,
  // `prev` those of the pass before.
  predicate TakesShort(fn: Fn, prev: seq<nat>, cur: seq<nat>, i: nat)
    requires i < |fn.sites| && |prev| == |fn.sites| + 1 && i < |cur|
  {
    Relaxable(fn, i) &&
    var k := fn.labels[fn.sites[i].reloc.name];
    ShortFits(if k > i then Sub32(prev[k], prev[i + 1]) else Sub32(cur[k], ShortEnd(fn, i, cur[i])))
  }

  function SiteEnd(fn: Fn, prev: seq<nat>, cur: seq<nat>, i: nat): nat
    requires i < |fn.sites| && |prev| == |fn.sites| + 1 && i < |cur|
  {
    if TakesShort(fn, prev, cur, i) then ShortEnd(fn, i, cur[i]) else LongEnd(fn, i, cur[i])
  }

  ghost predicate IsPass(fn: Fn, prev: seq<nat>, next: seq<nat>)
  {
    && |prev| == |next| == |fn.sites| + 1
    && next[0] == 0
    && forall i :: 0 <= i < |fn.sites| ==> next[i + 1] == SiteEnd(fn, prev, next, i)
  }

  function Zeros(n: nat): (z: seq<nat>)
    ensures |z| == n
  {
    seq(n, _ => 0)
  }

  // A run of the relaxation loop: all zeros, then the positions after each pass.
  ghost predicate IsRun(fn: Fn, run: seq<seq<nat>>)
  {
    && |run| > 0
    && run[0] == Zeros(|fn.sites| + 1)
    && forall t :: 0 < t < |run| ==> IsPass(fn, run[t - 1], run[t])
  }

  // ---------- Layouts ----------

  // An assignment of positions in which every site has one of its forms and every short branch
  // reaches its label.
  ghost predicate ValidLayout(fn: Fn, v: seq<nat>)
  {
    && |v| == |fn.sites| + 1
    && v[0] == 0
    && forall i :: 0 <= i < |fn.sites| ==> LaidOut(fn, v, i)
  }

  ghost predicate LaidOut(fn: Fn, v: seq<nat>, i: nat)
    requires |v| == |fn.sites| + 1 && i < |fn.sites|
  {
    || v[i + 1] == LongEnd(fn, i, v[i])
    || (&& Relaxable(fn, i)
        && v[i + 1] == ShortEnd(fn, i, v[i])
        && -0x80 <= v[fn.labels[fn.sites[i].reloc.name]] - v[i + 1] < 0x80)
  }

  // A site whose size depends on where it stands.
  predicate Pads(fn: Fn, j: nat)
    requires j < |fn.sites|
  {
    fn.sites[j].reloc.Align? && fn.sites[j].reloc.mask > 0
  }

  // Site `j` lies between a local jmp or jcc at site `i` and its label.
  predicate Spans(fn: Fn, i: nat, j: nat)
    requires i < |fn.sites|
  {
    Relaxable(fn, i) &&
    var k := fn.labels[fn.sites[i].reloc.name];
    if k > i then i < j < k else k <= j < i
  }

  ghost predicate SpansNoPadding(fn: Fn, i: nat)
    requires i < |fn.sites|
  {
    forall j :: 0 <= j < |fn.sites| && Spans(fn, i, j) ==> !Pads(fn, j)
  }

  // ---------- What the lengths of the code decide ----------

  // Padding is at most to a multiple of 256, so all that matters about an offset is its remainder.
  const PERIOD: nat := 0x100

  // Where site `i` ends at least and at most; branches in `short` are known to be short.
  function NearEnd(fn: Fn, i: nat, off: nat): nat
    requires i < |fn.sites|
  {
    if Relaxable(fn, i) then ShortEnd(fn, i, off) else LongEnd(fn, i, off)
  }

  function FarEnd(fn: Fn, short: set<nat>, i: nat, off: nat): nat
    requires i < |fn.sites|
  {
    if i in short && Relaxable(fn, i) then ShortEnd(fn, i, off) else LongEnd(fn, i, off)
  }

  // Where index `k` lies at least and at most when index `j` lies at `off`.
  function Nearest(fn: Fn, j: nat, k: nat, off: nat): nat
    requires j <= k <= |fn.sites|
    decreases k
  {
    if j == k then off else NearEnd(fn, k - 1, Nearest(fn, j, k - 1, off))
  }

  function Farthest(fn: Fn, short: set<nat>, j: nat, k: nat, off: nat): nat
    requires j <= k <= |fn.sites|
    decreases k
  {
    if j == k then off else FarEnd(fn, short, k - 1, Farthest(fn, short, j, k - 1, off))
  }

  // The remainders that index `j` can have.
  function Starts(fn: Fn, short: set<nat>, j: nat): (rs: set<nat>)
    requires j <= |fn.sites|
    ensures forall r :: r in rs ==> r < PERIOD
  {
    if j == 0 then {0}
    else
      var rs := Starts(fn, short, j - 1);
      (set r | r in rs :: FarEnd(fn, short, j - 1, r) % PERIOD) + (set r | r in rs :: NearEnd(fn, j - 1, r) % PERIOD)
  }

  // The branch at site `i` reaches its label with the short form, or cannot reach it, wherever the
  // stretch between them lies and whatever forms other branches take.
  predicate AlwaysReaches(fn: Fn, short: set<nat>, i: nat)
    requires i < |fn.sites| && Relaxable(fn, i)
  {
    forall r :: r in Starts(fn, short, SpanStart(fn, i)) ==> ReachesFrom(fn, short, i, r)
  }

  predicate ReachesFrom(fn: Fn, short: set<nat>, i: nat, r: nat)
    requires i < |fn.sites| && Relaxable(fn, i)
  {
    var end := Farthest(fn, short, SpanStart(fn, i), SpanEnd(fn, i), r);
    if LabelOf(fn, i) > i then end < r + 0x80 else ShortEnd(fn, i, end) <= r + 0x80
  }

  predicate NeverReaches(fn: Fn, i: nat)
    requires i < |fn.sites| && Relaxable(fn, i)
  {
    forall r :: r in Starts(fn, {}, SpanStart(fn, i)) ==> FallsShortFrom(fn, i, r)
  }

  predicate FallsShortFrom(fn: Fn, i: nat, r: nat)
    requires i < |fn.sites| && Relaxable(fn, i)
  {
    var end := Nearest(fn, SpanStart(fn, i), SpanEnd(fn, i), r);
    if LabelOf(fn, i) > i then end >= r + 0x80 else ShortEnd(fn, i, end) > r + 0x80
  }

  // The stretch between a branch and its label: from the end of the branch, or from the label.
  function SpanStart(fn: Fn, i: nat): (j: nat)
    requires i < |fn.sites| && Relaxable(fn, i)
    ensures j <= SpanEnd(fn, i)
  {
    if LabelOf(fn, i) > i then i + 1 else LabelOf(fn, i)
  }

  function SpanEnd(fn: Fn, i: nat): (k: nat)
    requires i < |fn.sites| && Relaxable(fn, i)
    ensures k <= |fn.sites|
  {
    if LabelOf(fn, i) > i then LabelOf(fn, i) else i
  }

  function LabelOf(fn: Fn, i: nat): (k: nat)
    requires i < |fn.sites| && Relaxable(fn, i)
    ensures k <= |fn.sites| && (k > i ==> k > i + 1)
  {
    assert IsDefinition(fn.sites, fn.sites[i].reloc.name, fn.labels[fn.sites[i].reloc.name]);
    fn.labels[fn.sites[i].reloc.name]
  }

  // The branches found to be always short in `n` rounds, each of which may use the finds of the
  // one before.
  function ShortInRounds(fn: Fn, n: nat): set<nat> {
    if n == 0 then {}
    else set i: nat | i < |fn.sites| && Relaxable(fn, i) && AlwaysReaches(fn, ShortInRounds(fn, n - 1), i)
  }

  function AlwaysShort(fn: Fn): set<nat> {
    ShortInRounds(fn, |fn.sites|)
  }

  // Every local jmp or jcc has no padding between it and its label, or its form is decided by the
  // lengths of the code. This can be told before the first pass.
  ghost predicate SpansDecided(fn: Fn) {
    forall i :: 0 <= i < |fn.sites| && Relaxable(fn, i) ==>
      SpansNoPadding(fn, i) || i in AlwaysShort(fn) || NeverReaches(fn, i)
  }

  // The stretch from position `j` to position `k` has no padding in it.
  ghost predicate Rigid(fn: Fn, j: nat, k: nat) {
    forall i :: j <= i < k && i < |fn.sites| ==> !Pads(fn, i)
  }

  // No position of `b` lies further left than in `a`, and every stretch without padding is at
  // least as long.
  ghost predicate NothingShrinks(fn: Fn, a: seq<nat>, b: seq<nat>) {
    && |a| == |b| == |fn.sites| + 1
    && (forall i :: 0 <= i < |a| ==> a[i] <= b[i])
    && forall j, k :: 0 <= j <= k < |a| && Rigid(fn, j, k) ==> Gap(a, j, k) <= Gap(b, j, k)
  }

  function Gap(a: seq<nat>, j: nat, k: nat): int
    requires j < |a| && k < |a|
  {
    a[k] as int - a[j] as int
  }

  // The size of site `i`.
  function Size(a: seq<nat>, i: nat): int
    requires i + 1 < |a|
  {
    Gap(a, i, i + 1)
  }

  ghost predicate Ascending(a: seq<nat>) {
    forall j, k :: 0 <= j <= k < |a| ==> a[j] <= a[k]
  }

  // ---------- The all-long bound ----------

  function LongPosition(fn: FnBase, n: nat): nat
    requires n <= |fn.sites|
  {
    if n == 0 then 0 else LongEnd(fn, n - 1, LongPosition(fn, n - 1))
  }

  lemma LongEndMonotone(fn: Fn, i: nat, off: nat, off': nat)
    requires i < |fn.sites| && off <= off'
    ensures off <= LongEnd(fn, i, off) <= LongEnd(fn, i, off')
    ensures Relaxable(fn, i) ==> ShortEnd(fn, i, off) < LongEnd(fn, i, off)
  {
    if fn.sites[i].reloc.Align? {
      var c := |fn.sites[i].code|;
      AlignUpIsLeastMultiple(off + c, fn.sites[i].reloc.mask + 1);
      AlignUpMonotone(off + c, off' + c, fn.sites[i].reloc.mask + 1);
    }
  }

  lemma {:induction false} LongPositionMonotone(fn: Fn, m: nat, n: nat)
    requires m <= n <= |fn.sites|
    ensures LongPosition(fn, m) <= LongPosition(fn, n)
    decreases n
  {
    if m < n {
      LongPositionMonotone(fn, m, n - 1);
      LongEndMonotone(fn, n - 1, LongPosition(fn, n - 1), LongPosition(fn, n - 1));
    }
  }

  // No pass places anything beyond where it lies when every branch is long.
  lemma {:induction false} PassUnderLongBound(fn: Fn, prev: seq<nat>, next: seq<nat>, n: nat)
    requires IsPass(fn, prev, next) && n <= |fn.sites|
    ensures next[n] <= LongPosition(fn, n)
  {
    if n > 0 {
      PassUnderLongBound(fn, prev, next, n - 1);
      assert next[n] == SiteEnd(fn, prev, next, n - 1);
      LongEndMonotone(fn, n - 1, next[n - 1], LongPosition(fn, n - 1));
    }
  }

  ghost predicate Bounded(fn: Fn, v: seq<nat>) {
    && |v| == |fn.sites| + 1
    && forall i :: 0 <= i < |v| ==> v[i] <= LongPosition(fn, i) < 0x8000_0000
  }

  lemma RunIsBounded(fn: Fn, run: seq<seq<nat>>, t: nat)
    requires IsRun(fn, run) && t < |run|
    ensures Bounded(fn, run[t])
  {
    assert t > 0 ==> IsPass(fn, run[t - 1], run[t]);
    forall i | 0 <= i <= |fn.sites|
      ensures run[t][i] <= LongPosition(fn, i) < 0x8000_0000
    {
      LongPositionMonotone(fn, i, |fn.sites|);
      if t > 0 {
        PassUnderLongBound(fn, run[t - 1], run[t], i);
      }
    }
  }

  // ---------- Positions never decrease along the function ----------

  lemma {:induction false} PassIsAscending(fn: Fn, prev: seq<nat>, next: seq<nat>, j: nat, k: nat)
    requires IsPass(fn, prev, next) && j <= k <= |fn.sites|
    ensures next[j] <= next[k]
    decreases k
  {
    if j < k {
      PassIsAscending(fn, prev, next, j, k - 1);
      assert next[k] == SiteEnd(fn, prev, next, k - 1);
      LongEndMonotone(fn, k - 1, next[k - 1], next[k - 1]);
    }
  }

  // ---------- The bounds hold in every pass and every layout ----------

  // Every site has one of its forms, those in `short` the short one.
  ghost predicate Formed(fn: Fn, short: set<nat>, s: seq<nat>) {
    && |s| == |fn.sites| + 1 && s[0] == 0
    && forall i :: 0 <= i < |fn.sites| ==> HasForm(fn, short, s, i)
  }

  ghost predicate HasForm(fn: Fn, short: set<nat>, s: seq<nat>, i: nat)
    requires i < |fn.sites| && |s| == |fn.sites| + 1
  {
    s[i + 1] == NearEnd(fn, i, s[i]) || s[i + 1] == FarEnd(fn, short, i, s[i])
  }

  // Moving a site by a multiple of the period moves its end alike.
  lemma EndsMoveAlike(fn: Fn, i: nat, off: nat, d: nat)
    requires i < |fn.sites| && d % PERIOD == 0
    ensures LongEnd(fn, i, off + d) == LongEnd(fn, i, off) + d
  {
    if fn.sites[i].reloc.Align? {
      assert WellFormedSite(fn.sites[i]);
      var a := fn.sites[i].reloc.mask + 1;
      assert a in {1, 2, 4, 8, 16, 32, 64, 128, 256};
      assert PERIOD % a == 0;
      MultipleOfMultiple(d, a, PERIOD);
      AlignUpShifted(off + |fn.sites[i].code|, d, a);
    }
  }

  lemma SameRemainder(fn: Fn, short: set<nat>, i: nat, off: nat)
    requires i < |fn.sites|
    ensures NearEnd(fn, i, off) % PERIOD == NearEnd(fn, i, off % PERIOD) % PERIOD
    ensures FarEnd(fn, short, i, off) % PERIOD == FarEnd(fn, short, i, off % PERIOD) % PERIOD
  {
    hide LongEnd;
    var d := off - off % PERIOD;
    EndsMoveAlike(fn, i, off % PERIOD, d);
  }

  lemma {:induction false} FormedStarts(fn: Fn, short: set<nat>, s: seq<nat>, j: nat)
    requires Formed(fn, short, s) && j <= |fn.sites|
    ensures s[j] % PERIOD in Starts(fn, short, j)
  {
    hide NearEnd, FarEnd;
    if j > 0 {
      FormedStarts(fn, short, s, j - 1);
      assert HasForm(fn, short, s, j - 1);
      SameRemainder(fn, short, j - 1, s[j - 1]);
    }
  }

  lemma EndsAreBetween(fn: Fn, short: set<nat>, i: nat, lo: nat, off: nat, hi: nat, d: nat)
    requires i < |fn.sites| && d % PERIOD == 0 && lo + d <= off <= hi + d
    ensures NearEnd(fn, i, lo) + d <= NearEnd(fn, i, off) <= FarEnd(fn, short, i, off) <= FarEnd(fn, short, i, hi) + d
  {
    hide LongEnd;
    LongEndMonotone(fn, i, lo + d, off);
    LongEndMonotone(fn, i, off, hi + d);
    LongEndMonotone(fn, i, off, off);
    EndsMoveAlike(fn, i, lo, d);
    EndsMoveAlike(fn, i, hi, d);
  }

  lemma {:induction false} FormedBetween(fn: Fn, short: set<nat>, s: seq<nat>, j: nat, k: nat)
    requires Formed(fn, short, s) && j <= k <= |fn.sites|
    ensures var r := s[j] % PERIOD;
            Nearest(fn, j, k, r) + (s[j] - r) <= s[k] <= Farthest(fn, short, j, k, r) + (s[j] - r)
    decreases k
  {
    hide NearEnd, FarEnd;
    if j < k {
      var r := s[j] % PERIOD;
      FormedBetween(fn, short, s, j, k - 1);
      assert HasForm(fn, short, s, k - 1);
      EndsAreBetween(fn, short, k - 1, Nearest(fn, j, k - 1, r), s[k - 1], Farthest(fn, short, j, k - 1, r), s[j] - r);
    }
  }

  lemma AlwaysReachesMeans(fn: Fn, short: set<nat>, s: seq<nat>, i: nat)
    requires Formed(fn, short, s) && i < |fn.sites| && Relaxable(fn, i) && AlwaysReaches(fn, short, i)
    ensures var k := LabelOf(fn, i);
            if k > i then s[k] < s[i + 1] + 0x80 else ShortEnd(fn, i, s[i]) <= s[k] + 0x80
  {
    hide Formed, Farthest, Nearest, Starts;
    FormedLength(fn, short, s);
    FormedStarts(fn, short, s, SpanStart(fn, i));
    FormedBetween(fn, short, s, SpanStart(fn, i), SpanEnd(fn, i));
  }

  lemma NeverReachesMeans(fn: Fn, s: seq<nat>, i: nat)
    requires Formed(fn, {}, s) && i < |fn.sites| && Relaxable(fn, i) && NeverReaches(fn, i)
    ensures var k := LabelOf(fn, i);
            if k > i then s[k] >= s[i + 1] + 0x80 else ShortEnd(fn, i, s[i]) > s[k] + 0x80
  {
    hide Formed, Farthest, Nearest, Starts;
    FormedLength(fn, {}, s);
    FormedStarts(fn, {}, s, SpanStart(fn, i));
    FormedBetween(fn, {}, s, SpanStart(fn, i), SpanEnd(fn, i));
  }

  lemma FormedLength(fn: Fn, short: set<nat>, s: seq<nat>)
    requires Formed(fn, short, s)
    ensures |s| == |fn.sites| + 1
  {
  }

  lemma LayoutIsFormed(fn: Fn, v: seq<nat>)
    requires ValidLayout(fn, v)
    ensures Formed(fn, {}, v)
  {
    forall i | 0 <= i < |fn.sites|
      ensures HasForm(fn, {}, v, i)
    {
      assert LaidOut(fn, v, i);
    }
  }

  ghost predicate TakesShortAt(fn: Fn, short: set<nat>, prev: seq<nat>, next: seq<nat>)
    requires |prev| == |next| == |fn.sites| + 1
  {
    forall i :: i in short && i < |fn.sites| ==> TakesShort(fn, prev, next, i)
  }

  lemma PassIsFormed(fn: Fn, short: set<nat>, prev: seq<nat>, next: seq<nat>)
    requires IsPass(fn, prev, next) && TakesShortAt(fn, short, prev, next)
    ensures Formed(fn, short, next)
  {
    forall i | 0 <= i < |fn.sites|
      ensures HasForm(fn, short, next, i)
    {
      assert next[i + 1] == SiteEnd(fn, prev, next, i);
    }
  }

  // What is found to be always short is short in every pass of every run.
  lemma {:induction false} ShortInEveryPass(fn: Fn, run: seq<seq<nat>>, n: nat, t: nat)
    requires IsRun(fn, run) && 0 < t < |run|
    ensures IsPass(fn, run[t - 1], run[t]) && TakesShortAt(fn, ShortInRounds(fn, n), run[t - 1], run[t])
    decreases n, t
  {
    hide AlwaysReaches, TakesShort;
    assert IsPass(fn, run[t - 1], run[t]);
    if n > 0 {
      var short := ShortInRounds(fn, n - 1);
      ShortInEveryPass(fn, run, n - 1, t);
      PassIsFormed(fn, short, run[t - 1], run[t]);
      if t > 1 {
        ShortInEveryPass(fn, run, n - 1, t - 1);
        PassIsFormed(fn, short, run[t - 2], run[t - 1]);
      }
      RunIsBounded(fn, run, t - 1);
      RunIsBounded(fn, run, t);
      RunAscends(fn, run, t - 1);
      RunAscends(fn, run, t);
      forall i | i in ShortInRounds(fn, n) && i < |fn.sites|
        ensures TakesShort(fn, run[t - 1], run[t], i)
      {
        ReachingIsShort(fn, short, run[t - 1], run[t], i, t == 1);
      }
    }
  }

  lemma ReachingIsShort(fn: Fn, short: set<nat>, a: seq<nat>, b: seq<nat>, i: nat, first: bool)
    requires IsPass(fn, a, b) && Bounded(fn, a) && Bounded(fn, b) && Ascending(a) && Ascending(b)
    requires Formed(fn, short, b) && if first then a == Zeros(|fn.sites| + 1) else Formed(fn, short, a)
    requires i < |fn.sites| && Relaxable(fn, i) && AlwaysReaches(fn, short, i)
    ensures TakesShort(fn, a, b, i)
  {
    hide AlwaysReaches, Formed;
    var k := LabelOf(fn, i);
    assert b[i + 1] == SiteEnd(fn, a, b, i);
    LongEndMonotone(fn, i, b[i], b[i]);
    if k > i {
      if !first {
        AlwaysReachesMeans(fn, short, a, i);
      }
      ShortFitsIsByteRange(a[k], a[i + 1]);
    } else {
      AlwaysReachesMeans(fn, short, b, i);
      ShortFitsIsByteRange(b[k], ShortEnd(fn, i, b[i]));
    }
  }

  // ---------- Monotonicity where the lengths decide ----------

  lemma {:induction false} GapsFromSteps(a: seq<nat>, b: seq<nat>, j: nat, k: nat)
    requires |a| == |b| && j <= k < |a|
    requires forall i :: j <= i < k ==> Size(a, i) <= Size(b, i)
    ensures Gap(a, j, k) <= Gap(b, j, k)
    decreases k
  {
    if j < k {
      GapsFromSteps(a, b, j, k - 1);
      assert Size(a, k - 1) <= Size(b, k - 1);
    }
  }

  // Whatever choice is made at a site that does not pad, its size depends on the choice alone.
  lemma SizesAt(fn: Fn, i: nat, off: nat, off': nat)
    requires i < |fn.sites| && !Pads(fn, i)
    ensures LongEnd(fn, i, off) - off == LongEnd(fn, i, off') - off'
    ensures ShortEnd(fn, i, off) - off == ShortEnd(fn, i, off') - off'
  {
    if fn.sites[i].reloc.Align? {
      assert AlignUp(off + |fn.sites[i].code|, 1) == off + |fn.sites[i].code|;
      assert AlignUp(off' + |fn.sites[i].code|, 1) == off' + |fn.sites[i].code|;
    }
  }

  // The stretch between a branch and its label.
  lemma SpanIsRigid(fn: Fn, i: nat)
    requires i < |fn.sites| && Relaxable(fn, i) && SpansNoPadding(fn, i)
    ensures var k := fn.labels[fn.sites[i].reloc.name];
            k <= |fn.sites| && (if k > i then k > i + 1 && Rigid(fn, i + 1, k) else Rigid(fn, k, i))
  {
    var k := fn.labels[fn.sites[i].reloc.name];
    assert IsDefinition(fn.sites, fn.sites[i].reloc.name, k);
    var lo, hi := if k > i then i + 1 else k, if k > i then k else i;
    forall j | lo <= j < hi && j < |fn.sites|
      ensures !Pads(fn, j)
    {
      assert Spans(fn, i, j);
    }
  }

  // What one pass is to another, or to a layout, up to index `n`.
  ghost predicate GrownUpTo(fn: Fn, a: seq<nat>, b: seq<nat>, n: nat) {
    && |a| == |b| == |fn.sites| + 1 && n <= |fn.sites|
    && (forall i :: 0 <= i <= n ==> a[i] <= b[i])
    && forall i :: 0 <= i < n && !Pads(fn, i) ==> Size(a, i) <= Size(b, i)
  }

  lemma GrownStretch(fn: Fn, a: seq<nat>, b: seq<nat>, n: nat, j: nat, k: nat)
    requires GrownUpTo(fn, a, b, n) && j <= k <= n && Rigid(fn, j, k)
    ensures Gap(a, j, k) <= Gap(b, j, k)
  {
    GapsFromSteps(a, b, j, k);
  }

  lemma GrownMeans(fn: Fn, a: seq<nat>, b: seq<nat>)
    requires GrownUpTo(fn, a, b, |fn.sites|)
    ensures NothingShrinks(fn, a, b)
  {
    forall j, k | 0 <= j <= k < |a| && Rigid(fn, j, k)
      ensures Gap(a, j, k) <= Gap(b, j, k)
    {
      GrownStretch(fn, a, b, |fn.sites|, j, k);
    }
  }

  // A site grows if its start does and it is not shorter, or pads.
  lemma GrownNext(fn: Fn, a: seq<nat>, b: seq<nat>, i: nat)
    requires GrownUpTo(fn, a, b, i) && i < |fn.sites|
    requires if Pads(fn, i) then a[i + 1] == LongEnd(fn, i, a[i]) && b[i + 1] == LongEnd(fn, i, b[i])
             else Size(a, i) <= Size(b, i)
    ensures GrownUpTo(fn, a, b, i + 1)
  {
    LongEndMonotone(fn, i, a[i], b[i]);
  }

  // A short branch of a valid layout is also short in any pass over closer positions.
  lemma {:induction false} PassBelowLayout(fn: Fn, a: seq<nat>, b: seq<nat>, v: seq<nat>, n: nat)
    requires SpansDecided(fn) && IsPass(fn, a, b) && Bounded(fn, a) && Bounded(fn, b)
    requires TakesShortAt(fn, AlwaysShort(fn), a, b)
    requires ValidLayout(fn, v) && NothingShrinks(fn, a, v) && Ascending(a) && n <= |fn.sites|
    ensures GrownUpTo(fn, b, v, n)
  {
    if n > 0 {
      var i := n - 1;
      PassBelowLayout(fn, a, b, v, i);
      assert b[i + 1] == SiteEnd(fn, a, b, i);
      assert LaidOut(fn, v, i);
      if !Pads(fn, i) {
        SizesAt(fn, i, b[i], v[i]);
        LongEndMonotone(fn, i, b[i], b[i]);
        if Relaxable(fn, i) && v[i + 1] == ShortEnd(fn, i, v[i]) && v[i + 1] != LongEnd(fn, i, v[i]) {
          LayoutIsFormed(fn, v);
          ShortInLayout(fn, a, b, v, i);
        }
      }
      GrownNext(fn, b, v, i);
    }
  }

  lemma ShortInLayout(fn: Fn, a: seq<nat>, b: seq<nat>, v: seq<nat>, i: nat)
    requires SpansDecided(fn) && IsPass(fn, a, b) && Bounded(fn, a) && Bounded(fn, b)
    requires TakesShortAt(fn, AlwaysShort(fn), a, b) && Formed(fn, {}, v)
    requires NothingShrinks(fn, a, v) && Ascending(a) && i < |fn.sites| && Relaxable(fn, i)
    requires GrownUpTo(fn, b, v, i) && v[i + 1] == ShortEnd(fn, i, v[i])
    requires -0x80 <= v[LabelOf(fn, i)] - v[i + 1] < 0x80
    ensures TakesShort(fn, a, b, i)
  {
    hide AlwaysShort, NeverReaches, Formed;
    if i in AlwaysShort(fn) {
    } else if NeverReaches(fn, i) {
      NeverReachesMeans(fn, v, i);
    } else {
      ShortAcrossRigid(fn, a, b, v, i);
    }
  }

  lemma ShortAcrossRigid(fn: Fn, a: seq<nat>, b: seq<nat>, v: seq<nat>, i: nat)
    requires IsPass(fn, a, b) && Bounded(fn, a) && Bounded(fn, b)
    requires NothingShrinks(fn, a, v) && Ascending(a) && i < |fn.sites| && Relaxable(fn, i) && SpansNoPadding(fn, i)
    requires GrownUpTo(fn, b, v, i) && v[i + 1] == ShortEnd(fn, i, v[i])
    requires -0x80 <= v[LabelOf(fn, i)] - v[i + 1] < 0x80
    ensures TakesShort(fn, a, b, i)
  {
    var k := LabelOf(fn, i);
    SpanIsRigid(fn, i);
    assert b[i + 1] == SiteEnd(fn, a, b, i);
    if k > i {
      ShortFitsIsByteRange(a[k], a[i + 1]);
      assert Gap(a, i + 1, k) <= Gap(v, i + 1, k);
    } else {
      GrownStretch(fn, b, v, i, k, i);
      PassIsAscending(fn, a, b, k, i);
      LongEndMonotone(fn, i, b[i], b[i]);
      ShortFitsIsByteRange(b[k], ShortEnd(fn, i, b[i]));
    }
  }

  // One pass later the branches are at least as far apart.
  lemma {:induction false} PassGrows(fn: Fn, a: seq<nat>, b: seq<nat>, c: seq<nat>, n: nat)
    requires SpansDecided(fn) && IsPass(fn, a, b) && IsPass(fn, b, c)
    requires TakesShortAt(fn, AlwaysShort(fn), a, b)
    requires Bounded(fn, a) && Bounded(fn, b) && Bounded(fn, c)
    requires NothingShrinks(fn, a, b) && Ascending(a) && n <= |fn.sites|
    ensures GrownUpTo(fn, b, c, n)
  {
    if n > 0 {
      var i := n - 1;
      PassGrows(fn, a, b, c, i);
      assert b[i + 1] == SiteEnd(fn, a, b, i);
      assert c[i + 1] == SiteEnd(fn, b, c, i);
      if !Pads(fn, i) {
        SizesAt(fn, i, b[i], c[i]);
        LongEndMonotone(fn, i, b[i], b[i]);
        if TakesShort(fn, b, c, i) {
          ShortBefore(fn, a, b, c, i);
        }
      }
      GrownNext(fn, b, c, i);
    }
  }

  lemma ShortBefore(fn: Fn, a: seq<nat>, b: seq<nat>, c: seq<nat>, i: nat)
    requires SpansDecided(fn) && IsPass(fn, a, b) && IsPass(fn, b, c)
    requires TakesShortAt(fn, AlwaysShort(fn), a, b)
    requires Bounded(fn, a) && Bounded(fn, b) && Bounded(fn, c)
    requires NothingShrinks(fn, a, b) && Ascending(a) && i < |fn.sites|
    requires GrownUpTo(fn, b, c, i) && TakesShort(fn, b, c, i)
    ensures TakesShort(fn, a, b, i)
  {
    hide AlwaysShort, NeverReaches, NothingShrinks, GrownUpTo;
    if i in AlwaysShort(fn) {
    } else if NeverReaches(fn, i) {
      NeverReachingIsLong(fn, a, b, c, i);
    } else {
      ShortBeforeRigid(fn, a, b, c, i);
    }
  }

  lemma NeverReachingIsLong(fn: Fn, a: seq<nat>, b: seq<nat>, c: seq<nat>, i: nat)
    requires IsPass(fn, a, b) && IsPass(fn, b, c) && Bounded(fn, b) && Bounded(fn, c)
    requires i < |fn.sites| && Relaxable(fn, i) && NeverReaches(fn, i)
    ensures !TakesShort(fn, b, c, i)
  {
    hide NeverReaches, Formed;
    var k := LabelOf(fn, i);
    PassIsFormed(fn, {}, a, b);
    PassIsFormed(fn, {}, b, c);
    assert c[i + 1] == SiteEnd(fn, b, c, i);
    LongEndMonotone(fn, i, c[i], c[i]);
    if k > i {
      NeverReachesMeans(fn, b, i);
      ShortFitsIsByteRange(b[k], b[i + 1]);
    } else {
      NeverReachesMeans(fn, c, i);
      PassIsAscending(fn, b, c, k, i);
      ShortFitsIsByteRange(c[k], ShortEnd(fn, i, c[i]));
    }
  }

  lemma ShortBeforeRigid(fn: Fn, a: seq<nat>, b: seq<nat>, c: seq<nat>, i: nat)
    requires IsPass(fn, a, b) && IsPass(fn, b, c)
    requires Bounded(fn, a) && Bounded(fn, b) && Bounded(fn, c)
    requires NothingShrinks(fn, a, b) && Ascending(a) && i < |fn.sites| && Relaxable(fn, i) && SpansNoPadding(fn, i)
    requires GrownUpTo(fn, b, c, i) && TakesShort(fn, b, c, i)
    ensures TakesShort(fn, a, b, i)
  {
    var k := LabelOf(fn, i);
    SpanIsRigid(fn, i);
    assert b[i + 1] == SiteEnd(fn, a, b, i) && c[i + 1] == SiteEnd(fn, b, c, i);
    if k > i {
      PassIsAscending(fn, a, b, i + 1, k);
      ShortFitsIsByteRange(a[k], a[i + 1]);
      ShortFitsIsByteRange(b[k], b[i + 1]);
      assert Gap(a, i + 1, k) <= Gap(b, i + 1, k);
    } else {
      GrownStretch(fn, b, c, i, k, i);
      PassIsAscending(fn, a, b, k, i);
      LongEndMonotone(fn, i, b[i], b[i]);
      LongEndMonotone(fn, i, c[i], c[i]);
      ShortFitsIsByteRange(b[k], ShortEnd(fn, i, b[i]));
      ShortFitsIsByteRange(c[k], ShortEnd(fn, i, c[i]));
    }
  }

  lemma ZerosUnderAny(fn: Fn, a: seq<nat>)
    requires Ascending(a) && |a| == |fn.sites| + 1
    ensures NothingShrinks(fn, Zeros(|a|), a)
  {
  }

  lemma PassAscends(fn: Fn, prev: seq<nat>, next: seq<nat>)
    requires IsPass(fn, prev, next)
    ensures Ascending(next)
  {
    forall j, k | 0 <= j <= k < |next|
      ensures next[j] <= next[k]
    {
      PassIsAscending(fn, prev, next, j, k);
    }
  }

  lemma RunAscends(fn: Fn, run: seq<seq<nat>>, t: nat)
    requires IsRun(fn, run) && t < |run|
    ensures |run[t]| == |fn.sites| + 1 && run[t][0] == 0 && Ascending(run[t])
  {
    if t > 0 {
      assert IsPass(fn, run[t - 1], run[t]);
      PassAscends(fn, run[t - 1], run[t]);
    }
  }

  // Where the lengths decide, no pass moves anything left or shortens any code without padding.
  lemma {:induction false} RunNeverShrinks(fn: Fn, run: seq<seq<nat>>, t: nat)
    requires SpansDecided(fn) && IsRun(fn, run) && t + 1 < |run|
    ensures NothingShrinks(fn, run[t], run[t + 1])
  {
    hide SpansDecided, NothingShrinks, GrownUpTo;
    RunAscends(fn, run, t);
    RunAscends(fn, run, t + 1);
    assert IsPass(fn, run[t], run[t + 1]);
    if t == 0 {
      ZerosUnderAny(fn, run[1]);
    } else {
      RunNeverShrinks(fn, run, t - 1);
      RunAscends(fn, run, t - 1);
      RunIsBounded(fn, run, t - 1);
      RunIsBounded(fn, run, t);
      RunIsBounded(fn, run, t + 1);
      ShortInEveryPass(fn, run, |fn.sites|, t);
      PassGrows(fn, run[t - 1], run[t], run[t + 1], |fn.sites|);
      GrownMeans(fn, run[t], run[t + 1]);
    }
  }

  // So the "moved left" exit is out of reach there.
  lemma NeverMovesLeft(fn: Fn, run: seq<seq<nat>>, t: nat, i: nat)
    requires SpansDecided(fn) && IsRun(fn, run) && t + 1 < |run|
    requires i <= |fn.sites|
    ensures |run[t]| == |run[t + 1]| == |fn.sites| + 1 && run[t][i] <= run[t + 1][i]
  {
    RunNeverShrinks(fn, run, t);
  }

  lemma WithoutPadding(fn: Fn)
    requires forall i :: 0 <= i < |fn.sites| && Relaxable(fn, i) ==> SpansNoPadding(fn, i)
    ensures SpansDecided(fn)
  {
  }

  // In a function without any align, every stretch between two commands is covered.
  lemma SitesNeverShrink(fn: Fn, run: seq<seq<nat>>, t: nat)
    requires (forall i :: 0 <= i < |fn.sites| ==> !fn.sites[i].reloc.Align?) && IsRun(fn, run) && t + 1 < |run|
    ensures |run[t]| == |run[t + 1]|
    ensures forall j, k :: 0 <= j <= k < |run[t]| ==> Gap(run[t], j, k) <= Gap(run[t + 1], j, k)
  {
    WithoutPadding(fn);
    RunNeverShrinks(fn, run, t);
    forall j, k | 0 <= j <= k < |run[t]|
      ensures Gap(run[t], j, k) <= Gap(run[t + 1], j, k)
    {
      assert Rigid(fn, j, k);
    }
  }

  // There, too, every pass of every run stays below every layout whose short branches reach.
  lemma {:induction false} RunBelowEveryLayout(fn: Fn, run: seq<seq<nat>>, t: nat, v: seq<nat>)
    requires SpansDecided(fn) && IsRun(fn, run) && t < |run|
    requires ValidLayout(fn, v)
    ensures NothingShrinks(fn, run[t], v)
  {
    hide SpansDecided, NothingShrinks, GrownUpTo;
    if t == 0 {
      LayoutAscends(fn, v);
      ZerosUnderAny(fn, v);
    } else {
      RunBelowEveryLayout(fn, run, t - 1, v);
      RunAscends(fn, run, t - 1);
      RunIsBounded(fn, run, t - 1);
      RunIsBounded(fn, run, t);
      ShortInEveryPass(fn, run, |fn.sites|, t);
      PassBelowLayout(fn, run[t - 1], run[t], v, |fn.sites|);
      GrownMeans(fn, run[t], v);
    }
  }

  lemma LayoutAscends(fn: Fn, v: seq<nat>)
    requires ValidLayout(fn, v)
    ensures Ascending(v)
  {
    forall j, k | 0 <= j <= k < |v|
      ensures v[j] <= v[k]
    {
      LayoutAscendsFrom(fn, v, j, k);
    }
  }

  lemma {:induction false} LayoutAscendsFrom(fn: Fn, v: seq<nat>, j: nat, k: nat)
    requires ValidLayout(fn, v) && j <= k < |v|
    ensures v[j] <= v[k]
    decreases k
  {
    if j < k {
      LayoutAscendsFrom(fn, v, j, k - 1);
      assert LaidOut(fn, v, k - 1);
      LongEndMonotone(fn, k - 1, v[k - 1], v[k - 1]);
    }
  }

  // ---------- Stable positions ----------

  // Positions that a pass leaves unchanged form a layout, with or without align.
  lemma StableIsLayout(fn: Fn, p: seq<nat>)
    requires IsPass(fn, p, p) && Bounded(fn, p)
    ensures ValidLayout(fn, p)
  {
    forall i | 0 <= i < |fn.sites|
      ensures LaidOut(fn, p, i)
    {
      assert p[i + 1] == SiteEnd(fn, p, p, i);
      if TakesShort(fn, p, p, i) {
        ShortFitsIsByteRange(p[fn.labels[fn.sites[i].reloc.name]], p[i + 1]);
      }
    }
  }

  // Measured from stable positions, the displacement that emission tests (against the short
  // end, for labels on either side) picks the same form as the pass did.
  lemma EmissionChoosesAlike(fn: Fn, p: seq<nat>, i: nat)
    requires IsPass(fn, p, p) && Bounded(fn, p) && i < |fn.sites|
    requires Relaxable(fn, i)
    ensures ShortFits(Sub32(p[fn.labels[fn.sites[i].reloc.name]], ShortEnd(fn, i, p[i]))) <==> TakesShort(fn, p, p, i)
  {
    var k := fn.labels[fn.sites[i].reloc.name];
    assert p[i + 1] == SiteEnd(fn, p, p, i);
    LongEndMonotone(fn, i, p[i], p[i]);
    if k > i {
      PassIsAscending(fn, p, p, i + 1, k);
      ShortFitsIsByteRange(p[k], p[i + 1]);
      ShortFitsIsByteRange(p[k], ShortEnd(fn, i, p[i]));
    }
  }

  // ---------- How many passes ----------

  function RelaxableSites(fn: Fn): set<nat> {
    set i: nat | i < |fn.sites| && Relaxable(fn, i)
  }

  function LongSites(fn: Fn, p: seq<nat>): (s: set<nat>)
    requires |p| == |fn.sites| + 1
    ensures s <= RelaxableSites(fn)
  {
    set i: nat | i < |fn.sites| && Relaxable(fn, i) && p[i + 1] != ShortEnd(fn, i, p[i])
  }

  lemma LongSitesGrow(fn: Fn, a: seq<nat>, b: seq<nat>, c: seq<nat>)
    requires IsPass(fn, a, b) && IsPass(fn, b, c) && NothingShrinks(fn, b, c)
    ensures LongSites(fn, b) <= LongSites(fn, c)
    ensures b != c ==> LongSites(fn, b) < LongSites(fn, c)
  {
    forall i: nat | i in LongSites(fn, b)
      ensures i in LongSites(fn, c)
    {
      assert b[i + 1] == SiteEnd(fn, a, b, i);
      SizesAt(fn, i, b[i], c[i]);
      LongEndMonotone(fn, i, b[i], b[i]);
      assert Rigid(fn, i, i + 1);
      assert Gap(b, i, i + 1) <= Gap(c, i, i + 1);
    }
    if LongSites(fn, b) == LongSites(fn, c) {
      SameLongSites(fn, a, b, c, |fn.sites|);
      assert b == c;
    }
  }

  // The forms of the branches determine the positions.
  lemma {:induction false} SameLongSites(fn: Fn, a: seq<nat>, b: seq<nat>, c: seq<nat>, n: nat)
    requires IsPass(fn, a, b) && IsPass(fn, b, c) && n <= |fn.sites|
    requires LongSites(fn, b) == LongSites(fn, c)
    ensures forall i :: 0 <= i <= n ==> b[i] == c[i]
  {
    if n > 0 {
      var i := n - 1;
      SameLongSites(fn, a, b, c, i);
      assert b[i + 1] == SiteEnd(fn, a, b, i);
      assert c[i + 1] == SiteEnd(fn, b, c, i);
      assert i in LongSites(fn, b) <==> i in LongSites(fn, c);
    }
  }

  lemma {:induction false} EachPassAddsALongSite(fn: Fn, run: seq<seq<nat>>, t: nat)
    requires SpansDecided(fn) && IsRun(fn, run) && 0 < t < |run|
    requires forall u :: 0 < u <= t ==> run[u - 1] != run[u]
    ensures |run[t]| == |fn.sites| + 1 && |LongSites(fn, run[t])| >= t - 1
  {
    hide SpansDecided, NothingShrinks, LongSites;
    assert IsPass(fn, run[t - 1], run[t]);
    if t > 1 {
      EachPassAddsALongSite(fn, run, t - 1);
      RunNeverShrinks(fn, run, t - 1);
      assert IsPass(fn, run[t - 2], run[t - 1]);
      LongSitesGrow(fn, run[t - 2], run[t - 1], run[t]);
      ProperSubsetIsSmaller(LongSites(fn, run[t - 1]), LongSites(fn, run[t]));
    }
  }

  lemma ProperSubsetIsSmaller<T>(a: set<T>, b: set<T>)
    requires a < b
    ensures |a| < |b|
  {
    var x :| x in b && x !in a;
    SubsetIsNoLarger(a, b - {x});
  }

  lemma {:induction false} SubsetIsNoLarger<T>(a: set<T>, b: set<T>)
    requires a <= b
    ensures |a| <= |b|
  {
    if a != {} {
      var x :| x in a;
      SubsetIsNoLarger(a - {x}, b - {x});
    }
  }

  // Where the lengths decide, the loop makes at most two passes more than there are relaxable
  // branches: of all passes only the last may leave the positions as they were.
  lemma PassesAreFew(fn: Fn, run: seq<seq<nat>>)
    requires SpansDecided(fn) && IsRun(fn, run)
    requires forall u :: 0 < u < |run| - 1 ==> run[u - 1] != run[u]
    ensures |run| - 1 <= |RelaxableSites(fn)| + 2
  {
    if |run| >= 3 {
      var t := |run| - 2;
      EachPassAddsALongSite(fn, run, t);
      SubsetIsNoLarger(LongSites(fn, run[t]), RelaxableSites(fn));
    }
  }

  // With align, a pass that does not move left may still be followed by one that does: code of
  // 125 bytes, a jmp over an `align 256` to the label behind it. The second pass makes the jmp
  // long, which the padding absorbs, so the third pass makes it short again.
  function Retreating(): Fn {
    var fn := Fn([Site(seq(125, _ => 0x90) + [0xe9], Branch(Jmp, 1)), Site([], Align(255)), Site([], DefLabel(1))],
                 [], map[], map[0 := 0, 1 := 3]);
    assert LongPosition(fn, 1) == 130;
    assert LongPosition(fn, 2) == 256;
    fn
  }

  lemma AlignCanMoveLeft()
    ensures var fn := Retreating();
            var run := [Zeros(4), [0, 127, 256, 256], [0, 130, 256, 256], [0, 127, 256, 256]];
            && Resolvable(fn)
            && IsRun(fn, run)
            && ValidLayout(fn, run[2])
            && run[3][1] < run[2][1]
  {
    var fn := Retreating();
    var z: seq<nat>, p1: seq<nat>, p2: seq<nat> := Zeros(4), [0, 127, 256, 256], [0, 130, 256, 256];
    PassOfRetreating(z, p1);
    PassOfRetreating(p1, p2);
    PassOfRetreating(p2, p1);
    var run := [z, p1, p2, p1];
    assert IsPass(fn, run[0], run[1]) && IsPass(fn, run[1], run[2]) && IsPass(fn, run[2], run[3]);
    assert LaidOut(fn, p2, 0) && LaidOut(fn, p2, 1) && LaidOut(fn, p2, 2);
  }

  lemma PassOfRetreating(prev: seq<nat>, next: seq<nat>)
    requires |prev| == |next| == 4 && next[0] == 0
    requires next[1] == SiteEnd(Retreating(), prev, next, 0)
    requires next[2] == AlignUp(next[1], 256) && next[3] == next[2]
    ensures IsPass(Retreating(), prev, next)
  {
  }
}

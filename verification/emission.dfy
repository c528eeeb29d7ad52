// The second pass over a function whose positions are stable: it emits the bytes, rewriting
// opcodes to the form that relaxation settled on.
module Emission {
  import opened Words
  import opened Relaxation

  // A fixup left for load time: the place of a 32-bit field that holds a symbol index, or, for
  // a phantom reference, the symbol index itself.
  datatype RunReloc = Field(where: nat, kind: u8) | Phantom(index: u32)

  const RUN_RELOC_CALL_OR_JMP: u8 := 0x08

  // ---------- Label look-up tables ----------

  function Scale(s: nat): (p: nat)
    requires s <= 3
    ensures p > 0
  {
    if s == 0 then 1 else if s == 1 then 2 else if s == 2 then 4 else 8
  }

  // Shifting every distance right by `s` loses nothing and leaves at most a byte.
  predicate Packs(deltas: seq<nat>, s: nat)
    requires s <= 3
  {
    forall j :: 0 <= j < |deltas| ==> deltas[j] % Scale(s) == 0 && deltas[j] / Scale(s) <= 255
  }

  function LutShift(deltas: seq<nat>): (r: Option<nat>)
    ensures r.Some? ==> r.value <= 3 && Packs(deltas, r.value) && forall s :: 0 <= s < r.value ==> !Packs(deltas, s)
    ensures r.None? ==> forall s :: 0 <= s <= 3 ==> !Packs(deltas, s)
  {
    if Packs(deltas, 0) then Some(0)
    else if Packs(deltas, 1) then Some(1)
    else if Packs(deltas, 2) then Some(2)
    else if Packs(deltas, 3) then Some(3)
    else None
  }

  // The largest label, as `max_u32`.
  method MaxLabel(labels: array<nat>) returns (result: nat)
    ensures forall i :: 0 <= i < labels.Length ==> labels[i] <= result
    ensures result == 0 || result in labels[..]
  {
    result := 0;
    for i := 0 to labels.Length
      invariant forall j :: 0 <= j < i ==> labels[j] <= result
      invariant result == 0 || result in labels[..]
    {
      if labels[i] > result {
        result := labels[i];
      }
    }
  }

  // The labels with the first `n` of them halved.
  ghost predicate HalvedUpTo(s: seq<nat>, t: seq<nat>, n: nat) {
    && n <= |s| == |t|
    && (forall j :: 0 <= j < n ==> s[j] == 2 * t[j])
    && forall j :: n <= j < |s| ==> t[j] == s[j]
  }

  // Halves every label up to the first odd one, as `remove_labels_low_bit`.
  method RemoveLowBit(labels: array<nat>) returns (ok: bool)
    modifies labels
    ensures ok ==> HalvedUpTo(old(labels[..]), labels[..], labels.Length)
    ensures !ok ==> exists k :: 0 <= k < labels.Length && old(labels[k]) % 2 == 1 &&
                                HalvedUpTo(old(labels[..]), labels[..], k)
  {
    for i := 0 to labels.Length
      invariant forall j :: 0 <= j < i ==> old(labels[j]) == 2 * labels[j]
      invariant forall j :: i <= j < labels.Length ==> labels[j] == old(labels[j])
    {
      if labels[i] % 2 == 1 {
        return false;
      }
      labels[i] := labels[i] / 2;
    }
    return true;
  }

  // Packs the distances held in `labels` into bytes, in place.
  method PackLabels(labels: array<nat>) returns (shift: Option<nat>)
    modifies labels
    ensures shift == LutShift(old(labels[..]))
    ensures shift.Some? ==>
      forall i :: 0 <= i < labels.Length ==> labels[i] <= 255 && labels[i] * Scale(shift.value) == old(labels[i])
  {
    ghost var deltas := labels[..];
    var s := 0;
    var max := MaxLabel(labels);
    while max > 255
      invariant 0 <= s <= 3
      invariant forall i :: 0 <= i < labels.Length ==> labels[i] <= max
      invariant max == 0 || max in labels[..]
      invariant forall i :: 0 <= i < labels.Length ==> labels[i] * Scale(s) == deltas[i]
      invariant forall u :: 0 <= u < s ==> !Packs(deltas, u)
      decreases 3 - s, max
    {
      ghost var k :| 0 <= k < labels.Length && labels[k] == max;
      ghost var before := labels[..];
      assert deltas[k] == max * Scale(s);
      TooLarge(deltas, k, max, s);
      if s >= 3 {
        NoShiftLeft(deltas);
        return None;
      }
      var ok := RemoveLowBit(labels);
      if !ok {
        ghost var j :| 0 <= j < labels.Length && before[j] % 2 == 1;
        OddStaysOdd(deltas, j, before[j], s);
        NoShiftLeft(deltas);
        return None;
      }
      s := s + 1;
      forall i | 0 <= i < labels.Length
        ensures labels[i] * Scale(s) == deltas[i]
      {
        assert before[i] == 2 * labels[i];
      }
      max := MaxLabel(labels);
    }
    forall i | 0 <= i < labels.Length
      ensures deltas[i] % Scale(s) == 0 && deltas[i] / Scale(s) <= 255
    {
      QuotientIs(deltas[i], Scale(s), labels[i], 0);
    }
    assert Packs(deltas, s);
    shift := Some(s);
  }

  lemma TooLarge(deltas: seq<nat>, k: nat, x: nat, s: nat)
    requires k < |deltas| && s <= 3 && x > 255 && deltas[k] == x * Scale(s)
    ensures forall u :: 0 <= u <= s ==> !Packs(deltas, u)
  {
    forall u | 0 <= u <= s
      ensures !Packs(deltas, u)
    {
      assert deltas[k] / Scale(u) > 255;
    }
  }

  lemma OddStaysOdd(deltas: seq<nat>, j: nat, x: nat, s: nat)
    requires j < |deltas| && s < 3 && x % 2 == 1 && deltas[j] == x * Scale(s)
    ensures forall u :: s < u <= 3 ==> !Packs(deltas, u)
  {
    forall u | s < u <= 3
      ensures !Packs(deltas, u)
    {
      assert deltas[j] % Scale(u) != 0;
    }
  }

  lemma NoShiftLeft(deltas: seq<nat>)
    requires forall u :: 0 <= u <= 3 ==> !Packs(deltas, u)
    ensures LutShift(deltas) == None
  {
  }

  // ---------- The bytes of one site ----------

  // The single instructions that do nothing, by length.
  function Nop(n: nat): (s: seq<u8>)
    requires n <= 9
    ensures |s| == n
  {
    match n
    case 0 => []
    case 1 => [0x90]
    case 2 => [0x66, 0x90]
    case 3 => [0x0f, 0x1f, 0x00]
    case 4 => [0x0f, 0x1f, 0x40, 0x00]
    case 5 => [0x0f, 0x1f, 0x44, 0x00, 0x00]
    case 6 => [0x66, 0x0f, 0x1f, 0x44, 0x00, 0x00]
    case 7 => [0x0f, 0x1f, 0x80, 0x00, 0x00, 0x00, 0x00]
    case 8 => [0x0f, 0x1f, 0x84, 0x00, 0x00, 0x00, 0x00, 0x00]
    case 9 => [0x66, 0x0f, 0x1f, 0x84, 0x00, 0x00, 0x00, 0x00, 0x00]
  }

  function Filler(n: nat): (s: seq<u8>)
    ensures |s| == n
  {
    if n <= 9 then Nop(n) else seq(n, _ => 0xcc)
  }

  // Padding of `amt` bytes: one nop, or a jump over the rest.
  function PadBytes(amt: nat): (s: seq<u8>)
    requires amt < 0x100
    ensures |s| == amt
  {
    if amt <= 9 then Nop(amt)
    else if amt <= 129 then [0xeb, amt - 2] + Filler(amt - 2)
    else [0xe9] + Le32(amt - 5) + Filler(amt - 5)
  }

  function LabelPositions(fn: Fn, p: seq<nat>, names: seq<Name>): (s: seq<nat>)
    requires |p| == |fn.sites| + 1
    requires forall j :: 0 <= j < |names| ==> names[j] in fn.labels
    ensures |s| == |names|
  {
    seq(|names|, j requires 0 <= j < |names| => p[fn.labels[names[j]]])
  }

  // The least of the first `n` labels, starting from `~(uint32_t)0`.
  function MinUpTo(s: seq<nat>, n: nat): (m: nat)
    requires n <= |s|
    ensures forall j :: 0 <= j < n ==> m <= s[j]
  {
    if n == 0 then TWO_32 - 1
    else
      var r := MinUpTo(s, n - 1);
      if s[n - 1] < r then s[n - 1] else r
  }

  function MinOf(s: seq<nat>): (m: nat)
    ensures forall j :: 0 <= j < |s| ==> m <= s[j]
  {
    MinUpTo(s, |s|)
  }

  function Deltas(s: seq<nat>): (d: seq<nat>)
    ensures |d| == |s|
  {
    var m := MinOf(s);
    seq(|s|, j requires 0 <= j < |s| => s[j] - m)
  }

  // The six instructions of a label look-up.
  function ShlBytes(): seq<u8> {
    [0xc1, 0xe1, 0x03]
  }

  function MovBytes(reg: nat, packed: seq<u8>): (s: seq<u8>)
    requires reg < 16 && |packed| <= 8
    ensures |s| == 10
  {
    [0x48 + reg / 8, 0xb8 + reg % 8] + (packed + seq(8 - |packed|, _ => 0))
  }

  function ShrBytes(reg: nat): seq<u8>
    requires reg < 16
  {
    [0x48 + reg / 8, 0xd3, 0xe8 + reg % 8]
  }

  function MovzxBytes(reg: nat): seq<u8>
    requires reg < 16
  {
    (if reg >= 4 then [0x40 + reg / 8] else []) + [0x0f, 0xb6, 0xc8 + reg % 8]
  }

  function LeaBaseBytes(reg: nat, base: nat, leaEnd: nat): seq<u8>
    requires reg < 16
  {
    [0x48 + 4 * (reg / 8), 0x8d, 0x05 + 8 * (reg % 8)] + Le32(Sub32(base, leaEnd))
  }

  function LeaSumBytes(reg: nat, shift: nat): seq<u8>
    requires reg < 16 && shift <= 3
  {
    var lo := reg % 8;
    [0x48 + 5 * (reg / 8), 0x8d, 0x04 + 8 * lo + (if lo == 5 then 0x40 else 0), 0x08 + lo + 0x40 * shift] +
    (if lo == 5 then [0] else [])
  }

  function LutBytes(reg: nat, packed: seq<u8>, base: nat, shift: nat, off: nat): (s: seq<u8>)
    requires reg < 16 && |packed| <= 8 && shift <= 3
    ensures |s| == LutSize(reg)
  {
    var leaEnd := off + 26 + (if reg >= 4 then 1 else 0);
    ShlBytes() + MovBytes(reg, packed) + ShrBytes(reg) + MovzxBytes(reg) + LeaBaseBytes(reg, base, leaEnd) +
        LeaSumBytes(reg, shift)
  }

  ghost predicate Stable(fn: Fn, p: seq<nat>) {
    && Resolvable(fn)
    && IsPass(fn, p, p)
    && Bounded(fn, p)
  }

  // Whether the label table of site `i`, if it is one, can be encoded.
  predicate LutNamesKnown(fn: Fn, i: nat)
    requires i < |fn.sites|
  {
    fn.sites[i].reloc.LabelLut? ==> forall j :: 0 <= j < |fn.sites[i].reloc.names| ==>
          fn.sites[i].reloc.names[j] in fn.labels
  }

  predicate LutEncodable(fn: Fn, p: seq<nat>, i: nat)
    requires i < |fn.sites| && |p| == |fn.sites| + 1
  {
    && LutNamesKnown(fn, i)
    && (fn.sites[i].reloc.LabelLut? ==> LutShift(Deltas(LabelPositions(fn, p, fn.sites[i].reloc.names))).Some?)
  }

  // Labels fit into a table with a shift if any two lie apart by a multiple of what an entry counts,
  // and by at most 255 of them.
  predicate FitsTable(at: seq<nat>, s: nat)
    requires s <= 3
  {
    forall j, k :: 0 <= j < |at| && 0 <= k < |at| && at[j] >= at[k] ==>
      var d, unit := at[j] - at[k], [1, 2, 4, 8][s]; d % unit == 0 && d <= 255 * unit
  }

  // A table can be encoded if and only if its names are labels that fit with some shift.
  lemma TableFails(fn: Fn, p: seq<nat>, i: nat)
    requires i < |fn.sites| && |p| == |fn.sites| + 1
    requires forall j :: 0 <= j < |p| ==> p[j] < TWO_32
    ensures LutEncodable(fn, p, i) <==>
              fn.sites[i].reloc.LabelLut? ==>
                var names := fn.sites[i].reloc.names;
                && (forall j :: 0 <= j < |names| ==> names[j] in fn.labels)
                && exists s :: 0 <= s <= 3 && FitsTable(LabelPositions(fn, p, names), s)
  {
    if fn.sites[i].reloc.LabelLut? && LutNamesKnown(fn, i) {
      var at := LabelPositions(fn, p, fn.sites[i].reloc.names);
      forall s | 0 <= s <= 3
        ensures Packs(Deltas(at), s) <==> FitsTable(at, s)
      {
        PacksIsFits(at, s);
      }
    }
  }

  lemma PacksIsFits(at: seq<nat>, s: nat)
    requires s <= 3 && forall j :: 0 <= j < |at| ==> at[j] < TWO_32
    ensures Packs(Deltas(at), s) <==> FitsTable(at, s)
  {
    hide MinUpTo;
    var unit := [1, 2, 4, 8][s];
    assert unit == Scale(s);
    var m := MinOf(at);
    if Packs(Deltas(at), s) {
      forall j, k | 0 <= j < |at| && 0 <= k < |at| && at[j] >= at[k]
        ensures (at[j] - at[k]) % unit == 0 && at[j] - at[k] <= 255 * unit
      {
        assert Deltas(at)[j] == at[j] - m && Deltas(at)[k] == at[k] - m;
        MultiplesAdd(at[j] - m, at[k] - m, unit);
      }
    }
    if FitsTable(at, s) && |at| > 0 {
      var k := MinIsAttained(at, |at|);
      forall j | 0 <= j < |at|
        ensures Deltas(at)[j] % unit == 0 && Deltas(at)[j] / unit <= 255
      {
        assert at[j] >= at[k];
      }
    }
  }

  lemma {:induction false} MinIsAttained(s: seq<nat>, n: nat) returns (j: nat)
    requires 0 < n <= |s| && forall k :: 0 <= k < n ==> s[k] < TWO_32
    ensures j < n && s[j] == MinUpTo(s, n)
  {
    j := n - 1;
    if n > 1 && s[n - 1] >= MinUpTo(s, n - 1) {
      j := MinIsAttained(s, n - 1);
    }
  }

  function DropLast(s: seq<u8>): (r: seq<u8>)
    requires |s| > 0
  {
    s[..|s| - 1]
  }

  function Last(s: seq<u8>): u8
    requires |s| > 0
  {
    s[|s| - 1]
  }

  // A jcc of the long form: 7x becomes 0f 8x.
  function LongJcc(code: seq<u8>): (r: seq<u8>)
    requires |code| > 0
    ensures |r| == |code| + 1
  {
    DropLast(code) + [0x0f, (Last(code) + 0x10) % 0x100]
  }

  // What emission writes for a local branch whose operand starts at `o` and whose label is at `k`.
  function LocalBranchBytes(code: seq<u8>, kind: BranchKind, k: nat, o: nat): (r: seq<u8>)
    requires |code| > 0
  {
    var d := Sub32(k, o + 1);
    if kind != Call && ShortFits(d) then
      (if kind == Jmp then DropLast(code) + [0xeb] else code) + [d % 0x100]
    else if kind == Jcc then
      LongJcc(code) + Le32(Sub32(d, 4))
    else
      code + Le32(Sub32(d, 3))
  }

  function GlobalBranchBytes(code: seq<u8>, kind: BranchKind, g: Global): (r: seq<u8>)
    requires |code| > 0
  {
    (if g.isExtern then DropLast(code) + [0xff, (Last(code) % 2) * 0x10 + 0x15]
     else if kind == Jcc then LongJcc(code)
     else code)
    + Le32(g.index)
  }

  // The bytes of site `i`, from the code in front of its command to its end.
  function SiteBytes(fn: Fn, p: seq<nat>, i: nat): (r: seq<u8>)
    requires Resolvable(fn)
    requires i < |fn.sites| && |p| == |fn.sites| + 1 && LutEncodable(fn, p, i)
  {
    var Site(code, reloc) := fn.sites[i];
    var o := p[i] + |code|;
    assert WellFormedSite(fn.sites[i]) && Resolves(fn, i);
    match reloc
    case RipRef(imm, name) =>
      var end := o + 4 + |imm|;
      code + Le32(if name in fn.labels then Sub32(p[fn.labels[name]], end) else fn.globals[name].index) + imm
    case Branch(kind, name) =>
      if name in fn.labels then LocalBranchBytes(code, kind, p[fn.labels[name]], o)
      else GlobalBranchBytes(code, kind, fn.globals[name])
    case DefLabel(_) => code
    case PhantomRef(_) => code
    case Align(mask) => code + PadBytes(Padding(o, mask + 1))
    case LabelLut(reg, names) =>
      var at := LabelPositions(fn, p, names);
      var deltas := Deltas(at);
      var shift := LutShift(deltas).value;
      code + LutBytes(reg, Packed(deltas, shift), MinOf(at), shift, o)
  }

  function Packed(deltas: seq<nat>, shift: nat): (b: seq<u8>)
    requires shift <= 3 && Packs(deltas, shift)
    ensures |b| == |deltas|
  {
    seq(|deltas|, j requires 0 <= j < |deltas| => deltas[j] / Scale(shift))
  }

  // The two passes agree on the size of every site.
  lemma SiteBytesFillSite(fn: Fn, p: seq<nat>, i: nat)
    requires Stable(fn, p) && i < |fn.sites| && LutEncodable(fn, p, i)
    ensures p[i] + |SiteBytes(fn, p, i)| == p[i + 1]
  {
    assert p[i + 1] == SiteEnd(fn, p, p, i);
    assert WellFormedSite(fn.sites[i]) && Resolves(fn, i);
    var Site(code, reloc) := fn.sites[i];
    if Relaxable(fn, i) {
      EmissionChoosesAlike(fn, p, i);
    }
    if reloc.Align? {
      PaddingReachesAlignment(p[i] + |code|, reloc.mask + 1);
    }
  }

  // The fixups of site `i`.
  function SiteRelocs(fn: Fn, p: seq<nat>, i: nat): (r: seq<RunReloc>)
    requires Resolvable(fn) && i < |fn.sites| && |p| == |fn.sites| + 1
  {
    var Site(code, reloc) := fn.sites[i];
    var o := p[i] + |code|;
    assert Resolves(fn, i);
    match reloc
    case RipRef(imm, name) =>
      if name in fn.labels then [] else [Field(o, if |imm| == 4 then 3 else if |imm| < 4 then |imm| else 0)]
    case Branch(kind, name) =>
      if name in fn.labels then []
      else if kind == Jcc then [Field(o + 1, 0)]
      else [Field(o + (if fn.globals[name].isExtern then 1 else 0), RUN_RELOC_CALL_OR_JMP)]
    case PhantomRef(name) => [Phantom(fn.globals[name].index)]
    case _ => []
  }

  // The count that the relaxation pass keeps in order to size the output.
  function RelocsAt(fn: Fn, i: nat): nat
    requires i < |fn.sites|
  {
    match fn.sites[i].reloc
    case RipRef(_, name) => if name in fn.labels then 0 else 1
    case Branch(_, name) => if name in fn.labels then 0 else 1
    case PhantomRef(_) => 1
    case _ => 0
  }

  function CountRelocs(fn: Fn, n: nat): nat
    requires n <= |fn.sites|
  {
    if n == 0 then 0 else CountRelocs(fn, n - 1) + RelocsAt(fn, n - 1)
  }

  // ---------- Reading the bytes back ----------

  // Where a direct branch goes, as the processor decodes it (Intel 64 manual, volume 2: JMP,
  // Jcc and CALL add a signed displacement to the address of the following instruction).
  datatype Decoded = Direct(kind: BranchKind, condition: u8, next: nat, target: int) | Other

  function Field32(b: seq<u8>, at: nat): (w: u32)
    requires at + 4 <= |b|
  {
    FromLe32(b[at..at + 4])
  }

  function Decode(b: seq<u8>, at: nat): Decoded {
    if at + 2 <= |b| && b[at] == 0xeb then
      Direct(Jmp, 0, at + 2, at + 2 + Signed8(b[at + 1]))
    else if at + 2 <= |b| && 0x70 <= b[at] < 0x80 then
      Direct(Jcc, b[at] - 0x70, at + 2, at + 2 + Signed8(b[at + 1]))
    else if at + 5 <= |b| && b[at] == 0xe9 then
      Direct(Jmp, 0, at + 5, at + 5 + Signed32(Field32(b, at + 1)))
    else if at + 5 <= |b| && b[at] == 0xe8 then
      Direct(Call, 0, at + 5, at + 5 + Signed32(Field32(b, at + 1)))
    else if at + 6 <= |b| && b[at] == 0x0f && 0x80 <= b[at + 1] < 0x90 then
      Direct(Jcc, b[at + 1] - 0x80, at + 6, at + 6 + Signed32(Field32(b, at + 2)))
    else Other
  }

  // The table of a label look-up: byte `j` of the 64-bit immediate, scaled as the SIB byte of the
  // last lea says and added to the address that the rip-relative lea computes, is label `j`.
  predicate LutMeans(b: seq<u8>, o: nat, reg: nat, at: seq<nat>) {
    var lea := o + 26 + (if reg >= 4 then 1 else 0);
    && lea + 4 <= |b|
    && |at| <= 8
    && forall j :: 0 <= j < |at| ==> LutTarget(b, lea, b[o + 5 + j]) == at[j]
  }

  function LutTarget(b: seq<u8>, lea: nat, entry: u8): int
    requires 4 <= lea && lea + 4 <= |b|
  {
    lea + Signed32(Field32(b, lea - 4)) + entry * Scale(b[lea + 3] / 0x40)
  }

  // How many bytes the ModRM byte brings with it, a SIB byte and a displacement, where the address
  // is not that of a register and there is no SIB byte without a base.
  function AddressBytes(modrm: u8): nat {
    var mod, rm := modrm / 0x40, modrm % 8;
    if mod == 0 then (if rm == 4 then 1 else if rm == 5 then 4 else 0)
    else if mod == 1 then (if rm == 4 then 2 else 1)
    else if mod == 2 then (if rm == 4 then 5 else 4)
    else 0
  }

  // The end of an instruction that does nothing, as the processor reads it (Intel 64 manual,
  // volume 2, NOP): 90, or 0f 1f with a ModRM byte whose middle bits are 0, either behind an
  // operand-size prefix 66.
  function NoOpEnd(b: seq<u8>, at: nat): Option<nat> {
    var p := if at < |b| && b[at] == 0x66 then at + 1 else at;
    if p < |b| && b[p] == 0x90 then Some(p + 1)
    else if p + 3 <= |b| && b[p] == 0x0f && b[p + 1] == 0x1f && b[p + 2] / 8 % 8 == 0
            && !(b[p + 2] == 0x04 && p + 4 <= |b| && b[p + 3] % 8 == 5)
            && p + 3 + AddressBytes(b[p + 2]) <= |b|
    then Some(p + 3 + AddressBytes(b[p + 2]))
    else None
  }

  // Padding ends at the first multiple of `a`, and execution that enters it gets there: by one
  // instruction that does nothing, or by a jump. What is jumped over does nothing or traps.
  predicate PaddingMeans(b: seq<u8>, o: nat, end: nat, a: nat)
    requires o <= end <= |b| && a > 0
  {
    && end % a == 0
    && end < o + a
    && (o < end <= o + 9 ==> NoOpEnd(b, o) == Some(end))
    && (end > o + 9 ==>
         var d := Decode(b, o);
         && d.Direct? && d.kind == Jmp && d.next <= end && d.target == end
         && (d.next < end <= d.next + 9 ==> NoOpEnd(b, d.next) == Some(end))
         && (end > d.next + 9 ==> forall k :: d.next <= k < end ==> b[k] == 0xcc))
  }

  // What the bytes from `p[i]` to `p[i + 1]` mean, in terms of label positions.
  predicate SiteMeans(fn: Fn, p: seq<nat>, i: nat, b: seq<u8>)
    requires Resolvable(fn)
    requires i < |fn.sites| && |p| == |fn.sites| + 1
  {
    var Site(code, reloc) := fn.sites[i];
    var o := p[i] + |code|;
    var end := p[i + 1];
    assert Resolves(fn, i) && WellFormedSite(fn.sites[i]);
    && o <= end <= |b|
    && match reloc
       case RipRef(imm, name) =>
         && end == o + 4 + |imm|
         && b[o + 4..end] == imm
         && (if name in fn.labels then end + Signed32(Field32(b, o)) == p[fn.labels[name]]
             else Field32(b, o) == fn.globals[name].index)
       case Branch(kind, name) =>
         if name in fn.labels then
           Decode(b, o - 1) == Direct(kind, if kind == Jcc then Last(code) - 0x70 else 0, end, p[fn.labels[name]])
         else
           && end == o + (if kind == Jcc || fn.globals[name].isExtern then 5 else 4)
           && Field32(b, end - 4) == fn.globals[name].index
           && (if fn.globals[name].isExtern then b[o - 1] == 0xff && b[o] == (if kind == Call then 0x15 else 0x25)
               else Decode(b, o - 1).Direct? && Decode(b, o - 1).kind == kind
                    && (kind == Jcc ==> Decode(b, o - 1).condition == Last(code) - 0x70))
       case Align(mask) => PaddingMeans(b, o, end, mask + 1)
       case LabelLut(reg, names) =>
         && LutNamesKnown(fn, i)
         && LutMeans(b, o, reg, LabelPositions(fn, p, names))
       case DefLabel(_) => end == o
       case PhantomRef(_) => end == o
  }

  // The code in front of a command is emitted as it is, but for the opcode byte of a branch.
  predicate CodeStands(fn: Fn, p: seq<nat>, i: nat, b: seq<u8>)
    requires i < |fn.sites| && |p| == |fn.sites| + 1
  {
    var Site(code, reloc) := fn.sites[i];
    var n := if reloc.Branch? && |code| > 0 then |code| - 1 else |code|;
    p[i] + n <= |b| && b[p[i]..p[i] + n] == code[..n]
  }

  // ---------- The encodings mean what they should wherever they stand ----------

  ghost predicate StandsAt(b: seq<u8>, start: nat, s: seq<u8>) {
    start + |s| <= |b| && b[start..start + |s|] == s
  }

  lemma Within(b: seq<u8>, start: nat, s: seq<u8>, at: nat, t: seq<u8>)
    requires StandsAt(b, start, s) && StandsAt(s, at, t)
    ensures StandsAt(b, start + at, t)
  {
    var u := b[start..start + |s|];
    forall j | 0 <= j < |t|
      ensures b[start + at + j] == t[j]
    {
      assert u[at + j] == s[at..at + |t|][j];
    }
    assert b[start + at..start + at + |t|] == t;
  }

  lemma ByteOf(b: seq<u8>, start: nat, s: seq<u8>, j: nat)
    requires StandsAt(b, start, s) && j < |s|
    ensures b[start + j] == s[j]
  {
    assert b[start..start + |s|][j] == s[j];
  }

  lemma FieldOf(b: seq<u8>, start: nat, s: seq<u8>, at: nat, w: u32)
    requires StandsAt(b, start, s) && StandsAt(s, at, Le32(w))
    ensures start + at + 4 <= |b| && Field32(b, start + at) == w
  {
    Within(b, start, s, at, Le32(w));
    Le32RoundTrip(w);
  }

  lemma NestedSub32(a: nat, b: nat, c: nat)
    ensures Sub32(Sub32(a, b), c) == Sub32(a, b + c)
  {
    var q, r := (a - b) / TWO_32, Sub32(a, b);
    var q', r' := (r - c) / TWO_32, Sub32(r, c);
    assert a - (b + c) == (q + q') * TWO_32 + r';
    QuotientIs(a - (b + c), TWO_32, q + q', r');
  }

  lemma ShortBranchDecodes(b: seq<u8>, at: nat, op: u8, d: u8)
    requires StandsAt(b, at, [op, d]) && (op == 0xeb || 0x70 <= op < 0x80)
    ensures Decode(b, at) == Direct(if op == 0xeb then Jmp else Jcc, if op == 0xeb then 0 else op - 0x70,
                                    at + 2, at + 2 + Signed8(d))
  {
    ByteOf(b, at, [op, d], 0);
    ByteOf(b, at, [op, d], 1);
  }

  lemma LongBranchDecodes(b: seq<u8>, at: nat, op: u8, w: u32)
    requires StandsAt(b, at, [op] + Le32(w)) && (op == 0xe8 || op == 0xe9)
    ensures Decode(b, at) == Direct(if op == 0xe8 then Call else Jmp, 0, at + 5, at + 5 + Signed32(w))
  {
    var s := [op] + Le32(w);
    ByteOf(b, at, s, 0);
    assert s[1..5] == Le32(w);
    FieldOf(b, at, s, 1, w);
  }

  lemma LongJccDecodes(b: seq<u8>, at: nat, cc: u8, w: u32)
    requires cc < 0x10 && StandsAt(b, at, [0x0f, 0x80 + cc] + Le32(w))
    ensures Decode(b, at) == Direct(Jcc, cc, at + 6, at + 6 + Signed32(w))
  {
    var s := [0x0f, 0x80 + cc] + Le32(w);
    ByteOf(b, at, s, 0);
    ByteOf(b, at, s, 1);
    assert s[2..6] == Le32(w);
    FieldOf(b, at, s, 2, w);
  }

  // A byte or a 32-bit displacement computed by emission leads to the label.
  lemma ShortDisplacement(k: nat, end: nat)
    requires k < 0x8000_0000 && end < 0x8000_0000 && ShortFits(Sub32(k, end))
    ensures end + Signed8(Sub32(k, end) % 0x100) == k
  {
    Displacement32(k, end);
  }

  lemma ShortFormDecodes(b: seq<u8>, start: nat, code: seq<u8>, kind: BranchKind, k: nat)
    requires |code| > 0 && OpcodeOf(kind, Last(code)) && kind != Call
    requires k < 0x8000_0000 && start + |code| + 1 < 0x8000_0000
    requires ShortFits(Sub32(k, start + |code| + 1))
    requires StandsAt(b, start, (if kind == Jmp then DropLast(code) + [0xeb] else code) +
                                [Sub32(k, start + |code| + 1) % 0x100])
    ensures Decode(b, start + |code| - 1) ==
            Direct(kind, if kind == Jcc then Last(code) - 0x70 else 0, start + |code| + 1, k)
  {
    var n := |code|;
    var op := if kind == Jmp then 0xeb else Last(code);
    var d := Sub32(k, start + n + 1) % 0x100;
    var s := (if kind == Jmp then DropLast(code) + [0xeb] else code) + [d];
    assert s[n - 1..n + 1] == [op, d];
    Within(b, start, s, n - 1, [op, d]);
    ShortBranchDecodes(b, start + n - 1, op, d);
    ShortDisplacement(k, start + n + 1);
  }

  lemma LongJccFormDecodes(b: seq<u8>, start: nat, code: seq<u8>, k: nat)
    requires |code| > 0 && OpcodeOf(Jcc, Last(code)) && k < 0x8000_0000 && start + |code| + 5 < 0x8000_0000
    requires StandsAt(b, start, LongJcc(code) + Le32(Sub32(k, start + |code| + 5)))
    ensures Decode(b, start + |code| - 1) == Direct(Jcc, Last(code) - 0x70, start + |code| + 5, k)
  {
    var n, cc, w := |code|, Last(code) - 0x70, Sub32(k, start + |code| + 5);
    var s := LongJcc(code) + Le32(w);
    var t := [0x0f, 0x80 + cc] + Le32(w);
    assert s[n - 1..n + 5] == t;
    Within(b, start, s, n - 1, t);
    LongJccDecodes(b, start + n - 1, cc, w);
    Displacement32(k, start + n + 5);
  }

  lemma LongFormDecodes(b: seq<u8>, start: nat, code: seq<u8>, kind: BranchKind, k: nat)
    requires |code| > 0 && OpcodeOf(kind, Last(code)) && kind != Jcc
    requires k < 0x8000_0000 && start + |code| + 4 < 0x8000_0000
    requires StandsAt(b, start, code + Le32(Sub32(k, start + |code| + 4)))
    ensures Decode(b, start + |code| - 1) == Direct(kind, 0, start + |code| + 4, k)
  {
    var n, w := |code|, Sub32(k, start + |code| + 4);
    var s := code + Le32(w);
    var t := [Last(code)] + Le32(w);
    assert s[n - 1..n + 4] == t;
    Within(b, start, s, n - 1, t);
    LongBranchDecodes(b, start + n - 1, Last(code), w);
    Displacement32(k, start + n + 4);
  }

  lemma LocalBranchDecodes(b: seq<u8>, start: nat, code: seq<u8>, kind: BranchKind, k: nat)
    requires |code| > 0 && OpcodeOf(kind, Last(code)) && k < 0x8000_0000
    requires start + |LocalBranchBytes(code, kind, k, start + |code|)| < 0x8000_0000
    requires StandsAt(b, start, LocalBranchBytes(code, kind, k, start + |code|))
    ensures Decode(b, start + |code| - 1) ==
            Direct(kind, if kind == Jcc then Last(code) - 0x70 else 0,
                   start + |LocalBranchBytes(code, kind, k, start + |code|)|, k)
  {
    var o := start + |code|;
    NestedSub32(k, o + 1, 4);
    NestedSub32(k, o + 1, 3);
    if kind != Call && ShortFits(Sub32(k, o + 1)) {
      ShortFormDecodes(b, start, code, kind, k);
    } else if kind == Jcc {
      LongJccFormDecodes(b, start, code, k);
    } else {
      LongFormDecodes(b, start, code, kind, k);
    }
  }

  lemma PadBytesMean(b: seq<u8>, o: nat, a: nat)
    requires 0 < a <= 0x100 && o + Padding(o, a) < 0x8000_0000 && StandsAt(b, o, PadBytes(Padding(o, a)))
    ensures PaddingMeans(b, o, o + Padding(o, a), a)
  {
    hide PadBytes, Decode, AlignUp, Padding, StandsAt;
    var amt := Padding(o, a);
    PaddingReachesAlignment(o, a);
    AlignUpIsLeastMultiple(o, a);
    if amt <= 9 {
      SmallPad(b, o, amt);
    } else {
      PadJumps(b, o, amt);
    }
  }

  lemma SmallPad(b: seq<u8>, o: nat, amt: nat)
    requires amt <= 9 && StandsAt(b, o, PadBytes(amt))
    ensures o + amt <= |b| && (amt > 0 ==> NoOpEnd(b, o) == Some(o + amt))
  {
    hide NoOpEnd, Nop;
    if amt > 0 {
      NopEnds(b, o, amt);
    }
  }

  lemma NopEnds(b: seq<u8>, o: nat, n: nat)
    requires 0 < n <= 9 && StandsAt(b, o, Nop(n))
    ensures NoOpEnd(b, o) == Some(o + n)
  {
    var s := Nop(n);
    ByteOf(b, o, s, 0);
    if n > 1 { ByteOf(b, o, s, 1); }
    if n > 2 { ByteOf(b, o, s, 2); }
    if n > 3 { ByteOf(b, o, s, 3); }
    if n > 4 { ByteOf(b, o, s, 4); }
  }

  lemma PadJumps(b: seq<u8>, o: nat, amt: nat)
    requires 9 < amt < 0x100 && o + amt < 0x8000_0000 && StandsAt(b, o, PadBytes(amt))
    ensures o + amt <= |b|
    ensures var d := Decode(b, o); d.Direct? && d.kind == Jmp && d.next <= o + amt && d.target == o + amt
    ensures Filled(b, Decode(b, o).next, o + amt)
  {
    hide Nop, Filler, Decode, LutBytes, Le32, Filled;
    if amt <= 129 {
      PadStart(b, o, [0xeb, amt - 2], Filler(amt - 2));
      ShortBranchDecodes(b, o, 0xeb, amt - 2);
      FillerFills(b, o + 2, amt - 2);
    } else {
      PadStart(b, o, [0xe9] + Le32(amt - 5), Filler(amt - 5));
      LongBranchDecodes(b, o, 0xe9, amt - 5);
      FillerFills(b, o + 5, amt - 5);
    }
  }

  ghost predicate Filled(b: seq<u8>, o: nat, end: nat) {
    && o <= end <= |b|
    && (o < end <= o + 9 ==> NoOpEnd(b, o) == Some(end))
    && (end > o + 9 ==> forall k :: o <= k < end ==> b[k] == 0xcc)
  }

  lemma FillerFills(b: seq<u8>, o: nat, n: nat)
    requires StandsAt(b, o, Filler(n))
    ensures Filled(b, o, o + n)
  {
    hide NoOpEnd, Nop;
    if 0 < n <= 9 {
      NopEnds(b, o, n);
    } else if n > 9 {
      forall k | o <= k < o + n
        ensures b[k] == 0xcc
      {
        ByteOf(b, o, Filler(n), k - o);
      }
    }
  }

  lemma PadStart(b: seq<u8>, o: nat, s: seq<u8>, rest: seq<u8>)
    requires StandsAt(b, o, s + rest)
    ensures StandsAt(b, o, s) && StandsAt(b, o + |s|, rest)
  {
    Within(b, o, s + rest, 0, s);
    TailStandsAt(b, o, s, rest);
  }

  lemma LutFields(reg: nat, packed: seq<u8>, base: nat, shift: nat, off: nat)
    requires reg < 16 && |packed| <= 8 && shift <= 3
    ensures var t := LutBytes(reg, packed, base, shift, off);
            var m := 26 + (if reg >= 4 then 1 else 0);
            && t[m - 4..m] == Le32(Sub32(base, off + m))
            && t[m + 3] / 0x40 == shift
            && t[5..5 + |packed|] == packed
  {
  }

  lemma LutEntry(b: seq<u8>, lea: nat, entry: u8, target: nat, base: nat, shift: nat)
    requires base <= target < 0x8000_0000 && 4 <= lea < 0x8000_0000 && shift <= 3
    requires lea + 4 <= |b| && Field32(b, lea - 4) == Sub32(base, lea) && b[lea + 3] / 0x40 == shift
    requires entry * Scale(shift) == target - base
    ensures LutTarget(b, lea, entry) == target
  {
    Displacement32(base, lea);
  }

  lemma PackedEntry(deltas: seq<nat>, shift: nat, j: nat)
    requires shift <= 3 && Packs(deltas, shift) && j < |deltas|
    ensures Packed(deltas, shift)[j] * Scale(shift) == deltas[j]
  {
    assert deltas[j] % Scale(shift) == 0;
  }

  lemma LutEntryMeans(b: seq<u8>, o: nat, reg: nat, at: seq<nat>, shift: nat, j: nat)
    requires reg < 16 && j < |at| <= 8 && o + 30 < 0x8000_0000 && at[j] < 0x8000_0000
    requires shift <= 3 && Packs(Deltas(at), shift)
    requires LutFieldsAt(b, o, reg, Packed(Deltas(at), shift), MinOf(at), shift)
    ensures LutTarget(b, o + 26 + (if reg >= 4 then 1 else 0), b[o + 5 + j]) == at[j]
  {
    var base := MinOf(at);
    var lea := o + 26 + (if reg >= 4 then 1 else 0);
    var entry := b[o + 5 + j];
    assert entry == Packed(Deltas(at), shift)[j];
    PackedEntry(Deltas(at), shift, j);
    assert entry * Scale(shift) == at[j] - base;
    LutEntry(b, lea, entry, at[j], base, shift);
  }

  ghost predicate LutFieldsAt(b: seq<u8>, o: nat, reg: nat, packed: seq<u8>, base: nat, shift: nat)
    requires |packed| <= 8
  {
    var lea := o + 26 + (if reg >= 4 then 1 else 0);
    && lea + 4 <= |b|
    && Field32(b, lea - 4) == Sub32(base, lea)
    && b[lea + 3] / 0x40 == shift
    && forall j :: 0 <= j < |packed| ==> b[o + 5 + j] == packed[j]
  }

  lemma LutReadsBack(b: seq<u8>, o: nat, reg: nat, packed: seq<u8>, base: nat, shift: nat)
    requires reg < 16 && |packed| <= 8 && shift <= 3
    requires StandsAt(b, o, LutBytes(reg, packed, base, shift, o))
    ensures LutFieldsAt(b, o, reg, packed, base, shift)
  {
    var t := LutBytes(reg, packed, base, shift, o);
    var m := 26 + (if reg >= 4 then 1 else 0);
    LutFields(reg, packed, base, shift, o);
    FieldOf(b, o, t, m - 4, Sub32(base, o + m));
    ByteOf(b, o, t, m + 3);
    Within(b, o, t, 5, packed);
    forall j | 0 <= j < |packed|
      ensures b[o + 5 + j] == packed[j]
    {
      ByteOf(b, o + 5, packed, j);
    }
  }

  // So every site of the output means what its source says.
  lemma SiteBytesMean(fn: Fn, p: seq<nat>, i: nat, b: seq<u8>)
    requires Stable(fn, p) && i < |fn.sites| && LutEncodable(fn, p, i)
    requires StandsAt(b, p[i], SiteBytes(fn, p, i))
    ensures SiteMeans(fn, p, i, b) && CodeStands(fn, p, i, b)
  {
    hide *;
    StableFacts(fn, p);
    SiteKeepsCode(fn, p, i, b);
    match fn.sites[i].reloc
    case RipRef(_, _) => RipRefMeans(fn, p, i, b);
    case Branch(_, name) =>
      if name in fn.labels {
        LocalBranchMeans(fn, p, i, b);
      } else {
        GlobalBranchMeans(fn, p, i, b);
      }
    case Align(_) => AlignMeans(fn, p, i, b);
    case LabelLut(_, _) => LabelLutMeans(fn, p, i, b);
    case DefLabel(_) => NothingToMean(fn, p, i, b);
    case PhantomRef(_) => NothingToMean(fn, p, i, b);
  }

  lemma SiteKeepsCode(fn: Fn, p: seq<nat>, i: nat, b: seq<u8>)
    requires Stable(fn, p) && i < |fn.sites| && LutEncodable(fn, p, i)
    requires StandsAt(b, p[i], SiteBytes(fn, p, i))
    ensures CodeStands(fn, p, i, b)
  {
    hide SiteBytes, LutEncodable, Stable;
    StableFacts(fn, p);
    var Site(code, reloc) := fn.sites[i];
    var n := if reloc.Branch? && |code| > 0 then |code| - 1 else |code|;
    SiteBytesStart(fn, p, i);
    Within(b, p[i], SiteBytes(fn, p, i), 0, code[..n]);
  }

  lemma SiteBytesStart(fn: Fn, p: seq<nat>, i: nat)
    requires Stable(fn, p) && i < |fn.sites| && LutEncodable(fn, p, i)
    ensures var Site(code, reloc) := fn.sites[i];
            StandsAt(SiteBytes(fn, p, i), 0, code[..if reloc.Branch? && |code| > 0 then |code| - 1 else |code|])
  {
    hide LutBytes, PadBytes, Le32, Packed, IsPass;
    assert WellFormedSite(fn.sites[i]) && Resolves(fn, i);
  }

  lemma NothingToMean(fn: Fn, p: seq<nat>, i: nat, b: seq<u8>)
    requires Stable(fn, p) && i < |fn.sites| && (fn.sites[i].reloc.DefLabel? || fn.sites[i].reloc.PhantomRef?)
    requires StandsAt(b, p[i], SiteBytes(fn, p, i))
    ensures SiteMeans(fn, p, i, b)
  {
    SiteBytesFillSite(fn, p, i);
  }

  lemma LocalBranchSite(fn: Fn, p: seq<nat>, i: nat)
    requires Stable(fn, p) && i < |fn.sites| && fn.sites[i].reloc.Branch? && fn.sites[i].reloc.name in fn.labels
    ensures var Site(code, Branch(kind, name)) := fn.sites[i];
            && |code| > 0 && OpcodeOf(kind, Last(code)) && fn.labels[name] < |p| && p[fn.labels[name]] < 0x8000_0000
            && SiteBytes(fn, p, i) == LocalBranchBytes(code, kind, p[fn.labels[name]], p[i] + |code|)
            && p[i + 1] == p[i] + |SiteBytes(fn, p, i)| < 0x8000_0000 && |code| <= |SiteBytes(fn, p, i)|
  {
    SiteBytesFillSite(fn, p, i);
    assert WellFormedSite(fn.sites[i]);
  }

  lemma LocalBranchMeans(fn: Fn, p: seq<nat>, i: nat, b: seq<u8>)
    requires Stable(fn, p) && i < |fn.sites| && fn.sites[i].reloc.Branch? && fn.sites[i].reloc.name in fn.labels
    requires StandsAt(b, p[i], SiteBytes(fn, p, i))
    ensures SiteMeans(fn, p, i, b)
  {
    hide Decode, LocalBranchBytes, LutBytes, GlobalBranchBytes, IsPass, SiteBytes, LutEncodable, OpcodeOf, PadBytes;
    var Site(code, Branch(kind, name)) := fn.sites[i];
    LocalBranchSite(fn, p, i);
    LocalBranchDecodes(b, p[i], code, kind, p[fn.labels[name]]);
  }

  lemma RipRefBytesMean(b: seq<u8>, start: nat, code: seq<u8>, w: u32, imm: seq<u8>)
    requires StandsAt(b, start, code + Le32(w) + imm)
    ensures var o := start + |code|;
            o + 4 + |imm| <= |b| && Field32(b, o) == w && b[o + 4..o + 4 + |imm|] == imm
  {
    hide Le32, FromLe32;
    var s := code + Le32(w) + imm;
    assert s[|code|..|code| + 4] == Le32(w) && s[|code| + 4..|s|] == imm;
    FieldOf(b, start, s, |code|, w);
    Within(b, start, s, |code| + 4, imm);
  }

  // The field of a reference: a displacement for a label, an index for a global name.
  function RipRefField(fn: Fn, p: seq<nat>, name: Name, end: nat): u32
    requires |p| == |fn.sites| + 1 && (name in fn.labels || name in fn.globals)
  {
    if name in fn.labels then Sub32(p[fn.labels[name]], end) else fn.globals[name].index
  }

  lemma RipRefSite(fn: Fn, p: seq<nat>, i: nat)
    requires Stable(fn, p) && i < |fn.sites| && fn.sites[i].reloc.RipRef?
    ensures var Site(code, RipRef(imm, name)) := fn.sites[i];
            var end := p[i] + |code| + 4 + |imm|;
            && (name in fn.labels || name in fn.globals)
            && SiteBytes(fn, p, i) == code + Le32(RipRefField(fn, p, name, end)) + imm
            && p[i + 1] == end < 0x8000_0000
            && (name in fn.labels ==> fn.labels[name] < |p| && p[fn.labels[name]] < 0x8000_0000)
  {
    SiteBytesFillSite(fn, p, i);
    assert Resolves(fn, i);
  }

  lemma RipRefMeans(fn: Fn, p: seq<nat>, i: nat, b: seq<u8>)
    requires Stable(fn, p) && i < |fn.sites| && fn.sites[i].reloc.RipRef?
    requires StandsAt(b, p[i], SiteBytes(fn, p, i))
    ensures SiteMeans(fn, p, i, b)
  {
    hide Decode, LocalBranchBytes, LutBytes, GlobalBranchBytes, IsPass, SiteBytes, LutEncodable, OpcodeOf, PadBytes,
         Field32, Le32;
    var Site(code, RipRef(imm, name)) := fn.sites[i];
    var end := p[i] + |code| + 4 + |imm|;
    RipRefSite(fn, p, i);
    RipRefBytesMean(b, p[i], code, RipRefField(fn, p, name, end), imm);
    if name in fn.labels {
      Displacement32(p[fn.labels[name]], end);
    }
  }

  lemma GlobalBytesMean(b: seq<u8>, start: nat, code: seq<u8>, kind: BranchKind, g: Global)
    requires |code| > 0 && OpcodeOf(kind, Last(code)) && (kind == Jcc ==> !g.isExtern)
    requires StandsAt(b, start, GlobalBranchBytes(code, kind, g))
    ensures var o, end := start + |code|, start + |GlobalBranchBytes(code, kind, g)|;
            && end == o + (if kind == Jcc || g.isExtern then 5 else 4) && end <= |b|
            && Field32(b, end - 4) == g.index
            && (if g.isExtern then b[o - 1] == 0xff && b[o] == (if kind == Call then 0x15 else 0x25)
                else Decode(b, o - 1).Direct? && Decode(b, o - 1).kind == kind
                     && (kind == Jcc ==> Decode(b, o - 1).condition == Last(code) - 0x70))
  {
    hide Le32, FromLe32;
    var s := GlobalBranchBytes(code, kind, g);
    assert s[|s| - 4..|s|] == Le32(g.index);
    FieldOf(b, start, s, |s| - 4, g.index);
    ByteOf(b, start, s, |code| - 1);
    ByteOf(b, start, s, |code|);
  }

  lemma GlobalBranchSite(fn: Fn, p: seq<nat>, i: nat)
    requires Stable(fn, p) && i < |fn.sites| && fn.sites[i].reloc.Branch? && fn.sites[i].reloc.name !in fn.labels
    ensures var Site(code, Branch(kind, name)) := fn.sites[i];
            && |code| > 0 && OpcodeOf(kind, Last(code)) && name in fn.globals
            && (kind == Jcc ==> !fn.globals[name].isExtern)
            && SiteBytes(fn, p, i) == GlobalBranchBytes(code, kind, fn.globals[name])
            && p[i + 1] == p[i] + |SiteBytes(fn, p, i)|
  {
    SiteBytesFillSite(fn, p, i);
    assert WellFormedSite(fn.sites[i]) && Resolves(fn, i);
  }

  lemma GlobalBranchMeans(fn: Fn, p: seq<nat>, i: nat, b: seq<u8>)
    requires Stable(fn, p) && i < |fn.sites| && fn.sites[i].reloc.Branch? && fn.sites[i].reloc.name !in fn.labels
    requires StandsAt(b, p[i], SiteBytes(fn, p, i))
    ensures SiteMeans(fn, p, i, b)
  {
    hide Decode, LocalBranchBytes, LutBytes, GlobalBranchBytes, IsPass, SiteBytes, LutEncodable, OpcodeOf, PadBytes,
         Field32;
    var Site(code, Branch(kind, name)) := fn.sites[i];
    GlobalBranchSite(fn, p, i);
    GlobalBytesMean(b, p[i], code, kind, fn.globals[name]);
  }

  lemma AlignMeans(fn: Fn, p: seq<nat>, i: nat, b: seq<u8>)
    requires Stable(fn, p) && i < |fn.sites| && fn.sites[i].reloc.Align?
    requires StandsAt(b, p[i], SiteBytes(fn, p, i))
    ensures SiteMeans(fn, p, i, b)
  {
    hide *;
    StableFacts(fn, p);
    var code, a := fn.sites[i].code, fn.sites[i].reloc.mask + 1;
    AlignSite(fn, p, i);
    TailStandsAt(b, p[i], code, PadBytes(Padding(p[i] + |code|, a)));
    PadBytesMean(b, p[i] + |code|, a);
    AlignSiteMeans(fn, p, i, b);
  }

  lemma StableFacts(fn: Fn, p: seq<nat>)
    requires Stable(fn, p)
    ensures |p| == |fn.sites| + 1 && p[0] == 0 && Resolvable(fn)
  {
  }

  lemma PlainIsEncodable(fn: Fn, p: seq<nat>, i: nat)
    requires |p| == |fn.sites| + 1 && i < |fn.sites| && !fn.sites[i].reloc.LabelLut?
    ensures LutEncodable(fn, p, i)
  {
  }

  lemma AlignSite(fn: Fn, p: seq<nat>, i: nat)
    requires Stable(fn, p) && i < |fn.sites| && fn.sites[i].reloc.Align?
    ensures var o, a := p[i] + |fn.sites[i].code|, fn.sites[i].reloc.mask + 1;
            && SiteBytes(fn, p, i) == fn.sites[i].code + PadBytes(Padding(o, a))
            && p[i + 1] == o + Padding(o, a) < 0x8000_0000
  {
    SiteBytesFillSite(fn, p, i);
  }

  lemma AlignSiteMeans(fn: Fn, p: seq<nat>, i: nat, b: seq<u8>)
    requires Stable(fn, p) && i < |fn.sites| && fn.sites[i].reloc.Align?
    requires p[i] + |fn.sites[i].code| <= p[i + 1] <= |b|
    requires PaddingMeans(b, p[i] + |fn.sites[i].code|, p[i + 1], fn.sites[i].reloc.mask + 1)
    ensures SiteMeans(fn, p, i, b)
  {
    hide PaddingMeans;
  }

  lemma TailStandsAt(b: seq<u8>, start: nat, code: seq<u8>, rest: seq<u8>)
    requires StandsAt(b, start, code + rest)
    ensures StandsAt(b, start + |code|, rest)
  {
    var s := code + rest;
    assert s[|code|..|code| + |rest|] == rest;
    Within(b, start, s, |code|, rest);
  }

  lemma LutBytesMean(b: seq<u8>, o: nat, reg: nat, at: seq<nat>, shift: nat)
    requires reg < 16 && |at| <= 8 && o + 30 < 0x8000_0000
    requires forall j :: 0 <= j < |at| ==> at[j] < 0x8000_0000
    requires shift <= 3 && Packs(Deltas(at), shift)
    requires StandsAt(b, o, LutBytes(reg, Packed(Deltas(at), shift), MinOf(at), shift, o))
    ensures LutMeans(b, o, reg, at)
  {
    LutReadsBack(b, o, reg, Packed(Deltas(at), shift), MinOf(at), shift);
    forall j | 0 <= j < |at|
      ensures LutTarget(b, o + 26 + (if reg >= 4 then 1 else 0), b[o + 5 + j]) == at[j]
    {
      LutEntryMeans(b, o, reg, at, shift, j);
    }
  }

  lemma LutSite(fn: Fn, p: seq<nat>, i: nat)
    requires Stable(fn, p) && i < |fn.sites| && fn.sites[i].reloc.LabelLut? && LutEncodable(fn, p, i)
    ensures var Site(code, LabelLut(reg, names)) := fn.sites[i];
            var at := LabelPositions(fn, p, names);
            var shift := LutShift(Deltas(at)).value;
            && reg < 16 && |at| <= 8 && (forall j :: 0 <= j < |at| ==> at[j] < 0x8000_0000)
            && SiteBytes(fn, p, i) == code + LutBytes(reg, Packed(Deltas(at), shift), MinOf(at), shift, p[i] + |code|)
            && p[i + 1] == p[i] + |SiteBytes(fn, p, i)| && p[i] + |code| + 30 < 0x8000_0000
  {
    hide LutBytes, Packed, IsPass, LocalBranchBytes, GlobalBranchBytes;
    SiteBytesFillSite(fn, p, i);
    assert WellFormedSite(fn.sites[i]);
  }

  lemma LutSiteMeans(fn: Fn, p: seq<nat>, i: nat, b: seq<u8>)
    requires Stable(fn, p) && i < |fn.sites| && fn.sites[i].reloc.LabelLut? && LutNamesKnown(fn, i)
    requires p[i] + |fn.sites[i].code| <= p[i + 1] <= |b|
    requires LutMeans(b, p[i] + |fn.sites[i].code|, fn.sites[i].reloc.reg,
                      LabelPositions(fn, p, fn.sites[i].reloc.names))
    ensures SiteMeans(fn, p, i, b)
  {
    hide LutMeans;
  }

  lemma LabelLutMeans(fn: Fn, p: seq<nat>, i: nat, b: seq<u8>)
    requires Stable(fn, p) && i < |fn.sites| && fn.sites[i].reloc.LabelLut? && LutEncodable(fn, p, i)
    requires StandsAt(b, p[i], SiteBytes(fn, p, i))
    ensures SiteMeans(fn, p, i, b)
  {
    hide LutMeans, LutBytes, Packed, SiteBytes, SiteMeans, Stable, Deltas, MinOf;
    StableFacts(fn, p);
    LutSite(fn, p, i);
    var Site(code, LabelLut(reg, names)) := fn.sites[i];
    var at := LabelPositions(fn, p, names);
    var shift := LutShift(Deltas(at)).value;
    TailStandsAt(b, p[i], code, LutBytes(reg, Packed(Deltas(at), shift), MinOf(at), shift, p[i] + |code|));
    LutBytesMean(b, p[i] + |code|, reg, at, shift);
    LutSiteMeans(fn, p, i, b);
  }

  // ---------- The whole output ----------

  ghost predicate LutsEncodable(fn: Fn, p: seq<nat>, n: nat)
    requires |p| == |fn.sites| + 1 && n <= |fn.sites|
  {
    forall i :: 0 <= i < n ==> LutEncodable(fn, p, i)
  }

  ghost function CodeUpTo(fn: Fn, p: seq<nat>, n: nat): (b: seq<u8>)
    requires |p| == |fn.sites| + 1 && Resolvable(fn) && n <= |fn.sites| && LutsEncodable(fn, p, n)
  {
    if n == 0 then [] else CodeUpTo(fn, p, n - 1) + SiteBytes(fn, p, n - 1)
  }

  ghost function RelocsUpTo(fn: Fn, p: seq<nat>, n: nat): (r: seq<RunReloc>)
    requires |p| == |fn.sites| + 1 && Resolvable(fn) && n <= |fn.sites|
  {
    if n == 0 then [] else RelocsUpTo(fn, p, n - 1) + SiteRelocs(fn, p, n - 1)
  }

  // Emission lands on the very positions that relaxation settled on.
  lemma {:induction false} CodeFillsPositions(fn: Fn, p: seq<nat>, n: nat)
    requires Stable(fn, p) && n <= |fn.sites| && LutsEncodable(fn, p, n)
    ensures |CodeUpTo(fn, p, n)| == p[n]
  {
    hide SiteBytes, LutEncodable, Stable, Resolvable;
    StableFacts(fn, p);
    if n > 0 {
      CodeFillsPositions(fn, p, n - 1);
      SiteBytesFillSite(fn, p, n - 1);
    }
  }

  lemma {:induction false} SiteStandsInCode(fn: Fn, p: seq<nat>, n: nat, i: nat, rest: seq<u8>)
    requires Stable(fn, p) && i < n <= |fn.sites| && LutsEncodable(fn, p, n)
    ensures LutEncodable(fn, p, i)
    ensures StandsAt(CodeUpTo(fn, p, n) + rest, p[i], SiteBytes(fn, p, i))
    decreases n
  {
    hide SiteBytes, LutEncodable, Stable, Resolvable;
    StableFacts(fn, p);
    var before, last := CodeUpTo(fn, p, n - 1), SiteBytes(fn, p, n - 1);
    assert before + last + rest == before + (last + rest);
    if i < n - 1 {
      SiteStandsInCode(fn, p, n - 1, i, last + rest);
    } else {
      CodeFillsPositions(fn, p, n - 1);
      assert (before + (last + rest))[p[i]..p[i] + |last|] == last;
    }
  }

  // Every site of the emitted code means what its source says.
  lemma CodeMeans(fn: Fn, p: seq<nat>, i: nat)
    requires Stable(fn, p) && i < |fn.sites| && LutsEncodable(fn, p, |fn.sites|)
    ensures SiteMeans(fn, p, i, CodeUpTo(fn, p, |fn.sites|) + fn.tail)
    ensures CodeStands(fn, p, i, CodeUpTo(fn, p, |fn.sites|) + fn.tail)
  {
    SiteStandsInCode(fn, p, |fn.sites|, i, fn.tail);
    SiteBytesMean(fn, p, i, CodeUpTo(fn, p, |fn.sites|) + fn.tail);
  }

  // As many fixups are written as relaxation counted when it sized the output.
  lemma {:induction false} RelocsAsCounted(fn: Fn, p: seq<nat>, n: nat)
    requires |p| == |fn.sites| + 1 && Resolvable(fn) && n <= |fn.sites|
    ensures |RelocsUpTo(fn, p, n)| == CountRelocs(fn, n)
  {
    if n > 0 {
      RelocsAsCounted(fn, p, n - 1);
    }
  }

  // A fixup of a field names the place of the symbol index in the emitted code.
  ghost predicate FixupMeans(fn: Fn, p: seq<nat>, i: nat, r: RunReloc, b: seq<u8>)
    requires Resolvable(fn) && i < |fn.sites| && |p| == |fn.sites| + 1
  {
    assert Resolves(fn, i);
    match fn.sites[i].reloc
    case RipRef(imm, name) =>
      && name in fn.globals && r.Field? && r.where + 4 <= |b| && Field32(b, r.where) == fn.globals[name].index
      && r.kind < 4 && r.where + 4 + ImmediateBytes(r.kind) == p[i + 1]
    case Branch(kind, name) =>
      && name in fn.globals && r.Field? && r.where + 4 <= |b| && Field32(b, r.where) == fn.globals[name].index
      && r.kind == (if kind == Jcc then 0 else 8) && r.where + 4 == p[i + 1]
    case PhantomRef(name) => r == Phantom(fn.globals[name].index)
    case _ => false
  }

  // How many bytes of an instruction follow the field, as the fixup says it.
  function ImmediateBytes(size: nat): nat {
    if size == 3 then 4 else size
  }

  // The site refers to a symbol that only has its address when the code is placed.
  predicate RefersToGlobal(fn: Fn, i: nat)
    requires i < |fn.sites|
  {
    var r := fn.sites[i].reloc;
    r.PhantomRef? || ((r.RipRef? || r.Branch?) && r.name !in fn.labels)
  }

  ghost predicate FixupsMean(fn: Fn, p: seq<nat>, i: nat, b: seq<u8>)
    requires Resolvable(fn) && i < |fn.sites| && |p| == |fn.sites| + 1
  {
    && |SiteRelocs(fn, p, i)| == (if RefersToGlobal(fn, i) then 1 else 0)
    && forall r :: r in SiteRelocs(fn, p, i) ==> FixupMeans(fn, p, i, r, b)
  }

  lemma SiteFixupsMean(fn: Fn, p: seq<nat>, i: nat, b: seq<u8>)
    requires Stable(fn, p) && i < |fn.sites| && SiteMeans(fn, p, i, b)
    ensures FixupsMean(fn, p, i, b)
  {
    assert Resolves(fn, i) && WellFormedSite(fn.sites[i]);
    assert p[i + 1] == SiteEnd(fn, p, p, i);
  }
}

// Reordering the dynamic symbol table: counting sort gives each symbol its new index, relocations
// are rewritten, and the parallel symbol arrays are permuted in place.
module SymbolOrder {
  import opened Words

  // `local` says that the binding in `st_info` is STB_LOCAL.
  datatype Sym = Sym(name: nat, local: bool, value: nat)

  // The editor's own notes about a symbol.
  datatype SymInfo = SymInfo(bindsLocal: bool, exportable: bool, inHash: bool, inGnuHash: bool, hashDistance: u32)

  // A hash of symbol names, the GNU one or the older one; its values play no role here.
  type NameHash = nat -> u32

  function Hashes(syms: seq<Sym>, hash: NameHash): (hs: seq<u32>)
    ensures |hs| == |syms|
    ensures forall i :: 0 <= i < |hs| ==> hs[i] == hash(syms[i].name)
  {
    seq<u32>(|syms|, i requires 0 <= i < |syms| => hash(syms[i].name))
  }

  // ---------- Permutations ----------

  ghost predicate IsPermutation(p: seq<nat>) {
    && (forall i :: 0 <= i < |p| ==> p[i] < |p|)
    && (forall i, j :: 0 <= i < j < |p| ==> p[i] != p[j])
  }

  ghost predicate Inverse(p: seq<nat>, q: seq<nat>) {
    && |p| == |q|
    && (forall i :: 0 <= i < |p| ==> p[i] < |p| && q[p[i]] == i)
  }

  // Values below `n`, all different, are at most `n` many.
  lemma {:induction false} Pigeonhole(p: seq<nat>, n: nat)
    requires forall i :: 0 <= i < |p| ==> p[i] < n
    requires forall i, j :: 0 <= i < j < |p| ==> p[i] != p[j]
    ensures |p| <= n
    decreases |p|
  {
    if |p| > 0 {
      assert p[0] < n;
      if n - 1 in p {
        var k :| 0 <= k < |p| && p[k] == n - 1;
        Pigeonhole(p[..k] + p[k + 1..], n - 1);
      } else {
        Pigeonhole(p[1..], n - 1);
      }
    }
  }

  lemma PermutationIsOnto(p: seq<nat>, j: nat)
    requires IsPermutation(p) && j < |p|
    ensures j in p
  {
    if j !in p {
      Pigeonhole(p + [j], |p|);
    }
  }

  // The index that a permutation sends to `j`.
  ghost function Preimage(p: seq<nat>, j: nat): (i: nat)
    requires IsPermutation(p) && j < |p|
    ensures i < |p| && p[i] == j
  {
    PermutationIsOnto(p, j);
    var i :| 0 <= i < |p| && p[i] == j;
    i
  }

  // A permutation can be undone.
  lemma InverseExists(p: seq<nat>) returns (q: seq<nat>)
    requires IsPermutation(p)
    ensures Inverse(p, q)
  {
    q := seq(|p|, j requires 0 <= j < |p| => Preimage(p, j));
  }

  // `now` is `was` with every element moved to where `p` sends it.
  ghost predicate Moved<T>(was: seq<T>, now: seq<T>, p: seq<nat>) {
    && |now| == |was| == |p|
    && forall i :: 0 <= i < |p| ==> p[i] < |p| && now[p[i]] == was[i]
  }

  // ---------- In-place permutation ----------

  function Swapped<T>(s: seq<T>, i: nat, j: nat): seq<T>
    requires i < |s| && j < |s|
  {
    s[i := s[j]][j := s[i]]
  }

  // The number of elements before `n` that are not yet where they belong.
  function Misplaced(p: seq<nat>, n: nat): nat
    requires n <= |p|
  {
    if n == 0 then 0 else Misplaced(p, n - 1) + if p[n - 1] == n - 1 then 0 else 1
  }

  // Sending an element to its place brings one more element home.
  lemma {:induction false} SwapProgress(p: seq<nat>, i: nat, n: nat)
    requires IsPermutation(p) && i < |p| && p[i] != i && n <= |p|
    ensures Misplaced(Swapped(p, i, p[i]), n) <= Misplaced(p, n) - (if p[i] < n then 1 else 0)
  {
    if n > 0 {
      SwapProgress(p, i, n - 1);
      var j := p[i];
      assert j < |p| && p[j] != j;
    }
  }

  lemma SwapKeepsPermutation(p: seq<nat>, i: nat, j: nat)
    requires IsPermutation(p) && i < |p| && j < |p|
    ensures IsPermutation(Swapped(p, i, j))
  {
  }

  // Every element carries the index it is to be moved to.
  ghost predicate Tagged<T>(was: seq<T>, now: seq<T>, q: seq<nat>, p: seq<nat>) {
    && |now| == |was| == |p| == |q|
    && forall k :: 0 <= k < |p| ==> p[k] < |q| && q[p[k]] < |was| && now[k] == was[q[p[k]]]
  }

  lemma TaggedAtStart<T>(was: seq<T>, p: seq<nat>, q: seq<nat>)
    requires |was| == |p| && Inverse(p, q)
    ensures Tagged(was, was, q, p)
  {
  }

  lemma SwapKeepsTags<T>(was: seq<T>, now: seq<T>, q: seq<nat>, p: seq<nat>, i: nat, j: nat)
    requires Tagged(was, now, q, p) && i < |p| && j < |p|
    ensures Tagged(was, Swapped(now, i, j), q, Swapped(p, i, j))
  {
  }

  lemma TagsReached<T>(was: seq<T>, now: seq<T>, p: seq<nat>, q: seq<nat>, home: seq<nat>)
    requires Inverse(p, q) && Tagged(was, now, q, home)
    requires forall k :: 0 <= k < |home| ==> home[k] == k
    ensures Moved(was, now, p)
  {
    forall i | 0 <= i < |p|
      ensures now[p[i]] == was[i]
    {
      assert home[p[i]] == p[i];
    }
  }

  method Swap<T>(a: array<T>, i: nat, j: nat)
    requires i < a.Length && j < a.Length
    modifies a
    ensures a[..] == Swapped(old(a[..]), i, j)
  {
    a[i], a[j] := a[j], a[i];
  }

  // Moves every symbol, its notes and its version to the index that `remap` says, in place. The
  // table of versions may be absent.
  method DsymsRemap(remap: array<nat>, syms: array<Sym>, infos: array<SymInfo>, vers: array?<u32>)
    requires IsPermutation(remap[..]) && syms.Length == infos.Length == remap.Length
    requires vers != null ==> vers.Length == remap.Length && vers as object != remap as object
    modifies remap, syms, infos, vers
    ensures Moved(old(syms[..]), syms[..], old(remap[..]))
    ensures Moved(old(infos[..]), infos[..], old(remap[..]))
    ensures vers != null ==> Moved(old(vers[..]), vers[..], old(remap[..]))
  {
    hide IsPermutation, Inverse, Tagged, Moved, Swapped;
    ghost var p := remap[..];
    ghost var q := InverseExists(p);
    ghost var syms0, infos0, vers0 := syms[..], infos[..], if vers == null then [] else vers[..];
    TaggedAtStart(syms0, p, q);
    TaggedAtStart(infos0, p, q);
    if vers != null { TaggedAtStart(vers0, p, q); }
    var i := 0;
    while i < remap.Length
      invariant i <= remap.Length && IsPermutation(remap[..])
      invariant Home(remap[..], i)
      invariant Tagged(syms0, syms[..], q, remap[..]) && Tagged(infos0, infos[..], q, remap[..])
      invariant vers != null ==> Tagged(vers0, vers[..], q, remap[..])
      decreases Misplaced(remap[..], remap.Length), remap.Length - i
    {
      var j := remap[i];
      if i == j {
        HomeStep(remap[..], i);
        i := i + 1;
      } else {
        ghost var now := remap[..];
        TargetInRange(now, i);
        SwapProgress(now, i, |now|);
        SwapKeepsPermutation(now, i, j);
        HomeStays(now, i);
        SwapKeepsTags(syms0, syms[..], q, now, i, j);
        SwapKeepsTags(infos0, infos[..], q, now, i, j);
        if vers != null { SwapKeepsTags(vers0, vers[..], q, now, i, j); }
        Swap(remap, i, j);
        Swap(syms, i, j);
        Swap(infos, i, j);
        if vers != null { Swap(vers, i, j); }
      }
    }
    HomeMeans(remap[..]);
    TagsReached(syms0, syms[..], p, q, remap[..]);
    TagsReached(infos0, infos[..], p, q, remap[..]);
    if vers != null { TagsReached(vers0, vers[..], p, q, remap[..]); }
  }

  ghost predicate Home(p: seq<nat>, n: nat) {
    n <= |p| && Misplaced(p, n) == 0
  }

  lemma {:induction false} HomeAt(p: seq<nat>, n: nat, k: nat)
    requires Home(p, n) && k < n
    ensures p[k] == k
  {
    if k < n - 1 {
      HomeAt(p, n - 1, k);
    }
  }

  lemma HomeMeans(p: seq<nat>)
    requires Home(p, |p|)
    ensures forall k :: 0 <= k < |p| ==> p[k] == k
  {
    forall k | 0 <= k < |p|
      ensures p[k] == k
    {
      HomeAt(p, |p|, k);
    }
  }

  lemma HomeStep(p: seq<nat>, i: nat)
    requires Home(p, i) && i < |p| && p[i] == i
    ensures Home(p, i + 1)
  {
  }

  lemma TargetInRange(p: seq<nat>, i: nat)
    requires IsPermutation(p) && i < |p|
    ensures p[i] < |p|
  {
  }

  lemma HomeStays(p: seq<nat>, i: nat)
    requires IsPermutation(p) && i < |p| && p[i] != i && Home(p, i)
    ensures p[i] < |p| && Home(Swapped(p, i, p[i]), i)
  {
    SwapProgress(p, i, i);
  }

  // ---------- Relocations ----------

  // `info` has the symbol index in its upper half and the relocation type in its lower half.
  datatype Reloc = Reloc(offset: u64, info: u64, addend: u64)

  function SymOf(r: Reloc): u32 {
    r.info / TWO_32
  }

  function KindOf(r: Reloc): u32 {
    r.info % TWO_32
  }

  function WithSym(r: Reloc, sym: u32): (r': Reloc)
    ensures SymOf(r') == sym && KindOf(r') == KindOf(r) && r'.offset == r.offset && r'.addend == r.addend
  {
    r.(info := r.info % TWO_32 + sym * TWO_32)
  }

  // One relocation table. The entries of a table without symbols carry no `info`.
  class RelocEditor {
    const entries: array<Reloc>
    const hasSymbols: bool
    var dirty: bool

    constructor (entries: array<Reloc>, hasSymbols: bool)
      ensures this.entries == entries && this.hasSymbols == hasSymbols && !dirty
    {
      this.entries := entries;
      this.hasSymbols := hasSymbols;
      dirty := false;
    }
  }

  ghost predicate SymsBelow(rs: seq<Reloc>, n: nat) {
    forall k :: 0 <= k < |rs| ==> SymOf(rs[k]) < n
  }

  // Every relocation has followed its symbol and is otherwise what it was.
  ghost predicate Followed(was: seq<Reloc>, now: seq<Reloc>, p: seq<nat>) {
    && |now| == |was|
    && forall k :: 0 <= k < |was| ==>
         && SymOf(was[k]) < |p| && SymOf(now[k]) == p[SymOf(was[k])]
         && now[k] == was[k].(info := now[k].info) && KindOf(now[k]) == KindOf(was[k])
  }

  // So it still denotes the same symbol once the symbols have moved, and is otherwise unchanged.
  lemma RelocsDenoteSame<T>(was: seq<Reloc>, now: seq<Reloc>, p: seq<nat>, syms: seq<T>, syms': seq<T>, k: nat)
    requires Followed(was, now, p) && Moved(syms, syms', p) && k < |was|
    ensures var sym, sym' := was[k].info / 0x1_0000_0000, now[k].info / 0x1_0000_0000;
            sym < |syms| && sym' < |syms'| && syms'[sym'] == syms[sym]
    ensures now[k].info % 0x1_0000_0000 == was[k].info % 0x1_0000_0000
    ensures now[k].offset == was[k].offset && now[k].addend == was[k].addend
  {
    assert p[SymOf(was[k])] < |p|;
  }

  method RemapEditor(e: RelocEditor, remap: array<nat>)
    requires SymsBelow(e.entries[..], remap.Length) && remap.Length <= TWO_32
    requires forall i :: 0 <= i < remap.Length ==> remap[i] < TWO_32
    modifies e, e.entries
    ensures Followed(old(e.entries[..]), e.entries[..], remap[..])
    ensures e.dirty == (old(e.dirty) || e.entries[..] != old(e.entries[..]))
  {
    var modified := false;
    ghost var was := e.entries[..];
    for k := 0 to e.entries.Length
      invariant e.dirty == old(e.dirty)
      invariant e.entries[k..] == was[k..]
      invariant Followed(was[..k], e.entries[..k], remap[..])
      invariant modified <==> e.entries[..k] != was[..k]
    {
      var r := e.entries[k];
      assert r == e.entries[k..][0] == was[k];
      ghost var done := e.entries[..k];
      if remap[SymOf(r)] != SymOf(r) {
        modified := true;
        e.entries[k] := WithSym(r, remap[SymOf(r)]);
      }
      assert e.entries[..k] == done;
      assert e.entries[..k + 1] == e.entries[..k] + [e.entries[k]];
      assert was[..k + 1] == was[..k] + [was[k]];
    }
    assert was[..e.entries.Length] == was && e.entries[..e.entries.Length] == e.entries[..];
    if modified {
      e.dirty := true;
    }
  }

  ghost predicate Separate(editors: seq<RelocEditor>) {
    forall i, j :: 0 <= i < j < |editors| ==> editors[i] != editors[j] && editors[i].entries != editors[j].entries
  }

  // Rewrites the symbol index of every relocation of every table that has them.
  method RelocsRemap(editors: seq<RelocEditor>, remap: array<nat>)
    requires Separate(editors) && remap.Length <= TWO_32
    requires forall i :: 0 <= i < remap.Length ==> remap[i] < TWO_32
    requires forall i :: 0 <= i < |editors| && editors[i].hasSymbols ==> SymsBelow(editors[i].entries[..], remap.Length)
    modifies set e | e in editors, set e | e in editors :: e.entries
    ensures forall i :: 0 <= i < |editors| ==>
              if editors[i].hasSymbols then Followed(old(editors[i].entries[..]), editors[i].entries[..], remap[..])
              else editors[i].entries[..] == old(editors[i].entries[..])
    ensures forall i :: 0 <= i < |editors| ==>
              editors[i].dirty == (old(editors[i].dirty) || editors[i].entries[..] != old(editors[i].entries[..]))
  {
    hide Followed, SymsBelow;
    for k := 0 to |editors|
      invariant forall i :: k <= i < |editors| ==>
                  editors[i].entries[..] == old(editors[i].entries[..]) && editors[i].dirty == old(editors[i].dirty)
      invariant forall i :: 0 <= i < k ==>
                  if editors[i].hasSymbols then Followed(old(editors[i].entries[..]), editors[i].entries[..], remap[..])
                  else editors[i].entries[..] == old(editors[i].entries[..])
      invariant forall i :: 0 <= i < k ==>
                  editors[i].dirty == (old(editors[i].dirty) || editors[i].entries[..] != old(editors[i].entries[..]))
    {
      if editors[k].hasSymbols {
        RemapEditor(editors[k], remap);
      }
    }
  }

  // ---------- Counting sort ----------

  // How many of the first `n` elements are in a group before `g`.
  function Below(gs: seq<nat>, g: nat, n: nat): (c: nat)
    requires n <= |gs|
    ensures c <= n
  {
    if n == 0 then 0 else Below(gs, g, n - 1) + if gs[n - 1] < g then 1 else 0
  }

  // The place of element `i` after a stable sort by group.
  function Rank(gs: seq<nat>, i: nat): nat
    requires i < |gs|
  {
    Below(gs, gs[i], |gs|) + Among(gs, gs[i], i)
  }

  lemma {:induction false} BelowNext(gs: seq<nat>, g: nat, n: nat)
    requires n <= |gs|
    ensures Below(gs, g + 1, n) == Below(gs, g, n) + Among(gs, g, n)
  {
    if n > 0 {
      BelowNext(gs, g, n - 1);
    }
  }

  lemma {:induction false} BelowMonotone(gs: seq<nat>, g: nat, h: nat, n: nat)
    requires n <= |gs| && g <= h
    ensures Below(gs, g, n) <= Below(gs, h, n)
  {
    if n > 0 {
      BelowMonotone(gs, g, h, n - 1);
    }
  }

  lemma {:induction false} AmongMonotone(gs: seq<nat>, g: nat, m: nat, n: nat)
    requires m <= n <= |gs|
    ensures Among(gs, g, m) <= Among(gs, g, n)
  {
    if m < n {
      AmongMonotone(gs, g, m, n - 1);
    }
  }

  lemma {:induction false} AllBelow(gs: seq<nat>, g: nat, n: nat)
    requires n <= |gs| && forall i :: 0 <= i < n ==> gs[i] < g
    ensures Below(gs, g, n) == n
  {
    if n > 0 {
      AllBelow(gs, g, n - 1);
    }
  }

  // An element lies in the stretch of its group.
  lemma RankWithin(gs: seq<nat>, i: nat)
    requires i < |gs|
    ensures Below(gs, gs[i], |gs|) <= Rank(gs, i) < Below(gs, gs[i] + 1, |gs|) <= |gs|
  {
    AmongMonotone(gs, gs[i], i + 1, |gs|);
    BelowNext(gs, gs[i], |gs|);
  }

  // Elements are ordered by group, and within a group as they were.
  lemma RankOrders(gs: seq<nat>, i: nat, j: nat)
    requires i < |gs| && j < |gs|
    ensures Rank(gs, i) < Rank(gs, j) <==> gs[i] < gs[j] || (gs[i] == gs[j] && i < j)
  {
    RankWithin(gs, i);
    RankWithin(gs, j);
    if gs[i] < gs[j] {
      BelowMonotone(gs, gs[i] + 1, gs[j], |gs|);
    } else if gs[j] < gs[i] {
      BelowMonotone(gs, gs[j] + 1, gs[i], |gs|);
    } else if i < j {
      AmongMonotone(gs, gs[i], i + 1, j);
    } else {
      AmongMonotone(gs, gs[i], j, i);
    }
  }

  // `p` is the stable sort of the groups.
  ghost predicate Sorts(p: seq<nat>, gs: seq<nat>) {
    |p| == |gs| && forall i :: 0 <= i < |p| ==> p[i] == Rank(gs, i)
  }

  lemma SortingPermutes(p: seq<nat>, gs: seq<nat>)
    requires Sorts(p, gs)
    ensures IsPermutation(p)
  {
    forall i | 0 <= i < |p|
      ensures p[i] < |p|
    {
      RankWithin(gs, i);
    }
    forall i, j | 0 <= i < j < |p|
      ensures p[i] != p[j]
    {
      RankOrders(gs, i, j);
      RankOrders(gs, j, i);
    }
  }

  // ---------- Local symbols first ----------

  function LocalGroups(syms: seq<Sym>): (gs: seq<nat>)
    ensures |gs| == |syms|
    ensures forall i :: 0 <= i < |syms| ==> gs[i] == if syms[i].local then 0 else 1
  {
    seq(|syms|, i requires 0 <= i < |syms| => if syms[i].local then 0 else 1)
  }

  ghost predicate LocalsFirst(syms: seq<Sym>) {
    forall i, j :: 0 <= i < j < |syms| && syms[j].local ==> syms[i].local
  }

  lemma SortedLocalsFirst(was: seq<Sym>, now: seq<Sym>, p: seq<nat>)
    requires Sorts(p, LocalGroups(was)) && Moved(was, now, p)
    ensures LocalsFirst(now)
  {
    hide Rank;
    var gs := LocalGroups(was);
    SortingPermutes(p, gs);
    forall i, j | 0 <= i < j < |now| && now[j].local
      ensures now[i].local
    {
      var k, l := Preimage(p, i), Preimage(p, j);
      RankOrders(gs, k, l);
    }
  }

  lemma AmongNext(gs: seq<nat>, g: nat, n: nat)
    requires n < |gs|
    ensures Among(gs, g, n + 1) == Among(gs, g, n) + if gs[n] == g then 1 else 0
  {
  }

  lemma {:induction false} AllAmong(gs: seq<nat>, g: nat, n: nat, k: nat)
    requires n <= |gs| && k < n && Among(gs, g, n) == n
    ensures gs[k] == g
  {
    if k < n - 1 {
      AllAmong(gs, g, n - 1, k);
    }
  }

  // Of the first `n` elements, those in group 0 come first.
  ghost predicate OneRun(gs: seq<nat>, n: nat) {
    n <= |gs| && forall k, l :: 0 <= k < l < n && gs[l] == 0 ==> gs[k] == 0
  }

  lemma OneRunStep(gs: seq<nat>, n: nat)
    requires OneRun(gs, n) && n < |gs| && (gs[n] == 0 ==> Among(gs, 0, n) == n)
    ensures OneRun(gs, n + 1)
  {
    forall k, l | 0 <= k < l < n + 1 && gs[l] == 0
      ensures gs[k] == 0
    {
      if l == n {
        AllAmong(gs, 0, n, k);
      }
    }
  }

  lemma OneRunMeans(syms: seq<Sym>)
    requires OneRun(LocalGroups(syms), |syms|)
    ensures LocalsFirst(syms)
  {
    var gs := LocalGroups(syms);
    forall i, j | 0 <= i < j < |syms| && syms[j].local
      ensures syms[i].local
    {
      assert gs[j] == 0;
      assert gs[i] == 0;
    }
  }

  // With two groups, the second starts where the first ends.
  lemma RankOfTwo(gs: seq<nat>, i: nat)
    requires i < |gs| && gs[i] <= 1
    ensures Rank(gs, i) == (if gs[i] == 0 then 0 else Among(gs, 0, |gs|)) + Among(gs, gs[i], i)
  {
    NothingBelow(gs, |gs|);
    BelowNext(gs, 0, |gs|);
  }

  lemma {:induction false} NothingBelow(gs: seq<nat>, n: nat)
    requires n <= |gs|
    ensures Below(gs, 0, n) == 0
  {
    if n > 0 {
      NothingBelow(gs, n - 1);
    }
  }

  lemma PermutationInRange(p: seq<nat>)
    requires IsPermutation(p)
    ensures forall i :: 0 <= i < |p| ==> p[i] < |p|
  {
  }

  // The symbols are reordered by `p`, and with them whatever refers to them.
  twostate predicate Reordered(p: seq<nat>, syms: array<Sym>, infos: array<SymInfo>, vers: array?<u32>,
                               editors: seq<RelocEditor>)
    reads syms, infos, vers, set e | e in editors, set e | e in editors :: e.entries
  {
    && Moved(old(syms[..]), syms[..], p)
    && Moved(old(infos[..]), infos[..], p)
    && (vers != null ==> Moved(old(vers[..]), vers[..], p))
    && (forall i :: 0 <= i < |editors| ==>
          if editors[i].hasSymbols then Followed(old(editors[i].entries[..]), editors[i].entries[..], p)
          else editors[i].entries[..] == old(editors[i].entries[..]))
  }

  // The symbol table as one editor state: parallel arrays, and tables that refer to them.
  ghost predicate Table(syms: array<Sym>, infos: array<SymInfo>, vers: array?<u32>, editors: seq<RelocEditor>)
    reads syms, set e | e in editors, set e | e in editors :: e.entries
  {
    && infos.Length == syms.Length <= TWO_32
    && (vers != null ==> vers.Length == syms.Length)
    && Separate(editors)
    && forall i :: 0 <= i < |editors| && editors[i].hasSymbols ==> SymsBelow(editors[i].entries[..], syms.Length)
  }

  method CountLocals(syms: array<Sym>) returns (numLocal: nat, needMove: bool)
    ensures numLocal == Among(LocalGroups(syms[..]), 0, syms.Length)
    ensures !needMove ==> LocalsFirst(syms[..])
  {
    hide LocalsFirst, Among;
    ghost var gs := LocalGroups(syms[..]);
    AmongNone(gs, 0);
    numLocal, needMove := 0, false;
    for i := 0 to syms.Length
      invariant numLocal == Among(gs, 0, i)
      invariant !needMove ==> OneRun(gs, i)
    {
      AmongNext(gs, 0, i);
      if syms[i].local && numLocal != i { needMove := true; }
      if !needMove { OneRunStep(gs, i); }
      if syms[i].local { numLocal := numLocal + 1; }
    }
    if !needMove { OneRunMeans(syms[..]); }
  }

  // The counting sort: locals count up from 0, the others from the number of locals.
  method LocalsRemap(syms: array<Sym>, total: nat) returns (remap: array<nat>)
    requires total == Among(LocalGroups(syms[..]), 0, syms.Length)
    ensures fresh(remap) && remap.Length == syms.Length && Sorts(remap[..], LocalGroups(syms[..]))
  {
    hide Rank, Among;
    ghost var gs := LocalGroups(syms[..]);
    AmongNone(gs, 0);
    AmongNone(gs, 1);
    remap := new nat[syms.Length](_ => 0);
    var numLocal, notLocal := 0, total;
    for i := 0 to syms.Length
      invariant numLocal == Among(gs, 0, i) && notLocal == total + Among(gs, 1, i)
      invariant forall k :: 0 <= k < i ==> remap[k] == Rank(gs, k)
    {
      AmongNext(gs, 0, i);
      AmongNext(gs, 1, i);
      RankOfTwo(gs, i);
      if syms[i].local {
        remap[i] := numLocal;
        numLocal := numLocal + 1;
      } else {
        remap[i] := notLocal;
        notLocal := notLocal + 1;
      }
    }
  }

  lemma AmongNone(gs: seq<nat>, g: nat)
    ensures Among(gs, g, 0) == 0
  {
  }

  // Moves the local symbols to the front, unless they are there already. Both kinds keep their
  // order, and every relocation follows.
  method MoveLocalsFirst(syms: array<Sym>, infos: array<SymInfo>, vers: array?<u32>, editors: seq<RelocEditor>)
    returns (moved: bool, ghost p: seq<nat>)
    requires Table(syms, infos, vers, editors)
    modifies syms, infos, vers, set e | e in editors, set e | e in editors :: e.entries
    ensures LocalsFirst(syms[..])
    ensures !moved ==> unchanged(syms) && unchanged(infos) && (vers != null ==> unchanged(vers))
    ensures !moved ==> forall i :: 0 <= i < |editors| ==> unchanged(editors[i].entries)
    ensures moved ==> Sorts(p, LocalGroups(old(syms[..]))) && IsPermutation(p)
    ensures moved ==> Reordered(p, syms, infos, vers, editors)
  {
    hide Followed, SymsBelow, Moved, IsPermutation, LocalsFirst, Sorts;
    var total;
    p := [];
    total, moved := CountLocals(syms);
    if moved {
      var remap := LocalsRemap(syms, total);
      p := remap[..];
      SortingPermutes(p, LocalGroups(syms[..]));
      PermutationInRange(p);
      ApplyRemap(remap, syms, infos, vers, editors);
      SortedLocalsFirst(old(syms[..]), syms[..], p);
    }
  }

  // Relocations first, then the symbols themselves.
  method ApplyRemap(remap: array<nat>, syms: array<Sym>, infos: array<SymInfo>, vers: array?<u32>,
                    editors: seq<RelocEditor>)
    requires Table(syms, infos, vers, editors) && remap.Length == syms.Length && IsPermutation(remap[..])
    requires vers != null ==> vers as object != remap as object
    modifies remap, syms, infos, vers, set e | e in editors, set e | e in editors :: e.entries
    ensures Reordered(old(remap[..]), syms, infos, vers, editors)
  {
    hide Followed, SymsBelow, Moved, IsPermutation;
    PermutationInRange(remap[..]);
    RelocsRemap(editors, remap);
    DsymsRemap(remap, syms, infos, vers);
  }
}

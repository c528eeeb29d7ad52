// Rebuilding the GNU hash table over a reordered symbol table, and the two readers of such tables.
module GnuHash {
  import opened Words
  import opened SymbolOrder
  import HashMix

  // What `rebuild_gnu_hash` and `sym_info_hash_count` both select by.
  predicate Hashed(info: SymInfo) {
    !info.bindsLocal && info.exportable && info.inGnuHash
  }

  // ---------- The shape of the table ----------

  // `32 - clz(x | 1) - !(x & (x - 1))`
  function CeilLog2(x: u32): int {
    32 - LeadingZeros(x + 1 - x % 2, 32) - if x == 0 || ClearLowest(x) == 0 then 1 else 0
  }

  // The leading zeros tell between which powers of two a word lies.
  lemma {:induction false} LeadingZerosIs(x: nat, n: nat)
    requires 0 < x < Pow2(n)
    ensures LeadingZeros(x, n) < n
    ensures Pow2(n - 1 - LeadingZeros(x, n)) <= x < Pow2(n - LeadingZeros(x, n))
  {
    if x < Pow2(n - 1) {
      LeadingZerosIs(x, n - 1);
    }
  }

  // Only a power of two has a single one bit.
  lemma {:induction false} SingleBit(x: nat)
    requires x > 0
    ensures ClearLowest(x) == 0 <==> IsPow2(x)
  {
    if x % 2 == 0 {
      SingleBit(x / 2);
    }
  }

  lemma {:induction false} PowersArePow2(k: nat)
    ensures IsPow2(Pow2(k)) && (k > 0 ==> Pow2(k) % 2 == 0)
  {
    if k > 0 {
      PowersArePow2(k - 1);
      assert Pow2(k) / 2 == Pow2(k - 1);
    }
  }

  lemma {:induction false} Pow2Between(x: nat, k: nat)
    requires IsPow2(x) && Pow2(k) <= x < Pow2(k + 1)
    ensures x == Pow2(k)
  {
    if k > 0 {
      Pow2Between(x / 2, k - 1);
    }
  }

  // The least power of two that is not below `x`.
  lemma CeilLog2Is(x: u32)
    ensures CeilLog2(x) >= 0 && IsPow2(Pow2(CeilLog2(x)))
    ensures x <= Pow2(CeilLog2(x))
    ensures if x > 1 then Pow2(CeilLog2(x)) < 2 * x else Pow2(CeilLog2(x)) == 1
    ensures x < 0x8000_0000 ==> CeilLog2(x) <= 31
  {
    hide LeadingZeros, ClearLowest, IsPow2, Pow2;
    var y: nat := x + 1 - x % 2;
    HashMix.WordBits();
    LeadingZerosIs(y, 32);
    var k: nat := 31 - LeadingZeros(y, 32);
    PowersArePow2(k);
    PowersArePow2(k + 1);
    DoublePow2(k);
    OneIsPow2();
    if x > 0 {
      SingleBit(x);
      assert Pow2(k) <= x;
      if IsPow2(x) {
        Pow2Between(x, k);
      }
    }
  }

  lemma DoublePow2(k: nat)
    ensures Pow2(k + 1) == 2 * Pow2(k)
  {
  }

  lemma OneIsPow2()
    ensures IsPow2(1) && Pow2(0) == 1
  {
  }

  datatype Shape = Shape(nBucket: nat, nBloom: nat, shift: nat, inPlace: bool)

  // What is known of the table that is to be replaced; `symCount` is the symbol count it implies.
  datatype OldTable = NoTable | OldTable(nBucket: nat, symOffset: nat, nBloom: nat, symCount: nat)

  // The size of a table in 32-bit words.
  function TableWords(nBucket: nat, nBloom: nat, nHashed: nat): nat {
    4 + 2 * nBloom + nBucket + nHashed
  }

  function OldWords(previous: OldTable): nat {
    if previous.NoTable? then 0
    else TableWords(previous.nBucket, previous.nBloom, if previous.symCount < previous.symOffset then 0
                    else previous.symCount - previous.symOffset)
  }

  // A table that fits into the old one takes its place, and the rest of it as extra buckets.
  function ShapeFor(nHashed: nat, previous: OldTable): (s: Shape)
    requires nHashed <= TWO_32
    ensures s.nBucket > 0
  {
    CeilLog2Is(nHashed * 8 / 64);
    var log2 := CeilLog2(nHashed * 8 / 64);
    var nBloom := Pow2(log2);
    var x := nHashed - nHashed / 4;
    var nBucket := x + 1 - x % 2;
    var inPlace := previous.OldTable? && OldWords(previous) >= TableWords(nBucket, nBloom, nHashed);
    var extra := if inPlace then OldWords(previous) - TableWords(nBucket, nBloom, nHashed) else 0;
    Shape(nBucket + extra, nBloom, if log2 > 20 then 26 else 6 + log2, inPlace)
  }

  // The words of the old table are reused if one for these symbols fits: the filter's size is the
  // least power of two with a word for eight symbols, the buckets are three for four symbols, made
  // odd, or as many as fill the old words, and the filter's second bit is taken from above what
  // selects its word and its first bit.
  lemma ShapeIs(nHashed: nat, previous: OldTable)
    requires nHashed <= TWO_32
    ensures var s := ShapeFor(nHashed, previous);
            && IsPow2(s.nBloom) && nHashed / 8 <= s.nBloom && (s.nBloom > 1 ==> s.nBloom < 2 * (nHashed / 8))
            && Pow2(s.shift) == (if s.nBloom <= 1024 * 1024 then 64 * s.nBloom else 64 * 1024 * 1024)
    ensures var s := ShapeFor(nHashed, previous);
            var least := nHashed - nHashed / 4;
            var words := 4 + 2 * s.nBloom + s.nBucket + nHashed;
            && (least < s.nBucket || (least == s.nBucket && least % 2 == 1))
            && (!s.inPlace ==> s.nBucket <= least + 1 && s.nBucket % 2 == 1)
            && (previous.NoTable? ==> !s.inPlace)
            && (previous.OldTable? ==>
                  var chains := previous.symCount - previous.symOffset;
                  var had := 4 + 2 * previous.nBloom + previous.nBucket + (if chains < 0 then 0 else chains);
                  if s.inPlace then words == had else words > had)
  {
    hide CeilLog2, Pow2, IsPow2;
    CeilLog2Is(nHashed * 8 / 64);
    ShiftIs(CeilLog2(nHashed * 8 / 64));
  }

  lemma ShiftIs(log2: nat)
    ensures Pow2(if log2 > 20 then 26 else 6 + log2)
            == if Pow2(log2) <= 1024 * 1024 then 64 * Pow2(log2) else 64 * 1024 * 1024
  {
    hide Pow2;
    TwentyBits();
    if log2 > 20 {
      Pow2Grows(21, log2);
    } else {
      Pow2Grows(log2, 20);
      Pow2Times64(log2);
    }
  }

  lemma Pow2Times64(k: nat)
    ensures Pow2(6 + k) == 64 * Pow2(k)
  {
    assert Pow2(2 + k) == 2 * Pow2(1 + k);
    assert Pow2(4 + k) == 2 * Pow2(3 + k) == 4 * Pow2(2 + k);
    assert Pow2(6 + k) == 2 * Pow2(5 + k) == 4 * Pow2(4 + k);
  }

  lemma TwentyBits()
    ensures Pow2(20) == 1024 * 1024 && Pow2(21) == 2 * 1024 * 1024 && Pow2(26) == 64 * 1024 * 1024
  {
    assert Pow2(10) == 1024;
    assert Pow2(20) == 1024 * 1024;
  }

  lemma {:induction false} Pow2Grows(j: nat, k: nat)
    requires j <= k
    ensures Pow2(j) <= Pow2(k)
  {
    if j < k {
      Pow2Grows(j, k - 1);
    }
  }

  // ---------- The table ----------

  // A 64-bit Bloom word is modelled as the set of its one bits.
  datatype GnuTable = GnuTable(symOffset: nat, shift: nat, bloom: seq<set<nat>>, buckets: seq<nat>, chains: seq<u32>)

  function BloomIndex(h: u32, n: nat): (w: nat)
    requires n > 0
    ensures w < n
  {
    (h / 64) % n
  }

  predicate IsBit(h: u32, shift: nat, bit: nat) {
    bit == h % 64 || bit == HashMix.Shr(h, shift) % 64
  }

  function Chain(t: GnuTable, i: nat): u32
    requires t.symOffset <= i < t.symOffset + |t.chains|
  {
    t.chains[i - t.symOffset]
  }

  // What any reader may rely on.
  ghost predicate Readable(t: GnuTable, count: nat) {
    && |t.bloom| > 0 && |t.buckets| > 0
    && (forall b :: 0 <= b < |t.buckets| ==> t.buckets[b] == 0 || t.symOffset <= t.buckets[b])
    && count <= t.symOffset + |t.chains|
  }

  predicate BloomHas(bloom: seq<set<nat>>, shift: nat, h: u32)
    requires |bloom| > 0
  {
    forall bit :: 0 <= bit < 64 && IsBit(h, shift, bit) ==> bit in bloom[BloomIndex(h, |bloom|)]
  }

  // Symbol `i` is found by its hash: the Bloom filter lets it pass, and its bucket's chain reaches
  // `i` before it ends.
  ghost predicate Findable(t: GnuTable, count: nat, h: u32, i: nat)
    requires Readable(t, count) && i < count
  {
    var s := t.buckets[h % |t.buckets|];
    && t.symOffset <= i
    && h % 64 in t.bloom[h / 64 % |t.bloom|] && h / Pow2(t.shift) % 64 in t.bloom[h / 64 % |t.bloom|]
    && 0 < s <= i
    && (forall k :: s <= k < i ==> Chain(t, k) % 2 == 0)
    && Chain(t, i) / 2 == h / 2
  }

  // ---------- Reading: which symbols are found ----------

  // What reading the table makes of a symbol's notes.
  ghost function Noted(t: GnuTable, count: nat, h: u32, i: nat, info: SymInfo): SymInfo
    requires Readable(t, count) && i < count < TWO_32
  {
    if Findable(t, count, h, i)
    then info.(inGnuHash := true, hashDistance := TWO_32 - 1 - (i - t.buckets[h % |t.buckets|]))
    else info
  }

  // Looks the symbol up by its hash, walking the chain no further than `i`.
  method IsFindable(t: GnuTable, count: nat, h: u32, i: nat) returns (found: bool)
    requires Readable(t, count) && t.symOffset <= i < count
    ensures found == Findable(t, count, h, i)
  {
    var word := t.bloom[BloomIndex(h, |t.bloom|)];
    BloomHasMeans(t.bloom, t.shift, h);
    if h % 64 !in word || HashMix.Shr(h, t.shift) % 64 !in word {
      return false;
    }
    var start := t.buckets[h % |t.buckets|];
    if start == 0 || start > i {
      return false;
    }
    var symix := start;
    while true
      invariant start <= symix <= i
      invariant forall k :: start <= k < symix ==> Chain(t, k) % 2 == 0
      decreases i - symix
    {
      var h2 := Chain(t, symix);
      // `h2 ^ (h & ~1)` is at most 1 when the two agree above the low bit.
      if symix == i && h2 / 2 == h / 2 {
        return true;
      }
      if h2 % 2 == 1 || symix == i {
        return false;
      }
      symix := symix + 1;
    }
  }

  lemma BloomHasMeans(bloom: seq<set<nat>>, shift: nat, h: u32)
    requires |bloom| > 0
    ensures var word := bloom[BloomIndex(h, |bloom|)];
            BloomHas(bloom, shift, h) <==> h % 64 in word && HashMix.Shr(h, shift) % 64 in word
    ensures HashMix.Shr(h, shift) == h / Pow2(shift)
    ensures BloomIndex(h, |bloom|) == h / 64 % |bloom|
  {
    HashMix.ShrDivides(h, shift);
    if BloomHas(bloom, shift, h) {
      assert IsBit(h, shift, h % 64);
      assert IsBit(h, shift, HashMix.Shr(h, shift) % 64);
    }
  }

  // Flags every symbol that the table finds.
  method GatherSymInfo(t: GnuTable, syms: array<Sym>, infos: array<SymInfo>, hash: NameHash)
    requires infos.Length == syms.Length < TWO_32 && Readable(t, syms.Length)
    modifies infos
    ensures forall i :: 0 <= i < syms.Length ==> infos[i] == Noted(t, syms.Length, hash(syms[i].name), i, old(infos[i]))
  {
    hide Readable, Findable;
    for i := 0 to syms.Length
      invariant forall k :: i <= k < syms.Length ==> infos[k] == old(infos[k])
      invariant forall k :: 0 <= k < i ==> infos[k] == Noted(t, syms.Length, hash(syms[k].name), k, old(infos[k]))
    {
      if i >= t.symOffset {
        var h := hash(syms[i].name);
        var found := IsFindable(t, syms.Length, h, i);
        if found {
          StartOf(t, syms.Length, h, i);
          infos[i] := infos[i].(inGnuHash := true, hashDistance := TWO_32 - 1 - (i - t.buckets[h % |t.buckets|]));
        }
      } else {
        BelowOffset(t, syms.Length, hash(syms[i].name), i);
      }
    }
  }

  lemma BelowOffset(t: GnuTable, count: nat, h: u32, i: nat)
    requires Readable(t, count) && i < count && i < t.symOffset
    ensures !Findable(t, count, h, i)
  {
  }

  lemma StartOf(t: GnuTable, count: nat, h: u32, i: nat)
    requires Readable(t, count) && i < count && Findable(t, count, h, i)
    ensures |t.buckets| > 0 && t.buckets[h % |t.buckets|] <= i
  {
  }

  // ---------- Reading: how many symbols there are ----------

  function MaxOf(s: seq<nat>, n: nat): (m: nat)
    requires n <= |s|
    ensures forall i :: 0 <= i < n ==> s[i] <= m
    ensures m == 0 || exists i :: 0 <= i < n && s[i] == m
  {
    if n == 0 then 0 else
      var m := MaxOf(s, n - 1);
      if s[n - 1] > m then s[n - 1] else m
  }

  // The chain that starts last ends at some point.
  ghost predicate Ends(t: GnuTable) {
    var m := MaxOf(t.buckets, |t.buckets|);
    m > 0 ==> t.symOffset <= m && exists k :: m <= k < t.symOffset + |t.chains| && Chain(t, k) % 2 == 1
  }

  // One more than the last symbol of the chain that starts last; 0 if there are no chains.
  ghost predicate IsCount(t: GnuTable, n: nat) {
    var m := MaxOf(t.buckets, |t.buckets|);
    if m == 0 then n == 0
    else
      && m < n <= t.symOffset + |t.chains| && t.symOffset <= m
      && Chain(t, n - 1) % 2 == 1
      && forall k :: m <= k < n - 1 ==> Chain(t, k) % 2 == 0
  }

  // ---------- What is written ----------

  // Local symbols, other symbols that are not hashed, then the buckets.
  function GroupOf(sym: Sym, info: SymInfo, hash: NameHash, nBucket: nat): nat
    requires nBucket > 0
  {
    if Hashed(info) then 2 + hash(sym.name) % nBucket else if sym.local then 0 else 1
  }

  function Groups(syms: seq<Sym>, infos: seq<SymInfo>, hash: NameHash, nBucket: nat): (gs: seq<nat>)
    requires |syms| == |infos| && nBucket > 0
    ensures |gs| == |syms|
    ensures forall i :: 0 <= i < |gs| ==> gs[i] == GroupOf(syms[i], infos[i], hash, nBucket)
  {
    seq(|syms|, i requires 0 <= i < |syms| => GroupOf(syms[i], infos[i], hash, nBucket))
  }

  // The hash with the low bit telling the end of a bucket's chain.
  function ChainWord(gs: seq<nat>, hs: seq<u32>, i: nat): u32
    requires i < |gs| == |hs|
  {
    hs[i] - hs[i] % 2 + if Rank(gs, i) + 1 == Below(gs, gs[i] + 1, |gs|) then 1 else 0
  }

  function BucketWord(gs: seq<nat>, b: nat): nat {
    if Among(gs, 2 + b, |gs|) == 0 then 0 else Below(gs, 2 + b, |gs|)
  }

  // A Bloom bit is set exactly if some hashed symbol asks for it.
  ghost predicate BloomOf(bloom: seq<set<nat>>, shift: nat, gs: seq<nat>, hs: seq<u32>, n: nat)
    requires |bloom| > 0
  {
    && n <= |gs| == |hs|
    && forall w, bit :: 0 <= w < |bloom| && 0 <= bit < 64 ==>
         (bit in bloom[w] <==> Asked(|bloom|, shift, gs, hs, n, w, bit))
  }

  ghost predicate Asked(nBloom: nat, shift: nat, gs: seq<nat>, hs: seq<u32>, n: nat, w: nat, bit: nat)
    requires nBloom > 0 && n <= |gs| == |hs|
  {
    exists i :: 0 <= i < n && gs[i] >= 2 && w == BloomIndex(hs[i], nBloom) && IsBit(hs[i], shift, bit)
  }

  // The table for symbols with these groups and hashes, once they are sorted by group.
  ghost predicate TableOf(t: GnuTable, gs: seq<nat>, hs: seq<u32>) {
    && |gs| == |hs| && |t.bloom| > 0 && |t.buckets| > 0
    && (forall i :: 0 <= i < |gs| ==> gs[i] < 2 || gs[i] == 2 + hs[i] % |t.buckets|)
    && t.symOffset == Below(gs, 2, |gs|) && |t.chains| == |gs| - t.symOffset
    && BloomOf(t.bloom, t.shift, gs, hs, |gs|)
    && (forall b :: 0 <= b < |t.buckets| ==> t.buckets[b] == BucketWord(gs, b))
    && (forall i :: 0 <= i < |gs| && gs[i] >= 2 ==>
        t.symOffset <= Rank(gs, i) < |gs| && Chain(t, Rank(gs, i)) == ChainWord(gs, hs, i))
  }

  // ---------- What is written can be read ----------

  lemma TableIsReadable(t: GnuTable, gs: seq<nat>, hs: seq<u32>)
    requires TableOf(t, gs, hs)
    ensures Readable(t, |gs|)
  {
    forall b | 0 <= b < |t.buckets|
      ensures t.buckets[b] == 0 || t.symOffset <= t.buckets[b]
    {
      BelowMonotone(gs, 2, 2 + b, |gs|);
    }
  }

  lemma {:induction false} NoneBelowTwo(gs: seq<nat>, n: nat)
    requires 0 < n <= |gs| && gs[0] < 2
    ensures Below(gs, 2, n) > 0
  {
    if n > 1 {
      NoneBelowTwo(gs, n - 1);
    }
  }

  // The sorted index tells the group.
  lemma GroupAt(gs: seq<nat>, i: nat, g: nat)
    requires i < |gs| && Below(gs, g, |gs|) <= Rank(gs, i) < Below(gs, g + 1, |gs|)
    ensures gs[i] == g
  {
    RankWithin(gs, i);
    if gs[i] < g {
      BelowMonotone(gs, gs[i] + 1, g, |gs|);
    } else if gs[i] > g {
      BelowMonotone(gs, g + 1, gs[i], |gs|);
    }
  }

  // Within a bucket's stretch, only the last chain word is odd.
  lemma StretchEven(t: GnuTable, gs: seq<nat>, hs: seq<u32>, p: seq<nat>, g: nat, k: nat)
    requires TableOf(t, gs, hs) && Sorts(p, gs) && g >= 2
    requires Below(gs, g, |gs|) <= k && k + 1 < Below(gs, g + 1, |gs|) <= |gs|
    ensures t.symOffset <= k < |gs| && Chain(t, k) % 2 == 0
  {
    SortingPermutes(p, gs);
    var i := Preimage(p, k);
    GroupAt(gs, i, g);
    assert Rank(gs, i) == k;
  }

  lemma BloomHasHashed(t: GnuTable, gs: seq<nat>, hs: seq<u32>, i: nat)
    requires |gs| == |hs| && |t.bloom| > 0 && BloomOf(t.bloom, t.shift, gs, hs, |gs|) && i < |gs| && gs[i] >= 2
    ensures BloomHas(t.bloom, t.shift, hs[i])
  {
    forall bit | 0 <= bit < 64 && IsBit(hs[i], t.shift, bit)
      ensures bit in t.bloom[BloomIndex(hs[i], |t.bloom|)]
    {
      assert Asked(|t.bloom|, t.shift, gs, hs, |gs|, BloomIndex(hs[i], |t.bloom|), bit);
    }
  }

  // The reader finds a symbol at its new index exactly if it was selected for hashing.
  lemma FoundIffHashed(t: GnuTable, gs: seq<nat>, hs: seq<u32>, p: seq<nat>, i: nat)
    requires TableOf(t, gs, hs) && Sorts(p, gs) && i < |gs| && gs[0] < 2
    ensures p[i] < |gs| && Readable(t, |gs|)
    ensures Findable(t, |gs|, hs[i], p[i]) <==> gs[i] >= 2
  {
    hide BloomOf, BloomHas, Below, Rank, Among;
    TableIsReadable(t, gs, hs);
    RankWithin(gs, i);
    var j, g := p[i], gs[i];
    assert j == Rank(gs, i);
    if g < 2 {
      BelowMonotone(gs, g + 1, 2, |gs|);
    } else {
      var s := t.buckets[hs[i] % |t.buckets|];
      assert s == BucketWord(gs, g - 2);
      AmongSome(gs, i, |gs|);
      NoneBelowTwo(gs, |gs|);
      BelowMonotone(gs, 2, g, |gs|);
      BloomHasHashed(t, gs, hs, i);
      BloomHasMeans(t.bloom, t.shift, hs[i]);
      forall k | s <= k < j
        ensures Chain(t, k) % 2 == 0
      {
        StretchEven(t, gs, hs, p, g, k);
      }
      EvenPlusBit(gs, hs, i);
    }
  }

  lemma EvenPlusBit(gs: seq<nat>, hs: seq<u32>, i: nat)
    requires i < |gs| == |hs|
    ensures ChainWord(gs, hs, i) / 2 == hs[i] / 2
    ensures ChainWord(gs, hs, i) % 2 == 1 <==> Rank(gs, i) + 1 == Below(gs, gs[i] + 1, |gs|)
  {
    hide Below, Rank;
  }

  // The first symbol of the last nonempty bucket.
  lemma LastBucket(t: GnuTable, gs: seq<nat>, hs: seq<u32>, i: nat) returns (g: nat)
    requires TableOf(t, gs, hs) && i < |gs| && gs[i] >= 2 && gs[0] < 2
    ensures g >= 2 && MaxOf(t.buckets, |t.buckets|) == Below(gs, g, |gs|) > 0
    ensures t.symOffset <= Below(gs, g, |gs|) < Below(gs, g + 1, |gs|)
    ensures forall k :: 0 <= k < |gs| && gs[k] >= 2 ==> gs[k] <= g
  {
    hide BloomOf, Below, Rank;
    var m := MaxOf(t.buckets, |t.buckets|);
    NoneBelowTwo(gs, |gs|);
    BucketStarts(t, gs, hs, i);
    var b :| 0 <= b < |t.buckets| && t.buckets[b] == m;
    g := 2 + b;
    BelowMonotone(gs, 2, g, |gs|);
    BelowNext(gs, g, |gs|);
    forall k | 0 <= k < |gs| && gs[k] >= 2
      ensures gs[k] <= g
    {
      BucketStarts(t, gs, hs, k);
      if gs[k] > g {
        BelowMonotone(gs, g + 1, gs[k], |gs|);
      }
    }
  }

  lemma BucketStarts(t: GnuTable, gs: seq<nat>, hs: seq<u32>, i: nat)
    requires TableOf(t, gs, hs) && i < |gs| && gs[i] >= 2
    ensures t.buckets[gs[i] - 2] == Below(gs, gs[i], |gs|) >= t.symOffset
  {
    hide BloomOf, Below, Rank, Among;
    AmongSome(gs, i, |gs|);
    BelowMonotone(gs, 2, gs[i], |gs|);
    assert t.buckets[gs[i] - 2] == BucketWord(gs, gs[i] - 2);
  }

  // The symbol count read back is the symbol count, if any symbol is hashed.
  lemma CountIsCount(t: GnuTable, gs: seq<nat>, hs: seq<u32>, p: seq<nat>, i: nat, n: nat)
    requires TableOf(t, gs, hs) && Sorts(p, gs) && i < |gs| && gs[i] >= 2 && gs[0] < 2
    ensures Ends(t) && (IsCount(t, n) <==> n == |gs|)
  {
    hide BloomOf, Below, Rank, Among;
    var g := LastBucket(t, gs, hs, i);
    SortingPermutes(p, gs);
    var last := Preimage(p, |gs| - 1);
    RankWithin(gs, last);
    assert Rank(gs, last) == |gs| - 1;
    LastGroup(gs, last, g);
    assert Below(gs, g + 1, |gs|) == |gs|;
    EvenPlusBit(gs, hs, last);
    assert Chain(t, |gs| - 1) == ChainWord(gs, hs, last);
    forall k | Below(gs, g, |gs|) <= k < |gs| - 1
      ensures Chain(t, k) % 2 == 0
    {
      StretchEven(t, gs, hs, p, g, k);
    }
  }

  lemma LastGroup(gs: seq<nat>, last: nat, g: nat)
    requires last < |gs| && Rank(gs, last) == |gs| - 1 && g >= 2
    requires Below(gs, g, |gs|) < Below(gs, g + 1, |gs|)
    requires forall k :: 0 <= k < |gs| && gs[k] >= 2 ==> gs[k] <= g
    ensures gs[last] == g && Below(gs, g + 1, |gs|) == |gs|
  {
    hide Below, Rank;
    AllBelow(gs, g + 1, |gs|);
    GroupAt(gs, last, g);
  }

  // Without hashed symbols it is 0.
  lemma CountWithoutHashed(t: GnuTable, gs: seq<nat>, hs: seq<u32>, n: nat)
    requires TableOf(t, gs, hs) && forall i :: 0 <= i < |gs| ==> gs[i] < 2
    ensures Ends(t) && (IsCount(t, n) <==> n == 0)
  {
    hide BloomOf, Below, Among;
    forall b | 0 <= b < |t.buckets|
      ensures t.buckets[b] == 0
    {
      AmongNowhere(gs, 2 + b, |gs|);
      assert t.buckets[b] == BucketWord(gs, b);
    }
  }

  lemma {:induction false} AmongNowhere(gs: seq<nat>, g: nat, n: nat)
    requires n <= |gs| && forall i :: 0 <= i < n ==> gs[i] != g
    ensures Among(gs, g, n) == 0
  {
    if n > 0 {
      AmongNowhere(gs, g, n - 1);
    }
  }

  // ---------- Writing ----------

  // Counts the symbols that go into the table.
  method HashCount(infos: array<SymInfo>) returns (n: nat)
    ensures n == HashedAmong(infos[..], infos.Length)
  {
    n := 0;
    for i := 0 to infos.Length
      invariant n == HashedAmong(infos[..], i)
    {
      if Hashed(infos[i]) { n := n + 1; }
    }
  }

  function HashedAmong(infos: seq<SymInfo>, n: nat): (c: nat)
    requires n <= |infos|
    ensures c <= n
  {
    if n == 0 then 0 else HashedAmong(infos, n - 1) + if Hashed(infos[n - 1]) then 1 else 0
  }

  lemma {:induction false} HashedAreRest(syms: seq<Sym>, infos: seq<SymInfo>, hash: NameHash, nBucket: nat, n: nat)
    requires |syms| == |infos| && nBucket > 0 && n <= |syms|
    ensures Below(Groups(syms, infos, hash, nBucket), 2, n) + HashedAmong(infos, n) == n
  {
    if n > 0 {
      HashedAreRest(syms, infos, hash, nBucket, n - 1);
    }
  }

  lemma GroupsInRange(syms: seq<Sym>, infos: seq<SymInfo>, hash: NameHash, nBucket: nat)
    requires |syms| == |infos| && nBucket > 0
    ensures forall i :: 0 <= i < |syms| ==> Groups(syms, infos, hash, nBucket)[i] < 2 + nBucket
  {
  }

  ghost predicate Counted(counts: seq<nat>, gs: seq<nat>, n: nat) {
    n <= |gs| && forall b :: 0 <= b < |counts| ==> counts[b] == Among(gs, 2 + b, n)
  }

  lemma CountedStep(counts: seq<nat>, gs: seq<nat>, n: nat)
    requires Counted(counts, gs, n) && n < |gs| && gs[n] < 2 + |counts|
    ensures Counted(if gs[n] < 2 then counts else counts[gs[n] - 2 := counts[gs[n] - 2] + 1], gs, n + 1)
  {
    hide Among;
    var counts' := if gs[n] < 2 then counts else counts[gs[n] - 2 := counts[gs[n] - 2] + 1];
    forall b | 0 <= b < |counts'|
      ensures counts'[b] == Among(gs, 2 + b, n + 1)
    {
      AmongNext(gs, 2 + b, n);
    }
  }

  lemma BloomStep(bloom: seq<set<nat>>, bloom': seq<set<nat>>, shift: nat, gs: seq<nat>, hs: seq<u32>, n: nat)
    requires |bloom| > 0 && BloomOf(bloom, shift, gs, hs, n) && n < |gs|
    requires var w := BloomIndex(hs[n], |bloom|);
             bloom' == if gs[n] < 2 then bloom
                       else bloom[w := bloom[w] + {hs[n] % 64} + {HashMix.Shr(hs[n], shift) % 64}]
    ensures BloomOf(bloom', shift, gs, hs, n + 1)
  {
    hide BloomIndex;
    forall w, bit | 0 <= w < |bloom'| && 0 <= bit < 64
      ensures bit in bloom'[w] <==> Asked(|bloom'|, shift, gs, hs, n + 1, w, bit)
    {
      AskedStep(|bloom|, shift, gs, hs, n, w, bit);
      assert bit in bloom[w] <==> Asked(|bloom|, shift, gs, hs, n, w, bit);
    }
  }

  lemma AskedStep(nBloom: nat, shift: nat, gs: seq<nat>, hs: seq<u32>, n: nat, w: nat, bit: nat)
    requires nBloom > 0 && n < |gs| == |hs|
    ensures Asked(nBloom, shift, gs, hs, n + 1, w, bit) <==>
            || Asked(nBloom, shift, gs, hs, n, w, bit)
            || (gs[n] >= 2 && w == BloomIndex(hs[n], nBloom) && IsBit(hs[n], shift, bit))
  {
    hide BloomIndex, IsBit;
  }

  lemma BloomStart(bloom: seq<set<nat>>, shift: nat, gs: seq<nat>, hs: seq<u32>)
    requires |bloom| > 0 && |gs| == |hs| && forall w :: 0 <= w < |bloom| ==> bloom[w] == {}
    ensures BloomOf(bloom, shift, gs, hs, 0)
  {
  }

  // The first pass: fills the Bloom filter, and counts the symbols of each kind.
  method CountPass(syms: array<Sym>, infos: array<SymInfo>, hash: NameHash, shape: Shape)
    returns (bloom: array<set<nat>>, counts: array<nat>, numLocal: nat)
    requires infos.Length == syms.Length && shape.nBucket > 0 && shape.nBloom > 0
    ensures fresh(bloom) && fresh(counts) && counts.Length == shape.nBucket && bloom.Length == shape.nBloom
    ensures var gs := Groups(syms[..], infos[..], hash, shape.nBucket);
            && Counted(counts[..], gs, syms.Length) && numLocal == Among(gs, 0, syms.Length)
            && BloomOf(bloom[..], shape.shift, gs, Hashes(syms[..], hash), syms.Length)
  {
    hide Counted, BloomOf, Among;
    ghost var gs, hs := Groups(syms[..], infos[..], hash, shape.nBucket), Hashes(syms[..], hash);
    bloom := new set<nat>[shape.nBloom](_ => {});
    counts := new nat[shape.nBucket](_ => 0);
    numLocal := 0;
    BloomStart(bloom[..], shape.shift, gs, hs);
    CountedStart(counts[..], gs);
    AmongNone(gs, 0);
    for i := 0 to syms.Length
      invariant Counted(counts[..], gs, i) && numLocal == Among(gs, 0, i)
      invariant BloomOf(bloom[..], shape.shift, gs, hs, i)
    {
      ghost var bloom0 := bloom[..];
      AmongNext(gs, 0, i);
      CountedStep(counts[..], gs, i);
      if Hashed(infos[i]) {
        var h := hash(syms[i].name);
        var w, bucket := BloomIndex(h, bloom.Length), h % counts.Length;
        bloom[w] := bloom[w] + {h % 64} + {HashMix.Shr(h, shape.shift) % 64};
        counts[bucket] := counts[bucket] + 1;
      } else if syms[i].local {
        numLocal := numLocal + 1;
      }
      BloomStep(bloom0, bloom[..], shape.shift, gs, hs, i);
    }
  }

  lemma CountedStart(counts: seq<nat>, gs: seq<nat>)
    requires forall b :: 0 <= b < |counts| ==> counts[b] == 0
    ensures Counted(counts, gs, 0)
  {
  }

  // The second pass: where each bucket starts. The counts become the next free index of a bucket.
  method StartPass(counts: array<nat>, ghost gs: seq<nat>, total0: nat, count: nat) returns (buckets: array<nat>)
    requires count == |gs| && Counted(counts[..], gs, count) && total0 == Below(gs, 2, count)
    requires forall i :: 0 <= i < count ==> gs[i] < 2 + counts.Length
    modifies counts
    ensures fresh(buckets) && buckets.Length == counts.Length
    ensures forall b :: 0 <= b < buckets.Length ==> buckets[b] == BucketWord(gs, b)
    ensures forall b :: 0 <= b < buckets.Length ==>
              counts[b] == if Among(gs, 2 + b, count) > 0 then Below(gs, 2 + b, count) else count
  {
    hide Below, Among;
    buckets := new nat[counts.Length](_ => 0);
    var total := total0;
    for i := 0 to counts.Length
      invariant total == Below(gs, 2 + i, count)
      invariant forall b :: i <= b < counts.Length ==> counts[b] == old(counts[b])
      invariant forall b :: 0 <= b < i ==> buckets[b] == BucketWord(gs, b)
      invariant forall b :: 0 <= b < i ==>
                  counts[b] == if Among(gs, 2 + b, count) > 0 then Below(gs, 2 + b, count) else count
    {
      var here := counts[i];
      assert here == old(counts[..])[i] == Among(gs, 2 + i, count);
      BelowNext(gs, 2 + i, count);
      if here > 0 {
        buckets[i] := total;
        counts[i] := total;
        total := total + here;
      } else {
        buckets[i] := 0;
        counts[i] := count;
      }
    }
    // The exit for inconsistent counts is never taken.
    AllBelow(gs, 2 + counts.Length, count);
    assert total == count;
  }

  // The next free index of each bucket after `n` symbols.
  ghost predicate Cursors(cursors: seq<nat>, gs: seq<nat>, n: nat) {
    n <= |gs| && forall b :: 0 <= b < |cursors| && Among(gs, 2 + b, |gs|) > 0 ==>
      cursors[b] == Below(gs, 2 + b, |gs|) + Among(gs, 2 + b, n)
  }

  lemma CursorsStep(cursors: seq<nat>, gs: seq<nat>, n: nat)
    requires Cursors(cursors, gs, n) && n < |gs| && gs[n] < 2 + |cursors|
    ensures gs[n] >= 2 ==> cursors[gs[n] - 2] == Rank(gs, n)
    ensures Cursors(if gs[n] < 2 then cursors else cursors[gs[n] - 2 := cursors[gs[n] - 2] + 1], gs, n + 1)
  {
    hide Below, Among;
    AmongSome(gs, n, |gs|);
    var cursors' := if gs[n] < 2 then cursors else cursors[gs[n] - 2 := cursors[gs[n] - 2] + 1];
    forall b | 0 <= b < |cursors'| && Among(gs, 2 + b, |gs|) > 0
      ensures cursors'[b] == Below(gs, 2 + b, |gs|) + Among(gs, 2 + b, n + 1)
    {
      AmongNext(gs, 2 + b, n);
    }
  }

  // The chain words of the first `n` symbols, without terminators.
  ghost predicate Chained(chains: seq<u32>, off: nat, gs: seq<nat>, hs: seq<u32>, n: nat) {
    && n <= |gs| == |hs|
    && forall i :: 0 <= i < n && gs[i] >= 2 ==>
         off <= Rank(gs, i) < off + |chains| && chains[Rank(gs, i) - off] == hs[i] - hs[i] % 2
  }

  lemma ChainedStep(chains: seq<u32>, off: nat, gs: seq<nat>, hs: seq<u32>, n: nat)
    requires Chained(chains, off, gs, hs, n) && n < |gs| == off + |chains| && off == Below(gs, 2, |gs|)
    ensures gs[n] < 2 ==> Chained(chains, off, gs, hs, n + 1)
    ensures gs[n] >= 2 ==>
              off <= Rank(gs, n) < |gs| && Chained(chains[Rank(gs, n) - off := hs[n] - hs[n] % 2], off, gs, hs, n + 1)
  {
    hide Below, Rank;
    if gs[n] >= 2 {
      RankWithin(gs, n);
      BelowMonotone(gs, 2, gs[n], |gs|);
      forall i | 0 <= i < n && gs[i] >= 2
        ensures Rank(gs, i) != Rank(gs, n)
      {
        RankOrders(gs, i, n);
        RankOrders(gs, n, i);
      }
    }
  }

  // The third pass: gives every symbol its new index, and writes the chain words.
  method RemapPass(syms: array<Sym>, infos: array<SymInfo>, hash: NameHash, cursors: array<nat>, off: nat, total0: nat)
    returns (remap: array<nat>, chains: array<u32>)
    requires infos.Length == syms.Length && cursors.Length > 0
    requires var gs := Groups(syms[..], infos[..], hash, cursors.Length);
             Cursors(cursors[..], gs, 0) && off == Below(gs, 2, |gs|) && total0 == Among(gs, 0, |gs|)
    modifies cursors
    ensures fresh(remap) && fresh(chains) && remap.Length == syms.Length && off + chains.Length == syms.Length
    ensures var gs := Groups(syms[..], infos[..], hash, cursors.Length);
            && Sorts(remap[..], gs) && Cursors(cursors[..], gs, |gs|)
            && Chained(chains[..], off, gs, Hashes(syms[..], hash), |gs|)
  {
    hide Below, Among, Rank, Cursors, Chained;
    ghost var gs, hs := Groups(syms[..], infos[..], hash, cursors.Length), Hashes(syms[..], hash);
    remap := new nat[syms.Length](_ => 0);
    chains := new u32[syms.Length - off](_ => 0);
    var numLocal, total := 0, total0;
    AmongNone(gs, 0);
    AmongNone(gs, 1);
    ChainedStart(chains[..], off, gs, hs);
    for i := 0 to syms.Length
      invariant numLocal == Among(gs, 0, i) && total == total0 + Among(gs, 1, i)
      invariant Cursors(cursors[..], gs, i) && Chained(chains[..], off, gs, hs, i)
      invariant forall k :: 0 <= k < i ==> remap[k] == Rank(gs, k)
    {
      AmongNext(gs, 0, i);
      AmongNext(gs, 1, i);
      CursorsStep(cursors[..], gs, i);
      ChainedStep(chains[..], off, gs, hs, i);
      if Hashed(infos[i]) {
        var h := hash(syms[i].name);
        var bucket := h % cursors.Length;
        var j := cursors[bucket];
        cursors[bucket] := j + 1;
        chains[j - off] := h - h % 2;
        remap[i] := j;
      } else {
        RankOfTwo(gs, i);
        if syms[i].local {
          remap[i] := numLocal;
          numLocal := numLocal + 1;
        } else {
          remap[i] := total;
          total := total + 1;
        }
      }
    }
  }

  lemma ChainedStart(chains: seq<u32>, off: nat, gs: seq<nat>, hs: seq<u32>)
    requires |gs| == |hs|
    ensures Chained(chains, off, gs, hs, 0)
  {
  }

  // Chain words of the buckets before `b` have their terminators.
  ghost predicate Ended(chains: seq<u32>, off: nat, gs: seq<nat>, hs: seq<u32>, b: nat) {
    && |gs| == |hs|
    && forall i :: 0 <= i < |gs| && gs[i] >= 2 ==>
         && off <= Rank(gs, i) < off + |chains|
         && chains[Rank(gs, i) - off] == if gs[i] < 2 + b then ChainWord(gs, hs, i) else hs[i] - hs[i] % 2
  }

  function WithLowBit(w: u32): u32 {
    w + 1 - w % 2
  }

  lemma EndedEmpty(chains: seq<u32>, off: nat, gs: seq<nat>, hs: seq<u32>, b: nat)
    requires Ended(chains, off, gs, hs, b) && Among(gs, 2 + b, |gs|) == 0
    ensures Ended(chains, off, gs, hs, b + 1)
  {
    hide Rank, Among, ChainWord;
    forall i | 0 <= i < |gs| && gs[i] >= 2
      ensures gs[i] != 2 + b
    {
      AmongSome(gs, i, |gs|);
    }
  }

  lemma EndedStep(chains: seq<u32>, off: nat, gs: seq<nat>, hs: seq<u32>, b: nat, j: nat)
    requires Ended(chains, off, gs, hs, b) && off <= j < |gs| == off + |chains|
    requires Among(gs, 2 + b, |gs|) > 0 && j + 1 == Below(gs, 2 + b, |gs|) + Among(gs, 2 + b, |gs|)
    ensures Ended(chains[j - off := WithLowBit(chains[j - off])], off, gs, hs, b + 1)
  {
    hide Rank, Among, Below;
    var chains' := chains[j - off := WithLowBit(chains[j - off])];
    BelowNext(gs, 2 + b, |gs|);
    forall i | 0 <= i < |gs| && gs[i] >= 2
      ensures chains'[Rank(gs, i) - off] == if gs[i] < 2 + b + 1 then ChainWord(gs, hs, i) else hs[i] - hs[i] % 2
    {
      if Rank(gs, i) == j {
        GroupAt(gs, i, 2 + b);
      }
    }
  }

  // The last pass: marks the end of every chain.
  method EndPass(chains: array<u32>, buckets: array<nat>, cursors: array<nat>, off: nat, ghost gs: seq<nat>,
                 ghost hs: seq<u32>)
    requires Chained(chains[..], off, gs, hs, |gs|) && off + chains.Length == |gs| && off == Below(gs, 2, |gs|)
    requires buckets.Length == cursors.Length && Cursors(cursors[..], gs, |gs|)
    requires forall b :: 0 <= b < buckets.Length ==> buckets[b] == BucketWord(gs, b)
    requires forall i :: 0 <= i < |gs| ==> gs[i] < 2 + buckets.Length
    requires |gs| > 0 ==> gs[0] < 2
    modifies chains
    ensures forall i :: 0 <= i < |gs| && gs[i] >= 2 ==>
              off <= Rank(gs, i) < |gs| && chains[Rank(gs, i) - off] == ChainWord(gs, hs, i)
  {
    hide Below, Among, Rank, Ended, Cursors, Chained, ChainWord;
    EndedStart(chains[..], off, gs, hs);
    for b := 0 to buckets.Length
      invariant Ended(chains[..], off, gs, hs, b)
    {
      BucketWordIs(gs, b);
      if buckets[b] != 0 {
        CursorAtEnd(cursors[..], gs, b);
        var j := cursors[b] - 1;
        EndedStep(chains[..], off, gs, hs, b, j);
        chains[j - off] := WithLowBit(chains[j - off]);
      } else {
        EndedEmpty(chains[..], off, gs, hs, b);
      }
    }
    EndedMeans(chains[..], off, gs, hs, buckets.Length);
  }

  lemma EndedStart(chains: seq<u32>, off: nat, gs: seq<nat>, hs: seq<u32>)
    requires Chained(chains, off, gs, hs, |gs|)
    ensures Ended(chains, off, gs, hs, 0)
  {
    hide Rank, ChainWord;
  }

  lemma EndedMeans(chains: seq<u32>, off: nat, gs: seq<nat>, hs: seq<u32>, b: nat)
    requires Ended(chains, off, gs, hs, b) && off + |chains| == |gs| && forall i :: 0 <= i < |gs| ==> gs[i] < 2 + b
    ensures forall i :: 0 <= i < |gs| && gs[i] >= 2 ==>
              off <= Rank(gs, i) < |gs| && chains[Rank(gs, i) - off] == ChainWord(gs, hs, i)
  {
    hide Rank, ChainWord;
  }

  // As symbol 0 is not hashed, only an empty bucket has the value 0.
  lemma BucketWordIs(gs: seq<nat>, b: nat)
    requires |gs| > 0 ==> gs[0] < 2
    ensures BucketWord(gs, b) == 0 <==> Among(gs, 2 + b, |gs|) == 0
  {
    hide Among, Below;
    if |gs| > 0 {
      NoneBelowTwo(gs, |gs|);
      BelowMonotone(gs, 2, 2 + b, |gs|);
    }
  }

  lemma CursorAtEnd(cursors: seq<nat>, gs: seq<nat>, b: nat)
    requires Cursors(cursors, gs, |gs|) && b < |cursors| && Among(gs, 2 + b, |gs|) > 0
    ensures cursors[b] == Below(gs, 2 + b, |gs|) + Among(gs, 2 + b, |gs|) <= |gs|
    ensures Below(gs, 2, |gs|) < cursors[b]
  {
    hide Among, Below;
    BelowNext(gs, 2 + b, |gs|);
    BelowMonotone(gs, 2, 2 + b, |gs|);
  }

  // ---------- The rebuilt table ----------

  // Reading the table finds exactly the hashed symbols, and tells how many symbols there are.
  ghost predicate ReadsBack(t: GnuTable, syms: seq<Sym>, infos: seq<SymInfo>, hash: NameHash) {
    && |infos| == |syms| && Readable(t, |syms|) && Ends(t)
    && (forall j :: 0 <= j < |syms| ==>
          (Findable(t, |syms|, hash(syms[j].name), j) <==>
           !infos[j].bindsLocal && infos[j].exportable && infos[j].inGnuHash))
    && (forall n :: IsCount(t, n) <==> n == if AnyHashed(infos) then |syms| else 0)
  }

  ghost predicate AnyHashed(infos: seq<SymInfo>) {
    exists j :: 0 <= j < |infos| && Hashed(infos[j])
  }

  lemma RebuiltReadsBack(t: GnuTable, syms: seq<Sym>, infos: seq<SymInfo>, syms': seq<Sym>, infos': seq<SymInfo>,
                         p: seq<nat>, hash: NameHash)
    requires |infos| == |syms| && (|syms| > 0 ==> !Hashed(infos[0])) && |t.buckets| > 0
    requires var gs := Groups(syms, infos, hash, |t.buckets|); TableOf(t, gs, Hashes(syms, hash)) && Sorts(p, gs)
    requires Moved(syms, syms', p) && Moved(infos, infos', p)
    ensures ReadsBack(t, syms', infos', hash)
  {
    hide TableOf, Sorts, IsPermutation, Readable, Ends, Findable, IsCount;
    var gs, hs := Groups(syms, infos, hash, |t.buckets|), Hashes(syms, hash);
    TableIsReadable(t, gs, hs);
    SortingPermutes(p, gs);
    forall j | 0 <= j < |syms'|
      ensures Findable(t, |syms'|, hash(syms'[j].name), j) <==> Hashed(infos'[j])
    {
      var i := Preimage(p, j);
      FoundIffHashed(t, gs, hs, p, i);
      assert syms'[p[i]] == syms[i] && infos'[p[i]] == infos[i];
    }
    CountReadsBack(t, gs, hs, p);
    assert AnyHashed(infos) <==> exists i :: 0 <= i < |gs| && gs[i] >= 2;
    AnyHashedStill(infos, infos', p);
  }

  lemma AnyHashedStill(infos: seq<SymInfo>, infos': seq<SymInfo>, p: seq<nat>)
    requires Moved(infos, infos', p) && IsPermutation(p)
    ensures AnyHashed(infos') <==> AnyHashed(infos)
  {
    forall j | 0 <= j < |infos'|
      ensures infos'[j] in infos
    {
      assert infos'[p[Preimage(p, j)]] == infos[Preimage(p, j)];
    }
    forall i | 0 <= i < |infos|
      ensures infos[i] in infos'
    {
      assert infos'[p[i]] == infos[i];
    }
  }

  lemma CountReadsBack(t: GnuTable, gs: seq<nat>, hs: seq<u32>, p: seq<nat>)
    requires TableOf(t, gs, hs) && Sorts(p, gs) && (|gs| > 0 ==> gs[0] < 2)
    ensures Ends(t)
    ensures forall n :: IsCount(t, n) <==> n == if exists i :: 0 <= i < |gs| && gs[i] >= 2 then |gs| else 0
  {
    hide TableOf, Sorts, Ends, IsCount;
    forall n
      ensures IsCount(t, n) <==> n == if exists i :: 0 <= i < |gs| && gs[i] >= 2 then |gs| else 0
    {
      if i :| 0 <= i < |gs| && gs[i] >= 2 {
        CountIsCount(t, gs, hs, p, i, n);
      } else {
        CountWithoutHashed(t, gs, hs, n);
      }
    }
    if i :| 0 <= i < |gs| && gs[i] >= 2 {
      CountIsCount(t, gs, hs, p, i, 0);
    } else {
      CountWithoutHashed(t, gs, hs, 0);
    }
  }

  // ---------- Looking a name up ----------

  // Symbol `j` bears the name, and the table finds it by the name's hash.
  ghost predicate Answers(t: GnuTable, syms: seq<Sym>, hash: NameHash, name: nat, j: nat)
    requires Readable(t, |syms|)
  {
    j < |syms| && syms[j].name == name && Findable(t, |syms|, hash(name), j)
  }

  // A lookup walks the chain upwards, so it ends at the first symbol that answers.
  ghost predicate LooksUp(t: GnuTable, syms: seq<Sym>, hash: NameHash, name: nat, j: nat)
    requires Readable(t, |syms|)
  {
    Answers(t, syms, hash, name, j) && forall k :: 0 <= k < j ==> !Answers(t, syms, hash, name, k)
  }

  ghost predicate Offers(syms: seq<Sym>, infos: seq<SymInfo>, name: nat, i: nat) {
    && i < |syms| == |infos| && syms[i].name == name
    && !infos[i].bindsLocal && infos[i].exportable && infos[i].inGnuHash
  }

  ghost predicate OffersFirst(syms: seq<Sym>, infos: seq<SymInfo>, name: nat, i: nat) {
    Offers(syms, infos, name, i) && forall k :: 0 <= k < i ==> !Offers(syms, infos, name, k)
  }

  // The rebuilt table, over the symbols in their new order.
  ghost predicate Rebuilt(t: GnuTable, syms: seq<Sym>, infos: seq<SymInfo>, syms': seq<Sym>, p: seq<nat>,
                          hash: NameHash) {
    && |infos| == |syms| && (|syms| > 0 ==> !Hashed(infos[0])) && |t.buckets| > 0
    && Moved(syms, syms', p)
    && var gs := Groups(syms, infos, hash, |t.buckets|); TableOf(t, gs, Hashes(syms, hash)) && Sorts(p, gs)
  }

  lemma AnswersMoved(t: GnuTable, syms: seq<Sym>, infos: seq<SymInfo>, syms': seq<Sym>, p: seq<nat>, hash: NameHash,
                     name: nat, i: nat)
    requires Rebuilt(t, syms, infos, syms', p, hash) && i < |syms|
    ensures Readable(t, |syms'|) && p[i] < |syms'|
    ensures Answers(t, syms', hash, name, p[i]) <==> Offers(syms, infos, name, i)
  {
    hide TableOf, Sorts, Findable, Readable;
    var gs := Groups(syms, infos, hash, |t.buckets|);
    FoundIffHashed(t, gs, Hashes(syms, hash), p, i);
  }

  // Symbols that are offered under one name share a bucket, where they keep their order.
  lemma SameNameInOrder(t: GnuTable, syms: seq<Sym>, infos: seq<SymInfo>, syms': seq<Sym>, p: seq<nat>, hash: NameHash,
                        name: nat, i: nat, k: nat)
    requires Rebuilt(t, syms, infos, syms', p, hash) && k < i
    requires Offers(syms, infos, name, i) && Offers(syms, infos, name, k)
    ensures p[k] < p[i]
  {
    hide TableOf;
    RankOrders(Groups(syms, infos, hash, |t.buckets|), k, i);
  }

  // So a lookup ends at the symbol that came first among those offered under the name.
  lemma LooksUpFirst(t: GnuTable, syms: seq<Sym>, infos: seq<SymInfo>, syms': seq<Sym>, p: seq<nat>, hash: NameHash,
                     name: nat, i: nat)
    requires Rebuilt(t, syms, infos, syms', p, hash) && i < |syms|
    ensures Readable(t, |syms'|) && p[i] < |syms'|
    ensures LooksUp(t, syms', hash, name, p[i]) <==> OffersFirst(syms, infos, name, i)
  {
    hide Rebuilt, Answers, Offers, Readable;
    RebuiltPermutes(t, syms, infos, syms', p, hash);
    AnswersMoved(t, syms, infos, syms', p, hash, name, i);
    if Offers(syms, infos, name, i) {
      if OffersFirst(syms, infos, name, i) {
        forall j | 0 <= j < p[i]
          ensures !Answers(t, syms', hash, name, j)
        {
          var k := Preimage(p, j);
          AnswersMoved(t, syms, infos, syms', p, hash, name, k);
          if Offers(syms, infos, name, k) {
            OffersOnce(syms, infos, name, i, k);
            SameNameInOrder(t, syms, infos, syms', p, hash, name, k, i);
          }
        }
      } else {
        var k :| 0 <= k < i && Offers(syms, infos, name, k);
        AnswersMoved(t, syms, infos, syms', p, hash, name, k);
        SameNameInOrder(t, syms, infos, syms', p, hash, name, i, k);
      }
    }
  }

  lemma OffersOnce(syms: seq<Sym>, infos: seq<SymInfo>, name: nat, i: nat, k: nat)
    requires OffersFirst(syms, infos, name, i) && Offers(syms, infos, name, k)
    ensures i <= k
  {
  }

  lemma RebuiltPermutes(t: GnuTable, syms: seq<Sym>, infos: seq<SymInfo>, syms': seq<Sym>, p: seq<nat>, hash: NameHash)
    requires Rebuilt(t, syms, infos, syms', p, hash)
    ensures IsPermutation(p) && |p| == |syms| == |syms'| == |infos|
  {
    hide TableOf;
    SortingPermutes(p, Groups(syms, infos, hash, |t.buckets|));
  }

  // Where the symbols that are offered are those that an old table found, every name still leads
  // to the symbol that it led to.
  lemma GnuLookupUnchanged(before: GnuTable, t: GnuTable, syms: seq<Sym>, infos: seq<SymInfo>, syms': seq<Sym>,
                           p: seq<nat>, hash: NameHash, name: nat, i: nat)
    requires Readable(before, |syms|) && Rebuilt(t, syms, infos, syms', p, hash) && i < |syms|
    requires forall k :: 0 <= k < |syms| ==> (Hashed(infos[k]) <==> Findable(before, |syms|, hash(syms[k].name), k))
    ensures Readable(t, |syms'|) && p[i] < |syms'|
    ensures LooksUp(t, syms', hash, name, p[i]) <==> LooksUp(before, syms, hash, name, i)
  {
    hide Rebuilt, Findable, Readable;
    RebuiltPermutes(t, syms, infos, syms', p, hash);
    LooksUpFirst(t, syms, infos, syms', p, hash, name, i);
    assert forall k :: 0 <= k < |syms| ==> (Answers(before, syms, hash, name, k) <==> Offers(syms, infos, name, k));
  }

  // The null symbol stays where it is: it is local, and first.
  lemma NullSymbolStays(syms: seq<Sym>, infos: seq<SymInfo>, hash: NameHash, nBucket: nat, p: seq<nat>)
    requires |infos| == |syms| > 0 && nBucket > 0 && !Hashed(infos[0]) && syms[0].local
    requires Sorts(p, Groups(syms, infos, hash, nBucket))
    ensures p[0] == 0
  {
    var gs := Groups(syms, infos, hash, nBucket);
    RankOfTwo(gs, 0);
  }

  lemma FirstNotHashed(syms: seq<Sym>, infos: seq<SymInfo>, hash: NameHash, nBucket: nat)
    requires |infos| == |syms| && nBucket > 0 && (|syms| > 0 ==> !Hashed(infos[0]))
    ensures |syms| > 0 ==> Groups(syms, infos, hash, nBucket)[0] < 2
  {
  }

  // Builds the table for the order that the symbols are to have.
  method BuildTable(syms: array<Sym>, infos: array<SymInfo>, hash: NameHash, previous: OldTable)
    returns (t: GnuTable, shape: Shape, remap: array<nat>)
    requires infos.Length == syms.Length <= TWO_32 && (syms.Length > 0 ==> !Hashed(infos[0]))
    ensures shape == ShapeFor(HashedAmong(infos[..], syms.Length), previous)
    ensures |t.buckets| == shape.nBucket && |t.bloom| == shape.nBloom && t.shift == shape.shift
    ensures |t.chains| == HashedAmong(infos[..], syms.Length)
    ensures fresh(remap) && remap.Length == syms.Length
    ensures Sorts(remap[..], Groups(syms[..], infos[..], hash, shape.nBucket))
    ensures TableOf(t, Groups(syms[..], infos[..], hash, shape.nBucket), Hashes(syms[..], hash))
  {
    hide Sorts, TableOf, Counted, BloomOf, Cursors, Chained, Below, Among, Rank, BucketWord, ChainWord, ShapeFor,
         HashedAmong, IsPow2, Hashes, Hashed, TableWords, OldWords, Readable, Moved;
    var nHashed := HashCount(infos);
    shape := ShapeFor(nHashed, previous);
    ShapeIs(nHashed, previous);
    var count := syms.Length;
    ghost var gs, hs := Groups(syms[..], infos[..], hash, shape.nBucket), Hashes(syms[..], hash);
    HashedAreRest(syms[..], infos[..], hash, shape.nBucket, count);
    GroupsInRange(syms[..], infos[..], hash, shape.nBucket);
    FirstNotHashed(syms[..], infos[..], hash, shape.nBucket);
    var bloom, cursors, numLocal := CountPass(syms, infos, hash, shape);
    var off := count - nHashed;
    var buckets := StartPass(cursors, gs, off, count);
    StartsAreCursors(cursors[..], gs);
    var chains;
    remap, chains := RemapPass(syms, infos, hash, cursors, off, numLocal);
    EndPass(chains, buckets, cursors, off, gs, hs);
    t := GnuTable(off, shape.shift, bloom[..], buckets[..], chains[..]);
    TableMeans(t, gs, hs);
  }

  // ---------- The order of the symbols ----------

  // Symbols that stay out of the table come first, local ones before others; those in the table
  // come by bucket. Within each of these parts the order stays as it was.
  predicate ComesBefore(syms: seq<Sym>, infos: seq<SymInfo>, hash: NameHash, nBucket: nat, i: nat, j: nat)
    requires |infos| == |syms| && i < |syms| && j < |syms| && nBucket > 0
  {
    var a := !infos[i].bindsLocal && infos[i].exportable && infos[i].inGnuHash;
    var b := !infos[j].bindsLocal && infos[j].exportable && infos[j].inGnuHash;
    var bi, bj := hash(syms[i].name) % nBucket, hash(syms[j].name) % nBucket;
    if a && b then bi < bj || (bi == bj && i < j)
    else if a || b then b
    else (syms[i].local && !syms[j].local) || (syms[i].local == syms[j].local && i < j)
  }

  ghost predicate InOrder(syms: seq<Sym>, infos: seq<SymInfo>, hash: NameHash, nBucket: nat, p: seq<nat>) {
    && |p| == |syms| == |infos| && nBucket > 0
    && forall i, j :: 0 <= i < |p| && 0 <= j < |p| ==> (p[i] < p[j] <==> ComesBefore(syms, infos, hash, nBucket, i, j))
  }

  lemma SortedInOrder(syms: seq<Sym>, infos: seq<SymInfo>, hash: NameHash, nBucket: nat, p: seq<nat>)
    requires |infos| == |syms| && nBucket > 0 && Sorts(p, Groups(syms, infos, hash, nBucket))
    ensures InOrder(syms, infos, hash, nBucket, p)
  {
    hide Rank;
    var gs := Groups(syms, infos, hash, nBucket);
    forall i, j | 0 <= i < |p| && 0 <= j < |p|
      ensures p[i] < p[j] <==> ComesBefore(syms, infos, hash, nBucket, i, j)
    {
      RankOrders(gs, i, j);
    }
  }

  // Unless a local symbol is in the table, local symbols come first.
  lemma OrderedLocalsFirst(syms: seq<Sym>, infos: seq<SymInfo>, syms': seq<Sym>, hash: NameHash, nBucket: nat,
                           p: seq<nat>)
    requires InOrder(syms, infos, hash, nBucket, p) && IsPermutation(p) && Moved(syms, syms', p)
    requires forall i :: 0 <= i < |syms| && syms[i].local ==>
               infos[i].bindsLocal || !infos[i].exportable || !infos[i].inGnuHash
    ensures LocalsFirst(syms')
  {
    forall i', j' | 0 <= i' < j' < |syms'| && syms'[j'].local
      ensures syms'[i'].local
    {
      var i, j := Preimage(p, i'), Preimage(p, j');
      assert syms'[p[i]] == syms[i] && syms'[p[j]] == syms[j];
      assert p[i] < p[j] && ComesBefore(syms, infos, hash, nBucket, i, j);
    }
  }

  // Builds the table, and reorders the symbols so that each bucket's symbols are consecutive.
  method RebuildGnuHash(syms: array<Sym>, infos: array<SymInfo>, vers: array?<u32>, editors: seq<RelocEditor>,
                        hash: NameHash, previous: OldTable)
    returns (t: GnuTable, shape: Shape, ghost p: seq<nat>)
    requires Table(syms, infos, vers, editors) && (syms.Length > 0 ==> !Hashed(infos[0]))
    modifies syms, infos, vers, set e | e in editors, set e | e in editors :: e.entries
    ensures shape == ShapeFor(HashedAmong(old(infos[..]), syms.Length), previous)
    ensures |t.buckets| == shape.nBucket && |t.bloom| == shape.nBloom && t.shift == shape.shift
    ensures |t.chains| == HashedAmong(old(infos[..]), syms.Length)
    ensures Sorts(p, Groups(old(syms[..]), old(infos[..]), hash, shape.nBucket))
    ensures TableOf(t, Groups(old(syms[..]), old(infos[..]), hash, shape.nBucket), Hashes(old(syms[..]), hash))
    ensures Reordered(p, syms, infos, vers, editors)
    ensures InOrder(old(syms[..]), old(infos[..]), hash, |t.buckets|, p)
    ensures (forall i :: 0 <= i < syms.Length && old(syms[i].local) ==>
               old(infos[i].bindsLocal || !infos[i].exportable || !infos[i].inGnuHash)) ==> LocalsFirst(syms[..])
    ensures ReadsBack(t, syms[..], infos[..], hash)
  {
    hide LocalsFirst, InOrder, Sorts, TableOf, Moved, Followed, SymsBelow, ReadsBack, IsPermutation, ShapeFor,
         HashedAmong;
    var remap;
    t, shape, remap := BuildTable(syms, infos, hash, previous);
    p := remap[..];
    SortingPermutes(p, Groups(syms[..], infos[..], hash, shape.nBucket));
    SortedInOrder(syms[..], infos[..], hash, shape.nBucket, p);
    ApplyRemap(remap, syms, infos, vers, editors);
    RebuiltReadsBack(t, old(syms[..]), old(infos[..]), syms[..], infos[..], p, hash);
    if forall i :: 0 <= i < syms.Length && old(syms[i].local) ==>
         old(infos[i].bindsLocal || !infos[i].exportable || !infos[i].inGnuHash) {
      OrderedLocalsFirst(old(syms[..]), old(infos[..]), syms[..], hash, shape.nBucket, p);
    }
  }

  lemma StartsAreCursors(cursors: seq<nat>, gs: seq<nat>)
    requires forall b :: 0 <= b < |cursors| ==>
               cursors[b] == if Among(gs, 2 + b, |gs|) > 0 then Below(gs, 2 + b, |gs|) else |gs|
    ensures Cursors(cursors, gs, 0)
  {
    hide Below;
  }

  lemma TableMeans(t: GnuTable, gs: seq<nat>, hs: seq<u32>)
    requires |gs| == |hs| && |t.bloom| > 0 && |t.buckets| > 0
    requires forall i :: 0 <= i < |gs| ==> gs[i] < 2 || gs[i] == 2 + hs[i] % |t.buckets|
    requires t.symOffset == Below(gs, 2, |gs|) && |t.chains| == |gs| - t.symOffset
    requires BloomOf(t.bloom, t.shift, gs, hs, |gs|)
    requires forall b :: 0 <= b < |t.buckets| ==> t.buckets[b] == BucketWord(gs, b)
    requires forall i :: 0 <= i < |gs| && gs[i] >= 2 ==>
               t.symOffset <= Rank(gs, i) < |gs| && t.chains[Rank(gs, i) - t.symOffset] == ChainWord(gs, hs, i)
    ensures TableOf(t, gs, hs)
  {
    hide Below, Rank, BloomOf, BucketWord, ChainWord;
  }
}

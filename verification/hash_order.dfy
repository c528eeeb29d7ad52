// Binaries with both hash tables: the GNU table's order decides between symbols of one name in the legacy table too.
module HashOrder {
  import opened Words
  import opened SymbolOrder
  import opened ElfHash
  import GnuHash

  // The notes read first from the legacy table, then from the GNU table.
  ghost function NotedByBoth(lists: seq<seq<nat>>, t: GnuHash.GnuTable, m: nat, elf: u32, gnu: u32, i: nat): SymInfo
    requires |lists| > 0 && GnuHash.Readable(t, m) && i < m < TWO_32
  {
    GnuHash.Noted(t, m, gnu, i, Noted(lists, elf, i, Blank()))
  }

  ghost predicate BothThenAdded(lists: seq<seq<nat>>, t: GnuHash.GnuTable, m: nat, syms: seq<Sym>, infos: seq<SymInfo>,
                                elf: NameHash, gnu: NameHash)
    requires |lists| > 0 && GnuHash.Readable(t, m) && m < TWO_32
  {
    && m <= |syms| == |infos|
    && (forall i :: 0 <= i < m ==>
          KeepsNotes(infos[i], NotedByBoth(lists, t, m, elf(syms[i].name), gnu(syms[i].name), i)))
    && forall i :: m <= i < |infos| ==> infos[i].hashDistance == 0
  }

  // The symbol is offered, and the old GNU table found it.
  ghost predicate GnuOffered(t: GnuHash.GnuTable, m: nat, syms: seq<Sym>, infos: seq<SymInfo>, gnu: NameHash,
                             name: nat, i: nat)
    requires GnuHash.Readable(t, m)
  {
    i < m && Offered(syms, infos, name, i) && GnuHash.Findable(t, m, gnu(name), i)
  }

  ghost predicate GnuFirst(t: GnuHash.GnuTable, m: nat, syms: seq<Sym>, infos: seq<SymInfo>, gnu: NameHash, name: nat,
                           i: nat)
    requires GnuHash.Readable(t, m)
  {
    GnuOffered(t, m, syms, infos, gnu, name, i) && forall k :: 0 <= k < i ==>
          !GnuOffered(t, m, syms, infos, gnu, name, k)
  }

  function GnuDistance(t: GnuHash.GnuTable, h: u32, i: nat): int
    requires |t.buckets| > 0
  {
    TWO_32 - 1 - (i as int - t.buckets[h % |t.buckets|] as int)
  }

  // The distance of an offered symbol, by where it was read.
  lemma DistanceIs(lists: seq<seq<nat>>, t: GnuHash.GnuTable, m: nat, syms: seq<Sym>, infos: seq<SymInfo>,
                   elf: NameHash, gnu: NameHash, name: nat, i: nat)
    requires |lists| > 0 && GnuHash.Readable(t, m) && m < TWO_32 && BothThenAdded(lists, t, m, syms, infos, elf, gnu)
    requires Offered(syms, infos, name, i)
    ensures |t.buckets| > 0 && i < |infos|
    ensures if GnuOffered(t, m, syms, infos, gnu, name, i) then
              infos[i].hashDistance == GnuDistance(t, gnu(name), i) && t.buckets[gnu(name) % |t.buckets|] <= i
            else HasDistance(lists, m, elf(name), i, infos)
  {
    hide IndexOf, DistanceAt;
    if i < m {
      assert KeepsNotes(infos[i], NotedByBoth(lists, t, m, elf(name), gnu(name), i));
    }
  }

  lemma ReadDistanceIsLow(lists: seq<seq<nat>>, m: nat, h: u32, i: nat, infos: seq<SymInfo>)
    requires GoodLists(lists, m) && HasDistance(lists, m, h, i, infos)
    ensures infos[i].hashDistance <= 0x7fff_ffff
  {
    hide DistanceAt;
    if i < m {
      var list := lists[h % |lists|];
      DistanceFalls(IndexOf(list, i), IndexOf(list, i));
    }
  }

  // Before the GNU table's distances all others are small, and within a bucket they fall.
  lemma GnuFirstIsGreatest(lists: seq<seq<nat>>, t: GnuHash.GnuTable, m: nat, syms: seq<Sym>, infos: seq<SymInfo>,
                           elf: NameHash, gnu: NameHash, name: nat, r: nat, e: nat)
    requires GoodLists(lists, m) && GnuHash.Readable(t, m) && BothThenAdded(lists, t, m, syms, infos, elf, gnu)
    requires GnuFirst(t, m, syms, infos, gnu, name, r) && e != r && Offered(syms, infos, name, e)
    ensures r < |infos| && e < |infos| && infos[e].hashDistance < infos[r].hashDistance
  {
    hide BothThenAdded, Offered, GoodLists;
    FewSymbols(lists, m);
    DistanceIs(lists, t, m, syms, infos, elf, gnu, name, r);
    DistanceIs(lists, t, m, syms, infos, elf, gnu, name, e);
    if !GnuOffered(t, m, syms, infos, gnu, name, e) {
      ReadDistanceIsLow(lists, m, elf(name), e, infos);
    }
  }

  lemma FewSymbols(lists: seq<seq<nat>>, m: nat)
    requires GoodLists(lists, m)
    ensures |lists| > 0 && m < 0x7fff_ffff
  {
  }

  // Looking a name up in the rebuilt legacy table finds the symbol that came first among those
  // that the old GNU table found. Where the GNU table found none of that name, it finds what the
  // old legacy table did.
  lemma LookupWithBoth(words: seq<nat>, lists: seq<seq<nat>>, t: GnuHash.GnuTable, m: nat, syms: seq<Sym>,
                       infos: seq<SymInfo>, syms': seq<Sym>, infos': seq<SymInfo>, p: seq<nat>,
                       elf: NameHash, gnu: NameHash, n: nat, name: nat)
    requires Chained(words, lists) && |words| == |lists| + m && m < 0x7fff_ffff && GnuHash.Readable(t, m)
    requires BothThenAdded(lists, t, m, syms, infos, elf, gnu) && Permuted(syms, infos, syms', infos', p) && n > 0
    ensures GoodLists(lists, m) && |infos'| == |syms'| && InRange(lists[elf(name) % |lists|], |syms|)
    ensures var r, r' := Find(lists[elf(name) % |lists|], syms, infos, name), FindRebuilt(syms', infos', elf, n, name);
            && (forall i: nat :: GnuFirst(t, m, syms, infos, gnu, name, i) ==> i < |p| && r' == p[i])
            && ((forall i: nat :: !GnuOffered(t, m, syms, infos, gnu, name, i)) ==>
                  if r != 0 then r < |p| && r' == p[r] else LastOffered(syms, infos, p, name, r'))
  {
    hide Chained, GoodLists, BothThenAdded, Permuted, Find, FindRebuilt, GnuFirst, GnuOffered, DistancesRead, Selected,
         Offered;
    ChainsAreGood(words, lists, m);
    BothLengths(lists, t, m, syms, infos, elf, gnu);
    UnchangedFacts(lists, m, syms, infos, syms', infos', p, elf, name);
    forall i: nat | GnuFirst(t, m, syms, infos, gnu, name, i)
      ensures i < |p| && FindRebuilt(syms', infos', elf, n, name) == p[i]
    {
      GnuFirstFound(lists, t, m, syms, infos, syms', infos', p, elf, gnu, n, name, i);
    }
    if forall i: nat :: !GnuOffered(t, m, syms, infos, gnu, name, i) {
      NoneOfGnu(lists, t, m, syms, infos, elf, gnu, name);
      FoundAgain(lists, m, syms, infos, syms', infos', p, elf, n, name);
    }
  }

  // So the rebuilding changes what a lookup in the legacy table finds exactly where the old GNU
  // table had some symbol of the name, and another one came first there.
  lemma LookupKeptExactly(words: seq<nat>, lists: seq<seq<nat>>, t: GnuHash.GnuTable, m: nat, syms: seq<Sym>,
                          infos: seq<SymInfo>, syms': seq<Sym>, infos': seq<SymInfo>, p: seq<nat>,
                          elf: NameHash, gnu: NameHash, n: nat, name: nat)
    requires Chained(words, lists) && |words| == |lists| + m && m < 0x7fff_ffff && GnuHash.Readable(t, m)
    requires BothThenAdded(lists, t, m, syms, infos, elf, gnu) && Permuted(syms, infos, syms', infos', p) && n > 0
    requires |lists| > 0 && |infos'| == |syms'| && InRange(lists[elf(name) % |lists|], |syms|)
    requires Find(lists[elf(name) % |lists|], syms, infos, name) != 0
    ensures var r := Find(lists[elf(name) % |lists|], syms, infos, name);
            && r < |p|
            && (FindRebuilt(syms', infos', elf, n, name) == p[r] <==>
                GnuFirst(t, m, syms, infos, gnu, name, r)
                    || forall i: nat :: !GnuOffered(t, m, syms, infos, gnu, name, i))
  {
    hide Chained, GoodLists, BothThenAdded, Find, FindRebuilt, DistancesRead, Selected;
    var r := Find(lists[elf(name) % |lists|], syms, infos, name);
    LookupWithBoth(words, lists, t, m, syms, infos, syms', infos', p, elf, gnu, n, name);
    if i: nat :| GnuOffered(t, m, syms, infos, gnu, name, i) {
      var first := FirstExists(t, m, syms, infos, gnu, name, i);
    }
  }

  lemma {:induction false} FirstExists(t: GnuHash.GnuTable, m: nat, syms: seq<Sym>, infos: seq<SymInfo>, gnu: NameHash,
                                       name: nat, i: nat)
    returns (first: nat)
    requires GnuHash.Readable(t, m) && GnuOffered(t, m, syms, infos, gnu, name, i)
    ensures GnuFirst(t, m, syms, infos, gnu, name, first)
    decreases i
  {
    if k :| 0 <= k < i && GnuOffered(t, m, syms, infos, gnu, name, k) {
      first := FirstExists(t, m, syms, infos, gnu, name, k);
    } else {
      first := i;
    }
  }

  lemma BothLengths(lists: seq<seq<nat>>, t: GnuHash.GnuTable, m: nat, syms: seq<Sym>, infos: seq<SymInfo>,
                    elf: NameHash, gnu: NameHash)
    requires |lists| > 0 && GnuHash.Readable(t, m) && m < TWO_32 && BothThenAdded(lists, t, m, syms, infos, elf, gnu)
    ensures m <= |syms| == |infos|
  {
  }

  lemma GnuFirstFound(lists: seq<seq<nat>>, t: GnuHash.GnuTable, m: nat, syms: seq<Sym>, infos: seq<SymInfo>,
                      syms': seq<Sym>, infos': seq<SymInfo>, p: seq<nat>, elf: NameHash, gnu: NameHash, n: nat,
                      name: nat, r: nat)
    requires GoodLists(lists, m) && GnuHash.Readable(t, m) && BothThenAdded(lists, t, m, syms, infos, elf, gnu)
    requires Permuted(syms, infos, syms', infos', p) && n > 0 && |infos'| == |syms'|
    requires GnuFirst(t, m, syms, infos, gnu, name, r)
    ensures r < |p| && FindRebuilt(syms', infos', elf, n, name) == p[r]
  {
    hide BothThenAdded, Permuted, FindRebuilt, GoodLists, Offered;
    FewSymbols(lists, m);
    OfferedInRange(syms, infos, name, r);
    forall e: nat | e != r && Offered(syms, infos, name, e)
      ensures e < |infos| && infos[e].hashDistance < infos[r].hashDistance
    {
      GnuFirstIsGreatest(lists, t, m, syms, infos, elf, gnu, name, r, e);
    }
    GreatestIsFound(syms, infos, syms', infos', p, elf, n, name, r);
  }

  lemma NoneOfGnu(lists: seq<seq<nat>>, t: GnuHash.GnuTable, m: nat, syms: seq<Sym>, infos: seq<SymInfo>,
                  elf: NameHash, gnu: NameHash, name: nat)
    requires |lists| > 0 && GnuHash.Readable(t, m) && m < TWO_32 && BothThenAdded(lists, t, m, syms, infos, elf, gnu)
    requires forall i: nat :: !GnuOffered(t, m, syms, infos, gnu, name, i)
    ensures DistancesRead(lists, m, syms, infos, elf, name)
  {
    hide BothThenAdded, GnuOffered, Offered;
    BothLengths(lists, t, m, syms, infos, elf, gnu);
    forall i: nat | Offered(syms, infos, name, i)
      ensures HasDistance(lists, m, elf(name), i, infos)
    {
      DistanceIs(lists, t, m, syms, infos, elf, gnu, name, i);
    }
  }

  // Two symbols of one name, that the legacy table has in the order 2, 1 and the GNU table in the
  // order 1, 2: lookups in the legacy table found 2 and after the rebuilding find 1.
  lemma LookupCanChange()
    returns (words: seq<nat>, lists: seq<seq<nat>>, t: GnuHash.GnuTable, syms: seq<Sym>, infos: seq<SymInfo>,
             p: seq<nat>, hash: NameHash)
    ensures Chained(words, lists) && |words| == |lists| + 3 && GnuHash.Readable(t, 3)
    ensures BothThenAdded(lists, t, 3, syms, infos, hash, hash) && Permuted(syms, infos, syms, infos, p)
    ensures |infos| == |syms| == 3 && |lists| == 1 && InRange(lists[0], 3) && hash(7) == 0
    ensures Find(lists[0], syms, infos, 7) == 2 && FindRebuilt(syms, infos, hash, 1, 7) == 1 && p == [0, 1, 2]
  {
    hide BothThenAdded;
    words, lists, p := [2, 0, 0, 1], [[2, 1]], [0, 1, 2];
    t := GnuHash.GnuTable(1, 0, [{0}], [1], [0, 1]);
    hash := (_: nat) => 0 as u32;
    syms := [Sym(0, true, 0), Sym(7, false, 0), Sym(7, false, 0)];
    infos := [Blank(), SymInfo(false, true, true, true, 0xffff_ffff), SymInfo(false, true, true, true, 0xffff_fffe)];
    assert [1][1..] == [] && [2, 1][1..] == [1];
    assert IsChain(words, 1, 2, []);
    assert IsChain(words, 1, 3, [1]);
    assert IsChain(words, 1, 0, [2, 1]);
    TwoWereRead(lists, t, syms, infos, hash);
    assert [2, 1][0] == 2;
    GreatestIsFound(syms, infos, syms, infos, p, hash, 1, 7, 1);
  }

  lemma TwoWereRead(lists: seq<seq<nat>>, t: GnuHash.GnuTable, syms: seq<Sym>, infos: seq<SymInfo>, hash: NameHash)
    requires lists == [[2, 1]] && t == GnuHash.GnuTable(1, 0, [{0}], [1], [0, 1])
    requires |syms| == |infos| == 3 && (forall name :: hash(name) == 0) && infos[0] == Blank()
    requires infos[1] == SymInfo(false, true, true, true, 0xffff_ffff)
    requires infos[2] == SymInfo(false, true, true, true, 0xffff_fffe)
    ensures GnuHash.Readable(t, 3) && BothThenAdded(lists, t, 3, syms, infos, hash, hash)
  {
    GnuFinds(t, 1);
    GnuFinds(t, 2);
    ListNotes(lists, 1);
    ListNotes(lists, 2);
  }

  lemma GnuFinds(t: GnuHash.GnuTable, i: nat)
    requires t == GnuHash.GnuTable(1, 0, [{0}], [1], [0, 1]) && 1 <= i <= 2
    ensures GnuHash.Readable(t, 3) && GnuHash.Findable(t, 3, 0, i) && !GnuHash.Findable(t, 3, 0, 0)
  {
    GnuHash.BloomHasMeans(t.bloom, t.shift, 0);
  }

  lemma ListNotes(lists: seq<seq<nat>>, i: nat)
    requires lists == [[2, 1]] && 1 <= i <= 2
    ensures Noted(lists, 0, i, Blank()).inHash && !Noted(lists, 0, 0, Blank()).inHash
  {
  }
}

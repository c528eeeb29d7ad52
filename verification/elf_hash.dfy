// The legacy hash table: chains threaded through one array of words, their rebuilding by sorted
// insertion, and the reader that notes which symbols can be found.
module ElfHash {
  import opened Words
  import opened SymbolOrder

  // What `rebuild_elf_hash` selects by.
  predicate Selected(info: SymInfo) {
    !info.bindsLocal && info.exportable && info.inHash
  }

  // ---------- Chains ----------

  // From word `at` on, the chain visits exactly `list`: word `n + e` follows symbol `e`, 0 ends.
  ghost predicate IsChain(words: seq<nat>, n: nat, at: nat, list: seq<nat>)
    decreases |list|
  {
    at < |words| &&
    if |list| == 0 then words[at] == 0
    else words[at] == list[0] > 0 && IsChain(words, n, n + list[0], list[1..])
  }

  // Every bucket has its chain.
  ghost predicate Chained(words: seq<nat>, lists: seq<seq<nat>>) {
    && 0 < |lists| <= |words|
    && forall b :: 0 <= b < |lists| ==> IsChain(words, |lists|, b, lists[b])
  }

  lemma {:induction false} ChainIsUnique(words: seq<nat>, n: nat, at: nat, a: seq<nat>, b: seq<nat>)
    requires IsChain(words, n, at, a) && IsChain(words, n, at, b)
    ensures a == b
    decreases |a|
  {
    if |a| > 0 && |b| > 0 {
      ChainIsUnique(words, n, n + a[0], a[1..], b[1..]);
      assert a == [a[0]] + a[1..] && b == [b[0]] + b[1..];
    }
  }

  // Where the chain stands after `k` symbols.
  function After(n: nat, at: nat, list: seq<nat>, k: nat): nat
    requires k <= |list|
  {
    if k == 0 then at else n + list[k - 1]
  }

  lemma {:induction false} ChainRest(words: seq<nat>, n: nat, at: nat, list: seq<nat>, k: nat)
    requires IsChain(words, n, at, list) && k <= |list|
    ensures IsChain(words, n, After(n, at, list, k), list[k..])
    ensures k < |list| ==> 0 < list[k] == words[After(n, at, list, k)] && n + list[k] < |words|
    decreases k
  {
    if k > 0 {
      ChainRest(words, n, n + list[0], list[1..], k - 1);
      assert list[1..][k - 1..] == list[k..];
    } else {
      assert list[0..] == list;
    }
  }

  // A chain that ends visits no symbol twice.
  lemma ChainHasNoRepeats(words: seq<nat>, n: nat, at: nat, list: seq<nat>, i: nat, j: nat)
    requires IsChain(words, n, at, list) && i < j < |list|
    ensures list[i] != list[j]
  {
    ChainRest(words, n, at, list, i + 1);
    ChainRest(words, n, at, list, j + 1);
    if list[i] == list[j] {
      ChainIsUnique(words, n, n + list[i], list[i + 1..], list[j + 1..]);
    }
  }

  lemma ChainIsShort(words: seq<nat>, n: nat, at: nat, list: seq<nat>)
    requires IsChain(words, n, at, list) && n <= |words|
    ensures |list| <= |words| - n
  {
    forall i | 0 <= i < |list|
      ensures list[i] < |words| - n
    {
      ChainRest(words, n, at, list, i);
    }
    forall i, j | 0 <= i < j < |list|
      ensures list[i] != list[j]
    {
      ChainHasNoRepeats(words, n, at, list, i, j);
    }
    Pigeonhole(list, |words| - n);
  }

  // Changing words that the chain does not visit leaves it as it is.
  lemma {:induction false} ChainFrame(words: seq<nat>, words': seq<nat>, n: nat, at: nat, list: seq<nat>)
    requires IsChain(words, n, at, list) && |words'| == |words| && words'[at] == words[at]
    requires forall k :: 0 <= k < |list| && n + list[k] < |words| ==> words'[n + list[k]] == words[n + list[k]]
    ensures IsChain(words', n, at, list)
    decreases |list|
  {
    if |list| > 0 {
      ChainRest(words, n, at, list, 1);
      ChainFrame(words, words', n, n + list[0], list[1..]);
    }
  }

  // ---------- Insertion ----------

  // The symbol goes before the first one whose distance is not greater.
  function Insert(list: seq<nat>, i: nat, infos: seq<SymInfo>): (r: seq<nat>)
    requires i < |infos| && forall k :: 0 <= k < |list| ==> list[k] < |infos|
    ensures |r| == |list| + 1 && forall k :: 0 <= k < |r| ==> r[k] < |infos|
  {
    if |list| == 0 || infos[list[0]].hashDistance <= infos[i].hashDistance then [i] + list
    else [list[0]] + Insert(list[1..], i, infos)
  }

  // Where that is.
  ghost predicate GoesAt(list: seq<nat>, i: nat, infos: seq<SymInfo>, k: nat)
    requires i < |infos| && forall k :: 0 <= k < |list| ==> list[k] < |infos|
  {
    && k <= |list|
    && (forall l :: 0 <= l < k ==> infos[list[l]].hashDistance > infos[i].hashDistance)
    && (k < |list| ==> infos[list[k]].hashDistance <= infos[i].hashDistance)
  }

  // Cutting a list behind its first element.
  lemma CutShifts(list: seq<nat>, k: nat, i: nat)
    requires 0 < k <= |list|
    ensures [list[0]] + (list[1..][..k - 1] + [i] + list[1..][k - 1..]) == list[..k] + [i] + list[k..]
  {
  }

  lemma GoesAtShifts(list: seq<nat>, i: nat, infos: seq<SymInfo>, k: nat)
    requires i < |infos| && forall k :: 0 <= k < |list| ==> list[k] < |infos|
    requires GoesAt(list, i, infos, k) && k > 0
    ensures infos[list[0]].hashDistance > infos[i].hashDistance
    ensures (forall l :: 0 <= l < |list[1..]| ==> list[1..][l] < |infos|) && GoesAt(list[1..], i, infos, k - 1)
  {
    forall l | 0 <= l < k - 1
      ensures infos[list[1..][l]].hashDistance > infos[i].hashDistance
    {
      assert list[1..][l] == list[l + 1];
    }
  }

  lemma {:induction false} InsertAt(list: seq<nat>, i: nat, infos: seq<SymInfo>, k: nat)
    requires i < |infos| && forall k :: 0 <= k < |list| ==> list[k] < |infos|
    requires GoesAt(list, i, infos, k)
    ensures Insert(list, i, infos) == list[..k] + [i] + list[k..]
  {
    if k == 0 {
      assert list[..0] == [] && list[0..] == list;
    } else {
      hide GoesAt;
      GoesAtShifts(list, i, infos, k);
      InsertAt(list[1..], i, infos, k - 1);
      CutShifts(list, k, i);
    }
  }

  // Linking symbol `i` in after `k` symbols.
  function Linked(words: seq<nat>, n: nat, link: nat, i: nat): seq<nat>
    requires link < |words| && n + i < |words|
  {
    words[n + i := words[link]][link := i]
  }

  lemma ChainCons(words: seq<nat>, n: nat, at: nat, list: seq<nat>)
    requires |list| > 0 && at < |words| && words[at] == list[0] > 0 && IsChain(words, n, n + list[0], list[1..])
    ensures IsChain(words, n, at, list)
  {
  }

  // At the head of a chain.
  lemma LinkFirst(words: seq<nat>, n: nat, at: nat, list: seq<nat>, i: nat)
    requires IsChain(words, n, at, list) && 0 < i && n + i < |words| && i !in list && at != n + i
    requires forall l :: 0 <= l < |list| ==> at != n + list[l]
    ensures at < |words| && IsChain(Linked(words, n, at, i), n, at, [i] + list)
  {
    var words' := Linked(words, n, at, i);
    if |list| == 0 {
      assert IsChain(words', n, n + i, list);
    } else {
      ChainRest(words, n, at, list, 1);
      ChainFrame(words, words', n, n + list[0], list[1..]);
      ChainCons(words', n, n + i, list);
    }
    assert ([i] + list)[1..] == list;
    ChainCons(words', n, at, [i] + list);
  }

  // Further down, the head of the chain stays.
  lemma LinkLater(words: seq<nat>, n: nat, at: nat, list: seq<nat>, k: nat, i: nat)
    requires 0 < k <= |list| && n + i < |words| && at != n + i
    requires at < |words| && words[at] == list[0] > 0 && at != n + list[k - 1] < |words|
    requires IsChain(Linked(words, n, n + list[k - 1], i), n, n + list[0],
                     list[1..][..k - 1] + [i] + list[1..][k - 1..])
    ensures IsChain(Linked(words, n, n + list[k - 1], i), n, at, list[..k] + [i] + list[k..])
  {
    hide IsChain;
    CutShifts(list, k, i);
    var rest := list[1..][..k - 1] + [i] + list[1..][k - 1..];
    assert ([list[0]] + rest)[1..] == rest;
    ChainCons(Linked(words, n, n + list[k - 1], i), n, at, [list[0]] + rest);
  }

  lemma {:induction false} LinkInserts(words: seq<nat>, n: nat, at: nat, list: seq<nat>, k: nat, i: nat)
    requires IsChain(words, n, at, list) && k <= |list| && 0 < i && n + i < |words| && i !in list && at != n + i
    requires forall l :: 0 <= l < |list| ==> at != n + list[l]
    ensures After(n, at, list, k) < |words|
    ensures IsChain(Linked(words, n, After(n, at, list, k), i), n, at, list[..k] + [i] + list[k..])
    decreases k
  {
    hide IsChain, Linked, After;
    AfterRest(n, at, list, k);
    if k == 0 {
      assert list[..0] + [i] + list[0..] == [i] + list;
      LinkFirst(words, n, at, list, i);
    } else {
      AfterRest(n, at, list, 0);
      AfterRest(n, at, list, 1);
      AfterRest(n, at, list, k - 1);
      AtInRange(words, n, at, list);
      ChainRest(words, n, at, list, 0);
      ChainRest(words, n, at, list, 1);
      ChainRest(words, n, at, list, k - 1);
      NotAfterFirst(words, n, at, list);
      LinkInserts(words, n, n + list[0], list[1..], k - 1, i);
      LinkLater(words, n, at, list, k, i);
    }
  }

  lemma AfterRest(n: nat, at: nat, list: seq<nat>, k: nat)
    requires k <= |list|
    ensures After(n, at, list, k) == if k == 0 then at else n + list[k - 1]
    ensures k > 0 ==> After(n, n + list[0], list[1..], k - 1) == After(n, at, list, k)
  {
  }

  lemma NotAfterFirst(words: seq<nat>, n: nat, at: nat, list: seq<nat>)
    requires IsChain(words, n, at, list) && |list| > 0
    ensures forall l :: 0 <= l < |list[1..]| ==> list[0] != list[1..][l]
  {
    forall l | 0 <= l < |list[1..]|
      ensures list[0] != list[1..][l]
    {
      ChainHasNoRepeats(words, n, at, list, 0, l + 1);
    }
  }

  // ---------- Which chain holds what ----------

  ghost predicate InRange(list: seq<nat>, n: nat) {
    forall k :: 0 <= k < |list| ==> list[k] < n
  }

  // Earlier in a chain: by greater distance, and the later symbol first where those are equal.
  ghost predicate Precedes(infos: seq<SymInfo>, i: nat, j: nat)
    requires i < |infos| && j < |infos|
  {
    infos[i].hashDistance > infos[j].hashDistance || (infos[i].hashDistance == infos[j].hashDistance && i > j)
  }

  ghost predicate Sorted(list: seq<nat>, infos: seq<SymInfo>)
    requires InRange(list, |infos|)
  {
    forall x, y :: 0 <= x < y < |list| ==> Precedes(infos, list[x], list[y])
  }

  // The chain of bucket `b` once the first `m` symbols are inserted.
  function BucketList(infos: seq<SymInfo>, hs: seq<u32>, n: nat, b: nat, m: nat): (list: seq<nat>)
    requires n > 0 && |hs| == |infos| && m <= |infos|
    ensures forall k :: 0 <= k < |list| ==> list[k] < m
  {
    if m == 0 then []
    else
      var list := BucketList(infos, hs, n, b, m - 1);
      if Selected(infos[m - 1]) && hs[m - 1] % n == b then
        InsertBound(list, m - 1, infos);
        Insert(list, m - 1, infos)
      else list
  }

  lemma {:induction false} InsertBound(list: seq<nat>, i: nat, infos: seq<SymInfo>)
    requires i < |infos| && forall k :: 0 <= k < |list| ==> list[k] < i
    ensures forall k :: 0 <= k < |Insert(list, i, infos)| ==> Insert(list, i, infos)[k] <= i
  {
    if |list| > 0 {
      InsertBound(list[1..], i, infos);
    }
  }

  lemma {:induction false} InsertMembers(list: seq<nat>, i: nat, infos: seq<SymInfo>, e: nat)
    requires i < |infos| && forall k :: 0 <= k < |list| ==> list[k] < |infos|
    ensures e in Insert(list, i, infos) <==> e == i || e in list
  {
    if |list| > 0 && infos[list[0]].hashDistance > infos[i].hashDistance {
      InsertMembers(list[1..], i, infos, e);
      assert list == [list[0]] + list[1..];
    }
  }

  lemma {:induction false} InsertSorts(list: seq<nat>, i: nat, infos: seq<SymInfo>)
    requires i < |infos| && InRange(list, i) && Sorted(list, infos)
    ensures Sorted(Insert(list, i, infos), infos)
  {
    if |list| > 0 && infos[list[0]].hashDistance > infos[i].hashDistance {
      InsertSorts(list[1..], i, infos);
      var rest, r := Insert(list[1..], i, infos), Insert(list, i, infos);
      forall x, y | 0 <= x < y < |r|
        ensures Precedes(infos, r[x], r[y])
      {
        if x == 0 {
          InsertMembers(list[1..], i, infos, r[y]);
          assert r[y] in rest;
        }
      }
    }
  }

  // The symbol is to be found in bucket `b`.
  predicate Belongs(infos: seq<SymInfo>, hs: seq<u32>, n: nat, b: nat, e: nat)
    requires n > 0 && |hs| == |infos|
  {
    && e < |infos| && hs[e] % n == b
    && !infos[e].bindsLocal && infos[e].exportable && infos[e].inHash
  }

  lemma BucketListStart(infos: seq<SymInfo>, hs: seq<u32>, n: nat, b: nat)
    requires n > 0 && |hs| == |infos|
    ensures BucketList(infos, hs, n, b, 0) == [] && Sorted([], infos)
  {
  }

  // A chain holds exactly the selected symbols of its bucket, each once, in order.
  lemma {:induction false} BucketListIs(infos: seq<SymInfo>, hs: seq<u32>, n: nat, b: nat, m: nat)
    requires n > 0 && |hs| == |infos| && m <= |infos|
    ensures Sorted(BucketList(infos, hs, n, b, m), infos)
    ensures forall e: nat :: e in BucketList(infos, hs, n, b, m) <==> e < m && Belongs(infos, hs, n, b, e)
  {
    hide *;
    if m == 0 {
      BucketListStart(infos, hs, n, b);
    } else {
      var list := BucketList(infos, hs, n, b, m - 1);
      BucketListIs(infos, hs, n, b, m - 1);
      BucketListNext(infos, hs, n, b, m - 1);
      BucketListSorted(infos, hs, n, b, m - 1);
      forall e: nat
        ensures e in BucketList(infos, hs, n, b, m) <==> e < m && Belongs(infos, hs, n, b, e)
      {
        BucketListMembers(infos, hs, n, b, m - 1, e);
      }
    }
  }

  lemma BucketListSorted(infos: seq<SymInfo>, hs: seq<u32>, n: nat, b: nat, i: nat)
    requires n > 0 && |hs| == |infos| && i < |infos| && Sorted(BucketList(infos, hs, n, b, i), infos)
    ensures Sorted(BucketList(infos, hs, n, b, i + 1), infos)
  {
    hide Sorted, Insert, BucketList;
    BucketListNext(infos, hs, n, b, i);
    InsertSorts(BucketList(infos, hs, n, b, i), i, infos);
  }

  lemma BucketListMembers(infos: seq<SymInfo>, hs: seq<u32>, n: nat, b: nat, i: nat, e: nat)
    requires n > 0 && |hs| == |infos| && i < |infos|
    ensures e in BucketList(infos, hs, n, b, i + 1) <==>
            e in BucketList(infos, hs, n, b, i) || (e == i && Belongs(infos, hs, n, b, e))
  {
    hide Insert, BucketList;
    BucketListNext(infos, hs, n, b, i);
    InsertMembers(BucketList(infos, hs, n, b, i), i, infos, e);
  }

  function Lists(infos: seq<SymInfo>, hs: seq<u32>, n: nat, m: nat): (lists: seq<seq<nat>>)
    requires n > 0 && |hs| == |infos| && m <= |infos|
    ensures |lists| == n && forall b :: 0 <= b < n ==> lists[b] == BucketList(infos, hs, n, b, m)
  {
    seq<seq<nat>>(n, b requires 0 <= b < n => BucketList(infos, hs, n, b, m))
  }

  // ---------- Rebuilding ----------

  datatype OldTable = NoTable | OldTable(nBucket: nat, nChain: nat)

  // The number of buckets. A table that fits in place of the old one gets all the room there is.
  function BucketsFor(count: nat, nSelected: nat, previous: OldTable): (r: (nat, bool)) {
    var x := nSelected - nSelected / 4;
    var wanted := x + 1 - x % 2;
    if previous.OldTable? && (previous.nChain >= count || previous.nBucket + previous.nChain >= wanted + count)
    then (previous.nBucket + previous.nChain - count, true)
    else (wanted, false)
  }

  // The old words are reused if they leave as many buckets as there were, or as many as a new table
  // would have: three for four symbols, made odd.
  lemma BucketsForIs(count: nat, nSelected: nat, previous: OldTable)
    requires previous.OldTable? ==> previous.nBucket > 0
    ensures var (n, inPlace) := BucketsFor(count, nSelected, previous);
            var least := nSelected - nSelected / 4;
            && n > 0
            && (!inPlace ==> least <= n <= least + 1 && n % 2 == 1)
            && (previous.NoTable? ==> !inPlace)
            && (previous.OldTable? ==>
                  var left := previous.nBucket + previous.nChain - count;
                  && (inPlace <==> left >= previous.nBucket || left > least || (left == least && least % 2 == 1))
                  && (inPlace ==> n == left))
  {
  }

  // Linking a new symbol into its bucket's chain leaves the other chains alone.
  lemma LinkKeepsChains(words: seq<nat>, infos: seq<SymInfo>, hs: seq<u32>, n: nat, i: nat, k: nat)
    requires n > 0 && |hs| == |infos| && 0 < i < |infos| && |words| == n + |infos| && Selected(infos[i])
    requires Chained(words, Lists(infos, hs, n, i))
    requires GoesAt(BucketList(infos, hs, n, hs[i] % n, i), i, infos, k)
    ensures var at := After(n, hs[i] % n, BucketList(infos, hs, n, hs[i] % n, i), k);
            at < |words| && Chained(Linked(words, n, at, i), Lists(infos, hs, n, i + 1))
  {
    hide BucketList, Insert, IsChain, Selected;
    var b := hs[i] % n;
    var lists, lists' := Lists(infos, hs, n, i), Lists(infos, hs, n, i + 1);
    var list := lists[b];
    assert IsChain(words, n, b, list);
    ChainRest(words, n, b, list, k);
    var at := After(n, b, list, k);
    var words' := Linked(words, n, at, i);
    forall c | 0 <= c < n
      ensures IsChain(words', n, c, lists'[c])
    {
      assert IsChain(words, n, c, lists[c]);
      BucketListNext(infos, hs, n, c, i);
      if c == b {
        InsertAt(list, i, infos, k);
        LinkInserts(words, n, b, list, k, i);
      } else {
        forall l | 0 <= l < |lists[c]|
          ensures n + lists[c][l] != at && lists[c][l] != i
        {
          assert lists[c][l] in lists[c];
          BucketListIs(infos, hs, n, c, i);
          BucketListIs(infos, hs, n, b, i);
          assert k > 0 ==> list[k - 1] in list;
        }
        ChainFrame(words, words', n, c, lists[c]);
      }
    }
  }

  lemma BucketListNext(infos: seq<SymInfo>, hs: seq<u32>, n: nat, b: nat, i: nat)
    requires n > 0 && |hs| == |infos| && i < |infos|
    ensures BucketList(infos, hs, n, b, i + 1) ==
            if Selected(infos[i]) && hs[i] % n == b then Insert(BucketList(infos, hs, n, b, i), i, infos)
            else BucketList(infos, hs, n, b, i)
  {
  }

  lemma SkipKeepsChains(words: seq<nat>, infos: seq<SymInfo>, hs: seq<u32>, n: nat, i: nat)
    requires n > 0 && |hs| == |infos| && i < |infos| && !Selected(infos[i])
    requires Chained(words, Lists(infos, hs, n, i))
    ensures Chained(words, Lists(infos, hs, n, i + 1))
  {
    hide BucketList, IsChain;
    var lists, lists' := Lists(infos, hs, n, i), Lists(infos, hs, n, i + 1);
    forall b | 0 <= b < n
      ensures IsChain(words, n, b, lists'[b])
    {
      assert IsChain(words, n, b, lists[b]);
      BucketListNext(infos, hs, n, b, i);
    }
  }

  // Finds the word to link symbol `i` in at: the first chain link whose distance is not greater.
  method FindLink(words: array<nat>, n: nat, b: nat, infos: array<SymInfo>, i: nat, ghost list: seq<nat>)
    returns (link: nat, ghost k: nat)
    requires b < n && IsChain(words[..], n, b, list) && InRange(list, infos.Length) && i < infos.Length
    ensures GoesAt(list, i, infos[..], k) && link == After(n, b, list, k) < words.Length
  {
    hide IsChain;
    link, k := b, 0;
    ChainRest(words[..], n, b, list, 0);
    AtInRange(words[..], n, b, list);
    while true
      invariant k <= |list| && link == After(n, b, list, k) && IsChain(words[..], n, link, list[k..])
      invariant forall l :: 0 <= l < k ==> infos[list[l]].hashDistance > infos[i].hashDistance
      decreases |list| - k
    {
      ChainRest(words[..], n, b, list, k);
      AtInRange(words[..], n, link, list[k..]);
      var j := words[link];
      if j == 0 {
        break;
      }
      if infos[j].hashDistance <= infos[i].hashDistance {
        break;
      }
      ChainRest(words[..], n, b, list, k + 1);
      link, k := n + j, k + 1;
    }
  }

  lemma AtInRange(words: seq<nat>, n: nat, at: nat, list: seq<nat>)
    requires IsChain(words, n, at, list)
    ensures at < |words| && (words[at] == 0 <==> |list| == 0)
  {
  }

  ghost predicate WordsBelow(words: seq<nat>, count: nat) {
    forall k :: 0 <= k < |words| ==> words[k] == 0 || words[k] < count
  }

  // Links one selected symbol into its bucket's chain.
  method InsertSymbol(words: array<nat>, n: nat, infos: array<SymInfo>, i: nat, ghost hs: seq<u32>, b: nat)
    requires n > 0 && |hs| == infos.Length && words.Length == n + infos.Length
    requires 0 < i < infos.Length && Selected(infos[i]) && b == hs[i] % n
    requires Chained(words[..], Lists(infos[..], hs, n, i)) && WordsBelow(words[..], infos.Length)
    modifies words
    ensures Chained(words[..], Lists(infos[..], hs, n, i + 1)) && WordsBelow(words[..], infos.Length)
  {
    hide IsChain, BucketList, Chained, GoesAt, Selected;
    ghost var was, notes := words[..], infos[..];
    ChainedAt(was, Lists(notes, hs, n, i), b);
    var link, k := FindLink(words, n, b, infos, i, Lists(notes, hs, n, i)[b]);
    LinkKeepsChains(was, notes, hs, n, i, k);
    words[n + i] := words[link];
    words[link] := i;
    assert words[..] == Linked(was, n, link, i);
  }

  // Writes the buckets and chains, `n` and as many as there are symbols.
  method RebuildElfHash(words: array<nat>, n: nat, syms: array<Sym>, infos: array<SymInfo>, hash: NameHash)
    requires n > 0 && infos.Length == syms.Length && words.Length == n + syms.Length
    requires syms.Length > 0 ==> !Selected(infos[0])
    modifies words
    ensures Chained(words[..], Lists(infos[..], Hashes(syms[..], hash), n, syms.Length))
    ensures WordsBelow(words[..], syms.Length)
  {
    hide BucketList, Chained, Selected;
    ghost var notes, hs := infos[..], Hashes(syms[..], hash);
    forall k | 0 <= k < words.Length {
      words[k] := 0;
    }
    NoChains(words[..], notes, hs, n);
    for i := 0 to syms.Length
      invariant Chained(words[..], Lists(notes, hs, n, i)) && WordsBelow(words[..], syms.Length)
    {
      assert infos[..] == notes;
      if Selected(infos[i]) {
        InsertSymbol(words, n, infos, i, hs, hash(syms[i].name) % n);
      } else {
        SkipKeepsChains(words[..], notes, hs, n, i);
      }
    }
    assert infos[..] == notes && Hashes(syms[..], hash) == hs;
  }

  lemma ChainedAt(words: seq<nat>, lists: seq<seq<nat>>, b: nat)
    requires Chained(words, lists) && b < |lists|
    ensures IsChain(words, |lists|, b, lists[b])
  {
  }

  lemma NoChains(words: seq<nat>, infos: seq<SymInfo>, hs: seq<u32>, n: nat)
    requires 0 < n <= |words| && |hs| == |infos| && forall k :: 0 <= k < |words| ==> words[k] == 0
    ensures Chained(words, Lists(infos, hs, n, 0))
  {
  }

  // ---------- Reading ----------

  function IndexOf(list: seq<nat>, e: nat): (k: nat)
    requires e in list
    ensures k < |list| && list[k] == e && forall l :: 0 <= l < k ==> list[l] != e
  {
    if list[0] == e then 0 else 1 + IndexOf(list[1..], e)
  }

  // Farther down the chain means a smaller distance.
  function DistanceAt(k: nat): u32 {
    Sub32(0x7fff_ffff, k)
  }

  // What reading the table makes of a symbol's notes.
  function Noted(lists: seq<seq<nat>>, h: u32, i: nat, info: SymInfo): SymInfo
    requires |lists| > 0
  {
    var list := lists[h % |lists|];
    if i in list then info.(inHash := true, hashDistance := DistanceAt(IndexOf(list, i))) else info
  }

  lemma DistanceAtStart()
    ensures DistanceAt(0) == 0x7fff_ffff
  {
  }

  lemma DistanceNext(k: nat)
    ensures Sub32(DistanceAt(k), 1) == DistanceAt(k + 1)
  {
  }

  // Follows the chain of the bucket until it comes to symbol `b` or ends.
  method FindInChain(words: array<nat>, n: nat, bucket: nat, b: nat, ghost list: seq<nat>)
    returns (found: bool, dist: u32)
    requires bucket < n && IsChain(words[..], n, bucket, list)
    ensures found <==> b in list
    ensures found ==> dist == DistanceAt(IndexOf(list, b))
  {
    hide IsChain, DistanceAt, IndexOf, Sub32;
    DistanceAtStart();
    ghost var at: nat, k: nat := bucket, 0;
    AtInRange(words[..], n, bucket, list);
    FirstWord(words[..], n, bucket, list);
    var h := words[bucket];
    dist := 0x7fff_ffff;
    while h != 0
      invariant k <= |list| && IsChain(words[..], n, at, list[k..]) && at < words.Length && h == words[at]
      invariant k < |list| <==> h != 0
      invariant k < |list| ==> h == list[k]
      invariant forall l :: 0 <= l < k ==> list[l] != b
      invariant dist == DistanceAt(k)
      decreases |list| - k
    {
      if h == b {
        return true, dist;
      }
      DistanceNext(k);
      dist := Sub32(dist, 1);
      ChainRest(words[..], n, at, list[k..], 1);
      assert list[k..][1..] == list[k + 1..];
      at, k := n + h, k + 1;
      AtInRange(words[..], n, at, list[k..]);
      FirstWord(words[..], n, at, list[k..]);
      h := words[n + h];
    }
    found := false;
  }

  lemma FirstWord(words: seq<nat>, n: nat, at: nat, list: seq<nat>)
    requires IsChain(words, n, at, list) && at < |words|
    ensures |list| > 0 ==> words[at] == list[0] > 0
    ensures list[0..] == list
  {
  }

  // Flags every symbol that a lookup by its name's hash comes to, wherever the table mentions it.
  method GatherSymInfo(words: array<nat>, n: nat, syms: array<Sym>, infos: array<SymInfo>, hash: NameHash,
                       ghost lists: seq<seq<nat>>)
    requires Chained(words[..], lists) && n == |lists| && WordsBelow(words[..], syms.Length)
             && infos.Length == syms.Length
    modifies infos
    ensures forall e :: 0 <= e < syms.Length ==> infos[e] == Noted(lists, hash(syms[e].name), e, old(infos[e]))
  {
    hide Chained;
    ghost var hs := Hashes(syms[..], hash);
    ChainedMeans(words[..], lists);
    var i: nat := words.Length;
    while i > 0
      invariant i <= words.Length
      invariant forall e :: 0 <= e < syms.Length ==>
                  infos[e] == if e != 0 && e in words[i..] then Noted(lists, hs[e], e, old(infos[e])) else old(infos[e])
    {
      i := i - 1;
      assert words[i..] == [words[i]] + words[i + 1..];
      var b := words[i];
      if b != 0 {
        var h := hash(syms[b].name);
        ChainedAt(words[..], lists, h % n);
        var found, dist := FindInChain(words, n, h % n, b, lists[h % n]);
        if found {
          infos[b] := infos[b].(inHash := true, hashDistance := dist);
        }
      }
    }
    assert words[0..] == words[..];
    forall e | 0 <= e < syms.Length
      ensures infos[e] == Noted(lists, hs[e], e, old(infos[e]))
    {
      if e in lists[hs[e] % n] {
        MentionedInWords(words[..], lists, hs[e] % n, e);
      }
    }
  }

  lemma ChainedMeans(words: seq<nat>, lists: seq<seq<nat>>)
    requires Chained(words, lists)
    ensures 0 < |lists| <= |words|
  {
  }

  lemma MentionedInWords(words: seq<nat>, lists: seq<seq<nat>>, b: nat, e: nat)
    requires Chained(words, lists) && b < |lists| && e in lists[b]
    ensures e != 0 && e in words
  {
    ChainedAt(words, lists, b);
    ChainRest(words, |lists|, b, lists[b], IndexOf(lists[b], e));
  }

  // Reading a rebuilt table flags exactly the selected symbols.
  lemma RebuiltReadsBack(infos: seq<SymInfo>, hs: seq<u32>, n: nat, e: nat, blank: SymInfo)
    requires n > 0 && |hs| == |infos| && e < |infos| && !blank.inHash
    ensures Noted(Lists(infos, hs, n, |infos|), hs[e], e, blank).inHash <==>
            !infos[e].bindsLocal && infos[e].exportable && infos[e].inHash
  {
    BucketListIs(infos, hs, n, hs[e] % n, |infos|);
  }

  // ---------- What a lookup finds ----------

  // The first symbol of a chain that has the name and may be found; 0 if there is none.
  function Find(list: seq<nat>, syms: seq<Sym>, infos: seq<SymInfo>, name: nat): (r: nat)
    requires |infos| == |syms| && InRange(list, |syms|)
    ensures r != 0 ==> r in list && syms[r].name == name && Selected(infos[r])
  {
    if |list| == 0 then 0
    else if syms[list[0]].name == name && Selected(infos[list[0]]) then list[0]
    else Find(list[1..], syms, infos, name)
  }

  // It comes before every other such symbol.
  lemma {:induction false} FindIsFirst(list: seq<nat>, syms: seq<Sym>, infos: seq<SymInfo>, name: nat, e: nat)
    requires |infos| == |syms| && InRange(list, |syms|) && 0 !in list
    requires e in list && syms[e].name == name && Selected(infos[e])
    ensures var r := Find(list, syms, infos, name);
            r != 0 && r in list && IndexOf(list, r) <= IndexOf(list, e)
  {
    if list[0] != e && !(syms[list[0]].name == name && Selected(infos[list[0]])) {
      FindIsFirst(list[1..], syms, infos, name, e);
    }
  }

  ghost predicate GoodLists(lists: seq<seq<nat>>, count: nat) {
    && |lists| > 0 && count < 0x7fff_ffff
    && forall b :: 0 <= b < |lists| ==> InRange(lists[b], count) && 0 !in lists[b] && |lists[b]| <= count
  }

  lemma ChainsAreGood(words: seq<nat>, lists: seq<seq<nat>>, count: nat)
    requires Chained(words, lists) && |words| == |lists| + count && count < 0x7fff_ffff
    ensures GoodLists(lists, count)
  {
    forall b | 0 <= b < |lists|
      ensures InRange(lists[b], count) && 0 !in lists[b] && |lists[b]| <= count
    {
      ChainedAt(words, lists, b);
      ChainIsShort(words, |lists|, b, lists[b]);
      forall k | 0 <= k < |lists[b]|
        ensures 0 < lists[b][k] < count
      {
        ChainRest(words, |lists|, b, lists[b], k);
      }
    }
  }

  // The symbol bears the name and may be found.
  predicate Offered(syms: seq<Sym>, infos: seq<SymInfo>, name: nat, i: nat) {
    && i < |syms| == |infos| && syms[i].name == name
    && !infos[i].bindsLocal && infos[i].exportable && infos[i].inHash
  }

  // The symbols and their notes in a new order, in which the null symbol keeps its place.
  ghost predicate Permuted(syms: seq<Sym>, infos: seq<SymInfo>, syms': seq<Sym>, infos': seq<SymInfo>, p: seq<nat>) {
    && |infos| == |syms| > 0 && !Selected(infos[0])
    && IsPermutation(p) && Moved(syms, syms', p) && Moved(infos, infos', p) && p[0] == 0
  }

  // What a lookup finds in a table of `n` buckets rebuilt over the symbols in their new order.
  function FindRebuilt(syms': seq<Sym>, infos': seq<SymInfo>, hash: NameHash, n: nat, name: nat): nat
    requires n > 0 && |infos'| == |syms'|
  {
    Find(BucketList(infos', Hashes(syms', hash), n, hash(name) % n, |syms'|), syms', infos', name)
  }

  lemma OfferedMoved(syms: seq<Sym>, infos: seq<SymInfo>, syms': seq<Sym>, infos': seq<SymInfo>, p: seq<nat>,
                     name: nat, i: nat)
    requires Permuted(syms, infos, syms', infos', p) && i < |syms|
    ensures p[i] < |syms'| == |infos'| && infos'[p[i]] == infos[i]
    ensures Offered(syms', infos', name, p[i]) <==> Offered(syms, infos, name, i)
    ensures p[i] == 0 ==> i == 0
  {
  }

  // It is an offered symbol, and precedes all others, if there is any.
  lemma RebuiltFindsFirst(syms': seq<Sym>, infos': seq<SymInfo>, hash: NameHash, n: nat, name: nat, e: nat)
    requires n > 0 && |infos'| == |syms'| > 0 && !Selected(infos'[0])
    ensures var r := FindRebuilt(syms', infos', hash, n, name);
            && (r != 0 ==> Offered(syms', infos', name, r))
            && (Offered(syms', infos', name, e) ==> r != 0 && (r == e || Precedes(infos', r, e)))
  {
    hide BucketList, Find, Sorted;
    var hs := Hashes(syms', hash);
    var list := BucketList(infos', hs, n, hash(name) % n, |syms'|);
    BucketListIs(infos', hs, n, hash(name) % n, |syms'|);
    if Offered(syms', infos', name, e) {
      FindIsFirst(list, syms', infos', name, e);
      SortedAt(list, infos', IndexOf(list, FindRebuilt(syms', infos', hash, n, name)), IndexOf(list, e));
    }
  }

  lemma SortedAt(list: seq<nat>, infos: seq<SymInfo>, x: nat, y: nat)
    requires InRange(list, |infos|) && Sorted(list, infos) && x <= y < |list|
    ensures list[x] == list[y] || Precedes(infos, list[x], list[y])
  {
  }

  // A symbol whose distance is greater than that of every other offered symbol is found.
  lemma GreatestIsFound(syms: seq<Sym>, infos: seq<SymInfo>, syms': seq<Sym>, infos': seq<SymInfo>, p: seq<nat>,
                        hash: NameHash, n: nat, name: nat, r: nat)
    requires Permuted(syms, infos, syms', infos', p) && n > 0 && Offered(syms, infos, name, r)
    requires forall e: nat :: e != r && Offered(syms, infos, name, e) ==> infos[e].hashDistance < infos[r].hashDistance
    ensures r < |p| && FindRebuilt(syms', infos', hash, n, name) == p[r]
  {
    hide FindRebuilt, Offered;
    OfferedInRange(syms, infos, name, r);
    OfferedMoved(syms, infos, syms', infos', p, name, 0);
    OfferedMoved(syms, infos, syms', infos', p, name, r);
    RebuiltFindsFirst(syms', infos', hash, n, name, p[r]);
    var f := FindRebuilt(syms', infos', hash, n, name);
    OfferedInRange(syms', infos', name, f);
    var e := Preimage(p, f);
    OfferedMoved(syms, infos, syms', infos', p, name, e);
  }

  lemma OfferedInRange(syms: seq<Sym>, infos: seq<SymInfo>, name: nat, i: nat)
    requires Offered(syms, infos, name, i)
    ensures i < |syms| == |infos|
  {
  }

  // The symbol's distance is the one read from its chain in the old table.
  ghost predicate ReadFrom(lists: seq<seq<nat>>, h: u32, i: nat, info: SymInfo)
    requires |lists| > 0
  {
    var list := lists[h % |lists|];
    i in list && info.hashDistance == DistanceAt(IndexOf(list, i))
  }

  // The first `m` symbols have the notes that were read from the old table, as far as lookups go;
  // those behind them were added since.
  ghost predicate ReadThenAdded(lists: seq<seq<nat>>, m: nat, syms: seq<Sym>, infos: seq<SymInfo>, hash: NameHash)
    requires |lists| > 0
  {
    && m <= |syms| == |infos|
    && (forall i :: 0 <= i < m ==> KeepsNotes(infos[i], Noted(lists, hash(syms[i].name), i, Blank())))
    && forall i :: m <= i < |infos| ==> infos[i].hashDistance == 0
  }

  ghost predicate KeepsNotes(now: SymInfo, noted: SymInfo) {
    now.inHash == noted.inHash && now.hashDistance == noted.hashDistance
  }

  function Blank(): SymInfo {
    SymInfo(false, false, false, false, 0)
  }

  lemma NotedIsRead(lists: seq<seq<nat>>, m: nat, syms: seq<Sym>, infos: seq<SymInfo>, hash: NameHash, name: nat,
                    i: nat)
    requires |lists| > 0 && ReadThenAdded(lists, m, syms, infos, hash) && Offered(syms, infos, name, i)
    ensures if i < m then ReadFrom(lists, hash(name), i, infos[i]) else infos[i].hashDistance == 0
  {
    hide IndexOf, DistanceAt;
    assert i < m ==> KeepsNotes(infos[i], Noted(lists, hash(syms[i].name), i, Blank()));
  }

  // The symbols offered under a name have the distances read from the old table, or were added.
  ghost predicate DistancesRead(lists: seq<seq<nat>>, m: nat, syms: seq<Sym>, infos: seq<SymInfo>, hash: NameHash,
                                name: nat)
    requires |lists| > 0
  {
    && m <= |syms| == |infos|
    && forall i: nat :: Offered(syms, infos, name, i) ==> HasDistance(lists, m, hash(name), i, infos)
  }

  ghost predicate HasDistance(lists: seq<seq<nat>>, m: nat, h: u32, i: nat, infos: seq<SymInfo>)
    requires |lists| > 0
  {
    i < |infos| && if i < m then ReadFrom(lists, h, i, infos[i]) else infos[i].hashDistance == 0
  }

  // What the old chain leads to is at the greatest distance.
  lemma FoundIsGreatest(lists: seq<seq<nat>>, m: nat, syms: seq<Sym>, infos: seq<SymInfo>, hash: NameHash, name: nat,
                        e: nat)
    requires GoodLists(lists, m) && DistancesRead(lists, m, syms, infos, hash, name) && |infos| == |syms|
    requires InRange(lists[hash(name) % |lists|], |syms|) && Offered(syms, infos, name, e)
    ensures var r := Find(lists[hash(name) % |lists|], syms, infos, name);
            && (r != 0 ==> Offered(syms, infos, name, r) && (e != r ==> infos[e].hashDistance < infos[r].hashDistance))
            && (r == 0 ==> e >= m && infos[e].hashDistance == 0)
  {
    hide Noted, IndexOf, DistanceAt, Find;
    var list := lists[hash(name) % |lists|];
    var r := Find(list, syms, infos, name);
    assert HasDistance(lists, m, hash(name), e, infos);
    if r != 0 {
      assert HasDistance(lists, m, hash(name), r, infos);
      DistanceFalls(IndexOf(list, r), IndexOf(list, r));
    }
    if e < m {
      FindIsFirst(list, syms, infos, name, e);
      DistanceFalls(IndexOf(list, r), IndexOf(list, e));
    }
  }

  lemma DistanceFalls(k: nat, l: nat)
    requires k <= l < 0x7fff_ffff
    ensures DistanceAt(k) == DistanceAt(l) ==> k == l
    ensures 0x7fff_ffff >= DistanceAt(k) >= DistanceAt(l) > 0
  {
  }

  lemma Wider(list: seq<nat>, m: nat, n: nat)
    requires InRange(list, m) && m <= n
    ensures InRange(list, n)
  {
  }

  // The same symbol is found, at its new index. A name that the old table did not have leads to
  // the added symbol of that name that comes last.
  lemma FoundAgain(lists: seq<seq<nat>>, m: nat, syms: seq<Sym>, infos: seq<SymInfo>, syms': seq<Sym>,
                   infos': seq<SymInfo>, p: seq<nat>, hash: NameHash, n: nat, name: nat)
    requires GoodLists(lists, m) && DistancesRead(lists, m, syms, infos, hash, name)
    requires Permuted(syms, infos, syms', infos', p) && n > 0
    ensures |infos'| == |syms'| && InRange(lists[hash(name) % |lists|], |syms|)
    ensures var r := Find(lists[hash(name) % |lists|], syms, infos, name);
            var r' := FindRebuilt(syms', infos', hash, n, name);
            if r != 0 then r < |p| && r' == p[r] else LastOffered(syms, infos, p, name, r')
  {
    hide Chained, GoodLists, DistancesRead, Permuted, Find, FindRebuilt, Selected;
    ReadFacts(lists, m, syms, infos, hash, name);
    UnchangedFacts(lists, m, syms, infos, syms', infos', p, hash, name);
    var r := Find(lists[hash(name) % |lists|], syms, infos, name);
    forall e: nat | Offered(syms, infos, name, e)
      ensures r != 0 ==> Offered(syms, infos, name, r) && (e != r ==> infos[e].hashDistance < infos[r].hashDistance)
      ensures r == 0 ==> e < |infos| && infos[e].hashDistance == 0
    {
      FoundIsGreatest(lists, m, syms, infos, hash, name, e);
    }
    if r != 0 {
      GreatestIsFound(syms, infos, syms', infos', p, hash, n, name, r);
    } else {
      LastIsFound(syms, infos, syms', infos', p, hash, n, name);
    }
  }

  lemma ReadFacts(lists: seq<seq<nat>>, m: nat, syms: seq<Sym>, infos: seq<SymInfo>, hash: NameHash, name: nat)
    requires GoodLists(lists, m) && DistancesRead(lists, m, syms, infos, hash, name)
    ensures |lists| > 0 && m <= |syms| == |infos|
  {
  }

  lemma UnchangedFacts(lists: seq<seq<nat>>, m: nat, syms: seq<Sym>, infos: seq<SymInfo>, syms': seq<Sym>,
                       infos': seq<SymInfo>, p: seq<nat>, hash: NameHash, name: nat)
    requires GoodLists(lists, m) && m <= |syms| && Permuted(syms, infos, syms', infos', p)
    ensures |infos'| == |syms'| == |p| == |infos| == |syms|
    ensures InRange(lists[hash(name) % |lists|], |syms|)
    ensures Offered(syms, infos, name, Find(lists[hash(name) % |lists|], syms, infos, name)) ||
            Find(lists[hash(name) % |lists|], syms, infos, name) == 0
  {
    hide IsPermutation;
    Wider(lists[hash(name) % |lists|], m, |syms|);
  }

  // Looking a name up in the legacy table finds the same symbol before and after the rebuilding,
  // whatever the numbers of buckets, the new order and the symbols added in between.
  lemma LookupUnchanged(words: seq<nat>, lists: seq<seq<nat>>, m: nat, syms: seq<Sym>, infos: seq<SymInfo>,
                        syms': seq<Sym>, infos': seq<SymInfo>, p: seq<nat>, hash: NameHash, n: nat, name: nat)
    requires Chained(words, lists) && |words| == |lists| + m && m < 0x7fff_ffff
    requires ReadThenAdded(lists, m, syms, infos, hash) && Permuted(syms, infos, syms', infos', p) && n > 0
    ensures GoodLists(lists, m) && |infos'| == |syms'| && InRange(lists[hash(name) % |lists|], |syms|)
    ensures var r := Find(lists[hash(name) % |lists|], syms, infos, name);
            var r' := FindRebuilt(syms', infos', hash, n, name);
            if r != 0 then r < |p| && r' == p[r] else LastOffered(syms, infos, p, name, r')
  {
    hide Chained, GoodLists, Permuted, Find, FindRebuilt, Selected, ReadThenAdded;
    ChainsAreGood(words, lists, m);
    ReadLengths(lists, m, syms, infos, hash);
    forall i: nat | Offered(syms, infos, name, i)
      ensures HasDistance(lists, m, hash(name), i, infos)
    {
      NotedIsRead(lists, m, syms, infos, hash, name, i);
    }
    FoundAgain(lists, m, syms, infos, syms', infos', p, hash, n, name);
  }

  lemma ReadLengths(lists: seq<seq<nat>>, m: nat, syms: seq<Sym>, infos: seq<SymInfo>, hash: NameHash)
    requires |lists| > 0 && ReadThenAdded(lists, m, syms, infos, hash)
    ensures m <= |syms| == |infos|
  {
  }

  // Of the offered symbols, that with the greatest new index; 0 if there is none.
  ghost predicate LastOffered(syms: seq<Sym>, infos: seq<SymInfo>, p: seq<nat>, name: nat, r': nat) {
    && (forall e: nat :: Offered(syms, infos, name, e) && e < |p| ==> p[e] <= r')
    && (r' != 0 ==> exists e: nat :: Offered(syms, infos, name, e) && e < |p| && p[e] == r')
  }

  lemma LastIsFound(syms: seq<Sym>, infos: seq<SymInfo>, syms': seq<Sym>, infos': seq<SymInfo>, p: seq<nat>,
                    hash: NameHash, n: nat, name: nat)
    requires Permuted(syms, infos, syms', infos', p) && n > 0
    requires forall e: nat :: Offered(syms, infos, name, e) ==> e < |infos| && infos[e].hashDistance == 0
    ensures |infos'| == |syms'| && LastOffered(syms, infos, p, name, FindRebuilt(syms', infos', hash, n, name))
  {
    hide FindRebuilt, Offered;
    OfferedMoved(syms, infos, syms', infos', p, name, 0);
    var r' := FindRebuilt(syms', infos', hash, n, name);
    RebuiltFindsFirst(syms', infos', hash, n, name, 0);
    if r' != 0 {
      OfferedInRange(syms', infos', name, r');
      OfferedMoved(syms, infos, syms', infos', p, name, Preimage(p, r'));
    }
    forall e: nat | Offered(syms, infos, name, e) && e < |p|
      ensures p[e] <= r'
    {
      OfferedMoved(syms, infos, syms', infos', p, name, e);
      RebuiltFindsFirst(syms', infos', hash, n, name, p[e]);
    }
  }
}

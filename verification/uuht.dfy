// The u32/u32 hash table. Slots keep the hash of a key only; the key is recovered through the
// inverse hash.
module UintTable {
  import opened Words
  import opened HashMix
  import opened RobinHood

  // ---------- Slots as a map ----------

  // The slots `b` hold exactly the map `m`, one slot for each key.
  ghost predicate Represents(b: multiset<Slot>, m: map<u32, u32>) {
    && (forall k :: k in m ==> Slot(Mix(k), m[k]) in b)
    && (forall s :: s in b ==> Backed(b, m, s))
  }

  ghost predicate Backed(b: multiset<Slot>, m: map<u32, u32>, s: Slot) {
    && b[s] == 1
    && s != EMPTY
    && Unmix(s.hash) in m
    && m[Unmix(s.hash)] == s.value
  }

  lemma AddRepresents(b: multiset<Slot>, m: map<u32, u32>, k: u32, v: u32)
    requires Represents(b, m) && k !in m && Slot(Mix(k), v) != EMPTY
    ensures Represents(b + multiset{Slot(Mix(k), v)}, m[k := v])
  {
    hide Mix, Unmix;
    var s, b', m' := Slot(Mix(k), v), b + multiset{Slot(Mix(k), v)}, m[k := v];
    UnmixMix(k);
    assert s in b ==> Backed(b, m, s);
    forall x | x in b'
      ensures Backed(b', m', x)
    {
      MixUnmix(x.hash);
      assert x in b ==> Backed(b, m, x);
    }
    forall j | j in m'
      ensures Slot(Mix(j), m'[j]) in b'
    {
    }
  }

  lemma ReplaceRepresents(b: multiset<Slot>, m: map<u32, u32>, k: u32, v: u32)
    requires Represents(b, m) && k in m && Slot(Mix(k), v) != EMPTY
    ensures Slot(Mix(k), m[k]) in b
    ensures Represents(b - multiset{Slot(Mix(k), m[k])} + multiset{Slot(Mix(k), v)}, m[k := v])
  {
    hide Mix, Unmix;
    var was, now := Slot(Mix(k), m[k]), Slot(Mix(k), v);
    var b', m' := b - multiset{was} + multiset{now}, m[k := v];
    UnmixMix(k);
    assert Backed(b, m, was);
    forall x | x in b'
      ensures Backed(b', m', x)
    {
      MixUnmix(x.hash);
      assert x in b ==> Backed(b, m, x);
    }
    forall j | j in m'
      ensures Slot(Mix(j), m'[j]) in b'
    {
      UnmixMix(j);
    }
  }

  // Reading the keys off the slots yields the keys of the map.
  lemma KeysRecovered(b: multiset<Slot>, m: map<u32, u32>, k: u32)
    requires Represents(b, m)
    ensures k in m <==> exists s :: s in b && Unmix(s.hash) == k
  {
    hide Mix, Unmix;
    UnmixMix(k);
    if k in m {
      assert Slot(Mix(k), m[k]) in b;
    }
    forall s | s in b
      ensures Unmix(s.hash) in m
    {
      assert Backed(b, m, s);
    }
  }

  // And each of them once.
  lemma {:induction false} SlotsCountKeys(b: multiset<Slot>, m: map<u32, u32>)
    requires Represents(b, m)
    ensures |b| == |m|
  {
    hide Mix, Unmix;
    if m == map[] {
      assert forall s :: s in b ==> Backed(b, m, s);
      assert b == multiset{};
    } else {
      var k :| k in m;
      RemoveRepresents(b, m, k);
      SlotsCountKeys(b - multiset{Slot(Mix(k), m[k])}, m - {k});
      assert (m - {k}).Keys == m.Keys - {k};
      assert |m - {k}| == |m.Keys - {k}| == |m.Keys| - 1 == |m| - 1;
    }
  }

  lemma RemoveRepresents(b: multiset<Slot>, m: map<u32, u32>, k: u32)
    requires Represents(b, m) && k in m
    ensures Represents(b - multiset{Slot(Mix(k), m[k])}, m - {k})
  {
    hide Mix, Unmix;
    var s, b', m' := Slot(Mix(k), m[k]), b - multiset{Slot(Mix(k), m[k])}, m - {k};
    assert Backed(b, m, s);
    forall x | x in b'
      ensures Backed(b', m', x)
    {
      assert Backed(b, m, x);
      MixUnmix(x.hash);
    }
    forall j | j in m'
      ensures Slot(Mix(j), m'[j]) in b'
    {
      UnmixMix(j);
      UnmixMix(k);
    }
  }

  // What a search that found no slot, or found one, says about the map.
  lemma AbsentMeans(t: seq<Slot>, m: map<u32, u32>, k: u32)
    requires Represents(Entries(t), m) && Absent(t, Mix(k))
    ensures k !in m
  {
    hide Mix, Unmix;
  }

  lemma FoundMeans(t: seq<Slot>, m: map<u32, u32>, k: u32, i: nat)
    requires Represents(Entries(t), m) && i < |t| && t[i] != EMPTY && t[i].hash == Mix(k)
    ensures k in m && m[k] == t[i].value
  {
    hide Mix, Unmix;
    assert t[i] in multiset(t);
    assert t[i] in Entries(t);
    assert Backed(Entries(t), m, t[i]);
    UnmixMix(k);
  }

  lemma EntriesOfUpdate(t: seq<Slot>, i: nat, s: Slot)
    requires i < |t| && t[i] != EMPTY && s != EMPTY
    ensures Entries(t[i := s]) == Entries(t) - multiset{t[i]} + multiset{s}
    ensures Used(t[i := s]) == Used(t)
  {
    var t' := t[i := s];
    assert t[i] in multiset(t);
    assert multiset(t') == multiset(t) - multiset{t[i]} + multiset{s};
    UsedIsSize(t);
    UsedIsSize(t');
  }

  // Changing the value of an entry leaves the order as it was.
  lemma RevalueKeepsOrder(t: seq<Slot>, i: nat, s: Slot)
    requires Ordered(t) && i < |t| && t[i] != EMPTY && s != EMPTY && s.hash == t[i].hash
    ensures Ordered(t[i := s])
  {
    var t' := t[i := s];
    forall k | 0 <= k < |t|
      ensures Reach(t', Next(|t|, k)) <= Reach(t', k) + 1
    {
      assert Reach(t, Next(|t|, k)) <= Reach(t, k) + 1;
    }
  }

  // The map after setting a key, which for the pair (0, 0) changes nothing: it would look like
  // an empty slot.
  function After(m: map<u32, u32>, k: u32, v: u32): map<u32, u32> {
    if k == 0 && v == 0 then m else m[k := v]
  }

  lemma OnlyZeroIsEmpty(k: u32, v: u32)
    ensures Slot(Mix(k), v) == EMPTY <==> k == 0 && v == 0
  {
    MixOfZero(k);
  }

  // How a search ends: at an empty slot, at the key, or at an entry nearer its home.
  datatype Probe = Vacant(idx: nat) | Found(idx: nat) | Poorer(idx: nat, d2: nat)

  class Uuht {
    var table: array<Slot>
    var count: nat
    ghost var contents: map<u32, u32>

    ghost predicate Valid()
      reads this, table
    {
      && Sound(table[..], count, contents)
      && 4 * count < 3 * (table.Length - 1)
    }

    constructor ()
      ensures Valid() && contents == map[] && fresh(table)
    {
      table := new Slot[8](_ => EMPTY);
      count := 0;
      contents := map[];
      new;
      assert table[..] == seq(8, _ => EMPTY);
      StartsSound(8);
    }

    // Removes all entries but keeps the table.
    method Clear()
      requires Valid()
      modifies this, table
      ensures Valid() && contents == map[] && table == old(table)
    {
      count := 0;
      for i := 0 to table.Length
        invariant table == old(table) && count == 0
        invariant forall j :: 0 <= j < i ==> table[j] == EMPTY
      {
        table[i] := EMPTY;
      }
      contents := map[];
      assert table[..] == seq(table.Length, _ => EMPTY);
      StartsSound(table.Length);
    }

    // The probe loop that every operation begins with.
    method Search(hash: u32) returns (p: Probe, ghost d: nat)
      requires Valid()
      ensures Lands(table[..], hash, p, d)
    {
      hide Ordered, Sound, Lands, Carries, Passed, ProbeAt, Dist, Reach;
      SoundFacts(table[..], count, contents);
      var n := table.Length;
      var at := 0;
      d := 0;
      SearchStarts(table[..], hash);
      while true
        invariant d == at && at <= n
        invariant Passed(table[..], hash, at) && Carries(table[..], hash, at)
        decreases n - at
      {
        var idx := ProbeAt(n, hash, at);
        var slot := table[idx];
        SearchStep(table[..], hash, at);
        if slot == EMPTY {
          return Vacant(idx), at;
        } else if slot.hash == hash {
          return Found(idx), at;
        } else if Dist(n, idx, slot.hash) < at {
          return Poorer(idx, Dist(n, idx, slot.hash)), at;
        }
        at := at + 1;
        d := at;
      }
    }

    // Enters a new key where the search for it ended.
    method Enter(ghost k: u32, v: u32, hash: u32, p: Probe, ghost d: nat)
      requires Valid() && !p.Found? && hash == Mix(k) && Lands(table[..], hash, p, d)
      modifies this, table
      ensures Valid() && (table == old(table) || fresh(table))
      ensures contents == After(old(contents), k, v)
    {
      hide Ordered, Lands, Carries, Holds, Mix, Represents, Entries, Used, ProbeAt, Dist;
      var s := Slot(hash, v);
      OnlyZeroIsEmpty(k, v);
      if s == EMPTY {
        return;
      }
      ghost var t := table[..];
      EnterFacts(t, count, contents, s, p, d);
      var slot := table[p.idx];
      table[p.idx] := s;
      assert table[..] == t[p.idx := s];
      if p.Poorer? {
        Reinsert(table, slot, p.d2);
      }
      EnteredIsSound(t, count, contents, k, v, p, d, table[..]);
      count := count + 1;
      contents := contents[k := v];
      if 4 * count >= 3 * (table.Length - 1) {
        var bigger := Rehash(table);
        RehashedIsSound(table[..], bigger[..], count, contents);
        table := bigger;
      }
    }

    // `(v << 32) | hash(k)`, or an empty slot when the key is absent.
    method Contains(k: u32) returns (slot: Slot)
      requires Valid()
      ensures slot != EMPTY <==> k in contents
      ensures k in contents ==> slot == Slot(Mix(k), contents[k])
    {
      hide Mix, Unmix, Ordered, Carries;
      var p, d := Search(Mix(k));
      SearchMeans(table[..], count, contents, k, p, d);
      slot := if p.Found? then table[p.idx] else EMPTY;
    }

    method LookupOr(k: u32, default: u32) returns (v: u32)
      requires Valid()
      ensures v == if k in contents then contents[k] else default
    {
      hide Mix, Unmix, Ordered, Carries;
      var p, d := Search(Mix(k));
      SearchMeans(table[..], count, contents, k, p, d);
      v := if p.Found? then table[p.idx].value else default;
    }

    method LookupOrSet(k: u32, v: u32) returns (r: u32)
      requires Valid()
      modifies this, table
      ensures Valid() && (table == old(table) || fresh(table))
      ensures r == if k in old(contents) then old(contents)[k] else v
      ensures contents == if k in old(contents) then old(contents) else After(old(contents), k, v)
    {
      hide Mix, Unmix, Ordered, Carries, Lands;
      var p, d := Search(Mix(k));
      SearchMeans(table[..], count, contents, k, p, d);
      if p.Found? {
        return table[p.idx].value;
      }
      Enter(k, v, Mix(k), p, d);
      r := v;
    }

    method SetIfAbsent(k: u32, v: u32) returns (r: u32)
      requires Valid()
      modifies this, table
      ensures Valid() && (table == old(table) || fresh(table))
      ensures r == if k in old(contents) then old(contents)[k] else 0
      ensures contents == if k in old(contents) then old(contents) else After(old(contents), k, v)
    {
      hide Mix, Unmix, Ordered, Carries, Lands;
      var p, d := Search(Mix(k));
      SearchMeans(table[..], count, contents, k, p, d);
      if p.Found? {
        return table[p.idx].value;
      }
      Enter(k, v, Mix(k), p, d);
      r := 0;
    }

    method Set(k: u32, v: u32) returns (r: u32)
      requires Valid()
      modifies this, table
      ensures Valid() && (table == old(table) || fresh(table))
      ensures r == if k in old(contents) then old(contents)[k] else 0
      ensures contents == After(old(contents), k, v)
    {
      hide Mix, Unmix, Ordered, Carries, Lands, Represents, Entries, Used;
      var p, d := Search(Mix(k));
      SearchMeans(table[..], count, contents, k, p, d);
      OnlyZeroIsEmpty(k, v);
      if p.Found? {
        r := table[p.idx].value;
        var s := Slot(Mix(k), v);
        if s != EMPTY {
          ghost var t := table[..];
          RevaluedIsSound(t, count, contents, k, v, p.idx);
          table[p.idx] := s;
          assert table[..] == t[p.idx := s];
          contents := contents[k := v];
        }
      } else {
        Enter(k, v, Mix(k), p, d);
        r := 0;
      }
    }

    // The keys read off the slots, as the list of added symbols is made.
    method Keys() returns (keys: seq<u32>)
      requires Valid()
      ensures forall k :: k in contents <==> k in keys
      ensures |keys| == |contents| == count
    {
      hide Unmix, Mix, Ordered, Represents, Entries;
      keys := [];
      for i := 0 to table.Length
        invariant keys == KeysOf(table[..i])
      {
        assert table[..i + 1] == table[..i] + [table[i]];
        if table[i] != EMPTY {
          keys := keys + [Unmix(table[i].hash)];
        }
      }
      assert table[..table.Length] == table[..];
      KeysAreContents(table[..], count, contents);
    }
  }

  function KeysOf(t: seq<Slot>): (keys: seq<u32>) {
    if |t| == 0 then []
    else KeysOf(t[..|t| - 1]) + (if t[|t| - 1] == EMPTY then [] else [Unmix(t[|t| - 1].hash)])
  }

  ghost predicate HasKey(b: multiset<Slot>, k: u32) {
    exists s :: s in b && Unmix(s.hash) == k
  }

  lemma HasKeyStep(b: multiset<Slot>, s: Slot, k: u32)
    ensures HasKey(b + multiset{s}, k) <==> HasKey(b, k) || Unmix(s.hash) == k
  {
    hide Unmix;
    assert s in b + multiset{s};
    forall x | x in b
      ensures x in b + multiset{s}
    {
    }
  }

  lemma KeysOfLast(t: seq<Slot>, k: u32)
    requires |t| > 0
    ensures var last := t[|t| - 1];
            && |KeysOf(t)| == |KeysOf(t[..|t| - 1])| + (if last == EMPTY then 0 else 1)
            && (k in KeysOf(t) <==> k in KeysOf(t[..|t| - 1]) || (last != EMPTY && Unmix(last.hash) == k))
  {
    hide Unmix;
  }

  lemma {:induction false} KeysOfEntries(t: seq<Slot>, k: u32)
    ensures |KeysOf(t)| == Used(t)
    ensures k in KeysOf(t) <==> HasKey(Entries(t), k)
  {
    hide *;
    if |t| == 0 {
      NoKeys(t, k);
    } else {
      var init, last := t[..|t| - 1], t[|t| - 1];
      KeysOfEntries(init, k);
      KeysOfLast(t, k);
      OneMore(t, |t| - 1);
      assert t[..|t| - 1 + 1] == t;
      if last != EMPTY {
        HasKeyStep(Entries(init), last, k);
      }
    }
  }

  lemma NoKeys(t: seq<Slot>, k: u32)
    requires |t| == 0
    ensures KeysOf(t) == [] && Used(t) == 0 && !HasKey(Entries(t), k)
  {
  }

  lemma KeysAreContents(t: seq<Slot>, count: nat, m: map<u32, u32>)
    requires Sound(t, count, m)
    ensures forall k :: k in m <==> k in KeysOf(t)
    ensures |KeysOf(t)| == |m| == count
  {
    hide Unmix, Mix, Ordered;
    UsedIsSize(t);
    SlotsCountKeys(Entries(t), m);
    KeysOfEntries(t, 0);
    forall k
      ensures k in m <==> k in KeysOf(t)
    {
      KeysOfEntries(t, k);
      KeysRecovered(Entries(t), m, k);
    }
  }

  ghost predicate Sound(t: seq<Slot>, count: nat, m: map<u32, u32>) {
    |t| >= 8 && Ordered(t) && count == Used(t) && Represents(Entries(t), m)
  }

  // The table while an insertion is under way may be one entry over its usual load.
  lemma StartsSound(n: nat)
    requires n >= 8
    ensures Sound(seq(n, _ => EMPTY), 0, map[])
  {
    AllEmptyIsOrdered(n);
  }

  lemma SoundFacts(t: seq<Slot>, count: nat, m: map<u32, u32>)
    requires Sound(t, count, m)
    ensures |t| >= 8 && Ordered(t)
  {
  }

  // What the outcome of a search says.
  ghost predicate Lands(t: seq<Slot>, hash: u32, p: Probe, d: nat) {
    && |t| > 0
    && p.idx == ProbeAt(|t|, hash, d)
    && match p
       case Found(i) => t[i] != EMPTY && t[i].hash == hash
       case Vacant(i) => t[i] == EMPTY && Absent(t, hash) && Carries(t, hash, d)
       case Poorer(i, d2) =>
         t[i] != EMPTY && d2 == Dist(|t|, i, t[i].hash) < d && Absent(t, hash) && Carries(t, hash, d)
  }

  lemma SearchStarts(t: seq<Slot>, hash: u32)
    requires |t| > 0
    ensures Passed(t, hash, 0) && Carries(t, hash, 0)
  {
  }

  lemma SearchStep(t: seq<Slot>, hash: u32, d: nat)
    requires Ordered(t) && Passed(t, hash, d) && Carries(t, hash, d) && d <= |t|
    ensures var i := ProbeAt(|t|, hash, d);
            var slot := t[i];
            if slot == EMPTY then Lands(t, hash, Vacant(i), d)
            else if slot.hash == hash then Lands(t, hash, Found(i), d)
            else if Dist(|t|, i, slot.hash) < d then Lands(t, hash, Poorer(i, Dist(|t|, i, slot.hash)), d)
            else d < |t| && Passed(t, hash, d + 1) && Carries(t, hash, d + 1)
  {
    var i := ProbeAt(|t|, hash, d);
    if Reach(t, i) < d {
      SearchEnds(t, hash, d);
    }
  }

  // The outcome of a search, in terms of the map.
  lemma SearchMeans(t: seq<Slot>, count: nat, m: map<u32, u32>, k: u32, p: Probe, d: nat)
    requires Sound(t, count, m) && Lands(t, Mix(k), p, d)
    ensures p.idx < |t|
    ensures p.Found? <==> k in m
    ensures k in m ==> t[p.idx] == Slot(Mix(k), m[k]) != EMPTY
  {
    hide Mix, Ordered, Carries;
    if p.Found? {
      FoundMeans(t, m, k, p.idx);
    } else {
      AbsentMeans(t, m, k);
    }
  }

  lemma RevaluedIsSound(t: seq<Slot>, count: nat, m: map<u32, u32>, k: u32, v: u32, i: nat)
    requires Sound(t, count, m) && k in m && i < |t| && t[i] == Slot(Mix(k), m[k]) != EMPTY
    requires Slot(Mix(k), v) != EMPTY
    ensures Sound(t[i := Slot(Mix(k), v)], count, m[k := v])
  {
    hide Mix;
    RevalueKeepsOrder(t, i, Slot(Mix(k), v));
    EntriesOfUpdate(t, i, Slot(Mix(k), v));
    ReplaceRepresents(Entries(t), m, k, v);
  }

  lemma EnterFacts(t: seq<Slot>, count: nat, m: map<u32, u32>, s: Slot, p: Probe, d: nat)
    requires Sound(t, count, m) && 4 * count < 3 * (|t| - 1)
    requires s != EMPTY && !p.Found? && Lands(t, s.hash, p, d)
    ensures p.idx < |t|
    ensures p.Poorer? ==>
              var t' := t[p.idx := s];
              t[p.idx] != EMPTY && Ordered(t') && Carries(t', t[p.idx].hash, p.d2) && EMPTY in t'
  {
    if p.Poorer? {
      RoomLeft(t);
      var e :| 0 <= e < |t| && t[e] == EMPTY;
      SwapStep(t, s, d, e);
      assert t[p.idx := s][e] == EMPTY;
    }
  }

  lemma EnteredIsSound(t: seq<Slot>, count: nat, m: map<u32, u32>, k: u32, v: u32, p: Probe, d: nat, now: seq<Slot>)
    requires Sound(t, count, m)
    requires Slot(Mix(k), v) != EMPTY && !p.Found? && Lands(t, Mix(k), p, d)
    requires p.Vacant? ==> now == t[p.idx := Slot(Mix(k), v)]
    requires p.Poorer? ==>
               && Ordered(now) && |now| == |t|
               && Holds(now, EMPTY, multiset(t[p.idx := Slot(Mix(k), v)]) + multiset{t[p.idx]})
    ensures Sound(now, count + 1, m[k := v])
  {
    hide Mix;
    var s := Slot(Mix(k), v);
    AbsentMeans(t, m, k);
    if p.Vacant? {
      FillStep(t, s, d);
    }
    EnteredBag(t, p.idx, s, now);
    FilledOne(t, now, s);
    AddRepresents(Entries(t), m, k, v);
  }

  lemma RehashedIsSound(t: seq<Slot>, bigger: seq<Slot>, count: nat, m: map<u32, u32>)
    requires Sound(t, count, m) && Ordered(bigger) && |bigger| == 2 * |t|
    requires Entries(bigger) == Entries(t) && Used(bigger) == Used(t)
    ensures Sound(bigger, count, m)
  {
  }
}

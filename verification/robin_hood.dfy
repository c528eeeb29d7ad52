// Open addressing with Robin Hood displacement: the probe-distance order that both hash tables
// keep, and the two routines they share.
//
// The order is local: no entry is further from home than its left neighbour by more than one.
module RobinHood {
  import opened Words

  // A 64-bit slot: hash in the low word, value in the high word, all zero when empty.
  datatype Slot = Slot(hash: u32, value: u32)

  const EMPTY: Slot := Slot(0, 0)

  // ---------- Positions ----------

  // `(idx - hash) & mask`: how far slot `i` lies from the home of `hash`.
  function Dist(n: nat, i: int, hash: int): (d: nat)
    requires n > 0
    ensures d < n
  {
    (i - hash) % n
  }

  function Next(n: nat, i: nat): (j: nat)
    requires i < n
    ensures j < n
  {
    if i + 1 == n then 0 else i + 1
  }

  lemma DistOfAt(n: nat, hash: nat, d: nat)
    requires d < n
    ensures Dist(n, ProbeAt(n, hash, d), hash) == d
  {
    var q := (hash + d) / n;
    assert hash + d == q * n + ProbeAt(n, hash, d);
    assert (-q) * n == -(q * n);
    QuotientIs(ProbeAt(n, hash, d) - hash, n, -q, d);
  }

  lemma AtOfDist(n: nat, i: nat, hash: nat)
    requires i < n
    ensures ProbeAt(n, hash, Dist(n, i, hash)) == i
  {
    var q := (i - hash) / n;
    assert i - hash == q * n + Dist(n, i, hash);
    assert (-q) * n == -(q * n);
    QuotientIs(hash + Dist(n, i, hash), n, -q, i);
  }

  lemma AtNext(n: nat, hash: nat, d: nat)
    requires n > 0
    ensures ProbeAt(n, hash, d + 1) == Next(n, ProbeAt(n, hash, d))
  {
    var q := (hash + d) / n;
    var i := ProbeAt(n, hash, d);
    assert hash + d == q * n + i;
    if i + 1 == n {
      assert (q + 1) * n == q * n + n;
      QuotientIs(hash + d + 1, n, q + 1, 0);
    } else {
      QuotientIs(hash + d + 1, n, q, i + 1);
    }
  }

  // The distance to a fixed slot shrinks with every step towards it.
  lemma DistStep(n: nat, i: nat, e: nat)
    requires i < n && e < n && i != e
    ensures Dist(n, e, Next(n, i)) == Dist(n, e, i) - 1
  {
    if i < e {
      QuotientIs(e - i, n, 0, e - i);
      QuotientIs(e - Next(n, i), n, 0, e - i - 1);
    } else {
      QuotientIs(e - i, n, -1, e - i + n);
      if i + 1 == n {
        QuotientIs(e - 0, n, 0, e);
      } else {
        QuotientIs(e - (i + 1), n, -1, e - i - 1 + n);
      }
    }
  }

  // ---------- The order ----------

  // How far the entry of slot `i` is from home; -1 for an empty slot.
  function Reach(t: seq<Slot>, i: nat): (r: int)
    requires i < |t|
    ensures -1 <= r < |t|
  {
    if t[i] == EMPTY then -1 else Dist(|t|, i, t[i].hash)
  }

  // No entry is further from home than its left neighbour by more than one step.
  ghost predicate Ordered(t: seq<Slot>) {
    |t| > 0 && forall i :: 0 <= i < |t| ==> Reach(t, Next(|t|, i)) <= Reach(t, i) + 1
  }

  // Walking from the home of an entry, every slot on the way is at least as displaced.
  lemma {:induction false} ReachAlong(t: seq<Slot>, j: nat, d: nat)
    requires Ordered(t) && j < |t| && t[j] != EMPTY && d <= Reach(t, j)
    ensures Reach(t, ProbeAt(|t|, t[j].hash, d)) >= d
    decreases Reach(t, j) - d
  {
    if d == Reach(t, j) {
      AtOfDist(|t|, j, t[j].hash);
    } else {
      ReachAlong(t, j, d + 1);
      AtNext(|t|, t[j].hash, d);
    }
  }

  // The first `d` probes for `hash` meet other entries.
  ghost predicate Passed(t: seq<Slot>, hash: u32, d: nat) {
    |t| > 0 && forall k :: 0 <= k < d ==> HoldsOther(t, hash, ProbeAt(|t|, hash, k))
  }

  ghost predicate HoldsOther(t: seq<Slot>, hash: u32, i: nat) {
    i < |t| && t[i] != EMPTY && t[i].hash != hash
  }

  ghost predicate Absent(t: seq<Slot>, hash: u32) {
    forall j :: 0 <= j < |t| ==> t[j] == EMPTY || t[j].hash != hash
  }

  lemma NotPassed(t: seq<Slot>, hash: u32, d: nat, j: nat)
    requires Passed(t, hash, d) && j < |t| && t[j] != EMPTY && t[j].hash == hash
    ensures d <= Reach(t, j)
  {
    AtOfDist(|t|, j, hash);
    assert !HoldsOther(t, hash, ProbeAt(|t|, hash, Dist(|t|, j, hash)));
  }

  // A slot less displaced than the probe is long ends the search: the entry is not there.
  lemma SearchEnds(t: seq<Slot>, hash: u32, d: nat)
    requires Ordered(t) && Passed(t, hash, d) && Reach(t, ProbeAt(|t|, hash, d)) < d
    ensures Absent(t, hash)
  {
    forall j | 0 <= j < |t|
      ensures t[j] == EMPTY || t[j].hash != hash
    {
      if t[j] != EMPTY && t[j].hash == hash {
        NotPassed(t, hash, d, j);
        ReachAlong(t, j, d);
      }
    }
  }

  // The first `d` probes for `hash` meet entries at least as far from home as the probe is long.
  ghost predicate Carries(t: seq<Slot>, hash: u32, d: nat) {
    |t| > 0 && forall k :: 0 <= k < d ==> Deep(t, hash, k)
  }

  ghost predicate Deep(t: seq<Slot>, hash: u32, k: nat)
    requires |t| > 0
  {
    Reach(t, ProbeAt(|t|, hash, k)) >= k
  }

  lemma PlaceKeepsOrder(t: seq<Slot>, s: Slot, d: nat)
    requires Ordered(t) && s != EMPTY && d < |t| && Carries(t, s.hash, d)
    requires Reach(t, ProbeAt(|t|, s.hash, d)) <= d
    ensures Ordered(t[ProbeAt(|t|, s.hash, d) := s])
    ensures Reach(t[ProbeAt(|t|, s.hash, d) := s], ProbeAt(|t|, s.hash, d)) == d
  {
    var n, i := |t|, ProbeAt(|t|, s.hash, d);
    var t' := t[i := s];
    DistOfAt(n, s.hash, d);
    if d > 0 {
      AtNext(n, s.hash, d - 1);
      assert Deep(t, s.hash, d - 1);
    }
    forall k | 0 <= k < n
      ensures Reach(t', Next(n, k)) <= Reach(t', k) + 1
    {
      assert Reach(t, Next(n, k)) <= Reach(t, k) + 1;
      if Next(n, k) == i && d > 0 {
        NextInjective(n, k, ProbeAt(n, s.hash, d - 1));
      }
    }
  }

  lemma NextInjective(n: nat, i: nat, j: nat)
    requires i < n && j < n && Next(n, i) == Next(n, j)
    ensures i == j
  {
  }

  // ---------- The entries, whatever their order ----------

  lemma {:induction false} AllEmpty(n: nat)
    ensures multiset(seq(n, _ => EMPTY)) == multiset{}[EMPTY := n]
  {
    if n > 0 {
      AllEmpty(n - 1);
      assert seq(n, _ => EMPTY) == seq(n - 1, _ => EMPTY) + [EMPTY];
    }
  }

  // An entry that is displaced from slot `i` is carried on from there.
  lemma DisplacedCarries(t: seq<Slot>, i: nat, s: Slot)
    requires Ordered(t) && i < |t| && t[i] != EMPTY && s != EMPTY
    requires Dist(|t|, i, s.hash) >= Reach(t, i)
    ensures Carries(t[i := s], t[i].hash, Reach(t, i) + 1)
  {
    var t', h := t[i := s], t[i].hash;
    forall k | 0 <= k < Reach(t, i) + 1
      ensures Deep(t', h, k)
    {
      ReachAlong(t, i, k);
      if ProbeAt(|t|, h, k) == i {
        DistOfAt(|t|, h, k);
      }
    }
  }

  // An empty slot is not among the probes made so far.
  lemma EmptyLiesAhead(t: seq<Slot>, hash: u32, d: nat, e: nat)
    requires Carries(t, hash, d) && e < |t| && t[e] == EMPTY
    ensures d <= Dist(|t|, e, hash)
    ensures ProbeAt(|t|, hash, d) != e ==> d + 1 < |t|
  {
    var k := Dist(|t|, e, hash);
    AtOfDist(|t|, e, hash);
    assert k < d ==> Deep(t, hash, k);
    if d < |t| {
      DistOfAt(|t|, hash, d);
    }
  }

  // ---------- One step of an insertion ----------

  // The carried entry goes into an empty slot, ...
  lemma FillStep(t: seq<Slot>, hv: Slot, d: nat)
    requires Ordered(t) && hv != EMPTY && Carries(t, hv.hash, d) && t[ProbeAt(|t|, hv.hash, d)] == EMPTY
    ensures Ordered(t[ProbeAt(|t|, hv.hash, d) := hv])
  {
    EmptyLiesAhead(t, hv.hash, d, ProbeAt(|t|, hv.hash, d));
    PlaceKeepsOrder(t, hv, d);
  }

  // ... or displaces an entry that is nearer its home, which is then carried on, ...
  lemma SwapStep(t: seq<Slot>, hv: Slot, d: nat, e: nat)
    requires Ordered(t) && hv != EMPTY && Carries(t, hv.hash, d) && e < |t| && t[e] == EMPTY
    requires var i := ProbeAt(|t|, hv.hash, d); t[i] != EMPTY && Dist(|t|, i, t[i].hash) < d
    ensures var i := ProbeAt(|t|, hv.hash, d);
            var slot := t[i];
            var d2 := Dist(|t|, i, slot.hash);
            && Ordered(t[i := hv])
            && Carries(t[i := hv], slot.hash, d2 + 1)
            && ProbeAt(|t|, slot.hash, d2 + 1) == Next(|t|, i)
            && t[i := hv][e] == EMPTY
            && Dist(|t|, e, ProbeAt(|t|, slot.hash, d2 + 1)) < Dist(|t|, e, i)
  {
    hide Dist, Next;
    var i := ProbeAt(|t|, hv.hash, d);
    var slot := t[i];
    DistStep(|t|, i, e);
    EmptyLiesAhead(t, hv.hash, d, e);
    PlaceKeepsOrder(t, hv, d);
    DistOfAt(|t|, hv.hash, d);
    DisplacedCarries(t, i, hv);
    AtOfDist(|t|, i, slot.hash);
    AtNext(|t|, slot.hash, Dist(|t|, i, slot.hash));
  }

  // ... or moves on.
  lemma MoveStep(t: seq<Slot>, hash: u32, d: nat)
    requires Carries(t, hash, d) && Reach(t, ProbeAt(|t|, hash, d)) >= d
    ensures Carries(t, hash, d + 1)
    ensures ProbeAt(|t|, hash, d + 1) == Next(|t|, ProbeAt(|t|, hash, d))
  {
    AtNext(|t|, hash, d);
  }

  lemma ReachIs(t: seq<Slot>, i: nat)
    requires i < |t| && t[i] != EMPTY
    ensures Reach(t, i) == Dist(|t|, i, t[i].hash)
  {
    hide Dist;
  }

  // Moving on brings an empty slot nearer.
  lemma MoveNearer(t: seq<Slot>, hash: u32, d: nat, e: nat)
    requires Carries(t, hash, d) && t[ProbeAt(|t|, hash, d)] != EMPTY && Reach(t, ProbeAt(|t|, hash, d)) >= d
    requires e < |t| && t[e] == EMPTY
    ensures Carries(t, hash, d + 1)
    ensures Dist(|t|, e, ProbeAt(|t|, hash, d + 1)) < Dist(|t|, e, ProbeAt(|t|, hash, d))
  {
    hide Dist, Next, Reach;
    MoveStep(t, hash, d);
    DistStep(|t|, ProbeAt(|t|, hash, d), e);
  }

  // ---------- Shared routines ----------

  // The table and the carried entry together hold `all`.
  ghost predicate Holds(t: seq<Slot>, carried: Slot, all: multiset<Slot>) {
    multiset(t) + multiset{carried} == all
  }

  lemma SwapHolds(t: seq<Slot>, i: nat, carried: Slot, all: multiset<Slot>)
    requires i < |t| && Holds(t, carried, all)
    ensures Holds(t[i := carried], t[i], all)
  {
  }

  // Puts `hv` into the table from probe `d` on, displacing entries that are nearer their home.
  method Reinsert(table: array<Slot>, hv: Slot, d: nat)
    requires hv != EMPTY && Ordered(table[..]) && EMPTY in table[..]
    requires Carries(table[..], hv.hash, d)
    modifies table
    ensures Ordered(table[..])
    ensures Holds(table[..], EMPTY, multiset(old(table[..])) + multiset{hv})
  {
    hide Ordered, Carries, ProbeAt, Dist, Next, Holds, Reach;
    var n := table.Length;
    ghost var t := table[..];
    ghost var e :| 0 <= e < n && t[e] == EMPTY;
    ghost var all := multiset(t) + multiset{hv};
    var carried, at := hv, d;
    HoldsAtFirst(t, hv);
    while true
      invariant table[..] == t && carried != EMPTY && Ordered(t) && t[e] == EMPTY
      invariant Carries(t, carried.hash, at) && Holds(t, carried, all)
      decreases Dist(n, e, ProbeAt(n, carried.hash, at))
    {
      var idx := ProbeAt(n, carried.hash, at);
      var slot := table[idx];
      assert slot == t[idx];
      SwapHolds(t, idx, carried, all);
      if slot == EMPTY {
        FillStep(t, carried, at);
        table[idx] := carried;
        assert table[..] == t[idx := carried];
        return;
      }
      var d2 := Dist(n, idx, slot.hash);
      if d2 < at {
        SwapStep(t, carried, at, e);
        table[idx] := carried;
        t := t[idx := carried];
        carried, at := slot, d2 + 1;
      } else {
        ReachIs(t, idx);
        MoveNearer(t, carried.hash, at, e);
        at := at + 1;
      }
    }
  }

  lemma HoldsAtFirst(t: seq<Slot>, hv: Slot)
    ensures Holds(t, hv, multiset(t) + multiset{hv})
  {
  }

  // The entries of `t`, once per occurrence.
  ghost function Entries(t: seq<Slot>): multiset<Slot> {
    multiset(t)[EMPTY := 0]
  }

  // The number of slots in use.
  function Used(t: seq<Slot>): (n: nat)
    ensures n <= |t|
  {
    if |t| == 0 then 0 else Used(t[..|t| - 1]) + (if t[|t| - 1] == EMPTY then 0 else 1)
  }

  lemma {:induction false} UsedIsSize(t: seq<Slot>)
    ensures Used(t) == |t| - multiset(t)[EMPTY] == |Entries(t)|
  {
    if |t| > 0 {
      UsedIsSize(t[..|t| - 1]);
      assert t == t[..|t| - 1] + [t[|t| - 1]];
      var last := t[|t| - 1];
      assert Entries(t) == if last == EMPTY then Entries(t[..|t| - 1]) else Entries(t[..|t| - 1]) + multiset{last};
    }
  }

  // Writing an entry, and reinserting the one that stood in its place.
  lemma EnteredBag(t: seq<Slot>, i: nat, s: Slot, now: seq<Slot>)
    requires i < |t|
    requires (t[i] == EMPTY && now == t[i := s]) || Holds(now, EMPTY, multiset(t[i := s]) + multiset{t[i]})
    ensures Holds(now, EMPTY, multiset(t) + multiset{s})
  {
  }

  lemma FilledOne(t: seq<Slot>, t': seq<Slot>, s: Slot)
    requires s != EMPTY && |t'| == |t| && Holds(t', EMPTY, multiset(t) + multiset{s})
    ensures Entries(t') == Entries(t) + multiset{s}
    ensures Used(t') == Used(t) + 1
  {
    UsedIsSize(t);
    UsedIsSize(t');
    forall x ensures Entries(t')[x] == (Entries(t) + multiset{s})[x] {
      assert (multiset(t') + multiset{EMPTY})[x] == (multiset(t) + multiset{s})[x];
    }
  }

  lemma RoomLeft(t: seq<Slot>)
    requires Used(t) < |t|
    ensures EMPTY in t
  {
    UsedIsSize(t);
  }

  lemma AllEmptyIsOrdered(n: nat)
    requires n > 0
    ensures var t := seq(n, _ => EMPTY); Ordered(t) && Entries(t) == multiset{} && Used(t) == 0
  {
    AllEmpty(n);
    UsedIsSize(seq(n, _ => EMPTY));
  }

  // Moves every entry into a table twice as large.
  method Rehash(table: array<Slot>) returns (bigger: array<Slot>)
    requires table.Length > 0
    ensures fresh(bigger) && bigger.Length == 2 * table.Length
    ensures Ordered(bigger[..]) && Entries(bigger[..]) == Entries(table[..]) && Used(bigger[..]) == Used(table[..])
  {
    hide Ordered, Carries, Entries, Used, Holds;
    bigger := new Slot[2 * table.Length](_ => EMPTY);
    assert bigger[..] == seq(bigger.Length, _ => EMPTY);
    AllEmptyIsOrdered(bigger.Length);
    NothingYet(table[..]);
    for idx := 0 to table.Length
      invariant Ordered(bigger[..])
      invariant Entries(bigger[..]) == Entries(table[..idx]) && Used(bigger[..]) == Used(table[..idx])
    {
      var slot := table[idx];
      OneMore(table[..], idx);
      if slot != EMPTY {
        ghost var t := bigger[..];
        RoomLeft(t);
        CarriesFromHome(t, slot.hash);
        Reinsert(bigger, slot, 0);
        FilledOne(t, bigger[..], slot);
      }
    }
    assert table[..table.Length] == table[..];
  }

  lemma CarriesFromHome(t: seq<Slot>, hash: u32)
    requires |t| > 0
    ensures Carries(t, hash, 0)
  {
  }

  lemma NothingYet(t: seq<Slot>)
    ensures Entries(t[..0]) == multiset{} && Used(t[..0]) == 0
  {
  }

  lemma OneMore(t: seq<Slot>, i: nat)
    requires i < |t|
    ensures Used(t[..i + 1]) == Used(t[..i]) + (if t[i] == EMPTY then 0 else 1)
    ensures Entries(t[..i + 1]) == if t[i] == EMPTY then Entries(t[..i]) else Entries(t[..i]) + multiset{t[i]}
  {
    assert t[..i + 1] == t[..i] + [t[i]];
    assert t[..i + 1][..i] == t[..i];
  }
}

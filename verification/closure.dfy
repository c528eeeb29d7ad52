// The dependency closure of polyfill symbols: which symbols have to be added, and why, as a
// depth-first search over a cyclic graph that is recorded in a hash table.
module Closure {
  import opened Words
  import opened UintTable

  // The reasons for adding a symbol are two bits; a call or a jump that can do without a slot in
  // the global offset table only needs the first.
  const WHY_REGULAR: u32 := 3
  const WHY_GOT_SLOT: u32 := 2

  // A relocation in the assembled code; `opcode` is the byte before the relocated field.
  datatype Reloc = Phantom(target: u32) | Data(target: u32, callOrJmp: bool, opcode: u8)

  // What the renamer, held fixed, makes of an external symbol.
  datatype Rename = Kept | Polyfill(token: u32) | NoImplementation

  datatype Role = Object | Function(flags: set<nat>) | Extern(rename: Rename)

  datatype Node = Node(relocs: seq<Reloc>, role: Role)

  type Prog = map<u32, Node>

  datatype Edge = Edge(target: u32, why: u32)

  function EdgeOf(r: Reloc): Edge {
    match r
    case Phantom(target) => Edge(target, WHY_REGULAR)
    case Data(target, callOrJmp, opcode) =>
      Edge(target, if callOrJmp && opcode < 0xe8 then WHY_REGULAR - WHY_GOT_SLOT else WHY_REGULAR)
  }

  // Everything that a symbol needs, in the order in which it is followed.
  function Edges(n: Node): (es: seq<Edge>)
    ensures |n.relocs| <= |es| <= |n.relocs| + 1
    ensures forall i :: 0 <= i < |n.relocs| ==> es[i] == EdgeOf(n.relocs[i])
  {
    seq(|n.relocs|, i requires 0 <= i < |n.relocs| => EdgeOf(n.relocs[i])) +
    (if n.role.Extern? && n.role.rename.Polyfill? then [Edge(n.role.rename.token, WHY_REGULAR)] else [])
  }

  function FlagsOf(n: Node): set<nat> {
    if n.role.Function? then n.role.flags else {}
  }

  // The tokens in the assembled code are offsets of its symbols.
  ghost predicate WellFormed(prog: Prog) {
    forall t, i :: t in prog && 0 <= i < |Edges(prog[t])| ==> Edges(prog[t])[i].target in prog
  }

  // ---------- Labelled sets ----------

  type Labels = map<u32, u32>

  predicate HasBits(w: u32, why: u32) {
    why % 2 <= w % 2 && why / 2 % 2 <= w / 2 % 2
  }

  // `a | b` of two-bit words
  function Join(a: u32, b: u32): (r: u32)
    ensures r <= 3 && HasBits(r, a) && HasBits(r, b)
    ensures forall w: u32 :: HasBits(w, a) && HasBits(w, b) ==> HasBits(w, r)
  {
    (if a % 2 + b % 2 > 0 then 1 else 0) + (if a / 2 % 2 + b / 2 % 2 > 0 then 2 else 0)
  }

  ghost predicate Satisfied(m: Labels, e: Edge) {
    e.target in m && HasBits(m[e.target], e.why)
  }

  ghost predicate Below(a: Labels, b: Labels) {
    forall t :: t in a ==> t in b && HasBits(b[t], a[t])
  }

  // What the symbol needs is there, and it can be had at all.
  ghost predicate ClosedAt(prog: Prog, m: Labels, t: u32) {
    && t in prog
    && prog[t].role != Extern(NoImplementation)
    && forall i :: 0 <= i < |Edges(prog[t])| ==> Satisfied(m, Edges(prog[t])[i])
  }

  // Closed except at the symbols that are still being followed.
  ghost predicate ClosedBut(prog: Prog, m: Labels, open: set<u32>) {
    forall t :: t in m ==> 0 < m[t] <= 3 && t in prog && (t in open || ClosedAt(prog, m, t))
  }

  // A closed set above `m` with the symbol that is asked for.
  ghost predicate Bound(prog: Prog, m: Labels, e: Edge, l: Labels) {
    ClosedBut(prog, l, {}) && Below(m, l) && Satisfied(l, e)
  }

  // What is still missing from the full set.
  ghost function Lacking(prog: Prog, m: Labels): set<(u32, u32)> {
    set t, b | t in prog.Keys && b in {1, 2} && !(t in m && HasBits(m[t], b)) :: (t, b)
  }

  lemma BelowTransitive(a: Labels, b: Labels, c: Labels)
    requires Below(a, b) && Below(b, c)
    ensures Below(a, c)
  {
    forall t | t in a
      ensures t in c && HasBits(c[t], a[t])
    {
      assert t in b && HasBits(b[t], a[t]);
    }
  }

  lemma SatisfiedStays(a: Labels, b: Labels, e: Edge)
    requires Below(a, b) && Satisfied(a, e)
    ensures Satisfied(b, e)
  {
  }

  lemma LackingShrinks(prog: Prog, a: Labels, b: Labels)
    requires Below(a, b)
    ensures Lacking(prog, b) <= Lacking(prog, a)
  {
  }

  // Setting a bit that was not set.
  lemma LackingLess(prog: Prog, m: Labels, t: u32, why: u32)
    requires t in prog && 0 < why <= 3 && !(t in m && HasBits(m[t], why))
    ensures var m' := m[t := Join(if t in m then m[t] else 0, why)];
            Below(m, m') && Lacking(prog, m') < Lacking(prog, m)
  {
    var was := if t in m then m[t] else 0;
    var m' := m[t := Join(was, why)];
    assert Below(m, m');
    LackingShrinks(prog, m, m');
    var b: u32 := if HasBits(why, 1) && !HasBits(was, 1) then 1 else 2;
    assert (t, b) in Lacking(prog, m) && (t, b) !in Lacking(prog, m');
  }

  // The new entry breaks nothing: what was closed stays closed.
  lemma EntryKeepsClosed(prog: Prog, m: Labels, t: u32, w: u32, open: set<u32>)
    requires ClosedBut(prog, m, open) && t in prog && 0 < w <= 3 && Below(m, m[t := w])
    ensures ClosedBut(prog, m[t := w], open + {t})
  {
    var m' := m[t := w];
    forall u | u in m' && u !in open + {t}
      ensures ClosedAt(prog, m', u)
    {
      forall i | 0 <= i < |Edges(prog[u])|
        ensures Satisfied(m', Edges(prog[u])[i])
      {
        SatisfiedStays(m, m', Edges(prog[u])[i]);
      }
    }
  }

  lemma EntryBelow(m: Labels, t: u32, why: u32, l: Labels)
    requires Below(m, l) && Satisfied(l, Edge(t, why))
    ensures Below(m[t := Join(if t in m then m[t] else 0, why)], l)
  {
    assert t !in m ==> HasBits(l[t], 0);
  }

  // A bound has everything that any of its symbols needs.
  lemma BoundHasEdges(prog: Prog, m: Labels, e: Edge, l: Labels, now: Labels, i: nat)
    requires Bound(prog, m, e, l) && e.target in prog && i < |Edges(prog[e.target])| && Below(now, l)
    ensures Bound(prog, now, Edges(prog[e.target])[i], l)
  {
  }

  lemma CloseAt(prog: Prog, m: Labels, t: u32, open: set<u32>)
    requires ClosedBut(prog, m, open + {t}) && ClosedAt(prog, m, t)
    ensures ClosedBut(prog, m, open)
  {
  }

  // ---------- The search ----------

  ghost predicate SeenFlags(prog: Prog, m: Labels, open: set<u32>, seen: set<nat>) {
    forall t :: t in m && t !in open && t in prog ==> FlagsOf(prog[t]) <= seen
  }

  // Flags come from symbols that were added.
  ghost predicate FlagsFrom(prog: Prog, m: Labels, was: set<nat>, seen: set<nat>) {
    forall f :: f in seen ==> f in was || exists t :: t in m && t in prog && f in FlagsOf(prog[t])
  }

  lemma SeenFlagsGrow(prog: Prog, m: Labels, open: set<u32>, seen: set<nat>, t: u32, w: u32)
    requires SeenFlags(prog, m, open, seen)
    ensures SeenFlags(prog, m[t := w], open + {t}, seen)
  {
  }

  lemma SeenFlagsClose(prog: Prog, m: Labels, open: set<u32>, seen: set<nat>, t: u32)
    requires SeenFlags(prog, m, open + {t}, seen) && t in prog
    ensures SeenFlags(prog, m, open, seen + FlagsOf(prog[t]))
  {
  }

  lemma FlagsFromLater(prog: Prog, m: Labels, m': Labels, was: set<nat>, mid: set<nat>, seen: set<nat>)
    requires Below(m, m') && FlagsFrom(prog, m, was, mid) && FlagsFrom(prog, m', mid, seen)
    ensures FlagsFrom(prog, m', was, seen)
  {
  }

  lemma BelowItself(m: Labels)
    ensures Below(m, m)
  {
  }

  lemma FlagsStart(prog: Prog, m: Labels, seen: set<nat>)
    ensures FlagsFrom(prog, m, seen, seen)
  {
  }

  // What happens when the symbol's reasons are entered.
  lemma Entered(prog: Prog, m: Labels, t: u32, why: u32, open: set<u32>)
    requires ClosedBut(prog, m, open) && t in prog && 0 < why <= 3
    ensures var was := if t in m then m[t] else 0;
            var all := Join(was, why);
            var m' := m[t := all];
            if all == was then t in m && Satisfied(m, Edge(t, why))
            else
              && 0 < all <= 3 && (was == 0 ==> t !in m && all == why) && (t !in m ==> was == 0)
              && Below(m, m') && Lacking(prog, m') < Lacking(prog, m)
              && ClosedBut(prog, m', open + {t}) && Satisfied(m', Edge(t, why))
              && forall l :: Bound(prog, m, Edge(t, why), l) ==> Below(m', l)
  {
    var was := if t in m then m[t] else 0;
    var all := Join(was, why);
    if all != was {
      LackingLess(prog, m, t, why);
      EntryKeepsClosed(prog, m, t, all, open);
      forall l | Bound(prog, m, Edge(t, why), l)
        ensures Below(m[t := all], l)
      {
        EntryBelow(m, t, why, l);
      }
    }
  }

  // The first `i` needs of the symbol are met; whatever is closed and has the symbol has it all.
  ghost predicate Halfway(prog: Prog, m0: Labels, m1: Labels, m: Labels, e: Edge, open: set<u32>, i: nat) {
    && e.target in prog && i <= |Edges(prog[e.target])|
    && Below(m1, m) && ClosedBut(prog, m, open)
    && (forall j :: 0 <= j < i ==> Satisfied(m, Edges(prog[e.target])[j]))
    && (forall l :: Bound(prog, m0, e, l) ==> Below(m, l))
  }

  lemma HalfwayStart(prog: Prog, m0: Labels, m1: Labels, e: Edge, open: set<u32>)
    requires e.target in prog && ClosedBut(prog, m1, open) && forall l :: Bound(prog, m0, e, l) ==> Below(m1, l)
    ensures Halfway(prog, m0, m1, m1, e, open, 0)
  {
    BelowItself(m1);
  }

  // The search may go on to the next need.
  lemma NextNeed(prog: Prog, m0: Labels, m1: Labels, m: Labels, e: Edge, open: set<u32>, i: nat)
    requires Halfway(prog, m0, m1, m, e, open, i) && i < |Edges(prog[e.target])| && WellFormed(prog)
    requires Lacking(prog, m1) < Lacking(prog, m0)
    ensures var need := Edges(prog[e.target])[i];
            && need.target in prog && 0 < need.why <= 3
            && ClosedBut(prog, m, open) && Lacking(prog, m) < Lacking(prog, m0)
            && forall l :: Bound(prog, m0, e, l) ==> Bound(prog, m, need, l)
  {
    hide Lacking;
    LackingShrinks(prog, m1, m);
    forall l | Bound(prog, m0, e, l)
      ensures Bound(prog, m, Edges(prog[e.target])[i], l)
    {
      BoundHasEdges(prog, m0, e, l, m, i);
    }
  }

  lemma NeedMet(prog: Prog, m0: Labels, m1: Labels, m: Labels, m': Labels, e: Edge, open: set<u32>, i: nat)
    requires Halfway(prog, m0, m1, m, e, open, i) && i < |Edges(prog[e.target])|
    requires var need := Edges(prog[e.target])[i];
             && Below(m, m') && ClosedBut(prog, m', open) && Satisfied(m', need)
             && (forall l :: Bound(prog, m0, e, l) ==> Bound(prog, m, need, l))
             && (forall l :: Bound(prog, m, need, l) ==> Below(m', l))
    ensures Halfway(prog, m0, m1, m', e, open, i + 1)
  {
    hide Below, ClosedBut, Bound, Satisfied;
    BelowTransitive(m1, m, m');
    forall j | 0 <= j < i
      ensures Satisfied(m', Edges(prog[e.target])[j])
    {
      SatisfiedStays(m, m', Edges(prog[e.target])[j]);
    }
  }

  // All needs are met.
  lemma AllMet(prog: Prog, m0: Labels, m1: Labels, m: Labels, e: Edge, open: set<u32>)
    requires e.target in prog && Halfway(prog, m0, m1, m, e, open + {e.target}, |Edges(prog[e.target])|)
    requires prog[e.target].role != Extern(NoImplementation) && Below(m0, m1) && Satisfied(m1, e)
    ensures ClosedBut(prog, m, open) && Satisfied(m, e) && Below(m0, m)
    ensures forall l :: Bound(prog, m0, e, l) ==> Below(m, l)
  {
    CloseAt(prog, m, e.target, open);
    SatisfiedStays(m1, m, e);
    BelowTransitive(m0, m1, m);
  }

  // Nothing closed has a symbol whose polyfill is not implemented.
  lemma NoBound(prog: Prog, m: Labels, e: Edge, l: Labels)
    requires e.target in prog && prog[e.target].role == Extern(NoImplementation)
    ensures !Bound(prog, m, e, l)
  {
  }

  lemma HalfwayBelow(prog: Prog, m0: Labels, m1: Labels, m: Labels, e: Edge, open: set<u32>, i: nat)
    requires Halfway(prog, m0, m1, m, e, open, i) && Below(m0, m1)
    ensures Below(m0, m)
  {
    BelowTransitive(m0, m1, m);
  }

  lemma BoundIsAbove(prog: Prog, m: Labels, e: Edge)
    ensures forall l :: Bound(prog, m, e, l) ==> Below(m, l)
  {
  }

  lemma FlagsAdded(prog: Prog, m: Labels, was: set<nat>, seen: set<nat>, t: u32)
    requires FlagsFrom(prog, m, was, seen) && t in m && t in prog
    ensures FlagsFrom(prog, m, was, seen + FlagsOf(prog[t]))
  {
  }

  // ---------- One call of the search ----------

  // Before: closed but for the symbols being followed, with their flags noted.
  ghost predicate Ready(prog: Prog, m: Labels, seen: set<nat>, open: set<u32>) {
    ClosedBut(prog, m, open) && SeenFlags(prog, m, open, seen)
  }

  // After: closed again with the symbol and its reasons, and nothing that a closed set with that
  // symbol would not have; or no such set exists.
  ghost predicate Added(prog: Prog, m: Labels, seen: set<nat>, m': Labels, seen': set<nat>, e: Edge, open: set<u32>,
                        missing: bool) {
    && Below(m, m') && FlagsFrom(prog, m', seen, seen') && seen <= seen'
    && (!missing ==> Ready(prog, m', seen', open) && Satisfied(m', e))
    && (forall l :: Bound(prog, m, e, l) ==> !missing && Below(m', l))
  }

  // Between the symbol's needs.
  ghost predicate Following(prog: Prog, m0: Labels, seen0: set<nat>, m1: Labels, m: Labels, seen: set<nat>,
                            e: Edge, open: set<u32>, i: nat) {
    && Halfway(prog, m0, m1, m, e, open + {e.target}, i) && SeenFlags(prog, m, open + {e.target}, seen)
    && FlagsFrom(prog, m, seen0, seen) && seen0 <= seen
    && Below(m0, m1) && Lacking(prog, m1) < Lacking(prog, m0) && Satisfied(m1, e)
  }

  lemma KnownIsAdded(prog: Prog, m: Labels, seen: set<nat>, e: Edge, open: set<u32>)
    requires Ready(prog, m, seen, open) && Satisfied(m, e)
    ensures Added(prog, m, seen, m, seen, e, open, false)
  {
    BelowItself(m);
    FlagsStart(prog, m, seen);
    BoundIsAbove(prog, m, e);
  }

  // What entering the reasons has done.
  ghost predicate Entry(prog: Prog, m: Labels, m': Labels, e: Edge, open: set<u32>) {
    && Below(m, m') && Lacking(prog, m') < Lacking(prog, m) && Satisfied(m', e)
    && ClosedBut(prog, m', open + {e.target}) && (forall l :: Bound(prog, m, e, l) ==> Below(m', l))
    && e.target in prog && e.target in m' && m' == m[e.target := m'[e.target]]
  }

  lemma StartFollowing(prog: Prog, m: Labels, seen: set<nat>, m': Labels, e: Edge, open: set<u32>)
    requires Ready(prog, m, seen, open) && Entry(prog, m, m', e, open)
    ensures Following(prog, m, seen, m', m', seen, e, open, 0)
  {
    hide ClosedBut, Below, Bound, Lacking, SeenFlags, FlagsFrom, Satisfied;
    SeenFlagsGrow(prog, m, open, seen, e.target, m'[e.target]);
    FlagsStart(prog, m', seen);
    HalfwayStart(prog, m, m', e, open + {e.target});
  }

  lemma FollowNext(prog: Prog, m0: Labels, seen0: set<nat>, m1: Labels, m: Labels, seen: set<nat>, e: Edge,
                   open: set<u32>, i: nat)
    requires Following(prog, m0, seen0, m1, m, seen, e, open, i) && WellFormed(prog)
    requires e.target in prog && i < |Edges(prog[e.target])|
    ensures var need := Edges(prog[e.target])[i];
            && need.target in prog && 0 < need.why <= 3
            && Ready(prog, m, seen, open + {e.target}) && Lacking(prog, m) < Lacking(prog, m0)
  {
    hide ClosedBut, Below, Bound, Lacking, SeenFlags, FlagsFrom, Satisfied, Halfway;
    NextNeed(prog, m0, m1, m, e, open + {e.target}, i);
  }

  lemma Followed(prog: Prog, m0: Labels, seen0: set<nat>, m1: Labels, m: Labels, seen: set<nat>, m': Labels,
                 seen': set<nat>, e: Edge, open: set<u32>, i: nat, missing: bool)
    requires Following(prog, m0, seen0, m1, m, seen, e, open, i) && WellFormed(prog)
    requires e.target in prog && i < |Edges(prog[e.target])|
    requires Added(prog, m, seen, m', seen', Edges(prog[e.target])[i], open + {e.target}, missing)
    ensures !missing ==> Following(prog, m0, seen0, m1, m', seen', e, open, i + 1)
    ensures missing ==> Added(prog, m0, seen0, m', seen', e, open, true)
  {
    hide ClosedBut, Below, Bound, Lacking, SeenFlags, FlagsFrom, Satisfied, Halfway;
    var inner := open + {e.target};
    NextNeed(prog, m0, m1, m, e, inner, i);
    HalfwayBelow(prog, m0, m1, m, e, inner, i);
    BelowTransitive(m0, m, m');
    FlagsFromLater(prog, m, m', seen0, seen, seen');
    if !missing {
      NeedMet(prog, m0, m1, m, m', e, inner, i);
    }
  }

  lemma FollowedAll(prog: Prog, m0: Labels, seen0: set<nat>, m1: Labels, m: Labels, seen: set<nat>, e: Edge,
                    open: set<u32>)
    requires e.target in prog && Following(prog, m0, seen0, m1, m, seen, e, open, |Edges(prog[e.target])|)
    ensures prog[e.target].role == Extern(NoImplementation) ==> Added(prog, m0, seen0, m, seen, e, open, true)
    ensures prog[e.target].role != Extern(NoImplementation) ==>
              Added(prog, m0, seen0, m, seen + FlagsOf(prog[e.target]), e, open, false)
  {
    hide ClosedBut, Below, Bound, Lacking, SeenFlags, FlagsFrom, Halfway, FlagsOf;
    HalfwayBelow(prog, m0, m1, m, e, open + {e.target}, |Edges(prog[e.target])|);
    if prog[e.target].role == Extern(NoImplementation) {
      forall l
        ensures !Bound(prog, m0, e, l)
      {
        NoBound(prog, m0, e, l);
      }
    } else {
      AllMet(prog, m0, m1, m, e, open);
      SeenFlagsClose(prog, m, open, seen, e.target);
      FlagsAdded(prog, m, seen0, seen, e.target);
    }
  }

  class Polyfiller {
    const prog: Prog
    const added: Uuht
    var seenFlags: set<nat>

    ghost predicate Valid()
      reads this, added, added.table
    {
      added.Valid() && WellFormed(prog)
    }

    constructor (prog: Prog)
      requires WellFormed(prog)
      ensures Valid() && this.prog == prog && added.contents == map[] && seenFlags == {}
      ensures fresh(added) && fresh(added.table)
    {
      this.prog := prog;
      added := new Uuht();
      seenFlags := {};
    }

    // Enters the reasons; `done` says that they were all known.
    method Enter(token: u32, why: u32, ghost open: set<u32>) returns (done: bool)
      requires Valid() && token in prog && 0 < why <= 3 && ClosedBut(prog, added.contents, open)
      modifies added, added.table
      ensures Valid() && (added.table == old(added.table) || fresh(added.table))
      ensures done ==> added.contents == old(added.contents) && Satisfied(added.contents, Edge(token, why))
      ensures !done ==> Entry(prog, old(added.contents), added.contents, Edge(token, why), open)
    {
      hide ClosedBut, Below, Bound, Lacking, HasBits, Join, WellFormed, Satisfied;
      Entered(prog, added.contents, token, why, open);
      var oldWhy := added.SetIfAbsent(token, why);
      var all := Join(oldWhy, why);
      done := all == oldWhy;
      if !done && oldWhy != 0 {
        var _ := added.Set(token, all);
      }
    }

    // Adds a symbol and everything it depends on. `missing` says that a polyfill without an
    // implementation is required, which ends the program.
    method AddSymAndDeps(token: u32, why: u32, ghost open: set<u32>) returns (missing: bool)
      requires Valid() && token in prog && 0 < why <= 3 && Ready(prog, added.contents, seenFlags, open)
      modifies this, added, added.table
      ensures Valid() && (added.table == old(added.table) || fresh(added.table))
      ensures Added(prog, old(added.contents), old(seenFlags), added.contents, seenFlags, Edge(token, why), open,
                    missing)
      decreases Lacking(prog, added.contents)
    {
      hide Ready, Added, Following, Entry, ClosedBut, Lacking, WellFormed, Edges, Satisfied, FlagsOf;
      ghost var m0, seen0, e := added.contents, seenFlags, Edge(token, why);
      ReadyIsClosed(prog, m0, seen0, open);
      var done := Enter(token, why, open);
      if done {
        KnownIsAdded(prog, m0, seen0, e, open);
        return false;
      }
      ghost var m1 := added.contents;
      StartFollowing(prog, m0, seen0, m1, e, open);
      var node, i := prog[token], 0;
      while i < |Edges(node)|
        invariant 0 <= i <= |Edges(node)| && Valid() && (added.table == old(added.table) || fresh(added.table))
        invariant Following(prog, m0, seen0, m1, added.contents, seenFlags, e, open, i)
      {
        ghost var m, seen := added.contents, seenFlags;
        FollowNext(prog, m0, seen0, m1, m, seen, e, open, i);
        var need := Edges(node)[i];
        missing := AddSymAndDeps(need.target, need.why, open + {token});
        Followed(prog, m0, seen0, m1, m, seen, added.contents, seenFlags, e, open, i, missing);
        if missing {
          return;
        }
        i := i + 1;
      }
      FollowedAll(prog, m0, seen0, m1, added.contents, seenFlags, e, open);
      missing := node.role == Extern(NoImplementation);
      if !missing {
        seenFlags := seenFlags + FlagsOf(node);
      }
    }

    // Adds a symbol for its own sake: afterwards there is exactly what chains of needs lead to.
    method Add(token: u32) returns (missing: bool)
      requires Valid() && token in prog && Ready(prog, added.contents, seenFlags, {})
      modifies this, added, added.table
      ensures Valid() && (added.table == old(added.table) || fresh(added.table))
      ensures missing <==> ReachesMissing(prog, old(added.contents), token, 3)
      ensures !missing ==> Ready(prog, added.contents, seenFlags, {})
      ensures !missing ==>
                forall t, bit: u32 :: bit == 1 || bit == 2 ==>
                  (HasReason(added.contents, t, bit) <==> IsReached(prog, old(added.contents), token, 3, t, bit))
      ensures !missing ==> forall f :: f in seenFlags <==> f in old(seenFlags) || HasFlag(prog, added.contents, f)
    {
      hide Ready, ClosedBut, Reached, IsReached, ReachesMissing, HasFlag, Start;
      ghost var m, seen := added.contents, seenFlags;
      ReadyIsClosed(prog, m, seen, {});
      StartsClosed(prog, m, seen, token);
      missing := AddSymAndDeps(token, WHY_REGULAR, {});
      TopLevelIsReached(prog, m, seen, added.contents, seenFlags, token, 3, missing);
      if !missing {
        FlagsAreReached(prog, m, seen, added.contents, seenFlags, token, 3);
      }
    }
  }

  lemma ReadyIsClosed(prog: Prog, m: Labels, seen: set<nat>, open: set<u32>)
    requires Ready(prog, m, seen, open)
    ensures ClosedBut(prog, m, open)
  {
  }

  // ---------- Closures ----------

  // The least closed set above `m` that has the symbol.
  ghost predicate LeastClosure(prog: Prog, m: Labels, e: Edge, m': Labels) {
    Bound(prog, m, e, m') && forall l :: Bound(prog, m, e, l) ==> Below(m', l)
  }

  // A top-level call turns a closed set into the least closed set with the symbol, and fails
  // exactly if there is none.
  lemma TopLevelIsLeast(prog: Prog, m: Labels, seen: set<nat>, m': Labels, seen': set<nat>, e: Edge, missing: bool)
    requires Added(prog, m, seen, m', seen', e, {}, missing)
    ensures !missing ==> LeastClosure(prog, m, e, m')
    ensures missing <==> !exists l :: Bound(prog, m, e, l)
  {
    if !missing {
      assert Bound(prog, m, e, m');
    }
  }

  lemma LabelsEqual(a: Labels, b: Labels)
    requires Below(a, b) && Below(b, a)
    requires (forall t :: t in a ==> a[t] <= 3) && (forall t :: t in b ==> b[t] <= 3)
    ensures a == b
  {
    forall t | t in a
      ensures t in b && a[t] == b[t]
    {
      assert HasBits(a[t], b[t]) && HasBits(b[t], a[t]);
    }
  }

  // Adding one symbol and then another gives the same set in either order.
  lemma OrderDoesNotMatter(prog: Prog, m: Labels, e: Edge, f: Edge, me: Labels, mef: Labels, mf: Labels, mfe: Labels)
    requires LeastClosure(prog, m, e, me) && LeastClosure(prog, me, f, mef)
    requires LeastClosure(prog, m, f, mf) && LeastClosure(prog, mf, e, mfe)
    ensures mef == mfe
  {
    hide HasBits, ClosedBut;
    ClosureOfBoth(prog, m, e, f, me, mef, mf, mfe);
    ClosureOfBoth(prog, m, f, e, mf, mfe, me, mef);
    ClosedIsSmall(prog, mef);
    ClosedIsSmall(prog, mfe);
    LabelsEqual(mef, mfe);
  }

  lemma ClosureOfBoth(prog: Prog, m: Labels, e: Edge, f: Edge, me: Labels, mef: Labels, mf: Labels, mfe: Labels)
    requires LeastClosure(prog, m, e, me) && LeastClosure(prog, me, f, mef)
    requires LeastClosure(prog, m, f, mf) && LeastClosure(prog, mf, e, mfe)
    ensures Below(mef, mfe)
  {
    hide HasBits, ClosedBut, Below, Satisfied;
    BelowTransitive(m, mf, mfe);
    SatisfiedStays(mf, mfe, f);
    assert Bound(prog, m, e, mfe);
    assert Bound(prog, me, f, mfe);
  }

  lemma ClosedIsSmall(prog: Prog, m: Labels)
    requires ClosedBut(prog, m, {})
    ensures forall t :: t in m ==> m[t] <= 3
  {
  }

  // ---------- What a closure has, told from the code alone ----------

  // A reason for adding the symbol: bit 1 or bit 2.
  predicate HasReason(m: Labels, t: u32, bit: u32) {
    t in m && if bit == 1 then m[t] % 2 == 1 else m[t] / 2 % 2 == 1
  }

  // The relocation asks for its target with this reason: a call or jump through a slot, whose
  // opcode lies below e8, only with the first, every other one with both.
  predicate AsksFor(r: Reloc, t: u32, bit: u32) {
    r.target == t && (bit == 1 || r.Phantom? || !r.callOrJmp || r.opcode >= 0xe8)
  }

  // The symbol needs `t` with this reason: a relocation asks for it, or it is renamed to it.
  ghost predicate Needs(n: Node, t: u32, bit: u32) {
    (exists r :: r in n.relocs && AsksFor(r, t, bit)) || n.role == Extern(Polyfill(t))
  }

  // A chain of at most `n` needs leads to the symbol with this reason, from the set before or from
  // the symbol that is added.
  ghost predicate Reached(prog: Prog, m: Labels, token: u32, why: u32, t: u32, bit: u32, n: nat)
    decreases n, 0
  {
    || HasReason(m, t, bit)
    || HasReason(map[token := why], t, bit)
    || (n > 0 && exists s :: s in prog && Needs(prog[s], t, bit) && ReachedAtAll(prog, m, token, why, s, n - 1))
  }

  ghost predicate ReachedAtAll(prog: Prog, m: Labels, token: u32, why: u32, t: u32, n: nat)
    decreases n, 1
  {
    Reached(prog, m, token, why, t, 1, n) || Reached(prog, m, token, why, t, 2, n)
  }

  ghost predicate IsReached(prog: Prog, m: Labels, token: u32, why: u32, t: u32, bit: u32) {
    exists n: nat :: Reached(prog, m, token, why, t, bit, n)
  }

  ghost predicate IsReachedAtAll(prog: Prog, m: Labels, token: u32, why: u32, t: u32) {
    IsReached(prog, m, token, why, t, 1) || IsReached(prog, m, token, why, t, 2)
  }

  lemma NeedIsReached(prog: Prog, m: Labels, token: u32, why: u32, s: u32, t: u32, bit: u32)
    requires s in prog && Needs(prog[s], t, bit) && IsReachedAtAll(prog, m, token, why, s)
    ensures IsReached(prog, m, token, why, t, bit)
  {
    var b := if IsReached(prog, m, token, why, s, 1) then 1 else 2;
    var n: nat :| Reached(prog, m, token, why, s, b, n);
    assert ReachedAtAll(prog, m, token, why, s, n);
    assert Reached(prog, m, token, why, t, bit, n + 1);
  }

  // The needs are the edges that the search follows.
  lemma NeedsAreEdges(n: Node, t: u32, bit: u32)
    requires bit == 1 || bit == 2
    ensures Needs(n, t, bit) <==>
            exists i :: 0 <= i < |Edges(n)| && Edges(n)[i].target == t && HasBits(Edges(n)[i].why, bit)
  {
    if r :| r in n.relocs && AsksFor(r, t, bit) {
      var i :| 0 <= i < |n.relocs| && n.relocs[i] == r;
      assert Edges(n)[i] == EdgeOf(r);
    }
    if n.role == Extern(Polyfill(t)) {
      assert Edges(n)[|n.relocs|] == Edge(t, 3);
    }
    if i :| 0 <= i < |Edges(n)| && Edges(n)[i].target == t && HasBits(Edges(n)[i].why, bit) && i < |n.relocs| {
      assert n.relocs[i] in n.relocs;
    }
  }

  lemma BitsOf(w: u32, why: u32)
    requires w <= 3 && why <= 3
    ensures HasBits(w, why) <==> (HasBits(why, 1) ==> HasBits(w, 1)) && (HasBits(why, 2) ==> HasBits(w, 2))
    ensures HasBits(w, 1) <==> w % 2 == 1
    ensures HasBits(w, 2) <==> w / 2 % 2 == 1
  {
  }

  // Everything that is reached, with its reasons.
  ghost function AllReached(prog: Prog, m: Labels, token: u32, why: u32): Labels {
    map t | t in prog && IsReachedAtAll(prog, m, token, why, t) ::
      (if IsReached(prog, m, token, why, t, 1) then 1 else 0) + (if IsReached(prog, m, token, why, t, 2) then 2 else 0)
  }

  // What the lemmas below start from: a closed set, and a symbol of the code to add to it.
  ghost predicate Start(prog: Prog, m: Labels, e: Edge) {
    WellFormed(prog) && ClosedBut(prog, m, {}) && e.target in prog && 0 < e.why <= 3
  }

  ghost predicate ReachesMissing(prog: Prog, m: Labels, token: u32, why: u32) {
    exists t :: t in prog && IsReachedAtAll(prog, m, token, why, t) && prog[t].role == Extern(NoImplementation)
  }

  lemma ReachedHasReason(prog: Prog, m: Labels, token: u32, why: u32, t: u32, bit: u32)
    requires t in prog && (bit == 1 || bit == 2)
    ensures HasReason(AllReached(prog, m, token, why), t, bit) <==> IsReached(prog, m, token, why, t, bit)
  {
    hide IsReached;
  }

  lemma ReachedAtStart(prog: Prog, m: Labels, token: u32, why: u32, t: u32, bit: u32)
    requires HasReason(m, t, bit) || HasReason(map[token := why], t, bit)
    ensures IsReached(prog, m, token, why, t, bit)
  {
    assert Reached(prog, m, token, why, t, bit, 0);
  }

  lemma ReachedIsAbove(prog: Prog, m: Labels, e: Edge)
    requires Start(prog, m, e)
    ensures var l := AllReached(prog, m, e.target, e.why); Below(m, l) && Satisfied(l, e)
  {
    hide AllReached, IsReached;
    var l := AllReached(prog, m, e.target, e.why);
    ReachedIsSmall(prog, m, e);
    forall t | t in m
      ensures t in l && HasBits(l[t], m[t])
    {
      StartingReasons(prog, m, e, t, m[t]);
    }
    StartingReasons(prog, m, e, e.target, e.why);
  }

  lemma ReachedIsSmall(prog: Prog, m: Labels, e: Edge)
    ensures var l := AllReached(prog, m, e.target, e.why); forall t :: t in l ==> t in prog && 0 < l[t] <= 3
  {
    hide IsReached;
  }

  lemma StartingReasons(prog: Prog, m: Labels, e: Edge, t: u32, w: u32)
    requires t in prog && 0 < w <= 3 && ((t in m && w == m[t]) || (t == e.target && w == e.why))
    ensures var l := AllReached(prog, m, e.target, e.why); t in l && HasBits(l[t], w)
  {
    hide AllReached, IsReached;
    ReachedIsSmall(prog, m, e);
    var l := AllReached(prog, m, e.target, e.why);
    if w % 2 == 1 {
      ReachedAtStart(prog, m, e.target, e.why, t, 1);
      ReachedHasReason(prog, m, e.target, e.why, t, 1);
    }
    if w / 2 % 2 == 1 {
      ReachedAtStart(prog, m, e.target, e.why, t, 2);
      ReachedHasReason(prog, m, e.target, e.why, t, 2);
    }
    BitsOf(l[t], w);
    BitsOf(w, w);
  }

  lemma EdgeIsReached(prog: Prog, m: Labels, e: Edge, s: u32, i: nat)
    requires Start(prog, m, e) && s in prog && s in AllReached(prog, m, e.target, e.why) && i < |Edges(prog[s])|
    ensures Satisfied(AllReached(prog, m, e.target, e.why), Edges(prog[s])[i])
  {
    hide AllReached, IsReached, Edges, Needs, ClosedBut;
    var l, need := AllReached(prog, m, e.target, e.why), Edges(prog[s])[i];
    ReachedIsSmall(prog, m, e);
    SomeReason(l, s);
    ReachedHasReason(prog, m, e.target, e.why, s, 1);
    ReachedHasReason(prog, m, e.target, e.why, s, 2);
    EdgeReasons(prog[s], i);
    if HasBits(need.why, 1) {
      NeedsAreEdges(prog[s], need.target, 1);
      NeedIsReached(prog, m, e.target, e.why, s, need.target, 1);
      ReachedHasReason(prog, m, e.target, e.why, need.target, 1);
    }
    if HasBits(need.why, 2) {
      NeedsAreEdges(prog[s], need.target, 2);
      NeedIsReached(prog, m, e.target, e.why, s, need.target, 2);
      ReachedHasReason(prog, m, e.target, e.why, need.target, 2);
    }
    BitsOf(l[need.target], need.why);
  }

  lemma SomeReason(m: Labels, t: u32)
    requires t in m && 0 < m[t] <= 3
    ensures HasReason(m, t, 1) || HasReason(m, t, 2)
  {
  }

  lemma EdgeReasons(n: Node, i: nat)
    requires i < |Edges(n)|
    ensures 0 < Edges(n)[i].why <= 3 && (HasBits(Edges(n)[i].why, 1) || HasBits(Edges(n)[i].why, 2))
  {
  }

  // Everything that is reached is a closed set, unless a polyfill without an implementation is
  // reached, ...
  lemma ReachedIsBound(prog: Prog, m: Labels, e: Edge)
    requires Start(prog, m, e) && !ReachesMissing(prog, m, e.target, e.why)
    ensures Bound(prog, m, e, AllReached(prog, m, e.target, e.why))
  {
    hide AllReached, IsReached, Edges, Start;
    var l := AllReached(prog, m, e.target, e.why);
    ReachedIsAbove(prog, m, e);
    ReachedIsSmall(prog, m, e);
    forall s | s in l
      ensures ClosedAt(prog, l, s)
    {
      SomeReason(l, s);
      ReachedHasReason(prog, m, e.target, e.why, s, 1);
      ReachedHasReason(prog, m, e.target, e.why, s, 2);
      forall i | 0 <= i < |Edges(prog[s])|
        ensures Satisfied(l, Edges(prog[s])[i])
      {
        EdgeIsReached(prog, m, e, s, i);
      }
    }
  }

  // ... and every closed set has it.
  lemma {:induction false} BoundHasReached(prog: Prog, m: Labels, e: Edge, l: Labels, t: u32, bit: u32, n: nat)
    requires Bound(prog, m, e, l) && 0 < e.why <= 3 && (bit == 1 || bit == 2) && ClosedBut(prog, m, {})
    requires Reached(prog, m, e.target, e.why, t, bit, n)
    ensures HasReason(l, t, bit)
    decreases n
  {
    hide Edges, Needs;
    if HasReason(m, t, bit) {
      BitsOf(l[t], m[t]);
      BitsOf(m[t], m[t]);
    } else if HasReason(map[e.target := e.why], t, bit) {
      BitsOf(l[t], e.why);
      BitsOf(e.why, e.why);
    } else {
      var s :| s in prog && Needs(prog[s], t, bit) && ReachedAtAll(prog, m, e.target, e.why, s, n - 1);
      if Reached(prog, m, e.target, e.why, s, 1, n - 1) {
        BoundHasReached(prog, m, e, l, s, 1, n - 1);
      } else {
        BoundHasReached(prog, m, e, l, s, 2, n - 1);
      }
      NeedsAreEdges(prog[s], t, bit);
      var i :| 0 <= i < |Edges(prog[s])| && Edges(prog[s])[i].target == t && HasBits(Edges(prog[s])[i].why, bit);
      assert ClosedAt(prog, l, s) && Satisfied(l, Edges(prog[s])[i]);
      EdgeReasons(prog[s], i);
      BitsOf(l[t], Edges(prog[s])[i].why);
    }
  }

  // So a top-level call ends with exactly what is reached, each symbol with exactly the reasons it
  // is reached with, and fails exactly if a polyfill without an implementation is reached.
  lemma TopLevelIsReached(prog: Prog, m: Labels, seen: set<nat>, m': Labels, seen': set<nat>, token: u32, why: u32,
                          missing: bool)
    requires Start(prog, m, Edge(token, why)) && Added(prog, m, seen, m', seen', Edge(token, why), {}, missing)
    ensures missing <==> ReachesMissing(prog, m, token, why)
    ensures !missing ==>
              forall t, bit: u32 :: bit == 1 || bit == 2 ==>
                (HasReason(m', t, bit) <==> IsReached(prog, m, token, why, t, bit))
  {
    hide AllReached, IsReached, ClosedBut, Added;
    var e := Edge(token, why);
    TopLevelIsLeast(prog, m, seen, m', seen', e, missing);
    if ReachesMissing(prog, m, token, why) {
      forall l
        ensures !Bound(prog, m, e, l)
      {
        MissingHasNoBound(prog, m, e, l);
      }
    } else {
      ReachedIsBound(prog, m, e);
      assert LeastClosure(prog, m, e, m');
      forall t, bit: u32 | bit == 1 || bit == 2
        ensures HasReason(m', t, bit) <==> IsReached(prog, m, token, why, t, bit)
      {
        LeastHasReached(prog, m, e, m', t, bit);
      }
    }
  }

  lemma MissingHasNoBound(prog: Prog, m: Labels, e: Edge, l: Labels)
    requires Start(prog, m, e) && ReachesMissing(prog, m, e.target, e.why)
    ensures !Bound(prog, m, e, l)
  {
    if Bound(prog, m, e, l) {
      var t :| t in prog && IsReachedAtAll(prog, m, e.target, e.why, t) && prog[t].role == Extern(NoImplementation);
      var bit := if IsReached(prog, m, e.target, e.why, t, 1) then 1 else 2;
      var n: nat :| Reached(prog, m, e.target, e.why, t, bit, n);
      BoundHasReached(prog, m, e, l, t, bit, n);
    }
  }

  lemma LeastHasReached(prog: Prog, m: Labels, e: Edge, m': Labels, t: u32, bit: u32)
    requires Start(prog, m, e) && LeastClosure(prog, m, e, m') && (bit == 1 || bit == 2)
    requires Bound(prog, m, e, AllReached(prog, m, e.target, e.why))
    ensures HasReason(m', t, bit) <==> IsReached(prog, m, e.target, e.why, t, bit)
  {
    hide AllReached, Reached;
    var l := AllReached(prog, m, e.target, e.why);
    if HasReason(m', t, bit) {
      ReachedIsSmall(prog, m, e);
      ClosedIsSmall(prog, m');
      BitsOf(l[t], m'[t]);
      BitsOf(m'[t], m'[t]);
      ReachedHasReason(prog, m, e.target, e.why, t, bit);
    }
    if IsReached(prog, m, e.target, e.why, t, bit) {
      var n: nat :| Reached(prog, m, e.target, e.why, t, bit, n);
      BoundHasReached(prog, m, e, m', t, bit, n);
    }
  }

  // Some function that is there has the flag.
  ghost predicate HasFlag(prog: Prog, m: Labels, f: nat) {
    exists t :: t in m && t in prog && prog[t].role.Function? && f in prog[t].role.flags
  }

  lemma StartsClosed(prog: Prog, m: Labels, seen: set<nat>, token: u32)
    requires WellFormed(prog) && Ready(prog, m, seen, {}) && token in prog
    ensures Start(prog, m, Edge(token, 3))
  {
  }

  // The noted flags are those noted before and those of the functions that are there.
  lemma FlagsAreReached(prog: Prog, m: Labels, seen: set<nat>, m': Labels, seen': set<nat>, token: u32, why: u32)
    requires Start(prog, m, Edge(token, why)) && Added(prog, m, seen, m', seen', Edge(token, why), {}, false)
    ensures forall f :: f in seen' <==> f in seen || HasFlag(prog, m', f)
  {
    forall f | f in seen'
      ensures f in seen || HasFlag(prog, m', f)
    {
      if f !in seen {
        var t :| t in m' && t in prog && f in FlagsOf(prog[t]);
      }
    }
    forall f, t | t in m' && t in prog && prog[t].role.Function? && f in prog[t].role.flags
      ensures f in seen'
    {
      assert FlagsOf(prog[t]) <= seen';
    }
  }
}

// Whole edits: pass after pass over buckets that are sorted and laid out anew in between.
module BucketOrder {
  import opened Words
  import opened Allocator
  import opened Layout

  // ---------- Sorting the buckets ----------

  // The comparison of the sort: by category, then by alignment.
  predicate Precedes(a: Bucket, b: Bucket) {
    Rank(a.category) < Rank(b.category) || (a.category == b.category && a.alignment <= b.alignment)
  }

  // File space first, then what is mapped: read-only data, that near code, code, data, zeros; the
  // same kind by ascending alignment.
  predicate ComesFirst(a: Bucket, b: Bucket) {
    if a.category == b.category then a.alignment <= b.alignment
    else
      match a.category
      case F => true
      case VR => b.category != F
      case VRNearX => b.category in {VRX, VRW, VRWZero}
      case VRX => b.category in {VRW, VRWZero}
      case VRW => b.category == VRWZero
      case VRWZero => false
  }

  lemma PrecedesComesFirst(a: Bucket, b: Bucket)
    ensures Precedes(a, b) <==> ComesFirst(a, b)
  {
  }

  ghost predicate InOrder(bs: seq<Bucket>) {
    forall i, j :: 0 <= i < j < |bs| ==> ComesFirst(bs[i], bs[j])
  }

  ghost predicate SortingOf(bs: seq<Bucket>, was: seq<Bucket>) {
    InOrder(bs) && multiset(bs) == multiset(was)
  }

  lemma PrecedesIsTotal(a: Bucket, b: Bucket)
    ensures Precedes(a, b) || Precedes(b, a)
  {
  }

  lemma PrecedesIsTransitive(a: Bucket, b: Bucket, c: Bucket)
    requires (a == b || Precedes(a, b)) && Precedes(b, c)
    ensures Precedes(a, c)
  {
  }

  // The sort in its place between two passes; which algorithm does it makes no difference to
  // buckets that serve different requests (see `OneSorting`).
  method SortBuckets(buckets: array<Bucket>)
    modifies buckets
    ensures SortingOf(buckets[..], old(buckets[..]))
  {
    hide Precedes, ComesFirst;
    for n := 0 to buckets.Length
      invariant forall i, j :: 0 <= i < j < n ==> Precedes(buckets[i], buckets[j])
      invariant multiset(buckets[..]) == old(multiset(buckets[..]))
    {
      var j := n;
      while j > 0 && !Precedes(buckets[j - 1], buckets[j])
        invariant j <= n
        invariant forall i, k :: 0 <= i < k <= n && k != j ==> Precedes(buckets[i], buckets[k])
        invariant multiset(buckets[..]) == old(multiset(buckets[..]))
      {
        PrecedesIsTotal(buckets[j - 1], buckets[j]);
        buckets[j - 1], buckets[j] := buckets[j], buckets[j - 1];
        j := j - 1;
      }
      forall i | 0 <= i < j
        ensures Precedes(buckets[i], buckets[j])
      {
        PrecedesIsTransitive(buckets[i], buckets[j - 1], buckets[j]);
      }
    }
    forall i, j | 0 <= i < j < buckets.Length
      ensures ComesFirst(buckets[i], buckets[j])
    {
      PrecedesComesFirst(buckets[i], buckets[j]);
    }
  }

  // ---------- Whatever the order, the buckets serve alike ----------

  lemma TwoPlaces<T>(s: seq<T>, i: nat, j: nat)
    requires i < j < |s| && s[i] == s[j]
    ensures multiset(s)[s[i]] >= 2
  {
    assert s == s[..j] + [s[j]] + s[j + 1..];
    assert s[..j][i] == s[i];
    assert multiset(s) == multiset(s[..j]) + multiset([s[j]]) + multiset(s[j + 1..]);
  }

  lemma {:induction false} OncePerBucket(bs: seq<Bucket>, b: Bucket)
    requires Unique(bs)
    ensures multiset(bs)[b] <= 1
  {
    if |bs| > 0 {
      var n := |bs| - 1;
      assert bs == bs[..n] + [bs[n]];
      OncePerBucket(bs[..n], b);
      assert bs[n] !in bs[..n];
    }
  }

  lemma PermutedSame(bs: seq<Bucket>, was: seq<Bucket>, i: nat, category: Category, alignment: PowerOf2)
    requires Unique(was) && multiset(bs) == multiset(was) && i < |bs| && Serves(bs[i], category, alignment)
    ensures BucketFor(was, category, alignment) == bs[i]
  {
    hide Unique;
    assert bs[i] in multiset(was);
    var k :| 0 <= k < |was| && was[k] == bs[i];
    var j := Find(was, category, alignment);
    UniqueMeans(was, j, k);
  }

  lemma UniqueMeans(bs: seq<Bucket>, j: nat, k: nat)
    requires Unique(bs) && j < |bs| && k < |bs| && bs[j].category == bs[k].category
             && bs[j].alignment == bs[k].alignment
    ensures j == k
  {
  }

  lemma PermutedUnique(bs: seq<Bucket>, was: seq<Bucket>)
    requires Unique(was) && multiset(bs) == multiset(was)
    ensures Unique(bs)
  {
    forall i, j | 0 <= i < j < |bs|
      ensures !Serves(bs[j], bs[i].category, bs[i].alignment)
    {
      if Serves(bs[j], bs[i].category, bs[i].alignment) {
        PermutedSame(bs, was, i, bs[i].category, bs[i].alignment);
        PermutedSame(bs, was, j, bs[i].category, bs[i].alignment);
        TwoPlaces(bs, i, j);
        OncePerBucket(was, bs[i]);
      }
    }
  }

  lemma PermutedServesAlike(bs: seq<Bucket>, was: seq<Bucket>, category: Category, alignment: PowerOf2)
    requires Unique(was) && multiset(bs) == multiset(was)
    ensures BucketFor(bs, category, alignment) == BucketFor(was, category, alignment)
  {
    hide Unique;
    var i := Find(bs, category, alignment);
    ServedByBoth(bs, was, category, alignment);
    if i < |bs| {
      PermutedSame(bs, was, i, category, alignment);
    }
  }

  lemma ServedByBoth(bs: seq<Bucket>, was: seq<Bucket>, category: Category, alignment: PowerOf2)
    requires multiset(bs) == multiset(was)
    ensures Find(was, category, alignment) < |was| ==> Find(bs, category, alignment) < |bs|
  {
    var j := Find(was, category, alignment);
    if j < |was| {
      assert was[j] in multiset(bs);
      var k :| 0 <= k < |bs| && bs[k] == was[j];
    }
  }

  // There is only one way to sort them.
  lemma OneSorting(a: seq<Bucket>, b: seq<Bucket>, was: seq<Bucket>)
    requires Unique(was) && SortingOf(a, was) && SortingOf(b, was)
    ensures a == b
  {
    PermutedUnique(a, was);
    PermutedUnique(b, was);
    SameSorting(a, b);
  }

  lemma FirstIsLeast(a: seq<Bucket>, b: seq<Bucket>)
    requires |a| > 0 && |b| > 0 && InOrder(a) && InOrder(b) && multiset(a) == multiset(b)
    ensures ComesFirst(a[0], b[0])
  {
    assert b[0] in multiset(a);
    var i :| 0 <= i < |a| && a[i] == b[0];
  }

  lemma {:induction false} SameSorting(a: seq<Bucket>, b: seq<Bucket>)
    requires Unique(a) && Unique(b) && InOrder(a) && InOrder(b) && multiset(a) == multiset(b)
    ensures a == b
    decreases |a|
  {
    hide Unique, InOrder;
    assert |a| == |multiset(a)| == |multiset(b)| == |b|;
    if |a| > 0 {
      FirstIsLeast(a, b);
      FirstIsLeast(b, a);
      SameFirst(a, b);
      WithoutFirst(a);
      WithoutFirst(b);
      SameSorting(a[1..], b[1..]);
    }
  }

  lemma WithoutFirst(a: seq<Bucket>)
    requires |a| > 0 && Unique(a) && InOrder(a)
    ensures Unique(a[1..]) && InOrder(a[1..]) && a == [a[0]] + a[1..]
    ensures multiset(a[1..]) == multiset(a) - multiset{a[0]}
  {
    assert a == [a[0]] + a[1..];
  }

  lemma SameFirst(a: seq<Bucket>, b: seq<Bucket>)
    requires |a| > 0 && |b| > 0 && Unique(a) && multiset(a) == multiset(b)
    requires ComesFirst(a[0], b[0]) && ComesFirst(b[0], a[0])
    ensures a[0] == b[0]
  {
    assert b[0] in multiset(a);
    var i :| 0 <= i < |a| && a[i] == b[0];
    assert i > 0 ==> !Serves(a[i], a[0].category, a[0].alignment);
  }

  // ---------- From one pass to the next ----------

  lemma PutLayable(bs: seq<Bucket>, b: Bucket)
    requires Layable(bs) && b.start <= b.end
    ensures Layable(Put(bs, b))
  {
  }

  lemma {:induction false} ServedLayable(st: State, rs: seq<Request>)
    requires Layable(st.buckets)
    ensures Layable(ServeAll(st, rs).buckets)
  {
    hide Put, Bump;
    if |rs| > 0 {
      var mid, last := ServeAll(st, rs[..|rs| - 1]), rs[|rs| - 1];
      ServedLayable(st, rs[..|rs| - 1]);
      var b := BucketFor(mid.buckets, last.category, Alignment(last));
      BumpKeeps(b, last.size);
      PutLayable(mid.buckets, Bump(b, last.size));
    }
  }

  // What a pass starts from.
  ghost predicate Fresh(st: State) {
    Unique(st.buckets) && Untouched(st.buckets) && Layable(st.buckets) && !st.retry
  }

  // The pass after one that made the requests `rs`: the buckets sorted and laid out.
  ghost predicate LaidAnew(c: Plan, st: State, rs: seq<Request>, bs: seq<Bucket>, st': State)
    requires c.page > 0
  {
    && SortingOf(bs, ServeAll(st, rs).buckets) && Layable(bs)
    && st' == State(BucketsOf(LayAll(c, bs, |bs|).spots), false)
  }

  lemma SortedIsReady(st: State, rs: seq<Request>, bs: seq<Bucket>)
    requires Fresh(st) && SortingOf(bs, ServeAll(st, rs).buckets)
    ensures Layable(bs) && Ordered(bs) && Unique(bs)
  {
    hide Untouched;
    var was := ServeAll(st, rs).buckets;
    ServeAllReplays(st, rs, F, 1);
    PermutedUnique(bs, was);
    ServedLayable(st, rs);
    SortingLayable(bs, was);
  }

  lemma SortingLayable(bs: seq<Bucket>, was: seq<Bucket>)
    requires Layable(was) && SortingOf(bs, was)
    ensures Layable(bs) && Ordered(bs) && |bs| == |was|
  {
    assert |multiset(bs)| == |multiset(was)|;
    forall i | 0 <= i < |bs|
      ensures bs[i].start <= bs[i].end
    {
      assert bs[i] in multiset(was);
    }
  }

  lemma LaidLayable(c: Plan, bs: seq<Bucket>)
    requires GoodPlan(c) && Layable(bs) && Ordered(bs)
    ensures Layable(BucketsOf(LayAll(c, bs, |bs|).spots))
  {
    hide LayAll, Apart, Passed, InLoad, LoadsSound, TipSound, Tight;
    var st := LayAll(c, bs, |bs|);
    LayAllSound(c, bs, |bs|);
    forall i | 0 <= i < |st.spots|
      ensures st.spots[i].bucket.start <= st.spots[i].bucket.end
    {
      assert Placed(c, st.loads, st.spots[i]);
    }
  }

  // How much of a bucket, from an aligned start, the requests take.
  function Taken(rs: seq<Request>, category: Category, alignment: PowerOf2): nat {
    Replay(NewBucket(category, alignment), SizesFor(rs, category, alignment)).current
  }

  // The size of the bucket that serves a category and alignment; that of none is 0.
  ghost function RoomFor(st: State, category: Category, alignment: PowerOf2): int {
    var b := BucketFor(st.buckets, category, alignment);
    b.end - b.start
  }

  lemma TakenIs(st: State, rs: seq<Request>, category: Category, alignment: PowerOf2)
    requires Fresh(st)
    ensures var b := BucketFor(st.buckets, category, alignment);
            BucketFor(ServeAll(st, rs).buckets, category, alignment) ==
            b.(current := b.start + Taken(rs, category, alignment))
  {
    hide BucketFor, SizesFor, Unique, ServeAll;
    var b := BucketFor(st.buckets, category, alignment);
    ServeAllReplays(st, rs, category, alignment);
    ReplayShifted(b, NewBucket(category, alignment), SizesFor(rs, category, alignment));
  }

  // The next pass finds each bucket as large as it was, or as large as this pass would have needed.
  lemma NextRoom(c: Plan, st: State, rs: seq<Request>, bs: seq<Bucket>, st': State)
    requires GoodPlan(c) && Fresh(st) && LaidAnew(c, st, rs, bs, st')
    ensures Fresh(st') && Ordered(bs) && Unique(bs)
    ensures forall category, alignment: PowerOf2 ::
              RoomFor(st', category, alignment) ==
              Larger(RoomFor(st, category, alignment), Taken(rs, category, alignment))
  {
    hide Unique, Untouched, Ordered, Layable, Relaid, LayAll, Taken, ServeAll, BucketFor, SortingOf;
    SortedIsReady(st, rs, bs);
    LayoutRelays(c, bs);
    LaidLayable(c, bs);
    forall category, alignment: PowerOf2
      ensures RoomFor(st', category, alignment) ==
              Larger(RoomFor(st, category, alignment), Taken(rs, category, alignment))
    {
      TakenIs(st, rs, category, alignment);
      SortedServesAlike(st, rs, bs, category, alignment);
      RelaidMeans(bs, st'.buckets, category, alignment);
    }
  }

  function Larger(a: int, b: int): int {
    if a < b then b else a
  }

  lemma SortedServesAlike(st: State, rs: seq<Request>, bs: seq<Bucket>, category: Category, alignment: PowerOf2)
    requires Fresh(st) && SortingOf(bs, ServeAll(st, rs).buckets)
    ensures BucketFor(bs, category, alignment) == BucketFor(ServeAll(st, rs).buckets, category, alignment)
  {
    hide BucketFor, Untouched;
    ServeAllReplays(st, rs, F, 1);
    PermutedServesAlike(bs, ServeAll(st, rs).buckets, category, alignment);
  }

  lemma RelaidMeans(before: seq<Bucket>, after: seq<Bucket>, category: Category, alignment: PowerOf2)
    requires Relaid(before, after)
    ensures RelaidBucket(BucketFor(before, category, alignment), BucketFor(after, category, alignment))
  {
  }

  // A pass needs another one exactly when some bucket is too small for what it asks of it.
  lemma RetryMeansRoom(st: State, rs: seq<Request>)
    requires Fresh(st)
    ensures ServeAll(st, rs).retry <==>
            exists category, alignment: PowerOf2 :: Taken(rs, category, alignment) > RoomFor(st, category, alignment)
  {
    hide Unique, Untouched, Layable, Taken, BucketFor;
    RetryMeansOverflow(st, rs);
    forall i | 0 <= i < |rs|
      ensures Overflows(st, rs, rs[i]) <==>
              Taken(rs, rs[i].category, Alignment(rs[i])) > RoomFor(st, rs[i].category, Alignment(rs[i]))
    {
      OverflowMeansTaken(st, rs, rs[i]);
    }
    forall category, alignment: PowerOf2 | Taken(rs, category, alignment) > RoomFor(st, category, alignment)
      ensures exists i :: 0 <= i < |rs| && rs[i].category == category && Alignment(rs[i]) == alignment
    {
      RoomNotNegative(st, category, alignment);
      TakenBySome(rs, category, alignment);
    }
  }

  lemma RoomNotNegative(st: State, category: Category, alignment: PowerOf2)
    requires Layable(st.buckets)
    ensures RoomFor(st, category, alignment) >= 0
  {
  }

  lemma OverflowMeansTaken(st: State, rs: seq<Request>, r: Request)
    requires Fresh(st)
    ensures Overflows(st, rs, r) <==> Taken(rs, r.category, Alignment(r)) > RoomFor(st, r.category, Alignment(r))
  {
    hide BucketFor, SizesFor, Unique;
    var b := BucketFor(st.buckets, r.category, Alignment(r));
    ReplayShifted(b, NewBucket(r.category, Alignment(r)), SizesFor(rs, r.category, Alignment(r)));
  }

  lemma {:induction false} TakenBySome(rs: seq<Request>, category: Category, alignment: PowerOf2)
    requires SizesFor(rs, category, alignment) != [] || Taken(rs, category, alignment) > 0
    ensures exists i :: 0 <= i < |rs| && rs[i].category == category && Alignment(rs[i]) == alignment
  {
    if |rs| > 0 && !(rs[|rs| - 1].category == category && Alignment(rs[|rs| - 1]) == alignment) {
      TakenBySome(rs[..|rs| - 1], category, alignment);
    }
  }

  // ---------- A whole edit ----------

  // Pass `k` starts from `passes[k]` and makes the requests `asked[k]`.
  ghost predicate IsEdit(c: Plan, passes: seq<State>, asked: seq<seq<Request>>)
    requires c.page > 0
  {
    && |passes| == |asked| > 0
    && passes[0] == State([], false)
    && forall k :: 0 < k < |passes| ==> Succeeds(c, passes[k - 1], asked[k - 1], passes[k])
  }

  ghost predicate Succeeds(c: Plan, st: State, rs: seq<Request>, st': State)
    requires c.page > 0
  {
    exists bs :: LaidAnew(c, st, rs, bs, st')
  }

  // The most that any of the first `k` passes took of a bucket.
  function MostTaken(asked: seq<seq<Request>>, k: nat, category: Category, alignment: PowerOf2): int
    requires k <= |asked|
  {
    if k == 0 then 0 else Larger(MostTaken(asked, k - 1, category, alignment), Taken(asked[k - 1], category, alignment))
  }

  // Before each pass every bucket is exactly as large as the most that was ever asked of it.
  lemma {:induction false} RoomIsMostTaken(c: Plan, passes: seq<State>, asked: seq<seq<Request>>, k: nat)
    requires GoodPlan(c) && IsEdit(c, passes, asked) && k < |passes|
    ensures Fresh(passes[k])
    ensures forall category, alignment: PowerOf2 ::
              RoomFor(passes[k], category, alignment) == MostTaken(asked, k, category, alignment)
  {
    hide Fresh, RoomFor, Taken, LaidAnew;
    if k == 0 {
      FirstPass();
    } else {
      RoomIsMostTaken(c, passes, asked, k - 1);
      assert Succeeds(c, passes[k - 1], asked[k - 1], passes[k]);
      var bs :| LaidAnew(c, passes[k - 1], asked[k - 1], bs, passes[k]);
      NextRoom(c, passes[k - 1], asked[k - 1], bs, passes[k]);
    }
  }

  lemma FirstPass()
    ensures Fresh(State([], false))
    ensures forall category, alignment: PowerOf2 :: RoomFor(State([], false), category, alignment) == 0
  {
  }

  // So a pass must be done again if and only if it asks more of some bucket than every pass
  // before it did.
  lemma RetryExactly(c: Plan, passes: seq<State>, asked: seq<seq<Request>>, k: nat)
    requires GoodPlan(c) && IsEdit(c, passes, asked) && k < |passes|
    ensures ServeAll(passes[k], asked[k]).retry <==>
            exists category, alignment: PowerOf2 ::
              Taken(asked[k], category, alignment) > MostTaken(asked, k, category, alignment)
  {
    hide Fresh, RoomFor, Taken, IsEdit, ServeAll, MostTaken;
    RoomIsMostTaken(c, passes, asked, k);
    assert |passes| == |asked| by { EditLengths(c, passes, asked); }
    RetryMeansRoom(passes[k], asked[k]);
  }

  lemma EditLengths(c: Plan, passes: seq<State>, asked: seq<seq<Request>>)
    requires c.page > 0 && IsEdit(c, passes, asked)
    ensures |passes| == |asked|
  {
  }

  // In particular a pass that asks of every bucket what some pass before it asked is the last.
  lemma RetryConverges(c: Plan, passes: seq<State>, asked: seq<seq<Request>>, j: nat, k: nat)
    requires GoodPlan(c) && IsEdit(c, passes, asked) && j < k < |passes|
    requires forall category, alignment: PowerOf2 ::
               SizesFor(asked[k], category, alignment) == SizesFor(asked[j], category, alignment)
    ensures !ServeAll(passes[k], asked[k]).retry
  {
    hide IsEdit, MostTaken;
    EditLengths(c, passes, asked);
    RetryExactly(c, passes, asked, k);
    forall category, alignment: PowerOf2
      ensures Taken(asked[k], category, alignment) <= MostTaken(asked, k, category, alignment)
    {
      assert Taken(asked[k], category, alignment) == Taken(asked[j], category, alignment);
      MostIsMost(asked, j, k, category, alignment);
    }
  }

  lemma {:induction false} MostIsMost(asked: seq<seq<Request>>, j: nat, k: nat, category: Category, alignment: PowerOf2)
    requires j < k <= |asked|
    ensures Taken(asked[j], category, alignment) <= MostTaken(asked, k, category, alignment)
    decreases k
  {
    if j < k - 1 {
      MostIsMost(asked, j, k - 1, category, alignment);
    }
  }

  // Over a whole edit no bucket gets smaller.
  lemma {:induction false} BucketsNeverShrink(c: Plan, passes: seq<State>, asked: seq<seq<Request>>, j: nat, k: nat,
                                              category: Category, alignment: PowerOf2)
    requires GoodPlan(c) && IsEdit(c, passes, asked) && j <= k < |passes|
    ensures RoomFor(passes[j], category, alignment) <= RoomFor(passes[k], category, alignment)
    decreases k
  {
    hide IsEdit, Fresh, RoomFor, Taken;
    EditLengths(c, passes, asked);
    RoomIsMostTaken(c, passes, asked, k);
    if j < k {
      RoomIsMostTaken(c, passes, asked, k - 1);
      BucketsNeverShrink(c, passes, asked, j, k - 1, category, alignment);
    }
  }
}

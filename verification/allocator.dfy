// The bucketed bump allocator for new file space and new address space. A request that does not
// fit is recorded by `retry`: the whole edit is then done again over larger buckets.
module Allocator {
  import opened Words

  // In the order of the enumeration; the bucket order and the segment flags depend on it.
  datatype Category = F | VR | VRNearX | VRX | VRW | VRWZero

  datatype Bucket = Bucket(category: Category, alignment: PowerOf2, start: nat, current: nat, end: nat)

  // What callers pass as an alignment.
  type Asked = a: nat | a == 0 || IsPow2(a)

  datatype Request = Request(category: Category, alignment: Asked, size: nat)

  // The alignment that a request is served with: none means 1.
  function Alignment(r: Request): PowerOf2 {
    if r.alignment == 0 then 1 else r.alignment
  }

  predicate Serves(b: Bucket, category: Category, alignment: PowerOf2) {
    b.category == category && b.alignment == alignment
  }

  function NewBucket(category: Category, alignment: PowerOf2): Bucket {
    Bucket(category, alignment, 0, 0, 0)
  }

  // ---------- One request against one bucket ----------

  function Result(b: Bucket, size: nat): (r: nat)
  {
    AlignUp(b.current, b.alignment)
  }

  function Bump(b: Bucket, size: nat): (b': Bucket)
  {
    b.(current := Result(b, size) + size)
  }

  // The requests that reach one bucket, in order.
  function Replay(b: Bucket, sizes: seq<nat>): (b': Bucket)
    ensures b' == b.(current := b'.current)
  {
    if |sizes| == 0 then b else Bump(Replay(b, sizes[..|sizes| - 1]), sizes[|sizes| - 1])
  }

  lemma {:induction false} ReplayMonotone(b: Bucket, sizes: seq<nat>, n: nat)
    requires n <= |sizes|
    ensures Replay(b, sizes[..n]).current <= Replay(b, sizes).current
  {
    if n < |sizes| {
      var init := sizes[..|sizes| - 1];
      assert init[..n] == sizes[..n];
      ReplayMonotone(b, init, n);
      AlignUpIsLeastMultiple(Replay(b, init).current, b.alignment);
    } else {
      assert sizes[..n] == sizes;
    }
  }

  // How much of a bucket some requests take does not depend on where the bucket lies.
  lemma {:induction false} ReplayShifted(b: Bucket, c: Bucket, sizes: seq<nat>)
    requires b.alignment == c.alignment
    requires b.start % b.alignment == 0 && c.start % c.alignment == 0
    requires b.current == b.start && c.current == c.start
    ensures b.start <= Replay(b, sizes).current
    ensures Replay(b, sizes).current - b.start == Replay(c, sizes).current - c.start
  {
    if |sizes| > 0 {
      var init := sizes[..|sizes| - 1];
      ReplayShifted(b, c, init);
      AlignUpShifted(Replay(b, init).current - b.start, b.start, b.alignment);
      AlignUpShifted(Replay(c, init).current - c.start, c.start, c.alignment);
    }
  }

  // ---------- All buckets ----------

  datatype State = State(buckets: seq<Bucket>, retry: bool)

  // No two buckets serve the same category and alignment.
  ghost predicate Unique(bs: seq<Bucket>) {
    forall i, j :: 0 <= i < j < |bs| ==> !Serves(bs[j], bs[i].category, bs[i].alignment)
  }

  // The first bucket that serves the request, or the position of a new one.
  function Find(bs: seq<Bucket>, category: Category, alignment: PowerOf2): (i: nat)
    ensures i <= |bs|
    ensures i < |bs| ==> Serves(bs[i], category, alignment)
    ensures forall j :: 0 <= j < i ==> !Serves(bs[j], category, alignment)
  {
    if |bs| == 0 then 0
    else
      var i := Find(bs[..|bs| - 1], category, alignment);
      if i < |bs| - 1 || Serves(bs[|bs| - 1], category, alignment) then i else |bs|
  }

  // The bucket that serves a category and alignment; one never asked for is empty.
  function BucketFor(bs: seq<Bucket>, category: Category, alignment: PowerOf2): (b: Bucket)
    ensures Serves(b, category, alignment)
  {
    var i := Find(bs, category, alignment);
    if i < |bs| then bs[i] else NewBucket(category, alignment)
  }

  function Put(bs: seq<Bucket>, b: Bucket): (bs': seq<Bucket>) {
    var i := Find(bs, b.category, b.alignment);
    if i < |bs| then bs[i := b] else bs + [b]
  }

  function Serve(st: State, r: Request): (st': State) {
    var b := Bump(BucketFor(st.buckets, r.category, Alignment(r)), r.size);
    State(Put(st.buckets, b), st.retry || b.current > b.end)
  }

  // What the request returns: an address, or 0 when the request does not fit.
  function Answer(st: State, r: Request): (address: nat) {
    var b := BucketFor(st.buckets, r.category, Alignment(r));
    if Bump(b, r.size).current > b.end then 0 else Result(b, r.size)
  }

  function ServeAll(st: State, rs: seq<Request>): (st': State) {
    if |rs| == 0 then st else Serve(ServeAll(st, rs[..|rs| - 1]), rs[|rs| - 1])
  }

  // The sizes asked of one bucket, in order.
  function SizesFor(rs: seq<Request>, category: Category, alignment: PowerOf2): (sizes: seq<nat>) {
    if |rs| == 0 then []
    else
      var last := rs[|rs| - 1];
      SizesFor(rs[..|rs| - 1], category, alignment) +
      (if last.category == category && Alignment(last) == alignment then [last.size] else [])
  }

  lemma PutGet(bs: seq<Bucket>, b: Bucket, category: Category, alignment: PowerOf2)
    requires Unique(bs)
    ensures Unique(Put(bs, b))
    ensures BucketFor(Put(bs, b), category, alignment) ==
            if Serves(b, category, alignment) then b else BucketFor(bs, category, alignment)
  {
    var i := Find(bs, b.category, b.alignment);
    var bs' := Put(bs, b);
    var k, k' := Find(bs, category, alignment), Find(bs', category, alignment);
    if Serves(b, category, alignment) {
      assert Serves(bs'[i], category, alignment);
      assert k' == i;
    } else if k < |bs| {
      assert Serves(bs'[k], category, alignment);
      assert k' == k;
    }
  }

  lemma ReplayAppend(b: Bucket, sizes: seq<nat>, size: nat)
    ensures Replay(b, sizes + [size]) == Bump(Replay(b, sizes), size)
  {
    assert (sizes + [size])[..|sizes|] == sizes;
  }

  lemma SizesForAppend(rs: seq<Request>, r: Request, category: Category, alignment: PowerOf2)
    ensures SizesFor(rs + [r], category, alignment) ==
            SizesFor(rs, category, alignment) +
            (if r.category == category && Alignment(r) == alignment then [r.size] else [])
  {
    assert (rs + [r])[..|rs + [r]| - 1] == rs;
  }

  lemma ServeAllAppend(st: State, rs: seq<Request>, r: Request)
    ensures ServeAll(st, rs + [r]) == Serve(ServeAll(st, rs), r)
  {
    assert (rs + [r])[..|rs + [r]| - 1] == rs;
  }

  // Each bucket sees the requests made of it and no others.
  lemma {:induction false} ServeAllReplays(st: State, rs: seq<Request>, category: Category, alignment: PowerOf2)
    requires Unique(st.buckets)
    ensures Unique(ServeAll(st, rs).buckets)
    ensures BucketFor(ServeAll(st, rs).buckets, category, alignment) ==
            Replay(BucketFor(st.buckets, category, alignment), SizesFor(rs, category, alignment))
  {
    hide Unique, BucketFor, Put, Bump;
    if |rs| > 0 {
      var init, last := rs[..|rs| - 1], rs[|rs| - 1];
      assert rs == init + [last];
      var mid := ServeAll(st, init);
      var b := BucketFor(mid.buckets, last.category, Alignment(last));
      ServeAllReplays(st, init, category, alignment);
      ServeAllAppend(st, init, last);
      SizesForAppend(init, last, category, alignment);
      BumpKeeps(b, last.size);
      PutGet(mid.buckets, Bump(b, last.size), category, alignment);
      ReplayAppend(BucketFor(st.buckets, category, alignment), SizesFor(init, category, alignment), last.size);
      var sizes, was := SizesFor(init, category, alignment), BucketFor(st.buckets, category, alignment);
      if last.category == category && Alignment(last) == alignment {
        assert BucketFor(ServeAll(st, rs).buckets, category, alignment) == Bump(b, last.size);
        assert b == Replay(was, sizes);
      } else {
        assert BucketFor(ServeAll(st, rs).buckets, category, alignment) == BucketFor(mid.buckets, category, alignment);
        assert SizesFor(rs, category, alignment) == sizes;
      }
    }
  }

  lemma BumpKeeps(b: Bucket, size: nat)
    ensures Bump(b, size) == b.(current := Bump(b, size).current)
  {
  }

  // ---------- Retry ----------

  // The requests drive the bucket that serves `r` beyond its end.
  ghost predicate Overflows(st: State, rs: seq<Request>, r: Request) {
    var b := BucketFor(st.buckets, r.category, Alignment(r));
    Replay(b, SizesFor(rs, r.category, Alignment(r))).current > b.end
  }

  ghost predicate SameBucket(q: Request, r: Request) {
    q.category == r.category && Alignment(q) == Alignment(r)
  }

  lemma OverflowStep(st: State, init: seq<Request>, last: Request, r: Request)
    ensures Overflows(st, init, r) ==> Overflows(st, init + [last], r)
    ensures Overflows(st, init + [last], r) ==>
              Overflows(st, init, r) || (SameBucket(last, r) && Overflows(st, init + [last], last))
  {
    hide BucketFor, SizesFor;
    var a := Alignment(r);
    var b := BucketFor(st.buckets, r.category, a);
    var sizes := SizesFor(init, r.category, a);
    SizesForAppend(init, last, r.category, a);
    assert SameBucket(last, r) || SizesFor(init + [last], r.category, a) == sizes;
    ReplayAppend(b, sizes, last.size);
    AlignUpIsLeastMultiple(Replay(b, sizes).current, a);
  }

  lemma ServeOverflows(st: State, init: seq<Request>, last: Request)
    requires Unique(st.buckets)
    ensures ServeAll(st, init + [last]).retry <==> ServeAll(st, init).retry || Overflows(st, init + [last], last)
  {
    hide Unique, BucketFor, Put, SizesFor, ServeAll;
    var a := Alignment(last);
    SizesForAppend(init, last, last.category, a);
    ServeAllAppend(st, init, last);
    ServeAllReplays(st, init, last.category, a);
    ReplayAppend(BucketFor(st.buckets, last.category, a), SizesFor(init, last.category, a), last.size);
  }

  // A pass asks for a retry exactly when one of the buckets it uses ends up beyond its end.
  lemma {:induction false} RetryMeansOverflow(st: State, rs: seq<Request>)
    requires Unique(st.buckets)
    ensures ServeAll(st, rs).retry <==> st.retry || exists i :: 0 <= i < |rs| && Overflows(st, rs, rs[i])
  {
    hide Unique, Overflows, Serve;
    if |rs| > 0 {
      var n := |rs| - 1;
      var init, last := rs[..n], rs[n];
      assert rs == init + [last];
      RetryMeansOverflow(st, init);
      ServeOverflows(st, init, last);
      forall i | 0 <= i < n
        ensures Overflows(st, init, init[i]) ==> Overflows(st, rs, rs[i])
        ensures Overflows(st, rs, rs[i]) ==> Overflows(st, init, init[i]) || Overflows(st, rs, last)
      {
        OverflowStep(st, init, last, rs[i]);
      }
    }
  }

  // Laying the buckets out anew: each keeps what it serves, starts aligned, and is as large as
  // it was or as what was asked of it.
  ghost predicate RelaidBucket(b: Bucket, c: Bucket) {
    && Serves(c, b.category, b.alignment)
    && c.current == c.start && c.start % b.alignment == 0
    && c.end - c.start == (if b.current > b.end then b.current else b.end) - b.start
  }

  ghost predicate Relaid(before: seq<Bucket>, after: seq<Bucket>) {
    forall category, alignment: PowerOf2 ::
      RelaidBucket(BucketFor(before, category, alignment), BucketFor(after, category, alignment))
  }

  // Before a pass, nothing is allocated in any bucket.
  ghost predicate Untouched(bs: seq<Bucket>) {
    forall category, alignment: PowerOf2 ::
      var b := BucketFor(bs, category, alignment);
      b.current == b.start && b.start % alignment == 0
  }

  // ---------- What a pass without retry hands out ----------

  function AnswerAt(st: State, rs: seq<Request>, i: nat): nat
    requires i < |rs|
  {
    Answer(ServeAll(st, rs[..i]), rs[i])
  }

  lemma {:induction false} ServedWithin(st: State, rs: seq<Request>, i: nat)
    requires Unique(st.buckets) && Untouched(st.buckets) && i < |rs| && !ServeAll(st, rs).retry
    ensures var b := BucketFor(st.buckets, rs[i].category, Alignment(rs[i]));
            && (rs[i].alignment > 0 ==> AnswerAt(st, rs, i) % rs[i].alignment == 0)
            && b.start <= AnswerAt(st, rs, i)
            && AnswerAt(st, rs, i) + rs[i].size ==
               Replay(b, SizesFor(rs[..i + 1], rs[i].category, Alignment(rs[i]))).current <= b.end
  {
    hide Unique, BucketFor, Put, SizesFor;
    var r, a := rs[i], Alignment(rs[i]);
    var b := BucketFor(st.buckets, r.category, a);
    RetryStays(st, rs, i + 1);
    assert rs[..i + 1] == rs[..i] + [r];
    ServeOverflows(st, rs[..i], r);
    ServeAllReplays(st, rs[..i], r.category, a);
    var sizes := SizesFor(rs[..i], r.category, a);
    SizesForAppend(rs[..i], r, r.category, a);
    ReplayAppend(b, sizes, r.size);
    AlignUpIsLeastMultiple(Replay(b, sizes).current, a);
    ReplayMonotone(b, sizes, 0);
    assert sizes[..0] == [];
  }

  lemma {:induction false} RetryStays(st: State, rs: seq<Request>, n: nat)
    requires n <= |rs| && !ServeAll(st, rs).retry
    ensures !ServeAll(st, rs[..n]).retry
    decreases |rs|
  {
    if n < |rs| {
      RetryStays(st, rs[..|rs| - 1], n);
      assert rs[..|rs| - 1][..n] == rs[..n];
    } else {
      assert rs[..n] == rs;
    }
  }

  // Two requests to one bucket never overlap; those to different buckets lie in different buckets.
  lemma ServedDisjoint(st: State, rs: seq<Request>, i: nat, j: nat)
    requires Unique(st.buckets) && Untouched(st.buckets) && i < j < |rs| && !ServeAll(st, rs).retry
    requires SameBucket(rs[i], rs[j])
    ensures AnswerAt(st, rs, i) + rs[i].size <= AnswerAt(st, rs, j)
  {
    hide Unique, BucketFor, Serve, ServeAll, SizesFor, Untouched;
    var r, a := rs[j], Alignment(rs[j]);
    var b := BucketFor(st.buckets, r.category, a);
    ServedWithin(st, rs, i);
    ServedWithin(st, rs, j);
    SizesForPrefix(rs, i + 1, j, r.category, a);
    var sizes, k := SizesFor(rs[..j], r.category, a), |SizesFor(rs[..i + 1], r.category, a)|;
    ReplayMonotone(b, sizes, k);
    assert sizes[..k] == SizesFor(rs[..i + 1], r.category, a);
    assert rs[..j + 1] == rs[..j] + [r];
    SizesForAppend(rs[..j], r, r.category, a);
    ReplayAppend(b, sizes, r.size);
    AlignUpIsLeastMultiple(Replay(b, sizes).current, a);
  }

  lemma {:induction false} SizesForPrefix(rs: seq<Request>, m: nat, n: nat, category: Category, alignment: PowerOf2)
    requires m <= n <= |rs|
    ensures SizesFor(rs[..m], category, alignment) <= SizesFor(rs[..n], category, alignment)
    decreases n
  {
    if m < n {
      SizesForPrefix(rs, m, n - 1, category, alignment);
      assert rs[..n][..n - 1] == rs[..n - 1];
    }
  }

  // ---------- The allocator ----------

  class AllocBuckets {
    var buckets: seq<Bucket>
    var retry: bool

    ghost function Now(): State
      reads this
    {
      State(buckets, retry)
    }

    // The bucket that serves the request, made if there is none yet.
    method FindBucket(category: Category, alignment: PowerOf2) returns (i: nat)
      modifies this`buckets
      ensures i == Find(old(buckets), category, alignment) && i < |buckets|
      ensures buckets[i] == BucketFor(old(buckets), category, alignment)
      ensures buckets == Put(old(buckets), buckets[i])
    {
      i := 0;
      while i < |buckets|
        invariant i <= |buckets| && buckets == old(buckets)
        invariant forall j :: 0 <= j < i ==> !Serves(buckets[j], category, alignment)
      {
        if Serves(buckets[i], category, alignment) {
          return;
        }
        i := i + 1;
      }
      buckets := buckets + [NewBucket(category, alignment)];
    }

    // Bumps the bucket's fill mark; what does not fit is answered by 0 and remembered by `retry`.
    // The bucket is one of the category and alignment that are asked for, and no other changes.
    method Alloc(category: Category, alignment: Asked, size: nat) returns (result: nat)
      modifies this
      ensures Now() == Serve(old(Now()), Request(category, alignment, size))
      ensures result == Answer(old(Now()), Request(category, alignment, size))
      ensures ServedAsAsked(old(buckets), buckets, old(retry), retry, category, alignment, size, result)
    {
      hide AlignUp, IsPow2, ServedAsAsked;
      ghost var was := Now();
      var a: PowerOf2 := if alignment == 0 then OneIsPow2(); 1 else alignment;
      var i := FindBucket(category, a);
      var b := buckets[i];
      result := AlignUp(b.current, a);
      buckets := buckets[i := b.(current := result + size)];
      if buckets[i].current > b.end {
        retry := true;
        result := 0;
      }
      AnsweredAsAsked(was, category, alignment, size);
    }
  }

  // ---------- One request in its own terms ----------

  // One bucket of what is asked for is bumped, and no other changes.
  predicate ServedAsAsked(bs: seq<Bucket>, bs': seq<Bucket>, retry: bool, retry': bool, category: Category,
                          alignment: nat, size: nat, result: nat)
  {
    && |bs| <= |bs'| <= |bs| + 1
    && (forall j :: 0 <= j < |bs| && !IsAskedFor(bs[j], category, alignment) ==> bs'[j] == bs[j])
    && exists i :: 0 <= i < |bs'| && IsAskedFor(bs'[i], category, alignment) &&
         Bumped(if i < |bs| then bs[i].current else 0, bs'[i], size, alignment, result, retry, retry')
  }

  // The bucket is of the category, and of the alignment or, if none is asked for, of alignment 1.
  predicate IsAskedFor(b: Bucket, category: Category, alignment: nat) {
    b.category == category && if alignment == 0 then b.alignment == 1 else b.alignment == alignment
  }

  // What is given lies behind the old fill mark, at the first multiple of the alignment, and within
  // the bucket; or it does not fit, and a retry is needed.
  predicate Bumped(was: nat, b: Bucket, size: nat, alignment: nat, result: nat, retry: bool, retry': bool) {
    if b.current <= b.end then
      && result + size == b.current && was <= result && retry' == retry
      && (alignment == 0 ==> result == was)
      && (alignment > 0 ==> result < was + alignment && result % alignment == 0)
    else result == 0 && retry'
  }

  lemma OneIsPow2()
    ensures IsPow2(1)
  {
  }

  lemma AnsweredAsAsked(st: State, category: Category, alignment: Asked, size: nat)
    ensures var r := Request(category, alignment, size);
            ServedAsAsked(st.buckets, Serve(st, r).buckets, st.retry, Serve(st, r).retry, category, alignment, size,
                          Answer(st, r))
  {
    hide AlignUp, IsPow2;
    var r := Request(category, alignment, size);
    var a := Alignment(r);
    var i, b := Find(st.buckets, category, a), BucketFor(st.buckets, category, a);
    AlignUpIsLeastMultiple(b.current, a);
    var bs' := Serve(st, r).buckets;
    assert bs'[i] == Bump(b, size);
    assert Bumped(if i < |st.buckets| then st.buckets[i].current else 0, bs'[i], size, alignment, Answer(st, r),
                  st.retry, Serve(st, r).retry);
  }
}

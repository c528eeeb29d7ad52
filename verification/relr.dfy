// Packed relative relocations: their expansion, the startup walker, and why they agree.
module Relr {
  import opened Words

  // ---------- Bits of a word ----------

  function Popcount(w: nat): nat {
    if w == 0 then 0 else w % 2 + Popcount(w / 2)
  }

  // The number of the lowest one bit.
  function Lowest(w: nat): nat
    requires w > 0
  {
    if w % 2 == 1 then 0 else 1 + Lowest(w / 2)
  }

  lemma {:induction false} ClearingCounts(w: nat)
    requires w > 0
    ensures Popcount(ClearLowest(w)) == Popcount(w) - 1
  {
    if w % 2 == 0 {
      ClearingCounts(w / 2);
      var r := ClearLowest(w / 2);
      assert r > 0 ==> (2 * r) / 2 == r && (2 * r) % 2 == 0;
    } else {
      assert w - 1 > 0 ==> (w - 1) / 2 == w / 2;
    }
  }

  // ---------- What a table denotes ----------

  function Wrap(a: int): u64 {
    a % TWO_64
  }

  // One address per one bit, 8 apart.
  function BitTargets(w: nat, addr: u64): (ts: seq<u64>)
    ensures |ts| == Popcount(w)
  {
    if w == 0 then [] else (if w % 2 == 1 then [addr] else []) + BitTargets(w / 2, Wrap(addr + 8))
  }

  // The addresses that one word stands for: an even word is an address, an odd one a set of
  // places behind the last address.
  function WordTargets(word: u64, addr: u64): (ts: seq<u64>) {
    if word % 2 == 1 then BitTargets(word / 2, addr) else [word]
  }

  function NextAddress(word: u64, addr: u64): u64 {
    if word % 2 == 1 then Wrap(addr + 63 * 8) else Wrap(word + 8)
  }

  // Where the next word continues after `n` words, when the first continues from `start`.
  function AddressAfter(words: seq<u64>, start: u64, n: nat): u64
    requires n <= |words|
  {
    if n == 0 then start else NextAddress(words[n - 1], AddressAfter(words, start, n - 1))
  }

  function Targets(words: seq<u64>, start: u64, n: nat): (ts: seq<u64>)
    requires n <= |words|
  {
    if n == 0 then [] else Targets(words, start, n - 1) + WordTargets(words[n - 1], AddressAfter(words, start, n - 1))
  }

  // ---------- Memory ----------

  function Le64(w: u64): (s: seq<u8>)
    ensures |s| == 8
  {
    Le32(w % TWO_32) + Le32(w / TWO_32)
  }

  function FromLe64(s: seq<u8>): (w: u64)
    requires |s| == 8
  {
    FromLe32(s[..4]) + FromLe32(s[4..]) * TWO_32
  }

  lemma Le64RoundTrip(w: u64)
    ensures FromLe64(Le64(w)) == w
  {
    Le32RoundTrip(w % TWO_32);
    Le32RoundTrip(w / TWO_32);
    assert Le64(w)[..4] == Le32(w % TWO_32) && Le64(w)[4..] == Le32(w / TWO_32);
  }

  // The address lies in the image with the 7 after it.
  predicate Inside(a: nat, size: nat) {
    a + 8 <= size
  }

  function Load(mem: seq<u8>, a: nat): u64
    requires Inside(a, |mem|)
  {
    FromLe64(mem[a..a + 8])
  }

  function Store(mem: seq<u8>, a: nat, w: u64): (mem': seq<u8>)
    requires Inside(a, |mem|)
    ensures |mem'| == |mem|
  {
    mem[..a] + Le64(w) + mem[a + 8..]
  }

  predicate Disjoint(a: nat, b: nat) {
    a + 8 <= b || b + 8 <= a
  }

  lemma LoadStored(mem: seq<u8>, a: nat, w: u64, b: nat)
    requires Inside(a, |mem|) && Inside(b, |mem|)
    ensures Load(Store(mem, a, w), a) == w
    ensures Disjoint(a, b) ==> Load(Store(mem, a, w), b) == Load(mem, b)
  {
    hide FromLe64, Le64;
    Le64RoundTrip(w);
    assert Store(mem, a, w)[a..a + 8] == Le64(w);
    if Disjoint(a, b) {
      assert Store(mem, a, w)[b..b + 8] == mem[b..b + 8];
    }
  }

  // ---------- Applying ----------

  datatype Rela = Rela(offset: u64, addend: u64)

  ghost predicate AllInside(ts: seq<u64>, size: nat) {
    forall i :: 0 <= i < |ts| ==> Inside(ts[i], size)
  }

  // What the format asks for: add the bias to every word in turn.
  function ApplyRelr(mem: seq<u8>, ts: seq<u64>, n: nat, bias: u64): (mem': seq<u8>)
    requires n <= |ts| && AllInside(ts, |mem|)
    ensures |mem'| == |mem|
  {
    if n == 0 then mem
    else
      var m := ApplyRelr(mem, ts, n - 1, bias);
      Store(m, ts[n - 1], Wrap(Load(m, ts[n - 1]) + bias))
  }

  ghost predicate OffsetsInside(rs: seq<Rela>, size: nat) {
    forall i :: 0 <= i < |rs| ==> Inside(rs[i].offset, size)
  }

  // What RELATIVE relocations do: each word becomes its addend plus the bias.
  function ApplyRela(mem: seq<u8>, rs: seq<Rela>, n: nat, bias: u64): (mem': seq<u8>)
    requires n <= |rs| && OffsetsInside(rs, |mem|)
    ensures |mem'| == |mem|
  {
    if n == 0 then mem else Store(ApplyRela(mem, rs, n - 1, bias), rs[n - 1].offset, Wrap(rs[n - 1].addend + bias))
  }

  // The word of the file image at an address; zero outside of the image.
  function ImageByte(image: seq<u8>, a: nat): u8 {
    if a % TWO_64 < |image| then image[a % TWO_64] else 0
  }

  function ImageWord(image: seq<u8>, a: u64): u64 {
    FromLe64(seq<u8>(8, k requires 0 <= k < 8 => ImageByte(image, a + k)))
  }

  lemma ImageWordInside(image: seq<u8>, a: u64)
    requires Inside(a, |image|) && |image| <= TWO_64
    ensures ImageWord(image, a) == Load(image, a)
  {
    var s := seq<u8>(8, k requires 0 <= k < 8 => ImageByte(image, a + k));
    forall k | 0 <= k < 8
      ensures s[k] == image[a..a + 8][k]
    {
      var at: nat := a as nat + k;
      assert at % TWO_64 == at;
      assert s[k] == ImageByte(image, at);
    }
    assert s == image[a..a + 8];
  }

  function Relative(image: seq<u8>, a: u64): Rela {
    Rela(a, ImageWord(image, a))
  }

  // The relocations that the table is expanded into.
  function Expansion(image: seq<u8>, ts: seq<u64>): (rs: seq<Rela>)
    ensures |rs| == |ts| && forall i :: 0 <= i < |rs| ==> rs[i] == Relative(image, ts[i])
  {
    seq<Rela>(|ts|, i requires 0 <= i < |ts| => Relative(image, ts[i]))
  }

  // Each relocation has the target's address, and for its addend the bytes of the image that lie
  // there; those outside of the image count as zero.
  lemma ExpansionReads(image: seq<u8>, ts: seq<u64>, i: nat, k: nat)
    requires i < |ts| && k < 8
    ensures var r, at := Expansion(image, ts)[i], (ts[i] + k) % TWO_64;
            r.offset == ts[i] && Le64(r.addend)[k] == if at < |image| then image[at] else 0
  {
    hide Le64, FromLe64, ImageByte;
    var s := seq<u8>(8, j requires 0 <= j < 8 => ImageByte(image, ts[i] + j));
    FromLe64RoundTrip(s);
    assert Expansion(image, ts)[i] == Relative(image, ts[i]);
    assert s[k] == ImageByte(image, ts[i] + k);
    ImageByteIs(image, ts[i] + k);
  }

  lemma ImageByteIs(image: seq<u8>, a: nat)
    ensures var at := a % TWO_64; ImageByte(image, a) == if at < |image| then image[at] else 0
  {
  }

  lemma FromLe64RoundTrip(s: seq<u8>)
    requires |s| == 8
    ensures Le64(FromLe64(s)) == s
  {
    hide FromLe32, Le32;
    FromLe32RoundTrip(s[..4]);
    FromLe32RoundTrip(s[4..]);
    var lo, hi := FromLe32(s[..4]), FromLe32(s[4..]);
    var w := FromLe64(s);
    assert w % TWO_32 == lo && w / TWO_32 == hi;
    assert s == s[..4] + s[4..];
  }

  lemma FromLe32RoundTrip(s: seq<u8>)
    requires |s| == 4
    ensures Le32(FromLe32(s)) == s
  {
    var a, b, c, d := s[0] as int, s[1] as int, s[2] as int, s[3] as int;
    var w := a + 0x100 * (b + 0x100 * (c + 0x100 * d));
    assert FromLe32(s) == w;
    assert w % 0x100 == a && w / 0x100 == b + 0x100 * (c + 0x100 * d);
    assert (w / 0x100) % 0x100 == b && w / 0x1_0000 == c + 0x100 * d;
    assert w / 0x100_0000 == d;
  }

  ghost predicate NonOverlapping(ts: seq<u64>) {
    forall i, j :: 0 <= i < j < |ts| ==> Disjoint(ts[i], ts[j])
  }

  lemma {:induction false} SameSoFar(mem: seq<u8>, ts: seq<u64>, n: nat, bias: u64)
    requires |mem| <= TWO_64 && AllInside(ts, |mem|) && NonOverlapping(ts) && n <= |ts|
    ensures OffsetsInside(Expansion(mem, ts), |mem|)
    ensures ApplyRela(mem, Expansion(mem, ts), n, bias) == ApplyRelr(mem, ts, n, bias)
    ensures forall k :: n <= k < |ts| ==> Load(ApplyRelr(mem, ts, n, bias), ts[k]) == Load(mem, ts[k])
  {
    hide Store, Load, ImageWord;
    if n > 0 {
      SameSoFar(mem, ts, n - 1, bias);
      ImageWordInside(mem, ts[n - 1]);
      var m := ApplyRelr(mem, ts, n - 1, bias);
      forall k | n <= k < |ts|
        ensures Load(ApplyRelr(mem, ts, n, bias), ts[k]) == Load(mem, ts[k])
      {
        LoadStored(m, ts[n - 1], Wrap(Load(m, ts[n - 1]) + bias), ts[k]);
      }
    }
  }

  // Expanding preserves the meaning, for every load bias.
  lemma ExpansionMeans(mem: seq<u8>, words: seq<u64>, bias: u64)
    requires |mem| <= TWO_64
    requires var ts := Targets(words, 0, |words|); AllInside(ts, |mem|) && NonOverlapping(ts)
    ensures var ts := Targets(words, 0, |words|); var rs := Expansion(mem, ts);
            OffsetsInside(rs, |mem|) && ApplyRela(mem, rs, |rs|, bias) == ApplyRelr(mem, ts, |ts|, bias)
  {
    SameSoFar(mem, Targets(words, 0, |words|), |Targets(words, 0, |words|)|, bias);
  }

  // ---------- Overlapping targets ----------

  ghost predicate Aligned(ts: seq<u64>) {
    forall i :: 0 <= i < |ts| ==> ts[i] % 8 == 0
  }

  lemma {:induction false} AmongTwice(ts: seq<u64>, i: nat, j: nat, n: nat)
    requires i < j < n <= |ts| && ts[i] == ts[j]
    ensures Among(ts, ts[i], n) >= 2
  {
    if j < n - 1 {
      AmongTwice(ts, i, j, n - 1);
    } else {
      AmongSome(ts, i, n - 1);
    }
  }

  // With a bias of 1, the format adds 1 to a word as often as the table names it, ...
  lemma {:induction false} AddedTo(mem: seq<u8>, ts: seq<u64>, n: nat, a: u64)
    requires AllInside(ts, |mem|) && Aligned(ts) && a % 8 == 0 && Inside(a, |mem|) && n <= |ts|
    ensures Load(ApplyRelr(mem, ts, n, 1), a) == Wrap(Load(mem, a) + Among(ts, a, n))
  {
    hide Store, Load, Wrap;
    WrapOfWord(Load(mem, a));
    if n > 0 {
      AddedTo(mem, ts, n - 1, a);
      var m := ApplyRelr(mem, ts, n - 1, 1);
      LoadStored(m, ts[n - 1], Wrap(Load(m, ts[n - 1]) + 1), a);
      WrapTwice(Load(mem, a) + Among(ts, a, n - 1), 1);
    }
  }

  // ... and the relocations set it to one more than it was, however often they name it.
  lemma {:induction false} SetTo(mem: seq<u8>, ts: seq<u64>, n: nat, a: u64)
    requires |mem| <= TWO_64 && AllInside(ts, |mem|) && Aligned(ts) && a % 8 == 0 && Inside(a, |mem|) && n <= |ts|
    ensures OffsetsInside(Expansion(mem, ts), |mem|)
    ensures Load(ApplyRela(mem, Expansion(mem, ts), n, 1), a) ==
            if Among(ts, a, n) > 0 then Wrap(Load(mem, a) + 1) else Load(mem, a)
  {
    hide Store, Load, ImageWord, Wrap;
    if n > 0 {
      SetTo(mem, ts, n - 1, a);
      var m := ApplyRela(mem, Expansion(mem, ts), n - 1, 1);
      ImageWordInside(mem, ts[n - 1]);
      LoadStored(m, ts[n - 1], Wrap(ImageWord(mem, ts[n - 1]) + 1), a);
    }
  }

  ghost predicate SameForEveryBias(mem: seq<u8>, ts: seq<u64>)
    requires AllInside(ts, |mem|) && OffsetsInside(Expansion(mem, ts), |mem|)
  {
    forall bias: u64 :: ApplyRela(mem, Expansion(mem, ts), |ts|, bias) == ApplyRelr(mem, ts, |ts|, bias)
  }

  // For aligned targets, the expansion preserves the meaning exactly if no word is named twice.
  lemma ExpansionMeansExactly(mem: seq<u8>, ts: seq<u64>)
    requires |mem| <= TWO_64 && AllInside(ts, |mem|) && Aligned(ts) && |ts| < TWO_64
    ensures OffsetsInside(Expansion(mem, ts), |mem|)
    ensures SameForEveryBias(mem, ts) <==> NonOverlapping(ts)
  {
    hide Load, Store, ApplyRela, ApplyRelr, ImageWord, NonOverlapping;
    if NonOverlapping(ts) {
      forall bias: u64
        ensures ApplyRela(mem, Expansion(mem, ts), |ts|, bias) == ApplyRelr(mem, ts, |ts|, bias)
      {
        SameSoFar(mem, ts, |ts|, bias);
      }
    } else {
      var i, j := OverlapExists(ts);
      AmongTwice(ts, i, j, |ts|);
      AddedTo(mem, ts, |ts|, ts[i]);
      SetTo(mem, ts, |ts|, ts[i]);
      var x, c := Load(mem, ts[i]), Among(ts, ts[i], |ts|);
      assert Wrap(x as int + c) != Wrap(x as int + 1);
      assert ApplyRela(mem, Expansion(mem, ts), |ts|, 1) != ApplyRelr(mem, ts, |ts|, 1);
    }
  }

  lemma OverlapExists(ts: seq<u64>) returns (i: nat, j: nat)
    requires Aligned(ts) && !NonOverlapping(ts)
    ensures i < j < |ts| && ts[i] == ts[j]
  {
    i, j :| i < j < |ts| && !Disjoint(ts[i], ts[j]);
  }

  // ---------- Expanding ----------

  // The relocation table being edited; `base` has room beyond `count`.
  class RelaEditor {
    var base: array<Rela>
    var count: nat

    ghost predicate Valid()
      reads this
    {
      count <= base.Length
    }

    ghost function Contents(): (rs: seq<Rela>)
      reads this, base
      requires Valid()
    {
      base[..count]
    }

    constructor ()
      ensures Valid() && Contents() == [] && fresh(base)
    {
      base := new Rela[1](_ => Rela(0, 0));
      count := 0;
    }

    method Grow()
      requires Valid()
      modifies this`base
      ensures Valid() && Contents() == old(Contents()) && fresh(base)
      ensures base.Length > old(base.Length)
    {
      var bigger := new Rela[if base.Length > 0 then 2 * base.Length else 4](_ => Rela(0, 0));
      forall i | 0 <= i < count {
        bigger[i] := base[i];
      }
      base := bigger;
    }

    // Makes room for `n` more entries.
    method Reserve(n: nat)
      requires Valid()
      modifies this`base
      ensures Valid() && count + n <= base.Length && Contents() == old(Contents())
      ensures base == old(base) || fresh(base)
    {
      if count >= base.Length {
        Grow();
      }
      while base.Length - count < n
        invariant Valid() && Contents() == old(Contents()) && (base == old(base) || fresh(base))
        decreases n - (base.Length - count)
      {
        Grow();
      }
    }
  }

  // The number of relocations, counting the bits of a word by clearing them one by one.
  method CountRelocs(words: seq<u64>) returns (n: nat)
    ensures n == |Targets(words, 0, |words|)|
  {
    hide Targets, WordTargets, BitTargets, Popcount, AddressAfter, ClearLowest;
    n := 0;
    TargetsStart(words, 0);
    BitsStep(0, 0);
    for i := 0 to |words|
      invariant n == |Targets(words, 0, i)|
    {
      var word := words[i];
      TargetsNext(words, 0, i);
      WordAsBits(word, AddressAfter(words, 0, i));
      if word % 2 == 1 {
        var w: nat := word / 2;
        while w != 0
          invariant n + Popcount(w) == |Targets(words, 0, i)| + Popcount(word / 2)
          decreases w
        {
          n := n + 1;
          ClearingCounts(w);
          w := ClearLowest(w);
        }
      } else {
        BitsStep(1, 0);
        n := n + 1;
      }
    }
  }

  lemma ExpansionAppends(image: seq<u8>, ts: seq<u64>, more: seq<u64>)
    ensures Expansion(image, ts + more) == Expansion(image, ts) + Expansion(image, more)
  {
  }

  lemma BitsStep(w: nat, addr: u64)
    ensures BitTargets(w, addr) == (if w % 2 == 1 then [addr] else []) + BitTargets(w / 2, Wrap(addr + 8))
    ensures Popcount(w) == w % 2 + Popcount(w / 2)
    ensures w == 0 ==> BitTargets(w, addr) == [] && Popcount(w) == 0
  {
  }

  // Writes the relocations of one word behind those already written.
  method WriteWord(editor: RelaEditor, dst0: nat, image: seq<u8>, word0: nat, addr0: u64) returns (dst: nat)
    requires dst0 + Popcount(word0) <= editor.base.Length
    modifies editor.base
    ensures dst == dst0 + Popcount(word0)
    ensures editor.base[..dst] == old(editor.base[..dst0]) + Expansion(image, BitTargets(word0, addr0))
  {
    hide Expansion, Relative, BitTargets, Popcount;
    var word, addr := word0, addr0;
    dst := dst0;
    ghost var done: seq<u64> := [];
    ExpansionOfNone(image);
    assert done + BitTargets(word, addr) == BitTargets(word0, addr0);
    while word != 0
      invariant dst + Popcount(word) == dst0 + Popcount(word0)
      invariant done + BitTargets(word, addr) == BitTargets(word0, addr0)
      invariant editor.base[..dst] == old(editor.base[..dst0]) + Expansion(image, done)
      decreases word
    {
      BitsStep(word, addr);
      if word % 2 == 1 {
        ghost var was := editor.base[..dst];
        editor.base[dst] := Relative(image, addr);
        assert editor.base[..dst + 1] == was + [Relative(image, addr)];
        ExpansionAppends(image, done, [addr]);
        ExpansionOfOne(image, addr);
        JoinMoves(done, [addr], BitTargets(word / 2, Wrap(addr as int + 8)));
        done := done + [addr];
        dst := dst + 1;
      } else {
        JoinMoves(done, [], BitTargets(word / 2, Wrap(addr as int + 8)));
      }
      addr := Wrap(addr as int + 8);
      word := word / 2;
    }
    BitsStep(word, addr);
    assert done + [] == done;
  }

  lemma JoinMoves<T>(a: seq<T>, b: seq<T>, c: seq<T>)
    ensures a + (b + c) == (a + b) + c
    ensures b == [] ==> a + (b + c) == a + c
  {
    assert b == [] ==> b + c == c;
  }

  lemma ExpansionOfNone(image: seq<u8>)
    ensures Expansion(image, []) == []
  {
  }

  lemma ExpansionOfOne(image: seq<u8>, a: u64)
    ensures Expansion(image, [a]) == [Relative(image, a)]
  {
  }

  lemma {:induction false} TargetsGrow(words: seq<u64>, start: u64, m: nat, n: nat)
    requires m <= n <= |words|
    ensures |Targets(words, start, m)| <= |Targets(words, start, n)|
  {
    hide WordTargets, AddressAfter;
    if m < n {
      TargetsGrow(words, start, m, n - 1);
    }
  }

  // An address stands for itself: one bit, at the address.
  lemma WordAsBits(word: u64, addr: u64)
    ensures WordTargets(word, addr) == if word % 2 == 1 then BitTargets(word / 2, addr) else BitTargets(1, word)
    ensures |WordTargets(word, addr)| == if word % 2 == 1 then Popcount(word / 2) else Popcount(1)
  {
    assert BitTargets(1, word) == [word] + BitTargets(0, Wrap(word + 8));
  }

  // One word of the table.
  method ExpandWord(editor: RelaEditor, dst0: nat, image: seq<u8>, word0: u64, addr0: u64) returns (dst: nat, next: u64)
    requires dst0 + |WordTargets(word0, addr0)| <= editor.base.Length
    modifies editor.base
    ensures dst == dst0 + |WordTargets(word0, addr0)| && next == NextAddress(word0, addr0)
    ensures editor.base[..dst] == old(editor.base[..dst0]) + Expansion(image, WordTargets(word0, addr0))
  {
    hide Expansion, BitTargets, WordTargets, Popcount, Wrap;
    var word, addr := word0, addr0;
    WordAsBits(word, addr);
    if word % 2 == 1 {
      next := Wrap(addr as int + 63 * 8);
      word := word / 2;
    } else {
      addr := word;
      next := Wrap(addr as int + 8);
      word := 1;
    }
    dst := WriteWord(editor, dst0, image, word, addr);
  }

  // Appends the relocations that the table stands for: exactly as many as were counted.
  method ExpandRelr(editor: RelaEditor, image: seq<u8>, words: seq<u64>)
    requires editor.Valid()
    modifies editor, editor.base
    ensures editor.Valid()
    ensures editor.Contents() == old(editor.Contents()) + Expansion(image, Targets(words, 0, |words|))
    ensures editor.base == old(editor.base) || fresh(editor.base)
  {
    hide Expansion, WordTargets, NextAddress, Targets, AddressAfter;
    var n := CountRelocs(words);
    editor.Reserve(n);
    ghost var was := editor.Contents();
    var dst, addr := editor.count, 0;
    var base := editor.base;
    editor.count := editor.count + n;
    TargetsStart(words, 0);
    ExpansionOfNone(image);
    assert was + [] == was;
    for i := 0 to |words|
      invariant editor.base == base && editor.count == |was| + n <= base.Length
      invariant addr == AddressAfter(words, 0, i)
      invariant dst == |was| + |Targets(words, 0, i)| <= base.Length
      invariant base[..dst] == was + Expansion(image, Targets(words, 0, i))
    {
      TargetsNext(words, 0, i);
      TargetsGrow(words, 0, i + 1, |words|);
      ExpansionAppends(image, Targets(words, 0, i), WordTargets(words[i], addr));
      JoinMoves(was, Expansion(image, Targets(words, 0, i)), Expansion(image, WordTargets(words[i], addr)));
      dst, addr := ExpandWord(editor, dst, image, words[i], addr);
    }
  }

  lemma TargetsStart(words: seq<u64>, start: u64)
    ensures Targets(words, start, 0) == [] && AddressAfter(words, start, 0) == start
  {
  }

  lemma TargetsNext(words: seq<u64>, start: u64, i: nat)
    requires i < |words|
    ensures Targets(words, start, i + 1) == Targets(words, start, i) +
            WordTargets(words[i], AddressAfter(words, start, i))
    ensures AddressAfter(words, start, i + 1) == NextAddress(words[i], AddressAfter(words, start, i))
  {
    hide WordTargets, NextAddress;
  }

  // ---------- The walker that runs at startup ----------

  // The lowest `n` bits of `w`, in reverse.
  function Reversed(w: nat, n: nat): (r: nat)
    ensures r < Pow2(n)
  {
    if n == 0 then 0 else (w % 2) * Pow2(n - 1) + Reversed(w / 2, n - 1)
  }

  lemma {:induction false} ReversedWider(w: nat, n: nat)
    requires w < Pow2(n)
    ensures Reversed(w, n + 1) == 2 * Reversed(w, n)
  {
    hide *;
    ReversedStep(w, n + 1);
    Pow2Next(n);
    if n > 0 {
      Pow2Next(n - 1);
      ReversedStep(w, n);
      ReversedWider(w / 2, n - 1);
    } else {
      NothingReversed(w);
    }
  }

  lemma NothingReversed(w: nat)
    ensures Reversed(w, 0) == 0 && Pow2(0) == 1
  {
  }

  lemma Pow2Of64()
    ensures Pow2(64) == TWO_64 && Pow2(63) == TWO_64 / 2
  {
    hide Pow2;
    Pow2Adds(1, 1);
    Pow2Adds(2, 2);
    Pow2Adds(4, 4);
    Pow2Adds(8, 8);
    Pow2Adds(16, 16);
    Pow2Adds(32, 32);
    Pow2Next(0);
    Pow2Next(63);
  }

  lemma Pow2Next(n: nat)
    ensures Pow2(0) == 1 && Pow2(n + 1) == 2 * Pow2(n)
  {
  }

  lemma {:induction false} Pow2Adds(m: nat, n: nat)
    ensures Pow2(m + n) == Pow2(m) * Pow2(n)
  {
    hide Pow2;
    if m == 0 {
      Pow2Next(0);
    } else {
      Pow2Adds(m - 1, n);
      Pow2Next(m - 1);
      Pow2Next(m - 1 + n);
      var p, q := Pow2(m - 1), Pow2(n);
      assert 2 * (p * q) == (2 * p) * q;
    }
  }

  // Shifting the reversed word left shifts the word right; the low bit falls out.
  lemma ShiftedOut(w: u64)
    ensures Reversed(w, 64) >= TWO_64 / 2 <==> w % 2 == 1
    ensures Wrap(2 * Reversed(w, 64)) == Reversed(w / 2, 64)
  {
    hide Reversed, Pow2, Wrap;
    Pow2Of64();
    ReversedWider(w / 2, 63);
    ReversedStep(w, 64);
    DoubleDropsTop(Reversed(w / 2, 63));
  }

  lemma DoubleDropsTop(x: nat)
    requires x < TWO_64 / 2
    ensures Wrap(2 * x) == 2 * x && Wrap(2 * (x + TWO_64 / 2)) == 2 * x
  {
  }

  lemma ReversedStep(w: nat, n: nat)
    requires n > 0
    ensures Reversed(w, n) == (if w % 2 == 1 then Pow2(n - 1) else 0) + Reversed(w / 2, n - 1)
  {
  }

  // The first one bit from the top of the reversed word is the lowest one bit of the word.
  lemma {:induction false} TopIsLowest(v: nat, n: nat)
    requires 0 < v < Pow2(n)
    ensures LeadingZeros(Reversed(v, n), n) == Lowest(v) < n
    ensures Reversed(v, n) == Reversed(ClearLowest(v), n) + Pow2(n - 1 - Lowest(v))
  {
    hide *;
    PowerStep(n, v);
    ReversedStep(v, n);
    ReversedStep(ClearLowest(v), n);
    LeadingZerosStep(Reversed(v, n), n);
    ClearStep(v);
    if v % 2 == 0 {
      TopIsLowest(v / 2, n - 1);
    }
  }

  lemma LeadingZerosStep(x: nat, n: nat)
    requires n > 0
    ensures LeadingZeros(x, n) == if x >= Pow2(n - 1) then 0 else 1 + LeadingZeros(x, n - 1)
  {
  }

  lemma PowerStep(n: nat, v: nat)
    requires 0 < v < Pow2(n)
    ensures n > 0 && Pow2(n) == 2 * Pow2(n - 1)
  {
  }

  lemma {:induction false} ReversedZero(v: nat, n: nat)
    requires v < Pow2(n)
    ensures Reversed(v, n) == 0 <==> v == 0
  {
    if n > 0 {
      hide Reversed;
      ReversedStep(v, n);
      ReversedZero(v / 2, n - 1);
    }
  }

  lemma {:induction false} LowestFirst(v: nat, addr: u64)
    requires v > 0
    ensures BitTargets(v, addr) == [Wrap(addr + 8 * Lowest(v))] + BitTargets(ClearLowest(v), addr)
  {
    hide *;
    var r := ClearLowest(v);
    BitsStep(v, addr);
    BitsStep(r, addr);
    ClearStep(v);
    if v % 2 == 0 {
      LowestFirst(v / 2, Wrap(addr + 8));
      WrapTwice(addr + 8, 8 * Lowest(v / 2));
    } else {
      WrapOfWord(addr);
    }
  }

  lemma ClearStep(v: nat)
    requires v > 0
    ensures v % 2 == 1 ==> ClearLowest(v) == v - 1 && Lowest(v) == 0
    ensures v % 2 == 0 ==> ClearLowest(v) == 2 * ClearLowest(v / 2) && Lowest(v) == 1 + Lowest(v / 2)
    ensures ClearLowest(v) % 2 == 0 && ClearLowest(v) / 2 == if v % 2 == 1 then v / 2 else ClearLowest(v / 2)
  {
  }

  lemma WrapTwice(a: int, b: int)
    ensures Wrap(Wrap(a) + b) == Wrap(a + b)
  {
  }

  lemma WrapSwaps(a: int, b: int, c: int)
    ensures Wrap(Wrap(a + b) + c) == Wrap(Wrap(a + c) + b)
  {
  }

  lemma Rebased(addr: int, bias: int, d: int)
    ensures Wrap(Wrap(addr + bias) + d - bias) == Wrap(addr + d)
  {
  }

  lemma WrapOfWord(a: u64)
    ensures Wrap(a) == a
  {
  }

  lemma Le32OfFrom(s: seq<u8>)
    requires |s| == 4
    ensures Le32(FromLe32(s)) == s
  {
    var a: int, b: int, c: int, d: int := s[0], s[1], s[2], s[3];
    var w := FromLe32(s);
    assert w / 0x100 == b + 0x100 * c + 0x1_0000 * d;
    assert w / 0x1_0000 == c + 0x100 * d;
  }

  // A bias of 0 changes nothing.
  lemma StoreLoaded(mem: seq<u8>, a: nat)
    requires Inside(a, |mem|)
    ensures Store(mem, a, Wrap(Load(mem, a))) == mem
  {
    hide Le32, FromLe32;
    var s := mem[a..a + 8];
    Le32OfFrom(s[..4]);
    Le32OfFrom(s[4..]);
    assert s == s[..4] + s[4..];
    var lo, hi := FromLe32(s[..4]), FromLe32(s[4..]);
    assert (lo + hi * TWO_32) % TWO_32 == lo && (lo + hi * TWO_32) / TWO_32 == hi;
    assert mem == mem[..a] + s + mem[a + 8..];
  }

  lemma {:induction false} NoBias(mem: seq<u8>, ts: seq<u64>, n: nat)
    requires n <= |ts| && AllInside(ts, |mem|)
    ensures ApplyRelr(mem, ts, n, 0) == mem
  {
    hide Store, Load;
    if n > 0 {
      NoBias(mem, ts, n - 1);
      StoreLoaded(mem, ts[n - 1]);
    }
  }

  method AddAt(mem: array<u8>, a: nat, bias: u64)
    requires Inside(a, mem.Length)
    modifies mem
    ensures mem[..] == Store(old(mem[..]), a, Wrap(Load(old(mem[..]), a) + bias))
  {
    hide Le64, FromLe64;
    var w := Wrap(FromLe64(mem[a..a + 8]) as int + bias);
    assert mem[a..a + 8] == mem[..][a..a + 8];
    var bytes := Le64(w);
    forall k | 0 <= k < 8 {
      mem[a + k] := bytes[k];
    }
  }

  // Part of a list of targets.
  ghost predicate ComesAt(ts: seq<u64>, n: nat, more: seq<u64>) {
    n + |more| <= |ts| && ts[n..n + |more|] == more
  }

  lemma ComesFirst(ts: seq<u64>, n: nat, t: u64, more: seq<u64>)
    requires ComesAt(ts, n, [t] + more)
    ensures n < |ts| && ts[n] == t && ComesAt(ts, n + 1, more)
  {
    assert ts[n..n + |[t] + more|][0] == t;
    assert ts[n + 1..n + 1 + |more|] == ts[n..n + |[t] + more|][1..];
  }

  // Patches one word for each one bit of the word that `bits0` is the reverse of.
  method ApplyBits(mem: array<u8>, base: u64, bits0: u64, bias: u64,
                   ghost mem0: seq<u8>, ghost ts: seq<u64>, ghost n0: nat, ghost v0: nat, ghost addr: u64)
    requires |mem0| == mem.Length && AllInside(ts, |mem0|) && v0 < TWO_64 && bits0 == Reversed(v0, 64)
    requires base == Wrap(addr + bias) && ComesAt(ts, n0, BitTargets(v0, addr))
    requires mem[..] == ApplyRelr(mem0, ts, n0, bias)
    modifies mem
    ensures mem[..] == ApplyRelr(mem0, ts, n0 + Popcount(v0), bias)
  {
    hide Reversed, LeadingZeros, BitTargets, Popcount, ComesAt, AllInside, Store, Load, Pow2, ClearLowest, Lowest, Wrap,
         ApplyRelr;
    Pow2Of64();
    var bits := bits0;
    ghost var n: nat, v: nat := n0, v0;
    ReversedZero(v, 64);
    ComesWithin(ts, n, BitTargets(v, addr));
    while bits != 0
      invariant v < TWO_64 && bits == Reversed(v, 64) && n + Popcount(v) == n0 + Popcount(v0) <= |ts|
      invariant ComesAt(ts, n, BitTargets(v, addr))
      invariant mem[..] == ApplyRelr(mem0, ts, n, bias)
      decreases v
    {
      ReversedZero(v, 64);
      TopIsLowest(v, 64);
      LowestFirst(v, addr);
      ClearingCounts(v);
      ComesFirst(ts, n, Wrap(addr + 8 * Lowest(v)), BitTargets(ClearLowest(v), addr));
      TargetInside(ts, n, |mem0|);
      var k := LeadingZeros(bits, 64);
      bits := bits - Pow2(63 - k);
      Rebased(addr, bias, 8 * k);
      AddAt(mem, Wrap(base as int + 8 * k - bias), bias);
      AppliedNext(mem0, ts, n, bias);
      n, v := n + 1, ClearLowest(v);
    }
    ReversedZero(v, 64);
    PopcountZero();
  }

  lemma PopcountZero()
    ensures Popcount(0) == 0
  {
  }

  lemma ComesWithin(ts: seq<u64>, n: nat, more: seq<u64>)
    requires ComesAt(ts, n, more)
    ensures n + |more| <= |ts|
  {
  }

  lemma TargetInside(ts: seq<u64>, n: nat, size: nat)
    requires AllInside(ts, size) && n < |ts|
    ensures Inside(ts[n], size)
  {
  }

  lemma {:induction false} TargetsPrefix(words: seq<u64>, start: u64, i: nat, n: nat)
    requires i < n <= |words|
    ensures ComesAt(Targets(words, start, n), |Targets(words, start, i)|,
                    WordTargets(words[i], AddressAfter(words, start, i)))
  {
    hide WordTargets, AddressAfter;
    if i < n - 1 {
      TargetsPrefix(words, start, i, n - 1);
      var was, more := Targets(words, start, n - 1), WordTargets(words[n - 1], AddressAfter(words, start, n - 1));
      assert forall k :: 0 <= k < |was| ==> (was + more)[k] == was[k];
    }
  }

  lemma NothingYet(mem: seq<u8>, words: seq<u64>, start: u64, bias: u64)
    requires AllInside(Targets(words, start, |words|), |mem|)
    ensures Targets(words, start, 0) == [] && ApplyRelr(mem, Targets(words, start, |words|), 0, bias) == mem
  {
  }

  lemma AppliedNext(mem: seq<u8>, ts: seq<u64>, n: nat, bias: u64)
    requires AllInside(ts, |mem|) && n < |ts|
    ensures Inside(ts[n], |mem|)
    ensures ApplyRelr(mem, ts, n + 1, bias) ==
            Store(ApplyRelr(mem, ts, n, bias), ts[n], Wrap(Load(ApplyRelr(mem, ts, n, bias), ts[n]) + bias))
  {
    hide Store, Load, Wrap;
  }

  // Where the walker starts: at absolute address 0, in terms of link addresses.
  function WalkStart(bias: u64): u64 {
    Wrap(-(bias as int))
  }

  // What the walker leaves of the image: without a bias it does nothing.
  function Walked(mem: seq<u8>, words: seq<u64>, bias: u64): seq<u8>
    requires bias != 0 ==> AllInside(Targets(words, WalkStart(bias), |words|), |mem|)
  {
    if bias == 0 then mem
    else
      var ts := Targets(words, WalkStart(bias), |words|);
      ApplyRelr(mem, ts, |ts|, bias)
  }

  // Applies the table to the loaded image in place; `bias` is the distance from link addresses to
  // loaded ones. The table must not be empty, as the first word is read without looking.
  method ApplyTable(mem: array<u8>, words: seq<u64>, bias: u64)
    requires |words| > 0
    requires bias != 0 ==> AllInside(Targets(words, WalkStart(bias), |words|), mem.Length)
    modifies mem
    ensures mem[..] == Walked(old(mem[..]), words, bias)
  {
    hide Reversed, BitTargets, Popcount, ComesAt, AllInside, Store, Load, ApplyRelr, Targets, Wrap, AddressAfter;
    ghost var mem0, start, ts := mem[..], WalkStart(bias), Targets(words, WalkStart(bias), |words|);
    if bias == 0 {
      return;
    }
    var next, i := 0, 0;
    NothingYet(mem0, words, start, bias);
    TargetsStart(words, start);
    Unbiased(bias);
    while true
      invariant 0 <= i < |words| && next == Wrap(AddressAfter(words, start, i) as int + bias)
      invariant |Targets(words, start, i)| <= |ts| && mem[..] == ApplyRelr(mem0, ts, |Targets(words, start, i)|, bias)
      decreases |words| - i
    {
      var word := words[i];
      ghost var addr, n := AddressAfter(words, start, i), |Targets(words, start, i)|;
      TargetsPrefix(words, start, i, |words|);
      TargetsNext(words, start, i);
      var reversed := Reversed(word, 64);
      var rest := Wrap(2 * reversed);
      ShiftedOut(word);
      i := i + 1;
      if reversed >= TWO_64 / 2 {
        ApplyBits(mem, next, rest, bias, mem0, ts, n, word / 2, addr);
        next := Wrap(next as int + 504);
        WrapSwaps(addr, bias, 504);
      } else {
        next := Wrap(bias as int + word);
        assert [word] + [] == [word];
        ComesFirst(ts, n, word, []);
        TargetInside(ts, n, |mem0|);
        Rebased(word, bias, 0);
        WrapOfWord(word);
        WrapSwaps(word, bias, 8);
        AddAt(mem, Wrap(next as int - bias), bias);
        AppliedNext(mem0, ts, n, bias);
        next := Wrap(next as int + 8);
      }
      ComesWithin(ts, n, WordTargets(word, addr));
      if i == |words| {
        break;
      }
    }
  }

  lemma Unbiased(bias: u64)
    ensures 0 == Wrap(WalkStart(bias) + bias)
  {
  }

  // ---------- Where the walker patches what the format asks for ----------

  // The table has no address among the first `n` words.
  predicate NoAddress(words: seq<u64>, n: nat)
    requires n <= |words|
  {
    forall k :: 0 <= k < n ==> words[k] % 2 == 1
  }

  // No bit is set before the first address.
  predicate NoEarlyBits(words: seq<u64>, n: nat)
    requires n <= |words|
  {
    forall k :: 0 <= k < n && NoAddress(words, k + 1) ==> words[k] / 2 == 0
  }

  // Up to the first address it matters where the table starts, from there on it does not.
  lemma {:induction false} StartMatters(words: seq<u64>, start: u64, other: u64, n: nat)
    requires n <= |words| && NoEarlyBits(words, n)
    ensures Targets(words, start, n) == Targets(words, other, n)
    ensures !NoAddress(words, n) ==> AddressAfter(words, start, n) == AddressAfter(words, other, n)
    ensures NoAddress(words, n) ==> Targets(words, start, n) == []
  {
    hide BitTargets, Wrap, Targets, AddressAfter;
    if n == 0 {
      TargetsStart(words, start);
      TargetsStart(words, other);
    } else {
      StartMatters(words, start, other, n - 1);
      TargetsNext(words, start, n - 1);
      TargetsNext(words, other, n - 1);
      BitsStep(0, AddressAfter(words, start, n - 1));
      BitsStep(0, AddressAfter(words, other, n - 1));
      assert NoAddress(words, n) <==> NoAddress(words, n - 1) && words[n - 1] % 2 == 1;
    }
  }

  lemma {:induction false} EmptyWords(words: seq<u64>, start: u64, n: nat)
    requires n <= |words| && forall k :: 0 <= k < n ==> words[k] == 1
    ensures Targets(words, start, n) == [] && AddressAfter(words, start, n) == Wrap(start + 504 * n)
  {
    hide BitTargets, Wrap, Targets, AddressAfter;
    WrapOfWord(start);
    TargetsStart(words, start);
    if n > 0 {
      EmptyWords(words, start, n - 1);
      TargetsNext(words, start, n - 1);
      BitsStep(0, AddressAfter(words, start, n - 1));
      WrapTwice(start + 504 * (n - 1), 504);
    }
  }

  // The first bit before any address is a target that moves with the start.
  lemma FirstEarlyBit(words: seq<u64>, start: u64, i: nat)
    requires i < |words| && (forall k :: 0 <= k < i ==> words[k] == 1) && words[i] % 2 == 1 && words[i] / 2 != 0
    ensures var ts := Targets(words, start, |words|);
            |ts| > 0 && ts[0] == Wrap(start + 504 * i + 8 * Lowest(words[i] / 2))
  {
    hide BitTargets, Wrap, Lowest, Targets, AddressAfter;
    EmptyWords(words, start, i);
    TargetsPrefix(words, start, i, |words|);
    LowestFirst(words[i] / 2, AddressAfter(words, start, i));
    WrapTwice(start + 504 * i, 8 * Lowest(words[i] / 2));
  }

  lemma FirstEarly(words: seq<u64>, n: nat) returns (i: nat)
    requires n <= |words| && !NoEarlyBits(words, n)
    ensures i < n && (forall k :: 0 <= k < i ==> words[k] == 1) && words[i] % 2 == 1 && words[i] / 2 != 0
  {
    if NoEarlyBits(words, n - 1) {
      i := n - 1;
      forall k | 0 <= k < i
        ensures words[k] == 1
      {
        assert NoAddress(words, n) && NoAddress(words, k + 1);
      }
    } else {
      i := FirstEarly(words, n - 1);
    }
  }

  lemma StartTells(start: u64, d: nat, d': nat)
    requires start != 0
    ensures Wrap(start + 504 * d + 8 * d') != Wrap(0 + 504 * d + 8 * d')
  {
  }

  lemma WalkStartIs(bias: u64)
    ensures WalkStart(bias) == 0 <==> bias == 0
  {
  }

  // Loaded with any bias but 0, the walker patches the words that the format names if and only if
  // no bit is set before the first address.
  lemma WalkerExactly(words: seq<u64>, bias: u64)
    requires bias != 0
    ensures Targets(words, WalkStart(bias), |words|) == Targets(words, 0, |words|) <==> NoEarlyBits(words, |words|)
  {
    hide *;
    WalkStartIs(bias);
    if NoEarlyBits(words, |words|) {
      StartMatters(words, WalkStart(bias), 0, |words|);
    } else {
      FirstsDiffer(words, WalkStart(bias));
    }
  }

  lemma FirstsDiffer(words: seq<u64>, start: u64)
    requires !NoEarlyBits(words, |words|) && start != 0
    ensures Targets(words, start, |words|) != Targets(words, 0, |words|)
  {
    hide *;
    var i := FirstEarly(words, |words|);
    FirstEarlyBit(words, start, i);
    FirstEarlyBit(words, 0, i);
    StartTells(start, i, Lowest(words[i] / 2));
    var a, b := Targets(words, start, |words|), Targets(words, 0, |words|);
    assert a[0] != b[0];
  }

  // Then it leaves the memory that the format asks for, whatever the bias.
  lemma WalkerMeans(mem: seq<u8>, words: seq<u64>, bias: u64)
    requires NoEarlyBits(words, |words|) && AllInside(Targets(words, 0, |words|), |mem|)
    ensures AllInside(Targets(words, WalkStart(bias), |words|), |mem|)
    ensures Walked(mem, words, bias) == ApplyRelr(mem, Targets(words, 0, |words|), |Targets(words, 0, |words|)|, bias)
  {
    hide ApplyRelr, Targets;
    StartMatters(words, WalkStart(bias), 0, |words|);
    if bias == 0 {
      NoBias(mem, Targets(words, 0, |words|), |Targets(words, 0, |words|)|);
    }
  }

  // A table of a single bit: the format names word 0 of the image, the walker patches absolute
  // address 0.
  lemma WalkerMisses(bias: u64)
    requires bias != 0
    ensures Targets([3], 0, 1) == [0] && Targets([3], WalkStart(bias), 1) == [Wrap(-(bias as int))]
    ensures Targets([3], WalkStart(bias), 1) != Targets([3], 0, 1)
  {
    BitsStep(1, 0);
    BitsStep(1, WalkStart(bias));
    TargetsNext([3], 0, 0);
    TargetsNext([3], WalkStart(bias), 0);
  }
}

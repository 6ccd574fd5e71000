/** The incremental allocator: fragments are cut from the blocks one after another, and freed fragments wait
    in one list for each size. */
module IncAllocs {
  import opened Arith

  const MAXFRAGSIZE: nat := 6144
  const FIRSTSIZE: nat := 16384
  const ROUNDUP: nat := 4096

  /** A pointer is a block and an offset into it. */
  datatype Ptr = Ptr(block: nat, off: nat)

  datatype Frag = Frag(p: Ptr, size: nat)

  predicate Apart(a: Frag, b: Frag) {
    a.p.block != b.p.block || a.p.off + a.size <= b.p.off || b.p.off + b.size <= a.p.off
  }

  ghost predicate AllApart(cut: seq<Frag>) {
    forall i, j :: 0 <= i < j < |cut| ==> Apart(cut[i], cut[j])
  }

  function SumSizes(frags: seq<Frag>): nat {
    if frags == [] then 0 else SumSizes(frags[..|frags| - 1]) + frags[|frags| - 1].size
  }

  lemma {:induction false} SumSizesJoin(a: seq<Frag>, b: seq<Frag>)
    ensures SumSizes(a + b) == SumSizes(a) + SumSizes(b)
    decreases |b|
  {
    if b == [] {
      assert a + b == a;
    } else {
      SumSizesJoin(a, b[..|b| - 1]);
      assert (a + b)[..|a + b| - 1] == a + b[..|b| - 1];
    }
  }

  lemma {:induction false} SumToPrefix(s: seq<nat>, t: seq<nat>, k: nat)
    requires k <= |s|
    ensures SumTo(s + t, k) == SumTo(s, k)
  {
    if k > 0 {
      SumToPrefix(s, t, k - 1);
    }
  }

  /** The fragments in the lists of sizes below k, and their bytes. */
  function Listed(list: seq<Ptr>, size: nat): multiset<Frag> {
    if list == [] then multiset{} else Listed(list[..|list| - 1], size) + multiset{Frag(list[|list| - 1], size)}
  }

  function Freed(frags: seq<seq<Ptr>>, k: nat): multiset<Frag>
    requires k <= |frags|
  {
    if k == 0 then multiset{} else Freed(frags, k - 1) + Listed(frags[k - 1], k - 1)
  }

  function FreeBytes(frags: seq<seq<Ptr>>, k: nat): nat
    requires k <= |frags|
  {
    if k == 0 then 0 else FreeBytes(frags, k - 1) + (k - 1) * |frags[k - 1]|
  }

  /** One more pointer in the list of size s. */
  lemma {:induction false} FreedMore(frags: seq<seq<Ptr>>, k: nat, s: nat, p: Ptr)
    requires k <= |frags| && s < |frags|
    ensures Freed(frags[s := frags[s] + [p]], k) == Freed(frags, k) + if s < k then multiset{Frag(p, s)} else multiset{}
  {
    if k > 0 {
      FreedMore(frags, k - 1, s, p);
      if k - 1 == s {
        var list := frags[s] + [p];
        assert list[..|list| - 1] == frags[s];
      }
    }
  }

  lemma {:induction false} FreeBytesMore(frags: seq<seq<Ptr>>, k: nat, s: nat, p: Ptr)
    requires k <= |frags| && s < |frags|
    ensures FreeBytes(frags[s := frags[s] + [p]], k) == FreeBytes(frags, k) + if s < k then s else 0
  {
    if k > 0 {
      FreeBytesMore(frags, k - 1, s, p);
      OneMore(s, |frags[s]|);
    }
  }

  lemma OneMore(s: nat, n: nat)
    ensures s * (n + 1) == s * n + s
  {
  }

  lemma {:induction false} NothingFreed(frags: seq<seq<Ptr>>, k: nat)
    requires k <= |frags| && forall i :: 0 <= i < |frags| ==> frags[i] == []
    ensures Freed(frags, k) == multiset{} && FreeBytes(frags, k) == 0
  {
    if k > 0 {
      NothingFreed(frags, k - 1);
    }
  }

  lemma OneFreed(frags: seq<seq<Ptr>>, s: nat, p: Ptr)
    requires s < |frags|
    ensures var n := frags[s := frags[s] + [p]];
            && Freed(n, |n|) == Freed(frags, |frags|) + multiset{Frag(p, s)}
            && FreeBytes(n, |n|) == FreeBytes(frags, |frags|) + s
  {
    FreedMore(frags, |frags|, s, p);
    FreeBytesMore(frags, |frags|, s, p);
  }

  function Grown(size: nat): (g: nat)
    ensures g > size && g % ROUNDUP == 0 && size * 12 / 10 < g <= size * 12 / 10 + ROUNDUP
  {
    (size * 12 / 10 + ROUNDUP) / ROUNDUP * ROUNDUP
  }

  /** What is known of the fragments: where they lie, apart from each other, and that every one is either
      live or listed as free. `ends` is how much of each filled block was used. */
  datatype Heap = Heap(blocks: seq<nat>, blk: nat, used: nat, frags: seq<seq<Ptr>>, ends: seq<nat>, cut: seq<Frag>,
                       live: seq<Frag>) {
    predicate Shaped() {
      && blk <= |blocks| && |ends| == blk && |frags| == MAXFRAGSIZE + 1
      && (blk == |blocks| ==> used == 0)
      && (blk < |blocks| ==> used <= blocks[blk])
    }

    ghost predicate Tiled()
      requires Shaped()
    {
      && (forall i :: 0 <= i < blk ==> ends[i] <= blocks[i])
      && (forall i :: 0 <= i < |cut| ==> Inside(cut[i]))
      && AllApart(cut)
      && SumSizes(cut) == SumTo(ends, blk) + used
    }

    predicate Inside(f: Frag)
      requires Shaped()
    {
      f.p.block < |blocks| && f.p.block <= blk && f.p.off + f.size <= if f.p.block < blk then ends[f.p.block] else used
    }

    ghost predicate Accounted()
      requires Shaped()
    {
      && multiset(cut) == multiset(live) + Freed(frags, |frags|)
      && SumSizes(cut) == SumSizes(live) + FreeBytes(frags, |frags|)
    }

    ghost predicate Valid() {
      Shaped() && Tiled() && Accounted()
    }
  }

  /** A fragment from a list. */
  function Reuse(h: Heap, size: nat): Heap
    requires size < |h.frags| && h.frags[size] != []
  {
    var list := h.frags[size];
    h.(frags := h.frags[size := list[..|list| - 1]], live := h.live + [Frag(list[|list| - 1], size)])
  }

  lemma ReuseKeeps(h: Heap, size: nat)
    requires h.Valid() && size <= MAXFRAGSIZE && h.frags[size] != []
    ensures Reuse(h, size).Valid()
  {
    hide Freed, FreeBytes, SumSizes, SumTo;
    var n := Reuse(h, size);
    var list := h.frags[size];
    var p := list[|list| - 1];
    assert list[..|list| - 1] + [p] == list;
    assert n.frags[size := n.frags[size] + [p]] == h.frags;
    OneFreed(n.frags, size, p);
    OneSize(h.live, Frag(p, size));
    TiledSame(h, n);
  }

  lemma OneSize(a: seq<Frag>, f: Frag)
    ensures SumSizes(a + [f]) == SumSizes(a) + f.size
  {
    assert (a + [f])[..|a|] == a;
  }

  lemma TiledSame(h: Heap, n: Heap)
    requires h.Shaped() && h.Tiled() && n.Shaped()
    requires n.blocks == h.blocks && n.blk == h.blk && n.used == h.used && n.ends == h.ends && n.cut == h.cut
    ensures n.Tiled()
  {
    assert forall i :: 0 <= i < |n.cut| ==> h.Inside(n.cut[i]) ==> n.Inside(n.cut[i]);
  }

  /** A new fragment at the end of what is used of the current block. */
  function Cut(h: Heap, size: nat): Heap {
    var f := Frag(Ptr(h.blk, h.used), size);
    h.(used := h.used + size, cut := h.cut + [f], live := h.live + [f])
  }

  lemma CutKeeps(h: Heap, size: nat)
    requires h.Valid() && h.blk < |h.blocks| && h.used + size <= h.blocks[h.blk]
    ensures Cut(h, size).Valid()
  {
    hide Freed, FreeBytes, SumSizes, SumTo;
    var n, f := Cut(h, size), Frag(Ptr(h.blk, h.used), size);
    OneSize(h.cut, f);
    OneSize(h.live, f);
    forall i | 0 <= i < |n.cut| ensures n.Inside(n.cut[i]) {
      assert i < |h.cut| ==> h.Inside(h.cut[i]);
    }
    forall i, j | 0 <= i < j < |n.cut| ensures Apart(n.cut[i], n.cut[j]) {
      assert h.Inside(h.cut[i]);
    }
  }

  /** The current block is left with its tail unused. */
  function Skip(h: Heap): Heap {
    h.(blk := h.blk + 1, used := 0, ends := h.ends + [h.used])
  }

  lemma SkipKeeps(h: Heap)
    requires h.Valid() && h.blk < |h.blocks|
    ensures Skip(h).Valid()
  {
    hide Freed, FreeBytes, SumSizes;
    var n := Skip(h);
    SumToPrefix(h.ends, [h.used], h.blk);
    forall i | 0 <= i < |n.cut| ensures n.Inside(n.cut[i]) {
      assert h.Inside(h.cut[i]);
    }
  }

  /** A new block comes last. */
  function Extend(h: Heap, bsize: nat): Heap {
    h.(blocks := h.blocks + [bsize])
  }

  lemma ExtendKeeps(h: Heap, bsize: nat)
    requires h.Valid() && h.blk == |h.blocks|
    ensures Extend(h, bsize).Valid()
  {
    hide Freed, FreeBytes, SumSizes, SumTo;
    var n := Extend(h, bsize);
    forall i | 0 <= i < |n.cut| ensures n.Inside(n.cut[i]) {
      assert h.Inside(h.cut[i]);
    }
  }

  /** A live fragment goes to the list of its size. */
  function Release(h: Heap, k: nat): Heap
    requires k < |h.live| && h.live[k].size < |h.frags|
  {
    var f := h.live[k];
    h.(frags := h.frags[f.size := h.frags[f.size] + [f.p]], live := h.live[..k] + h.live[k + 1..])
  }

  lemma ReleaseKeeps(h: Heap, k: nat)
    requires h.Valid() && k < |h.live| && h.live[k].size <= MAXFRAGSIZE
    ensures Release(h, k).Valid()
  {
    hide Freed, FreeBytes, SumSizes, SumTo;
    var n, f := Release(h, k), h.live[k];
    OneFreed(h.frags, f.size, f.p);
    assert h.live == h.live[..k] + [f] + h.live[k + 1..];
    SumSizesJoin(h.live[..k] + [f], h.live[k + 1..]);
    OneSize(h.live[..k], f);
    SumSizesJoin(h.live[..k], h.live[k + 1..]);
    TiledSame(h, n);
  }

  /** Everything is free again; the blocks stay or go. */
  lemma EmptyValid(blocks: seq<nat>, frags: seq<seq<Ptr>>)
    requires |frags| == MAXFRAGSIZE + 1 && forall i :: 0 <= i < |frags| ==> frags[i] == []
    ensures Heap(blocks, 0, 0, frags, [], [], []).Valid()
  {
    NothingFreed(frags, |frags|);
  }

  /** The first fragment lies inside the first block if and only if it fits the size that was set for it. */
  lemma FirstFitsIff(fsize: nat, size: nat, frags: seq<seq<Ptr>>)
    requires |frags| == MAXFRAGSIZE + 1 && forall i :: 0 <= i < |frags| ==> frags[i] == []
    ensures Cut(Extend(Heap([], 0, 0, frags, [], [], []), fsize), size).Valid() <==> size <= fsize
  {
    var h := Extend(Heap([], 0, 0, frags, [], [], []), fsize);
    EmptyValid([fsize], frags);
    if size <= fsize {
      CutKeeps(h, size);
    }
  }

  /** The largest fragment fits a first block of the default size, but not one of 100 bytes. */
  lemma LargestFirst(frags: seq<seq<Ptr>>)
    requires |frags| == MAXFRAGSIZE + 1 && forall i :: 0 <= i < |frags| ==> frags[i] == []
    ensures Cut(Extend(Heap([], 0, 0, frags, [], [], []), FIRSTSIZE), MAXFRAGSIZE).Valid()
    ensures !Cut(Extend(Heap([], 0, 0, frags, [], [], []), 100), MAXFRAGSIZE).Valid()
  {
    hide Heap.Valid;
    FirstFitsIff(FIRSTSIZE, MAXFRAGSIZE, frags);
    FirstFitsIff(100, MAXFRAGSIZE, frags);
  }

  lemma {:induction false} Somewhere(s: seq<Frag>, f: Frag) returns (a: nat)
    requires f in multiset(s)
    ensures a < |s| && s[a] == f && multiset(s) == multiset(s[..a] + s[a + 1..]) + multiset{f}
  {
    a :| 0 <= a < |s| && s[a] == f;
    assert s == s[..a] + [f] + s[a + 1..];
  }

  /** Any two fragments of a tiling are apart. */
  lemma TwoApart(cut: seq<Frag>, f: Frag, g: Frag)
    requires AllApart(cut) && multiset{f, g} <= multiset(cut)
    ensures Apart(f, g)
  {
    var a := Somewhere(cut, f);
    var rest := cut[..a] + cut[a + 1..];
    assert g in multiset(rest);
    var b := Somewhere(rest, g);
    var c := if b < a then b else b + 1;
    assert cut[c] == g;
  }

  lemma TwoOf(s: seq<Frag>, i: nat, j: nat)
    requires i < j < |s|
    ensures multiset{s[i], s[j]} <= multiset(s)
  {
    assert s == s[..i] + [s[i]] + s[i + 1..j] + [s[j]] + s[j + 1..];
  }

  /** Live fragments overlap neither each other nor any fragment waiting to be reused, and none lies outside
      its block or past what is used of the current one. */
  lemma FragmentsApart(h: Heap)
    requires h.Valid()
    ensures forall i, j :: 0 <= i < j < |h.live| ==> Apart(h.live[i], h.live[j])
    ensures forall i, f :: 0 <= i < |h.live| && f in Freed(h.frags, |h.frags|) ==> Apart(h.live[i], f)
    ensures forall f :: f in multiset(h.live) + Freed(h.frags, |h.frags|) ==>
              && f.p.block < |h.blocks| && f.p.block <= h.blk && f.p.off + f.size <= h.blocks[f.p.block]
              && (f.p.block == h.blk ==> f.p.off + f.size <= h.used)
  {
    hide Freed, FreeBytes, SumSizes, SumTo, AllApart, Apart;
    forall i, j | 0 <= i < j < |h.live| ensures Apart(h.live[i], h.live[j]) {
      TwoOf(h.live, i, j);
      TwoApart(h.cut, h.live[i], h.live[j]);
    }
    forall i, f | 0 <= i < |h.live| && f in Freed(h.frags, |h.frags|) ensures Apart(h.live[i], f) {
      assert h.live[i] in multiset(h.live);
      TwoApart(h.cut, h.live[i], f);
    }
    forall f | f in multiset(h.cut) ensures h.Inside(f) {
      var a := Somewhere(h.cut, f);
    }
  }

  /** The unused tails of the first k blocks. */
  function Tails(h: Heap, k: nat): int
    requires k <= |h.ends| && k <= |h.blocks|
  {
    if k == 0 then 0 else Tails(h, k - 1) + h.blocks[k - 1] - h.ends[k - 1]
  }

  lemma {:induction false} TailsAre(h: Heap, k: nat)
    requires k <= |h.ends| && k <= |h.blocks|
    ensures SumTo(h.blocks, k) == SumTo(h.ends, k) + Tails(h, k)
  {
    if k > 0 {
      TailsAre(h, k - 1);
    }
  }

  /** A place in the first block, from the current one on, that has room for it, or in a new one. */
  ghost predicate FirstWithRoom(blocks: seq<nat>, blk: nat, used: nat, size: nat, p: Ptr) {
    && blk <= p.block <= |blocks| && p.off == (if p.block == blk then used else 0)
    && (p.block < |blocks| ==> p.off + size <= blocks[p.block])
    && forall b :: blk <= b < p.block ==> blocks[b] < (if b == blk then used else 0) + size
  }

  /** The size of a new block: as set for the first, a fifth more than the last for others, and enough. */
  ghost function NewSize(blocks: seq<nat>, first: nat, size: nat): nat {
    if blocks == [] then first
    else if Grown(blocks[|blocks| - 1]) < size then size else Grown(blocks[|blocks| - 1])
  }

  class IncAlloc {
    var blocks: seq<nat>
    var blk: nat
    var used: nat
    const firstsize: nat
    var frags: seq<seq<Ptr>>
    ghost var ends: seq<nat>
    ghost var cut: seq<Frag>
    ghost var live: seq<Frag>

    ghost function View(): Heap
      reads this
    {
      Heap(blocks, blk, used, frags, ends, cut, live)
    }

    ghost predicate Valid()
      reads this
    {
      View().Valid()
    }

    constructor (fsize: nat)
      ensures Valid() && live == [] && blocks == [] && firstsize == fsize
    {
      blocks, blk, used := [], 0, 0;
      firstsize := fsize;
      frags := seq(MAXFRAGSIZE + 1, _ => []);
      ends, cut, live := [], [], [];
      new;
      EmptyValid(blocks, frags);
    }

    /** A fragment of the size asked for, apart from all others. The very first must fit the first block,
        which is not enlarged for it. */
    method Alloc(size: nat) returns (p: Ptr)
      requires Valid() && 0 < size <= MAXFRAGSIZE && (blocks == [] ==> size <= firstsize)
      modifies this
      ensures Valid() && live == old(live) + [Frag(p, size)]
      ensures old(frags[size]) != [] ==>
                frags == old(frags[size := frags[size][..|frags[size]| - 1]])
                  && p == old(frags[size][|frags[size]| - 1])
                && blocks == old(blocks) && blk == old(blk) && used == old(used)
      ensures old(frags[size]) == [] ==>
                && frags == old(frags) && old(blocks) <= blocks && |blocks| <= |old(blocks)| + 1
                && blk == p.block && used == p.off + size
                && FirstWithRoom(old(blocks), old(blk), old(used), size, p)
                && (|blocks| > |old(blocks)| ==> blocks[|old(blocks)|] == NewSize(old(blocks), firstsize, size))
      ensures old(frags[size] == [] && blk < |blocks| && used + size <= blocks[blk]) ==>
                p == old(Ptr(blk, used)) && blocks == old(blocks) && blk == old(blk) && used == old(used) + size
    {
      hide Heap.Valid;
      ShapeOf(View());
      if |frags[size]| > 0 {
        ReuseKeeps(View(), size);
        var list := frags[size];
        p := list[|list| - 1];
        frags := frags[size := list[..|list| - 1]];
        live := live + [Frag(p, size)];
      } else if blk < |blocks| && blocks[blk] >= used + size {
        p := CutHere(size);
      } else {
        p := AllocSearch(size);
      }
    }

    method CutHere(size: nat) returns (p: Ptr)
      requires View().Valid() && blk < |blocks| && used + size <= blocks[blk]
      modifies this`used, this`cut, this`live
      ensures View().Valid() && live == old(live) + [Frag(p, size)]
      ensures p == old(Ptr(blk, used)) && used == old(used) + size
    {
      hide Heap.Valid;
      CutKeeps(View(), size);
      p := Ptr(blk, used);
      used := used + size;
      cut, live := cut + [Frag(p, size)], live + [Frag(p, size)];
    }

    method AllocSearch(size: nat) returns (p: Ptr)
      requires Valid() && 0 < size <= MAXFRAGSIZE && (blocks == [] ==> size <= firstsize)
      modifies this
      ensures Valid() && live == old(live) + [Frag(p, size)]
      ensures frags == old(frags) && old(blocks) <= blocks && |blocks| <= |old(blocks)| + 1
                && old(blk) <= blk == p.block
      ensures FirstWithRoom(old(blocks), old(blk), old(used), size, p) && used == p.off + size
      ensures |blocks| > |old(blocks)| ==> blocks[|old(blocks)|] == NewSize(old(blocks), firstsize, size)
    {
      hide Heap.Valid;
      ShapeOf(View());
      while blk < |blocks| && blocks[blk] < used + size
        invariant Valid() && live == old(live) && old(blk) <= blk <= |blocks|
        invariant frags == old(frags) && blocks == old(blocks)
        invariant blk == old(blk) ==> used == old(used)
        invariant blk > old(blk) ==> used == 0
        invariant forall b :: old(blk) <= b < blk ==> blocks[b] < (if b == old(blk) then old(used) else 0) + size
        decreases |blocks| - blk
      {
        SkipKeeps(View());
        ends := ends + [used];
        blk, used := blk + 1, 0;
      }
      if blk == |blocks| {
        ShapeOf(View());
        var bsize := firstsize;
        if blk > 0 {
          bsize := Grown(blocks[blk - 1]);
          if bsize < size {
            bsize := size;
          }
        }
        ExtendKeeps(View(), bsize);
        blocks := blocks + [bsize];
      }
      p := CutHere(size);
    }

    /** A live fragment given back with its size waits in the list of that size. */
    method Free(p: Ptr, size: nat, ghost k: nat)
      requires Valid() && 0 < size <= MAXFRAGSIZE && k < |live| && live[k] == Frag(p, size)
      modifies this
      ensures Valid() && live == old(live[..k] + live[k + 1..])
      ensures frags == old(frags[size := frags[size] + [p]]) && blocks == old(blocks) && blk == old(blk)
                && used == old(used)
    {
      hide Heap.Valid;
      ShapeOf(View());
      ReleaseKeeps(View(), k);
      frags := frags[size := frags[size] + [p]];
      live := live[..k] + live[k + 1..];
    }

    method ClearFrag()
      requires |frags| == MAXFRAGSIZE + 1
      modifies this`frags
      ensures |frags| == MAXFRAGSIZE + 1 && forall i :: 0 <= i < |frags| ==> frags[i] == []
    {
      for i := 0 to MAXFRAGSIZE + 1
        invariant |frags| == MAXFRAGSIZE + 1 && forall k :: 0 <= k < i ==> frags[k] == []
      {
        frags := frags[i := []];
      }
    }

    method FreeAll()
      requires Valid()
      modifies this
      ensures Valid() && live == [] && blocks == old(blocks)
    {
      hide Heap.Valid;
      ShapeOf(View());
      blk, used := 0, 0;
      ClearFrag();
      ends, cut, live := [], [], [];
      EmptyValid(blocks, frags);
    }

    method Clear()
      requires Valid()
      modifies this
      ensures Valid() && live == [] && blocks == []
    {
      hide Heap.Valid;
      ShapeOf(View());
      blk, used := 0, 0;
      blocks := [];
      ClearFrag();
      ends, cut, live := [], [], [];
      EmptyValid(blocks, frags);
    }

    /** The memory reported as used is that of the live fragments and of the tails of filled blocks. */
    method GetMemUsg() returns (memblock: nat, memalloc: nat, memused: int)
      requires Valid()
      ensures memblock == SumTo(blocks, |blocks|)
      ensures memalloc == SumTo(blocks, blk) + used
      ensures memused == SumSizes(live) + Tails(View(), blk)
    {
      hide SumSizes, Freed, FreeBytes, SumTo, Tails;
      NothingYet(View());
      memblock, memalloc := 0, 0;
      var memfree := 0;
      for i := 0 to |blocks|
        invariant memblock == SumTo(blocks, i)
      {
        NextBlock(blocks, i);
        memblock := memblock + blocks[i];
      }
      for i := 0 to blk
        invariant memalloc == SumTo(blocks, i)
      {
        NextBlock(blocks, i);
        memalloc := memalloc + blocks[i];
      }
      memalloc := memalloc + used;
      for i := 1 to MAXFRAGSIZE + 1
        invariant memfree == FreeBytes(frags, i)
      {
        NextList(frags, i);
        memfree := memfree + i * |frags[i]|;
      }
      memused := memalloc - memfree;
      TailsAre(View(), blk);
    }
  }

  lemma ShapeOf(h: Heap)
    requires h.Valid()
    ensures h.Shaped()
  {
  }

  lemma NothingYet(h: Heap)
    requires h.Valid()
    ensures SumTo(h.blocks, 0) == 0 && FreeBytes(h.frags, 1) == 0
  {
    assert 0 * |h.frags[0]| == 0;
    assert FreeBytes(h.frags, 0) == 0;
  }

  lemma NextBlock(s: seq<nat>, i: nat)
    requires i < |s|
    ensures SumTo(s, i + 1) == SumTo(s, i) + s[i]
  {
  }

  lemma NextList(frags: seq<seq<Ptr>>, i: nat)
    requires i < |frags|
    ensures FreeBytes(frags, i + 1) == FreeBytes(frags, i) + i * |frags[i]|
  {
  }
}

/** A task's heap above the page pool: small objects come from lists by size or off the top of free
    chunks, large ones have blocks of their own (HolyCRT/Mem/MAllocFree.HC, HolyCRT/Mem/MemPag.HC). */
module Heap {
  import opened Bits
  import opened ListBags
  import opened MemPool
  import opened HeapSpec

  // Header added, rounded up to eight bytes.
  function Gross(size: nat): (n: nat)
    ensures n % 8 == 0 && size + USED_START <= n < size + USED_START + 8
  {
    (size + USED_START + 7) / 8 * 8
  }

  // Pages of the block a large object gets: as few as hold it and the block's header.
  function BlkPags(n: nat): (pags: nat)
    ensures pags * MEM_PAG_SIZE >= n + SIZEOF_MEM_BLK > (pags - 1) * MEM_PAG_SIZE
  {
    (n + SIZEOF_MEM_BLK + MEM_PAG_SIZE - 1) / MEM_PAG_SIZE
  }

  // A large object is all of a block of its own.
  ghost predicate HasBlock(p: Piece, blks: seq<MemBlk>, live: seq<MemBlk>, mergable: Option<int>)
  {
    exists b :: b in blks && b in live && b.pags > 0 && p == Body(b) && mergable != Some(b.page)
  }

  ghost predicate LargeOk(objs: seq<Piece>, blks: seq<MemBlk>, live: seq<MemBlk>, mergable: Option<int>)
  {
    forall i :: 0 <= i < |objs| && objs[i].size >= MEM_HEAP_HASH_SIZE ==> HasBlock(objs[i], blks, live, mergable)
  }

  lemma LargeGrows(objs: seq<Piece>, blks: seq<MemBlk>, live: seq<MemBlk>, mergable: Option<int>, b: MemBlk)
    requires LargeOk(objs, blks, live, mergable)
    ensures LargeOk(objs, blks + [b], live + [b], mergable)
  {
    forall i | 0 <= i < |objs| && objs[i].size >= MEM_HEAP_HASH_SIZE
      ensures HasBlock(objs[i], blks + [b], live + [b], mergable)
    {
      assert HasBlock(objs[i], blks, live, mergable);
      var c :| c in blks && c in live && c.pags > 0 && objs[i] == Body(c) && mergable != Some(c.page);
      assert c in blks + [b] && c in live + [b];
    }
  }

  // The newest block b, which holds no object yet, becomes the chunk new ones are merged with.
  lemma LargeMerges(objs: seq<Piece>, was: seq<MemBlk>, out: seq<MemBlk>, live: seq<MemBlk>, mergable: Option<int>, b: MemBlk)
    requires LargeOk(objs, was, live, mergable) && Owns(was, live) && b in was
    requires forall i :: 0 <= i < |objs| ==> Clear(objs[i], Body(b)) && Sound(objs[i])
    requires forall c :: c in was && c != b && mergable != Some(c.page) ==> c in out
    ensures LargeOk(objs, out, live, Some(b.page))
  {
    forall i | 0 <= i < |objs| && objs[i].size >= MEM_HEAP_HASH_SIZE
      ensures HasBlock(objs[i], out, live, Some(b.page))
    {
      var c :| c in was && c in live && c.pags > 0 && objs[i] == Body(c) && mergable != Some(c.page);
      assert c != b;
      var j :| 0 <= j < |was| && was[j] == c;
      var k :| 0 <= k < |was| && was[k] == b;
      assert if j < k then Apart(was[j], was[k]) else Apart(was[k], was[j]);
      assert c in out;
    }
  }

  lemma LargeDrops(objs: seq<Piece>, i: nat, blks: seq<MemBlk>, k: nat, live: seq<MemBlk>, j: nat, mergable: Option<int>)
    requires LargeOk(objs, blks, live, mergable) && i < |objs| && k < |blks| && j < |live|
    requires blks[k] == live[j] && live[j].pags > 0 && objs[i] == Body(blks[k])
    requires forall n :: 0 <= n < |objs| && n != i ==> objs[n] != objs[i]
    ensures LargeOk(objs[..i] + objs[i + 1..], blks[..k] + blks[k + 1..], live[..j] + live[j + 1..], mergable)
  {
    var left := objs[..i] + objs[i + 1..];
    forall n | 0 <= n < |left| && left[n].size >= MEM_HEAP_HASH_SIZE
      ensures HasBlock(left[n], blks[..k] + blks[k + 1..], live[..j] + live[j + 1..], mergable)
    {
      var n0 := if n < i then n else n + 1;
      assert left[n] == objs[n0] && HasBlock(objs[n0], blks, live, mergable);
      var c :| c in blks && c in live && c.pags > 0 && objs[n0] == Body(c) && mergable != Some(c.page);
      assert c != blks[k];
      OtherStays(blks, k, c);
      OtherStays(live, j, c);
    }
  }

  lemma LargeMore(objs: seq<Piece>, p: Piece, blks: seq<MemBlk>, live: seq<MemBlk>, mergable: Option<int>)
    requires LargeOk(objs, blks, live, mergable)
    requires p.size < MEM_HEAP_HASH_SIZE || HasBlock(p, blks, live, mergable)
    ensures LargeOk(objs + [p], blks, live, mergable)
  {
  }

  lemma LargeFewer(objs: seq<Piece>, i: nat, blks: seq<MemBlk>, live: seq<MemBlk>, mergable: Option<int>)
    requires LargeOk(objs, blks, live, mergable) && i < |objs|
    ensures LargeOk(objs[..i] + objs[i + 1..], blks, live, mergable)
  {
    var left := objs[..i] + objs[i + 1..];
    assert forall n :: 0 <= n < |left| ==> left[n] == objs[if n < i then n else n + 1];
  }

  // Each list holds the pieces of one size.
  ghost predicate HashOk(h: seq<seq<Piece>>)
  {
    forall k, j :: 0 <= k < |h| && 0 <= j < |h[k]| ==> h[k][j].size == 8 * k
  }

  lemma HashPut(h: seq<seq<Piece>>, n: nat, p: Piece)
    requires HashOk(h) && n < |h|
    ensures p.size == 8 * n ==> HashOk(h[n := [p] + h[n]])
    ensures h[n] != [] ==> h[n][0].size == 8 * n && HashOk(h[n := h[n][1..]])
  {
  }

  /** What the lists of a heap hold: pieces that keep apart, each in a list that may hold it. */
  ghost predicate ListsOk(free: seq<Piece>, h: seq<seq<Piece>>, objs: seq<Piece>, blks: seq<MemBlk>, live: seq<MemBlk>,
      mergable: Option<int>)
  {
    Packed(Bag(free, h, objs), blks) && HashOk(h) && LargeOk(objs, blks, live, mergable)
  }

  // A small object goes to the list for its size.
  lemma ListsFree(free: seq<Piece>, h: seq<seq<Piece>>, objs: seq<Piece>, blks: seq<MemBlk>, live: seq<MemBlk>,
      mergable: Option<int>, i: nat, n: nat)
    requires ListsOk(free, h, objs, blks, live, mergable) && i < |objs| && n < |h| && objs[i].size == 8 * n
    ensures ListsOk(free, h[n := [objs[i]] + h[n]], Without(objs, i), blks, live, mergable)
  {
    hide Packed, Bag, LargeOk, HashOk;
    LiveToHash(free, h, objs, i, n);
    HashPut(h, n, objs[i]);
    LargeFewer(objs, i, blks, live, mergable);
  }

  // The first piece of a list is handed out.
  lemma ListsServe(free: seq<Piece>, h: seq<seq<Piece>>, objs: seq<Piece>, blks: seq<MemBlk>, live: seq<MemBlk>,
      mergable: Option<int>, n: nat)
    requires ListsOk(free, h, objs, blks, live, mergable) && n < |h| && h[n] != [] && 8 * n < MEM_HEAP_HASH_SIZE
    ensures h[n][0].size == 8 * n && ListsOk(free, h[n := h[n][1..]], objs + [h[n][0]], blks, live, mergable)
  {
    hide Packed, Bag, LargeOk, HashOk;
    HashToLive(free, h, objs, n);
    HashPut(h, n, h[n][0]);
    LargeMore(objs, h[n][0], blks, live, mergable);
  }

  // A free piece moves to the list for its size.
  lemma ListsTidy(free: seq<Piece>, h: seq<seq<Piece>>, objs: seq<Piece>, blks: seq<MemBlk>, live: seq<MemBlk>,
      mergable: Option<int>, k: nat, n: nat)
    requires ListsOk(free, h, objs, blks, live, mergable) && k < |free| && n < |h| && free[k].size == 8 * n
    ensures ListsOk(Without(free, k), h[n := [free[k]] + h[n]], objs, blks, live, mergable)
    ensures Bag(Without(free, k), h[n := [free[k]] + h[n]], objs) == Bag(free, h, objs)
  {
    hide Packed, Bag, LargeOk, HashOk;
    FreeToHash(free, h, objs, k, n);
    HashPut(h, n, free[k]);
  }

  // The word in front of each object is its size.
  ghost predicate Headed(objs: seq<Piece>, sizes: map<int, int>)
  {
    forall i :: 0 <= i < |objs| ==> objs[i].addr + 8 in sizes && sizes[objs[i].addr + 8] == objs[i].size
  }

  lemma HeadedFewer(objs: seq<Piece>, i: nat, sizes: map<int, int>)
    requires Headed(objs, sizes) && i < |objs|
    ensures Headed(objs[..i] + objs[i + 1..], sizes)
  {
    var left := objs[..i] + objs[i + 1..];
    assert forall n :: 0 <= n < |left| ==> left[n] == objs[if n < i then n else n + 1];
  }

  // A pointer into an object from which the object is found.
  predicate Leads(ptr: int, o: Piece, sizes: map<int, int>)
  {
    && o.addr + USED_START <= ptr <= o.addr + o.size && ptr - 8 in sizes
    && (if sizes[ptr - 8] >= 0 then ptr else ptr + sizes[ptr - 8]) == o.addr + USED_START
  }

  // A free piece a request of n bytes can be served from: nothing is left over, or a piece with room for the
  // words of a free one.
  predicate Fits(p: Piece, n: nat): (r: bool)
    ensures r <==> var left := p.size - n; left == 0 || left >= SIZEOF_UNUSED
  {
    p.size == n || p.size >= n + SIZEOF_UNUSED
  }

  // The pieces no shorter than a length, in their order.
  ghost function Longer(s: seq<Piece>, t: nat): seq<Piece>
  {
    if s == [] then [] else (if s[0].size < t then [] else [s[0]]) + Longer(s[1..], t)
  }

  predicate IsThreshold(t: nat)
  {
    t == 64 || t == 128 || t == 256 || t == 512 || t == 1024
  }

  /** The free list keeps the pieces from some length on: the first of 64, 128, ... bytes that leaves no more
      than eight, or 1024. */
  ghost predicate Tidied(was: seq<Piece>, now: seq<Piece>)
  {
    exists t: nat :: IsThreshold(t) && now == Longer(was, t) && (|now| <= 8 || t == 1024) &&
                     forall u: nat :: IsThreshold(u) && u < t ==> |Longer(was, u)| > 8
  }

  lemma {:induction false} LongerTwice(s: seq<Piece>, t: nat, u: nat)
    requires t <= u
    ensures Longer(Longer(s, t), u) == Longer(s, u)
  {
    if s != [] {
      LongerTwice(s[1..], t, u);
      if s[0].size >= t {
        assert ([s[0]] + Longer(s[1..], t))[1..] == Longer(s[1..], t);
      } else {
        assert [] + Longer(s[1..], t) == Longer(s[1..], t);
      }
    }
  }

  lemma {:induction false} LongerAll(s: seq<Piece>)
    ensures Longer(s, 0) == s
  {
    if s != [] {
      LongerAll(s[1..]);
    }
  }

  lemma LongerStep(s: seq<Piece>, k: nat, t: nat)
    requires k < |s|
    ensures s[k].size < t ==> s[..k] + Longer(s[k..], t) == Without(s, k)[..k] + Longer(Without(s, k)[k..], t)
    ensures s[k].size >= t ==> s[..k] + Longer(s[k..], t) == s[..k + 1] + Longer(s[k + 1..], t)
  {
    assert s[k..][1..] == s[k + 1..] == Without(s, k)[k..];
    assert s[..k] + ([s[k]] + Longer(s[k + 1..], t)) == s[..k + 1] + Longer(s[k + 1..], t);
    assert [] + Longer(s[k + 1..], t) == Longer(s[k + 1..], t);
  }

  lemma LongerEnd(s: seq<Piece>, k: nat, t: nat)
    requires k == |s|
    ensures s[..k] + Longer(s[k..], t) == s
  {
  }

  /** Of the first free piece that fits, the top n bytes are handed out; a piece used up goes. */
  ghost predicate CutOff(free: seq<Piece>, now: seq<Piece>, n: nat, addr: int)
  {
    exists k: nat :: FirstFree(free, n, k) && CutAt(free, now, n, addr, k)
  }

  ghost predicate FirstFree(free: seq<Piece>, n: nat, k: nat)
  {
    k < |free| && Fits(free[k], n) && forall j :: 0 <= j < k ==> !Fits(free[j], n)
  }

  ghost predicate CutAt(free: seq<Piece>, now: seq<Piece>, n: nat, addr: int, k: nat)
  {
    && k < |free| && free[k].size >= n && addr == free[k].addr + free[k].size - n
    && now == if free[k].size == n then free[..k] + free[k + 1..] else free[k := Piece(free[k].addr, free[k].size - n)]
  }

  lemma CutFirst(free: seq<Piece>, now: seq<Piece>, n: nat, addr: int, k: nat)
    requires FirstFree(free, n, k) && CutAt(free, now, n, addr, k)
    ensures CutOff(free, now, n, addr)
  {
  }

  ghost predicate AnyFits(free: seq<Piece>, n: nat)
  {
    exists k :: 0 <= k < |free| && Fits(free[k], n)
  }

  ghost predicate HasPage(blks: seq<MemBlk>, page: int)
  {
    exists k :: 0 <= k < |blks| && blks[k].page == page
  }

  lemma HasPageGrows(blks: seq<MemBlk>, page: int, b: MemBlk)
    ensures HasPage(blks, page) ==> HasPage(blks + [b], page)
    ensures HasPage(blks + [b], b.page)
  {
    if HasPage(blks, page) {
      var k :| 0 <= k < |blks| && blks[k].page == page;
      assert (blks + [b])[k].page == page;
    }
    assert (blks + [b])[|blks|] == b;
  }

  lemma HasPageDrops(blks: seq<MemBlk>, k: nat)
    requires k < |blks|
    ensures forall page :: HasPage(blks, page) && page != blks[k].page ==> HasPage(blks[..k] + blks[k + 1..], page)
  {
    forall page | HasPage(blks, page) && page != blks[k].page
      ensures HasPage(blks[..k] + blks[k + 1..], page)
    {
      var n :| 0 <= n < |blks| && blks[n].page == page;
      assert (blks[..k] + blks[k + 1..])[if n < k then n else n - 1].page == page;
    }
  }

  lemma NewPage(blks: seq<MemBlk>, live: seq<MemBlk>, b: MemBlk, page: int)
    requires Owns(blks, live) && b.pags > 0 && HasPage(blks, page)
    requires forall i :: 0 <= i < |live| ==> Apart(live[i], b)
    ensures page != b.page
  {
    var k :| 0 <= k < |blks| && blks[k].page == page;
    ApartFromLive(blks, live, b, k);
  }

  lemma BodyHasBlock(b: MemBlk, blks: seq<MemBlk>, live: seq<MemBlk>, mergable: Option<int>)
    requires b in blks && b in live && b.pags > 0 && mergable != Some(b.page)
    ensures HasBlock(Body(b), blks, live, mergable)
  {
  }

  // The block that begins at a block's end is another one.
  lemma NotItself(blks: seq<MemBlk>, live: seq<MemBlk>, k: nat)
    requires Owns(blks, live) && |blks| > 0 && k < |blks|
    requires blks[k].page == blks[|blks| - 1].page + blks[|blks| - 1].pags
    ensures k < |blks| - 1
  {
  }

  lemma MergeOk(m: multiset<Piece>, first: seq<MemBlk>, b: MemBlk, k: nat, live: seq<MemBlk>, objs: seq<Piece>, mergable: Option<int>)
    requires Packed(m, first + [b]) && Owns(first + [b], live) && LargeOk(objs, first + [b], live, mergable)
    requires k < |first| && first[k].page == b.page + b.pags && mergable == Some(first[k].page) && b.pags > 0
    requires forall i :: 0 <= i < |objs| ==> Clear(objs[i], Body(b)) && Sound(objs[i])
    ensures var out := first[..k] + first[k + 1..] + [MemBlk(b.page, b.pags + first[k].pags)];
            && Packed(m, out) && Owns(out, live) && Sum(out) == Sum(first + [b]) && Housed(Body(b), out)
            && LargeOk(objs, out, live, Some(b.page)) && HasPage(out, b.page) && SamePages(first + [b], out)
  {
    var was, big := first + [b], MemBlk(b.page, b.pags + first[k].pags);
    var out := first[..k] + first[k + 1..] + [big];
    Merged(m, first, live, b, k);
    forall c | c in was && c != b && mergable != Some(c.page)
      ensures c in out
    {
      OtherStays(first, k, c);
    }
    assert b in was;
    LargeMerges(objs, was, out, live, mergable, b);
    assert out[|out| - 1] == big && Inside(Body(b), big);
    HasPageGrows(first[..k] + first[k + 1..], 0, big);
  }

  lemma MarkOk(first: seq<MemBlk>, b: MemBlk, live: seq<MemBlk>, objs: seq<Piece>, mergable: Option<int>)
    requires Owns(first + [b], live) && LargeOk(objs, first + [b], live, mergable) && b.pags > 0
    requires forall i :: 0 <= i < |objs| ==> Clear(objs[i], Body(b)) && Sound(objs[i])
    ensures LargeOk(objs, first + [b], live, Some(b.page)) && HasPage(first + [b], b.page) && Housed(Body(b), first + [b])
  {
    assert b in first + [b];
    LargeMerges(objs, first + [b], first + [b], live, mergable, b);
    HasPageGrows(first, 0, b);
    assert Inside(Body(b), (first + [b])[|first|]);
  }

  class CHeapCtrl {
    const bp: CBlkPool
    var memBlks: seq<MemBlk>
    var lastMergable: Option<int>       // by its first page
    var mallocFreeLst: seq<Piece>
    const heapHash: array<seq<Piece>>   // one list for each multiple of eight
    var allocedU8s: int
    var usedU8s: int
    var sizes: map<int, int>            // the word in front of what a caller holds
    ghost var live: seq<Piece>          // objects handed out, headers included

    ghost function Repr(): set<object>
    {
      {this, heapHash} + bp.Repr()
    }

    // What is free, what waits in the lists, what is handed out.
    ghost function Pieces(): multiset<Piece>
      reads this, heapHash
    {
      Bag(mallocFreeLst, heapHash[..], live)
    }

    ghost predicate Shape()
      reads Repr()
    {
      && bp.Valid() && this !in bp.Repr() && heapHash !in bp.Repr()
      && heapHash.Length == MEM_HEAP_HASH_SIZE / 8
      && ListsOk(mallocFreeLst, heapHash[..], live, memBlks, bp.live, lastMergable)
      && Owns(memBlks, bp.live)
      && allocedU8s == Sum(memBlks) * MEM_PAG_SIZE
      && (lastMergable.Some? ==> HasPage(memBlks, lastMergable.value))
    }

    ghost predicate Valid()
      reads Repr()
    {
      Shape() && usedU8s == Bytes(live) && Headed(live, sizes)
    }

    // The pieces that wait for a request of n bytes.
    ghost function OfSize(n: nat): seq<Piece>
      reads heapHash
    {
      if n < MEM_HEAP_HASH_SIZE && n / 8 < heapHash.Length then heapHash[n / 8] else []
    }

    // What a request of n bytes, header included, finds nothing for.
    ghost predicate Nothing(n: nat)
      requires bp.Sorted() && Askable(BlkPags(n))
      reads this, heapHash, bp.Repr()
    {
      if n >= MEM_HEAP_HASH_SIZE then bp.NoFit(BlkPags(n))
      else
        && OfSize(n) == []
        && (forall k :: 0 <= k < |mallocFreeLst| ==> !Fits(mallocFreeLst[k], n))
        && bp.NoFit(ChunkPags(n))
    }

    /** HeapCtrlInit. */
    constructor (bp: CBlkPool)
      requires bp.Valid()
      ensures Valid() && this.bp == bp && memBlks == [] && live == [] && fresh(heapHash)
    {
      this.bp := bp;
      memBlks, lastMergable, mallocFreeLst, sizes, live := [], None, [], map[], [];
      heapHash := new seq<Piece>[MEM_HEAP_HASH_SIZE / 8](_ => []);
      allocedU8s, usedU8s := 0, 0;
      new;
      EmptyLists(AllLists([], heapHash[..], []));
    }

    static lemma {:induction false} EmptyLists(ls: seq<seq<Piece>>)
      requires forall i :: 0 <= i < |ls| ==> ls[i] == []
      ensures BagAll(ls) == multiset{}
    {
      if ls != [] {
        EmptyLists(ls[1..]);
      }
    }

    /** Over every run, two objects handed out never share a byte. */
    lemma ObjectsApart(i: nat, j: nat)
      requires Valid() && i < j < |live|
      ensures Clear(live[i], live[j]) && Sound(live[i]) && Sound(live[j]) && live[i] != live[j]
    {
      InBag(mallocFreeLst, heapHash[..], live, live[i]);
      InBag(mallocFreeLst, heapHash[..], live, live[j]);
      LiveApart(mallocFreeLst, heapHash[..], live, i, j);
    }

    /** The first half of MemPagTaskAlloc: pages for the task, with nothing in them. */
    method NewBlk(pags: nat) returns (res: Option<MemBlk>)
      requires Valid() && Askable(pags)
      modifies bp.Repr(), `memBlks, `allocedU8s
      ensures Valid()
      ensures res.None? <==> old(bp.NoFit(pags))
      ensures res.None? ==> memBlks == old(memBlks)
      ensures mallocFreeLst == old(mallocFreeLst)
      ensures OthersKept(old(bp.live), bp.live, old(memBlks), memBlks)
      ensures res.Some? ==>
                && var b := res.value;
                && b.pags >= pags && b.pags > 0 && memBlks == old(memBlks) + [b] && b in bp.live && lastMergable != Some(b.page)
                && bp.live == old(bp.live) + [b] && AllClear(Pieces(), Body(b))
      ensures old(bp.Exact(pags)) != [] ==> res == Some(old(bp.Exact(pags))[0])
    {
      hide Packed, Owns, Bag, Sum, Askable, LargeOk;
      hide CBlkPool.Valid, CBlkPool.NoFit, CBlkPool.Exact, HasPage, AllClear, Apart, OthersKept;
      ghost var m, was := Pieces(), bp.live;
      KeptSame(was, memBlks);
      res := FromPool(pags);
      if res.Some? {
        var b := res.value;
        NewBlock(m, memBlks, was, b);
        LargeGrows(live, memBlks, was, lastMergable, b);
        KeptNew(was, memBlks, b);
        SumAppend(memBlks, b);
        if lastMergable.Some? {
          HasPageGrows(memBlks, lastMergable.value, b);
          NewPage(memBlks, was, b, lastMergable.value);
        }
        memBlks := memBlks + [b];
        allocedU8s := allocedU8s + b.pags * MEM_PAG_SIZE;
      }
    }

    // Pages the pool has not given out before.
    method FromPool(pags: nat) returns (res: Option<MemBlk>)
      requires bp.Valid() && Askable(pags)
      modifies bp.Repr()
      ensures bp.Valid()
      ensures res.None? <==> old(bp.NoFit(pags))
      ensures res.None? ==> bp.live == old(bp.live)
      ensures res.Some? ==>
                && res.value.pags >= pags && res.value.pags > 0 && bp.live == old(bp.live) + [res.value]
                && forall i :: 0 <= i < |old(bp.live)| ==> Apart(old(bp.live)[i], res.value)
      ensures old(bp.Exact(pags)) != [] ==> res == Some(old(bp.Exact(pags))[0])
    {
      hide Askable, CBlkPool.NoFit, CBlkPool.Exact, CBlkPool.CanCarve, TookHead, Carved, TookLarger;
      res := bp.MemPagAlloc(pags);
      if res.Some? {
        BlockApart();
        assert forall i :: 0 <= i < |old(bp.live)| ==> bp.live[i] == old(bp.live)[i];
      }
    }

    // The pool's newest live block is apart from its other live blocks.
    lemma BlockApart()
      requires bp.Valid() && bp.live != []
      ensures var n := |bp.live| - 1;
              bp.live[n].pags > 0 && forall i :: 0 <= i < n ==> Apart(bp.live[i], bp.live[n])
    {
      var ls, n := bp.Lists(), |bp.live| - 1;
      assert ls[|ls| - 1] == bp.live;
      InList(ls, |ls| - 1, bp.live[n]);
      forall i | 0 <= i < n
        ensures Apart(bp.live[i], bp.live[n])
      {
        bp.NoOverlap(|ls| - 1, i, |ls| - 1, n);
      }
    }

    // A free piece short enough moves to the list for its size.
    method ToHash(k: nat)
      requires Valid() && k < |mallocFreeLst| && mallocFreeLst[k].size < MEM_HEAP_HASH_SIZE
      modifies `mallocFreeLst, heapHash
      ensures Valid() && Pieces() == old(Pieces())
      ensures mallocFreeLst == Without(old(mallocFreeLst), k)
    {
      var p := mallocFreeLst[k];
      InBag(mallocFreeLst, heapHash[..], live, p);
      var n := p.size / 8;
      ghost var h := heapHash[..];
      hide ListsOk, Bag, Owns, CBlkPool.Valid, HasPage, Sum, Bytes, Without;
      ListsTidy(mallocFreeLst, h, live, memBlks, bp.live, lastMergable, k, n);
      Removed(mallocFreeLst, k);
      mallocFreeLst := mallocFreeLst[..k] + mallocFreeLst[k + 1..];
      heapHash[n] := [p] + heapHash[n];
      assert heapHash[..] == h[n := [p] + h[n]];
    }

    /** The second half of MemPagTaskAlloc: short free pieces move to the lists by size, up to a
        length that doubles while more than eight longer ones remain. */
    method TidyUp()
      requires Valid()
      modifies `mallocFreeLst, heapHash
      ensures Valid() && Pieces() == old(Pieces()) && Tidied(old(mallocFreeLst), mallocFreeLst)
    {
      hide Valid, Pieces, Longer;
      var threshold := MEM_HEAP_HASH_SIZE / 16;
      ghost var was := mallocFreeLst;
      LongerTwice(was, 0, threshold);
      LongerAll(was);
      while true
        invariant Valid() && Pieces() == old(Pieces()) && IsThreshold(threshold)
        invariant Longer(mallocFreeLst, threshold) == Longer(was, threshold)
        invariant forall t: nat :: IsThreshold(t) && t < threshold ==> |Longer(was, t)| > 8
        decreases MEM_HEAP_HASH_SIZE - threshold
      {
        var cnt := MoveShort(threshold);
        if !(cnt > 8 && 2 * threshold <= MEM_HEAP_HASH_SIZE) {
          break;
        }
        LongerTwice(was, threshold, 2 * threshold);
        threshold := 2 * threshold;
      }
      assert IsThreshold(threshold);
    }

    // One pass over the free list; it counts the pieces that stay.
    method MoveShort(threshold: nat) returns (cnt: nat)
      requires Valid() && threshold <= MEM_HEAP_HASH_SIZE
      modifies `mallocFreeLst, heapHash
      ensures Valid() && Pieces() == old(Pieces())
      ensures mallocFreeLst == Longer(old(mallocFreeLst), threshold) && cnt == |mallocFreeLst|
    {
      hide Valid, Pieces, Longer;
      ghost var was := mallocFreeLst;
      cnt := 0;
      while cnt < |mallocFreeLst|
        invariant Valid() && Pieces() == old(Pieces()) && cnt <= |mallocFreeLst|
        invariant mallocFreeLst[..cnt] + Longer(mallocFreeLst[cnt..], threshold) == Longer(was, threshold)
        decreases |mallocFreeLst| - cnt
      {
        LongerStep(mallocFreeLst, cnt, threshold);
        if mallocFreeLst[cnt].size < threshold {
          ToHash(cnt);
        } else {
          cnt := cnt + 1;
        }
      }
      LongerEnd(mallocFreeLst, cnt, threshold);
    }

    method MemPagTaskAlloc(pags: nat) returns (res: Option<MemBlk>)
      requires Valid() && Askable(pags)
      modifies bp.Repr(), `memBlks, `allocedU8s, `mallocFreeLst, heapHash
      ensures Valid()
      ensures res.None? <==> old(bp.NoFit(pags))
      ensures OthersKept(old(bp.live), bp.live, old(memBlks), memBlks)
      ensures res.Some? ==>
                && var b := res.value;
                && b.pags >= pags && b.pags > 0 && |memBlks| > 0 && memBlks[|memBlks| - 1] == b && b in bp.live
                && lastMergable != Some(b.page)
                && bp.live == old(bp.live) + [b] && AllClear(Pieces(), Body(b)) && Tidied(old(mallocFreeLst), mallocFreeLst)
      ensures res.None? ==> mallocFreeLst == old(mallocFreeLst)
      ensures old(bp.Exact(pags)) != [] ==> res == Some(old(bp.Exact(pags))[0])
    {
      hide *;
      res := NewBlk(pags);
      if res.None? {
        return;
      }
      assert |memBlks| > 0 && memBlks[|memBlks| - 1] == res.value;
      TidyUp();
    }

    // The newest block becomes the chunk to merge with; the old one joins it if it begins where the
    // new one ends.
    method Merge(b: MemBlk)
      requires Valid() && b.pags > 0 && |memBlks| > 0 && memBlks[|memBlks| - 1] == b
      requires AllClear(Pieces(), Body(b))
      modifies `memBlks, `lastMergable
      ensures Valid() && Housed(Body(b), memBlks) && SamePages(old(memBlks), memBlks)
      ensures lastMergable == Some(b.page) && MergedWith(old(memBlks), memBlks, b, old(lastMergable))
    {
      hide Packed, Owns, Bag, CBlkPool.Valid, Sum, Sound, LargeOk, HasPage, AllClear, Clear, Housed, InLive;
      LiveClear(b);
      var first := memBlks[..|memBlks| - 1];
      assert memBlks == first + [b];
      if lastMergable == Some(b.page + b.pags) {
        var k := PageIndex(memBlks, b.page + b.pags);
        NotItself(memBlks, bp.live, k);
        MergeOk(Pieces(), first, b, k, bp.live, live, lastMergable);
        assert JoinedWith(memBlks, first[..k] + first[k + 1..] + [MemBlk(b.page, b.pags + first[k].pags)], b, k);
        memBlks := first[..k] + first[k + 1..] + [MemBlk(b.page, b.pags + first[k].pags)];
      } else {
        MarkOk(first, b, bp.live, live, lastMergable);
      }
      lastMergable := Some(b.page);
    }

    // Block k, which begins where the newest block b ends, is part of it now.
    static ghost predicate JoinedWith(was: seq<MemBlk>, now: seq<MemBlk>, b: MemBlk, k: nat)
    {
      && k < |was| - 1 && was[k].page == b.page + b.pags
      && now == was[..k] + was[k + 1..|was| - 1] + [MemBlk(b.page, b.pags + was[k].pags)]
    }

    static ghost predicate MergedWith(was: seq<MemBlk>, now: seq<MemBlk>, b: MemBlk, last: Option<int>)
    {
      if last == Some(b.page + b.pags) then exists k: nat :: JoinedWith(was, now, b, k) else now == was
    }

    static method PageIndex(blks: seq<MemBlk>, page: int) returns (k: nat)
      requires HasPage(blks, page)
      ensures k < |blks| && blks[k].page == page
    {
      k :| 0 <= k < |blks| && blks[k].page == page;
    }

    lemma LiveClear(b: MemBlk)
      requires heapHash.Length == MEM_HEAP_HASH_SIZE / 8 && Packed(Pieces(), memBlks) && b.pags > 0
      requires AllClear(Pieces(), Body(b))
      ensures forall i :: 0 <= i < |live| ==> Clear(live[i], Body(b)) && Sound(live[i])
    {
      forall i | 0 <= i < |live|
        ensures Clear(live[i], Body(b)) && Sound(live[i])
      {
        InBag(mallocFreeLst, heapHash[..], live, live[i]);
      }
    }

    // The piece ends where the pool's newest block ends.
    ghost predicate OnTop(p: Piece)
      reads bp
    {
      && |bp.live| > 0
      && var b := bp.live[|bp.live| - 1]; p.addr + p.size == (b.page + b.pags) * MEM_PAG_SIZE
    }

    // A new chunk at the head of the free list, long enough to cut n bytes off.
    method NewChunk(n: nat) returns (ok: bool)
      requires Valid() && n < MEM_HEAP_HASH_SIZE
      modifies `memBlks, `allocedU8s, `lastMergable, `mallocFreeLst, heapHash, bp.Repr()
      ensures Valid()
      ensures !ok <==> old(bp.NoFit(ChunkPags(n)))
      ensures OthersKept(old(bp.live), bp.live, old(memBlks), memBlks)
      ensures ok ==> mallocFreeLst != [] && Fits(mallocFreeLst[0], n) && OnTop(mallocFreeLst[0])
    {
      var pags := ChunkPags(n);
      hide Valid, Askable, ChunkPags, Pieces, AllClear, OthersKept, SamePages;
      var res := MemPagTaskAlloc(pags);
      ok := res.Some?;
      if ok {
        ghost var blks := memBlks;
        PushChunk(res.value);
        KeptThen(old(bp.live), bp.live, old(memBlks), blks, memBlks);
      }
    }

    // Fifteen pages besides those the request fills or begins.
    static function ChunkPags(n: nat): (pags: nat)
      requires n < MEM_HEAP_HASH_SIZE
      ensures Askable(pags) && pags * MEM_PAG_SIZE >= n + SIZEOF_UNUSED + SIZEOF_MEM_BLK
      ensures (pags - 15) * MEM_PAG_SIZE >= n && (n > 0 ==> (pags - 16) * MEM_PAG_SIZE < n)
    {
      SmallAskable((n + 16 * MEM_PAG_SIZE - 1) / MEM_PAG_SIZE);
      (n + 16 * MEM_PAG_SIZE - 1) / MEM_PAG_SIZE
    }

    method PushChunk(b: MemBlk)
      requires Valid() && b.pags > 0 && |memBlks| > 0 && memBlks[|memBlks| - 1] == b
      requires AllClear(Pieces(), Body(b))
      modifies `memBlks, `lastMergable, `mallocFreeLst
      ensures Valid() && mallocFreeLst == [Body(b)] + old(mallocFreeLst) && SamePages(old(memBlks), memBlks)
    {
      hide SamePages, Packed, Owns, Bag, CBlkPool.Valid, Sum, LargeOk;
      hide HasPage, AllClear, Housed, HashOk, Bytes, Sound, Body;
      BodySound(b);
      Merge(b);
      Joins(mallocFreeLst, heapHash[..], live, memBlks, Body(b));
      mallocFreeLst := [Body(b)] + mallocFreeLst;
    }

    // One of the lists by size gives its first piece.
    method FromHash(n: nat) returns (addr: int)
      requires Valid() && n < heapHash.Length && heapHash[n] != [] && 8 * n < MEM_HEAP_HASH_SIZE
      modifies heapHash, `live
      ensures Shape() && live == old(live) + [Piece(addr, 8 * n)] && addr == old(heapHash[n][0].addr)
      ensures heapHash[n] == old(heapHash[n])[1..]
    {
      hide ListsOk, Owns, CBlkPool.Valid, Sum, HasPage, Bytes;
      ghost var h := heapHash[..];
      var p := heapHash[n][0];
      addr := p.addr;
      ListsServe(mallocFreeLst, h, live, memBlks, bp.live, lastMergable, n);
      heapHash[n] := heapHash[n][1..];
      live := live + [p];
      assert heapHash[..] == h[n := h[n][1..]];
    }

    // A free piece is handed out whole, or its top n bytes are.
    method FromFree(k: nat, n: nat) returns (addr: int)
      requires Valid() && k < |mallocFreeLst| && n % 8 == 0 && SIZEOF_UNUSED <= n < MEM_HEAP_HASH_SIZE
      requires Fits(mallocFreeLst[k], n)
      modifies `mallocFreeLst, `live
      ensures Shape() && live == old(live) + [Piece(addr, n)]
      ensures CutAt(old(mallocFreeLst), mallocFreeLst, n, addr, k)
    {
      hide Packed, Owns, Bag, CBlkPool.Valid, Sum, LargeOk, HasPage, HashOk, Bytes;
      var p := mallocFreeLst[k];
      if p.size == n {
        addr := p.addr;
        FreeToLive(mallocFreeLst, heapHash[..], live, k);
        mallocFreeLst := mallocFreeLst[..k] + mallocFreeLst[k + 1..];
      } else {
        addr := p.addr + p.size - n;
        var x := Piece(p.addr, p.size - n);
        CutToLive(mallocFreeLst, heapHash[..], live, k, x, Piece(addr, n));
        InBag(mallocFreeLst, heapHash[..], live, p);
        CutPiece(Pieces(), memBlks, p, n, Bag(mallocFreeLst[k := x], heapHash[..], live + [Piece(addr, n)]));
        mallocFreeLst := mallocFreeLst[k := x];
      }
      LargeMore(live, Piece(addr, n), memBlks, bp.live, lastMergable);
      live := live + [Piece(addr, n)];
    }

    // The walk along the free list: the first piece that fits exactly, or leaves room for a header.
    method FindFree(n: nat) returns (k: nat)
      requires Valid()
      ensures Valid() && k <= |mallocFreeLst|
      ensures forall j :: 0 <= j < k ==> !Fits(mallocFreeLst[j], n)
      ensures k < |mallocFreeLst| ==> Fits(mallocFreeLst[k], n)
    {
      hide *;
      k := 0;
      while k < |mallocFreeLst| && !Fits(mallocFreeLst[k], n)
        invariant 0 <= k <= |mallocFreeLst|
        invariant forall j :: 0 <= j < k ==> !Fits(mallocFreeLst[j], n)
      {
        k := k + 1;
      }
    }

    // Past a block's header.
    static function BlkAddr(b: MemBlk): int
    {
      b.page * MEM_PAG_SIZE + SIZEOF_MEM_BLK
    }

    static lemma BodyAt(b: MemBlk)
      requires b.pags > 0
      ensures Body(b).addr == BlkAddr(b)
    {
    }

    // A block of its own.
    method OwnBlock(n: nat) returns (p: Option<Piece>)
      requires Valid() && MEM_HEAP_HASH_SIZE <= n && Askable(BlkPags(n))
      modifies `memBlks, `allocedU8s, `mallocFreeLst, `live, heapHash, bp.Repr()
      ensures p.None? <==> old(bp.NoFit(BlkPags(n)))
      ensures OthersKept(old(bp.live), bp.live, old(memBlks), memBlks)
      ensures p.None? ==> Valid() && live == old(live)
      ensures p.Some? ==> Shape() && p.value.size >= n && live == old(live) + [p.value]
      ensures old(bp.Exact(BlkPags(n))) != [] ==> p.Some? && p.value.addr == BlkAddr(old(bp.Exact(BlkPags(n)))[0])
    {
      hide Packed, Owns, Bag, CBlkPool.Valid, Sum, HasPage, AllClear, Clear, CBlkPool.Exact, Tidied;
      hide HashOk, Bytes, LargeOk, Sound, Askable, Body, HasBlock, OthersKept;
      ghost var m := lastMergable;
      var res := MemPagTaskAlloc(BlkPags(n));
      if res.None? {
        return None;
      }
      var b := res.value;
      BodySound(b);
      BodyAt(b);
      Joins(mallocFreeLst, heapHash[..], live, memBlks, Body(b));
      BodyHasBlock(b, memBlks, bp.live, lastMergable);
      LargeMore(live, Body(b), memBlks, bp.live, lastMergable);
      live := live + [Body(b)];
      p := Some(Body(b));
    }

    static lemma SmallAskable(pags: nat)
      requires 0 < pags <= 18
      ensures Askable(pags)
    {
      assert Pow2(5) == 32;
      Pow2Mono(5, HASH2_SIZE - 2);
    }

    // Object i's header words survive a new object elsewhere.
    lemma HeadersKept(n: nat, was: map<int, int>, addr: int, size: nat)
      requires Packed(Pieces(), memBlks) && n + 1 == |live| && live[n] == Piece(addr, size)
      requires Headed(live[..n], was)
      ensures Headed(live, was[addr + 8 := size])
    {
      forall i | 0 <= i < n
        ensures live[i].addr != addr
      {
        LiveApart(mallocFreeLst, heapHash[..], live, i, n);
        InBag(mallocFreeLst, heapHash[..], live, live[i]);
        InBag(mallocFreeLst, heapHash[..], live, live[n]);
      }
      assert forall i :: 0 <= i < n ==> live[..n][i] == live[i];
    }

    // A short piece off a new chunk.
    method FromNewChunk(n: nat) returns (p: Option<Piece>)
      requires Valid() && n % 8 == 0 && SIZEOF_UNUSED <= n < MEM_HEAP_HASH_SIZE
      modifies `memBlks, `allocedU8s, `lastMergable, `mallocFreeLst, `live, heapHash, bp.Repr()
      ensures p.None? <==> old(bp.NoFit(ChunkPags(n)))
      ensures p.None? ==> Valid() && live == old(live)
      ensures p.Some? ==> Shape() && live == old(live) + [p.value] && p.value.size == n && OnTop(p.value)
      ensures OthersKept(old(bp.live), bp.live, old(memBlks), memBlks)
    {
      hide Valid, Shape, Pieces, Askable, OthersKept, CBlkPool.NoFit, CBlkPool.Valid, ChunkPags, Fits;
      var ok := NewChunk(n);
      if !ok {
        return None;
      }
      var addr := FromFree(0, n);
      p := Some(Piece(addr, n));
    }

    // A short piece off the free list, or off a new chunk if none of it fits.
    method FromChunks(n: nat) returns (p: Option<Piece>)
      requires Valid() && n % 8 == 0 && SIZEOF_UNUSED <= n < MEM_HEAP_HASH_SIZE
      modifies `memBlks, `allocedU8s, `lastMergable, `mallocFreeLst, `live, heapHash, bp.Repr()
      ensures p.None? <==>
                old((forall k :: 0 <= k < |mallocFreeLst| ==> !Fits(mallocFreeLst[k], n)) && bp.NoFit(ChunkPags(n)))
      ensures p.None? ==> Valid() && live == old(live)
      ensures p.Some? ==> Shape() && live == old(live) + [p.value] && p.value.size == n
      ensures OthersKept(old(bp.live), bp.live, old(memBlks), memBlks)
      ensures if old(AnyFits(mallocFreeLst, n)) then p.Some? && CutOff(old(mallocFreeLst), mallocFreeLst, n, p.value.addr)
              else p.Some? ==> OnTop(p.value)
    {
      KeptSame(bp.live, memBlks);
      hide Valid, Shape, Pieces, Askable, OthersKept, CBlkPool.NoFit, CBlkPool.Valid, ChunkPags, Fits, CutAt, OnTop;
      var k := FindFree(n);
      if k == |mallocFreeLst| {
        p := FromNewChunk(n);
      } else {
        ghost var was := mallocFreeLst;
        var addr := FromFree(k, n);
        CutFirst(was, mallocFreeLst, n, addr, k);
        p := Some(Piece(addr, n));
      }
    }

    // A piece of Gross(size) bytes or more for a new object.
    method Find(n: nat) returns (p: Option<Piece>)
      requires Valid() && n % 8 == 0 && SIZEOF_UNUSED <= n && Askable(BlkPags(n))
      modifies `memBlks, `allocedU8s, `lastMergable, `mallocFreeLst, `live, heapHash, bp.Repr()
      ensures p.None? <==> old(Nothing(n))
      ensures OthersKept(old(bp.live), bp.live, old(memBlks), memBlks)
      ensures p.None? ==> Valid() && live == old(live)
      ensures p.Some? ==> Shape() && live == old(live) + [p.value]
      ensures p.Some? ==> if n < MEM_HEAP_HASH_SIZE then p.value.size == n else p.value.size >= n
      ensures old(OfSize(n)) != [] ==>
                && p.Some? && p.value.addr == old(OfSize(n))[0].addr
                && OfSize(n) == old(OfSize(n))[1..] && mallocFreeLst == old(mallocFreeLst)
      ensures n < MEM_HEAP_HASH_SIZE && old(OfSize(n)) == [] ==>
                if old(AnyFits(mallocFreeLst, n)) then p.Some? && CutOff(old(mallocFreeLst), mallocFreeLst, n, p.value.addr)
                else p.Some? ==> OnTop(p.value)
      ensures n >= MEM_HEAP_HASH_SIZE && old(bp.Exact(BlkPags(n))) != [] ==>
                p.Some? && p.value.addr == BlkAddr(old(bp.Exact(BlkPags(n)))[0])
    {
      hide Packed, Owns, Bag, CBlkPool.Valid, Sum, LargeOk, HasPage;
      hide HashOk, Bytes, Askable, OthersKept, CBlkPool.NoFit, Fits, CBlkPool.Exact, CutOff, AnyFits, OnTop;
      KeptSame(bp.live, memBlks);
      if n >= MEM_HEAP_HASH_SIZE {
        p := OwnBlock(n);
      } else if heapHash[n / 8] != [] {
        var addr := FromHash(n / 8);
        p := Some(Piece(addr, n));
      } else {
        p := FromChunks(n);
      }
    }

    /** MAlloc: None is the exception 'OutMem'. What comes back is past the header of a new object that
        shares no byte with another, is small exactly if the request is, and can hold the request. */
    method MAlloc(size: nat) returns (ptr: Option<int>)
      requires Valid() && Askable(BlkPags(Gross(size)))
      modifies this, heapHash, bp.Repr()
      ensures Valid()
      ensures ptr.None? <==> old(Nothing(Gross(size)))
      ensures ptr.None? ==> live == old(live) && sizes == old(sizes) && usedU8s == old(usedU8s)
      ensures ptr.Some? ==>
                && |live| == |old(live)| + 1 && old(live) < live
                && ptr.value > USED_START
                && var o := live[|old(live)|];
                && ptr.value == o.addr + USED_START && ptr.value % 8 == 0 && o.size >= Gross(size)
                && (Gross(size) < MEM_HEAP_HASH_SIZE ==> o.size == Gross(size))
                && usedU8s == old(usedU8s) + o.size && sizes == old(sizes)[ptr.value - 8 := o.size]
                && Handle(ptr.value, |old(live)|)
      ensures old(OfSize(Gross(size))) != [] ==>
                && ptr == Some(old(OfSize(Gross(size)))[0].addr + USED_START)
                && OfSize(Gross(size)) == old(OfSize(Gross(size)))[1..] && mallocFreeLst == old(mallocFreeLst)
      ensures Gross(size) < MEM_HEAP_HASH_SIZE && old(OfSize(Gross(size))) == [] && ptr.Some? ==>
                if old(AnyFits(mallocFreeLst, Gross(size))) then
                  CutOff(old(mallocFreeLst), mallocFreeLst, Gross(size), ptr.value - USED_START)
                else OnTop(Piece(ptr.value - USED_START, Gross(size)))
      ensures Gross(size) >= MEM_HEAP_HASH_SIZE && old(bp.Exact(BlkPags(Gross(size)))) != [] ==>
                ptr == Some(BlkAddr(old(bp.Exact(BlkPags(Gross(size))))[0]) + USED_START)
      ensures forall h, i: nat :: old(Handle(h, i)) ==> Handle(h, i)
      ensures OthersKept(old(bp.live), bp.live, old(memBlks), memBlks)
    {
      hide Packed, Owns, Bag, CBlkPool.Valid, Sum, LargeOk, HasPage;
      hide HashOk, Bytes, Askable, Headed, Nothing, OthersKept, CBlkPool.Exact, CutOff, AnyFits, OnTop, OfSize, BlkAddr, BlkPags;
      var res := Find(Gross(size));
      if res.None? {
        return None;
      }
      var p := res.value;
      assert live[..|live| - 1] == old(live) && old(live) < live;
      HeadersKept(|live| - 1, sizes, p.addr, p.size);
      BytesAppend(old(live), p);
      LiveSound(|live| - 1);
      LivePositive(|live| - 1);
      usedU8s := usedU8s + p.size;
      HandlesKept(|live| - 1, sizes, sizes[p.addr + 8 := p.size]);
      sizes := sizes[p.addr + 8 := p.size];
      ptr := Some(p.addr + USED_START);
    }

    // The block an object is in.
    lemma HouseOf(i: nat) returns (k: nat)
      requires Packed(Pieces(), memBlks) && i < |live|
      ensures k < |memBlks| && Inside(live[i], memBlks[k])
    {
      InBag(mallocFreeLst, heapHash[..], live, live[i]);
      assert Housed(live[i], memBlks);
      k :| 0 <= k < |memBlks| && Inside(live[i], memBlks[k]);
    }

    /** No object is at NULL. */
    lemma LivePositive(i: nat)
      requires Shape() && i < |live|
      ensures live[i].addr > 0
    {
      var k := HouseOf(i);
      assert Holds(memBlks[k], memBlks[k].page);
      assert InLive(bp.live, memBlks[k].page);
      var n: int :| 0 <= n < |bp.live| && Holds(bp.live[n], memBlks[k].page);
      bp.LivePositive(n);
    }

    lemma LiveSound(i: nat)
      requires Packed(Pieces(), memBlks) && i < |live|
      ensures Sound(live[i])
    {
      InBag(mallocFreeLst, heapHash[..], live, live[i]);
    }

    /** What a caller may free: a place in object i whose word in front is the object's size, or the way
        back to it. */
    ghost predicate Handle(ptr: int, i: nat)
      reads this
    {
      i < |live| && Leads(ptr, live[i], sizes)
    }

    // A new object's words are in nobody else's way.
    lemma HandlesKept(n: nat, was: map<int, int>, now: map<int, int>)
      requires Packed(Pieces(), memBlks) && n + 1 == |live|
      requires forall k :: k in was && !(live[n].addr <= k < live[n].addr + live[n].size) ==> k in now && now[k] == was[k]
      ensures forall h, i: nat :: i < n && Leads(h, live[i], was) ==> Leads(h, live[i], now)
    {
      forall h, i: nat | i < n && Leads(h, live[i], was)
        ensures Leads(h, live[i], now)
      {
        LiveApart(mallocFreeLst, heapHash[..], live, i, n);
      }
    }

    /** MSize: the room an object has. */
    method MSize(ptr: int, ghost i: nat) returns (n: int)
      requires Valid() && (ptr != 0 ==> Handle(ptr, i))
      ensures n == if ptr == 0 then 0 else live[i].size - USED_START
    {
      if ptr == 0 {
        return 0;
      }
      var w := sizes[ptr - 8];
      if w < 0 {
        w := sizes[ptr + w - 8];
      }
      n := w - USED_START;
    }

    /** Free: object i is given back; small ones to the list for their size, large ones with their
        block to the pool. */
    method Free(ptr: int, ghost i: nat)
      requires Valid() && (ptr != 0 ==> Handle(ptr, i))
      modifies this, heapHash, bp.Repr()
      ensures Valid() && sizes == old(sizes)
      ensures ptr == 0 ==> live == old(live) && usedU8s == old(usedU8s)
      ensures ptr != 0 ==> live == Without(old(live), i) && usedU8s == old(usedU8s) - old(live)[i].size
      ensures ptr != 0 && old(live)[i].size < MEM_HEAP_HASH_SIZE ==>
                OfSize(old(live)[i].size) == [old(live)[i]] + old(OfSize(live[i].size))
      ensures ptr != 0 && old(live)[i].size >= MEM_HEAP_HASH_SIZE ==> HadAgain(old(live)[i])
      ensures ptr != 0 ==> forall h, k: nat :: old(Handle(h, k)) && k != i ==> Handle(h, if k < i then k else k - 1)
      ensures OthersKept(old(bp.live), bp.live, old(memBlks), memBlks)
    {
      hide Shape, CBlkPool.Valid, Bytes, OthersKept, HadAgain;
      KeptSame(bp.live, memBlks);
      if ptr != 0 {
        var w := sizes[ptr - 8];
        var addr := (if w < 0 then ptr + w else ptr) - USED_START;
        var size := sizes[addr + 8];
        if size < MEM_HEAP_HASH_SIZE {
          FreeSmall(Piece(addr, size), i);
        } else {
          FreeLarge(Piece(addr, size), i);
        }
      }
    }

    method FreeSmall(p: Piece, ghost i: nat)
      requires Valid() && i < |live| && live[i] == p && p.size < MEM_HEAP_HASH_SIZE
      modifies `live, `usedU8s, heapHash
      ensures Valid() && live == Without(old(live), i) && usedU8s == old(usedU8s) - p.size
      ensures OfSize(p.size) == [p] + old(OfSize(p.size))
    {
      LiveSound(i);
      var n := p.size / 8;
      assert p.size == 8 * n && n < heapHash.Length;
      hide ListsOk, Owns, CBlkPool.Valid, HasPage, Sum, Bytes, Headed, Without, Sound, Bag;
      ghost var h := heapHash[..];
      ListsFree(mallocFreeLst, h, live, memBlks, bp.live, lastMergable, i, n);
      Removed(live, i);
      BytesRemove(live, i);
      HeadedFewer(live, i, sizes);
      heapHash[n] := [p] + heapHash[n];
      assert heapHash[..] == h[n := [p] + h[n]];
      usedU8s := usedU8s - p.size;
      live := Without(live, i);
    }

    static lemma Removed(s: seq<Piece>, i: nat)
      requires i < |s|
      ensures Without(s, i) == s[..i] + s[i + 1..]
    {
    }

    // A large object's block is one of the heap's, and alone has its page.
    lemma BlockOf(p: Piece, i: nat, k: nat)
      requires Shape() && i < |live| && live[i] == p && p.size >= MEM_HEAP_HASH_SIZE
      ensures HasPage(memBlks, (p.addr - SIZEOF_MEM_BLK) / MEM_PAG_SIZE)
      ensures k < |memBlks| && memBlks[k].page == (p.addr - SIZEOF_MEM_BLK) / MEM_PAG_SIZE ==>
                && memBlks[k].pags > 0 && memBlks[k] in bp.live && p == Body(memBlks[k])
                && lastMergable != Some(memBlks[k].page)
    {
      assert HasBlock(p, memBlks, bp.live, lastMergable);
      var b :| b in memBlks && b in bp.live && b.pags > 0 && p == Body(b) && lastMergable != Some(b.page);
      var j :| 0 <= j < |memBlks| && memBlks[j] == b;
      if k < |memBlks| && k != j {
        assert if j < k then Apart(memBlks[j], memBlks[k]) else Apart(memBlks[k], memBlks[j]);
      }
    }

    lemma ObjectsDiffer(i: nat)
      requires Packed(Pieces(), memBlks) && i < |live|
      ensures forall n :: 0 <= n < |live| && n != i ==> live[n] != live[i]
    {
      forall n | 0 <= n < |live| && n != i
        ensures live[n] != live[i]
      {
        LiveApart(mallocFreeLst, heapHash[..], live, if n < i then n else i, if n < i then i else n);
      }
    }

    // MemPagTaskFree as Free calls it.
    method FreeLarge(p: Piece, ghost i: nat)
      requires Valid() && i < |live| && live[i] == p && p.size >= MEM_HEAP_HASH_SIZE
      modifies `live, `usedU8s, `memBlks, `allocedU8s, bp.Repr()
      ensures Valid() && live == Without(old(live), i) && usedU8s == old(usedU8s) - p.size
      ensures OthersKept(old(bp.live), bp.live, old(memBlks), memBlks)
      ensures HadAgain(p)
    {
      hide OthersKept, Packed, Bag, Owns, LargeOk, CBlkPool.Valid, HasPage, Sound, HashOk, Sum, Bytes, Body, Headed, HadAgain;
      hide CBlkPool.ServesRequest, CBlkPool.NoFit, CBlkPool.GaveHead;
      ghost var rest := live[..i] + live[i + 1..];
      BlockOf(p, i, 0);
      var k := PageIndex(memBlks, (p.addr - SIZEOF_MEM_BLK) / MEM_PAG_SIZE);
      BlockOf(p, i, k);
      var m := memBlks[k];
      ghost var j :| 0 <= j < |bp.live| && bp.live[j] == m;
      DropLive(mallocFreeLst, heapHash[..], live, i);
      Dropped(Pieces(), Bag(mallocFreeLst, heapHash[..], rest), memBlks, bp.live, k, j);
      ObjectsDiffer(i);
      LargeDrops(live, i, memBlks, k, bp.live, j, lastMergable);
      BytesRemove(live, i);
      KeptDropped(bp.live, memBlks, k, j);
      HasPageDrops(memBlks, k);
      HeadedFewer(live, i, sizes);
      memBlks := memBlks[..k] + memBlks[k + 1..];
      allocedU8s := allocedU8s - m.pags * MEM_PAG_SIZE;
      usedU8s := usedU8s - p.size;
      live := rest;
      bp.MemPagFree(m, j);
      OwnPags(m);
      AgainIs(m, p);
    }

    // Pages of the block that is a large object's own.
    static function PagsOf(p: Piece): nat
    {
      (p.size + SIZEOF_MEM_BLK) / MEM_PAG_SIZE
    }

    static lemma OwnPags(b: MemBlk)
      requires b.pags > 0
      ensures PagsOf(Body(b)) == b.pags
    {
    }

    /** The block of a large object that has been given back serves requests: short ones at the object's own
        place. */
    ghost predicate HadAgain(p: Piece)
      reads bp.Repr()
    {
      && bp.Sorted() && (forall q: nat :: Askable(q) && CBlkPool.ServesRequest(PagsOf(p), q) ==> !bp.NoFit(q))
      && (PagsOf(p) < MEM_FREE_PAG_HASH_SIZE ==>
            bp.freePagHash[PagsOf(p)] != [] && BlkAddr(bp.freePagHash[PagsOf(p)][0]) == p.addr)
    }

    lemma AgainIs(m: MemBlk, p: Piece)
      requires m.pags > 0 && p == Body(m) && PagsOf(p) == m.pags && bp.Sorted()
      requires forall q: nat :: Askable(q) && CBlkPool.ServesRequest(m.pags, q) ==> !bp.NoFit(q)
      requires m.pags < MEM_FREE_PAG_HASH_SIZE ==> bp.freePagHash[m.pags] != [] && bp.freePagHash[m.pags][0] == m
      ensures HadAgain(p)
    {
    }

    // A small object is freed, as far as the next request sees it.
    method FreeListed(ptr: int, ghost i: nat)
      requires Valid() && ptr != 0 && Handle(ptr, i) && live[i].size < MEM_HEAP_HASH_SIZE
      modifies this, heapHash, bp.Repr()
      ensures Valid() && live == Without(old(live), i) && usedU8s == old(usedU8s) - old(live)[i].size
      ensures OfSize(old(live)[i].size) != [] && OfSize(old(live)[i].size)[0] == old(live)[i]
    {
      hide Valid, OthersKept, OfSize, Without, Leads;
      Free(ptr, i);
    }

    // A request its own list can serve.
    method MAllocListed(size: nat) returns (ptr: Option<int>)
      requires Valid() && Gross(size) < MEM_HEAP_HASH_SIZE && OfSize(Gross(size)) != []
      modifies this, heapHash, bp.Repr()
      ensures Valid() && ptr == Some(old(OfSize(Gross(size)))[0].addr + USED_START)
      ensures usedU8s == old(usedU8s) + Gross(size)
      ensures live == old(live) + [Piece(old(OfSize(Gross(size)))[0].addr, Gross(size))]
    {
      hide *;
      SmallGross(Gross(size));
      ptr := MAlloc(size);
      Lengthened(old(live), live, Piece(ptr.value - USED_START, Gross(size)));
    }

    static lemma Lengthened(was: seq<Piece>, now: seq<Piece>, p: Piece)
      requires was < now && |now| == |was| + 1 && now[|was|].addr == p.addr && now[|was|].size == p.size
      ensures now == was + [p]
    {
    }

    /** A small object's place serves the next request of its size, whatever else is free: Free and MAlloc
        in a row never run out of memory. */
    method FreeThenMAlloc(ptr: int, ghost i: nat, size: nat) returns (again: Option<int>)
      requires Valid() && ptr != 0 && Handle(ptr, i) && live[i].size == Gross(size) < MEM_HEAP_HASH_SIZE
      modifies this, heapHash, bp.Repr()
      ensures Valid() && again == Some(old(live)[i].addr + USED_START) && usedU8s == old(usedU8s)
      ensures live == Without(old(live), i) + [old(live)[i]]
    {
      hide Valid, OfSize, Gross, Leads, Without;
      FreeListed(ptr, i);
      again := MAllocListed(size);
    }

    /** And a large object's block serves any later request that it is long enough for. */
    method FreeThenMAllocLarge(ptr: int, ghost i: nat, size: nat) returns (again: Option<int>)
      requires Valid() && ptr != 0 && Handle(ptr, i) && live[i].size >= MEM_HEAP_HASH_SIZE
      requires Gross(size) >= MEM_HEAP_HASH_SIZE && Askable(BlkPags(Gross(size)))
      requires CBlkPool.ServesRequest(PagsOf(live[i]), BlkPags(Gross(size)))
      modifies this, heapHash, bp.Repr()
      ensures Valid() && again.Some?
      ensures BlkPags(Gross(size)) == PagsOf(old(live)[i]) < MEM_FREE_PAG_HASH_SIZE ==>
                again == Some(old(live)[i].addr + USED_START)
    {
      hide Shape, Gross, Leads, Without, BlkPags, Askable, OthersKept, OfSize, CutOff, AnyFits, OnTop, Headed, Bytes, Fits;
      hide CBlkPool.ServesRequest, CBlkPool.NoFit, CBlkPool.Valid, BlkAddr, PagsOf;
      Free(ptr, i);
      again := MAlloc(size);
    }

    static lemma SmallGross(n: nat)
      requires n < MEM_HEAP_HASH_SIZE
      ensures Askable(BlkPags(n))
    {
      SmallAskable(BlkPags(n));
    }

    /** MAllocAligned: the word in front of what comes back leads to the object, so that MSize and Free
        take it; the room asked for lies inside the object. All older pointers lead where they led. */
    method MAllocAligned(size: nat, alignment: nat, misalignment: nat) returns (ptr: Option<int>)
      requires Valid() && alignment > 0 && Askable(BlkPags(Gross(size + alignment - 1 + 8 + misalignment)))
      modifies this, heapHash, bp.Repr()
      ensures Valid()
      ensures ptr.None? <==> old(Nothing(Gross(size + alignment - 1 + 8 + misalignment)))
      ensures ptr.None? ==> live == old(live) && sizes == old(sizes) && usedU8s == old(usedU8s)
      ensures ptr.Some? ==>
                && |live| == |old(live)| + 1 && old(live) < live
                && ptr.value > USED_START
                && Handle(ptr.value, |old(live)|) && (ptr.value - misalignment) % alignment == 0
                && var o := live[|old(live)|];
                && o.addr + USED_START <= ptr.value && ptr.value + size <= o.addr + o.size
                && usedU8s == old(usedU8s) + o.size
                && sizes == old(sizes)[o.addr + 8 := o.size][ptr.value - 8 := o.addr + USED_START - ptr.value]
      ensures forall h, i: nat :: old(Handle(h, i)) ==> Handle(h, i)
      ensures OthersKept(old(bp.live), bp.live, old(memBlks), memBlks)
    {
      hide Valid, Leads, Nothing, OthersKept, Askable, Gross, BlkPags, CBlkPool.Valid, CBlkPool.NoFit;
      var mask := alignment - 1;
      var at := MAlloc(size + mask + 8 + misalignment);
      if at.None? {
        return None;
      }
      assert at.value - 8 == live[|live| - 1].addr + 8;
      GrossRoom(size + mask + 8 + misalignment);
      var res := Aligned(at.value + 8 + mask, alignment) + misalignment;
      LeadBack(at.value, res);
      ptr := Some(res);
    }

    static lemma GrossRoom(size: nat)
      ensures Gross(size) >= size + USED_START
    {
    }

    // The word in front of a pointer into the newest object leads back to it.
    method LeadBack(at: int, ptr: int)
      requires Valid() && live != [] && at == live[|live| - 1].addr + USED_START
      requires at + 8 <= ptr <= live[|live| - 1].addr + live[|live| - 1].size
      modifies `sizes
      ensures Valid() && Handle(ptr, |live| - 1) && sizes == old(sizes)[ptr - 8 := at - ptr]
      ensures forall h, i: nat :: old(Handle(h, i)) && i < |live| - 1 ==> Handle(h, i)
    {
      hide Packed, Owns, Bag, CBlkPool.Valid, Sum, LargeOk, HasPage, HashOk, Bytes;
      ghost var n := |live| - 1;
      InnerWord(n, ptr - 8);
      HandlesKept(n, sizes, sizes[ptr - 8 := at - ptr]);
      sizes := sizes[ptr - 8 := at - ptr];
    }

    // Clearing the low bits of an address, for an alignment that is a power of two.
    static function Aligned(x: int, alignment: nat): (r: int)
      requires alignment > 0
      ensures r % alignment == 0 && x - alignment < r <= x
    {
      AlignedMod(x, alignment);
      x - x % alignment
    }

    static lemma AlignedMod(x: int, a: nat)
      requires a > 0
      ensures (x - x % a) % a == 0
    {
      assert x == a * (x / a) + x % a;
      TimesMod(a, x / a);
    }

    static lemma TimesMod(a: nat, q: int)
      requires a > 0
      ensures (a * q) % a == 0
    {
      var k := (a * q) / a;
      assert a * q == a * k + (a * q) % a;
      var d := q - k;
      assert a * d == (a * q) % a;
      TimesGrows(a, d);
    }

    static lemma TimesGrows(a: nat, d: int)
      ensures d >= 1 ==> a * d >= a
      ensures d <= -1 ==> a * d + a <= 0
    {
    }

    // A word inside object n is no object's header.
    lemma InnerWord(n: nat, at: int)
      requires Packed(Pieces(), memBlks) && n < |live|
      requires live[n].addr + USED_START <= at < live[n].addr + live[n].size
      ensures forall i :: 0 <= i < |live| ==> live[i].addr + 8 != at
    {
      forall i | 0 <= i < |live|
        ensures live[i].addr + 8 != at
      {
        if i != n {
          LiveApart(mallocFreeLst, heapHash[..], live, if i < n then i else n, if i < n then n else i);
          InBag(mallocFreeLst, heapHash[..], live, live[i]);
        }
      }
    }
  }
}

/** Several heaps on one page pool: every task has its own, and MAlloc and Free are told which one to use
    (HolyCRT/Mem/MAllocFree.HC). Calls on different heaps may come in any order. */
module TaskHeaps {
  import opened MemPool
  import opened HeapSpec
  import opened Heap

  // No block the pool has handed out is partly in both heaps' blocks.
  ghost predicate Separate(x: seq<MemBlk>, y: seq<MemBlk>, live: seq<MemBlk>)
  {
    forall b :: b in live ==> Foreign(b, x) || Foreign(b, y)
  }

  // ---- A call on one heap, seen from another: was and wasBlks are the pool's and the caller's blocks before ----

  lemma StillOwns(was: seq<MemBlk>, live: seq<MemBlk>, wasBlks: seq<MemBlk>, now: seq<MemBlk>, blks: seq<MemBlk>)
    requires OthersKept(was, live, wasBlks, now) && Separate(wasBlks, blks, was) && Owns(blks, was)
    ensures Owns(blks, live)
  {
    forall k, p | 0 <= k < |blks| && Holds(blks[k], p)
      ensures InLive(live, p)
    {
      assert InLive(was, p) && InLive(blks, p);
      var i: int :| 0 <= i < |was| && Holds(was[i], p);
      assert was[i] in was && !Foreign(was[i], blks);
      assert was[i] in live;
    }
  }

  lemma StillLarge(was: seq<MemBlk>, live: seq<MemBlk>, wasBlks: seq<MemBlk>, now: seq<MemBlk>, blks: seq<MemBlk>,
      objs: seq<Piece>, mergable: Option<int>)
    requires OthersKept(was, live, wasBlks, now) && Separate(wasBlks, blks, was) && LargeOk(objs, blks, was, mergable)
    ensures LargeOk(objs, blks, live, mergable)
  {
    forall i | 0 <= i < |objs| && objs[i].size >= MEM_HEAP_HASH_SIZE
      ensures HasBlock(objs[i], blks, live, mergable)
    {
      assert HasBlock(objs[i], blks, was, mergable);
      var b :| b in blks && b in was && b.pags > 0 && objs[i] == Body(b) && mergable != Some(b.page);
      assert Holds(b, b.page) && InLive(blks, b.page);
      assert b in live;
    }
  }

  lemma StillSeparate(was: seq<MemBlk>, live: seq<MemBlk>, wasBlks: seq<MemBlk>, now: seq<MemBlk>, blks: seq<MemBlk>)
    requires OthersKept(was, live, wasBlks, now) && Separate(wasBlks, blks, was) && Owns(blks, was)
    ensures Separate(now, blks, live)
  {
    forall b | b in live
      ensures Foreign(b, now) || Foreign(b, blks)
    {
      if b !in was {
        NewIsForeign(was, blks, b);
      }
    }
  }

  lemma ThirdsSeparate(was: seq<MemBlk>, live: seq<MemBlk>, wasBlks: seq<MemBlk>, now: seq<MemBlk>,
      x: seq<MemBlk>, y: seq<MemBlk>)
    requires OthersKept(was, live, wasBlks, now) && Separate(x, y, was) && Owns(x, was)
    ensures Separate(x, y, live)
  {
    forall b | b in live
      ensures Foreign(b, x) || Foreign(b, y)
    {
      if b !in was {
        NewIsForeign(was, x, b);
      }
    }
  }

  lemma NewIsForeign(was: seq<MemBlk>, blks: seq<MemBlk>, b: MemBlk)
    requires Foreign(b, was) && Owns(blks, was)
    ensures Foreign(b, blks)
  {
    forall p | InLive(blks, p)
      ensures InLive(was, p)
    {
      var k: int :| 0 <= k < |blks| && Holds(blks[k], p);
    }
  }

  // ---- The heaps of all tasks ----

  ghost function Memory(hs: set<CHeapCtrl>): (m: set<object>)
  {
    (set h | h in hs :: h as object) + (set h | h in hs :: h.heapHash as object)
  }

  // The heaps are different objects, all on the one pool.
  ghost predicate OnPool(hs: set<CHeapCtrl>, bp: CBlkPool)
  {
    && (forall h :: h in hs ==> h.bp == bp && h !in bp.Repr() && h.heapHash !in bp.Repr())
    && (forall g, h :: g in hs && h in hs && g != h ==> g.heapHash != h.heapHash)
  }

  ghost predicate AllValid(hs: set<CHeapCtrl>, bp: CBlkPool)
    requires OnPool(hs, bp)
    reads Memory(hs), bp.Repr()
  {
    forall h :: h in hs ==> h.Valid()
  }

  ghost predicate AllSeparate(hs: set<CHeapCtrl>, bp: CBlkPool)
    reads Memory(hs), bp
  {
    forall g, h :: g in hs && h in hs && g != h ==> Separate(g.memBlks, h.memBlks, bp.live)
  }

  /** What holds between calls. */
  ghost predicate Together(hs: set<CHeapCtrl>, bp: CBlkPool)
    reads Memory(hs), bp.Repr()
  {
    OnPool(hs, bp) && bp.Valid() && AllValid(hs, bp) && AllSeparate(hs, bp)
  }

  // The heaps, and the one a call is made on.
  datatype Turn = Turn(hs: set<CHeapCtrl>, bp: CBlkPool, c: CHeapCtrl)

  twostate predicate Untouched(h: CHeapCtrl)
    reads h, h.heapHash
  {
    unchanged(h, h.heapHash)
  }

  /** A call on one heap keeps all heaps valid, and all heaps' blocks apart. */
  twostate lemma StayTogether(t: Turn)
    requires old(Together(t.hs, t.bp)) && t.c in t.hs && t.c.Valid()
    requires OthersKept(old(t.bp.live), t.bp.live, old(t.c.memBlks), t.c.memBlks)
    requires forall h :: h in t.hs && h != t.c ==> Untouched(h)
    ensures Together(t.hs, t.bp)
  {
    hide OthersKept, Separate, Owns, LargeOk, Packed, HashOk, HasPage, Headed, Bytes, Sum, Bag;
    var was, live, wasBlks, blks := old(t.bp.live), t.bp.live, old(t.c.memBlks), t.c.memBlks;
    forall h | h in t.hs && h != t.c
      ensures h.Valid() && Separate(blks, h.memBlks, live) && Separate(h.memBlks, blks, live)
    {
      assert h.heapHash[..] == old(h.heapHash[..]);
      StillOwns(was, live, wasBlks, blks, h.memBlks);
      StillLarge(was, live, wasBlks, blks, h.memBlks, h.live, h.lastMergable);
      StillSeparate(was, live, wasBlks, blks, h.memBlks);
      SeparateTurned(blks, h.memBlks, live);
    }
    forall g, h | g in t.hs && h in t.hs && g != h && g != t.c && h != t.c
      ensures Separate(g.memBlks, h.memBlks, live)
    {
      assert Owns(old(g.memBlks), was);
      ThirdsSeparate(was, live, wasBlks, blks, g.memBlks, h.memBlks);
    }
  }

  lemma SeparateTurned(x: seq<MemBlk>, y: seq<MemBlk>, live: seq<MemBlk>)
    requires Separate(x, y, live)
    ensures Separate(y, x, live)
  {
  }

  lemma BlocksApart(x: seq<MemBlk>, y: seq<MemBlk>, live: seq<MemBlk>, a: nat, b: nat)
    requires Owns(x, live) && Owns(y, live) && Separate(x, y, live) && a < |x| && b < |y|
    ensures Apart(x[a], y[b])
  {
    var p := if x[a].page <= y[b].page then y[b].page else x[a].page;
    InBoth(x, y, live, p);
    assert Holds(x[a], p) ==> InLive(x, p);
    assert Holds(y[b], p) ==> InLive(y, p);
  }

  lemma InBoth(x: seq<MemBlk>, y: seq<MemBlk>, live: seq<MemBlk>, p: int)
    requires Owns(x, live) && Separate(x, y, live)
    ensures !InLive(x, p) || !InLive(y, p)
  {
    if InLive(x, p) {
      var k: int :| 0 <= k < |x| && Holds(x[k], p);
      assert InLive(live, p);
      var i: int :| 0 <= i < |live| && Holds(live[i], p);
      assert live[i] in live;
    }
  }

  /** In every state in which the heaps are together, no two objects share a byte: not two of one heap, not
      objects of two heaps. */
  lemma NoByteShared(hs: set<CHeapCtrl>, bp: CBlkPool, g: CHeapCtrl, i: nat, h: CHeapCtrl, j: nat)
    requires Together(hs, bp) && g in hs && h in hs && i < |g.live| && j < |h.live| && (g != h || i != j)
    ensures Clear(g.live[i], h.live[j])
  {
    assert g.Valid() && h.Valid();
    if g == h {
      g.ObjectsApart(if i < j then i else j, if i < j then j else i);
    } else {
      var a := g.HouseOf(i);
      var b := h.HouseOf(j);
      BlocksApart(g.memBlks, h.memBlks, bp.live, a, b);
    }
  }

  // ---- Runs ----

  /** Calls as tasks make them: MAlloc, MAllocAligned, and Free of the k-th pointer held to an object of the
      heap. */
  datatype Call = New(hc: CHeapCtrl, size: nat)
                | NewAligned(hc: CHeapCtrl, size: nat, alignment: nat, misalignment: nat)
                | Give(hc: CHeapCtrl, k: nat)

  // What the heap is asked for, header included.
  function Demand(c: Call): nat
    requires !c.Give?
  {
    Gross(if c.New? then c.size else c.size + c.alignment + 7 + c.misalignment)
  }

  ghost predicate Callable(c: Call, hs: set<CHeapCtrl>)
  {
    && c.hc in hs && (c.NewAligned? ==> c.alignment > 0) && (!c.Give? ==> Askable(BlkPags(Demand(c))))
  }

  /** The pointers a task holds to a heap's objects, and the objects. */
  datatype Holding = Holding(ptrs: seq<int>, objs: seq<Piece>)

  // One object more at the end, with room for the size behind the pointer; all others stay where they are.
  predicate Grown(c: Call, was: Holding, now: Holding)
    requires !c.Give?
  {
    && |now.ptrs| == |was.ptrs| + 1 && was.ptrs < now.ptrs && |now.objs| == |was.objs| + 1 && was.objs < now.objs
    && var p, o := now.ptrs[|was.ptrs|], now.objs[|was.objs|];
    && o.addr < p && p + c.size <= o.addr + o.size
    && if c.New? then p % 8 == 0 else c.alignment > 0 && (p - c.misalignment) % c.alignment == 0
  }

  // The object given back goes, and no other.
  predicate Shrunk(k: nat, was: Holding, now: Holding)
  {
    if k < |was.ptrs| then
      && |was.objs| == |was.ptrs|
      && now.ptrs == was.ptrs[..k] + was.ptrs[k + 1..] && now.objs == was.objs[..k] + was.objs[k + 1..]
    else
      now == was
  }

  predicate Answered(c: Call, was: Holding, now: Holding)
  {
    if c.Give? then Shrunk(c.k, was, now) else now == was || Grown(c, was, now)
  }

  // Of all the heaps only the one the call is made on has other objects.
  predicate Logged(c: Call, was: map<CHeapCtrl, Holding>, now: map<CHeapCtrl, Holding>)
  {
    && was.Keys == now.Keys && c.hc in was && Answered(c, was[c.hc], now[c.hc])
    && forall h :: h in was && h != c.hc ==> now[h] == was[h]
  }

  // The pointers held lead to the heap's objects, one to each.
  ghost predicate Leading(h: CHeapCtrl, held: seq<int>)
    reads h
  {
    |held| == |h.live| && forall i :: 0 <= i < |held| ==> held[i] != 0 && h.Handle(held[i], i)
  }

  ghost predicate AllLeading(hs: set<CHeapCtrl>, held: map<CHeapCtrl, seq<int>>)
    reads hs
  {
    held.Keys == hs && forall h :: h in hs ==> Leading(h, held[h])
  }

  ghost function Snapshot(hs: set<CHeapCtrl>, held: map<CHeapCtrl, seq<int>>): map<CHeapCtrl, Holding>
    requires held.Keys == hs
    reads hs
  {
    map h | h in hs :: Holding(held[h], h.live)
  }

  // One call on a heap.
  method Perform(c: Call, held: seq<int>) returns (now: seq<int>)
    requires c.hc.Valid() && Leading(c.hc, held) && Callable(c, {c.hc})
    modifies c.hc.Repr()
    ensures c.hc.Valid() && Leading(c.hc, now)
    ensures Answered(c, Holding(held, old(c.hc.live)), Holding(now, c.hc.live))
    ensures !c.Give? ==> (now == held <==> old(c.hc.Nothing(Demand(c))))
    ensures OthersKept(old(c.hc.bp.live), c.hc.bp.live, old(c.hc.memBlks), c.hc.memBlks)
  {
    hide OthersKept, CHeapCtrl.Valid, CHeapCtrl.Nothing, Askable, Gross, Leads;
    var h := c.hc;
    now := held;
    KeptSame(h.bp.live, h.memBlks);
    match c {
      case New(_, size) =>
        var ptr := h.MAlloc(size);
        if ptr.Some? {
          now := held + [ptr.value];
        }
      case NewAligned(_, size, alignment, misalignment) =>
        var ptr := h.MAllocAligned(size, alignment, misalignment);
        if ptr.Some? {
          now := held + [ptr.value];
        }
      case Give(_, k) =>
        if k < |held| {
          h.Free(held[k], k);
          now := held[..k] + held[k + 1..];
        }
    }
  }

  /** A call on one heap keeps all heaps valid and their blocks apart, and leaves the other heaps' objects
      alone. A request is refused exactly if heap and pool have nothing for it; if not there is one object
      more; what is given back goes. */
  method Serve(hs: set<CHeapCtrl>, bp: CBlkPool, c: Call, held: map<CHeapCtrl, seq<int>>)
      returns (now: map<CHeapCtrl, seq<int>>)
    requires Together(hs, bp) && Callable(c, hs) && AllLeading(hs, held)
    modifies Memory(hs), bp.Repr()
    ensures Together(hs, bp) && AllLeading(hs, now) && now.Keys == hs
    ensures forall h :: h in hs && h != c.hc ==> now[h] == held[h] && Untouched(h)
    ensures Logged(c, old(Snapshot(hs, held)), Snapshot(hs, now))
    ensures !c.Give? ==> (now[c.hc] == held[c.hc] <==> old(c.hc.Nothing(Demand(c))))
  {
    hide CHeapCtrl.Valid, CHeapCtrl.Handle, AllSeparate, OthersKept, Callable, Answered, CBlkPool.Valid, Gross;
    Target(c, hs, bp);
    var mine := Perform(c, held[c.hc]);
    StayTogether(Turn(hs, bp, c.hc));
    now := held[c.hc := mine];
  }

  lemma Target(c: Call, hs: set<CHeapCtrl>, bp: CBlkPool)
    requires Together(hs, bp) && Callable(c, hs)
    ensures c.hc in hs && Callable(c, {c.hc}) && c.hc.Valid()
    ensures c.hc.Repr() <= Memory(hs) + bp.Repr()
    ensures forall h :: h in hs && h != c.hc ==> h !in c.hc.Repr() && h.heapHash !in c.hc.Repr()
  {
  }

  /** HeapCtrlInit: a new task's heap joins the others. */
  method Init(hs: set<CHeapCtrl>, bp: CBlkPool) returns (h: CHeapCtrl)
    requires Together(hs, bp)
    ensures fresh(h) && h !in hs && h.bp == bp && h.live == [] && Together(hs + {h}, bp)
  {
    hide Separate, CBlkPool.Valid;
    h := new CHeapCtrl(bp);
    assert h !in bp.Repr() && h.heapHash !in bp.Repr();
    forall g | g in hs
      ensures g.Valid()
    {
      assert old(g.Valid());
    }
    hide CHeapCtrl.Valid;
    Joins(hs, bp, h);
  }

  // A heap with no blocks yet is apart from all others.
  lemma Joins(hs: set<CHeapCtrl>, bp: CBlkPool, h: CHeapCtrl)
    requires AllSeparate(hs, bp) && h.memBlks == []
    ensures AllSeparate(hs + {h}, bp)
  {
    hide Foreign;
    NoneForeign();
  }

  lemma NoneForeign()
    ensures forall b :: Foreign(b, [])
  {
  }

  /** Any calls on any of the heaps, in any order: all heaps stay valid, the pointers held lead to their own
      objects, and (`NoByteShared`) no two objects share a byte. The log tells what was held before the first
      call and after each: an object stays where it is until it is given back. */
  method Run(hs: set<CHeapCtrl>, bp: CBlkPool, calls: seq<Call>)
      returns (held: map<CHeapCtrl, seq<int>>, ghost log: seq<map<CHeapCtrl, Holding>>)
    requires Together(hs, bp) && forall h :: h in hs ==> h.live == []
    requires forall n :: 0 <= n < |calls| ==> Callable(calls[n], hs)
    modifies Memory(hs), bp.Repr()
    ensures Together(hs, bp) && AllLeading(hs, held)
    ensures |log| == |calls| + 1 && log[0] == (map h | h in hs :: Holding([], [])) && log[|calls|] == Snapshot(hs, held)
    ensures forall n :: 0 <= n < |calls| ==> Logged(calls[n], log[n], log[n + 1])
  {
    hide *;
    NothingHeld(hs);
    held := map h | h in hs :: [];
    log := [map h | h in hs :: Holding([], [])];
    for n := 0 to |calls|
      invariant Together(hs, bp) && AllLeading(hs, held) && held.Keys == hs
      invariant |log| == n + 1 && log[0] == (map h | h in hs :: Holding([], [])) && log[n] == Snapshot(hs, held)
      invariant forall i :: 0 <= i < n ==> Logged(calls[i], log[i], log[i + 1])
    {
      held := Serve(hs, bp, calls[n], held);
      log := log + [Snapshot(hs, held)];
    }
  }

  lemma NothingHeld(hs: set<CHeapCtrl>)
    requires forall h :: h in hs ==> h.live == []
    ensures AllLeading(hs, map h | h in hs :: [])
    ensures Snapshot(hs, map h | h in hs :: []) == map h | h in hs :: Holding([], [])
  {
  }
}

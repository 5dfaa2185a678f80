/** Pieces of memory in the blocks of a heap: where they lie and that they keep apart. */
module HeapSpec {
  import opened ListBags
  import opened MemPool

  const SIZEOF_MEM_BLK: nat := 24
  const USED_START: nat := 16       // CMemUsed.start: the object follows its header
  const SIZEOF_UNUSED: nat := 16
  const MEM_HEAP_HASH_SIZE: nat := 1024

  // Bytes addr, ..., addr + size - 1, header included.
  datatype Piece = Piece(addr: int, size: nat)

  predicate Clear(p: Piece, q: Piece)
  {
    p.addr + p.size <= q.addr || q.addr + q.size <= p.addr
  }

  predicate Inside(p: Piece, b: MemBlk)
  {
    b.page * MEM_PAG_SIZE + SIZEOF_MEM_BLK <= p.addr && p.addr + p.size <= (b.page + b.pags) * MEM_PAG_SIZE
  }

  // All of a block but its header.
  function Body(b: MemBlk): (p: Piece)
    requires b.pags > 0
    ensures Inside(p, b)
    ensures p.addr + p.size == (b.page + b.pags) * MEM_PAG_SIZE && p.size + SIZEOF_MEM_BLK == b.pags * MEM_PAG_SIZE
  {
    Piece(b.page * MEM_PAG_SIZE + SIZEOF_MEM_BLK, b.pags * MEM_PAG_SIZE - SIZEOF_MEM_BLK)
  }

  predicate Sound(p: Piece)
  {
    p.size >= SIZEOF_UNUSED && p.size % 8 == 0 && p.addr % 8 == 0
  }

  ghost predicate Housed(p: Piece, blks: seq<MemBlk>)
  {
    exists k :: 0 <= k < |blks| && Inside(p, blks[k])
  }

  ghost predicate AllClear(m: multiset<Piece>, p: Piece)
  {
    forall q :: q in m ==> Clear(q, p)
  }

  ghost predicate AllHoused(m: multiset<Piece>, blks: seq<MemBlk>)
  {
    forall p :: p in m ==> Housed(p, blks)
  }

  ghost predicate Spread(m: multiset<Piece>)
  {
    && (forall p :: p in m ==> m[p] == 1 && Sound(p))
    && (forall p, q :: p in m && q in m && p != q ==> Clear(p, q))
  }

  /** Every piece is in a block, past its header, and no two share a byte. */
  ghost predicate Packed(m: multiset<Piece>, blks: seq<MemBlk>)
  {
    Spread(m) && AllHoused(m, blks)
  }

  ghost predicate InLive(live: seq<MemBlk>, page: int)
  {
    exists i :: 0 <= i < |live| && Holds(live[i], page)
  }

  /** The heap's blocks are apart, and their pages are pages the pool has given out. */
  ghost predicate Owns(blks: seq<MemBlk>, live: seq<MemBlk>)
  {
    && (forall k :: 0 <= k < |blks| ==> blks[k].pags > 0)
    && (forall j, k :: 0 <= j < k < |blks| ==> Apart(blks[j], blks[k]))
    && (forall k, p :: 0 <= k < |blks| && Holds(blks[k], p) ==> InLive(live, p))
  }

  lemma ApartFromLive(blks: seq<MemBlk>, live: seq<MemBlk>, b: MemBlk, k: nat)
    requires Owns(blks, live) && k < |blks| && b.pags > 0
    requires forall i :: 0 <= i < |live| ==> Apart(live[i], b)
    ensures Apart(blks[k], b)
  {
    var p := if blks[k].page <= b.page then b.page else blks[k].page;
    assert Holds(blks[k], p) ==> InLive(live, p);
  }

  /** A block new from the pool joins the heap's; nothing is in it yet. */
  lemma NewBlock(m: multiset<Piece>, blks: seq<MemBlk>, live: seq<MemBlk>, b: MemBlk)
    requires Packed(m, blks) && Owns(blks, live) && b.pags > 0
    requires forall i :: 0 <= i < |live| ==> Apart(live[i], b)
    ensures Packed(m, blks + [b]) && Owns(blks + [b], live + [b])
    ensures AllClear(m, Body(b))
  {
    forall k | 0 <= k < |blks|
      ensures Apart(blks[k], b)
    {
      ApartFromLive(blks, live, b, k);
    }
    forall p | p in m
      ensures Housed(p, blks + [b]) && Clear(p, Body(b))
    {
      var k :| 0 <= k < |blks| && Inside(p, blks[k]);
      assert Inside(p, (blks + [b])[k]) && Apart(blks[k], b);
    }
    forall k, p | 0 <= k < |blks + [b]| && Holds((blks + [b])[k], p)
      ensures InLive(live + [b], p)
    {
      if k < |blks| {
        assert Holds(blks[k], p);
        assert InLive(live, p);
        var i: int :| 0 <= i < |live| && Holds(live[i], p);
        assert Holds((live + [b])[i], p);
      } else {
        assert Holds((live + [b])[|live|], p);
      }
    }
  }

  lemma NewPiece(m: multiset<Piece>, blks: seq<MemBlk>, p: Piece)
    requires Packed(m, blks) && Sound(p) && Housed(p, blks)
    requires AllClear(m, p)
    ensures Packed(m + multiset{p}, blks)
  {
    assert p !in m;
  }

  lemma AfterCut(m: multiset<Piece>, p: Piece, x: Piece, y: Piece, after: multiset<Piece>)
    requires p in m && m[p] == 1 && x !in m && y !in m && x != y
    requires after + multiset{p} == m + multiset{x, y}
    ensures forall c :: after[c] == if c == x || c == y then 1 else if c == p then 0 else m[c]
  {
    forall c
      ensures after[c] == if c == x || c == y then 1 else if c == p then 0 else m[c]
    {
      assert (after + multiset{p})[c] == (m + multiset{x, y})[c];
    }
  }

  // The two halves of a piece keep as clear of the others as the piece did.
  lemma Halves(p: Piece, n: nat, q: Piece)
    requires Sound(p) && n % 8 == 0 && SIZEOF_UNUSED <= n && n + SIZEOF_UNUSED <= p.size
    ensures var x, y := Piece(p.addr, p.size - n), Piece(p.addr + p.size - n, n);
            && Sound(x) && Sound(y) && Clear(x, y) && x != p && y != p
            && (Sound(q) && Clear(q, p) ==> Clear(q, x) && Clear(q, y) && q != x && q != y)
  {
  }

  /** A piece is cut in two. */
  lemma CutPiece(m: multiset<Piece>, blks: seq<MemBlk>, p: Piece, n: nat, after: multiset<Piece>)
    requires Packed(m, blks) && p in m && n % 8 == 0 && SIZEOF_UNUSED <= n && n + SIZEOF_UNUSED <= p.size
    requires after + multiset{p} == m + multiset{Piece(p.addr, p.size - n), Piece(p.addr + p.size - n, n)}
    ensures Packed(after, blks)
  {
    var x, y := Piece(p.addr, p.size - n), Piece(p.addr + p.size - n, n);
    assert Sound(p) && m[p] == 1 && Housed(p, blks);
    forall q
      ensures Sound(x) && Sound(y) && Clear(x, y) && x != p && y != p
      ensures q in m && q != p ==> Clear(q, x) && Clear(x, q) && Clear(q, y) && Clear(y, q) && q != x && q != y
    {
      assert q in m && q != p ==> Sound(q) && Clear(q, p);
      Halves(p, n, q);
    }
    hide Sound;
    AfterCut(m, p, x, y, after);
    var k :| 0 <= k < |blks| && Inside(p, blks[k]);
    assert Inside(x, blks[k]) && Inside(y, blks[k]);
    assert Clear(y, x);
    hide Clear, Inside;
    assert Spread(after);
  }

  // Block k of blks has been swallowed by the last one.
  ghost predicate Swallowed(was: seq<MemBlk>, out: seq<MemBlk>, k: nat)
  {
    && k < |was| - 1 == |out| && was[k].page == was[|was| - 1].page + was[|was| - 1].pags
    && (forall i :: 0 <= i < |out| - 1 ==> out[i] == was[if i < k then i else i + 1])
    && out[|out| - 1] == MemBlk(was[|was| - 1].page, was[|was| - 1].pags + was[k].pags)
  }

  lemma SwallowedHouses(m: multiset<Piece>, was: seq<MemBlk>, out: seq<MemBlk>, k: nat)
    requires Swallowed(was, out, k) && AllHoused(m, was)
    ensures AllHoused(m, out)
  {
    forall p | p in m
      ensures Housed(p, out)
    {
      var j :| 0 <= j < |was| && Inside(p, was[j]);
      var i := if j < k then j else if k < j < |out| then j - 1 else |out| - 1;
      assert Inside(p, out[i]);
    }
  }

  lemma SwallowedOwns(was: seq<MemBlk>, out: seq<MemBlk>, live: seq<MemBlk>, k: nat)
    requires Swallowed(was, out, k) && Owns(was, live)
    ensures Owns(out, live)
  {
    var last := |out|;
    forall i, j | 0 <= i < j < |out|
      ensures Apart(out[i], out[j])
    {
      var i0, j0 := if i < k then i else i + 1, if j < k then j else j + 1;
      assert Apart(was[i0], was[j0]);
      assert if i0 < k then Apart(was[i0], was[k]) else Apart(was[k], was[i0]);
    }
    forall i, p | 0 <= i < |out| && Holds(out[i], p)
      ensures InLive(live, p)
    {
      var i0 := if i < last - 1 then (if i < k then i else i + 1) else if p < was[last].page + was[last].pags then last else k;
      assert Holds(was[i0], p);
    }
  }

  /** The last block swallows block k, which begins where it ends. */
  lemma Merged(m: multiset<Piece>, blks: seq<MemBlk>, live: seq<MemBlk>, b: MemBlk, k: nat)
    requires Packed(m, blks + [b]) && Owns(blks + [b], live) && k < |blks| && blks[k].page == b.page + b.pags
    ensures var out := blks[..k] + blks[k + 1..] + [MemBlk(b.page, b.pags + blks[k].pags)];
            Packed(m, out) && Owns(out, live) && Sum(out) == Sum(blks + [b]) && SamePages(blks + [b], out)
  {
    hide Sum, Spread, AllHoused, Owns, SamePages;
    var big := MemBlk(b.page, b.pags + blks[k].pags);
    var out := blks[..k] + blks[k + 1..] + [big];
    assert Swallowed(blks + [b], out, k);
    SwallowedHouses(m, blks + [b], out, k);
    SwallowedOwns(blks + [b], out, live, k);
    SwallowedPages(blks + [b], out, k);
    SumPut(blks, k, blks[k]);
    SumAppend(blks[..k] + blks[k + 1..], big);
    SumAppend(blks, b);
  }

  lemma DroppedOwns(blks: seq<MemBlk>, live: seq<MemBlk>, k: nat, j: nat)
    requires Owns(blks, live) && k < |blks| && j < |live| && live[j] == blks[k]
    ensures Owns(blks[..k] + blks[k + 1..], live[..j] + live[j + 1..])
  {
    var out, rest := blks[..k] + blks[k + 1..], live[..j] + live[j + 1..];
    forall i, p | 0 <= i < |out| && Holds(out[i], p)
      ensures InLive(rest, p)
    {
      var i0 := if i < k then i else i + 1;
      assert blks[i0] == out[i] && Holds(blks[i0], p);
      assert if i0 < k then Apart(blks[i0], blks[k]) else Apart(blks[k], blks[i0]);
      assert InLive(live, p);
      var n: int :| 0 <= n < |live| && Holds(live[n], p);
      assert n != j;
      assert Holds(rest[if n < j then n else n - 1], p);
    }
  }

  lemma DroppedHouses(m: multiset<Piece>, after: multiset<Piece>, blks: seq<MemBlk>, k: nat)
    requires Packed(m, blks) && k < |blks| && blks[k].pags > 0 && m == after + multiset{Body(blks[k])}
    ensures Packed(after, blks[..k] + blks[k + 1..])
  {
    var out, body := blks[..k] + blks[k + 1..], Body(blks[k]);
    assert body in m && m[body] == 1;
    assert forall p :: m[p] == after[p] + if p == body then 1 else 0;
    forall p | p in after
      ensures Housed(p, out)
    {
      assert p in m && p != body && Clear(p, body) && Sound(p);
      var i :| 0 <= i < |blks| && Inside(p, blks[i]);
      assert i != k;
      assert Inside(p, out[if i < k then i else i - 1]);
    }
    hide Sound, Clear;
    assert Spread(after);
  }

  /** The block of a large object goes back to the pool, with nothing else in it. */
  lemma Dropped(m: multiset<Piece>, after: multiset<Piece>, blks: seq<MemBlk>, live: seq<MemBlk>, k: nat, j: nat)
    requires Packed(m, blks) && Owns(blks, live) && k < |blks| && j < |live| && live[j] == blks[k]
    requires m == after + multiset{Body(blks[k])}
    ensures Packed(after, blks[..k] + blks[k + 1..]) && Owns(blks[..k] + blks[k + 1..], live[..j] + live[j + 1..])
    ensures Sum(blks[..k] + blks[k + 1..]) + blks[k].pags == Sum(blks)
  {
    DroppedHouses(m, after, blks, k);
    DroppedOwns(blks, live, k, j);
    SumPut(blks, k, blks[k]);
  }

  // ---- Other heaps on the same pool ----

  // None of b's pages is in one of the blocks.
  ghost predicate Foreign(b: MemBlk, blks: seq<MemBlk>)
  {
    forall p :: Holds(b, p) ==> !InLive(blks, p)
  }

  /** What a call on a heap leaves alone: the pool's blocks that are not the heap's stay handed out and do
      not become the heap's, and a block it takes was nobody's. */
  ghost predicate OthersKept(was: seq<MemBlk>, live: seq<MemBlk>, wasBlks: seq<MemBlk>, blks: seq<MemBlk>)
  {
    && (forall b :: b in was && Foreign(b, wasBlks) ==> b in live && Foreign(b, blks))
    && (forall b :: b in live ==> b in was || Foreign(b, was))
  }

  ghost predicate SamePages(s: seq<MemBlk>, t: seq<MemBlk>)
  {
    forall p :: InLive(s, p) <==> InLive(t, p)
  }

  lemma KeptThen(was: seq<MemBlk>, live: seq<MemBlk>, wasBlks: seq<MemBlk>, blks: seq<MemBlk>, out: seq<MemBlk>)
    requires OthersKept(was, live, wasBlks, blks) && SamePages(blks, out)
    ensures OthersKept(was, live, wasBlks, out)
  {
    hide InLive;
  }

  lemma KeptSame(live: seq<MemBlk>, blks: seq<MemBlk>)
    ensures OthersKept(live, live, blks, blks)
  {
  }

  lemma KeptNew(live: seq<MemBlk>, blks: seq<MemBlk>, b: MemBlk)
    requires forall i :: 0 <= i < |live| ==> Apart(live[i], b)
    ensures OthersKept(live, live + [b], blks, blks + [b])
  {
    forall c | c in live && Foreign(c, blks)
      ensures Foreign(c, blks + [b])
    {
      assert Apart(c, b);
    }
    assert Foreign(b, live);
  }

  lemma KeptDropped(live: seq<MemBlk>, blks: seq<MemBlk>, k: nat, j: nat)
    requires k < |blks| && j < |live| && live[j] == blks[k] && blks[k].pags > 0
    ensures OthersKept(live, live[..j] + live[j + 1..], blks, blks[..k] + blks[k + 1..])
  {
    var rest, out := live[..j] + live[j + 1..], blks[..k] + blks[k + 1..];
    forall c | c in live && Foreign(c, blks)
      ensures c in rest && Foreign(c, out)
    {
      assert Holds(blks[k], blks[k].page);
      assert InLive(blks, blks[k].page);
      OtherStays(live, j, c);
      assert forall i :: 0 <= i < |out| ==> out[i] == blks[if i < k then i else i + 1];
    }
  }

  lemma SwallowedPages(was: seq<MemBlk>, out: seq<MemBlk>, k: nat)
    requires Swallowed(was, out, k)
    ensures SamePages(was, out)
  {
    var last := |out|;
    forall p | InLive(was, p)
      ensures InLive(out, p)
    {
      var j: int :| 0 <= j < |was| && Holds(was[j], p);
      assert Holds(out[if j < k then j else if k < j < last then j - 1 else last - 1], p);
    }
    forall p | InLive(out, p)
      ensures InLive(was, p)
    {
      var i: int :| 0 <= i < |out| && Holds(out[i], p);
      assert Holds(was[if i < last - 1 then (if i < k then i else i + 1)
                       else if p < was[last].page + was[last].pags then last else k], p);
    }
  }

  lemma OtherStays<T>(s: seq<T>, k: nat, c: T)
    requires k < |s| && c in s && c != s[k]
    ensures c in s[..k] + s[k + 1..]
  {
    var n :| 0 <= n < |s| && s[n] == c;
    assert (s[..k] + s[k + 1..])[if n < k then n else n - 1] == c;
  }

  // ---- A heap's lists ----

  // The free list, the lists by size, the objects handed out.
  ghost function AllLists(free: seq<Piece>, h: seq<seq<Piece>>, live: seq<Piece>): (ls: seq<seq<Piece>>)
    ensures |ls| == |h| + 2
  {
    [free] + h + [live]
  }

  ghost function Bag(free: seq<Piece>, h: seq<seq<Piece>>, live: seq<Piece>): multiset<Piece>
  {
    BagAll(AllLists(free, h, live))
  }

  lemma InBag(free: seq<Piece>, h: seq<seq<Piece>>, live: seq<Piece>, p: Piece)
    requires p in free || p in live || exists n :: 0 <= n < |h| && p in h[n]
    ensures p in Bag(free, h, live)
  {
    var ls := AllLists(free, h, live);
    assert ls[0] == free && ls[|ls| - 1] == live && forall n :: 0 <= n < |h| ==> ls[1 + n] == h[n];
    if p in free {
      InList(ls, 0, p);
    } else if p in live {
      InList(ls, |ls| - 1, p);
    } else {
      var n :| 0 <= n < |h| && p in h[n];
      InList(ls, 1 + n, p);
    }
  }

  lemma FreeToHash(free: seq<Piece>, h: seq<seq<Piece>>, live: seq<Piece>, k: nat, n: nat)
    requires k < |free| && n < |h|
    ensures Bag(free[..k] + free[k + 1..], h[n := [free[k]] + h[n]], live) == Bag(free, h, live)
  {
    var all, rest, list := AllLists(free, h, live), free[..k] + free[k + 1..], [free[k]] + h[n];
    BagRemove(free, k);
    BagHead(list);
    Transfer(all, 0, 1 + n, rest, list);
    assert AllLists(rest, h[n := list], live) == all[0 := rest][1 + n := list];
  }

  lemma HashToLive(free: seq<Piece>, h: seq<seq<Piece>>, live: seq<Piece>, n: nat)
    requires n < |h| && h[n] != []
    ensures Bag(free, h[n := h[n][1..]], live + [h[n][0]]) == Bag(free, h, live)
  {
    var all := AllLists(free, h, live);
    BagHead(h[n]);
    Transfer(all, 1 + n, |h| + 1, h[n][1..], live + [h[n][0]]);
    assert AllLists(free, h[n := h[n][1..]], live + [h[n][0]]) ==
           all[1 + n := h[n][1..]][|h| + 1 := live + [h[n][0]]];
  }

  lemma FreeToLive(free: seq<Piece>, h: seq<seq<Piece>>, live: seq<Piece>, k: nat)
    requires k < |free|
    ensures Bag(free[..k] + free[k + 1..], h, live + [free[k]]) == Bag(free, h, live)
  {
    var all, rest := AllLists(free, h, live), free[..k] + free[k + 1..];
    BagRemove(free, k);
    Transfer(all, 0, |h| + 1, rest, live + [free[k]]);
    assert AllLists(rest, h, live + [free[k]]) == all[0 := rest][|h| + 1 := live + [free[k]]];
  }

  lemma LiveToHash(free: seq<Piece>, h: seq<seq<Piece>>, live: seq<Piece>, i: nat, n: nat)
    requires i < |live| && n < |h|
    ensures Bag(free, h[n := [live[i]] + h[n]], live[..i] + live[i + 1..]) == Bag(free, h, live)
  {
    var all, rest, list := AllLists(free, h, live), live[..i] + live[i + 1..], [live[i]] + h[n];
    BagRemove(live, i);
    BagHead(list);
    Transfer(all, 1 + n, |h| + 1, list, rest);
    assert AllLists(free, h[n := list], rest) == all[1 + n := list][|h| + 1 := rest];
  }

  lemma CutToLive(free: seq<Piece>, h: seq<seq<Piece>>, live: seq<Piece>, k: nat, x: Piece, y: Piece)
    requires k < |free|
    ensures Bag(free[k := x], h, live + [y]) + multiset{free[k]} == Bag(free, h, live) + multiset{x, y}
  {
    var all := AllLists(free, h, live);
    Split(all, 0, k, x, |h| + 1, y);
    assert AllLists(free[k := x], h, live + [y]) == all[0 := free[k := x]][|h| + 1 := live + [y]];
  }

  lemma PushFree(free: seq<Piece>, h: seq<seq<Piece>>, live: seq<Piece>, p: Piece)
    ensures Bag([p] + free, h, live) == Bag(free, h, live) + multiset{p}
  {
    Added(AllLists(free, h, live), 0, p);
    assert AllLists([p] + free, h, live) == AllLists(free, h, live)[0 := [p] + free];
  }

  lemma AddLive(free: seq<Piece>, h: seq<seq<Piece>>, live: seq<Piece>, p: Piece)
    ensures Bag(free, h, live + [p]) == Bag(free, h, live) + multiset{p}
  {
    Appended(AllLists(free, h, live), |h| + 1, p);
    assert AllLists(free, h, live + [p]) == AllLists(free, h, live)[|h| + 1 := live + [p]];
  }

  // A piece clear of all others can join the free list or be handed out.
  lemma Joins(free: seq<Piece>, h: seq<seq<Piece>>, live: seq<Piece>, blks: seq<MemBlk>, p: Piece)
    requires Packed(Bag(free, h, live), blks) && Sound(p) && Housed(p, blks)
    requires AllClear(Bag(free, h, live), p)
    ensures Packed(Bag([p] + free, h, live), blks) && Packed(Bag(free, h, live + [p]), blks)
  {
    NewPiece(Bag(free, h, live), blks, p);
    PushFree(free, h, live, p);
    AddLive(free, h, live, p);
  }

  lemma BodySound(b: MemBlk)
    requires b.pags > 0
    ensures Sound(Body(b)) && Body(b).size == b.pags * MEM_PAG_SIZE - SIZEOF_MEM_BLK
  {
    assert Body(b).size == 8 * (64 * b.pags - 3) && Body(b).addr == 8 * (64 * b.page + 3);
  }

  lemma DropLive(free: seq<Piece>, h: seq<seq<Piece>>, live: seq<Piece>, i: nat)
    requires i < |live|
    ensures Bag(free, h, live) == Bag(free, h, live[..i] + live[i + 1..]) + multiset{live[i]}
  {
    var rest := live[..i] + live[i + 1..];
    AddLive(free, h, rest, live[i]);
    BagRemove(live, i);
    var all := AllLists(free, h, rest + [live[i]]);
    PutBag(all, |h| + 1, live);
    assert AllLists(free, h, live) == all[|h| + 1 := live];
    assert multiset(rest + [live[i]]) == multiset(live);
    SameRest(Bag(free, h, live), Bag(free, h, rest + [live[i]]), multiset(live));
  }

  lemma SameRest<T>(a: multiset<T>, b: multiset<T>, c: multiset<T>)
    requires a + c == b + c
    ensures a == b
  {
    forall t
      ensures a[t] == b[t]
    {
      assert (a + c)[t] == (b + c)[t];
    }
  }

  lemma LiveApart(free: seq<Piece>, h: seq<seq<Piece>>, live: seq<Piece>, i: nat, j: nat)
    requires i < j < |live| && Spread(Bag(free, h, live))
    ensures live[i] != live[j] && Clear(live[i], live[j])
  {
    var ls := AllLists(free, h, live);
    InBag(free, h, live, live[i]);
    InBag(free, h, live, live[j]);
    assert ls[|h| + 1] == live;
    if live[i] == live[j] {
      Twice(ls, |h| + 1, i, |h| + 1, j);
    }
  }

  // ---- Sizes ----

  function Bytes(s: seq<Piece>): nat
  {
    if s == [] then 0 else s[0].size + Bytes(s[1..])
  }

  lemma {:induction false} BytesAppend(s: seq<Piece>, p: Piece)
    ensures Bytes(s + [p]) == Bytes(s) + p.size
  {
    if s != [] {
      assert (s + [p])[1..] == s[1..] + [p];
      BytesAppend(s[1..], p);
    }
  }

  lemma {:induction false} BytesRemove(s: seq<Piece>, k: nat)
    requires k < |s|
    ensures Bytes(s[..k] + s[k + 1..]) + s[k].size == Bytes(s)
  {
    if k == 0 {
      assert s[..k] + s[k + 1..] == s[1..];
    } else {
      BytesRemove(s[1..], k - 1);
      assert (s[..k] + s[k + 1..])[1..] == s[1..][..k - 1] + s[1..][k..];
    }
  }
}

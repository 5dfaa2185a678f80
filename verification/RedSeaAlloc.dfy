/** The allocating half of a RedSea drive: the bitmap behind its sector cache and the free list built
    from it (HolyCRT/BlkDev/FileSysRedSea.HC). */
module RedSeaAlloc {
  import opened FatBlk
  import opened RedSeaFree

  // Bits per sector.
  const PER_SECTOR: nat := 4096

  predicate Marked(f: seq<bool>, lo: int, c: int)
  {
    0 <= c - lo < |f| && f[c - lo]
  }

  ghost function UsedBlocks(f: seq<bool>, lo: int, hi: int): set<int>
    requires 0 <= hi - lo <= |f|
  {
    set c | lo <= c < hi && Marked(f, lo, c)
  }

  lemma UsedPut(f: seq<bool>, lo: int, hi: int, c: int, x: bool)
    requires 0 <= hi - lo <= |f| && lo <= c < hi
    ensures UsedBlocks(f[c - lo := x], lo, hi) ==
            if x then UsedBlocks(f, lo, hi) + {c} else UsedBlocks(f, lo, hi) - {c}
  {
  }

  // The blocks from first on, i of them, are unused and their neighbour on the left is not.
  ghost predicate MaximalAt(used: set<int>, r: Run, lo: int, hi: int)
  {
    && r.size > 0
    && (r.start == lo || r.start - 1 in used)
    && (r.start + r.size == hi || r.start + r.size in used)
  }

  // The list so far holds the maximal unused runs before block first, in order.
  ghost predicate BuiltTo(free: seq<Run>, used: set<int>, lo: int, hi: int, first: int)
  {
    && AllWithin(free, lo, hi) && lo <= first && (first == lo || first - 1 in used || first == hi + 1)
    && (forall i :: 0 <= i < |free| ==> MaximalAt(used, free[i], lo, hi) && free[i].start + free[i].size < first)
    && (forall i, j :: 0 <= i < j < |free| ==> free[i].start + free[i].size < free[j].start)
    && (forall c :: lo <= c < first && c < hi ==> (c in used <==> !Covers(free, c)))
  }

  lemma BuildStep(free: seq<Run>, used: set<int>, lo: int, hi: int, first: int, i: nat)
    requires BuiltTo(free, used, lo, hi, first) && first + i <= hi
    requires forall c :: first <= c < first + i ==> c !in used
    requires first + i == hi || first + i in used
    ensures BuiltTo(if i > 0 then free + [Run(first, i)] else free, used, lo, hi, first + i + 1)
  {
    forall c
      ensures Covers(free + [Run(first, i)], c) <==> Covers(free, c) || first <= c < first + i
      ensures Covers(free, c) ==> c < first
    {
      BuildCovers(free, used, lo, hi, first, i, c);
    }
    if i > 0 {
      BuildLists(free, used, lo, hi, first, i);
    }
    hide Covers, AllWithin, MaximalAt;
  }

  lemma BuildLists(free: seq<Run>, used: set<int>, lo: int, hi: int, first: int, n: nat)
    requires BuiltTo(free, used, lo, hi, first) && 0 < n && first + n <= hi && (first + n == hi || first + n in used)
    ensures var out := free + [Run(first, n)];
            && AllWithin(out, lo, hi)
            && (forall i :: 0 <= i < |out| ==> MaximalAt(used, out[i], lo, hi) && out[i].start + out[i].size < first + n + 1)
            && (forall i, j :: 0 <= i < j < |out| ==> out[i].start + out[i].size < out[j].start)
  {
    hide Covers;
    assert MaximalAt(used, Run(first, n), lo, hi);
    hide MaximalAt;
  }

  lemma BuildCovers(free: seq<Run>, used: set<int>, lo: int, hi: int, first: int, i: nat, c: int)
    requires BuiltTo(free, used, lo, hi, first)
    ensures Covers(free + [Run(first, i)], c) <==> Covers(free, c) || first <= c < first + i
    ensures Covers(free, c) ==> c < first
  {
    var r := [Run(first, i)];
    assert r[0] == Run(first, i);
    AppendedCovers(free, r, c);
  }

  lemma BuildBegins(used: set<int>, lo: int, hi: int)
    ensures BuiltTo([], used, lo, hi, lo)
  {
  }

  lemma BuildDone(free: seq<Run>, used: set<int>, lo: int, hi: int, first: int)
    requires BuiltTo(free, used, lo, hi, first) && first >= hi
    ensures FreeOk(free, used, lo, hi)
    ensures forall i :: 0 <= i < |free| ==> MaximalAt(used, free[i], lo, hi)
    ensures forall i, j :: 0 <= i < j < |free| ==> free[i].start + free[i].size < free[j].start
  {
  }

  class RedSeaVol {
    const blk: FatCache<bool>
    const dataArea: int
    const volEnd: int
    var built: bool
    var free: seq<Run>

    constructor (blk: FatCache<bool>, dataArea: int, volEnd: int)
      requires blk.Ok() && blk.Settled() && blk.fat1 == blk.fat2 && blk.cur.Length == PER_SECTOR
      requires 0 < dataArea < volEnd && volEnd - dataArea <= PER_SECTOR * blk.fat1.Length
      ensures Valid() && this.blk == blk && this.dataArea == dataArea && this.volEnd == volEnd && !built
    {
      this.blk, this.dataArea, this.volEnd := blk, dataArea, volEnd;
      built, free := false, [];
    }

    ghost predicate Geometry()
      reads blk, blk.fat1, blk.fat2, blk.cur
    {
      && blk.Ok() && blk.fat1 == blk.fat2 && blk.cur.Length == PER_SECTOR
      && 0 < dataArea < volEnd && volEnd - dataArea <= PER_SECTOR * blk.fat1.Length
    }

    ghost function Bits(): (f: seq<bool>)
      requires Geometry()
      reads blk, blk.fat1, blk.fat2, blk.cur
      ensures |f| == PER_SECTOR * blk.fat1.Length
    {
      Flat(PER_SECTOR, blk.View1())
    }

    // The blocks the bitmap marks.
    ghost function Used(): set<int>
      requires Geometry()
      reads blk, blk.fat1, blk.fat2, blk.cur
    {
      UsedBlocks(Bits(), dataArea, volEnd)
    }

    /** The free list; one not built yet is the one that building would make. */
    ghost function Nodes(): seq<Run>
      requires Geometry()
      reads this, blk, blk.fat1, blk.fat2, blk.cur
    {
      if built then free else BuildFrom(Used(), dataArea, volEnd)
    }

    ghost predicate Valid()
      reads this, blk, blk.fat1, blk.fat2, blk.cur
    {
      && Geometry() && blk.Settled()
      && (built ==> FreeOk(free, Used(), dataArea, volEnd))
    }

    /** Read a bit through the cache. */
    method Bit(c: int) returns (b: bool)
      requires Geometry() && blk.Settled() && dataArea <= c < volEnd
      modifies blk, blk.fat1, blk.cur
      ensures Geometry() && blk.Settled() && Bits() == old(Bits())
      ensures b <==> c in Used()
    {
      FlatAt(PER_SECTOR, blk.View1(), c - dataArea);
      blk.DrvFATBlkSet((c - dataArea) / PER_SECTOR, Both);
      assert blk.View1() == old(blk.View1());
      b := blk.cur[(c - dataArea) % PER_SECTOR];
    }

    method Mark(c: int, x: bool)
      requires Geometry() && blk.Settled() && dataArea <= c < volEnd
      modifies blk, blk.fat1, blk.cur
      ensures Geometry() && blk.Settled() && blk.dirty
      ensures Used() == if x then old(Used()) + {c} else old(Used()) - {c}
    {
      hide Flat, UsedBlocks;
      blk.DrvFATBlkSet((c - dataArea) / PER_SECTOR, Both);
      assert blk.View1() == old(blk.View1());
      FlatPut(PER_SECTOR, blk.View1(), c - dataArea, x);
      UsedPut(Bits(), dataArea, volEnd, c, x);
      blk.Put((c - dataArea) % PER_SECTOR, x);
    }

    /** Set or clear the bits of a run and write the last sector. */
    method MarkRun(r: Run, x: bool)
      requires Geometry() && blk.Settled() && Within(r, dataArea, volEnd)
      modifies blk, blk.fat1, blk.cur
      ensures Geometry() && blk.Clean()
      ensures Used() == if x then old(Used()) + Blocks(r) else old(Used()) - Blocks(r)
    {
      hide UsedBlocks, Flat;
      var i := 0;
      while i < r.size
        invariant 0 <= i <= r.size && Geometry() && blk.Settled()
        invariant Used() == if x then old(Used()) + Blocks(Run(r.start, i)) else old(Used()) - Blocks(Run(r.start, i))
      {
        Mark(r.start + i, x);
        assert Blocks(Run(r.start, i + 1)) == Blocks(Run(r.start, i)) + {r.start + i};
        i := i + 1;
      }
      blk.DrvFATBlkClean(Both);
      assert blk.View1() == blk.fat1[..];
    }

    /** RedSeaFreeLstBuild: the list becomes the maximal unused runs, in order. */
    method RedSeaFreeLstBuild()
      requires Geometry() && blk.Settled()
      modifies this, blk, blk.fat1, blk.cur
      ensures Valid() && built && Bits() == old(Bits()) && free == BuildFrom(Used(), dataArea, volEnd)
      ensures forall i :: 0 <= i < |free| ==> MaximalAt(Used(), free[i], dataArea, volEnd)
      ensures forall i, j :: 0 <= i < j < |free| ==> free[i].start + free[i].size < free[j].start
    {
      hide UsedBlocks, Flat, BuildFrom, BuiltTo, MaximalAt, FreeOk;
      ghost var used := Used();
      free := [];
      BuildBegins(used, dataArea, volEnd);
      var first := dataArea;
      while first < volEnd
        invariant Geometry() && blk.Settled() && Bits() == old(Bits()) && Used() == used
        invariant BuiltTo(free, used, dataArea, volEnd, first)
        invariant free + BuildFrom(used, first, volEnd) == BuildFrom(used, dataArea, volEnd)
      {
        ghost var was := free;
        var i := 0;
        while first + i < volEnd
          invariant Geometry() && blk.Settled() && Bits() == old(Bits()) && Used() == used && free == was
          invariant 0 <= i && first + i <= volEnd
          invariant forall c :: first <= c < first + i ==> c !in used
        {
          var b := Bit(first + i);
          if b {
            break;
          }
          i := i + 1;
        }
        BuildStep(free, used, dataArea, volEnd, first, i);
        BuildOn(free, used, first, volEnd, i);
        if i > 0 {
          free := free + [Run(first, i)];
        }
        first := first + i + 1;
      }
      BuildEnds(used, first, volEnd);
      built := true;
      BuildDone(free, used, dataArea, volEnd, first);
    }

    /** RedSeaFreeClus: cluster number 0 means there is nothing to free. */
    method RedSeaFreeClus(c: int, cnt: nat)
      requires Valid() && Within(Run(c, cnt), dataArea, volEnd) && Blocks(Run(c, cnt)) <= Used()
      modifies this, blk, blk.fat1, blk.cur
      ensures Valid() && (c != 0 ==> built && blk.Clean())
      ensures Used() == old(Used()) - Blocks(Run(c, cnt))
      ensures Nodes() == Freed(old(Nodes()), Run(c, cnt))
      ensures c != 0 ==> Merges(old(Nodes()), Nodes(), Run(c, cnt))
    {
      FreeMerges(Nodes(), Run(c, cnt));
      hide UsedBlocks, Flat, FreeOk, HasRun;
      if c == 0 {
        assert Blocks(Run(c, cnt)) == {};
        assert Used() == old(Used()) - Blocks(Run(c, cnt));
        return;
      }
      if !built {
        RedSeaFreeLstBuild();
      }
      FreeKeeps(free, Used(), dataArea, volEnd, Run(c, cnt));
      FreeInList(Run(c, cnt));
      MarkRun(Run(c, cnt), false);
    }

    // The list walk of RedSeaFreeClus.
    method FreeInList(r: Run)
      modifies `free
      ensures free == FreeIn(old(free), r)
    {
      var found, k := false, 0;
      while !found && k < |free|
        invariant 0 <= k <= |free|
        invariant if found then free == FreeIn(old(free), r)
                  else free == old(free) && JoinAt(free, r, 0) == JoinAt(free, r, k)
        decreases !found, |free| - k
      {
        var node := free[k];
        if node.start + node.size == r.start {
          free, found := free[k := Run(node.start, node.size + r.size)], true;
        } else if r.start + r.size == node.start {
          free, found := free[k := Run(r.start, node.size + r.size)], true;
        }
        k := k + 1;
      }
      if !found {
        free := free + [r];
      }
    }

    /** RedSeaAllocClus: the best fit; ok is false where the original throws, which is exactly when no
        node can serve the request. */
    method RedSeaAllocClus(cnt: int) returns (ok: bool, first: int)
      requires Valid()
      modifies this, blk, blk.fat1, blk.cur
      ensures Valid()
      ensures ok <==> cnt > 0 && HasRun(old(Nodes()), cnt)
      ensures !ok ==> Used() == old(Used()) && Nodes() == old(Nodes())
      ensures ok ==>
                && built && blk.Clean()
                && Within(Run(first, cnt), dataArea, volEnd) && Blocks(Run(first, cnt)) !! old(Used())
                && Used() == old(Used()) + Blocks(Run(first, cnt))
                && Nodes() == Served(old(Nodes()), cnt)
                && BestStart(old(Nodes()), cnt, first)
    {
      hide UsedBlocks, Flat, FreeOk, BuildFrom, Served, HasRun, TakeFrom, Blocks;
      if cnt <= 0 {
        return false, 0;
      }
      if !built {
        RedSeaFreeLstBuild();
      }
      var k := FindBest(cnt);
      if k == |free| {
        return false, 0;
      }
      first := free[k].start;
      ghost var nodes := free;
      TakeKeeps(free, Used(), dataArea, volEnd, k, cnt);
      ServedIs(free, cnt, k);
      MarkRun(Run(first, cnt), true);
      free := TakeFrom(free, k, cnt);
      assert Best(nodes, cnt, k);
      ok := true;
    }

    // The list walk of RedSeaAllocClus; an exact fit ends it.
    method FindBest(cnt: nat) returns (best: nat)
      ensures best <= |free| && (best < |free| ==> Best(free, cnt, best))
      ensures best == |free| <==> !HasRun(free, cnt)
    {
      best := |free|;
      var k := 0;
      while k < |free|
        invariant 0 <= k <= |free|
        invariant best == |free| ==> forall i :: 0 <= i < k ==> free[i].size < cnt
        invariant best != |free| ==> best < k && cnt <= free[best].size
        invariant best != |free| ==> forall i :: 0 <= i < k && free[i].size >= cnt ==> free[best].size <= free[i].size
        invariant best != |free| ==> forall i :: 0 <= i < best && free[i].size >= cnt ==> free[i].size != free[best].size
      {
        if free[k].size >= cnt && (best == |free| || free[k].size < free[best].size) {
          best := k;
          if free[k].size == cnt {
            break;
          }
        }
        k := k + 1;
      }
    }
  }
}

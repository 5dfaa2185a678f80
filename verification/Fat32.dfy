/** FAT32 allocation, freeing and chain reading on a drive, through the sector cache and over both
    copies of the table (HolyCRT/BlkDev/FileSysFAT.HC, HolyCRT/BlkDev/DskClus.HC). */
module Fat32 {
  import opened FatSpec
  import opened FatAlloc
  import opened FatBlk

  lemma FlatOverlay(v: seq<seq<nat>>, w: seq<seq<nat>>, s: nat)
    requires forall i :: 0 <= i < |v| ==> |v[i]| == PER_SECTOR
    requires |w| == |v| && s < |v| && forall i :: 0 <= i < |w| ==> |w[i]| == PER_SECTOR
    ensures Flat(PER_SECTOR, v[s := w[s]]) == Overlay(Flat(PER_SECTOR, v), Flat(PER_SECTOR, w), s)
  {
  }

  lemma FlatInjective(v: seq<seq<nat>>, w: seq<seq<nat>>, s: nat)
    requires forall i :: 0 <= i < |v| ==> |v[i]| == PER_SECTOR
    requires |w| == |v| && s < |v| && forall i :: 0 <= i < |w| ==> |w[i]| == PER_SECTOR
    requires forall c: nat :: c < PER_SECTOR * |v| && SectorOf(c) == s ==> Flat(PER_SECTOR, v)[c] == Flat(PER_SECTOR, w)[c]
    ensures v[s] == w[s]
  {
    forall o | 0 <= o < PER_SECTOR
      ensures v[s][o] == w[s][o]
    {
      var c := PER_SECTOR * s + o;
      assert SectorOf(c) == s && c % PER_SECTOR == o;
      FlatAt(PER_SECTOR, v, c);
      FlatAt(PER_SECTOR, w, c);
    }
  }

  class Fat32Drv {
    const blk: FatCache<nat>
    const spc: nat
    const volEnd: nat   // size + drv_offset
    const dataArea: int // may lie before cluster 2's first block, and so be negative
    var mostRecentlyAlloced: int

    // Clusters from 1 up to, not including, this one are allocated.
    function Limit(): int
      requires spc > 0
    {
      (volEnd - dataArea) / spc - 1
    }

    predicate InVolume(c: int)
    {
      (c + 1) * spc + dataArea <= volEnd
    }

    // The blocks of a cluster, from where Clus2Blk places it.
    ghost predicate OfCluster(c: int, b: int)
    {
      dataArea + c * spc <= b < dataArea + c * spc + spc
    }

    // Every block of the cluster lies before the volume's end.
    ghost predicate OnVolume(c: int)
    {
      forall b :: OfCluster(c, b) ==> b < volEnd
    }

    /** The two ways the volume's end is computed both come to the blocks a cluster has: clusters up to Limit
        lie on the volume, and no others. */
    lemma LimitExactly(c: int)
      requires spc > 0
      ensures OnVolume(c) <==> InVolume(c)
      ensures InVolume(c) <==> c <= Limit()
    {
      var last := dataArea + c * spc + spc - 1;
      assert (c + 1) * spc == c * spc + spc;
      assert OfCluster(c, last);
      Quotient(volEnd - dataArea, spc, c + 1);
    }

    static lemma Quotient(x: int, d: nat, q: int)
      requires d > 0
      ensures q * d <= x <==> q <= x / d
    {
      var r := x / d;
      assert x == d * r + x % d;
      if q <= r {
        Times(d, q, r);
      } else {
        Times(d, r + 1, q);
      }
    }

    static lemma Times(d: nat, a: int, b: int)
      requires a <= b
      ensures a * d <= b * d
    {
    }

    constructor (blk: FatCache<nat>, spc: nat, volEnd: nat, dataArea: int, recent: int)
      requires blk.Ok() && blk.Settled() && spc > 0
      ensures this.blk == blk && this.spc == spc && this.volEnd == volEnd && this.dataArea == dataArea
      ensures mostRecentlyAlloced == recent
    {
      this.blk, this.spc, this.volEnd, this.dataArea := blk, spc, volEnd, dataArea;
      mostRecentlyAlloced := recent;
    }

    ghost predicate Geometry()
      reads blk, blk.fat1, blk.fat2, blk.cur
    {
      && blk.Ok() && blk.cur.Length == PER_SECTOR && blk.fat1 != blk.fat2
      && spc > 0 && 2 <= Limit() <= PER_SECTOR * blk.fat1.Length <= CHAIN_END
      && forall c :: InVolume(c) ==> c < PER_SECTOR * blk.fat1.Length
    }

    ghost function Table1(): seq<nat>
      requires Geometry()
      reads blk, blk.fat1, blk.fat2, blk.cur
    {
      Flat(PER_SECTOR, blk.View1())
    }

    ghost function Table2(): seq<nat>
      requires Geometry()
      reads blk, blk.fat1, blk.fat2, blk.cur
    {
      Flat(PER_SECTOR, blk.View2())
    }

    // What is on the disk now.
    ghost function Disk1(): seq<nat>
      requires Geometry()
      reads blk, blk.fat1, blk.fat2, blk.cur
    {
      Flat(PER_SECTOR, blk.fat1[..])
    }

    ghost function Disk2(): seq<nat>
      requires Geometry()
      reads blk, blk.fat1, blk.fat2, blk.cur
    {
      Flat(PER_SECTOR, blk.fat2[..])
    }

    ghost predicate Valid()
      reads blk, blk.fat1, blk.fat2, blk.cur
    {
      Geometry() && blk.Settled()
    }

    ghost predicate Agree()
      requires Geometry()
      reads blk, blk.fat1, blk.fat2, blk.cur
    {
      blk.View1() == blk.View2()
    }

    /** Bring in the sector of a cluster, both copies being kept alike; nothing else changes. */
    method Touch(c: nat)
      requires Valid() && Agree() && c < |Table1()|
      modifies blk, blk.fat1, blk.fat2, blk.cur
      ensures Valid() && Agree() && Table1() == old(Table1()) && blk.curNum == SectorOf(c)
      ensures blk.cur[c % PER_SECTOR] == Table1()[c]
    {
      FlatAt(PER_SECTOR, blk.View1(), c);
      blk.DrvFATBlkSet(c / PER_SECTOR, Both);
      assert blk.View1() == old(blk.View1());
      assert blk.View2() == old(blk.View2());
      assert blk.View1()[SectorOf(c)] == blk.cur[..];
    }

    method Write(c: nat, v: nat)
      requires Valid() && Agree() && c < |Table1()|
      modifies blk, blk.fat1, blk.fat2, blk.cur
      ensures Valid() && Agree() && Table1() == old(Table1())[c := v]
    {
      Touch(c);
      FlatPut(PER_SECTOR, blk.View1(), c, v);
      blk.Put(c % PER_SECTOR, v);
    }

    /** The scan of FAT32AllocClus, as NextFree does it. */
    method FindFree(from: int, already: bool) returns (found: bool, j: int, wrapped: bool)
      requires Valid() && Agree()
      modifies blk, blk.fat1, blk.fat2, blk.cur
      ensures Valid() && Agree() && Table1() == old(Table1())
      ensures (if found then j >= 0 && NextFree(Table1(), from, Limit(), already) == At(j, wrapped)
               else NextFree(Table1(), from, Limit(), already) == NoneFree)
    {
      var l := Limit();
      ghost var f := Table1();
      j, wrapped := from, already;
      while true
        invariant Valid() && Agree() && Table1() == f
        invariant NextFree(f, from, l, already) == NextFree(f, j, l, wrapped)
        decreases !wrapped, l - j
      {
        j := j + 1;
        if j < 1 {
          j := 1;
        }
        if j >= l {
          if wrapped {
            return false, j, wrapped;
          }
          j := 1;
          wrapped := true;
        }
        Touch(j);
        if blk.cur[j % PER_SECTOR] == 0 {
          return true, j, wrapped;
        }
      }
    }
  
    // The picking loop of FAT32AllocClus: each cluster found is linked to the one before.
    method PickAll(c: int, cnt: nat) returns (ok: bool, first: int, last: int)
      requires Valid() && Agree() && cnt > 0
      modifies blk, blk.fat1, blk.fat2, blk.cur
      ensures Valid() && Agree()
      ensures var r := AllocRun(old(Table1()), c, Limit(), mostRecentlyAlloced, false, cnt);
              && Table1() == r.f && ok == r.Ran?
              && (ok ==> first == r.picks[0] && last == r.picks[cnt - 1] == r.clus)
    {
      hide AllocRun, NextFree, Limit, InVolume, Flat, Ahead, Link;
      ghost var whole := AllocRun(Table1(), c, Limit(), mostRecentlyAlloced, false, cnt);
      var l := Limit();
      var j, wrapped, left := mostRecentlyAlloced, false, cnt;
      ghost var picks: seq<nat> := [];
      first, last := INVALID_CLUS, c;
      AheadNothing(whole);
      while left > 0
        invariant 0 <= left <= cnt && |picks| == cnt - left && Valid() && Agree()
        invariant picks == [] ==> j == mostRecentlyAlloced && last == c && first == INVALID_CLUS
        invariant picks != [] ==> j == last == picks[|picks| - 1] && first == picks[0] && 0 < first < CHAIN_END
        invariant whole == Ahead(picks, AllocRun(Table1(), last, l, j, wrapped, left))
        decreases left
      {
        RunStep(Table1(), last, l, j, wrapped, left);
        left := left - 1;
        var found;
        found, j, wrapped := FindFree(j, wrapped);
        if !found {
          AheadEnds(picks, Failed(Table1()));
          return false, first, last;
        }
        if !(0 < first < CHAIN_END) {
          first := j;
        }
        LinkTo(last, j);
        AheadTwice(picks, j, AllocRun(Table1(), j, l, j, wrapped, left));
        picks := picks + [j];
        last := j;
      }
      RunDone(Table1(), last, l, j, wrapped);
      AheadEnds(picks, Ran(Table1(), last, []));
      ok := true;
    }

    // The picking loop and the end mark; on success both copies on the disk hold the new table.
    method PickAndClose(c: int, cnt: nat) returns (ok: bool, first: int)
      requires Valid() && Agree() && cnt > 0
      modifies this`mostRecentlyAlloced, blk, blk.fat1, blk.fat2, blk.cur
      ensures Valid() && Agree()
      ensures var r := Alloc(old(Table1()), c, Limit(), old(mostRecentlyAlloced), cnt);
              && Table1() == r.f && ok == r.Ran?
              && (ok ==> first == r.picks[0] && mostRecentlyAlloced == r.picks[cnt - 1] && Disk1() == Disk2() == r.f)
    {
      hide AllocRun, Limit, InVolume, Flat, Link;
      var last;
      ok, first, last := PickAll(c, cnt);
      if ok {
        LinkTo(last, END_MARK);
        Flush();
        mostRecentlyAlloced := last;
      }
    }

    // The clusters an allocation may take.
    ghost function FreeClusters(f: seq<nat>): set<nat>
      requires spc > 0
    {
      if Limit() < 0 then {} else FreeSet(f, Limit())
    }

    /** What a request appended to a cluster in use, or to none, comes to: it succeeds exactly if enough
        clusters are free, or one is missing and none lies before the one allocated last; with enough of them
        the chain is made of the next free ones in the order of the scan. */
    ghost predicate Delivered(f: seq<nat>, g: seq<nat>, c: int, recent: int, cnt: nat, ok: bool, picks: seq<nat>)
      requires spc > 0 && 2 <= Limit() <= |f|
    {
      var u := FreeClusters(f);
      && (ok <==> cnt <= |u| || (u != {} && cnt == |u| + 1 && forall i :: i in u ==> i > recent))
      && (cnt <= |u| ==>
            |picks| == cnt && Appended(f, g, c, Limit(), picks) && InScanOrder(u, Limit(), recent, picks))
    }

    lemma DeliveredIs(f: seq<nat>, c: int, recent: int, cnt: nat)
      requires spc > 0 && 2 <= Limit() <= |f| && cnt > 0 && (0 < c < Limit() ==> f[c] != 0)
      ensures var r := Alloc(f, c, Limit(), recent, cnt);
              Delivered(f, r.f, c, recent, cnt, r.Ran?, if r.Ran? then r.picks else [])
    {
      hide AllocRun, Alloc, Appended, InScanOrder;
      AllocSucceeds(f, c, Limit(), recent, cnt);
      if cnt <= |FreeClusters(f)| {
        AllocDelivers(f, c, Limit(), recent, cnt);
        AllocInOrder(f, c, Limit(), recent, cnt);
      }
    }

    /** The volume's last cluster is none of them, though it lies on the volume. */
    lemma LastSkipped(f: seq<nat>)
      requires spc > 0 && Limit() >= 0
      ensures OnVolume(Limit()) && !OnVolume(Limit() + 1)
      ensures forall c :: c in FreeClusters(f) <==> 1 <= c < Limit() && c < |f| && f[c] == 0
    {
      LimitExactly(Limit());
      LimitExactly(Limit() + 1);
    }

    /** So with no other cluster free a request for one fails, and one for a run of one does not. */
    lemma OnlyLastFree(f: seq<nat>)
      requires spc > 0 && 2 <= Limit() < |f| && f[Limit()] == 0 && forall c :: 1 <= c < Limit() ==> f[c] != 0
      ensures (forall recent: int :: Alloc(f, 0, Limit(), recent, 1).Failed?) && Fits(f, Limit(), 1)
    {
      LastSkipped(f);
      assert FreeClusters(f) == {};
      assert FreeInVolume(f, Limit()) by { LimitExactly(Limit()); }
      forall recent: int
        ensures Alloc(f, 0, Limit(), recent, 1).Failed?
      {
        AllocSucceeds(f, 0, Limit(), recent, 1);
      }
    }

    lemma PicksOnVolume(f: seq<nat>, c: int, recent: int, cnt: nat)
      requires spc > 0 && 2 <= Limit() <= |f| && cnt > 0
      ensures var r := Alloc(f, c, Limit(), recent, cnt);
              r.Ran? ==> forall i :: 0 <= i < |r.picks| ==> OnVolume(r.picks[i])
    {
      PicksWereFree(f, c, Limit(), recent, false, cnt);
      var r := Alloc(f, c, Limit(), recent, cnt);
      hide AllocRun, Limit, OnVolume, InVolume;
      if r.Ran? {
        forall i | 0 <= i < |r.picks|
          ensures OnVolume(r.picks[i])
        {
          assert r.picks[i] in FreeSet(f, Limit());
          LimitExactly(r.picks[i]);
        }
      }
    }

    /** FAT32AllocClus. ok is false where the original throws; the request for nothing gets the end
        mark. On success both copies on the disk hold the new table. */
    method FAT32AllocClus(c: int, cnt: int) returns (ok: bool, first: int, ghost picks: seq<nat>)
      requires Valid() && Agree()
      modifies this`mostRecentlyAlloced, blk, blk.fat1, blk.fat2, blk.cur
      ensures Valid() && Agree()
      ensures cnt <= 0 ==> ok && first == END_MARK && Table1() == old(Table1())
      ensures cnt > 0 ==>
                var r := Alloc(old(Table1()), c, Limit(), old(mostRecentlyAlloced), cnt);
                Table1() == r.f && ok == r.Ran? && (ok ==> picks == r.picks)
      ensures cnt > 0 && ok ==>
                && |picks| == cnt && first == picks[0] && mostRecentlyAlloced == picks[cnt - 1]
                && Disk1() == Disk2() == Table1() && forall i :: 0 <= i < cnt ==> OnVolume(picks[i])
      ensures cnt > 0 && (0 < c < Limit() ==> old(Table1())[c] != 0) ==>
                Delivered(old(Table1()), Table1(), c, old(mostRecentlyAlloced), cnt, ok, picks)
    {
      hide AllocRun, Limit, InVolume, OnVolume, Flat, Link, Delivered;
      if cnt <= 0 {
        return true, END_MARK, [];
      }
      ghost var r := Alloc(Table1(), c, Limit(), mostRecentlyAlloced, cnt);
      picks := if r.Ran? then r.picks else [];
      PicksOnVolume(Table1(), c, mostRecentlyAlloced, cnt);
      if 0 < c < Limit() ==> Table1()[c] != 0 {
        DeliveredIs(Table1(), c, mostRecentlyAlloced, cnt);
      }
      ok, first := PickAndClose(c, cnt);
    }

    method LinkTo(e: int, v: nat)
      requires Valid() && Agree()
      modifies blk, blk.fat1, blk.fat2, blk.cur
      ensures Valid() && Agree() && Table1() == Link(old(Table1()), e, Limit(), v)
    {
      if 0 < e < Limit() {
        Write(e, v);
      }
    }

    method Flush()
      requires Valid() && Agree()
      modifies blk, blk.fat1, blk.fat2, blk.cur
      ensures Valid() && Agree() && Table1() == old(Table1()) && Disk1() == Disk2() == Table1()
    {
      blk.DrvFATBlkClean(Both);
    }

    /** ClusNumNext on a table whose links stay inside. */
    method ReadNext(c: int, cnt: int) returns (r: int)
      requires Valid() && Agree() && (IsClus(c) ==> c < |Table1()|)
      requires forall i :: 0 <= i < |Table1()| ==> Table1()[i] < |Table1()| || !IsClus(Table1()[i])
      modifies blk, blk.fat1, blk.fat2, blk.cur
      ensures Valid() && Agree() && Table1() == old(Table1()) && r == ClusNumNext(old(Table1()), c, cnt)
    {
      r := c;
      if cnt <= 0 {
        return;
      }
      ghost var f := Table1();
      var left := cnt;
      while left > 0 && IsClus(r)
        invariant 0 <= left <= cnt && Valid() && Agree() && Table1() == f && (IsClus(r) ==> r < |f|)
        invariant Hop(f, c, cnt) == Hop(f, r, left)
        decreases left
      {
        left := left - 1;
        Touch(r);
        r := blk.cur[r % PER_SECTOR];
      }
      if !IsClus(r) {
        r := INVALID_CLUS;
      }
    }

    // The copy a pass works on, and what stays untouched meanwhile.
    ghost function TableOf(sel: Sel): seq<nat>
      requires Geometry()
      reads blk, blk.fat1, blk.fat2, blk.cur
    {
      if sel == Second then Table2() else Table1()
    }

    ghost function Other(sel: Sel): seq<seq<nat>>
      reads blk, blk.fat1, blk.fat2
    {
      if sel == Second then blk.fat1[..] else blk.fat2[..]
    }

    ghost predicate PassOk(sel: Sel)
      requires Geometry()
      reads blk, blk.fat1, blk.fat2, blk.cur
    {
      !blk.dirty ==> if sel == Second then blk.fat2[..] == blk.View2() else blk.fat1[..] == blk.View1()
    }

    /** Read an entry of one copy and overwrite it. */
    method Exchange(c: nat, v: nat, sel: Sel) returns (was: nat)
      requires Geometry() && sel != Both && PassOk(sel) && c < |TableOf(sel)|
      modifies blk, blk.fat1, blk.fat2, blk.cur
      ensures Geometry() && blk.dirty && blk.curNum == SectorOf(c)
      ensures was == old(TableOf(sel))[c] && TableOf(sel) == old(TableOf(sel))[c := v] && Other(sel) == old(Other(sel))
    {
      hide Limit, InVolume, Flat;
      ghost var view := if sel == Second then blk.View2() else blk.View1();
      FlatAt(PER_SECTOR, view, c);
      blk.DrvFATBlkSet(c / PER_SECTOR, sel);
      assert (if sel == Second then blk.View2() else blk.View1()) == view;
      assert view[SectorOf(c)] == blk.cur[..];
      was := blk.cur[c % PER_SECTOR];
      FlatPut(PER_SECTOR, view, c, v);
      blk.Put(c % PER_SECTOR, v);
    }

    /** One pass of FAT32FreeClus over the copy selected; it ends in the last sector visited. */
    method FreePass(start: nat, sel: Sel)
      requires Geometry() && sel != Both && IsClus(start) && PassOk(sel) && Inside(TableOf(sel), start)
      modifies blk, blk.fat1, blk.fat2, blk.cur
      ensures Geometry() && blk.dirty && Other(sel) == old(Other(sel))
      ensures TableOf(sel) == FreedFirst(old(TableOf(sel)), start)
      ensures blk.curNum == LastSector(old(TableOf(sel)), start)
    {
      hide Limit, InVolume, Flat, Zeroed, Visited, Inside, TableOf, Other;
      ghost var f := TableOf(sel);
      ghost var seen: seq<nat> := [];
      var c: nat := start;
      while true
        invariant Geometry() && IsClus(c) && PassOk(sel) && Other(sel) == old(Other(sel))
        invariant Inside(TableOf(sel), c) && Visited(f, start) == seen + Visited(TableOf(sel), c)
        invariant FreedFirst(TableOf(sel), c) == FreedFirst(f, start)
        decreases Used(TableOf(sel)), IsClus(c)
      {
        ghost var g := TableOf(sel);
        InsideStep(g, c);
        VisitedStep(g, c);
        hide Geometry, Visited, Inside, Zeroed;
        var next := Exchange(c, 0, sel);
        seen := seen + [c];
        if !(0 < next < CHAIN_END) {
          NoVisit(g[c := 0], next);
          assert Visited(f, start)[|Visited(f, start)| - 1] == c;
          break;
        }
        c := next;
      }
    }

    /** FAT32FreeClus: one pass over each copy. The first loses exactly the chain; what happens to the
        second, and when it follows, is FreedSecond's matter. */
    method FAT32FreeClus(c: int)
      requires Valid() && Agree() && Inside(Table1(), c)
      modifies blk, blk.fat1, blk.fat2, blk.cur
      ensures Valid()
      ensures !IsClus(c) ==> Table1() == old(Table1()) && Agree()
      ensures IsClus(c) ==> Disk1() == FreedFirst(old(Table1()), c) && Disk2() == FreedSecond(old(Table1()), c)
      ensures IsClus(c) ==> Table1() == Disk1() && Table2() == Disk2()
      ensures IsClus(c) ==> (Disk1() == Disk2() <==> Settles(Visited(old(Table1()), c), LastSector(old(Table1()), c)))
    {
      hide Limit, InVolume, Flat, Visited, Inside, Zeroed;
      hide Settles, LastSector, FreedSecond, FreedFirst, FirstIn, Overlay;
      if !(0 < c < CHAIN_END) {
        return;
      }
      ghost var f := Table1();
      SomeVisited(f, c);
      CopiesAgree(f, c);
      SecondPass(f, c);
      LastSectorAgrees(f, c);
      blk.DrvFATBlkClean(Both);
      assert Table1() == f && Disk1() == f && Disk2() == f;
      FreePass(c, First);
      blk.DrvFATBlkClean(First);
      assert Disk1() == Table1() == FreedFirst(f, c) && Disk2() == f;
      ghost var s, d1 := blk.curNum, blk.fat1[..];
      FlatOverlay(blk.fat2[..], blk.View1(), s);
      assert blk.View2() == blk.fat2[..][s := blk.View1()[s]];
      assert Table2() == Overlay(f, FreedFirst(f, c), s);
      FreePass(c, Second);
      SecondIs(f, c, Table2());
      blk.DrvFATBlkClean(Second);
      assert Disk2() == Table2() && blk.fat1[..] == d1;
      FlatInjective(blk.fat1[..], blk.fat2[..], s);
      assert blk.View2() == blk.fat2[..] && blk.View1() == blk.fat1[..];
    }

    ghost predicate FreeInVolume(f: seq<nat>, c: nat)
    {
      InVolume(c) && c < |f| && f[c] == 0
    }

    // The run of cnt clusters from s lies in the volume and is free.
    ghost predicate Fits(f: seq<nat>, s: nat, cnt: nat)
    {
      s >= 2 && forall c: nat :: s <= c < s + cnt ==> FreeInVolume(f, c)
    }

    lemma VolumeIsDownward(c: int, d: int)
      requires c <= d && InVolume(d)
      ensures InVolume(c)
    {
      assert (c + 1) * spc <= (d + 1) * spc;
    }

    lemma NoRunPast(f: seq<nat>, first: nat, i: nat, s: nat, cnt: nat)
      requires i < cnt && !InVolume(first + i) && (s < first ==> !Fits(f, s, cnt))
      ensures !Fits(f, s, cnt)
    {
      if Fits(f, s, cnt) {
        assert FreeInVolume(f, s + i);
        VolumeIsDownward(first + i, s + i);
      }
    }

    lemma NoRunThrough(f: seq<nat>, used: nat, s: nat, cnt: nat, first: nat)
      requires s <= used && first <= used < first + cnt && !FreeInVolume(f, used) && (s < first ==> !Fits(f, s, cnt))
      ensures !Fits(f, s, cnt)
    {
    }

    /** The search for the least run: a used cluster rules out every run through it. */
    method FindRun(cnt: nat) returns (ok: bool, first: nat)
      requires Valid() && Agree() && cnt > 0
      modifies blk, blk.fat1, blk.fat2, blk.cur
      ensures Valid() && Agree() && Table1() == old(Table1())
      ensures ok ==> Fits(Table1(), first, cnt) && forall s: nat :: s < first ==> !Fits(Table1(), s, cnt)
      ensures !ok ==> forall s: nat :: !Fits(Table1(), s, cnt)
    {
      hide Flat, Limit;
      ghost var f := Table1();
      first := 1;
      while true
        invariant 1 <= first && Valid() && Agree() && Table1() == f
        invariant forall s: nat :: s <= first ==> !Fits(f, s, cnt)
        decreases |f| - first
      {
        first := first + 1;
        var i := 0;
        while i < cnt
          invariant 0 <= i <= cnt && Valid() && Agree() && Table1() == f
          invariant forall c: nat :: first <= c < first + i ==> FreeInVolume(f, c)
        {
          if (first + i + 1) * spc + dataArea > volEnd {
            forall s: nat
              ensures !Fits(f, s, cnt)
            {
              NoRunPast(f, first, i, s, cnt);
            }
            return false, first;
          }
          assert InVolume(first + i);
          Touch(first + i);
          if blk.cur[(first + i) % PER_SECTOR] != 0 {
            break;
          }
          i := i + 1;
        }
        if i == cnt {
          return true, first;
        }
        forall s: nat | s <= first + i
          ensures !Fits(f, s, cnt)
        {
          NoRunThrough(f, first + i, s, cnt, first);
        }
        first := first + i;
      }
    }

    /** One writing pass over the copy selected; it ends in the run's last sector. */
    method LinkPass(first: nat, cnt: nat, sel: Sel)
      requires Geometry() && sel != Both && PassOk(sel) && cnt > 0 && first + cnt <= |TableOf(sel)|
      modifies blk, blk.fat1, blk.fat2, blk.cur
      ensures Geometry() && blk.dirty && Other(sel) == old(Other(sel)) && blk.curNum == SectorOf(first + cnt - 1)
      ensures TableOf(sel) == Written(old(TableOf(sel)), first, cnt, cnt)
    {
      hide Limit, InVolume, Flat, Written;
      ghost var f := TableOf(sel);
      WrittenMore(f, first, cnt, 0);
      var i := 0;
      while i < cnt
        invariant 0 <= i <= cnt && Geometry() && PassOk(sel) && Other(sel) == old(Other(sel))
        invariant TableOf(sel) == Written(f, first, cnt, i)
        invariant i > 0 ==> blk.dirty && blk.curNum == SectorOf(first + i - 1)
      {
        WrittenMore(f, first, cnt, i);
        var was := Exchange(first + i, RunLink(first, cnt, i), sel);
        i := i + 1;
      }
    }

    /** FAT32AllocContiguousClus: the least free run in the volume, linked in both copies; ok is false
        where the original throws, which is exactly when there is no such run. */
    method FAT32AllocContiguousClus(cnt: int) returns (ok: bool, first: int)
      requires Valid() && Agree()
      modifies blk, blk.fat1, blk.fat2, blk.cur
      ensures Valid() && Agree()
      ensures cnt <= 0 ==> ok && first == END_MARK && Table1() == old(Table1())
      ensures cnt > 0 && !ok ==> Table1() == old(Table1()) && forall s: nat :: !Fits(old(Table1()), s, cnt)
      ensures cnt > 0 && ok ==>
                && first >= 2 && Fits(old(Table1()), first, cnt) && (forall i :: first <= i < first + cnt ==> OnVolume(i))
                && (forall s: nat :: s < first ==> !Fits(old(Table1()), s, cnt))
                && Table1() == Disk1() == Disk2()
                && Appended(old(Table1()), Table1(), 0, |Table1()|, Consecutive(first, cnt))
    {
      hide Limit, InVolume, OnVolume, Flat, Written, Appended;
      if cnt <= 0 {
        return true, END_MARK;
      }
      ghost var f := Table1();
      ok, first := FindRun(cnt);
      if ok {
        FitsIsFree(f, first, cnt);
        FitsOnVolume(f, first, cnt);
        WrittenIsChain(f, first, cnt);
        hide Fits;
        LinkBoth(first, cnt);
      }
    }

    // The run is linked in one copy after the other.
    method LinkBoth(first: nat, cnt: nat)
      requires Valid() && Agree() && cnt > 0 && first + cnt <= |Table1()|
      modifies blk, blk.fat1, blk.fat2, blk.cur
      ensures Valid() && Agree() && Table1() == Disk1() == Disk2() == Written(old(Table1()), first, cnt, cnt)
    {
      hide Limit, InVolume, Flat, Written;
      ghost var f := Table1();
      ghost var g := Written(f, first, cnt, cnt);
      Flush();
      LinkPass(first, cnt, First);
      blk.DrvFATBlkClean(First);
      ghost var s := blk.curNum;
      CopiedSector(s, f, g);
      MixedTables(f, first, cnt, s);
      LinkSecond(first, cnt, g);
    }

    // Between the passes the cached sector stands in for the second copy's.
    lemma CopiedSector(s: nat, f: seq<nat>, g: seq<nat>)
      requires Geometry() && s == blk.curNum && Disk2() == f && Table1() == g && |f| == |g|
      ensures Table2() == Overlay(f, g, s)
    {
      hide Limit, InVolume;
      FlatOverlay(blk.fat2[..], blk.View1(), s);
      assert blk.View2() == blk.fat2[..][s := blk.View1()[s]];
    }

    // The pass over the second copy, when the first is finished.
    method LinkSecond(first: nat, cnt: nat, ghost g: seq<nat>)
      requires Geometry() && PassOk(Second) && cnt > 0 && first + cnt <= |Table2()| && Disk1() == g
      requires Written(Table2(), first, cnt, cnt) == g
      modifies blk, blk.fat1, blk.fat2, blk.cur
      ensures Valid() && Agree() && Table1() == Disk1() == Disk2() == g
    {
      hide Limit, InVolume, Flat, Written;
      LinkPass(first, cnt, Second);
      blk.DrvFATBlkClean(Second);
      ghost var s := blk.curNum;
      assert Disk2() == Table2() == g && Disk1() == g;
      FlatInjective(blk.fat1[..], blk.fat2[..], s);
      assert blk.View2() == blk.fat2[..] && blk.View1() == blk.fat1[..];
      SameTables(blk.View1(), blk.View2());
    }

    lemma FitsOnVolume(f: seq<nat>, first: nat, cnt: nat)
      requires spc > 0 && Fits(f, first, cnt)
      ensures forall i :: first <= i < first + cnt ==> OnVolume(i)
    {
      hide OnVolume;
      forall i | first <= i < first + cnt
        ensures OnVolume(i)
      {
        assert FreeInVolume(f, i);
        LimitExactly(i);
      }
    }

    lemma FitsIsFree(f: seq<nat>, first: nat, cnt: nat)
      requires Fits(f, first, cnt) && cnt > 0
      ensures first + cnt <= |f| && forall i :: first <= i < first + cnt ==> f[i] == 0
    {
      assert FreeInVolume(f, first + cnt - 1);
      forall i | first <= i < first + cnt
        ensures f[i] == 0
      {
        assert FreeInVolume(f, i);
      }
    }
  }

  lemma MixedTables(f: seq<nat>, first: nat, cnt: nat, s: nat)
    ensures Written(Overlay(f, Written(f, first, cnt, cnt), s), first, cnt, cnt) == Written(f, first, cnt, cnt)
  {
    WrittenOver(f, Overlay(f, Written(f, first, cnt, cnt), s), first, cnt);
  }

  lemma SameTables(v: seq<seq<nat>>, w: seq<seq<nat>>)
    requires |v| == |w| && forall i :: 0 <= i < |v| ==> |v[i]| == |w[i]| == PER_SECTOR
    requires Flat(PER_SECTOR, v) == Flat(PER_SECTOR, w)
    ensures v == w
  {
    forall s | 0 <= s < |v|
      ensures v[s] == w[s]
    {
      FlatInjective(v, w, s);
    }
  }

  lemma SomeVisited(f: seq<nat>, c: nat)
    requires IsClus(c) && Inside(f, c)
    ensures Visited(f, c) != []
  {
  }

  lemma SecondIs(f: seq<nat>, c: int, t: seq<nat>)
    requires t == FreedFirst(Overlay(f, FreedFirst(f, c), LastSector(f, c)), c)
    ensures t == FreedSecond(f, c)
  {
    hide Visited, LastSector, Overlay, Zeroed;
  }

  lemma InsideStep(g: seq<nat>, c: nat)
    requires IsClus(c) && Inside(g, c)
    ensures c < |g| && Inside(g[c := 0], g[c])
    ensures g[c] != 0 ==> c in Used(g) && c !in Used(g[c := 0]) && Used(g[c := 0]) < Used(g)
    ensures g[c] == 0 ==> !IsClus(g[c])
  {
    if g[c] != 0 {
      assert c in Used(g) && c !in Used(g[c := 0]);
    }
  }

  lemma NoVisit(g: seq<nat>, c: int)
    requires !IsClus(c)
    ensures Visited(g, c) == [] && FreedFirst(g, c) == g
  {
  }

  // A run continued after some picks.
  ghost function Ahead(picks: seq<nat>, r: Run): Run
  {
    match r case Failed(f) => Failed(f) case Ran(f, e, more) => Ran(f, e, picks + more)
  }

  lemma AheadTwice(picks: seq<nat>, p: nat, r: Run)
    ensures Ahead(picks, Ahead([p], r)) == Ahead(picks + [p], r)
  {
    if r.Ran? {
      assert picks + ([p] + r.picks) == picks + [p] + r.picks;
    }
  }

  lemma AheadEnds(picks: seq<nat>, r: Run)
    ensures r.Failed? ==> Ahead(picks, r) == r
    ensures r.Ran? && r.picks == [] ==> Ahead(picks, r) == Ran(r.f, r.clus, picks)
  {
  }

  lemma AheadNothing(r: Run)
    ensures Ahead([], r) == r
  {
  }

  lemma RunStep(f: seq<nat>, c: int, l: nat, j: int, wrapped: bool, cnt: nat)
    requires 2 <= l <= |f| && cnt > 0
    ensures AllocRun(f, c, l, j, wrapped, cnt) ==
            match NextFree(f, j, l, wrapped)
            case NoneFree => Failed(f)
            case At(p, w) => Ahead([p], AllocRun(Link(f, c, l, p), p, l, p, w, cnt - 1))
  {
    hide NextFree;
  }

  lemma RunDone(f: seq<nat>, c: int, l: nat, j: int, wrapped: bool)
    requires 2 <= l <= |f|
    ensures AllocRun(f, c, l, j, wrapped, 0) == Ran(f, c, [])
  {
  }
}

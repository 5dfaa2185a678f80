/** Whole runs on a RedSea volume: format, write and read; a run that loses a file, and one that loses the
    directory (HolyCRT/BlkDev/FileSysRedSea.HC). */
module RedSeaRuns {
  import opened FatBlk
  import opened FileNames
  import opened RedSeaFree
  import opened RedSeaAlloc
  import opened RedSeaDir
  import opened RedSea

  // What the free list holds after formatting.
  lemma FreshNodes(lo: int, hi: int, blks: nat)
    requires lo + 1 + blks <= hi
    ensures var used := {lo} + Blocks(Run(lo + 1, blks));
            BuildFrom(used, lo, hi) == if lo + 1 + blks == hi then [] else [Run(lo + 1 + blks, hi - (lo + 1 + blks))]
  {
    var used, c := {lo} + Blocks(Run(lo + 1, blks)), lo + 1 + blks;
    BuildSkips(used, lo, 1 + blks, hi);
    if c < hi {
      GapIs(used, c, hi, hi - c);
      BuildEnds(used, hi + 1, hi);
    } else {
      BuildEnds(used, c, hi);
    }
  }

  // A fresh directory has no file to delete, and does not grow by one entry.
  lemma FreshEntry(root: int, blks: nat, name: string, free: seq<Run>)
    requires blks > 0
    ensures var s := RedSeaDrv.FreshRoot(root, blks);
            && |s| == SLOTS * blks && Ends(s) && Swept(s, name, false, |s|) == s && SweptNodes(free, s, name, false, |s|) == free
            && !Grows(s, name)
  {
    var s := RedSeaDrv.FreshRoot(root, blks);
    assert forall i :: 2 <= i < |s| ==> s[i] == FREE_SLOT;
    SweptNodesEnd(free, s, name, false, 2, |s|);
    assert SweptNodes(free, s, name, false, 1) == free;
    assert Stops(s[2], name);
    assert StopAt(s, name, 1) <= 2;
  }

  /** A volume just formatted, a file written, the file read: it is what was written, exactly if the
      volume holds the last bitmap sector, the root directory and the file's blocks. */
  method FormatWriteRead(sectors: array<seq<bool>>, disk: array<Block>, dataArea: int, volEnd: int, rootBlks: nat,
      name: string, buf: seq<Byte>, slack: Byte) returns (res: Option<seq<Byte>>)
    requires 0 < dataArea < volEnd <= disk.Length && rootBlks > 0 && ValidName(name)
    requires 0 < sectors.Length && volEnd - dataArea <= PER_SECTOR * sectors.Length
    modifies sectors, disk
    ensures res == if volEnd - dataArea >= 1 + rootBlks + Blks(|buf|) then Some(buf) else None
  {
    hide ValidName, Blks, BuildFrom, Swept, StopAt, Lookup, DirOk, Layout, UsedBlocks, Flat, Ends;
    var dv := RedSeaDrv.RedSeaFmt(sectors, disk, dataArea, volEnd, rootBlks);
    if dv == null {
      return None;
    }
    ghost var free := dv.vol.Nodes();
    ghost var left := volEnd - (dataArea + 1 + rootBlks);
    FreshNodes(dataArea, volEnd, rootBlks);
    FreshEntry(dataArea + 1, rootBlks, name, free);
    if Blks(|buf|) > 0 {
      RedSeaDrv.OneNode(dataArea + 1 + rootBlks, left, Blks(|buf|));
    }
    var outcome := dv.RedSeaFileWrite(name, buf, slack);
    if !outcome.Written? {
      return None;
    }
    res := dv.RedSeaFileRead(name);
  }

  // ---- A file lost ----

  // A drive and all that is its own.
  ghost function Parts(dv: RedSeaDrv): set<object>
    reads dv, dv.vol
  {
    {dv, dv.disk, dv.vol, dv.vol.blk, dv.vol.blk.fat1, dv.vol.blk.cur}
  }

  // File names "A", "B" and so on.
  function NameOf(i: nat): (n: string)
    requires i < 6
    ensures |n| == 1 && ValidName(n)
  {
    [(65 + i) as char]
  }

  // A file of n bytes named "A" in the first free slot of a fresh directory of one block.
  function OneFile(clus: int, n: nat): (s: seq<Entry>)
  {
    RedSeaDrv.FreshRoot(2, 1)[2 := Entry(NameOf(0), false, false, clus, n)]
  }

  lemma FirstFile(clus: int, n: nat)
    ensures var s, e := RedSeaDrv.FreshRoot(2, 1), Entry(NameOf(0), false, false, clus, n);
            |s| > 1 && s[|s| - 1].name == "" && Placed(s, e) == OneFile(clus, n)
  {
    var s := RedSeaDrv.FreshRoot(2, 1);
    var p := StopAt(s, NameOf(0), 1);
    assert Stops(s[2], NameOf(0)) && !Stops(s[1], NameOf(0)) && p == 2;
    assert ReuseAt(s, 1, p) == p;
  }

  // Written again, it takes the slot of the file deleted.
  lemma AgainFits(clus: int, n: nat)
    ensures var s := OneFile(clus, n); var t := Swept(s, NameOf(0), false, |s|);
            |t| > 1 && Ends(t) && !Grows(t, NameOf(0))
  {
    var s := OneFile(clus, n);
    var t := Swept(s, NameOf(0), false, |s|);
    assert Doomed(s[2], NameOf(0), false) && t[3] == s[3] == FREE_SLOT;
    assert Stops(t[3], NameOf(0)) && StopAt(t, NameOf(0), 1) <= 3;
  }

  // Two blocks for a file are more than four blocks leave.
  lemma TwoTooMany(dv: RedSeaDrv, name: string)
    requires dv.Valid() && dv.vol.dataArea == 1 && dv.vol.volEnd == 4 && Lookup(dv.dir, name).Some?
    ensures Blks(Lookup(dv.dir, name).value.size) < 2
  {
    var e, d := Lookup(dv.dir, name).value, Extents(dv.dir)[0];
    dv.EntryInside(name);
    assert d == Run(dv.dir[0].clus, Blks(dv.dir[0].size)) && d.size > 0;
    assert In(d, d.start) && d.start in Blocks(d) && Blocks(d) <= dv.vol.Used() - dv.other;
    var r := Run(e.clus, Blks(e.size));
    assert forall c :: In(r, c) ==> c in Blocks(r);
    assert r.size >= 2 ==> In(r, e.clus) && In(r, e.clus + 1);
  }

  // A file that fills the volume is written again, one block longer.
  method WriteLonger(dv: RedSeaDrv, clus: int, n: nat, buf: seq<Byte>) returns (res: Outcome)
    requires dv.Valid() && dv.vol.dataArea == 1 && dv.vol.volEnd == 4 && dv.dir == OneFile(clus, n) && Blks(|buf|) == 2
    modifies dv, dv.disk, dv.vol, dv.vol.blk, dv.vol.blk.fat1, dv.vol.blk.cur
    ensures dv.Valid() && res.NoSpace? && dv.Contents(NameOf(0)) == None
  {
    hide BuildFrom, Swept, SweptNodes, StopAt, ReuseAt, Lookup, DirOk, UsedBlocks;
    hide Flat, Ends, CanGrow, Placed, DirAt, FreeOk, Blks;
    AgainFits(clus, n);
    res := dv.RedSeaFileWrite(NameOf(0), buf, 0);
    if res.Written? {
      TwoTooMany(dv, NameOf(0));
      assert false;
    }
  }

  // Four blocks, formatted: one is to spare.
  method FormattedFour() returns (dv: RedSeaDrv)
    ensures fresh(Parts(dv)) && dv.Valid() && dv.dir == RedSeaDrv.FreshRoot(2, 1)
    ensures dv.vol.dataArea == 1 && dv.vol.volEnd == 4 && dv.vol.Nodes() == [Run(3, 1)]
  {
    hide BuildFrom, Lookup, DirOk, UsedBlocks, Flat, Ends, DirAt, FreeOk, RedSeaDrv.FreshRoot, Blocks, Layout;
    var sectors := new seq<bool>[1](_ => seq(PER_SECTOR, _ => false));
    var disk := new Block[4](_ => Bytes([]));
    FreshNodes(1, 4, 1);
    var d := RedSeaDrv.RedSeaFmt(sectors, disk, 1, 4, 1);
    dv := d;
  }

  method WriteByte(dv: RedSeaDrv) returns (clus: int)
    requires dv.Valid() && dv.dir == RedSeaDrv.FreshRoot(2, 1) && dv.vol.Nodes() == [Run(3, 1)]
    modifies dv, dv.disk, dv.vol, dv.vol.blk, dv.vol.blk.fat1, dv.vol.blk.cur
    ensures dv.Valid() && dv.Contents(NameOf(0)) == Some([0]) && dv.dir == OneFile(clus, 1)
  {
    hide BuildFrom, Swept, SweptNodes, StopAt, ReuseAt, Lookup, DirOk, UsedBlocks;
    hide Flat, Ends, CanGrow, Placed, DirAt, FreeOk, RedSeaDrv.FreshRoot;
    FreshEntry(2, 1, NameOf(0), dv.vol.Nodes());
    RedSeaDrv.OneNode(3, 1, 1);
    var first := dv.RedSeaFileWrite(NameOf(0), [0], 0);
    FirstFile(first.clus, 1);
    clus := first.clus;
  }

  /** Writing over a file when there is no space for the new contents loses the old ones: on a volume with
      one block to spare a file of one byte is there, and after writing it again with 513 it is not. */
  method FileLost() returns (was: Option<seq<Byte>>, res: Outcome, now: Option<seq<Byte>>)
    ensures was == Some([0]) && res.NoSpace? && now == None
  {
    var dv := FormattedFour();
    hide OneFile, RedSeaDrv.FreshRoot;
    var clus := WriteByte(dv);
    was := dv.RedSeaFileRead(NameOf(0));
    res := WriteLonger(dv, clus, 1, seq(513, _ => 0));
    now := dv.RedSeaFileRead(NameOf(0));
  }

  // ---- A directory lost ----

  function Empty(i: nat): Entry
    requires i < 6
  {
    Entry(NameOf(i), false, false, INVALID_CLUS, 0)
  }

  // A directory of one block at block 2 after k empty files.
  function After(k: nat): (s: seq<Entry>)
    requires k <= 5
    ensures |s| == SLOTS
  {
    seq(SLOTS, j requires 0 <= j < SLOTS =>
      if j == 0 then Entry(".", true, false, 2, BLK_SIZE) else if j == 1 then Entry("..", true, false, 2, 0)
      else if j < 2 + k then Empty(j - 2) else FREE_SLOT)
  }

  lemma AfterIs(k: nat, free: seq<Run>)
    requires k <= 5
    ensures var s, n := After(k), NameOf(k);
            && Ends(s) && Swept(s, n, false, |s|) == s && SweptNodes(free, s, n, false, |s|) == free
            && Reused(s, Empty(k)) == s
            && (k < 5 ==> !Grows(s, n) && Placed(s, Empty(k)) == After(k + 1))
            && (k == 5 ==> Grows(s, n))
  {
    var s, n := After(k), NameOf(k);
    forall i | 0 <= i < |s|
      ensures !Doomed(s[i], n, false)
      ensures i < 2 + k ==> !Stops(s[i], n)
      ensures !s[i].deleted
    {
    }
    NothingSwept(free, s, n, |s|);
    var p := StopAt(s, n, 1);
    assert Stops(s[2 + k], n) && p == 2 + k;
    assert ReuseAt(s, 1, p) == p;
    if k < 5 {
      assert Placed(s, Empty(k)) == s[p := Empty(k)];
      assert s[p := Empty(k)] == After(k + 1);
    }
  }

  lemma {:induction false} NothingSwept(free: seq<Run>, s: seq<Entry>, name: string, n: nat)
    requires n <= |s| && forall i :: 0 <= i < n ==> !Doomed(s[i], name, false)
    ensures SweptNodes(free, s, name, false, n) == free
  {
    if n > 0 {
      NothingSwept(free, s, name, n - 1);
    }
  }

  lemma Full(dv: RedSeaDrv)
    requires dv.Valid() && dv.dir == After(5) && dv.vol.dataArea == 1 && dv.vol.volEnd == 3
    ensures forall c :: 1 <= c < 3 ==> c in dv.vol.Used()
    ensures Extents(dv.dir)[0] == Run(2, 1)
  {
    assert Blocks(Extents(dv.dir)[0]) <= dv.vol.Used() && In(Run(2, 1), 2);
  }

  lemma FreshIs()
    ensures RedSeaDrv.FreshRoot(2, 1) == After(0)
  {
  }

  method WriteEmpty(dv: RedSeaDrv, k: nat) returns (res: Outcome)
    requires dv.Valid() && k < 5 && dv.dir == After(k)
    modifies dv, dv.disk, dv.vol, dv.vol.blk, dv.vol.blk.fat1, dv.vol.blk.cur
    ensures dv.Valid() && dv.dir == After(k + 1)
  {
    hide BuildFrom, Swept, SweptNodes, StopAt, ReuseAt, Lookup, DirOk, UsedBlocks;
    hide Flat, Ends, ValidName, CanGrow, Placed, DirAt, FreeOk;
    AfterIs(k, dv.vol.Nodes());
    res := dv.RedSeaFileWrite(NameOf(k), [], 0);
    assert Entry(NameOf(k), false, false, res.clus, 0) == Empty(k);
  }

  // Three blocks, formatted: one for the bitmap and one for the directory.
  method FormattedSmall() returns (dv: RedSeaDrv)
    ensures fresh(Parts(dv)) && dv.Valid() && dv.dir == After(0) && dv.rootClus == 2
    ensures dv.vol.dataArea == 1 && dv.vol.volEnd == 3
  {
    hide BuildFrom, Swept, SweptNodes, StopAt, ReuseAt, Lookup, DirOk, UsedBlocks;
    hide Flat, Ends, ValidName, CanGrow, Placed, DirAt, FreeOk;
    var sectors := new seq<bool>[1](_ => seq(PER_SECTOR, _ => false));
    var disk := new Block[3](_ => Bytes([]));
    FreshIs();
    var d := RedSeaDrv.RedSeaFmt(sectors, disk, 1, 3, 1);
    dv := d;
  }

  // Five empty files fill the directory's block.
  method FillDirectory(dv: RedSeaDrv)
    requires dv.Valid() && dv.dir == After(0)
    modifies dv, dv.disk, dv.vol, dv.vol.blk, dv.vol.blk.fat1, dv.vol.blk.cur
    ensures dv.Valid() && dv.dir == After(5)
  {
    hide *;
    var k := 0;
    while k < 5
      invariant 0 <= k <= 5 && dv.Valid() && dv.dir == After(k)
    {
      var res := WriteEmpty(dv, k);
      k := k + 1;
    }
  }

  // The sixth does not fit.
  method WriteSixth(dv: RedSeaDrv) returns (res: Outcome)
    requires dv.Valid() && dv.dir == After(5) && dv.vol.dataArea == 1 && dv.vol.volEnd == 3
    modifies dv, dv.disk, dv.vol, dv.vol.blk, dv.vol.blk.fat1, dv.vol.blk.cur
    ensures dv.Core() && res.NoRoomToGrow? && Blocks(Extents(dv.dir)[0]) == {2} && 2 !in dv.vol.Used()
  {
    hide BuildFrom, Swept, SweptNodes, StopAt, ReuseAt, Lookup, DirOk, UsedBlocks;
    hide Flat, Ends, ValidName, CanGrow, Placed, DirAt, FreeOk;
    AfterIs(5, dv.vol.Nodes());
    Full(dv);
    dv.FullCannotGrow();
    res := dv.RedSeaFileWrite(NameOf(5), [], 0);
  }

  /** The failure, from formatting on: on a volume with no block to spare the sixth empty file makes
      the directory grow, the directory's block is freed, no two blocks are found, and the directory is
      left in a block marked unused. */
  method DirectoryLost() returns (dv: RedSeaDrv, res: Outcome)
    ensures dv.Core() && res.NoRoomToGrow? && Blocks(Extents(dv.dir)[0]) == {2} && 2 !in dv.vol.Used()
  {
    dv := FormattedSmall();
    hide After;
    FillDirectory(dv);
    res := WriteSixth(dv);
  }
}

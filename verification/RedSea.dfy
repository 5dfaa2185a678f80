/** Files in the root directory of a RedSea volume: writing, reading and deleting them, over the
    bitmap, the free list and a directory that grows by moving (HolyCRT/BlkDev/FileSysRedSea.HC). */
module RedSea {
  import opened FatBlk
  import opened FileNames
  import opened RedSeaFree
  import opened RedSeaDir
  import opened RedSeaAlloc

  type Byte = n: nat | n < 256

  // A disk block holds directory slots or bytes.
  datatype Block = Slots(slots: seq<Entry>) | Bytes(bytes: seq<Byte>)

  function ByteAt(b: Block, o: nat): Byte
  {
    if b.Bytes? && o < |b.bytes| then b.bytes[o] else 0
  }

  // ---- Directories and files on the disk ----

  ghost predicate SlotBlock(d: seq<Block>, root: int, s: seq<Entry>, j: int)
  {
    0 <= j && SLOTS * j + SLOTS <= |s| && 0 <= root + j < |d| && d[root + j] == Slots(s[SLOTS * j..SLOTS * j + SLOTS])
  }

  ghost predicate DirAt(d: seq<Block>, root: int, s: seq<Entry>)
  {
    |s| % SLOTS == 0 && forall j :: 0 <= j < |s| / SLOTS ==> SlotBlock(d, root, s, j)
  }

  lemma DirAtPut(d: seq<Block>, root: int, s: seq<Entry>, k: nat, e: Entry, after: seq<Block>)
    requires DirAt(d, root, s) && k < |s|
    requires |after| == |d| && SlotBlock(after, root, s[k := e], k / SLOTS)
    requires forall b :: 0 <= b < |d| && b != root + k / SLOTS ==> after[b] == d[b]
    ensures DirAt(after, root, s[k := e])
  {
    var t := s[k := e];
    forall j | 0 <= j < |t| / SLOTS
      ensures SlotBlock(after, root, t, j)
    {
      assert SlotBlock(d, root, s, j);
      if j != k / SLOTS {
        assert t[SLOTS * j..SLOTS * j + SLOTS] == s[SLOTS * j..SLOTS * j + SLOTS];
      }
    }
  }

  function BlockAt(d: seq<Block>, b: int): Block
  {
    if 0 <= b < |d| then d[b] else Bytes([])
  }

  // The bytes an entry's blocks hold, up to its size.
  function FileData(d: seq<Block>, e: Entry): (r: seq<Byte>)
    ensures |r| == e.size
  {
    seq(e.size, o requires 0 <= o < e.size => ByteAt(BlockAt(d, e.clus + o / BLK_SIZE), o % BLK_SIZE))
  }

  // What a directory and a disk say about a file.
  function DataOf(s: seq<Entry>, d: seq<Block>, name: string): Option<seq<Byte>>
  {
    match Lookup(s, name)
    case None => None
    case Some(e) => Some(FileData(d, e))
  }

  lemma SameData(d1: seq<Block>, d2: seq<Block>, e: Entry)
    requires |d1| == |d2|
    requires forall b :: b in Blocks(Run(e.clus, Blks(e.size))) && 0 <= b < |d1| ==> d1[b] == d2[b]
    ensures FileData(d1, e) == FileData(d2, e)
  {
    forall o | 0 <= o < e.size
      ensures FileData(d1, e)[o] == FileData(d2, e)[o]
    {
      assert e.clus + o / BLK_SIZE in Blocks(Run(e.clus, Blks(e.size)));
    }
  }

  // A file's buffer as blocks; past its end there is whatever follows it in memory.
  function Packed(buf: seq<Byte>, slack: Byte, i: nat): (b: Block)
    ensures b.Bytes? && |b.bytes| == BLK_SIZE
  {
    Bytes(seq(BLK_SIZE, o requires 0 <= o < BLK_SIZE =>
      if BLK_SIZE * i + o < |buf| then buf[BLK_SIZE * i + o] else slack))
  }

  /** The bytes written are the bytes read. */
  lemma ReadsBack(d: seq<Block>, e: Entry, buf: seq<Byte>, slack: Byte)
    requires e.size == |buf|
    requires forall i :: 0 <= i < Blks(e.size) ==> BlockAt(d, e.clus + i) == Packed(buf, slack, i)
    ensures FileData(d, e) == buf
  {
    forall o | 0 <= o < e.size
      ensures FileData(d, e)[o] == buf[o]
    {
      assert BlockAt(d, e.clus + o / BLK_SIZE) == Packed(buf, slack, o / BLK_SIZE);
    }
  }

  datatype Outcome = Written(clus: int) | BadName | NoSpace | NoRoomToGrow(clus: int)

  // The directory's own run and one block more can be found once its run is given up.
  ghost predicate CanGrow(free: seq<Run>, s: seq<Entry>)
    requires |s| > 0
  {
    HasRun(Freed(free, Run(s[0].clus, |s| / SLOTS)), |s| / SLOTS + 1)
  }

  // With the old file gone, its data finds room.
  ghost predicate DataFits(free: seq<Run>, s: seq<Entry>, name: string, n: nat)
  {
    n > 0 ==> HasRun(SweptNodes(free, s, name, false, |s|), n)
  }

  // A directory takes an entry of the name, growing if it must.
  ghost predicate Takes(free: seq<Run>, s: seq<Entry>, name: string)
  {
    |s| > 1 && Ends(s) && (Grows(s, name) ==> CanGrow(free, s))
  }

  // The directory with the entry in.
  ghost predicate Filed(s: seq<Entry>, now: seq<Entry>, e: Entry, root: int)
  {
    |s| > 1 && Ends(s) && now == if Grows(s, e.name) then Grown(Placed(s, e), root) else Placed(s, e)
  }

  // The directory as the walk leaves it, with the entry in if a deleted slot took it.
  ghost predicate Unfiled(s: seq<Entry>, now: seq<Entry>, e: Entry)
  {
    |s| > 1 && Ends(s) && Grows(s, e.name) && now == Reused(s, e)
  }

  // With the entry in, it stands for its name alone, and all else is listed as before.
  ghost predicate ListsFiled(s: seq<Entry>, now: seq<Entry>, e: Entry)
  {
    forall x :: Lists(now, x) <==> if x.name == e.name then x == e else Lists(s, x)
  }

  // Without room to grow, the entry is listed besides all others if a deleted slot took it.
  ghost predicate ListsUnfiled(s: seq<Entry>, now: seq<Entry>, e: Entry)
  {
    forall x :: Lists(now, x) <==> Lists(s, x) || (x == e && HasHole(s))
  }

  lemma FiledLists(s: seq<Entry>, now: seq<Entry>, e: Entry, root: int)
    requires DirOk(s) && Live(e) && Filed(s, now, e, root)
    ensures ListsFiled(s, now, e)
  {
    hide DirOk, Placed, Grown, Lists;
    PlacedLists(s, e);
    GrownLists(Placed(s, e), root);
  }

  lemma UnfiledLists(s: seq<Entry>, now: seq<Entry>, e: Entry)
    requires DirOk(s) && Live(e) && Unfiled(s, now, e)
    ensures ListsUnfiled(s, now, e)
  {
    hide DirOk, Lists, HasHole;
    ReusedLists(s, e);
  }

  // After deleting a name's file and putting a file of that name in: the same as before, but for the name.
  lemma RewrittenLists(s: seq<Entry>, now: seq<Entry>, e: Entry)
    requires !e.dir && ListsFiled(Swept(s, e.name, false, |s|), now, e)
    ensures ListsFiled(s, now, e)
  {
    hide Lists, Swept;
    SweptLists(s, e.name, false);
  }

  // With the data stored, the directory takes the new entry.
  ghost predicate EntryFits(free: seq<Run>, s: seq<Entry>, name: string, n: nat)
  {
    var left := SweptNodes(free, s, name, false, |s|);
    DataFits(free, s, name, n) && Takes(if n > 0 then Served(left, n) else left, Swept(s, name, false, |s|), name)
  }

  /** One node long enough for the data and the grown directory is enough. */
  lemma EnoughRoom(free: seq<Run>, s: seq<Entry>, name: string, n: nat)
    requires DirOk(s) && Ends(s) && HasRun(free, n + |s| / SLOTS + 1)
    ensures DataFits(free, s, name, n) && EntryFits(free, s, name, n)
  {
    var m := |s| / SLOTS + 1;
    var left := SweptNodes(free, s, name, false, |s|);
    SweptKeeps(s, name, false);
    SweptServes(free, s, name, false, |s|, n + m);
    Smaller(left, n + m, n);
    if n > 0 {
      ServedLeaves(left, n, m);
    }
    FreedServes(if n > 0 then Served(left, n) else left, Run(s[0].clus, |s| / SLOTS), m);
    hide DirOk, Ends, HasRun, Freed, Served, Lookup;
  }

  class RedSeaDrv {
    const vol: RedSeaVol
    const disk: array<Block>
    var rootClus: int
    var bootRoot: int           // what the boot sector says
    ghost var dir: seq<Entry>   // the root directory
    ghost const other: set<int> // blocks in use that no root entry owns: nested files, the last bitmap sector

    constructor (vol: RedSeaVol, disk: array<Block>, root: int, ghost dir: seq<Entry>, ghost other: set<int>)
      requires vol.Valid() && vol.volEnd <= disk.Length
      requires DirAt(disk[..], root, dir) && DirOk(dir) && Ends(dir) && dir[0].clus == root
      requires Layout(vol.Used(), Extents(dir), other) && vol.dataArea in other
      ensures Valid() && this.vol == vol && this.disk == disk && this.dir == dir && this.other == other
    {
      this.vol, this.disk, rootClus, bootRoot, this.dir, this.other := vol, disk, root, root, dir, other;
    }

    ghost function Repr(): set<object>
    {
      {this, disk, vol, vol.blk, vol.blk.fat1, vol.blk.fat2, vol.blk.cur}
    }

    // All but the names and who owns which block.
    ghost predicate Core()
      reads Repr()
    {
      && vol.Valid() && vol.volEnd <= disk.Length
      && DirAt(disk[..], rootClus, dir) && DirShape(dir) && Ends(dir)
      && dir[0].clus == rootClus == bootRoot
    }

    ghost predicate Valid()
      reads Repr()
    {
      Core() && DirOk(dir) && Layout(vol.Used(), Extents(dir), other) && vol.dataArea in other
    }

    ghost function Contents(name: string): Option<seq<Byte>>
      reads this, disk
    {
      DataOf(dir, disk[..], name)
    }

    /** Over every run, the runs of two slots share no block, also with the directory's own run in
        slot 0; they are marked in the bitmap, and no node of the free list touches them. */
    lemma RunsApart(i: nat, j: nat)
      requires Valid() && i < j < |dir|
      ensures var a, b := Blocks(Extents(dir)[i]), Blocks(Extents(dir)[j]);
              && a !! b && a + b <= vol.Used() && vol.dataArea !in a + b
              && (vol.built ==> forall k :: 0 <= k < |vol.free| ==> Blocks(vol.free[k]) !! a + b)
    {
      var xs := Extents(dir);
      assert Apart(xs[i], xs[j]);
      if vol.built {
        forall k | 0 <= k < |vol.free|
          ensures Blocks(vol.free[k]) !! vol.Used()
        {
          forall c | c in Blocks(vol.free[k])
            ensures c !in vol.Used()
          {
            assert In(vol.free[k], c) && Covers(vol.free, c);
          }
        }
      }
    }

    // A file found owns blocks in use, all apart from the directory's.
    lemma EntryInside(name: string)
      requires Valid() && Lookup(dir, name).Some?
      ensures var r := Run(Lookup(dir, name).value.clus, Blks(Lookup(dir, name).value.size));
              && Blocks(r) <= vol.Used() && Blocks(r) !! Blocks(Extents(dir)[0]) && vol.dataArea !in Blocks(r)
              && forall b :: b in Blocks(r) ==> 0 < b < disk.Length
    {
      LookupFinds(dir, name);
      var k: int :| FileAt(dir, k, name);
      var xs := Extents(dir);
      assert xs[k] == Extent(dir[k]) && Blocks(xs[k]) <= vol.Used() - other && Apart(xs[0], xs[k]);
    }

    /** The directory as read into memory: its own entry says how long it is. */
    method ReadDir() returns (buf: seq<Entry>)
      requires Core()
      ensures buf == dir
    {
      assert SlotBlock(disk[..], rootClus, dir, 0);
      var n := disk[rootClus].slots[0].size / BLK_SIZE;
      buf := [];
      var j := 0;
      while j < n
        invariant 0 <= j <= n == |dir| / SLOTS && buf == dir[..SLOTS * j]
      {
        assert SlotBlock(disk[..], rootClus, dir, j);
        buf := buf + disk[rootClus + j].slots;
        j := j + 1;
      }
    }

    /** RedSeaFileFind in the root directory. */
    method RedSeaFileFind(name: string, justDirs: bool, justFiles: bool) returns (res: Option<Entry>)
      requires Core()
      ensures res == if ValidName(name) then FindFrom(dir, 0, name, justDirs, justFiles) else None
      ensures DirOk(dir) && ValidName(name) ==> Answers(dir, name, justDirs, justFiles, res)
    {
      if DirOk(dir) {
        FindAnswers(dir, 0, name, justDirs, justFiles);
      }
      hide DirOk, Answers;
      if !ValidName(name) {
        return None;
      }
      var buf := ReadDir();
      var i := 0;
      while buf[i].name != ""
        invariant 0 <= i < |buf| && FindFrom(dir, 0, name, justDirs, justFiles) == FindFrom(dir, i, name, justDirs, justFiles)
        decreases |buf| - i
      {
        if Wanted(buf[i], name, justDirs, justFiles) {
          return Some(buf[i]);
        }
        i := i + 1;
      }
      res := None;
    }

    /** RedSeaFileRead: the blocks of the file found, cut at its size. */
    method RedSeaFileRead(name: string) returns (res: Option<seq<Byte>>)
      requires Valid()
      ensures res == if ValidName(name) then Contents(name) else None
    {
      var e := RedSeaFileFind(name, false, true);
      if e.None? {
        return None;
      }
      EntryInside(name);
      var de := e.value;
      var buf := ReadBlocks(de);
      res := Some(buf[..de.size]);
    }

    // The blocks of a file, to the end of the last.
    method ReadBlocks(de: Entry) returns (buf: seq<Byte>)
      requires forall b :: b in Blocks(Run(de.clus, Blks(de.size))) ==> 0 < b < disk.Length
      ensures de.size <= |buf| && buf[..de.size] == FileData(disk[..], de)
    {
      buf := [];
      var i := 0;
      while i < Blks(de.size)
        invariant 0 <= i <= Blks(de.size) && |buf| == BLK_SIZE * i
        invariant forall o :: 0 <= o < |buf| && o < de.size ==> buf[o] == FileData(disk[..], de)[o]
      {
        assert de.clus + i in Blocks(Run(de.clus, Blks(de.size)));
        var b := disk[de.clus + i];
        buf := buf + seq(BLK_SIZE, o requires 0 <= o < BLK_SIZE => ByteAt(b, o));
        i := i + 1;
      }
    }

    // Slot k of the directory changes in memory, and its block is written.
    method PutSlot(buf: seq<Entry>, k: nat, e: Entry) returns (now: seq<Entry>)
      requires Core() && buf == dir && 1 <= k < |dir|
      requires Ends(dir[k := e])
      modifies disk, `dir
      ensures Core() && now == dir == buf[k := e]
      ensures forall b :: 0 <= b < disk.Length && b !in Blocks(Extents(dir)[0]) ==> disk[b] == old(disk[b])
    {
      now := buf[k := e];
      var j := k / SLOTS;
      assert SlotBlock(disk[..], rootClus, dir, j);
      assert In(Extents(dir)[0], rootClus + j);
      disk[rootClus + j] := Slots(now[SLOTS * j..SLOTS * j + SLOTS]);
      assert SlotBlock(disk[..], rootClus, now, j);
      DirAtPut(old(disk[..]), rootClus, dir, k, e, disk[..]);
      dir := now;
    }

    // An owned run lies in the volume.
    lemma OwnedInside(xs: seq<Run>, i: nat)
      requires vol.Valid() && Layout(vol.Used(), xs, other) && i < |xs|
      ensures Within(xs[i], vol.dataArea, vol.volEnd) && Blocks(xs[i]) <= vol.Used()
    {
      var r := xs[i];
      assert Blocks(r) <= vol.Used() - other;
      if r.size > 0 {
        assert r.start in Blocks(r) && r.start + r.size - 1 in Blocks(r);
      }
    }

    // One entry is marked deleted on the disk, then its run is freed.
    method DeleteSlot(buf: seq<Entry>, k: nat) returns (now: seq<Entry>)
      requires Valid() && buf == dir && 1 <= k < |dir| && Live(dir[k])
      requires var t := dir[k := dir[k].(deleted := true)]; DirOk(t) && Ends(t)
      modifies disk, `dir, vol, vol.blk, vol.blk.fat1, vol.blk.cur
      ensures Valid() && now == dir == buf[k := buf[k].(deleted := true)]
      ensures vol.Used() <= old(vol.Used()) && vol.Nodes() == Freed(old(vol.Nodes()), Extent(buf[k]))
      ensures forall b :: 0 <= b < disk.Length && b !in Blocks(Extents(dir)[0]) ==> disk[b] == old(disk[b])
    {
      hide DirAt, DirOk, Ends, Layout, HasRun, UsedBlocks, Flat, FreeOk, BuildFrom, Freed;
      ghost var xs := Extents(dir);
      var e := buf[k];
      OwnedInside(xs, k);
      Released(vol.Used(), xs, other, k, NOTHING);
      now := PutSlot(buf, k, e.(deleted := true));
      vol.RedSeaFreeClus(e.clus, Blks(e.size));
      assert Extents(dir) == xs[k := NOTHING];
    }

    // The walk of RedSeaFilesDel.
    method Sweep(mask: string, delDir: bool) returns (res: nat)
      requires Valid()
      modifies disk, `dir, vol, vol.blk, vol.blk.fat1, vol.blk.cur
      ensures Valid() && dir == Swept(old(dir), mask, delDir, |old(dir)|)
      ensures vol.Used() <= old(vol.Used())
      ensures vol.Nodes() == SweptNodes(old(vol.Nodes()), old(dir), mask, delDir, |old(dir)|)
      ensures forall b :: 0 <= b < disk.Length && b !in Blocks(Extents(dir)[0]) ==> disk[b] == old(disk[b])
      ensures res == |Deleted(old(dir), mask, delDir, |old(dir)|)|
    {
      assert DirOk(dir) && Ends(dir);
      hide *;
      ghost var s := dir;
      var buf := ReadDir();
      ghost var free := vol.Nodes();
      SweptStep(s, mask, delDir, 0);
      SweptNodesStep(free, s, mask, delDir, 0);
      DeletedStep(s, mask, delDir, 0);
      res := 0;
      var p := 0;
      while true
        invariant 0 <= p < |s| == |buf| && Valid() && buf == dir == Swept(s, mask, delDir, p)
        invariant DirOk(s) && Ends(s)
        invariant vol.Used() <= old(vol.Used()) && dir[0] == s[0]
        invariant vol.Nodes() == SweptNodes(free, s, mask, delDir, p) && res == |Deleted(s, mask, delDir, p)|
        invariant forall b :: 0 <= b < disk.Length && b !in Blocks(Extents(dir)[0]) ==> disk[b] == old(disk[b])
        decreases |buf| - p
      {
        SweptStep(s, mask, delDir, p);
        SweptNodesStep(free, s, mask, delDir, p);
        DeletedStep(s, mask, delDir, p);
        if buf[p].name == "" {
          break;
        }
        if Doomed(buf[p], mask, delDir) {
          if !buf[p].dir {
            res := res + 1;
          }
          buf := DeleteSlot(buf, p);
        }
        p := p + 1;
      }
    }

    // A file keeps its bytes when nothing outside the directory's blocks is written.
    twostate lemma Undisturbed(name: string)
      requires Valid()
      requires forall b :: b in vol.Used() - Blocks(Extents(dir)[0]) && 0 <= b < disk.Length ==> disk[b] == old(disk[b])
      ensures DataOf(dir, disk[..], name) == DataOf(dir, old(disk[..]), name)
    {
      if Lookup(dir, name).Some? {
        EntryInside(name);
        SameData(old(disk[..]), disk[..], Lookup(dir, name).value);
      }
    }

    /** RedSeaFilesDel with a name for a mask: the entries of the name are marked and their runs freed;
        names that begin with a dot or '!' are never matched. */
    method RedSeaFilesDel(mask: string, delDir: bool) returns (res: nat)
      requires Valid()
      modifies disk, `dir, vol, vol.blk, vol.blk.fat1, vol.blk.cur
      ensures Valid() && dir == Swept(old(dir), mask, delDir, |old(dir)|) && vol.Used() <= old(vol.Used())
      ensures forall name :: Contents(name) == if Plain(mask) && name == mask then None else old(Contents(name))
      ensures forall x :: Lists(dir, x) <==> Lists(old(dir), x) && !Goes(x, mask, delDir)
      ensures vol.Nodes() == SweptNodes(old(vol.Nodes()), old(dir), mask, delDir, |old(dir)|)
      ensures res == if Plain(mask) && old(Contents(mask)).Some? then 1 else 0
    {
      SweptLists(dir, mask, delDir);
      DeletedOne(dir, mask, delDir);
      hide DirAt, DirOk, Ends, Layout, HasRun, UsedBlocks, Flat, FreeOk, Lookup, FileData, Blocks, Lists, Deleted, Swept;
      SweptKeeps(dir, mask, delDir);
      res := Sweep(mask, delDir);
      forall name
        ensures Contents(name) == if Plain(mask) && name == mask then None else old(Contents(name))
      {
        Undisturbed(name);
      }
    }

    /** The directory moves to a run one block longer: its old run is freed first, so a failed
        allocation leaves the directory in blocks marked free. */
    method GrowRoot(buf: seq<Entry>) returns (ok: bool)
      requires Core() && vol.dataArea in other && DirOk(buf) && |buf| == |dir| && buf[0] == dir[0]
      requires Layout(vol.Used(), Extents(buf), other)
      modifies this, disk, vol, vol.blk, vol.blk.fat1, vol.blk.cur
      ensures ok ==> Valid() && dir == Grown(buf, rootClus)
      ensures ok ==> forall b :: b in vol.Used() - Blocks(Extents(dir)[0]) && 0 <= b < disk.Length ==> disk[b] == old(disk[b])
      ensures ok ==> vol.Used() - Blocks(Extents(dir)[0]) !! Blocks(Extents(buf)[0])
      ensures !ok ==> Core() && dir == old(dir) && disk[..] == old(disk[..])
      ensures !ok ==> vol.Used() == old(vol.Used()) - Blocks(Extents(dir)[0])
      ensures ok <==> HasRun(Freed(old(vol.Nodes()), Run(old(rootClus), |buf| / SLOTS)), |buf| / SLOTS + 1)
    {
      hide DirAt, DirOk, Ends, Layout, HasRun, UsedBlocks, Flat, FreeOk, BuildFrom, Served, BestStart, Lookup;
      ghost var xs, u := Extents(buf), vol.Used();
      var n := |buf| / SLOTS;
      OwnRun(buf);
      OwnedInside(xs, 0);
      Released(u, xs, other, 0, NOTHING);
      vol.RedSeaFreeClus(rootClus, n);
      ghost var mid := vol.Used();
      var c;
      ok, c := vol.RedSeaAllocClus(n + 1);
      if !ok {
        return;
      }
      ghost var r := Run(c, n + 1);
      Taken(mid, xs[0 := NOTHING], other, 0, r);
      Padded(mid + Blocks(r), xs[0 := r], other, Extents(FreeSlots(SLOTS)));
      GrownKeeps(buf, c);
      assert xs[0 := NOTHING][0 := r] == xs[0 := r];
      var big := Grown(buf, c);
      WriteDir(disk, c, big);
      rootClus, bootRoot, dir := c, c, big;
      OwnRun(big);
    }

    lemma OwnRun(s: seq<Entry>)
      requires DirShape(s)
      ensures |s| > 0 && |s| % SLOTS == 0 && Extents(s)[0] == Run(s[0].clus, |s| / SLOTS)
    {
    }

    // The walk of RedSeaDirNew: the first deleted slot it passes takes the entry at once.
    method PlaceOnWalk(e: Entry) returns (buf: seq<Entry>, p: nat, written: bool)
      requires Core() && e.name != ""
      modifies disk, `dir
      ensures Core() && buf == dir && p == StopAt(old(dir), e.name, 1)
      ensures written <==> ReuseAt(old(dir), 1, p) < p
      ensures dir == if written then old(dir)[ReuseAt(old(dir), 1, p) := e] else old(dir)
      ensures forall b :: 0 <= b < disk.Length && b !in Blocks(Extents(dir)[0]) ==> disk[b] == old(disk[b])
    {
      hide DirAt, StopAt, ReuseAt;
      ghost var s := dir;
      ghost var stop := StopAt(s, e.name, 1);
      ghost var k := ReuseAt(s, 1, stop);
      buf := ReadDir();
      p, written := 1, false;
      while !Stops(buf[p], e.name)
        invariant 1 <= p <= stop && Core() && buf == dir == (if written then s[k := e] else s)
        invariant written <==> k < p
        invariant forall b :: 0 <= b < disk.Length && b !in Blocks(Extents(dir)[0]) ==> disk[b] == old(disk[b])
        decreases stop - p
      {
        if buf[p].deleted && !written {
          buf := PutSlot(buf, p, e);
          written := true;
        }
        p := p + 1;
      }
    }

    /** RedSeaDirNew in the root directory, giving up the blocks of an entry it replaces. The new
        entry's own blocks are in use already, and no slot has them yet. */
    method RedSeaDirNew(e: Entry) returns (ok: bool)
      requires Core() && DirOk(dir) && vol.dataArea in other && Live(e)
      requires Layout(vol.Used(), Extents(dir) + [Extent(e)], other)
      modifies this, disk, vol, vol.blk, vol.blk.fat1, vol.blk.cur
      ensures ok ==> Valid() && Filed(old(dir), dir, e, rootClus)
      ensures ok ==> forall b :: b in vol.Used() - Blocks(Extents(dir)[0]) && 0 <= b < disk.Length ==> disk[b] == old(disk[b])
      ensures !ok ==> Core() && Unfiled(old(dir), dir, e)
      ensures if ok then ListsFiled(old(dir), dir, e) else ListsUnfiled(old(dir), dir, e)
      ensures !ok ==> vol.Used() == old(vol.Used()) - Blocks(Extents(dir)[0])
      ensures !ok ==> forall b :: 0 <= b < disk.Length && b !in Blocks(Extents(dir)[0]) ==> disk[b] == old(disk[b])
      ensures ok <==> Takes(old(vol.Nodes()), old(dir), e.name)
    {
      ok := EnterEntry(e);
      hide *;
      if ok {
        FiledLists(old(dir), dir, e, rootClus);
      } else {
        UnfiledLists(old(dir), dir, e);
      }
    }

    // The walk, and what it does where it stops.
    method EnterEntry(e: Entry) returns (ok: bool)
      requires Core() && DirOk(dir) && vol.dataArea in other && Live(e)
      requires Layout(vol.Used(), Extents(dir) + [Extent(e)], other)
      modifies this, disk, vol, vol.blk, vol.blk.fat1, vol.blk.cur
      ensures ok ==> Valid() && Filed(old(dir), dir, e, rootClus)
      ensures ok ==> forall b :: b in vol.Used() - Blocks(Extents(dir)[0]) && 0 <= b < disk.Length ==> disk[b] == old(disk[b])
      ensures !ok ==> Core() && Unfiled(old(dir), dir, e)
      ensures !ok ==> vol.Used() == old(vol.Used()) - Blocks(Extents(dir)[0])
      ensures !ok ==> forall b :: 0 <= b < disk.Length && b !in Blocks(Extents(dir)[0]) ==> disk[b] == old(disk[b])
      ensures ok <==> Takes(old(vol.Nodes()), old(dir), e.name)
    {
      hide DirAt, DirOk, Layout, HasRun, UsedBlocks, Flat, FreeOk, StopAt, ReuseAt, BuildFrom, Lookup, Grown;
      ghost var s, xs, r := dir, Extents(dir), Extent(e);
      assert DirOk(dir);
      PlacedKeeps(s, e);
      PlacedExtents(s, e);
      var buf, p, written := PlaceOnWalk(e);
      ghost var k := ReuseAt(s, 1, p);
      if buf[p].name == "" {
        assert xs[p] == NOTHING;
        Moved(vol.Used(), xs, other, r, k);
        assert xs[p := NOTHING] == xs;
        var last := if written then buf[p] else e;
        assert buf[p := last] == Placed(s, e);
        ok := PutLast(buf, p, last);
      } else {
        Replace(buf, p, if written then buf[p].(deleted := true) else e, xs, r, k);
        ok := true;
      }
    }

    // The slot after the last entry is written, or all of the directory once it has moved.
    method PutLast(buf: seq<Entry>, p: nat, e: Entry) returns (ok: bool)
      requires Core() && vol.dataArea in other && buf == dir && 1 <= p < |buf| && DirOk(buf[p := e])
      requires p + 1 < |buf| ==> Ends(buf[p := e])
      requires Layout(vol.Used(), Extents(buf[p := e]), other)
      modifies this, disk, vol, vol.blk, vol.blk.fat1, vol.blk.cur
      ensures ok ==> Valid() && dir == if p + 1 == |buf| then Grown(buf[p := e], rootClus) else buf[p := e]
      ensures ok ==> forall b :: b in vol.Used() - Blocks(Extents(dir)[0]) && 0 <= b < disk.Length ==>
                       disk[b] == old(disk[b]) && b !in Blocks(Extents(buf)[0])
      ensures !ok ==> p + 1 == |buf| && Core() && dir == old(dir) && disk[..] == old(disk[..])
      ensures !ok ==> vol.Used() == old(vol.Used()) - Blocks(Extents(dir)[0])
      ensures ok <==> (p + 1 == |buf| ==> CanGrow(old(vol.Nodes()), buf))
    {
      hide DirAt, DirOk, Layout, HasRun, UsedBlocks, Flat, FreeOk, Ends;
      if p + 1 < |buf| {
        var now := PutSlot(buf, p, e);
        ok := true;
      } else {
        ok := GrowRoot(buf[p := e]);
      }
    }

    // The entry of the same name gives up its blocks, and its slot is rewritten.
    method Replace(buf: seq<Entry>, p: nat, e: Entry, ghost xs: seq<Run>, ghost r: Run, ghost k: nat)
      requires Core() && vol.dataArea in other && buf == dir && 1 <= p < |buf| && Ends(buf[p := e]) && DirOk(buf[p := e])
      requires Layout(vol.Used(), xs + [r], other) && |xs| == |buf| && k < |buf| && xs[p := NOTHING][k] == NOTHING
      requires xs[p] == Extent(buf[p]) && Extent(buf[p]) == Run(buf[p].clus, Blks(buf[p].size))
      requires Extents(buf[p := e]) == xs[p := NOTHING][k := r]
      modifies `dir, disk, vol, vol.blk, vol.blk.fat1, vol.blk.cur
      ensures Valid() && dir == buf[p := e]
      ensures forall b :: 0 <= b < disk.Length && b !in Blocks(Extents(dir)[0]) ==> disk[b] == old(disk[b])
    {
      hide DirAt, DirOk, Layout, UsedBlocks, Flat, FreeOk, Ends;
      OwnedInside(xs + [r], p);
      Released(vol.Used(), xs + [r], other, p, NOTHING);
      assert (xs + [r])[p := NOTHING] == xs[p := NOTHING] + [r];
      vol.RedSeaFreeClus(buf[p].clus, Blks(buf[p].size));
      Moved(vol.Used(), xs[p := NOTHING], other, r, k);
      var now := PutSlot(buf, p, e);
    }

    // A file's blocks are written at a run.
    method StoreData(buf: seq<Byte>, slack: Byte, c: int)
      requires Blks(|buf|) > 0 ==> 0 <= c && c + Blks(|buf|) <= disk.Length
      modifies disk
      ensures forall i :: 0 <= i < Blks(|buf|) ==> BlockAt(disk[..], c + i) == Packed(buf, slack, i)
      ensures forall b :: 0 <= b < disk.Length && b !in Blocks(Run(c, Blks(|buf|))) ==> disk[b] == old(disk[b])
    {
      hide Packed;
      var i := 0;
      while i < Blks(|buf|)
        invariant 0 <= i <= Blks(|buf|)
        invariant forall k :: 0 <= k < i ==> BlockAt(disk[..], c + k) == Packed(buf, slack, k)
        invariant forall b :: 0 <= b < disk.Length && !(c <= b < c + i) ==> disk[b] == old(disk[b])
      {
        disk[c + i] := Packed(buf, slack, i);
        i := i + 1;
      }
    }

    // With a run in use that is not yet in a slot, files found keep clear of it.
    lemma InFlight(r: Run, name: string)
      requires Core() && DirOk(dir) && Layout(vol.Used(), Extents(dir) + [r], other) && Lookup(dir, name).Some?
      ensures var e := Lookup(dir, name).value; Blocks(Run(e.clus, Blks(e.size))) !! Blocks(r)
    {
      LookupFinds(dir, name);
      var k: int :| FileAt(dir, k, name);
      var xs := Extents(dir) + [r];
      assert xs[k] == Extent(dir[k]) && Apart(xs[k], xs[|dir|]);
    }

    // Nor do files found lie in the directory's blocks.
    lemma FileApart(r: Run, name: string)
      requires Core() && DirOk(dir) && Layout(vol.Used(), Extents(dir) + [r], other) && Lookup(dir, name).Some?
      ensures var e := Lookup(dir, name).value; Blocks(Run(e.clus, Blks(e.size))) !! Blocks(Extents(dir)[0])
    {
      LookupFinds(dir, name);
      var k: int :| FileAt(dir, k, name);
      var xs := Extents(dir) + [r];
      assert xs[k] == Extent(dir[k]) && Apart(xs[0], xs[k]);
    }

    lemma Entered(s: seq<Entry>, e: Entry, c: int, n: string)
      requires DirOk(s) && Ends(s) && Live(e) && !e.dir
      ensures var t := if Grows(s, e.name) then Grown(Placed(s, e), c) else Placed(s, e);
              Lookup(t, n) == if n == e.name then Some(e) else Lookup(s, n)
    {
      PlacedKeeps(s, e);
      GrownKeeps(Placed(s, e), c);
    }

    // The data is written, then the entry is put into the directory.
    method EnterFile(e: Entry, buf: seq<Byte>, slack: Byte) returns (ok: bool)
      requires Core() && DirOk(dir) && vol.dataArea in other && Live(e) && !e.dir && e.size == |buf|
      requires Layout(vol.Used(), Extents(dir) + [Extent(e)], other)
      modifies this, disk, vol, vol.blk, vol.blk.fat1, vol.blk.cur
      ensures ok ==> Valid() && Contents(e.name) == Some(buf)
      ensures ok ==> Filed(old(dir), dir, e, rootClus)
      ensures !ok ==> Core() && Unfiled(old(dir), dir, e)
      ensures if ok then ListsFiled(old(dir), dir, e) else ListsUnfiled(old(dir), dir, e)
      ensures !ok ==> vol.Used() == old(vol.Used()) - Blocks(Extents(dir)[0]) && Extents(dir)[0] == Extents(old(dir))[0]
      ensures !ok ==> Contents(e.name) == if HasHole(old(dir)) then Some(buf) else None
      ensures forall n :: n != e.name ==> Contents(n) == old(Contents(n))
      ensures ok <==> Takes(old(vol.Nodes()), old(dir), e.name)
    {
      hide DirAt, Layout, HasRun, UsedBlocks, Flat, FreeOk, Lookup, FileData, StopAt, ReuseAt, Grown, Placed, Packed;
      hide ListsFiled, ListsUnfiled;
      ghost var s, d1 := dir, disk[..];
      InFlightInside(Extent(e));
      DirectoryApart(Extent(e));
      StoreData(buf, slack, e.clus);
      assert DirAt(disk[..], rootClus, dir) by { DirAtKept(d1, disk[..], rootClus, dir); }
      ghost var d2 := disk[..];
      forall n
        ensures DataOf(s, d2, n) == DataOf(s, d1, n)
      {
        if Lookup(s, n).Some? {
          InFlight(Extent(e), n);
          SameData(d1, d2, Lookup(s, n).value);
        }
      }
      ReadsBack(d2, e, buf, slack);
      forall n | Lookup(s, n).Some? { FileApart(Extent(e), n); }
      label Stored:
      ok := RedSeaDirNew(e);
      if !ok {
        ghost var own := Blocks(Extents(s)[0]);
        SameData(d2, disk[..], e);
        forall n
          ensures Lookup(s, n).Some? ==> FileData(disk[..], Lookup(s, n).value) == FileData(d2, Lookup(s, n).value)
          ensures Contents(n) == if n != e.name then old(Contents(n)) else if HasHole(s) then Some(buf) else None
        {
          ReusedLookup(s, e, n);
          if Lookup(s, n).Some? {
            SameData(d2, disk[..], Lookup(s, n).value);
          }
        }
      }
      if ok {
        forall n
          ensures Contents(n) == if n == e.name then Some(buf) else old(Contents(n))
        {
          Undisturbed@Stored(n);
          Entered(s, e, rootClus, n);
        }
      }
    }

    lemma InFlightInside(r: Run)
      requires vol.Valid() && Layout(vol.Used(), Extents(dir) + [r], other)
      ensures Within(r, vol.dataArea, vol.volEnd)
    {
      assert (Extents(dir) + [r])[|dir|] == r;
      OwnedInside(Extents(dir) + [r], |dir|);
    }

    lemma DirectoryApart(r: Run)
      requires Core() && Layout(vol.Used(), Extents(dir) + [r], other)
      ensures Blocks(Extents(dir)[0]) !! Blocks(r) && Extents(dir)[0] == Run(rootClus, |dir| / SLOTS)
    {
      OwnRun(dir);
      var xs := Extents(dir) + [r];
      assert Apart(xs[0], xs[|dir|]);
    }

    lemma DirAtKept(d1: seq<Block>, d2: seq<Block>, root: int, s: seq<Entry>)
      requires DirAt(d1, root, s) && |d1| == |d2|
      requires forall b :: 0 <= b < |d1| && b in Blocks(Run(root, |s| / SLOTS)) ==> d1[b] == d2[b]
      ensures DirAt(d2, root, s)
    {
      forall j | 0 <= j < |s| / SLOTS
        ensures SlotBlock(d2, root, s, j)
      {
        assert SlotBlock(d1, root, s, j);
        assert root + j in Blocks(Run(root, |s| / SLOTS));
      }
    }

    /** RedSeaFileWrite: old entries of the name go first, then the data and the new entry are
        written. Afterwards the file reads back, and every other file reads as before. The outcome is
        told by the free list and the directory as they were. */
    method RedSeaFileWrite(name: string, buf: seq<Byte>, slack: Byte) returns (res: Outcome)
      requires Valid()
      modifies this, disk, vol, vol.blk, vol.blk.fat1, vol.blk.cur
      ensures res.BadName? <==> !ValidName(name)
      ensures ValidName(name) ==> (res.NoSpace? <==> !DataFits(old(vol.Nodes()), old(dir), name, Blks(|buf|)))
      ensures ValidName(name) && !res.NoSpace? ==>
                (res.Written? <==> EntryFits(old(vol.Nodes()), old(dir), name, Blks(|buf|)))
      ensures !res.NoRoomToGrow? ==> Valid()
      ensures res.Written? ==> Contents(name) == Some(buf)
      ensures res.Written? ==>
                Filed(Swept(old(dir), name, false, |old(dir)|), dir, Entry(name, false, false, res.clus, |buf|), rootClus)
      ensures res.Written? || res.NoRoomToGrow? ==>
                if Blks(|buf|) == 0 then res.clus == INVALID_CLUS
                else BestStart(SweptNodes(old(vol.Nodes()), old(dir), name, false, |old(dir)|), Blks(|buf|), res.clus)
      ensures forall n :: n != name || res.BadName? ==> Contents(n) == old(Contents(n))
      ensures res.Written? ==> ListsFiled(old(dir), dir, Entry(name, false, false, res.clus, |buf|))
      ensures res.NoSpace? ==> forall x :: Lists(dir, x) <==> Lists(old(dir), x) && !Goes(x, name, false)
      ensures res.NoSpace? ==> Contents(name) == if name[0] != '!' && name[0] != '.' then None else old(Contents(name))
      ensures res.NoRoomToGrow? ==>
                && Core() && Unfiled(Swept(old(dir), name, false, |old(dir)|), dir, Entry(name, false, false, res.clus, |buf|))
                && ListsUnfiled(Swept(old(dir), name, false, |old(dir)|), dir, Entry(name, false, false, res.clus, |buf|))
                && Blocks(Extents(dir)[0]) !! vol.Used() && Blocks(Run(res.clus, Blks(|buf|))) <= vol.Used()
                && Contents(name) == if HasHole(Swept(old(dir), name, false, |old(dir)|)) then Some(buf) else None
    {
      hide DirAt, DirOk, Ends, Layout, HasRun, UsedBlocks, Flat, FreeOk;
      hide DataOf, Blocks, NameChar, Blks, BuildFrom, Served, CanGrow, BestStart, ListsFiled, ListsUnfiled, Lists;
      SweptKeeps(dir, name, false);
      if !ValidName(name) {
        return BadName;
      }
      var gone := RedSeaFilesDel(name, false);
      var n, c := Blks(|buf|), INVALID_CLUS;
      ghost var u, xs := vol.Used(), Extents(dir);
      if n > 0 {
        var ok;
        ok, c := vol.RedSeaAllocClus(n);
        if !ok {
          return NoSpace;
        }
        Padded(u, xs, other, [NOTHING]);
        Taken(u, xs + [NOTHING], other, |xs|, Run(c, n));
        assert (xs + [NOTHING])[|xs| := Run(c, n)] == xs + [Run(c, n)];
      } else {
        Padded(u, xs, other, [Run(c, 0)]);
      }
      DirectoryApart(Run(c, n));
      InFlightUsed(Run(c, n));
      var done := EnterFile(Entry(name, false, false, c, |buf|), buf, slack);
      if done {
        RewrittenLists(old(dir), dir, Entry(name, false, false, c, |buf|));
      }
      res := if done then Written(c) else NoRoomToGrow(c);
    }

    /** While no list has been built, as after formatting, unused blocks in a row are enough. */
    lemma UnbuiltRoom(name: string, n: nat, r: Run)
      requires Valid() && !vol.built && Within(r, vol.dataArea, vol.volEnd) && Blocks(r) !! vol.Used()
      requires r.size == n + |dir| / SLOTS + 1
      ensures DataFits(vol.Nodes(), dir, name, n) && EntryFits(vol.Nodes(), dir, name, n)
    {
      BuiltServes(vol.Used(), vol.dataArea, vol.volEnd, r);
      EnoughRoom(vol.Nodes(), dir, name, n);
    }

    /** On a full volume no directory can grow. */
    lemma FullCannotGrow()
      requires Valid() && forall c :: vol.dataArea <= c < vol.volEnd ==> c in vol.Used()
      ensures !CanGrow(vol.Nodes(), dir)
    {
      var free := vol.Nodes();
      if vol.built {
        forall i | 0 <= i < |free|
          ensures free[i].size == 0
        {
          assert free[i].size > 0 ==> Covers(free, free[i].start);
        }
      } else {
        BuildSkips(vol.Used(), vol.dataArea, vol.volEnd - vol.dataArea, vol.volEnd);
        BuildEnds(vol.Used(), vol.volEnd, vol.volEnd);
      }
      OwnRun(dir);
    }

    lemma InFlightUsed(r: Run)
      requires vol.Valid() && Layout(vol.Used(), Extents(dir) + [r], other)
      ensures Blocks(r) <= vol.Used()
    {
      assert (Extents(dir) + [r])[|dir|] == r;
      OwnedInside(Extents(dir) + [r], |dir|);
    }

    // RedSeaFmt: the root directory as first written.
    static function FreshRoot(root: int, blks: nat): seq<Entry>
      requires blks > 0
    {
      [Entry(".", true, false, root, BLK_SIZE * blks), Entry("..", true, false, root, 0)] + FreeSlots(SLOTS * blks - 2)
    }

    static lemma FreshRootOk(root: int, blks: nat)
      requires blks > 0
      ensures var s := FreshRoot(root, blks);
              && |s| == SLOTS * blks && DirOk(s) && Ends(s) && s[0].clus == root
              && Extents(s) == [Run(root, blks), Run(root, 0)] + Extents(FreeSlots(SLOTS * blks - 2))
              && s[0] == Entry(".", true, false, root, BLK_SIZE * blks)
              && (forall x :: Lists(s, x) <==> x == Entry("..", true, false, root, 0))
              && forall name :: Lookup(s, name) == None
    {
      var s := FreshRoot(root, blks);
      assert |s| / SLOTS == blks;
      assert s[1] == Entry("..", true, false, root, 0) && forall i :: 2 <= i < |s| ==> s[i] == FREE_SLOT;
      forall name
        ensures Lookup(s, name) == None
      {
        assert forall k :: !FileAt(s, k, name);
        LookupFinds(s, name);
      }
    }

    static lemma FreshLayout(lo: int, root: int, blks: nat)
      requires blks > 0 && lo < root
      ensures Layout({lo} + Blocks(Run(root, blks)), Extents(FreshRoot(root, blks)), {lo})
    {
      FreshRootOk(root, blks);
      var xs := [Run(root, blks), Run(root, 0)];
      assert forall c :: c in Blocks(Run(root, blks)) ==> In(xs[0], c);
      assert Layout({lo} + Blocks(Run(root, blks)), xs, {lo});
      Padded({lo} + Blocks(Run(root, blks)), xs, {lo}, Extents(FreeSlots(SLOTS * blks - 2)));
    }

    /** RedSeaFmt: a cleared bitmap, the block the bitmap's last sector lies in marked as used, and an
        empty root directory. No drive comes back where the original throws for lack of room. */
    static method RedSeaFmt(sectors: array<seq<bool>>, disk: array<Block>, dataArea: int, volEnd: int, rootBlks: nat)
      returns (dv: RedSeaDrv?)
      requires 0 < dataArea < volEnd <= disk.Length && rootBlks > 0
      requires 0 < sectors.Length && volEnd - dataArea <= PER_SECTOR * sectors.Length
      modifies sectors, disk
      ensures dv == null <==> volEnd - dataArea < 1 + rootBlks
      ensures dv != null ==>
                && fresh(dv) && fresh(dv.vol) && fresh(dv.vol.blk) && fresh(dv.vol.blk.cur)
                && dv.vol.blk.fat1 == dv.vol.blk.fat2 == sectors && dv.disk == disk
                && dv.vol.dataArea == dataArea && dv.vol.volEnd == volEnd && !dv.vol.built
                && dv.Valid() && dv.other == {dataArea}
                && dv.vol.Used() == {dataArea} + Blocks(Run(dataArea + 1, rootBlks))
                && dv.rootClus == dataArea + 1 && dv.dir == FreshRoot(dataArea + 1, rootBlks)
                && (forall name :: dv.Contents(name) == None)
                && dv.dir[0] == Entry(".", true, false, dataArea + 1, BLK_SIZE * rootBlks)
                && forall x :: Lists(dv.dir, x) <==> x == Entry("..", true, false, dataArea + 1, 0)
    {
      hide UsedBlocks, Flat, Layout, Extents, FreshRoot, DirAt, DirOk, Ends, FreeOk, Lookup, Blocks, BuildFrom, Lists;
      var vol := ClearVolume(sectors, dataArea, volEnd);
      var ok, root := ReserveRoot(vol, rootBlks);
      if !ok {
        return null;
      }
      FreshRootOk(root, rootBlks);
      FreshLayout(dataArea, root, rootBlks);
      var dir := FreshRoot(root, rootBlks);
      WriteDir(disk, root, dir);
      vol := RedSeaInit(sectors, vol.blk, dataArea, volEnd);
      dv := new RedSeaDrv(vol, disk, root, dir, {dataArea});
    }

    // A cleared bitmap, and the drive that sees it.
    static method ClearVolume(sectors: array<seq<bool>>, dataArea: int, volEnd: int) returns (vol: RedSeaVol)
      requires 0 < dataArea < volEnd && 0 < sectors.Length && volEnd - dataArea <= PER_SECTOR * sectors.Length
      modifies sectors
      ensures fresh(vol) && fresh(vol.blk) && fresh(vol.blk.cur) && vol.blk.fat1 == vol.blk.fat2 == sectors
      ensures vol.Valid() && !vol.built && vol.dataArea == dataArea && vol.volEnd == volEnd && vol.Used() == {}
    {
      forall i | 0 <= i < sectors.Length {
        sectors[i] := seq(PER_SECTOR, _ => false);
      }
      var blk := new FatCache<bool>(sectors, sectors, PER_SECTOR);
      vol := new RedSeaVol(blk, dataArea, volEnd);
      assert vol.Used() == {};
    }

    // RedSeaInit once the bitmap is on the disk: a new cache, and no free list yet.
    static method RedSeaInit(sectors: array<seq<bool>>, ghost blk: FatCache<bool>, dataArea: int, volEnd: int)
      returns (vol: RedSeaVol)
      requires blk.Ok() && blk.Clean() && blk.fat1 == blk.fat2 == sectors && blk.cur.Length == PER_SECTOR
      requires 0 < dataArea < volEnd && volEnd - dataArea <= PER_SECTOR * sectors.Length
      ensures fresh(vol) && vol.Valid() && vol.dataArea == dataArea && vol.volEnd == volEnd && !vol.built
      ensures fresh(vol.blk) && fresh(vol.blk.cur) && vol.blk.fat1 == vol.blk.fat2 == sectors
      ensures vol.Used() == UsedBlocks(Flat(PER_SECTOR, blk.View1()), dataArea, volEnd)
    {
      var now := new FatCache<bool>(sectors, sectors, PER_SECTOR);
      vol := new RedSeaVol(now, dataArea, volEnd);
      assert now.View1() == blk.View1();
    }

    // All blocks of a directory are written.
    static method WriteDir(disk: array<Block>, c: int, buf: seq<Entry>)
      requires |buf| % SLOTS == 0 && 0 <= c && c + |buf| / SLOTS <= disk.Length
      modifies disk
      ensures DirAt(disk[..], c, buf)
      ensures forall b :: 0 <= b < disk.Length && b !in Blocks(Run(c, |buf| / SLOTS)) ==> disk[b] == old(disk[b])
    {
      var j := 0;
      while j < |buf| / SLOTS
        invariant 0 <= j <= |buf| / SLOTS
        invariant forall k :: 0 <= k < j ==> SlotBlock(disk[..], c, buf, k)
        invariant forall b :: 0 <= b < disk.Length && !(c <= b < c + j) ==> disk[b] == old(disk[b])
      {
        ghost var was := disk[..];
        disk[c + j] := Slots(buf[SLOTS * j..SLOTS * j + SLOTS]);
        forall k | 0 <= k < j + 1
          ensures SlotBlock(disk[..], c, buf, k)
        {
          assert k < j ==> SlotBlock(was, c, buf, k);
        }
        j := j + 1;
      }
    }

    // The two allocations of RedSeaFmt.
    static method ReserveRoot(vol: RedSeaVol, blks: nat) returns (ok: bool, root: int)
      requires vol.Valid() && !vol.built && vol.Used() == {} && blks > 0
      modifies vol, vol.blk, vol.blk.fat1, vol.blk.cur
      ensures ok <==> vol.volEnd - vol.dataArea >= 1 + blks
      ensures ok ==> vol.Valid() && vol.blk.Clean() && root == vol.dataArea + 1
      ensures ok ==> vol.Used() == {vol.dataArea} + Blocks(Run(root, blks))
    {
      hide UsedBlocks, Flat, FreeOk, BuildFrom, BestUpto;
      var lo, n := vol.dataArea, vol.volEnd - vol.dataArea;
      WholeVolume(lo, vol.volEnd);
      OneNode(lo, n, 1);
      var first;
      ok, first := vol.RedSeaAllocClus(1);
      assert Blocks(Run(lo, 1)) == {lo};
      if n > 1 {
        OneNode(lo + 1, n - 1, blks);
      }
      ok, root := vol.RedSeaAllocClus(blks);
    }

    static lemma WholeVolume(lo: int, hi: int)
      requires lo < hi
      ensures BuildFrom({}, lo, hi) == [Run(lo, hi - lo)]
    {
      GapIs({}, lo, hi, hi - lo);
      BuildEnds({}, hi + 1, hi);
    }

    // A list of one node serves from its front.
    static lemma OneNode(start: int, size: nat, cnt: nat)
      requires cnt > 0
      ensures HasRun([Run(start, size)], cnt) <==> cnt <= size
      ensures cnt <= size ==>
                Served([Run(start, size)], cnt) == if cnt == size then [] else [Run(start + cnt, size - cnt)]
    {
      if cnt <= size {
        assert [Run(start, size)][0].size >= cnt;
        assert Best([Run(start, size)], cnt, 0);
        ServedIs([Run(start, size)], cnt, 0);
      }
    }
  }
}

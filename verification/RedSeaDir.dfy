/** A RedSea directory as its slots: finding a name, deleting it, and putting an entry in
    (HolyCRT/BlkDev/FileSysRedSea.HC). Slot 0 is the directory's own entry. */
module RedSeaDir {
  import opened RedSeaFree

  // 512-byte blocks hold eight 64-byte slots.
  const BLK_SIZE: nat := 512
  const SLOTS: nat := 8
  const INVALID_CLUS: int := -1

  // An empty name ends the directory.
  datatype Entry = Entry(name: string, dir: bool, deleted: bool, clus: int, size: nat)
  const FREE_SLOT := Entry("", false, false, 0, 0)

  datatype Option<T> = None | Some(value: T)

  predicate Live(e: Entry) { e.name != "" && !e.deleted }

  // As few blocks as hold so many bytes.
  function Blks(size: nat): (n: nat)
    ensures n * BLK_SIZE >= size && (n > 0 ==> (n - 1) * BLK_SIZE < size)
  {
    (size + BLK_SIZE - 1) / BLK_SIZE
  }

  // The blocks an entry owns; for slot 0 these are the directory's own.
  function Extent(e: Entry): Run
  {
    if Live(e) then Run(e.clus, Blks(e.size)) else NOTHING
  }

  function Extents(s: seq<Entry>): (xs: seq<Run>)
    ensures |xs| == |s| && forall i :: 0 <= i < |s| ==> xs[i] == Extent(s[i])
  {
    seq(|s|, i requires 0 <= i < |s| => Extent(s[i]))
  }

  ghost predicate Unique(s: seq<Entry>)
  {
    forall i, j :: 1 <= i < j < |s| && Live(s[i]) && Live(s[j]) ==> s[i].name != s[j].name
  }

  // Whole blocks, and in slot 0 the directory's own entry with its length.
  ghost predicate DirShape(s: seq<Entry>)
  {
    && |s| >= SLOTS && |s| % SLOTS == 0
    && s[0] == Entry(".", true, false, s[0].clus, |s| / SLOTS * BLK_SIZE)
  }

  /** A directory: its own entry first, then entries with distinct names, then free slots only. */
  ghost predicate DirOk(s: seq<Entry>)
  {
    && DirShape(s)
    && (forall i, j :: 0 <= i < j < |s| && s[i].name == "" ==> s[j].name == "")
    && Unique(s)
  }

  // There is a slot after the last entry.
  ghost predicate Ends(s: seq<Entry>)
  {
    |s| > 0 && s[|s| - 1].name == ""
  }

  // ---- Finding ----

  predicate Wanted(e: Entry, name: string, justDirs: bool, justFiles: bool)
  {
    !e.deleted && !(justDirs && !e.dir) && !(justFiles && e.dir) && e.name == name
  }

  function FindFrom(s: seq<Entry>, i: nat, name: string, justDirs: bool, justFiles: bool): (r: Option<Entry>)
    decreases |s| - i
  {
    if i >= |s| || s[i].name == "" then None
    else if Wanted(s[i], name, justDirs, justFiles) then Some(s[i])
    else FindFrom(s, i + 1, name, justDirs, justFiles)
  }

  // What reading a file looks up.
  function Lookup(s: seq<Entry>, name: string): Option<Entry>
  {
    FindFrom(s, 0, name, false, true)
  }

  ghost predicate FileAt(s: seq<Entry>, k: int, name: string)
  {
    1 <= k < |s| && Live(s[k]) && !s[k].dir && s[k].name == name
  }

  lemma {:induction false} FindFromFinds(s: seq<Entry>, i: nat, k: nat, name: string)
    requires DirOk(s) && FileAt(s, k, name) && i <= k
    ensures FindFrom(s, i, name, false, true) == Some(s[k])
    decreases k - i
  {
    if i < k {
      assert s[i].name != "";
      FindFromFinds(s, i + 1, k, name);
    }
  }

  lemma {:induction false} FindFromMisses(s: seq<Entry>, i: nat, name: string)
    requires DirOk(s) && forall k :: !FileAt(s, k, name)
    ensures FindFrom(s, i, name, false, true) == None
    decreases |s| - i
  {
    if i < |s| && s[i].name != "" {
      assert !FileAt(s, i, name);
      FindFromMisses(s, i + 1, name);
    }
  }

  /** A lookup finds a live file of the name exactly if there is one, and there is at most one. */
  lemma LookupFinds(s: seq<Entry>, name: string)
    requires DirOk(s)
    ensures forall k :: FileAt(s, k, name) ==> Lookup(s, name) == Some(s[k])
    ensures Lookup(s, name) == None <==> forall k :: !FileAt(s, k, name)
  {
    forall k | FileAt(s, k, name)
      ensures Lookup(s, name) == Some(s[k])
    {
      FindFromFinds(s, 0, k, name);
    }
    if forall k :: !FileAt(s, k, name) {
      FindFromMisses(s, 0, name);
    }
  }

  /** Two directories whose files of a name are the same answer alike. */
  lemma SameLookup(s: seq<Entry>, t: seq<Entry>, name: string)
    requires DirOk(s) && DirOk(t)
    requires forall k :: FileAt(s, k, name) ==> exists m :: FileAt(t, m, name) && t[m] == s[k]
    requires forall m :: FileAt(t, m, name) ==> exists k :: FileAt(s, k, name) && t[m] == s[k]
    ensures Lookup(s, name) == Lookup(t, name)
  {
    LookupFinds(s, name);
    LookupFinds(t, name);
  }

  // ---- Deleting ----

  // A name without wildcards as a mask: a leading '!' turns it round, so that it matches nothing.
  predicate Matches(name: string, mask: string)
  {
    mask != "" && mask[0] != '!' && name == mask
  }

  predicate Doomed(e: Entry, mask: string, delDir: bool)
  {
    Live(e) && e.name[0] != '.' && (delDir || !e.dir) && Matches(e.name, mask)
  }

  function Swept(s: seq<Entry>, mask: string, delDir: bool, n: nat): (t: seq<Entry>)
    ensures |t| == |s|
  {
    seq(|s|, i requires 0 <= i < |s| =>
      if i < n && Doomed(s[i], mask, delDir) then s[i].(deleted := true) else s[i])
  }

  // The files among the first n slots that a mask deletes.
  ghost function Deleted(s: seq<Entry>, mask: string, delDir: bool, n: nat): set<int>
  {
    set k | 0 <= k < n && DoomedFile(s, k, mask, delDir)
  }

  predicate DoomedFile(s: seq<Entry>, k: int, mask: string, delDir: bool)
  {
    0 <= k < |s| && Doomed(s[k], mask, delDir) && !s[k].dir
  }

  lemma DeletedStep(s: seq<Entry>, mask: string, delDir: bool, n: nat)
    requires DirOk(s) && n < |s|
    ensures |Deleted(s, mask, delDir, n + 1)| ==
            |Deleted(s, mask, delDir, n)| + if Doomed(s[n], mask, delDir) && !s[n].dir then 1 else 0
    ensures s[n].name == "" ==> Deleted(s, mask, delDir, n) == Deleted(s, mask, delDir, |s|)
    ensures Deleted(s, mask, delDir, 0) == {}
  {
    hide Doomed, DirOk;
    if s[n].name == "" {
      DeletedEnd(s, mask, delDir, n);
    }
    assert Deleted(s, mask, delDir, 0) == {};
    hide Deleted;
    if DoomedFile(s, n, mask, delDir) {
      DeletedMore(s, mask, delDir, n);
    } else {
      DeletedSame(s, mask, delDir, n);
    }
  }

  lemma DeletedMore(s: seq<Entry>, mask: string, delDir: bool, n: nat)
    requires DoomedFile(s, n, mask, delDir)
    ensures |Deleted(s, mask, delDir, n + 1)| == |Deleted(s, mask, delDir, n)| + 1
  {
    hide DoomedFile;
    assert Deleted(s, mask, delDir, n + 1) == Deleted(s, mask, delDir, n) + {n as int};
  }

  lemma DeletedSame(s: seq<Entry>, mask: string, delDir: bool, n: nat)
    requires !DoomedFile(s, n, mask, delDir)
    ensures Deleted(s, mask, delDir, n + 1) == Deleted(s, mask, delDir, n)
  {
    hide DoomedFile;
  }

  lemma DeletedEnd(s: seq<Entry>, mask: string, delDir: bool, n: nat)
    requires DirOk(s) && n < |s| && s[n].name == ""
    ensures Deleted(s, mask, delDir, n) == Deleted(s, mask, delDir, |s|)
  {
    forall i | n <= i < |s|
      ensures !Doomed(s[i], mask, delDir)
    {
      assert s[i].name == "";
    }
    hide Doomed, DirOk;
  }

  /** Deleting keeps the directory in order and hides exactly the files the mask matches. */
  lemma SweptKeeps(s: seq<Entry>, mask: string, delDir: bool)
    requires DirOk(s)
    ensures DirOk(Swept(s, mask, delDir, |s|)) && (Ends(s) ==> Ends(Swept(s, mask, delDir, |s|)))
    ensures forall name :: Lookup(Swept(s, mask, delDir, |s|), name) ==
              if Matches(name, mask) && name[0] != '.' then None else Lookup(s, name)
  {
    var t := Swept(s, mask, delDir, |s|);
    forall i | 0 <= i < |s|
      ensures t[i] == if Doomed(s[i], mask, delDir) then s[i].(deleted := true) else s[i]
    {
    }
    hide Swept;
    assert DirOk(t);
    forall name
      ensures Lookup(t, name) == if Matches(name, mask) && name[0] != '.' then None else Lookup(s, name)
    {
      SweptLookup(s, t, mask, delDir, name);
    }
  }

  lemma SweptStep(s: seq<Entry>, mask: string, delDir: bool, n: nat)
    requires DirOk(s) && Ends(s) && n < |s|
    ensures var t := Swept(s, mask, delDir, n);
            && DirOk(t) && Ends(t) && t[n] == s[n] && t[0] == s[0]
            && (s[n].name != "" ==> n + 1 < |s|)
            && (Doomed(s[n], mask, delDir) ==>
                  && n > 0 && Live(s[n]) && Swept(s, mask, delDir, n + 1) == t[n := s[n].(deleted := true)]
                  && DirOk(Swept(s, mask, delDir, n + 1)) && Ends(Swept(s, mask, delDir, n + 1)))
            && (!Doomed(s[n], mask, delDir) ==> Swept(s, mask, delDir, n + 1) == t)
            && (s[n].name == "" ==> t == Swept(s, mask, delDir, |s|))
    ensures Swept(s, mask, delDir, 0) == s
  {
    SweptOk(s, mask, delDir, n);
    SweptOk(s, mask, delDir, n + 1);
    assert s[0].name == ".";
    assert s[n].name == "" ==> forall i :: n <= i < |s| ==> s[i].name == "";
    hide DirOk, Ends;
  }

  lemma SweptOk(s: seq<Entry>, mask: string, delDir: bool, n: nat)
    requires DirOk(s) && Ends(s)
    ensures DirOk(Swept(s, mask, delDir, n)) && Ends(Swept(s, mask, delDir, n))
  {
  }

  lemma SweptLookup(s: seq<Entry>, t: seq<Entry>, mask: string, delDir: bool, name: string)
    requires DirOk(s) && DirOk(t) && |t| == |s|
    requires forall i :: 0 <= i < |s| ==>
               t[i] == if Doomed(s[i], mask, delDir) then s[i].(deleted := true) else s[i]
    ensures Lookup(t, name) == if Matches(name, mask) && name[0] != '.' then None else Lookup(s, name)
  {
    hide DirOk, Lookup;
    if Matches(name, mask) && name[0] != '.' {
      LookupFinds(t, name);
    } else {
      forall k
        ensures FileAt(s, k, name) <==> FileAt(t, k, name)
        ensures FileAt(s, k, name) ==> t[k] == s[k]
      {
      }
      SameLookup(s, t, name);
    }
  }

  // The free list as the walk leaves it.
  function SweptNodes(free: seq<Run>, s: seq<Entry>, mask: string, delDir: bool, n: nat): seq<Run>
    requires n <= |s|
  {
    if n == 0 then free
    else
      var before := SweptNodes(free, s, mask, delDir, n - 1);
      if Doomed(s[n - 1], mask, delDir) then Freed(before, Extent(s[n - 1])) else before
  }

  lemma {:induction false} SweptNodesEnd(free: seq<Run>, s: seq<Entry>, mask: string, delDir: bool, n: nat, m: nat)
    requires n <= m <= |s| && forall i :: n <= i < m ==> s[i].name == ""
    ensures SweptNodes(free, s, mask, delDir, m) == SweptNodes(free, s, mask, delDir, n)
  {
    if n < m {
      SweptNodesEnd(free, s, mask, delDir, n, m - 1);
    }
  }

  lemma SweptNodesStep(free: seq<Run>, s: seq<Entry>, mask: string, delDir: bool, n: nat)
    requires DirOk(s) && n < |s|
    ensures var m := SweptNodes(free, s, mask, delDir, n);
            && SweptNodes(free, s, mask, delDir, n + 1) == (if Doomed(s[n], mask, delDir) then Freed(m, Extent(s[n])) else m)
            && (s[n].name == "" ==> m == SweptNodes(free, s, mask, delDir, |s|))
    ensures SweptNodes(free, s, mask, delDir, 0) == free
  {
    if s[n].name == "" {
      SweptNodesEnd(free, s, mask, delDir, n, |s|);
    }
  }

  lemma {:induction false} SweptServes(free: seq<Run>, s: seq<Entry>, mask: string, delDir: bool, n: nat, m: nat)
    requires n <= |s| && HasRun(free, m)
    ensures HasRun(SweptNodes(free, s, mask, delDir, n), m)
  {
    if n > 0 {
      SweptServes(free, s, mask, delDir, n - 1, m);
      FreedServes(SweptNodes(free, s, mask, delDir, n - 1), Extent(s[n - 1]), m);
    }
  }

  // ---- Putting an entry in ----

  // The walk ends at the first free slot or live entry of the name.
  predicate Stops(e: Entry, name: string)
  {
    e.name == "" || (!e.deleted && e.name == name)
  }

  function StopAt(s: seq<Entry>, name: string, i: nat): (p: nat)
    requires i < |s| && s[|s| - 1].name == ""
    ensures i <= p < |s| && Stops(s[p], name) && forall k :: i <= k < p ==> !Stops(s[k], name)
    decreases |s| - i
  {
    if Stops(s[i], name) then i else StopAt(s, name, i + 1)
  }

  // The first deleted slot of a stretch, or its end.
  function ReuseAt(s: seq<Entry>, i: nat, p: nat): (t: nat)
    requires i <= p < |s|
    ensures i <= t <= p && (t < p ==> s[t].deleted) && forall k :: i <= k < t ==> !s[k].deleted
    decreases p - i
  {
    if i == p || s[i].deleted then i else ReuseAt(s, i + 1, p)
  }

  function Placed(s: seq<Entry>, e: Entry): (t: seq<Entry>)
    requires |s| > 1 && s[|s| - 1].name == ""
    ensures |t| == |s|
  {
    var p := StopAt(s, e.name, 1);
    var k := ReuseAt(s, 1, p);
    if k < p && s[p].name != "" then s[k := e][p := s[p].(deleted := true)] else s[k := e]
  }

  // A deleted slot before the last.
  predicate HasHole(s: seq<Entry>)
  {
    exists k :: 1 <= k < |s| - 1 && s[k].deleted
  }

  // What the walk has written before it comes to a free slot.
  function Reused(s: seq<Entry>, e: Entry): (t: seq<Entry>)
    requires |s| > 1 && s[|s| - 1].name == ""
    ensures |t| == |s|
  {
    var p := StopAt(s, e.name, 1);
    var k := ReuseAt(s, 1, p);
    if k < p then s[k := e] else s
  }

  // The walk ended at the directory's last slot.
  predicate Grows(s: seq<Entry>, name: string)
    requires |s| > 1 && s[|s| - 1].name == ""
  {
    StopAt(s, name, 1) == |s| - 1
  }

  function FreeSlots(n: nat): (t: seq<Entry>)
    ensures |t| == n && forall i :: 0 <= i < n ==> t[i] == FREE_SLOT
  {
    seq(n, i => FREE_SLOT)
  }

  // One block longer, at a new place.
  function Grown(s: seq<Entry>, c: int): (t: seq<Entry>)
    requires |s| > 0
    ensures |t| == |s| + SLOTS
  {
    s[0 := s[0].(clus := c, size := s[0].size + BLK_SIZE)] + FreeSlots(SLOTS)
  }

  /** After an entry is put in, a file lookup of its name finds it, every other lookup answers as
      before, and only a directory that must grow has lost its last free slot. */
  lemma PlacedKeeps(s: seq<Entry>, e: Entry)
    requires DirOk(s) && Ends(s) && e.name != "" && !e.deleted
    ensures DirOk(Placed(s, e)) && Placed(s, e)[0] == s[0] && (!Grows(s, e.name) ==> Ends(Placed(s, e)))
    ensures !e.dir ==> Lookup(Placed(s, e), e.name) == Some(e)
    ensures e.dir ==> Lookup(Placed(s, e), e.name) == None
    ensures forall name :: name != e.name ==> Lookup(Placed(s, e), name) == Lookup(s, name)
  {
    var p := StopAt(s, e.name, 1);
    var k := ReuseAt(s, 1, p);
    var t := Placed(s, e);
    hide StopAt, ReuseAt;
    PlacedOk(s, e, p, k, t);
    forall name
      ensures name != e.name ==> Lookup(t, name) == Lookup(s, name)
    {
      if name != e.name {
        forall m
          ensures FileAt(s, m, name) ==> FileAt(t, m, name) && t[m] == s[m]
          ensures FileAt(t, m, name) ==> FileAt(s, m, name) && t[m] == s[m]
        {
        }
        SameLookup(s, t, name);
      }
    }
    LookupFinds(t, e.name);
    if e.dir {
      assert forall m :: 1 <= m < |t| && Live(t[m]) && t[m].name == e.name ==> m == k;
    } else {
      assert FileAt(t, k, e.name);
    }
  }

  /** If the directory cannot grow, the entry is found exactly if a deleted slot took it on the way,
      and every other lookup answers as before. */
  lemma ReusedLookup(s: seq<Entry>, e: Entry, name: string)
    requires DirOk(s) && Ends(s) && e.name != "" && !e.deleted && !e.dir && |s| > 1 && Grows(s, e.name)
    ensures Lookup(Reused(s, e), name) ==
            if name != e.name then Lookup(s, name) else if HasHole(s) then Some(e) else None
  {
    PlacedKeeps(s, e);
    if ReuseAt(s, 1, |s| - 1) == |s| - 1 {
      assert Reused(s, e) == s && Placed(s, e)[|s| - 1].name == e.name;
      assert forall k :: !FileAt(s, k, e.name);
      LookupFinds(s, e.name);
    }
  }

  lemma PlacedOk(s: seq<Entry>, e: Entry, p: nat, k: nat, t: seq<Entry>)
    requires DirOk(s) && Ends(s) && e.name != "" && !e.deleted
    requires 1 <= k <= p < |s| && Stops(s[p], e.name) && forall i :: 1 <= i < p ==> !Stops(s[i], e.name)
    requires k < p ==> s[k].deleted
    requires t == if k < p && s[p].name != "" then s[k := e][p := s[p].(deleted := true)] else s[k := e]
    ensures DirOk(t) && t[0] == s[0] && (!(k == p && p == |s| - 1) ==> Ends(t))
    ensures forall i :: 1 <= i < |t| && i != k && Live(t[i]) ==> t[i].name != e.name
  {
    forall i | 1 <= i < |t| && i != k && Live(t[i])
      ensures t[i].name != e.name
    {
      assert t[i] == s[i];
      if i < p {
        assert !Stops(s[i], e.name);
      } else if i > p && s[p].name != "" && k == p {
        assert s[p].name == e.name;
      }
    }
  }

  /** The blocks owned: those of the entry replaced are given up, the new entry's come in. */
  lemma PlacedExtents(s: seq<Entry>, e: Entry)
    requires DirOk(s) && Ends(s) && e.name != "" && !e.deleted
    ensures var p := StopAt(s, e.name, 1); var k := ReuseAt(s, 1, p);
            && Extents(Placed(s, e)) == Extents(s)[p := NOTHING][k := Extent(e)]
            && Extents(s)[p := NOTHING][k] == NOTHING
  {
    hide StopAt, ReuseAt;
  }

  lemma GrownKeeps(s: seq<Entry>, c: int)
    requires DirOk(s)
    ensures DirOk(Grown(s, c)) && Ends(Grown(s, c))
    ensures forall name :: Lookup(Grown(s, c), name) == Lookup(s, name)
    ensures Extents(Grown(s, c)) == Extents(s)[0 := Run(c, |s| / SLOTS + 1)] + Extents(FreeSlots(SLOTS))
  {
    var t := Grown(s, c);
    assert forall i :: |s| <= i < |t| ==> t[i] == FREE_SLOT;
    assert forall i :: 1 <= i < |s| ==> t[i] == s[i];
    forall name
      ensures Lookup(t, name) == Lookup(s, name)
    {
      assert forall k :: FileAt(s, k, name) <==> FileAt(t, k, name);
      SameLookup(s, t, name);
    }
  }

  // ---- What a directory lists ----

  // Slot k has a live entry of the name that both filters let through.
  ghost predicate Hit(s: seq<Entry>, k: int, name: string, justDirs: bool, justFiles: bool)
  {
    0 <= k < |s| && Live(s[k]) && s[k].name == name && (justDirs ==> s[k].dir) && (justFiles ==> !s[k].dir)
  }

  /** The first entry asked for, or none if there is none. */
  ghost predicate Answers(s: seq<Entry>, name: string, justDirs: bool, justFiles: bool, r: Option<Entry>)
  {
    match r
    case None => forall k :: !Hit(s, k, name, justDirs, justFiles)
    case Some(e) => exists k :: FirstHit(s, k, name, justDirs, justFiles) && s[k] == e
  }

  ghost predicate FirstHit(s: seq<Entry>, k: int, name: string, justDirs: bool, justFiles: bool)
  {
    Hit(s, k, name, justDirs, justFiles) && forall j :: 0 <= j < k ==> !Hit(s, j, name, justDirs, justFiles)
  }

  /** A search finds the first live entry of the name, a directory if directories are wanted, no directory if
      files are, and none exactly if there is none. */
  lemma {:induction false} FindAnswers(s: seq<Entry>, i: nat, name: string, justDirs: bool, justFiles: bool)
    requires DirOk(s) && i <= |s| && forall j :: 0 <= j < i ==> !Hit(s, j, name, justDirs, justFiles)
    ensures Answers(s, name, justDirs, justFiles, FindFrom(s, i, name, justDirs, justFiles))
    decreases |s| - i
  {
    if i < |s| && s[i].name != "" {
      if Hit(s, i, name, justDirs, justFiles) {
        assert FirstHit(s, i, name, justDirs, justFiles);
      } else {
        FindAnswers(s, i + 1, name, justDirs, justFiles);
      }
    }
  }

  /** Entry x, a file or a directory, is in one of the slots after the directory's own. */
  ghost predicate Lists(s: seq<Entry>, x: Entry)
  {
    Live(x) && exists k :: 1 <= k < |s| && s[k] == x
  }

  // A mask that can match a name: no leading dot, and no '!' to turn it round.
  predicate Plain(mask: string)
  {
    mask != "" && mask[0] != '.' && mask[0] != '!'
  }

  // What deleting a name takes away: its file, and its directory if directories go too.
  predicate Goes(x: Entry, mask: string, delDir: bool)
  {
    x.name == mask && Plain(mask) && (delDir || !x.dir)
  }

  /** Deleting takes the entries of the name away, files or also directories, and leaves all others. */
  lemma SweptLists(s: seq<Entry>, mask: string, delDir: bool)
    ensures forall x :: Lists(Swept(s, mask, delDir, |s|), x) <==> Lists(s, x) && !Goes(x, mask, delDir)
  {
    var t := Swept(s, mask, delDir, |s|);
    forall x
      ensures Lists(t, x) <==> Lists(s, x) && !Goes(x, mask, delDir)
    {
      if Lists(s, x) && !Goes(x, mask, delDir) {
        var k :| 1 <= k < |s| && s[k] == x;
        assert t[k] == x;
      }
      if Lists(t, x) {
        var k :| 1 <= k < |t| && t[k] == x;
        assert s[k] == x;
      }
    }
  }

  /** Putting an entry in replaces the one of its name, a file or a directory, and leaves all others. */
  lemma PlacedLists(s: seq<Entry>, e: Entry)
    requires DirOk(s) && Ends(s) && Live(e)
    ensures forall x :: Lists(Placed(s, e), x) <==> if x.name == e.name then x == e else Lists(s, x)
  {
    var p := StopAt(s, e.name, 1);
    var k := ReuseAt(s, 1, p);
    var t := Placed(s, e);
    hide StopAt, ReuseAt;
    PlacedOk(s, e, p, k, t);
    hide DirOk;
    assert t[k] == e;
    forall x
      ensures Lists(t, x) <==> if x.name == e.name then x == e else Lists(s, x)
    {
      if Lists(t, x) && x.name != e.name {
        var i :| 1 <= i < |t| && t[i] == x;
        assert s[i] == x;
      }
      if Lists(s, x) && x.name != e.name {
        var i :| 1 <= i < |s| && s[i] == x;
        assert t[i] == x;
      }
    }
  }

  /** Moving the directory changes nothing in it but its own entry. */
  lemma GrownLists(s: seq<Entry>, c: int)
    requires |s| > 0
    ensures forall x :: Lists(Grown(s, c), x) <==> Lists(s, x)
  {
    var t := Grown(s, c);
    assert forall i :: |s| <= i < |t| ==> t[i] == FREE_SLOT;
    assert forall i :: 1 <= i < |s| ==> t[i] == s[i];
  }

  /** A directory that cannot grow lists what it listed, and the new entry if a deleted slot took it. */
  lemma ReusedLists(s: seq<Entry>, e: Entry)
    requires DirOk(s) && Ends(s) && Live(e) && |s| > 1 && Grows(s, e.name)
    ensures forall x :: Lists(Reused(s, e), x) <==> Lists(s, x) || (x == e && HasHole(s))
  {
    var p := |s| - 1;
    var k := ReuseAt(s, 1, p);
    var t := Reused(s, e);
    hide StopAt, ReuseAt, DirOk;
    forall x
      ensures Lists(t, x) <==> Lists(s, x) || (x == e && HasHole(s))
    {
      if Lists(t, x) {
        var i :| 1 <= i < |t| && t[i] == x;
        assert i == k < p || s[i] == x;
      }
      if Lists(s, x) {
        var i :| 1 <= i < |s| && s[i] == x;
        assert t[i] == x;
      }
      if HasHole(s) {
        assert k < p && t[k] == e;
      }
    }
  }

  /** At most one file goes by one name. */
  lemma DeletedOne(s: seq<Entry>, mask: string, delDir: bool)
    requires DirOk(s)
    ensures |Deleted(s, mask, delDir, |s|)| == if Plain(mask) && Lookup(s, mask).Some? then 1 else 0
  {
    var d := Deleted(s, mask, delDir, |s|);
    LookupFinds(s, mask);
    hide Lookup;
    assert forall k :: DoomedFile(s, k, mask, delDir) <==> Plain(mask) && FileAt(s, k, mask);
    hide DoomedFile, DirShape;
    if k :| FileAt(s, k, mask) && Plain(mask) {
      assert forall j :: FileAt(s, j, mask) ==> j == k;
      assert d == {k};
    } else {
      assert d == {};
    }
  }
}

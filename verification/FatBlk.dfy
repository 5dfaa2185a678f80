/** The one-sector write-back cache a drive keeps over its allocation table (HolyCRT/BlkDev/DskDrv.HC).
    A table is an array of sectors; FAT32 has two of them, RedSea's bitmap only one, in which case
    both names mean the same sectors. */
module FatBlk {
  datatype Sel = First | Second | Both

  // One entry of one sector replaced.
  ghost function Patched<T>(v: seq<seq<T>>, b: nat, o: nat, x: T): (w: seq<seq<T>>)
    requires b < |v| && o < |v[b]|
    ensures |w| == |v| && forall i :: 0 <= i < |v| ==> |w[i]| == |v[i]|
  {
    v[b := v[b][o := x]]
  }

  // A table by entry number instead of by sector.
  ghost function Flat<T>(n: nat, v: seq<seq<T>>): (f: seq<T>)
    requires n > 0 && forall i :: 0 <= i < |v| ==> |v[i]| == n
    ensures |f| == n * |v|
  {
    seq(n * |v|, i requires 0 <= i < n * |v| => assert i / n < |v| by { SectorInRange(n, |v|, i); } v[i / n][i % n])
  }

  lemma SectorInRange(n: nat, len: nat, c: nat)
    requires n > 0 && c < n * len
    ensures c / n < len
  {
    TimesKeepsOrder(n, len, c / n);
  }

  lemma TimesKeepsOrder(n: nat, a: nat, b: nat)
    ensures a <= b ==> n * a <= n * b
  {
  }

  lemma FlatAt<T>(n: nat, v: seq<seq<T>>, c: nat)
    requires n > 0 && forall i :: 0 <= i < |v| ==> |v[i]| == n
    requires c < n * |v|
    ensures c / n < |v| && Flat(n, v)[c] == v[c / n][c % n]
  {
    SectorInRange(n, |v|, c);
  }

  lemma FlatPut<T>(n: nat, v: seq<seq<T>>, c: nat, x: T)
    requires n > 0 && forall i :: 0 <= i < |v| ==> |v[i]| == n
    requires c < n * |v|
    ensures c / n < |v|
    ensures Flat(n, Patched(v, c / n, c % n, x)) == Flat(n, v)[c := x]
  {
    SectorInRange(n, |v|, c);
    var w := Patched(v, c / n, c % n, x);
    forall i | 0 <= i < n * |v|
      ensures Flat(n, w)[i] == Flat(n, v)[c := x][i]
    {
      FlatPutAt(n, v, c, x, i);
    }
  }

  lemma FlatPutAt<T>(n: nat, v: seq<seq<T>>, c: nat, x: T, i: nat)
    requires n > 0 && forall i :: 0 <= i < |v| ==> |v[i]| == n
    requires c < n * |v| && c / n < |v| && i < n * |v|
    ensures Flat(n, Patched(v, c / n, c % n, x))[i] == if i == c then x else Flat(n, v)[i]
  {
    hide Flat;
    FlatAt(n, v, i);
    FlatAt(n, Patched(v, c / n, c % n, x), i);
    SameEntry(n, i, c);
  }

  lemma SameEntry(n: nat, i: nat, c: nat)
    requires n > 0
    ensures i == c <==> i / n == c / n && i % n == c % n
  {
    assert i == n * (i / n) + i % n && c == n * (c / n) + c % n;
  }

  class FatCache<T(0)> {
    const fat1: array<seq<T>>
    const fat2: array<seq<T>>
    const cur: array<T>
    var curNum: nat
    var dirty: bool

    constructor (fat1: array<seq<T>>, fat2: array<seq<T>>, size: nat)
      requires fat1.Length == fat2.Length > 0
      requires forall i :: 0 <= i < fat1.Length ==> |fat1[i]| == |fat2[i]| == size
      ensures Ok() && this.fat1 == fat1 && this.fat2 == fat2 && fresh(cur) && cur.Length == size
      ensures !dirty && View1() == fat1[..] && (fat1[0] == fat2[0] ==> Clean())
    {
      this.fat1, this.fat2 := fat1, fat2;
      cur := new T[size](i requires 0 <= i < size && size == |fat1[0]| reads fat1 => fat1[0][i]);
      curNum, dirty := 0, false;
      new;
      assert cur[..] == fat1[0];
    }

    ghost predicate Ok()
      reads this, fat1, fat2, cur
    {
      && fat1.Length == fat2.Length && curNum < fat1.Length
      && cur as object != fat1 && cur as object != fat2
      && (forall i :: 0 <= i < fat1.Length ==> |fat1[i]| == cur.Length && |fat2[i]| == cur.Length)
    }

    // The tables as they will be once the cached sector is written to them.
    ghost function View1(): (v: seq<seq<T>>)
      requires Ok()
      reads this, fat1, fat2, cur
      ensures |v| == fat1.Length && forall i :: 0 <= i < |v| ==> |v[i]| == cur.Length
    {
      fat1[..][curNum := cur[..]]
    }

    ghost function View2(): (v: seq<seq<T>>)
      requires Ok()
      reads this, fat1, fat2, cur
      ensures |v| == fat2.Length && forall i :: 0 <= i < |v| ==> |v[i]| == cur.Length
    {
      fat2[..][curNum := cur[..]]
    }

    // Nothing is waiting to be written.
    ghost predicate Clean()
      requires Ok()
      reads this, fat1, fat2, cur
    {
      !dirty && fat1[..] == View1() && fat2[..] == View2()
    }

    // Between calls a sector that is not marked is on the disk already.
    ghost predicate Settled()
      requires Ok()
      reads this, fat1, fat2, cur
    {
      !dirty ==> Clean()
    }

    /** DrvFATBlkClean: with only one copy selected the sector stays marked after the first. */
    method DrvFATBlkClean(sel: Sel)
      requires Ok()
      modifies `dirty, fat1, fat2
      ensures Ok() && View1() == old(View1()) && View2() == old(View2())
      ensures !old(dirty) ==> !dirty && fat1[..] == old(fat1[..]) && fat2[..] == old(fat2[..])
      ensures old(dirty) && fat1 == fat2 ==> !dirty && fat1[..] == View1()
      ensures old(dirty) && fat1 != fat2 ==>
                && dirty == (sel == First)
                && fat1[..] == (if sel == Second then old(fat1[..]) else View1())
                && fat2[..] == (if sel == First then old(fat2[..]) else View2())
    {
      if dirty {
        if fat1 == fat2 {
          fat1[curNum] := cur[..];
          dirty := false;
        } else {
          if sel == Both || sel == First {
            fat1[curNum] := cur[..];
          }
          if sel == Both || sel == Second {
            fat2[curNum] := cur[..];
            dirty := false;
          }
        }
      }
    }

    /** DrvFATBlkSet: another sector replaces the cached one, which is written first if marked. */
    method DrvFATBlkSet(blk: nat, sel: Sel)
      requires Ok() && blk < fat1.Length
      modifies this, fat1, fat2, cur
      ensures Ok() && curNum == blk
      ensures blk == old(curNum) ==> dirty == old(dirty) && cur[..] == old(cur[..]) &&
                                     fat1[..] == old(fat1[..]) && fat2[..] == old(fat2[..])
      ensures blk != old(curNum) && old(dirty) && fat1 != fat2 ==>
                && dirty == (sel == First)
                && fat1[..] == (if sel == Second then old(fat1[..]) else old(View1()))
                && fat2[..] == (if sel == First then old(fat2[..]) else old(View2()))
      ensures blk != old(curNum) && old(dirty) && fat1 == fat2 ==> !dirty && fat1[..] == old(View1())
      ensures blk != old(curNum) && !old(dirty) ==> !dirty && fat1[..] == old(fat1[..]) && fat2[..] == old(fat2[..])
      ensures blk != old(curNum) ==> cur[..] == if sel == Second then fat2[blk] else fat1[blk]
    {
      if blk != curNum {
        DrvFATBlkClean(sel);
        curNum := blk;
        var src := if sel == Second then fat2[blk] else fat1[blk];
        forall i | 0 <= i < cur.Length {
          cur[i] := src[i];
        }
        assert cur[..] == src;
      }
    }

    /** An entry of the cached sector is overwritten and the sector marked. */
    method Put(off: nat, v: T)
      requires Ok() && off < cur.Length
      modifies `dirty, cur
      ensures Ok() && dirty && cur[..] == old(cur[..])[off := v]
      ensures View1() == Patched(old(View1()), curNum, off, v)
      ensures View2() == Patched(old(View2()), curNum, off, v)
    {
      cur[off] := v;
      dirty := true;
    }
  }
}

/** Next-fit allocation of cluster chains: the scan, the run over a whole request, and when the run
    delivers what was asked for. */
module FatAlloc {
  import opened FatSpec

  datatype Scan = NoneFree | At(clus: nat, wrapped: bool)

  /** The inner loop: the next zero entry after j, going round once. */
  function NextFree(f: seq<nat>, j: int, l: nat, wrapped: bool): (r: Scan)
    requires 2 <= l <= |f|
    ensures r.At? ==> 1 <= r.clus < l && f[r.clus] == 0
    decreases !wrapped, l - j
  {
    var k := if j + 1 < 1 then 1 else j + 1;
    if k >= l then
      if wrapped then NoneFree
      else if f[1] == 0 then At(1, true)
      else NextFree(f, 1, l, true)
    else if f[k] == 0 then At(k, wrapped)
    else NextFree(f, k, l, wrapped)
  }

  // A run over a request: the table with the links made so far, the last cluster and the picks.
  datatype Run = Failed(f: seq<nat>) | Ran(f: seq<nat>, clus: int, picks: seq<nat>)

  function Link(f: seq<nat>, c: int, l: nat, v: nat): (r: seq<nat>)
    requires l <= |f|
    ensures |r| == |f|
  {
    if 0 < c < l then f[c := v] else f
  }

  function AllocRun(f: seq<nat>, c: int, l: nat, j: int, wrapped: bool, cnt: nat): (r: Run)
    requires 2 <= l <= |f|
    ensures |r.f| == |f|
    ensures r.Ran? ==> |r.picks| == cnt && r.clus == (if cnt == 0 then c else r.picks[cnt - 1])
    decreases cnt
  {
    if cnt == 0 then Ran(f, c, [])
    else match NextFree(f, j, l, wrapped)
      case NoneFree => Failed(f)
      case At(p, w) =>
        match AllocRun(Link(f, c, l, p), p, l, p, w, cnt - 1)
        case Failed(g) => Failed(g)
        case Ran(g, e, picks) => Ran(g, e, [p] + picks)
  }

  // FAT32AllocClus: the run, then the end mark on the last cluster.
  function Alloc(f: seq<nat>, c: int, l: nat, j: int, cnt: nat): (r: Run)
    requires 2 <= l <= |f|
    ensures |r.f| == |f|
  {
    match AllocRun(f, c, l, j, false, cnt)
    case Failed(g) => Failed(g)
    case Ran(g, e, picks) => Ran(Link(g, e, l, END_MARK), e, picks)
  }

  ghost function FreeSet(f: seq<nat>, l: nat): set<nat>
  {
    set i: nat | 1 <= i < l && i < |f| && f[i] == 0
  }

  ghost predicate Distinct(s: seq<nat>)
  {
    forall i, j :: 0 <= i < j < |s| ==> s[i] != s[j]
  }

  // ---- What a scan finds ----

  lemma {:induction false} NextFreeLeast(f: seq<nat>, j: int, l: nat, wrapped: bool)
    requires 2 <= l <= |f|
    ensures var r := NextFree(f, j, l, wrapped);
            && (r.NoneFree? ==> forall i :: 1 <= i < l && (i > j || !wrapped) ==> f[i] != 0)
            && (r.At? && r.wrapped == wrapped ==> r.clus > j && forall i :: 1 <= i < r.clus && i > j ==> f[i] != 0)
            && (r.At? && r.wrapped != wrapped ==> r.wrapped && (forall i :: 1 <= i < l && i > j ==> f[i] != 0)
                                                  && forall i :: 1 <= i < r.clus ==> f[i] != 0)
            && (wrapped && r.At? ==> r.wrapped)
    decreases !wrapped, l - j
  {
    var k := if j + 1 < 1 then 1 else j + 1;
    if k >= l {
      if !wrapped && f[1] != 0 {
        NextFreeLeast(f, 1, l, true);
      }
    } else if f[k] != 0 {
      NextFreeLeast(f, k, l, wrapped);
    }
  }

  /** Invariant of a run. u holds the free clusters not picked yet; the last pick, not yet linked
      onward, is the only other zero entry. After going round only clusters ahead are left. */
  ghost predicate OnTrack(f: seq<nat>, c: int, l: nat, j: int, wrapped: bool, u: set<nat>)
    requires l <= |f|
  {
    && (forall i :: 1 <= i < l ==> (f[i] == 0 <==> i in u || i == c))
    && (forall i :: i in u ==> 1 <= i < l && i != c)
    && c == j
    && (wrapped ==> forall i :: i in u ==> i > j)
  }

  // The same before the first pick: c is a used cluster or none.
  ghost predicate Starting(f: seq<nat>, c: int, l: nat, u: set<nat>)
    requires l <= |f|
  {
    && u == FreeSet(f, l)
    && (0 < c < l ==> f[c] != 0)
  }

  lemma NextPick(f: seq<nat>, c: int, l: nat, j: int, wrapped: bool, u: set<nat>)
    requires 2 <= l <= |f| && u != {}
    requires OnTrack(f, c, l, j, wrapped, u) || (!wrapped && Starting(f, c, l, u))
    ensures var r := NextFree(f, j, l, wrapped);
            && r.At? && r.clus in u && 1 <= r.clus < l && f[r.clus] == 0
            && OnTrack(Link(f, c, l, r.clus), r.clus, l, r.clus, r.wrapped, u - {r.clus})
    ensures forall x :: x in u ==> x != c
  {
    NextFreeLeast(f, j, l, wrapped);
    var x :| x in u;
    assert 1 <= x < l && f[x] == 0;
  }

  // picks are appended to c one after the other; the last pick is still open.
  ghost predicate Chained(f: seq<nat>, g: seq<nat>, c: int, l: nat, picks: seq<nat>)
    requires |f| == |g| && l <= |f|
  {
    && Distinct(picks)
    && (forall i :: 0 <= i < |picks| ==> 1 <= picks[i] < l && f[picks[i]] == 0 && picks[i] != c)
    && (forall i :: 0 <= i < |picks| - 1 ==> Links(g, picks, i))
    && (picks != [] && 0 < c < l ==> g[c] == picks[0])
    && (forall i :: 0 <= i < |f| && Kept(i, c, l, picks) ==> g[i] == f[i])
  }

  // Entry i is no link of a run: not an inner pick, nor the cluster the run was appended to.
  ghost predicate Kept(i: nat, c: int, l: nat, picks: seq<nat>)
  {
    picks == [] || (i !in picks[..|picks| - 1] && !(i == c && 0 < c < l))
  }

  lemma DistinctCons(p: nat, picks: seq<nat>)
    requires Distinct(picks) && forall i :: 0 <= i < |picks| ==> picks[i] != p
    ensures Distinct([p] + picks)
  {
  }

  lemma ChainedCons(f: seq<nat>, g: seq<nat>, c: int, l: nat, p: nat, picks: seq<nat>)
    requires |f| == |g| && l <= |f| && 1 <= p < l && f[p] == 0 && p != c
    requires Chained(Link(f, c, l, p), g, p, l, picks) && c !in picks
    ensures Chained(f, g, c, l, [p] + picks)
  {
    hide Distinct;
    assert Distinct([p] + picks) by { DistinctCons(p, picks); }
    var all := [p] + picks;
    var e := Link(f, c, l, p);
    forall i | 0 <= i < |all| - 1
      ensures Links(g, all, i)
    {
      assert i > 0 ==> Links(g, picks, i - 1);
    }
    if picks != [] {
      assert all[..|all| - 1] == [p] + picks[..|picks| - 1];
    } else {
      assert all[..0] == [];
    }
    forall i | 0 <= i < |all|
      ensures 1 <= all[i] < l && f[all[i]] == 0 && all[i] != c
    {
      if i > 0 {
        assert all[i] == picks[i - 1] && picks[i - 1] in picks;
      }
    }
  }

  /** With enough unpicked free clusters a run succeeds, and its picks are distinct members of them. */
  lemma {:induction false} RunPicks(f: seq<nat>, c: int, l: nat, j: int, wrapped: bool, cnt: nat, u: set<nat>)
    requires 2 <= l <= |f| && cnt <= |u|
    requires OnTrack(f, c, l, j, wrapped, u) || (!wrapped && Starting(f, c, l, u))
    ensures var r := AllocRun(f, c, l, j, wrapped, cnt);
            && r.Ran? && Chained(f, r.f, c, l, r.picks)
            && forall i :: 0 <= i < |r.picks| ==> r.picks[i] in u
    decreases cnt
  {
    hide NextFree, OnTrack, Starting;
    if cnt > 0 {
      hide Chained;
      NextPick(f, c, l, j, wrapped, u);
      var r := NextFree(f, j, l, wrapped);
      var e := Link(f, c, l, r.clus);
      OneLess(u, r.clus);
      RunPicks(e, r.clus, l, r.clus, r.wrapped, cnt - 1, u - {r.clus});
      var t := AllocRun(e, r.clus, l, r.clus, r.wrapped, cnt - 1);
      hide Link;
      PicksFrom(u, c, r.clus, t.picks);
      ChainedCons(f, t.f, c, l, r.clus, t.picks);
      assert AllocRun(f, c, l, j, wrapped, cnt).picks == [r.clus] + t.picks;
    }
  }

  lemma OneLess(u: set<nat>, p: nat)
    requires p in u
    ensures |u - {p}| == |u| - 1
  {
  }

  lemma PicksFrom(u: set<nat>, c: int, p: nat, picks: seq<nat>)
    requires p in u && forall x :: x in u ==> x != c
    requires forall i :: 0 <= i < |picks| ==> picks[i] in u - {p}
    ensures c !in picks && forall i :: 0 <= i < |[p] + picks| ==> ([p] + picks)[i] in u
  {
  }

  // Whatever a run picks was free to begin with.
  lemma {:induction false} PicksWereFree(f: seq<nat>, c: int, l: nat, j: int, wrapped: bool, cnt: nat)
    requires 2 <= l <= |f|
    ensures var r := AllocRun(f, c, l, j, wrapped, cnt);
            r.Ran? ==> forall i :: 0 <= i < |r.picks| ==> r.picks[i] in FreeSet(f, l)
    decreases cnt
  {
    if cnt > 0 {
      var r := NextFree(f, j, l, wrapped);
      if r.At? {
        PicksWereFree(Link(f, c, l, r.clus), r.clus, l, r.clus, r.wrapped, cnt - 1);
      }
    }
  }

  lemma {:induction false} DistinctCard(s: seq<nat>, u: set<nat>)
    requires Distinct(s) && forall i :: 0 <= i < |s| ==> s[i] in u
    ensures |s| <= |u|
  {
    if s != [] {
      var t := s[..|s| - 1];
      forall i | 0 <= i < |t|
        ensures t[i] in u - {s[|s| - 1]}
      {
        assert t[i] == s[i];
      }
      DistinctCard(t, u - {s[|s| - 1]});
    }
  }

  // ---- What an allocation delivers ----

  /** g is f with the chain of picks added: to c if that is a cluster, ended by the end mark, and
      nothing else changed. */
  ghost predicate Appended(f: seq<nat>, g: seq<nat>, c: int, l: nat, picks: seq<nat>)
    requires l <= |f|
  {
    && |g| == |f| && picks != [] && Distinct(picks)
    && (forall i :: 0 <= i < |picks| ==> 1 <= picks[i] < l && f[picks[i]] == 0 && picks[i] != c)
    && (forall i :: 0 <= i < |picks| - 1 ==> Links(g, picks, i))
    && g[picks[|picks| - 1]] == END_MARK
    && (0 < c < l ==> g[c] == picks[0])
    && (forall i :: 0 <= i < |f| && i !in picks && !(i == c && 0 < c < l) ==> g[i] == f[i])
  }

  /** Given enough free clusters, and a tail that is in use, the chain is what was asked for. */
  lemma AllocDelivers(f: seq<nat>, c: int, l: nat, j: int, cnt: nat)
    requires 2 <= l <= |f| && 1 <= cnt <= |FreeSet(f, l)| && (0 < c < l ==> f[c] != 0)
    ensures var r := Alloc(f, c, l, j, cnt);
            r.Ran? && |r.picks| == cnt && Appended(f, r.f, c, l, r.picks)
  {
    hide Appended, Chained, AllocRun, OnTrack;
    RunPicks(f, c, l, j, false, cnt, FreeSet(f, l));
    var r := AllocRun(f, c, l, j, false, cnt);
    CloseChain(f, r.f, c, l, r.picks);
  }

  lemma CloseChain(f: seq<nat>, g: seq<nat>, c: int, l: nat, picks: seq<nat>)
    requires |f| == |g| && l <= |f| && picks != [] && Chained(f, g, c, l, picks)
    ensures Appended(f, Link(g, picks[|picks| - 1], l, END_MARK), c, l, picks)
  {
    var e, last := Link(g, picks[|picks| - 1], l, END_MARK), picks[|picks| - 1];
    forall i | 0 <= i < |picks| - 1
      ensures Links(e, picks, i)
    {
      assert Links(g, picks, i);
    }
    forall i | 0 <= i < |f| && i !in picks && !(i == c && 0 < c < l)
      ensures e[i] == f[i]
    {
      assert i !in picks[..|picks| - 1];
      assert Kept(i, c, l, picks);
    }
  }

  /** Exactly when: the call delivers cnt distinct clusters if and only if that many are free. */
  lemma AllocExact(f: seq<nat>, c: int, l: nat, j: int, cnt: nat)
    requires 2 <= l <= |f| && 1 <= cnt && (0 < c < l ==> f[c] != 0)
    ensures var r := Alloc(f, c, l, j, cnt);
            r.Ran? && Distinct(r.picks) <==> cnt <= |FreeSet(f, l)|
  {
    if cnt <= |FreeSet(f, l)| {
      AllocDelivers(f, c, l, j, cnt);
    } else {
      PicksWereFree(f, c, l, j, false, cnt);
      var r := Alloc(f, c, l, j, cnt);
      if r.Ran? && Distinct(r.picks) {
        DistinctCard(r.picks, FreeSet(f, l));
      }
    }
  }

  // All clusters are in use: a run finds nothing.
  lemma FullFails(f: seq<nat>, c: int, l: nat, j: int, wrapped: bool, cnt: nat)
    requires 2 <= l <= |f| && cnt > 0 && forall i :: 1 <= i < l ==> f[i] != 0
    ensures AllocRun(f, c, l, j, wrapped, cnt).Failed?
  {
    NextFreeLeast(f, j, l, wrapped);
  }

  // The last pick, not linked yet, is all there is to find, and a scan that goes round finds it.
  lemma PickedAgain(f: seq<nat>, c: int, l: nat, wrapped: bool, cnt: nat)
    requires 2 <= l <= |f| && cnt > 0 && 1 <= c < l && forall i :: 1 <= i < l ==> (f[i] == 0 <==> i == c)
    ensures AllocRun(f, c, l, c, wrapped, cnt).Ran? <==> !wrapped && cnt == 1
  {
    NextFreeLeast(f, c, l, wrapped);
    var r := NextFree(f, c, l, wrapped);
    hide NextFree;
    assert f[c] == 0;
    if !wrapped {
      assert r == At(c, true);
      if cnt > 1 {
        FullFails(f[c := c], c, l, c, true, cnt - 1);
      }
    }
  }

  // No free cluster lies before the point the scan has come to, and it has not gone round.
  ghost predicate AllAhead(j: int, wrapped: bool, u: set<nat>)
  {
    !wrapped && forall i :: i in u ==> i > j
  }

  lemma {:induction false} RanExactly(f: seq<nat>, c: int, l: nat, j: int, wrapped: bool, cnt: nat, u: set<nat>)
    requires 2 <= l <= |f|
    requires (OnTrack(f, c, l, j, wrapped, u) && 1 <= c < l) || (!wrapped && Starting(f, c, l, u) && u != {})
    ensures AllocRun(f, c, l, j, wrapped, cnt).Ran? <==> cnt <= |u| || (cnt == |u| + 1 && AllAhead(j, wrapped, u))
    decreases cnt
  {
    hide AllocRun, NextFree;
    if cnt == 0 {
      NoneAsked(f, c, l, j, wrapped);
    } else if u == {} {
      PickedAgain(f, c, l, wrapped, cnt);
    } else {
      NextPick(f, c, l, j, wrapped, u);
      AheadStays(f, c, l, j, wrapped, u);
      var r := NextFree(f, j, l, wrapped);
      var v := u - {r.clus};
      OneLess(u, r.clus);
      RanExactly(Link(f, c, l, r.clus), r.clus, l, r.clus, r.wrapped, cnt - 1, v);
      OneMorePick(f, c, l, j, wrapped, cnt);
    }
  }

  lemma NoneAsked(f: seq<nat>, c: int, l: nat, j: int, wrapped: bool)
    requires 2 <= l <= |f|
    ensures AllocRun(f, c, l, j, wrapped, 0) == Ran(f, c, [])
  {
  }

  lemma OneMorePick(f: seq<nat>, c: int, l: nat, j: int, wrapped: bool, cnt: nat)
    requires 2 <= l <= |f| && cnt > 0 && NextFree(f, j, l, wrapped).At?
    ensures var r := NextFree(f, j, l, wrapped); var t := AllocRun(Link(f, c, l, r.clus), r.clus, l, r.clus, r.wrapped, cnt - 1);
            && (AllocRun(f, c, l, j, wrapped, cnt).Ran? <==> t.Ran?)
            && (t.Ran? ==> AllocRun(f, c, l, j, wrapped, cnt).picks == [r.clus] + t.picks)
  {
    hide NextFree, Link;
  }

  lemma AheadStays(f: seq<nat>, c: int, l: nat, j: int, wrapped: bool, u: set<nat>)
    requires 2 <= l <= |f| && u != {}
    requires OnTrack(f, c, l, j, wrapped, u) || (!wrapped && Starting(f, c, l, u))
    ensures var r := NextFree(f, j, l, wrapped);
            r.At? && (AllAhead(r.clus, r.wrapped, u - {r.clus}) <==> AllAhead(j, wrapped, u))
  {
    NextPick(f, c, l, j, wrapped, u);
    NextFreeLeast(f, j, l, wrapped);
    var r := NextFree(f, j, l, wrapped);
    assert forall i :: i in u ==> 1 <= i < l && f[i] == 0;
    hide NextFree;
    forall i | AllAhead(j, wrapped, u) && i in u - {r.clus}
      ensures i > r.clus
    {
      assert f[i] == 0 && i > j;
    }
    assert AllAhead(r.clus, r.wrapped, u - {r.clus}) ==> r.clus > j;
    assert forall i :: i in u <==> i == r.clus || i in u - {r.clus};
  }

  /** Exactly when the call succeeds: enough clusters are free, or one is missing and all of them lie past the
      starting point. In the second case it finds its last pick a second time. */
  lemma AllocSucceeds(f: seq<nat>, c: int, l: nat, j: int, cnt: nat)
    requires 2 <= l <= |f| && 1 <= cnt && (0 < c < l ==> f[c] != 0)
    ensures var u := FreeSet(f, l);
            Alloc(f, c, l, j, cnt).Ran? <==> cnt <= |u| || (u != {} && cnt == |u| + 1 && forall i :: i in u ==> i > j)
  {
    hide AllocRun, NextFree;
    var u := FreeSet(f, l);
    if u == {} {
      forall i | 1 <= i < l
        ensures f[i] != 0
      {
        assert f[i] == 0 ==> i in u;
      }
      FullFails(f, c, l, j, false, cnt);
    } else {
      RanExactly(f, c, l, j, false, cnt, u);
    }
  }

  // ---- In which order ----

  // Where a cluster stands for a scan that starts past j: ahead of it first, the others after going round.
  function Rank(j: int, l: nat, x: int): int
  {
    if x > j then x else x + l
  }

  /** The picks come in the order of the scan, and no free cluster before a pick is passed over. */
  ghost predicate InScanOrder(free: set<nat>, l: nat, j: int, picks: seq<nat>)
  {
    forall k, x :: 0 <= k < |picks| && x in free && Rank(j, l, x) < Rank(j, l, picks[k]) ==> x in picks[..k]
  }

  // The scan that began past j0 has come to j; what is left to find stands after it.
  ghost predicate ScanAt(j0: int, j: int, wrapped: bool, u: set<nat>)
  {
    if wrapped then j <= j0 && forall x :: x in u ==> j < x <= j0
    else j >= j0 && forall x :: x in u ==> x > j || x <= j0
  }

  lemma NextInOrder(f: seq<nat>, c: int, l: nat, j0: int, j: int, wrapped: bool, u: set<nat>)
    requires 2 <= l <= |f| && u != {} && ScanAt(j0, j, wrapped, u)
    requires OnTrack(f, c, l, j, wrapped, u) || (!wrapped && Starting(f, c, l, u))
    ensures var r := NextFree(f, j, l, wrapped);
            && r.At? && r.clus in u && (forall x :: x in u && x != r.clus ==> Rank(j0, l, x) > Rank(j0, l, r.clus))
            && ScanAt(j0, r.clus, r.wrapped, u - {r.clus})
  {
    NextPick(f, c, l, j, wrapped, u);
    NextFreeLeast(f, j, l, wrapped);
    var r := NextFree(f, j, l, wrapped);
    hide NextFree;
    forall x | x in u
      ensures 1 <= x < l && f[x] == 0
    {
    }
    hide OnTrack, Starting;
    forall x | x in u && x != r.clus
      ensures Rank(j0, l, x) > Rank(j0, l, r.clus)
      ensures if r.wrapped then r.clus < x <= j0 else x > r.clus || x <= j0
    {
      assert f[x] == 0;
    }
  }

  lemma {:induction false} RunInOrder(f: seq<nat>, c: int, l: nat, j0: int, j: int, wrapped: bool, cnt: nat, u: set<nat>)
    requires 2 <= l <= |f| && cnt <= |u| && ScanAt(j0, j, wrapped, u)
    requires OnTrack(f, c, l, j, wrapped, u) || (!wrapped && Starting(f, c, l, u))
    ensures var r := AllocRun(f, c, l, j, wrapped, cnt); r.Ran? && InScanOrder(u, l, j0, r.picks)
    decreases cnt
  {
    hide AllocRun, NextFree;
    if cnt == 0 {
      NoneAsked(f, c, l, j, wrapped);
    } else {
      NextPick(f, c, l, j, wrapped, u);
      NextInOrder(f, c, l, j0, j, wrapped, u);
      var r := NextFree(f, j, l, wrapped);
      OneLess(u, r.clus);
      RunInOrder(Link(f, c, l, r.clus), r.clus, l, j0, r.clus, r.wrapped, cnt - 1, u - {r.clus});
      OneMorePick(f, c, l, j, wrapped, cnt);
      hide OnTrack, Starting, ScanAt, Rank;
      OrderCons(u, l, j0, r.clus, AllocRun(Link(f, c, l, r.clus), r.clus, l, r.clus, r.wrapped, cnt - 1).picks);
    }
  }

  lemma OrderCons(u: set<nat>, l: nat, j0: int, p: nat, picks: seq<nat>)
    requires p in u && InScanOrder(u - {p}, l, j0, picks)
    requires forall x :: x in u && x != p ==> Rank(j0, l, x) > Rank(j0, l, p)
    ensures InScanOrder(u, l, j0, [p] + picks)
  {
    hide Rank;
    var all := [p] + picks;
    forall k, x | 0 <= k < |all| && x in u && Rank(j0, l, x) < Rank(j0, l, all[k])
      ensures x in all[..k]
    {
      if k > 0 {
        assert all[..k] == [p] + picks[..k - 1];
        assert all[k] == picks[k - 1];
        assert x != p ==> x in u - {p};
      }
    }
  }

  /** The clusters picked are the first free ones after the one allocated last, once round, in that order. */
  lemma AllocInOrder(f: seq<nat>, c: int, l: nat, j: int, cnt: nat)
    requires 2 <= l <= |f| && 1 <= cnt <= |FreeSet(f, l)| && (0 < c < l ==> f[c] != 0)
    ensures var r := Alloc(f, c, l, j, cnt); r.Ran? && InScanOrder(FreeSet(f, l), l, j, r.picks)
  {
    hide AllocRun, InScanOrder;
    RunInOrder(f, c, l, j, j, false, cnt, FreeSet(f, l));
  }

  /** One cluster short, with all free ones past the starting point, the call still succeeds: it
      picks its last cluster twice, and the chain is one cluster too short. */
  lemma SilentShortfall()
    ensures var f := [END_MARK, END_MARK, 0];
            Alloc(f, 0, 3, 1, 2) == Ran([END_MARK, END_MARK, END_MARK], 2, [2, 2])
  {
    var f := [END_MARK, END_MARK, 0];
    assert NextFree(f, 1, 3, false) == At(2, false);
    assert NextFree(f, 1, 3, true) == At(2, true);
    assert NextFree(f, 2, 3, false) == At(2, true);
    var g := f[2 := 2];
    assert AllocRun(g, 2, 3, 2, true, 0) == Ran(g, 2, []);
    assert AllocRun(f, 2, 3, 2, false, 1) == Ran(g, 2, [2]);
    assert AllocRun(f, 0, 3, 1, false, 2) == Ran(g, 2, [2, 2]);
    assert g[2 := END_MARK] == [END_MARK, END_MARK, END_MARK];
  }

  // ---- Reading a chain back ----

  /** ClusNumNext: the cnt'th cluster after c, or INVALID_CLUS when the chain ends first; None if a
      link leads outside the table. */
  function Hop(f: seq<nat>, c: int, cnt: nat): (r: int)
    requires forall i :: 0 <= i < |f| ==> f[i] < |f| || !IsClus(f[i])
    requires IsClus(c) ==> c < |f|
    ensures IsClus(r) ==> r < |f|
    decreases cnt
  {
    if cnt > 0 && IsClus(c) then Hop(f, f[c], cnt - 1) else c
  }

  function ClusNumNext(f: seq<nat>, c: int, cnt: int): int
    requires forall i :: 0 <= i < |f| ==> f[i] < |f| || !IsClus(f[i])
    requires IsClus(c) ==> c < |f|
  {
    if cnt <= 0 then c
    else
      var r := Hop(f, c, cnt);
      if IsClus(r) then r else INVALID_CLUS
  }

  lemma {:induction false} HopsAlong(g: seq<nat>, picks: seq<nat>, k: nat, cnt: nat)
    requires forall i :: 0 <= i < |g| ==> g[i] < |g| || !IsClus(g[i])
    requires k < |picks| && forall i :: 0 <= i < |picks| ==> IsClus(picks[i]) && picks[i] < |g|
    requires forall i :: 0 <= i < |picks| - 1 ==> Links(g, picks, i)
    requires g[picks[|picks| - 1]] == END_MARK
    ensures Hop(g, picks[k], cnt) == if k + cnt < |picks| then picks[k + cnt] else END_MARK
    decreases cnt
  {
    if cnt > 0 {
      if k + 1 < |picks| {
        assert Links(g, picks, k);
        HopsAlong(g, picks, k + 1, cnt - 1);
      }
    }
  }

  /** Following an allocated chain meets the picks in order, and then ends. */
  lemma ChainReadsBack(f: seq<nat>, g: seq<nat>, c: int, l: nat, picks: seq<nat>, k: nat)
    requires l <= |f| <= CHAIN_END && Appended(f, g, c, l, picks)
    requires forall i :: 0 <= i < |f| ==> f[i] < |f| || !IsClus(f[i])
    ensures forall i :: 0 <= i < |g| ==> g[i] < |g| || !IsClus(g[i])
    ensures ClusNumNext(g, picks[0], k) == if k < |picks| then picks[k] else INVALID_CLUS
  {
    forall i | 0 <= i < |g|
      ensures g[i] < |g| || !IsClus(g[i])
    {
      if i in picks {
        var n :| 0 <= n < |picks| && picks[n] == i;
        assert n < |picks| - 1 ==> Links(g, picks, n);
      }
    }
    HopsAlong(g, picks, 0, k);
  }

  // ---- Freeing undoes allocating ----

  lemma {:induction false} VisitsPicks(g: seq<nat>, picks: seq<nat>)
    requires picks != [] && Distinct(picks)
    requires forall i :: 0 <= i < |picks| ==> IsClus(picks[i]) && picks[i] < |g|
    requires forall i :: 0 <= i < |picks| - 1 ==> Links(g, picks, i)
    requires g[picks[|picks| - 1]] == END_MARK
    ensures Visited(g, picks[0]) == picks && Inside(g, picks[0])
    decreases |picks|
  {
    var p, t := picks[0], picks[1..];
    VisitedStep(g, p);
    var e := g[p := 0];
    if t == [] {
      assert Visited(e, END_MARK) == [];
      assert picks == [p];
    } else {
      assert Links(g, picks, 0);
      forall i | 0 <= i < |t| - 1
        ensures Links(e, t, i)
      {
        assert Links(g, picks, i + 1);
      }
      VisitsPicks(e, t);
      assert picks == [p] + t;
    }
  }

  /** Allocating a new chain and freeing it restores the first copy, and restores the second if and
      only if the chain, once in the sector of its last cluster, stays there. */
  lemma FreeUndoesAlloc(f: seq<nat>, g: seq<nat>, c: int, l: nat, picks: seq<nat>)
    requires l <= |f| <= CHAIN_END && Appended(f, g, c, l, picks) && !(0 < c < l)
    ensures Visited(g, picks[0]) == picks && Inside(g, picks[0]) && FreedFirst(g, picks[0]) == f
    ensures FreedSecond(g, picks[0]) == f <==> Settles(picks, SectorOf(picks[|picks| - 1]))
  {
    VisitsPicks(g, picks);
    ZeroedBack(f, g, c, l, picks);
    hide Visited, Inside, Zeroed, Appended, FreedSecond, Settles, Links, Distinct;
    CopiesAgree(g, picks[0]);
  }

  lemma ZeroedBack(f: seq<nat>, g: seq<nat>, c: int, l: nat, picks: seq<nat>)
    requires l <= |f| && Appended(f, g, c, l, picks) && !(0 < c < l)
    ensures Zeroed(g, picks) == f
  {
    hide Links, Distinct;
  }

  ghost predicate Ascending(picks: seq<nat>)
  {
    forall i, j :: 0 <= i < j < |picks| ==> picks[i] < picks[j]
  }

  lemma AscendingSettles(picks: seq<nat>)
    requires picks != [] && Ascending(picks)
    ensures Settles(picks, SectorOf(picks[|picks| - 1]))
  {
    var last := picks[|picks| - 1];
    forall i, j | 0 <= i < j < |picks| && SectorOf(picks[i]) == SectorOf(last)
      ensures SectorOf(picks[j]) == SectorOf(last)
    {
      assert picks[i] < picks[j] <= last;
    }
  }

  // The free clusters past the point the scan starts from.
  ghost function FreeAhead(f: seq<nat>, l: nat, j: int): set<nat>
  {
    set i: nat | 1 <= i < l && i < |f| && i > j && f[i] == 0
  }

  // Without going round, each pick lies past the one before.
  lemma {:induction false} AheadAscends(f: seq<nat>, c: int, l: nat, j: int, cnt: nat, u: set<nat>)
    requires 2 <= l <= |f| && cnt <= |u|
    requires forall x :: x in u ==> 1 <= x < l && x > j && f[x] == 0 && x != c
    ensures var r := AllocRun(f, c, l, j, false, cnt);
            r.Ran? && Ascending(r.picks) && forall i :: 0 <= i < |r.picks| ==> r.picks[i] > j
    decreases cnt
  {
    hide Ascending, Link, NextFree;
    if cnt > 0 {
      AheadNext(f, c, l, j, u);
      var p := NextFree(f, j, l, false).clus;
      var v := set y | y in u && y != p;
      Others(u, v, p);
      AheadAscends(Link(f, c, l, p), p, l, p, cnt - 1, v);
      var t := AllocRun(Link(f, c, l, p), p, l, p, false, cnt - 1);
      AscendingCons(p, t.picks);
      assert AllocRun(f, c, l, j, false, cnt).picks == [p] + t.picks;
    } else {
      NoneAscend();
    }
  }

  lemma AheadNext(f: seq<nat>, c: int, l: nat, j: int, u: set<nat>)
    requires 2 <= l <= |f| && u != {}
    requires forall x :: x in u ==> 1 <= x < l && x > j && f[x] == 0 && x != c
    ensures var r := NextFree(f, j, l, false);
            r.At? && !r.wrapped && r.clus > j && forall y :: y in u && y != r.clus ==> y > r.clus && Link(f, c, l, r.clus)[y] == 0
  {
    hide NextFree;
    var x :| x in u;
    NextFreeLeast(f, j, l, false);
  }

  lemma NoneAscend()
    ensures Ascending([])
  {
  }

  lemma AscendingCons(p: nat, picks: seq<nat>)
    requires Ascending(picks) && forall i :: 0 <= i < |picks| ==> picks[i] > p
    ensures Ascending([p] + picks)
  {
  }

  lemma Others(u: set<nat>, v: set<nat>, p: nat)
    requires v == set y | y in u && y != p
    ensures |v| >= |u| - 1
  {
    if p in u {
      assert u == v + {p};
    } else {
      assert u == v;
    }
  }

  lemma AheadIsFree(f: seq<nat>, l: nat, j: int)
    ensures |FreeAhead(f, l, j)| <= |FreeSet(f, l)|
  {
    Fewer(FreeAhead(f, l, j), FreeSet(f, l));
  }

  lemma AheadAlloc(f: seq<nat>, l: nat, j: int, cnt: nat)
    requires 2 <= l <= |f| && cnt <= |FreeAhead(f, l, j)|
    ensures var r := Alloc(f, 0, l, j, cnt); r.Ran? && Ascending(r.picks)
  {
    hide AllocRun, Ascending;
    AheadAscends(f, 0, l, j, cnt, FreeAhead(f, l, j));
  }

  /** With enough free clusters past the starting point, so that the scan does not go round, freeing
      what a call has just allocated restores both copies. */
  lemma FreeRestoresBoth(f: seq<nat>, l: nat, j: int, cnt: nat)
    requires 2 <= l <= |f| <= CHAIN_END && 1 <= cnt <= |FreeAhead(f, l, j)|
    ensures var r := Alloc(f, 0, l, j, cnt);
            r.Ran? && |r.picks| == cnt && FreedFirst(r.f, r.picks[0]) == f == FreedSecond(r.f, r.picks[0])
  {
    hide *;
    AheadIsFree(f, l, j);
    AllocDelivers(f, 0, l, j, cnt);
    AheadAlloc(f, l, j, cnt);
    var r := Alloc(f, 0, l, j, cnt);
    AscendingSettles(r.picks);
    FreeUndoesAlloc(f, r.f, 0, l, r.picks);
  }

  lemma {:induction false} Fewer(u: set<nat>, v: set<nat>)
    requires u <= v
    ensures |u| <= |v|
    decreases u
  {
    if u != {} {
      var x :| x in u;
      Fewer(u - {x}, v - {x});
    }
  }

  // Three free clusters in two sectors.
  function Sparse(): (f: seq<nat>)
    ensures |f| == 300 && forall i :: 0 <= i < 300 ==> f[i] == if i == 150 || i == 200 || i == 260 then 0 else END_MARK
  {
    seq(300, i => if i == 150 || i == 200 || i == 260 then 0 else END_MARK)
  }

  /** A scan that goes round does not: it starts past cluster 199, takes 200 and 260, comes back to
      150, and freeing the chain leaves the second copy with a link. */
  lemma WrappedDiffers()
    ensures var r := Alloc(Sparse(), 0, 300, 199, 3);
            && r.Ran? && r.picks == [200, 260, 150]
            && FreedFirst(r.f, 200) == Sparse() != FreedSecond(r.f, 200)
  {
    hide Alloc, AllocRun, NextFree, FreedFirst, FreedSecond, Visited, Appended;
    var f := Sparse();
    var f1 := f[200 := 260];
    var f2 := f1[260 := 150];
    NextFreeLeast(f, 199, 300, false);
    NextFreeLeast(f, 200, 300, false);
    NextFreeLeast(f1, 260, 300, false);
    assert f1[150] == 0 && forall i :: 260 < i < 300 ==> f1[i] == f[i] != 0;
    var back := NextFree(f1, 260, 300, false);
    assert back.At? && back.wrapped;
    assert f1[back.clus] == 0 && back.clus <= 150;
    assert FreeSet(f, 300) == {150, 200, 260};
    AllocDelivers(f, 0, 300, 199, 3);
    WrappedRun(f, f1, f2);
    var picks := [200, 260, 150];
    FreeUndoesAlloc(f, Alloc(f, 0, 300, 199, 3).f, 0, 300, picks);
    assert SectorOf(picks[0]) == SectorOf(picks[2]) != SectorOf(picks[1]);
  }

  lemma WrappedRun(f: seq<nat>, f1: seq<nat>, f2: seq<nat>)
    requires |f| == 300 && f1 == f[200 := 260] && f2 == f1[260 := 150]
    requires NextFree(f, 199, 300, false) == At(200, false) && NextFree(f, 200, 300, false) == At(260, false)
    requires NextFree(f1, 260, 300, false) == At(150, true)
    ensures var r := Alloc(f, 0, 300, 199, 3); r.Ran? && r.picks == [200, 260, 150]
  {
    hide NextFree;
    assert AllocRun(f2, 150, 300, 150, true, 0) == Ran(f2, 150, []);
    assert AllocRun(f1, 260, 300, 260, false, 1) == Ran(f2, 150, [150]);
    assert AllocRun(f, 200, 300, 200, false, 2) == Ran(f2, 150, [260, 150]);
    assert AllocRun(f, 0, 300, 199, false, 3) == Ran(f2, 150, [200, 260, 150]);
  }

  // ---- Contiguous runs ----

  function Consecutive(first: nat, cnt: nat): (s: seq<nat>)
    ensures |s| == cnt && forall i :: 0 <= i < cnt ==> s[i] == first + i
  {
    seq(cnt, i requires 0 <= i => first + i)
  }

  // The link entry i of a run of cnt gets.
  function RunLink(first: nat, cnt: nat, i: nat): nat
  {
    if i + 1 == cnt then END_MARK else first + i + 1
  }

  function WrittenAt(f: seq<nat>, first: nat, cnt: nat, n: nat, i: nat): nat
    requires i < |f|
  {
    if first <= i < first + n then RunLink(first, cnt, i - first) else f[i]
  }

  /** The first n links of a run are written. */
  function Written(f: seq<nat>, first: nat, cnt: nat, n: nat): (r: seq<nat>)
    ensures |r| == |f|
  {
    seq<nat>(|f|, i requires 0 <= i < |f| => WrittenAt(f, first, cnt, n, i))
  }

  lemma WrittenMore(f: seq<nat>, first: nat, cnt: nat, n: nat)
    requires first + n < |f|
    ensures Written(f, first, cnt, n + 1) == Written(f, first, cnt, n)[first + n := RunLink(first, cnt, n)]
    ensures Written(f, first, cnt, 0) == f
  {
  }

  lemma WrittenIsChain(f: seq<nat>, first: nat, cnt: nat)
    requires 1 <= first && 0 < cnt && first + cnt <= |f| && forall i :: first <= i < first + cnt ==> f[i] == 0
    ensures Appended(f, Written(f, first, cnt, cnt), 0, |f|, Consecutive(first, cnt))
  {
    var g, picks := Written(f, first, cnt, cnt), Consecutive(first, cnt);
    forall i | 0 <= i < cnt - 1
      ensures Links(g, picks, i)
    {
      assert picks[i] == first + i && picks[i + 1] == first + i + 1;
      assert g[first + i] == RunLink(first, cnt, i);
    }
    assert picks[cnt - 1] == first + cnt - 1;
    assert g[first + cnt - 1] == RunLink(first, cnt, cnt - 1);
    forall i | first <= i < first + cnt
      ensures i in picks
    {
      assert picks[i - first] == i;
    }
  }

  /** Writing all links over any mixture of the old table and the new one gives the new one. */
  lemma WrittenOver(f: seq<nat>, g: seq<nat>, first: nat, cnt: nat)
    requires |g| == |f| && forall i :: 0 <= i < |f| && !(first <= i < first + cnt) ==> g[i] == f[i]
    ensures Written(g, first, cnt, cnt) == Written(f, first, cnt, cnt)
  {
  }
}

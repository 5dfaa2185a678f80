/** RedSea's free list and the layout of runs on a volume (HolyCRT/BlkDev/FileSysRedSea.HC). */
module RedSeaFree {
  // Blocks start, start + 1, ..., start + size - 1. Freeing an empty file makes runs without blocks.
  datatype Run = Run(start: int, size: nat)

  const NOTHING := Run(0, 0)

  predicate In(r: Run, c: int)
  {
    r.start <= c < r.start + r.size
  }

  ghost function Blocks(r: Run): set<int>
  {
    set c | r.start <= c < r.start + r.size && In(r, c)
  }

  predicate Apart(a: Run, b: Run)
  {
    a.size == 0 || b.size == 0 || a.start + a.size <= b.start || b.start + b.size <= a.start
  }

  ghost predicate Covers(rs: seq<Run>, c: int)
  {
    exists i :: 0 <= i < |rs| && In(rs[i], c)
  }

  ghost predicate Spread(rs: seq<Run>)
  {
    forall i, j :: 0 <= i < j < |rs| ==> Apart(rs[i], rs[j])
  }

  // No run of the list holds a block of r.
  ghost predicate Clear(rs: seq<Run>, r: Run)
  {
    forall i :: 0 <= i < |rs| ==> Apart(rs[i], r)
  }

  predicate Within(r: Run, lo: int, hi: int)
  {
    r.size == 0 || lo <= r.start <= r.start + r.size <= hi
  }

  ghost predicate AllWithin(rs: seq<Run>, lo: int, hi: int)
  {
    forall i :: 0 <= i < |rs| ==> Within(rs[i], lo, hi)
  }

  /** The free list holds each unused block of the volume once, and nothing else. */
  ghost predicate FreeOk(free: seq<Run>, used: set<int>, lo: int, hi: int)
  {
    && Spread(free) && AllWithin(free, lo, hi)
    && forall c :: lo <= c < hi ==> (c in used <==> !Covers(free, c))
  }

  // A node that can serve a request for n blocks.
  ghost predicate HasRun(free: seq<Run>, n: nat)
  {
    exists i :: 0 <= i < |free| && free[i].size >= n
  }

  // ---- Freeing ----

  predicate Touches(node: Run, r: Run)
  {
    node.start + node.size == r.start || r.start + r.size == node.start
  }

  // The first node from k on that r touches at either end.
  function JoinAt(free: seq<Run>, r: Run, k: nat): (j: nat)
    requires k <= |free|
    ensures k <= j <= |free| && (j < |free| ==> Touches(free[j], r))
    decreases |free| - k
  {
    if k == |free| || Touches(free[k], r) then k else JoinAt(free, r, k + 1)
  }

  function Joined(node: Run, r: Run): Run
  {
    Run(if node.start + node.size == r.start then node.start else r.start, node.size + r.size)
  }

  /** The list after a run is freed: the first node it touches grows, else it is appended. */
  function FreeIn(free: seq<Run>, r: Run): seq<Run>
  {
    var k := JoinAt(free, r, 0);
    if k == |free| then free + [r] else free[k := Joined(free[k], r)]
  }

  // Cluster number 0 means there is nothing to free.
  function Freed(free: seq<Run>, r: Run): seq<Run>
  {
    if r.start == 0 then free else FreeIn(free, r)
  }

  lemma FreeCovers(free: seq<Run>, r: Run, c: int)
    ensures Covers(FreeIn(free, r), c) <==> Covers(free, c) || In(r, c)
  {
    var out, k := FreeIn(free, r), JoinAt(free, r, 0);
    if In(r, c) {
      assert In(out[k], c);
    }
    if Covers(free, c) {
      var i :| 0 <= i < |free| && In(free[i], c);
      assert In(out[i], c);
    }
    if Covers(out, c) && !In(r, c) {
      var i :| 0 <= i < |out| && In(out[i], c);
      assert In(free[i], c);
    }
  }

  lemma ClearOf(free: seq<Run>, used: set<int>, lo: int, hi: int, r: Run)
    requires FreeOk(free, used, lo, hi) && Blocks(r) <= used
    ensures Clear(free, r)
  {
    forall i | 0 <= i < |free|
      ensures Apart(free[i], r)
    {
      if free[i].size > 0 && r.size > 0 {
        var c := if free[i].start <= r.start then r.start else free[i].start;
        assert In(free[i], c) ==> Covers(free, c);
        assert c in Blocks(r) ==> c in used;
      }
    }
  }

  /** Freeing a run in use leaves a list of exactly the unused blocks. */
  lemma FreeKeeps(free: seq<Run>, used: set<int>, lo: int, hi: int, r: Run)
    requires FreeOk(free, used, lo, hi) && Within(r, lo, hi) && Blocks(r) <= used
    ensures FreeOk(FreeIn(free, r), used - Blocks(r), lo, hi)
    ensures forall n: nat :: HasRun(free, n) ==> HasRun(FreeIn(free, r), n)
  {
    var out := FreeIn(free, r);
    var k := JoinAt(free, r, 0);
    hide JoinAt;
    ClearOf(free, used, lo, hi, r);
    assert forall i :: 0 <= i < |free| ==> Apart(free[i], r);
    forall i, j | 0 <= i < j < |out|
      ensures Apart(out[i], out[j])
    {
    }
    forall c | lo <= c < hi
      ensures c in used - Blocks(r) <==> !Covers(out, c)
    {
      FreeCovers(free, r, c);
    }
    forall n: nat | HasRun(free, n)
      ensures HasRun(out, n)
    {
      var i :| 0 <= i < |free| && free[i].size >= n;
      assert out[i].size >= n;
    }
  }

  // The node ends where the run begins, or begins where it ends.
  predicate Adjoins(node: Run, r: Run)
  {
    node.start + node.size == r.start || r.start + r.size == node.start
  }

  // Node k has taken the run's blocks in, and no other node has changed.
  ghost predicate Swells(free: seq<Run>, now: seq<Run>, r: Run, k: nat)
  {
    && k < |free| == |now| && (forall i :: 0 <= i < |free| && i != k ==> now[i] == free[i])
    && now[k].size == free[k].size + r.size && forall c :: In(now[k], c) <==> In(free[k], c) || In(r, c)
  }

  // It is the first node the run adjoins.
  ghost predicate SwellsFirst(free: seq<Run>, now: seq<Run>, r: Run, k: nat)
  {
    Swells(free, now, r, k) && Adjoins(free[k], r) && forall i :: 0 <= i < k ==> !Adjoins(free[i], r)
  }

  ghost predicate Merges(free: seq<Run>, now: seq<Run>, r: Run)
  {
    || (exists k :: SwellsFirst(free, now, r, k))
    || (now == free + [r] && forall i :: 0 <= i < |free| ==> !Adjoins(free[i], r))
  }

  /** A run freed makes the first node it adjoins longer; without one it is a node of its own. */
  lemma FreeMerges(free: seq<Run>, r: Run)
    ensures Merges(free, FreeIn(free, r), r)
  {
    var k := JoinAt(free, r, 0);
    JoinFirst(free, r, 0);
    hide JoinAt;
    if k < |free| {
      assert SwellsFirst(free, FreeIn(free, r), r, k);
    }
  }

  lemma {:induction false} JoinFirst(free: seq<Run>, r: Run, k: nat)
    requires k <= |free|
    ensures forall i :: k <= i < JoinAt(free, r, k) ==> !Adjoins(free[i], r)
    decreases |free| - k
  {
    if k < |free| && !Touches(free[k], r) {
      JoinFirst(free, r, k + 1);
    }
  }

  lemma FreedServes(free: seq<Run>, r: Run, n: nat)
    requires HasRun(free, n)
    ensures HasRun(Freed(free, r), n)
  {
    var i :| 0 <= i < |free| && free[i].size >= n;
    assert r.start != 0 ==> FreeIn(free, r)[i].size >= n;
  }

  // ---- Allocating ----

  /** Best fit: node k is a smallest node that is large enough, and the first of that size. */
  ghost predicate Best(free: seq<Run>, cnt: nat, k: nat)
  {
    && k < |free| && free[k].size >= cnt
    && (forall i :: 0 <= i < |free| && free[i].size >= cnt ==> free[k].size <= free[i].size)
    && (forall i :: 0 <= i < k && free[i].size >= cnt ==> free[i].size != free[k].size)
  }

  ghost predicate BestStart(free: seq<Run>, cnt: nat, first: int)
  {
    exists k: nat :: Best(free, cnt, k) && first == free[k].start
  }

  // The best of the first n nodes, or |free| if none is large enough.
  ghost function BestUpto(free: seq<Run>, cnt: nat, n: nat): (b: nat)
    requires n <= |free|
    ensures b == |free| ==> forall i :: 0 <= i < n ==> free[i].size < cnt
    ensures b != |free| ==>
              && b < n && free[b].size >= cnt
              && (forall i :: 0 <= i < n && free[i].size >= cnt ==> free[b].size <= free[i].size)
              && (forall i :: 0 <= i < b && free[i].size >= cnt ==> free[i].size != free[b].size)
  {
    if n == 0 then |free|
    else
      var b := BestUpto(free, cnt, n - 1);
      if free[n - 1].size >= cnt && (b == |free| || free[n - 1].size < free[b].size) then n - 1 else b
  }

  // The list after a request that it can serve.
  ghost function Served(free: seq<Run>, cnt: nat): seq<Run>
    requires HasRun(free, cnt)
  {
    TakeFrom(free, BestUpto(free, cnt, |free|), cnt)
  }

  lemma ServedIs(free: seq<Run>, cnt: nat, k: nat)
    requires Best(free, cnt, k)
    ensures HasRun(free, cnt) && Served(free, cnt) == TakeFrom(free, k, cnt)
  {
    var b := BestUpto(free, cnt, |free|);
    assert free[b].size == free[k].size;
  }

  /** A node large enough for two requests still serves the second after the first. */
  lemma ServedLeaves(free: seq<Run>, cnt: nat, n: nat)
    requires n > 0 && HasRun(free, cnt + n)
    ensures HasRun(free, cnt) && HasRun(Served(free, cnt), n)
  {
    Smaller(free, cnt + n, cnt);
    TakeLeaves(free, BestUpto(free, cnt, |free|), cnt, n);
  }

  // The first cnt blocks of node k are taken; a node used up goes.
  function TakeFrom(free: seq<Run>, k: nat, cnt: nat): seq<Run>
    requires k < |free| && cnt <= free[k].size
  {
    if free[k].size == cnt then free[..k] + free[k + 1..]
    else free[k := Run(free[k].start + cnt, free[k].size - cnt)]
  }

  lemma TakeLeavesCovered(free: seq<Run>, k: nat, cnt: nat, c: int)
    requires k < |free| && 0 < cnt <= free[k].size
    ensures Covers(free, c) && !In(Run(free[k].start, cnt), c) ==> Covers(TakeFrom(free, k, cnt), c)
  {
    var out := TakeFrom(free, k, cnt);
    if Covers(free, c) && !In(Run(free[k].start, cnt), c) {
      var i :| 0 <= i < |free| && In(free[i], c);
      if free[k].size == cnt {
        assert In(out[if i < k then i else i - 1], c);
      } else {
        assert In(out[i], c);
      }
    }
  }

  lemma TakeCovers(free: seq<Run>, k: nat, cnt: nat, c: int)
    requires k < |free| && 0 < cnt <= free[k].size && Spread(free)
    ensures Covers(TakeFrom(free, k, cnt), c) <==> Covers(free, c) && !In(Run(free[k].start, cnt), c)
  {
    var out, r := TakeFrom(free, k, cnt), Run(free[k].start, cnt);
    TakeLeavesCovered(free, k, cnt, c);
    if Covers(out, c) {
      var i :| 0 <= i < |out| && In(out[i], c);
      var j := if free[k].size == cnt && i >= k then i + 1 else i;
      assert In(free[j], c) && (j != k ==> Apart(free[j], free[k]));
    }
  }

  lemma TakeSpread(free: seq<Run>, k: nat, cnt: nat, lo: int, hi: int)
    requires k < |free| && 0 < cnt <= free[k].size && Spread(free) && AllWithin(free, lo, hi)
    ensures Spread(TakeFrom(free, k, cnt)) && AllWithin(TakeFrom(free, k, cnt), lo, hi)
  {
    var out := TakeFrom(free, k, cnt);
    forall i, j | 0 <= i < j < |out|
      ensures Apart(out[i], out[j])
    {
      if free[k].size == cnt {
        assert Apart(free[if i < k then i else i + 1], free[if j < k then j else j + 1]);
      } else {
        assert Apart(free[i], free[j]);
      }
    }
  }

  /** The run taken was free, and what remains of the list is exactly the unused blocks. */
  lemma TakeKeeps(free: seq<Run>, used: set<int>, lo: int, hi: int, k: nat, cnt: nat)
    requires FreeOk(free, used, lo, hi) && k < |free| && 0 < cnt <= free[k].size
    ensures var r := Run(free[k].start, cnt);
            && Within(r, lo, hi) && Blocks(r) !! used
            && FreeOk(TakeFrom(free, k, cnt), used + Blocks(r), lo, hi)
  {
    var r := Run(free[k].start, cnt);
    TakeSpread(free, k, cnt, lo, hi);
    forall c | lo <= c < hi
      ensures c in used + Blocks(r) <==> !Covers(TakeFrom(free, k, cnt), c)
    {
      TakeCovers(free, k, cnt, c);
    }
    forall c | c in Blocks(r)
      ensures c !in used
    {
      assert In(free[k], c);
      assert Covers(free, c);
    }
  }

  /** A node large enough for two requests still serves the second, whichever node served the
      first. */
  lemma TakeLeaves(free: seq<Run>, k: nat, cnt: nat, n: nat)
    requires k < |free| && free[k].size >= cnt && n > 0 && HasRun(free, cnt + n)
    ensures HasRun(TakeFrom(free, k, cnt), n)
  {
    var i :| 0 <= i < |free| && free[i].size >= cnt + n;
    var out := TakeFrom(free, k, cnt);
    if free[k].size == cnt {
      assert out[if i < k then i else i - 1].size >= n;
    } else {
      assert out[i].size >= n;
    }
  }

  lemma Smaller(free: seq<Run>, n: nat, m: nat)
    requires HasRun(free, n) && m <= n
    ensures HasRun(free, m)
  {
  }

  // ---- The list as first built ----

  // How many blocks from c on are unused.
  ghost function Gap(used: set<int>, c: int, hi: int): (n: nat)
    ensures c + n <= hi || n == 0
    ensures forall b :: c <= b < c + n ==> b !in used
    ensures c + n < hi ==> c + n in used
    decreases hi - c
  {
    if c >= hi || c in used then 0 else 1 + Gap(used, c + 1, hi)
  }

  lemma {:induction false} GapIs(used: set<int>, c: int, hi: int, n: nat)
    requires c + n <= hi && (forall b :: c <= b < c + n ==> b !in used) && (c + n == hi || c + n in used)
    ensures Gap(used, c, hi) == n
    decreases n
  {
    if n > 0 {
      GapIs(used, c + 1, hi, n - 1);
    }
  }

  /** The unused runs from first on, as long as they go, in order. */
  ghost function BuildFrom(used: set<int>, first: int, hi: int): seq<Run>
    decreases hi - first
  {
    if first >= hi then []
    else
      var n := Gap(used, first, hi);
      (if n > 0 then [Run(first, n)] else []) + BuildFrom(used, first + n + 1, hi)
  }

  lemma BuildOn(free: seq<Run>, used: set<int>, first: int, hi: int, n: nat)
    requires first < hi && first + n <= hi
    requires (forall b :: first <= b < first + n ==> b !in used) && (first + n == hi || first + n in used)
    ensures free + BuildFrom(used, first, hi) ==
            (if n > 0 then free + [Run(first, n)] else free) + BuildFrom(used, first + n + 1, hi)
  {
    GapIs(used, first, hi, n);
  }

  lemma BuildEnds(used: set<int>, first: int, hi: int)
    requires first >= hi
    ensures BuildFrom(used, first, hi) == []
  {
  }

  lemma {:induction false} BuildSkips(used: set<int>, first: int, n: nat, hi: int)
    requires first + n <= hi && forall c :: first <= c < first + n ==> c in used
    ensures BuildFrom(used, first, hi) == BuildFrom(used, first + n, hi)
    decreases n
  {
    hide BuildFrom;
    if n > 0 {
      BuildSkip(used, first, hi);
      BuildSkips(used, first + 1, n - 1, hi);
    }
  }

  lemma BuildSkip(used: set<int>, first: int, hi: int)
    requires first < hi && first in used
    ensures BuildFrom(used, first, hi) == BuildFrom(used, first + 1, hi)
  {
    assert Gap(used, first, hi) == 0;
  }

  /** A list just built can serve a request as soon as that many blocks in a row are unused. */
  lemma {:induction false} BuiltServes(used: set<int>, first: int, hi: int, r: Run)
    requires first <= r.start && r.size > 0 && r.start + r.size <= hi && Blocks(r) !! used
    ensures HasRun(BuildFrom(used, first, hi), r.size)
    decreases hi - first
  {
    var n := Gap(used, first, hi);
    var rest := BuildFrom(used, first + n + 1, hi);
    if first + n < r.start {
      BuiltServes(used, first + n + 1, hi, r);
      var i :| 0 <= i < |rest| && rest[i].size >= r.size;
      assert BuildFrom(used, first, hi)[if n > 0 then i + 1 else i] == rest[i];
    } else {
      assert first + n < hi ==> first + n !in Blocks(r);
      assert r.start + r.size <= first + n;
      assert BuildFrom(used, first, hi)[0] == Run(first, n);
    }
  }

  // ---- Layout ----

  /** The blocks in use are those of the extents, each in one extent, and a fixed set of others. */
  ghost predicate Layout(used: set<int>, xs: seq<Run>, other: set<int>)
  {
    && Spread(xs) && other <= used
    && (forall i :: 0 <= i < |xs| ==> Blocks(xs[i]) <= used - other)
    && (forall c :: c in used ==> c in other || Covers(xs, c))
  }

  lemma UpdatedCovers(xs: seq<Run>, i: nat, r: Run, c: int)
    requires i < |xs| && Spread(xs)
    ensures Covers(xs[i := r], c) <==> In(r, c) || (Covers(xs, c) && !In(xs[i], c))
  {
    var ys := xs[i := r];
    if In(r, c) {
      assert In(ys[i], c);
    }
    if Covers(xs, c) && !In(xs[i], c) {
      var j :| 0 <= j < |xs| && In(xs[j], c);
      assert In(ys[j], c);
    }
    if Covers(ys, c) && !In(r, c) {
      var j :| 0 <= j < |ys| && In(ys[j], c);
      assert In(xs[j], c) && Apart(xs[i], xs[j]);
    }
  }

  /** Extent i is given up. */
  lemma Released(used: set<int>, xs: seq<Run>, other: set<int>, i: nat, r: Run)
    requires Layout(used, xs, other) && i < |xs| && r.size == 0
    ensures Layout(used - Blocks(xs[i]), xs[i := r], other)
  {
    var ys, now := xs[i := r], used - Blocks(xs[i]);
    forall j | 0 <= j < |ys|
      ensures Blocks(ys[j]) <= now - other
    {
      if j != i {
        assert Blocks(xs[j]) <= used - other;
        assert Apart(xs[i], xs[j]);
      }
    }
    forall c | c in now
      ensures c in other || Covers(ys, c)
    {
      UpdatedCovers(xs, i, r, c);
    }
  }

  /** A fresh run becomes an extent. */
  lemma Taken(used: set<int>, xs: seq<Run>, other: set<int>, i: nat, r: Run)
    requires Layout(used, xs, other) && i < |xs| && xs[i].size == 0 && Blocks(r) !! used
    ensures Layout(used + Blocks(r), xs[i := r], other)
  {
    var ys, now := xs[i := r], used + Blocks(r);
    forall j | 0 <= j < |ys| && j != i
      ensures Apart(xs[j], r)
    {
      if xs[j].size > 0 && r.size > 0 {
        var c := if xs[j].start <= r.start then r.start else xs[j].start;
        assert c in Blocks(xs[j]) ==> c in used;
        assert In(r, c) ==> c in Blocks(r);
      }
    }
    assert Spread(ys);
    forall c | c in now
      ensures c in other || Covers(ys, c)
    {
      UpdatedCovers(xs, i, r, c);
    }
  }

  lemma AppendedCovers(xs: seq<Run>, ys: seq<Run>, c: int)
    ensures Covers(xs + ys, c) <==> Covers(xs, c) || Covers(ys, c)
  {
    var zs := xs + ys;
    if Covers(xs, c) {
      var i :| 0 <= i < |xs| && In(xs[i], c);
      assert In(zs[i], c);
    }
    if Covers(ys, c) {
      var i :| 0 <= i < |ys| && In(ys[i], c);
      assert In(zs[|xs| + i], c);
    }
  }

  /** Slots without an extent can be added or dropped. */
  lemma Padded(used: set<int>, xs: seq<Run>, other: set<int>, ys: seq<Run>)
    requires forall i :: 0 <= i < |ys| ==> ys[i].size == 0
    ensures Layout(used, xs, other) <==> Layout(used, xs + ys, other)
  {
    var zs := xs + ys;
    forall c
      ensures Covers(zs, c) <==> Covers(xs, c)
    {
      AppendedCovers(xs, ys, c);
    }
    assert forall i :: 0 <= i < |xs| ==> zs[i] == xs[i];
    if Layout(used, zs, other) {
      assert forall i, j :: 0 <= i < j < |xs| ==> Apart(zs[i], zs[j]);
    }
  }

  /** The last extent moves to a slot that had none. */
  lemma Moved(used: set<int>, xs: seq<Run>, other: set<int>, r: Run, i: nat)
    requires Layout(used, xs + [r], other) && i < |xs| && xs[i].size == 0
    ensures Layout(used, xs[i := r], other)
  {
    var was, ys := xs + [r], xs[i := r];
    forall j, k | 0 <= j < k < |ys|
      ensures Apart(ys[j], ys[k])
    {
      assert Apart(was[j], was[k]) && Apart(was[j], was[|xs|]) && Apart(was[k], was[|xs|]);
    }
    forall j | 0 <= j < |ys|
      ensures Blocks(ys[j]) <= used - other
    {
      assert Blocks(was[j]) <= used - other && Blocks(was[|xs|]) <= used - other;
    }
    forall c | c in used
      ensures c in other || Covers(ys, c)
    {
      if c !in other {
        var j :| 0 <= j < |was| && In(was[j], c);
        assert In(ys[if j == |xs| then i else j], c);
      }
    }
  }
}

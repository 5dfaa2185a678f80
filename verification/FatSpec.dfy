/** FAT32 cluster chains as sequences of entries: what allocating, freeing and following a chain
    do to them, and what those operations promise. */
module FatSpec {
  const END_MARK: nat := 0x0FFF_FFFF
  const CHAIN_END: nat := 0x0FFF_FFF8
  const INVALID_CLUS: int := -1

  // Entries per sector: 512 bytes of 32-bit numbers.
  const PER_SECTOR: nat := 128

  predicate IsClus(c: int) { 0 < c < CHAIN_END }

  function SectorOf(c: nat): nat { c / PER_SECTOR }

  // ---- Freeing a chain ----

  ghost function Used(f: seq<nat>): set<nat>
  {
    set i: nat | i < |f| && f[i] != 0
  }

  /** The clusters a freeing pass visits: each entry is read, then zeroed, so a cyclic chain ends
      when it meets an entry it has zeroed. */
  ghost function Visited(f: seq<nat>, c: int): seq<nat>
    decreases Used(f), IsClus(c)
  {
    if IsClus(c) && c < |f| then
      assert f[c] != 0 ==> c in Used(f) && c !in Used(f[c := 0]);
      [c as nat] + Visited(f[c := 0], f[c])
    else []
  }

  // The pass never leaves the table.
  ghost predicate Inside(f: seq<nat>, c: int)
    decreases Used(f), IsClus(c)
  {
    IsClus(c) ==>
      && c < |f|
      && (assert f[c] != 0 ==> c in Used(f) && c !in Used(f[c := 0]);
          Inside(f[c := 0], f[c]))
  }

  ghost function Zeroed(f: seq<nat>, cs: seq<nat>): (r: seq<nat>)
    ensures |r| == |f|
  {
    seq(|f|, i requires 0 <= i < |f| => if i in cs then 0 else f[i])
  }

  lemma VisitedStep(f: seq<nat>, c: nat)
    requires IsClus(c) && c < |f|
    ensures Zeroed(f, Visited(f, c)) == Zeroed(f[c := 0], Visited(f[c := 0], f[c]))
    ensures Visited(f, c) == [c] + Visited(f[c := 0], f[c])
  {
    assert Visited(f, c) == [c] + Visited(f[c := 0], f[c]);
    forall i | 0 <= i < |f|
      ensures (i in Visited(f, c)) <==> (i == c || i in Visited(f[c := 0], f[c]))
    {
    }
  }

  // Entry i of a list of clusters names the next one.
  ghost predicate Links(f: seq<nat>, v: seq<nat>, i: nat)
  {
    i + 1 < |v| && v[i] < |f| && f[v[i]] == v[i + 1] != 0
  }

  /** The visited clusters follow the links, and only the last can be one seen before. */
  lemma {:induction false} VisitedLinks(f: seq<nat>, c: int)
    ensures var v := Visited(f, c);
            && (forall i :: 0 <= i < |v| ==> v[i] < |f|)
            && (forall i :: 0 <= i < |v| - 1 ==> Links(f, v, i))
            && (forall i, j :: 0 <= i < j < |v| - 1 ==> v[i] != v[j])
            && (v != [] ==> v[0] == c > 0)
    decreases Used(f), IsClus(c)
  {
    if IsClus(c) && c < |f| {
      assert f[c] != 0 ==> c in Used(f) && c !in Used(f[c := 0]);
      var g := f[c := 0];
      VisitedLinks(g, f[c]);
      VisitedStep(f, c);
      var v, w := Visited(f, c), Visited(g, f[c]);
      forall i | 0 <= i < |v| - 1
        ensures Links(f, v, i)
      {
        assert i > 0 ==> Links(g, w, i - 1);
      }
      forall i, j | 0 <= i < j < |v| - 1
        ensures v[i] != v[j]
      {
        assert Links(g, w, j - 1);
      }
    }
  }

  /** And they go on as far as the chain does: past the last one there is no cluster of the table, or it is one
      seen before. */
  lemma {:induction false} VisitedEnds(f: seq<nat>, c: int)
    ensures var v := Visited(f, c);
            if v == [] then !(IsClus(c) && c < |f|)
            else v[|v| - 1] < |f| && (v[|v| - 1] in v[..|v| - 1] || !(IsClus(f[v[|v| - 1]]) && f[v[|v| - 1]] < |f|))
    decreases Used(f), IsClus(c)
  {
    if IsClus(c) && c < |f| {
      assert f[c] != 0 ==> c in Used(f) && c !in Used(f[c := 0]);
      var g := f[c := 0];
      VisitedEnds(g, f[c]);
      VisitedStep(f, c);
      var v, w := Visited(f, c), Visited(g, f[c]);
      if w != [] {
        assert v[|v| - 1] == w[|w| - 1] && v[..|v| - 1] == [c as nat] + w[..|w| - 1];
      }
    }
  }

  /** Sector s of the second table as the second freeing pass finds it: taken over from the first. */
  ghost function Overlay(f: seq<nat>, g: seq<nat>, s: nat): (r: seq<nat>)
    requires |f| == |g|
    ensures |r| == |f|
  {
    seq(|f|, i requires 0 <= i < |f| => if SectorOf(i) == s then g[i] else f[i])
  }

  // Once the chain enters sector s it stays there.
  ghost predicate Settles(v: seq<nat>, s: nat)
  {
    forall i, j :: 0 <= i < j < |v| && SectorOf(v[i]) == s ==> SectorOf(v[j]) == s
  }

  // Index of the first cluster of sector s.
  ghost function FirstIn(v: seq<nat>, s: nat): (k: nat)
    ensures k <= |v| && forall i :: 0 <= i < k ==> SectorOf(v[i]) != s
    ensures k < |v| ==> SectorOf(v[k]) == s
  {
    if v == [] || SectorOf(v[0]) == s then 0 else 1 + FirstIn(v[1..], s)
  }

  ghost predicate ClearIn(g: seq<nat>, v: seq<nat>, s: nat)
  {
    forall i :: 0 <= i < |v| && SectorOf(v[i]) == s ==> v[i] < |g| && g[v[i]] == 0
  }

  lemma FirstInCons(c: nat, w: seq<nat>, s: nat)
    requires SectorOf(c) != s
    ensures FirstIn([c] + w, s) == 1 + FirstIn(w, s)
    ensures FirstIn(w, s) < |w| ==> ([c] + w)[..FirstIn(w, s) + 2] == [c] + w[..FirstIn(w, s) + 1]
  {
    assert ([c] + w)[1..] == w;
  }

  /** A pass over a table whose sector s is already clear of the chain ends at the first cluster
      there. */
  lemma {:induction false} VisitedStops(f: seq<nat>, g: seq<nat>, c: int, s: nat)
    requires |f| == |g| && forall i :: 0 <= i < |f| && SectorOf(i) != s ==> g[i] == f[i]
    requires ClearIn(g, Visited(f, c), s)
    ensures var v := Visited(f, c); var k := FirstIn(v, s);
            Visited(g, c) == if k < |v| then v[..k + 1] else v
    decreases Used(f), IsClus(c)
  {
    if IsClus(c) && c < |f| {
      assert f[c] != 0 ==> c in Used(f) && c !in Used(f[c := 0]);
      VisitedStep(f, c);
      VisitedStep(g, c);
      var v, w := Visited(f, c), Visited(f[c := 0], f[c]);
      if SectorOf(c) == s {
        assert v[0] == c && g[c] == 0;
        assert Visited(g[c := 0], 0) == [];
        assert v[..1] == [c as nat];
      } else {
        forall i | 0 <= i < |w| && SectorOf(w[i]) == s
          ensures w[i] < |g| && g[c := 0][w[i]] == 0
        {
          assert v[i + 1] == w[i];
        }
        VisitedStops(f[c := 0], g[c := 0], f[c], s);
        FirstInCons(c, w, s);
      }
    }
  }

  lemma {:induction false} InsideStops(f: seq<nat>, g: seq<nat>, c: int, s: nat)
    requires |f| == |g| && forall i :: 0 <= i < |f| && SectorOf(i) != s ==> g[i] == f[i]
    requires ClearIn(g, Visited(f, c), s) && Inside(f, c)
    ensures Inside(g, c)
    decreases Used(f), IsClus(c)
  {
    if IsClus(c) {
      assert f[c] != 0 ==> c in Used(f) && c !in Used(f[c := 0]);
      VisitedStep(f, c);
      var v, w := Visited(f, c), Visited(f[c := 0], f[c]);
      if SectorOf(c) == s {
        assert v[0] == c && g[c] == 0;
      } else {
        forall i | 0 <= i < |w| && SectorOf(w[i]) == s
          ensures w[i] < |g| && g[c := 0][w[i]] == 0
        {
          assert v[i + 1] == w[i];
        }
        InsideStops(f[c := 0], g[c := 0], f[c], s);
      }
    }
  }

  // Tables after the two passes: the second starts from the first one's last sector.
  ghost function FreedFirst(f: seq<nat>, c: int): seq<nat>
  {
    Zeroed(f, Visited(f, c))
  }

  ghost function LastSector(f: seq<nat>, c: int): nat
  {
    var v := Visited(f, c);
    if v == [] then 0 else SectorOf(v[|v| - 1])
  }

  ghost function FreedSecond(f: seq<nat>, c: int): seq<nat>
  {
    var g := Overlay(f, FreedFirst(f, c), LastSector(f, c));
    Zeroed(g, Visited(g, c))
  }

  // The first pass leaves its last sector clear of the chain.
  lemma FirstPassClears(f: seq<nat>, c: int)
    requires Visited(f, c) != []
    ensures var v, s := Visited(f, c), LastSector(f, c); var g := Overlay(f, FreedFirst(f, c), s);
            && ClearIn(g, v, s) && (forall i :: 0 <= i < |f| && SectorOf(i) != s ==> g[i] == f[i])
            && SectorOf(v[|v| - 1]) == s && FirstIn(v, s) < |v|
  {
    var v, s := Visited(f, c), LastSector(f, c);
    hide Visited, SectorOf;
    var g := Overlay(f, FreedFirst(f, c), s);
    VisitedLinks(f, c);
    forall i | 0 <= i < |v| && SectorOf(v[i]) == s
      ensures v[i] < |g| && g[v[i]] == 0
    {
      assert v[i] in v;
    }
  }

  lemma SecondPass(f: seq<nat>, c: int)
    requires Visited(f, c) != []
    ensures var v, s := Visited(f, c), LastSector(f, c);
            var w := v[..FirstIn(v, s) + 1];
            && FirstIn(v, s) < |v| && SectorOf(v[|v| - 1]) == s
            && FreedSecond(f, c) == Zeroed(Overlay(f, FreedFirst(f, c), s), w)
            && Visited(Overlay(f, FreedFirst(f, c), s), c) == w && w[|w| - 1] == v[FirstIn(v, s)]
            && (Inside(f, c) ==> Inside(Overlay(f, FreedFirst(f, c), s), c))
  {
    hide SectorOf, Zeroed, Overlay, ClearIn, Visited;
    var v, s := Visited(f, c), LastSector(f, c);
    var g := Overlay(f, FreedFirst(f, c), s);
    FirstPassClears(f, c);
    VisitedStops(f, g, c, s);
    if Inside(f, c) {
      InsideStops(f, g, c, s);
    }
  }

  lemma SettledMembers(v: seq<nat>, s: nat, x: nat)
    requires Settles(v, s) && FirstIn(v, s) < |v|
    ensures x in v && SectorOf(x) != s ==> x in v[..FirstIn(v, s) + 1]
    ensures x in v[..FirstIn(v, s) + 1] ==> x in v
  {
    if x in v && SectorOf(x) != s {
      var n :| 0 <= n < |v| && v[n] == x;
      assert n < FirstIn(v, s);
      assert v[..FirstIn(v, s) + 1][n] == x;
    }
  }

  lemma SettledAgrees(f: seq<nat>, v: seq<nat>, s: nat)
    requires Settles(v, s) && FirstIn(v, s) < |v|
    ensures Zeroed(Overlay(f, Zeroed(f, v), s), v[..FirstIn(v, s) + 1]) == Zeroed(f, v)
  {
    forall x: nat { SettledMembers(v, s, x); }
    hide Settles, FirstIn, SectorOf;
  }

  // A list that does not settle leaves the sector after entering it, and before its last cluster.
  lemma UnsettledIndex(v: seq<nat>, s: nat) returns (j: nat)
    requires v != [] && SectorOf(v[|v| - 1]) == s && !Settles(v, s)
    ensures FirstIn(v, s) < j < |v| - 1 && SectorOf(v[j]) != s
  {
    var i;
    i, j :| 0 <= i < j < |v| && SectorOf(v[i]) == s && SectorOf(v[j]) != s;
  }

  lemma UnsettledDiffers(f: seq<nat>, v: seq<nat>, s: nat, j: nat)
    requires FirstIn(v, s) < j < |v| - 1 && SectorOf(v[j]) != s && Links(f, v, j)
    requires forall i :: 0 <= i < j ==> v[i] != v[j]
    ensures Zeroed(Overlay(f, Zeroed(f, v), s), v[..FirstIn(v, s) + 1]) != Zeroed(f, v)
  {
    hide FirstIn;
    var w := v[..FirstIn(v, s) + 1];
    assert v[j] !in w && v[j] in v;
    assert Zeroed(f, v)[v[j]] == 0;
    assert Zeroed(Overlay(f, Zeroed(f, v), s), w)[v[j]] == f[v[j]];
  }

  /** The two copies agree after freeing a chain if and only if the chain, once in the sector of its
      last cluster, stays there. */
  lemma CopiesAgree(f: seq<nat>, c: int)
    ensures FreedSecond(f, c) == FreedFirst(f, c) <==> Settles(Visited(f, c), LastSector(f, c))
  {
    hide *;
    var v, s := Visited(f, c), LastSector(f, c);
    if v == [] {
      NothingFreed(f, c);
    } else {
      SecondPass(f, c);
      FirstPass(f, c);
      if Settles(v, s) {
        SettledAgrees(f, v, s);
      } else {
        var j := UnsettledIndex(v, s);
        VisitedLinks(f, c);
        UnsettledDiffers(f, v, s, j);
      }
    }
  }

  // A chain that leaves its last sector and comes back.
  function Returning(): (f: seq<nat>)
    ensures |f| == 300
  {
    seq(300, i => if i == 200 then 201 else if i == 201 then 260 else if i == 260 then 150 else if i == 150 then END_MARK else 0)
  }

  /** Freeing it leaves the copies different. */
  lemma CopiesDiffer()
    ensures Visited(Returning(), 200) == [200, 201, 260, 150]
    ensures FreedSecond(Returning(), 200) != FreedFirst(Returning(), 200)
  {
    hide FreedSecond, FreedFirst;
    var f := Returning();
    VisitedStep(f, 200);
    VisitedStep(f[200 := 0], 201);
    VisitedStep(f[200 := 0][201 := 0], 260);
    VisitedStep(f[200 := 0][201 := 0][260 := 0], 150);
    assert Visited(f[200 := 0][201 := 0][260 := 0][150 := 0], END_MARK) == [];
    CopiesAgree(f, 200);
    var v := [200, 201, 260, 150];
    assert SectorOf(v[0]) == SectorOf(v[3]) != SectorOf(v[2]);
  }

  lemma FirstPass(f: seq<nat>, c: int)
    ensures FreedFirst(f, c) == Zeroed(f, Visited(f, c))
  {
  }

  lemma NothingFreed(f: seq<nat>, c: int)
    requires Visited(f, c) == []
    ensures FreedSecond(f, c) == FreedFirst(f, c) == f && Settles(Visited(f, c), LastSector(f, c))
  {
    assert Overlay(f, FreedFirst(f, c), LastSector(f, c)) == f;
  }

  /** Whatever the chain, both copies agree on the sector the passes end in, and that sector is the
      same for both. */
  lemma LastSectorAgrees(f: seq<nat>, c: int)
    requires Visited(f, c) != []
    ensures var s := LastSector(f, c);
            && LastSector(Overlay(f, FreedFirst(f, c), s), c) == s
            && forall i: nat :: i < |f| && SectorOf(i) == s ==> FreedSecond(f, c)[i] == FreedFirst(f, c)[i]
  {
    SecondPass(f, c);
    var v, s := Visited(f, c), LastSector(f, c);
    var w := v[..FirstIn(v, s) + 1];
    hide Visited, FreedSecond, FirstIn;
    forall i: nat | i in w
      ensures i in v
    {
    }
  }
}

/** The code table of the archive control block (HolyCRT/KernelA.HH:3700-3715) and the two ways it
    changes: taking the next entry, and filling the current one. Both coder and decoder run exactly
    these steps. */
module ArcTrie {
  import opened Bits

  const ARC_BITS_MAX: nat := 12
  const TABLE_SIZE: nat := 4096

  const NONE: int := -1

  datatype Entry = Entry(basecode: nat, ch: nat)

  // hash[p] lists the entries whose base code is p, newest first.
  datatype Arc = Arc(
    minBits: nat, table: seq<Entry>, hash: seq<seq<nat>>,
    freeIdx: nat, freeLimit: nat, cur: int, next: int,
    curBits: nat, nextBits: nat, used: bool)
  {
    function MinEntry(): nat { Pow2(minBits) }
  }

  // Strings spelled by the live codes.
  type Dict = map<nat, seq<nat>>

  // What ArcEntryGet relies on, also while the control block is being built.
  ghost predicate Tables(a: Arc)
  {
    && (a.minBits == 7 || a.minBits == 8)
    && |a.table| == |a.hash| == TABLE_SIZE
    && a.MinEntry() <= a.freeIdx < a.freeLimit == Pow2(a.nextBits) <= TABLE_SIZE
    && a.minBits < a.nextBits <= ARC_BITS_MAX
    && (forall c :: 0 <= c < TABLE_SIZE ==> a.table[c].basecode < TABLE_SIZE)
  }

  ghost predicate Shape(a: Arc)
  {
    && Tables(a)
    && a.minBits < a.curBits <= a.nextBits <= a.curBits + 1
    && ((a.cur == NONE && a.used) || a.MinEntry() <= a.cur < Pow2(a.curBits))
    && a.MinEntry() <= a.next < Pow2(a.nextBits)
  }

  ghost predicate WellFormed(a: Arc)
  {
    Shape(a) && forall p :: 0 <= p < TABLE_SIZE ==> Below(a.hash[p], TABLE_SIZE)
  }

  lemma Pow2Table()
    ensures Pow2(7) == 128 && Pow2(8) == 256 && Pow2(9) == 512 && Pow2(ARC_BITS_MAX) == TABLE_SIZE
  {
    assert Pow2(4) == 16;
    assert Pow2(10) == 1024;
  }

  // ---- Linked list steps ----

  function Unlink(l: seq<nat>, x: nat): (r: seq<nat>)
    ensures |r| <= |l|
  {
    if l == [] then [] else if l[0] == x then l[1..] else [l[0]] + Unlink(l[1..], x)
  }

  ghost predicate Distinct(l: seq<nat>)
  {
    forall i, j :: 0 <= i < j < |l| ==> l[i] != l[j]
  }

  lemma {:induction false} UnlinkRemovesOne(l: seq<nat>, x: nat)
    requires Distinct(l)
    ensures Distinct(Unlink(l, x))
    ensures forall y :: y in Unlink(l, x) <==> y in l && y != x
  {
    if l != [] {
      UnlinkRemovesOne(l[1..], x);
      if l[0] != x {
        var t := Unlink(l[1..], x);
        forall j | 0 <= j < |t|
          ensures t[j] != l[0]
        {
          assert t[j] in t;
        }
      }
    }
  }

  lemma {:induction false} UnlinkBelow(l: seq<nat>, x: nat, n: nat)
    requires Below(l, n)
    ensures Below(Unlink(l, x), n)
  {
    if l != [] {
      UnlinkBelow(l[1..], x, n);
    }
  }

  // ---- The recycle search ----

  function Following(i: nat, lo: nat, hi: nat): nat
  {
    if i + 1 == hi then lo else i + 1
  }

  // The first entry without children after i, going round; fuel bounds the trip.
  function LeafAfter(hash: seq<seq<nat>>, i: nat, lo: nat, hi: nat, fuel: nat): (r: nat)
    requires lo <= i < hi <= |hash|
    ensures lo <= r < hi
    decreases fuel
  {
    var j := Following(i, lo, hi);
    if fuel == 0 || hash[j] == [] then j else LeafAfter(hash, j, lo, hi, fuel - 1)
  }

  // Steps from i forward to z on the cycle lo..hi-1.
  function Distance(i: nat, z: nat, lo: nat, hi: nat): nat
    requires lo <= i < hi && lo <= z < hi
  {
    if i < z then z - i else z - i + (hi - lo)
  }

  lemma {:induction false} LeafAfterFinds(hash: seq<seq<nat>>, i: nat, lo: nat, hi: nat, fuel: nat, z: nat)
    requires lo <= i < hi <= |hash| && lo <= z < hi
    requires hash[z] == [] && Distance(i, z, lo, hi) <= fuel + 1
    ensures var r := LeafAfter(hash, i, lo, hi, fuel);
            lo <= r < hi && hash[r] == [] && Distance(i, r, lo, hi) <= Distance(i, z, lo, hi)
    decreases fuel
  {
    var j := Following(i, lo, hi);
    if fuel > 0 && hash[j] != [] {
      LeafAfterFinds(hash, j, lo, hi, fuel - 1, z);
    }
  }

  // No entry without children is passed over.
  lemma LeafAfterNearest(hash: seq<seq<nat>>, i: nat, lo: nat, hi: nat, z: nat)
    requires lo <= i < hi <= |hash| && lo <= z < hi && hash[z] == []
    ensures var r := LeafAfter(hash, i, lo, hi, hi);
            && lo <= r < hi && hash[r] == []
            && forall y: nat :: lo <= y < hi && Distance(i, y, lo, hi) < Distance(i, r, lo, hi) ==> hash[y] != []
  {
    var r := LeafAfter(hash, i, lo, hi, hi);
    LeafAfterFinds(hash, i, lo, hi, hi, z);
    forall y: nat | lo <= y < hi && Distance(i, y, lo, hi) < Distance(i, r, lo, hi)
      ensures hash[y] != []
    {
      if hash[y] == [] {
        LeafAfterFinds(hash, i, lo, hi, hi, y);
        assert false;
      }
    }
  }

  // ---- ArcEntryGet ----

  // The next entry becomes the current one, at the next width.
  ghost predicate Takes(a: Arc, b: Arc)
  {
    !b.used && b.cur == a.next && b.curBits == a.nextBits && b.minBits == a.minBits && b.table == a.table
  }

  /** The table grows: the entries are handed out in order, and the fields are one bit wider once the width
      can name no more. */
  ghost predicate Grows(a: Arc, b: Arc)
  {
    && Takes(a, b) && b.next == a.freeIdx && b.freeIdx == a.freeIdx + 1 && b.hash == a.hash
    && b.nextBits == if a.freeIdx + 1 == Pow2(a.nextBits) then a.nextBits + 1 else a.nextBits
  }

  // Going round from the entry recycled last, y comes before r.
  ghost predicate Nearer(a: Arc, y: nat, r: int)
    requires Tables(a) && a.MinEntry() <= r < a.freeLimit
  {
    var lo, hi := a.MinEntry(), a.freeLimit;
    lo <= y < hi && Distance(a.freeIdx, y, lo, hi) < Distance(a.freeIdx, r, lo, hi)
  }

  /** The table is full: the nearest entry without children after the one recycled last, once round, is the
      next to be filled. */
  ghost predicate Recycles(a: Arc, b: Arc)
    requires Tables(a)
  {
    && Takes(a, b) && a.MinEntry() <= b.next < a.freeLimit && b.freeIdx == b.next && b.nextBits == a.nextBits
    && a.hash[b.next] == [] && forall y: nat :: Nearer(a, y, b.next) ==> a.hash[y] != []
  }

  ghost function Get(a: Arc): (r: Arc)
    requires Tables(a)
    ensures Tables(r)
    ensures Shape(a) ==> Shape(r)
  {
    if !a.used then a
    else
      var b := a.(used := false, cur := a.next, curBits := a.nextBits);
      if a.nextBits < ARC_BITS_MAX then
        var i := a.freeIdx + 1;
        Pow2Mono(a.nextBits + 1, ARC_BITS_MAX);
        Pow2Table();
        if i == a.freeLimit then
          b.(next := a.freeIdx, freeIdx := i, nextBits := a.nextBits + 1, freeLimit := Pow2(a.nextBits + 1))
        else
          b.(next := a.freeIdx, freeIdx := i)
      else
        var i := LeafAfter(a.hash, a.freeIdx, a.MinEntry(), a.freeLimit, a.freeLimit);
        var p := a.table[i].basecode;
        b.(next := i, freeIdx := i, hash := a.hash[p := Unlink(a.hash[p], i)])
  }

  // The step both loops share after a code: the current entry gets its base and character.
  function Fill(a: Arc, base: nat, ch: nat): Arc
    requires 0 <= a.cur < |a.table| && base < |a.hash|
  {
    a.(used := true, table := a.table[a.cur := Entry(base, ch)],
       hash := a.hash[base := [a.cur as nat] + a.hash[base]])
  }

  lemma GetGrows(a: Arc)
    requires Tables(a) && a.used && a.nextBits < ARC_BITS_MAX
    ensures Grows(a, Get(a))
  {
    hide Pow2;
  }

  lemma GetRecycles(a: Arc)
    requires Tables(a) && a.used && a.nextBits == ARC_BITS_MAX
    requires exists z :: a.MinEntry() <= z < a.freeLimit && a.hash[z] == []
    ensures Recycles(a, Get(a))
  {
    hide Pow2, LeafAfter, Distance;
    var z :| a.MinEntry() <= z < a.freeLimit && a.hash[z] == [];
    LeafAfterNearest(a.hash, a.freeIdx, a.MinEntry(), a.freeLimit, z);
  }

  /** What ArcEntryGet does with the table, told from the lists of children alone. */
  lemma GetTakes(a: Arc)
    requires Tables(a) && a.used
    requires a.nextBits == ARC_BITS_MAX ==> exists z :: a.MinEntry() <= z < a.freeLimit && a.hash[z] == []
    ensures if a.nextBits < ARC_BITS_MAX then Grows(a, Get(a)) else Recycles(a, Get(a))
  {
    hide Get, Grows, Recycles;
    if a.nextBits == ARC_BITS_MAX {
      GetRecycles(a);
    } else {
      GetGrows(a);
    }
  }

  lemma GetWellFormed(a: Arc)
    requires WellFormed(a)
    ensures WellFormed(Get(a)) && !Get(a).used && Get(a).minBits == a.minBits
  {
    if a.used && a.nextBits == ARC_BITS_MAX {
      var p := a.table[Get(a).next].basecode;
      UnlinkBelow(a.hash[p], Get(a).next, TABLE_SIZE);
    }
  }

  lemma FillWellFormed(a: Arc, base: nat, ch: nat)
    requires WellFormed(a) && !a.used && base < TABLE_SIZE
    ensures a.cur < TABLE_SIZE && WellFormed(Fill(a, base, ch))
  {
    Pow2Table();
    Pow2Mono(a.curBits, ARC_BITS_MAX);
    assert Below(a.hash[base], TABLE_SIZE);
  }

  // ---- The invariant ----

  ghost predicate Spells(a: Arc, d: Dict, c: nat)
    requires Shape(a)
  {
    if c < a.MinEntry() then c in d && d[c] == [c]
    else c in d ==>
      && c < Pow2(a.curBits) && c < TABLE_SIZE
      && a.table[c].basecode in d
      && d[c] == d[a.table[c].basecode] + [a.table[c].ch]
  }

  ghost predicate Listed(a: Arc, d: Dict, p: nat)
    requires Shape(a) && p < TABLE_SIZE
  {
    && Distinct(a.hash[p])
    && (forall c :: c in a.hash[p] <==> c in d && a.MinEntry() <= c < TABLE_SIZE && a.table[c].basecode == p)
  }

  ghost predicate Free(a: Arc, d: Dict)
  {
    && a.next !in d
    && (!a.used ==> a.cur !in d && a.cur != a.next)
    && (a.nextBits < ARC_BITS_MAX ==>
          && a.next == a.freeIdx - 1
          && (forall c :: c in d && c >= a.MinEntry() ==> c < a.next)
          && a.cur < a.next)
    && (a.nextBits == ARC_BITS_MAX ==>
          a.next == a.freeIdx || (a.freeIdx + 1 < a.freeLimit && a.freeIdx + 1 !in d && a.next < a.freeIdx && a.cur < a.freeIdx))
  }

  ghost predicate Inv(a: Arc, d: Dict)
  {
    && Shape(a)
    && (forall c: nat :: Spells(a, d, c))
    && (forall p: nat :: p < TABLE_SIZE ==> Listed(a, d, p))
    && Free(a, d)
    && (forall c :: Pow2(a.curBits) <= c < TABLE_SIZE ==> a.table[c] == Entry(0, 0))
  }

  // ---- Leaves exist ----

  // Below every entry there is a leaf; strings get longer on the way down, so the walk ends.
  lemma {:induction false} LeafBelow(a: Arc, d: Dict, c: nat) returns (z: nat)
    requires Inv(a, d) && c in d && a.MinEntry() <= c < TABLE_SIZE
    ensures z in d && a.MinEntry() <= z < TABLE_SIZE && a.hash[z] == []
    decreases set k | k in d && |d[k]| > |d[c]|
  {
    if a.hash[c] == [] {
      z := c;
    } else {
      var k := a.hash[c][0];
      assert Listed(a, d, c) && k in a.hash[c];
      assert Spells(a, d, k);
      var below, here := (set j | j in d && |d[j]| > |d[k]|), (set j | j in d && |d[j]| > |d[c]|);
      assert k in here && k !in below;
      assert below < here;
      z := LeafBelow(a, d, k);
    }
  }

  lemma HasMember(l: seq<nat>)
    ensures l == [] || exists k: nat :: k in l
  {
    if l != [] {
      assert l[0] in l;
    }
  }

  lemma DeadIsLeaf(a: Arc, d: Dict, c: nat)
    requires Inv(a, d) && c < TABLE_SIZE && c !in d
    ensures a.hash[c] == []
  {
    assert Listed(a, d, c);
    forall k: nat
      ensures k !in a.hash[c]
    {
      assert Spells(a, d, k);
    }
    HasMember(a.hash[c]);
  }

  lemma LeafHasNoChildren(a: Arc, d: Dict, x: nat)
    requires Inv(a, d) && x < TABLE_SIZE && a.hash[x] == []
    ensures forall c: nat :: c in d && a.MinEntry() <= c < TABLE_SIZE ==> a.table[c].basecode != x
  {
    assert Listed(a, d, x);
  }

  // Some leaf stands nearer to the search's start than the entry about to become current.
  lemma LeafAhead(a: Arc, d: Dict) returns (z: nat)
    requires Inv(a, d) && a.used && a.nextBits == ARC_BITS_MAX
    ensures a.MinEntry() <= z < a.freeLimit && a.hash[z] == []
    ensures Distance(a.freeIdx, z, a.MinEntry(), a.freeLimit) <
            Distance(a.freeIdx, a.next, a.MinEntry(), a.freeLimit)
  {
    Pow2Table();
    if a.next == a.freeIdx {
      var y := Following(a.freeIdx, a.MinEntry(), a.freeLimit);
      if y in d {
        z := LeafBelow(a, d, y);
      } else {
        DeadIsLeaf(a, d, y);
        z := y;
      }
    } else {
      z := a.freeIdx + 1;
      DeadIsLeaf(a, d, z);
    }
  }

  /** The recycle search of a full table ends on an entry without children that is not the one
      about to become current. */
  lemma RecycleFindsLeaf(a: Arc, d: Dict)
    requires Inv(a, d) && a.used && a.nextBits == ARC_BITS_MAX
    ensures Get(a).next != a.next && a.MinEntry() <= Get(a).next < TABLE_SIZE && a.hash[Get(a).next] == []
  {
    var z := LeafAhead(a, d);
    LeafAfterFinds(a.hash, a.freeIdx, a.MinEntry(), a.freeLimit, a.freeLimit, z);
  }

  // A live code's string goes on to a longer one that is known.
  ghost predicate Extended(a: Arc, d: Dict, y: nat)
    requires Shape(a)
  {
    exists c :: c in d && a.MinEntry() <= c < TABLE_SIZE && a.table[c].basecode == y
  }

  /** The string a full table forgets goes on to no other known string, and of those that stand nearer to the
      entry recycled last each one does. */
  lemma RecyclesNearest(a: Arc, d: Dict)
    requires Inv(a, d) && a.used && a.nextBits == ARC_BITS_MAX
    ensures var r := Get(a).next;
            Recycles(a, Get(a)) && !Extended(a, d, r) && forall y: nat :: Nearer(a, y, r) ==> Extended(a, d, y)
  {
    RecycleFindsLeaf(a, d);
    assert a.freeLimit == TABLE_SIZE by { Pow2Table(); }
    GetTakes(a);
    var r := Get(a).next;
    LeafHasNoChildren(a, d, r);
    forall y: nat | a.MinEntry() <= y < a.freeLimit && a.hash[y] != []
      ensures Extended(a, d, y)
    {
      assert Listed(a, d, y) && a.hash[y][0] in a.hash[y];
    }
  }

  // ---- Both steps keep the invariant ----

  lemma GetGrowing(a: Arc, d: Dict)
    requires Inv(a, d) && a.used && a.nextBits < ARC_BITS_MAX
    ensures Inv(Get(a), d) && Get(a).next !in d
  {
    Pow2Table();
    Pow2Mono(a.curBits, a.nextBits);
    Pow2Mono(a.nextBits + 1, ARC_BITS_MAX);
    var g := Get(a);
    forall c: nat
      ensures Spells(g, d, c)
    {
      assert Spells(a, d, c);
    }
    forall p: nat | p < TABLE_SIZE
      ensures Listed(g, d, p)
    {
      assert Listed(a, d, p);
    }
  }

  lemma GetRecycling(a: Arc, d: Dict)
    requires Inv(a, d) && a.used && a.nextBits == ARC_BITS_MAX
    ensures Inv(Get(a), d - {Get(a).next as nat})
  {
    Pow2Table();
    RecycleFindsLeaf(a, d);
    Pow2Mono(a.curBits, a.nextBits);
    var g := Get(a);
    var r: nat := g.next;
    var e := d - {r};
    var p0 := a.table[r].basecode;
    assert Listed(a, d, p0);
    LeafHasNoChildren(a, d, r);
    UnlinkRemovesOne(a.hash[p0], r);
    forall c: nat
      ensures Spells(g, e, c)
    {
      assert Spells(a, d, c);
    }
    forall p: nat | p < TABLE_SIZE
      ensures Listed(g, e, p)
    {
      assert Listed(a, d, p);
    }
  }

  // The codes that stay live through ArcEntryGet.
  ghost function AfterGet(a: Arc, d: Dict): Dict
    requires Shape(a)
  {
    if a.used then d - {Get(a).next as nat} else d
  }

  /** ArcEntryGet keeps the invariant; the only code it can retire is the new next entry, and the
      old next entry becomes current at the old next width. */
  lemma GetKeepsInv(a: Arc, d: Dict)
    requires Inv(a, d)
    ensures Inv(Get(a), AfterGet(a, d))
    ensures a.used ==> Get(a).cur == a.next && Get(a).curBits == a.nextBits && Get(a).next != Get(a).cur
    ensures Get(a).cur != NONE && !Get(a).used
    ensures Get(a).minBits == a.minBits
    ensures forall c :: c in AfterGet(a, d) ==> c in d && AfterGet(a, d)[c] == d[c]
  {
    if a.used {
      if a.nextBits < ARC_BITS_MAX {
        GetGrowing(a, d);
        assert AfterGet(a, d) == d;
      } else {
        GetRecycling(a, d);
      }
    }
  }

  function AfterFill(a: Arc, d: Dict, base: nat, ch: nat): Dict
    requires a.cur >= 0 && base in d
  {
    d[a.cur as nat := d[base] + [ch]]
  }

  lemma InvWellFormed(a: Arc, d: Dict)
    requires Inv(a, d)
    ensures WellFormed(a)
  {
    forall p | 0 <= p < TABLE_SIZE
      ensures Below(a.hash[p], TABLE_SIZE)
    {
      assert Listed(a, d, p);
      assert forall i :: 0 <= i < |a.hash[p]| ==> a.hash[p][i] in a.hash[p];
    }
  }

  lemma FillSpells(a: Arc, d: Dict, base: nat, ch: nat, c: nat)
    requires Inv(a, d) && !a.used && base in d && base < TABLE_SIZE
    requires Shape(Fill(a, base, ch))
    ensures Spells(Fill(a, base, ch), AfterFill(a, d, base, ch), c)
  {
    Pow2Table();
    Pow2Mono(a.curBits, ARC_BITS_MAX);
    DeadIsLeaf(a, d, a.cur);
    LeafHasNoChildren(a, d, a.cur);
    assert Spells(a, d, c) && Spells(a, d, base);
  }

  lemma FillLists(a: Arc, d: Dict, base: nat, ch: nat, p: nat)
    requires Inv(a, d) && !a.used && base in d && base < TABLE_SIZE && p < TABLE_SIZE
    requires Shape(Fill(a, base, ch))
    ensures Listed(Fill(a, base, ch), AfterFill(a, d, base, ch), p)
  {
    Pow2Table();
    Pow2Mono(a.curBits, ARC_BITS_MAX);
    assert Listed(a, d, p);
    var f := Fill(a, base, ch);
    assert p == base ==> forall c :: c in f.hash[p] <==> c == a.cur || c in a.hash[p];
  }

  lemma FillKeepsInv(a: Arc, d: Dict, base: nat, ch: nat)
    requires Inv(a, d) && !a.used && base in d
    ensures base < TABLE_SIZE && a.cur < TABLE_SIZE
    ensures Inv(Fill(a, base, ch), AfterFill(a, d, base, ch))
  {
    Pow2Table();
    Pow2Mono(a.curBits, ARC_BITS_MAX);
    assert Spells(a, d, base);
    InvWellFormed(a, d);
    FillWellFormed(a, base, ch);
    forall c: nat { FillSpells(a, d, base, ch, c); }
    forall p: nat | p < TABLE_SIZE { FillLists(a, d, base, ch, p); }
  }

  // ---- How long a live string can be ----

  function Range(lo: nat, hi: nat): (r: set<nat>)
    requires lo <= hi
    ensures |r| == hi - lo && forall k :: k in r <==> lo <= k < hi
    decreases hi - lo
  {
    if lo == hi then {} else {lo} + Range(lo + 1, hi)
  }

  lemma {:induction false} SubsetCard(s: set<nat>, t: set<nat>)
    requires s <= t
    ensures |s| <= |t|
    ensures s < t ==> |s| < |t|
  {
    if s != {} {
      var x :| x in s;
      SubsetCard(s - {x}, t - {x});
    }
  }

  ghost function AtMost(a: Arc, d: Dict, n: nat): set<nat>
  {
    set k | k in d && a.MinEntry() <= k < TABLE_SIZE && |d[k]| <= n
  }

  lemma {:induction false} LengthByAncestors(a: Arc, d: Dict, c: nat)
    requires Inv(a, d) && c in d
    ensures 1 <= |d[c]| <= 1 + |AtMost(a, d, |d[c]|)|
    ensures c < TABLE_SIZE
    decreases |d[c]|
  {
    assert Spells(a, d, c);
    if c >= a.MinEntry() {
      var b := a.table[c].basecode;
      LengthByAncestors(a, d, b);
      var small, big := AtMost(a, d, |d[b]|), AtMost(a, d, |d[c]|);
      assert c in big && c !in small;
      assert small < big;
      SubsetCard(small, big);
    }
  }

  /** No live code spells a string longer than the entries the table has room for. */
  lemma LengthBound(a: Arc, d: Dict, c: nat)
    requires Inv(a, d) && c in d
    ensures 1 <= |d[c]| <= TABLE_SIZE - a.MinEntry() + 1
    ensures c < Pow2(a.curBits) && c < TABLE_SIZE
  {
    Pow2Mono(a.minBits, a.curBits);
    assert Spells(a, d, c);
    LengthByAncestors(a, d, c);
    SubsetCard(AtMost(a, d, |d[c]|), Range(a.MinEntry(), TABLE_SIZE));
  }

  // ---- A new control block ----

  function Blank(minBits: nat): Arc
  {
    Arc(minBits, seq(TABLE_SIZE, _ => Entry(0, 0)), seq(TABLE_SIZE, _ => []),
        Pow2(minBits), Pow2(minBits + 1), NONE, NONE, 0, minBits + 1, true)
  }

  ghost function New(minBits: nat): Arc
    requires minBits == 7 || minBits == 8
  {
    Pow2Table();
    Get(Blank(minBits)).(used := true)
  }

  function Roots(minBits: nat): Dict
  {
    map c: nat | 0 <= c < Pow2(minBits) :: [c]
  }

  lemma NewInv(minBits: nat)
    requires minBits == 7 || minBits == 8
    ensures Inv(New(minBits), Roots(minBits))
  {
    Pow2Table();
  }
}

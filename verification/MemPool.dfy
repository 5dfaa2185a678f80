/** The page pool: a list blocks are carved from, lists of exact sizes, and lists by power of two
    (HolyCRT/Mem/MemPag.HC, HolyCRT/Mem/BlkPool.HC). */
module MemPool {
  import opened Bits
  import opened ListBags

  const MEM_PAG_SIZE: nat := 512
  const MEM_FREE_PAG_HASH_SIZE: nat := 256
  const MEM_EXTRA_HASH2_PAGS: nat := 2
  const HASH2_SIZE: nat := 55         // 64 - MEM_PAG_BITS
  const SIZEOF_BLK_POOL: nat := 2528
  const MAX_PAGS: nat := 0x1_0000_0000  // CMemBlk.pags has 32 bits

  // Pages page, ..., page + pags - 1; the block's header is at the start of the first.
  datatype MemBlk = MemBlk(page: int, pags: nat)

  datatype Option<T> = None | Some(value: T)

  predicate Holds(b: MemBlk, p: int)
  {
    b.page <= p < b.page + b.pags
  }

  ghost function PagesOf(b: MemBlk): set<int>
  {
    set p | b.page <= p < b.page + b.pags && Holds(b, p)
  }

  // ---- Lists of blocks ----

  function Sum(s: seq<MemBlk>): nat
  {
    if s == [] then 0 else s[0].pags + Sum(s[1..])
  }

  function SumAll(ls: seq<seq<MemBlk>>): nat
  {
    if ls == [] then 0 else Sum(ls[0]) + SumAll(ls[1..])
  }

  lemma {:induction false} PutSum(ls: seq<seq<MemBlk>>, k: nat, x: seq<MemBlk>)
    requires k < |ls|
    ensures SumAll(ls[k := x]) + Sum(ls[k]) == SumAll(ls) + Sum(x)
  {
    if k == 0 {
      assert ls[k := x][1..] == ls[1..];
    } else {
      PutSum(ls[1..], k - 1, x);
      assert ls[k := x][1..] == ls[1..][k - 1 := x];
    }
  }

  /** Blocks pass from one list to another. */
  lemma Pass(ls: seq<seq<MemBlk>>, i: nat, j: nat, x: seq<MemBlk>, y: seq<MemBlk>)
    requires i < |ls| && j < |ls| && i != j
    requires multiset(x) + multiset(y) == multiset(ls[i]) + multiset(ls[j])
    requires Sum(x) + Sum(y) == Sum(ls[i]) + Sum(ls[j])
    ensures BagAll(ls[i := x][j := y]) == BagAll(ls) && SumAll(ls[i := x][j := y]) == SumAll(ls)
  {
    Transfer(ls, i, j, x, y);
    PutSum(ls, i, x);
    PutSum(ls[i := x], j, y);
  }

  lemma {:induction false} SumPut(s: seq<MemBlk>, k: nat, b: MemBlk)
    requires k < |s|
    ensures Sum(s[k := b]) + s[k].pags == Sum(s) + b.pags
    ensures Sum(s[..k] + s[k + 1..]) + s[k].pags == Sum(s)
  {
    if k == 0 {
      assert s[k := b][1..] == s[1..] && s[..k] + s[k + 1..] == s[1..];
    } else {
      SumPut(s[1..], k - 1, b);
      assert s[k := b][1..] == s[1..][k - 1 := b];
      assert (s[..k] + s[k + 1..])[1..] == s[1..][..k - 1] + s[1..][k..];
    }
  }

  lemma {:induction false} SumAppend(s: seq<MemBlk>, b: MemBlk)
    ensures Sum(s + [b]) == Sum(s) + b.pags
  {
    if s != [] {
      assert (s + [b])[1..] == s[1..] + [b];
      SumAppend(s[1..], b);
    }
  }

  // ---- Blocks and pages ----

  lemma {:induction false} SumAllAppend(ls: seq<seq<MemBlk>>, x: seq<MemBlk>)
    ensures SumAll(ls + [x]) == SumAll(ls) + Sum(x)
  {
    if ls != [] {
      assert (ls + [x])[1..] == ls[1..] + [x];
      SumAllAppend(ls[1..], x);
    }
  }

  predicate Apart(a: MemBlk, b: MemBlk)
  {
    a.page + a.pags <= b.page || b.page + b.pags <= a.page
  }

  /** Every page given to the pool is in exactly one of the blocks. */
  ghost predicate Partition(m: multiset<MemBlk>, pages: set<int>)
  {
    && (forall b :: b in m ==> m[b] == 1 && 0 < b.pags < MAX_PAGS && PagesOf(b) <= pages)
    && (forall a, b :: a in m && b in m && a != b ==> Apart(a, b))
    && (forall p :: p in pages ==> exists b :: b in m && Holds(b, p))
  }

  // A block at address 0 would end the list it is in.
  ghost predicate Positive(pages: set<int>)
  {
    forall p :: p in pages ==> p > 0
  }

  /** A block is cut in two. */
  lemma Cut(m: multiset<MemBlk>, pages: set<int>, b: MemBlk, n: nat, after: multiset<MemBlk>)
    requires Partition(m, pages) && b in m && 0 < n < b.pags
    requires after + multiset{b} == m + multiset{MemBlk(b.page, b.pags - n), MemBlk(b.page + b.pags - n, n)}
    ensures Partition(after, pages)
  {
    var x, y := MemBlk(b.page, b.pags - n), MemBlk(b.page + b.pags - n, n);
    CutCounts(m, pages, b, n, after);
    assert forall p :: Holds(b, p) <==> Holds(x, p) || Holds(y, p);
    forall c, d | c in after && d in after && c != d
      ensures Apart(c, d)
    {
      assert (c in m || c == x || c == y) && (d in m || d == x || d == y);
      assert c in m && c != b ==> Apart(c, b);
      assert d in m && d != b ==> Apart(b, d);
    }
    forall p | p in pages
      ensures exists c :: c in after && Holds(c, p)
    {
      var c :| c in m && Holds(c, p);
      assert (if c != b then c else if Holds(x, p) then x else y) in after;
    }
  }

  lemma CutCounts(m: multiset<MemBlk>, pages: set<int>, b: MemBlk, n: nat, after: multiset<MemBlk>)
    requires Partition(m, pages) && b in m && 0 < n < b.pags
    requires after + multiset{b} == m + multiset{MemBlk(b.page, b.pags - n), MemBlk(b.page + b.pags - n, n)}
    ensures var x, y := MemBlk(b.page, b.pags - n), MemBlk(b.page + b.pags - n, n);
            forall c :: after[c] == if c == x || c == y then 1 else if c == b then 0 else m[c]
  {
    var x, y := MemBlk(b.page, b.pags - n), MemBlk(b.page + b.pags - n, n);
    assert Holds(b, b.page) && Holds(b, b.page + b.pags - n);
    assert forall c :: c in m && c != b ==> Apart(c, b) && c != x && c != y;
    forall c
      ensures after[c] == if c == x || c == y then 1 else if c == b then 0 else m[c]
    {
      assert (after + multiset{b})[c] == (m + multiset{x, y})[c];
    }
  }

  /** A block of new pages joins. */
  lemma Join(m: multiset<MemBlk>, pages: set<int>, b: MemBlk)
    requires Partition(m, pages) && 0 < b.pags < MAX_PAGS && PagesOf(b) !! pages
    ensures Partition(m + multiset{b}, pages + PagesOf(b))
  {
    assert b.page in PagesOf(b);
    forall c | c in m
      ensures Apart(b, c) && c != b
    {
      assert c.page in PagesOf(c);
      assert b.page <= c.page < b.page + b.pags ==> c.page in PagesOf(b);
      assert c.page <= b.page < c.page + c.pags ==> b.page in PagesOf(c);
    }
    forall p | p in pages + PagesOf(b)
      ensures exists c :: c in m + multiset{b} && Holds(c, p)
    {
      if p in pages {
        var c :| c in m && Holds(c, p);
        assert c in m + multiset{b};
      } else {
        assert Holds(b, p) && b in m + multiset{b};
      }
    }
  }

  // The position of the highest bit.
  function Bsr(n: nat): (i: nat)
    requires n > 0
    ensures Pow2(i) <= n < 2 * Pow2(i)
  {
    if n == 1 then 0 else 1 + Bsr(n / 2)
  }

  ghost predicate IsPow2(n: nat)
  {
    exists k: nat :: n == Pow2(k)
  }

  // The power of two past n.
  function PastPow2(n: nat): (r: nat)
    requires n > 0
    ensures n < r <= 2 * n && IsPow2(r)
  {
    assert Pow2(Bsr(n) + 1) == 2 * Pow2(Bsr(n));
    Pow2(Bsr(n) + 1)
  }

  // The pages a request takes from a block that is larger: big ones round up to a little more than a
  // power of two.
  function Rounded(pags: nat): (n: nat)
    requires pags > 0
    ensures n >= pags && (pags < MEM_FREE_PAG_HASH_SIZE ==> n == pags)
    ensures pags >= MEM_FREE_PAG_HASH_SIZE ==>
              pags < n <= 2 * pags - MEM_EXTRA_HASH2_PAGS && IsPow2(n - MEM_EXTRA_HASH2_PAGS)
  {
    if pags < MEM_FREE_PAG_HASH_SIZE then pags
    else PastPow2(pags - MEM_EXTRA_HASH2_PAGS) + MEM_EXTRA_HASH2_PAGS
  }

  // The search for a freed larger block starts past this list. Small requests start past the list of blocks
  // of about twice MEM_FREE_PAG_HASH_SIZE pages.
  function Start(pags: nat): (i: nat)
    requires pags > 0
    ensures pags < MEM_FREE_PAG_HASH_SIZE ==> Pow2(i) == 2 * MEM_FREE_PAG_HASH_SIZE
    ensures pags >= MEM_FREE_PAG_HASH_SIZE ==> Pow2(i) + MEM_EXTRA_HASH2_PAGS == Rounded(pags)
  {
    assert Pow2(9) == 512 by { assert Pow2(4) == 16; }
    if pags < MEM_FREE_PAG_HASH_SIZE then 9 else Bsr(pags - MEM_EXTRA_HASH2_PAGS) + 1
  }

  // The list by power of two a block of so many pages waits in.
  ghost predicate ListFor(pags: nat, k: nat)
  {
    Pow2(k) + MEM_EXTRA_HASH2_PAGS <= pags < 2 * Pow2(k) + MEM_EXTRA_HASH2_PAGS
  }

  // The first block of a list that has n pages.
  ghost predicate FirstFit(free: seq<MemBlk>, n: nat, k: nat)
  {
    k < |free| && free[k].pags >= n && forall j :: 0 <= j < k ==> free[j].pags < n
  }

  /** Block res is n pages off the top of the first block that has them; a block used up goes. */
  ghost predicate Carved(free: seq<MemBlk>, now: seq<MemBlk>, n: nat, res: MemBlk)
  {
    exists k: nat :: FirstFit(free, n, k) && CarvedAt(free, now, n, res, k)
  }

  ghost predicate CarvedAt(free: seq<MemBlk>, now: seq<MemBlk>, n: nat, res: MemBlk, k: nat)
  {
    && k < |free| && free[k].pags >= n && res == MemBlk(free[k].page + free[k].pags - n, n)
    && now == if free[k].pags == n then free[..k] + free[k + 1..]
              else free[k := MemBlk(free[k].page, free[k].pags - n)]
  }

  // Block res was the first of list k.
  ghost predicate TookHead(ls: seq<seq<MemBlk>>, now: seq<seq<MemBlk>>, k: nat, res: MemBlk)
  {
    k < |ls| && ls[k] != [] && res == ls[k][0] && now == ls[k := ls[k][1..]]
  }

  // It was the first block of the first list past list i that has any.
  ghost predicate TookLarger(ls: seq<seq<MemBlk>>, now: seq<seq<MemBlk>>, i: nat, res: MemBlk)
  {
    exists k: nat :: i < k && TookHead(ls, now, k, res) && forall j :: i < j < k && j < |ls| ==> ls[j] == []
  }

  // Requests the index arithmetic is safe for: not empty, and no more than fits the last list but one.
  ghost predicate Askable(pags: int)
  {
    0 < pags && pags < Pow2(HASH2_SIZE - 2) + MEM_EXTRA_HASH2_PAGS
  }

  lemma StartInTable(pags: nat)
    requires Askable(pags)
    ensures Start(pags) < HASH2_SIZE - 1
  {
    if pags >= MEM_FREE_PAG_HASH_SIZE {
      var i := Bsr(pags - MEM_EXTRA_HASH2_PAGS);
      if i >= HASH2_SIZE - 2 {
        Pow2Mono(HASH2_SIZE - 2, i);
      }
    }
  }

  /** The pool's accounts: ls are all its lists, the live blocks last. */
  ghost predicate Books(ls: seq<seq<MemBlk>>, pages: set<int>, alloced: int, used: int)
  {
    && |ls| > 0 && Partition(BagAll(ls), pages) && Positive(pages)
    && used == Sum(ls[|ls| - 1]) * MEM_PAG_SIZE && alloced == SumAll(ls) * MEM_PAG_SIZE
  }

  lemma {:induction false} NoBooks(ls: seq<seq<MemBlk>>)
    requires |ls| > 0 && forall i :: 0 <= i < |ls| ==> ls[i] == []
    ensures Books(ls, {}, 0, 0)
  {
    EmptyLists(ls);
  }

  lemma {:induction false} EmptyLists(ls: seq<seq<MemBlk>>)
    requires forall i :: 0 <= i < |ls| ==> ls[i] == []
    ensures BagAll(ls) == multiset{} && SumAll(ls) == 0
  {
    if ls != [] {
      EmptyLists(ls[1..]);
    }
  }

  // New pages at the head of the first list.
  lemma BooksGrow(ls: seq<seq<MemBlk>>, pages: set<int>, alloced: int, used: int, m: MemBlk)
    requires Books(ls, pages, alloced, used) && |ls| > 1
    requires 0 < m.pags < MAX_PAGS && m.page > 0 && PagesOf(m) !! pages
    ensures Books(ls[0 := [m] + ls[0]], pages + PagesOf(m), alloced + m.pags * MEM_PAG_SIZE, used)
  {
    hide Partition, BagAll, SumAll;
    Join(BagAll(ls), pages, m);
    Added(ls, 0, m);
    SumHead([m] + ls[0]);
    assert ([m] + ls[0])[1..] == ls[0];
    PutSum(ls, 0, [m] + ls[0]);
  }

  // Block i of a list goes live.
  lemma BooksTake(ls: seq<seq<MemBlk>>, pages: set<int>, alloced: int, used: int, at: nat, i: nat)
    requires Books(ls, pages, alloced, used) && at < |ls| - 1 && i < |ls[at]|
    ensures var b, last := ls[at][i], ls[|ls| - 1];
            Books(ls[at := ls[at][..i] + ls[at][i + 1..]][|ls| - 1 := last + [b]], pages, alloced, used + b.pags * MEM_PAG_SIZE)
  {
    hide Partition, BagAll, SumAll, Sum;
    var b, last := ls[at][i], ls[|ls| - 1];
    SumPut(ls[at], i, b);
    BagRemove(ls[at], i);
    SumAppend(last, b);
    Pass(ls, at, |ls| - 1, ls[at][..i] + ls[at][i + 1..], last + [b]);
  }

  // Live block j goes to the head of a list.
  lemma BooksGive(ls: seq<seq<MemBlk>>, pages: set<int>, alloced: int, used: int, at: nat, j: nat)
    requires Books(ls, pages, alloced, used) && at < |ls| - 1 && j < |ls[|ls| - 1]|
    ensures var last := ls[|ls| - 1];
            Books(ls[at := [last[j]] + ls[at]][|ls| - 1 := last[..j] + last[j + 1..]], pages, alloced,
                  used - last[j].pags * MEM_PAG_SIZE)
  {
    hide Partition, BagAll, SumAll, Sum;
    var last := ls[|ls| - 1];
    var list := [last[j]] + ls[at];
    SumPut(last, j, last[j]);
    BagRemove(last, j);
    assert list[1..] == ls[at];
    SumHead(list);
    BagHead(list);
    Pass(ls, at, |ls| - 1, list, last[..j] + last[j + 1..]);
  }

  // Block k of the first list is cut, the top part going live.
  lemma BooksCut(ls: seq<seq<MemBlk>>, pages: set<int>, alloced: int, used: int, k: nat, n: nat)
    requires Books(ls, pages, alloced, used) && |ls| > 1 && k < |ls[0]| && 0 < n < ls[0][k].pags
    ensures var b, last := ls[0][k], ls[|ls| - 1];
            var x, y := MemBlk(b.page, b.pags - n), MemBlk(b.page + b.pags - n, n);
            Books(ls[0 := ls[0][k := x]][|ls| - 1 := last + [y]], pages, alloced, used + n * MEM_PAG_SIZE)
  {
    hide Partition, BagAll, SumAll, Sum;
    var b, last := ls[0][k], ls[|ls| - 1];
    var x, y := MemBlk(b.page, b.pags - n), MemBlk(b.page + b.pags - n, n);
    var mid := ls[0 := ls[0][k := x]];
    var out := mid[|ls| - 1 := last + [y]];
    PutSum(ls, 0, ls[0][k := x]);
    PutSum(mid, |ls| - 1, last + [y]);
    SumPut(ls[0], k, x);
    SumAppend(last, y);
    InList(ls, 0, b);
    Split(ls, 0, k, x, |ls| - 1, y);
    Cut(BagAll(ls), pages, b, n, BagAll(out));
  }

  lemma SumHead(s: seq<MemBlk>)
    requires s != []
    ensures Sum(s) == s[0].pags + Sum(s[1..])
  {
  }

  class CBlkPool {
    var memFreeLst: seq<MemBlk>
    const freePagHash: array<seq<MemBlk>>
    const freePagHash2: array<seq<MemBlk>>
    var allocedU8s: int
    var usedU8s: int
    ghost var live: seq<MemBlk>  // allocated blocks
    ghost var pages: set<int>    // all pages given to the pool
    ghost const header: nat      // pages of the pool's own record

    ghost function Repr(): set<object>
    {
      {this, freePagHash, freePagHash2}
    }

    // All lists, the live blocks last.
    ghost function Lists(): (ls: seq<seq<MemBlk>>)
      reads Repr()
      ensures |ls| == freePagHash.Length + freePagHash2.Length + 2
    {
      AllOf(memFreeLst, freePagHash[..], freePagHash2[..], live)
    }

    static ghost function AllOf(free: seq<MemBlk>, h: seq<seq<MemBlk>>, h2: seq<seq<MemBlk>>, l: seq<MemBlk>)
      : (ls: seq<seq<MemBlk>>)
      ensures |ls| == |h| + |h2| + 2 && ls[0] == free && ls[|ls| - 1] == l
    {
      [free] + h + h2 + [l]
    }

    static lemma EmptyBooks(h: seq<seq<MemBlk>>, h2: seq<seq<MemBlk>>)
      requires (forall i :: 0 <= i < |h| ==> h[i] == []) && forall i :: 0 <= i < |h2| ==> h2[i] == []
      ensures Books(AllOf([], h, h2, []), {}, 0, 0)
    {
      hide Books;
      NoBooks(AllOf([], h, h2, []));
    }

    static lemma AllOfPut(free: seq<MemBlk>, h: seq<seq<MemBlk>>, h2: seq<seq<MemBlk>>, l: seq<MemBlk>, k: nat,
        x: seq<MemBlk>)
      ensures AllOf(x, h, h2, l) == AllOf(free, h, h2, l)[0 := x]
      ensures AllOf(free, h, h2, x) == AllOf(free, h, h2, l)[|h| + |h2| + 1 := x]
      ensures k < |h| ==>
                && AllOf(free, h, h2, l)[1 + k] == h[k]
                && AllOf(free, h[k := x], h2, l) == AllOf(free, h, h2, l)[1 + k := x]
      ensures k < |h2| ==>
                && AllOf(free, h, h2, l)[1 + |h| + k] == h2[k]
                && AllOf(free, h, h2[k := x], l) == AllOf(free, h, h2, l)[1 + |h| + k := x]
    {
    }

    // Each freed block waits in the list its size belongs to.
    ghost predicate Sorted()
      reads Repr()
    {
      && freePagHash.Length == MEM_FREE_PAG_HASH_SIZE && freePagHash2.Length == HASH2_SIZE
      && freePagHash != freePagHash2
      && (forall k, j :: 0 <= k < MEM_FREE_PAG_HASH_SIZE && 0 <= j < |freePagHash[k]| ==> freePagHash[k][j].pags == k)
      && (forall k, j :: 0 <= k < HASH2_SIZE && 0 <= j < |freePagHash2[k]| ==> ListFor(freePagHash2[k][j].pags, k))
    }

    ghost predicate Valid()
      reads Repr()
    {
      Sorted() && Books(Lists(), pages, allocedU8s - header * MEM_PAG_SIZE, usedU8s)
    }

    // The first page behind a pool record at addr.
    static function FirstPage(addr: nat): (m: nat)
      ensures m > 0 && m >= addr / MEM_PAG_SIZE
      ensures m * MEM_PAG_SIZE >= addr + SIZEOF_BLK_POOL > (m - 1) * MEM_PAG_SIZE
    {
      (addr + SIZEOF_BLK_POOL + MEM_PAG_SIZE - 1) / MEM_PAG_SIZE
    }

    static lemma PagesEnd(addr: nat, pags: nat)
      ensures (addr + pags * MEM_PAG_SIZE) / MEM_PAG_SIZE == addr / MEM_PAG_SIZE + pags
    {
    }

    /** BlkPoolInit: the pool's record lies at the start of the memory it is given. */
    constructor (addr: nat, pags: nat)
      requires FirstPage(addr) < addr / MEM_PAG_SIZE + pags && pags < MAX_PAGS
      ensures Valid() && live == [] && allocedU8s == pags * MEM_PAG_SIZE && fresh(Repr() - {this})
      ensures pages == PagesOf(MemBlk(FirstPage(addr), pags - header))
      ensures header == FirstPage(addr) - addr / MEM_PAG_SIZE
      ensures memFreeLst == [MemBlk(FirstPage(addr), pags - header)]
      ensures forall k :: 0 <= k < freePagHash.Length ==> freePagHash[k] == []
      ensures forall k :: 0 <= k < freePagHash2.Length ==> freePagHash2[k] == []
    {
      hide FirstPage, Books, AllOf, PagesOf, ListFor;
      freePagHash := new seq<MemBlk>[MEM_FREE_PAG_HASH_SIZE](_ => []);
      freePagHash2 := new seq<MemBlk>[HASH2_SIZE](_ => []);
      memFreeLst, live, pages := [], [], {};
      PagesEnd(addr, pags);
      var m := FirstPage(addr);
      var num := (addr + pags * MEM_PAG_SIZE) / MEM_PAG_SIZE - m;
      allocedU8s, usedU8s := (pags - num) * MEM_PAG_SIZE, 0;
      header := pags - num;
      new;
      EmptyBooks(freePagHash[..], freePagHash2[..]);
      assert Valid();
      hide Valid;
      BlkPoolAdd(MemBlk(m, num));
    }

    /** BlkPoolAdd: more memory for the pool. */
    method BlkPoolAdd(m: MemBlk)
      requires Valid() && 0 < m.pags < MAX_PAGS && m.page > 0 && PagesOf(m) !! pages
      modifies this
      ensures Valid() && pages == old(pages) + PagesOf(m) && live == old(live)
      ensures allocedU8s == old(allocedU8s) + m.pags * MEM_PAG_SIZE && usedU8s == old(usedU8s)
      ensures memFreeLst == [m] + old(memFreeLst)
    {
      hide Books, AllOf, PagesOf;
      BooksGrow(Lists(), pages, allocedU8s - header * MEM_PAG_SIZE, usedU8s, m);
      AllOfPut(memFreeLst, freePagHash[..], freePagHash2[..], live, 0, [m] + memFreeLst);
      memFreeLst := [m] + memFreeLst;
      allocedU8s := allocedU8s + m.pags * MEM_PAG_SIZE;
      pages := pages + PagesOf(m);
    }

    // What a request finds nothing in.
    ghost predicate NoFit(pags: nat)
      requires Sorted() && Askable(pags)
      reads Repr()
    {
      && (pags < MEM_FREE_PAG_HASH_SIZE ==> freePagHash[pags] == [])
      && (StartInTable(pags); pags >= MEM_FREE_PAG_HASH_SIZE ==> freePagHash2[Start(pags)] == [])
      && (forall i :: 0 <= i < |memFreeLst| ==> memFreeLst[i].pags < Rounded(pags))
      && (forall k :: Start(pags) < k < HASH2_SIZE ==> freePagHash2[k] == [])
    }

    // The blocks that wait for requests of this size.
    ghost function Exact(pags: nat): seq<MemBlk>
      requires Sorted() && Askable(pags)
      reads Repr()
    {
      if pags < MEM_FREE_PAG_HASH_SIZE then freePagHash[pags] else StartInTable(pags); freePagHash2[Start(pags)]
    }

    // The carving list has a block to cut the request from.
    ghost predicate CanCarve(pags: nat)
      requires pags > 0
      reads this
    {
      exists k :: 0 <= k < |memFreeLst| && memFreeLst[k].pags >= Rounded(pags)
    }

    // A freed block of at least so many pages waits.
    ghost predicate LongWaits(pags: nat)
      requires freePagHash2.Length == HASH2_SIZE
      reads freePagHash2
    {
      exists k, j :: 0 <= k < HASH2_SIZE && 0 <= j < |freePagHash2[k]| && freePagHash2[k][j].pags >= pags
    }

    /** Told from the sizes alone: a short request fails exactly if no freed block has its size, no block to
        carve from is long enough, and no freed block has 1026 pages or more. Freed blocks of 256 to 1025
        pages do not help. */
    lemma ShortFailsExactly(pags: nat)
      requires Sorted() && 0 < pags < MEM_FREE_PAG_HASH_SIZE && Askable(pags)
      ensures NoFit(pags) <==>
                && freePagHash[pags] == [] && (forall i :: 0 <= i < |memFreeLst| ==> memFreeLst[i].pags < pags)
                && !LongWaits(4 * MEM_FREE_PAG_HASH_SIZE + MEM_EXTRA_HASH2_PAGS)
    {
      hide Pow2;
      var i := Start(pags);
      StartInTable(pags);
      if LongWaits(4 * MEM_FREE_PAG_HASH_SIZE + MEM_EXTRA_HASH2_PAGS) {
        var k, j :| 0 <= k < HASH2_SIZE && 0 <= j < |freePagHash2[k]| &&
                    freePagHash2[k][j].pags >= 4 * MEM_FREE_PAG_HASH_SIZE + MEM_EXTRA_HASH2_PAGS;
        assert ListFor(freePagHash2[k][j].pags, k);
        if k <= i {
          Pow2Mono(k, i);
          assert false;
        }
      }
      forall k | i < k < HASH2_SIZE && freePagHash2[k] != []
        ensures LongWaits(4 * MEM_FREE_PAG_HASH_SIZE + MEM_EXTRA_HASH2_PAGS)
      {
        Pow2Mono(i, k);
        assert ListFor(freePagHash2[k][0].pags, k);
      }
    }

    // The first block of a list becomes live.
    method TakeHead(ls: array<seq<MemBlk>>, k: nat) returns (res: MemBlk)
      requires Valid() && (ls == freePagHash || ls == freePagHash2) && k < ls.Length && ls[k] != []
      modifies ls, `usedU8s, `live
      ensures Valid() && res == old(ls[k][0]) && live == old(live) + [res]
      ensures usedU8s == old(usedU8s) + res.pags * MEM_PAG_SIZE
      ensures TookHead(old(ls[..]), ls[..], k, res)
    {
      hide Books, AllOf;
      res := ls[k][0];
      ghost var at := if ls == freePagHash then 1 + k else 1 + freePagHash.Length + k;
      ghost var h, h2 := freePagHash[..], freePagHash2[..];
      AllOfPut(memFreeLst, h, h2, live, k, ls[k][1..]);
      BooksTake(Lists(), pages, allocedU8s - header * MEM_PAG_SIZE, usedU8s, at, 0);
      assert ls[k][..0] + ls[k][1..] == ls[k][1..];
      ls[k] := ls[k][1..];
      AllOfPut(memFreeLst, freePagHash[..], freePagHash2[..], live, 0, live + [res]);
      live := live + [res];
      usedU8s := usedU8s + res.pags * MEM_PAG_SIZE;
      assert freePagHash[..] == (if ls == freePagHash then h[k := ls[k]] else h);
      assert freePagHash2[..] == (if ls == freePagHash then h2 else h2[k := ls[k]]);
    }

    // Pages off the top of a block of the carving list, or all of it if it fits exactly.
    method Carve(k: nat, pags: nat) returns (res: MemBlk)
      requires Valid() && k < |memFreeLst| && 0 < pags <= memFreeLst[k].pags
      modifies `memFreeLst, `usedU8s, `live
      ensures Valid() && res.pags == pags && live == old(live) + [res]
      ensures usedU8s == old(usedU8s) + res.pags * MEM_PAG_SIZE
      ensures CarvedAt(old(memFreeLst), memFreeLst, pags, res, k)
    {
      hide Books, AllOf;
      var b := memFreeLst[k];
      if b.pags == pags {
        res := b;
        BooksTake(Lists(), pages, allocedU8s - header * MEM_PAG_SIZE, usedU8s, 0, k);
        memFreeLst := memFreeLst[..k] + memFreeLst[k + 1..];
      } else {
        res := MemBlk(b.page + b.pags - pags, pags);
        BooksCut(Lists(), pages, allocedU8s - header * MEM_PAG_SIZE, usedU8s, k, pags);
        memFreeLst := memFreeLst[k := MemBlk(b.page, b.pags - pags)];
      }
      AllOfPut(old(memFreeLst), freePagHash[..], freePagHash2[..], live, 0, memFreeLst);
      AllOfPut(memFreeLst, freePagHash[..], freePagHash2[..], live, 0, live + [res]);
      live := live + [res];
      usedU8s := usedU8s + res.pags * MEM_PAG_SIZE;
    }

    /** No page is in two blocks: not in two free ones, not in two live ones, not in a free and a
        live one. */
    lemma NoOverlap(a: nat, i: nat, b: nat, j: nat)
      requires Valid() && a <= b < |Lists()| && i < |Lists()[a]| && j < |Lists()[b]| && (a == b ==> i < j)
      ensures Apart(Lists()[a][i], Lists()[b][j]) && PagesOf(Lists()[a][i]) <= pages
    {
      var ls := Lists();
      hide Lists;
      InList(ls, a, ls[a][i]);
      InList(ls, b, ls[b][j]);
      if ls[a][i] == ls[b][j] {
        Twice(ls, a, i, b, j);
      }
    }

    /** No block handed out is at NULL. */
    lemma LivePositive(i: nat)
      requires Valid() && i < |live|
      ensures 0 < live[i].pags < MAX_PAGS && forall p :: Holds(live[i], p) ==> p > 0
    {
      hide AllOf;
      var ls := Lists();
      assert ls[|ls| - 1] == live;
      InList(ls, |ls| - 1, live[i]);
      assert forall p :: Holds(live[i], p) ==> p in PagesOf(live[i]);
    }

    /** Over every run, what was given to the pool and is not in use is free, but for the pool's own
        record. */
    lemma Conservation()
      requires Valid()
      ensures allocedU8s - usedU8s == (SumAll([memFreeLst] + freePagHash[..] + freePagHash2[..]) + header) * MEM_PAG_SIZE
    {
      SumAllAppend([memFreeLst] + freePagHash[..] + freePagHash2[..], live);
    }

    // First fit in the carving list.
    method FromCarveList(pags: nat) returns (res: Option<MemBlk>)
      requires Valid() && pags > 0
      modifies `memFreeLst, `usedU8s, `live
      ensures Valid()
      ensures res.None? <==> forall j :: 0 <= j < |old(memFreeLst)| ==> old(memFreeLst)[j].pags < pags
      ensures res.None? ==> live == old(live) && usedU8s == old(usedU8s) && memFreeLst == old(memFreeLst)
      ensures res.Some? ==>
                && res.value.pags == pags && live == old(live) + [res.value]
                && usedU8s == old(usedU8s) + res.value.pags * MEM_PAG_SIZE
                && Carved(old(memFreeLst), memFreeLst, pags, res.value)
    {
      hide *;
      var k := 0;
      while k < |memFreeLst|
        invariant 0 <= k <= |memFreeLst|
        invariant forall j :: 0 <= j < k ==> memFreeLst[j].pags < pags
      {
        if memFreeLst[k].pags >= pags {
          assert FirstFit(memFreeLst, pags, k) by { FitsFirst(memFreeLst, pags, k); }
          ghost var was := memFreeLst;
          var b := Carve(k, pags);
          CarvedFirst(was, memFreeLst, pags, b, k);
          return Some(b);
        }
        k := k + 1;
      }
      res := None;
    }

    static lemma FitsFirst(free: seq<MemBlk>, n: nat, k: nat)
      requires k < |free| && free[k].pags >= n && forall j :: 0 <= j < k ==> free[j].pags < n
      ensures FirstFit(free, n, k)
    {
    }

    static lemma CarvedFirst(free: seq<MemBlk>, now: seq<MemBlk>, n: nat, res: MemBlk, k: nat)
      requires FirstFit(free, n, k) && CarvedAt(free, now, n, res, k)
      ensures Carved(free, now, n, res)
    {
    }

    // Any longer freed block, whole; the search goes on from list i.
    method FromLarger(pags: nat, start: nat) returns (res: Option<MemBlk>)
      requires Valid() && start < HASH2_SIZE - 1
      modifies freePagHash2, `usedU8s, `live
      ensures Valid()
      ensures res.None? <==> forall j :: start < j < HASH2_SIZE ==> old(freePagHash2[j]) == []
      ensures res.None? ==> live == old(live) && usedU8s == old(usedU8s) && freePagHash2[..] == old(freePagHash2[..])
      ensures res.Some? ==>
                && res.value.pags >= Pow2(start) + MEM_EXTRA_HASH2_PAGS && live == old(live) + [res.value]
                && usedU8s == old(usedU8s) + res.value.pags * MEM_PAG_SIZE
                && TookLarger(old(freePagHash2[..]), freePagHash2[..], start, res.value)
    {
      hide Books;
      var i := start;
      while true
        invariant start <= i < HASH2_SIZE - 1
        invariant forall j :: start < j <= i ==> freePagHash2[j] == []
        decreases HASH2_SIZE - i
      {
        i := i + 1;
        if freePagHash2[i] != [] {
          Pow2Mono(start, i);
          var b := TakeHead(freePagHash2, i);
          return Some(b);
        }
        if i >= HASH2_SIZE - 1 {
          break;
        }
      }
      res := None;
    }

    /** MemPagAlloc: a list of blocks of the right size serves first, then the first block of the
        carving list that is large enough, then any longer freed block whole. */
    method MemPagAlloc(pags: int) returns (res: Option<MemBlk>)
      requires Valid() && Askable(pags)
      modifies Repr()
      ensures Valid() && pages == old(pages) && allocedU8s == old(allocedU8s)
      ensures res.None? <==> old(NoFit(pags))
      ensures res.None? ==> live == old(live) && usedU8s == old(usedU8s)
      ensures res.Some? ==>
                && res.value.pags >= pags && live == old(live) + [res.value]
                && usedU8s == old(usedU8s) + res.value.pags * MEM_PAG_SIZE
      ensures old(Exact(pags)) != [] ==>
                && res == Some(old(Exact(pags))[0]) && Exact(pags) == old(Exact(pags))[1..] && memFreeLst == old(memFreeLst)
                && if pags < MEM_FREE_PAG_HASH_SIZE then TookHead(old(freePagHash[..]), freePagHash[..], pags, res.value)
                   else TookHead(old(freePagHash2[..]), freePagHash2[..], Start(pags), res.value)
      ensures old(Exact(pags)) == [] && old(CanCarve(pags)) ==>
                && res.Some? && Carved(old(memFreeLst), memFreeLst, Rounded(pags), res.value)
                && freePagHash[..] == old(freePagHash[..]) && freePagHash2[..] == old(freePagHash2[..])
      ensures old(Exact(pags)) == [] && !old(CanCarve(pags)) && res.Some? ==>
                && TookLarger(old(freePagHash2[..]), freePagHash2[..], Start(pags), res.value)
                && memFreeLst == old(memFreeLst) && freePagHash[..] == old(freePagHash[..])
    {
      hide Books, Bsr, Start, Rounded, Carved, TookLarger;
      assert pags > 0;
      StartInTable(pags);
      LargerServes(pags);
      if pags < MEM_FREE_PAG_HASH_SIZE {
        if freePagHash[pags] != [] {
          var b := TakeHead(freePagHash, pags);
          return Some(b);
        }
      } else if freePagHash2[Start(pags)] != [] {
        var b := TakeHead(freePagHash2, Start(pags));
        return Some(b);
      }
      res := FromCarveList(Rounded(pags));
      if res.None? {
        res := FromLarger(pags, Start(pags));
      }
    }

    static lemma LargerServes(pags: nat)
      requires pags > 0
      ensures Pow2(Start(pags)) + MEM_EXTRA_HASH2_PAGS >= pags
    {
      if pags < MEM_FREE_PAG_HASH_SIZE {
        assert Pow2(9) == 512;
      }
    }

    /** MemPagFree: the live block m, number j of them, becomes the first of the list its size belongs to. */
    method MemPagFree(m: MemBlk, ghost j: nat)
      requires Valid() && j < |live| && live[j] == m
      modifies Repr()
      ensures Valid() && Sorted() && pages == old(pages) && allocedU8s == old(allocedU8s) && memFreeLst == old(memFreeLst)
      ensures usedU8s == old(usedU8s) - m.pags * MEM_PAG_SIZE
      ensures live == old(live)[..j] + old(live)[j + 1..]
      ensures m.pags < MEM_FREE_PAG_HASH_SIZE ==>
                && freePagHash[..] == old(freePagHash[..])[m.pags := [m] + old(freePagHash[m.pags])]
                && freePagHash2[..] == old(freePagHash2[..])
      ensures m.pags >= MEM_FREE_PAG_HASH_SIZE ==>
                freePagHash[..] == old(freePagHash[..]) && GaveHead(old(freePagHash2[..]), freePagHash2[..], m)
      ensures forall p: nat :: Askable(p) && ServesRequest(m.pags, p) ==> !NoFit(p)
    {
      LiveInTable(j);
      hide Books, Pow2, Bsr, Askable, ServesRequest, NoFit;
      if m.pags < MEM_FREE_PAG_HASH_SIZE {
        PutHead(freePagHash, m.pags, m, j);
      } else {
        var i := Bsr(m.pags - MEM_EXTRA_HASH2_PAGS);
        BsrList(m.pags, i);
        PutHead(freePagHash2, i, m, j);
        GaveAt(old(freePagHash2[..]), freePagHash2[..], m, i);
      }
      forall p: nat | Askable(p) && ServesRequest(m.pags, p)
        ensures !NoFit(p)
      {
        FreedFits(m, p);
      }
    }

    // A block of so many pages that waits in its list is found by a request: a short one serves requests of
    // its own size, a long one every long request it can hold once that is rounded up.
    static ghost predicate ServesRequest(size: nat, pags: nat)
    {
      && 0 < pags
      && if pags < MEM_FREE_PAG_HASH_SIZE then size == pags || size >= 4 * MEM_FREE_PAG_HASH_SIZE + MEM_EXTRA_HASH2_PAGS
         else size >= Rounded(pags)
    }

    // Block m has become the first of the list by power of two that its size belongs to.
    static ghost predicate GaveHead(ls: seq<seq<MemBlk>>, now: seq<seq<MemBlk>>, m: MemBlk)
    {
      exists k: nat :: ListFor(m.pags, k) && GaveHeadAt(ls, now, m, k)
    }

    static ghost predicate GaveHeadAt(ls: seq<seq<MemBlk>>, now: seq<seq<MemBlk>>, m: MemBlk, k: nat)
    {
      k < |ls| && now == ls[k := [m] + ls[k]]
    }

    static lemma BsrList(pags: nat, i: nat)
      requires pags >= MEM_FREE_PAG_HASH_SIZE && i == Bsr(pags - MEM_EXTRA_HASH2_PAGS)
      ensures ListFor(pags, i)
    {
    }

    static lemma GaveAt(ls: seq<seq<MemBlk>>, now: seq<seq<MemBlk>>, m: MemBlk, i: nat)
      requires m.pags >= MEM_FREE_PAG_HASH_SIZE && i == Bsr(m.pags - MEM_EXTRA_HASH2_PAGS) && GaveHeadAt(ls, now, m, i)
      ensures GaveHead(ls, now, m)
    {
      assert ListFor(m.pags, i);
    }

    // The list a long block waits in is one a request that it can hold comes to.
    static lemma ListReached(size: nat, pags: nat, k: nat)
      requires ListFor(size, k) && ServesRequest(size, pags) && size >= MEM_FREE_PAG_HASH_SIZE
      ensures if pags < MEM_FREE_PAG_HASH_SIZE then k > Start(pags) else k >= Start(pags)
    {
      hide Rounded, Start, Pow2;
      var i := Start(pags);
      if k < i {
        Pow2Mono(k, i);
      } else if k == i && pags < MEM_FREE_PAG_HASH_SIZE {
        assert false;
      }
    }

    lemma FreedFits(m: MemBlk, pags: nat)
      requires Sorted() && Askable(pags) && ServesRequest(m.pags, pags)
      requires m.pags < MEM_FREE_PAG_HASH_SIZE ==> freePagHash[m.pags] != []
      requires m.pags >= MEM_FREE_PAG_HASH_SIZE ==> exists k: nat :: ListFor(m.pags, k) && k < HASH2_SIZE && freePagHash2[k] != []
      ensures !NoFit(pags)
    {
      StartInTable(pags);
      if m.pags >= MEM_FREE_PAG_HASH_SIZE {
        var k: nat :| ListFor(m.pags, k) && k < HASH2_SIZE && freePagHash2[k] != [];
        ListReached(m.pags, pags, k);
      }
    }

    /** What is given back can be had again: a block freed, and a request after it that it serves. */
    method FreeThenAlloc(m: MemBlk, ghost j: nat, pags: nat) returns (res: Option<MemBlk>)
      requires Valid() && j < |live| && live[j] == m && Askable(pags) && ServesRequest(m.pags, pags)
      modifies Repr()
      ensures Valid() && res.Some? && res.value.pags >= pags
      ensures m.pags == pags < MEM_FREE_PAG_HASH_SIZE ==> res == Some(m) && usedU8s == old(usedU8s)
    {
      hide Books, Askable, ServesRequest, NoFit, TookHead, Carved, TookLarger, GaveHead;
      MemPagFree(m, j);
      res := MemPagAlloc(pags);
    }

    // Lists by power of two reach as far as blocks do.
    lemma LiveInTable(j: nat)
      requires Valid() && j < |live|
      ensures live[j].pags >= MEM_FREE_PAG_HASH_SIZE ==> Bsr(live[j].pags - MEM_EXTRA_HASH2_PAGS) < HASH2_SIZE
    {
      LivePositive(j);
      hide *;
      if live[j].pags >= MEM_FREE_PAG_HASH_SIZE {
        BsrInTable(live[j].pags - MEM_EXTRA_HASH2_PAGS);
      }
    }

    static lemma BsrInTable(n: nat)
      requires 0 < n < MAX_PAGS
      ensures Bsr(n) < HASH2_SIZE
    {
      hide Pow2, Bsr;
      Pow2Of32();
      var i := Bsr(n);
      if i >= 32 {
        Pow2Mono(32, i);
      }
    }

    static lemma Pow2Of32()
      ensures Pow2(32) == MAX_PAGS
    {
      assert Pow2(8) == 256;
      hide Pow2;
      Pow2Add(8, 8);
      Pow2Add(16, 16);
    }

    // The live block at position j becomes the first of a list.
    method PutHead(ls: array<seq<MemBlk>>, k: nat, m: MemBlk, ghost j: nat)
      requires Valid() && j < |live| && live[j] == m && (ls == freePagHash || ls == freePagHash2) && k < ls.Length
      requires if ls == freePagHash then m.pags == k else ListFor(m.pags, k)
      modifies ls, `usedU8s, `live
      ensures Valid() && usedU8s == old(usedU8s) - m.pags * MEM_PAG_SIZE
      ensures live == old(live)[..j] + old(live)[j + 1..]
      ensures ls[..] == old(ls[..])[k := [m] + old(ls[k])]
    {
      hide Books, Pow2, AllOf;
      ghost var rest, list := live[..j] + live[j + 1..], [m] + ls[k];
      ghost var at := if ls == freePagHash then 1 + k else 1 + freePagHash.Length + k;
      ghost var h, h2 := freePagHash[..], freePagHash2[..];
      AllOfPut(memFreeLst, h, h2, live, k, list);
      BooksGive(Lists(), pages, allocedU8s - header * MEM_PAG_SIZE, usedU8s, at, j);
      ls[k] := [m] + ls[k];
      AllOfPut(memFreeLst, freePagHash[..], freePagHash2[..], live, 0, rest);
      live := rest;
      usedU8s := usedU8s - m.pags * MEM_PAG_SIZE;
      assert freePagHash[..] == (if ls == freePagHash then h[k := list] else h);
      assert freePagHash2[..] == (if ls == freePagHash then h2 else h2[k := list]);
    }
  }

  lemma Rounds256()
    ensures Rounded(256) == 258 && Askable(256) && Askable(1) && !CBlkPool.ServesRequest(258, 1)
    ensures forall k: nat :: ListFor(258, k) ==> k == 8
  {
    assert Bsr(3) == 1 && Bsr(15) == 3 && Bsr(63) == 5 && Bsr(254) == 7;
    assert Pow2(4) == 16 && Pow2(8) == 256 && Pow2(9) == 512;
    Pow2Mono(9, HASH2_SIZE - 2);
    forall k: nat | ListFor(258, k)
      ensures k == 8
    {
      if k < 8 {
        Pow2Mono(k + 1, 8);
      } else if k > 8 {
        Pow2Mono(9, k);
      }
    }
  }

  // A block of 258 pages is all there is to carve from.
  lemma CarvesAll(page: int, now: seq<MemBlk>, res: MemBlk)
    requires Carved([MemBlk(page, 258)], now, 258, res)
    ensures now == [] && res == MemBlk(page, 258)
  {
    var free := [MemBlk(page, 258)];
    var k: nat :| FirstFit(free, 258, k) && CarvedAt(free, now, 258, res, k);
    assert k == 0 && free[..0] + free[1..] == [];
  }

  // Given back, it waits in a list no request for one page comes to.
  lemma WaitsUnseen(ls: seq<seq<MemBlk>>, now: seq<seq<MemBlk>>, m: MemBlk)
    requires m.pags == 258 && CBlkPool.GaveHead(ls, now, m) && forall k :: 0 <= k < |ls| ==> ls[k] == []
    ensures |now| == |ls| && forall k :: Start(1) < k < |now| ==> now[k] == []
  {
    Rounds256();
    var k: nat :| ListFor(m.pags, k) && CBlkPool.GaveHeadAt(ls, now, m, k);
  }

  /** A run that shows it: all of a pool's 258 pages are handed out and given back, and a request for one page
      is then out of memory. */
  method ShortStarves() returns (bp: CBlkPool, res: Option<MemBlk>)
    ensures fresh(bp.Repr()) && bp.Valid() && bp.pages == PagesOf(MemBlk(6, 258)) && bp.live == [] && res.None?
  {
    hide Books, Bsr, Pow2, Rounded, Carved, TookHead, TookLarger, ListFor, CBlkPool.GaveHead, CBlkPool.ServesRequest, PagesOf;
    Rounds256();
    bp := new CBlkPool(512, 263);
    assert bp.memFreeLst == [MemBlk(6, 258)];
    assert bp.memFreeLst[0].pags == 258 && bp.CanCarve(256);
    StartInTable(256);
    assert bp.Exact(256) == [];
    var b := bp.MemPagAlloc(256);
    assert Carved([MemBlk(6, 258)], bp.memFreeLst, 258, b.value);
    CarvesAll(6, bp.memFreeLst, b.value);
    ghost var ls := bp.freePagHash2[..];
    bp.MemPagFree(b.value, 0);
    WaitsUnseen(ls, bp.freePagHash2[..], b.value);
    res := bp.MemPagAlloc(1);
  }
}

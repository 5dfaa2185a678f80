/** The disk block cache: a queue of entries in order of age, buckets by block number, and the block
    reads and writes that go through it (HolyCRT/BlkDev/DskCache.HC, HolyCRT/BlkDev/DskBlk.HC). */
module DskCache {
  const DSK_CACHE_HASH_SIZE: nat := 0x2000
  const NULL: nat := 0

  type Block = seq<nat>

  // A drive: its device and the blocks of it that are the drive's, and the device's flags. Drive
  // numbers start at 1.
  datatype Drv = Drv(dsk: array<Block>, offset: nat, size: nat, readCache: bool, readOnly: bool)

  predicate Allowed(d: Drv, blk: nat, cnt: nat)
  {
    d.offset <= blk && blk + cnt <= d.offset + d.size
  }

  // Two drives do not share a block of a device.
  ghost predicate Separate(drvs: seq<Drv>)
  {
    && (forall d :: 0 <= d < |drvs| ==> drvs[d].offset + drvs[d].size <= drvs[d].dsk.Length)
    && forall d, e, b :: 0 <= d < e < |drvs| && drvs[d].dsk == drvs[e].dsk ==>
         !(Allowed(drvs[d], b, 1) && Allowed(drvs[e], b, 1))
  }

  // ---- Lists ----

  ghost predicate Distinct(s: seq<nat>)
  {
    forall i, j :: 0 <= i < j < |s| ==> s[i] != s[j]
  }

  // The list without t.
  function Without(s: seq<nat>, t: nat): (r: seq<nat>)
    ensures forall x :: x in r <==> x in s && x != t
    ensures Distinct(s) ==> Distinct(r)
    ensures |r| <= |s|
  {
    if s == [] then []
    else
      assert forall x :: x in s <==> x == s[0] || x in s[1..];
      assert Distinct(s) ==> Distinct(s[1..]) && s[0] !in s[1..];
      if s[0] == t then Without(s[1..], t) else [s[0]] + Without(s[1..], t)
  }

  lemma {:induction false} WithoutAt(s: seq<nat>, i: nat)
    requires Distinct(s) && i < |s|
    ensures Without(s, s[i]) == s[..i] + s[i + 1..]
  {
    if i == 0 {
      WithoutNone(s[1..], s[0]);
      assert s[..0] + s[1..] == s[1..];
    } else {
      WithoutAt(s[1..], i - 1);
      assert [s[0]] + (s[1..][..i - 1] + s[1..][i..]) == s[..i] + s[i + 1..];
    }
  }

  lemma {:induction false} WithoutNone(s: seq<nat>, t: nat)
    requires t !in s
    ensures Without(s, t) == s
  {
    if s != [] {
      WithoutNone(s[1..], t);
    }
  }

  function Bucket(blk: nat): (b: nat)
    ensures b < DSK_CACHE_HASH_SIZE
  {
    blk % DSK_CACHE_HASH_SIZE
  }

  lemma HeadDistinct(s: seq<nat>, t: nat)
    ensures Distinct(s) && t !in s ==> Distinct([t] + s) && Distinct(s + [t])
  {
  }

  // ---- Keys in order of age ----

  // The drive and block an entry holds.
  type Key = (nat, nat)

  ghost function KeysOf(lru: seq<nat>, dv: seq<nat>, blk: seq<nat>): (ks: seq<Key>)
    requires |dv| == |blk| && forall i :: 0 <= i < |lru| ==> lru[i] < |dv|
    ensures |ks| == |lru| && forall i :: 0 <= i < |lru| ==> ks[i] == (dv[lru[i]], blk[lru[i]])
  {
    seq(|lru|, i requires 0 <= i < |lru| => (dv[lru[i]], blk[lru[i]]))
  }

  // Key k is the youngest now: in place of itself if it was held, else in place of the oldest.
  ghost predicate Renewed(was: seq<Key>, now: seq<Key>, k: Key)
  {
    if k in was then exists i: nat :: i < |was| && was[i] == k && now == was[..i] + was[i + 1..] + [k]
    else was != [] && now == was[1..] + [k]
  }

  // Blocks b, b + 1, ..., b + n - 1 of drive d.
  function Range(d: nat, b: nat, n: nat): (ks: seq<Key>)
    ensures |ks| == n && forall i :: 0 <= i < n ==> ks[i] == (d, b + i)
  {
    seq(n, i requires 0 <= i => (d, b + i))
  }

  predicate InRange(k: Key, d: nat, b: nat, n: nat)
  {
    k.0 == d && b <= k.1 < b + n
  }

  // The keys of other blocks, in their order.
  ghost function Others(ks: seq<Key>, d: nat, b: nat, n: nat): seq<Key>
  {
    if ks == [] then []
    else
      var init, last := Others(ks[..|ks| - 1], d, b, n), ks[|ks| - 1];
      if InRange(last, d, b, n) then init else init + [last]
  }

  // A key is held once.
  ghost predicate OnceIn(ks: seq<Key>, k: Key)
  {
    forall i, j :: 0 <= i < j < |ks| && ks[i] == k ==> ks[j] != k
  }

  /** After n blocks have been renewed in turn they are the youngest, in that order. Those before them are the
      youngest of the others, in the order they had: the oldest have gone. */
  ghost predicate Aged(was: seq<Key>, now: seq<Key>, d: nat, b: nat, n: nat)
  {
    && |now| == |was| && n <= |was| && now[|was| - n..] == Range(d, b, n)
    && exists m: nat :: m <= |Others(was, d, b, n)| && now[..|was| - n] == Others(was, d, b, n)[m..]
  }

  lemma {:induction false} OthersNone(ks: seq<Key>, d: nat, b: nat)
    ensures Others(ks, d, b, 0) == ks
  {
    if ks != [] {
      OthersNone(ks[..|ks| - 1], d, b);
    }
  }

  // One block more: its key goes from wherever it is.
  lemma {:induction false} OthersMore(ks: seq<Key>, d: nat, b: nat, n: nat)
    requires OnceIn(ks, (d, b + n))
    ensures var k, x, y := (d, b + n), Others(ks, d, b, n), Others(ks, d, b, n + 1);
            && (k !in ks ==> k !in x && y == x) && (k in ks ==> k in x)
            && forall i: nat :: i < |x| && x[i] == k ==> y == x[..i] + x[i + 1..]
  {
    var k, x, y := (d, b + n), Others(ks, d, b, n), Others(ks, d, b, n + 1);
    if ks != [] {
      var init, last := ks[..|ks| - 1], ks[|ks| - 1];
      assert ks == init + [last];
      OthersMore(init, d, b, n);
      var x0, y0 := Others(init, d, b, n), Others(init, d, b, n + 1);
      if last == k {
        assert k !in init && x == x0 + [k] && y == y0 == x0;
        forall i: nat | i < |x| && x[i] == k
          ensures y == x[..i] + x[i + 1..]
        {
          NotBefore(x0, k, i);
        }
      } else if InRange(last, d, b, n) {
      } else {
        forall i: nat | i < |x| && x[i] == k
          ensures y == x[..i] + x[i + 1..]
        {
          assert i < |x0| && x0[i] == k;
          assert x[i + 1..] == x0[i + 1..] + [last];
        }
      }
    }
  }

  lemma NotBefore(s: seq<Key>, k: Key, i: nat)
    requires k !in s && i <= |s| && (s + [k])[i] == k
    ensures i == |s|
  {
  }

  lemma AgedNone(ks: seq<Key>, d: nat, b: nat)
    ensures Aged(ks, ks, d, b, 0)
  {
    OthersNone(ks, d, b);
    assert Others(ks, d, b, 0)[0..] == ks;
  }

  lemma InFront(s: seq<Key>, t: seq<Key>, k: Key, i: nat)
    requires k !in t && i < |s + t| && (s + t)[i] == k
    ensures i < |s| && s[i] == k
  {
  }

  lemma NotInTail(s: seq<Key>, m: nat, k: Key, i: nat)
    requires m <= |s| && k !in s[m..] && i < |s| && s[i] == k
    ensures i < m
  {
    assert forall j :: m <= j < |s| ==> s[j] == s[m..][j - m];
  }

  // The key is held: x are the others so far, of which the oldest m are gone.
  lemma RenewHeld(x: seq<Key>, m: nat, young: seq<Key>, k: Key, i: nat) returns (y: seq<Key>)
    requires m <= |x| && k !in young && i < |x[m..] + young| && (x[m..] + young)[i] == k
    ensures m + i < |x| && x[m + i] == k && y == x[..m + i] + x[m + i + 1..] && m <= |y|
    ensures (x[m..] + young)[..i] + (x[m..] + young)[i + 1..] + [k] == y[m..] + (young + [k])
  {
    var mid := x[m..] + young;
    InFront(x[m..], young, k, i);
    y := x[..m + i] + x[m + i + 1..];
    assert mid[..i] == x[m..m + i] && mid[i + 1..] == x[m + i + 1..] + young;
    assert y[m..] == x[m..m + i] + x[m + i + 1..];
  }

  // The key is not held, though it may be among those gone.
  lemma RenewNew(x: seq<Key>, y: seq<Key>, m: nat, young: seq<Key>, k: Key) returns (o: nat)
    requires m < |x| && k !in x[m..]
    requires (k !in x ==> y == x) && forall i: nat :: i < |x| && x[i] == k ==> y == x[..i] + x[i + 1..]
    ensures o <= |y| && (x[m..] + young)[1..] + [k] == y[o..] + (young + [k])
  {
    assert (x[m..] + young)[1..] == x[m + 1..] + young;
    if k in x {
      var i: nat :| i < |x| && x[i] == k;
      NotInTail(x, m, k, i);
      o := m;
      assert y[o..] == x[m + 1..];
    } else {
      o := m + 1;
    }
  }

  lemma AgedMore(was: seq<Key>, mid: seq<Key>, now: seq<Key>, d: nat, b: nat, n: nat)
    requires Aged(was, mid, d, b, n) && Renewed(mid, now, (d, b + n)) && OnceIn(was, (d, b + n)) && n < |was|
    ensures Aged(was, now, d, b, n + 1)
  {
    hide Others, OnceIn, Range, Renewed;
    var m: nat :| m <= |Others(was, d, b, n)| && mid[..|was| - n] == Others(was, d, b, n)[m..];
    assert mid == Others(was, d, b, n)[m..] + Range(d, b, n);
    hide Aged;
    AgedFrom(was, mid, now, d, b, n, m);
  }

  lemma AgedFrom(was: seq<Key>, mid: seq<Key>, now: seq<Key>, d: nat, b: nat, n: nat, m: nat)
    requires Renewed(mid, now, (d, b + n)) && OnceIn(was, (d, b + n)) && |mid| == |was| > n
    requires m <= |Others(was, d, b, n)| && mid == Others(was, d, b, n)[m..] + Range(d, b, n)
    ensures Aged(was, now, d, b, n + 1)
  {
    hide Others, OnceIn, Range, Aged, Renewed;
    var k, x, young := (d, b + n), Others(was, d, b, n), Range(d, b, n);
    OthersMore(was, d, b, n);
    RangeMore(d, b, n);
    RangeLength(d, b, n);
    var o := RenewOne(x, Others(was, d, b, n + 1), m, young, k, mid, now);
    AgedAt(was, now, d, b, n + 1, o);
  }

  lemma RangeLength(d: nat, b: nat, n: nat)
    ensures |Range(d, b, n)| == n
  {
  }

  lemma RenewOne(x: seq<Key>, y: seq<Key>, m: nat, young: seq<Key>, k: Key, mid: seq<Key>, now: seq<Key>) returns (o: nat)
    requires m < |x| && k !in young && mid == x[m..] + young && Renewed(mid, now, k)
    requires (k !in x ==> y == x) && forall i: nat :: i < |x| && x[i] == k ==> y == x[..i] + x[i + 1..]
    ensures o <= |y| && now == y[o..] + (young + [k]) && |now| == |mid|
  {
    if k in mid {
      var i: nat :| i < |mid| && mid[i] == k && now == mid[..i] + mid[i + 1..] + [k];
      var z := RenewHeld(x, m, young, k, i);
      o := m;
    } else {
      assert forall e :: e in x[m..] ==> e in mid;
      o := RenewNew(x, y, m, young, k);
    }
  }

  /** The same for any number of blocks: of more than there is room for the last ones stay. */
  ghost predicate AgedBy(was: seq<Key>, now: seq<Key>, d: nat, b: nat, n: nat)
  {
    if n <= |was| then Aged(was, now, d, b, n) else now == Range(d, b + n - |was|, |was|)
  }

  lemma AgedByMore(was: seq<Key>, mid: seq<Key>, now: seq<Key>, d: nat, b: nat, n: nat)
    requires AgedBy(was, mid, d, b, n) && Renewed(mid, now, (d, b + n)) && OnceIn(was, (d, b + n)) && was != []
    ensures AgedBy(was, now, d, b, n + 1)
  {
    if n < |was| {
      AgedMore(was, mid, now, d, b, n);
    } else {
      hide Others;
      assert n == |was| ==> mid[0..] == mid;
      assert mid == Range(d, b + n - |was|, |was|);
      assert Range(d, b + n - |was|, |was|)[1..] + [(d, b + n)] == Range(d, b + n + 1 - |was|, |was|);
    }
  }

  // An entry of the queue takes a key over and becomes the youngest.
  lemma KeyMoves(lru: seq<nat>, dv: seq<nat>, blk: seq<nat>, i: nat, d: nat, b: nat)
    requires |dv| == |blk| && (forall j :: 0 <= j < |lru| ==> lru[j] < |dv|) && Distinct(lru) && i < |lru|
    ensures var now := lru[..i] + lru[i + 1..] + [lru[i]]; var ks := KeysOf(lru, dv, blk);
            && (forall j :: 0 <= j < |now| ==> now[j] < |dv|)
            && KeysOf(now, dv[lru[i] := d], blk[lru[i] := b]) == ks[..i] + ks[i + 1..] + [(d, b)]
  {
    var now, t := lru[..i] + lru[i + 1..] + [lru[i]], lru[i];
    assert forall j :: 0 <= j < |lru| - 1 ==> now[j] == lru[if j < i then j else j + 1] && now[j] != t;
  }

  lemma RangeMore(d: nat, b: nat, n: nat)
    ensures Range(d, b, n + 1) == Range(d, b, n) + [(d, b + n)] && (d, b + n) !in Range(d, b, n)
  {
  }

  lemma AgedAt(was: seq<Key>, now: seq<Key>, d: nat, b: nat, n: nat, m: nat)
    requires |now| == |was| && m <= |Others(was, d, b, n)| && now == Others(was, d, b, n)[m..] + Range(d, b, n)
    ensures Aged(was, now, d, b, n)
  {
    hide Others;
    var x := Others(was, d, b, n);
    assert n <= |was| && now[..|was| - n] == x[m..] && now[|was| - n..] == Range(d, b, n);
  }

  class BlkDevCache {
    const drvs: seq<Drv>
    const on: bool                 // there is a cache
    const dv: array<nat>           // NULL for an entry that holds nothing
    const blk: array<nat>
    const body: array<Block>
    const hash: array<seq<nat>>    // newest first
    var lru: seq<nat>              // oldest first

    function Drive(d: nat): Drv
      requires 0 < d <= |drvs|
    {
      drvs[d - 1]
    }

    ghost function Repr(): set<object>
    {
      {this, dv, blk, body, hash}
    }

    ghost predicate Arrays()
    {
      && dv.Length == blk.Length == body.Length > 0 && hash.Length == DSK_CACHE_HASH_SIZE
      && dv != blk && body != hash && dv as object !in {body, hash} && blk as object !in {body, hash}
      && (forall d :: 0 <= d < |drvs| ==> drvs[d].dsk as object !in Repr())
      && Separate(drvs)
    }

    ghost predicate Sits(t: nat, b: nat)
      requires Arrays()
      reads Repr()
    {
      t < dv.Length && dv[t] != NULL && Bucket(blk[t]) == b
    }

    // Each entry is once in the queue, and in its block's bucket exactly while it holds a block.
    ghost predicate Linked()
      reads Repr()
    {
      && Arrays()
      && Distinct(lru) && (forall t: nat :: t in lru <==> t < dv.Length)
      && (forall b :: 0 <= b < DSK_CACHE_HASH_SIZE ==> Distinct(hash[b]))
      && (forall b: nat, t: nat :: b < DSK_CACHE_HASH_SIZE ==>
            (t in hash[b] <==> Sits(t, b)))
    }

    // What the entries hold, oldest first.
    ghost function Keys(): (ks: seq<Key>)
      requires Linked()
      reads Repr()
      ensures |ks| == |lru|
    {
      QueueInside();
      KeysOf(lru, dv[..], blk[..])
    }

    lemma QueueInside()
      requires Linked()
      ensures forall i :: 0 <= i < |lru| ==> lru[i] < dv.Length
    {
      forall i | 0 <= i < |lru|
        ensures lru[i] < dv.Length
      {
        assert lru[i] in lru;
      }
    }

    // A block of a drive is held.
    ghost predicate Held(d: nat, b: nat)
      requires Arrays()
      reads Repr()
    {
      exists t :: 0 <= t < dv.Length && dv[t] == d && blk[t] == b
    }

    ghost predicate AllHeld(d: nat, from: nat, to: nat)
      requires Arrays()
      reads Repr()
    {
      forall c: nat :: from <= c < to ==> Held(d, c)
    }

    lemma HeldIsKey(d: nat, b: nat)
      requires Linked()
      ensures Held(d, b) <==> (d, b) in Keys()
    {
      QueueInside();
      if Held(d, b) {
        var t: nat :| t < dv.Length && dv[t] == d && blk[t] == b;
        assert t in lru;
        var i :| 0 <= i < |lru| && lru[i] == t;
        assert Keys()[i] == (d, b);
      }
    }

    lemma HeldOnce(d: nat, b: nat)
      requires Linked() && Once() && d != NULL
      ensures OnceIn(Keys(), (d, b))
    {
      QueueInside();
      var ks := Keys();
      forall i, j | 0 <= i < j < |ks| && ks[i] == (d, b)
        ensures ks[j] != (d, b)
      {
        assert ks[i] == (dv[lru[i]], blk[lru[i]]) && ks[j] == (dv[lru[j]], blk[lru[j]]) && lru[i] != lru[j];
      }
    }

    // Two entries never hold the same block of the same drive.
    ghost predicate Once()
      reads Repr()
      requires Arrays()
    {
      forall t, u :: 0 <= t < u < dv.Length && dv[t] != NULL && dv[t] == dv[u] ==> blk[t] != blk[u]
    }

    ghost function Disks(): set<object>
    {
      set d | 0 <= d < |drvs| :: drvs[d].dsk
    }

    ghost predicate Holds(t: nat)
      requires Arrays() && t < dv.Length
      reads Repr(), Disks()
    {
      dv[t] != NULL ==>
        && dv[t] <= |drvs| && var d := Drive(dv[t]);
        on && d.readCache && Allowed(d, blk[t], 1) && body[t] == d.dsk[blk[t]]
    }

    /** Every block held is held once, sits in its bucket, and is what the device has. */
    ghost predicate Valid()
      reads Repr(), Disks()
    {
      Linked() && Once() && forall t :: 0 <= t < dv.Length ==> Holds(t)
    }

    /** DskCacheInit: a cache below 8192 bytes is none; otherwise there is room for cnt entries. */
    constructor (drvs: seq<Drv>, size: nat, cnt: nat)
      requires Separate(drvs) && cnt > 0
      ensures Valid() && this.drvs == drvs && fresh(Repr()) && dv.Length == cnt
      ensures (on <==> size >= 0x2000) && forall t :: 0 <= t < cnt ==> dv[t] == NULL
    {
      this.drvs, on := drvs, size >= 0x2000;
      dv := new nat[cnt](_ => NULL);
      blk := new nat[cnt](_ => 0);
      body := new Block[cnt](_ => []);
      hash := new seq<nat>[DSK_CACHE_HASH_SIZE](_ => []);
      lru := Upto(cnt);
    }

    static function Upto(n: nat): (s: seq<nat>)
      ensures |s| == n && (forall i :: 0 <= i < n ==> s[i] == i)
      ensures Distinct(s) && forall t: nat :: t in s <==> t < n
    {
      if n == 0 then [] else Upto(n - 1) + [n - 1]
    }

    /** DskCacheFind. */
    method DskCacheFind(d: nat, b: nat) returns (t: nat)
      requires Linked() && d != NULL
      ensures t < dv.Length ==> dv[t] == d && blk[t] == b
      ensures t >= dv.Length ==> forall u :: 0 <= u < dv.Length ==> !(dv[u] == d && blk[u] == b)
    {
      var list, i := hash[Bucket(b)], 0;
      forall j | 0 <= j < |list|
        ensures list[j] < dv.Length
      {
        assert list[j] in hash[Bucket(b)];
      }
      while i < |list|
        invariant 0 <= i <= |list|
        invariant forall j :: 0 <= j < i ==> !(dv[list[j]] == d && blk[list[j]] == b)
      {
        if dv[list[i]] == d && blk[list[i]] == b {
          return list[i];
        }
        i := i + 1;
      }
      t := dv.Length;
      forall u | 0 <= u < dv.Length
        ensures !(dv[u] == d && blk[u] == b)
      {
        assert Sits(u, Bucket(b)) <==> u in hash[Bucket(b)];
      }
    }

    /** DskCacheQueRem: out of the queue and out of its bucket. */
    method DskCacheQueRem(t: nat)
      requires Linked() && t < dv.Length
      modifies `lru, hash
      ensures lru == Without(old(lru), t)
      ensures forall b :: 0 <= b < DSK_CACHE_HASH_SIZE ==> hash[b] == Without(old(hash[b]), t)
    {
      lru := Without(lru, t);
      hash[Bucket(blk[t])] := Without(hash[Bucket(blk[t])], t);
      forall b | 0 <= b < DSK_CACHE_HASH_SIZE && b != Bucket(blk[t])
        ensures hash[b] == Without(old(hash[b]), t)
      {
        WithoutNone(hash[b], t);
      }
    }

    /** DskCacheQueIns: to the young end of the queue and the head of its bucket. */
    method DskCacheQueIns(t: nat)
      requires Arrays() && t < dv.Length
      modifies `lru, hash
      ensures lru == old(lru) + [t]
      ensures forall b :: 0 <= b < DSK_CACHE_HASH_SIZE ==>
                hash[b] == if b == Bucket(blk[t]) then [t] + old(hash[b]) else old(hash[b])
    {
      lru := lru + [t];
      hash[Bucket(blk[t])] := [t] + hash[Bucket(blk[t])];
    }

    // Entry t takes over a block: out of its lists, rewritten, and in again.
    method Reuse(t: nat, d: nat, b: nat, x: Block)
      requires Linked() && t < dv.Length && d != NULL
      modifies `lru, dv, blk, body, hash
      ensures Linked() && dv[t] == d && blk[t] == b && body[t] == x
      ensures lru == Without(old(lru), t) + [t]
      ensures forall u :: 0 <= u < dv.Length && u != t ==> dv[u] == old(dv[u]) && blk[u] == old(blk[u]) && body[u] == old(body[u])
    {
      DskCacheQueRem(t);
      body[t] := x;
      dv[t] := d;
      blk[t] := b;
      HeadDistinct(lru, t);
      HeadDistinct(hash[Bucket(b)], t);
      DskCacheQueIns(t);
      forall c: nat, u: nat | c < DSK_CACHE_HASH_SIZE
        ensures u in hash[c] <==> Sits(u, c)
      {
        assert u in old(hash[c]) <==> old(Sits(u, c));
      }
    }

    // All entries are good but those for n blocks of drive d from b on.
    ghost predicate GoodBut(d: nat, b: nat, n: nat)
      reads Repr(), Disks()
    {
      && Linked() && Once()
      && forall t :: 0 <= t < dv.Length && !(dv[t] == d && b <= blk[t] < b + n) ==> Holds(t)
    }

    // Without a cache nothing is held.
    ghost predicate Idle()
      requires Arrays()
      reads Repr()
    {
      !on ==> forall t :: 0 <= t < dv.Length ==> dv[t] == NULL
    }

    lemma OffIsIdle()
      requires Valid()
      ensures Idle()
    {
      forall t | 0 <= t < dv.Length && !on
        ensures dv[t] == NULL
      {
        assert Holds(t);
      }
    }

    // Block i of a transfer is alike at both ends.
    ghost predicate Moved(buf: array<Block>, pos: nat, dsk: array<Block>, b: nat, i: nat)
      reads buf, dsk
    {
      pos + i < buf.Length && b + i < dsk.Length && buf[pos + i] == dsk[b + i]
    }

    // The entry that holds a block already, or the oldest one.
    method Choose(d: nat, b: nat) returns (t: nat)
      requires Linked() && Once() && d != NULL
      ensures t < dv.Length
      ensures forall u :: 0 <= u < dv.Length && u != t ==> !(dv[u] == d && blk[u] == b)
      ensures if Held(d, b) then dv[t] == d && blk[t] == b else lru != [] && t == lru[0]
    {
      t := DskCacheFind(d, b);
      if t >= dv.Length {
        OldestFits();
        t := lru[0];
      }
    }

    lemma OldestFits()
      requires Linked()
      ensures |lru| > 0 && lru[0] < dv.Length
    {
      var zero: nat := 0;
      assert zero in lru;
      assert lru[0] in lru;
    }

    lemma Place(t: nat) returns (i: nat)
      requires Linked() && t < dv.Length
      ensures i < |lru| && lru[i] == t && forall j :: 0 <= j < |lru| ==> lru[j] < dv.Length
    {
      QueueInside();
      assert t in lru;
      i :| i < |lru| && lru[i] == t;
    }

    // The entry at position i is the one that holds the block, or the oldest if none does.
    lemma RenewedBy(i: nat, d: nat, b: nat)
      requires Linked() && i < |lru| && lru[i] < dv.Length
      requires if Held(d, b) then dv[lru[i]] == d && blk[lru[i]] == b else lru[i] == lru[0]
      ensures Renewed(Keys(), Keys()[..i] + Keys()[i + 1..] + [(d, b)], (d, b))
    {
      HeldIsKey(d, b);
      assert lru[i] == lru[0] ==> i == 0;
    }

    // An entry is found for a block, and holds it.
    method TakeOver(d: nat, b: nat, x: Block) returns (t: nat)
      requires Linked() && Once() && d != NULL
      modifies `lru, dv, blk, body, hash
      ensures Linked() && t < dv.Length && dv[t] == d && blk[t] == b && body[t] == x
      ensures forall u :: 0 <= u < dv.Length && u != t ==>
                dv[u] == old(dv[u]) && blk[u] == old(blk[u]) && body[u] == old(body[u]) && !(dv[u] == d && blk[u] == b)
      ensures Renewed(old(Keys()), Keys(), (d, b))
    {
      hide Once, Renewed;
      t := Choose(d, b);
      ghost var i := Place(t);
      WithoutAt(lru, i);
      KeyMoves(lru, dv[..], blk[..], i, d, b);
      RenewedBy(i, d, b);
      ghost var was, v, w := Keys(), dv[..], blk[..];
      assert Arrays();
      hide Linked, Distinct;
      Reuse(t, d, b, x);
      assert dv[..] == v[t := d] && blk[..] == w[t := b];
      assert Keys() == was[..i] + was[i + 1..] + [(d, b)];
    }

    method AddOne(d: nat, b: nat, x: Block, ghost n: nat)
      requires 0 < d <= |drvs| && Drive(d).readCache && on && Allowed(Drive(d), b, 1) && GoodBut(d, b, n) && n > 0
      requires x == Drive(d).dsk[b]
      modifies Repr()
      ensures GoodBut(d, b + 1, n - 1) && Renewed(old(Keys()), Keys(), (d, b))
    {
      hide Keys, Renewed, Distinct;
      var t := TakeOver(d, b, x);
      assert Once();
      forall u | 0 <= u < dv.Length && !(dv[u] == d && b + 1 <= blk[u] < b + 1 + (n - 1))
        ensures Holds(u)
      {
        assert u != t ==> old(Holds(u));
      }
    }

    /** DskCacheAdd: blocks just moved to or from the device are held, each in its own old entry or in
        the oldest one. */
    method DskCacheAdd(d: nat, buf: array<Block>, pos: nat, b: nat, cnt: nat)
      requires 0 < d <= |drvs| && Drive(d).readCache && Allowed(Drive(d), b, cnt) && GoodBut(d, b, cnt)
      requires buf as object !in Repr() && pos + cnt <= buf.Length
      requires forall i :: 0 <= i < cnt ==> Moved(buf, pos, Drive(d).dsk, b, i)
      requires Idle()
      modifies Repr()
      ensures Valid()
      ensures if on then AgedBy(old(Keys()), Keys(), d, b, cnt) else Keys() == old(Keys())
    {
      if on {
        AddEach(d, buf, pos, b, cnt);
      }
    }

    // The loop of DskCacheAdd.
    method AddEach(d: nat, buf: array<Block>, pos: nat, b: nat, cnt: nat)
      requires 0 < d <= |drvs| && Drive(d).readCache && on && Allowed(Drive(d), b, cnt) && GoodBut(d, b, cnt)
      requires buf as object !in Repr() && pos + cnt <= buf.Length
      requires forall i :: 0 <= i < cnt ==> Moved(buf, pos, Drive(d).dsk, b, i)
      modifies Repr()
      ensures Valid() && AgedBy(old(Keys()), Keys(), d, b, cnt)
    {
      ghost var was := Keys();
      OldestFits();
      OnceEach(d);
      NoneAged(was, d, b);
      hide AgedBy, Renewed, OnceIn, Once, Linked, Keys;
      var i := 0;
      while i < cnt
        invariant 0 <= i <= cnt && GoodBut(d, b + i, cnt - i) && AgedBy(was, Keys(), d, b, i)
      {
        assert Moved(buf, pos, Drive(d).dsk, b, i);
        ghost var mid := Keys();
        AddOne(d, b + i, buf[pos + i], cnt - i);
        assert OnceIn(was, (d, b + i));
        AgedByMore(was, mid, Keys(), d, b, i);
        i := i + 1;
      }
    }

    static lemma NoneAged(was: seq<Key>, d: nat, b: nat)
      ensures AgedBy(was, was, d, b, 0)
    {
      AgedNone(was, d, b);
    }

    lemma OnceEach(d: nat)
      requires Linked() && Once() && d != NULL
      ensures forall c: nat :: OnceIn(Keys(), (d, c))
    {
      forall c: nat
        ensures OnceIn(Keys(), (d, c))
      {
        HeldOnce(d, c);
      }
    }

    // RCache's first loop: blocks at the front that are held.
    method StripFront(d: nat, buf: array<Block>, b: nat, cnt: nat) returns (pos: nat)
      requires Valid() && 0 < d <= |drvs| && Allowed(Drive(d), b, cnt) && cnt <= buf.Length
      requires buf as object !in Repr() + Disks()
      modifies buf
      ensures pos <= cnt && Valid()
      ensures AllHeld(d, b, b + pos) && (pos < cnt ==> !Held(d, b + pos))
      ensures forall i :: 0 <= i < pos ==> buf[i] == Drive(d).dsk[b + i]
      ensures forall i :: pos <= i < buf.Length ==> buf[i] == old(buf[i])
    {
      hide Once, Distinct, Sits, Bucket;
      assert Arrays();
      pos := 0;
      while pos < cnt
        invariant Valid() && pos <= cnt
        invariant AllHeld(d, b, b + pos)
        invariant forall i :: 0 <= i < pos ==> buf[i] == Drive(d).dsk[b + i]
        invariant forall i :: pos <= i < buf.Length ==> buf[i] == old(buf[i])
      {
        var t := DskCacheFind(d, b + pos);
        if t >= dv.Length {
          break;
        }
        assert Holds(t);
        buf[pos] := body[t];
        pos := pos + 1;
      }
    }

    // RCache's second loop: of the n blocks from pos on, those at the back that are held.
    method StripBack(d: nat, buf: array<Block>, b: nat, pos: nat, n: nat) returns (left: nat)
      requires Valid() && 0 < d <= |drvs| && Allowed(Drive(d), b, pos + n) && pos + n <= buf.Length
      requires buf as object !in Repr() + Disks()
      modifies buf
      ensures left <= n && Valid()
      ensures AllHeld(d, b + pos + left, b + pos + n) && (left > 0 ==> !Held(d, b + pos + left - 1))
      ensures forall i :: pos + left <= i < pos + n ==> buf[i] == Drive(d).dsk[b + i]
      ensures forall i :: 0 <= i < buf.Length && !(pos + left <= i < pos + n) ==> buf[i] == old(buf[i])
    {
      hide Once, Distinct, Sits, Bucket;
      left := n;
      while left > 0
        invariant Valid() && left <= n
        invariant AllHeld(d, b + pos + left, b + pos + n)
        invariant forall i :: pos + left <= i < pos + n ==> buf[i] == Drive(d).dsk[b + i]
        invariant forall i :: 0 <= i < buf.Length && !(pos + left <= i < pos + n) ==> buf[i] == old(buf[i])
      {
        var t := DskCacheFind(d, b + pos + left - 1);
        if t >= dv.Length {
          break;
        }
        assert Holds(t);
        buf[pos + left - 1] := body[t];
        left := left - 1;
      }
    }

    /** Of cnt blocks from b on, those before position pos and those after the n next are held, and the two
        at the ends of what is between are not. */
    ghost predicate Missing(d: nat, b: nat, cnt: nat, pos: nat, n: nat)
      requires Arrays()
      reads Repr()
    {
      && pos + n <= cnt && AllHeld(d, b, b + pos) && AllHeld(d, b + pos + n, b + cnt)
      && (n > 0 ==> !Held(d, b + pos) && !Held(d, b + pos + n - 1))
    }

    /** RCache: blocks at the front and at the back that are held are copied from the cache; what is
        left to read starts at pos and is n blocks long. */
    method RCache(d: nat, buf: array<Block>, b: nat, cnt: nat) returns (pos: nat, n: nat)
      requires Valid() && 0 < d <= |drvs| && Allowed(Drive(d), b, cnt) && cnt <= buf.Length
      requires buf as object !in Repr() + Disks()
      modifies buf
      ensures pos + n <= cnt && Valid() && if on then Missing(d, b, cnt, pos, n) else pos == 0 && n == cnt
      ensures forall i :: 0 <= i < cnt && !(pos <= i < pos + n) ==> buf[i] == Drive(d).dsk[b + i]
      ensures forall i :: 0 <= i < buf.Length && (pos <= i < pos + n || i >= cnt) ==> buf[i] == old(buf[i])
    {
      assert Arrays();
      hide Valid, Held;
      pos, n := 0, cnt;
      if on {
        pos := StripFront(d, buf, b, cnt);
        n := StripBack(d, buf, b, pos, cnt - pos);
      }
    }

    // The transfer from the device, and what is added to the cache by it.
    method ReadDevice(d: nat, buf: array<Block>, b: nat, pos: nat, n: nat)
      requires Valid() && 0 < d <= |drvs| && Allowed(Drive(d), b + pos, n) && pos + n <= buf.Length
      requires buf as object !in Repr() + Disks() && Idle()
      modifies Repr(), buf
      ensures Valid()
      ensures forall i :: pos <= i < pos + n ==> buf[i] == Drive(d).dsk[b + i]
      ensures forall i :: 0 <= i < buf.Length && !(pos <= i < pos + n) ==> buf[i] == old(buf[i])
      ensures if on && Drive(d).readCache then AgedBy(old(Keys()), Keys(), d, b + pos, n) else Keys() == old(Keys())
    {
      hide AgedBy, Keys;
      var dr := Drive(d);
      forall i | pos <= i < pos + n {
        buf[i] := dr.dsk[b + i];
      }
      if dr.readCache {
        ghost var from := b + pos;
        assert forall i :: 0 <= i < n ==> Moved(buf, pos, dr.dsk, from, i);
        DskCacheAdd(d, buf, pos, b + pos, n);
      }
    }

    /** BlkRead: whatever the cache holds, the caller gets what the device has. ok is false where the
        original throws. Only what is not held at the front and at the back is transferred, n blocks from
        position pos on, and these are held afterwards in place of the oldest. */
    method BlkRead(d: nat, buf: array<Block>, b: nat, cnt: int) returns (ok: bool, ghost pos: nat, ghost n: nat)
      requires Valid() && 0 < d <= |drvs| && cnt <= buf.Length && buf as object !in Repr() + Disks()
      modifies Repr(), buf
      ensures Valid()
      ensures ok <==> cnt <= 0 || Allowed(Drive(d), b, cnt)
      ensures ok && cnt > 0 ==> buf[..cnt] == Drive(d).dsk[b..b + cnt]
      ensures forall i :: 0 <= i < buf.Length && (!ok || i >= cnt) ==> buf[i] == old(buf[i])
      ensures if ok && cnt > 0 && on && Drive(d).readCache then
                old(Missing(d, b, cnt, pos, n)) && AgedBy(old(Keys()), Keys(), d, b + pos, n)
              else Keys() == old(Keys())
    {
      pos, n := 0, 0;
      if cnt <= 0 {
        return true, 0, 0;
      }
      var dr := Drive(d);
      if (dr.offset != 0 && b < dr.offset) || b + cnt > dr.offset + dr.size {
        return false, 0, 0;
      }
      OffIsIdle();
      hide Linked, Once, Holds, Missing, AgedBy, Keys;
      var at, left: nat := 0, cnt;
      if dr.readCache {
        at, left := RCache(d, buf, b, cnt);
      }
      pos, n := at, left;
      if left > 0 {
        ReadDevice(d, buf, b, at, left);
      } else {
        NoneAged(Keys(), d, b + pos);
      }
      ok := true;
    }

    // A block held for another drive, or outside the range, is none of the blocks written.
    lemma OtherBlock(d: nat, b: nat, n: nat, t: nat)
      requires Arrays() && 0 < d <= |drvs| && Allowed(Drive(d), b, n) && t < dv.Length && 0 < dv[t] <= |drvs|
      requires Allowed(Drive(dv[t]), blk[t], 1) && !(dv[t] == d && b <= blk[t] < b + n)
      ensures Drive(dv[t]).dsk == Drive(d).dsk ==> !(b <= blk[t] < b + n)
    {
      var x, y := if dv[t] < d then dv[t] - 1 else d - 1, if dv[t] < d then d - 1 else dv[t] - 1;
      assert x < y && drvs[x].dsk == drvs[y].dsk ==>
        !(Allowed(drvs[x], blk[t], 1) && Allowed(drvs[y], blk[t], 1));
    }

    /** BlkWrite: the device's blocks are replaced, and no entry keeps what they were. */
    method BlkWrite(d: nat, buf: array<Block>, b: nat, cnt: int) returns (ok: bool)
      requires Valid() && 0 < d <= |drvs| && cnt <= buf.Length && buf as object !in Repr() + Disks()
      modifies Repr(), Drive(d).dsk
      ensures Valid()
      ensures ok <==> cnt <= 0 || (!Drive(d).readOnly && Allowed(Drive(d), b, cnt))
      ensures ok && cnt > 0 ==> Drive(d).dsk[b..b + cnt] == buf[..cnt]
      ensures forall i :: 0 <= i < Drive(d).dsk.Length && !(ok && b <= i < b + cnt) ==>
                Drive(d).dsk[i] == old(Drive(d).dsk[i])
      ensures if ok && cnt > 0 && on && Drive(d).readCache then AgedBy(old(Keys()), Keys(), d, b, cnt)
              else Keys() == old(Keys())
    {
      if cnt <= 0 {
        return true;
      }
      var dr := Drive(d);
      if dr.readOnly || (dr.offset != 0 && b < dr.offset) || b + cnt > dr.offset + dr.size {
        return false;
      }
      OffIsIdle();
      forall i | 0 <= i < cnt {
        dr.dsk[b + i] := buf[i];
      }
      forall t | 0 <= t < dv.Length
        ensures if dv[t] == d && b <= blk[t] < b + cnt then dr.readCache else Holds(t)
      {
        assert old(Holds(t));
        if dv[t] != NULL && !(dv[t] == d && b <= blk[t] < b + cnt) {
          OtherBlock(d, b, cnt, t);
        }
      }
      if dr.readCache {
        assert forall i :: 0 <= i < cnt ==> Moved(buf, 0, dr.dsk, b, i);
        DskCacheAdd(d, buf, 0, b, cnt);
      }
      ok := true;
    }

    /** DskCacheInvalidate2: no block of the drive is held any more, and every other one still is. */
    method DskCacheInvalidate2(d: nat)
      requires Valid() && d != NULL
      modifies Repr()
      ensures Valid()
      ensures on ==> forall t :: 0 <= t < dv.Length ==>
                dv[t] == (if old(dv[t]) == d then NULL else old(dv[t])) && body[t] == old(body[t])
      ensures on ==> forall t :: 0 <= t < dv.Length && old(dv[t]) != d ==> blk[t] == old(blk[t])
    {
      if on {
        var i := |lru|;
        ghost var was := lru;
        assert was[..i] == was;
        while i > 0
          invariant 0 <= i <= |was| && |lru| == |was| && lru[..i] == was[..i] && Valid()
          invariant forall t :: 0 <= t < dv.Length ==> body[t] == old(body[t])
          invariant forall t: nat :: t < dv.Length ==>
                      dv[t] == (if old(dv[t]) == d && t !in was[..i] then NULL else old(dv[t]))
          invariant forall t :: 0 <= t < dv.Length && old(dv[t]) != d ==> blk[t] == old(blk[t])
        {
          i := i - 1;
          var t := lru[i];
          assert t in lru && was[i] == t;
          if dv[t] == d {
            Forget(t, i);
          }
        }
      }
    }

    // Entry t, at position i of the queue, gives up its block and becomes the youngest.
    method Forget(t: nat, i: nat)
      requires Valid() && t < dv.Length && i < |lru| && lru[i] == t && dv[t] != NULL
      modifies `lru, hash, dv, blk
      ensures Valid() && lru == old(lru)[..i] + old(lru)[i + 1..] + [t] && dv[t] == NULL
      ensures forall u :: 0 <= u < dv.Length && u != t ==> dv[u] == old(dv[u]) && blk[u] == old(blk[u])
    {
      WithoutAt(lru, i);
      DskCacheQueRem(t);
      dv[t] := NULL;
      blk[t] := 0;
      HeadDistinct(lru, t);
      lru := lru + [t];
      forall c: nat, u: nat | c < DSK_CACHE_HASH_SIZE
        ensures u in hash[c] <==> Sits(u, c)
      {
        assert u in old(hash[c]) <==> old(Sits(u, c));
      }
      forall u | 0 <= u < dv.Length
        ensures Holds(u)
      {
        assert old(Holds(u));
      }
    }
  }
}

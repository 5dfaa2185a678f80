/** Quicksort with unguarded inner scans, on words and on elements of any width in a byte buffer
    (HolyCRT/QSort.HC). */
module QSort {

  /** What a compare function must be: a total preorder, with the sign turned when the arguments are. */
  ghost predicate Orders<T(!new)>(cmp: (T, T) -> int)
  {
    && (forall x, y :: cmp(x, y) < 0 <==> cmp(y, x) > 0)
    && (forall x, y, z :: cmp(x, y) <= 0 && cmp(y, z) <= 0 ==> cmp(x, z) <= 0)
  }

  ghost predicate SortedIn<T>(s: seq<T>, lo: int, hi: int, cmp: (T, T) -> int)
    requires 0 <= lo && hi <= |s|
  {
    forall i, j :: lo <= i < j < hi ==> cmp(s[i], s[j]) <= 0
  }

  ghost predicate AllBelow<T>(s: seq<T>, lo: int, hi: int, p: T, cmp: (T, T) -> int)
    requires 0 <= lo && hi <= |s|
  {
    forall i :: lo <= i < hi ==> cmp(s[i], p) <= 0
  }

  ghost predicate AllAbove<T>(s: seq<T>, lo: int, hi: int, p: T, cmp: (T, T) -> int)
    requires 0 <= lo && hi <= |s|
  {
    forall i :: lo <= i < hi ==> cmp(p, s[i]) <= 0
  }

  // Only the segment has changed, and it holds the same elements.
  ghost predicate Shuffled<T>(was: seq<T>, now: seq<T>, lo: int, hi: int)
  {
    && |was| == |now| && 0 <= lo <= hi <= |was|
    && now[..lo] == was[..lo] && now[hi..] == was[hi..]
    && multiset(now[lo..hi]) == multiset(was[lo..hi])
  }

  // Both scans have gone so far: what they passed is on its side of the pivot, and an element that
  // stops each of them lies ahead.
  ghost predicate Split<T>(s: seq<T>, lo: int, hi: int, left: int, right: int, p: T, cmp: (T, T) -> int)
  {
    && 0 <= lo <= left && right < hi <= |s| && left <= hi && right >= lo - 1
    && AllBelow(s, lo, left, p, cmp) && AllAbove(s, right + 1, hi, p, cmp)
    && (if left == lo then right == hi - 1 else right <= hi - 2)
    && (left == lo ==> exists m :: lo <= m < hi && s[m] == p)
    && left <= right + 2
  }

  lemma SwapShuffles<T>(was: seq<T>, lo: int, hi: int, i: int, j: int)
    requires 0 <= lo <= i <= j < hi <= |was|
    ensures Shuffled(was, was[i := was[j]][j := was[i]], lo, hi)
  {
    var now := was[i := was[j]][j := was[i]];
    assert now[lo..hi] == was[lo..hi][i - lo := was[j]][j - lo := was[i]];
  }

  lemma ShuffleTwice<T>(a: seq<T>, b: seq<T>, c: seq<T>, lo: int, hi: int)
    requires Shuffled(a, b, lo, hi) && Shuffled(b, c, lo, hi)
    ensures Shuffled(a, c, lo, hi)
  {
  }

  // Shuffling part of a segment shuffles the segment.
  lemma ShuffleWider<T>(a: seq<T>, b: seq<T>, lo: int, hi: int, lo2: int, hi2: int)
    requires Shuffled(a, b, lo2, hi2) && 0 <= lo <= lo2 && hi2 <= hi <= |a|
    ensures Shuffled(a, b, lo, hi)
  {
    assert a[lo..hi] == a[lo..lo2] + a[lo2..hi2] + a[hi2..hi];
    assert b[lo..hi] == b[lo..lo2] + b[lo2..hi2] + b[hi2..hi];
    assert a[lo..lo2] == a[..lo2][lo..] && b[lo..lo2] == b[..lo2][lo..];
    assert a[hi2..hi] == a[hi2..][..hi - hi2] && b[hi2..hi] == b[hi2..][..hi - hi2];
    assert a[..lo] == a[..lo2][..lo] && b[..lo] == b[..lo2][..lo];
    assert a[hi..] == a[hi2..][hi - hi2..] && b[hi..] == b[hi2..][hi - hi2..];
  }

  // A shuffle keeps its elements on their side of the pivot, and leaves the others alone.
  lemma ShuffleKeepsSide<T>(a: seq<T>, b: seq<T>, lo: int, hi: int, p: T, cmp: (T, T) -> int)
    requires Shuffled(a, b, lo, hi)
    ensures AllBelow(a, lo, hi, p, cmp) ==> AllBelow(b, lo, hi, p, cmp)
    ensures AllAbove(a, lo, hi, p, cmp) ==> AllAbove(b, lo, hi, p, cmp)
    ensures forall i :: 0 <= i < |a| && !(lo <= i < hi) ==> a[i] == b[i]
  {
    forall i | lo <= i < hi
      ensures exists j :: lo <= j < hi && b[i] == a[j]
    {
      assert b[lo..hi][i - lo] == b[i] && b[i] in multiset(b[lo..hi]);
      assert b[i] in a[lo..hi];
      var j :| 0 <= j < hi - lo && a[lo..hi][j] == b[i];
      assert a[lo + j] == b[i];
    }
    forall i | 0 <= i < |a| && !(lo <= i < hi)
      ensures a[i] == b[i]
    {
      if i < lo {
        assert a[..lo][i] == b[..lo][i];
      } else {
        assert a[hi..][i - hi] == b[hi..][i - hi];
      }
    }
  }

  /** The two sides sorted, and what lies between them equal to the pivot, the segment is sorted. */
  lemma SidesMakeWhole<T(!new)>(s: seq<T>, lo: int, hi: int, left: int, right: int, p: T, cmp: (T, T) -> int)
    requires Orders(cmp) && 0 <= lo <= left <= hi <= |s| && lo - 1 <= right < left && right < hi
    requires SortedIn(s, lo, right + 1, cmp) && SortedIn(s, left, hi, cmp)
    requires AllBelow(s, lo, left, p, cmp) && AllAbove(s, right + 1, hi, p, cmp)
    ensures SortedIn(s, lo, hi, cmp)
  {
    forall i, j | lo <= i < j < hi
      ensures cmp(s[i], s[j]) <= 0
    {
      if i < left && j > right {
        assert cmp(s[i], p) <= 0 && cmp(p, s[j]) <= 0;
      }
    }
  }

  // One exchange moves both cursors on.
  lemma Exchanged<T(!new)>(s: seq<T>, t: seq<T>, lo: int, hi: int, left: int, right: int, p: T, cmp: (T, T) -> int)
    requires Orders(cmp) && 0 <= lo <= left <= right < hi <= |s| && t == s[left := s[right]][right := s[left]]
    requires AllBelow(s, lo, left, p, cmp) && AllAbove(s, right + 1, hi, p, cmp)
    requires cmp(s[left], p) >= 0 && cmp(s[right], p) <= 0
    ensures Split(t, lo, hi, left + 1, right - 1, p, cmp) && Shuffled(s, t, lo, hi)
  {
    assert cmp(p, s[left]) <= 0;
    SwapShuffles(s, lo, hi, left, right);
  }

  // The scans stop inside the segment: there is an element ahead that each cannot pass.
  ghost predicate Stops<T>(s: seq<T>, lo: int, hi: int, left: int, right: int, p: T, cmp: (T, T) -> int, m: int, n: int)
  {
    && 0 <= lo <= left && right < hi <= |s| && left <= m < hi && lo <= n <= right
    && cmp(s[m], p) >= 0 && cmp(s[n], p) <= 0 && (left == lo ==> m <= n) && m <= right + 1 && n >= left - 1
  }

  lemma FindStops<T(!new)>(s: seq<T>, lo: int, hi: int, left: int, right: int, p: T, cmp: (T, T) -> int) returns (m: int, n: int)
    requires Orders(cmp) && Split(s, lo, hi, left, right, p, cmp) && left <= right
    ensures Stops(s, lo, hi, left, right, p, cmp, m, n)
  {
    if left == lo {
      m :| lo <= m < hi && s[m] == p;
      n := m;
      assert cmp(p, p) == 0;
    } else {
      m, n := right + 1, left - 1;
      assert cmp(p, s[m]) <= 0;
    }
  }

  // After the last exchange the cursors have crossed, well inside the segment.
  ghost predicate Crossed<T>(s: seq<T>, lo: int, hi: int, left: int, right: int, p: T, cmp: (T, T) -> int)
  {
    && 0 <= lo < left <= hi <= |s| && lo - 1 <= right < left && right < hi - 1
    && AllBelow(s, lo, left, p, cmp) && AllAbove(s, right + 1, hi, p, cmp)
  }

  // What the scans leave behind them.
  lemma Scanned<T(!new)>(s: seq<T>, lo: int, hi: int, l0: int, left: int, right: int, r0: int, p: T, cmp: (T, T) -> int)
    requires Orders(cmp) && 0 <= lo <= l0 <= left <= hi <= |s| && lo - 1 <= right <= r0 < hi
    requires AllBelow(s, lo, l0, p, cmp) && forall k :: l0 <= k < left ==> cmp(s[k], p) < 0
    requires AllAbove(s, r0 + 1, hi, p, cmp) && forall k :: right < k <= r0 ==> cmp(s[k], p) > 0
    ensures AllBelow(s, lo, left, p, cmp) && AllAbove(s, right + 1, hi, p, cmp)
  {
    forall k | right < k <= r0
      ensures cmp(p, s[k]) <= 0
    {
      assert cmp(p, s[k]) < 0 <==> cmp(s[k], p) > 0;
    }
  }

  // The inner scans; m is ghost, the original has no bound.
  method ScanUp(a: array<int>, from: nat, ghost m: int, pivot: int, cmp: (int, int) -> int) returns (left: nat)
    requires from <= m < a.Length && cmp(a[m], pivot) >= 0
    ensures from <= left <= m && cmp(a[left], pivot) >= 0
    ensures forall k :: from <= k < left ==> cmp(a[k], pivot) < 0
  {
    left := from;
    while cmp(a[left], pivot) < 0
      invariant from <= left <= m
      invariant forall k :: from <= k < left ==> cmp(a[k], pivot) < 0
      decreases m - left
    {
      left := left + 1;
    }
  }

  method ScanDown(a: array<int>, from: nat, ghost n: int, pivot: int, cmp: (int, int) -> int) returns (right: nat)
    requires 0 <= n <= from < a.Length && cmp(a[n], pivot) <= 0
    ensures n <= right <= from && cmp(a[right], pivot) <= 0
    ensures forall k :: right < k <= from ==> cmp(a[k], pivot) > 0
  {
    right := from;
    while cmp(a[right], pivot) > 0
      invariant n <= right <= from
      invariant forall k :: right < k <= from ==> cmp(a[k], pivot) > 0
      decreases right - n
    {
      right := right - 1;
    }
  }

  // One turn of the do-while loop of QSortI64: both scans and an exchange.
  method Turn(a: array<int>, base: nat, ghost hi: int, l0: nat, r0: nat, pivot: int, cmp: (int, int) -> int)
    returns (left: int, right: int)
    requires Orders(cmp) && Split(a[..], base, hi, l0, r0, pivot, cmp) && l0 <= r0
    modifies a
    ensures Shuffled(old(a[..]), a[..], base, hi) && right - left < r0 - l0
    ensures left <= right ==> Split(a[..], base, hi, left, right, pivot, cmp)
    ensures left > right ==> Crossed(a[..], base, hi, left, right, pivot, cmp)
  {
    hide Orders, Shuffled, AllBelow, AllAbove;
    ghost var s := a[..];
    ghost var m, n := FindStops(s, base, hi, l0, r0, pivot, cmp);
    assert s[m] == a[m] && s[n] == a[n];
    left := ScanUp(a, l0, m, pivot, cmp);
    right := ScanDown(a, r0, n, pivot, cmp);
    Scanned(s, base, hi, l0, left, right, r0, pivot, cmp);
    ShuffledSelf(s, base, hi);
    if left <= right {
      a[left], a[right] := a[right], a[left];
      assert a[..] == s[left := s[right]][right := s[left]];
      Exchanged(s, a[..], base, hi, left, right, pivot, cmp);
      left, right := left + 1, right - 1;
    }
  }

  method Partition(a: array<int>, base: nat, num: nat, cmp: (int, int) -> int) returns (left: int, right: int, ghost pivot: int)
    requires Orders(cmp) && base + num <= a.Length && num > 1
    modifies a
    ensures Crossed(a[..], base, base + num, left, right, pivot, cmp)
    ensures Shuffled(old(a[..]), a[..], base, base + num)
  {
    hide Orders, Shuffled, Crossed;
    ghost var hi := base + num;
    left, right := base, base + num - 1;
    var pv := a[base + num / 2];
    pivot := pv;
    assert a[..][base + num / 2] == pivot;
    ShuffledSelf(a[..], base, hi);
    while true
      invariant Split(a[..], base, hi, left, right, pivot, cmp) && Shuffled(old(a[..]), a[..], base, hi)
      invariant left <= right
      decreases right - left
    {
      ghost var s := a[..];
      left, right := Turn(a, base, hi, left, right, pv, cmp);
      ShuffleTwice(old(a[..]), s, a[..], base, hi);
      if left > right {
        break;
      }
    }
  }

  lemma ShuffledSelf<T>(s: seq<T>, lo: int, hi: int)
    requires 0 <= lo <= hi <= |s|
    ensures Shuffled(s, s, lo, hi)
  {
  }

  // One of the recursive calls: sorting [lo2, hi2), all of it below or above the pivot.
  lemma SideSorted<T(!new)>(was: seq<T>, mid: seq<T>, now: seq<T>, lo: int, hi: int, left: int, right: int, p: T, cmp: (T, T) -> int,
      lo2: int, hi2: int)
    requires Crossed(mid, lo, hi, left, right, p, cmp) && Shuffled(was, mid, lo, hi) && Shuffled(mid, now, lo2, hi2)
    requires (lo2 == lo && hi2 == right + 1) || (lo2 == left && hi2 == hi)
    ensures Crossed(now, lo, hi, left, right, p, cmp) && Shuffled(was, now, lo, hi)
    ensures forall i :: 0 <= i < |mid| && !(lo2 <= i < hi2) ==> now[i] == mid[i]
  {
    ShuffleWider(mid, now, lo, hi, lo2, hi2);
    ShuffleTwice(was, mid, now, lo, hi);
    ShuffleKeepsSide(mid, now, lo2, hi2, p, cmp);
  }

  /** QSortI64: the segment of num words from base on comes out sorted, a shuffle of what it was. The
      inner scans carry no bounds check and need none, and each recursive call is on fewer words. */
  method QSortI64(a: array<int>, base: nat, num: nat, cmp: (int, int) -> int)
    requires Orders(cmp) && base + num <= a.Length
    modifies a
    ensures SortedIn(a[..], base, base + num, cmp)
    ensures Shuffled(old(a[..]), a[..], base, base + num)
    decreases num
  {
    hide Orders, Shuffled, AllBelow, AllAbove;
    ShuffledSelf(a[..], base, base + num);
    if num > 1 {
      ghost var hi, was := base + num, a[..];
      var left, right, pivot := Partition(a, base, num, cmp);
      var i := right + 1 - base;
      if 1 < i < num {
        ghost var mid := a[..];
        QSortI64(a, base, i, cmp);
        SideSorted(was, mid, a[..], base, hi, left, right, pivot, cmp, base, right + 1);
      }
      i := base + num - left;
      if 1 < i < num {
        ghost var mid := a[..];
        QSortI64(a, left, i, cmp);
        SideSorted(was, mid, a[..], base, hi, left, right, pivot, cmp, left, hi);
        assert SortedIn(a[..], base, right + 1, cmp);
      }
      SidesMakeWhole(a[..], base, hi, left, right, pivot, cmp);
    }
  }

  // ---- Elements of any width ----

  // Where element k begins.
  function Off(k: nat, w: nat): nat
  {
    k * w
  }

  // Element k of a buffer, and the first n of them.
  ghost function Elem(s: seq<nat>, w: nat, k: nat): (e: seq<nat>)
    requires Off(k + 1, w) <= |s|
    ensures |e| == w
  {
    InBuffer(k, k, w);
    s[Off(k, w)..Off(k + 1, w)]
  }

  ghost function Elems(s: seq<nat>, w: nat, n: nat): (es: seq<seq<nat>>)
    requires Off(n, w) <= |s|
    ensures |es| == n
  {
    seq(n, k requires 0 <= k < n => InBuffer(k, n, w); Elem(s, w, k))
  }

  lemma InBuffer(k: nat, n: nat, w: nat)
    ensures k < n ==> Off(k + 1, w) <= Off(n, w)
    ensures Off(k, w) + w == Off(k + 1, w)
  {
    TimesKeepsOrder(k + 1, n, w);
    assert (k + 1) * w == k * w + w;
  }

  lemma TimesKeepsOrder(a: nat, b: nat, w: nat)
    ensures a <= b ==> a * w <= b * w
  {
  }

  // Overwriting element k changes that element only.
  lemma PutElem(s: seq<nat>, t: seq<nat>, w: nat, n: nat, k: nat, e: seq<nat>)
    requires Off(n, w) <= |s| == |t| && k < n && |e| == w && Off(k, w) + w <= |s|
    requires t == s[..Off(k, w)] + e + s[Off(k, w) + w..]
    ensures Elems(t, w, n) == Elems(s, w, n)[k := e] && t[Off(n, w)..] == s[Off(n, w)..]
  {
    hide Off;
    InBuffer(k, n, w);
    forall j: nat | j < n
      ensures Elems(t, w, n)[j] == Elems(s, w, n)[k := e][j]
    {
      InBuffer(j, n, w);
      InBuffer(j, k, w);
      InBuffer(k, j, w);
    }
  }

  // MemCpy between buffers, or between two places of one that do not overlap.
  method MemCpy(dst: array<nat>, d: nat, src: array<nat>, f: nat, cnt: nat)
    requires d + cnt <= dst.Length && f + cnt <= src.Length
    requires dst != src || d + cnt <= f || f + cnt <= d
    modifies dst
    ensures dst[..] == old(dst[..])[..d] + old(src[..])[f..f + cnt] + old(dst[..])[d + cnt..]
  {
    forall i | d <= i < d + cnt {
      dst[i] := src[f + i - d];
    }
  }

  lemma ElemAt(s: seq<nat>, w: nat, n: nat, k: nat)
    requires Off(n, w) <= |s| && k < n
    ensures Off(k, w) + w <= |s| && Elems(s, w, n)[k] == s[Off(k, w)..Off(k, w) + w]
  {
    InBuffer(k, n, w);
  }

  lemma Apart(k: nat, j: nat, w: nat)
    ensures k < j ==> Off(k, w) + w <= Off(j, w)
    ensures w > 0 && k != j ==> Off(k, w) != Off(j, w)
  {
    InBuffer(k, j, w);
    InBuffer(j, k, w);
  }

  // Elements l and r change places by way of the scratch buffer; one that meets itself stays.
  method SwapElems(a: array<nat>, lb: nat, rb: nat, width: nat, tmp: array<nat>, ghost l: nat, ghost r: nat, ghost n: nat)
    requires width > 0 && l <= r < n && Off(n, width) <= a.Length && lb == Off(l, width) && rb == Off(r, width)
    requires a != tmp && 2 * width <= tmp.Length
    modifies a, tmp
    ensures var v := old(Elems(a[..], width, n)); Elems(a[..], width, n) == v[l := v[r]][r := v[l]]
    ensures a[Off(n, width)..] == old(a[Off(n, width)..]) && tmp[width..2 * width] == old(tmp[width..2 * width])
  {
    hide Off, Elems;
    ghost var s, v := a[..], Elems(a[..], width, n);
    Apart(l, r, width);
    if lb != rb {
      InBuffer(r, n, width);
      ghost var t := SwapBytes(a, lb, rb, width, tmp);
      SwappedBytes(s, t, a[..], width, n, l, r, lb, rb);
      assert a[Off(n, width)..] == a[..][Off(n, width)..] && s[Off(n, width)..] == old(a[Off(n, width)..]);
    } else {
      assert l == r && v[l := v[r]][r := v[l]] == v;
    }
  }

  lemma SwappedBytes(s: seq<nat>, t: seq<nat>, u: seq<nat>, w: nat, n: nat, l: nat, r: nat, lb: nat, rb: nat)
    requires lb == Off(l, w) && rb == Off(r, w) && l < r < n && Off(n, w) <= |s| && lb + w <= rb && rb + w <= |s|
    requires t == s[..rb] + s[lb..lb + w] + s[rb + w..] && u == t[..lb] + s[rb..rb + w] + t[lb + w..]
    ensures var v := Elems(s, w, n);
            |u| == |s| && Elems(u, w, n) == v[l := v[r]][r := v[l]] && u[Off(n, w)..] == s[Off(n, w)..]
  {
    hide Off, Elems;
    ElemAt(s, w, n, l);
    ElemAt(s, w, n, r);
    Swapped(s, t, u, w, n, l, r);
  }

  // The three copies; t is the buffer after the second.
  method SwapBytes(a: array<nat>, lb: nat, rb: nat, width: nat, tmp: array<nat>) returns (ghost t: seq<nat>)
    requires lb + width <= rb && rb + width <= a.Length && a != tmp && 2 * width <= tmp.Length
    modifies a, tmp
    ensures var s := old(a[..]);
            t == s[..rb] + s[lb..lb + width] + s[rb + width..] && a[..] == t[..lb] + s[rb..rb + width] + t[lb + width..]
    ensures tmp[width..2 * width] == old(tmp[width..2 * width])
  {
    ghost var s, scratch := a[..], tmp[..];
    MemCpy(tmp, 0, a, rb, width);
    CopiedFront(scratch, tmp[..], width, s[rb..rb + width]);
    MemCpy(a, rb, a, lb, width);
    t := a[..];
    MemCpy(a, lb, tmp, 0, width);
  }

  lemma CopiedFront(s: seq<nat>, t: seq<nat>, w: nat, e: seq<nat>)
    requires |e| == w && 2 * w <= |s| && t == s[..0] + e + s[w..]
    ensures |t| == |s| && t[0..w] == e && t[w..2 * w] == s[w..2 * w]
  {
  }

  lemma Swapped(s: seq<nat>, t: seq<nat>, u: seq<nat>, w: nat, n: nat, l: nat, r: nat)
    requires Off(n, w) <= |s| == |t| == |u| && l <= r < n && Off(l, w) + w <= |s| && Off(r, w) + w <= |s|
    requires t == s[..Off(r, w)] + Elems(s, w, n)[l] + s[Off(r, w) + w..]
    requires u == t[..Off(l, w)] + Elems(s, w, n)[r] + t[Off(l, w) + w..]
    ensures var v := Elems(s, w, n); Elems(u, w, n) == v[l := v[r]][r := v[l]]
    ensures u[Off(n, w)..] == s[Off(n, w)..]
  {
    ElemAt(s, w, n, l);
    ElemAt(s, w, n, r);
    PutElem(s, t, w, n, r, Elems(s, w, n)[l]);
    PutElem(t, u, w, n, l, Elems(s, w, n)[r]);
    hide Elems, Off;
  }

  method ScanUpElems(a: array<nat>, from: nat, width: nat, tmp: array<nat>, cmp: (seq<nat>, seq<nat>) -> int,
      ghost l0: nat, ghost m: nat, ghost n: nat)
    returns (lb: nat, ghost left: nat)
    requires Off(n, width) <= a.Length && 2 * width <= tmp.Length && l0 <= m < n && from == Off(l0, width)
    requires cmp(Elems(a[..], width, n)[m], tmp[width..2 * width]) >= 0
    ensures l0 <= left <= m && lb == Off(left, width)
    ensures var v, p := Elems(a[..], width, n), tmp[width..2 * width];
            cmp(v[left], p) >= 0 && forall k :: l0 <= k < left ==> cmp(v[k], p) < 0
  {
    hide Off, Elems;
    ghost var v := Elems(a[..], width, n);
    lb, left := from, l0;
    ElemAt(a[..], width, n, left);
    while cmp(a[lb..lb + width], tmp[width..2 * width]) < 0
      invariant l0 <= left <= m && lb == Off(left, width) && lb + width <= a.Length
      invariant v[left] == a[lb..lb + width]
      invariant forall k :: l0 <= k < left ==> cmp(v[k], tmp[width..2 * width]) < 0
      decreases m - left
    {
      InBuffer(left, n, width);
      lb, left := lb + width, left + 1;
      ElemAt(a[..], width, n, left);
    }
  }

  method ScanDownElems(a: array<nat>, from: nat, width: nat, tmp: array<nat>, cmp: (seq<nat>, seq<nat>) -> int,
      ghost r0: nat, ghost m: nat, ghost n: nat)
    returns (rb: nat, ghost right: nat)
    requires Off(n, width) <= a.Length && 2 * width <= tmp.Length && m <= r0 < n && from == Off(r0, width)
    requires cmp(Elems(a[..], width, n)[m], tmp[width..2 * width]) <= 0
    ensures m <= right <= r0 && rb == Off(right, width)
    ensures var v, p := Elems(a[..], width, n), tmp[width..2 * width];
            cmp(v[right], p) <= 0 && forall k :: right < k <= r0 ==> cmp(v[k], p) > 0
  {
    hide Off, Elems;
    ghost var v := Elems(a[..], width, n);
    rb, right := from, r0;
    ElemAt(a[..], width, n, right);
    while cmp(a[rb..rb + width], tmp[width..2 * width]) > 0
      invariant m <= right <= r0 && rb == Off(right, width) && rb + width <= a.Length
      invariant v[right] == a[rb..rb + width]
      invariant forall k :: right < k <= r0 ==> cmp(v[k], tmp[width..2 * width]) > 0
      decreases right
    {
      InBuffer(right - 1, n, width);
      rb, right := rb - width, right - 1;
      ElemAt(a[..], width, n, right);
    }
  }

  // Byte offset and element number of a cursor that may stand one element before the buffer.
  ghost predicate Stands(b: int, k: int, w: nat)
  {
    if k >= 0 then b == Off(k, w) else k == -1 && b + w == 0
  }

  lemma StandsNext(b: int, k: int, w: nat)
    requires Stands(b, k, w)
    ensures Stands(b + w, k + 1, w) && (k >= 0 ==> Stands(b - w, k - 1, w))
  {
    if k >= 0 {
      InBuffer(k, k, w);
      if k > 0 {
        InBuffer(k - 1, k, w);
      }
    }
  }

  // Comparing offsets is comparing elements, and their distance in bytes gives the distance.
  lemma StandsCompare(b: int, k: int, c: int, j: int, w: nat)
    requires Stands(b, k, w) && Stands(c, j, w) && w > 0
    ensures b <= c <==> k <= j
    ensures b == c <==> k == j
    ensures k <= j ==> (c - b) / w == j - k
  {
    assert b == k * w && c == j * w;
    Order(k, j, w);
    Order(j, k, w);
    if k <= j {
      assert c - b == (j - k) * w;
      Quotient(j - k, w);
    }
  }

  lemma Order(k: int, j: int, w: nat)
    requires w > 0
    ensures k < j ==> k * w + w <= j * w
  {
    if k < j {
      TimesKeepsOrder(0, j - k - 1, w);
      assert j * w == k * w + w + (j - k - 1) * w;
    }
  }

  lemma Quotient(d: nat, w: nat)
    requires w > 0
    ensures d * w / w == d
  {
    var q := d * w / w;
    assert d * w == q * w + d * w % w;
    Order(q, d, w);
    Order(d, q, w);
  }

  method TurnElems(a: array<nat>, lb0: nat, rb0: nat, width: nat, tmp: array<nat>, cmp: (seq<nat>, seq<nat>) -> int,
      ghost base: nat, ghost hi: int, ghost l0: nat, ghost r0: nat, ghost n: nat)
    returns (lb: int, rb: int, ghost left: int, ghost right: int)
    requires Orders(cmp) && width > 0 && hi <= n && Off(n, width) <= a.Length && a != tmp && 2 * width <= tmp.Length
    requires lb0 == Off(l0, width) && rb0 == Off(r0, width) && l0 <= r0
    requires Split(Elems(a[..], width, n), base, hi, l0, r0, tmp[width..2 * width], cmp)
    modifies a, tmp
    ensures a[Off(n, width)..] == old(a[Off(n, width)..]) && tmp[width..2 * width] == old(tmp[width..2 * width])
    ensures Shuffled(old(Elems(a[..], width, n)), Elems(a[..], width, n), base, hi) && right - left < r0 - l0
    ensures Stands(lb, left, width) && Stands(rb, right, width)
    ensures left <= right ==> Split(Elems(a[..], width, n), base, hi, left, right, tmp[width..2 * width], cmp)
    ensures left > right ==> Crossed(Elems(a[..], width, n), base, hi, left, right, tmp[width..2 * width], cmp)
  {
    hide Orders, Shuffled, AllBelow, AllAbove, Off, Elems;
    ghost var v, p := Elems(a[..], width, n), tmp[width..2 * width];
    ghost var m, k := FindStops(v, base, hi, l0, r0, p, cmp);
    lb, left := ScanUpElems(a, lb0, width, tmp, cmp, l0, m, n);
    rb, right := ScanDownElems(a, rb0, width, tmp, cmp, r0, k, n);
    Scanned(v, base, hi, l0, left, right, r0, p, cmp);
    ShuffledSelf(v, base, hi);
    StandsCompare(lb, left, rb, right, width);
    if lb <= rb {
      SwapElems(a, lb, rb, width, tmp, left, right, n);
      Exchanged(v, Elems(a[..], width, n), base, hi, left, right, p, cmp);
      StandsNext(lb, left, width);
      StandsNext(rb, right, width);
      lb, left := lb + width, left + 1;
      rb, right := rb - width, right - 1;
    }
  }

  method PartitionElems(a: array<nat>, b: nat, num: nat, width: nat, tmp: array<nat>, cmp: (seq<nat>, seq<nat>) -> int,
      ghost base: nat, ghost n: nat)
    returns (lb: int, rb: int, ghost left: int, ghost right: int)
    requires Orders(cmp) && width > 0 && num > 1 && base + num <= n && Off(n, width) <= a.Length
    requires b == Off(base, width) && a != tmp && 2 * width <= tmp.Length
    modifies a, tmp
    ensures a[Off(n, width)..] == old(a[Off(n, width)..])
    ensures Shuffled(old(Elems(a[..], width, n)), Elems(a[..], width, n), base, base + num)
    ensures Stands(lb, left, width) && Stands(rb, right, width)
    ensures Crossed(Elems(a[..], width, n), base, base + num, left, right, tmp[width..2 * width], cmp)
  {
    hide Orders, Shuffled, Crossed, Off, Elems;
    ghost var hi, v := base + num, Elems(a[..], width, n);
    lb, left, right := b, base, base + num - 1;
    rb := PickPivot(a, b, num, width, tmp, base, n);
    ghost var p := tmp[width..2 * width];
    ShuffledSelf(v, base, hi);
    while true
      invariant 0 <= lb && 0 <= rb && Stands(lb, left, width) && Stands(rb, right, width) && left <= right
      invariant left >= base && a[Off(n, width)..] == old(a[Off(n, width)..]) && tmp[width..2 * width] == p
      invariant Split(Elems(a[..], width, n), base, hi, left, right, p, cmp)
      invariant Shuffled(v, Elems(a[..], width, n), base, hi)
      decreases right - left
    {
      ghost var s := Elems(a[..], width, n);
      lb, rb, left, right := TurnElems(a, lb, rb, width, tmp, cmp, base, hi, left, right, n);
      ShuffleTwice(v, s, Elems(a[..], width, n), base, hi);
      StandsCompare(lb, left, rb, right, width);
      if lb > rb {
        break;
      }
    }
  }

  // The right cursor's start, and the middle element into the second half of the scratch buffer.
  method PickPivot(a: array<nat>, b: nat, num: nat, width: nat, tmp: array<nat>, ghost base: nat, ghost n: nat) returns (rb: nat)
    requires num > 1 && base + num <= n && Off(n, width) <= a.Length
    requires b == Off(base, width) && a != tmp && 2 * width <= tmp.Length
    modifies tmp
    ensures rb == Off(base + num - 1, width) && tmp[width..2 * width] == Elems(a[..], width, n)[base + num / 2]
  {
    LastOffset(base, num, width);
    rb := b + (num - 1) * width;
    MiddleOffset(base, num, width);
    var mb := b + num / 2 * width;
    hide Off, Elems;
    ElemAt(a[..], width, n, base + num / 2);
    MemCpy(tmp, width, a, mb, width);
    assert a[..][mb..mb + width] == a[mb..mb + width];
  }

  lemma LastOffset(base: nat, num: nat, w: nat)
    requires num > 0
    ensures Off(base, w) + (num - 1) * w == Off(base + num - 1, w)
  {
  }

  lemma MiddleOffset(base: nat, num: nat, w: nat)
    ensures Off(base, w) + num / 2 * w == Off(base + num / 2, w)
  {
  }

  /** QSort2b: the elements of a buffer, width bytes each, come out sorted as QSortI64 sorts words. */
  method QSort2b(a: array<nat>, b: nat, num: nat, width: nat, tmp: array<nat>, cmp: (seq<nat>, seq<nat>) -> int,
      ghost base: nat, ghost n: nat)
    requires Orders(cmp) && width > 0 && num > 1 && base + num <= n && Off(n, width) <= a.Length
    requires b == Off(base, width) && a != tmp && 2 * width <= tmp.Length
    modifies a, tmp
    ensures SortedIn(Elems(a[..], width, n), base, base + num, cmp)
    ensures Shuffled(old(Elems(a[..], width, n)), Elems(a[..], width, n), base, base + num)
    ensures a[Off(n, width)..] == old(a[Off(n, width)..])
    decreases num
  {
    hide Orders, Shuffled, AllBelow, AllAbove, Off, Elems;
    ghost var hi, was := base + num, Elems(a[..], width, n);
    var lb, rb;
    ghost var left, right;
    lb, rb, left, right := PartitionElems(a, b, num, width, tmp, cmp, base, n);
    ghost var p := tmp[width..2 * width];
    var i := CountDown(b, rb, width, base, right);
    if 1 < i < num {
      ghost var mid := Elems(a[..], width, n);
      QSort2b(a, b, i, width, tmp, cmp, base, n);
      SideSorted(was, mid, Elems(a[..], width, n), base, hi, left, right, p, cmp, base, right + 1);
    }
    i := CountUp(b, lb, num, width, base, left);
    if 1 < i < num {
      ghost var mid := Elems(a[..], width, n);
      QSort2b(a, lb, i, width, tmp, cmp, left, n);
      SideSorted(was, mid, Elems(a[..], width, n), base, hi, left, right, p, cmp, left, hi);
      assert SortedIn(Elems(a[..], width, n), base, right + 1, cmp);
    }
    SidesMakeWhole(Elems(a[..], width, n), base, hi, left, right, p, cmp);
  }

  // The two counts of elements, from byte cursors; the division truncates, and is exact.
  method CountDown(b: nat, rb: int, width: nat, ghost base: nat, ghost right: int) returns (i: int)
    requires width > 0 && b == Off(base, width) && Stands(rb, right, width) && right >= base - 1
    ensures i == right + 1 - base
  {
    StandsCompare(b, base, rb, right, width);
    StandsCompare(rb, right, b, base, width);
    i := if rb >= b then 1 + (rb - b) / width else 1 - (b - rb) / width;
  }

  method CountUp(b: nat, lb: int, num: nat, width: nat, ghost base: nat, ghost left: int) returns (i: int)
    requires width > 0 && b == Off(base, width) && Stands(lb, left, width) && left >= base
    ensures i == base + num - left
  {
    StandsCompare(b, base, lb, left, width);
    i := num - (lb - b) / width;
  }
}

/** Many lists seen as one bag of elements, so that passing elements between lists leaves the bag
    as it was. */
module ListBags {
  // A list without its k-th element.
  function Without<T>(s: seq<T>, k: nat): (r: seq<T>)
    requires k < |s|
    ensures |r| == |s| - 1
  {
    s[..k] + s[k + 1..]
  }

  ghost function BagAll<T>(ls: seq<seq<T>>): multiset<T>
  {
    if ls == [] then multiset{} else multiset(ls[0]) + BagAll(ls[1..])
  }

  lemma {:induction false} PutBag<T>(ls: seq<seq<T>>, k: nat, x: seq<T>)
    requires k < |ls|
    ensures BagAll(ls[k := x]) + multiset(ls[k]) == BagAll(ls) + multiset(x)
  {
    if k == 0 {
      assert ls[k := x][1..] == ls[1..];
    } else {
      PutBag(ls[1..], k - 1, x);
      assert ls[k := x][1..] == ls[1..][k - 1 := x] && ls[k := x][0] == ls[0];
      AddSame(multiset(ls[0]), BagAll(ls[1..][k - 1 := x]), multiset(ls[k]), BagAll(ls[1..]), multiset(x));
      assert BagAll(ls[k := x]) == multiset(ls[0]) + BagAll(ls[1..][k - 1 := x]);
    }
  }

  lemma AddSame<T>(h: multiset<T>, a: multiset<T>, b: multiset<T>, c: multiset<T>, d: multiset<T>)
    requires a + b == c + d
    ensures (h + a) + b == (h + c) + d
  {
    forall t
      ensures ((h + a) + b)[t] == ((h + c) + d)[t]
    {
      assert (a + b)[t] == (c + d)[t];
    }
  }

  /** Elements pass from one list to another. */
  lemma Transfer<T>(ls: seq<seq<T>>, i: nat, j: nat, x: seq<T>, y: seq<T>)
    requires i < |ls| && j < |ls| && i != j
    requires multiset(x) + multiset(y) == multiset(ls[i]) + multiset(ls[j])
    ensures BagAll(ls[i := x][j := y]) == BagAll(ls)
  {
    PutBag(ls, i, x);
    PutBag(ls[i := x], j, y);
    hide BagAll;
    Cancel(BagAll(ls), BagAll(ls[i := x]), BagAll(ls[i := x][j := y]), multiset(ls[i]), multiset(x), multiset(ls[j]), multiset(y));
  }

  lemma Cancel<T>(a: multiset<T>, b: multiset<T>, c: multiset<T>, i: multiset<T>, x: multiset<T>, j: multiset<T>, y: multiset<T>)
    requires b + i == a + x && c + j == b + y && x + y == i + j
    ensures c == a
  {
    forall t
      ensures c[t] == a[t]
    {
      assert (b + i)[t] == (a + x)[t] && (c + j)[t] == (b + y)[t] && (x + y)[t] == (i + j)[t];
    }
  }

  /** One element more at the head of a list. */
  lemma Added<T>(ls: seq<seq<T>>, k: nat, e: T)
    requires k < |ls|
    ensures BagAll(ls[k := [e] + ls[k]]) == BagAll(ls) + multiset{e}
  {
    PutBag(ls, k, [e] + ls[k]);
    hide BagAll;
    AddOne(BagAll(ls), BagAll(ls[k := [e] + ls[k]]), multiset(ls[k]), e);
  }

  /** One element more at the end of a list. */
  lemma Appended<T>(ls: seq<seq<T>>, k: nat, e: T)
    requires k < |ls|
    ensures BagAll(ls[k := ls[k] + [e]]) == BagAll(ls) + multiset{e}
  {
    PutBag(ls, k, ls[k] + [e]);
    hide BagAll;
    assert multiset(ls[k] + [e]) == multiset{e} + multiset(ls[k]);
    AddOne(BagAll(ls), BagAll(ls[k := ls[k] + [e]]), multiset(ls[k]), e);
  }

  lemma AddOne<T>(a: multiset<T>, b: multiset<T>, i: multiset<T>, e: T)
    requires b + i == a + (multiset{e} + i)
    ensures b == a + multiset{e}
  {
    forall t
      ensures b[t] == (a + multiset{e})[t]
    {
      assert (b + i)[t] == (a + (multiset{e} + i))[t];
    }
  }

  /** An element of one list is replaced by x, and y joins another list. */
  lemma Split<T>(ls: seq<seq<T>>, i: nat, k: nat, x: T, j: nat, y: T)
    requires i < |ls| && j < |ls| && i != j && k < |ls[i]|
    ensures BagAll(ls[i := ls[i][k := x]][j := ls[j] + [y]]) + multiset{ls[i][k]} == BagAll(ls) + multiset{x, y}
  {
    var mid := ls[i := ls[i][k := x]];
    PutBag(ls, i, ls[i][k := x]);
    PutBag(mid, j, ls[j] + [y]);
    BagPut(ls[i], k, x);
    hide BagAll;
    CutBags(BagAll(ls), BagAll(mid), BagAll(mid[j := ls[j] + [y]]), multiset(ls[i]), multiset(ls[i][k := x]),
            multiset(ls[j]), ls[i][k], x, y);
  }

  lemma CutBags<T>(a: multiset<T>, m: multiset<T>, o: multiset<T>, h: multiset<T>, h2: multiset<T>, l: multiset<T>,
      b: T, x: T, y: T)
    requires m + h == a + h2 && o + l == m + (l + multiset{y}) && h2 + multiset{b} == h + multiset{x}
    ensures o + multiset{b} == a + multiset{x, y}
  {
    forall t
      ensures (o + multiset{b})[t] == (a + multiset{x, y})[t]
    {
      assert (m + h)[t] == (a + h2)[t] && (o + l)[t] == (m + (l + multiset{y}))[t];
      assert (h2 + multiset{b})[t] == (h + multiset{x})[t];
    }
  }

  lemma BagRemove<T>(s: seq<T>, k: nat)
    requires k < |s|
    ensures multiset(s) == multiset(s[..k] + s[k + 1..]) + multiset{s[k]}
  {
    assert s == s[..k] + [s[k]] + s[k + 1..];
  }

  lemma BagPut<T>(s: seq<T>, k: nat, b: T)
    requires k < |s|
    ensures multiset(s[k := b]) + multiset{s[k]} == multiset(s) + multiset{b}
  {
  }

  lemma BagHead<T>(s: seq<T>)
    requires s != []
    ensures multiset(s) == multiset(s[1..]) + multiset{s[0]}
  {
    assert s == [s[0]] + s[1..];
  }

  lemma {:induction false} InList<T>(ls: seq<seq<T>>, i: nat, b: T)
    requires i < |ls| && b in ls[i]
    ensures b in BagAll(ls)
  {
    if i > 0 {
      InList(ls[1..], i - 1, b);
    }
  }

  lemma {:induction false} FromList<T>(ls: seq<seq<T>>, b: T) returns (i: nat)
    requires b in BagAll(ls)
    ensures i < |ls| && b in ls[i]
  {
    if b in ls[0] {
      i := 0;
    } else {
      var j := FromList(ls[1..], b);
      i := j + 1;
    }
  }

  /** An element at two positions is in the bag twice. */
  lemma {:induction false} Twice<T>(ls: seq<seq<T>>, a: nat, i: nat, b: nat, j: nat)
    requires a <= b < |ls| && i < |ls[a]| && j < |ls[b]| && (a == b ==> i < j) && ls[a][i] == ls[b][j]
    ensures BagAll(ls)[ls[a][i]] >= 2
  {
    var e := ls[a][i];
    if a > 0 {
      Twice(ls[1..], a - 1, i, b - 1, j);
    } else if b > 0 {
      InList(ls[1..], b - 1, e);
      assert e in multiset(ls[0]);
    } else {
      BagRemove(ls[0], j);
      assert (ls[0][..j] + ls[0][j + 1..])[i] == e;
    }
  }
}

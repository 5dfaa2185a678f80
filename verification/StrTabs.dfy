/** Tabs for runs of spaces and back: Spaces2Tabs (HolyCRT/StrA.HC) and Tabs2Spaces
    (HolyCRT/StrB.HC). Strings are the characters before the terminating zero. */
module StrTabs {
  const CH_SPACE := ' '

  function Spaces(n: nat): (s: string)
    ensures |s| == n && forall i :: 0 <= i < n ==> s[i] == CH_SPACE
  {
    seq(n, _ => CH_SPACE)
  }

  // Columns to the next stop.
  function ToStop(c: nat): (k: nat)
    ensures 1 <= k <= 8 && (c + k) % 8 == 0
  {
    8 - c % 8
  }

  /** The text on the screen, from column c on. */
  function Untab(s: string, c: nat): (e: string)
    ensures |e| >= |s|
  {
    if s == [] then []
    else if s[0] == '\t' then Spaces(ToStop(c)) + Untab(s[1..], c + ToStop(c))
    else [s[0]] + Untab(s[1..], c + 1)
  }

  // Spaces a text begins with.
  function Leading(e: string): (n: nat)
    ensures n <= |e| && (n < |e| ==> e[n] != CH_SPACE) && forall i :: 0 <= i < n ==> e[i] == CH_SPACE
  {
    if e == [] || e[0] != CH_SPACE then 0 else 1 + Leading(e[1..])
  }

  /** Characters needed for a text: a run of spaces up to a stop takes one. */
  function Least(e: string, c: nat): nat
    decreases |e|
  {
    if e == [] then 0
    else if Leading(e) >= ToStop(c) then 1 + Least(e[ToStop(c)..], c + ToStop(c))
    else 1 + Least(e[1..], c + 1)
  }

  lemma LeadingRun(n: nat, e: string)
    ensures Leading(Spaces(n) + e) >= n
    ensures (e == [] || e[0] != CH_SPACE) ==> Leading(Spaces(n) + e) == n
  {
    var t := Spaces(n) + e;
    assert forall i :: 0 <= i < n ==> t[i] == CH_SPACE;
    assert e != [] ==> t[n] == e[0];
  }

  lemma {:induction false} UntabAppend(s: string, t: string, c: nat)
    ensures Untab(s + t, c) == Untab(s, c) + Untab(t, c + |Untab(s, c)|)
  {
    hide ToStop, Spaces;
    if s == [] {
      assert s + t == t;
    } else {
      assert (s + t)[1..] == s[1..] + t;
      UntabAppend(s[1..], t, if s[0] == '\t' then c + ToStop(c) else c + 1);
    }
  }

  lemma {:induction false} UntabSpaces(n: nat, t: string, c: nat)
    ensures Untab(Spaces(n) + t, c) == Spaces(n) + Untab(t, c + n)
  {
    hide ToStop, Spaces;
    if n == 0 {
      assert Spaces(0) + t == t;
    } else {
      assert Spaces(n) == [CH_SPACE] + Spaces(n - 1);
      assert Spaces(n) + t == [CH_SPACE] + (Spaces(n - 1) + t);
      assert (Spaces(n) + t)[1..] == Spaces(n - 1) + t;
      UntabSpaces(n - 1, t, c + 1);
      assert Spaces(n) + Untab(t, c + n) == [CH_SPACE] + (Spaces(n - 1) + Untab(t, c + n));
    }
  }

  lemma UntabTab(rest: string, c: nat)
    ensures Untab(['\t'] + rest, c) == Spaces(ToStop(c)) + Untab(rest, c + ToStop(c))
  {
    assert (['\t'] + rest)[1..] == rest;
  }

  lemma UntabChar(ch: char, rest: string, c: nat)
    requires ch != '\t'
    ensures Untab([ch] + rest, c) == [ch] + Untab(rest, c + 1)
  {
    assert ([ch] + rest)[1..] == rest;
  }

  lemma LeastStop(f: string, c: nat)
    ensures Least(Spaces(ToStop(c)) + f, c) == 1 + Least(f, c + ToStop(c))
  {
    var k := ToStop(c);
    LeadingRun(k, f);
    assert (Spaces(k) + f)[k..] == f;
    hide ToStop;
  }

  lemma LeastOne(ch: char, f: string, c: nat)
    requires Leading([ch] + f) < ToStop(c)
    ensures Least([ch] + f, c) == 1 + Least(f, c + 1)
  {
    assert ([ch] + f)[1..] == f;
  }

  // A run that reaches the stop takes no more characters without its first space.
  lemma LeastShorter(ch: char, f: string, c: nat)
    requires Leading([ch] + f) >= ToStop(c)
    ensures Least([ch] + f, c) <= 1 + Least(f, c + 1)
  {
    hide ToStop, Least, Leading;
    var e, k := [ch] + f, ToStop(c);
    LeadingCons(ch, f);
    LeastAtStop(e, c);
    TailOfCons(ch, f, k);
    if k > 1 {
      StopAhead(c, 1);
      LeastAtStop(f, c + 1);
    }
  }

  lemma LeadingCons(ch: char, f: string)
    requires Leading([ch] + f) > 0
    ensures Leading([ch] + f) == 1 + Leading(f)
  {
    assert ([ch] + f)[1..] == f;
  }

  lemma TailOfCons(ch: char, f: string, k: nat)
    requires 1 <= k <= 1 + |f|
    ensures ([ch] + f)[k..] == f[k - 1..]
  {
  }

  lemma LeastAtStop(e: string, c: nat)
    requires e != [] && Leading(e) >= ToStop(c)
    ensures Least(e, c) == 1 + Least(e[ToStop(c)..], c + ToStop(c))
  {
    hide ToStop, Leading;
  }

  lemma StopAhead(c: nat, n: nat)
    requires n < ToStop(c)
    ensures ToStop(c + n) == ToStop(c) - n
  {
  }

  lemma LeastNone(c: nat)
    ensures Least([], c) == 0
  {
  }

  /** No string is shorter than Least says if it looks like the text on the screen. */
  lemma {:induction false} LeastIsLeast(s: string, c: nat)
    ensures Least(Untab(s, c), c) <= |s|
  {
    hide Least, Leading, ToStop, Spaces;
    if s == [] {
      LeastNone(c);
    } else {
      assert s == [s[0]] + s[1..];
      if s[0] == '\t' {
        UntabTab(s[1..], c);
        LeastStop(Untab(s[1..], c + ToStop(c)), c);
        LeastIsLeast(s[1..], c + ToStop(c));
      } else {
        UntabChar(s[0], s[1..], c);
        var rest := Untab(s[1..], c + 1);
        LeastIsLeast(s[1..], c + 1);
        if Leading([s[0]] + rest) >= ToStop(c) {
          LeastShorter(s[0], rest, c);
        } else {
          LeastOne(s[0], rest, c);
        }
      }
    }
  }

  /** In the middle of the work on s: out is written and rest is still to be read. */
  ghost predicate Going(s: string, out: string, rest: string)
  {
    var c := |Untab(out, 0)|;
    && Untab(out, 0) + Untab(rest, c) == Untab(s, 0)
    && |out| + Least(Untab(rest, c), c) == Least(Untab(s, 0), 0)
  }

  lemma Begin(s: string)
    ensures Untab([], 0) == [] && Going(s, [], s)
  {
  }

  lemma Done(s: string, out: string)
    requires Going(s, out, [])
    ensures Untab(out, 0) == Untab(s, 0) && |out| == Least(Untab(s, 0), 0)
  {
  }

  lemma Written(out: string, ch: char)
    ensures var c := |Untab(out, 0)|;
            Untab(out + [ch], 0) == Untab(out, 0) + if ch == '\t' then Spaces(ToStop(c)) else [ch]
  {
    var c := |Untab(out, 0)|;
    UntabAppend(out, [ch], 0);
    assert [ch][1..] == [];
    assert Untab([ch], c) == if ch == '\t' then Spaces(ToStop(c)) else [ch];
  }

  // A run of spaces reaches the stop, and one character stands for it up to there.
  lemma EmitStop(s: string, out: string, n: nat, rest: string)
    requires Going(s, out, Spaces(n) + rest) && n >= ToStop(|Untab(out, 0)|)
    ensures var c := |Untab(out, 0)|; var k := ToStop(c);
            var more := out + [if k == 1 then CH_SPACE else '\t'];
            |Untab(more, 0)| == c + k && Going(s, more, Spaces(n - k) + rest)
  {
    hide Untab, Least, Leading, ToStop;
    var c := |Untab(out, 0)|;
    var k := ToStop(c);
    Written(out, if k == 1 then CH_SPACE else '\t');
    UntabSpaces(n, rest, c);
    UntabSpaces(n - k, rest, c + k);
    Consumed(n, k, Untab(rest, c + n));
    LeastStop(Spaces(n - k) + Untab(rest, c + n), c);
  }

  lemma Consumed(n: nat, k: nat, f: string)
    requires k <= n
    ensures Spaces(n) + f == Spaces(k) + (Spaces(n - k) + f) && Spaces(1) == [CH_SPACE]
  {
  }

  // A tab takes the spaces before it along.
  lemma EmitTab(s: string, out: string, n: nat, rest: string)
    requires Going(s, out, Spaces(n) + (['\t'] + rest)) && n < ToStop(|Untab(out, 0)|)
    ensures var c := |Untab(out, 0)|;
            |Untab(out + ['\t'], 0)| == c + ToStop(c) && Going(s, out + ['\t'], rest)
  {
    hide Untab, Least, Leading, ToStop;
    var c := |Untab(out, 0)|;
    var k := ToStop(c);
    StopAhead(c, n);
    Written(out, '\t');
    UntabSpaces(n, ['\t'] + rest, c);
    UntabTab(rest, c + n);
    Consumed(k, n, Untab(rest, c + k));
    LeastStop(Untab(rest, c + k), c);
  }

  // Any other character stands for itself.
  lemma EmitOne(s: string, out: string, ch: char, rest: string)
    requires Going(s, out, [ch] + rest) && ch != '\t'
    requires Leading(Untab([ch] + rest, |Untab(out, 0)|)) < ToStop(|Untab(out, 0)|)
    ensures |Untab(out + [ch], 0)| == |Untab(out, 0)| + 1 && Going(s, out + [ch], rest)
  {
    hide Untab, Least, Leading, ToStop;
    var c := |Untab(out, 0)|;
    Written(out, ch);
    UntabChar(ch, rest, c);
    LeastOne(ch, Untab(rest, c + 1), c);
    assert (Untab(out, 0) + [ch]) + Untab(rest, c + 1) == Untab(out, 0) + ([ch] + Untab(rest, c + 1));
  }

  lemma EmitOther(s: string, out: string, ch: char, rest: string)
    requires Going(s, out, [ch] + rest) && ch != '\t' && ch != CH_SPACE
    ensures |Untab(out + [ch], 0)| == |Untab(out, 0)| + 1 && Going(s, out + [ch], rest)
  {
    assert Untab([ch] + rest, |Untab(out, 0)|)[0] == ch;
    EmitOne(s, out, ch, rest);
  }

  lemma NoSpaceAhead(rest: string, c: nat)
    requires rest == [] || (rest[0] != CH_SPACE && rest[0] != '\t')
    ensures Untab(rest, c) == [] || Untab(rest, c)[0] != CH_SPACE
  {
  }

  // Spaces that do not reach the stop.
  lemma EmitSpace(s: string, out: string, n: nat, rest: string)
    requires Going(s, out, Spaces(n) + rest) && 0 < n < ToStop(|Untab(out, 0)|)
    requires rest == [] || (rest[0] != CH_SPACE && rest[0] != '\t')
    ensures |Untab(out + [CH_SPACE], 0)| == |Untab(out, 0)| + 1 && Going(s, out + [CH_SPACE], Spaces(n - 1) + rest)
  {
    hide Untab, Least, Leading, ToStop, Going;
    var c := |Untab(out, 0)|;
    UntabSpaces(n, rest, c);
    NoSpaceAhead(rest, c + n);
    LeadingRun(n, Untab(rest, c + n));
    assert Spaces(n) + rest == [CH_SPACE] + (Spaces(n - 1) + rest);
    EmitOne(s, out, CH_SPACE, Spaces(n - 1) + rest);
  }

  // ---- Tabs2Spaces ----

  /** One character is written, and the buffer doubled when only one more place is left behind it. */
  method Put(dst: array<char>, i: nat, ch: char) returns (out: array<char>)
    requires i + 2 <= dst.Length
    modifies dst
    ensures i + 3 <= out.Length && out[..i + 1] == old(dst[..i]) + [ch] && (out == dst || fresh(out))
    ensures if i + 2 < dst.Length then out == dst else fresh(out) && out.Length == 2 * dst.Length
  {
    dst[i] := ch;
    out := dst;
    if i >= dst.Length - 2 {
      out := new char[2 * dst.Length];
      forall k | 0 <= k < i + 1 {
        out[k] := dst[k];
      }
    }
  }

  // A tab: spaces up to the next stop.
  method PutTab(was: array<char>, col: nat) returns (dst: array<char>, j: nat)
    requires col + 2 <= was.Length
    modifies was
    ensures (dst == was || fresh(dst)) && j == col + ToStop(col) && j + 2 <= dst.Length
    ensures dst[..j] == old(was[..col]) + Spaces(j - col)
  {
    hide Spaces;
    NoSpaces();
    dst := was;
    var i := col;
    j := col + 8 - col % 8;
    while i < j
      invariant col <= i <= j && i + 2 <= dst.Length && (dst == was || fresh(dst))
      invariant dst[..i] == old(was[..col]) + Spaces(i - col)
    {
      OneSpaceMore(i - col);
      dst := Put(dst, i, CH_SPACE);
      i := i + 1;
    }
  }

  lemma NoSpaces()
    ensures Spaces(0) == []
  {
  }

  lemma OneSpaceMore(n: nat)
    ensures Spaces(n + 1) == Spaces(n) + [CH_SPACE]
  {
  }

  /** Tabs2Spaces: a new buffer with the text on the screen and a zero after it; no write is outside
      the buffer. */
  method Tabs2Spaces(src: string) returns (dst: array<char>, n: nat)
    ensures fresh(dst) && n < dst.Length && dst[..n] == Untab(src, 0) && dst[n] == '\0'
  {
    hide Untab, Spaces;
    Begin([]);
    dst := new char[2 * |src| + 2];
    var col, p := 0, 0;
    while p < |src|
      invariant 0 <= p <= |src| && 0 <= col && col + 2 <= dst.Length && fresh(dst)
      invariant dst[..col] == Untab(src[..p], 0)
    {
      assert src[..p + 1] == src[..p] + [src[p]];
      Written(src[..p], src[p]);
      if src[p] == '\t' {
        dst, col := PutTab(dst, col);
      } else {
        dst := Put(dst, col, src[p]);
        col := col + 1;
      }
      p := p + 1;
    }
    assert src[..p] == src;
    dst[col] := '\0';
    n := col;
  }

  // ---- Spaces2Tabs ----

  // A string of n characters in memory, and the zero after it.
  ghost predicate Holds(a: array<char>, n: nat)
    reads a
  {
    n < a.Length && a[n] == '\0' && forall i :: 0 <= i < n ==> a[i] != '\0'
  }

  method SkipSpaces(src: array<char>, p: nat, ghost n: nat) returns (q: nat)
    requires p <= n < src.Length && src[n] == '\0'
    ensures p <= q <= n && src[q] != CH_SPACE && forall i :: p <= i < q ==> src[i] == CH_SPACE
  {
    q := p;
    while src[q] == CH_SPACE
      invariant p <= q <= n && forall i :: p <= i < q ==> src[i] == CH_SPACE
      decreases n - q
    {
      q := q + 1;
    }
  }

  method Emit(dst: array<char>, d: nat, ch: char) returns (e: nat)
    requires d < dst.Length
    modifies dst
    ensures e == d + 1 && dst[..e] == old(dst[..d]) + [ch]
    ensures forall i :: 0 <= i < dst.Length && i != d ==> dst[i] == old(dst[i])
  {
    dst[d] := ch;
    e := d + 1;
  }

  // Of cnt pending spaces, those up to a stop are written as one character each time.
  method Stops(dst: array<char>, d0: nat, cnt0: nat, col0: nat, chged0: int, ghost q: nat,
      ghost s: string, ghost rest: string)
    returns (d: nat, cnt: nat, col: nat, chged: int)
    requires d0 + cnt0 <= q < dst.Length && col0 == |Untab(dst[..d0], 0)| % 8
    requires Going(s, dst[..d0], Spaces(cnt0) + rest)
    modifies dst
    ensures d + cnt <= q && d + chged + cnt == d0 + chged0 + cnt0 && col == |Untab(dst[..d], 0)| % 8 && col + cnt < 8
    ensures Going(s, dst[..d], Spaces(cnt) + rest)
    ensures forall i :: q <= i < dst.Length ==> dst[i] == old(dst[i])
  {
    hide Going, Untab;
    d, cnt, col, chged := d0, cnt0, col0, chged0;
    while col + cnt >= 8
      invariant d + cnt <= q && d + chged + cnt == d0 + chged0 + cnt0 && col == |Untab(dst[..d], 0)| % 8
      invariant Going(s, dst[..d], Spaces(cnt) + rest)
      invariant forall i :: q <= i < dst.Length ==> dst[i] == old(dst[i])
      decreases cnt
    {
      var cnt2 := 8 - col;
      EmitStop(s, dst[..d], cnt, rest);
      if cnt2 == 1 {
        d := Emit(dst, d, CH_SPACE);
      } else {
        d := Emit(dst, d, '\t');
        chged := chged + (cnt2 - 1);
      }
      cnt := cnt - cnt2;
      col := 0;
    }
  }

  // Spaces short of a stop are written as they are.
  method Rest(dst: array<char>, d0: nat, cnt0: nat, col0: nat, ghost q: nat, ghost s: string, ghost rest: string)
    returns (d: nat, col: nat)
    requires d0 + cnt0 <= q < dst.Length && col0 == |Untab(dst[..d0], 0)| % 8 && col0 + cnt0 < 8
    requires Going(s, dst[..d0], Spaces(cnt0) + rest) && (rest == [] || (rest[0] != CH_SPACE && rest[0] != '\t'))
    modifies dst
    ensures d == d0 + cnt0 && col == |Untab(dst[..d], 0)| % 8 && Going(s, dst[..d], rest)
    ensures forall i :: q <= i < dst.Length ==> dst[i] == old(dst[i])
  {
    hide Going, Untab, Spaces, ToStop;
    d, col := d0, col0;
    var cnt := cnt0;
    while cnt > 0
      invariant d + cnt == d0 + cnt0 && col == |Untab(dst[..d], 0)| % 8 && col + cnt < 8
      invariant Going(s, dst[..d], Spaces(cnt) + rest)
      invariant forall i :: q <= i < dst.Length ==> dst[i] == old(dst[i])
      decreases cnt
    {
      NextColumn(|Untab(dst[..d], 0)|, col, cnt);
      EmitSpace(s, dst[..d], cnt, rest);
      d := Emit(dst, d, CH_SPACE);
      col := col + 1;
      if col == 8 {
        assert false;
      }
      cnt := cnt - 1;
    }
    assert Spaces(0) == [] && Spaces(0) + rest == rest;
  }

  // A tab takes the spaces before it.
  method Tab(dst: array<char>, d0: nat, cnt: nat, col0: nat, chged0: int, ghost s: string, ghost rest: string)
    returns (d: nat, col: nat, chged: int)
    requires d0 < dst.Length && col0 == |Untab(dst[..d0], 0)| % 8 && col0 + cnt < 8
    requires Going(s, dst[..d0], Spaces(cnt) + (['\t'] + rest))
    modifies dst
    ensures d == d0 + 1 && chged == chged0 + cnt && col == |Untab(dst[..d], 0)| % 8 && Going(s, dst[..d], rest)
    ensures forall i :: 0 <= i < dst.Length && i != d0 ==> dst[i] == old(dst[i])
  {
    hide Going, Untab, Spaces;
    EmitTab(s, dst[..d0], cnt, rest);
    chged := chged0;
    if cnt == 1 && col0 == 7 {
      assert false;
    } else {
      chged := chged + cnt;
    }
    d := Emit(dst, d0, '\t');
    col := 0;
  }

  // Not at a stop yet.
  lemma NextColumn(c: nat, col: nat, n: nat)
    requires col == c % 8 && 0 < n && col + n < 8
    ensures n < ToStop(c) && col + 1 == (c + 1) % 8
  {
  }

  method Other(dst: array<char>, d0: nat, col0: nat, ch: char, ghost s: string, ghost rest: string) returns (d: nat, col: nat)
    requires d0 < dst.Length && col0 == |Untab(dst[..d0], 0)| % 8 && ch != CH_SPACE && ch != '\t'
    requires Going(s, dst[..d0], [ch] + rest)
    modifies dst
    ensures d == d0 + 1 && col == |Untab(dst[..d], 0)| % 8 && Going(s, dst[..d], rest)
    ensures forall i :: 0 <= i < dst.Length && i != d0 ==> dst[i] == old(dst[i])
  {
    EmitOther(s, dst[..d0], ch, rest);
    hide Going, Untab;
    d := Emit(dst, d0, ch);
    col := if col0 + 1 == 8 then 0 else col0 + 1;
  }

  /** Spaces2Tabs, also in place. What is written looks the same on the screen, is as short as any
      string that does, and the result is what was saved. */
  method Spaces2Tabs(dst: array<char>, src: array<char>, ghost n: nat) returns (chged: int, ghost m: nat)
    requires Holds(src, n) && n < dst.Length
    modifies dst
    ensures m <= n && dst[m] == '\0' && chged == n - m
    ensures Untab(dst[..m], 0) == Untab(old(src[..n]), 0) && m == Least(Untab(old(src[..n]), 0), 0)
    ensures forall i :: n < i < dst.Length ==> dst[i] == old(dst[i])
  {
    hide Going, Untab, Least, Spaces;
    ghost var s := src[..n];
    var p, d, col := 0, 0, 0;
    chged := 0;
    Begin(s);
    assert dst[..0] == [] && s[0..] == s;
    if src[0] != '\0' {
      while true
        invariant 0 <= d <= p <= n && col == |Untab(dst[..d], 0)| % 8 && d + chged == p
        invariant forall i :: p <= i <= n ==> src[i] == old(src[i])
        invariant forall i :: n < i < dst.Length ==> dst[i] == old(dst[i])
        invariant Going(s, dst[..d], s[p..])
        decreases n - p
      {
        var q := SkipSpaces(src, p, n);
        var cnt := q - p;
        ghost var rest := s[q..];
        assert s[p..] == Spaces(cnt) + rest;
        d, cnt, col, chged := Stops(dst, d, cnt, col, chged, q, s, rest);
        if src[q] == '\t' {
          assert rest == ['\t'] + s[q + 1..];
          d, col, chged := Tab(dst, d, cnt, col, chged, s, s[q + 1..]);
        } else {
          d, col := Rest(dst, d, cnt, col, q, s, rest);
          if src[q] != '\0' {
            assert rest == [src[q]] + s[q + 1..];
            d, col := Other(dst, d, col, src[q], s, s[q + 1..]);
          } else {
            p := q;
            break;
          }
        }
        p := q + 1;
      }
    }
    dst[d] := '\0';
    m := d;
    Done(s, dst[..m]);
  }
}

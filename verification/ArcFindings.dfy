/** Inputs that show the misread does happen, at both lengths, and expansion in pieces. */
module ArcFindings {
  import opened Bits
  import opened ArcTrie
  import opened ArcCodec
  import opened ArcBuffers
  import opened ArcPhrases
  import opened ArcExact

  // The 128 seven-bit characters in order: no pair repeats, so every code is a single character.
  function Ascending(): (s: seq<nat>)
    ensures |s| == 128 && Below(s, 128)
  {
    seq(128, i requires 0 <= i < 128 => i)
  }

  lemma AscendingFits()
    ensures ExactFit(Ascending()) && Ascending()[127] == 127
  {
    var s := Ascending();
    forall i | 0 <= i < |s| - 1
      ensures PairFresh({}, s, i)
    {
      forall j | 0 <= j < i
        ensures Pair(s, j) != Pair(s, i)
      {
        assert Pair(s, j)[0] == j && Pair(s, i)[0] == i;
      }
    }
    SevenBitFit(s);
  }

  /** With the bit past the destination set, compressing the 128 characters in order and expanding
      again gives a zero in place of the last character. */
  lemma MisreadHappens(mem: seq<bool>, mapped: nat)
    requires Destination(Ascending(), mem) && mem[DstSize(Ascending())] && mapped >= 128
    ensures Misread(Ascending(), mem)
    ensures ExpandArchive(Compress(Ascending(), mem), mapped) == Expanded(Ascending()[..127] + [0]) != Expanded(Ascending())
  {
    hide Compress, ExpandArchive, ExactFit, Misread, Ascending;
    var src := Ascending();
    AscendingFits();
    assert (src[..127] + [0])[127] != src[127];
    MisreadExactly(src, mem);
    ExpandOfCompress(src, mem, mapped);
  }

  // ---- The other length ----

  // The bytes 0 to 222, then 0 to 63 again, two at a time, then one more.
  function Wide(): (s: seq<nat>)
    ensures |s| == 288 && Below(s, 256)
  {
    seq(288, i requires 0 <= i < 288 => WideAt(i))
  }

  function WideAt(i: nat): nat
    requires i < 288
  {
    if i < 223 then i else if i < 287 then i - 223 else 200
  }

  // The input from byte k on.
  function From(k: nat): (s: seq<nat>)
    requires k <= 288
    ensures |s| == 288 - k
  {
    Wide()[k..]
  }

  lemma FromStep(k: nat)
    requires k < 287
    ensures var s := From(k);
            && s[0] == WideAt(k) && s[1] == WideAt(k + 1) && s[1..] == From(k + 1)
            && (k < 286 ==> s[2] == WideAt(k + 2) && s[2..] == From(k + 2))
  {
  }

  predicate PairIn(words: Words, j: nat)
  {
    [j, j + 1] in words
  }

  // The pairs of the first part are known before its byte k, and nothing that begins with byte k.
  ghost predicate PairsBefore(words: Words, k: nat)
  {
    && (forall w :: w in words ==> |w| == 2 && w[0] < k)
    && (forall j :: 0 <= j < k && j < 222 ==> PairIn(words, j))
  }

  // In the second part, before its pair i.
  ghost predicate TriplesBefore(words: Words, i: nat)
  {
    && (forall w :: w in words ==> |w| == 2 || (|w| == 3 && w[0] < 2 * i))
    && (forall j :: 0 <= j < 222 ==> PairIn(words, j))
  }

  lemma OneStep(words: Words, s: seq<nat>)
    requires |s| >= 2 && [s[0], s[1]] !in words
    ensures Phrases(words, s) == [[s[0]]] + Phrases(words + {[s[0], s[1]]}, s[1..])
  {
    hide Phrases, Unread;
    FirstPhrase(words, s);
    assert s[..2] == [s[0], s[1]] && s[..1] == [s[0]];
  }

  lemma TwoStep(words: Words, s: seq<nat>)
    requires |s| >= 3 && [s[0], s[1]] in words && [s[0], s[1], s[2]] !in words
    ensures Phrases(words, s) == [[s[0], s[1]]] + Phrases(words + {[s[0], s[1], s[2]]}, s[2..])
  {
    hide Phrases;
    assert s[..1] + [s[1..][0]] == [s[0], s[1]] && s[1..][1..] == s[2..];
    assert [s[0], s[1]] + [s[2..][0]] == [s[0], s[1], s[2]];
    assert Unread(words, [s[0], s[1]], s[2..]) == s[2..];
    assert Unread(words, s[..1], s[1..]) == s[2..];
    hide Unread;
    PhrasesStep(words, s);
    assert s[..2] == [s[0], s[1]];
  }

  lemma PairsStay(words: Words, w: seq<nat>, n: nat)
    requires forall j :: 0 <= j < n ==> PairIn(words, j)
    ensures forall j :: 0 <= j < n ==> PairIn(words + {w}, j)
  {
    forall j | 0 <= j < n
      ensures PairIn(words + {w}, j)
    {
      assert PairIn(words, j);
    }
  }

  lemma FirstPart(words: Words, k: nat)
    requires k < 223 && PairsBefore(words, k)
    ensures var more := words + {[k, WideAt(k + 1)]};
            Phrases(words, From(k)) == [[k]] + Phrases(more, From(k + 1)) && PairsBefore(more, k + 1)
  {
    hide Phrases, From;
    FromStep(k);
    OneStep(words, From(k));
    PairsStay(words, [k, WideAt(k + 1)], if k < 222 then k else 222);
  }

  lemma SecondPart(words: Words, i: nat)
    requires i < 32 && TriplesBefore(words, i)
    ensures var k := 223 + 2 * i;
            var more := words + {[2 * i, 2 * i + 1, WideAt(k + 2)]};
            && Phrases(words, From(k)) == [[2 * i, 2 * i + 1]] + Phrases(more, From(k + 2))
            && TriplesBefore(more, i + 1)
  {
    hide Phrases, From;
    assert PairIn(words, 2 * i);
    FromStep(223 + 2 * i);
    TwoStep(words, From(223 + 2 * i));
    PairsStay(words, [2 * i, 2 * i + 1, WideAt(223 + 2 * i + 2)], 222);
  }

  lemma {:induction false} FirstCount(words: Words, k: nat)
    requires k <= 223 && PairsBefore(words, k)
    ensures var ps := Phrases(words, From(k));
            |ps| == 256 - k && |ps[|ps| - 1]| == 1
    decreases 223 - k
  {
    hide Phrases, From, PairsBefore;
    if k < 223 {
      FirstPart(words, k);
      FirstCount(words + {[k, WideAt(k + 1)]}, k + 1);
    } else {
      Between(words);
      SecondCount(words, 0);
    }
  }

  lemma Between(words: Words)
    requires PairsBefore(words, 223)
    ensures TriplesBefore(words, 0)
  {
  }

  lemma {:induction false} SecondCount(words: Words, i: nat)
    requires i <= 32 && TriplesBefore(words, i)
    ensures var ps := Phrases(words, From(223 + 2 * i));
            |ps| == 33 - i && |ps[|ps| - 1]| == 1
    decreases 32 - i
  {
    hide Phrases, From, TriplesBefore;
    if i < 32 {
      SecondPart(words, i);
      SecondCount(words + {[2 * i, 2 * i + 1, WideAt(223 + 2 * i + 2)]}, i + 1);
    } else {
      OnePhrase(words, From(287));
    }
  }

  lemma WholeWide()
    ensures From(0) == Wide() && CompressionType(Wide()) == CT_8_BIT && Wide()[287] == 200
  {
    assert Wide()[222] == 222;
  }

  /** The length for other bytes is needed as well: this input of 288 bytes comes back with its last
      byte zero if the bit past the destination is set. */
  lemma WideMisread(mem: seq<bool>, mapped: nat)
    requires Destination(Wide(), mem) && mem[DstSize(Wide())] && mapped >= 288
    ensures ExactFit(Wide())
    ensures ExpandArchive(Compress(Wide(), mem), mapped) != Expanded(Wide())
  {
    hide Compress, ExpandArchive, Phrases, Wide;
    FirstCount({}, 0);
    WholeWide();
    Pow2s();
    RoundTrip(Wide(), mem, mapped);
  }

  // ---- Expansion in pieces ----

  /** Expanding n characters and then m more, with the control block kept in between, gives what
      expanding n + m at once gives. */
  lemma {:induction false} ExpandInPieces(x: Expander, bits: seq<bool>, srcSize: nat, n: nat, m: nat)
    requires ExpanderOk(x) && srcSize <= |bits| && Expand(x, bits, srcSize, n).Piece?
    ensures var p := Expand(x, bits, srcSize, n);
            |p.out| == n ==> Expand(x, bits, srcSize, n + m) == Prepend(p.out, Expand(p.x, bits, srcSize, m))
    decreases n, if x.pending == [] then 2 else 0
  {
    hide CodeAt, CanGet, TakeCode, WellFormed, Loop;
    var s := x.pending;
    if |s| >= n {
      DrainInPieces(x, bits, srcSize, n, m);
    } else if x.saved != NONE {
      LoopInPieces(x.(pending := []), bits, srcSize, n - |s|, m);
      var q := Loop(x.(pending := []), bits, srcSize, n - |s|);
      PrependTwice(s, q.out, Expand(q.x, bits, srcSize, m));
    } else {
      var t := s + [CodeAt(x, bits) % 256];
      LoopInPieces(AfterFirst(x, bits), bits, srcSize, n - |t|, m);
      var q := Loop(AfterFirst(x, bits), bits, srcSize, n - |t|);
      PrependTwice(t, q.out, Expand(q.x, bits, srcSize, m));
    }
  }

  lemma {:induction false} LoopInPieces(x: Expander, bits: seq<bool>, srcSize: nat, n: nat, m: nat)
    requires InLoop(x) && srcSize <= |bits| && Loop(x, bits, srcSize, n).Piece?
    ensures var p := Loop(x, bits, srcSize, n);
            |p.out| == n ==> Loop(x, bits, srcSize, n + m) == Prepend(p.out, Expand(p.x, bits, srcSize, m))
    decreases n, 1
  {
    if n == 0 {
      PrependNothing(Loop(x, bits, srcSize, m));
      PrependNothing(Expand(x, bits, srcSize, m));
      assert x.(pending := []) == x;
    } else if x.srcPos + x.arc.nextBits <= srcSize {
      ExpandInPieces(TakeCode(x, bits).x, bits, srcSize, n, m);
    }
  }
}

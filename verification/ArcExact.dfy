/** When CompressBuf and ExpandBuf give an input back, told from the input alone: always, but for
    two lengths at which the phrases can end exactly where the fields widen. */
module ArcExact {
  import opened Bits
  import opened ArcTrie
  import opened ArcCodec
  import opened ArcRoundTrip
  import opened ArcBuffers
  import opened ArcPhrases

  // ---- Where the compressor stands ----

  // Bits put out for codes, from the next free entry and the width of the last code.
  function BitsOut(minBits: nat, free: nat, width: nat): int
  {
    if minBits == 7 then
      if width == 8 then 8 * (free - 129)
      else if width == 9 then 1016 + 9 * (free - 256)
      else if width == 10 then 3320 + 10 * (free - 512)
      else 8440 + 11 * (free - 1024)
    else
      if width == 9 then 9 * (free - 257)
      else if width == 10 then 2295 + 10 * (free - 512)
      else 7415 + 11 * (free - 1024)
  }

  /** Until the widest fields are in use, the position follows from the number of codes. */
  ghost predicate Placed(c: Comp)
  {
    (c.arc.minBits == 7 || c.arc.minBits == 8) && c.arc.curBits > c.arc.minBits &&
    (c.arc.used && c.arc.curBits < ARC_BITS_MAX ==>
      Pace(c.arc) && c.pos == HEADER_BITS + BitsOut(c.arc.minBits, c.arc.freeIdx, c.arc.curBits))
  }

  lemma Pow2s()
    ensures Pow2(7) == 128 && Pow2(8) == 256 && Pow2(9) == 512 && Pow2(10) == 1024 && Pow2(11) == 2048
  {
    Pow2Table();
    assert Pow2(10) == 2 * Pow2(9) && Pow2(11) == 2 * Pow2(10);
  }

  lemma TurnPlaced(c: Comp)
    requires CompOk(c) && c.src != [] && c.arc.used && Placed(c)
    ensures Placed(Turn(c)) && Turn(c).arc.minBits == c.arc.minBits
    ensures !Turn(c).arc.used ==> Turn(c).src == []
  {
    TurnWidth(c);
    if c.arc.nextBits < ARC_BITS_MAX {
      TurnPace(c);
      Pow2s();
    }
    hide Turn, WellFormed, Pow2;
  }

  lemma TurnWidth(c: Comp)
    requires CompOk(c) && c.src != [] && c.arc.used
    ensures Turn(c).arc.curBits == c.arc.nextBits >= c.arc.curBits && Turn(c).arc.minBits == c.arc.minBits
    ensures !Turn(c).arc.used ==> Turn(c).src == []
    ensures c.arc.nextBits <= ARC_BITS_MAX
  {
    TurnIs(c);
    GetWellFormed(c.arc);
    hide Walk, Turn;
  }

  lemma {:induction false} EncodePlaced(c: Comp, size: nat)
    requires CompOk(c) && c.arc.used && Placed(c)
    ensures Placed(Encode(c, size)) && Encode(c, size).arc.minBits == c.arc.minBits
    decreases |c.src|
  {
    hide Placed, Turn, WellFormed;
    if c.src != [] && c.pos + c.arc.curBits <= size {
      TurnPlaced(c);
      if Turn(c).arc.used {
        EncodePlaced(Turn(c), size);
      }
    }
  }

  // The widened field passes the end of a whole number of bytes once only.
  lemma WidensInStep(r: Comp, n: nat)
    requires Placed(r) && r.arc.used && WellFormed(r.arc)
    requires r.pos + r.arc.curBits <= HEADER_BITS + 8 * n < r.pos + r.arc.nextBits
    ensures r.arc.curBits == r.arc.minBits + 1 && r.arc.freeIdx == Pow2(r.arc.curBits)
    ensures n == if r.arc.minBits == 7 then 128 else 288
  {
    Pow2s();
    hide Pow2;
  }

  // ---- The inputs that end there ----

  /** The input falls into one phrase for each entry the first width leaves to fill, the last phrase
      is a single character, and the codes then fill the destination exactly. */
  ghost predicate ExactFit(src: seq<nat>)
  {
    && |src| == (if CompressionType(src) == CT_7_BIT then 128 else 288)
    && var ps := Phrases({}, src);
       |ps| == Pow2(MinBits(src)) && |ps[|ps| - 1]| == 1
  }

  lemma Starts(src: seq<nat>, mem: seq<bool>)
    requires src != [] && Below(src, 256)
    ensures var c, m := Start(src, mem), MinBits(src);
            && CompOk(c) && Placed(c) && Pace(c.arc) && Cutting(c, Roots(m), {})
            && c.arc.minBits == m && c.arc.curBits == m + 1 && c.arc.freeIdx == Pow2(m) + 1 && c.pos == HEADER_BITS
            && [c.base] + c.src == src && c.arc.used
  {
    Pow2s();
    var c, d := Start(src, mem), Roots(MinBits(src));
    hide Inv, WellFormed, Live, CompOk, Pow2, Knows;
    RootsKnown(c.arc, MinBits(src));
  }

  lemma RootsKnown(a: Arc, m: nat)
    requires a.minBits == m
    ensures Knows(a, Roots(m), {})
  {
    var d := Roots(m);
    forall b, k | b in d && k in d && d[b] == d[k]
      ensures b == k
    {
      assert [b][0] == [k][0];
    }
  }

  /** The misread, from the input and the bit of memory past the destination. */
  lemma MisreadExactly(src: seq<nat>, mem: seq<bool>)
    requires Below(src, 256) && Destination(src, mem)
    ensures Misread(src, mem) <==> ExactFit(src) && mem[DstSize(src)]
  {
    if src != [] {
      Starts(src, mem);
      if Misread(src, mem) {
        EndsInStep(src, mem);
      }
      if ExactFit(src) {
        FitsExactly(src, mem);
      }
    }
  }

  lemma EndsInStep(src: seq<nat>, mem: seq<bool>)
    requires Below(src, 256) && Destination(src, mem) && src != []
    requires Finishes(Start(src, mem), DstSize(src)) && ReadsPastEnd(Start(src, mem), DstSize(src))
    ensures ExactFit(src)
  {
    hide Placed, Pace, Cutting, WellFormed, Live, Start, Phrases, Encode, Pow2, Destination, Below, CompressionType;
    Starts(src, mem);
    var c, size := Start(src, mem), DstSize(src);
    EncodePlaced(c, size);
    var r := Encode(c, size);
    assert WellFormed(r.arc);
    WidensInStep(r, |src|);
    CodesArePhrases(c, Roots(MinBits(src)), {}, size);
    Doubles(MinBits(src));
  }

  lemma Doubles(m: nat)
    requires m == 7 || m == 8
    ensures Pow2(m + 1) == 2 * Pow2(m) && Pow2(m) == (if m == 7 then 128 else 256)
  {
    Pow2s();
  }

  lemma FitsExactly(src: seq<nat>, mem: seq<bool>)
    requires Below(src, 256) && Destination(src, mem) && src != [] && ExactFit(src)
    ensures Finishes(Start(src, mem), DstSize(src)) && ReadsPastEnd(Start(src, mem), DstSize(src))
  {
    hide Placed, Cutting, WellFormed, Live, Start, Phrases, Encode, Pow2, Destination, Below, CompressionType;
    Starts(src, mem);
    Doubles(MinBits(src));
    PhrasesAreCodes(Start(src, mem), Roots(MinBits(src)), {}, DstSize(src));
  }

  // ---- The round trip ----

  /** ExpandBuf gives back what CompressBuf was given, if and only if not all of this is so: the input
      ends where the fields widen, its last byte is not zero, and the bit of memory past the
      destination is set. */
  lemma RoundTrip(src: seq<nat>, mem: seq<bool>, mapped: nat)
    requires Below(src, 256) && Destination(src, mem) && |src| <= mapped
    ensures ExpandArchive(Compress(src, mem), mapped) == Expanded(src)
            <==> !(ExactFit(src) && mem[DstSize(src)] && src[|src| - 1] != 0)
  {
    hide Compress, ExpandArchive, Misread, Phrases, Below, CompressionType;
    ExpandOfCompress(src, mem, mapped);
    PatchedIsSame(src, Misread(src, mem));
    MisreadExactly(src, mem);
  }

  /** An input of any length but 128 for seven-bit text and 288 for other bytes always comes back,
      whatever memory holds. */
  lemma OtherLengthsComeBack(src: seq<nat>, mem: seq<bool>, mapped: nat)
    requires Below(src, 256) && Destination(src, mem) && |src| <= mapped
    requires |src| != if CompressionType(src) == CT_7_BIT then 128 else 288
    ensures ExpandArchive(Compress(src, mem), mapped) == Expanded(src)
  {
    hide *;
    RoundTrip(src, mem, mapped);
    NoFit(src);
  }

  lemma NoFit(src: seq<nat>)
    requires |src| != if CompressionType(src) == CT_7_BIT then 128 else 288
    ensures !ExactFit(src)
  {
  }

  /** The inputs that come back whatever memory holds are told by the input alone. */
  lemma SafeExactly(src: seq<nat>, mapped: nat)
    requires Below(src, 256) && |src| <= mapped
    ensures (forall mem :: Destination(src, mem) ==> ExpandArchive(Compress(src, mem), mapped) == Expanded(src))
            <==> !(ExactFit(src) && src[|src| - 1] != 0)
  {
    hide ExpandArchive, Compress, Phrases, Below, CompressionType;
    forall mem | Destination(src, mem)
      ensures ExpandArchive(Compress(src, mem), mapped) == Expanded(src)
              <==> !(ExactFit(src) && mem[DstSize(src)] && src[|src| - 1] != 0)
    {
      RoundTrip(src, mem, mapped);
    }
    var set1 := seq(DstSize(src), _ => false) + seq(64, _ => true);
    assert Destination(src, set1) && set1[DstSize(src)];
  }

  // ---- Seven-bit text ----

  function Pair(s: seq<nat>, i: nat): (p: seq<nat>)
    requires i + 2 <= |s|
    ensures p == s[i..i + 2]
  {
    [s[i], s[i + 1]]
  }

  ghost predicate PairFresh(words: Words, s: seq<nat>, i: nat)
    requires i + 2 <= |s|
  {
    Pair(s, i) !in words && forall j :: 0 <= j < i ==> Pair(s, j) != Pair(s, i)
  }

  // No pair of neighbours comes twice, nor is it among words.
  ghost predicate PairsFresh(words: Words, s: seq<nat>)
  {
    forall i :: 0 <= i < |s| - 1 ==> PairFresh(words, s, i)
  }

  lemma {:induction false} SinglePhrases(words: Words, s: seq<nat>)
    requires s != []
    ensures var ps := Phrases(words, s);
            && |ps| <= |s|
            && (|ps| == |s| ==> |ps[|ps| - 1]| == 1)
            && (|ps| == |s| <==> PairsFresh(words, s))
    decreases |s|
  {
    hide Phrases, Unread, PairsFresh, Total;
    PhrasesStep(words, s);
    if |s| == 1 {
      OnePhrase(words, s);
      OneFresh(words, s);
    } else {
      FirstPhrase(words, s);
      if s[..2] in words {
        LongPhrase(words, s);
        NotFresh(words, s);
      } else {
        SinglePhrases(words + {s[..2]}, s[1..]);
        FreshStep(words, s);
      }
    }
  }

  lemma OneFresh(words: Words, s: seq<nat>)
    requires |s| == 1
    ensures PairsFresh(words, s)
  {
  }

  lemma FirstPhrase(words: Words, s: seq<nat>)
    requires |s| > 1
    ensures s[..2] in words <==> |Unread(words, s[..1], s[1..])| < |s| - 1
    ensures s[..2] !in words ==> Phrases(words, s) == [s[..1]] + Phrases(words + {s[..2]}, s[1..])
  {
    assert s[..1] + [s[1..][0]] == s[..2];
    assert s[1..] != [];
  }

  lemma {:induction false} TotalAtLeast(ps: seq<seq<nat>>)
    requires forall i :: 0 <= i < |ps| ==> |ps[i]| >= 1
    ensures Total(ps) >= |ps|
  {
    if ps != [] {
      TotalAtLeast(ps[1..]);
    }
  }

  lemma LongPhrase(words: Words, s: seq<nat>)
    requires |s| > 1 && s[..2] in words
    ensures |Phrases(words, s)| < |s|
  {
    var ps := Phrases(words, s);
    PhrasesCover(words, s);
    FirstPhrase(words, s);
    PhrasesStep(words, s);
    TotalAtLeast(ps[1..]);
    assert |ps[0]| >= 2;
  }

  lemma NotFresh(words: Words, s: seq<nat>)
    requires |s| > 1 && s[..2] in words
    ensures !PairsFresh(words, s)
  {
    assert Pair(s, 0) == s[..2];
    assert !PairFresh(words, s, 0);
  }

  lemma FreshStep(words: Words, s: seq<nat>)
    requires |s| > 1 && s[..2] !in words
    ensures PairsFresh(words, s) <==> PairsFresh(words + {s[..2]}, s[1..])
  {
    var t, more := s[1..], words + {s[..2]};
    assert Pair(s, 0) == s[..2];
    forall i | 0 <= i < |t| - 1
      ensures Pair(t, i) == Pair(s, i + 1)
    {
    }
    if PairsFresh(words, s) {
      forall i | 0 <= i < |t| - 1
        ensures PairFresh(more, t, i)
      {
        assert PairFresh(words, s, i + 1);
        forall j | 0 <= j < i
          ensures Pair(t, j) != Pair(t, i)
        {
          assert Pair(s, j + 1) != Pair(s, i + 1);
        }
      }
    }
    if PairsFresh(more, t) {
      forall i | 0 <= i < |s| - 1
        ensures PairFresh(words, s, i)
      {
        if i > 0 {
          assert PairFresh(more, t, i - 1);
          forall j | 0 <= j < i
            ensures Pair(s, j) != Pair(s, i)
          {
            assert j > 0 ==> Pair(t, j - 1) != Pair(t, i - 1);
          }
        }
      }
    }
  }

  /** Seven-bit text ends where the fields widen if and only if it has 128 characters and no two of
      its 127 pairs of neighbours are alike. */
  lemma SevenBitFit(src: seq<nat>)
    requires Below(src, 128)
    ensures ExactFit(src) <==> |src| == 128 && PairsFresh({}, src)
  {
    Pow2s();
    if src != [] {
      SinglePhrases({}, src);
    }
  }
}

/** The phrases an input falls into: LZW as it is usually told, with a set of known strings and
    neither codes nor a table, and the proof that the compressor cuts its input into these phrases
    as long as its table grows. */
module ArcPhrases {
  import opened Bits
  import opened ArcTrie
  import opened ArcCodec
  import opened ArcRoundTrip

  type Words = set<seq<nat>>

  // What is left unread once p has been read on as far as known strings go.
  function Unread(words: Words, p: seq<nat>, src: seq<nat>): (rest: seq<nat>)
    ensures |rest| <= |src|
    decreases |src|
  {
    if src != [] && p + [src[0]] in words then Unread(words, p + [src[0]], src[1..]) else src
  }

  // The longest known string in front is a phrase; with the character after it, it is known too.
  function Phrases(words: Words, src: seq<nat>): (ps: seq<seq<nat>>)
    requires src != []
    ensures ps != []
    decreases |src|
  {
    var rest := Unread(words, src[..1], src[1..]);
    var p := src[..|src| - |rest|];
    if rest == [] then [p] else [p] + Phrases(words + {p + [rest[0]]}, rest)
  }

  // Every character is in one phrase.
  function Total(ps: seq<seq<nat>>): nat
  {
    if ps == [] then 0 else |ps[0]| + Total(ps[1..])
  }

  lemma {:induction false} PhrasesCover(words: Words, src: seq<nat>)
    requires src != []
    ensures Total(Phrases(words, src)) == |src|
    ensures forall i :: 0 <= i < |Phrases(words, src)| ==> |Phrases(words, src)[i]| >= 1
    decreases |src|
  {
    var rest := Unread(words, src[..1], src[1..]);
    var p := src[..|src| - |rest|];
    if rest == [] {
      assert Phrases(words, src)[1..] == [];
    } else {
      PhrasesCover(words + {p + [rest[0]]}, rest);
      assert Phrases(words, src)[1..] == Phrases(words + {p + [rest[0]]}, rest);
    }
  }

  /** The table knows exactly these strings, besides the single characters, and each once. */
  ghost predicate Knows(a: Arc, d: Dict, words: Words)
  {
    && (forall c :: c in d && c >= a.MinEntry() ==> d[c] in words)
    && (forall w :: w in words ==> HasWord(a, d, w))
    && (forall b, c :: b in d && c in d && d[b] == d[c] ==> b == c)
  }

  ghost predicate HasWord(a: Arc, d: Dict, w: seq<nat>)
  {
    exists c :: c in d && c >= a.MinEntry() && d[c] == w
  }

  lemma ChildKnown(a: Arc, d: Dict, words: Words, base: nat, ch: nat)
    requires Inv(a, d) && WellFormed(a) && Knows(a, d, words) && base in d && base < TABLE_SIZE
    ensures Below(a.hash[base], |a.table|)
    ensures Child(a.table, a.hash[base], ch) != NONE <==> d[base] + [ch] in words
  {
    assert Below(a.hash[base], TABLE_SIZE) && Listed(a, d, base);
    var k := Child(a.table, a.hash[base], ch);
    ChildInList(a.table, a.hash[base], ch);
    if k != NONE {
      ChildSpells(a, d, base, k);
    } else if d[base] + [ch] in words {
      assert HasWord(a, d, d[base] + [ch]);
      var c :| c in d && c >= a.MinEntry() && d[c] == d[base] + [ch];
      assert Spells(a, d, c);
      var b := a.table[c].basecode;
      assert d[b] + [a.table[c].ch] == d[base] + [ch];
      SameFront(d[b], a.table[c].ch, d[base], ch);
      assert false;
    }
  }

  lemma SameFront(p: seq<nat>, x: nat, q: seq<nat>, y: nat)
    requires p + [x] == q + [y]
    ensures p == q && x == y
  {
    assert |p + [x]| == |q + [y]|;
    assert (p + [x])[|p|] == (q + [y])[|q|];
    assert p == (p + [x])[..|p|] == (q + [y])[..|q|] == q;
  }

  lemma {:induction false} WalkIsUnread(a: Arc, d: Dict, words: Words, base: nat, src: seq<nat>)
    requires Inv(a, d) && WellFormed(a) && Knows(a, d, words) && base in d && base < TABLE_SIZE
    ensures Walk(a, base, src).rest == Unread(words, d[base], src)
    decreases |src|
  {
    if src != [] {
      ChildKnown(a, d, words, base, src[0]);
      var k := Child(a.table, a.hash[base], src[0]);
      ChildInList(a.table, a.hash[base], src[0]);
      if k != NONE {
        ChildSpells(a, d, base, k);
        hide Knows, Inv, WellFormed;
        WalkIsUnread(a, d, words, k, src[1..]);
      }
    }
  }

  // A compression with the strings of its table; nothing has been recycled yet.
  ghost predicate Cutting(c: Comp, d: Dict, words: Words)
  {
    Live(c, d) && c.arc.used && Knows(c.arc, d, words)
  }

  // The next phrase, and the strings known after it.
  lemma NextPhrase(c: Comp, d: Dict, words: Words)
    requires Cutting(c, d, words) && c.src != [] && c.arc.nextBits < ARC_BITS_MAX
    ensures CompOk(c)
    ensures var s, rest := [c.base] + c.src, TurnMatch(c).rest;
            && rest == Unread(words, s[..1], s[1..])
            && if rest == [] then Phrases(words, s) == [s] && !Turn(c).arc.used && Turn(c).src == []
               else
                 var p := s[..|s| - |rest|];
                 && Cutting(Turn(c), TurnDict(c, d), words + {p + [rest[0]]})
                 && [Turn(c).base] + Turn(c).src == rest
                 && Phrases(words, s) == [p] + Phrases(words + {p + [rest[0]]}, rest)
  {
    hide Inv, WellFormed, Turn, TurnDict, TurnMatch, Unread, Phrases, Pow2, Knows, Shape;
    LiveOk(c, d);
    RootSpells(c, d);
    MatchIs(c);
    var s, g, m := [c.base] + c.src, Get(c.arc), TurnMatch(c);
    SameWords(c, d, words);
    GetWellFormed(c.arc);
    assert s[..1] == d[c.base] && s[1..] == c.src;
    WalkIsUnread(g, d, words, c.base, c.src);
    TurnIs(c);
    TurnKeepsLive(c, d);
    PhrasesStep(words, s);
    if m.rest != [] {
      NewWord(c, d, words);
    }
  }

  lemma RootSpells(c: Comp, d: Dict)
    requires Live(c, d) && c.arc.used
    ensures c.base in d && c.base < TABLE_SIZE && d[c.base] == [c.base]
  {
    assert Spells(c.arc, d, c.base);
    LengthBound(c.arc, d, c.base);
  }

  // Taking the next entry of a growing table forgets nothing.
  lemma SameWords(c: Comp, d: Dict, words: Words)
    requires Cutting(c, d, words) && c.arc.nextBits < ARC_BITS_MAX
    ensures Inv(Get(c.arc), d) && AfterGet(c.arc, d) == d && Knows(Get(c.arc), d, words)
  {
    GetGrowing(c.arc, d);
    GetKeepsInv(c.arc, d);
  }

  lemma MatchIs(c: Comp)
    requires CompOk(c)
    ensures Tables(c.arc) && WellFormed(Get(c.arc)) && TurnMatch(c) == Walk(Get(c.arc), c.base, c.src)
  {
    GetWellFormed(c.arc);
  }

  lemma PhrasesStep(words: Words, s: seq<nat>)
    requires s != []
    ensures var rest := Unread(words, s[..1], s[1..]);
            var p := s[..|s| - |rest|];
            Phrases(words, s) == if rest == [] then [s] else [p] + Phrases(words + {p + [rest[0]]}, rest)
  {
    hide Unread;
    assert s[..|s|] == s;
  }

  lemma NewWord(c: Comp, d: Dict, words: Words)
    requires Cutting(c, d, words) && c.arc.nextBits < ARC_BITS_MAX && AfterGet(c.arc, d) == d
    requires CompOk(c) && TurnMatch(c).rest != [] && c.src != []
    requires Inv(Get(c.arc), d) && Knows(Get(c.arc), d, words)
    ensures var s, rest := [c.base] + c.src, TurnMatch(c).rest;
            && [Turn(c).base] + Turn(c).src == rest && Turn(c).arc.used
            && Knows(Turn(c).arc, TurnDict(c, d), words + {s[..|s| - |rest|] + [rest[0]]})
  {
    hide Inv, WellFormed, Turn, Pow2, Knows, Shape, Unread;
    MatchIs(c);
    var s, g, m := [c.base] + c.src, Get(c.arc), TurnMatch(c);
    TurnMatchLive(c, d);
    GetKeepsInv(c.arc, d);
    InvWellFormed(g, d);
    TurnIs(c);
    RootSpells(c, d);
    assert d[m.code] == s[..|s| - |m.rest|];
    Unmatched(g, c.base, c.src);
    LengthBound(g, d, m.code);
    ChildKnown(g, d, words, m.code, m.rest[0]);
    TableSizes(g);
    FillKnows(g, d, words, m.code, m.rest[0]);
  }

  lemma TableSizes(a: Arc)
    requires WellFormed(a)
    ensures |a.table| == |a.hash| == TABLE_SIZE
  {
  }

  // Where a walk ends with input left, the next character has no child.
  lemma {:induction false} Unmatched(a: Arc, base: nat, src: seq<nat>)
    requires WellFormed(a) && base < TABLE_SIZE && Walk(a, base, src).rest != []
    ensures var m := Walk(a, base, src);
            Below(a.hash[m.code], |a.table|) && Child(a.table, a.hash[m.code], m.rest[0]) == NONE
    decreases |src|
  {
    assert Below(a.hash[base], TABLE_SIZE);
    var k := Child(a.table, a.hash[base], src[0]);
    ChildInList(a.table, a.hash[base], src[0]);
    if k != NONE {
      Unmatched(a, k, src[1..]);
    }
  }

  lemma FillKnows(a: Arc, d: Dict, words: Words, base: nat, ch: nat)
    requires Inv(a, d) && !a.used && 0 <= a.cur < TABLE_SIZE && Knows(a, d, words) && base in d && base < TABLE_SIZE
    requires |a.table| == |a.hash| == TABLE_SIZE && d[base] + [ch] !in words
    ensures Knows(Fill(a, base, ch), AfterFill(a, d, base, ch), words + {d[base] + [ch]})
  {
    var f, e, w := Fill(a, base, ch), AfterFill(a, d, base, ch), d[base] + [ch];
    forall v | v in words + {w}
      ensures HasWord(f, e, v)
    {
      if v == w {
        assert e[a.cur as nat] == w && a.cur >= a.MinEntry();
      } else {
        assert HasWord(a, d, v);
        var c :| c in d && c >= a.MinEntry() && d[c] == v;
        assert e[c] == v;
      }
    }
    forall c | c in d
      ensures d[c] != w
    {
      assert Spells(a, d, c);
      LengthBound(a, d, base);
    }
  }

  // ---- Which codes ----

  /** The codes stand for the single characters and then for the strings learnt, in the order they were
      learnt; the next entry to become current is the next number. */
  ghost predicate Numbered(a: Arc, d: Dict, learnt: seq<seq<nat>>)
  {
    && (forall c: nat :: c in d <==> c < a.MinEntry() + |learnt|)
    && (forall c: nat :: c in d ==> d[c] == if c < a.MinEntry() then [c] else learnt[c - a.MinEntry()])
    && a.next == a.MinEntry() + |learnt|
  }

  lemma NewNumbered(minBits: nat)
    requires minBits == 7 || minBits == 8
    ensures Numbered(New(minBits), Roots(minBits), [])
  {
    Pow2Table();
    var a, d := New(minBits), Roots(minBits);
    assert a.minBits == minBits && a.next == Pow2(minBits);
    assert forall c: nat :: c in d <==> c < Pow2(minBits);
  }

  /** A turn writes the code of the phrase it takes, where the position and the width are, and learns the phrase
      with the character after it under the next number. */
  lemma NextNumbered(c: Comp, d: Dict, learnt: seq<seq<nat>>)
    requires Live(c, d) && c.arc.used && Numbered(c.arc, d, learnt) && c.src != [] && c.arc.nextBits < ARC_BITS_MAX
    ensures CompOk(c)
    ensures var s, rest := [c.base] + c.src, TurnMatch(c).rest;
            rest != [] ==>
              var p := s[..|s| - |rest|];
              && Numbered(Turn(c).arc, TurnDict(c, d), learnt + [p + [rest[0]]])
              && (exists code :: code in d && d[code] == p &&
                    Turn(c).bits == BitFieldOr(c.bits, c.pos, code) && Turn(c).pos == c.pos + c.arc.nextBits)
  {
    hide Inv, WellFormed, Turn, Pow2, Shape, Unread, Numbered;
    LiveOk(c, d);
    RootSpells(c, d);
    MatchIs(c);
    TurnMatchLive(c, d);
    NextEntry(c.arc, d);
    TurnIs(c);
    var s, g, m := [c.base] + c.src, Get(c.arc), TurnMatch(c);
    if m.rest != [] {
      assert d[m.code] == s[..|s| - |m.rest|];
      TurnDictIs(c, d);
      NumberedMore(c.arc, g, d, learnt, m.code, m.rest[0]);
    }
  }

  lemma NextEntry(a: Arc, d: Dict)
    requires Inv(a, d) && a.used && a.nextBits < ARC_BITS_MAX
    ensures var g := Get(a);
            && AfterGet(a, d) == d && g.cur == a.next && g.next == a.next + 1 && g.minBits == a.minBits
            && g.curBits == a.nextBits && 0 <= g.cur < |g.table| && |g.hash| == TABLE_SIZE
  {
    GetKeepsInv(a, d);
    Pow2Table();
  }

  lemma TurnDictIs(c: Comp, d: Dict)
    requires Live(c, d) && CompOk(c) && c.src != [] && TurnMatch(c).rest != []
    ensures Get(c.arc).cur >= 0 && TurnMatch(c).code in AfterGet(c.arc, d)
    ensures TurnDict(c, d) == AfterFill(Get(c.arc), AfterGet(c.arc, d), TurnMatch(c).code, TurnMatch(c).rest[0])
  {
    TurnMatchLive(c, d);
    FillWellFormedCur(c.arc);
  }

  lemma NumberedMore(a: Arc, g: Arc, d: Dict, learnt: seq<seq<nat>>, base: nat, ch: nat)
    requires Numbered(a, d, learnt) && g.cur == a.next >= 0 && g.next == a.next + 1 && g.minBits == a.minBits
    requires base in d && g.cur < |g.table| && base < |g.hash|
    ensures Numbered(Fill(g, base, ch), AfterFill(g, d, base, ch), learnt + [d[base] + [ch]])
  {
    hide Pow2;
    var more := learnt + [d[base] + [ch]];
    assert forall i :: 0 <= i < |learnt| ==> more[i] == learnt[i];
  }

  // ---- How many codes ----

  /** Between codes, while the table grows: the fields are widened when the free entries reach the
      end of what the width can name. */
  ghost predicate Pace(a: Arc)
  {
    && a.used && 0 < a.curBits < ARC_BITS_MAX && Pow2(a.curBits - 1) < a.freeIdx <= Pow2(a.curBits)
    && a.nextBits == if a.freeIdx == Pow2(a.curBits) then a.curBits + 1 else a.curBits
  }

  lemma TurnPace(c: Comp)
    requires CompOk(c) && c.src != [] && c.arc.used && c.arc.nextBits < ARC_BITS_MAX && Pace(c.arc)
    ensures var a, b := c.arc, Turn(c).arc;
            && b.minBits == a.minBits && b.curBits == a.nextBits
            && (b.used ==> b.freeIdx == a.freeIdx + 1 && Pace(b) && Turn(c).pos == c.pos + a.nextBits)
  {
    hide Get, Walk, Turn, Pow2, BitFieldOr;
    TurnIs(c);
    GetPace(c.arc);
    hide WellFormed;
  }

  lemma GetPace(a: Arc)
    requires WellFormed(a) && a.nextBits < ARC_BITS_MAX && Pace(a)
    ensures var b := Get(a);
            && b.minBits == a.minBits && b.curBits == a.nextBits && b.freeIdx == a.freeIdx + 1
            && Pow2(b.curBits - 1) < b.freeIdx <= Pow2(b.curBits)
            && b.nextBits == if b.freeIdx == Pow2(b.curBits) then b.curBits + 1 else b.curBits
  {
    Pow2Mono(a.curBits, a.curBits + 1);
    Pow2Mono(a.curBits - 1, a.curBits);
    assert a.curBits > 7;
    Pow2Mono(7, a.curBits);
    Pow2Table();
  }

  lemma {:induction false} WidthGrows(c: Comp, size: nat)
    requires CompOk(c)
    ensures Encode(c, size).arc.curBits >= c.arc.curBits
    decreases |c.src|
  {
    if c.src != [] && c.pos + c.arc.curBits <= size {
      TurnIs(c);
      assert Get(c.arc).curBits >= c.arc.curBits;
      WidthGrows(Turn(c), size);
    }
  }

  /** While the codes keep their width, a compression that uses up its input right after a code has
      put out one code for each phrase but the last, which is a single character. */
  lemma {:induction false} CodesArePhrases(c: Comp, d: Dict, words: Words, size: nat)
    requires Cutting(c, d, words) && Pace(c.arc) && c.arc.curBits < ARC_BITS_MAX - 1
    ensures CompOk(c)
    ensures var r, ps := Encode(c, size), Phrases(words, [c.base] + c.src);
            r.arc.used && r.src == [] && r.arc.curBits == c.arc.curBits ==>
              |ps| == r.arc.freeIdx - c.arc.freeIdx + 1 && |ps[|ps| - 1]| == 1
    decreases |c.src|
  {
    hide Live, Knows, Turn, TurnDict, TurnMatch, Unread, Phrases, Pow2, CompOk;
    LiveOk(c, d);
    if c.src == [] {
      assert ([c.base] + c.src)[1..] == [];
      OnePhrase(words, [c.base] + c.src);
    } else if c.pos + c.arc.curBits <= size {
      NextPhrase(c, d, words);
      TurnPace(c);
      WidthGrows(Turn(c), size);
      if TurnMatch(c).rest != [] && c.arc.nextBits == c.arc.curBits {
        var s, rest := [c.base] + c.src, TurnMatch(c).rest;
        CodesArePhrases(Turn(c), TurnDict(c, d), words + {s[..|s| - |rest|] + [rest[0]]}, size);
      }
    }
  }

  lemma OnePhrase(words: Words, s: seq<nat>)
    requires |s| == 1
    ensures Phrases(words, s) == [s]
  {
    hide Unread;
    assert s[1..] == [] && s[..1] == s;
  }

  /** And the other way round: phrases few enough for the width, the last a single character, with
      room for a code each, are put out one by one until the input ends right after a code. */
  lemma {:induction false} PhrasesAreCodes(c: Comp, d: Dict, words: Words, size: nat)
    requires Cutting(c, d, words) && Pace(c.arc) && c.arc.curBits < ARC_BITS_MAX - 1
    requires var ps := Phrases(words, [c.base] + c.src);
             && |ps[|ps| - 1]| == 1 && c.arc.freeIdx + |ps| - 1 <= Pow2(c.arc.curBits)
             && c.pos + c.arc.curBits * |ps| <= size
    ensures CompOk(c)
    ensures var r, ps := Encode(c, size), Phrases(words, [c.base] + c.src);
            && r.arc.used && r.src == [] && r.arc.curBits == c.arc.curBits
            && r.arc.freeIdx == c.arc.freeIdx + |ps| - 1 && Pace(r.arc)
            && r.pos == c.pos + c.arc.curBits * (|ps| - 1)
    decreases |c.src|
  {
    hide Live, Knows, Turn, TurnDict, TurnMatch, Unread, Phrases, Pow2, CompOk;
    LiveOk(c, d);
    var s, w, ps := [c.base] + c.src, c.arc.curBits, Phrases(words, [c.base] + c.src);
    if c.src == [] {
      OnePhrase(words, s);
    } else {
      NextPhrase(c, d, words);
      var rest := TurnMatch(c).rest;
      assert rest != [];
      var more := words + {s[..|s| - |rest|] + [rest[0]]};
      var qs := Phrases(more, rest);
      assert ps[1..] == qs && |ps| == 1 + |qs| && ps[|ps| - 1] == qs[|qs| - 1];
      OneMore(w, |qs|);
      TurnPace(c);
      PhrasesAreCodes(Turn(c), TurnDict(c, d), more, size);
    }
  }

  lemma OneMore(w: nat, n: nat)
    ensures w * (n + 1) == w * n + w
    ensures n > 0 ==> w * n == w * (n - 1) + w && w * n >= w
  {
  }
}

/** Compressor and expander run in lock step, so expanding a finished compression gives the input
    back, with one exception that is characterised exactly. */
module ArcRoundTrip {
  import opened Bits
  import opened ArcTrie
  import opened ArcCodec

  // A compression in progress, with the strings its codes stand for.
  ghost predicate Live(c: Comp, d: Dict)
  {
    && Inv(c.arc, d)
    && c.base in d
    && (c.arc.used ==> c.base < c.arc.MinEntry())
    && Below(c.src, c.arc.MinEntry())
  }

  lemma LiveOk(c: Comp, d: Dict)
    requires Live(c, d)
    ensures CompOk(c)
    ensures c.base < Pow2(c.arc.curBits)
  {
    InvWellFormed(c.arc, d);
    LengthBound(c.arc, d, c.base);
  }

  lemma ChildSpells(a: Arc, d: Dict, base: nat, k: nat)
    requires Inv(a, d) && base < TABLE_SIZE && base in d && k in a.hash[base]
    ensures k in d && k < TABLE_SIZE && d[k] == d[base] + [a.table[k].ch]
  {
    assert Listed(a, d, base);
    assert Spells(a, d, k);
  }

  lemma Consume(p: seq<nat>, src: seq<nat>, left: nat)
    requires left < |src|
    ensures (p + [src[0]]) + src[1..][..|src| - 1 - left] == p + src[..|src| - left]
  {
  }

  /** The longest match ends on a live code that spells the base's string and the input consumed. */
  lemma {:induction false} WalkSpells(a: Arc, d: Dict, base: nat, src: seq<nat>)
    requires Inv(a, d) && WellFormed(a) && base in d && base < TABLE_SIZE
    ensures var m := Walk(a, base, src);
            m.code in d && d[m.code] == d[base] + src[..|src| - |m.rest|]
    decreases |src|
  {
    if src != [] {
      var k := Child(a.table, a.hash[base], src[0]);
      ChildInList(a.table, a.hash[base], src[0]);
      if k != NONE {
        ChildSpells(a, d, base, k);
        WalkSpells(a, d, k, src[1..]);
        Consume(d[base], src, |Walk(a, k, src[1..]).rest|);
      }
    }
  }

  // The strings known after one turn.
  ghost function TurnDict(c: Comp, d: Dict): Dict
    requires Live(c, d)
  {
    LiveOk(c, d);
    GetKeepsInv(c.arc, d);
    GetWellFormed(c.arc);
    var g, e := Get(c.arc), AfterGet(c.arc, d);
    RootStays(c, d);
    WalkSpells(g, e, c.base, c.src);
    var m := Walk(g, c.base, c.src);
    if m.rest == [] then e else AfterFill(g, e, m.code, m.rest[0])
  }

  lemma RootStays(c: Comp, d: Dict)
    requires Live(c, d)
    ensures c.base in AfterGet(c.arc, d)
  {
    GetKeepsInv(c.arc, d);
    if c.arc.used {
      assert Spells(Get(c.arc), AfterGet(c.arc, d), c.base);
    }
  }

  /** The code of a turn fits in the width tested before ArcEntryGet, even if ArcEntryGet widens
      the field, so a turn only touches bits inside the destination. */
  lemma TurnWritesField(c: Comp, d: Dict)
    requires Live(c, d) && c.src != []
    ensures CompOk(c)
    ensures forall i :: 0 <= i < |c.bits| && !(c.pos <= i < c.pos + c.arc.curBits) ==> Turn(c).bits[i] == c.bits[i]
  {
    LiveOk(c, d);
    GetKeepsInv(c.arc, d);
    GetWellFormed(c.arc);
    RootStays(c, d);
    var m := Walk(Get(c.arc), c.base, c.src);
    WalkSpells(Get(c.arc), AfterGet(c.arc, d), c.base, c.src);
    LengthBound(c.arc, d, m.code);
    assert Turn(c).bits == c.bits || Turn(c).bits == BitFieldOr(c.bits, c.pos, m.code);
    hide *;
    forall i | 0 <= i < |c.bits| && !(c.pos <= i < c.pos + c.arc.curBits)
      ensures Turn(c).bits[i] == c.bits[i]
    {
      OrOutside(c.bits, c.pos, c.arc.curBits, m.code, i);
    }
  }

  lemma TurnKeepsLive(c: Comp, d: Dict)
    requires Live(c, d) && c.src != []
    ensures CompOk(c) && Live(Turn(c), TurnDict(c, d))
    ensures c.pos <= Turn(c).pos
    ensures Turn(c).src != [] || Turn(c).arc.used ==> Turn(c).arc.used && c.pos + c.arc.curBits <= Turn(c).pos
    ensures forall i :: 0 <= i < |c.bits| && !(c.pos <= i < c.pos + c.arc.curBits) ==> Turn(c).bits[i] == c.bits[i]
  {
    TurnWritesField(c, d);
    GetKeepsInv(c.arc, d);
    GetWellFormed(c.arc);
    RootStays(c, d);
    var g, e := Get(c.arc), AfterGet(c.arc, d);
    WalkSpells(g, e, c.base, c.src);
    WalkRest(g, c.base, c.src);
    var m := Walk(g, c.base, c.src);
    if m.rest != [] {
      FillKeepsInv(g, e, m.code, m.rest[0]);
      assert Spells(g, e, m.rest[0]);
    }
  }

  /** A whole compression keeps the state live and leaves alone every bit before its start, at or
      past the end of the destination, and past the position it reached. */
  lemma {:induction false} EncodeKeepsLive(c: Comp, d: Dict, size: nat) returns (e: Dict)
    requires Live(c, d)
    ensures CompOk(c) && Live(Encode(c, size), e) && c.pos <= Encode(c, size).pos
    ensures forall i :: 0 <= i < |c.bits| && (i < c.pos || size <= i || Encode(c, size).pos <= i) ==>
                          Encode(c, size).bits[i] == c.bits[i]
    decreases |c.src|
  {
    LiveOk(c, d);
    if c.src == [] || c.pos + c.arc.curBits > size {
      e := d;
    } else {
      TurnKeepsLive(c, d);
      e := EncodeKeepsLive(Turn(c), TurnDict(c, d), size);
    }
  }

  // ---- The expander's side ----

  lemma {:induction false} SpellIsString(a: Arc, d: Dict, code: nat, room: nat)
    requires Inv(a, d) && code in d && code < TABLE_SIZE && |d[code]| <= room
    ensures Spell(a, code, room) == Spelled(d[code])
    decreases room
  {
    assert Spells(a, d, code);
    LengthBound(a, d, code);
    if code >= a.MinEntry() {
      LengthBound(a, d, a.table[code].basecode);
      SpellIsString(a, d, a.table[code].basecode, room - 1);
    }
  }

  // The expander stands where the compressor was before filling its current entry.
  ghost predicate Paired(x: Expander, d: Dict, c: Comp)
  {
    && Inv(x.arc, d) && InLoop(x)
    && x.saved in d && d[x.saved] != [] && x.lastCh == d[x.saved][0]
    && c.base < x.arc.MinEntry() && Below(c.src, x.arc.MinEntry())
    && 0 <= x.arc.cur < TABLE_SIZE
    && c.arc == Fill(x.arc, x.saved, c.base)
    && c.pos == x.srcPos
  }

  lemma PairedLive(x: Expander, d: Dict, c: Comp)
    requires Paired(x, d, c)
    ensures Live(c, AfterFill(x.arc, d, x.saved, c.base)) && InLoop(x)
    ensures forall ch: nat :: CanLearn(x, ch)
  {
    InvWellFormed(x.arc, d);
    LengthBound(x.arc, d, x.saved);
    FillKeepsInv(x.arc, d, x.saved, c.base);
    assert Spells(x.arc, d, c.base);
    forall ch: nat
      ensures CanLearn(x, ch)
    {
      FillKeepsInv(x.arc, d, x.saved, ch);
      if x.arc.nextBits == ARC_BITS_MAX {
        var z := LeafAhead(Fill(x.arc, x.saved, ch), AfterFill(x.arc, d, x.saved, ch));
      }
    }
  }

  /** A code the compressor may send next yields its string in the expander, also when it names
      the entry the expander has not filled yet. */
  lemma NextStringIsString(x: Expander, d: Dict, c: Comp, code: nat)
    requires Paired(x, d, c)
    requires var e := AfterFill(x.arc, d, x.saved, c.base);
             code in e && code < TABLE_SIZE && e[code] != [] && e[code][0] == c.base
    ensures InLoop(x)
    ensures NextString(x, code) == Spelled(AfterFill(x.arc, d, x.saved, c.base)[code])
  {
    InvWellFormed(x.arc, d);
    Pow2Table();
    LengthBound(x.arc, d, x.saved);
    if code == x.arc.cur {
      SpellIsString(x.arc, d, x.saved, TABLE_SIZE - 1);
    } else {
      LengthBound(x.arc, d, code);
      SpellIsString(x.arc, d, code, TABLE_SIZE);
    }
  }

  // ---- Finished compressions ----

  // The input is used up and ArcFinishCompression finds room.
  ghost predicate Finishes(c: Comp, size: nat)
    requires CompOk(c)
  {
    var r := Encode(c, size);
    r.src == [] && r.pos + r.arc.curBits <= size
  }

  ghost function FinalBits(c: Comp, size: nat): seq<bool>
    requires CompOk(c)
  {
    var r := Encode(c, size);
    BitFieldOr(r.bits, r.pos, r.base)
  }

  /** The last code is read one bit too wide: the compression ended right after a code that widened
      the fields, with exactly the narrow width left in the destination. */
  ghost predicate ReadsPastEnd(c: Comp, size: nat)
    requires CompOk(c)
  {
    var r := Encode(c, size);
    r.arc.used && r.pos + r.arc.nextBits > size
  }

  // What comes out: the input, unless the bit past the end is read and set.
  ghost function Patched(s: seq<nat>, wrong: bool): seq<nat>
  {
    if wrong && s != [] then s[..|s| - 1] + [0] else s
  }

  // Bits of the finished destination, as the expander gets them.
  ghost predicate Copied(arcBits: seq<bool>, srcSize: nat, c: Comp, size: nat)
    requires CompOk(c)
  {
    var r := Encode(c, size);
    && r.pos + r.arc.nextBits <= srcSize <= |arcBits|
    && size < |c.bits|
    && r.pos + r.arc.nextBits <= |c.bits|
    && forall i :: c.pos <= i < r.pos + r.arc.nextBits ==> arcBits[i] == FinalBits(c, size)[i]
  }

  ghost predicate ClearFrom(b: seq<bool>, p: nat, size: nat)
  {
    forall i :: p <= i < size && i < |b| ==> !b[i]
  }

  // The last code, pending after the loop ended at its top.
  lemma LastCode(b: seq<bool>, p: nat, size: nat, w: nat, next: nat, ch: nat, arcBits: seq<bool>)
    requires ch < Pow2(w) && w <= next <= w + 1 && p + w <= size < |b|
    requires ClearFrom(b, p, size)
    requires p + next <= |arcBits| && p + next <= |b|
    requires forall i :: p <= i < p + next ==> arcBits[i] == BitFieldOr(b, p, ch)[i]
    ensures BitFieldExt(arcBits, p, next) == ch + (if p + next > size && b[size] then Pow2(w) else 0)
  {
    var f := BitFieldOr(b, p, ch);
    OrThenExt(b, p, w, ch);
    ExtAgree(arcBits, f, p, next);
    if next == w + 1 {
      ExtSplitTop(f, p, w);
    }
  }

  // The entry misread in the bad case was never filled, and yields two zeros.
  lemma UnfilledSpellsZeros(x: Expander, d: Dict, code: nat)
    requires Inv(x.arc, d) && InLoop(x) && Pow2(x.arc.curBits) <= code < TABLE_SIZE
    ensures NextString(x, code) == Spelled([0, 0])
  {
    Pow2Mono(x.arc.minBits, x.arc.curBits);
    assert Spell(x.arc, 0, TABLE_SIZE - 1) == Spelled([0]);
  }

  ghost predicate PutsOut(p: Piece, s: seq<nat>)
  {
    p.Piece? && p.out == s
  }

  // One turn of the expander's loop, given the code it meets and the string that yields.
  lemma LoopTurn(x: Expander, arcBits: seq<bool>, srcSize: nat, need: nat, s: seq<nat>)
    requires InLoop(x)
    requires x.srcPos + x.arc.nextBits <= srcSize <= |arcBits| && need > 0 && s != []
    requires NextString(x, CodeAt(x, arcBits)) == Spelled(s) && CanLearn(x, s[0])
    ensures var r := Loop(x, arcBits, srcSize, need);
            if |s| >= need then r.Piece? && r.out == s[..need]
            else r == Prepend(s, Loop(Learn(x, CodeAt(x, arcBits), s[0]), arcBits, srcSize, need - |s|))
  {
    hide WellFormed, NextString, CanLearn, Spell, BitFieldExt;
  }

  ghost function LastString(c: Comp, size: nat): (s: seq<nat>)
    requires CompOk(c) && size < |c.bits|
    ensures s != [] && s[..1] == Patched([c.base], ReadsPastEnd(c, size) && c.bits[size])
  {
    if ReadsPastEnd(c, size) && c.bits[size] then [0, 0] else [c.base]
  }

  lemma LastRead(c: Comp, d: Dict, size: nat, arcBits: seq<bool>, srcSize: nat)
    requires Live(c, d) && c.src == [] && c.arc.used
    requires CompOk(c) && Finishes(c, size) && Copied(arcBits, srcSize, c, size)
    requires ClearFrom(c.bits, c.pos, size)
    ensures BitFieldExt(arcBits, c.pos, c.arc.nextBits) ==
            c.base + (if ReadsPastEnd(c, size) && c.bits[size] then Pow2(c.arc.curBits) else 0)
  {
    LiveOk(c, d);
    hide Inv, WellFormed, BitFieldExt, BitFieldOr;
    LastCode(c.bits, c.pos, size, c.arc.curBits, c.arc.nextBits, c.base, arcBits);
  }

  lemma FollowLastCode(x: Expander, d: Dict, c: Comp, size: nat, arcBits: seq<bool>, srcSize: nat)
    requires Paired(x, d, c) && c.src == []
    requires CompOk(c) && Finishes(c, size) && Copied(arcBits, srcSize, c, size)
    requires ClearFrom(c.bits, c.pos, size)
    ensures InLoop(x) && x.srcPos + x.arc.nextBits <= srcSize <= |arcBits|
    ensures NextString(x, CodeAt(x, arcBits)) == Spelled(LastString(c, size))
  {
    PairedLive(x, d, c);
    var e := AfterFill(x.arc, d, x.saved, c.base);
    LastRead(c, e, size, arcBits, srcSize);
    var code := CodeAt(x, arcBits);
    assert Spells(c.arc, e, c.base);
    hide BitFieldExt, Copied, ClearFrom, Finishes, Spell, Inv, WellFormed;
    if ReadsPastEnd(c, size) && c.bits[size] {
      UnfilledSpellsZeros(x, d, code);
    } else {
      NextStringIsString(x, d, c, code);
    }
  }

  lemma FollowLast(x: Expander, d: Dict, c: Comp, size: nat, arcBits: seq<bool>, srcSize: nat)
    requires Paired(x, d, c) && c.src == []
    requires CompOk(c) && Finishes(c, size) && Copied(arcBits, srcSize, c, size)
    requires ClearFrom(c.bits, c.pos, size)
    ensures InLoop(x)
    ensures PutsOut(Loop(x, arcBits, srcSize, 1), Patched([c.base], ReadsPastEnd(c, size) && c.bits[size]))
  {
    PairedLive(x, d, c);
    FollowLastCode(x, d, c, size, arcBits, srcSize);
    assert CanLearn(x, LastString(c, size)[0]);
    hide Loop, NextString, CanLearn, WellFormed, Copied, Finishes, LastString, ClearFrom;
    LoopTurn(x, arcBits, srcSize, 1, LastString(c, size));
  }

  lemma FieldReadsBack(b: seq<bool>, p: nat, w: nat, v: nat, arcBits: seq<bool>)
    requires v < Pow2(w) && p + w <= |b| && p + w <= |arcBits|
    requires forall i :: p <= i < p + w ==> !b[i] && arcBits[i] == BitFieldOr(b, p, v)[i]
    ensures BitFieldExt(arcBits, p, w) == v
  {
    OrThenExt(b, p, w, v);
    ExtAgree(arcBits, BitFieldOr(b, p, v), p, w);
  }

  // The match of a turn, in the table after ArcEntryGet.
  ghost function TurnMatch(c: Comp): (m: Match)
    requires CompOk(c)
    ensures m.code < TABLE_SIZE && |m.rest| <= |c.src| && m.rest == c.src[|c.src| - |m.rest|..]
  {
    GetWellFormed(c.arc);
    WalkRest(Get(c.arc), c.base, c.src);
    Walk(Get(c.arc), c.base, c.src)
  }

  lemma TurnMatchLive(c: Comp, d: Dict)
    requires Live(c, d)
    ensures CompOk(c)
    ensures var m, e := TurnMatch(c), AfterGet(c.arc, d);
            && m.code in d && m.code < Pow2(c.arc.curBits) && m.code in e
            && c.base in d
            && e[m.code] == d[m.code] == d[c.base] + c.src[..|c.src| - |m.rest|]
    ensures c.arc.used ==> Get(c.arc).curBits == c.arc.nextBits && Get(c.arc).cur == c.arc.next
  {
    LiveOk(c, d);
    GetKeepsInv(c.arc, d);
    GetWellFormed(c.arc);
    RootStays(c, d);
    WalkSpells(Get(c.arc), AfterGet(c.arc, d), c.base, c.src);
    LengthBound(c.arc, d, TurnMatch(c).code);
  }

  // What is known of a finishing compression with input left.
  lemma FinishFacts(c: Comp, d: Dict, size: nat)
    requires Live(c, d) && CompOk(c) && c.src != [] && c.arc.used && Finishes(c, size)
    ensures Encode(c, size) == Encode(Turn(c), size)
    ensures c.pos + c.arc.nextBits <= size
    ensures TurnMatch(c).rest == [] ==> Encode(c, size) == Turn(c)
    ensures TurnMatch(c).rest != [] ==> c.pos + c.arc.nextBits == Turn(c).pos <= Encode(c, size).pos
    ensures forall i :: 0 <= i < |c.bits| && i < Turn(c).pos ==> Encode(c, size).bits[i] == Turn(c).bits[i]
    ensures Encode(c, size).pos <= size
    ensures forall i :: 0 <= i < |c.bits| && i < Encode(c, size).pos ==> FinalBits(c, size)[i] == Encode(c, size).bits[i]
  {
    TurnMatchLive(c, d);
    TurnKeepsLive(c, d);
    var e := EncodeKeepsLive(Turn(c), TurnDict(c, d), size);
  }

  /** A code written inside the loop is read back at the same width. */
  lemma CodeReadsBack(c: Comp, d: Dict, size: nat, arcBits: seq<bool>, srcSize: nat)
    requires Live(c, d) && CompOk(c) && c.src != [] && Finishes(c, size) && Copied(arcBits, srcSize, c, size)
    requires ClearFrom(c.bits, c.pos, size) && c.arc.used
    ensures c.pos + c.arc.nextBits <= srcSize
    ensures BitFieldExt(arcBits, c.pos, c.arc.nextBits) == TurnMatch(c).code
  {
    TurnMatchLive(c, d);
    FinishFacts(c, d, size);
    Pow2Mono(c.arc.curBits, c.arc.nextBits);
    FieldReadsBack(c.bits, c.pos, c.arc.nextBits, TurnMatch(c).code, arcBits);
  }

  // The expander reads the compressor's code and turns it into the compressor's string.
  lemma FollowCode(x: Expander, d: Dict, c: Comp, size: nat, arcBits: seq<bool>, srcSize: nat)
    requires Paired(x, d, c) && CompOk(c) && Finishes(c, size) && Copied(arcBits, srcSize, c, size)
    requires ClearFrom(c.bits, c.pos, size) && c.src != []
    ensures InLoop(x) && x.srcPos + x.arc.nextBits <= srcSize <= |arcBits| && CanLearn(x, c.base)
    ensures var m := TurnMatch(c);
            && CodeAt(x, arcBits) == m.code
            && NextString(x, m.code) == Spelled([c.base] + c.src[..|c.src| - |m.rest|])
  {
    PairedLive(x, d, c);
    var e := AfterFill(x.arc, d, x.saved, c.base);
    CodeReadsBack(c, e, size, arcBits, srcSize);
    TurnMatchLive(c, e);
    assert Spells(c.arc, e, c.base);
    NextStringIsString(x, d, c, TurnMatch(c).code);
  }

  // Afterwards the two are paired again, one code further on.
  lemma FollowPair(x: Expander, d: Dict, c: Comp)
    requires Paired(x, d, c) && CompOk(c) && c.src != [] && TurnMatch(c).rest != []
    ensures InLoop(x)
    ensures Paired(Learn(x, TurnMatch(c).code, c.base), AfterGet(c.arc, AfterFill(x.arc, d, x.saved, c.base)), Turn(c))
  {
    PairedLive(x, d, c);
    var e := AfterFill(x.arc, d, x.saved, c.base);
    TurnMatchLive(c, e);
    GetKeepsInv(c.arc, e);
    assert Spells(c.arc, e, c.base);
    LengthBound(Get(c.arc), AfterGet(c.arc, e), TurnMatch(c).code);
    FillWellFormedCur(c.arc);
  }

  lemma FillWellFormedCur(a: Arc)
    requires WellFormed(a)
    ensures 0 <= Get(a).cur < TABLE_SIZE
  {
    GetWellFormed(a);
    FillWellFormed(Get(a), 0, 0);
  }

  lemma FollowRest(c: Comp, d: Dict, size: nat, arcBits: seq<bool>, srcSize: nat)
    requires Live(c, d) && c.arc.used && CompOk(c) && c.src != [] && TurnMatch(c).rest != []
    requires Finishes(c, size) && Copied(arcBits, srcSize, c, size) && ClearFrom(c.bits, c.pos, size)
    ensures Encode(Turn(c), size) == Encode(c, size)
    ensures Copied(arcBits, srcSize, Turn(c), size) && ClearFrom(Turn(c).bits, Turn(c).pos, size)
    ensures Turn(c).bits[size] == c.bits[size]
  {
    FinishFacts(c, d, size);
    TurnKeepsLive(c, d);
  }

  lemma FollowTurn(x: Expander, c: Comp, arcBits: seq<bool>, srcSize: nat, m: Match)
    requires InLoop(x)
    requires x.srcPos + x.arc.nextBits <= srcSize <= |arcBits| && CanLearn(x, c.base)
    requires |m.rest| <= |c.src| && m.code < TABLE_SIZE && CodeAt(x, arcBits) == m.code
    requires NextString(x, m.code) == Spelled([c.base] + c.src[..|c.src| - |m.rest|])
    ensures if m.rest == [] then PutsOut(Loop(x, arcBits, srcSize, 1 + |c.src|), [c.base] + c.src)
            else Loop(x, arcBits, srcSize, 1 + |c.src|) ==
                 Prepend([c.base] + c.src[..|c.src| - |m.rest|],
                         Loop(Learn(x, m.code, c.base), arcBits, srcSize, |m.rest|))
  {
    var s := [c.base] + c.src[..|c.src| - |m.rest|];
    hide Loop, NextString, CanLearn, WellFormed;
    LoopTurn(x, arcBits, srcSize, 1 + |c.src|, s);
    if m.rest == [] {
      assert s[..1 + |c.src|] == [c.base] + c.src;
    }
  }

  lemma PatchNothing(s: seq<nat>)
    requires s != []
    ensures Patched(s, false) == s
  {
  }

  lemma PutsOutMore(p: Piece, s: seq<nat>, t: seq<nat>)
    requires PutsOut(p, t)
    ensures PutsOut(Prepend(s, p), s + t)
  {
  }

  lemma PatchTail(base: nat, src: seq<nat>, rest: seq<nat>, wrong: bool)
    requires 0 < |rest| <= |src| && rest == src[|src| - |rest|..]
    ensures ([base] + src[..|src| - |rest|]) + Patched(rest, wrong) == Patched([base] + src, wrong)
    ensures [rest[0]] + rest[1..] == rest
  {
  }

  // Everything the lock step keeps.
  ghost predicate Ready(x: Expander, d: Dict, c: Comp, size: nat, arcBits: seq<bool>, srcSize: nat)
  {
    && Paired(x, d, c) && CompOk(c) && Finishes(c, size)
    && Copied(arcBits, srcSize, c, size) && ClearFrom(c.bits, c.pos, size)
  }

  lemma ReadyFacts(x: Expander, d: Dict, c: Comp, size: nat, arcBits: seq<bool>, srcSize: nat)
    requires Ready(x, d, c, size, arcBits, srcSize)
    ensures InLoop(x) && CompOk(c)
    ensures srcSize <= |arcBits| && size < |c.bits|
  {
    PairedLive(x, d, c);
  }

  // The expander after the code of a turn.
  ghost function Followed(x: Expander, c: Comp): (y: Expander)
    requires InLoop(x) && CompOk(c)
    ensures InLoop(y)
  {
    Learn(x, TurnMatch(c).code, c.base)
  }

  // The strings its table spells.
  ghost function FollowedDict(x: Expander, d: Dict, c: Comp): Dict
    requires InLoop(x) && CompOk(c) && x.arc.cur >= 0 && x.saved in d
  {
    AfterGet(c.arc, AfterFill(x.arc, d, x.saved, c.base))
  }

  /** A turn with input left over: afterwards both hold the same table and widths, one code further on. */
  lemma FollowOn(x: Expander, d: Dict, c: Comp, size: nat, arcBits: seq<bool>, srcSize: nat)
    requires Ready(x, d, c, size, arcBits, srcSize) && c.src != [] && TurnMatch(c).rest != []
    ensures InLoop(x) && CompOk(c) && x.arc.cur >= 0 && x.saved in d
    ensures Ready(Followed(x, c), FollowedDict(x, d, c), Turn(c), size, arcBits, srcSize)
    ensures Turn(c).base == TurnMatch(c).rest[0] && Turn(c).src == TurnMatch(c).rest[1..]
    ensures size < |c.bits| && (ReadsPastEnd(Turn(c), size) <==> ReadsPastEnd(c, size)) && Turn(c).bits[size] == c.bits[size]
  {
    PairedLive(x, d, c);
    FollowPair(x, d, c);
    FollowRest(c, AfterFill(x.arc, d, x.saved, c.base), size, arcBits, srcSize);
  }

  /** And the expander has put out what the compressor took in. */
  lemma FollowStep(x: Expander, d: Dict, c: Comp, size: nat, arcBits: seq<bool>, srcSize: nat)
    requires Ready(x, d, c, size, arcBits, srcSize) && c.src != [] && TurnMatch(c).rest != []
    ensures InLoop(x) && CompOk(c)
    ensures Loop(x, arcBits, srcSize, 1 + |c.src|) ==
            Prepend([c.base] + c.src[..|c.src| - |TurnMatch(c).rest|],
                    Loop(Followed(x, c), arcBits, srcSize, |TurnMatch(c).rest|))
  {
    hide Loop, NextString, TurnMatch, Turn, Copied, ClearFrom, Finishes, Spell;
    PairedLive(x, d, c);
    FollowCode(x, d, c, size, arcBits, srcSize);
    FollowTurn(x, c, arcBits, srcSize, TurnMatch(c));
  }

  // A turn that uses up the input: the match is the last code, and the expander is done.
  lemma FollowOut(x: Expander, d: Dict, c: Comp, size: nat, arcBits: seq<bool>, srcSize: nat)
    requires Ready(x, d, c, size, arcBits, srcSize) && c.src != [] && TurnMatch(c).rest == []
    ensures InLoop(x) && !ReadsPastEnd(c, size)
    ensures PutsOut(Loop(x, arcBits, srcSize, 1 + |c.src|), [c.base] + c.src)
  {
    hide Loop, NextString, TurnMatch, Turn, Copied, ClearFrom, Spell, PutsOut;
    PairedLive(x, d, c);
    FollowCode(x, d, c, size, arcBits, srcSize);
    FollowTurn(x, c, arcBits, srcSize, TurnMatch(c));
    OutInside(c, AfterFill(x.arc, d, x.saved, c.base), size);
  }

  lemma OutInside(c: Comp, d: Dict, size: nat)
    requires Live(c, d) && CompOk(c) && c.src != [] && c.arc.used && Finishes(c, size) && TurnMatch(c).rest == []
    ensures !ReadsPastEnd(c, size)
  {
    FinishFacts(c, d, size);
    hide Inv, Walk, BitFieldOr;
  }

  lemma FollowEnd(x: Expander, d: Dict, c: Comp, size: nat, arcBits: seq<bool>, srcSize: nat)
    requires Ready(x, d, c, size, arcBits, srcSize) && c.src == []
    ensures InLoop(x) && size < |c.bits|
    ensures PutsOut(Loop(x, arcBits, srcSize, 1), Patched([c.base], ReadsPastEnd(c, size) && c.bits[size]))
  {
    FollowLast(x, d, c, size, arcBits, srcSize);
  }

  /** The lock step: paired with a compression that finishes, the expander's loop puts out the
      pending character and all unread input. */
  lemma {:induction false} Follow(x: Expander, d: Dict, c: Comp, size: nat, arcBits: seq<bool>, srcSize: nat)
    requires Ready(x, d, c, size, arcBits, srcSize)
    ensures InLoop(x)
    ensures PutsOut(Loop(x, arcBits, srcSize, 1 + |c.src|),
                    Patched([c.base] + c.src, ReadsPastEnd(c, size) && c.bits[size]))
    decreases |c.src|
  {
    hide Ready, Loop, Turn, TurnMatch, InLoop, WellFormed, CompOk;
    hide ReadsPastEnd, Followed, FollowedDict, PutsOut, Prepend, Patched;
    ReadyFacts(x, d, c, size, arcBits, srcSize);
    var m := TurnMatch(c);
    if c.src == [] {
      FollowEnd(x, d, c, size, arcBits, srcSize);
      assert [c.base] + c.src == [c.base];
    } else if m.rest == [] {
      FollowOut(x, d, c, size, arcBits, srcSize);
      PatchNothing([c.base] + c.src);
    } else {
      FollowOn(x, d, c, size, arcBits, srcSize);
      FollowStep(x, d, c, size, arcBits, srcSize);
      Follow(Followed(x, c), FollowedDict(x, d, c), Turn(c), size, arcBits, srcSize);
      PatchTail(c.base, c.src, m.rest, ReadsPastEnd(c, size) && c.bits[size]);
      PutsOutMore(Loop(Followed(x, c), arcBits, srcSize, |m.rest|), [c.base] + c.src[..|c.src| - |m.rest|],
                  Patched(m.rest, ReadsPastEnd(c, size) && c.bits[size]));
    }
  }

  // The first call of ArcExpandBuf: one literal character, then the loop.
  lemma ExpandFirst(x: Expander, bits: seq<bool>, n: nat, need: nat)
    requires ExpanderOk(x) && x.pending == [] && x.saved == NONE && CanStart(x, bits)
    requires n <= |bits| && 0 < need && CodeAt(x, bits) < 256
    ensures Expand(x, bits, n, need) == Prepend([CodeAt(x, bits)], Loop(AfterFirst(x, bits), bits, n, need - 1))
  {
    hide Loop, CodeAt, Get;
    assert x.pending + [CodeAt(x, bits) % 256] == [CodeAt(x, bits)];
  }
}

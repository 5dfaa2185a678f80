/** What the compressor and the expander compute, as functions of the control block and the
    buffers, and the proof that the second undoes the first. */
module ArcCodec {
  import opened Bits
  import opened ArcTrie

  // ---- Compressing ----

  // First entry in the list that adds ch.
  ghost function Child(table: seq<Entry>, l: seq<nat>, ch: nat): int
    requires Below(l, |table|)
  {
    if l == [] then NONE else if table[l[0]].ch == ch then l[0] else Child(table, l[1..], ch)
  }

  lemma {:induction false} ChildInList(table: seq<Entry>, l: seq<nat>, ch: nat)
    requires Below(l, |table|)
    ensures var k := Child(table, l, ch); k != NONE ==> k in l && table[k].ch == ch
    ensures Child(table, l, ch) == NONE ==> forall x :: x in l ==> table[x].ch != ch
  {
    if l != [] && table[l[0]].ch != ch {
      ChildInList(table, l[1..], ch);
    }
  }

  datatype Match = Match(code: nat, rest: seq<nat>)

  // Follow children from base as long as the input allows.
  ghost function Walk(a: Arc, base: nat, src: seq<nat>): (m: Match)
    requires WellFormed(a) && base < TABLE_SIZE
    ensures m.code < TABLE_SIZE && |m.rest| <= |src|
    decreases |src|
  {
    if src == [] then Match(base, [])
    else
      var k := Child(a.table, a.hash[base], src[0]);
      ChildInList(a.table, a.hash[base], src[0]);
      if k == NONE then Match(base, src) else Walk(a, k, src[1..])
  }

  lemma {:induction false} WalkRest(a: Arc, base: nat, src: seq<nat>)
    requires WellFormed(a) && base < TABLE_SIZE
    ensures var m := Walk(a, base, src); m.rest == src[|src| - |m.rest|..]
    decreases |src|
  {
    if src != [] {
      var k := Child(a.table, a.hash[base], src[0]);
      ChildInList(a.table, a.hash[base], src[0]);
      if k != NONE {
        WalkRest(a, k, src[1..]);
      }
    }
  }

  // The walk at position p of the input, one character at a time.
  lemma WalkStep(a: Arc, base: nat, src: seq<nat>, p: nat)
    requires WellFormed(a) && base < TABLE_SIZE && p <= |src|
    ensures p == |src| ==> Walk(a, base, src[p..]) == Match(base, [])
    ensures p < |src| ==>
              && Below(a.hash[base], TABLE_SIZE)
              && var k := Child(a.table, a.hash[base], src[p]);
                 if k == NONE then Walk(a, base, src[p..]) == Match(base, src[p..])
                 else 0 <= k < TABLE_SIZE && Walk(a, base, src[p..]) == Walk(a, k, src[p + 1..])
  {
    if p < |src| {
      ChildInList(a.table, a.hash[base], src[p]);
      assert src[p..][1..] == src[p + 1..];
    }
  }

  // State of a compression: control block, output bits and position, pending code, unread input.
  datatype Comp = Comp(arc: Arc, bits: seq<bool>, pos: nat, base: nat, src: seq<nat>)

  ghost predicate CompOk(c: Comp)
  {
    WellFormed(c.arc) && c.base < TABLE_SIZE && Below(c.src, TABLE_SIZE)
  }

  // One turn of the loop of ArcCompressBuf; without a next character the match stays pending.
  ghost function Turn(c: Comp): (r: Comp)
    requires CompOk(c) && c.src != []
    ensures CompOk(r) && |r.src| < |c.src| && |r.bits| == |c.bits|
  {
    GetWellFormed(c.arc);
    var g := Get(c.arc);
    var m := Walk(g, c.base, c.src);
    WalkRest(g, c.base, c.src);
    if m.rest == [] then Comp(g, c.bits, c.pos, m.code, [])
    else
      FillWellFormed(g, m.code, m.rest[0]);
      Comp(Fill(g, m.code, m.rest[0]), BitFieldOr(c.bits, c.pos, m.code), c.pos + g.curBits, m.rest[0], m.rest[1..])
  }

  lemma TurnIs(c: Comp)
    requires CompOk(c) && c.src != []
    ensures WellFormed(Get(c.arc)) && !Get(c.arc).used
    ensures var m := Walk(Get(c.arc), c.base, c.src);
            if m.rest == [] then Turn(c) == Comp(Get(c.arc), c.bits, c.pos, m.code, [])
            else
              && 0 <= Get(c.arc).cur < TABLE_SIZE
              && Turn(c) == Comp(Fill(Get(c.arc), m.code, m.rest[0]), BitFieldOr(c.bits, c.pos, m.code),
                                 c.pos + Get(c.arc).curBits, m.rest[0], m.rest[1..])
  {
    GetWellFormed(c.arc);
    FillWellFormed(Get(c.arc), 0, 0);
    hide Walk, WellFormed;
  }

  ghost function Encode(c: Comp, size: int): (r: Comp)
    requires CompOk(c)
    ensures CompOk(r) && |r.bits| == |c.bits|
    decreases |c.src|
  {
    if c.src == [] || c.pos + c.arc.curBits > size then c else Encode(Turn(c), size)
  }

  lemma EncodeStep(c: Comp, size: int)
    requires CompOk(c)
    ensures Encode(c, size) == if c.src == [] || c.pos + c.arc.curBits > size then c else Encode(Turn(c), size)
  {
  }

  // ---- Expanding ----

  datatype Spelling = Overflow | Spelled(s: seq<nat>)

  // The string a code stands for, read up the base codes; room is what the stack still holds.
  ghost function Spell(a: Arc, code: nat, room: nat): (r: Spelling)
    requires Tables(a) && code < TABLE_SIZE
    ensures r.Spelled? ==> r.s != []
    decreases room
  {
    if room == 0 then Overflow
    else if code < a.MinEntry() then Spelled([code])
    else match Spell(a, a.table[code].basecode, room - 1)
      case Overflow => Overflow
      case Spelled(s) => Spelled(s + [a.table[code].ch])
  }

  // State of an expansion. pending is the stack from its top, saved the last code or NONE.
  datatype Expander = Expander(arc: Arc, pending: seq<nat>, saved: int, lastCh: nat, srcPos: nat)

  // Stuck: outside what the loop supports (stack overflow, a read outside the buffer, or an
  // endless recycle search); no output of the compressor leads there.
  datatype Piece = Stuck | Piece(out: seq<nat>, x: Expander)

  ghost predicate CanGet(a: Arc)
    requires WellFormed(a)
  {
    a.used && a.nextBits == ARC_BITS_MAX ==>
      exists z :: a.MinEntry() <= z < a.freeLimit && a.hash[z] == []
  }

  ghost predicate ExpanderOk(x: Expander)
  {
    && WellFormed(x.arc)
    && (x.saved == NONE || (0 <= x.saved < TABLE_SIZE && !x.arc.used))
  }

  // The string the next code yields: the unfilled current entry stands for the previous string
  // and its own first character.
  ghost function NextString(x: Expander, code: nat): (r: Spelling)
    requires InLoop(x) && code < TABLE_SIZE
    ensures r.Spelled? ==> r.s != []
  {
    if code == x.arc.cur then
      match Spell(x.arc, x.saved, TABLE_SIZE - 1)
      case Overflow => Overflow
      case Spelled(s) => Spelled(s + [x.lastCh % 256])
    else Spell(x.arc, code, TABLE_SIZE)
  }

  ghost function CodeAt(x: Expander, bits: seq<bool>): (code: nat)
    requires WellFormed(x.arc) && x.srcPos + x.arc.nextBits <= |bits|
    ensures code < TABLE_SIZE
  {
    ExtBound(bits, x.srcPos, x.arc.nextBits);
    Pow2Table();
    Pow2Mono(x.arc.nextBits, ARC_BITS_MAX);
    BitFieldExt(bits, x.srcPos, x.arc.nextBits)
  }

  // A first code has been read and the stack is empty.
  ghost predicate InLoop(x: Expander)
  {
    ExpanderOk(x) && x.saved != NONE && x.pending == []
  }

  // The expander after a code whose string starts with ch, before the string is put out.
  ghost function Learn(x: Expander, code: nat, ch: nat): (y: Expander)
    requires InLoop(x) && code < TABLE_SIZE
    ensures InLoop(y)
  {
    FillWellFormed(x.arc, x.saved, ch);
    GetWellFormed(Fill(x.arc, x.saved, ch));
    x.(arc := Get(Fill(x.arc, x.saved, ch)), lastCh := ch, srcPos := x.srcPos + x.arc.nextBits, saved := code)
  }

  ghost predicate CanLearn(x: Expander, ch: nat)
    requires InLoop(x)
  {
    FillWellFormed(x.arc, x.saved, ch);
    CanGet(Fill(x.arc, x.saved, ch))
  }

  // One code: its string goes on the stack.
  ghost function TakeCode(x: Expander, bits: seq<bool>): (r: Piece)
    requires InLoop(x) && x.srcPos + x.arc.nextBits <= |bits|
    ensures r.Piece? ==> ExpanderOk(r.x) && r.x.saved != NONE && r.x.pending != []
  {
    match NextString(x, CodeAt(x, bits))
    case Overflow => Stuck
    case Spelled(s) =>
      if CanLearn(x, s[0]) then Piece([], Learn(x, CodeAt(x, bits), s[0]).(pending := s)) else Stuck
  }

  // The loop of ArcExpandBuf with room for need more characters.
  ghost function Loop(x: Expander, bits: seq<bool>, srcSize: nat, need: nat): (r: Piece)
    requires InLoop(x) && srcSize <= |bits|
    ensures r.Piece? ==> ExpanderOk(r.x) && |r.out| <= need
    decreases need, 1
  {
    if need == 0 || x.srcPos + x.arc.nextBits > srcSize then Piece([], x)
    else
      var t := TakeCode(x, bits);
      if t.Stuck? then Stuck else Expand(t.x, bits, srcSize, need)
  }

  ghost predicate CanStart(x: Expander, bits: seq<bool>)
    requires WellFormed(x.arc)
  {
    x.srcPos + x.arc.nextBits <= |bits| && CanGet(x.arc)
  }

  // The expander once its first code has been read.
  ghost function AfterFirst(x: Expander, bits: seq<bool>): (y: Expander)
    requires WellFormed(x.arc) && CanStart(x, bits)
    ensures InLoop(y)
  {
    GetWellFormed(x.arc);
    x.(arc := Get(x.arc), pending := [], saved := CodeAt(x, bits), lastCh := CodeAt(x, bits),
       srcPos := x.srcPos + x.arc.nextBits)
  }

  // ArcExpandBuf: drain the stack, read the first code if there was none, then loop.
  ghost function Expand(x: Expander, bits: seq<bool>, srcSize: nat, need: nat): (r: Piece)
    requires ExpanderOk(x) && srcSize <= |bits|
    ensures r.Piece? ==> ExpanderOk(r.x) && |r.out| <= need
    decreases need, if x.pending == [] then 2 else 0
  {
    if |x.pending| >= need then Piece(x.pending[..need], x.(pending := x.pending[need..]))
    else if x.saved != NONE then
      Prepend(x.pending, Loop(x.(pending := []), bits, srcSize, need - |x.pending|))
    else if !CanStart(x, bits) then Stuck
    else
      Prepend(x.pending + [CodeAt(x, bits) % 256],
              Loop(AfterFirst(x, bits), bits, srcSize, need - |x.pending| - 1))
  }

  ghost function Prepend(s: seq<nat>, p: Piece): Piece
  {
    match p case Stuck => Stuck case Piece(o, x) => Piece(s + o, x)
  }

  // ---- The steps of an expansion ----

  lemma SplitPending(s: seq<nat>, n: nat, m: nat)
    requires n <= |s|
    ensures s[..n] + s[n..] == s
    ensures n + m <= |s| ==> s[..n] + s[n..][..m] == s[..n + m] && s[n..][m..] == s[n + m..]
  {
  }

  lemma PrependNothing(p: Piece)
    ensures Prepend([], p) == p
  {
  }

  lemma PrependTwice(s: seq<nat>, t: seq<nat>, p: Piece)
    ensures Prepend(s, Prepend(t, p)) == Prepend(s + t, p)
  {
    if p.Piece? {
      assert s + (t + p.out) == (s + t) + p.out;
    }
  }

  // The first piece comes from the stack alone.
  lemma DrainInPieces(x: Expander, bits: seq<bool>, srcSize: nat, n: nat, m: nat)
    requires ExpanderOk(x) && srcSize <= |bits| && n <= |x.pending|
    ensures Expand(x, bits, srcSize, n + m) ==
            Prepend(x.pending[..n], Expand(x.(pending := x.pending[n..]), bits, srcSize, m))
  {
    hide Loop, CodeAt, CanGet;
    var s := x.pending;
    SplitPending(s, n, m);
    DrainThenStart(x, bits, n);
    if |s| < n + m {
      if x.saved != NONE {
        PrependTwice(s[..n], s[n..], Loop(x.(pending := []), bits, srcSize, n + m - |s|));
      } else if CanStart(x, bits) {
        PrependTwice(s[..n], s[n..] + [CodeAt(x, bits) % 256], Loop(AfterFirst(x, bits), bits, srcSize, n + m - |s| - 1));
      }
    }
  }

  lemma DrainStep(x: Expander, out: seq<nat>, rest: seq<nat>, bits: seq<bool>, srcSize: nat, m: nat)
    requires ExpanderOk(x) && srcSize <= |bits| && x.pending == out + rest
    ensures Expand(x, bits, srcSize, |out| + m) == Prepend(out, Expand(x.(pending := rest), bits, srcSize, m))
  {
    hide Expand, WellFormed;
    assert (out + rest)[..|out|] == out && (out + rest)[|out|..] == rest;
    DrainInPieces(x, bits, srcSize, |out|, m);
  }

  lemma DrainThenStart(x: Expander, bits: seq<bool>, n: nat)
    requires ExpanderOk(x) && n <= |x.pending|
    ensures CanStart(x.(pending := x.pending[n..]), bits) <==> CanStart(x, bits)
    ensures var y := x.(pending := x.pending[n..]);
            CanStart(x, bits) ==>
            && CodeAt(y, bits) == CodeAt(x, bits) && AfterFirst(y, bits) == AfterFirst(x, bits)
            && x.pending[..n] + (y.pending + [CodeAt(x, bits) % 256]) == x.pending + [CodeAt(x, bits) % 256]
  {
  }

  lemma TakeCodeIs(x: Expander, bits: seq<bool>)
    requires InLoop(x) && x.srcPos + x.arc.nextBits <= |bits| && TakeCode(x, bits).Piece?
    ensures NextString(x, CodeAt(x, bits)).Spelled? && 0 <= x.arc.cur < TABLE_SIZE && 0 <= x.saved < TABLE_SIZE
    ensures |x.arc.table| == |x.arc.hash| == TABLE_SIZE && x.arc.nextBits <= ARC_BITS_MAX
    ensures var s := NextString(x, CodeAt(x, bits)).s;
            var f := Fill(x.arc, x.saved, s[0]);
            && WellFormed(f) && CanGet(f) && TakeCode(x, bits).x.pending == s
            && TakeCode(x, bits).x == Expander(Get(f), s, CodeAt(x, bits), s[0], x.srcPos + x.arc.nextBits)
  {
    FillWellFormed(x.arc, x.saved, NextString(x, CodeAt(x, bits)).s[0]);
  }

  // A code taken in the loop: its string is then drained like any other.
  lemma CodeStep(x: Expander, bits: seq<bool>, srcSize: nat, need: nat)
    requires InLoop(x) && srcSize <= |bits| && need > 0 && x.srcPos + x.arc.nextBits <= srcSize
    requires Expand(x, bits, srcSize, need).Piece?
    ensures TakeCode(x, bits).Piece? && Expand(x, bits, srcSize, need) == Expand(TakeCode(x, bits).x, bits, srcSize, need)
  {
    hide TakeCode;
    assert x.(pending := []) == x;
    PrependNothing(Loop(x, bits, srcSize, need));
  }

  lemma FirstStep(x: Expander, bits: seq<bool>, srcSize: nat, need: nat)
    requires ExpanderOk(x) && x.pending == [] && x.saved == NONE && srcSize <= |bits| && need > 0
    requires Expand(x, bits, srcSize, need).Piece?
    ensures CanStart(x, bits)
    ensures Expand(x, bits, srcSize, need) ==
            Prepend([CodeAt(x, bits) % 256], Expand(AfterFirst(x, bits), bits, srcSize, need - 1))
  {
    hide TakeCode, CodeAt, CanGet;
    var y := AfterFirst(x, bits);
    assert x.pending + [CodeAt(x, bits) % 256] == [CodeAt(x, bits) % 256];
    assert y.(pending := []) == y;
    PrependNothing(Loop(y, bits, srcSize, need - 1));
  }

  // Nothing more to do: no room, or the codes are used up.
  lemma LastStep(x: Expander, bits: seq<bool>, srcSize: nat, need: nat)
    requires ExpanderOk(x) && srcSize <= |bits|
    requires need == 0 || (InLoop(x) && x.srcPos + x.arc.nextBits > srcSize)
    ensures Expand(x, bits, srcSize, need) == Piece([], x)
  {
    assert x.pending[0..] == x.pending;
    if need > 0 {
      assert x.(pending := []) == x;
      PrependNothing(Loop(x, bits, srcSize, need));
    }
  }
}

/** The archive control block as the object it is: its fields change step by step, and every method
    is proved to do what the functions of ArcTrie and ArcCodec say. */
module ArcCtrl {
  import opened Bits
  import opened BitFields
  import opened ArcTrie
  import opened ArcCodec
  import opened ArcRoundTrip

  // The bits of an archive, as they lie in memory with at least eight bytes after them.
  ghost predicate Shows(src: seq<nat>, bits: seq<bool>)
  {
    Below(src, 256) && |bits| + 64 <= 8 * |src| && BitsOf(src)[..|bits|] == bits
  }

  method ReadCode(src: seq<nat>, ghost bits: seq<bool>, p: nat, w: nat) returns (code: nat)
    requires Shows(src, bits) && p + w <= |bits| && w <= ARC_BITS_MAX
    ensures code == BitFieldExt(bits, p, w)
  {
    code := BFieldExt(src, p, w);
    assert forall i :: 0 <= i < |bits| ==> BitsOf(src)[..|bits|][i] == BitsOf(src)[i];
    ExtAgree(BitsOf(src), bits, p, w);
  }

  lemma CodesFit()
    ensures TABLE_SIZE < Pow2(32)
  {
    Pow2Table();
    Pow2Mono(ARC_BITS_MAX, 32);
  }

  ghost function Reversed(s: seq<nat>): (r: seq<nat>)
    ensures |r| == |s| && forall i :: 0 <= i < |s| ==> r[i] == s[|s| - 1 - i]
  {
    seq(|s|, i requires 0 <= i < |s| => s[|s| - 1 - i])
  }

  class CArcCtrl {
    const minBits: nat
    const compress: array<Entry>
    const hash: array<seq<nat>>
    var freeIdx: nat
    var freeLimit: nat
    var curEntry: int
    var nextEntry: int
    var curBits: nat
    var nextBits: nat
    var entryUsed: bool
    var savedBasecode: int
    var lastCh: nat
    var srcPos: nat
    var dstPos: nat
    const stk: array<nat>
    var stkPtr: nat

    function Trie(): Arc
      reads this, compress, hash
    {
      Arc(minBits, compress[..], hash[..], freeIdx, freeLimit, curEntry, nextEntry, curBits, nextBits, entryUsed)
    }

    /** ArcCtrlNew. */
    constructor (minBits: nat, expand: bool)
      requires minBits == 7 || minBits == 8
      ensures Trie() == New(minBits)
      ensures savedBasecode == NONE && srcPos == dstPos == stkPtr == lastCh == 0
      ensures stk.Length == if expand then TABLE_SIZE else 0
      ensures fresh(compress) && fresh(hash) && fresh(stk)
    {
      hide Pow2, Get, Shape;
      this.minBits := minBits;
      compress := new Entry[TABLE_SIZE](_ => Entry(0, 0));
      hash := new seq<nat>[TABLE_SIZE](_ => []);
      stk := new nat[if expand then TABLE_SIZE else 0];
      stkPtr, savedBasecode, lastCh, srcPos, dstPos := 0, NONE, 0, 0, 0;
      freeIdx, nextBits, freeLimit := Pow2(minBits), minBits + 1, Pow2(minBits + 1);
      curEntry, nextEntry, curBits, entryUsed := NONE, NONE, 0, true;
      new;
      Pow2Table();
      assert Trie() == Blank(minBits);
      EntryGet();
      entryUsed := true;
    }

    /** ArcEntryGet. The search for a leaf ends because there is one. */
    method EntryGet()
      requires Tables(Trie())
      requires entryUsed && nextBits == ARC_BITS_MAX ==>
                 exists z :: Trie().MinEntry() <= z < freeLimit && hash[z] == []
      modifies `freeIdx, `freeLimit, `curEntry, `nextEntry, `curBits, `nextBits, `entryUsed, hash
      ensures Trie() == Get(old(Trie()))
      ensures old(entryUsed) ==>
                if old(nextBits) < ARC_BITS_MAX then Grows(old(Trie()), Trie()) else Recycles(old(Trie()), Trie())
    {
      hide Pow2, Shape, Grows, Recycles;
      if entryUsed {
        GetTakes(Trie());
      }
      if entryUsed {
        var i := freeIdx;
        entryUsed, curEntry, curBits := false, nextEntry, nextBits;
        if nextBits < ARC_BITS_MAX {
          nextEntry := i;
          i := i + 1;
          if i == freeLimit {
            nextBits := nextBits + 1;
            freeLimit := Pow2(nextBits);
          }
        } else {
          i := FindLeaf();
          nextEntry := i;
          UnlinkEntry(compress[i].basecode, i);
        }
        freeIdx := i;
      }
    }

    method FindLeaf() returns (i: nat)
      requires Tables(Trie())
      requires exists z :: Trie().MinEntry() <= z < freeLimit && hash[z] == []
      ensures i == LeafAfter(hash[..], freeIdx, Trie().MinEntry(), freeLimit, freeLimit)
    {
      hide Pow2;
      var lo := Pow2(minBits);
      ghost var z :| lo <= z < freeLimit && hash[z] == [];
      ghost var fuel: nat := freeLimit - 1;
      i := Following(freeIdx, lo, freeLimit);
      while hash[i] != []
        invariant lo <= i < freeLimit
        invariant hash[i] != [] ==> Distance(i, z, lo, freeLimit) <= fuel
        invariant LeafAfter(hash[..], freeIdx, lo, freeLimit, freeLimit) ==
                  if hash[i] == [] then i else LeafAfter(hash[..], i, lo, freeLimit, fuel)
        decreases fuel
      {
        i := Following(i, lo, freeLimit);
        fuel := fuel - 1;
      }
    }

    method UnlinkEntry(base: nat, x: nat)
      requires base < hash.Length
      modifies hash
      ensures hash[..] == old(hash[..])[base := Unlink(old(hash[base]), x)]
    {
      var k := 0;
      var l := hash[base];
      while k < |l|
        invariant 0 <= k <= |l| && hash[..] == old(hash[..])
        invariant Unlink(l, x) == l[..k] + Unlink(l[k..], x)
      {
        if l[k] == x {
          hash[base] := l[..k] + l[k + 1..];
          return;
        }
        k := k + 1;
      }
      assert l[..k] == l && l[k..] == [];
      assert Unlink(l, x) == l;
    }

    /** The part both loops share: the current entry is filled and put at the head of its list. */
    method FillEntry(base: nat, ch: nat)
      requires 0 <= curEntry < compress.Length && base < hash.Length
      modifies `entryUsed, compress, hash
      ensures Trie() == Fill(old(Trie()), base, ch)
    {
      entryUsed := true;
      compress[curEntry] := Entry(base, ch);
      hash[base] := [curEntry as nat] + hash[base];
    }

    method FindChild(base: nat, ch: nat) returns (k: int)
      requires base < hash.Length && Below(hash[base], compress.Length)
      ensures k == Child(compress[..], hash[base], ch)
    {
      var l := hash[base];
      var n := 0;
      while n < |l|
        invariant 0 <= n <= |l|
        invariant Child(compress[..], l, ch) == Child(compress[..], l[n..], ch)
      {
        if compress[l[n]].ch == ch {
          return l[n];
        }
        assert l[n..][1..] == l[n + 1..];
        n := n + 1;
      }
      k := NONE;
    }
  
    // ---- Compressing ----

    ghost function Compression(src: seq<nat>, dst: array<nat>, base: nat, at: nat): Comp
      requires at <= |src|
      reads this, compress, hash, dst
    {
      Comp(Trie(), BitsOf(dst[..]), dstPos, base, src[at..])
    }

    /** ArcCompressBuf with a code or first character pending. The saved state is what Encode says,
        and the input position counts what it consumed. */
    method CompressFrom(src: seq<nat>, at: nat, first: nat, dst: array<nat>, dstSize: nat, ghost d: Dict)
      requires at <= |src| && Live(Compression(src, dst, first, at), d)
      requires Below(dst[..], 256) && dstSize + 64 <= 8 * dst.Length
      modifies this, compress, hash, dst
      ensures Below(dst[..], 256) && srcPos <= |src| && 0 <= savedBasecode < TABLE_SIZE
      ensures CompOk(old(Compression(src, dst, first, at)))
      ensures Compression(src, dst, savedBasecode, srcPos) == Encode(old(Compression(src, dst, first, at)), dstSize)
    {
      hide Encode, Turn, TurnDict, Live, BitsOf, WellFormed;
      var p, base := at, first;
      ghost var e := d;
      ghost var c := Compression(src, dst, first, at);
      LiveOk(c, e);
      while p < |src| && dstPos + curBits <= dstSize
        invariant Below(dst[..], 256) && at <= p <= |src| && Live(Compression(src, dst, base, p), e)
        invariant CompOk(Compression(src, dst, base, p))
        invariant Encode(Compression(src, dst, base, p), dstSize) == Encode(c, dstSize)
        decreases |src| - p
      {
        ghost var t := Compression(src, dst, base, p);
        var done;
        TurnKeepsLive(t, e);
        EncodeStep(t, dstSize);
        p, base, done := OneTurn(src, p, base, dst, dstSize, e);
        e := TurnDict(t, e);
        if done {
          break;
        }
      }
      EncodeStep(Compression(src, dst, base, p), dstSize);
      savedBasecode, srcPos := base, p;
    }

    // From ac_start on: follow children until the input ends or a character has no child.
    method LongestMatch(src: seq<nat>, at: nat, first: nat) returns (p: nat, base: nat, done: bool)
      requires at < |src| && first < TABLE_SIZE && WellFormed(Trie())
      ensures at < p <= |src|
      ensures Walk(Trie(), first, src[at..]) == Match(base, if done then [] else src[p - 1..])
      ensures done ==> p == |src|
    {
      ghost var a := Trie();
      assert |a.hash| == |a.table| == TABLE_SIZE;
      hide Walk, WellFormed;
      p, base, done := at, first, false;
      var matched := true;
      while matched && !done
        invariant at <= p <= |src| && base < TABLE_SIZE && (done ==> matched && p == |src|)
        invariant matched ==> Walk(a, first, src[at..]) == Walk(a, base, src[p..])
        invariant !matched ==> at < p && Walk(a, first, src[at..]) == Match(base, src[p - 1..])
        decreases |src| - p, matched, !done
      {
        WalkStep(a, base, src, p);
        if p >= |src| {
          done := true;
        } else {
          var k := FindChild(base, src[p]);
          p := p + 1;
          if k != NONE {
            base := k;
          } else {
            matched := false;
          }
        }
      }
    }

    // The code of a match goes out, and its entry is filled.
    method PutCode(dst: array<nat>, base: nat, ch: nat)
      requires Below(dst[..], 256) && dstPos - dstPos % 8 + 64 <= 8 * dst.Length
      requires 0 <= curEntry < compress.Length && base < hash.Length == TABLE_SIZE
      modifies `dstPos, `entryUsed, compress, hash, dst
      ensures Below(dst[..], 256) && BitsOf(dst[..]) == BitFieldOr(old(BitsOf(dst[..])), old(dstPos), base)
      ensures Trie() == Fill(old(Trie()), base, ch) && dstPos == old(dstPos) + curBits
    {
      hide BitsOf, BitFieldOr, Pow2, Fill;
      CodesFit();
      BFieldOr(dst, dstPos, base);
      dstPos := dstPos + curBits;
      FillEntry(base, ch);
    }

    // One turn of the loop; done when the input ran out inside the match.
    method OneTurn(src: seq<nat>, at: nat, first: nat, dst: array<nat>, dstSize: nat, ghost d: Dict)
        returns (p: nat, base: nat, done: bool)
      requires at < |src| && Live(Compression(src, dst, first, at), d)
      requires dstPos + curBits <= dstSize && Below(dst[..], 256) && dstSize + 64 <= 8 * dst.Length
      modifies this, compress, hash, dst
      ensures at < p <= |src| && Below(dst[..], 256)
      ensures CompOk(old(Compression(src, dst, first, at)))
      ensures Compression(src, dst, base, p) == Turn(old(Compression(src, dst, first, at)))
      ensures done ==> p == |src|
    {
      hide Walk, Turn, Get, Inv, Below, BitFieldOr, BitsOf, Fill, Pow2;
      ghost var c := Compression(src, dst, first, at);
      LiveOk(c, d);
      if entryUsed && nextBits == ARC_BITS_MAX {
        ghost var z := LeafAhead(Trie(), d);
      }
      assert compress.Length == hash.Length == TABLE_SIZE && Tables(Trie());
      TurnIs(c);
      hide Walk, Turn, Get, Inv, Live, Shape, Below;
      EntryGet();
      hide WellFormed, Tables;
      p, base, done := LongestMatch(src, at, first);
      if !done {
        var ch := src[p - 1];
        assert src[p - 1..][1..] == src[p..];
        PutCode(dst, base, ch);
        base := ch;
      }
    }
  
    // ---- Expanding ----

    // The stack, top first.
    ghost function Pending(): seq<nat>
      reads this, stk
      requires stkPtr <= stk.Length
    {
      Reversed(stk[..stkPtr])
    }

    ghost function Expansion(): Expander
      reads this, compress, hash, stk
      requires stkPtr <= stk.Length
    {
      Expander(Trie(), Pending(), savedBasecode, lastCh, srcPos)
    }

    method Push(ch: nat)
      requires stkPtr < stk.Length
      modifies `stkPtr, stk
      ensures stkPtr == old(stkPtr) + 1 && Pending() == [ch] + old(Pending())
    {
      stk[stkPtr] := ch;
      stkPtr := stkPtr + 1;
    }

    /** Characters move from the stack to the destination until one runs out. */
    method Drain(dst: array<nat>) returns (ghost out: seq<nat>)
      requires stkPtr <= stk.Length && dstPos <= dst.Length && dst != stk
      modifies `stkPtr, `dstPos, dst
      ensures stkPtr <= stk.Length && dstPos == old(dstPos) + |out| <= dst.Length && (stkPtr == 0 || dstPos == dst.Length)
      ensures old(Pending()) == out + Pending()
      ensures dst[..dstPos] == old(dst[..dstPos]) + out
      ensures forall i :: dstPos <= i < dst.Length ==> dst[i] == old(dst[i])
    {
      hide Pending;
      out := [];
      while dstPos < dst.Length && stkPtr != 0
        invariant stkPtr <= stk.Length && old(dstPos) <= dstPos == old(dstPos) + |out| <= dst.Length
        invariant old(Pending()) == out + Pending()
        invariant dst[..dstPos] == old(dst[..dstPos]) + out
        invariant forall i :: dstPos <= i < dst.Length ==> dst[i] == old(dst[i])
        decreases stkPtr
      {
        ghost var ch := Pop(dst);
        out := out + [ch];
      }
    }

    method Pop(dst: array<nat>) returns (ghost ch: nat)
      requires 0 < stkPtr <= stk.Length && dstPos < dst.Length && dst != stk
      modifies `stkPtr, `dstPos, dst
      ensures stkPtr == old(stkPtr) - 1 && dstPos == old(dstPos) + 1
      ensures old(Pending()) == [ch] + Pending()
      ensures dst[..dstPos] == old(dst[..dstPos]) + [ch]
      ensures forall i :: dstPos <= i < dst.Length ==> dst[i] == old(dst[i])
    {
      stkPtr := stkPtr - 1;
      ch := stk[stkPtr];
      assert old(Pending()) == [ch] + Pending();
      dst[dstPos] := stk[stkPtr];
      dstPos := dstPos + 1;
    }

    /** The string of a code goes on the stack, which holds it. */
    method PushString(first: nat, room: nat)
      requires Tables(Trie()) && first < TABLE_SIZE && stk.Length == TABLE_SIZE && stkPtr + room == stk.Length
      requires Spell(Trie(), first, room).Spelled?
      modifies `stkPtr, `lastCh, stk
      ensures stkPtr <= stk.Length
      ensures var s := Spell(Trie(), first, room).s;
              Pending() == s + old(Pending()) && lastCh == s[0] < Trie().MinEntry()
    {
      hide Reversed, Pow2;
      ghost var a := Trie();
      ghost var left: nat := room;
      var code: nat := first;
      var minEntry := Pow2(minBits);
      while code >= minEntry
        invariant code < TABLE_SIZE && stkPtr + left == stk.Length && Trie() == a
        invariant Spell(a, code, left).Spelled?
        invariant Spell(a, first, room).s + old(Pending()) == Spell(a, code, left).s + Pending()
        decreases left
      {
        ghost var rest := Spell(a, compress[code].basecode, left - 1).s;
        ghost var before := Pending();
        Push(compress[code].ch);
        assert (rest + [compress[code].ch]) + before == rest + ([compress[code].ch] + before);
        code := compress[code].basecode;
        left := left - 1;
      }
      ghost var s := Spell(a, first, room).s;
      SpellStart(a, first, room);
      assert s + old(Pending()) == [code] + Pending();
      Push(code);
      lastCh := code;
      assert (s + old(Pending()))[0] == s[0];
    }
  
    // The string of the code just read goes on the stack.
    method PushCode(code: nat)
      requires stkPtr == 0 && stk.Length == TABLE_SIZE && InLoop(Expansion()) && code < TABLE_SIZE
      requires NextString(Expansion(), code).Spelled?
      modifies `stkPtr, `lastCh, stk
      ensures stkPtr <= stk.Length
      ensures Pending() == NextString(old(Expansion()), code).s && lastCh == Pending()[0]
    {
      ghost var x := Expansion();
      assert Tables(x.arc);
      hide WellFormed, Spell;
      if code == curEntry {
        Push(lastCh % 256);
        PushString(savedBasecode, TABLE_SIZE - 1);
      } else {
        PushString(code, TABLE_SIZE);
      }
    }

    /** Take one code: its string on the stack, the table updated, the next entry chosen. */
    method OneCode(src: seq<nat>, ghost bits: seq<bool>)
      requires Shows(src, bits)
      requires stkPtr == 0 && stk.Length == TABLE_SIZE && InLoop(Expansion())
      requires srcPos + nextBits <= |bits| && TakeCode(Expansion(), bits).Piece?
      modifies `stkPtr, `lastCh, `savedBasecode, `srcPos, `entryUsed, `freeIdx, `freeLimit, `curEntry, `nextEntry,
               `curBits, `nextBits, stk, compress, hash
      ensures stkPtr <= stk.Length && Expansion() == TakeCode(old(Expansion()), bits).x
      ensures stkPtr > 0 && ExpanderOk(Expansion()) && savedBasecode != NONE
    {
      hide Get, BitFieldExt, TakeCode, NextString, WellFormed, CanGet, Fill, Reversed, Pow2, Shows;
      ghost var x := Expansion();
      TakeCodeIs(x, bits);
      var code := ReadCode(src, bits, srcPos, nextBits);
      assert code == CodeAt(x, bits);
      PushCode(code);
      srcPos := srcPos + nextBits;
      LearnEntry();
      savedBasecode := code;
    }

    // The entry waiting to be filled becomes the last code and the character after it.
    method LearnEntry()
      requires WellFormed(Trie()) && 0 <= curEntry < TABLE_SIZE && 0 <= savedBasecode < TABLE_SIZE
      requires WellFormed(Fill(Trie(), savedBasecode, lastCh)) && CanGet(Fill(Trie(), savedBasecode, lastCh))
      modifies `entryUsed, `freeIdx, `freeLimit, `curEntry, `nextEntry, `curBits, `nextBits, compress, hash
      ensures Trie() == Get(Fill(old(Trie()), savedBasecode, lastCh))
    {
      hide Get;
      FillEntry(savedBasecode, lastCh);
      EntryGet();
    }

    // Drain, and what is left to expand afterwards.
    method DrainOnce(ghost bits: seq<bool>, ghost srcSize: nat, dst: array<nat>) returns (ghost out: seq<nat>)
      requires stkPtr <= stk.Length && dst != stk && dstPos <= dst.Length && srcSize <= |bits| && ExpanderOk(Expansion())
      modifies `stkPtr, `dstPos, dst
      ensures stkPtr <= stk.Length && dstPos <= dst.Length && ExpanderOk(Expansion())
      ensures old(dstPos) <= dstPos && (old(stkPtr) > 0 && old(dstPos) < dst.Length ==> old(dstPos) < dstPos)
      ensures dstPos < dst.Length ==> stkPtr == 0 && Expansion().pending == []
      ensures dst[..dstPos] == old(dst[..dstPos]) + out && forall i :: dstPos <= i < dst.Length ==> dst[i] == old(dst[i])
      ensures Expand(old(Expansion()), bits, srcSize, dst.Length - old(dstPos)) ==
              Prepend(out, Expand(Expansion(), bits, srcSize, dst.Length - dstPos))
    {
      hide Expand, WellFormed;
      ghost var x := Expansion();
      out := Drain(dst);
      assert Expansion() == x.(pending := Pending());
      hide Trie, Reversed;
      DrainStep(x, out, Pending(), bits, srcSize, dst.Length - dstPos);
    }

    // The control block after the first code.
    method FirstCode(src: seq<nat>, ghost bits: seq<bool>) returns (lastcode: nat)
      requires Shows(src, bits)
      requires stkPtr == 0 && ExpanderOk(Expansion()) && savedBasecode == NONE && CanStart(Expansion(), bits)
      modifies `lastCh, `savedBasecode, `srcPos, `entryUsed, `freeIdx, `freeLimit, `curEntry, `nextEntry,
               `curBits, `nextBits, hash
      ensures CanStart(old(Expansion()), bits) && lastcode == CodeAt(old(Expansion()), bits)
      ensures Expansion() == AfterFirst(old(Expansion()), bits)
    {
      hide Get, BitFieldExt;
      lastcode := ReadCode(src, bits, srcPos, nextBits);
      srcPos := srcPos + nextBits;
      EntryGet();
      lastCh := lastcode;
      savedBasecode := lastcode;
    }

    // The first code is a character and goes straight to the destination.
    method FirstChar(src: seq<nat>, ghost bits: seq<bool>, srcSize: nat, dst: array<nat>) returns (ghost ch: nat)
      requires Shows(src, bits)
      requires stkPtr == 0 && dst != stk && dstPos < dst.Length && srcSize <= |bits|
      requires ExpanderOk(Expansion()) && savedBasecode == NONE
      requires Expand(Expansion(), bits, srcSize, dst.Length - dstPos).Piece?
      modifies this, hash, dst
      ensures dstPos == old(dstPos) + 1 && stkPtr == 0 && InLoop(Expansion())
      ensures dst[..dstPos] == old(dst[..dstPos]) + [ch] && forall i :: dstPos <= i < dst.Length ==> dst[i] == old(dst[i])
      ensures Expand(old(Expansion()), bits, srcSize, dst.Length - old(dstPos)) ==
              Prepend([ch], Expand(Expansion(), bits, srcSize, dst.Length - dstPos))
    {
      hide Expand, WellFormed, CanStart, AfterFirst, CodeAt;
      ghost var x := Expansion();
      FirstStep(x, bits, srcSize, dst.Length - dstPos);
      var lastcode := FirstCode(src, bits);
      dst[dstPos] := lastcode % 256;
      dstPos := dstPos + 1;
      ch := lastcode % 256;
    }

    // One turn of the loop.
    method CodeAndDrain(src: seq<nat>, ghost bits: seq<bool>, srcSize: nat, dst: array<nat>) returns (ghost out: seq<nat>)
      requires Shows(src, bits)
      requires stkPtr == 0 && stk.Length == TABLE_SIZE && dst != stk && dstPos < dst.Length && srcSize <= |bits|
      requires InLoop(Expansion()) && srcPos + nextBits <= srcSize
      requires Expand(Expansion(), bits, srcSize, dst.Length - dstPos).Piece?
      modifies this, compress, hash, stk, dst
      ensures stkPtr <= stk.Length && old(dstPos) < dstPos <= dst.Length && ExpanderOk(Expansion()) && savedBasecode != NONE
      ensures dstPos < dst.Length ==> stkPtr == 0 && Expansion().pending == []
      ensures dst[..dstPos] == old(dst[..dstPos]) + out && forall i :: dstPos <= i < dst.Length ==> dst[i] == old(dst[i])
      ensures Expand(old(Expansion()), bits, srcSize, dst.Length - old(dstPos)) ==
              Prepend(out, Expand(Expansion(), bits, srcSize, dst.Length - dstPos))
    {
      hide Expand, WellFormed, TakeCode, Reversed, Pending, CanStart, Prepend;
      CodeStep(Expansion(), bits, srcSize, dst.Length - dstPos);
      OneCode(src, bits);
      out := DrainOnce(bits, srcSize, dst);
    }

    /** ArcExpandBuf: it fills the destination with what Expand says, and can be called again with
        more room. */
    method ArcExpandBuf(src: seq<nat>, ghost bits: seq<bool>, srcSize: nat, dst: array<nat>)
      requires Shows(src, bits)
      requires stkPtr <= stk.Length == TABLE_SIZE && dst != stk && dstPos <= dst.Length && srcSize <= |bits|
      requires ExpanderOk(Expansion()) && Expand(Expansion(), bits, srcSize, dst.Length - dstPos).Piece?
      modifies this, compress, hash, stk, dst
      ensures stkPtr <= stk.Length && dstPos <= dst.Length
      ensures var p := Expand(old(Expansion()), bits, srcSize, dst.Length - old(dstPos));
              && Expansion() == p.x
              && dst[..dstPos] == old(dst[..dstPos]) + p.out
              && forall i :: dstPos <= i < dst.Length ==> dst[i] == old(dst[i])
    {
      hide Expand, WellFormed, TakeCode, Reversed, Pending, CanStart, Shows, BitsOf, BitFieldExt;
      ghost var p := Expand(Expansion(), bits, srcSize, dst.Length - dstPos);
      ghost var was := dst[..dstPos];
      ghost var out := DrainOnce(bits, srcSize, dst);
      if stkPtr == 0 && dstPos < dst.Length {
        if savedBasecode == NONE {
          ghost var ch := FirstChar(src, bits, srcSize, dst);
          PrependTwice(out, [ch], Expand(Expansion(), bits, srcSize, dst.Length - dstPos));
          out := out + [ch];
        }
        ghost var more := ExpandCodes(src, bits, srcSize, dst);
        PrependTwice(out, more, Expand(Expansion(), bits, srcSize, dst.Length - dstPos));
        out := out + more;
      }
      LastStep(Expansion(), bits, srcSize, dst.Length - dstPos);
    }

    // The loop of ArcExpandBuf: a code at a time, until the input ends or the destination is full.
    method ExpandCodes(src: seq<nat>, ghost bits: seq<bool>, srcSize: nat, dst: array<nat>) returns (ghost out: seq<nat>)
      requires Shows(src, bits)
      requires stkPtr == 0 && stk.Length == TABLE_SIZE && dst != stk && dstPos <= dst.Length && srcSize <= |bits|
      requires InLoop(Expansion()) && Expand(Expansion(), bits, srcSize, dst.Length - dstPos).Piece?
      modifies this, compress, hash, stk, dst
      ensures stkPtr <= stk.Length && dstPos <= dst.Length && ExpanderOk(Expansion()) && savedBasecode != NONE
      ensures dstPos < dst.Length ==> stkPtr == 0 && Expansion().pending == [] && srcPos + nextBits > srcSize
      ensures dst[..dstPos] == old(dst[..dstPos]) + out && forall i :: dstPos <= i < dst.Length ==> dst[i] == old(dst[i])
      ensures Expand(old(Expansion()), bits, srcSize, dst.Length - old(dstPos)) ==
              Prepend(out, Expand(Expansion(), bits, srcSize, dst.Length - dstPos))
    {
      hide Expand, WellFormed, TakeCode, Reversed, Pending, CanStart, Shows, BitsOf, BitFieldExt;
      out := [];
      ghost var p := Expand(Expansion(), bits, srcSize, dst.Length - dstPos);
      ghost var was := dst[..dstPos];
      PrependNothing(p);
      while dstPos < dst.Length && srcPos + nextBits <= srcSize
        invariant stkPtr <= stk.Length && dstPos <= dst.Length
        invariant dstPos < dst.Length ==> stkPtr == 0 && Expansion().pending == []
        invariant ExpanderOk(Expansion()) && savedBasecode != NONE
        invariant p == Prepend(out, Expand(Expansion(), bits, srcSize, dst.Length - dstPos))
        invariant dst[..dstPos] == was + out && forall i :: dstPos <= i < dst.Length ==> dst[i] == old(dst[i])
        decreases dst.Length - dstPos
      {
        ghost var more := CodeAndDrain(src, bits, srcSize, dst);
        PrependTwice(out, more, Expand(Expansion(), bits, srcSize, dst.Length - dstPos));
        out := out + more;
      }
    }
  }

  // A string starts with the character its chain of base codes ends on.
  lemma {:induction false} SpellStart(a: Arc, code: nat, room: nat)
    requires Tables(a) && code < TABLE_SIZE && Spell(a, code, room).Spelled?
    ensures Spell(a, code, room).s[0] < a.MinEntry()
    decreases room
  {
    if code >= a.MinEntry() {
      SpellStart(a, a.table[code].basecode, room - 1);
    }
  }
}

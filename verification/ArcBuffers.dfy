/** CompressBuf and ExpandBuf on whole buffers: when the round trip holds, exactly. */
module ArcBuffers {
  import opened Bits
  import opened ArcTrie
  import opened ArcCodec
  import opened ArcRoundTrip

  const CT_NONE: nat := 1
  const CT_7_BIT: nat := 2
  const CT_8_BIT: nat := 3

  // CArcCompress: two 64-bit sizes and a type byte, then the body.
  const HEADER_BYTES: nat := 17
  const HEADER_BITS: nat := 136

  // A packed archive is kept as the bits of its memory, header included; the three header fields
  // stand beside it.
  datatype Body = Bytes(bytes: seq<nat>) | Bits(bits: seq<bool>)

  datatype Archive = Archive(compressionType: nat, compressedSize: nat, expandedSize: nat, body: Body)

  ghost function CompressionType(src: seq<nat>): nat
  {
    if Below(src, 128) then CT_7_BIT else CT_8_BIT
  }

  ghost function MinBits(src: seq<nat>): (m: nat)
    ensures m == 7 || m == 8
  {
    if CompressionType(src) == CT_7_BIT then 7 else 8
  }

  function DstSize(src: seq<nat>): nat
  {
    (|src| + HEADER_BYTES) * 8
  }

  // Memory of the destination buffer: cleared up to its size, anything beyond.
  ghost predicate Destination(src: seq<nat>, mem: seq<bool>)
  {
    |mem| >= DstSize(src) + 64 && ClearFrom(mem, 0, DstSize(src))
  }

  // The compressor when its first character has been taken.
  ghost function Start(src: seq<nat>, mem: seq<bool>): (c: Comp)
    requires src != [] && Below(src, 256)
    ensures CompOk(c) && Live(c, Roots(MinBits(src)))
  {
    StartLive(src, mem);
    Comp(New(MinBits(src)), mem, HEADER_BITS, src[0], src[1..])
  }

  lemma StartLive(src: seq<nat>, mem: seq<bool>)
    requires src != [] && Below(src, 256)
    ensures var c := Comp(New(MinBits(src)), mem, HEADER_BITS, src[0], src[1..]);
            CompOk(c) && Live(c, Roots(MinBits(src)))
  {
    NewInv(MinBits(src));
    InvWellFormed(New(MinBits(src)), Roots(MinBits(src)));
    Pow2Table();
    hide Inv, WellFormed, Pow2;
  }

  ghost predicate Packs(src: seq<nat>, mem: seq<bool>)
    requires Below(src, 256)
    ensures Packs(src, mem) ==> src != []
  {
    src != [] && Finishes(Start(src, mem), DstSize(src))
  }

  ghost function PackedBytes(src: seq<nat>, mem: seq<bool>): (n: nat)
    requires Below(src, 256) && Packs(src, mem)
  {
    var r := Encode(Start(src, mem), DstSize(src));
    (r.pos + r.arc.nextBits + 7) / 8
  }

  lemma PackedFits(src: seq<nat>, mem: seq<bool>)
    requires Below(src, 256) && Packs(src, mem) && Destination(src, mem)
    ensures PackedBytes(src, mem) * 8 <= DstSize(src) + 8 <= |FinalBits(Start(src, mem), DstSize(src))|
  {
  }

  ghost function Compress(src: seq<nat>, mem: seq<bool>): Archive
    requires Below(src, 256) && Destination(src, mem)
  {
    if Packs(src, mem) then
      var n := PackedBytes(src, mem);
      Archive(CompressionType(src), n, |src|, Bits(PackedBits(src, mem)))
    else
      Archive(CT_NONE, |src| + HEADER_BYTES, |src|, Bytes(src))
  }

  // Compress, spelled out from the state the loop ends in.
  lemma CompressIs(src: seq<nat>, mem: seq<bool>)
    requires src != [] && Below(src, 256) && Destination(src, mem)
    ensures var r := Encode(Start(src, mem), DstSize(src));
            var n := (r.pos + r.arc.nextBits + 7) / 8;
            && r.arc.curBits > 0 && |r.bits| == |mem|
            && if r.src == [] && r.pos + r.arc.curBits <= DstSize(src) then
                 n * 8 <= |mem| &&
                 Compress(src, mem) == Archive(CompressionType(src), n, |src|, Bits(BitFieldOr(r.bits, r.pos, r.base)[..n * 8]))
               else
                 Compress(src, mem) == Archive(CT_NONE, |src| + HEADER_BYTES, |src|, Bytes(src))
  {
    hide DstSize, Pow2, BitFieldOr, Encode, MinBits, Destination;
    if Packs(src, mem) {
      PackedFits(src, mem);
    }
  }

  ghost function NewExpander(minBits: nat): (x: Expander)
    requires minBits == 7 || minBits == 8
    ensures ExpanderOk(x)
  {
    NewInv(minBits);
    InvWellFormed(New(minBits), Roots(minBits));
    Expander(New(minBits), [], NONE, 0, HEADER_BITS)
  }

  datatype Outcome = Throws | Undefined | Expanded(bytes: seq<nat>)

  // mapped is the size of mapped memory, the limit ExpandBuf puts on the expanded size.
  ghost function ExpandArchive(arc: Archive, mapped: nat): Outcome
  {
    if !(CT_NONE <= arc.compressionType <= CT_8_BIT) || arc.expandedSize > mapped then Throws
    else if arc.compressionType == CT_NONE then
      if arc.body.Bytes? && |arc.body.bytes| >= arc.expandedSize then Expanded(arc.body.bytes[..arc.expandedSize])
      else Undefined
    else if arc.body.Bytes? || arc.compressedSize * 8 > |arc.body.bits| then Undefined
    else
      match Expand(NewExpander(if arc.compressionType == CT_7_BIT then 7 else 8),
                   arc.body.bits, arc.compressedSize * 8, arc.expandedSize)
      case Stuck => Undefined
      case Piece(out, _) => Expanded(out)
  }

  /** Exactly the archives of no known type, or said to be longer than memory, are refused. */
  lemma ThrowsExactly(arc: Archive, mapped: nat)
    ensures ExpandArchive(arc, mapped) == Throws <==>
            arc.compressionType !in {CT_NONE, CT_7_BIT, CT_8_BIT} || arc.expandedSize > mapped
  {
    hide Expand, NewExpander;
  }

  /** The compression ends with a widened field that the destination has no room for, and the bit
      of memory just past the destination is set. */
  ghost predicate Misread(src: seq<nat>, mem: seq<bool>)
    requires Below(src, 256) && Destination(src, mem)
    ensures Misread(src, mem) ==> src != [] && Packs(src, mem)
  {
    src != [] && Packs(src, mem) && ReadsPastEnd(Start(src, mem), DstSize(src)) && mem[DstSize(src)]
  }

  lemma FirstCode(src: seq<nat>, mem: seq<bool>)
    requires |src| > 1 && Below(src, 256)
    ensures TurnMatch(Start(src, mem)) == Match(src[0], src[1..])
  {
    var c, d := Start(src, mem), Roots(MinBits(src));
    TurnMatchLive(c, d);
  }

  lemma CopiedArchive(src: seq<nat>, mem: seq<bool>)
    requires Below(src, 256) && Destination(src, mem) && Packs(src, mem)
    ensures var n := PackedBytes(src, mem) * 8;
            var c, size := Start(src, mem), DstSize(src);
            n <= |FinalBits(c, size)| && Copied(FinalBits(c, size)[..n], n, c, size)
    ensures ClearFrom(mem, HEADER_BITS, DstSize(src))
  {
    PackedFits(src, mem);
  }

  // The bits ExpandBuf gets.
  ghost function PackedBits(src: seq<nat>, mem: seq<bool>): (bits: seq<bool>)
    requires Below(src, 256) && Destination(src, mem) && Packs(src, mem)
    ensures |bits| == PackedBytes(src, mem) * 8
    ensures Copied(bits, |bits|, Start(src, mem), DstSize(src))
  {
    CopiedArchive(src, mem);
    FinalBits(Start(src, mem), DstSize(src))[..PackedBytes(src, mem) * 8]
  }

  lemma StartFacts(src: seq<nat>, mem: seq<bool>)
    requires Below(src, 256) && Destination(src, mem) && Packs(src, mem)
    ensures var c, x := Start(src, mem), NewExpander(MinBits(src));
            && c.base == src[0] && c.src == src[1..] && c.pos == x.srcPos && c.bits == mem
            && c.arc == x.arc && c.arc.used && Finishes(c, DstSize(src)) && ClearFrom(c.bits, c.pos, DstSize(src))
            && x.pending == [] && x.saved == NONE && WellFormed(x.arc) && CanGet(x.arc) && ExpanderOk(x)
    ensures src != [] && src[0] < 256 && DstSize(src) < |mem|
  {
    CanGetNew(MinBits(src));
  }

  lemma CanGetNew(minBits: nat)
    requires minBits == 7 || minBits == 8
    ensures WellFormed(New(minBits)) && CanGet(New(minBits))
  {
    NewInv(minBits);
    InvWellFormed(New(minBits), Roots(minBits));
  }

  lemma FirstRead(src: seq<nat>, mem: seq<bool>)
    requires Below(src, 256) && Destination(src, mem) && Packs(src, mem)
    ensures var x, bits := NewExpander(MinBits(src)), PackedBits(src, mem);
            CanStart(x, bits) && x.srcPos + x.arc.nextBits <= |bits| && CodeAt(x, bits) == src[0] < 256
    ensures |src| == 1 ==> !Misread(src, mem)
  {
    var c, d, bits := Start(src, mem), Roots(MinBits(src)), PackedBits(src, mem);
    StartFacts(src, mem);
    if |src| == 1 {
      LastRead(c, d, DstSize(src), bits, |bits|);
    } else {
      FirstCode(src, mem);
      CodeReadsBack(c, d, DstSize(src), bits, |bits|);
    }
  }

  // After the first code the expander is ready to follow the compressor.
  lemma StartsReady(src: seq<nat>, mem: seq<bool>) returns (e: Dict)
    requires |src| > 1 && Below(src, 256) && Destination(src, mem) && Packs(src, mem)
    ensures var x, c, bits := NewExpander(MinBits(src)), Start(src, mem), PackedBits(src, mem);
            && CanStart(x, bits)
            && Ready(AfterFirst(x, bits), e, Turn(c), DstSize(src), bits, |bits|)
            && Turn(c).base == src[1] && Turn(c).src == src[2..] && DstSize(src) < |Turn(c).bits|
            && (Misread(src, mem) <==> ReadsPastEnd(Turn(c), DstSize(src)) && Turn(c).bits[DstSize(src)])
  {
    var c, d, bits := Start(src, mem), Roots(MinBits(src)), PackedBits(src, mem);
    StartFacts(src, mem);
    FirstRead(src, mem);
    FirstCode(src, mem);
    e := AfterGet(c.arc, d);
    FollowRest(c, d, DstSize(src), bits, |bits|);
    StartsPaired(src, mem);
  }

  lemma StartsPaired(src: seq<nat>, mem: seq<bool>)
    requires |src| > 1 && Below(src, 256) && Destination(src, mem) && Packs(src, mem)
    ensures var x, c, bits := NewExpander(MinBits(src)), Start(src, mem), PackedBits(src, mem);
            && CanStart(x, bits)
            && Paired(AfterFirst(x, bits), AfterGet(c.arc, Roots(MinBits(src))), Turn(c))
  {
    hide Packs, Destination, Copied, Finishes, FinalBits, Encode, PackedBits, BitFieldExt;
    hide New, Inv, WellFormed, Get, Spell, Pow2, DstSize;
    var c, d := Start(src, mem), Roots(MinBits(src));
    StartFacts(src, mem);
    FirstRead(src, mem);
    FirstCode(src, mem);
    GetKeepsInv(c.arc, d);
    FillWellFormedCur(c.arc);
    TurnMatchLive(c, d);
  }

  // A single byte: the literal is all there is.
  lemma ExpandSingle(src: seq<nat>, mem: seq<bool>)
    requires |src| == 1 && Below(src, 256) && Destination(src, mem) && Packs(src, mem)
    ensures var x, bits := NewExpander(MinBits(src)), PackedBits(src, mem);
            PutsOut(Expand(x, bits, |bits|, |src|), Patched(src, Misread(src, mem)))
  {
    hide *;
    var x, bits := NewExpander(MinBits(src)), PackedBits(src, mem);
    StartFacts(src, mem);
    FirstRead(src, mem);
    ExpandFirst(x, bits, |bits|, |src|);
    NoMore(AfterFirst(x, bits), bits);
    JoinSingle(src, Misread(src, mem), Loop(AfterFirst(x, bits), bits, |bits|, 0));
  }

  lemma NoMore(x: Expander, bits: seq<bool>)
    requires InLoop(x)
    ensures PutsOut(Loop(x, bits, |bits|, 0), [])
  {
  }

  lemma JoinSingle(src: seq<nat>, wrong: bool, inner: Piece)
    requires |src| == 1 && PutsOut(inner, []) && !wrong
    ensures PutsOut(Prepend([src[0]], inner), Patched(src, wrong))
  {
    assert [src[0]] + [] == src;
  }

  lemma JoinFirst(src: seq<nat>, wrong: bool, inner: Piece)
    requires |src| > 1 && PutsOut(inner, Patched([src[1]] + src[2..], wrong))
    ensures PutsOut(Prepend([src[0]], inner), Patched(src, wrong))
  {
    assert [src[1]] + src[2..] == src[1..];
    assert [src[0]] + Patched(src[1..], wrong) == Patched(src, wrong);
  }

  lemma PatchedIsSame(s: seq<nat>, wrong: bool)
    requires wrong ==> s != []
    ensures Patched(s, wrong) == s <==> (wrong ==> s[|s| - 1] == 0)
  {
    if wrong {
      assert s == s[..|s| - 1] + [s[|s| - 1]];
      assert Patched(s, true)[|s| - 1] == 0;
    }
  }

  lemma ExpandPacked(src: seq<nat>, mem: seq<bool>)
    requires Below(src, 256) && Destination(src, mem) && Packs(src, mem)
    ensures var bits := PackedBits(src, mem);
            PutsOut(Expand(NewExpander(MinBits(src)), bits, |bits|, |src|), Patched(src, Misread(src, mem)))
  {
    hide *;
    var x, c, bits := NewExpander(MinBits(src)), Start(src, mem), PackedBits(src, mem);
    StartFacts(src, mem);
    FirstRead(src, mem);
    ExpandFirst(x, bits, |bits|, |src|);
    if |src| == 1 {
      ExpandSingle(src, mem);
    } else {
      var e := StartsReady(src, mem);
      Follow(AfterFirst(x, bits), e, Turn(c), DstSize(src), bits, |bits|);
      JoinFirst(src, Misread(src, mem), Loop(AfterFirst(x, bits), bits, |bits|, |src| - 1));
    }
  }

  /** What ExpandBuf makes of what CompressBuf made: the input, or in the misread case the input
      with its last byte replaced by zero. */
  lemma ExpandOfCompress(src: seq<nat>, mem: seq<bool>, mapped: nat)
    requires Below(src, 256) && Destination(src, mem) && |src| <= mapped
    ensures ExpandArchive(Compress(src, mem), mapped) == Expanded(Patched(src, Misread(src, mem)))
  {
    hide Destination, Packs, Expand, PackedBits, PackedBytes, Start, DstSize, Misread, NewExpander, New, BitFieldExt;
    if Packs(src, mem) {
      ExpandPacked(src, mem);
    } else {
      assert src[..|src|] == src;
    }
  }
}

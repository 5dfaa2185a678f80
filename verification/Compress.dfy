/** CompressBuf and ExpandBuf, the two entry points of HolyCRT/Compress.HC. */
module Compress {
  import opened Bits
  import opened BitFields
  import opened ArcTrie
  import opened ArcCodec
  import opened ArcRoundTrip
  import opened ArcBuffers
  import opened ArcCtrl

  method ArcDetermineCompressionType(src: seq<nat>) returns (t: nat)
    requires Below(src, 256)
    ensures t == CompressionType(src)
  {
    var i := 0;
    while i < |src|
      invariant 0 <= i <= |src| && Below(src[..i], 128)
    {
      if src[i] / 128 % 2 == 1 {
        return CT_8_BIT;
      }
      i := i + 1;
    }
    assert src[..i] == src;
    t := CT_7_BIT;
  }

  /** beyond is what memory holds after the destination buffer; past is the byte after the input,
      which is read when the input is empty. */
  method CompressBuf(src: seq<nat>, past: nat, beyond: seq<nat>) returns (arc: Archive)
    requires Below(src, 256) && past < 256 && |beyond| >= 8 && Below(beyond, 256)
    ensures var mem := seq(DstSize(src), _ => false) + BitsOf(beyond);
            Destination(src, mem) && arc == Compress(src, mem)
  {
    hide Destination, Compress, BitsOf;
    var n := |src| + HEADER_BYTES;
    var dst := new nat[n + |beyond|](i requires 0 <= i < n + |beyond| => if i < n then 0 else beyond[i - n]);
    assert dst[..] == seq(n, _ => 0) + beyond;
    ZeroBits(n, beyond);
    Cleared(src, BitsOf(beyond));
    if src == [] {
      // The loop does not run, and the one code does not fit.
      arc := CompressNothing(past, dst);
    } else {
      arc := CompressSome(src, dst);
    }
  }

  lemma ZeroBits(n: nat, b: seq<nat>)
    requires Below(b, 256)
    ensures Below(seq(n, _ => 0) + b, 256) && BitsOf(seq(n, _ => 0) + b) == seq(8 * n, _ => false) + BitsOf(b)
  {
    var m := seq(n, _ => 0) + b;
    forall i | 0 <= i < 8 * |m|
      ensures BitsOf(m)[i] == (seq(8 * n, _ => false) + BitsOf(b))[i]
    {
      if i < 8 * n {
        assert m[i / 8] == 0;
        HighBitsClear(0, 0, i % 8);
      } else {
        assert m[i / 8] == b[(i - 8 * n) / 8];
      }
    }
  }

  lemma Cleared(src: seq<nat>, beyond: seq<bool>)
    requires |beyond| >= 64
    ensures Destination(src, seq(DstSize(src), _ => false) + beyond)
  {
  }

  method CompressNothing(past: nat, dst: array<nat>) returns (arc: Archive)
    requires Below(dst[..], 256) && Destination([], BitsOf(dst[..])) && past < 256
    modifies dst
    ensures arc == Compress([], old(BitsOf(dst[..])))
  {
    hide BitsOf, Pow2;
    var t := ArcDetermineCompressionType([]);
    var c := new CArcCtrl(7, false);
    c.dstPos, c.savedBasecode, c.srcPos := HEADER_BITS, past, 1;
    CodesFit();
    var finished := ArcFinishCompression(c, dst, DstSize([]));
    assert !finished;
    arc := Archive(CT_NONE, HEADER_BYTES, 0, Bytes([]));
  }

  method CompressSome(src: seq<nat>, dst: array<nat>) returns (arc: Archive)
    requires src != [] && Below(src, 256) && Below(dst[..], 256) && Destination(src, BitsOf(dst[..]))
    modifies dst
    ensures arc == Compress(src, old(BitsOf(dst[..])))
  {
    hide Compress, Live, Encode, Inv, WellFormed, Pow2, BitFieldOr, BitsOf;
    ghost var mem := BitsOf(dst[..]);
    var t := ArcDetermineCompressionType(src);
    var c := new CArcCtrl(if t == CT_7_BIT then 7 else 8, false);
    var dstSize := DstSize(src);
    c.dstPos := HEADER_BITS;
    assert c.Compression(src, dst, src[0], 1) == Start(src, mem);
    CompressIs(src, mem);
    c.CompressFrom(src, 1, src[0], dst, dstSize, Roots(MinBits(src)));
    CodesFit();
    var finished := ArcFinishCompression(c, dst, dstSize);
    if finished && c.srcPos == |src| {
      var sizeOut := (c.dstPos + 7) / 8;
      FrontBits(dst[..], sizeOut);
      arc := Archive(t, sizeOut, |src|, Bits(BitsOf(dst[..sizeOut])));
    } else {
      arc := Archive(CT_NONE, |src| + HEADER_BYTES, |src|, Bytes(src));
    }
  }

  lemma FrontBits(m: seq<nat>, n: nat)
    requires n <= |m|
    ensures BitsOf(m[..n]) == BitsOf(m)[..n * 8]
  {
  }

  /** The last code is written at the current width, and the position moves by the next one. */
  method ArcFinishCompression(c: CArcCtrl, dst: array<nat>, dstSize: nat) returns (ok: bool)
    requires 0 <= c.savedBasecode < Pow2(32) && Below(dst[..], 256) && dstSize + 64 <= 8 * dst.Length
    requires c.curBits > 0
    modifies c`dstPos, dst
    ensures ok == (old(c.dstPos) + c.curBits <= dstSize)
    ensures BitsOf(dst[..]) == if ok then BitFieldOr(old(BitsOf(dst[..])), old(c.dstPos), c.savedBasecode) else old(BitsOf(dst[..]))
    ensures c.dstPos == old(c.dstPos) + if ok then c.nextBits else 0
  {
    if c.dstPos + c.curBits <= dstSize {
      BFieldOr(dst, c.dstPos, c.savedBasecode);
      c.dstPos := c.dstPos + c.nextBits;
      return true;
    } else {
      return false;
    }
  }

  datatype Result = Thrown | Buffer(bytes: seq<nat>)

  /** ExpandBuf on any archive whose expansion is defined; mem is the memory a packed archive lies in,
      and written counts the bytes produced. */
  method ExpandBuf(arc: Archive, mem: seq<nat>, mapped: nat) returns (r: Result, written: nat)
    requires ExpandArchive(arc, mapped) != Undefined && (arc.body.Bits? ==> Shows(mem, arc.body.bits))
    ensures r.Thrown? <==> arc.compressionType !in {CT_NONE, CT_7_BIT, CT_8_BIT} || arc.expandedSize > mapped
    ensures r.Thrown? <==> ExpandArchive(arc, mapped) == Throws
    ensures r.Buffer? && arc.compressionType == CT_NONE ==>
              written == arc.expandedSize && arc.body.Bytes? && |arc.body.bytes| >= written && arc.body.bytes[..written] == r.bytes
    ensures r.Buffer? ==> written <= |r.bytes| == arc.expandedSize &&
                          ExpandArchive(arc, mapped) == Expanded(r.bytes[..written])
  {
    hide Expand, NewExpander, ExpanderOk;
    if !(CT_NONE <= arc.compressionType <= CT_8_BIT) || arc.expandedSize > mapped {
      return Thrown, 0;
    }
    if arc.compressionType == CT_NONE {
      return Buffer(arc.body.bytes[..arc.expandedSize]), arc.expandedSize;
    }
    var bytes;
    bytes, written := ExpandBits(mem, arc.body.bits, arc.compressedSize * 8, arc.expandedSize,
                                 if arc.compressionType == CT_7_BIT then 7 else 8);
    r := Buffer(bytes);
  }

  // The packed forms: one fresh control block, one call of ArcExpandBuf.
  method ExpandBits(mem: seq<nat>, ghost bits: seq<bool>, srcSize: nat, size: nat, minBits: nat)
    returns (bytes: seq<nat>, written: nat)
    requires Shows(mem, bits) && (minBits == 7 || minBits == 8) && srcSize <= |bits|
    requires Expand(NewExpander(minBits), bits, srcSize, size).Piece?
    ensures written <= |bytes| == size && bytes[..written] == Expand(NewExpander(minBits), bits, srcSize, size).out
  {
    hide Expand, WellFormed, Tables, Pow2;
    var res := new nat[size];
    var c := new CArcCtrl(minBits, true);
    c.srcPos := HEADER_BITS;
    assert c.Expansion() == NewExpander(minBits);
    c.ArcExpandBuf(mem, bits, srcSize, res);
    bytes, written := res[..], c.dstPos;
    assert bytes[..written] == res[..written];
  }
}

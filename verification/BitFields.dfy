/** Bit fields in memory as the two routines get at them: the eight bytes at the field's first byte
    as one little-endian word, shifted and masked (HolyCRT/KUtils.HC). */
module BitFields {
  import opened Bits
  import opened BinPatch

  // Bit i of memory is bit i % 8 of byte i / 8.
  function BitsOf(m: seq<nat>): (b: seq<bool>)
    ensures |b| == 8 * |m|
  {
    seq(8 * |m|, i requires 0 <= i < 8 * |m| => NumBit(m[i / 8], i % 8))
  }

  // ---- The instructions, on numbers ----

  function Or(a: nat, b: nat): nat
  {
    if a == 0 then b else (if a % 2 == 1 || b % 2 == 1 then 1 else 0) + 2 * Or(a / 2, b / 2)
  }

  function And(a: nat, b: nat): nat
  {
    if a == 0 then 0 else (if a % 2 == 1 && b % 2 == 1 then 1 else 0) + 2 * And(a / 2, b / 2)
  }

  lemma {:induction false} OrBit(a: nat, b: nat, k: nat)
    ensures NumBit(Or(a, b), k) == (NumBit(a, k) || NumBit(b, k))
  {
    if a == 0 {
      HighBitsClear(0, 0, k);
    } else if k > 0 {
      OrBit(a / 2, b / 2, k - 1);
    }
  }

  lemma {:induction false} AndZero(a: nat)
    ensures And(a, 0) == 0
  {
    if a > 0 {
      AndZero(a / 2);
    }
  }

  // The bits of a number put together from a low part of s bits and the rest.
  lemma {:induction false} SplitBits(x: nat, y: nat, s: nat, k: nat)
    requires x < Pow2(s)
    ensures NumBit(x + Pow2(s) * y, k) == if k < s then NumBit(x, k) else NumBit(y, k - s)
  {
    if s > 0 {
      var n := x + Pow2(s) * y;
      assert Pow2(s) * y == 2 * (Pow2(s - 1) * y);
      assert n / 2 == x / 2 + Pow2(s - 1) * y && n % 2 == x % 2;
      if k > 0 {
        SplitBits(x / 2, y, s - 1, k - 1);
      }
    }
  }

  // Shifts of a 64-bit register.
  function Shl(v: nat, s: nat): nat
  {
    v * Pow2(s) % Pow2(64)
  }

  function Shr(x: nat, s: nat): nat
  {
    if s == 0 then x else Shr(x / 2, s - 1)
  }

  lemma {:induction false} ShrBit(x: nat, s: nat, k: nat)
    ensures NumBit(Shr(x, s), k) == NumBit(x, k + s)
  {
    if s > 0 {
      ShrBit(x / 2, s - 1, k);
    }
  }

  // The low s bits.
  function Low(x: nat, s: nat): (r: nat)
    ensures r < Pow2(s)
  {
    if s == 0 then 0 else x % 2 + 2 * Low(x / 2, s - 1)
  }

  lemma {:induction false} LowBit(x: nat, s: nat, k: nat)
    requires k < s
    ensures NumBit(Low(x, s), k) == NumBit(x, k)
  {
    if k > 0 {
      LowBit(x / 2, s - 1, k - 1);
    }
  }

  lemma {:induction false} MaskIsLow(a: nat, w: nat)
    ensures And(a, Pow2(w) - 1) == Low(a, w)
  {
    if w == 0 {
      AndZero(a);
    } else {
      MaskIsLow(a / 2, w - 1);
      assert (Pow2(w) - 1) / 2 == Pow2(w - 1) - 1;
      assert a == 0 ==> Low(0, w - 1) == 0;
    }
  }

  // Nothing is shifted out.
  lemma ShlKeeps(v: nat, s: nat)
    requires v < Pow2(32) && s < 8
    ensures Shl(v, s) == 0 + Pow2(s) * v
  {
    hide Pow2;
    Pow2Mono(s, 32);
    Pow2Add(32, 32);
    ProductBelow(v, Pow2(32), Pow2(s));
    SmallProduct(v, Pow2(s), Pow2(64));
  }

  lemma SmallProduct(v: nat, t: nat, m: nat)
    requires v * t < m
    ensures v * t % m == 0 + t * v
  {
  }

  lemma ProductBelow(v: nat, m: nat, t: nat)
    requires v < m && 0 < t <= m
    ensures v * t < m * m
  {
  }

  lemma ShlBit(v: nat, s: nat, k: nat)
    requires v < Pow2(32) && s < 8
    ensures NumBit(Shl(v, s), k) == (k >= s && NumBit(v, k - s))
  {
    hide NumBit, Shl;
    ShlKeeps(v, s);
    SplitBits(0, v, s, k);
    HighBitsClear(0, 0, k);
  }

  // ---- Words in memory ----

  function Word(b: seq<nat>): (w: nat)
  {
    WordIsNat(b);
    FromLittleEndian(b)
  }

  lemma {:induction false} WordIsNat(b: seq<nat>)
    ensures FromLittleEndian(b) >= 0
  {
    if b != [] {
      WordIsNat(b[1..]);
    }
  }

  lemma {:induction false} WordBit(b: seq<nat>, k: nat)
    requires Below(b, 256) && k < 8 * |b|
    ensures NumBit(Word(b), k) == NumBit(b[k / 8], k % 8)
  {
    assert Pow2(8) == 256 by { assert Pow2(4) == 16; }
    SplitBits(b[0], Word(b[1..]), 8, k);
    assert Word(b) == b[0] + Pow2(8) * Word(b[1..]);
    if k >= 8 {
      WordBit(b[1..], k - 8);
      assert b[1..][(k - 8) / 8] == b[k / 8];
    }
  }

  lemma {:induction false} StoredBit(w: nat, n: nat, i: nat, j: nat)
    requires i < n && j < 8
    ensures NumBit(LittleEndian(w, n)[i], j) == NumBit(w, 8 * i + j)
    decreases n
  {
    assert Pow2(8) == 256 by { assert Pow2(4) == 16; }
    if i == 0 {
      SplitBits(w % 256, w / 256, 8, j);
    } else {
      StoredBit(w / 256, n - 1, i - 1, j);
      SplitBits(w % 256, w / 256, 8, 8 * i + j);
    }
  }

  // Memory after the word at byte p / 8 has taken up v shifted to bit p.
  lemma OrInWord(m: seq<nat>, p: nat, v: nat, word: nat)
    requires Below(m, 256) && p / 8 + 8 <= |m| && v < Pow2(32)
    requires word == Or(Word(m[p / 8..p / 8 + 8]), Shl(v, p % 8))
    ensures BitsOf(Store(m, Patch(p / 8, LittleEndian(word, 8)))) == BitFieldOr(BitsOf(m), p, v)
  {
    hide NumBit, Or, Shl, Word, Pow2, LittleEndian;
    var at := p / 8;
    var was, now := m[at..at + 8], LittleEndian(word, 8);
    var out := Store(m, Patch(at, now));
    forall i | 0 <= i < 8 * |m|
      ensures BitsOf(out)[i] == BitFieldOr(BitsOf(m), p, v)[i]
    {
      if at <= i / 8 < at + 8 {
        var k := i - 8 * at;
        StoredBit(word, 8, k / 8, k % 8);
        OrBit(Word(was), Shl(v, p % 8), k);
        WordBit(was, k);
        ShlBit(v, p % 8, k);
        assert out[i / 8] == now[k / 8] && m[i / 8] == was[k / 8];
      } else {
        assert out[i / 8] == m[i / 8];
        if p <= i {
          HighBitsClear(v, 32, i - p);
        }
      }
    }
  }

  /** _BIT_FIELD_OR_U32: the eight bytes it touches must be there. */
  method BFieldOr(dst: array<nat>, p: nat, v: nat)
    requires Below(dst[..], 256) && p / 8 + 8 <= dst.Length && v < Pow2(32)
    modifies dst
    ensures Below(dst[..], 256) && BitsOf(dst[..]) == BitFieldOr(old(BitsOf(dst[..])), p, v)
  {
    hide Or, Shl, Word, Pow2, LittleEndian, BitsOf, BitFieldOr;
    ghost var m := dst[..];
    var at := p / 8;
    var word := Word(dst[at..at + 8]);
    word := Or(word, Shl(v, p % 8));
    OrInWord(m, p, v, word);
    StoreAt(dst, at, LittleEndian(word, 8));
  }

  /** _BIT_FIELD_EXT_U32: a field of up to 32 bits lies in the eight bytes it reads. */
  method BFieldExt(src: seq<nat>, p: nat, w: nat) returns (v: nat)
    requires Below(src, 256) && p / 8 + 8 <= |src| && w <= 32
    ensures v == BitFieldExt(BitsOf(src), p, w)
  {
    hide And, Shr, Word, Pow2, BitsOf, BitFieldExt;
    var at := p / 8;
    var word := Word(src[at..at + 8]);
    v := And(Shr(word, p % 8), Pow2(w) - 1);
    ExtOfWord(src, p, w);
  }

  lemma ExtOfWord(m: seq<nat>, p: nat, w: nat)
    requires Below(m, 256) && p / 8 + 8 <= |m| && w <= 32
    ensures And(Shr(Word(m[p / 8..p / 8 + 8]), p % 8), Pow2(w) - 1) == BitFieldExt(BitsOf(m), p, w)
  {
    hide NumBit, And, Shr, Low, Word, Pow2, BitFieldExt;
    var b := m[p / 8..p / 8 + 8];
    var shifted := Shr(Word(b), p % 8);
    MaskIsLow(shifted, w);
    forall k | 0 <= k < w
      ensures BitsOf(m)[p + k] == NumBit(Low(shifted, w), k)
    {
      LowBit(shifted, w, k);
      ShrBit(Word(b), p % 8, k);
      WordBit(b, k + p % 8);
      assert b[(k + p % 8) / 8] == m[(p + k) / 8];
    }
    ExtOfNumBits(BitsOf(m), p, w, Low(shifted, w));
  }
}

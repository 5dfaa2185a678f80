/** Patches to loaded images: little-endian fields at places that do not overlap, so that the order
    they are made in does not matter. */
module BinPatch {

  // A field of |bytes| bytes at an address.
  datatype Patch = Patch(addr: nat, bytes: seq<nat>)

  // The low w bytes of a two's complement number.
  function LittleEndian(v: int, w: nat): (b: seq<nat>)
    ensures |b| == w && forall i :: 0 <= i < w ==> b[i] < 256
    decreases w
  {
    if w == 0 then [] else [v % 256] + LittleEndian(v / 256, w - 1)
  }

  function FromLittleEndian(b: seq<nat>): int
  {
    if b == [] then 0 else b[0] + 256 * FromLittleEndian(b[1..])
  }

  const TWO_32: int := 0x1_0000_0000

  predicate Whole(x: int) { x % TWO_32 == 0 }

  lemma LowByte(b: nat, r: int)
    requires b < 256
    ensures (b + 256 * r) % 256 == b && (b + 256 * r) / 256 == r
  {
  }

  lemma {:induction false} WritesBack(b: seq<nat>)
    requires forall i :: 0 <= i < |b| ==> b[i] < 256
    ensures LittleEndian(FromLittleEndian(b), |b|) == b
  {
    if b != [] {
      WritesBack(b[1..]);
      LowByte(b[0], FromLittleEndian(b[1..]));
      assert FromLittleEndian(b) == b[0] + 256 * FromLittleEndian(b[1..]);
      assert LittleEndian(FromLittleEndian(b), |b|) == [b[0]] + b[1..];
    }
  }

  function Pow256(w: nat): (p: nat)
    ensures p > 0
  {
    if w == 0 then 1 else 256 * Pow256(w - 1)
  }

  /** Numbers equal modulo a field's size are stored alike. */
  lemma {:induction false} SameField(v: int, d: int, w: nat)
    ensures LittleEndian(v + d * Pow256(w), w) == LittleEndian(v, w)
    decreases w
  {
    if w > 0 {
      var q := d * Pow256(w - 1);
      assert d * Pow256(w) == 256 * q;
      assert (v + 256 * q) % 256 == v % 256 && (v + 256 * q) / 256 == v / 256 + q;
      SameField(v / 256, d, w - 1);
    }
  }

  lemma Multiple(p: nat, q: int)
    requires p > 0
    ensures (p * q) % p == 0
  {
    var d := q - (p * q) / p;
    assert p * q == p * ((p * q) / p) + (p * q) % p;
    assert p * d == (p * q) % p;
    TimesGrows(p, d);
  }

  lemma TimesGrows(p: nat, d: int)
    ensures d >= 1 ==> p * d >= p
    ensures d <= -1 ==> p * d + p <= 0
  {
  }

  /** A field of w bytes keeps a number modulo 256 to the w. */
  lemma {:induction false} FieldHolds(v: int, w: nat)
    ensures FromLittleEndian(LittleEndian(v, w)) == v % Pow256(w)
    decreases w
  {
    if w > 0 {
      FieldHolds(v / 256, w - 1);
      assert LittleEndian(v, w)[1..] == LittleEndian(v / 256, w - 1);
      ByteThenRest(v, Pow256(w - 1));
    }
  }

  lemma ByteThenRest(v: int, p: nat)
    requires p > 0
    ensures v % (256 * p) == v % 256 + 256 * (v / 256 % p)
  {
    var q, r := v / 256 / p, v / 256 % p;
    assert v / 256 == p * q + r;
    var n := v % 256 + 256 * r;
    assert v == 256 * p * q + n && 0 <= n < 256 * p;
    Reduced(v, 256 * p, q, n);
  }

  lemma Reduced(v: int, m: nat, q: int, n: int)
    requires m > 0 && v == m * q + n && 0 <= n < m
    ensures v % m == n
  {
    var d := v / m - q;
    assert m * d == n - v % m;
    TimesGrows(m, d);
  }

  lemma AddMultiple(v: int, x: int)
    requires x % TWO_32 == 0
    ensures LittleEndian(v + x, 4) == LittleEndian(v, 4)
  {
    FourTimes();
    SameField(v, x / TWO_32, 4);
  }

  lemma AddOther(v: int, x: int)
    requires LittleEndian(v + x, 4) == LittleEndian(v, 4)
    ensures x % TWO_32 == 0
  {
    Field32(v);
    Field32(v + x);
    SameRemainder(v, x);
    hide LittleEndian, FromLittleEndian;
  }

  lemma SameRemainder(v: int, x: int)
    ensures (v + x) % TWO_32 == v % TWO_32 ==> x % TWO_32 == 0
  {
    var k := (v + x) / TWO_32 - v / TWO_32;
    assert (v + x) % TWO_32 == v % TWO_32 ==> x == TWO_32 * k;
    assert (TWO_32 * k) % TWO_32 == 0;
  }

  /** Adding x to a 32-bit field changes nothing if and only if x is a multiple of two to the 32nd. */
  lemma AddChangesNothing(b: seq<nat>, x: int)
    requires |b| == 4 && forall i :: 0 <= i < 4 ==> b[i] < 256
    ensures LittleEndian(FromLittleEndian(b) + x, 4) == b <==> Whole(x)
  {
    hide LittleEndian, FromLittleEndian;
    WritesBack(b);
    if x % TWO_32 == 0 {
      AddMultiple(FromLittleEndian(b), x);
    } else if LittleEndian(FromLittleEndian(b) + x, 4) == b {
      AddOther(FromLittleEndian(b), x);
    }
  }

  lemma FourBytes(a: nat, b: nat, c: nat, d: nat)
    ensures FromLittleEndian([a, b, c, d]) == a + 256 * (b + 256 * (c + 256 * d))
  {
    assert [a, b, c, d][1..] == [b, c, d] && [b, c, d][1..] == [c, d] && [c, d][1..] == [d] && [d][1..] == [];
    assert FromLittleEndian([d]) == d;
    assert FromLittleEndian([c, d]) == c + 256 * d;
    assert FromLittleEndian([b, c, d]) == b + 256 * (c + 256 * d);
  }

  lemma FourParts(v: int)
    ensures LittleEndian(v, 4) == [v % 256, v / 256 % 256, v / 256 / 256 % 256, v / 256 / 256 / 256 % 256]
  {
    assert LittleEndian(v / 256 / 256 / 256, 1) == [v / 256 / 256 / 256 % 256] + LittleEndian(v / 256 / 256 / 256 / 256, 0);
    assert LittleEndian(v / 256 / 256, 2) == [v / 256 / 256 % 256] + LittleEndian(v / 256 / 256 / 256, 1);
    assert LittleEndian(v / 256, 3) == [v / 256 % 256] + LittleEndian(v / 256 / 256, 2);
  }

  /** A 32-bit field keeps a number modulo two to the 32nd, no more and no less. */
  lemma Field32(v: int)
    ensures FromLittleEndian(LittleEndian(v, 4)) == v % TWO_32
  {
    FieldHolds(v, 4);
    FourTimes();
    hide LittleEndian, FromLittleEndian;
  }

  lemma FourTimes()
    ensures Pow256(4) == TWO_32
  {
    assert Pow256(1) == 256 && Pow256(2) == 256 * 256 && Pow256(3) == 256 * 256 * 256;
  }

  predicate Clear(p: Patch, q: Patch)
  {
    p.addr + |p.bytes| <= q.addr || q.addr + |q.bytes| <= p.addr
  }

  predicate Covers(p: Patch, a: nat)
  {
    p.addr <= a < p.addr + |p.bytes|
  }

  ghost predicate Fits(mem: seq<nat>, p: Patch)
  {
    p.addr + |p.bytes| <= |mem|
  }

  ghost predicate Has(mem: seq<nat>, p: Patch)
  {
    Fits(mem, p) && mem[p.addr..p.addr + |p.bytes|] == p.bytes
  }

  // No two patches of a list touch.
  ghost predicate Spread(ps: seq<Patch>)
  {
    forall i, j :: 0 <= i < j < |ps| ==> Clear(ps[i], ps[j])
  }

  ghost predicate Touched(ps: seq<Patch>, a: nat)
  {
    exists i :: 0 <= i < |ps| && Covers(ps[i], a)
  }

  /** The memory is what it was, but for the patches. */
  ghost predicate Patched(was: seq<nat>, now: seq<nat>, ps: seq<Patch>)
  {
    && |now| == |was|
    && (forall i :: 0 <= i < |ps| ==> Has(now, ps[i]))
    && (forall a: nat :: a < |was| && !Touched(ps, a) ==> now[a] == was[a])
  }

  function Store(mem: seq<nat>, p: Patch): (r: seq<nat>)
    requires p.addr + |p.bytes| <= |mem|
    ensures |r| == |mem|
  {
    mem[..p.addr] + p.bytes + mem[p.addr + |p.bytes|..]
  }

  method StoreAt(mem: array<nat>, at: nat, bytes: seq<nat>)
    requires at + |bytes| <= mem.Length
    modifies mem
    ensures mem[..] == Store(old(mem[..]), Patch(at, bytes))
  {
    forall i | 0 <= i < |bytes| {
      mem[at + i] := bytes[i];
    }
  }

  lemma TouchedMore(ps: seq<Patch>, p: Patch, a: nat)
    ensures Touched(ps + [p], a) <==> Touched(ps, a) || Covers(p, a)
  {
    var qs := ps + [p];
    if Touched(ps, a) {
      var i :| 0 <= i < |ps| && Covers(ps[i], a);
      assert Covers(qs[i], a);
    }
    if Covers(p, a) {
      assert Covers(qs[|ps|], a);
    }
  }

  /** One patch more, clear of the others; until then its place holds what it held at first. */
  lemma StoreMore(was: seq<nat>, now: seq<nat>, ps: seq<Patch>, p: Patch)
    requires Patched(was, now, ps) && Fits(was, p) && forall i :: 0 <= i < |ps| ==> Clear(ps[i], p)
    ensures Patched(was, Store(now, p), ps + [p])
    ensures now[p.addr..p.addr + |p.bytes|] == was[p.addr..p.addr + |p.bytes|]
  {
    var out := Store(now, p);
    forall i | 0 <= i < |ps + [p]|
      ensures Has(out, (ps + [p])[i])
    {
      if i < |ps| {
        var q := ps[i];
        assert Has(now, q) && Clear(q, p);
        if q.addr + |q.bytes| <= p.addr {
          assert out[q.addr..q.addr + |q.bytes|] == now[q.addr..q.addr + |q.bytes|];
        } else {
          assert out[q.addr..q.addr + |q.bytes|] == now[q.addr..q.addr + |q.bytes|];
        }
      }
    }
    forall a: nat | a < |was| && !Touched(ps + [p], a)
      ensures out[a] == was[a]
    {
      TouchedMore(ps, p, a);
    }
    forall a: nat | Covers(p, a)
      ensures now[a] == was[a]
    {
      assert !Touched(ps, a);
    }
  }

  lemma TouchedBySame(ps: seq<Patch>, qs: seq<Patch>, a: nat)
    requires forall p :: p in ps ==> p in qs
    ensures Touched(ps, a) ==> Touched(qs, a)
  {
    if Touched(ps, a) {
      var i :| 0 <= i < |ps| && Covers(ps[i], a);
      assert ps[i] in qs;
      var j :| 0 <= j < |qs| && qs[j] == ps[i];
      assert Covers(qs[j], a);
    }
  }

  // The order of the patches makes no difference.
  lemma PatchedSame(was: seq<nat>, now: seq<nat>, ps: seq<Patch>, qs: seq<Patch>)
    requires Patched(was, now, ps) && forall p :: p in ps <==> p in qs
    ensures Patched(was, now, qs)
  {
    hide Has, Touched;
    assert forall j :: 0 <= j < |qs| ==> qs[j] in ps;
    forall a: nat
      ensures Touched(ps, a) <==> Touched(qs, a)
    {
      TouchedBySame(ps, qs, a);
      TouchedBySame(qs, ps, a);
    }
  }

  /** Two memories with the same patches are the same, whatever the order. */
  lemma OnlyOne(was: seq<nat>, x: seq<nat>, y: seq<nat>, ps: seq<Patch>, qs: seq<Patch>)
    requires Patched(was, x, ps) && Patched(was, y, qs) && forall p :: p in ps <==> p in qs
    ensures x == y
  {
    PatchedSame(was, y, qs, ps);
    forall a: nat | a < |was|
      ensures x[a] == y[a]
    {
      if Touched(ps, a) {
        var i :| 0 <= i < |ps| && Covers(ps[i], a);
        BothHave(x, y, ps[i], a);
      }
    }
  }

  lemma BothHave(x: seq<nat>, y: seq<nat>, p: Patch, a: nat)
    requires Has(x, p) && Has(y, p) && Covers(p, a)
    ensures a < |x| && a < |y| && x[a] == y[a]
  {
    assert x[p.addr..p.addr + |p.bytes|][a - p.addr] == y[p.addr..p.addr + |p.bytes|][a - p.addr];
  }
}

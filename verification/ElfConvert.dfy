/** Turning a BIN module's relocations into those of an ELF object, and what a linker makes of them,
    against loading the module directly (bin2elf.py, load_kernel.c). */
module ElfConvert {
  import opened BinPatch

  datatype Kind = AbsAddr | ImmU32 | RelI32 | Other
  datatype Reloc = Reloc(kind: Kind, address: nat, symbol: string)

  // R_X86_64_32 or R_X86_64_PC32, against the section or a symbol.
  datatype ElfReloc = ElfReloc(offset: nat, pc32: bool, section: bool, symbol: string, addend: int)

  const MAX_EXPECTED_16BIT_CODE_SIZE: int := 8192
  const MAX_EXPECTED_IMAGE_SIZE: int := 1048576

  predicate InImage(image: seq<nat>, r: Reloc)
  {
    r.address + 4 <= |image|
  }

  function Field(image: seq<nat>, r: Reloc): seq<nat>
    requires InImage(image, r)
  {
    image[r.address..r.address + 4]
  }

  // A module as the compiler makes them: bytes, and fields inside it that do not overlap.
  ghost predicate Module(image: seq<nat>, rs: seq<Reloc>)
  {
    && (forall i :: 0 <= i < |image| ==> image[i] < 256)
    && (forall i :: 0 <= i < |rs| ==> InImage(image, rs[i]))
    && (forall i, j :: 0 <= i < j < |rs| ==> FieldsClear(rs[i], rs[j]))
  }

  predicate FieldsClear(r: Reloc, q: Reloc)
  {
    r.address + 4 <= q.address || q.address + 4 <= r.address
  }

  // ---- The direct loader ----

  // What the loader stores; a symbol it cannot resolve has value 0 and is left alone.
  function DirectValue(image: seq<nat>, r: Reloc, base: nat, sym: string -> int): int
    requires InImage(image, r)
  {
    match r.kind
    case AbsAddr => FromLittleEndian(Field(image, r)) + base
    case RelI32 => sym(r.symbol) - (base + r.address) - 4
    case _ => sym(r.symbol)
  }

  function DirectPatch(image: seq<nat>, r: Reloc, base: nat, sym: string -> int): Patch
    requires InImage(image, r)
  {
    Patch(r.address, LittleEndian(DirectValue(image, r, base, sym), 4))
  }

  ghost function DirectPatches(image: seq<nat>, rs: seq<Reloc>, base: nat, sym: string -> int): (ps: seq<Patch>)
    requires forall i :: 0 <= i < |rs| ==> InImage(image, rs[i])
    ensures |ps| == |rs| && forall i :: 0 <= i < |rs| ==> ps[i] == DirectPatch(image, rs[i], base, sym)
  {
    seq(|rs|, i requires 0 <= i < |rs| => DirectPatch(image, rs[i], base, sym))
  }

  ghost predicate Supported(rs: seq<Reloc>)
  {
    forall i :: 0 <= i < |rs| ==> !rs[i].kind.Other?
  }

  ghost predicate Resolved(rs: seq<Reloc>, sym: string -> int)
  {
    forall i :: 0 <= i < |rs| && !rs[i].kind.AbsAddr? ==> sym(rs[i].symbol) != 0
  }

  // One of the first n relocations is for this address.
  ghost predicate IsBefore(rs: seq<Reloc>, n: nat, a: nat)
  {
    exists k :: 0 <= k < n && k < |rs| && rs[k].address == a
  }

  // One more field of a list of relocations is clear of those before it.
  lemma NextClear(image: seq<nat>, rs: seq<Reloc>, n: nat, ps: seq<Patch>, p: Patch)
    requires Module(image, rs) && n < |rs| && p.addr == rs[n].address && |p.bytes| == 4
    requires forall i :: 0 <= i < |ps| ==> |ps[i].bytes| == 4 && IsBefore(rs, n, ps[i].addr)
    ensures Fits(image, p) && forall i :: 0 <= i < |ps| ==> Clear(ps[i], p)
  {
    assert InImage(image, rs[n]);
    forall i | 0 <= i < |ps|
      ensures Clear(ps[i], p)
    {
      var k :| 0 <= k < n && k < |rs| && rs[k].address == ps[i].addr;
      assert FieldsClear(rs[k], rs[n]);
    }
  }

  method LoadOne(image: array<nat>, r: Reloc, base: nat, sym: string -> int, ghost was: seq<nat>)
    requires image.Length == |was| && InImage(was, r) && image[r.address..r.address + 4] == Field(was, r)
    requires !r.kind.Other? && (!r.kind.AbsAddr? ==> sym(r.symbol) != 0)
    modifies image
    ensures image[..] == Store(old(image[..]), DirectPatch(was, r, base, sym))
  {
    hide LittleEndian, FromLittleEndian, Store;
    if r.kind.AbsAddr? {
      var word := FromLittleEndian(image[r.address..r.address + 4]);
      StoreAt(image, r.address, LittleEndian(word + base, 4));
    } else {
      var i := sym(r.symbol);
      if i != 0 {
        var v := if r.kind.RelI32? then i - (base + r.address) - 4 else i;
        StoreAt(image, r.address, LittleEndian(v, 4));
      }
    }
  }

  // The next of a list of relocations, the ones before it done.
  method LoadNext(image: array<nat>, r: Reloc, ghost rs: seq<Reloc>, ghost n: nat, base: nat, sym: string -> int,
      ghost was: seq<nat>)
    requires Module(was, rs) && Supported(rs) && Resolved(rs, sym) && n < |rs| && r == rs[n] && image.Length == |was|
    requires Patched(was, image[..], DirectPatches(was, rs, base, sym)[..n])
    modifies image
    ensures Patched(was, image[..], DirectPatches(was, rs, base, sym)[..n + 1])
  {
    hide LittleEndian, FromLittleEndian, Store, Patched, Field;
    ghost var ps := DirectPatches(was, rs, base, sym);
    ghost var p := ps[n];
    assert InImage(was, r) && p == DirectPatch(was, r, base, sym);
    forall i | 0 <= i < n
      ensures |ps[..n][i].bytes| == 4 && IsBefore(rs, n, ps[..n][i].addr)
    {
      assert ps[..n][i] == DirectPatch(was, rs[i], base, sym) && rs[i].address == ps[..n][i].addr;
    }
    hide IsBefore;
    NextClear(was, rs, n, ps[..n], p);
    StoreMore(was, image[..], ps[..n], p);
    SameFieldNow(was, image[..], r);
    assert ps[..n] + [p] == ps[..n + 1];
    assert image[..][r.address..r.address + 4] == image[r.address..r.address + 4];
    LoadOne(image, r, base, sym, was);
  }

  lemma NoPatches(mem: seq<nat>)
    ensures Patched(mem, mem, [])
  {
  }

  lemma SameFieldNow(was: seq<nat>, now: seq<nat>, r: Reloc)
    requires InImage(was, r) && |now| == |was| && now[r.address..r.address + 4] == was[r.address..r.address + 4]
    ensures Field(now, r) == Field(was, r) == now[r.address..r.address + 4]
  {
  }

  // ---- The object file ----

  // Relocations taken for nonsense in 16-bit code are left out, and their field stays as it is.
  predicate Dropped(image: seq<nat>, r: Reloc)
    requires InImage(image, r)
  {
    r.kind.AbsAddr? && r.address < MAX_EXPECTED_16BIT_CODE_SIZE
    && FromLittleEndian(Field(image, r)) > MAX_EXPECTED_IMAGE_SIZE
  }

  ghost function Kept(image: seq<nat>, rs: seq<Reloc>): (ks: seq<Reloc>)
    requires forall i :: 0 <= i < |rs| ==> InImage(image, rs[i])
    ensures forall r :: r in ks <==> r in rs && InImage(image, r) && !Dropped(image, r)
  {
    if rs == [] then []
    else
      var init, last := rs[..|rs| - 1], rs[|rs| - 1];
      assert rs == init + [last];
      if Dropped(image, last) then Kept(image, init) else Kept(image, init) + [last]
  }

  function ConvertOne(image: seq<nat>, r: Reloc): ElfReloc
    requires InImage(image, r)
  {
    match r.kind
    case AbsAddr => ElfReloc(r.address, false, true, "", FromLittleEndian(Field(image, r)))
    case RelI32 => ElfReloc(r.address, true, false, r.symbol, -4)
    case _ => ElfReloc(r.address, false, false, r.symbol, 0)
  }

  // One entry for each relocation kept, in their order.
  ghost predicate Converts(image: seq<nat>, ks: seq<Reloc>, es: seq<ElfReloc>)
  {
    |es| == |ks| && forall i :: 0 <= i < |ks| ==> InImage(image, ks[i]) && es[i] == ConvertOne(image, ks[i])
  }

  ghost function ZeroPatches(ks: seq<Reloc>): (ps: seq<Patch>)
    ensures |ps| == |ks| && forall i :: 0 <= i < |ks| ==> ps[i] == Patch(ks[i].address, [0, 0, 0, 0])
  {
    seq(|ks|, i requires 0 <= i < |ks| => Patch(ks[i].address, [0, 0, 0, 0]))
  }

  // One relocation: left out, or appended and its field zeroed.
  method ConvertNext(image: array<nat>, r: Reloc, es: seq<ElfReloc>, ghost was: seq<nat>) returns (out: seq<ElfReloc>)
    requires image.Length == |was| && InImage(was, r) && !r.kind.Other? && image[..][r.address..r.address + 4] == Field(was, r)
    modifies image
    ensures out == if Dropped(was, r) then es else es + [ConvertOne(was, r)]
    ensures image[..] == if Dropped(was, r) then old(image[..]) else Store(old(image[..]), Patch(r.address, [0, 0, 0, 0]))
  {
    hide FromLittleEndian, Store, Field;
    assert image[..][r.address..r.address + 4] == image[r.address..r.address + 4];
    var addend := FromLittleEndian(image[r.address..r.address + 4]);
    out := es;
    if !(r.kind.AbsAddr? && r.address < MAX_EXPECTED_16BIT_CODE_SIZE && addend > MAX_EXPECTED_IMAGE_SIZE) {
      if r.kind.AbsAddr? {
        out := es + [ElfReloc(r.address, false, true, "", addend)];
      } else if r.kind.RelI32? {
        out := es + [ElfReloc(r.address, true, false, r.symbol, -4)];
      } else {
        out := es + [ElfReloc(r.address, false, false, r.symbol, 0)];
      }
      StoreAt(image, r.address, [0, 0, 0, 0]);
    }
  }

  // A relocation takes its place in a list in order of address.
  function Inserted(s: seq<Reloc>, r: Reloc): (t: seq<Reloc>)
  {
    if s == [] || s[|s| - 1].address <= r.address then s + [r]
    else Inserted(s[..|s| - 1], r) + [s[|s| - 1]]
  }

  // sorted() by address.
  function ByAddress(rs: seq<Reloc>): (t: seq<Reloc>)
  {
    if rs == [] then [] else Inserted(ByAddress(rs[..|rs| - 1]), rs[|rs| - 1])
  }

  ghost predicate InOrder(s: seq<Reloc>)
  {
    forall i, j :: 0 <= i < j < |s| ==> s[i].address <= s[j].address
  }

  ghost predicate AllFieldsClear(s: seq<Reloc>)
  {
    forall i, j :: 0 <= i < j < |s| ==> FieldsClear(s[i], s[j])
  }

  lemma {:induction false} InsertedHas(s: seq<Reloc>, r: Reloc)
    ensures forall q :: q in Inserted(s, r) <==> q in s || q == r
  {
    if s != [] && s[|s| - 1].address > r.address {
      assert s == s[..|s| - 1] + [s[|s| - 1]];
      InsertedHas(s[..|s| - 1], r);
    }
  }

  lemma {:induction false} InsertedOrder(s: seq<Reloc>, r: Reloc)
    requires InOrder(s)
    ensures InOrder(Inserted(s, r))
  {
    if s != [] && s[|s| - 1].address > r.address {
      var init, last := s[..|s| - 1], s[|s| - 1];
      InsertedOrder(init, r);
      InsertedHas(init, r);
      OrderLast(Inserted(init, r), last);
    }
  }

  lemma OrderLast(t: seq<Reloc>, last: Reloc)
    requires InOrder(t) && forall q :: q in t ==> q.address <= last.address
    ensures InOrder(t + [last])
  {
  }

  lemma {:induction false} InsertedClear(s: seq<Reloc>, r: Reloc)
    requires AllFieldsClear(s) && forall q :: q in s ==> FieldsClear(q, r)
    ensures AllFieldsClear(Inserted(s, r))
  {
    if s != [] && s[|s| - 1].address > r.address {
      var init, last := s[..|s| - 1], s[|s| - 1];
      InsertedClear(init, r);
      InsertedHas(init, r);
      assert last in s && FieldsClear(last, r);
      forall q | q in init
        ensures FieldsClear(q, last)
      {
        var i :| 0 <= i < |init| && init[i] == q;
      }
      ClearLast(Inserted(init, r), last);
    }
  }

  lemma ClearLast(t: seq<Reloc>, last: Reloc)
    requires AllFieldsClear(t) && forall q :: q in t ==> FieldsClear(q, last)
    ensures AllFieldsClear(t + [last])
  {
  }

  /** The conversion works through the relocations in order of address, whatever their order in the patch
      table. */
  lemma {:induction false} ByAddressOk(rs: seq<Reloc>)
    ensures InOrder(ByAddress(rs)) && forall q :: q in ByAddress(rs) <==> q in rs
    ensures AllFieldsClear(rs) ==> AllFieldsClear(ByAddress(rs))
  {
    if rs != [] {
      var init, last := rs[..|rs| - 1], rs[|rs| - 1];
      assert rs == init + [last];
      ByAddressOk(init);
      InsertedHas(ByAddress(init), last);
      InsertedOrder(ByAddress(init), last);
      if AllFieldsClear(rs) {
        InsertedClear(ByAddress(init), last);
      }
    }
  }

  lemma ModuleByAddress(image: seq<nat>, rs: seq<Reloc>)
    requires Module(image, rs)
    ensures Module(image, ByAddress(rs)) && (Supported(ByAddress(rs)) <==> Supported(rs))
  {
    var t := ByAddress(rs);
    ByAddressOk(rs);
    hide ByAddress;
    forall i | 0 <= i < |t|
      ensures InImage(image, t[i])
    {
      assert t[i] in rs;
    }
    assert forall i :: 0 <= i < |t| ==> t[i] in rs;
    assert forall i :: 0 <= i < |rs| ==> rs[i] in t;
  }

  /** make_object: ok is false where the original raises an exception. The fields converted are zeroed. */
  method MakeObject(image: array<nat>, rs: seq<Reloc>) returns (ok: bool, es: seq<ElfReloc>)
    requires Module(image[..], rs)
    modifies image
    ensures ok <==> Supported(rs)
    ensures ok ==> Module(old(image[..]), ByAddress(rs)) && Converts(old(image[..]), Kept(old(image[..]), ByAddress(rs)), es)
    ensures ok ==> Patched(old(image[..]), image[..], ZeroPatches(Kept(old(image[..]), ByAddress(rs))))
  {
    ModuleByAddress(image[..], rs);
    ok, es := ConvertAll(image, ByAddress(rs));
  }

  // The loop over the relocations in order.
  method ConvertAll(image: array<nat>, rs: seq<Reloc>) returns (ok: bool, es: seq<ElfReloc>)
    requires Module(image[..], rs)
    modifies image
    ensures ok <==> Supported(rs)
    ensures ok ==> Converts(old(image[..]), Kept(old(image[..]), rs), es)
    ensures ok ==> Patched(old(image[..]), image[..], ZeroPatches(Kept(old(image[..]), rs)))
  {
    ghost var was := image[..];
    es := [];
    NothingKept(was);
    NoPatches(was);
    assert rs[..0] == [] && ZeroPatches([]) == [];
    ok := true;
    var n := 0;
    while n < |rs|
      invariant 0 <= n <= |rs| && Module(was, rs) && ConvertedTo(was, image[..], rs, n, es)
    {
      var r := rs[n];
      if r.kind.Other? {
        return false, es;
      }
      hide FromLittleEndian, Field, Kept, Converts, ConvertOne, Dropped, ConvertedTo;
      ConvertStep(was, image[..], rs, n, es);
      es := ConvertNext(image, r, es, was);
      n := n + 1;
    }
    assert rs[..n] == rs;
  }

  // The first n relocations are done with.
  ghost predicate ConvertedTo(was: seq<nat>, now: seq<nat>, rs: seq<Reloc>, n: nat, es: seq<ElfReloc>)
    requires Module(was, rs) && n <= |rs|
  {
    assert forall i :: 0 <= i < n ==> rs[..n][i] == rs[i];
    && |now| == |was| && (forall i :: 0 <= i < n ==> !rs[i].kind.Other?)
    && Converts(was, Kept(was, rs[..n]), es) && Patched(was, now, ZeroPatches(Kept(was, rs[..n])))
  }

  lemma ConvertStep(was: seq<nat>, now: seq<nat>, rs: seq<Reloc>, n: nat, es: seq<ElfReloc>)
    requires Module(was, rs) && n < |rs| && ConvertedTo(was, now, rs, n, es) && !rs[n].kind.Other?
    ensures |now| == |was| && InImage(was, rs[n]) && now[rs[n].address..rs[n].address + 4] == Field(was, rs[n])
    ensures ConvertedTo(was, if Dropped(was, rs[n]) then now else Store(now, Patch(rs[n].address, [0, 0, 0, 0])), rs, n + 1,
                        if Dropped(was, rs[n]) then es else es + [ConvertOne(was, rs[n])])
  {
    hide FromLittleEndian, Field, Kept, Patched, Dropped, ConvertOne, Converts, Clear, FieldsClear, ZeroPatches;
    var r, ks := rs[n], Kept(was, rs[..n]);
    assert InImage(was, r);
    KeptStep(was, rs, n);
    KeptClear(was, rs, n, ks);
    StoreMore(was, now, ZeroPatches(ks), Patch(r.address, [0, 0, 0, 0]));
    FieldIs(was, r);
    ConvertsMore(was, ks, es, r);
    ZeroMore(ks, r);
  }

  lemma ZeroMore(ks: seq<Reloc>, r: Reloc)
    ensures ZeroPatches(ks + [r]) == ZeroPatches(ks) + [Patch(r.address, [0, 0, 0, 0])]
  {
  }

  lemma FieldIs(was: seq<nat>, r: Reloc)
    requires InImage(was, r)
    ensures Field(was, r) == was[r.address..r.address + 4]
  {
  }

  lemma NothingKept(image: seq<nat>)
    ensures Kept(image, []) == [] && Converts(image, [], [])
  {
  }

  lemma KeptStep(image: seq<nat>, rs: seq<Reloc>, n: nat)
    requires n < |rs| && forall i :: 0 <= i < |rs| ==> InImage(image, rs[i])
    ensures Kept(image, rs[..n + 1]) == if Dropped(image, rs[n]) then Kept(image, rs[..n]) else Kept(image, rs[..n]) + [rs[n]]
  {
    assert rs[..n + 1][..n] == rs[..n] && rs[..n + 1][n] == rs[n];
  }

  lemma ConvertsMore(image: seq<nat>, ks: seq<Reloc>, es: seq<ElfReloc>, r: Reloc)
    requires Converts(image, ks, es) && InImage(image, r)
    ensures Converts(image, ks + [r], es + [ConvertOne(image, r)])
  {
  }

  lemma KeptClear(image: seq<nat>, rs: seq<Reloc>, n: nat, ks: seq<Reloc>)
    requires Module(image, rs) && n < |rs| && (forall i :: 0 <= i < n ==> InImage(image, rs[..n][i])) && ks == Kept(image, rs[..n])
    ensures var p := Patch(rs[n].address, [0, 0, 0, 0]);
            Fits(image, p) && forall i :: 0 <= i < |ks| ==> Clear(ZeroPatches(ks)[i], p)
  {
    var ps, p := ZeroPatches(ks), Patch(rs[n].address, [0, 0, 0, 0]);
    forall i | 0 <= i < |ps|
      ensures IsBefore(rs, n, ps[i].addr)
    {
      assert ks[i] in rs[..n];
      var k :| 0 <= k < n && rs[..n][k] == ks[i];
      assert rs[k].address == ps[i].addr;
    }
    NextClear(image, rs, n, ps, p);
  }

  // ---- Linking ----

  // Section 4.4.1 of the System V psABI for AMD64: S + A, less P for the PC-relative kind.
  function LinkedValue(e: ElfReloc, base: nat, sym: string -> int): int
  {
    (if e.section then base else sym(e.symbol)) + e.addend - (if e.pc32 then base + e.offset else 0)
  }

  ghost function LinkPatches(es: seq<ElfReloc>, base: nat, sym: string -> int): (ps: seq<Patch>)
    ensures |ps| == |es| && forall i :: 0 <= i < |es| ==>
              ps[i] == Patch(es[i].offset, LittleEndian(LinkedValue(es[i], base, sym), 4))
  {
    seq(|es|, i requires 0 <= i < |es| => Patch(es[i].offset, LittleEndian(LinkedValue(es[i], base, sym), 4)))
  }

  // A relocation kept means to the linker what it meant to the loader.
  lemma SamePatch(image: seq<nat>, ks: seq<Reloc>, es: seq<ElfReloc>, i: nat, base: nat, sym: string -> int)
    requires Converts(image, ks, es) && i < |ks| && !ks[i].kind.Other?
    ensures InImage(image, ks[i]) && LinkPatches(es, base, sym)[i] == DirectPatch(image, ks[i], base, sym)
  {
  }

  // Seen from the module's image, the linked section is the image with the linker's patches.
  lemma LinkedFromImage(image: seq<nat>, ks: seq<Reloc>, es: seq<ElfReloc>, obj: seq<nat>, linked: seq<nat>, ps: seq<Patch>)
    requires Patched(image, obj, ZeroPatches(ks)) && Patched(obj, linked, ps) && |ps| == |ks|
    requires forall i :: 0 <= i < |ks| ==> ps[i].addr == ks[i].address && |ps[i].bytes| == 4
    ensures Patched(image, linked, ps)
  {
    forall a: nat | a < |image| && !Touched(ps, a)
      ensures linked[a] == image[a]
    {
      assert forall i :: 0 <= i < |ks| ==> (Covers(ZeroPatches(ks)[i], a) <==> Covers(ps[i], a));
    }
  }

  /** The conversion keeps the module's meaning: linked at the address the direct loader uses, with the
      same symbol values, the section is byte for byte what that loader makes of the module, if and
      only if no relocation was left out or the address is a multiple of two to the 32nd. */
  lemma LinkedIsDirect(image: seq<nat>, rs: seq<Reloc>, obj: seq<nat>, es: seq<ElfReloc>, linked: seq<nat>, direct: seq<nat>,
      base: nat, sym: string -> int)
    requires Module(image, rs) && Module(image, ByAddress(rs)) && Supported(rs)
    requires Converts(image, Kept(image, ByAddress(rs)), es) && Patched(image, obj, ZeroPatches(Kept(image, ByAddress(rs))))
    requires Patched(obj, linked, LinkPatches(es, base, sym))
    requires Patched(image, direct, DirectPatches(image, rs, base, sym))
    ensures linked == direct <==> Whole(base) || forall i :: 0 <= i < |rs| ==> !Dropped(image, rs[i])
  {
    var t := ByAddress(rs);
    ByAddressOk(rs);
    ModuleByAddress(image, rs);
    hide ByAddress, Dropped, Patched, Converts, Kept, Module;
    DirectAlike(image, rs, t, direct, base, sym);
    LinkedInOrder(image, t, obj, es, linked, direct, base, sym);
    assert forall i :: 0 <= i < |t| ==> t[i] in rs;
    assert forall i :: 0 <= i < |rs| ==> rs[i] in t;
  }

  // The order of the patch table makes no difference to the direct loader.
  lemma DirectAlike(image: seq<nat>, rs: seq<Reloc>, t: seq<Reloc>, direct: seq<nat>, base: nat, sym: string -> int)
    requires Module(image, rs) && Module(image, t) && forall q :: q in t <==> q in rs
    requires Patched(image, direct, DirectPatches(image, rs, base, sym))
    ensures Patched(image, direct, DirectPatches(image, t, base, sym))
  {
    hide Patched, DirectPatch;
    DirectsAmong(image, rs, t, base, sym);
    DirectsAmong(image, t, rs, base, sym);
    PatchedSame(image, direct, DirectPatches(image, rs, base, sym), DirectPatches(image, t, base, sym));
  }

  lemma DirectsAmong(image: seq<nat>, rs: seq<Reloc>, t: seq<Reloc>, base: nat, sym: string -> int)
    requires Module(image, rs) && Module(image, t) && forall q :: q in rs ==> q in t
    ensures forall p :: p in DirectPatches(image, rs, base, sym) ==> p in DirectPatches(image, t, base, sym)
  {
    hide DirectPatch;
    var ps, qs := DirectPatches(image, rs, base, sym), DirectPatches(image, t, base, sym);
    forall p | p in ps
      ensures p in qs
    {
      var i :| 0 <= i < |ps| && ps[i] == p;
      assert rs[i] in t;
      var j :| 0 <= j < |t| && t[j] == rs[i];
      assert qs[j] == p;
    }
  }

  // The same for relocations in the order they are converted in.
  lemma LinkedInOrder(image: seq<nat>, rs: seq<Reloc>, obj: seq<nat>, es: seq<ElfReloc>, linked: seq<nat>, direct: seq<nat>,
      base: nat, sym: string -> int)
    requires Module(image, rs) && Supported(rs)
    requires Converts(image, Kept(image, rs), es) && Patched(image, obj, ZeroPatches(Kept(image, rs)))
    requires Patched(obj, linked, LinkPatches(es, base, sym))
    requires Patched(image, direct, DirectPatches(image, rs, base, sym))
    ensures linked == direct <==> Whole(base) || forall i :: 0 <= i < |rs| ==> !Dropped(image, rs[i])
  {
    var ks, ps, ds := Kept(image, rs), LinkPatches(es, base, sym), DirectPatches(image, rs, base, sym);
    hide Field, LittleEndian, FromLittleEndian, Kept, Patched, Dropped, DirectPatch;
    LinkerKeeps(image, rs, es, base, sym);
    LinkedFromImage(image, ks, es, obj, linked, ps);
    if Whole(base) || forall i :: 0 <= i < |rs| ==> !Dropped(image, rs[i]) {
      AllPatched(image, rs, linked, ps, base, sym);
      OnlyOne(image, linked, direct, ds, ds);
    } else {
      var i :| 0 <= i < |rs| && Dropped(image, rs[i]);
      Differs(image, rs, linked, direct, ps, i, base, sym);
    }
  }

  /** The input that shows it: one field of 16-bit code with a large addend. The conversion makes no
      relocation of it, so a linker leaves the image as it was, while the loader at address 0x100000
      changes it. */
  lemma RelocationLost(sym: string -> int)
    ensures var image, rs := [0xFF, 0xFF, 0xFF, 0x7F], [Reloc(AbsAddr, 0, "")];
            && Module(image, rs) && Supported(rs) && Resolved(rs, sym) && Kept(image, rs) == []
            && Patched(image, image, LinkPatches([], 0x10_0000, sym))
            && Patched(image, [0xFF, 0xFF, 0x0F, 0x80], DirectPatches(image, rs, 0x10_0000, sym))
  {
    hide *;
    LostByLinker(sym);
    LostField(sym);
    LostOnlyThere(sym);
  }

  lemma LostByLinker(sym: string -> int)
    ensures var image, rs := [0xFF, 0xFF, 0xFF, 0x7F], [Reloc(AbsAddr, 0, "")];
            && Module(image, rs) && Supported(rs) && Resolved(rs, sym) && Kept(image, rs) == []
            && Patched(image, image, LinkPatches([], 0x10_0000, sym))
  {
    var image, r := [0xFF, 0xFF, 0xFF, 0x7F], Reloc(AbsAddr, 0, "");
    FourBytes(0xFF, 0xFF, 0xFF, 0x7F);
    assert Field(image, r) == image;
    assert Dropped(image, r);
    assert Kept(image, [r]) == [];
    hide Dropped, FromLittleEndian, LittleEndian, Patched;
    NoPatches(image);
    assert LinkPatches([], 0x10_0000, sym) == [];
  }

  lemma LostField(sym: string -> int)
    ensures DirectPatch([0xFF, 0xFF, 0xFF, 0x7F], Reloc(AbsAddr, 0, ""), 0x10_0000, sym) == Patch(0, [0xFF, 0xFF, 0x0F, 0x80])
  {
    var image, r := [0xFF, 0xFF, 0xFF, 0x7F], Reloc(AbsAddr, 0, "");
    FourBytes(0xFF, 0xFF, 0xFF, 0x7F);
    assert Field(image, r) == image;
    FourParts(0x7FFF_FFFF + 0x10_0000);
  }

  lemma LostOnlyThere(sym: string -> int)
    requires DirectPatch([0xFF, 0xFF, 0xFF, 0x7F], Reloc(AbsAddr, 0, ""), 0x10_0000, sym) == Patch(0, [0xFF, 0xFF, 0x0F, 0x80])
    ensures var image, rs := [0xFF, 0xFF, 0xFF, 0x7F], [Reloc(AbsAddr, 0, "")];
            Patched(image, [0xFF, 0xFF, 0x0F, 0x80], DirectPatches(image, rs, 0x10_0000, sym))
  {
    hide DirectPatch;
    var image, rs, now := [0xFF, 0xFF, 0xFF, 0x7F], [Reloc(AbsAddr, 0, "")], [0xFF, 0xFF, 0x0F, 0x80];
    var ps := DirectPatches(image, rs, 0x10_0000, sym);
    assert now[0..4] == now && ps[0] == Patch(0, now);
    forall a: nat | a < 4
      ensures Touched(ps, a)
    {
      assert Covers(ps[0], a);
    }
  }

  lemma LinkerKeeps(image: seq<nat>, rs: seq<Reloc>, es: seq<ElfReloc>, base: nat, sym: string -> int)
    requires Module(image, rs) && Supported(rs) && Converts(image, Kept(image, rs), es)
    ensures KeptPatches(image, rs, LinkPatches(es, base, sym), base, sym)
    ensures forall i :: 0 <= i < |Kept(image, rs)| ==>
              LinkPatches(es, base, sym)[i].addr == Kept(image, rs)[i].address && |LinkPatches(es, base, sym)[i].bytes| == 4
  {
    var ks, ps := Kept(image, rs), LinkPatches(es, base, sym);
    forall i | 0 <= i < |ks|
      ensures InImage(image, ks[i]) && ps[i] == DirectPatch(image, ks[i], base, sym)
    {
      assert ks[i] in ks;
      SamePatch(image, ks, es, i, base, sym);
    }
  }

  // A field left out differs if something is added to it.
  lemma Differs(image: seq<nat>, rs: seq<Reloc>, linked: seq<nat>, direct: seq<nat>, ps: seq<Patch>, i: nat, base: nat, sym: string -> int)
    requires Module(image, rs) && KeptPatches(image, rs, ps, base, sym) && Patched(image, linked, ps)
    requires Patched(image, direct, DirectPatches(image, rs, base, sym))
    requires i < |rs| && Dropped(image, rs[i]) && !Whole(base)
    ensures linked != direct
  {
    hide LittleEndian, FromLittleEndian, Patched, Kept, KeptPatches, Field, Whole;
    var ds := DirectPatches(image, rs, base, sym);
    LeftOut(image, rs, linked, ps, i, base, sym);
    OfPatched(image, direct, ds, i);
    BytesOfField(image, rs, i);
    AddChangesNothing(Field(image, rs[i]), base);
  }

  lemma BytesOfField(image: seq<nat>, rs: seq<Reloc>, i: nat)
    requires Module(image, rs) && i < |rs|
    ensures InImage(image, rs[i]) && |Field(image, rs[i])| == 4 && forall k :: 0 <= k < 4 ==> Field(image, rs[i])[k] < 256
  {
  }

  // What the linker's patches are: those of the relocations kept.
  ghost predicate KeptPatches(image: seq<nat>, rs: seq<Reloc>, ps: seq<Patch>, base: nat, sym: string -> int)
    requires forall i :: 0 <= i < |rs| ==> InImage(image, rs[i])
  {
    var ks := Kept(image, rs);
    |ps| == |ks| && forall i :: 0 <= i < |ks| ==> InImage(image, ks[i]) && ps[i] == DirectPatch(image, ks[i], base, sym)
  }

  // A field left out holds what it held.
  lemma LeftOut(image: seq<nat>, rs: seq<Reloc>, linked: seq<nat>, ps: seq<Patch>, i: nat, base: nat, sym: string -> int)
    requires Module(image, rs) && KeptPatches(image, rs, ps, base, sym) && Patched(image, linked, ps)
    requires i < |rs| && Dropped(image, rs[i])
    ensures |linked| == |image| && linked[rs[i].address..rs[i].address + 4] == Field(image, rs[i])
  {
    var ks, r := Kept(image, rs), rs[i];
    forall a: nat | r.address <= a < r.address + 4
      ensures linked[a] == image[a]
    {
      forall k | 0 <= k < |ps|
        ensures !Covers(ps[k], a)
      {
        assert ks[k] in ks;
        assert ks[k] in rs && !Dropped(image, ks[k]);
        var n :| 0 <= n < |rs| && rs[n] == ks[k];
        assert n != i && (if n < i then FieldsClear(rs[n], rs[i]) else FieldsClear(rs[i], rs[n]));
      }
    }
  }

  // With nothing left out, or nothing to add, the linker's image has all the loader's patches.
  lemma AllPatched(image: seq<nat>, rs: seq<Reloc>, linked: seq<nat>, ps: seq<Patch>, base: nat, sym: string -> int)
    requires Module(image, rs) && KeptPatches(image, rs, ps, base, sym) && Patched(image, linked, ps)
    requires Whole(base) || forall i :: 0 <= i < |rs| ==> !Dropped(image, rs[i])
    ensures Patched(image, linked, DirectPatches(image, rs, base, sym))
  {
    var ds := DirectPatches(image, rs, base, sym);
    forall i | 0 <= i < |ds|
      ensures Has(linked, ds[i])
    {
      OneHas(image, rs, linked, ps, i, base, sym);
    }
    KeptAreDirect(image, rs, ps, base, sym);
    hide Kept, DirectPatch, LittleEndian, FromLittleEndian;
    forall a: nat | a < |image| && !Touched(ds, a)
      ensures linked[a] == image[a]
    {
      TouchedBySame(ps, ds, a);
    }
  }

  lemma OneHas(image: seq<nat>, rs: seq<Reloc>, linked: seq<nat>, ps: seq<Patch>, i: nat, base: nat, sym: string -> int)
    requires Module(image, rs) && KeptPatches(image, rs, ps, base, sym) && Patched(image, linked, ps) && i < |rs|
    requires Whole(base) || !Dropped(image, rs[i])
    ensures InImage(image, rs[i]) && Has(linked, DirectPatch(image, rs[i], base, sym))
  {
    hide *;
    BytesOfField(image, rs, i);
    if Dropped(image, rs[i]) {
      LeftOutHas(image, rs, linked, ps, i, base, sym);
    } else {
      KeptHas(image, rs, linked, ps, i, base, sym);
    }
  }

  lemma LeftOutHas(image: seq<nat>, rs: seq<Reloc>, linked: seq<nat>, ps: seq<Patch>, i: nat, base: nat, sym: string -> int)
    requires Module(image, rs) && KeptPatches(image, rs, ps, base, sym) && Patched(image, linked, ps)
    requires i < |rs| && Dropped(image, rs[i]) && Whole(base)
    ensures Has(linked, DirectPatch(image, rs[i], base, sym))
  {
    hide LittleEndian, FromLittleEndian, Patched, Module, Kept, Whole, KeptPatches, Field;
    LeftOut(image, rs, linked, ps, i, base, sym);
    BytesOfField(image, rs, i);
    AddChangesNothing(Field(image, rs[i]), base);
  }

  lemma KeptHas(image: seq<nat>, rs: seq<Reloc>, linked: seq<nat>, ps: seq<Patch>, i: nat, base: nat, sym: string -> int)
    requires Module(image, rs) && KeptPatches(image, rs, ps, base, sym) && Patched(image, linked, ps)
    requires i < |rs| && !Dropped(image, rs[i])
    ensures Has(linked, DirectPatch(image, rs[i], base, sym))
  {
    var ks := Kept(image, rs);
    hide LittleEndian, FromLittleEndian, Patched, Kept, DirectPatch, Dropped;
    assert rs[i] in ks;
    var k :| 0 <= k < |ks| && ks[k] == rs[i];
    OfPatched(image, linked, ps, k);
  }

  lemma OfPatched(was: seq<nat>, now: seq<nat>, ps: seq<Patch>, k: nat)
    requires Patched(was, now, ps) && k < |ps|
    ensures Has(now, ps[k])
  {
  }

  lemma KeptAreDirect(image: seq<nat>, rs: seq<Reloc>, ps: seq<Patch>, base: nat, sym: string -> int)
    requires Module(image, rs) && KeptPatches(image, rs, ps, base, sym)
    ensures forall p :: p in ps ==> p in DirectPatches(image, rs, base, sym)
  {
    var ks, ds := Kept(image, rs), DirectPatches(image, rs, base, sym);
    hide Kept, DirectPatch;
    forall p | p in ps
      ensures p in ds
    {
      var k :| 0 <= k < |ps| && ps[k] == p;
      assert ks[k] in ks;
      var n :| 0 <= n < |rs| && rs[n] == ks[k];
      assert ds[n] == p;
    }
  }
}

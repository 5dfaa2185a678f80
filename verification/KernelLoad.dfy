/** The direct loader's walk over a module's patch table, entry by entry and group by group: it does to the
    image what the table's relocations say, and announces the exports (load_kernel.c). */
module KernelLoad {
  import opened BinPatch
  import opened ElfConvert
  import Meaning = LoadMeaning
  import Table = KLoadSpec

  // ---- A table as a list of relocations ----

  function KindOf(e: Table.Entry): Kind
  {
    if e.etype == 8 then RelI32 else if e.etype == 9 then ImmU32 else Other
  }

  // The relocations of entry k: an import goes under its group's name, absolute addresses come one for each
  // offset that follows.
  function RelocsOf(t: seq<Table.Entry>, k: nat): (rs: seq<Reloc>)
    requires Table.WellFormed(t) && k < |t|
    ensures t[k].etype == Table.IET_ABS_ADDR ==> |rs| == |t[k].extra|
  {
    if Table.IsImport(t[k]) then [Reloc(KindOf(t[k]), t[k].i, t[Table.Head(t, k).value].name)]
    else if t[k].etype == Table.IET_ABS_ADDR then
      seq(|t[k].extra|, j requires 0 <= j < |t[k].extra| => Reloc(AbsAddr, t[k].extra[j], ""))
    else []
  }

  // The relocations of the first k entries.
  function Relocs(t: seq<Table.Entry>, k: nat): seq<Reloc>
    requires Table.WellFormed(t) && k <= |t|
  {
    if k == 0 then [] else Relocs(t, k - 1) + RelocsOf(t, k - 1)
  }

  datatype Sym = Sym(name: string, value: int)

  // The symbols the first k entries export.
  function Exported(t: seq<Table.Entry>, k: nat, base: nat): seq<Sym>
    requires k <= |t|
  {
    if k == 0 then []
    else if Table.IsExport(t[k - 1]) then
      Exported(t, k - 1, base) + [Sym(t[k - 1].name, Table.ExportValue(t[k - 1], base))]
    else Exported(t, k - 1, base)
  }

  lemma RelocsStep(t: seq<Table.Entry>, k: nat)
    requires Table.WellFormed(t) && k < |t|
    ensures Relocs(t, k + 1) == Relocs(t, k) + RelocsOf(t, k)
    ensures !Table.IsImport(t[k]) && t[k].etype != Table.IET_ABS_ADDR ==> Relocs(t, k + 1) == Relocs(t, k)
  {
    hide Table.WellFormed, Table.Head;
  }

  lemma {:induction false} RelocsPrefix(t: seq<Table.Entry>, k: nat, n: nat)
    requires Table.WellFormed(t) && k <= n <= |t|
    ensures Relocs(t, k) <= Relocs(t, n)
    decreases n
  {
    hide *;
    if k < n {
      RelocsPrefix(t, k, n - 1);
      RelocsStep(t, n - 1);
      PrefixOn(Relocs(t, k), Relocs(t, n - 1), RelocsOf(t, n - 1));
    }
  }

  lemma PrefixOn(a: seq<Reloc>, b: seq<Reloc>, c: seq<Reloc>)
    requires a <= b
    ensures a <= b + c
  {
  }

  lemma InPrefix(a: seq<Reloc>, b: seq<Reloc>, c: seq<Reloc>)
    requires a + b <= c
    ensures |a| + |b| <= |c| && forall j :: 0 <= j < |b| ==> c[|a| + j] == b[j]
  {
    assert forall j :: 0 <= j < |b| ==> (a + b)[|a| + j] == b[j];
  }

  // Where entry k's relocations stand among all.
  lemma RelocsAt(t: seq<Table.Entry>, k: nat)
    requires Table.WellFormed(t) && k < |t|
    ensures |Relocs(t, k)| + |RelocsOf(t, k)| == |Relocs(t, k + 1)| <= |Relocs(t, |t|)|
    ensures forall j :: 0 <= j < |RelocsOf(t, k)| ==> Relocs(t, |t|)[|Relocs(t, k)| + j] == RelocsOf(t, k)[j]
  {
    hide *;
    RelocsPrefix(t, k + 1, |t|);
    RelocsStep(t, k);
    InPrefix(Relocs(t, k), RelocsOf(t, k), Relocs(t, |t|));
  }

  // ---- The walk ----

  // A module whose table is in order, with fields the conversion knows and symbols that are found.
  ghost predicate Loadable(image: seq<nat>, t: seq<Table.Entry>, sym: string -> int)
  {
    && Table.WellFormed(t) && Module(image, Relocs(t, |t|)) && Supported(Relocs(t, |t|)) && Resolved(Relocs(t, |t|), sym)
  }

  // The first n relocations are done.
  ghost predicate DoneTo(was: seq<nat>, now: seq<nat>, t: seq<Table.Entry>, base: nat, sym: string -> int, n: nat)
    requires Loadable(was, t, sym)
  {
    n <= |Relocs(t, |t|)| && Patched(was, now, DirectPatches(was, Relocs(t, |t|), base, sym)[..n])
  }

  /** LoadOneImport, from the group's first entry on: next is the entry after the group. */
  method LoadOneImport(image: array<nat>, t: seq<Table.Entry>, h: nat, base: nat, sym: string -> int, ghost was: seq<nat>)
      returns (next: nat)
    requires Loadable(was, t, sym) && h < |t| && Table.IsImport(t[h]) && t[h].name != ""
    requires DoneTo(was, image[..], t, base, sym, |Relocs(t, h)|)
    modifies image
    ensures next == Table.GroupEnd(t, h + 1) && DoneTo(was, image[..], t, base, sym, |Relocs(t, next)|)
  {
    hide Module, Supported, Resolved, DoneTo, Relocs;
    next := h;
    while next < |t| && (next == h || t[next].name == "")
      invariant h <= next <= Table.GroupEnd(t, h + 1) && DoneTo(was, image[..], t, base, sym, |Relocs(t, next)|)
      decreases |t| - next
    {
      Table.HeadOfGroup(t, h, next);
      OneOfGroup(was, t, next, sym);
      if Table.IsImport(t[next]) {
        PatchOne(image, t, next, 0, Reloc(KindOf(t[next]), t[next].i, t[h].name), base, sym, was);
      }
      next := next + 1;
    }
  }

  // An entry of a group that is no import patches nothing.
  lemma OneOfGroup(was: seq<nat>, t: seq<Table.Entry>, k: nat, sym: string -> int)
    requires Loadable(was, t, sym) && k < |t| && Table.Head(t, k).Some?
    ensures Table.WellFormed(t) && t[k].etype != Table.IET_ABS_ADDR
    ensures |Relocs(t, k + 1)| == |Relocs(t, k)| + if Table.IsImport(t[k]) then 1 else 0
  {
    RelocsStep(t, k);
  }

  method PatchOne(image: array<nat>, t: seq<Table.Entry>, k: nat, j: nat, r: Reloc, base: nat, sym: string -> int,
      ghost was: seq<nat>)
    requires Loadable(was, t, sym) && k < |t| && j < |RelocsOf(t, k)| && r == RelocsOf(t, k)[j]
    requires DoneTo(was, image[..], t, base, sym, |Relocs(t, k)| + j)
    modifies image
    ensures DoneTo(was, image[..], t, base, sym, |Relocs(t, k)| + j + 1)
  {
    RelocsAt(t, k);
    LoadNext(image, r, Relocs(t, |t|), |Relocs(t, k)| + j, base, sym, was);
  }

  lemma AbsRelocs(was: seq<nat>, t: seq<Table.Entry>, k: nat, sym: string -> int)
    requires Loadable(was, t, sym) && k < |t| && t[k].etype == Table.IET_ABS_ADDR
    ensures Table.WellFormed(t) && |Relocs(t, k + 1)| == |Relocs(t, k)| + |t[k].extra| && |RelocsOf(t, k)| == |t[k].extra|
    ensures forall j :: 0 <= j < |t[k].extra| ==> RelocsOf(t, k)[j] == Reloc(AbsAddr, t[k].extra[j], "")
  {
    RelocsStep(t, k);
    hide Relocs;
  }

  // Absolute addresses, one after the other.
  method PatchAbs(image: array<nat>, t: seq<Table.Entry>, k: nat, base: nat, sym: string -> int, ghost was: seq<nat>)
    requires Loadable(was, t, sym) && k < |t| && t[k].etype == Table.IET_ABS_ADDR
    requires DoneTo(was, image[..], t, base, sym, |Relocs(t, k)|)
    modifies image
    ensures DoneTo(was, image[..], t, base, sym, |Relocs(t, k + 1)|)
  {
    hide *;
    AbsRelocs(was, t, k, sym);
    var j := 0;
    while j < |t[k].extra|
      invariant 0 <= j <= |t[k].extra| && DoneTo(was, image[..], t, base, sym, |Relocs(t, k)| + j)
    {
      PatchOne(image, t, k, j, Reloc(AbsAddr, t[k].extra[j], ""), base, sym, was);
      j := j + 1;
    }
  }

  // One entry, or one group.
  method WalkOne(image: array<nat>, t: seq<Table.Entry>, k: nat, syms: seq<Sym>, base: nat, sym: string -> int,
      ghost was: seq<nat>) returns (next: nat, out: seq<Sym>)
    requires Loadable(was, t, sym) && k < |t| && Begins(t, k)
    requires DoneTo(was, image[..], t, base, sym, |Relocs(t, k)|) && syms == Exported(t, k, base)
    modifies image
    ensures k < next <= |t| && (next < |t| ==> Begins(t, next))
    ensures DoneTo(was, image[..], t, base, sym, |Relocs(t, next)|) && out == Exported(t, next, base)
  {
    hide Module, Supported, Resolved, DoneTo, Relocs, RelocsOf;
    hide Exported, Begins, Table.WellFormed, Table.Head, Table.GroupEnd;
    EntryIs(t, k, base);
    next, out := k + 1, syms;
    if Table.IsExport(t[k]) {
      var v := if t[k].etype == Table.IET_REL32_EXPORT || t[k].etype == Table.IET_REL64_EXPORT then t[k].i + base else t[k].i;
      out := syms + [Sym(t[k].name, v)];
    } else if Table.IsImport(t[k]) {
      NoExports(t, k, base);
      next := LoadOneImport(image, t, k, base, sym, was);
    } else if t[k].etype == Table.IET_ABS_ADDR {
      PatchAbs(image, t, k, base, sym, was);
    }
  }

  /** load_kernel on a table: the image gets exactly the patches of the relocations in the table, and the
      symbols announced are exactly its exports. */
  method LoadKernel(image: array<nat>, t: seq<Table.Entry>, base: nat, sym: string -> int) returns (syms: seq<Sym>)
    requires Loadable(image[..], t, sym)
    modifies image
    ensures Table.WellFormed(t) && Module(old(image[..]), Relocs(t, |t|))
    ensures Patched(old(image[..]), image[..], DirectPatches(old(image[..]), Relocs(t, |t|), base, sym))
    ensures syms == Exported(t, |t|, base)
    ensures Linked(old(image[..]), image[..], t, base, sym) && Announces(syms, t, base)
  {
    hide Linked, Announces;
    ghost var was := image[..];
    NothingDone(was, t, base, sym);
    hide DoneTo, Relocs, Exported, Begins, Module, Supported, Resolved;
    syms := [];
    var k := 0;
    while k < |t|
      invariant 0 <= k <= |t| && (k < |t| ==> Begins(t, k))
      invariant DoneTo(was, image[..], t, base, sym, |Relocs(t, k)|) && syms == Exported(t, k, base)
    {
      k, syms := WalkOne(image, t, k, syms, base, sym, was);
    }
    AllDone(was, image[..], t, base, sym);
    KernelLinked(was, image[..], t, base, sym);
    Announced(t, base);
  }

  // ---- What the walk leaves ----

  /** Import fields lead to their symbols, words listed have the base added, and no other byte changes. */
  ghost predicate Linked(was: seq<nat>, now: seq<nat>, t: seq<Table.Entry>, base: nat, sym: string -> int)
  {
    && |now| == |was|
    && (forall k: nat, name :: Meaning.Needs(t, k, name) ==>
          Meaning.LeadsTo(now, t[k].i, base + t[k].i, t[k].etype, sym(name)))
    && (forall k: nat, j: nat :: IsWord(t, k, j) ==> Meaning.Rebased(was, now, t[k].extra[j], base))
    && (forall a: nat :: a < |was| && now[a] != was[a] ==> InField(t, a))
  }

  ghost predicate IsWord(t: seq<Table.Entry>, k: nat, j: nat)
  {
    k < |t| && t[k].etype == Table.IET_ABS_ADDR && j < |t[k].extra|
  }

  ghost predicate InField(t: seq<Table.Entry>, a: nat)
  {
    || (exists k: nat, name :: Meaning.Needs(t, k, name) && t[k].i <= a < t[k].i + 4)
    || (exists k: nat, j: nat :: IsWord(t, k, j) && t[k].extra[j] <= a < t[k].extra[j] + 4)
  }

  /** The symbols told are those the table exports. */
  ghost predicate Announces(syms: seq<Sym>, t: seq<Table.Entry>, base: nat)
  {
    forall y :: y in syms <==> exists k: nat :: k < |t| && Meaning.Offers(t[k], base, y.name, y.value)
  }

  lemma {:induction false} ExportedIs(t: seq<Table.Entry>, n: nat, base: nat)
    requires n <= |t|
    ensures forall y :: y in Exported(t, n, base) <==> exists k: nat :: k < n && Meaning.Offers(t[k], base, y.name, y.value)
  {
    if n > 0 {
      ExportedIs(t, n - 1, base);
      forall y
        ensures y in Exported(t, n, base) <==> exists k: nat :: k < n && Meaning.Offers(t[k], base, y.name, y.value)
      {
        ExportedMore(t, n - 1, base, y);
      }
    }
  }

  lemma Announced(t: seq<Table.Entry>, base: nat)
    ensures Announces(Exported(t, |t|, base), t, base)
  {
    ExportedIs(t, |t|, base);
  }

  lemma ExportedMore(t: seq<Table.Entry>, n: nat, base: nat, y: Sym)
    requires n < |t|
    ensures y in Exported(t, n + 1, base) <==> y in Exported(t, n, base) || Meaning.Offers(t[n], base, y.name, y.value)
  {
  }

  // Relocation n comes from one of the entries.
  lemma {:induction false} RelocFrom(t: seq<Table.Entry>, m: nat, n: nat) returns (k: nat, j: nat)
    requires Table.WellFormed(t) && m <= |t| && n < |Relocs(t, m)|
    ensures k < m && j < |RelocsOf(t, k)| && Relocs(t, m)[n] == RelocsOf(t, k)[j]
  {
    hide Table.WellFormed, RelocsOf;
    if n < |Relocs(t, m - 1)| {
      k, j := RelocFrom(t, m - 1, n);
    } else {
      k, j := m - 1, n - |Relocs(t, m - 1)|;
    }
  }

  // The relocation an entry that needs a symbol stands for.
  lemma NeedIsReloc(was: seq<nat>, t: seq<Table.Entry>, k: nat, name: string, sym: string -> int)
    requires Loadable(was, t, sym) && Meaning.Needs(t, k, name)
    ensures k < |t| && Table.WellFormed(t) && RelocsOf(t, k) == [Reloc(KindOf(t[k]), t[k].i, name)]
    ensures t[k].etype == Meaning.IET_REL_I32 || t[k].etype == Meaning.IET_IMM_U32
  {
    var h: nat :| Meaning.NamedBy(t, k, h, name);
    assert Table.IsImport(t[k]);
    Meaning.HeadNamed(t, k, h, name);
    var rs, n := Relocs(t, |t|), |Relocs(t, k)|;
    RelocsAt(t, k);
    assert rs[n + 0] == RelocsOf(t, k)[0];
    assert !rs[n].kind.Other?;
  }

  lemma RelocIsNeed(t: seq<Table.Entry>, k: nat, j: nat)
    requires Table.WellFormed(t) && k < |t| && j < |RelocsOf(t, k)|
    requires !RelocsOf(t, k)[j].kind.Other?
    ensures if Table.IsImport(t[k]) then
              Table.Head(t, k).Some? && Meaning.Needs(t, k, t[Table.Head(t, k).value].name) && RelocsOf(t, k)[j].address == t[k].i
            else IsWord(t, k, j) && RelocsOf(t, k)[j].address == t[k].extra[j]
  {
    if Table.IsImport(t[k]) {
      Table.GroupOfHead(t, k);
      var h := Table.Head(t, k).value;
      assert Meaning.NamedBy(t, k, h, t[h].name);
    }
  }

  // The bytes of relocation n.
  lemma RelocHas(was: seq<nat>, now: seq<nat>, t: seq<Table.Entry>, base: nat, sym: string -> int, k: nat, j: nat)
    requires Loadable(was, t, sym) && k < |t| && j < |RelocsOf(t, k)|
    requires Patched(was, now, DirectPatches(was, Relocs(t, |t|), base, sym))
    ensures var r := RelocsOf(t, k)[j];
            && InImage(was, r) && r.address + 4 <= |was| == |now|
            && now[r.address..r.address + 4] == LittleEndian(DirectValue(was, r, base, sym), 4)
  {
    RelocsAt(t, k);
    var rs, n := Relocs(t, |t|), |Relocs(t, k)| + j;
    assert rs[n] == RelocsOf(t, k)[j];
    hide Relocs, RelocsOf, LittleEndian, DirectValue;
    assert InImage(was, rs[n]) && Has(now, DirectPatches(was, rs, base, sym)[n]);
  }

  // An import's value, by its type.
  lemma ImportValue(was: seq<nat>, e: Table.Entry, name: string, base: nat, sym: string -> int)
    requires e.etype == Meaning.IET_REL_I32 || e.etype == Meaning.IET_IMM_U32
    requires InImage(was, Reloc(KindOf(e), e.i, name))
    ensures Meaning.FieldBytes(e.etype) == 4 && Meaning.IET_REL_I8 <= e.etype <= Meaning.IET_IMM_I64
    ensures DirectValue(was, Reloc(KindOf(e), e.i, name), base, sym) ==
            if Meaning.Relative(e.etype) then sym(name) - (base + e.i) - 4 else sym(name)
  {
  }

  lemma NeedLeads(was: seq<nat>, now: seq<nat>, t: seq<Table.Entry>, base: nat, sym: string -> int, k: nat, name: string)
    requires Loadable(was, t, sym) && Meaning.Needs(t, k, name)
    requires Patched(was, now, DirectPatches(was, Relocs(t, |t|), base, sym))
    ensures k < |t| && Meaning.LeadsTo(now, t[k].i, base + t[k].i, t[k].etype, sym(name))
  {
    hide *;
    NeedIsReloc(was, t, k, name, sym);
    var e, r := t[k], Reloc(KindOf(t[k]), t[k].i, name);
    assert RelocsOf(t, k)[0] == r;
    RelocHas(was, now, t, base, sym, k, 0);
    ImportValue(was, e, name, base, sym);
    Meaning.StoredLeads(now, e.i, base + e.i, e.etype, sym(name), DirectValue(was, r, base, sym));
  }

  lemma WordRebased(was: seq<nat>, now: seq<nat>, t: seq<Table.Entry>, base: nat, sym: string -> int, k: nat, j: nat)
    requires Loadable(was, t, sym) && k < |t| && t[k].etype == Table.IET_ABS_ADDR && j < |t[k].extra|
    requires Patched(was, now, DirectPatches(was, Relocs(t, |t|), base, sym))
    ensures Meaning.Rebased(was, now, t[k].extra[j], base)
  {
    hide *;
    AbsRelocs(was, t, k, sym);
    RelocHas(was, now, t, base, sym, k, j);
    WordStored(was, now, Reloc(AbsAddr, t[k].extra[j], ""), base, sym);
  }

  lemma WordStored(was: seq<nat>, now: seq<nat>, r: Reloc, base: nat, sym: string -> int)
    requires r.kind.AbsAddr? && InImage(was, r) && |now| == |was|
    requires now[r.address..r.address + 4] == LittleEndian(DirectValue(was, r, base, sym), 4)
    ensures Meaning.Rebased(was, now, r.address, base)
  {
    hide LittleEndian, FromLittleEndian;
    Meaning.StoredAlike(DirectValue(was, r, base, sym), 4);
  }

  lemma ChangeInField(was: seq<nat>, now: seq<nat>, t: seq<Table.Entry>, base: nat, sym: string -> int, a: nat)
    requires Loadable(was, t, sym) && Patched(was, now, DirectPatches(was, Relocs(t, |t|), base, sym))
    requires a < |was| == |now| && now[a] != was[a]
    ensures InField(t, a)
  {
    var rs := Relocs(t, |t|);
    var ps := DirectPatches(was, rs, base, sym);
    hide Has, LittleEndian, DirectValue, Relocs, RelocsOf, Module;
    assert Touched(ps, a);
    var n :| 0 <= n < |ps| && Covers(ps[n], a);
    assert !rs[n].kind.Other?;
    var k, j := RelocFrom(t, |t|, n);
    RelocIsNeed(t, k, j);
  }

  lemma WordInTable(t: seq<Table.Entry>, k: nat, j: nat)
    requires IsWord(t, k, j)
    ensures k < |t| && t[k].etype == Table.IET_ABS_ADDR && j < |t[k].extra|
  {
  }

  lemma KernelLinked(was: seq<nat>, now: seq<nat>, t: seq<Table.Entry>, base: nat, sym: string -> int)
    requires Loadable(was, t, sym) && Patched(was, now, DirectPatches(was, Relocs(t, |t|), base, sym))
    ensures Linked(was, now, t, base, sym)
  {
    assert |now| == |was|;
    hide Patched, Loadable, Meaning.Needs, Meaning.LeadsTo, Meaning.Rebased, IsWord, InField, Relocs;
    forall k: nat, name | Meaning.Needs(t, k, name)
      ensures k < |t| && Meaning.LeadsTo(now, t[k].i, base + t[k].i, t[k].etype, sym(name))
    {
      NeedLeads(was, now, t, base, sym, k, name);
    }
    forall k: nat, j: nat | IsWord(t, k, j)
      ensures k < |t| && j < |t[k].extra| && Meaning.Rebased(was, now, t[k].extra[j], base)
    {
      WordInTable(t, k, j);
      WordRebased(was, now, t, base, sym, k, j);
    }
    forall a: nat | a < |was| && now[a] != was[a]
      ensures InField(t, a)
    {
      ChangeInField(was, now, t, base, sym, a);
    }
  }

  // The walk never stands inside a group.
  ghost predicate Begins(t: seq<Table.Entry>, k: nat)
    requires k < |t|
  {
    Table.Head(t, k) == Table.None || Table.Head(t, k) == Table.Some(k)
  }

  // What entry k is to the walk, and where the walk stands after it.
  lemma EntryIs(t: seq<Table.Entry>, k: nat, base: nat)
    requires Table.WellFormed(t) && k < |t| && Begins(t, k)
    ensures Table.IsImport(t[k]) ==> t[k].name != "" && forall e :: k < e < |t| && t[e].name != "" ==> Begins(t, e)
    ensures !Table.IsImport(t[k]) ==> k + 1 < |t| ==> Begins(t, k + 1)
    ensures !Table.IsImport(t[k]) && t[k].etype != Table.IET_ABS_ADDR ==> Relocs(t, k + 1) == Relocs(t, k)
    ensures Exported(t, k + 1, base) == Exported(t, k, base) +
              if Table.IsExport(t[k]) then [Sym(t[k].name, Table.ExportValue(t[k], base))] else []
  {
    RelocsStep(t, k);
    hide Relocs;
  }

  // A group exports nothing.
  lemma NoExports(t: seq<Table.Entry>, h: nat, base: nat)
    requires Table.WellFormed(t) && h < |t| && Table.IsImport(t[h])
    ensures Exported(t, Table.GroupEnd(t, h + 1), base) == Exported(t, h, base)
  {
    NoExportsTo(t, h, Table.GroupEnd(t, h + 1), base);
  }

  lemma {:induction false} NoExportsTo(t: seq<Table.Entry>, h: nat, e: nat, base: nat)
    requires Table.WellFormed(t) && h < e <= |t| && Table.IsImport(t[h]) && forall j :: h < j < e ==> t[j].name == ""
    ensures Exported(t, e, base) == Exported(t, h, base)
    decreases e
  {
    if h + 1 < e {
      NoExportsTo(t, h, e - 1, base);
    }
  }

  lemma NothingDone(was: seq<nat>, t: seq<Table.Entry>, base: nat, sym: string -> int)
    requires Loadable(was, t, sym)
    ensures Relocs(t, 0) == [] && DoneTo(was, was, t, base, sym, 0) && Exported(t, 0, base) == []
    ensures t != [] ==> Begins(t, 0)
  {
    NoPatches(was);
    assert DirectPatches(was, Relocs(t, |t|), base, sym)[..0] == [];
  }

  lemma AllDone(was: seq<nat>, now: seq<nat>, t: seq<Table.Entry>, base: nat, sym: string -> int)
    requires Loadable(was, t, sym) && DoneTo(was, now, t, base, sym, |Relocs(t, |t|)|)
    ensures Patched(was, now, DirectPatches(was, Relocs(t, |t|), base, sym))
  {
    var ps := DirectPatches(was, Relocs(t, |t|), base, sym);
    assert ps[..|Relocs(t, |t|)|] == ps;
  }
}

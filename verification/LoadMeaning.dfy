/** What a loaded module means, told from its patch table byte by byte: the number each field holds, and that
    nothing else has changed (HolyCRT/KernelA.HH:404-427). */
module LoadMeaning {
  import opened BinPatch
  import opened KLoadSpec

  const IET_REL_I8: nat := 4
  const IET_IMM_U8: nat := 5
  const IET_REL_I16: nat := 6
  const IET_IMM_U16: nat := 7
  const IET_REL_I32: nat := 8
  const IET_IMM_U32: nat := 9
  const IET_REL_I64: nat := 10
  const IET_IMM_I64: nat := 11

  // Fields that hold a distance, counted from the field's end.
  predicate Relative(etype: nat)
  {
    etype == IET_REL_I8 || etype == IET_REL_I16 || etype == IET_REL_I32 || etype == IET_REL_I64
  }

  function FieldBytes(etype: nat): nat
  {
    if etype == IET_REL_I8 || etype == IET_IMM_U8 then 1
    else if etype == IET_REL_I16 || etype == IET_IMM_U16 then 2
    else if etype == IET_REL_I32 || etype == IET_IMM_U32 then 4
    else 8
  }

  // Numbers alike in a field of w bytes.
  predicate Alike(x: int, y: int, w: nat)
  {
    (x - y) % Pow256(w) == 0
  }

  // The number in the w bytes at a place.
  function NumberAt(mem: seq<nat>, at: nat, w: nat): int
    requires at + w <= |mem|
  {
    FromLittleEndian(mem[at..at + w])
  }

  /** A field at an address leads to the value x: from its end by the distance it holds, or outright. */
  ghost predicate LeadsTo(mem: seq<nat>, at: nat, addr: int, etype: nat, x: int)
  {
    var w := FieldBytes(etype);
    at + w <= |mem| && Alike(if Relative(etype) then addr + w + NumberAt(mem, at, w) else NumberAt(mem, at, w), x, w)
  }

  /** A word holds what it held and the base. */
  ghost predicate Rebased(was: seq<nat>, now: seq<nat>, at: nat, base: int)
  {
    at + 4 <= |was| == |now| && Alike(NumberAt(now, at, 4), NumberAt(was, at, 4) + base, 4)
  }

  /** Entry k patches a field with the symbol of the last name before it. */
  ghost predicate Needs(t: seq<Entry>, k: nat, name: string)
  {
    k < |t| && IET_REL_I8 <= t[k].etype <= IET_IMM_I64 && name != "" && exists h: nat :: NamedBy(t, k, h, name)
  }

  ghost predicate NamedBy(t: seq<Entry>, k: nat, h: nat, name: string)
  {
    h <= k < |t| && t[h].name == name && forall j :: h < j <= k ==> t[j].name == ""
  }

  /** An entry exports a name with a value, the relative kinds counted from the module's base. */
  predicate Offers(e: Entry, base: nat, name: string, x: int)
  {
    e.name == name &&
    if e.etype == IET_IMM32_EXPORT || e.etype == IET_IMM64_EXPORT then x == e.i
    else (e.etype == IET_REL32_EXPORT || e.etype == IET_REL64_EXPORT) && x == base + e.i
  }

  ghost predicate Offered(mods: seq<Module>, name: string, x: int)
  {
    exists n: nat, l: nat :: n < |mods| && l < |mods[n].table| && Offers(mods[n].table[l], mods[n].base, name, x)
  }

  // ---- A set of modules ----

  /** Every field whose symbol some module exports leads to it, whichever module was loaded first. */
  ghost predicate AllLead(mods: seq<Module>, now: seq<nat>)
  {
    forall m: nat, k: nat, name, x :: m < |mods| && Needs(mods[m].table, k, name) && Offered(mods, name, x) ==>
      Leads(mods, now, m, k, x)
  }

  ghost predicate Leads(mods: seq<Module>, now: seq<nat>, m: nat, k: nat, x: int)
    requires m < |mods| && k < |mods[m].table|
  {
    var e, base := mods[m].table[k], mods[m].base;
    LeadsTo(now, base + e.i, base + e.i, e.etype, x)
  }

  // Offset j of entry k of module m.
  ghost predicate Listed(mods: seq<Module>, m: nat, k: nat, j: nat)
  {
    && m < |mods| && k < |mods[m].table| && mods[m].table[k].etype == IET_ABS_ADDR
    && j < |mods[m].table[k].extra|
  }

  /** Every word listed has the base of its module added, once. */
  ghost predicate AllRebased(mods: seq<Module>, was: seq<nat>, now: seq<nat>)
  {
    forall m: nat, k: nat, j: nat :: Listed(mods, m, k, j) ==>
      Rebased(was, now, mods[m].base + mods[m].table[k].extra[j], mods[m].base)
  }

  // Address a is in the field of an entry whose symbol is known, or in a word listed.
  ghost predicate InField(mods: seq<Module>, a: nat)
  {
    || (exists m: nat, k: nat :: FieldOf(mods, m, k, a))
    || (exists m: nat, k: nat, j: nat :: Listed(mods, m, k, j) && WordOf(mods, m, k, j, a))
  }

  ghost predicate FieldOf(mods: seq<Module>, m: nat, k: nat, a: nat)
  {
    && m < |mods| && k < |mods[m].table|
    && (exists name, x :: Needs(mods[m].table, k, name) && Offered(mods, name, x))
    && var at := mods[m].base + mods[m].table[k].i; at <= a < at + FieldBytes(mods[m].table[k].etype)
  }

  ghost predicate WordOf(mods: seq<Module>, m: nat, k: nat, j: nat, a: nat)
    requires Listed(mods, m, k, j)
  {
    var at := mods[m].base + mods[m].table[k].extra[j]; at <= a < at + 4
  }

  /** What loading is for: fields lead where they should, words are moved with their module, and no other
      byte changes. */
  ghost predicate Linked(mods: seq<Module>, was: seq<nat>, now: seq<nat>)
  {
    && |now| == |was| && AllLead(mods, now) && AllRebased(mods, was, now)
    && forall a: nat :: a < |was| && now[a] != was[a] ==> InField(mods, a)
  }

  // ---- Why patched memory is linked ----

  lemma StoredAlike(v: int, w: nat)
    ensures Alike(FromLittleEndian(LittleEndian(v, w)), v, w)
  {
    FieldHolds(v, w);
    Remainder(v, Pow256(w));
  }

  lemma Remainder(v: int, p: nat)
    requires p > 0
    ensures (v % p - v) % p == 0
  {
    var q := v / p;
    assert v == p * q + v % p;
    Multiple(p, -q);
    assert v % p - v == p * (-q);
  }

  // A number stored leads where its value says.
  lemma StoredLeads(mem: seq<nat>, at: nat, addr: int, etype: nat, x: int, v: int)
    requires IET_REL_I8 <= etype <= IET_IMM_I64
    requires var w := FieldBytes(etype); at + w <= |mem| && mem[at..at + w] == LittleEndian(v, w)
    requires v == if Relative(etype) then x - addr - FieldBytes(etype) else x
    ensures LeadsTo(mem, at, addr, etype, x)
  {
    StoredAlike(v, FieldBytes(etype));
  }

  lemma {:induction false} HeadNamed(t: seq<Entry>, k: nat, h: nat, name: string)
    requires NamedBy(t, k, h, name) && name != "" && Head(t, k).Some?
    ensures Head(t, k).value == h
  {
    if h < k {
      assert t[k].name == "";
      HeadNamed(t, k - 1, h, name);
    }
  }

  lemma OfferIsExport(mods: seq<Module>, n: nat, l: nat, name: string, x: int)
    requires OneExport(mods) && n < |mods| && l < |mods[n].table| && Offers(mods[n].table[l], mods[n].base, name, x)
    ensures Exported(mods, name) && ValueOf(mods, name) == x
  {
    TheValue(mods, n, l);
    assert Exports(mods, n, l, name);
  }

  lemma ExportIsOffer(mods: seq<Module>, name: string)
    requires Exported(mods, name)
    ensures exists x :: Offered(mods, name, x)
  {
    var n: nat, l: nat :| Exports(mods, n, l, name);
    var x := ExportValue(mods[n].table[l], mods[n].base);
    assert Offers(mods[n].table[l], mods[n].base, name, x);
    assert Offered(mods, name, x);
  }

  // An entry that needs a symbol is a place to patch with it.
  lemma NeedIsSite(mods: seq<Module>, m: nat, k: nat, name: string)
    requires m < |mods| && WellFormed(mods[m].table) && Needs(mods[m].table, k, name)
    ensures IsSite(mods, ImpSite(m, k)) && Symbol(mods, ImpSite(m, k)) == name
    ensures SiteWidth(mods, ImpSite(m, k)) == FieldBytes(mods[m].table[k].etype)
  {
    var t := mods[m].table;
    var h: nat :| NamedBy(t, k, h, name);
    assert IsImport(t[k]);
    HeadNamed(t, k, h, name);
  }

  lemma SiteIsNeed(mods: seq<Module>, s: Site)
    requires IsSite(mods, s) && s.ImpSite?
    ensures Needs(mods[s.m].table, s.k, Symbol(mods, s))
    ensures SiteWidth(mods, s) == FieldBytes(mods[s.m].table[s.k].etype)
  {
    var t := mods[s.m].table;
    GroupOfHead(t, s.k);
    assert NamedBy(t, s.k, Head(t, s.k).value, Symbol(mods, s));
  }

  // The bytes at a place that has been patched.
  lemma SiteHas(mods: seq<Module>, was: seq<nat>, now: seq<nat>, ss: seq<Site>, s: Site)
    requires Loadable(mods, |was|) && PatchedAt(mods, was, now, ss) && s in ss
    ensures |now| == |was| && IsSite(mods, s) && SiteAddr(mods, s) + SiteWidth(mods, s) <= |was|
    ensures now[SiteAddr(mods, s)..SiteAddr(mods, s) + SiteWidth(mods, s)] == SitePatch(mods, was, s).bytes
  {
    var i :| 0 <= i < |ss| && ss[i] == s;
    var ps := PatchesOf(mods, was, ss);
    hide Loadable, SitePatch, LittleEndian, IsSite;
    assert Has(now, ps[i]) && ps[i] == SitePatch(mods, was, s);
  }

  lemma PatchedLeads(mods: seq<Module>, was: seq<nat>, now: seq<nat>, ss: seq<Site>, m: nat, k: nat, name: string, x: int)
    requires Loadable(mods, |was|) && PatchedAt(mods, was, now, ss) && forall s :: Due(mods, s) ==> s in ss
    requires m < |mods| && Needs(mods[m].table, k, name) && Offered(mods, name, x)
    ensures Leads(mods, now, m, k, x)
  {
    hide PatchedAt, LittleEndian, FromLittleEndian, LeadsTo, Alike;
    var n: nat, l: nat :| n < |mods| && l < |mods[n].table| && Offers(mods[n].table[l], mods[n].base, name, x);
    OfferIsExport(mods, n, l, name, x);
    NeedIsSite(mods, m, k, name);
    var s, e, base := ImpSite(m, k), mods[m].table[k], mods[m].base;
    assert Due(mods, s);
    SiteHas(mods, was, now, ss, s);
    StoredLeads(now, base + e.i, base + e.i, e.etype, x, FieldValue(e, base, x));
  }

  lemma PatchedRebased(mods: seq<Module>, was: seq<nat>, now: seq<nat>, ss: seq<Site>, m: nat, k: nat, j: nat)
    requires Loadable(mods, |was|) && PatchedAt(mods, was, now, ss) && forall s :: Due(mods, s) ==> s in ss
    requires Listed(mods, m, k, j)
    ensures Rebased(was, now, mods[m].base + mods[m].table[k].extra[j], mods[m].base)
  {
    hide PatchedAt, LittleEndian, FromLittleEndian, Loadable;
    var s, at := AbsSite(m, k, j), mods[m].base + mods[m].table[k].extra[j];
    assert Due(mods, s);
    SiteHas(mods, was, now, ss, s);
    StoredAlike(NumberAt(was, at, 4) + mods[m].base, 4);
  }

  lemma ChangedInField(mods: seq<Module>, was: seq<nat>, now: seq<nat>, ss: seq<Site>, a: nat)
    requires Loadable(mods, |was|) && PatchedAt(mods, was, now, ss) && forall s :: s in ss ==> Due(mods, s)
    requires |now| == |was| && a < |was| && now[a] != was[a]
    ensures InField(mods, a)
  {
    var ps := PatchesOf(mods, was, ss);
    hide Loadable, Has;
    assert Touched(ps, a);
    var i :| 0 <= i < |ps| && Covers(ps[i], a);
    var s := ss[i];
    assert s in ss;
    hide LittleEndian, FromLittleEndian;
    if s.ImpSite? {
      SiteIsNeed(mods, s);
      ExportIsOffer(mods, Symbol(mods, s));
      assert FieldOf(mods, s.m, s.k, a);
    } else {
      assert Listed(mods, s.m, s.k, s.j) && WordOf(mods, s.m, s.k, s.j, a);
    }
  }

  /** Memory patched at exactly the places due is linked. */
  lemma PatchedLinked(mods: seq<Module>, was: seq<nat>, now: seq<nat>, ss: seq<Site>)
    requires Loadable(mods, |was|) && PatchedAt(mods, was, now, ss) && forall s :: s in ss <==> Due(mods, s)
    ensures Linked(mods, was, now)
  {
    assert |now| == |was|;
    hide PatchedAt, Loadable, Due, Needs, Offered, Leads, Listed, Rebased, InField;
    forall m: nat, k: nat, name, x | m < |mods| && Needs(mods[m].table, k, name) && Offered(mods, name, x)
      ensures k < |mods[m].table| && Leads(mods, now, m, k, x)
    {
      NeedInTable(mods[m].table, k, name);
      PatchedLeads(mods, was, now, ss, m, k, name, x);
    }
    forall m: nat, k: nat, j: nat | Listed(mods, m, k, j)
      ensures m < |mods| && k < |mods[m].table| && j < |mods[m].table[k].extra|
      ensures Rebased(was, now, mods[m].base + mods[m].table[k].extra[j], mods[m].base)
    {
      ListedInTable(mods, m, k, j);
      PatchedRebased(mods, was, now, ss, m, k, j);
    }
    forall a: nat | a < |was| && now[a] != was[a]
      ensures InField(mods, a)
    {
      ChangedInField(mods, was, now, ss, a);
    }
  }

  lemma NeedInTable(t: seq<Entry>, k: nat, name: string)
    requires Needs(t, k, name)
    ensures k < |t|
  {
  }

  lemma ListedInTable(mods: seq<Module>, m: nat, k: nat, j: nat)
    requires Listed(mods, m, k, j)
    ensures m < |mods| && k < |mods[m].table| && j < |mods[m].table[k].extra|
  {
  }
}

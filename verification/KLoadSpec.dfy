/** Patch tables of BIN modules and what loading a set of modules comes to, whatever the order
    (HolyCRT/KLoad.HC). */
module KLoadSpec {
  import opened BinPatch

  const IET_REL32_EXPORT: nat := 16
  const IET_IMM32_EXPORT: nat := 17
  const IET_REL64_EXPORT: nat := 18
  const IET_IMM64_EXPORT: nat := 19
  const IET_ABS_ADDR: nat := 20
  const IET_MAIN: nat := 25

  // One entry of a patch table: its type, its number, its name, and the offsets that follow it.
  datatype Entry = Entry(etype: nat, i: nat, name: string, extra: seq<nat>)

  datatype Module = Module(base: nat, table: seq<Entry>)

  datatype Option<T> = None | Some(value: T)

  predicate IsImport(e: Entry) { 2 <= e.etype <= 11 }
  predicate IsExport(e: Entry) { IET_REL32_EXPORT <= e.etype <= IET_IMM64_EXPORT }

  // Bytes of the field an import entry patches.
  function Width(e: Entry): nat
  {
    if e.etype == 4 || e.etype == 5 then 1
    else if e.etype == 6 || e.etype == 7 then 2
    else if e.etype == 8 || e.etype == 9 then 4
    else if e.etype == 10 || e.etype == 11 then 8
    else 0
  }

  // Even types are relative to the end of the field.
  function FieldValue(e: Entry, base: nat, v: int): int
  {
    if e.etype % 2 == 0 then v - (base + e.i) - Width(e) else v
  }

  function ExportValue(e: Entry, base: nat): int
  {
    if e.etype == IET_IMM32_EXPORT || e.etype == IET_IMM64_EXPORT then e.i else e.i + base
  }

  // The import entry whose name an entry goes under: the last one named, if that is an import.
  function Head(t: seq<Entry>, k: nat): (h: Option<nat>)
    requires k < |t|
    ensures h.Some? ==> h.value <= k && IsImport(t[h.value]) && t[h.value].name != ""
  {
    if t[k].name != "" then (if IsImport(t[k]) then Some(k) else None)
    else if k == 0 then None
    else Head(t, k - 1)
  }

  // Where the entries of a group end.
  function GroupEnd(t: seq<Entry>, k: nat): (e: nat)
    requires k <= |t|
    ensures k <= e <= |t| && (e < |t| ==> t[e].name != "") && forall j :: k <= j < e ==> t[j].name == ""
    decreases |t| - k
  {
    if k == |t| || t[k].name != "" then k else GroupEnd(t, k + 1)
  }

  lemma {:induction false} HeadOfGroup(t: seq<Entry>, h: nat, k: nat)
    requires h < |t| && IsImport(t[h]) && t[h].name != "" && h <= k < GroupEnd(t, h + 1)
    ensures Head(t, k) == Some(h)
  {
    if k > h {
      HeadOfGroup(t, h, k - 1);
    }
  }

  lemma {:induction false} GroupOfHead(t: seq<Entry>, k: nat)
    requires k < |t| && Head(t, k).Some?
    ensures k < GroupEnd(t, Head(t, k).value + 1) && forall j :: Head(t, k).value < j <= k ==> t[j].name == ""
  {
    if t[k].name == "" {
      GroupOfHead(t, k - 1);
    }
  }

  /** A table as the compiler writes it: imports stand under a name, entries with offsets of their own
      do not stand in an import's group, and what is exported has a name. */
  ghost predicate WellFormed(t: seq<Entry>)
  {
    && (forall k :: 0 <= k < |t| && IsImport(t[k]) ==> Head(t, k).Some?)
    && (forall k :: 0 <= k < |t| && t[k].etype == IET_ABS_ADDR ==> Head(t, k).None?)
    && (forall k :: 0 <= k < |t| && IsExport(t[k]) ==> t[k].name != "")
    && (forall k :: 0 <= k < |t| ==> IsImport(t[k]) || IsExport(t[k]) || t[k].etype == IET_ABS_ADDR || t[k].etype == IET_MAIN)
  }

  // ---- Places to patch ----

  datatype Site = ImpSite(m: nat, k: nat) | AbsSite(m: nat, k: nat, j: nat)

  ghost predicate IsSite(mods: seq<Module>, s: Site)
  {
    && s.m < |mods| && s.k < |mods[s.m].table| && var e := mods[s.m].table[s.k];
    match s
    case ImpSite(_, _) => IsImport(e) && Width(e) > 0 && Head(mods[s.m].table, s.k).Some?
    case AbsSite(_, _, j) => e.etype == IET_ABS_ADDR && j < |e.extra|
  }

  ghost function Symbol(mods: seq<Module>, s: Site): string
    requires IsSite(mods, s) && s.ImpSite?
  {
    mods[s.m].table[Head(mods[s.m].table, s.k).value].name
  }

  ghost predicate Exports(mods: seq<Module>, m: nat, k: nat, name: string)
  {
    m < |mods| && k < |mods[m].table| && IsExport(mods[m].table[k]) && mods[m].table[k].name == name
  }

  // No name is exported twice.
  ghost predicate OneExport(mods: seq<Module>)
  {
    forall m: nat, k: nat, n: nat, l: nat, name :: Exports(mods, m, k, name) && Exports(mods, n, l, name) ==> m == n && k == l
  }

  ghost predicate Exported(mods: seq<Module>, name: string)
  {
    exists m: nat, k: nat :: Exports(mods, m, k, name)
  }

  ghost function ValueOf(mods: seq<Module>, name: string): int
  {
    if Exported(mods, name) then
      var m: nat, k: nat :| Exports(mods, m, k, name);
      ExportValue(mods[m].table[k], mods[m].base)
    else 0
  }

  lemma TheValue(mods: seq<Module>, m: nat, k: nat)
    requires OneExport(mods) && m < |mods| && k < |mods[m].table| && IsExport(mods[m].table[k])
    ensures ValueOf(mods, mods[m].table[k].name) == ExportValue(mods[m].table[k], mods[m].base)
  {
    assert Exports(mods, m, k, mods[m].table[k].name);
  }

  function SiteAddr(mods: seq<Module>, s: Site): nat
    requires s.m < |mods| && s.k < |mods[s.m].table| && (s.AbsSite? ==> s.j < |mods[s.m].table[s.k].extra|)
  {
    mods[s.m].base + if s.ImpSite? then mods[s.m].table[s.k].i else mods[s.m].table[s.k].extra[s.j]
  }

  function SiteWidth(mods: seq<Module>, s: Site): nat
    requires s.m < |mods| && s.k < |mods[s.m].table|
  {
    if s.ImpSite? then Width(mods[s.m].table[s.k]) else 4
  }

  // What a place holds once it is patched.
  ghost function SitePatch(mods: seq<Module>, mem: seq<nat>, s: Site): (p: Patch)
    requires IsSite(mods, s) && SiteAddr(mods, s) + SiteWidth(mods, s) <= |mem|
    ensures p.addr == SiteAddr(mods, s) && |p.bytes| == SiteWidth(mods, s)
  {
    var a, e := SiteAddr(mods, s), mods[s.m].table[s.k];
    Patch(a, LittleEndian(
      if s.ImpSite? then FieldValue(e, mods[s.m].base, ValueOf(mods, Symbol(mods, s)))
      else FromLittleEndian(mem[a..a + 4]) + mods[s.m].base, SiteWidth(mods, s)))
  }

  ghost predicate SitesClear(mods: seq<Module>, s: Site, t: Site)
    requires IsSite(mods, s) && IsSite(mods, t)
  {
    SiteAddr(mods, s) + SiteWidth(mods, s) <= SiteAddr(mods, t) || SiteAddr(mods, t) + SiteWidth(mods, t) <= SiteAddr(mods, s)
  }

  /** Modules fit to be loaded together into a memory. */
  ghost predicate Loadable(mods: seq<Module>, size: nat)
  {
    && OneExport(mods) && (forall m :: 0 <= m < |mods| ==> WellFormed(mods[m].table))
    && (forall s :: IsSite(mods, s) ==> SiteAddr(mods, s) + SiteWidth(mods, s) <= size)
    && (forall s, t :: IsSite(mods, s) && IsSite(mods, t) && s != t ==> SitesClear(mods, s, t))
  }

  ghost predicate AllSites(mods: seq<Module>, ss: seq<Site>)
  {
    forall i :: 0 <= i < |ss| ==> IsSite(mods, ss[i])
  }

  ghost function PatchesOf(mods: seq<Module>, mem: seq<nat>, ss: seq<Site>): (ps: seq<Patch>)
    requires Loadable(mods, |mem|) && AllSites(mods, ss)
    ensures |ps| == |ss| && forall i :: 0 <= i < |ss| ==> ps[i] == SitePatch(mods, mem, ss[i])
  {
    seq(|ss|, i requires 0 <= i < |ss| => SitePatch(mods, mem, ss[i]))
  }

  /** A memory patched at the places listed, and nowhere else. */
  ghost predicate PatchedAt(mods: seq<Module>, was: seq<nat>, now: seq<nat>, ss: seq<Site>)
    requires Loadable(mods, |was|)
  {
    AllSites(mods, ss) && Patched(was, now, PatchesOf(mods, was, ss))
  }

  /** The places loading all modules patches: every offset listed, and every import of a symbol that
      some module exports. The order of loading has no part in it. */
  ghost predicate Due(mods: seq<Module>, s: Site)
  {
    IsSite(mods, s) && (s.ImpSite? ==> Exported(mods, Symbol(mods, s)))
  }

  lemma PatchMore(mods: seq<Module>, was: seq<nat>, now: seq<nat>, ss: seq<Site>, s: Site)
    requires Loadable(mods, |was|) && PatchedAt(mods, was, now, ss) && IsSite(mods, s) && s !in ss
    ensures |now| == |was| && SiteAddr(mods, s) + SiteWidth(mods, s) <= |was|
    ensures PatchedAt(mods, was, Store(now, SitePatch(mods, was, s)), ss + [s])
    ensures var a := SiteAddr(mods, s); now[a..a + SiteWidth(mods, s)] == was[a..a + SiteWidth(mods, s)]
  {
    var p, ps := SitePatch(mods, was, s), PatchesOf(mods, was, ss);
    forall i | 0 <= i < |ps|
      ensures Clear(ps[i], p)
    {
      assert ss[i] in ss && SitesClear(mods, ss[i], s);
    }
    StoreMore(was, now, ps, p);
    assert PatchesOf(mods, was, ss + [s]) == ps + [p];
  }

  /** Loading leaves one memory only, since the places patched do not depend on the order. */
  lemma OneResult(mods: seq<Module>, was: seq<nat>, x: seq<nat>, y: seq<nat>, ss: seq<Site>, ts: seq<Site>)
    requires Loadable(mods, |was|) && PatchedAt(mods, was, x, ss) && PatchedAt(mods, was, y, ts)
    requires (forall s :: s in ss <==> Due(mods, s)) && (forall s :: s in ts <==> Due(mods, s))
    ensures x == y
  {
    var ps, qs := PatchesOf(mods, was, ss), PatchesOf(mods, was, ts);
    SamePatches(mods, was, ss, ts);
    SamePatches(mods, was, ts, ss);
    OnlyOne(was, x, y, ps, qs);
  }

  lemma SamePatches(mods: seq<Module>, was: seq<nat>, ss: seq<Site>, ts: seq<Site>)
    requires Loadable(mods, |was|) && AllSites(mods, ss) && AllSites(mods, ts) && forall s :: s in ss ==> s in ts
    ensures forall p :: p in PatchesOf(mods, was, ss) ==> p in PatchesOf(mods, was, ts)
  {
    var ps, qs := PatchesOf(mods, was, ss), PatchesOf(mods, was, ts);
    hide Loadable, SitePatch;
    forall p | p in ps
      ensures p in qs
    {
      var i :| 0 <= i < |ps| && ps[i] == p;
      assert ss[i] in ts;
      var j :| 0 <= j < |ts| && ts[j] == ss[i];
      assert qs[j] == p;
    }
  }
}

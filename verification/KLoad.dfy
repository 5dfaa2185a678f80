/** Loading BIN modules one after another, with imports resolved late (HolyCRT/KLoad.HC). */
module KLoad {
  import opened BinPatch
  import opened KLoadSpec
  import Meaning = LoadMeaning

  // An entry of the symbol table, whose lists have the newest first. Import entries name the group
  // that waits: its module and its first entry.
  datatype HashEnt = Exp(name: string, val: int) | Imp(name: string, m: nat, h: nat) | Invalid

  function FindExport(hash: seq<HashEnt>, name: string): (v: Option<int>)
  {
    if hash == [] then None
    else if hash[0].Exp? && hash[0].name == name then Some(hash[0].val)
    else FindExport(hash[1..], name)
  }

  ghost predicate ExpIn(hash: seq<HashEnt>, name: string)
  {
    exists i :: 0 <= i < |hash| && hash[i].Exp? && hash[i].name == name
  }

  lemma {:induction false} FindsExport(hash: seq<HashEnt>, name: string)
    ensures FindExport(hash, name).Some? <==> ExpIn(hash, name)
    ensures FindExport(hash, name).Some? ==> Exp(name, FindExport(hash, name).value) in hash
  {
    if hash != [] {
      FindsExport(hash[1..], name);
      if ExpIn(hash, name) && !(hash[0].Exp? && hash[0].name == name) {
        var i :| 0 <= i < |hash| && hash[i].Exp? && hash[i].name == name;
        assert hash[1..][i - 1] == hash[i];
      }
    }
  }

  // Import entries still waiting.
  function Waiting(hash: seq<HashEnt>): nat
  {
    if hash == [] then 0 else (if hash[0].Imp? then 1 else 0) + Waiting(hash[1..])
  }

  lemma {:induction false} FewerWaiting(hash: seq<HashEnt>, i: nat)
    requires i < |hash| && hash[i].Imp?
    ensures Waiting(hash[i := Invalid]) < Waiting(hash)
  {
    if i == 0 {
      assert hash[i := Invalid][1..] == hash[1..];
    } else {
      FewerWaiting(hash[1..], i - 1);
      assert hash[i := Invalid][1..] == hash[1..][i - 1 := Invalid];
    }
  }

  ghost predicate Pending(hash: seq<HashEnt>, m: nat, h: nat)
  {
    exists i :: 0 <= i < |hash| && hash[i].Imp? && hash[i].m == m && hash[i].h == h
  }

  ghost predicate IsHead(mods: seq<Module>, m: nat, h: nat)
  {
    m < |mods| && h < |mods[m].table| && IsImport(mods[m].table[h]) && mods[m].table[h].name != ""
  }

  ghost predicate ExpsTrue(mods: seq<Module>, hash: seq<HashEnt>)
  {
    forall i :: 0 <= i < |hash| && hash[i].Exp? ==>
      Exported(mods, hash[i].name) && hash[i].val == ValueOf(mods, hash[i].name)
  }

  ghost predicate ImpsTrue(mods: seq<Module>, hash: seq<HashEnt>, handled: set<(nat, nat)>)
  {
    && (forall i :: 0 <= i < |hash| && hash[i].Imp? ==>
          && (hash[i].m, hash[i].h) in handled && IsHead(mods, hash[i].m, hash[i].h)
          && hash[i].name == mods[hash[i].m].table[hash[i].h].name)
    && (forall i, j :: 0 <= i < j < |hash| && hash[i].Imp? && hash[j].Imp? ==> hash[i] != hash[j])
  }

  // Whole groups are handled, and every export handled is in the table.
  ghost predicate HandledOk(mods: seq<Module>, hash: seq<HashEnt>, handled: set<(nat, nat)>)
  {
    && (forall p :: p in handled ==> p.0 < |mods| && p.1 < |mods[p.0].table|)
    && (forall p :: p in handled && IsExport(mods[p.0].table[p.1]) ==> ExpIn(hash, mods[p.0].table[p.1].name))
    && (forall s :: IsSite(mods, s) && s.ImpSite? && (s.m, Head(mods[s.m].table, s.k).value) in handled ==> (s.m, s.k) in handled)
  }

  // The symbol table tells the truth about what has been handled.
  ghost predicate HashOk(mods: seq<Module>, hash: seq<HashEnt>, handled: set<(nat, nat)>)
  {
    ExpsTrue(mods, hash) && ImpsTrue(mods, hash, handled) && HandledOk(mods, hash, handled)
  }

  /** A group is on the waiting list exactly while its symbol is not exported. */
  ghost predicate Settled(mods: seq<Module>, hash: seq<HashEnt>, handled: set<(nat, nat)>)
  {
    forall m: nat, h: nat :: (m, h) in handled && IsHead(mods, m, h) ==>
      (Pending(hash, m, h) <==> !ExpIn(hash, mods[m].table[h].name))
  }

  // The places patched: those handled whose group is not waiting.
  ghost predicate Reached(mods: seq<Module>, hash: seq<HashEnt>, handled: set<(nat, nat)>, s: Site)
  {
    && IsSite(mods, s) && (s.m, s.k) in handled
    && (s.ImpSite? ==> !Pending(hash, s.m, Head(mods[s.m].table, s.k).value))
  }

  // The places of one group.
  ghost predicate InGroup(mods: seq<Module>, m: nat, h: nat, s: Site)
  {
    s.ImpSite? && IsSite(mods, s) && s.m == m && Head(mods[m].table, s.k) == Some(h)
  }

  class Loader {
    const mods: seq<Module>
    const mem: array<nat>
    var hash: seq<HashEnt>
    ghost const mem0: seq<nat>
    ghost var done: seq<Site>
    ghost var handled: set<(nat, nat)>

    constructor (mods: seq<Module>, mem: array<nat>)
      requires Loadable(mods, mem.Length)
      ensures Valid() && Settled(mods, hash, handled) && this.mods == mods && this.mem == mem && mem0 == mem[..]
      ensures handled == {}
    {
      this.mods, this.mem, hash, mem0, done, handled := mods, mem, [], mem[..], [], {};
    }

    ghost predicate Memory()
      reads this, mem
    {
      Loadable(mods, |mem0|) && PatchedAt(mods, mem0, mem[..], done)
    }

    ghost predicate Valid()
      reads this, mem
    {
      && Memory() && HashOk(mods, hash, handled)
      && forall s :: s in done <==> Reached(mods, hash, handled, s)
    }

    // One field of a group, now that its symbol's value is known.
    method PatchField(m: nat, k: nat, v: int)
      requires Memory() && IsSite(mods, ImpSite(m, k)) && ImpSite(m, k) !in done
      requires v == ValueOf(mods, Symbol(mods, ImpSite(m, k)))
      modifies mem, `done
      ensures Memory() && done == old(done) + [ImpSite(m, k)]
    {
      ghost var s := ImpSite(m, k);
      PatchMore(mods, mem0, mem[..], done, s);
      hide LittleEndian, PatchedAt, Loadable;
      var e, base := mods[m].table[k], mods[m].base;
      var bytes := LittleEndian(FieldValue(e, base, v), Width(e));
      StoreAt(mem, base + e.i, bytes);
      done := done + [s];
    }

    /** LoadOneImport: the group that begins at entry h is patched if its symbol is known, else it goes
        on the waiting list. */
    method LoadOneImport(m: nat, h: nat) returns (next: nat)
      requires Memory() && IsHead(mods, m, h) && HashOk(mods, hash, handled)
      requires forall s :: s in done ==> !InGroup(mods, m, h, s)
      modifies mem, `hash, `done
      ensures Memory() && next == GroupEnd(mods[m].table, h + 1)
      ensures ExpIn(old(hash), mods[m].table[h].name) ==>
                hash == old(hash) && forall s :: s in done <==> s in old(done) || InGroup(mods, m, h, s)
      ensures !ExpIn(old(hash), mods[m].table[h].name) ==>
                hash == [Imp(mods[m].table[h].name, m, h)] + old(hash) && done == old(done)
    {
      hide PatchedAt, Loadable;
      var t := mods[m].table;
      var name := t[h].name;
      var v := FindExport(hash, name);
      FindsExport(hash, name);
      if v.None? {
        hash := [Imp(name, m, h)] + hash;
      }
      next := h;
      while next < |t| && (next == h || t[next].name == "")
        invariant h <= next <= GroupEnd(t, h + 1)
        invariant Memory() && hash == (if v.Some? then old(hash) else [Imp(name, m, h)] + old(hash))
        invariant v.None? ==> done == old(done)
        invariant v.Some? ==> forall s :: s in done <==> s in old(done) || (InGroup(mods, m, h, s) && s.k < next)
        decreases |t| - next
      {
        HeadOfGroup(t, h, next);
        if v.Some? && Width(t[next]) > 0 {
          PatchField(m, next, v.value);
        }
        next := next + 1;
      }
      assert forall s :: InGroup(mods, m, h, s) ==> s.k < next by {
        forall s | InGroup(mods, m, h, s)
          ensures s.k < next
        {
          GroupOfHead(t, s.k);
        }
      }
    }

    // The first import entry of a name on the waiting list, or none.
    method FindImport(name: string) returns (i: nat)
      ensures i <= |hash| && (i < |hash| ==> hash[i].Imp? && hash[i].name == name)
      ensures i == |hash| ==> forall j :: 0 <= j < |hash| && hash[j].Imp? ==> hash[j].name != name
    {
      i := 0;
      while i < |hash| && !(hash[i].Imp? && hash[i].name == name)
        invariant 0 <= i <= |hash|
        invariant forall j :: 0 <= j < i && hash[j].Imp? ==> hash[j].name != name
      {
        i := i + 1;
      }
    }

    /** SysSymImportsResolve: every group waiting for the name is patched, each once, and leaves the list. */
    method SysSymImportsResolve(name: string)
      requires Valid() && ExpIn(hash, name)
      modifies mem, `hash, `done
      ensures Valid()
      ensures forall m: nat, h: nat :: IsHead(mods, m, h) ==>
                (Pending(hash, m, h) <==> old(Pending(hash, m, h)) && mods[m].table[h].name != name)
      ensures forall n :: ExpIn(hash, n) <==> old(ExpIn(hash, n))
    {
      ghost var was := hash;
      var i := FindImport(name);
      while i < |hash|
        invariant Valid() && 0 <= i <= |hash| && (i < |hash| ==> hash[i].Imp? && hash[i].name == name)
        invariant i == |hash| ==> forall j :: 0 <= j < |hash| && hash[j].Imp? ==> hash[j].name != name
        invariant forall n :: ExpIn(hash, n) <==> ExpIn(was, n)
        invariant forall m: nat, h: nat :: IsHead(mods, m, h) && mods[m].table[h].name != name ==>
                    (Pending(hash, m, h) <==> Pending(was, m, h))
        decreases Waiting(hash)
      {
        FewerWaiting(hash, i);
        ResolveOne(i);
        i := FindImport(name);
      }
    }

    method ResolveOne(i: nat)
      requires Valid() && i < |hash| && hash[i].Imp? && ExpIn(hash, hash[i].name)
      modifies mem, `hash, `done
      ensures Valid() && hash == old(hash)[i := Invalid]
      ensures forall n :: ExpIn(hash, n) <==> old(ExpIn(hash, n))
      ensures forall m: nat, h: nat :: IsHead(mods, m, h) ==>
                (Pending(hash, m, h) <==> old(Pending(hash, m, h)) && (m, h) != (old(hash)[i].m, old(hash)[i].h))
    {
      var m, h := hash[i].m, hash[i].h;
      ghost var was, old2 := hash, done;
      Retired(mods, hash, handled, i);
      forall s | s in done
        ensures !InGroup(mods, m, h, s)
      {
      }
      var next := LoadOneImport(m, h);
      hash := hash[i := Invalid];
      hide HashOk, ExpIn;
      forall s
        ensures s in done <==> Reached(mods, hash, handled, s)
      {
        ReachedAfter(mods, was, handled, i, s);
      }
    }

    // An export goes into the table, and whoever waited for it is served.
    method PassExport(m: nat, k: nat)
      requires Valid() && Settled(mods, hash, handled) && m < |mods| && k < |mods[m].table|
      requires IsExport(mods[m].table[k]) && (m, k) !in handled
      modifies mem, `hash, `done, `handled
      ensures Valid() && Settled(mods, hash, handled) && handled == old(handled) + {(m, k)}
    {
      var e := mods[m].table[k];
      ghost var was := hash;
      TheValue(mods, m, k);
      assert Exports(mods, m, k, e.name);
      Announced(mods, hash, handled, m, k);
      hash := [Exp(e.name, ExportValue(e, mods[m].base))] + hash;
      handled := handled + {(m, k)};
      hide HashOk, ExpIn, Pending;
      forall s
        ensures s in done <==> Reached(mods, hash, handled, s)
      {
        assert Reached(mods, hash, handled, s) <==> Reached(mods, was, old(handled), s);
      }
      SysSymImportsResolve(e.name);
    }

    // An import's group, patched or on the waiting list.
    method PassImport(m: nat, k: nat) returns (next: nat)
      requires Valid() && Settled(mods, hash, handled) && IsHead(mods, m, k)
      requires forall j :: (m, j) in handled ==> j < k
      modifies mem, `hash, `done, `handled
      ensures next == GroupEnd(mods[m].table, k + 1)
      ensures Valid() && Settled(mods, hash, handled) && handled == old(handled) + set j: nat | k <= j < next :: (m, j)
    {
      ghost var was, name := hash, mods[m].table[k].name;
      forall s | s in done
        ensures !InGroup(mods, m, k, s)
      {
        NotYet(mods, was, handled, m, k, s);
      }
      next := LoadOneImport(m, k);
      ghost var group := set j: nat | k <= j < next :: (m, j);
      GroupHandled(mods, was, handled, m, k, next, hash);
      handled := handled + group;
      hide HashOk, Settled, ExpIn;
      forall s
        ensures s in done <==> Reached(mods, hash, handled, s)
      {
        GroupReached(mods, was, old(handled), m, k, next, hash, s);
      }
    }

    // Each offset listed gets the module's address added to the word there.
    method PassAbs(m: nat, k: nat)
      requires Valid() && Settled(mods, hash, handled) && m < |mods| && k < |mods[m].table|
      requires mods[m].table[k].etype == IET_ABS_ADDR && (m, k) !in handled && Head(mods[m].table, k).None?
      modifies mem, `done, `handled
      ensures Valid() && Settled(mods, hash, handled) && handled == old(handled) + {(m, k)}
    {
      var offs := mods[m].table[k].extra;
      var j := 0;
      while j < |offs|
        invariant 0 <= j <= |offs| && Memory() && handled == old(handled)
        invariant forall s :: s in done <==> Reached(mods, hash, handled, s) || AbsBefore(mods, m, k, j, s)
      {
        AddBase(m, k, j);
        j := j + 1;
      }
      OneHandled(mods, hash, handled, m, k);
      handled := handled + {(m, k)};
      hide HashOk, Settled, Pending;
    }

    method AddBase(m: nat, k: nat, j: nat)
      requires Memory() && IsSite(mods, AbsSite(m, k, j)) && AbsSite(m, k, j) !in done
      modifies mem, `done
      ensures Memory() && done == old(done) + [AbsSite(m, k, j)]
    {
      hide LittleEndian, FromLittleEndian, PatchedAt, Loadable, Store, IsSite;
      ghost var s := AbsSite(m, k, j);
      PatchMore(mods, mem0, mem[..], done, s);
      InExtra(mods, m, k, j);
      var at := mods[m].base + mods[m].table[k].extra[j];
      assert mem[at..at + 4] == mem[..][at..at + 4];
      var word := FromLittleEndian(mem[at..at + 4]);
      StoreAt(mem, at, LittleEndian(word + mods[m].base, 4));
      done := done + [s];
    }

    // An entry that does nothing in this pass.
    method PassOther(m: nat, k: nat)
      requires Valid() && Settled(mods, hash, handled) && m < |mods| && k < |mods[m].table|
      requires mods[m].table[k].etype == IET_MAIN && (m, k) !in handled && Head(mods[m].table, k).None?
      modifies `handled
      ensures Valid() && Settled(mods, hash, handled) && handled == old(handled) + {(m, k)}
    {
      OneHandled(mods, hash, handled, m, k);
      handled := handled + {(m, k)};
      hide HashOk, Settled, Pending;
    }

    // One entry, or one group, of a module's table.
    method PassOne(m: nat, k: nat) returns (next: nat)
      requires Valid() && Settled(mods, hash, handled) && m < |mods| && k < |mods[m].table|
      requires Head(mods[m].table, k) == None || Head(mods[m].table, k) == Some(k)
      requires forall j: nat :: (m, j) in handled ==> j < k
      modifies mem, `hash, `done, `handled
      ensures Valid() && Settled(mods, hash, handled) && k < next <= |mods[m].table|
      ensures next < |mods[m].table| ==> Head(mods[m].table, next) == None || Head(mods[m].table, next) == Some(next)
      ensures forall a: nat, b: nat :: (a, b) in handled <==> (a, b) in old(handled) || (a == m && k <= b < next)
    {
      var t := mods[m].table;
      assert WellFormed(t);
      hide Valid, Settled;
      next := k + 1;
      if IsImport(t[k]) {
        next := PassImport(m, k);
      } else if IsExport(t[k]) {
        PassExport(m, k);
      } else if t[k].etype == IET_ABS_ADDR {
        PassAbs(m, k);
      } else {
        PassOther(m, k);
      }
    }

    /** LoadPass1: the cursor walks the module's patch table. */
    method LoadPass1(m: nat)
      requires Valid() && Settled(mods, hash, handled) && m < |mods|
      requires forall k: nat :: (m, k) !in handled
      modifies mem, `hash, `done, `handled
      ensures Valid() && Settled(mods, hash, handled)
      ensures forall a: nat, b: nat :: (a, b) in handled <==> (a, b) in old(handled) || (a == m && b < |mods[m].table|)
    {
      hide Valid, Settled, Head;
      HeadFirst(mods[m].table);
      var k := 0;
      while k < |mods[m].table|
        invariant 0 <= k <= |mods[m].table| && Valid() && Settled(mods, hash, handled)
        invariant k < |mods[m].table| ==> Head(mods[m].table, k) == None || Head(mods[m].table, k) == Some(k)
        invariant forall a: nat, b: nat :: (a, b) in handled <==> (a, b) in old(handled) || (a == m && b < k)
      {
        k := PassOne(m, k);
      }
    }

    static lemma HeadFirst(t: seq<Entry>)
      ensures t != [] ==> Head(t, 0) == None || Head(t, 0) == Some(0)
    {
    }

    /** Loading every module once, in any order, patches exactly the places that are due. */
    method LoadAll(order: seq<nat>)
      requires Valid() && Settled(mods, hash, handled) && handled == {}
      requires forall m: nat :: m in order <==> m < |mods|
      requires forall i, j :: 0 <= i < j < |order| ==> order[i] != order[j]
      modifies mem, `hash, `done, `handled
      ensures Memory() && forall s :: s in done <==> Due(mods, s)
      ensures Meaning.Linked(mods, mem0, mem[..])
    {
      hide Meaning.Linked;
      var n := 0;
      while n < |order|
        invariant 0 <= n <= |order| && Valid() && Settled(mods, hash, handled)
        invariant forall a: nat, b: nat :: (a, b) in handled <==> a in order[..n] && a < |mods| && b < |mods[a].table|
      {
        assert order[n] in order && order[n] !in order[..n];
        hide Valid, Settled;
        LoadPass1(order[n]);
        assert order[..n + 1] == order[..n] + [order[n]];
        n := n + 1;
      }
      assert order[..n] == order;
      forall s
        ensures s in done <==> Due(mods, s)
      {
        AllHandled(mods, hash, handled, s);
      }
      Meaning.PatchedLinked(mods, mem0, mem[..], done);
    }
  }

  // An entry taken off the waiting list leaves the others on it.
  lemma Retired(mods: seq<Module>, hash: seq<HashEnt>, handled: set<(nat, nat)>, i: nat)
    requires HashOk(mods, hash, handled) && i < |hash| && hash[i].Imp?
    ensures var now := hash[i := Invalid];
            && HashOk(mods, now, handled) && (forall n :: ExpIn(now, n) <==> ExpIn(hash, n))
            && forall m: nat, h: nat :: Pending(now, m, h) <==> Pending(hash, m, h) && (m, h) != (hash[i].m, hash[i].h)
  {
    var now := hash[i := Invalid];
    forall n
      ensures ExpIn(now, n) <==> ExpIn(hash, n)
    {
      if ExpIn(hash, n) {
        var j :| 0 <= j < |hash| && hash[j].Exp? && hash[j].name == n;
        assert now[j] == hash[j];
      }
    }
    forall m: nat, h: nat
      ensures Pending(now, m, h) <==> Pending(hash, m, h) && (m, h) != (hash[i].m, hash[i].h)
    {
      if Pending(hash, m, h) && (m, h) != (hash[i].m, hash[i].h) {
        var j :| 0 <= j < |hash| && hash[j].Imp? && hash[j].m == m && hash[j].h == h;
        assert now[j] == hash[j];
      }
      if Pending(now, m, h) {
        var j :| 0 <= j < |now| && now[j].Imp? && now[j].m == m && now[j].h == h;
        assert hash[j] == now[j] && hash[j] != hash[i];
      }
    }
  }

  lemma ReachedAfter(mods: seq<Module>, hash: seq<HashEnt>, handled: set<(nat, nat)>, i: nat, s: Site)
    requires HashOk(mods, hash, handled) && i < |hash| && hash[i].Imp?
    ensures Reached(mods, hash[i := Invalid], handled, s) <==>
            Reached(mods, hash, handled, s) || InGroup(mods, hash[i].m, hash[i].h, s)
  {
    Retired(mods, hash, handled, i);
  }

  // A new export changes nothing else in the table.
  lemma Announced(mods: seq<Module>, hash: seq<HashEnt>, handled: set<(nat, nat)>, m: nat, k: nat)
    requires HashOk(mods, hash, handled) && m < |mods| && k < |mods[m].table| && IsExport(mods[m].table[k])
    requires OneExport(mods)
    ensures var name := mods[m].table[k].name; var now := [Exp(name, ExportValue(mods[m].table[k], mods[m].base))] + hash;
            && HashOk(mods, now, handled + {(m, k)}) && ExpIn(now, name)
            && (forall n :: n != name ==> (ExpIn(now, n) <==> ExpIn(hash, n)))
            && (forall a: nat, b: nat :: Pending(now, a, b) <==> Pending(hash, a, b))
  {
    var name := mods[m].table[k].name;
    var now := [Exp(name, ExportValue(mods[m].table[k], mods[m].base))] + hash;
    TheValue(mods, m, k);
    assert Exports(mods, m, k, name);
    Pushed(hash, Exp(name, ExportValue(mods[m].table[k], mods[m].base)));
    hide ExpIn, Pending, ExportValue, WellFormed;
  }

  // What a new entry at the head of the table changes.
  lemma Pushed(hash: seq<HashEnt>, e: HashEnt)
    ensures forall n :: ExpIn([e] + hash, n) <==> ExpIn(hash, n) || (e.Exp? && e.name == n)
    ensures forall a: nat, b: nat :: Pending([e] + hash, a, b) <==> Pending(hash, a, b) || (e.Imp? && e.m == a && e.h == b)
  {
    var now := [e] + hash;
    assert now[0] == e;
    forall n
      ensures ExpIn(now, n) <==> ExpIn(hash, n) || (e.Exp? && e.name == n)
    {
      if ExpIn(hash, n) {
        var i :| 0 <= i < |hash| && hash[i].Exp? && hash[i].name == n;
        assert now[i + 1] == hash[i];
      }
    }
    forall a: nat, b: nat
      ensures Pending(now, a, b) <==> Pending(hash, a, b) || (e.Imp? && e.m == a && e.h == b)
    {
      if Pending(hash, a, b) {
        var i :| 0 <= i < |hash| && hash[i].Imp? && hash[i].m == a && hash[i].h == b;
        assert now[i + 1] == hash[i];
      }
    }
  }

  lemma NotYet(mods: seq<Module>, hash: seq<HashEnt>, handled: set<(nat, nat)>, m: nat, k: nat, s: Site)
    requires Reached(mods, hash, handled, s) && forall j :: (m, j) in handled ==> j < k
    ensures !InGroup(mods, m, k, s)
  {
  }

  // The table after LoadOneImport.
  ghost predicate Noted(mods: seq<Module>, was: seq<HashEnt>, now: seq<HashEnt>, m: nat, k: nat)
    requires IsHead(mods, m, k)
  {
    now == if ExpIn(was, mods[m].table[k].name) then was else [Imp(mods[m].table[k].name, m, k)] + was
  }

  lemma NotedPending(mods: seq<Module>, was: seq<HashEnt>, handled: set<(nat, nat)>, m: nat, k: nat, now: seq<HashEnt>)
    requires HashOk(mods, was, handled) && IsHead(mods, m, k) && (m, k) !in handled && Noted(mods, was, now, m, k)
    ensures forall n :: ExpIn(now, n) <==> ExpIn(was, n)
    ensures forall a: nat, b: nat :: Pending(now, a, b) <==>
              Pending(was, a, b) || ((a, b) == (m, k) && !ExpIn(was, mods[m].table[k].name))
    ensures !Pending(was, m, k)
  {
    var name := mods[m].table[k].name;
    assert !Pending(was, m, k);
    hide HashOk, Pending, ExpIn;
    if !ExpIn(was, name) {
      Pushed(was, Imp(name, m, k));
    }
  }

  ghost predicate Grown(handled: set<(nat, nat)>, after: set<(nat, nat)>, m: nat, k: nat, next: nat)
  {
    forall a: nat, b: nat :: (a, b) in after <==> (a, b) in handled || (a == m && k <= b < next)
  }

  lemma GroupHandled(mods: seq<Module>, was: seq<HashEnt>, handled: set<(nat, nat)>, m: nat, k: nat, next: nat, now: seq<HashEnt>)
    requires HashOk(mods, was, handled) && Settled(mods, was, handled) && IsHead(mods, m, k) && WellFormed(mods[m].table)
    requires next == GroupEnd(mods[m].table, k + 1) && forall j :: (m, j) in handled ==> j < k
    requires Noted(mods, was, now, m, k)
    ensures var after := handled + set j: nat | k <= j < next :: (m, j);
            HashOk(mods, now, after) && Settled(mods, now, after)
  {
    var after := handled + set j: nat | k <= j < next :: (m, j);
    assert Grown(handled, after, m, k, next);
    NotedPending(mods, was, handled, m, k, now);
    NotedImps(mods, was, handled, m, k, next, now, after);
    NotedHandled(mods, was, handled, m, k, next, now, after);
    NotedSettled(mods, was, handled, m, k, next, now, after);
    hide ImpsTrue, HandledOk, Settled, Grown;
  }

  lemma NotedImps(mods: seq<Module>, was: seq<HashEnt>, handled: set<(nat, nat)>, m: nat, k: nat, next: nat, now: seq<HashEnt>,
      after: set<(nat, nat)>)
    requires ImpsTrue(mods, was, handled) && IsHead(mods, m, k) && Noted(mods, was, now, m, k) && k < next
    requires Grown(handled, after, m, k, next) && (m, k) !in handled
    ensures ImpsTrue(mods, now, after)
  {
    hide ExpIn;
  }

  lemma NotedHandled(mods: seq<Module>, was: seq<HashEnt>, handled: set<(nat, nat)>, m: nat, k: nat, next: nat, now: seq<HashEnt>,
      after: set<(nat, nat)>)
    requires HandledOk(mods, was, handled) && IsHead(mods, m, k) && WellFormed(mods[m].table)
    requires Grown(handled, after, m, k, next) && next == GroupEnd(mods[m].table, k + 1)
    requires forall n :: ExpIn(now, n) <==> ExpIn(was, n)
    ensures HandledOk(mods, now, after)
  {
    hide ExpIn;
    forall p | p in after
      ensures p.0 < |mods| && p.1 < |mods[p.0].table|
      ensures IsExport(mods[p.0].table[p.1]) ==> ExpIn(now, mods[p.0].table[p.1].name)
    {
      assert (p.0, p.1) in after;
      assert p !in handled ==> p.0 == m && k <= p.1 < next && (p.1 > k ==> mods[m].table[p.1].name == "");
    }
    forall s | IsSite(mods, s) && s.ImpSite? && (s.m, Head(mods[s.m].table, s.k).value) in after
      ensures (s.m, s.k) in after
    {
      GroupOfHead(mods[s.m].table, s.k);
    }
  }

  lemma NotedSettled(mods: seq<Module>, was: seq<HashEnt>, handled: set<(nat, nat)>, m: nat, k: nat, next: nat, now: seq<HashEnt>,
      after: set<(nat, nat)>)
    requires Settled(mods, was, handled) && IsHead(mods, m, k) && next == GroupEnd(mods[m].table, k + 1)
    requires Grown(handled, after, m, k, next) && !Pending(was, m, k)
    requires forall n :: ExpIn(now, n) <==> ExpIn(was, n)
    requires forall a: nat, b: nat :: Pending(now, a, b) <==>
              Pending(was, a, b) || ((a, b) == (m, k) && !ExpIn(was, mods[m].table[k].name))
    ensures Settled(mods, now, after)
  {
    hide ExpIn, Pending;
    forall a: nat, b: nat | (a, b) in after && IsHead(mods, a, b)
      ensures Pending(now, a, b) <==> !ExpIn(now, mods[a].table[b].name)
    {
      assert k < b < next ==> mods[m].table[b].name == "";
    }
  }

  lemma GroupReached(mods: seq<Module>, was: seq<HashEnt>, handled: set<(nat, nat)>, m: nat, k: nat, next: nat, now: seq<HashEnt>, s: Site)
    requires HashOk(mods, was, handled) && IsHead(mods, m, k) && WellFormed(mods[m].table)
    requires next == GroupEnd(mods[m].table, k + 1) && forall j :: (m, j) in handled ==> j < k
    requires Noted(mods, was, now, m, k)
    ensures var after := handled + set j: nat | k <= j < next :: (m, j);
            Reached(mods, now, after, s) <==>
            Reached(mods, was, handled, s) || (ExpIn(was, mods[m].table[k].name) && InGroup(mods, m, k, s))
  {
    var after := handled + set j: nat | k <= j < next :: (m, j);
    NotedPending(mods, was, handled, m, k, now);
    assert forall a: nat, b: nat :: (a, b) in after <==> (a, b) in handled || (a == m && k <= b < next);
    if IsSite(mods, s) && s.m == m {
      if s.ImpSite? {
        GroupOfHead(mods[m].table, s.k);
      }
      if k <= s.k < next {
        HeadOfGroup(mods[m].table, k, s.k);
      }
    }
  }

  ghost predicate AbsBefore(mods: seq<Module>, m: nat, k: nat, j: nat, s: Site)
  {
    IsSite(mods, s) && s.AbsSite? && s.m == m && s.k == k && s.j < j
  }

  lemma InExtra(mods: seq<Module>, m: nat, k: nat, j: nat)
    requires IsSite(mods, AbsSite(m, k, j))
    ensures m < |mods| && k < |mods[m].table| && j < |mods[m].table[k].extra|
  {
  }

  // Handling an entry that is neither an import nor an export adds the offsets it lists.
  lemma OneHandled(mods: seq<Module>, hash: seq<HashEnt>, handled: set<(nat, nat)>, m: nat, k: nat)
    requires HashOk(mods, hash, handled) && Settled(mods, hash, handled) && m < |mods| && k < |mods[m].table|
    requires !IsImport(mods[m].table[k]) && !IsExport(mods[m].table[k])
    ensures HashOk(mods, hash, handled + {(m, k)}) && Settled(mods, hash, handled + {(m, k)})
    ensures forall s :: Reached(mods, hash, handled + {(m, k)}, s) <==>
              Reached(mods, hash, handled, s) || AbsBefore(mods, m, k, |mods[m].table[k].extra|, s)
  {
    var after := handled + {(m, k)};
    assert ImpsTrue(mods, hash, after);
    assert HandledOk(mods, hash, after);
    hide HashOk, Pending, ExpIn;
  }

  // With every entry handled, the places reached are those due.
  lemma AllHandled(mods: seq<Module>, hash: seq<HashEnt>, handled: set<(nat, nat)>, s: Site)
    requires HashOk(mods, hash, handled) && Settled(mods, hash, handled)
    requires forall a: nat, b: nat :: a < |mods| && b < |mods[a].table| ==> (a, b) in handled
    ensures Reached(mods, hash, handled, s) <==> Due(mods, s)
  {
    if IsSite(mods, s) && s.ImpSite? {
      var h, name := Head(mods[s.m].table, s.k).value, Symbol(mods, s);
      assert IsHead(mods, s.m, h) && (s.m, h) in handled;
      if Exported(mods, name) {
        var m: nat, k: nat :| Exports(mods, m, k, name);
        assert (m, k) in handled;
      }
      if ExpIn(hash, name) {
        var i :| 0 <= i < |hash| && hash[i].Exp? && hash[i].name == name;
      }
    }
  }

  /** Two loads of the same modules into the same memory leave it the same, whatever their orders. */
  method LoadTwice(mods: seq<Module>, x: array<nat>, y: array<nat>, order1: seq<nat>, order2: seq<nat>)
    requires x != y && x[..] == y[..] && Loadable(mods, x.Length)
    requires forall m: nat :: m in order1 <==> m < |mods|
    requires forall m: nat :: m in order2 <==> m < |mods|
    requires forall i, j :: 0 <= i < j < |order1| ==> order1[i] != order1[j]
    requires forall i, j :: 0 <= i < j < |order2| ==> order2[i] != order2[j]
    modifies x, y
    ensures x[..] == y[..] && Meaning.Linked(mods, old(x[..]), x[..])
  {
    hide Meaning.Linked;
    var a := new Loader(mods, x);
    var b := new Loader(mods, y);
    a.LoadAll(order1);
    b.LoadAll(order2);
    OneResult(mods, a.mem0, x[..], y[..], a.done, b.done);
  }
}

/** The copy-on-write kernel on real page tables: its flat entries and the three-level tables
    stay in step over every run, and table frames are never mapped for a user. */
module CowTables {
  import opened Basics
  import opened Sv39
  import opened Sv39Dense
  import opened CowEntries
  import Bits
  import Vmas
  import Cow
  import CowRuns
  import CowTheorems

  const USER_END: nat := 0x40_0000_0000

  // The entry the tables must hold for a page of a process, 0 when it is not mapped.
  function Word(pt: map<Cow.Key, Cow.Pte>, k: Cow.Key): nat {
    if k in pt then Raw(pt[k]) else 0
  }

  // roots[p] is the root table of process p.
  ghost predicate Rooted(s: Space, roots: seq<nat>) {
    && s.Valid() && s.KernelShared()
    && (forall p :: 0 <= p < |roots| ==> roots[p] in s.roots && roots[p] != s.kernel)
    && (forall p, q :: 0 <= p < q < |roots| ==> roots[p] != roots[q])
  }

  ghost predicate Translates(s: Space, roots: seq<nat>, pt: map<Cow.Key, Cow.Pte>) {
    forall p: nat, v: nat :: p < |roots| && IsUser(v) ==> s.Lookup(roots[p], v) == Word(pt, (p, v))
  }

  // Frames of tables, in use or still in the pool, belong to the kernel.
  ghost predicate TablesAreKernels(s: Space, kernel: set<nat>) {
    (forall g :: g in s.tables ==> g in kernel) && forall g :: g in s.pool ==> g in kernel
  }

  ghost predicate Coupled(s: Space, roots: seq<nat>, c: Cow.State) {
    && Rooted(s, roots) && Dense(s) && |roots| == |c.procs| && |c.ram| <= PPN_LIMIT
    && TablesAreKernels(s, c.kernel)
    && Translates(s, roots, c.pt)
  }

  // Areas lie below USER_END and use only the four flags.
  ghost predicate UserAreas(c: Cow.State) {
    forall p, x :: 0 <= p < |c.procs| && x in c.procs[p] ==> x.end <= USER_END && x.flags < 16
  }

  lemma UserPage(v: nat)
    ensures v * 4096 < USER_END <==> IsUser(v)
  {
  }

  // ---------------------------------------------------------------------------------
  // Mapping one user page in the tables.

  ghost predicate Able(s: Space, r: nat, v: nat) {
    s.Valid() && s.KernelShared() && r in s.roots && r != s.kernel && IsUser(v)
  }

  // Nothing enters the pool or the tables from elsewhere.
  ghost predicate Within(s: Space, t: Space) {
    && (forall g :: g in t.pool ==> g in s.pool)
    && (forall g :: g in t.tables ==> g in s.tables || g in s.pool)
  }

  lemma MapPageStaysWithin(s: Space, r: nat, v: nat, e: nat)
    requires s.Valid() && r in s.roots && |s.pool| >= Missing(s, r, v) && v < PAGES && Private(s, r, v)
    ensures Within(s, MapPage(s, r, v, e))
  {
    WithPmdRefines(s, r, v);
    var s1 := WithPmd(s, r, v);
    FreshPmdIsEmpty(s, r, v);
    var m := Ppn(s1.E(r, Idx2(v)));
    WithPteRefines(s1, r, v);
    SetLeafRefines(WithPte(s1, m, v), r, v, e);
    if !V(s.E(r, Idx2(v))) { TableStaysWithin(s, r, Idx2(v), true); }
    if !V(s1.E(m, Idx1(v))) { TableStaysWithin(s1, m, Idx1(v), false); }
  }

  lemma TableStaysWithin(s: Space, f: nat, i: nat, root: bool)
    requires f in s.tables && i < |s.tables[f]| && s.pool != []
    ensures Within(s, AddTable(s, f, i, root))
  {
  }

  lemma RemapCouples(s: Space, t: Space, roots: seq<nat>, pt: map<Cow.Key, Cow.Pte>, p: nat, v: nat, e: Cow.Pte)
    requires Rooted(s, roots) && Translates(s, roots, pt) && p < |roots| && IsUser(v)
    requires Remapped(s, t, roots[p], v, Raw(e)) && t.KernelShared()
    ensures Rooted(t, roots) && Translates(t, roots, pt[(p, v) := e])
  {
    hide Space.Valid;
    hide Space.KernelShared;
    hide Space.Lookup;
    forall q: nat, w: nat | q < |roots| && IsUser(w)
      ensures t.Lookup(roots[q], w) == Word(pt[(p, v) := e], (q, w))
    {
      assert q < p ==> roots[q] != roots[p];
      assert p < q ==> roots[p] != roots[q];
    }
  }

  // ---------------------------------------------------------------------------------
  // A page fault.

  // What do_page_fault writes: the new frame, and the area's flags without VM_ANON.
  function FaultWord(x: Vmas.Vma, f: nat): nat {
    Pte(f, BASE + (x.flags - x.flags % 2))
  }

  lemma FaultIsUser(c: Cow.State, p: nat, a: nat, kind: CowRuns.Kind, f: nat)
    requires Cow.Inv(c) && p < |c.procs| && CowRuns.Supplied(c, p, a, kind, f) && UserAreas(c)
    requires CowRuns.Faults(c, p, a, kind)
    ensures IsUser(CowRuns.PageOf(a)) && Vmas.Find(c.procs[p], a).Some?
    ensures FaultWord(Vmas.Find(c.procs[p], a).value, f) == Raw(CowRuns.FullEntry(Vmas.Find(c.procs[p], a).value, f))
  {
    var x := Vmas.Find(c.procs[p], a).value;
    FaultEntry(x, f);
    UserPage(CowRuns.PageOf(a));
  }

  // The tables an access needs are to be had: only a fault whose page has none asks for any.
  ghost predicate AccessHasTables(s: Space, roots: seq<nat>, c: Cow.State, p: nat, a: nat, kind: CowRuns.Kind)
    requires p < |c.procs| == |roots|
  {
    CowRuns.Faults(c, p, a, kind) ==> |s.pool| >= Missing(s, roots[p], CowRuns.PageOf(a))
  }

  ghost function AccessTables(
    s: Space, roots: seq<nat>, c: Cow.State, p: nat, a: nat, kind: CowRuns.Kind, f: nat): Space
    requires Cow.Inv(c) && p < |c.procs| && CowRuns.Supplied(c, p, a, kind, f) && UserAreas(c)
    requires Coupled(s, roots, c) && AccessHasTables(s, roots, c, p, a, kind)
  {
    if CowRuns.Faults(c, p, a, kind) then
      FaultIsUser(c, p, a, kind, f);
      MapPage(s, roots[p], CowRuns.PageOf(a), FaultWord(Vmas.Find(c.procs[p], a).value, f))
    else s
  }

  lemma AccessCouples(s: Space, roots: seq<nat>, c: Cow.State, p: nat, a: nat, kind: CowRuns.Kind, f: nat)
    requires Cow.Inv(c) && p < |c.procs| && CowRuns.Supplied(c, p, a, kind, f) && UserAreas(c)
    requires Coupled(s, roots, c) && AccessHasTables(s, roots, c, p, a, kind)
    ensures Coupled(AccessTables(s, roots, c, p, a, kind, f), roots, CowRuns.DoAccess(c, p, a, kind, f).0)
  {
    AccessShape(c, p, a, kind, f);
    if CowRuns.Faults(c, p, a, kind) {
      FaultIsUser(c, p, a, kind, f);
      var v, x := CowRuns.PageOf(a), Vmas.Find(c.procs[p], a).value;
      var t := MapPage(s, roots[p], v, FaultWord(x, f));
      MapPageStaysWithin(s, roots[p], v, FaultWord(x, f));
      MapPageKeepsKernel(s, roots[p], v, FaultWord(x, f));
      WordIsValid(CowRuns.FullEntry(x, f));
      MapPageIsDense(s, roots[p], v, FaultWord(x, f));
      RemapCouples(s, t, roots, c.pt, p, v, CowRuns.FullEntry(x, f));
    }
  }

  lemma WordIsValid(e: Cow.Pte)
    ensures V(Raw(e))
  {
    PermBits(e.r, e.w, e.x);
    EntryBits(e.frame, Perm(e.r, e.w, e.x));
  }

  // What an access does to the parts of the state the tables mirror.
  lemma AccessShape(c: Cow.State, p: nat, a: nat, kind: CowRuns.Kind, f: nat)
    requires Cow.Inv(c) && p < |c.procs| && CowRuns.Supplied(c, p, a, kind, f)
    ensures var d := CowRuns.DoAccess(c, p, a, kind, f).0;
      && d.procs == c.procs && d.kernel == c.kernel && |d.ram| == |c.ram|
      && (CowRuns.Faults(c, p, a, kind) ==>
            Vmas.Find(c.procs[p], a).Some?
            && d.pt == c.pt[(p, CowRuns.PageOf(a)) := CowRuns.FullEntry(Vmas.Find(c.procs[p], a).value, f)])
      && (!CowRuns.Faults(c, p, a, kind) ==> d.pt == c.pt)
  {
    var k := (p, CowRuns.PageOf(a));
    if CowRuns.Faults(c, p, a, kind) {
      CowRuns.FaultOk(c, p, a, kind, f);
      var t := CowRuns.Fault(c, p, a, kind, f).value;
      Cow.MappedIsCounted(t, k);
      FaultShape(c, p, a, kind, f);
      HitShape(t, k, a, kind);
    } else if CowRuns.Hits(c, k, kind) {
      Cow.MappedIsCounted(c, k);
      HitShape(c, k, a, kind);
    }
    hide CowRuns.Hit;
    hide Cow.Inv;
    hide CowRuns.FillPage;
  }

  lemma HitShape(c: Cow.State, k: Cow.Key, a: nat, kind: CowRuns.Kind)
    requires k in c.pt && c.pt[k].frame < |c.ram|
    ensures var d := CowRuns.Hit(c, k, a, kind).0;
      d.procs == c.procs && d.kernel == c.kernel && |d.ram| == |c.ram| && d.pt == c.pt
  {
  }

  lemma FaultShape(c: Cow.State, p: nat, a: nat, kind: CowRuns.Kind, f: nat)
    requires Cow.Inv(c) && p < |c.procs| && CowRuns.FreeFrame(c, f) && CowRuns.Faults(c, p, a, kind)
    requires CowRuns.Fault(c, p, a, kind, f).Some?
    ensures var d, x := CowRuns.Fault(c, p, a, kind, f).value, Vmas.Find(c.procs[p], a);
      && d.procs == c.procs && d.kernel == c.kernel && |d.ram| == |c.ram|
      && x.Some? && d.pt == c.pt[(p, CowRuns.PageOf(a)) := CowRuns.FullEntry(x.value, f)]
  {
    hide Cow.Inv;
    hide CowRuns.FillPage;
  }

  // ---------------------------------------------------------------------------------
  // fork.

  // Sharing page v needs the tables the child misses, if the parent has the page at all.
  ghost predicate ShareHasTables(s: Space, rp: nat, rc: nat, v: nat) {
    V(s.Lookup(rp, v)) ==> |s.pool| >= Missing(s, rc, v)
  }

  // proc.c:277-300: read the parent's entry, clear its write bit in place, map the child's.
  ghost function ShareTables(s: Space, rp: nat, rc: nat, v: nat): (t: Space)
    requires Able(s, rp, v) && Able(s, rc, v) && ShareHasTables(s, rp, rc, v)
    ensures Able(t, rp, v) && Able(t, rc, v) && t.roots == s.roots && t.kernel == s.kernel && Within(s, t)
  {
    var e := s.Lookup(rp, v);
    if !V(e) then s
    else
      MappedHasLeaf(s, rp, v);
      ClearParent(s, rp, v);
      RewriteKeepsTables(s, rp, v, ClearW(e), rc, v);
      var m := RewritePage(s, rp, v, ClearW(e));
      MapPageStaysWithin(m, rc, v, Pte(Ppn(e), ClearW(ClearW(e) % 256)));
      MapPageKeepsKernel(m, rc, v, Pte(Ppn(e), ClearW(ClearW(e) % 256)));
      MapPage(m, rc, v, Pte(Ppn(e), ClearW(ClearW(e) % 256)))
  }

  lemma MappedHasLeaf(s: Space, r: nat, v: nat)
    requires s.Valid() && r in s.roots && V(s.Lookup(r, v))
    ensures s.Leaf(r, v).Some?
  {
  }

  lemma ClearParent(s: Space, r: nat, v: nat)
    requires Able(s, r, v) && s.Leaf(r, v).Some?
    ensures RewritePage(s, r, v, ClearW(s.Lookup(r, v))).KernelShared()
  {
    LeafTyped(s, r, v);
    var m := RewritePage(s, r, v, ClearW(s.Lookup(r, v)));
    forall g, i: nat | g in s.roots
      ensures m.E(g, i) == s.E(g, i)
    {
    }
  }

  lemma ClearKeepsValid(e: nat)
    requires V(e)
    ensures V(ClearW(e)) && V(e % 256)
  {
  }

  lemma ClearIsSmall(e: nat)
    ensures ClearW(e % 256) < 256
  {
  }

  lemma ChildIsValid(e: nat, p: nat)
    requires V(e)
    ensures V(ClearW(e)) && V(Pte(p, ClearW(ClearW(e) % 256)))
  {
    ClearKeepsValid(e);
    ClearKeepsValid(ClearW(e));
    ClearKeepsValid(ClearW(e) % 256);
    ClearIsSmall(ClearW(e));
    hide ClearW;
    EntryBits(p, ClearW(ClearW(e) % 256));
  }

  // The two writes that share a page.
  lemma ShareIs(s: Space, rp: nat, rc: nat, v: nat)
    requires Able(s, rp, v) && Able(s, rc, v) && ShareHasTables(s, rp, rc, v) && V(s.Lookup(rp, v))
    ensures s.Leaf(rp, v).Some?
    ensures var e := s.Lookup(rp, v);
      var m := RewritePage(s, rp, v, ClearW(e));
      && Able(m, rc, v) && |m.pool| >= Missing(m, rc, v)
      && ShareTables(s, rp, rc, v) == MapPage(m, rc, v, Pte(Ppn(e), ClearW(ClearW(e) % 256)))
  {
    MappedHasLeaf(s, rp, v);
    ClearParent(s, rp, v);
    RewriteKeepsTables(s, rp, v, ClearW(s.Lookup(rp, v)), rc, v);
    hide ClearW;
    hide Pte;
    hide V;
    hide MapPage;
    hide Missing;
    hide Space.Lookup;
  }

  // The words of a page both share.
  lemma ShareWords(s: Space, roots: seq<nat>, c: Cow.State, p: nat, v: nat)
    requires Cow.Inv(c) && Translates(s, roots, c.pt) && |c.ram| <= PPN_LIMIT
    requires p < |roots| && IsUser(v) && (p, v) in c.pt
    ensures var e, w := s.Lookup(roots[p], v), Raw(c.pt[(p, v)].(w := false));
      V(e) && ClearW(e) == w && Pte(Ppn(e), ClearW(ClearW(e) % 256)) == w
  {
    Cow.MappedIsCounted(c, (p, v));
    RawFields(c.pt[(p, v)]);
    ForkEntries(c.pt[(p, v)]);
    WordIsValid(c.pt[(p, v)]);
  }

  lemma BothRemapped(s: Space, roots: seq<nat>, pt: map<Cow.Key, Cow.Pte>, p: nat, q: nat, v: nat, e: Cow.Pte)
    requires Rooted(s, roots) && Translates(s, roots, pt) && p < |roots| && q < |roots| && IsUser(v)
    requires s.Leaf(roots[p], v).Some? && RewritePage(s, roots[p], v, Raw(e)).KernelShared()
    requires var m := RewritePage(s, roots[p], v, Raw(e));
      Able(m, roots[q], v) && |m.pool| >= Missing(m, roots[q], v)
    ensures var t := MapPage(RewritePage(s, roots[p], v, Raw(e)), roots[q], v, Raw(e));
      Rooted(t, roots) && Translates(t, roots, pt[(p, v) := e][(q, v) := e])
  {
    var m := RewritePage(s, roots[p], v, Raw(e));
    MapPageKeepsKernel(m, roots[q], v, Raw(e));
    hide *;
    RemapCouples(s, m, roots, pt, p, v, e);
    RemapCouples(m, MapPage(m, roots[q], v, Raw(e)), roots, pt[(p, v) := e], q, v, e);
  }

  lemma ShareTranslates(s: Space, roots: seq<nat>, c: Cow.State, p: nat, q: nat, v: nat)
    requires Cow.Inv(c)
    requires Rooted(s, roots) && |roots| == |c.procs| && |c.ram| <= PPN_LIMIT && Translates(s, roots, c.pt)
    requires p < |c.procs| && q < |c.procs| && p != q && IsUser(v) && ShareHasTables(s, roots[p], roots[q], v)
    ensures var t := ShareTables(s, roots[p], roots[q], v);
      Rooted(t, roots) && Translates(t, roots, Cow.SharePage(c, p, q, v).pt)
  {
    if (p, v) in c.pt {
      var e := c.pt[(p, v)].(w := false);
      ShareWords(s, roots, c, p, v);
      Cow.MappedIsCounted(c, (p, v));
      assert Cow.SharePage(c, p, q, v).pt == c.pt[(p, v) := e][(q, v) := e];
      hide Cow.SharePage;
      hide Cow.Inv;
      hide Translates;
      hide Raw;
      hide V;
      hide ClearW;
      hide Pte;
      hide Missing;
      hide Space.Lookup;
      hide Space.Leaf;
      hide ShareTables;
      hide MapPage;
      hide RewritePage;
      ShareIs(s, roots[p], roots[q], v);
      ClearParent(s, roots[p], v);
      BothRemapped(s, roots, c.pt, p, q, v, e);
    } else {
      hide Cow.Inv;
    }
  }

  lemma ShareIsDense(s: Space, rp: nat, rc: nat, v: nat)
    requires Able(s, rp, v) && Able(s, rc, v) && ShareHasTables(s, rp, rc, v) && Dense(s)
    ensures Dense(ShareTables(s, rp, rc, v))
  {
    var e := s.Lookup(rp, v);
    if V(e) {
      ShareIs(s, rp, rc, v);
      var m := RewritePage(s, rp, v, ClearW(e));
      assert s.Valid() && m.Valid() && IsUser(v) && rp in s.roots && rc in m.roots;
      hide *;
      ChildIsValid(e, Ppn(e));
      RewriteIsDense(s, rp, v, ClearW(e));
      MapPageIsDense(m, rc, v, Pte(Ppn(e), ClearW(ClearW(e) % 256)));
    }
  }

  lemma ShareCouples(s: Space, roots: seq<nat>, c: Cow.State, p: nat, q: nat, v: nat)
    requires Cow.Inv(c) && Coupled(s, roots, c)
    requires p < |c.procs| && q < |c.procs| && p != q && IsUser(v) && ShareHasTables(s, roots[p], roots[q], v)
    ensures Coupled(ShareTables(s, roots[p], roots[q], v), roots, Cow.SharePage(c, p, q, v))
  {
    hide Cow.Inv;
    hide Dense;
    hide Translates;
    ShareTranslates(s, roots, c, p, q, v);
    ShareIsDense(s, roots[p], roots[q], v);
    hide Rooted;
    hide ShareTables;
  }

  ghost predicate Both(s: Space, rp: nat, rc: nat) {
    s.Valid() && s.KernelShared() && rp in s.roots && rc in s.roots && rp != s.kernel && rc != s.kernel
  }

  // At every page of the loop the tables the child misses are to be had.
  ghost predicate Stocked(s: Space, rp: nat, rc: nat, pages: seq<nat>)
    requires Both(s, rp, rc) && forall v :: v in pages ==> IsUser(v)
    decreases |pages|, 0
  {
    pages == [] ||
    var rest := pages[..|pages| - 1];
    Stocked(s, rp, rc, rest) && ShareHasTables(ForkTables(s, rp, rc, rest), rp, rc, pages[|pages| - 1])
  }

  ghost function ForkTables(s: Space, rp: nat, rc: nat, pages: seq<nat>): (t: Space)
    requires Both(s, rp, rc) && (forall v :: v in pages ==> IsUser(v)) && Stocked(s, rp, rc, pages)
    ensures Both(t, rp, rc)
    decreases |pages|, 1
  {
    if pages == [] then s
    else ShareTables(ForkTables(s, rp, rc, pages[..|pages| - 1]), rp, rc, pages[|pages| - 1])
  }

  // Two frames for every page visited are plenty.
  lemma {:induction false} PlentyIsStocked(s: Space, rp: nat, rc: nat, pages: seq<nat>)
    requires Both(s, rp, rc) && (forall v :: v in pages ==> IsUser(v)) && |s.pool| >= 2 * |pages|
    ensures Stocked(s, rp, rc, pages) && |ForkTables(s, rp, rc, pages).pool| + 2 * |pages| >= |s.pool|
    decreases |pages|
  {
    if pages != [] {
      var rest, v := pages[..|pages| - 1], pages[|pages| - 1];
      assert v in pages && forall w :: w in rest ==> w in pages;
      PlentyIsStocked(s, rp, rc, rest);
      ShareTakesTwo(ForkTables(s, rp, rc, rest), rp, rc, v);
    }
  }

  lemma ShareTakesTwo(s: Space, rp: nat, rc: nat, v: nat)
    requires Able(s, rp, v) && Able(s, rc, v) && ShareHasTables(s, rp, rc, v)
    ensures |ShareTables(s, rp, rc, v).pool| + 2 >= |s.pool|
  {
    var e := s.Lookup(rp, v);
    if V(e) {
      ShareIs(s, rp, rc, v);
      MapPageLinks(RewritePage(s, rp, v, ClearW(e)), rc, v, Pte(Ppn(e), ClearW(ClearW(e) % 256)));
      hide ClearW;
      hide Pte;
      hide MapPage;
      hide Space.Lookup;
    }
  }

  lemma {:induction false} ForkPagesCouple(
    s: Space, roots: seq<nat>, c: Cow.State, p: nat, q: nat, pages: seq<nat>)
    requires CowRuns.ForkReady(c, p, q, pages) && Coupled(s, roots, c)
    requires (forall v :: v in pages ==> IsUser(v)) && Stocked(s, roots[p], roots[q], pages)
    ensures Coupled(ForkTables(s, roots[p], roots[q], pages), roots, CowRuns.ForkPages(c, p, q, pages))
    decreases |pages|
  {
    if pages != [] {
      var rest, v := pages[..|pages| - 1], pages[|pages| - 1];
      assert v in pages && forall w :: w in rest ==> w in pages;
      CowRuns.ForkPagesOk(c, p, q, rest);
      ForkPagesCouple(s, roots, c, p, q, rest);
      ShareCouples(ForkTables(s, roots[p], roots[q], rest), roots, CowRuns.ForkPages(c, p, q, rest), p, q, v);
    }
  }

  // A new process, at boot or by fork, gets a copy of swapper_pg_dir: nothing mapped for the user yet.
  lemma NewProcessCouples(s: Space, roots: seq<nat>, c: Cow.State, areas: seq<Vmas.Vma>)
    requires Cow.Inv(c) && Coupled(s, roots, c) && s.pool != []
    ensures Coupled(CopyRoot(s), roots + [s.pool[0]], c.(procs := c.procs + [areas]))
  {
    CopyRootValid(s);
    CopyIsDense(s);
    hide Dense;
    var t, all := CopyRoot(s), roots + [s.pool[0]];
    assert s.pool[0] !in s.tables;
    forall q: nat, v: nat | q < |all| && IsUser(v)
      ensures t.Lookup(all[q], v) == Word(c.pt, (q, v))
    {
      if q == |roots| {
        FreshSpaceHasNoUserTables(s, v);
        assert (q, v) !in c.pt;
      }
    }
  }

  // Before the first process: swapper_pg_dir alone, cleared, in frames the kernel holds.
  lemma BootCouples(kernel: nat, pool: seq<nat>, c: Cow.State)
    requires c.procs == [] && c.pt == map[] && |c.ram| <= PPN_LIMIT
    requires kernel < PPN_LIMIT && (forall k :: 0 <= k < |pool| ==> pool[k] < PPN_LIMIT && pool[k] != kernel)
    requires forall j, k :: 0 <= j < k < |pool| ==> pool[j] != pool[k]
    requires kernel in c.kernel && forall g :: g in pool ==> g in c.kernel
    ensures Coupled(Space(map[kernel := EmptyTable()], pool, {kernel}, {}, {}, kernel), [], c)
  {
    BootSpaceIsValid(kernel, pool);
    BootIsDense(kernel, pool);
  }

  lemma ForkPagesAreUser(c: Cow.State, p: nat)
    requires UserAreas(c) && p < |c.procs|
    ensures forall v: nat :: v in CowRuns.PageList(c.procs[p]) ==> IsUser(v)
  {
    CowRuns.PageListCovers(c.procs[p]);
    forall v: nat | v in CowRuns.PageList(c.procs[p])
      ensures IsUser(v)
    {
      UserPage(v);
    }
  }

  // ---------------------------------------------------------------------------------
  // Whole runs.

  // The tables, the root of every process, and which of the frames the kernel will take are taken
  // for tables: by kalloc in create_mapping and by the copy of swapper_pg_dir.
  datatype Memory = Memory(space: Space, roots: seq<nat>, meant: set<nat>)

  ghost predicate Ready(m: Memory, c: Cow.State) {
    Cow.Inv(c) && UserAreas(c) && Coupled(m.space, m.roots, c)
  }

  // A fork takes the child's root, and then what its loop misses.
  ghost predicate ForkHasTables(m: Memory, c: Cow.State, p: nat)
    requires Ready(m, c) && p < |c.procs|
  {
    && m.space.pool != []
    && (NewProcessCouples(m.space, m.roots, c, Vmas.Reverse(c.procs[p]));
        ForkPagesAreUser(c, p);
        Stocked(CopyRoot(m.space), m.roots[p], m.space.pool[0], CowRuns.PageList(c.procs[p])))
  }

  // The tables this very step misses have been taken by the kernel before it.
  ghost predicate HasTables(m: Memory, c: Cow.State, op: CowRuns.Op)
    requires Ready(m, c) && CowTheorems.Enabled(c, op)
  {
    match op
    case Access(p, a, kind, _) => AccessHasTables(m.space, m.roots, c, p, a, kind)
    case Fork(p) => ForkHasTables(m, c, p)
    case KernelTake(_) => true
  }

  ghost function TakeForTable(s: Space, f: nat): Space { s.(pool := s.pool + [f]) }

  ghost function StepTables(m: Memory, c: Cow.State, op: CowRuns.Op): Memory
    requires Ready(m, c) && CowTheorems.Enabled(c, op) && HasTables(m, c, op)
  {
    match op
    case Access(p, a, kind, f) => m.(space := AccessTables(m.space, m.roots, c, p, a, kind, f))
    case Fork(p) =>
      NewProcessCouples(m.space, m.roots, c, Vmas.Reverse(c.procs[p]));
      ForkPagesAreUser(c, p);
      var root := m.space.pool[0];
      var t := ForkTables(CopyRoot(m.space), m.roots[p], root, CowRuns.PageList(c.procs[p]));
      m.(space := t, roots := m.roots + [root])
    case KernelTake(f) => if f in m.meant then m.(space := TakeForTable(m.space, f)) else m
  }

  lemma ForkCouples(m: Memory, c: Cow.State, p: nat)
    requires Ready(m, c) && CowTheorems.Enabled(c, CowRuns.Fork(p)) && ForkHasTables(m, c, p)
    ensures Ready(StepTables(m, c, CowRuns.Fork(p)), CowRuns.DoFork(c, p))
  {
    var root := m.space.pool[0];
    NewProcessCouples(m.space, m.roots, c, Vmas.Reverse(c.procs[p]));
    ForkPagesAreUser(c, p);
    CowRuns.AddChildReady(c, p);
    ForkPagesCouple(CopyRoot(m.space), m.roots + [root], CowRuns.AddChild(c, p), p, |c.procs|,
                    CowRuns.PageList(c.procs[p]));
    CowRuns.ForkShares(c, p);
    ChildAreas(c, p);
  }

  lemma ChildAreas(c: Cow.State, p: nat)
    requires UserAreas(c) && p < |c.procs|
    ensures UserAreas(CowRuns.AddChild(c, p))
  {
    forall x
      ensures x in Vmas.Reverse(c.procs[p]) <==> x in c.procs[p]
    {
      Vmas.ReverseMembers(c.procs[p], x);
    }
  }

  lemma PoolGrows(s: Space, f: nat)
    requires s.Valid() && s.KernelShared() && f < PPN_LIMIT && f !in s.tables && f !in s.pool
    ensures var t := TakeForTable(s, f);
      && t.Valid() && t.KernelShared() && (Dense(s) ==> Dense(t))
      && forall r: nat, v: nat :: t.Lookup(r, v) == s.Lookup(r, v)
  {
    var t := TakeForTable(s, f);
    assert forall g: nat, i: nat :: t.E(g, i) == s.E(g, i);
    assert forall g: nat, i: nat, h: nat, j: nat :: t.SameChild(g, i, h, j) <==> s.SameChild(g, i, h, j);
    assert forall r: nat, v: nat :: t.Leaf(r, v) == s.Leaf(r, v);
    if Dense(s) {
      forall r: nat, v: nat | r in t.roots && IsUser(v) && t.Leaf(r, v).Some?
        ensures Inhabited(t, r, v)
      {
        var w: nat :| IsUser(w) && SameRegion(v, w) && V(s.Lookup(r, w));
        assert V(t.Lookup(r, w));
      }
    }
  }

  // A frame taken for a table is new to the tables.
  lemma TakeCouples(m: Memory, c: Cow.State, f: nat)
    requires Ready(m, c) && CowRuns.FreeFrame(c, f)
    ensures Ready(StepTables(m, c, CowRuns.KernelTake(f)), Cow.TakeKernelFrame(c, f))
  {
    Cow.TakeKernelFrameInv(c, f);
    Cow.FreeMeansUnmapped(c, f);
    PoolGrows(m.space, f);
  }

  // Every step of the kernel keeps tables and model in step.
  lemma StepCouples(m: Memory, c: Cow.State, op: CowRuns.Op)
    requires Ready(m, c) && CowTheorems.Enabled(c, op) && HasTables(m, c, op)
    ensures Ready(StepTables(m, c, op), CowTheorems.Step(c, op).0)
  {
    CowTheorems.StepInv(c, op);
    match op
    case Access(p, a, kind, f) =>
      AccessCouples(m.space, m.roots, c, p, a, kind, f);
      AccessShape(c, p, a, kind, f);
    case Fork(p) => ForkCouples(m, c, p);
    case KernelTake(f) => TakeCouples(m, c, f);
  }

  // The kernel never finds the allocator empty when it takes a table: step by step, the frames it
  // took for tables suffice. A hit and a page the parent has not mapped ask for none.
  ghost predicate Provided(m: Memory, c: Cow.State, ops: seq<CowRuns.Op>)
    requires Ready(m, c) && CowTheorems.Legal(c, ops)
    decreases |ops|
  {
    ops == [] ||
    (HasTables(m, c, ops[0]) &&
     (StepCouples(m, c, ops[0]);
      Provided(StepTables(m, c, ops[0]), CowTheorems.Step(c, ops[0]).0, ops[1..])))
  }

  // The tables after a run. The contract is the theorem: at every point of every run the tables
  // hold exactly the entries of the model.
  ghost function RunTables(m: Memory, c: Cow.State, ops: seq<CowRuns.Op>): (t: Memory)
    requires Ready(m, c) && CowTheorems.Legal(c, ops) && Provided(m, c, ops)
    ensures Ready(t, CowTheorems.Run(c, ops))
    decreases |ops|
  {
    if ops == [] then m
    else
      StepCouples(m, c, ops[0]);
      RunTables(StepTables(m, c, ops[0]), CowTheorems.Step(c, ops[0]).0, ops[1..])
  }

  // What the hardware then makes of a user page of process p: the frame of the model's entry,
  // or a fault when there is none.
  lemma HardwareSeesModel(m: Memory, c: Cow.State, p: nat, v: nat)
    requires Ready(m, c) && p < |c.procs| && IsUser(v)
    ensures var k := (p, v);
      HardwareWalk(m.space, m.roots[p], v, 2)
        == if k in c.pt && (c.pt[k].r || c.pt[k].x) then Some((Raw(c.pt[k]), c.pt[k].frame)) else None
  {
    HardwareAgrees(m.space, m.roots[p], v);
    if (p, v) in c.pt {
      Cow.MappedIsCounted(c, (p, v));
      var x := CowRuns.OwnerOf(c, (p, v));
      RawFields(c.pt[(p, v)]);
      RawIsLeaf(c.pt[(p, v)]);
    }
  }

  // What the hardware asks of an entry it has walked to when an instruction in user mode uses the
  // page: bit 4 says user, bit 6 accessed, bit 7 dirty, bits 1 to 3 read, write, execute.
  predicate UserMay(e: nat, kind: CowRuns.Kind) {
    && e / 16 % 2 == 1 && e / 64 % 2 == 1
    && match kind
       case Load => e / 2 % 2 == 1
       case Fetch => e / 8 % 2 == 1
       case Store(_) => e / 4 % 2 == 1 && e / 128 % 2 == 1
  }

  // The bits of a user entry the model's permissions do not name.
  lemma RawBits(e: Cow.Pte)
    ensures Raw(e) / 16 % 2 == 1 && Raw(e) / 32 % 2 == 0 && Raw(e) / 64 % 2 == 1 && Raw(e) / 128 % 2 == 1
    ensures Raw(e) / 256 % 4 == 0
  {
    var p := Perm(e.r, e.w, e.x);
    Bits.DivModIs(Raw(e), 16, 64 * e.frame + p / 16, p % 16);
    Bits.DivModIs(Raw(e), 32, 32 * e.frame + p / 32, p % 32);
    Bits.DivModIs(Raw(e), 64, 16 * e.frame + p / 64, p % 64);
    Bits.DivModIs(Raw(e), 128, 8 * e.frame + p / 128, p % 128);
    Bits.DivModIs(Raw(e), 256, 4 * e.frame + p / 256, p % 256);
    Bits.DivModIs(64 * e.frame + p / 16, 2, 32 * e.frame + 6, 1);
    Bits.DivModIs(32 * e.frame + p / 32, 2, 16 * e.frame + 3, 0);
    Bits.DivModIs(16 * e.frame + p / 64, 2, 8 * e.frame + 1, 1);
    Bits.DivModIs(8 * e.frame + p / 128, 2, 4 * e.frame, 1);
    Bits.DivModIs(4 * e.frame + p / 256, 4, e.frame, 0);
  }

  // An access of process p to a user page, below 2^38, passes the hardware's walk and checks if and
  // only if the model says it hits; it then reaches the frame of the model. Entries are not global.
  lemma UserAccessPasses(m: Memory, c: Cow.State, p: nat, v: nat, kind: CowRuns.Kind)
    requires Ready(m, c) && p < |c.procs| && v < 0x400_0000
    ensures var w := HardwareWalk(m.space, m.roots[p], v, 2);
      && (w.Some? && UserMay(w.value.0, kind) <==> CowRuns.Hits(c, (p, v), kind))
      && (CowRuns.Hits(c, (p, v), kind) ==> w.value.1 == c.pt[(p, v)].frame)
      && (w.Some? ==> w.value.0 / 32 % 2 == 0)
  {
    assert IsUser(v);
    HardwareSeesModel(m, c, p, v);
    if (p, v) in c.pt {
      Cow.MappedIsCounted(c, (p, v));
      var x := CowRuns.OwnerOf(c, (p, v));
      RawFields(c.pt[(p, v)]);
      RawBits(c.pt[(p, v)]);
    }
    hide Ready;
    hide Raw;
    hide HardwareWalk;
  }

  // No user page ever translates to a frame that holds a table.
  lemma TablesAreNeverMapped(m: Memory, c: Cow.State, ops: seq<CowRuns.Op>, p: nat, v: nat)
    requires Ready(m, c) && CowTheorems.Legal(c, ops) && Provided(m, c, ops)
    requires p < |CowTheorems.Run(c, ops).procs| && IsUser(v)
    ensures var t := RunTables(m, c, ops);
      var w := HardwareWalk(t.space, t.roots[p], v, 2);
      w.Some? ==> w.value.1 !in t.space.tables && w.value.1 !in t.space.pool
  {
    HardwareSeesModel(RunTables(m, c, ops), CowTheorems.Run(c, ops), p, v);
  }
}

/** When do_fork reads through the null answer of find_pte (proc.c:277-278). */
module CowNull {
  import opened Basics
  import opened Sv39
  import opened Sv39Dense
  import opened CowTables
  import opened CowEntries
  import Vmas
  import Cow
  import CowRefinement
  import CowRuns
  import CowTheorems
  import CowExamples

  // Process p maps some page of v's 2 MiB region.
  ghost predicate Mapped(c: Cow.State, p: nat, v: nat) {
    exists w: nat :: IsUser(w) && SameRegion(v, w) && (p, w) in c.pt
  }

  lemma EntryIsThere(s: Space, roots: seq<nat>, c: Cow.State, p: nat, w: nat)
    requires Coupled(s, roots, c) && p < |c.procs| && IsUser(w)
    ensures V(s.Lookup(roots[p], w)) <==> (p, w) in c.pt
  {
    if (p, w) in c.pt { WordIsValid(c.pt[(p, w)]); }
    hide Dense;
    hide Raw;
    hide Space.Valid;
    hide Space.Lookup;
    hide IsUser;
  }

  // find_pte answers null for a user page exactly when the process maps nothing in its region.
  lemma NullIffUnmapped(s: Space, roots: seq<nat>, c: Cow.State, p: nat, v: nat)
    requires Coupled(s, roots, c) && p < |c.procs| && IsUser(v)
    ensures s.Leaf(roots[p], v).None? <==> !Mapped(c, p, v)
  {
    NullIffEmpty(s, roots[p], v);
    hide Coupled;
    hide Space.Leaf;
    hide Space.Lookup;
    hide V;
    hide IsUser;
    hide SameRegion;
    if Inhabited(s, roots[p], v) {
      var w: nat :| IsUser(w) && SameRegion(v, w) && V(s.Lookup(roots[p], w));
      EntryIsThere(s, roots, c, p, w);
    }
    if Mapped(c, p, v) {
      var w: nat :| IsUser(w) && SameRegion(v, w) && (p, w) in c.pt;
      EntryIsThere(s, roots, c, p, w);
    }
  }

  // The null answer of iteration i: the parent has no last-level table for the page.
  ghost predicate NullAt(m: Memory, c: Cow.State, p: nat, i: nat)
    requires Ready(m, c) && p < |c.procs| && i < |CowRuns.PageList(c.procs[p])|
  {
    m.space.Leaf(m.roots[p], CowRuns.PageList(c.procs[p])[i]).None?
  }

  // Some iteration dereferences null.
  ghost predicate ReadsNull(m: Memory, c: Cow.State, p: nat)
    requires Ready(m, c) && p < |c.procs|
  {
    exists i: nat :: i < |CowRuns.PageList(c.procs[p])| && NullAt(m, c, p, i)
  }

  // It does not matter that the question is put before the loop: sharing pages with the child
  // links no table of the parent.
  lemma ShareKeepsParent(s: Space, rp: nat, rc: nat, v: nat, w: nat)
    requires Able(s, rp, v) && Able(s, rc, v) && ShareHasTables(s, rp, rc, v) && rp != rc && IsUser(w)
    ensures ShareTables(s, rp, rc, v).Leaf(rp, w).None? <==> s.Leaf(rp, w).None?
  {
    var e := s.Lookup(rp, v);
    if V(e) {
      ShareIs(s, rp, rc, v);
      RewriteKeepsTables(s, rp, v, ClearW(e), rp, w);
      MapPageLinks(RewritePage(s, rp, v, ClearW(e)), rc, v, Pte(Ppn(e), ClearW(ClearW(e) % 256)));
      hide ClearW;
      hide Pte;
      hide MapPage;
      hide Space.Lookup;
      hide Space.Leaf;
    }
  }

  lemma {:induction false} ForkKeepsParent(s: Space, rp: nat, rc: nat, pages: seq<nat>, w: nat)
    requires Both(s, rp, rc) && (forall v :: v in pages ==> IsUser(v)) && Stocked(s, rp, rc, pages)
    requires rp != rc && IsUser(w)
    ensures ForkTables(s, rp, rc, pages).Leaf(rp, w).None? <==> s.Leaf(rp, w).None?
    decreases |pages|
  {
    if pages != [] {
      var rest, v := pages[..|pages| - 1], pages[|pages| - 1];
      ForkKeepsParent(s, rp, rc, rest, w);
      ShareKeepsParent(ForkTables(s, rp, rc, rest), rp, rc, v, w);
    }
  }

  // So iteration i finds null in the tables its predecessors leave exactly when NullAt says so.
  lemma NullWhenReached(m: Memory, c: Cow.State, p: nat, i: nat)
    requires Ready(m, c) && p < |c.procs| && m.space.pool != [] && i < |CowRuns.PageList(c.procs[p])|
    ensures var done, root := CowRuns.PageList(c.procs[p])[..i], m.space.pool[0];
      && Both(CopyRoot(m.space), m.roots[p], root) && (forall v :: v in done ==> IsUser(v))
      && (Stocked(CopyRoot(m.space), m.roots[p], root, done) ==>
            (NullAt(m, c, p, i) <==>
             ForkTables(CopyRoot(m.space), m.roots[p], root, done)
               .Leaf(m.roots[p], CowRuns.PageList(c.procs[p])[i]).None?))
  {
    var pages, root, s := CowRuns.PageList(c.procs[p]), m.space.pool[0], m.space;
    NewProcessCouples(s, m.roots, c, Vmas.Reverse(c.procs[p]));
    ForkPagesAreUser(c, p);
    CopyKeepsLeaf(s, m.roots[p], pages[i]);
    assert root !in s.tables;
    assert pages[i] in pages && forall v :: v in pages[..i] ==> v in pages;
    var t := CopyRoot(s);
    hide CopyRoot;
    hide Space.Leaf;
    if Stocked(t, m.roots[p], root, pages[..i]) {
      ForkKeepsParent(t, m.roots[p], root, pages[..i], pages[i]);
    }
  }

  // The exact condition: fork reads through null if and only if some page it visits lies in a
  // region in which the parent has not mapped anything yet.
  lemma ForkReadsNullIff(m: Memory, c: Cow.State, p: nat)
    requires Ready(m, c) && p < |c.procs|
    ensures ReadsNull(m, c, p) <==> exists v :: v in CowRuns.PageList(c.procs[p]) && !Mapped(c, p, v)
  {
    var pages := CowRuns.PageList(c.procs[p]);
    ForkPagesAreUser(c, p);
    forall i: nat | i < |pages|
      ensures NullAt(m, c, p, i) <==> !Mapped(c, p, pages[i])
    {
      assert pages[i] in pages;
      NullIffUnmapped(m.space, m.roots, c, p, pages[i]);
    }
    hide Ready;
    hide NullAt;
    hide Mapped;
    hide CowRuns.PageList;
    if v :| v in pages && !Mapped(c, p, v) {
      var i: nat :| i < |pages| && pages[i] == v;
      assert NullAt(m, c, p, i);
    }
    if i: nat :| i < |pages| && NullAt(m, c, p, i) {
      assert pages[i] in pages;
    }
  }

  // ---------------------------------------------------------------------------------
  // A concrete machine: boot, one process with one area on page 0.

  function TheArea(): Vmas.Vma { CowExamples.HALF_PAGE }

  // Seven frames, of which 2 to 6 are the kernel's: swapper_pg_dir and a pool for tables.
  function Machine(procs: seq<seq<Vmas.Vma>>): Cow.State {
    Cow.State([], seq(7, _ => CowRefinement.ZeroPage()), [0, 0, 1, 1, 1, 1, 1], {2, 3, 4, 5, 6}, procs, map[])
  }

  function Boot(): Space {
    Space(map[2 := EmptyTable()], [3, 4, 5, 6], {2}, {}, {}, 2)
  }

  ghost function OneProcess(): Memory {
    Memory(CopyRoot(Boot()), [3], {})
  }

  lemma OneProcessReady()
    ensures Ready(OneProcess(), Machine([[TheArea()]])) && |OneProcess().space.pool| == 3
  {
    MachineInv([]);
    MachineInv([[TheArea()]]);
    BootCouples(2, Boot().pool, Machine([]));
    assert UserAreas(Machine([[TheArea()]]));
    assert |CopyRoot(Boot()).pool| == 3 && Boot().pool[0] == 3 && Boot().pool != [];
    assert Machine([[TheArea()]]) == Machine([]).(procs := Machine([]).procs + [[TheArea()]]);
    assert [] + [3] == [3];
    hide Coupled;
    hide Cow.Inv;
    hide CopyRoot;
    hide UserAreas;
    NewProcessCouples(Boot(), [], Machine([]), [TheArea()]);
  }

  lemma MachineInv(procs: seq<seq<Vmas.Vma>>)
    requires procs == [] || procs == [[TheArea()]]
    ensures Cow.Inv(Machine(procs))
  {
    CowTheorems.StartInv(Machine(procs));
  }

  lemma PagesOfArea()
    ensures CowRuns.PageList([TheArea()]) == [0]
  {
    assert [TheArea()][..0] == [];
    assert CowRuns.AreaPages(TheArea()) == [0];
  }

  // Forking before the first access dereferences null.
  lemma ForkAtOnceReadsNull()
    ensures var m, c := OneProcess(), Machine([[TheArea()]]);
      Ready(m, c) && ReadsNull(m, c, 0)
  {
    OneProcessReady();
    PagesOfArea();
    hide Ready;
    hide OneProcess;
    assert 0 in CowRuns.PageList(Machine([[TheArea()]]).procs[0]);
    ForkReadsNullIff(OneProcess(), Machine([[TheArea()]]), 0);
  }
}

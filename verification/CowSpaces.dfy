/** The kernel's half of every address space: what setup_vm_final maps there is what every process
    sees, whatever faults and forks follow. */
module CowSpaces {
  import opened Basics
  import opened Sv39
  import opened Sv39Dense
  import opened CowTables
  import opened CowEntries
  import Vmas
  import Cow
  import CowRuns
  import CowTheorems

  // Every space of s is still there, and translates the kernel's pages as it did.
  ghost predicate KernelKept(s: Space, t: Space) {
    && t.kernel == s.kernel
    && forall r: nat, v: nat :: r in s.roots && v < PAGES && !IsUser(v) ==>
         r in t.roots && t.Lookup(r, v) == s.Lookup(r, v)
  }

  lemma KeptTwice(s: Space, t: Space, u: Space)
    requires KernelKept(s, t) && KernelKept(t, u)
    ensures KernelKept(s, u)
  {
    hide Space.Lookup;
    hide IsUser;
  }

  lemma UserRemapKeeps(s: Space, t: Space, r: nat, v: nat, e: nat)
    requires Remapped(s, t, r, v, e) && IsUser(v)
    ensures KernelKept(s, t)
  {
    hide Space.Lookup;
    hide Space.Valid;
  }

  lemma AccessKeeps(s: Space, roots: seq<nat>, c: Cow.State, p: nat, a: nat, kind: CowRuns.Kind, f: nat)
    requires Cow.Inv(c) && p < |c.procs| && CowRuns.Supplied(c, p, a, kind, f) && UserAreas(c)
    requires Coupled(s, roots, c) && AccessHasTables(s, roots, c, p, a, kind)
    ensures KernelKept(s, AccessTables(s, roots, c, p, a, kind, f))
  {
    if CowRuns.Faults(c, p, a, kind) {
      FaultIsUser(c, p, a, kind, f);
      var v, e := CowRuns.PageOf(a), FaultWord(Vmas.Find(c.procs[p], a).value, f);
      UserRemapKeeps(s, MapPage(s, roots[p], v, e), roots[p], v, e);
    }
  }

  lemma ShareKeeps(s: Space, rp: nat, rc: nat, v: nat)
    requires Able(s, rp, v) && Able(s, rc, v) && ShareHasTables(s, rp, rc, v)
    ensures KernelKept(s, ShareTables(s, rp, rc, v))
  {
    var e := s.Lookup(rp, v);
    if V(e) {
      ShareIs(s, rp, rc, v);
      var m, w := RewritePage(s, rp, v, ClearW(e)), Pte(Ppn(e), ClearW(ClearW(e) % 256));
      hide *;
      UserRemapKeeps(s, m, rp, v, ClearW(e));
      UserRemapKeeps(m, MapPage(m, rc, v, w), rc, v, w);
      KeptTwice(s, m, MapPage(m, rc, v, w));
    }
  }

  lemma {:induction false} ForkKeeps(s: Space, rp: nat, rc: nat, pages: seq<nat>)
    requires Both(s, rp, rc) && (forall v :: v in pages ==> IsUser(v)) && Stocked(s, rp, rc, pages)
    ensures KernelKept(s, ForkTables(s, rp, rc, pages))
    decreases |pages|
  {
    if pages != [] {
      var rest, v := pages[..|pages| - 1], pages[|pages| - 1];
      var t := ForkTables(s, rp, rc, rest);
      ForkKeeps(s, rp, rc, rest);
      ShareKeeps(t, rp, rc, v);
      KeptTwice(s, t, ShareTables(t, rp, rc, v));
    }
  }

  lemma CopyKeeps(s: Space)
    requires s.Valid() && s.KernelShared() && s.pool != []
    ensures KernelKept(s, CopyRoot(s))
  {
    CopyRootValid(s);
    assert s.pool[0] !in s.tables;
    hide Space.Lookup;
  }

  lemma StepKeeps(m: Memory, c: Cow.State, op: CowRuns.Op)
    requires Ready(m, c) && CowTheorems.Enabled(c, op) && HasTables(m, c, op)
    ensures KernelKept(m.space, StepTables(m, c, op).space)
  {
    match op
    case Access(p, a, kind, f) => AccessKeeps(m.space, m.roots, c, p, a, kind, f);
    case Fork(p) =>
      NewProcessCouples(m.space, m.roots, c, Vmas.Reverse(c.procs[p]));
      ForkPagesAreUser(c, p);
      CopyKeeps(m.space);
      var s, root, pages := CopyRoot(m.space), m.space.pool[0], CowRuns.PageList(c.procs[p]);
      ForkKeeps(s, m.roots[p], root, pages);
      KeptTwice(m.space, s, ForkTables(s, m.roots[p], root, pages));
    case KernelTake(f) =>
      if f in m.meant {
        Cow.FreeMeansUnmapped(c, f);
        PoolGrows(m.space, f);
      }
  }

  lemma {:induction false} RunKeeps(m: Memory, c: Cow.State, ops: seq<CowRuns.Op>)
    requires Ready(m, c) && CowTheorems.Legal(c, ops) && Provided(m, c, ops)
    ensures KernelKept(m.space, RunTables(m, c, ops).space)
    decreases |ops|
  {
    if ops != [] {
      StepCouples(m, c, ops[0]);
      StepKeeps(m, c, ops[0]);
      var t, d := StepTables(m, c, ops[0]), CowTheorems.Step(c, ops[0]).0;
      RunKeeps(t, d, ops[1..]);
      KeptTwice(m.space, t.space, RunTables(t, d, ops[1..]).space);
    }
  }

  // After any run every space, those of processes forked on the way included, translates a page
  // of the kernel's half as swapper_pg_dir did before the run.
  lemma KernelIsTheSameEverywhere(m: Memory, c: Cow.State, ops: seq<CowRuns.Op>, r: nat, v: nat)
    requires Ready(m, c) && CowTheorems.Legal(c, ops) && Provided(m, c, ops) && v < PAGES && !IsUser(v)
    ensures var t := RunTables(m, c, ops).space;
      r in t.roots ==> t.Lookup(r, v) == m.space.Lookup(m.space.kernel, v)
  {
    RunKeeps(m, c, ops);
    var t := RunTables(m, c, ops).space;
    assert KernelKept(m.space, t) && m.space.kernel in m.space.roots;
    if r in t.roots {
      SharedHalf(t, r, v);
    }
  }

  lemma SharedHalf(s: Space, r: nat, v: nat)
    requires s.KernelShared() && r in s.roots && v < PAGES && !IsUser(v)
    ensures s.Lookup(r, v) == s.Lookup(s.kernel, v)
  {
    assert s.E(r, Idx2(v)) == s.E(s.kernel, Idx2(v));
  }

  // ---------------------------------------------------------------------------------
  // Boot.

  lemma NoUserLeaf(s: Space)
    requires s.KernelShared() && s.roots == {s.kernel}
    ensures Dense(s)
  {
    forall r: nat, v: nat | r in s.roots && IsUser(v)
      ensures s.Leaf(r, v).None?
    {
    }
  }

  // The mappings setup_vm_final makes in swapper_pg_dir keep tables and model in step.
  lemma BootMapCouples(s: Space, c: Cow.State, v: nat, e: nat)
    requires Coupled(s, [], c) && s.roots == {s.kernel} && v < PAGES && !IsUser(v)
    requires |s.pool| >= Missing(s, s.kernel, v)
    ensures Coupled(MapPage(s, s.kernel, v, e), [], c) && MapPage(s, s.kernel, v, e).roots == {s.kernel}
    ensures MapPage(s, s.kernel, v, e).kernel == s.kernel
  {
    BootMapKeepsKernel(s, v, e);
    MapPageStaysWithin(s, s.kernel, v, e);
    NoUserLeaf(MapPage(s, s.kernel, v, e));
    hide MapPage;
    hide Dense;
  }

  // What setup_vm_final does, page after page.
  ghost predicate Bootable(s: Space, maps: seq<(nat, nat)>)
    requires s.Valid() && s.KernelShared() && s.roots == {s.kernel}
    decreases |maps|
  {
    maps == [] ||
    (var v, e := maps[0].0, maps[0].1;
     && v < PAGES && !IsUser(v) && |s.pool| >= Missing(s, s.kernel, v)
     && (BootMapKeepsKernel(s, v, e);
         Bootable(MapPage(s, s.kernel, v, e), maps[1..])))
  }

  ghost function BootMaps(s: Space, maps: seq<(nat, nat)>): Space
    requires s.Valid() && s.KernelShared() && s.roots == {s.kernel} && Bootable(s, maps)
    decreases |maps|
  {
    if maps == [] then s
    else
      BootMapKeepsKernel(s, maps[0].0, maps[0].1);
      BootMaps(MapPage(s, s.kernel, maps[0].0, maps[0].1), maps[1..])
  }

  lemma {:induction false} BootMapsCouple(s: Space, c: Cow.State, maps: seq<(nat, nat)>)
    requires Coupled(s, [], c) && s.roots == {s.kernel} && Bootable(s, maps)
    ensures Coupled(BootMaps(s, maps), [], c)
    decreases |maps|
  {
    if maps != [] {
      BootMapCouples(s, c, maps[0].0, maps[0].1);
      BootMapsCouple(MapPage(s, s.kernel, maps[0].0, maps[0].1), c, maps[1..]);
    }
  }
}

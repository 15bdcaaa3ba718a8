/** Three-level Sv39 page tables: create_mapping and find_pte of arch/riscv/kernel/vm.c, as a
    refinement of one flat map per address space. */
module Sv39 {
  import opened Basics
  import Bits

  const ENTRIES: nat := 512
  const PAGES: nat := 0x800_0000          // 2^27 virtual pages
  const PPN_LIMIT: nat := 0x1000_0000_0000 // PPN_MASK + 1

  // Entries are raw 64-bit values: flag bits 0 .. 9, frame number from bit 10 on.
  predicate V(e: nat) { e % 2 == 1 }
  predicate R(e: nat) { e / 2 % 2 == 1 }
  predicate W(e: nat) { e / 4 % 2 == 1 }
  predicate X(e: nat) { e / 8 % 2 == 1 }

  function Ppn(e: nat): nat { e / 1024 % PPN_LIMIT }

  // (ppn << 10) | perm, for a perm that fits below the frame number.
  function Pte(ppn: nat, perm: nat): nat { ppn * 1024 + perm }

  function Pointer(ppn: nat): nat { Pte(ppn, 1) }

  lemma PteFields(ppn: nat, perm: nat)
    requires ppn < PPN_LIMIT && perm < 1024
    ensures Ppn(Pte(ppn, perm)) == ppn && Pte(ppn, perm) % 1024 == perm
  {
  }

  function Idx2(v: nat): nat { v / 262144 % 512 }
  function Idx1(v: nat): nat { v / 512 % 512 }
  function Idx0(v: nat): nat { v % 512 }

  lemma PointerFields(ppn: nat)
    requires ppn < PPN_LIMIT
    ensures V(Pointer(ppn)) && Ppn(Pointer(ppn)) == ppn
  {
    EntryBits(ppn, 1);
  }

  // Bits below the frame number do not depend on it.
  lemma EntryBits(ppn: nat, perm: nat)
    requires perm < 1024
    ensures (ppn * 1024 + perm) % 2 == perm % 2
    ensures (ppn * 1024 + perm) / 2 % 2 == perm / 2 % 2
    ensures (ppn * 1024 + perm) / 4 % 2 == perm / 4 % 2
    ensures (ppn * 1024 + perm) / 8 % 2 == perm / 8 % 2
    ensures (ppn * 1024 + perm) / 1024 == ppn
  {
    var e := ppn * 1024 + perm;
    Bits.DivModIs(e, 1024, ppn, perm);
    Bits.DivModIs(e, 2, 512 * ppn + perm / 2, perm % 2);
    Bits.DivModIs(e, 4, 256 * ppn + perm / 4, perm % 4);
    Bits.DivModIs(e, 8, 128 * ppn + perm / 8, perm % 8);
    Bits.DivModIs(512 * ppn + perm / 2, 2, 256 * ppn + perm / 2 / 2, perm / 2 % 2);
    Bits.DivModIs(256 * ppn + perm / 4, 2, 128 * ppn + perm / 4 / 2, perm / 4 % 2);
    Bits.DivModIs(128 * ppn + perm / 8, 2, 64 * ppn + perm / 8 / 2, perm / 8 % 2);
  }

  // The frames that hold tables, the unused zeroed frames kalloc hands out next, and the role
  // of every table. kernel is swapper_pg_dir.
  datatype Space = Space(
    tables: map<nat, seq<nat>>, pool: seq<nat>,
    roots: set<nat>, pmds: set<nat>, ptes: set<nat>, kernel: nat)
  {
    // Entry i of the table in frame f.
    function E(f: nat, i: nat): nat {
      if f in tables && i < |tables[f]| then tables[f][i] else 0
    }

    // The last-level table that serves page v, when the walk reaches one.
    function Leaf(r: nat, v: nat): Option<nat> {
      if !V(E(r, Idx2(v))) then None
      else
        var m := Ppn(E(r, Idx2(v)));
        if !V(E(m, Idx1(v))) then None else Some(Ppn(E(m, Idx1(v))))
    }

    // The entry for page v, 0 when a table is missing.
    function Lookup(r: nat, v: nat): nat {
      match Leaf(r, v)
      case None => 0
      case Some(p) => E(p, Idx0(v))
    }

    ghost predicate Roles() {
      && tables.Keys == roots + pmds + ptes
      && roots !! pmds && roots !! ptes && pmds !! ptes
      && kernel in roots
      && (forall f :: f in tables ==> f < PPN_LIMIT && |tables[f]| == ENTRIES)
      && (forall k :: 0 <= k < |pool| ==> pool[k] < PPN_LIMIT && pool[k] !in tables)
      && (forall j, k :: 0 <= j < k < |pool| ==> pool[j] != pool[k])
    }

    // Upper tables point to tables of the next level.
    ghost predicate Typed() {
      && (forall r, i :: r in roots && V(E(r, i)) ==> Ppn(E(r, i)) in pmds && E(r, i) == Pointer(Ppn(E(r, i))))
      && (forall m, i :: m in pmds && V(E(m, i)) ==> Ppn(E(m, i)) in ptes && E(m, i) == Pointer(Ppn(E(m, i))))
    }

    ghost predicate SameChild(f: nat, i: nat, f': nat, i': nat) {
      V(E(f, i)) && V(E(f', i')) && Ppn(E(f, i)) == Ppn(E(f', i'))
    }

    // No table has two parents, except that roots share kernel subtables at the same index.
    ghost predicate Tree() {
      && (forall r, i, r', i' :: r in roots && r' in roots && SameChild(r, i, r', i') ==>
            i == i' && (r == r' || i >= 256))
      && (forall m, i, m', i' :: m in pmds && m' in pmds && SameChild(m, i, m', i') ==>
            i == i' && m == m')
    }

    ghost predicate Valid() {
      Roles() && Typed() && Tree()
    }

    // Every root holds the kernel's upper half; swapper_pg_dir itself maps no user page.
    ghost predicate KernelShared() {
      && (forall r, i :: r in roots && 256 <= i < ENTRIES ==> E(r, i) == E(kernel, i))
      && (forall i :: 0 <= i < 256 ==> !V(E(kernel, i)))
    }
  }

  function EmptyTable(): (t: seq<nat>)
    ensures |t| == ENTRIES && forall i :: 0 <= i < ENTRIES ==> t[i] == 0
  {
    seq(ENTRIES, _ => 0)
  }

  // A missing table at entry i of table f is taken from the pool, zeroed, and linked.
  function AddTable(s: Space, f: nat, i: nat, root: bool): Space
    requires s.pool != [] && f in s.tables && i < |s.tables[f]|
  {
    var q := s.pool[0];
    var row: seq<nat> := s.tables[f][i := Pointer(q)];
    var t := s.(tables := s.tables[f := row][q := EmptyTable()], pool := s.pool[1..]);
    if root then t.(pmds := t.pmds + {q}) else t.(ptes := t.ptes + {q})
  }

  lemma AddTableEntries(s: Space, f: nat, i: nat, root: bool, g: nat, j: nat)
    requires s.Roles() && s.pool != [] && f in s.tables && i < ENTRIES
    ensures var t := AddTable(s, f, i, root);
      t.E(g, j) == if g == f && j == i then Pointer(s.pool[0]) else s.E(g, j)
  {
  }

  lemma AddTableRoles(s: Space, f: nat, i: nat, root: bool)
    requires s.Roles() && s.pool != [] && i < ENTRIES && f in s.roots + s.pmds
    ensures AddTable(s, f, i, root).Roles()
  {
    var t := AddTable(s, f, i, root);
    forall j, k | 0 <= j < k < |t.pool|
      ensures t.pool[j] != t.pool[k]
    {
      assert t.pool[j] == s.pool[j + 1] && t.pool[k] == s.pool[k + 1];
    }
    assert t.tables.Keys == s.tables.Keys + {s.pool[0]};
  }

  // Table f of the given level has no table at entry i yet.
  ghost predicate Gap(s: Space, f: nat, i: nat, root: bool) {
    && s.Valid() && s.pool != [] && i < ENTRIES && !V(s.E(f, i))
    && f in if root then s.roots else s.pmds
  }

  // Adding an intermediate table keeps the tree.
  lemma AddTableKeepsValid(s: Space, f: nat, i: nat, root: bool)
    requires Gap(s, f, i, root)
    ensures AddTable(s, f, i, root).Valid()
  {
    AddTableRoles(s, f, i, root);
    AddTableTyped(s, f, i, root);
    AddTableTree(s, f, i, root);
  }

  lemma AddTableTyped(s: Space, f: nat, i: nat, root: bool)
    requires Gap(s, f, i, root)
    ensures AddTable(s, f, i, root).Typed()
  {
    var t := AddTable(s, f, i, root);
    PteFields(s.pool[0], 1);
    forall r: nat, j: nat | r in t.roots && V(t.E(r, j))
      ensures Ppn(t.E(r, j)) in t.pmds && t.E(r, j) == Pointer(Ppn(t.E(r, j)))
    {
      AddTableEntries(s, f, i, root, r, j);
    }
    forall m: nat, j: nat | m in t.pmds && V(t.E(m, j))
      ensures Ppn(t.E(m, j)) in t.ptes && t.E(m, j) == Pointer(Ppn(t.E(m, j)))
    {
      AddTableEntries(s, f, i, root, m, j);
    }
  }

  // The child of an entry in the new space: the new table, or the child it had.
  lemma ChildAfterAdd(s: Space, f: nat, i: nat, root: bool, g: nat, j: nat)
    requires s.Roles() && s.pool != [] && i < ENTRIES && f in s.tables
    ensures var t := AddTable(s, f, i, root);
      && (g == f && j == i ==> V(t.E(g, j)) && Ppn(t.E(g, j)) == s.pool[0])
      && (!(g == f && j == i) ==> t.E(g, j) == s.E(g, j))
  {
    hide V;
    hide Ppn;
    hide Pointer;
    AddTableEntries(s, f, i, root, g, j);
    PointerFields(s.pool[0]);
  }

  lemma OldChild(s: Space, g: nat, j: nat)
    requires s.Roles() && s.Typed() && s.pool != [] && V(s.E(g, j)) && g !in s.ptes
    ensures g != s.pool[0] && Ppn(s.E(g, j)) != s.pool[0]
  {
    assert s.pool[0] !in s.tables;
    assert g in s.tables && Ppn(s.E(g, j)) in s.tables;
  }

  lemma OldChildren(s: Space, g: nat, j: nat, h: nat, k: nat)
    requires s.Roles() && s.Typed() && s.pool != []
    ensures V(s.E(g, j)) && g !in s.ptes ==> g != s.pool[0] && Ppn(s.E(g, j)) != s.pool[0]
    ensures V(s.E(h, k)) && h !in s.ptes ==> h != s.pool[0] && Ppn(s.E(h, k)) != s.pool[0]
  {
    if V(s.E(g, j)) && g !in s.ptes { OldChild(s, g, j); }
    if V(s.E(h, k)) && h !in s.ptes { OldChild(s, h, k); }
  }

  lemma AddTableTree(s: Space, f: nat, i: nat, root: bool)
    requires Gap(s, f, i, root)
    ensures AddTable(s, f, i, root).Tree()
  {
    var t := AddTable(s, f, i, root);
    forall r: nat, j: nat, r': nat, j': nat | r in t.roots && r' in t.roots && t.SameChild(r, j, r', j')
      ensures j == j' && (r == r' || j >= 256)
    {
      ChildAfterAdd(s, f, i, root, r, j);
      ChildAfterAdd(s, f, i, root, r', j');
      OldChildren(s, r, j, r', j');
      assert !(r == f && j == i) && !(r' == f && j' == i) ==> s.SameChild(r, j, r', j');
    }
    forall m: nat, j: nat, m': nat, j': nat | m in t.pmds && m' in t.pmds && t.SameChild(m, j, m', j')
      ensures j == j' && m == m'
    {
      ChildAfterAdd(s, f, i, root, m, j);
      ChildAfterAdd(s, f, i, root, m', j');
      OldChildren(s, m, j, m', j');
      assert !(m == f && j == i) && !(m' == f && j' == i) ==> s.SameChild(m, j, m', j');
    }
  }

  // ... and changes no translation.
  lemma AddTableKeepsLookup(s: Space, f: nat, i: nat, root: bool, r: nat, v: nat)
    requires Gap(s, f, i, root) && r in s.roots
    ensures AddTable(s, f, i, root).Lookup(r, v) == s.Lookup(r, v)
  {
    var t := AddTable(s, f, i, root);
    var q := s.pool[0];
    PteFields(q, 1);
    AddTableEntries(s, f, i, root, r, Idx2(v));
    var m := Ppn(t.E(r, Idx2(v)));
    AddTableEntries(s, f, i, root, m, Idx1(v));
    var p := Ppn(t.E(m, Idx1(v)));
    AddTableEntries(s, f, i, root, p, Idx0(v));
  }

  // Page numbers are their three indices.
  lemma SameIndices(v: nat, w: nat)
    requires v < PAGES && w < PAGES
    requires Idx2(v) == Idx2(w) && Idx1(v) == Idx1(w) && Idx0(v) == Idx0(w)
    ensures v == w
  {
    FromIndices(v);
    FromIndices(w);
  }

  lemma FromIndices(v: nat)
    requires v < PAGES
    ensures v == Idx2(v) * 262144 + Idx1(v) * 512 + Idx0(v)
  {
  }

  // A last-level table serves one 2 MiB region of one address space, kernel regions aside.
  lemma LeafIsOwned(s: Space, r: nat, v: nat, r': nat, v': nat)
    requires s.Valid() && r in s.roots && r' in s.roots
    requires s.Leaf(r, v).Some? && s.Leaf(r, v) == s.Leaf(r', v')
    ensures Idx2(v) == Idx2(v') && Idx1(v) == Idx1(v') && (r == r' || Idx2(v) >= 256)
  {
    var m, m' := Ppn(s.E(r, Idx2(v))), Ppn(s.E(r', Idx2(v')));
    assert m in s.pmds && m' in s.pmds;
    assert s.SameChild(m, Idx1(v), m', Idx1(v'));
    assert s.SameChild(r, Idx2(v), r', Idx2(v'));
  }

  function SetEntry(s: Space, p: nat, i: nat, e: nat): Space
    requires p in s.tables && i < |s.tables[p]|
  {
    var row: seq<nat> := s.tables[p][i := e];
    s.(tables := s.tables[p := row])
  }

  lemma SetEntryKeepsValid(s: Space, p: nat, i: nat, e: nat)
    requires s.Valid() && p in s.ptes && i < ENTRIES
    ensures SetEntry(s, p, i, e).Valid()
  {
    var t := SetEntry(s, p, i, e);
    forall g: nat, j: nat | g !in s.ptes
      ensures t.E(g, j) == s.E(g, j)
    {
    }
    forall r, j, r', j' | r in t.roots && r' in t.roots && t.SameChild(r, j, r', j')
      ensures j == j' && (r == r' || j >= 256)
    {
      assert s.SameChild(r, j, r', j');
    }
    forall m, j, m', j' | m in t.pmds && m' in t.pmds && t.SameChild(m, j, m', j')
      ensures j == j' && m == m'
    {
      assert s.SameChild(m, j, m', j');
    }
  }

  // Writing the entry of page v changes the translation of v in that space only, provided v is
  // a user page or there is just one space yet.
  ghost predicate Private(s: Space, r: nat, v: nat) {
    Idx2(v) < 256 || s.roots == {r}
  }

  lemma SetEntryLookup(s: Space, r: nat, v: nat, e: nat, r': nat, v': nat)
    requires s.Valid() && r in s.roots && r' in s.roots && v < PAGES && v' < PAGES
    requires Private(s, r, v) && s.Leaf(r, v).Some?
    ensures s.Leaf(r, v).value in s.ptes
    ensures var p := s.Leaf(r, v).value;
      SetEntry(s, p, Idx0(v), e).Lookup(r', v') == if r' == r && v' == v then e else s.Lookup(r', v')
  {
    var p := s.Leaf(r, v).value;
    LeafTyped(s, r, v);
    var t := SetEntry(s, p, Idx0(v), e);
    assert t.Leaf(r', v') == s.Leaf(r', v') by {
      UpperEntriesKept(s, p, Idx0(v), e, r', v');
    }
    if s.Leaf(r', v') == Some(p) {
      LeafIsOwned(s, r, v, r', v');
      if Idx0(v) == Idx0(v') { SameIndices(v, v'); }
    }
  }

  lemma LeafTyped(s: Space, r: nat, v: nat)
    requires s.Valid() && r in s.roots && s.Leaf(r, v).Some?
    ensures s.Leaf(r, v).value in s.ptes
  {
    assert Ppn(s.E(r, Idx2(v))) in s.pmds;
  }

  lemma UpperEntriesKept(s: Space, p: nat, i: nat, e: nat, r: nat, v: nat)
    requires s.Valid() && p in s.ptes && i < ENTRIES && r in s.roots
    ensures SetEntry(s, p, i, e).Leaf(r, v) == s.Leaf(r, v)
  {
    if V(s.E(r, Idx2(v))) {
      assert Ppn(s.E(r, Idx2(v))) in s.pmds;
    }
  }

  // ---------------------------------------------------------------------------------
  // Mapping one page, as the body of the loop in create_mapping does it.

  function WithPmd(s: Space, r: nat, v: nat): Space
    requires r in s.tables && |s.tables[r]| == ENTRIES && (!V(s.E(r, Idx2(v))) ==> s.pool != [])
  {
    if V(s.E(r, Idx2(v))) then s else AddTable(s, r, Idx2(v), true)
  }

  function WithPte(s: Space, m: nat, v: nat): Space
    requires m in s.tables && |s.tables[m]| == ENTRIES && (!V(s.E(m, Idx1(v))) ==> s.pool != [])
  {
    if V(s.E(m, Idx1(v))) then s else AddTable(s, m, Idx1(v), false)
  }

  // Two spaces translate alike, and neither gained or lost a root.
  ghost predicate SameView(s: Space, t: Space) {
    && t.Valid() && t.roots == s.roots && t.kernel == s.kernel
    && forall r: nat, v: nat :: r in s.roots ==> t.Lookup(r, v) == s.Lookup(r, v)
  }

  lemma WithPmdRefines(s: Space, r: nat, v: nat)
    requires s.Valid() && r in s.roots && (!V(s.E(r, Idx2(v))) ==> s.pool != [])
    ensures var t := WithPmd(s, r, v);
      && SameView(s, t) && V(t.E(r, Idx2(v))) && Ppn(t.E(r, Idx2(v))) in t.pmds
      && Ppn(t.E(r, Idx2(v))) == if V(s.E(r, Idx2(v))) then Ppn(s.E(r, Idx2(v))) else s.pool[0]
  {
    if !V(s.E(r, Idx2(v))) {
      AddTableKeepsValid(s, r, Idx2(v), true);
      ChildAfterAdd(s, r, Idx2(v), true, r, Idx2(v));
      forall r': nat, v': nat | r' in s.roots
        ensures AddTable(s, r, Idx2(v), true).Lookup(r', v') == s.Lookup(r', v')
      {
        AddTableKeepsLookup(s, r, Idx2(v), true, r', v');
      }
    }
  }

  lemma WithPteRefines(s: Space, r: nat, v: nat)
    requires s.Valid() && r in s.roots && V(s.E(r, Idx2(v))) && Ppn(s.E(r, Idx2(v))) in s.pmds
    requires !V(s.E(Ppn(s.E(r, Idx2(v))), Idx1(v))) ==> s.pool != []
    ensures var m := Ppn(s.E(r, Idx2(v)));
      var t := WithPte(s, m, v);
      && SameView(s, t)
      && t.Leaf(r, v) == Some(if V(s.E(m, Idx1(v))) then Ppn(s.E(m, Idx1(v))) else s.pool[0])
  {
    var m := Ppn(s.E(r, Idx2(v)));
    if !V(s.E(m, Idx1(v))) {
      AddTableKeepsValid(s, m, Idx1(v), false);
      ChildAfterAdd(s, m, Idx1(v), false, m, Idx1(v));
      ChildAfterAdd(s, m, Idx1(v), false, r, Idx2(v));
      forall r': nat, v': nat | r' in s.roots
        ensures AddTable(s, m, Idx1(v), false).Lookup(r', v') == s.Lookup(r', v')
      {
        AddTableKeepsLookup(s, m, Idx1(v), false, r', v');
      }
    }
  }

  // Exactly one translation changes.
  ghost predicate Remapped(s: Space, t: Space, r: nat, v: nat, e: nat) {
    && t.Valid() && t.roots == s.roots && t.kernel == s.kernel
    && forall r': nat, v': nat :: r' in s.roots && v' < PAGES ==>
      t.Lookup(r', v') == if r' == r && v' == v then e else s.Lookup(r', v')
  }

  lemma SetLeafRefines(s: Space, r: nat, v: nat, e: nat)
    requires s.Valid() && r in s.roots && v < PAGES && Private(s, r, v) && s.Leaf(r, v).Some?
    ensures s.Leaf(r, v).value in s.ptes
    ensures Remapped(s, SetEntry(s, s.Leaf(r, v).value, Idx0(v), e), r, v, e)
  {
    var p := s.Leaf(r, v).value;
    LeafTyped(s, r, v);
    SetEntryKeepsValid(s, p, Idx0(v), e);
    forall r': nat, v': nat | r' in s.roots && v' < PAGES
      ensures SetEntry(s, p, Idx0(v), e).Lookup(r', v') == if r' == r && v' == v then e else s.Lookup(r', v')
    {
      SetEntryLookup(s, r, v, e, r', v');
    }
  }

  // The page numbers and frame numbers the loop walks through, address wrap included.
  function Page(va: nat, k: nat): nat { (va / PGSIZE + k) % PAGES }
  function Frame(pa: nat, k: nat): nat { (pa / PGSIZE + k) % PPN_LIMIT }
  function PageCount(sz: nat): nat { (sz + PGSIZE - 1) / PGSIZE }

  // vpn[2], vpn[1], vpn[0] as the code extracts them.
  lemma VpnOf(va: nat)
    ensures va / 0x4000_0000 % 512 == Idx2(va / PGSIZE % PAGES)
    ensures va / 0x20_0000 % 512 == Idx1(va / PGSIZE % PAGES)
    ensures va / 0x1000 % 512 == Idx0(va / PGSIZE % PAGES)
  {
    var v := va / PGSIZE;
    assert va / 0x4000_0000 == v / 262144 && va / 0x20_0000 == v / 512;
    var q, w := v / PAGES, v % PAGES;
    assert v == 0x800_0000 * q + w;
    assert v / 262144 == 512 * q + w / 262144 && v / 512 == 262144 * q + w / 512;
  }

  lemma StepAddress(a: nat, k: nat, offset: nat)
    requires offset == 4096 * k
    ensures (a + offset) % WORD / PGSIZE % PAGES == Page(a, k)
    ensures (a + offset) % WORD / PGSIZE % PPN_LIMIT == Frame(a, k)
  {
    var x := a + PGSIZE * k;
    assert x / PGSIZE == a / PGSIZE + k;
    WrapKeepsPage(x);
  }

  lemma WrapKeepsPage(x: nat)
    ensures x % WORD / PGSIZE % PAGES == x / PGSIZE % PAGES
    ensures x % WORD / PGSIZE % PPN_LIMIT == x / PGSIZE % PPN_LIMIT
  {
    var q, y := x / WORD, x % WORD;
    var p, o := y / PGSIZE, y % PGSIZE;
    Bits.DivModIs(x, 4096, 0x10_0000_0000_0000 * q + p, o);
    Bits.DivModIs(x / PGSIZE, 0x800_0000, 0x200_0000 * q + p / 0x800_0000, p % 0x800_0000);
    Bits.DivModIs(x / PGSIZE, 0x1000_0000_0000, 0x100 * q + p / 0x1000_0000_0000, p % 0x1000_0000_0000);
  }

  lemma PagesDiffer(va: nat, j: nat, k: nat)
    requires j < k < j + PAGES
    ensures Page(va, j) != Page(va, k)
  {
  }

  lemma RewriteKeepsTables(s: Space, r: nat, v: nat, e: nat, r': nat, w: nat)
    requires s.Valid() && r in s.roots && v < PAGES && Private(s, r, v) && s.Leaf(r, v).Some? && r' in s.roots
    ensures RewritePage(s, r, v, e).Leaf(r', w) == s.Leaf(r', w)
    ensures Missing(RewritePage(s, r, v, e), r', w) == Missing(s, r', w)
  {
    LeafTyped(s, r, v);
    UpperEntriesKept(s, s.Leaf(r, v).value, Idx0(v), e, r', w);
  }

  // What a write through the slot find_pte returns does, as fork does it: it changes the page's own
  // translation and no other, in this space and, for a user page, in all.
  lemma SlotIsThePages(s: Space, r: nat, va: nat, e: nat)
    requires s.Valid() && r in s.roots && s.Leaf(r, va / PGSIZE % PAGES).Some?
    requires Private(s, r, va / PGSIZE % PAGES)
    ensures s.Leaf(r, va / PGSIZE % PAGES).value in s.tables
    ensures Remapped(s, SetEntry(s, s.Leaf(r, va / PGSIZE % PAGES).value, va / 4096 % 512, e),
                     r, va / PGSIZE % PAGES, e)
  {
    VpnOf(va);
    SetLeafRefines(s, r, va / PGSIZE % PAGES, e);
  }

  // Overwriting the entry of a page whose tables exist.
  ghost function RewritePage(s: Space, r: nat, v: nat, e: nat): (t: Space)
    requires s.Valid() && r in s.roots && v < PAGES && Private(s, r, v) && s.Leaf(r, v).Some?
    ensures Remapped(s, t, r, v, e) && t.pool == s.pool && t.tables.Keys == s.tables.Keys
  {
    SetLeafRefines(s, r, v, e);
    SetEntry(s, s.Leaf(r, v).value, Idx0(v), e)
  }

  // ---------------------------------------------------------------------------------
  // How many tables a mapping needs.

  // The tables missing on the way to page v.
  function Missing(s: Space, r: nat, v: nat): nat {
    if !V(s.E(r, Idx2(v))) then 2
    else if s.Leaf(r, v).None? then 1
    else 0
  }

  // Pages served by the same last-level table.
  predicate SameRegion(v: nat, w: nat) {
    Idx2(v) == Idx2(w) && Idx1(v) == Idx1(w)
  }

  // Mapping one page.
  ghost function MapPage(s: Space, r: nat, v: nat, e: nat): (t: Space)
    requires s.Valid() && r in s.roots && |s.pool| >= Missing(s, r, v) && v < PAGES && Private(s, r, v)
    ensures Remapped(s, t, r, v, e)
  {
    WithPmdRefines(s, r, v);
    var s1 := WithPmd(s, r, v);
    FreshPmdIsEmpty(s, r, v);
    WithPteRefines(s1, r, v);
    var s2 := WithPte(s1, Ppn(s1.E(r, Idx2(v))), v);
    SetLeafRefines(s2, r, v, e);
    SetEntry(s2, s2.Leaf(r, v).value, Idx0(v), e)
  }

  // One table is left for the last level when it is missing.
  lemma FreshPmdIsEmpty(s: Space, r: nat, v: nat)
    requires s.Valid() && r in s.roots && |s.pool| >= Missing(s, r, v)
    ensures var t := WithPmd(s, r, v);
      !V(t.E(Ppn(t.E(r, Idx2(v))), Idx1(v))) ==> t.pool != []
  {
  }

  // What a mapping does to the tables: those it needs leave the pool, and nothing else is linked.
  ghost predicate Linked(s: Space, t: Space, r: nat, v: nat) {
    && |t.pool| + Missing(s, r, v) == |s.pool|
    && (forall w: nat :: V(t.E(r, Idx2(w))) <==> V(s.E(r, Idx2(w))) || Idx2(w) == Idx2(v))
    && (forall r': nat, w: nat :: r' in s.roots && (r' == r || Idx2(w) < 256) ==>
          (t.Leaf(r', w).Some? <==> s.Leaf(r', w).Some? || (r' == r && SameRegion(v, w))))
  }

  lemma AddPmdLeaf(s: Space, f: nat, i: nat, r: nat, w: nat)
    requires Gap(s, f, i, true) && r in s.roots
    ensures AddTable(s, f, i, true).Leaf(r, w) == s.Leaf(r, w)
  {
    var t := AddTable(s, f, i, true);
    PteFields(s.pool[0], 1);
    AddTableEntries(s, f, i, true, r, Idx2(w));
    AddTableEntries(s, f, i, true, Ppn(t.E(r, Idx2(w))), Idx1(w));
    if V(s.E(r, Idx2(w))) { OldChild(s, r, Idx2(w)); }
  }

  lemma AddPteLeaf(s: Space, m: nat, i: nat, r: nat, w: nat)
    requires Gap(s, m, i, false) && r in s.roots
    ensures AddTable(s, m, i, false).Leaf(r, w).Some?
       <==> s.Leaf(r, w).Some? || (V(s.E(r, Idx2(w))) && Ppn(s.E(r, Idx2(w))) == m && Idx1(w) == i)
  {
    var t := AddTable(s, m, i, false);
    PointerFields(s.pool[0]);
    hide V;
    hide Ppn;
    hide Pointer;
    hide Space.Tree;
    hide Space.Typed;
    AddTableEntries(s, m, i, false, r, Idx2(w));
    assert t.E(r, Idx2(w)) == s.E(r, Idx2(w));
    AddTableEntries(s, m, i, false, Ppn(t.E(r, Idx2(w))), Idx1(w));
    hide AddTable;
    hide Space.E;
  }

  // A user region's middle table belongs to one root.
  lemma OneParent(s: Space, r: nat, v: nat, r': nat, w: nat)
    requires s.Valid() && r in s.roots && r' in s.roots && V(s.E(r, Idx2(v))) && V(s.E(r', Idx2(w)))
    requires Ppn(s.E(r, Idx2(v))) == Ppn(s.E(r', Idx2(w)))
    ensures Idx2(v) == Idx2(w) && (r == r' || Idx2(w) >= 256)
  {
    assert s.SameChild(r, Idx2(v), r', Idx2(w));
  }

  lemma LinkedEntry(s: Space, f: nat, i: nat, j: nat)
    requires s.Roles() && s.pool != [] && f in s.tables && i < ENTRIES
    ensures V(AddTable(s, f, i, true).E(f, j)) <==> V(s.E(f, j)) || j == i
  {
    PointerFields(s.pool[0]);
    hide V;
    hide Pointer;
    AddTableEntries(s, f, i, true, f, j);
    hide AddTable;
  }

  lemma PmdLinks(s: Space, r: nat, v: nat)
    requires s.Valid() && r in s.roots && (!V(s.E(r, Idx2(v))) ==> s.pool != [])
    ensures var t := WithPmd(s, r, v);
      && |t.pool| + (if V(s.E(r, Idx2(v))) then 0 else 1) == |s.pool|
      && (forall w: nat :: V(t.E(r, Idx2(w))) <==> V(s.E(r, Idx2(w))) || Idx2(w) == Idx2(v))
      && forall r': nat, w: nat :: r' in s.roots ==> t.Leaf(r', w) == s.Leaf(r', w)
  {
    if !V(s.E(r, Idx2(v))) {
      var t := WithPmd(s, r, v);
      hide Space.Leaf;
      hide Space.Tree;
      hide Space.Typed;
      forall w: nat
        ensures V(t.E(r, Idx2(w))) <==> V(s.E(r, Idx2(w))) || Idx2(w) == Idx2(v)
      {
        LinkedEntry(s, r, Idx2(v), Idx2(w));
      }
      forall r': nat, w: nat | r' in s.roots
        ensures t.Leaf(r', w) == s.Leaf(r', w)
      {
        AddPmdLeaf(s, r, Idx2(v), r', w);
      }
    }
  }

  lemma PteLinks(s: Space, r: nat, v: nat)
    requires s.Valid() && r in s.roots && V(s.E(r, Idx2(v))) && |s.pool| >= Missing(s, r, v)
    ensures Ppn(s.E(r, Idx2(v))) in s.pmds
    ensures var t := WithPte(s, Ppn(s.E(r, Idx2(v))), v);
      && |t.pool| + Missing(s, r, v) == |s.pool|
      && (forall w: nat :: V(t.E(r, Idx2(w))) <==> V(s.E(r, Idx2(w))))
      && (forall r': nat, w: nat :: r' in s.roots && (r' == r || Idx2(w) < 256) ==>
            (t.Leaf(r', w).Some? <==> s.Leaf(r', w).Some? || (r' == r && SameRegion(v, w))))
  {
    var m := Ppn(s.E(r, Idx2(v)));
    var t := WithPte(s, m, v);
    if !V(s.E(m, Idx1(v))) {
      forall w: nat
        ensures V(t.E(r, Idx2(w))) <==> V(s.E(r, Idx2(w)))
      {
        AddTableEntries(s, m, Idx1(v), false, r, Idx2(w));
      }
      forall r': nat, w: nat | r' in s.roots && (r' == r || Idx2(w) < 256)
        ensures t.Leaf(r', w).Some? <==> s.Leaf(r', w).Some? || (r' == r && SameRegion(v, w))
      {
        AddPteLeaf(s, m, Idx1(v), r', w);
        if V(s.E(r', Idx2(w))) && Ppn(s.E(r', Idx2(w))) == m { OneParent(s, r, v, r', w); }
      }
    }
  }

  lemma MapPageLinks(s: Space, r: nat, v: nat, e: nat)
    requires s.Valid() && r in s.roots && |s.pool| >= Missing(s, r, v) && v < PAGES && Private(s, r, v)
    ensures Linked(s, MapPage(s, r, v, e), r, v)
  {
    WithPmdRefines(s, r, v);
    PmdLinks(s, r, v);
    var s1 := WithPmd(s, r, v);
    FreshPmdIsEmpty(s, r, v);
    WithPteRefines(s1, r, v);
    PteLinks(s1, r, v);
    var s2 := WithPte(s1, Ppn(s1.E(r, Idx2(v))), v);
    SetLeafRefines(s2, r, v, e);
    var t := SetEntry(s2, s2.Leaf(r, v).value, Idx0(v), e);
    forall w: nat
      ensures t.E(r, Idx2(w)) == s2.E(r, Idx2(w))
    {
    }
    forall r': nat, w: nat | r' in s.roots
      ensures t.Leaf(r', w) == s2.Leaf(r', w)
    {
      UpperEntriesKept(s2, s2.Leaf(r, v).value, Idx0(v), e, r', w);
    }
  }

  // One of the first k pages of the range goes through entry Idx2(w) of the root, or lies in w's region.
  ghost predicate PassedRoot(va: nat, k: nat, w: nat) {
    exists j: nat :: j < k && Idx2(Page(va, j)) == Idx2(w)
  }

  ghost predicate PassedRegion(va: nat, k: nat, w: nat) {
    exists j: nat :: j < k && SameRegion(Page(va, j), w)
  }

  // The tables missing on the first n pages of the range, each counted once.
  ghost function MissingOn(s: Space, root: nat, va: nat, n: nat): nat {
    if n == 0 then 0
    else
      var w := Page(va, n - 1);
      MissingOn(s, root, va, n - 1)
        + (if V(s.E(root, Idx2(w))) || PassedRoot(va, n - 1, w) then 0 else 1)
        + if s.Leaf(root, w).Some? || PassedRegion(va, n - 1, w) then 0 else 1
  }

  lemma {:induction false} MissingGrows(s: Space, root: nat, va: nat, m: nat, n: nat)
    requires m <= n
    ensures MissingOn(s, root, va, m) <= MissingOn(s, root, va, n)
    decreases n
  {
    if m < n { MissingGrows(s, root, va, m, n - 1); }
  }

  // After the first k pages: which tables are there, and how many were taken.
  ghost predicate Touched(s: Space, t: Space, root: nat, va: nat, k: nat) {
    && |t.pool| + MissingOn(s, root, va, k) == |s.pool|
    && (forall w: nat :: V(t.E(root, Idx2(w))) <==> V(s.E(root, Idx2(w))) || PassedRoot(va, k, w))
    && forall w: nat :: t.Leaf(root, w).Some? <==> s.Leaf(root, w).Some? || PassedRegion(va, k, w)
  }

  lemma NothingTouched(s: Space, root: nat, va: nat)
    ensures Touched(s, s, root, va, 0)
  {
  }

  lemma TouchedMissing(s: Space, t: Space, root: nat, va: nat, k: nat)
    requires Touched(s, t, root, va, k)
    ensures MissingOn(s, root, va, k + 1) == MissingOn(s, root, va, k) + Missing(t, root, Page(va, k))
    ensures |t.pool| >= Missing(t, root, Page(va, k)) <==> |s.pool| >= MissingOn(s, root, va, k + 1)
  {
    hide V;
    hide SameRegion;
    assert t.Leaf(root, Page(va, k)).Some? ==> V(t.E(root, Idx2(Page(va, k))));
  }

  lemma PassedMore(va: nat, k: nat, w: nat)
    ensures PassedRoot(va, k + 1, w) <==> PassedRoot(va, k, w) || Idx2(Page(va, k)) == Idx2(w)
    ensures PassedRegion(va, k + 1, w) <==> PassedRegion(va, k, w) || SameRegion(Page(va, k), w)
  {
    if PassedRoot(va, k, w) {
      var j: nat :| j < k && Idx2(Page(va, j)) == Idx2(w);
      assert j < k + 1;
    }
    if PassedRegion(va, k, w) {
      var j: nat :| j < k && SameRegion(Page(va, j), w);
      assert j < k + 1;
    }
  }

  lemma TouchedAt(s: Space, t: Space, u: Space, root: nat, va: nat, k: nat, w: nat)
    requires Touched(s, t, root, va, k) && root in t.roots && Linked(t, u, root, Page(va, k))
    ensures V(u.E(root, Idx2(w))) <==> V(s.E(root, Idx2(w))) || PassedRoot(va, k + 1, w)
    ensures u.Leaf(root, w).Some? <==> s.Leaf(root, w).Some? || PassedRegion(va, k + 1, w)
  {
    PassedMore(va, k, w);
    hide V;
    hide Space.E;
    hide Space.Leaf;
    hide Page;
    hide PassedRoot;
    hide PassedRegion;
    hide SameRegion;
  }

  lemma TouchedCounts(s: Space, t: Space, root: nat, va: nat, k: nat)
    requires Touched(s, t, root, va, k)
    ensures |s.pool| == |t.pool| + MissingOn(s, root, va, k)
  {
  }

  lemma LinkedCounts(s: Space, t: Space, r: nat, v: nat)
    requires Linked(s, t, r, v)
    ensures |s.pool| == |t.pool| + Missing(s, r, v)
  {
  }

  lemma TouchedGrows(s: Space, t: Space, root: nat, va: nat, k: nat, e: nat)
    requires Touched(s, t, root, va, k) && t.Valid() && root in t.roots && Private(t, root, Page(va, k))
    requires |t.pool| >= Missing(t, root, Page(va, k))
    ensures Touched(s, MapPage(t, root, Page(va, k), e), root, va, k + 1)
  {
    var v := Page(va, k);
    var u := MapPage(t, root, v, e);
    MapPageLinks(t, root, v, e);
    hide *;
    TouchedMissing(s, t, root, va, k);
    TouchedCounts(s, t, root, va, k);
    LinkedCounts(t, u, root, v);
    forall w: nat
      ensures V(u.E(root, Idx2(w))) <==> V(s.E(root, Idx2(w))) || PassedRoot(va, k + 1, w)
      ensures u.Leaf(root, w).Some? <==> s.Leaf(root, w).Some? || PassedRegion(va, k + 1, w)
    {
      TouchedAt(s, t, u, root, va, k, w);
    }
    TouchedFrom(s, u, root, va, k + 1);
  }

  lemma TouchedFrom(s: Space, t: Space, root: nat, va: nat, k: nat)
    requires |t.pool| + MissingOn(s, root, va, k) == |s.pool|
    requires forall w: nat :: V(t.E(root, Idx2(w))) <==> V(s.E(root, Idx2(w))) || PassedRoot(va, k, w)
    requires forall w: nat :: t.Leaf(root, w).Some? <==> s.Leaf(root, w).Some? || PassedRegion(va, k, w)
    ensures Touched(s, t, root, va, k)
  {
  }

  // ---------------------------------------------------------------------------------
  // create_mapping, in addresses.

  // Every page of the range may be written in root alone: user pages, or no other space yet.
  ghost predicate MayMap(s: Space, root: nat, va: nat, sz: nat) {
    forall off: nat :: off < sz && off % 4096 == 0 ==> Private(s, root, (va + off) / 4096 % 0x800_0000)
  }

  // Every 4096th byte of the range is mapped, to the byte as far from pa; a page without such a
  // byte, and every page of another space, translates as before.
  ghost predicate BytesMapped(s: Space, t: Space, root: nat, va: nat, pa: nat, sz: nat, perm: nat) {
    && t.Valid() && t.roots == s.roots && t.kernel == s.kernel
    && (forall off: nat :: off < sz && off % 4096 == 0 ==>
          t.Lookup(root, (va + off) / 4096 % 0x800_0000)
            == (pa + off) / 4096 % 0x1000_0000_0000 * 1024 + perm)
    && forall r: nat, v: nat :: r in s.roots && v < 0x800_0000 ==>
         (r == root && exists off: nat :: off < sz && off % 4096 == 0 && v == (va + off) / 4096 % 0x800_0000)
         || t.Lookup(r, v) == s.Lookup(r, v)
  }

  // ---------------------------------------------------------------------------------
  // The page tables in memory.

  class PageTables {
    var tables: map<nat, seq<nat>>
    var pool: seq<nat>
    ghost var roots: set<nat>
    ghost var pmds: set<nat>
    ghost var ptes: set<nat>
    ghost var kernel: nat

    ghost function S(): Space
      reads this
    {
      Space(tables, pool, roots, pmds, ptes, kernel)
    }

    // One level of the walk in create_mapping: follow the entry, or link a fresh table. When
    // kalloc fails the code has already written a bad but valid entry before it gives up.
    method NextTable(f: nat, i: nat, ghost root: bool) returns (next: Option<nat>)
      requires f in tables && i < |tables[f]|
      modifies this
      ensures V(old(S()).E(f, i)) ==> S() == old(S()) && next == Some(Ppn(old(S()).E(f, i)))
      ensures !V(old(S()).E(f, i)) && old(pool) != [] ==>
        S() == AddTable(old(S()), f, i, root) && next == Some(old(pool)[0])
      ensures !V(old(S()).E(f, i)) && old(pool) == [] ==>
        next == None && S() == SetEntry(old(S()), f, i, BAD_ENTRY)
    {
      if !V(tables[f][i]) {
        if pool == [] {
          var row: seq<nat> := tables[f][i := BAD_ENTRY];
          tables := tables[f := row];
          return None;
        }
        var q := pool[0];
        pool := pool[1..];
        var row: seq<nat> := tables[f][i := Pointer(q)];
        tables := tables[f := row][q := EmptyTable()];
        if root { pmds := pmds + {q}; } else { ptes := ptes + {q}; }
        next := Some(q);
      } else {
        next := Some(Ppn(tables[f][i]));
      }
    }

    // One iteration of the loop: it maps the page unless kalloc runs out on the way.
    method MapOne(root: nat, cur_va: nat, cur_pa: nat, perm: nat) returns (ok: bool)
      requires S().Valid() && root in roots && perm < 1024
      requires Private(S(), root, cur_va / PGSIZE % PAGES)
      modifies this
      ensures ok <==> |old(pool)| >= Missing(old(S()), root, cur_va / PGSIZE % PAGES)
      ensures ok ==>
        S() == MapPage(old(S()), root, cur_va / PGSIZE % PAGES, Pte(cur_pa / PGSIZE % PPN_LIMIT, perm))
    {
      VpnOf(cur_va);
      var vpn2, vpn1, vpn0 := cur_va / 0x4000_0000 % 512, cur_va / 0x20_0000 % 512, cur_va / 0x1000 % 512;
      ok := MapAt(root, vpn2, vpn1, vpn0, Pte(cur_pa / PGSIZE % PPN_LIMIT, perm), cur_va / PGSIZE % PAGES);
    }

    method MapAt(root: nat, vpn2: nat, vpn1: nat, vpn0: nat, e: nat, ghost v: nat) returns (ok: bool)
      requires S().Valid() && root in roots && v < PAGES && Private(S(), root, v)
      requires vpn2 == Idx2(v) && vpn1 == Idx1(v) && vpn0 == Idx0(v)
      modifies this
      ensures ok <==> |old(pool)| >= Missing(old(S()), root, v)
      ensures ok ==> S() == MapPage(old(S()), root, v, e)
    {
      hide Space.Typed;
      hide Space.Tree;
      hide Space.Lookup;
      hide Remapped;
      hide Ppn;
      hide V;
      ghost var s0 := S();
      assert root in tables && |tables[root]| == ENTRIES;
      var pmd := NextTable(root, vpn2, true);
      if pmd.None? { return false; }
      ghost var s1 := S();
      assert s1 == WithPmd(s0, root, v);
      WithPmdRefines(s0, root, v);
      PmdLinks(s0, root, v);
      assert pmd.value == Ppn(s1.E(root, Idx2(v)));
      assert pmd.value in tables && |tables[pmd.value]| == ENTRIES;
      var pte := NextTable(pmd.value, vpn1, false);
      if pte.None? { return false; }
      ghost var s2 := S();
      assert s2 == WithPte(s1, pmd.value, v);
      WithPteRefines(s1, root, v);
      assert pte == s2.Leaf(root, v);
      WriteLeaf(root, pte.value, vpn0, e, v);
      ok := true;
    }

    // create_mapping: the page of every 4096th byte of the range gets its frame, the last page too
    // when the range ends inside it, and nothing else moves. It gives up exactly when kalloc has
    // fewer frames left than the range misses tables.
    method CreateMapping(root: nat, va: nat, pa: nat, sz: nat, perm: nat) returns (ok: bool)
      requires S().Valid() && root in roots && perm < 1024
      requires sz + 4096 <= WORD && sz <= 0x80_0000_0000
      requires MayMap(S(), root, va, sz)
      modifies this
      ensures ok ==> BytesMapped(old(S()), S(), root, va, pa, sz, perm)
      ensures ok <==> |old(pool)| >= MissingOn(old(S()), root, va, (sz + 4095) / 4096)
    {
      hide MayMap;
      hide BytesMapped;
      hide Done;
      hide Private;
      hide Page;
      hide Frame;
      hide PageCount;
      hide Missing;
      hide MissingOn;
      hide MapPage;
      hide Space.Valid;
      PagesPrivate(S(), root, va, sz);
      GuardInPages(sz, 0);
      var offset := 0;
      ghost var k, s0 := 0, S();
      NothingDone(s0, root, va, pa, perm);
      while offset < sz
        invariant offset == 4096 * k && k <= PageCount(sz) && (offset < sz <==> k < PageCount(sz))
        invariant Done(s0, S(), root, va, pa, k, perm)
        decreases sz - offset
      {
        DoneIsValid(s0, S(), root, va, pa, k, perm);
        StepAddress(va, k, offset);
        StepAddress(pa, k, offset);
        GuardInPages(sz, k + 1);
        ghost var s := S();
        var done := MapOne(root, (va + offset) % WORD, (pa + offset) % WORD, perm);
        if !done {
          NotDone(s0, s, root, va, pa, k, perm, PageCount(sz));
          return false;
        }
        OneMoreDone(s0, s, root, va, pa, k, perm);
        offset := offset + 4096;
        k := k + 1;
      }
      AllDone(s0, S(), root, va, pa, sz, perm);
      ok := true;
    }

    // find_pte: the slot of the page's entry; null exactly when an intermediate table is missing.
    method FindPte(root: nat, va: nat) returns (slot: Option<(nat, nat)>)
      requires S().Valid() && root in roots
      ensures slot.None? <==> S().Leaf(root, va / PGSIZE % PAGES).None?
      ensures slot.None? ==> S().Lookup(root, va / PGSIZE % PAGES) == 0
      ensures slot.Some? ==>
        && slot.value.0 in ptes && slot.value.1 < ENTRIES
        && tables[slot.value.0][slot.value.1] == S().Lookup(root, va / PGSIZE % PAGES)
        && slot.value == (S().Leaf(root, va / PGSIZE % PAGES).value, va / 4096 % 512)
    {
      VpnOf(va);
      var vpn2, vpn1, vpn0 := va / 0x4000_0000 % 512, va / 0x20_0000 % 512, va / 0x1000 % 512;
      ghost var v := va / PGSIZE % PAGES;
      assert root in tables && |tables[root]| == ENTRIES;
      if !V(tables[root][vpn2]) { return None; }
      var pmd := Ppn(tables[root][vpn2]);
      assert pmd == Ppn(S().E(root, vpn2)) && pmd in pmds;
      if !V(tables[pmd][vpn1]) { return None; }
      var pte := Ppn(tables[pmd][vpn1]);
      assert S().Leaf(root, v) == Some(pte);
      LeafTyped(S(), root, v);
      slot := Some((pte, vpn0));
    }

    method WriteLeaf(ghost root: nat, p: nat, i: nat, e: nat, ghost v: nat)
      requires S().Valid() && root in roots && v < PAGES && Private(S(), root, v)
      requires S().Leaf(root, v) == Some(p) && i == Idx0(v)
      modifies this`tables
      ensures p in old(tables) && |old(tables)[p]| == ENTRIES && S() == SetEntry(old(S()), p, i, e)
      ensures Remapped(old(S()), S(), root, v, e)
    {
      SetLeafRefines(S(), root, v, e);
      var row: seq<nat> := tables[p][i := e];
      tables := tables[p := row];
    }
  }

  // The first n pages of the range translate to their frames, all other translations are as before.
  ghost predicate RangeMapped(s: Space, t: Space, root: nat, va: nat, pa: nat, n: nat, perm: nat) {
    && t.Valid() && t.roots == s.roots && t.kernel == s.kernel
    && (forall k: nat :: k < n ==> t.Lookup(root, Page(va, k)) == Pte(Frame(pa, k), perm))
    && forall r: nat, v: nat :: r in s.roots && v < PAGES && !(r == root && InRange(v, va, n)) ==>
      t.Lookup(r, v) == s.Lookup(r, v)
  }

  ghost predicate InRange(v: nat, va: nat, n: nat) {
    exists k: nat :: k < n && v == Page(va, k)
  }

  lemma RangeGrows(s: Space, t: Space, u: Space, root: nat, va: nat, pa: nat, n: nat, perm: nat)
    requires RangeMapped(s, t, root, va, pa, n, perm) && n < PAGES && root in s.roots
    requires Remapped(t, u, root, Page(va, n), Pte(Frame(pa, n), perm))
    ensures RangeMapped(s, u, root, va, pa, n + 1, perm)
  {
    forall k: nat | k < n + 1
      ensures u.Lookup(root, Page(va, k)) == Pte(Frame(pa, k), perm)
    {
      if k < n { PagesDiffer(va, k, n); }
    }
    forall r: nat, v: nat | r in s.roots && v < PAGES && !(r == root && InRange(v, va, n + 1))
      ensures u.Lookup(r, v) == s.Lookup(r, v)
    {
      InRangeGrows(v, va, n);
    }
  }

  lemma InRangeGrows(v: nat, va: nat, n: nat)
    ensures InRange(v, va, n + 1) <==> InRange(v, va, n) || v == Page(va, n)
  {
    if InRange(v, va, n) {
      var k: nat :| k < n && v == Page(va, k);
      assert k < n + 1;
    }
  }

  // What the loop has done after k pages.
  ghost predicate Done(s: Space, t: Space, root: nat, va: nat, pa: nat, k: nat, perm: nat) {
    RangeMapped(s, t, root, va, pa, k, perm) && Touched(s, t, root, va, k)
  }

  lemma NothingDone(s: Space, root: nat, va: nat, pa: nat, perm: nat)
    requires s.Valid()
    ensures Done(s, s, root, va, pa, 0, perm)
  {
    NothingTouched(s, root, va);
  }

  lemma DoneIsValid(s: Space, t: Space, root: nat, va: nat, pa: nat, k: nat, perm: nat)
    requires Done(s, t, root, va, pa, k, perm) && root in s.roots && Private(s, root, Page(va, k))
    ensures t.Valid() && root in t.roots && Private(t, root, Page(va, k))
  {
    hide Touched;
  }

  lemma OneMoreDone(s: Space, t: Space, root: nat, va: nat, pa: nat, k: nat, perm: nat)
    requires Done(s, t, root, va, pa, k, perm) && root in s.roots && k < PAGES && Private(s, root, Page(va, k))
    requires t.Valid() && root in t.roots && Private(t, root, Page(va, k)) && |t.pool| >= Missing(t, root, Page(va, k))
    ensures Done(s, MapPage(t, root, Page(va, k), Pte(Frame(pa, k), perm)), root, va, pa, k + 1, perm)
  {
    var e := Pte(Frame(pa, k), perm);
    RangeGrows(s, t, MapPage(t, root, Page(va, k), e), root, va, pa, k, perm);
    TouchedGrows(s, t, root, va, k, e);
    hide *;
    DoneIs(s, MapPage(t, root, Page(va, k), e), root, va, pa, k + 1, perm);
  }

  lemma DoneIs(s: Space, t: Space, root: nat, va: nat, pa: nat, k: nat, perm: nat)
    requires RangeMapped(s, t, root, va, pa, k, perm) && Touched(s, t, root, va, k)
    ensures Done(s, t, root, va, pa, k, perm)
  {
  }

  lemma NotDone(s: Space, t: Space, root: nat, va: nat, pa: nat, k: nat, perm: nat, n: nat)
    requires Done(s, t, root, va, pa, k, perm) && k < n && |t.pool| < Missing(t, root, Page(va, k))
    ensures |s.pool| < MissingOn(s, root, va, n)
  {
    TouchedMissing(s, t, root, va, k);
    MissingGrows(s, root, va, k + 1, n);
    hide MissingOn;
    hide Missing;
  }

  lemma AllDone(s: Space, t: Space, root: nat, va: nat, pa: nat, sz: nat, perm: nat)
    requires Done(s, t, root, va, pa, PageCount(sz), perm)
    ensures BytesMapped(s, t, root, va, pa, sz, perm)
    ensures |s.pool| >= MissingOn(s, root, va, PageCount(sz))
  {
    RangeInBytes(s, t, root, va, pa, sz, perm);
    TouchedCounts(s, t, root, va, PageCount(sz));
    hide *;
  }

  // The pages of the loop are those of every 4096th byte of the range.
  lemma PageOfByte(va: nat, sz: nat, off: nat)
    requires off < sz && off % 4096 == 0
    ensures off / 4096 < PageCount(sz)
    ensures (va + off) / 4096 % 0x800_0000 == Page(va, off / 4096)
    ensures (va + off) / 4096 % 0x1000_0000_0000 == Frame(va, off / 4096)
  {
    assert off == 4096 * (off / 4096);
    assert (va + off) / 4096 == va / 4096 + off / 4096;
  }

  lemma ByteOfPage(va: nat, sz: nat, k: nat)
    requires k < PageCount(sz)
    ensures 4096 * k < sz && (4096 * k) % 4096 == 0 && (4096 * k) / 4096 == k
  {
  }

  // The loop guard on byte offsets, in pages.
  lemma GuardInPages(sz: nat, k: nat)
    ensures 4096 * k < sz <==> k < PageCount(sz)
  {
  }

  lemma PagesPrivate(s: Space, root: nat, va: nat, sz: nat)
    requires MayMap(s, root, va, sz)
    ensures forall k :: 0 <= k < PageCount(sz) ==> Private(s, root, Page(va, k))
    ensures PageCount(sz) == (sz + 4095) / 4096 && (sz <= 0x80_0000_0000 ==> PageCount(sz) <= PAGES)
  {
    forall k | 0 <= k < PageCount(sz)
      ensures Private(s, root, Page(va, k))
    {
      ByteOfPage(va, sz, k);
      PageOfByte(va, sz, 4096 * k);
      assert Private(s, root, (va + 4096 * k) / 4096 % 0x800_0000);
    }
  }

  lemma RangeInBytes(s: Space, t: Space, root: nat, va: nat, pa: nat, sz: nat, perm: nat)
    requires RangeMapped(s, t, root, va, pa, PageCount(sz), perm)
    ensures BytesMapped(s, t, root, va, pa, sz, perm)
  {
    hide Space.Lookup;
    forall off: nat | off < sz && off % 4096 == 0
      ensures t.Lookup(root, (va + off) / 4096 % 0x800_0000) == Pte((pa + off) / 4096 % 0x1000_0000_0000, perm)
    {
      PageOfByte(va, sz, off);
      PageOfByte(pa, sz, off);
    }
    forall r: nat, v: nat | r in s.roots && v < 0x800_0000 && t.Lookup(r, v) != s.Lookup(r, v)
      ensures r == root && exists off: nat :: off < sz && off % 4096 == 0 && v == (va + off) / 4096 % 0x800_0000
    {
      var k: nat :| k < PageCount(sz) && v == Page(va, k);
      ByteOfPage(va, sz, k);
      PageOfByte(va, sz, 4096 * k);
    }
  }

  // (0 - PA2VA_OFFSET) as a frame number, with PERM_V.
  const BAD_ENTRY: nat := Pointer(0x208_0000)

  // kalloc's null becomes the physical address 0 - PA2VA_OFFSET, and that the frame of a valid entry.
  lemma BadEntryIs()
    ensures BAD_ENTRY == (0x1_0000_0000_0000_0000 - 0xffff_ffdf_8000_0000) / 4096 % 0x1000_0000_0000 * 1024 + 1
  {
  }

  // ---------------------------------------------------------------------------------
  // The hardware's view: the walk of section 4.3.2 of the RISC-V Privileged Architecture
  // manual, with superpages and reserved encodings, against the entry find_pte finds.

  ghost function HardwareWalk(s: Space, a: nat, v: nat, level: nat): Option<(nat, nat)>
    requires level <= 2
    decreases level
  {
    var e := s.E(a, (if level == 2 then v / 262144 else if level == 1 then v / 512 else v) % 512);
    var ppn := e / 1024 % 0x1000_0000_0000;
    var valid, readable, writable, executable := e % 2 == 1, e / 2 % 2 == 1, e / 4 % 2 == 1, e / 8 % 2 == 1;
    if !valid || (!readable && writable) then None
    else if readable || executable then
      // a leaf; above level 0 it is a superpage and must be aligned
      if level == 2 then (if ppn % 262144 == 0 then Some((e, ppn + v % 262144)) else None)
      else if level == 1 then (if ppn % 512 == 0 then Some((e, ppn + v % 512)) else None)
      else Some((e, ppn))
    else if level == 0 || e / 16 % 2 == 1 || e / 64 % 4 != 0 then None  // U, A and D are reserved in pointers
    else HardwareWalk(s, ppn, v, level - 1)
  }

  predicate IsLeaf(e: nat) {
    V(e) && (R(e) || X(e)) && (R(e) || !W(e))
  }

  lemma PointerIsNoLeaf(ppn: nat)
    ensures !R(Pointer(ppn)) && !W(Pointer(ppn)) && !X(Pointer(ppn))
    ensures Pointer(ppn) / 16 % 2 == 0 && Pointer(ppn) / 64 % 4 == 0
  {
    hide R;
    hide W;
    hide X;
    PointerLowBits(ppn);
    PointerHighBits(ppn);
  }

  lemma PointerLowBits(ppn: nat)
    ensures !R(Pointer(ppn)) && !W(Pointer(ppn)) && !X(Pointer(ppn))
  {
    EntryBits(ppn, 1);
  }

  lemma PointerHighBits(ppn: nat)
    ensures Pointer(ppn) / 16 % 2 == 0 && Pointer(ppn) / 64 % 4 == 0
  {
    Bits.DivModIs(Pointer(ppn), 16, 64 * ppn, 1);
    Bits.DivModIs(Pointer(ppn), 64, 16 * ppn, 1);
    Bits.DivModIs(64 * ppn, 2, 32 * ppn, 0);
    Bits.DivModIs(16 * ppn, 4, 4 * ppn, 0);
  }

  // The hardware translates a page exactly as the flat view says.
  lemma HardwareAgrees(s: Space, r: nat, v: nat)
    requires s.Valid() && r in s.roots
    ensures HardwareWalk(s, r, v, 2)
         == if IsLeaf(s.Lookup(r, v)) then Some((s.Lookup(r, v), Ppn(s.Lookup(r, v)))) else None
  {
    var e2 := s.E(r, Idx2(v));
    if V(e2) {
      PointerIsNoLeaf(Ppn(e2));
      var e1 := s.E(Ppn(e2), Idx1(v));
      assert Ppn(e2) in s.pmds;
      if V(e1) { PointerIsNoLeaf(Ppn(e1)); }
    }
  }

  // ---------------------------------------------------------------------------------
  // Whole runs: address spaces are created by copying swapper_pg_dir, user pages are mapped
  // and remapped. Each space behaves as a map of its own.

  datatype Op = NewSpace(q: nat) | MapUser(root: nat, page: nat, entry: nat)

  type Flat = map<nat, map<nat, nat>>

  ghost function At(flat: Flat, r: nat, v: nat): nat {
    if r in flat && v in flat[r] then flat[r][v] else 0
  }

  ghost predicate Refines(s: Space, flat: Flat) {
    && flat.Keys == s.roots
    && forall r: nat, v: nat :: r in s.roots && v < PAGES ==> s.Lookup(r, v) == At(flat, r, v)
  }

  // Pages below USER_END: the lower half of every root.
  predicate IsUser(v: nat) {
    v < PAGES && Idx2(v) < 256
  }

  // The tables op needs are there to be had.
  ghost predicate Legal(s: Space, op: Op) {
    match op
    case NewSpace(q) => s.pool != [] && q == s.pool[0]
    case MapUser(r, v, e) => r in s.roots && r != s.kernel && IsUser(v) && |s.pool| >= Missing(s, r, v)
  }

  ghost function CopyRoot(s: Space): Space
    requires s.pool != [] && s.kernel in s.tables
  {
    var q := s.pool[0];
    s.(tables := s.tables[q := s.tables[s.kernel]], pool := s.pool[1..], roots := s.roots + {q})
  }

  ghost function Step(s: Space, op: Op): Space
    requires s.Valid() && Legal(s, op)
  {
    match op
    case NewSpace(_) => CopyRoot(s)
    case MapUser(r, v, e) => MapPage(s, r, v, e)
  }

  ghost function FlatStep(flat: Flat, kernel: nat, op: Op): Flat
    requires kernel in flat && (op.MapUser? ==> op.root in flat)
  {
    match op
    case NewSpace(q) => flat[q := flat[kernel]]
    case MapUser(r, v, e) =>
      var m: map<nat, nat> := flat[r][v := e];
      flat[r := m]
  }

  lemma CopyRootValid(s: Space)
    requires s.Valid() && s.KernelShared() && s.pool != []
    ensures CopyRoot(s).Valid() && CopyRoot(s).KernelShared()
    ensures forall r: nat, v: nat :: r in CopyRoot(s).roots ==>
      CopyRoot(s).Lookup(r, v) == s.Lookup(if r == s.pool[0] then s.kernel else r, v)
  {
    var t, q := CopyRoot(s), s.pool[0];
    assert t.tables.Keys == s.tables.Keys + {q};
    forall g: nat, i: nat
      ensures t.E(g, i) == s.E(Origin(s, g), i)
    {
    }
    forall r, i, r', i' | r in t.roots && r' in t.roots && t.SameChild(r, i, r', i')
      ensures i == i' && (r == r' || i >= 256)
    {
      assert s.SameChild(Origin(s, r), i, Origin(s, r'), i');
    }
    forall m, i, m', i' | m in t.pmds && m' in t.pmds && t.SameChild(m, i, m', i')
      ensures i == i' && m == m'
    {
      assert s.SameChild(m, i, m', i');
    }
    forall r: nat, v: nat | r in t.roots
      ensures t.Lookup(r, v) == s.Lookup(Origin(s, r), v)
    {
      CopyKeepsLookup(s, r, v);
    }
  }

  ghost function Origin(s: Space, g: nat): nat
    requires s.pool != []
  {
    if g == s.pool[0] then s.kernel else g
  }

  lemma CopyKeepsLookup(s: Space, r: nat, v: nat)
    requires s.Valid() && s.pool != [] && r in CopyRoot(s).roots
    ensures CopyRoot(s).Lookup(r, v) == s.Lookup(Origin(s, r), v)
  {
    var o := Origin(s, r);
    assert CopyRoot(s).E(r, Idx2(v)) == s.E(o, Idx2(v));
    if V(s.E(o, Idx2(v))) {
      var m := Ppn(s.E(o, Idx2(v)));
      assert m in s.pmds;
      if V(s.E(m, Idx1(v))) {
        assert Ppn(s.E(m, Idx1(v))) in s.ptes;
      }
    }
  }

  // swapper_pg_dir before setup_vm_final maps anything.
  lemma BootSpaceIsValid(kernel: nat, pool: seq<nat>)
    requires kernel < PPN_LIMIT && (forall k :: 0 <= k < |pool| ==> pool[k] < PPN_LIMIT && pool[k] != kernel)
    requires forall j, k :: 0 <= j < k < |pool| ==> pool[j] != pool[k]
    ensures var s := Space(map[kernel := EmptyTable()], pool, {kernel}, {}, {}, kernel);
      s.Valid() && s.KernelShared()
  {
    var s := Space(map[kernel := EmptyTable()], pool, {kernel}, {}, {}, kernel);
    forall g: nat, i: nat
      ensures s.E(g, i) == 0
    {
    }
  }

  // A machine on which create_mapping gives up: no frame left, and the first page wants two tables.
  lemma NoFrameLeft()
    ensures var s := Space(map[0 := EmptyTable()], [], {0}, {}, {}, 0);
      s.Valid() && Private(s, 0, Page(0, 0)) && |s.pool| < MissingOn(s, 0, 0, 1) == 2
  {
    BootSpaceIsValid(0, []);
    var s := Space(map[0 := EmptyTable()], [], {0}, {}, {}, 0);
    assert s.E(0, 0) == 0 && !PassedRoot(0, 0, 0) && !PassedRegion(0, 0, 0);
    assert MissingOn(s, 0, 0, 0) == 0;
  }

  // A mapping changes one entry of one root, at most.
  lemma RootEntriesKept(s: Space, r: nat, v: nat, e: nat, g: nat, i: nat)
    requires s.Valid() && |s.pool| >= Missing(s, r, v) && r in s.roots && v < PAGES && Private(s, r, v)
    requires g in s.roots && !(g == r && i == Idx2(v))
    ensures MapPage(s, r, v, e).E(g, i) == s.E(g, i)
  {
    WithPmdRefines(s, r, v);
    var s1 := WithPmd(s, r, v);
    FreshPmdIsEmpty(s, r, v);
    var m := Ppn(s1.E(r, Idx2(v)));
    WithPteRefines(s1, r, v);
    SetLeafRefines(WithPte(s1, m, v), r, v, e);
    if !V(s.E(r, Idx2(v))) { AddTableEntries(s, r, Idx2(v), true, g, i); }
    if !V(s1.E(m, Idx1(v))) { AddTableEntries(s1, m, Idx1(v), false, g, i); }
  }

  // User mappings in a process never touch a root's kernel half, nor the entries of any other root.
  lemma MapPageKeepsKernel(s: Space, r: nat, v: nat, e: nat)
    requires s.Valid() && s.KernelShared() && |s.pool| >= Missing(s, r, v) && r in s.roots
    requires r != s.kernel && IsUser(v)
    ensures MapPage(s, r, v, e).KernelShared()
  {
    var t := MapPage(s, r, v, e);
    hide MapPage;
    hide Missing;
    hide V;
    forall g, i: nat | g in s.roots && !(g == r && i == Idx2(v))
      ensures t.E(g, i) == s.E(g, i)
    {
      RootEntriesKept(s, r, v, e, g, i);
    }
  }

  // Kernel mappings made at boot, before there is any other root, keep swapper_pg_dir free of user pages.
  lemma BootMapKeepsKernel(s: Space, v: nat, e: nat)
    requires s.Valid() && s.KernelShared() && |s.pool| >= Missing(s, s.kernel, v) && v < PAGES
    requires s.roots == {s.kernel} && !IsUser(v)
    ensures MapPage(s, s.kernel, v, e).KernelShared()
  {
    var t := MapPage(s, s.kernel, v, e);
    hide MapPage;
    hide Missing;
    hide V;
    forall i: nat | i != Idx2(v)
      ensures t.E(s.kernel, i) == s.E(s.kernel, i)
    {
      RootEntriesKept(s, s.kernel, v, e, s.kernel, i);
    }
  }

  lemma StepRefines(s: Space, flat: Flat, op: Op)
    requires s.Valid() && s.KernelShared() && Legal(s, op) && Refines(s, flat)
    ensures var t := Step(s, op);
      t.Valid() && t.KernelShared() && t.kernel == s.kernel && Refines(t, FlatStep(flat, s.kernel, op))
  {
    match op
    case NewSpace(q) => CopyRootValid(s);
    case MapUser(r, v, e) => MapPageKeepsKernel(s, r, v, e);
  }

  ghost predicate LegalRun(s: Space, ops: seq<Op>)
    requires s.Valid() && s.KernelShared()
    decreases |ops|
  {
    ops == [] || (Legal(s, ops[0]) && (StepKeeps(s, ops[0]); LegalRun(Step(s, ops[0]), ops[1..])))
  }

  lemma StepKeeps(s: Space, op: Op)
    requires s.Valid() && s.KernelShared() && Legal(s, op)
    ensures Step(s, op).Valid() && Step(s, op).KernelShared()
  {
    match op
    case NewSpace(q) => CopyRootValid(s);
    case MapUser(r, v, e) => MapPageKeepsKernel(s, r, v, e);
  }

  ghost function Run(s: Space, ops: seq<Op>): (t: Space)
    requires s.Valid() && s.KernelShared() && LegalRun(s, ops)
    ensures t.Valid() && t.KernelShared()
    decreases |ops|
  {
    if ops == [] then s
    else
      StepKeeps(s, ops[0]);
      Run(Step(s, ops[0]), ops[1..])
  }

  ghost predicate FlatLegal(flat: Flat, kernel: nat, ops: seq<Op>)
    decreases |ops|
  {
    kernel in flat && (ops == [] ||
      ((ops[0].MapUser? ==> ops[0].root in flat) && FlatLegal(FlatStep(flat, kernel, ops[0]), kernel, ops[1..])))
  }

  ghost function FlatRun(flat: Flat, kernel: nat, ops: seq<Op>): Flat
    requires FlatLegal(flat, kernel, ops)
    decreases |ops|
  {
    if ops == [] then flat else FlatRun(FlatStep(flat, kernel, ops[0]), kernel, ops[1..])
  }

  // The tables behave as independent flat maps over every run.
  lemma {:induction false} RunRefines(s: Space, flat: Flat, ops: seq<Op>)
    requires s.Valid() && s.KernelShared() && LegalRun(s, ops) && Refines(s, flat)
    ensures FlatLegal(flat, s.kernel, ops)
    ensures Refines(Run(s, ops), FlatRun(flat, s.kernel, ops))
    decreases |ops|
  {
    if ops != [] {
      StepRefines(s, flat, ops[0]);
      RunRefines(Step(s, ops[0]), FlatStep(flat, s.kernel, ops[0]), ops[1..]);
    }
  }

  ghost predicate Untouched(ops: seq<Op>, r: nat) {
    forall i :: 0 <= i < |ops| && ops[i].MapUser? ==> ops[i].root != r
  }

  // Address-space separation: mappings made in other spaces, and spaces created meanwhile,
  // change no translation of space r. The kernel half is the same everywhere, always.
  lemma {:induction false} SpacesAreSeparate(s: Space, ops: seq<Op>, r: nat, v: nat)
    requires s.Valid() && s.KernelShared() && LegalRun(s, ops) && r in s.roots && v < PAGES
    ensures r in Run(s, ops).roots
    ensures Untouched(ops, r) || Idx2(v) >= 256 ==> Run(s, ops).Lookup(r, v) == s.Lookup(r, v)
    ensures Idx2(v) >= 256 ==> Run(s, ops).Lookup(r, v) == s.Lookup(s.kernel, v)
    decreases |ops|
  {
    if ops != [] {
      StepKeeps(s, ops[0]);
      StepEffect(s, ops[0], r, v);
      assert Untouched(ops, r) ==> ops[0] in ops && Untouched(ops[1..], r);
      SpacesAreSeparate(Step(s, ops[0]), ops[1..], r, v);
    }
    if Idx2(v) >= 256 { assert s.E(r, Idx2(v)) == s.E(s.kernel, Idx2(v)); }
  }

  lemma StepEffect(s: Space, op: Op, r: nat, v: nat)
    requires s.Valid() && s.KernelShared() && Legal(s, op) && r in s.roots && v < PAGES
    ensures r in Step(s, op).roots && Step(s, op).kernel == s.kernel
    ensures (op.MapUser? && op.root == r && Idx2(v) < 256) || Step(s, op).Lookup(r, v) == s.Lookup(r, v)
  {
    match op
    case NewSpace(q) =>
      CopyRootValid(s);
      assert s.pool[0] !in s.tables;
    case MapUser(root, page, e) =>
  }

  // A space fresh from swapper_pg_dir has no user tables, so find_pte answers null for every
  // user page: the unchecked dereference in do_fork (proc.c:277-278) then has no entry to read.
  lemma FreshSpaceHasNoUserTables(s: Space, v: nat)
    requires s.Valid() && s.KernelShared() && s.pool != [] && IsUser(v)
    ensures CopyRoot(s).Leaf(s.pool[0], v) == None
  {
    CopyRootValid(s);
    assert CopyRoot(s).E(s.pool[0], Idx2(v)) == s.E(s.kernel, Idx2(v));
  }
}

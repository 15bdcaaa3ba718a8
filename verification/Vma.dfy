/** Virtual memory areas: values, lookup, and the linked list of do_mmap and do_fork. */
module Vmas {
  import opened Basics

  type u64 = x: nat | x < WORD

  // flags: VM_ANON 1, VM_READ 2, VM_WRITE 4, VM_EXEC 8
  datatype Vma = Vma(start: u64, end: u64, pgoff: u64, filesz: u64, flags: u64)
  {
    predicate Contains(a: nat) { start <= a < end }

    // The pages do_fork visits for this area (proc.c:275-276).
    predicate HasPage(v: nat) { start / PGSIZE <= v && v * PGSIZE < end }

    predicate Anon() { flags % 2 == 1 }
    predicate Readable() { flags / 2 % 2 == 1 }
    predicate Writable() { flags / 4 % 2 == 1 }
    predicate Executable() { flags / 8 % 2 == 1 }
  }

  // find_vma on the list order: the first area that contains the address.
  function Find(areas: seq<Vma>, a: nat): (r: Option<Vma>)
    ensures r.Some? ==> r.value in areas && r.value.Contains(a)
    ensures r.None? ==> forall x :: x in areas ==> !x.Contains(a)
  {
    if areas == [] then None
    else if areas[0].Contains(a) then Some(areas[0])
    else Find(areas[1..], a)
  }

  function Reverse<T>(s: seq<T>): (r: seq<T>)
    ensures |r| == |s|
  {
    if s == [] then [] else Reverse(s[1..]) + [s[0]]
  }

  lemma {:induction false} ReverseAt<T>(s: seq<T>, i: nat)
    requires i < |s|
    ensures Reverse(s)[i] == s[|s| - 1 - i]
  {
    if i < |s| - 1 { ReverseAt(s[1..], i); }
  }

  lemma ReverseMembers<T>(s: seq<T>, x: T)
    ensures x in Reverse(s) <==> x in s
  {
    forall i | 0 <= i < |s|
      ensures Reverse(s)[i] == s[|s| - 1 - i] && Reverse(s)[|s| - 1 - i] == s[i]
    {
      ReverseAt(s, i);
      ReverseAt(s, |s| - 1 - i);
    }
    if x in Reverse(s) {
      var i :| 0 <= i < |s| && Reverse(s)[i] == x;
    }
    if x in s {
      var i :| 0 <= i < |s| && s[i] == x;
      assert Reverse(s)[|s| - 1 - i] == x;
    }
  }

  // No two areas of a process touch the same page.
  ghost predicate PageDisjoint(areas: seq<Vma>) {
    forall i, j, v: nat :: 0 <= i < j < |areas| && areas[i].HasPage(v) ==> !areas[j].HasPage(v)
  }

  lemma ContainedPage(x: Vma, a: nat)
    requires x.Contains(a)
    ensures x.HasPage(a / PGSIZE)
  {
  }

  lemma OneIndexPerPage(areas: seq<Vma>, i: nat, j: nat, v: nat)
    requires PageDisjoint(areas) && i < |areas| && j < |areas| && areas[i].HasPage(v) && areas[j].HasPage(v)
    ensures i == j
  {
  }

  lemma OneAreaPerPage(areas: seq<Vma>, x: Vma, y: Vma, v: nat)
    requires PageDisjoint(areas) && x in areas && y in areas && x.HasPage(v) && y.HasPage(v)
    ensures x == y
  {
    var i :| 0 <= i < |areas| && areas[i] == x;
    var j :| 0 <= j < |areas| && areas[j] == y;
    OneIndexPerPage(areas, i, j, v);
  }

  lemma ReverseKeepsDisjoint(areas: seq<Vma>)
    requires PageDisjoint(areas)
    ensures PageDisjoint(Reverse(areas))
  {
    var r := Reverse(areas);
    forall i, j, v: nat | 0 <= i < j < |r| && r[i].HasPage(v)
      ensures !r[j].HasPage(v)
    {
      ReverseAt(areas, i);
      ReverseAt(areas, j);
    }
  }

  // No two areas contain the same address.
  ghost predicate Disjoint(areas: seq<Vma>) {
    forall x, y, a: nat :: x in areas && y in areas && x.Contains(a) && y.Contains(a) ==> x == y
  }

  lemma PageDisjointIsDisjoint(areas: seq<Vma>)
    requires PageDisjoint(areas)
    ensures Disjoint(areas)
  {
    forall x, y, a: nat | x in areas && y in areas && x.Contains(a) && y.Contains(a)
      ensures x == y
    {
      ContainedPage(x, a);
      ContainedPage(y, a);
      OneAreaPerPage(areas, x, y, a / PGSIZE);
    }
  }

  // The child's list is reversed, but every address finds the same area.
  lemma FindInReversed(areas: seq<Vma>, a: nat)
    requires Disjoint(areas)
    ensures Find(Reverse(areas), a) == Find(areas, a)
  {
    var l, r := Find(areas, a), Find(Reverse(areas), a);
    if r.Some? { ReverseMembers(areas, r.value); }
    if l.Some? { ReverseMembers(areas, l.value); }
  }

  // ---------------------------------------------------------------------------------
  // The doubly linked list.

  class Area {
    var vma: Vma
    var next: Area?
    var prev: Area?

    constructor (vma: Vma, next: Area?)
      ensures this.vma == vma && this.next == next && prev == null
    {
      this.vma := vma;
      this.next := next;
      prev := null;
    }
  }

  ghost function At(nodes: seq<Area>, i: int): Area? {
    if 0 <= i < |nodes| then nodes[i] else null
  }

  class Mm {
    var mmap: Area?
    ghost var nodes: seq<Area>
    ghost var areas: seq<Vma>

    // The nodes are distinct and hold the areas, next walks them in order, prev walks them back, both ends are null.
    ghost predicate Valid()
      reads this, nodes
    {
      && (forall i, j :: 0 <= i < j < |nodes| ==> nodes[i] != nodes[j])
      && |areas| == |nodes| && mmap == At(nodes, 0)
      && (forall i :: 0 <= i < |nodes| ==> nodes[i].vma == areas[i])
      && (forall i :: 0 <= i < |nodes| ==> nodes[i].next == At(nodes, i + 1))
      && (forall i :: 0 <= i < |nodes| ==> nodes[i].prev == At(nodes, i - 1))
    }

    constructor ()
      ensures Valid() && areas == []
    {
      mmap := null;
      nodes, areas := [], [];
    }

    // do_mmap: insertion at the head.
    method DoMmap(addr: u64, len: u64, pgoff: u64, filesz: u64, flags: u64) returns (r: u64)
      requires Valid()
      modifies this, if mmap == null then {} else {mmap}
      ensures Valid() && r == addr
      ensures nodes != [] && fresh(nodes[0]) && nodes == [nodes[0]] + old(nodes)
      ensures areas == [Vma(addr, (addr + len) % WORD, pgoff, filesz, flags)] + old(areas)
    {
      ghost var was := nodes;
      var cur := new Area(Vma(addr, (addr + len) % WORD, pgoff, filesz, flags), mmap);
      if mmap != null {
        mmap.prev := cur;
      }
      mmap := cur;
      nodes, areas := [cur] + was, [cur.vma] + areas;
      forall i | 0 <= i < |nodes|
        ensures nodes[i].next == At(nodes, i + 1) && nodes[i].prev == At(nodes, i - 1)
        ensures nodes[i].vma == areas[i]
      {
        if i > 0 {
          assert nodes[i] == was[i - 1] && old(was[i - 1].vma) == old(areas)[i - 1];
          assert old(was[i - 1].next) == At(was, i) && old(was[i - 1].prev) == At(was, i - 2);
        }
      }
      r := addr;
    }

    method FindVma(addr: u64) returns (r: Area?)
      requires Valid()
      ensures r == null <==> Find(areas, addr).None?
      ensures r != null ==> r in nodes && Find(areas, addr) == Some(r.vma)
    {
      var cur := mmap;
      ghost var i := 0;
      while cur != null
        invariant 0 <= i <= |nodes|
        invariant cur == At(nodes, i)
        invariant Find(areas, addr) == Find(areas[i..], addr)
        decreases |nodes| - i
      {
        if cur.vma.start <= addr && addr < cur.vma.end {
          return cur;
        }
        cur := cur.next;
        i := i + 1;
      }
      r := null;
    }
  }

  // The VMA part of do_fork (proc.c:268-272, 304): walk the parent's list, insert at the child's head.
  method CopyAreas(parent: Mm, child: Mm)
    requires parent.Valid() && child.Valid() && child.areas == [] && parent != child
    modifies child
    ensures child.Valid()
    ensures parent.Valid() && parent.areas == old(parent.areas)
    ensures child.areas == Reverse(parent.areas)
  {
    var cur := parent.mmap;
    ghost var i, list := 0, parent.areas;
    assert list[..0] == [] && child.areas == Reverse<Vma>([]);
    while cur != null
      invariant Copied(parent, child, cur, i, list)
      invariant parent.nodes == old(parent.nodes) && (child.mmap == null || fresh(child.mmap))
      decreases |parent.nodes| - i
    {
      hide Copied;
      cur := CopyStep(parent, child, cur, i, list);
      i := i + 1;
    }
    assert list[..i] == list;
  }

  // cur is the parent's i-th area; the areas before it are in the child's list, reversed.
  ghost predicate Copied(parent: Mm, child: Mm, cur: Area?, i: nat, list: seq<Vma>)
    reads parent, parent.nodes, child, child.nodes
  {
    && parent.Valid() && child.Valid() && parent.areas == list
    && i <= |parent.nodes| && cur == At(parent.nodes, i)
    && child.areas == Reverse(list[..i])
  }

  method CopyStep(parent: Mm, child: Mm, cur: Area, ghost i: nat, ghost list: seq<Vma>) returns (next: Area?)
    requires Copied(parent, child, cur, i, list) && parent != child
    requires child.mmap == null || child.mmap !in parent.nodes
    modifies child, if child.mmap == null then {} else {child.mmap}
    ensures Copied(parent, child, next, i + 1, list) && i < |parent.nodes|
    ensures child.mmap != null && fresh(child.mmap)
  {
    hide Reverse;
    ReverseSnoc(list[..i], cur.vma);
    assert cur == parent.nodes[i] && cur.vma == list[i];
    assert list[..i + 1] == list[..i] + [list[i]];
    CopyArea(child, cur.vma);
    next := cur.next;
  }

  method CopyArea(child: Mm, x: Vma)
    requires child.Valid()
    modifies child, if child.mmap == null then {} else {child.mmap}
    ensures child.Valid() && child.areas == [x] + old(child.areas)
    ensures child.mmap != null && fresh(child.mmap)
  {
    SameEnd(x.start, x.end);
    var r := child.DoMmap(x.start, (x.end + WORD - x.start) % WORD, x.pgoff, x.filesz, x.flags);
  }

  lemma SameEnd(s: u64, e: u64)
    ensures (s + (e + WORD - s) % WORD) % WORD == e
  {
  }

  lemma {:induction false} ReverseSnoc<T>(s: seq<T>, x: T)
    ensures Reverse(s + [x]) == [x] + Reverse(s)
  {
    if s != [] {
      assert (s + [x])[1..] == s[1..] + [x];
      ReverseSnoc(s[1..], x);
    } else {
      assert [x][1..] == [];
    }
  }
}

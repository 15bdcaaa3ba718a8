/** The buddy allocator of arch/riscv/kernel/mm.c, on the arrays it updates in place. */
module BuddyAllocator {
  import opened Basics
  import opened Bits
  import opened BuddyTree
  import opened BuddyNodes

  class Buddy {
    var size: nat
    var bitmap: array<nat>
    var refCnt: array<nat>
    ghost var live: Blocks

    // The tree part: live blocks are aligned and disjoint, and the array is canonical for them.
    ghost predicate TreeValid()
      reads this, bitmap
    {
      && size <= WORD / 2
      && bitmap.Length == 2 * size
      && WellFormed(size, live)
      && Canonical(size, live, bitmap[..])
    }

    // The reference counts: exactly the heads of live blocks are counted.
    ghost predicate Valid()
      reads this, bitmap, refCnt
    {
      && TreeValid()
      && refCnt.Length == size && refCnt != bitmap
      && forall f :: 0 <= f < size ==> (refCnt[f] > 0 <==> f in live)
    }

    // The nodes of the tree; the array has one entry more, which nothing uses.
    ghost function Nodes(): seq<nat>
      requires TreeValid()
      reads this, bitmap
    {
      bitmap[..2 * size - 1]
    }

    // Every node holds its size, every count is 0.
    ghost predicate Initial()
      requires Valid()
      reads this, bitmap, refCnt
    {
      && (forall i: nat {:trigger bitmap[i]} :: i < 2 * size - 1 ==> bitmap[i] == NodeSize(size, i))
      && forall f :: 0 <= f < size ==> refCnt[f] == 0
    }

    // buddy_init up to the reservation loop: any page count, rounded up to a power of two.
    constructor (pages: nat)
      requires 1 <= pages <= WORD / 2
      ensures Valid() && fresh(bitmap) && fresh(refCnt)
      ensures size == RoundUp(pages) && live == map[] && Initial()
    {
      RoundUpIsLeastPow2(pages);
      RoundUpFits(pages);
      PowerOf2Rounds(pages);
      var n := pages;
      if !IsPowerOf2(pages) {
        n := FixSize(pages);
      }
      size := n;
      bitmap := new nat[2 * n](_ => 0);
      refCnt := new nat[n](_ => 0);
      live := map[];
      new;
      FillLevels();
    }

    // The loop of buddy_init that gives every node its size (mm.c:52-56).
    method FillLevels()
      requires IsPow2(size) && bitmap.Length == 2 * size
      modifies bitmap
      ensures forall i: nat {:trigger bitmap[i]} :: i < 2 * size - 1 ==> bitmap[i] == NodeSize(size, i)
      ensures Canonical(size, map[], bitmap[..])
    {
      var nodeSize := 2 * size;
      var i := 0;
      while i < 2 * size - 1
        invariant 0 <= i <= 2 * size - 1
        invariant nodeSize == if i == 0 then 2 * size else NodeSize(size, i - 1)
        invariant forall j: nat {:trigger bitmap[j]} :: j < i ==> bitmap[j] == NodeSize(size, j)
      {
        LevelStart(size, i);
        if IsPowerOf2(i + 1) {
          nodeSize := nodeSize / 2;
        }
        bitmap[i] := nodeSize;
        i := i + 1;
      }
      EmptyIsCanonical(size, bitmap[..]);
    }

    // The search of buddy_free (mm.c:84-90): from the head frame's leaf up to the first zero.
    method AllocatedNode(pfn: nat) returns (index: nat, nodeSize: nat)
      requires TreeValid() && pfn in live
      ensures index < 2 * size - 1 && Lo(size, index) == pfn
      ensures nodeSize == live[pfn] == NodeSize(size, index)
    {
      assert ValidBlock(size, pfn, live[pfn]);
      nodeSize := 1;
      index := pfn + size - 1;
      LeafOfFrame(size, pfn);
      while bitmap[index] != 0
        invariant index < 2 * size - 1 && Lo(size, index) == pfn
        invariant nodeSize == NodeSize(size, index) && nodeSize <= live[pfn]
        decreases index
      {
        assert bitmap[..][index] == Value(size, live, bitmap[..], index);
        BelowHead(size, live, pfn, index);
        nodeSize := 2 * nodeSize;
        if index == 0 { break; }
        index := Parent(index);
      }
      StopsAtHead(size, live, bitmap[..], pfn, index);
    }

    // buddy_free: releases the block headed by pfn, unless it is still counted.
    method BuddyFree(pfn: nat)
      requires TreeValid() && refCnt.Length == size && refCnt != bitmap && pfn < size
      requires refCnt[pfn] == 0 ==> pfn in live
      modifies bitmap, this`live
      ensures TreeValid()
      ensures refCnt[pfn] > 0 ==> live == old(live) && bitmap[..] == old(bitmap[..])
      ensures refCnt[pfn] == 0 ==> live == old(live) - {pfn}
    {
      if refCnt[pfn] > 0 { return; }
      var index, nodeSize := AllocatedNode(pfn);
      ghost var before, bm := live, bitmap[..];
      DropKeepsWellFormed(size, live, pfn);
      EmptiedNode(size, live, bm, index);
      bitmap[index] := nodeSize;
      live := live - {pfn};
      Replace(size, before, live, bm, index, nodeSize);
      assert bitmap[..] == bm[index := nodeSize];
      RaiseCombine(index, nodeSize, before, pfn);
    }

    // The upward loop of buddy_free (mm.c:94-105): two full halves merge.
    method RaiseCombine(index0: nat, size0: nat, ghost before: Blocks, ghost pfn: nat)
      requires size <= WORD / 2 && bitmap.Length == 2 * size
      requires WellFormed(size, before) && WellFormed(size, live) && pfn in before && live == before - {pfn}
      requires CanonicalButParent(size, live, bitmap[..], index0)
      requires size0 == NodeSize(size, index0) == before[pfn] && Lo(size, index0) == pfn
      modifies bitmap
      ensures TreeValid()
    {
      hide WellFormed;
      var index, nodeSize := index0, size0;
      while index != 0
        invariant CanonicalButParent(size, live, bitmap[..], index)
        invariant nodeSize == NodeSize(size, index)
        invariant Covers(size, index, pfn, before[pfn])
        decreases index
      {
        ghost var was := bitmap[..];
        RaiseStep(size, before, live, was, index, pfn);
        index := Parent(index);
        nodeSize := 2 * nodeSize;
        var left, right := bitmap[2 * index + 1], bitmap[2 * index + 2];
        if left + right == nodeSize {
          bitmap[index] := nodeSize;
        } else {
          bitmap[index] := Max(left, right);
        }
        assert bitmap[..] == was[index := Combine(nodeSize, was[2 * index + 1], was[2 * index + 2])];
      }
    }

    // buddy_alloc: first fit by descent. It succeeds exactly when an aligned free run of the
    // rounded size exists, and then takes the lowest one.
    method BuddyAlloc(nrpages: nat) returns (pfn: nat)
      requires Valid() && nrpages <= WORD / 2
      modifies bitmap, refCnt, this`live
      ensures Valid()
      ensures (exists s: nat :: FreeRun(size, old(live), s, RoundUp(nrpages))) ==>
        && FreeRun(size, old(live), pfn, RoundUp(nrpages))
        && (forall s: nat :: FreeRun(size, old(live), s, RoundUp(nrpages)) ==> pfn <= s)
        && live == old(live)[pfn := RoundUp(nrpages)]
        && refCnt[..] == old(refCnt[..])[pfn := 1]
      ensures !(exists s: nat :: FreeRun(size, old(live), s, RoundUp(nrpages))) ==>
        pfn == 0 && live == old(live) && refCnt[..] == old(refCnt[..]) && bitmap[..] == old(bitmap[..])
    {
      hide ValidBlock;
      hide Canonical;
      var n := RoundPages(nrpages);
      RootHasRoom(size, live, bitmap[..], n);
      if bitmap[0] < n {
        return 0;
      }
      var index := Descend(n);
      pfn := Take(index, n);
    }

    // Marks a free node allocated and counts its head frame once (mm.c:127-136).
    method Take(index: nat, nodeSize: nat) returns (pfn: nat)
      requires Valid() && index < 2 * size - 1 && nodeSize == NodeSize(size, index)
      requires FreeRun(size, live, Lo(size, index), nodeSize)
      modifies bitmap, refCnt, this`live
      ensures Valid() && pfn == Lo(size, index)
      ensures live == old(live)[pfn := nodeSize]
      ensures refCnt[..] == old(refCnt[..])[pfn := 1]
    {
      ghost var before, bm := live, bitmap[..];
      FrameFormula(size, index);
      TakeKeepsWellFormed(size, live, Lo(size, index), nodeSize);
      CanonicalIsBounded(size, live, bm);
      pfn := (index + 1) * nodeSize - size;
      live := live[pfn := nodeSize];
      Replace(size, before, live, bm, index, 0);
      bitmap[index] := 0;
      refCnt[pfn] := 1;
      assert bitmap[..] == bm[index := 0];
      RaiseMax(index, pfn);
    }

    // The request is rounded up to a power of two (mm.c:113-116).
    method RoundPages(nrpages: nat) returns (n: nat)
      requires nrpages <= WORD / 2
      ensures n == RoundUp(nrpages) && IsPow2(n)
    {
      n := nrpages;
      RoundUpIsLeastPow2(nrpages);
      if nrpages <= 0 {
        n := 1;
      } else {
        PowerOf2Rounds(nrpages);
        if !IsPowerOf2(nrpages) {
          n := FixSize(nrpages);
        }
      }
    }

    // The descent of mm.c:120-125 never reaches a node without room.
    method Descend(n: nat) returns (index: nat)
      requires TreeValid() && IsPow2(n) && n <= bitmap[0]
      ensures index < 2 * size - 1 && NodeSize(size, index) == n
      ensures FreeRun(size, live, Lo(size, index), n)
      ensures forall s: nat :: FreeRun(size, live, s, n) ==> Lo(size, index) <= s
    {
      index := 0;
      var nodeSize := size;
      ghost var bm := bitmap[..];
      hide RoomAt;
      hide NodeSize;
      hide WellFormed;
      hide Canonical;
      hide IsPow2;
      hide FreeRun;
      RootHasRoomAt(size, live, bm, n);
      while nodeSize != n
        invariant index < 2 * size - 1 && nodeSize == NodeSize(size, index)
        invariant RoomAt(size, live, index, n)
        decreases nodeSize
      {
        DescentStep(size, live, bm, index, n);
        if bitmap[2 * index + 1] >= n {
          index := 2 * index + 1;
        } else {
          index := 2 * index + 2;
        }
        nodeSize := nodeSize / 2;
      }
      RoomAtBottom(size, live, index, n);
    }

    // The upward loop of buddy_alloc (mm.c:133-136), which needs no coalescing test.
    method RaiseMax(index0: nat, ghost pfn: nat)
      requires size <= WORD / 2 && bitmap.Length == 2 * size && WellFormed(size, live)
      requires IsPow2(size) && index0 < 2 * size - 1 && pfn in live
      requires RaisedTo(size, live, bitmap[..], index0, pfn)
      modifies bitmap
      ensures TreeValid()
    {
      var index: nat := index0;
      hide RaisedTo;
      while index != 0
        invariant index < 2 * size - 1
        invariant RaisedTo(size, live, bitmap[..], index, pfn)
        decreases index
      {
        ghost var was := bitmap[..];
        MaxSuffices(size, live, was, index, pfn);
        index := Parent(index);
        bitmap[index] := Max(bitmap[2 * index + 1], bitmap[2 * index + 2]);
        assert bitmap[..] == was[index := Max(was[2 * index + 1], was[2 * index + 2])];
      }
      RaisedToRoot(size, live, bitmap[..], pfn);
    }

    // page_ref_inc behind get_page: refuses a frame that heads no live block.
    method GetPage(pfn: nat) returns (err: nat)
      requires Valid() && pfn < size
      modifies refCnt
      ensures Valid()
      ensures err == if pfn in live then 0 else 1
      ensures refCnt[..] == if pfn in live then old(refCnt[..])[pfn := old(refCnt[pfn]) + 1] else old(refCnt[..])
    {
      if refCnt[pfn] == 0 { return 1; }
      refCnt[pfn] := refCnt[pfn] + 1;
      err := 0;
    }

    // page_ref_dec behind put_page: the block goes with its last reference.
    method PutPage(pfn: nat)
      requires Valid() && pfn in live
      modifies bitmap, refCnt, this`live
      ensures Valid()
      ensures refCnt[..] == old(refCnt[..])[pfn := old(refCnt[pfn]) - 1]
      ensures live == if old(refCnt[pfn]) == 1 then old(live) - {pfn} else old(live)
      ensures old(refCnt[pfn]) > 1 ==> bitmap[..] == old(bitmap[..])
    {
      assert ValidBlock(size, pfn, live[pfn]);
      if refCnt[pfn] > 0 {
        refCnt[pfn] := refCnt[pfn] - 1;
      }
      if refCnt[pfn] == 0 {
        BuddyFree(pfn);
      }
    }
  }

  lemma RoundUpFits(n: nat)
    requires n <= WORD / 2
    ensures RoundUp(n) <= WORD / 2
  {
    RoundUpIsLeastPow2(n);
    Pow2At63();
    assert IsPow2(WORD / 2);
  }

  lemma PowerOf2Rounds(n: nat)
    requires n >= 1
    ensures IsPowerOf2(n) ==> RoundUp(n) == n
  {
    PowerOf2Test(n);
    RoundUpIsLeastPow2(n);
  }

  // The level changes exactly where buddy_init halves node_size.
  lemma {:induction false} LevelStart(size: nat, i: nat)
    requires IsPow2(size) && i < 2 * size - 1
    ensures i == 0 ==> IsPowerOf2(i + 1)
    ensures i > 0 && IsPowerOf2(i + 1) ==> NodeSize(size, i) == NodeSize(size, i - 1) / 2
    ensures i > 0 && !IsPowerOf2(i + 1) ==> NodeSize(size, i) == NodeSize(size, i - 1)
    decreases i
  {
    PowerOf2Test(i + 1);
    if i > 0 {
      if i % 2 == 1 {
        Pow2Half(i + 1);
        PowerOf2Test((i + 1) / 2);
        LevelStart(size, Parent(i));
      }
    } else {
      assert 1 == Pow2(0);
    }
  }

  lemma {:induction false} LeafOfFrame(size: nat, f: nat)
    requires IsPow2(size) && f < size
    ensures Lo(size, f + size - 1) == f && NodeSize(size, f + size - 1) == 1
  {
    Geometry(size, f + size - 1);
    FrameFormula(size, f + size - 1);
  }

  // Strictly below a live block's node, the upward search keeps climbing along first frames.
  lemma BelowHead(size: nat, live: Blocks, pfn: nat, i: nat)
    requires WellFormed(size, live) && pfn in live && i < 2 * size - 1
    requires Lo(size, i) == pfn && NodeSize(size, i) <= live[pfn] && !LiveAt(size, live, i)
    ensures i > 0 && Lo(size, Parent(i)) == pfn
    ensures NodeSize(size, Parent(i)) == 2 * NodeSize(size, i) <= live[pfn]
  {
    var ns := NodeSize(size, i);
    assert ValidBlock(size, pfn, live[pfn]);
    NodeIsBlock(size, i);
    SmallerPow2(ns, live[pfn]);
    ParentCovers(size, i);
    var p := Parent(i);
    NodeIsBlock(size, p);
    Pow2Divides(2 * ns, live[pfn]);
    MultipleOfMultiple(pfn, live[pfn], 2 * ns);
    if Lo(size, p) < pfn {
      MultipleGap(Lo(size, p), pfn, 2 * ns);
    }
  }

  // A zero met on the way up from the head frame is the allocated node itself.
  lemma StopsAtHead(size: nat, live: Blocks, bm: seq<nat>, pfn: nat, i: nat)
    requires WellFormed(size, live) && Canonical(size, live, bm) && pfn in live && i < 2 * size - 1
    requires Lo(size, i) == pfn && NodeSize(size, i) <= live[pfn] && bm[i] == 0
    ensures NodeSize(size, i) == live[pfn]
  {
    if NodeSize(size, i) < live[pfn] {
      NodeIsBlock(size, i);
      CanonicalIsLongest(size, live, bm, i);
      FullWhenEmpty(live, pfn, NodeSize(size, i));
    }
  }

  // Once its block is gone, a node is full again.
  lemma EmptiedNode(size: nat, live: Blocks, bm: seq<nat>, i: nat)
    requires IsPow2(size) && WellFormed(size, live) && Canonical(size, live, bm) && |bm| == 2 * size
    requires i < 2 * size - 1 && LiveAt(size, live, i)
    ensures Value(size, live - {Lo(size, i)}, bm, i) == NodeSize(size, i)
  {
    hide Longest;
    hide WellFormed;
    hide Canonical;
    hide NodeSize;
    hide Lo;
    hide IsPow2;
    Geometry(size, i);
    if i < size - 1 {
      Children(size, i);
      HalvesOfHead(size, live, Lo(size, i), NodeSize(size, i) / 2);
      CanonicalIsLongest(size, live, bm, 2 * i + 1);
      CanonicalIsLongest(size, live, bm, 2 * i + 2);
    }
  }

  // Both halves of a live block keep their full value.
  lemma HalvesOfHead(size: nat, live: Blocks, lo: nat, h: nat)
    requires WellFormed(size, live) && lo in live && live[lo] == 2 * h && h > 0
    ensures Longest(live, lo, h) == h == Longest(live, lo + h, h)
  {
    hide ValidBlock;
    assert IsPow2(2 * h) by { LivePow2(size, live, lo); }
    Pow2Half(2 * h);
    forall k | k in live
      ensures lo <= k < lo + 2 * h ==> k == lo
    {
      if k < lo { assert k + live[k] <= lo; }
    }
    FullWhenEmpty(live, lo, h);
    FullWhenEmpty(live, lo + h, h);
  }

  lemma LivePow2(size: nat, live: Blocks, h: nat)
    requires WellFormed(size, live) && h in live
    ensures IsPow2(live[h])
  {
  }

  ghost predicate Bounded(size: nat, bm: seq<nat>) {
    |bm| == 2 * size &&
    forall i: nat {:trigger bm[i]} :: i < 2 * size - 1 ==> bm[i] <= NodeSize(size, i)
  }

  lemma CanonicalIsBounded(size: nat, live: Blocks, bm: seq<nat>)
    requires IsPow2(size) && Canonical(size, live, bm)
    ensures Bounded(size, bm)
  {
    forall i: nat | i < 2 * size - 1
      ensures bm[i] <= NodeSize(size, i)
    {
      CanonicalIsLongest(size, live, bm, i);
    }
  }

  // Node i stands for frames that include [h, h + n).
  ghost predicate Covers(size: nat, i: nat, h: nat, n: nat) {
    n <= NodeSize(size, i) && Lo(size, i) <= h && h + n <= Lo(size, i) + NodeSize(size, i)
  }

  // One round of either upward loop: the parent of a node that covers a block is an inner,
  // free node, so combining its children is the right value for it.
  lemma RaiseStep(size: nat, before: Blocks, live: Blocks, bm: seq<nat>, c: nat, pfn: nat)
    requires WellFormed(size, before) && pfn in before
    requires live == before || live == before - {pfn}
    requires c > 0 && CanonicalButParent(size, live, bm, c) && Covers(size, c, pfn, before[pfn])
    ensures var p := Parent(c);
      && p < size - 1 && NodeSize(size, p) == 2 * NodeSize(size, c) && Covers(size, p, pfn, before[pfn])
      && CanonicalButParent(size, live,
           bm[p := Combine(NodeSize(size, p), bm[2 * p + 1], bm[2 * p + 2])], p)
  {
    var p := Parent(c);
    ParentCovers(size, c);
    Geometry(size, c);
    NotLiveAbove(size, before, pfn, p);
    Repair(size, live, bm, c, Value(size, live, bm, p));
  }

  // State of the upward loop of buddy_alloc at node c: no node above the new block is full.
  ghost predicate RaisedTo(size: nat, live: Blocks, bm: seq<nat>, c: nat, pfn: nat)
    requires pfn in live
  {
    && CanonicalButParent(size, live, bm, c) && Bounded(size, bm)
    && bm[c] < NodeSize(size, c) && Covers(size, c, pfn, live[pfn])
  }

  // After an allocation no ancestor can be full, so the plain maximum is enough.
  lemma MaxSuffices(size: nat, live: Blocks, bm: seq<nat>, c: nat, pfn: nat)
    requires WellFormed(size, live) && pfn in live && 0 < c < 2 * size - 1 && RaisedTo(size, live, bm, c, pfn)
    ensures |bm| == 2 * size
    ensures var p := Parent(c);
      p < size - 1 && RaisedTo(size, live, bm[p := Max(bm[2 * p + 1], bm[2 * p + 2])], p, pfn)
  {
    RaiseStep(size, live, live, bm, c, pfn);
    Children(size, Parent(c));
    CombineIsMax(size, bm, c);
  }

  lemma CombineIsMax(size: nat, bm: seq<nat>, c: nat)
    requires IsPow2(size) && 0 < c < 2 * size - 1 && Bounded(size, bm) && bm[c] < NodeSize(size, c)
    ensures var p := Parent(c);
      p < size - 1
      && Max(bm[2 * p + 1], bm[2 * p + 2])
         == Combine(NodeSize(size, p), bm[2 * p + 1], bm[2 * p + 2]) < NodeSize(size, p)
  {
    Children(size, Parent(c));
  }

  lemma RaisedToRoot(size: nat, live: Blocks, bm: seq<nat>, pfn: nat)
    requires pfn in live && RaisedTo(size, live, bm, 0, pfn)
    ensures Canonical(size, live, bm)
  {
  }

  lemma NodeIsRun(size: nat, live: Blocks, lo: nat, n: nat)
    requires WellFormed(size, live) && ValidBlock(size, lo, n) && NotInside(live, lo, n)
    requires n <= Longest(live, lo, n)
    ensures FreeRun(size, live, lo, n)
  {
    var s := RunBelow(size, live, lo, n, n);
  }

  lemma RootNotInside(size: nat, live: Blocks)
    requires WellFormed(size, live)
    ensures NotInside(live, 0, size) && ValidBlock(size, 0, size)
  {
    forall h | h in live
      ensures h <= 0 && size <= h + live[h] ==> h == 0 && live[h] == size
    {
      assert ValidBlock(size, h, live[h]);
    }
  }

  // The root decides whether the request can be met at all.
  lemma RootHasRoom(size: nat, live: Blocks, bm: seq<nat>, n: nat)
    requires WellFormed(size, live) && Canonical(size, live, bm) && IsPow2(n)
    ensures n <= bm[0] <==> exists s: nat :: FreeRun(size, live, s, n)
  {
    RootNotInside(size, live);
    CanonicalIsLongest(size, live, bm, 0);
    LongestIsLargestFreeRun(size, live, 0, size, n);
    if exists s: nat :: FreeRun(size, live, s, n) {
      var s: nat :| FreeRun(size, live, s, n);
      assert 0 <= s && s + n <= 0 + size && FreeRun(size, live, s, n);
    }
  }

  // Node i can serve n frames, and every run of n frames starts at or after it.
  ghost predicate RoomAt(size: nat, live: Blocks, i: nat, n: nat) {
    && n <= Longest(live, Lo(size, i), NodeSize(size, i))
    && NotInside(live, Lo(size, i), NodeSize(size, i))
    && forall s: nat :: FreeRun(size, live, s, n) ==> Lo(size, i) <= s
  }

  lemma RootHasRoomAt(size: nat, live: Blocks, bm: seq<nat>, n: nat)
    requires WellFormed(size, live) && Canonical(size, live, bm) && n <= bm[0]
    ensures RoomAt(size, live, 0, n) && NodeSize(size, 0) == size && size <= 2 * size - 1
  {
    RootNotInside(size, live);
    CanonicalIsLongest(size, live, bm, 0);
  }

  lemma RoomAtBottom(size: nat, live: Blocks, i: nat, n: nat)
    requires WellFormed(size, live) && i < 2 * size - 1 && NodeSize(size, i) == n && RoomAt(size, live, i, n)
    ensures FreeRun(size, live, Lo(size, i), n)
    ensures forall s: nat :: FreeRun(size, live, s, n) ==> Lo(size, i) <= s
  {
    NodeIsBlock(size, i);
    NodeIsRun(size, live, Lo(size, i), n);
  }

  // One step of the descent keeps room, and skips no lower run.
  lemma DescentStep(size: nat, live: Blocks, bm: seq<nat>, i: nat, n: nat)
    requires WellFormed(size, live) && Canonical(size, live, bm) && i < 2 * size - 1
    requires |bm| == 2 * size && IsPow2(n) && n != NodeSize(size, i) && RoomAt(size, live, i, n)
    ensures i < size - 1 && NodeSize(size, i) > 1
    ensures NodeSize(size, 2 * i + 1) == NodeSize(size, i) / 2 == NodeSize(size, 2 * i + 2)
    ensures bm[2 * i + 1] >= n ==> RoomAt(size, live, 2 * i + 1, n)
    ensures bm[2 * i + 1] < n ==> RoomAt(size, live, 2 * i + 2, n)
  {
    hide Multiple;
    hide Longest;
    hide Canonical;
    var lo, ns := Lo(size, i), NodeSize(size, i);
    var h := ns / 2;
    RoomMeans(live, lo, ns, n);
    NodeIsBlock(size, i);
    Geometry(size, i);
    SmallerPow2(n, ns);
    Children(size, i);
    NotInsideHalves(size, live, lo, ns);
    CanonicalIsLongest(size, live, bm, 2 * i + 1);
    forall s: nat | FreeRun(size, live, s, n)
      ensures bm[2 * i + 1] < n ==> lo + h <= s
    {
      if s < lo + h { RunLeftOf(size, live, lo, ns, s, n); }
    }
  }

  // A node larger than the request with room is not itself live, and has room in a half.
  lemma RoomMeans(live: Blocks, lo: nat, ns: nat, n: nat)
    requires 1 <= n < ns && n <= Longest(live, lo, ns)
    ensures !(lo in live && live[lo] == ns)
    ensures IsPow2(ns) && IsPow2(n) ==>
      n <= Longest(live, lo, ns / 2) || n <= Longest(live, lo + ns / 2, ns / 2)
  {
    if IsPow2(ns) && IsPow2(n) { SmallerPow2(n, ns); }
  }

  lemma RunLeftOf(size: nat, live: Blocks, lo: nat, ns: nat, s: nat, n: nat)
    requires WellFormed(size, live) && ValidBlock(size, lo, ns) && ns > 1
    requires FreeRun(size, live, s, n) && lo <= s < lo + ns / 2 && n <= ns / 2
    ensures n <= Longest(live, lo, ns / 2)
  {
    Halves(size, lo, ns);
    Pow2Divides(n, ns / 2);
    MultipleOfMultiple(lo + ns / 2, ns / 2, n);
    MultipleGap(s, lo + ns / 2, n);
    RoomForRun(size, live, lo, ns / 2, s, n);
  }
}

/** The buddy tree as mathematics: live blocks, free runs, and the value every tree node must hold. */
module BuddyTree {
  import opened Basics
  import opened Bits

  // The live blocks: first frame number -> size in frames.
  type Blocks = map<nat, nat>

  ghost predicate ValidBlock(size: nat, lo: nat, n: nat) {
    IsPow2(n) && Multiple(lo, n) && lo + n <= size
  }

  ghost predicate WellFormed(size: nat, live: Blocks) {
    && IsPow2(size)
    && (forall h :: h in live ==> ValidBlock(size, h, live[h]))
    && (forall h, k :: h in live && k in live && h < k ==> h + live[h] <= k)
  }

  ghost predicate Free(live: Blocks, f: nat) {
    forall h :: h in live ==> !(h <= f < h + live[h])
  }

  // n aligned frames starting at s, none of them in a live block.
  ghost predicate FreeRun(size: nat, live: Blocks, s: nat, n: nat) {
    ValidBlock(size, s, n) && forall f :: s <= f < s + n ==> Free(live, f)
  }

  // How a parent's value follows from its children's (mm.c:101-104).
  function Combine(ns: nat, l: nat, r: nat): nat {
    if l + r == ns then ns else Max(l, r)
  }

  // The value of the tree node that stands for frames [lo, lo + ns). Nodes inside a
  // live block keep their full value, as the code leaves them.
  ghost function Longest(live: Blocks, lo: nat, ns: nat): (r: nat)
    ensures r <= ns
    decreases ns
  {
    if lo in live && live[lo] == ns then 0
    else if ns <= 1 then ns
    else Combine(ns, Longest(live, lo, ns / 2), Longest(live, lo + ns / 2, ns / 2))
  }

  // No live block reaches into [lo, lo + ns) from outside or above, except one equal to it.
  ghost predicate NotInside(live: Blocks, lo: nat, ns: nat) {
    forall h :: h in live && h <= lo && lo + ns <= h + live[h] ==> h == lo && live[h] == ns
  }

  lemma SmallerPow2(n: nat, ns: nat)
    requires IsPow2(n) && IsPow2(ns) && n < ns
    ensures ns % 2 == 0 && IsPow2(ns / 2) && n <= ns / 2
  {
    var j: nat :| n == Pow2(j);
    var k: nat :| ns == Pow2(k);
    if k <= j {
      if k < j { Pow2Mono(k, j); }
      assert false;
    }
    Pow2Half(ns);
    Pow2Mono(j, k);
  }

  // Halving an aligned block gives two aligned blocks.
  lemma Halves(size: nat, lo: nat, ns: nat)
    requires ValidBlock(size, lo, ns) && ns > 1
    ensures ns % 2 == 0
    ensures ValidBlock(size, lo, ns / 2) && ValidBlock(size, lo + ns / 2, ns / 2)
  {
    Pow2Half(ns);
    Pow2Divides(ns / 2, ns);
    MultipleOfMultiple(lo, ns, ns / 2);
  }

  // Aligned power-of-two blocks are nested or disjoint.
  lemma NestedOrDisjoint(size: nat, lo: nat, ns: nat, h: nat, a: nat)
    requires ValidBlock(size, lo, ns) && ValidBlock(size, h, a) && ns <= a
    ensures (h <= lo && lo + ns <= h + a) || lo + ns <= h || h + a <= lo
  {
    Pow2Divides(ns, a);
    MultipleOfMultiple(h, a, ns);
    if lo < h {
      MultipleGap(lo, h, ns);
    } else if lo < h + a {
      MultipleOfMultiple(h + a, a, ns);
      MultipleGap(lo, h + a, ns);
    }
  }

  // A node without a live block beneath it has its full size.
  lemma {:induction false} FullWhenEmpty(live: Blocks, lo: nat, ns: nat)
    requires IsPow2(ns)
    requires forall h :: h in live && lo <= h < lo + ns ==> live[h] > ns
    ensures Longest(live, lo, ns) == ns
    decreases ns
  {
    if ns > 1 {
      Pow2Half(ns);
      hide IsPow2;
      FullWhenEmpty(live, lo, ns / 2);
      FullWhenEmpty(live, lo + ns / 2, ns / 2);
    }
  }

  lemma NotInsideHalves(size: nat, live: Blocks, lo: nat, ns: nat)
    requires WellFormed(size, live) && ValidBlock(size, lo, ns) && ns > 1
    requires NotInside(live, lo, ns) && !(lo in live && live[lo] == ns)
    ensures NotInside(live, lo, ns / 2) && NotInside(live, lo + ns / 2, ns / 2)
  {
    Halves(size, lo, ns);
    forall h | h in live
      ensures h <= lo && lo + ns / 2 <= h + live[h] ==> h == lo && live[h] == ns / 2
      ensures h <= lo + ns / 2 && lo + ns <= h + live[h] ==> h == lo + ns / 2 && live[h] == ns / 2
    {
      if live[h] < ns {
        SmallerPow2(live[h], ns);
      } else {
        NestedOrDisjoint(size, lo, ns, h, live[h]);
      }
    }
  }

  lemma JoinHalves(size: nat, live: Blocks, lo: nat, ns: nat)
    requires ValidBlock(size, lo, ns) && ns % 2 == 0
    requires FreeRun(size, live, lo, ns / 2) && FreeRun(size, live, lo + ns / 2, ns / 2)
    ensures FreeRun(size, live, lo, ns)
  {
  }

  // A node with value at least n has an aligned free run of n frames beneath it ...
  lemma {:induction false} RunBelow(size: nat, live: Blocks, lo: nat, ns: nat, n: nat) returns (s: nat)
    requires WellFormed(size, live) && ValidBlock(size, lo, ns) && NotInside(live, lo, ns)
    requires IsPow2(n) && n <= Longest(live, lo, ns)
    ensures lo <= s && s + n <= lo + ns && FreeRun(size, live, s, n)
    decreases ns
  {
    if ns == 1 {
      s := lo;
    } else {
      Halves(size, lo, ns);
      NotInsideHalves(size, live, lo, ns);
      hide WellFormed;
      hide ValidBlock;
      hide FreeRun;
      hide NotInside;
      var l, r := Longest(live, lo, ns / 2), Longest(live, lo + ns / 2, ns / 2);
      if n == ns {
        var s0 := RunBelow(size, live, lo, ns / 2, ns / 2);
        var s1 := RunBelow(size, live, lo + ns / 2, ns / 2, ns / 2);
        JoinHalves(size, live, lo, ns);
        s := lo;
      } else {
        SmallerPow2(n, ns);
        if n <= l {
          s := RunBelow(size, live, lo, ns / 2, n);
        } else {
          s := RunBelow(size, live, lo + ns / 2, ns / 2, n);
        }
      }
    }
  }

  lemma NoHeadInRun(size: nat, live: Blocks, s: nat, n: nat)
    requires WellFormed(size, live) && FreeRun(size, live, s, n)
    ensures forall h :: h in live ==> !(s <= h < s + n) && (h <= s ==> h + live[h] <= s)
  {
    forall h | h in live
      ensures !(s <= h < s + n) && (h <= s ==> h + live[h] <= s)
    {
      assert !Free(live, h) && Free(live, s);
    }
  }

  // An aligned run smaller than a block lies in one of its halves.
  lemma RunInHalf(size: nat, lo: nat, ns: nat, s: nat, n: nat)
    requires ValidBlock(size, lo, ns) && ValidBlock(size, s, n) && n != ns && lo <= s && s + n <= lo + ns
    ensures ns > 1 && n < ns
    ensures ValidBlock(size, lo, ns / 2) && ValidBlock(size, lo + ns / 2, ns / 2)
    ensures s < lo + ns / 2 ==> s + n <= lo + ns / 2
  {
    SmallerPow2(n, ns);
    Halves(size, lo, ns);
    hide Multiple;
    var mid := lo + ns / 2;
    Pow2Divides(n, ns / 2);
    MultipleOfMultiple(mid, ns / 2, n);
    if s < mid { MultipleGap(s, mid, n); }
  }

  // ... and conversely.
  lemma {:induction false} RoomForRun(size: nat, live: Blocks, lo: nat, ns: nat, s: nat, n: nat)
    requires WellFormed(size, live) && ValidBlock(size, lo, ns)
    requires FreeRun(size, live, s, n) && lo <= s && s + n <= lo + ns
    ensures n <= Longest(live, lo, ns)
    decreases ns
  {
    if n == ns {
      NoHeadInRun(size, live, s, n);
      FullWhenEmpty(live, lo, ns);
    } else {
      NoHeadInRun(size, live, s, n);
      RunInHalf(size, lo, ns, s, n);
      assert ns > 1 && !(lo in live && live[lo] == ns);
      hide ValidBlock;
      hide WellFormed;
      hide FreeRun;
      var mid := lo + ns / 2;
      if s < mid {
        RoomForRun(size, live, lo, ns / 2, s, n);
      } else {
        RoomForRun(size, live, mid, ns / 2, s, n);
      }
    }
  }

  // What the root value means: the largest free aligned run, up to powers of two.
  lemma LongestIsLargestFreeRun(size: nat, live: Blocks, lo: nat, ns: nat, n: nat)
    requires WellFormed(size, live) && ValidBlock(size, lo, ns) && NotInside(live, lo, ns) && IsPow2(n)
    ensures n <= Longest(live, lo, ns)
       <==> exists s: nat :: lo <= s && s + n <= lo + ns && FreeRun(size, live, s, n)
  {
    if n <= Longest(live, lo, ns) {
      var s := RunBelow(size, live, lo, ns, n);
    }
    forall s: nat | lo <= s && s + n <= lo + ns && FreeRun(size, live, s, n)
      ensures n <= Longest(live, lo, ns)
    {
      RoomForRun(size, live, lo, ns, s, n);
    }
  }

  // Taking a free run leaves a well-formed block set.
  lemma TakeKeepsWellFormed(size: nat, live: Blocks, s: nat, n: nat)
    requires WellFormed(size, live) && FreeRun(size, live, s, n)
    ensures WellFormed(size, live[s := n]) && s !in live
    ensures NotInside(live, s, n)
  {
    var now := live[s := n];
    assert Free(live, s);
    forall h, k | h in now && k in now && h < k
      ensures h + now[h] <= k
    {
      assert h in live || h == s;
      if k in live {
        assert !Free(live, k);
      }
    }
  }

  lemma DropKeepsWellFormed(size: nat, live: Blocks, h: nat)
    requires WellFormed(size, live) && h in live
    ensures WellFormed(size, live - {h})
    ensures FreeRun(size, live - {h}, h, live[h])
  {
    var now := live - {h};
    forall f | h <= f < h + live[h]
      ensures Free(now, f)
    {
      forall k | k in now
        ensures !(k <= f < k + now[k])
      {
        assert k < h || h < k;
      }
    }
  }

  // Frame accounting: every frame is free or in exactly one live block.

  ghost function FreeFrames(size: nat, live: Blocks): set<nat> {
    set f: nat | f < size && Free(live, f)
  }

  ghost function BlockFrames(h: nat, n: nat): (r: set<nat>)
    ensures |r| == n && forall f: nat :: f in r <==> h <= f < h + n
  {
    if n == 0 then {} else BlockFrames(h, n - 1) + {h + n - 1}
  }

  ghost function LiveFrames(live: Blocks): nat
    decreases |live|
  {
    if live == map[] then 0
    else
      var h := Least(live);
      live[h] + LiveFrames(live - {h})
  }

  // The lowest live head; any choice would do, this one makes the sum a function.
  ghost function Least(live: Blocks): (h: nat)
    requires live != map[]
    ensures h in live && forall k :: k in live ==> h <= k
  {
    assert exists h :: h in live && forall k :: k in live ==> h <= k by {
      var h := LeastOf(live.Keys);
    }
    var h :| h in live && forall k :: k in live ==> h <= k;
    h
  }

  lemma {:induction false} LeastOf(s: set<nat>) returns (h: nat)
    requires s != {}
    ensures h in s && forall k :: k in s ==> h <= k
    decreases |s|
  {
    h :| h in s;
    if s != {h} {
      var y := LeastOf(s - {h});
      assert forall k :: k in s ==> k == h || k in s - {h};
      h := if h < y then h else y;
    }
  }

  lemma {:induction false} FramesConserved(size: nat, live: Blocks)
    requires WellFormed(size, live)
    ensures |FreeFrames(size, live)| + LiveFrames(live) == size
    decreases |live|
  {
    if live == map[] {
      assert FreeFrames(size, live) == BlockFrames(0, size);
    } else {
      var h := Least(live);
      var rest := live - {h};
      DropKeepsWellFormed(size, live, h);
      FramesConserved(size, rest);
      SplitFree(size, live, h);
      assert FreeFrames(size, live) !! BlockFrames(h, live[h]);
    }
  }

  lemma SplitFree(size: nat, live: Blocks, h: nat)
    requires WellFormed(size, live) && h in live
    ensures FreeFrames(size, live - {h}) == FreeFrames(size, live) + BlockFrames(h, live[h])
  {
    var rest := live - {h};
    DropKeepsWellFormed(size, live, h);
    forall f: nat | f < size
      ensures Free(rest, f) <==> Free(live, f) || f in BlockFrames(h, live[h])
    {
      FreeAfterDrop(size, live, h, f);
    }
  }

  lemma FreeAfterDrop(size: nat, live: Blocks, h: nat, f: nat)
    requires WellFormed(size, live) && h in live
    ensures Free(live - {h}, f) <==> Free(live, f) || h <= f < h + live[h]
  {
    if Free(live - {h}, f) && !(h <= f < h + live[h]) {
      assert forall k :: k in live ==> k == h || k in live - {h};
    }
    if h <= f < h + live[h] {
      DropKeepsWellFormed(size, live, h);
    }
  }
}

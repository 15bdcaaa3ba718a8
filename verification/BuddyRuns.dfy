/** Whole runs of the allocator: boot reservation, then any mix of allocations and references. */
module BuddyRuns {
  import opened Basics
  import opened Bits
  import opened BuddyTree
  import opened BuddyNodes
  import opened BuddyAllocator

  // What a caller can observe: the live blocks and the reference counts.
  datatype State = State(live: Blocks, refs: seq<nat>)

  datatype Request = Alloc(nrpages: nat) | Get(pfn: nat) | Put(pfn: nat)

  ghost predicate Consistent(size: nat, s: State) {
    && WellFormed(size, s.live)
    && |s.refs| == size
    && forall f :: 0 <= f < size ==> (s.refs[f] > 0 <==> f in s.live)
  }

  ghost predicate Fits(size: nat, live: Blocks, n: nat) {
    exists s: nat :: FreeRun(size, live, s, n)
  }

  ghost predicate IsLowest(size: nat, live: Blocks, n: nat, s: nat) {
    FreeRun(size, live, s, n) && forall t: nat :: FreeRun(size, live, t, n) ==> s <= t
  }

  ghost function Lowest(size: nat, live: Blocks, n: nat): (s: nat)
    requires Fits(size, live, n)
    ensures IsLowest(size, live, n, s)
  {
    assert exists s: nat :: IsLowest(size, live, n, s) by {
      var s: nat :| FreeRun(size, live, s, n);
      var l := LowestBelow(size, live, n, s);
    }
    var s: nat :| IsLowest(size, live, n, s);
    s
  }

  lemma {:induction false} LowestBelow(size: nat, live: Blocks, n: nat, s: nat) returns (l: nat)
    requires FreeRun(size, live, s, n)
    ensures IsLowest(size, live, n, l)
    decreases s
  {
    if t: nat :| FreeRun(size, live, t, n) && t < s {
      l := LowestBelow(size, live, n, t);
    } else {
      l := s;
    }
  }

  // One request, seen from outside. Put is meant for heads of live blocks only.
  ghost function Step(size: nat, s: State, r: Request): State
    requires Consistent(size, s)
    requires r.Put? ==> r.pfn in s.live
  {
    match r
    case Alloc(nrpages) =>
      var n := RoundUp(nrpages);
      if Fits(size, s.live, n) then
        var p := Lowest(size, s.live, n);
        State(s.live[p := n], s.refs[p := 1])
      else s
    case Get(pfn) =>
      if pfn in s.live then s.(refs := s.refs[pfn := s.refs[pfn] + 1]) else s
    case Put(pfn) =>
      State(if s.refs[pfn] == 1 then s.live - {pfn} else s.live, s.refs[pfn := s.refs[pfn] - 1])
  }

  lemma StepKeepsConsistent(size: nat, s: State, r: Request)
    requires Consistent(size, s) && (r.Put? ==> r.pfn in s.live)
    ensures Consistent(size, Step(size, s, r))
  {
    match r
    case Alloc(nrpages) =>
      if Fits(size, s.live, RoundUp(nrpages)) {
        TakeKeepsWellFormed(size, s.live, Lowest(size, s.live, RoundUp(nrpages)), RoundUp(nrpages));
      }
    case Get(pfn) =>
    case Put(pfn) =>
      DropKeepsWellFormed(size, s.live, pfn);
  }

  // A run is legal when every release names the head of a block that is live by then.
  ghost predicate Legal(size: nat, s: State, rs: seq<Request>)
    requires Consistent(size, s)
    decreases |rs|
  {
    rs == [] ||
    ((rs[0].Put? ==> rs[0].pfn in s.live) &&
     (StepKeepsConsistent(size, s, rs[0]); Legal(size, Step(size, s, rs[0]), rs[1..])))
  }

  ghost function Run(size: nat, s: State, rs: seq<Request>): (t: State)
    requires Consistent(size, s) && Legal(size, s, rs)
    ensures Consistent(size, t)
    decreases |rs|
  {
    if rs == [] then s
    else
      StepKeepsConsistent(size, s, rs[0]);
      Run(size, Step(size, s, rs[0]), rs[1..])
  }

  // In every reachable state live blocks are aligned and disjoint, and no frame is lost.
  lemma RunConservesFrames(size: nat, s: State, rs: seq<Request>)
    requires Consistent(size, s) && Legal(size, s, rs)
    ensures var t := Run(size, s, rs);
      WellFormed(size, t.live) && |FreeFrames(size, t.live)| + LiveFrames(t.live) == size
  {
    FramesConserved(size, Run(size, s, rs).live);
  }

  // Releasing what was just allocated restores the live blocks, hence (CanonicalIsUnique) the array.
  lemma AllocThenPut(size: nat, s: State, nrpages: nat)
    requires Consistent(size, s) && Fits(size, s.live, RoundUp(nrpages))
    ensures var p := Lowest(size, s.live, RoundUp(nrpages));
      Legal(size, s, [Alloc(nrpages), Put(p)]) && Run(size, s, [Alloc(nrpages), Put(p)]) == s
  {
    var n := RoundUp(nrpages);
    var p := Lowest(size, s.live, n);
    var rs := [Alloc(nrpages), Put(p)];
    TakeKeepsWellFormed(size, s.live, p, n);
    StepKeepsConsistent(size, s, rs[0]);
    var mid := Step(size, s, rs[0]);
    assert rs[1..] == [Put(p)];
    PutUndoesTake(size, s, p, n);
    RunOne(size, mid, Put(p));
  }

  lemma RunOne(size: nat, s: State, r: Request)
    requires Consistent(size, s) && (r.Put? ==> r.pfn in s.live)
    ensures Legal(size, s, [r]) && Run(size, s, [r]) == Step(size, s, r)
  {
    StepKeepsConsistent(size, s, r);
    assert [r][1..] == [];
  }

  lemma PutUndoesTake(size: nat, s: State, p: nat, n: nat)
    requires Consistent(size, s) && FreeRun(size, s.live, p, n) && p !in s.live && p < size
    requires Consistent(size, State(s.live[p := n], s.refs[p := 1]))
    ensures Step(size, State(s.live[p := n], s.refs[p := 1]), Put(p)) == s
  {
    assert s.live[p := n] - {p} == s.live;
    assert s.refs[p] == 0;
  }

  function Puts(order: seq<nat>): (rs: seq<Request>)
    ensures |rs| == |order| && forall i :: 0 <= i < |rs| ==> rs[i] == Put(order[i])
  {
    seq(|order|, i requires 0 <= i < |order| => Put(order[i]))
  }

  // How often h occurs.
  function Count(order: seq<nat>, h: nat): nat {
    multiset(order)[h]
  }

  // order names only live blocks, each as often as it is referenced.
  ghost predicate ListsAll(s: State, order: seq<nat>) {
    && (forall h :: h in order ==> h in s.live)
    && (forall h :: h in s.live ==> h < |s.refs| && Count(order, h) == s.refs[h])
  }

  // Dropping every reference to every block, in any order and however they interleave, leaves
  // nothing live; ReleaseAll below says what that means for the array.
  lemma {:induction false} ReleaseAllInAnyOrder(size: nat, s: State, order: seq<nat>)
    requires Consistent(size, s) && ListsAll(s, order)
    ensures Legal(size, s, Puts(order)) && Run(size, s, Puts(order)).live == map[]
    decreases |order|
  {
    if order == [] {
      assert s.live == map[];
    } else {
      var h, rest := order[0], order[1..];
      RestListsAll(size, s, order);
      hide Consistent;
      hide Step;
      hide ListsAll;
      ReleaseAllInAnyOrder(size, Step(size, s, Put(h)), rest);
      assert Puts(order)[0] == Put(h) && Puts(order)[1..] == Puts(rest);
    }
  }

  lemma RestListsAll(size: nat, s: State, order: seq<nat>)
    requires Consistent(size, s) && ListsAll(s, order) && order != []
    ensures order[0] in s.live
    ensures Consistent(size, Step(size, s, Put(order[0])))
    ensures ListsAll(Step(size, s, Put(order[0])), order[1..])
  {
    var h, rest := order[0], order[1..];
    assert h in order;
    StepKeepsConsistent(size, s, Put(h));
    var t := Step(size, s, Put(h));
    RestCounts(order);
    forall k: nat | k in t.live
      ensures k < |t.refs| && Count(rest, k) == t.refs[k]
    {
      assert k in s.live;
    }
    forall k | k in rest
      ensures k in t.live
    {
      assert k in order && Count(rest, k) >= 1;
    }
  }

  lemma RestCounts(order: seq<nat>)
    requires order != []
    ensures forall k: nat :: Count(order, k) == Count(order[1..], k) + if k == order[0] then 1 else 0
    ensures forall k: nat :: k in order[1..] ==> Count(order[1..], k) >= 1
  {
    assert order == [order[0]] + order[1..];
    assert multiset(order) == multiset{order[0]} + multiset(order[1..]);
  }

  ghost predicate NeverReleasesBelow(rs: seq<Request>, k: nat) {
    forall i :: 0 <= i < |rs| && rs[i].Put? ==> rs[i].pfn >= k
  }

  // The boot frames [0, k) stay allocated as long as nobody releases one, so no allocation
  // returns any of them: after boot, result 0 means failure and nothing else.
  lemma {:induction false} ReservedFramesStay(size: nat, s: State, rs: seq<Request>, k: nat, nrpages: nat)
    requires Consistent(size, s) && Legal(size, s, rs) && NeverReleasesBelow(rs, k)
    requires forall f :: 0 <= f < k ==> f in s.live
    ensures var t := Run(size, s, rs);
      && (forall f :: 0 <= f < k ==> f in t.live)
      && (Fits(size, t.live, RoundUp(nrpages)) ==> Lowest(size, t.live, RoundUp(nrpages)) >= k)
    decreases |rs|
  {
    if rs == [] {
      if Fits(size, s.live, RoundUp(nrpages)) {
        var p := Lowest(size, s.live, RoundUp(nrpages));
        TakeKeepsWellFormed(size, s.live, p, RoundUp(nrpages));
      }
    } else {
      StepKeepsConsistent(size, s, rs[0]);
      var t := Step(size, s, rs[0]);
      ReservedFramesStay(size, t, rs[1..], k, nrpages);
    }
  }

  ghost function StateOf(b: Buddy): State
    reads b, b.refCnt
  {
    State(b.live, b.refCnt[..])
  }

  function Reserved(k: nat): (r: Blocks)
    ensures forall f: nat :: f in r <==> f < k
    ensures forall f: nat :: f in r ==> r[f] == 1
  {
    if k == 0 then map[] else Reserved(k - 1)[k - 1 := 1]
  }

  // The reservation loop of buddy_init (mm.c:58-60): k single-page allocations take frames 0 .. k-1.
  method Reserve(b: Buddy, k: nat)
    requires b.Valid() && b.live == map[] && k <= b.size
    modifies b.bitmap, b.refCnt, b`live
    ensures b.Valid()
    ensures b.live == Reserved(k)
    ensures forall f :: 0 <= f < b.size ==> b.refCnt[f] == if f < k then 1 else 0
  {
    var pfn := 0;
    hide Canonical;
    hide WellFormed;
    hide FreeRun;
    while pfn < k
      invariant 0 <= pfn <= k && b.Valid()
      invariant b.live == Reserved(pfn)
      invariant forall f :: 0 <= f < b.size ==> b.refCnt[f] == if f < pfn then 1 else 0
    {
      NextSingleFrame(b.size, b.live, pfn);
      var got := b.BuddyAlloc(1);
      pfn := pfn + 1;
    }
  }

  lemma NextSingleFrame(size: nat, live: Blocks, pfn: nat)
    requires pfn < size && live == Reserved(pfn)
    ensures RoundUp(1) == 1 && IsLowest(size, live, 1, pfn)
    ensures live[pfn := 1] == Reserved(pfn + 1)
  {
    assert 1 == Pow2(0);
    SingleIsMultiple(pfn);
    assert Free(live, pfn);
    forall t: nat | FreeRun(size, live, t, 1)
      ensures pfn <= t
    {
      assert t < pfn ==> t in live;
      assert Free(live, t);
    }
  }

  lemma {:induction false} SingleIsMultiple(x: nat)
    ensures Multiple(x, 1)
  {
    if x > 0 { SingleIsMultiple(x - 1); }
  }

  // What the code accepts: 64-bit page counts up to the largest power of two, existing frames,
  // and releases of live heads only.
  ghost predicate Acceptable(size: nat, s: State, r: Request) {
    match r
    case Alloc(nrpages) => nrpages <= WORD / 2
    case Get(pfn) => pfn < size
    case Put(pfn) => pfn in s.live
  }

  // One request on the arrays is one step of the abstract allocator.
  method Perform(b: Buddy, r: Request)
    requires b.Valid() && Acceptable(b.size, StateOf(b), r)
    modifies b.bitmap, b.refCnt, b`live
    ensures b.Valid() && StateOf(b) == Step(b.size, old(StateOf(b)), r)
  {
    match r
    case Alloc(nrpages) =>
      ghost var was := b.live;
      var p := b.BuddyAlloc(nrpages);
      if Fits(b.size, was, RoundUp(nrpages)) {
        assert IsLowest(b.size, was, RoundUp(nrpages), p);
      }
    case Get(pfn) =>
      var err := b.GetPage(pfn);
    case Put(pfn) =>
      b.PutPage(pfn);
  }

  // Any legal request sequence drives the arrays exactly as Run says. The array ends as a function
  // of the live blocks: whenever they are what they were, so is it, and with none left it is the
  // one buddy_init built.
  method Execute(b: Buddy, rs: seq<Request>)
    requires b.Valid() && Legal(b.size, StateOf(b), rs)
    requires forall i :: 0 <= i < |rs| && !rs[i].Put? ==> Acceptable(b.size, StateOf(b), rs[i])
    modifies b.bitmap, b.refCnt, b`live
    ensures b.Valid() && StateOf(b) == Run(b.size, old(StateOf(b)), rs)
    ensures b.live == old(b.live) ==> b.Nodes() == old(b.Nodes())
    ensures b.live == map[] ==> b.Initial()
  {
    ghost var start := StateOf(b);
    assert rs[0..] == rs;
    var i := 0;
    while i < |rs|
      invariant 0 <= i <= |rs| && b.Valid()
      invariant Legal(b.size, StateOf(b), rs[i..])
      invariant Run(b.size, StateOf(b), rs[i..]) == Run(b.size, start, rs)
      decreases |rs| - i
    {
      assert rs[i..][0] == rs[i] && rs[i..][1..] == rs[i + 1..];
      Perform(b, rs[i]);
      i := i + 1;
    }
    if b.live == start.live { CanonicalIsUnique(b.size, b.live, b.bitmap[..], old(b.bitmap[..])); }
    if b.live == map[] { EmptyIsCanonical(b.size, b.bitmap[..]); }
  }

  // An allocation followed by its release leaves every array entry as it was.
  method AllocateAndRelease(b: Buddy, nrpages: nat)
    requires b.Valid() && nrpages <= WORD / 2 && Fits(b.size, b.live, RoundUp(nrpages))
    modifies b.bitmap, b.refCnt, b`live
    ensures b.Valid() && StateOf(b) == old(StateOf(b)) && b.Nodes() == old(b.Nodes())
  {
    ghost var start, bm := StateOf(b), b.bitmap[..];
    hide WellFormed;
    hide FreeRun;
    hide Canonical;
    hide Longest;
    var pfn := b.BuddyAlloc(nrpages);
    TakenThenPut(b.size, start, pfn, RoundUp(nrpages), StateOf(b));
    b.PutPage(pfn);
    assert StateOf(b) == start;
    CanonicalIsUnique(b.size, b.live, b.bitmap[..], bm);
  }

  lemma TakenThenPut(size: nat, start: State, pfn: nat, n: nat, now: State)
    requires Consistent(size, start) && Consistent(size, now) && FreeRun(size, start.live, pfn, n)
    requires now.live == start.live[pfn := n] && now.refs == start.refs[pfn := 1]
    ensures pfn in now.live && Step(size, now, Put(pfn)) == start
  {
    TakeKeepsWellFormed(size, start.live, pfn, n);
    PutUndoesTake(size, start, pfn, n);
    assert now == State(start.live[pfn := n], start.refs[pfn := 1]);
  }

  // Dropping every reference, in any order, brings back the array buddy_init built.
  method ReleaseAll(b: Buddy, order: seq<nat>)
    requires b.Valid() && ListsAll(StateOf(b), order)
    modifies b.bitmap, b.refCnt, b`live
    ensures b.Valid() && b.live == map[] && b.Initial()
  {
    ReleaseAllInAnyOrder(b.size, StateOf(b), order);
    Execute(b, Puts(order));
  }
}

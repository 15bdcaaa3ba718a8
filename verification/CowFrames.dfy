/** The copy-on-write kernel on the buddy allocator: every run of the one is a run of the other. */
module CowFrames {
  import opened Bits
  import opened BuddyTree
  import opened BuddyAllocator
  import opened BuddyRuns
  import Cow
  import CowRuns
  import CowTheorems

  // Faults, tables, tasks and list nodes take single pages: the live blocks are the counted frames.
  function Singles(ref: seq<nat>): Blocks {
    map f: nat | 0 <= f < |ref| && ref[f] > 0 :: 1
  }

  function Frames(ref: seq<nat>): State {
    State(Singles(ref), ref)
  }

  lemma SinglesAreBlocks(ref: seq<nat>)
    requires IsPow2(|ref|)
    ensures Consistent(|ref|, Frames(ref))
  {
    assert 1 == Pow2(0);
    forall h | h in Singles(ref)
      ensures ValidBlock(|ref|, h, 1)
    {
      SingleIsMultiple(h);
    }
  }

  // A run of one frame is a frame without references.
  lemma FreeFrameIsRun(ref: seq<nat>, f: nat)
    ensures FreeRun(|ref|, Singles(ref), f, 1) <==> f < |ref| && ref[f] == 0
  {
    assert 1 == Pow2(0);
    SingleIsMultiple(f);
    if f < |ref| {
      assert ref[f] > 0 <==> f in Singles(ref);
      assert ref[f] > 0 ==> !Free(Singles(ref), f);
    }
  }

  // Allocation succeeds exactly when some frame has no reference, and takes the first one.
  lemma AllocTakesFirst(ref: seq<nat>)
    ensures Fits(|ref|, Singles(ref), 1) <==> 0 in ref
    ensures Fits(|ref|, Singles(ref), 1) ==>
      var f := Lowest(|ref|, Singles(ref), 1);
      f < |ref| && ref[f] == 0 && forall g :: 0 <= g < f ==> ref[g] > 0
  {
    forall f: nat
      ensures FreeRun(|ref|, Singles(ref), f, 1) <==> f < |ref| && ref[f] == 0
    {
      FreeFrameIsRun(ref, f);
    }
    if 0 in ref {
      var f :| 0 <= f < |ref| && ref[f] == 0;
      assert FreeRun(|ref|, Singles(ref), f, 1);
    }
  }

  // f is the frame alloc_page returns.
  ghost predicate Chosen(ref: seq<nat>, f: nat) {
    Fits(|ref|, Singles(ref), 1) && f == Lowest(|ref|, Singles(ref), 1)
  }

  lemma AllocStep(ref: seq<nat>, f: nat)
    requires IsPow2(|ref|) && Chosen(ref, f)
    ensures f < |ref| && Consistent(|ref|, Frames(ref))
    ensures Step(|ref|, Frames(ref), Alloc(1)) == Frames(ref[f := 1])
  {
    SinglesAreBlocks(ref);
    AllocTakesFirst(ref);
    assert RoundUp(1) == 1;
    assert Singles(ref)[f := 1] == Singles(ref[f := 1]);
  }

  lemma GetStep(ref: seq<nat>, g: nat)
    requires IsPow2(|ref|) && g < |ref| && ref[g] > 0
    ensures Consistent(|ref|, Frames(ref))
    ensures Step(|ref|, Frames(ref), Get(g)) == Frames(ref[g := ref[g] + 1])
  {
    SinglesAreBlocks(ref);
    assert Singles(ref) == Singles(ref[g := ref[g] + 1]);
  }

  lemma PutStep(ref: seq<nat>, g: nat)
    requires IsPow2(|ref|) && g < |ref| && ref[g] > 0
    ensures Consistent(|ref|, Frames(ref)) && g in Singles(ref)
    ensures Step(|ref|, Frames(ref), Put(g)) == Frames(ref[g := ref[g] - 1])
  {
    SinglesAreBlocks(ref);
    var now := ref[g := ref[g] - 1];
    assert Singles(now) == if ref[g] == 1 then Singles(ref) - {g} else Singles(ref);
  }

  lemma {:induction false} RunAppend(size: nat, s: State, first: seq<Request>, second: seq<Request>)
    requires Consistent(size, s) && Legal(size, s, first) && Legal(size, Run(size, s, first), second)
    ensures Legal(size, s, first + second)
    ensures Run(size, s, first + second) == Run(size, Run(size, s, first), second)
    decreases |first|
  {
    if first == [] {
      assert first + second == second;
    } else {
      StepKeepsConsistent(size, s, first[0]);
      RunAppend(size, Step(size, s, first[0]), first[1..], second);
      assert (first + second)[0] == first[0] && (first + second)[1..] == first[1..] + second;
    }
  }

  // The requests rs lead from the counts ref to the counts now.
  ghost predicate Leads(ref: seq<nat>, rs: seq<Request>, now: seq<nat>) {
    && |now| == |ref| && Consistent(|ref|, Frames(ref)) && Legal(|ref|, Frames(ref), rs)
    && Run(|ref|, Frames(ref), rs) == Frames(now)
  }

  lemma LeadsNowhere(ref: seq<nat>)
    requires IsPow2(|ref|)
    ensures Leads(ref, [], ref)
  {
    SinglesAreBlocks(ref);
  }

  lemma LeadsOne(ref: seq<nat>, r: Request, now: seq<nat>)
    requires |now| == |ref| && Consistent(|ref|, Frames(ref)) && (r.Put? ==> r.pfn in Singles(ref))
    requires Step(|ref|, Frames(ref), r) == Frames(now)
    ensures Leads(ref, [r], now)
  {
    RunOne(|ref|, Frames(ref), r);
  }

  lemma LeadsOn(ref: seq<nat>, first: seq<Request>, mid: seq<nat>, second: seq<Request>, now: seq<nat>)
    requires Leads(ref, first, mid) && Leads(mid, second, now)
    ensures Leads(ref, first + second, now)
  {
    RunAppend(|ref|, Frames(ref), first, second);
  }

  // ---------------------------------------------------------------------------------
  // What each step asks of the allocator.

  // One get_page for every mapped page, in the order of the loop.
  function Gets(pt: map<Cow.Key, Cow.Pte>, p: nat, pages: seq<nat>): seq<Request>
    decreases |pages|
  {
    if pages == [] then []
    else
      var v := pages[|pages| - 1];
      Gets(pt, p, pages[..|pages| - 1]) + if (p, v) in pt then [Get(pt[(p, v)].frame)] else []
  }

  ghost function Requests(c: Cow.State, op: CowRuns.Op): seq<Request>
    requires Cow.Inv(c) && CowTheorems.Enabled(c, op)
  {
    match op
    case Access(p, a, kind, f) =>
      var k := (p, CowRuns.PageOf(a));
      if !CowRuns.Faults(c, p, a, kind) then []
      else if CowRuns.IsCow(c, k, kind) then [Alloc(1), Put(c.pt[k].frame)]
      else [Alloc(1)]
    case Fork(p) => Gets(c.pt, p, CowRuns.PageList(c.procs[p]))
    case KernelTake(f) => [Alloc(1)]
  }

  // Steps that allocate get the frame alloc_page returns.
  ghost predicate Served(c: Cow.State, op: CowRuns.Op) {
    match op
    case Access(p, a, kind, f) => p < |c.procs| && CowRuns.Faults(c, p, a, kind) ==> Chosen(c.ref, f)
    case Fork(p) => true
    case KernelTake(f) => Chosen(c.ref, f)
  }

  lemma AllocLeads(ref: seq<nat>, f: nat)
    requires IsPow2(|ref|) && Chosen(ref, f)
    ensures f < |ref| && Leads(ref, [Alloc(1)], ref[f := 1])
  {
    AllocStep(ref, f);
    LeadsOne(ref, Alloc(1), ref[f := 1]);
  }

  // Nothing, a new frame, or a new frame for one reference to an old one.
  ghost predicate AccessChanges(ref: seq<nat>, rs: seq<Request>, now: seq<nat>, f: nat) {
    || (rs == [] && now == ref)
    || (f < |ref| && rs == [Alloc(1)] && now == ref[f := 1])
    || (f < |ref| && exists g :: 0 <= g < |ref| && Exchanged(ref, rs, now, f, g))
  }

  ghost predicate Exchanged(ref: seq<nat>, rs: seq<Request>, now: seq<nat>, f: nat, g: nat)
    requires f < |ref| && g < |ref|
  {
    g != f && ref[g] > 0 && rs == [Alloc(1), Put(g)] && now == ref[f := 1][g := ref[g] - 1]
  }

  // What an access asks of the allocator, and what it does to the counts.
  lemma AccessCounts(c: Cow.State, p: nat, a: nat, kind: CowRuns.Kind, f: nat)
    requires Cow.Inv(c) && p < |c.procs| && CowRuns.Supplied(c, p, a, kind, f)
    ensures Requests(c, CowRuns.Access(p, a, kind, f)) != [] ==> CowRuns.Faults(c, p, a, kind)
    ensures AccessChanges(
      c.ref, Requests(c, CowRuns.Access(p, a, kind, f)), CowRuns.DoAccess(c, p, a, kind, f).0.ref, f)
  {
    var k := (p, CowRuns.PageOf(a));
    if CowRuns.Faults(c, p, a, kind) {
      CowRuns.FaultOk(c, p, a, kind, f);
      var t := CowRuns.Fault(c, p, a, kind, f).value;
      Cow.MappedIsCounted(t, k);
      HitCounts(t, k, a, kind);
      if CowRuns.IsCow(c, k, kind) {
        Cow.MappedIsCounted(c, k);
        assert Exchanged(c.ref, [Alloc(1), Put(c.pt[k].frame)], t.ref, f, c.pt[k].frame);
      }
    } else if CowRuns.Hits(c, k, kind) {
      Cow.MappedIsCounted(c, k);
      HitCounts(c, k, a, kind);
    }
    hide CowRuns.Hit;
    hide Cow.Inv;
    hide CowRuns.FillPage;
    hide Exchanged;
  }

  lemma HitCounts(c: Cow.State, k: Cow.Key, a: nat, kind: CowRuns.Kind)
    requires k in c.pt && c.pt[k].frame < |c.ram|
    ensures CowRuns.Hit(c, k, a, kind).0.ref == c.ref
  {
  }

  lemma AccessLeads(c: Cow.State, p: nat, a: nat, kind: CowRuns.Kind, f: nat)
    requires Cow.Inv(c) && p < |c.procs| && CowRuns.Supplied(c, p, a, kind, f) && IsPow2(|c.ref|)
    requires CowRuns.Faults(c, p, a, kind) ==> Chosen(c.ref, f)
    ensures Leads(c.ref, Requests(c, CowRuns.Access(p, a, kind, f)), CowRuns.DoAccess(c, p, a, kind, f).0.ref)
  {
    AccessCounts(c, p, a, kind, f);
    CountsLead(c.ref, Requests(c, CowRuns.Access(p, a, kind, f)), CowRuns.DoAccess(c, p, a, kind, f).0.ref, f);
  }

  lemma CountsLead(ref: seq<nat>, rs: seq<Request>, now: seq<nat>, f: nat)
    requires IsPow2(|ref|) && (rs != [] ==> Chosen(ref, f)) && AccessChanges(ref, rs, now, f)
    ensures Leads(ref, rs, now)
  {
    if rs == [] {
      LeadsNowhere(ref);
    } else {
      AllocLeads(ref, f);
      if rs != [Alloc(1)] {
        var g :| 0 <= g < |ref| && Exchanged(ref, rs, now, f, g);
        hide Leads;
        PutLeads(ref, f, g);
      }
    }
  }

  lemma PutLeads(ref: seq<nat>, f: nat, g: nat)
    requires IsPow2(|ref|) && f < |ref| && g < |ref| && f != g && ref[g] > 0
    requires Leads(ref, [Alloc(1)], ref[f := 1])
    ensures Leads(ref, [Alloc(1), Put(g)], ref[f := 1][g := ref[g] - 1])
  {
    var mid := ref[f := 1];
    var now := mid[g := ref[g] - 1];
    PutStep(mid, g);
    LeadsOne(mid, Put(g), now);
    LeadsOn(ref, [Alloc(1)], mid, [Put(g)], now);
    assert [Alloc(1)] + [Put(g)] == [Alloc(1), Put(g)];
  }

  lemma {:induction false} GetsLead(c: Cow.State, p: nat, q: nat, pages: seq<nat>)
    requires CowRuns.ForkReady(c, p, q, pages) && IsPow2(|c.ref|)
    ensures Leads(c.ref, Gets(c.pt, p, pages), CowRuns.ForkPages(c, p, q, pages).ref)
    decreases |pages|
  {
    if pages == [] {
      LeadsNowhere(c.ref);
    } else {
      var rest, v := pages[..|pages| - 1], pages[|pages| - 1];
      PrefixShares(c, p, q, pages);
      var t := CowRuns.ForkPages(c, p, q, rest);
      hide Leads;
      hide CowRuns.ForkReady;
      hide Cow.SharePage;
      GetsLead(c, p, q, rest);
      ShareLeads(c.ref, Gets(c.pt, p, rest), t, p, q, v);
    }
  }

  // Up to the last page the parent's entries keep their frames.
  lemma PrefixShares(c: Cow.State, p: nat, q: nat, pages: seq<nat>)
    requires CowRuns.ForkReady(c, p, q, pages) && pages != []
    ensures var rest, v := pages[..|pages| - 1], pages[|pages| - 1];
      var t := CowRuns.ForkPages(c, p, q, rest);
      && CowRuns.ForkReady(c, p, q, rest) && Cow.Inv(t)
      && CowRuns.Entry(t.pt, (p, v)) == CowRuns.Entry(c.pt, (p, v))
  {
    var rest, v := pages[..|pages| - 1], pages[|pages| - 1];
    assert v !in rest && forall w :: w in rest ==> w in pages;
    CowRuns.ForkPagesOk(c, p, q, rest);
  }

  lemma ShareLeads(ref: seq<nat>, rs: seq<Request>, t: Cow.State, p: nat, q: nat, v: nat)
    requires Cow.Inv(t) && Leads(ref, rs, t.ref) && IsPow2(|ref|)
    ensures Leads(ref, rs + if (p, v) in t.pt then [Get(t.pt[(p, v)].frame)] else [],
                  Cow.SharePage(t, p, q, v).ref)
  {
    if (p, v) in t.pt {
      Cow.MappedIsCounted(t, (p, v));
      var g := t.pt[(p, v)].frame;
      hide Cow.Inv;
      GetStep(t.ref, g);
      LeadsOne(t.ref, Get(g), t.ref[g := t.ref[g] + 1]);
      hide Leads;
      LeadsOn(ref, rs, t.ref, [Get(g)], t.ref[g := t.ref[g] + 1]);
    } else {
      assert rs + [] == rs;
    }
  }

  lemma StepLeads(c: Cow.State, op: CowRuns.Op)
    requires Cow.Inv(c) && CowTheorems.Enabled(c, op) && Served(c, op) && IsPow2(|c.ref|)
    ensures Leads(c.ref, Requests(c, op), CowTheorems.Step(c, op).0.ref)
  {
    match op
    case Access(p, a, kind, f) => AccessLeads(c, p, a, kind, f);
    case Fork(p) =>
      CowRuns.AddChildReady(c, p);
      GetsLead(CowRuns.AddChild(c, p), p, |c.procs|, CowRuns.PageList(c.procs[p]));
    case KernelTake(f) => AllocLeads(c.ref, f);
  }

  ghost predicate AllServed(c: Cow.State, ops: seq<CowRuns.Op>)
    requires Cow.Inv(c) && CowTheorems.Legal(c, ops)
    decreases |ops|
  {
    ops == [] ||
    (Served(c, ops[0]) && (CowTheorems.StepInv(c, ops[0]); AllServed(CowTheorems.Step(c, ops[0]).0, ops[1..])))
  }

  ghost function AllRequests(c: Cow.State, ops: seq<CowRuns.Op>): seq<Request>
    requires Cow.Inv(c) && CowTheorems.Legal(c, ops)
    decreases |ops|
  {
    if ops == [] then []
    else
      CowTheorems.StepInv(c, ops[0]);
      Requests(c, ops[0]) + AllRequests(CowTheorems.Step(c, ops[0]).0, ops[1..])
  }

  // Every run of the copy-on-write kernel drives the allocator through a legal run: it never
  // releases a frame that is not allocated, and both agree on every count at the end.
  lemma {:induction false} RunLeads(c: Cow.State, ops: seq<CowRuns.Op>)
    requires Cow.Inv(c) && CowTheorems.Legal(c, ops) && AllServed(c, ops) && IsPow2(|c.ref|)
    ensures Leads(c.ref, AllRequests(c, ops), CowTheorems.Run(c, ops).ref)
    decreases |ops|
  {
    if ops == [] {
      LeadsNowhere(c.ref);
    } else {
      CowTheorems.StepInv(c, ops[0]);
      var t := CowTheorems.Step(c, ops[0]).0;
      StepLeads(c, ops[0]);
      RunLeads(t, ops[1..]);
      LeadsOn(c.ref, Requests(c, ops[0]), t.ref, AllRequests(t, ops[1..]), CowTheorems.Run(c, ops).ref);
    }
  }

  // Requests for one page, and references to frames that exist: what the arrays accept.
  ghost predicate Single(size: nat, rs: seq<Request>) {
    forall r :: r in rs ==> (r.Alloc? ==> r.nrpages == 1) && (r.Get? ==> r.pfn < size)
  }

  lemma {:induction false} GetsAreSingle(c: Cow.State, p: nat, pages: seq<nat>)
    requires Cow.Inv(c)
    ensures Single(|c.ref|, Gets(c.pt, p, pages))
    decreases |pages|
  {
    if pages != [] {
      var v := pages[|pages| - 1];
      GetsAreSingle(c, p, pages[..|pages| - 1]);
      if (p, v) in c.pt { Cow.MappedIsCounted(c, (p, v)); }
    }
  }

  lemma StepIsSingle(c: Cow.State, op: CowRuns.Op)
    requires Cow.Inv(c) && CowTheorems.Enabled(c, op)
    ensures Single(|c.ref|, Requests(c, op))
  {
    match op
    case Access(p, a, kind, f) =>
      hide CowRuns.Faults;
      hide CowRuns.IsCow;
      hide Cow.Inv;
    case Fork(p) => GetsAreSingle(c, p, CowRuns.PageList(c.procs[p]));
    case KernelTake(f) =>
  }

  lemma {:induction false} RequestsAreSingle(c: Cow.State, ops: seq<CowRuns.Op>)
    requires Cow.Inv(c) && CowTheorems.Legal(c, ops) && AllServed(c, ops) && IsPow2(|c.ref|)
    ensures Single(|c.ref|, AllRequests(c, ops))
    decreases |ops|
  {
    if ops != [] {
      CowTheorems.StepInv(c, ops[0]);
      StepLeads(c, ops[0]);
      StepIsSingle(c, ops[0]);
      RequestsAreSingle(CowTheorems.Step(c, ops[0]).0, ops[1..]);
      hide Requests;
    }
  }

  // On the arrays: the requests of any run, put to the allocator itself, leave its reference counts
  // and live blocks as the run says.
  method RunOnArrays(b: Buddy, ghost c: Cow.State, ghost ops: seq<CowRuns.Op>, rs: seq<Request>)
    requires b.Valid() && StateOf(b) == Frames(c.ref)
    requires Cow.Inv(c) && CowTheorems.Legal(c, ops) && AllServed(c, ops) && rs == AllRequests(c, ops)
    modifies b.bitmap, b.refCnt, b`live
    ensures b.Valid() && StateOf(b) == Frames(CowTheorems.Run(c, ops).ref)
  {
    assert |c.ref| == b.size && IsPow2(b.size);
    RunLeads(c, ops);
    RequestsAreSingle(c, ops);
    hide Cow.Inv;
    hide AllRequests;
    hide AllServed;
    hide Frames;
    Execute(b, rs);
  }

  // The kernel starts there: after buddy_init the counted frames are the reserved ones.
  lemma BootIsSingles(k: nat, refs: seq<nat>)
    requires k <= |refs| && forall f :: 0 <= f < |refs| ==> refs[f] == if f < k then 1 else 0
    ensures Reserved(k) == Singles(refs)
  {
    forall f: nat
      ensures f in Reserved(k) <==> f in Singles(refs)
    {
    }
  }

  // So after any run a frame is free in the allocator exactly when the kernel does not keep it
  // and no entry of any process maps it: nothing leaks, nothing is freed too early.
  lemma FreeExactlyWhenUnmapped(c: Cow.State, ops: seq<CowRuns.Op>, f: nat)
    requires Cow.Inv(c) && CowTheorems.Legal(c, ops) && AllServed(c, ops) && IsPow2(|c.ref|) && f < |c.ref|
    ensures Leads(c.ref, AllRequests(c, ops), CowTheorems.Run(c, ops).ref)
    ensures var t, b := CowTheorems.Run(c, ops), Run(|c.ref|, Frames(c.ref), AllRequests(c, ops));
      Free(b.live, f) <==> f !in t.kernel && forall k :: k in t.pt ==> t.pt[k].frame != f
  {
    RunLeads(c, ops);
    var t := CowTheorems.Run(c, ops);
    Cow.FreeMeansUnmapped(t, f);
    FreeFrameIsRun(t.ref, f);
    assert t.ref[f] > 0 <==> f in Singles(t.ref);
  }
}

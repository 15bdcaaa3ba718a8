/** Copy-on-write refines eager copying, and both refine one flat memory per process. */
module CowRefinement {
  import opened Basics
  import opened Vmas
  import opened Cow
  import opened CowRuns

  // ---------------------------------------------------------------------------------
  // The eager kernel: the fork that proc.c:281-287 keeps as a comment. Every process owns a
  // private copy of each of its pages; no frames, no counts, no withheld permissions.

  datatype Eager = Eager(procs: seq<seq<Vma>>, mem: map<Key, Page>)

  ghost predicate PagePerm(areas: seq<Vma>, v: nat, kind: Kind) {
    exists x :: x in areas && x.HasPage(v) && Allowed(x, kind)
  }

  ghost function EagerHit(e: Eager, k: Key, a: nat, kind: Kind): (Eager, Outcome)
    requires k in e.mem
  {
    match kind
    case Store(b) =>
      var page: Page := e.mem[k][Offset(a) := b];
      (e.(mem := e.mem[k := page]), Done)
    case _ => (e, Byte(e.mem[k][Offset(a)]))
  }

  ghost function EagerAccess(e: Eager, image: seq<byte>, p: nat, a: nat, kind: Kind, junk: Page): (Eager, Outcome)
    requires p < |e.procs| && forall x :: x in e.procs[p] ==> GoodArea(image, x)
  {
    var k := (p, PageOf(a));
    if k in e.mem && PagePerm(e.procs[p], PageOf(a), kind) then EagerHit(e, k, a, kind)
    else
      match Find(e.procs[p], a)
      case None => (e, Denied)
      case Some(x) =>
        if !Allowed(x, kind) then (e, Denied)
        else
          AreaPageOverlaps(x, a);
          EagerHit(e.(mem := e.mem[k := FillPage(junk, x, PageOf(a), image)]), k, a, kind)
  }

  ghost function EagerFork(e: Eager, p: nat): Eager
    requires p < |e.procs|
  {
    var c := |e.procs|;
    var copies := set k | k in e.mem && k.0 == p :: (c, k.1);
    Eager(e.procs + [Reverse(e.procs[p])],
          map k | k in e.mem.Keys + copies :: if k in e.mem then e.mem[k] else e.mem[(p, k.1)])
  }

  // ---------------------------------------------------------------------------------
  // Abstraction: forget which frame holds a page.

  function ZeroPage(): Page {
    seq(4096, _ => 0)
  }

  // What frame f held before it was handed out; anonymous memory shows it.
  function Junk(s: State, f: nat): Page {
    if f < |s.ram| then s.ram[f] else ZeroPage()
  }

  function Content(s: State, k: Key): Page
    requires k in s.pt
  {
    if s.pt[k].frame < |s.ram| then s.ram[s.pt[k].frame] else ZeroPage()
  }

  ghost function Abs(s: State): Eager {
    Eager(s.procs, map k | k in s.pt :: Content(s, k))
  }

  ghost predicate Unmapped(pt: map<Key, Pte>, f: nat) {
    forall k :: k in pt ==> pt[k].frame != f
  }

  // Moving a page to a fresh copy of its frame does not show.
  lemma AbsBreak(s: State, k: Key, f: nat, e: Pte)
    requires k in s.pt && s.pt[k].frame < |s.ram| && s.pt[k].frame < |s.ref| && s.ref[s.pt[k].frame] > 0
    requires f < |s.ref| && f < |s.ram| && Unmapped(s.pt, f) && e.frame == f
    ensures Abs(BreakShare(s, k, f, e)) == Abs(s)
  {
    assert Abs(BreakShare(s, k, f, e)).mem == Abs(s).mem;
  }

  lemma AbsFresh(s: State, k: Key, f: nat, page: Page, e: Pte)
    requires f < |s.ref| && f < |s.ram| && Unmapped(s.pt, f) && e.frame == f
    ensures Abs(MapFresh(s, k, f, page, e)) == Abs(s).(mem := Abs(s).mem[k := page])
  {
    assert Abs(MapFresh(s, k, f, page, e)).mem == Abs(s).mem[k := page];
  }

  lemma AbsWrite(s: State, k: Key, off: nat, b: byte)
    requires Inv(s) && k in s.pt && s.pt[k].w && off < PGSIZE
    ensures s.pt[k].frame < |s.ram|
    ensures Abs(WriteByte(s, s.pt[k].frame, off, b)).mem == Abs(s).mem[k := Abs(s).mem[k][off := b]]
  {
    MappedIsCounted(s, k);
    forall j | j in s.pt && j != k
      ensures s.pt[j].frame != s.pt[k].frame
    {
      assert Mappers(s.pt, s.pt[k].frame) == {k};
      assert j in Mappers(s.pt, s.pt[j].frame);
    }
  }

  lemma AbsHit(s: State, k: Key, a: nat, kind: Kind)
    requires Inv(s) && Hits(s, k, kind) && s.pt[k].frame < |s.ram|
    ensures Abs(Hit(s, k, a, kind).0) == EagerHit(Abs(s), k, a, kind).0
    ensures Hit(s, k, a, kind).1 == EagerHit(Abs(s), k, a, kind).1
  {
    if kind.Store? { AbsWrite(s, k, Offset(a), kind.b); }
  }

  ghost predicate SamePage(m: map<Key, Page>, k: Key, n: map<Key, Page>, j: Key) {
    (k in m <==> j in n) && (k in m ==> m[k] == n[j])
  }

  lemma EagerForkAt(e: Eager, p: nat, k: Key)
    requires p < |e.procs|
    ensures SamePage(EagerFork(e, p).mem, k, e.mem, if k !in e.mem && k.0 == |e.procs| then (p, k.1) else k)
  {
    assert k.0 == |e.procs| && (p, k.1) in e.mem ==> (p, k.1).0 == p;
  }

  lemma AbsForkAt(s: State, t: State, p: nat, k: Key)
    requires t.ram == s.ram && Entry(t.pt, k) == AfterFork(s.pt, p, |s.procs|, k)
    ensures SamePage(Abs(t).mem, k, Abs(s).mem, if k !in s.pt && k.0 == |s.procs| then (p, k.1) else k)
  {
  }

  lemma AbsFork(s: State, p: nat)
    requires Inv(s) && p < |s.procs|
    ensures Abs(DoFork(s, p)) == EagerFork(Abs(s), p)
  {
    ForkShares(s, p);
    hide Inv;
    hide DoFork;
    var t, u := Abs(DoFork(s, p)).mem, EagerFork(Abs(s), p).mem;
    forall k
      ensures SamePage(t, k, u, k)
    {
      hide Abs;
      assert k in Abs(s).mem <==> k in s.pt by { AbsKeys(s); }
      AbsForkAt(s, DoFork(s, p), p, k);
      EagerForkAt(Abs(s), p, k);
    }
    assert forall k :: SamePage(t, k, u, k);
    SameMap(t, u);
  }

  lemma AbsKeys(s: State)
    ensures Abs(s).mem.Keys == s.pt.Keys && Abs(s).procs == s.procs
  {
  }

  lemma SameMap(m: map<Key, Page>, n: map<Key, Page>)
    requires forall k :: SamePage(m, k, n, k)
    ensures m == n
  {
    forall k
      ensures k in m <==> k in n
      ensures k in m ==> m[k] == n[k]
    {
      assert SamePage(m, k, n, k);
    }
  }

  // ---------------------------------------------------------------------------------
  // One access.

  // The permissions of a page are those of its entry, write possibly withheld.
  lemma PermOfEntry(s: State, k: Key, kind: Kind)
    requires Inv(s) && k in s.pt
    ensures k.0 < |s.procs|
    ensures EntryAllows(s.pt[k], kind) ==> PagePerm(s.procs[k.0], k.1, kind)
    ensures PagePerm(s.procs[k.0], k.1, kind) ==> EntryAllows(s.pt[k], kind) || IsCow(s, k, kind)
  {
    var x := OwnerOf(s, k);
  }

  // A store to a shared page outside every area, in the slack of a partly covered page: the
  // eager kernel lets it through, the copy-on-write handler panics because find_vma fails.
  ghost predicate SlackStore(s: State, p: nat, a: nat, kind: Kind)
    requires p < |s.procs|
  {
    && IsCow(s, (p, PageOf(a)), kind)
    && Find(s.procs[p], a) == None
    && PagePerm(s.procs[p], PageOf(a), kind)
  }

  ghost predicate SameAsEager(s: State, p: nat, a: nat, kind: Kind, f: nat)
    requires Inv(s) && p < |s.procs| && Supplied(s, p, a, kind, f)
  {
    var r, e := DoAccess(s, p, a, kind, f), EagerAccess(Abs(s), s.image, p, a, kind, Junk(s, f));
    Abs(r.0) == e.0 && r.1 == e.1
  }

  // An access looks the same in both kernels, except exactly for such a store.
  lemma AccessRefines(s: State, p: nat, a: nat, kind: Kind, f: nat)
    requires Inv(s) && p < |s.procs| && Supplied(s, p, a, kind, f)
    ensures SameAsEager(s, p, a, kind, f) <==> !SlackStore(s, p, a, kind)
  {
    var k := (p, PageOf(a));
    if k in s.pt { PermOfEntry(s, k, kind); }
    if Hits(s, k, kind) {
      MappedIsCounted(s, k);
      AbsHit(s, k, a, kind);
    } else if Granted(s, p, a, kind) {
      FaultRefines(s, p, a, kind, f);
    } else if k in s.pt && PagePerm(s.procs[p], PageOf(a), kind) {
      DeniedOnShared(s, p, a, kind);
    }
  }

  // On a mapped page with permission, only an address outside every area can be refused.
  lemma DeniedOnShared(s: State, p: nat, a: nat, kind: Kind)
    requires Inv(s) && p < |s.procs| && (p, PageOf(a)) in s.pt && PagePerm(s.procs[p], PageOf(a), kind)
    ensures Find(s.procs[p], a).Some? ==> Allowed(Find(s.procs[p], a).value, kind)
  {
    if Find(s.procs[p], a).Some? {
      var x := OwnerOf(s, (p, PageOf(a)));
      ContainedPage(Find(s.procs[p], a).value, a);
    }
  }

  lemma FaultRefines(s: State, p: nat, a: nat, kind: Kind, f: nat)
    requires Inv(s) && p < |s.procs| && Supplied(s, p, a, kind, f) && Faults(s, p, a, kind)
    ensures SameAsEager(s, p, a, kind, f)
  {
    var k := (p, PageOf(a));
    hide Inv;
    hide BreakShare;
    hide MapFresh;
    hide FillPage;
    AbsKeys(s);
    FaultOk(s, p, a, kind, f);
    var t := Fault(s, p, a, kind, f).value;
    MappedIsCounted(t, k);
    AbsHit(t, k, a, kind);
    hide Abs;
    hide Hit;
    hide EagerHit;
    if IsCow(s, k, kind) {
      BreakShows(s, p, a, kind, f);
    } else {
      FillShows(s, p, a, kind, f);
    }
  }

  lemma BreakShows(s: State, p: nat, a: nat, kind: Kind, f: nat)
    requires Inv(s) && p < |s.procs| && FreeFrame(s, f)
    requires IsCow(s, (p, PageOf(a)), kind) && Faults(s, p, a, kind)
    ensures Abs(Fault(s, p, a, kind, f).value) == Abs(s) && PagePerm(s.procs[p], PageOf(a), kind)
  {
    var x := Find(s.procs[p], a).value;
    ContainedPage(x, a);
    FreeMeansUnmapped(s, f);
    MappedIsCounted(s, (p, PageOf(a)));
    AbsBreak(s, (p, PageOf(a)), f, FullEntry(x, f));
  }

  lemma FillShows(s: State, p: nat, a: nat, kind: Kind, f: nat)
    requires Inv(s) && p < |s.procs| && FreeFrame(s, f)
    requires !Hits(s, (p, PageOf(a)), kind) && !IsCow(s, (p, PageOf(a)), kind) && Faults(s, p, a, kind)
    ensures (p, PageOf(a)) !in s.pt
    ensures var x := Find(s.procs[p], a).value;
      (AreaPageOverlaps(x, a);
       Abs(Fault(s, p, a, kind, f).value)
         == Abs(s).(mem := Abs(s).mem[(p, PageOf(a)) := FillPage(Junk(s, f), x, PageOf(a), s.image)]))
  {
    var x := Find(s.procs[p], a).value;
    AreaPageOverlaps(x, a);
    FaultFillsInvalid(s, p, a, kind);
    FreeMeansUnmapped(s, f);
    AbsFresh(s, (p, PageOf(a)), f, FillPage(Junk(s, f), x, PageOf(a), s.image), FullEntry(x, f));
  }
}

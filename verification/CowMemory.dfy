/** The user's view: every process has a memory of its own that starts as the program image and
    remembers its own last write. */
module CowMemory {
  import opened Basics
  import opened Vmas
  import opened Cow
  import opened CowRuns
  import opened CowRefinement
  import opened CowTheorems

  // (process, address) -> last byte stored there, by the process or by an ancestor before the fork.
  type Written = map<(nat, nat), byte>

  ghost function Inherit(w: Written, p: nat, c: nat): Written {
    var copies := set k | k in w && k.0 == p :: (c, k.1);
    map k | k in w.Keys + copies :: if k in w then w[k] else w[(p, k.1)]
  }

  ghost function Record(w: Written, processes: nat, op: Op, out: Outcome): Written {
    match op
    case Access(p, a, kind, f) => if kind.Store? && out == Done then w[(p, a) := kind.b] else w
    case Fork(p) => Inherit(w, p, processes)
    case KernelTake(f) => w
  }

  ghost function ReadAt(m: map<Key, Page>, p: nat, a: nat): Option<byte> {
    if (p, PageOf(a)) in m then Some(m[(p, PageOf(a))][Offset(a)]) else None
  }

  // The byte the image holds for address a of a file-backed area.
  ghost predicate ImageByte(image: seq<byte>, areas: seq<Vma>, a: nat, b: byte) {
    forall x :: x in areas && x.Contains(a) && !x.Anon() && GoodArea(image, x) ==> image[x.pgoff + (a - x.start)] == b
  }

  ghost predicate AgreesAt(e: Eager, image: seq<byte>, w: Written, p: nat, a: nat) {
    p < |e.procs| ==>
      if (p, a) in w then ReadAt(e.mem, p, a) == Some(w[(p, a)])
      else ReadAt(e.mem, p, a).Some? ==> ImageByte(image, e.procs[p], a, ReadAt(e.mem, p, a).value)
  }

  ghost predicate Agrees(e: Eager, image: seq<byte>, w: Written) {
    && (forall k :: k in w ==> k.0 < |e.procs|)
    && (forall k :: k in e.mem ==> k.0 < |e.procs|)
    && forall p: nat, a: nat :: AgreesAt(e, image, w, p, a)
  }

  lemma SameCell(a: nat, a': nat)
    ensures PageOf(a) == PageOf(a') && Offset(a) == Offset(a') <==> a == a'
  {
  }

  // A store reaches exactly one address of one process.
  lemma HitAgrees(e: Eager, image: seq<byte>, w: Written, p: nat, a: nat, kind: Kind)
    requires Agrees(e, image, w) && p < |e.procs| && (p, PageOf(a)) in e.mem
    ensures var r := EagerHit(e, (p, PageOf(a)), a, kind);
      Agrees(r.0, image, if kind.Store? then w[(p, a) := kind.b] else w)
  {
    if kind.Store? {
      var t := EagerHit(e, (p, PageOf(a)), a, kind).0;
      var now := w[(p, a) := kind.b];
      forall q: nat, a': nat
        ensures AgreesAt(t, image, now, q, a')
      {
        assert AgreesAt(e, image, w, q, a');
        SameCell(a, a');
      }
    }
  }

  // A page filled on demand holds the image wherever a file-backed area covers it.
  lemma FillAgrees(e: Eager, image: seq<byte>, w: Written, p: nat, a: nat, x: Vma, junk: Page)
    requires Agrees(e, image, w) && p < |e.procs| && (p, PageOf(a)) !in e.mem
    requires PageDisjoint(e.procs[p]) && x in e.procs[p] && x.Contains(a) && GoodArea(image, x)
    ensures (AreaPageOverlaps(x, a);
             Agrees(e.(mem := e.mem[(p, PageOf(a)) := FillPage(junk, x, PageOf(a), image)]), image, w))
  {
    AreaPageOverlaps(x, a);
    var page := FillPage(junk, x, PageOf(a), image);
    var t := e.(mem := e.mem[(p, PageOf(a)) := page]);
    forall q: nat, a': nat
      ensures AgreesAt(t, image, w, q, a')
    {
      assert AgreesAt(e, image, w, q, a');
      if q == p && PageOf(a') == PageOf(a) {
        FillByte(junk, x, PageOf(a), image, Offset(a'));
        FilledByteIsImage(e.procs[p], image, x, a, a', page[Offset(a')]);
      }
    }
  }

  lemma FilledByteIsImage(areas: seq<Vma>, image: seq<byte>, x: Vma, a: nat, a': nat, b: byte)
    requires PageDisjoint(areas) && x in areas && x.Contains(a) && PageOf(a') == PageOf(a) && GoodArea(image, x)
    requires !x.Anon() && x.Contains(a') ==> b == image[x.pgoff + (a' - x.start)]
    ensures ImageByte(image, areas, a', b)
  {
    forall y | y in areas && y.Contains(a')
      ensures y == x
    {
      ContainedPage(x, a);
      ContainedPage(y, a');
      OneAreaPerPage(areas, x, y, PageOf(a));
    }
  }

  lemma AccessAgrees(e: Eager, image: seq<byte>, w: Written, p: nat, a: nat, kind: Kind, junk: Page)
    requires Agrees(e, image, w) && p < |e.procs| && PageDisjoint(e.procs[p])
    requires forall x :: x in e.procs[p] ==> GoodArea(image, x)
    ensures var r := EagerAccess(e, image, p, a, kind, junk);
      Agrees(r.0, image, if kind.Store? && r.1 == Done then w[(p, a) := kind.b] else w)
  {
    var k := (p, PageOf(a));
    if k in e.mem && PagePerm(e.procs[p], PageOf(a), kind) {
      HitAgrees(e, image, w, p, a, kind);
    } else {
      match Find(e.procs[p], a)
      case None =>
      case Some(x) =>
        if Allowed(x, kind) {
          AreaPageOverlaps(x, a);
          assert PagePerm(e.procs[p], PageOf(a), kind);
          FillAgrees(e, image, w, p, a, x, junk);
          HitAgrees(e.(mem := e.mem[k := FillPage(junk, x, PageOf(a), image)]), image, w, p, a, kind);
        }
    }
  }

  lemma InheritAt(w: Written, p: nat, c: nat, k: (nat, nat))
    ensures k in Inherit(w, p, c) <==> k in w || (k.0 == c && (p, k.1) in w)
    ensures k in Inherit(w, p, c) ==> Inherit(w, p, c)[k] == if k in w then w[k] else w[(p, k.1)]
  {
    assert k.0 == c && (p, k.1) in w ==> (p, k.1).0 == p;
  }

  lemma ForkAgrees(e: Eager, image: seq<byte>, w: Written, p: nat)
    requires Agrees(e, image, w) && p < |e.procs|
    ensures Agrees(EagerFork(e, p), image, Inherit(w, p, |e.procs|))
  {
    var t, v, c := EagerFork(e, p), Inherit(w, p, |e.procs|), |e.procs|;
    forall q: nat, a: nat
      ensures AgreesAt(t, image, v, q, a)
    {
      ForkAgreesAt(e, image, w, p, q, a);
    }
    forall k | k in v
      ensures k.0 < |t.procs|
    {
      InheritAt(w, p, c, k);
    }
    forall k | k in t.mem
      ensures k.0 < |t.procs|
    {
      EagerForkAt(e, p, k);
    }
  }

  lemma ForkAgreesAt(e: Eager, image: seq<byte>, w: Written, p: nat, q: nat, a: nat)
    requires Agrees(e, image, w) && p < |e.procs|
    ensures AgreesAt(EagerFork(e, p), image, Inherit(w, p, |e.procs|), q, a)
  {
    var c := |e.procs|;
    var origin := if q == c then p else q;
    EagerForkAt(e, p, (q, PageOf(a)));
    InheritAt(w, p, c, (q, a));
    assert AgreesAt(e, image, w, origin, a);
    if q == c {
      assert (q, a) !in w && (q, PageOf(a)) !in e.mem;
      forall x
        ensures x in Reverse(e.procs[p]) <==> x in e.procs[p]
      {
        ReverseMembers(e.procs[p], x);
      }
    }
  }

  // ---------------------------------------------------------------------------------
  // Whole runs of the copy-on-write kernel.

  lemma StepAgrees(s: State, w: Written, op: Op)
    requires Inv(s) && Enabled(s, op) && Agrees(Abs(s), s.image, w)
    ensures var r := Step(s, op);
      Agrees(Abs(r.0), s.image, Record(w, |s.procs|, op, r.1))
  {
    hide Agrees;
    hide Inv;
    match op
    case Access(p, a, kind, f) => AccessStepAgrees(s, w, p, a, kind, f);
    case Fork(p) =>
      AbsKeys(s);
      AbsFork(s, p);
      ForkAgrees(Abs(s), s.image, w, p);
    case KernelTake(f) => KernelTakeHidden(s, f);
  }

  lemma AccessStepAgrees(s: State, w: Written, p: nat, a: nat, kind: Kind, f: nat)
    requires Inv(s) && p < |s.procs| && Supplied(s, p, a, kind, f) && Agrees(Abs(s), s.image, w)
    ensures var r := DoAccess(s, p, a, kind, f);
      Agrees(Abs(r.0), s.image, Record(w, |s.procs|, Access(p, a, kind, f), r.1))
  {
    AbsKeys(s);
    AccessRefines(s, p, a, kind, f);
    if SlackStore(s, p, a, kind) {
      SlackOutcome(s, p, a, kind, f);
    } else {
      AccessAgrees(Abs(s), s.image, w, p, a, kind, Junk(s, f));
    }
    hide DoAccess;
    hide EagerAccess;
    hide Agrees;
  }

  // What the run stored, starting from w.
  ghost function WrittenBy(s: State, w: Written, ops: seq<Op>): Written
    requires Inv(s) && Legal(s, ops)
    decreases |ops|
  {
    if ops == [] then w
    else
      StepInv(s, ops[0]);
      var r := Step(s, ops[0]);
      WrittenBy(r.0, Record(w, |s.procs|, ops[0], r.1), ops[1..])
  }

  lemma {:induction false} RunAgrees(s: State, w: Written, ops: seq<Op>)
    requires Inv(s) && Legal(s, ops) && Agrees(Abs(s), s.image, w)
    ensures Agrees(Abs(Run(s, ops)), s.image, WrittenBy(s, w, ops))
    decreases |ops|
  {
    if ops != [] {
      StepInv(s, ops[0]);
      StepAgrees(s, w, ops[0]);
      var r := Step(s, ops[0]);
      RunAgrees(r.0, Record(w, |s.procs|, ops[0], r.1), ops[1..]);
    }
  }

  lemma StartAgrees(s: State)
    requires Start(s)
    ensures Inv(s) && Agrees(Abs(s), s.image, map[])
  {
    StartInv(s);
    AbsKeys(s);
  }

  // In a state that agrees with w, reading a readable address of an area succeeds and gives the
  // last byte written there, or else, in a file-backed area, the image byte.
  lemma LoadSees(s: State, w: Written, p: nat, a: nat, x: Vma, f: nat)
    requires Inv(s) && Agrees(Abs(s), s.image, w) && p < |s.procs| && Supplied(s, p, a, Load, f)
    requires x in s.procs[p] && x.Contains(a) && x.Readable()
    ensures var out := DoAccess(s, p, a, Load, f).1;
      && out.Byte?
      && ((p, a) in w ==> out.b == w[(p, a)])
      && ((p, a) !in w && !x.Anon() ==> out.b == s.image[x.pgoff + (a - x.start)])
  {
    OnlyAreaAt(s, p, a, x);
    LoadIsEager(s, w, p, a, f);
    AbsKeys(s);
    var junk := Junk(s, f);
    assert forall y :: y in s.procs[p] ==> GoodArea(s.image, y);
    hide *;
    LoadReturns(Abs(s), s.image, p, a, x, junk);
    AgreedRead(EagerAccess(Abs(s), s.image, p, a, Load, junk).0, s.image, w, p, a, x);
  }

  lemma LoadIsEager(s: State, w: Written, p: nat, a: nat, f: nat)
    requires Inv(s) && Agrees(Abs(s), s.image, w) && p < |s.procs| && Supplied(s, p, a, Load, f)
    ensures p < |Abs(s).procs| && forall y :: y in Abs(s).procs[p] ==> GoodArea(s.image, y)
    ensures var e := EagerAccess(Abs(s), s.image, p, a, Load, Junk(s, f));
      DoAccess(s, p, a, Load, f).1 == e.1 && Agrees(e.0, s.image, w)
  {
    AbsKeys(s);
    AccessRefines(s, p, a, Load, f);
    AccessAgrees(Abs(s), s.image, w, p, a, Load, Junk(s, f));
    hide Abs;
    hide DoAccess;
    hide EagerAccess;
    hide Agrees;
  }

  lemma AgreedRead(e: Eager, image: seq<byte>, w: Written, p: nat, a: nat, x: Vma)
    requires Agrees(e, image, w) && p < |e.procs| && x in e.procs[p] && x.Contains(a) && GoodArea(image, x)
    requires ReadAt(e.mem, p, a).Some?
    ensures var b := ReadAt(e.mem, p, a).value;
      && ((p, a) in w ==> b == w[(p, a)])
      && ((p, a) !in w && !x.Anon() ==> b == image[x.pgoff + (a - x.start)])
  {
    assert AgreesAt(e, image, w, p, a);
  }

  lemma OnlyAreaAt(s: State, p: nat, a: nat, x: Vma)
    requires Inv(s) && p < |s.procs| && x in s.procs[p] && x.Contains(a)
    ensures Find(s.procs[p], a) == Some(x) && GoodArea(s.image, x)
  {
    PageDisjointIsDisjoint(s.procs[p]);
  }

  lemma LoadReturns(e: Eager, image: seq<byte>, p: nat, a: nat, x: Vma, junk: Page)
    requires p < |e.procs| && forall x :: x in e.procs[p] ==> GoodArea(image, x)
    requires Find(e.procs[p], a) == Some(x) && x.Readable()
    ensures var r := EagerAccess(e, image, p, a, Load, junk);
      r.1.Byte? && r.0.procs == e.procs && ReadAt(r.0.mem, p, a) == Some(r.1.b)
  {
  }

  // The theorem: run the kernel from boot through any forks, faults, loads, stores and kernel
  // allocations. Every process then reads its own memory: its last write, else the image.
  lemma MemoryIsPrivateAndPersistent(s: State, ops: seq<Op>, p: nat, a: nat, x: Vma, f: nat)
    requires Start(s) && Inv(s) && Legal(s, ops)  // Inv follows from Start by StartInv
    requires p < |Run(s, ops).procs| && Supplied(Run(s, ops), p, a, Load, f)
    requires x in Run(s, ops).procs[p] && x.Contains(a) && x.Readable()
    ensures var w, out := WrittenBy(s, map[], ops), DoAccess(Run(s, ops), p, a, Load, f).1;
      && out.Byte?
      && ((p, a) in w ==> out.b == w[(p, a)])
      && ((p, a) !in w && !x.Anon() ==> out.b == s.image[x.pgoff + (a - x.start)])
  {
    StartAgrees(s);
    RunAgrees(s, map[], ops);
    LoadSees(Run(s, ops), WrittenBy(s, map[], ops), p, a, x, f);
  }

  // In particular no access of one process changes any page of another.
  lemma AccessInvisibleToOthers(s: State, p: nat, a: nat, kind: Kind, f: nat, q: nat, v: nat)
    requires Inv(s) && p < |s.procs| && Supplied(s, p, a, kind, f) && q != p
    ensures SamePage(Abs(DoAccess(s, p, a, kind, f).0).mem, (q, v), Abs(s).mem, (q, v))
  {
    AbsKeys(s);
    AccessRefines(s, p, a, kind, f);
    if SlackStore(s, p, a, kind) {
      SlackOutcome(s, p, a, kind, f);
    } else {
      OthersKept(Abs(s), s.image, p, a, kind, Junk(s, f), q, v);
    }
    hide Abs;
    hide DoAccess;
    hide EagerAccess;
    hide Inv;
  }

  lemma OthersKept(e: Eager, image: seq<byte>, p: nat, a: nat, kind: Kind, junk: Page, q: nat, v: nat)
    requires p < |e.procs| && (forall x :: x in e.procs[p] ==> GoodArea(image, x)) && q != p
    ensures SamePage(EagerAccess(e, image, p, a, kind, junk).0.mem, (q, v), e.mem, (q, v))
  {
  }
}

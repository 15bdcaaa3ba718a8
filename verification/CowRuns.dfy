/** The copy-on-write kernel over whole runs, the eager-copy kernel it must look like, and the
    flat per-process memory both must look like. */
module CowRuns {
  import opened Basics
  import opened Vmas
  import opened Cow

  datatype Kind = Load | Fetch | Store(b: byte)

  datatype Outcome = Byte(b: byte) | Done | Denied

  // Frame f is the one alloc_page returns if the operation needs one.
  datatype Op =
    | Access(p: nat, a: nat, kind: Kind, f: nat)
    | Fork(p: nat)
    | KernelTake(f: nat)

  predicate Allowed(x: Vma, kind: Kind) {
    match kind
    case Load => x.Readable()
    case Fetch => x.Executable()
    case Store(_) => x.Writable()
  }

  predicate EntryAllows(e: Pte, kind: Kind) {
    (e.w ==> e.r) &&
    match kind
    case Load => e.r
    case Fetch => e.x
    case Store(_) => e.w
  }

  // ---------------------------------------------------------------------------------
  // Filling a page on demand (vm.c:298-314).

  function FillPage(junk: Page, x: Vma, v: nat, image: seq<byte>): Page
    requires x.HasPage(v) && x.start < x.end && v * PGSIZE < x.end && x.start < v * PGSIZE + PGSIZE
    requires GoodArea(image, x)
  {
    if x.Anon() then junk
    else
      var first, last := Max(v * PGSIZE, x.start), Min(v * PGSIZE + PGSIZE, x.end);
      var src := x.pgoff + (first - x.start);
      junk[..first - v * PGSIZE] + image[src..src + (last - first)] + junk[last - v * PGSIZE..]
  }

  // However unaligned the ends of the area are, its bytes come from the image, and the rest of
  // the page is left as the frame was.
  lemma FillByte(junk: Page, x: Vma, v: nat, image: seq<byte>, off: nat)
    requires x.HasPage(v) && x.start < x.end && v * PGSIZE < x.end && x.start < v * PGSIZE + PGSIZE
    requires GoodArea(image, x) && off < PGSIZE
    ensures var a := v * PGSIZE + off;
      FillPage(junk, x, v, image)[off]
        == if !x.Anon() && x.Contains(a) then image[x.pgoff + (a - x.start)] else junk[off]
  {
  }

  predicate InBss(x: Vma, a: nat) {
    x.start + x.filesz <= a < x.end
  }

  // ELF asks for zeros beyond vm_filesz; the code copies the image there too. A page reads as
  // ELF asks exactly when the image happens to hold zeros.
  lemma BssIsZeroIff(junk: Page, x: Vma, v: nat, image: seq<byte>)
    requires x.HasPage(v) && x.start < x.end && v * PGSIZE < x.end && x.start < v * PGSIZE + PGSIZE
    requires GoodArea(image, x) && !x.Anon()
    ensures (forall a: nat :: InBss(x, a) && PageOf(a) == v ==> FillPage(junk, x, v, image)[Offset(a)] == 0)
       <==> (forall a: nat :: InBss(x, a) && PageOf(a) == v ==> image[x.pgoff + (a - x.start)] == 0)
  {
    forall a: nat | InBss(x, a) && PageOf(a) == v
      ensures FillPage(junk, x, v, image)[Offset(a)] == image[x.pgoff + (a - x.start)]
    {
      FillByte(junk, x, v, image, Offset(a));
    }
  }

  // ---------------------------------------------------------------------------------
  // Accesses and faults.

  function PageOf(a: nat): nat { a / PGSIZE }
  function Offset(a: nat): (r: nat) ensures r < PGSIZE { a % PGSIZE }

  lemma AreaPageOverlaps(x: Vma, a: nat)
    requires x.Contains(a)
    ensures x.HasPage(PageOf(a)) && PageOf(a) * PGSIZE < x.end && x.start < PageOf(a) * PGSIZE + PGSIZE
  {
  }

  function FullEntry(x: Vma, f: nat): Pte {
    Pte(f, x.Readable(), x.Writable(), x.Executable())
  }

  ghost predicate FreeFrame(s: State, f: nat) {
    f < |s.ref| && f < |s.ram| && s.ref[f] == 0
  }

  predicate IsCow(s: State, k: Key, kind: Kind) {
    kind.Store? && k in s.pt && !s.pt[k].w
  }

  ghost predicate Hits(s: State, k: Key, kind: Kind) {
    k in s.pt && EntryAllows(s.pt[k], kind)
  }

  // The handler's two checks: an area contains the address, and it allows the access.
  predicate Granted(s: State, p: nat, a: nat, kind: Kind)
    requires p < |s.procs|
  {
    var x := Find(s.procs[p], a);
    x.Some? && Allowed(x.value, kind)
  }

  // The access traps and the handler goes on to allocate.
  ghost predicate Faults(s: State, p: nat, a: nat, kind: Kind)
    requires p < |s.procs|
  {
    !Hits(s, (p, PageOf(a)), kind) && Granted(s, p, a, kind)
  }

  // An access that faults needs a free frame, and comes to an end in a sound area only (CowReserved).
  ghost predicate Supplied(s: State, p: nat, a: nat, kind: Kind, f: nat)
    requires p < |s.procs|
  {
    Faults(s, p, a, kind) ==> FreeFrame(s, f) && Sound(Find(s.procs[p], a).value)
  }

  // do_page_fault; None is its Err panic.
  ghost function Fault(s: State, p: nat, a: nat, kind: Kind, f: nat): Option<State>
    requires Inv(s) && p < |s.procs| && (Granted(s, p, a, kind) ==> FreeFrame(s, f))
  {
    match Find(s.procs[p], a)
    case None => None
    case Some(x) =>
      var k := (p, PageOf(a));
      if !Allowed(x, kind) then None
      else if IsCow(s, k, kind) then
        MappedIsCounted(s, k);
        Some(BreakShare(s, k, f, FullEntry(x, f)))
      else
        AreaPageOverlaps(x, a);
        Some(MapFresh(s, k, f, FillPage(s.ram[f], x, PageOf(a), s.image), FullEntry(x, f)))
  }

  ghost function Hit(s: State, k: Key, a: nat, kind: Kind): (State, Outcome)
    requires k in s.pt && s.pt[k].frame < |s.ram|
  {
    match kind
    case Store(b) => (WriteByte(s, s.pt[k].frame, Offset(a), b), Done)
    case _ => (s, Byte(s.ram[s.pt[k].frame][Offset(a)]))
  }

  // The area that owns a mapped page is the only one on it.
  lemma OwnerOf(s: State, k: Key) returns (x: Vma)
    requires Inv(s) && k in s.pt
    ensures k.0 < |s.procs| && s.pt[k].frame < |s.ram|
    ensures x in s.procs[k.0] && Owns(x, k.1, s.pt[k])
    ensures forall y :: y in s.procs[k.0] && y.HasPage(k.1) ==> y == x
  {
    assert EntryOk(s, k, s.pt[k]);
    x :| x in s.procs[k.0] && Owns(x, k.1, s.pt[k]);
    forall y | y in s.procs[k.0] && y.HasPage(k.1)
      ensures y == x
    {
      OneAreaPerPage(s.procs[k.0], x, y, k.1);
    }
  }

  // A fault either is a copy-on-write store or fills an entry that was invalid.
  lemma FaultFillsInvalid(s: State, p: nat, a: nat, kind: Kind)
    requires Inv(s) && p < |s.procs| && Faults(s, p, a, kind)
    ensures IsCow(s, (p, PageOf(a)), kind) || (p, PageOf(a)) !in s.pt
  {
    var k := (p, PageOf(a));
    var x := Find(s.procs[p], a).value;
    ContainedPage(x, a);
    if k in s.pt { var y := OwnerOf(s, k); }
  }

  lemma FullEntryOk(s: State, p: nat, a: nat, x: Vma, f: nat)
    requires p < |s.procs| && x in s.procs[p] && x.Contains(a) && f < |s.ram| && Sound(x)
    ensures EntryOk(s, (p, PageOf(a)), FullEntry(x, f))
  {
    ContainedPage(x, a);
    assert Owns(x, PageOf(a), FullEntry(x, f));
  }

  lemma CowAreaIsSound(s: State, p: nat, a: nat, kind: Kind)
    requires Inv(s) && p < |s.procs| && Faults(s, p, a, kind) && IsCow(s, (p, PageOf(a)), kind)
    ensures Sound(Find(s.procs[p], a).value)
  {
    ContainedPage(Find(s.procs[p], a).value, a);
    var y := OwnerOf(s, (p, PageOf(a)));
  }

  lemma CowFaultOk(s: State, p: nat, a: nat, kind: Kind, f: nat)
    requires Inv(s) && p < |s.procs| && FreeFrame(s, f) && Faults(s, p, a, kind) && IsCow(s, (p, PageOf(a)), kind)
    ensures Fault(s, p, a, kind, f).Some?
    ensures var t := Fault(s, p, a, kind, f).value;
      && Sound(Find(s.procs[p], a).value) && Inv(t) && Hits(t, (p, PageOf(a)), kind)
      && t.procs == s.procs && t.image == s.image
  {
    var k, x := (p, PageOf(a)), Find(s.procs[p], a).value;
    CowAreaIsSound(s, p, a, kind);
    FullEntryOk(s, p, a, x, f);
    MappedIsCounted(s, k);
    BreakShareInv(s, k, f, FullEntry(x, f));
    hide Inv;
  }

  lemma FillFaultOk(s: State, p: nat, a: nat, kind: Kind, f: nat)
    requires Inv(s) && p < |s.procs| && FreeFrame(s, f) && Faults(s, p, a, kind) && !IsCow(s, (p, PageOf(a)), kind)
    ensures Fault(s, p, a, kind, f).Some?
    ensures var t, x := Fault(s, p, a, kind, f).value, Find(s.procs[p], a).value;
      && (Hits(t, (p, PageOf(a)), kind) <==> Sound(x)) && (Sound(x) ==> Inv(t))
      && t.procs == s.procs && t.image == s.image
  {
    var k, x := (p, PageOf(a)), Find(s.procs[p], a).value;
    FaultFillsInvalid(s, p, a, kind);
    AreaPageOverlaps(x, a);
    if Sound(x) {
      FullEntryOk(s, p, a, x, f);
      MapFreshInv(s, k, f, FillPage(s.ram[f], x, PageOf(a), s.image), FullEntry(x, f));
    }
    hide Inv;
    hide FillPage;
  }

  // After the handler the access goes through exactly in a sound area, and there the invariant holds.
  lemma FaultOk(s: State, p: nat, a: nat, kind: Kind, f: nat)
    requires Inv(s) && p < |s.procs| && FreeFrame(s, f) && Faults(s, p, a, kind)
    ensures Fault(s, p, a, kind, f).Some?
    ensures var t, x := Fault(s, p, a, kind, f).value, Find(s.procs[p], a).value;
      && (Hits(t, (p, PageOf(a)), kind) <==> Sound(x)) && (Sound(x) ==> Inv(t))
      && t.procs == s.procs && t.image == s.image
  {
    if IsCow(s, (p, PageOf(a)), kind) {
      CowFaultOk(s, p, a, kind, f);
    } else {
      FillFaultOk(s, p, a, kind, f);
    }
    hide *;
  }

  // One user instruction: try, fault if need be, retry.
  ghost function DoAccess(s: State, p: nat, a: nat, kind: Kind, f: nat): (State, Outcome)
    requires Inv(s) && p < |s.procs| && Supplied(s, p, a, kind, f)
  {
    var k := (p, PageOf(a));
    if Hits(s, k, kind) then
      MappedIsCounted(s, k);
      Hit(s, k, a, kind)
    else
      match Fault(s, p, a, kind, f)
      case None => (s, Denied)
      case Some(t) =>
        FaultOk(s, p, a, kind, f);
        MappedIsCounted(t, k);
        Hit(t, k, a, kind)
  }

  lemma DoAccessInv(s: State, p: nat, a: nat, kind: Kind, f: nat)
    requires Inv(s) && p < |s.procs| && Supplied(s, p, a, kind, f)
    ensures var t := DoAccess(s, p, a, kind, f).0; Inv(t) && t.procs == s.procs && t.image == s.image
  {
    var k := (p, PageOf(a));
    if Hits(s, k, kind) {
      MappedIsCounted(s, k);
      HitInv(s, k, a, kind);
    } else if Granted(s, p, a, kind) {
      FaultOk(s, p, a, kind, f);
      var t := Fault(s, p, a, kind, f).value;
      MappedIsCounted(t, k);
      HitInv(t, k, a, kind);
    }
  }

  lemma HitInv(s: State, k: Key, a: nat, kind: Kind)
    requires Inv(s) && k in s.pt && s.pt[k].frame < |s.ram|
    ensures Inv(Hit(s, k, a, kind).0)
  {
    if kind.Store? { WriteByteInv(s, s.pt[k].frame, Offset(a), kind.b); }
  }

  // ---------------------------------------------------------------------------------
  // fork.

  function Range(lo: nat, hi: nat): (r: seq<nat>)
    ensures forall v: nat :: v in r <==> lo <= v < hi
    ensures forall i :: 0 <= i < |r| ==> r[i] == lo + i
    ensures |r| == if hi <= lo then 0 else hi - lo
  {
    if hi <= lo then [] else Range(lo, hi - 1) + [hi - 1]
  }

  // One past the last page the inner loop of do_fork visits.
  function LastPage(x: Vma): nat { (x.end + PGSIZE - 1) / PGSIZE }

  function AreaPages(x: Vma): (r: seq<nat>)
    ensures forall i, j :: 0 <= i < j < |r| ==> r[i] != r[j]
    ensures |r| == if LastPage(x) <= x.start / PGSIZE then 0 else LastPage(x) - x.start / PGSIZE
  {
    Range(x.start / PGSIZE, LastPage(x))
  }

  lemma AreaPagesCover(x: Vma)
    ensures forall v: nat :: v in AreaPages(x) <==> x.HasPage(v)
  {
    forall v: nat
      ensures v in AreaPages(x) <==> x.HasPage(v)
    {
      assert v in AreaPages(x) <==> x.start / PGSIZE <= v < LastPage(x);
    }
  }

  // Every page of every area, in the order do_fork visits them.
  function PageList(areas: seq<Vma>): seq<nat> {
    if areas == [] then [] else PageList(areas[..|areas| - 1]) + AreaPages(areas[|areas| - 1])
  }

  lemma {:induction false} PageListCovers(areas: seq<Vma>)
    ensures forall v: nat :: v in PageList(areas) <==> exists x :: x in areas && x.HasPage(v)
  {
    if areas != [] {
      var rest, x := areas[..|areas| - 1], areas[|areas| - 1];
      PageListCovers(rest);
      AreaPagesCover(x);
      assert areas == rest + [x];
    }
  }

  ghost predicate Distinct(s: seq<nat>) {
    forall i, j :: 0 <= i < j < |s| ==> s[i] != s[j]
  }

  lemma {:induction false} PageListDistinct(areas: seq<Vma>)
    requires PageDisjoint(areas)
    ensures Distinct(PageList(areas))
  {
    if areas != [] {
      var rest, x := areas[..|areas| - 1], areas[|areas| - 1];
      PageListDistinct(rest);
      PageListCovers(rest);
      AreaPagesCover(x);
      var l, r := PageList(rest), AreaPages(x);
      forall i, j | 0 <= i < |l| && 0 <= j < |r|
        ensures l[i] != r[j]
      {
        assert l[i] in l && r[j] in r;
        var y :| y in rest && y.HasPage(l[i]);
        var n :| 0 <= n < |rest| && rest[n] == y;
        assert areas[n] == y && areas[|areas| - 1] == x;
      }
    }
  }

  ghost function ForkPages(s: State, p: nat, c: nat, pages: seq<nat>): State
    decreases |pages|
  {
    if pages == [] then s
    else SharePage(ForkPages(s, p, c, pages[..|pages| - 1]), p, c, pages[|pages| - 1])
  }

  ghost predicate ForkReady(s: State, p: nat, c: nat, pages: seq<nat>) {
    && Inv(s) && p < |s.procs| && c < |s.procs| && p != c && Distinct(pages)
    && (forall x :: x in s.procs[p] ==> x in s.procs[c])
    && (forall v :: v in pages ==> (c, v) !in s.pt)
  }

  ghost function Entry(pt: map<Key, Pte>, k: Key): Option<Pte> {
    if k in pt then Some(pt[k]) else None
  }

  // The entry k must have once the pages in done are shared between p and its new child c.
  ghost function AfterShare(pt: map<Key, Pte>, p: nat, c: nat, done: set<nat>, k: Key): Option<Pte> {
    if k in pt then Some(if k.0 == p && k.1 in done then pt[k].(w := false) else pt[k])
    else if k.0 == c && k.1 in done && (p, k.1) in pt then Some(pt[(p, k.1)].(w := false))
    else None
  }

  ghost predicate Shared(s: State, t: State, p: nat, c: nat, done: set<nat>) {
    && t.ram == s.ram && t.procs == s.procs && t.image == s.image && t.kernel == s.kernel
    && forall k :: Entry(t.pt, k) == AfterShare(s.pt, p, c, done, k)
  }

  ghost function Elems(s: seq<nat>): set<nat> { set v | v in s }

  // The loop of do_fork keeps the invariant at every page; the get_page panic cannot happen
  // because a mapped frame is counted (MappedIsCounted).
  lemma {:induction false} ForkPagesOk(s: State, p: nat, c: nat, pages: seq<nat>)
    requires ForkReady(s, p, c, pages)
    ensures Inv(ForkPages(s, p, c, pages)) && Shared(s, ForkPages(s, p, c, pages), p, c, Elems(pages))
    decreases |pages|
  {
    if pages != [] {
      var rest, v := pages[..|pages| - 1], pages[|pages| - 1];
      assert v !in rest && v in pages && pages == rest + [v];
      assert Elems(pages) == Elems(rest) + {v};
      ForkPagesOk(s, p, c, rest);
      var t := ForkPages(s, p, c, rest);
      assert Entry(t.pt, (c, v)) == None;
      SharePageInv(t, p, c, v);
      if (p, v) in t.pt { MappedIsCounted(t, (p, v)); }
      NextShare(s, t, p, c, Elems(rest), v);
    }
  }

  lemma NextShare(s: State, t: State, p: nat, c: nat, done: set<nat>, v: nat)
    requires Shared(s, t, p, c, done) && v !in done && p != c && (c, v) !in s.pt
    requires (p, v) in t.pt ==> t.pt[(p, v)].frame < |t.ref|
    ensures Shared(s, SharePage(t, p, c, v), p, c, done + {v})
  {
    forall k
      ensures Entry(SharePage(t, p, c, v).pt, k) == AfterShare(s.pt, p, c, done + {v}, k)
    {
      assert Entry(t.pt, k) == AfterShare(s.pt, p, c, done, k);
      assert Entry(t.pt, (p, v)) == AfterShare(s.pt, p, c, done, (p, v));
    }
  }

  function AddChild(s: State, p: nat): State
    requires p < |s.procs|
  {
    s.(procs := s.procs + [Reverse(s.procs[p])])
  }

  ghost function DoFork(s: State, p: nat): State
    requires p < |s.procs|
  {
    ForkPages(AddChild(s, p), p, |s.procs|, PageList(s.procs[p]))
  }

  lemma AddChildReady(s: State, p: nat)
    requires Inv(s) && p < |s.procs|
    ensures ForkReady(AddChild(s, p), p, |s.procs|, PageList(s.procs[p]))
  {
    var t, c := AddChild(s, p), |s.procs|;
    ReverseKeepsDisjoint(s.procs[p]);
    PageListDistinct(s.procs[p]);
    forall x
      ensures x in Reverse(s.procs[p]) <==> x in s.procs[p]
    {
      ReverseMembers(s.procs[p], x);
    }
    forall k | k in s.pt
      ensures EntryOk(t, k, s.pt[k]) && k.0 != c
    {
      assert EntryOk(s, k, s.pt[k]);
    }
  }

  // Every mapped page of the parent is visited, so all of them are shared.
  ghost function AfterFork(pt: map<Key, Pte>, p: nat, c: nat, k: Key): Option<Pte> {
    if k in pt then Some(if k.0 == p then pt[k].(w := false) else pt[k])
    else if k.0 == c && (p, k.1) in pt then Some(pt[(p, k.1)].(w := false))
    else None
  }

  lemma ForkShares(s: State, p: nat)
    requires Inv(s) && p < |s.procs|
    ensures var t := DoFork(s, p);
      && Inv(t) && t.ram == s.ram && t.image == s.image && t.procs == AddChild(s, p).procs
      && forall k :: Entry(t.pt, k) == AfterFork(s.pt, p, |s.procs|, k)
  {
    var c, pages := |s.procs|, PageList(s.procs[p]);
    AddChildReady(s, p);
    ForkPagesOk(AddChild(s, p), p, c, pages);
    PageListCovers(s.procs[p]);
    forall v: nat | (p, v) in s.pt
      ensures v in Elems(pages)
    {
      var x := OwnerOf(s, (p, v));
    }
    var t := DoFork(s, p);
    hide *;
    forall k
      ensures Entry(t.pt, k) == AfterFork(s.pt, p, c, k)
    {
      SharedIsForked(s, t, p, c, Elems(pages), k);
    }
  }

  lemma SharedIsForked(s: State, t: State, p: nat, c: nat, done: set<nat>, k: Key)
    requires Shared(s.(procs := t.procs), t, p, c, done) && forall v: nat :: (p, v) in s.pt ==> v in done
    ensures Entry(t.pt, k) == AfterFork(s.pt, p, c, k)
  {
    assert Entry(t.pt, k) == AfterShare(s.pt, p, c, done, k);
  }
}

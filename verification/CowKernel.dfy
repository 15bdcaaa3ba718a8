/** do_page_fault, do_fork and user accesses as the code performs them, on the state it updates.
    alloc_page's answer is the parameter f. */
module CowKernel {
  import opened Basics
  import opened Vmas
  import opened Cow
  import opened CowRuns

  class Kernel {
    var image: seq<byte>
    var ram: seq<Page>
    var refCnt: seq<nat>
    var procs: seq<seq<Vma>>
    var pt: map<Key, Pte>
    ghost var kernelFrames: set<nat>

    ghost function S(): State
      reads this
    {
      State(image, ram, refCnt, kernelFrames, procs, pt)
    }

    constructor (image: seq<byte>, ram: seq<Page>, procs: seq<seq<Vma>>, ghost kernelFrames: set<nat>, refCnt: seq<nat>)
      requires |refCnt| == |ram|
      requires forall f :: 0 <= f < |ram| ==> refCnt[f] == if f in kernelFrames then 1 else 0
      requires GoodAreas(State(image, ram, refCnt, kernelFrames, procs, map[]))
      ensures Inv(S()) && S() == State(image, ram, refCnt, kernelFrames, procs, map[])
    {
      this.image, this.ram, this.procs, this.refCnt, this.kernelFrames := image, ram, procs, refCnt, kernelFrames;
      pt := map[];
      new;
      assert forall f: nat :: Mappers(pt, f) == {};
    }

    method FindVma(p: nat, a: nat) returns (r: Option<Vma>)
      requires p < |procs|
      ensures r == Find(procs[p], a)
    {
      var areas := procs[p];
      while areas != []
        invariant Find(areas, a) == Find(procs[p], a)
        decreases |areas|
      {
        if areas[0].start <= a && a < areas[0].end {
          return Some(areas[0]);
        }
        areas := areas[1..];
      }
      r := None;
    }

    method GetPage(f: nat) returns (err: nat)
      requires f < |refCnt|
      modifies this`refCnt
      ensures err == if old(refCnt[f]) == 0 then 1 else 0
      ensures refCnt == if err != 0 then old(refCnt) else old(refCnt)[f := old(refCnt[f]) + 1]
    {
      if refCnt[f] == 0 { return 1; }
      refCnt := refCnt[f := refCnt[f] + 1];
      err := 0;
    }

    method PutPage(f: nat)
      requires f < |refCnt| && refCnt[f] > 0
      modifies this`refCnt
      ensures refCnt == old(refCnt)[f := old(refCnt[f]) - 1]
    {
      refCnt := refCnt[f := refCnt[f] - 1];
    }

    // The handler either panics, changing nothing, or performs exactly Fault.
    method DoPageFault(p: nat, a: nat, kind: Kind, f: nat) returns (ok: bool)
      requires Inv(S()) && p < |procs| && (Granted(S(), p, a, kind) ==> FreeFrame(S(), f))
      modifies this
      ensures Fault(old(S()), p, a, kind, f) == if ok then Some(S()) else None
      ensures !ok ==> S() == old(S())
    {
      var vma := FindVma(p, a);
      if vma.None? { return false; }
      var x, k := vma.value, (p, PageOf(a));
      var isCow := false;
      match kind {
        case Fetch => if !x.Executable() { return false; }
        case Store(_) =>
          if !x.Writable() { return false; }
          if k in pt { isCow := !pt[k].w; }
        case Load => if !x.Readable() { return false; }
      }
      AreaPageOverlaps(x, a);
      if isCow {
        MappedIsCounted(S(), k);
        FreshIsOther(S(), k, f);
        BreakCow(k, x, f);
      } else {
        FillDemand(k, x, f);
      }
      ok := true;
    }

    // vm.c:281, 286-295
    method BreakCow(k: Key, x: Vma, f: nat)
      requires k in pt && pt[k].frame < |ram| && pt[k].frame < |refCnt| && refCnt[pt[k].frame] > 0
      requires FreeFrame(S(), f) && f != pt[k].frame
      modifies this`ram, this`refCnt, this`pt
      ensures S() == BreakShare(old(S()), k, f, FullEntry(x, f))
    {
      var src := pt[k].frame;
      refCnt := refCnt[f := 1];                                    // alloc_page
      ram := ram[f := ram[src]];
      PutPage(src);
      pt := pt[k := FullEntry(x, f)];
    }

    // vm.c:281, 296-320
    method FillDemand(k: Key, x: Vma, f: nat)
      requires FreeFrame(S(), f) && GoodArea(image, x) && x.HasPage(k.1) && x.start < x.end
      requires k.1 * PGSIZE < x.end && x.start < k.1 * PGSIZE + PGSIZE
      modifies this`ram, this`refCnt, this`pt
      ensures S() == MapFresh(old(S()), k, f, FillPage(old(ram)[f], x, k.1, image), FullEntry(x, f))
    {
      refCnt := refCnt[f := 1];                                    // alloc_page
      if !x.Anon() {
        var start, end := Max(k.1 * PGSIZE, x.start), Min(k.1 * PGSIZE + PGSIZE, x.end);
        var page := CopyFile(ram[f], start - k.1 * PGSIZE, x.pgoff + (start - x.start), end - start);
        ram := ram[f := page];
      }
      pt := pt[k := FullEntry(x, f)];
    }

    // memcpy from the image into a frame (vm.c:313).
    method CopyFile(page0: Page, dst: nat, src: nat, n: nat) returns (page: Page)
      requires dst + n <= PGSIZE && src + n <= |image|
      ensures page == page0[..dst] + image[src..src + n] + page0[dst + n..]
    {
      page := page0;
      var i := 0;
      while i < n
        invariant 0 <= i <= n
        invariant page == page0[..dst] + image[src..src + i] + page0[dst + i..]
      {
        ghost var was := page;
        page := page[dst + i := image[src + i]];
        CopyOne(page0, was, image, dst, src, i);
        i := i + 1;
      }
    }

    // A user instruction: the hardware checks the entry, traps if it must, and retries.
    method UserAccess(p: nat, a: nat, kind: Kind, f: nat) returns (out: Outcome)
      requires Inv(S()) && p < |procs| && Supplied(S(), p, a, kind, f)
      modifies this
      ensures (S(), out) == DoAccess(old(S()), p, a, kind, f) && Inv(S())
    {
      DoAccessInv(S(), p, a, kind, f);
      hide Inv;
      hide BreakShare;
      hide MapFresh;
      hide FillPage;
      hide Hit;
      var k := (p, PageOf(a));
      if !(k in pt && EntryAllows(pt[k], kind)) {
        if Granted(S(), p, a, kind) { FaultOk(S(), p, a, kind, f); }
        var ok := DoPageFault(p, a, kind, f);
        if !ok { return Denied; }
      }
      MappedIsCounted(S(), k);
      out := Complete(k, a, kind);
    }

    // The access itself, through the entry.
    method Complete(k: Key, a: nat, kind: Kind) returns (out: Outcome)
      requires k in pt && pt[k].frame < |ram|
      modifies this`ram
      ensures (S(), out) == Hit(old(S()), k, a, kind)
    {
      var frame := pt[k].frame;
      match kind {
        case Store(b) =>
          var page: Page := ram[frame][Offset(a) := b];
          ram := ram[frame := page];
          out := Done;
        case _ => out := Byte(ram[frame][Offset(a)]);
      }
    }

    // The state with the child's list already complete, which is what the page loop is about.
    ghost function With(full: seq<seq<Vma>>): State
      reads this
    {
      S().(procs := full)
    }

    // One iteration of the inner loop of do_fork (proc.c:276-302); panicked is the Err branch.
    method ForkPage(p: nat, c: nat, v: nat, ghost full: seq<seq<Vma>>) returns (panicked: bool)
      requires Inv(With(full)) && p < |full| && c < |full| && p != c && (c, v) !in pt
      modifies this`refCnt, this`pt
      ensures !panicked && With(full) == SharePage(old(With(full)), p, c, v)
    {
      if (p, v) !in pt { return false; }
      MappedIsCounted(With(full), (p, v));
      var err := GetPage(pt[(p, v)].frame);
      if err != 0 { return true; }
      pt := pt[(p, v) := pt[(p, v)].(w := false)];
      pt := pt[(c, v) := pt[(p, v)].(w := false)];
      panicked := false;
    }

    // Area by area: insert it at the head of the child's list, then share its pages.
    method ForkProcess(p: nat) returns (panicked: bool)
      requires Inv(S()) && p < |procs|
      modifies this
      ensures !panicked && S() == DoFork(old(S()), p) && Inv(S())
    {
      ghost var s0 := S();
      ForkShares(s0, p);
      AddChildReady(s0, p);
      var c, areas := |procs|, procs[p];
      ghost var s1 := AddChild(s0, p);
      procs := procs + [[]];
      var i := 0;
      NothingShared(s1, p, c, areas);
      while i < |areas|
        invariant 0 <= i <= |areas| && procs == s0.procs + [Reverse(areas[..i])]
        invariant SharedUpTo(s1, With(s1.procs), p, c, areas, i)
      {
        procs := procs[c := [areas[i]] + procs[c]];                // do_mmap
        HeadInserted(areas, i);
        panicked := ForkArea(p, c, areas[i], s1, areas, i);
        if panicked { return true; }
        i := i + 1;
      }
      assert areas[..i] == areas;
      AllShared(s1, With(s1.procs), p, c, areas);
      panicked := false;
    }

    // The inner loop, over the pages of one area.
    method ForkArea(p: nat, c: nat, x: Vma, ghost s1: State, ghost areas: seq<Vma>, ghost i: nat)
      returns (panicked: bool)
      requires ForkReady(s1, p, c, PageList(areas)) && i < |areas| && areas[i] == x
      requires SharedUpTo(s1, With(s1.procs), p, c, areas, i)
      modifies this`refCnt, this`pt
      ensures !panicked && SharedUpTo(s1, With(s1.procs), p, c, areas, i + 1)
    {
      var addr := x.start / PGSIZE * PGSIZE;
      ghost var j := 0;
      assert InArea(s1, With(s1.procs), p, c, areas, i, 0);
      hide InArea;
      hide SharedUpTo;
      hide ForkReady;
      hide PageList;
      while addr < x.end
        invariant addr == (x.start / PGSIZE + j) * PGSIZE
        invariant InArea(s1, With(s1.procs), p, c, areas, i, j)
        decreases x.end - addr
      {
        panicked := ForkNext(p, c, addr, s1, areas, i, j);
        if panicked { return true; }
        addr := addr + PGSIZE;
        j := j + 1;
      }
      AreaIsDone(s1, With(s1.procs), p, c, areas, i, j);
      panicked := false;
    }

    // One address of that loop, as the next page of the whole list.
    method ForkNext(p: nat, c: nat, addr: nat, ghost s1: State, ghost areas: seq<Vma>, ghost i: nat, ghost j: nat)
      returns (panicked: bool)
      requires ForkReady(s1, p, c, PageList(areas)) && i < |areas|
      requires InArea(s1, With(s1.procs), p, c, areas, i, j)
      requires addr == (areas[i].start / PGSIZE + j) * PGSIZE < areas[i].end
      modifies this`refCnt, this`pt
      ensures !panicked && InArea(s1, With(s1.procs), p, c, areas, i, j + 1)
    {
      NextPage(areas, i, j);
      var v := addr / PGSIZE;
      assert v == areas[i].start / PGSIZE + j;
      hide Inv;
      hide ForkReady;
      hide ForkPages;
      hide SharePage;
      hide PageList;
      hide AreaPages;
      ForkStep(s1, With(s1.procs), p, c, PageList(areas), |PageList(areas[..i])| + j, v);
      panicked := ForkPage(p, c, v, s1.procs);
    }
  }

  // The pages of the first i areas and j pages of area i have been shared.
  ghost predicate InArea(s: State, t: State, p: nat, c: nat, areas: seq<Vma>, i: nat, j: nat)
    requires i < |areas|
  {
    var n := |PageList(areas[..i])| + j;
    n <= |PageList(areas)| && j <= |AreaPages(areas[i])| && t == ForkPages(s, p, c, PageList(areas)[..n])
  }

  lemma AreaIsDone(s: State, t: State, p: nat, c: nat, areas: seq<Vma>, i: nat, j: nat)
    requires i < |areas| && InArea(s, t, p, c, areas, i, j)
    requires (areas[i].start / PGSIZE + j) * PGSIZE >= areas[i].end
    ensures SharedUpTo(s, t, p, c, areas, i + 1)
  {
    AreaDone(areas, i, j);
  }

  lemma CopyOne(page0: Page, page: Page, image: seq<byte>, dst: nat, src: nat, i: nat)
    requires dst + i < PGSIZE && src + i < |image|
    requires page == page0[..dst] + image[src..src + i] + page0[dst + i..]
    ensures page[dst + i := image[src + i]] == page0[..dst] + image[src..src + i + 1] + page0[dst + i + 1..]
  {
  }

  lemma HeadInserted(areas: seq<Vma>, i: nat)
    requires i < |areas|
    ensures [areas[i]] + Reverse(areas[..i]) == Reverse(areas[..i + 1])
  {
    assert areas[..i + 1] == areas[..i] + [areas[i]];
    ReverseSnoc(areas[..i], areas[i]);
  }

  // The pages of the first i areas have been shared.
  ghost predicate SharedUpTo(s: State, t: State, p: nat, c: nat, areas: seq<Vma>, i: nat)
    requires i <= |areas|
  {
    var n := |PageList(areas[..i])|;
    n <= |PageList(areas)| && t == ForkPages(s, p, c, PageList(areas)[..n])
  }

  lemma NothingShared(s: State, p: nat, c: nat, areas: seq<Vma>)
    ensures SharedUpTo(s, s, p, c, areas, 0)
  {
    assert areas[..0] == [] && PageList(areas)[..0] == [];
  }

  lemma AllShared(s: State, t: State, p: nat, c: nat, areas: seq<Vma>)
    requires SharedUpTo(s, t, p, c, areas, |areas|)
    ensures t == ForkPages(s, p, c, PageList(areas))
  {
    assert areas[..|areas|] == areas && PageList(areas)[..|PageList(areas)|] == PageList(areas);
  }

  lemma FreshIsOther(s: State, k: Key, f: nat)
    requires Inv(s) && k in s.pt && FreeFrame(s, f)
    ensures s.pt[k].frame != f
  {
    MappedIsCounted(s, k);
  }

  // The page at position j of area i is entry |PageList(areas[..i])| + j of the whole list.
  lemma {:induction false} PageAt(areas: seq<Vma>, i: nat, j: nat)
    requires i < |areas| && j < |AreaPages(areas[i])|
    ensures |PageList(areas[..i])| + j < |PageList(areas)|
    ensures PageList(areas)[|PageList(areas[..i])| + j] == AreaPages(areas[i])[j]
    decreases |areas|
  {
    var rest := areas[..|areas| - 1];
    if i < |areas| - 1 {
      PageAt(rest, i, j);
      assert rest[..i] == areas[..i];
    }
  }

  lemma NextPage(areas: seq<Vma>, i: nat, j: nat)
    requires i < |areas| && (areas[i].start / PGSIZE + j) * PGSIZE < areas[i].end
    requires j <= |AreaPages(areas[i])|
    ensures j < |AreaPages(areas[i])| && |PageList(areas[..i])| + j < |PageList(areas)|
    ensures PageList(areas)[|PageList(areas[..i])| + j] == areas[i].start / PGSIZE + j
  {
    AreaPagesCover(areas[i]);
    var v := areas[i].start / PGSIZE + j;
    assert areas[i].HasPage(v);
    assert v in AreaPages(areas[i]);
    PageAt(areas, i, j);
  }

  lemma {:induction false} AreaDone(areas: seq<Vma>, i: nat, j: nat)
    requires i < |areas| && j <= |AreaPages(areas[i])|
    requires (areas[i].start / PGSIZE + j) * PGSIZE >= areas[i].end
    ensures |PageList(areas[..i + 1])| == |PageList(areas[..i])| + j <= |PageList(areas)|
  {
    var next := areas[..i + 1];
    assert next[..|next| - 1] == areas[..i] && next[|next| - 1] == areas[i];
    PageListLonger(areas, i + 1);
    assert LastPage(areas[i]) <= areas[i].start / PGSIZE + j;
  }

  lemma {:induction false} PageListLonger(areas: seq<Vma>, i: nat)
    requires i <= |areas|
    ensures |PageList(areas[..i])| <= |PageList(areas)|
    decreases |areas|
  {
    if i < |areas| {
      assert areas[..|areas| - 1][..i] == areas[..i];
      PageListLonger(areas[..|areas| - 1], i);
    } else {
      assert areas[..i] == areas;
    }
  }

  lemma PrefixReady(s: State, p: nat, c: nat, full: seq<nat>, n: nat)
    requires ForkReady(s, p, c, full) && n < |full|
    ensures var t := ForkPages(s, p, c, full[..n]);
      Inv(t) && t.procs == s.procs && (c, full[n]) !in t.pt
  {
    assert forall v :: v in full[..n] ==> v in full;
    assert full[n] in full;
    ForkPagesOk(s, p, c, full[..n]);
    assert Entry(ForkPages(s, p, c, full[..n]).pt, (c, full[n])) == None;
  }

  lemma ForkStep(s: State, t: State, p: nat, c: nat, full: seq<nat>, n: nat, v: nat)
    requires ForkReady(s, p, c, full) && n < |full| && full[n] == v && t == ForkPages(s, p, c, full[..n])
    ensures Inv(t) && p < |t.procs| && c < |t.procs| && p != c && (c, v) !in t.pt
    ensures ForkPages(s, p, c, full[..n + 1]) == SharePage(t, p, c, v)
  {
    PrefixReady(s, p, c, full, n);
    PrefixStep(s, p, c, full, n);
  }

  lemma PrefixStep(s: State, p: nat, c: nat, full: seq<nat>, n: nat)
    requires n < |full|
    ensures ForkPages(s, p, c, full[..n + 1]) == SharePage(ForkPages(s, p, c, full[..n]), p, c, full[n])
  {
    assert full[..n + 1][..n] == full[..n];
  }
}

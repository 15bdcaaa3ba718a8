/** Areas that may be written but not read, which the loader accepts (proc.c:49-51): the entries
    do_page_fault builds for them are reserved encodings, so the access faults for ever and every
    further fault loses a frame. */
module CowReserved {
  import opened Basics
  import opened Vmas
  import opened Cow
  import opened CowRuns

  // The handler when the entry is valid and has the write bit: is_cow is 0, and it fills again
  // (vm.c:296-319).
  function Refill(s: State, k: Key, x: Vma, f: nat): State
    requires f < |s.ref| && f < |s.ram|
    requires x.HasPage(k.1) && x.start < x.end && k.1 * PGSIZE < x.end && x.start < k.1 * PGSIZE + PGSIZE
    requires GoodArea(s.image, x)
  {
    MapFresh(s, k, f, FillPage(s.ram[f], x, k.1, s.image), FullEntry(x, f))
  }

  // Area x of process p allows the access at a, and its encoding is reserved.
  ghost predicate Reserved(s: State, p: nat, a: nat, kind: Kind, x: Vma) {
    p < |s.procs| && Find(s.procs[p], a) == Some(x) && Allowed(x, kind) && !Sound(x) && GoodArea(s.image, x)
  }

  // Under the invariant such an area has no entries yet.
  lemma NotYetMapped(s: State, p: nat, a: nat, kind: Kind, x: Vma)
    requires Inv(s) && Reserved(s, p, a, kind, x)
    ensures Faults(s, p, a, kind) && (p, PageOf(a)) !in s.pt
  {
    ContainedPage(x, a);
    if (p, PageOf(a)) in s.pt {
      var y := OwnerOf(s, (p, PageOf(a)));
    }
  }

  // The first fault is the ordinary one, and it has not helped.
  lemma FirstFault(s: State, p: nat, a: nat, kind: Kind, x: Vma, f: nat)
    requires Inv(s) && Reserved(s, p, a, kind, x) && FreeFrame(s, f)
    ensures (p, PageOf(a)) !in s.pt && Faults(s, p, a, kind)
    ensures Fault(s, p, a, kind, f).Some?
    ensures (AreaPageOverlaps(x, a); Fault(s, p, a, kind, f).value == Refill(s, (p, PageOf(a)), x, f))
  {
    AreaPageOverlaps(x, a);
    NotYetMapped(s, p, a, kind, x);
  }

  // With such an entry the retried access faults again, and it is no copy-on-write fault.
  lemma FaultsAgain(s: State, p: nat, a: nat, kind: Kind, x: Vma, f: nat)
    requires Reserved(s, p, a, kind, x) && (p, PageOf(a)) in s.pt && s.pt[(p, PageOf(a))] == FullEntry(x, f)
    ensures Faults(s, p, a, kind) && !IsCow(s, (p, PageOf(a)), kind)
  {
  }

  // The frames alloc_page hands out at the successive faults: free, and all different.
  ghost predicate Fresh(s: State, fs: seq<nat>) {
    && (forall i :: 0 <= i < |fs| ==> FreeFrame(s, fs[i]))
    && forall i, j :: 0 <= i < j < |fs| ==> fs[i] != fs[j]
  }

  // The state after one fault for each frame of fs.
  ghost function Refills(s: State, p: nat, a: nat, x: Vma, fs: seq<nat>): (t: State)
    requires |s.ref| == |s.ram| && Fresh(s, fs) && x.Contains(a) && GoodArea(s.image, x)
    ensures |t.ref| == |t.ram| == |s.ram| && t.image == s.image && t.procs == s.procs
    decreases |fs|
  {
    if fs == [] then s
    else
      AreaPageOverlaps(x, a);
      Refill(Refills(s, p, a, x, fs[..|fs| - 1]), (p, PageOf(a)), x, fs[|fs| - 1])
  }

  // What n faults leave: the last frame mapped, the others counted but mapped nowhere.
  ghost predicate AfterFaults(s: State, t: State, k: Key, x: Vma, fs: seq<nat>) {
    && t.kernel == s.kernel
    && (forall f :: 0 <= f < |s.ref| && f < |t.ref| ==> t.ref[f] == if f in fs then 1 else s.ref[f])
    && (fs == [] ==> t.pt == s.pt)
    && (fs != [] ==> t.pt == s.pt[k := FullEntry(x, fs[|fs| - 1])])
  }

  lemma {:induction false} RefillsLeave(s: State, p: nat, a: nat, x: Vma, fs: seq<nat>)
    requires |s.ref| == |s.ram| && Fresh(s, fs) && x.Contains(a) && GoodArea(s.image, x)
    ensures AfterFaults(s, Refills(s, p, a, x, fs), (p, PageOf(a)), x, fs)
    decreases |fs|
  {
    if fs != [] {
      var rest := fs[..|fs| - 1];
      RefillsLeave(s, p, a, x, rest);
      assert fs == rest + [fs[|fs| - 1]];
      hide FillPage;
    }
  }

  // However many faults the handler serves, the access does not go through; and every frame but
  // the last is lost: allocated, mapped by no entry and not the kernel's, so nothing will ever
  // release it. The reference count invariant is broken from the second fault on.
  lemma Endless(s: State, p: nat, a: nat, kind: Kind, x: Vma, fs: seq<nat>)
    requires Inv(s) && Reserved(s, p, a, kind, x) && Fresh(s, fs)
    ensures var t := Refills(s, p, a, x, fs);
      && Faults(t, p, a, kind) && !IsCow(t, (p, PageOf(a)), kind)
      && (forall i :: 0 <= i < |fs| - 1 ==>
            t.ref[fs[i]] == 1 && fs[i] !in t.kernel && forall k :: k in t.pt ==> t.pt[k].frame != fs[i])
      && (|fs| > 1 ==> !CountsAgree(t))
  {
    RefillsLeave(s, p, a, x, fs);
    var t, k := Refills(s, p, a, x, fs), (p, PageOf(a));
    if fs == [] {
      NotYetMapped(s, p, a, kind, x);
    } else {
      FaultsAgain(t, p, a, kind, x, fs[|fs| - 1]);
    }
    forall i | 0 <= i < |fs| - 1
      ensures t.ref[fs[i]] == 1 && fs[i] !in t.kernel && forall k :: k in t.pt ==> t.pt[k].frame != fs[i]
    {
      FreeMeansUnmapped(s, fs[i]);
      assert fs[i] in fs;
    }
    if |fs| > 1 {
      assert Mappers(t.pt, fs[0]) == {};
    }
  }
}

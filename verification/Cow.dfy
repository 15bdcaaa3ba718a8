/** Copy-on-write memory: frames, reference counts, page tables as flat maps, and the elementary
    changes do_fork, do_page_fault and user stores make to them. */
module Cow {
  import opened Basics
  import opened Vmas

  type byte = b: int | 0 <= b < 256
  type Page = p: seq<byte> | |p| == 4096 witness seq(4096, _ => 0)

  // A valid user entry: frame and the permission bits that vary. V, U, A and D are always set;
  // an absent entry is an entry without V.
  datatype Pte = Pte(frame: nat, r: bool, w: bool, x: bool)

  // (process number, page number)
  type Key = (nat, nat)

  datatype State = State(
    image: seq<byte>,          // the program image the file-backed areas map
    ram: seq<Page>,
    ref: seq<nat>,             // buddy.ref_cnt
    kernel: set<nat>,          // frames the kernel keeps for itself
    procs: seq<seq<Vma>>,      // areas of each process
    pt: map<Key, Pte>)

  // ---------------------------------------------------------------------------------
  // Invariants.

  // The entries that map a frame.
  ghost function Mappers(pt: map<Key, Pte>, f: nat): set<Key> {
    set k | k in pt && pt[k].frame == f
  }

  ghost predicate GoodArea(image: seq<byte>, x: Vma) {
    && x.end <= WORD - PGSIZE
    && (!x.Anon() && x.start < x.end ==> x.pgoff + (x.end - x.start) <= |image|)
  }

  ghost predicate GoodAreas(s: State) {
    forall p :: 0 <= p < |s.procs| ==>
      PageDisjoint(s.procs[p]) && forall x :: x in s.procs[p] ==> GoodArea(s.image, x)
  }

  // The reference count is the number of entries, or 1 for a kernel frame.
  ghost predicate CountsAgree(s: State) {
    && |s.ref| == |s.ram|
    && forall f :: 0 <= f < |s.ram| ==> s.ref[f] == |Mappers(s.pt, f)| + (if f in s.kernel then 1 else 0)
  }

  ghost predicate KernelUnmapped(s: State) {
    forall k :: k in s.pt ==> s.pt[k].frame !in s.kernel
  }

  // An entry belongs to an area of its process and has its permissions, write possibly withheld.
  ghost predicate EntryOk(s: State, k: Key, e: Pte) {
    && k.0 < |s.procs| && e.frame < |s.ram|
    && exists x :: x in s.procs[k.0] && Owns(x, k.1, e)
  }

  // The hardware reserves the encodings that allow writing but not reading: such an entry faults.
  predicate Sound(x: Vma) { x.Writable() ==> x.Readable() }

  predicate Owns(x: Vma, v: nat, e: Pte) {
    x.HasPage(v) && Sound(x) && e.r == x.Readable() && e.x == x.Executable() && (e.w ==> x.Writable())
  }

  ghost predicate EntriesOk(s: State) {
    forall k :: k in s.pt ==> EntryOk(s, k, s.pt[k])
  }

  // A writable entry maps a frame nobody else maps.
  ghost predicate WritersAlone(s: State) {
    forall k :: k in s.pt && s.pt[k].w ==> Mappers(s.pt, s.pt[k].frame) == {k}
  }

  ghost predicate Inv(s: State) {
    GoodAreas(s) && CountsAgree(s) && KernelUnmapped(s) && EntriesOk(s) && WritersAlone(s)
  }

  // The statement in terms of the counts alone.
  lemma WritableMeansCountOne(s: State, k: Key)
    requires Inv(s) && k in s.pt && s.pt[k].w
    ensures s.ref[s.pt[k].frame] == 1
  {
    assert EntryOk(s, k, s.pt[k]);
  }

  // A frame is unallocated exactly when its last entry is gone.
  lemma FreeMeansUnmapped(s: State, f: nat)
    requires Inv(s) && f < |s.ram|
    ensures s.ref[f] == 0 <==> f !in s.kernel && forall k :: k in s.pt ==> s.pt[k].frame != f
  {
    if s.ref[f] == 0 {
      forall k | k in s.pt
        ensures s.pt[k].frame != f
      {
        assert k in Mappers(s.pt, s.pt[k].frame);
      }
    }
    if forall k :: k in s.pt ==> s.pt[k].frame != f {
      assert Mappers(s.pt, f) == {};
    }
  }

  // ---------------------------------------------------------------------------------
  // How the mapper sets move.

  lemma MappersAdd(pt: map<Key, Pte>, k: Key, e: Pte, f: nat)
    requires k !in pt
    ensures Mappers(pt[k := e], f) == if f == e.frame then Mappers(pt, f) + {k} else Mappers(pt, f)
    ensures |Mappers(pt[k := e], f)| == |Mappers(pt, f)| + if f == e.frame then 1 else 0
  {
    assert k !in Mappers(pt, f);
    assert Mappers(pt[k := e], f) == if f == e.frame then Mappers(pt, f) + {k} else Mappers(pt, f);
  }

  lemma MappersSameFrame(pt: map<Key, Pte>, k: Key, e: Pte, f: nat)
    requires k in pt && e.frame == pt[k].frame
    ensures Mappers(pt[k := e], f) == Mappers(pt, f)
  {
  }

  lemma MappersMove(pt: map<Key, Pte>, k: Key, e: Pte, f: nat)
    requires k in pt && e.frame != pt[k].frame
    ensures Mappers(pt[k := e], f) ==
      if f == e.frame then Mappers(pt, f) + {k} else if f == pt[k].frame then Mappers(pt, f) - {k} else Mappers(pt, f)
    ensures |Mappers(pt[k := e], f)| ==
      |Mappers(pt, f)| + (if f == e.frame then 1 else 0) - (if f == pt[k].frame then 1 else 0)
  {
    var now := pt[k := e];
    assert Mappers(now, f) ==
      if f == e.frame then Mappers(pt, f) + {k} else if f == pt[k].frame then Mappers(pt, f) - {k} else Mappers(pt, f);
    assert f == pt[k].frame ==> k in Mappers(pt, f);
    assert f != pt[k].frame ==> k !in Mappers(pt, f);
  }

  // ---------------------------------------------------------------------------------
  // The elementary changes. Each keeps the invariant, so it also holds in the middle of a fork.

  // alloc_page for the kernel itself: tables, task_struct, list nodes.
  function TakeKernelFrame(s: State, f: nat): State
    requires f < |s.ref|
  {
    s.(ref := s.ref[f := 1], kernel := s.kernel + {f})
  }

  lemma TakeKernelFrameInv(s: State, f: nat)
    requires Inv(s) && f < |s.ref| && s.ref[f] == 0
    ensures Inv(TakeKernelFrame(s, f))
  {
    FreeMeansUnmapped(s, f);
    var t := TakeKernelFrame(s, f);
    assert forall k :: k in t.pt ==> EntryOk(s, k, s.pt[k]);
  }

  // The demand branch: a fresh frame with the given content for an unmapped page.
  function MapFresh(s: State, k: Key, f: nat, page: Page, e: Pte): State
    requires f < |s.ref| && f < |s.ram|
  {
    s.(ram := s.ram[f := page], ref := s.ref[f := 1], pt := s.pt[k := e])
  }

  lemma MapFreshInv(s: State, k: Key, f: nat, page: Page, e: Pte)
    requires Inv(s) && f < |s.ref| && s.ref[f] == 0 && k !in s.pt
    requires e.frame == f && EntryOk(s, k, e)
    ensures Inv(MapFresh(s, k, f, page, e))
  {
    FreeMeansUnmapped(s, f);
    assert Mappers(s.pt, f) == {};
    MapFreshCounts(s, k, f, page, e);
    MapFreshWriters(s, k, f, page, e);
    MapFreshEntries(s, k, f, page, e);
  }

  lemma MapFreshCounts(s: State, k: Key, f: nat, page: Page, e: Pte)
    requires CountsAgree(s) && f < |s.ref| && k !in s.pt && e.frame == f
    requires f !in s.kernel && Mappers(s.pt, f) == {}
    ensures CountsAgree(MapFresh(s, k, f, page, e))
  {
    MapFreshMappers(s, k, f, page, e);
    hide Mappers;
  }

  lemma MapFreshWriters(s: State, k: Key, f: nat, page: Page, e: Pte)
    requires WritersAlone(s) && f < |s.ref| && f < |s.ram| && k !in s.pt && e.frame == f
    requires Mappers(s.pt, f) == {}
    ensures WritersAlone(MapFresh(s, k, f, page, e))
  {
    MapFreshMappers(s, k, f, page, e);
    var t := MapFresh(s, k, f, page, e);
    forall j | j in t.pt && t.pt[j].w
      ensures Mappers(t.pt, t.pt[j].frame) == {j}
    {
      if j != k { assert j in Mappers(s.pt, s.pt[j].frame); }
    }
  }

  lemma MapFreshMappers(s: State, k: Key, f: nat, page: Page, e: Pte)
    requires f < |s.ref| && f < |s.ram| && k !in s.pt && e.frame == f
    ensures var t := MapFresh(s, k, f, page, e);
      forall g: nat ::
        && Mappers(t.pt, g) == (if g == f then Mappers(s.pt, g) + {k} else Mappers(s.pt, g))
        && |Mappers(t.pt, g)| == |Mappers(s.pt, g)| + if g == f then 1 else 0
  {
    forall g: nat { MappersAdd(s.pt, k, e, g); }
  }

  lemma MapFreshEntries(s: State, k: Key, f: nat, page: Page, e: Pte)
    requires EntriesOk(s) && f < |s.ref| && f < |s.ram| && EntryOk(s, k, e)
    ensures EntriesOk(MapFresh(s, k, f, page, e))
  {
    var t := MapFresh(s, k, f, page, e);
    forall j | j in t.pt
      ensures EntryOk(t, j, t.pt[j])
    {
      assert j == k || EntryOk(s, j, s.pt[j]);
    }
  }

  // The copy-on-write branch: copy the frame, drop one reference, remap with full permissions.
  function BreakShare(s: State, k: Key, f: nat, e: Pte): State
    requires k in s.pt && s.pt[k].frame < |s.ram| && s.pt[k].frame < |s.ref|
    requires f < |s.ref| && f < |s.ram| && s.ref[s.pt[k].frame] > 0
  {
    var g := s.pt[k].frame;
    s.(ram := s.ram[f := s.ram[g]], ref := s.ref[f := 1][g := s.ref[g] - 1], pt := s.pt[k := e])
  }

  lemma MappedIsCounted(s: State, k: Key)
    requires Inv(s) && k in s.pt
    ensures s.pt[k].frame < |s.ram| == |s.ref| && s.ref[s.pt[k].frame] > 0
  {
    assert EntryOk(s, k, s.pt[k]);
    assert k in Mappers(s.pt, s.pt[k].frame);
  }

  lemma BreakShareInv(s: State, k: Key, f: nat, e: Pte)
    requires Inv(s) && k in s.pt && f < |s.ref| && s.ref[f] == 0
    requires e.frame == f && EntryOk(s, k, e)
    ensures s.pt[k].frame < |s.ram| == |s.ref| && s.ref[s.pt[k].frame] > 0
    ensures Inv(BreakShare(s, k, f, e))
  {
    MappedIsCounted(s, k);
    FreeMeansUnmapped(s, f);
    assert Mappers(s.pt, f) == {};
    BreakCounts(s, k, f, e);
    BreakWriters(s, k, f, e);
    BreakEntries(s, k, f, e);
  }

  lemma BreakCounts(s: State, k: Key, f: nat, e: Pte)
    requires CountsAgree(s) && k in s.pt && s.pt[k].frame < |s.ram| && s.ref[s.pt[k].frame] > 0
    requires f < |s.ref| && e.frame == f && f !in s.kernel && Mappers(s.pt, f) == {}
    ensures CountsAgree(BreakShare(s, k, f, e))
  {
    assert k in Mappers(s.pt, s.pt[k].frame);
    BreakMappers(s, k, f, e);
    hide Mappers;
  }

  lemma BreakWriters(s: State, k: Key, f: nat, e: Pte)
    requires WritersAlone(s) && k in s.pt && s.pt[k].frame < |s.ram| && s.pt[k].frame < |s.ref|
    requires f < |s.ref| && f < |s.ram| && s.ref[s.pt[k].frame] > 0
    requires e.frame == f && Mappers(s.pt, f) == {}
    ensures WritersAlone(BreakShare(s, k, f, e))
  {
    assert k in Mappers(s.pt, s.pt[k].frame);
    BreakMappers(s, k, f, e);
    var t := BreakShare(s, k, f, e);
    forall j | j in t.pt && t.pt[j].w
      ensures Mappers(t.pt, t.pt[j].frame) == {j}
    {
      if j != k {
        assert j in Mappers(s.pt, s.pt[j].frame) && Mappers(s.pt, s.pt[j].frame) == {j};
      }
    }
  }

  lemma BreakMappers(s: State, k: Key, f: nat, e: Pte)
    requires k in s.pt && e.frame == f != s.pt[k].frame && Mappers(s.pt, f) == {}
    ensures forall h: nat ::
        && Mappers(s.pt[k := e], h) ==
          (if h == f then {k} else if h == s.pt[k].frame then Mappers(s.pt, h) - {k} else Mappers(s.pt, h))
        && |Mappers(s.pt[k := e], h)| ==
          |Mappers(s.pt, h)| + (if h == f then 1 else 0) - (if h == s.pt[k].frame then 1 else 0)
  {
    forall h: nat { MappersMove(s.pt, k, e, h); }
  }

  lemma BreakEntries(s: State, k: Key, f: nat, e: Pte)
    requires EntriesOk(s) && k in s.pt && s.pt[k].frame < |s.ram| && s.pt[k].frame < |s.ref|
    requires f < |s.ref| && f < |s.ram| && s.ref[s.pt[k].frame] > 0 && EntryOk(s, k, e)
    ensures EntriesOk(BreakShare(s, k, f, e))
  {
    var t := BreakShare(s, k, f, e);
    forall j | j in t.pt
      ensures EntryOk(t, j, t.pt[j])
    {
      assert j == k || EntryOk(s, j, s.pt[j]);
    }
  }

  // One page of fork: count it once more, withhold write in the parent, map it in the child.
  function SharePage(s: State, p: nat, c: nat, v: nat): State {
    if (p, v) !in s.pt || s.pt[(p, v)].frame >= |s.ref| then s
    else
      var e := s.pt[(p, v)].(w := false);
      s.(ref := s.ref[e.frame := s.ref[e.frame] + 1], pt := s.pt[(p, v) := e][(c, v) := e])
  }

  lemma SharePageInv(s: State, p: nat, c: nat, v: nat)
    requires Inv(s) && p < |s.procs| && c < |s.procs| && p != c && (c, v) !in s.pt
    requires forall x :: x in s.procs[p] ==> x in s.procs[c]
    ensures Inv(SharePage(s, p, c, v))
  {
    hide CountsAgree;
    hide EntriesOk;
    hide WritersAlone;
    if (p, v) in s.pt {
      MappedIsCounted(s, (p, v));
      ShareCounts(s, p, c, v);
      ShareEntriesOk(s, p, c, v);
      ShareWriters(s, p, c, v);
    }
  }

  lemma ShareCounts(s: State, p: nat, c: nat, v: nat)
    requires CountsAgree(s) && KernelUnmapped(s)
    requires (p, v) in s.pt && (c, v) !in s.pt && s.pt[(p, v)].frame < |s.ref|
    ensures CountsAgree(SharePage(s, p, c, v))
  {
    ShareMappers(s, p, c, v);
    hide Mappers;
  }

  lemma ShareMappers(s: State, p: nat, c: nat, v: nat)
    requires (p, v) in s.pt && (c, v) !in s.pt && s.pt[(p, v)].frame < |s.ref|
    ensures var t, g := SharePage(s, p, c, v), s.pt[(p, v)].frame;
      forall h: nat ::
        && Mappers(t.pt, h) == (if h == g then Mappers(s.pt, h) + {(c, v)} else Mappers(s.pt, h))
        && |Mappers(t.pt, h)| == |Mappers(s.pt, h)| + if h == g then 1 else 0
  {
    var e := s.pt[(p, v)].(w := false);
    forall h: nat
      ensures Mappers(SharePage(s, p, c, v).pt, h)
           == if h == e.frame then Mappers(s.pt, h) + {(c, v)} else Mappers(s.pt, h)
      ensures |Mappers(SharePage(s, p, c, v).pt, h)| == |Mappers(s.pt, h)| + if h == e.frame then 1 else 0
    {
      MappersSameFrame(s.pt, (p, v), e, h);
      MappersAdd(s.pt[(p, v) := e], (c, v), e, h);
    }
  }

  // Whoever may still write does not share the frame that was just shared.
  lemma ShareWriters(s: State, p: nat, c: nat, v: nat)
    requires WritersAlone(s) && (p, v) in s.pt && (c, v) !in s.pt && s.pt[(p, v)].frame < |s.ref|
    ensures WritersAlone(SharePage(s, p, c, v))
  {
    var t, g := SharePage(s, p, c, v), s.pt[(p, v)].frame;
    ShareMappers(s, p, c, v);
    forall k | k in t.pt && t.pt[k].w
      ensures Mappers(t.pt, t.pt[k].frame) == {k}
    {
      assert Mappers(s.pt, s.pt[k].frame) == {k};
      assert (p, v) in Mappers(s.pt, g);
    }
  }

  lemma ShareEntriesOk(s: State, p: nat, c: nat, v: nat)
    requires Inv(s) && p < |s.procs| && c < |s.procs| && (p, v) in s.pt && s.pt[(p, v)].frame < |s.ref|
    requires forall x :: x in s.procs[p] ==> x in s.procs[c]
    ensures EntriesOk(SharePage(s, p, c, v))
  {
    var t, e := SharePage(s, p, c, v), s.pt[(p, v)].(w := false);
    assert EntryOk(s, (p, v), s.pt[(p, v)]);
    var x :| x in s.procs[p] && Owns(x, v, s.pt[(p, v)]);
    assert Owns(x, v, e);
    forall k | k in t.pt
      ensures EntryOk(t, k, t.pt[k])
    {
      if k != (p, v) && k != (c, v) { assert EntryOk(s, k, s.pt[k]); }
    }
  }

  // A store through a writable entry.
  function WriteByte(s: State, f: nat, off: nat, b: byte): State
    requires f < |s.ram| && off < PGSIZE
  {
    var page: Page := s.ram[f][off := b];
    s.(ram := s.ram[f := page])
  }

  lemma WriteByteInv(s: State, f: nat, off: nat, b: byte)
    requires Inv(s) && f < |s.ram| && off < PGSIZE
    ensures Inv(WriteByte(s, f, off, b))
  {
    assert forall k :: k in s.pt ==> EntryOk(s, k, s.pt[k]);
    var t := WriteByte(s, f, off, b);
    forall k | k in t.pt
      ensures EntryOk(t, k, t.pt[k])
    {
    }
  }
}

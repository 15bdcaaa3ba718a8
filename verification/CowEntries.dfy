/** The entries of the copy-on-write model as the 64-bit values the code writes. */
module CowEntries {
  import opened Sv39
  import Bits
  import Cow
  import CowRuns
  import Vmas

  // PERM_V | PERM_U | PERM_A | PERM_D, always set in a user entry
  const BASE: nat := 0xd1

  function Perm(r: bool, w: bool, x: bool): nat {
    BASE + (if r then 2 else 0) + (if w then 4 else 0) + if x then 8 else 0
  }

  function Raw(e: Cow.Pte): nat {
    Pte(e.frame, Perm(e.r, e.w, e.x))
  }

  // value & ~PERM_W
  function ClearW(e: nat): nat {
    if W(e) then e - 4 else e
  }

  lemma RawFields(e: Cow.Pte)
    requires e.frame < PPN_LIMIT
    ensures V(Raw(e)) && R(Raw(e)) == e.r && W(Raw(e)) == e.w && X(Raw(e)) == e.x && Ppn(Raw(e)) == e.frame
    ensures Raw(e) % 256 == Perm(e.r, e.w, e.x)
  {
    var p := Perm(e.r, e.w, e.x);
    EntryBits(e.frame, p);
    LowByte(e.frame, p);
    PermBits(e.r, e.w, e.x);
  }

  lemma PermBits(r: bool, w: bool, x: bool)
    ensures V(Perm(r, w, x)) && R(Perm(r, w, x)) == r && W(Perm(r, w, x)) == w && X(Perm(r, w, x)) == x
    ensures Perm(r, w, x) < 256
  {
  }

  lemma LowByte(ppn: nat, perm: nat)
    requires perm < 256
    ensures (ppn * 1024 + perm) % 256 == perm
  {
    Bits.DivModIs(ppn * 1024 + perm, 256, 4 * ppn, perm);
  }

  // proc.c:298 withholds write in the parent, proc.c:300 builds the child's entry.
  lemma ForkEntries(e: Cow.Pte)
    requires e.frame < PPN_LIMIT
    ensures ClearW(Raw(e)) == Raw(e.(w := false))
    ensures Pte(Ppn(Raw(e)), ClearW(ClearW(Raw(e)) % 256)) == Raw(e.(w := false))
  {
    RawFields(e);
    RawFields(e.(w := false));
    assert W(Perm(e.r, false, e.x)) == false;
  }

  // vm.c:284, 293-295, 317-319: area flags 2, 4, 8 are the entry's R, W, X bits.
  lemma FaultEntry(x: Vmas.Vma, f: nat)
    requires x.flags < 16
    ensures Pte(f, BASE + (x.flags - x.flags % 2)) == Raw(CowRuns.FullEntry(x, f))
  {
  }

  // The hardware reads such an entry as a leaf, provided write comes with read.
  lemma RawIsLeaf(e: Cow.Pte)
    requires e.frame < PPN_LIMIT
    ensures IsLeaf(Raw(e)) <==> (e.r || e.x) && (e.w ==> e.r)
  {
    RawFields(e);
  }
}

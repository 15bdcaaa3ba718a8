/** Tables are only made to be used: every user last-level table holds a valid entry. */
module Sv39Dense {
  import opened Basics
  import opened Sv39

  // Some page of v's region is mapped in r.
  ghost predicate Inhabited(s: Space, r: nat, v: nat) {
    exists w: nat :: IsUser(w) && SameRegion(v, w) && V(s.Lookup(r, w))
  }

  ghost predicate Dense(s: Space) {
    forall r: nat, v: nat :: r in s.roots && IsUser(v) && s.Leaf(r, v).Some? ==> Inhabited(s, r, v)
  }

  lemma RegionHasOneLeaf(s: Space, r: nat, v: nat, w: nat)
    requires SameRegion(v, w)
    ensures s.Leaf(r, v) == s.Leaf(r, w)
  {
  }

  // In dense tables find_pte answers null for a user page exactly when its region is empty.
  lemma NullIffEmpty(s: Space, r: nat, v: nat)
    requires s.Valid() && Dense(s) && r in s.roots && IsUser(v)
    ensures s.Leaf(r, v).None? <==> !Inhabited(s, r, v)
  {
    if w: nat :| IsUser(w) && SameRegion(v, w) && V(s.Lookup(r, w)) {
      RegionHasOneLeaf(s, r, v, w);
    }
  }

  lemma BootIsDense(kernel: nat, pool: seq<nat>)
    ensures Dense(Space(map[kernel := EmptyTable()], pool, {kernel}, {}, {}, kernel))
  {
    var s := Space(map[kernel := EmptyTable()], pool, {kernel}, {}, {}, kernel);
    assert forall g: nat, i: nat :: s.E(g, i) == 0;
  }

  lemma CopyIsDense(s: Space)
    requires s.Valid() && s.KernelShared() && s.pool != [] && Dense(s)
    ensures Dense(CopyRoot(s))
  {
    CopyRootValid(s);
    var t := CopyRoot(s);
    forall r: nat, v: nat | r in t.roots && IsUser(v) && t.Leaf(r, v).Some?
      ensures Inhabited(t, r, v)
    {
      if r == s.pool[0] {
        FreshSpaceHasNoUserTables(s, v);
      } else {
        CopyKeepsLeaf(s, r, v);
        var w: nat :| IsUser(w) && SameRegion(v, w) && V(s.Lookup(r, w));
        assert t.Lookup(r, w) == s.Lookup(r, w);
      }
    }
  }

  lemma CopyKeepsLeaf(s: Space, r: nat, v: nat)
    requires s.Valid() && s.pool != [] && r in s.roots
    ensures CopyRoot(s).Leaf(r, v) == s.Leaf(r, v)
  {
    assert r != s.pool[0];
    if V(s.E(r, Idx2(v))) {
      assert Ppn(s.E(r, Idx2(v))) in s.pmds;
    }
  }

  // A change of one page's entry to a valid one keeps witnesses.
  lemma WitnessKept(s: Space, t: Space, r: nat, v: nat, e: nat, r': nat, v': nat)
    requires Remapped(s, t, r, v, e) && V(e) && r' in s.roots && Inhabited(s, r', v')
    ensures Inhabited(t, r', v')
  {
    var w: nat :| IsUser(w) && SameRegion(v', w) && V(s.Lookup(r', w));
    assert t.Lookup(r', w) == if r' == r && w == v then e else s.Lookup(r', w);
  }

  lemma MapPageIsDense(s: Space, r: nat, v: nat, e: nat)
    requires s.Valid() && r in s.roots && |s.pool| >= Missing(s, r, v) && IsUser(v) && V(e) && Dense(s)
    ensures Dense(MapPage(s, r, v, e))
  {
    var t := MapPage(s, r, v, e);
    MapPageLinks(s, r, v, e);
    hide MapPage;
    hide Missing;
    hide V;
    hide Space.Valid;
    hide Space.Lookup;
    forall r': nat, v': nat | r' in t.roots && IsUser(v') && t.Leaf(r', v').Some?
      ensures Inhabited(t, r', v')
    {
      if r' == r && SameRegion(v, v') {
        assert V(t.Lookup(r, v)) && SameRegion(v', v);
      } else {
        WitnessKept(s, t, r, v, e, r', v');
      }
    }
  }

  lemma RewriteIsDense(s: Space, r: nat, v: nat, e: nat)
    requires s.Valid() && r in s.roots && IsUser(v) && s.Leaf(r, v).Some? && V(e) && Dense(s)
    ensures Dense(RewritePage(s, r, v, e))
  {
    var t := RewritePage(s, r, v, e);
    LeafTyped(s, r, v);
    forall r': nat, v': nat | r' in t.roots && IsUser(v') && t.Leaf(r', v').Some?
      ensures Inhabited(t, r', v')
    {
      UpperEntriesKept(s, s.Leaf(r, v).value, Idx0(v), e, r', v');
      WitnessKept(s, t, r, v, e, r', v');
    }
  }
}

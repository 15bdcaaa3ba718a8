/** Array layout of the buddy tree: node i has children 2i + 1 and 2i + 2. */
module BuddyNodes {
  import opened Bits
  import opened BuddyTree

  // PARENT of mm.c
  function Parent(i: nat): (p: nat)
    requires i > 0
    ensures p < i && (i == 2 * p + 1 || i == 2 * p + 2)
  {
    (i + 1) / 2 - 1
  }

  // Frames node i stands for: [Lo(size, i), Lo(size, i) + NodeSize(size, i)).
  ghost function NodeSize(size: nat, i: nat): nat {
    if i == 0 then size else NodeSize(size, Parent(i)) / 2
  }

  ghost function Lo(size: nat, i: nat): nat {
    if i == 0 then 0 else Lo(size, Parent(i)) + if i % 2 == 1 then 0 else NodeSize(size, i)
  }

  lemma {:induction false} NodeIsBlock(size: nat, i: nat)
    requires IsPow2(size) && i < 2 * size - 1
    ensures ValidBlock(size, Lo(size, i), NodeSize(size, i))
    ensures (i + 1) * NodeSize(size, i) == Lo(size, i) + size
    decreases i
  {
    if i > 0 {
      var p := Parent(i);
      NodeIsBlock(size, p);
      InnerNode(size, p);
      hide ValidBlock;
      Halves(size, Lo(size, p), NodeSize(size, p));
      Doubling(p, i, NodeSize(size, i));
    }
  }

  lemma InnerNode(size: nat, p: nat)
    requires 2 * p + 1 < 2 * size - 1 && ValidBlock(size, Lo(size, p), NodeSize(size, p))
    requires (p + 1) * NodeSize(size, p) == Lo(size, p) + size
    ensures NodeSize(size, p) > 1
  {
    LeafLevel(size, p, Lo(size, p), NodeSize(size, p));
  }

  // The frame number formula of mm.c:129.
  lemma FrameFormula(size: nat, i: nat)
    requires IsPow2(size) && i < 2 * size - 1
    ensures (i + 1) * NodeSize(size, i) == Lo(size, i) + size
  {
    NodeIsBlock(size, i);
  }

  // The leaves are the nodes from size - 1 on.
  lemma Geometry(size: nat, i: nat)
    requires IsPow2(size) && i < 2 * size - 1
    ensures Lo(size, i) + NodeSize(size, i) <= size && IsPow2(NodeSize(size, i))
    ensures NodeSize(size, i) >= 1 && (NodeSize(size, i) == 1 <==> i >= size - 1)
  {
    NodeIsBlock(size, i);
    LeafLevel(size, i, Lo(size, i), NodeSize(size, i));
  }

  lemma Doubling(p: nat, i: nat, h: nat)
    ensures i == 2 * p + 1 ==> (i + 1) * h == (p + 1) * (2 * h)
    ensures i == 2 * p + 2 ==> (i + 1) * h == (p + 1) * (2 * h) + h
  {
  }

  lemma LeafLevel(size: nat, i: nat, lo: nat, ns: nat)
    requires (i + 1) * ns == lo + size && lo + ns <= size && ns >= 1
    ensures ns == 1 <==> i >= size - 1
  {
    if ns >= 2 && i >= size - 1 {
      MulLe(size, i + 1, ns);
      MulLe(2, ns, size);
    }
  }

  lemma Children(size: nat, i: nat)
    requires IsPow2(size) && i < size - 1
    ensures var ns := NodeSize(size, i);
      && ns > 1 && ns % 2 == 0
      && NodeSize(size, 2 * i + 1) == ns / 2 == NodeSize(size, 2 * i + 2)
      && Lo(size, 2 * i + 1) == Lo(size, i) && Lo(size, 2 * i + 2) == Lo(size, i) + ns / 2
  {
    Geometry(size, i);
    Pow2Half(NodeSize(size, i));
  }

  // A node is determined by the frames it stands for.
  lemma SameFramesSameNode(size: nat, i: nat, j: nat)
    requires IsPow2(size) && i < 2 * size - 1 && j < 2 * size - 1
    requires Lo(size, i) == Lo(size, j) && NodeSize(size, i) == NodeSize(size, j)
    ensures i == j
  {
    Geometry(size, i);
    FrameFormula(size, i);
    FrameFormula(size, j);
    Cancel(i + 1, j + 1, NodeSize(size, i));
  }

  lemma Cancel(x: nat, y: nat, a: nat)
    requires a >= 1 && x * a == y * a
    ensures x == y
  {
    assert (x - y) * a == 0;
    SmallMultipleIsZero(x - y, a);
  }

  ghost predicate LiveAt(size: nat, live: Blocks, i: nat) {
    Lo(size, i) in live && live[Lo(size, i)] == NodeSize(size, i)
  }

  // What node i must hold, given its children.
  ghost function Value(size: nat, live: Blocks, bm: seq<nat>, i: nat): nat
    requires |bm| == 2 * size && i < 2 * size - 1
  {
    if LiveAt(size, live, i) then 0
    else if i >= size - 1 then 1
    else Combine(NodeSize(size, i), bm[2 * i + 1], bm[2 * i + 2])
  }

  ghost predicate Canonical(size: nat, live: Blocks, bm: seq<nat>) {
    |bm| == 2 * size &&
    forall i: nat {:trigger Value(size, live, bm, i)} :: i < 2 * size - 1 ==> bm[i] == Value(size, live, bm, i)
  }

  // Every node is right except possibly the parent of node c.
  ghost predicate CanonicalButParent(size: nat, live: Blocks, bm: seq<nat>, c: nat) {
    |bm| == 2 * size && c < 2 * size - 1 &&
    forall i: nat {:trigger Value(size, live, bm, i)} ::
      i < 2 * size - 1 && (c == 0 || i != Parent(c)) ==> bm[i] == Value(size, live, bm, i)
  }

  lemma CanonicalAt(size: nat, live: Blocks, bm: seq<nat>, i: nat)
    requires Canonical(size, live, bm) && i < 2 * size - 1
    ensures |bm| == 2 * size && bm[i] == Value(size, live, bm, i)
  {
  }

  // The array is a function of the live blocks alone.
  lemma {:induction false} CanonicalIsLongest(size: nat, live: Blocks, bm: seq<nat>, i: nat)
    requires IsPow2(size) && Canonical(size, live, bm) && |bm| == 2 * size && i < 2 * size - 1
    ensures bm[i] == Longest(live, Lo(size, i), NodeSize(size, i))
    decreases 2 * size - i
  {
    hide *;
    CanonicalAt(size, live, bm, i);
    Geometry(size, i);
    if i < size - 1 {
      CanonicalIsLongest(size, live, bm, 2 * i + 1);
      CanonicalIsLongest(size, live, bm, 2 * i + 2);
      Children(size, i);
    }
    LongestFromChildren(size, live, bm, i);
  }

  lemma LongestFromChildren(size: nat, live: Blocks, bm: seq<nat>, i: nat)
    requires |bm| == 2 * size && i < 2 * size - 1 && bm[i] == Value(size, live, bm, i)
    requires NodeSize(size, i) >= 1 && (NodeSize(size, i) == 1 <==> i >= size - 1)
    requires i < size - 1 ==>
      var lo, h := Lo(size, i), NodeSize(size, i) / 2;
      bm[2 * i + 1] == Longest(live, lo, h) && bm[2 * i + 2] == Longest(live, lo + h, h)
    ensures bm[i] == Longest(live, Lo(size, i), NodeSize(size, i))
  {
  }

  lemma CanonicalIsUnique(size: nat, live: Blocks, bm: seq<nat>, bm': seq<nat>)
    requires IsPow2(size) && Canonical(size, live, bm) && Canonical(size, live, bm')
    ensures bm[..2 * size - 1] == bm'[..2 * size - 1]
  {
    forall i | 0 <= i < 2 * size - 1
      ensures bm[i] == bm'[i]
    {
      CanonicalIsLongest(size, live, bm, i);
      CanonicalIsLongest(size, live, bm', i);
    }
  }

  // With no live block every node holds its size: the array buddy_init builds.
  lemma EmptyIsCanonical(size: nat, bm: seq<nat>)
    requires IsPow2(size) && |bm| == 2 * size
    ensures Canonical(size, map[], bm)
       <==> forall i :: 0 <= i < 2 * size - 1 ==> bm[i] == NodeSize(size, i)
  {
    if Canonical(size, map[], bm) {
      forall i | 0 <= i < 2 * size - 1
        ensures bm[i] == NodeSize(size, i)
      {
        CanonicalIsLongest(size, map[], bm, i);
        Geometry(size, i);
        FullWhenEmpty(map[], Lo(size, i), NodeSize(size, i));
      }
    }
    if forall i :: 0 <= i < 2 * size - 1 ==> bm[i] == NodeSize(size, i) {
      forall i | 0 <= i < 2 * size - 1
        ensures bm[i] == Value(size, map[], bm, i)
      {
        Geometry(size, i);
        if i < size - 1 { Children(size, i); }
      }
    }
  }

  // Writing node p disturbs at most the parent of p.
  lemma WriteFrame(size: nat, live: Blocks, bm: seq<nat>, p: nat, x: nat, i: nat)
    requires |bm| == 2 * size && p < 2 * size - 1 && i < 2 * size - 1
    requires p == 0 || i != Parent(p)
    ensures Value(size, live, bm[p := x], i) == Value(size, live, bm, i)
  {
    if p > 0 {
      var q := Parent(p);
    }
  }

  // Repairing the one wrong node moves the disturbance one level up.
  lemma Repair(size: nat, live: Blocks, bm: seq<nat>, c: nat, x: nat)
    requires CanonicalButParent(size, live, bm, c) && c > 0
    requires x == Value(size, live, bm, Parent(c))
    ensures CanonicalButParent(size, live, bm[Parent(c) := x], Parent(c))
  {
    var p := Parent(c);
    var now := bm[p := x];
    forall i | 0 <= i < 2 * size - 1 && (p == 0 || i != Parent(p))
      ensures now[i] == Value(size, live, now, i)
    {
      WriteFrame(size, live, bm, p, x, i);
    }
  }

  // Changing the block of node c and its array entry together disturbs only the parent of c.
  lemma Replace(size: nat, live: Blocks, live': Blocks, bm: seq<nat>, c: nat, x: nat)
    requires IsPow2(size) && Canonical(size, live, bm) && c < 2 * size - 1
    requires forall h :: h != Lo(size, c) ==> (h in live <==> h in live') && (h in live ==> live[h] == live'[h])
    requires Lo(size, c) in live ==> live[Lo(size, c)] == NodeSize(size, c)
    requires Lo(size, c) in live' ==> live'[Lo(size, c)] == NodeSize(size, c)
    requires x == Value(size, live', bm, c)
    ensures CanonicalButParent(size, live', bm[c := x], c)
  {
    var now := bm[c := x];
    forall i | 0 <= i < 2 * size - 1 && (c == 0 || i != Parent(c))
      ensures now[i] == Value(size, live', now, i)
    {
      WriteFrame(size, live', bm, c, x, i);
      if i != c {
        if Lo(size, i) == Lo(size, c) && NodeSize(size, i) == NodeSize(size, c) {
          SameFramesSameNode(size, i, c);
        }
        assert LiveAt(size, live', i) == LiveAt(size, live, i);
        assert bm[i] == Value(size, live, bm, i);
      }
    }
  }

  // Ancestors of a live block's node are not themselves live.
  lemma NotLiveAbove(size: nat, live: Blocks, h: nat, p: nat)
    requires WellFormed(size, live) && h in live && p < 2 * size - 1
    requires Lo(size, p) <= h && h + live[h] <= Lo(size, p) + NodeSize(size, p) && live[h] < NodeSize(size, p)
    ensures !LiveAt(size, live, p)
  {
    assert ValidBlock(size, h, live[h]);
  }

  // Going from node c to its parent widens the frames and keeps the old ones.
  lemma ParentCovers(size: nat, c: nat)
    requires IsPow2(size) && 0 < c < 2 * size - 1
    ensures var p := Parent(c);
      && p < size - 1 && NodeSize(size, p) == 2 * NodeSize(size, c)
      && (Lo(size, p) == Lo(size, c) || Lo(size, p) + NodeSize(size, c) == Lo(size, c))
  {
    Children(size, Parent(c));
  }
}

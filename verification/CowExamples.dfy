/** Concrete runs of the copy-on-write kernel that show where it departs from what one expects. */
module CowExamples {
  import opened Basics
  import opened Vmas
  import opened Cow
  import opened CowRuns
  import opened CowRefinement
  import opened CowTheorems
  import opened CowMemory

  // ---------------------------------------------------------------------------------
  // One process with one anonymous read-write area over the first half of a page.

  const HALF_PAGE := Vma(0, 2048, 0, 0, 7)

  function HalfPage(): State {
    State([], [ZeroPage(), ZeroPage()], [0, 0], {}, [[HALF_PAGE]], map[])
  }

  lemma HalfPageStarts()
    ensures Start(HalfPage()) && Inv(HalfPage())
  {
    StartInv(HalfPage());
  }

  // Store inside the area, fork, store to the other half of the page: refused, while eager
  // copying performs all three.
  const SLACK_RUN := [Access(0, 0, Store(1), 0), Fork(0), Access(0, 4000, Store(2), 1)]

  lemma SlackRun()
    ensures Start(HalfPage()) && Inv(HalfPage()) && Legal(HalfPage(), SLACK_RUN)
    ensures !NoSlack(HalfPage(), SLACK_RUN)
    ensures Outcomes(HalfPage(), SLACK_RUN) == [Done, Done, Denied]
  {
    var s := HalfPage();
    HalfPageStarts();
    StoreMaps();
    var s1 := Step(s, SLACK_RUN[0]).0;
    ForkThenSlack(s1);
    hide Inv;
    hide Step;
    hide Enabled;
    hide SlackOp;
    ThreeSteps(s, SLACK_RUN[0], SLACK_RUN[1], SLACK_RUN[2]);
  }

  lemma StoreMaps()
    ensures Inv(HalfPage()) && Enabled(HalfPage(), SLACK_RUN[0])
    ensures var r := Step(HalfPage(), SLACK_RUN[0]);
      r.1 == Done && Inv(r.0) && 0 < |r.0.procs| && Find(r.0.procs[0], 4000) == None
      && Hits(r.0, (0, PageOf(4000)), Store(2))
  {
    HalfPageStarts();
    StepInv(HalfPage(), SLACK_RUN[0]);
    hide Inv;
  }

  lemma ForkThenSlack(s: State)
    requires Inv(s) && 0 < |s.procs| && Find(s.procs[0], 4000) == None && Hits(s, (0, PageOf(4000)), Store(2))
    ensures Enabled(s, SLACK_RUN[1]) && Step(s, SLACK_RUN[1]).1 == Done
    ensures var t := Step(s, SLACK_RUN[1]).0;
      Inv(t) && Enabled(t, SLACK_RUN[2]) && Step(t, SLACK_RUN[2]) == (t, Denied) && SlackOp(t, SLACK_RUN[2])
  {
    SlackStoreDiverges(s, 0, 4000, 2, 1);
    hide Inv;
    hide DoFork;
    hide DoAccess;
  }

  lemma ThreeSteps(s: State, a: Op, b: Op, c: Op)
    requires Inv(s) && Enabled(s, a) && Inv(Step(s, a).0) && Enabled(Step(s, a).0, b)
    requires Inv(Step(Step(s, a).0, b).0) && Enabled(Step(Step(s, a).0, b).0, c)
    ensures var s1, s2 := Step(s, a).0, Step(Step(s, a).0, b).0;
      && Legal(s, [a, b, c])
      && Outcomes(s, [a, b, c]) == [Step(s, a).1, Step(s1, b).1, Step(s2, c).1]
      && (SlackOp(s2, c) ==> !NoSlack(s, [a, b, c]))
  {
    var s1, s2 := Step(s, a).0, Step(Step(s, a).0, b).0;
    StepInv(s2, c);
    assert [a, b, c] == [a] + ([b] + ([c] + []));
    hide *;
    RunNone(Step(s2, c).0);
    RunCons(s2, c, []);
    RunCons(s1, b, [c] + []);
    RunCons(s, a, [b] + ([c] + []));
  }

  lemma RunNone(s: State)
    requires Inv(s)
    ensures Legal(s, []) && Outcomes(s, []) == []
  {
  }

  lemma RunCons(s: State, op: Op, rest: seq<Op>)
    requires Inv(s) && Enabled(s, op) && Inv(Step(s, op).0) && Legal(Step(s, op).0, rest)
    ensures Legal(s, [op] + rest)
    ensures Outcomes(s, [op] + rest) == [Step(s, op).1] + Outcomes(Step(s, op).0, rest)
    ensures NoSlack(s, [op] + rest) <==> !SlackOp(s, op) && NoSlack(Step(s, op).0, rest)
  {
    assert ([op] + rest)[0] == op && ([op] + rest)[1..] == rest;
    hide Inv;
    hide Enabled;
    hide Step;
    hide SlackOp;
  }

  // ---------------------------------------------------------------------------------
  // Memory beyond the file.

  // What a process reads there, after any run, when nobody wrote it: zero, as ELF asks, if and
  // only if the image holds zero at that place.
  lemma BssReadsZeroIff(s: State, ops: seq<Op>, p: nat, a: nat, x: Vma, f: nat)
    requires Start(s) && Inv(s) && Legal(s, ops)
    requires p < |Run(s, ops).procs| && Supplied(Run(s, ops), p, a, Load, f)
    requires x in Run(s, ops).procs[p] && x.Contains(a) && x.Readable() && !x.Anon() && InBss(x, a)
    requires (p, a) !in WrittenBy(s, map[], ops)
    ensures GoodArea(s.image, x)
    ensures DoAccess(Run(s, ops), p, a, Load, f).1 == Byte(0) <==> s.image[x.pgoff + (a - x.start)] == 0
  {
    MemoryIsPrivateAndPersistent(s, ops, p, a, x, f);
    OnlyAreaAt(Run(s, ops), p, a, x);
  }

  // An area of two bytes of which the file gives one; the image goes on with 7.
  const TWO_BYTES := Vma(0, 2, 0, 1, 2)

  function TwoBytes(): State {
    State([7, 7], [ZeroPage()], [0], {}, [[TWO_BYTES]], map[])
  }

  lemma BssReadsImage()
    ensures Start(TwoBytes()) && Inv(TwoBytes()) && InBss(TWO_BYTES, 1)
    ensures Supplied(TwoBytes(), 0, 1, Load, 0) && DoAccess(TwoBytes(), 0, 1, Load, 0).1 == Byte(7)
  {
    var s := TwoBytes();
    StartInv(s);
    StartAgrees(s);
    LoadSees(s, map[], 0, 1, TWO_BYTES, 0);
  }
}

/** What holds over every run of the copy-on-write kernel. */
module CowTheorems {
  import opened Basics
  import opened Vmas
  import opened Cow
  import opened CowRuns
  import opened CowRefinement

  // The allocator has an unused frame for the steps that need one; the process exists.
  ghost predicate Enabled(s: State, op: Op) {
    match op
    case Access(p, a, kind, f) => p < |s.procs| && Supplied(s, p, a, kind, f)
    case Fork(p) => p < |s.procs|
    case KernelTake(f) => FreeFrame(s, f)
  }

  ghost function Step(s: State, op: Op): (State, Outcome)
    requires Inv(s) && Enabled(s, op)
  {
    match op
    case Access(p, a, kind, f) => DoAccess(s, p, a, kind, f)
    case Fork(p) => (DoFork(s, p), Done)
    case KernelTake(f) => (TakeKernelFrame(s, f), Done)
  }

  lemma StepInv(s: State, op: Op)
    requires Inv(s) && Enabled(s, op)
    ensures Inv(Step(s, op).0) && Step(s, op).0.image == s.image
  {
    match op
    case Access(p, a, kind, f) => DoAccessInv(s, p, a, kind, f);
    case Fork(p) => ForkShares(s, p);
    case KernelTake(f) => TakeKernelFrameInv(s, f);
  }

  ghost predicate Legal(s: State, ops: seq<Op>)
    requires Inv(s)
    decreases |ops|
  {
    ops == [] || (Enabled(s, ops[0]) && (StepInv(s, ops[0]); Legal(Step(s, ops[0]).0, ops[1..])))
  }

  // Reference counts, lone writers and area permissions hold in every reachable state.
  ghost function Run(s: State, ops: seq<Op>): (t: State)
    requires Inv(s) && Legal(s, ops)
    ensures Inv(t) && t.image == s.image
    decreases |ops|
  {
    if ops == [] then s
    else
      StepInv(s, ops[0]);
      Run(Step(s, ops[0]).0, ops[1..])
  }

  ghost function Outcomes(s: State, ops: seq<Op>): (r: seq<Outcome>)
    requires Inv(s) && Legal(s, ops)
    ensures |r| == |ops|
    decreases |ops|
  {
    if ops == [] then []
    else
      StepInv(s, ops[0]);
      [Step(s, ops[0]).1] + Outcomes(Step(s, ops[0]).0, ops[1..])
  }

  // What task_init leaves: processes with areas, no page mapped yet.
  ghost predicate Start(s: State) {
    && GoodAreas(s) && s.pt == map[] && |s.ref| == |s.ram|
    && forall f :: 0 <= f < |s.ram| ==> s.ref[f] == if f in s.kernel then 1 else 0
  }

  lemma StartInv(s: State)
    requires Start(s)
    ensures Inv(s)
  {
    assert forall f: nat :: Mappers(s.pt, f) == {};
  }

  // ---------------------------------------------------------------------------------
  // Copy-on-write against eager copying, over whole runs.

  // The old content of the frame a step would take, which shows in anonymous memory.
  ghost function JunkOf(s: State, op: Op): Page {
    if op.Access? then Junk(s, op.f) else ZeroPage()
  }

  ghost function Junks(s: State, ops: seq<Op>): (r: seq<Page>)
    requires Inv(s) && Legal(s, ops)
    ensures |r| == |ops|
    decreases |ops|
  {
    if ops == [] then []
    else
      StepInv(s, ops[0]);
      [JunkOf(s, ops[0])] + Junks(Step(s, ops[0]).0, ops[1..])
  }

  ghost function EagerStep(e: Eager, image: seq<byte>, op: Op, junk: Page): (Eager, Outcome) {
    match op
    case Access(p, a, kind, _) =>
      if p < |e.procs| && forall x :: x in e.procs[p] ==> GoodArea(image, x)
      then EagerAccess(e, image, p, a, kind, junk) else (e, Denied)
    case Fork(p) => if p < |e.procs| then (EagerFork(e, p), Done) else (e, Denied)
    case KernelTake(_) => (e, Done)
  }

  ghost function EagerRun(e: Eager, image: seq<byte>, ops: seq<Op>, junks: seq<Page>): (Eager, seq<Outcome>)
    requires |ops| == |junks|
    decreases |ops|
  {
    if ops == [] then (e, [])
    else
      var step := EagerStep(e, image, ops[0], junks[0]);
      var rest := EagerRun(step.0, image, ops[1..], junks[1..]);
      (rest.0, [step.1] + rest.1)
  }

  ghost predicate SlackOp(s: State, op: Op) {
    op.Access? && op.p < |s.procs| && SlackStore(s, op.p, op.a, op.kind)
  }

  // No store of the run goes to the slack of a shared page; stores inside areas never do.
  ghost predicate NoSlack(s: State, ops: seq<Op>)
    requires Inv(s) && Legal(s, ops)
    decreases |ops|
  {
    ops == [] || (!SlackOp(s, ops[0]) && (StepInv(s, ops[0]); NoSlack(Step(s, ops[0]).0, ops[1..])))
  }

  lemma AccessStepRefines(s: State, p: nat, a: nat, kind: Kind, f: nat)
    requires Inv(s) && Enabled(s, Access(p, a, kind, f)) && !SlackOp(s, Access(p, a, kind, f))
    ensures var r := Step(s, Access(p, a, kind, f));
      var e := EagerStep(Abs(s), s.image, Access(p, a, kind, f), JunkOf(s, Access(p, a, kind, f)));
      Abs(r.0) == e.0 && r.1 == e.1
  {
    AbsKeys(s);
    hide Abs;
    hide DoAccess;
    hide EagerAccess;
    AccessRefines(s, p, a, kind, f);
  }

  lemma StepRefines(s: State, op: Op)
    requires Inv(s) && Enabled(s, op) && !SlackOp(s, op)
    ensures var r, e := Step(s, op), EagerStep(Abs(s), s.image, op, JunkOf(s, op));
      Abs(r.0) == e.0 && r.1 == e.1
  {
    match op
    case Access(p, a, kind, f) =>
      hide *;
      AccessStepRefines(s, p, a, kind, f);
    case Fork(p) =>
      AbsKeys(s);
      hide Abs;
      hide EagerFork;
      hide DoFork;
      hide Inv;
      AbsFork(s, p);
    case KernelTake(f) =>
      KernelTakeHidden(s, f);
      hide *;
  }

  lemma KernelTakeHidden(s: State, f: nat)
    requires f < |s.ref|
    ensures Abs(TakeKernelFrame(s, f)) == Abs(s)
  {
    assert Abs(TakeKernelFrame(s, f)).mem == Abs(s).mem;
  }

  ghost predicate SameOutcomes(s: State, ops: seq<Op>)
    requires Inv(s) && Legal(s, ops)
  {
    Outcomes(s, ops) == EagerRun(Abs(s), s.image, ops, Junks(s, ops)).1
  }

  ghost predicate SameEnd(s: State, ops: seq<Op>)
    requires Inv(s) && Legal(s, ops)
  {
    Abs(Run(s, ops)) == EagerRun(Abs(s), s.image, ops, Junks(s, ops)).0
  }

  // A run has the outcomes it would have under eager copying if and only if no store of it goes to
  // the slack of a shared page, and then all memory is the same too.
  lemma {:induction false} RunRefines(s: State, ops: seq<Op>)
    requires Inv(s) && Legal(s, ops)
    ensures SameOutcomes(s, ops) <==> NoSlack(s, ops)
    ensures NoSlack(s, ops) ==> SameEnd(s, ops)
    decreases |ops|
  {
    if ops != [] {
      RunUnfolds(s, ops);
      hide *;
      if SlackOp(s, ops[0]) {
        SlackDiffers(s, ops);
      } else {
        StepSame(s, ops);
        RunRefines(Step(s, ops[0]).0, ops[1..]);
      }
    }
  }

  lemma SlackDiffers(s: State, ops: seq<Op>)
    requires Inv(s) && Legal(s, ops) && ops != [] && SlackOp(s, ops[0])
    ensures !SameOutcomes(s, ops)
  {
    RunUnfolds(s, ops);
    SlackStep(s, ops[0]);
    hide Inv;
    hide Legal;
    hide Step;
    hide EagerStep;
    hide EagerRun;
    hide Outcomes;
    assert Outcomes(s, ops)[0] == Step(s, ops[0]).1;
  }

  lemma SlackStep(s: State, op: Op)
    requires Inv(s) && Enabled(s, op) && SlackOp(s, op)
    ensures Step(s, op).1 != EagerStep(Abs(s), s.image, op, JunkOf(s, op)).1
  {
    SlackOutcome(s, op.p, op.a, op.kind, op.f);
    hide Inv;
    hide DoAccess;
    hide EagerAccess;
  }

  lemma StepSame(s: State, ops: seq<Op>)
    requires Inv(s) && Legal(s, ops) && ops != []
    requires Enabled(s, ops[0]) && !SlackOp(s, ops[0])
    requires Inv(Step(s, ops[0]).0) && Legal(Step(s, ops[0]).0, ops[1..])
    ensures SameOutcomes(s, ops) <==> SameOutcomes(Step(s, ops[0]).0, ops[1..])
    ensures SameEnd(s, ops) <==> SameEnd(Step(s, ops[0]).0, ops[1..])
  {
    RunUnfolds(s, ops);
    StepRefines(s, ops[0]);
    hide Inv;
    hide Legal;
    hide Step;
    hide EagerStep;
    hide EagerRun;
    hide Outcomes;
    hide Junks;
    hide Run;
    hide Abs;
    var t, rest := Step(s, ops[0]).0, ops[1..];
    SameTail(Step(s, ops[0]).1, Outcomes(t, rest), EagerRun(Abs(t), s.image, rest, Junks(t, rest)).1);
  }

  lemma RunUnfolds(s: State, ops: seq<Op>)
    requires Inv(s) && Legal(s, ops) && ops != []
    ensures Enabled(s, ops[0]) && Inv(Step(s, ops[0]).0)
    ensures var r := Step(s, ops[0]);
      var e := EagerStep(Abs(s), s.image, ops[0], JunkOf(s, ops[0]));
      && r.0.image == s.image && Legal(r.0, ops[1..])
      && Run(s, ops) == Run(r.0, ops[1..])
      && Outcomes(s, ops) == [r.1] + Outcomes(r.0, ops[1..])
      && (NoSlack(s, ops) <==> !SlackOp(s, ops[0]) && NoSlack(r.0, ops[1..]))
      && var rest := EagerRun(e.0, s.image, ops[1..], Junks(r.0, ops[1..]));
         EagerRun(Abs(s), s.image, ops, Junks(s, ops)) == (rest.0, [e.1] + rest.1)
  {
    StepInv(s, ops[0]);
    assert Junks(s, ops)[1..] == Junks(Step(s, ops[0]).0, ops[1..]);
    hide Inv;
    hide Step;
    hide EagerStep;
    hide Abs;
    hide SlackOp;
  }

  lemma SameTail<T>(x: T, a: seq<T>, b: seq<T>)
    ensures [x] + a == [x] + b <==> a == b
  {
    if [x] + a == [x] + b {
      assert a == ([x] + a)[1..] == ([x] + b)[1..] == b;
    }
  }

  // The condition is not empty: right after a fork, a store to the slack of a page the parent
  // could write is refused, while eager copying performs it.
  lemma SlackStoreDiverges(s: State, p: nat, a: nat, b: byte, f: nat)
    requires Inv(s) && p < |s.procs| && Hits(s, (p, PageOf(a)), Store(b)) && Find(s.procs[p], a) == None
    ensures var t := DoFork(s, p);
      Inv(t) && p < |t.procs| && SlackStore(t, p, a, Store(b)) && DoAccess(t, p, a, Store(b), f) == (t, Denied)
    ensures var e := EagerStep(Abs(s), s.image, Fork(p), ZeroPage()).0;
      EagerStep(e, s.image, Access(p, a, Store(b), f), ZeroPage()).1 == Done
  {
    var t := DoFork(s, p);
    ForkShares(s, p);
    PermOfEntry(s, (p, PageOf(a)), Store(b));
    AfterForkCow(s, t, p, PageOf(a), b);
    assert t.procs[p] == s.procs[p];
    AbsFork(s, p);
    AbsKeys(s);
    assert Abs(t) == EagerStep(Abs(s), s.image, Fork(p), ZeroPage()).0 && t.image == s.image;
    hide Inv;
    hide Abs;
    hide EagerFork;
    hide EagerAccess;
    SlackOutcome(t, p, a, Store(b), f);
  }

  lemma AfterForkCow(s: State, t: State, p: nat, v: nat, b: byte)
    requires (p, v) in s.pt && Entry(t.pt, (p, v)) == AfterFork(s.pt, p, |s.procs|, (p, v))
    ensures IsCow(t, (p, v), Store(b))
  {
  }

  lemma SlackOutcome(s: State, p: nat, a: nat, kind: Kind, f: nat)
    requires Inv(s) && p < |s.procs| && SlackStore(s, p, a, kind)
    ensures DoAccess(s, p, a, kind, f) == (s, Denied)
    ensures forall junk :: EagerStep(Abs(s), s.image, Access(p, a, kind, f), junk).1 == Done
  {
    AbsKeys(s);
    hide Abs;
  }
}

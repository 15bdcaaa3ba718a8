/** do_timer, schedule and the scheduling part of do_fork (arch/riscv/kernel/proc.c). */
module Scheduling {

  // Index 0 is idle. Beside counter, priority and current, a state keeps the books of a run:
  // ticks consumed per task, refills so far, and for each task the refill count at its birth
  // and the counter it was born with.
  datatype State = State(
    prio: seq<nat>, counter: seq<nat>, cur: nat,
    ran: seq<nat>, refills: nat, born: seq<nat>, inherited: seq<nat>)

  datatype Event = Timer | Fork

  ghost predicate Valid(s: State) {
    && |s.prio| == |s.counter| == |s.ran| == |s.born| == |s.inherited| >= 2
    && s.cur < |s.prio|
    && s.prio[0] == s.counter[0] == 0
    && (forall i :: 1 <= i < |s.prio| ==> s.prio[i] >= 1)
    && (forall i :: 0 <= i < |s.prio| ==> s.counter[i] <= s.prio[i])
  }

  // The state task_init sets up: idle runs, all counters are 0.
  ghost predicate Initial(s: State)
    requires Valid(s)
  {
    && s.cur == 0 && s.refills == 0
    && forall i :: 0 <= i < |s.prio| ==>
      s.counter[i] == 0 && s.ran[i] == 0 && s.born[i] == 0 && s.inherited[i] == 0
  }

  // The scan of schedule(): largest counter, lowest index first; idle when all are 0.
  ghost predicate IsPick(c: seq<nat>, p: nat) {
    && p < |c|
    && (forall i :: 1 <= i < |c| ==> c[i] <= c[p])
    && (p > 0 ==> c[p] > 0)
    && (forall i :: 1 <= i < p ==> c[i] < c[p])
  }

  function PickUpTo(c: seq<nat>, k: nat): (p: nat)
    requires 1 <= k <= |c| && c[0] == 0
    ensures p < k
    ensures forall i :: 1 <= i < k ==> c[i] <= c[p]
    ensures p > 0 ==> c[p] > 0
    ensures forall i :: 1 <= i < p ==> c[i] < c[p]
  {
    if k == 1 then 0
    else
      var p := PickUpTo(c, k - 1);
      if c[k - 1] <= c[p] then p else k - 1
  }

  function Pick(c: seq<nat>): (p: nat)
    requires |c| >= 1 && c[0] == 0
    ensures IsPick(c, p)
  {
    PickUpTo(c, |c|)
  }

  lemma PickIsUnique(c: seq<nat>, p: nat, q: nat)
    requires |c| >= 1 && c[0] == 0 && IsPick(c, p) && IsPick(c, q)
    ensures p == q
  {
  }

  lemma PickMeans(c: seq<nat>, p: nat)
    requires |c| >= 1 && c[0] == 0 && p == Pick(c)
    ensures IsPick(c, p) && (p > 0 <==> exists i :: 1 <= i < |c| && c[i] > 0)
  {
    assert p > 0 ==> c[p] > 0;
  }

  function Schedule(s: State): State
    requires Valid(s)
  {
    var p := Pick(s.counter);
    if p != 0 then s.(cur := p)
    else Refilled(s).(cur := Pick(s.prio))
  }

  // Every task's counter is reset to its priority.
  function Refilled(s: State): State {
    s.(counter := s.prio, refills := s.refills + 1)
  }

  function Tick(s: State): (t: State)
    requires Valid(s)
    ensures Valid(t)
  {
    if s.cur == 0 || s.counter[s.cur] == 0 then Schedule(s)
    else
      var t := s.(counter := s.counter[s.cur := s.counter[s.cur] - 1], ran := s.ran[s.cur := s.ran[s.cur] + 1]);
      if t.counter[t.cur] == 0 then Schedule(t) else t
  }

  // do_fork copies the whole task_struct, counter and priority included. Only a task forks.
  function Forked(s: State): State
    requires Valid(s)
  {
    if s.cur == 0 then s
    else s.(prio := s.prio + [s.prio[s.cur]], counter := s.counter + [s.counter[s.cur]],
            ran := s.ran + [0], born := s.born + [s.refills], inherited := s.inherited + [s.counter[s.cur]])
  }

  function Step(s: State, e: Event): (t: State)
    requires Valid(s)
    ensures Valid(t)
  {
    match e
    case Timer => Tick(s)
    case Fork => Forked(s)
  }

  function Run(s: State, es: seq<Event>): (t: State)
    requires Valid(s)
    ensures Valid(t)
    decreases |es|
  {
    if es == [] then s else Run(Step(s, es[0]), es[1..])
  }

  // Conservation: what a task consumed plus what it holds is what it was ever given.
  ghost predicate Conserved(s: State)
    requires Valid(s)
  {
    forall i: nat :: 1 <= i < |s.prio| ==> Balanced(s, i)
  }

  ghost predicate Balanced(s: State, i: nat)
    requires Valid(s) && i < |s.prio|
  {
    && s.born[i] <= s.refills
    && s.ran[i] + s.counter[i] == s.inherited[i] + (s.refills - s.born[i]) * s.prio[i]
  }

  lemma StepConserves(s: State, e: Event)
    requires Valid(s) && Conserved(s)
    ensures Conserved(Step(s, e))
  {
    var t := Step(s, e);
    forall i: nat | 1 <= i < |t.prio|
      ensures Balanced(t, i)
    {
      hide Tick;
      if i < |s.prio| {
        StepAccount(s, e, i);
      } else {
        assert t.born[i] == t.refills && t.ran[i] == 0 && t.counter[i] == t.inherited[i];
      }
    }
  }

  // A step moves ticks from a task's counter to its account, or hands out a full slice.
  lemma StepAccount(s: State, e: Event, i: nat)
    requires Valid(s) && 1 <= i < |s.prio| && Balanced(s, i)
    ensures Balanced(Step(s, e), i)
  {
    StepMovesTicks(s, e, i);
    OneMoreRefill(s.refills - s.born[i], s.prio[i]);
  }

  lemma StepMovesTicks(s: State, e: Event, i: nat)
    requires Valid(s) && 1 <= i < |s.prio|
    ensures var t := Step(s, e);
      && |s.prio| <= |t.prio| && t.prio[i] == s.prio[i]
      && t.born[i] == s.born[i] && t.inherited[i] == s.inherited[i]
      && (|| (t.refills == s.refills && t.ran[i] + t.counter[i] == s.ran[i] + s.counter[i])
          || (t.refills == s.refills + 1 && t.ran[i] + t.counter[i] == s.ran[i] + s.counter[i] + s.prio[i]))
  {
    if e.Timer? && s.cur != 0 && s.counter[s.cur] > 0 {
      var c := s.counter[s.cur := s.counter[s.cur] - 1];
      assert c[i] <= c[Pick(c)];
    } else if e.Timer? {
      assert s.counter[i] <= s.counter[Pick(s.counter)];
    }
  }

  lemma OneMoreRefill(gap: nat, p: nat)
    ensures (gap + 1) * p == gap * p + p
  {
  }

  // The law over whole runs, forks included, from the state task_init leaves.
  lemma {:induction false} RunConserves(s: State, es: seq<Event>)
    requires Valid(s) && Conserved(s)
    ensures Conserved(Run(s, es))
    decreases |es|
  {
    if es != [] {
      StepConserves(s, es[0]);
      RunConserves(Step(s, es[0]), es[1..]);
    }
  }

  // Once a task was chosen, idle never runs again and the running task has ticks left: this
  // holds through every later timer interrupt and fork.
  ghost predicate Running(s: State)
    requires Valid(s)
  {
    s.cur > 0 && s.counter[s.cur] > 0
  }

  lemma {:induction false} NeverIdleAgain(s: State, es: seq<Event>)
    requires Valid(s) && (Running(s) || (s.cur == 0 && es != [] && es[0] == Timer))
    ensures Running(Run(s, es))
    decreases |es|
  {
    if es != [] {
      var t := Step(s, es[0]);
      assert t.prio[1] <= t.prio[Pick(t.prio)];
      assert Running(t);
      NeverIdleAgain(t, es[1..]);
    }
  }

  // ---------------------------------------------------------------------------------
  // The exact timetable of a fixed task set.

  // i runs before j within an epoch: higher priority first, ties by lower index.
  predicate Before(prio: seq<nat>, i: nat, j: nat)
    requires i < |prio| && j < |prio|
  {
    prio[i] > prio[j] || (prio[i] == prio[j] && i < j)
  }

  ghost function BeforeSet(prio: seq<nat>, i: nat): set<nat>
    requires i < |prio|
  {
    set j: nat | 1 <= j < |prio| && Before(prio, j, i)
  }

  ghost function Tasks(prio: seq<nat>): set<nat> {
    set j: nat | 1 <= j < |prio| && prio[j] >= 0
  }

  ghost function SumIn(prio: seq<nat>, S: set<nat>, k: nat): nat
    requires k <= |prio|
  {
    if k == 0 then 0 else SumIn(prio, S, k - 1) + if k - 1 in S then prio[k - 1] else 0
  }

  // When in an epoch task i starts, and how long an epoch is.
  ghost function Start(prio: seq<nat>, i: nat): nat
    requires i < |prio|
  {
    SumIn(prio, BeforeSet(prio, i), |prio|)
  }

  ghost function Epoch(prio: seq<nat>): nat {
    SumIn(prio, Tasks(prio), |prio|)
  }

  lemma {:induction false} SumAdd(prio: seq<nat>, S: set<nat>, x: nat, k: nat)
    requires k <= |prio| && x !in S
    ensures SumIn(prio, S + {x}, k) == SumIn(prio, S, k) + if x < k then prio[x] else 0
  {
    if k > 0 { SumAdd(prio, S, x, k - 1); }
  }

  lemma {:induction false} SumMono(prio: seq<nat>, S: set<nat>, T: set<nat>, k: nat)
    requires k <= |prio| && S <= T
    ensures SumIn(prio, S, k) <= SumIn(prio, T, k)
  {
    if k > 0 { SumMono(prio, S, T, k - 1); }
  }

  lemma {:induction false} SumNone(prio: seq<nat>, k: nat)
    requires k <= |prio|
    ensures SumIn(prio, {}, k) == 0
  {
    if k > 0 { SumNone(prio, k - 1); }
  }

  // Once started: the running task has ticks left, the tasks before it are spent, those
  // after it still full.
  ghost predicate Started(s: State)
    requires Valid(s)
  {
    && s.cur > 0 && s.counter[s.cur] > 0
    && forall j :: 1 <= j < |s.prio| && j != s.cur ==>
      s.counter[j] == if Before(s.prio, s.cur, j) then s.prio[j] else 0
  }

  // s is the state at tick t of an epoch.
  ghost predicate AtTick(s: State, t: nat)
    requires Valid(s)
  {
    Started(s) && t == Start(s.prio, s.cur) + s.prio[s.cur] - s.counter[s.cur]
  }

  // The task the scan finds in a full set of tasks is the first of the epoch.
  lemma FirstStartsAtZero(prio: seq<nat>, p: nat)
    requires |prio| >= 2 && prio[0] == 0 && IsPick(prio, p)
    ensures Start(prio, p) == 0
  {
    assert BeforeSet(prio, p) == {};
    SumNone(prio, |prio|);
  }

  // q directly follows p in the order: it starts when p ends.
  lemma NextStartsAtEnd(prio: seq<nat>, p: nat, q: nat)
    requires 1 <= p < |prio| && 1 <= q < |prio| && Before(prio, p, q)
    requires forall j :: 1 <= j < |prio| && Before(prio, p, j) && j != q ==> Before(prio, q, j)
    ensures Start(prio, q) == Start(prio, p) + prio[p]
  {
    forall j: nat | 1 <= j < |prio|
      ensures j in BeforeSet(prio, q) <==> j in BeforeSet(prio, p) + {p}
    {
      assert Before(prio, p, j) || Before(prio, j, p) || j == p;
      assert !(Before(prio, q, j) && Before(prio, j, q));
    }
    assert BeforeSet(prio, q) == BeforeSet(prio, p) + {p};
    SumAdd(prio, BeforeSet(prio, p), p, |prio|);
  }

  lemma LastEndsEpoch(prio: seq<nat>, p: nat)
    requires 1 <= p < |prio| && forall j :: 1 <= j < |prio| ==> !Before(prio, p, j)
    ensures Start(prio, p) + prio[p] == Epoch(prio)
  {
    forall j: nat | 1 <= j < |prio|
      ensures j in Tasks(prio) <==> j in BeforeSet(prio, p) + {p}
    {
      assert Before(prio, p, j) || Before(prio, j, p) || j == p;
    }
    assert Tasks(prio) == BeforeSet(prio, p) + {p};
    SumAdd(prio, BeforeSet(prio, p), p, |prio|);
  }

  // Slots do not overlap and stay inside the epoch.
  lemma SlotsAreDisjoint(prio: seq<nat>, i: nat, j: nat)
    requires 1 <= i < |prio| && 1 <= j < |prio| && Before(prio, i, j)
    ensures Start(prio, i) + prio[i] <= Start(prio, j)
  {
    SumAdd(prio, BeforeSet(prio, i), i, |prio|);
    SumMono(prio, BeforeSet(prio, i) + {i}, BeforeSet(prio, j), |prio|);
  }

  lemma SlotInEpoch(prio: seq<nat>, i: nat)
    requires 1 <= i < |prio|
    ensures Start(prio, i) + prio[i] <= Epoch(prio)
  {
    SumAdd(prio, BeforeSet(prio, i), i, |prio|);
    SumMono(prio, BeforeSet(prio, i) + {i}, Tasks(prio), |prio|);
  }

  lemma FirstTick(s: State)
    requires Valid(s) && Initial(s)
    ensures AtTick(Tick(s), 0) && Tick(s).refills == 1
  {
    var t := Tick(s);
    PickIsUnique(s.counter, Pick(s.counter), 0);
    FirstStartsAtZero(s.prio, t.cur);
  }

  lemma NextTick(s: State, t: nat)
    requires Valid(s) && AtTick(s, t)
    ensures t < Epoch(s.prio)
    ensures t + 1 < Epoch(s.prio) ==> AtTick(Tick(s), t + 1) && Tick(s).refills == s.refills
    ensures t + 1 == Epoch(s.prio) ==> AtTick(Tick(s), 0) && Tick(s).refills == s.refills + 1
  {
    SlotInEpoch(s.prio, s.cur);
    if s.counter[s.cur] == 1 { SlotEnds(s); }
  }

  // The last tick of a slot: the next task in order starts, or the epoch is over.
  lemma SlotEnds(s: State)
    requires Valid(s) && Started(s) && s.counter[s.cur] == 1
    ensures var t, end := Tick(s), Start(s.prio, s.cur) + s.prio[s.cur];
      || (t.refills == s.refills && AtTick(t, end) && end < Epoch(s.prio))
      || (t.refills == s.refills + 1 && AtTick(t, 0) && end == Epoch(s.prio))
  {
    var c := s.counter[s.cur := 0];
    var q := Pick(c);
    assert forall j :: 1 <= j < |c| ==> c[j] == if j == s.cur then 0 else s.counter[j];
    if q != 0 {
      NextStartsAtEnd(s.prio, s.cur, q);
      SlotInEpoch(s.prio, q);
    } else {
      LastEndsEpoch(s.prio, s.cur);
      FirstStartsAtZero(s.prio, Pick(s.prio));
    }
  }

  function Timers(n: nat): (es: seq<Event>)
    ensures |es| == n && forall i :: 0 <= i < n ==> es[i] == Timer
  {
    seq(n, _ => Timer)
  }

  // The state after n timer interrupts.
  function After(s: State, n: nat): (u: State)
    requires Valid(s)
    ensures Valid(u) && u.prio == s.prio && u.born == s.born && u.inherited == s.inherited
  {
    if n == 0 then s else Tick(After(s, n - 1))
  }

  lemma {:induction false} AfterIsRun(s: State, n: nat)
    requires Valid(s)
    ensures After(s, n) == Run(s, Timers(n))
    decreases n
  {
    hide Tick;
    hide Valid;
    if n > 0 {
      assert Timers(n)[1..] == Timers(n - 1);
      AfterIsRun(Tick(s), n - 1);
      AfterShift(s, n - 1);
    }
  }

  lemma {:induction false} AfterShift(s: State, n: nat)
    requires Valid(s)
    ensures After(Tick(s), n) == Tick(After(s, n))
  {
    hide Tick;
    hide Valid;
    if n > 0 { AfterShift(s, n - 1); }
  }

  lemma {:induction false} AfterTwice(s: State, m: nat, n: nat)
    requires Valid(s)
    ensures After(After(s, m), n) == After(s, m + n)
    decreases n
  {
    hide Tick;
    hide Valid;
    if n > 0 { AfterTwice(s, m, n - 1); }
  }

  // Tick t of epoch e, counted from the start of epoch 0: e * P + t (TickNumberIs).
  function TickNumber(P: nat, e: nat, t: nat): nat {
    if e == 0 then t else P + TickNumber(P, e - 1, t)
  }

  lemma {:induction false} TickNumberIs(P: nat, e: nat, t: nat)
    ensures TickNumber(P, e, t) == e * P + t
  {
    if e > 0 { TickNumberIs(P, e - 1, t); }
  }

  lemma {:induction false} TickNumberSteps(P: nat, e: nat, t: nat)
    ensures TickNumber(P, e, 0) == 0 || e > 0
    ensures t > 0 ==> TickNumber(P, e, t) == TickNumber(P, e, t - 1) + 1
    ensures e > 0 && P > 0 ==> TickNumber(P, e, 0) == TickNumber(P, e - 1, P - 1) + 1
  {
    if e > 0 { TickNumberSteps(P, e - 1, t); }
  }

  // The timetable from the start of any epoch: after e whole epochs and t further ticks, the
  // running task is the one whose slot contains t, and its counter says how much of it is left.
  lemma {:induction false} TimetableFrom(u: State, e: nat, t: nat)
    requires Valid(u) && AtTick(u, 0) && t < Epoch(u.prio)
    ensures var v := After(u, TickNumber(Epoch(u.prio), e, t));
      v.prio == u.prio && AtTick(v, t) && v.refills == u.refills + e
    decreases e, t
  {
    var P := Epoch(u.prio);
    hide *;
    TickNumberSteps(P, e, t);
    if t > 0 {
      TimetableFrom(u, e, t - 1);
      AfterStep(u, TickNumber(P, e, t - 1));
      NextTick(After(u, TickNumber(P, e, t - 1)), t - 1);
    } else if e > 0 {
      TimetableFrom(u, e - 1, P - 1);
      AfterStep(u, TickNumber(P, e - 1, P - 1));
      NextTick(After(u, TickNumber(P, e - 1, P - 1)), P - 1);
    } else {
      AfterNone(u);
    }
  }

  lemma AfterStep(s: State, n: nat)
    requires Valid(s)
    ensures After(s, n + 1) == Tick(After(s, n))
  {
  }

  lemma AfterNone(s: State)
    requires Valid(s)
    ensures After(s, 0) == s
  {
  }

  lemma AfterOne(s: State)
    requires Valid(s)
    ensures After(s, 1) == Tick(s) && Tick(s).prio == s.prio
  {
    AfterStep(s, 0);
    AfterNone(s);
    hide After;
  }

  // The state in which tick t of epoch e is consumed, counted from boot: the first timer
  // interrupt only starts the first task.
  ghost function StateAt(s: State, e: nat, t: nat): (u: State)
    requires Valid(s)
    ensures Valid(u) && u.prio == s.prio
  {
    After(s, TickNumber(Epoch(s.prio), e, t) + 1)
  }

  // That is the state after e * Epoch + t + 1 timer interrupts.
  lemma StateAtIs(s: State, e: nat, t: nat)
    requires Valid(s)
    ensures e * Epoch(s.prio) >= 0 && StateAt(s, e, t) == After(s, e * Epoch(s.prio) + t + 1)
  {
    var P := Epoch(s.prio);
    TickNumberIs(P, e, t);
    MulNat(e, P);
    hide After;
  }

  lemma MulNat(a: nat, b: nat)
    ensures a * b >= 0
  {
  }

  lemma StateAtStarts(s: State, e: nat, t: nat)
    requires Valid(s)
    ensures StateAt(s, e, t) == After(Tick(s), TickNumber(Epoch(s.prio), e, t))
    ensures Tick(s).prio == s.prio
  {
    hide After;
    hide Tick;
    hide Epoch;
    hide TickNumber;
    var n := TickNumber(Epoch(s.prio), e, t);
    assert StateAt(s, e, t) == After(s, 1 + n);
    hide *;
    AfterOne(s);
    AfterTwice(s, 1, n);
  }

  // The timetable from boot.
  lemma Timetable(s: State, e: nat, t: nat)
    requires Valid(s) && Initial(s) && t < Epoch(s.prio)
    ensures var u := StateAt(s, e, t);
      u.prio == s.prio && AtTick(u, t) && u.refills == e + 1
  {
    FirstTick(s);
    StateAtStarts(s, e, t);
    hide *;
    TimetableFrom(Tick(s), e, t);
  }

  // Read off the timetable: i runs at tick t of any epoch exactly in its own slot. Between two
  // slots it waits Epoch - prio[i] ticks, the sum of the other priorities.
  lemma RunsExactlyInSlot(s: State, e: nat, t: nat, i: nat)
    requires Valid(s) && Initial(s) && t < Epoch(s.prio) && 1 <= i < |s.prio|
    ensures StateAt(s, e, t).cur == i <==> Start(s.prio, i) <= t < Start(s.prio, i) + s.prio[i]
  {
    Timetable(s, e, t);
    var u := StateAt(s, e, t);
    if u.cur != i {
      assert Before(s.prio, u.cur, i) || Before(s.prio, i, u.cur);
      if Before(s.prio, i, u.cur) {
        SlotsAreDisjoint(s.prio, i, u.cur);
      } else {
        SlotsAreDisjoint(s.prio, u.cur, i);
      }
    }
  }

  lemma OthersRun(prio: seq<nat>, i: nat)
    requires 1 <= i < |prio|
    ensures Epoch(prio) - prio[i] == SumIn(prio, Tasks(prio) - {i}, |prio|)
  {
    assert Tasks(prio) == (Tasks(prio) - {i}) + {i};
    SumAdd(prio, Tasks(prio) - {i}, i, |prio|);
  }

  // i runs at no tick of epoch e from from on and before to.
  ghost predicate Waits(s: State, e: nat, from: nat, to: nat, i: nat)
    requires Valid(s)
  {
    forall t: nat :: from <= t < to ==> StateAt(s, e, t).cur != i
  }

  // Between its slots in epochs e and e + 1 task i waits: it runs at no tick after the one and
  // before the other, it does run right before and right after, and the ticks in between are as
  // many as the other priorities add up to.
  lemma WaitIsSumOfOthers(s: State, e: nat, i: nat)
    requires Valid(s) && Initial(s) && 1 <= i < |s.prio|
    ensures var P, first, last := Epoch(s.prio), Start(s.prio, i), Start(s.prio, i) + s.prio[i];
      && first < last <= P
      && RunsAt(s, e, last - 1, i) && Waits(s, e, last, P, i)
      && Waits(s, e + 1, 0, first, i) && RunsAt(s, e + 1, first, i)
      && (P - last) + first == SumIn(s.prio, Tasks(s.prio) - {i}, |s.prio|)
  {
    SlotEdges(s, e, i);
    SlotEdges(s, e + 1, i);
    hide *;
    OthersRun(s.prio, i);
    WaitsOutside(s, e, Start(s.prio, i) + s.prio[i], Epoch(s.prio), i);
    WaitsOutside(s, e + 1, 0, Start(s.prio, i), i);
  }

  ghost predicate RunsAt(s: State, e: nat, t: nat, i: nat)
    requires Valid(s)
  {
    StateAt(s, e, t).cur == i
  }

  lemma SlotEdges(s: State, e: nat, i: nat)
    requires Valid(s) && Initial(s) && 1 <= i < |s.prio|
    ensures var first, last := Start(s.prio, i), Start(s.prio, i) + s.prio[i];
      first < last <= Epoch(s.prio) && RunsAt(s, e, first, i) && RunsAt(s, e, last - 1, i)
  {
    hide StateAt;
    hide Start;
    hide Epoch;
    SlotInEpoch(s.prio, i);
    RunsExactlyInSlot(s, e, Start(s.prio, i), i);
    RunsExactlyInSlot(s, e, Start(s.prio, i) + s.prio[i] - 1, i);
  }

  lemma WaitsOutside(s: State, e: nat, from: nat, to: nat, i: nat)
    requires Valid(s) && Initial(s) && 1 <= i < |s.prio| && to <= Epoch(s.prio)
    requires to <= Start(s.prio, i) || Start(s.prio, i) + s.prio[i] <= from
    ensures Waits(s, e, from, to, i)
  {
    hide StateAt;
    hide Valid;
    forall t: nat | from <= t < to
      ensures StateAt(s, e, t).cur != i
    {
      RunsExactlyInSlot(s, e, t, i);
    }
  }

  // After e whole epochs every task has run exactly e times its priority.
  lemma EpochsAreFair(s: State, e: nat, i: nat)
    requires Valid(s) && Initial(s) && 1 <= i < |s.prio|
    ensures StateAt(s, e, 0).ran[i] == e * s.prio[i]
  {
    hide Tick;
    hide Epoch;
    hide AtTick;
    var n := TickNumber(Epoch(s.prio), e, 0) + 1;
    var u := StateAt(s, e, 0);
    SlotInEpoch(s.prio, i);
    Timetable(s, e, 0);
    assert forall j: nat :: 1 <= j < |s.prio| ==> Balanced(s, j);
    RunConserves(s, Timers(n));
    AfterIsRun(s, n);
    assert Balanced(u, i);
    OneMoreRefill(e, s.prio[i]);
    FullAtStart(u, i);
  }

  // At tick 0 of an epoch everybody holds a full slice.
  lemma FullAtStart(u: State, i: nat)
    requires Valid(u) && AtTick(u, 0) && 1 <= i < |u.prio|
    ensures u.counter[i] == u.prio[i]
  {
    if i != u.cur && !Before(u.prio, u.cur, i) {
      assert Before(u.prio, i, u.cur);
      SlotsAreDisjoint(u.prio, i, u.cur);
    }
  }

  // The order the self-test of proc.c:137 expects, for the priorities it was written for.
  const EXPECTED := "2222222222111111133334222222222211111113"

  lemma ExpectedOrder(s: State, k: nat)
    requires Valid(s) && Initial(s) && s.prio == [0, 7, 10, 4, 1] && k < |EXPECTED|
    ensures Epoch(s.prio) == 22
    ensures StateAt(s, k / 22, k % 22).cur == EXPECTED[k] as int - '0' as int
  {
    ExampleSlots();
    ExpectedTask(k);
    hide *;
    RunsExactlyInSlot(s, k / 22, k % 22, EXPECTED[k] as int - '0' as int);
  }

  lemma ExpectedTask(k: nat)
    requires k < |EXPECTED|
    ensures var t := k % 22;
      EXPECTED[k] as int - '0' as int == if t < 10 then 2 else if t < 17 then 1 else if t < 21 then 3 else 4
  {
  }

  lemma ExampleSlots()
    ensures var prio := [0, 7, 10, 4, 1];
      Start(prio, 2) == 0 && Start(prio, 1) == 10 && Start(prio, 3) == 17 && Start(prio, 4) == 21 && Epoch(prio) == 22
  {
    var prio: seq<nat> := [0, 7, 10, 4, 1];
    assert BeforeSet(prio, 2) == {};
    SumNone(prio, 5);
    NextStartsAtEnd(prio, 2, 1);
    NextStartsAtEnd(prio, 1, 3);
    NextStartsAtEnd(prio, 3, 4);
    LastEndsEpoch(prio, 4);
  }

  // With fork the timetable law fails: the child starts with its parent's remaining counter,
  // which need be neither 0 nor its full priority.
  lemma ForkBreaksFullOrSpent(s: State)
    requires s == State([0, 2], [0, 0], 0, [0, 0], 0, [0, 0], [0, 0])
    ensures Valid(s) && Initial(s)
    ensures var t := Run(s, [Timer, Timer, Fork]);
      |t.prio| == 3 && t.cur == 1 && t.counter[2] == 1 && t.prio[2] == 2
  {
    PickIsUnique(s.counter, Pick(s.counter), 0);
    PickIsUnique(s.prio, Pick(s.prio), 1);
    var s1 := Tick(s);
    var s2 := Tick(s1);
    var es := [Timer, Timer, Fork];
    assert es[1..] == [Timer, Fork] && es[1..][1..] == [Fork] && es[1..][1..][1..] == [];
    assert Run(s2, [Fork]) == Forked(s2);
    assert Run(s1, [Timer, Fork]) == Forked(s2);
    assert Run(s, es) == Forked(s2);
  }

  ghost predicate FullOrSpent(s: State)
    requires Valid(s)
  {
    forall j :: 1 <= j < |s.prio| && j != s.cur ==> s.counter[j] == 0 || s.counter[j] == s.prio[j]
  }

  // Exactly when: a fork keeps every waiting task full or spent if and only if the parent has
  // not consumed a tick of its slice yet.
  lemma ForkKeepsFullOrSpent(s: State)
    requires Valid(s) && Running(s) && FullOrSpent(s)
    ensures FullOrSpent(Step(s, Fork)) <==> s.counter[s.cur] == s.prio[s.cur]
  {
    var t, c := Step(s, Fork), |s.prio|;
    assert t.counter[c] == s.counter[s.cur] && t.prio[c] == s.prio[s.cur];
  }

  // A timer interrupt keeps both, so until the next fork they stay as they are.
  lemma TimerKeepsFullOrSpent(s: State)
    requires Valid(s) && Running(s) && FullOrSpent(s)
    ensures Running(Tick(s)) && FullOrSpent(Tick(s))
  {
    assert s.prio[1] <= s.prio[Pick(s.prio)];
  }

  // The ticks all tasks still hold.
  ghost function Held(s: State): nat
    requires Valid(s)
  {
    SumIn(s.counter, Tasks(s.counter), |s.counter|)
  }

  // From any running state, however forks have left the counters: the tasks use up exactly what
  // they hold, then all are refilled and the timetable of the present task set begins.
  lemma TimetableResumes(s: State, e: nat, t: nat)
    requires Valid(s) && Running(s) && t < Epoch(s.prio)
    ensures AtTick(After(s, Held(s)), 0) && After(s, Held(s)).refills == s.refills + 1
    ensures var v := After(s, Held(s) + TickNumber(Epoch(s.prio), e, t));
      AtTick(v, t) && v.refills == s.refills + 1 + e
  {
    hide *;
    UsesWhatIsHeld(s);
    AfterTwice(s, Held(s), TickNumber(Epoch(s.prio), e, t));
    TimetableFrom(After(s, Held(s)), e, t);
  }

  lemma {:induction false} UsesWhatIsHeld(s: State)
    requires Valid(s) && Running(s)
    ensures AtTick(After(s, Held(s)), 0) && After(s, Held(s)).refills == s.refills + 1
    decreases Held(s)
  {
    hide *;
    TickUsesOne(s);
    AfterOne(s);
    var u := Tick(s);
    if u.refills == s.refills {
      UsesWhatIsHeld(u);
      AfterTwice(s, 1, Held(u));
      assert 1 + Held(u) == Held(s);
    }
  }

  // One tick: the sum goes down by one, unless it was the last one and everybody is refilled.
  lemma TickUsesOne(s: State)
    requires Valid(s) && Running(s)
    ensures Held(s) >= 1
    ensures var u := Tick(s);
      || (u.refills == s.refills && Running(u) && Held(u) == Held(s) - 1)
      || (u.refills == s.refills + 1 && AtTick(u, 0) && Held(s) == 1)
  {
    var c := s.counter[s.cur := s.counter[s.cur] - 1];
    SumDown(s.counter, s.cur);
    if c[s.cur] == 0 && Pick(c) == 0 {
      SumZero(c, |c|);
      RefillStarts(s.prio);
      assert s.prio[1] <= s.prio[Pick(s.prio)];
      FirstStartsAtZero(s.prio, Pick(s.prio));
    }
  }

  lemma RefillStarts(prio: seq<nat>)
    requires |prio| >= 2 && prio[0] == 0 && prio[1] >= 1
    ensures var p := Pick(prio); p > 0 && forall j :: 1 <= j < |prio| && j != p ==> Before(prio, p, j)
  {
    assert prio[1] <= prio[Pick(prio)];
  }

  lemma {:induction false} SumZero(c: seq<nat>, k: nat)
    requires k <= |c| && forall i :: 0 <= i < |c| ==> c[i] == 0
    ensures SumIn(c, Tasks(c), k) == 0
  {
    if k > 0 { SumZero(c, k - 1); }
  }

  lemma SumDown(c: seq<nat>, x: nat)
    requires 1 <= x < |c| && c[x] >= 1
    ensures var d := c[x := c[x] - 1];
      SumIn(c, Tasks(c), |c|) == SumIn(d, Tasks(d), |d|) + 1
  {
    var d := c[x := c[x] - 1];
    assert Tasks(c) == Tasks(d);
    SumDownTo(c, d, Tasks(c), x, |c|);
  }

  lemma {:induction false} SumDownTo(c: seq<nat>, d: seq<nat>, S: set<nat>, x: nat, k: nat)
    requires x < |c| == |d| && c[x] >= 1 && d == c[x := c[x] - 1] && x in S && k <= |c|
    ensures SumIn(c, S, k) == SumIn(d, S, k) + if x < k then 1 else 0
  {
    if k > 0 { SumDownTo(c, d, S, x, k - 1); }
  }

  // A fork hands out the parent's remaining ticks a second time: the child is born with exactly
  // those, its account says so, and all tasks together hold that much more.
  lemma ForkAddsWhatIsLeft(s: State)
    requires Valid(s) && Running(s)
    ensures var t, c := Step(s, Fork), |s.prio|;
      && |t.prio| == c + 1 && t.counter[c] == t.inherited[c] == s.counter[s.cur] && t.prio[c] == s.prio[s.cur]
      && t.ran[c] == 0 && t.born[c] == t.refills == s.refills && t.cur == s.cur
      && (forall i :: 0 <= i < c ==>
            t.counter[i] == s.counter[i] && t.prio[i] == s.prio[i] && t.inherited[i] == s.inherited[i])
      && Held(t) == Held(s) + s.counter[s.cur]
  {
    SumSnoc(s.counter, s.counter[s.cur], |s.counter|);
  }

  lemma {:induction false} SumSnoc(c: seq<nat>, x: nat, k: nat)
    requires 1 <= |c| && k <= |c|
    ensures SumIn(c + [x], Tasks(c + [x]), k) == SumIn(c, Tasks(c), k)
    ensures SumIn(c + [x], Tasks(c + [x]), |c| + 1) == SumIn(c + [x], Tasks(c + [x]), |c|) + x
    decreases k
  {
    if k > 0 { SumSnoc(c, x, k - 1); }
  }

  // A timer interrupt in any state: while ticks remain the task runs on; otherwise the largest
  // counter decides, lowest index first, and when all are spent the largest priority does.
  lemma ChoiceIsPick(s: State)
    requires Valid(s)
    ensures var t := Tick(s);
      var left := if s.cur == 0 || s.counter[s.cur] == 0 then s.counter
                  else s.counter[s.cur := s.counter[s.cur] - 1];
      && t.prio == s.prio
      && if s.cur != 0 && s.counter[s.cur] > 1 then t.cur == s.cur && t.counter == left
         else if exists i :: 1 <= i < |left| && left[i] > 0 then
           t.counter == left && t.cur > 0 && left[t.cur] > 0
           && forall i :: 1 <= i < |left| ==> left[i] < left[t.cur] || (left[i] == left[t.cur] && i >= t.cur)
         else
           t.counter == s.prio && t.cur > 0
           && forall i :: 1 <= i < |left| ==> s.prio[i] < s.prio[t.cur] || (s.prio[i] == s.prio[t.cur] && i >= t.cur)
  {
    assert s.prio[1] <= s.prio[Pick(s.prio)];
  }

  // ---------------------------------------------------------------------------------
  // The code itself.

  class Scheduler {
    var counter: seq<nat>
    var priority: seq<nat>
    var current: nat
    ghost var ran: seq<nat>
    ghost var refills: nat
    ghost var born: seq<nat>
    ghost var inherited: seq<nat>

    ghost function Now(): State
      reads this
    {
      State(priority, counter, current, ran, refills, born, inherited)
    }

    // task_init: tasks 1 .. n with the given priorities, nothing to run yet but idle.
    constructor (prio: seq<nat>)
      requires |prio| >= 1 && forall i :: 0 <= i < |prio| ==> prio[i] >= 1
      ensures Valid(Now()) && Initial(Now()) && priority == [0] + prio
    {
      var zeros := seq(|prio| + 1, _ => 0);
      priority := [0] + prio;
      counter := zeros;
      current := 0;
      ran, refills, born, inherited := zeros, 0, zeros, zeros;
    }

    // The scan of schedule, starting from idle.
    method LargestCounter() returns (next: nat)
      requires Valid(Now())
      ensures next == Pick(counter) && next < |counter|
    {
      next := 0;
      var i := 1;
      while i < |counter|
        invariant 1 <= i <= |counter|
        invariant next == PickUpTo(counter, i)
      {
        if counter[i] > counter[next] {
          next := i;
        }
        i := i + 1;
      }
    }

    // At most two scans, because every priority is at least 1.
    method DoSchedule() returns (ghost scans: nat)
      requires Valid(Now())
      modifies this
      ensures Now() == Schedule(old(Now())) && 1 <= scans <= 2
      ensures priority == old(priority) && current > 0 && IsPick(counter, current)
      ensures counter == if exists i :: 1 <= i < |old(counter)| && old(counter)[i] > 0 then old(counter) else priority
    {
      var next := 0;
      scans := 0;
      hide PickUpTo;
      hide IsPick;
      while true
        invariant next == 0 && Valid(Now()) && scans == refills - old(refills)
        invariant refills == old(refills) ==> Now() == old(Now())
        invariant refills != old(refills) ==> Now() == Refilled(old(Now())) && Pick(old(counter)) == 0
        decreases if refills == old(refills) then 1 else 0
      {
        scans := scans + 1;
        next := LargestCounter();
        if next == 0 {
          Refill();
          continue;
        }
        break;
      }
      current := next;
      PickMeans(old(counter), Pick(old(counter)));
      PickMeans(counter, current);
    }

    method Refill()
      requires Valid(Now())
      modifies this
      ensures Now() == Refilled(old(Now()))
    {
      var i := 1;
      while i < |priority|
        invariant 1 <= i <= |priority| && Valid(Now())
        invariant priority == old(priority) && |priority| == |old(counter)|
        invariant Now() == old(Now()).(counter := priority[..i] + old(counter)[i..])
      {
        counter := counter[i := priority[i]];
        i := i + 1;
      }
      refills := refills + 1;
    }

    method DoTimer()
      requires Valid(Now())
      modifies this
      ensures Now() == Tick(old(Now()))
    {
      if current == 0 || counter[current] == 0 {
        ghost var n := DoSchedule();
      } else {
        counter := counter[current := counter[current] - 1];
        ran := ran[current := ran[current] + 1];
        if counter[current] == 0 {
          ghost var n := DoSchedule();
        }
      }
    }

    // The part of do_fork the scheduler sees.
    method DoFork()
      requires Valid(Now()) && current > 0
      modifies this
      ensures Now() == Forked(old(Now()))
      ensures counter == old(counter) + [old(counter[current])] && current == old(current)
      ensures priority == old(priority) + [old(priority[current])]
    {
      priority := priority + [priority[current]];
      counter := counter + [counter[current]];
      ran, born, inherited := ran + [0], born + [refills], inherited + [counter[current]];
    }
  }
}

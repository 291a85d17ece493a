/**
 A whole series of test cases.  The prologue of a test case names its return point only in its last
 instruction; until then the cell still names the end label of the test case before, which is the start of this
 very prologue.
 */
module RecoverySeries {
  import opened Handlers
  import opened Recovery

  /** The instructions of the prologue before its return-point store, and what follows the store. */
  datatype TestCase = TestCase(prologue: nat, program: Program)

  /** `Stray`: execution resumed at whatever the return-point cell held before any test case stored a label there. */
  datatype Place = Prologue(pos: nat) | Body | Done | Stray

  /** The test case in progress, the place in it, and the state it left or is in. */
  datatype Run = Run(at: nat, place: Place, s: State)

  predicate Over(x: Run) {
    x.s.halted || x.place.Done?
  }

  /** Nothing is known of the steps from here on, or there are none. */
  predicate Stopped(ts: seq<TestCase>, x: Run) {
    Over(x) || x.place.Stray? || x.at >= |ts|
  }

  /** The end label of one test case is the first instruction of the next. */
  function Arrive(ts: seq<TestCase>, at: nat, s: State): Run {
    Run(at, if at < |ts| then Prologue(0) else Done, s)
  }

  /** A step after the store leads on to the next test case when it reaches the end label. */
  function InBody(ts: seq<TestCase>, x: Run, s': State): Run {
    if s'.section == End && !s'.halted then Arrive(ts, x.at + 1, s') else x.(s := s')
  }

  /** The counter is stored first and read only by the loop, so that it makes no difference to set it with the store. */
  function Advance(ts: seq<TestCase>, loop: nat, x: Run, e: Event): Run {
    if Stopped(ts, x) then x
    else if x.place.Body? then InBody(ts, x, Step(ts[x.at].program, x.s, e))
    else if x.place.pos >= ts[x.at].prologue then
      Run(x.at, Body, Initial(loop, x.s.budget, x.s.spent))
    else
      match e
      case Go => x.(place := Prologue(x.place.pos + 1))
      case Fault(v) =>
        var s' := Charge(x.s, v);
        x.(s := s', place := if s'.halted then x.place else Resumed(x))
  }

  /** Where a fault in a prologue leads: the cell holds the label of the test case before, if there was one. */
  function Resumed(x: Run): Place {
    if x.at > 0 && x.s.retp == End then Prologue(0) else Stray
  }

  function Start(ts: seq<TestCase>, budget: nat): Run {
    Arrive(ts, 0, State(End, 0, End, 0, budget, 0, false, []))
  }

  ghost predicate Orderly(ts: seq<TestCase>, x: Run) {
    && (x.at < |ts| || Over(x))
    && x.s.budget < 0x1_0000_0000
    && match x.place
       case Prologue(pos) => x.at < |ts| && pos <= ts[x.at].prologue && x.s.retp == End
       case Body => x.at < |ts| && Sane(ts[x.at].program, x.s) && (x.s.section == End ==> x.s.halted)
       case Done => true
       case Stray => !x.s.halted
  }

  lemma {:induction false} AdvanceKeepsOrder(ts: seq<TestCase>, loop: nat, x: Run, e: Event)
    requires Orderly(ts, x)
    ensures Orderly(ts, Advance(ts, loop, x, e))
  {
    if !Over(x) && x.place.Body? {
      StepKeepsSane(ts[x.at].program, x.s, e);
    }
  }

  // ---------------------------------------------------------------------------------------------
  // Progress, but for faults in prologues
  // ---------------------------------------------------------------------------------------------

  /** A fault in the prologue of a test case other than the first, which leads back to its start. */
  predicate TurnsBack(ts: seq<TestCase>, x: Run, e: Event) {
    && !Stopped(ts, x) && x.place.Prologue? && x.place.pos < ts[x.at].prologue
    && e.Fault? && !Charge(x.s, e.vector).halted && x.at > 0
  }

  /** The most steps of a test case, prologue and store included. */
  function CaseSteps(t: TestCase, loop: nat): int {
    t.prologue + 1 + StepsLeft(t.program, Initial(loop, 1, 0))
  }

  function StepsFrom(ts: seq<TestCase>, loop: nat, i: nat): int
    decreases |ts| - i
  {
    if i >= |ts| then 0 else CaseSteps(ts[i], loop) + StepsFrom(ts, loop, i + 1)
  }

  /** The most steps the current test case can still take without turning back. */
  function CaseLeft(t: TestCase, loop: nat, x: Run): int {
    match x.place
    case Prologue(pos) => CaseSteps(t, loop) - pos
    case Body => StepsLeft(t.program, x.s)
    case _ => 0
  }

  function SeriesLeft(ts: seq<TestCase>, loop: nat, x: Run): int {
    if Stopped(ts, x) then 0 else CaseLeft(ts[x.at], loop, x) + StepsFrom(ts, loop, x.at + 1)
  }

  lemma {:induction false} CaseStepsPositive(t: TestCase, loop: nat)
    ensures CaseSteps(t, loop) >= t.prologue + 2
  {
    assert Sane(t.program, Initial(loop, 1, 0));
    StepsLeftPositive(t.program, Initial(loop, 1, 0));
  }

  lemma {:induction false} StepsFromNotNegative(ts: seq<TestCase>, loop: nat, i: nat)
    ensures StepsFrom(ts, loop, i) >= 0
    decreases |ts| - i
  {
    if i < |ts| {
      CaseStepsPositive(ts[i], loop);
      StepsFromNotNegative(ts, loop, i + 1);
    }
  }

  lemma {:induction false} CaseLeftPositive(t: TestCase, loop: nat, x: Run)
    requires x.place.Prologue? ==> x.place.pos <= t.prologue
    requires x.place.Body? ==> Sane(t.program, x.s) && !Final(x.s)
    requires x.place.Prologue? || x.place.Body?
    ensures CaseLeft(t, loop, x) >= 1
  {
    if x.place.Body? {
      StepsLeftPositive(t.program, x.s);
    } else {
      CaseStepsPositive(t, loop);
    }
  }

  lemma {:induction false} SeriesLeftPositive(ts: seq<TestCase>, loop: nat, x: Run)
    requires Orderly(ts, x) && !Over(x) && !x.place.Stray?
    ensures SeriesLeft(ts, loop, x) >= 1
  {
    StepsFromNotNegative(ts, loop, x.at + 1);
    CaseLeftPositive(ts[x.at], loop, x);
    MoreThanTheRest(ts, loop, x);
  }

  lemma {:induction false} MoreThanTheRest(ts: seq<TestCase>, loop: nat, x: Run)
    requires !Stopped(ts, x) && CaseLeft(ts[x.at], loop, x) >= 1
    ensures SeriesLeft(ts, loop, x) > StepsFrom(ts, loop, x.at + 1)
  {
  }

  /** Steps within a test case leave those of the later ones as they are. */
  lemma {:induction false} SameRest(ts: seq<TestCase>, loop: nat, x: Run, x': Run, more: int)
    requires !Stopped(ts, x) && !Stopped(ts, x') && x'.at == x.at
    requires CaseLeft(ts[x.at], loop, x') == CaseLeft(ts[x.at], loop, x) + more
    ensures SeriesLeft(ts, loop, x') == SeriesLeft(ts, loop, x) + more
  {
  }

  /** The number of steps of a test case does not depend on the budget. */
  lemma {:induction false} SameStepsForAnyBudget(p: Program, loop: nat, budget: nat, spent: nat)
    ensures StepsLeft(p, Initial(loop, budget, spent)) == StepsLeft(p, Initial(loop, 1, 0))
  {
  }

  /** Every step gets closer to the end, except that turning back loses the instructions of the prologue run so far. */
  lemma {:induction false} AdvanceMakesProgress(ts: seq<TestCase>, loop: nat, x: Run, e: Event)
    requires Orderly(ts, x) && !Over(x) && !x.place.Stray?
    ensures var x' := Advance(ts, loop, x, e);
            if TurnsBack(ts, x, e) then SeriesLeft(ts, loop, x') == SeriesLeft(ts, loop, x) + x.place.pos
            else SeriesLeft(ts, loop, x') < SeriesLeft(ts, loop, x)
  {
    if x.place.Body? {
      BodyMakesProgress(ts, loop, x, e);
    } else {
      PrologueMakesProgress(ts, loop, x, e);
    }
  }

  lemma {:induction false} PrologueMakesProgress(ts: seq<TestCase>, loop: nat, x: Run, e: Event)
    requires x.at < |ts| && !Over(x) && x.place.Prologue? && x.place.pos <= ts[x.at].prologue && x.s.retp == End
    ensures var x' := Advance(ts, loop, x, e);
            if TurnsBack(ts, x, e) then SeriesLeft(ts, loop, x') == SeriesLeft(ts, loop, x) + x.place.pos
            else SeriesLeft(ts, loop, x') < SeriesLeft(ts, loop, x)
  {
    var t, x' := ts[x.at], Advance(ts, loop, x, e);
    if x.place.pos == t.prologue {
      StoreIsProgress(t, loop, x, x');
      SameRest(ts, loop, x, x', -1);
    } else if Stopped(ts, x') {
      CaseLeftPositive(t, loop, x);
      StepsFromNotNegative(ts, loop, x.at + 1);
      MoreThanTheRest(ts, loop, x);
    } else {
      SameRest(ts, loop, x, x', x.place.pos - x'.place.pos);
    }
  }

  lemma {:induction false} StoreIsProgress(t: TestCase, loop: nat, x: Run, x': Run)
    requires x.place == Prologue(t.prologue) && x' == Run(x.at, Body, Initial(loop, x.s.budget, x.s.spent))
    ensures CaseLeft(t, loop, x') == CaseLeft(t, loop, x) - 1
  {
    SameStepsForAnyBudget(t.program, loop, x.s.budget, x.s.spent);
  }

  lemma {:induction false} BodyMakesProgress(ts: seq<TestCase>, loop: nat, x: Run, e: Event)
    requires x.at < |ts| && !Over(x) && x.place.Body? && Sane(ts[x.at].program, x.s) && x.s.section != End
    ensures SeriesLeft(ts, loop, Advance(ts, loop, x, e)) < SeriesLeft(ts, loop, x)
  {
    var p, s' := ts[x.at].program, Step(ts[x.at].program, x.s, e);
    StepMakesProgress(p, x.s, e);
    StepsLeftPositive(p, x.s);
    if s'.halted || s'.section == End {
      BodyIsLeft(ts, loop, x, s');
    } else {
      SameRest(ts, loop, x, x.(s := s'), StepsLeft(p, s') - StepsLeft(p, x.s));
    }
  }

  /** The machine halts, or the end label is reached. */
  lemma {:induction false} BodyIsLeft(ts: seq<TestCase>, loop: nat, x: Run, s': State)
    requires !Stopped(ts, x) && CaseLeft(ts[x.at], loop, x) >= 1 && (s'.halted || s'.section == End)
    ensures SeriesLeft(ts, loop, InBody(ts, x, s')) < SeriesLeft(ts, loop, x)
  {
    MoreThanTheRest(ts, loop, x);
    if s'.halted {
      StepsFromNotNegative(ts, loop, x.at + 1);
    } else {
      ArriveLeft(ts, loop, x.at + 1, s');
    }
  }

  /** At the end label of a test case the later ones are left. */
  lemma {:induction false} ArriveLeft(ts: seq<TestCase>, loop: nat, at: nat, s: State)
    requires at <= |ts| && !s.halted
    ensures SeriesLeft(ts, loop, Arrive(ts, at, s)) == StepsFrom(ts, loop, at)
  {
  }

  function Exec(ts: seq<TestCase>, loop: nat, x: Run, es: seq<Event>): Run
    decreases |es|
  {
    if es == [] then x else Exec(ts, loop, Advance(ts, loop, x, es[0]), es[1..])
  }

  /** The steps lost by turning back: each time the instructions of the prologue run so far, and the fault. */
  function Detour(ts: seq<TestCase>, loop: nat, x: Run, es: seq<Event>): nat
    decreases |es|
  {
    if es == [] then 0
    else
      (if TurnsBack(ts, x, es[0]) then x.place.pos + 1 else 0)
      + Detour(ts, loop, Advance(ts, loop, x, es[0]), es[1..])
  }

  /** A run is over, or has gone astray, within the steps of its test cases and the steps lost by turning back. */
  lemma {:induction false} SeriesEnds(ts: seq<TestCase>, loop: nat, x: Run, es: seq<Event>)
    requires Orderly(ts, x) && |es| >= SeriesLeft(ts, loop, x) + Detour(ts, loop, x, es)
    ensures var x' := Exec(ts, loop, x, es); Over(x') || x'.place.Stray?
    decreases |es|
  {
    if Over(x) || x.place.Stray? {
      StaysOver(ts, loop, x, es);
    } else {
      SeriesLeftPositive(ts, loop, x);
      AdvanceKeepsOrder(ts, loop, x, es[0]);
      AdvanceMakesProgress(ts, loop, x, es[0]);
      SeriesEnds(ts, loop, Advance(ts, loop, x, es[0]), es[1..]);
    }
  }

  lemma {:induction false} AdvanceKeepsBudget(ts: seq<TestCase>, loop: nat, x: Run, e: Event, budget: nat)
    requires BudgetKept(x.s, budget)
    ensures BudgetKept(Advance(ts, loop, x, e).s, budget)
  {
    if !Stopped(ts, x) && x.place.Body? {
      StepKeepsBudget(ts[x.at].program, x.s, e, budget);
    }
  }

  lemma {:induction false} ExecKeepsBudget(ts: seq<TestCase>, loop: nat, x: Run, es: seq<Event>, budget: nat)
    requires BudgetKept(x.s, budget)
    ensures BudgetKept(Exec(ts, loop, x, es).s, budget)
    decreases |es|
  {
    if es != [] {
      AdvanceKeepsBudget(ts, loop, x, es[0], budget);
      ExecKeepsBudget(ts, loop, Advance(ts, loop, x, es[0]), es[1..], budget);
    }
  }

  /**
   A series from its start: within the steps of its test cases and the steps lost by turning back it has passed its last
   label, unless it went astray or the counting faults used up the budget, which one budget for all test cases bounds.
   */
  lemma {:induction false} SeriesIsOver(ts: seq<TestCase>, loop: nat, budget: nat, es: seq<Event>)
    requires 1 <= budget < 0x1_0000_0000
    requires var x := Start(ts, budget); |es| >= SeriesLeft(ts, loop, x) + Detour(ts, loop, x, es)
    ensures var x := Exec(ts, loop, Start(ts, budget), es);
            (x.place.Done? || x.place.Stray? || x.s.halted) && (x.s.halted <==> x.s.spent == budget)
  {
    SeriesEnds(ts, loop, Start(ts, budget), es);
    ExecKeepsBudget(ts, loop, Start(ts, budget), es, budget);
  }

  lemma {:induction false} StaysOver(ts: seq<TestCase>, loop: nat, x: Run, es: seq<Event>)
    requires Stopped(ts, x)
    ensures Exec(ts, loop, x, es) == x
    decreases |es|
  {
    if es != [] {
      StaysOver(ts, loop, x, es[1..]);
    }
  }

  // ---------------------------------------------------------------------------------------------
  // Which runs end
  // ---------------------------------------------------------------------------------------------

  /** The run after `n` steps under an endless stream of events. */
  function After(ts: seq<TestCase>, loop: nat, x: Run, es: nat -> Event, n: nat): Run {
    if n == 0 then x else Advance(ts, loop, After(ts, loop, x, es, n - 1), es(n - 1))
  }

  lemma {:induction false} OrderlyAfter(ts: seq<TestCase>, loop: nat, x: Run, es: nat -> Event, n: nat)
    requires Orderly(ts, x)
    ensures Orderly(ts, After(ts, loop, x, es, n))
  {
    if n > 0 {
      OrderlyAfter(ts, loop, x, es, n - 1);
      AdvanceKeepsOrder(ts, loop, After(ts, loop, x, es, n - 1), es(n - 1));
    }
  }

  ghost predicate NoTurnFrom(ts: seq<TestCase>, loop: nat, x: Run, es: nat -> Event, n: nat) {
    forall k: nat | n <= k :: !TurnsBack(ts, After(ts, loop, x, es, k), es(k))
  }

  lemma {:induction false} StoppedAfter(ts: seq<TestCase>, loop: nat, x: Run, es: nat -> Event, n: nat, m: nat)
    requires n <= m && Stopped(ts, After(ts, loop, x, es, n))
    ensures After(ts, loop, x, es, m) == After(ts, loop, x, es, n)
  {
    if n < m {
      StoppedAfter(ts, loop, x, es, n, m - 1);
    }
  }

  lemma {:induction false} QuietRunStops(ts: seq<TestCase>, loop: nat, x: Run, es: nat -> Event, n: nat)
    returns (m: nat)
    requires Orderly(ts, After(ts, loop, x, es, n)) && NoTurnFrom(ts, loop, x, es, n)
    ensures Over(After(ts, loop, x, es, m)) || After(ts, loop, x, es, m).place.Stray?
    decreases SeriesLeft(ts, loop, After(ts, loop, x, es, n))
  {
    var now := After(ts, loop, x, es, n);
    if Stopped(ts, now) {
      m := n;
    } else {
      SeriesLeftPositive(ts, loop, now);
      AdvanceKeepsOrder(ts, loop, now, es(n));
      AdvanceMakesProgress(ts, loop, now, es(n));
      m := QuietRunStops(ts, loop, x, es, n + 1);
    }
  }

  lemma {:induction false} EndedRunWasQuiet(ts: seq<TestCase>, loop: nat, x: Run, es: nat -> Event, n: nat)
    requires Orderly(ts, x) && Over(After(ts, loop, x, es, n))
    ensures forall m: nat :: !After(ts, loop, x, es, m).place.Stray?
    ensures NoTurnFrom(ts, loop, x, es, n)
  {
    OrderlyAfter(ts, loop, x, es, n);
    forall m: nat
      ensures !After(ts, loop, x, es, m).place.Stray?
    {
      if After(ts, loop, x, es, m).place.Stray? && m <= n {
        StoppedAfter(ts, loop, x, es, m, n);
      } else if n < m {
        StoppedAfter(ts, loop, x, es, n, m);
      }
    }
    forall k: nat | n <= k
      ensures !TurnsBack(ts, After(ts, loop, x, es, k), es(k))
    {
      StoppedAfter(ts, loop, x, es, n, k);
    }
  }

  ghost predicate Ends(ts: seq<TestCase>, loop: nat, x: Run, es: nat -> Event) {
    exists n: nat :: Over(After(ts, loop, x, es, n))
  }

  ghost predicate GoesAstray(ts: seq<TestCase>, loop: nat, x: Run, es: nat -> Event) {
    exists n: nat :: After(ts, loop, x, es, n).place.Stray?
  }

  ghost predicate StopsTurningBack(ts: seq<TestCase>, loop: nat, x: Run, es: nat -> Event) {
    exists n: nat :: NoTurnFrom(ts, loop, x, es, n)
  }

  /**
   A series ends, at its last label or by halting, if and only if no fault in the prologue of the first test case leads
   astray and the faults in the prologues of the others stop.
   */
  lemma {:induction false} EndsExactlyWhen(ts: seq<TestCase>, loop: nat, x: Run, es: nat -> Event)
    requires Orderly(ts, x)
    ensures Ends(ts, loop, x, es) <==> !GoesAstray(ts, loop, x, es) && StopsTurningBack(ts, loop, x, es)
  {
    if Ends(ts, loop, x, es) {
      var n: nat :| Over(After(ts, loop, x, es, n));
      EndedRunWasQuiet(ts, loop, x, es, n);
    }
    if StopsTurningBack(ts, loop, x, es) {
      QuietRunEnds(ts, loop, x, es);
    }
  }

  lemma {:induction false} QuietRunEnds(ts: seq<TestCase>, loop: nat, x: Run, es: nat -> Event)
    requires Orderly(ts, x) && StopsTurningBack(ts, loop, x, es)
    ensures Ends(ts, loop, x, es) || GoesAstray(ts, loop, x, es)
  {
    var n: nat :| NoTurnFrom(ts, loop, x, es, n);
    OrderlyAfter(ts, loop, x, es, n);
    var m := QuietRunStops(ts, loop, x, es, n);
  }

  // ---------------------------------------------------------------------------------------------
  // A run that never ends
  // ---------------------------------------------------------------------------------------------

  /** Without faults the second test case is reached. */
  lemma {:induction false} ReachesSecond(ts: seq<TestCase>, loop: nat, x: Run, es: nat -> Event, n: nat, now: Run)
    returns (m: nat)
    requires |ts| >= 2 && (forall k :: es(k) == Go)
    requires now == After(ts, loop, x, es, n) && Orderly(ts, now) && now.at == 0 && !Stopped(ts, now)
    ensures AtSecond(After(ts, loop, x, es, m))
    decreases SeriesLeft(ts, loop, now)
  {
    var next := Advance(ts, loop, now, Go);
    OneMoreStep(ts, loop, x, es, n, now);
    GoIsProgress(ts, loop, now, next);
    if next.at == 1 {
      m := n + 1;
    } else {
      m := ReachesSecond(ts, loop, x, es, n + 1, next);
    }
  }

  /** At the start of the second prologue. */
  predicate AtSecond(x: Run) {
    x.at == 1 && x.place == Prologue(0) && !x.s.halted && x.s.retp == End
  }

  lemma {:induction false} OneMoreStep(ts: seq<TestCase>, loop: nat, x: Run, es: nat -> Event, n: nat, now: Run)
    requires now == After(ts, loop, x, es, n) && es(n) == Go
    ensures After(ts, loop, x, es, n + 1) == Advance(ts, loop, now, Go)
  {
  }

  lemma {:induction false} GoIsProgress(ts: seq<TestCase>, loop: nat, x: Run, x': Run)
    requires |ts| >= 2 && Orderly(ts, x) && x.at == 0 && !Stopped(ts, x) && x' == Advance(ts, loop, x, Go)
    ensures Orderly(ts, x') && 0 <= SeriesLeft(ts, loop, x') < SeriesLeft(ts, loop, x)
    ensures !Stopped(ts, x') && (x'.at == 0 || AtSecond(x'))
  {
    GoGoesOn(ts, loop, x);
    AdvanceKeepsOrder(ts, loop, x, Go);
    SeriesLeftPositive(ts, loop, x);
    SeriesLeftPositive(ts, loop, x');
    AdvanceMakesProgress(ts, loop, x, Go);
  }

  lemma {:induction false} GoGoesOn(ts: seq<TestCase>, loop: nat, x: Run)
    requires |ts| >= 2 && x.at == 0 && !Stopped(ts, x)
    ensures var x' := Advance(ts, loop, x, Go);
            !Stopped(ts, x') && (x'.at == 0 || (x'.at == 1 && x'.place == Prologue(0)))
  {
  }

  lemma {:induction false} SameEventsSameRun(ts: seq<TestCase>, loop: nat, x: Run, es: nat -> Event,
      es': nat -> Event, n: nat)
    requires forall k: nat | k < n :: es(k) == es'(k)
    ensures After(ts, loop, x, es, n) == After(ts, loop, x, es', n)
  {
    if n > 0 {
      SameEventsSameRun(ts, loop, x, es, es', n - 1);
    }
  }

  /** A fault in the first instruction of a prologue is resumed at that instruction. */
  lemma {:induction false} ResumedAtOnce(ts: seq<TestCase>, loop: nat, x: Run)
    requires 0 < x.at < |ts| && x.place == Prologue(0) && !x.s.halted && x.s.retp == End && ts[x.at].prologue > 0
    ensures Advance(ts, loop, x, Fault(0)) == x && !Over(x)
  {
  }

  lemma {:induction false} StaysForEver(ts: seq<TestCase>, loop: nat, x: Run, es: nat -> Event, n: nat, m: nat,
      now: Run)
    requires n <= m && After(ts, loop, x, es, n) == now && Advance(ts, loop, now, Fault(0)) == now
    requires forall k: nat | n <= k :: es(k) == Fault(0)
    ensures After(ts, loop, x, es, m) == now
  {
    if n < m {
      StaysForEver(ts, loop, x, es, n, m - 1, now);
      calc {
        After(ts, loop, x, es, m);
        Advance(ts, loop, After(ts, loop, x, es, m - 1), es(m - 1));
        Advance(ts, loop, now, Fault(0));
      }
    }
  }

  /** Of two test cases the second may never get past its prologue. */
  lemma {:induction false} PrologueCanTrap(ts: seq<TestCase>, loop: nat, budget: nat) returns (es: nat -> Event)
    requires |ts| >= 2 && ts[1].prologue > 0 && budget < 0x1_0000_0000
    ensures forall n: nat :: !Over(After(ts, loop, Start(ts, budget), es, n))
  {
    var x := Start(ts, budget);
    var gos: nat -> Event := (k: nat) => Go;
    var m := ReachesSecond(ts, loop, x, gos, 0, x);
    es := (k: nat) => if k < m then Go else Fault(0);
    SameEventsSameRun(ts, loop, x, gos, es, m);
    var now := After(ts, loop, x, es, m);
    ResumedAtOnce(ts, loop, now);
    forall n: nat
      ensures !Over(After(ts, loop, x, es, n))
    {
      if m <= n {
        StaysForEver(ts, loop, x, es, m, n, now);
      } else if Over(After(ts, loop, x, es, n)) {
        StoppedAfter(ts, loop, x, es, n, m);
      }
    }
  }

  // ---------------------------------------------------------------------------------------------
  // Which runs go astray
  // ---------------------------------------------------------------------------------------------

  /** The k-th event is the first fault, and it strikes in the prologue of the first test case. */
  ghost predicate FirstFault(ts: seq<TestCase>, es: nat -> Event, k: nat)
    requires ts != []
  {
    k < ts[0].prologue && es(k).Fault? && forall j: nat | j < k :: es(j) == Go
  }

  /** The handler of the fault halts the machine, which had `budget` left. */
  predicate Halts(e: Event, budget: nat) {
    e.Fault? && CountsDown(e.vector) && budget == 1
  }

  lemma {:induction false} InFirstPrologue(ts: seq<TestCase>, loop: nat, x: Run, es: nat -> Event, n: nat)
    requires ts != [] && x.at == 0 && x.place == Prologue(0) && !x.s.halted
    requires n <= ts[0].prologue && forall k: nat | k < n :: es(k) == Go
    ensures After(ts, loop, x, es, n) == x.(place := Prologue(n))
  {
    if n > 0 {
      InFirstPrologue(ts, loop, x, es, n - 1);
    }
  }

  /** From the start of a series: such a fault halts the machine, or resumes where nothing is known. */
  lemma {:induction false} FirstPrologueGoesAstray(ts: seq<TestCase>, loop: nat, budget: nat, es: nat -> Event, k: nat)
    requires ts != [] && budget < 0x1_0000_0000 && FirstFault(ts, es, k)
    ensures var x := After(ts, loop, Start(ts, budget), es, k + 1);
            (Over(x) <==> Halts(es(k), budget)) && (x.place.Stray? <==> !Halts(es(k), budget))
  {
    InFirstPrologue(ts, loop, Start(ts, budget), es, k);
  }

  /** The first prologue is behind, and the run did not go astray in it. */
  predicate PastFirst(x: Run) {
    !x.place.Stray? && (x.at > 0 || !x.place.Prologue?)
  }

  lemma {:induction false} AdvanceStaysPast(ts: seq<TestCase>, loop: nat, x: Run, e: Event)
    requires Orderly(ts, x) && PastFirst(x)
    ensures PastFirst(Advance(ts, loop, x, e))
  {
  }

  lemma {:induction false} StaysPast(ts: seq<TestCase>, loop: nat, x: Run, es: nat -> Event, n: nat, m: nat)
    requires Orderly(ts, x) && n <= m && PastFirst(After(ts, loop, x, es, n))
    ensures PastFirst(After(ts, loop, x, es, m))
  {
    if n < m {
      StaysPast(ts, loop, x, es, n, m - 1);
      OrderlyAfter(ts, loop, x, es, m - 1);
      AdvanceStaysPast(ts, loop, After(ts, loop, x, es, m - 1), es(m - 1));
    }
  }

  /** Without a fault in the first prologue the run does not go astray at all. */
  lemma {:induction false} NotAstray(ts: seq<TestCase>, loop: nat, budget: nat, es: nat -> Event, m: nat)
    requires ts != [] && budget < 0x1_0000_0000 && forall k: nat | k < ts[0].prologue :: es(k) == Go
    ensures !After(ts, loop, Start(ts, budget), es, m).place.Stray?
  {
    var x, n := Start(ts, budget), ts[0].prologue;
    if m <= n {
      InFirstPrologue(ts, loop, x, es, m);
    } else {
      InFirstPrologue(ts, loop, x, es, n);
      assert PastFirst(After(ts, loop, x, es, n + 1));
      StaysPast(ts, loop, x, es, n + 1, m);
    }
  }

  lemma {:induction false} SomeFaultIsFirst(ts: seq<TestCase>, es: nat -> Event, n: nat) returns (k: nat)
    requires ts != [] && n < ts[0].prologue && es(n).Fault?
    ensures FirstFault(ts, es, k)
  {
    if j: nat :| j < n && es(j).Fault? {
      k := SomeFaultIsFirst(ts, es, j);
    } else {
      k := n;
    }
  }

  ghost predicate LeadsAstray(ts: seq<TestCase>, es: nat -> Event, budget: nat, k: nat)
    requires ts != []
  {
    FirstFault(ts, es, k) && !Halts(es(k), budget)
  }

  /**
   A series goes astray if and only if a fault strikes in the prologue of its first test case, and the first such
   fault does not use up the budget.
   */
  lemma {:induction false} AstrayExactlyWhen(ts: seq<TestCase>, loop: nat, budget: nat, es: nat -> Event)
    requires ts != [] && budget < 0x1_0000_0000
    ensures GoesAstray(ts, loop, Start(ts, budget), es) <==> exists k: nat :: LeadsAstray(ts, es, budget, k)
  {
    var x := Start(ts, budget);
    if k: nat :| LeadsAstray(ts, es, budget, k) {
      FirstPrologueGoesAstray(ts, loop, budget, es, k);
    } else if n: nat :| n < ts[0].prologue && es(n).Fault? {
      var k := SomeFaultIsFirst(ts, es, n);
      assert !LeadsAstray(ts, es, budget, k);
      FirstPrologueGoesAstray(ts, loop, budget, es, k);
      EndedRunWasQuiet(ts, loop, x, es, k + 1);
    } else if GoesAstray(ts, loop, x, es) {
      var m: nat :| After(ts, loop, x, es, m).place.Stray?;
      NotAstray(ts, loop, budget, es, m);
    }
  }
}

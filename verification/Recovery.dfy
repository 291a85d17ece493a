/**
 The exception-return protocol: every section of a test case leaves in the return-point cell the label
 at which execution is to resume after an exception, so that a test case ends whatever faults strike.
 */
module Recovery {
  import opened Wrappers
  import opened Handlers

  /** The code sections of a test case in memory order, and the label after the last one. */
  datatype Section = Startup | Pre | Code | RevertOnFault | Post | Revert | Loop | End

  function Rank(s: Section): nat {
    match s
    case Startup => 0
    case Pre => 1
    case Code => 2
    case RevertOnFault => 3
    case Post => 4
    case Revert => 5
    case Loop => 6
    case End => 7
  }

  /**
   A compiled test case: how many gadgets follow the return-point store of each section, where in the
   set-up code the store for the inputs ended up (if there is one), and whether the loop is compiled in.
   */
  datatype Program = Program(len: Section -> nat, inputStore: Option<nat>, looping: bool)

  /** A section entered, and whether a fault led there. */
  datatype Visit = Visit(section: Section, byFault: bool)

  /**
   Where execution is, the section named in the return-point cell, the loop counter, the budget of
   the counting handlers and how much of it is spent, and the sections entered so far.
   */
  datatype State = State(section: Section, pos: nat, retp: Section, counter: nat, budget: nat, spent: nat, halted: bool,
                         log: seq<Visit>)

  type RedirectingVector = v: nat | Redirects(v) witness 0

  /** The gadget runs, or an exception with a redirecting handler strikes in it. */
  datatype Event = Go | Fault(vector: RedirectingVector)

  predicate Final(s: State) {
    s.halted || s.section == End
  }

  /** The label each section stores first; the set-up code leaves the cell alone. */
  function StoredLabel(entered: Section, retp: Section): Section {
    match entered
    case Code => RevertOnFault
    case RevertOnFault => Post
    case Post => Revert
    case Revert => Loop
    case Loop => End
    case _ => retp
  }

  function Enter(s: State, to: Section, byFault: bool): State {
    s.(section := to, pos := 0, retp := StoredLabel(to, s.retp), log := s.log + [Visit(to, byFault)])
  }

  /** From the end of a section to the next; the loop goes back to the set-up code until its counter is zero. */
  function FallThrough(p: Program, s: State): State
    requires s.section != End
  {
    match s.section
    case Startup => Enter(s, Pre, false)
    case Pre => Enter(s, Code, false)
    case Code => Enter(s, Post, false)
    case RevertOnFault => Enter(s, Post, false)
    case Post => Enter(s, Revert, false)
    case Revert => Enter(s, Loop, false)
    case Loop =>
      if !p.looping then Enter(s, End, false)
      else
        var counter := Decrement(s.counter);
        Enter(s.(counter := counter), if counter != 0 then Pre else End, false)
  }

  predicate IsInputStore(p: Program, s: State) {
    s.section == Pre && p.inputStore == Some(s.pos)
  }

  /** A counting handler takes its share of the budget and halts the machine when nothing is left. */
  function Charge(s: State, v: nat): State {
    if CountsDown(v) then
      var left := Decrement(s.budget);
      s.(budget := left, spent := s.spent + 1, halted := left == 0)
    else s
  }

  /** The handler of a redirecting vector: it may halt the machine, else execution resumes at the stored label. */
  function TakeFault(s: State, v: nat): State {
    var s' := Charge(s, v);
    if s'.halted then s' else Enter(s', s.retp, true)
  }

  /** Return-point stores and section ends do not fault. */
  function Step(p: Program, s: State, e: Event): State {
    if Final(s) then s
    else if s.pos >= p.len(s.section) then FallThrough(p, s)
    else if IsInputStore(p, s) then s.(pos := s.pos + 1, retp := Post)
    else
      match e
      case Go => s.(pos := s.pos + 1)
      case Fault(v) => TakeFault(s, v)
  }

  /**
   After the prologue, which sets the counter and ends with a store that names the revert code as the return
   point.  What is left and what is spent of the budget comes from earlier test cases.
   */
  function Initial(loop: nat, budget: nat, spent: nat): State {
    State(Startup, 0, Revert, loop % 0x1_0000_0000, budget, spent, false, [Visit(Startup, false)])
  }

  function Exec(p: Program, s: State, es: seq<Event>): State
    decreases |es|
  {
    if es == [] then s else Exec(p, Step(p, s, es[0]), es[1..])
  }

  // ---------------------------------------------------------------------------------------------
  // The return point always lies ahead
  // ---------------------------------------------------------------------------------------------

  /** What the return-point cell may hold in each section. */
  ghost predicate ReturnPoint(s: State) {
    match s.section
    case Startup => s.retp == Revert
    case Pre => s.retp == Revert || s.retp == Post || s.retp == End
    case Code => s.retp == RevertOnFault
    case RevertOnFault => s.retp == Post
    case Post => s.retp == Revert
    case Revert => s.retp == Loop
    case Loop => s.retp == End
    case End => s.retp == End
  }

  lemma {:induction false} ReturnPointAhead(s: State)
    requires ReturnPoint(s) && s.section != End
    ensures Rank(s.section) < Rank(s.retp)
  {
  }

  ghost predicate Sane(p: Program, s: State) {
    && ReturnPoint(s)
    && s.pos <= p.len(s.section)
    && s.counter < 0x1_0000_0000
    && s.budget < 0x1_0000_0000
    && |s.log| >= 1 && s.log[|s.log| - 1].section == s.section
  }

  lemma {:induction false} StepKeepsSane(p: Program, s: State, e: Event)
    requires Sane(p, s)
    ensures Sane(p, Step(p, s, e))
  {
    if !Final(s) {
      if s.pos >= p.len(s.section) {
        FallThroughKeepsSane(p, s);
      } else if e.Fault? {
        FaultKeepsSane(p, s, e.vector);
      }
    }
  }

  lemma {:induction false} FallThroughKeepsSane(p: Program, s: State)
    requires Sane(p, s) && s.section != End
    ensures Sane(p, FallThrough(p, s))
  {
  }

  lemma {:induction false} FaultKeepsSane(p: Program, s: State, v: RedirectingVector)
    requires Sane(p, s) && !Final(s)
    ensures Sane(p, TakeFault(s, v))
  {
  }

  lemma {:induction false} ExecKeepsSane(p: Program, s: State, es: seq<Event>)
    requires Sane(p, s)
    ensures Sane(p, Exec(p, s, es))
    decreases |es|
  {
    if es != [] {
      StepKeepsSane(p, s, es[0]);
      ExecKeepsSane(p, Step(p, s, es[0]), es[1..]);
    }
  }

  // ---------------------------------------------------------------------------------------------
  // Every run ends
  // ---------------------------------------------------------------------------------------------

  /** How often the loop counter lets the set-up code start over, the current pass included. */
  function PassesLeft(p: Program, s: State): nat {
    if !p.looping then 1
    else if s.counter == 0 then 0x1_0000_0000
    else s.counter
  }

  function Next(sec: Section): Section {
    match sec
    case Startup => Pre
    case Pre => Code
    case Code => RevertOnFault
    case RevertOnFault => Post
    case Post => Revert
    case Revert => Loop
    case Loop => End
    case End => End
  }

  /** Gadgets and section ends from the start of a section to the end label. */
  function Ahead(p: Program, sec: Section): nat
    decreases 7 - Rank(sec)
  {
    if sec == End then 0 else p.len(sec) + 1 + Ahead(p, Next(sec))
  }

  lemma {:induction false} LaterIsCloser(p: Program, a: Section, b: Section)
    requires Rank(a) < Rank(b)
    ensures p.len(a) + 1 + Ahead(p, b) <= Ahead(p, a)
    decreases 7 - Rank(a)
  {
    if Next(a) != b {
      LaterIsCloser(p, Next(a), b);
    }
  }

  function Times(k: nat, a: nat): nat {
    if k == 0 then 0 else Times(k - 1, a) + a
  }

  lemma {:induction false} OneTimeLess(k: nat, a: nat)
    requires k >= 1
    ensures Times(k, a) == Times(k - 1, a) + a
  {
  }

  /** The most steps the test case can still take. */
  function StepsLeft(p: Program, s: State): int {
    if Final(s) then 0
    else Times(PassesLeft(p, s) - 1, Ahead(p, Pre)) + Ahead(p, s.section) - s.pos
  }

  lemma {:induction false} StepsLeftPositive(p: Program, s: State)
    requires Sane(p, s) && !Final(s)
    ensures StepsLeft(p, s) >= 1
  {
    LaterIsCloser(p, s.section, End);
  }

  /** Going to a later section in the same pass. */
  lemma {:induction false} ForwardIsProgress(p: Program, s: State, s': State)
    requires Sane(p, s) && Sane(p, s') && !Final(s)
    requires PassesLeft(p, s') == PassesLeft(p, s) && s'.pos == 0 && Rank(s.section) < Rank(s'.section)
    ensures StepsLeft(p, s') < StepsLeft(p, s)
  {
    StepsLeftPositive(p, s);
    LaterIsCloser(p, s.section, s'.section);
  }

  /** Going back to the set-up code uses up a pass. */
  lemma {:induction false} BackIsProgress(p: Program, s: State, s': State)
    requires !Final(s) && s.section == Loop && s.pos == p.len(Loop) && s'.section == Pre && s'.pos == 0
    requires PassesLeft(p, s') + 1 == PassesLeft(p, s) && PassesLeft(p, s') >= 1
    ensures StepsLeft(p, s') < StepsLeft(p, s)
  {
    OneTimeLess(PassesLeft(p, s) - 1, Ahead(p, Pre));
    AheadOfLoop(p);
  }

  lemma {:induction false} AheadOfLoop(p: Program)
    ensures Ahead(p, Loop) == p.len(Loop) + 1
  {
  }

  lemma {:induction false} FallThroughIsProgress(p: Program, s: State)
    requires Sane(p, s) && !Final(s) && s.pos == p.len(s.section)
    ensures StepsLeft(p, FallThrough(p, s)) < StepsLeft(p, s)
  {
    FallThroughKeepsSane(p, s);
    var s' := FallThrough(p, s);
    if s.section != Loop {
      ForwardIsProgress(p, s, s');
    } else if s'.section == Pre {
      BackIsProgress(p, s, s');
    } else {
      StepsLeftPositive(p, s);
    }
  }

  lemma {:induction false} FaultIsProgress(p: Program, s: State, v: RedirectingVector)
    requires Sane(p, s) && !Final(s)
    ensures StepsLeft(p, TakeFault(s, v)) < StepsLeft(p, s)
  {
    FaultKeepsSane(p, s, v);
    StepsLeftPositive(p, s);
    ReturnPointAhead(s);
    var s' := TakeFault(s, v);
    if !s'.halted {
      ForwardIsProgress(p, s, s');
    }
  }

  lemma {:induction false} StepMakesProgress(p: Program, s: State, e: Event)
    requires Sane(p, s) && !Final(s)
    ensures StepsLeft(p, Step(p, s, e)) < StepsLeft(p, s)
  {
    if s.pos >= p.len(s.section) {
      FallThroughIsProgress(p, s);
    } else if e.Fault? {
      FaultIsProgress(p, s, e.vector);
    }
  }

  /** Whatever faults strike, the run is over within the computed number of steps. */
  lemma {:induction false} RunEnds(p: Program, s: State, es: seq<Event>)
    requires Sane(p, s) && |es| >= StepsLeft(p, s)
    ensures Final(Exec(p, s, es))
    decreases |es|
  {
    if Final(s) {
      StaysFinal(p, s, es);
    } else {
      StepKeepsSane(p, s, es[0]);
      StepsLeftPositive(p, s);
      StepMakesProgress(p, s, es[0]);
      RunEnds(p, Step(p, s, es[0]), es[1..]);
    }
  }

  lemma {:induction false} StaysFinal(p: Program, s: State, es: seq<Event>)
    requires Final(s)
    ensures Exec(p, s, es) == s
    decreases |es|
  {
    if es != [] {
      StaysFinal(p, s, es[1..]);
    }
  }

  // ---------------------------------------------------------------------------------------------
  // The budget of the counting handlers
  // ---------------------------------------------------------------------------------------------

  ghost predicate BudgetKept(s: State, budget: nat) {
    && s.spent <= budget
    && s.budget == budget - s.spent
    && (s.halted <==> s.spent == budget)
  }

  /** Faults that count down the budget. */
  function Counted(es: seq<Event>): nat {
    if es == [] then 0
    else (if es[0].Fault? && CountsDown(es[0].vector) then 1 else 0) + Counted(es[1..])
  }

  lemma {:induction false} StepKeepsBudget(p: Program, s: State, e: Event, budget: nat)
    requires BudgetKept(s, budget)
    ensures BudgetKept(Step(p, s, e), budget)
    ensures Step(p, s, e).spent <= s.spent + (if e.Fault? && CountsDown(e.vector) then 1 else 0)
  {
  }

  lemma {:induction false} ExecKeepsBudget(p: Program, s: State, es: seq<Event>, budget: nat)
    requires BudgetKept(s, budget)
    ensures BudgetKept(Exec(p, s, es), budget) && Exec(p, s, es).spent <= s.spent + Counted(es)
    decreases |es|
  {
    if es != [] {
      StepKeepsBudget(p, s, es[0], budget);
      ExecKeepsBudget(p, Step(p, s, es[0]), es[1..], budget);
    }
  }

  /**
   Recovery: from the prologue's store on, under any pattern of faults, the test case is over in the computed
   number of steps.  It is over by reaching the end label, unless the budget of counting faults, and
   nothing less, was used up.
   */
  lemma {:induction false} TestCaseEnds(p: Program, loop: nat, budget: nat, spent: nat, es: seq<Event>)
    requires 1 <= budget < 0x1_0000_0000
    requires |es| >= StepsLeft(p, Initial(loop, budget, spent))
    ensures var s := Exec(p, Initial(loop, budget, spent), es);
            && (s.section == End || s.halted)
            && (s.halted <==> s.spent == spent + budget)
            && (Counted(es) < budget ==> s.section == End && !s.halted)
  {
    var s0 := Initial(loop, budget, spent);
    assert Sane(p, s0);
    RunEnds(p, s0, es);
    ExecKeepsBudget(p, s0, es, spent + budget);
  }

  // ---------------------------------------------------------------------------------------------
  // The order of sections
  // ---------------------------------------------------------------------------------------------

  /** Which section may follow which, and how. */
  ghost predicate Follows(a: Visit, b: Visit) {
    match a.section
    case Startup => b == Visit(Pre, false) || b == Visit(Revert, true)
    case Pre => b == Visit(Code, false) || (b.byFault && (b.section == Revert || b.section == Post || b.section == End))
    case Code => b == Visit(Post, false) || b == Visit(RevertOnFault, true)
    case RevertOnFault => b.section == Post
    case Post => b.section == Revert
    case Revert => b.section == Loop
    case Loop => b == Visit(Pre, false) || b.section == End
    case End => false
  }

  ghost predicate WellOrdered(log: seq<Visit>) {
    && log != [] && log[0] == Visit(Startup, false)
    && (forall i | 0 <= i < |log| - 1 :: Follows(log[i], log[i + 1]))
  }

  lemma {:induction false} EnterKeepsOrder(s: State, to: Section, byFault: bool)
    requires WellOrdered(s.log) && s.log[|s.log| - 1].section == s.section
    requires Follows(s.log[|s.log| - 1], Visit(to, byFault))
    ensures WellOrdered(Enter(s, to, byFault).log)
  {
  }

  lemma {:induction false} StepKeepsOrder(p: Program, s: State, e: Event)
    requires Sane(p, s) && WellOrdered(s.log)
    ensures WellOrdered(Step(p, s, e).log)
  {
    if !Final(s) {
      var last := s.log[|s.log| - 1];
      if s.pos >= p.len(s.section) {
        var s' := FallThrough(p, s);
        assert Follows(last, Visit(s'.section, false));
        EnterKeepsOrder(s, s'.section, false);
      } else if e.Fault? && !IsInputStore(p, s) {
        assert Follows(last, Visit(s.retp, true));
        EnterKeepsOrder(s, s.retp, true);
      }
    }
  }

  lemma {:induction false} ExecKeepsOrder(p: Program, s: State, es: seq<Event>)
    requires Sane(p, s) && WellOrdered(s.log)
    ensures WellOrdered(Exec(p, s, es).log)
    decreases |es|
  {
    if es != [] {
      StepKeepsSane(p, s, es[0]);
      StepKeepsOrder(p, s, es[0]);
      ExecKeepsOrder(p, Step(p, s, es[0]), es[1..]);
    }
  }

  /**
   An iteration that reached the tested instruction, in a run that reached the end label: post, revert
   and loop were each entered once, in that order, and the copy of the revert code was entered before
   them exactly when the tested instruction's section faulted.
   */
  lemma {:induction false} IterationIsComplete(p: Program, loop: nat, budget: nat, spent: nat, es: seq<Event>, i: nat)
    requires 1 <= budget < 0x1_0000_0000
    requires var s := Exec(p, Initial(loop, budget, spent), es);
             s.section == End && i < |s.log| && s.log[i].section == Code
    ensures var log := Exec(p, Initial(loop, budget, spent), es).log;
            && i + 1 < |log| && (log[i + 1].byFault <==> log[i + 1].section == RevertOnFault)
            && var k := if log[i + 1].byFault then i + 2 else i + 1;
               && k + 3 < |log|
               && log[k].section == Post && log[k + 1].section == Revert && log[k + 2].section == Loop
               && (log[k + 3].section == Pre || log[k + 3].section == End)
  {
    var s0 := Initial(loop, budget, spent);
    var log := Exec(p, s0, es).log;
    assert Sane(p, s0);
    ExecKeepsSane(p, s0, es);
    ExecKeepsOrder(p, s0, es);
    assert log[|log| - 1].section == End;
    assert Follows(log[i], log[i + 1]);
    var k := if log[i + 1].byFault then i + 2 else i + 1;
    if log[i + 1].byFault {
      assert Follows(log[i + 1], log[i + 2]);
    }
    assert Follows(log[k], log[k + 1]);
    assert Follows(log[k + 1], log[k + 2]);
    assert Follows(log[k + 2], log[k + 3]);
  }

  // ---------------------------------------------------------------------------------------------
  // The number of passes
  // ---------------------------------------------------------------------------------------------

  /** How often the set-up code was entered. */
  function Passes(log: seq<Visit>): nat {
    if log == [] then 0
    else Passes(log[..|log| - 1]) + (if log[|log| - 1].section == Pre then 1 else 0)
  }

  /** A loop count of zero wraps around. */
  function PassesAllowed(p: Program, loop: nat): nat {
    if !p.looping then 1
    else if loop % 0x1_0000_0000 == 0 then 0x1_0000_0000
    else loop % 0x1_0000_0000
  }

  /** The first pass was not skipped by a fault in the prologue. */
  ghost predicate Began(log: seq<Visit>) {
    |log| >= 2 && log[1].section == Pre
  }

  /** Passes made and passes left add up to what is allowed; after the loop ran out nothing is left. */
  ghost predicate PassesKept(p: Program, s: State, allowed: nat) {
    && s.log != [] && (|s.log| == 1 <==> s.section == Startup)
    && if s.section == Startup then Passes(s.log) == 0 && PassesLeft(p, s) == allowed
       else Passes(s.log) + PassesDue(p, s) == allowed + (if Began(s.log) then 1 else 0)
  }

  /** The current pass and those after it. */
  function PassesDue(p: Program, s: State): nat {
    if s.section == End && s.log != [] && !s.log[|s.log| - 1].byFault then 1 else PassesLeft(p, s)
  }

  lemma {:induction false} PassesOfEnter(s: State, to: Section, byFault: bool)
    ensures Passes(Enter(s, to, byFault).log) == Passes(s.log) + (if to == Pre then 1 else 0)
    ensures |s.log| >= 2 ==> (Began(Enter(s, to, byFault).log) <==> Began(s.log))
  {
    var log' := Enter(s, to, byFault).log;
    assert log'[..|log'| - 1] == s.log;
  }

  lemma {:induction false} FallThroughKeepsPasses(p: Program, s: State, allowed: nat)
    requires Sane(p, s) && PassesKept(p, s, allowed) && s.section != End
    ensures PassesKept(p, FallThrough(p, s), allowed)
  {
    var s' := FallThrough(p, s);
    PassesOfEnter(s, s'.section, false);
    assert s'.log == Enter(s, s'.section, false).log;
    if s.section == Startup {
      assert s'.log[1] == Visit(Pre, false);
    }
  }

  lemma {:induction false} FaultKeepsPasses(p: Program, s: State, v: RedirectingVector, allowed: nat)
    requires Sane(p, s) && PassesKept(p, s, allowed) && !Final(s)
    ensures PassesKept(p, TakeFault(s, v), allowed)
  {
    var s' := TakeFault(s, v);
    PassesOfEnter(s, s.retp, true);
    if !s'.halted {
      assert s'.log == s.log + [Visit(s.retp, true)];
      if s.section == Startup {
        assert s'.log[1] == Visit(Revert, true);
      }
    }
  }

  lemma {:induction false} StepKeepsPasses(p: Program, s: State, e: Event, allowed: nat)
    requires Sane(p, s) && PassesKept(p, s, allowed)
    ensures PassesKept(p, Step(p, s, e), allowed)
  {
    if !Final(s) {
      if s.pos >= p.len(s.section) {
        FallThroughKeepsPasses(p, s, allowed);
      } else if e.Fault? && !IsInputStore(p, s) {
        FaultKeepsPasses(p, s, e.vector, allowed);
      } else {
        assert Step(p, s, e).log == s.log && Step(p, s, e).section == s.section;
      }
    }
  }

  lemma {:induction false} ExecKeepsPasses(p: Program, s: State, es: seq<Event>, allowed: nat)
    requires Sane(p, s) && PassesKept(p, s, allowed)
    ensures PassesKept(p, Exec(p, s, es), allowed)
    decreases |es|
  {
    if es != [] {
      StepKeepsSane(p, s, es[0]);
      StepKeepsPasses(p, s, es[0], allowed);
      ExecKeepsPasses(p, Step(p, s, es[0]), es[1..], allowed);
    }
  }

  /**
   No run makes more passes than the loop count allows.  A run that reached the end label made exactly that many
   if and only if no fault after the prologue skipped the first pass, and the end was reached from the loop or in
   the last pass.
   */
  lemma {:induction false} LoopCountIsKept(p: Program, loop: nat, budget: nat, spent: nat, es: seq<Event>)
    requires budget < 0x1_0000_0000
    ensures var s := Exec(p, Initial(loop, budget, spent), es);
            && Passes(s.log) <= PassesAllowed(p, loop)
            && (s.section == End ==>
                  (Passes(s.log) == PassesAllowed(p, loop) <==>
                   Began(s.log) && (!s.log[|s.log| - 1].byFault || PassesLeft(p, s) == 1)))
  {
    var s0, allowed := Initial(loop, budget, spent), PassesAllowed(p, loop);
    assert s0.log[..0] == [];
    assert PassesKept(p, s0, allowed) && Sane(p, s0);
    ExecKeepsPasses(p, s0, es, allowed);
  }

  // ---------------------------------------------------------------------------------------------
  // Faults in the set-up code
  // ---------------------------------------------------------------------------------------------

  /** The store for the inputs was passed in this pass of the set-up code. */
  predicate PastInputStore(p: Program, s: State) {
    s.section == Pre && p.inputStore.Some? && p.inputStore.value < s.pos
  }

  /** The set-up code was entered from the start of the test case, not from the loop. */
  predicate FirstEntry(s: State) {
    |s.log| == 2
  }

  /** The section named in the return-point cell while the set-up code runs. */
  function SetUpReturn(p: Program, s: State): Section {
    if PastInputStore(p, s) then Post else if FirstEntry(s) then Revert else End
  }

  ghost predicate ReturnKept(p: Program, s: State) {
    && s.log != [] && (|s.log| == 1 <==> s.section == Startup)
    && (s.section == Pre ==> s.retp == SetUpReturn(p, s))
  }

  lemma {:induction false} StepKeepsReturn(p: Program, s: State, e: Event)
    requires Sane(p, s) && ReturnKept(p, s)
    ensures ReturnKept(p, Step(p, s, e))
  {
    if !Final(s) && s.pos < p.len(s.section) && e.Fault? {
      ReturnPointAhead(s);
    }
  }

  lemma {:induction false} ExecKeepsReturn(p: Program, s: State, es: seq<Event>)
    requires Sane(p, s) && ReturnKept(p, s)
    ensures ReturnKept(p, Exec(p, s, es)) && Sane(p, Exec(p, s, es))
    decreases |es|
  {
    if es != [] {
      StepKeepsSane(p, s, es[0]);
      StepKeepsReturn(p, s, es[0]);
      ExecKeepsReturn(p, Step(p, s, es[0]), es[1..]);
    }
  }

  /**
   Where a fault leads, in every run and from every section.  In the set-up code that is the code after the tested
   instruction once the store for the inputs is passed, before it the revert code in the first pass, and the end label
   when the set-up code was entered from the loop.
   */
  lemma {:induction false} FaultLeadsTo(p: Program, loop: nat, budget: nat, spent: nat, es: seq<Event>,
      v: RedirectingVector)
    requires budget < 0x1_0000_0000
    requires var s := Exec(p, Initial(loop, budget, spent), es);
             !Final(s) && s.pos < p.len(s.section) && !IsInputStore(p, s) && !Charge(s, v).halted
    ensures var s := Exec(p, Initial(loop, budget, spent), es);
            var s' := Step(p, s, Fault(v));
            && s'.section == (match s.section
                              case Startup => Revert
                              case Pre => if PastInputStore(p, s) then Post else if FirstEntry(s) then Revert else End
                              case Code => RevertOnFault
                              case RevertOnFault => Post
                              case Post => Revert
                              case Revert => Loop
                              case _ => End)
            && s'.pos == 0 && s'.log == s.log + [Visit(s'.section, true)] && PassesLeft(p, s') == PassesLeft(p, s)
  {
    var s0 := Initial(loop, budget, spent);
    assert Sane(p, s0) && ReturnKept(p, s0);
    ExecKeepsReturn(p, s0, es);
  }

  lemma {:induction false} ResumesAtEnd(p: Program, s: State)
    requires s.section == Pre && s.retp == End && !s.halted && s.pos < p.len(Pre) && !IsInputStore(p, s)
    ensures var s' := Step(p, s, Fault(0));
            s'.section == End && s'.log[|s'.log| - 1].byFault && PassesLeft(p, s') == PassesLeft(p, s)
  {
  }

  /** A test case in which every section but the set-up code is empty. */
  const BARE: Program := Program(sec => if sec == Pre then 1 else 0, None, true)

  lemma {:induction false} EmptySection(s: State)
    requires !Final(s) && s.section != Pre && s.pos == 0
    ensures Step(BARE, s, Go) == FallThrough(BARE, s)
  {
  }

  /** One pass without faults, back to the set-up code. */
  lemma {:induction false} BarePass(s: State) returns (states: seq<State>)
    requires s.section == Pre && s.pos == 0 && !s.halted && 2 <= s.counter
    ensures |states| == 7 && states[0] == s && forall i | 0 <= i < 6 :: states[i + 1] == Step(BARE, states[i], Go)
    ensures var s' := states[6];
            s'.section == Pre && s'.pos == 0 && s'.retp == End && s'.counter == s.counter - 1 && !s'.halted
  {
    var s1 := Step(BARE, s, Go);
    var s2 := Step(BARE, s1, Go);
    assert s2.section == Code && s2.pos == 0;
    EmptySection(s2);
    var s3 := FallThrough(BARE, s2);
    EmptySection(s3);
    var s4 := FallThrough(BARE, s3);
    EmptySection(s4);
    var s5 := FallThrough(BARE, s4);
    EmptySection(s5);
    states := [s, s1, s2, s3, s4, s5, FallThrough(BARE, s5)];
  }

  /** Three passes asked for, two begun: the second one faults in the set-up code. */
  lemma {:induction false} PassesCutShort(budget: nat, spent: nat) returns (es: seq<Event>)
    requires 1 <= budget < 0x1_0000_0000
    ensures var s := Exec(BARE, Initial(3, budget, spent), es);
            s.section == End && Passes(s.log) < PassesAllowed(BARE, 3)
  {
    var s0 := Initial(3, budget, spent);
    EmptySection(s0);
    var s1 := FallThrough(BARE, s0);
    var states := BarePass(s1);
    var last := states[6];
    ResumesAtEnd(BARE, last);
    es := seq(8, i => if i < 7 then Go else Fault(0));
    EndedEarly(BARE, 3, budget, spent, es, [s0] + states + [Step(BARE, last, Fault(0))]);
  }

  lemma {:induction false} EndedEarly(p: Program, loop: nat, budget: nat, spent: nat, es: seq<Event>,
      states: seq<State>)
    requires budget < 0x1_0000_0000
    requires |states| == |es| + 1 && states[0] == Initial(loop, budget, spent)
    requires forall i | 0 <= i < |es| :: states[i + 1] == Step(p, states[i], es[i])
    requires var s := states[|es|];
             s.section == End && s.log != [] && s.log[|s.log| - 1].byFault && PassesLeft(p, s) >= 2
    ensures var s := Exec(p, Initial(loop, budget, spent), es);
            s.section == End && Passes(s.log) < PassesAllowed(p, loop)
  {
    ExecUnfolds(p, states[0], es, |es|, states);
    LoopCountIsKept(p, loop, budget, spent, es);
  }

  /** A run, state by state. */
  lemma {:induction false} ExecUnfolds(p: Program, s: State, es: seq<Event>, n: nat, states: seq<State>)
    requires |es| == n && |states| == n + 1 && states[0] == s
    requires forall i | 0 <= i < n :: states[i + 1] == Step(p, states[i], es[i])
    ensures Exec(p, s, es) == states[n]
    decreases n
  {
    if n > 0 {
      ExecUnfolds(p, states[1], es[1..], n - 1, states[1..]);
    }
  }
}

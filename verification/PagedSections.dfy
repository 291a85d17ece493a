/**
 The paging mode in which the sections of a test case run, and which of their addresses reach their cells: addresses
 generated before the gadgets that set registers are high, and a test case may switch paging off.
 */
module PagedSections {
  import opened Wrappers
  import opened Paging
  import opened AddressForms
  import opened Recovery

  /** What each gadget loads into the paging bit, if anything. */
  type Loads = (Section, nat) -> Option<bool>

  datatype Test = Test(program: Program, loads: Loads)

  /** A section, and the position at which it was left. */
  datatype Stay = Stay(section: Section, pos: nat)

  /**
   The state of the test case, the paging mode, the mode in which the current section was entered, and the sections
   left before it.
   */
  datatype Mode = Mode(s: State, paged: bool, entry: bool, history: seq<Stay>)

  /** A gadget that runs may change the mode; task switches and jumps do not. */
  function Step(t: Test, x: Mode, e: Event): Mode {
    var s' := Recovery.Step(t.program, x.s, e);
    if Final(x.s) then x
    else if Runs(t.program, x.s, e) then
      x.(s := s', paged := match t.loads(x.s.section, x.s.pos) case Some(b) => b case None => x.paged)
    else if s'.log == x.s.log then x.(s := s')
    else Mode(s', x.paged, x.paged, x.history + [Stay(x.s.section, x.s.pos)])
  }

  /** The gadget at hand runs to its end. */
  predicate Runs(p: Program, s: State, e: Event) {
    s.pos < p.len(s.section) && !IsInputStore(p, s) && e.Go?
  }

  function Exec(t: Test, x: Mode, es: seq<Event>): Mode
    decreases |es|
  {
    if es == [] then x else Exec(t, Step(t, x, es[0]), es[1..])
  }

  /** A test case starts paged. */
  function Initial(loop: nat, budget: nat, spent: nat): Mode {
    Mode(Recovery.Initial(loop, budget, spent), true, true, [])
  }

  /** The mode after the first gadgets of a section. */
  function ModeAfter(t: Test, sec: Section, pos: nat, entry: bool): bool {
    if pos == 0 then entry
    else
      match t.loads(sec, pos - 1)
      case Some(b) => b
      case None => ModeAfter(t, sec, pos - 1, entry)
  }

  /** The mode after a test case went through the given sections, each up to the given position. */
  function ModeOf(t: Test, history: seq<Stay>): bool {
    if history == [] then true
    else
      var last := history[|history| - 1];
      ModeAfter(t, last.section, last.pos, ModeOf(t, history[..|history| - 1]))
  }

  /** The store of the return point among the set-up gadgets does not touch the paging bit. */
  ghost predicate PlainStore(t: Test) {
    t.program.inputStore.Some? ==> t.loads(Pre, t.program.inputStore.value).None?
  }

  ghost predicate NoLoads(t: Test, sec: Section) {
    forall pos :: t.loads(sec, pos).None?
  }

  /**
   A test case that runs its instruction with paging off: its set-up code ends unpaged, both copies of the revert code
   end paged, and so does the startup code, which in the first test case sets up and reverts once already.
   */
  ghost predicate SwitchesOff(t: Test) {
    var p := t.program;
    && (forall entry :: !ModeAfter(t, Pre, p.len(Pre), entry))
    && (forall entry :: ModeAfter(t, Revert, p.len(Revert), entry))
    && (forall entry :: ModeAfter(t, RevertOnFault, p.len(RevertOnFault), entry))
    && ModeAfter(t, Startup, p.len(Startup), true)
    && NoLoads(t, Code) && NoLoads(t, Post) && NoLoads(t, Loop)
    && PlainStore(t)
  }

  lemma {:induction false} NoLoadsNoChange(t: Test, sec: Section, pos: nat, entry: bool)
    requires NoLoads(t, sec)
    ensures ModeAfter(t, sec, pos, entry) == entry
  {
    if pos > 0 {
      NoLoadsNoChange(t, sec, pos - 1, entry);
    }
  }

  // ---------------------------------------------------------------------------------------------
  // The mode after any events
  // ---------------------------------------------------------------------------------------------

  /** The section visited before the current one. */
  function Before(s: State): Visit
    requires |s.log| >= 2
  {
    s.log[|s.log| - 2]
  }

  predicate ByFault(s: State)
    requires |s.log| >= 1
  {
    s.log[|s.log| - 1].byFault
  }

  /** The history lists the sections visited before the current one. */
  ghost predicate Listed(s: State, history: seq<Stay>) {
    && |s.log| == |history| + 1 && s.log[|history|].section == s.section
    && (forall i | 0 <= i < |history| :: history[i].section == s.log[i].section)
  }

  /** The mode is what the history and the position in the current section make it. */
  ghost predicate Recorded(t: Test, x: Mode) {
    && Listed(x.s, x.history)
    && x.entry == ModeOf(t, x.history)
    && x.paged == ModeAfter(t, x.s.section, x.s.pos, x.entry)
  }

  /** Entering a section. */
  lemma {:induction false} EnterIsRecorded(t: Test, x: Mode, s: State, to: Section, byFault: bool)
    requires Recorded(t, x) && s.log == x.s.log
    ensures Recorded(t, Mode(Enter(s, to, byFault), x.paged, x.paged, x.history + [Stay(x.s.section, x.s.pos)]))
  {
    var h := x.history + [Stay(x.s.section, x.s.pos)];
    assert h[..|h| - 1] == x.history;
  }

  /** Staying in a section. */
  lemma {:induction false} StayIsRecorded(t: Test, x: Mode, e: Event)
    requires PlainStore(t) && Recorded(t, x) && !Final(x.s) && x.s.pos < t.program.len(x.s.section)
    requires IsInputStore(t.program, x.s) || e.Go?
    ensures Recorded(t, Step(t, x, e))
  {
  }

  lemma {:induction false} FallThroughIsRecorded(t: Test, x: Mode, e: Event)
    requires Recorded(t, x) && !Final(x.s) && x.s.pos >= t.program.len(x.s.section)
    ensures Recorded(t, Step(t, x, e))
  {
    var s' := FallThrough(t.program, x.s);
    FallThroughEnters(t.program, x.s);
    EnterIsRecorded(t, x, x.s.(counter := s'.counter), s'.section, false);
  }

  lemma {:induction false} FallThroughEnters(p: Program, s: State)
    requires s.section != End
    ensures var s' := FallThrough(p, s); s' == Enter(s.(counter := s'.counter), s'.section, false)
  {
  }

  lemma {:induction false} FaultIsRecorded(t: Test, x: Mode, v: RedirectingVector)
    requires Recorded(t, x) && !Final(x.s) && x.s.pos < t.program.len(x.s.section) && !IsInputStore(t.program, x.s)
    ensures Recorded(t, Step(t, x, Fault(v)))
  {
    EnterIsRecorded(t, x, Charge(x.s, v), x.s.retp, true);
  }

  lemma {:induction false} StepIsRecorded(t: Test, x: Mode, e: Event)
    requires PlainStore(t) && Recorded(t, x)
    ensures Recorded(t, Step(t, x, e))
  {
    if Final(x.s) {
    } else if x.s.pos >= t.program.len(x.s.section) {
      FallThroughIsRecorded(t, x, e);
    } else if IsInputStore(t.program, x.s) || e.Go? {
      StayIsRecorded(t, x, e);
    } else {
      FaultIsRecorded(t, x, e.vector);
    }
  }

  lemma {:induction false} RunIsRecorded(t: Test, x: Mode, es: seq<Event>)
    requires PlainStore(t) && Recorded(t, x)
    ensures Recorded(t, Exec(t, x, es))
    decreases |es|
  {
    if es != [] {
      StepIsRecorded(t, x, es[0]);
      RunIsRecorded(t, Step(t, x, es[0]), es[1..]);
    }
  }

  /**
   Every test case, after any events, in any section: an address generated early reaches its cell if and only if the
   sections gone through, each as far as it ran, left paging on; one generated late reaches it in any case.
   */
  lemma {:induction false} ReachExactlyWhen(t: Test, loop: nat, budget: nat, spent: nat, es: seq<Event>, cell: nat)
    requires PlainStore(t) && cell < RAM
    ensures var x := Exec(t, Initial(loop, budget, spent), es);
            && Listed(x.s, x.history)
            && Reaches(x.paged, cell, cell)
            && (Reaches(x.paged, Flip(cell), cell) <==> ModeAfter(t, x.s.section, x.s.pos, ModeOf(t, x.history)))
  {
    var x := Exec(t, Initial(loop, budget, spent), es);
    RunIsRecorded(t, Initial(loop, budget, spent), es);
    ReachesExactlyWhen(cell, true, x.paged);
    ReachesExactlyWhen(cell, false, x.paged);
  }

  // ---------------------------------------------------------------------------------------------
  // Test cases that switch paging off
  // ---------------------------------------------------------------------------------------------

  /** In which mode each section is entered, by the way it is entered. */
  ghost predicate EntryMode(s: State, entry: bool)
    requires |s.log| >= 1
  {
    && (s.section == Startup <==> |s.log| == 1)
    && (s.section == Startup ==> entry)
    && (s.section == Code || s.section == RevertOnFault ==> !entry)
    && (s.section == Loop && !ByFault(s) ==> entry)
    && (s.section == Pre ==>
          && (Before(s).section == Startup ==> entry)
          && (Before(s).section == Loop && !Before(s).byFault ==> entry))
  }

  /** The tested instruction, and the copy of the revert code after it, were entered with paging off. */
  ghost predicate LeftUnpaged(t: Test, history: seq<Stay>) {
    history != [] && history[|history| - 1].section in {Code, RevertOnFault} ==> !ModeOf(t, history[..|history| - 1])
  }

  ghost predicate Tracked(t: Test, x: Mode) {
    Sane(t.program, x.s) && Recorded(t, x) && EntryMode(x.s, x.entry) && LeftUnpaged(t, x.history)
  }

  lemma {:induction false} StepKeepsTrack(t: Test, x: Mode, e: Event)
    requires SwitchesOff(t) && Tracked(t, x)
    ensures Tracked(t, Step(t, x, e))
  {
    StepKeepsSane(t.program, x.s, e);
    StepIsRecorded(t, x, e);
    if !Final(x.s) {
      var h := x.history + [Stay(x.s.section, x.s.pos)];
      assert h[..|h| - 1] == x.history;
      StepKeepsEntryMode(t, x, e);
    }
  }

  lemma {:induction false} StepKeepsEntryMode(t: Test, x: Mode, e: Event)
    requires SwitchesOff(t) && Tracked(t, x) && !Final(x.s)
    ensures var x' := Step(t, x, e); |x'.s.log| >= 1 && EntryMode(x'.s, x'.entry)
  {
    if x.s.pos >= t.program.len(x.s.section) {
      LeavesInMode(t, x);
    } else if !Runs(t.program, x.s, e) && !IsInputStore(t.program, x.s) {
      FaultsInMode(t, x, e);
    }
  }

  /** A section run to its end. */
  lemma {:induction false} LeavesInMode(t: Test, x: Mode)
    requires SwitchesOff(t) && Tracked(t, x) && !Final(x.s) && x.s.pos == t.program.len(x.s.section)
    ensures var s' := FallThrough(t.program, x.s);
            s'.log == x.s.log + [Visit(s'.section, false)] && EntryMode(s', x.paged)
  {
    var s' := FallThrough(t.program, x.s);
    assert s'.log == x.s.log + [Visit(s'.section, false)];
    assert Before(s') == x.s.log[|x.s.log| - 1];
    if x.s.section in {Code, Post, Loop} {
      NoLoadsNoChange(t, x.s.section, x.s.pos, x.entry);
    }
  }

  /** A section left by a fault. */
  lemma {:induction false} FaultsInMode(t: Test, x: Mode, e: Event)
    requires SwitchesOff(t) && Tracked(t, x) && !Final(x.s) && e.Fault?
    ensures var s' := TakeFault(x.s, e.vector);
            if s'.halted then s'.log == x.s.log && s'.section == x.s.section
            else s'.log == x.s.log + [Visit(x.s.retp, true)] && EntryMode(s', x.paged)
  {
    var s' := TakeFault(x.s, e.vector);
    if !s'.halted {
      assert Before(s') == x.s.log[|x.s.log| - 1];
      if x.s.section == Code {
        NoLoadsNoChange(t, Code, x.s.pos, x.entry);
      }
    }
  }

  lemma {:induction false} ExecKeepsTrack(t: Test, x: Mode, es: seq<Event>)
    requires SwitchesOff(t) && Tracked(t, x)
    ensures Tracked(t, Exec(t, x, es))
    decreases |es|
  {
    if es != [] {
      StepKeepsTrack(t, x, es[0]);
      ExecKeepsTrack(t, Step(t, x, es[0]), es[1..]);
    }
  }

  /** The code after the tested instruction reaches the blocks: where it was entered from, paging was on. */
  ghost predicate PostReaches(t: Test, history: seq<Stay>)
    requires history != []
  {
    var last, init := history[|history| - 1], history[..|history| - 1];
    match last.section
    case Pre => ModeAfter(t, Pre, last.pos, ModeOf(t, init))
    case RevertOnFault => ModeAfter(t, RevertOnFault, last.pos, false)
    case _ => false
  }

  /**
   A test case that switches paging off, after any events.  The return points and the counter, generated late, are
   reached everywhere.  The blocks, generated early, are out of reach of the tested instruction's section.  The code
   after it reaches them if and only if a fault led there from the set-up code before paging was switched off, or the
   copy of the revert code got as far as to switch it on again.  In the set-up code they are reached exactly until
   paging is switched off, in a pass that starts paged.
   */
  lemma {:induction false} ReachWithPagingOff(t: Test, loop: nat, budget: nat, spent: nat, es: seq<Event>, cell: nat)
    requires SwitchesOff(t) && budget < 0x1_0000_0000 && cell < RAM
    ensures var x := Exec(t, Initial(loop, budget, spent), es);
            && Listed(x.s, x.history)
            && Reaches(x.paged, cell, cell)
            && (x.s.section == Code ==> !Reaches(x.paged, Flip(cell), cell))
            && (x.s.section == Post ==>
                  && x.history != []
                  && x.history[|x.history| - 1].section in {Pre, Code, RevertOnFault}
                  && (Reaches(x.paged, Flip(cell), cell) <==> PostReaches(t, x.history)))
            && (x.s.section == Pre ==>
                  && |x.s.log| >= 2
                  && (Before(x.s).section == Startup || !Before(x.s).byFault ==>
                        (Reaches(x.paged, Flip(cell), cell) <==> ModeAfter(t, Pre, x.s.pos, true))))
  {
    var x := Exec(t, Initial(loop, budget, spent), es);
    assert Tracked(t, Initial(loop, budget, spent));
    ExecKeepsTrack(t, Initial(loop, budget, spent), es);
    ReachExactlyWhen(t, loop, budget, spent, es, cell);
    NoLoadsNoChange(t, Code, x.s.pos, x.entry);
    NoLoadsNoChange(t, Post, x.s.pos, x.entry);
    SectionFollows(t, loop, budget, spent, es);
    if x.s.section == Post {
      PostIsReached(t, x);
    }
  }

  lemma {:induction false} PostIsReached(t: Test, x: Mode)
    requires SwitchesOff(t) && Tracked(t, x) && x.history != []
    requires x.history[|x.history| - 1].section in {Pre, Code, RevertOnFault}
    ensures x.entry == PostReaches(t, x.history)
  {
    var last, init := x.history[|x.history| - 1], x.history[..|x.history| - 1];
    if last.section == Code {
      NoLoadsNoChange(t, Code, last.pos, ModeOf(t, init));
    }
  }

  /** Which sections the set-up code and the code after the tested instruction are entered from. */
  lemma {:induction false} SectionFollows(t: Test, loop: nat, budget: nat, spent: nat, es: seq<Event>)
    requires budget < 0x1_0000_0000
    ensures var s := Exec(t, Initial(loop, budget, spent), es).s;
            && |s.log| >= 1
            && (s.section == Pre ==> |s.log| >= 2 && Before(s).section in {Startup, Loop})
            && (s.section == Post ==> |s.log| >= 2 && Before(s).section in {Pre, Code, RevertOnFault})
  {
    SameStates(t, Initial(loop, budget, spent), es);
    var s0 := Recovery.Initial(loop, budget, spent);
    assert Sane(t.program, s0) && WellOrdered(s0.log);
    ExecKeepsSane(t.program, s0, es);
    ExecKeepsOrder(t.program, s0, es);
    var log := Recovery.Exec(t.program, s0, es).log;
    if |log| >= 2 {
      assert Follows(log[|log| - 2], log[|log| - 1]);
    }
  }

  // ---------------------------------------------------------------------------------------------
  // A fault before paging is switched off
  // ---------------------------------------------------------------------------------------------

  /** Set-up code that stores the return point, then does something else, then switches paging off. */
  const EARLY: Test :=
    Test(Program(sec => if sec == Pre then 3 else if sec in {Revert, RevertOnFault} then 1 else 0, Some(0), false),
         (sec, pos) =>
           if sec == Pre && pos == 2 then Some(false)
           else if sec in {Revert, RevertOnFault} && pos == 0 then Some(true)
           else None)

  lemma {:induction false} EarlySwitchesOff()
    ensures SwitchesOff(EARLY)
  {
    forall entry: bool
      ensures !ModeAfter(EARLY, Pre, 3, entry)
      ensures ModeAfter(EARLY, Revert, 1, entry) && ModeAfter(EARLY, RevertOnFault, 1, entry)
    {
    }
  }

  const IN_PRE: Mode :=
    Mode(State(Pre, 0, Revert, 1, 10, 0, false, [Visit(Startup, false), Visit(Pre, false)]), true, true,
         [Stay(Startup, 0)])

  lemma {:induction false} EntersPre()
    ensures Step(EARLY, Initial(1, 10, 0), Go) == IN_PRE
  {
    assert Recovery.Initial(1, 10, 0).log + [Visit(Pre, false)] == [Visit(Startup, false), Visit(Pre, false)];
  }

  lemma {:induction false} StoresReturnPoint()
    ensures Step(EARLY, IN_PRE, Go) == IN_PRE.(s := IN_PRE.s.(pos := 1, retp := Post))
  {
  }

  lemma {:induction false} FaultsIntoPost(x: Mode)
    requires x == IN_PRE.(s := IN_PRE.s.(pos := 1, retp := Post))
    ensures var x' := Step(EARLY, x, Fault(0));
            x'.s.section == Post && x'.paged && x'.history == [Stay(Startup, 0), Stay(Pre, 1)]
  {
    assert Recovery.Step(EARLY.program, x.s, Fault(0)) == TakeFault(x.s, 0);
    assert TakeFault(x.s, 0).log == x.s.log + [Visit(Post, true)];
  }

  lemma {:induction false} ThreeSteps(t: Test, x: Mode, a: Event, b: Event, c: Event)
    ensures Exec(t, x, [a, b, c]) == Step(t, Step(t, Step(t, x, a), b), c)
  {
    assert [a, b, c][1..] == [b, c] && [b, c][1..] == [c] && [c][1..] == [];
    assert forall y: Mode :: Exec(t, y, [c]) == Exec(t, Step(t, y, c), []);
  }

  /** The tested instruction is never reached, and the code after it reaches the blocks. */
  lemma {:induction false} FaultBeforeSwitch(cell: nat)
    requires cell < RAM
    ensures SwitchesOff(EARLY)
    ensures var x := Exec(EARLY, Initial(1, 10, 0), [Go, Go, Fault(0)]);
            x.s.section == Post && x.history == [Stay(Startup, 0), Stay(Pre, 1)] && Reaches(x.paged, Flip(cell), cell)
  {
    EarlySwitchesOff();
    ThreeSteps(EARLY, Initial(1, 10, 0), Go, Go, Fault(0));
    EntersPre();
    StoresReturnPoint();
    FaultsIntoPost(Step(EARLY, IN_PRE, Go));
    ReachesExactlyWhen(cell, true, true);
  }

  /** The mode does not influence which sections run. */
  lemma {:induction false} SameStates(t: Test, x: Mode, es: seq<Event>)
    ensures Exec(t, x, es).s == Recovery.Exec(t.program, x.s, es)
    decreases |es|
  {
    if es != [] {
      SameStates(t, Step(t, x, es[0]), es[1..]);
    }
  }

  /** A test case that leaves paging on stays paged, so that all its addresses are reached. */
  lemma {:induction false} ReachWithPagingOn(t: Test, x: Mode, es: seq<Event>, cell: nat)
    requires x.paged && cell < RAM && forall sec, pos :: t.loads(sec, pos) != Some(false)
    ensures Reaches(Exec(t, x, es).paged, Flip(cell), cell) && Reaches(Exec(t, x, es).paged, cell, cell)
    decreases |es|
  {
    ReachesExactlyWhen(cell, true, true);
    ReachesExactlyWhen(cell, false, true);
    if es != [] {
      ReachWithPagingOn(t, Step(t, x, es[0]), es[1..], cell);
    }
  }
}

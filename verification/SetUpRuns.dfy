/**
 The set-up as a whole: it reaches the test-case state, and the revert gadgets return to the snapshot,
 exactly when one repair pass is enough.
 */
module SetUpRuns {
  import opened Gadgets
  import opened Schedule
  import opened SetUp
  import opened SetUpOrder
  import opened StableSetUp

  // ---------------------------------------------------------------------------------------------
  // When one pass is enough, every run reaches the test-case state
  // ---------------------------------------------------------------------------------------------

  ghost predicate DiffersOnlyIn(ls: set<Loc>, snapshot: State, s: State) {
    forall l | Settable(l) && l !in ls :: s(l) == snapshot(l)
  }

  lemma {:induction false} LocsOfConcat(a: seq<Item>, b: seq<Item>)
    ensures Locs(a + b) == Locs(a) + Locs(b)
  {
    if b == [] {
      assert a + b == a;
    } else {
      LocsOfConcat(a, b[..|b| - 1]);
      LocsOfLast(a + b);
      LocsOfLast(b);
      assert (a + b)[..|a + b| - 1] == a + b[..|b| - 1];
    }
  }

  lemma {:induction false} SetUpReachesTarget(items: seq<Item>, snapshot: State, all: seq<Item>, order: seq<nat>,
      states: seq<State>)
    requires IsComplete(items, snapshot, all) && OnePassSuffices(GenAll(items, snapshot))
    requires IsSchedule(GenAll(all, snapshot), order) && IsRun(GenAll(all, snapshot), order, states)
    requires DiffersOnlyIn(Locs(items), snapshot, states[0])
    ensures AtTarget(items, snapshot, states[|order|])
  {
    var gs := GenAll(all, snapshot);
    var extra: seq<Item> :| all == items + extra && IsRepair(GenAll(items, snapshot), snapshot, extra);
    OnePassIsEnough(items, snapshot, extra);
    RunSetsItems(all, snapshot, order, states);
    LocsOfConcat(items, extra);
    forall k | 0 <= k < |items|
      ensures states[|order|](items[k].loc) == items[k].value
    {
      assert all[k] == items[k];
    }
    forall l | Settable(l) && l !in Locs(items)
      ensures states[|order|](l) == snapshot(l)
    {
      if l in Locs(extra) {
        var k :| 0 <= k < |extra| && extra[k].loc == l;
        assert all[|items| + k] == extra[k];
      } else {
        ItemsAreDefined(all, snapshot, l);
        assert !Lost(gs, l);
      }
    }
  }

  // ---------------------------------------------------------------------------------------------
  // When it is not, some run misses it
  // ---------------------------------------------------------------------------------------------

  /** Running a gadget that writes the given junk into what it kills. */
  ghost function Effect(g: Gadget, s: State, junk: State): State {
    (l: Loc) => if l in g.define then g.value(s, l) else if l in g.kill then junk(l) else s(l)
  }

  ghost function RunWith(gs: seq<Gadget>, order: seq<nat>, s: State, junk: State): (states: seq<State>)
    requires forall k | 0 <= k < |order| :: order[k] < |gs|
    ensures |states| == |order| + 1
  {
    if order == [] then [s]
    else
      var before := RunWith(gs, order[..|order| - 1], s, junk);
      before + [Effect(gs[order[|order| - 1]], before[|order| - 1], junk)]
  }

  lemma {:induction false} RunWithIsRun(gs: seq<Gadget>, order: seq<nat>, s: State, junk: State)
    requires forall k | 0 <= k < |order| :: order[k] < |gs|
    ensures IsRun(gs, order, RunWith(gs, order, s, junk)) && RunWith(gs, order, s, junk)[0] == s
  {
    if order != [] {
      var init := order[..|order| - 1];
      RunWithIsRun(gs, init, s, junk);
      var before, states := RunWith(gs, init, s, junk), RunWith(gs, order, s, junk);
      forall k | 0 <= k < |order|
        ensures Step(gs[order[k]], states[k], states[k + 1])
      {
        if k < |init| {
          assert Step(gs[init[k]], before[k], before[k + 1]);
        }
      }
    }
  }

  /** Junk in a location that is killed and never defined survives to the end. */
  lemma {:induction false} JunkSurvives(gs: seq<Gadget>, order: seq<nat>, s: State, junk: State, k: nat, l: Loc)
    requires forall k | 0 <= k < |order| :: order[k] < |gs|
    requires k < |order| && l in gs[order[k]].kill && !DefinedIn(gs, l)
    ensures RunWith(gs, order, s, junk)[|order|](l) == junk(l)
  {
    if k < |order| - 1 {
      JunkSurvives(gs, order[..|order| - 1], s, junk, k, l);
    }
  }

  lemma {:induction false} SetUpMissesTarget(items: seq<Item>, snapshot: State, all: seq<Item>, order: seq<nat>)
    returns (states: seq<State>)
    requires IsComplete(items, snapshot, all) && !OnePassSuffices(GenAll(items, snapshot))
    requires IsSchedule(GenAll(all, snapshot), order)
    ensures IsRun(GenAll(all, snapshot), order, states) && states[0] == snapshot
    ensures !AtTarget(items, snapshot, states[|order|])
  {
    var gs := GenAll(all, snapshot);
    var extra: seq<Item> :| all == items + extra && IsRepair(GenAll(items, snapshot), snapshot, extra);
    OnePassIsEnough(items, snapshot, extra);
    var l :| Lost(gs, l);
    LostRegisters(all, snapshot, l);
    ItemsAreDefined(all, snapshot, l);
    var junk: State := (x: Loc) => snapshot(x) + 1;
    states := RunWith(gs, order, snapshot, junk);
    RunWithIsRun(gs, order, snapshot, junk);
    LostKeepsJunk(gs, order, snapshot, junk, l);
    assert states[|order|](l) != snapshot(l);
    LocsOfConcat(items, extra);
  }

  lemma {:induction false} LostKeepsJunk(gs: seq<Gadget>, order: seq<nat>, s: State, junk: State, l: Loc)
    requires IsSchedule(gs, order) && Lost(gs, l)
    ensures RunWith(gs, order, s, junk)[|order|](l) == junk(l)
  {
    var i :| 0 <= i < |gs| && l in gs[i].kill;
    assert i in order;
    var k :| 0 <= k < |order| && order[k] == i;
    JunkSurvives(gs, order, s, junk, k, l);
  }

  /**
   Set-up correctness, for every test case and every schedule: all runs from the snapshot end with
   test-case values on the test case's locations and snapshot values elsewhere, if and only if one
   repair pass was enough.
   */
  lemma {:induction false} SetUpCorrectExactlyWhen(items: seq<Item>, snapshot: State, all: seq<Item>, order: seq<nat>)
    requires IsComplete(items, snapshot, all) && IsSchedule(GenAll(all, snapshot), order)
    ensures (forall states | IsRun(GenAll(all, snapshot), order, states) && states[0] == snapshot ::
               AtTarget(items, snapshot, states[|order|]))
            <==> OnePassSuffices(GenAll(items, snapshot))
  {
    if OnePassSuffices(GenAll(items, snapshot)) {
      forall states | IsRun(GenAll(all, snapshot), order, states) && states[0] == snapshot
        ensures AtTarget(items, snapshot, states[|order|])
      {
        SetUpReachesTarget(items, snapshot, all, order, states);
      }
    } else {
      var states := SetUpMissesTarget(items, snapshot, all, order);
    }
  }

  lemma {:induction false} GadgetsOfOne(item: Item, snapshot: State)
    requires Settable(item.loc)
    ensures GenAll([item], snapshot) == GenGadget(item, snapshot)
    ensures item.value != snapshot(item.loc) ==> Changed([item], snapshot) == [item]
  {
    assert [item][..0] == [];
    assert GenAll([], snapshot) == [] && Changed([], snapshot) == [];
  }

  /** A test case that changes the descriptor of some segment register and nothing else. */
  lemma {:induction false} DescriptorOnlyTestCaseLosesEAX(snapshot: State, r: Register, addr: nat, value: Value,
      index: nat)
    requires r in {CS, DS, SS, ES, FS, GS} && snapshot(Reg(r)) / 8 == index && value != snapshot(Cell(addr))
    ensures var items := [Item(Cell(addr), value, GdtEntry(index))];
            Changed(items, snapshot) == items && !OnePassSuffices(GenAll(items, snapshot))
  {
    var item := Item(Cell(addr), value, GdtEntry(index));
    GadgetsOfOne(item, snapshot);
    OnePassExactly([item], snapshot);
    assert Loses([item][0], r, snapshot);
    assert ReloadedBy([item], r, snapshot) && !TouchedBy([item], EAX, snapshot);
  }

  // ---------------------------------------------------------------------------------------------
  // Sorted together with other gadgets
  // ---------------------------------------------------------------------------------------------

  /**
   In the Feistel modes the set-up is sorted together with gadgets that save and set inputs.  Whatever these kill or
   read, a location of the test case that none of them defines ends with its test-case value.
   */
  lemma {:induction false} JointRunSetsItem(all: seq<Item>, snapshot: State, others: seq<Gadget>, order: seq<nat>,
      states: seq<State>, k: nat)
    requires ValidItems(all) && k < |all| && !DefinedIn(others, all[k].loc)
    requires var gs := GenAll(all, snapshot) + others; IsSchedule(gs, order) && IsRun(gs, order, states)
    ensures states[|order|](all[k].loc) == all[k].value
  {
    var l, mine := all[k].loc, GenAll(all, snapshot);
    var gs := mine + others;
    GadgetsStemFromItems(all, snapshot);
    DefinersAreUnique(all, snapshot);
    ItemsAreDefined(all, snapshot, l);
    assert l in Locs(all);
    var i :| 0 <= i < |mine| && l in mine[i].define;
    assert gs[i] == mine[i];
    SoleInJointList(mine, others, i, l);
    var p := SoleInSchedule(gs, order, states, i, l);
    assert mine[i] in mine;
    var m :| 0 <= m < |all| && Sets(mine[i], all[m]);
    assert m == k;
  }

  lemma {:induction false} SoleInJointList(mine: seq<Gadget>, others: seq<Gadget>, i: nat, l: Loc)
    requires i < |mine| && l in mine[i].define && Settable(l) && UniqueDefiners(mine) && !DefinedIn(others, l)
    ensures !DefinedByAnother(mine + others, i, l)
  {
    var gs := mine + others;
    forall d | 0 <= d < |gs| && d != i
      ensures l !in gs[d].define
    {
      if d < |mine| {
        assert gs[d] == mine[d];
      } else {
        assert gs[d] == others[d - |mine|];
      }
    }
  }

  // ---------------------------------------------------------------------------------------------
  // Undoing the set-up
  // ---------------------------------------------------------------------------------------------

  ghost predicate SameSets(a: seq<Gadget>, b: seq<Gadget>) {
    && |a| == |b|
    && (forall i | 0 <= i < |a| :: a[i].define == b[i].define && a[i].kill == b[i].kill)
  }

  lemma {:induction false} SameSetsOnePass(a: seq<Gadget>, b: seq<Gadget>)
    requires SameSets(a, b)
    ensures OnePassSuffices(a) <==> OnePassSuffices(b)
  {
    forall l
      ensures (KilledIn(a, l) <==> KilledIn(b, l)) && (DefinedIn(a, l) <==> DefinedIn(b, l))
    {
    }
    assert forall r: Register :: Lost(a, Reg(r)) <==> Lost(b, Reg(r));
  }

  /** Values do not influence which locations the gadgets touch. */
  lemma {:induction false} UndoTouchesTheSame(items: seq<Item>, snapshot: State)
    requires ValidItems(items)
    ensures ValidItems(Undo(items, snapshot))
    ensures SameSets(GenAll(items, snapshot), GenAll(Undo(items, snapshot), snapshot))
  {
    if items != [] {
      var init, last := items[..|items| - 1], items[|items| - 1];
      var undo := Undo(items, snapshot);
      UndoTouchesTheSame(init, snapshot);
      assert undo[..|undo| - 1] == Undo(init, snapshot);
      SameLocationSameSets(last, undo[|undo| - 1], snapshot);
      SameSetsOfConcat(GenAll(init, snapshot), GenAll(Undo(init, snapshot), snapshot),
                       GenGadget(last, snapshot), GenGadget(undo[|undo| - 1], snapshot));
    }
  }

  lemma {:induction false} SameLocationSameSets(a: Item, b: Item, snapshot: State)
    requires b == a.(value := b.value) && Settable(a.loc)
    ensures SameSets(GenGadget(a, snapshot), GenGadget(b, snapshot))
  {
  }

  lemma {:induction false} SameSetsOfConcat(a: seq<Gadget>, a': seq<Gadget>, b: seq<Gadget>, b': seq<Gadget>)
    requires SameSets(a, a') && SameSets(b, b')
    ensures SameSets(a + b, a' + b')
  {
  }

  lemma {:induction false} UndoLocs(items: seq<Item>, snapshot: State)
    ensures Locs(Undo(items, snapshot)) == Locs(items)
  {
    var undo := Undo(items, snapshot);
    forall l
      ensures l in Locs(items) <==> l in Locs(undo)
    {
      if i :| 0 <= i < |items| && items[i].loc == l {
        assert undo[i].loc == l;
      }
      if i :| 0 <= i < |undo| && undo[i].loc == l {
        assert items[i].loc == l;
      }
    }
  }

  ghost predicate AtSnapshot(snapshot: State, s: State) {
    forall l | Settable(l) :: s(l) == snapshot(l)
  }

  /**
   The revert gadgets return to the snapshot from every state that differs from it only in the test case's
   locations.
   */
  lemma {:induction false} RevertReachesSnapshot(items: seq<Item>, snapshot: State, all: seq<Item>, order: seq<nat>,
      states: seq<State>)
    requires ValidItems(items) && OnePassSuffices(GenAll(items, snapshot))
    requires IsComplete(Undo(items, snapshot), snapshot, all)
    requires IsSchedule(GenAll(all, snapshot), order) && IsRun(GenAll(all, snapshot), order, states)
    requires DiffersOnlyIn(Locs(items), snapshot, states[0])
    ensures AtSnapshot(snapshot, states[|order|])
  {
    var undo := Undo(items, snapshot);
    UndoTouchesTheSame(items, snapshot);
    SameSetsOnePass(GenAll(items, snapshot), GenAll(undo, snapshot));
    UndoLocs(items, snapshot);
    SetUpReachesTarget(undo, snapshot, all, order, states);
    forall l | Settable(l)
      ensures states[|order|](l) == snapshot(l)
    {
      if i :| 0 <= i < |undo| && undo[i].loc == l {
        assert states[|order|](undo[i].loc) == undo[i].value;
      }
    }
  }

  /**
   Revert correctness, for every test case and every schedule: all runs from states that differ from the snapshot only
   in the test case's locations end at the snapshot, if and only if one repair pass was enough for the set-up.
   */
  lemma {:induction false} RevertCorrectExactlyWhen(items: seq<Item>, snapshot: State, all: seq<Item>, order: seq<nat>)
    requires ValidItems(items) && IsComplete(Undo(items, snapshot), snapshot, all)
    requires IsSchedule(GenAll(all, snapshot), order)
    ensures (forall states |
               IsRun(GenAll(all, snapshot), order, states) && DiffersOnlyIn(Locs(items), snapshot, states[0]) ::
               AtSnapshot(snapshot, states[|order|]))
            <==> OnePassSuffices(GenAll(items, snapshot))
  {
    var undo := Undo(items, snapshot);
    if OnePassSuffices(GenAll(items, snapshot)) {
      forall states | IsRun(GenAll(all, snapshot), order, states) && DiffersOnlyIn(Locs(items), snapshot, states[0])
        ensures AtSnapshot(snapshot, states[|order|])
      {
        RevertReachesSnapshot(items, snapshot, all, order, states);
      }
    } else {
      UndoTouchesTheSame(items, snapshot);
      SameSetsOnePass(GenAll(items, snapshot), GenAll(undo, snapshot));
      var states := SetUpMissesTarget(undo, snapshot, all, order);
      if AtSnapshot(snapshot, states[|order|]) {
        SnapshotIsTarget(items, snapshot, states[|order|]);
      }
      assert DiffersOnlyIn(Locs(items), snapshot, states[0]);
    }
  }

  lemma {:induction false} SnapshotIsTarget(items: seq<Item>, snapshot: State, s: State)
    requires ValidItems(items) && AtSnapshot(snapshot, s)
    ensures AtTarget(Undo(items, snapshot), snapshot, s)
  {
    UndoTouchesTheSame(items, snapshot);
  }

  // ---------------------------------------------------------------------------------------------
  // The compiled program
  // ---------------------------------------------------------------------------------------------

  function InOrder(gs: seq<Gadget>, order: seq<nat>): (r: seq<Gadget>)
    requires forall k | 0 <= k < |order| :: order[k] < |gs|
    ensures |r| == |order|
    ensures forall k | 0 <= k < |order| :: r[k] == gs[order[k]]
  {
    seq(|order|, k requires 0 <= k < |order| => gs[order[k]])
  }

  lemma {:induction false} ChangedLocs(items: seq<Item>, snapshot: State, l: Loc)
    requires ValidItems(items)
    ensures l in Locs(Changed(items, snapshot)) <==>
            exists k :: 0 <= k < |items| && items[k].loc == l && items[k].value != snapshot(l)
  {
    var changed := Changed(items, snapshot);
    ChangedItems(items, snapshot);
    if i :| 0 <= i < |changed| && changed[i].loc == l {
      assert changed[i] in changed;
    }
    if k :| 0 <= k < |items| && items[k].loc == l && items[k].value != snapshot(l) {
      assert items[k] in changed;
    }
  }

  /** Items at their snapshot values make no difference to where the set-up is to lead. */
  lemma {:induction false} ChangedTargetIsTarget(items: seq<Item>, snapshot: State, s: State)
    requires ValidItems(items)
    ensures AtTarget(Changed(items, snapshot), snapshot, s) <==> AtTarget(items, snapshot, s)
  {
    var changed := Changed(items, snapshot);
    ChangedItems(items, snapshot);
    forall l
      ensures l in Locs(changed) <==> exists k :: 0 <= k < |items| && items[k].loc == l && items[k].value != snapshot(l)
    {
      ChangedLocs(items, snapshot, l);
    }
    if AtTarget(changed, snapshot, s) {
      TargetOfItems(items, changed, snapshot, s);
    }
    if AtTarget(items, snapshot, s) {
      TargetOfChanged(items, changed, snapshot, s);
    }
  }

  /** The locations of `changed` are those of the items whose value is not the snapshot's. */
  ghost predicate HoldsChanges(items: seq<Item>, changed: seq<Item>, snapshot: State) {
    && (forall item :: item in changed <==> item in items && item.value != snapshot(item.loc))
    && (forall l :: l in Locs(changed) <==>
                    exists k :: 0 <= k < |items| && items[k].loc == l && items[k].value != snapshot(l))
  }

  lemma {:induction false} TargetOfItems(items: seq<Item>, changed: seq<Item>, snapshot: State, s: State)
    requires ValidItems(items) && HoldsChanges(items, changed, snapshot) && AtTarget(changed, snapshot, s)
    ensures AtTarget(items, snapshot, s)
  {
    forall k | 0 <= k < |items|
      ensures s(items[k].loc) == items[k].value
    {
      if items[k] in changed {
        var i :| 0 <= i < |changed| && changed[i] == items[k];
        assert s(changed[i].loc) == changed[i].value;
      } else {
        assert items[k] in items && items[k].loc !in Locs(changed);
      }
    }
  }

  lemma {:induction false} TargetOfChanged(items: seq<Item>, changed: seq<Item>, snapshot: State, s: State)
    requires ValidItems(items) && HoldsChanges(items, changed, snapshot) && AtTarget(items, snapshot, s)
    ensures AtTarget(changed, snapshot, s)
  {
    forall i | 0 <= i < |changed|
      ensures s(changed[i].loc) == changed[i].value
    {
      assert changed[i] in changed;
      var k :| 0 <= k < |items| && items[k] == changed[i];
      assert s(items[k].loc) == items[k].value;
    }
    forall l | Settable(l) && l !in Locs(changed)
      ensures s(l) == snapshot(l)
    {
      if k :| 0 <= k < |items| && items[k].loc == l {
        assert s(items[k].loc) == items[k].value;
      }
    }
  }

  /** The program takes the snapshot to the test-case state, whatever it clobbers on the way. */
  ghost predicate ReachesTarget(setup: seq<Gadget>, items: seq<Item>, snapshot: State) {
    forall states | RunsInOrder(setup, states) && states[0] == snapshot :: AtTarget(items, snapshot, states[|setup|])
  }

  /** The program takes every state that differs from the snapshot in the given locations only back to the snapshot. */
  ghost predicate ReturnsToSnapshot(revert: seq<Gadget>, ls: set<Loc>, snapshot: State) {
    forall states | RunsInOrder(revert, states) && DiffersOnlyIn(ls, snapshot, states[0]) ::
      AtSnapshot(snapshot, states[|revert|])
  }

  lemma {:induction false} RunsOfOrder(gs: seq<Gadget>, order: seq<nat>, states: seq<State>)
    requires forall k | 0 <= k < |order| :: order[k] < |gs|
    ensures RunsInOrder(InOrder(gs, order), states) <==> IsRun(gs, order, states)
  {
  }

  lemma {:induction false} SetUpExactly(items: seq<Item>, snapshot: State, all: seq<Item>, order: seq<nat>,
      setup: seq<Gadget>)
    requires ValidItems(items) && ValidItems(Changed(items, snapshot))
    requires IsComplete(Changed(items, snapshot), snapshot, all) && IsSchedule(GenAll(all, snapshot), order)
    requires setup == InOrder(GenAll(all, snapshot), order)
    ensures ReachesTarget(setup, items, snapshot) <==> ItemsSuffice(Changed(items, snapshot), snapshot)
  {
    var changed, gs := Changed(items, snapshot), GenAll(all, snapshot);
    SetUpCorrectExactlyWhen(changed, snapshot, all, order);
    OnePassExactly(changed, snapshot);
    forall states
      ensures RunsInOrder(setup, states) <==> IsRun(gs, order, states)
      ensures states != [] ==>
                (AtTarget(changed, snapshot, states[|states| - 1]) <==> AtTarget(items, snapshot, states[|states| - 1]))
    {
      RunsOfOrder(gs, order, states);
      if states != [] {
        ChangedTargetIsTarget(items, snapshot, states[|states| - 1]);
      }
    }
  }

  lemma {:induction false} RevertExactly(items: seq<Item>, snapshot: State, all: seq<Item>, order: seq<nat>,
      revert: seq<Gadget>)
    requires ValidItems(items) && IsComplete(Undo(items, snapshot), snapshot, all)
    requires IsSchedule(GenAll(all, snapshot), order) && revert == InOrder(GenAll(all, snapshot), order)
    ensures ReturnsToSnapshot(revert, Locs(items), snapshot) <==> ItemsSuffice(items, snapshot)
  {
    var gs := GenAll(all, snapshot);
    RevertCorrectExactlyWhen(items, snapshot, all, order);
    OnePassExactly(items, snapshot);
    forall states
      ensures RunsInOrder(revert, states) <==> IsRun(gs, order, states)
    {
      RunsOfOrder(gs, order, states);
    }
  }

  /**
   From a test case to two straight-line programs.  The first takes the snapshot to the test-case state, and the second
   takes every state that differs from the snapshot only where the test case does back to the snapshot, each of them if
   and only if what the test case sets meets the condition.
   */
  method CompileTestCase(items: seq<Item>, snapshot: State) returns (setup: seq<Gadget>, revert: seq<Gadget>)
    requires ValidItems(items)
    ensures ValidItems(Changed(items, snapshot))
    ensures ReachesTarget(setup, items, snapshot) <==> ItemsSuffice(Changed(items, snapshot), snapshot)
    ensures ReturnsToSnapshot(revert, Locs(Changed(items, snapshot)), snapshot) <==>
            ItemsSuffice(Changed(items, snapshot), snapshot)
  {
    var param, undo, done := GenParam(items, snapshot);
    ghost var changed := Changed(items, snapshot);
    var gs, order, all := Prepare(changed, param, done, snapshot);
    setup := InOrder(gs, order);
    SetUpExactly(items, snapshot, all, order, setup);
    UndoLocs(changed, snapshot);
    var gs', order', all' := Prepare(Undo(changed, snapshot), undo, done, snapshot);
    revert := InOrder(gs', order');
    RevertExactly(changed, snapshot, all', order', revert);
  }
}

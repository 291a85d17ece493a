/**
 The repair pass after gadget generation, and what the complete set-up and its undoing do to the machine.
 */
module StableSetUp {
  import opened Sequences
  import opened Wrappers
  import opened Gadgets
  import opened Schedule
  import opened SetUp
  import opened SetUpOrder

  // ---------------------------------------------------------------------------------------------
  // The repair pass
  // ---------------------------------------------------------------------------------------------

  ghost predicate Lost(gs: seq<Gadget>, l: Loc) {
    KilledIn(gs, l) && !DefinedIn(gs, l)
  }

  /** `extra` lists the lost locations, each once, with their snapshot values. */
  ghost predicate IsRepair(gs: seq<Gadget>, snapshot: State, extra: seq<Item>) {
    && ValidItems(extra)
    && (forall l :: l in Locs(extra) <==> Lost(gs, l))
    && (forall i | 0 <= i < |extra| :: extra[i].value == snapshot(extra[i].loc) && extra[i].symbol == Plain)
  }

  ghost predicate KillsRegistersOnly(gs: seq<Gadget>) {
    forall i, l | 0 <= i < |gs| && l in gs[i].kill :: l.Reg?
  }

  method KilledAndDefined(gs: seq<Gadget>) returns (killed: set<Loc>, defined: set<Loc>)
    ensures forall l :: l in killed <==> KilledIn(gs, l)
    ensures forall l :: l in defined <==> DefinedIn(gs, l)
  {
    killed, defined := {}, {};
    for k := 0 to |gs|
      invariant forall l :: l in killed <==> exists i :: 0 <= i < k && l in gs[i].kill
      invariant forall l :: l in defined <==> exists i :: 0 <= i < k && l in gs[i].define
    {
      killed := killed + gs[k].kill;
      defined := defined + gs[k].define;
    }
  }

  /** The repair with the locations of `todo` still missing. */
  ghost predicate RepairSoFar(gs: seq<Gadget>, snapshot: State, extra: seq<Item>, todo: set<Loc>) {
    && ValidItems(extra)
    && Locs(extra) !! todo
    && (forall l :: l in Locs(extra) + todo <==> Lost(gs, l))
    && (forall i | 0 <= i < |extra| :: extra[i].value == snapshot(extra[i].loc) && extra[i].symbol == Plain)
  }

  lemma {:induction false} RepairOneMore(gs: seq<Gadget>, snapshot: State, extra: seq<Item>, todo: set<Loc>, item: Item)
    requires RepairSoFar(gs, snapshot, extra, todo)
    requires item.loc in todo && Settable(item.loc) && item.value == snapshot(item.loc) && item.symbol == Plain
    ensures RepairSoFar(gs, snapshot, extra + [item], todo - {item.loc})
    ensures Locs(extra + [item]) == Locs(extra) + {item.loc}
    ensures GenAll(extra + [item], snapshot) == GenAll(extra, snapshot) + GenGadget(item, snapshot)
  {
    var extra' := extra + [item];
    assert extra'[..|extra'| - 1] == extra;
    LocsOfLast(extra');
    assert forall i | 0 <= i < |extra| :: extra[i].loc in Locs(extra);
  }

  /** Where the pass stands: some repairs are made, the locations of `todo` are still missing. */
  ghost predicate Repairing(gs: seq<Gadget>, done: set<Loc>, snapshot: State, extra: seq<Item>, todo: set<Loc>,
      stable: seq<Gadget>)
  {
    && RepairSoFar(gs, snapshot, extra, todo)
    && stable == gs + GenAll(extra, snapshot)
    && done !! Locs(extra)
  }

  lemma {:induction false} RepairStarts(gs: seq<Gadget>, done: set<Loc>, snapshot: State, todo: set<Loc>)
    requires forall l :: l in todo <==> Lost(gs, l)
    ensures Repairing(gs, done, snapshot, [], todo, gs)
  {
    assert Locs([]) == {};
    assert gs + GenAll([], snapshot) == gs;
  }

  lemma {:induction false} RepairStep(gs: seq<Gadget>, done: set<Loc>, snapshot: State, extra: seq<Item>,
      todo: set<Loc>, stable: seq<Gadget>, item: Item)
    requires Repairing(gs, done, snapshot, extra, todo, stable)
    requires item.loc in todo && item.loc !in done && Settable(item.loc)
    requires item.value == snapshot(item.loc) && item.symbol == Plain
    ensures Repairing(gs, done, snapshot, extra + [item], todo - {item.loc}, stable + GenGadget(item, snapshot))
  {
    RepairOneMore(gs, snapshot, extra, todo, item);
    ConcatIsAssociative(gs, GenAll(extra, snapshot), GenGadget(item, snapshot));
  }

  lemma {:induction false} TodoIsRegister(gs: seq<Gadget>, snapshot: State, extra: seq<Item>, todo: set<Loc>, l: Loc)
    requires KillsRegistersOnly(gs) && RepairSoFar(gs, snapshot, extra, todo) && l in todo
    ensures Lost(gs, l) && l.Reg?
  {
    assert l in Locs(extra) + todo;
  }

  lemma {:induction false} RepairEnds(gs: seq<Gadget>, done: set<Loc>, snapshot: State, extra: seq<Item>,
      stable: seq<Gadget>)
    requires Repairing(gs, done, snapshot, extra, {}, stable)
    ensures IsRepair(gs, snapshot, extra) && stable == gs + GenAll(extra, snapshot)
    ensures forall l | l in done :: !Lost(gs, l)
  {
    assert Locs(extra) + {} == Locs(extra);
  }

  /**
   One pass over the list: gadgets for everything killed but not defined are appended.  The pass
   stops at its own assertion when a lost location is one the test case sets.
   */
  method MakeStable(gs: seq<Gadget>, done: set<Loc>, snapshot: State)
    returns (r: Option<seq<Gadget>>, ghost extra: seq<Item>)
    requires KillsRegistersOnly(gs)
    ensures r.None? <==> exists l :: l in done && Lost(gs, l)
    ensures r.Some? ==> IsRepair(gs, snapshot, extra) && r.value == gs + GenAll(extra, snapshot)
  {
    var killed, defined := KilledAndDefined(gs);
    var todo := killed - defined;
    var stable := gs;
    extra := [];
    RepairStarts(gs, done, snapshot, todo);
    while todo != {}
      invariant Repairing(gs, done, snapshot, extra, todo, stable)
      decreases |todo|
    {
      var rm :| rm in todo;
      TodoIsRegister(gs, snapshot, extra, todo, rm);
      if rm in done {
        return None, extra;
      }
      var item := Item(rm, snapshot(rm), Plain);
      RepairStep(gs, done, snapshot, extra, todo, stable, item);
      stable := stable + GenGadget(item, snapshot);
      extra := extra + [item];
      todo := todo - {rm};
    }
    RepairEnds(gs, done, snapshot, extra, stable);
    r := Some(stable);
  }

  // ---------------------------------------------------------------------------------------------
  // Compiling a test case
  // ---------------------------------------------------------------------------------------------

  /** The items that differ from the snapshot; only those get gadgets. */
  function Changed(items: seq<Item>, snapshot: State): seq<Item> {
    if items == [] then []
    else
      var last := items[|items| - 1];
      Changed(items[..|items| - 1], snapshot) + (if last.value != snapshot(last.loc) then [last] else [])
  }

  lemma {:induction false} ChangedItems(items: seq<Item>, snapshot: State)
    requires ValidItems(items)
    ensures ValidItems(Changed(items, snapshot))
    ensures forall item :: item in Changed(items, snapshot) <==> item in items && item.value != snapshot(item.loc)
  {
    if items != [] {
      ChangedItems(items[..|items| - 1], snapshot);
      var init, last := items[..|items| - 1], items[|items| - 1];
      var c := Changed(init, snapshot);
      assert items == init + [last];
      forall i | 0 <= i < |c| ensures c[i].loc != last.loc {
        assert c[i] in init;
      }
    }
  }

  /** The same locations with their snapshot values. */
  function Undo(items: seq<Item>, snapshot: State): (r: seq<Item>)
    ensures |r| == |items|
    ensures forall i | 0 <= i < |r| :: r[i] == items[i].(value := snapshot(items[i].loc))
  {
    seq(|items|, i requires 0 <= i < |items| => items[i].(value := snapshot(items[i].loc)))
  }

  lemma {:induction false} GenAllOfConcat(a: seq<Item>, b: seq<Item>, snapshot: State)
    requires forall i | 0 <= i < |a| :: Settable(a[i].loc)
    requires forall i | 0 <= i < |b| :: Settable(b[i].loc)
    ensures forall i | 0 <= i < |a + b| :: Settable((a + b)[i].loc)
    ensures GenAll(a + b, snapshot) == GenAll(a, snapshot) + GenAll(b, snapshot)
  {
    if b == [] {
      assert a + b == a;
    } else {
      var init, last := b[..|b| - 1], b[|b| - 1];
      GenAllOfConcat(a, init, snapshot);
      assert (a + b)[..|a + b| - 1] == a + init;
      ConcatIsAssociative(GenAll(a, snapshot), GenAll(init, snapshot), GenGadget(last, snapshot));
    }
  }

  lemma {:induction false} KillsAreRegisters(items: seq<Item>, snapshot: State)
    requires ValidItems(items)
    ensures KillsRegistersOnly(GenAll(items, snapshot))
  {
    GadgetsStemFromItems(items, snapshot);
    var gs := GenAll(items, snapshot);
    forall i, l | 0 <= i < |gs| && l in gs[i].kill
      ensures l.Reg?
    {
      assert gs[i] in gs;
    }
  }

  /** `all` is the list of items that the stable gadget list for `items` serves. */
  ghost predicate IsComplete(items: seq<Item>, snapshot: State, all: seq<Item>) {
    && ValidItems(items) && ValidItems(all)
    && exists extra :: all == items + extra && IsRepair(GenAll(items, snapshot), snapshot, extra)
  }

  lemma {:induction false} RepairIsComplete(items: seq<Item>, snapshot: State, extra: seq<Item>)
    requires ValidItems(items) && IsRepair(GenAll(items, snapshot), snapshot, extra)
    ensures IsComplete(items, snapshot, items + extra)
    ensures GenAll(items, snapshot) + GenAll(extra, snapshot) == GenAll(items + extra, snapshot)
  {
    var all := items + extra;
    forall i, j | 0 <= i < |items| <= j < |all|
      ensures all[i].loc != all[j].loc
    {
      assert all[j] == extra[j - |items|] && extra[j - |items|].loc in Locs(extra);
      ItemsAreDefined(items, snapshot, all[i].loc);
      assert items[i].loc in Locs(items);
    }
    GenAllOfConcat(items, extra, snapshot);
  }

  /** The gadgets of a test case and those that undo it, generated item by item. */
  method GenParam(items: seq<Item>, snapshot: State) returns (param: seq<Gadget>, revert: seq<Gadget>, done: set<Loc>)
    requires ValidItems(items)
    ensures ValidItems(Changed(items, snapshot)) && ValidItems(Undo(Changed(items, snapshot), snapshot))
    ensures param == GenAll(Changed(items, snapshot), snapshot)
    ensures revert == GenAll(Undo(Changed(items, snapshot), snapshot), snapshot)
    ensures done == Locs(Changed(items, snapshot))
    ensures forall l :: KilledIn(param, l) <==> l.Reg? && LostBy(Changed(items, snapshot), l.r, snapshot)
  {
    param, revert, done := [], [], {};
    for k := 0 to |items|
      invariant Generated(Changed(items[..k], snapshot), snapshot, param, revert, done)
    {
      var rm := items[k];
      ChangedOneMore(items, k, snapshot);
      if rm.value != snapshot(rm.loc) {
        GeneratedOneMore(Changed(items[..k], snapshot), rm, snapshot, param, revert, done);
        param := param + GenGadget(rm, snapshot);
        revert := revert + GenGadget(rm.(value := snapshot(rm.loc)), snapshot);
        done := done + {rm.loc};
      }
    }
    assert items[..|items|] == items;
    forall l: Loc
      ensures KilledIn(param, l) <==> l.Reg? && LostBy(Changed(items, snapshot), l.r, snapshot)
    {
      KilledExactly(Changed(items, snapshot), snapshot, l);
    }
  }

  /** What has been generated for a list of items. */
  ghost predicate Generated(items: seq<Item>, snapshot: State, param: seq<Gadget>, revert: seq<Gadget>,
      done: set<Loc>)
  {
    && ValidItems(items) && ValidItems(Undo(items, snapshot))
    && param == GenAll(items, snapshot)
    && revert == GenAll(Undo(items, snapshot), snapshot)
    && done == Locs(items)
  }

  lemma {:induction false} ChangedOneMore(items: seq<Item>, k: nat, snapshot: State)
    requires ValidItems(items) && k < |items|
    ensures var before, rm := Changed(items[..k], snapshot), items[k];
            && Changed(items[..k + 1], snapshot) == (if rm.value != snapshot(rm.loc) then before + [rm] else before)
            && ValidItems(Changed(items[..k + 1], snapshot)) && Settable(rm.loc)
  {
    assert items[..k + 1][..k] == items[..k];
    ChangedItems(items[..k + 1], snapshot);
  }

  lemma {:induction false} GeneratedOneMore(items: seq<Item>, item: Item, snapshot: State, param: seq<Gadget>,
      revert: seq<Gadget>, done: set<Loc>)
    requires Generated(items, snapshot, param, revert, done) && ValidItems(items + [item]) && Settable(item.loc)
    ensures Generated(items + [item], snapshot, param + GenGadget(item, snapshot),
                      revert + GenGadget(item.(value := snapshot(item.loc)), snapshot), done + {item.loc})
  {
    var undo := item.(value := snapshot(item.loc));
    assert Undo(items + [item], snapshot) == Undo(items, snapshot) + [undo];
    UndoIsValid(items + [item], snapshot);
    OneMoreGadget(items, item, snapshot);
    OneMoreGadget(Undo(items, snapshot), undo, snapshot);
    assert (items + [item])[..|items|] == items;
    LocsOfLast(items + [item]);
  }

  lemma {:induction false} UndoIsValid(items: seq<Item>, snapshot: State)
    requires ValidItems(items)
    ensures ValidItems(Undo(items, snapshot))
  {
  }

  lemma {:induction false} OneMoreGadget(items: seq<Item>, item: Item, snapshot: State)
    requires ValidItems(items + [item]) && ValidItems(items) && Settable(item.loc)
    ensures GenAll(items + [item], snapshot) == GenAll(items, snapshot) + GenGadget(item, snapshot)
  {
    assert (items + [item])[..|items|] == items;
  }

  /**
   Set-up gadgets for the given items, repaired and scheduled.  For every list of distinct registers
   and cells the repair pass passes its assertion and the sort finds a schedule.
   */
  method Prepare(ghost items: seq<Item>, param: seq<Gadget>, done: set<Loc>, snapshot: State)
    returns (gs: seq<Gadget>, order: seq<nat>, ghost all: seq<Item>)
    requires ValidItems(items) && param == GenAll(items, snapshot) && done == Locs(items)
    ensures IsComplete(items, snapshot, all) && gs == GenAll(all, snapshot)
    ensures IsSchedule(gs, order)
    ensures |AllKinds(all)| == |gs| && OrderedByKinds(AllKinds(all), order, snapshot)
  {
    KillsAreRegisters(items, snapshot);
    forall l | l in done
      ensures !Lost(param, l)
    {
      ItemsAreDefined(items, snapshot, l);
    }
    var stable, extra := MakeStable(param, done, snapshot);
    all := items + extra;
    RepairIsComplete(items, snapshot, extra);
    gs := stable.value;
    GeneratedListIsWellFormed(all, snapshot);
    var sorted, graph := SortGadget(gs);
    order := sorted.value;
    ScheduledExactly(all, snapshot, order);
  }

  // ---------------------------------------------------------------------------------------------
  // What the set-up does
  // ---------------------------------------------------------------------------------------------

  /** A run gives every item its value and leaves alone what is neither an item nor killed. */
  lemma {:induction false} RunSetsItems(all: seq<Item>, snapshot: State, order: seq<nat>, states: seq<State>)
    requires ValidItems(all)
    requires var gs := GenAll(all, snapshot); IsSchedule(gs, order) && IsRun(gs, order, states)
    ensures forall k | 0 <= k < |all| :: states[|order|](all[k].loc) == all[k].value
    ensures forall l | Settable(l) && l !in Locs(all) && !KilledIn(GenAll(all, snapshot), l) ::
              states[|order|](l) == states[0](l)
  {
    var gs := GenAll(all, snapshot);
    GeneratedListIsWellFormed(all, snapshot);
    GadgetsStemFromItems(all, snapshot);
    forall k | 0 <= k < |all|
      ensures states[|order|](all[k].loc) == all[k].value
    {
      var l := all[k].loc;
      ItemsAreDefined(all, snapshot, l);
      assert l in Locs(all);
      var i :| 0 <= i < |gs| && l in gs[i].define;
      assert i in order;
      var p :| 0 <= p < |order| && order[p] == i;
      FinalValue(gs, order, states, p, l);
      assert gs[i] in gs;
      var m :| 0 <= m < |all| && Sets(gs[i], all[m]);
      assert m == k;
    }
    forall l | Settable(l) && l !in Locs(all) && !KilledIn(gs, l)
      ensures states[|order|](l) == states[0](l)
    {
      ItemsAreDefined(all, snapshot, l);
      forall m | 0 <= m < |order| ensures !gs[order[m]].Touches(l) {
      }
      UntouchedValueStays(gs, order, states, |order|, l);
    }
  }

  /** What the set-up is for: test-case values where the test case gives any, the snapshot elsewhere. */
  ghost predicate AtTarget(items: seq<Item>, snapshot: State, s: State) {
    && (forall k | 0 <= k < |items| :: s(items[k].loc) == items[k].value)
    && (forall l | Settable(l) && l !in Locs(items) :: s(l) == snapshot(l))
  }

  ghost predicate Covered(gs: seq<Gadget>, r: Register) {
    KilledIn(gs, Reg(r)) || DefinedIn(gs, Reg(r))
  }

  /**
   The condition under which a single repair pass is enough: reloading a lost segment register
   clobbers EAX, reloading CS also EBX and EFLAGS, so these must already be among the registers the
   pass saw.
   */
  ghost predicate OnePassSuffices(gs: seq<Gadget>) {
    && ((exists r :: r in SEGMENTS && Lost(gs, Reg(r))) ==> Covered(gs, EAX))
    && (Lost(gs, Reg(CS)) ==> Covered(gs, EBX) && Covered(gs, EFLAGS))
  }

  ghost predicate NothingLost(gs: seq<Gadget>) {
    forall l :: !Lost(gs, l)
  }

  /** What reloading one lost register clobbers. */
  lemma {:induction false} RepairKills(item: Item, snapshot: State, l: Loc)
    requires item.loc.Reg? && !item.loc.r.CR?
    ensures KilledIn(GenGadget(item, snapshot), l) <==>
            && item.loc.r in SEGMENTS
            && (l == Reg(EAX) || (item.loc.r == CS && (l == Reg(EBX) || l == Reg(EFLAGS))))
  {
    var r := item.loc.r;
    var gs := GenGadget(item, snapshot);
    if r in SEGMENTS {
      assert r == CS ==> gs[0].kill == {Reg(EAX), Reg(EBX), Reg(EFLAGS)} && gs[1].kill == {};
      assert r != CS ==> gs[0].kill == {Reg(EAX)};
    }
  }

  /** What the whole repair clobbers. */
  lemma {:induction false} RepairsKill(extra: seq<Item>, snapshot: State, l: Loc)
    requires ValidItems(extra) && (forall i | 0 <= i < |extra| :: extra[i].loc.Reg? && !extra[i].loc.r.CR?)
    ensures KilledIn(GenAll(extra, snapshot), l) <==>
            || (l == Reg(EAX) && exists r :: r in SEGMENTS && Reg(r) in Locs(extra))
            || ((l == Reg(EBX) || l == Reg(EFLAGS)) && Reg(CS) in Locs(extra))
  {
    if extra != [] {
      var init, last := extra[..|extra| - 1], extra[|extra| - 1];
      RepairsKill(init, snapshot, l);
      RepairKills(last, snapshot, l);
      KilledInEither(GenAll(init, snapshot), GenGadget(last, snapshot), l);
      LocsOfLast(extra);
    }
  }

  /** The only things set-up gadgets kill. */
  lemma {:induction false} LostRegisters(items: seq<Item>, snapshot: State, l: Loc)
    requires ValidItems(items) && KilledIn(GenAll(items, snapshot), l)
    ensures l.Reg? && (l.r in SEGMENTS || l.r == EAX || l.r == EBX || l.r == EFLAGS)
  {
    GadgetsStemFromItems(items, snapshot);
    var gs := GenAll(items, snapshot);
    var i :| 0 <= i < |gs| && l in gs[i].kill;
    assert gs[i] in gs;
    var k :| 0 <= k < |items| && Sets(gs[i], items[k]);
    assert KillRank(l) >= 0;
  }

  /** Does the repair clobber the register? */
  ghost predicate RepairClobbers(gs: seq<Gadget>, r: Register) {
    || (r == EAX && exists seg :: seg in SEGMENTS && Lost(gs, Reg(seg)))
    || ((r == EBX || r == EFLAGS) && Lost(gs, Reg(CS)))
  }

  lemma {:induction false} RepairsAreRegisters(items: seq<Item>, snapshot: State, extra: seq<Item>)
    requires ValidItems(items) && IsRepair(GenAll(items, snapshot), snapshot, extra)
    ensures forall i | 0 <= i < |extra| :: extra[i].loc.Reg? && !extra[i].loc.r.CR?
  {
    forall i | 0 <= i < |extra|
      ensures extra[i].loc.Reg? && !extra[i].loc.r.CR?
    {
      assert extra[i].loc in Locs(extra);
      LostRegisters(items, snapshot, extra[i].loc);
    }
  }

  lemma {:induction false} LostAfterRepair(items: seq<Item>, snapshot: State, extra: seq<Item>, l: Loc)
    requires ValidItems(items) && IsRepair(GenAll(items, snapshot), snapshot, extra)
    ensures var gs := GenAll(items, snapshot);
            Lost(GenAll(items + extra, snapshot), l) <==> l.Reg? && RepairClobbers(gs, l.r) && !Covered(gs, l.r)
  {
    var gs, more := GenAll(items, snapshot), GenAll(extra, snapshot);
    RepairIsComplete(items, snapshot, extra);
    RepairsAreRegisters(items, snapshot, extra);
    RepairsKill(extra, snapshot, l);
    KilledInEither(gs, more, l);
    DefinedInEither(gs, more, l);
    if KilledIn(gs, l) {
      LostRegisters(items, snapshot, l);
    }
    if l.Reg? {
      ItemsAreDefined(extra, snapshot, l);
    }
  }

  /** After one pass nothing is lost, exactly when the condition held before it. */
  lemma {:induction false} OnePassIsEnough(items: seq<Item>, snapshot: State, extra: seq<Item>)
    requires ValidItems(items) && IsRepair(GenAll(items, snapshot), snapshot, extra)
    ensures NothingLost(GenAll(items + extra, snapshot)) <==> OnePassSuffices(GenAll(items, snapshot))
  {
    var gs, stable := GenAll(items, snapshot), GenAll(items + extra, snapshot);
    forall l: Loc
      ensures Lost(stable, l) <==> l.Reg? && RepairClobbers(gs, l.r) && !Covered(gs, l.r)
    {
      LostAfterRepair(items, snapshot, extra, l);
    }
    OnePassMeans(gs, stable);
  }

  lemma {:induction false} OnePassMeans(gs: seq<Gadget>, stable: seq<Gadget>)
    requires forall l: Loc :: Lost(stable, l) <==> l.Reg? && RepairClobbers(gs, l.r) && !Covered(gs, l.r)
    ensures NothingLost(stable) <==> OnePassSuffices(gs)
  {
    if !OnePassSuffices(gs) {
      assert Lost(stable, Reg(EAX)) || Lost(stable, Reg(EBX)) || Lost(stable, Reg(EFLAGS));
    }
  }

  // ---------------------------------------------------------------------------------------------
  // The condition, from the items alone
  // ---------------------------------------------------------------------------------------------

  /** Setting the items changes the register, or loses it. */
  ghost predicate TouchedBy(items: seq<Item>, r: Register, snapshot: State) {
    Reg(r) in Locs(items) || LostBy(items, r, snapshot)
  }

  /** The descriptor of a segment register is changed, and the register is not set. */
  ghost predicate ReloadedBy(items: seq<Item>, r: Register, snapshot: State) {
    LostBy(items, r, snapshot) && Reg(r) !in Locs(items)
  }

  ghost predicate ItemsSuffice(items: seq<Item>, snapshot: State) {
    && (forall r | r in {CS, DS, SS, ES, FS, GS} && ReloadedBy(items, r, snapshot) :: TouchedBy(items, EAX, snapshot))
    && (ReloadedBy(items, CS, snapshot) ==> TouchedBy(items, EBX, snapshot) && TouchedBy(items, EFLAGS, snapshot))
  }

  lemma {:induction false} OnePassExactly(items: seq<Item>, snapshot: State)
    requires ValidItems(items)
    ensures OnePassSuffices(GenAll(items, snapshot)) <==> ItemsSuffice(items, snapshot)
  {
    var gs := GenAll(items, snapshot);
    forall r: Register
      ensures Lost(gs, Reg(r)) <==> ReloadedBy(items, r, snapshot)
      ensures Covered(gs, r) <==> TouchedBy(items, r, snapshot)
    {
      KilledExactly(items, snapshot, Reg(r));
      ItemsAreDefined(items, snapshot, Reg(r));
    }
  }
}

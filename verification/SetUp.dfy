/**
 Setting up a test case: the gadgets that give registers and memory cells their test-case values, and why they can
 always be scheduled.
 */
module SetUp {
  import opened Gadgets
  import opened Schedule
  import opened TopologicalSort

  /** What a memory cell holds, as its label says. */
  datatype Symbol = Plain | PdeEntry | PteEntry | GdtEntry(index: nat)

  /** A register or memory cell and the value it is to get. */
  datatype Item = Item(loc: Loc, value: Value, symbol: Symbol)

  predicate Settable(l: Loc) {
    l.Reg? || l.Cell?
  }

  const SEGMENTS: set<Register> := {DS, CS, SS, ES, FS, GS}

  /** A gadget that stores `value` in `loc` and otherwise only sets shared resources. */
  function Setter(loc: Loc, value: Value, shared: set<Loc>, kill: set<Loc>, use: set<Loc>): Gadget {
    Gadget({loc} + shared, kill, use, {}, (s: State, l: Loc) => if l == loc then value else 0)
  }

  function GenSetReg(r: Register, value: Value): seq<Gadget> {
    [Setter(Reg(r), value, {}, {}, if r == EFLAGS then {Shared(StackStar)} else {})]
  }

  /** CS is loaded by a long jump whose target another gadget patches first. */
  function GenSetSreg(r: Register, value: Value): seq<Gadget> {
    if r == CS then
      [Gadget({}, {Reg(EAX), Reg(EBX), Reg(EFLAGS)},
              {Shared(MemStar), Shared(StackStar), Shared(PatchLjmpTarget)}, {}, (s: State, l: Loc) => 0),
       Setter(Reg(CS), value, {Shared(PatchLjmpTarget)}, {}, {})]
    else
      [Setter(Reg(r), value,
              if r == DS then {Shared(MemStar)} else if r == SS then {Shared(StackStar)} else {},
              {Reg(EAX)}, {})]
  }

  function GenSetCreg(r: Register, value: Value): seq<Gadget> {
    [Setter(Reg(r), value, {}, {Reg(EAX)}, {})]
  }

  /** The segment registers whose selector picks the given descriptor. */
  function SegmentsUsing(index: nat, snapshot: State): set<Loc> {
    set r | r in SEGMENTS && snapshot(Reg(r)) / 8 == index :: Reg(r)
  }

  function GenSetMem(addr: nat, value: Value, symbol: Symbol, snapshot: State): seq<Gadget> {
    match symbol
    case PdeEntry => [Setter(Cell(addr), value, {Shared(Pde)}, {Reg(EAX)}, {Shared(MemStar)})]
    case PteEntry => [Setter(Cell(addr), value, {Shared(Pte)}, {Reg(EAX)}, {Shared(MemStar)})]
    case GdtEntry(index) =>
      [Setter(Cell(addr), value, {Shared(Gdt)}, SegmentsUsing(index, snapshot),
              {Shared(MemStar), Shared(Pde), Shared(Pte)})]
    case Plain =>
      [Setter(Cell(addr), value, {}, {}, {Shared(MemStar), Shared(Pde), Shared(Pte), Shared(Gdt)})]
  }

  function GenGadget(item: Item, snapshot: State): seq<Gadget>
    requires Settable(item.loc)
  {
    match item.loc
    case Cell(addr) => GenSetMem(addr, item.value, item.symbol, snapshot)
    case Reg(r) =>
      if r in SEGMENTS then GenSetSreg(r, item.value)
      else if r.CR? then GenSetCreg(r, item.value)
      else GenSetReg(r, item.value)
  }

  /** The gadgets for a list of items, one item after the other. */
  function GenAll(items: seq<Item>, snapshot: State): seq<Gadget>
    requires forall i | 0 <= i < |items| :: Settable(items[i].loc)
  {
    if items == [] then []
    else GenAll(items[..|items| - 1], snapshot) + GenGadget(items[|items| - 1], snapshot)
  }

  // ---------------------------------------------------------------------------------------------
  // The dependencies of set-up gadgets are acyclic
  // ---------------------------------------------------------------------------------------------

  /** The place of a gadget in any schedule: cells, descriptors, page tables and patch, flags, segments, the rest. */
  function Rank(g: Gadget): nat {
    if Shared(MemStar) in g.use then
      if Shared(Gdt) in g.use then 0
      else if Shared(Pde) in g.use then 1
      else 2
    else if Shared(StackStar) in g.use then 3
    else if Reg(EAX) in g.kill then 4
    else 5
  }

  /** The highest rank of a gadget that uses, or kills, the location. */
  function UseRank(l: Loc): int {
    match l
    case Shared(MemStar) => 2
    case Shared(StackStar) => 3
    case Shared(Pde) => 1
    case Shared(Pte) => 1
    case Shared(Gdt) => 0
    case Shared(PatchLjmpTarget) => 2
    case _ => -1
  }

  function KillRank(l: Loc): int {
    match l
    case Reg(EAX) => 4
    case Reg(EBX) => 2
    case Reg(EFLAGS) => 2
    case Reg(r) => if r in SEGMENTS then 1 else -1
    case _ => -1
  }

  /** The rank of the gadgets that define the location, where it matters. */
  function DefineRank(l: Loc): nat {
    match l
    case Shared(MemStar) => 4
    case Shared(StackStar) => 4
    case Shared(Pde) => 2
    case Shared(Pte) => 2
    case Shared(Gdt) => 1
    case Reg(EFLAGS) => 3
    case Reg(r) => if r.CR? || (r in SEGMENTS && r != CS) then 4 else 5
    case Cell(_) => 0
    case _ => 5
  }

  ghost predicate RankedSets(g: Gadget) {
    && g.useAfter == {}
    && (forall l | l in g.use :: Rank(g) <= UseRank(l))
    && (forall l | l in g.kill :: Rank(g) <= KillRank(l))
    && (forall l | l in g.define :: DefineRank(l) <= Rank(g) && l != Shared(Everything))
    && (Shared(Pde) in g.define || Shared(Pte) in g.define ==> Rank(g) == 2)
  }

  lemma {:induction false} MemGadgetIsRanked(addr: nat, value: Value, symbol: Symbol, snapshot: State)
    ensures RankedSets(GenSetMem(addr, value, symbol, snapshot)[0])
  {
    var g := GenSetMem(addr, value, symbol, snapshot)[0];
    if symbol.GdtEntry? {
      assert g.kill == SegmentsUsing(symbol.index, snapshot);
    }
  }

  lemma {:induction false} SregGadgetsAreRanked(r: Register, value: Value)
    requires r in SEGMENTS
    ensures forall g | g in GenSetSreg(r, value) :: RankedSets(g)
  {
    var gs := GenSetSreg(r, value);
    if r == CS {
      assert RankedSets(gs[0]);
      assert RankedSets(gs[1]);
    } else {
      assert RankedSets(gs[0]);
    }
  }

  lemma {:induction false} SetGadgetsAreRanked(item: Item, snapshot: State)
    requires Settable(item.loc)
    ensures forall g | g in GenGadget(item, snapshot) :: RankedSets(g)
  {
    match item.loc {
      case Cell(addr) => MemGadgetIsRanked(addr, item.value, item.symbol, snapshot);
      case Reg(r) =>
        if r in SEGMENTS {
          SregGadgetsAreRanked(r, item.value);
        }
    }
  }

  /** A dependency leads from a lower to a higher rank. */
  lemma {:induction false} DependencyRaisesRank(g0: Gadget, g1: Gadget)
    requires RankedSets(g0) && RankedSets(g1)
    requires Depend(g1, g0)
    ensures Rank(g0) < Rank(g1)
  {
    if g1.define * g0.kill != {} {
      var l :| l in g1.define * g0.kill;
    } else if g0.use * g1.define != {} {
      var l :| l in g0.use * g1.define;
    } else {
      assert forall l | l in g0.use :: l.Shared?;
      assert forall l | l in g1.kill :: l.Reg?;
    }
  }

  lemma {:induction false} RankedGadgetsAreAcyclic(gs: seq<Gadget>, g: Digraph)
    requires IsDependencyGraph(gs, g) && (forall i | 0 <= i < |gs| :: RankedSets(gs[i]))
    ensures !HasCycle(g)
  {
    forall i, j | 0 <= i < |gs| && 0 <= j < |gs| && i != j && Depend(gs[j], gs[i])
      ensures Rank(gs[i]) < Rank(gs[j])
    {
      DependencyRaisesRank(gs[i], gs[j]);
    }
    RankedListIsAcyclic(gs, g, seq(|gs|, i requires 0 <= i < |gs| => Rank(gs[i])));
  }

  // ---------------------------------------------------------------------------------------------
  // Item lists and the gadgets generated for them
  // ---------------------------------------------------------------------------------------------

  ghost predicate ValidItems(items: seq<Item>) {
    && (forall i | 0 <= i < |items| :: Settable(items[i].loc))
    && (forall i, j | 0 <= i < j < |items| :: items[i].loc != items[j].loc)
  }

  ghost function Locs(items: seq<Item>): set<Loc> {
    set i | 0 <= i < |items| :: items[i].loc
  }

  /** What one gadget generated for an item may define, and with which values. */
  ghost predicate Sets(g: Gadget, item: Item) {
    && g.Disjoint() && RankedSets(g)
    && (forall l | l in g.define :: l == item.loc || l.Shared?)
    && (forall l | l in g.kill :: Settable(l))
    && (forall s: State, l | l in g.define :: g.value(s, l) == if l == item.loc then item.value else 0)
  }

  lemma {:induction false} SetterSets(item: Item, shared: set<Loc>, kill: set<Loc>, use: set<Loc>)
    requires forall l | l in shared :: l.Shared?
    requires item.loc !in kill && forall l | l in kill :: l.Reg?
    requires Settable(item.loc) && RankedSets(Setter(item.loc, item.value, shared, kill, use))
    ensures Sets(Setter(item.loc, item.value, shared, kill, use), item)
  {
  }

  lemma {:induction false} GadgetsSetTheirItem(item: Item, snapshot: State)
    requires Settable(item.loc)
    ensures var gs := GenGadget(item, snapshot);
            && 1 <= |gs| <= 2
            && (forall i | 0 <= i < |gs| :: Sets(gs[i], item))
            && item.loc in gs[|gs| - 1].define
            && (|gs| == 2 ==> gs[0].define == {})
  {
    match item.loc {
      case Cell(addr) => MemGadgetSets(item, snapshot);
      case Reg(r) =>
        if r in SEGMENTS {
          SregGadgetsSet(item, r);
        } else {
          SetGadgetsAreRanked(item, snapshot);
          var gs := GenGadget(item, snapshot);
          assert gs[0] in gs;
          SetterSets(item, {}, gs[0].kill, gs[0].use);
        }
    }
  }

  lemma {:induction false} MemGadgetSets(item: Item, snapshot: State)
    requires item.loc.Cell?
    ensures var gs := GenSetMem(item.loc.addr, item.value, item.symbol, snapshot);
            |gs| == 1 && Sets(gs[0], item) && item.loc in gs[0].define
  {
    MemGadgetIsRanked(item.loc.addr, item.value, item.symbol, snapshot);
    match item.symbol {
      case PdeEntry => SetterSets(item, {Shared(Pde)}, {Reg(EAX)}, {Shared(MemStar)});
      case PteEntry => SetterSets(item, {Shared(Pte)}, {Reg(EAX)}, {Shared(MemStar)});
      case GdtEntry(index) =>
        SetterSets(item, {Shared(Gdt)}, SegmentsUsing(index, snapshot), {Shared(MemStar), Shared(Pde), Shared(Pte)});
      case Plain => SetterSets(item, {}, {}, {Shared(MemStar), Shared(Pde), Shared(Pte), Shared(Gdt)});
    }
  }

  lemma {:induction false} SregGadgetsSet(item: Item, r: Register)
    requires r in SEGMENTS && item.loc == Reg(r)
    ensures var gs := GenSetSreg(r, item.value);
            && 1 <= |gs| <= 2
            && (forall i | 0 <= i < |gs| :: Sets(gs[i], item))
            && item.loc in gs[|gs| - 1].define
            && (|gs| == 2 ==> gs[0].define == {})
  {
    SregGadgetsAreRanked(r, item.value);
    var gs := GenSetSreg(r, item.value);
    assert gs[0] in gs && gs[|gs| - 1] in gs;
    if r == CS {
      SetterSets(item, {Shared(PatchLjmpTarget)}, {}, {});
    } else {
      SetterSets(item, if r == DS then {Shared(MemStar)} else if r == SS then {Shared(StackStar)} else {},
                 {Reg(EAX)}, {});
    }
  }

  ghost predicate SetsOneOf(g: Gadget, items: seq<Item>) {
    exists k :: 0 <= k < |items| && Sets(g, items[k])
  }

  ghost predicate DefinedIn(gs: seq<Gadget>, l: Loc) {
    exists i :: 0 <= i < |gs| && l in gs[i].define
  }

  ghost predicate KilledIn(gs: seq<Gadget>, l: Loc) {
    exists i :: 0 <= i < |gs| && l in gs[i].kill
  }

  /** No two gadgets define the same register or cell. */
  ghost predicate UniqueDefiners(gs: seq<Gadget>) {
    forall i, j, l | 0 <= i < j < |gs| && l in gs[i].define && Settable(l) :: l !in gs[j].define
  }

  lemma {:induction false} GadgetsStemFromItems(items: seq<Item>, snapshot: State)
    requires ValidItems(items)
    ensures forall g | g in GenAll(items, snapshot) :: SetsOneOf(g, items)
  {
    if items != [] {
      var init, last := items[..|items| - 1], items[|items| - 1];
      GadgetsStemFromItems(init, snapshot);
      GadgetsSetTheirItem(last, snapshot);
      forall g | g in GenAll(items, snapshot)
        ensures SetsOneOf(g, items)
      {
        if g in GenAll(init, snapshot) {
          var k :| 0 <= k < |init| && Sets(g, init[k]);
          assert items[k] == init[k];
        } else {
          assert Sets(g, items[|items| - 1]);
        }
      }
    }
  }

  lemma {:induction false} DefinedInEither(a: seq<Gadget>, b: seq<Gadget>, l: Loc)
    ensures DefinedIn(a + b, l) <==> DefinedIn(a, l) || DefinedIn(b, l)
  {
    var gs := a + b;
    if i :| 0 <= i < |a| && l in a[i].define {
      assert l in gs[i].define;
    }
    if i :| 0 <= i < |b| && l in b[i].define {
      assert l in gs[|a| + i].define;
    }
  }

  lemma {:induction false} KilledInEither(a: seq<Gadget>, b: seq<Gadget>, l: Loc)
    ensures KilledIn(a + b, l) <==> KilledIn(a, l) || KilledIn(b, l)
  {
    var gs := a + b;
    if i :| 0 <= i < |a| && l in a[i].kill {
      assert l in gs[i].kill;
    }
    if i :| 0 <= i < |b| && l in b[i].kill {
      assert l in gs[|a| + i].kill;
    }
  }

  lemma {:induction false} ItemIsDefined(item: Item, snapshot: State, l: Loc)
    requires Settable(item.loc) && Settable(l)
    ensures DefinedIn(GenGadget(item, snapshot), l) <==> l == item.loc
  {
    GadgetsSetTheirItem(item, snapshot);
    var gs := GenGadget(item, snapshot);
    assert item.loc in gs[|gs| - 1].define;
  }

  /** The registers and cells defined by the generated gadgets are exactly those of the items. */
  lemma {:induction false} ItemsAreDefined(items: seq<Item>, snapshot: State, l: Loc)
    requires ValidItems(items) && Settable(l)
    ensures DefinedIn(GenAll(items, snapshot), l) <==> l in Locs(items)
  {
    if items != [] {
      var init, last := items[..|items| - 1], items[|items| - 1];
      ItemsAreDefined(init, snapshot, l);
      ItemIsDefined(last, snapshot, l);
      DefinedInEither(GenAll(init, snapshot), GenGadget(last, snapshot), l);
      LocsOfLast(items);
    }
  }

  lemma {:induction false} LocsOfLast(items: seq<Item>)
    requires items != []
    ensures Locs(items) == Locs(items[..|items| - 1]) + {items[|items| - 1].loc}
  {
    var init, last := items[..|items| - 1], items[|items| - 1];
    forall l | l in Locs(init)
      ensures l in Locs(items)
    {
      var i :| 0 <= i < |init| && init[i].loc == l;
      assert items[i].loc == l;
    }
    forall l | l in Locs(items)
      ensures l in Locs(init) + {last.loc}
    {
      var i :| 0 <= i < |items| && items[i].loc == l;
      assert i < |init| ==> init[i].loc == l;
    }
  }

  lemma {:induction false} DefinersAreUnique(items: seq<Item>, snapshot: State)
    requires ValidItems(items)
    ensures UniqueDefiners(GenAll(items, snapshot))
  {
    if items != [] {
      var init, last := items[..|items| - 1], items[|items| - 1];
      DefinersAreUnique(init, snapshot);
      GadgetsSetTheirItem(last, snapshot);
      var a, b := GenAll(init, snapshot), GenGadget(last, snapshot);
      forall i, l | 0 <= i < |a| && l in a[i].define && Settable(l)
        ensures l in Locs(init)
      {
        ItemsAreDefined(init, snapshot, l);
      }
      UniqueInConcat(a, b, Locs(init));
    }
  }

  lemma {:induction false} UniqueInConcat(a: seq<Gadget>, b: seq<Gadget>, done: set<Loc>)
    requires UniqueDefiners(a) && UniqueDefiners(b)
    requires forall i, l | 0 <= i < |a| && l in a[i].define && Settable(l) :: l in done
    requires forall j, l | 0 <= j < |b| && l in b[j].define && Settable(l) :: l !in done
    ensures UniqueDefiners(a + b)
  {
  }

  /**
   The gadgets of distinct items are well-formed, and their dependencies have no cycle, so that they can be
   scheduled.
   */
  lemma {:induction false} GeneratedListIsWellFormed(items: seq<Item>, snapshot: State)
    requires ValidItems(items)
    ensures var gs := GenAll(items, snapshot);
            && WellFormed(gs)
            && (forall g: Digraph | IsDependencyGraph(gs, g) :: !HasCycle(g))
  {
    var gs := GenAll(items, snapshot);
    GadgetsStemFromItems(items, snapshot);
    DefinersAreUnique(items, snapshot);
    forall i | 0 <= i < |gs|
      ensures gs[i].Disjoint() && RankedSets(gs[i])
    {
      assert gs[i] in gs;
    }
    forall i, j, l, s: State, t: State |
      0 <= i < |gs| && 0 <= j < |gs| && i != j && l in gs[i].define && l in gs[j].define
      ensures gs[i].value(s, l) == gs[j].value(t, l)
    {
      assert gs[i] in gs && gs[j] in gs && !Settable(l);
      var k :| 0 <= k < |items| && Sets(gs[i], items[k]);
      var m :| 0 <= m < |items| && Sets(gs[j], items[m]);
    }
    forall g: Digraph | IsDependencyGraph(gs, g)
      ensures !HasCycle(g)
    {
      RankedGadgetsAreAcyclic(gs, g);
    }
  }
}

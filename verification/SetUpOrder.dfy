/**
 What the gadgets of a test case kill and in which order they may run, read off the registers and cells it sets.
 */
module SetUpOrder {
  import opened Gadgets
  import opened Schedule
  import opened SetUp

  // ---------------------------------------------------------------------------------------------
  // What is killed
  // ---------------------------------------------------------------------------------------------

  /** The registers whose contents are lost when an item is set. */
  predicate Loses(item: Item, r: Register, snapshot: State) {
    match r
    case CS => LosesSegment(item, snapshot(Reg(CS)))
    case DS => LosesSegment(item, snapshot(Reg(DS)))
    case SS => LosesSegment(item, snapshot(Reg(SS)))
    case ES => LosesSegment(item, snapshot(Reg(ES)))
    case FS => LosesSegment(item, snapshot(Reg(FS)))
    case GS => LosesSegment(item, snapshot(Reg(GS)))
    case EAX => GoesThroughEax(item)
    case EBX => item.loc == Reg(CS)
    case EFLAGS => item.loc == Reg(CS)
    case _ => false
  }

  /** The descriptor that the selector picks is changed. */
  predicate LosesSegment(item: Item, selector: Value) {
    item.loc.Cell? && item.symbol.GdtEntry? && selector / 8 == item.symbol.index
  }

  /** A change of a paging structure, and a load of a segment or control register. */
  predicate GoesThroughEax(item: Item) {
    match item.loc
    case Cell(_) => item.symbol.PdeEntry? || item.symbol.PteEntry?
    case Reg(r) => r.CR? || r == CS || r == DS || r == SS || r == ES || r == FS || r == GS
    case _ => false
  }

  lemma {:induction false} ItemKillsExactly(item: Item, snapshot: State, l: Loc)
    requires Settable(item.loc)
    ensures KilledIn(GenGadget(item, snapshot), l) <==> l.Reg? && Loses(item, l.r, snapshot)
  {
    match item.loc {
      case Cell(_) => CellKillsExactly(item, snapshot, l);
      case Reg(_) => LoadKillsExactly(item, snapshot, l);
    }
  }

  lemma {:induction false} CellKillsExactly(item: Item, snapshot: State, l: Loc)
    requires item.loc.Cell?
    ensures KilledIn(GenGadget(item, snapshot), l) <==> l.Reg? && Loses(item, l.r, snapshot)
  {
    var gs := GenGadget(item, snapshot);
    assert KilledIn(gs, l) <==> l in gs[0].kill;
  }

  lemma {:induction false} LoadKillsExactly(item: Item, snapshot: State, l: Loc)
    requires item.loc.Reg?
    ensures KilledIn(GenGadget(item, snapshot), l) <==> l.Reg? && Loses(item, l.r, snapshot)
  {
    var gs := GenGadget(item, snapshot);
    assert KilledIn(gs, l) <==> l in gs[0].kill;
  }

  /** Some item loses the register. */
  ghost predicate LostBy(items: seq<Item>, r: Register, snapshot: State) {
    exists k :: 0 <= k < |items| && Loses(items[k], r, snapshot)
  }

  /** For every test case: what its set-up kills. */
  lemma {:induction false} KilledExactly(items: seq<Item>, snapshot: State, l: Loc)
    requires ValidItems(items)
    ensures KilledIn(GenAll(items, snapshot), l) <==> l.Reg? && LostBy(items, l.r, snapshot)
  {
    if items != [] {
      var init, last := items[..|items| - 1], items[|items| - 1];
      KilledExactly(init, snapshot, l);
      ItemKillsExactly(last, snapshot, l);
      KilledInEither(GenAll(init, snapshot), GenGadget(last, snapshot), l);
      if l.Reg? {
        LosesInEither(items, init, l.r, snapshot);
      }
    }
  }

  lemma {:induction false} LosesInEither(items: seq<Item>, init: seq<Item>, r: Register, snapshot: State)
    requires items != [] && init == items[..|items| - 1]
    ensures LostBy(items, r, snapshot) <==> LostBy(init, r, snapshot) || Loses(items[|items| - 1], r, snapshot)
  {
    if k :| 0 <= k < |init| && Loses(init[k], r, snapshot) {
      assert Loses(items[k], r, snapshot);
    }
    if k :| 0 <= k < |items| && Loses(items[k], r, snapshot) && k < |items| - 1 {
      assert Loses(init[k], r, snapshot);
    }
  }

  // ---------------------------------------------------------------------------------------------
  // What must come before what
  // ---------------------------------------------------------------------------------------------

  /**
   What a gadget does: store a byte, change a descriptor or a paging structure, patch the long jump, load a register.
   */
  datatype Kind = PlainByte | Descriptor(index: nat) | TableEntry | JumpPatch | Loading(r: Register)

  /** The gadgets for an item, one after the other. */
  function KindsOf(item: Item): (ks: seq<Kind>)
    requires Settable(item.loc)
  {
    match item.loc
    case Reg(r) => if r == CS then [JumpPatch, Loading(CS)] else [Loading(r)]
    case Cell(_) =>
      match item.symbol
      case Plain => [PlainByte]
      case GdtEntry(index) => [Descriptor(index)]
      case _ => [TableEntry]
  }

  /**
   Bytes are stored before descriptors, these before paging structures, and all of them, as well as the patch, before
   DS is loaded.  A descriptor is changed before the registers that select it are loaded, paging structures before the
   flags.  Whatever goes through EAX comes before EAX; the patch also goes through EBX and the flags, and comes before
   CS.  The patch and the flags use the stack, and come before SS.
   */
  predicate Precedes(x: Kind, y: Kind, snapshot: State) {
    match x
    case PlainByte => y.Descriptor? || y.TableEntry? || y == Loading(DS)
    case Descriptor(index) =>
      || y.TableEntry? || y == Loading(DS)
      || (y.Loading? && y.r in {CS, DS, SS, ES, FS, GS} && snapshot(Reg(y.r)) / 8 == index)
    case TableEntry => y == Loading(DS) || y == Loading(EAX) || y == Loading(EFLAGS)
    case JumpPatch => y.Loading? && y.r in {CS, DS, SS, EAX, EBX, EFLAGS}
    case Loading(r) =>
      || ((r in {DS, SS, ES, FS, GS} || r.CR?) && y == Loading(EAX))
      || (r == EFLAGS && y == Loading(SS))
  }

  lemma {:induction false} KindPerGadget(item: Item, snapshot: State)
    requires Settable(item.loc)
    ensures |KindsOf(item)| == |GenGadget(item, snapshot)|
  {
  }

  /** What a gadget of the given kind defines, as far as others depend on it. */
  ghost predicate Defines(d: set<Loc>, k: Kind) {
    && (forall r :: Reg(r) in d <==> k == Loading(r))
    && (Shared(MemStar) in d <==> k == Loading(DS))
    && (Shared(StackStar) in d <==> k == Loading(SS))
    && (Shared(Pde) in d || Shared(Pte) in d <==> k.TableEntry?)
    && (Shared(Gdt) in d <==> k.Descriptor?)
    && (Shared(PatchLjmpTarget) in d <==> k == Loading(CS))
    && Shared(Everything) !in d
  }

  lemma {:induction false} DefinesExactly(item: Item, j: nat, snapshot: State)
    requires Settable(item.loc) && j < |KindsOf(item)|
    ensures j < |GenGadget(item, snapshot)| && Defines(GenGadget(item, snapshot)[j].define, KindsOf(item)[j])
  {
    KindPerGadget(item, snapshot);
    if item.loc.Cell? {
      CellDefines(item, snapshot);
    } else if j == 1 || item.loc != Reg(CS) {
      LoadDefines(item, snapshot);
    }
  }

  lemma {:induction false} CellDefines(item: Item, snapshot: State)
    requires item.loc.Cell?
    ensures Defines(GenGadget(item, snapshot)[0].define, KindsOf(item)[0])
  {
  }

  lemma {:induction false} LoadDefines(item: Item, snapshot: State)
    requires item.loc.Reg?
    ensures var gs := GenGadget(item, snapshot); gs != [] && Defines(gs[|gs| - 1].define, Loading(item.loc.r))
  {
  }

  /** Set-up gadgets kill registers, use shared resources, and read nothing late. */
  ghost predicate Simple(g: Gadget) {
    g.useAfter == {} && (forall l | l in g.kill :: l.Reg?) && (forall l | l in g.use :: l.Shared?)
  }

  lemma {:induction false} SetUpIsSimple(item: Item, j: nat, snapshot: State)
    requires Settable(item.loc) && j < |GenGadget(item, snapshot)|
    ensures Simple(GenGadget(item, snapshot)[j])
  {
  }

  lemma {:induction false} DependOfSimple(g1: Gadget, g0: Gadget)
    requires Simple(g0) && Simple(g1) && Shared(Everything) !in g1.define
    ensures Depend(g1, g0) <==>
            || (exists l :: l in g0.kill && l in g1.define)
            || (exists l :: l in g0.use && l in g1.define)
            || ((Shared(Pde) in g0.define || Shared(Pte) in g0.define) && Reg(EFLAGS) in g1.define)
  {
    DependExactlyWhen(g1, g0);
  }

  lemma {:induction false} OrderOfBytes(a: Item, d: set<Loc>, k: Kind, snapshot: State)
    requires a.loc.Cell? && Defines(d, k)
    ensures var g0 := GenGadget(a, snapshot)[0];
            (exists l :: l in g0.use && l in d) <==>
            || k == Loading(DS)
            || (k.TableEntry? && !KindsOf(a)[0].TableEntry?)
            || (k.Descriptor? && KindsOf(a)[0].PlainByte?)
  {
    var g0 := GenGadget(a, snapshot)[0];
    assert Shared(MemStar) in g0.use;
    if !KindsOf(a)[0].TableEntry? {
      assert Shared(Pde) in g0.use && Shared(Pte) in g0.use;
    }
    if KindsOf(a)[0].PlainByte? {
      assert Shared(Gdt) in g0.use;
    }
  }

  lemma {:induction false} KillsOfBytes(a: Item, d: set<Loc>, k: Kind, snapshot: State)
    requires a.loc.Cell? && Defines(d, k)
    ensures var g0 := GenGadget(a, snapshot)[0];
            (exists l :: l in g0.kill && l in d) <==> k.Loading? && Loses(a, k.r, snapshot)
  {
    var gs := GenGadget(a, snapshot);
    if k.Loading? {
      ItemKillsExactly(a, snapshot, Reg(k.r));
      assert KilledIn(gs, Reg(k.r)) <==> Reg(k.r) in gs[0].kill;
      assert Reg(k.r) in d;
    }
    forall l | l in gs[0].kill
      ensures l.Reg?
    {
      SetUpIsSimple(a, 0, snapshot);
    }
  }

  lemma {:induction false} OrderOfLoads(a: Item, i: nat, d: set<Loc>, k: Kind, snapshot: State)
    requires a.loc.Reg? && Defines(d, k) && i < |GenGadget(a, snapshot)|
    ensures var g0 := GenGadget(a, snapshot)[i];
            (exists l :: l in g0.use && l in d) <==>
            if a.loc == Reg(CS) && i == 0 then k == Loading(DS) || k == Loading(SS) || k == Loading(CS)
            else a.loc == Reg(EFLAGS) && k == Loading(SS)
  {
    var g0 := GenGadget(a, snapshot)[i];
    if a.loc == Reg(CS) && i == 0 {
      assert g0.use == {Shared(MemStar), Shared(StackStar), Shared(PatchLjmpTarget)};
      assert Shared(MemStar) in g0.use && Shared(StackStar) in g0.use && Shared(PatchLjmpTarget) in g0.use;
    } else if a.loc == Reg(EFLAGS) {
      assert Shared(StackStar) in g0.use;
    }
  }

  lemma {:induction false} KillsOfLoads(a: Item, i: nat, d: set<Loc>, k: Kind, snapshot: State)
    requires a.loc.Reg? && Defines(d, k) && i < |GenGadget(a, snapshot)|
    ensures var g0 := GenGadget(a, snapshot)[i];
            (exists l :: l in g0.kill && l in d) <==>
            if a.loc == Reg(CS) then i == 0 && (k == Loading(EAX) || k == Loading(EBX) || k == Loading(EFLAGS))
            else (a.loc.r in {DS, SS, ES, FS, GS} || a.loc.r.CR?) && k == Loading(EAX)
  {
    var g0 := GenGadget(a, snapshot)[i];
    if a.loc == Reg(CS) {
      if i == 0 {
        assert g0.kill == {Reg(EAX), Reg(EBX), Reg(EFLAGS)};
        assert Reg(EAX) in g0.kill && Reg(EBX) in g0.kill && Reg(EFLAGS) in g0.kill;
      }
    } else if a.loc.r in {DS, SS, ES, FS, GS} || a.loc.r.CR? {
      assert Reg(EAX) in g0.kill;
    }
  }

  lemma {:induction false} TablesAreDefined(a: Item, i: nat, snapshot: State)
    requires Settable(a.loc) && i < |KindsOf(a)|
    ensures i < |GenGadget(a, snapshot)|
    ensures var d := GenGadget(a, snapshot)[i].define;
            Shared(Pde) in d || Shared(Pte) in d <==> KindsOf(a)[i].TableEntry?
  {
    DefinesExactly(a, i, snapshot);
  }

  /** Which of two gadgets must run first, from what they set. */
  lemma {:induction false} OrderExactly(a: Item, i: nat, b: Item, j: nat, snapshot: State)
    requires Settable(a.loc) && Settable(b.loc) && i < |KindsOf(a)| && j < |KindsOf(b)|
    ensures i < |GenGadget(a, snapshot)| && j < |GenGadget(b, snapshot)|
    ensures Depend(GenGadget(b, snapshot)[j], GenGadget(a, snapshot)[i]) <==>
            Precedes(KindsOf(a)[i], KindsOf(b)[j], snapshot)
  {
    TablesAreDefined(a, i, snapshot);
    DefinesExactly(b, j, snapshot);
    SetUpIsSimple(a, i, snapshot);
    SetUpIsSimple(b, j, snapshot);
    OrderOfGadget(a, i, GenGadget(a, snapshot)[i], GenGadget(b, snapshot)[j], KindsOf(b)[j], snapshot);
  }

  lemma {:induction false} OrderOfGadget(a: Item, i: nat, g0: Gadget, g1: Gadget, k: Kind, snapshot: State)
    requires Settable(a.loc) && i < |KindsOf(a)| && i < |GenGadget(a, snapshot)| && g0 == GenGadget(a, snapshot)[i]
    requires Simple(g0) && Simple(g1) && Defines(g1.define, k)
    requires Shared(Pde) in g0.define || Shared(Pte) in g0.define <==> KindsOf(a)[i].TableEntry?
    ensures Depend(g1, g0) <==> Precedes(KindsOf(a)[i], k, snapshot)
  {
    DependOfSimple(g1, g0);
    if a.loc.Cell? {
      OrderOfBytes(a, g1.define, k, snapshot);
      KillsOfBytes(a, g1.define, k, snapshot);
    } else {
      OrderOfLoads(a, i, g1.define, k, snapshot);
      KillsOfLoads(a, i, g1.define, k, snapshot);
    }
  }

  // ---------------------------------------------------------------------------------------------
  // The schedules of a test case
  // ---------------------------------------------------------------------------------------------

  function AllKinds(items: seq<Item>): seq<Kind>
    requires forall i | 0 <= i < |items| :: Settable(items[i].loc)
  {
    if items == [] then [] else AllKinds(items[..|items| - 1]) + KindsOf(items[|items| - 1])
  }

  /** A gadget and its kind. */
  ghost predicate IsOfKind(g: Gadget, k: Kind, snapshot: State) {
    exists item: Item, i: nat :: IsPartOf(item, i, g, k, snapshot)
  }

  ghost predicate IsPartOf(item: Item, i: nat, g: Gadget, k: Kind, snapshot: State) {
    && Settable(item.loc)
    && i < |KindsOf(item)| && KindsOf(item)[i] == k
    && i < |GenGadget(item, snapshot)| && GenGadget(item, snapshot)[i] == g
  }

  lemma {:induction false} KindsOfAll(items: seq<Item>, snapshot: State)
    requires forall i | 0 <= i < |items| :: Settable(items[i].loc)
    ensures |AllKinds(items)| == |GenAll(items, snapshot)|
    ensures forall i | 0 <= i < |AllKinds(items)| :: IsOfKind(GenAll(items, snapshot)[i], AllKinds(items)[i], snapshot)
  {
    if items != [] {
      var init, last := items[..|items| - 1], items[|items| - 1];
      KindsOfAll(init, snapshot);
      KindPerGadget(last, snapshot);
      var ks, gs := AllKinds(items), GenAll(items, snapshot);
      forall i | |AllKinds(init)| <= i < |ks|
        ensures IsOfKind(gs[i], ks[i], snapshot)
      {
        assert IsPartOf(last, i - |AllKinds(init)|, gs[i], ks[i], snapshot);
      }
    }
  }

  lemma {:induction false} OrderOfKinds(g0: Gadget, k0: Kind, g1: Gadget, k1: Kind, snapshot: State)
    requires IsOfKind(g0, k0, snapshot) && IsOfKind(g1, k1, snapshot)
    ensures Depend(g1, g0) <==> Precedes(k0, k1, snapshot)
  {
    var a, i: nat :| IsPartOf(a, i, g0, k0, snapshot);
    var b, j: nat :| IsPartOf(b, j, g1, k1, snapshot);
    OrderExactly(a, i, b, j, snapshot);
  }

  ghost predicate OrderedByKinds(kinds: seq<Kind>, order: seq<nat>, snapshot: State)
    requires forall k | 0 <= k < |order| :: order[k] < |kinds|
  {
    forall a, b |
      0 <= a < |order| && 0 <= b < |order| && a != b && Precedes(kinds[order[a]], kinds[order[b]], snapshot) :: a < b
  }

  /** The schedules of the set-up of a test case are the orders that keep the precedences of what it sets. */
  lemma {:induction false} ScheduledExactly(items: seq<Item>, snapshot: State, order: seq<nat>)
    requires ValidItems(items)
    ensures |AllKinds(items)| == |GenAll(items, snapshot)|
    ensures IsSchedule(GenAll(items, snapshot), order) <==>
            EachOnce(GenAll(items, snapshot), order) && OrderedByKinds(AllKinds(items), order, snapshot)
  {
    var gs, kinds := GenAll(items, snapshot), AllKinds(items);
    KindsOfAll(items, snapshot);
    if EachOnce(gs, order) {
      forall a, b | 0 <= a < |order| && 0 <= b < |order| && a != b
        ensures Depend(gs[order[b]], gs[order[a]]) <==> Precedes(kinds[order[a]], kinds[order[b]], snapshot)
      {
        OrderOfKinds(gs[order[a]], kinds[order[a]], gs[order[b]], kinds[order[b]], snapshot);
      }
    }
  }
}

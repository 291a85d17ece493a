/**
 In the Feistel modes the set-up gadgets of a test case are sorted together with those that save the operands of the
 tested instruction and load its inputs from the blocks.  When that list has a schedule.
 */
module JointSetUp {
  import opened Gadgets
  import opened Schedule
  import opened SetUp
  import opened TopologicalSort
  import opened Wrappers

  /**
   What is generated for the operands.  Blocks and memory operands are known by their text; `first` marks the first
   word of the memory operand, the only one whose text is remembered together with its registers.  Blocks are copied
   from one (the value) to another (the key), or get initial values.
   */
  datatype Part =
    | Load(r: Register, src: string)
    | LoadStack(r: Register, src: string)
    | Save(r: Register, to: set<string>)
    | SaveStack(r: Register, to: set<string>)
    | SaveHalf(r: Register, block: string)
    | SetMemory(text: string, src: string, first: bool)
    | SaveMemory(text: string, block: string, first: bool)
    | CopyBlocks(copies: map<string, string>)
    | InitBlocks(values: map<string, Value>)

  /** The registers of an address. */
  const ADDRESSING: set<Register> := {EAX, EBX, ECX, EDX, ESI, EDI, EBP, ESP} + SEGMENTS

  const TOP: Register := Other("ST(0)")

  /** The register through which memory is copied. */
  function Scratch(regs: set<Register>): Register {
    if EAX in regs then ECX else EAX
  }

  function Named(texts: set<string>): set<Loc> {
    set t | t in texts :: Operand(t)
  }

  function Registers(regs: set<Register>): set<Loc> {
    set r | r in regs :: Reg(r)
  }

  /** The gadget for a part, when the memory operand of the instruction is addressed with the registers `regs`. */
  function PartGadget(p: Part, regs: set<Register>): Gadget {
    match p
    case Load(r, src) =>
      Gadget({Reg(r)}, {}, {Operand(src)}, {}, (s: State, l: Loc) => s(Operand(src)))
    case LoadStack(r, src) =>
      Gadget({Reg(r), Reg(TOP)}, {}, {Operand(src), Reg(CR(0))}, {}, (s: State, l: Loc) => s(Operand(src)))
    case Save(r, to) =>
      Gadget(Named(to), {}, {}, {Reg(r)}, (s: State, l: Loc) => s(Reg(r)))
    case SaveStack(r, to) =>
      Gadget(Named(to), {}, {Reg(CR(0))}, {Reg(r)}, (s: State, l: Loc) => s(Reg(r)))
    case SaveHalf(r, block) =>
      Gadget({Operand(block)}, {}, {Reg(r)}, {}, (s: State, l: Loc) => s(Reg(r)))
    case SetMemory(text, src, first) =>
      Gadget({Operand(text)}, {Reg(Scratch(regs))}, {Operand(text), Operand(src)},
             if first then Registers(regs) else {}, (s: State, l: Loc) => s(Operand(src)))
    case SaveMemory(text, block, first) =>
      Gadget({Operand(block)}, {Reg(Scratch(regs))}, if first then {} else {Operand(text)},
             if first then {Operand(text)} + Registers(regs) else {}, (s: State, l: Loc) => s(Operand(text)))
    case CopyBlocks(copies) =>
      Gadget(Named(copies.Keys), {}, Named(copies.Values), {},
             (s: State, l: Loc) => if l.Operand? && l.text in copies then s(Operand(copies[l.text])) else 0)
    case InitBlocks(values) =>
      Gadget(Named(values.Keys), {}, {}, {},
             (s: State, l: Loc) => if l.Operand? && l.text in values then values[l.text] else 0)
  }

  function PartGadgets(parts: seq<Part>, regs: set<Register>): (gs: seq<Gadget>)
    ensures |gs| == |parts| && forall i | 0 <= i < |parts| :: gs[i] == PartGadget(parts[i], regs)
  {
    seq(|parts|, i requires 0 <= i < |parts| => PartGadget(parts[i], regs))
  }

  // ---------------------------------------------------------------------------------------------
  // The parts of one instruction
  // ---------------------------------------------------------------------------------------------

  /** The half of a register is saved under the name of the whole one, which only these four are not known by. */
  predicate ValidPart(p: Part) {
    && (p.LoadStack? || p.SaveStack? ==> p.r.Other?)
    && (p.SaveHalf? ==> p.r in {ESI, EDI, EBP, ESP})
  }

  /** The blocks a part writes, those it reads, and the text of its memory operand. */
  function Targets(p: Part): set<string> {
    if p.SaveHalf? || p.SaveMemory? then {p.block}
    else if p.Save? || p.SaveStack? then p.to
    else if p.CopyBlocks? then p.copies.Keys
    else if p.InitBlocks? then p.values.Keys
    else {}
  }

  function Sources(p: Part): set<string> {
    if p.Load? || p.LoadStack? || p.SetMemory? then {p.src} else if p.CopyBlocks? then p.copies.Values else {}
  }

  function Texts(p: Part): set<string> {
    if p.SetMemory? || p.SaveMemory? then {p.text} else {}
  }

  /** No block is both read and written, none is an operand, and each operand is set once. */
  ghost predicate ValidParts(parts: seq<Part>) {
    && (forall i | 0 <= i < |parts| :: ValidPart(parts[i]))
    && (forall i: nat, j: nat | i < |parts| && j < |parts| :: Compatible(parts, i, j))
  }

  predicate Compatible(parts: seq<Part>, i: nat, j: nat)
    requires i < |parts| && j < |parts|
  {
    && Separate(parts[i], parts[j])
    && (i != j && parts[i].SetMemory? && parts[j].SetMemory? ==> parts[i].text != parts[j].text)
  }

  predicate Separate(p: Part, q: Part) {
    && Targets(p) !! Sources(q) && Targets(p) !! Texts(q) && Sources(p) !! Texts(q)
  }

  predicate FirstWord(p: Part) {
    (p.SetMemory? || p.SaveMemory?) && p.first
  }

  ghost predicate SetsEcx(all: seq<Item>, parts: seq<Part>) {
    Reg(ECX) in Locs(all) || exists p :: p in parts && p.Load? && p.r == ECX
  }

  /**
   The memory operand is addressed with both EAX and ECX, so that ECX serves as scratch register although the address
   needs it, and something sets ECX.
   */
  ghost predicate Trapped(all: seq<Item>, parts: seq<Part>, regs: set<Register>) {
    EAX in regs && ECX in regs && (exists p :: p in parts && FirstWord(p)) && SetsEcx(all, parts)
  }

  // ---------------------------------------------------------------------------------------------
  // A place for every gadget
  // ---------------------------------------------------------------------------------------------

  function RegisterPlace(r: Register, regs: set<Register>): int {
    if r == Scratch(regs) then 13 else if r == EAX then 9 else if r == CR(0) then 8 else 6
  }

  function PartPlace(p: Part, regs: set<Register>): int {
    match p
    case CopyBlocks(_) => 0
    case InitBlocks(_) => 0
    case SaveHalf(_, _) => 0
    case LoadStack(_, _) => 6
    case SaveStack(_, _) => 7
    case Load(r, _) => RegisterPlace(r, regs)
    case SaveMemory(_, _, first) => if first then 12 else 10
    case SetMemory(_, _, _) => 11
    case Save(_, _) => 14
  }

  function SetUpPlace(g: Gadget, regs: set<Register>): int {
    if Reg(Scratch(regs)) in g.define then 13
    else if Reg(EAX) in g.define then 9
    else if Reg(CR(0)) in g.define then 8
    else Rank(g) + 1
  }

  /** The last place of a gadget that uses, or kills, the location, and the first and last of those that define it. */
  function LastUse(l: Loc): int {
    if l == Reg(CR(0)) then 7 else if l.Reg? then 0 else UseRank(l) + 1
  }

  function LastKill(l: Loc, regs: set<Register>): int {
    if l == Reg(Scratch(regs)) then 12 else if l == Reg(EAX) then 8 else KillRank(l) + 1
  }

  function FirstDefine(l: Loc, regs: set<Register>): int {
    if l.Reg? && RegisterPlace(l.r, regs) != 6 then RegisterPlace(l.r, regs) else DefineRank(l) + 1
  }

  function LastDefine(l: Loc, regs: set<Register>): int {
    if l.Reg? then RegisterPlace(l.r, regs) else 13
  }

  /** The first place at which a register is read late. */
  function FirstLateUse(r: Register, regs: set<Register>): int {
    if r.Other? then 7 else if r in regs then 11 else 14
  }

  /** What set-up gadgets kill, and the other scratch register. */
  predicate Killable(l: Loc) {
    KillRank(l) >= 0 || l == Reg(ECX)
  }

  /** What gadgets use before it is set. */
  predicate UsedFirst(l: Loc) {
    l.Reg? ==> l == Reg(CR(0)) || l.r in {ESI, EDI, EBP, ESP}
  }

  lemma {:induction false} KilledThenDefined(l: Loc, regs: set<Register>)
    requires Killable(l)
    ensures LastKill(l, regs) < FirstDefine(l, regs)
  {
  }

  lemma {:induction false} UsedThenDefined(l: Loc, regs: set<Register>)
    requires UsedFirst(l) && !l.Operand?
    ensures LastUse(l) < FirstDefine(l, regs) && !Killable(l)
  {
  }

  lemma {:induction false} DefinedThenRead(r: Register, regs: set<Register>)
    requires regs <= ADDRESSING
    ensures LastDefine(Reg(r), regs) < 14
    ensures r !in regs || r != Scratch(regs) ==> LastDefine(Reg(r), regs) < FirstLateUse(r, regs)
  {
  }

  ghost predicate Placed(g: Gadget, place: int, regs: set<Register>) {
    && Shared(Everything) !in g.define
    && (forall l | l in g.use :: UsedFirst(l) && (l.Operand? || place <= LastUse(l)))
    && (forall l | l in g.kill :: Killable(l) && place <= LastKill(l, regs))
    && (forall l | l in g.define :: l.Operand? || FirstDefine(l, regs) <= place <= LastDefine(l, regs))
    && (forall l | l in g.useAfter :: l.Operand? || (l.Reg? && FirstLateUse(l.r, regs) <= place))
    && (Shared(Pde) in g.define || Shared(Pte) in g.define ==> place <= 3)
  }

  lemma {:induction false} PartIsPlaced(p: Part, regs: set<Register>)
    requires ValidPart(p) && regs <= ADDRESSING
    ensures Placed(PartGadget(p, regs), PartPlace(p, regs), regs)
  {
    if p.SetMemory? || p.SaveMemory? {
      MemoryPartIsPlaced(p, regs);
    } else if p.Load? || p.LoadStack? {
      LoadIsPlaced(p, regs);
    } else {
      SaveIsPlaced(p, regs);
    }
  }

  lemma {:induction false} LoadIsPlaced(p: Part, regs: set<Register>)
    requires (p.Load? || p.LoadStack?) && ValidPart(p)
    ensures Placed(PartGadget(p, regs), PartPlace(p, regs), regs)
  {
  }

  lemma {:induction false} SaveIsPlaced(p: Part, regs: set<Register>)
    requires (p.Save? || p.SaveStack? || p.SaveHalf? || p.CopyBlocks? || p.InitBlocks?) && ValidPart(p)
    ensures Placed(PartGadget(p, regs), PartPlace(p, regs), regs)
  {
  }

  lemma {:induction false} MemoryPartIsPlaced(p: Part, regs: set<Register>)
    requires (p.SetMemory? || p.SaveMemory?) && regs <= ADDRESSING
    ensures Placed(PartGadget(p, regs), PartPlace(p, regs), regs)
  {
    var g := PartGadget(p, regs);
    forall l | l in g.useAfter
      ensures l.Operand? || (l.Reg? && FirstLateUse(l.r, regs) <= PartPlace(p, regs))
    {
    }
  }

  lemma {:induction false} SetUpIsPlaced(g: Gadget, item: Item, regs: set<Register>)
    requires Sets(g, item)
    ensures Placed(g, SetUpPlace(g, regs), regs)
  {
  }

  /** The scratch register of the address is set and then read. */
  predicate ReadsScratch(g0: Gadget, g1: Gadget, regs: set<Register>) {
    && Scratch(regs) in regs
    && Reg(Scratch(regs)) in g0.define && Reg(Scratch(regs)) in g1.useAfter
  }

  /** Outside memory operands, a dependency leads from an earlier to a later place. */
  lemma {:induction false} DependencyRaisesPlace(g0: Gadget, p0: int, g1: Gadget, p1: int, regs: set<Register>)
    requires Placed(g0, p0, regs) && Placed(g1, p1, regs) && regs <= ADDRESSING
    requires forall l: Loc | l.Operand? :: !(l in g0.use && l in g1.define) && !(l in g0.define && l in g1.useAfter)
    requires ReadsScratch(g0, g1, regs) ==> p1 == 14
    requires Depend(g1, g0)
    ensures p0 < p1
  {
    if l :| l in g1.define && l in g0.kill {
      KilledThenDefined(l, regs);
    } else if l :| l in g0.use && l in g1.define {
      UsedThenDefined(l, regs);
    } else if l :| l in g0.use && l in g1.kill {
      UsedThenDefined(l, regs);
      assert false;
    } else if l :| l in g0.define && l in g1.useAfter {
      DefinedThenRead(l.r, regs);
    } else {
      FlagsAreSetLater(g0, p0, g1, p1, regs);
    }
  }

  lemma {:induction false} FlagsAreSetLater(g0: Gadget, p0: int, g1: Gadget, p1: int, regs: set<Register>)
    requires Placed(g0, p0, regs) && Placed(g1, p1, regs) && Reg(EFLAGS) in g1.define
    requires Shared(Pde) in g0.define || Shared(Pte) in g0.define
    ensures p0 < p1
  {
  }

  // ---------------------------------------------------------------------------------------------
  // When the joint list has a schedule
  // ---------------------------------------------------------------------------------------------

  /** Memory operands: saved before they are set, or after it. */
  lemma {:induction false} TextsRaisePlace(p: Part, q: Part, regs: set<Register>, l: Loc)
    requires Separate(p, q) && Separate(q, p) && (p.SetMemory? && q.SetMemory? ==> p.text != q.text) && l.Operand?
    requires var g0, g1 := PartGadget(p, regs), PartGadget(q, regs);
             (l in g0.use && l in g1.define) || (l in g0.define && l in g1.useAfter)
    ensures PartPlace(p, regs) < PartPlace(q, regs)
  {
    NamesOfPart(p, regs, l);
    NamesOfPart(q, regs, l);
  }

  lemma {:induction false} NamesOfPart(p: Part, regs: set<Register>, l: Loc)
    requires l.Operand?
    ensures var g := PartGadget(p, regs);
            && (l in g.use ==> l.text in Sources(p) || (l.text in Texts(p) && !(p.SaveMemory? && p.first)))
            && (l in g.define ==> l.text in Targets(p) || (l.text in Texts(p) && p.SetMemory?))
            && (l in g.useAfter ==> l.text in Texts(p) && p.SaveMemory? && p.first)
  {
  }

  lemma {:induction false} PartsRaisePlace(p: Part, q: Part, regs: set<Register>)
    requires ValidPart(p) && ValidPart(q) && regs <= ADDRESSING
    requires Separate(p, q) && Separate(q, p) && (p.SetMemory? && q.SetMemory? ==> p.text != q.text)
    requires var g0, g1 := PartGadget(p, regs), PartGadget(q, regs);
             Depend(g1, g0) && (ReadsScratch(g0, g1, regs) ==> PartPlace(q, regs) == 14)
    ensures PartPlace(p, regs) < PartPlace(q, regs)
  {
    var g0, g1 := PartGadget(p, regs), PartGadget(q, regs);
    if l: Loc :| l.Operand? && ((l in g0.use && l in g1.define) || (l in g0.define && l in g1.useAfter)) {
      TextsRaisePlace(p, q, regs, l);
    } else {
      PartIsPlaced(p, regs);
      PartIsPlaced(q, regs);
      DependencyRaisesPlace(g0, PartPlace(p, regs), g1, PartPlace(q, regs), regs);
    }
  }

  /** Unless trapped, a scratch register that belongs to the address is read at the end only. */
  lemma {:induction false} ScratchIsReadLast(all: seq<Item>, parts: seq<Part>, regs: set<Register>, g0: Gadget, p: Part)
    requires !Trapped(all, parts, regs) && SetsEcx(all, parts) && p in parts && ValidPart(p)
    requires ReadsScratch(g0, PartGadget(p, regs), regs)
    ensures PartPlace(p, regs) == 14
  {
  }

  /** The gadgets that are sorted together. */
  function JointList(all: seq<Item>, snapshot: State, parts: seq<Part>, regs: set<Register>): seq<Gadget>
    requires forall i | 0 <= i < |all| :: Settable(all[i].loc)
  {
    GenAll(all, snapshot) + PartGadgets(parts, regs)
  }

  lemma {:induction false} SetUpNamesNoOperand(g: Gadget, item: Item, l: Loc)
    requires Sets(g, item) && Settable(item.loc) && l.Operand?
    ensures l !in g.define && l !in g.use && l !in g.useAfter
  {
  }

  lemma {:induction false} SetUpRaisesPlace(g0: Gadget, a: Item, g1: Gadget, b: Item, regs: set<Register>)
    requires Sets(g0, a) && Sets(g1, b) && Settable(b.loc) && regs <= ADDRESSING && Depend(g1, g0)
    ensures SetUpPlace(g0, regs) < SetUpPlace(g1, regs)
  {
    forall l: Loc | l.Operand?
      ensures l !in g1.define && l !in g1.useAfter
    {
      SetUpNamesNoOperand(g1, b, l);
    }
    SetUpIsPlaced(g0, a, regs);
    SetUpIsPlaced(g1, b, regs);
    DependencyRaisesPlace(g0, SetUpPlace(g0, regs), g1, SetUpPlace(g1, regs), regs);
  }

  lemma {:induction false} PartBeforeSetUp(p: Part, g1: Gadget, b: Item, regs: set<Register>)
    requires ValidPart(p) && Sets(g1, b) && Settable(b.loc) && regs <= ADDRESSING && Depend(g1, PartGadget(p, regs))
    ensures PartPlace(p, regs) < SetUpPlace(g1, regs)
  {
    forall l: Loc | l.Operand?
      ensures l !in g1.define && l !in g1.useAfter
    {
      SetUpNamesNoOperand(g1, b, l);
    }
    PartIsPlaced(p, regs);
    SetUpIsPlaced(g1, b, regs);
    DependencyRaisesPlace(PartGadget(p, regs), PartPlace(p, regs), g1, SetUpPlace(g1, regs), regs);
  }

  lemma {:induction false} SetUpBeforePart(all: seq<Item>, parts: seq<Part>, k: nat, g0: Gadget, p: Part,
      regs: set<Register>)
    requires k < |all| && Sets(g0, all[k]) && Settable(all[k].loc) && p in parts && ValidPart(p)
    requires regs <= ADDRESSING && !Trapped(all, parts, regs) && Depend(PartGadget(p, regs), g0)
    ensures SetUpPlace(g0, regs) < PartPlace(p, regs)
  {
    var g1 := PartGadget(p, regs);
    forall l: Loc | l.Operand?
      ensures l !in g0.define && l !in g0.use
    {
      SetUpNamesNoOperand(g0, all[k], l);
    }
    if ReadsScratch(g0, g1, regs) {
      assert all[k].loc in Locs(all);
      ScratchIsReadLast(all, parts, regs, g0, p);
    }
    SetUpIsPlaced(g0, all[k], regs);
    PartIsPlaced(p, regs);
    DependencyRaisesPlace(g0, SetUpPlace(g0, regs), g1, PartPlace(p, regs), regs);
  }

  lemma {:induction false} PartBeforePart(all: seq<Item>, parts: seq<Part>, i: nat, j: nat, regs: set<Register>)
    requires i < |parts| && j < |parts| && i != j && ValidParts(parts)
    requires regs <= ADDRESSING && !Trapped(all, parts, regs)
    requires Depend(PartGadget(parts[j], regs), PartGadget(parts[i], regs))
    ensures PartPlace(parts[i], regs) < PartPlace(parts[j], regs)
  {
    var p, q := parts[i], parts[j];
    var g0, g1 := PartGadget(p, regs), PartGadget(q, regs);
    assert Compatible(parts, i, j) && Compatible(parts, j, i);
    if ReadsScratch(g0, g1, regs) {
      DefinesEcx(p, regs);
      assert p in parts && q in parts;
      ScratchIsReadLast(all, parts, regs, g0, q);
    }
    PartsRaisePlace(p, q, regs);
  }

  lemma {:induction false} DefinesEcx(p: Part, regs: set<Register>)
    requires ValidPart(p) && Scratch(regs) in regs && Reg(Scratch(regs)) in PartGadget(p, regs).define
    ensures p.Load? && p.r == ECX
  {
  }

  /** The i-th gadget of a joint list, and its place. */
  function At(mine: seq<Gadget>, parts: seq<Part>, regs: set<Register>, i: nat): Gadget
    requires i < |mine| + |parts|
  {
    if i < |mine| then mine[i] else PartGadget(parts[i - |mine|], regs)
  }

  function PlaceAt(mine: seq<Gadget>, parts: seq<Part>, regs: set<Register>, i: nat): int
    requires i < |mine| + |parts|
  {
    if i < |mine| then SetUpPlace(mine[i], regs) else PartPlace(parts[i - |mine|], regs)
  }

  lemma {:induction false} EdgeFromSetUp(all: seq<Item>, mine: seq<Gadget>, parts: seq<Part>, regs: set<Register>,
      i: nat, j: nat)
    requires (forall k | 0 <= k < |all| :: Settable(all[k].loc)) && (forall k | 0 <= k < |parts| :: ValidPart(parts[k]))
    requires regs <= ADDRESSING && !Trapped(all, parts, regs)
    requires (forall k | 0 <= k < |mine| :: SetsOneOf(mine[k], all)) && i < |mine| && j < |mine| + |parts|
    requires Depend(At(mine, parts, regs, j), mine[i])
    ensures SetUpPlace(mine[i], regs) < PlaceAt(mine, parts, regs, j)
  {
    var k :| 0 <= k < |all| && Sets(mine[i], all[k]);
    if j < |mine| {
      var m :| 0 <= m < |all| && Sets(mine[j], all[m]);
      SetUpRaisesPlace(mine[i], all[k], mine[j], all[m], regs);
    } else {
      SetUpBeforePart(all, parts, k, mine[i], parts[j - |mine|], regs);
    }
  }

  lemma {:induction false} EdgeToSetUp(all: seq<Item>, g: Gadget, p: Part, regs: set<Register>)
    requires (forall k | 0 <= k < |all| :: Settable(all[k].loc)) && ValidPart(p) && regs <= ADDRESSING
    requires SetsOneOf(g, all) && Depend(g, PartGadget(p, regs))
    ensures PartPlace(p, regs) < SetUpPlace(g, regs)
  {
    var m :| 0 <= m < |all| && Sets(g, all[m]);
    PartBeforeSetUp(p, g, all[m], regs);
  }

  lemma {:induction false} JointEdge(all: seq<Item>, mine: seq<Gadget>, parts: seq<Part>, regs: set<Register>, i: nat,
      j: nat)
    requires ValidItems(all) && ValidParts(parts) && regs <= ADDRESSING && !Trapped(all, parts, regs)
    requires forall k | 0 <= k < |mine| :: SetsOneOf(mine[k], all)
    requires i < |mine| + |parts| && j < |mine| + |parts| && i != j
    requires Depend(At(mine, parts, regs, j), At(mine, parts, regs, i))
    ensures PlaceAt(mine, parts, regs, i) < PlaceAt(mine, parts, regs, j)
  {
    var n := |mine|;
    if i < n {
      EdgeFromSetUp(all, mine, parts, regs, i, j);
    } else if j < n {
      EdgeToSetUp(all, mine[j], parts[i - n], regs);
    } else {
      PartBeforePart(all, parts, i - n, j - n, regs);
    }
  }

  lemma {:induction false} JointListIsRanked(all: seq<Item>, mine: seq<Gadget>, parts: seq<Part>, regs: set<Register>,
      gs: seq<Gadget>, places: seq<int>)
    requires ValidItems(all) && ValidParts(parts) && regs <= ADDRESSING && !Trapped(all, parts, regs)
    requires forall k | 0 <= k < |mine| :: SetsOneOf(mine[k], all)
    requires |gs| == |places| == |mine| + |parts|
    requires forall i | 0 <= i < |gs| :: gs[i] == At(mine, parts, regs, i) && places[i] == PlaceAt(mine, parts, regs, i)
    ensures RankedList(gs, places)
  {
    forall i, j | 0 <= i < |gs| && 0 <= j < |gs| && i != j && Depend(gs[j], gs[i])
      ensures places[i] < places[j]
    {
      JointEdge(all, mine, parts, regs, i, j);
    }
  }

  lemma {:induction false} UntrappedListIsAcyclic(all: seq<Item>, snapshot: State, parts: seq<Part>,
      regs: set<Register>, g: Digraph)
    requires ValidItems(all) && ValidParts(parts) && regs <= ADDRESSING && !Trapped(all, parts, regs)
    requires IsDependencyGraph(JointList(all, snapshot, parts, regs), g)
    ensures !HasCycle(g)
  {
    var mine, gs := GenAll(all, snapshot), JointList(all, snapshot, parts, regs);
    var places := seq(|gs|, i requires 0 <= i < |gs| => PlaceAt(mine, parts, regs, i));
    GadgetsStemFromItems(all, snapshot);
    forall k | 0 <= k < |mine|
      ensures SetsOneOf(mine[k], all)
    {
      assert mine[k] in mine;
    }
    JointListIsRanked(all, mine, parts, regs, gs, places);
    RankedListIsAcyclic(gs, g, places);
  }

  lemma {:induction false} EcxIsDefined(all: seq<Item>, snapshot: State, parts: seq<Part>, regs: set<Register>)
    returns (d: nat)
    requires ValidItems(all) && SetsEcx(all, parts)
    ensures var mine := GenAll(all, snapshot);
            d < |mine| + |parts| && Reg(ECX) in At(mine, parts, regs, d).define
  {
    var mine := GenAll(all, snapshot);
    if Reg(ECX) in Locs(all) {
      ItemsAreDefined(all, snapshot, Reg(ECX));
      d :| 0 <= d < |mine| && Reg(ECX) in mine[d].define;
    } else {
      var p :| p in parts && p.Load? && p.r == ECX;
      var i: nat :| i < |parts| && parts[i] == p;
      d := |mine| + i;
    }
  }

  lemma {:induction false} JointListAt(all: seq<Item>, snapshot: State, parts: seq<Part>, regs: set<Register>, i: nat)
    requires ValidItems(all) && i < |GenAll(all, snapshot)| + |parts|
    ensures var gs := JointList(all, snapshot, parts, regs);
            i < |gs| && gs[i] == At(GenAll(all, snapshot), parts, regs, i)
  {
  }

  lemma {:induction false} FirstWordNeedsEcx(p: Part, regs: set<Register>)
    requires FirstWord(p) && EAX in regs && ECX in regs
    ensures var g := PartGadget(p, regs); Reg(ECX) in g.kill && Reg(ECX) in g.useAfter && Reg(ECX) !in g.define
  {
  }

  lemma {:induction false} TwoCycle(gs: seq<Gadget>, g: Digraph, m: nat, d: nat, l: Loc)
    requires IsDependencyGraph(gs, g) && m < |gs| && d < |gs| && m != d
    requires l in gs[d].define && l in gs[m].kill && l in gs[m].useAfter
    ensures HasCycle(g)
  {
    assert l in gs[d].define * gs[m].kill && l in gs[d].define * gs[m].useAfter;
    assert g.Edge(m, d) && g.Edge(d, m);
    assert IsWalk(g, [m, d, m]);
  }

  /** The gadget that sets ECX, and one that needs it and destroys it. */
  lemma {:induction false} TrappedPair(all: seq<Item>, snapshot: State, parts: seq<Part>, regs: set<Register>)
    returns (m: nat, d: nat)
    requires ValidItems(all) && Trapped(all, parts, regs)
    ensures var gs := JointList(all, snapshot, parts, regs);
            && m < |gs| && d < |gs| && m != d && Reg(ECX) in gs[d].define
            && Reg(ECX) in gs[m].kill && Reg(ECX) in gs[m].useAfter
  {
    d := EcxIsDefined(all, snapshot, parts, regs);
    JointListAt(all, snapshot, parts, regs, d);
    m := EcxIsNeeded(parts, regs, GenAll(all, snapshot));
    JointListAt(all, snapshot, parts, regs, m);
  }

  lemma {:induction false} EcxIsNeeded(parts: seq<Part>, regs: set<Register>, mine: seq<Gadget>) returns (m: nat)
    requires EAX in regs && ECX in regs && exists p :: p in parts && FirstWord(p)
    ensures m < |mine| + |parts|
    ensures var g := At(mine, parts, regs, m); Reg(ECX) in g.kill && Reg(ECX) in g.useAfter && Reg(ECX) !in g.define
  {
    var p :| p in parts && FirstWord(p);
    var k: nat :| k < |parts| && parts[k] == p;
    m := |mine| + k;
    FirstWordNeedsEcx(p, regs);
  }

  lemma {:induction false} TrappedListHasCycle(all: seq<Item>, snapshot: State, parts: seq<Part>, regs: set<Register>,
      g: Digraph)
    requires ValidItems(all) && Trapped(all, parts, regs)
    requires IsDependencyGraph(JointList(all, snapshot, parts, regs), g)
    ensures HasCycle(g)
  {
    var m, d := TrappedPair(all, snapshot, parts, regs);
    TwoCycle(JointList(all, snapshot, parts, regs), g, m, d, Reg(ECX));
  }

  /**
   Sorting the set-up of a test case together with what loads and saves the operands of its instruction: a schedule
   is found if and only if the test case is not trapped.
   */
  method SortJointly(all: seq<Item>, snapshot: State, parts: seq<Part>, regs: set<Register>)
    returns (r: Option<seq<nat>>)
    requires ValidItems(all) && ValidParts(parts) && regs <= ADDRESSING
    ensures r.None? <==> Trapped(all, parts, regs)
    ensures r.Some? ==> IsSchedule(JointList(all, snapshot, parts, regs), r.value)
  {
    var gs := JointList(all, snapshot, parts, regs);
    ghost var g;
    r, g := SortGadget(gs);
    if Trapped(all, parts, regs) {
      TrappedListHasCycle(all, snapshot, parts, regs, g);
    } else {
      UntrappedListIsAcyclic(all, snapshot, parts, regs, g);
    }
  }

  /** `add (%eax,%ecx),%edx`: the two gadgets for the memory operand. */
  const INDEXED: set<Register> := {DS, EAX, ECX}

  function IndexedAdd(text: string, src: string, block: string): seq<Part> {
    [SaveMemory(text, block, true), SetMemory(text, src, true)]
  }

  /** A test case that sets ECX cannot be compiled for this instruction; one that leaves it alone can. */
  lemma {:induction false} IndexedAddIsTrapped(all: seq<Item>, text: string, src: string, block: string)
    requires text != src && text != block && src != block
    ensures ValidParts(IndexedAdd(text, src, block)) && INDEXED <= ADDRESSING
    ensures Trapped(all, IndexedAdd(text, src, block), INDEXED) <==> Reg(ECX) in Locs(all)
  {
    var parts := IndexedAdd(text, src, block);
    assert parts[0] in parts && FirstWord(parts[0]);
  }

  // ---------------------------------------------------------------------------------------------
  // What a joint run leaves behind
  // ---------------------------------------------------------------------------------------------

  /** Besides the k-th part nothing defines the location. */
  ghost predicate OnlyPart(all: seq<Item>, parts: seq<Part>, regs: set<Register>, k: nat, l: Loc) {
    && l !in Locs(all) && !l.Shared? && k < |parts| && l in PartGadget(parts[k], regs).define
    && (forall j | 0 <= j < |parts| && j != k :: l !in PartGadget(parts[j], regs).define)
  }

  lemma {:induction false} NoOtherDefines(all: seq<Item>, snapshot: State, parts: seq<Part>, regs: set<Register>,
      k: nat, l: Loc)
    requires ValidItems(all) && OnlyPart(all, parts, regs, k, l)
    ensures !DefinedByAnother(JointList(all, snapshot, parts, regs), |GenAll(all, snapshot)| + k, l)
  {
    var mine, gs := GenAll(all, snapshot), JointList(all, snapshot, parts, regs);
    forall d | 0 <= d < |gs| && d != |mine| + k
      ensures l !in gs[d].define
    {
      JointListAt(all, snapshot, parts, regs, d);
      if d < |mine| {
        SetUpDefines(all, snapshot, d, l);
      }
    }
  }

  lemma {:induction false} SetUpDefines(all: seq<Item>, snapshot: State, d: nat, l: Loc)
    requires ValidItems(all) && d < |GenAll(all, snapshot)| && l !in Locs(all) && !l.Shared?
    ensures l !in GenAll(all, snapshot)[d].define
  {
    var mine := GenAll(all, snapshot);
    GadgetsStemFromItems(all, snapshot);
    assert mine[d] in mine;
    var m :| 0 <= m < |all| && Sets(mine[d], all[m]);
    assert all[m].loc in Locs(all);
  }

  /** A part that is alone in defining a location is alone in the joint list. */
  lemma {:induction false} SoleInJointList(all: seq<Item>, snapshot: State, parts: seq<Part>, regs: set<Register>,
      k: nat, l: Loc)
    requires ValidItems(all) && OnlyPart(all, parts, regs, k, l)
    ensures var gs, i := JointList(all, snapshot, parts, regs), |GenAll(all, snapshot)| + k;
            i < |gs| && gs[i] == PartGadget(parts[k], regs) && !DefinedByAnother(gs, i, l)
  {
    JointListAt(all, snapshot, parts, regs, |GenAll(all, snapshot)| + k);
    NoOtherDefines(all, snapshot, parts, regs, k, l);
  }

  /** Where a part that reads before anything is set takes its value from. */
  function EarlySource(p: Part, l: Loc): Option<Loc> {
    match p
    case Load(_, src) => Some(Operand(src))
    case LoadStack(_, src) => Some(Operand(src))
    case SaveHalf(r, _) => Some(Reg(r))
    case SetMemory(_, src, _) => Some(Operand(src))
    case SaveMemory(text, _, first) => if first then None else Some(Operand(text))
    case CopyBlocks(copies) => if l.Operand? && l.text in copies then Some(Operand(copies[l.text])) else None
    case _ => None
  }

  lemma {:induction false} EarlyValue(p: Part, regs: set<Register>, l: Loc, s: State)
    requires l in PartGadget(p, regs).define && EarlySource(p, l).Some?
    ensures EarlySource(p, l).value in PartGadget(p, regs).use
    ensures PartGadget(p, regs).value(s, l) == s(EarlySource(p, l).value)
  {
  }

  /**
   In every run of every schedule: registers get what their blocks held at the start, memory operands too, and blocks
   get what was in the registers, later words of memory and other blocks at the start.
   */
  lemma {:induction false} EarlyPartDelivers(all: seq<Item>, snapshot: State, parts: seq<Part>, regs: set<Register>,
      order: seq<nat>, states: seq<State>, k: nat, l: Loc)
    requires ValidItems(all) && OnlyPart(all, parts, regs, k, l) && EarlySource(parts[k], l).Some?
    requires var gs := JointList(all, snapshot, parts, regs); IsSchedule(gs, order) && IsRun(gs, order, states)
    ensures states[|order|](l) == states[0](EarlySource(parts[k], l).value)
  {
    var gs := JointList(all, snapshot, parts, regs);
    SoleInJointList(all, snapshot, parts, regs, k, l);
    var p := SoleInSchedule(gs, order, states, |GenAll(all, snapshot)| + k, l);
    EarlyValue(parts[k], regs, l, states[p]);
    ReadsInitialValue(gs, order, states, p, EarlySource(parts[k], l).value);
  }

  /** Where a part that reads after everything is set takes its value from. */
  function LateSource(p: Part): Option<Loc> {
    match p
    case Save(r, _) => Some(Reg(r))
    case SaveStack(r, _) => Some(Reg(r))
    case SaveMemory(text, _, first) => if first then Some(Operand(text)) else None
    case _ => None
  }

  lemma {:induction false} LateValue(p: Part, regs: set<Register>, l: Loc, s: State)
    requires l in PartGadget(p, regs).define && LateSource(p).Some?
    ensures LateSource(p).value in PartGadget(p, regs).useAfter
    ensures PartGadget(p, regs).value(s, l) == s(LateSource(p).value)
  {
  }

  /** The other saves take place when all gadgets that set what they save have run. */
  lemma {:induction false} LatePartDelivers(all: seq<Item>, snapshot: State, parts: seq<Part>, regs: set<Register>,
      order: seq<nat>, states: seq<State>, k: nat, l: Loc)
    returns (p: nat)
    requires ValidItems(all) && OnlyPart(all, parts, regs, k, l) && LateSource(parts[k]).Some?
    requires var gs := JointList(all, snapshot, parts, regs); IsSchedule(gs, order) && IsRun(gs, order, states)
    ensures p < |order| && states[|order|](l) == states[p](LateSource(parts[k]).value)
    ensures var gs := JointList(all, snapshot, parts, regs);
            forall q | 0 <= q < |order| && q != p && LateSource(parts[k]).value in gs[order[q]].define :: q < p
  {
    var gs := JointList(all, snapshot, parts, regs);
    SoleInJointList(all, snapshot, parts, regs, k, l);
    p := SoleInSchedule(gs, order, states, |GenAll(all, snapshot)| + k, l);
    var c := LateSource(parts[k]).value;
    LateValue(parts[k], regs, l, states[p]);
    forall q | 0 <= q < |order| && q != p && c in gs[order[q]].define
      ensures q < p
    {
      assert c in gs[order[q]].define * gs[order[p]].useAfter;
    }
  }

  // ---------------------------------------------------------------------------------------------
  // In which order the parts run
  // ---------------------------------------------------------------------------------------------

  /** What the parts of an instruction destroy: the register through which its memory operand is copied. */
  lemma {:induction false} PartsKillExactly(parts: seq<Part>, regs: set<Register>, l: Loc)
    ensures KilledIn(PartGadgets(parts, regs), l) <==>
            && l == Reg(if EAX in regs then ECX else EAX)
            && exists k :: 0 <= k < |parts| && (parts[k].SetMemory? || parts[k].SaveMemory?)
  {
    var gs := PartGadgets(parts, regs);
    if k :| 0 <= k < |parts| && (parts[k].SetMemory? || parts[k].SaveMemory?) {
      assert Reg(if EAX in regs then ECX else EAX) in gs[k].kill;
    }
  }

  /** Memory is copied before its scratch register is set, the stack of the coprocessor is used before CR0 is. */
  predicate RunsBefore(p: Part, g: Gadget, regs: set<Register>) {
    || ((p.SetMemory? || p.SaveMemory?) && Reg(if EAX in regs then ECX else EAX) in g.define)
    || ((p.LoadStack? || p.SaveStack?) && Reg(CR(0)) in g.define)
    || (p.SaveHalf? && (Reg(p.r) in g.define || Reg(p.r) in g.kill))
    || (p.SaveMemory? && !p.first && Operand(p.text) in g.define)
  }

  /** The first word is accessed after the registers of its address are set; registers are saved after they are set. */
  predicate RunsAfter(p: Part, g: Gadget, regs: set<Register>) {
    || (FirstWord(p) && exists r :: r in regs && Reg(r) in g.define)
    || ((p.Save? || p.SaveStack?) && Reg(p.r) in g.define)
    || (p.SaveMemory? && p.first && Operand(p.text) in g.define)
  }

  lemma {:induction false} PartDepends(p: Part, g: Gadget, regs: set<Register>)
    ensures RunsBefore(p, g, regs) ==> Depend(g, PartGadget(p, regs))
    ensures RunsAfter(p, g, regs) ==> Depend(PartGadget(p, regs), g)
  {
    var h := PartGadget(p, regs);
    DependExactlyWhen(g, h);
    DependExactlyWhen(h, g);
    if FirstWord(p) && exists r :: r in regs && Reg(r) in g.define {
      var r :| r in regs && Reg(r) in g.define;
      assert Reg(r) in h.useAfter;
    }
  }

  /** Every schedule keeps these orders. */
  lemma {:induction false} PartsInOrder(all: seq<Item>, snapshot: State, parts: seq<Part>, regs: set<Register>,
      order: seq<nat>, k: nat, a: nat, b: nat)
    requires ValidItems(all) && k < |parts| && IsSchedule(JointList(all, snapshot, parts, regs), order)
    requires a < |order| && b < |order| && a != b && order[a] == |GenAll(all, snapshot)| + k
    ensures var g := JointList(all, snapshot, parts, regs)[order[b]];
            (RunsBefore(parts[k], g, regs) ==> a < b) && (RunsAfter(parts[k], g, regs) ==> b < a)
  {
    var gs := JointList(all, snapshot, parts, regs);
    JointListAt(all, snapshot, parts, regs, order[a]);
    PartDepends(parts[k], gs[order[b]], regs);
  }
}

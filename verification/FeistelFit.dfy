/**
 Which test cases have wide stores that fit: a condition on the operands of the test case and of the first one, which
 lays out the blocks.
 */
module FeistelFit {
  import opened Feistel
  import opened FeistelCode
  import opened FeistelPlans
  import opened FeistelSpace
  import opened FeistelEmission

  /** The runs of consecutive words in L: one for each operand written, and one for exception data and padding. */
  function LRuns(first: seq<Operand>): seq<nat> {
    AllWriteRuns(first) + [Served(first) - (|AllWritten(first)| - 2)]
  }

  /**
   An output stored in 16 bytes has four words, and these lie within one operand read and one operand written (or in the
   padding) of the first test case.
   */
  predicate FitsOperand(first: seq<Operand>, piece: Piece) {
    !piece.op.mem && piece.op.via.Movdqu? ==>
      && Words(piece.op.bytes) == 4
      && Inside(AllReadRuns(first), piece.at, 4)
      && Inside(LRuns(first), piece.at, 4)
  }

  ghost predicate FitsOperands(first: seq<Operand>, ops: seq<Operand>) {
    forall k | 0 <= k < |AllPieces(ops)| :: FitsOperand(first, AllPieces(ops)[k])
  }

  lemma {:induction false} WriteRunsAddUp(ops: seq<Operand>, mem: bool)
    ensures Total(WriteRuns(ops, mem)) == WriteWords(ops, mem)
  {
    if ops != [] {
      var init, last := ops[..|ops| - 1], ops[|ops| - 1];
      WriteRunsAddUp(init, mem);
      var runs := WriteRuns(ops, mem);
      if last.mem == mem && last.isWritten && last.bytes > 0 {
        assert runs[..|runs| - 1] == WriteRuns(init, mem);
      }
    }
  }

  lemma {:induction false} TotalOfConcat(a: seq<nat>, b: seq<nat>)
    ensures Total(a + b) == Total(a) + Total(b)
  {
    if b == [] {
      assert a + b == a;
    } else {
      assert (a + b)[..|a + b| - 1] == a + b[..|b| - 1];
      TotalOfConcat(a, b[..|b| - 1]);
    }
  }

  lemma {:induction false} AllWriteRunsAddUp(ops: seq<Operand>)
    ensures Total(AllWriteRuns(ops)) == |AllWritten(ops)| - 2
  {
    WriteRunsAddUp(ops, false);
    WriteRunsAddUp(ops, true);
    TotalOfConcat(WriteRuns(ops, false), WriteRuns(ops, true));
    WidthPerWord(ops, false);
    WidthPerWord(ops, true);
  }

  /** The blocks that the first test case lays out, from empty lists. */
  ghost predicate LaidOut(first: seq<Operand>, p: Space, y: Layout) {
    && p.r == p.l == []
    && y.l == FirstSpace(first, p).l && y.r == FirstSpace(first, p).r && |y.l| == |y.r| == Served(first)
  }

  lemma {:induction false} PieceFitsExactlyWhen(first: seq<Operand>, p: Space, y: Layout, piece: Piece)
    requires LaidOut(first, p, y) && piece.op.bytes > 0 && HasRoom(piece.op, y.l, y.r, piece.at)
    ensures FitsAt(piece.op, y.l, y.r, piece.at) <==> FitsOperand(first, piece)
  {
    if !piece.op.mem && piece.op.via.Movdqu? && Words(piece.op.bytes) == 4 {
      var k := RunsOfR(first, p);
      ConsecutiveExactly(y.r, piece.at);
      OnesDoNotMatter(AllReadRuns(first), k, piece.at);
      RunsOfL(first, p);
      AllWriteRunsAddUp(first);
      ConsecutiveExactly(y.l, piece.at);
    }
  }

  /** The wide stores of a test case fit the blocks that the first one laid out exactly when its operands fit. */
  lemma {:induction false} FitsExactlyWhen(first: seq<Operand>, p: Space, y: Layout, ops: seq<Operand>)
    requires LaidOut(first, p, y) && Served(ops) <= |y.l|
    ensures TestCaseFits(ops, y) <==> FitsOperands(first, ops)
  {
    var plan := AllPieces(ops);
    PlanIsRoomy(ops, y.l, y.r);
    forall k | 0 <= k < |plan|
      ensures FitsAt(plan[k].op, y.l, y.r, plan[k].at) <==> FitsOperand(first, plan[k])
    {
      PieceFitsExactlyWhen(first, p, y, plan[k]);
    }
  }

  // ---------------------------------------------------------------------------------------------
  // A load into an `xmm` register does not fit, an operation between two of them does
  // ---------------------------------------------------------------------------------------------

  const EAX_READ: Operand := Operand(false, false, 4, true, false, ByWord)
  const MEM_READ: Operand := Operand(true, false, 16, true, false, ByWord)
  const XMM_READ: Operand := Operand(false, false, 16, true, false, Movdqu)
  const XMM_WRITTEN: Operand := Operand(false, false, 16, false, true, Movdqu)
  const XMM_BOTH: Operand := Operand(false, false, 16, true, true, Movdqu)

  /** `movaps (%eax),%xmm0` */
  const LOAD: seq<Operand> := [EAX_READ, MEM_READ, XMM_WRITTEN]
  /** `xorps %xmm1,%xmm0` */
  const XORPS: seq<Operand> := [XMM_BOTH, XMM_READ]

  /** The lists of R blocks and backup blocks only grow. */
  ghost predicate RGrows(p: Space, q: Space) {
    p.r <= q.r && p.rBak <= q.rBak
  }

  lemma {:induction false} ReadsExtend(ops: seq<Operand>, mem: bool, p: Space)
    ensures RGrows(p, ReadsSpace(ops, mem, p))
  {
    if ops != [] {
      ReadsExtend(ops[..|ops| - 1], mem, p);
    }
  }

  lemma {:induction false} GrownExtends(p: Space, k: nat)
    ensures RGrows(p, Grown(p, k))
  {
    if k > 0 {
      GrownExtends(p, k - 1);
    }
  }

  lemma {:induction false} WritesExtend(ops: seq<Operand>, mem: bool, p: Space)
    ensures RGrows(p, WritesSpace(ops, mem, p))
  {
    if ops != [] {
      var init, last := ops[..|ops| - 1], ops[|ops| - 1];
      WritesExtend(init, mem, p);
      if last.mem == mem && last.isWritten && last.bytes > 0 {
        var q, w := WritesSpace(init, mem, p), Words(last.bytes);
        GrownExtends(AddWrite(q, w), Missing(|q.r|, |q.l| + w));
      }
    }
  }

  lemma {:induction false} EvenRExtends(p: Space)
    ensures RGrows(p, EvenR(p))
    decreases |p.l| - |p.r|
  {
    if |p.r| < |p.l| {
      EvenRExtends(PadR(p));
    }
  }

  lemma {:induction false} EvenLKeepsR(p: Space)
    ensures EvenL(p).r == p.r && EvenL(p).rBak == p.rBak
    decreases |p.r| - |p.l|
  {
    if |p.l| < |p.r| {
      EvenLKeepsR(PadL(p, 1));
    }
  }

  /** The register read first gets the first blocks. */
  lemma {:induction false} FirstSpaceExtends(ops: seq<Operand>, p: Space)
    ensures RGrows(ReadsSpace(ops, false, p), FirstSpace(ops, p))
  {
    var p1 := ReadsSpace(ops, false, p);
    var p2 := ReadsSpace(ops, true, p1);
    ReadsExtend(ops, true, p1);
    WritesExtend(ops, false, p2);
    WritesExtend(ops, true, WritesSpace(ops, false, p2));
    EvenRExtends(PadL(OperandSpace(ops, p), 2));
    EvenLKeepsR(EvenR(PadL(OperandSpace(ops, p), 2)));
  }

  lemma {:induction false} LoadReads(p: Space)
    ensures ReadsSpace(LOAD, false, p) == AddRead(p, 1)
  {
    assert [EAX_READ][..0] == [] && [EAX_READ, MEM_READ][..1] == [EAX_READ] && LOAD[..2] == [EAX_READ, MEM_READ];
    assert ReadsSpace([EAX_READ], false, p) == AddRead(p, 1);
    assert ReadsSpace([EAX_READ, MEM_READ], false, p) == AddRead(p, 1);
  }

  lemma {:induction false} LoadPlan()
    ensures AllPieces(LOAD) == [Piece(XMM_WRITTEN, 0)]
  {
    assert [EAX_READ][..0] == [] && [EAX_READ, MEM_READ][..1] == [EAX_READ] && LOAD[..2] == [EAX_READ, MEM_READ];
    NothingWritten(false, 0, []);
    var regs, at := PlanOf(LOAD, false, 0, []), WriteWords(LOAD, false);
    assert regs == [Piece(XMM_WRITTEN, 0)];
    NothingWritten(true, at, regs);
  }

  lemma {:induction false} NothingWritten(mem: bool, at: nat, plan: seq<Piece>)
    ensures var ops := [EAX_READ, MEM_READ]; PlanOf(ops, mem, at, plan) == plan && WriteWords(ops, mem) == 0
  {
    assert [EAX_READ][..0] == [] && [EAX_READ, MEM_READ][..1] == [EAX_READ];
    assert PlanOf([EAX_READ], mem, at, plan) == plan && WriteWords([EAX_READ], mem) == 0;
  }

  /** Whatever the first free address, the code generated for the load does not compute its round. */
  lemma {:induction false} LoadIsSpoiled(p: Space, y: Layout) returns (f: Outputs)
    requires ValidLayout(y) && LaidOut(LOAD, p, y) && p.rBak == [] && y.bak == FirstSpace(LOAD, p).rBak
    ensures !FitsOperands(LOAD, LOAD)
    ensures !ComputesRound(y, |AllWritten(LOAD)|, RoundWidths(LOAD, |y.l|), f, BLANK,
                           RunStores(RoundStores(LOAD, y), f, y, BLANK))
  {
    var q := ReadsSpace(LOAD, false, p);
    LoadReads(p);
    LoadPlan();
    FirstSpaceExtends(LOAD, p);
    assert q.r == Run(p.next, 1) && q.rBak == Run(p.next + 4, 1);
    assert y.r[0] == q.r[0] && y.bak[0] == q.rBak[0];
    PlanIsRoomy(LOAD, y.l, y.r);
    f := WideStoreOverBackup(LOAD, y, 1, 0);
    if FitsOperands(LOAD, LOAD) {
      FitsExactlyWhen(LOAD, p, y, LOAD);
      StoresComputeRound(LOAD, y, f, BLANK);
    }
  }

  lemma {:induction false} XorpsOperands(mem: bool)
    ensures ReadRuns(XORPS, mem) == if mem then [] else [4, 4]
    ensures WriteRuns(XORPS, mem) == if mem then [] else [4]
  {
    var one := [XMM_BOTH];
    assert XORPS[..1] == one && one[..0] == [];
    assert ReadRuns(one, mem) == if mem then [] else [4];
    assert WriteRuns(one, mem) == if mem then [] else [4];
  }

  lemma {:induction false} XorpsPlan(mem: bool, at: nat, plan: seq<Piece>)
    ensures PlanOf(XORPS, mem, at, plan) == if mem then plan else plan + [Piece(XMM_BOTH, at)]
  {
    var one := [XMM_BOTH];
    assert XORPS[..1] == one && one[..0] == [];
    assert PlanOf(one, mem, at, plan) == if mem then plan else plan + [Piece(XMM_BOTH, at)];
  }

  lemma {:induction false} FirstFour(runs: seq<nat>)
    requires runs != [] && runs[0] == 4
    ensures Inside(runs, 0, 4) && Total(runs) >= 4
  {
    if |runs| == 1 {
      assert runs[..0] == [];
    } else {
      FirstFour(runs[..|runs| - 1]);
    }
  }

  /** Its output fits the blocks that it lays out. */
  lemma {:induction false} XorpsFits()
    ensures FitsOperands(XORPS, XORPS)
  {
    XorpsOperands(false);
    XorpsOperands(true);
    XorpsPlan(false, 0, []);
    XorpsPlan(true, WriteWords(XORPS, false), PlanOf(XORPS, false, 0, []));
    assert AllPieces(XORPS) == [] + [Piece(XMM_BOTH, 0)] == [Piece(XMM_BOTH, 0)];
    assert AllReadRuns(XORPS) == [4, 4] && AllWriteRuns(XORPS) == [4];
    FirstFour(AllReadRuns(XORPS));
    FirstFour(LRuns(XORPS));
    assert FitsOperand(XORPS, Piece(XMM_BOTH, 0));
  }
}

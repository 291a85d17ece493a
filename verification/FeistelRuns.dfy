/**
 Whole series of test cases: the compiled program computes the Feistel rounds one after the other where its wide stores
 fit, and a single divergent test case shows in the final aggregate.
 */
module FeistelRuns {
  import opened Feistel
  import opened FeistelCode
  import opened FeistelWide
  import opened FeistelPlans
  import opened FeistelBlocks
  import opened FeistelSpace
  import opened FeistelEmission
  import opened FeistelBytes
  import opened FeistelFit

  // ---------------------------------------------------------------------------------------------
  // Which operand lists are aggregated without loss
  // ---------------------------------------------------------------------------------------------

  ghost predicate AllWords(widths: seq<nat>) {
    forall i | 0 <= i < |widths| :: widths[i] >= 4
  }

  /**
   Every word of the register is stored in full: moved word by word, it has at least one; with `movd`, at most one.
   */
  predicate StoredInFull(op: Operand) {
    match op.via
    case ByWord => op.bytes >= 4
    case Movd => op.bytes <= 4
    case Movdqu => true
  }

  /** No register is written that is not stored in full. */
  ghost predicate NoNarrowOutput(ops: seq<Operand>) {
    forall i | 0 <= i < |ops| :: !ops[i].mem && ops[i].isWritten && ops[i].bytes > 0 ==> StoredInFull(ops[i])
  }

  lemma {:induction false} AllWordsOfConcat(a: seq<nat>, b: seq<nat>)
    ensures AllWords(a + b) <==> AllWords(a) && AllWords(b)
  {
    if AllWords(a + b) {
      forall i | 0 <= i < |a| ensures a[i] >= 4 {
        assert (a + b)[i] == a[i];
      }
      forall i | 0 <= i < |b| ensures b[i] >= 4 {
        assert (a + b)[|a| + i] == b[i];
      }
    }
  }

  lemma {:induction false} MemoryOutputsAreWords(ops: seq<Operand>)
    ensures AllWords(WriteWidths(ops, true))
  {
    if ops != [] {
      MemoryOutputsAreWords(ops[..|ops| - 1]);
    }
  }

  lemma {:induction false} RegisterOutputsAreWords(ops: seq<Operand>)
    ensures AllWords(WriteWidths(ops, false)) <==> NoNarrowOutput(ops)
  {
    if ops != [] {
      var init, last := ops[..|ops| - 1], ops[|ops| - 1];
      RegisterOutputsAreWords(init);
      assert NoNarrowOutput(ops) <==> NoNarrowOutput(init) && NoNarrowOutput([last]) by {
        assert ops == init + [last];
      }
      var tail := if last.mem == false && last.isWritten then StoredBytes(last) else [];
      AllWordsOfConcat(WriteWidths(init, false), tail);
      if !last.mem && last.isWritten && last.bytes > 0 {
        WidthsOfOne(last);
      }
      assert AllWords(tail) <==> NoNarrowOutput([last]);
    }
  }

  lemma {:induction false} WidthsOfOne(op: Operand)
    requires !op.mem && op.bytes > 0
    ensures AllWords(StoredBytes(op)) <==> StoredInFull(op)
  {
    var s := StoredBytes(op);
    match op.via {
      case ByWord =>
        if op.bytes < 4 {
          assert s[0] == op.bytes;
        }
      case Movd =>
        if op.bytes > 4 {
          assert s[1] == 0;
        }
      case Movdqu =>
    }
  }

  /** The round writes every block in full exactly when no narrow register is written and no block is left over. */
  lemma {:induction false} FullExactlyWhen(ops: seq<Operand>, n: nat)
    requires Served(ops) <= n
    ensures AllWords(RoundWidths(ops, n)) <==> NoNarrowOutput(ops) && Served(ops) == n
  {
    var regs, mem := WriteWidths(ops, false), WriteWidths(ops, true);
    RegisterOutputsAreWords(ops);
    MemoryOutputsAreWords(ops);
    AllWordsOfConcat(regs, mem);
    AllWordsOfConcat(regs + mem, [4, 4]);
    var padding, rest := Fours(Served(ops) - |AllWritten(ops)|), Zeros(n - Served(ops));
    AllWordsOfConcat(AllWritten(ops), padding);
    AllWordsOfConcat(AllWritten(ops) + padding, rest);
    if Served(ops) < n {
      assert rest[0] == 0;
    }
  }

  // ---------------------------------------------------------------------------------------------
  // Running a series
  // ---------------------------------------------------------------------------------------------

  /** The code of each test case, for the same blocks. */
  ghost predicate Compiled(codes: seq<StoreCode>, cases: seq<seq<Operand>>, y: Layout) {
    && ValidLayout(y) && |codes| == |cases|
    && (forall i | 0 <= i < |cases| :: Served(cases[i]) <= |y.l| && codes[i] == RoundStores(cases[i], y))
  }

  ghost predicate AllFit(cases: seq<seq<Operand>>, y: Layout) {
    forall i | 0 <= i < |cases| :: TestCaseFits(cases[i], y)
  }

  /** The memory after the series, on an emulator that answers the i-th test case with `fs[i]`. */
  ghost function RunAll(codes: seq<StoreCode>, fs: seq<Outputs>, y: Layout, m: Memory): Memory
    requires |codes| == |fs|
  {
    if codes == [] then m else RunAll(codes[1..], fs[1..], y, RunStores(codes[0], fs[0], y, m))
  }

  ghost function CaseOf(ops: seq<Operand>, f: Outputs, n: nat): Case
    requires Served(ops) <= n
  {
    Case(RoundWidths(ops, n), Padded(f, |AllWritten(ops)|, n))
  }

  ghost function Cases(cases: seq<seq<Operand>>, fs: seq<Outputs>, n: nat): seq<Case>
    requires |cases| == |fs| && forall i | 0 <= i < |cases| :: Served(cases[i]) <= n
  {
    seq(|cases|, i requires 0 <= i < |cases| => CaseOf(cases[i], fs[i], n))
  }

  /** From every memory, the code computes the round. */
  ghost predicate ComputesCase(code: StoreCode, f: Outputs, y: Layout, c: Case) {
    && |y.l| == |y.r| && ValidCase(c, |y.l|)
    && (forall m: Memory :: ComputesFrom(code, f, y, c, m))
  }

  ghost predicate ComputesFrom(code: StoreCode, f: Outputs, y: Layout, c: Case, m: Memory)
    requires |y.l| == |y.r| && ValidCase(c, |y.l|)
  {
    Aggregate(RunStores(code, f, y, m), y) == Round(c, Aggregate(m, y))
  }

  lemma {:induction false} FirstRun(codes: seq<StoreCode>, fs: seq<Outputs>, y: Layout, m: Memory)
    requires |codes| == |fs| > 0
    ensures RunAll(codes, fs, y, m) == RunAll(codes[1..], fs[1..], y, RunStores(codes[0], fs[0], y, m))
  {
  }

  lemma {:induction false} FirstRound(cs: seq<Case>, h: Halves, n: nat)
    requires cs != [] && ValidCases(cs, n) && Wide(h, n)
    ensures Rounds(cs, h, n) == Rounds(cs[1..], Round(cs[0], h), n)
  {
  }

  /** Code by code, the series computes the rounds. */
  lemma {:induction false} CodesComputeRounds(codes: seq<StoreCode>, cs: seq<Case>, fs: seq<Outputs>, y: Layout,
      m: Memory)
    requires |codes| == |cs| == |fs| && |y.l| == |y.r| && ValidCases(cs, |y.l|)
    requires forall i | 0 <= i < |cs| :: ComputesCase(codes[i], fs[i], y, cs[i])
    ensures Aggregate(RunAll(codes, fs, y, m), y) == Rounds(cs, Aggregate(m, y), |y.l|)
  {
    if codes != [] {
      assert ComputesCase(codes[0], fs[0], y, cs[0]) && ComputesFrom(codes[0], fs[0], y, cs[0], m);
      CodesComputeRounds(codes[1..], cs[1..], fs[1..], y, RunStores(codes[0], fs[0], y, m));
      FirstRun(codes, fs, y, m);
      FirstRound(cs, Aggregate(m, y), |y.l|);
    }
  }

  lemma {:induction false} FittingCodeComputes(ops: seq<Operand>, y: Layout, f: Outputs)
    requires ValidLayout(y) && Served(ops) <= |y.l| && TestCaseFits(ops, y)
    ensures ComputesCase(RoundStores(ops, y), f, y, CaseOf(ops, f, |y.l|))
  {
    StoresComputeRound(ops, y, f, BLANK);
    forall m: Memory
      ensures ComputesFrom(RoundStores(ops, y), f, y, CaseOf(ops, f, |y.l|), m)
    {
      StoresComputeRound(ops, y, f, m);
    }
  }

  /** The compiled series computes the rounds. */
  lemma {:induction false} SeriesComputesRounds(codes: seq<StoreCode>, cases: seq<seq<Operand>>, fs: seq<Outputs>,
      y: Layout, m: Memory)
    requires Compiled(codes, cases, y) && AllFit(cases, y) && |cases| == |fs|
    ensures ValidCases(Cases(cases, fs, |y.l|), |y.l|)
    ensures Aggregate(RunAll(codes, fs, y, m), y) == Rounds(Cases(cases, fs, |y.l|), Aggregate(m, y), |y.l|)
  {
    var cs := Cases(cases, fs, |y.l|);
    forall i | 0 <= i < |cs|
      ensures ComputesCase(codes[i], fs[i], y, cs[i])
    {
      FittingCodeComputes(cases[i], y, fs[i]);
    }
    CodesComputeRounds(codes, cs, fs, y, m);
  }

  lemma {:induction false} PartOfSeries(codes: seq<StoreCode>, cases: seq<seq<Operand>>, y: Layout, from: nat, to: nat)
    requires Compiled(codes, cases, y) && AllFit(cases, y) && from <= to <= |cases|
    ensures Compiled(codes[from..to], cases[from..to], y) && AllFit(cases[from..to], y)
  {
  }

  /**
   Two emulators run the same compiled series from the same memory and differ in at most the k-th test
   case.  Their final aggregates are equal if and only if their outputs in that test case are, on the
   inputs it had.
   */
  lemma {:induction false} SeriesShowsDivergence(codes: seq<StoreCode>, cases: seq<seq<Operand>>, fs: seq<Outputs>,
      gs: seq<Outputs>, k: nat, y: Layout, m: Memory)
    requires Compiled(codes, cases, y) && AllFit(cases, y) && |cases| == |fs| == |gs| && k < |cases|
    requires forall i | k <= i < |cases| :: NoNarrowOutput(cases[i]) && Served(cases[i]) == |y.l|
    requires forall i | 0 <= i < |cases| && i != k :: fs[i] == gs[i]
    ensures Aggregate(RunAll(codes, fs, y, m), y) == Aggregate(RunAll(codes, gs, y, m), y) <==>
            var inputs := Aggregate(RunAll(codes[..k], fs[..k], y, m), y).r;
            var words := |AllWritten(cases[k])|;
            Padded(fs[k], words, |y.l|)(inputs) == Padded(gs[k], words, |y.l|)(inputs)
  {
    SeriesComputesRounds(codes, cases, fs, y, m);
    SeriesComputesRounds(codes, cases, gs, y, m);
    PartOfSeries(codes, cases, y, 0, k);
    SeriesComputesRounds(codes[..k], cases[..k], fs[..k], y, m);
    CasesShowDivergence(cases, fs, gs, k, |y.l|, Aggregate(m, y));
  }

  lemma {:induction false} CasesShowDivergence(cases: seq<seq<Operand>>, fs: seq<Outputs>, gs: seq<Outputs>, k: nat,
      n: nat, h: Halves)
    requires |cases| == |fs| == |gs| && k < |cases| && Wide(h, n)
    requires forall i | 0 <= i < |cases| :: Served(cases[i]) <= n
    requires ValidCases(Cases(cases, fs, n), n) && ValidCases(Cases(cases, gs, n), n)
    requires forall i | k <= i < |cases| :: NoNarrowOutput(cases[i]) && Served(cases[i]) == n
    requires forall i | 0 <= i < |cases| && i != k :: fs[i] == gs[i]
    ensures ValidCases(Cases(cases[..k], fs[..k], n), n)
    ensures Rounds(Cases(cases, fs, n), h, n) == Rounds(Cases(cases, gs, n), h, n) <==>
            var inputs := Rounds(Cases(cases[..k], fs[..k], n), h, n).r;
            var words := |AllWritten(cases[k])|;
            Padded(fs[k], words, n)(inputs) == Padded(gs[k], words, n)(inputs)
  {
    var cs, ds, before := Cases(cases, fs, n), Cases(cases, gs, n), Cases(cases[..k], fs[..k], n);
    assert fs[..k] == gs[..k];
    SplitSeries(cases, fs, k, n, cs, before);
    SplitSeries(cases, gs, k, n, ds, before);
    assert ds[k + 1..] == cs[k + 1..];
    AllFullFrom(cases, fs, k, n, cs);
    AllFullFrom(cases, gs, k, n, ds);
    DivergenceIsVisible(before, cs[k], ds[k], cs[k + 1..], h, n);
  }

  lemma {:induction false} SplitSeries(cases: seq<seq<Operand>>, fs: seq<Outputs>, k: nat, n: nat, cs: seq<Case>,
      before: seq<Case>)
    requires |cases| == |fs| && k < |cases| && forall i | 0 <= i < |cases| :: Served(cases[i]) <= n
    requires cs == Cases(cases, fs, n) && before == Cases(cases[..k], fs[..k], n) && ValidCases(cs, n)
    ensures cs == before + [cs[k]] + cs[k + 1..] && ValidCases(before, n) && ValidCases(cs[k + 1..], n)
  {
    forall i | 0 <= i < k
      ensures before[i] == cs[i]
    {
    }
    SplitCases(cs, before, k, n);
  }

  lemma {:induction false} SplitCases(cs: seq<Case>, before: seq<Case>, k: nat, n: nat)
    requires k < |cs| && |before| == k && (forall i | 0 <= i < k :: before[i] == cs[i]) && ValidCases(cs, n)
    ensures cs == before + [cs[k]] + cs[k + 1..] && ValidCases(before, n) && ValidCases(cs[k + 1..], n)
  {
  }

  lemma {:induction false} AllFullFrom(cases: seq<seq<Operand>>, fs: seq<Outputs>, k: nat, n: nat, cs: seq<Case>)
    requires |cases| == |fs| && k < |cases| && forall i | 0 <= i < |cases| :: Served(cases[i]) <= n
    requires cs == Cases(cases, fs, n) && ValidCases(cs, n)
    requires forall i | k <= i < |cases| :: NoNarrowOutput(cases[i]) && Served(cases[i]) == n
    ensures ValidCase(cs[k], n) && FullWidth(cs[k]) && AllFull(cs[k + 1..])
  {
    forall i | k <= i < |cs|
      ensures FullWidth(cs[i])
    {
      CaseIsFullExactlyWhen(cases[i], fs[i], n);
    }
  }

  lemma {:induction false} CaseIsFullExactlyWhen(ops: seq<Operand>, f: Outputs, n: nat)
    requires Served(ops) <= n
    ensures FullWidth(CaseOf(ops, f, n)) <==> NoNarrowOutput(ops) && Served(ops) == n
  {
    FullExactlyWhen(ops, n);
  }

  // ---------------------------------------------------------------------------------------------
  // Which test cases lose information
  // ---------------------------------------------------------------------------------------------

  /** What the blocks held before the code ran can be told from what they hold after it. */
  ghost predicate LosesNothing(code: StoreCode, f: Outputs, y: Layout) {
    forall m: Memory, m': Memory :: KeepsApart(code, f, y, m, m')
  }

  ghost predicate KeepsApart(code: StoreCode, f: Outputs, y: Layout, m: Memory, m': Memory) {
    Aggregate(m, y) != Aggregate(m', y) ==>
      Aggregate(RunStores(code, f, y, m), y) != Aggregate(RunStores(code, f, y, m'), y)
  }

  ghost function Position(s: seq<nat>, a: nat): (i: nat)
    requires a in s
    ensures i < |s| && s[i] == a
  {
    var i: nat :| i < |s| && s[i] == a;
    i
  }

  /** The blocks can hold anything. */
  lemma {:induction false} SomeMemoryHolds(y: Layout, h: Halves) returns (m: Memory)
    requires ValidLayout(y) && Wide(h, |y.l|)
    ensures Aggregate(m, y) == h
  {
    m := (a: nat) =>
      if a in y.l then h.l[Position(y.l, a)] else if a in y.r then h.r[Position(y.r, a)] else ZERO;
    forall i | 0 <= i < |y.l|
      ensures m(y.l[i]) == h.l[i] && m(y.r[i]) == h.r[i]
    {
      assert Position(y.l, y.l[i]) == i && Position(y.r, y.r[i]) == i;
      assert y.r[i] !in y.l;
    }
  }

  lemma {:induction false} InjectiveLosesNothing(code: StoreCode, f: Outputs, y: Layout, c: Case)
    requires ComputesCase(code, f, y, c) && Injective(c, |y.l|)
    ensures LosesNothing(code, f, y)
  {
    forall m: Memory, m': Memory
      ensures KeepsApart(code, f, y, m, m')
    {
      assert ComputesFrom(code, f, y, c, m) && ComputesFrom(code, f, y, c, m');
    }
  }

  lemma {:induction false} LosesNothingIsInjective(code: StoreCode, f: Outputs, y: Layout, c: Case)
    requires ValidLayout(y) && ComputesCase(code, f, y, c) && LosesNothing(code, f, y)
    ensures Injective(c, |y.l|)
  {
    var n := |y.l|;
    forall g: Halves, h: Halves | Wide(g, n) && Wide(h, n) && Round(c, g) == Round(c, h)
      ensures g == h
    {
      var m := SomeMemoryHolds(y, g);
      var m' := SomeMemoryHolds(y, h);
      assert KeepsApart(code, f, y, m, m');
      assert ComputesFrom(code, f, y, c, m) && ComputesFrom(code, f, y, c, m');
    }
  }

  lemma {:induction false} RoundLosesExactlyWhen(code: StoreCode, f: Outputs, y: Layout, c: Case)
    requires ValidLayout(y) && ComputesCase(code, f, y, c)
    ensures LosesNothing(code, f, y) <==> FullWidth(c)
  {
    InjectiveExactlyWhenFull(c, |y.l|);
    if FullWidth(c) {
      InjectiveLosesNothing(code, f, y, c);
    } else if LosesNothing(code, f, y) {
      LosesNothingIsInjective(code, f, y, c);
    }
  }

  /**
   On every emulator, the code of a test case whose wide stores fit loses nothing if and only if it writes no narrow
   register and leaves no block over.
   */
  lemma {:induction false} NothingLostExactlyWhen(ops: seq<Operand>, y: Layout, f: Outputs)
    requires ValidLayout(y) && Served(ops) <= |y.l| && TestCaseFits(ops, y)
    ensures LosesNothing(RoundStores(ops, y), f, y) <==> NoNarrowOutput(ops) && Served(ops) == |y.l|
  {
    var code, c := RoundStores(ops, y), CaseOf(ops, f, |y.l|);
    FittingCodeComputes(ops, y, f);
    CaseIsFullExactlyWhen(ops, f, |y.l|);
    RoundLosesExactlyWhen(code, f, y, c);
  }

  /** `mov $1,%al` writes one byte. */
  const BYTE_MOVE: seq<Operand> := [Operand(false, false, 1, false, true, ByWord)]

  /** `pslld $1,%mm0` reads and writes eight bytes, of which `movd` moves four. */
  const MMX_SHIFT: seq<Operand> := [Operand(false, false, 8, true, true, Movd)]

  lemma {:induction false} OneNarrowOutput(ops: seq<Operand>)
    requires ops == BYTE_MOVE || ops == MMX_SHIFT
    ensures Served(ops) == (if ops == BYTE_MOVE then 3 else 4) && !NoNarrowOutput(ops)
    ensures forall k | 0 <= k < |AllPieces(ops)| :: AllPieces(ops)[k] == Piece(ops[0], 0)
  {
    assert ops[..0] == [];
    assert !StoredInFull(ops[0]);
  }

  /** With just the blocks it serves, either of the two loses what one of them held. */
  lemma {:induction false} NarrowOutputLoses(ops: seq<Operand>, y: Layout, f: Outputs)
    requires (ops == BYTE_MOVE || ops == MMX_SHIFT) && ValidLayout(y) && |y.l| == Served(ops)
    ensures !LosesNothing(RoundStores(ops, y), f, y)
  {
    OneNarrowOutput(ops);
    NothingLostExactlyWhen(ops, y, f);
  }

  lemma {:induction false} NothingIsServed(y: Layout)
    ensures Served([]) == 2 && NoNarrowOutput([]) && TestCaseFits([], y)
  {
    assert AllPieces([]) == [];
  }

  /** So does a test case without outputs of its own when there are more blocks than it serves. */
  lemma {:induction false} BlockLeftOverLoses(y: Layout, f: Outputs)
    requires ValidLayout(y) && |y.l| > 2
    ensures Served([]) == 2 && NoNarrowOutput([]) && !LosesNothing(RoundStores([], y), f, y)
  {
    NothingIsServed(y);
    NothingLostExactlyWhen([], y, f);
  }

  // ---------------------------------------------------------------------------------------------
  // Compiling a series
  // ---------------------------------------------------------------------------------------------

  /** Test cases of the first one's size. */
  ghost predicate SameShape(cases: seq<seq<Operand>>) {
    forall i | 0 <= i < |cases| ::
      && AllRead(cases[i]) == AllRead(cases[0])
      && |AllWritten(cases[i])| == |AllWritten(cases[0])|
  }

  lemma {:induction false} CompiledOneMore(codes: seq<StoreCode>, cases: seq<seq<Operand>>, k: nat, y: Layout,
      code: StoreCode)
    requires k < |cases| && ValidLayout(y) && (k > 0 ==> Compiled(codes, cases[..k], y)) && |codes| == k
    requires Served(cases[k]) <= |y.l| && code == RoundStores(cases[k], y)
    ensures Compiled(codes + [code], cases[..k + 1], y)
  {
    assert cases[..k + 1] == cases[..k] + [cases[k]];
  }

  /** The wide outputs of all test cases fit the operands of the first one. */
  ghost predicate AllOperandsFit(cases: seq<seq<Operand>>) {
    forall i | 0 <= i < |cases| :: FitsOperands(cases[0], cases[i])
  }

  lemma {:induction false} AllFitExactlyWhen(codes: seq<StoreCode>, cases: seq<seq<Operand>>, start: Space, y: Layout)
    requires cases != [] && Compiled(codes, cases, y) && LaidOut(cases[0], start, y)
    ensures AllFit(cases, y) <==> AllOperandsFit(cases)
  {
    forall i | 0 <= i < |cases|
      ensures TestCaseFits(cases[i], y) <==> FitsOperands(cases[0], cases[i])
    {
      FitsExactlyWhen(cases[0], start, y, cases[i]);
    }
  }

  /** On every emulator and from every memory, the series computes the rounds of its test cases. */
  ghost predicate ComputesSeries(codes: seq<StoreCode>, cases: seq<seq<Operand>>, y: Layout) {
    && Compiled(codes, cases, y)
    && (forall fs: seq<Outputs>, m: Memory | |fs| == |cases| :: ComputesOn(codes, cases, fs, y, m))
  }

  ghost predicate ComputesOn(codes: seq<StoreCode>, cases: seq<seq<Operand>>, fs: seq<Outputs>, y: Layout, m: Memory)
    requires Compiled(codes, cases, y) && |fs| == |cases|
  {
    var cs := Cases(cases, fs, |y.l|);
    ValidCases(cs, |y.l|) && Aggregate(RunAll(codes, fs, y, m), y) == Rounds(cs, Aggregate(m, y), |y.l|)
  }

  lemma {:induction false} FittingSeries(codes: seq<StoreCode>, cases: seq<seq<Operand>>, start: Space, y: Layout)
    requires cases != [] && Compiled(codes, cases, y) && LaidOut(cases[0], start, y) && AllOperandsFit(cases)
    ensures ComputesSeries(codes, cases, y)
    ensures forall i | 0 <= i < |cases| :: FoldsAlways(codes[i], cases[i], y)
  {
    AllFitExactlyWhen(codes, cases, start, y);
    forall i | 0 <= i < |cases|
      ensures FoldsAlways(codes[i], cases[i], y)
    {
      FittingCodeFolds(cases[i], y);
    }
    forall fs: seq<Outputs>, m: Memory | |fs| == |cases|
      ensures ComputesOn(codes, cases, fs, y, m)
    {
      SeriesComputesRounds(codes, cases, fs, y, m);
    }
  }

  /**
   Compiling test cases one after the other with the same blocks.  Test cases of the same shape fail only when the
   address range is exhausted.
   */
  method CompileSeries(blocks: Blocks, cases: seq<seq<Operand>>) returns (ok: bool, codes: seq<StoreCode>)
    requires blocks.Valid() && blocks.countR == blocks.countL == 0
    requires blocks.r == blocks.l == blocks.inBak == blocks.outBak == []
    requires blocks.nextAddr <= END && forall i | 0 <= i < |cases| :: ValidOperands(cases[i])
    modifies blocks
    ensures blocks.Valid()
    ensures ok ==> InPlace([blocks.r, blocks.rBak, blocks.l, blocks.inBak, blocks.outBak])
    ensures !ok && SameShape(cases) ==> blocks.nextAddr > END
    ensures ok && cases != [] ==> |blocks.l| == |blocks.r| == |blocks.rBak| == Served(cases[0])
    ensures ok && cases != [] ==>
              var y := Layout(blocks.l, blocks.r, blocks.rBak);
              && Compiled(codes, cases, y)
              && (AllFit(cases, y) <==> AllOperandsFit(cases))
              && (AllOperandsFit(cases) ==> ComputesSeries(codes, cases, y))
              && (AllOperandsFit(cases) ==> forall i | 0 <= i < |cases| :: FoldsAlways(codes[i], cases[i], y))
  {
    codes := [];
    ghost var start := blocks.Now();
    for k := 0 to |cases|
      invariant k == 0 ==> blocks.Now() == start
      invariant blocks.Valid() && blocks.countR == blocks.countL == 0 && blocks.nextAddr <= END && |codes| == k
      invariant k == 0 ==> blocks.r == blocks.l == blocks.inBak == blocks.outBak == []
      invariant k > 0 ==>
                  && |blocks.l| == |blocks.r| == Served(cases[0])
                  && |blocks.inBak| >= AllRead(cases[0]) && |blocks.outBak| + 2 == |AllWritten(cases[0])|
                  && Compiled(codes, cases[..k], Layout(blocks.l, blocks.r, blocks.rBak))
                  && LaidOut(cases[0], start, Layout(blocks.l, blocks.r, blocks.rBak))
    {
      var code;
      ok, code := blocks.GenRoot(cases[k], k == 0);
      if !ok { return; }
      CompiledOneMore(codes, cases, k, Layout(blocks.l, blocks.r, blocks.rBak), code);
      codes := codes + [code];
    }
    assert cases[..|cases|] == cases;
    if cases != [] {
      AllFitExactlyWhen(codes, cases, start, Layout(blocks.l, blocks.r, blocks.rBak));
      if AllOperandsFit(cases) {
        FittingSeries(codes, cases, start, Layout(blocks.l, blocks.r, blocks.rBak));
      }
    }
    BlocksAreInPlace(blocks.owner, [blocks.r, blocks.rBak, blocks.l, blocks.inBak, blocks.outBak], blocks.nextAddr);
    ok := true;
  }
}

/** The code generated for a test case computes its round, provided that its wide stores fit the blocks. */
module FeistelEmission {
  import opened Sequences
  import opened Feistel
  import opened FeistelCode
  import opened FeistelWide
  import opened FeistelPlans

  // ---------------------------------------------------------------------------------------------
  // Block by block, every block is served
  // ---------------------------------------------------------------------------------------------

  lemma {:induction false} PhaseServes(ops: seq<Operand>, mem: bool, at: nat, plan: seq<Piece>, index: seq<nat>,
      widths: seq<nat>, l: seq<nat>, r: seq<nat>)
    returns (index': seq<nat>)
    requires Serving(Plains(plan, l, r), index, l, r, widths, at)
    requires at + WriteWords(ops, mem) <= |l| && at + WriteWords(ops, mem) <= |r|
    ensures Serving(Plains(PlanOf(ops, mem, at, plan), l, r), index', l, r, widths + WriteWidths(ops, mem),
                    at + WriteWords(ops, mem))
  {
    if ops == [] {
      index' := index;
      NothingToAppend(widths);
    } else {
      var mid := PhaseServes(ops[..|ops| - 1], mem, at, plan, index, widths, l, r);
      index' := PhaseStep(ops, ops[..|ops| - 1], mem, at, plan, mid, widths, l, r);
    }
  }

  lemma {:induction false} PhaseStep(ops: seq<Operand>, init: seq<Operand>, mem: bool, at: nat, plan: seq<Piece>,
      index: seq<nat>, widths: seq<nat>, l: seq<nat>, r: seq<nat>)
    returns (index': seq<nat>)
    requires ops != [] && init == ops[..|ops| - 1]
    requires Serving(Plains(PlanOf(init, mem, at, plan), l, r), index, l, r, widths + WriteWidths(init, mem),
                     at + WriteWords(init, mem))
    requires at + WriteWords(ops, mem) <= |l| && at + WriteWords(ops, mem) <= |r|
    ensures Serving(Plains(PlanOf(ops, mem, at, plan), l, r), index', l, r, widths + WriteWidths(ops, mem),
                    at + WriteWords(ops, mem))
  {
    PhaseUnfolds(ops, mem, at, plan, widths);
    index' := LastServes(ops[|ops| - 1], mem, at + WriteWords(init, mem), at + WriteWords(ops, mem),
                         PlanOf(init, mem, at, plan), PlanOf(ops, mem, at, plan), index,
                         widths + WriteWidths(init, mem), widths + WriteWidths(ops, mem), l, r);
  }

  lemma {:induction false} NothingToAppend(widths: seq<nat>)
    ensures widths + [] == widths
  {
  }

  lemma {:induction false} PhaseUnfolds(ops: seq<Operand>, mem: bool, at: nat, plan: seq<Piece>, widths: seq<nat>)
    requires ops != []
    ensures var init, op := ops[..|ops| - 1], ops[|ops| - 1];
            && LastPlan(op, mem, at + WriteWords(init, mem), PlanOf(init, mem, at, plan), PlanOf(ops, mem, at, plan))
            && LastWidths(op, mem, widths + WriteWidths(init, mem), widths + WriteWidths(ops, mem))
  {
  }

  ghost predicate LastPlan(op: Operand, mem: bool, at: nat, plan: seq<Piece>, plan': seq<Piece>) {
    plan' == if op.mem == mem then NextPlan(op, at, plan) else plan
  }

  ghost predicate LastWidths(op: Operand, mem: bool, widths: seq<nat>, widths': seq<nat>) {
    widths' == widths + (if op.mem == mem && op.isWritten then StoredBytes(op) else [])
  }

  lemma {:induction false} LastServes(op: Operand, mem: bool, at: nat, at': nat, plan: seq<Piece>, plan': seq<Piece>,
      index: seq<nat>, widths: seq<nat>, widths': seq<nat>, l: seq<nat>, r: seq<nat>)
    returns (index': seq<nat>)
    requires Serving(Plains(plan, l, r), index, l, r, widths, at)
    requires op.mem == mem && op.isWritten ==> HasRoom(op, l, r, at)
    requires at' == at + (if op.mem == mem && op.isWritten then Words(op.bytes) else 0)
    requires LastPlan(op, mem, at, plan, plan') && LastWidths(op, mem, widths, widths')
    ensures Serving(Plains(plan', l, r), index', l, r, widths', at')
  {
    if op.mem == mem && op.isWritten {
      index' := OneMoreServes(op, at, plan, index, widths, l, r);
    } else {
      index' := index;
      NothingToAppend(widths);
    }
  }

  lemma {:induction false} OneMoreServes(op: Operand, at: nat, plan: seq<Piece>, index: seq<nat>, widths: seq<nat>,
      l: seq<nat>, r: seq<nat>)
    returns (index': seq<nat>)
    requires Serving(Plains(plan, l, r), index, l, r, widths, at) && op.isWritten && HasRoom(op, l, r, at)
    ensures Serving(Plains(NextPlan(op, at, plan), l, r), index', l, r, widths + StoredBytes(op), at + Words(op.bytes))
  {
    if op.bytes == 0 {
      index' := index;
      NothingToAppend(widths);
    } else {
      var front, more := op.flags && !op.mem, Upto(at, Words(op.bytes));
      index' := if front then more + index else index + more;
      PlainsOfNext(op, at, plan, l, r, Emitted(l, r, at, StoredBytes(op)));
      ServeOperand(Plains(plan, l, r), index, l, r, widths, at, l, r, StoredBytes(op), front);
    }
  }

  lemma {:induction false} NothingServes(l: seq<nat>, r: seq<nat>)
    ensures Serving(Plains([], l, r), [], l, r, [], 0)
  {
  }

  /** Block by block, the code of a test case is the code of a round with its widths. */
  lemma {:induction false} RoundIsServed(ops: seq<Operand>, y: Layout) returns (index: seq<nat>)
    requires ValidLayout(y) && Served(ops) <= |y.l|
    ensures IsRoundCode(RoundOps(ops, y), index, y, |AllWritten(ops)|, RoundWidths(ops, |y.l|))
  {
    WidthPerWord(ops, false);
    WidthPerWord(ops, true);
    NothingServes(y.l, y.r);
    var regs := PlanOf(ops, false, 0, []);
    var first := PhaseServes(ops, false, 0, [], [], [], y.l, y.r);
    assert [] + WriteWidths(ops, false) == WriteWidths(ops, false);
    var both := PhaseServes(ops, true, WriteWords(ops, false), regs, first, WriteWidths(ops, false), y.l, y.r);
    index := CompletedServes(ops, Plains(AllPieces(ops), y.l, y.r), both,
                             WriteWidths(ops, false) + WriteWidths(ops, true), y, |AllWritten(ops)| - 2);
  }

  // ---------------------------------------------------------------------------------------------
  // Stores that fit amount to the same
  // ---------------------------------------------------------------------------------------------

  /** An operand that is stored in one piece of 16 bytes has four blocks for it, one after the other. */
  predicate FitsAt(op: Operand, l: seq<nat>, r: seq<nat>, at: nat)
    requires HasRoom(op, l, r, at)
  {
    !op.mem && op.via.Movdqu? ==> FitsWide(l[at..at + Words(op.bytes)], r[at..at + Words(op.bytes)])
  }

  lemma {:induction false} NoBytesNoChange(ops: seq<Op>, outs: seq<Block>, m: Memory)
    requires forall k | 0 <= k < |ops| :: ops[k].XorOut? && ops[k].bytes == 0
    ensures SameMemory(Exec(ops, outs, m), m)
  {
    if ops != [] {
      NoBytesNoChange(ops[..|ops| - 1], outs, m);
    }
  }

  /** A register moved with `movd`: one word is stored, and nothing for the others. */
  lemma {:induction false} MovdAmounts(l: seq<nat>, r: seq<nat>, at: nat, n: nat)
    requires 1 <= n && at + n <= |l| && at + n <= |r|
    ensures Amounts([Single(XorOut(l[at], at, 4, r[at]))], Emitted(l, r, at, [4] + Zeros(n - 1)))
  {
    var first, all := XorOut(l[at], at, 4, r[at]), Emitted(l, r, at, [4] + Zeros(n - 1));
    assert all == [first] + all[1..];
    forall outs: seq<Block>, m: Memory
      ensures SameMemory(ExecStores([Single(first)], outs, m), Exec(all, outs, m))
    {
      OneStore(Single(first), outs, m);
      ExecOfConcat([first], all[1..], outs, m);
      assert [first][..0] == [];
      NoBytesNoChange(all[1..], outs, Exec([first], outs, m));
    }
  }

  lemma {:induction false} SliceIsApart(l: seq<nat>, r: seq<nat>, at: nat, n: nat)
    requires at + n <= |l| && at + n <= |r| && NoRepeats(r) && Apart(l, r)
    ensures NoRepeats(r[at..at + n]) && Apart(l[at..at + n], r[at..at + n])
  {
    var a, b := l[at..at + n], r[at..at + n];
    assert forall i | 0 <= i < n :: a[i] == l[at + i];
    assert forall i | 0 <= i < n :: b[i] == r[at + i];
  }

  lemma {:induction false} WideExactly(l: seq<nat>, r: seq<nat>, at: nat, n: nat)
    requires 1 <= n && at + n <= |l| && at + n <= |r| && NoRepeats(r) && Apart(l, r)
    ensures Amounts([WideStore(l[at], r[at], at, n)], Emitted(l, r, at, Fours(n))) <==>
            FitsWide(l[at..at + n], r[at..at + n])
  {
    SliceIsApart(l, r, at, n);
    EmittedFolds(l, r, at, Fours(n));
    WideIsBlockwise(l[at..at + n], r[at..at + n], at);
  }

  lemma {:induction false} NarrowAmounts(op: Operand, l: seq<nat>, r: seq<nat>, at: nat)
    requires op.bytes > 0 && HasRoom(op, l, r, at) && (op.mem || !op.via.Movdqu?)
    ensures Amounts(Emission(op, l, r, at), Plain(op, l, r, at))
  {
    if !op.mem && op.via.Movd? {
      MovdAmounts(l, r, at, Words(op.bytes));
    } else {
      SinglesAmount(Emitted(l, r, at, StoredBytes(op)));
    }
  }

  lemma {:induction false} WideEmission(op: Operand, l: seq<nat>, r: seq<nat>, at: nat)
    requires op.bytes > 0 && HasRoom(op, l, r, at) && !op.mem && op.via.Movdqu?
    ensures Emission(op, l, r, at) == [WideStore(l[at], r[at], at, Words(op.bytes))]
    ensures Plain(op, l, r, at) == Emitted(l, r, at, Fours(Words(op.bytes)))
  {
  }

  /** The stores of an operand amount to the operations on its blocks if and only if they fit. */
  lemma {:induction false} EmissionExactly(op: Operand, l: seq<nat>, r: seq<nat>, at: nat)
    requires op.bytes > 0 && HasRoom(op, l, r, at) && NoRepeats(r) && Apart(l, r)
    ensures Amounts(Emission(op, l, r, at), Plain(op, l, r, at)) <==> FitsAt(op, l, r, at)
  {
    if !op.mem && op.via.Movdqu? {
      WideEmission(op, l, r, at);
      WideExactly(l, r, at, Words(op.bytes));
    } else {
      NarrowAmounts(op, l, r, at);
    }
  }

  /** All wide stores of a test case fit their blocks. */
  ghost predicate WidesFit(plan: seq<Piece>, l: seq<nat>, r: seq<nat>)
    requires Roomy(plan, l, r)
  {
    forall k | 0 <= k < |plan| :: FitsAt(plan[k].op, l, r, plan[k].at)
  }

  lemma {:induction false} NothingAmounts()
    ensures Amounts([], [])
  {
  }

  lemma {:induction false} PlanAmounts(plan: seq<Piece>, l: seq<nat>, r: seq<nat>)
    requires Roomy(plan, l, r) && WidesFit(plan, l, r) && NoRepeats(r) && Apart(l, r)
    ensures Amounts(Stores(plan, l, r), Plains(plan, l, r))
  {
    if plan == [] {
      NothingAmounts();
    } else {
      var p, rest := plan[0], plan[1..];
      PlanAmounts(rest, l, r);
      EmissionExactly(p.op, l, r, p.at);
      AmountsOfConcat(Emission(p.op, l, r, p.at), Plain(p.op, l, r, p.at), Stores(rest, l, r), Plains(rest, l, r));
      StoresOfFirst(plan, l, r);
    }
  }

  lemma {:induction false} StoresOfFirst(plan: seq<Piece>, l: seq<nat>, r: seq<nat>)
    requires plan != []
    ensures Stores(plan, l, r) == Emission(plan[0].op, l, r, plan[0].at) + Stores(plan[1..], l, r)
    ensures Plains(plan, l, r) == Plain(plan[0].op, l, r, plan[0].at) + Plains(plan[1..], l, r)
  {
    assert Emissions(plan, l, r)[1..] == Emissions(plan[1..], l, r);
    assert PlainPieces(plan, l, r)[1..] == PlainPieces(plan[1..], l, r);
  }

  /** The condition on a test case and its blocks that a generator could check. */
  ghost predicate TestCaseFits(ops: seq<Operand>, y: Layout) {
    Roomy(AllPieces(ops), y.l, y.r) && WidesFit(AllPieces(ops), y.l, y.r)
  }

  lemma {:induction false} RoundAmounts(ops: seq<Operand>, y: Layout)
    requires ValidLayout(y) && Served(ops) <= |y.l| && TestCaseFits(ops, y)
    ensures Amounts(RoundStores(ops, y).output, RoundOps(ops, y).output)
  {
    var count := |AllWritten(ops)| - 2;
    var completion := Completion(y, count, AllRead(ops));
    PlanAmounts(AllPieces(ops), y.l, y.r);
    SinglesAmount(completion);
    AmountsOfConcat(Stores(AllPieces(ops), y.l, y.r), Plains(AllPieces(ops), y.l, y.r),
                    Singles(completion), completion);
  }

  // ---------------------------------------------------------------------------------------------
  // Running the generated code
  // ---------------------------------------------------------------------------------------------

  ghost function RunStores(c: StoreCode, f: Outputs, y: Layout, m: Memory): Memory {
    var m1 := Exec(c.backup, [], m);
    var m2 := ExecStores(c.output, f(Contents(m1, y.r)), m1);
    Exec(c.update, [], m2)
  }

  lemma {:induction false} SameAggregate(y: Layout, m: Memory, m': Memory)
    requires SameMemory(m, m')
    ensures Aggregate(m, y) == Aggregate(m', y)
  {
    assert Contents(m, y.l) == Contents(m', y.l) && Contents(m, y.r) == Contents(m', y.r);
  }

  /** The generated code of a test case whose wide stores fit computes its round. */
  lemma {:induction false} StoresComputeRound(ops: seq<Operand>, y: Layout, f: Outputs, m: Memory)
    requires ValidLayout(y) && Served(ops) <= |y.l| && TestCaseFits(ops, y)
    ensures ComputesRound(y, |AllWritten(ops)|, RoundWidths(ops, |y.l|), f, m, RunStores(RoundStores(ops, y), f, y, m))
  {
    var index := RoundIsServed(ops, y);
    var code, plain := RoundStores(ops, y), RoundOps(ops, y);
    RoundAmounts(ops, y);
    var m1 := Exec(code.backup, [], m);
    var outs := f(Contents(m1, y.r));
    assert SameMemory(ExecStores(code.output, outs, m1), Exec(plain.output, outs, m1));
    ExecOfSame(code.update, [], ExecStores(code.output, outs, m1), Exec(plain.output, outs, m1));
    SameAggregate(y, RunStores(code, f, y, m), RunRound(plain, f, y, m));
    CodeComputesRound(plain, index, y, |AllWritten(ops)|, RoundWidths(ops, |y.l|), f, m);
  }

  // ---------------------------------------------------------------------------------------------
  // A wide store over the backup of R
  // ---------------------------------------------------------------------------------------------

  ghost predicate StaysInR(ss: seq<Store>, y: Layout) {
    forall k | 0 <= k < |ss| :: ss[k].Single? && ss[k].op.dst in y.r
  }

  lemma {:induction false} NarrowStoresStayInR(plan: seq<Piece>, y: Layout)
    requires Roomy(plan, y.l, y.r)
    requires forall k | 0 <= k < |plan| :: plan[k].op.mem || !plan[k].op.via.Movdqu?
    ensures StaysInR(Stores(plan, y.l, y.r), y)
  {
    if plan != [] {
      StoresOfFirst(plan, y.l, y.r);
      NarrowStoresStayInR(plan[1..], y);
      EmissionStaysInR(plan[0].op, y, plan[0].at);
    }
  }

  lemma {:induction false} EmissionStaysInR(op: Operand, y: Layout, at: nat)
    requires op.bytes > 0 && HasRoom(op, y.l, y.r, at) && (op.mem || !op.via.Movdqu?)
    ensures StaysInR(Emission(op, y.l, y.r, at), y)
  {
    assert y.r[at] in y.r;
  }

  lemma {:induction false} StoresInRKeepOthers(ss: seq<Store>, y: Layout, outs: seq<Block>, m: Memory, a: nat)
    requires StaysInR(ss, y) && a !in y.r
    ensures ExecStores(ss, outs, m)(a) == m(a)
  {
    if ss != [] {
      StoresInRKeepOthers(ss[..|ss| - 1], y, outs, m, a);
    }
  }

  /** From a blank memory, the code of the round moves to L what the stores leave in the backup. */
  lemma {:induction false} BackupEndsInL(c: StoreCode, y: Layout, f: Outputs, outs: seq<Block>, i: nat)
    requires ValidLayout(y) && i < |y.l| && c.backup == Copies(y.r, y.bak) && c.update == Copies(y.bak, y.l)
    requires f == ((r: seq<Block>) => outs)
    ensures var m1 := Exec(c.backup, [], BLANK);
            SameMemory(m1, BLANK) && RunStores(c, f, y, BLANK)(y.l[i]) == ExecStores(c.output, outs, m1)(y.bak[i])
  {
    var m1 := Exec(c.backup, [], BLANK);
    CopyStage(y.r, y.bak, BLANK);
    forall x: nat
      ensures m1(x) == ZERO
    {
      if x in y.bak {
        var k :| 0 <= k < |y.bak| && y.bak[k] == x;
      }
    }
    CopyStage(y.bak, y.l, ExecStores(c.output, outs, m1));
  }

  lemma {:induction false} CompletionStaysInR(y: Layout, count: nat, rd: nat)
    requires |y.l| == |y.r| && count + 2 <= |y.l| && rd <= |y.l|
    ensures StaysInR(Singles(Completion(y, count, rd)), y)
  {
  }

  lemma {:induction false} RoundOfBlank(y: Layout, words: nat, widths: seq<nat>, f: Outputs, m': Memory, i: nat)
    requires i < |y.l| && m'(y.l[i]) != ZERO
    ensures !ComputesRound(y, words, widths, f, BLANK, m')
  {
    if |y.l| == |y.r| == |widths| {
      RoundAt(y, words, widths, f, BLANK, i);
      assert Contents(m', y.l)[i] != ZERO;
    }
  }

  /** The only `xmm` output of a test case comes first, and its j-th word falls on the i-th backup block. */
  ghost predicate FallsOnBackup(plan: seq<Piece>, y: Layout, j: nat, i: nat) {
    && plan != [] && Roomy(plan, y.l, y.r)
    && !plan[0].op.mem && plan[0].op.via.Movdqu? && 1 <= j < 4 && j < Words(plan[0].op.bytes)
    && i < |y.bak| && y.bak[i] == y.r[plan[0].at] + 4 * j
    && (forall k | 1 <= k < |plan| :: plan[k].op.mem || !plan[k].op.via.Movdqu?)
  }

  lemma {:induction false} OutputAfterFirst(plan: seq<Piece>, completion: seq<Store>, y: Layout, j: nat, i: nat)
    requires FallsOnBackup(plan, y, j, i) && StaysInR(completion, y)
    ensures var p := plan[0];
            var s := WideStore(y.l[p.at], y.r[p.at], p.at, Words(p.op.bytes));
            Stores(plan, y.l, y.r) + completion == [s] + (Stores(plan[1..], y.l, y.r) + completion)
    ensures StaysInR(Stores(plan[1..], y.l, y.r) + completion, y)
  {
    StoresOfFirst(plan, y.l, y.r);
    NarrowStoresStayInR(plan[1..], y);
    StayTogether(Stores(plan[1..], y.l, y.r), completion, y);
    ConcatIsAssociative(Emission(plan[0].op, y.l, y.r, plan[0].at), Stores(plan[1..], y.l, y.r), completion);
  }

  lemma {:induction false} StayTogether(a: seq<Store>, b: seq<Store>, y: Layout)
    requires StaysInR(a, y) && StaysInR(b, y)
    ensures StaysInR(a + b, y)
  {
  }

  lemma {:induction false} WideOfOnes(s: Store, src: nat, dst: nat, at: nat, n: nat, j: nat, m: Memory)
    requires s == WideStore(src, dst, at, n) && j < n && j < 4 && SameMemory(m, BLANK)
    ensures ExecStore(s, OneOutput(at + j), m)(dst + 4 * j) == ONES
  {
    WideWord(src, dst, at, n, j, OneOutput(at + j), m);
    XorWithZero();
  }

  lemma {:induction false} WideThenR(src: nat, dst: nat, at: nat, n: nat, later: seq<Store>, y: Layout, j: nat,
      m: Memory)
    requires j < n && j < 4 && dst + 4 * j !in y.r && StaysInR(later, y) && SameMemory(m, BLANK)
    ensures ExecStores([WideStore(src, dst, at, n)] + later, OneOutput(at + j), m)(dst + 4 * j) == ONES
  {
    var s, outs := WideStore(src, dst, at, n), OneOutput(at + j);
    WideOfOnes(s, src, dst, at, n, j, m);
    OneStoreFirst(s, later, outs, m);
    StoresInRKeepOthers(later, y, outs, ExecStore(s, outs, m), dst + 4 * j);
  }

  lemma {:induction false} OneStoreFirst(s: Store, later: seq<Store>, outs: seq<Block>, m: Memory)
    ensures ExecStores([s] + later, outs, m) == ExecStores(later, outs, ExecStore(s, outs, m))
  {
    StoresOfConcat([s], later, outs, m);
    OneStore(s, outs, m);
  }

  lemma {:induction false} OutputOverBackup(plan: seq<Piece>, completion: seq<Store>, y: Layout, j: nat, i: nat,
      m: Memory)
    requires FallsOnBackup(plan, y, j, i) && StaysInR(completion, y) && SameMemory(m, BLANK) && y.bak[i] !in y.r
    ensures ExecStores(Stores(plan, y.l, y.r) + completion, OneOutput(plan[0].at + j), m)(y.bak[i]) == ONES
  {
    var p := plan[0];
    OutputAfterFirst(plan, completion, y, j, i);
    WideThenR(y.l[p.at], y.r[p.at], p.at, Words(p.op.bytes), Stores(plan[1..], y.l, y.r) + completion, y, j, m);
  }

  /**
   Then L receives the output instead of what R held.  Blocks lie like this where a 4-byte operand is the first one
   read, since its R block is followed by its backup.
   */
  lemma {:induction false} WideStoreOverBackup(ops: seq<Operand>, y: Layout, j: nat, i: nat) returns (f: Outputs)
    requires ValidLayout(y) && Served(ops) <= |y.l| && FallsOnBackup(AllPieces(ops), y, j, i)
    ensures !ComputesRound(y, |AllWritten(ops)|, RoundWidths(ops, |y.l|), f, BLANK,
                           RunStores(RoundStores(ops, y), f, y, BLANK))
  {
    var plan, count := AllPieces(ops), |AllWritten(ops)| - 2;
    var outs := OneOutput(plan[0].at + j);
    f := (r: seq<Block>) => outs;
    BackupEndsInL(RoundStores(ops, y), y, f, outs, i);
    KeepsApart(y);
    CompletionStaysInR(y, count, AllRead(ops));
    OutputOverBackup(plan, Singles(Completion(y, count, AllRead(ops))), y, j, i, Exec(Copies(y.r, y.bak), [], BLANK));
    RoundOfBlank(y, |AllWritten(ops)|, RoundWidths(ops, |y.l|), f, RunStores(RoundStores(ops, y), f, y, BLANK), i);
  }
}

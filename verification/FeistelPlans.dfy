/**
 What the operands of a test case ask for, and the code emitted for them: which blocks an operand takes, with which
 stores, and which bytes of the blocks these write.
 */
module FeistelPlans {
  import opened Sequences
  import opened FeistelCode
  import opened FeistelWide

  /** An operand of the tested instruction, as far as aggregation is concerned. */
  datatype Operand = Operand(mem: bool, flags: bool, bytes: nat, isRead: bool, isWritten: bool, via: Transfer)

  /**
   How a register is moved.  `ByWord`: with a move of its size, or through scratch words one word after the other (stack
   registers of the floating-point unit).  `Movd`: 4 bytes, whatever its size (`mm` registers and XCR0).  `Movdqu`:
   16 bytes, whatever its size (`xmm` registers).
   */
  datatype Transfer = ByWord | Movd | Movdqu

  /** The 32-bit words an operand of the given size takes. */
  function Words(bytes: nat): (w: nat)
    ensures bytes <= 4 * w < bytes + 4
  {
    (bytes + 3) / 4
  }

  // ---------------------------------------------------------------------------------------------
  // What an operand list asks for
  // ---------------------------------------------------------------------------------------------

  function ReadWords(ops: seq<Operand>, mem: bool): nat {
    if ops == [] then 0
    else
      var last := ops[|ops| - 1];
      ReadWords(ops[..|ops| - 1], mem) + (if last.mem == mem && last.isRead then Words(last.bytes) else 0)
  }

  /**
   The bytes to be stored for each output word of one operand: registers narrower than a word are stored in part, and of
   those moved with `movd` only the first word is stored.
   */
  function StoredBytes(op: Operand): (s: seq<nat>)
    ensures |s| == Words(op.bytes)
  {
    if !op.mem && op.via.Movd? && op.bytes > 0 then [4] + Zeros(Words(op.bytes) - 1)
    else if !op.mem && op.via.ByWord? && 0 < op.bytes < 4 then [op.bytes]
    else Fours(Words(op.bytes))
  }

  function WriteWidths(ops: seq<Operand>, mem: bool): seq<nat> {
    if ops == [] then []
    else
      var last := ops[|ops| - 1];
      WriteWidths(ops[..|ops| - 1], mem) + (if last.mem == mem && last.isWritten then StoredBytes(last) else [])
  }

  /** The words written by operands of one kind. */
  function WriteWords(ops: seq<Operand>, mem: bool): nat {
    if ops == [] then 0
    else
      var last := ops[|ops| - 1];
      WriteWords(ops[..|ops| - 1], mem) + (if last.mem == mem && last.isWritten then Words(last.bytes) else 0)
  }

  lemma {:induction false} WidthPerWord(ops: seq<Operand>, mem: bool)
    ensures |WriteWidths(ops, mem)| == WriteWords(ops, mem)
  {
    if ops != [] {
      WidthPerWord(ops[..|ops| - 1], mem);
    }
  }

  /** All words read: registers first, then memory. */
  function AllRead(ops: seq<Operand>): nat {
    ReadWords(ops, false) + ReadWords(ops, true)
  }

  /** All words written, in the order in which they are served, and then the two words of exception data. */
  function AllWritten(ops: seq<Operand>): seq<nat> {
    WriteWidths(ops, false) + WriteWidths(ops, true) + [4, 4]
  }

  function Max(a: nat, b: nat): nat {
    if a < b then b else a
  }

  /** How many blocks a test case serves. */
  function Served(ops: seq<Operand>): nat {
    Max(AllRead(ops), |AllWritten(ops)|)
  }

  /** The bytes stored into each of `n` blocks: outputs, then padding up to the words read, then nothing. */
  function RoundWidths(ops: seq<Operand>, n: nat): seq<nat>
    requires Served(ops) <= n
  {
    var written := AllWritten(ops);
    written + Fours(Served(ops) - |written|) + Zeros(n - Served(ops))
  }

  ghost predicate ValidOperands(ops: seq<Operand>) {
    forall i | 0 <= i < |ops| :: ops[i].mem ==> ops[i].bytes >= 1
  }

  // ---------------------------------------------------------------------------------------------
  // The blocks
  // ---------------------------------------------------------------------------------------------

  /** The output code emitted so far serves the first `count` blocks, each once. */
  ghost predicate Serving(output: seq<Op>, index: seq<nat>, l: seq<nat>, r: seq<nat>, widths: seq<nat>, count: nat) {
    && |index| == |output| && NoRepeats(index)
    && |widths| == count && count <= |l| && count <= |r|
    && (forall k | 0 <= k < |output| ::
          index[k] < count && output[k] == XorOut(l[index[k]], index[k], widths[index[k]], r[index[k]]))
    && (forall i: nat | i < count :: i in index)
  }

  function Upto(at: nat, n: nat): (s: seq<nat>)
    ensures |s| == n && forall i | 0 <= i < n :: s[i] == at + i
  {
    seq(n, i requires 0 <= i < n => at + i)
  }

  // ---------------------------------------------------------------------------------------------
  // The output code, operand by operand
  // ---------------------------------------------------------------------------------------------

  predicate HasRoom(op: Operand, l: seq<nat>, r: seq<nat>, at: nat) {
    at + Words(op.bytes) <= |l| && at + Words(op.bytes) <= |r|
  }

  /** The stores for one operand, whose first block has number `at`. */
  function Emission(op: Operand, l: seq<nat>, r: seq<nat>, at: nat): seq<Store> {
    if op.bytes == 0 || !HasRoom(op, l, r, at) then []
    else if !op.mem && op.via.Movd? then [Single(XorOut(l[at], at, 4, r[at]))]
    else if !op.mem && op.via.Movdqu? then [WideStore(l[at], r[at], at, Words(op.bytes))]
    else Singles(Emitted(l, r, at, StoredBytes(op)))
  }

  /** The same, block by block. */
  function Plain(op: Operand, l: seq<nat>, r: seq<nat>, at: nat): seq<Op> {
    if !HasRoom(op, l, r, at) then [] else Emitted(l, r, at, StoredBytes(op))
  }

  /** A written operand and the number of its first block. */
  datatype Piece = Piece(op: Operand, at: nat)

  /** The stores for the flags go to the front. */
  function NextPlan(op: Operand, at: nat, plan: seq<Piece>): seq<Piece> {
    if !op.isWritten || op.bytes == 0 then plan
    else if op.flags && !op.mem then [Piece(op, at)] + plan
    else plan + [Piece(op, at)]
  }

  /** The written operands of one kind, added to those there are; their blocks start at `at`. */
  function PlanOf(ops: seq<Operand>, mem: bool, at: nat, plan: seq<Piece>): seq<Piece> {
    if ops == [] then plan
    else
      var init, last := ops[..|ops| - 1], ops[|ops| - 1];
      var before := PlanOf(init, mem, at, plan);
      if last.mem == mem then NextPlan(last, at + WriteWords(init, mem), before) else before
  }

  /** All outputs: registers first, then memory. */
  function AllPieces(ops: seq<Operand>): seq<Piece> {
    PlanOf(ops, true, WriteWords(ops, false), PlanOf(ops, false, 0, []))
  }

  /** The stores for the flags come before all others. */
  predicate InFront(x: Piece) {
    x.op.flags && !x.op.mem
  }

  /** Flags first, the last ones in front, then the other operands by their blocks. */
  predicate Ordered(x: Piece, y: Piece) {
    if InFront(x) then !InFront(y) || y.at < x.at else !InFront(y) && x.at < y.at
  }

  ghost predicate InOrder(plan: seq<Piece>, bound: nat) {
    && (forall i | 0 <= i < |plan| :: plan[i].at < bound)
    && (forall i, j | 0 <= i < j < |plan| :: Ordered(plan[i], plan[j]))
  }

  lemma {:induction false} InOrderWith(plan: seq<Piece>, x: Piece, bound: nat)
    requires InOrder(plan, x.at) && x.at < bound
    ensures InFront(x) ==> InOrder([x] + plan, bound)
    ensures !InFront(x) ==> InOrder(plan + [x], bound)
  {
    if InFront(x) {
      var t := [x] + plan;
      assert forall i | 0 < i < |t| :: t[i] == plan[i - 1];
    }
  }

  lemma {:induction false} NextInOrder(op: Operand, at: nat, plan: seq<Piece>, t: seq<Piece>, bound: nat)
    requires InOrder(plan, at) && t == NextPlan(op, at, plan)
    requires bound == at + if op.isWritten then Words(op.bytes) else 0
    ensures InOrder(t, bound)
  {
    if op.isWritten && op.bytes > 0 {
      InOrderWith(plan, Piece(op, at), bound);
    }
  }

  lemma {:induction false} PlanUnfolds(ops: seq<Operand>, mem: bool, at: nat, plan: seq<Piece>)
    requires ops != []
    ensures var init, last := ops[..|ops| - 1], ops[|ops| - 1];
            var before, w := PlanOf(init, mem, at, plan), WriteWords(init, mem);
            && PlanOf(ops, mem, at, plan) == (if last.mem == mem then NextPlan(last, at + w, before) else before)
            && WriteWords(ops, mem) == w + (if last.mem == mem && last.isWritten then Words(last.bytes) else 0)
  {
  }

  lemma {:induction false} PhaseInOrder(ops: seq<Operand>, mem: bool, at: nat, plan: seq<Piece>, t: seq<Piece>, w: nat)
    requires InOrder(plan, at) && t == PlanOf(ops, mem, at, plan) && w == WriteWords(ops, mem)
    ensures InOrder(t, at + w)
  {
    if ops != [] {
      var init, last := ops[..|ops| - 1], ops[|ops| - 1];
      var before, w0 := PlanOf(init, mem, at, plan), WriteWords(init, mem);
      PlanUnfolds(ops, mem, at, plan);
      PhaseInOrder(init, mem, at, plan, before, w0);
      if last.mem == mem {
        NextInOrder(last, at + w0, before, t, at + w);
      }
    }
  }

  /** Outputs are stored in the order of their blocks, registers before memory, but for the flags. */
  lemma {:induction false} PlanInOrder(ops: seq<Operand>)
    ensures InOrder(AllPieces(ops), WriteWords(ops, false) + WriteWords(ops, true))
  {
    var registers, w := PlanOf(ops, false, 0, []), WriteWords(ops, false);
    PhaseInOrder(ops, false, 0, [], registers, w);
    PhaseInOrder(ops, true, w, registers, AllPieces(ops), WriteWords(ops, true));
  }

  function Flat<T>(xs: seq<seq<T>>): seq<T> {
    if xs == [] then [] else xs[0] + Flat(xs[1..])
  }

  lemma {:induction false} FlatOneMore<T>(xs: seq<seq<T>>, x: seq<T>)
    ensures Flat(xs + [x]) == Flat(xs) + x
  {
    if xs == [] {
      assert xs + [x] == [x];
      assert [x][1..] == [];
    } else {
      FlatOneMore(xs[1..], x);
      assert (xs + [x])[1..] == xs[1..] + [x];
    }
  }

  lemma {:induction false} FlatOneInFront<T>(x: seq<T>, xs: seq<seq<T>>)
    ensures Flat([x] + xs) == x + Flat(xs)
  {
    assert ([x] + xs)[1..] == xs;
  }

  function Emissions(plan: seq<Piece>, l: seq<nat>, r: seq<nat>): (e: seq<seq<Store>>)
    ensures |e| == |plan| && forall k | 0 <= k < |plan| :: e[k] == Emission(plan[k].op, l, r, plan[k].at)
  {
    seq(|plan|, k requires 0 <= k < |plan| => Emission(plan[k].op, l, r, plan[k].at))
  }

  function PlainPieces(plan: seq<Piece>, l: seq<nat>, r: seq<nat>): (e: seq<seq<Op>>)
    ensures |e| == |plan| && forall k | 0 <= k < |plan| :: e[k] == Plain(plan[k].op, l, r, plan[k].at)
  {
    seq(|plan|, k requires 0 <= k < |plan| => Plain(plan[k].op, l, r, plan[k].at))
  }

  /** The stores for all operands of a plan, one after the other. */
  function Stores(plan: seq<Piece>, l: seq<nat>, r: seq<nat>): seq<Store> {
    Flat(Emissions(plan, l, r))
  }

  /** The same, block by block. */
  function Plains(plan: seq<Piece>, l: seq<nat>, r: seq<nat>): seq<Op> {
    Flat(PlainPieces(plan, l, r))
  }

  ghost predicate Roomy(plan: seq<Piece>, l: seq<nat>, r: seq<nat>) {
    forall k | 0 <= k < |plan| :: plan[k].op.bytes > 0 && HasRoom(plan[k].op, l, r, plan[k].at)
  }

  lemma {:induction false} PlainsOfNext(op: Operand, at: nat, plan: seq<Piece>, l: seq<nat>, r: seq<nat>, e: seq<Op>)
    requires op.isWritten && op.bytes > 0 && e == Plain(op, l, r, at)
    ensures var before := Plains(plan, l, r);
            Plains(NextPlan(op, at, plan), l, r) == if op.flags && !op.mem then e + before else before + e
  {
    var pieces := PlainPieces(plan, l, r);
    if op.flags && !op.mem {
      assert PlainPieces([Piece(op, at)] + plan, l, r) == [e] + pieces;
      FlatOneInFront(e, pieces);
    } else {
      assert PlainPieces(plan + [Piece(op, at)], l, r) == pieces + [e];
      FlatOneMore(pieces, e);
    }
  }

  lemma {:induction false} PlanStep(ops: seq<Operand>, mem: bool, i: nat, at: nat, plan: seq<Piece>)
    requires i < |ops|
    ensures PlanOf(ops[..i + 1], mem, at, plan) ==
            var before := PlanOf(ops[..i], mem, at, plan);
            if ops[i].mem == mem then NextPlan(ops[i], at + WriteWords(ops[..i], mem), before) else before
    ensures WriteWords(ops[..i + 1], mem) ==
            WriteWords(ops[..i], mem) + (if ops[i].mem == mem && ops[i].isWritten then Words(ops[i].bytes) else 0)
  {
    assert ops[..i + 1][..i] == ops[..i];
  }

  lemma {:induction false} WriteWordsGrow(ops: seq<Operand>, mem: bool, i: nat)
    requires i <= |ops|
    ensures WriteWords(ops[..i], mem) <= WriteWords(ops, mem)
    decreases |ops| - i
  {
    if i == |ops| {
      assert ops[..i] == ops;
    } else {
      WriteWordsGrow(ops, mem, i + 1);
      assert ops[..i + 1][..i] == ops[..i];
    }
  }

  /** New block lists that extend the old ones serve just as well. */
  lemma {:induction false} ServingExtended(output: seq<Op>, index: seq<nat>, l: seq<nat>, r: seq<nat>,
      widths: seq<nat>, count: nat, l': seq<nat>, r': seq<nat>)
    requires Serving(output, index, l, r, widths, count) && l <= l' && r <= r'
    ensures Serving(output, index, l', r', widths, count)
  {
  }

  /** Operations for the next blocks may be put in front or at the end. */
  lemma {:induction false} ServingMore(output: seq<Op>, index: seq<nat>, l: seq<nat>, r: seq<nat>, widths: seq<nat>,
      count: nat, bytes: seq<nat>)
    requires Serving(output, index, l, r, widths, count)
    requires count + |bytes| <= |l| && count + |bytes| <= |r|
    ensures var ops, more := Emitted(l, r, count, bytes), Upto(count, |bytes|);
            && Serving(output + ops, index + more, l, r, widths + bytes, count + |bytes|)
            && Serving(ops + output, more + index, l, r, widths + bytes, count + |bytes|)
  {
    var ops, more := Emitted(l, r, count, bytes), Upto(count, |bytes|);
    var a, b := index + more, more + index;
    forall i: nat | i < count + |bytes|
      ensures i in a && i in b
    {
      if i >= count {
        assert more[i - count] == i;
      } else {
        assert i in index;
      }
    }
  }

  /** Serving one more operand, after the lists may have grown; flags are served first. */
  lemma {:induction false} ServeOperand(output: seq<Op>, index: seq<nat>, l: seq<nat>, r: seq<nat>, widths: seq<nat>,
      count: nat, l': seq<nat>, r': seq<nat>, bytes: seq<nat>, front: bool)
    requires Serving(output, index, l, r, widths, count) && l <= l' && r <= r'
    requires count + |bytes| <= |l'| && count + |bytes| <= |r'|
    ensures var ops, more := Emitted(l', r', count, bytes), Upto(count, |bytes|);
            Serving(if front then ops + output else output + ops, if front then more + index else index + more,
                    l', r', widths + bytes, count + |bytes|)
  {
    ServingExtended(output, index, l, r, widths, count, l', r');
    ServingMore(output, index, l', r', widths, count, bytes);
  }

  /** Padding the remaining blocks from L completes the output code. */
  lemma {:induction false} PaddingServes(output: seq<Op>, index: seq<nat>, y: Layout, widths: seq<nat>, count: nat,
      upto: nat)
    requires Serving(output, index, y.l, y.r, widths, count) && |y.l| == |y.r|
    requires count <= upto <= |y.l|
    ensures ServesBlocks(output + Copies(y.l[count..upto], y.r[count..upto]), index + Upto(count, upto - count), y,
                         count, widths + Fours(upto - count) + Zeros(|y.l| - upto))
  {
    var pads := Copies(y.l[count..upto], y.r[count..upto]);
    var more := Upto(count, upto - count);
    var ws := widths + Fours(upto - count) + Zeros(|y.l| - upto);
    var index' := index + more;
    forall k | 0 <= k < |output + pads|
      ensures index'[k] < |ws|
      ensures var i := index'[k];
              if i < count then (output + pads)[k] == XorOut(y.l[i], i, ws[i], y.r[i])
              else (output + pads)[k] == Move(y.l[i], y.r[i]) && ws[i] == 4
    {
      if k >= |output| {
        assert index'[k] == more[k - |output|] == count + (k - |output|);
      }
    }
    forall i: nat | i < upto
      ensures i in index'
    {
      if i >= count {
        assert more[i - count] == i;
      } else {
        assert i in index;
      }
    }
  }

  lemma {:induction false} ReadWordsGrow(ops: seq<Operand>, mem: bool, i: nat)
    requires i <= |ops|
    ensures ReadWords(ops[..i], mem) <= ReadWords(ops, mem)
    decreases |ops| - i
  {
    if i == |ops| {
      assert ops[..i] == ops;
    } else {
      ReadWordsGrow(ops, mem, i + 1);
      assert ops[..i + 1][..i] == ops[..i];
    }
  }

  lemma {:induction false} WidthsAddUp(ops: seq<Operand>, n: nat, written: seq<nat>)
    requires Served(ops) <= n && written == WriteWidths(ops, false) + WriteWidths(ops, true)
    ensures |AllWritten(ops)| == |written| + 2 && AllWritten(ops) == written + [4, 4]
    ensures RoundWidths(ops, n) == written + [4, 4] + Fours(Served(ops) - |written| - 2) + Zeros(n - Served(ops))
  {
  }

  /** Output code completed with exception data and with padding for `rd` words read. */
  function Completed(output: seq<Op>, y: Layout, count: nat, rd: nat): seq<Op>
    requires |y.l| == |y.r| && count + 2 <= |y.l| && rd <= |y.l|
  {
    output + Completion(y, count, rd)
  }

  function Completion(y: Layout, count: nat, rd: nat): seq<Op>
    requires |y.l| == |y.r| && count + 2 <= |y.l| && rd <= |y.l|
  {
    var upto := Max(rd, count + 2);
    Emitted(y.l, y.r, count, [4, 4]) + Copies(y.l[count + 2..upto], y.r[count + 2..upto])
  }

  lemma {:induction false} CompletedInTwo(output: seq<Op>, y: Layout, count: nat, rd: nat, withData: seq<Op>)
    requires |y.l| == |y.r| && count + 2 <= |y.l| && rd <= |y.l|
    requires withData == output + Emitted(y.l, y.r, count, [4, 4])
    ensures var upto := Max(rd, count + 2);
            Completed(output, y, count, rd) == withData + Copies(y.l[count + 2..upto], y.r[count + 2..upto])
  {
  }

  lemma {:induction false} CompletionServes(output: seq<Op>, index: seq<nat>, widths: seq<nat>, y: Layout, count: nat,
      rd: nat, upto: nat)
    returns (index': seq<nat>)
    requires |y.l| == |y.r| && Serving(output, index, y.l, y.r, widths, count)
    requires count + 2 <= |y.l| && rd <= |y.l| && upto == Max(rd, count + 2)
    ensures ServesBlocks(Completed(output, y, count, rd), index', y, count + 2,
                         widths + [4, 4] + Fours(upto - count - 2) + Zeros(|y.l| - upto))
  {
    var withData, more := ServeData(output, index, widths, y, count);
    index' := more + Upto(count + 2, upto - (count + 2));
    CompletedInTwo(output, y, count, rd, withData);
    PaddingServes(withData, more, y, widths + [4, 4], count + 2, upto);
  }

  lemma {:induction false} CompletedServes(ops: seq<Operand>, output: seq<Op>, index: seq<nat>, widths: seq<nat>,
      y: Layout, count: nat)
    returns (index': seq<nat>)
    requires |y.l| == |y.r| && Serving(output, index, y.l, y.r, widths, count)
    requires widths == WriteWidths(ops, false) + WriteWidths(ops, true)
    requires count + 2 <= |y.l| && AllRead(ops) <= |y.l|
    ensures Served(ops) <= |y.l|
    ensures ServesBlocks(Completed(output, y, count, AllRead(ops)), index', y, |AllWritten(ops)|,
                         RoundWidths(ops, |y.l|))
  {
    var upto := Max(AllRead(ops), count + 2);
    assert |AllWritten(ops)| == count + 2 && Served(ops) == upto;
    WidthsAddUp(ops, |y.l|, widths);
    index' := CompletionServes(output, index, widths, y, count, AllRead(ops), upto);
  }

  lemma {:induction false} ServeData(output: seq<Op>, index: seq<nat>, widths: seq<nat>, y: Layout, count: nat)
    returns (output': seq<Op>, index': seq<nat>)
    requires |y.l| == |y.r| && Serving(output, index, y.l, y.r, widths, count) && count + 2 <= |y.l|
    ensures output' == output + Emitted(y.l, y.r, count, [4, 4])
    ensures Serving(output', index', y.l, y.r, widths + [4, 4], count + 2)
  {
    output', index' := output + Emitted(y.l, y.r, count, [4, 4]), index + Upto(count, 2);
    ServeOperand(output, index, y.l, y.r, widths, count, y.l, y.r, [4, 4], false);
  }

  /** The code of a round as it is generated: block copies around the stores of the outputs. */
  datatype StoreCode = StoreCode(backup: seq<Op>, output: seq<Store>, update: seq<Op>)

  function RoundStores(ops: seq<Operand>, y: Layout): StoreCode
    requires |y.l| == |y.r| == |y.bak| && Served(ops) <= |y.l|
  {
    var count := |AllWritten(ops)| - 2;
    StoreCode(Copies(y.r, y.bak), Stores(AllPieces(ops), y.l, y.r) + Singles(Completion(y, count, AllRead(ops))),
              Copies(y.bak, y.l))
  }

  /** The same, block by block. */
  function RoundOps(ops: seq<Operand>, y: Layout): RoundCode
    requires |y.l| == |y.r| == |y.bak| && Served(ops) <= |y.l|
  {
    var count := |AllWritten(ops)| - 2;
    RoundCode(Copies(y.r, y.bak), Completed(Plains(AllPieces(ops), y.l, y.r), y, count, AllRead(ops)),
              Copies(y.bak, y.l))
  }

  /** Every written operand has its blocks. */
  lemma {:induction false} PlanIsRoomy(ops: seq<Operand>, l: seq<nat>, r: seq<nat>)
    requires |AllWritten(ops)| - 2 <= |l| && |AllWritten(ops)| - 2 <= |r|
    ensures Roomy(AllPieces(ops), l, r)
  {
    WidthPerWord(ops, false);
    WidthPerWord(ops, true);
    PhaseIsRoomy(ops, false, 0, [], l, r);
    PhaseIsRoomy(ops, true, WriteWords(ops, false), PlanOf(ops, false, 0, []), l, r);
  }

  lemma {:induction false} PhaseIsRoomy(ops: seq<Operand>, mem: bool, at: nat, plan: seq<Piece>, l: seq<nat>,
      r: seq<nat>)
    requires Roomy(plan, l, r) && at + WriteWords(ops, mem) <= |l| && at + WriteWords(ops, mem) <= |r|
    ensures Roomy(PlanOf(ops, mem, at, plan), l, r)
  {
    if ops != [] {
      PhaseIsRoomy(ops[..|ops| - 1], mem, at, plan, l, r);
    }
  }
}

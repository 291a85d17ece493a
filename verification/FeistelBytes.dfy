/**
 The generated code byte by byte: which bytes of which outputs end up in which bytes of the blocks.
 */
module FeistelBytes {
  import opened Sequences
  import opened Feistel
  import opened FeistelCode
  import opened FeistelWide
  import opened FeistelPlans
  import opened FeistelEmission

  /** One byte of a word, the least significant one first. */
  function Byte(b: Block, i: nat): bv8 {
    if i == 0 then b.b0 else if i == 1 then b.b1 else if i == 2 then b.b2 else b.b3
  }

  /** One byte of an output word; the instruction gives none beyond its outputs. */
  function OutputByte(outs: seq<Block>, word: nat, i: nat): bv8 {
    if word < |outs| then Byte(outs[word], i) else 0
  }

  /**
   The byte of the given word of an output that the code folds in.  Memory and `xmm` registers are folded in word by
   word; of a register moved with `movd` the first word; of any other register all bytes it has, up to whole words.
   */
  predicate Folded(op: Operand, word: nat, i: nat) {
    op.mem || match op.via
              case ByWord => op.bytes >= 4 || i < op.bytes
              case Movd => word == 0
              case Movdqu => true
  }

  /** The number of the first block of a written operand: registers come first. */
  function FirstBlock(ops: seq<Operand>, k: nat): nat
    requires k < |ops|
  {
    WriteWords(ops[..k], ops[k].mem) + if ops[k].mem then WriteWords(ops, false) else 0
  }

  // ---------------------------------------------------------------------------------------------
  // Widths in bytes
  // ---------------------------------------------------------------------------------------------

  lemma {:induction false} MixByBytes(prev: Block, next: Block, width: nat, i: nat)
    requires i < 4
    ensures Byte(Mix(prev, next, width), i) == if i < width then Byte(next, i) else Byte(prev, i)
  {
  }

  ghost predicate XorsByte(a: Block, b: Block, c: Block, i: nat) {
    Byte(c, i) == Byte(a, i) ^ Byte(b, i)
  }

  lemma {:induction false} XorByte0(a: Block, b: Block, c: Block)
    requires c.b0 == a.b0 ^ b.b0
    ensures XorsByte(a, b, c, 0)
  {
  }

  lemma {:induction false} XorByte1(a: Block, b: Block, c: Block)
    requires c.b1 == a.b1 ^ b.b1
    ensures XorsByte(a, b, c, 1)
  {
  }

  lemma {:induction false} XorByte2(a: Block, b: Block, c: Block)
    requires c.b2 == a.b2 ^ b.b2
    ensures XorsByte(a, b, c, 2)
  {
  }

  lemma {:induction false} XorByte3(a: Block, b: Block, c: Block)
    requires c.b3 == a.b3 ^ b.b3
    ensures XorsByte(a, b, c, 3)
  {
  }

  lemma {:induction false} XorIsByBytes(a: Block, b: Block, c: Block)
    requires c == Xor(a, b)
    ensures XorsByte(a, b, c, 0) && XorsByte(a, b, c, 1) && XorsByte(a, b, c, 2) && XorsByte(a, b, c, 3)
  {
    XorByte0(a, b, c);
    XorByte1(a, b, c);
    XorByte2(a, b, c);
    XorByte3(a, b, c);
  }

  lemma {:induction false} XorByBytes(a: Block, b: Block, i: nat)
    requires i < 4
    ensures XorsByte(a, b, Xor(a, b), i)
  {
    XorIsByBytes(a, b, Xor(a, b));
    assert i == 0 || i == 1 || i == 2 || i == 3;
  }

  lemma {:induction false} StoredByBytes(op: Operand, word: nat, i: nat)
    requires word < Words(op.bytes) && i < 4
    ensures i < StoredBytes(op)[word] <==> Folded(op, word, i)
  {
  }

  lemma {:induction false} WidthOfWord(ops: seq<Operand>, k: nat, word: nat)
    requires k < |ops| && ops[k].isWritten && word < Words(ops[k].bytes)
    ensures var mem := ops[k].mem;
            var at := WriteWords(ops[..k], mem) + word;
            at < |WriteWidths(ops, mem)| && WriteWidths(ops, mem)[at] == StoredBytes(ops[k])[word]
    decreases |ops|
  {
    var init, mem := ops[..|ops| - 1], ops[k].mem;
    WidthPerWord(init, mem);
    if k < |init| {
      assert init[..k] == ops[..k];
      WidthOfWord(init, k, word);
    } else {
      assert ops[..k] == init;
    }
  }

  /** The widths of all outputs come first. */
  lemma {:induction false} WidthOfOutput(ops: seq<Operand>, n: nat, written: seq<nat>, at: nat)
    requires Served(ops) <= n && written == WriteWidths(ops, false) + WriteWidths(ops, true) && at < |written|
    ensures at < |AllWritten(ops)| <= n && RoundWidths(ops, n)[at] == written[at]
  {
    WidthsAddUp(ops, n, written);
    var rest := Fours(Served(ops) - |written| - 2) + Zeros(n - Served(ops));
    assert RoundWidths(ops, n) == written + ([4, 4] + rest);
  }

  lemma {:induction false} FirstBlockAmongOutputs(ops: seq<Operand>, k: nat)
    requires k < |ops|
    ensures FirstBlock(ops, k) ==
            WriteWords(ops[..k], ops[k].mem) + if ops[k].mem then |WriteWidths(ops, false)| else 0
  {
    WidthPerWord(ops, false);
  }

  lemma {:induction false} WidthAmongOutputs(regs: seq<nat>, mem: seq<nat>, isMem: bool, i: nat, at: nat, width: nat)
    requires at == i + if isMem then |regs| else 0
    requires if isMem then i < |mem| && mem[i] == width else i < |regs| && regs[i] == width
    ensures at < |regs + mem| && (regs + mem)[at] == width
  {
  }

  lemma {:induction false} WordAmongOutputs(ops: seq<Operand>, k: nat, word: nat, at: nat, width: nat)
    requires k < |ops| && ops[k].isWritten && word < Words(ops[k].bytes)
    requires at == FirstBlock(ops, k) + word && width == StoredBytes(ops[k])[word]
    ensures var written := WriteWidths(ops, false) + WriteWidths(ops, true);
            at < |written| && written[at] == width
  {
    WidthOfWord(ops, k, word);
    FirstBlockAmongOutputs(ops, k);
    WidthAmongOutputs(WriteWidths(ops, false), WriteWidths(ops, true), ops[k].mem,
                      WriteWords(ops[..k], ops[k].mem) + word, at, width);
  }

  lemma {:induction false} RoundWidthOfWord(ops: seq<Operand>, k: nat, word: nat, n: nat)
    requires k < |ops| && ops[k].isWritten && word < Words(ops[k].bytes) && Served(ops) <= n
    ensures var at := FirstBlock(ops, k) + word;
            at < |AllWritten(ops)| <= n && RoundWidths(ops, n)[at] == StoredBytes(ops[k])[word]
  {
    var written, at := WriteWidths(ops, false) + WriteWidths(ops, true), FirstBlock(ops, k) + word;
    WordAmongOutputs(ops, k, word, at, StoredBytes(ops[k])[word]);
    WidthOfOutput(ops, n, written, at);
  }

  // ---------------------------------------------------------------------------------------------
  // The memory after the generated code
  // ---------------------------------------------------------------------------------------------

  /** What one byte of one R block becomes, when it takes the byte of the given output word. */
  ghost predicate TakesOutput(m: Memory, m': Memory, y: Layout, outs: seq<Block>, block: nat, i: nat)
    requires block < |y.l| == |y.r|
  {
    Byte(m'(y.r[block]), i) == Byte(m(y.l[block]), i) ^ OutputByte(outs, block, i)
  }

  ghost predicate KeepsByte(m: Memory, m': Memory, y: Layout, block: nat, i: nat)
    requires block < |y.l| == |y.r|
  {
    Byte(m'(y.r[block]), i) == Byte(m(y.r[block]), i)
  }

  /** The memory after the code of a test case, block by block. */
  lemma {:induction false} BlockAfter(ops: seq<Operand>, y: Layout, f: Outputs, m: Memory, m': Memory, block: nat)
    requires ValidLayout(y) && Served(ops) <= |y.l| && TestCaseFits(ops, y) && block < |y.l|
    requires m' == RunStores(RoundStores(ops, y), f, y, m)
    ensures |RoundWidths(ops, |y.l|)| == |y.l|
    ensures m'(y.l[block]) == m(y.r[block])
    ensures m'(y.r[block]) == NewBlock(m, y, |AllWritten(ops)|, RoundWidths(ops, |y.l|), f(Contents(m, y.r)), block)
  {
    StoresComputeRound(ops, y, f, m);
    RoundAt(y, |AllWritten(ops)|, RoundWidths(ops, |y.l|), f, m, block);
    assert Contents(m', y.r)[block] == m'(y.r[block]) && Contents(m', y.l)[block] == m'(y.l[block]);
  }

  lemma {:induction false} NewBlockByBytes(m: Memory, y: Layout, words: nat, widths: seq<nat>, outs: seq<Block>,
      block: nat, i: nat)
    requires block < |y.l| == |y.r| == |widths| && i < 4
    ensures var b := Byte(NewBlock(m, y, words, widths, outs, block), i);
            if i >= widths[block] then b == Byte(m(y.r[block]), i)
            else if block >= words then b == Byte(m(y.l[block]), i)
            else b == Byte(m(y.l[block]), i) ^ OutputByte(outs, block, i)
  {
    var out := if block < words && block < |outs| then outs[block] else ZERO;
    MixByBytes(m(y.r[block]), Xor(m(y.l[block]), out), widths[block], i);
    if block >= words {
      XorZero(m(y.l[block]));
    } else {
      XorByBytes(m(y.l[block]), out, i);
      assert Byte(out, i) == OutputByte(outs, block, i);
    }
  }

  /** Every output of the test case, byte by byte. */
  ghost predicate FoldsOutputs(ops: seq<Operand>, y: Layout, outs: seq<Block>, m: Memory, m': Memory)
    requires |y.l| == |y.r|
  {
    forall k: nat, word: nat, i: nat |
      k < |ops| && ops[k].isWritten && word < Words(ops[k].bytes) && i < 4 :: FoldsByte(ops, y, outs, m, m', k, word, i)
  }

  ghost predicate FoldsByte(ops: seq<Operand>, y: Layout, outs: seq<Block>, m: Memory, m': Memory, k: nat, word: nat,
      i: nat)
    requires |y.l| == |y.r| && k < |ops|
  {
    var block := FirstBlock(ops, k) + word;
    block < |y.l| &&
    if Folded(ops[k], word, i) then TakesOutput(m, m', y, outs, block, i) else KeepsByte(m, m', y, block, i)
  }

  /** The words written by all operands, without exception data. */
  function OutputWords(ops: seq<Operand>): nat {
    WriteWords(ops, false) + WriteWords(ops, true)
  }

  /** Behind the outputs: two words of exception data, L where the test case reads more than it writes, and R. */
  ghost predicate FoldsRest(ops: seq<Operand>, y: Layout, outs: seq<Block>, m: Memory, m': Memory, block: nat, i: nat)
    requires |y.l| == |y.r|
  {
    && (OutputWords(ops) <= block < OutputWords(ops) + 2 ==>
          block < |y.l| && TakesOutput(m, m', y, outs, block, i))
    && (OutputWords(ops) + 2 <= block < AllRead(ops) ==>
          block < |y.l| && Byte(m'(y.r[block]), i) == Byte(m(y.l[block]), i))
    && (OutputWords(ops) + 2 <= block && AllRead(ops) <= block < |y.l| ==> KeepsByte(m, m', y, block, i))
  }

  /** The aggregate after a test case, byte by byte, from what the operands are and from nothing else. */
  ghost predicate FoldsCase(ops: seq<Operand>, y: Layout, f: Outputs, m: Memory, m': Memory) {
    && |y.l| == |y.r|
    && (forall block: nat | block < |y.l| :: m'(y.l[block]) == m(y.r[block]))
    && FoldsOutputs(ops, y, f(Contents(m, y.r)), m, m')
    && (forall block: nat, i: nat | i < 4 :: FoldsRest(ops, y, f(Contents(m, y.r)), m, m', block, i))
  }

  lemma {:induction false} OutputByBytes(ops: seq<Operand>, y: Layout, f: Outputs, m: Memory, m': Memory, k: nat,
      word: nat, i: nat)
    requires ValidLayout(y) && Served(ops) <= |y.l| && TestCaseFits(ops, y)
    requires m' == RunStores(RoundStores(ops, y), f, y, m)
    requires k < |ops| && ops[k].isWritten && word < Words(ops[k].bytes) && i < 4
    ensures FoldsByte(ops, y, f(Contents(m, y.r)), m, m', k, word, i)
  {
    var block, outs := FirstBlock(ops, k) + word, f(Contents(m, y.r));
    RoundWidthOfWord(ops, k, word, |y.l|);
    BlockAfter(ops, y, f, m, m', block);
    NewBlockByBytes(m, y, |AllWritten(ops)|, RoundWidths(ops, |y.l|), outs, block, i);
    StoredByBytes(ops[k], word, i);
  }

  lemma {:induction false} WidthOfRest(ops: seq<Operand>, n: nat, block: nat)
    requires Served(ops) <= n && OutputWords(ops) <= block < n
    ensures |AllWritten(ops)| == OutputWords(ops) + 2 && |RoundWidths(ops, n)| == n
    ensures RoundWidths(ops, n)[block] == if block < OutputWords(ops) + 2 || block < AllRead(ops) then 4 else 0
  {
    WidthPerWord(ops, false);
    WidthPerWord(ops, true);
  }

  lemma {:induction false} RestByBytes(ops: seq<Operand>, y: Layout, f: Outputs, m: Memory, m': Memory, block: nat,
      i: nat)
    requires ValidLayout(y) && Served(ops) <= |y.l| && TestCaseFits(ops, y)
    requires m' == RunStores(RoundStores(ops, y), f, y, m) && i < 4
    ensures FoldsRest(ops, y, f(Contents(m, y.r)), m, m', block, i)
  {
    WidthPerWord(ops, false);
    WidthPerWord(ops, true);
    if OutputWords(ops) <= block < |y.l| {
      WidthOfRest(ops, |y.l|, block);
      BlockAfter(ops, y, f, m, m', block);
      NewBlockByBytes(m, y, |AllWritten(ops)|, RoundWidths(ops, |y.l|), f(Contents(m, y.r)), block, i);
    }
  }

  /** The generated code of a test case whose wide stores fit, for all outputs and memories. */
  lemma {:induction false} CodeFoldsCase(ops: seq<Operand>, y: Layout, f: Outputs, m: Memory)
    requires ValidLayout(y) && Served(ops) <= |y.l| && TestCaseFits(ops, y)
    ensures FoldsCase(ops, y, f, m, RunStores(RoundStores(ops, y), f, y, m))
  {
    var m', outs := RunStores(RoundStores(ops, y), f, y, m), f(Contents(m, y.r));
    forall block: nat | block < |y.l|
      ensures m'(y.l[block]) == m(y.r[block])
    {
      BlockAfter(ops, y, f, m, m', block);
    }
    forall k: nat, word: nat, i: nat | k < |ops| && ops[k].isWritten && word < Words(ops[k].bytes) && i < 4
      ensures FoldsByte(ops, y, outs, m, m', k, word, i)
    {
      OutputByBytes(ops, y, f, m, m', k, word, i);
    }
    forall block: nat, i: nat | i < 4
      ensures FoldsRest(ops, y, outs, m, m', block, i)
    {
      RestByBytes(ops, y, f, m, m', block, i);
    }
  }

  /**
   Two emulators that give different bytes of an output leave different blocks, if and only if the byte is one that is
   folded in.
   */
  lemma {:induction false} ByteShowsExactlyWhen(ops: seq<Operand>, y: Layout, f: Outputs, g: Outputs, m: Memory, k: nat,
      word: nat, i: nat)
    requires ValidLayout(y) && Served(ops) <= |y.l| && TestCaseFits(ops, y)
    requires k < |ops| && ops[k].isWritten && word < Words(ops[k].bytes) && i < 4
    requires var block := FirstBlock(ops, k) + word;
             OutputByte(f(Contents(m, y.r)), block, i) != OutputByte(g(Contents(m, y.r)), block, i)
    ensures var block := FirstBlock(ops, k) + word;
            && block < |y.r|
            && var code := RoundStores(ops, y);
               Byte(RunStores(code, f, y, m)(y.r[block]), i) != Byte(RunStores(code, g, y, m)(y.r[block]), i) <==>
               Folded(ops[k], word, i)
  {
    var code, block := RoundStores(ops, y), FirstBlock(ops, k) + word;
    OutputByBytes(ops, y, f, m, RunStores(code, f, y, m), k, word, i);
    OutputByBytes(ops, y, g, m, RunStores(code, g, y, m), k, word, i);
    XorDiffers(Byte(m(y.l[block]), i), OutputByte(f(Contents(m, y.r)), block, i),
               OutputByte(g(Contents(m, y.r)), block, i));
  }

  lemma {:induction false} XorDiffers(a: bv8, b: bv8, c: bv8)
    requires b != c
    ensures a ^ b != a ^ c
  {
  }

  /** From every memory and for all outputs, the code does to the aggregate what the operands ask for. */
  ghost predicate FoldsAlways(code: StoreCode, ops: seq<Operand>, y: Layout) {
    forall f: Outputs, m: Memory :: FoldsCase(ops, y, f, m, RunStores(code, f, y, m))
  }

  lemma {:induction false} FittingCodeFolds(ops: seq<Operand>, y: Layout)
    requires ValidLayout(y) && Served(ops) <= |y.l|
    ensures TestCaseFits(ops, y) ==> FoldsAlways(RoundStores(ops, y), ops, y)
  {
    if TestCaseFits(ops, y) {
      forall f: Outputs, m: Memory
        ensures FoldsCase(ops, y, f, m, RunStores(RoundStores(ops, y), f, y, m))
      {
        CodeFoldsCase(ops, y, f, m);
      }
    }
  }

  // ---------------------------------------------------------------------------------------------
  // The stores of one operand
  // ---------------------------------------------------------------------------------------------

  function OutputOf(outs: seq<Block>, word: nat): Block {
    if word < |outs| then outs[word] else ZERO
  }

  lemma {:induction false} OtherCellStays(ops: seq<Op>, outs: seq<Block>, m: Memory, a: nat)
    requires forall k | 0 <= k < |ops| :: ops[k].dst != a
    ensures Exec(ops, outs, m)(a) == m(a)
  {
    if ops != [] {
      OtherCellStays(ops[..|ops| - 1], outs, m, a);
    }
  }

  lemma {:induction false} OneOperation(op: Op, outs: seq<Block>, m: Memory)
    ensures Exec([op], outs, m) == Exec1(op, outs, m)
  {
    assert [op][..0] == [];
  }

  /** An operation on cells that no other one writes. */
  lemma {:induction false} OneAmongOthers(before: seq<Op>, op: Op, after: seq<Op>, outs: seq<Block>, m: Memory)
    requires forall k | 0 <= k < |before| :: before[k].dst != op.dst && before[k].dst != op.src
    requires forall k | 0 <= k < |after| :: after[k].dst != op.dst
    ensures Exec(before + ([op] + after), outs, m)(op.dst) == Exec1(op, outs, m)(op.dst)
  {
    var m1 := Exec(before, outs, m);
    ExecOfConcat(before, [op] + after, outs, m);
    ExecOfConcat([op], after, outs, m1);
    OneOperation(op, outs, m1);
    OtherCellStays(before, outs, m, op.dst);
    OtherCellStays(before, outs, m, op.src);
    OtherCellStays(after, outs, Exec1(op, outs, m1), op.dst);
  }

  lemma {:induction false} EmittedFills(l: seq<nat>, r: seq<nat>, at: nat, bytes: seq<nat>, outs: seq<Block>, m: Memory,
      word: nat)
    requires at + |bytes| <= |l| && at + |bytes| <= |r| && NoRepeats(r) && Apart(l, r) && word < |bytes|
    ensures Exec(Emitted(l, r, at, bytes), outs, m)(r[at + word]) ==
            Exec1(XorOut(l[at + word], at + word, bytes[word], r[at + word]), outs, m)(r[at + word])
  {
    var ops := Emitted(l, r, at, bytes);
    var before, op, after := ops[..word], ops[word], ops[word + 1..];
    assert ops == before + ([op] + after);
    forall k | 0 <= k < |after|
      ensures after[k].dst != op.dst
    {
      assert after[k] == ops[word + 1 + k];
    }
    OneAmongOthers(before, op, after, outs, m);
  }

  lemma {:induction false} EmittedByBytes(l: seq<nat>, r: seq<nat>, at: nat, bytes: seq<nat>, outs: seq<Block>,
      m: Memory, word: nat, i: nat)
    requires at + |bytes| <= |l| && at + |bytes| <= |r| && NoRepeats(r) && Apart(l, r) && word < |bytes| && i < 4
    ensures Byte(Exec(Emitted(l, r, at, bytes), outs, m)(r[at + word]), i) ==
            if i < bytes[word] then Byte(m(l[at + word]), i) ^ OutputByte(outs, at + word, i)
            else Byte(m(r[at + word]), i)
  {
    var out := OutputOf(outs, at + word);
    EmittedFills(l, r, at, bytes, outs, m, word);
    MixByBytes(m(r[at + word]), Xor(m(l[at + word]), out), bytes[word], i);
    XorByBytes(m(l[at + word]), out, i);
    assert Byte(out, i) == OutputByte(outs, at + word, i);
  }

  /** The stores for one operand that fit, byte by byte. */
  lemma {:induction false} EmissionByBytes(op: Operand, l: seq<nat>, r: seq<nat>, at: nat, outs: seq<Block>, m: Memory,
      word: nat, i: nat)
    requires op.bytes > 0 && HasRoom(op, l, r, at) && NoRepeats(r) && Apart(l, r) && FitsAt(op, l, r, at)
    requires word < Words(op.bytes) && i < 4
    ensures Byte(ExecStores(Emission(op, l, r, at), outs, m)(r[at + word]), i) ==
            if Folded(op, word, i) then Byte(m(l[at + word]), i) ^ OutputByte(outs, at + word, i)
            else Byte(m(r[at + word]), i)
  {
    EmissionExactly(op, l, r, at);
    assert SameMemory(ExecStores(Emission(op, l, r, at), outs, m), Exec(Plain(op, l, r, at), outs, m));
    EmittedByBytes(l, r, at, StoredBytes(op), outs, m, word, i);
    StoredByBytes(op, word, i);
  }

  /** From every memory and for all outputs, the stores do to the blocks of an operand what it asks for. */
  ghost predicate FoldsOperand(stores: seq<Store>, op: Operand, l: seq<nat>, r: seq<nat>, at: nat)
    requires HasRoom(op, l, r, at)
  {
    forall outs: seq<Block>, m: Memory, word: nat, i: nat | word < Words(op.bytes) && i < 4 ::
      var m' := ExecStores(stores, outs, m);
      Byte(m'(r[at + word]), i) ==
      if Folded(op, word, i) then Byte(m(l[at + word]), i) ^ OutputByte(outs, at + word, i)
      else Byte(m(r[at + word]), i)
  }

  /** No cell but the blocks of R that belong to the operand is written. */
  ghost predicate TouchesOnly(stores: seq<Store>, op: Operand, r: seq<nat>, at: nat)
    requires at + Words(op.bytes) <= |r|
  {
    forall outs: seq<Block>, m: Memory, a: nat | a !in r[at..at + Words(op.bytes)] ::
      ExecStores(stores, outs, m)(a) == m(a)
  }

  lemma {:induction false} EmissionElsewhere(op: Operand, l: seq<nat>, r: seq<nat>, at: nat, outs: seq<Block>,
      m: Memory, a: nat)
    requires op.bytes > 0 && HasRoom(op, l, r, at) && NoRepeats(r) && Apart(l, r) && FitsAt(op, l, r, at)
    requires a !in r[at..at + Words(op.bytes)]
    ensures ExecStores(Emission(op, l, r, at), outs, m)(a) == m(a)
  {
    EmissionExactly(op, l, r, at);
    var ops := Plain(op, l, r, at);
    assert SameMemory(ExecStores(Emission(op, l, r, at), outs, m), Exec(ops, outs, m));
    forall k | 0 <= k < |ops|
      ensures ops[k].dst != a
    {
      assert ops[k].dst == r[at..at + Words(op.bytes)][k];
    }
    OtherCellStays(ops, outs, m, a);
  }

  lemma {:induction false} StoresFoldOperand(op: Operand, l: seq<nat>, r: seq<nat>, at: nat)
    requires op.bytes >= 1 && HasRoom(op, l, r, at)
    ensures NoRepeats(r) && Apart(l, r) && FitsAt(op, l, r, at) ==>
              FoldsOperand(Emission(op, l, r, at), op, l, r, at) && TouchesOnly(Emission(op, l, r, at), op, r, at)
  {
    if NoRepeats(r) && Apart(l, r) && FitsAt(op, l, r, at) {
      forall outs: seq<Block>, m: Memory, a: nat | a !in r[at..at + Words(op.bytes)]
        ensures ExecStores(Emission(op, l, r, at), outs, m)(a) == m(a)
      {
        EmissionElsewhere(op, l, r, at, outs, m, a);
      }
      forall outs: seq<Block>, m: Memory, word: nat, i: nat | word < Words(op.bytes) && i < 4
        ensures Byte(ExecStores(Emission(op, l, r, at), outs, m)(r[at + word]), i) ==
                if Folded(op, word, i) then Byte(m(l[at + word]), i) ^ OutputByte(outs, at + word, i)
                else Byte(m(r[at + word]), i)
      {
        EmissionByBytes(op, l, r, at, outs, m, word, i);
      }
    }
  }

  /** Memory is folded in word by word, a register with the moves it is transferred by. */
  method EmitWrite(op: Operand, l: seq<nat>, r: seq<nat>, at: nat) returns (stores: seq<Store>)
    requires op.bytes >= 1 && HasRoom(op, l, r, at)
    ensures stores == Emission(op, l, r, at)
    ensures NoRepeats(r) && Apart(l, r) && FitsAt(op, l, r, at) ==>
              FoldsOperand(stores, op, l, r, at) && TouchesOnly(stores, op, r, at)
  {
    StoresFoldOperand(op, l, r, at);
    if !op.mem && op.via.Movdqu? {
      return [WideStore(l[at], r[at], at, Words(op.bytes))];
    }
    if !op.mem && op.via.Movd? {
      return [Single(XorOut(l[at], at, 4, r[at]))];
    }
    stores := [];
    for j := 0 to Words(op.bytes)
      invariant |stores| == j
      invariant forall i | 0 <= i < j :: stores[i] == Single(XorOut(l[at + i], at + i, StoredBytes(op)[i], r[at + i]))
    {
      var bytes := if !op.mem && op.bytes < 4 then op.bytes else 4;
      stores := stores + [Single(XorOut(l[at + j], at + j, bytes, r[at + j]))];
    }
  }

  /** The output code.  Blocks keep their addresses, so that it does not matter when the stores are generated. */
  method EmitAll(plan: seq<Piece>, l: seq<nat>, r: seq<nat>) returns (stores: seq<Store>)
    requires Roomy(plan, l, r)
    ensures stores == Stores(plan, l, r)
  {
    stores := [];
    for k := 0 to |plan|
      invariant stores == Stores(plan[..k], l, r)
    {
      var more := EmitWrite(plan[k].op, l, r, plan[k].at);
      EmitOneMore(plan, k, l, r, more);
      stores := stores + more;
    }
    assert plan[..|plan|] == plan;
  }

  lemma {:induction false} EmitOneMore(plan: seq<Piece>, k: nat, l: seq<nat>, r: seq<nat>, more: seq<Store>)
    requires k < |plan| && more == Emission(plan[k].op, l, r, plan[k].at)
    ensures Stores(plan[..k + 1], l, r) == Stores(plan[..k], l, r) + more
  {
    assert Emissions(plan[..k + 1], l, r) == Emissions(plan[..k], l, r) + [more];
    FlatOneMore(Emissions(plan[..k], l, r), more);
  }

  lemma {:induction false} CodeOfRound(ops: seq<Operand>, y: Layout, count: nat, rd: nat, output: seq<Store>)
    requires |y.l| == |y.r| == |y.bak| && count == |AllWritten(ops)| - 2 && count + 2 <= |y.l|
    requires rd == AllRead(ops) <= |y.l| && output == Stores(AllPieces(ops), y.l, y.r)
    ensures Served(ops) <= |y.l|
    ensures StoreCode(Copies(y.r, y.bak), output + Singles(Completion(y, count, rd)), Copies(y.bak, y.l)) ==
            RoundStores(ops, y)
  {
  }

  /** Outputs, exception data and padding, between backup and update. */
  method Generate(ops: seq<Operand>, plan: seq<Piece>, y: Layout, count: nat, rd: nat) returns (code: StoreCode)
    requires |y.l| == |y.r| == |y.bak| && plan == AllPieces(ops)
    requires count == |AllWritten(ops)| - 2 && count + 2 <= |y.l| && rd == AllRead(ops) <= |y.l|
    ensures Served(ops) <= |y.l| && code == RoundStores(ops, y)
  {
    PlanIsRoomy(ops, y.l, y.r);
    var output := EmitAll(plan, y.l, y.r);
    CodeOfRound(ops, y, count, rd, output);
    code := StoreCode(Copies(y.r, y.bak), output + Singles(Completion(y, count, rd)), Copies(y.bak, y.l));
  }
}

/**
 The straight-line code of one Feistel round, as moves and xors between memory blocks, and its
 agreement with the round it is to compute.
 */
module FeistelCode {
  import opened Sequences
  import opened Feistel

  type Memory = nat -> Block

  const ZERO: Block := Block(0, 0, 0, 0)
  const ONES: Block := Block(0xff, 0xff, 0xff, 0xff)
  const BLANK: Memory := (x: nat) => ZERO

  /**
   `Move` copies a block.  `XorOut` stores the given number of bytes of a block xored with one output
   word of the tested instruction.
   */
  datatype Op =
    | Move(src: nat, dst: nat)
    | XorOut(src: nat, word: nat, bytes: nat, dst: nat)

  function Exec1(op: Op, outs: seq<Block>, m: Memory): Memory {
    match op
    case Move(src, dst) => (a: nat) => if a == dst then m(src) else m(a)
    case XorOut(src, word, bytes, dst) =>
      var out := if word < |outs| then outs[word] else ZERO;
      (a: nat) => if a == dst then Mix(m(dst), Xor(m(src), out), bytes) else m(a)
  }

  function Exec(ops: seq<Op>, outs: seq<Block>, m: Memory): Memory {
    if ops == [] then m else Exec1(ops[|ops| - 1], outs, Exec(ops[..|ops| - 1], outs, m))
  }

  ghost predicate SameMemory(m: Memory, m': Memory) {
    forall x: nat :: m(x) == m'(x)
  }

  /** The addresses of the aggregate and of the backup of R. */
  datatype Layout = Layout(l: seq<nat>, r: seq<nat>, bak: seq<nat>)

  ghost predicate Apart(a: seq<nat>, b: seq<nat>) {
    forall i, j | 0 <= i < |a| && 0 <= j < |b| :: a[i] != b[j]
  }

  ghost predicate ValidLayout(y: Layout) {
    && |y.l| == |y.r| == |y.bak|
    && NoRepeats(y.l) && NoRepeats(y.r) && NoRepeats(y.bak)
    && Apart(y.l, y.r) && Apart(y.l, y.bak) && Apart(y.r, y.bak)
  }

  function Contents(m: Memory, a: seq<nat>): (s: seq<Block>)
    ensures |s| == |a|
    ensures forall i | 0 <= i < |a| :: s[i] == m(a[i])
  {
    seq(|a|, i requires 0 <= i < |a| => m(a[i]))
  }

  function Aggregate(m: Memory, y: Layout): Halves {
    Halves(Contents(m, y.l), Contents(m, y.r))
  }

  /** Block by block copies from `src` to `dst`. */
  function Copies(src: seq<nat>, dst: seq<nat>): (ops: seq<Op>)
    requires |src| == |dst|
    ensures |ops| == |src|
    ensures forall i | 0 <= i < |ops| :: ops[i] == Move(src[i], dst[i])
  {
    seq(|src|, i requires 0 <= i < |src| => Move(src[i], dst[i]))
  }

  lemma {:induction false} CopiesCopy(src: seq<nat>, dst: seq<nat>, outs: seq<Block>, m: Memory, k: nat)
    requires |src| == |dst| && NoRepeats(dst) && Apart(src, dst) && k <= |src|
    ensures var m' := Exec(Copies(src, dst)[..k], outs, m);
            && (forall i | 0 <= i < k :: m'(dst[i]) == m(src[i]))
            && (forall a | a !in dst[..k] :: m'(a) == m(a))
  {
    var ops := Copies(src, dst);
    if k > 0 {
      assert ops[..k][..k - 1] == ops[..k - 1];
      CopiesCopy(src, dst, outs, m, k - 1);
      assert dst[..k] == dst[..k - 1] + [dst[k - 1]];
      assert src[k - 1] !in dst[..k - 1];
    }
  }

  // ---------------------------------------------------------------------------------------------
  // The code of a round
  // ---------------------------------------------------------------------------------------------

  /** Saving R, folding the outputs into R, moving the saved R to L. */
  datatype RoundCode = RoundCode(backup: seq<Op>, output: seq<Op>, update: seq<Op>)

  /**
   What the output code must be, in whatever order it was emitted: `index[k]` is the block that the
   k-th operation serves.  Blocks below `words` take an output word, the others are padded from L, and
   no block is served twice; a block that is not served has width 0.
   */
  ghost predicate ServesBlocks(ops: seq<Op>, index: seq<nat>, y: Layout, words: nat, widths: seq<nat>) {
    && |index| == |ops| && NoRepeats(index)
    && |widths| == |y.l| == |y.r|
    && (forall k | 0 <= k < |ops| :: index[k] < |widths|)
    && (forall k | 0 <= k < |ops| ::
          var i := index[k];
          if i < words then ops[k] == XorOut(y.l[i], i, widths[i], y.r[i])
          else ops[k] == Move(y.l[i], y.r[i]) && widths[i] == 4)
    && (forall i: nat | i < |widths| && i !in index :: widths[i] == 0)
  }

  ghost predicate IsRoundCode(c: RoundCode, index: seq<nat>, y: Layout, words: nat, widths: seq<nat>) {
    && ValidLayout(y)
    && c.backup == Copies(y.r, y.bak)
    && ServesBlocks(c.output, index, y, words, widths)
    && c.update == Copies(y.bak, y.l)
  }

  /** The tested instruction's outputs for blocks below `words`, nothing for the rest. */
  function Padded(f: Outputs, words: nat, n: nat): Outputs {
    (r: seq<Block>) => seq(n, i => if 0 <= i < words && i < |f(r)| then f(r)[i] else ZERO)
  }

  /** What one block of R holds after the operations serving the blocks of `served`. */
  ghost function NewBlock(m: Memory, y: Layout, words: nat, widths: seq<nat>, outs: seq<Block>, i: nat): Block
    requires i < |y.l| == |y.r| == |widths|
  {
    Mix(m(y.r[i]), Xor(m(y.l[i]), if i < words && i < |outs| then outs[i] else ZERO), widths[i])
  }

  lemma {:induction false} OutputCodeFillsBlocks(ops: seq<Op>, index: seq<nat>, y: Layout, words: nat,
      widths: seq<nat>, outs: seq<Block>, m: Memory, k: nat)
    requires ValidLayout(y) && ServesBlocks(ops, index, y, words, widths) && k <= |ops|
    ensures var m' := Exec(ops[..k], outs, m);
            && (forall j | 0 <= j < k :: m'(y.r[index[j]]) == NewBlock(m, y, words, widths, outs, index[j]))
            && (forall a | (forall j | 0 <= j < k :: a != y.r[index[j]]) :: m'(a) == m(a))
  {
    if k > 0 {
      OutputCodeFillsBlocks(ops, index, y, words, widths, outs, m, k - 1);
      assert ops[..k][..k - 1] == ops[..k - 1];
      var before := Exec(ops[..k - 1], outs, m);
      var i := index[k - 1];
      assert before(y.l[i]) == m(y.l[i]);
      assert before(y.r[i]) == m(y.r[i]) by {
        forall j | 0 <= j < k - 1 ensures y.r[i] != y.r[index[j]] {
          assert index[j] != i;
        }
      }
      OutputOp(ops[k - 1], y, words, widths, outs, before, m, i);
    }
  }

  lemma {:induction false} OutputOp(op: Op, y: Layout, words: nat, widths: seq<nat>, outs: seq<Block>, before: Memory,
      m: Memory, i: nat)
    requires i < |y.l| == |y.r| == |widths|
    requires if i < words then op == XorOut(y.l[i], i, widths[i], y.r[i])
             else op == Move(y.l[i], y.r[i]) && widths[i] == 4
    requires before(y.l[i]) == m(y.l[i]) && before(y.r[i]) == m(y.r[i])
    ensures Exec1(op, outs, before)(y.r[i]) == NewBlock(m, y, words, widths, outs, i)
  {
    if i >= words {
      XorZero(m(y.l[i]));
    }
  }

  lemma {:induction false} OutputStage(ops: seq<Op>, index: seq<nat>, y: Layout, words: nat, widths: seq<nat>,
      outs: seq<Block>, m: Memory)
    requires ValidLayout(y) && ServesBlocks(ops, index, y, words, widths)
    ensures forall i | 0 <= i < |y.r| :: Exec(ops, outs, m)(y.r[i]) == NewBlock(m, y, words, widths, outs, i)
    ensures forall a | a !in y.r :: Exec(ops, outs, m)(a) == m(a)
  {
    OutputCodeFillsBlocks(ops, index, y, words, widths, outs, m, |ops|);
    assert ops[..|ops|] == ops;
    forall i | 0 <= i < |y.r|
      ensures Exec(ops, outs, m)(y.r[i]) == NewBlock(m, y, words, widths, outs, i)
    {
      if i in index {
        var k :| 0 <= k < |index| && index[k] == i;
      } else {
        assert forall j | 0 <= j < |ops| :: y.r[i] != y.r[index[j]];
        assert widths[i] == 0;
      }
    }
  }

  lemma {:induction false} CopyStage(src: seq<nat>, dst: seq<nat>, m: Memory)
    requires |src| == |dst| && NoRepeats(dst) && Apart(src, dst)
    ensures forall i | 0 <= i < |dst| :: Exec(Copies(src, dst), [], m)(dst[i]) == m(src[i])
    ensures forall a | a !in dst :: Exec(Copies(src, dst), [], m)(a) == m(a)
  {
    CopiesCopy(src, dst, [], m, |src|);
    var ops := Copies(src, dst);
    assert ops[..|src|] == ops && dst[..|src|] == dst;
  }

  lemma {:induction false} XorZero(a: Block)
    ensures Xor(a, ZERO) == a
  {
  }

  ghost function RunRound(c: RoundCode, f: Outputs, y: Layout, m: Memory): Memory {
    var m1 := Exec(c.backup, [], m);
    var m2 := Exec(c.output, f(Contents(m1, y.r)), m1);
    Exec(c.update, [], m2)
  }

  /** The memory holds the Feistel round of what it held before. */
  ghost predicate ComputesRound(y: Layout, words: nat, widths: seq<nat>, f: Outputs, m: Memory, m': Memory) {
    var t := Case(widths, Padded(f, words, |y.l|));
    ValidCase(t, |y.l|) && |y.l| == |y.r| && Aggregate(m', y) == Round(t, Aggregate(m, y))
  }

  /** The memory after the generated code, cell by cell. */
  lemma {:induction false} RoundMemory(c: RoundCode, index: seq<nat>, y: Layout, words: nat, widths: seq<nat>,
      f: Outputs, m: Memory)
    requires IsRoundCode(c, index, y, words, widths)
    ensures var m', outs := RunRound(c, f, y, m), f(Contents(m, y.r));
            && (forall i | 0 <= i < |y.l| :: m'(y.l[i]) == m(y.r[i]))
            && (forall i | 0 <= i < |y.r| :: m'(y.r[i]) == NewBlock(m, y, words, widths, outs, i))
            && (forall a | a !in y.l && a !in y.r && a !in y.bak :: m'(a) == m(a))
  {
    var m1 := Exec(c.backup, [], m);
    CopyStage(y.r, y.bak, m);
    KeepsApart(y);
    assert Contents(m1, y.r) == Contents(m, y.r);
    var outs := f(Contents(m, y.r));
    var m2 := Exec(c.output, outs, m1);
    OutputStage(c.output, index, y, words, widths, outs, m1);
    CopyStage(y.bak, y.l, m2);
    forall i | 0 <= i < |y.r|
      ensures Exec(c.update, [], m2)(y.r[i]) == NewBlock(m, y, words, widths, outs, i)
    {
      assert m1(y.l[i]) == m(y.l[i]) && m1(y.r[i]) == m(y.r[i]);
      assert m2(y.r[i]) == NewBlock(m1, y, words, widths, outs, i);
    }
  }

  /** The generated code computes the round, and touches nothing but its blocks. */
  lemma {:induction false} CodeComputesRound(c: RoundCode, index: seq<nat>, y: Layout, words: nat, widths: seq<nat>,
      f: Outputs, m: Memory)
    requires IsRoundCode(c, index, y, words, widths)
    ensures var n := |y.l|;
            ValidCase(Case(widths, Padded(f, words, n)), n)
    ensures Aggregate(RunRound(c, f, y, m), y) == Round(Case(widths, Padded(f, words, |y.l|)), Aggregate(m, y))
    ensures forall a | a !in y.l && a !in y.r && a !in y.bak :: RunRound(c, f, y, m)(a) == m(a)
  {
    RoundMemory(c, index, y, words, widths, f, m);
    var m', n := RunRound(c, f, y, m), |y.l|;
    var t := Case(widths, Padded(f, words, n));
    var h := Round(t, Aggregate(m, y));
    forall i | 0 <= i < n
      ensures m'(y.l[i]) == h.l[i] && m'(y.r[i]) == h.r[i]
    {
      RoundAt(y, words, widths, f, m, i);
    }
    assert Contents(m', y.l) == h.l && Contents(m', y.r) == h.r;
  }

  lemma {:induction false} RoundAt(y: Layout, words: nat, widths: seq<nat>, f: Outputs, m: Memory, i: nat)
    requires i < |y.l| == |y.r| == |widths|
    ensures var h := Round(Case(widths, Padded(f, words, |y.l|)), Aggregate(m, y));
            h.l[i] == m(y.r[i]) && h.r[i] == NewBlock(m, y, words, widths, f(Contents(m, y.r)), i)
  {
  }

  lemma {:induction false} KeepsApart(y: Layout)
    requires ValidLayout(y)
    ensures forall i | 0 <= i < |y.l| ::
              && y.l[i] !in y.bak && y.l[i] !in y.r && y.r[i] !in y.bak && y.r[i] !in y.l
              && y.bak[i] !in y.r && y.bak[i] !in y.l
  {
  }
}

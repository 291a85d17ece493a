/**
 Stores wider than a block: an `xmm` output is loaded, folded in and stored in one piece of 16 bytes, which takes the
 place of four blocks only if these lie one after the other.
 */
module FeistelWide {
  import opened Sequences
  import opened Wrappers
  import opened Feistel
  import opened FeistelCode

  /**
   What the output code really consists of.  `FourWords` folds four output words into consecutive words of memory,
   from `src` to `dst`; words of the register beyond the operand are taken to be zero.
   */
  datatype Store =
    | Single(op: Op)
    | FourWords(src: nat, w0: Option<nat>, w1: Option<nat>, w2: Option<nat>, w3: Option<nat>, dst: nat)

  function OutputWord(outs: seq<Block>, w: Option<nat>): Block {
    if w.Some? && w.value < |outs| then outs[w.value] else ZERO
  }

  function ExecStore(s: Store, outs: seq<Block>, m: Memory): Memory {
    match s
    case Single(op) => Exec1(op, outs, m)
    case FourWords(src, w0, w1, w2, w3, dst) =>
      (a: nat) =>
        if a == dst then Xor(m(src), OutputWord(outs, w0))
        else if a == dst + 4 then Xor(m(src + 4), OutputWord(outs, w1))
        else if a == dst + 8 then Xor(m(src + 8), OutputWord(outs, w2))
        else if a == dst + 12 then Xor(m(src + 12), OutputWord(outs, w3))
        else m(a)
  }

  function ExecStores(ss: seq<Store>, outs: seq<Block>, m: Memory): Memory {
    if ss == [] then m else ExecStore(ss[|ss| - 1], outs, ExecStores(ss[..|ss| - 1], outs, m))
  }

  /** The stores do what the operations on single blocks do. */
  ghost predicate Amounts(ss: seq<Store>, ops: seq<Op>) {
    forall outs: seq<Block>, m: Memory :: SameMemory(ExecStores(ss, outs, m), Exec(ops, outs, m))
  }

  function Singles(ops: seq<Op>): (ss: seq<Store>)
    ensures |ss| == |ops| && forall i | 0 <= i < |ops| :: ss[i] == Single(ops[i])
  {
    seq(|ops|, i requires 0 <= i < |ops| => Single(ops[i]))
  }

  // ---------------------------------------------------------------------------------------------
  // Composition
  // ---------------------------------------------------------------------------------------------

  lemma {:induction false} ExecOfSame(ops: seq<Op>, outs: seq<Block>, m: Memory, m': Memory)
    requires SameMemory(m, m')
    ensures SameMemory(Exec(ops, outs, m), Exec(ops, outs, m'))
  {
    if ops != [] {
      ExecOfSame(ops[..|ops| - 1], outs, m, m');
    }
  }

  lemma {:induction false} ExecOfConcat(a: seq<Op>, b: seq<Op>, outs: seq<Block>, m: Memory)
    ensures Exec(a + b, outs, m) == Exec(b, outs, Exec(a, outs, m))
  {
    if b == [] {
      assert a + b == a;
    } else {
      assert (a + b)[..|a + b| - 1] == a + b[..|b| - 1];
      ExecOfConcat(a, b[..|b| - 1], outs, m);
    }
  }

  lemma {:induction false} StoresOfConcat(a: seq<Store>, b: seq<Store>, outs: seq<Block>, m: Memory)
    ensures ExecStores(a + b, outs, m) == ExecStores(b, outs, ExecStores(a, outs, m))
  {
    if b == [] {
      assert a + b == a;
    } else {
      assert (a + b)[..|a + b| - 1] == a + b[..|b| - 1];
      StoresOfConcat(a, b[..|b| - 1], outs, m);
    }
  }

  lemma {:induction false} SinglesAmount(ops: seq<Op>)
    ensures Amounts(Singles(ops), ops)
  {
    forall outs: seq<Block>, m: Memory
      ensures SameMemory(ExecStores(Singles(ops), outs, m), Exec(ops, outs, m))
    {
      SinglesDoTheSame(ops, outs, m);
    }
  }

  lemma {:induction false} SinglesDoTheSame(ops: seq<Op>, outs: seq<Block>, m: Memory)
    ensures ExecStores(Singles(ops), outs, m) == Exec(ops, outs, m)
  {
    if ops != [] {
      SinglesDoTheSame(ops[..|ops| - 1], outs, m);
      assert Singles(ops)[..|ops| - 1] == Singles(ops[..|ops| - 1]);
    }
  }

  lemma {:induction false} AmountsOfConcat(a: seq<Store>, x: seq<Op>, b: seq<Store>, y: seq<Op>)
    requires Amounts(a, x) && Amounts(b, y)
    ensures Amounts(a + b, x + y)
  {
    forall outs: seq<Block>, m: Memory
      ensures SameMemory(ExecStores(a + b, outs, m), Exec(x + y, outs, m))
    {
      StoresOfConcat(a, b, outs, m);
      ExecOfConcat(x, y, outs, m);
      assert SameMemory(ExecStores(a, outs, m), Exec(x, outs, m));
      assert SameMemory(ExecStores(b, outs, ExecStores(a, outs, m)), Exec(y, outs, ExecStores(a, outs, m)));
      ExecOfSame(y, outs, ExecStores(a, outs, m), Exec(x, outs, m));
    }
  }

  // ---------------------------------------------------------------------------------------------
  // One operand
  // ---------------------------------------------------------------------------------------------

  function Fours(n: nat): (s: seq<nat>)
    ensures |s| == n && forall i | 0 <= i < n :: s[i] == 4
  {
    seq(n, i => 4)
  }

  function Zeros(n: nat): (s: seq<nat>)
    ensures |s| == n && forall i | 0 <= i < n :: s[i] == 0
  {
    seq(n, i => 0)
  }

  /** The operations that fold the words of one operand into the blocks from `at` on. */
  function Emitted(l: seq<nat>, r: seq<nat>, at: nat, bytes: seq<nat>): (ops: seq<Op>)
    requires at + |bytes| <= |l| && at + |bytes| <= |r|
    ensures |ops| == |bytes|
    ensures forall j | 0 <= j < |ops| :: ops[j] == XorOut(l[at + j], at + j, bytes[j], r[at + j])
  {
    seq(|bytes|, j requires 0 <= j < |bytes| => XorOut(l[at + j], at + j, bytes[j], r[at + j]))
  }

  /** The same for an operand whose blocks are given, the first of them number `at`. */
  function FoldOps(a: seq<nat>, b: seq<nat>, at: nat, bytes: seq<nat>): (ops: seq<Op>)
    requires |a| == |b| == |bytes|
    ensures |ops| == |bytes| && forall j | 0 <= j < |ops| :: ops[j] == XorOut(a[j], at + j, bytes[j], b[j])
  {
    seq(|bytes|, j requires 0 <= j < |bytes| => XorOut(a[j], at + j, bytes[j], b[j]))
  }

  lemma {:induction false} EmittedFolds(l: seq<nat>, r: seq<nat>, at: nat, bytes: seq<nat>)
    requires at + |bytes| <= |l| && at + |bytes| <= |r|
    ensures Emitted(l, r, at, bytes) == FoldOps(l[at..at + |bytes|], r[at..at + |bytes|], at, bytes)
  {
  }

  /** The outputs have been folded into the first `n` blocks of an operand, and nothing else has changed. */
  ghost predicate Folded(a: seq<nat>, b: seq<nat>, at: nat, bytes: seq<nat>, outs: seq<Block>, m: Memory, m': Memory,
      n: nat)
    requires n <= |a| == |b| == |bytes|
  {
    && (forall j | 0 <= j < n :: m'(b[j]) == Mix(m(b[j]), Xor(m(a[j]), OutputWord(outs, Some(at + j))), bytes[j]))
    && (forall x: nat | x !in b[..n] :: m'(x) == m(x))
  }

  /** What the operations on the blocks of one operand do. */
  lemma {:induction false} FoldDoes(a: seq<nat>, b: seq<nat>, at: nat, bytes: seq<nat>, outs: seq<Block>, m: Memory,
      n: nat)
    requires n <= |a| == |b| == |bytes| && NoRepeats(b) && Apart(a, b)
    ensures Folded(a, b, at, bytes, outs, m, Exec(FoldOps(a, b, at, bytes)[..n], outs, m), n)
  {
    if n > 0 {
      var k := n - 1;
      FoldDoes(a, b, at, bytes, outs, m, k);
      ExecOneMore(FoldOps(a, b, at, bytes), outs, m, k);
      FoldOneMore(a, b, at, bytes, outs, m, Exec(FoldOps(a, b, at, bytes)[..k], outs, m), k,
                  FoldOps(a, b, at, bytes)[k]);
    }
  }

  lemma {:induction false} ExecOneMore(ops: seq<Op>, outs: seq<Block>, m: Memory, n: nat)
    requires n < |ops|
    ensures Exec(ops[..n + 1], outs, m) == Exec1(ops[n], outs, Exec(ops[..n], outs, m))
  {
    assert ops[..n + 1][..n] == ops[..n];
  }

  lemma {:induction false} FoldOneMore(a: seq<nat>, b: seq<nat>, at: nat, bytes: seq<nat>, outs: seq<Block>,
      m: Memory, m': Memory, n: nat, op: Op)
    requires n < |a| == |b| == |bytes| && NoRepeats(b) && Apart(a, b) && Folded(a, b, at, bytes, outs, m, m', n)
    requires op == XorOut(a[n], at + n, bytes[n], b[n])
    ensures Folded(a, b, at, bytes, outs, m, Exec1(op, outs, m'), n + 1)
  {
    assert b[..n + 1] == b[..n] + [b[n]];
    assert a[n] !in b[..n] && b[n] !in b[..n];
    assert m'(a[n]) == m(a[n]) && m'(b[n]) == m(b[n]);
  }

  lemma {:induction false} FoldAll(a: seq<nat>, b: seq<nat>, at: nat, outs: seq<Block>, m: Memory)
    requires |a| == |b| && NoRepeats(b) && Apart(a, b)
    ensures var m' := Exec(FoldOps(a, b, at, Fours(|a|)), outs, m);
            && (forall j | 0 <= j < |b| :: m'(b[j]) == Xor(m(a[j]), OutputWord(outs, Some(at + j))))
            && (forall x: nat | x !in b :: m'(x) == m(x))
  {
    var n, ops := |a|, FoldOps(a, b, at, Fours(|a|));
    FoldDoes(a, b, at, Fours(n), outs, m, n);
    assert ops[..n] == ops && b[..n] == b;
    forall j | 0 <= j < |b|
      ensures Exec(ops, outs, m)(b[j]) == Xor(m(a[j]), OutputWord(outs, Some(at + j)))
    {
      FullMix(m(b[j]), Xor(m(a[j]), OutputWord(outs, Some(at + j))));
    }
  }

  /** The store of a register that has four words, of which the operand has `n`. */
  function WideStore(src: nat, dst: nat, at: nat, n: nat): Store {
    FourWords(src, WordOf(at, n, 0), WordOf(at, n, 1), WordOf(at, n, 2), WordOf(at, n, 3), dst)
  }

  function WordOf(at: nat, n: nat, j: nat): Option<nat> {
    if j < n then Some(at + j) else None
  }

  lemma {:induction false} WideWord(src: nat, dst: nat, at: nat, n: nat, j: nat, outs: seq<Block>, m: Memory)
    requires j < 4
    ensures ExecStore(WideStore(src, dst, at, n), outs, m)(dst + 4 * j) ==
            Xor(m(src + 4 * j), OutputWord(outs, WordOf(at, n, j)))
  {
    assert j == 0 || j == 1 || j == 2 || j == 3;
  }

  lemma {:induction false} WideKeeps(src: nat, dst: nat, at: nat, n: nat, outs: seq<Block>, m: Memory, x: nat)
    requires x != dst && x != dst + 4 && x != dst + 8 && x != dst + 12
    ensures ExecStore(WideStore(src, dst, at, n), outs, m)(x) == m(x)
  {
  }

  predicate Consecutive(a: seq<nat>) {
    |a| == 4 && a[1] == a[0] + 4 && a[2] == a[0] + 8 && a[3] == a[0] + 12
  }

  /** The operand has four blocks, which lie one after the other in L and in R. */
  predicate FitsWide(a: seq<nat>, b: seq<nat>) {
    Consecutive(a) && Consecutive(b)
  }

  lemma {:induction false} OneStore(s: Store, outs: seq<Block>, m: Memory)
    ensures ExecStores([s], outs, m) == ExecStore(s, outs, m)
  {
    assert [s][..0] == [];
  }

  lemma {:induction false} FullMix(prev: Block, next: Block)
    ensures Mix(prev, next, 4) == next
  {
  }

  /** A store that fits does what the operations on its four blocks do. */
  lemma {:induction false} FittingStore(a: seq<nat>, b: seq<nat>, at: nat, outs: seq<Block>, m: Memory)
    requires NoRepeats(b) && Apart(a, b) && FitsWide(a, b)
    ensures SameMemory(ExecStores([WideStore(a[0], b[0], at, 4)], outs, m), Exec(FoldOps(a, b, at, Fours(4)), outs, m))
  {
    var s, m' := WideStore(a[0], b[0], at, 4), Exec(FoldOps(a, b, at, Fours(4)), outs, m);
    OneStore(s, outs, m);
    FoldAll(a, b, at, outs, m);
    forall x: nat
      ensures ExecStore(s, outs, m)(x) == m'(x)
    {
      if x in b {
        var j: nat :| j < |b| && b[j] == x;
        FittingWord(a, b, at, outs, m, j);
      } else {
        assert b[0] in b && b[1] in b && b[2] in b && b[3] in b;
        WideKeeps(a[0], b[0], at, 4, outs, m, x);
      }
    }
  }

  lemma {:induction false} FittingWord(a: seq<nat>, b: seq<nat>, at: nat, outs: seq<Block>, m: Memory, j: nat)
    requires FitsWide(a, b) && j < 4
    ensures ExecStore(WideStore(a[0], b[0], at, 4), outs, m)(b[j]) == Xor(m(a[j]), OutputWord(outs, Some(at + j)))
  {
    ConsecutiveAt(a, j);
    ConsecutiveAt(b, j);
    WideWord(a[0], b[0], at, 4, j, outs, m);
  }

  lemma {:induction false} ConsecutiveAt(a: seq<nat>, j: nat)
    requires Consecutive(a) && j < 4
    ensures a[j] == a[0] + 4 * j
  {
    assert j == 0 || j == 1 || j == 2 || j == 3;
  }

  /** Output words of which only one is not zero. */
  function OneOutput(w: nat): seq<Block> {
    seq(w + 1, i => if i == w then ONES else ZERO)
  }

  function OneCell(a: nat): Memory {
    (x: nat) => if x == a then ONES else ZERO
  }

  lemma {:induction false} XorWithZero()
    ensures Xor(ONES, ZERO) == ONES && Xor(ZERO, ONES) == ONES && Xor(ZERO, ZERO) == ZERO
  {
  }

  /** A store and operations that do the same, on one memory. */
  lemma {:induction false} SameOn(a: seq<nat>, b: seq<nat>, at: nat, outs: seq<Block>, m: Memory, x: nat)
    requires 1 <= |a| == |b| && NoRepeats(b) && Apart(a, b)
    requires Amounts([WideStore(a[0], b[0], at, |a|)], FoldOps(a, b, at, Fours(|a|)))
    ensures x !in b ==> ExecStore(WideStore(a[0], b[0], at, |a|), outs, m)(x) == m(x)
    ensures forall j | 0 <= j < |b| && x == b[j] ::
              ExecStore(WideStore(a[0], b[0], at, |a|), outs, m)(x) == Xor(m(a[j]), OutputWord(outs, Some(at + j)))
  {
    var s, ops := WideStore(a[0], b[0], at, |a|), FoldOps(a, b, at, Fours(|a|));
    OneStore(s, outs, m);
    FoldAll(a, b, at, outs, m);
    assert SameMemory(ExecStores([s], outs, m), Exec(ops, outs, m));
  }

  /** If the store does what the operations do, the R blocks are consecutive words. */
  lemma {:induction false} RIsConsecutive(a: seq<nat>, b: seq<nat>, at: nat, j: nat)
    requires 1 <= |a| == |b| && NoRepeats(b) && Apart(a, b) && j < |a|
    requires Amounts([WideStore(a[0], b[0], at, |a|)], FoldOps(a, b, at, Fours(|a|)))
    ensures j < 4 && b[j] == b[0] + 4 * j
  {
    var outs := OneOutput(at + j);
    SameOn(a, b, at, outs, BLANK, b[j]);
    XorWithZero();
    assert OutputWord(outs, Some(at + j)) == ONES;
    assert ExecStore(WideStore(a[0], b[0], at, |a|), outs, BLANK)(b[j]) == ONES;
  }

  /** So are the L blocks. */
  lemma {:induction false} LIsConsecutive(a: seq<nat>, b: seq<nat>, at: nat, j: nat)
    requires 1 <= |a| == |b| && NoRepeats(b) && Apart(a, b) && j < |a|
    requires Amounts([WideStore(a[0], b[0], at, |a|)], FoldOps(a, b, at, Fours(|a|)))
    ensures j < 4 && a[j] == a[0] + 4 * j
  {
    RIsConsecutive(a, b, at, j);
    var m := OneCell(a[j]);
    SameOn(a, b, at, [], m, b[j]);
    XorWithZero();
    assert ExecStore(WideStore(a[0], b[0], at, |a|), [], m)(b[j]) == ONES;
  }

  /** The store does not write past the operand. */
  lemma {:induction false} OperandIsCovered(a: seq<nat>, b: seq<nat>, at: nat)
    requires 1 <= |a| == |b| && NoRepeats(b) && Apart(a, b)
    requires Amounts([WideStore(a[0], b[0], at, |a|)], FoldOps(a, b, at, Fours(|a|)))
    ensures |a| == 4
  {
    var n := |a|;
    RIsConsecutive(a, b, at, n - 1);
    var c := b[0] + 4 * n;
    var m := OneCell(c);
    forall j | 0 <= j < n
      ensures b[j] != c
    {
      RIsConsecutive(a, b, at, j);
    }
    SameOn(a, b, at, [], m, c);
    XorWithZero();
    assert a[0] != b[0];
  }

  /**
   One store of 16 bytes does what the operations on the blocks of the operand do, whatever the outputs and the
   memory, if and only if there are four blocks and they lie one after the other, in L and in R.
   */
  lemma {:induction false} WideIsBlockwise(a: seq<nat>, b: seq<nat>, at: nat)
    requires 1 <= |a| == |b| && NoRepeats(b) && Apart(a, b)
    ensures Amounts([WideStore(a[0], b[0], at, |a|)], FoldOps(a, b, at, Fours(|a|))) <==> FitsWide(a, b)
  {
    if FitsWide(a, b) {
      forall outs: seq<Block>, m: Memory
        ensures SameMemory(ExecStores([WideStore(a[0], b[0], at, |a|)], outs, m),
                           Exec(FoldOps(a, b, at, Fours(|a|)), outs, m))
      {
        FittingStore(a, b, at, outs, m);
      }
    }
    if Amounts([WideStore(a[0], b[0], at, |a|)], FoldOps(a, b, at, Fours(|a|))) {
      OperandIsCovered(a, b, at);
      RIsConsecutive(a, b, at, 1);
      RIsConsecutive(a, b, at, 2);
      RIsConsecutive(a, b, at, 3);
      LIsConsecutive(a, b, at, 1);
      LIsConsecutive(a, b, at, 2);
      LIsConsecutive(a, b, at, 3);
    }
  }
}

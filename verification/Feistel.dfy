/**
 Feistel aggregation: the outputs of one test case are folded into the inputs of the next, so that one
 final comparison covers a whole series of test cases.
 */
module Feistel {

  /** A 32-bit word, least significant byte first. */
  datatype Block = Block(b0: bv8, b1: bv8, b2: bv8, b3: bv8)

  function Xor(a: Block, b: Block): Block {
    Block(a.b0 ^ b.b0, a.b1 ^ b.b1, a.b2 ^ b.b2, a.b3 ^ b.b3)
  }

  /** The two halves of the aggregate, block by block. */
  datatype Halves = Halves(l: seq<Block>, r: seq<Block>)

  ghost predicate Wide(h: Halves, n: nat) {
    |h.l| == n && |h.r| == n
  }

  /** A store of the given number of bytes over an old block. */
  function Mix(prev: Block, next: Block, bytes: nat): Block {
    Block(if bytes >= 1 then next.b0 else prev.b0,
          if bytes >= 2 then next.b1 else prev.b1,
          if bytes >= 3 then next.b2 else prev.b2,
          if bytes >= 4 then next.b3 else prev.b3)
  }

  /** What a tested instruction (and its exception data) contributes, as a function of its inputs. */
  type Outputs = seq<Block> -> seq<Block>

  /** One round of a test case: how many bytes of each R block it writes, and the outputs it folds in. */
  datatype Case = Case(widths: seq<nat>, outputs: Outputs)

  ghost predicate ValidCase(c: Case, n: nat) {
    && |c.widths| == n
    && (forall r: seq<Block> | |r| == n :: |c.outputs(r)| == n)
  }

  /** R becomes L xor the outputs, L becomes the old R. */
  function Round(c: Case, h: Halves): (h': Halves)
    requires |h.l| == |h.r| == |c.widths| == |c.outputs(h.r)|
    ensures |h'.l| == |h'.r| == |h.l|
  {
    Halves(h.r, seq(|h.r|, i requires 0 <= i < |h.r| => Mix(h.r[i], Xor(h.l[i], c.outputs(h.r)[i]), c.widths[i])))
  }

  /** The series of rounds, first one first. */
  function Rounds(cs: seq<Case>, h: Halves, n: nat): (h': Halves)
    requires Wide(h, n) && forall i | 0 <= i < |cs| :: ValidCase(cs[i], n)
    ensures Wide(h', n)
  {
    if cs == [] then h
    else
      assert ValidCase(cs[0], n);
      Rounds(cs[1..], Round(cs[0], h), n)
  }

  predicate FullWidth(c: Case) {
    forall i | 0 <= i < |c.widths| :: c.widths[i] >= 4
  }

  // ---------------------------------------------------------------------------------------------
  // A round is a bijection exactly when it writes every block in full
  // ---------------------------------------------------------------------------------------------

  lemma {:induction false} XorCancels(a: Block, b: Block)
    ensures Xor(Xor(a, b), b) == a
  {
  }

  /** The inverse of a round. */
  function Unround(c: Case, h: Halves): (h': Halves)
    requires |h.l| == |h.r| == |c.outputs(h.l)|
    ensures |h'.l| == |h'.r| == |h.l|
  {
    Halves(seq(|h.l|, i requires 0 <= i < |h.l| => Xor(h.r[i], c.outputs(h.l)[i])), h.l)
  }

  lemma {:induction false} UnroundUndoesRound(c: Case, h: Halves, n: nat)
    requires ValidCase(c, n) && Wide(h, n) && FullWidth(c)
    ensures Unround(c, Round(c, h)) == h
  {
    var h' := Round(c, h);
    forall i | 0 <= i < n
      ensures Xor(h'.r[i], c.outputs(h.r)[i]) == h.l[i]
    {
      XorCancels(h.l[i], c.outputs(h.r)[i]);
    }
    assert Unround(c, h').l == h.l;
  }

  lemma {:induction false} RoundUndoesUnround(c: Case, h: Halves, n: nat)
    requires ValidCase(c, n) && Wide(h, n) && FullWidth(c)
    ensures Wide(Unround(c, h), n) && Round(c, Unround(c, h)) == h
  {
    var h' := Unround(c, h);
    forall i | 0 <= i < n
      ensures Mix(h'.r[i], Xor(h'.l[i], c.outputs(h'.r)[i]), c.widths[i]) == h.r[i]
    {
      XorCancels(h.r[i], c.outputs(h.l)[i]);
    }
    assert Round(c, h').r == h.r;
  }

  ghost predicate Injective(c: Case, n: nat)
    requires ValidCase(c, n)
  {
    forall g: Halves, h: Halves | Wide(g, n) && Wide(h, n) && Round(c, g) == Round(c, h) :: g == h
  }

  /** No information is lost in a round if and only if each block is written in full. */
  lemma {:induction false} InjectiveExactlyWhenFull(c: Case, n: nat)
    requires ValidCase(c, n)
    ensures Injective(c, n) <==> FullWidth(c)
  {
    if FullWidth(c) {
      forall g: Halves, h: Halves | Wide(g, n) && Wide(h, n) && Round(c, g) == Round(c, h)
        ensures g == h
      {
        UnroundUndoesRound(c, g, n);
        UnroundUndoesRound(c, h, n);
      }
    } else {
      var k :| 0 <= k < n && c.widths[k] < 4;
      var zeros := seq(n, i requires 0 <= i < n => Block(0, 0, 0, 0));
      var g, h := Halves(zeros, zeros), Halves(zeros[k := Block(0, 0, 0, 1)], zeros);
      forall i | 0 <= i < n
        ensures Round(c, g).r[i] == Round(c, h).r[i]
      {
      }
      assert Round(c, g).r == Round(c, h).r;
      assert g.l[k] != h.l[k];
    }
  }

  // ---------------------------------------------------------------------------------------------
  // Whole series of rounds: a difference is never masked
  // ---------------------------------------------------------------------------------------------

  ghost predicate ValidCases(cs: seq<Case>, n: nat) {
    forall i | 0 <= i < |cs| :: ValidCase(cs[i], n)
  }

  ghost predicate AllFull(cs: seq<Case>) {
    forall i | 0 <= i < |cs| :: FullWidth(cs[i])
  }

  /** Undoing a series, last round first. */
  function Unrounds(cs: seq<Case>, h: Halves, n: nat): (h': Halves)
    requires Wide(h, n) && forall i | 0 <= i < |cs| :: ValidCase(cs[i], n)
    ensures Wide(h', n)
  {
    if cs == [] then h
    else
      var later := Unrounds(cs[1..], h, n);
      assert ValidCase(cs[0], n);
      Unround(cs[0], later)
  }

  /** Any number of full-width rounds is a bijection on the aggregate. */
  lemma {:induction false} RoundsAreBijective(cs: seq<Case>, h: Halves, n: nat)
    requires ValidCases(cs, n) && AllFull(cs) && Wide(h, n)
    ensures Unrounds(cs, Rounds(cs, h, n), n) == h
    ensures Rounds(cs, Unrounds(cs, h, n), n) == h
  {
    if cs != [] {
      assert ValidCase(cs[0], n);
      RoundsAreBijective(cs[1..], Round(cs[0], h), n);
      UnroundUndoesRound(cs[0], h, n);
      var later := Unrounds(cs[1..], h, n);
      RoundsAreBijective(cs[1..], h, n);
      RoundUndoesUnround(cs[0], later, n);
    }
  }

  lemma {:induction false} RoundsOfConcat(a: seq<Case>, b: seq<Case>, h: Halves, n: nat)
    requires ValidCases(a, n) && ValidCases(b, n) && Wide(h, n)
    ensures ValidCases(a + b, n) && Rounds(a + b, h, n) == Rounds(b, Rounds(a, h, n), n)
  {
    if a == [] {
      assert a + b == b;
    } else {
      assert ValidCase(a[0], n);
      assert (a + b)[0] == a[0] && (a + b)[1..] == a[1..] + b;
      RoundsOfConcat(a[1..], b, Round(a[0], h), n);
    }
  }

  /** Two emulators whose aggregates differ, and that behave alike from then on, end with different aggregates. */
  lemma {:induction false} DifferencesSurvive(cs: seq<Case>, g: Halves, h: Halves, n: nat)
    requires ValidCases(cs, n) && AllFull(cs) && Wide(g, n) && Wide(h, n)
    ensures Rounds(cs, g, n) == Rounds(cs, h, n) <==> g == h
  {
    RoundsAreBijective(cs, g, n);
    RoundsAreBijective(cs, h, n);
  }

  /**
   Two emulators that behave alike before and after one round end with the same aggregate if and only
   if they gave the same outputs in that round.
   */
  lemma {:induction false} DivergenceIsVisible(before: seq<Case>, mine: Case, yours: Case, after: seq<Case>,
      h: Halves, n: nat)
    requires ValidCases(before, n) && ValidCases(after, n) && Wide(h, n)
    requires ValidCase(mine, n) && ValidCase(yours, n) && FullWidth(mine) && FullWidth(yours) && AllFull(after)
    ensures ValidCases(before + [mine] + after, n) && ValidCases(before + [yours] + after, n)
    ensures Rounds(before + [mine] + after, h, n) == Rounds(before + [yours] + after, h, n) <==>
            var r := Rounds(before, h, n).r; mine.outputs(r) == yours.outputs(r)
  {
    var at := Rounds(before, h, n);
    OneRound(before, mine, after, h, n);
    OneRound(before, yours, after, h, n);
    DifferencesSurvive(after, Round(mine, at), Round(yours, at), n);
    SameRoundSameOutputs(mine, yours, at, n);
  }

  lemma {:induction false} OneRound(before: seq<Case>, c: Case, after: seq<Case>, h: Halves, n: nat)
    requires ValidCases(before, n) && ValidCases(after, n) && ValidCase(c, n) && Wide(h, n)
    ensures ValidCases(before + [c] + after, n)
    ensures Rounds(before + [c] + after, h, n) == Rounds(after, Round(c, Rounds(before, h, n)), n)
  {
    var at := Rounds(before, h, n);
    RoundsOfConcat(before, [c], h, n);
    RoundsOfConcat(before + [c], after, h, n);
    assert Rounds([c], at, n) == Rounds([], Round(c, at), n) by {
      assert [c][0] == c && [c][1..] == [];
    }
  }

  lemma {:induction false} SameRoundSameOutputs(a: Case, b: Case, h: Halves, n: nat)
    requires ValidCase(a, n) && ValidCase(b, n) && FullWidth(a) && FullWidth(b) && Wide(h, n)
    ensures Round(a, h) == Round(b, h) <==> a.outputs(h.r) == b.outputs(h.r)
  {
    if a.outputs(h.r) == b.outputs(h.r) {
      assert Round(a, h).r == Round(b, h).r;
    } else if Round(a, h) == Round(b, h) {
      forall i | 0 <= i < n
        ensures a.outputs(h.r)[i] == b.outputs(h.r)[i]
      {
        assert Round(a, h).r[i] == Round(b, h).r[i];
        XorDetermines(h.l[i], a.outputs(h.r)[i], b.outputs(h.r)[i]);
      }
    }
  }

  lemma {:induction false} XorDetermines(x: Block, a: Block, b: Block)
    requires Xor(x, a) == Xor(x, b)
    ensures a == b
  {
  }
}

/**
 Outputs such as the flags pass through scratch words in memory on their way into a block: which words can be used for
 that without spoiling the round.
 */
module FeistelSpills {
  import opened Feistel
  import opened FeistelCode

  /**
   The output code of a round.  An operation loads its L block, folds an output in, and stores the result in its R
   block; scratch words are written before the load (stack registers of the floating-point unit) or between load and
   store (flags and control registers).
   */
  datatype Output = Output(ops: seq<Op>, index: seq<nat>, y: Layout, words: nat, widths: seq<nat>)

  ghost predicate IsOutput(u: Output) {
    ValidLayout(u.y) && ServesBlocks(u.ops, u.index, u.y, u.words, u.widths)
  }

  /** The scratch cells written before an operation loads, and between load and store. */
  datatype Spill = Spill(before: set<nat>, between: set<nat>)

  /** What is left in a scratch cell: halves of operations are numbered, loads even and stores odd. */
  type Junk = (nat, nat) -> Block

  function Load(op: Op, outs: seq<Block>, m: Memory): Block {
    match op
    case Move(src, _) => m(src)
    case XorOut(src, word, _, _) => Xor(m(src), if word < |outs| then outs[word] else ZERO)
  }

  function Bytes(op: Op): nat {
    match op
    case Move(_, _) => 4
    case XorOut(_, _, bytes, _) => bytes
  }

  function Put(op: Op, v: Block, m: Memory): Memory {
    (a: nat) => if a == op.dst then Mix(m(a), v, Bytes(op)) else m(a)
  }

  function Spilled(m: Memory, cells: set<nat>, junk: Junk, q: nat): Memory {
    (a: nat) => if a in cells then junk(q, a) else m(a)
  }

  /** Memory and the value in transit after some halves of operations. */
  datatype Half = Half(m: Memory, v: Block)

  function Loading(op: Op, outs: seq<Block>, m: Memory, cells: set<nat>, junk: Junk, q: nat): Half {
    var m' := Spilled(m, cells, junk, q);
    Half(m', Load(op, outs, m'))
  }

  function Storing(op: Op, h: Half, cells: set<nat>, junk: Junk, q: nat): Memory {
    Put(op, h.v, Spilled(h.m, cells, junk, q))
  }

  function Run(ops: seq<Op>, spills: seq<Spill>, junk: Junk, outs: seq<Block>, m: Memory, k: nat): Memory
    requires |spills| == |ops| && k <= |ops|
  {
    if k == 0 then m
    else Performed(ops[k - 1], outs, Run(ops, spills, junk, outs, m, k - 1), spills[k - 1], junk, k - 1)
  }

  /** The operation with the given number, with its spills. */
  function Performed(op: Op, outs: seq<Block>, m: Memory, s: Spill, junk: Junk, k: nat): Memory {
    Storing(op, Loading(op, outs, m, s.before, junk, 2 * k), s.between, junk, 2 * k + 1)
  }

  // ---------------------------------------------------------------------------------------------
  // Live cells
  // ---------------------------------------------------------------------------------------------

  /** L blocks that are still to be loaded. */
  ghost predicate LiveL(u: Output, q: nat, x: nat)
    requires IsOutput(u)
  {
    exists j: nat | j < |u.ops| :: q <= 2 * j && u.widths[u.index[j]] > 0 && x == u.y.l[u.index[j]]
  }

  /** R blocks that have been stored, are never stored, or are stored only in part. */
  ghost predicate LiveR(u: Output, q: nat, x: nat)
    requires IsOutput(u)
  {
    || (exists i: nat | i < |u.y.r| :: i !in u.index && x == u.y.r[i])
    || (exists j: nat | j < |u.ops| :: (2 * j + 1 < q || u.widths[u.index[j]] < 4) && x == u.y.r[u.index[j]])
  }

  /** The cells whose contents before the given half still matter. */
  ghost predicate Live(u: Output, q: nat, x: nat)
    requires IsOutput(u)
  {
    x in u.y.bak || LiveL(u, q, x) || LiveR(u, q, x)
  }

  ghost predicate SameOnLive(u: Output, q: nat, m: Memory, m': Memory)
    requires IsOutput(u)
  {
    forall x | Live(u, q, x) :: m(x) == m'(x)
  }

  /** Every spill avoids the cells that are live where it happens. */
  ghost predicate Avoids(u: Output, spills: seq<Spill>)
    requires IsOutput(u)
  {
    forall k: nat | k < |spills| :: AvoidsAt(u, spills[k], k)
  }

  ghost predicate AvoidsAt(u: Output, s: Spill, k: nat)
    requires IsOutput(u)
  {
    && (forall x | x in s.before :: !Live(u, 2 * k, x))
    && (forall x | x in s.between :: !Live(u, 2 * k + 1, x))
  }

  lemma {:induction false} ServedBlock(u: Output, k: nat)
    requires IsOutput(u) && k < |u.ops|
    ensures var i := u.index[k];
            && i < |u.y.l| == |u.y.r| == |u.widths|
            && u.ops[k].src == u.y.l[i] && u.ops[k].dst == u.y.r[i] && Bytes(u.ops[k]) == u.widths[i]
            && (u.ops[k].Move? || u.ops[k].XorOut?)
  {
  }

  // ---------------------------------------------------------------------------------------------
  // Spills that avoid live cells do no harm
  // ---------------------------------------------------------------------------------------------

  /** A spill into cells that are not live. */
  lemma {:induction false} HarmlessSpill(u: Output, q: nat, m: Memory, m': Memory, cells: set<nat>, junk: Junk)
    requires IsOutput(u) && SameOnLive(u, q, m, m') && forall x | x in cells :: !Live(u, q, x)
    ensures SameOnLive(u, q, m, Spilled(m', cells, junk, q))
  {
  }

  /** Loading takes one L block off the live cells. */
  lemma {:induction false} SameLoad(u: Output, k: nat, outs: seq<Block>, m: Memory, m': Memory)
    requires IsOutput(u) && k < |u.ops| && SameOnLive(u, 2 * k, m, m')
    ensures u.widths[u.index[k]] > 0 ==> Load(u.ops[k], outs, m) == Load(u.ops[k], outs, m')
    ensures SameOnLive(u, 2 * k + 1, m, m')
  {
    ServedBlock(u, k);
    if u.widths[u.index[k]] > 0 {
      assert LiveL(u, 2 * k, u.ops[k].src);
    }
    forall x | Live(u, 2 * k + 1, x)
      ensures Live(u, 2 * k, x)
    {
      LoadShrinks(u, k, x);
    }
  }

  lemma {:induction false} LoadShrinks(u: Output, k: nat, x: nat)
    requires IsOutput(u) && k < |u.ops| && Live(u, 2 * k + 1, x)
    ensures Live(u, 2 * k, x)
  {
    if LiveL(u, 2 * k + 1, x) {
      var j: nat :| j < |u.ops| && 2 * k + 1 <= 2 * j && u.widths[u.index[j]] > 0 && x == u.y.l[u.index[j]];
      assert 2 * k <= 2 * j;
    } else if x !in u.y.bak && !(exists i: nat | i < |u.y.r| :: i !in u.index && x == u.y.r[i]) {
      var j: nat :| j < |u.ops| && (2 * j + 1 < 2 * k + 1 || u.widths[u.index[j]] < 4) && x == u.y.r[u.index[j]];
      assert 2 * j + 1 < 2 * k || u.widths[u.index[j]] < 4;
    }
  }

  /** Storing adds one R block to the live cells, with the same value in both memories. */
  lemma {:induction false} SameStore(u: Output, k: nat, v: Block, v': Block, m: Memory, m': Memory)
    requires IsOutput(u) && k < |u.ops| && SameOnLive(u, 2 * k + 1, m, m')
    requires u.widths[u.index[k]] > 0 ==> v == v'
    ensures SameOnLive(u, 2 * k + 2, Put(u.ops[k], v, m), Put(u.ops[k], v', m'))
  {
    ServedBlock(u, k);
    var op, i := u.ops[k], u.index[k];
    if u.widths[i] < 4 {
      assert LiveR(u, 2 * k + 1, op.dst);
    }
    forall x | Live(u, 2 * k + 2, x)
      ensures Put(op, v, m)(x) == Put(op, v', m')(x)
    {
      if x != op.dst {
        StoreAddsOne(u, k, x);
      }
    }
  }

  lemma {:induction false} StoreAddsOne(u: Output, k: nat, x: nat)
    requires IsOutput(u) && k < |u.ops| && Live(u, 2 * k + 2, x) && x != u.ops[k].dst
    ensures Live(u, 2 * k + 1, x)
  {
    ServedBlock(u, k);
    if LiveL(u, 2 * k + 2, x) {
      var j: nat :| j < |u.ops| && 2 * k + 2 <= 2 * j && u.widths[u.index[j]] > 0 && x == u.y.l[u.index[j]];
      assert 2 * k + 1 <= 2 * j;
    } else if x !in u.y.bak && !(exists i: nat | i < |u.y.r| :: i !in u.index && x == u.y.r[i]) {
      var j: nat :| j < |u.ops| && (2 * j + 1 < 2 * k + 2 || u.widths[u.index[j]] < 4) && x == u.y.r[u.index[j]];
      assert 2 * j + 1 < 2 * k + 1 || u.widths[u.index[j]] < 4;
    }
  }

  lemma {:induction false} HarmlessRun(u: Output, spills: seq<Spill>, junk: Junk, outs: seq<Block>, m: Memory, k: nat)
    requires IsOutput(u) && |spills| == |u.ops| && Avoids(u, spills) && k <= |u.ops|
    ensures SameOnLive(u, 2 * k, Exec(u.ops[..k], outs, m), Run(u.ops, spills, junk, outs, m, k))
  {
    if k > 0 {
      var n := k - 1;
      HarmlessRun(u, spills, junk, outs, m, n);
      var a, a', b := Exec(u.ops[..n], outs, m), Exec(u.ops[..k], outs, m), Run(u.ops, spills, junk, outs, m, n);
      OneMoreOperation(u, k, outs, m, a);
      HarmlessOperation(u, n, outs, a, a', b, spills[n], junk);
    }
  }

  lemma {:induction false} OneMoreOperation(u: Output, k: nat, outs: seq<Block>, m: Memory, a: Memory)
    requires IsOutput(u) && 0 < k <= |u.ops| && a == Exec(u.ops[..k - 1], outs, m)
    ensures SameMemory(Exec(u.ops[..k], outs, m), Put(u.ops[k - 1], Load(u.ops[k - 1], outs, a), a))
  {
    assert u.ops[..k][..k - 1] == u.ops[..k - 1];
    ExecIsLoadAndPut(u, k - 1, outs, a);
  }

  lemma {:induction false} ExecIsLoadAndPut(u: Output, k: nat, outs: seq<Block>, m: Memory)
    requires IsOutput(u) && k < |u.ops|
    ensures SameMemory(Exec1(u.ops[k], outs, m), Put(u.ops[k], Load(u.ops[k], outs, m), m))
  {
    ServedBlock(u, k);
  }

  /** One operation, without (`a` to `a'`) and with spills. */
  lemma {:induction false} HarmlessOperation(u: Output, k: nat, outs: seq<Block>, a: Memory, a': Memory, b: Memory,
      s: Spill, junk: Junk)
    requires IsOutput(u) && k < |u.ops| && SameOnLive(u, 2 * k, a, b) && AvoidsAt(u, s, k)
    requires SameMemory(a', Put(u.ops[k], Load(u.ops[k], outs, a), a))
    ensures SameOnLive(u, 2 * k + 2, a', Performed(u.ops[k], outs, b, s, junk, k))
  {
    var op := u.ops[k];
    HarmlessSpill(u, 2 * k, a, b, s.before, junk);
    var mid := Loading(op, outs, b, s.before, junk, 2 * k);
    SameLoad(u, k, outs, a, mid.m);
    HarmlessSpill(u, 2 * k + 1, a, mid.m, s.between, junk);
    SameStore(u, k, Load(op, outs, a), mid.v, a, Spilled(mid.m, s.between, junk, 2 * k + 1));
  }

  /** After the output code the blocks of R and the backup are live. */
  lemma {:induction false} LiveAtTheEnd(u: Output, x: nat)
    requires IsOutput(u) && (x in u.y.r || x in u.y.bak)
    ensures Live(u, 2 * |u.ops|, x)
  {
    if x in u.y.r {
      var i: nat :| i < |u.y.r| && x == u.y.r[i];
      if i in u.index {
        var j: nat :| j < |u.index| && u.index[j] == i;
        assert 2 * j + 1 < 2 * |u.ops|;
      }
    }
  }

  /** The memory after backup, spilling output code, and update. */
  ghost function SpillingRound(c: RoundCode, spills: seq<Spill>, junk: Junk, f: Outputs, y: Layout, m: Memory): Memory
    requires |spills| == |c.output|
  {
    var m1 := Exec(c.backup, [], m);
    var m2 := Run(c.output, spills, junk, f(Contents(m1, y.r)), m1, |c.output|);
    Exec(c.update, [], m2)
  }

  /** The update stage turns equal R blocks and backups into equal aggregates. */
  lemma {:induction false} UpdateAgrees(y: Layout, m: Memory, m': Memory)
    requires ValidLayout(y) && forall x | x in y.r || x in y.bak :: m(x) == m'(x)
    ensures Aggregate(Exec(Copies(y.bak, y.l), [], m), y) == Aggregate(Exec(Copies(y.bak, y.l), [], m'), y)
  {
    CopyStage(y.bak, y.l, m);
    CopyStage(y.bak, y.l, m');
    KeepsApart(y);
    var a, b := Exec(Copies(y.bak, y.l), [], m), Exec(Copies(y.bak, y.l), [], m');
    assert Contents(a, y.l) == Contents(b, y.l);
    assert Contents(a, y.r) == Contents(b, y.r);
  }

  /** Whatever is left in the scratch words, the code computes the round as long as they are not live. */
  lemma {:induction false} HarmlessRound(c: RoundCode, u: Output, spills: seq<Spill>, junk: Junk, f: Outputs, m: Memory)
    requires IsRoundCode(c, u.index, u.y, u.words, u.widths) && u.ops == c.output
    requires |spills| == |c.output| && Avoids(u, spills)
    ensures ComputesRound(u.y, u.words, u.widths, f, m, SpillingRound(c, spills, junk, f, u.y, m))
  {
    var m1 := Exec(c.backup, [], m);
    var outs := f(Contents(m1, u.y.r));
    HarmlessRun(u, spills, junk, outs, m1, |c.output|);
    assert c.output[..|c.output|] == c.output;
    forall x | x in u.y.r || x in u.y.bak
      ensures Exec(c.output, outs, m1)(x) == Run(c.output, spills, junk, outs, m1, |c.output|)(x)
    {
      LiveAtTheEnd(u, x);
    }
    UpdateAgrees(u.y, Exec(c.output, outs, m1), Run(c.output, spills, junk, outs, m1, |c.output|));
    CodeComputesRound(c, u.index, u.y, u.words, u.widths, f, m);
  }

  // ---------------------------------------------------------------------------------------------
  // A spill into a live cell spoils some round
  // ---------------------------------------------------------------------------------------------

  /** Only one scratch cell is left with something in it. */
  function OneMark(q: nat, x: nat): Junk {
    (p: nat, a: nat) => if p == q && a == x then ONES else ZERO
  }

  /** A cell that nothing changes any more before the update holds something. */
  ghost predicate Spoiled(u: Output, n: nat, m: Memory)
    requires IsOutput(u)
  {
    || (exists x :: x in u.y.bak && m(x) != ZERO)
    || (exists i: nat | i < |u.y.r| :: i !in u.index && m(u.y.r[i]) != ZERO)
    || (exists j: nat | j < |u.ops| :: j < n && m(u.y.r[u.index[j]]) != ZERO)
  }

  /** The mark is in a block that is still to be loaded, or still to be stored in part. */
  ghost predicate Pending(u: Output, n: nat, x: nat, m: Memory)
    requires IsOutput(u)
  {
    && m(x) == ONES
    && (exists j: nat | j < |u.ops| ::
          n <= j && (|| (u.widths[u.index[j]] > 0 && x == u.y.l[u.index[j]])
                     || (u.widths[u.index[j]] < 4 && x == u.y.r[u.index[j]])))
  }

  ghost predicate Marked(u: Output, n: nat, x: nat, m: Memory)
    requires IsOutput(u)
  {
    Spoiled(u, n, m) || Pending(u, n, x, m)
  }

  /** A live cell other than the one stored keeps its contents. */
  lemma {:induction false} LiveCellStays(u: Output, k: nat, x: nat, m: Memory, s: Spill, junk: Junk)
    requires IsOutput(u) && k < |u.ops| && AvoidsAt(u, s, k)
    requires Live(u, 2 * k, x) && Live(u, 2 * k + 1, x) && x != u.ops[k].dst
    ensures Performed(u.ops[k], [], m, s, junk, k)(x) == m(x)
  {
  }

  /** Spoiled cells are live, so that no spill touches them, and no store does. */
  lemma {:induction false} StaysSpoiled(u: Output, k: nat, m: Memory, s: Spill, junk: Junk)
    requires IsOutput(u) && k < |u.ops| && Spoiled(u, k, m) && AvoidsAt(u, s, k)
    ensures Spoiled(u, k + 1, Performed(u.ops[k], [], m, s, junk, k))
  {
    ServedBlock(u, k);
    if x :| x in u.y.bak && m(x) != ZERO {
      LiveCellStays(u, k, x, m, s, junk);
    } else if i: nat :| i < |u.y.r| && i !in u.index && m(u.y.r[i]) != ZERO {
      assert LiveR(u, 2 * k, u.y.r[i]) && LiveR(u, 2 * k + 1, u.y.r[i]);
      LiveCellStays(u, k, u.y.r[i], m, s, junk);
    } else {
      var j: nat :| j < |u.ops| && j < k && m(u.y.r[u.index[j]]) != ZERO;
      var x := u.y.r[u.index[j]];
      assert 2 * j + 1 < 2 * k;
      assert LiveR(u, 2 * k, x) && LiveR(u, 2 * k + 1, x);
      assert u.index[j] != u.index[k];
      LiveCellStays(u, k, x, m, s, junk);
    }
  }

  /** A mark that is pending stays so until its block is loaded or stored, and then spoils an R block. */
  lemma {:induction false} PendingSpoils(u: Output, k: nat, x: nat, m: Memory, s: Spill, junk: Junk)
    requires IsOutput(u) && k < |u.ops| && Pending(u, k, x, m) && AvoidsAt(u, s, k)
    ensures Marked(u, k + 1, x, Performed(u.ops[k], [], m, s, junk, k))
  {
    ServedBlock(u, k);
    var j: nat :| j < |u.ops| && k <= j &&
      ((u.widths[u.index[j]] > 0 && x == u.y.l[u.index[j]]) || (u.widths[u.index[j]] < 4 && x == u.y.r[u.index[j]]));
    var i := u.index[j];
    if j > k {
      assert u.index[j] != u.index[k];
      if x == u.y.l[i] && u.widths[i] > 0 {
        assert LiveL(u, 2 * k, x) && LiveL(u, 2 * k + 1, x);
      } else {
        assert LiveR(u, 2 * k, x) && LiveR(u, 2 * k + 1, x);
      }
      LiveCellStays(u, k, x, m, s, junk);
    } else if x == u.y.l[i] && u.widths[i] > 0 {
      assert LiveL(u, 2 * k, x);
      LoadsMark(u, k, m, s, junk);
    } else {
      assert LiveR(u, 2 * k, x) && LiveR(u, 2 * k + 1, x);
      KeepsPart(u, k, x, m, s, junk);
    }
  }

  lemma {:induction false} LoadsMark(u: Output, k: nat, m: Memory, s: Spill, junk: Junk)
    requires IsOutput(u) && k < |u.ops| && u.widths[u.index[k]] > 0
    requires m(u.ops[k].src) == ONES && u.ops[k].src !in s.before
    ensures Spoiled(u, k + 1, Performed(u.ops[k], [], m, s, junk, k))
  {
    ServedBlock(u, k);
    var op := u.ops[k];
    XorZero(ONES);
    assert Loading(op, [], m, s.before, junk, 2 * k).v == ONES;
    assert Performed(u.ops[k], [], m, s, junk, k)(op.dst).b0 == 0xff;
    assert Performed(u.ops[k], [], m, s, junk, k)(u.y.r[u.index[k]]) != ZERO;
  }

  lemma {:induction false} KeepsPart(u: Output, k: nat, x: nat, m: Memory, s: Spill, junk: Junk)
    requires IsOutput(u) && k < |u.ops| && u.widths[u.index[k]] < 4 && x == u.ops[k].dst && m(x) == ONES
    requires x !in s.before && x !in s.between
    ensures Spoiled(u, k + 1, Performed(u.ops[k], [], m, s, junk, k))
  {
    ServedBlock(u, k);
    var op := u.ops[k];
    assert Performed(u.ops[k], [], m, s, junk, k)(x).b3 == 0xff;
    assert Performed(u.ops[k], [], m, s, junk, k)(u.y.r[u.index[k]]) != ZERO;
  }

  lemma {:induction false} StaysMarked(u: Output, k: nat, x: nat, m: Memory, s: Spill, junk: Junk)
    requires IsOutput(u) && k < |u.ops| && Marked(u, k, x, m) && AvoidsAt(u, s, k)
    ensures Marked(u, k + 1, x, Performed(u.ops[k], [], m, s, junk, k))
  {
    if Spoiled(u, k, m) {
      StaysSpoiled(u, k, m, s, junk);
    } else {
      PendingSpoils(u, k, x, m, s, junk);
    }
  }

  /** A live cell with a mark in it, before an operation loads. */
  lemma {:induction false} LiveIsMarked(u: Output, k: nat, x: nat, m: Memory)
    requires IsOutput(u) && k < |u.ops| && Live(u, 2 * k, x) && m(x) == ONES
    ensures Marked(u, k, x, m)
  {
    if LiveL(u, 2 * k, x) {
      var j: nat :| j < |u.ops| && 2 * k <= 2 * j && u.widths[u.index[j]] > 0 && x == u.y.l[u.index[j]];
      assert k <= j;
    } else if x !in u.y.bak {
      LiveRIsMarked(u, k, x, m);
    }
  }

  lemma {:induction false} LiveRIsMarked(u: Output, k: nat, x: nat, m: Memory)
    requires IsOutput(u) && k < |u.ops| && LiveR(u, 2 * k, x) && m(x) == ONES
    ensures Marked(u, k, x, m)
  {
    if i: nat :| i < |u.y.r| && i !in u.index && x == u.y.r[i] {
      assert m(u.y.r[i]) != ZERO;
    } else {
      var j: nat :| j < |u.ops| && (2 * j + 1 < 2 * k || u.widths[u.index[j]] < 4) && x == u.y.r[u.index[j]];
      if j < k {
        assert m(u.y.r[u.index[j]]) != ZERO;
      }
    }
  }

  /** The first mark, left before the load: everything else is blank. */
  lemma {:induction false} MarkedBeforeLoad(u: Output, k: nat, x: nat, m: Memory, s: Spill)
    requires IsOutput(u) && k < |u.ops| && x in s.before && Live(u, 2 * k, x)
    requires forall z | z in s.between :: !Live(u, 2 * k + 1, z)
    ensures Marked(u, k + 1, x, Performed(u.ops[k], [], m, s, OneMark(2 * k, x), k))
  {
    var junk := OneMark(2 * k, x);
    var m1 := Spilled(m, s.before, junk, 2 * k);
    var rest := Spill({}, s.between);
    LiveIsMarked(u, k, x, m1);
    StaysMarked(u, k, x, m1, rest, junk);
    SameAfterSpill(u, k, m, s, junk);
    MarkedIsExtensional(u, k + 1, x, Performed(u.ops[k], [], m1, rest, junk, k),
                        Performed(u.ops[k], [], m, s, junk, k));
  }

  lemma {:induction false} SameAfterSpill(u: Output, k: nat, m: Memory, s: Spill, junk: Junk)
    requires k < |u.ops|
    ensures SameMemory(Performed(u.ops[k], [], Spilled(m, s.before, junk, 2 * k), Spill({}, s.between), junk, k),
                       Performed(u.ops[k], [], m, s, junk, k))
  {
  }

  lemma {:induction false} MarkedIsExtensional(u: Output, n: nat, x: nat, m: Memory, m': Memory)
    requires IsOutput(u) && Marked(u, n, x, m) && SameMemory(m, m')
    ensures Marked(u, n, x, m')
  {
  }

  /** The first mark, left between load and store. */
  lemma {:induction false} MarkedBeforeStore(u: Output, k: nat, x: nat, m: Memory, s: Spill)
    requires IsOutput(u) && k < |u.ops| && x in s.between && Live(u, 2 * k + 1, x)
    ensures Marked(u, k + 1, x, Performed(u.ops[k], [], m, s, OneMark(2 * k + 1, x), k))
  {
    var m' := Performed(u.ops[k], [], m, s, OneMark(2 * k + 1, x), k);
    ServedBlock(u, k);
    if x == u.ops[k].dst {
      StoreKeepsMark(u, k, x, m, s);
    } else {
      assert m'(x) == ONES;
      if k + 1 < |u.ops| {
        LiveStays(u, k, x);
        LiveIsMarked(u, k + 1, x, m');
      } else {
        LastIsSpoiled(u, k, x, m');
      }
    }
  }

  lemma {:induction false} StoreKeepsMark(u: Output, k: nat, x: nat, m: Memory, s: Spill)
    requires IsOutput(u) && k < |u.ops| && x in s.between && Live(u, 2 * k + 1, x) && x == u.ops[k].dst
    ensures Spoiled(u, k + 1, Performed(u.ops[k], [], m, s, OneMark(2 * k + 1, x), k))
  {
    ServedBlock(u, k);
    LiveTarget(u, k);
    assert Performed(u.ops[k], [], m, s, OneMark(2 * k + 1, x), k)(x).b3 == 0xff;
    assert Performed(u.ops[k], [], m, s, OneMark(2 * k + 1, x), k)(u.y.r[u.index[k]]) != ZERO;
  }

  /** An R block about to be stored is live only if it is stored in part. */
  lemma {:induction false} LiveTarget(u: Output, k: nat)
    requires IsOutput(u) && k < |u.ops| && Live(u, 2 * k + 1, u.ops[k].dst)
    ensures u.widths[u.index[k]] < 4
  {
    ServedBlock(u, k);
    var i := u.index[k];
    KeepsApart(u.y);
    if j: nat :| j < |u.ops| && (2 * j + 1 < 2 * k + 1 || u.widths[u.index[j]] < 4) && u.y.r[i] == u.y.r[u.index[j]] {
      assert u.index[j] == i && j == k;
    }
  }

  lemma {:induction false} LiveStays(u: Output, k: nat, x: nat)
    requires IsOutput(u) && k < |u.ops| && Live(u, 2 * k + 1, x)
    ensures Live(u, 2 * (k + 1), x)
  {
    if LiveL(u, 2 * k + 1, x) {
      var j: nat :| j < |u.ops| && 2 * k + 1 <= 2 * j && u.widths[u.index[j]] > 0 && x == u.y.l[u.index[j]];
      assert 2 * (k + 1) <= 2 * j;
    } else if x !in u.y.bak && !(exists i: nat | i < |u.y.r| :: i !in u.index && x == u.y.r[i]) {
      var j: nat :| j < |u.ops| && (2 * j + 1 < 2 * k + 1 || u.widths[u.index[j]] < 4) && x == u.y.r[u.index[j]];
      assert 2 * j + 1 < 2 * (k + 1) || u.widths[u.index[j]] < 4;
    }
  }

  /** After the last load only cells that nothing changes any more are live. */
  lemma {:induction false} LastIsSpoiled(u: Output, k: nat, x: nat, m: Memory)
    requires IsOutput(u) && k + 1 == |u.ops| && Live(u, 2 * k + 1, x) && m(x) == ONES
    ensures Spoiled(u, k + 1, m)
  {
    if x !in u.y.bak {
      assert !LiveL(u, 2 * k + 1, x);
      if i: nat :| i < |u.y.r| && i !in u.index && x == u.y.r[i] {
        assert m(u.y.r[i]) != ZERO;
      } else {
        var j: nat :| j < |u.ops| && x == u.y.r[u.index[j]];
        assert j < k + 1 && m(u.y.r[u.index[j]]) != ZERO;
      }
    }
  }

  // ---------------------------------------------------------------------------------------------
  // The exact condition
  // ---------------------------------------------------------------------------------------------

  /** The last operation whose spills touch a live cell, and that cell. */
  lemma {:induction false} LastHit(u: Output, spills: seq<Spill>, n: nat) returns (k: nat)
    requires IsOutput(u) && n <= |spills| && !(forall i: nat | i < n :: AvoidsAt(u, spills[i], i))
    ensures k < n && !AvoidsAt(u, spills[k], k) && forall i: nat | k + 1 <= i < n :: AvoidsAt(u, spills[i], i)
  {
    if AvoidsAt(u, spills[n - 1], n - 1) {
      k := LastHit(u, spills, n - 1);
    } else {
      k := n - 1;
    }
  }

  /** One spill into a live cell, and none after it, leaves a mark in the end. */
  lemma {:induction false} HitMarks(u: Output, spills: seq<Spill>, k: nat) returns (q: nat, x: nat)
    requires IsOutput(u) && |spills| == |u.ops| && k < |u.ops| && !AvoidsAt(u, spills[k], k)
    ensures forall m: Memory :: Marked(u, k + 1, x, Performed(u.ops[k], [], m, spills[k], OneMark(q, x), k))
  {
    var s := spills[k];
    if z :| z in s.between && Live(u, 2 * k + 1, z) {
      q, x := 2 * k + 1, z;
      forall m: Memory
        ensures Marked(u, k + 1, x, Performed(u.ops[k], [], m, s, OneMark(q, x), k))
      {
        MarkedBeforeStore(u, k, x, m, s);
      }
    } else {
      var z :| z in s.before && Live(u, 2 * k, z);
      q, x := 2 * k, z;
      forall m: Memory
        ensures Marked(u, k + 1, x, Performed(u.ops[k], [], m, s, OneMark(q, x), k))
      {
        MarkedBeforeLoad(u, k, x, m, s);
      }
    }
  }

  ghost predicate AvoidsFrom(u: Output, spills: seq<Spill>, k: nat)
    requires IsOutput(u)
  {
    forall i: nat | k <= i < |spills| :: AvoidsAt(u, spills[i], i)
  }

  lemma {:induction false} AvoidsLater(u: Output, spills: seq<Spill>, k: nat)
    requires IsOutput(u) && k < |spills| && AvoidsFrom(u, spills, k)
    ensures AvoidsAt(u, spills[k], k) && AvoidsFrom(u, spills, k + 1)
  {
  }

  lemma {:induction false} RunOneMore(u: Output, spills: seq<Spill>, junk: Junk, m: Memory, k: nat, now: Memory)
    requires |spills| == |u.ops| && k < |u.ops| && now == Run(u.ops, spills, junk, [], m, k)
    ensures Run(u.ops, spills, junk, [], m, k + 1) == Performed(u.ops[k], [], now, spills[k], junk, k)
  {
  }

  lemma {:induction false} NothingPending(u: Output, x: nat, m: Memory)
    requires IsOutput(u) && Marked(u, |u.ops|, x, m)
    ensures Spoiled(u, |u.ops|, m)
  {
  }

  lemma {:induction false} MarkedToTheEnd(u: Output, spills: seq<Spill>, junk: Junk, m: Memory, k: nat, x: nat,
      now: Memory)
    returns (end: Memory)
    requires IsOutput(u) && |spills| == |u.ops| && k <= |u.ops| && AvoidsFrom(u, spills, k)
    requires now == Run(u.ops, spills, junk, [], m, k) && Marked(u, k, x, now)
    ensures end == Run(u.ops, spills, junk, [], m, |u.ops|) && Marked(u, |u.ops|, x, end)
    decreases |u.ops| - k
  {
    if k == |u.ops| {
      end := now;
    } else {
      var next := Performed(u.ops[k], [], now, spills[k], junk, k);
      AvoidsLater(u, spills, k);
      RunOneMore(u, spills, junk, m, k, now);
      StaysMarked(u, k, x, now, spills[k], junk);
      end := MarkedToTheEnd(u, spills, junk, m, k + 1, x, next);
    }
  }

  /** No outputs at all. */
  const NOTHING: Outputs := (r: seq<Block>) => []

  /** The round of a blank aggregate without outputs is blank. */
  lemma {:induction false} BlankRound(u: Output, i: nat)
    requires ValidLayout(u.y) && |u.widths| == |u.y.l| && i < |u.y.l|
    ensures var h := Round(Case(u.widths, Padded(NOTHING, u.words, |u.y.l|)), Aggregate(BLANK, u.y));
            h.l[i] == ZERO && h.r[i] == ZERO
  {
    XorZero(ZERO);
  }

  /** Something is left in R or in its backup when the update starts. */
  lemma {:induction false} SpoiledAggregate(u: Output, m: Memory) returns (i: nat)
    requires IsOutput(u) && Spoiled(u, |u.ops|, m)
    ensures var h := Aggregate(Exec(Copies(u.y.bak, u.y.l), [], m), u.y);
            i < |u.y.l| && (h.l[i] != ZERO || h.r[i] != ZERO)
  {
    i := SpoiledBlock(u, m);
    CopyStage(u.y.bak, u.y.l, m);
    KeepsApart(u.y);
  }

  lemma {:induction false} SpoiledBlock(u: Output, m: Memory) returns (i: nat)
    requires IsOutput(u) && Spoiled(u, |u.ops|, m)
    ensures i < |u.y.l| && (m(u.y.bak[i]) != ZERO || m(u.y.r[i]) != ZERO)
  {
    if x :| x in u.y.bak && m(x) != ZERO {
      var b: nat :| b < |u.y.bak| && u.y.bak[b] == x;
      i := b;
    } else if a: nat :| a < |u.y.r| && a !in u.index && m(u.y.r[a]) != ZERO {
      i := a;
    } else {
      var j: nat :| j < |u.ops| && m(u.y.r[u.index[j]]) != ZERO;
      i := u.index[j];
    }
  }

  /** A spill into a live cell spoils a round on a blank memory. */
  lemma {:induction false} HarmfulRound(c: RoundCode, u: Output, spills: seq<Spill>) returns (junk: Junk)
    requires IsRoundCode(c, u.index, u.y, u.words, u.widths) && u.ops == c.output
    requires |spills| == |c.output| && !Avoids(u, spills)
    ensures !ComputesRound(u.y, u.words, u.widths, NOTHING, BLANK, SpillingRound(c, spills, junk, NOTHING, u.y, BLANK))
  {
    var m1 := Exec(c.backup, [], BLANK);
    junk := HarmfulOutput(u, spills, m1);
    var m2 := Run(u.ops, spills, junk, [], m1, |u.ops|);
    SpoiledRound(u, m2, Exec(c.update, [], m2));
  }

  /** Some scratch content leaves a mark that is still there when the output code is over. */
  lemma {:induction false} HarmfulOutput(u: Output, spills: seq<Spill>, m: Memory) returns (junk: Junk)
    requires IsOutput(u) && |spills| == |u.ops| && !Avoids(u, spills)
    ensures Spoiled(u, |u.ops|, Run(u.ops, spills, junk, [], m, |u.ops|))
  {
    var k := LastHit(u, spills, |u.ops|);
    var q, x := HitMarks(u, spills, k);
    junk := OneMark(q, x);
    var now := Run(u.ops, spills, junk, [], m, k);
    RunOneMore(u, spills, junk, m, k, now);
    var end := MarkedToTheEnd(u, spills, junk, m, k + 1, x, Performed(u.ops[k], [], now, spills[k], junk, k));
    NothingPending(u, x, end);
  }

  lemma {:induction false} SpoiledRound(u: Output, m: Memory, m': Memory)
    requires IsOutput(u) && Spoiled(u, |u.ops|, m) && m' == Exec(Copies(u.y.bak, u.y.l), [], m)
    ensures !ComputesRound(u.y, u.words, u.widths, NOTHING, BLANK, m')
  {
    var i := SpoiledAggregate(u, m);
    BlankRound(u, i);
  }

  ghost predicate AlwaysComputesRound(c: RoundCode, u: Output, spills: seq<Spill>)
    requires |spills| == |c.output|
  {
    forall junk: Junk, f: Outputs, m: Memory ::
      ComputesRound(u.y, u.words, u.widths, f, m, SpillingRound(c, spills, junk, f, u.y, m))
  }

  /**
   The code of a round computes it for all outputs, all memories and whatever is left in the scratch words, if and only
   if no scratch word is live when it is written.
   */
  lemma {:induction false} SpillsExactly(c: RoundCode, u: Output, spills: seq<Spill>)
    requires IsRoundCode(c, u.index, u.y, u.words, u.widths) && u.ops == c.output && |spills| == |c.output|
    ensures AlwaysComputesRound(c, u, spills) <==> Avoids(u, spills)
  {
    if Avoids(u, spills) {
      forall junk: Junk, f: Outputs, m: Memory
        ensures ComputesRound(u.y, u.words, u.widths, f, m, SpillingRound(c, spills, junk, f, u.y, m))
      {
        HarmlessRound(c, u, spills, junk, f, m);
      }
    } else {
      var junk := HarmfulRound(c, u, spills);
    }
  }
}

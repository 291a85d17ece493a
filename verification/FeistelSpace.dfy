/**
 Where the blocks of the first test case come to lie: the lists of block addresses as a function of its operands, and
 which stretches of a list are consecutive words.
 */
module FeistelSpace {
  import opened Sequences
  import opened FeistelWide
  import opened FeistelPlans

  function Run(from: nat, n: nat): (s: seq<nat>)
    ensures |s| == n && forall i | 0 <= i < n :: s[i] == from + 4 * i
  {
    seq(n, i requires 0 <= i < n => from + 4 * i)
  }

  /** The next free address and the lists of block addresses. */
  datatype Space = Space(next: nat, r: seq<nat>, rBak: seq<nat>, l: seq<nat>, inBak: seq<nat>, outBak: seq<nat>)

  /** New R blocks, then their backup blocks, then blocks for the original inputs. */
  function AddRead(p: Space, w: nat): Space {
    p.(next := p.next + 12 * w, r := p.r + Run(p.next, w), rBak := p.rBak + Run(p.next + 4 * w, w),
       inBak := p.inBak + Run(p.next + 8 * w, w))
  }

  /** New L blocks, then blocks for the original outputs. */
  function AddWrite(p: Space, w: nat): Space {
    p.(next := p.next + 8 * w, l := p.l + Run(p.next, w), outBak := p.outBak + Run(p.next + 4 * w, w))
  }

  function PadR(p: Space): Space {
    p.(next := p.next + 8, r := p.r + Run(p.next, 1), rBak := p.rBak + Run(p.next + 4, 1))
  }

  function PadL(p: Space, w: nat): Space {
    p.(next := p.next + 4 * w, l := p.l + Run(p.next, w))
  }

  function ReadSpace(op: Operand, p: Space): Space {
    if op.isRead && op.bytes > 0 then AddRead(p, Words(op.bytes)) else p
  }

  function ReadsSpace(ops: seq<Operand>, mem: bool, p: Space): Space {
    if ops == [] then p
    else
      var before, last := ReadsSpace(ops[..|ops| - 1], mem, p), ops[|ops| - 1];
      if last.mem == mem then ReadSpace(last, before) else before
  }

  /** R grows by `k` blocks, one at a time. */
  function Grown(p: Space, k: nat): Space {
    if k == 0 then p else AddRead(Grown(p, k - 1), 1)
  }

  function Missing(have: nat, need: nat): nat {
    if have < need then need - have else 0
  }

  function WriteSpace(op: Operand, p: Space): Space {
    if op.isWritten && op.bytes > 0
    then Grown(AddWrite(p, Words(op.bytes)), Missing(|p.r|, |p.l| + Words(op.bytes)))
    else p
  }

  function WritesSpace(ops: seq<Operand>, mem: bool, p: Space): Space {
    if ops == [] then p
    else
      var before, last := WritesSpace(ops[..|ops| - 1], mem, p), ops[|ops| - 1];
      if last.mem == mem then WriteSpace(last, before) else before
  }

  lemma {:induction false} WritesSpaceStep(ops: seq<Operand>, mem: bool, i: nat, p: Space)
    requires i < |ops|
    ensures WritesSpace(ops[..i + 1], mem, p) ==
            var before := WritesSpace(ops[..i], mem, p);
            if ops[i].mem == mem then WriteSpace(ops[i], before) else before
  {
    assert ops[..i + 1][..i] == ops[..i];
  }

  function EvenR(p: Space): Space
    decreases |p.l| - |p.r|
  {
    if |p.r| >= |p.l| then p else EvenR(PadR(p))
  }

  function EvenL(p: Space): Space
    decreases |p.r| - |p.l|
  {
    if |p.l| >= |p.r| then p else EvenL(PadL(p, 1))
  }

  function OperandSpace(ops: seq<Operand>, p: Space): Space {
    WritesSpace(ops, true, WritesSpace(ops, false, ReadsSpace(ops, true, ReadsSpace(ops, false, p))))
  }

  /** The blocks after the first test case, with two for exception data and R and L of the same length. */
  function FirstSpace(ops: seq<Operand>, p: Space): Space {
    EvenL(EvenR(PadL(OperandSpace(ops, p), 2)))
  }

  // ---------------------------------------------------------------------------------------------
  // Stretches of consecutive words
  // ---------------------------------------------------------------------------------------------

  // ---- how many blocks there are ----

  /** The words of all lists. */
  function Held(p: Space): nat {
    |p.r| + |p.rBak| + |p.l| + |p.inBak| + |p.outBak|
  }

  /** After reading `rd` and writing `wr` words every word taken belongs to one list. */
  ghost predicate Accounted(p: Space, start: nat, rd: nat, wr: nat) {
    && p.next == start + 4 * Held(p)
    && |p.r| == |p.rBak| == |p.inBak| == Max(rd, wr)
    && |p.l| == |p.outBak| == wr
  }

  lemma {:induction false} ReadsAccounted(ops: seq<Operand>, mem: bool, p: Space, start: nat, rd: nat)
    requires Accounted(p, start, rd, 0)
    ensures Accounted(ReadsSpace(ops, mem, p), start, rd + ReadWords(ops, mem), 0)
  {
    if ops != [] {
      ReadsAccounted(ops[..|ops| - 1], mem, p, start, rd);
    }
  }

  lemma {:induction false} GrownAccounted(p: Space, k: nat)
    ensures var q := Grown(p, k);
            && q.next == p.next + 12 * k && q.l == p.l && q.outBak == p.outBak
            && |q.r| == |p.r| + k && |q.rBak| == |p.rBak| + k && |q.inBak| == |p.inBak| + k
  {
    if k > 0 {
      GrownAccounted(p, k - 1);
    }
  }

  lemma {:induction false} WriteAccounted(op: Operand, p: Space, start: nat, rd: nat, wr: nat)
    requires Accounted(p, start, rd, wr)
    ensures Accounted(WriteSpace(op, p), start, rd, wr + if op.isWritten then Words(op.bytes) else 0)
  {
    GrownAccounted(AddWrite(p, Words(op.bytes)), Missing(|p.r|, |p.l| + Words(op.bytes)));
  }

  lemma {:induction false} WritesAccounted(ops: seq<Operand>, mem: bool, p: Space, start: nat, rd: nat, wr: nat)
    requires Accounted(p, start, rd, wr)
    ensures Accounted(WritesSpace(ops, mem, p), start, rd, wr + WriteWords(ops, mem))
  {
    if ops != [] {
      var init, last := ops[..|ops| - 1], ops[|ops| - 1];
      WritesAccounted(init, mem, p, start, rd, wr);
      WriteAccounted(last, WritesSpace(init, mem, p), start, rd, wr + WriteWords(init, mem));
    }
  }

  lemma {:induction false} EvenRAccounted(p: Space, start: nat)
    requires p.next == start + 4 * Held(p) && |p.r| == |p.rBak|
    ensures var q := EvenR(p);
            && q.next == start + 4 * Held(q) && |q.r| == |q.rBak| == Max(|p.r|, |p.l|)
            && q.l == p.l && q.inBak == p.inBak && q.outBak == p.outBak
    decreases |p.l| - |p.r|
  {
    if |p.r| < |p.l| {
      EvenRAccounted(PadR(p), start);
    }
  }

  lemma {:induction false} EvenLAccounted(p: Space, start: nat)
    requires p.next == start + 4 * Held(p)
    ensures var q := EvenL(p);
            && q.next == start + 4 * Held(q) && |q.l| == Max(|p.l|, |p.r|)
            && q.r == p.r && q.rBak == p.rBak && q.inBak == p.inBak && q.outBak == p.outBak
    decreases |p.r| - |p.l|
  {
    if |p.l| < |p.r| {
      EvenLAccounted(PadL(p, 1), start);
    }
  }

  /** The blocks of a first test case: how many there are of each kind, and that they take up all words taken. */
  lemma {:induction false} SpaceIsAccounted(ops: seq<Operand>, start: nat)
    ensures var q := FirstSpace(ops, Space(start, [], [], [], [], []));
            var read, written := AllRead(ops), WriteWords(ops, false) + WriteWords(ops, true);
            && |q.r| == |q.rBak| == |q.l| == Max(read, written + 2)
            && |q.inBak| == Max(read, written) && |q.outBak| == written
            && q.next == start + 4 * (|q.r| + |q.rBak| + |q.l| + |q.inBak| + |q.outBak|)
  {
    var p := Space(start, [], [], [], [], []);
    var p1 := ReadsSpace(ops, false, p);
    ReadsAccounted(ops, false, p, start, 0);
    var p2 := ReadsSpace(ops, true, p1);
    ReadsAccounted(ops, true, p1, start, ReadWords(ops, false));
    var p3 := WritesSpace(ops, false, p2);
    WritesAccounted(ops, false, p2, start, AllRead(ops), 0);
    var p4 := WritesSpace(ops, true, p3);
    WritesAccounted(ops, true, p3, start, AllRead(ops), WriteWords(ops, false));
    var p5 := EvenR(PadL(p4, 2));
    EvenRAccounted(PadL(p4, 2), start);
    EvenLAccounted(p5, start);
  }

  /** The lengths of the maximal runs of consecutive words in a list. */
  function RunsOf(a: seq<nat>): (runs: seq<nat>)
    ensures a == [] <==> runs == []
  {
    if a == [] then []
    else
      var before, last := RunsOf(a[..|a| - 1]), |a| - 1;
      if last > 0 && a[last] == a[last - 1] + 4 then before[|before| - 1 := before[|before| - 1] + 1] else before + [1]
  }

  /** The next free address does not continue the list. */
  predicate EndsBefore(a: seq<nat>, next: nat) {
    a == [] || a[|a| - 1] + 4 < next
  }

  /** New words after a gap make a new run. */
  lemma {:induction false} RunsOfMore(a: seq<nat>, next: nat, w: nat)
    requires EndsBefore(a, next) && w >= 1
    ensures RunsOf(a + Run(next, w)) == RunsOf(a) + [w]
  {
    var b := a + Run(next, w);
    assert b[..|b| - 1] == a + Run(next, w - 1);
    if w == 1 {
      assert a + Run(next, 0) == a;
    } else {
      RunsOfMore(a, next, w - 1);
    }
  }

  function Total(runs: seq<nat>): nat {
    if runs == [] then 0 else Total(runs[..|runs| - 1]) + runs[|runs| - 1]
  }

  lemma {:induction false} RunsCover(a: seq<nat>)
    ensures Total(RunsOf(a)) == |a|
  {
    if a != [] {
      var before, runs := RunsOf(a[..|a| - 1]), RunsOf(a);
      RunsCover(a[..|a| - 1]);
      if |runs| == |before| {
        assert runs[..|runs| - 1] == before[..|before| - 1];
      } else {
        assert runs[..|runs| - 1] == before;
      }
    }
  }

  /** Positions `at` to `at + n` lie in one run. */
  predicate Inside(runs: seq<nat>, at: nat, n: nat) {
    if runs == [] then false
    else
      var init := runs[..|runs| - 1];
      if at < Total(init) then Inside(init, at, n) else at + n <= Total(runs)
  }

  lemma {:induction false} InsideIsBelow(runs: seq<nat>, at: nat, n: nat)
    requires Inside(runs, at, n)
    ensures at + n <= Total(runs)
  {
    var init := runs[..|runs| - 1];
    if at < Total(init) {
      InsideIsBelow(init, at, n);
    }
  }

  /** The last run is a run, and the word before it is not part of it. */
  lemma {:induction false} LastRun(a: seq<nat>)
    requires a != []
    ensures var n := RunsOf(a)[|RunsOf(a)| - 1];
            && 1 <= n <= |a|
            && (forall i | |a| - n < i < |a| :: a[i] == a[i - 1] + 4)
            && (n < |a| ==> a[|a| - n] != a[|a| - n - 1] + 4)
  {
    if |a| > 1 {
      LastRun(a[..|a| - 1]);
    }
  }

  /** Four words of a list are consecutive exactly when they lie in one run. */
  lemma {:induction false} ConsecutiveExactly(a: seq<nat>, at: nat)
    requires at + 4 <= |a|
    ensures Consecutive(a[at..at + 4]) <==> Inside(RunsOf(a), at, 4)
  {
    RunsCover(a);
    if at + 4 < |a| {
      var init := a[..|a| - 1];
      ConsecutiveExactly(init, at);
      assert init[at..at + 4] == a[at..at + 4];
      RunsCover(init);
      LongerRuns(RunsOf(init), RunsOf(a), at);
    } else {
      LastRun(a);
      LastFour(a, at, RunsOf(a));
    }
  }

  /** Runs with one word more hold the same four words before it. */
  lemma {:induction false} LongerRuns(runs: seq<nat>, more: seq<nat>, at: nat)
    requires runs != [] && at + 4 <= Total(runs)
    requires more == runs + [1] || more == runs[|runs| - 1 := runs[|runs| - 1] + 1]
    ensures Inside(more, at, 4) <==> Inside(runs, at, 4)
  {
    if more == runs + [1] {
      assert more[..|more| - 1] == runs;
    } else {
      assert more[..|more| - 1] == runs[..|runs| - 1];
      if at < Total(runs[..|runs| - 1]) {
      } else {
        assert Inside(runs, at, 4);
      }
    }
  }

  lemma {:induction false} LastFour(a: seq<nat>, at: nat, runs: seq<nat>)
    requires at + 4 == |a| && runs != [] && Total(runs) == |a|
    requires var n := runs[|runs| - 1];
             && 1 <= n <= |a|
             && (forall i | |a| - n < i < |a| :: a[i] == a[i - 1] + 4)
             && (n < |a| ==> a[|a| - n] != a[|a| - n - 1] + 4)
    ensures Consecutive(a[at..at + 4]) <==> Inside(runs, at, 4)
  {
    var n, s, init := runs[|runs| - 1], a[at..at + 4], runs[..|runs| - 1];
    assert s[0] == a[at] && s[1] == a[at + 1] && s[2] == a[at + 2] && s[3] == a[at + 3];
    if n < 4 {
      var j := 4 - n;
      assert s[j] == a[|a| - n] && s[j - 1] == a[|a| - n - 1];
      if Inside(init, at, 4) {
        InsideIsBelow(init, at, 4);
      }
    } else {
      assert a[at + 1] == a[at] + 4 && a[at + 2] == a[at + 1] + 4 && a[at + 3] == a[at + 2] + 4;
    }
  }

  function Ones(n: nat): seq<nat> {
    seq(n, _ => 1)
  }

  lemma {:induction false} OneMoreOne(runs: seq<nat>, k: nat)
    ensures (runs + Ones(k)) + [1] == runs + Ones(k + 1)
  {
  }

  /** Four words do not lie in runs of one. */
  lemma {:induction false} OnesDoNotMatter(runs: seq<nat>, k: nat, at: nat)
    ensures Inside(runs + Ones(k), at, 4) <==> Inside(runs, at, 4)
  {
    var s := runs + Ones(k);
    if k == 0 {
      assert s == runs;
    } else {
      assert s[..|s| - 1] == runs + Ones(k - 1);
      OnesDoNotMatter(runs, k - 1, at);
      if at < Total(s[..|s| - 1]) {
      } else if Inside(runs, at, 4) {
        InsideIsBelow(runs + Ones(k - 1), at, 4);
      }
    }
  }

  // ---------------------------------------------------------------------------------------------
  // The runs of R
  // ---------------------------------------------------------------------------------------------

  /** The sizes of the operands read, in words. */
  function ReadRuns(ops: seq<Operand>, mem: bool): seq<nat> {
    if ops == [] then []
    else
      var before, last := ReadRuns(ops[..|ops| - 1], mem), ops[|ops| - 1];
      if last.mem == mem && last.isRead && last.bytes > 0 then before + [Words(last.bytes)] else before
  }

  function AllReadRuns(ops: seq<Operand>): seq<nat> {
    ReadRuns(ops, false) + ReadRuns(ops, true)
  }

  lemma {:induction false} AddReadRuns(p: Space, w: nat)
    requires EndsBefore(p.r, p.next) && w >= 1
    ensures EndsBefore(AddRead(p, w).r, AddRead(p, w).next) && RunsOf(AddRead(p, w).r) == RunsOf(p.r) + [w]
  {
    RunsOfMore(p.r, p.next, w);
  }

  lemma {:induction false} RunsOfReads(ops: seq<Operand>, mem: bool, p: Space)
    requires EndsBefore(p.r, p.next)
    ensures var q := ReadsSpace(ops, mem, p);
            EndsBefore(q.r, q.next) && RunsOf(q.r) == RunsOf(p.r) + ReadRuns(ops, mem)
  {
    if ops == [] {
      assert RunsOf(p.r) + ReadRuns(ops, mem) == RunsOf(p.r);
    } else {
      var init, last := ops[..|ops| - 1], ops[|ops| - 1];
      RunsOfReads(init, mem, p);
      if last.mem == mem && last.isRead && last.bytes > 0 {
        AddReadRuns(ReadsSpace(init, mem, p), Words(last.bytes));
        ConcatIsAssociative(RunsOf(p.r), ReadRuns(init, mem), [Words(last.bytes)]);
      }
    }
  }

  lemma {:induction false} NoOnes(runs: seq<nat>)
    ensures runs + Ones(0) == runs
  {
  }

  /** The list of R blocks ends before the next free address and consists of these runs. */
  ghost predicate HasRuns(p: Space, runs: seq<nat>) {
    EndsBefore(p.r, p.next) && RunsOf(p.r) == runs
  }

  lemma {:induction false} RunsOfGrown(p: Space, n: nat, runs: seq<nat>)
    requires HasRuns(p, runs)
    ensures HasRuns(Grown(p, n), runs + Ones(n))
  {
    if n == 0 {
      NoOnes(runs);
    } else {
      RunsOfGrown(p, n - 1, runs);
      OneMoreBlock(Grown(p, n - 1), runs, n - 1);
    }
  }

  lemma {:induction false} OneMoreBlock(p: Space, runs: seq<nat>, n: nat)
    requires HasRuns(p, runs + Ones(n))
    ensures HasRuns(AddRead(p, 1), runs + Ones(n + 1))
  {
    AddReadRuns(p, 1);
    OneMoreOne(runs, n);
  }

  lemma {:induction false} OnesOfOnes(runs: seq<nat>, j: nat, k: nat)
    ensures (runs + Ones(j)) + Ones(k) == runs + Ones(j + k)
  {
  }

  lemma {:induction false} WriteGrowsR(op: Operand, p: Space, runs: seq<nat>) returns (k: nat)
    requires HasRuns(p, runs) && op.isWritten && op.bytes > 0
    ensures HasRuns(WriteSpace(op, p), runs + Ones(k))
  {
    k := Missing(|p.r|, |p.l| + Words(op.bytes));
    RunsOfGrown(AddWrite(p, Words(op.bytes)), k, runs);
  }

  lemma {:induction false} WritesGrowR(ops: seq<Operand>, mem: bool, p: Space, runs: seq<nat>) returns (k: nat)
    requires HasRuns(p, runs)
    ensures HasRuns(WritesSpace(ops, mem, p), runs + Ones(k))
  {
    if ops == [] {
      k := 0;
      NoOnes(runs);
    } else {
      var init, last := ops[..|ops| - 1], ops[|ops| - 1];
      k := WritesGrowR(init, mem, p, runs);
      if last.mem == mem && last.isWritten && last.bytes > 0 {
        var n := WriteGrowsR(last, WritesSpace(init, mem, p), runs + Ones(k));
        OnesOfOnes(runs, k, n);
        k := k + n;
      }
    }
  }

  lemma {:induction false} EvenRGrowsR(p: Space, runs: seq<nat>) returns (k: nat)
    requires HasRuns(p, runs)
    ensures RunsOf(EvenR(p).r) == runs + Ones(k)
    decreases |p.l| - |p.r|
  {
    if |p.r| >= |p.l| {
      k := 0;
      NoOnes(runs);
    } else {
      PadRMakesOne(p, runs);
      k := EvenRGrowsR(PadR(p), runs + Ones(1));
      OnesOfOnes(runs, 1, k);
      k := k + 1;
    }
  }

  lemma {:induction false} PadRMakesOne(p: Space, runs: seq<nat>)
    requires HasRuns(p, runs)
    ensures HasRuns(PadR(p), runs + Ones(1))
  {
    RunsOfMore(p.r, p.next, 1);
    assert Ones(1) == [1];
  }

  lemma {:induction false} EvenLExtends(p: Space)
    ensures EvenL(p).r == p.r && EvenL(p).next >= p.next
    ensures EvenL(p).l == p.l + Run(p.next, Missing(|p.l|, |p.r|))
    decreases |p.r| - |p.l|
  {
    if |p.l| >= |p.r| {
      assert p.l + Run(p.next, 0) == p.l;
    } else {
      var q, d := PadL(p, 1), |p.r| - |p.l|;
      EvenLExtends(q);
      assert (p.l + Run(p.next, 1)) + Run(p.next + 4, d - 1) == p.l + Run(p.next, d);
    }
  }

  lemma {:induction false} RunsAfterReads(ops: seq<Operand>, p: Space)
    requires p.r == []
    ensures HasRuns(ReadsSpace(ops, true, ReadsSpace(ops, false, p)), AllReadRuns(ops))
  {
    RunsOfReads(ops, false, p);
    RunsOfReads(ops, true, ReadsSpace(ops, false, p));
    assert [] + ReadRuns(ops, false) == ReadRuns(ops, false);
  }

  lemma {:induction false} RunsAfterOperands(ops: seq<Operand>, p: Space) returns (k: nat)
    requires p.r == []
    ensures HasRuns(OperandSpace(ops, p), AllReadRuns(ops) + Ones(k))
  {
    var q := ReadsSpace(ops, true, ReadsSpace(ops, false, p));
    RunsAfterReads(ops, p);
    var i := WritesGrowR(ops, false, q, AllReadRuns(ops));
    var j := WritesGrowR(ops, true, WritesSpace(ops, false, q), AllReadRuns(ops) + Ones(i));
    OnesOfOnes(AllReadRuns(ops), i, j);
    k := i + j;
  }

  /** R consists of a run for each operand read, and of single blocks. */
  lemma {:induction false} RunsOfR(ops: seq<Operand>, p: Space) returns (k: nat)
    requires p.r == []
    ensures RunsOf(FirstSpace(ops, p).r) == AllReadRuns(ops) + Ones(k)
  {
    var q := PadL(OperandSpace(ops, p), 2);
    var i := RunsAfterOperands(ops, p);
    var j := EvenRGrowsR(q, AllReadRuns(ops) + Ones(i));
    OnesOfOnes(AllReadRuns(ops), i, j);
    EvenLExtends(EvenR(q));
    k := i + j;
  }

  // ---------------------------------------------------------------------------------------------
  // The runs of L
  // ---------------------------------------------------------------------------------------------

  /** The sizes of the operands written, in words. */
  function WriteRuns(ops: seq<Operand>, mem: bool): seq<nat> {
    if ops == [] then []
    else
      var before, last := WriteRuns(ops[..|ops| - 1], mem), ops[|ops| - 1];
      if last.mem == mem && last.isWritten && last.bytes > 0 then before + [Words(last.bytes)] else before
  }

  function AllWriteRuns(ops: seq<Operand>): seq<nat> {
    WriteRuns(ops, false) + WriteRuns(ops, true)
  }

  lemma {:induction false} ReadsKeepL(ops: seq<Operand>, mem: bool, p: Space)
    ensures ReadsSpace(ops, mem, p).l == p.l
  {
    if ops != [] {
      ReadsKeepL(ops[..|ops| - 1], mem, p);
    }
  }

  lemma {:induction false} GrownKeepsL(p: Space, k: nat)
    ensures Grown(p, k).l == p.l && Grown(p, k).next >= p.next
  {
    if k > 0 {
      GrownKeepsL(p, k - 1);
    }
  }

  lemma {:induction false} WriteMakesRun(op: Operand, p: Space)
    requires EndsBefore(p.l, p.next) && op.isWritten && op.bytes > 0
    ensures var q := WriteSpace(op, p);
            EndsBefore(q.l, q.next) && RunsOf(q.l) == RunsOf(p.l) + [Words(op.bytes)]
  {
    var w := Words(op.bytes);
    RunsOfMore(p.l, p.next, w);
    GrownKeepsL(AddWrite(p, w), Missing(|p.r|, |p.l| + w));
  }

  lemma {:induction false} RunsOfWrites(ops: seq<Operand>, mem: bool, p: Space)
    requires EndsBefore(p.l, p.next)
    ensures var q := WritesSpace(ops, mem, p);
            EndsBefore(q.l, q.next) && RunsOf(q.l) == RunsOf(p.l) + WriteRuns(ops, mem)
  {
    if ops == [] {
      assert RunsOf(p.l) + WriteRuns(ops, mem) == RunsOf(p.l);
    } else {
      var init, last := ops[..|ops| - 1], ops[|ops| - 1];
      RunsOfWrites(init, mem, p);
      if last.mem == mem && last.isWritten && last.bytes > 0 {
        WriteMakesRun(last, WritesSpace(init, mem, p));
        ConcatIsAssociative(RunsOf(p.l), WriteRuns(init, mem), [Words(last.bytes)]);
      }
    }
  }

  lemma {:induction false} RunsOfOperands(ops: seq<Operand>, p: Space)
    requires p.l == []
    ensures var q := OperandSpace(ops, p);
            EndsBefore(q.l, q.next) && RunsOf(q.l) == AllWriteRuns(ops)
  {
    var p1 := ReadsSpace(ops, false, p);
    var p2 := ReadsSpace(ops, true, p1);
    ReadsKeepL(ops, false, p);
    ReadsKeepL(ops, true, p1);
    RunsOfWrites(ops, false, p2);
    RunsOfWrites(ops, true, WritesSpace(ops, false, p2));
  }

  lemma {:induction false} EvenRKeepsL(p: Space)
    ensures EvenR(p).l == p.l
    ensures |p.r| >= |p.l| ==> EvenR(p) == p
    ensures |p.r| < |p.l| ==> |EvenR(p).r| == |p.l|
    decreases |p.l| - |p.r|
  {
    if |p.r| < |p.l| {
      EvenRKeepsL(PadR(p));
    }
  }

  /** What L gets after the operands is one run. */
  lemma {:induction false} PaddingIsARun(p: Space)
    ensures var q := EvenL(EvenR(PadL(p, 2)));
            |q.l| >= |p.l| + 2 && q.l == p.l + Run(p.next, |q.l| - |p.l|)
  {
    var p1 := PadL(p, 2);
    EvenRKeepsL(p1);
    EvenLExtends(EvenR(p1));
    var d := |EvenL(EvenR(p1)).l| - |p1.l|;
    assert (p.l + Run(p.next, 2)) + Run(p.next + 8, d) == p.l + Run(p.next, 2 + d);
  }

  /** L consists of a run for each operand written, and of one for exception data and padding. */
  lemma {:induction false} RunsOfL(ops: seq<Operand>, p: Space)
    requires p.l == []
    ensures var l := FirstSpace(ops, p).l;
            && Total(AllWriteRuns(ops)) + 2 <= |l|
            && RunsOf(l) == AllWriteRuns(ops) + [|l| - Total(AllWriteRuns(ops))]
  {
    var p1, l := OperandSpace(ops, p), FirstSpace(ops, p).l;
    RunsOfOperands(ops, p);
    RunsCover(p1.l);
    PaddingIsARun(p1);
    RunsOfMore(p1.l, p1.next, |l| - |p1.l|);
  }
}

/**
 Bookkeeping of the Feistel blocks: the bump allocator, the lists of block addresses, and which of them the operands
 of a test case take.
 */
module FeistelBlocks {
  import opened Sequences
  import opened FeistelCode
  import opened FeistelPlans
  import opened FeistelSpace
  import opened FeistelEmission
  import opened FeistelBytes

  const RETP: nat := 0x128d008
  const EDATA: nat := RETP + 4
  /** The loop counter is the first word allocated; the blocks follow it. */
  const COUNTER: nat := EDATA + 8
  const START: nat := COUNTER + 4
  const END: nat := 0x013fffff

  // ---------------------------------------------------------------------------------------------
  // Ownership of addresses
  // ---------------------------------------------------------------------------------------------

  /** Which list an allocated address belongs to, and at which position. */
  type Owner = map<nat, (nat, nat)>

  ghost predicate Owned(owner: Owner, list: seq<nat>, tag: nat) {
    forall i: nat | i < |list| :: list[i] in owner && owner[list[i]] == (tag, i)
  }

  /** Every allocated address is word-aligned relative to the start of the range and lies below `next`. */
  ghost predicate InRange(owner: Owner, next: nat) {
    forall a | a in owner :: START <= a && a + 4 <= next && (a - START) % 4 == 0
  }

  /** The next `n` words go to positions `at`, `at + 1`, ... of the list with the given tag. */
  ghost function Claim(owner: Owner, tag: nat, at: nat, from: nat, n: nat): Owner {
    if n == 0 then owner else Claim(owner, tag, at, from, n - 1)[from + 4 * (n - 1) := (tag, at + n - 1)]
  }

  lemma {:induction false} ClaimOwns(owner: Owner, tag: nat, list: seq<nat>, from: nat, n: nat)
    requires Owned(owner, list, tag) && InRange(owner, from) && START <= from && (from - START) % 4 == 0
    ensures Owned(Claim(owner, tag, |list|, from, n), list + Run(from, n), tag)
    ensures InRange(Claim(owner, tag, |list|, from, n), from + 4 * n)
    ensures Extends(owner, Claim(owner, tag, |list|, from, n))
  {
    if n > 0 {
      ClaimOwns(owner, tag, list, from, n - 1);
      var before, a := list + Run(from, n - 1), from + 4 * (n - 1);
      assert list + Run(from, n) == before + [a];
      ClaimOne(Claim(owner, tag, |list|, from, n - 1), tag, before, a);
    } else {
      assert list + Run(from, 0) == list;
    }
  }

  ghost predicate Extends(owner: Owner, owner': Owner) {
    forall a | a in owner :: a in owner' && owner'[a] == owner[a]
  }

  lemma {:induction false} ClaimOne(owner: Owner, tag: nat, list: seq<nat>, a: nat)
    requires Owned(owner, list, tag) && InRange(owner, a) && START <= a && (a - START) % 4 == 0
    ensures Owned(owner[a := (tag, |list|)], list + [a], tag)
    ensures InRange(owner[a := (tag, |list|)], a + 4)
    ensures Extends(owner, owner[a := (tag, |list|)])
  {
    assert a !in owner;
  }

  /** Each list owns its addresses; a list's number is its tag. */
  ghost predicate AllOwned(owner: Owner, lists: seq<seq<nat>>, next: nat) {
    && START <= next && (next - START) % 4 == 0
    && InRange(owner, next)
    && (forall t: nat | t < |lists| :: Owned(owner, lists[t], t))
  }

  /** Appending freshly allocated words to one list. */
  lemma {:induction false} Grow(owner: Owner, lists: seq<seq<nat>>, next: nat, t: nat, n: nat)
    requires AllOwned(owner, lists, next) && t < |lists|
    ensures AllOwned(Claim(owner, t, |lists[t]|, next, n), lists[t := lists[t] + Run(next, n)], next + 4 * n)
  {
    ClaimOwns(owner, t, lists[t], next, n);
    var owner' := Claim(owner, t, |lists[t]|, next, n);
    var lists' := lists[t := lists[t] + Run(next, n)];
    forall u: nat | u < |lists'|
      ensures Owned(owner', lists'[u], u)
    {
      assert Owned(owner, lists[u], u);
    }
  }

  /** The same for R, its backup and the saved inputs in turn. */
  lemma {:induction false} GrowThree(owner: Owner, r: seq<nat>, rBak: seq<nat>, l: seq<nat>, inBak: seq<nat>,
      outBak: seq<nat>, next: nat, n: nat)
    returns (owner': Owner)
    requires AllOwned(owner, [r, rBak, l, inBak, outBak], next)
    ensures AllOwned(owner', [r + Run(next, n), rBak + Run(next + 4 * n, n), l, inBak + Run(next + 8 * n, n), outBak],
                     next + 12 * n)
  {
    var l0 := [r, rBak, l, inBak, outBak];
    var o2 := GrowTwo(owner, l0, next, 0, 1, n);
    var l2 := [r + Run(next, n), rBak + Run(next + 4 * n, n), l, inBak, outBak];
    assert l0[0 := l0[0] + Run(next, n)][1 := l0[1] + Run(next + 4 * n, n)] == l2;
    Grow(o2, l2, next + 8 * n, 3, n);
    owner' := Claim(o2, 3, |l2[3]|, next + 8 * n, n);
    assert l2[3 := l2[3] + Run(next + 8 * n, n)] ==
           [r + Run(next, n), rBak + Run(next + 4 * n, n), l, inBak + Run(next + 8 * n, n), outBak];
  }

  /** And for two lists in turn. */
  lemma {:induction false} GrowTwo(owner: Owner, lists: seq<seq<nat>>, next: nat, s: nat, t: nat, n: nat)
    returns (owner': Owner)
    requires AllOwned(owner, lists, next) && s < |lists| && t < |lists| && s != t
    ensures AllOwned(owner', lists[s := lists[s] + Run(next, n)][t := lists[t] + Run(next + 4 * n, n)], next + 8 * n)
  {
    Grow(owner, lists, next, s, n);
    var o1, l1 := Claim(owner, s, |lists[s]|, next, n), lists[s := lists[s] + Run(next, n)];
    Grow(o1, l1, next + 4 * n, t, n);
    owner' := Claim(o1, t, |l1[t]|, next + 4 * n, n);
  }

  /** Leaving allocated words unused. */
  lemma {:induction false} Skip(owner: Owner, lists: seq<seq<nat>>, next: nat, n: nat)
    requires AllOwned(owner, lists, next)
    ensures AllOwned(owner, lists, next + 4 * n)
  {
  }

  /**
   The blocks are aligned words inside the range of the allocator, beyond the return point, the exception data and the
   loop counter, and no two of them overlap.
   */
  ghost predicate InPlace(lists: seq<seq<nat>>) {
    && (forall t: nat, i: nat | t < |lists| && i < |lists[t]| ::
          lists[t][i] % 4 == 0 && COUNTER + 4 <= lists[t][i] && lists[t][i] + 4 <= END)
    && (forall t: nat, i: nat, u: nat, j: nat |
          t < |lists| && i < |lists[t]| && u < |lists| && j < |lists[u]| && (t, i) != (u, j) ::
          lists[t][i] + 4 <= lists[u][j] || lists[u][j] + 4 <= lists[t][i])
  }

  /** Blocks are in place as long as the allocator has not passed the end of its range. */
  lemma {:induction false} BlocksAreInPlace(owner: Owner, lists: seq<seq<nat>>, next: nat)
    requires AllOwned(owner, lists, next) && next <= END
    ensures InPlace(lists)
  {
    forall t: nat, i: nat | t < |lists| && i < |lists[t]|
      ensures lists[t][i] in owner && owner[lists[t][i]] == (t, i)
      ensures lists[t][i] % 4 == 0
    {
      assert Owned(owner, lists[t], t);
      var a := lists[t][i];
      assert a == START + 4 * ((a - START) / 4);
    }
  }

  /** Different positions of owned lists hold different addresses. */
  lemma {:induction false} OwnedApart(owner: Owner, a: seq<nat>, s: nat, b: seq<nat>, t: nat)
    requires Owned(owner, a, s) && Owned(owner, b, t)
    ensures NoRepeats(a)
    ensures s != t ==> Apart(a, b)
  {
    forall i, j | 0 <= i < |a| && 0 <= j < |b| && s != t
      ensures a[i] != b[j]
    {
      assert owner[a[i]] == (s, i) && owner[b[j]] == (t, j);
    }
  }

  // ---------------------------------------------------------------------------------------------
  // The write phase, operand by operand
  // ---------------------------------------------------------------------------------------------

  /** The block lists, the number of blocks taken, and the plan. */
  datatype Writes = Writes(p: Space, count: nat, plan: seq<Piece>)

  ghost predicate FirstWritten(ops: seq<Operand>, mem: bool, start: Writes, now: Writes) {
    && now.count == |now.p.l| == |now.p.outBak| && |now.p.r| == Max(|start.p.r|, now.count)
    && now.p == WritesSpace(ops, mem, start.p)
  }

  ghost predicate LaterWritten(start: Writes, now: Writes) {
    now.count <= |now.p.l| == |now.p.r| && now.p == start.p.(next := now.p.next)
  }

  /** After the first `i` operands; the first test case allocates, later ones reuse. */
  ghost predicate Written(ops: seq<Operand>, mem: bool, i: nat, isInit: bool, start: Writes, now: Writes)
    requires i <= |ops|
  {
    && now.count == start.count + WriteWords(ops[..i], mem)
    && now.plan == PlanOf(ops[..i], mem, start.count, start.plan)
    && (if isInit then FirstWritten(ops[..i], mem, start, now) else LaterWritten(start, now))
  }

  /** What handling one operand does. */
  ghost predicate TakesBlocks(op: Operand, isInit: bool, a: Writes, b: Writes) {
    && b.count == a.count + (if op.isWritten then Words(op.bytes) else 0) <= |b.p.l| && b.count <= |b.p.r|
    && b.plan == NextPlan(op, a.count, a.plan)
    && (if isInit
        then b.count == |b.p.l| == |b.p.outBak| && |b.p.r| == Max(|a.p.r|, b.count) && b.p == WriteSpace(op, a.p)
        else b.p == a.p.(next := b.p.next))
  }

  lemma {:induction false} WrittenStep(ops: seq<Operand>, mem: bool, i: nat, isInit: bool, start: Writes, a: Writes,
      b: Writes)
    requires i < |ops| && Written(ops, mem, i, isInit, start, a)
    requires if ops[i].mem == mem then TakesBlocks(ops[i], isInit, a, b) else b == a
    ensures Written(ops, mem, i + 1, isInit, start, b)
  {
    PlanStep(ops, mem, i, start.count, start.plan);
    if isInit {
      WritesSpaceStep(ops, mem, i, start.p);
    }
  }

  class Blocks {
    var nextAddr: nat
    var r: seq<nat>
    var rBak: seq<nat>
    var l: seq<nat>
    var inBak: seq<nat>
    var outBak: seq<nat>
    var countR: nat
    var countL: nat
    ghost var owner: Owner

    ghost predicate Valid()
      reads this
    {
      && AllOwned(owner, [r, rBak, l, inBak, outBak], nextAddr)
      && |rBak| == |r| && |inBak| <= |r| && |outBak| <= |l|
    }

    ghost function Now(): Space
      reads this
    {
      Space(nextAddr, r, rBak, l, inBak, outBak)
    }

    constructor ()
      ensures Valid() && nextAddr == START
      ensures r == rBak == l == inBak == outBak == [] && countR == countL == 0
    {
      nextAddr := START;
      r, rBak, l, inBak, outBak := [], [], [], [], [];
      countR, countL := 0, 0;
      owner := map[];
    }

    /** The bump allocator: consecutive words from `nextAddr`; it fails past the end of the range. */
    method GetAddr(s: nat) returns (ok: bool, addr: seq<nat>)
      requires Valid()
      modifies this`nextAddr
      ensures Valid()
      ensures nextAddr == old(nextAddr) + 4 * Words(s)
      ensures ok <==> nextAddr <= END
      ensures addr == Run(old(nextAddr), if s == 0 then 1 else Words(s))
    {
      var size := Words(s) * 4;
      addr := [nextAddr];
      var i := 1;
      while i < size / 4
        invariant |addr| == i && (i == 1 || i <= size / 4)
        invariant forall k | 0 <= k < i :: addr[k] == nextAddr + 4 * k
      {
        addr := addr + [addr[i - 1] + 4];
        i := i + 1;
      }
      Skip(owner, [r, rBak, l, inBak, outBak], nextAddr, Words(s));
      nextAddr := nextAddr + size;
      ok := nextAddr <= END;
    }

    /** Two allocations in a row. */
    method GetTwo(bytes: nat) returns (ok: bool, a: seq<nat>, b: seq<nat>)
      requires Valid() && bytes >= 1
      modifies this`nextAddr
      ensures Valid() && old(nextAddr) <= nextAddr
      ensures ok <==> nextAddr <= END
      ensures var n, w := old(nextAddr), Words(bytes);
              ok ==> nextAddr == n + 8 * w && a == Run(n, w) && b == Run(n + 4 * w, w)
    {
      b := [];
      ok, a := GetAddr(bytes);
      if !ok { return; }
      ok, b := GetAddr(bytes);
    }

    /** Three allocations in a row. */
    method GetThree(bytes: nat) returns (ok: bool, a: seq<nat>, b: seq<nat>, c: seq<nat>)
      requires Valid() && bytes >= 1
      modifies this`nextAddr
      ensures Valid() && old(nextAddr) <= nextAddr
      ensures ok <==> nextAddr <= END
      ensures var n, w := old(nextAddr), Words(bytes);
              ok ==> nextAddr == n + 12 * w && a == Run(n, w) && b == Run(n + 4 * w, w) && c == Run(n + 8 * w, w)
    {
      c := [];
      ok, a, b := GetTwo(bytes);
      if !ok { return; }
      ok, c := GetAddr(bytes);
    }

    /** New R blocks, each with a backup block and a block to save the original input in. */
    method AddReadBlocks(bytes: nat) returns (ok: bool)
      requires Valid() && bytes >= 1
      modifies this`nextAddr, this`r, this`rBak, this`inBak, this`owner
      ensures Valid() && old(nextAddr) <= nextAddr && |old(inBak)| <= |inBak|
      ensures ok <==> nextAddr <= END
      ensures ok ==>
                && old(r) <= r && old(inBak) <= inBak
                && |r| == |old(r)| + Words(bytes) && |inBak| == |old(inBak)| + Words(bytes)
      ensures ok ==> Now() == AddRead(old(Now()), Words(bytes))
      ensures ok ==> var n, w := old(nextAddr), Words(bytes);
                     && r == old(r) + Run(n, w) && rBak == old(rBak) + Run(n + 4 * w, w)
                     && inBak == old(inBak) + Run(n + 8 * w, w) && nextAddr == n + 12 * w
    {
      ghost var owner' := GrowThree(owner, r, rBak, l, inBak, outBak, nextAddr, Words(bytes));
      var f, bak, saved;
      ok, f, bak, saved := GetThree(bytes);
      if !ok { return; }
      r := r + f;
      rBak := rBak + bak;
      inBak := inBak + saved;
      owner := owner';
    }

    /** New L blocks, each with a block to save the original output in. */
    method AddWriteBlocks(bytes: nat) returns (ok: bool)
      requires Valid() && bytes >= 1
      modifies this`nextAddr, this`l, this`outBak, this`owner
      ensures Valid() && old(nextAddr) <= nextAddr
      ensures ok <==> nextAddr <= END
      ensures ok ==>
                && old(l) <= l && old(outBak) <= outBak
                && |l| == |old(l)| + Words(bytes) && |outBak| == |old(outBak)| + Words(bytes)
      ensures ok ==> Now() == AddWrite(old(Now()), Words(bytes))
      ensures ok ==> var n, w := old(nextAddr), Words(bytes);
                     l == old(l) + Run(n, w) && outBak == old(outBak) + Run(n + 4 * w, w) && nextAddr == n + 8 * w
    {
      ghost var lists := [r, rBak, l, inBak, outBak];
      ghost var owner' := GrowTwo(owner, lists, nextAddr, 2, 4, Words(bytes));
      var f, bak;
      ok, f, bak := GetTwo(bytes);
      if !ok { return; }
      assert lists[2 := l + f][4 := outBak + bak] == [r, rBak, l + f, inBak, outBak + bak];
      l := l + f;
      outBak := outBak + bak;
      owner := owner';
    }

    /** One more R block with its backup, for exception data. */
    method AddPaddingR() returns (ok: bool)
      requires Valid()
      modifies this`nextAddr, this`r, this`rBak, this`owner
      ensures Valid() && old(nextAddr) <= nextAddr
      ensures ok <==> nextAddr <= END
      ensures ok ==> old(r) <= r && |r| == |old(r)| + 1 && Now() == PadR(old(Now()))
    {
      ghost var lists := [r, rBak, l, inBak, outBak];
      ghost var owner' := GrowTwo(owner, lists, nextAddr, 0, 1, 1);
      var f, bak;
      ok, f, bak := GetTwo(4);
      if !ok { return; }
      assert lists[0 := r + f][1 := rBak + bak] == [r + f, rBak + bak, l, inBak, outBak];
      r := r + f;
      rBak := rBak + bak;
      owner := owner';
    }

    /** More L blocks only: for exception data, and to match R. */
    method AddPaddingL(bytes: nat) returns (ok: bool)
      requires Valid() && bytes >= 1
      modifies this`nextAddr, this`l, this`owner
      ensures Valid() && old(nextAddr) <= nextAddr
      ensures ok <==> nextAddr <= END
      ensures ok ==> old(l) <= l && |l| == |old(l)| + Words(bytes) && Now() == PadL(old(Now()), Words(bytes))
    {
      var f;
      ok, f := GetAddr(bytes);
      if !ok { return; }
      ghost var lists := [r, rBak, l, inBak, outBak];
      Grow(owner, lists, old(nextAddr), 2, Words(bytes));
      assert lists[2 := l + f] == [r, rBak, l + f, inBak, outBak];
      owner := Claim(owner, 2, |l|, old(nextAddr), Words(bytes));
      l := l + f;
    }

    /** Memory operands look up an R block for each word, registers only the first one. */
    method UseReadBlocks(mem: bool, w: nat) returns (ok: bool)
      requires |inBak| <= |r| && w >= 1
      modifies this`countR
      ensures old(countR) + w <= |inBak| ==> ok
      ensures ok ==> countR == old(countR) + w
    {
      if !mem {
        if countR >= |r| || countR >= |inBak| {
          return false;
        }
        countR := countR + w;
        return true;
      }
      for j := 0 to w
        invariant countR == old(countR) + j
      {
        if countR >= |r| || countR >= |inBak| {
          return false;
        }
        countR := countR + 1;
      }
      ok := true;
    }

    /** Three allocations whose addresses nobody uses. */
    method WasteBlocks(bytes: nat) returns (ok: bool)
      requires Valid()
      modifies this`nextAddr
      ensures Valid() && old(nextAddr) <= nextAddr
      ensures ok <==> nextAddr <= END
    {
      var unused;
      ok, unused := GetAddr(bytes);
      if !ok { return; }
      ok, unused := GetAddr(bytes);
      if !ok { return; }
      ok, unused := GetAddr(bytes);
    }

    /**
     A read operand: its words take the next R blocks.  The first test case allocates them; later
     ones reuse them, and fail when there are none left.
     */
    method HandleRead(op: Operand, isInit: bool) returns (ok: bool)
      requires Valid() && (op.mem ==> op.bytes >= 1)
      requires isInit ==> countR == |r| == |inBak|
      modifies this`nextAddr, this`r, this`rBak, this`inBak, this`owner, this`countR
      ensures Valid() && old(nextAddr) <= nextAddr
      ensures ok && old(nextAddr) <= END ==> nextAddr <= END
      ensures !ok ==> nextAddr > END || (!isInit && op.isRead && old(countR) + Words(op.bytes) > |inBak|)
      ensures ok ==> countR == old(countR) + (if op.isRead then Words(op.bytes) else 0)
      ensures ok && isInit ==> countR == |r| == |inBak|
      ensures !isInit ==> r == old(r) && rBak == old(rBak) && inBak == old(inBak)
      ensures ok && isInit ==> Now() == ReadSpace(op, old(Now()))
    {
      ok := true;
      if !op.isRead || op.bytes == 0 {
        return;
      }
      var w := Words(op.bytes);
      if isInit {
        ok := AddReadBlocks(op.bytes);
        if !ok { return; }
      } else if op.mem {
        ok := WasteBlocks(op.bytes);
        if !ok { return; }
      }
      ok := UseReadBlocks(op.mem, w);
    }

    /** R grows, with backups, until it has at least `n` blocks. */
    method GrowR(n: nat) returns (ok: bool)
      requires Valid()
      modifies this`nextAddr, this`r, this`rBak, this`inBak, this`owner
      ensures Valid() && old(nextAddr) <= nextAddr && |old(inBak)| <= |inBak|
      ensures ok && old(nextAddr) <= END ==> nextAddr <= END
      ensures !ok ==> nextAddr > END
      ensures ok ==> old(r) <= r && |r| == Max(|old(r)|, n)
      ensures n <= |old(r)| ==> ok && r == old(r) && rBak == old(rBak) && inBak == old(inBak)
      ensures ok ==> Now() == Grown(old(Now()), Missing(|old(r)|, n))
    {
      ok := true;
      while n > |r|
        invariant Valid() && old(nextAddr) <= nextAddr && |old(inBak)| <= |inBak| && old(r) <= r
        invariant |r| == |old(r)| || |r| <= n
        invariant |r| >= |old(r)| && Now() == Grown(old(Now()), |r| - |old(r)|)
        invariant n <= |old(r)| ==> r == old(r) && rBak == old(rBak) && inBak == old(inBak)
        invariant old(nextAddr) <= END ==> nextAddr <= END
        decreases n - |r|
      {
        ok := AddReadBlocks(4);
        if !ok { return; }
      }
    }

    /** The blocks for a written operand are there, or the test case cannot be compiled. */
    method ReserveWrite(op: Operand, isInit: bool) returns (ok: bool)
      requires Valid() && op.bytes >= 1
      requires if isInit then countL == |l| == |outBak| else |l| == |r|
      modifies this`nextAddr, this`r, this`rBak, this`l, this`inBak, this`outBak, this`owner
      ensures Valid() && old(nextAddr) <= nextAddr && |old(inBak)| <= |inBak|
      ensures ok && old(nextAddr) <= END ==> nextAddr <= END
      ensures !ok ==> nextAddr > END || (!isInit && countL + Words(op.bytes) > |outBak|)
      ensures ok ==> old(l) <= l && old(r) <= r && countL + Words(op.bytes) <= |l| && countL + Words(op.bytes) <= |r|
      ensures ok && isInit ==> |l| == |outBak| == countL + Words(op.bytes) && |r| == Max(|old(r)|, |l|)
      ensures !isInit ==> l == old(l) && outBak == old(outBak)
      ensures ok && !isInit ==> r == old(r) && rBak == old(rBak) && inBak == old(inBak)
      ensures ok && isInit ==>
                var w := Words(op.bytes);
                Now() == Grown(AddWrite(old(Now()), w), Missing(|old(r)|, |old(l)| + w))
    {
      var w := Words(op.bytes);
      if isInit {
        ok := AddWriteBlocks(op.bytes);
        if !ok { return; }
      } else if countL >= |l| {
        return false;
      }
      ok := GrowR(countL + w);
      if !ok { return; }
      if countL + w > |l| || (if op.mem then countL + w > |outBak| else countL >= |outBak|) {
        return false;
      }
    }

    /** A written operand takes the next blocks, R growing as needed. */
    method HandleWrite(op: Operand, isInit: bool, plan: seq<Piece>) returns (ok: bool, plan': seq<Piece>)
      requires Valid() && (op.mem ==> op.bytes >= 1) && countL <= |l| && countL <= |r|
      requires if isInit then countL == |l| == |outBak| else |l| == |r|
      modifies this`nextAddr, this`r, this`rBak, this`l, this`inBak, this`outBak, this`owner, this`countL
      ensures Valid() && old(nextAddr) <= nextAddr && |old(inBak)| <= |inBak|
      ensures ok && old(nextAddr) <= END ==> nextAddr <= END
      ensures !ok ==> nextAddr > END || (!isInit && op.isWritten && old(countL) + Words(op.bytes) > |outBak|)
      ensures ok ==> countL == old(countL) + (if op.isWritten then Words(op.bytes) else 0) <= |l| && countL <= |r|
      ensures ok ==> plan' == NextPlan(op, old(countL), plan)
      ensures ok && isInit ==> countL == |l| == |outBak| && |r| == Max(|old(r)|, countL)
      ensures !isInit ==> l == old(l) && outBak == old(outBak)
      ensures ok && !isInit ==> r == old(r) && rBak == old(rBak) && inBak == old(inBak)
      ensures ok && isInit ==> Now() == WriteSpace(op, old(Now()))
    {
      ok, plan' := true, plan;
      if !op.isWritten || op.bytes == 0 {
        return;
      }
      ok := ReserveWrite(op, isInit);
      if !ok { return; }
      plan' := if op.flags && !op.mem then [Piece(op, countL)] + plan else plan + [Piece(op, countL)];
      countL := countL + Words(op.bytes);
    }

    /** All read operands of one kind, in operand order. */
    method ReadPhase(ops: seq<Operand>, mem: bool, isInit: bool) returns (ok: bool)
      requires Valid() && ValidOperands(ops)
      requires isInit ==> countR == |r| == |inBak|
      modifies this`nextAddr, this`r, this`rBak, this`inBak, this`owner, this`countR
      ensures Valid() && old(nextAddr) <= nextAddr
      ensures ok && old(nextAddr) <= END ==> nextAddr <= END
      ensures !ok ==> nextAddr > END || (!isInit && old(countR) + ReadWords(ops, mem) > |inBak|)
      ensures ok ==> countR == old(countR) + ReadWords(ops, mem)
      ensures ok && isInit ==> countR == |r| == |inBak|
      ensures !isInit ==> r == old(r) && rBak == old(rBak) && inBak == old(inBak)
      ensures ok && isInit ==> Now() == ReadsSpace(ops, mem, old(Now()))
    {
      for i := 0 to |ops|
        invariant Valid() && old(nextAddr) <= nextAddr
        invariant old(nextAddr) <= END ==> nextAddr <= END
        invariant countR == old(countR) + ReadWords(ops[..i], mem)
        invariant isInit ==> countR == |r| == |inBak|
        invariant isInit ==> Now() == ReadsSpace(ops[..i], mem, old(Now()))
        invariant !isInit ==> r == old(r) && rBak == old(rBak) && inBak == old(inBak)
      {
        assert ops[..i + 1][..i] == ops[..i];
        ReadWordsGrow(ops, mem, i + 1);
        if ops[i].mem == mem {
          ok := HandleRead(ops[i], isInit);
          if !ok { return; }
        }
      }
      assert ops[..|ops|] == ops;
      ok := true;
    }

    /** Where the write phase stands after the first `i` operands, having started at `start`. */
    ghost predicate Writing(ops: seq<Operand>, mem: bool, i: nat, isInit: bool, plan: seq<Piece>, start: Writes)
      reads this
      requires i <= |ops|
    {
      && Valid() && start.p.next <= nextAddr && |start.p.inBak| <= |inBak|
      && (start.p.next <= END ==> nextAddr <= END)
      && Written(ops, mem, i, isInit, start, Writes(Now(), countL, plan))
    }

    method WriteOne(ops: seq<Operand>, mem: bool, i: nat, isInit: bool, plan: seq<Piece>, ghost start: Writes)
      returns (ok: bool, plan': seq<Piece>)
      requires i < |ops| && ValidOperands(ops) && Writing(ops, mem, i, isInit, plan, start)
      modifies this`nextAddr, this`r, this`rBak, this`l, this`inBak, this`outBak, this`owner, this`countL
      ensures ok ==> Writing(ops, mem, i + 1, isInit, plan', start)
      ensures Valid() && old(nextAddr) <= nextAddr && |old(inBak)| <= |inBak|
      ensures !ok ==> nextAddr > END || (!isInit && start.count + WriteWords(ops, mem) > |outBak|)
      ensures !isInit ==> l == old(l) && outBak == old(outBak)
    {
      ok, plan' := true, plan;
      WriteWordsGrow(ops, mem, i + 1);
      PlanStep(ops, mem, i, start.count, start.plan);
      if ops[i].mem == mem {
        ok, plan' := HandleWrite(ops[i], isInit, plan);
      }
      if ok {
        WrittenStep(ops, mem, i, isInit, start, Writes(old(Now()), old(countL), plan), Writes(Now(), countL, plan'));
      }
    }

    /** All written operands of one kind, in operand order. */
    method WritePhase(ops: seq<Operand>, mem: bool, isInit: bool, plan: seq<Piece>)
      returns (ok: bool, plan': seq<Piece>)
      requires Valid() && ValidOperands(ops) && countL <= |l| && countL <= |r|
      requires if isInit then countL == |l| == |outBak| else |l| == |r|
      modifies this`nextAddr, this`r, this`rBak, this`l, this`inBak, this`outBak, this`owner, this`countL
      ensures Valid() && old(nextAddr) <= nextAddr && |old(inBak)| <= |inBak|
      ensures ok && old(nextAddr) <= END ==> nextAddr <= END
      ensures !ok ==> nextAddr > END || (!isInit && old(countL) + WriteWords(ops, mem) > |outBak|)
      ensures ok ==> countL == old(countL) + WriteWords(ops, mem) <= |l| && countL <= |r|
      ensures ok ==> plan' == PlanOf(ops, mem, old(countL), plan)
      ensures ok && isInit ==> countL == |l| == |outBak| && |r| == Max(|old(r)|, countL)
      ensures !isInit ==> l == old(l) && outBak == old(outBak)
      ensures ok && !isInit ==> r == old(r) && rBak == old(rBak) && inBak == old(inBak)
      ensures ok && isInit ==> Now() == WritesSpace(ops, mem, old(Now()))
    {
      plan' := plan;
      ghost var start := Writes(Now(), countL, plan);
      for i := 0 to |ops|
        invariant Writing(ops, mem, i, isInit, plan', start)
      {
        ok, plan' := WriteOne(ops, mem, i, isInit, plan', start);
        if !ok { return; }
      }
      assert ops[..|ops|] == ops;
      ok := true;
    }

    /** After the first test case's operands: blocks for exception data, R and L brought to the same length. */
    method EvenOut(isInit: bool) returns (ok: bool)
      requires Valid() && (!isInit ==> |l| == |r|)
      modifies this`nextAddr, this`r, this`rBak, this`l, this`owner
      ensures Valid() && old(nextAddr) <= nextAddr
      ensures ok && old(nextAddr) <= END ==> nextAddr <= END
      ensures !ok ==> nextAddr > END
      ensures ok ==> old(l) <= l && old(r) <= r && |l| == |r|
      ensures ok && isInit ==> |l| == Max(|old(l)| + 2, |old(r)|)
      ensures !isInit ==> ok && l == old(l) && r == old(r) && rBak == old(rBak)
      ensures ok && isInit ==> Now() == EvenL(EvenR(PadL(old(Now()), 2)))
    {
      ok := true;
      if !isInit {
        return;
      }
      ok := AddPaddingL(8);
      if !ok { return; }
      while |r| < |l|
        invariant Valid() && old(nextAddr) <= nextAddr && old(l) <= l && old(r) <= r
        invariant nextAddr <= END
        invariant |l| == |old(l)| + 2 && (|r| == |old(r)| || |r| <= |l|)
        invariant EvenR(Now()) == EvenR(PadL(old(Now()), 2))
        decreases |l| - |r|
      {
        ok := AddPaddingR();
        if !ok { return; }
      }
      while |l| < |r|
        invariant Valid() && old(nextAddr) <= nextAddr && old(l) <= l && old(r) <= r
        invariant nextAddr <= END
        invariant |l| <= |r| == Max(|old(l)| + 2, |old(r)|)
        invariant EvenL(Now()) == EvenL(EvenR(PadL(old(Now()), 2)))
        decreases |r| - |l|
      {
        ok := AddPaddingL(4);
        if !ok { return; }
      }
    }

    /** All reads: registers before memory. */
    method HandleReads(ops: seq<Operand>, isInit: bool) returns (ok: bool)
      requires Valid() && ValidOperands(ops) && countR == 0
      requires isInit ==> r == inBak == []
      modifies this`nextAddr, this`r, this`rBak, this`inBak, this`owner, this`countR
      ensures Valid() && old(nextAddr) <= nextAddr
      ensures ok && old(nextAddr) <= END ==> nextAddr <= END
      ensures !ok ==> nextAddr > END || (!isInit && AllRead(ops) > |inBak|)
      ensures ok ==> countR == AllRead(ops)
      ensures ok && isInit ==> countR == |r| == |inBak|
      ensures !isInit ==> r == old(r) && rBak == old(rBak) && inBak == old(inBak)
      ensures ok && isInit ==> Now() == ReadsSpace(ops, true, ReadsSpace(ops, false, old(Now())))
    {
      ok := ReadPhase(ops, false, isInit);
      if !ok { return; }
      ok := ReadPhase(ops, true, isInit);
    }

    /** All writes: registers before memory. */
    method HandleWrites(ops: seq<Operand>, isInit: bool) returns (ok: bool, plan: seq<Piece>)
      requires Valid() && ValidOperands(ops) && countL == 0
      requires if isInit then l == outBak == [] else |l| == |r|
      modifies this`nextAddr, this`r, this`rBak, this`l, this`inBak, this`outBak, this`owner, this`countL
      ensures Valid() && old(nextAddr) <= nextAddr && |old(inBak)| <= |inBak|
      ensures ok && old(nextAddr) <= END ==> nextAddr <= END
      ensures !ok ==> nextAddr > END || (!isInit && |AllWritten(ops)| > |outBak| + 2)
      ensures ok ==> countL == |AllWritten(ops)| - 2 <= |l| && countL <= |r| && plan == AllPieces(ops)
      ensures ok && isInit ==> countL == |l| == |outBak| && |r| == Max(|old(r)|, countL)
      ensures !isInit ==> l == old(l) && outBak == old(outBak)
      ensures ok && !isInit ==> r == old(r) && rBak == old(rBak) && inBak == old(inBak)
      ensures ok && isInit ==> Now() == WritesSpace(ops, true, WritesSpace(ops, false, old(Now())))
    {
      WidthPerWord(ops, false);
      WidthPerWord(ops, true);
      ok, plan := WritePhase(ops, false, isInit, []);
      if !ok { return; }
      ok, plan := WritePhase(ops, true, isInit, plan);
    }

    /** Reads before writes, registers before memory. */
    method HandleOperands(ops: seq<Operand>, isInit: bool) returns (ok: bool, plan: seq<Piece>)
      requires Valid() && ValidOperands(ops) && countR == countL == 0
      requires if isInit then r == l == inBak == outBak == [] else |l| == |r|
      modifies this
      ensures Valid() && old(nextAddr) <= nextAddr
      ensures ok && old(nextAddr) <= END ==> nextAddr <= END
      ensures !ok ==> nextAddr > END ||
                      (!isInit && (AllRead(ops) > |old(inBak)| || |AllWritten(ops)| > |old(outBak)| + 2))
      ensures ok ==> countR == AllRead(ops) && countL == |AllWritten(ops)| - 2 <= |l| && countL <= |r|
      ensures ok ==> plan == AllPieces(ops)
      ensures ok && isInit ==> countL == |l| == |outBak| && |r| == Max(countR, countL) && |inBak| >= countR
      ensures !isInit ==> l == old(l) && outBak == old(outBak)
      ensures ok && !isInit ==> r == old(r) && rBak == old(rBak) && inBak == old(inBak)
      ensures ok && isInit ==> Now() == OperandSpace(ops, old(Now()))
    {
      plan := [];
      ok := HandleReads(ops, isInit);
      if !ok { return; }
      ok, plan := HandleWrites(ops, isInit);
    }

    /**
     The code of one test case.  The first test case lays out the blocks: R, its backup and L get as many
     as the test case reads or writes, counting two for exception data.  Later test cases reuse them
     and fail only when they need more than there are.  Block counters return to zero.
     */
    method GenRoot(ops: seq<Operand>, isInit: bool) returns (ok: bool, code: StoreCode)
      requires Valid() && ValidOperands(ops) && countR == countL == 0
      requires if isInit then r == l == inBak == outBak == [] else |l| == |r|
      modifies this
      ensures Valid() && old(nextAddr) <= nextAddr
      ensures ok && old(nextAddr) <= END ==> nextAddr <= END
      ensures !ok ==> nextAddr > END ||
                      (!isInit && (AllRead(ops) > |old(inBak)| || |AllWritten(ops)| > |old(outBak)| + 2
                                   || Served(ops) > |old(l)|))
      ensures ok ==> countR == countL == 0 && Served(ops) <= |l| && ValidLayout(Layout(l, r, rBak))
      ensures ok ==> code == RoundStores(ops, Layout(l, r, rBak))
      ensures ok && TestCaseFits(ops, Layout(l, r, rBak)) ==> FoldsAlways(code, ops, Layout(l, r, rBak))
      ensures ok && isInit ==> |l| == Served(ops) && |inBak| >= AllRead(ops) && |outBak| + 2 == |AllWritten(ops)|
      ensures ok && !isInit ==>
                r == old(r) && rBak == old(rBak) && l == old(l) && inBak == old(inBak) && outBak == old(outBak)
      ensures ok && isInit ==> Now() == FirstSpace(ops, old(Now()))
    {
      code := StoreCode([], [], []);
      var plan;
      ok, plan := HandleOperands(ops, isInit);
      if !ok { return; }
      ok := EvenOut(isInit);
      if !ok { return; }
      if countL + 2 > |l| || countR > |l| {
        return false, code;
      }
      LayoutIsValid();
      code := Generate(ops, plan, Layout(l, r, rBak), countL, countR);
      countL, countR := 0, 0;
      FittingCodeFolds(ops, Layout(l, r, rBak));
    }

    lemma {:induction false} LayoutIsValid()
      requires Valid() && |l| == |r|
      ensures ValidLayout(Layout(l, r, rBak))
    {
      var lists := [r, rBak, l, inBak, outBak];
      assert Owned(owner, lists[0], 0) && Owned(owner, lists[1], 1) && Owned(owner, lists[2], 2);
      OwnedApart(owner, l, 2, r, 0);
      OwnedApart(owner, l, 2, rBak, 1);
      OwnedApart(owner, r, 0, rBak, 1);
      OwnedApart(owner, rBak, 1, l, 2);
    }
  }
}

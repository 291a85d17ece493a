/**
 The kernel's exception handlers: they record the exception and make the test-case task resume at the
 label the test case left in the return-point cell.
 */
module Handlers {
  import opened Paging

  /** The cells, by physical address; their paged names lie 16 MB higher. */
  const RETP_CELL: nat := 0x28d008
  const ERROR_CELL: nat := 0x28d00c
  const VECTOR_CELL: nat := 0x28d010
  const BUDGET_CELL: nat := 0x280000

  /** Vectors with a task gate to one of the modelled handlers. */
  predicate Handled(v: nat) {
    v <= 19
  }

  predicate Redirects(v: nat) {
    Handled(v) && v != 2 && v != 5
  }

  /** These vectors count down a budget, and halt the machine when it is used up. */
  predicate CountsDown(v: nat) {
    v == 10 || v == 11
  }

  predicate PopsErrorCode(v: nat) {
    v == 8 || (10 <= v <= 14) || v == 17
  }

  /** The number a handler stores for its vector. */
  function Recorded(v: nat, paging: bool): nat {
    if v == 12 then 11
    else if v == 15 && paging then 10
    else v
  }

  /** Which vectors redirect, count down and come with an error code. */
  lemma {:induction false} VectorsExactly(v: nat)
    ensures Redirects(v) <==> v in {0, 1, 3, 4, 6, 7, 8, 9, 10, 11, 12, 13, 14, 15, 16, 17, 18, 19}
    ensures CountsDown(v) <==> v in {10, 11}
    ensures PopsErrorCode(v) <==> v in {8, 10, 11, 12, 13, 14, 17}
  {
  }

  /** The recorded number identifies the vector, but for 11 and 12, and for 10 and 15 when paged. */
  lemma {:induction false} RecordedExactlyWhen(v: nat, w: nat, paging: bool)
    requires Redirects(v) && Redirects(w)
    ensures Recorded(v, paging) == Recorded(w, paging) <==>
            v == w || {v, w} == {11, 12} || (paging && {v, w} == {10, 15})
  {
    assert {v, w} == {11, 12} <==> (v == 11 && w == 12) || (v == 12 && w == 11);
    assert {v, w} == {10, 15} <==> (v == 10 && w == 15) || (v == 15 && w == 10);
  }

  function Store(m: Memory, a: nat, value: nat): Memory {
    (x: nat) => if x == a then value else m(x)
  }

  function Decrement(x: nat): nat {
    if x == 0 then 0xffff_ffff else x - 1
  }

  /** The two ways a handler names a cell: directly, and through the folded address space. */
  lemma {:induction false} BothNamesMeetTheCell(paging: bool, cell: nat)
    requires cell < RAM
    ensures Phys(paging, if paging then BIT24 + cell else cell) == cell
  {
    assert (BIT24 + cell) % RAM == cell;
  }

  class Kernel {
    /** CR0.PG, which a task switch does not change. */
    var paging: bool
    var mem: Memory
    var eip: nat
    var halted: bool

    /**
     A handler: whatever the paging mode, execution resumes at the label in the return-point cell, and
     nothing but the exception data and the budget changes.  Vectors 10 and 11 take one from the budget, and halt the
     machine at zero.  The number stored is that of the vector, but for 12 and, while paged, 15.
     */
    method Handle(v: nat, errorCode: nat)
      requires Handled(v)
      modifies this`mem, this`eip, this`halted
      ensures var counts := v == 10 || v == 11;
              var left := Decrement(old(mem(0x280000)));
              && halted == (old(halted) || (counts && left == 0))
              && mem(0x280000) == (if counts then left else old(mem(0x280000)))
              && (v != 2 && v != 5 && (counts ==> left != 0) ==>
                    && eip == old(mem(0x28d008))
                    && mem(0x28d010) == (if v == 12 then 11 else if v == 15 && paging then 10 else v)
                    && (v in {8, 10, 11, 12, 13, 14, 17} ==> mem(0x28d00c) == errorCode))
      ensures !Redirects(v) ==> eip == old(eip) && mem == old(mem)
      ensures v !in {8, 10, 11, 12, 13, 14, 17} ==> mem(0x28d00c) == old(mem(0x28d00c))
      ensures forall a | a != VECTOR_CELL && a != ERROR_CELL && a != BUDGET_CELL :: mem(a) == old(mem(a))
    {
      if v == 2 || v == 5 {
        return;
      }
      if CountsDown(v) {
        BothNamesMeetTheCell(paging, BUDGET_CELL);
        var left := Decrement(mem(Phys(paging, 0x280000)));
        mem := Store(mem, Phys(paging, 0x280000), left);
        if left == 0 {
          halted := true;
          return;
        }
      }
      BothNamesMeetTheCell(paging, RETP_CELL);
      BothNamesMeetTheCell(paging, VECTOR_CELL);
      BothNamesMeetTheCell(paging, ERROR_CELL);
      if !paging {
        if PopsErrorCode(v) {
          mem := Store(mem, Phys(false, 0x28d00c), errorCode);
        }
        mem := Store(mem, Phys(false, 0x28d010), Recorded(v, false));
        eip := mem(Phys(false, 0x28d008));
      } else {
        if PopsErrorCode(v) {
          mem := Store(mem, Phys(true, 0x128d00c), errorCode);
        }
        mem := Store(mem, Phys(true, 0x128d010), Recorded(v, true));
        eip := mem(Phys(true, 0x128d008));
      }
    }
  }
}

/**
 Addresses that follow the paging mode: the generator keeps them in their high form while a test case
 runs paged and in their low form while it runs unpaged.
 */
module AddressForms {
  import opened Feistel
  import opened Paging

  /** High form: 16 MB above the cell.  Low form: the cell itself. */
  predicate InForm(paged: bool, a: nat) {
    if paged then BIT24 <= a < BIT24 + RAM else a < RAM
  }

  ghost predicate AllInForm(paged: bool, s: seq<nat>) {
    forall i | 0 <= i < |s| :: InForm(paged, s[i])
  }

  function Flipped(s: seq<nat>): (f: seq<nat>)
    ensures |f| == |s| && forall i | 0 <= i < |s| :: f[i] == Flip(s[i])
  {
    seq(|s|, i requires 0 <= i < |s| => Flip(s[i]))
  }

  /** Flipping an address in its form gives the other form of the same cell. */
  lemma {:induction false} FlipForm(paged: bool, a: nat)
    requires InForm(paged, a)
    ensures InForm(!paged, Flip(a)) && Flip(Flip(a)) == a
    ensures Phys(!paged, Flip(a)) == Phys(paged, a)
  {
    if paged {
      assert (a - BIT24 + BIT24) % RAM == a - BIT24;
    } else {
      assert (a + BIT24) % RAM == a;
    }
  }

  lemma {:induction false} FlippedForm(paged: bool, s: seq<nat>)
    requires AllInForm(paged, s)
    ensures AllInForm(!paged, Flipped(s)) && Flipped(Flipped(s)) == s
  {
    forall i | 0 <= i < |s|
      ensures InForm(!paged, Flipped(s)[i]) && Flip(Flip(s[i])) == s[i]
    {
      FlipForm(paged, s[i]);
    }
  }

  method FlipList(s: seq<nat>) returns (f: seq<nat>)
    ensures f == Flipped(s)
  {
    f := s;
    for i := 0 to |s|
      invariant |f| == |s|
      invariant forall k | 0 <= k < i :: f[k] == Flip(s[k])
      invariant forall k | i <= k < |s| :: f[k] == s[k]
    {
      f := f[i := Flip(f[i])];
    }
  }

  /** Which list freshly allocated words join. */
  datatype BlockList = RList | RBakList | LList | InList | OutList

  /** Words from the allocator on their way into a list. */
  datatype Join = Join(to: BlockList, words: seq<nat>)

  /** All addresses a section can have been generated with. */
  datatype Book = Book(r: seq<nat>, rBak: seq<nat>, l: seq<nat>, inBak: seq<nat>, outBak: seq<nat>,
                       retp: nat, edata: nat, counter: nat)

  ghost predicate BookInForm(paged: bool, b: Book) {
    && AllInForm(paged, b.r) && AllInForm(paged, b.rBak) && AllInForm(paged, b.l) && AllInForm(paged, b.inBak)
    && InForm(paged, b.retp) && InForm(paged, b.edata) && InForm(paged, b.counter)
  }

  /** The saved outputs are not flipped. */
  function FlippedBook(b: Book): Book {
    Book(Flipped(b.r), Flipped(b.rBak), Flipped(b.l), Flipped(b.inBak), b.outBak, Flip(b.retp), Flip(b.edata),
         Flip(b.counter))
  }

  lemma {:induction false} FlippedBookForm(paged: bool, b: Book)
    requires BookInForm(paged, b)
    ensures BookInForm(!paged, FlippedBook(b)) && FlippedBook(FlippedBook(b)) == b
  {
    FlippedForm(paged, b.r);
    FlippedForm(paged, b.rBak);
    FlippedForm(paged, b.l);
    FlippedForm(paged, b.inBak);
    FlipForm(paged, b.retp);
    FlipForm(paged, b.edata);
    FlipForm(paged, b.counter);
  }

  /** The paging bit of CR0. */
  predicate PagingBit(cr0: nat) {
    cr0 / 0x80000000 % 2 == 1
  }

  /** It is the highest bit of the register. */
  lemma {:induction false} PagingBitIsHighest(w: Block)
    ensures PagingBit(Value(w)) <==> w.b3 & 0x80 == 0x80
  {
    HighestBit(w.b3);
    ByteBound(w.b0);
    ByteBound(w.b1);
    ByteBound(w.b2);
    ByteBound(w.b3);
    HighestOfNumber(w.b0 as nat, w.b1 as nat, w.b2 as nat, w.b3 as nat);
  }

  lemma {:induction false} HighestBit(b: bv8)
    ensures b & 0x80 == 0x80 <==> b as nat >= 0x80
  {
  }

  lemma {:induction false} HighestOfNumber(b0: nat, b1: nat, b2: nat, b3: nat)
    requires b0 < 0x100 && b1 < 0x100 && b2 < 0x100 && b3 < 0x100
    ensures PagingBit(Number(b0, b1, b2, b3)) <==> b3 >= 0x80
  {
  }

  /** Some gadget of the test case loads CR0 with paging off. */
  predicate ClearsPaging(cr0s: seq<nat>) {
    exists i | 0 <= i < |cr0s| :: !PagingBit(cr0s[i])
  }

  class AddressBook {
    var paged: bool
    var r: seq<nat>
    var rBak: seq<nat>
    var l: seq<nat>
    var inBak: seq<nat>
    var outBak: seq<nat>
    var retp: nat
    var edata: nat
    var countAddr: nat
    var nextAddr: nat
    var startAddr: nat
    var endAddr: nat

    /** The addresses in force. */
    function Current(): Book
      reads this
    {
      Book(r, rBak, l, inBak, outBak, retp, edata, countAddr)
    }

    /** The range that is left to the allocator. */
    function Range(): (nat, nat, nat)
      reads this
    {
      (nextAddr, startAddr, endAddr)
    }

    /** All addresses but those of the saved outputs are in the form of the current mode. */
    ghost predicate LockStep()
      reads this
    {
      BookInForm(paged, Current()) && InForm(paged, nextAddr) && InForm(paged, startAddr) && InForm(paged, endAddr)
    }

    constructor ()
      ensures LockStep() && paged
      ensures retp == 0x128d008 && edata == 0x128d00c && startAddr == 0x128d014 && endAddr == 0x13fffff
      ensures r == rBak == l == inBak == outBak == [] && countAddr == startAddr && nextAddr == startAddr + 4
    {
      paged := true;
      retp, edata, startAddr, endAddr := 0x128d008, 0x128d00c, 0x128d014, 0x13fffff;
      countAddr, nextAddr := 0x128d014, 0x128d018;
      r, rBak, l, inBak, outBak := [], [], [], [], [];
    }

    /** The block lists but the saved outputs, and the single addresses, change form. */
    method FlipAddrs()
      modifies this`r, this`rBak, this`l, this`inBak, this`retp, this`edata, this`countAddr,
               this`nextAddr, this`startAddr, this`endAddr
      ensures Current() == FlippedBook(old(Current()))
      ensures r == Flipped(old(r)) && rBak == Flipped(old(rBak)) && l == Flipped(old(l)) && inBak == Flipped(old(inBak))
      ensures outBak == old(outBak)
      ensures retp == Flip(old(retp)) && edata == Flip(old(edata)) && countAddr == Flip(old(countAddr))
      ensures nextAddr == Flip(old(nextAddr)) && startAddr == Flip(old(startAddr)) && endAddr == Flip(old(endAddr))
    {
      var r', rBak', l', inBak';
      r' := FlipList(r);
      rBak' := FlipList(rBak);
      l' := FlipList(l);
      inBak' := FlipList(inBak);
      r, rBak, l, inBak := r', rBak', l', inBak';
      retp, edata, countAddr := Flip(retp), Flip(edata), Flip(countAddr);
      nextAddr, startAddr, endAddr := Flip(nextAddr), Flip(startAddr), Flip(endAddr);
    }

    /** Mode and form change together; changing them twice changes nothing. */
    method Toggle()
      requires LockStep()
      modifies this
      ensures LockStep() && paged == !old(paged) && Current() == FlippedBook(old(Current()))
      ensures FlippedBook(Current()) == old(Current())
      ensures (Flip(nextAddr), Flip(startAddr), Flip(endAddr)) == old(Range())
    {
      FlippedBookForm(paged, Current());
      FlipForm(paged, nextAddr);
      FlipForm(paged, startAddr);
      FlipForm(paged, endAddr);
      paged := !paged;
      FlipAddrs();
    }

    /** The form of the generator follows the first load of CR0 with paging off, and no later one. */
    method LoadCr0s(cr0s: seq<nat>)
      requires LockStep() && paged
      modifies this
      ensures LockStep() && paged == !ClearsPaging(cr0s)
      ensures if paged then Current() == old(Current()) && Range() == old(Range())
              else && Current() == FlippedBook(old(Current())) && FlippedBook(Current()) == old(Current())
                   && (Flip(nextAddr), Flip(startAddr), Flip(endAddr)) == old(Range())
    {
      for k := 0 to |cr0s|
        invariant LockStep() && paged == !ClearsPaging(cr0s[..k])
        invariant if paged then Current() == old(Current()) && Range() == old(Range())
                  else && Current() == FlippedBook(old(Current())) && FlippedBook(Current()) == old(Current())
                       && (Flip(nextAddr), Flip(startAddr), Flip(endAddr)) == old(Range())
      {
        OneMoreLoad(cr0s, k);
        if !PagingBit(cr0s[k]) {
          if paged {
            Toggle();
          }
        }
      }
      assert cr0s[..|cr0s|] == cr0s;
    }

    /** Freshly allocated words join one list. */
    method Append(j: Join)
      requires LockStep() && paged && AllInForm(true, j.words)
      modifies this`r, this`rBak, this`l, this`inBak, this`outBak
      ensures LockStep() && Current() == Joined(old(Current()), [j])
      ensures Extends(old(Current()), Current(), [j])
    {
      JoinedExactly(Current(), [j]);
      assert [j][..0] == [];
      match j.to {
        case RList => r := r + j.words;
        case RBakList => rBak := rBak + j.words;
        case LList => l := l + j.words;
        case InList => inBak := inBak + j.words;
        case OutList => outBak := outBak + j.words;
      }
    }

    /**
     Generating one test case: blocks are allocated, and the code around the tested instruction is generated, with the
     `early` addresses; then come the gadgets that set registers, CR0 among them, and then the return-point stores
     and the loop, with the `late` addresses.  The early ones are high and come back; the late ones are low exactly
     when a gadget switched paging off.
     */
    method TestCase(joins: seq<Join>, cr0s: seq<nat>) returns (early: Book, late: Book)
      requires LockStep() && paged && forall i | 0 <= i < |joins| :: AllInForm(true, joins[i].words)
      modifies this
      ensures LockStep() && paged && Current() == early == Joined(old(Current()), joins) && Range() == old(Range())
      ensures Extends(old(Current()), early, joins)
      ensures BookInForm(true, early) && BookInForm(!ClearsPaging(cr0s), late)
      ensures late == if ClearsPaging(cr0s) then FlippedBook(early) else early
    {
      for k := 0 to |joins|
        invariant LockStep() && paged && Current() == Joined(old(Current()), joins[..k]) && Range() == old(Range())
      {
        Append(joins[k]);
        JoinOne(old(Current()), joins, k);
      }
      assert joins[..|joins|] == joins;
      JoinedExactly(old(Current()), joins);
      early := Current();
      LoadCr0s(cr0s);
      late := Current();
      if !paged {
        Toggle();
      }
    }
  }

  lemma {:induction false} OneMoreLoad(cr0s: seq<nat>, k: nat)
    requires k < |cr0s|
    ensures ClearsPaging(cr0s[..k + 1]) <==> ClearsPaging(cr0s[..k]) || !PagingBit(cr0s[k])
  {
    var a, b := cr0s[..k], cr0s[..k + 1];
    if ClearsPaging(a) {
      var i :| 0 <= i < |a| && !PagingBit(a[i]);
      assert b[i] == a[i];
    }
    assert b[k] == cr0s[k];
    if ClearsPaging(b) {
      var i :| 0 <= i < |b| && !PagingBit(b[i]);
      assert i < k ==> a[i] == b[i];
    }
  }

  /** A book with words appended to its lists, one after the other. */
  function Joined(b: Book, joins: seq<Join>): Book {
    if joins == [] then b
    else
      var c, j := Joined(b, joins[..|joins| - 1]), joins[|joins| - 1];
      match j.to
      case RList => c.(r := c.r + j.words)
      case RBakList => c.(rBak := c.rBak + j.words)
      case LList => c.(l := c.l + j.words)
      case InList => c.(inBak := c.inBak + j.words)
      case OutList => c.(outBak := c.outBak + j.words)
  }

  /** The words that join one of the lists. */
  function WordsFor(joins: seq<Join>, to: BlockList): seq<nat> {
    if joins == [] then []
    else
      var j := joins[|joins| - 1];
      WordsFor(joins[..|joins| - 1], to) + (if j.to == to then j.words else [])
  }

  /** Each list has grown by the words meant for it, in order, and the single cells are the same. */
  ghost predicate Extends(b: Book, c: Book, joins: seq<Join>) {
    && c.r == b.r + WordsFor(joins, RList) && c.rBak == b.rBak + WordsFor(joins, RBakList)
    && c.l == b.l + WordsFor(joins, LList)
    && c.inBak == b.inBak + WordsFor(joins, InList) && c.outBak == b.outBak + WordsFor(joins, OutList)
    && c.retp == b.retp && c.edata == b.edata && c.counter == b.counter
  }

  lemma {:induction false} JoinedExactly(b: Book, joins: seq<Join>)
    ensures Extends(b, Joined(b, joins), joins)
  {
    if joins != [] {
      JoinedExactly(b, joins[..|joins| - 1]);
    }
  }

  lemma {:induction false} JoinOne(b: Book, joins: seq<Join>, k: nat)
    requires k < |joins|
    ensures Joined(b, joins[..k + 1]) == Joined(Joined(b, joins[..k]), [joins[k]])
  {
    assert joins[..k + 1][..k] == joins[..k];
    assert [joins[k]][..0] == [];
  }

  // ---------------------------------------------------------------------------------------------
  // Which cell an address reaches
  // ---------------------------------------------------------------------------------------------

  /** The address names the cell it stands for. */
  predicate Reaches(paged: bool, a: nat, cell: nat) {
    Phys(paged, a) == cell
  }

  /** An address generated in one form reaches its cell exactly when the code runs paged or the form is the low one. */
  lemma {:induction false} ReachesExactlyWhen(cell: nat, high: bool, paged: bool)
    requires cell < RAM
    ensures var a := if high then Flip(cell) else cell;
            InForm(high, a) && (Reaches(paged, a, cell) <==> paged || !high)
  {
    FlippedCell(cell, paged);
  }
}

/**
 The kernel's page tables, which fold the whole linear address space onto 4 MB of memory, and the
 addresses that rely on it.
 */
module Paging {
  import opened Feistel

  const PAGE: nat := 0x1000
  const RAM: nat := 0x400000
  const LINEAR: nat := 0x1_0000_0000

  /** The page part of an address or entry, and the flags 0x7: present, writable, user. */
  function Frame(e: nat): nat {
    e / PAGE * PAGE
  }

  predicate Present(e: nat) { e % 2 == 1 }
  predicate Writable(e: nat) { e / 2 % 2 == 1 }
  predicate User(e: nat) { e / 4 % 2 == 1 }

  /** The number that a 32-bit word holds. */
  function Value(w: Block): nat {
    Number(w.b0 as nat, w.b1 as nat, w.b2 as nat, w.b3 as nat)
  }

  function Number(b0: nat, b1: nat, b2: nat, b3: nat): nat {
    b0 + 0x100 * b1 + 0x10000 * b2 + 0x1000000 * b3
  }

  lemma {:induction false} ByteBound(b: bv8)
    ensures b as nat < 0x100
  {
  }

  /** A page table entry: the bits of the mask 0xfffff000 and the flags 0x7. */
  function Entry(w: Block): Block {
    Block(0x7, w.b1 & 0xf0, w.b2, w.b3)
  }

  lemma {:induction false} HighNibble(b: bv8)
    ensures (b & 0xf0) as nat == (b as nat) / 0x10 * 0x10
  {
  }

  lemma {:induction false} EntryValue(w: Block)
    ensures Value(Entry(w)) == Number(0x7, (w.b1 & 0xf0) as nat, w.b2 as nat, w.b3 as nat)
  {
  }

  /** Masking an address and or-ing the flags in gives its frame plus the flags. */
  lemma {:induction false} EntryBits(w: Block)
    ensures Value(Entry(w)) == Frame(Value(w)) + 0x7
  {
    HighNibble(w.b1);
    ByteBound(w.b0);
    EntryValue(w);
    FrameOfNumber(w.b0 as nat, w.b1 as nat, (w.b1 & 0xf0) as nat, w.b2 as nat, w.b3 as nat);
  }

  lemma {:induction false} Bit0(b: bv8)
    ensures (b & 1) as nat == b as nat % 2
  {
  }

  lemma {:induction false} Bit1(b: bv8)
    ensures (b & 2) as nat == b as nat / 2 % 2 * 2
  {
  }

  lemma {:induction false} Bit2(b: bv8)
    ensures (b & 4) as nat == b as nat / 4 % 2 * 4
  {
  }

  lemma {:induction false} HalfOfNumber(e: nat, low: nat, rest: nat)
    requires e == low + 0x100 * rest
    ensures e % 2 == low % 2 && e / 2 == low / 2 + 0x80 * rest
  {
  }

  lemma {:induction false} Even(low: nat, rest: nat)
    ensures (low + 2 * rest) % 2 == low % 2
  {
  }

  lemma {:induction false} FlagsOfNumber(e: nat, low: nat, rest: nat)
    requires e == low + 0x100 * rest
    ensures e % 2 == low % 2 && e / 2 % 2 == low / 2 % 2 && e / 4 % 2 == low / 4 % 2
  {
    HalfOfNumber(e, low, rest);
    Even(low / 2, 0x40 * rest);
    assert e / 4 == low / 4 + 0x40 * rest;
    Even(low / 4, 0x20 * rest);
  }

  /** The flags are the three lowest bits. */
  lemma {:induction false} FlagBits(w: Block)
    ensures Present(Value(w)) <==> (w.b0 & 1) as nat == 1
    ensures Writable(Value(w)) <==> (w.b0 & 2) as nat == 2
    ensures User(Value(w)) <==> (w.b0 & 4) as nat == 4
  {
    Bit0(w.b0);
    Bit1(w.b0);
    Bit2(w.b0);
    FlagsOfNumber(Value(w), w.b0 as nat, w.b1 as nat + 0x100 * w.b2 as nat + 0x10000 * w.b3 as nat);
  }

  lemma {:induction false} FrameOfNumber(b0: nat, b1: nat, c1: nat, b2: nat, b3: nat)
    requires b0 < 0x100 && c1 == b1 / 0x10 * 0x10
    ensures Number(0x7, c1, b2, b3) == Frame(Number(b0, b1, b2, b3)) + 0x7
  {
    FrameOf(Number(b0, b1, b2, b3), b1 / 0x10 + 0x10 * b2 + 0x1000 * b3, b0 + 0x100 * (b1 % 0x10));
  }

  lemma {:induction false} FrameOf(a: nat, page: nat, offset: nat)
    requires a == PAGE * page + offset && offset < PAGE
    ensures Frame(a) == PAGE * page
  {
  }

  /**
   All directory entries point to the same table, whose entries map consecutive pages.
   */
  method SetPage(pDir: array<nat>, pTab: array<nat>, tabAddr: nat)
    requires pDir.Length == 1024 && pTab.Length == 1024 && pDir != pTab
    modifies pDir, pTab
    ensures SharedDirectory(pDir[..], tabAddr) && IdentityTable(pTab[..])
  {
    var i := 0;
    while i < 1024
      invariant 0 <= i <= 1024
      invariant forall k | 0 <= k < i :: pDir[k] == Frame(tabAddr) + 0x7
    {
      pDir[i] := Frame(tabAddr) + 0x7;
      i := i + 1;
    }
    var addr := 0;
    while addr < RAM
      invariant 0 <= addr <= RAM && addr % PAGE == 0
      invariant forall k | 0 <= k < 1024 :: pDir[k] == Frame(tabAddr) + 0x7
      invariant forall k | 0 <= k < addr / PAGE :: pTab[k] == k * PAGE + 0x7
    {
      pTab[addr / PAGE % 1024] := addr + 0x7;
      addr := addr + PAGE;
    }
  }

  ghost predicate SharedDirectory(dir: seq<nat>, tabAddr: nat) {
    |dir| == 1024 && forall k | 0 <= k < 1024 :: dir[k] == Frame(tabAddr) + 0x7
  }

  ghost predicate IdentityTable(tab: seq<nat>) {
    |tab| == 1024 && forall k | 0 <= k < 1024 :: tab[k] == k * PAGE + 0x7
  }

  // ---------------------------------------------------------------------------------------------
  // The walk: section 4.3 of volume 3A of the Intel architecture manual, 4 KB pages
  // ---------------------------------------------------------------------------------------------

  type Memory = nat -> nat

  ghost predicate Holds(m: Memory, base: nat, words: seq<nat>) {
    forall k | 0 <= k < |words| :: m(base + 4 * k) == words[k]
  }

  datatype Translation = PageFault | Mapped(phys: nat, writable: bool, user: bool)

  function Walk(m: Memory, dir: nat, la: nat): Translation {
    var pde := m(dir + 4 * (la / RAM));
    if !Present(pde) then PageFault
    else
      var pte := m(Frame(pde) + 4 * (la / PAGE % 1024));
      if !Present(pte) then PageFault
      else Mapped(Frame(pte) + la % PAGE, Writable(pde) && Writable(pte), User(pde) && User(pte))
  }

  lemma {:induction false} FieldsOfAddress(d: nat, t: nat, offset: nat, la: nat)
    requires t < 1024 && offset < 4096 && la == 0x400000 * d + 0x1000 * t + offset
    ensures la / RAM == d && la / PAGE % 1024 == t && la % PAGE == offset
  {
    assert la / PAGE == 1024 * d + t;
  }

  /** The fields of an address: ten bits for the directory, ten for the table, and twelve inside the page. */
  lemma {:induction false} WalkByFields(m: Memory, dir: nat, d: nat, t: nat, offset: nat, pde: nat, pte: nat,
      table: nat, page: nat)
    requires d < 1024 && t < 1024 && offset < 4096
    requires table % 4096 == 0 && table <= pde < table + 4096 && page % 4096 == 0 && page <= pte < page + 4096
    requires m(dir + 4 * d) == pde && m(table + 4 * t) == pte
    ensures Walk(m, dir, 0x400000 * d + 0x1000 * t + offset) ==
            if Present(pde) && Present(pte)
            then Mapped(page + offset, Writable(pde) && Writable(pte), User(pde) && User(pte)) else PageFault
  {
    FieldsOfAddress(d, t, offset, 0x400000 * d + 0x1000 * t + offset);
    FrameIs(pde, table);
    FrameIs(pte, page);
  }

  lemma {:induction false} FrameIs(e: nat, page: nat)
    requires page % 4096 == 0 && page <= e < page + 4096
    ensures Frame(e) == page
  {
    assert e / PAGE == page / PAGE;
  }

  /** Every linear address is present, writable and user, at its offset modulo 4 MB. */
  lemma {:induction false} WalkIsModulo(m: Memory, dirAddr: nat, dir: seq<nat>, tabAddr: nat, tab: seq<nat>, la: nat)
    requires SharedDirectory(dir, tabAddr) && IdentityTable(tab)
    requires Holds(m, dirAddr, dir) && Holds(m, tabAddr, tab) && tabAddr % PAGE == 0
    requires la < LINEAR
    ensures Walk(m, dirAddr, la) == Mapped(la % RAM, true, true)
  {
    var d, t := la / RAM, la / PAGE % 1024;
    EntryFields(tabAddr / PAGE);
    EntryFields(t);
    PageAndOffset(la);
    assert m(dirAddr + 4 * d) == dir[d] == tabAddr + 0x7;
    assert m(tabAddr + 4 * t) == tab[t] == t * PAGE + 0x7;
  }

  lemma {:induction false} EntryFields(k: nat)
    ensures Frame(k * PAGE) == k * PAGE
    ensures Frame(k * PAGE + 0x7) == k * PAGE
    ensures Present(k * PAGE + 0x7) && Writable(k * PAGE + 0x7) && User(k * PAGE + 0x7)
  {
    assert (k * 0x1000) / 0x1000 == k;
    assert (k * 0x1000 + 7) / 0x1000 == k;
    PresentFlag(k);
    WritableFlag(k);
    UserFlag(k);
  }

  lemma {:induction false} PresentFlag(k: nat)
    ensures (k * 0x1000 + 7) % 2 == 1
  {
  }

  lemma {:induction false} WritableFlag(k: nat)
    ensures (k * 0x1000 + 7) / 2 % 2 == 1
  {
    assert k * 0x1000 + 7 == 2 * (2 * (k * 0x400 + 1) + 1) + 1;
  }

  lemma {:induction false} UserFlag(k: nat)
    ensures (k * 0x1000 + 7) / 4 % 2 == 1
  {
    var h := k * 0x200;
    assert k * 0x1000 + 7 == 4 * (2 * h + 1) + 3;
    assert (4 * (2 * h + 1) + 3) / 4 == 2 * h + 1;
  }

  lemma {:induction false} PageAndOffset(la: nat)
    ensures la / PAGE % 1024 * PAGE + la % PAGE == la % RAM
  {
    var p := la / PAGE;
    assert la == PAGE * p + la % PAGE;
    assert p == 1024 * (p / 1024) + p % 1024;
    assert la == RAM * (p / 1024) + (p % 1024 * PAGE + la % PAGE);
  }

  // ---------------------------------------------------------------------------------------------
  // Two forms of an address
  // ---------------------------------------------------------------------------------------------

  const BIT24: nat := 0x1000000

  /** The physical cell an address names when paging is on (off). */
  function Phys(paging: bool, a: nat): nat {
    if paging then a % RAM else a
  }

  /** With the kernel's tables in place, that cell is where the walk leads. */
  lemma {:induction false} PagedCellIsWalked(m: Memory, dirAddr: nat, dir: seq<nat>, tabAddr: nat, tab: seq<nat>,
      a: nat)
    requires SharedDirectory(dir, tabAddr) && IdentityTable(tab)
    requires Holds(m, dirAddr, dir) && Holds(m, tabAddr, tab) && tabAddr % PAGE == 0
    requires a < LINEAR
    ensures Walk(m, dirAddr, a) == Mapped(Phys(true, a), true, true)
  {
    WalkIsModulo(m, dirAddr, dir, tabAddr, tab, a);
  }

  /** Exclusive or with 0x01000000. */
  function Flip(a: nat): nat {
    if a / BIT24 % 2 == 1 then a - BIT24 else a + BIT24
  }

  const BIT24_WORD: Block := Block(0, 0, 0, 1)

  lemma {:induction false} LowBit(b: bv8)
    ensures (b ^ 1) as nat == if (b as nat) % 2 == 1 then b as nat - 1 else b as nat + 1
  {
  }

  lemma {:induction false} FlippedNumber(b0: nat, b1: nat, b2: nat, b3: nat, c3: nat)
    requires b0 < 0x100 && b1 < 0x100 && b2 < 0x100 && c3 == if b3 % 2 == 1 then b3 - 1 else b3 + 1
    ensures Number(b0, b1, b2, c3) == Flip(Number(b0, b1, b2, b3))
  {
    assert Number(b0, b1, b2, b3) / BIT24 == b3;
  }

  /** The generator's exclusive or with 0x01000000 on 32-bit words is `Flip`. */
  lemma {:induction false} FlipIsXor(w: Block)
    ensures Value(Xor(w, BIT24_WORD)) == Flip(Value(w))
  {
    LowBit(w.b3);
    ByteBound(w.b0);
    ByteBound(w.b1);
    ByteBound(w.b2);
    assert Xor(w, BIT24_WORD) == Block(w.b0, w.b1, w.b2, w.b3 ^ 1);
    FlippedNumber(w.b0 as nat, w.b1 as nat, w.b2 as nat, w.b3 as nat, (w.b3 ^ 1) as nat);
  }

  /** With paging on both forms name the same cell; with paging off only the low form does. */
  lemma {:induction false} FlippedCell(a: nat, paging: bool)
    requires a < RAM
    ensures Flip(Flip(a)) == a
    ensures Phys(true, Flip(a)) == Phys(true, a) == Phys(false, a) == a
    ensures Phys(paging, Flip(a)) == a <==> paging
  {
    assert (a + BIT24) % RAM == a;
  }
}

/**
 Classifying the bytes of physical memory for symbolic execution: the page-table walk marks bytes as
 symbolic or concrete, and everything left over is made symbolic lazily.
 */
module SymbolicMemory {
  import opened Intervals
  import opened Paging

  const TABLE_SIZE: nat := 1024

  /**
   Whether a byte of a paging-structure entry is symbolic: only the flag byte of present entries is, and
   only when page tables are to be symbolic at all.
   */
  predicate SymbolicByte(m: Memory, symbolicTables: bool, a: nat) {
    symbolicTables && a % 4 == 0 && Present(m(a))
  }

  /** The kind of each byte, as a function of its physical address. */
  type Kind = nat -> bool

  function KindOf(m: Memory, symbolicTables: bool): Kind {
    (a: nat) => SymbolicByte(m, symbolicTables, a)
  }

  /** The bytes marked so far, by host address. */
  datatype Marks = Marks(symbolic: seq<int>, concrete: seq<int>)

  /** The marks `k` extend earlier ones, and no byte has been marked against its kind since. */
  ghost predicate Consistent(kind: Kind, base: nat, k0: Marks, k: Marks) {
    && |k0.symbolic| <= |k.symbolic| && |k0.concrete| <= |k.concrete|
    && (forall i | |k0.symbolic| <= i < |k.symbolic| :: k.symbolic[i] >= base && kind(k.symbolic[i] - base))
    && (forall i | |k0.concrete| <= i < |k.concrete| :: k.concrete[i] >= base && !kind(k.concrete[i] - base))
  }

  ghost predicate Marked(k: Marks, a: int) {
    a in k.symbolic || a in k.concrete
  }

  /** The byte at a physical address is marked, by its kind. */
  ghost predicate Placed(kind: Kind, k: Marks, base: nat, a: nat) {
    base + a in (if kind(a) then k.symbolic else k.concrete)
  }

  ghost predicate RangeMarked(kind: Kind, k: Marks, base: nat, a: nat, n: nat) {
    forall x: nat | a <= x < a + n :: Placed(kind, k, base, x)
  }

  ghost predicate WordMarked(kind: Kind, k: Marks, base: nat, a: nat) {
    RangeMarked(kind, k, base, a, 4)
  }

  /** What was marked stays marked. */
  ghost predicate Grows(k: Marks, k': Marks) {
    k.symbolic <= k'.symbolic && k.concrete <= k'.concrete
  }

  /** All marks added lie between two physical addresses. */
  ghost predicate Within(k: Marks, k': Marks, base: nat, low: nat, high: nat) {
    && (forall i | |k.symbolic| <= i < |k'.symbolic| :: base + low <= k'.symbolic[i] < base + high)
    && (forall i | |k.concrete| <= i < |k'.concrete| :: base + low <= k'.concrete[i] < base + high)
  }

  lemma {:induction false} WithinTransitively(k0: Marks, k1: Marks, k2: Marks, base: nat, low: nat, mid: nat, high: nat)
    requires Grows(k1, k2) && low <= mid <= high
    requires Within(k0, k1, base, low, mid) && Within(k1, k2, base, mid, high)
    ensures Within(k0, k2, base, low, high)
  {
  }

  lemma {:induction false} MarkStays(s: seq<int>, t: seq<int>, x: int)
    requires s <= t && x in s
    ensures x in t
  {
    var i :| 0 <= i < |s| && s[i] == x;
    assert t[i] == x;
  }

  lemma {:induction false} GrowsTransitively(k0: Marks, k1: Marks, k2: Marks)
    requires Grows(k0, k1) && Grows(k1, k2)
    ensures Grows(k0, k2)
  {
  }

  lemma {:induction false} StaysMarked(kind: Kind, k: Marks, k': Marks, base: nat, a: nat)
    requires Grows(k, k') && WordMarked(kind, k, base, a)
    ensures WordMarked(kind, k', base, a)
  {
    forall x: nat | a <= x < a + 4
      ensures Placed(kind, k', base, x)
    {
      assert Placed(kind, k, base, x);
      if kind(x) {
        MarkStays(k.symbolic, k'.symbolic, base + x);
      } else {
        MarkStays(k.concrete, k'.concrete, base + x);
      }
    }
  }

  /** The masks of an entry: the flag byte is free, the address bytes are fixed. */
  const ENTRY_MASKS: seq<nat> := [0x00, 0xff, 0xff, 0xff]

  /** The first `n` bytes from `a` on are marked, by their kind, and nothing else has been. */
  ghost predicate MarkedSoFar(kind: Kind, base: nat, k0: Marks, k: Marks, k': Marks, a: nat, n: nat) {
    && Consistent(kind, base, k0, k') && Grows(k, k')
    && RangeMarked(kind, k', base, a, n) && Within(k, k', base, a, a + n)
  }

  function WithByte(k: Marks, haddr: nat, free: bool): Marks {
    if free then k.(symbolic := k.symbolic + [haddr]) else k.(concrete := k.concrete + [haddr])
  }

  lemma {:induction false} OneMoreByte(kind: Kind, base: nat, k0: Marks, k: Marks, k': Marks, a: nat, i: nat,
      free: bool)
    requires MarkedSoFar(kind, base, k0, k, k', a, i) && (kind(a + i) <==> free)
    ensures MarkedSoFar(kind, base, k0, k, WithByte(k', base + a + i, free), a, i + 1)
  {
    var k2 := WithByte(k', base + a + i, free);
    forall x: nat | a <= x < a + i + 1
      ensures Placed(kind, k2, base, x)
    {
      assert x < a + i ==> Placed(kind, k', base, x);
    }
    ByteIsConsistent(kind, base, k0, k', a + i, free);
  }

  lemma {:induction false} ByteIsConsistent(kind: Kind, base: nat, k0: Marks, k: Marks, x: nat, free: bool)
    requires Consistent(kind, base, k0, k) && (kind(x) <==> free)
    ensures Consistent(kind, base, k0, WithByte(k, base + x, free))
  {
  }

  /** The bytes whose mask leaves bits free are symbolic, the others concrete. */
  method MakeMemSymbolic(k: Marks, base: nat, a: nat, masks: seq<nat>, ghost kind: Kind, ghost k0: Marks)
    returns (k': Marks)
    requires Consistent(kind, base, k0, k) && forall x: nat | a <= x < a + |masks| :: kind(x) <==> masks[x - a] < 0xff
    ensures MarkedSoFar(kind, base, k0, k, k', a, |masks|)
  {
    k' := k;
    for i := 0 to |masks|
      invariant MarkedSoFar(kind, base, k0, k, k', a, i)
    {
      OneMoreByte(kind, base, k0, k, k', a, i, masks[i] < 0xff);
      k' := WithByte(k', base + a + i, masks[i] < 0xff);
    }
  }

  method MakeMemConcrete(k: Marks, base: nat, a: nat, size: nat, ghost kind: Kind, ghost k0: Marks) returns (k': Marks)
    requires Consistent(kind, base, k0, k) && forall x: nat | a <= x < a + size :: !kind(x)
    ensures MarkedSoFar(kind, base, k0, k, k', a, size)
  {
    k' := k;
    for i := 0 to size
      invariant MarkedSoFar(kind, base, k0, k, k', a, i)
    {
      OneMoreByte(kind, base, k0, k, k', a, i, false);
      k' := WithByte(k', base + a + i, false);
    }
  }

  lemma {:induction false} EntryBytes(m: Memory, symbolicTables: bool, a: nat)
    requires a % 4 == 0
    ensures var kind := KindOf(m, symbolicTables);
            forall x: nat | a <= x < a + 4 :: kind(x) <==> x == a && symbolicTables && Present(m(a))
  {
    assert (a + 1) % 4 == 1 && (a + 2) % 4 == 2 && (a + 3) % 4 == 3;
  }

  /** One entry of a paging structure. */
  method MarkEntry(m: Memory, symbolicTables: bool, base: nat, a: nat, k: Marks, ghost k0: Marks) returns (k': Marks)
    requires a % 4 == 0 && Consistent(KindOf(m, symbolicTables), base, k0, k)
    ensures Consistent(KindOf(m, symbolicTables), base, k0, k') && Grows(k, k')
    ensures WordMarked(KindOf(m, symbolicTables), k', base, a)
    ensures Within(k, k', base, a, a + 4)
  {
    EntryBytes(m, symbolicTables, a);
    ghost var kind := KindOf(m, symbolicTables);
    if Present(m(a)) && symbolicTables {
      k' := MakeMemSymbolic(k, base, a, ENTRY_MASKS, kind, k0);
    } else {
      k' := MakeMemConcrete(k, base, a, 4, kind, k0);
    }
  }

  ghost predicate TableMarked(kind: Kind, k: Marks, base: nat, table: nat, n: nat) {
    forall j: nat | j < n :: WordMarked(kind, k, base, table + 4 * j)
  }

  lemma {:induction false} TableStaysMarked(kind: Kind, k: Marks, k': Marks, base: nat, table: nat, n: nat)
    requires Grows(k, k') && TableMarked(kind, k, base, table, n)
    ensures TableMarked(kind, k', base, table, n)
  {
    forall j: nat | j < n
      ensures WordMarked(kind, k', base, table + 4 * j)
    {
      StaysMarked(kind, k, k', base, table + 4 * j);
    }
  }

  /** All entries of one page table. */
  method MarkTable(m: Memory, symbolicTables: bool, base: nat, table: nat, k: Marks, ghost k0: Marks)
    returns (k': Marks)
    requires table % 4 == 0 && Consistent(KindOf(m, symbolicTables), base, k0, k)
    ensures Consistent(KindOf(m, symbolicTables), base, k0, k') && Grows(k, k')
    ensures TableMarked(KindOf(m, symbolicTables), k', base, table, TABLE_SIZE)
    ensures Within(k, k', base, table, table + PAGE)
  {
    k' := k;
    for j := 0 to TABLE_SIZE
      invariant Consistent(KindOf(m, symbolicTables), base, k0, k') && Grows(k, k')
      invariant TableMarked(KindOf(m, symbolicTables), k', base, table, j)
      invariant Within(k, k', base, table, table + 4 * j)
    {
      ghost var before := k';
      assert (table + 4 * j) % 4 == 0;
      k' := MarkEntry(m, symbolicTables, base, table + 4 * j, k', k0);
      WithinTransitively(k, before, k', base, table, table + 4 * j, table + 4 * (j + 1));
      OneMoreMarked(KindOf(m, symbolicTables), before, k', k', base, table, j);
    }
  }

  function EntryAt(m: Memory, table: nat, i: nat): nat {
    m(table + 4 * i)
  }

  /** The tables of the first `n` directory entries, where present, are done. */
  ghost predicate TablesDone(m: Memory, cr3: nat, n: nat, done: set<nat>) {
    forall i: nat | i < n && Present(EntryAt(m, cr3, i)) :: Frame(EntryAt(m, cr3, i)) in done
  }

  lemma {:induction false} OneMoreDone(m: Memory, cr3: nat, i: nat, done: set<nat>, done': set<nat>)
    requires TablesDone(m, cr3, i, done) && done <= done'
    requires Present(EntryAt(m, cr3, i)) ==> Frame(EntryAt(m, cr3, i)) in done'
    ensures TablesDone(m, cr3, i + 1, done')
  {
  }

  ghost predicate DoneMarked(kind: Kind, k: Marks, base: nat, done: set<nat>) {
    forall table | table in done :: TableMarked(kind, k, base, table, TABLE_SIZE)
  }

  lemma {:induction false} DoneStaysMarked(kind: Kind, k: Marks, k': Marks, base: nat, done: set<nat>)
    requires Grows(k, k') && DoneMarked(kind, k, base, done)
    ensures DoneMarked(kind, k', base, done)
  {
    forall table | table in done
      ensures TableMarked(kind, k', base, table, TABLE_SIZE)
    {
      TableStaysMarked(kind, k, k', base, table, TABLE_SIZE);
    }
  }

  /** A table that several directory entries share is marked once. */
  method MarkTableOnce(m: Memory, symbolicTables: bool, base: nat, table: nat, done: set<nat>, k: Marks,
      ghost k0: Marks)
    returns (k': Marks, done': set<nat>)
    requires table % 4 == 0 && Consistent(KindOf(m, symbolicTables), base, k0, k)
    requires DoneMarked(KindOf(m, symbolicTables), k, base, done)
    ensures Consistent(KindOf(m, symbolicTables), base, k0, k') && Grows(k, k')
    ensures done' == done + {table} && DoneMarked(KindOf(m, symbolicTables), k', base, done')
    ensures Within(k, k', base, table, table + PAGE)
  {
    k', done' := k, done;
    if table !in done {
      k' := MarkTable(m, symbolicTables, base, table, k, k0);
      DoneStaysMarked(KindOf(m, symbolicTables), k, k', base, done);
      done' := done + {table};
    }
  }

  lemma {:induction false} Aligned(cr3: nat, i: nat, entry: nat)
    requires cr3 % 4 == 0
    ensures (cr3 + 4 * i) % 4 == 0 && Frame(entry) % 4 == 0
  {
    FourTimes(entry / PAGE * 0x400);
    FourTimes(cr3 / 4 + i);
  }

  lemma {:induction false} FourTimes(k: nat)
    ensures (4 * k) % 4 == 0
  {
  }

  /** The physical address belongs to the directory or to a table in use. */
  ghost predicate InTables(m: Memory, cr3: nat, x: int) {
    || cr3 <= x < cr3 + PAGE
    || exists i: nat | i < TABLE_SIZE && Present(EntryAt(m, cr3, i)) ::
         Frame(EntryAt(m, cr3, i)) <= x < Frame(EntryAt(m, cr3, i)) + PAGE
  }

  /** All marks added are bytes of the directory or of a table in use. */
  ghost predicate OnlyTables(m: Memory, cr3: nat, base: nat, k: Marks, k': Marks) {
    && (forall i | |k.symbolic| <= i < |k'.symbolic| :: InTables(m, cr3, k'.symbolic[i] - base))
    && (forall i | |k.concrete| <= i < |k'.concrete| :: InTables(m, cr3, k'.concrete[i] - base))
  }

  lemma {:induction false} RangeInTables(m: Memory, cr3: nat, base: nat, k: Marks, k': Marks, low: nat, high: nat)
    requires Within(k, k', base, low, high) && forall x | low <= x < high :: InTables(m, cr3, x)
    ensures OnlyTables(m, cr3, base, k, k')
  {
    forall i | |k.symbolic| <= i < |k'.symbolic|
      ensures InTables(m, cr3, k'.symbolic[i] - base)
    {
      assert low <= k'.symbolic[i] - base < high;
    }
    forall i | |k.concrete| <= i < |k'.concrete|
      ensures InTables(m, cr3, k'.concrete[i] - base)
    {
      assert low <= k'.concrete[i] - base < high;
    }
  }

  lemma {:induction false} OnlyTablesTransitively(m: Memory, cr3: nat, base: nat, k0: Marks, k1: Marks, k2: Marks)
    requires Grows(k1, k2) && OnlyTables(m, cr3, base, k0, k1) && OnlyTables(m, cr3, base, k1, k2)
    ensures OnlyTables(m, cr3, base, k0, k2)
  {
  }

  lemma {:induction false} EntryAndTable(m: Memory, cr3: nat, base: nat, i: nat, k: Marks, k1: Marks, k2: Marks)
    requires i < TABLE_SIZE && Grows(k1, k2) && Within(k, k1, base, cr3 + 4 * i, cr3 + 4 * i + 4)
    requires if Present(EntryAt(m, cr3, i))
             then var table := Frame(EntryAt(m, cr3, i)); Within(k1, k2, base, table, table + PAGE)
             else k2 == k1
    ensures OnlyTables(m, cr3, base, k, k2)
  {
    RangeInTables(m, cr3, base, k, k1, cr3 + 4 * i, cr3 + 4 * i + 4);
    if Present(EntryAt(m, cr3, i)) {
      var table := Frame(EntryAt(m, cr3, i));
      RangeInTables(m, cr3, base, k1, k2, table, table + PAGE);
    }
    OnlyTablesTransitively(m, cr3, base, k, k1, k2);
  }

  lemma {:induction false} OneMoreMarked(kind: Kind, k: Marks, k1: Marks, k2: Marks, base: nat, table: nat, i: nat)
    requires Grows(k, k1) && Grows(k1, k2)
    requires TableMarked(kind, k, base, table, i) && WordMarked(kind, k1, base, table + 4 * i)
    ensures Grows(k, k2) && TableMarked(kind, k2, base, table, i + 1)
  {
    GrowsTransitively(k, k1, k2);
    TableStaysMarked(kind, k, k2, base, table, i);
    StaysMarked(kind, k1, k2, base, table + 4 * i);
  }

  /** One directory entry and, unless it was done before, its table. */
  method MarkDirectoryEntry(m: Memory, cr3: nat, symbolicTables: bool, base: nat, i: nat, done: set<nat>, k: Marks,
      ghost k0: Marks)
    returns (k': Marks, done': set<nat>)
    requires i < TABLE_SIZE && cr3 % 4 == 0 && Consistent(KindOf(m, symbolicTables), base, k0, k)
    requires TableMarked(KindOf(m, symbolicTables), k, base, cr3, i) && TablesDone(m, cr3, i, done)
    requires DoneMarked(KindOf(m, symbolicTables), k, base, done)
    ensures Consistent(KindOf(m, symbolicTables), base, k0, k') && Grows(k, k')
    ensures TableMarked(KindOf(m, symbolicTables), k', base, cr3, i + 1) && TablesDone(m, cr3, i + 1, done')
    ensures DoneMarked(KindOf(m, symbolicTables), k', base, done')
    ensures OnlyTables(m, cr3, base, k, k')
  {
    var pde := cr3 + 4 * i;
    var entry := EntryAt(m, cr3, i);
    Aligned(cr3, i, entry);
    done' := done;
    k' := MarkEntry(m, symbolicTables, base, pde, k, k0);
    DoneStaysMarked(KindOf(m, symbolicTables), k, k', base, done);
    ghost var before := k';
    if Present(entry) {
      k', done' := MarkTableOnce(m, symbolicTables, base, Frame(entry), done, k', k0);
    }
    OneMoreMarked(KindOf(m, symbolicTables), k, before, k', base, cr3, i);
    OneMoreDone(m, cr3, i, done, done');
    EntryAndTable(m, cr3, base, i, k, before, k');
  }

  /**
   The walk over the page directory.  A table that several entries share is marked once.  Every byte of
   the directory and of the tables in use is marked, and no byte ever gets two kinds of marks, even
   when a directory entry points back into the directory.
   */
  method MarkPageTables(m: Memory, cr3: nat, symbolicTables: bool, base: nat, k: Marks, ghost k0: Marks)
    returns (k': Marks)
    requires cr3 % 4 == 0 && Consistent(KindOf(m, symbolicTables), base, k0, k)
    ensures Consistent(KindOf(m, symbolicTables), base, k0, k') && Grows(k, k')
    ensures TableMarked(KindOf(m, symbolicTables), k', base, cr3, TABLE_SIZE)
    ensures forall i: nat | i < TABLE_SIZE && Present(EntryAt(m, cr3, i)) ::
              TableMarked(KindOf(m, symbolicTables), k', base, Frame(EntryAt(m, cr3, i)), TABLE_SIZE)
    ensures OnlyTables(m, cr3, base, k, k')
  {
    k' := k;
    var done: set<nat> := {};
    for i := 0 to TABLE_SIZE
      invariant Consistent(KindOf(m, symbolicTables), base, k0, k') && Grows(k, k') && OnlyTables(m, cr3, base, k, k')
      invariant TableMarked(KindOf(m, symbolicTables), k', base, cr3, i) && TablesDone(m, cr3, i, done)
      invariant DoneMarked(KindOf(m, symbolicTables), k', base, done)
    {
      ghost var before := k';
      k', done := MarkDirectoryEntry(m, cr3, symbolicTables, base, i, done, k', k0);
      OnlyTablesTransitively(m, cr3, base, k, before, k');
    }
    forall i: nat | i < TABLE_SIZE && Present(EntryAt(m, cr3, i))
      ensures TableMarked(KindOf(m, symbolicTables), k', base, Frame(EntryAt(m, cr3, i)), TABLE_SIZE)
    {
      assert Frame(EntryAt(m, cr3, i)) in done;
    }
  }

  /**
   Every byte of physical memory ends up in one of three classes.  To the marks made before the walk come those of the
   directory and of the tables in use: the flag bytes of present entries are symbolic if tables are, their other bytes
   are concrete.  All the rest remains.
   */
  method ClassifyMemory(m: Memory, cr3: nat, symbolicTables: bool, base: nat, size: nat, k0: Marks)
    returns (k: Marks, remaining: seq<Interval>)
    requires cr3 % 4 == 0
    ensures Grows(k0, k) && NewlyMarked(m, cr3, symbolicTables, base, k0, k)
    ensures forall a: nat | InTables(m, cr3, a) :: Placed(KindOf(m, symbolicTables), k, base, a)
    ensures forall a: nat | InTables(m, cr3, a) ::
              if symbolicTables && a % 4 == 0 && m(a) % 2 == 1 then base + a in k.symbolic else base + a in k.concrete
    ensures forall a | base <= a < base + size :: Covers(remaining, a) <==> !Marked(k, a)
    ensures forall a | Covers(remaining, a) :: base <= a < base + size
    ensures Proper(remaining) && Separated(remaining)
  {
    k := MarkPageTables(m, cr3, symbolicTables, base, k0, k0);
    TablesAreMarked(m, cr3, KindOf(m, symbolicTables), base, k);
    MarksAreNew(m, cr3, symbolicTables, base, k0, k);
    remaining := ComputeMissingLocs(base, size, k.symbolic, k.concrete);
  }

  /** The host address of a byte of the tables, of the given kind. */
  ghost predicate TableByte(m: Memory, cr3: nat, symbolicTables: bool, base: nat, a: int, symbolic: bool) {
    a >= base && InTables(m, cr3, a - base) && SymbolicByte(m, symbolicTables, a - base) == symbolic
  }

  /** What has been marked since is in the tables, and marked by its kind. */
  ghost predicate NewlyMarked(m: Memory, cr3: nat, symbolicTables: bool, base: nat, k0: Marks, k: Marks) {
    && (forall a | a in k.symbolic && a !in k0.symbolic ::
          TableByte(m, cr3, symbolicTables, base, a, true))
    && (forall a | a in k.concrete && a !in k0.concrete ::
          TableByte(m, cr3, symbolicTables, base, a, false))
  }

  lemma {:induction false} AddedMark(s: seq<int>, t: seq<int>, a: int) returns (i: nat)
    requires s <= t && a in t && a !in s
    ensures |s| <= i < |t| && t[i] == a
  {
    var rest := t[|s|..];
    assert t == s + rest && a in rest;
    var j: nat :| j < |rest| && rest[j] == a;
    i := |s| + j;
  }

  lemma {:induction false} SymbolicMarkIsNew(m: Memory, cr3: nat, symbolicTables: bool, base: nat, k0: Marks,
      k: Marks, a: int)
    requires Consistent(KindOf(m, symbolicTables), base, k0, k) && Grows(k0, k) && OnlyTables(m, cr3, base, k0, k)
    requires a in k.symbolic && a !in k0.symbolic
    ensures TableByte(m, cr3, symbolicTables, base, a, true)
  {
    var i := AddedMark(k0.symbolic, k.symbolic, a);
    assert KindOf(m, symbolicTables)(k.symbolic[i] - base);
  }

  lemma {:induction false} ConcreteMarkIsNew(m: Memory, cr3: nat, symbolicTables: bool, base: nat, k0: Marks,
      k: Marks, a: int)
    requires Consistent(KindOf(m, symbolicTables), base, k0, k) && Grows(k0, k) && OnlyTables(m, cr3, base, k0, k)
    requires a in k.concrete && a !in k0.concrete
    ensures TableByte(m, cr3, symbolicTables, base, a, false)
  {
    var i := AddedMark(k0.concrete, k.concrete, a);
    assert !KindOf(m, symbolicTables)(k.concrete[i] - base);
  }

  lemma {:induction false} MarksAreNew(m: Memory, cr3: nat, symbolicTables: bool, base: nat, k0: Marks, k: Marks)
    requires Consistent(KindOf(m, symbolicTables), base, k0, k) && Grows(k0, k) && OnlyTables(m, cr3, base, k0, k)
    ensures NewlyMarked(m, cr3, symbolicTables, base, k0, k)
  {
    forall a | a in k.symbolic && a !in k0.symbolic
      ensures TableByte(m, cr3, symbolicTables, base, a, true)
    {
      SymbolicMarkIsNew(m, cr3, symbolicTables, base, k0, k, a);
    }
    forall a | a in k.concrete && a !in k0.concrete
      ensures TableByte(m, cr3, symbolicTables, base, a, false)
    {
      ConcreteMarkIsNew(m, cr3, symbolicTables, base, k0, k, a);
    }
  }

  /** Earlier marks of a byte agree with each other and, in the tables, with its kind. */
  ghost predicate Compatible(m: Memory, cr3: nat, symbolicTables: bool, base: nat, k0: Marks, a: nat) {
    && !(base + a in k0.symbolic && base + a in k0.concrete)
    && (InTables(m, cr3, a) && base + a in k0.symbolic ==> SymbolicByte(m, symbolicTables, a))
    && (InTables(m, cr3, a) && base + a in k0.concrete ==> !SymbolicByte(m, symbolicTables, a))
  }

  /** A byte ends up marked in one way only exactly when its earlier marks are compatible with the walk. */
  lemma {:induction false} MarkedOneWayExactlyWhen(m: Memory, cr3: nat, symbolicTables: bool, base: nat, k0: Marks,
      k: Marks, a: nat)
    requires Grows(k0, k) && NewlyMarked(m, cr3, symbolicTables, base, k0, k)
    requires InTables(m, cr3, a) ==> Placed(KindOf(m, symbolicTables), k, base, a)
    ensures !(base + a in k.symbolic && base + a in k.concrete) <==> Compatible(m, cr3, symbolicTables, base, k0, a)
    ensures Marked(k, base + a) <==> Marked(k0, base + a) || InTables(m, cr3, a)
  {
    var x := base + a;
    if x in k0.symbolic {
      MarkStays(k0.symbolic, k.symbolic, x);
    }
    if x in k0.concrete {
      MarkStays(k0.concrete, k.concrete, x);
    }
    if x in k.symbolic && x !in k0.symbolic {
      assert TableByte(m, cr3, symbolicTables, base, x, true);
    }
    if x in k.concrete && x !in k0.concrete {
      assert TableByte(m, cr3, symbolicTables, base, x, false);
    }
  }

  lemma {:induction false} TablesAreMarked(m: Memory, cr3: nat, kind: Kind, base: nat, k: Marks)
    requires TableMarked(kind, k, base, cr3, TABLE_SIZE)
    requires forall i: nat | i < TABLE_SIZE && Present(EntryAt(m, cr3, i)) ::
               TableMarked(kind, k, base, Frame(EntryAt(m, cr3, i)), TABLE_SIZE)
    ensures forall a: nat | InTables(m, cr3, a) :: Placed(kind, k, base, a)
  {
    forall a: nat | InTables(m, cr3, a)
      ensures Placed(kind, k, base, a)
    {
      if cr3 <= a < cr3 + PAGE {
        ByteOfTable(kind, k, base, cr3, a);
      } else {
        var i: nat :| i < TABLE_SIZE && Present(EntryAt(m, cr3, i)) &&
          Frame(EntryAt(m, cr3, i)) <= a < Frame(EntryAt(m, cr3, i)) + PAGE;
        ByteOfTable(kind, k, base, Frame(EntryAt(m, cr3, i)), a);
      }
    }
  }

  lemma {:induction false} ByteOfTable(kind: Kind, k: Marks, base: nat, table: nat, a: nat)
    requires TableMarked(kind, k, base, table, TABLE_SIZE) && table <= a < table + PAGE
    ensures Placed(kind, k, base, a)
  {
    var j := (a - table) / 4;
    assert WordMarked(kind, k, base, table + 4 * j);
    assert table + 4 * j <= a < table + 4 * j + 4;
  }
}

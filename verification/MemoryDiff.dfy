/**
 Comparing the memory of several machine dumps: pages are compared first, and only suspicious pages
 word by word.
 */
module MemoryDiff {

  type Dump = string

  const PAGE_SIZE: nat := 4096
  /** Devices are mapped in the first megabyte, which is not compared. */
  const FIRST: nat := 1024 * 1024

  predicate Ignored(i: nat) {
    i == 0x20cfd8 || i == 0x20cfdc || i == 0x20cfe0
  }

  function Min(a: nat, b: nat): nat {
    if a < b then a else b
  }

  /** The bytes from `i` to `i + n`, as far as there are any. */
  function Slice(s: string, i: nat, n: nat): string {
    s[Min(i, |s|)..Min(i + n, |s|)]
  }

  function Slices(dumps: seq<Dump>, i: nat, n: nat): (ss: seq<string>)
    ensures |ss| == |dumps| && forall k | 0 <= k < |ss| :: ss[k] == Slice(dumps[k], i, n)
  {
    seq(|dumps|, k requires 0 <= k < |dumps| => Slice(dumps[k], i, n))
  }

  function Values(ss: seq<string>): set<string> {
    set s | s in ss
  }

  predicate Differ(ss: seq<string>) {
    |Values(ss)| > 1
  }

  /** Memory of a dump that is not valid. */
  function Unknown(n: nat): (s: string)
    ensures |s| == n && forall k | 0 <= k < n :: s[k] == '?'
  {
    seq(n, k => '?')
  }

  /** The only difference is to dumps without valid memory. */
  predicate OnlyUnknown(ss: seq<string>, n: nat) {
    |Values(ss)| == 2 && Unknown(n) in Values(ss)
  }

  predicate Reported(dumps: seq<Dump>, i: nat) {
    var ss := Slices(dumps, i, 4);
    !Ignored(i) && Differ(ss) && !OnlyUnknown(ss, 4)
  }

  predicate CutShort(ss: seq<string>) {
    exists k | 0 <= k < |ss| :: |ss[k]| < 4
  }

  /** Showing a difference fails when a dump ends inside the word. */
  predicate Broken(dumps: seq<Dump>, i: nat) {
    Reported(dumps, i) && CutShort(Slices(dumps, i, 4))
  }

  predicate PageSkipped(dumps: seq<Dump>, j: nat) {
    var ss := Slices(dumps, j, PAGE_SIZE);
    !Differ(ss) || OnlyUnknown(ss, PAGE_SIZE)
  }

  // ---------------------------------------------------------------------------------------------
  // Skipping a page loses nothing
  // ---------------------------------------------------------------------------------------------

  lemma {:induction false} SameValues(ss: seq<string>)
    ensures Differ(ss) <==> exists a, b :: 0 <= a < |ss| && 0 <= b < |ss| && ss[a] != ss[b]
  {
    var vs := Values(ss);
    if a, b :| 0 <= a < |ss| && 0 <= b < |ss| && ss[a] != ss[b] {
      assert {ss[a], ss[b]} <= vs;
      SubsetIsSmaller({ss[a], ss[b]}, vs);
    } else if ss == [] {
      assert vs == {};
    } else {
      assert vs == {ss[0]};
    }
  }

  lemma {:induction false} SubsetIsSmaller(a: set<string>, b: set<string>)
    requires a <= b
    ensures |a| <= |b|
  {
    if a != {} {
      var x :| x in a;
      SubsetIsSmaller(a - {x}, b - {x});
    }
  }

  /** A set of two elements. */
  lemma {:induction false} OtherValue(vs: set<string>, q: string) returns (x: string)
    requires |vs| == 2 && q in vs
    ensures x != q && vs == {q, x}
  {
    var rest := vs - {q};
    assert |rest| == 1;
    x :| x in rest;
    assert |rest - {x}| == 0;
    assert vs == {q, x};
  }

  lemma {:induction false} SliceOfSlice(s: string, lo: nat, hi: nat, a: nat, b: nat)
    requires lo <= hi <= |s| && a <= b <= hi - lo
    ensures s[lo..hi][a..b] == s[lo + a..lo + b]
  {
    var t, u := s[lo..hi][a..b], s[lo + a..lo + b];
    assert |t| == |u| && forall k | 0 <= k < |t| :: t[k] == u[k];
  }

  /** A word of a page is a slice of the page. */
  lemma {:induction false} WordOfPage(s: Dump, j: nat, i: nat)
    requires j <= i && i + 4 <= j + PAGE_SIZE
    ensures Slice(s, i, 4) == Slice(Slice(s, j, PAGE_SIZE), i - j, 4)
  {
    var lo, hi := Min(j, |s|), Min(j + PAGE_SIZE, |s|);
    var n := hi - lo;
    SliceOfSlice(s, lo, hi, Min(i - j, n), Min(i - j + 4, n));
    assert lo + Min(i - j, n) == Min(i, |s|) && lo + Min(i - j + 4, n) == Min(i + 4, |s|);
  }

  lemma {:induction false} SkippedPageHasNoReport(dumps: seq<Dump>, j: nat, i: nat)
    requires PageSkipped(dumps, j) && j <= i && i + 4 <= j + PAGE_SIZE
    ensures !Reported(dumps, i)
  {
    var pages, words := Slices(dumps, j, PAGE_SIZE), Slices(dumps, i, 4);
    forall k | 0 <= k < |dumps|
      ensures words[k] == Slice(pages[k], i - j, 4)
    {
      WordOfPage(dumps[k], j, i);
    }
    WordsOfSkippedPage(pages, words, i - j);
  }

  lemma {:induction false} WordsOfSkippedPage(pages: seq<string>, words: seq<string>, at: nat)
    requires |pages| == |words| && at + 4 <= PAGE_SIZE
    requires forall k | 0 <= k < |words| :: words[k] == Slice(pages[k], at, 4)
    requires !Differ(pages) || OnlyUnknown(pages, PAGE_SIZE)
    ensures !Differ(words) || OnlyUnknown(words, 4)
  {
    SameValues(pages);
    SameValues(words);
    if Differ(words) {
      var a, b :| 0 <= a < |words| && 0 <= b < |words| && words[a] != words[b];
      assert pages[a] != pages[b];
      UnknownWord(pages, words, at);
    }
  }

  lemma {:induction false} UnknownWord(pages: seq<string>, words: seq<string>, at: nat)
    requires |pages| == |words| && at + 4 <= PAGE_SIZE
    requires forall k | 0 <= k < |words| :: words[k] == Slice(pages[k], at, 4)
    requires OnlyUnknown(pages, PAGE_SIZE) && Differ(words)
    ensures OnlyUnknown(words, 4)
  {
    var q := Unknown(PAGE_SIZE);
    var x := OtherValue(Values(pages), q);
    assert Slice(q, at, 4) == Unknown(4);
    assert Values(words) == {Unknown(4), Slice(x, at, 4)} by {
      assert q in pages && x in pages;
      var a :| 0 <= a < |pages| && pages[a] == q;
      var b :| 0 <= b < |pages| && pages[b] == x;
      assert words[a] in words && words[b] in words;
      forall w | w in words ensures w == Unknown(4) || w == Slice(x, at, 4) {
        var k :| 0 <= k < |words| && words[k] == w;
        assert pages[k] in Values(pages);
      }
    }
  }

  // ---------------------------------------------------------------------------------------------
  // What counts as a difference, slice by slice
  // ---------------------------------------------------------------------------------------------

  /** Wherever a dump holds valid memory, it holds `w`. */
  ghost predicate AllHold(dumps: seq<Dump>, i: nat, n: nat, w: string) {
    forall k | 0 <= k < |dumps| :: Slice(dumps[k], i, n) == w || Slice(dumps[k], i, n) == Unknown(n)
  }

  /** The dumps agree, but for those without valid memory. */
  ghost predicate Agree(dumps: seq<Dump>, i: nat, n: nat) {
    exists w :: AllHold(dumps, i, n, w)
  }

  lemma {:induction false} AgreeExactlyWhen(dumps: seq<Dump>, i: nat, n: nat)
    ensures Agree(dumps, i, n) <==> var ss := Slices(dumps, i, n); !Differ(ss) || OnlyUnknown(ss, n)
  {
    var ss := Slices(dumps, i, n);
    SameValues(ss);
    if !Differ(ss) {
      AgreeIfSame(dumps, i, n);
    } else if OnlyUnknown(ss, n) {
      AgreeIfUnknown(dumps, i, n);
    } else if Agree(dumps, i, n) {
      var w :| AllHold(dumps, i, n, w);
      TwoValues(ss, w, Unknown(n));
      assert false;
    }
  }

  lemma {:induction false} AgreeIfUnknown(dumps: seq<Dump>, i: nat, n: nat)
    requires OnlyUnknown(Slices(dumps, i, n), n)
    ensures Agree(dumps, i, n)
  {
    var ss := Slices(dumps, i, n);
    var x := OtherValue(Values(ss), Unknown(n));
    forall k | 0 <= k < |dumps|
      ensures ss[k] == x || ss[k] == Unknown(n)
    {
      assert ss[k] in Values(ss);
    }
    assert AllHold(dumps, i, n, x);
  }

  lemma {:induction false} AgreeIfSame(dumps: seq<Dump>, i: nat, n: nat)
    requires !(exists a, b :: 0 <= a < |dumps| && 0 <= b < |dumps| && Slices(dumps, i, n)[a] != Slices(dumps, i, n)[b])
    ensures Agree(dumps, i, n)
  {
    var ss := Slices(dumps, i, n);
    var w := if dumps == [] then "" else ss[0];
    forall k | 0 <= k < |dumps|
      ensures Slice(dumps[k], i, n) == w
    {
      assert ss[k] == ss[0];
    }
    assert AllHold(dumps, i, n, w);
  }

  lemma {:induction false} TwoValues(ss: seq<string>, w: string, q: string)
    requires Differ(ss) && forall k | 0 <= k < |ss| :: ss[k] == w || ss[k] == q
    ensures |Values(ss)| == 2 && q in Values(ss)
  {
    SameValues(ss);
    var a, b :| 0 <= a < |ss| && 0 <= b < |ss| && ss[a] != ss[b];
    assert ss[a] in ss && ss[b] in ss;
    assert Values(ss) == {w, q};
  }

  /**
   A word is shown if and only if it is none of three, and no word is such that every dump holds it or has no valid
   memory there.
   */
  lemma {:induction false} ReportedExactlyWhen(dumps: seq<Dump>, i: nat)
    ensures Reported(dumps, i) <==> i != 0x20cfd8 && i != 0x20cfdc && i != 0x20cfe0 && !Agree(dumps, i, 4)
  {
    AgreeExactlyWhen(dumps, i, 4);
  }

  /** Two dumps with valid and different words are enough, whatever the others hold. */
  lemma {:induction false} KnownDifferenceIsShown(dumps: seq<Dump>, i: nat, a: nat, b: nat)
    requires a < |dumps| && b < |dumps| && Slice(dumps[a], i, 4) != Slice(dumps[b], i, 4)
    requires Slice(dumps[a], i, 4) != "????" && Slice(dumps[b], i, 4) != "????"
    requires i != 0x20cfd8 && i != 0x20cfdc && i != 0x20cfe0
    ensures Reported(dumps, i)
  {
    assert Unknown(4) == "????";
    ReportedExactlyWhen(dumps, i);
    forall w
      ensures !AllHold(dumps, i, 4, w)
    {
    }
  }

  // ---------------------------------------------------------------------------------------------
  // The scan
  // ---------------------------------------------------------------------------------------------

  function WordAt(k: nat): nat {
    FIRST + 4 * k
  }

  /** The words from the first megabyte on, the last one possibly cut short. */
  function WordCount(size: nat): nat {
    if size <= FIRST then 0 else (size - FIRST + 3) / 4
  }

  /** The addresses of those of the first `n` words that are to be kept. */
  function Scan(keep: nat -> bool, n: nat): seq<nat> {
    if n == 0 then []
    else Scan(keep, n - 1) + (if keep(n - 1) then [WordAt(n - 1)] else [])
  }

  lemma {:induction false} NothingBetween(keep: nat -> bool, n: nat, m: nat)
    requires n <= m && forall k | n <= k < m :: !keep(k)
    ensures Scan(keep, m) == Scan(keep, n)
    decreases m - n
  {
    if n < m {
      NothingBetween(keep, n, m - 1);
    }
  }

  const PAGE_WORDS: nat := 1024

  /** The first word of the page that the k-th word lies in. */
  function PageOf(k: nat): nat {
    k / PAGE_WORDS * PAGE_WORDS
  }

  /** The `p`-th page starts at word `n`. */
  ghost predicate StartsPage(p: nat, n: nat) {
    n == PAGE_WORDS * p
  }

  ghost predicate Aligned(n: nat) {
    exists p: nat :: StartsPage(p, n)
  }

  lemma {:induction false} NextPage(n: nat)
    requires Aligned(n)
    ensures Aligned(n + PAGE_WORDS)
  {
    var p: nat :| StartsPage(p, n);
    assert StartsPage(p + 1, n + PAGE_WORDS);
  }

  lemma {:induction false} SamePage(start: nat, k: nat)
    requires Aligned(start) && start <= k < start + PAGE_WORDS
    ensures PageOf(k) == start
  {
    var p: nat :| StartsPage(p, start);
    assert k / PAGE_WORDS == p;
  }

  predicate Recorded(dumps: seq<Dump>, k: nat) {
    !Ignored(WordAt(k)) && !PageSkipped(dumps, WordAt(PageOf(k))) && Differ(Slices(dumps, WordAt(k), 4))
  }

  function ReportedWords(dumps: seq<Dump>): nat -> bool {
    (k: nat) => Reported(dumps, WordAt(k))
  }

  function RecordedWords(dumps: seq<Dump>): nat -> bool {
    (k: nat) => Recorded(dumps, k)
  }

  function BrokenWords(dumps: seq<Dump>): nat -> bool {
    (k: nat) => Broken(dumps, WordAt(k))
  }

  /** The plain scan, word by word. */
  function PlainScan(dumps: seq<Dump>, n: nat): seq<nat> {
    Scan(ReportedWords(dumps), n)
  }

  /** What is kept on record: all differing words of the pages looked into, dummy differences included. */
  function RecordScan(dumps: seq<Dump>, n: nat): seq<nat> {
    Scan(RecordedWords(dumps), n)
  }

  /** The differences that cannot be shown. */
  function BrokenScan(dumps: seq<Dump>, n: nat): seq<nat> {
    Scan(BrokenWords(dumps), n)
  }

  lemma {:induction false} OneMoreWord(dumps: seq<Dump>, k: nat, reported: bool, recorded: bool, broken: bool)
    requires reported == Reported(dumps, WordAt(k)) && recorded == Recorded(dumps, k)
    requires broken == Broken(dumps, WordAt(k))
    ensures BrokenScan(dumps, k + 1) == BrokenScan(dumps, k) + (if broken then [WordAt(k)] else [])
    ensures PlainScan(dumps, k + 1) == PlainScan(dumps, k) + (if reported then [WordAt(k)] else [])
    ensures RecordScan(dumps, k + 1) == RecordScan(dumps, k) + (if recorded then [WordAt(k)] else [])
  {
  }

  lemma {:induction false} SkippedPage(dumps: seq<Dump>, start: nat)
    requires Aligned(start) && PageSkipped(dumps, WordAt(start))
    ensures PlainScan(dumps, start + PAGE_WORDS) == PlainScan(dumps, start)
    ensures RecordScan(dumps, start + PAGE_WORDS) == RecordScan(dumps, start)
  {
    forall k | start <= k < start + PAGE_WORDS
      ensures !Reported(dumps, WordAt(k)) && !Recorded(dumps, k)
    {
      SamePage(start, k);
      SkippedPageHasNoReport(dumps, WordAt(start), WordAt(k));
    }
    NothingBetween(ReportedWords(dumps), start, start + PAGE_WORDS);
    NothingBetween(RecordedWords(dumps), start, start + PAGE_WORDS);
  }

  lemma {:induction false} SkippedPageIsWhole(dumps: seq<Dump>, start: nat)
    requires PageSkipped(dumps, WordAt(start))
    ensures BrokenScan(dumps, start + PAGE_WORDS) == BrokenScan(dumps, start)
  {
    forall k | start <= k < start + PAGE_WORDS
      ensures !Broken(dumps, WordAt(k))
    {
      SkippedPageHasNoReport(dumps, WordAt(start), WordAt(k));
    }
    NothingBetween(BrokenWords(dumps), start, start + PAGE_WORDS);
  }

  /** The words of all pages that start inside a dump of the given size. */
  function PagedWords(size: nat): nat {
    if size <= FIRST then 0 else (size - FIRST + PAGE_SIZE - 1) / PAGE_SIZE * PAGE_WORDS
  }

  lemma {:induction false} PagesCover(size: nat)
    ensures WordCount(size) <= PagedWords(size) && Aligned(PagedWords(size)) && size <= WordAt(PagedWords(size))
  {
    var p := if size <= FIRST then 0 else (size - FIRST + PAGE_SIZE - 1) / PAGE_SIZE;
    assert StartsPage(p, PagedWords(size));
    if size > FIRST {
      var x := size - FIRST + 4095;
      assert 4096 * p <= x < 4096 * (p + 1);
    }
  }

  lemma {:induction false} LastPage(size: nat, start: nat)
    requires Aligned(start) && size <= WordAt(start) && (start == 0 || WordAt(start) < size + PAGE_SIZE)
    ensures start == PagedWords(size)
  {
    PagesCover(size);
    var p: nat :| StartsPage(p, start);
    var q: nat :| StartsPage(q, PagedWords(size));
    if size > FIRST {
      var x := size - FIRST + 4095;
      assert 4096 * (x / 4096) <= x < 4096 * (x / 4096) + 4096;
      assert q == x / 4096;
    }
  }

  lemma {:induction false} ScanGrows(keep: nat -> bool, n: nat, m: nat)
    requires n <= m
    ensures |Scan(keep, n)| <= |Scan(keep, m)|
    decreases m
  {
    if n < m {
      ScanGrows(keep, n, m - 1);
    }
  }

  lemma {:induction false} BrokenStays(dumps: seq<Dump>, n: nat, m: nat)
    requires n <= m && BrokenScan(dumps, n) != []
    ensures BrokenScan(dumps, m) != []
  {
    ScanGrows(BrokenWords(dumps), n, m);
  }

  /** What is kept among the first words keeps the scan from being empty. */
  lemma {:induction false} ScanIsEmpty(keep: nat -> bool, n: nat)
    ensures Scan(keep, n) == [] <==> forall k | 0 <= k < n :: !keep(k)
  {
    if n > 0 {
      ScanIsEmpty(keep, n - 1);
    }
  }

  ghost predicate Ascending(s: seq<nat>) {
    forall a, b | 0 <= a < b < |s| :: s[a] < s[b]
  }

  /** Some word among the first `n` lies at the address and is to be kept. */
  ghost predicate KeptAt(keep: nat -> bool, n: nat, i: nat) {
    exists k: nat :: k < n && keep(k) && i == WordAt(k)
  }

  /** The addresses kept, in ascending order. */
  lemma {:induction false} ScanHolds(keep: nat -> bool, n: nat)
    ensures forall i :: i in Scan(keep, n) <==> KeptAt(keep, n, i)
    ensures Ascending(Scan(keep, n))
  {
    if n > 0 {
      ScanHolds(keep, n - 1);
      var before := Scan(keep, n - 1);
      forall i | i in before
        ensures i < WordAt(n - 1)
      {
      }
      forall a | 0 <= a < |before|
        ensures before[a] < WordAt(n - 1)
      {
        assert before[a] in before;
      }
    }
  }

  /** The start of the page that an address lies in. */
  function PageStart(i: nat): nat
    requires i >= 0x100000
  {
    0x100000 + (i - 0x100000) / 4096 * 4096
  }

  /** An address compared: that of a word, above the first megabyte, on a page that starts inside the first dump. */
  predicate Compared(i: nat, size: nat) {
    i >= 0x100000 && i % 4 == 0 && PageStart(i) < size
  }

  lemma {:induction false} ComparedWord(i: nat, size: nat)
    ensures Compared(i, size) <==> exists k: nat :: k < PagedWords(size) && i == WordAt(k)
  {
    if i >= 0x100000 && i % 4 == 0 {
      var k := (i - 0x100000) / 4;
      assert i == WordAt(k);
      ComparedIndex(k, size);
    }
  }

  lemma {:induction false} ComparedIndex(k: nat, size: nat)
    ensures PageStart(WordAt(k)) == WordAt(PageOf(k))
    ensures PageStart(WordAt(k)) < size <==> k < PagedWords(size)
  {
    var p := k / 1024;
    assert (4 * k) / 4096 == p;
    if size > FIRST {
      var x, q := size - FIRST + 4095, (size - FIRST + 4095) / 4096;
      assert 4096 * q <= x < 4096 * q + 4096;
      assert 4096 * p < size - FIRST <==> p < q;
      assert k < 1024 * q <==> p < q;
    }
  }

  /** What is shown, address by address. */
  ghost predicate Shown(dumps: seq<Dump>, i: nat)
    requires dumps != []
  {
    && Compared(i, |dumps[0]|)
    && i != 0x20cfd8 && i != 0x20cfdc && i != 0x20cfe0
    && !Agree(dumps, i, 4)
  }

  /** What is recorded: words not all alike, of pages on which the dumps do not agree. */
  ghost predicate Noted(dumps: seq<Dump>, i: nat)
    requires dumps != []
  {
    && Compared(i, |dumps[0]|)
    && i != 0x20cfd8 && i != 0x20cfdc && i != 0x20cfe0
    && !Agree(dumps, PageStart(i), 4096)
    && DifferAt(dumps, i)
  }

  /** Two dumps hold different words, valid or not. */
  ghost predicate DifferAt(dumps: seq<Dump>, i: nat) {
    exists a, b :: 0 <= a < |dumps| && 0 <= b < |dumps| && Slice(dumps[a], i, 4) != Slice(dumps[b], i, 4)
  }

  lemma {:induction false} ShownIsKept(dumps: seq<Dump>, i: nat)
    requires dumps != []
    ensures Shown(dumps, i) <==> KeptAt(ReportedWords(dumps), PagedWords(|dumps[0]|), i)
  {
    var n := PagedWords(|dumps[0]|);
    ReportedExactlyWhen(dumps, i);
    if Compared(i, |dumps[0]|) {
      ComparedWord(i, |dumps[0]|);
      var k: nat :| k < n && i == WordAt(k);
      assert ReportedWords(dumps)(k) <==> Reported(dumps, i);
    } else if KeptAt(ReportedWords(dumps), n, i) {
      ComparedWord(i, |dumps[0]|);
      assert false;
    }
  }

  lemma {:induction false} PlainScanHolds(dumps: seq<Dump>)
    requires dumps != []
    ensures var shown := PlainScan(dumps, PagedWords(|dumps[0]|));
            Ascending(shown) && forall i: nat :: i in shown <==> Shown(dumps, i)
  {
    ScanHolds(ReportedWords(dumps), PagedWords(|dumps[0]|));
    forall i: nat
      ensures Shown(dumps, i) <==> KeptAt(ReportedWords(dumps), PagedWords(|dumps[0]|), i)
    {
      ShownIsKept(dumps, i);
    }
  }

  lemma {:induction false} DifferExactlyWhen(dumps: seq<Dump>, i: nat)
    ensures Differ(Slices(dumps, i, 4)) <==> DifferAt(dumps, i)
  {
    var words := Slices(dumps, i, 4);
    SameValues(words);
    if DifferAt(dumps, i) {
      var a, b :| 0 <= a < |dumps| && 0 <= b < |dumps| && Slice(dumps[a], i, 4) != Slice(dumps[b], i, 4);
      assert words[a] != words[b];
    }
  }

  lemma {:induction false} NotedExactlyWhen(dumps: seq<Dump>, k: nat)
    requires dumps != []
    ensures k < PagedWords(|dumps[0]|) && Recorded(dumps, k) <==> Noted(dumps, WordAt(k))
  {
    ComparedIndex(k, |dumps[0]|);
    SkippedExactlyWhen(dumps, WordAt(PageOf(k)));
    DifferExactlyWhen(dumps, WordAt(k));
    assert Compared(WordAt(k), |dumps[0]|) <==> k < PagedWords(|dumps[0]|);
  }

  lemma {:induction false} SkippedExactlyWhen(dumps: seq<Dump>, j: nat)
    ensures PageSkipped(dumps, j) <==> Agree(dumps, j, 4096)
  {
    AgreeExactlyWhen(dumps, j, PAGE_SIZE);
  }

  lemma {:induction false} NotedIsKept(dumps: seq<Dump>, i: nat)
    requires dumps != []
    ensures Noted(dumps, i) <==> KeptAt(RecordedWords(dumps), PagedWords(|dumps[0]|), i)
  {
    var n := PagedWords(|dumps[0]|);
    if Noted(dumps, i) {
      ComparedWord(i, |dumps[0]|);
      var k: nat :| k < n && i == WordAt(k);
      NotedExactlyWhen(dumps, k);
      assert RecordedWords(dumps)(k);
    } else if KeptAt(RecordedWords(dumps), n, i) {
      var k: nat :| k < n && RecordedWords(dumps)(k) && i == WordAt(k);
      NotedExactlyWhen(dumps, k);
    }
  }

  lemma {:induction false} RecordScanHolds(dumps: seq<Dump>)
    requires dumps != []
    ensures var record := RecordScan(dumps, PagedWords(|dumps[0]|));
            Ascending(record) && forall i: nat :: i in record <==> Noted(dumps, i)
  {
    ScanHolds(RecordedWords(dumps), PagedWords(|dumps[0]|));
    forall i: nat
      ensures Noted(dumps, i) <==> KeptAt(RecordedWords(dumps), PagedWords(|dumps[0]|), i)
    {
      NotedIsKept(dumps, i);
    }
  }

  /** The results for the first `n` words. */
  ghost predicate Scanned(dumps: seq<Dump>, n: nat, shown: seq<nat>, record: seq<nat>) {
    shown == PlainScan(dumps, n) && record == RecordScan(dumps, n) && BrokenScan(dumps, n) == []
  }

  /** The words of the page from `start` on are scanned up to word `k`, at address `i`. */
  ghost predicate Scanning(dumps: seq<Dump>, start: nat, i: nat, k: nat, shown: seq<nat>, record: seq<nat>) {
    && i == WordAt(k) && Aligned(start) && start <= k <= start + PAGE_WORDS
    && !PageSkipped(dumps, WordAt(start))
    && Scanned(dumps, k, shown, record)
  }

  lemma {:induction false} ScanningEnds(dumps: seq<Dump>, start: nat, i: nat, k: nat, shown: seq<nat>,
      record: seq<nat>)
    requires Scanning(dumps, start, i, k, shown, record) && i >= WordAt(start) + PAGE_SIZE
    ensures k == start + PAGE_WORDS && Scanned(dumps, k, shown, record)
  {
  }

  lemma {:induction false} ScanningGoesOn(dumps: seq<Dump>, start: nat, i: nat, k: nat, shown: seq<nat>,
      record: seq<nat>)
    requires Scanning(dumps, start, i, k, shown, record) && i < WordAt(start) + PAGE_SIZE
    ensures start <= k < start + PAGE_WORDS
    ensures Recorded(dumps, k) <==> !Ignored(i) && Differ(Slices(dumps, i, 4))
  {
    SamePage(start, k);
  }

  /** One word: a difference is shown and recorded, a difference to unknown memory only recorded. */
  method ScanWord(dumps: seq<Dump>, i: nat, ghost start: nat, ghost k: nat, shown: seq<nat>, record: seq<nat>)
    returns (ok: bool, shown': seq<nat>, record': seq<nat>, ghost k': nat)
    requires Scanning(dumps, start, i, k, shown, record) && i < WordAt(start) + PAGE_SIZE
    ensures k' == k + 1 <= start + PAGE_WORDS
    ensures if ok then Scanning(dumps, start, i + 4, k', shown', record') else BrokenScan(dumps, k') != []
  {
    k' := k + 1;
    ScanningGoesOn(dumps, start, i, k, shown, record);
    OneMoreWord(dumps, k, Reported(dumps, i), Recorded(dumps, k), Broken(dumps, i));
    ok, shown', record' := true, shown, record;
    if Ignored(i) {
      return;
    }
    var words := Slices(dumps, i, 4);
    var dummy := OnlyUnknown(words, 4);
    if Differ(words) && !dummy {
      if CutShort(words) {
        ok := false;
        return;
      }
      shown' := shown' + [i];
      record' := record' + [i];
    } else if Differ(words) {
      record' := record' + [i];
    }
  }

  /** The words of a page that is looked into. */
  method ScanWords(dumps: seq<Dump>, j: nat, ghost start: nat, shown: seq<nat>, record: seq<nat>)
    returns (ok: bool, shown': seq<nat>, record': seq<nat>, ghost end: nat)
    requires j == WordAt(start) && Scanning(dumps, start, j, start, shown, record)
    ensures end == start + PAGE_WORDS
    ensures if ok then Scanned(dumps, end, shown', record') else BrokenScan(dumps, end) != []
  {
    ok, shown', record' := true, shown, record;
    var i := j;
    ghost var k: nat := start;
    end := start + PAGE_WORDS;
    while i < j + PAGE_SIZE
      invariant ok && Scanning(dumps, start, i, k, shown', record')
    {
      ok, shown', record', k := ScanWord(dumps, i, start, k, shown', record');
      if !ok {
        BrokenStays(dumps, k, end);
        return;
      }
      i := i + 4;
    }
    ScanningEnds(dumps, start, i, k, shown', record');
  }

  /** One page: skipped as a whole, or scanned word by word. */
  method ScanPage(dumps: seq<Dump>, j: nat, ghost start: nat, shown: seq<nat>, record: seq<nat>)
    returns (ok: bool, shown': seq<nat>, record': seq<nat>, ghost end: nat)
    requires j == WordAt(start) && Aligned(start)
    requires Scanned(dumps, start, shown, record)
    ensures end == start + PAGE_WORDS
    ensures if ok then Scanned(dumps, end, shown', record') else BrokenScan(dumps, end) != []
  {
    if PageSkipped(dumps, j) {
      SkippedPage(dumps, start);
      SkippedPageIsWhole(dumps, start);
      ok, shown', record', end := true, shown, record, start + PAGE_WORDS;
    } else {
      ok, shown', record', end := ScanWords(dumps, j, start, shown, record);
    }
  }

  /** The comparison page by page shows and records what a plain scan does. */
  method ScanPages(dumps: seq<Dump>) returns (ok: bool, shown: seq<nat>, record: seq<nat>)
    requires dumps != []
    ensures ok <==> BrokenScan(dumps, PagedWords(|dumps[0]|)) == []
    ensures ok ==> shown == PlainScan(dumps, PagedWords(|dumps[0]|))
    ensures ok ==> record == RecordScan(dumps, PagedWords(|dumps[0]|))
  {
    ok, shown, record := true, [], [];
    var size := |dumps[0]|;
    var j := FIRST;
    ghost var start: nat := 0;
    assert StartsPage(0, start);
    while j < size
      invariant j == WordAt(start) && Aligned(start) && (start == 0 || j < size + PAGE_SIZE) && ok
      invariant Scanned(dumps, start, shown, record)
    {
      NextPage(start);
      StartsBeforeEnd(size, start);
      ok, shown, record, start := ScanPage(dumps, j, start, shown, record);
      if !ok {
        BrokenStays(dumps, start, PagedWords(size));
        return;
      }
      j := j + PAGE_SIZE;
    }
    LastPage(size, start);
  }

  lemma {:induction false} StartsBeforeEnd(size: nat, start: nat)
    requires Aligned(start) && WordAt(start) < size
    ensures start + PAGE_WORDS <= PagedWords(size)
  {
    PagesCover(size);
    var p: nat :| StartsPage(p, start);
    var q: nat :| StartsPage(q, PagedWords(size));
    assert p < q;
  }

  /** No dump ends inside the word. */
  ghost predicate Whole(dumps: seq<Dump>, i: nat) {
    forall k | 0 <= k < |dumps| :: |Slice(dumps[k], i, 4)| == 4
  }

  lemma {:induction false} WholeIsNotCutShort(dumps: seq<Dump>, i: nat)
    ensures CutShort(Slices(dumps, i, 4)) <==> !Whole(dumps, i)
  {
    var words := Slices(dumps, i, 4);
    assert forall k | 0 <= k < |dumps| :: |words[k]| <= 4;
  }

  lemma {:induction false} ShownWord(dumps: seq<Dump>, k: nat)
    requires dumps != []
    ensures k < PagedWords(|dumps[0]|) && Reported(dumps, WordAt(k)) <==> Shown(dumps, WordAt(k))
  {
    ComparedIndex(k, |dumps[0]|);
    ReportedExactlyWhen(dumps, WordAt(k));
  }

  lemma {:induction false} BrokenExactlyWhen(dumps: seq<Dump>, k: nat)
    requires dumps != []
    ensures k < PagedWords(|dumps[0]|) && Broken(dumps, WordAt(k)) <==>
            Shown(dumps, WordAt(k)) && !Whole(dumps, WordAt(k))
  {
    ShownWord(dumps, k);
    WholeIsNotCutShort(dumps, WordAt(k));
  }

  /** No difference to be shown is cut short by the end of a dump. */
  ghost predicate AllWhole(dumps: seq<Dump>)
    requires dumps != []
  {
    forall i: nat | Shown(dumps, i) :: Whole(dumps, i)
  }

  lemma {:induction false} WholeExactlyWhen(dumps: seq<Dump>)
    requires dumps != []
    ensures BrokenScan(dumps, PagedWords(|dumps[0]|)) == [] <==> AllWhole(dumps)
  {
    var n := PagedWords(|dumps[0]|);
    ScanIsEmpty(BrokenWords(dumps), n);
    if BrokenScan(dumps, n) == [] {
      forall i: nat | Shown(dumps, i)
        ensures Whole(dumps, i)
      {
        ComparedWord(i, |dumps[0]|);
        var k: nat :| k < n && i == WordAt(k);
        assert !BrokenWords(dumps)(k);
        BrokenExactlyWhen(dumps, k);
      }
    } else {
      var k: nat :| k < n && BrokenWords(dumps)(k);
      BrokenExactlyWhen(dumps, k);
    }
  }

  /**
   The comparison with page skipping, for any dumps of any lengths.  It fails exactly when a difference to be shown is
   cut short by the end of a dump; otherwise it shows, in ascending order, exactly the words on which the dumps with
   valid memory do not agree.
   */
  method DiffMemory(dumps: seq<Dump>) returns (ok: bool, shown: seq<nat>, record: seq<nat>)
    requires dumps != []
    ensures ok <==> AllWhole(dumps)
    ensures ok ==> Ascending(shown) && forall i: nat :: i in shown <==> Shown(dumps, i)
    ensures ok ==> Ascending(record) && forall i: nat :: i in record <==> Noted(dumps, i)
  {
    ok, shown, record := ScanPages(dumps);
    WholeExactlyWhen(dumps);
    PlainScanHolds(dumps);
    RecordScanHolds(dumps);
  }

  // ---------------------------------------------------------------------------------------------
  // Dumps of equal length
  // ---------------------------------------------------------------------------------------------

  lemma {:induction false} NothingPastTheEnd(dumps: seq<Dump>, size: nat, k: nat)
    requires (forall d | d in dumps :: |d| == size) && k >= WordCount(size)
    ensures !Reported(dumps, WordAt(k)) && !Recorded(dumps, k)
  {
    var words := Slices(dumps, WordAt(k), 4);
    forall a | 0 <= a < |words| ensures words[a] == "" {
      assert dumps[a] in dumps;
    }
    SameValues(words);
  }

  /** For dumps of equal length the scan is that of the words inside them. */
  lemma {:induction false} EqualDumpsScan(dumps: seq<Dump>, size: nat)
    requires forall d | d in dumps :: |d| == size
    ensures PlainScan(dumps, PagedWords(size)) == PlainScan(dumps, WordCount(size))
    ensures RecordScan(dumps, PagedWords(size)) == RecordScan(dumps, WordCount(size))
  {
    var n, m := WordCount(size), PagedWords(size);
    PagesCover(size);
    forall k | n <= k < m
      ensures !Reported(dumps, WordAt(k)) && !Recorded(dumps, k)
    {
      NothingPastTheEnd(dumps, size, k);
    }
    NothingBetween(ReportedWords(dumps), n, m);
    NothingBetween(RecordedWords(dumps), n, m);
  }

  /** It fails exactly when their length is no multiple of four and the last word is a difference to be shown. */
  lemma {:induction false} EqualDumpsBreak(dumps: seq<Dump>, size: nat)
    requires dumps != [] && forall d | d in dumps :: |d| == size
    ensures BrokenScan(dumps, PagedWords(size)) == [] <==>
            size <= FIRST || size % 4 == 0 || !Reported(dumps, WordAt(WordCount(size) - 1))
  {
    var n, m := WordCount(size), PagedWords(size);
    PagesCover(size);
    forall k | 0 <= k < m
      ensures Broken(dumps, WordAt(k)) <==> k == n - 1 && size % 4 != 0 && Reported(dumps, WordAt(k))
    {
      if k < n {
        OnlyLastIsCutShort(dumps, size, k);
      } else {
        NothingPastTheEnd(dumps, size, k);
      }
    }
    ScanIsEmpty(BrokenWords(dumps), m);
    if n > 0 && BrokenScan(dumps, m) == [] {
      assert !BrokenWords(dumps)(n - 1);
    }
  }

  lemma {:induction false} OnlyLastIsCutShort(dumps: seq<Dump>, size: nat, k: nat)
    requires dumps != [] && (forall d | d in dumps :: |d| == size) && k < WordCount(size)
    ensures CutShort(Slices(dumps, WordAt(k), 4)) <==> k == WordCount(size) - 1 && size % 4 != 0
  {
    var words := Slices(dumps, WordAt(k), 4);
    forall a | 0 <= a < |words|
      ensures |words[a]| == Min(WordAt(k) + 4, size) - WordAt(k)
    {
      assert dumps[a] in dumps;
    }
    assert |words[0]| == Min(WordAt(k) + 4, size) - WordAt(k);
    LastWordIsCutShort(size, k);
  }

  lemma {:induction false} LastWordIsCutShort(size: nat, k: nat)
    requires k < WordCount(size)
    ensures size < WordAt(k) + 4 <==> k == WordCount(size) - 1 && size % 4 != 0
    ensures WordAt(k) < size
  {
    var x := size - FIRST + 3;
    assert 4 * (x / 4) <= x < 4 * (x / 4) + 4;
    assert size % 4 == (size - FIRST) % 4;
  }

  /** The record holds the differences shown and, from pages looked into, the differences to unknown memory. */
  lemma {:induction false} RecordedExactlyWhen(dumps: seq<Dump>, k: nat)
    ensures Recorded(dumps, k) <==>
            || Reported(dumps, WordAt(k))
            || (!Ignored(WordAt(k)) && OnlyUnknown(Slices(dumps, WordAt(k), 4), 4)
                && !PageSkipped(dumps, WordAt(PageOf(k))))
  {
    if PageSkipped(dumps, WordAt(PageOf(k))) {
      SkippedPageHasNoReport(dumps, WordAt(PageOf(k)), WordAt(k));
    }
  }
}

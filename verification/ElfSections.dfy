/** The section table of an executable: kept sorted by address, searched by bisection. */
module ElfSections {

  /** A section extends from its low to its high address, both included. */
  datatype Section = Section(name: string, low: int, high: int)

  predicate Holds(s: Section, address: int) {
    s.low <= address <= s.high
  }

  ghost predicate Sorted(s: seq<Section>) {
    forall i, j | 0 <= i < j < |s| :: s[i].low <= s[j].low
  }

  ghost predicate SomeHolds(s: seq<Section>, address: int) {
    exists i | 0 <= i < |s| :: Holds(s[i], address)
  }

  // ---- sorting ----

  /** Puts a section after those that do not start later, as a stable sort does. */
  function Insert(s: seq<Section>, x: Section): seq<Section> {
    if s == [] || s[|s| - 1].low <= x.low then s + [x] else Insert(s[..|s| - 1], x) + [s[|s| - 1]]
  }

  function SortByLow(s: seq<Section>): seq<Section> {
    if s == [] then [] else Insert(SortByLow(s[..|s| - 1]), s[|s| - 1])
  }

  lemma {:induction false} InsertAdds(s: seq<Section>, x: Section)
    ensures multiset(Insert(s, x)) == multiset(s) + multiset{x}
  {
    if s != [] {
      assert s == s[..|s| - 1] + [s[|s| - 1]];
      if s[|s| - 1].low > x.low {
        InsertAdds(s[..|s| - 1], x);
      }
    }
  }

  lemma {:induction false} InsertSorts(s: seq<Section>, x: Section)
    requires Sorted(s)
    ensures Sorted(Insert(s, x))
  {
    if s != [] && s[|s| - 1].low > x.low {
      var front, last := s[..|s| - 1], s[|s| - 1];
      InsertSorts(front, x);
      InsertAdds(front, x);
      var r := Insert(front, x);
      forall i | 0 <= i < |r|
        ensures r[i].low <= last.low
      {
        assert r[i] in multiset(r);
        assert r[i] == x || r[i] in front;
      }
    }
  }

  lemma {:induction false} SortUnfolds(s: seq<Section>, front: seq<Section>, x: Section)
    requires s == front + [x]
    ensures SortByLow(s) == Insert(SortByLow(front), x)
  {
    assert s[..|s| - 1] == front;
  }

  lemma {:induction false} SortSorts(s: seq<Section>)
    ensures Sorted(SortByLow(s)) && multiset(SortByLow(s)) == multiset(s)
  {
    if s != [] {
      var front, last := s[..|s| - 1], s[|s| - 1];
      assert s == front + [last];
      SortSorts(front);
      SortUnfolds(s, front, last);
      InsertSorts(SortByLow(front), last);
      InsertAdds(SortByLow(front), last);
    }
  }

  /** `t` is `s` with `x` at position `k`, behind everything that starts at or below it. */
  ghost predicate IsInserted(s: seq<Section>, x: Section, k: nat, t: seq<Section>) {
    && k <= |s| && t == s[..k] + [x] + s[k..]
    && (forall i | 0 <= i < k :: s[i].low <= x.low)
    && (forall i | k <= i < |s| :: x.low < s[i].low)
  }

  lemma {:induction false} InsertInserts(s: seq<Section>, x: Section) returns (k: nat)
    requires Sorted(s)
    ensures IsInserted(s, x, k, Insert(s, x))
  {
    if s == [] || s[|s| - 1].low <= x.low {
      k := |s|;
      assert s[..k] == s && s[k..] == [];
    } else {
      var front, last := s[..|s| - 1], s[|s| - 1];
      k := InsertInserts(front, x);
      assert front[..k] == s[..k] && front[k..] + [last] == s[k..];
      assert front[..k] + [x] + front[k..] + [last] == s[..k] + [x] + (front[k..] + [last]);
    }
  }

  lemma {:induction false} InsertAtEnd(s: seq<Section>, x: Section)
    requires s == [] || s[|s| - 1].low <= x.low
    ensures Insert(s, x) == s + [x]
  {
  }

  lemma {:induction false} SortOfSorted(s: seq<Section>)
    requires Sorted(s)
    ensures SortByLow(s) == s
  {
    if s != [] {
      var front, last := s[..|s| - 1], s[|s| - 1];
      assert s == front + [last] && (front == [] || front[|front| - 1].low <= last.low);
      SortOfSorted(front);
      InsertAtEnd(front, last);
      SortUnfolds(s, front, last);
    }
  }

  lemma {:induction false} AppendedSorts(s: seq<Section>, x: Section)
    ensures Sorted(s) ==> exists k: nat :: IsInserted(s, x, k, SortByLow(s + [x]))
  {
    if Sorted(s) {
      SortOfSorted(s);
      SortUnfolds(s + [x], s, x);
      var k := InsertInserts(s, x);
      assert IsInserted(s, x, k, SortByLow(s + [x]));
    }
  }

  // ---- the search ----

  /** The sections start at or below the address up to position `n`, and above it from there on. */
  ghost predicate Splits(s: seq<Section>, address: int, n: nat) {
    && n <= |s|
    && (forall m | 0 <= m < n :: s[m].low <= address)
    && (forall m | n <= m < |s| :: address < s[m].low)
  }

  lemma {:induction false} SortedSplits(s: seq<Section>, address: int) returns (n: nat)
    requires Sorted(s)
    ensures Splits(s, address, n)
  {
    n := 0;
    while n < |s| && s[n].low <= address
      invariant n <= |s| && forall m | 0 <= m < n :: s[m].low <= address
    {
      n := n + 1;
    }
  }

  /** The last section that starts at or below the address holds it, or none does. */
  ghost predicate Searchable(s: seq<Section>, address: int) {
    SomeHolds(s, address) ==>
      exists k | 0 <= k < |s| :: Holds(s[k], address) && forall m | k < m < |s| :: address < s[m].low
  }

  ghost predicate Disjoint(s: seq<Section>) {
    && (forall i | 0 <= i < |s| :: s[i].low <= s[i].high)
    && (forall i, j | 0 <= i < j < |s| :: s[i].high <= s[j].low)
  }

  /** Sections that at most touch can be searched for every address. */
  lemma {:induction false} DisjointIsSearchable(s: seq<Section>, address: int)
    requires Disjoint(s)
    ensures Sorted(s) && Searchable(s, address)
  {
    if i :| 0 <= i < |s| && Holds(s[i], address) {
      var n := SortedSplits(s, address);
      assert i < n;
      assert Holds(s[n - 1], address);
    }
  }

  datatype Query = All | ByAddress(address: int) | ByName(name: string)

  datatype Answer = Whole(sections: seq<Section>) | One(section: Section) | Nothing

  /** The probes of a binary search between two positions. */
  function Probe(s: seq<Section>, address: int, i: nat, j: nat): Answer
    requires i <= j <= |s|
    decreases j - i
  {
    var k := (j - i) / 2 + i;
    if i == j then Nothing
    else if Holds(s[k], address) then One(s[k])
    else if address < s[k].low then Probe(s, address, i, k)
    else Probe(s, address, k + 1, j)
  }

  /** The positions that a bisection passes on the way to position `n`. */
  function Path(n: nat, i: nat, j: nat): (p: seq<nat>)
    requires i <= j
    ensures forall k | k in p :: i <= k < j
    decreases j - i
  {
    var k := (j - i) / 2 + i;
    if i == j then [] else [k] + if n <= k then Path(n, i, k) else Path(n, k + 1, j)
  }

  lemma {:induction false} PathMeetsEnd(n: nat, i: nat, j: nat)
    requires i < n <= j
    ensures n - 1 in Path(n, i, j)
    decreases j - i
  {
    var k := (j - i) / 2 + i;
    if n <= k {
      PathMeetsEnd(n, i, k);
    } else if k < n - 1 {
      PathMeetsEnd(n, k + 1, j);
    }
  }

  /** Some section on the path holds the address. */
  ghost predicate PathHolds(s: seq<Section>, address: int, n: nat, i: nat, j: nat)
    requires i <= j <= |s|
  {
    exists k | k in Path(n, i, j) :: Holds(s[k], address)
  }

  lemma {:induction false} PathStep(s: seq<Section>, address: int, n: nat, i: nat, j: nat, k: nat)
    requires i < j <= |s| && k == (j - i) / 2 + i
    ensures i <= k < j
    ensures PathHolds(s, address, n, i, j) <==>
            || Holds(s[k], address)
            || (if n <= k then PathHolds(s, address, n, i, k) else PathHolds(s, address, n, k + 1, j))
  {
    var rest := if n <= k then Path(n, i, k) else Path(n, k + 1, j);
    assert Path(n, i, j) == [k] + rest;
    if x :| x in rest && Holds(s[x], address) {
      assert x in Path(n, i, j);
    }
    assert k in Path(n, i, j);
  }

  lemma {:induction false} ProbeStep(s: seq<Section>, address: int, i: nat, j: nat, k: nat)
    requires i < j <= |s| && k == (j - i) / 2 + i
    ensures i <= k < j
    ensures Probe(s, address, i, j) ==
            if Holds(s[k], address) then One(s[k])
            else if address < s[k].low then Probe(s, address, i, k)
            else Probe(s, address, k + 1, j)
  {
  }

  /** An answer that is right, and that there is exactly when a section on the path holds the address. */
  ghost predicate IsAnswer(s: seq<Section>, address: int, n: nat, i: nat, j: nat, r: Answer)
    requires i <= j <= |s|
  {
    && !r.Whole? && (r.One? ==> r.section in s && Holds(r.section, address))
    && (r.One? <==> PathHolds(s, address, n, i, j))
  }

  lemma {:induction false} AnswerStep(s: seq<Section>, address: int, n: nat, i: nat, j: nat, k: nat, r: Answer)
    requires Splits(s, address, n) && i < j <= |s| && k == (j - i) / 2 + i && i <= k < j
    requires if Holds(s[k], address) then r == One(s[k])
             else if address < s[k].low then IsAnswer(s, address, n, i, k, r)
             else IsAnswer(s, address, n, k + 1, j, r)
    ensures IsAnswer(s, address, n, i, j, r)
  {
    PathStep(s, address, n, i, j, k);
  }

  /** The search finds a section exactly when one on its path holds the address. */
  lemma {:induction false} ProbeExactly(s: seq<Section>, address: int, n: nat, i: nat, j: nat, r: Answer)
    requires Splits(s, address, n) && i <= j <= |s| && r == Probe(s, address, i, j)
    ensures IsAnswer(s, address, n, i, j, r)
    decreases j - i
  {
    if i < j {
      var k := (j - i) / 2 + i;
      ProbeStep(s, address, i, j, k);
      if Holds(s[k], address) {
      } else if address < s[k].low {
        ProbeExactly(s, address, n, i, k, r);
      } else {
        ProbeExactly(s, address, n, k + 1, j, r);
      }
      AnswerStep(s, address, n, i, j, k, r);
    }
  }

  /** An answer is always right, and a section is found whenever there is one and the table is searchable. */
  lemma {:induction false} ProbeFinds(s: seq<Section>, address: int)
    requires Sorted(s)
    ensures var r := Probe(s, address, 0, |s|);
            && !r.Whole? && (r.One? ==> r.section in s && Holds(r.section, address))
            && (Searchable(s, address) ==> (r.One? <==> SomeHolds(s, address)))
  {
    var n := SortedSplits(s, address);
    ProbeExactly(s, address, n, 0, |s|, Probe(s, address, 0, |s|));
    if Searchable(s, address) && SomeHolds(s, address) {
      var k :| 0 <= k < |s| && Holds(s[k], address) && forall m | k < m < |s| :: address < s[m].low;
      LastStart(s, address, n, k);
      PathMeetsEnd(n, 0, |s|);
    }
  }

  lemma {:induction false} LastStart(s: seq<Section>, address: int, n: nat, k: nat)
    requires Splits(s, address, n) && k < |s| && s[k].low <= address
    requires forall m | k < m < |s| :: address < s[m].low
    ensures k == n - 1
  {
    assert k < n;
    assert s[n - 1].low <= address;
  }

  method Bisect(s: seq<Section>, address: int) returns (r: Answer)
    ensures r == Probe(s, address, 0, |s|)
  {
    var i, j := 0, |s|;
    while j - i > 0
      invariant 0 <= i <= j <= |s| && Probe(s, address, i, j) == Probe(s, address, 0, |s|)
    {
      var k := (j - i) / 2 + i;
      if s[k].low <= address && address <= s[k].high {
        return One(s[k]);
      } else if address < s[k].low {
        j := k;
      } else {
        i := k + 1;
      }
    }
    r := Nothing;
  }

  method FindByName(s: seq<Section>, name: string) returns (r: Answer)
    ensures !r.Whole? && (r.One? <==> exists i | 0 <= i < |s| :: s[i].name == name)
    ensures r.One? ==> exists i | 0 <= i < |s| ::
              r.section == s[i] && s[i].name == name && forall m | 0 <= m < i :: s[m].name != name
  {
    for i := 0 to |s|
      invariant forall m | 0 <= m < i :: s[m].name != name
    {
      if s[i].name == name {
        return One(s[i]);
      }
    }
    r := Nothing;
  }

  class File {
    var sections: seq<Section>

    constructor ()
      ensures sections == [] && Sorted(sections)
    {
      sections := [];
    }

    /** Adds a section: behind those that start at or below its start, and before the others. */
    method AddSection(sec: Section)
      modifies this
      ensures Sorted(sections) && multiset(sections) == multiset(old(sections)) + multiset{sec}
      ensures old(Sorted(sections)) ==>
                exists k: nat :: IsInserted(old(sections), sec, k, sections)
    {
      AppendedSorts(sections, sec);
      sections := sections + [sec];
      SortSorts(sections);
      sections := SortByLow(sections);
    }

    /** A zero address or an empty name counts as no query at all. */
    method FindSection(q: Query) returns (r: Answer)
      requires Sorted(sections)
      ensures r.Whole? <==> q == All || q == ByAddress(0) || q == ByName("")
      ensures r.Whole? ==> r.sections == sections
      ensures q.ByAddress? && r.One? ==> r.section in sections && r.section.low <= q.address <= r.section.high
      ensures q.ByAddress? && q.address != 0 && Searchable(sections, q.address) ==>
                (r.One? <==> exists i | 0 <= i < |sections| :: sections[i].low <= q.address <= sections[i].high)
      ensures q.ByName? && r.One? ==> r.section in sections && r.section.name == q.name
      ensures q.ByName? && r.Nothing? ==> forall i | 0 <= i < |sections| :: sections[i].name != q.name
    {
      if q.ByAddress? && q.address != 0 {
        r := Bisect(sections, q.address);
        ProbeFinds(sections, q.address);
      } else if q.ByName? && q.name != "" {
        r := FindByName(sections, q.name);
      } else {
        r := Whole(sections);
      }
    }
  }

  /** A section inside another one hides part of it from the search. */
  lemma {:induction false} NestedSectionHides()
    ensures var s := [Section("outer", 1, 9), Section("inner", 2, 3)];
            Sorted(s) && SomeHolds(s, 5) && Probe(s, 5, 0, 2) == Nothing
  {
    var s := [Section("outer", 1, 9), Section("inner", 2, 3)];
    assert Holds(s[0], 5);
    assert Probe(s, 5, 0, 2) == Probe(s, 5, 2, 2);
  }
}

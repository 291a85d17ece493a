/**
 Clustering addresses into intervals, and the bytes of physical memory that are neither symbolic nor
 concrete.
 */
module Intervals {
  import opened Sequences

  // ---------------------------------------------------------------------------------------------
  // Sorting
  // ---------------------------------------------------------------------------------------------

  ghost predicate Sorted(s: seq<int>) {
    forall i, j | 0 <= i < j < |s| :: s[i] <= s[j]
  }

  function Insert(x: int, s: seq<int>): seq<int> {
    if s == [] || x <= s[0] then [x] + s else [s[0]] + Insert(x, s[1..])
  }

  function SortInts(s: seq<int>): seq<int> {
    if s == [] then [] else Insert(s[0], SortInts(s[1..]))
  }

  lemma {:induction false} InsertAdds(x: int, s: seq<int>)
    ensures multiset(Insert(x, s)) == multiset(s) + multiset{x}
  {
    if s != [] && x > s[0] {
      InsertAdds(x, s[1..]);
      assert s == [s[0]] + s[1..];
    }
  }

  lemma {:induction false} InsertSorts(x: int, s: seq<int>)
    requires Sorted(s)
    ensures Sorted(Insert(x, s))
  {
    if s != [] && x > s[0] {
      InsertSorts(x, s[1..]);
      InsertAdds(x, s[1..]);
      var r := Insert(x, s[1..]);
      forall j | 0 <= j < |r| ensures s[0] <= r[j] {
        assert r[j] in multiset(r);
        assert r[j] == x || r[j] in s[1..];
      }
    }
  }

  lemma {:induction false} SortSorts(s: seq<int>)
    ensures Sorted(SortInts(s)) && multiset(SortInts(s)) == multiset(s)
  {
    if s != [] {
      SortSorts(s[1..]);
      InsertSorts(s[0], SortInts(s[1..]));
      InsertAdds(s[0], SortInts(s[1..]));
      assert s == [s[0]] + s[1..];
    }
  }

  // ---------------------------------------------------------------------------------------------
  // Clusters
  // ---------------------------------------------------------------------------------------------

  type Interval = (int, int)

  function Range(first: int, last: int): (r: seq<int>)
    ensures |r| == (if last < first then 0 else last - first + 1)
    ensures forall i | 0 <= i < |r| :: r[i] == first + i
  {
    if last < first then [] else seq(last - first + 1, i requires 0 <= i < last - first + 1 => first + i)
  }

  /** All the numbers of the intervals, interval by interval. */
  function Flatten(c: seq<Interval>): seq<int> {
    if c == [] then [] else Flatten(c[..|c| - 1]) + Range(c[|c| - 1].0, c[|c| - 1].1)
  }

  method Uncluster(c: seq<Interval>) returns (r: seq<int>)
    ensures r == Flatten(c)
  {
    r := [];
    for k := 0 to |c|
      invariant r == Flatten(c[..k])
    {
      assert c[..k + 1][..k] == c[..k];
      r := r + Range(c[k].0, c[k].1);
    }
    assert c[..|c|] == c;
  }

  ghost predicate Proper(c: seq<Interval>) {
    forall i | 0 <= i < |c| :: c[i].0 <= c[i].1
  }

  /** Increasing, disjoint, and not even touching. */
  ghost predicate Separated(c: seq<Interval>) {
    forall i, j | 0 <= i < j < |c| :: c[i].1 + 1 < c[j].0
  }

  /** Extending the last interval by one number appends that number. */
  lemma {:induction false} ExtendLast(c: seq<Interval>, x: int)
    requires Proper(c) && c != [] && x == c[|c| - 1].1 + 1
    ensures var c' := c[..|c| - 1] + [(c[|c| - 1].0, x)];
            Flatten(c') == Flatten(c) + [x] && Proper(c') && (Separated(c) ==> Separated(c'))
  {
    var init, last := c[..|c| - 1], c[|c| - 1];
    var c' := init + [(last.0, x)];
    assert c'[..|c'| - 1] == init;
    assert Range(last.0, x) == Range(last.0, last.1) + [x];
  }

  lemma {:induction false} StartNew(c: seq<Interval>, x: int)
    requires Proper(c)
    ensures Flatten(c + [(x, x)]) == Flatten(c) + [x] && Proper(c + [(x, x)])
    ensures Separated(c) && (c == [] || c[|c| - 1].1 + 1 < x) ==> Separated(c + [(x, x)])
  {
    var c' := c + [(x, x)];
    assert c'[..|c'| - 1] == c;
    assert Range(x, x) == [x];
    if Separated(c) && c != [] && c[|c| - 1].1 + 1 < x {
      forall i | 0 <= i < |c| ensures c[i].1 + 1 < x {
        assert i < |c| - 1 ==> c[i].1 + 1 < c[|c| - 1].0;
      }
    }
  }

  /** The intervals of the first `k` numbers. */
  ghost predicate Clustered(sorted: seq<int>, k: nat, oo: seq<Interval>)
    requires k <= |sorted|
  {
    && Proper(oo) && Flatten(oo) == sorted[..k]
    && (if k == 0 then oo == [] else oo != [] && oo[|oo| - 1].1 == sorted[k - 1])
    && (NoRepeats(sorted) ==> Separated(oo))
  }

  lemma {:induction false} ClusterStep(sorted: seq<int>, k: nat, oo: seq<Interval>)
    requires k < |sorted| && Sorted(sorted) && Clustered(sorted, k, oo)
    ensures if k > 0 && sorted[k] == sorted[k - 1] + 1
            then Clustered(sorted, k + 1, oo[..|oo| - 1] + [(oo[|oo| - 1].0, sorted[k])])
            else Clustered(sorted, k + 1, oo + [(sorted[k], sorted[k])])
  {
    var i := sorted[k];
    assert sorted[..k + 1] == sorted[..k] + [i];
    if k > 0 && i == sorted[k - 1] + 1 {
      ExtendLast(oo, i);
    } else {
      StartNew(oo, i);
    }
  }

  /**
   Sorted runs of consecutive numbers.  Unclustering gives back the sorted input; when the input has
   no repetitions the intervals are also maximal.
   */
  method Cluster(ii: seq<int>) returns (oo: seq<Interval>)
    ensures Proper(oo) && Flatten(oo) == SortInts(ii)
    ensures NoRepeats(SortInts(ii)) ==> Separated(oo)
  {
    var sorted := SortInts(ii);
    SortSorts(ii);
    oo := [];
    for k := 0 to |sorted|
      invariant Clustered(sorted, k, oo)
    {
      var i := sorted[k];
      ClusterStep(sorted, k, oo);
      if k > 0 && i == sorted[k - 1] + 1 {
        oo := oo[..|oo| - 1] + [(oo[|oo| - 1].0, i)];
      } else {
        oo := oo + [(i, i)];
      }
    }
    assert sorted[..|sorted|] == sorted;
  }

  // ---------------------------------------------------------------------------------------------
  // The remaining bytes of physical memory
  // ---------------------------------------------------------------------------------------------

  ghost predicate Covers(c: seq<Interval>, x: int) {
    exists i :: 0 <= i < |c| && c[i].0 <= x <= c[i].1
  }

  lemma {:induction false} FlattenCovers(c: seq<Interval>, x: int)
    ensures x in Flatten(c) <==> Covers(c, x)
  {
    if c != [] {
      var init, last := c[..|c| - 1], c[|c| - 1];
      FlattenCovers(init, x);
      if last.0 <= x <= last.1 {
        assert Range(last.0, last.1)[x - last.0] == x;
      }
      if i :| 0 <= i < |c| && c[i].0 <= x <= c[i].1 {
        assert i < |init| ==> init[i] == c[i];
      }
      if i :| 0 <= i < |init| && init[i].0 <= x <= init[i].1 {
        assert c[i] == init[i];
      }
    }
  }

  lemma {:induction false} OnceEach(s: seq<int>, x: int)
    requires NoRepeats(s)
    ensures multiset(s)[x] <= 1
  {
    if s != [] {
      OnceEach(s[1..], x);
      assert s == [s[0]] + s[1..];
      assert multiset(s) == multiset{s[0]} + multiset(s[1..]);
      assert s[0] !in s[1..];
    }
  }

  lemma {:induction false} RepeatCounts(s: seq<int>, i: nat, j: nat)
    requires i < j < |s| && s[i] == s[j]
    ensures multiset(s)[s[i]] >= 2
  {
    assert s == s[..j] + [s[j]] + s[j + 1..];
    assert multiset(s) == multiset(s[..j]) + multiset{s[j]} + multiset(s[j + 1..]);
    assert s[..j][i] == s[i] && s[i] in s[..j];
  }

  lemma {:induction false} SortKeepsNoRepeats(s: seq<int>)
    requires NoRepeats(s)
    ensures NoRepeats(SortInts(s))
  {
    SortSorts(s);
    var t := SortInts(s);
    forall i, j | 0 <= i < j < |t|
      ensures t[i] != t[j]
    {
      OnceEach(s, t[i]);
      if t[i] == t[j] {
        RepeatCounts(t, i, j);
      }
    }
  }

  /** The elements of a set that lie in the given list; the order does not matter to clustering. */
  method ListOf(x: set<int>, all: seq<int>) returns (s: seq<int>)
    requires NoRepeats(all)
    ensures NoRepeats(s)
    ensures forall a :: a in s <==> a in x && a in all
  {
    s := [];
    for k := 0 to |all|
      invariant NoRepeats(s)
      invariant forall a :: a in s <==> a in x && a in all[..k]
    {
      assert all[..k + 1] == all[..k] + [all[k]];
      assert all[k] !in all[..k];
      if all[k] in x {
        assert forall i | 0 <= i < |s| :: s[i] in s && s[i] != all[k];
        s := s + [all[k]];
      }
    }
    assert all[..|all|] == all;
  }

  /** The bytes of physical memory that are neither symbolic nor concrete, as maximal intervals. */
  method ComputeMissingLocs(base: int, size: nat, symbolic: seq<int>, concrete: seq<int>)
    returns (remaining: seq<Interval>)
    ensures Proper(remaining) && Separated(remaining)
    ensures forall a :: Covers(remaining, a) <==> base <= a < base + size && a !in symbolic && a !in concrete
  {
    var physical := Uncluster([(base, base + size - 1)]);
    var rem := (set a | a in physical) - (set a | a in symbolic) - (set a | a in concrete);
    assert physical == Range(base, base + size - 1) by {
      assert [(base, base + size - 1)][..0] == [];
    }
    var list := ListOf(rem, physical);
    SortKeepsNoRepeats(list);
    remaining := Cluster(list);
    SortSorts(list);
    forall a
      ensures Covers(remaining, a) <==> base <= a < base + size && a !in symbolic && a !in concrete
    {
      FlattenCovers(remaining, a);
      FlattenCovers([(base, base + size - 1)], a);
      assert Covers([(base, base + size - 1)], a) <==> base <= a < base + size by {
        if base <= a < base + size {
          assert [(base, base + size - 1)][0].0 <= a <= [(base, base + size - 1)][0].1;
        }
      }
      assert a in SortInts(list) <==> a in multiset(SortInts(list));
      assert a in list <==> a in multiset(list);
    }
  }
}

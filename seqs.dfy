/** Sequence facts shared by the fire-id lists. */
module Seqs {
  /** No element occurs twice. */
  ghost predicate Distinct<T>(s: seq<T>) {
    forall i, j :: 0 <= i < j < |s| ==> s[i] != s[j]
  }

  ghost predicate StrictlyIncreasing(s: seq<int>) {
    forall i, j :: 0 <= i < j < |s| ==> s[i] < s[j]
  }

  /** The dense id range `[0, 1, ..., n - 1]`. */
  function Range(n: nat): (r: seq<int>)
    ensures |r| == n && forall i :: 0 <= i < n ==> r[i] == i
  {
    seq(n, i => i)
  }

  /** Adds `x` to a strictly increasing sequence, keeping it so. */
  function Insert(x: int, s: seq<int>): (r: seq<int>)
    requires StrictlyIncreasing(s)
    ensures StrictlyIncreasing(r)
    ensures forall y :: y in r <==> y == x || y in s
    decreases |s|
  {
    if s == [] then [x]
    else if x < s[0] then [x] + s
    else if x == s[0] then s
    else
      var tail := s[1..];
      var r := Insert(x, tail);
      assert forall y :: y in r ==> s[0] < y by {
        forall j | 0 <= j < |tail| ensures s[0] < tail[j] {
          assert tail[j] == s[j + 1];
        }
      }
      var out := [s[0]] + r;
      assert StrictlyIncreasing(out) by {
        forall i, j | 0 <= i < j < |out| ensures out[i] < out[j] {
          assert out[j] == r[j - 1] && r[j - 1] in r;
          if i > 0 {
            assert out[i] == r[i - 1];
          } else {
            assert out[i] == s[0];
          }
        }
      }
      assert s == [s[0]] + tail;
      out
  }

  /** Python's `sorted(set(s))`: the distinct elements of `s` in increasing order. */
  function SortedSet(s: seq<int>): (r: seq<int>)
    ensures StrictlyIncreasing(r)
    ensures forall y :: y in r <==> y in s
    decreases |s|
  {
    if s == [] then [] else Insert(s[0], SortedSet(s[1..]))
  }

  /** A strictly increasing sequence has no repeated element. */
  lemma IncreasingIsDistinct(s: seq<int>)
    requires StrictlyIncreasing(s)
    ensures Distinct(s)
  {
  }

  /** Two distinct sequences with no common element concatenate to a
      distinct sequence. */
  lemma DistinctConcat<T>(a: seq<T>, b: seq<T>)
    requires Distinct(a) && Distinct(b)
    requires forall x :: x in a ==> x !in b
    ensures Distinct(a + b)
  {
    forall i, j | 0 <= i < j < |a + b| ensures (a + b)[i] != (a + b)[j] {
      if j >= |a| && i < |a| {
        assert (a + b)[i] in a && (a + b)[j] in b;
      }
    }
  }

  /** A sequence without repetitions has as many elements as its set. */
  lemma {:induction false} DistinctCard<T>(s: seq<T>)
    requires Distinct(s)
    ensures |set x | x in s| == |s|
    decreases |s|
  {
    if s != [] {
      var rest := s[1..];
      assert Distinct(rest) by {
        forall i, j | 0 <= i < j < |rest| ensures rest[i] != rest[j] {
          assert rest[i] == s[i + 1] && rest[j] == s[j + 1];
        }
      }
      DistinctCard(rest);
      assert s[0] !in rest by {
        forall i | 0 <= i < |rest| ensures rest[i] != s[0] {
          assert rest[i] == s[i + 1];
        }
      }
      assert (set x | x in s) == (set x | x in rest) + {s[0]};
    }
  }

  /** A subset is no larger than the set containing it. */
  lemma {:induction false} SubsetCard<T>(a: set<T>, b: set<T>)
    requires a <= b
    ensures |a| <= |b|
    decreases a
  {
    if a != {} {
      var x :| x in a;
      SubsetCard(a - {x}, b - {x});
    }
  }

  /** The elements of `ks` that lie in `keep`, in the order of `ks`. */
  function Filter(ks: seq<int>, keep: set<int>): (r: seq<int>)
    ensures forall k :: k in r <==> k in ks && k in keep
    decreases |ks|
  {
    if ks == [] then []
    else
      var k := ks[|ks| - 1];
      Filter(ks[..|ks| - 1], keep) + (if k in keep then [k] else [])
  }

  /** Filtering keeps a sequence free of repetitions and never lengthens it. */
  lemma {:induction false} FilterDistinct(ks: seq<int>, keep: set<int>)
    requires Distinct(ks)
    ensures Distinct(Filter(ks, keep)) && |Filter(ks, keep)| <= |ks|
    decreases |ks|
  {
    if ks != [] {
      var init := ks[..|ks| - 1];
      var k := ks[|ks| - 1];
      assert Distinct(init);
      FilterDistinct(init, keep);
      if k in keep {
        DistinctConcat(Filter(init, keep), [k]);
      }
    }
  }

  /** `Filter` of the first `i` elements, unfolded one index at a time. */
  ghost function FilterPrefix(ks: seq<int>, i: nat, keep: set<int>): seq<int>
    requires i <= |ks|
  {
    if i == 0 then []
    else FilterPrefix(ks, i - 1, keep) + (if ks[i - 1] in keep then [ks[i - 1]] else [])
  }

  lemma {:induction false} FilterPrefixIsFilter(ks: seq<int>, i: nat, keep: set<int>)
    requires i <= |ks|
    ensures FilterPrefix(ks, i, keep) == Filter(ks[..i], keep)
  {
    if i > 0 {
      FilterPrefixIsFilter(ks, i - 1, keep);
      assert ks[..i][..i - 1] == ks[..i - 1];
    }
  }

  /** Filtering by a larger set first changes nothing. */
  lemma {:induction false} FilterNested(ks: seq<int>, outer: set<int>, inner: set<int>)
    requires inner <= outer
    ensures Filter(Filter(ks, outer), inner) == Filter(ks, inner)
    decreases |ks|
  {
    if ks != [] {
      var n := |ks|;
      var k := ks[n - 1];
      FilterNested(ks[..n - 1], outer, inner);
      var init := ks[..n - 1];
      var prev := Filter(init, outer);
      var f := Filter(ks, outer);
      var tail := if k in inner then [k] else [];
      assert Filter(ks, inner) == Filter(init, inner) + tail;
      if k in outer {
        assert f == prev + [k];
        assert f[..|f| - 1] == prev;
        assert Filter(f, inner) == Filter(prev, inner) + tail;
      } else {
        assert f == prev;
        assert tail == [];
      }
    }
  }

  /** Filtering by three disjoint sets that cover `ks` splits it. */
  lemma {:induction false} FilterSplit3(ks: seq<int>, a: set<int>, b: set<int>, c: set<int>)
    requires a !! b && a !! c && b !! c
    requires forall k :: k in ks ==> k in a || k in b || k in c
    ensures |Filter(ks, a)| + |Filter(ks, b)| + |Filter(ks, c)| == |ks|
    decreases |ks|
  {
    if ks != [] {
      FilterSplit3(ks[..|ks| - 1], a, b, c);
    }
  }
}

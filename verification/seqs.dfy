/** Generic facts about sequences: counting, duplicate removal and the
    cardinality arguments the allocators' occupancy bounds rest on. */
module Seqs {

  /** No element occurs twice. */
  predicate Distinct<T(==)>(s: seq<T>) {
    forall i, j :: 0 <= i < j < |s| ==> s[i] != s[j]
  }

  /** The set of elements of a sequence. */
  function Elems<T>(s: seq<T>): set<T> {
    set x | x in s
  }

  /** Number of occurrences of `x` in `s`. */
  function Count<T(==)>(s: seq<T>, x: T): (n: nat)
    ensures n <= |s|
    ensures n > 0 <==> x in s
  {
    if |s| == 0 then 0
    else (if s[0] == x then 1 else 0) + Count(s[1..], x)
  }

  lemma {:induction false} CountAppend<T>(a: seq<T>, b: seq<T>, x: T)
    ensures Count(a + b, x) == Count(a, x) + Count(b, x)
  {
    if |a| == 0 {
      assert a + b == b;
    } else {
      assert (a + b)[1..] == a[1..] + b;
      CountAppend(a[1..], b, x);
    }
  }

  /** The elements of `s` in order of first occurrence, without repeats
      (JavaScript's `[...new Set(s)]`). */
  function Dedup<T(==)>(s: seq<T>): (d: seq<T>)
    ensures Distinct(d)
    ensures Elems(d) == Elems(s)
    ensures |d| <= |s|
    decreases |s|
  {
    if |s| == 0 then []
    else
      var rest := Dedup(s[..|s| - 1]);
      var last := s[|s| - 1];
      assert Elems(s) == Elems(s[..|s| - 1]) + {last} by {
        assert s == s[..|s| - 1] + [last];
      }
      if last in rest then rest else rest + [last]
  }

  lemma DedupMember<T>(s: seq<T>, x: T)
    ensures x in Dedup(s) <==> x in s
  {
    assert x in Dedup(s) <==> x in Elems(Dedup(s));
    assert x in s <==> x in Elems(s);
  }

  /** `Dedup` keeps first-occurrence order: an element listed before another
      occurs in `s` before every occurrence of that other one. */
  lemma {:induction false} DedupFirstSeen<T>(s: seq<T>, i: nat, j: nat, k: nat)
    requires i < j < |Dedup(s)| && k < |s| && s[k] == Dedup(s)[j]
    ensures Dedup(s)[i] in s[..k]
    decreases |s|
  {
    var init := s[..|s| - 1];
    var last := s[|s| - 1];
    var rest := Dedup(init);
    var d := Dedup(s);
    DedupMember(init, last);
    if k < |s| - 1 {
      assert s[k] == init[k];
      assert s[..k] == init[..k];
      if last in rest {
        DedupFirstSeen(init, i, j, k);
      } else {
        assert d == rest + [last];
        if j < |rest| {
          DedupFirstSeen(init, i, j, k);
        }
      }
    } else {
      assert s[..k] == init;
      assert d[i] in rest by {
        if last !in rest {
          assert d == rest + [last];
        }
      }
      DedupMember(init, d[i]);
    }
  }

  /** Sum of an integer sequence. */
  function Sum(s: seq<int>): int {
    if |s| == 0 then 0 else s[0] + Sum(s[1..])
  }

  /** A duplicate-free sequence has exactly as many elements as its set. */
  lemma {:induction false} DistinctCard<T>(s: seq<T>)
    requires Distinct(s)
    ensures |Elems(s)| == |s|
  {
    if |s| > 0 {
      var t := s[1..];
      assert Distinct(t) by {
        forall i, j | 0 <= i < j < |t| ensures t[i] != t[j] {
          assert t[i] == s[i + 1] && t[j] == s[j + 1];
        }
      }
      DistinctCard(t);
      assert s[0] !in t by {
        forall k | 0 <= k < |t| ensures t[k] != s[0] {
          assert t[k] == s[k + 1];
        }
      }
      assert Elems(s) == Elems(t) + {s[0]} by {
        assert s == [s[0]] + t;
      }
    }
  }

  /** A set never has more elements than a sequence listing it. */
  lemma {:induction false} ElemsCard<T>(s: seq<T>)
    ensures |Elems(s)| <= |s|
  {
    if |s| > 0 {
      ElemsCard(s[1..]);
      assert Elems(s) == Elems(s[1..]) + {s[0]} by {
        assert s == [s[0]] + s[1..];
      }
    }
  }

  /** A duplicate-free sequence drawn from `ys` is no longer than `ys`. */
  lemma DistinctWithinBound<T>(xs: seq<T>, ys: seq<T>)
    requires Distinct(xs)
    requires forall x :: x in xs ==> x in ys
    ensures |xs| <= |ys|
  {
    DistinctCard(xs);
    ElemsCard(ys);
    assert Elems(xs) <= Elems(ys);
    assert |Elems(xs)| <= |Elems(ys)| by {
      SubsetCard(Elems(xs), Elems(ys));
    }
  }

  lemma SubsetCard<T>(a: set<T>, b: set<T>)
    requires a <= b
    ensures |a| <= |b|
  {
    assert b == a + (b - a);
  }

  /** `a` is an initial segment of `b`. */
  predicate IsPrefix<T(==)>(a: seq<T>, b: seq<T>) {
    |a| <= |b| && b[..|a|] == a
  }

  lemma PrefixTrans<T>(a: seq<T>, b: seq<T>, c: seq<T>)
    requires IsPrefix(a, b) && IsPrefix(b, c)
    ensures IsPrefix(a, c)
  {
    assert c[..|a|] == c[..|b|][..|a|];
  }

  /** In a duplicate-free sequence, an element does not recur after its
      position. */
  lemma DistinctSplit<T>(s: seq<T>, k: nat)
    requires Distinct(s) && k < |s|
    ensures s[k..] == [s[k]] + s[k + 1..]
    ensures s[k] !in s[k + 1..]
  {
    var later := s[k + 1..];
    forall j | 0 <= j < |later| ensures later[j] != s[k] {
      assert later[j] == s[k + 1 + j];
    }
  }

  /** What follows a prefix `a` that `x` extends starts with `x`. */
  lemma SuffixAfterPrefix<T>(a: seq<T>, x: T, b: seq<T>)
    requires |a| + 1 <= |b| && b[..|a| + 1] == a + [x]
    ensures b[|a|..] == [x] + b[|a| + 1..]
  {
    assert b[|a|] == b[..|a| + 1][|a|];
  }
}

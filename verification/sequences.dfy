/** Order-preserving filtering of sequences (JavaScript's `Array.prototype.filter`)
    and the small facts about it that the page models rely on. */
module Sequences {

  /** The elements of `s` satisfying `p`, in their original order. */
  function Filter<T(==)>(p: T -> bool, s: seq<T>): (r: seq<T>)
    ensures |r| <= |s|
  {
    if s == [] then []
    else (if p(s[0]) then [s[0]] else []) + Filter(p, s[1..])
  }

  /** The filter's output holds exactly the elements of its input that satisfy `p`. */
  lemma {:induction false} FilterMembers<T>(p: T -> bool, s: seq<T>)
    ensures forall i :: 0 <= i < |Filter(p, s)| ==> Filter(p, s)[i] in s && p(Filter(p, s)[i])
    ensures forall i :: 0 <= i < |s| && p(s[i]) ==> s[i] in Filter(p, s)
    decreases |s|
  {
    if s != [] {
      var rest := s[1..];
      FilterMembers(p, rest);
      var r := Filter(p, s);
      assert r == (if p(s[0]) then [s[0]] else []) + Filter(p, rest);
      forall i | 0 <= i < |s| && p(s[i]) ensures s[i] in r {
        if i > 0 {
          assert s[i] == rest[i - 1];
        }
      }
    }
  }

  /** `r` can be obtained from `s` by deleting elements, keeping the order of the rest. */
  ghost predicate IsSubsequence<T>(r: seq<T>, s: seq<T>)
    decreases |s|
  {
    if r == [] then true
    else if s == [] then false
    else (r[0] == s[0] && IsSubsequence(r[1..], s[1..])) || IsSubsequence(r, s[1..])
  }

  /** Every earlier element stands in relation `rel` to every later one. */
  predicate Pairwise<T>(rel: (T, T) -> bool, s: seq<T>) {
    forall i, j :: 0 <= i < j < |s| ==> rel(s[i], s[j])
  }

  /** Inequality, as a function value for `Pairwise`. */
  function Differ<T(==)>(a: T, b: T): bool {
    a != b
  }

  /** No element occurs twice. */
  predicate NoDup<T(==)>(s: seq<T>) {
    Pairwise(Differ, s)
  }

  /** Filtering distributes over concatenation: it never reorders elements. */
  lemma {:induction false} FilterConcat<T>(p: T -> bool, a: seq<T>, b: seq<T>)
    ensures Filter(p, a + b) == Filter(p, a) + Filter(p, b)
    decreases |a|
  {
    if a == [] {
      assert a + b == b;
    } else {
      var head: seq<T> := if p(a[0]) then [a[0]] else [];
      assert (a + b)[0] == a[0];
      assert (a + b)[1..] == a[1..] + b;
      FilterConcat(p, a[1..], b);
      calc {
        Filter(p, a + b);
        head + Filter(p, a[1..] + b);
        head + (Filter(p, a[1..]) + Filter(p, b));
        (head + Filter(p, a[1..])) + Filter(p, b);
        Filter(p, a) + Filter(p, b);
      }
    }
  }

  /** Filtering keeps everything exactly when every element passes. */
  lemma {:induction false} FilterAll<T>(p: T -> bool, s: seq<T>)
    ensures Filter(p, s) == s <==> forall i :: 0 <= i < |s| ==> p(s[i])
    decreases |s|
  {
    if s != [] {
      FilterAll(p, s[1..]);
      if !p(s[0]) {
        assert |Filter(p, s)| < |s| by {
          assert |Filter(p, s[1..])| <= |s[1..]|;
        }
      }
    }
  }

  /** A filter's output already satisfies the filter, so filtering again changes nothing. */
  lemma FilterIdempotent<T>(p: T -> bool, s: seq<T>)
    ensures Filter(p, Filter(p, s)) == Filter(p, s)
  {
    FilterMembers(p, s);
    FilterAll(p, Filter(p, s));
  }

  /** The filter's output is a subsequence of its input. */
  lemma {:induction false} FilterIsSubsequence<T>(p: T -> bool, s: seq<T>)
    ensures IsSubsequence(Filter(p, s), s)
    decreases |s|
  {
    if s != [] {
      FilterIsSubsequence(p, s[1..]);
      var r := Filter(p, s);
      if p(s[0]) {
        assert r[0] == s[0] && r[1..] == Filter(p, s[1..]);
      } else {
        assert r == Filter(p, s[1..]);
        if r != [] {
          assert IsSubsequence(r, s[1..]);
        }
      }
    }
  }

  /** Filtering keeps every pairwise relation between the surviving elements. */
  lemma {:induction false} FilterPairwise<T>(p: T -> bool, rel: (T, T) -> bool, s: seq<T>)
    requires Pairwise(rel, s)
    ensures Pairwise(rel, Filter(p, s))
    decreases |s|
  {
    if s != [] {
      var tail := s[1..];
      assert Pairwise(rel, tail) by {
        forall i, j | 0 <= i < j < |tail| ensures rel(tail[i], tail[j]) {
          assert tail[i] == s[i + 1] && tail[j] == s[j + 1];
        }
      }
      FilterPairwise(p, rel, tail);
      var rest := Filter(p, tail);
      if p(s[0]) {
        FilterMembers(p, tail);
        forall j | 0 <= j < |rest| ensures rel(s[0], rest[j]) {
          var k :| 0 <= k < |tail| && tail[k] == rest[j];
          assert s[k + 1] == rest[j];
        }
        var r := [s[0]] + rest;
        assert Filter(p, s) == r;
        forall i, j | 0 <= i < j < |r| ensures rel(r[i], r[j]) {
          if i == 0 {
            assert r[j] == rest[j - 1];
          } else {
            assert r[i] == rest[i - 1] && r[j] == rest[j - 1];
          }
        }
      } else {
        assert Filter(p, s) == rest;
      }
    }
  }

  /** Filtering a duplicate-free sequence leaves it duplicate-free. */
  lemma FilterNoDup<T>(p: T -> bool, s: seq<T>)
    requires NoDup(s)
    ensures NoDup(Filter(p, s))
  {
    FilterPairwise(p, Differ, s);
  }

  /** Appending an element the filter rejects to a sequence the filter keeps whole,
      then filtering, gives the original sequence back. */
  lemma {:induction false} FilterOutAppended<T>(p: T -> bool, s: seq<T>, x: T)
    requires forall i :: 0 <= i < |s| ==> p(s[i])
    requires !p(x)
    ensures Filter(p, s + [x]) == s
  {
    FilterConcat(p, s, [x]);
    FilterAll(p, s);
    assert Filter(p, [x]) == [];
  }

  /** Filtering a sequence whose only rejected element sits at position `k`
      deletes exactly that position. */
  lemma {:induction false} FilterDropsOne<T>(p: T -> bool, s: seq<T>, k: int)
    requires 0 <= k < |s|
    requires !p(s[k])
    requires forall i :: 0 <= i < |s| && i != k ==> p(s[i])
    ensures Filter(p, s) == s[..k] + s[k + 1..]
  {
    var rest := s[1..];
    if k == 0 {
      forall i | 0 <= i < |rest| ensures p(rest[i]) {
        assert rest[i] == s[i + 1];
      }
      FilterAll(p, rest);
      assert Filter(p, s) == Filter(p, rest);
    } else {
      forall i | 0 <= i < |rest| && i != k - 1 ensures p(rest[i]) {
        assert rest[i] == s[i + 1];
      }
      FilterDropsOne(p, rest, k - 1);
      assert Filter(p, s) == [s[0]] + Filter(p, rest);
      assert s[..k] == [s[0]] + rest[..k - 1];
      assert s[k + 1..] == rest[k..];
    }
  }
}

/** Order-preserving filtering of sequences, the behaviour of JavaScript's
    `Array.prototype.filter` with a total, side-effect-free callback. */
module Seqs {

  /** The elements of `s` accepted by `keep`, in their original order. */
  function Filter<T>(s: seq<T>, keep: T -> bool): (r: seq<T>)
    ensures |r| <= |s|
    ensures forall i :: 0 <= i < |r| ==> r[i] in s && keep(r[i])
    ensures forall i :: 0 <= i < |s| && keep(s[i]) ==> s[i] in r
    decreases |s|
  {
    if |s| == 0 then []
    else
      assert s == [s[0]] + s[1..];
      (if keep(s[0]) then [s[0]] else []) + Filter(s[1..], keep)
  }

  /** Filtering distributes over concatenation: the relative order of the
      kept elements is the order they had in the input. */
  lemma {:induction false} FilterConcat<T>(a: seq<T>, b: seq<T>, keep: T -> bool)
    ensures Filter(a + b, keep) == Filter(a, keep) + Filter(b, keep)
    decreases |a|
  {
    if |a| == 0 {
      assert a + b == b;
    } else {
      assert (a + b)[1..] == a[1..] + b;
      FilterConcat(a[1..], b, keep);
    }
  }

  /** A sequence whose every element is accepted is left exactly as it is. */
  lemma {:induction false} FilterKeepsAll<T>(s: seq<T>, keep: T -> bool)
    requires forall i :: 0 <= i < |s| ==> keep(s[i])
    ensures Filter(s, keep) == s
    decreases |s|
  {
    if |s| > 0 {
      FilterKeepsAll(s[1..], keep);
    }
  }

  /** Filtering twice with the same test is filtering once. */
  lemma FilterIdempotent<T>(s: seq<T>, keep: T -> bool)
    ensures Filter(Filter(s, keep), keep) == Filter(s, keep)
  {
    var r := Filter(s, keep);
    FilterKeepsAll(r, keep);
  }

  /** Every element except the one at index `i` is rejected. */
  ghost predicate OnlyAcceptedAt<T>(s: seq<T>, keep: T -> bool, i: int) {
    forall j :: 0 <= j < |s| && j != i ==> !keep(s[j])
  }

  /** A sequence with no accepted element filters to nothing. */
  lemma {:induction false} FilterRejectsAll<T>(s: seq<T>, keep: T -> bool)
    requires forall i :: 0 <= i < |s| ==> !keep(s[i])
    ensures Filter(s, keep) == []
    decreases |s|
  {
    if |s| > 0 {
      FilterRejectsAll(s[1..], keep);
    }
  }

  /** If index `i` holds the only accepted element, filtering leaves just it. */
  lemma {:induction false} FilterSingletonAt<T>(s: seq<T>, keep: T -> bool, i: int)
    requires 0 <= i < |s| && keep(s[i]) && OnlyAcceptedAt(s, keep, i)
    ensures Filter(s, keep) == [s[i]]
    decreases |s|
  {
    var rest := s[1..];
    if i == 0 {
      FilterRejectsAll(rest, keep);
    } else {
      assert !keep(s[0]);
      assert OnlyAcceptedAt(rest, keep, i - 1) by {
        forall j | 0 <= j < |rest| && j != i - 1
          ensures !keep(rest[j])
        {
          assert rest[j] == s[j + 1];
        }
      }
      FilterSingletonAt(rest, keep, i - 1);
    }
  }

  /** Filtering leaves exactly `[x]` if and only if `x` sits at some index of `s`
      and no other index holds an accepted element. */
  lemma {:induction false} FilterSingleton<T>(s: seq<T>, keep: T -> bool, x: T)
    requires keep(x)
    ensures Filter(s, keep) == [x] <==>
            exists i :: 0 <= i < |s| && s[i] == x && OnlyAcceptedAt(s, keep, i)
    decreases |s|
  {
    if i :| 0 <= i < |s| && s[i] == x && OnlyAcceptedAt(s, keep, i) {
      FilterSingletonAt(s, keep, i);
    }
    if |s| > 0 && Filter(s, keep) == [x] {
      var rest := s[1..];
      if keep(s[0]) {
        assert Filter(s, keep) == [s[0]] + Filter(rest, keep);
        var r := Filter(rest, keep);
        assert |r| == 0;
        forall j | 0 <= j < |s| && j != 0
          ensures !keep(s[j])
        {
          assert s[j] == rest[j - 1];
        }
        assert OnlyAcceptedAt(s, keep, 0);
      } else {
        assert Filter(rest, keep) == [x];
        FilterSingleton(rest, keep, x);
        var k :| 0 <= k < |rest| && rest[k] == x && OnlyAcceptedAt(rest, keep, k);
        forall j | 0 <= j < |s| && j != k + 1
          ensures !keep(s[j])
        {
          if j > 0 {
            assert s[j] == rest[j - 1];
          }
        }
        assert OnlyAcceptedAt(s, keep, k + 1);
      }
    }
  }

  /** Filtering leaves nothing exactly when no element is accepted. */
  lemma FilterEmpty<T>(s: seq<T>, keep: T -> bool)
    ensures Filter(s, keep) == [] <==> forall i :: 0 <= i < |s| ==> !keep(s[i])
  {
    if forall i :: 0 <= i < |s| ==> !keep(s[i]) {
      FilterRejectsAll(s, keep);
    } else {
      var i :| 0 <= i < |s| && keep(s[i]);
      assert s[i] in Filter(s, keep);
    }
  }
}

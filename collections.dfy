/** Sequence helpers the address book's loops are specified with: an
    order-preserving selection, the fixed-size batching of `iterator`, and
    a distinctness predicate for dictionary keys. */
module Collections {
  import opened Wrappers

  predicate Distinct<T(==)>(s: seq<T>) {
    forall i, j :: 0 <= i < j < |s| ==> s[i] != s[j]
  }

  lemma DistinctSnoc<T>(s: seq<T>, x: T)
    requires Distinct(s) && x !in s
    ensures Distinct(s + [x])
  {
  }

  /** Dropping the head of a distinct sequence: the rest is distinct and
      does not hold the head. */
  lemma DistinctTail<T>(s: seq<T>)
    requires |s| > 0 && Distinct(s)
    ensures Distinct(s[1..]) && s[0] !in s[1..]
  {
    assert forall i :: 0 <= i < |s| - 1 ==> s[1..][i] == s[i + 1];
  }

  /** Every value of an updated map is the new one or an old one. */
  lemma UpdateValues<K, V>(m: map<K, V>, k: K, v: V)
    ensures forall x :: x in m[k := v].Values ==> x == v || x in m.Values
  {
    forall x | x in m[k := v].Values
      ensures x == v || x in m.Values
    {
      var j :| j in m[k := v] && m[k := v][j] == x;
      if j != k {
        assert m[j] == x;
      }
    }
  }

  // ---------------------------------------------------------------------
  // Selection

  /** The elements of `xs` whose flag in `keep` is set, in their order. */
  function Select<T>(xs: seq<T>, keep: seq<bool>): (ys: seq<T>)
    requires |keep| == |xs|
    ensures |ys| <= |xs|
  {
    if |xs| == 0 then []
    else
      var m := |xs| - 1;
      Select(xs[..m], keep[..m]) + (if keep[m] then [xs[m]] else [])
  }

  /** An element is selected exactly when one of its occurrences is flagged. */
  lemma {:induction false} SelectMembers<T>(xs: seq<T>, keep: seq<bool>)
    requires |keep| == |xs|
    ensures forall i :: 0 <= i < |xs| && keep[i] ==> xs[i] in Select(xs, keep)
    ensures forall y :: y in Select(xs, keep) ==> exists i :: 0 <= i < |xs| && keep[i] && xs[i] == y
  {
    if |xs| > 0 {
      var m := |xs| - 1;
      SelectMembers(xs[..m], keep[..m]);
      forall i | 0 <= i < |xs| && keep[i]
        ensures xs[i] in Select(xs, keep)
      {
        if i < m {
          assert xs[..m][i] == xs[i];
        }
      }
      forall y | y in Select(xs, keep)
        ensures exists i :: 0 <= i < |xs| && keep[i] && xs[i] == y
      {
        if y in Select(xs[..m], keep[..m]) {
          var i :| 0 <= i < m && keep[..m][i] && xs[..m][i] == y;
          assert keep[i] && xs[i] == y;
        } else {
          assert keep[m] && xs[m] == y;
        }
      }
    }
  }

  /** Selecting with every flag set keeps the whole sequence, in order. */
  lemma {:induction false} SelectAll<T>(xs: seq<T>, keep: seq<bool>)
    requires |keep| == |xs| && forall i :: 0 <= i < |keep| ==> keep[i]
    ensures Select(xs, keep) == xs
  {
    if |xs| > 0 {
      var m := |xs| - 1;
      SelectAll(xs[..m], keep[..m]);
      assert xs[..m] + [xs[m]] == xs;
    }
  }

  /** Selection over a sequence extended by one element. */
  lemma SelectSnoc<T>(xs: seq<T>, keep: seq<bool>, x: T, b: bool)
    requires |keep| == |xs|
    ensures Select(xs + [x], keep + [b]) == Select(xs, keep) + (if b then [x] else [])
  {
    assert (xs + [x])[..|xs|] == xs;
    assert (keep + [b])[..|xs|] == keep;
  }

  /** Selection over a prefix one element longer. */
  lemma SelectPrefix<T>(xs: seq<T>, keep: seq<bool>, i: int)
    requires |keep| == |xs| && 0 <= i < |xs|
    ensures Select(xs[..i + 1], keep[..i + 1]) == Select(xs[..i], keep[..i]) + (if keep[i] then [xs[i]] else [])
  {
    assert xs[..i + 1][..i] == xs[..i];
    assert keep[..i + 1][..i] == keep[..i];
  }

  lemma AppendAssoc<T>(a: seq<T>, b: seq<T>, c: seq<T>)
    ensures a + b + c == a + (b + c)
  {
  }

  /** Moving the head of `s` onto the end of `a`. */
  lemma ShiftHead<T>(a: seq<T>, s: seq<T>)
    requires |s| > 0
    ensures a + [s[0]] + s[1..] == a + s
  {
    assert s == [s[0]] + s[1..];
  }

  lemma AppendToEmpty<T>(s: seq<T>)
    ensures [] + s == s
  {
  }

  lemma TakeSnoc<T>(xs: seq<T>, i: int)
    requires 0 <= i < |xs|
    ensures xs[..i + 1] == xs[..i] + [xs[i]]
  {
  }

  lemma SliceSnoc<T>(xs: seq<T>, a: int, b: int)
    requires 0 <= a <= b < |xs|
    ensures xs[a..b + 1] == xs[a..b] + [xs[b]]
  {
  }

  /** The value of the test `p` on each element, in order. */
  function Flags<T>(xs: seq<T>, p: T -> bool): (keep: seq<bool>)
    ensures |keep| == |xs|
  {
    if |xs| == 0 then []
    else
      var m := |xs| - 1;
      Flags(xs[..m], p) + [p(xs[m])]
  }

  /** Each flag is the test on the element at the same index. */
  lemma {:induction false} FlagsAt<T>(xs: seq<T>, p: T -> bool, i: int)
    requires 0 <= i < |xs|
    ensures Flags(xs, p)[i] == p(xs[i])
  {
    var m := |xs| - 1;
    if i < m {
      assert xs[..m][i] == xs[i];
      FlagsAt(xs[..m], p, i);
    }
  }

  // ---------------------------------------------------------------------
  // Stopping at the first error

  /** The values of a run of steps, in order, or the error of the first
      step that fails. */
  function Collect<T, E>(steps: seq<Result<T, E>>): (r: Result<seq<T>, E>)
    ensures r.Ok? ==> |r.value| == |steps|
  {
    if |steps| == 0 then Ok([])
    else
      var m := |steps| - 1;
      match Collect(steps[..m])
      case Err(e) => Err(e)
      case Ok(vs) =>
        match steps[m]
        case Err(e) => Err(e)
        case Ok(v) => Ok(vs + [v])
  }

  /** The run succeeds exactly when every step does, and then holds each
      step's value; otherwise its error is that of the first failing step. */
  lemma {:induction false} CollectMeaning<T, E>(steps: seq<Result<T, E>>)
    ensures var r := Collect(steps);
      (r.Ok? <==> forall i :: 0 <= i < |steps| ==> steps[i].Ok?)
      && (r.Ok? ==> forall i :: 0 <= i < |steps| ==> r.value[i] == steps[i].value)
      && (r.Err? ==> exists i :: 0 <= i < |steps| && steps[i] == Err(r.error)
                               && forall j :: 0 <= j < i ==> steps[j].Ok?)
  {
    if |steps| > 0 {
      var m := |steps| - 1;
      var front := steps[..m];
      CollectMeaning(front);
      assert forall i :: 0 <= i < m ==> front[i] == steps[i];
      var r := Collect(steps);
      if Collect(front).Err? {
        var i :| 0 <= i < m && front[i] == Err(Collect(front).error)
                 && forall j :: 0 <= j < i ==> front[j].Ok?;
        assert steps[i] == Err(r.error);
      } else if steps[m].Err? {
        assert steps[m] == Err(r.error);
      }
    }
  }

  /** One more successful step extends the values. */
  lemma CollectStep<T, E>(steps: seq<Result<T, E>>, i: int, vs: seq<T>)
    requires 0 <= i < |steps| && Collect(steps[..i]) == Ok(vs) && steps[i].Ok?
    ensures Collect(steps[..i + 1]) == Ok(vs + [steps[i].value])
  {
    assert steps[..i + 1][..i] == steps[..i];
  }

  /** A failing step after successful ones is the error of the whole run. */
  lemma {:induction false} CollectStops<T, E>(steps: seq<Result<T, E>>, i: int)
    requires 0 <= i < |steps| && Collect(steps[..i]).Ok? && steps[i].Err?
    ensures Collect(steps) == Err(steps[i].error)
  {
    var m := |steps| - 1;
    if i < m {
      assert steps[..m][..i] == steps[..i] && steps[..m][i] == steps[i];
      CollectStops(steps[..m], i);
    } else {
      assert steps[..m] == steps[..i];
    }
  }

  // ---------------------------------------------------------------------
  // Batching

  /** Consecutive slices of `k` elements, the last one possibly shorter. */
  function Batches<T>(xs: seq<T>, k: nat): seq<seq<T>>
    requires k > 0
    decreases |xs|
  {
    if |xs| == 0 then []
    else if |xs| <= k then [xs]
    else [xs[..k]] + Batches(xs[k..], k)
  }

  function Flatten<T>(bs: seq<seq<T>>): seq<T> {
    if |bs| == 0 then [] else bs[0] + Flatten(bs[1..])
  }

  /** The batches, put back together, are the sequence itself. */
  lemma {:induction false} BatchesFlatten<T>(xs: seq<T>, k: nat)
    requires k > 0
    ensures Flatten(Batches(xs, k)) == xs
    decreases |xs|
  {
    if |xs| > k {
      var bs := Batches(xs, k);
      assert bs[0] == xs[..k] && bs[1..] == Batches(xs[k..], k);
      BatchesFlatten(xs[k..], k);
      assert xs[..k] + xs[k..] == xs;
    } else if |xs| > 0 {
      assert Flatten(Batches(xs, k)) == xs + Flatten([]);
    }
  }

  /** Every batch but the last holds exactly `k` elements, the last one
      between 1 and `k`, and there are none exactly for an empty sequence. */
  lemma {:induction false} BatchesSizes<T>(xs: seq<T>, k: nat)
    requires k > 0
    ensures var bs := Batches(xs, k);
      (|bs| == 0 <==> |xs| == 0)
      && (forall i :: 0 <= i < |bs| - 1 ==> |bs[i]| == k)
      && (|bs| > 0 ==> 0 < |bs[|bs| - 1]| <= k)
    decreases |xs|
  {
    if |xs| > k {
      BatchesSizes(xs[k..], k);
      var bs := Batches(xs, k);
      var rest := Batches(xs[k..], k);
      assert bs == [xs[..k]] + rest;
      assert forall i :: 1 <= i < |bs| ==> bs[i] == rest[i - 1];
    }
  }

  /** A batching that stops at a multiple of `k` continues with one
      final batch holding the remaining (at most `k`) elements. */
  lemma {:induction false} BatchesAppend<T>(xs: seq<T>, m: nat, k: nat)
    requires k > 0 && m % k == 0 && m < |xs| <= m + k
    ensures Batches(xs, k) == Batches(xs[..m], k) + [xs[m..]]
    decreases m
  {
    if m == 0 {
      assert xs[..0] == [] && xs[0..] == xs;
    } else {
      assert m >= k by {
        if m < k {
          DivModUnique(m, k, 0, m);
        }
      }
      assert (m - k) % k == 0 by {
        DivModUnique(m - k, k, m / k - 1, 0);
      }
      BatchesAppend(xs[k..], m - k, k);
      assert xs[k..][..m - k] == xs[..m][k..];
      assert xs[k..][m - k..] == xs[m..];
      assert xs[..m][..k] == xs[..k];
      if m == k {
        assert Batches(xs[..m], k) == [xs[..k]];
        assert Batches(xs[..m][k..], k) == [];
      }
    }
  }

  /** One batching step of `iterator`: between two multiples of `k`, the
      prefix up to `counter` is batched as the prefix up to `start` and one
      more batch. */
  lemma BatchesStep<T>(xs: seq<T>, start: nat, counter: nat, k: nat)
    requires k > 0 && start % k == 0 && start < counter <= |xs| && counter - start <= k
    ensures Batches(xs[..counter], k) == Batches(xs[..start], k) + [xs[start..counter]]
  {
    BatchesAppend(xs[..counter], start, k);
    assert xs[..counter][..start] == xs[..start];
    assert xs[..counter][start..] == xs[start..counter];
  }

  lemma MulAtLeast(k: int, x: int)
    requires k > 0 && x >= 1
    ensures k * x >= k
    decreases x
  {
    if x > 1 {
      MulAtLeast(k, x - 1);
      assert k * x == k * (x - 1) + k;
    }
  }

  /** Euclidean division is unique: a quotient and a remainder in range are
      the ones `/` and `%` give. */
  lemma DivModUnique(a: int, k: int, q: int, r: int)
    requires k > 0 && 0 <= r < k && a == q * k + r
    ensures a / k == q && a % k == r
  {
    var q0, r0 := a / k, a % k;
    assert a == q0 * k + r0;
    assert (q - q0) * k == r0 - r;
    assert (q0 - q) * k == r - r0;
    if q > q0 {
      MulAtLeast(k, q - q0);
    } else if q < q0 {
      MulAtLeast(k, q0 - q);
    }
  }

  /** `counter % k == 0` for a counter between two multiples of `k`: it
      holds only at the upper one. */
  lemma ModStep(start: nat, m: nat, k: nat)
    requires k > 0 && start % k == 0 && 0 < m <= k
    ensures (start + m) % k == 0 <==> m == k
  {
    var q := start / k;
    assert start == q * k;
    if m == k {
      DivModUnique(start + m, k, q + 1, 0);
    } else {
      DivModUnique(start + m, k, q, m);
    }
  }

  /** With `k` at least the length, there is one batch: the whole sequence. */
  lemma BatchesClamp<T>(xs: seq<T>, k: nat)
    requires 0 < |xs| <= k
    ensures Batches(xs, k) == Batches(xs, |xs|) == [xs]
  {
  }
}

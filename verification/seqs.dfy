/** Small facts about sequences used as ordered sets and as gain lists. */
module Seqs {

  datatype Option<T> = None | Some(value: T)

  datatype Result<T, E> = Ok(value: T) | Err(error: E)

  /** No element occurs twice: a sequence standing for a Python set in iteration order. */
  predicate Distinct<T(==)>(s: seq<T>)
  {
    forall i, j | 0 <= i < j < |s| :: s[i] != s[j]
  }

  function Min(x: int, y: int): int
  {
    if x <= y then x else y
  }

  function Max(x: int, y: int): int
  {
    if x <= y then y else x
  }

  /** `s` without `x`, the rest in its original order (set.remove on a distinct sequence). */
  function Remove<T(==)>(s: seq<T>, x: T): (r: seq<T>)
    ensures forall y | y in r :: y in s && y != x
    ensures forall y | y in s && y != x :: y in r
    ensures |r| <= |s|
    ensures x in s ==> |r| < |s|
    ensures Distinct(s) ==> Distinct(r)
    ensures Distinct(s) && x in s ==> |r| == |s| - 1
    ensures x !in s ==> r == s
  {
    if s == [] then []
    else
      assert Distinct(s) ==> Distinct(s[1..]) && s[0] !in s[1..] by {
        if Distinct(s) {
          forall k | 0 <= k < |s[1..]| ensures s[1..][k] != s[0] { assert s[1..][k] == s[k + 1]; }
        }
      }
      if s[0] == x then Remove(s[1..], x)
      else [s[0]] + Remove(s[1..], x)
  }

  /** Appending one element keeps the front and puts the element last. */
  lemma {:induction false} Snoc<T>(s: seq<T>, x: T)
    ensures (s + [x])[..|s + [x]| - 1] == s && (s + [x])[|s + [x]| - 1] == x
    ensures |s| > 0 ==> (s + [x])[|s + [x]| - 2] == s[|s| - 1] && (s + [x])[0] == s[0]
  {
    assert (s + [x])[..|s|] == s;
  }

  /** Cutting a sequence without repeats gives two such halves with no element in common. */
  lemma {:induction false} DistinctSplit<T>(s: seq<T>, k: nat)
    requires Distinct(s) && k <= |s|
    ensures s == s[..k] + s[k..]
    ensures Distinct(s[..k]) && Distinct(s[k..])
    ensures forall x | x in s[..k] :: x !in s[k..]
  {
    assert s == s[..k] + s[k..];
    forall x | x in s[..k]
      ensures x !in s[k..]
    {
      var i :| 0 <= i < k && s[..k][i] == x;
      forall j | k <= j < |s|
        ensures s[j] != x
      {
        assert s[i] == x;
      }
    }
    assert Distinct(s[..k]) by {
      forall i, j | 0 <= i < j < k
        ensures s[..k][i] != s[..k][j]
      {
        assert s[..k][i] == s[i] && s[..k][j] == s[j];
      }
    }
    assert Distinct(s[k..]) by {
      forall i, j | 0 <= i < j < |s| - k
        ensures s[k..][i] != s[k..][j]
      {
        assert s[k..][i] == s[k + i] && s[k..][j] == s[k + j];
      }
    }
  }

  /** Sum of a list of gains, accumulated from the left. */
  function Sum(s: seq<int>): int
  {
    if s == [] then 0 else Sum(s[..|s| - 1]) + s[|s| - 1]
  }

  /** Cumulative gain of the first `k` entries. */
  function PrefixSum(s: seq<int>, k: nat): int
    requires k <= |s|
  {
    Sum(s[..k])
  }

  lemma {:induction false} SumCons(x: int, s: seq<int>)
    ensures Sum([x] + s) == x + Sum(s)
    decreases |s|
  {
    if s != [] {
      calc {
        Sum([x] + s);
        Sum(([x] + s)[..|s|]) + s[|s| - 1];
        { assert ([x] + s)[..|s|] == [x] + s[..|s| - 1]; }
        Sum([x] + s[..|s| - 1]) + s[|s| - 1];
        { SumCons(x, s[..|s| - 1]); }
        x + Sum(s[..|s| - 1]) + s[|s| - 1];
      }
    } else {
      assert [x] + s == [x];
      assert [x][..0] == [];
    }
  }

  /** Dropping the last entry leaves every shorter prefix sum unchanged. */
  lemma {:induction false} PrefixSumsOfFront(s: seq<int>)
    requires s != []
    ensures forall k | 0 <= k < |s| :: PrefixSum(s[..|s| - 1], k) == PrefixSum(s, k)
    ensures PrefixSum(s, |s|) == Sum(s)
  {
    forall k | 0 <= k < |s|
      ensures PrefixSum(s[..|s| - 1], k) == PrefixSum(s, k)
    {
      assert s[..|s| - 1][..k] == s[..k];
    }
    assert s[..|s|] == s;
  }

  /** A sequence without repeats has no more entries than any set that holds them. */
  lemma {:induction false} DistinctCard<T>(s: seq<T>, u: set<T>)
    requires Distinct(s) && forall x | x in s :: x in u
    ensures |s| <= |u|
    decreases |s|
  {
    if s != [] {
      var x := s[|s| - 1];
      var front := s[..|s| - 1];
      forall y | y in front
        ensures y in u - {x}
      {
        var j :| 0 <= j < |front| && front[j] == y;
        assert s[j] == y;
      }
      DistinctCard(front, u - {x});
    }
  }

  /** A sequence has at least as many entries as the set of its elements. */
  lemma {:induction false} SetOfCard<T>(s: seq<T>)
    ensures |set x | x in s| <= |s|
    decreases |s|
  {
    if s != [] {
      var front := s[..|s| - 1];
      SetOfCard(front);
      assert (set x | x in s) == (set x | x in front) + {s[|s| - 1]} by {
        assert s == front + [s[|s| - 1]];
      }
    }
  }
}

/** The batching idiom both the embedding and the loading stage use:
    `for i in range(0, len(s), b): batch = s[i:i + b]`. */
module Batching {

  /** The slices `s[i:i + b]` for `i = 0, b, 2b, ...` below `|s|`; Python
      cuts the last slice at the end of `s`. */
  function Batches<T>(s: seq<T>, b: nat): seq<seq<T>>
    requires b > 0
    decreases |s|
  {
    if s == [] then []
    else if |s| <= b then [s]
    else [s[..b]] + Batches(s[b..], b)
  }

  function Flatten<T>(xs: seq<seq<T>>): seq<T> {
    if xs == [] then [] else xs[0] + Flatten(xs[1..])
  }

  lemma {:induction false} FlattenAppend<T>(xs: seq<seq<T>>, ys: seq<seq<T>>)
    ensures Flatten(xs + ys) == Flatten(xs) + Flatten(ys)
  {
    if xs == [] {
      assert xs + ys == ys;
    } else {
      assert (xs + ys)[1..] == xs[1..] + ys;
      FlattenAppend(xs[1..], ys);
    }
  }

  /** Cutting at position `i` (a batch boundary below `|s|`) yields the
      slice `s[i:i + b]` followed by the batches of the rest: one step of
      the batch loop. */
  lemma BatchesStep<T>(s: seq<T>, i: nat, b: nat)
    requires b > 0 && i < |s|
    ensures Batches(s[i..], b) ==
            [s[i..if i + b < |s| then i + b else |s|]] + Batches(s[if i + b < |s| then i + b else |s|..], b)
  {
    var t := s[i..];
    if |t| > b {
      assert t[..b] == s[i..i + b];
      assert t[b..] == s[i + b..];
    } else {
      assert s[i..|s|] == t;
      assert Batches(s[|s|..], b) == [];
    }
  }

  /** The invariant of a batch loop: the batches already taken, followed
      by the batches of the rest, are the batches of the whole. Taking the
      next slice keeps it. */
  lemma LoopStep<T>(s: seq<T>, i: nat, b: nat, done: seq<seq<T>>)
    requires b > 0 && i < |s| && done + Batches(s[i..], b) == Batches(s, b)
    ensures var end := if i + b < |s| then i + b else |s|;
      (done + [s[i..end]]) + Batches(s[end..], b) == Batches(s, b)
  {
    BatchesStep(s, i, b);
  }

  /** At the end of a batch loop the batches taken are all the batches. */
  lemma LoopEnd<T>(s: seq<T>, b: nat, done: seq<seq<T>>)
    requires b > 0 && done + Batches(s[|s|..], b) == Batches(s, b)
    ensures done == Batches(s, b)
  {
    assert Batches(s[|s|..], b) == [];
  }

  /** The batches partition the input: glued together, in order, they
      give back `s` exactly. */
  lemma {:induction false} BatchesPartition<T>(s: seq<T>, b: nat)
    requires b > 0
    ensures Flatten(Batches(s, b)) == s
    decreases |s|
  {
    if s == [] {
    } else if |s| <= b {
      assert [s][1..] == [];
    } else {
      var r := Batches(s, b);
      assert r == [s[..b]] + Batches(s[b..], b);
      assert r[0] == s[..b] && r[1..] == Batches(s[b..], b);
      BatchesPartition(s[b..], b);
      assert s == s[..b] + s[b..];
    }
  }

  lemma {:induction false} MulAtLeast(d: int, b: int)
    requires d >= 1 && b > 0
    ensures d * b >= b
  {
    if d > 1 {
      MulAtLeast(d - 1, b);
      assert d * b == (d - 1) * b + b;
    }
  }

  lemma DivUnique(a: int, b: int, q: int, r: int)
    requires b > 0 && 0 <= r < b && a == q * b + r
    ensures a / b == q
  {
    var q0, r0 := a / b, a % b;
    assert a == q0 * b + r0;
    if q > q0 {
      MulAtLeast(q - q0, b);
    } else if q < q0 {
      MulAtLeast(q0 - q, b);
    }
  }

  lemma DivStep(x: nat, b: nat)
    requires b > 0
    ensures (x + b) / b == x / b + 1
  {
    var q, r := x / b, x % b;
    assert x + b == (q + 1) * b + r;
    DivUnique(x + b, b, q + 1, r);
  }

  /** There are `ceil(|s| / b)` batches. */
  lemma {:induction false} BatchesCount<T>(s: seq<T>, b: nat)
    requires b > 0
    ensures |Batches(s, b)| == (|s| + b - 1) / b
    decreases |s|
  {
    if s == [] {
    } else if |s| <= b {
      assert (|s| + b - 1) / b == 1;
    } else {
      BatchesCount(s[b..], b);
      DivStep(|s| - b + b - 1, b);
    }
  }

  /** Every batch but the last holds exactly `b` elements and the last
      holds between 1 and `b`. */
  lemma {:induction false} BatchesSizes<T>(s: seq<T>, b: nat)
    requires b > 0
    ensures forall k :: 0 <= k < |Batches(s, b)| - 1 ==> |Batches(s, b)[k]| == b
    ensures Batches(s, b) != [] ==> 1 <= |Batches(s, b)[|Batches(s, b)| - 1]| <= b
    decreases |s|
  {
    if s != [] && |s| > b {
      BatchesSizes(s[b..], b);
      var r := Batches(s, b);
      var rest := Batches(s[b..], b);
      assert r == [s[..b]] + rest;
      forall k | 1 <= k < |r| - 1
        ensures |r[k]| == b
      {
        assert r[k] == rest[k - 1];
      }
      assert r[|r| - 1] == rest[|rest| - 1];
    }
  }
}

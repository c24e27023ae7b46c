/**
 `escape_time`: iterate `z := z * z + c` from `z = 0`, testing `|z|^2 > 4`
 before each update, and report the first iteration index at which the test
 holds, or nothing once `limit` iterations have passed without it.
 */
module EscapeTime {
  import opened Wrappers
  import opened ComplexPlane

  /** The Mandelbrot recurrence. */
  function Step(z: Complex, c: Complex): Complex {
    Add(Mul(z, z), c)
  }

  /** The value `z` holds when iteration `k` begins. */
  function Iter(c: Complex, k: nat): Complex {
    if k == 0 then Zero else Step(Iter(c, k - 1), c)
  }

  /** `z` lies outside the circle of radius 2 around the origin. */
  predicate Outside(z: Complex) {
    NormSqr(z) > 4.0
  }

  /** The test of iteration `i` fires. */
  predicate EscapesAt(c: Complex, i: nat) {
    Outside(Iter(c, i))
  }

  /** No iteration below `n` fires its test. */
  ghost predicate NoEscapeBelow(c: Complex, n: nat) {
    forall j: nat | j < n :: !EscapesAt(c, j)
  }

  /** `i` is the least index below `limit` whose test fires. */
  ghost predicate IsFirstEscape(c: Complex, limit: nat, i: nat) {
    i < limit && EscapesAt(c, i) && NoEscapeBelow(c, i)
  }

  /** Reference answer, built by raising the limit one step at a time: a
      smaller limit's answer stands, otherwise the newly admitted index is
      the answer if its test fires. */
  ghost function FirstEscape(c: Complex, limit: nat): (r: Option<nat>)
    ensures r.Some? ==> IsFirstEscape(c, limit, r.value)
    ensures r.None? ==> NoEscapeBelow(c, limit)
  {
    if limit == 0 then None
    else
      match FirstEscape(c, limit - 1)
      case Some(i) => Some(i)
      case None => if EscapesAt(c, limit - 1) then Some(limit - 1) else None
  }

  /** `FirstEscape` gives `Some(i)` exactly for the least escaping index, and
      nothing exactly when no index below `limit` escapes. Both follow from its
      contract, since the least escaping index is unique. */
  lemma FirstEscapeIsLeast(c: Complex, limit: nat, i: nat)
    ensures FirstEscape(c, limit) == Some(i) <==> IsFirstEscape(c, limit, i)
    ensures FirstEscape(c, limit) == None <==> NoEscapeBelow(c, limit)
  {
  }

  /** `escape_time` with its `for` loop. */
  method EscapeTime(c: Complex, limit: nat) returns (r: Option<nat>)
    ensures r.Some? ==> IsFirstEscape(c, limit, r.value)
    ensures r.None? ==> NoEscapeBelow(c, limit)
    ensures r == FirstEscape(c, limit)
  {
    var z := Zero;
    for i := 0 to limit
      invariant z == Iter(c, i)
      invariant NoEscapeBelow(c, i)
    {
      if NormSqr(z) > 4.0 {
        FirstEscapeIsLeast(c, limit, i);
        return Some(i);
      }
      z := Add(Mul(z, z), c);
    }
    return None;
  }

  /** Iteration 0 tests `z = 0`, which never fires: an answer is never 0,
      and a zero limit performs no iteration at all. */
  lemma EscapeIndexPositive(c: Complex, limit: nat)
    ensures FirstEscape(c, 0) == None
    ensures FirstEscape(c, limit).Some? ==>
              0 < FirstEscape(c, limit).value < limit
  {
  }

  /** An escape found under one limit is the answer under every larger one. */
  lemma FirstEscapeStable(c: Complex, limit: nat, larger: nat, i: nat)
    requires limit <= larger
    requires FirstEscape(c, limit) == Some(i)
    ensures FirstEscape(c, larger) == Some(i)
  {
  }

  /** The origin is a fixed point of the recurrence. */
  lemma {:induction false} OriginFixed(k: nat)
    ensures Iter(Zero, k) == Zero
  {
    if k > 0 {
      OriginFixed(k - 1);
    }
  }

  /** The origin never escapes, whatever the limit. */
  lemma OriginNeverEscapes(limit: nat)
    ensures FirstEscape(Zero, limit) == None
  {
    forall j: nat | j < limit
      ensures !EscapesAt(Zero, j)
    {
      OriginFixed(j);
    }
    FirstEscapeIsLeast(Zero, limit, 0);
  }

  /** For `c = 2`: `z` is 0, then 2 (`|z|^2 = 4`, not above 4), then 6, so the
      test first fires at iteration 2. */
  lemma EscapeOfTwo()
    ensures FirstEscape(Complex(2.0, 0.0), 10) == Some(2)
  {
    var c := Complex(2.0, 0.0);
    assert Iter(c, 0) == Zero;
    assert Iter(c, 1) == c by {
      assert Step(Zero, c) == c;
    }
    assert Iter(c, 2) == Complex(6.0, 0.0) by {
      assert Mul(c, c) == Complex(4.0, 0.0);
    }
    assert NormSqr(c) == 4.0;
    assert NoEscapeBelow(c, 2) by {
      forall j: nat | j < 2
        ensures !EscapesAt(c, j)
      {
        if j == 1 {
          assert Iter(c, j) == c;
        }
      }
    }
    FirstEscapeIsLeast(c, 10, 2);
  }
}

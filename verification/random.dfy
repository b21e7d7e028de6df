/**
 The generator's single shared random source, made explicit: an infinite
 stream of natural numbers read at a position that every consumer advances.
 Any sequence of bounded choices is some stream read this way.
 */
module Random {

  type Stream = nat -> nat

  /** `a` reduced modulo `b` by repeated subtraction: the remainder of
      `a % b` on naturals. Written recursively so that the solver unfolds
      it on demand instead of reasoning about division. */
  function Remainder(a: nat, b: nat): (r: nat)
    requires b > 0
    ensures r < b && r <= a
    decreases a
  {
    if a < b then a else Remainder(a - b, b)
  }

  /** `Remainder` is the remainder of division, as `%` computes it. */
  lemma {:induction false} RemainderIsMod(a: nat, b: nat)
    requires b > 0
    ensures Remainder(a, b) == a % b
    decreases a
  {
    if a >= b {
      RemainderIsMod(a - b, b);
      ModUnique(a, b, (a - b) / b + 1, (a - b) % b);
    }
  }

  /** Division's remainder is the only `r` in `[0, b)` with `a == q * b + r`. */
  lemma ModUnique(a: int, b: int, q: int, r: int)
    requires b > 0 && 0 <= r < b && a == q * b + r
    ensures a % b == r
  {
    var q', r' := a / b, a % b;
    assert a == q' * b + r';
    if q' < q {
      assert (q - q') * b == r' - r;
      MulAtLeast(q - q', b);
    } else if q < q' {
      assert (q' - q) * b == r - r';
      MulAtLeast(q' - q, b);
    }
  }

  lemma MulAtLeast(k: int, b: int)
    requires k >= 1 && b > 0
    ensures k * b >= b
  {
  }

  /** A uniform choice in `[0, bound)`, like `nextInt(bound)`. */
  function NextInt(s: Stream, pos: nat, bound: nat): (r: nat)
    requires bound > 0
    ensures r < bound
  {
    Remainder(s(pos), bound)
  }

  /** A coin flip, like `nextBoolean()`. */
  function NextBool(s: Stream, pos: nat): bool
  {
    s(pos) % 2 == 1
  }
}

/**
 * The growth policy shared by the CSV buffer (reel_io.c) and the event
 * snapshot buffer (reel_util.c): a capacity is doubled until the bytes needed
 * fit strictly below it. Allocation is a call that may fail; the model
 * chooses its outcome nondeterministically.
 */
module Growth {
  import opened Reel

  /** The capacity reached from `size` by doubling until `need < capacity`. */
  function GrownSize(size: nat, need: nat): (r: nat)
    requires size > 0
    ensures need < r && size <= r
    decreases need + 1 - size
  {
    if need < size then size else GrownSize(2 * size, need)
  }

  /** `target` is `start` doubled zero or more times. */
  predicate ReachedByDoubling(start: nat, target: nat)
    decreases target
  {
    target == start || (target > start && target % 2 == 0 && ReachedByDoubling(start, target / 2))
  }

  /** What doubling reaches from `2 * start` it reaches from `start`. */
  lemma {:induction false} ReachedFromDouble(start: nat, target: nat)
    requires start > 0 && ReachedByDoubling(2 * start, target)
    ensures ReachedByDoubling(start, target)
    decreases target
  {
    if target != 2 * start {
      ReachedFromDouble(start, target / 2);
    }
  }

  /**
   * Growing only ever doubles the capacity, and never past the first
   * capacity that fits: unless nothing had to grow, half the result did not fit.
   */
  lemma {:induction false} GrownSizeIsMinimalDoubling(size: nat, need: nat)
    requires size > 0
    ensures ReachedByDoubling(size, GrownSize(size, need))
    ensures GrownSize(size, need) == size || GrownSize(size, need) / 2 <= need
    decreases need + 1 - size
  {
    if need >= size {
      GrownSizeIsMinimalDoubling(2 * size, need);
      ReachedFromDouble(size, GrownSize(2 * size, need));
    }
  }

  /** Growing to fit `a` and then `b >= a` is the same as growing to fit `b`. */
  lemma {:induction false} GrownSizeCompose(size: nat, a: nat, b: nat)
    requires size > 0 && a <= b
    ensures GrownSize(GrownSize(size, a), b) == GrownSize(size, b)
    decreases b + 1 - size
  {
    if a >= size {
      GrownSizeCompose(2 * size, a, b);
    }
  }

  /** realloc: a fresh block of `n` elements keeping the old ones, or null. */
  method Realloc<T(0)>(a: array<T>, n: nat) returns (p: array?<T>)
    requires a.Length <= n
    ensures p != null ==> fresh(p) && p.Length == n && p[..a.Length] == a[..]
  {
    var ok: bool := *;
    if !ok {
      return null;
    }
    p := new T[n];
    forall i | 0 <= i < a.Length {
      p[i] := a[i];
    }
  }

  /** malloc: a fresh block of `n` elements, or null. */
  method Malloc<T(0)>(n: nat) returns (p: array?<T>)
    ensures p != null ==> fresh(p) && p.Length == n
  {
    var ok: bool := *;
    if !ok {
      return null;
    }
    p := new T[n];
  }

  /** calloc: a fresh block of `n` zero words, or null. */
  method Calloc(n: nat) returns (p: array?<u64>)
    ensures p != null ==> fresh(p) && p.Length == n && forall k | 0 <= k < n :: p[k] == 0
  {
    var ok: bool := *;
    if !ok {
      return null;
    }
    p := new u64[n](_ => 0);
  }
}

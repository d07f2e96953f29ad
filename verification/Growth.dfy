// How the arrays of src/array.c and the maps of src/map.c grow: at least eight places, and
// doubled until that is enough.

module Growth {
  import opened Bits

  /** Doubling until `required` is reached, clipped when doubling overflows. */
  function Doubled(capacity: nat, required: nat): (grown: nat)
    requires 0 < capacity <= SIZE_MAX && required <= SIZE_MAX
    ensures required <= grown <= SIZE_MAX && capacity <= grown
    ensures grown < 2 * required || grown == capacity
    ensures grown == capacity || 2 * capacity <= grown || (grown == required && SIZE_MAX / 2 < required)
    decreases if capacity < required then required - capacity else 0
  {
    if capacity >= required then capacity
    else if capacity > SIZE_MAX / 2 then required
    else Doubled(2 * capacity, required)
  }

  /** The capacity after growth is enough and less than twice what is required, and, up to
      half the address space, at least twice the old one. */
  function NextCapacity(current: nat, required: nat): (grown: nat)
    requires current <= SIZE_MAX && required <= SIZE_MAX
    ensures required <= grown <= SIZE_MAX && current <= grown && 8 <= grown
    ensures required > current ==> grown < 2 * required || grown == 8
    ensures required > current && required <= SIZE_MAX / 2 ==> 2 * current <= grown || grown == 8
    ensures required <= current && 8 <= current ==> grown == current
  {
    Doubled(if current < 8 then 8 else current, required)
  }

  // ---------- Overflow tests ----------

  lemma {:induction false} MulMono(a: nat, b: nat, m: nat)
    requires a <= b
    ensures a * m <= b * m
  {
  }

  lemma {:induction false} MulAdds(a: nat, b: nat, m: nat)
    ensures (a + b) * m == a * m + b * m
  {
  }

  /** The C test `a > limit / m` for `a * m > limit`. */
  lemma {:induction false} QuotientTest(a: nat, m: nat, limit: nat)
    requires m > 0
    ensures a > limit / m <==> a * m > limit
  {
    var q := limit / m;
    assert limit == q * m + limit % m;
    if a > q { MulMono(q + 1, a, m); MulAdds(q, 1, m); } else { MulMono(a, q, m); }
  }
}

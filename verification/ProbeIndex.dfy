// The linear-probing index of src/map.c on values: a bucket holds 0 or an entry's
// index plus one. `pos` maps each stored number to its bucket, and entry `s - 1`, stored
// as `s`, wants to be in bucket `ideal[s - 1]`.

module ProbeIndex {

  /** Steps from bucket `a` forward to bucket `b` around `cap` buckets. */
  function Dist(a: nat, b: nat, cap: nat): (d: nat)
    requires a < cap && b < cap
    ensures d < cap
  {
    if b >= a then b - a else b + cap - a
  }

  /** Walking forward from `a`, bucket `q` comes strictly before bucket `p`. */
  predicate Before(a: nat, q: nat, p: nat, cap: nat)
    requires a < cap && q < cap && p < cap
  {
    Dist(a, q, cap) < Dist(a, p, cap)
  }

  function Succ(p: nat, cap: nat): (n: nat)
    requires p < cap
    ensures n < cap
  {
    if p + 1 == cap then 0 else p + 1
  }

  /** One step nearer to `free`, without passing it or coming round to `a`. */
  lemma SuccAdvances(a: nat, p: nat, free: nat, cap: nat)
    requires a < cap && p < cap && free < cap && p != free
    requires Dist(a, p, cap) <= Dist(a, free, cap)
    ensures Dist(Succ(p, cap), free, cap) == Dist(p, free, cap) - 1
    ensures Dist(a, Succ(p, cap), cap) <= Dist(a, free, cap)
    ensures Succ(p, cap) != a
    ensures p != a ==> Dist(p, Succ(p, cap), cap) <= Dist(p, free, cap)
  {
  }

  /** The buckets hold exactly the live entries, each once. */
  ghost predicate Bijective(b: seq<nat>, pos: map<nat, nat>, ideal: seq<nat>) {
    && (forall s :: s in pos ==> 0 < s <= |ideal| && ideal[s - 1] < |b| && pos[s] < |b| && b[pos[s]] == s)
    && (forall p :: 0 <= p < |b| && b[p] != 0 ==> b[p] in pos && pos[b[p]] == p)
  }

  /** Lookup can reach each entry: no empty bucket between its ideal and actual place. */
  ghost predicate Indexed(b: seq<nat>, pos: map<nat, nat>, ideal: seq<nat>) {
    && Bijective(b, pos, ideal)
    && (forall s, q {:trigger Before(ideal[s - 1], q, pos[s], |b|)} ::
          s in pos && 0 <= q < |b| && Before(ideal[s - 1], q, pos[s], |b|) ==> b[q] != 0)
  }

  /** The state of the shift loop: `hole` is empty, and only entries not yet scanned
      (those at or after `next`) may depend on it being filled. */
  ghost predicate Holed(b: seq<nat>, pos: map<nat, nat>, ideal: seq<nat>, hole: nat, next: nat) {
    && hole < |b| && next < |b| && b[hole] == 0 && hole != next
    && Bijective(b, pos, ideal)
    && (forall s, q {:trigger Before(ideal[s - 1], q, pos[s], |b|)} ::
          s in pos && 0 <= q < |b| && Before(ideal[s - 1], q, pos[s], |b|) ==>
            b[q] != 0 || (q == hole && !Before(hole, pos[s], next, |b|)))
  }

  lemma {:induction false} ValuesAreFewer(m: map<nat, nat>)
    ensures |m.Values| <= |m|
  {
  }

  lemma Subset<T>(a: set<T>, b: set<T>)
    requires a <= b
    ensures |a| <= |b|
  {
    assert b == a + (b - a);
  }

  /** The numbers 1 to `n`. */
  function Upto(n: nat): (s: set<nat>)
    ensures forall i :: i in s <==> 1 <= i <= n
    ensures |s| == n
  {
    if n == 0 then {} else Upto(n - 1) + {n}
  }

  /** The numbers 0 to `n - 1`. */
  function Below(n: nat): (s: set<nat>)
    ensures forall i :: i in s <==> 0 <= i < n
    ensures |s| == n
  {
    if n == 0 then {} else Below(n - 1) + {n - 1}
  }

  /** Fewer live entries than buckets leave an empty bucket, so every probe ends. */
  lemma EmptyBucket(b: seq<nat>, pos: map<nat, nat>, ideal: seq<nat>) returns (e: nat)
    requires Bijective(b, pos, ideal) && |pos| < |b|
    ensures e < |b| && b[e] == 0
  {
    if forall p :: 0 <= p < |b| ==> b[p] != 0 {
      forall p | p in Below(|b|) ensures p in pos.Values {
        assert b[p] in pos && pos[b[p]] == p;
      }
      Subset(Below(|b|), pos.Values);
      ValuesAreFewer(pos);
      assert false;
    }
    e :| 0 <= e < |b| && b[e] == 0;
  }

  /** All buckets from `start` up to, not including, `p` are occupied. */
  ghost predicate FullUntil(b: seq<nat>, start: nat, p: nat) {
    start < |b| && p < |b| && forall q :: 0 <= q < |b| && Before(start, q, p, |b|) ==> b[q] != 0
  }

  lemma FullGrows(b: seq<nat>, start: nat, p: nat)
    requires FullUntil(b, start, p) && b[p] != 0
    ensures FullUntil(b, start, Succ(p, |b|))
  {
  }

  /** Placing stored number `s` in the first empty bucket after its ideal keeps the index. */
  lemma Placed(b: seq<nat>, pos: map<nat, nat>, ideal: seq<nat>, s: nat, p: nat)
    requires Indexed(b, pos, ideal) && s !in pos && 0 < s <= |ideal| && ideal[s - 1] < |b|
    requires FullUntil(b, ideal[s - 1], p) && b[p] == 0
    ensures Indexed(b[p := s], pos[s := p], ideal)
  {
  }

  /** A probe that meets an empty bucket has passed every entry with its ideal place. */
  lemma ProbePasses(b: seq<nat>, pos: map<nat, nat>, ideal: seq<nat>, s: nat, p: nat)
    requires Indexed(b, pos, ideal) && s in pos && p < |b| && b[p] == 0
    ensures Before(ideal[s - 1], pos[s], p, |b|)
  {
    assert !Before(ideal[s - 1], p, pos[s], |b|);
  }

  lemma HoleOpens(b: seq<nat>, pos: map<nat, nat>, ideal: seq<nat>, hole: nat)
    requires Indexed(b, pos, ideal) && hole < |b| && b[hole] != 0 && |b| > 1
    ensures Holed(b[hole := 0], pos - {b[hole]}, ideal, hole, Succ(hole, |b|))
  {
  }

  lemma HoleMoves(b: seq<nat>, pos: map<nat, nat>, ideal: seq<nat>, hole: nat, next: nat)
    requires Holed(b, pos, ideal, hole, next) && b[next] != 0 && Succ(next, |b|) != hole
    requires var q := ideal[b[next] - 1]; Before(q, hole, next, |b|)
    ensures Holed(b[hole := b[next]][next := 0], pos[b[next] := hole], ideal, next, Succ(next, |b|))
  {
    forall q | 0 <= q < |b| && Before(ideal[b[next] - 1], q, hole, |b|) ensures b[q] != 0 && q != next {
      assert Before(ideal[b[next] - 1], q, pos[b[next]], |b|);
    }
  }

  lemma HoleStays(b: seq<nat>, pos: map<nat, nat>, ideal: seq<nat>, hole: nat, next: nat)
    requires Holed(b, pos, ideal, hole, next) && b[next] != 0 && Succ(next, |b|) != hole
    requires var q := ideal[b[next] - 1]; !Before(q, hole, next, |b|)
    ensures Holed(b, pos, ideal, hole, Succ(next, |b|))
  {
  }

  lemma HoleCloses(b: seq<nat>, pos: map<nat, nat>, ideal: seq<nat>, hole: nat, next: nat)
    requires Holed(b, pos, ideal, hole, next) && b[next] == 0
    ensures Indexed(b, pos, ideal)
  {
    forall s, q | s in pos && 0 <= q < |b| && Before(ideal[s - 1], q, pos[s], |b|)
      ensures b[q] != 0
    {
      var passed := Before(ideal[s - 1], next, pos[s], |b|);
    }
  }

  /** The last entry takes over the number of the removed one. */
  lemma Renamed(b: seq<nat>, pos: map<nat, nat>, ideal: seq<nat>, last: nat, at: nat, s: nat, ideal': seq<nat>)
    requires Indexed(b, pos, ideal) && last in pos && pos[last] == at && s !in pos
    requires 0 < s <= |ideal'| && ideal'[s - 1] == ideal[last - 1]
    requires forall i :: i in pos && i != last ==> i <= |ideal'| && ideal'[i - 1] == ideal[i - 1]
    ensures Indexed(b[at := s], (pos - {last})[s := at], ideal')
  {
  }

  /** Only the homes of live entries matter. */
  lemma SameHomes(b: seq<nat>, pos: map<nat, nat>, ideal: seq<nat>, ideal': seq<nat>)
    requires Indexed(b, pos, ideal)
    requires forall s :: s in pos ==> s <= |ideal'| && ideal'[s - 1] == ideal[s - 1]
    ensures Indexed(b, pos, ideal')
  {
  }

  lemma CountUpto(pos: map<nat, nat>, n: nat)
    requires forall s :: s in pos ==> 0 < s <= n
    ensures |pos| <= n
  {
    Subset(pos.Keys, Upto(n));
  }
}

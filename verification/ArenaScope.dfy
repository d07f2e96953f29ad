// Nested temporary allocations of src/memory.c: scopes that mark an arena, run, and
// rewind it, over the two scratch arenas of a thread.

module ArenaScopes {
  import opened Common
  import opened ArenaBlocks
  import opened ArenaStates

  /** An allocation from one of the two arenas, or a scratch scope around more of these. A
      scope may name the arena its caller wants to keep results in. */
  datatype Op =
    | Request(arena: nat, size: nat, alignment: nat, grow: bool, os: Answers)
    | Scope(conflict: Maybe<nat>, body: seq<Op>)

  ghost predicate Ready(a: seq<State>, p: Platform) {
    |a| == 2 && Safe(a[0], p) && Safe(a[1], p)
  }

  ghost predicate BothExtend(a: seq<State>, b: seq<State>, p: Platform) {
    |a| == |b| == 2 && Extends(a[0], b[0], p) && Extends(a[1], b[1], p)
  }

  /** lor_scratch_begin takes the first arena that is not the conflicting one. */
  function Chosen(conflict: Maybe<nat>): (c: nat)
    ensures c < 2 && conflict != Just(c)
  {
    if conflict == Just(0) then 1 else 0
  }

  lemma FirstFree(conflict: Maybe<nat>, c: nat)
    requires conflict != Just(c)
    ensures Chosen(conflict) <= c
  {
  }

  /** lor_scratch_end, for a scope begun in `a`. */
  ghost function EndScope(a: seq<State>, b: seq<State>, c: nat, p: Platform): (r: seq<State>)
    requires Ready(a, p) && Ready(b, p) && BothExtend(a, b, p) && c < 2
    ensures Ready(r, p) && BothExtend(a, r, p)
    ensures Restored(a[c], r[c]) && r[1 - c] == b[1 - c]
  {
    RewindRestores(a[c], b[c], p);
    b[c := Rewind(b[c], TakeMark(a[c]), p)]
  }

  ghost function Perform(a: seq<State>, op: Op, p: Platform): (r: seq<State>)
    requires Ready(a, p)
    ensures Ready(r, p) && BothExtend(a, r, p)
    decreases op
  {
    match op
    case Request(i, size, alignment, grow, os) =>
      if i >= 2 || alignment > Bits.SIZE_MAX then a
      else
        AllocKeeps(a[i], size, alignment, grow, os, p);
        a[i := Alloc(a[i], size, alignment, grow, os, p).1]
    case Scope(conflict, body) => EndScope(a, Run(a, body, p), Chosen(conflict), p)
  }

  ghost function Run(a: seq<State>, ops: seq<Op>, p: Platform): (r: seq<State>)
    requires Ready(a, p)
    ensures Ready(r, p) && BothExtend(a, r, p)
    decreases ops
  {
    if ops == [] then a
    else
      var b := Perform(a, ops[0], p);
      var r := Run(b, ops[1..], p);
      ExtendsTrans(a[0], b[0], r[0], p);
      ExtendsTrans(a[1], b[1], r[1], p);
      r
  }

  /** However scopes nest and whatever they allocate, ending one restores the use and the
      live allocations of its arena and leaves the other arena as the body left it. */
  lemma {:induction false} ScopeRestores(a: seq<State>, conflict: Maybe<nat>, body: seq<Op>, p: Platform)
    requires Ready(a, p)
    ensures var c, r := Chosen(conflict), Perform(a, Scope(conflict, body), p);
            && UsedBytes(r[c].blocks) == UsedBytes(a[c].blocks) && r[c].live == a[c].live
            && r[1 - c] == Run(a, body, p)[1 - c] && a[1 - c].live <= r[1 - c].live
  {
  }

  /** A result allocated in the conflicting arena outlives the scope. */
  lemma {:induction false} ResultSurvives(a: seq<State>, arena: nat, body: seq<Op>, p: Platform, l: Live)
    requires Ready(a, p) && arena < 2 && l in Run(a, body, p)[arena].live
    ensures l in Perform(a, Scope(Just(arena), body), p)[arena].live
  {
    ScopeRestores(a, Just(arena), body, p);
  }
}

/** The goroutines of a fan-out behind a semaphore: running, then having stored their result, then past their release. */
module Goroutines {
  datatype Goroutine = Running | Stored | Ended

  /** How many hold a slot of the semaphore. */
  function Active(gs: seq<Goroutine>): nat {
    if gs == [] then 0 else (if gs[0].Ended? then 0 else 1) + Active(gs[1..])
  }

  /** How many steps they still have before them. */
  function Weights(gs: seq<Goroutine>): nat {
    if gs == [] then 0 else (match gs[0] case Running => 2 case Stored => 1 case Ended => 0) + Weights(gs[1..])
  }

  /** One step for what is not done yet. */
  function Undone(done: bool): nat { if done then 0 else 1 }

  lemma {:induction false} ActiveUpdate(gs: seq<Goroutine>, k: nat, g: Goroutine)
    requires k < |gs|
    ensures Active(gs[k := g]) + (if gs[k].Ended? then 0 else 1) == Active(gs) + if g.Ended? then 0 else 1
    decreases |gs|
  {
    if k > 0 {
      assert gs[k := g][1..] == gs[1..][k - 1 := g];
      ActiveUpdate(gs[1..], k - 1, g);
    } else {
      assert gs[0 := g][1..] == gs[1..];
    }
  }

  lemma {:induction false} NoneActive(gs: seq<Goroutine>)
    requires forall k :: 0 <= k < |gs| ==> gs[k].Ended?
    ensures Active(gs) == 0
    decreases |gs|
  {
    if gs != [] {
      NoneActive(gs[1..]);
    }
  }

  lemma {:induction false} WeightsUpdate(gs: seq<Goroutine>, k: nat, g: Goroutine)
    requires k < |gs| && ((gs[k].Running? && g.Stored?) || (gs[k].Stored? && g.Ended?))
    ensures Weights(gs[k := g]) + 1 == Weights(gs)
    decreases |gs|
  {
    if k > 0 {
      assert gs[k := g][1..] == gs[1..][k - 1 := g];
      WeightsUpdate(gs[1..], k - 1, g);
    } else {
      assert gs[0 := g][1..] == gs[1..];
    }
  }

  lemma {:induction false} Spawn(gs: seq<Goroutine>)
    ensures Active(gs + [Running]) == Active(gs) + 1 && Weights(gs + [Running]) == Weights(gs) + 2
    decreases |gs|
  {
    if gs == [] {
      assert gs + [Running] == [Running];
    } else {
      assert (gs + [Running])[1..] == gs[1..] + [Running];
      Spawn(gs[1..]);
    }
  }
}

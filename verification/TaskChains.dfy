/** The tasks between two tasks of a recipe: every chain of dependencies from the first to the last. */
module TaskChains {
  import opened Common

  type Task = string

  /** The tasks of a recipe and the tasks each depends on. */
  datatype Recipe = Recipe(tasks: seq<Task>, deps: Task -> set<Task>)
  {
    /** b may follow a in a chain. */
    predicate Follows(a: Task, b: Task) {
      b in tasks && b != a && a in deps(b)
    }
  }

  /** A chain of tasks, each following the one before; nothing follows the end. */
  ghost predicate IsChain(r: Recipe, end: Task, p: seq<Task>) {
    && p != []
    && (forall i :: 0 <= i < |p| - 1 ==> p[i] != end)
    && forall i :: 0 <= i < |p| - 1 ==> r.Follows(p[i], p[i + 1])
  }

  ghost predicate ChainFrom(r: Recipe, end: Task, p: seq<Task>, task: Task) {
    IsChain(r, end, p) && p[0] == task
  }

  /** x is on a chain from a task to the end, or on what led there. */
  ghost predicate Reached(r: Recipe, end: Task, led: seq<Task>, task: Task, x: Task) {
    exists p :: ChainFrom(r, end, p, task) && p[|p| - 1] == end && x in led + p
  }

  /** No chain from task comes back to a task on it, or to one that led to it. */
  ghost predicate NeverReturns(r: Recipe, end: Task, led: seq<Task>, task: Task) {
    forall p :: ChainFrom(r, end, p, task) ==> Distinct(led + p)
  }

  /** The chain is only recorded while looking at a task other than the end. */
  ghost predicate HasOther(r: Recipe, end: Task) {
    exists t :: t in r.tasks && t != end
  }

  // ---- One step along a chain -------------------------------------------------------------------

  lemma ChainTail(r: Recipe, end: Task, p: seq<Task>)
    requires IsChain(r, end, p) && |p| > 1
    ensures ChainFrom(r, end, p[1..], p[1]) && r.Follows(p[0], p[1]) && p[0] != end
    ensures p == [p[0]] + p[1..]
  {
  }

  lemma ChainCons(r: Recipe, end: Task, p: seq<Task>, task: Task)
    requires IsChain(r, end, p) && task != end && r.Follows(task, p[0])
    ensures ChainFrom(r, end, [task] + p, task)
  {
  }

  lemma ReachedStep(r: Recipe, end: Task, led: seq<Task>, task: Task, next: Task, x: Task)
    requires task != end && r.Follows(task, next) && Reached(r, end, led + [task], next, x)
    ensures Reached(r, end, led, task, x)
  {
    var p :| ChainFrom(r, end, p, next) && p[|p| - 1] == end && x in led + [task] + p;
    ChainCons(r, end, p, task);
    assert led + [task] + p == led + ([task] + p);
  }

  lemma ReachedBy(r: Recipe, end: Task, led: seq<Task>, task: Task, x: Task)
    requires task != end && Reached(r, end, led, task, x)
    ensures exists next :: r.Follows(task, next) && Reached(r, end, led + [task], next, x)
  {
    var p :| ChainFrom(r, end, p, task) && p[|p| - 1] == end && x in led + p;
    ChainTail(r, end, p);
    assert led + [task] + p[1..] == led + p;
    assert Reached(r, end, led + [task], p[1], x);
  }

  lemma ReachedEnd(r: Recipe, end: Task, led: seq<Task>, x: Task)
    ensures Reached(r, end, led, end, x) <==> x in led + [end]
  {
    if x in led + [end] {
      assert ChainFrom(r, end, [end], end);
    }
    if Reached(r, end, led, end, x) {
      var p :| ChainFrom(r, end, p, end) && p[|p| - 1] == end && x in led + p;
      assert p == [end];
    }
  }

  lemma NeverReturnsStep(r: Recipe, end: Task, led: seq<Task>, task: Task)
    requires task != end && Distinct(led) && task !in led
    ensures NeverReturns(r, end, led, task) <==>
            forall next :: r.Follows(task, next) ==> NeverReturns(r, end, led + [task], next)
  {
    if NeverReturns(r, end, led, task) {
      forall next, p | r.Follows(task, next) && ChainFrom(r, end, p, next) ensures Distinct(led + [task] + p) {
        ChainCons(r, end, p, task);
        assert led + [task] + p == led + ([task] + p);
      }
    }
    if forall next :: r.Follows(task, next) ==> NeverReturns(r, end, led + [task], next) {
      forall p | ChainFrom(r, end, p, task) ensures Distinct(led + p) {
        if |p| > 1 {
          ChainTail(r, end, p);
          assert led + [task] + p[1..] == led + p;
        } else {
          assert p == [task];
        }
      }
    }
  }

  lemma NeverReturnsEnd(r: Recipe, end: Task, led: seq<Task>)
    requires Distinct(led) && end !in led
    ensures NeverReturns(r, end, led, end)
  {
    forall p | ChainFrom(r, end, p, end) ensures Distinct(led + p) {
      assert p == [end];
    }
  }

  lemma Returned(r: Recipe, end: Task, led: seq<Task>, task: Task)
    requires task in led
    ensures !NeverReturns(r, end, led, task)
  {
    var i :| 0 <= i < |led| && led[i] == task;
    assert ChainFrom(r, end, [task], task);
    assert (led + [task])[i] == (led + [task])[|led|];
  }

  /** Distinct tasks of a finite set are no more than the set has. */
  lemma {:induction false} Fits(s: seq<Task>, all: set<Task>)
    requires Distinct(s) && forall t :: t in s ==> t in all
    ensures |s| <= |all|
  {
    if s != [] {
      var front, last := s[..|s| - 1], s[|s| - 1];
      assert last in s;
      forall t | t in front ensures t in all - {last} {
        assert t in s;
      }
      Fits(front, all - {last});
    }
  }

  lemma OtherIndex(r: Recipe, end: Task)
    ensures HasOther(r, end) <==> exists k :: 0 <= k < |r.tasks| && r.tasks[k] != end
  {
    if HasOther(r, end) {
      var t :| t in r.tasks && t != end;
      var k :| 0 <= k < |r.tasks| && r.tasks[k] == t;
    }
    if k :| 0 <= k < |r.tasks| && r.tasks[k] != end {
      assert r.tasks[k] in r.tasks;
    }
  }

  // ---- tasksbetween -----------------------------------------------------------------------------

  /** The variables that follow_chain shares between its calls. */
  class Follower {
    const r: Recipe
    const end: Task
    var chain: seq<Task>
    var outtasks: seq<Task>

    constructor (r: Recipe, end: Task)
      ensures this.r == r && this.end == end && chain == [] && outtasks == []
    {
      this.r, this.end, chain, outtasks := r, end, [], [];
    }

    method AddChain()
      requires Distinct(outtasks)
      modifies this`outtasks
      ensures Distinct(outtasks) && forall x :: x in outtasks <==> x in old(outtasks) || x in chain
    {
      var i := 0;
      while i < |chain|
        invariant i <= |chain| && Distinct(outtasks)
        invariant forall x :: x in outtasks <==> x in old(outtasks) || x in chain[..i]
      {
        if chain[i] !in outtasks {
          outtasks := outtasks + [chain[i]];
        }
        i := i + 1;
      }
      assert chain[..|chain|] == chain;
    }

    /** Succeeds unless some chain runs in a circle before it comes to the end, and then has added exactly
      * the tasks on the chains to the end, with all that led to here. */
    method FollowChain(task: Task, ghost all: set<Task>) returns (ok: bool)
      requires Distinct(chain) && Distinct(outtasks) && task in all
      requires (forall t :: t in chain ==> t in all) && forall t :: t in r.tasks ==> t in all
      modifies this
      ensures ok <==> NeverReturns(r, end, old(chain), task)
      ensures ok ==> chain == old(chain) && Distinct(outtasks)
      ensures ok ==> forall x :: x in outtasks <==>
                                 x in old(outtasks) || (HasOther(r, end) && Reached(r, end, old(chain), task, x))
      decreases |all| - |chain|, 0
    {
      ghost var led, before := chain, outtasks;
      if task in chain {
        Returned(r, end, led, task);
        return false;
      }
      chain := chain + [task];
      Fits(chain, all);
      if task == end {
        NeverReturnsEnd(r, end, led);
        RecordIfOther();
        forall x ensures Reached(r, end, led, end, x) <==> x in chain {
          ReachedEnd(r, end, led, x);
        }
      } else {
        NeverReturnsStep(r, end, led, task);
        ok := FollowAll(task, led, all);
        if !ok {
          return;
        }
        forall x ensures Reached(r, end, led, task, x) <==>
                         exists next :: r.Follows(task, next) && Reached(r, end, led + [task], next, x)
        {
          if Reached(r, end, led, task, x) {
            ReachedBy(r, end, led, task, x);
          }
          if next :| r.Follows(task, next) && Reached(r, end, led + [task], next, x) {
            ReachedStep(r, end, led, task, next, x);
          }
        }
      }
      chain := chain[..|chain| - 1];
      ok := true;
    }

    /** The loop over the other tasks at the end of a chain. */
    method RecordIfOther()
      requires Distinct(outtasks)
      modifies this`outtasks
      ensures Distinct(outtasks)
      ensures forall x :: x in outtasks <==> x in old(outtasks) || (HasOther(r, end) && x in chain)
    {
      ghost var other := false;
      for i := 0 to |r.tasks|
        invariant Distinct(outtasks)
        invariant other <==> exists k :: 0 <= k < i && r.tasks[k] != end
        invariant forall x :: x in outtasks <==> x in old(outtasks) || (other && x in chain)
      {
        if r.tasks[i] != end {
          AddChain();
          other := true;
        }
      }
      OtherIndex(r, end);
    }

    /** The loop over the other tasks on the way. */
    method FollowAll(task: Task, ghost led: seq<Task>, ghost all: set<Task>) returns (ok: bool)
      requires chain == led + [task] && Distinct(chain) && Distinct(outtasks) && task != end
      requires (forall t :: t in chain ==> t in all) && forall t :: t in r.tasks ==> t in all
      requires |chain| <= |all|
      modifies this
      ensures ok <==> forall next :: r.Follows(task, next) ==> NeverReturns(r, end, led + [task], next)
      ensures ok ==> chain == old(chain) && Distinct(outtasks)
      ensures ok ==>
                forall x :: x in outtasks <==>
                            x in old(outtasks)
                            || (HasOther(r, end)
                                && exists next :: r.Follows(task, next) && Reached(r, end, led + [task], next, x))
      decreases |all| - |led| - 1, 1
    {
      var i := 0;
      while i < |r.tasks|
        invariant i <= |r.tasks| && chain == led + [task] && Distinct(outtasks)
        invariant forall k :: 0 <= k < i && r.Follows(task, r.tasks[k]) ==>
                                NeverReturns(r, end, led + [task], r.tasks[k])
        invariant forall x :: x in outtasks <==>
                              x in old(outtasks)
                              || (HasOther(r, end)
                                  && exists k :: 0 <= k < i && r.Follows(task, r.tasks[k])
                                                 && Reached(r, end, led + [task], r.tasks[k], x))
      {
        var other := r.tasks[i];
        if other != task && task in r.deps(other) {
          ok := FollowChain(other, all);
          if !ok {
            return;
          }
        }
        i := i + 1;
      }
      ok := true;
    }
  }

  /** Fails exactly when a chain from the start comes back on itself before it reaches the end; otherwise the
    * result holds, once each, exactly the tasks on a chain from the start to the end, provided the recipe
    * has a task besides the end. */
  method TasksBetween(r: Recipe, start: Task, end: Task) returns (ok: bool, outtasks: seq<Task>)
    ensures ok <==> NeverReturns(r, end, [], start)
    ensures ok ==> Distinct(outtasks)
    ensures ok ==> forall x :: x in outtasks <==> HasOther(r, end) && Reached(r, end, [], start, x)
  {
    var f := new Follower(r, end);
    ghost var all := set t | t in r.tasks + [start];
    ok := f.FollowChain(start, all);
    outtasks := f.outtasks;
  }

  /** Tasks that can be ranked, so that each depends on lower ones only, have no circle. */
  lemma RankedNeverReturns(r: Recipe, rank: Task -> nat, start: Task, end: Task)
    requires forall t, d :: t in r.tasks && d in r.deps(t) && d != t ==> rank(d) < rank(t)
    ensures NeverReturns(r, end, [], start)
  {
    forall p | ChainFrom(r, end, p, start) ensures Distinct([] + p) {
      assert [] + p == p;
      forall i, j | 0 <= i < j < |p| ensures p[i] != p[j] {
        RanksRise(r, rank, end, p, i, j);
      }
    }
  }

  lemma {:induction false} RanksRise(r: Recipe, rank: Task -> nat, end: Task, p: seq<Task>, i: nat, j: nat)
    requires forall t, d :: t in r.tasks && d in r.deps(t) && d != t ==> rank(d) < rank(t)
    requires IsChain(r, end, p) && i < j < |p|
    ensures rank(p[i]) < rank(p[j])
  {
    assert r.Follows(p[j - 1], p[j]);
    if i < j - 1 {
      RanksRise(r, rank, end, p, i, j - 1);
    }
  }

  /** A single task has nothing between it and itself, not even itself. */
  lemma SingleTaskIsNothing(r: Recipe, end: Task)
    requires forall t :: t in r.tasks ==> t == end
    ensures Reached(r, end, [], end, end) && !HasOther(r, end)
  {
    ReachedEnd(r, end, [], end);
  }
}

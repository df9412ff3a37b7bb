/** Priorities of layers: given ones stay, and a layer without one comes above all it depends on. */
module LayerPriorities {
  import opened Common

  type Layer = string

  /** The layers that are enabled, the priorities given, and what each layer depends on. */
  datatype Layers = Layers(given: map<Layer, Option<int>>, depends: map<Layer, seq<Layer>>, minPrio: int)
  {
    /** Dependencies on layers that are not enabled have been reported and are not here. */
    ghost predicate Closed() {
      given.Keys == depends.Keys && forall c, d :: c in depends && d in depends[c] ==> d in depends
    }

    /** A priority of 0 counts as none. */
    predicate IsGiven(c: Layer)
      requires c in given
    {
      given[c].Some? && given[c].value != 0
    }
  }

  /** No layer depends on itself, by way of others or not. */
  ghost predicate Ranked(ls: Layers, rank: map<Layer, nat>) {
    && ls.Closed() && ls.depends.Keys <= rank.Keys
    && forall c, d :: c in ls.depends && d in ls.depends[c] ==> rank[d] < rank[c]
  }

  function Larger(a: int, b: int): int {
    if b > a then b else a
  }

  /** The priority a layer should have. */
  ghost function Priority(ls: Layers, rank: map<Layer, nat>, c: Layer): int
    requires Ranked(ls, rank) && c in ls.given
    decreases rank[c], 1
  {
    if ls.IsGiven(c) then ls.given[c].value else 1 + MaxOf(ls, rank, c, ls.depends[c])
  }

  ghost function MaxOf(ls: Layers, rank: map<Layer, nat>, c: Layer, deps: seq<Layer>): int
    requires Ranked(ls, rank) && c in ls.given && forall d :: d in deps ==> d in ls.depends[c]
    decreases rank[c], 0, |deps|
  {
    if deps == [] then ls.minPrio
    else Larger(MaxOf(ls, rank, c, deps[..|deps| - 1]), Priority(ls, rank, deps[|deps| - 1]))
  }

  lemma MaxNext(ls: Layers, rank: map<Layer, nat>, c: Layer, i: nat)
    requires Ranked(ls, rank) && c in ls.given && i < |ls.depends[c]|
    ensures var deps := ls.depends[c];
            MaxOf(ls, rank, c, deps[..i + 1]) ==
            Larger(MaxOf(ls, rank, c, deps[..i]), Priority(ls, rank, deps[i]))
  {
    var deps := ls.depends[c];
    assert deps[..i + 1][..i] == deps[..i];
  }

  class Collections {
    const ls: Layers
    var priorities: map<Layer, Option<int>>

    constructor (ls: Layers)
      ensures this.ls == ls && priorities == ls.given
    {
      this.ls, priorities := ls, ls.given;
    }

    /** Each entry is as it was given or as it should be. */
    ghost predicate Valid(rank: map<Layer, nat>)
      requires Ranked(ls, rank)
      reads this`priorities
    {
      && priorities.Keys == ls.given.Keys
      && forall c :: c in priorities ==>
                       priorities[c] == ls.given[c] || priorities[c] == Some(Priority(ls, rank, c))
    }

    /** Gives a layer its priority, and before that all it depends on theirs. What is right already stays. */
    method CalcLayerPriority(c: Layer, ghost rank: map<Layer, nat>)
      requires Ranked(ls, rank) && Valid(rank) && c in ls.given
      modifies this`priorities
      ensures Valid(rank) && priorities[c] == Some(Priority(ls, rank, c))
      ensures forall d :: d in priorities && old(priorities[d]) == Some(Priority(ls, rank, d)) ==>
                            priorities[d] == old(priorities[d])
      decreases rank[c], 1
    {
      if priorities[c].None? || priorities[c].value == 0 {
        var maxDepprio := CalcDependencies(c, rank);
        priorities := priorities[c := Some(maxDepprio + 1)];
      }
    }

    method CalcDependencies(c: Layer, ghost rank: map<Layer, nat>) returns (maxDepprio: int)
      requires Ranked(ls, rank) && Valid(rank) && c in ls.given
      modifies this`priorities
      ensures Valid(rank) && maxDepprio == MaxOf(ls, rank, c, ls.depends[c])
      ensures forall d :: d in priorities && old(priorities[d]) == Some(Priority(ls, rank, d)) ==>
                            priorities[d] == old(priorities[d])
      decreases rank[c], 0
    {
      maxDepprio := ls.minPrio;
      var deps := ls.depends[c];
      for i := 0 to |deps|
        invariant Valid(rank) && maxDepprio == MaxOf(ls, rank, c, deps[..i])
        invariant forall d :: d in priorities && old(priorities[d]) == Some(Priority(ls, rank, d)) ==>
                                priorities[d] == old(priorities[d])
      {
        CalcLayerPriority(deps[i], rank);
        MaxNext(ls, rank, c, i);
        maxDepprio := Larger(maxDepprio, priorities[deps[i]].value);
      }
      assert deps[..|deps|] == deps;
    }

    /** Whatever the order of the layers, each ends up with the priority it should have. */
    method CalcAll(order: seq<Layer>, ghost rank: map<Layer, nat>)
      requires Ranked(ls, rank) && priorities == ls.given && forall c :: c in order <==> c in ls.given
      modifies this`priorities
      ensures priorities.Keys == ls.given.Keys
      ensures forall c :: c in ls.given ==> priorities[c] == Some(Priority(ls, rank, c))
    {
      for i := 0 to |order|
        invariant Valid(rank)
        invariant forall k :: 0 <= k < i ==> priorities[order[k]] == Some(Priority(ls, rank, order[k]))
      {
        CalcLayerPriority(order[i], rank);
      }
    }
  }

  /** A layer without a given priority comes above everything it depends on and above the smallest priority
    * given, and no higher than that takes. */
  lemma AboveDependencies(ls: Layers, rank: map<Layer, nat>, c: Layer)
    requires Ranked(ls, rank) && c in ls.given && !ls.IsGiven(c)
    ensures Priority(ls, rank, c) > ls.minPrio
    ensures forall d :: d in ls.depends[c] ==> Priority(ls, rank, c) > Priority(ls, rank, d)
    ensures Priority(ls, rank, c) == ls.minPrio + 1
            || exists d :: d in ls.depends[c] && Priority(ls, rank, c) == Priority(ls, rank, d) + 1
  {
    MaxIsLeast(ls, rank, c, ls.depends[c]);
  }

  lemma {:induction false} MaxIsLeast(ls: Layers, rank: map<Layer, nat>, c: Layer, deps: seq<Layer>)
    requires Ranked(ls, rank) && c in ls.given && forall d :: d in deps ==> d in ls.depends[c]
    ensures MaxOf(ls, rank, c, deps) >= ls.minPrio
    ensures forall d :: d in deps ==> MaxOf(ls, rank, c, deps) >= Priority(ls, rank, d)
    ensures MaxOf(ls, rank, c, deps) == ls.minPrio
            || exists d :: d in deps && MaxOf(ls, rank, c, deps) == Priority(ls, rank, d)
    decreases |deps|
  {
    if deps != [] {
      var front, last := deps[..|deps| - 1], deps[|deps| - 1];
      MaxIsLeast(ls, rank, c, front);
      assert deps == front + [last] && last in deps;
      assert forall d :: d in front ==> d in deps;
    }
  }
}

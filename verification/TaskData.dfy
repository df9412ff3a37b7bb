/** The task resolver: which recipe builds which target, and how an unbuildable
  * recipe or target takes everything that depends on it down with it.
  *
  * Build and runtime targets live in two dictionaries of the same shape; here they are one
  * map over tagged names. Dictionary iteration is an arbitrary enumeration of the keys, so
  * every result holds for every iteration order.
  */
module TaskData {
  import opened Common

  type Fn = string

  datatype Target = Build(name: string) | Run(name: string)

  function Tag(run: bool, name: string): Target {
    if run then Run(name) else Build(name)
  }

  datatype TaskId = TaskId(fn: Fn, task: string)

  /** Inter-task dependencies of one task: [depends] and [rdepends] flags, parsed. */
  datatype TaskEntry = TaskEntry(idepends: seq<(string, string)>, irdepends: seq<(string, string)>)
  {
    /** The pairs of the kind of t whose first half is the name of t. */
    predicate Names(t: Target) {
      match t
      case Build(n) => exists k :: 0 <= k < |idepends| && idepends[k].0 == n
      case Run(n) => exists k :: 0 <= k < |irdepends| && irdepends[k].0 == n
    }

    ghost predicate Within(names: set<Target>) {
      && (forall k :: 0 <= k < |idepends| ==> Build(idepends[k].0) in names)
      && (forall k :: 0 <= k < |irdepends| ==> Run(irdepends[k].0) in names)
    }
  }

  /** What the runtime filter returns for a target. */
  datatype RuntimeChoice = RuntimeChoice(files: seq<Fn>, numberPreferred: nat)

  /** The parts of the recipe cache that the resolver reads. */
  datatype DataCache = DataCache(
    ignored: string -> bool,
    providers: map<string, seq<Fn>>,
    rproviders: map<string, RuntimeChoice>,
    deps: map<Fn, seq<string>>,
    rdeps: map<Fn, seq<string>>,
    tasks: map<Fn, seq<(string, TaskEntry)>>)
  {
    /** Every recipe that can be chosen is described, and only names of `names` are mentioned. */
    ghost predicate Covers(fns: set<Fn>, names: set<Target>)
    {
      && deps.Keys == fns && rdeps.Keys == fns && tasks.Keys == fns
      && (forall n, f :: n in providers && f in providers[n] ==> f in fns)
      && (forall n, f :: n in rproviders && f in rproviders[n].files ==> f in fns)
      && (forall f, n :: f in deps && n in deps[f] ==> Build(n) in names)
      && (forall f, n :: f in rdeps && n in rdeps[f] ==> Run(n) in names)
      && (forall f, k :: f in tasks && 0 <= k < |tasks[f]| ==> tasks[f][k].1.Within(names))
    }

    /** f lists t among its build or runtime dependencies, or one of its tasks names t. */
    ghost predicate Depends(f: Fn, t: Target) {
      Lists(f, t) || (f in tasks && TasksName(tasks[f], t))
    }

    predicate Lists(f: Fn, t: Target) {
      match t
      case Build(n) => f in deps && n in deps[f]
      case Run(n) => f in rdeps && n in rdeps[f]
    }

    /** Several preferences for one runtime target: MultipleRProvider. */
    predicate Conflict(t: Target) {
      t.Run? && t.name in rproviders && rproviders[t.name].numberPreferred > 1
    }

    /** The recipes the provider filters offer for a target. */
    function Candidates(t: Target): seq<Fn> {
      match t
      case Build(n) => if n in providers then providers[n] else []
      case Run(n) => if n in rproviders then rproviders[n].files else []
    }
  }

  /** The entry that stays when several tasks of a recipe have one name. */
  ghost predicate LastOfName(tasks: seq<(string, TaskEntry)>, k: int) {
    0 <= k < |tasks| && forall j :: k < j < |tasks| ==> tasks[j].0 != tasks[k].0
  }

  ghost predicate TasksName(tasks: seq<(string, TaskEntry)>, t: Target) {
    exists k: int :: LastOfName(tasks, k) && tasks[k].1.Names(t)
  }

  /** The task entries that adding a recipe records. */
  function Entries(fn: Fn, tasks: seq<(string, TaskEntry)>): (entries: map<TaskId, TaskEntry>)
    ensures forall tid :: tid in entries ==> tid.fn == fn
  {
    if tasks == [] then map[]
    else
      var last := tasks[|tasks| - 1];
      Entries(fn, tasks[..|tasks| - 1])[TaskId(fn, last.0) := last.1]
  }

  lemma EntriesNext(before: map<TaskId, TaskEntry>, fn: Fn, tasks: seq<(string, TaskEntry)>, k: nat)
    requires k < |tasks|
    ensures before + Entries(fn, tasks[..k + 1]) ==
            (before + Entries(fn, tasks[..k]))[TaskId(fn, tasks[k].0) := tasks[k].1]
  {
    assert tasks[..k + 1][..k] == tasks[..k];
  }

  lemma {:induction false} EntryAt(fn: Fn, tasks: seq<(string, TaskEntry)>, k: int)
    requires LastOfName(tasks, k)
    ensures TaskId(fn, tasks[k].0) in Entries(fn, tasks) && Entries(fn, tasks)[TaskId(fn, tasks[k].0)] == tasks[k].1
  {
    if k < |tasks| - 1 {
      EntryAt(fn, tasks[..|tasks| - 1], k);
    }
  }

  lemma {:induction false} EntryFrom(fn: Fn, tasks: seq<(string, TaskEntry)>, tid: TaskId) returns (k: int)
    requires tid in Entries(fn, tasks)
    ensures LastOfName(tasks, k) && tid == TaskId(fn, tasks[k].0) && Entries(fn, tasks)[tid] == tasks[k].1
  {
    var last := |tasks| - 1;
    if tid == TaskId(fn, tasks[last].0) {
      k := last;
    } else {
      k := EntryFrom(fn, tasks[..last], tid);
    }
  }

  /** Some recorded entry names t exactly when some task does. */
  lemma EntriesName(fn: Fn, tasks: seq<(string, TaskEntry)>, t: Target)
    ensures (exists tid :: tid in Entries(fn, tasks) && Entries(fn, tasks)[tid].Names(t)) <==> TasksName(tasks, t)
  {
    if tid :| tid in Entries(fn, tasks) && Entries(fn, tasks)[tid].Names(t) {
      var k := EntryFrom(fn, tasks, tid);
    }
    if k: int :| LastOfName(tasks, k) && tasks[k].1.Names(t) {
      EntryAt(fn, tasks, k);
    }
  }

  predicate NeedsIn(depids: map<Fn, seq<string>>, rdepids: map<Fn, seq<string>>, fn: Fn, t: Target) {
    match t
    case Build(n) => fn in depids && n in depids[fn]
    case Run(n) => fn in rdepids && n in rdepids[fn]
  }

  ghost predicate OwnsTaskNaming(entries: map<TaskId, TaskEntry>, fn: Fn, t: Target) {
    exists tid :: tid in entries && tid.fn == fn && entries[tid].Names(t)
  }

  /** With the entries of a new recipe its own tasks name what the cache says; the others are left alone. */
  lemma EntriesAdded(entries: map<TaskId, TaskEntry>, fn: Fn, tasks: seq<(string, TaskEntry)>, f: Fn, t: Target)
    requires f == fn ==> !OwnsTaskNaming(entries, f, t)
    ensures OwnsTaskNaming(entries + Entries(fn, tasks), f, t) <==>
            if f == fn then TasksName(tasks, t) else OwnsTaskNaming(entries, f, t)
  {
    var all := entries + Entries(fn, tasks);
    EntriesName(fn, tasks, t);
    if f == fn {
      if tid :| tid in Entries(fn, tasks) && Entries(fn, tasks)[tid].Names(t) {
        assert all[tid].Names(t);
      }
    } else if tid :| tid in entries && tid.fn == f && entries[tid].Names(t) {
      assert all[tid].Names(t);
    }
  }

  /** The dependencies recorded are those that the cache gives to the recipes seen. */
  ghost predicate RecordedIn(cache: DataCache, seen: seq<Fn>, depids: map<Fn, seq<string>>,
                             rdepids: map<Fn, seq<string>>, entries: map<TaskId, TaskEntry>)
  {
    forall f, t :: RecordedFor(cache, seen, depids, rdepids, entries, f, t)
  }

  ghost predicate RecordedFor(cache: DataCache, seen: seq<Fn>, depids: map<Fn, seq<string>>,
                              rdepids: map<Fn, seq<string>>, entries: map<TaskId, TaskEntry>, f: Fn, t: Target)
  {
    && (NeedsIn(depids, rdepids, f, t) <==> f in seen && cache.Lists(f, t))
    && (OwnsTaskNaming(entries, f, t) <==> f in seen && f in cache.tasks && TasksName(cache.tasks[f], t))
  }

  /** Adding the entries and dependencies of a new recipe keeps it so. */
  lemma RecordedNext(cache: DataCache, seen: seq<Fn>, depids: map<Fn, seq<string>>, rdepids: map<Fn, seq<string>>,
                     entries: map<TaskId, TaskEntry>, fn: Fn)
    requires RecordedIn(cache, seen, depids, rdepids, entries) && fn !in seen
    requires fn in cache.deps && fn in cache.rdeps && fn in cache.tasks
    ensures RecordedIn(cache, seen + [fn], depids[fn := cache.deps[fn]], rdepids[fn := cache.rdeps[fn]],
                       entries + Entries(fn, cache.tasks[fn]))
  {
    var entries' := entries + Entries(fn, cache.tasks[fn]);
    var depids', rdepids' := depids[fn := cache.deps[fn]], rdepids[fn := cache.rdeps[fn]];
    forall f, t ensures RecordedFor(cache, seen + [fn], depids', rdepids', entries', f, t) {
      assert RecordedFor(cache, seen, depids, rdepids, entries, f, t);
      EntriesAdded(entries, fn, cache.tasks[fn], f, t);
    }
  }

  /** The provider list of t once fn is in it. */
  function WithProvider(targets: map<Target, seq<Fn>>, fn: Fn, t: Target): (list: seq<Fn>)
    ensures fn in list
    ensures t in targets && Distinct(targets[t]) ==> Distinct(list)
  {
    if t !in targets then [fn] else if fn in targets[t] then targets[t] else targets[t] + [fn]
  }

  // ---- Recipes that do not fail ---------------------------------------------------------------

  /** The first of these files that has not failed is in S. */
  ghost predicate LedBy(files: seq<Fn>, S: set<Fn>, failed: seq<Fn>) {
    exists k :: 0 <= k < |files| && files[k] in S && forall j :: 0 <= j < k ==> files[j] in failed
  }

  /** What the resolver knows at one moment. */
  datatype Snapshot = Snapshot(targets: map<Target, seq<Fn>>, provided: set<Target>, failedFns: seq<Fn>,
                               failedTargets: seq<Target>)
  {
    /** The target is ignored, has a provider in S, or will first get one in S. */
    ghost predicate Backed(cache: DataCache, S: set<Fn>, t: Target) {
      && t !in failedTargets
      && if t in provided then t in targets && exists p :: p in targets[t] && p in S
         else cache.ignored(t.name) || (!cache.Conflict(t) && LedBy(cache.Candidates(t), S, failedFns))
    }

    /** Recipes that have not failed, all of whose dependencies they back themselves. */
    ghost predicate Spared(cache: DataCache, S: set<Fn>) {
      && (forall f :: f in S ==> f !in failedFns)
      && forall f, t :: BackedFor(cache, S, f, t)
    }

    ghost predicate BackedFor(cache: DataCache, S: set<Fn>, f: Fn, t: Target) {
      f in S && cache.Depends(f, t) ==> Backed(cache, S, t)
    }

    /** A candidate is left for t, and no conflict is in its way. */
    ghost predicate Available(cache: DataCache, t: Target) {
      !cache.Conflict(t) && exists f :: f in cache.Candidates(t) && f !in failedFns
    }

    ghost predicate Tried(cache: DataCache, t: Target) {
      t in provided || !Available(cache, t)
    }

    /** Each of these targets has been given a provider, or none was available. */
    ghost predicate AllTried(cache: DataCache, ts: set<Target>) {
      forall t :: t in ts ==> Tried(cache, t)
    }

    /** So have all failed targets but these. */
    ghost predicate FailedTried(cache: DataCache, given: set<Target>) {
      forall t :: t in failedTargets && t !in given ==> Tried(cache, t)
    }

    /** The first k of these files are listed for t, or have failed. */
    ghost predicate ListedTo(files: seq<Fn>, k: nat, t: Target)
      requires k <= |files|
    {
      forall j :: 0 <= j < k ==> files[j] in failedFns || (t in targets && files[j] in targets[t])
    }

    /** Between the two moments lists have only lost recipes that failed, none of them in S, and targets
      * other than these have only failed when no recipe of S was left in their list. */
    ghost predicate Outside(now: Snapshot, S: set<Fn>, given: set<Target>) {
      && now.provided == provided
      && (forall t, f :: t in targets && f in targets[t] ==>
            t in now.targets && (f in now.targets[t] || f in now.failedFns))
      && (forall f :: f in failedFns ==> f in now.failedFns)
      && (forall f :: f in S ==> f !in now.failedFns)
      && forall t :: t in now.failedTargets && t !in given ==>
           t in provided && t in now.targets && forall p :: p in now.targets[t] ==> p !in S
    }
  }

  /** What has been given a provider or has none available stays so; t joins it. */
  lemma TriedLater(before: Snapshot, now: Snapshot, cache: DataCache, t: Target, tried: set<Target>,
                   given: set<Target>)
    requires before.provided <= now.provided && forall f :: f in before.failedFns ==> f in now.failedFns
    requires before.AllTried(cache, tried) && before.FailedTried(cache, given) && now.Tried(cache, t)
    requires forall x :: x in now.failedTargets ==> x in before.failedTargets || x in now.provided || x == t
    ensures now.AllTried(cache, tried + {t}) && now.FailedTried(cache, given)
  {
    forall x | before.Tried(cache, x) ensures now.Tried(cache, x) {
    }
  }

  lemma ListedNext(before: Snapshot, now: Snapshot, files: seq<Fn>, k: nat, t: Target)
    requires k < |files| && before.ListedTo(files, k, t)
    requires forall f :: t in before.targets && f in before.targets[t] ==>
               t in now.targets && (f in now.targets[t] || f in now.failedFns)
    requires forall f :: f in before.failedFns ==> f in now.failedFns
    requires files[k] in now.failedFns || (t in now.targets && files[k] in now.targets[t])
    ensures now.ListedTo(files, k + 1, t)
  {
  }

  /** What happens outside S leaves S spared. */
  lemma SparedAfter(before: Snapshot, now: Snapshot, cache: DataCache, S: set<Fn>, given: set<Target>)
    requires before.Spared(cache, S) && before.Outside(now, S, given)
    requires forall f, t :: f in S && t in given ==> !cache.Depends(f, t)
    ensures now.Spared(cache, S)
  {
    forall f, t ensures now.BackedFor(cache, S, f, t) {
      assert before.BackedFor(cache, S, f, t);
      if f in S && cache.Depends(f, t) {
        BackedAfter(before, now, cache, S, t, given);
      }
    }
  }

  lemma BackedAfter(before: Snapshot, now: Snapshot, cache: DataCache, S: set<Fn>, t: Target, given: set<Target>)
    requires before.Backed(cache, S, t) && before.Outside(now, S, given) && t !in given
    ensures now.Backed(cache, S, t)
  {
    if t in before.provided {
      var p :| p in before.targets[t] && p in S;
      assert p in now.targets[t];
    } else if !cache.ignored(t.name) {
      var files := cache.Candidates(t);
      var k :| 0 <= k < |files| && files[k] in S && forall j :: 0 <= j < k ==> files[j] in before.failedFns;
      assert LedBy(files, S, now.failedFns);
    }
  }

  /** So does a new provider, if it is one of S or not the first one of a target on which S depends. */
  lemma SparedListed(before: Snapshot, now: Snapshot, cache: DataCache, S: set<Fn>, fn: Fn, t: Target)
    requires before.Spared(cache, S)
    requires t in before.provided || fn in S || forall f :: f in S ==> !cache.Depends(f, t)
    requires now.targets == before.targets[t := WithProvider(before.targets, fn, t)]
    requires now == Snapshot(now.targets, before.provided + {t}, before.failedFns, before.failedTargets)
    ensures now.Spared(cache, S)
  {
    forall f, u ensures now.BackedFor(cache, S, f, u) {
      assert before.BackedFor(cache, S, f, u);
      if f in S && cache.Depends(f, u) && u == t && t in before.provided {
        var p :| p in before.targets[t] && p in S;
        assert p in now.targets[t];
      }
    }
  }

  class TaskData {
    var targets: map<Target, seq<Fn>>
    var seenfns: seq<Fn>
    var taskentries: map<TaskId, TaskEntry>
    var depids: map<Fn, seq<string>>
    var rdepids: map<Fn, seq<string>>
    var failedTargets: seq<Target>
    var failedFns: seq<Fn>

    /** The finite recipe and target universes. */
    ghost const fns: set<Fn>
    ghost const names: set<Target>
    /** Targets that have been given a provider at some point. */
    ghost var provided: set<Target>

    constructor (ghost fns: set<Fn>, ghost names: set<Target>)
      ensures forall cache: DataCache :: cache.Covers(fns, names) ==> Inv(cache)
      ensures targets == map[] && seenfns == [] && failedFns == [] && failedTargets == []
      ensures this.fns == fns && this.names == names
    {
      targets, seenfns, taskentries, depids, rdepids := map[], [], map[], map[], map[];
      failedTargets, failedFns := [], [];
      this.fns, this.names, provided := fns, names, {};
    }

    /** fn lists t among its (recipe-level) build or runtime dependencies. */
    predicate Needs(fn: Fn, t: Target)
      reads this`depids, this`rdepids
    {
      NeedsIn(depids, rdepids, fn, t)
    }

    /** fn goes down with t: it needs t itself, or one of its tasks does. */
    ghost predicate DependsOn(fn: Fn, t: Target)
      reads this`depids, this`rdepids, this`taskentries
    {
      Needs(fn, t) || OwnsTaskNaming(taskentries, fn, t)
    }

    ghost function Failed(): set<Fn>
      reads this`failedFns
    {
      set f | f in failedFns
    }

    /** The structural part of the invariant, which holds even in the middle of a cascade. */
    ghost predicate Base()
      reads this`targets, this`depids, this`rdepids, this`taskentries, this`provided, this`failedTargets
    {
      && targets.Keys <= names
      && (forall t :: t in failedTargets ==> t in names)
      && (forall t :: t in targets ==> Distinct(targets[t]))
      && (forall t, f :: t in targets && f in targets[t] ==> f in fns)
      && depids.Keys <= fns && rdepids.Keys <= fns
      && (forall tid :: tid in taskentries ==> tid.fn in fns)
      && (forall t :: t in targets && targets[t] != [] ==> t in provided)
      && provided <= targets.Keys
    }

    /** What a cascade has established so far: `busyFns` are the recipes and `busyTargets` the targets
      * whose own removal is still under way further up the call stack. */
    ghost predicate Settled(busyFns: set<Fn>, busyTargets: set<Target>)
      reads this`targets, this`depids, this`rdepids, this`failedFns, this`failedTargets
    {
      && (forall t, f :: t in targets && f in targets[t] && f in failedFns ==> f in busyFns)
      && (forall t, f :: t in failedTargets && Needs(f, t) ==> f in failedFns || t in busyTargets)
    }

    /** Every target whose providers have all gone is recorded as failed (`but` excepted). */
    ghost predicate EmptiedRecorded(but: set<Target>)
      reads this`targets, this`provided, this`failedTargets
    {
      forall t :: t in provided && t in targets && targets[t] == [] ==> t in failedTargets || t in but
    }

    /** S is a set of recipes that may all be failed without contradiction: it contains the failed
      * ones, and whenever it swallows every provider of a target it swallows the dependants too. */
    ghost predicate Closed(S: set<Fn>)
      reads this`targets, this`depids, this`rdepids, this`taskentries, this`provided, this`failedFns
    {
      && Failed() <= S
      && forall t :: Swallows(S, t) ==> forall f :: DependsOn(f, t) ==> f in S
    }

    /** t once had providers, and S contains all that are left. */
    ghost predicate Swallows(S: set<Fn>, t: Target)
      reads this`targets, this`provided
    {
      t in provided && t in targets && forall p :: p in targets[t] ==> p in S
    }

    /** Provider lists only lose recipes that have failed; failure is permanent. */
    twostate predicate Shrunk()
      reads this`targets, this`failedFns, this`failedTargets
    {
      && targets.Keys == old(targets.Keys)
      && (forall t, f :: t in targets && f in targets[t] ==> f in old(targets)[t])
      && (forall t, f :: t in targets && f in old(targets)[t] ==> f in targets[t] || f in failedFns)
      && (forall f :: f in old(failedFns) ==> f in failedFns)
      && (forall t :: t in old(failedTargets) ==> t in failedTargets)
    }

    /** A target other than these has only failed because S contains all its providers. */
    ghost predicate Drained(S: set<Fn>, given: set<Target>)
      reads this`targets, this`provided, this`failedTargets
    {
      forall t :: t in failedTargets ==> t in given || Swallows(S, t)
    }

    /** Everything a cascade maintains while `busyFns` and `busyTargets` are on the call stack. */
    ghost predicate Cascading(busyFns: set<Fn>, busyTargets: set<Target>, S: set<Fn>, given: set<Target>)
      reads this
    {
      Base() && Settled(busyFns, busyTargets) && EmptiedRecorded({}) && Closed(S) && Drained(S, given)
    }

    /** Marks a recipe as unbuildable and strikes it from every provider list. S is any closed set
      * containing fn: the cascade fails nothing outside it, so what it fails is the least such set. */
    method FailFn(fn: Fn, ghost busyFns: set<Fn>, ghost busyTargets: set<Target>, ghost S: set<Fn>,
        ghost given: set<Target>)
      requires Cascading(busyFns, busyTargets, S, given)
      requires fn in fns && fn in S
      modifies this`targets, this`failedFns, this`failedTargets
      ensures Cascading(busyFns, busyTargets, S, given)
      ensures fn in failedFns && Shrunk()
      decreases fns - Failed(), 0
    {
      if fn in failedFns {
        return;
      }
      failedFns := failedFns + [fn];
      assert fn in Failed() && fn in old(fns - Failed());
      var todo := targets.Keys;
      while todo != {}
        invariant todo <= targets.Keys
        invariant Cascading(busyFns + {fn}, busyTargets, S, given)
        invariant fn in failedFns && Shrunk()
        invariant forall t :: t in targets && t !in todo ==> fn !in targets[t]
        invariant fns - Failed() < old(fns - Failed())
        decreases todo
      {
        var t :| t in todo;
        todo := todo - {t};
        if fn in targets[t] {
          DropProvider(t, fn, busyFns + {fn}, busyTargets, S, given);
        }
      }
    }

    /** The body of the loop over provider lists in FailFn. */
    method DropProvider(t: Target, fn: Fn, ghost busyFns: set<Fn>, ghost busyTargets: set<Target>, ghost S: set<Fn>,
        ghost given: set<Target>)
      requires Cascading(busyFns, busyTargets, S, given)
      requires t in targets && fn in targets[t] && fn in failedFns
      modifies this`targets, this`failedFns, this`failedTargets
      ensures Cascading(busyFns, busyTargets, S, given)
      ensures fn !in targets[t] && Shrunk()
      decreases fns - Failed(), 2
    {
      RemoveDistinct(targets[t], fn);
      assert fn in Failed() && fn in S;
      targets := targets[t := Remove(targets[t], fn)];
      assert forall x :: Swallows(S, x) ==> old(Swallows(S, x));
      if targets[t] == [] {
        assert Swallows(S, t);
        RemoveTarget(t, busyFns, busyTargets, S, given);
      }
    }

    /** Marks a target as unbuildable and fails every recipe that depends on it. */
    method RemoveTarget(target: Target, ghost busyFns: set<Fn>, ghost busyTargets: set<Target>, ghost S: set<Fn>,
        ghost given: set<Target>)
      requires Base() && Settled(busyFns, busyTargets) && EmptiedRecorded({target}) && Closed(S)
      requires Drained(S, given) && (target in given || Swallows(S, target))
      requires target in names
      requires forall f :: DependsOn(f, target) ==> f in S
      modifies this`targets, this`failedFns, this`failedTargets
      ensures Cascading(busyFns, busyTargets, S, given)
      ensures target in failedTargets && Shrunk()
      ensures forall f :: DependsOn(f, target) ==> f in failedFns
      decreases fns - Failed(), 1, 1
    {
      failedTargets := failedTargets + [target];
      var dependees := set f | f in depids.Keys + rdepids.Keys && Needs(f, target);
      while dependees != {}
        invariant Cascading(busyFns, busyTargets + {target}, S, given)
        invariant target in failedTargets && Shrunk()
        invariant forall f :: f in dependees ==> Needs(f, target)
        invariant forall f :: Needs(f, target) ==> f in failedFns || f in dependees
        decreases dependees
      {
        var fn :| fn in dependees;
        dependees := dependees - {fn};
        FailFn(fn, busyFns, busyTargets + {target}, S, given);
      }
      FailTaskOwners(target, busyFns, busyTargets + {target}, S, given);
    }

    /** The second loop of RemoveTarget: recipes one of whose tasks names the target. */
    method FailTaskOwners(target: Target, ghost busyFns: set<Fn>, ghost busyTargets: set<Target>, ghost S: set<Fn>,
        ghost given: set<Target>)
      requires Cascading(busyFns, busyTargets, S, given)
      requires forall f :: DependsOn(f, target) ==> f in S
      modifies this`targets, this`failedFns, this`failedTargets
      ensures Cascading(busyFns, busyTargets, S, given) && Shrunk()
      ensures forall tid :: tid in taskentries && taskentries[tid].Names(target) ==> tid.fn in failedFns
      decreases fns - Failed(), 1, 0
    {
      var tids := taskentries.Keys;
      while tids != {}
        invariant tids <= taskentries.Keys
        invariant Cascading(busyFns, busyTargets, S, given) && Shrunk()
        invariant forall tid :: tid in taskentries && tid !in tids && taskentries[tid].Names(target) ==>
                                  tid.fn in failedFns
        decreases tids
      {
        var tid :| tid in tids;
        tids := tids - {tid};
        if taskentries[tid].Names(target) {
          assert DependsOn(tid.fn, target);
          FailFn(tid.fn, busyFns, busyTargets, S, given);
        }
      }
    }

    /** Outside a cascade no particular closed set matters: the set of all recipes is one. */
    ghost predicate Quiet(busyTargets: set<Target>)
      reads this
    {
      Base() && Settled({}, busyTargets) && EmptiedRecorded({}) && Failed() <= fns
    }

    lemma UniverseClosed(busyTargets: set<Target>)
      requires Quiet(busyTargets)
      ensures Cascading({}, busyTargets, fns, set t | t in failedTargets)
    {
    }

    /** Every recipe in a provider list was offered for that target and has had its tasks added; ignored
      * targets get no providers. */
    ghost predicate ProvidersSeen(cache: DataCache, but: set<Fn>)
      reads this`targets, this`seenfns, this`provided
    {
      && (forall t :: t in provided ==> !cache.ignored(t.name))
      && (forall t, p :: t in targets && p in targets[t] ==> p in cache.Candidates(t))
      && (forall t, p :: t in targets && p in targets[t] ==> p in seenfns || p in but)
    }

    /** The dependencies of a recipe that was added and has not failed are all known targets, and so is
      * everything that a task names. */
    ghost predicate DepsSeen(but: set<Fn>)
      reads this`targets, this`seenfns, this`failedFns, this`depids, this`rdepids, this`taskentries
    {
      && depids.Keys <= (set f | f in seenfns) && rdepids.Keys <= (set f | f in seenfns)
      && (forall f, t :: f in seenfns && f !in failedFns && f !in but && Needs(f, t) ==> t in targets)
      && TasksSeen()
    }

    ghost predicate TasksSeen()
      reads this`targets, this`taskentries
    {
      forall tid, t :: tid in taskentries && taskentries[tid].Names(t) ==> t in targets
    }

    /** What is recorded about dependencies is what the cache says about the recipes added. */
    ghost predicate Recorded(cache: DataCache)
      reads this`seenfns, this`depids, this`rdepids, this`taskentries
    {
      RecordedIn(cache, seenfns, depids, rdepids, taskentries)
    }

    /** The state between two public calls. */
    ghost predicate Inv(cache: DataCache)
      reads this
    {
      && cache.Covers(fns, names)
      && Quiet({})
      && ProvidersSeen(cache, {}) && DepsSeen({}) && Recorded(cache)
    }

    ghost function Now(): Snapshot
      reads this`targets, this`provided, this`failedFns, this`failedTargets
    {
      Snapshot(targets, provided, failedFns, failedTargets)
    }

    /** Recipes that have not failed, all of whose dependencies they back themselves. */
    ghost predicate Spared(cache: DataCache, S: set<Fn>)
      reads this`targets, this`provided, this`failedFns, this`failedTargets
    {
      Now().Spared(cache, S)
    }

    /** No target that S depends on has failed. */
    lemma SparedKnows(cache: DataCache, S: set<Fn>, given: set<Target>)
      requires Spared(cache, S) && forall t :: t in given ==> t in failedTargets
      ensures forall f, t :: f in S && t in given ==> !cache.Depends(f, t)
    {
      forall f, t | f in S && t in given ensures !cache.Depends(f, t) {
        assert Now().BackedFor(cache, S, f, t);
      }
    }

    /** A plain case of it: no target that they depend on has failed, and each is ignored or has candidates
      * without conflict, all among them. */
    lemma InsideIsSpared(cache: DataCache, S: set<Fn>)
      requires Inv(cache) && forall f :: f in S ==> f !in failedFns
      requires forall f, t :: f in S && cache.Depends(f, t) ==>
                 t !in failedTargets && (cache.ignored(t.name) || (!cache.Conflict(t) && cache.Candidates(t) != []
                                         && forall p :: p in cache.Candidates(t) ==> p in S))
      ensures Spared(cache, S)
    {
      forall f, t | f in S && cache.Depends(f, t) ensures Now().BackedFor(cache, S, f, t) {
        if t in provided {
          assert targets[t] != [] && targets[t][0] in targets[t];
        } else if !cache.ignored(t.name) {
          assert cache.Candidates(t)[0] in S;
        }
      }
    }

    /** The others are a closed set: no cascade among them reaches a recipe of S. */
    lemma SparedClosed(cache: DataCache, S: set<Fn>)
      requires Recorded(cache) && Spared(cache, S) && Failed() <= fns
      requires forall f, t :: DependsOn(f, t) ==> f in fns
      ensures Closed(fns - S)
    {
      forall t, f | Swallows(fns - S, t) && DependsOn(f, t) ensures f in fns - S {
        assert RecordedFor(cache, seenfns, depids, rdepids, taskentries, f, t) && Now().BackedFor(cache, S, f, t);
      }
    }

    method SeenTarget(t: Target)
      modifies this`targets
      ensures targets == if t in old(targets) then old(targets) else old(targets)[t := []]
    {
      if t !in targets {
        targets := targets[t := []];
      }
    }

    /** Targets have only been added, each without a provider. */
    twostate predicate OnlySeen()
      reads this`targets
    {
      && (forall t :: t in old(targets) ==> t in targets && targets[t] == old(targets)[t])
      && (forall t :: t in targets && t !in old(targets) ==> targets[t] == [])
    }

    method HandleDeps(deps: seq<(string, string)>, run: bool)
      requires forall i :: 0 <= i < |deps| ==> Tag(run, deps[i].0) in names
      modifies this`targets
      ensures OnlySeen() && targets.Keys <= old(targets.Keys) + names
      ensures forall i :: 0 <= i < |deps| ==> Tag(run, deps[i].0) in targets
    {
      for i := 0 to |deps|
        invariant OnlySeen() && targets.Keys <= old(targets.Keys) + names
        invariant forall j :: 0 <= j < i ==> Tag(run, deps[j].0) in targets
      {
        SeenTarget(Tag(run, deps[i].0));
      }
    }

    /** One task: its entry, and the targets that it names. */
    method AddTaskEntry(tid: TaskId, entry: TaskEntry)
      requires entry.Within(names) && TasksSeen()
      modifies this`targets, this`taskentries
      ensures OnlySeen() && targets.Keys <= old(targets.Keys) + names && TasksSeen()
      ensures taskentries == old(taskentries)[tid := entry]
    {
      taskentries := taskentries[tid := entry];
      HandleDeps(entry.idepends, false);
      HandleDeps(entry.irdepends, true);
      forall t | entry.Names(t) ensures t in targets {
      }
    }

    method AddTaskEntries(fn: Fn, tasks: seq<(string, TaskEntry)>)
      requires (forall k :: 0 <= k < |tasks| ==> tasks[k].1.Within(names)) && TasksSeen()
      modifies this`targets, this`taskentries
      ensures OnlySeen() && targets.Keys <= old(targets.Keys) + names && TasksSeen()
      ensures taskentries == old(taskentries) + Entries(fn, tasks)
    {
      for k := 0 to |tasks|
        invariant OnlySeen() && targets.Keys <= old(targets.Keys) + names && TasksSeen()
        invariant taskentries == old(taskentries) + Entries(fn, tasks[..k])
      {
        var (task, entry) := tasks[k];
        EntriesNext(old(taskentries), fn, tasks, k);
        AddTaskEntry(TaskId(fn, task), entry);
      }
      assert tasks[..|tasks|] == tasks;
    }

    twostate predicate NoneGivenUp()
      reads this`provided, this`failedTargets
    {
      forall t :: t in failedTargets ==> t in old(failedTargets) || t in provided
    }

    /** Targets may have been added without provider; provider lists only lost recipes that failed, and
      * targets only failed after they had had providers. */
    twostate predicate Later()
      reads this`targets, this`provided, this`failedFns, this`failedTargets
    {
      && NoneGivenUp()
      && old(targets.Keys) <= targets.Keys
      && (forall t, f :: t in targets && f in targets[t] ==> t in old(targets) && f in old(targets)[t])
      && (forall t, f :: t in old(targets) && f in old(targets)[t] ==> f in targets[t] || f in failedFns)
      && (forall f :: f in old(failedFns) ==> f in failedFns)
      && (forall t :: t in old(failedTargets) ==> t in failedTargets)
    }

    /** Registering targets leaves a closed set closed. */
    twostate lemma ClosedSeen(C: set<Fn>)
      requires old(Closed(C)) && OnlySeen() && old(provided) <= old(targets.Keys)
      requires depids == old(depids) && rdepids == old(rdepids) && taskentries == old(taskentries)
      requires provided == old(provided) && failedFns == old(failedFns)
      ensures Closed(C)
    {
      assert forall t :: Swallows(C, t) ==> old(Swallows(C, t));
    }

    method SeeDep(t: Target, ghost busy: set<Target>, ghost C: set<Fn>)
      requires Quiet(busy) && t in names && Closed(C)
      modifies this`targets
      ensures targets == if t in old(targets) then old(targets) else old(targets)[t := []]
      ensures Quiet(busy) && Closed(C)
    {
      SeenTarget(t);
      ClosedSeen(C);
    }

    /** One of the two loops at the end of AddTasks: registers the dependencies of fn, and fails fn as
      * soon as one of them is known to be unbuildable. */
    method CheckDeps(fn: Fn, deps: seq<string>, run: bool, ghost busy: set<Target>, ghost C: set<Fn>)
        returns (ok: bool)
      requires Quiet(busy) && fn in fns && fn !in failedFns && Closed(C) && C <= fns
      requires forall n :: n in deps ==> Tag(run, n) in names && (Tag(run, n) in failedTargets ==> fn in C)
      modifies this`targets, this`failedFns, this`failedTargets
      ensures Quiet(busy) && Closed(C) && Drained(C, old(set t | t in failedTargets))
      ensures ok == !exists n :: n in deps && Tag(run, n) in old(failedTargets)
      ensures ok ==> failedFns == old(failedFns) && failedTargets == old(failedTargets) && OnlySeen()
      ensures ok ==> forall n :: n in deps ==> Tag(run, n) in targets
      ensures !ok ==> fn in failedFns
      ensures Later()
    {
      for k := 0 to |deps|
        invariant Quiet(busy) && OnlySeen() && Closed(C)
        invariant failedFns == old(failedFns) && failedTargets == old(failedTargets)
        invariant forall i :: 0 <= i < k ==> Tag(run, deps[i]) in targets && Tag(run, deps[i]) !in failedTargets
      {
        SeeDep(Tag(run, deps[k]), busy, C);
        if Tag(run, deps[k]) in failedTargets {
          FailFn(fn, {}, busy, C, set t | t in failedTargets);
          return false;
        }
      }
      return true;
    }

    /** Registering targets and recording tasks disturbs nothing. */
    twostate lemma SeenKeepsQuiet(busyTargets: set<Target>)
      requires old(Quiet(busyTargets)) && OnlySeen() && targets.Keys <= names
      requires depids == old(depids) && rdepids == old(rdepids) && provided == old(provided)
      requires failedFns == old(failedFns) && failedTargets == old(failedTargets)
      requires forall tid :: tid in taskentries ==> tid.fn in fns
      ensures Quiet(busyTargets)
    {
      assert forall t, f :: t in targets && f in targets[t] ==> t in old(targets);
    }

    method AddQuietly(fn: Fn, tasks: seq<(string, TaskEntry)>)
      requires (forall k :: 0 <= k < |tasks| ==> tasks[k].1.Within(names)) && TasksSeen() && Quiet({}) && fn in fns
      modifies this`targets, this`taskentries
      ensures OnlySeen() && TasksSeen() && Quiet({})
      ensures taskentries == old(taskentries) + Entries(fn, tasks)
    {
      AddTaskEntries(fn, tasks);
      SeenKeepsQuiet({});
    }

    /** The first part of AddTasks: records a new recipe and its tasks. */
    method RecordTasks(fn: Fn, cache: DataCache)
      requires cache.Covers(fns, names) && fn in fns && fn !in seenfns
      requires Quiet({}) && DepsSeen({}) && ProvidersSeen(cache, {fn})
      modifies `targets, `seenfns, `taskentries
      ensures seenfns == old(seenfns) + [fn]
      ensures taskentries == old(taskentries) + Entries(fn, cache.tasks[fn])
      ensures OnlySeen() && DepsSeen({}) && ProvidersSeen(cache, {}) && Quiet({})
    {
      See(fn, cache);
      AddSeen(fn, cache);
    }

    method See(fn: Fn, ghost cache: DataCache)
      requires fn !in seenfns && DepsSeen({}) && ProvidersSeen(cache, {fn})
      modifies `seenfns
      ensures seenfns == old(seenfns) + [fn] && DepsSeen({}) && ProvidersSeen(cache, {})
    {
      assert forall t :: !Needs(fn, t);
      seenfns := seenfns + [fn];
    }

    method AddSeen(fn: Fn, cache: DataCache)
      requires cache.Covers(fns, names) && fn in fns
      requires Quiet({}) && DepsSeen({}) && ProvidersSeen(cache, {})
      modifies `targets, `taskentries
      ensures taskentries == old(taskentries) + Entries(fn, cache.tasks[fn])
      ensures OnlySeen() && DepsSeen({}) && ProvidersSeen(cache, {}) && Quiet({})
    {
      AddQuietly(fn, cache.tasks[fn]);
    }

    /** The second part of AddTasks: records the dependencies of a new recipe. */
    method RecordDeps(fn: Fn, cache: DataCache)
      requires cache.Covers(fns, names) && fn in fns && fn in seenfns && fn !in depids && fn !in rdepids
      requires Quiet({}) && DepsSeen({})
      modifies `depids, `rdepids
      ensures depids == old(depids)[fn := cache.deps[fn]] && rdepids == old(rdepids)[fn := cache.rdeps[fn]]
      ensures DepsSeen({fn}) && Quiet(set t | t in failedTargets)
      ensures forall t, f :: t in failedTargets && Needs(f, t) && f != fn ==> f in failedFns
    {
      if fn !in depids {
        depids := depids[fn := cache.deps[fn]];
      }
      if fn !in rdepids {
        rdepids := rdepids[fn := cache.rdeps[fn]];
      }
      assert forall t, f :: f != fn ==> Needs(f, t) == old(Needs(f, t));
    }

    /** The third part of AddTasks: the two loops over the dependencies of the new recipe. */
    method CheckAllDeps(fn: Fn, ghost busy: set<Target>, ghost cache: DataCache, ghost C: set<Fn>)
      requires Quiet(busy) && fn in fns && fn in seenfns && fn !in failedFns && Closed(C) && C <= fns
      requires busy == (set t | t in failedTargets) && fn in depids && fn in rdepids
      requires forall n :: n in depids[fn] ==> Build(n) in names
      requires forall n :: n in rdepids[fn] ==> Run(n) in names
      requires forall t :: Needs(fn, t) && t in failedTargets ==> fn in C
      requires ProvidersSeen(cache, {}) && DepsSeen({fn})
      requires forall t, f :: t in failedTargets && Needs(f, t) && f != fn ==> f in failedFns
      modifies `targets, `failedFns, `failedTargets
      ensures Quiet({}) && ProvidersSeen(cache, {}) && DepsSeen({}) && Later()
      ensures Closed(C) && Drained(C, busy)
      ensures fn in failedFns <==> exists t :: t in old(failedTargets) && Needs(fn, t)
      ensures fn !in failedFns ==> failedFns == old(failedFns) && failedTargets == old(failedTargets) && OnlySeen()
    {
      assert forall n :: n in depids[fn] ==> Needs(fn, Build(n));
      assert forall n :: n in rdepids[fn] ==> Needs(fn, Run(n));
      var ok := CheckDeps(fn, depids[fn], false, busy, C);
      if ok {
        ok := CheckDeps(fn, rdepids[fn], true, busy, C);
      }
      assert ok <==> !exists t :: t in old(failedTargets) && Needs(fn, t);
    }

    /** The first two parts of AddTasks together. */
    method RecordBoth(fn: Fn, cache: DataCache)
      requires cache.Covers(fns, names) && fn in fns && fn !in seenfns
      requires Quiet({}) && ProvidersSeen(cache, {fn}) && DepsSeen({}) && Recorded(cache)
      modifies `targets, `seenfns, `taskentries, `depids, `rdepids
      ensures seenfns == old(seenfns) + [fn] && taskentries == old(taskentries) + Entries(fn, cache.tasks[fn])
      ensures depids == old(depids)[fn := cache.deps[fn]] && rdepids == old(rdepids)[fn := cache.rdeps[fn]]
      ensures Quiet(set t | t in failedTargets) && ProvidersSeen(cache, {}) && DepsSeen({fn}) && OnlySeen()
      ensures forall t, f :: t in failedTargets && Needs(f, t) && f != fn ==> f in failedFns
      ensures Recorded(cache)
    {
      assert fn !in depids.Keys && fn !in rdepids.Keys;
      RecordedNext(cache, seenfns, depids, rdepids, taskentries, fn);
      RecordTasks(fn, cache);
      RecordDeps(fn, cache);
    }

    /** They leave S spared: a recipe of S does not depend on a failed target. */
    method RecordNew(fn: Fn, cache: DataCache, ghost S: set<Fn>)
      requires cache.Covers(fns, names) && fn in fns && fn !in failedFns && fn !in seenfns
      requires Quiet({}) && ProvidersSeen(cache, {fn}) && DepsSeen({}) && Recorded(cache) && Spared(cache, S)
      modifies `targets, `seenfns, `taskentries, `depids, `rdepids
      ensures seenfns == old(seenfns) + [fn] && taskentries == old(taskentries) + Entries(fn, cache.tasks[fn])
      ensures depids == old(depids)[fn := cache.deps[fn]] && rdepids == old(rdepids)[fn := cache.rdeps[fn]]
      ensures Quiet(set t | t in failedTargets) && ProvidersSeen(cache, {}) && DepsSeen({fn}) && OnlySeen()
      ensures forall t, f :: t in failedTargets && Needs(f, t) && f != fn ==> f in failedFns
      ensures Recorded(cache) && Closed(fns - S) && Spared(cache, S)
      ensures forall t :: Needs(fn, t) && t in failedTargets ==> fn in fns - S
    {
      ghost var before, given := Now(), set t | t in failedTargets;
      SparedKnows(cache, S, given);
      RecordBoth(fn, cache);
      SparedAfter(before, Now(), cache, S, given);
      SparedClosed(cache, S);
      forall t | Needs(fn, t) && t in failedTargets ensures fn in fns - S {
        assert RecordedFor(cache, seenfns, depids, rdepids, taskentries, fn, t) && Now().BackedFor(cache, S, fn, t);
      }
    }

    /** The third part leaves S spared. */
    method CheckNew(fn: Fn, ghost cache: DataCache, ghost S: set<Fn>)
      requires cache.Covers(fns, names) && fn in fns && fn !in failedFns && fn in seenfns
      requires Quiet(set t | t in failedTargets) && ProvidersSeen(cache, {}) && DepsSeen({fn})
      requires forall t, f :: t in failedTargets && Needs(f, t) && f != fn ==> f in failedFns
      requires Closed(fns - S) && Spared(cache, S) && fn in depids && fn in rdepids
      requires depids[fn] == cache.deps[fn] && rdepids[fn] == cache.rdeps[fn]
      requires forall t :: Needs(fn, t) && t in failedTargets ==> fn in fns - S
      modifies `targets, `failedFns, `failedTargets
      ensures Quiet({}) && ProvidersSeen(cache, {}) && DepsSeen({}) && Later() && Spared(cache, S)
      ensures fn in failedFns <==> exists t :: t in old(failedTargets) && Needs(fn, t)
      ensures fn !in failedFns ==> failedFns == old(failedFns) && failedTargets == old(failedTargets) && OnlySeen()
    {
      ghost var before, given := Now(), set t | t in failedTargets;
      SparedKnows(cache, S, given);
      CheckAllDeps(fn, given, cache, fns - S);
      SparedAfter(before, Now(), cache, S, given);
    }

    /** The same for a recipe that has not been added before. */
    method AddNewTasks(fn: Fn, cache: DataCache, ghost S: set<Fn>)
      requires cache.Covers(fns, names) && fn in fns && fn !in failedFns && fn !in seenfns
      requires Quiet({}) && ProvidersSeen(cache, {fn}) && DepsSeen({}) && Recorded(cache) && Spared(cache, S)
      modifies `targets, `seenfns, `taskentries, `depids, `rdepids, `failedFns, `failedTargets
      ensures Inv(cache) && Later() && Spared(cache, S)
      ensures seenfns == old(seenfns) + [fn] && taskentries == old(taskentries) + Entries(fn, cache.tasks[fn])
      ensures depids == old(depids)[fn := cache.deps[fn]] && rdepids == old(rdepids)[fn := cache.rdeps[fn]]
      ensures fn in failedFns <==> exists t :: t in old(failedTargets) && Needs(fn, t)
      ensures fn !in failedFns ==>
                failedFns == old(failedFns) && failedTargets == old(failedTargets) && OnlySeen()
    {
      RecordNew(fn, cache, S);
      CheckNew(fn, cache, S);
    }

    /** Adds the tasks and dependencies of a recipe. A recipe that depends on a target already known to
      * be unbuildable fails at once, and for no other reason. */
    method AddTasks(fn: Fn, cache: DataCache, ghost S: set<Fn>)
      requires cache.Covers(fns, names) && fn in fns && fn !in failedFns
      requires Quiet({}) && ProvidersSeen(cache, {fn}) && DepsSeen({}) && Recorded(cache) && Spared(cache, S)
      modifies `targets, `seenfns, `taskentries, `depids, `rdepids, `failedFns, `failedTargets
      ensures Inv(cache) && fn in seenfns && Later() && Spared(cache, S)
      ensures fn in old(seenfns) ==> unchanged(this)
      ensures fn !in old(seenfns) ==>
        && seenfns == old(seenfns) + [fn]
        && taskentries == old(taskentries) + Entries(fn, cache.tasks[fn])
        && depids == old(depids)[fn := cache.deps[fn]] && rdepids == old(rdepids)[fn := cache.rdeps[fn]]
        && (fn in failedFns <==> (exists n :: n in cache.deps[fn] && Build(n) in old(failedTargets))
                                 || exists n :: n in cache.rdeps[fn] && Run(n) in old(failedTargets))
        && (fn !in failedFns ==> failedFns == old(failedFns) && failedTargets == old(failedTargets) && OnlySeen())
      ensures old(FailsAtOnce(cache, fn)) ==> fn in failedFns
    {
      if fn !in seenfns {
        AddNewTasks(fn, cache, S);
        assert forall n :: n in cache.deps[fn] ==> Needs(fn, Build(n));
        assert forall n :: n in cache.rdeps[fn] ==> Needs(fn, Run(n));
      }
    }

    /** A target that is neither resolved nor failed for good; this set only ever shrinks. */
    ghost function Open(): set<Target>
      reads this`provided, this`failedTargets
    {
      set t | t in names && t !in provided && t !in failedTargets
    }

    /** What a public call leaves behind, relative to where it started. */
    twostate predicate Progress()
      reads this`targets, this`provided, this`seenfns, this`failedFns, this`failedTargets
    {
      && (forall f :: f in old(seenfns) ==> f in seenfns)
      && old(targets.Keys) <= targets.Keys && old(provided) <= provided
      && (forall t, f :: t in old(targets) && f in old(targets)[t] ==>
            t in targets && (f in targets[t] || f in failedFns))
      && (forall f :: f in old(failedFns) ==> f in failedFns)
      && (forall t :: t in old(failedTargets) ==> t in failedTargets)
    }

    method AddTarget(fn: Fn, t: Target)
      modifies `targets, `provided
      ensures provided == old(provided) + {t}
      ensures targets == old(targets)[t := WithProvider(old(targets), fn, t)]
    {
      provided := provided + {t};
      if t in targets {
        if fn in targets[t] {
          return;
        }
        targets := targets[t := targets[t] + [fn]];
        return;
      }
      targets := targets[t := [fn]];
    }

    /** The first provider of a target on which recipes of S depend is one of them. */
    ghost predicate MayLead(cache: DataCache, S: set<Fn>, t: Target, fn: Fn)
      reads this`provided
    {
      t in provided || fn in S || forall f :: f in S ==> !cache.Depends(f, t)
    }

    method ListQuietly(fn: Fn, t: Target, ghost cache: DataCache)
      requires Inv(cache) && t in names && fn in fns && fn in cache.Candidates(t) && fn !in failedFns
      requires !cache.ignored(t.name)
      modifies `targets, `provided
      ensures provided == old(provided) + {t}
      ensures targets == old(targets)[t := WithProvider(old(targets), fn, t)]
      ensures Quiet({}) && ProvidersSeen(cache, {fn}) && DepsSeen({})
    {
      AddTarget(fn, t);
    }

    /** A healthy candidate at the end of a provider list disturbs nothing but that its own tasks are
      * still to be added. */
    method ListProvider(fn: Fn, t: Target, cache: DataCache, ghost S: set<Fn>)
      requires Inv(cache) && t in names && fn in fns && fn in cache.Candidates(t) && fn !in failedFns
      requires !cache.ignored(t.name) && Spared(cache, S) && MayLead(cache, S, t, fn)
      modifies `targets, `provided
      ensures provided == old(provided) + {t}
      ensures targets == old(targets)[t := WithProvider(old(targets), fn, t)]
      ensures forall x, f :: x in old(targets) && f in old(targets)[x] ==> f in targets[x]
      ensures Quiet({}) && ProvidersSeen(cache, {fn}) && DepsSeen({}) && Recorded(cache) && Spared(cache, S)
    {
      ghost var before := Now();
      ListQuietly(fn, t, cache);
      SparedListed(before, Now(), cache, S, fn, t);
    }

    /** A recipe that was not added before and names a target that has failed. */
    ghost predicate FailsAtOnce(cache: DataCache, fn: Fn)
      reads this`seenfns, this`failedTargets
    {
      fn !in seenfns && exists t :: t in failedTargets && cache.Lists(fn, t)
    }

    /** If the only provider of t fails at once, t fails with it. */
    method AddTasksFor(fn: Fn, t: Target, cache: DataCache, ghost S: set<Fn>)
      requires cache.Covers(fns, names) && fn in fns && fn !in failedFns && t in provided && t in targets
      requires Quiet({}) && ProvidersSeen(cache, {fn}) && DepsSeen({}) && Recorded(cache) && Spared(cache, S)
      modifies `targets, `seenfns, `taskentries, `depids, `rdepids, `failedFns, `failedTargets
      ensures Inv(cache) && fn in seenfns && Later() && Spared(cache, S)
      ensures forall f :: f in old(seenfns) ==> f in seenfns
      ensures old(FailsAtOnce(cache, fn)) && old(targets)[t] == [fn] ==> t in failedTargets
    {
      AddTasks(fn, cache, S);
      LastGone(t, fn);
    }

    lemma LastGone(t: Target, fn: Fn)
      requires Quiet({}) && t in provided && t in targets
      ensures fn in failedFns && (forall f :: f in targets[t] ==> f == fn) ==> t in failedTargets
    {
      if targets[t] != [] {
        assert targets[t][0] in targets[t];
      }
    }

    /** One iteration of the loop over eligible recipes. */
    method AddCandidate(fn: Fn, t: Target, cache: DataCache, ghost S: set<Fn>)
      requires Inv(cache) && t in names && fn in cache.Candidates(t) && fn !in failedFns
      requires !cache.ignored(t.name) && Spared(cache, S) && MayLead(cache, S, t, fn)
      modifies this
      ensures Inv(cache) && Progress() && provided == old(provided) + {t} && fn in seenfns && Spared(cache, S)
      ensures NoneGivenUp()
      ensures fn in targets[t] || fn in failedFns
      ensures old(FailsAtOnce(cache, fn)) && !old(HaveProvider(t)) ==> t in failedTargets
    {
      assert fn in fns;
      ListProvider(fn, t, cache, S);
      AddTasksFor(fn, t, cache, S);
    }

    /** Every eligible recipe is listed, unless it has failed by then. If the first one fails at once its target,
      * which has no other provider yet, fails with it, and the recipes that need it; the others come too late. */
    method AddEligible(eligible: seq<Fn>, t: Target, cache: DataCache, ghost S: set<Fn>)
      requires Inv(cache) && t in names && forall f :: f in eligible ==> f in cache.Candidates(t)
      requires eligible != [] && eligible[0] !in failedFns
      requires !cache.ignored(t.name) && Spared(cache, S) && MayLead(cache, S, t, eligible[0])
      modifies this
      ensures Inv(cache) && Progress() && provided == old(provided) + {t} && eligible[0] in seenfns
      ensures Spared(cache, S) && NoneGivenUp()
      ensures forall f :: f in eligible ==> f in targets[t] || f in failedFns
      ensures old(FailsAtOnce(cache, eligible[0])) && !old(HaveProvider(t)) ==>
                t in failedTargets && forall f :: Needs(f, t) ==> f in failedFns
    {
      for k := 0 to |eligible|
        invariant Inv(cache) && Progress() && Spared(cache, S) && NoneGivenUp()
        invariant k == 0 ==> unchanged(this)
        invariant k > 0 ==> provided == old(provided) + {t} && eligible[0] in seenfns
        invariant Now().ListedTo(eligible, k, t)
        invariant k > 0 && old(FailsAtOnce(cache, eligible[0])) && !old(HaveProvider(t)) ==> t in failedTargets
      {
        ghost var before := Now();
        if eligible[k] !in failedFns {
          AddCandidate(eligible[k], t, cache, S);
        }
        ListedNext(before, Now(), eligible, k, t);
      }
    }

    /** The first candidate that gets listed for a target that S depends on is one of S. */
    lemma LeadFirst(cache: DataCache, S: set<Fn>, t: Target)
      requires Spared(cache, S) && Base() && !HaveProvider(t) && !cache.ignored(t.name)
      requires Healthy(cache.Candidates(t)) != []
      ensures MayLead(cache, S, t, Healthy(cache.Candidates(t))[0])
    {
      if f :| f in S && cache.Depends(f, t) {
        assert Now().BackedFor(cache, S, f, t);
        LedIs(cache.Candidates(t), S);
      }
    }

    lemma {:induction false} LedIs(files: seq<Fn>, S: set<Fn>)
      requires LedBy(files, S, failedFns) && forall f :: f in S ==> f !in failedFns
      ensures Healthy(files) != [] && Healthy(files)[0] in S
    {
      var k :| 0 <= k < |files| && files[k] in S && forall j :: 0 <= j < k ==> files[j] in failedFns;
      if files[0] in failedFns {
        assert files[1..][k - 1] in S && forall j :: 0 <= j < k - 1 ==> files[1..][j] == files[j + 1];
        LedIs(files[1..], S);
      }
    }

    /** A target that S depends on is never given up. */
    lemma NotGivenUp(cache: DataCache, S: set<Fn>, t: Target)
      requires Spared(cache, S) && Base() && !HaveProvider(t) && !cache.ignored(t.name)
      requires !Available(cache, t)
      ensures forall f :: f in S ==> !cache.Depends(f, t)
    {
      forall f | f in S ensures !cache.Depends(f, t) {
        if cache.Depends(f, t) {
          assert Now().BackedFor(cache, S, f, t);
          LedIs(cache.Candidates(t), S);
        }
      }
    }

    /** The candidates of a target that have not failed. */
    function Healthy(files: seq<Fn>): (eligible: seq<Fn>)
      reads this`failedFns
      ensures forall f :: f in eligible <==> f in files && f !in failedFns
    {
      if files == [] then []
      else if files[0] in failedFns then Healthy(files[1..])
      else [files[0]] + Healthy(files[1..])
    }

    /** What a call that resolves t leaves: t has been given all candidates that have not failed. */
    ghost predicate Resolved(cache: DataCache, t: Target)
      reads this`targets, this`provided, this`failedFns
    {
      t in provided && t in targets && forall f :: f in cache.Candidates(t) ==> f in targets[t] || f in failedFns
    }

    /** A candidate is left for t, and no conflict is in its way. */
    ghost predicate Available(cache: DataCache, t: Target)
      reads this`targets, this`provided, this`failedFns, this`failedTargets
    {
      Now().Available(cache, t)
    }

    /** No exception is modelled as true. NoProvider is raised exactly when the target is not ignored and
      * has neither a provider nor a healthy candidate; nothing changes then. */
    method AddProviderInternal(cache: DataCache, item: string, ghost S: set<Fn>) returns (ok: bool)
      requires Inv(cache) && Build(item) in names && Spared(cache, S)
      modifies this
      ensures Inv(cache) && Progress() && Spared(cache, S) && NoneGivenUp()
      ensures ok <==> cache.ignored(item) || old(HaveProvider(Build(item))) || old(Available(cache, Build(item)))
      ensures ok <==> cache.ignored(item) || old(HaveProvider(Build(item)))
                      || (item in cache.providers && exists f :: f in cache.providers[item] && f !in old(failedFns))
      ensures !ok || cache.ignored(item) || old(HaveProvider(Build(item))) ==> unchanged(this)
      ensures ok && !cache.ignored(item) ==> Build(item) in provided
      ensures ok && !cache.ignored(item) && !old(HaveProvider(Build(item))) ==> Resolved(cache, Build(item))
    {
      if cache.ignored(item) {
        return true;
      }
      if item !in cache.providers {
        assert HaveProvider(Build(item)) ==> targets[Build(item)][0] in cache.Candidates(Build(item));
        return false;
      }
      if HaveProvider(Build(item)) {
        return true;
      }
      var eligible := Healthy(cache.providers[item]);
      if eligible == [] {
        return false;
      }
      LeadFirst(cache, S, Build(item));
      AddEligible(eligible, Build(item), cache, S);
      return true;
    }

    predicate HaveProvider(t: Target)
      reads this`targets
    {
      t in targets && targets[t] != []
    }

    /** NoRProvider and MultipleRProvider are both modelled as false. */
    method AddRProvider(cache: DataCache, item: string, ghost S: set<Fn>) returns (ok: bool)
      requires Inv(cache) && Run(item) in names && Spared(cache, S)
      modifies this
      ensures Inv(cache) && Progress() && Spared(cache, S) && NoneGivenUp()
      ensures ok <==> cache.ignored(item) || old(HaveProvider(Run(item))) || old(Available(cache, Run(item)))
      ensures ok <==> cache.ignored(item) || old(HaveProvider(Run(item)))
                      || (item in cache.rproviders && cache.rproviders[item].numberPreferred <= 1
                          && exists f :: f in cache.rproviders[item].files && f !in old(failedFns))
      ensures !ok || cache.ignored(item) || old(HaveProvider(Run(item))) ==> unchanged(this)
      ensures ok && !cache.ignored(item) ==> Run(item) in provided
      ensures ok && !cache.ignored(item) && !old(HaveProvider(Run(item))) ==> Resolved(cache, Run(item))
    {
      if cache.ignored(item) {
        return true;
      }
      if HaveProvider(Run(item)) {
        return true;
      }
      if item !in cache.rproviders || cache.rproviders[item].files == [] {
        return false;
      }
      var eligible := Healthy(cache.rproviders[item].files);
      if eligible == [] {
        return false;
      }
      if cache.rproviders[item].numberPreferred > 1 {
        return false;
      }
      LeadFirst(cache, S, Run(item));
      AddEligible(eligible, Run(item), cache, S);
      return true;
    }

    /** A target the resolver has dealt with. */
    predicate Done(t: Target, cache: DataCache)
      reads this`targets, this`failedTargets
    {
      cache.ignored(t.name) || t in failedTargets || HaveProvider(t)
    }

    /** The targets a pass of the worklist will look at. */
    function Unresolved(run: bool, cache: DataCache): set<Target>
      reads this`targets, this`failedTargets
    {
      set t | t in targets && t.Run? == run && !Done(t, cache)
    }

    lemma NotReached(cache: DataCache, S: set<Fn>, t: Target)
      requires Recorded(cache) && Base() && forall f :: f in S ==> !cache.Depends(f, t)
      ensures forall f :: DependsOn(f, t) ==> f in fns - S
    {
      forall f | DependsOn(f, t) ensures f in fns - S {
        assert RecordedFor(cache, seenfns, depids, rdepids, taskentries, f, t);
      }
    }

    /** Removing a target keeps the invariant, and happens outside S. */
    method RemoveOutside(t: Target, cache: DataCache, ghost S: set<Fn>, ghost given: set<Target>)
      requires Inv(cache) && t in names && Closed(fns - S) && given == (set x | x in failedTargets) + {t}
      requires forall f :: DependsOn(f, t) ==> f in fns - S
      modifies this
      ensures Inv(cache) && Progress() && t in failedTargets && targets.Keys == old(targets.Keys)
      ensures forall f :: DependsOn(f, t) ==> f in failedFns
      ensures old(Now()).Outside(Now(), S, given)
      ensures forall x :: x in failedTargets ==> x in given || x in provided
    {
      RemoveTarget(t, {}, {}, fns - S, given);
    }

    /** remove_buildtarget and remove_runtarget as the worklist calls them. */
    method GiveUp(t: Target, cache: DataCache, ghost S: set<Fn>)
      requires Inv(cache) && t in names && Spared(cache, S) && forall f :: f in S ==> !cache.Depends(f, t)
      modifies this
      ensures Inv(cache) && Progress() && t in failedTargets && targets.Keys == old(targets.Keys)
      ensures Spared(cache, S) && provided == old(provided)
      ensures forall f :: DependsOn(f, t) ==> f in failedFns
      ensures forall x :: x in failedTargets ==> x in old(failedTargets) || x == t || x in provided
    {
      ghost var before, given := Now(), (set x | x in failedTargets) + {t};
      SparedClosed(cache, S);
      SparedKnows(cache, S, set x | x in failedTargets);
      NotReached(cache, S, t);
      RemoveOutside(t, cache, S, given);
      SparedAfter(before, Now(), cache, S, given);
    }

    /** The turn of one unresolved target: it gets its candidates, or, if there are none left or they are in
      * conflict, it is given up. */
    method ResolveOne(t: Target, cache: DataCache, allowincomplete: bool, ghost S: set<Fn>) returns (ok: bool)
      requires Inv(cache) && t in names && t in targets && !cache.ignored(t.name) && Spared(cache, S)
      modifies this
      ensures Inv(cache) && Progress() && Spared(cache, S)
      ensures ok <==> old(HaveProvider(t)) || old(Available(cache, t))
      ensures ok ==> t in provided
      ensures ok && !old(HaveProvider(t)) ==> Resolved(cache, t)
      ensures !ok ==> targets.Keys == old(targets.Keys)
      ensures !ok && (t.Run? || !allowincomplete) ==> t in failedTargets
      ensures !ok && t.Build? && allowincomplete ==> unchanged(this)
      ensures forall x :: x in failedTargets ==>
                x in old(failedTargets) || x in provided || (x == t && !ok)
    {
      if t.Run? {
        ok := AddRProvider(cache, t.name, S);
      } else {
        ok := AddProviderInternal(cache, t.name, S);
      }
      if !ok && (t.Run? || !allowincomplete) {
        NotGivenUp(cache, S, t);
        GiveUp(t, cache, S);
      }
    }

    /** Its turn adds it to the targets that have been tried. */
    method TakeTurn(t: Target, cache: DataCache, allowincomplete: bool, ghost S: set<Fn>, ghost tried: set<Target>,
        ghost given: set<Target>) returns (ok: bool)
      requires Inv(cache) && t in names && t in targets && !cache.ignored(t.name) && Spared(cache, S)
      requires Now().AllTried(cache, tried) && Now().FailedTried(cache, given)
      modifies this
      ensures Inv(cache) && Progress() && Spared(cache, S)
      ensures Now().AllTried(cache, tried + {t}) && Now().FailedTried(cache, given)
      ensures ok ==> t in provided
      ensures !ok ==> targets.Keys == old(targets.Keys)
      ensures !ok && (t.Run? || !allowincomplete) ==> t in failedTargets
    {
      ghost var before := Now();
      ok := ResolveOne(t, cache, allowincomplete, S);
      assert Now().Tried(cache, t) by {
        assert Available(cache, t) ==> old(Available(cache, t));
      }
      TriedLater(before, Now(), cache, t, tried, given);
    }

    lemma OneLess(all: set<Target>, todo: set<Target>, t: Target)
      requires todo <= all && t in todo
      ensures all - (todo - {t}) == (all - todo) + {t}
    {
    }

    /** One pass over the unresolved build (or runtime) targets. */
    method ResolvePass(run: bool, cache: DataCache, allowincomplete: bool, ghost S: set<Fn>,
        ghost given: set<Target>) returns (added: nat)
      requires Inv(cache) && Spared(cache, S) && Now().FailedTried(cache, given)
      modifies this
      ensures Inv(cache) && Progress() && Spared(cache, S)
      ensures added > 0 ==> Open() < old(Open())
      ensures added == 0 ==> targets.Keys == old(targets.Keys)
      ensures forall t :: old(Done(t, cache)) ==> Done(t, cache)
      ensures added == 0 && (run || !allowincomplete) ==> forall t :: t in targets && t.Run? == run ==> Done(t, cache)
      ensures Now().AllTried(cache, old(Unresolved(run, cache)))
      ensures Now().FailedTried(cache, given)
    {
      var unresolved := Unresolved(run, cache);
      var todo := unresolved;
      added := 0;
      while todo != {}
        invariant todo <= unresolved
        invariant Inv(cache) && Progress() && Spared(cache, S)
        invariant added > 0 ==> exists t :: t in unresolved && t in provided
        invariant added == 0 ==> targets.Keys == old(targets.Keys)
        invariant added == 0 && (run || !allowincomplete) ==>
                    forall t :: t in unresolved && t !in todo ==> t in failedTargets
        invariant Now().AllTried(cache, unresolved - todo) && Now().FailedTried(cache, given)
        decreases todo
      {
        var t :| t in todo;
        ghost var tried := unresolved - todo;
        OneLess(unresolved, todo, t);
        todo := todo - {t};
        var ok := TakeTurn(t, cache, allowincomplete, S, tried, given);
        if ok {
          added := added + 1;
        }
      }
      if added > 0 {
        ghost var t :| t in unresolved && t in provided;
        assert t in old(Open()) && t !in Open();
      }
    }

    /** A dependency of a standing recipe is ignored or has providers, and all of those are standing recipes
      * that were offered for it and have been added themselves. */
    ghost predicate Supplied(cache: DataCache, t: Target)
      reads this
    {
      cache.ignored(t.name)
      || (HaveProvider(t)
          && forall p :: p in targets[t] ==> p in seenfns && p !in failedFns && p in cache.Candidates(t))
    }

    /** What a finished resolution guarantees to the run queue. */
    ghost predicate Buildable(cache: DataCache, run: bool)
      reads this
    {
      forall f, n ::
        f in seenfns && f !in failedFns && f in cache.deps && f in cache.rdeps
        && n in (if run then cache.rdeps[f] else cache.deps[f]) ==>
          Supplied(cache, Tag(run, n))
    }

    lemma DoneIsBuildable(cache: DataCache, run: bool)
      requires Inv(cache) && forall t :: t in targets && t.Run? == run ==> Done(t, cache)
      ensures Buildable(cache, run)
    {
      forall f, n | f in seenfns && f !in failedFns && f in cache.deps && f in cache.rdeps
                    && n in (if run then cache.rdeps[f] else cache.deps[f])
        ensures Supplied(cache, Tag(run, n))
      {
        assert RecordedFor(cache, seenfns, depids, rdepids, taskentries, f, Tag(run, n));
        assert Needs(f, Tag(run, n));
      }
    }

    /** What the tasks of a recipe name has been looked at as well. */
    lemma TaskTargetsSeen(cache: DataCache, f: Fn, k: int, i: nat)
      requires Inv(cache) && f in seenfns && f in cache.tasks && LastOfName(cache.tasks[f], k)
      ensures var entry := cache.tasks[f][k].1;
              && (i < |entry.idepends| ==> Build(entry.idepends[i].0) in targets)
              && (i < |entry.irdepends| ==> Run(entry.irdepends[i].0) in targets)
    {
      var entry := cache.tasks[f][k].1;
      if i < |entry.idepends| {
        assert entry.Names(Build(entry.idepends[i].0));
        assert RecordedFor(cache, seenfns, depids, rdepids, taskentries, f, Build(entry.idepends[i].0));
      }
      if i < |entry.irdepends| {
        assert entry.Names(Run(entry.irdepends[i].0));
        assert RecordedFor(cache, seenfns, depids, rdepids, taskentries, f, Run(entry.irdepends[i].0));
      }
    }

    /** Both passes. */
    method ResolveRound(cache: DataCache, allowincomplete: bool, ghost S: set<Fn>, ghost given: set<Target>)
        returns (added: nat)
      requires Inv(cache) && Spared(cache, S) && Now().FailedTried(cache, given)
      modifies this
      ensures Inv(cache) && Progress() && Spared(cache, S) && Now().FailedTried(cache, given)
      ensures forall t :: old(Done(t, cache)) ==> Done(t, cache)
      ensures added > 0 ==> Open() < old(Open())
      ensures added == 0 ==> forall t :: t in targets && (t.Run? || !allowincomplete) ==> Done(t, cache)
      ensures added == 0 ==> forall t :: t in targets && !Done(t, cache) ==> Now().Tried(cache, t)
    {
      ghost var before := Unresolved(false, cache);
      var builds := ResolvePass(false, cache, allowincomplete, S, given);
      ghost var between := Now();
      var runs := ResolvePass(true, cache, allowincomplete, S, given);
      forall t | t in before ensures Now().Tried(cache, t) {
        assert between.Tried(cache, t);
      }
      added := builds + runs;
    }

    lemma AllDoneOrTried(cache: DataCache, given: set<Target>)
      requires Inv(cache) && Now().FailedTried(cache, given)
      requires forall t :: t in targets && !Done(t, cache) ==> Now().Tried(cache, t)
      ensures forall t :: t in targets && t !in given && !cache.ignored(t.name) ==> Now().Tried(cache, t)
    {
    }

    /** The worklist. It terminates because Open() shrinks with every round that resolves something. Recipes
      * that back each other do not fail, and no known target is passed over while it has a candidate. */
    method AddUnresolved(cache: DataCache, allowincomplete: bool, ghost S: set<Fn>)
      requires Inv(cache) && Spared(cache, S)
      modifies this
      ensures Inv(cache) && Progress() && Spared(cache, S)
      ensures forall t :: old(Done(t, cache)) ==> Done(t, cache)
      ensures forall t :: t in targets && (t.Run? || !allowincomplete) ==> Done(t, cache)
      ensures forall t :: t in targets && !cache.ignored(t.name) && t !in old(failedTargets) ==> Now().Tried(cache, t)
      ensures Buildable(cache, true) && (!allowincomplete ==> Buildable(cache, false))
    {
      ghost var given := set t | t in failedTargets;
      while true
        invariant Inv(cache) && Progress() && Spared(cache, S) && Now().FailedTried(cache, given)
        invariant forall t :: old(Done(t, cache)) ==> Done(t, cache)
        decreases Open()
      {
        var added := ResolveRound(cache, allowincomplete, S, given);
        if added == 0 {
          break;
        }
      }
      AllDoneOrTried(cache, given);
      DoneIsBuildable(cache, true);
      if !allowincomplete {
        DoneIsBuildable(cache, false);
      }
    }

    /** A top-level request for a target. */
    method AddProvider(cache: DataCache, item: string, ghost S: set<Fn>)
      requires Inv(cache) && Build(item) in names && Spared(cache, S)
      modifies this
      ensures Inv(cache) && Progress() && Spared(cache, S)
      ensures cache.ignored(item) ==> unchanged(this)
      ensures !cache.ignored(item) ==>
                if old(HaveProvider(Build(item))) || old(Available(cache, Build(item)))
                then Build(item) in provided else Build(item) in failedTargets
    {
      var ok := AddProviderInternal(cache, item, S);
      if !ok {
        NotGivenUp(cache, S, Build(item));
        GiveUp(Build(item), cache, S);
      }
    }
  }
}

/** From the variables a recipe's tasks use to the base hash of each task: what one variable depends on, the
  * closure of that over the recipe, and the text that is hashed.
  */
module DependencyClosure {
  import opened Common
  import opened Sorting

  type Key = string

  // ---- What one variable depends on -------------------------------------------------------------

  /** What a parser found in a text: the variables it refers to and the functions it calls. */
  datatype Parsed = Parsed(references: set<Key>, execs: set<Key>)

  /** Where the dependencies of a key come from. The :remove texts are in sorted order. */
  datatype Source =
    | ModuleFunction(code: Parsed)
    | ExcludeFlag                                          // KEY[vardepvalueexclude]
    | Flag(code: Parsed)                                   // KEY[flag]
    | GivenValue                                           // has a vardepvalue
    | PythonFunction(code: Parsed)
    | ShellFunction(code: Parsed, text: Parsed, removes: seq<Parsed>)
    | Variable(code: Parsed, removes: seq<Parsed>)

  /** The flags that add or take away dependencies; names are the flags the key has. */
  datatype Flags = Flags(vardeps: set<Key>, exclusions: set<Key>, prefuncs: set<Key>, postfuncs: set<Key>,
                         exports: set<Key>, names: set<string>)

  datatype Context = Context(keys: set<Key>, shelldeps: set<Key>, varflagsexcl: set<string>, ignored: set<Key>)

  function FlagKeys(key: Key, flags: Flags, varflagsexcl: set<string>): set<Key> {
    if varflagsexcl == {} then {} else set f | f in flags.names && f !in varflagsexcl :: key + "[" + f + "]"
  }

  /** A set object, which several variables can refer to. */
  class SetObject {
    var elems: set<Key>

    constructor (elems: set<Key>)
      ensures this.elems == elems
    {
      this.elems := elems;
    }
  }

  /** Every name in the :remove texts. */
  ghost function RemoveNames(removes: seq<Parsed>, keys: set<Key>): set<Key> {
    set i, k | 0 <= i < |removes| && k in removes[i].references + (keys * removes[i].execs) :: k
  }

  /** The first pass updates the caller's set; it then builds a new one, which later passes update and
    * nobody sees: of all the texts only the first one's references arrive. */
  method HandleRemove(deps: SetObject, removes: seq<Parsed>, keys: set<Key>)
    modifies deps
    ensures deps.elems == old(deps.elems) + if removes == [] then {} else removes[0].references
  {
    var mine := deps;
    var i := 0;
    while i < |removes|
      invariant i <= |removes|
      invariant i == 0 ==> mine == deps && deps.elems == old(deps.elems)
      invariant i > 0 ==> mine != deps && fresh(mine) && deps.elems == old(deps.elems) + removes[0].references
    {
      mine.elems := mine.elems + removes[i].references;
      mine := new SetObject(mine.elems + (keys * removes[i].execs));
      i := i + 1;
    }
  }

  lemma FirstIsNamed(removes: seq<Parsed>, keys: set<Key>)
    ensures removes == [] ==> RemoveNames(removes, keys) == {}
    ensures removes != [] ==> removes[0].references <= RemoveNames(removes, keys)
  {
    forall k | removes != [] && k in removes[0].references ensures k in RemoveNames(removes, keys) {
      assert k in removes[0].references + (keys * removes[0].execs);
    }
  }

  /** What the text of a key mentions, apart from its :remove texts. */
  function Mentions(source: Source, flags: Flags, c: Context): set<Key> {
    match source
    case ModuleFunction(code) => code.references + (c.keys * code.execs)
    case ExcludeFlag => {}
    case Flag(code) => code.references + (c.keys * code.execs)
    case GivenValue => {}
    case PythonFunction(code) =>
      code.references + (c.keys * code.execs) + flags.prefuncs + flags.postfuncs + flags.exports
    case ShellFunction(code, text, _) =>
      c.shelldeps + text.references + (c.keys * code.execs) + (c.keys * text.execs)
      + flags.prefuncs + flags.postfuncs + flags.exports
    case Variable(code, _) => code.references + (c.keys * code.execs)
  }

  function Removes(source: Source): seq<Parsed> {
    if source.ShellFunction? || source.Variable? then source.removes else []
  }

  predicate IsVariable(source: Source) {
    !source.ModuleFunction? && !source.ExcludeFlag? && !source.Flag?
  }

  /** The dependencies when every name the key and its :remove texts mention counts. */
  ghost function Intended(key: Key, source: Source, flags: Flags, c: Context): set<Key> {
    if IsVariable(source) then
      Mentions(source, flags, c) + RemoveNames(Removes(source), c.keys) + FlagKeys(key, flags, c.varflagsexcl)
      + flags.vardeps - flags.exclusions - c.ignored
    else Mentions(source, flags, c) - c.ignored
  }

  /** The names in :remove texts that nothing else brings in. */
  ghost function Overlooked(key: Key, source: Source, flags: Flags, c: Context): set<Key> {
    RemoveNames(Removes(source), c.keys)
    - (if Removes(source) == [] then {} else Removes(source)[0].references)
    - Mentions(source, flags, c) - FlagKeys(key, flags, c.varflagsexcl)
    - flags.vardeps - flags.exclusions - c.ignored
  }

  /** A variable with two :remove texts that refer to A and to B: B is overlooked. So is a function that the
    * first one calls. */
  lemma OverlookedShown(key: Key)
    ensures var removes := [Parsed({"A"}, {"F"}), Parsed({"B"}, {})];
            var flags, c := Flags({}, {}, {}, {}, {}, {}), Context({"F"}, {}, {}, {});
            Overlooked(key, Variable(Parsed({}, {}), removes), flags, c) == {"B", "F"}
  {
    var removes := [Parsed({"A"}, {"F"}), Parsed({"B"}, {})];
    var keys: set<Key> := {"F"};
    assert RemoveNames(removes, keys) == {"A", "F", "B"} by {
      assert "A" in removes[0].references + (keys * removes[0].execs);
      assert "F" in removes[0].references + (keys * removes[0].execs);
      assert "B" in removes[1].references + (keys * removes[1].execs);
    }
    assert |"A"| == 1 && "A"[0] != "B"[0] && "A"[0] != "F"[0];
  }

  /** A text brings the variables it refers to, and of the functions it calls those that are variables. */
  predicate Brings(code: Parsed, keys: set<Key>, k: Key) {
    k in code.references || (k in keys && k in code.execs)
  }

  /** k comes from one of the texts of the key itself. */
  predicate FromText(source: Source, c: Context, k: Key) {
    match source
    case ExcludeFlag => false
    case GivenValue => false
    case ShellFunction(code, text, _) =>
      Brings(text, c.keys, k) || (k in c.keys && k in code.execs) || k in c.shelldeps
    case _ => Brings(source.code, c.keys, k)
  }

  /** k comes from a flag of the key: named in vardeps, a function run around it or an exported variable, or
    * one of the flags themselves, if some are excluded from the signature and this one is not. */
  ghost predicate FromFlags(key: Key, source: Source, flags: Flags, c: Context, k: Key) {
    || k in flags.vardeps
    || ((source.PythonFunction? || source.ShellFunction?)
        && (k in flags.prefuncs || k in flags.postfuncs || k in flags.exports))
    || (c.varflagsexcl != {} && exists f :: f in flags.names && f !in c.varflagsexcl && k == key + "[" + f + "]")
  }

  /** k is a variable to which the first :remove text refers. */
  predicate FromFirstRemove(source: Source, k: Key) {
    (source.ShellFunction? || source.Variable?) && source.removes != [] && k in source.removes[0].references
  }

  /** k is a dependency: module functions and single flags only have their text. */
  ghost predicate Counts(key: Key, source: Source, flags: Flags, c: Context, k: Key) {
    && k !in c.ignored
    && if source.ModuleFunction? || source.Flag? || source.ExcludeFlag? then FromText(source, c, k)
       else
         && k !in flags.exclusions
         && (FromText(source, c, k) || FromFlags(key, source, flags, c, k) || FromFirstRemove(source, k))
  }

  lemma FlagKeysAre(key: Key, flags: Flags, varflagsexcl: set<string>, k: Key)
    ensures k in FlagKeys(key, flags, varflagsexcl) <==>
            varflagsexcl != {} && exists f :: f in flags.names && f !in varflagsexcl && k == key + "[" + f + "]"
  {
  }

  lemma MentionsAre(source: Source, flags: Flags, c: Context, k: Key)
    ensures k in Mentions(source, flags, c) <==>
            FromText(source, c, k)
            || ((source.PythonFunction? || source.ShellFunction?)
                && (k in flags.prefuncs || k in flags.postfuncs || k in flags.exports))
  {
  }

  /** These are the names intended without the overlooked ones. */
  lemma CountsExact(key: Key, source: Source, flags: Flags, c: Context, k: Key)
    ensures k in Intended(key, source, flags, c) - Overlooked(key, source, flags, c) <==>
            Counts(key, source, flags, c, k)
  {
    FirstIsNamed(Removes(source), c.keys);
    FlagKeysAre(key, flags, c.varflagsexcl, k);
    var first := if Removes(source) == [] then {} else Removes(source)[0].references;
    assert k in first <==> FromFirstRemove(source, k);
    assert k in first ==> k in RemoveNames(Removes(source), c.keys);
    MentionsAre(source, flags, c, k);
  }

  /** build_dependencies finds what it should, less what the second and later :remove texts refer to and all
    * that :remove texts call: it is exact iff nothing is overlooked. */
  method BuildDependencies(key: Key, source: Source, flags: Flags, c: Context) returns (deps: set<Key>)
    ensures deps == Intended(key, source, flags, c) - Overlooked(key, source, flags, c)
    ensures deps == Intended(key, source, flags, c) <==> Overlooked(key, source, flags, c) == {}
    ensures deps !! c.ignored
    ensures forall k :: k in deps <==> Counts(key, source, flags, c, k)
  {
    forall k ensures k in Intended(key, source, flags, c) - Overlooked(key, source, flags, c) <==>
                     Counts(key, source, flags, c, k)
    {
      CountsExact(key, source, flags, c, k);
    }
    var mine := new SetObject({});
    match source {
      case ModuleFunction(code) => return (code.references + (c.keys * code.execs)) - c.ignored;
      case ExcludeFlag => return {};
      case Flag(code) => return code.references + (c.keys * code.execs) - c.ignored;
      case GivenValue =>
      case PythonFunction(code) =>
        mine.elems := code.references + (c.keys * code.execs);
      case ShellFunction(code, text, removes) =>
        mine.elems := c.shelldeps + text.references + (c.keys * code.execs) + (c.keys * text.execs);
        HandleRemove(mine, removes, c.keys);
      case Variable(code, removes) =>
        mine.elems := code.references + (c.keys * code.execs);
        HandleRemove(mine, removes, c.keys);
    }
    FirstIsNamed(Removes(source), c.keys);
    deps := mine.elems;
    if source.PythonFunction? || source.ShellFunction? {
      deps := deps + flags.prefuncs + flags.postfuncs + flags.exports;
    }
    deps := deps + FlagKeys(key, flags, c.varflagsexcl) + flags.vardeps - flags.exclusions - c.ignored;
  }

  // ---- The graph of a recipe --------------------------------------------------------------------

  type Graph = map<Key, set<Key>>

  /** What build_dependencies gives for a key. */
  datatype Built = Built(deps: set<Key>, value: Option<string>)

  ghost function GraphOf(world: map<Key, Built>): Graph {
    map k | k in world :: world[k].deps
  }

  ghost predicate Closed(g: Graph) {
    forall k, d :: k in g && d in g[k] ==> d in g
  }

  ghost predicate IsPath(g: Graph, p: seq<Key>) {
    |p| >= 2 && forall i :: 0 <= i < |p| - 1 ==> p[i] in g && p[i + 1] in g[p[i]]
  }

  ghost predicate PathFromTo(g: Graph, p: seq<Key>, a: Key, b: Key) {
    IsPath(g, p) && p[0] == a && p[|p| - 1] == b
  }

  /** b is reached from a along one edge or more. */
  ghost predicate Reaches(g: Graph, a: Key, b: Key) {
    exists p :: PathFromTo(g, p, a, b)
  }

  ghost function Reachable(g: Graph, a: Key): (r: set<Key>)
    ensures forall b :: b in r <==> b in g && Reaches(g, a, b)
  {
    set b | b in g && Reaches(g, a, b)
  }

  lemma EdgeReaches(g: Graph, a: Key, b: Key)
    requires a in g && b in g[a]
    ensures Reaches(g, a, b)
  {
    assert PathFromTo(g, [a, b], a, b);
  }

  lemma StepReaches(g: Graph, a: Key, b: Key, c: Key)
    requires Reaches(g, a, b) && b in g && c in g[b]
    ensures Reaches(g, a, c)
  {
    var p :| PathFromTo(g, p, a, b);
    assert PathFromTo(g, p + [c], a, c);
  }

  /** Whatever contains the successors of a and of its own elements contains all that a reaches. */
  lemma {:induction false} PathStays(g: Graph, p: seq<Key>, a: Key, b: Key, inside: set<Key>)
    requires PathFromTo(g, p, a, b)
    requires a in g && g[a] <= inside
    requires forall k, d :: k in inside && k in g && d in g[k] ==> d in inside
    ensures b in inside
  {
    if |p| > 2 {
      var q := p[..|p| - 1];
      assert PathFromTo(g, q, a, q[|q| - 1]);
      PathStays(g, q, a, q[|q| - 1], inside);
    }
  }

  /** What the loops over newdeps have found when they are done. */
  lemma ExploredIsReachable(g: Graph, a: Key, seen: set<Key>)
    requires Closed(g) && a in g && g[a] <= seen
    requires forall k :: k in seen ==> k in g && Reaches(g, a, k)
    requires forall k, d :: k in seen && d in g[k] ==> d in seen
    ensures seen == Reachable(g, a)
  {
    forall b | Reaches(g, a, b) ensures b in seen {
      var p :| PathFromTo(g, p, a, b);
      PathStays(g, p, a, b, seen);
    }
  }

  /** A closed part of a graph reaches from its own keys what the graph reaches. */
  lemma PartReaches(part: Graph, g: Graph, a: Key)
    requires Closed(part) && Closed(g) && a in part
    requires forall k :: k in part ==> k in g && part[k] == g[k]
    ensures Reachable(part, a) == Reachable(g, a)
  {
    forall b | b in Reachable(part, a) ensures Reaches(g, a, b) {
      var p :| PathFromTo(part, p, a, b);
      assert PathFromTo(g, p, a, b);
    }
    forall k | k in part[a] ensures k in Reachable(part, a) {
      EdgeReaches(part, a, k);
    }
    forall k, d | k in Reachable(part, a) && d in g[k] ensures d in Reachable(part, a) {
      StepReaches(part, a, k, d);
    }
    ExploredIsReachable(g, a, Reachable(part, a));
  }

  // ---- generate_dependencies --------------------------------------------------------------------

  /** What has been built so far agrees with the recipe. */
  ghost predicate Agrees(deps: Graph, values: map<Key, Option<string>>, world: map<Key, Built>) {
    && deps.Keys == values.Keys
    && forall k :: k in deps ==> k in world && deps[k] == world[k].deps && values[k] == world[k].value
  }

  /** One turn of the loop: builds what is new in this wave and collects its dependencies. */
  method Wave(world: map<Key, Built>, nextdeps: set<Key>, deps0: Graph, values0: map<Key, Option<string>>)
      returns (newdeps: set<Key>, deps: Graph, values: map<Key, Option<string>>)
    requires nextdeps <= world.Keys && Agrees(deps0, values0, world)
    ensures Agrees(deps, values, world) && deps.Keys == deps0.Keys + nextdeps
    ensures forall d :: d in newdeps <==> exists k :: k in nextdeps && d in world[k].deps
  {
    deps, values, newdeps := deps0, values0, {};
    var rest := nextdeps;
    while rest != {}
      invariant rest <= nextdeps
      invariant Agrees(deps, values, world) && deps.Keys == deps0.Keys + (nextdeps - rest)
      invariant forall d :: d in newdeps <==> exists k :: k in nextdeps - rest && d in world[k].deps
      decreases rest
    {
      var dep :| dep in rest;
      if dep !in deps {
        deps, values := deps[dep := world[dep].deps], values[dep := world[dep].value];
      }
      newdeps := newdeps + deps[dep];
      rest := rest - {dep};
    }
  }

  ghost predicate Wanted(g: Graph, tasks: seq<Key>, k: Key) {
    exists i :: 0 <= i < |tasks| && (tasks[i] == k || Reaches(g, tasks[i], k))
  }

  /** The tasks and all they reach. */
  ghost function Needed(g: Graph, tasks: seq<Key>): set<Key> {
    set k | k in g && Wanted(g, tasks, k)
  }

  /** Everything found for one task: its closure joins what is known. */
  method ExploreTask(world: map<Key, Built>, task: Key, deps0: Graph, values0: map<Key, Option<string>>)
      returns (deps: Graph, values: map<Key, Option<string>>)
    requires Closed(GraphOf(world)) && task in world && Agrees(deps0, values0, world)
    ensures Agrees(deps, values, world)
    ensures deps.Keys == deps0.Keys + {task} + Reachable(GraphOf(world), task)
  {
    ghost var g := GraphOf(world);
    deps, values := deps0[task := world[task].deps], values0[task := world[task].value];
    var newdeps, seen := deps[task], {};
    forall k | k in newdeps ensures Reaches(g, task, k) {
      EdgeReaches(g, task, k);
    }
    while newdeps != {}
      invariant seen !! newdeps && g[task] <= seen + newdeps
      invariant forall k :: k in seen + newdeps ==> k in g && Reaches(g, task, k)
      invariant forall k, d :: k in seen && d in g[k] ==> d in seen + newdeps
      invariant Agrees(deps, values, world) && deps.Keys == deps0.Keys + {task} + seen
      decreases world.Keys - seen
    {
      var nextdeps := newdeps;
      ghost var before := seen;
      seen := seen + nextdeps;
      newdeps, deps, values := Wave(world, nextdeps, deps, values);
      forall d | d in newdeps ensures d in g && Reaches(g, task, d) {
        var k :| k in nextdeps && d in world[k].deps;
        StepReaches(g, task, k, d);
      }
      newdeps := newdeps - seen;
      Shrinks(world.Keys, before, nextdeps);
    }
    ExploredIsReachable(g, task, seen);
  }

  lemma Shrinks(all: set<Key>, seen: set<Key>, more: set<Key>)
    requires more <= all && more !! seen && more != {}
    ensures all - (seen + more) < all - seen
  {
    var x :| x in more;
    assert x in all - seen && x !in all - (seen + more);
  }

  /** The loops end on cyclic recipes too, and build exactly the tasks and what they reach. */
  method GenerateDependencies(world: map<Key, Built>, tasklist: seq<Key>)
      returns (deps: Graph, values: map<Key, Option<string>>)
    requires Closed(GraphOf(world)) && forall t :: t in tasklist ==> t in world
    ensures Agrees(deps, values, world) && Closed(deps)
    ensures deps.Keys == Needed(GraphOf(world), tasklist)
  {
    deps, values := map[], map[];
    ghost var g := GraphOf(world);
    var i := 0;
    while i < |tasklist|
      invariant i <= |tasklist|
      invariant Agrees(deps, values, world)
      invariant deps.Keys == Needed(g, tasklist[..i])
    {
      deps, values := ExploreTask(world, tasklist[i], deps, values);
      WantedNext(g, tasklist, i);
      i := i + 1;
    }
    assert tasklist[..|tasklist|] == tasklist;
    NeededClosed(g, tasklist);
  }

  lemma WantedNext(g: Graph, tasks: seq<Key>, i: nat)
    requires i < |tasks| && Closed(g) && tasks[i] in g
    ensures Needed(g, tasks[..i + 1]) == Needed(g, tasks[..i]) + {tasks[i]} + Reachable(g, tasks[i])
  {
    forall k ensures Wanted(g, tasks[..i + 1], k) <==>
                     Wanted(g, tasks[..i], k) || k == tasks[i] || Reaches(g, tasks[i], k) {
      if k == tasks[i] || Reaches(g, tasks[i], k) {
        assert tasks[..i + 1][i] == tasks[i];
      }
      if Wanted(g, tasks[..i], k) {
        var j :| 0 <= j < i && (tasks[..i][j] == k || Reaches(g, tasks[..i][j], k));
        assert tasks[..i + 1][j] == tasks[..i][j];
      }
    }
  }

  lemma NeededClosed(g: Graph, tasks: seq<Key>)
    requires Closed(g) && forall t :: t in tasks ==> t in g
    ensures forall t :: t in tasks ==> t in Needed(g, tasks)
    ensures forall k, d :: k in Needed(g, tasks) && d in g[k] ==> d in Needed(g, tasks)
  {
    forall k, d | k in Needed(g, tasks) && d in g[k] ensures Wanted(g, tasks, d) {
      var i :| 0 <= i < |tasks| && (tasks[i] == k || Reaches(g, tasks[i], k));
      if tasks[i] == k {
        EdgeReaches(g, k, d);
      } else {
        StepReaches(g, tasks[i], k, d);
      }
    }
  }

  // ---- generate_dependency_hash -----------------------------------------------------------------

  function Str(value: Option<string>): string {
    if value.None? then "" else value.value
  }

  /** The name and the value of each dependency, one after the other. */
  function DepText(lookup: map<Key, Option<string>>, names: seq<Key>): string
    requires forall k :: k in names ==> k in lookup
  {
    if names == [] then ""
    else DepText(lookup, names[..|names| - 1]) + names[|names| - 1] + Str(lookup[names[|names| - 1]])
  }

  /** The text behind the base hash of a task. */
  function BaseText(lookup: map<Key, Option<string>>, task: Key, names: seq<Key>): string
    requires task in lookup && forall k :: k in names ==> k in lookup
  {
    Str(lookup[task]) + DepText(lookup, names)
  }

  /** "".join(data) */
  function Joined(data: seq<string>): string {
    if data == [] then "" else Joined(data[..|data| - 1]) + data[|data| - 1]
  }

  lemma JoinedNext(data: seq<string>, x: string)
    ensures Joined(data + [x]) == Joined(data) + x
  {
    assert (data + [x])[..|data|] == data;
  }

  /** The hash is that of the text over these dependencies in sorted order. */
  ghost predicate HashedOver(lookup: map<Key, Option<string>>, task: Key, deps: set<Key>, H: string -> string,
                             hash: string)
    requires task in lookup && deps <= lookup.Keys
  {
    forall names :: Lists(names, deps) ==> hash == H(BaseText(lookup, task, names))
  }

  method CollectDeps(gendeps: Graph, nextdeps: set<Key>) returns (newdeps: set<Key>)
    requires nextdeps <= gendeps.Keys
    ensures forall d :: d in newdeps <==> exists k :: k in nextdeps && d in gendeps[k]
  {
    newdeps := {};
    var rest := nextdeps;
    while rest != {}
      invariant rest <= nextdeps
      invariant forall d :: d in newdeps <==> exists k :: k in nextdeps - rest && d in gendeps[k]
      decreases rest
    {
      var dep :| dep in rest;
      newdeps := newdeps + gendeps[dep];
      rest := rest - {dep};
    }
  }

  method ExploreAgain(gendeps: Graph, task: Key) returns (seen: set<Key>)
    requires Closed(gendeps) && task in gendeps
    ensures seen == Reachable(gendeps, task)
  {
    var newdeps := gendeps[task];
    seen := {};
    forall k | k in newdeps ensures Reaches(gendeps, task, k) {
      EdgeReaches(gendeps, task, k);
    }
    while newdeps != {}
      invariant seen !! newdeps && gendeps[task] <= seen + newdeps
      invariant forall k :: k in seen + newdeps ==> k in gendeps && Reaches(gendeps, task, k)
      invariant forall k, d :: k in seen && d in gendeps[k] ==> d in seen + newdeps
      decreases gendeps.Keys - seen
    {
      var nextdeps := newdeps;
      Shrinks(gendeps.Keys, seen, nextdeps);
      seen := seen + nextdeps;
      newdeps := CollectDeps(gendeps, nextdeps);
      forall d | d in newdeps ensures d in gendeps && Reaches(gendeps, task, d) {
        var k :| k in nextdeps && d in gendeps[k];
        StepReaches(gendeps, task, k, d);
      }
      newdeps := newdeps - seen;
    }
    ExploredIsReachable(gendeps, task, seen);
  }

  lemma TextNext(lookup: map<Key, Option<string>>, task: Key, names: seq<Key>, i: nat)
    requires task in lookup && i < |names| && forall k :: k in names ==> k in lookup
    ensures BaseText(lookup, task, names[..i + 1]) ==
            BaseText(lookup, task, names[..i]) + names[i] + Str(lookup[names[i]])
  {
    assert names[..i + 1][..i] == names[..i];
    var start, front, dep, value := Str(lookup[task]), DepText(lookup, names[..i]), names[i], Str(lookup[names[i]]);
    assert start + (front + dep + value) == start + front + dep + value;
  }

  method HashDeps(lookup: map<Key, Option<string>>, task: Key, alldeps: seq<Key>, H: string -> string)
      returns (hash: string)
    requires task in lookup && forall k :: k in alldeps ==> k in lookup
    ensures hash == H(BaseText(lookup, task, alldeps))
  {
    var data := if lookup[task].None? then [] else [lookup[task].value];
    assert Joined(data) == Str(lookup[task]) by {
      assert data != [] ==> data[..|data| - 1] == [];
    }
    var i := 0;
    while i < |alldeps|
      invariant i <= |alldeps|
      invariant Joined(data) == BaseText(lookup, task, alldeps[..i])
    {
      var dep := alldeps[i];
      TextNext(lookup, task, alldeps, i);
      JoinedNext(data, dep);
      data := data + [dep];
      if lookup[dep].Some? {
        JoinedNext(data, lookup[dep].value);
        data := data + [lookup[dep].value];
      }
      i := i + 1;
    }
    assert alldeps[..|alldeps|] == alldeps;
    hash := H(Joined(data));
  }

  /** The data list of one task and its hash. */
  method HashTask(lookup: map<Key, Option<string>>, task: Key, seen: set<Key>, H: string -> string)
      returns (hash: string)
    requires task in lookup && seen <= lookup.Keys
    ensures HashedOver(lookup, task, seen, H, hash)
  {
    var alldeps := SortedNames(seen);
    hash := HashDeps(lookup, task, alldeps, H);
    forall names | Lists(names, seen) ensures names == alldeps {
      ListsUnique(names, alldeps, seen);
    }
  }

  ghost predicate HashesRight(tasks: seq<Key>, g: Graph, lookup: map<Key, Option<string>>, fn: string,
                              H: string -> string, taskdeps: map<Key, set<Key>>, basehash: map<string, string>)
    requires g.Keys == lookup.Keys && forall t :: t in tasks ==> t in g
  {
    forall t :: t in tasks ==>
                  && t in taskdeps && taskdeps[t] == Reachable(g, t)
                  && fn + ":" + t in basehash
                  && HashedOver(lookup, t, Reachable(g, t), H, basehash[fn + ":" + t])
  }

  lemma SameTid(fn: string, t: Key, u: Key)
    requires fn + ":" + t == fn + ":" + u
    ensures t == u
  {
    assert (fn + ":" + t)[|fn| + 1..] == t;
    assert (fn + ":" + u)[|fn| + 1..] == u;
  }

  method GenerateDependencyHash(tasklist: seq<Key>, gendeps: Graph, lookup: map<Key, Option<string>>, fn: string,
                                H: string -> string)
      returns (taskdeps: map<Key, set<Key>>, basehash: map<string, string>)
    requires Closed(gendeps) && gendeps.Keys == lookup.Keys && forall t :: t in tasklist ==> t in gendeps
    ensures HashesRight(tasklist, gendeps, lookup, fn, H, taskdeps, basehash)
  {
    taskdeps, basehash := map[], map[];
    var i := 0;
    while i < |tasklist|
      invariant i <= |tasklist|
      invariant HashesRight(tasklist[..i], gendeps, lookup, fn, H, taskdeps, basehash)
    {
      var task := tasklist[i];
      var seen := ExploreAgain(gendeps, task);
      var hash := HashTask(lookup, task, seen, H);
      forall t | t in tasklist[..i] && fn + ":" + t == fn + ":" + task ensures t == task {
        SameTid(fn, t, task);
      }
      taskdeps, basehash := taskdeps[task := seen], basehash[fn + ":" + task := hash];
      assert tasklist[..i + 1] == tasklist[..i] + [task];
      i := i + 1;
    }
    assert tasklist[..|tasklist|] == tasklist;
  }

  /** Both passes together, as the signature generator runs them: every lookup of the second pass is defined,
    * whatever order the tasks come in and share the memo; the dependencies of a task are exactly what the
    * recipe's graph reaches from it, and hold no ignored variable. */
  method BuildData(world: map<Key, Built>, tasklist: seq<Key>, ignored: set<Key>, fn: string, H: string -> string)
      returns (taskdeps: map<Key, set<Key>>, gendeps: Graph, lookup: map<Key, Option<string>>,
               basehash: map<string, string>)
    requires Closed(GraphOf(world)) && forall t :: t in tasklist ==> t in world
    requires forall k :: k in world ==> world[k].deps !! ignored
    ensures Agrees(gendeps, lookup, world) && gendeps.Keys == Needed(GraphOf(world), tasklist)
    ensures forall t :: t in tasklist ==>
                          && t in lookup && t in taskdeps && taskdeps[t] <= lookup.Keys
                          && taskdeps[t] == Reachable(GraphOf(world), t) && taskdeps[t] !! ignored
                          && fn + ":" + t in basehash
                          && HashedOver(lookup, t, taskdeps[t], H, basehash[fn + ":" + t])
  {
    gendeps, lookup := GenerateDependencies(world, tasklist);
    ghost var g := GraphOf(world);
    NeededClosed(g, tasklist);
    taskdeps, basehash := GenerateDependencyHash(tasklist, gendeps, lookup, fn, H);
    forall t | t in tasklist ensures Reachable(gendeps, t) == Reachable(g, t) && Reachable(g, t) !! ignored {
      PartReaches(gendeps, g, t);
      NoneIgnored(g, t, ignored);
    }
  }

  lemma NoneIgnored(g: Graph, a: Key, ignored: set<Key>)
    requires forall k :: k in g ==> g[k] !! ignored
    ensures Reachable(g, a) !! ignored
  {
    forall b | Reaches(g, a, b) ensures b !in ignored {
      var p :| PathFromTo(g, p, a, b);
      assert p[|p| - 2] in g && b in g[p[|p| - 2]];
    }
  }

  /** A base hash sees a recipe only through what its task reaches: recipes that agree there agree on the
    * dependencies and on the text behind the hash. */
  lemma HashFollowsClosure(world: map<Key, Built>, other: map<Key, Built>, task: Key, names: seq<Key>)
    requires Closed(GraphOf(world)) && Closed(GraphOf(other)) && task in world
    requires forall k :: k == task || k in Reachable(GraphOf(world), task) ==> k in other && other[k] == world[k]
    requires Lists(names, Reachable(GraphOf(world), task))
    ensures Reachable(GraphOf(other), task) == Reachable(GraphOf(world), task)
    ensures BaseText(Values(other), task, names) == BaseText(Values(world), task, names)
  {
    var g, h := GraphOf(world), GraphOf(other);
    var part := map k | k in g && (k == task || k in Reachable(g, task)) :: g[k];
    forall k, d | k in part && d in part[k] ensures d in part {
      if k == task {
        EdgeReaches(g, task, d);
      } else {
        StepReaches(g, task, k, d);
      }
    }
    PartReaches(part, g, task);
    PartReaches(part, h, task);
    SameText(Values(world), Values(other), names);
  }

  function Values(world: map<Key, Built>): map<Key, Option<string>> {
    map k | k in world :: world[k].value
  }

  lemma {:induction false} SameText(a: map<Key, Option<string>>, b: map<Key, Option<string>>, names: seq<Key>)
    requires forall k :: k in names ==> k in a && k in b && a[k] == b[k]
    ensures DepText(a, names) == DepText(b, names)
  {
    if names != [] {
      SameText(a, b, names[..|names| - 1]);
    }
  }
}

/** What the cache of the datastore holds, over plain values: which cached parses agree with reading from
  * scratch, and what a parse is when the removal set it starts from holds removals of other variables.
  */
module CachedReading {
  import opened Common
  import opened DataStore
  import opened Expansion

  datatype CacheKey = Whole(v: string) | Flagged(v: string, flag: string)

  /** A cached parse: the value before and after expansion, and, if any were looked for, the removals
    * that struck. */
  datatype VariableParse = VariableParse(raw: Option<Text>, value: Option<string>, removes: Option<set<Text>>)

  type Cache = map<CacheKey, VariableParse>

  /** A store that is being read: the variables that may be read, and those whose removals may have joined
    * the removal set of an override. */
  datatype Scope = Scope(st: Store, overrides: seq<string>, vars: iset<string>, adders: iset<string>)
  {
    ghost function Reader(v: string): Option<string> {
      Winner(st, overrides, v)
    }

    function Own(v: string): set<Text> {
      Removes(st.Data(v), overrides)
    }

    /** The same when v may have added its removals as well. */
    ghost function With(v: string): Scope {
      this.(adders := adders + iset{v})
    }
  }

  // ---- What may be read -------------------------------------------------------------------------

  /** Names as a rank: the references that stay among them lead downwards. */
  ghost function Inside(names: iset<string>): string -> nat {
    n => if n in names then 0 else 1
  }

  ghost predicate TextIn(t: Text, names: iset<string>) {
    Below(t, Inside(names), 1)
  }

  ghost predicate DataIn(d: VarData, names: iset<string>) {
    && (forall f :: f in d.flags ==> TextIn(d.flags[f], names))
    && ChangesBelow(d.append, Inside(names), 1) && ChangesBelow(d.prepend, Inside(names), 1)
    && ChangesBelow(d.remove, Inside(names), 1)
  }

  /** All that reading v leads to next is among these names. */
  ghost predicate DepsIn(st: Store, overrides: seq<string>, v: string, names: iset<string>) {
    DataIn(st.Data(v), names) && (Winner(st, overrides, v).Some? ==> Winner(st, overrides, v).value in names)
  }

  ghost predicate Closed(st: Store, overrides: seq<string>, names: iset<string>) {
    forall v :: v in names ==> DepsIn(st, overrides, v, names)
  }

  lemma RawIn(st: Store, overrides: seq<string>, v: string, supplied: Option<Text>, names: iset<string>)
    requires DataIn(st.Data(v), names) && (supplied.Some? ==> TextIn(supplied.value, names))
    ensures var raw := Raw(st.Data(v), overrides, supplied); raw.Some? ==> TextIn(raw.value, names)
    ensures forall r :: r in Removes(st.Data(v), overrides) ==> TextIn(r, names)
  {
    var d := st.Data(v);
    var base := if supplied.Some? then supplied else FlagText(d, CONTENT);
    AppendedBelow(base, d.append, overrides, Inside(names), 1);
    AppendedBelow(Appended(base, d.append, overrides), d.prepend, overrides, Inside(names), 1);
  }

  /** What reading v gives only refers to the names it may lead to. */
  lemma {:induction false} EvalIn(st: Store, overrides: seq<string>, v: string, names: iset<string>)
    requires Acyclic(st) && Closed(st, overrides, names) && DepsIn(st, overrides, v, names)
    ensures var e := Eval(st, overrides, v);
            (e.raw.Some? ==> TextIn(e.raw.value, names)) && forall r :: r in e.struck ==> TextIn(r, names)
    decreases Rank(st)(v)
  {
    var m := Winner(st, overrides, v);
    WinnerBelow(st, overrides, v, Rank(st));
    if m.Some? {
      EvalIn(st, overrides, m.value, names);
    }
    EvalUnfolds(st, overrides, v);
    RawIn(st, overrides, v, Sub(st, overrides, v).raw, names);
  }

  // ---- Parses that agree with reading from scratch ----------------------------------------------

  /** The removals a parse carries; none if it has no such attribute. */
  function Carried(p: VariableParse): set<Text> {
    if p.removes.Some? then p.removes.value else {}
  }

  /** r is a removal of an adder that takes its value from m. */
  ghost predicate AddedBy(sc: Scope, m: string, r: Text) {
    exists a :: a in sc.adders && sc.Reader(a) == Some(m) && r in sc.Own(a)
  }

  /** A cached parse of v agrees with reading v from scratch. Its removals may have been extended by the
    * adders that took their value from v, because they add their own to the very same set. */
  ghost predicate Fits(sc: Scope, v: string, p: VariableParse)
    requires Acyclic(sc.st)
  {
    var e := Eval(sc.st, sc.overrides, v);
    && p.raw == e.raw && p.value == e.value && e.struck <= Carried(p)
    && (p.removes.Some? ==> Carries(sc.st, sc.overrides, v))
    && forall r :: r in Carried(p) ==> r in e.struck || AddedBy(sc, v, r)
  }

  ghost predicate FitsFlag(sc: Scope, v: string, flag: string, p: VariableParse)
    requires Acyclic(sc.st)
  {
    && p.raw == FlagText(sc.st.Data(v), flag)
    && p.value == if p.raw.Some? then Some(Expand(sc.st, sc.overrides, p.raw.value)) else None
  }

  ghost predicate CacheFits(sc: Scope, cache: Cache)
    requires Acyclic(sc.st)
  {
    && (forall v :: Whole(v) in cache ==> Fits(sc, v, cache[Whole(v)]))
    && (forall v, f :: Flagged(v, f) in cache ==> FitsFlag(sc, v, f, cache[Flagged(v, f)]))
  }

  /** When an override with a removal set is read by a variable in reach, no other adder that reads it has
    * removals. */
  ghost predicate Unshared(sc: Scope)
    requires Acyclic(sc.st)
  {
    forall v, a, m ::
      v in sc.vars && a in sc.adders && a != v && sc.Reader(v) == Some(m) && sc.Reader(a) == Some(m)
      && Carries(sc.st, sc.overrides, m) ==>
        sc.Own(a) == {}
  }

  ghost predicate Sound(sc: Scope) {
    && Acyclic(sc.st) && Closed(sc.st, sc.overrides, sc.vars) && sc.vars <= sc.adders
    && (forall a :: a in sc.adders ==> DataIn(sc.st.Data(a), sc.vars))
    && Unshared(sc)
  }

  ghost function Height(sc: Scope, v: string): nat
    requires Acyclic(sc.st)
  {
    Rank(sc.st)(v)
  }

  ghost function SubOf(sc: Scope, v: string): Parsed
    requires Acyclic(sc.st)
  {
    Sub(sc.st, sc.overrides, v)
  }

  lemma MoreAdders(sc: Scope, v: string, cache: Cache)
    requires Acyclic(sc.st) && CacheFits(sc, cache)
    ensures CacheFits(sc.With(v), cache)
  {
    forall u | Whole(u) in cache ensures Fits(sc.With(v), u, cache[Whole(u)]) {
      assert Fits(sc, u, cache[Whole(u)]);
      forall r | AddedBy(sc, u, r) ensures AddedBy(sc.With(v), u, r) {
      }
    }
  }

  /** The removals of a reader may join those of its override. */
  lemma MoreRemoves(sc: Scope, m: string, a: string, p: VariableParse, removes: set<Text>)
    requires Acyclic(sc.st) && Fits(sc, m, p) && p.removes.Some?
    requires a in sc.adders && sc.Reader(a) == Some(m)
    requires p.removes.value <= removes <= p.removes.value + sc.Own(a)
    ensures Fits(sc, m, p.(removes := Some(removes)))
  {
    forall r | r in removes && r !in p.removes.value ensures AddedBy(sc, m, r) {
    }
  }

  // ---- One parse --------------------------------------------------------------------------------

  /** The cached parse whose removal set a reader of v shares: the very same object, not a copy. */
  ghost predicate Shares(sc: Scope, cache: Cache, v: string, owner: Option<string>) {
    owner.None? || (owner == sc.Reader(v) && Whole(owner.value) in cache && cache[Whole(owner.value)].removes.Some?)
  }

  /** What the removal set can hold when v starts to use it. */
  ghost predicate MayHold(sc: Scope, v: string, held: set<Text>)
    requires Acyclic(sc.st)
  {
    && SubOf(sc, v).struck <= held
    && forall r :: r in held ==>
         r in SubOf(sc, v).struck
         || (sc.Reader(v).Some? && Carries(sc.st, sc.overrides, sc.Reader(v).value)
             && AddedBy(sc, sc.Reader(v).value, r))
  }

  /** n is above v and above all that adders may have left for it. */
  ghost predicate Bounds(sc: Scope, v: string, n: nat)
    requires Acyclic(sc.st)
  {
    && Height(sc, v) <= n
    && forall m, r :: sc.Reader(v) == Some(m) && Carries(sc.st, sc.overrides, m) && AddedBy(sc, m, r) ==>
         Below(r, Rank(sc.st), n)
  }

  ghost predicate Reached(sc: Scope, removes: set<Text>, n: nat)
    requires Acyclic(sc.st)
  {
    forall r :: r in removes ==> Below(r, Rank(sc.st), n) && TextIn(r, sc.vars)
  }

  /** The removals that v works with can all be expanded. */
  lemma HeldReached(sc: Scope, v: string, held: set<Text>, n: nat)
    requires Sound(sc) && DepsIn(sc.st, sc.overrides, v, sc.vars) && MayHold(sc, v, held) && Bounds(sc, v, n)
    ensures Reached(sc, held + sc.Own(v), n)
  {
    var m := sc.Reader(v);
    WinnerBelow(sc.st, sc.overrides, v, Rank(sc.st));
    RawBelow(sc.st, sc.overrides, v, None);
    RawIn(sc.st, sc.overrides, v, None, sc.vars);
    if m.Some? {
      EvalIn(sc.st, sc.overrides, m.value, sc.vars);
    }
    forall r | r in held && r !in SubOf(sc, v).struck ensures TextIn(r, sc.vars) {
      var a :| a in sc.adders && sc.Reader(a) == m && r in sc.Own(a);
      RawIn(sc.st, sc.overrides, a, None, sc.vars);
    }
  }

  /** What parsing v gives when the removal set holds `held`; `looked` says whether removals were looked for. */
  ghost predicate Parses(sc: Scope, v: string, held: set<Text>, looked: bool, n: nat, p: VariableParse)
    requires Acyclic(sc.st) && Reached(sc, held + sc.Own(v), n)
  {
    && p.raw == Eval(sc.st, sc.overrides, v).raw
    && if p.raw.None? then p == VariableParse(None, None, None)
       else
         var text, removes := Expand(sc.st, sc.overrides, p.raw.value), held + sc.Own(v);
         && p.value == Some(Strike(text, Dropped(sc.st, sc.overrides, removes, n)))
         && p.removes == if !looked || removes == {} then None
                         else Some(Strikers(sc, text, removes, n))
  }

  ghost function Strikers(sc: Scope, text: string, removes: set<Text>, n: nat): set<Text>
    requires Acyclic(sc.st) && Reached(sc, removes, n)
  {
    set r | r in removes && Strikes(text, RemovedWords(sc.st, sc.overrides, r, n))
  }

  /** Whether removals are looked for. */
  ghost predicate Looks(sc: Scope, v: string, expand: bool)
    requires Acyclic(sc.st)
  {
    var raw := Eval(sc.st, sc.overrides, v).raw;
    raw.Some? && if expand then Expand(sc.st, sc.overrides, raw.value) != "" else Truthy(raw.value)
  }

  /** The unexpanded value can be expanded. */
  lemma RawReached(sc: Scope, v: string, raw: Text, n: nat)
    requires Sound(sc) && DepsIn(sc.st, sc.overrides, v, sc.vars) && Height(sc, v) <= n
    requires Raw(sc.st.Data(v), sc.overrides, SubOf(sc, v).raw) == Some(raw)
    ensures Eval(sc.st, sc.overrides, v).raw == Some(raw)
    ensures TextIn(raw, sc.vars) && Bound(sc.st, raw) <= n
    ensures !Truthy(raw) ==> Expand(sc.st, sc.overrides, raw) == ""
  {
    EvalUnfolds(sc.st, sc.overrides, v);
    EvalIn(sc.st, sc.overrides, v, sc.vars);
    BoundBelow(sc.st, raw, Height(sc, v));
    if !Truthy(raw) {
      EmptyExpands(sc.st, sc.overrides, raw);
    }
  }

  /** An empty text needs no removals. */
  lemma EmptyParses(sc: Scope, v: string, raw: Text, held: set<Text>, n: nat)
    requires Acyclic(sc.st) && Reached(sc, held + sc.Own(v), n)
    requires Eval(sc.st, sc.overrides, v).raw == Some(raw) && Expand(sc.st, sc.overrides, raw) == ""
    ensures Parses(sc, v, held, false, n, VariableParse(Some(raw), Some(""), None))
  {
    NothingStrikesEmpty(Dropped(sc.st, sc.overrides, held + sc.Own(v), n), {});
  }

  /** For a variable in reach nothing but its own removals can have joined what struck the override. */
  lemma HeldExact(sc: Scope, v: string, held: set<Text>)
    requires Sound(sc) && v in sc.vars && MayHold(sc, v, held)
    ensures held + sc.Own(v) == SubOf(sc, v).struck + sc.Own(v)
  {
    forall r | r in held && r !in SubOf(sc, v).struck ensures r in sc.Own(v) {
      var a :| a in sc.adders && sc.Reader(a) == sc.Reader(v) && r in sc.Own(a);
    }
  }

  /** So its parse agrees with reading it from scratch. */
  lemma ParsesFits(sc: Scope, v: string, held: set<Text>, expand: bool, p: VariableParse)
    requires Acyclic(sc.st) && held + sc.Own(v) == SubOf(sc, v).struck + sc.Own(v)
    requires Reached(sc, held + sc.Own(v), Height(sc, v))
    requires Parses(sc, v, held, Looks(sc, v, expand), Height(sc, v), p)
    ensures Fits(sc, v, p)
    ensures !expand ==> (p.removes.Some? <==> Carries(sc.st, sc.overrides, v))
  {
    EvalUnfolds(sc.st, sc.overrides, v);
    EvalShortcuts(sc.st, sc.overrides, v);
  }

  lemma OwnBounds(sc: Scope, v: string)
    requires Sound(sc) && v in sc.vars
    ensures Bounds(sc, v, Height(sc, v)) && sc.With(v) == sc
  {
    RawBelow(sc.st, sc.overrides, v, None);
    forall m, r | sc.Reader(v) == Some(m) && Carries(sc.st, sc.overrides, m) && AddedBy(sc, m, r)
      ensures Below(r, Rank(sc.st), Height(sc, v))
    {
      var a :| a in sc.adders && sc.Reader(a) == Some(m) && r in sc.Own(a);
    }
    assert sc.adders + iset{v} == sc.adders;
  }

  // ---- What passes through a removal set --------------------------------------------------------

  /** Whether v uses the removal set of its override: the one in the cached parse, or of a new parse. */
  ghost predicate Hands(sc: Scope, before: Cache, m: string)
    requires Acyclic(sc.st)
  {
    if Whole(m) in before then before[Whole(m)].removes.Some? else Carries(sc.st, sc.overrides, m)
  }

  ghost predicate Handed(sc: Scope, before: Cache, v: string, owner: Option<string>)
    requires Acyclic(sc.st)
  {
    owner.Some? <==> sc.Reader(v).Some? && Hands(sc, before, sc.Reader(v).value)
  }

  /** The set held what was in it before, and has got the reader's own removals. */
  ghost predicate Grew(held: set<Text>, own: set<Text>, before: set<Text>, after: Cache, m: string) {
    before <= held && Whole(m) in after && after[Whole(m)].removes.Some? && held + own <= after[Whole(m)].removes.value
  }

  ghost predicate Passed(sc: Scope, before: Cache, after: Cache, v: string, held: set<Text>)
    requires Acyclic(sc.st)
  {
    forall m :: sc.Reader(v) == Some(m) && Hands(sc, before, m) ==>
      Grew(held, sc.Own(v), if Whole(m) in before then Carried(before[Whole(m)]) else {}, after, m)
  }
}

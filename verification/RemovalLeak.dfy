/** A fault of the reader: a variable that takes its value from an override adds its own removals to the
  * removal set in the cached parse of that override, where the next reader of the override finds them.
  */
module RemovalLeak {
  import opened Common
  import opened OverrideResolution
  import opened OverrideIndex
  import opened DataStore
  import opened Expansion
  import opened CachedReading
  import D = DataSmart

  /** The removal set of the override that supplies u, once u has been read: its own removals join what
    * struck the override, if there is a set to join and a text to strike. */
  ghost function LeftBy(st: Store, overrides: seq<string>, u: string): (left: set<Text>)
    requires Acyclic(st) && Winner(st, overrides, u).Some?
    ensures forall r :: r in left ==> Below(r, Rank(st), Rank(st)(u))
  {
    var m, e := Winner(st, overrides, u).value, Eval(st, overrides, u);
    WinnerBelow(st, overrides, u, Rank(st));
    RawBelow(st, overrides, u, Sub(st, overrides, u).raw);
    Sub(st, overrides, u).struck
    + if Carries(st, overrides, m) && e.raw.Some? && Expand(st, overrides, e.raw.value) != ""
      then Removes(st.Data(u), overrides) else {}
  }

  /** What reading w for the first time gives when u, which takes its value from the same override, was read
    * before, and nothing else that does. */
  ghost function ReadAfter(st: Store, overrides: seq<string>, u: string, w: string): Option<string>
    requires Acyclic(st) && Winner(st, overrides, u).Some?
  {
    var raw, n := Eval(st, overrides, w).raw, Rank(st)(u) + Rank(st)(w);
    RawBelow(st, overrides, w, None);
    var removes := LeftBy(st, overrides, u) + Removes(st.Data(w), overrides);
    if raw.None? then None
    else Some(Strike(Expand(st, overrides, raw.value), Dropped(st, overrides, removes, n)))
  }

  lemma DroppedUnion(st: Store, overrides: seq<string>, a: set<Text>, b: set<Text>, n: nat)
    requires Acyclic(st) && forall r :: r in a + b ==> Below(r, Rank(st), n)
    ensures Dropped(st, overrides, a + b, n) == Dropped(st, overrides, a, n) + Dropped(st, overrides, b, n)
  {
  }

  /** The words do not depend on the height from which they are looked at. */
  lemma DroppedAnywhere(st: Store, overrides: seq<string>, removes: set<Text>, low: nat, high: nat)
    requires Acyclic(st) && low <= high && forall r :: r in removes ==> Below(r, Rank(st), low)
    ensures forall r :: r in removes ==> Below(r, Rank(st), high)
    ensures Dropped(st, overrides, removes, low) == Dropped(st, overrides, removes, high)
  {
    assert forall r :: r in removes ==>
        RemovedWords(st, overrides, r, low) == RemovedWords(st, overrides, r, high);
  }

  lemma DroppedAreWords(st: Store, overrides: seq<string>, removes: set<Text>, n: nat)
    requires Acyclic(st) && forall r :: r in removes ==> Below(r, Rank(st), n)
    ensures "" !in Dropped(st, overrides, removes, n)
  {
  }

  /** What w strikes itself. */
  ghost function OwnRemoves(st: Store, overrides: seq<string>, w: string): (own: set<Text>)
    requires Acyclic(st)
    ensures forall r :: r in own ==> Below(r, Rank(st), Rank(st)(w))
  {
    WinnerBelow(st, overrides, w, Rank(st));
    RawBelow(st, overrides, w, Sub(st, overrides, w).raw);
    Sub(st, overrides, w).struck + Removes(st.Data(w), overrides)
  }

  lemma ValueByOwn(st: Store, overrides: seq<string>, w: string)
    requires Acyclic(st)
    ensures var e := Eval(st, overrides, w);
            e.value == if e.raw.None? then None
                       else Some(Strike(Expand(st, overrides, e.raw.value),
                                        Dropped(st, overrides, OwnRemoves(st, overrides, w), Rank(st)(w))))
  {
    EvalUnfolds(st, overrides, w);
  }

  lemma LeftAndOwn(st: Store, overrides: seq<string>, u: string, w: string)
    requires Acyclic(st) && Winner(st, overrides, u).Some? && Winner(st, overrides, u) == Winner(st, overrides, w)
    ensures LeftBy(st, overrides, u) + Removes(st.Data(w), overrides) ==
            OwnRemoves(st, overrides, w) + LeftBy(st, overrides, u)
  {
  }

  lemma AfterIs(st: Store, overrides: seq<string>, u: string, w: string, removes: set<Text>, n: nat,
                drop: set<string>)
    requires Acyclic(st) && Winner(st, overrides, u).Some?
    requires removes == LeftBy(st, overrides, u) + Removes(st.Data(w), overrides)
    requires n == Rank(st)(u) + Rank(st)(w) && forall r :: r in removes ==> Below(r, Rank(st), n)
    requires Dropped(st, overrides, removes, n) == drop
    ensures var raw := Eval(st, overrides, w).raw;
            ReadAfter(st, overrides, u, w) ==
            if raw.None? then None else Some(Strike(Expand(st, overrides, raw.value), drop))
  {
  }

  /** What reading w after u gives, as far as it differs from what it should. */
  lemma AfterByOwn(st: Store, overrides: seq<string>, u: string, w: string, own: set<string>, left: set<string>)
    requires Acyclic(st) && Winner(st, overrides, u).Some? && Winner(st, overrides, u) == Winner(st, overrides, w)
    requires own == Dropped(st, overrides, OwnRemoves(st, overrides, w), Rank(st)(w))
    requires left == Dropped(st, overrides, LeftBy(st, overrides, u), Rank(st)(u))
    ensures var raw := Eval(st, overrides, w).raw;
            ReadAfter(st, overrides, u, w) ==
            if raw.None? then None else Some(Strike(Expand(st, overrides, raw.value), own + left))
  {
    var n := Rank(st)(u) + Rank(st)(w);
    var a, b := OwnRemoves(st, overrides, w), LeftBy(st, overrides, u);
    DroppedAnywhere(st, overrides, a, Rank(st)(w), n);
    DroppedAnywhere(st, overrides, b, Rank(st)(u), n);
    DroppedUnion(st, overrides, a, b, n);
    LeftAndOwn(st, overrides, u, w);
    AfterIs(st, overrides, u, w, a + b, n, own + left);
  }

  /** Reading w after u still gives the right answer exactly when nothing that u left would strike a word
    * of w that w does not strike itself. */
  lemma LeakExact(st: Store, overrides: seq<string>, u: string, w: string)
    requires Acyclic(st) && Winner(st, overrides, u).Some? && Winner(st, overrides, u) == Winner(st, overrides, w)
    ensures var raw := Eval(st, overrides, w).raw;
            ReadAfter(st, overrides, u, w) == Eval(st, overrides, w).value <==>
            raw.None? || forall t :: t in Tokens(Expand(st, overrides, raw.value))
                                     && t in Dropped(st, overrides, LeftBy(st, overrides, u), Rank(st)(u)) ==>
                                       t in Dropped(st, overrides, OwnRemoves(st, overrides, w), Rank(st)(w))
  {
    var raw := Eval(st, overrides, w).raw;
    var own := Dropped(st, overrides, OwnRemoves(st, overrides, w), Rank(st)(w));
    var left := Dropped(st, overrides, LeftBy(st, overrides, u), Rank(st)(u));
    ValueByOwn(st, overrides, w);
    AfterByOwn(st, overrides, u, w, own, left);
    DroppedAreWords(st, overrides, LeftBy(st, overrides, u), Rank(st)(u));
    if raw.Some? {
      StrikeMore(Tokens(Expand(st, overrides, raw.value)), own, left);
    }
  }

  /** Nothing leaks from a variable without removals, or through an override without a removal set. */
  lemma NoLeak(st: Store, overrides: seq<string>, u: string, w: string)
    requires Acyclic(st) && Winner(st, overrides, u).Some? && Winner(st, overrides, u) == Winner(st, overrides, w)
    requires Removes(st.Data(u), overrides) == {} || !Carries(st, overrides, Winner(st, overrides, u).value)
    ensures ReadAfter(st, overrides, u, w) == Eval(st, overrides, w).value
  {
    LeakExact(st, overrides, u, w);
    var own, left := OwnRemoves(st, overrides, w), LeftBy(st, overrides, u);
    assert left <= own;
    DroppedAnywhere(st, overrides, left, Rank(st)(u), Rank(st)(u) + Rank(st)(w));
    DroppedAnywhere(st, overrides, own, Rank(st)(w), Rank(st)(u) + Rank(st)(w));
  }

  // ---- The reader does this ---------------------------------------------------------------------

  /** Two variables that take their value from m, while nothing either of them leads to does. */
  ghost predicate TwoReaders(sc: Scope, u: string, w: string, m: string) {
    && Sound(sc) && sc.adders == sc.vars && u != w && sc.Reader(u) == Some(m) && sc.Reader(w) == Some(m)
    && DepsIn(sc.st, sc.overrides, u, sc.vars) && DepsIn(sc.st, sc.overrides, w, sc.vars)
    && forall x :: x in sc.vars ==> sc.Reader(x) != Some(m)
  }

  /** What may be in the removal set of m once u has been read. */
  ghost function AfterFirst(sc: Scope, u: string): Scope
    requires Acyclic(sc.st)
  {
    if Looks(sc, u, true) then sc.With(u) else sc
  }

  lemma OutsideUnshared(sc: Scope, a: string, m: string)
    requires Acyclic(sc.st) && Unshared(sc) && sc.Reader(a) == Some(m)
    requires forall x :: x in sc.vars ==> sc.Reader(x) != Some(m)
    ensures Unshared(sc.With(a))
  {
    forall v, b, k | v in sc.vars && b in sc.With(a).adders && b != v && sc.With(a).Reader(v) == Some(k)
                     && sc.With(a).Reader(b) == Some(k) && Carries(sc.st, sc.overrides, k)
      ensures sc.With(a).Own(b) == {}
    {
      assert sc.Reader(v) == Some(k) && sc.Reader(b) == Some(k);
      assert b != a;
      assert sc.Own(b) == {};
    }
  }

  /** A reader of m does not disturb variables of which none reads m. */
  lemma OutsideSound(sc: Scope, a: string, m: string)
    requires Sound(sc) && DataIn(sc.st.Data(a), sc.vars) && sc.Reader(a) == Some(m)
    requires forall x :: x in sc.vars ==> sc.Reader(x) != Some(m)
    ensures Sound(sc.With(a))
  {
    OutsideUnshared(sc, a, m);
  }

  /** What can have joined the set of m: nothing at first, the removals of u once u has been read. */
  lemma OnlyFirst(sc: Scope, u: string, w: string, m: string, r: Text)
    requires TwoReaders(sc, u, w, m)
    ensures !AddedBy(sc, m, r)
    ensures AddedBy(sc.With(u), m, r) ==> r in sc.Own(u)
  {
  }

  lemma FirstHeld(sc: Scope, u: string, w: string, m: string, held: set<Text>)
    requires TwoReaders(sc, u, w, m) && MayHold(sc, u, held)
    ensures held == SubOf(sc, u).struck
  {
    forall r | r in held ensures r in SubOf(sc, u).struck {
      OnlyFirst(sc, u, w, m, r);
    }
  }

  lemma SecondHeld(sc: Scope, u: string, w: string, m: string, held: set<Text>)
    requires TwoReaders(sc, u, w, m) && MayHold(AfterFirst(sc, u), w, held)
    ensures SubOf(sc, u).struck <= held <= LeftBy(sc.st, sc.overrides, u)
  {
    forall r | r in held ensures r in LeftBy(sc.st, sc.overrides, u) {
      OnlyFirst(sc, u, w, m, r);
    }
  }

  lemma FirstBounds(sc: Scope, u: string, w: string, m: string)
    requires TwoReaders(sc, u, w, m)
    ensures Bounds(sc, u, Height(sc, u))
  {
    forall r ensures !AddedBy(sc, m, r) {
      OnlyFirst(sc, u, w, m, r);
    }
  }

  lemma SecondBounds(sc: Scope, u: string, w: string, m: string)
    requires TwoReaders(sc, u, w, m)
    ensures Bounds(AfterFirst(sc, u), w, Height(sc, u) + Height(sc, w))
  {
    RawBelow(sc.st, sc.overrides, u, None);
    forall r | AddedBy(AfterFirst(sc, u), m, r) ensures Below(r, Rank(sc.st), Height(sc, u) + Height(sc, w)) {
      OnlyFirst(sc, u, w, m, r);
    }
  }

  /** The value of the first reader is right. */
  lemma FirstValue(sc: Scope, u: string, held: set<Text>, p: VariableParse)
    requires Acyclic(sc.st) && held == SubOf(sc, u).struck && Reached(sc, held + sc.Own(u), Height(sc, u))
    requires Parses(sc, u, held, Looks(sc, u, true), Height(sc, u), p)
    ensures Fits(AfterFirst(sc, u), u, p)
  {
    ParsesFits(sc, u, held, true, p);
  }

  /** The value of the second one is that of ReadAfter. */
  lemma SecondValue(sc: Scope, u: string, w: string, held: set<Text>, n: nat, p: VariableParse)
    requires Acyclic(sc.st) && sc.Reader(u).Some? && n == Height(sc, u) + Height(sc, w)
    requires Reached(sc, held + sc.Own(w), n) && Parses(sc, w, held, Looks(sc, w, true), n, p)
    requires Looks(sc, w, true) ==> held == LeftBy(sc.st, sc.overrides, u)
    ensures p.value == ReadAfter(sc.st, sc.overrides, u, w)
  {
    var raw := Eval(sc.st, sc.overrides, w).raw;
    var removes := LeftBy(sc.st, sc.overrides, u) + sc.Own(w);
    RawBelow(sc.st, sc.overrides, w, None);
    AfterIs(sc.st, sc.overrides, u, w, removes, n, Dropped(sc.st, sc.overrides, removes, n));
    if raw.Some? && Expand(sc.st, sc.overrides, raw.value) == "" {
      NothingStrikesEmpty(Dropped(sc.st, sc.overrides, held + sc.Own(w), n), {});
      NothingStrikesEmpty(Dropped(sc.st, sc.overrides, removes, n), {});
    }
  }

  /** The set that the first reader leaves in the cache is the one the second finds. */
  lemma LeftInCache(sc: Scope, u: string, w: string, m: string, first: set<Text>, cache: Cache, second: set<Text>,
                    after: Cache)
    requires TwoReaders(sc, u, w, m)
    requires MayHold(sc, u, first) && (Looks(sc, u, true) ==> Passed(sc, map[], cache, u, first))
    requires MayHold(AfterFirst(sc, u), w, second) && Passed(AfterFirst(sc, u), cache, after, w, second)
    ensures second == LeftBy(sc.st, sc.overrides, u)
  {
    FirstHeld(sc, u, w, m, first);
    SecondHeld(sc, u, w, m, second);
    if Carries(sc.st, sc.overrides, m) && Looks(sc, u, true) {
      assert Hands(sc, map[], m);
      assert Hands(AfterFirst(sc, u), cache, m);
    }
  }

  lemma PassedCached(sc: Scope, before: Cache, after: Cache, u: string, held: set<Text>, p: VariableParse)
    requires Acyclic(sc.st) && Passed(sc, before, after, u, held) && sc.Reader(u) != Some(u)
    ensures Passed(sc, before, after[Whole(u) := p], u, held)
  {
  }

  /** getVar of the first reader: nothing is cached, so it is parsed and then cached. */
  method ReadFirst(d: D.DataSmart, u: string, ghost w: string, ghost m: string, ghost sc: Scope)
      returns (value: Option<string>, ghost held: set<Text>)
    requires d.Ready(sc) && d.expand_cache == map[] && TwoReaders(sc, u, w, m)
    modifies d`expand_cache
    ensures d.Ready(AfterFirst(sc, u)) && value == Eval(sc.st, sc.overrides, u).value
    ensures MayHold(sc, u, held) && (Looks(sc, u, true) ==> Passed(sc, map[], d.expand_cache, u, held))
    ensures Whole(w) !in d.expand_cache
  {
    OutsideSound(sc, u, m);
    FirstBounds(sc, u, w, m);
    var p;
    p, held := d.Parse(u, true, Height(sc, u), sc);
    FirstHeld(sc, u, w, m, held);
    FirstValue(sc, u, held, p);
    if Looks(sc, u, true) {
      PassedCached(sc, map[], d.expand_cache, u, held, p);
    }
    d.Cache(Whole(u), p, AfterFirst(sc, u));
    value := p.value;
  }

  /** getVar of the second one, which is not cached either. */
  method ReadSecond(d: D.DataSmart, ghost u: string, w: string, ghost m: string, ghost sc: Scope,
                    ghost first: set<Text>) returns (value: Option<string>)
    requires TwoReaders(sc, u, w, m) && d.Ready(AfterFirst(sc, u)) && MayHold(sc, u, first)
    requires Whole(w) !in d.expand_cache
    requires Looks(sc, u, true) ==> Passed(sc, map[], d.expand_cache, u, first)
    modifies d`expand_cache
    ensures d.Valid() && d.Store() == sc.st && value == ReadAfter(sc.st, sc.overrides, u, w)
  {
    ghost var after, n, cache := AfterFirst(sc, u), Height(sc, u) + Height(sc, w), d.expand_cache;
    OutsideSound(after, w, m);
    SecondBounds(sc, u, w, m);
    var p;
    ghost var held;
    p, held := d.Parse(w, true, n, after);
    if Looks(after, w, true) {
      LeftInCache(sc, u, w, m, first, cache, held, d.expand_cache);
    }
    SameParse(sc, u, w, held, n, p);
    SecondValue(sc, u, w, held, n, p);
    d.Keep(w, p);
    value := p.value;
  }

  lemma SameParse(sc: Scope, u: string, w: string, held: set<Text>, n: nat, p: VariableParse)
    requires Acyclic(sc.st) && Reached(AfterFirst(sc, u), held + sc.Own(w), n)
    requires Parses(AfterFirst(sc, u), w, held, Looks(AfterFirst(sc, u), w, true), n, p)
    ensures Reached(sc, held + sc.Own(w), n) && Parses(sc, w, held, Looks(sc, w, true), n, p)
    ensures Looks(AfterFirst(sc, u), w, true) == Looks(sc, w, true)
  {
  }

  /** From an empty cache, reading u and then w gives the right answer and that of ReadAfter. */
  method ReadBoth(d: D.DataSmart, u: string, w: string, ghost m: string, ghost sc: Scope)
      returns (first: Option<string>, second: Option<string>)
    requires d.Ready(sc) && d.expand_cache == map[] && TwoReaders(sc, u, w, m)
    modifies d`expand_cache
    ensures d.Valid() && d.Store() == sc.st
    ensures first == Eval(sc.st, sc.overrides, u).value && second == ReadAfter(sc.st, sc.overrides, u, w)
  {
    ghost var held;
    first, held := ReadFirst(d, u, w, m, sc);
    second := ReadSecond(d, u, w, m, sc, held);
  }

  // ---- A store that leaks -----------------------------------------------------------------------

  const OVERRIDES := ["a", "b"]

  /** F:a:b = "x y", F:a:b:remove = "y", F:remove = "x". */
  const SETUP := [
    Assign("F:a:b", [Lit("x y")], true),
    Alter("F:a:b", Removal, Change([Lit("y")], None)),
    Alter("F", Removal, Change([Lit("x")], None))]

  const INDEX: Index := map["F:a" := [Entry("F:a:b", "b")], "F" := [Entry("F:a:b", "a:b")]]

  predicate IsLeaking(st: Store) {
    && st.vars.Keys == {"F:a:b", "F"} && st.index == INDEX
    && st.Data("F:a:b") == VarData(map[CONTENT := [Lit("x y")]], [], [], [Change([Lit("y")], None)])
    && st.Data("F") == VarData(map[], [], [], [Change([Lit("x")], None)])
  }

  lemma WalkOfJoined()
    ensures Walk("F:a:b") == [("F:a", "b"), ("F", "a:b")] && Walk("F") == []
  {
    var name := "F:a:b";
    assert name[..3] == "F:a" && name[4..] == "b" && name[..1] == "F" && name[2..] == "a:b";
    assert name[3] == ':' && name[4] == 'b' && "F:a"[1] == ':' && "F:a"[2] == 'a' && "F"[0] == 'F';
    assert LastColon(name) == 3 && LastColon("F:a") == 1 && LastColon("F") == -1;
    assert WalkFrom(name, 1) == [("F", "a:b")];
  }

  /** Entering a name again changes nothing. */
  lemma {:induction false} EnterKnown(ix: Index, name: string, w: seq<(string, string)>)
    requires forall p :: p in w ==> Entry(name, p.1) in Listed(ix, p.0)
    ensures Enter(ix, name, w) == ix
    decreases |w|
  {
    if w != [] {
      assert w[0] in w;
      EnterKnown(ix, name, w[1..]);
    }
  }

  lemma EnterJoined()
    ensures Enter(map[], "F:a:b", Walk("F:a:b")) == INDEX
    ensures Enter(INDEX, "F:a:b", Walk("F:a:b")) == INDEX
    ensures Enter(INDEX, "F", Walk("F")) == INDEX
  {
    WalkOfJoined();
    var e, f := Entry("F:a:b", "b"), Entry("F:a:b", "a:b");
    var ix1: Index := map["F:a" := [e]];
    assert |"F:a"| != |"F"|;
    assert INDEX["F:a"][0] == e && INDEX["F"][0] == f;
    EnterKnown(INDEX, "F:a:b", Walk("F:a:b"));
    assert [] + [e] == [e] && [] + [f] == [f];
    assert AddEntry(map[], "F:a", e) == ix1 && AddEntry(ix1, "F", f) == INDEX;
    var w := [("F:a", "b"), ("F", "a:b")];
    assert w[1..] == [w[1]] && w[1..][1..] == [];
    assert Enter(map[], "F:a:b", w) == Enter(ix1, "F:a:b", w[1..]) == Enter(INDEX, "F:a:b", []);
  }

  lemma FirstWrite(st: Store, overrides: seq<string>)
    requires st == Store(map[], map[])
    ensures var st1 := Apply(st, Assign("F:a:b", [Lit("x y")], true), overrides);
            st1.index == INDEX && st1.vars == map["F:a:b" := VarData(map[CONTENT := [Lit("x y")]], [], [], [])]
  {
    EnterJoined();
    assert "F:a:b"[1] == ':';
    var flags: map<string, Text> := map[];
    assert flags[CONTENT := [Lit("x y")]] == map[CONTENT := [Lit("x y")]];
  }

  lemma OperateKeeps(st: Store, v: string, c: Change, overrides: seq<string>)
    requires Enter(st.index, v, Walk(v)) == st.index && st.Data(v).remove == []
    ensures var st1 := Apply(st, Alter(v, Removal, c), overrides);
            st1.index == st.index && st1.vars == st.vars[v := st.Data(v).(remove := [c])]
  {
    assert [] + [c] == [c];
  }

  lemma SetupLeaks()
    ensures IsLeaking(DataStore.Run(Store(map[], map[]), SETUP, OVERRIDES))
  {
    var st, overrides, c, d := Store(map[], map[]), OVERRIDES, Change([Lit("y")], None), Change([Lit("x")], None);
    var w1, w2, w3 := Assign("F:a:b", [Lit("x y")], true), Alter("F:a:b", Removal, c), Alter("F", Removal, d);
    FirstWrite(st, overrides);
    EnterJoined();
    var st1 := Apply(st, w1, overrides);
    OperateKeeps(st1, "F:a:b", c, overrides);
    var st2 := Apply(st1, w2, overrides);
    assert |"F:a:b"| != |"F"|;
    OperateKeeps(st2, "F", d, overrides);
    RunOfThree(st, w1, w2, w3);
  }

  lemma RunOfThree(st: Store, w1: Write, w2: Write, w3: Write)
    ensures DataStore.Run(st, [w1, w2, w3], OVERRIDES)
            == Apply(Apply(Apply(st, w1, OVERRIDES), w2, OVERRIDES), w3, OVERRIDES)
  {
    var st1 := Apply(st, w1, OVERRIDES);
    assert [w1, w2, w3][1..] == [w2, w3] && [w2, w3][1..] == [w3] && [w3][1..] == [];
    assert DataStore.Run(st, [w1, w2, w3], OVERRIDES) == DataStore.Run(st1, [w2, w3], OVERRIDES);
    assert DataStore.Run(st1, [w2, w3], OVERRIDES) == DataStore.Run(Apply(st1, w2, OVERRIDES), [w3], OVERRIDES);
  }

  lemma LeakingAcyclic(st: Store)
    requires IsLeaking(st)
    ensures Acyclic(st)
  {
    var rank: string -> nat := s => if |s| > 9 then 0 else 9 - |s|;
    assert |"F:a:b"| == 5 && |"F:a"| == 3 && |"F"| == 1;
    forall v | v in st.vars
      ensures var d := st.vars[v];
              && (CONTENT in d.flags ==> Below(d.flags[CONTENT], rank, rank(v)))
              && DEFAULT !in d.flags && "_defaultval_flag_" + CONTENT !in d.flags
              && ChangesBelow(d.append, rank, rank(v)) && ChangesBelow(d.prepend, rank, rank(v))
              && ChangesBelow(d.remove, rank, rank(v))
    {
      assert v == "F:a:b" || v == "F";
      assert st.vars[v] == st.Data(v);
    }
    assert IsRank(st, rank);
  }

  lemma JoinedActive()
    ensures DataStore.Active("b", OVERRIDES) && DataStore.Active("a:b", OVERRIDES)
  {
    assert OVERRIDES[0] == "a" && OVERRIDES[1] == "b" && "a:b"[1] == ':';
    var cs := ["a", "b"];
    assert Join(cs) == "a:b" by {
      assert cs[1..] == ["b"] && ["b"][1..] == [];
    }
    JoinInjective(Split("a:b"), cs);
  }

  lemma NamesFree()
    ensures PrefixFree(OVERRIDES)
  {
    assert OVERRIDES == ["a", "b"] && "a"[0] != "b"[0] && ':' !in "a" && ':' !in "b";
  }

  /** A variable with a single entry, which is active. */
  lemma OnlyEntry(st: Store, overrides: seq<string>, v: string, e: Entry)
    requires PrefixFree(overrides) && v in st.index && st.index[v] == [e] && DataStore.Active(e.o, overrides)
    ensures Winner(st, overrides, v) == Some(e.r)
  {
    assert st.index[v][0] == e;
    assert e.o in ActiveNames(Listed(st.index, v), overrides);
    forall k | k in ActiveNames(Listed(st.index, v), overrides) ensures CleanlyJoined(k, overrides) {
      ActiveIsJoined(k, overrides);
      PrefixFreeClean(k, overrides);
    }
    WinnerOfJoined(st, overrides, v);
    var f := WinnerEntry(st, overrides, v);
  }

  lemma LeakingWinner(st: Store, v: string)
    requires IsLeaking(st) && (v == "F" || v == "F:a")
    ensures Winner(st, OVERRIDES, v) == Some("F:a:b")
  {
    JoinedActive();
    NamesFree();
    OnlyEntry(st, OVERRIDES, v, if v == "F" then Entry("F:a:b", "a:b") else Entry("F:a:b", "b"));
  }

  lemma ExpandLiteral(st: Store, overrides: seq<string>, s: string)
    requires Acyclic(st)
    ensures Expand(st, overrides, [Lit(s)]) == s && (s != "" ==> Truthy([Lit(s)]))
  {
    var t := [Lit(s)];
    assert t[1..] == [] && t[0] in t;
  }

  lemma WordOf(s: string, c: char)
    requires s == [c] && !IsSpace(c)
    ensures Words(s) == {s} && Tokens(s) == [s]
  {
    assert s[1..] == "" && Tokens("") == [""] && s[..1] + "" == s;
  }

  lemma TokensOfText()
    ensures Tokens("x y") == ["x", " ", "y"]
  {
    WordOf("y", 'y');
    assert "x y"[1..] == " y" && "x y"[..1] == "x" && " y"[1..] == "y" && " y"[..1] == " ";
    assert IsSpace(' ') && !IsSpace('x');
    assert Tokens(" y") == ["", " "] + ["y"];
    assert "x" + "" == "x" && ["", " ", "y"][1..] == [" ", "y"];
  }

  lemma KeptThree(a: string, b: string, c: string, drop: set<string>)
    ensures Kept([a, b, c], drop) ==
            (if a in drop then "" else a) + ((if b in drop then "" else b) + ((if c in drop then "" else c) + ""))
  {
    assert [a, b, c][1..] == [b, c] && [b, c][1..] == [c] && [c][1..] == [];
    assert Kept([c], drop) == (if c in drop then "" else c) + "";
  }

  lemma Stricken(drop: set<string>)
    ensures drop == {"y"} ==> Strike("x y", drop) == "x "
    ensures drop == {"x", "y"} ==> Strike("x y", drop) == " "
  {
    TokensOfText();
    KeptThree("x", " ", "y", drop);
    assert "x" + (" " + ("" + "")) == "x " && "" + (" " + ("" + "")) == " ";
  }

  lemma OnlyRemoval(d: VarData, overrides: seq<string>, c: Change)
    requires d.remove == [c] && c.condition.None?
    ensures Removes(d, overrides) == {c.text}
  {
    assert d.remove[0] == c;
  }

  /** F:a:b itself. */
  lemma LeakingOwner(st: Store, overrides: seq<string>)
    requires IsLeaking(st) && Acyclic(st)
    ensures var e := Eval(st, overrides, "F:a:b");
            e.raw == Some([Lit("x y")]) && e.struck == {[Lit("y")]} && Carries(st, overrides, "F:a:b")
  {
    var v := "F:a:b";
    assert v !in INDEX by {
      assert |"F:a:b"| == 5 && |"F:a"| == 3 && |"F"| == 1;
    }
    OnlyRemoval(st.Data(v), overrides, Change([Lit("y")], None));
    EvalUnfolds(st, overrides, v);
    ExpandLiteral(st, overrides, "x y");
    OneWord(st, overrides, "y", 'y', Rank(st)(v));
    TokensOfText();
    assert Tokens("x y")[2] == "y";
  }

  lemma OneWord(st: Store, overrides: seq<string>, s: string, c: char, n: nat)
    requires Acyclic(st) && s == [c] && !IsSpace(c)
    ensures RemovedWords(st, overrides, [Lit(s)], n) == {s}
  {
    WordOf(s, c);
    ExpandLiteral(st, overrides, s);
  }

  /** What F and F:a read: both the text of F:a:b; F alone has a removal. */
  lemma LeakingReaders(st: Store, overrides: seq<string>, v: string)
    requires IsLeaking(st) && Acyclic(st) && (v == "F" || v == "F:a")
    requires Winner(st, overrides, v) == Some("F:a:b")
    ensures Sub(st, overrides, v) == Eval(st, overrides, "F:a:b")
    ensures Eval(st, overrides, v).raw == Some([Lit("x y")])
    ensures Removes(st.Data(v), overrides) == if v == "F" then {[Lit("x")]} else {}
  {
    LeakingOwner(st, overrides);
    EvalUnfolds(st, overrides, v);
    if v == "F" {
      OnlyRemoval(st.Data(v), overrides, Change([Lit("x")], None));
    }
  }

  /** The words of the removals of one letter each. */
  lemma DroppedLetters(st: Store, overrides: seq<string>, removes: set<Text>, n: nat, letters: set<string>)
    requires Acyclic(st) && forall r :: r in removes ==> Below(r, Rank(st), n)
    requires (removes == {[Lit("y")]} && letters == {"y"})
             || (removes == {[Lit("x")], [Lit("y")]} && letters == {"x", "y"})
    ensures Dropped(st, overrides, removes, n) == letters
  {
    OneWord(st, overrides, "x", 'x', n);
    OneWord(st, overrides, "y", 'y', n);
    assert forall r :: r in removes ==> r == [Lit("x")] || r == [Lit("y")];
    assert [Lit("y")] in removes && ([Lit("x")] in removes <==> "x" in letters);
  }

  /** What F:a strikes itself, and what F leaves. */
  lemma LeakingSets(st: Store, overrides: seq<string>)
    requires IsLeaking(st) && Acyclic(st)
    requires Winner(st, overrides, "F") == Some("F:a:b") && Winner(st, overrides, "F:a") == Some("F:a:b")
    ensures OwnRemoves(st, overrides, "F:a") == {[Lit("y")]}
    ensures LeftBy(st, overrides, "F") == {[Lit("x")], [Lit("y")]}
  {
    LeakingOwner(st, overrides);
    LeakingReaders(st, overrides, "F");
    LeakingReaders(st, overrides, "F:a");
    SetsFrom(st, overrides, "F", "F:a", "F:a:b", "x y");
  }

  lemma SetsFrom(st: Store, overrides: seq<string>, u: string, w: string, m: string, text: string)
    requires Acyclic(st) && Winner(st, overrides, u) == Some(m) && Carries(st, overrides, m)
    requires Eval(st, overrides, u).raw == Some([Lit(text)]) && text != ""
    ensures LeftBy(st, overrides, u) == Sub(st, overrides, u).struck + Removes(st.Data(u), overrides)
    ensures Removes(st.Data(w), overrides) == {} ==> OwnRemoves(st, overrides, w) == Sub(st, overrides, w).struck
  {
    ExpandLiteral(st, overrides, text);
  }

  lemma ValueOfLiteral(st: Store, overrides: seq<string>, w: string, text: string, drop: set<string>)
    requires Acyclic(st) && Eval(st, overrides, w).raw == Some([Lit(text)])
    requires Dropped(st, overrides, OwnRemoves(st, overrides, w), Rank(st)(w)) == drop
    ensures Eval(st, overrides, w).value == Some(Strike(text, drop))
  {
    ValueByOwn(st, overrides, w);
    ExpandLiteral(st, overrides, text);
  }

  lemma LiteralAfter(st: Store, overrides: seq<string>, u: string, w: string, text: string, left: set<Text>, n: nat,
                     drop: set<string>)
    requires Acyclic(st) && Winner(st, overrides, u).Some? && left == LeftBy(st, overrides, u)
    requires Eval(st, overrides, w).raw == Some([Lit(text)]) && Removes(st.Data(w), overrides) == {}
    requires n == Rank(st)(u) + Rank(st)(w) && forall r :: r in left ==> Below(r, Rank(st), n)
    requires Dropped(st, overrides, left, n) == drop
    ensures ReadAfter(st, overrides, u, w) == Some(Strike(text, drop))
  {
    ExpandLiteral(st, overrides, text);
    assert left + {} == left;
    AfterIs(st, overrides, u, w, left, n, drop);
  }

  lemma RightValue(st: Store, overrides: seq<string>)
    requires IsLeaking(st) && Acyclic(st)
    requires Winner(st, overrides, "F") == Some("F:a:b") && Winner(st, overrides, "F:a") == Some("F:a:b")
    ensures Eval(st, overrides, "F:a").value == Some("x ")
  {
    LeakingReaders(st, overrides, "F:a");
    LeakingSets(st, overrides);
    DroppedLetters(st, overrides, {[Lit("y")]}, Rank(st)("F:a"), {"y"});
    ValueOfLiteral(st, overrides, "F:a", "x y", {"y"});
    Stricken({"y"});
  }

  lemma WrongValue(st: Store, overrides: seq<string>)
    requires IsLeaking(st) && Acyclic(st)
    requires Winner(st, overrides, "F") == Some("F:a:b") && Winner(st, overrides, "F:a") == Some("F:a:b")
    ensures ReadAfter(st, overrides, "F", "F:a") == Some(" ")
  {
    var left, n, drop := {[Lit("x")], [Lit("y")]}, Rank(st)("F") + Rank(st)("F:a"), {"x", "y"};
    LeakingReaders(st, overrides, "F:a");
    LeakingSets(st, overrides);
    DroppedLetters(st, overrides, left, n, drop);
    LiteralAfter(st, overrides, "F", "F:a", "x y", left, n, drop);
    Stricken(drop);
  }

  /** FOO:a:b = "x y" less y, read as FOO:a: x. After FOO, which strikes x, has been read: nothing. */
  lemma LeakShown(st: Store)
    requires IsLeaking(st)
    ensures Acyclic(st) && Winner(st, OVERRIDES, "F").Some?
    ensures Eval(st, OVERRIDES, "F:a").value == Some("x ")
    ensures ReadAfter(st, OVERRIDES, "F", "F:a") == Some(" ")
  {
    LeakingAcyclic(st);
    LeakingWinner(st, "F");
    LeakingWinner(st, "F:a");
    RightValue(st, OVERRIDES);
    WrongValue(st, OVERRIDES);
  }

  lemma NothingIn(names: iset<string>)
    ensures DataIn(NOTHING, names)
  {
  }

  lemma LiteralsIn(d: VarData, names: iset<string>)
    requires forall f :: f in d.flags ==> forall p :: p in d.flags[f] ==> p.Lit?
    requires d.append == [] && d.prepend == [] && forall c :: c in d.remove ==> forall p :: p in c.text ==> p.Lit?
    ensures DataIn(d, names)
  {
  }

  /** An override that no override supplies, alone or with one reader beside it, can be read safely, */
  lemma OneReaderSound(sc: Scope, m: string, w: string)
    requires Acyclic(sc.st) && sc.adders == sc.vars && (sc.vars == iset{m} || sc.vars == iset{m, w})
    requires DataIn(sc.st.Data(m), sc.vars) && DataIn(sc.st.Data(w), sc.vars)
    requires sc.Reader(m).None? && sc.Reader(w) == Some(m)
    ensures Sound(sc)
  {
    OneReaderUnshared(sc, m, w);
    forall v | v in sc.vars ensures DepsIn(sc.st, sc.overrides, v, sc.vars) {
      OneReaderIn(sc, m, w, v);
    }
    forall v | v in sc.adders ensures DataIn(sc.st.Data(v), sc.vars) {
      OneReaderIn(sc, m, w, v);
    }
  }

  lemma OneReaderIn(sc: Scope, m: string, w: string, v: string)
    requires v == m || v == w
    requires DataIn(sc.st.Data(m), sc.vars) && DataIn(sc.st.Data(w), sc.vars) && m in sc.vars
    requires sc.Reader(m).None? && sc.Reader(w) == Some(m)
    ensures DepsIn(sc.st, sc.overrides, v, sc.vars) && DataIn(sc.st.Data(v), sc.vars)
  {
  }

  lemma OneReaderUnshared(sc: Scope, m: string, w: string)
    requires Acyclic(sc.st) && sc.adders == sc.vars && (sc.vars == iset{m} || sc.vars == iset{m, w})
    requires sc.Reader(m).None?
    ensures Unshared(sc)
  {
  }

  /** and alone it can have two readers. */
  lemma TwoReadersOf(sc: Scope, u: string, w: string, m: string)
    requires Acyclic(sc.st) && sc.adders == sc.vars == iset{m}
    requires DataIn(sc.st.Data(m), sc.vars) && DataIn(sc.st.Data(u), sc.vars) && DataIn(sc.st.Data(w), sc.vars)
    requires u != w && sc.Reader(m).None? && sc.Reader(u) == Some(m) && sc.Reader(w) == Some(m)
    ensures TwoReaders(sc, u, w, m)
  {
    OneReaderSound(sc, m, w);
  }

  lemma LeakingData(st: Store, names: iset<string>)
    requires IsLeaking(st)
    ensures DataIn(st.Data("F:a:b"), names) && DataIn(st.Data("F:a"), names) && DataIn(st.Data("F"), names)
    ensures Winner(st, OVERRIDES, "F:a:b").None?
  {
    NothingIn(names);
    LiteralsIn(st.Data("F:a:b"), names);
    LiteralsIn(st.Data("F"), names);
    assert |"F:a:b"| == 5 && |"F:a"| == 3 && |"F"| == 1;
    assert st.Data("F:a") == NOTHING;
  }

  method Written(overrides: seq<string>, ws: seq<Write>) returns (d: D.DataSmart)
    requires ws != []
    ensures fresh(d) && d.Valid() && d.overrides == overrides && d.expand_cache == map[] && fresh(d.Own())
    ensures d.Store() == DataStore.Run(Store(map[], map[]), ws, overrides)
  {
    d := new D.DataSmart(overrides);
    d.Run(ws);
  }

  method NewLeaking() returns (d: D.DataSmart)
    ensures fresh(d) && d.Valid() && d.overrides == OVERRIDES && d.expand_cache == map[] && IsLeaking(d.Store())
    ensures fresh(d.Own())
  {
    SetupLeaks();
    d := Written(OVERRIDES, SETUP);
  }

  method ReadAlone() returns (value: Option<string>)
    ensures value == Some("x ")
  {
    var d := NewLeaking();
    ghost var names := iset{"F:a:b", "F:a"};
    LeakShown(d.Store());
    LeakingWinner(d.Store(), "F:a");
    LeakingData(d.Store(), names);
    OneReaderSound(Scope(d.Store(), OVERRIDES, names, names), "F:a:b", "F:a");
    value := d.GetVar("F:a", names);
  }

  method ReadAfterF() returns (value: Option<string>)
    ensures value == Some(" ")
  {
    var d := NewLeaking();
    ghost var sc := Scope(d.Store(), OVERRIDES, iset{"F:a:b"}, iset{"F:a:b"});
    LeakShown(d.Store());
    LeakingWinner(d.Store(), "F");
    LeakingWinner(d.Store(), "F:a");
    LeakingData(d.Store(), sc.vars);
    assert |"F:a"| != |"F"|;
    TwoReadersOf(sc, "F", "F:a", "F:a:b");
    var first;
    first, value := ReadBoth(d, "F", "F:a", "F:a:b", sc);
  }

  /** Two new datastores with the same writes: one reads F:a, the other F before it. */
  method LeakRun() returns (alone: Option<string>, afterF: Option<string>)
    ensures alone == Some("x ") && afterF == Some(" ")
  {
    alone := ReadAlone();
    afterF := ReadAfterF();
  }
}

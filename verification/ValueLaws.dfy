/** What a read gives, told from the data of the variable and the value of its override alone. */
module ValueLaws {
  import opened Common
  import opened OverrideResolution
  import opened OverrideIndex
  import opened DataStore
  import opened Expansion
  import opened WriteEffects
  import opened ReadBack
  import opened CachedReading
  import D = DataSmart

  // ---- Expansion --------------------------------------------------------------------------------

  /** Expansion goes part by part: literal parts stay, a reference gives what the variable reads, and a
    * reference to an undefined variable stays as it is written. These determine it. */
  lemma {:induction false} ExpandConcat(st: Store, overrides: seq<string>, a: Text, b: Text)
    requires Acyclic(st)
    ensures Expand(st, overrides, a + b) == Expand(st, overrides, a) + Expand(st, overrides, b)
    decreases |a|
  {
    if a == [] {
      assert a + b == b;
    } else {
      assert (a + b)[0] == a[0] && (a + b)[1..] == a[1..] + b;
      ExpandConcat(st, overrides, a[1..], b);
      Regroup(Piece(st, overrides, a[0]), Expand(st, overrides, a[1..]), Expand(st, overrides, b));
    }
  }

  lemma ExpandPart(st: Store, overrides: seq<string>, p: Part)
    requires Acyclic(st)
    ensures p.Lit? ==> Expand(st, overrides, [p]) == p.text
    ensures p.Ref? && Eval(st, overrides, p.name).value.Some? ==>
              Expand(st, overrides, [p]) == Eval(st, overrides, p.name).value.value
    ensures p.Ref? && Eval(st, overrides, p.name).value.None? ==>
              Expand(st, overrides, [p]) == "${" + p.name + "}"
  {
    assert [p][1..] == [] && Expand(st, overrides, []) == "";
    assert Expand(st, overrides, [p]) == Piece(st, overrides, p) + "";
  }

  // ---- The unexpanded value ---------------------------------------------------------------------

  predicate HasOwn(d: VarData) {
    CONTENT in d.flags || DEFAULT in d.flags || "_defaultval_flag_" + CONTENT in d.flags
  }

  /** The texts of the operations that apply, in their order. */
  function Applying(cs: seq<Change>, overrides: seq<string>): seq<Text> {
    if cs == [] then []
    else Applying(cs[..|cs| - 1], overrides)
         + if Applies(cs[|cs| - 1], overrides) then [cs[|cs| - 1].text] else []
  }

  function Concat(ts: seq<Text>): Text {
    if ts == [] then [] else Concat(ts[..|ts| - 1]) + ts[|ts| - 1]
  }

  function ConcatBack(ts: seq<Text>): Text {
    if ts == [] then [] else ts[|ts| - 1] + ConcatBack(ts[..|ts| - 1])
  }

  lemma {:induction false} AppendedIs(value: Option<Text>, cs: seq<Change>, overrides: seq<string>)
    ensures var ts := Applying(cs, overrides);
            Appended(value, cs, overrides) == if ts == [] then value else Some(Or(value) + Concat(ts))
  {
    if cs != [] {
      var front, c := cs[..|cs| - 1], cs[|cs| - 1];
      assert cs == front + [c];
      AppendedIs(value, front, overrides);
      AppendedLast(value, front, c, overrides);
      var ts := Applying(front, overrides);
      if Applies(c, overrides) {
        assert (ts + [c.text])[..|ts|] == ts;
        Regroup(Or(value), Concat(ts), c.text);
        assert ts == [] ==> Concat(ts) + c.text == c.text;
      } else {
        assert ts + [] == ts;
      }
    }
  }

  lemma {:induction false} PrependedIs(value: Option<Text>, cs: seq<Change>, overrides: seq<string>)
    ensures var ts := Applying(cs, overrides);
            Prepended(value, cs, overrides) == if ts == [] then value else Some(ConcatBack(ts) + Or(value))
  {
    if cs != [] {
      var front, c := cs[..|cs| - 1], cs[|cs| - 1];
      assert cs == front + [c];
      PrependedIs(value, front, overrides);
      PrependedLast(value, front, c, overrides);
      var ts := Applying(front, overrides);
      if Applies(c, overrides) {
        assert (ts + [c.text])[..|ts|] == ts;
        Regroup(c.text, ConcatBack(ts), Or(value));
        assert ts == [] ==> c.text + ConcatBack(ts) == c.text;
      } else {
        assert ts + [] == ts;
      }
    }
  }

  /** Before expansion a variable reads what its override reads, if one wins and is defined, or else its own
    * value, or else its default; around it stand the prepended texts, the last one first, and the appended
    * texts. Where nothing is given the operations that apply make a value of their own. */
  lemma RawValue(st: Store, overrides: seq<string>, v: string)
    requires Acyclic(st)
    ensures var d, m := st.Data(v), Winner(st, overrides, v);
            var given := if m.Some? && Eval(st, overrides, m.value).raw.Some? then Eval(st, overrides, m.value).raw
                         else if CONTENT in d.flags then Some(d.flags[CONTENT])
                         else if DEFAULT in d.flags then Some(d.flags[DEFAULT])
                         else if HasOwn(d) then Some(d.flags["_defaultval_flag_" + CONTENT]) else None;
            var before, after := Applying(d.prepend, overrides), Applying(d.append, overrides);
            Eval(st, overrides, v).raw ==
            if before == [] && after == [] then given else Some(ConcatBack(before) + Or(given) + Concat(after))
  {
    EvalUnfolds(st, overrides, v);
    var d := st.Data(v);
    var supplied := Sub(st, overrides, v).raw;
    var given := if supplied.Some? then supplied else FlagText(d, CONTENT);
    var appended := Appended(given, d.append, overrides);
    AppendedIs(given, d.append, overrides);
    PrependedIs(appended, d.prepend, overrides);
    var before, after := Applying(d.prepend, overrides), Applying(d.append, overrides);
    Regroup(ConcatBack(before), Or(given), Concat(after));
    assert before == [] ==> ConcatBack(before) + Or(given) == Or(given);
    assert after == [] ==> Or(given) + Concat(after) == Or(given);
    assert after == [] ==> ConcatBack(before) + Or(given) + Concat(after) == ConcatBack(before) + Or(given);
  }

  /** Handed down by the override, or a removal of v that applies. */
  ghost predicate RemovedBy(st: Store, overrides: seq<string>, v: string, m: Option<string>, r: Text)
    requires Acyclic(st)
  {
    (m.Some? && r in Eval(st, overrides, m.value).struck)
    || exists c :: c in st.Data(v).remove && Applies(c, overrides) && c.text == r
  }

  predicate AnyIn(words: set<string>, tokens: seq<string>) {
    exists w :: w in words && w in tokens
  }

  lemma RemovedByIs(st: Store, overrides: seq<string>, v: string, r: Text)
    requires Acyclic(st)
    ensures r in Sub(st, overrides, v).struck + Removes(st.Data(v), overrides) <==>
            RemovedBy(st, overrides, v, Winner(st, overrides, v), r)
  {
    var own := Removes(st.Data(v), overrides);
    assert r in own <==> exists c :: c in st.Data(v).remove && Applies(c, overrides) && c.text == r;
  }

  /** The removals that struck: those handed down and those of v that apply, one of whose words is there. */
  lemma StruckValue(st: Store, overrides: seq<string>, v: string, r: Text)
    requires Acyclic(st) && Eval(st, overrides, v).raw.Some?
    ensures var m, e := Winner(st, overrides, v), Eval(st, overrides, v);
            r in e.struck <==> RemovedBy(st, overrides, v, m, r)
                               && AnyIn(Words(Expand(st, overrides, r)), Tokens(Expand(st, overrides, e.raw.value)))
  {
    EvalUnfolds(st, overrides, v);
    RemovedByIs(st, overrides, v, r);
    var sub, own := Sub(st, overrides, v), Removes(st.Data(v), overrides);
    var text, words := Expand(st, overrides, Eval(st, overrides, v).raw.value), Words(Expand(st, overrides, r));
    assert Strikes(text, words) <==> AnyIn(words, Tokens(text));
    assert r in sub.struck + own ==> RemovedWords(st, overrides, r, Rank(st)(v)) == words;
    assert r in Eval(st, overrides, v).struck <==> r in sub.struck + own && Strikes(text, words);
  }

  // ---- An override overrides --------------------------------------------------------------------

  /** Without operations of its own that apply, a variable with a winning override that is defined reads what
    * the override reads, whatever its own value. */
  lemma OverrideReads(st: Store, overrides: seq<string>, v: string, m: string)
    requires Acyclic(st) && Winner(st, overrides, v) == Some(m) && Eval(st, overrides, m).raw.Some?
    requires forall c :: c in st.Data(v).append || c in st.Data(v).prepend ==> !Applies(c, overrides)
    ensures Eval(st, overrides, v).raw == Eval(st, overrides, m).raw
  {
    RawValue(st, overrides, v);
    NoneApplying(st.Data(v).append, overrides);
    NoneApplying(st.Data(v).prepend, overrides);
  }

  lemma {:induction false} NoneApplying(cs: seq<Change>, overrides: seq<string>)
    requires forall c :: c in cs ==> !Applies(c, overrides)
    ensures Applying(cs, overrides) == []
  {
    if cs != [] {
      NoneApplying(cs[..|cs| - 1], overrides);
    }
  }

  /** One override of a variable, as a name. */
  predicate IsOverride(o: string) {
    Single(o) && Starts(o)
  }

  lemma OverrideVisited(v: string, o: string)
    requires IsOverride(o)
    ensures (v, o) in Walk(v + ":" + o)
  {
    var name, p := v + ":" + o, |v|;
    assert name[..p] == v && name[p + 1..] == o && name[p] == ':';
    assert forall k :: p < k < |name| ==> name[k] == o[k - p - 1] && o[k - p - 1] != ':';
    assert LastColon(name) == p;
    WalkVisits(name, p);
  }

  /** The name v:o overrides v with o alone. */
  lemma OnlyCut(v: string, o: string, e: (string, string))
    requires IsOverride(o) && e in Walk(v + ":" + o) && e.0 == v
    ensures e.1 == o
  {
    WalkCuts(v + ":" + o, e);
    assert (v + ":" + o)[|v| + 1..] == o && (v + ":" + e.1)[|v| + 1..] == e.1;
  }

  /** An ordinary assignment to v:o is what v reads afterwards, if of the active overrides of v, all of one name
    * and filed under their own name, o comes last and v has no operation that applies. */
  lemma AssignedOverrideReads(st: Store, overrides: seq<string>, v: string, o: string, value: Text)
    requires WellIndexed(st.index) && IsOverride(o) && o in overrides
    requires forall c :: c in st.Data(v).append || c in st.Data(v).prepend ==> !Applies(c, overrides)
    requires forall e :: e in Listed(st.index, v) ==> Single(e.o) && Truthful(v, e)
    requires LastFirst(ActiveNames(Listed(st.index, v), overrides) + {o}, overrides, o)
    requires Acyclic(SetVar(st, v + ":" + o, value, false, overrides))
    ensures var after := SetVar(st, v + ":" + o, value, false, overrides);
            Winner(after, overrides, v) == Some(v + ":" + o) && Eval(after, overrides, v).raw == Some(value)
  {
    var name := v + ":" + o;
    var after := SetVar(st, name, value, false, overrides);
    var entries := Listed(after.index, v);
    NewEntries(st, overrides, v, o, value);
    assert Entry(name, o) in entries;
    assert ActiveNames(entries, overrides) <= ActiveNames(Listed(st.index, v), overrides) + {o};
    assert o in ActiveNames(entries, overrides);
    WinnerOfSingles(after, overrides, v);
    CarrierTrue(after.index, v, o);
    AssignReads(st, name, value, overrides);
    RawValue(after, overrides, name);
    EvalUnfolds(after, overrides, name);
    NotOverriddenByShorter(st, overrides, name, v);
    AssignData(st, name, value, overrides, v);
    OverrideReads(after, overrides, v, name);
  }

  /** The entries of v after v:o was assigned: those before, of variables still there, and v:o. */
  lemma NewEntries(st: Store, overrides: seq<string>, v: string, o: string, value: Text)
    requires WellIndexed(st.index) && IsOverride(o)
    ensures var entries := Listed(SetVar(st, v + ":" + o, value, false, overrides).index, v);
            && Entry(v + ":" + o, o) in entries
            && forall e :: e in entries ==> e in Listed(st.index, v) || e == Entry(v + ":" + o, o)
  {
    var name := v + ":" + o;
    assert name[|v|] == ':';
    var entries := Listed(SetVar(st, name, value, false, overrides).index, v);
    OverrideVisited(v, o);
    AssignIndex(st, name, value, overrides, v, Entry(name, o));
    forall e | e in entries ensures e in Listed(st.index, v) || e == Entry(name, o) {
      AssignIndex(st, name, value, overrides, v, e);
      if e !in Listed(st.index, v) {
        OnlyCut(v, o, (v, e.o));
      }
    }
  }

  /** A variable does not override a longer name. */
  lemma NotOverriddenByShorter(st: Store, overrides: seq<string>, name: string, v: string)
    requires WellIndexed(st.index) && |v| < |name|
    ensures !Overrides(st.index, name, v, overrides)
  {
    if e :| e in Listed(st.index, name) && e.r == v && DataStore.Active(e.o, overrides) {
      WalkShorter(v, (name, e.o));
    }
  }

  /** FOO = a and then FOO:o = b, in any store: FOO reads b if o is in OVERRIDES and a if not. */
  lemma TwoAssignments(st: Store, overrides: seq<string>, v: string, o: string, a: Text, b: Text)
    requires WellIndexed(st.index) && IsOverride(o)
    requires Acyclic(SetVar(SetVar(st, v, a, false, overrides), v + ":" + o, b, false, overrides))
    ensures var after := SetVar(SetVar(st, v, a, false, overrides), v + ":" + o, b, false, overrides);
            Eval(after, overrides, v).raw == Some(if o in overrides then b else a)
  {
    var name, st1 := v + ":" + o, SetVar(st, v, a, false, overrides);
    ApplyIndexed(st, Assign(v, a, false), overrides);
    AssignData(st, v, a, overrides, v);
    NoEntries(st, overrides, v, a);
    if o in overrides {
      assert ActiveNames(Listed(st1.index, v), overrides) + {o} == {o};
      AssignedOverrideReads(st1, overrides, v, o, b);
    } else {
      InactiveAssigned(st1, overrides, v, o, b);
      RawValue(SetVar(st1, name, b, false, overrides), overrides, v);
    }
  }

  /** Nothing overrides a variable right after it was assigned. */
  lemma NoEntries(st: Store, overrides: seq<string>, v: string, a: Text)
    requires WellIndexed(st.index)
    ensures Listed(SetVar(st, v, a, false, overrides).index, v) == []
  {
    var entries := Listed(SetVar(st, v, a, false, overrides).index, v);
    if entries != [] {
      var e := entries[0];
      AssignIndex(st, v, a, overrides, v, e);
      WalkShorter(v, (v, e.o));
    }
  }

  /** An override that is not in OVERRIDES does not touch v. */
  lemma InactiveAssigned(st: Store, overrides: seq<string>, v: string, o: string, b: Text)
    requires WellIndexed(st.index) && IsOverride(o) && o !in overrides && Listed(st.index, v) == []
    ensures var after := SetVar(st, v + ":" + o, b, false, overrides);
            Winner(after, overrides, v).None? && after.Data(v) == st.Data(v)
  {
    var after := SetVar(st, v + ":" + o, b, false, overrides);
    NewEntries(st, overrides, v, o, b);
    assert ActiveNames(Listed(after.index, v), overrides) == {};
    WinnerOfSingles(after, overrides, v);
    NotOverriddenByShorter(st, overrides, v + ":" + o, v);
    AssignData(st, v + ":" + o, b, overrides, v);
  }

  /** A lone append to v:o, which has nothing else, makes a value that v reads. */
  lemma AppendedOverrideReads(st: Store, overrides: seq<string>, v: string, o: string, text: Text)
    requires WellIndexed(st.index) && IsOverride(o) && o in overrides
    requires st.Data(v + ":" + o) == NOTHING && Listed(st.index, v + ":" + o) == []
    requires forall c :: c in st.Data(v).append || c in st.Data(v).prepend ==> !Applies(c, overrides)
    requires forall e :: e in Listed(st.index, v) ==> Single(e.o) && Truthful(v, e)
    requires LastFirst(ActiveNames(Listed(st.index, v), overrides) + {o}, overrides, o)
    requires Acyclic(SetOp(st, v + ":" + o, Append, Change(text, None)))
    ensures Eval(SetOp(st, v + ":" + o, Append, Change(text, None)), overrides, v).raw == Some(text)
  {
    var name := v + ":" + o;
    var after := SetOp(st, name, Append, Change(text, None));
    var entries := Listed(after.index, v);
    AppendedEntries(st, v, o, text);
    assert ActiveNames(entries, overrides) <= ActiveNames(Listed(st.index, v), overrides) + {o};
    assert o in ActiveNames(entries, overrides);
    WinnerOfSingles(after, overrides, v);
    CarrierTrue(after.index, v, o);
    LoneAppend(st, overrides, name, text);
    OverrideReads(after, overrides, v, name);
  }

  lemma AppendedEntries(st: Store, v: string, o: string, text: Text)
    requires WellIndexed(st.index) && IsOverride(o)
    ensures var after := SetOp(st, v + ":" + o, Append, Change(text, None));
            && Entry(v + ":" + o, o) in Listed(after.index, v) && after.Data(v) == st.Data(v)
            && forall e :: e in Listed(after.index, v) ==> e in Listed(st.index, v) || e == Entry(v + ":" + o, o)
  {
    var name, c := v + ":" + o, Change(text, None);
    OverrideVisited(v, o);
    OperationData(st, name, Append, c, v, Entry(name, o));
    forall e | e in Listed(SetOp(st, name, Append, c).index, v)
      ensures e in Listed(st.index, v) || e == Entry(name, o)
    {
      OperationData(st, name, Append, c, v, e);
      if e !in Listed(st.index, v) {
        OnlyCut(v, o, (v, e.o));
      }
    }
  }

  lemma LoneAppend(st: Store, overrides: seq<string>, name: string, text: Text)
    requires WellIndexed(st.index) && st.Data(name) == NOTHING && Listed(st.index, name) == []
    requires Acyclic(SetOp(st, name, Append, Change(text, None)))
    ensures Eval(SetOp(st, name, Append, Change(text, None)), overrides, name).raw == Some(text)
  {
    var c := Change(text, None);
    var after := SetOp(st, name, Append, c);
    EnterOwn(st.index, name);
    assert Listed(after.index, name) == [];
    assert ActiveNames(Listed(after.index, name), overrides) == {};
    WinnerOfSingles(after, overrides, name);
    EvalUnfolds(after, overrides, name);
    OneAppend(c, overrides);
  }

  lemma OneAppend(c: Change, overrides: seq<string>)
    requires c.condition.None?
    ensures Raw(Operate(NOTHING, Append, c), overrides, None) == Some(c.text)
  {
    assert [] + [c] == [c] && [c][1..] == [];
    assert Appended(None, [c], overrides) == Appended(Some([] + c.text), [], overrides);
    assert [] + c.text == c.text;
  }

  // ---- The reader does this ---------------------------------------------------------------------

  function Two(v: string, o: string, a: string, b: string): seq<Write> {
    [Assign(v, [Lit(a)], false), Assign(v + ":" + o, [Lit(b)], false)]
  }

  ghost predicate OnlyLiterals(st: Store, name: string) {
    var d := st.Data(name);
    && d.append == [] && d.prepend == [] && d.remove == []
    && forall f :: f in d.flags ==> forall p :: p in d.flags[f] ==> p.Lit?
  }

  /** After the two assignments to a new datastore only literal texts are there, and the two names. */
  lemma TwoData(overrides: seq<string>, v: string, o: string, a: string, b: string)
    requires IsOverride(o)
    ensures var st1 := SetVar(Store(map[], map[]), v, [Lit(a)], false, overrides);
            var st := SetVar(st1, v + ":" + o, [Lit(b)], false, overrides);
            && DataStore.Run(Store(map[], map[]), Two(v, o, a, b), overrides) == st
            && WellIndexed(st1.index) && WellIndexed(st.index)
            && (forall n :: OnlyLiterals(st, n))
            && forall u, e :: e in Listed(st.index, u) ==> e.r == v || e.r == v + ":" + o
  {
    var empty, name, ws := Store(map[], map[]), v + ":" + o, Two(v, o, a, b);
    var st1 := SetVar(empty, v, [Lit(a)], false, overrides);
    var st := SetVar(st1, name, [Lit(b)], false, overrides);
    assert ws[1..] == [ws[1]] && ws[1..][1..] == [];
    assert DataStore.Run(Apply(Apply(empty, ws[0], overrides), ws[1], overrides), [], overrides) == st;
    ApplyIndexed(empty, ws[0], overrides);
    ApplyIndexed(st1, ws[1], overrides);
    forall n ensures OnlyLiterals(st, n) {
      AssignData(empty, v, [Lit(a)], overrides, n);
      AssignData(empty, v, [Lit(a)], overrides, name);
      AssignData(st1, name, [Lit(b)], overrides, n);
    }
    forall u, e | e in Listed(st.index, u) ensures e.r == v || e.r == name {
      AssignIndex(st1, name, [Lit(b)], overrides, u, e);
      AssignIndex(empty, v, [Lit(a)], overrides, u, e);
    }
  }

  /** Such a store has no cycles: overriding names are longer. */
  lemma TwoAcyclic(st: Store, v: string, o: string)
    requires WellIndexed(st.index) && forall n :: OnlyLiterals(st, n)
    requires forall u, e :: e in Listed(st.index, u) ==> e.r == v || e.r == v + ":" + o
    ensures Acyclic(st)
  {
    var rank: string -> nat := n => if |n| <= |v| + 1 + |o| then |v| + 1 + |o| - |n| else 0;
    forall n | n in st.vars
      ensures forall f :: f in st.vars[n].flags ==> Below(st.vars[n].flags[f], rank, rank(n))
      ensures st.vars[n].append == [] && st.vars[n].prepend == [] && st.vars[n].remove == []
    {
      assert OnlyLiterals(st, n);
    }
    forall u, e | u in st.index && e in st.index[u] ensures rank(e.r) < rank(u) {
      assert e in Listed(st.index, u);
      WalkShorter(e.r, (u, e.o));
    }
    assert IsRank(st, rank);
  }

  /** Literal texts lead nowhere, so v and its override can be read together. */
  lemma TwoSound(st: Store, overrides: seq<string>, v: string, m: string, names: iset<string>)
    requires Acyclic(st) && names == iset{v, m} && forall n :: OnlyLiterals(st, n)
    requires forall n :: n in names && Winner(st, overrides, n).Some? ==> Winner(st, overrides, n).value in names
    ensures Sound(Scope(st, overrides, names, names))
  {
    var sc := Scope(st, overrides, names, names);
    forall n ensures DataIn(st.Data(n), names) && sc.Own(n) == {} {
      assert OnlyLiterals(st, n);
    }
    assert Closed(st, overrides, names) by {
      forall n | n in names ensures DepsIn(st, overrides, n, names) {
        assert DataIn(st.Data(n), names);
      }
    }
  }

  /** A new datastore, FOO = a, FOO:o = b: getVar("FOO") gives b if o is in OVERRIDES and a if not. */
  method ReadTwo(overrides: seq<string>, v: string, o: string, a: string, b: string) returns (value: Option<string>)
    requires IsOverride(o)
    ensures value == Some(if o in overrides then b else a)
  {
    var d := new D.DataSmart(overrides);
    d.Run(Two(v, o, a, b));
    ghost var names := iset{v, v + ":" + o};
    TwoRead(d.Store(), overrides, v, o, a, b, names);
    value := d.GetVar(v, names);
  }

  lemma TwoRead(st: Store, overrides: seq<string>, v: string, o: string, a: string, b: string, names: iset<string>)
    requires st == DataStore.Run(Store(map[], map[]), Two(v, o, a, b), overrides)
    requires IsOverride(o) && names == iset{v, v + ":" + o}
    ensures Sound(Scope(st, overrides, names, names))
    ensures Acyclic(st) && Eval(st, overrides, v).value == Some(if o in overrides then b else a)
  {
    TwoData(overrides, v, o, a, b);
    TwoAcyclic(st, v, o);
    TwoWinners(st, overrides, v, o, names);
    TwoSound(st, overrides, v, v + ":" + o, names);
    TwoAssignments(Store(map[], map[]), overrides, v, o, [Lit(a)], [Lit(b)]);
    NothingRemoved(st, overrides, v);
    ExpandPart(st, overrides, Lit(if o in overrides then b else a));
  }

  lemma TwoWinners(st: Store, overrides: seq<string>, v: string, o: string, names: iset<string>)
    requires Acyclic(st) && names == iset{v, v + ":" + o}
    requires forall u, e :: e in Listed(st.index, u) ==> e.r == v || e.r == v + ":" + o
    ensures forall n :: Winner(st, overrides, n).Some? ==> Winner(st, overrides, n).value in names
  {
    forall n | Winner(st, overrides, n).Some? ensures Winner(st, overrides, n).value in names {
      WinnerListed(st, overrides, n);
    }
  }

  lemma WinnerListed(st: Store, overrides: seq<string>, n: string)
    requires Winner(st, overrides, n).Some?
    ensures exists e :: e in Listed(st.index, n) && e.r == Winner(st, overrides, n).value
  {
    ResolveFromCandidates(OverrideCandidates(st, overrides, n), None, overrides);
  }

  function OverrideCandidates(st: Store, overrides: seq<string>, n: string): Active {
    Candidates(Listed(st.index, n), overrides, [])
  }

  /** Without removals anywhere a value is its expanded text. */
  lemma {:induction false} NothingRemoved(st: Store, overrides: seq<string>, v: string)
    requires Acyclic(st) && forall n :: OnlyLiterals(st, n)
    ensures Eval(st, overrides, v).struck == {}
    ensures Eval(st, overrides, v).raw.Some? ==>
              Eval(st, overrides, v).value == Some(Expand(st, overrides, Eval(st, overrides, v).raw.value))
    decreases Rank(st)(v)
  {
    var m := Winner(st, overrides, v);
    WinnerBelow(st, overrides, v, Rank(st));
    if m.Some? {
      NothingRemoved(st, overrides, m.value);
    }
    assert OnlyLiterals(st, v);
    EvalUnfolds(st, overrides, v);
    EvalShortcuts(st, overrides, v);
  }
}

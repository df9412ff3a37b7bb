/** What each write leaves behind, variable by variable: data, flags and index entries. */
module WriteEffects {
  import opened Common
  import opened OverrideResolution
  import opened OverrideIndex
  import opened DataStore

  // ---- Conditions -------------------------------------------------------------------------------

  lemma {:induction false} SplitJoined(cs: seq<string>)
    requires cs != [] && Plain(cs)
    ensures Split(Join(cs)) == cs
  {
    JoinInjective(Split(Join(cs)), cs);
  }

  /** A condition o1:o2:... holds when each of its names is in OVERRIDES, an empty one always. */
  lemma AppliesWhen(text: Text, cs: seq<string>, overrides: seq<string>)
    requires cs != [] && Plain(cs)
    ensures Applies(Change(text, None), overrides) && Applies(Change(text, Some("")), overrides)
    ensures Join(cs) != "" ==>
              (Applies(Change(text, Some(Join(cs))), overrides) <==> forall c :: c in cs ==> c in overrides)
  {
    SplitJoined(cs);
  }

  /** An override o1:o2:... is active when each of its names is in OVERRIDES. */
  lemma ActiveWhen(cs: seq<string>, overrides: seq<string>)
    requires cs != [] && Plain(cs) && Plain(overrides)
    ensures DataStore.Active(Join(cs), overrides) <==> forall c :: c in cs ==> c in overrides
  {
    SplitJoined(cs);
    var o := Join(cs);
    if o in overrides {
      JoinInjective([o], cs);
    }
    if |cs| == 1 {
      assert o == cs[0];
    } else {
      assert ':' in o;
    }
  }

  // ---- Which names the index learns -------------------------------------------------------------

  /** v:o is entered for v when o and all shorter endings of the name look like overrides. */
  ghost predicate Reaches(name: string, p: nat) {
    && p < |name| && name[p] == ':' && (p > 0 || p == LastColon(name))
    && forall q :: p <= q < |name| && name[q] == ':' ==> Starts(name[q + 1..])
  }

  lemma {:induction false} WalkFromVisits(name: string, p: nat, q: nat)
    requires p < |name| && name[p] == ':' && q <= p && name[q] == ':'
    ensures (name[..q], name[q + 1..]) in WalkFrom(name, p) <==>
            (q > 0 || q == p) && forall k :: q <= k <= p && name[k] == ':' ==> Starts(name[k + 1..])
  {
    var r := LastColon(name[..p]);
    LastColonIs(name, p);
    if Starts(name[p + 1..]) {
      if q < p {
        assert 0 <= r < p && name[r] == ':' && q <= r;
        assert |name[..q]| != |name[..p]|;
        if r > 0 {
          WalkFromVisits(name, r, q);
        }
      }
    } else {
      assert !Starts(name[p + 1..]);
    }
  }

  lemma LastColonIs(name: string, p: nat)
    requires p < |name|
    ensures var r := LastColon(name[..p]);
            r < p && (r >= 0 ==> name[r] == ':') && forall k :: r < k < p ==> k < 0 || name[k] != ':'
  {
    var front := name[..p];
    assert forall k :: 0 <= k < p ==> front[k] == name[k];
  }

  /** The walk of a name with a colon visits exactly those cuts. */
  lemma WalkVisits(name: string, q: nat)
    requires q < |name| && name[q] == ':'
    ensures (name[..q], name[q + 1..]) in Walk(name) <==> Reaches(name, q)
  {
    var p := LastColon(name);
    assert name == name[..|name|];
    WalkFromVisits(name, p, q);
  }

  // ---- Assignment -------------------------------------------------------------------------------

  /** u overrides v, and its override is active. */
  ghost predicate Overrides(ix: Index, v: string, u: string, overrides: seq<string>) {
    exists e :: e in Listed(ix, v) && e.r == u && DataStore.Active(e.o, overrides)
  }

  lemma {:induction false} OverridersAre(entries: seq<Entry>, overrides: seq<string>, u: string)
    ensures u in Overriders(entries, overrides) <==>
            exists e :: e in entries && e.r == u && DataStore.Active(e.o, overrides)
    decreases |entries|
  {
    if entries != [] {
      OverridersAre(entries[1..], overrides, u);
      assert forall e :: e in entries <==> e == entries[0] || e in entries[1..];
    }
  }

  lemma {:induction false} DelAllData(st: Store, names: seq<string>, u: string)
    ensures DelAll(st, names).Data(u) == if u in names then NOTHING else st.Data(u)
    decreases |names|
  {
    if names != [] {
      DelAllData(DelVar(st, names[0]), names[1..], u);
    }
  }

  lemma {:induction false} DelAllIndex(st: Store, names: seq<string>, u: string, e: Entry)
    requires WellIndexed(st.index)
    ensures e in Listed(DelAll(st, names).index, u) <==>
            u !in names && e in Listed(st.index, u) && (e.r !in names || ':' !in e.r)
    decreases |names|
  {
    if names != [] {
      ForgetIndexed(st.index, names[0]);
      ForgetEntry(st.index, names[0], u, e);
      DelAllIndex(DelVar(st, names[0]), names[1..], u, e);
    }
  }

  /** No variable overrides itself. */
  lemma NotOwnOverride(ix: Index, v: string, overrides: seq<string>)
    requires WellIndexed(ix)
    ensures !Overrides(ix, v, v, overrides)
  {
    if e :| e in Listed(ix, v) && e.r == v && DataStore.Active(e.o, overrides) {
      if ':' in v {
        WalkCuts(v, (v, e.o));
      }
    }
  }

  /** An ordinary assignment deletes exactly the variables that override v and are active, drops the operations
    * of v and stores the value; every other flag and every other variable stays. */
  lemma AssignData(st: Store, v: string, value: Text, overrides: seq<string>, u: string)
    requires WellIndexed(st.index)
    ensures SetVar(st, v, value, false, overrides).Data(u) ==
            if u == v then VarData(st.Data(v).flags[CONTENT := value], [], [], [])
            else if Overrides(st.index, v, u, overrides) then NOTHING else st.Data(u)
  {
    NotOwnOverride(st.index, v, overrides);
    if v in st.index {
      var names := Overriders(st.index[v], overrides);
      OverridersAre(st.index[v], overrides, u);
      OverridersAre(st.index[v], overrides, v);
      var bare := st.(vars := st.vars[v := VarData(st.Data(v).flags, [], [], [])]);
      DelAllData(bare, names, u);
      DelAllData(bare, names, v);
    }
  }

  /** The index after an ordinary assignment: nothing overrides v or a deleted variable any more, entries that
    * name a deleted variable with a colon are gone, and v is entered for what it overrides itself. */
  lemma AssignIndex(st: Store, v: string, value: Text, overrides: seq<string>, u: string, e: Entry)
    requires WellIndexed(st.index)
    ensures var gone := (x: string) => Overrides(st.index, v, x, overrides);
            e in Listed(SetVar(st, v, value, false, overrides).index, u) <==>
            (u != v && !gone(u) && e in Listed(st.index, u) && (!gone(e.r) || ':' !in e.r))
            || (':' in v && e.r == v && (u, e.o) in Walk(v))
  {
    var bare := st.(vars := st.vars[v := VarData(st.Data(v).flags, [], [], [])]);
    var cleared := Clear(st, v, overrides);
    ClearIndexed(st, v, overrides);
    EnterExact(cleared.index, v, Walk(v));
    if v in st.index {
      var names := Overriders(st.index[v], overrides);
      OverridersAre(st.index[v], overrides, u);
      OverridersAre(st.index[v], overrides, e.r);
      DelAllIndex(bare, names, u, e);
      ListedWithout(DelAll(bare, names).index, v, u);
    } else {
      assert Listed(st.index, v) == [];
    }
  }

  /** While parsing, an assignment touches v alone and keeps its operations. */
  lemma ParsedAssign(st: Store, v: string, value: Text, overrides: seq<string>, u: string, e: Entry)
    requires WellIndexed(st.index)
    ensures var after := SetVar(st, v, value, true, overrides);
            && after.Data(u) == (if u != v then st.Data(u)
                                 else st.Data(v).(flags := st.Data(v).flags[CONTENT := value]))
            && (e in Listed(after.index, u) <==>
                e in Listed(st.index, u) || (':' in v && e.r == v && (u, e.o) in Walk(v)))
  {
    EnterExact(st.index, v, Walk(v));
  }

  // ---- Operations, flags, deletion --------------------------------------------------------------

  /** An operation joins the end of its list, and its name is entered with or without colon. */
  lemma OperationData(st: Store, v: string, keyword: Keyword, c: Change, u: string, e: Entry)
    requires WellIndexed(st.index)
    ensures var after, d := SetOp(st, v, keyword, c), st.Data(v);
            && after.Data(u) == (if u != v then st.Data(u)
                                 else VarData(d.flags, d.append + (if keyword == Append then [c] else []),
                                              d.prepend + (if keyword == Prepend then [c] else []),
                                              d.remove + (if keyword == Removal then [c] else [])))
            && (e in Listed(after.index, u) <==> e in Listed(st.index, u) || (e.r == v && (u, e.o) in Walk(v)))
  {
    EnterExact(st.index, v, Walk(v));
    var d := st.Data(v);
    assert d.append + [] == d.append && d.prepend + [] == d.prepend && d.remove + [] == d.remove;
  }

  /** Setting a flag changes that flag, and enters the name only for a default of a name with a colon. */
  lemma FlagData(st: Store, v: string, flag: string, value: Text, u: string, f: string, e: Entry)
    requires WellIndexed(st.index)
    ensures var after := SetFlag(st, v, flag, value);
            && (f in after.Data(u).flags <==> f in st.Data(u).flags || (u == v && f == flag))
            && (f in after.Data(u).flags ==>
                  after.Data(u).flags[f] == if u == v && f == flag then value else st.Data(u).flags[f])
            && after.Data(u).(flags := map[]) == st.Data(u).(flags := map[])
            && (e in Listed(after.index, u) <==>
                e in Listed(st.index, u) || (flag == DEFAULT && ':' in v && e.r == v && (u, e.o) in Walk(v)))
  {
    EnterExact(st.index, v, Walk(v));
  }

  /** Deleting a flag that is set takes its weak default along; otherwise nothing changes. */
  lemma FlagDropped(st: Store, v: string, flag: string, u: string, f: string)
    ensures var after := DelFlag(st, v, flag);
            && (f in after.Data(u).flags <==>
                f in st.Data(u).flags && !(u == v && flag in st.Data(v).flags
                                           && (f == flag || f == "_defaultval_flag_" + flag)))
            && (f in after.Data(u).flags ==> after.Data(u).flags[f] == st.Data(u).flags[f])
            && after.Data(u).(flags := map[]) == st.Data(u).(flags := map[]) && after.index == st.index
  {
  }

  /** Deletion leaves nothing of v, and of the others everything. */
  lemma DeleteData(st: Store, v: string, u: string)
    ensures DelVar(st, v).Data(u) == if u == v then NOTHING else st.Data(u)
  {
  }
}

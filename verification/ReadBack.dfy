/** What a read gives right after a write: an assignment, a deletion, or an operation on the value. */
module ReadBack {
  import opened Common
  import opened OverrideIndex
  import opened DataStore
  import opened Expansion

  // ---- The index of a variable is kept by writes to longer names only ---------------------------

  lemma {:induction false} WalkFromShorter(name: string, p: nat, e: (string, string))
    requires p < |name| && name[p] == ':' && e in WalkFrom(name, p)
    ensures |e.0| < |name|
  {
    if e != (name[..p], name[p + 1..]) {
      WalkFromShorter(name, LastColon(name[..p]), e);
    }
  }

  lemma WalkShorter(name: string, e: (string, string))
    requires e in Walk(name)
    ensures |e.0| < |name|
  {
    var p := LastColon(name);
    if p >= 0 {
      WalkFromShorter(name, p, e);
    }
  }

  /** Entering a name leaves the entries of all variables alone that its walk does not visit. */
  lemma {:induction false} EnterElsewhere(ix: Index, name: string, w: seq<(string, string)>, v: string)
    requires forall e :: e in w ==> e.0 != v
    ensures var after := Enter(ix, name, w);
            (v in after <==> v in ix) && (v in ix ==> after[v] == ix[v])
    decreases |w|
  {
    if w != [] {
      assert w[0] in w;
      EnterElsewhere(AddEntry(ix, w[0].0, Entry(name, w[0].1)), name, w[1..], v);
    }
  }

  lemma {:induction false} WithdrawAddsNone(ix: Index, name: string, w: seq<(string, string)>, v: string)
    requires v !in ix
    ensures v !in Withdraw(ix, name, w)
    decreases |w|
  {
    if w != [] {
      WithdrawAddsNone(DropEntry(ix, w[0].0, Entry(name, w[0].1)), name, w[1..], v);
    }
  }

  lemma EnterOwn(ix: Index, v: string)
    ensures var after := Enter(ix, v, Walk(v));
            (v in after <==> v in ix) && (v in ix ==> after[v] == ix[v])
  {
    forall e | e in Walk(v) ensures e.0 != v {
      WalkShorter(v, e);
    }
    EnterElsewhere(ix, v, Walk(v), v);
  }

  // ---- Assignment and deletion ------------------------------------------------------------------

  lemma {:induction false} OverridersOther(entries: seq<Entry>, overrides: seq<string>, v: string)
    requires forall e :: e in entries ==> (v, e.o) in Walk(e.r)
    ensures v !in Overriders(entries, overrides)
    decreases |entries|
  {
    if entries != [] {
      assert entries[0] in entries;
      WalkShorter(entries[0].r, (v, entries[0].o));
      OverridersOther(entries[1..], overrides, v);
    }
  }

  lemma {:induction false} DelAllKeeps(st: Store, names: seq<string>, v: string)
    requires v !in names
    ensures DelAll(st, names).Data(v) == st.Data(v)
    decreases |names|
  {
    if names != [] {
      assert names[0] in names;
      DelAllKeeps(DelVar(st, names[0]), names[1..], v);
    }
  }

  /** After the first half of an assignment no override of the variable is known, and of its data only the
    * flags are left. */
  lemma ClearReads(st: Store, v: string, overrides: seq<string>)
    requires WellIndexed(st.index)
    ensures v !in Clear(st, v, overrides).index
    ensures Clear(st, v, overrides).Data(v) == VarData(st.Data(v).flags, [], [], [])
  {
    var st1 := st.(vars := st.vars[v := VarData(st.Data(v).flags, [], [], [])]);
    if v in st.index {
      var names := Overriders(st.index[v], overrides);
      OverridersOther(st.index[v], overrides, v);
      DelAllKeeps(st1, names, v);
    }
  }

  /** An ordinary assignment decides the value alone: whatever was appended, prepended, removed or overridden
    * before, a read gives the assigned text with its references expanded. */
  lemma AssignReads(st: Store, v: string, value: Text, overrides: seq<string>)
    requires WellIndexed(st.index)
    ensures var after := SetVar(st, v, value, false, overrides);
            && Winner(after, overrides, v).None?
            && Raw(after.Data(v), overrides, None) == Some(value) && Removes(after.Data(v), overrides) == {}
            && (Acyclic(after) ==> Eval(after, overrides, v).value == Some(Expand(after, overrides, value)))
  {
    var cleared, after := Clear(st, v, overrides), SetVar(st, v, value, false, overrides);
    ClearReads(st, v, overrides);
    EnterOwn(cleared.index, v);
    assert after.Data(v).remove == [];
    if Acyclic(after) {
      EvalShortcuts(after, overrides, v);
    }
  }

  /** A deleted variable reads as undefined, also when it still has overrides of its own. */
  lemma DeleteReads(st: Store, v: string, overrides: seq<string>)
    ensures var after := DelVar(st, v);
            && Winner(after, overrides, v).None? && Raw(after.Data(v), overrides, None).None?
            && (Acyclic(after) ==> Eval(after, overrides, v) == ABSENT)
  {
    var after := DelVar(st, v);
    if ':' in v {
      WithdrawAddsNone(st.index - {v}, v, Walk(v), v);
    }
    if Acyclic(after) {
      EvalUnfolds(after, overrides, v);
    }
  }

  // ---- Operations -------------------------------------------------------------------------------

  lemma {:induction false} AppendedLast(value: Option<Text>, cs: seq<Change>, c: Change, overrides: seq<string>)
    ensures Appended(value, cs + [c], overrides) ==
            if Applies(c, overrides) then Some(Or(Appended(value, cs, overrides)) + c.text)
            else Appended(value, cs, overrides)
    decreases |cs|
  {
    if cs == [] {
      assert cs + [c] == [c] && [c][1..] == [];
    } else {
      assert (cs + [c])[0] == cs[0] && (cs + [c])[1..] == cs[1..] + [c];
      AppendedLast(if Applies(cs[0], overrides) then Some(Or(value) + cs[0].text) else value, cs[1..], c, overrides);
    }
  }

  lemma {:induction false} PrependedLast(value: Option<Text>, cs: seq<Change>, c: Change, overrides: seq<string>)
    ensures Prepended(value, cs + [c], overrides) ==
            if Applies(c, overrides) then Some(c.text + Or(Prepended(value, cs, overrides)))
            else Prepended(value, cs, overrides)
    decreases |cs|
  {
    if cs == [] {
      assert cs + [c] == [c] && [c][1..] == [];
    } else {
      assert (cs + [c])[0] == cs[0] && (cs + [c])[1..] == cs[1..] + [c];
      PrependedLast(if Applies(cs[0], overrides) then Some(cs[0].text + Or(value)) else value, cs[1..], c, overrides);
    }
  }

  /** What is appended stays at the end through all prepends. */
  lemma {:induction false} PrependedThrough(value: Option<Text>, tail: Text, cs: seq<Change>, overrides: seq<string>)
    ensures Prepended(Some(Or(value) + tail), cs, overrides) == Some(Or(Prepended(value, cs, overrides)) + tail)
    decreases |cs|
  {
    if cs != [] {
      if Applies(cs[0], overrides) {
        assert cs[0].text + (Or(value) + tail) == (cs[0].text + Or(value)) + tail;
        PrependedThrough(Some(cs[0].text + Or(value)), tail, cs[1..], overrides);
      } else {
        PrependedThrough(value, tail, cs[1..], overrides);
      }
    }
  }

  lemma OperateReads(d: VarData, keyword: Keyword, c: Change, overrides: seq<string>, supplied: Option<Text>)
    ensures var before, now := Raw(d, overrides, supplied), Raw(Operate(d, keyword, c), overrides, supplied);
            && (!Applies(c, overrides) || keyword == Removal ==> now == before)
            && (Applies(c, overrides) && keyword == Append ==> now == Some(Or(before) + c.text))
            && (Applies(c, overrides) && keyword == Prepend ==> now == Some(c.text + Or(before)))
  {
    var base := if supplied.Some? then supplied else FlagText(d, CONTENT);
    if keyword == Append {
      AppendedLast(base, d.append, c, overrides);
      if Applies(c, overrides) {
        PrependedThrough(Appended(base, d.append, overrides), c.text, d.prepend, overrides);
      }
    } else if keyword == Prepend {
      PrependedLast(Appended(base, d.append, overrides), d.prepend, c, overrides);
    }
  }

  lemma OperateRemoves(d: VarData, keyword: Keyword, c: Change, overrides: seq<string>)
    ensures Removes(Operate(d, keyword, c), overrides) ==
            Removes(d, overrides) + if keyword == Removal && Applies(c, overrides) then {c.text} else {}
  {
  }

  /** An append or prepend that applies puts its text at the end or the front of what the variable read before
    * expansion, whether that came from the variable or from an override; one that does not apply changes
    * nothing; a removal joins the set of removals; and the choice of the override stays. */
  lemma OperationReads(st: Store, v: string, keyword: Keyword, c: Change, overrides: seq<string>,
          supplied: Option<Text>)
    ensures var after := SetOp(st, v, keyword, c);
            var before, now := Raw(st.Data(v), overrides, supplied), Raw(after.Data(v), overrides, supplied);
            && Winner(after, overrides, v) == Winner(st, overrides, v)
            && (!Applies(c, overrides) || keyword == Removal ==> now == before)
            && (Applies(c, overrides) && keyword == Append ==> now == Some(Or(before) + c.text))
            && (Applies(c, overrides) && keyword == Prepend ==> now == Some(c.text + Or(before)))
            && Removes(after.Data(v), overrides) ==
               Removes(st.Data(v), overrides) + if keyword == Removal && Applies(c, overrides) then {c.text} else {}
  {
    EnterOwn(st.index, v);
    OperateReads(st.Data(v), keyword, c, overrides, supplied);
    OperateRemoves(st.Data(v), keyword, c, overrides);
  }

  // ---- Removal ----------------------------------------------------------------------------------

  /** A word, possibly empty, then single white-space characters and words in turn. */
  ghost predicate Alternates(ts: seq<string>)
    decreases |ts|
  {
    && ts != [] && (forall c :: c in ts[0] ==> !IsSpace(c))
    && (|ts| > 1 ==> |ts[1]| == 1 && IsSpace(ts[1][0]) && Alternates(ts[2..]))
  }

  lemma {:induction false} TokensAlternate(s: string)
    ensures Alternates(Tokens(s))
  {
    if s != "" {
      TokensAlternate(s[1..]);
      var rest := Tokens(s[1..]);
      if IsSpace(s[0]) {
        assert Tokens(s)[2..] == rest;
      } else {
        assert |rest| > 1 ==> Tokens(s)[2..] == rest[2..];
      }
    }
  }

  function TextLength(ts: seq<string>): nat {
    if ts == [] then 0 else |ts[0]| + TextLength(ts[1..])
  }

  lemma TokensChar(c: char, s: string)
    ensures Tokens([c] + s) ==
            var rest := Tokens(s);
            if IsSpace(c) then ["", [c]] + rest else [[c] + rest[0]] + rest[1..]
  {
    assert ([c] + s)[1..] == s && ([c] + s)[..1] == [c];
  }

  function Joined(ts: seq<string>): string {
    Kept(ts, {})
  }

  lemma JoinedNext(t: string, ts: seq<string>)
    ensures Joined([t] + ts) == t + Joined(ts)
  {
    assert ([t] + ts)[1..] == ts;
  }

  /** One more character in front of the first word, */
  lemma LongerWord(c: char, t: string, rest: seq<string>)
    requires !IsSpace(c) && Tokens(Joined([t] + rest)) == [t] + rest
    ensures Tokens(Joined([[c] + t] + rest)) == [[c] + t] + rest
  {
    JoinedNext([c] + t, rest);
    JoinedNext(t, rest);
    Regroup([c], t, Joined(rest));
    TokensChar(c, Joined([t] + rest));
    assert ([t] + rest)[1..] == rest;
  }

  /** or an empty word and white space in front of it. */
  lemma SpaceBefore(c: char, rest: seq<string>)
    requires IsSpace(c) && Tokens(Joined(rest)) == rest
    ensures Tokens(Joined([""] + ([[c]] + rest))) == ["", [c]] + rest
  {
    JoinedNext("", [[c]] + rest);
    JoinedNext([c], rest);
    assert "" + ([c] + Joined(rest)) == [c] + Joined(rest);
    TokensChar(c, Joined(rest));
  }

  /** Splitting what such tokens make together gives them back. */
  lemma {:induction false} TokensOfJoined(ts: seq<string>)
    requires Alternates(ts)
    ensures Tokens(Joined(ts)) == ts
    decreases |ts|, |ts[0]|
  {
    if ts[0] != "" {
      var c, t, rest := ts[0][0], ts[0][1..], ts[1..];
      assert ts[0] == [c] + t && c in ts[0] && ts == [ts[0]] + rest;
      AlternatesShorter(ts);
      TokensOfJoined([t] + rest);
      LongerWord(c, t, rest);
    } else if |ts| > 1 {
      var c, rest := ts[1][0], ts[2..];
      assert ts[1] == [c];
      assert ts == ["", [c]] + rest;
      assert ts == [""] + ([[c]] + rest);
      TokensOfJoined(rest);
      SpaceBefore(c, rest);
    } else {
      JoinedNext("", []);
      assert [""] + [] == [""] == ts && Joined(ts) == "";
    }
  }

  lemma AlternatesShorter(ts: seq<string>)
    requires Alternates(ts) && ts[0] != ""
    ensures Alternates([ts[0][1..]] + ts[1..])
  {
    var shorter := [ts[0][1..]] + ts[1..];
    forall c | c in ts[0][1..] ensures !IsSpace(c) {
      assert c in ts[0];
    }
    assert |ts| > 1 ==> shorter[1] == ts[1] && shorter[2..] == ts[2..];
  }

  /** The tokens with the words of a set emptied. */
  function Blank(ts: seq<string>, drop: set<string>): seq<string> {
    if ts == [] then [] else [if ts[0] in drop then "" else ts[0]] + Blank(ts[1..], drop)
  }

  lemma {:induction false} BlankKept(ts: seq<string>, drop: set<string>)
    ensures Kept(Blank(ts, drop), {}) == Kept(ts, drop)
  {
    if ts != [] {
      BlankKept(ts[1..], drop);
      assert Blank(ts, drop)[1..] == Blank(ts[1..], drop);
    }
  }

  lemma {:induction false} BlankAlternates(ts: seq<string>, drop: set<string>)
    requires Alternates(ts) && forall w :: w in drop ==> IsWord(w)
    ensures Alternates(Blank(ts, drop))
    decreases |ts|
  {
    var bs := Blank(ts, drop);
    if |ts| > 1 {
      BlankAlternates(ts[2..], drop);
      assert ts[1][0] in ts[1];
      assert ts[1..][1..] == ts[2..] && bs[1..] == Blank(ts[1..], drop) && bs[2..] == Blank(ts[2..], drop);
      assert bs[1] == ts[1];
    } else {
      assert ts[1..] == [];
    }
  }

  /** str.split(): the words in order. */
  function WordList(ts: seq<string>): seq<string> {
    if ts == [] then [] else (if IsWord(ts[0]) then [ts[0]] else []) + WordList(ts[1..])
  }

  function Outside(words: seq<string>, drop: set<string>): seq<string> {
    if words == [] then [] else (if words[0] in drop then [] else [words[0]]) + Outside(words[1..], drop)
  }

  lemma {:induction false} BlankWords(ts: seq<string>, drop: set<string>)
    ensures WordList(Blank(ts, drop)) == Outside(WordList(ts), drop)
  {
    if ts != [] {
      var rest := Blank(ts[1..], drop);
      BlankWords(ts[1..], drop);
      assert Blank(ts, drop)[0] == (if ts[0] in drop then "" else ts[0]) && Blank(ts, drop)[1..] == rest;
      assert WordList(Blank(ts, drop)) == (if IsWord(ts[0]) && ts[0] !in drop then [ts[0]] else []) + WordList(rest);
      if IsWord(ts[0]) {
        assert WordList(ts)[0] == ts[0] && WordList(ts)[1..] == WordList(ts[1..]);
      } else {
        assert WordList(ts) == WordList(ts[1..]);
      }
    }
  }

  /** Striking words takes exactly them out of the list of words, and splits or joins no other. */
  lemma StrikeSplits(s: string, drop: set<string>)
    requires forall w :: w in drop ==> IsWord(w)
    ensures WordList(Tokens(Strike(s, drop))) == Outside(WordList(Tokens(s)), drop)
  {
    var ts := Tokens(s);
    TokensAlternate(s);
    BlankKept(ts, drop);
    BlankAlternates(ts, drop);
    TokensOfJoined(Blank(ts, drop));
    BlankWords(ts, drop);
  }

  /** The words of the value of a variable are those of its expanded text without the words of any removal
    * that applies, its own or one handed down by the override. */
  lemma RemovalReads(st: Store, v: string, overrides: seq<string>)
    requires Acyclic(st) && Eval(st, overrides, v).raw.Some?
    ensures var e, n := Eval(st, overrides, v), Rank(st)(v);
            var sub := if Winner(st, overrides, v).Some? then Eval(st, overrides, Winner(st, overrides,
                    v).value) else ABSENT;
            var removes := sub.struck + Removes(st.Data(v), overrides);
            && e.value.Some? && (forall r :: r in removes ==> Below(r, Rank(st), n))
            && WordList(Tokens(e.value.value)) ==
               Outside(WordList(Tokens(Expand(st, overrides, e.raw.value))), Dropped(st, overrides, removes, n))
  {
    EvalUnfolds(st, overrides, v);
    var sub := if Winner(st, overrides, v).Some? then Eval(st, overrides, Winner(st, overrides, v).value) else ABSENT;
    var removes := sub.struck + Removes(st.Data(v), overrides);
    StrikeSplits(Expand(st, overrides, Eval(st, overrides, v).raw.value), Dropped(st, overrides, removes, Rank(st)(v)));
  }
}

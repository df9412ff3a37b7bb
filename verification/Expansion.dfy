/** What reading a variable means: pick the override, apply the conditional operations, expand the
  * references, strike the removed words. No cache is involved; the cached reader is proved against it.
  */
module Expansion {
  import opened Common
  import opened OverrideResolution
  import JoinedOverrides
  import opened OverrideIndex
  import opened DataStore

  // ---- Which variable supplies the value --------------------------------------------------------

  function Candidates(entries: seq<Entry>, overrides: seq<string>, acc: Active): (active: Active)
    requires DistinctKeys(acc)
    ensures DistinctKeys(active)
    ensures forall c :: c in active ==>
                          c in acc
                          || exists e :: e in entries && e.r == c.1 && e.o == c.0 && DataStore.Active(e.o, overrides)
    decreases |entries|
  {
    if entries == [] then acc
    else Candidates(entries[1..], overrides, if DataStore.Active(entries[0].o, overrides) then Put(acc, entries[0].o,
            entries[0].r) else acc)
  }

  /** The overriding variable whose value is used instead of that of v, if any. */
  function Winner(st: Store, overrides: seq<string>, v: string): Option<string>
  {
    if v !in st.index then None else Resolve(Candidates(st.index[v], overrides, []), None, overrides).found
  }

  // ---- Building the unexpanded value ------------------------------------------------------------

  function FlagText(d: VarData, flag: string): Option<Text> {
    if flag in d.flags then Some(d.flags[flag])
    else if flag == CONTENT && DEFAULT in d.flags then Some(d.flags[DEFAULT])
    else if "_defaultval_flag_" + flag in d.flags then Some(d.flags["_defaultval_flag_" + flag])
    else None
  }

  function Or(value: Option<Text>): Text {
    if value.Some? then value.value else []
  }

  function Appended(value: Option<Text>, cs: seq<Change>, overrides: seq<string>): Option<Text>
    decreases |cs|
  {
    if cs == [] then value
    else Appended(if Applies(cs[0], overrides) then Some(Or(value) + cs[0].text) else value, cs[1..], overrides)
  }

  function Prepended(value: Option<Text>, cs: seq<Change>, overrides: seq<string>): Option<Text>
    decreases |cs|
  {
    if cs == [] then value
    else Prepended(if Applies(cs[0], overrides) then Some(cs[0].text + Or(value)) else value, cs[1..], overrides)
  }

  /** The value before expansion, given what the override supplies. */
  function Raw(d: VarData, overrides: seq<string>, supplied: Option<Text>): Option<Text> {
    var base := if supplied.Some? then supplied else FlagText(d, CONTENT);
    Prepended(Appended(base, d.append, overrides), d.prepend, overrides)
  }

  function Removes(d: VarData, overrides: seq<string>): set<Text> {
    set c | c in d.remove && Applies(c, overrides) :: c.text
  }

  // ---- Words ------------------------------------------------------------------------------------

  /** White space as Python knows it, for \s and for str.split. */
  predicate IsSpace(c: char) {
    || '\t' <= c <= '\r' || '\U{1C}' <= c <= ' ' || c == '\U{85}' || c == '\U{A0}' || c == '\U{1680}'
    || '\U{2000}' <= c <= '\U{200A}' || c == '\U{2028}' || c == '\U{2029}' || c == '\U{202F}'
    || c == '\U{205F}' || c == '\U{3000}'
  }

  /** re.split(r'(\s)'): words, possibly empty, alternating with single white-space characters. */
  function Tokens(s: string): (ts: seq<string>)
    ensures ts != []
  {
    if s == "" then [""]
    else
      var rest := Tokens(s[1..]);
      if IsSpace(s[0]) then ["", s[..1]] + rest else [s[..1] + rest[0]] + rest[1..]
  }

  predicate IsWord(t: string) {
    t != "" && forall c :: c in t ==> !IsSpace(c)
  }

  /** str.split(). */
  function Words(s: string): set<string> {
    set t | t in Tokens(s) && IsWord(t)
  }

  function Kept(ts: seq<string>, drop: set<string>): string {
    if ts == [] then "" else (if ts[0] in drop then "" else ts[0]) + Kept(ts[1..], drop)
  }

  function Strike(s: string, drop: set<string>): string {
    Kept(Tokens(s), drop)
  }

  // ---- Acyclic stores ---------------------------------------------------------------------------

  predicate Below(t: Text, rank: string -> nat, n: nat) {
    forall p :: p in t && p.Ref? ==> rank(p.name) < n
  }

  predicate ChangesBelow(cs: seq<Change>, rank: string -> nat, n: nat) {
    forall c :: c in cs ==> Below(c.text, rank, n)
  }

  /** References and overrides only lead downwards in the rank. */
  ghost predicate IsRank(st: Store, rank: string -> nat) {
    && (forall v :: v in st.vars ==>
          var d := st.vars[v];
          && (CONTENT in d.flags ==> Below(d.flags[CONTENT], rank, rank(v)))
          && (DEFAULT in d.flags ==> Below(d.flags[DEFAULT], rank, rank(v)))
          && ("_defaultval_flag_" + CONTENT in d.flags ==> Below(d.flags["_defaultval_flag_" + CONTENT], rank, rank(v)))
          && ChangesBelow(d.append, rank, rank(v)) && ChangesBelow(d.prepend, rank, rank(v))
          && ChangesBelow(d.remove, rank, rank(v)))
    && forall v, e :: v in st.index && e in st.index[v] ==> rank(e.r) < rank(v)
  }

  ghost predicate Acyclic(st: Store) {
    exists rank :: IsRank(st, rank)
  }

  ghost function Rank(st: Store): (rank: string -> nat)
    requires Acyclic(st)
    ensures IsRank(st, rank)
  {
    var rank :| IsRank(st, rank); rank
  }

  lemma {:induction false} WinnerBelow(st: Store, overrides: seq<string>, v: string, rank: string -> nat)
    requires IsRank(st, rank)
    ensures Winner(st, overrides, v).Some? ==> rank(Winner(st, overrides, v).value) < rank(v)
  {
    if v in st.index {
      var active := Candidates(st.index[v], overrides, []);
      ResolveFromCandidates(active, None, overrides);
    }
  }

  /** A match is always one of the candidates. */
  lemma {:induction false} ResolveFromCandidates(active: Active, found: Option<string>, overrides: seq<string>)
    requires DistinctKeys(active)
    ensures var r := Resolve(active, found, overrides).found;
            r == found || (r.Some? && HasValue(active, r.value))
    decreases KeyLength(active)
  {
    var s := Search(active, found, false);
    PassFromCandidates(s, overrides);
    var r := Pass(s, overrides);
    if r.mod {
      ResolveFromCandidates(r.active, r.found, overrides);
    }
  }

  /** Like Continues, without the assumption that makes a search end. */
  ghost predicate DrawsOn(s: Search, r: Search) {
    && (forall v :: HasValue(r.active, v) ==> HasValue(s.active, v))
    && (r.found == s.found || (r.found.Some? && HasValue(s.active, r.found.value)))
  }

  lemma {:induction false} PassFromCandidates(s: Search, overrides: seq<string>)
    requires DistinctKeys(s.active)
    ensures DrawsOn(s, Pass(s, overrides))
    decreases |overrides|
  {
    if overrides != [] {
      var t := VisitAll(s, overrides[0], Keys(s.active));
      VisitAllFromCandidates(s, overrides[0], Keys(s.active));
      PassFromCandidates(t, overrides[1..]);
    }
  }

  lemma {:induction false} VisitAllFromCandidates(s: Search, o: string, snapshot: seq<string>)
    requires DistinctKeys(s.active) && (forall a :: a in snapshot ==> a in KeySet(s.active))
    requires forall i, j :: 0 <= i < j < |snapshot| ==> snapshot[i] != snapshot[j]
    ensures DrawsOn(s, VisitAll(s, o, snapshot))
    decreases |snapshot|
  {
    if snapshot != [] {
      assert DrawsOn(s, Visit(s, o, snapshot[0]));
      VisitAllFromCandidates(Visit(s, o, snapshot[0]), o, snapshot[1..]);
    }
  }

  // ---- Reading ----------------------------------------------------------------------------------

  /** A parsed value: before expansion, after expansion and removal, and the removals that struck. */
  datatype Parsed = Parsed(raw: Option<Text>, value: Option<string>, struck: set<Text>)

  const ABSENT := Parsed(None, None, {})

  ghost function Bound(st: Store, t: Text): nat
    requires Acyclic(st)
  {
    if t == [] then 0
    else
      var rest := Bound(st, t[1..]);
      if t[0].Ref? && Rank(st)(t[0].name) >= rest then Rank(st)(t[0].name) + 1 else rest
  }

  lemma {:induction false} BoundBelow(st: Store, t: Text, n: nat)
    requires Acyclic(st) && Below(t, Rank(st), n)
    ensures Bound(st, t) <= n
  {
    if t != [] {
      assert t[0] in t;
      BoundBelow(st, t[1..], n);
    }
  }

  lemma {:induction false} BoundMember(st: Store, t: Text, n: string)
    requires Acyclic(st) && Ref(n) in t
    ensures Rank(st)(n) < Bound(st, t)
  {
    if t[0] != Ref(n) {
      BoundMember(st, t[1..], n);
    }
  }

  /** What one part of a text expands to; an undefined reference stays as it is. */
  ghost function Piece(st: Store, overrides: seq<string>, p: Part): string
    requires Acyclic(st)
    decreases if p.Ref? then Rank(st)(p.name) + 1 else 0, 0, 0
  {
    match p
    case Lit(s) => s
    case Ref(n) =>
      var e := Eval(st, overrides, n);
      if e.value.Some? then e.value.value else "${" + n + "}"
  }

  /** The text with every reference replaced by the value it reads. */
  ghost function Expand(st: Store, overrides: seq<string>, t: Text): string
    requires Acyclic(st)
    decreases Bound(st, t), 0, |t|
  {
    if t == [] then "" else Piece(st, overrides, t[0]) + Expand(st, overrides, t[1..])
  }

  /** The words that a set of removals strikes. */
  ghost function Dropped(st: Store, overrides: seq<string>, removes: set<Text>, n: nat): set<string>
    requires Acyclic(st) && forall r :: r in removes ==> Below(r, Rank(st), n)
    decreases n, 1, 0
  {
    set r, w | r in removes && w in RemovedWords(st, overrides, r, n) :: w
  }

  ghost function RemovedWords(st: Store, overrides: seq<string>, r: Text, n: nat): set<string>
    requires Acyclic(st) && Below(r, Rank(st), n)
    decreases n, 0, |r| + 1
  {
    BoundBelow(st, r, n);
    Words(Expand(st, overrides, r))
  }

  /** What a sub-result may refer to. */
  ghost predicate Grounded(st: Store, p: Parsed, n: nat)
    requires Acyclic(st)
  {
    (p.raw.Some? ==> Below(p.raw.value, Rank(st), n)) && forall r :: r in p.struck ==> Below(r, Rank(st), n)
  }

  /** One level of reading: v, given how the variable that supplies its value was parsed. */
  ghost function Compose(st: Store, overrides: seq<string>, v: string, sub: Parsed): (p: Parsed)
    requires Acyclic(st) && Grounded(st, sub, Rank(st)(v))
    ensures Grounded(st, p, Rank(st)(v))
    decreases Rank(st)(v), 2, 0
  {
    var n := Rank(st)(v);
    var d := st.Data(v);
    var raw := Raw(d, overrides, sub.raw);
    RawBelow(st, overrides, v, sub.raw);
    if raw.None? then ABSENT
    else
      BoundBelow(st, raw.value, n);
      var text := Expand(st, overrides, raw.value);
      var removes := sub.struck + Removes(d, overrides);
      var struck := set r | r in removes && Strikes(text, RemovedWords(st, overrides, r, n));
      Parsed(raw, Some(Strike(text, Dropped(st, overrides, removes, n))), struck)
  }

  predicate Strikes(text: string, words: set<string>) {
    exists t :: t in Tokens(text) && t in words
  }

  lemma {:induction false} AppendedBelow(value: Option<Text>, cs: seq<Change>, overrides: seq<string>,
          rank: string -> nat, n: nat)
    requires value.Some? ==> Below(value.value, rank, n)
    requires ChangesBelow(cs, rank, n)
    ensures Appended(value, cs, overrides).Some? ==> Below(Appended(value, cs, overrides).value, rank, n)
    ensures Prepended(value, cs, overrides).Some? ==> Below(Prepended(value, cs, overrides).value, rank, n)
    decreases |cs|
  {
    if cs != [] {
      assert Below(cs[0].text, rank, n);
      AppendedBelow(if Applies(cs[0], overrides) then Some(Or(value) + cs[0].text)
              else value, cs[1..], overrides, rank, n);
      AppendedBelow(if Applies(cs[0], overrides) then Some(cs[0].text + Or(value))
              else value, cs[1..], overrides, rank, n);
    }
  }

  lemma RawBelow(st: Store, overrides: seq<string>, v: string, supplied: Option<Text>)
    requires Acyclic(st) && (supplied.Some? ==> Below(supplied.value, Rank(st), Rank(st)(v)))
    ensures var raw := Raw(st.Data(v), overrides, supplied); raw.Some? ==> Below(raw.value, Rank(st), Rank(st)(v))
    ensures forall r :: r in Removes(st.Data(v), overrides) ==> Below(r, Rank(st), Rank(st)(v))
  {
    var d := st.Data(v);
    var base := if supplied.Some? then supplied else FlagText(d, CONTENT);
    AppendedBelow(base, d.append, overrides, Rank(st), Rank(st)(v));
    AppendedBelow(Appended(base, d.append, overrides), d.prepend, overrides, Rank(st), Rank(st)(v));
  }

  /** Reading a variable from scratch. */
  ghost function Eval(st: Store, overrides: seq<string>, v: string): (p: Parsed)
    requires Acyclic(st)
    ensures Grounded(st, p, Rank(st)(v))
    decreases Rank(st)(v), 3, 0
  {
    WinnerBelow(st, overrides, v, Rank(st));
    var m := Winner(st, overrides, v);
    Compose(st, overrides, v, if m.Some? then Eval(st, overrides, m.value) else ABSENT)
  }

  /** How the variable that supplies the value of v is parsed. */
  ghost function Sub(st: Store, overrides: seq<string>, v: string): Parsed
    requires Acyclic(st)
  {
    var m := Winner(st, overrides, v);
    if m.Some? then Eval(st, overrides, m.value) else ABSENT
  }

  // ---- Which override wins ----------------------------------------------------------------------

  ghost function ActiveNames(entries: seq<Entry>, overrides: seq<string>): set<string> {
    set e | e in entries && DataStore.Active(e.o, overrides) :: e.o
  }

  lemma {:induction false} CandidateKeys(entries: seq<Entry>, overrides: seq<string>, acc: Active)
    requires DistinctKeys(acc)
    ensures KeySet(Candidates(entries, overrides, acc)) == KeySet(acc) + ActiveNames(entries, overrides)
    decreases |entries|
  {
    if entries != [] {
      var e := entries[0];
      CandidateKeys(entries[1..], overrides, if DataStore.Active(e.o, overrides) then Put(acc, e.o, e.r) else acc);
      assert forall f :: f in entries <==> f == e || f in entries[1..];
    }
  }

  predicate Has(entries: seq<Entry>, o: string) {
    exists e :: e in entries && e.o == o
  }

  /** The variable that carries override o: the one entered last. */
  function Carrier(entries: seq<Entry>, o: string): (r: string)
    requires Has(entries, o)
    ensures Entry(r, o) in entries
  {
    if Has(entries[1..], o) then Carrier(entries[1..], o)
    else
      assert entries[0].o == o;
      entries[0].r
  }

  lemma {:induction false} CandidateValue(entries: seq<Entry>, overrides: seq<string>, acc: Active, o: string)
    requires DistinctKeys(acc) && DataStore.Active(o, overrides) && (Has(entries, o) || o in KeySet(acc))
    ensures var active := Candidates(entries, overrides, acc);
            o in KeySet(active) && Get(active, o) == if Has(entries, o) then Carrier(entries, o) else Get(acc, o)
    decreases |entries|
  {
    if entries != [] {
      var e, rest := entries[0], entries[1..];
      assert forall f :: f in entries <==> f == e || f in rest;
      if DataStore.Active(e.o, overrides) {
        GetAfterPut(acc, e.o, e.r, if o in KeySet(acc) then o else e.o);
        if e.o == o || Has(rest, o) || o in KeySet(acc) {
          CandidateValue(rest, overrides, Put(acc, e.o, e.r), o);
        }
      } else {
        CandidateValue(rest, overrides, acc, o);
      }
    }
  }

  /** Single-name overrides: there is a winner exactly when an override of v is active, and it carries the
    * one whose first occurrence in OVERRIDES is furthest to the right. */
  lemma WinnerOfSingles(st: Store, overrides: seq<string>, v: string)
    requires forall e :: e in Listed(st.index, v) ==> Single(e.o)
    ensures var entries, names := Listed(st.index, v), ActiveNames(Listed(st.index, v), overrides);
            && (Winner(st, overrides, v).Some? <==> names != {})
            && forall o :: LastFirst(names, overrides, o) ==>
                 Has(entries, o) && Winner(st, overrides, v) == Some(Carrier(entries, o))
  {
    if v in st.index {
      var active := Candidates(st.index[v], overrides, []);
      CandidateKeys(st.index[v], overrides, []);
      SingleNames(active, overrides);
      assert active == [] <==> KeySet(active) == {};
      forall o | LastFirst(KeySet(active), overrides, o)
        ensures Has(st.index[v], o) && Winner(st, overrides, v) == Some(Carrier(st.index[v], o))
      {
        CandidateValue(st.index[v], overrides, [], o);
      }
    }
  }

  lemma ActiveIsJoined(o: string, overrides: seq<string>)
    requires DataStore.Active(o, overrides)
    ensures Joined(o, overrides)
  {
    if o in overrides {
      assert Join([o]) == o && forall c :: c in [o] ==> c in overrides;
    } else {
      assert Join(Split(o)) == o;
    }
  }

  /** Joined overrides: when no active one joins names that start one another, a value is taken from an
    * override exactly when one is active. */
  lemma WinnerOfJoined(st: Store, overrides: seq<string>, v: string)
    requires Plain(overrides)
    requires forall k :: k in ActiveNames(Listed(st.index, v), overrides) ==> CleanlyJoined(k, overrides)
    ensures Winner(st, overrides, v).Some? <==> ActiveNames(Listed(st.index, v), overrides) != {}
  {
    if v in st.index {
      var active := Candidates(st.index[v], overrides, []);
      CandidateKeys(st.index[v], overrides, []);
      CleanComplete(active, None, overrides);
      assert active == [] <==> KeySet(active) == {};
    }
  }

  /** Which one: of the active overrides, each made of different names, the one with the greatest fate. */
  lemma WinnerIsLast(st: Store, overrides: seq<string>, v: string, o: string)
    requires Plain(overrides)
    requires forall k :: k in ActiveNames(Listed(st.index, v), overrides) ==> JoinedOverrides.IsKey(k, overrides)
    requires JoinedOverrides.Last(ActiveNames(Listed(st.index, v), overrides), overrides, JoinedOverrides.START, o)
    ensures Has(Listed(st.index, v), o) && Winner(st, overrides, v) == Some(Carrier(Listed(st.index, v), o))
  {
    var active := Candidates(st.index[v], overrides, []);
    CandidateKeys(st.index[v], overrides, []);
    assert KeySet(active) == ActiveNames(st.index[v], overrides);
    JoinedOverrides.LastWins(active, overrides, o);
    CandidateValue(st.index[v], overrides, [], o);
  }

  /** What carries an override of v: v:o, unless the entry is the one that an operation on a name without
    * colon leaves under its truncation. */
  lemma CarrierIs(ix: Index, v: string, o: string)
    requires WellIndexed(ix) && Has(Listed(ix, v), o)
    ensures var r := Carrier(Listed(ix, v), o);
            r == v + ":" + o || (':' !in r && o == r && r != "" && v == r[..|r| - 1])
  {
    var r := Carrier(Listed(ix, v), o);
    assert (v, o) in Walk(r);
    if ':' in r {
      WalkCuts(r, (v, o));
    }
  }

  /** For a variable whose own entries are true it is v:o. */
  lemma CarrierTrue(ix: Index, v: string, o: string)
    requires Has(Listed(ix, v), o) && forall e :: e in Listed(ix, v) ==> Truthful(v, e)
    ensures Carrier(Listed(ix, v), o) == v + ":" + o
  {
    assert Truthful(v, Entry(Carrier(Listed(ix, v), o), o));
  }

  // ---- Overrides with two readers ---------------------------------------------------------------

  /** No two variables take their value from the same override. */
  ghost predicate Separate(st: Store, overrides: seq<string>) {
    forall u, w :: Winner(st, overrides, u).Some? && Winner(st, overrides, u) == Winner(st, overrides, w) ==> u == w
  }

  /** Where a winner comes from. */
  lemma WinnerEntry(st: Store, overrides: seq<string>, v: string) returns (e: Entry)
    requires Winner(st, overrides, v).Some?
    ensures e in Listed(st.index, v) && DataStore.Active(e.o, overrides) && Winner(st, overrides, v) == Some(e.r)
  {
    var active := Candidates(st.index[v], overrides, []);
    ResolveFromCandidates(active, None, overrides);
    var c :| c in active && c.1 == Winner(st, overrides, v).value;
    e :| e in st.index[v] && e.r == c.1 && e.o == c.0 && DataStore.Active(e.o, overrides);
  }

  /** The last colon of a name decides where its single override starts. */
  lemma CutIsUnique(u: string, o: string, w: string, p: string)
    requires Single(o) && Single(p) && u + ":" + o == w + ":" + p
    ensures u == w && o == p
  {
    var s := u + ":" + o;
    assert s[|u|] == ':' && s[|w|] == ':';
    assert forall j :: |u| < j < |s| ==> s[j] == o[j - |u| - 1];
    assert forall j :: |w| < j < |s| ==> s[j] == p[j - |w| - 1];
    assert |u| == |w|;
    assert u == s[..|u|] && w == s[..|w|];
    assert o == s[|u| + 1..] && p == s[|w| + 1..];
  }

  /** A name with at most one override is listed under one variable only. */
  lemma OneVariable(r: string, u: string, o: string, w: string, p: string)
    requires (u, o) in Walk(r) && (w, p) in Walk(r) && Single(o) && Single(p)
    ensures u == w
  {
    if ':' in r {
      WalkCuts(r, (u, o));
      WalkCuts(r, (w, p));
      CutIsUnique(u, o, w, p);
    }
  }

  ghost predicate AllSingle(ix: Index) {
    forall v, e :: e in Listed(ix, v) ==> Single(e.o)
  }

  /** With single-name overrides no override has two readers. */
  lemma SinglesSeparate(st: Store, overrides: seq<string>)
    requires WellIndexed(st.index) && AllSingle(st.index)
    ensures Separate(st, overrides)
  {
    forall u, w | Winner(st, overrides, u).Some? && Winner(st, overrides, u) == Winner(st, overrides, w)
      ensures u == w
    {
      var e := WinnerEntry(st, overrides, u);
      var f := WinnerEntry(st, overrides, w);
      OneVariable(e.r, u, e.o, w, f.o);
    }
  }

  /** A parse of m has a removal set, which every variable that takes its value from m shares: there was a
    * text, and a removal to look for. */
  ghost predicate Carries(st: Store, overrides: seq<string>, m: string)
    requires Acyclic(st)
  {
    var e := Eval(st, overrides, m);
    e.raw.Some? && Truthy(e.raw.value) && Sub(st, overrides, m).struck + Removes(st.Data(m), overrides) != {}
  }

  /** Striking more words changes a text exactly when one of them was still there. */
  lemma {:induction false} StrikeMore(ts: seq<string>, drop: set<string>, extra: set<string>)
    requires "" !in extra
    ensures |Kept(ts, drop + extra)| <= |Kept(ts, drop)|
    ensures Kept(ts, drop + extra) == Kept(ts, drop) <==> forall t :: t in ts && t in extra ==> t in drop
  {
    if ts != [] {
      StrikeMore(ts[1..], drop, extra);
      var t, x, y := ts[0], Kept(ts[1..], drop), Kept(ts[1..], drop + extra);
      assert forall u :: u in ts <==> u == t || u in ts[1..];
      if t in drop {
        assert "" + x == x && "" + y == y;
      } else if t in extra {
        assert Kept(ts, drop) == t + x && Kept(ts, drop + extra) == y;
      } else {
        assert (t + x)[|t|..] == x && (t + y)[|t|..] == y;
      }
    }
  }

  // ---- Texts that are empty, words that are not there -------------------------------------------

  /** The text as Python sees it before expansion is a non-empty string. */
  predicate Truthy(t: Text) {
    exists p :: p in t && (p.Ref? || p.text != "")
  }

  lemma {:induction false} EmptyExpands(st: Store, overrides: seq<string>, t: Text)
    requires Acyclic(st) && !Truthy(t)
    ensures Expand(st, overrides, t) == ""
    decreases |t|
  {
    if t != [] {
      assert t[0] in t;
      EmptyExpands(st, overrides, t[1..]);
    }
  }

  lemma KeptFirst(t: string, ts: seq<string>)
    ensures Kept([t] + ts, {}) == t + Kept(ts, {})
  {
    assert ([t] + ts)[1..] == ts && ([t] + ts)[0] == t;
  }

  lemma KeptSpace(c: string, rest: seq<string>)
    ensures Kept(["", c] + rest, {}) == c + Kept(rest, {})
  {
    assert ["", c] + rest == [""] + ([c] + rest);
    KeptFirst("", [c] + rest);
    KeptFirst(c, rest);
    assert "" + (c + Kept(rest, {})) == c + Kept(rest, {});
  }

  lemma KeptJoined(c: string, rest: seq<string>)
    requires rest != []
    ensures Kept([c + rest[0]] + rest[1..], {}) == c + Kept(rest, {})
  {
    var t, more := rest[0], rest[1..];
    assert rest == [t] + more;
    KeptFirst(c + t, more);
    KeptFirst(t, more);
    Regroup(c, t, Kept(more, {}));
  }

  lemma {:induction false} StrikeNothing(s: string)
    ensures Strike(s, {}) == s
  {
    if s != "" {
      var c, rest := s[..1], Tokens(s[1..]);
      StrikeNothing(s[1..]);
      assert s == c + s[1..];
      if IsSpace(s[0]) {
        KeptSpace(c, rest);
      } else {
        KeptJoined(c, rest);
      }
    }
  }

  lemma NothingStrikesEmpty(drop: set<string>, words: set<string>)
    requires forall w :: w in words ==> IsWord(w)
    ensures Strike("", drop) == "" && !Strikes("", words)
  {
    assert Tokens("") == [""] && [""][1..] == [] && Kept([], drop) == "";
    assert "" + "" == "";
    assert Kept([""], drop) == "";
  }

  /** A parsed value that was found: the text, and what is struck from it. */
  lemma EvalUnfolds(st: Store, overrides: seq<string>, v: string)
    requires Acyclic(st)
    ensures var raw := Raw(st.Data(v), overrides, Sub(st, overrides, v).raw);
            var removes := Sub(st, overrides, v).struck + Removes(st.Data(v), overrides);
            if raw.None? then Eval(st, overrides, v) == ABSENT else
              && (forall r :: r in removes ==> Below(r, Rank(st), Rank(st)(v)))
              && Below(raw.value, Rank(st), Rank(st)(v))
              && Eval(st, overrides, v).raw == raw
              && Eval(st, overrides, v).value ==
                 Some(Strike(Expand(st, overrides, raw.value), Dropped(st, overrides, removes, Rank(st)(v))))
              && Eval(st, overrides, v).struck ==
                 set r | r in removes && Strikes(Expand(st, overrides, raw.value), RemovedWords(st, overrides, r,
                         Rank(st)(v)))
  {
    WinnerBelow(st, overrides, v, Rank(st));
    RawBelow(st, overrides, v, Sub(st, overrides, v).raw);
  }

  /** Nothing to strike from, or nothing to strike. */
  lemma EvalShortcuts(st: Store, overrides: seq<string>, v: string)
    requires Acyclic(st)
    ensures var raw := Raw(st.Data(v), overrides, Sub(st, overrides, v).raw);
            var removes := Sub(st, overrides, v).struck + Removes(st.Data(v), overrides);
            raw.Some? ==>
              && (!Truthy(raw.value) ==> Expand(st, overrides, raw.value) == "")
              && (removes == {} || Expand(st, overrides, raw.value) == "" ==>
                    Eval(st, overrides, v) == Parsed(raw, Some(Expand(st, overrides, raw.value)), {}))
  {
    EvalUnfolds(st, overrides, v);
    var raw := Raw(st.Data(v), overrides, Sub(st, overrides, v).raw);
    var removes := Sub(st, overrides, v).struck + Removes(st.Data(v), overrides);
    if raw.Some? {
      var text := Expand(st, overrides, raw.value);
      if !Truthy(raw.value) {
        EmptyExpands(st, overrides, raw.value);
      }
      if removes == {} {
        StrikeNothing(text);
        assert Dropped(st, overrides, removes, Rank(st)(v)) == {};
      }
      if text == "" {
        NothingStrikesEmpty(Dropped(st, overrides, removes, Rank(st)(v)), {});
        forall r | r in removes ensures !Strikes(text, RemovedWords(st, overrides, r, Rank(st)(v))) {
          NothingStrikesEmpty({}, RemovedWords(st, overrides, r, Rank(st)(v)));
        }
      }
    }
  }

  // ---- Runs that never share --------------------------------------------------------------------

  /** A name with at most one override. */
  predicate Flat(name: string) {
    forall e :: e in Walk(name) ==> Single(e.1)
  }

  lemma FewerSingle(ix: Index, fewer: Index)
    requires AllSingle(ix) && forall v, e :: e in Listed(fewer, v) ==> e in Listed(ix, v)
    ensures AllSingle(fewer)
  {
  }

  lemma EnterSingle(ix: Index, name: string)
    requires WellIndexed(ix) && AllSingle(ix) && Flat(name)
    ensures AllSingle(Enter(ix, name, Walk(name)))
  {
    EnterExact(ix, name, Walk(name));
    forall v, e | e in Listed(Enter(ix, name, Walk(name)), v) ensures Single(e.o) {
      if e !in Listed(ix, v) {
        assert (v, e.o) in Walk(name);
      }
    }
  }

  lemma {:induction false} DelAllSingle(st: Store, names: seq<string>)
    requires WellIndexed(st.index) && AllSingle(st.index)
    ensures WellIndexed(DelAll(st, names).index) && AllSingle(DelAll(st, names).index)
    decreases |names|
  {
    if names != [] {
      ForgetExact(st.index, names[0]);
      FewerSingle(st.index, Forget(st.index, names[0]));
      DelAllSingle(DelVar(st, names[0]), names[1..]);
    }
  }

  lemma ClearSingle(st: Store, v: string, overrides: seq<string>)
    requires WellIndexed(st.index) && AllSingle(st.index)
    ensures AllSingle(Clear(st, v, overrides).index)
  {
    if v in st.index {
      var cleared := st.(vars := st.vars[v := VarData(st.Data(v).flags, [], [], [])]);
      DelAllSingle(cleared, Overriders(st.index[v], overrides));
      var ix := DelAll(cleared, Overriders(st.index[v], overrides)).index;
      FewerSingle(ix, ix - {v});
    }
  }

  lemma ApplySingle(st: Store, w: Write, overrides: seq<string>)
    requires WellIndexed(st.index) && AllSingle(st.index) && Flat(w.v)
    ensures AllSingle(Apply(st, w, overrides).index)
  {
    match w
    case Assign(v, value, parsing) =>
      var st1 := if parsing then st else Clear(st, v, overrides);
      ClearIndexed(st, v, overrides);
      ClearSingle(st, v, overrides);
      EnterSingle(st1.index, v);
    case Alter(v, keyword, change) => EnterSingle(st.index, v);
    case Delete(v) =>
      ForgetExact(st.index, v);
      FewerSingle(st.index, Forget(st.index, v));
    case PutFlag(v, flag, value) => EnterSingle(st.index, v);
    case DropFlag(v, flag) =>
  }

  /** As long as no written name has more than one override, no override ever has two readers. */
  lemma {:induction false} RunSeparate(st: Store, ws: seq<Write>, overrides: seq<string>)
    requires WellIndexed(st.index) && AllSingle(st.index) && forall w :: w in ws ==> Flat(w.v)
    ensures Separate(Run(st, ws, overrides), overrides)
    decreases |ws|
  {
    if ws == [] {
      SinglesSeparate(st, overrides);
    } else {
      ApplyIndexed(st, ws[0], overrides);
      ApplySingle(st, ws[0], overrides);
      RunSeparate(Apply(st, ws[0], overrides), ws[1..], overrides);
    }
  }
}

/** Which override of a variable wins: the loop of getVarFlag that strips trailing overrides off the
  * active keys until each is a single name, and lets every name that becomes single claim the match.
  */
module OverrideResolution {
  import opened Common

  /** str.replace(pat, ""): every non-overlapping occurrence, left to right. */
  function Erase(s: string, pat: string): (r: string)
    requires pat != ""
    ensures |r| <= |s|
    ensures EndsWith(s, pat) ==> |r| < |s|
  {
    if |s| < |pat| then s
    else if s[..|pat|] == pat then Erase(s[|pat|..], pat)
    else
      assert EndsWith(s, pat) ==> EndsWith(s[1..], pat);
      [s[0]] + Erase(s[1..], pat)
  }

  /** A dictionary from active override strings to the variable that carries them, in insertion order. */
  type Active = seq<(string, string)>

  function KeySet(active: Active): set<string> {
    if active == [] then {} else {active[0].0} + KeySet(active[1..])
  }

  predicate DistinctKeys(active: Active) {
    active == [] || (active[0].0 !in KeySet(active[1..]) && DistinctKeys(active[1..]))
  }

  /** The measure of the loop. */
  function KeyLength(active: Active): nat {
    if active == [] then 0 else |active[0].0| + KeyLength(active[1..])
  }

  function Keys(active: Active): (r: seq<string>)
    ensures forall k :: k in r <==> k in KeySet(active)
    ensures DistinctKeys(active) ==> forall i, j :: 0 <= i < j < |r| ==> r[i] != r[j]
  {
    if active == [] then [] else [active[0].0] + Keys(active[1..])
  }

  function Get(active: Active, key: string): (r: string)
    requires key in KeySet(active)
    ensures (key, r) in active
  {
    if active[0].0 == key then active[0].1 else Get(active[1..], key)
  }

  function Del(active: Active, key: string): (r: Active)
    requires DistinctKeys(active)
    ensures DistinctKeys(r) && KeySet(r) == KeySet(active) - {key}
    ensures forall e :: e in r ==> e in active
    ensures KeyLength(r) + (if key in KeySet(active) then |key| else 0) == KeyLength(active)
  {
    if active == [] then []
    else if active[0].0 == key then active[1..]
    else [active[0]] + Del(active[1..], key)
  }

  function Put(active: Active, key: string, value: string): (r: Active)
    requires DistinctKeys(active)
    ensures DistinctKeys(r) && KeySet(r) == KeySet(active) + {key}
    ensures forall e :: e in r ==> e in active || e == (key, value)
    ensures KeyLength(r) <= KeyLength(active) + |key|
  {
    if active == [] then [(key, value)]
    else if active[0].0 == key then [(key, value)] + active[1..]
    else [active[0]] + Put(active[1..], key, value)
  }

  /** The state of the loop: what is still active, the match so far, and whether this pass stripped anything. */
  datatype Search = Search(active: Active, found: Option<string>, mod: bool)

  /** The loop body for override o and key a. */
  function Visit(s: Search, o: string, a: string): (r: Search)
    requires DistinctKeys(s.active) && a in KeySet(s.active)
    ensures DistinctKeys(r.active) && KeySet(s.active) - {a} <= KeySet(r.active)
    ensures KeyLength(r.active) <= KeyLength(s.active)
    ensures s.mod ==> r.mod
    ensures r.mod && !s.mod ==> KeyLength(r.active) < KeyLength(s.active)
  {
    if EndsWith(a, ":" + o) then
      Search(Put(Del(s.active, a), Erase(a, ":" + o), Get(s.active, a)), s.found, true)
    else if a == o then
      Search(Del(s.active, a), Some(Get(s.active, a)), s.mod)
    else s
  }

  function VisitAll(s: Search, o: string, snapshot: seq<string>): (r: Search)
    requires DistinctKeys(s.active) && (forall a :: a in snapshot ==> a in KeySet(s.active))
    requires forall i, j :: 0 <= i < j < |snapshot| ==> snapshot[i] != snapshot[j]
    ensures DistinctKeys(r.active) && KeyLength(r.active) <= KeyLength(s.active)
    ensures s.mod ==> r.mod
    ensures r.mod && !s.mod ==> KeyLength(r.active) < KeyLength(s.active)
    decreases |snapshot|
  {
    if snapshot == [] then s else VisitAll(Visit(s, o, snapshot[0]), o, snapshot[1..])
  }

  /** One pass over OVERRIDES. */
  function Pass(s: Search, overrides: seq<string>): (r: Search)
    requires DistinctKeys(s.active)
    ensures DistinctKeys(r.active) && KeyLength(r.active) <= KeyLength(s.active)
    ensures s.mod ==> r.mod
    ensures r.mod && !s.mod ==> KeyLength(r.active) < KeyLength(s.active)
    decreases |overrides|
  {
    if overrides == [] then s
    else
      Pass(VisitAll(s, overrides[0], Keys(s.active)), overrides[1..])
  }

  /** The whole loop. */
  function Resolve(active: Active, found: Option<string>, overrides: seq<string>): Search
    requires DistinctKeys(active)
    decreases KeyLength(active)
  {
    var s := Pass(Search(active, found, false), overrides);
    if s.mod then Resolve(s.active, s.found, overrides) else s
  }

  /** The innermost loop: one override against a snapshot of the active keys. */
  method VisitSnapshot(s: Search, o: string) returns (r: Search)
    requires DistinctKeys(s.active)
    ensures r == VisitAll(s, o, Keys(s.active)) && DistinctKeys(r.active)
  {
    var active, found, mod := s.active, s.found, s.mod;
    var snapshot := Keys(active);
    for j := 0 to |snapshot|
      invariant DistinctKeys(active) && forall a :: a in snapshot[j..] ==> a in KeySet(active)
      invariant VisitAll(Search(active, found, mod), o, snapshot[j..]) == VisitAll(s, o, snapshot)
    {
      var a := snapshot[j];
      assert snapshot[j..][0] == a && snapshot[j..][1..] == snapshot[j + 1..];
      ghost var visited := Visit(Search(active, found, mod), o, a);
      if EndsWith(a, ":" + o) {
        var t := Get(active, a);
        active := Del(active, a);
        active := Put(active, Erase(a, ":" + o), t);
        mod := true;
      } else if a == o {
        found := Some(Get(active, a));
        active := Del(active, a);
      }
      assert visited == Search(active, found, mod);
    }
    return Search(active, found, mod);
  }

  /** The loop as the datastore runs it. */
  method ResolveLoop(candidates: Active, overrides: seq<string>) returns (found: Option<string>)
    requires DistinctKeys(candidates)
    ensures found == Resolve(candidates, None, overrides).found
  {
    var s := Search(candidates, None, true);
    while s.mod
      invariant DistinctKeys(s.active)
      invariant s.mod ==> Resolve(s.active, s.found, overrides) == Resolve(candidates, None, overrides)
      invariant !s.mod ==> s.found == Resolve(candidates, None, overrides).found
      decreases s.mod, KeyLength(s.active)
    {
      s := s.(mod := false);
      ghost var before := s;
      for i := 0 to |overrides|
        invariant DistinctKeys(s.active)
        invariant Pass(s, overrides[i..]) == Pass(before, overrides)
      {
        s := VisitSnapshot(s, overrides[i]);
        assert overrides[i..][1..] == overrides[i + 1..];
      }
    }
    return s.found;
  }

  // ---- Single-name overrides --------------------------------------------------------------------

  predicate Single(name: string) {
    ':' !in name
  }

  predicate Plain(cs: seq<string>) {
    forall c :: c in cs ==> ':' !in c
  }

  /** Where a name first occurs in OVERRIDES. */
  function FirstIndex(overrides: seq<string>, o: string): (i: nat)
    requires o in overrides
    ensures i < |overrides| && overrides[i] == o
  {
    if overrides[0] == o then 0 else 1 + FirstIndex(overrides[1..], o)
  }

  /** o is the candidate whose first occurrence in OVERRIDES comes last. */
  ghost predicate LastFirst(keys: set<string>, overrides: seq<string>, o: string) {
    && o in keys && o in overrides
    && forall k :: k in keys && k in overrides ==> FirstIndex(overrides, k) <= FirstIndex(overrides, o)
  }

  lemma SuffixHasColon(a: string, o: string)
    requires EndsWith(a, ":" + o)
    ensures ':' in a
  {
    assert a[|a| - |":" + o|..][0] == ':';
  }

  lemma {:induction false} VisitSingles(s: Search, o: string, snapshot: seq<string>)
    requires DistinctKeys(s.active) && (forall a :: a in snapshot ==> a in KeySet(s.active) && Single(a))
    requires forall i, j :: 0 <= i < j < |snapshot| ==> snapshot[i] != snapshot[j]
    ensures VisitAll(s, o, snapshot) ==
            if o in snapshot then Search(Del(s.active, o), Some(Get(s.active, o)), s.mod) else s
    decreases |snapshot|
  {
    if snapshot != [] {
      var a := snapshot[0];
      if EndsWith(a, ":" + o) {
        SuffixHasColon(a, o);
      }
      VisitSingles(Visit(s, o, a), o, snapshot[1..]);
    }
  }

  lemma {:induction false} PassSingles(s: Search, overrides: seq<string>)
    requires DistinctKeys(s.active) && forall k :: k in KeySet(s.active) ==> Single(k)
    ensures var r := Pass(s, overrides);
            && r.mod == s.mod
            && (forall k :: k in KeySet(r.active) <==> k in KeySet(s.active) && k !in overrides)
            && ((forall o :: o in overrides ==> o !in KeySet(s.active)) ==> r.found == s.found)
    decreases |overrides|
  {
    if overrides != [] {
      VisitSingles(s, overrides[0], Keys(s.active));
      PassSingles(VisitAll(s, overrides[0], Keys(s.active)), overrides[1..]);
      assert forall o :: o in overrides <==> o == overrides[0] || o in overrides[1..];
    }
  }

  lemma {:induction false} PassWinner(s: Search, overrides: seq<string>, w: string)
    requires DistinctKeys(s.active) && forall k :: k in KeySet(s.active) ==> Single(k)
    requires LastFirst(KeySet(s.active), overrides, w)
    ensures Pass(s, overrides).found == Some(Get(s.active, w))
    decreases |overrides|
  {
    var o := overrides[0];
    VisitSingles(s, o, Keys(s.active));
    LastFirstStep(KeySet(s.active), overrides, w);
    var t := VisitAll(s, o, Keys(s.active));
    if w == o {
      PassSingles(t, overrides[1..]);
    } else {
      PassWinner(t, overrides[1..], w);
      GetAfterDel(s.active, o, w);
    }
  }

  lemma {:induction false} LastFirstStep(keys: set<string>, overrides: seq<string>, w: string)
    requires overrides != [] && LastFirst(keys, overrides, w)
    ensures w == overrides[0] ==> forall k :: k in overrides[1..] ==> k !in keys - {w}
    ensures w != overrides[0] ==> LastFirst(keys - {overrides[0]}, overrides[1..], w)
  {
    forall k | k in overrides[1..] && k in keys && k != overrides[0]
      ensures FirstIndex(overrides, k) == 1 + FirstIndex(overrides[1..], k)
      ensures FirstIndex(overrides, k) <= FirstIndex(overrides, w)
    {
    }
  }

  lemma {:induction false} GetAfterDel(active: Active, key: string, other: string)
    requires DistinctKeys(active) && other != key && other in KeySet(active)
    ensures Get(Del(active, key), other) == Get(active, other)
  {
    if active[0].0 != key && active[0].0 != other {
      GetAfterDel(active[1..], key, other);
    }
  }

  lemma {:induction false} GetAfterPut(active: Active, key: string, value: string, other: string)
    requires DistinctKeys(active) && (other in KeySet(active) || other == key)
    ensures Get(Put(active, key, value), other) == if other == key then value else Get(active, other)
  {
    if active != [] && active[0].0 != key && active[0].0 != other {
      GetAfterPut(active[1..], key, value, other);
    }
  }

  /** Single-name overrides: every listed candidate is consumed in one pass, and the winner is the one
    * whose first occurrence in OVERRIDES is furthest to the right. */
  lemma {:induction false} SingleNames(active: Active, overrides: seq<string>)
    requires DistinctKeys(active) && forall k :: k in KeySet(active) ==> Single(k) && k in overrides
    ensures var r := Resolve(active, None, overrides);
            && r.active == []
            && (r.found.Some? <==> active != [])
            && forall o :: LastFirst(KeySet(active), overrides, o) ==> r.found == Some(Get(active, o))
  {
    var s := Search(active, None, false);
    PassSingles(s, overrides);
    forall o | LastFirst(KeySet(active), overrides, o)
      ensures Resolve(active, None, overrides).found == Some(Get(active, o))
    {
      PassWinner(s, overrides, o);
    }
    if active != [] {
      var o := PickLast(KeySet(active), overrides);
    }
  }

  lemma {:induction false} PickLast(keys: set<string>, overrides: seq<string>) returns (o: string)
    requires keys != {} && forall k :: k in keys ==> k in overrides
    ensures LastFirst(keys, overrides, o)
    decreases keys
  {
    o :| o in keys;
    if keys != {o} {
      var p := PickLast(keys - {o}, overrides);
      if FirstIndex(overrides, o) <= FirstIndex(overrides, p) {
        o := p;
      }
    }
  }

  /** With no name listed twice, first occurrence furthest to the right is simply rightmost. */
  lemma {:induction false} FirstIndexUnique(overrides: seq<string>, i: nat)
    requires i < |overrides| && forall j, k :: 0 <= j < k < |overrides| ==> overrides[j] != overrides[k]
    ensures FirstIndex(overrides, overrides[i]) == i
  {
    if i > 0 {
      FirstIndexUnique(overrides[1..], i - 1);
    }
  }

  /** Where a name last occurs in OVERRIDES. */
  function LastIndex(overrides: seq<string>, o: string): (i: nat)
    requires o in overrides
    ensures i < |overrides| && overrides[i] == o
  {
    if overrides[|overrides| - 1] == o then |overrides| - 1 else LastIndex(overrides[..|overrides| - 1], o)
  }

  /** o is the candidate furthest to the right in OVERRIDES. */
  ghost predicate Rightmost(keys: set<string>, overrides: seq<string>, o: string) {
    && o in keys && o in overrides
    && forall k :: k in keys && k in overrides ==> LastIndex(overrides, k) <= LastIndex(overrides, o)
  }

  /** Whatever is active, the candidate furthest to the right is chosen. */
  ghost predicate RightmostWins(overrides: seq<string>) {
    forall active: Active, o ::
      DistinctKeys(active) && (forall k :: k in KeySet(active) ==> k in overrides)
      && Rightmost(KeySet(active), overrides, o) ==>
        Resolve(active, None, overrides).found == Some(Get(active, o))
  }

  /** The names come in the same order by first and by last occurrence. */
  ghost predicate SameOrder(overrides: seq<string>) {
    forall a, b :: a in overrides && b in overrides && FirstIndex(overrides, a) <= FirstIndex(overrides, b) ==>
      LastIndex(overrides, a) <= LastIndex(overrides, b)
  }

  lemma RightmostIsLastFirst(keys: set<string>, overrides: seq<string>, o: string)
    requires SameOrder(overrides) && Rightmost(keys, overrides, o)
    ensures LastFirst(keys, overrides, o)
  {
    forall k | k in keys && k in overrides ensures FirstIndex(overrides, k) <= FirstIndex(overrides, o) {
      if FirstIndex(overrides, o) <= FirstIndex(overrides, k) {
        assert LastIndex(overrides, o) == LastIndex(overrides, k);
      }
    }
  }

  /** Two candidates that come in different orders by first and by last occurrence: the wrong one wins. */
  lemma OtherOneWins(overrides: seq<string>, a: string, b: string)
    requires Plain(overrides) && a in overrides && b in overrides
    requires FirstIndex(overrides, a) <= FirstIndex(overrides, b)
    requires LastIndex(overrides, b) < LastIndex(overrides, a)
    ensures var active := [(a, a), (b, b)];
            && DistinctKeys(active) && KeySet(active) == {a, b} && Rightmost({a, b}, overrides, a)
            && Get(active, a) == a && Resolve(active, None, overrides).found == Some(b)
  {
    var active := [(a, a), (b, b)];
    assert active[1..] == [(b, b)] && KeySet(active[1..]) == {b};
    SingleNames(active, overrides);
    assert LastFirst(KeySet(active), overrides, b);
  }

  /** "Rightmost wins" holds for an OVERRIDES of single names exactly when its names come in the same order
    * by first and by last occurrence. */
  lemma RightmostExact(overrides: seq<string>)
    requires Plain(overrides)
    ensures RightmostWins(overrides) <==> SameOrder(overrides)
  {
    if SameOrder(overrides) {
      forall active: Active, o |
        DistinctKeys(active) && (forall k :: k in KeySet(active) ==> k in overrides)
        && Rightmost(KeySet(active), overrides, o)
        ensures Resolve(active, None, overrides).found == Some(Get(active, o))
      {
        RightmostIsLastFirst(KeySet(active), overrides, o);
        SingleNames(active, overrides);
      }
    } else {
      var a, b :| a in overrides && b in overrides && FirstIndex(overrides, a) <= FirstIndex(overrides, b)
                  && LastIndex(overrides, b) < LastIndex(overrides, a);
      OtherOneWins(overrides, a, b);
    }
  }

  /** Listing a name twice can break it: in a:b:a the last entry is a, yet b is chosen. */
  lemma RepeatedNameLoses()
    ensures Resolve([("a", "a"), ("b", "b")], None, ["a", "b", "a"]).found == Some("b")
    ensures !RightmostWins(["a", "b", "a"])
  {
    var overrides := ["a", "b", "a"];
    assert FirstIndex(overrides, "a") == 0 && FirstIndex(overrides, "b") == 1 by {
      assert overrides[1..][0] == "b";
    }
    assert LastIndex(overrides, "b") == 1 by {
      assert overrides[..2][1] == "b";
    }
    OtherOneWins(overrides, "a", "b");
    RightmostExact(overrides);
  }

  // ---- Overrides joined by colons ---------------------------------------------------------------

  function Tail(cs: seq<string>): string {
    if cs == [] then "" else ":" + cs[0] + Tail(cs[1..])
  }

  function Join(cs: seq<string>): string
    requires cs != []
  {
    cs[0] + Tail(cs[1..])
  }

  lemma JoinLonger(a: seq<string>, b: seq<string>)
    requires a != [] && b != [] && Plain(a) && Plain(b) && Join(a) == Join(b)
    ensures |a[0]| >= |b[0]|
  {
    var s := Join(b);
    if |a[0]| < |b[0]| {
      assert s[|a[0]|] == b[0][|a[0]|] && b[0][|a[0]|] in b[0];
      assert Join(a)[|a[0]|] == Tail(a[1..])[0] == ':';
    }
  }

  /** A joined override can be read in one way only. */
  lemma {:induction false} JoinInjective(a: seq<string>, b: seq<string>)
    requires a != [] && b != [] && Plain(a) && Plain(b) && Join(a) == Join(b)
    ensures a == b
    decreases |a|
  {
    JoinLonger(a, b);
    JoinLonger(b, a);
    var s := Join(a);
    assert s[..|a[0]|] == a[0] && s[..|a[0]|] == b[0];
    assert s[|a[0]|..] == Tail(a[1..]) && s[|a[0]|..] == Tail(b[1..]);
    if |a| > 1 && |b| > 1 {
      var x, y := a[1..], b[1..];
      assert Tail(x)[1..] == Join(x) && Tail(y)[1..] == Join(y);
      JoinInjective(x, y);
    }
    assert a == [a[0]] + a[1..] && b == [b[0]] + b[1..];
  }

  /** The components other than o. */
  function Without(cs: seq<string>, o: string): (r: seq<string>)
    ensures forall c :: c in r <==> c in cs && c != o
  {
    if cs == [] then [] else (if cs[0] == o then [] else [cs[0]]) + Without(cs[1..], o)
  }

  /** What erasing ":o" really leaves of a tail of components. */
  function Struck(cs: seq<string>, o: string): string {
    if cs == [] then ""
    else (if StartsWith(cs[0], o) then cs[0][|o|..] else ":" + cs[0]) + Struck(cs[1..], o)
  }

  lemma EraseStep(s: string, pat: string)
    requires pat != ""
    ensures StartsWith(s, pat) ==> Erase(s, pat) == Erase(s[|pat|..], pat)
    ensures !StartsWith(s, pat) && s != "" ==> Erase(s, pat) == [s[0]] + Erase(s[1..], pat)
  {
  }

  lemma OtherStart(pat: string, s: string)
    requires pat != "" && s != "" && pat[0] != s[0]
    ensures !StartsWith(s, pat)
  {
    if |pat| <= |s| {
      assert s[..|pat|][0] == s[0];
    }
  }

  lemma Consed(c: string, t: string)
    requires c != ""
    ensures (c + t)[1..] == c[1..] + t && (c + t)[0] == c[0] && [c[0]] + (c[1..] + t) == c + t
  {
  }

  lemma {:induction false} EraseSkips(c: string, t: string, o: string)
    requires ':' !in c
    ensures Erase(c + t, ":" + o) == c + Erase(t, ":" + o)
  {
    var pat := ":" + o;
    if c == "" {
      assert c + t == t && c + Erase(t, pat) == Erase(t, pat);
    } else {
      assert c[0] in c;
      Consed(c, t);
      Consed(c, Erase(t, pat));
      OtherStart(pat, c + t);
      EraseStep(c + t, pat);
      EraseSkips(c[1..], t, o);
    }
  }

  /** At a colon, ":o" matches exactly when the component that follows starts with o. */
  lemma MatchAtColon(c: string, t: string, o: string)
    requires ':' !in o && (t == "" || t[0] == ':')
    ensures StartsWith(":" + (c + t), ":" + o) <==> StartsWith(c, o)
  {
    var s, pat := ":" + (c + t), ":" + o;
    if StartsWith(c, o) {
      assert s[..|pat|] == pat;
    }
    if StartsWith(s, pat) {
      assert forall i :: 0 <= i < |o| ==> o[i] == pat[i + 1] == s[..|pat|][i + 1] == (c + t)[i];
      assert t != "" ==> (c + t)[|c|] == ':';
      assert |o| <= |c|;
      assert c[..|o|] == o;
    }
  }

  lemma EraseAtColon(c: string, t: string, o: string)
    requires ':' !in c && ':' !in o && (t == "" || t[0] == ':')
    ensures Erase(":" + (c + t), ":" + o) == (if StartsWith(c, o) then c[|o|..] else ":" + c) + Erase(t, ":" + o)
  {
    var s, pat := ":" + (c + t), ":" + o;
    MatchAtColon(c, t, o);
    if StartsWith(c, o) {
      calc {
        Erase(s, pat);
        { EraseStep(s, pat); }
        Erase(s[|pat|..], pat);
        { assert s[|pat|..] == c[|o|..] + t; }
        Erase(c[|o|..] + t, pat);
        { EraseSkips(c[|o|..], t, o); }
        c[|o|..] + Erase(t, pat);
      }
    } else {
      calc {
        Erase(s, pat);
        { EraseStep(s, pat); }
        [s[0]] + Erase(s[1..], pat);
        { assert s[1..] == c + t && [s[0]] == ":"; }
        ":" + Erase(c + t, pat);
        { EraseSkips(c, t, o); }
        ":" + (c + Erase(t, pat));
        ":" + c + Erase(t, pat);
      }
    }
  }

  lemma {:induction false} EraseTail(cs: seq<string>, o: string)
    requires Plain(cs) && ':' !in o
    ensures Erase(Tail(cs), ":" + o) == Struck(cs, o)
  {
    if cs != [] {
      var c, t := cs[0], Tail(cs[1..]);
      EraseTail(cs[1..], o);
      EraseAtColon(c, t, o);
      assert Tail(cs) == ":" + (c + t);
    }
  }

  /** Stripping by text is stripping by component exactly when no later component properly extends o. */
  lemma {:induction false} StripExact(cs: seq<string>, o: string)
    requires cs != [] && Plain(cs) && ':' !in o
    ensures Erase(Join(cs), ":" + o) == Join([cs[0]] + Without(cs[1..], o)) <==>
            forall i :: 1 <= i < |cs| && StartsWith(cs[i], o) ==> cs[i] == o
  {
    EraseSkips(cs[0], Tail(cs[1..]), o);
    EraseTail(cs[1..], o);
    StruckLength(cs[1..], o);
    var kept := [cs[0]] + Without(cs[1..], o);
    assert kept[1..] == Without(cs[1..], o);
    if Erase(Join(cs), ":" + o) == Join(kept) {
      assert cs[0] + Struck(cs[1..], o) == cs[0] + Tail(kept[1..]);
      assert |Struck(cs[1..], o)| == |Tail(kept[1..])|;
      forall i | 1 <= i < |cs| && StartsWith(cs[i], o) ensures cs[i] == o {
        assert cs[i] == cs[1..][i - 1];
      }
    } else {
      assert Struck(cs[1..], o) != Tail(kept[1..]);
      var i :| 0 <= i < |cs[1..]| && StartsWith(cs[1..][i], o) && cs[1..][i] != o;
      assert cs[1..][i] == cs[i + 1];
    }
  }

  lemma {:induction false} StruckLength(cs: seq<string>, o: string)
    ensures |Struck(cs, o)| <= |Tail(Without(cs, o))|
    ensures (forall i :: 0 <= i < |cs| && StartsWith(cs[i], o) ==> cs[i] == o) <==>
            Struck(cs, o) == Tail(Without(cs, o))
    ensures Struck(cs, o) != Tail(Without(cs, o)) ==> |Struck(cs, o)| < |Tail(Without(cs, o))|
  {
    if cs != [] {
      StruckLength(cs[1..], o);
      var rest := Without(cs[1..], o);
      if cs[0] != o {
        assert Without(cs, o) == [cs[0]] + rest && ([cs[0]] + rest)[1..] == rest;
      }
      assert forall i :: 0 <= i < |cs[1..]| ==> cs[1..][i] == cs[i + 1];
      var c, struck, tail := cs[0], Struck(cs[1..], o), Tail(rest);
      if c == o {
        assert StartsWith(c, o) && c[|o|..] + struck == struck;
        assert Without(cs, o) == rest;
      } else if StartsWith(c, o) {
        assert |Struck(cs, o)| == |c| - |o| + |struck| && |Tail(Without(cs, o))| == 1 + |c| + |tail|;
        assert cs[0] != o;
      } else {
        assert (":" + c + struck)[|c| + 1..] == struck && (":" + c + tail)[|c| + 1..] == tail;
      }
    }
  }

  lemma {:induction false} EndsJoin(cs: seq<string>, o: string)
    requires cs != [] && Plain(cs) && ':' !in o
    ensures EndsWith(Join(cs), ":" + o) <==> |cs| >= 2 && cs[|cs| - 1] == o
  {
    var s, pat := Join(cs), ":" + o;
    if |cs| == 1 {
      assert s == cs[0];
      if EndsWith(s, pat) {
        SuffixHasColon(s, o);
      }
    } else {
      var rest := cs[1..];
      EndsJoin(rest, o);
      assert s == cs[0] + ":" + Join(rest);
      ColonOutside(cs[0], Join(rest), o);
      assert |rest| >= 2 ==> Join(rest)[|rest[0]|] == ':';
      assert rest[|rest| - 1] == cs[|cs| - 1];
    }
  }

  /** The suffix ":o" of a:b is the whole of ":b", or lies inside b. */
  lemma ColonOutside(a: string, b: string, o: string)
    requires ':' !in o
    ensures EndsWith(a + ":" + b, ":" + o) <==> b == o || EndsWith(b, ":" + o)
  {
    var s, pat := a + ":" + b, ":" + o;
    if |o| < |b| {
      assert s[|s| - |pat|..] == b[|b| - |pat|..];
    } else if |o| == |b| {
      assert s[|s| - |pat|..] == ":" + b;
      assert (":" + b)[1..] == b && pat[1..] == o;
    } else if |pat| <= |s| {
      var j := |o| - |b| - 1;
      assert s[|s| - |pat|..][j + 1] == s[|a|] == ':';
      assert pat[j + 1] == o[j] && o[j] in o;
    }
  }

  // ---- Names that do not start one another ------------------------------------------------------

  ghost predicate PrefixFree(overrides: seq<string>) {
    && Plain(overrides)
    && forall o, p :: o in overrides && p in overrides && StartsWith(p, o) ==> o == p
  }

  ghost predicate Joined(key: string, overrides: seq<string>) {
    exists cs: seq<string> :: cs != [] && (forall c :: c in cs ==> c in overrides) && key == Join(cs)
  }

  ghost predicate AllJoined(active: Active, overrides: seq<string>) {
    DistinctKeys(active) && forall k :: k in KeySet(active) ==> Joined(k, overrides)
  }

  /** None of these names starts another. */
  ghost predicate Clean(cs: seq<string>) {
    forall c, d :: c in cs && d in cs && StartsWith(c, d) ==> c == d
  }

  /** The names joined, apart from the first, do not start one another; other names in OVERRIDES may. */
  ghost predicate CleanlyJoined(key: string, overrides: seq<string>) {
    exists cs: seq<string> :: cs != [] && (forall c :: c in cs ==> c in overrides) && Clean(cs[1..]) && key == Join(cs)
  }

  ghost predicate AllClean(active: Active, overrides: seq<string>) {
    DistinctKeys(active) && forall k :: k in KeySet(active) ==> CleanlyJoined(k, overrides)
  }

  lemma PrefixFreeClean(key: string, overrides: seq<string>)
    requires PrefixFree(overrides) && Joined(key, overrides)
    ensures CleanlyJoined(key, overrides)
  {
    var cs: seq<string> :| cs != [] && (forall c :: c in cs ==> c in overrides) && key == Join(cs);
    assert Clean(cs[1..]);
  }

  predicate HasValue(active: Active, v: string) {
    exists e :: e in active && e.1 == v
  }

  /** r continues s: values only come from s, and a search that has something to offer keeps it. */
  ghost predicate Continues(s: Search, r: Search) {
    && (forall v :: HasValue(r.active, v) ==> HasValue(s.active, v))
    && (r.found == s.found || (r.found.Some? && HasValue(s.active, r.found.value)))
    && (s.found.Some? || s.active != [] ==> r.found.Some? || r.active != [])
  }

  lemma StripKeepsClean(key: string, o: string, overrides: seq<string>)
    requires Plain(overrides) && o in overrides && CleanlyJoined(key, overrides) && EndsWith(key, ":" + o)
    ensures CleanlyJoined(Erase(key, ":" + o), overrides)
  {
    var cs: seq<string> :|
      cs != [] && (forall c :: c in cs ==> c in overrides) && Clean(cs[1..]) && key == Join(cs);
    EndsJoin(cs, o);
    StripCleanly(cs, o);
    var kept := [cs[0]] + Without(cs[1..], o);
    assert kept[1..] == Without(cs[1..], o) && Clean(kept[1..]);
    assert forall c :: c in kept ==> c in overrides;
  }

  lemma StripCleanly(cs: seq<string>, o: string)
    requires |cs| >= 2 && Plain(cs) && ':' !in o && cs[|cs| - 1] == o && Clean(cs[1..])
    ensures Erase(Join(cs), ":" + o) == Join([cs[0]] + Without(cs[1..], o))
  {
    StripExact(cs, o);
    assert cs[1..][|cs| - 2] == o;
    forall i | 1 <= i < |cs| && StartsWith(cs[i], o) ensures cs[i] == o {
      assert cs[1..][i - 1] == cs[i];
    }
  }

  lemma VisitContinues(s: Search, o: string, a: string, overrides: seq<string>)
    requires Plain(overrides) && o in overrides && AllClean(s.active, overrides) && a in KeySet(s.active)
    ensures AllClean(Visit(s, o, a).active, overrides) && Continues(s, Visit(s, o, a))
  {
    if EndsWith(a, ":" + o) {
      StripKeepsClean(a, o, overrides);
    }
  }

  lemma {:induction false} VisitAllContinues(s: Search, o: string, snapshot: seq<string>, overrides: seq<string>)
    requires Plain(overrides) && o in overrides && AllClean(s.active, overrides)
    requires forall a :: a in snapshot ==> a in KeySet(s.active)
    requires forall i, j :: 0 <= i < j < |snapshot| ==> snapshot[i] != snapshot[j]
    ensures var r := VisitAll(s, o, snapshot);
            && AllClean(r.active, overrides) && Continues(s, r)
            && (!r.mod ==> !s.mod && KeySet(r.active) == KeySet(s.active) - (if o in snapshot then {o} else {}))
            && (!r.mod ==> forall a :: a in snapshot ==> !EndsWith(a, ":" + o))
    decreases |snapshot|
  {
    if snapshot != [] {
      var a := snapshot[0];
      VisitContinues(s, o, a, overrides);
      VisitAllContinues(Visit(s, o, a), o, snapshot[1..], overrides);
    }
  }

  lemma ContinuesTrans(s: Search, t: Search, r: Search)
    requires Continues(s, t) && Continues(t, r)
    ensures Continues(s, r)
  {
  }

  ghost predicate Untouched(keys: set<string>, o: string) {
    o !in keys && forall k :: k in keys ==> !EndsWith(k, ":" + o)
  }

  lemma {:induction false} PassContinues(s: Search, todo: seq<string>, overrides: seq<string>)
    requires Plain(overrides) && (forall o :: o in todo ==> o in overrides) && AllClean(s.active, overrides)
    ensures var r := Pass(s, todo);
            && AllClean(r.active, overrides) && Continues(s, r)
            && (!r.mod ==> !s.mod && KeySet(r.active) <= KeySet(s.active))
            && (!r.mod ==> forall o :: o in todo ==> Untouched(KeySet(r.active), o))
    decreases |todo|
  {
    if todo != [] {
      var t := VisitAll(s, todo[0], Keys(s.active));
      VisitAllContinues(s, todo[0], Keys(s.active), overrides);
      PassContinues(t, todo[1..], overrides);
      ContinuesTrans(s, t, Pass(s, todo));
    }
  }

  /** A joined key never survives a quiet pass: the override it ends with claims or strips it. */
  lemma TouchedBy(key: string, overrides: seq<string>) returns (o: string)
    requires Plain(overrides) && CleanlyJoined(key, overrides)
    ensures o in overrides && forall keys :: key in keys ==> !Untouched(keys, o)
  {
    var cs: seq<string> :|
      cs != [] && (forall c :: c in cs ==> c in overrides) && Clean(cs[1..]) && key == Join(cs);
    o := cs[|cs| - 1];
    EndsJoin(cs, o);
    assert |cs| == 1 ==> key == cs[0];
  }

  /** When no candidate joins names that start one another, the loop consumes every candidate, however many
    * overrides it joins, and finds a match, one of the candidates, exactly when there was one. */
  lemma {:induction false} CleanComplete(active: Active, found: Option<string>, overrides: seq<string>)
    requires Plain(overrides) && AllClean(active, overrides)
    ensures var r := Resolve(active, found, overrides);
            && r.active == []
            && (r.found.Some? <==> found.Some? || active != [])
            && (r.found == found || HasValue(active, r.found.value))
    decreases KeyLength(active)
  {
    var start := Search(active, found, false);
    var s := Pass(start, overrides);
    PassContinues(start, overrides, overrides);
    if s.mod {
      CleanComplete(s.active, s.found, overrides);
    } else if s.active != [] {
      var key := s.active[0].0;
      assert key in KeySet(s.active);
      var o := TouchedBy(key, overrides);
      assert false;
    }
  }

  lemma VisitOne(s: Search, o: string, key: string, value: string)
    requires s.active == [(key, value)]
    ensures Keys(s.active) == [key] && VisitAll(s, o, Keys(s.active)) == Visit(s, o, key)
  {
    assert Keys(s.active) == [key] && [key][1..] == [];
    var r := Visit(s, o, key);
    assert VisitAll(r, o, []) == r;
  }

  /** A key that matches no override survives every pass. */
  lemma {:induction false} Stuck(key: string, value: string, found: Option<string>, mod: bool, overrides: seq<string>)
    requires forall o :: o in overrides ==> Untouched({key}, o)
    ensures var s := Search([(key, value)], found, mod); Pass(s, overrides) == s
  {
    if overrides != [] {
      var s := Search([(key, value)], found, mod);
      VisitOne(s, overrides[0], key, value);
      assert key in {key} && Untouched({key}, overrides[0]);
      Stuck(key, value, found, mod, overrides[1..]);
    }
  }

  /** A pass over a single key that ends with ":o" strips o, and what is left stays when no override touches it. */
  lemma {:induction false} StripOnce(key: string, left: string, value: string, mod: bool, o: string,
                                     todo: seq<string>)
    requires EndsWith(key, ":" + o) && left == Erase(key, ":" + o) && (o in todo || mod)
    requires forall p :: p in todo ==> Untouched({left}, p) && p != key && (EndsWith(key, ":" + p) ==> p == o)
    ensures var s := Search([(if o in todo then left else key, value)], None, true);
            Pass(Search([(key, value)], None, mod), todo) == s
    decreases |todo|
  {
    if todo != [] {
      var s, p := Search([(key, value)], None, mod), todo[0];
      VisitOne(s, p, key, value);
      assert forall q :: q in todo <==> q == p || q in todo[1..];
      if p == o {
        assert Visit(s, p, key) == Search([(left, value)], None, true);
        Stuck(left, value, None, true, todo[1..]);
      } else {
        StripOnce(key, left, value, mod, o, todo[1..]);
      }
    }
  }

  lemma Longest(names: seq<string>) returns (c: string)
    requires names != []
    ensures c in names && forall d :: d in names ==> |d| <= |c|
  {
    c := names[0];
    for i := 1 to |names|
      invariant c in names && forall d :: d in names[..i] ==> |d| <= |c|
    {
      if |c| < |names[i]| {
        c := names[i];
      }
    }
  }

  lemma StruckPair(p: string, o: string)
    requires StartsWith(p, o)
    ensures Struck([p, o], o) == p[|o|..]
  {
    assert [p, o][1..] == [o] && [o][1..] == [] && o[|o|..] == "";
    assert Struck([o], o) == "";
  }

  lemma StripExtended(c: string, p: string, o: string)
    requires ':' !in c && ':' !in p && ':' !in o && StartsWith(p, o)
    ensures Erase(Join([c, p, o]), ":" + o) == c + p[|o|..]
  {
    var tail := Tail([p, o]);
    assert Join([c, p, o]) == c + tail by {
      assert [c, p, o][1..] == [p, o];
    }
    EraseSkips(c, tail, o);
    EraseTail([p, o], o);
    StruckPair(p, o);
  }

  /** When o starts another name p, a key c:p:o is stripped to c and the rest of p; it is lost unless that
    * happens to be an override. */
  lemma KeyIsLost(overrides: seq<string>, c: string, p: string, o: string, value: string)
    requires Plain(overrides) && o in overrides && ':' !in c && ':' !in p && StartsWith(p, o)
    requires c + p[|o|..] !in overrides
    ensures Resolve([(Join([c, p, o]), value)], None, overrides) == Search([(c + p[|o|..], value)], None, false)
  {
    var key, left := Join([c, p, o]), c + p[|o|..];
    StripExtended(c, p, o);
    forall q | q in overrides
      ensures Untouched({left}, q) && q != key && (EndsWith(key, ":" + q) ==> q == o)
    {
      EndsJoin([c, p, o], q);
      JoinColon([c, p, o]);
      if EndsWith(left, ":" + q) {
        SuffixHasColon(left, q);
      }
    }
    EndsJoin([c, p, o], o);
    StripOnce(key, left, value, false, o, overrides);
    Stuck(left, value, None, false, overrides);
  }

  lemma JoinColon(cs: seq<string>)
    requires |cs| > 1
    ensures ':' in Join(cs)
  {
    assert Join(cs)[|cs[0]|] == ':';
  }

  /** Every active override that joins names of OVERRIDES leads to a match. */
  ghost predicate AlwaysFound(overrides: seq<string>) {
    forall active :: AllJoined(active, overrides) && active != [] ==> Resolve(active, None, overrides).found.Some?
  }

  /** Active overrides are always found exactly when no name in OVERRIDES is a proper prefix of another. */
  lemma FoundExact(overrides: seq<string>)
    requires Plain(overrides)
    ensures AlwaysFound(overrides) <==> PrefixFree(overrides)
  {
    if PrefixFree(overrides) {
      forall active | AllJoined(active, overrides) && active != []
        ensures Resolve(active, None, overrides).found.Some?
      {
        forall k | k in KeySet(active) ensures CleanlyJoined(k, overrides) {
          PrefixFreeClean(k, overrides);
        }
        CleanComplete(active, None, overrides);
      }
    } else {
      var o, p :| o in overrides && p in overrides && StartsWith(p, o) && o != p;
      var c := Longest(overrides);
      var cs := [c, p, o];
      KeyIsLost(overrides, c, p, o, "");
      var active := [(Join(cs), "")];
      assert active[1..] == [] && KeySet(active) == {Join(cs)} && DistinctKeys(active);
      assert Joined(Join(cs), overrides);
      assert AllJoined(active, overrides);
    }
  }

  /** Stripping a off x:ab:a leaves xb, which is no override at all. */
  lemma StripMangles()
    ensures Erase(Join(["x", "ab", "a"]), ":" + "a") == "xb"
  {
    StripExtended("x", "ab", "a");
    assert "ab"[1..] == "b";
  }

  /** For example: x:ab:a is active, and the variable reads as if nothing were. */
  lemma ExtendedNameIsLost(overrides: seq<string>, value: string)
    requires overrides == ["a", "ab", "x"]
    ensures Resolve([(Join(["x", "ab", "a"]), value)], None, overrides) == Search([("xb", value)], None, false)
  {
    var c, p, o := "x", "ab", "a";
    assert overrides[0] == o && c + p[|o|..] == "xb";
    KeyIsLost(overrides, c, p, o, value);
  }
}

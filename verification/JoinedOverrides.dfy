/** Which of several joined overrides wins. Each pass of the override loop strips the last name off every key
  * whose turn it is; what becomes of a key is told by the moments at which that happens to it.
  */
module JoinedOverrides {
  import opened Common
  import opened OverrideResolution

  /** A moment of the loop: the pass, and the place in OVERRIDES. */
  datatype Time = Time(pass: nat, place: nat)
  {
    predicate Before(t: Time) {
      pass < t.pass || (pass == t.pass && place < t.place)
    }

    function Next(): Time {
      Time(pass, place + 1)
    }
  }

  /** When the loop comes to a name, from time t on. */
  function NextAt(overrides: seq<string>, o: string, t: Time): (e: Time)
    requires o in overrides && t.place <= |overrides|
    ensures e.place < |overrides| && overrides[e.place] == o && (e == t || t.Before(e))
  {
    if o in overrides[t.place..] then Time(t.pass, t.place + FirstIndex(overrides[t.place..], o))
    else Time(t.pass + 1, FirstIndex(overrides, o))
  }

  lemma FirstLater(x: string, rest: seq<string>, o: string)
    requires x != o
    ensures o in [x] + rest <==> o in rest
    ensures o in rest ==> FirstIndex([x] + rest, o) == 1 + FirstIndex(rest, o)
  {
    assert ([x] + rest)[1..] == rest && ([x] + rest)[0] == x;
  }

  lemma NextSkips(overrides: seq<string>, o: string, t: Time)
    requires o in overrides && t.place < |overrides| && overrides[t.place] != o
    ensures NextAt(overrides, o, t) == NextAt(overrides, o, t.Next())
  {
    assert overrides[t.place..] == [overrides[t.place]] + overrides[t.place + 1..];
    FirstLater(overrides[t.place], overrides[t.place + 1..], o);
  }

  lemma NextHere(overrides: seq<string>, o: string, t: Time)
    requires t.place < |overrides| && overrides[t.place] == o
    ensures NextAt(overrides, o, t) == t
  {
    assert overrides[t.place..][0] == o;
  }

  lemma NextPass(overrides: seq<string>, o: string, pass: nat)
    requires o in overrides
    ensures NextAt(overrides, o, Time(pass, |overrides|)) == NextAt(overrides, o, Time(pass + 1, 0))
  {
    assert overrides[|overrides|..] == [] && overrides[0..] == overrides;
  }

  // ---- The fate of a key ------------------------------------------------------------------------

  /** Names of OVERRIDES, each once, of which none but the first may be started by another. */
  ghost predicate IsParts(cs: seq<string>, overrides: seq<string>) {
    cs != [] && Distinct(cs) && (forall c :: c in cs ==> c in overrides) && Clean(cs[1..])
  }

  /** When the key made of these names is claimed, and, going back, when each name but the first is stripped. */
  ghost function Fate(cs: seq<string>, overrides: seq<string>, t: Time): seq<Time>
    requires cs != [] && (forall c :: c in cs ==> c in overrides) && t.place <= |overrides|
    decreases |cs|
  {
    var e := NextAt(overrides, cs[|cs| - 1], t);
    if |cs| == 1 then [e] else Fate(cs[..|cs| - 1], overrides, e.Next()) + [e]
  }

  ghost predicate Since(f: seq<Time>, t: Time) {
    forall e :: e in f ==> e == t || t.Before(e)
  }

  lemma {:induction false} FateSince(cs: seq<string>, overrides: seq<string>, t: Time)
    requires cs != [] && (forall c :: c in cs ==> c in overrides) && t.place <= |overrides|
    ensures Since(Fate(cs, overrides, t), t) && |Fate(cs, overrides, t)| == |cs|
    decreases |cs|
  {
    if |cs| > 1 {
      FateSince(cs[..|cs| - 1], overrides, NextAt(overrides, cs[|cs| - 1], t).Next());
    }
  }

  /** A fate belongs to one key only. */
  lemma {:induction false} FateNames(cs: seq<string>, overrides: seq<string>, t: Time)
    requires cs != [] && (forall c :: c in cs ==> c in overrides) && t.place <= |overrides|
    ensures var f := Fate(cs, overrides, t);
            |f| == |cs| && forall i :: 0 <= i < |f| ==> f[i].place < |overrides| && overrides[f[i].place] == cs[i]
    decreases |cs|
  {
    if |cs| > 1 {
      FateNames(cs[..|cs| - 1], overrides, NextAt(overrides, cs[|cs| - 1], t).Next());
    }
  }

  lemma FateSkips(cs: seq<string>, overrides: seq<string>, t: Time)
    requires cs != [] && (forall c :: c in cs ==> c in overrides) && t.place < |overrides|
    requires cs[|cs| - 1] != overrides[t.place]
    ensures Fate(cs, overrides, t) == Fate(cs, overrides, t.Next())
  {
    NextSkips(overrides, cs[|cs| - 1], t);
  }

  lemma FateStrips(cs: seq<string>, overrides: seq<string>, t: Time)
    requires cs != [] && (forall c :: c in cs ==> c in overrides) && t.place < |overrides|
    requires cs[|cs| - 1] == overrides[t.place]
    ensures Fate(cs, overrides, t) == if |cs| == 1 then [t] else Fate(cs[..|cs| - 1], overrides, t.Next()) + [t]
  {
    NextHere(overrides, cs[|cs| - 1], t);
  }

  lemma FatePass(cs: seq<string>, overrides: seq<string>, pass: nat)
    requires cs != [] && forall c :: c in cs ==> c in overrides
    ensures Fate(cs, overrides, Time(pass, |overrides|)) == Fate(cs, overrides, Time(pass + 1, 0))
  {
    NextPass(overrides, cs[|cs| - 1], pass);
  }

  // ---- Comparing fates --------------------------------------------------------------------------

  /** Claimed earlier; or claimed at the same time, and then the one that was stripped earlier or not at all. */
  predicate Less(f: seq<Time>, g: seq<Time>)
    decreases |g|
  {
    g != [] && (f == [] || f[0].Before(g[0]) || (f[0] == g[0] && Less(f[1..], g[1..])))
  }

  lemma {:induction false} LessTotal(f: seq<Time>, g: seq<Time>)
    requires f != g
    ensures Less(f, g) || Less(g, f)
    decreases |f|
  {
    if f != [] && g != [] && f[0] == g[0] {
      assert f == [f[0]] + f[1..] && g == [g[0]] + g[1..];
      LessTotal(f[1..], g[1..]);
    }
  }

  lemma {:induction false} LessTrans(f: seq<Time>, g: seq<Time>, h: seq<Time>)
    requires Less(f, g) && Less(g, h)
    ensures Less(f, h)
    decreases |f|
  {
    if f != [] && f[0] == g[0] == h[0] {
      LessTrans(f[1..], g[1..], h[1..]);
    }
  }

  /** An earlier event more makes a fate greater, but not greater than another that was greater. */
  lemma {:induction false} LessExtended(f: seq<Time>, e: Time, g: seq<Time>)
    requires Less(f + [e], g)
    ensures Less(f, g) && f != g
    decreases |f|
  {
    if f != [] {
      assert (f + [e])[1..] == f[1..] + [e] && (f + [e])[0] == f[0];
      if f[0] == g[0] {
        LessExtended(f[1..], e, g[1..]);
      }
    }
  }

  lemma NothingBelow(f: seq<Time>, t: Time)
    requires Since(f, t)
    ensures Less(f, [t]) ==> f == []
  {
    var one := [t];
    assert one[1..] == [];
    if f != [] {
      assert f[0] in f && !Less(f[1..], one[1..]);
    }
  }

  lemma {:induction false} LessShortened(f: seq<Time>, g: seq<Time>, t: Time)
    requires Less(f, g + [t]) && Since(f, t) && f != g
    ensures Less(f, g)
    decreases |g|
  {
    if g == [] {
      assert g + [t] == [t];
      NothingBelow(f, t);
    } else {
      assert (g + [t])[1..] == g[1..] + [t] && (g + [t])[0] == g[0];
      if f != [] && f[0] == g[0] {
        assert f == [f[0]] + f[1..] && g == [g[0]] + g[1..];
        LessShortened(f[1..], g[1..], t);
      }
    }
  }

  // ---- The keys ---------------------------------------------------------------------------------

  /** A key that joins names of OVERRIDES, none of them twice. */
  ghost predicate IsKey(k: string, overrides: seq<string>) {
    exists cs :: IsParts(cs, overrides) && k == Join(cs)
  }

  ghost function Parts(k: string, overrides: seq<string>): (cs: seq<string>)
    requires IsKey(k, overrides)
    ensures IsParts(cs, overrides) && k == Join(cs)
  {
    var cs :| IsParts(cs, overrides) && k == Join(cs); cs
  }

  lemma PartsOf(cs: seq<string>, overrides: seq<string>)
    requires Plain(overrides) && IsParts(cs, overrides)
    ensures IsKey(Join(cs), overrides) && Parts(Join(cs), overrides) == cs
  {
    assert IsKey(Join(cs), overrides);
    JoinInjective(Parts(Join(cs), overrides), cs);
  }

  ghost predicate AllKeys(active: Active, overrides: seq<string>) {
    DistinctKeys(active) && forall k :: k in KeySet(active) ==> IsKey(k, overrides)
  }

  ghost function FateOf(k: string, overrides: seq<string>, t: Time): seq<Time>
    requires IsKey(k, overrides) && t.place <= |overrides|
  {
    Fate(Parts(k, overrides), overrides, t)
  }

  lemma FateTells(k: string, l: string, overrides: seq<string>, t: Time, u: Time)
    requires IsKey(k, overrides) && IsKey(l, overrides) && t.place <= |overrides| && u.place <= |overrides|
    requires FateOf(k, overrides, t) == FateOf(l, overrides, u)
    ensures k == l
  {
    FateNames(Parts(k, overrides), overrides, t);
    FateNames(Parts(l, overrides), overrides, u);
    assert Parts(k, overrides) == Parts(l, overrides);
  }

  /** The fate of a key while the loop is at t: the keys in rest have not been looked at yet. */
  ghost function Coming(k: string, overrides: seq<string>, t: Time, rest: set<string>): seq<Time>
    requires IsKey(k, overrides) && t.place < |overrides|
  {
    FateOf(k, overrides, if k in rest then t else t.Next())
  }

  /** w has the greatest fate. */
  ghost predicate Leads(active: Active, overrides: seq<string>, t: Time, rest: set<string>, w: string)
    requires AllKeys(active, overrides) && t.place < |overrides|
  {
    w in KeySet(active)
    && forall k :: k in KeySet(active) && k != w ==>
         Less(Coming(k, overrides, t, rest), Coming(w, overrides, t, rest))
  }

  /** The search will find v. */
  ghost predicate Decided(s: Search, overrides: seq<string>, t: Time, rest: set<string>, v: string)
    requires AllKeys(s.active, overrides) && t.place < |overrides|
  {
    (s.active == [] && s.found == Some(v))
    || exists w :: Leads(s.active, overrides, t, rest, w) && Get(s.active, w) == v
  }

  // ---- One key ----------------------------------------------------------------------------------

  lemma {:induction false} WithoutLast(cs: seq<string>, o: string)
    requires Distinct(cs)
    ensures o !in cs ==> Without(cs, o) == cs
    ensures cs != [] && cs[|cs| - 1] == o ==> Without(cs, o) == cs[..|cs| - 1]
  {
    if cs != [] {
      WithoutLast(cs[1..], o);
      assert cs == [cs[0]] + cs[1..];
      if |cs| > 1 && cs[|cs| - 1] == o {
        assert cs[0] != o && cs[..|cs| - 1] == [cs[0]] + cs[1..][..|cs| - 2];
      }
    }
  }

  /** Stripping by text takes the last name off. */
  lemma StripsLast(cs: seq<string>, overrides: seq<string>, o: string)
    requires Plain(overrides) && IsParts(cs, overrides) && |cs| > 1 && cs[|cs| - 1] == o
    ensures var front := cs[..|cs| - 1];
            IsParts(front, overrides) && Erase(Join(cs), ":" + o) == Join(front)
  {
    StripCleanly(cs, o);
    assert cs[1..][|cs| - 2] == o;
    WithoutLast(cs[1..], o);
    var front := cs[..|cs| - 1];
    assert front == [cs[0]] + cs[1..][..|cs| - 2];
    assert forall c :: c in front[1..] ==> c in cs[1..];
  }

  /** The place of the loop: the search, the moment, and the keys that this moment has still to look at. */
  ghost predicate At(s: Search, overrides: seq<string>, t: Time, rest: set<string>) {
    Plain(overrides) && AllKeys(s.active, overrides) && t.place < |overrides| && rest <= KeySet(s.active)
  }

  lemma NoKeys(active: Active)
    ensures active == [] <==> KeySet(active) == {}
  {
    assert active != [] ==> active[0].0 in KeySet(active);
  }

  lemma Leader(s: Search, overrides: seq<string>, t: Time, rest: set<string>, v: string) returns (w: string)
    requires At(s, overrides, t, rest) && rest != {} && Decided(s, overrides, t, rest, v)
    ensures Leads(s.active, overrides, t, rest, w) && Get(s.active, w) == v
  {
    NoKeys(s.active);
    w :| Leads(s.active, overrides, t, rest, w) && Get(s.active, w) == v;
  }

  lemma ComingSince(k: string, overrides: seq<string>, t: Time, rest: set<string>)
    requires IsKey(k, overrides) && t.place < |overrides|
    ensures Since(Coming(k, overrides, t, rest), t) && Coming(k, overrides, t, rest) != []
  {
    FateSince(Parts(k, overrides), overrides, if k in rest then t else t.Next());
  }

  /** A key that this name does not touch. */
  lemma VisitSkips(s: Search, overrides: seq<string>, t: Time, rest: set<string>, a: string, v: string)
    requires At(s, overrides, t, rest) && a in rest && Decided(s, overrides, t, rest, v)
    requires Parts(a, overrides)[|Parts(a, overrides)| - 1] != overrides[t.place]
    ensures Visit(s, overrides[t.place], a) == s && Decided(s, overrides, t, rest - {a}, v)
  {
    var o, cs := overrides[t.place], Parts(a, overrides);
    EndsJoin(cs, o);
    if |cs| == 1 {
      assert a == cs[0];
    } else {
      JoinColon(cs);
    }
    FateSkips(cs, overrides, t);
    var w := Leader(s, overrides, t, rest, v);
    assert forall k :: k in KeySet(s.active) ==>
        Coming(k, overrides, t, rest - {a}) == Coming(k, overrides, t, rest);
    assert Leads(s.active, overrides, t, rest - {a}, w);
  }

  /** Nothing comes before a claim at this moment. */
  lemma ClaimedLast(active: Active, overrides: seq<string>, t: Time, rest: set<string>, a: string)
    requires AllKeys(active, overrides) && t.place < |overrides| && Leads(active, overrides, t, rest, a)
    requires Coming(a, overrides, t, rest) == [t]
    ensures KeySet(active) == {a}
  {
    forall k | k in KeySet(active) ensures k == a {
      ComingSince(k, overrides, t, rest);
      NothingBelow(Coming(k, overrides, t, rest), t);
    }
  }

  lemma ClaimIs(s: Search, o: string, a: string)
    requires DistinctKeys(s.active) && a in KeySet(s.active) && ':' !in o && a == Join([o])
    ensures a == o && Visit(s, o, a) == Search(Del(s.active, a), Some(Get(s.active, a)), s.mod)
  {
    EndsJoin([o], o);
  }

  lemma OtherLeads(before: Active, after: Active, overrides: seq<string>, t: Time, rest: set<string>, a: string,
                   w: string)
    requires AllKeys(before, overrides) && AllKeys(after, overrides) && t.place < |overrides|
    requires KeySet(after) == KeySet(before) - {a} && w != a && Leads(before, overrides, t, rest, w)
    ensures Leads(after, overrides, t, rest - {a}, w)
  {
    assert forall k :: k in KeySet(after) ==>
        Coming(k, overrides, t, rest - {a}) == Coming(k, overrides, t, rest);
  }

  /** A single name is claimed; if it leads it is the last key. */
  lemma VisitClaims(s: Search, overrides: seq<string>, t: Time, rest: set<string>, a: string, v: string)
    requires At(s, overrides, t, rest) && a in rest && Decided(s, overrides, t, rest, v)
    requires Parts(a, overrides) == [overrides[t.place]]
    ensures var r := Visit(s, overrides[t.place], a);
            At(r, overrides, t, rest - {a}) && Decided(r, overrides, t, rest - {a}, v)
  {
    var o := overrides[t.place];
    var r := Visit(s, o, a);
    ClaimIs(s, o, a);
    var w := Leader(s, overrides, t, rest, v);
    if w == a {
      FateStrips([o], overrides, t);
      ClaimedLast(s.active, overrides, t, rest, a);
      NoKeys(r.active);
    } else {
      GetAfterDel(s.active, a, w);
      OtherLeads(s.active, r.active, overrides, t, rest, a, w);
    }
  }

  /** What is left of a stripped key leads instead of it, or something else still does. */
  lemma StrippedLeads(before: Active, after: Active, overrides: seq<string>, t: Time, rest: set<string>, a: string,
                      key: string, w: string)
    requires AllKeys(before, overrides) && AllKeys(after, overrides) && t.place < |overrides| && Plain(overrides)
    requires a in KeySet(before) && KeySet(after) == KeySet(before) - {a} + {key} && a in rest && a != key
    requires Leads(before, overrides, t, rest, w)
    requires FateOf(a, overrides, t) == FateOf(key, overrides, t.Next()) + [t]
    requires FateOf(key, overrides, t) == FateOf(key, overrides, t.Next())
    ensures w == a ==> Leads(after, overrides, t, rest - {a}, key)
    ensures w != a ==> w != key && Leads(after, overrides, t, rest - {a}, w)
  {
    var left := FateOf(key, overrides, t.Next());
    if w == a {
      forall k | k in KeySet(after) && k != key
        ensures Less(Coming(k, overrides, t, rest - {a}), Coming(key, overrides, t, rest - {a}))
      {
        var f := Coming(k, overrides, t, rest);
        ComingSince(k, overrides, t, rest);
        if f == left {
          FateTells(k, key, overrides, if k in rest then t else t.Next(), t.Next());
        }
        LessShortened(f, left, t);
      }
    } else {
      LessExtended(left, t, Coming(w, overrides, t, rest));
      assert forall k :: k in KeySet(after) && k != key ==>
          Coming(k, overrides, t, rest - {a}) == Coming(k, overrides, t, rest);
    }
  }

  /** A joined key loses its last name; if it leads, what is left of it leads. */
  lemma VisitStrips(s: Search, overrides: seq<string>, t: Time, rest: set<string>, a: string, v: string)
    requires At(s, overrides, t, rest) && a in rest && Decided(s, overrides, t, rest, v)
    requires |Parts(a, overrides)| > 1 && Parts(a, overrides)[|Parts(a, overrides)| - 1] == overrides[t.place]
    ensures var r := Visit(s, overrides[t.place], a);
            At(r, overrides, t, rest - {a}) && Decided(r, overrides, t, rest - {a}, v)
  {
    var o, cs := overrides[t.place], Parts(a, overrides);
    var front := cs[..|cs| - 1];
    var key := Join(front);
    EndsJoin(cs, o);
    StripsLast(cs, overrides, o);
    PartsOf(front, overrides);
    FateStrips(cs, overrides, t);
    FateSkips(front, overrides, t);
    var r := Visit(s, o, a);
    var w := Leader(s, overrides, t, rest, v);
    StrippedLeads(s.active, r.active, overrides, t, rest, a, key, w);
    GetAfterPut(Del(s.active, a), key, Get(s.active, a), if w == a then key else w);
    if w != a {
      GetAfterDel(s.active, a, w);
    }
  }

  // ---- The loops --------------------------------------------------------------------------------

  lemma VisitDecides(s: Search, overrides: seq<string>, t: Time, rest: set<string>, a: string, v: string)
    requires At(s, overrides, t, rest) && a in rest && Decided(s, overrides, t, rest, v)
    ensures var r := Visit(s, overrides[t.place], a);
            At(r, overrides, t, rest - {a}) && Decided(r, overrides, t, rest - {a}, v)
  {
    var cs := Parts(a, overrides);
    if cs[|cs| - 1] != overrides[t.place] {
      VisitSkips(s, overrides, t, rest, a, v);
    } else if |cs| == 1 {
      VisitClaims(s, overrides, t, rest, a, v);
    } else {
      VisitStrips(s, overrides, t, rest, a, v);
    }
  }

  function Elements(ks: seq<string>): (r: set<string>)
    ensures forall k :: k in r <==> k in ks
  {
    set k | k in ks
  }

  lemma {:induction false} VisitAllDecides(s: Search, overrides: seq<string>, t: Time, snapshot: seq<string>, v: string)
    requires At(s, overrides, t, Elements(snapshot)) && Distinct(snapshot)
    requires Decided(s, overrides, t, Elements(snapshot), v)
    ensures var r := VisitAll(s, overrides[t.place], snapshot);
            At(r, overrides, t, {}) && Decided(r, overrides, t, {}, v)
    decreases |snapshot|
  {
    if snapshot == [] {
      assert Elements(snapshot) == {};
    } else {
      var a := snapshot[0];
      VisitDecides(s, overrides, t, Elements(snapshot), a, v);
      assert Elements(snapshot) - {a} == Elements(snapshot[1..]);
      VisitAllDecides(Visit(s, overrides[t.place], a), overrides, t, snapshot[1..], v);
    }
  }

  /** The search will find v, seen from the moment t at which no key has been looked at. */
  ghost predicate WillFind(s: Search, overrides: seq<string>, t: Time, v: string)
    requires AllKeys(s.active, overrides) && t.place <= |overrides|
  {
    (s.active == [] && s.found == Some(v))
    || exists w :: Last(KeySet(s.active), overrides, t, w) && Get(s.active, w) == v
  }

  /** Of these keys w is claimed last; of keys claimed at once, it was last to become what they had become. */
  ghost predicate Last(keys: set<string>, overrides: seq<string>, t: Time, w: string)
    requires (forall k :: k in keys ==> IsKey(k, overrides)) && t.place <= |overrides|
  {
    w in keys && forall k :: k in keys && k != w ==> Less(FateOf(k, overrides, t), FateOf(w, overrides, t))
  }

  lemma OverrideDecides(s: Search, overrides: seq<string>, t: Time, v: string)
    requires Plain(overrides) && AllKeys(s.active, overrides) && t.place < |overrides|
    requires WillFind(s, overrides, t, v)
    ensures var r := VisitAll(s, overrides[t.place], Keys(s.active));
            AllKeys(r.active, overrides) && WillFind(r, overrides, t.Next(), v)
  {
    var keys, o := Keys(s.active), overrides[t.place];
    assert Elements(keys) == KeySet(s.active);
    if s.active != [] {
      NoKeys(s.active);
      var w :| Last(KeySet(s.active), overrides, t, w) && Get(s.active, w) == v;
      assert Leads(s.active, overrides, t, Elements(keys), w);
    }
    VisitAllDecides(s, overrides, t, keys, v);
    var r := VisitAll(s, o, keys);
    if r.active != [] {
      NoKeys(r.active);
      var w :| Leads(r.active, overrides, t, {}, w) && Get(r.active, w) == v;
      assert Last(KeySet(r.active), overrides, t.Next(), w);
    }
  }

  lemma {:induction false} PassDecides(s: Search, overrides: seq<string>, t: Time, v: string)
    requires Plain(overrides) && AllKeys(s.active, overrides) && t.place <= |overrides|
    requires WillFind(s, overrides, t, v)
    ensures var r := Pass(s, overrides[t.place..]);
            AllKeys(r.active, overrides) && WillFind(r, overrides, Time(t.pass, |overrides|), v)
    decreases |overrides| - t.place
  {
    if t.place < |overrides| {
      OverrideDecides(s, overrides, t, v);
      assert overrides[t.place..][1..] == overrides[t.place + 1..];
      PassDecides(VisitAll(s, overrides[t.place], Keys(s.active)), overrides, t.Next(), v);
    }
  }

  lemma NewPass(s: Search, overrides: seq<string>, pass: nat, v: string)
    requires AllKeys(s.active, overrides) && WillFind(s, overrides, Time(pass, |overrides|), v)
    ensures WillFind(s, overrides, Time(pass + 1, 0), v)
  {
    if s.active != [] {
      NoKeys(s.active);
      var end, start := Time(pass, |overrides|), Time(pass + 1, 0);
      var w :| Last(KeySet(s.active), overrides, end, w) && Get(s.active, w) == v;
      forall k | k in KeySet(s.active) ensures FateOf(k, overrides, end) == FateOf(k, overrides, start) {
        FatePass(Parts(k, overrides), overrides, pass);
      }
      assert Last(KeySet(s.active), overrides, start, w);
    }
  }

  lemma {:induction false} ResolveDecides(active: Active, found: Option<string>, overrides: seq<string>, pass: nat,
                                          v: string)
    requires Plain(overrides) && AllKeys(active, overrides)
    requires WillFind(Search(active, found, false), overrides, Time(pass, 0), v)
    ensures Resolve(active, found, overrides).found == Some(v)
    decreases KeyLength(active)
  {
    var start := Search(active, found, false);
    var s := Pass(start, overrides);
    assert overrides[0..] == overrides;
    PassDecides(start, overrides, Time(pass, 0), v);
    if s.mod {
      NewPass(s, overrides, pass, v);
      ResolveDecides(s.active, s.found, overrides, pass + 1, v);
    } else {
      KeysClean(active, overrides);
      CleanComplete(active, found, overrides);
      NoKeys(s.active);
    }
  }

  lemma KeysClean(active: Active, overrides: seq<string>)
    requires AllKeys(active, overrides)
    ensures AllClean(active, overrides)
  {
    forall k | k in KeySet(active) ensures CleanlyJoined(k, overrides) {
      assert k == Join(Parts(k, overrides));
    }
  }

  const START := Time(0, 0)

  /** The candidate with the greatest fate is chosen. */
  lemma LastWins(active: Active, overrides: seq<string>, w: string)
    requires Plain(overrides) && AllKeys(active, overrides) && Last(KeySet(active), overrides, START, w)
    ensures Resolve(active, None, overrides).found == Some(Get(active, w))
  {
    ResolveDecides(active, None, overrides, 0, Get(active, w));
  }

  /** There is always one. */
  lemma {:induction false} LastExists(keys: set<string>, overrides: seq<string>) returns (w: string)
    requires keys != {} && forall k :: k in keys ==> IsKey(k, overrides)
    ensures Last(keys, overrides, START, w)
    decreases keys
  {
    w :| w in keys;
    if keys != {w} {
      var x := LastExists(keys - {w}, overrides);
      if Less(FateOf(w, overrides, START), FateOf(x, overrides, START)) {
        w := x;
      } else {
        NotLess(x, w, overrides);
        forall k | k in keys && k != w && k != x
          ensures Less(FateOf(k, overrides, START), FateOf(w, overrides, START))
        {
          LessTrans(FateOf(k, overrides, START), FateOf(x, overrides, START), FateOf(w, overrides, START));
        }
      }
    }
  }

  lemma NotLess(x: string, w: string, overrides: seq<string>)
    requires IsKey(x, overrides) && IsKey(w, overrides) && x != w
    requires !Less(FateOf(w, overrides, START), FateOf(x, overrides, START))
    ensures Less(FateOf(x, overrides, START), FateOf(w, overrides, START))
  {
    if FateOf(x, overrides, START) == FateOf(w, overrides, START) {
      FateTells(x, w, overrides, START, START);
    } else {
      LessTotal(FateOf(x, overrides, START), FateOf(w, overrides, START));
    }
  }

  /** With prefix-free names any different names make a key. */
  lemma PrefixFreeKey(cs: seq<string>, overrides: seq<string>)
    requires PrefixFree(overrides) && cs != [] && Distinct(cs) && forall c :: c in cs ==> c in overrides
    ensures IsKey(Join(cs), overrides)
  {
    assert IsParts(cs, overrides);
  }

  /** A single name is claimed in the first pass, where it first occurs. */
  lemma SingleFate(o: string, overrides: seq<string>)
    requires Plain(overrides) && o in overrides
    ensures IsKey(o, overrides) && FateOf(o, overrides, START) == [Time(0, FirstIndex(overrides, o))]
  {
    assert Join([o]) == o;
    PartsOf([o], overrides);
    assert overrides[0..] == overrides;
  }
}

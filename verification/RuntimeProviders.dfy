/** The runtime part of provider choice: preferences for other targets decide which recipe a runtime
  * dependency uses, and more than one such choice is reported as a conflict.
  */
module RuntimeProviders {
  import opened Common
  import opened Providers

  /** What the runtime filter looks at: the targets a recipe provides and PREFERRED_PROVIDER of each. */
  datatype Preferences = Preferences(targets: Pn -> seq<string>, provider: string -> Option<Pn>)

  /** The first preferred provider named by these targets that is eligible and not yet picked. */
  function Pick(eligible: seq<File>, c: DataCache, prefs: Preferences, targets: seq<string>, picked: seq<File>)
      : Option<File>
  {
    if targets == [] then None
    else
      var wish := prefs.provider(targets[0]);
      if wish.Some? && LastOf(eligible, c, wish.value).Some? && LastOf(eligible, c, wish.value).value !in picked then
        LastOf(eligible, c, wish.value)
      else Pick(eligible, c, prefs, targets[1..], picked)
  }

  /** pns[pn]: the last eligible file of a recipe. */
  function LastOf(eligible: seq<File>, c: DataCache, pn: Pn): (r: Option<File>)
    ensures r.Some? ==> r.value in eligible
  {
    if eligible == [] then None
    else if c.pkg_fn(eligible[|eligible| - 1]) == pn then Some(eligible[|eligible| - 1])
    else LastOf(eligible[..|eligible| - 1], c, pn)
  }

  function PickFor(eligible: seq<File>, c: DataCache, prefs: Preferences, p: File, picked: seq<File>): Option<File> {
    Pick(eligible, c, prefs, prefs.targets(c.pkg_fn(p)), picked)
  }

  lemma {:induction false} PickFits(eligible: seq<File>, c: DataCache, prefs: Preferences, targets: seq<string>,
                                    picked: seq<File>)
    ensures var r := Pick(eligible, c, prefs, targets, picked);
            r.Some? ==> r.value in eligible && r.value !in picked
  {
    if targets != [] {
      PickFits(eligible, c, prefs, targets[1..], picked);
    }
  }

  /** The picks made when these files are looked at in turn. */
  function Picks(eligible: seq<File>, c: DataCache, prefs: Preferences, looked: seq<File>): seq<File> {
    if looked == [] then []
    else
      var before := Picks(eligible, c, prefs, looked[..|looked| - 1]);
      var pick := PickFor(eligible, c, prefs, looked[|looked| - 1], before);
      if pick.Some? then before + [pick.value] else before
  }

  /** The place of the first file that picks anything; the length if none does. */
  function FirstPick(eligible: seq<File>, c: DataCache, prefs: Preferences, from: nat): (i: nat)
    requires from <= |eligible|
    ensures from <= i <= |eligible|
    ensures i < |eligible| ==> PickFor(eligible, c, prefs, eligible[i], []).Some?
    ensures forall j :: from <= j < i ==> PickFor(eligible, c, prefs, eligible[j], []).None?
    decreases |eligible| - from
  {
    if from == |eligible| || PickFor(eligible, c, prefs, eligible[from], []).Some? then from
    else FirstPick(eligible, c, prefs, from + 1)
  }

  /** All files but one: what is left to look at when the file at place i picks the one at place j. */
  function Skip(eligible: seq<File>, i: nat, j: nat): (r: seq<File>)
    requires i < |eligible| && j < |eligible|
    ensures i < |r| && r[..i + 1] == eligible[..i + 1]
  {
    if j > i then eligible[..j] + eligible[j + 1..]
    else if i + 1 < |eligible| then eligible[..i + 1] + eligible[i + 2..]
    else eligible
  }

  /** The files the loop looks at. It walks over a list from which the first pick is removed: if that stood
    * at the current place or before, the next file is passed over; otherwise the picked file is. */
  function Looked(eligible: seq<File>, c: DataCache, prefs: Preferences): seq<File> {
    var i := FirstPick(eligible, c, prefs, 0);
    if i == |eligible| then eligible
    else
      PickFits(eligible, c, prefs, prefs.targets(c.pkg_fn(eligible[i])), []);
      Skip(eligible, i, IndexOf(eligible, PickFor(eligible, c, prefs, eligible[i], []).value))
  }

  function Rest(eligible: seq<File>, picked: seq<File>): seq<File> {
    if eligible == [] then []
    else
      Rest(eligible[..|eligible| - 1], picked)
      + if eligible[|eligible| - 1] in picked then [] else [eligible[|eligible| - 1]]
  }

  function Reversed(s: seq<File>): seq<File> {
    if s == [] then [] else [s[|s| - 1]] + Reversed(s[..|s| - 1])
  }

  function Without(s: seq<File>, k: nat): seq<File>
    requires k < |s|
  {
    s[..k] + s[k + 1..]
  }

  lemma {:induction false} RestMembers(eligible: seq<File>, picked: seq<File>)
    ensures forall f :: f in Rest(eligible, picked) <==> f in eligible && f !in picked
  {
    if eligible != [] {
      RestMembers(eligible[..|eligible| - 1], picked);
      assert eligible == eligible[..|eligible| - 1] + [eligible[|eligible| - 1]];
    }
  }

  lemma {:induction false} RestNone(s: seq<File>, x: File)
    requires x !in s
    ensures Rest(s, [x]) == s
  {
    if s != [] {
      var front, last := s[..|s| - 1], s[|s| - 1];
      assert s == front + [last] && last in s;
      assert last !in [x] by {
        assert last != x;
      }
      RestNone(front, x);
      assert Rest(s, [x]) == Rest(front, [x]) + [last];
    }
  }

  lemma {:induction false} RestAppend(a: seq<File>, b: seq<File>, x: File)
    ensures Rest(a + b, [x]) == Rest(a, [x]) + Rest(b, [x])
  {
    if b == [] {
      assert a + b == a;
    } else {
      assert (a + b)[..|a + b| - 1] == a + b[..|b| - 1];
      RestAppend(a, b[..|b| - 1], x);
    }
  }

  lemma {:induction false} RestTwice(s: seq<File>, picked: seq<File>, x: File)
    ensures Rest(Rest(s, picked), [x]) == Rest(s, picked + [x])
  {
    if s != [] {
      var front, last := Rest(s[..|s| - 1], picked), s[|s| - 1];
      RestTwice(s[..|s| - 1], picked, x);
      if last !in picked {
        assert Rest(s, picked) == front + [last] && (front + [last])[..|front|] == front;
      } else {
        assert Rest(s, picked) == front;
      }
    }
  }

  lemma RestNext(front: seq<File>, last: File, x: File)
    ensures Rest(front + [last], [x]) == Rest(front, [x]) + if last == x then [] else [last]
  {
    assert (front + [last])[..|front|] == front;
    assert last in [x] <==> last == x;
  }

  lemma IndexNext(front: seq<File>, last: File, x: File)
    ensures x in front ==> IndexOf(front, x) < |front| && IndexOf(front + [last], x) == IndexOf(front, x)
    ensures x !in front && last == x ==> IndexOf(front + [last], x) == |front|
  {
    var s := front + [last];
    assert s[..|front|] == front;
    var k := IndexOf(front, x);
    assert k < |front| ==> front[k] in front;
  }

  /** Removing an element of a list without repetitions. */
  lemma {:induction false} WithoutIsRest(s: seq<File>, x: File)
    requires Distinct(s) && x in s
    ensures IndexOf(s, x) < |s| && Without(s, IndexOf(s, x)) == Rest(s, [x])
  {
    var front, last := s[..|s| - 1], s[|s| - 1];
    assert s == front + [last];
    RestNext(front, last, x);
    IndexNext(front, last, x);
    if last == x {
      assert x !in front;
      RestNone(front, x);
      assert Without(s, |front|) == front;
    } else {
      WithoutIsRest(front, x);
      var k := IndexOf(front, x);
      assert Without(s, k) == Without(front, k) + [last];
    }
  }

  lemma {:induction false} ReversedMembers(s: seq<File>)
    ensures |Reversed(s)| == |s| && forall f :: f in Reversed(s) <==> f in s
  {
    if s != [] {
      ReversedMembers(s[..|s| - 1]);
      assert s == s[..|s| - 1] + [s[|s| - 1]];
    }
  }

  /** Moving one more pick to the front. */
  lemma PickMoved(eligible: seq<File>, picked: seq<File>, x: File, live: seq<File>)
    requires x in eligible && x !in picked && Distinct(live)
    requires live == Reversed(picked) + Rest(eligible, picked)
    ensures IndexOf(live, x) < |live|
    ensures [x] + Without(live, IndexOf(live, x)) == Reversed(picked + [x]) + Rest(eligible, picked + [x])
    ensures Distinct([x] + Without(live, IndexOf(live, x)))
  {
    ReversedMembers(picked);
    RestMembers(eligible, picked);
    WithoutIsRest(live, x);
    RestAppend(Reversed(picked), Rest(eligible, picked), x);
    RestNone(Reversed(picked), x);
    RestTwice(eligible, picked, x);
    ReversedNext(picked, x, Rest(eligible, picked + [x]));
    FrontDistinct(live, IndexOf(live, x));
  }

  lemma ReversedNext(picked: seq<File>, x: File, rest: seq<File>)
    ensures [x] + (Reversed(picked) + rest) == Reversed(picked + [x]) + rest
  {
    assert (picked + [x])[..|picked|] == picked;
  }

  lemma FrontDistinct(s: seq<File>, k: nat)
    requires Distinct(s) && k < |s|
    ensures Distinct([s[k]] + Without(s, k))
  {
  }

  /** What the walked list offers from place idx on is what remains of looked. */
  ghost predicate Offers(walked: seq<File>, looked: seq<File>, idx: nat) {
    && (|walked| == |looked| || (idx == |looked| && |walked| < idx))
    && forall m :: idx <= m < |looked| ==> walked[m] == looked[m]
  }

  lemma SkipOffers(eligible: seq<File>, i: nat, j: nat)
    requires i < |eligible| && j < |eligible|
    ensures Offers(Without(eligible, j), Skip(eligible, i, j), i + 1)
  {
  }

  /** The picks so far when the files of looked before place idx have been looked at. */
  ghost predicate Walking(eligible: seq<File>, c: DataCache, prefs: Preferences, looked: seq<File>, idx: nat,
                          walked: seq<File>, picked: seq<File>) {
    && idx <= |looked|
    && picked == Picks(eligible, c, prefs, looked[..idx])
    && if picked == [] then walked == eligible && idx <= FirstPick(eligible, c, prefs, 0)
       else Offers(walked, looked, idx)
  }

  lemma LookedFront(eligible: seq<File>, c: DataCache, prefs: Preferences)
    ensures var looked, i := Looked(eligible, c, prefs), FirstPick(eligible, c, prefs, 0);
            && (i < |eligible| ==> i < |looked| && looked[..i + 1] == eligible[..i + 1])
            && (i == |eligible| ==> looked == eligible)
  {
  }

  lemma {:induction false} NoPicks(eligible: seq<File>, c: DataCache, prefs: Preferences, looked: seq<File>)
    requires forall m :: 0 <= m < |looked| ==> PickFor(eligible, c, prefs, looked[m], []).None?
    ensures Picks(eligible, c, prefs, looked) == []
  {
    if looked != [] {
      NoPicks(eligible, c, prefs, looked[..|looked| - 1]);
    }
  }

  lemma PicksNext(eligible: seq<File>, c: DataCache, prefs: Preferences, looked: seq<File>, idx: nat)
    requires idx < |looked|
    ensures Picks(eligible, c, prefs, looked[..idx + 1]) ==
            var before := Picks(eligible, c, prefs, looked[..idx]);
            var pick := PickFor(eligible, c, prefs, looked[idx], before);
            if pick.Some? then before + [pick.value] else before
  {
    assert looked[..idx + 1][..idx] == looked[..idx];
  }

  /** The first pick takes the picked file out of the list that is walked over. */
  lemma FirstPickWalks(eligible: seq<File>, c: DataCache, prefs: Preferences, idx: nat)
    requires idx == FirstPick(eligible, c, prefs, 0) < |eligible|
    ensures var x := PickFor(eligible, c, prefs, eligible[idx], []).value;
            var looked, k := Looked(eligible, c, prefs), IndexOf(eligible, x);
            && k < |eligible| && idx < |looked|
            && looked[..idx + 1] == eligible[..idx + 1]
            && Walking(eligible, c, prefs, looked, idx + 1, Without(eligible, k), [x])
  {
    var x := PickFor(eligible, c, prefs, eligible[idx], []).value;
    PickFits(eligible, c, prefs, prefs.targets(c.pkg_fn(eligible[idx])), []);
    var looked, k := Looked(eligible, c, prefs), IndexOf(eligible, x);
    SkipOffers(eligible, idx, k);
    NoPicks(eligible, c, prefs, looked[..idx]);
    PicksNext(eligible, c, prefs, looked, idx);
    assert looked[idx] == looked[..idx + 1][idx] == eligible[..idx + 1][idx] == eligible[idx];
  }

  /** The list as it should be after these picks. */
  ghost predicate Led(live: seq<File>, eligible: seq<File>, picked: seq<File>) {
    live == Reversed(picked) + Rest(eligible, picked) && Distinct(live)
  }

  /** eligible.remove(x), which changes the list, and eligible = [x] + eligible, which makes another. */
  method MoveToFront(list: ListObject<File>, x: File, ghost eligible: seq<File>, ghost picked: seq<File>)
      returns (next: ListObject<File>)
    requires Led(list.items, eligible, picked) && x in eligible && x !in picked
    modifies list
    ensures IndexOf(old(list.items), x) < |old(list.items)|
    ensures list.items == Without(old(list.items), IndexOf(old(list.items), x))
    ensures fresh(next) && Led(next.items, eligible, picked + [x])
  {
    PickMoved(eligible, picked, x, list.items);
    list.items := Without(list.items, IndexOf(list.items, x));
    next := new ListObject<File>([x] + list.items);
  }

  /** One turn of the loop. */
  method LookAt(walked: ListObject<File>, live0: ListObject<File>, idx: nat, eligible0: seq<File>, c: DataCache,
                prefs: Preferences, preferred0: seq<File>) returns (live: ListObject<File>, preferred: seq<File>)
    requires idx < |walked.items| && Led(live0.items, eligible0, preferred0) && (live0 == walked <==> preferred0 == [])
    requires Walking(eligible0, c, prefs, Looked(eligible0, c, prefs), idx, walked.items, preferred0)
    modifies live0
    ensures Walking(eligible0, c, prefs, Looked(eligible0, c, prefs), idx + 1, walked.items, preferred)
    ensures Led(live.items, eligible0, preferred) && (live == walked <==> preferred == [])
    ensures (live == live0 || fresh(live)) && |walked.items| <= old(|walked.items|)
  {
    live, preferred := live0, preferred0;
    var pick := PickFor(eligible0, c, prefs, walked.items[idx], preferred);
    StepWalks(eligible0, c, prefs, Looked(eligible0, c, prefs), idx, walked.items, preferred);
    if pick.Some? {
      PickFits(eligible0, c, prefs, prefs.targets(c.pkg_fn(walked.items[idx])), preferred);
      live := MoveToFront(live, pick.value, eligible0, preferred);
      preferred := preferred + [pick.value];
    }
  }

  /** The part of filterProvidersRunTime that infers a provider from PREFERRED_PROVIDER: the picks in turn go
    * to the front, so that the last one leads, and the others keep their order. */
  method InferPreferred(eligible0: seq<File>, c: DataCache, prefs: Preferences)
      returns (eligible: seq<File>, preferred: seq<File>)
    requires Distinct(eligible0)
    ensures preferred == Picks(eligible0, c, prefs, Looked(eligible0, c, prefs))
    ensures Led(eligible, eligible0, preferred)
  {
    var walked := new ListObject<File>(eligible0);
    var live := walked;
    preferred := [];
    var idx := 0;
    WalkStarts(eligible0, c, prefs);
    while idx < |walked.items|
      invariant Walking(eligible0, c, prefs, Looked(eligible0, c, prefs), idx, walked.items, preferred)
      invariant Led(live.items, eligible0, preferred) && (live == walked <==> preferred == [])
      invariant fresh(live) && fresh(walked) && |walked.items| <= |eligible0|
      decreases |eligible0| - idx
    {
      live, preferred := LookAt(walked, live, idx, eligible0, c, prefs, preferred);
      idx := idx + 1;
    }
    WalkEnds(eligible0, c, prefs, idx, walked.items, preferred);
    eligible := live.items;
  }

  lemma WalkStarts(eligible: seq<File>, c: DataCache, prefs: Preferences)
    requires Distinct(eligible)
    ensures Walking(eligible, c, prefs, Looked(eligible, c, prefs), 0, eligible, []) && Led(eligible, eligible, [])
  {
    RestAll(eligible);
    LookedFront(eligible, c, prefs);
  }

  lemma WalkEnds(eligible: seq<File>, c: DataCache, prefs: Preferences, idx: nat, walked: seq<File>, picked: seq<File>)
    requires Walking(eligible, c, prefs, Looked(eligible, c, prefs), idx, walked, picked) && |walked| <= idx
    ensures picked == Picks(eligible, c, prefs, Looked(eligible, c, prefs))
  {
    var looked := Looked(eligible, c, prefs);
    LookedFront(eligible, c, prefs);
    assert looked[..|looked|] == looked;
  }

  lemma {:induction false} RestAll(eligible: seq<File>)
    ensures Reversed([]) + Rest(eligible, []) == eligible
  {
    if eligible != [] {
      RestAll(eligible[..|eligible| - 1]);
    }
  }

  lemma StepWalks(eligible: seq<File>, c: DataCache, prefs: Preferences, looked: seq<File>, idx: nat,
                  walked: seq<File>, picked: seq<File>)
    requires looked == Looked(eligible, c, prefs) && Walking(eligible, c, prefs, looked, idx, walked, picked)
    requires idx < |walked|
    ensures var pick := PickFor(eligible, c, prefs, walked[idx], picked);
            if pick.None? then Walking(eligible, c, prefs, looked, idx + 1, walked, picked)
            else Walking(eligible, c, prefs, looked, idx + 1,
                         if picked == [] && IndexOf(walked, pick.value) < |walked|
                         then Without(walked, IndexOf(walked, pick.value)) else walked, picked + [pick.value])
  {
    if picked != [] {
      LaterStepWalks(eligible, c, prefs, looked, idx, walked, picked);
    } else if idx == FirstPick(eligible, c, prefs, 0) {
      FirstPickWalks(eligible, c, prefs, idx);
    } else {
      EarlyStepWalks(eligible, c, prefs, looked, idx);
    }
  }

  lemma EarlyStepWalks(eligible: seq<File>, c: DataCache, prefs: Preferences, looked: seq<File>, idx: nat)
    requires looked == Looked(eligible, c, prefs) && Walking(eligible, c, prefs, looked, idx, eligible, [])
    requires idx < |eligible| && idx < FirstPick(eligible, c, prefs, 0)
    ensures PickFor(eligible, c, prefs, eligible[idx], []).None?
    ensures Walking(eligible, c, prefs, looked, idx + 1, eligible, [])
  {
    LookedFront(eligible, c, prefs);
    var i := FirstPick(eligible, c, prefs, 0);
    assert i < |eligible| ==> looked[idx] == looked[..i + 1][idx] == eligible[..i + 1][idx];
    PicksNext(eligible, c, prefs, looked, idx);
  }

  lemma LaterStepWalks(eligible: seq<File>, c: DataCache, prefs: Preferences, looked: seq<File>, idx: nat,
                       walked: seq<File>, picked: seq<File>)
    requires Walking(eligible, c, prefs, looked, idx, walked, picked) && picked != [] && idx < |walked|
    ensures var pick := PickFor(eligible, c, prefs, walked[idx], picked);
            Walking(eligible, c, prefs, looked, idx + 1, walked,
                    if pick.Some? then picked + [pick.value] else picked)
  {
    PicksNext(eligible, c, prefs, looked, idx);
  }

  lemma {:induction false} PicksInside(eligible: seq<File>, c: DataCache, prefs: Preferences, looked: seq<File>)
    ensures Distinct(Picks(eligible, c, prefs, looked))
    ensures forall f :: f in Picks(eligible, c, prefs, looked) ==> f in eligible
  {
    if looked != [] {
      var before := Picks(eligible, c, prefs, looked[..|looked| - 1]);
      PicksInside(eligible, c, prefs, looked[..|looked| - 1]);
      PickFits(eligible, c, prefs, prefs.targets(c.pkg_fn(looked[|looked| - 1])), before);
    }
  }

  lemma LedMembers(live: seq<File>, eligible: seq<File>, picked: seq<File>)
    requires Led(live, eligible, picked) && forall f :: f in picked ==> f in eligible
    ensures forall f :: f in live <==> f in eligible
  {
    ReversedMembers(picked);
    RestMembers(eligible, picked);
  }

  /** What comes out is a reordering of what goes in. A preference for the runtime target decides alone; else
    * the count is that of the picks, and a count above one is reported as a conflict. */
  method FilterProvidersRunTime(eligible0: seq<File>, prefervar: string, c: DataCache, prefs: Preferences)
      returns (eligible: seq<File>, numberPreferred: nat)
    requires Distinct(eligible0)
    ensures Distinct(eligible) && forall f :: f in eligible <==> f in eligible0
    ensures if prefervar != "" && (exists p :: p in eligible0 && c.pkg_fn(p) == prefervar)
            then numberPreferred == 1 && eligible != [] && c.pkg_fn(eligible[0]) == prefervar
            else numberPreferred == |Picks(eligible0, c, prefs, Looked(eligible0, c, prefs))|
                 && Led(eligible, eligible0, Picks(eligible0, c, prefs, Looked(eligible0, c, prefs)))
  {
    if prefervar != "" {
      var k := FindRecipe(eligible0, c, prefervar);
      if k < |eligible0| {
        assert IndexOf(eligible0, eligible0[k]) == k && eligible0[k] in eligible0;
        eligible := Front(eligible0, k);
        return eligible, 1;
      }
      assert forall p :: p in eligible0 ==> c.pkg_fn(p) != prefervar;
    }
    var preferred;
    eligible, preferred := InferPreferred(eligible0, c, prefs);
    PicksInside(eligible0, c, prefs, Looked(eligible0, c, prefs));
    LedMembers(eligible, eligible0, preferred);
    numberPreferred := |preferred|;
  }

  // ---- The file that is passed over -------------------------------------------------------------

  lemma {:induction false} PassOver(eligible: seq<File>, c: DataCache, prefs: Preferences, a: seq<File>, d: File,
                                    b: seq<File>)
    requires PickFor(eligible, c, prefs, d, Picks(eligible, c, prefs, a)).None?
    ensures Picks(eligible, c, prefs, a + [d] + b) == Picks(eligible, c, prefs, a + b)
  {
    if b == [] {
      assert a + [d] + b == a + [d] && (a + [d])[..|a|] == a && a + b == a;
    } else {
      var front := b[..|b| - 1];
      PassOver(eligible, c, prefs, a, d, front);
      assert (a + [d] + b)[..|a + [d] + b| - 1] == a + [d] + front;
      assert (a + b)[..|a + b| - 1] == a + front;
    }
  }

  /** The place of the file the loop does not look at; the length if it looks at all. */
  function PassedOver(eligible: seq<File>, c: DataCache, prefs: Preferences): (p: nat)
    ensures p <= |eligible|
  {
    var i := FirstPick(eligible, c, prefs, 0);
    if i == |eligible| then |eligible|
    else
      var j := IndexOf(eligible, PickFor(eligible, c, prefs, eligible[i], []).value);
      if i < j then j else i + 1
  }

  /** The count is right if the file that is passed over would not have picked anything. */
  lemma PassedOverHarmless(eligible: seq<File>, c: DataCache, prefs: Preferences)
    requires var p := PassedOver(eligible, c, prefs);
             p < |eligible| ==>
               PickFor(eligible, c, prefs, eligible[p], Picks(eligible, c, prefs, eligible[..p])).None?
    ensures Picks(eligible, c, prefs, Looked(eligible, c, prefs)) == Picks(eligible, c, prefs, eligible)
  {
    var p := PassedOver(eligible, c, prefs);
    LookedIs(eligible, c, prefs);
    if p < |eligible| {
      var a, d, b := eligible[..p], eligible[p], eligible[p + 1..];
      PassOver(eligible, c, prefs, a, d, b);
      assert eligible == a + [d] + b;
    }
  }

  lemma SkipIs(eligible: seq<File>, i: nat, j: nat)
    requires i < |eligible| && j < |eligible|
    ensures var p := if i < j then j else i + 1;
            if p == |eligible| then Skip(eligible, i, j) == eligible
            else Skip(eligible, i, j) == eligible[..p] + eligible[p + 1..]
                 && eligible == eligible[..p] + [eligible[p]] + eligible[p + 1..]
  {
  }

  /** None of these files picks anything besides x. */
  ghost predicate Idle(eligible: seq<File>, c: DataCache, prefs: Preferences, files: seq<File>, x: File) {
    forall f :: f in files ==> PickFor(eligible, c, prefs, f, [x]).None?
  }

  /** After a single pick x, a list gives more than one pick exactly when a later file picks besides x. */
  lemma {:induction false} OnePick(eligible: seq<File>, c: DataCache, prefs: Preferences, a: seq<File>, b: seq<File>,
                                   x: File)
    requires Picks(eligible, c, prefs, a) == [x]
    ensures |Picks(eligible, c, prefs, a + b)| >= 1
    ensures Idle(eligible, c, prefs, b, x) <==> Picks(eligible, c, prefs, a + b) == [x]
    ensures |Picks(eligible, c, prefs, a + b)| == 1 ==> Picks(eligible, c, prefs, a + b) == [x]
  {
    if b == [] {
      assert a + b == a;
    } else {
      var front, last := b[..|b| - 1], b[|b| - 1];
      assert (a + b)[..|a + b| - 1] == a + front && b == front + [last];
      OnePick(eligible, c, prefs, a, front, x);
    }
  }

  /** A conflict is reported when there is more than one pick. */
  predicate Conflict(picks: seq<File>) {
    |picks| > 1
  }

  lemma PicksUpToFirst(eligible: seq<File>, c: DataCache, prefs: Preferences)
    requires FirstPick(eligible, c, prefs, 0) < |eligible|
    ensures var i := FirstPick(eligible, c, prefs, 0);
            Picks(eligible, c, prefs, eligible[..i + 1]) == [PickFor(eligible, c, prefs, eligible[i], []).value]
  {
    var i := FirstPick(eligible, c, prefs, 0);
    NoPicks(eligible, c, prefs, eligible[..i]);
    PicksNext(eligible, c, prefs, eligible, i);
  }

  /** A conflict goes unreported exactly when the file that is passed over would have picked besides the
    * first pick, and no other file after the first pick would. */
  lemma MissedExact(eligible: seq<File>, c: DataCache, prefs: Preferences)
    ensures var i, p := FirstPick(eligible, c, prefs, 0), PassedOver(eligible, c, prefs);
            Conflict(Picks(eligible, c, prefs, eligible))
            && !Conflict(Picks(eligible, c, prefs, Looked(eligible, c, prefs))) <==>
            i < p < |eligible|
            && var x := PickFor(eligible, c, prefs, eligible[i], []).value;
               && PickFor(eligible, c, prefs, eligible[p], [x]).Some?
               && Idle(eligible, c, prefs, eligible[i + 1..p] + eligible[p + 1..], x)
  {
    var i, p := FirstPick(eligible, c, prefs, 0), PassedOver(eligible, c, prefs);
    LookedIs(eligible, c, prefs);
    if i == |eligible| {
      NoPicks(eligible, c, prefs, eligible);
    } else if p < |eligible| {
      PicksUpToFirst(eligible, c, prefs);
      MissedAt(eligible, c, prefs, i, p, PickFor(eligible, c, prefs, eligible[i], []).value);
    }
  }

  /** What is looked at, by the file that is passed over. */
  lemma LookedIs(eligible: seq<File>, c: DataCache, prefs: Preferences)
    ensures var i, p := FirstPick(eligible, c, prefs, 0), PassedOver(eligible, c, prefs);
            && (i < |eligible| ==> i < p)
            && Looked(eligible, c, prefs) == if p < |eligible| then eligible[..p] + eligible[p + 1..] else eligible
  {
    var i := FirstPick(eligible, c, prefs, 0);
    if i < |eligible| {
      PickFits(eligible, c, prefs, prefs.targets(c.pkg_fn(eligible[i])), []);
      SkipIs(eligible, i, IndexOf(eligible, PickFor(eligible, c, prefs, eligible[i], []).value));
    }
  }

  lemma MissedAt(eligible: seq<File>, c: DataCache, prefs: Preferences, i: nat, p: nat, x: File)
    requires i < p < |eligible| && Picks(eligible, c, prefs, eligible[..i + 1]) == [x]
    ensures var looked, others := eligible[..p] + eligible[p + 1..], eligible[i + 1..p] + eligible[p + 1..];
            Conflict(Picks(eligible, c, prefs, eligible)) && !Conflict(Picks(eligible, c, prefs, looked)) <==>
            PickFor(eligible, c, prefs, eligible[p], [x]).Some? && Idle(eligible, c, prefs, others, x)
  {
    var a, rest, others := eligible[..i + 1], eligible[i + 1..], eligible[i + 1..p] + eligible[p + 1..];
    assert a + rest == eligible && a + others == eligible[..p] + eligible[p + 1..];
    OnePick(eligible, c, prefs, a, rest, x);
    OnePick(eligible, c, prefs, a, others, x);
    assert rest == eligible[i + 1..p] + [eligible[p]] + eligible[p + 1..];
    assert forall f :: f in rest <==> f in others || f == eligible[p];
  }

  /** Two recipes, each the preferred provider of something the runtime target's other provider does not
    * offer: that is a conflict, but the second is passed over and none is reported. */
  lemma ConflictMissed() returns (eligible: seq<File>, c: DataCache, prefs: Preferences)
    ensures Distinct(eligible)
    ensures |Picks(eligible, c, prefs, eligible)| == 2
    ensures |Picks(eligible, c, prefs, Looked(eligible, c, prefs))| == 1
  {
    eligible := ["a", "b"];
    c := DataCache((f: File) => if f == "a" then "A" else "B", (f: File) => 0, (f: File) => 0,
                   (f: File) => ("", "", ""));
    prefs := Preferences((pn: Pn) => if pn == "A" then ["v"] else ["w"],
                         (t: string) => if t == "v" then Some("A") else Some("B"));
    assert eligible[..1] == ["a"] && ["a"][..0] == [];
    assert LastOf(["a"], c, "A") == Some("a");
    assert LastOf(eligible, c, "A") == Some("a") && LastOf(eligible, c, "B") == Some("b");
    assert PickFor(eligible, c, prefs, "a", []) == Some("a");
    assert PickFor(eligible, c, prefs, "b", ["a"]) == Some("b");
    assert Picks(eligible, c, prefs, ["a"]) == ["a"];
    assert Picks(eligible, c, prefs, eligible) == ["a", "b"];
    assert IndexOf(eligible, "a") == 0;
    assert Looked(eligible, c, prefs) == ["a"];
  }
}

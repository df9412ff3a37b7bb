/** The difference between the file checksums of two signature files. */
module ChecksumDiff {
  import opened Common

  /** A file name and its checksum; either list may name a file more than once. */
  type Entry = (string, string)

  datatype Change = Change(file: string, was: string, now: string)

  function Names(s: seq<Entry>): seq<string> {
    seq(|s|, i requires 0 <= i < |s| => s[i].0)
  }

  function Was(changed: seq<Change>): seq<Entry> {
    seq(|changed|, i requires 0 <= i < |changed| => (changed[i].file, changed[i].was))
  }

  function Now(changed: seq<Change>): seq<Entry> {
    seq(|changed|, i requires 0 <= i < |changed| => (changed[i].file, changed[i].now))
  }

  lemma {:induction false} TimesCounts(s: seq<Entry>, x: Entry)
    ensures Times(s, x) == multiset(s)[x]
  {
    if s != [] {
      TimesCounts(s[..|s| - 1], x);
      assert s == s[..|s| - 1] + [s[|s| - 1]];
    }
  }

  /** How often x is in a beyond what is in b. */
  ghost function Surplus(a: seq<Entry>, b: seq<Entry>, x: Entry): nat {
    if Times(a, x) > Times(b, x) then Times(a, x) - Times(b, x) else 0
  }

  /** Counter(a) with b subtracted. */
  function Counted(a: seq<Entry>, b: seq<Entry>): map<Entry, int> {
    map x | x in a :: var d: int := Times(a, x) - Times(b, x); d
  }

  lemma TimesAppend(s: seq<Entry>, e: Entry)
    ensures forall x :: Times(s + [e], x) == Times(s, x) + if e == x then 1 else 0
  {
    assert (s + [e])[..|s|] == s;
  }

  lemma TimesNext(s: seq<Entry>, i: nat)
    requires i < |s|
    ensures forall x :: Times(s[..i + 1], x) == Times(s[..i], x) + if s[i] == x then 1 else 0
    ensures Times(s[..i + 1], s[i]) <= Times(s, s[i])
  {
    assert s[..i + 1] == s[..i] + [s[i]];
    TimesAppend(s[..i], s[i]);
    assert s == s[..i + 1] + s[i + 1..];
    TimesCounts(s, s[i]);
    TimesCounts(s[..i + 1], s[i]);
  }

  function Less(m: nat, n: nat): nat {
    if m < n then m else n
  }

  /** The entries of b that a lacks: the first occurrences of each. */
  method TakeSurplus(b: seq<Entry>, a: seq<Entry>) returns (added: seq<Entry>)
    ensures forall x :: Times(added, x) == Surplus(b, a, x)
  {
    var count := Counted(b, a);
    added := [];
    var i := 0;
    while i < |b|
      invariant i <= |b| && count.Keys == Counted(b, a).Keys
      invariant forall x :: Times(added, x) == Less(Times(b[..i], x), Surplus(b, a, x))
      invariant forall x :: x in count ==> count[x] == Times(b, x) - Times(a, x) - Times(added, x)
    {
      var x := b[i];
      TimesNext(b, i);
      TimesAppend(added, x);
      if count[x] > 0 {
        count := count[x := count[x] - 1];
        added := added + [x];
      }
      i := i + 1;
    }
    assert b[..|b|] == b;
  }

  /** The place of the first entry for a file; the length if there is none. */
  method FindFile(added: seq<Entry>, file: string) returns (k: nat)
    ensures k <= |added|
    ensures k < |added| ==> added[k].0 == file
    ensures k == |added| ==> forall y :: y in added ==> y.0 != file
  {
    k := 0;
    while k < |added| && added[k].0 != file
      invariant k <= |added|
      invariant forall j :: 0 <= j < k ==> added[j].0 != file
    {
      k := k + 1;
    }
  }

  lemma Without(s: seq<Entry>, k: nat)
    requires k < |s|
    ensures forall x :: Times(s[..k] + s[k + 1..], x) == Times(s, x) - if s[k] == x then 1 else 0
  {
    assert s == s[..k] + [s[k]] + s[k + 1..];
    forall x ensures Times(s[..k] + s[k + 1..], x) == Times(s, x) - if s[k] == x then 1 else 0 {
      TimesCounts(s, x);
      TimesCounts(s[..k] + s[k + 1..], x);
    }
  }

  /** How often x is reported as removed or as the old side of a change. */
  function Gone(changed: seq<Change>, removed: seq<Entry>, x: Entry): nat {
    Times(removed, x) + Times(Was(changed), x)
  }

  /** How often x is reported as added or as the new side of a change. */
  function Come(changed: seq<Change>, added: seq<Entry>, x: Entry): nat {
    Times(added, x) + Times(Now(changed), x)
  }

  /** Which entries are left over on the two sides, and which are paired. */
  ghost predicate Accounted(a: seq<Entry>, b: seq<Entry>, changed: seq<Change>, added: seq<Entry>,
                          removed: seq<Entry>) {
    && (forall x :: Gone(changed, removed, x) == Surplus(a, b, x))
    && (forall x :: Come(changed, added, x) == Surplus(b, a, x))
    && Apart(added, removed)
  }

  ghost predicate Apart(added: seq<Entry>, removed: seq<Entry>) {
    forall x, y :: x in removed && y in added ==> x.0 != y.0
  }

  /** Pairs one entry of a with the first added entry for its file, or reports it as removed. */
  method Place(x: Entry, changed0: seq<Change>, added0: seq<Entry>, removed0: seq<Entry>)
      returns (changed: seq<Change>, added: seq<Entry>, removed: seq<Entry>)
    requires Apart(added0, removed0)
    ensures forall z :: Gone(changed, removed, z) == Gone(changed0, removed0, z) + if x == z then 1 else 0
    ensures forall z :: Come(changed, added, z) == Come(changed0, added0, z)
    ensures Apart(added, removed)
  {
    changed, added, removed := changed0, added0, removed0;
    var k := FindFile(added, x.0);
    if k < |added| {
      var y := added[k];
      Without(added, k);
      changed := changed + [Change(x.0, x.1, y.1)];
      added := added[..k] + added[k + 1..];
      assert Was(changed) == Was(changed0) + [x];
      assert Now(changed) == Now(changed0) + [y];
      TimesAppend(Was(changed0), x);
      TimesAppend(Now(changed0), y);
    } else {
      removed := removed + [x];
      TimesAppend(removed0, x);
    }
  }

  /** The loop over a after the entries in seen: count holds what is still to be reported of each. */
  ghost predicate Halfway(a: seq<Entry>, b: seq<Entry>, seen: seq<Entry>, count: map<Entry, int>,
                          changed: seq<Change>, removed: seq<Entry>) {
    && (forall x :: x in a ==> x in count && count[x] == Times(a, x) - Times(b, x) - Gone(changed, removed, x))
    && forall x :: Gone(changed, removed, x) == Less(Times(seen, x), Surplus(a, b, x))
  }

  lemma HalfwayNext(a: seq<Entry>, b: seq<Entry>, seen: seq<Entry>, count: map<Entry, int>,
                    changed: seq<Change>, removed: seq<Entry>, x: Entry,
                    changed': seq<Change>, removed': seq<Entry>)
    requires x in a && Halfway(a, b, seen, count, changed, removed)
    requires Times(seen, x) < Times(a, x)
    requires var more := if count[x] > 0 then 1 else 0;
             forall z :: Gone(changed', removed', z) == Gone(changed, removed, z) + if x == z then more else 0
    ensures Halfway(a, b, seen + [x], if count[x] > 0 then count[x := count[x] - 1] else count, changed', removed')
  {
    TimesAppend(seen, x);
    forall z ensures Gone(changed', removed', z) == Less(Times(seen + [x], z), Surplus(a, b, z)) {
      assert Gone(changed, removed, z) == Less(Times(seen, z), Surplus(a, b, z));
    }
  }

  /** The entries of a that b lacks, paired with what b has instead. */
  method PairSurplus(a: seq<Entry>, b: seq<Entry>, surplus: seq<Entry>)
      returns (changed: seq<Change>, added: seq<Entry>, removed: seq<Entry>)
    requires forall x :: Times(surplus, x) == Surplus(b, a, x)
    ensures Accounted(a, b, changed, added, removed)
  {
    var count := Counted(a, b);
    changed, added, removed := [], surplus, [];
    assert Was(changed) == [] && Now(changed) == [];
    var i := 0;
    while i < |a|
      invariant i <= |a| && Halfway(a, b, a[..i], count, changed, removed)
      invariant forall x :: Come(changed, added, x) == Surplus(b, a, x)
      invariant Apart(added, removed)
    {
      TimesNext(a, i);
      ghost var count0, changed0, removed0 := count, changed, removed;
      if count[a[i]] > 0 {
        count := count[a[i] := count[a[i]] - 1];
        changed, added, removed := Place(a[i], changed, added, removed);
      }
      HalfwayNext(a, b, a[..i], count0, changed0, removed0, a[i], changed, removed);
      assert a[..i + 1] == a[..i] + [a[i]];
      i := i + 1;
    }
    assert a[..|a|] == a;
  }

  /** Nothing is lost and nothing invented: the removed entries with the old side of the changes are what a
    * has beyond b, the added ones with the new side what b has beyond a. A change is a real one, and no file
    * is reported both as added and as removed. All three lists are empty iff the inputs are permutations. */
  method FileChecksumsDiff(a: seq<Entry>, b: seq<Entry>)
      returns (changed: seq<Change>, added: seq<string>, removed: seq<string>,
               ghost addedEntries: seq<Entry>, ghost removedEntries: seq<Entry>)
    ensures added == Names(addedEntries) && removed == Names(removedEntries)
    ensures Accounted(a, b, changed, addedEntries, removedEntries)
    ensures forall c :: c in changed ==> c.was != c.now
    ensures forall f :: !(f in added && f in removed)
    ensures changed == [] && added == [] && removed == [] <==> multiset(a) == multiset(b)
  {
    var surplus := TakeSurplus(b, a);
    var addedPairs, removedPairs;
    changed, addedPairs, removedPairs := PairSurplus(a, b, surplus);
    added, removed := Names(addedPairs), Names(removedPairs);
    addedEntries, removedEntries := addedPairs, removedPairs;
    ChangesReal(a, b, changed, addedPairs, removedPairs);
    NamesApart(addedPairs, removedPairs);
    EmptyExact(a, b, changed, addedPairs, removedPairs);
  }

  lemma {:induction false} InCounts(s: seq<Entry>, k: nat)
    requires k < |s|
    ensures Times(s, s[k]) > 0
  {
    if k < |s| - 1 {
      InCounts(s[..|s| - 1], k);
    }
  }

  lemma ChangesReal(a: seq<Entry>, b: seq<Entry>, changed: seq<Change>, added: seq<Entry>, removed: seq<Entry>)
    requires Accounted(a, b, changed, added, removed)
    ensures forall c :: c in changed ==> c.was != c.now
  {
    forall k | 0 <= k < |changed| ensures changed[k].was != changed[k].now {
      InCounts(Was(changed), k);
      InCounts(Now(changed), k);
      assert Gone(changed, removed, Was(changed)[k]) > 0 && Come(changed, added, Now(changed)[k]) > 0;
      assert Surplus(a, b, Was(changed)[k]) > 0 && Surplus(b, a, Now(changed)[k]) > 0;
    }
  }

  lemma NamesApart(added: seq<Entry>, removed: seq<Entry>)
    requires forall x, y :: x in removed && y in added ==> x.0 != y.0
    ensures forall f :: !(f in Names(added) && f in Names(removed))
  {
    forall i, j | 0 <= i < |added| && 0 <= j < |removed| ensures Names(added)[i] != Names(removed)[j] {
      assert removed[j] in removed && added[i] in added;
    }
  }

  lemma CountsPermutation(a: seq<Entry>, b: seq<Entry>)
    requires forall x :: Surplus(a, b, x) == 0 && Surplus(b, a, x) == 0
    ensures multiset(a) == multiset(b)
  {
    forall x: Entry ensures multiset(a)[x] == multiset(b)[x] {
      assert Surplus(a, b, x) == 0 && Surplus(b, a, x) == 0;
      TimesCounts(a, x);
      TimesCounts(b, x);
    }
    SameMultiset(multiset(a), multiset(b));
  }

  lemma SameMultiset<T(!new)>(a: multiset<T>, b: multiset<T>)
    requires forall x :: a[x] == b[x]
    ensures a == b
  {
  }

  lemma EmptyExact(a: seq<Entry>, b: seq<Entry>, changed: seq<Change>, added: seq<Entry>, removed: seq<Entry>)
    requires Accounted(a, b, changed, added, removed)
    ensures changed == [] && added == [] && removed == [] <==> multiset(a) == multiset(b)
  {
    if changed == [] && added == [] && removed == [] {
      assert Was(changed) == [] && Now(changed) == [];
      CountsPermutation(a, b);
    } else if changed != [] {
      InCounts(Was(changed), 0);
      SomeSurplus(a, b, Was(changed)[0]);
    } else if added != [] {
      InCounts(added, 0);
      SomeSurplus(b, a, added[0]);
    } else {
      InCounts(removed, 0);
      SomeSurplus(a, b, removed[0]);
    }
  }

  lemma SomeSurplus(a: seq<Entry>, b: seq<Entry>, x: Entry)
    requires Surplus(a, b, x) > 0
    ensures multiset(a) != multiset(b)
  {
    TimesCounts(a, x);
    TimesCounts(b, x);
  }
}

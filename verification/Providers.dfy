/** Choosing among the recipes that provide a target: priority groups, the latest version, one file for each
  * recipe name, and the preferences of the user.
  */
module Providers {
  import opened Common
  import opened Sorting

  type File = string
  type Pn = string

  /** Epoch, version and revision. */
  type Version = (string, string, string)

  /** What the data cache holds for each file. */
  datatype DataCache = DataCache(pkg_fn: File -> Pn, bbfile_priority: File -> int, pkg_dp: File -> int,
                                 pkg_pepvpr: File -> Version)

  predicate IntLe(a: int, b: int) {
    a <= b
  }

  // ---- sortPriorities ---------------------------------------------------------------------------

  /** The files of one priority and preference, in the order given. */
  function Select(files: seq<File>, c: DataCache, pri: int, pref: int): seq<File>
  {
    if files == [] then []
    else
      var f := files[|files| - 1];
      Select(files[..|files| - 1], c, pri, pref)
      + if c.bbfile_priority(f) == pri && c.pkg_dp(f) == pref then [f] else []
  }

  lemma {:induction false} SelectMembers(files: seq<File>, c: DataCache, pri: int, pref: int)
    ensures forall f :: f in Select(files, c, pri, pref) <==>
                        f in files && c.bbfile_priority(f) == pri && c.pkg_dp(f) == pref
  {
    if files != [] {
      SelectMembers(files[..|files| - 1], c, pri, pref);
      assert files == files[..|files| - 1] + [files[|files| - 1]];
    }
  }

  lemma {:induction false} SelectNone(files: seq<File>, c: DataCache, pri: int, pref: int)
    requires forall f :: f in files ==> c.bbfile_priority(f) != pri || c.pkg_dp(f) != pref
    ensures Select(files, c, pri, pref) == []
  {
    if files != [] {
      SelectNone(files[..|files| - 1], c, pri, pref);
    }
  }

  type Table = map<int, map<int, seq<File>>>

  /** priorities[priority][preference] after the files so far. */
  ghost predicate Tabled(t: Table, files: seq<File>, c: DataCache)
  {
    && (forall f :: f in files ==> c.bbfile_priority(f) in t && c.pkg_dp(f) in t[c.bbfile_priority(f)])
    && (forall pri :: pri in t ==> t[pri] != map[])
    && forall pri, pref :: pri in t && pref in t[pri] ==>
                             t[pri][pref] == Select(files, c, pri, pref) && t[pri][pref] != []
  }

  /** The file at the end of its row and cell, which are made when missing. */
  function WithFile(t: Table, pri: int, pref: int, f: File): Table {
    var row := if pri in t then t[pri] else map[];
    t[pri := row[pref := (if pref in row then row[pref] else []) + [f]]]
  }

  lemma TableNext(t: Table, files: seq<File>, c: DataCache, f: File, t': Table)
    requires Tabled(t, files, c)
    requires t' == WithFile(t, c.bbfile_priority(f), c.pkg_dp(f), f)
    ensures Tabled(t', files + [f], c)
  {
    var pri, pref := c.bbfile_priority(f), c.pkg_dp(f);
    assert (files + [f])[..|files|] == files;
    if !(pri in t && pref in t[pri]) {
      SelectNone(files, c, pri, pref);
    }
  }

  method MakeTable(files: seq<File>, c: DataCache) returns (t: Table)
    ensures Tabled(t, files, c)
  {
    t := map[];
    var i := 0;
    while i < |files|
      invariant i <= |files| && Tabled(t, files[..i], c)
    {
      var f := files[i];
      ghost var before := t;
      t := WithFile(t, c.bbfile_priority(f), c.pkg_dp(f), f);
      assert files[..i + 1] == files[..i] + [f];
      TableNext(before, files[..i], c, f, t);
      i := i + 1;
    }
    assert files[..|files|] == files;
  }

  /** One group: all files of one priority, by rising preference, otherwise in the order given. */
  ghost predicate GroupRight(g: seq<File>, files: seq<File>, c: DataCache, pri: int)
  {
    && (forall f :: f in g <==> f in files && c.bbfile_priority(f) == pri)
    && (forall i, j :: 0 <= i < j < |g| ==> c.pkg_dp(g[i]) <= c.pkg_dp(g[j]))
    && forall pref :: Select(g, c, pri, pref) == Select(files, c, pri, pref)
  }

  lemma {:induction false} SelectAppend(a: seq<File>, b: seq<File>, c: DataCache, pri: int, pref: int)
    ensures Select(a + b, c, pri, pref) == Select(a, c, pri, pref) + Select(b, c, pri, pref)
  {
    if b == [] {
      assert a + b == a;
    } else {
      assert (a + b)[..|a + b| - 1] == a + b[..|b| - 1];
      SelectAppend(a, b[..|b| - 1], c, pri, pref);
    }
  }

  lemma SelectOne(f: File, c: DataCache, pri: int, pref: int)
    ensures Select([f], c, pri, pref) == if c.bbfile_priority(f) == pri && c.pkg_dp(f) == pref then [f] else []
  {
    var one := [f];
    assert one[..|one| - 1] == [];
  }

  /** Selecting again what has been selected, by the same preference or another. */
  lemma {:induction false} SelectTwice(files: seq<File>, c: DataCache, pri: int, pref: int, other: int)
    ensures Select(Select(files, c, pri, pref), c, pri, other) ==
            if other == pref then Select(files, c, pri, pref) else []
  {
    if files != [] {
      var front, f := Select(files[..|files| - 1], c, pri, pref), files[|files| - 1];
      SelectTwice(files[..|files| - 1], c, pri, pref, other);
      if c.bbfile_priority(f) == pri && c.pkg_dp(f) == pref {
        assert Select(files, c, pri, pref) == front + [f];
        SelectAppend(front, [f], c, pri, other);
        SelectOne(f, c, pri, other);
      } else {
        assert Select(files, c, pri, pref) == front;
      }
    }
  }

  lemma IntLinear()
    ensures Linear(IntLe)
  {
  }

  method SortedInts(s: set<int>) returns (r: seq<int>)
    ensures forall i, j :: 0 <= i < j < |r| ==> r[i] < r[j]
    ensures forall x :: x in s ==> x in r
    ensures forall i :: 0 <= i < |r| ==> r[i] in s
  {
    IntLinear();
    r := SortedSet(IntLe, s);
    forall i | 0 <= i < |r| ensures r[i] in s {
      assert r[i] in r;
    }
    forall i, j | 0 <= i < j < |r| ensures r[i] < r[j] {
      assert IntLe(r[i], r[j]) && r[i] != r[j];
    }
  }

  /** The part of a group for these preferences: its files, */
  ghost predicate GroupMembers(g: seq<File>, files: seq<File>, c: DataCache, pri: int, prefs: seq<int>) {
    forall f :: f in g <==> f in files && c.bbfile_priority(f) == pri && c.pkg_dp(f) in prefs
  }

  /** by rising preference, */
  ghost predicate Rising(g: seq<File>, c: DataCache) {
    forall i, j :: 0 <= i < j < |g| ==> c.pkg_dp(g[i]) <= c.pkg_dp(g[j])
  }

  /** otherwise in the order given. */
  ghost predicate GroupSelects(g: seq<File>, files: seq<File>, c: DataCache, pri: int, prefs: seq<int>) {
    forall pref :: Select(g, c, pri, pref) == if pref in prefs then Select(files, c, pri, pref) else []
  }

  ghost predicate GroupSoFar(g: seq<File>, files: seq<File>, c: DataCache, pri: int, prefs: seq<int>) {
    GroupMembers(g, files, c, pri, prefs) && Rising(g, c) && GroupSelects(g, files, c, pri, prefs)
  }

  lemma SelectNext(g: seq<File>, files: seq<File>, c: DataCache, pri: int, has: bool, pref: int, other: int)
    requires Select(g, c, pri, other) == if has then Select(files, c, pri, other) else []
    requires other == pref ==> !has
    ensures Select(g + Select(files, c, pri, pref), c, pri, other) ==
            if has || other == pref then Select(files, c, pri, other) else []
  {
    SelectAppend(g, Select(files, c, pri, pref), c, pri, other);
    SelectTwice(files, c, pri, pref, other);
    var more := Select(Select(files, c, pri, pref), c, pri, other);
    if other == pref {
      assert [] + more == more;
    } else {
      assert Select(g, c, pri, other) + [] == Select(g, c, pri, other);
    }
  }

  lemma GroupSelectsNext(g: seq<File>, files: seq<File>, c: DataCache, pri: int, prefs: seq<int>, pref: int)
    requires GroupSelects(g, files, c, pri, prefs) && pref !in prefs
    ensures GroupSelects(g + Select(files, c, pri, pref), files, c, pri, prefs + [pref])
  {
    forall other ensures Select(g + Select(files, c, pri, pref), c, pri, other) ==
                         if other in prefs + [pref] then Select(files, c, pri, other) else []
    {
      SelectNext(g, files, c, pri, other in prefs, pref, other);
    }
  }

  lemma RisingNext(g: seq<File>, more: seq<File>, c: DataCache, pref: int)
    requires Rising(g, c)
    requires (forall f :: f in g ==> c.pkg_dp(f) < pref) && forall f :: f in more ==> c.pkg_dp(f) == pref
    ensures Rising(g + more, c)
  {
    forall i | 0 <= i < |g + more| ensures i < |g| ==> c.pkg_dp((g + more)[i]) < pref {
      assert i < |g| ==> g[i] in g;
    }
    forall i | |g| <= i < |g + more| ensures c.pkg_dp((g + more)[i]) == pref {
      assert more[i - |g|] in more;
    }
  }

  lemma GroupMembersNext(g: seq<File>, files: seq<File>, c: DataCache, pri: int, prefs: seq<int>, pref: int)
    requires GroupMembers(g, files, c, pri, prefs)
    ensures GroupMembers(g + Select(files, c, pri, pref), files, c, pri, prefs + [pref])
    ensures forall f :: f in Select(files, c, pri, pref) ==> c.pkg_dp(f) == pref
  {
    SelectMembers(files, c, pri, pref);
  }

  lemma GroupNext(g: seq<File>, files: seq<File>, c: DataCache, pri: int, prefs: seq<int>, i: nat)
    requires i < |prefs| && forall k, l :: 0 <= k < l < |prefs| ==> prefs[k] < prefs[l]
    requires GroupSoFar(g, files, c, pri, prefs[..i])
    ensures GroupSoFar(g + Select(files, c, pri, prefs[i]), files, c, pri, prefs[..i + 1])
  {
    assert prefs[..i + 1] == prefs[..i] + [prefs[i]];
    GroupMembersNext(g, files, c, pri, prefs[..i], prefs[i]);
    GroupSelectsNext(g, files, c, pri, prefs[..i], prefs[i]);
    RisingNext(g, Select(files, c, pri, prefs[i]), c, prefs[i]);
  }

  lemma GroupDone(g: seq<File>, files: seq<File>, c: DataCache, pri: int, row: set<int>, prefs: seq<int>)
    requires GroupSoFar(g, files, c, pri, prefs)
    requires forall f :: f in files && c.bbfile_priority(f) == pri ==> c.pkg_dp(f) in row
    requires forall pref :: pref in row ==> pref in prefs
    ensures GroupRight(g, files, c, pri)
  {
    forall f | f in files && c.bbfile_priority(f) == pri ensures f in g {
      var pref := c.pkg_dp(f);
      assert pref in row;
    }
    forall pref ensures Select(g, c, pri, pref) == Select(files, c, pri, pref) {
      if pref !in prefs {
        SelectNone(files, c, pri, pref);
      }
    }
  }

  /** A row of the table: the files of each preference it has, and it has all. */
  ghost predicate RowRight(row: map<int, seq<File>>, files: seq<File>, c: DataCache, pri: int) {
    && (forall pref :: pref in row ==> row[pref] == Select(files, c, pri, pref) && row[pref] != [])
    && forall f :: f in files && c.bbfile_priority(f) == pri ==> c.pkg_dp(f) in row
  }

  lemma RowIs(row: map<int, seq<File>>, files: seq<File>, c: DataCache, pri: int, pref: int)
    requires RowRight(row, files, c, pri) && pref in row
    ensures row[pref] == Select(files, c, pri, pref) && row[pref] != []
  {
  }

  lemma RowDone(row: map<int, seq<File>>, files: seq<File>, c: DataCache, pri: int, prefs: seq<int>, g: seq<File>)
    requires RowRight(row, files, c, pri) && GroupSoFar(g, files, c, pri, prefs)
    requires forall pref :: pref in row.Keys <==> pref in prefs
    ensures GroupRight(g, files, c, pri)
  {
    GroupDone(g, files, c, pri, row.Keys, prefs);
  }

  /** One row of the table, flattened by rising preference. */
  method MakeGroup(row: map<int, seq<File>>, ghost files: seq<File>, ghost c: DataCache, ghost pri: int)
      returns (g: seq<File>)
    requires row != map[] && RowRight(row, files, c, pri)
    ensures g != [] && GroupRight(g, files, c, pri)
  {
    var prefs := SortedInts(row.Keys);
    ghost var k := SomeKey(row);
    assert k in row.Keys && k in prefs;
    g := [];
    for i := 0 to |prefs|
      invariant i > 0 ==> g != []
      invariant GroupSoFar(g, files, c, pri, prefs[..i])
    {
      assert prefs[i] in row.Keys;
      RowIs(row, files, c, pri, prefs[i]);
      GroupNext(g, files, c, pri, prefs, i);
      g := g + row[prefs[i]];
    }
    assert prefs[..|prefs|] == prefs;
    RowDone(row, files, c, pri, prefs, g);
  }

  lemma SomeKey<K, V>(m: map<K, V>) returns (k: K)
    requires m != map[]
    ensures k in m
  {
    assert |m| > 0 && |m.Keys| > 0;
    k :| k in m.Keys;
  }

  function Priority(g: seq<File>, c: DataCache): int
    requires g != []
  {
    c.bbfile_priority(g[0])
  }

  /** Every file is in one group; the groups come by falling priority. */
  ghost predicate GroupsRight(groups: seq<seq<File>>, files: seq<File>, c: DataCache) {
    && (forall i :: 0 <= i < |groups| ==> groups[i] != [])
    && (forall i :: 0 <= i < |groups| ==> GroupRight(groups[i], files, c, Priority(groups[i], c)))
    && (forall i, j :: 0 <= i < j < |groups| ==> Priority(groups[i], c) > Priority(groups[j], c))
    && forall f :: f in files ==> exists i :: 0 <= i < |groups| && f in groups[i]
  }

  /** The groups of the i lowest priorities, highest first. */
  ghost predicate GroupsOfFirst(groups: seq<seq<File>>, files: seq<File>, c: DataCache, pris: seq<int>, i: nat)
    requires i <= |pris|
  {
    && |groups| == i
    && forall k :: 0 <= k < i ==> groups[k] != [] && GroupRight(groups[k], files, c, pris[i - 1 - k])
  }

  lemma GroupsNext(groups: seq<seq<File>>, files: seq<File>, c: DataCache, pris: seq<int>, i: nat, g: seq<File>)
    requires i < |pris| && GroupsOfFirst(groups, files, c, pris, i)
    requires g != [] && GroupRight(g, files, c, pris[i])
    ensures GroupsOfFirst([g] + groups, files, c, pris, i + 1)
  {
    var more := [g] + groups;
    forall k | 0 <= k < i + 1 ensures more[k] != [] && GroupRight(more[k], files, c, pris[i - k]) {
      assert k > 0 ==> more[k] == groups[k - 1] && i - 1 - (k - 1) == i - k;
    }
  }

  method SortPriorities(files: seq<File>, c: DataCache) returns (groups: seq<seq<File>>)
    ensures GroupsRight(groups, files, c)
  {
    var t := MakeTable(files, c);
    var pris := SortedInts(t.Keys);
    groups := [];
    var i := 0;
    while i < |pris|
      invariant i <= |pris| && GroupsOfFirst(groups, files, c, pris, i)
    {
      assert pris[i] in t.Keys;
      var g := MakeGroup(t[pris[i]], files, c, pris[i]);
      GroupsNext(groups, files, c, pris, i, g);
      groups := [g] + groups;
      i := i + 1;
    }
    forall f | f in files ensures c.bbfile_priority(f) in pris {
      var pri := c.bbfile_priority(f);
      assert pri in t.Keys;
    }
    GroupsAssembled(groups, files, c, pris);
  }

  lemma GroupsAssembled(groups: seq<seq<File>>, files: seq<File>, c: DataCache, pris: seq<int>)
    requires |groups| == |pris| && forall i, j :: 0 <= i < j < |pris| ==> pris[i] < pris[j]
    requires forall f :: f in files ==> c.bbfile_priority(f) in pris
    requires GroupsOfFirst(groups, files, c, pris, |pris|)
    ensures GroupsRight(groups, files, c)
  {
    forall k | 0 <= k < |groups| ensures Priority(groups[k], c) == pris[|pris| - 1 - k] {
      assert groups[k][0] in groups[k];
    }
    forall f | f in files ensures exists k :: 0 <= k < |groups| && f in groups[k] {
      var j :| 0 <= j < |pris| && pris[j] == c.bbfile_priority(f);
      assert GroupRight(groups[|pris| - 1 - j], files, c, pris[j]);
      assert f in groups[|pris| - 1 - j];
    }
  }

  /** Grouping loses and repeats nothing. */
  lemma {:induction false} GroupsPermute(groups: seq<seq<File>>, files: seq<File>, c: DataCache, f: File)
    requires GroupsRight(groups, files, c)
    ensures multiset(Flat(groups))[f] == multiset(files)[f]
  {
    var pri, pref := c.bbfile_priority(f), c.pkg_dp(f);
    if f in files {
      var i :| 0 <= i < |groups| && f in groups[i];
      OneGroupHolds(groups, c, i, f);
      SelectCounts(groups[i], c, f);
      SelectCounts(files, c, f);
      assert Select(groups[i], c, pri, pref) == Select(files, c, pri, pref);
    } else {
      NoGroupHolds(groups, f);
    }
  }

  function Flat(groups: seq<seq<File>>): seq<File> {
    if groups == [] then [] else Flat(groups[..|groups| - 1]) + groups[|groups| - 1]
  }

  lemma {:induction false} SelectCounts(files: seq<File>, c: DataCache, f: File)
    ensures multiset(Select(files, c, c.bbfile_priority(f), c.pkg_dp(f)))[f] == multiset(files)[f]
  {
    if files != [] {
      SelectCounts(files[..|files| - 1], c, f);
      assert files == files[..|files| - 1] + [files[|files| - 1]];
    }
  }

  lemma {:induction false} NoGroupHolds(groups: seq<seq<File>>, f: File)
    requires forall i :: 0 <= i < |groups| ==> f !in groups[i]
    ensures multiset(Flat(groups))[f] == 0
  {
    if groups != [] {
      NoGroupHolds(groups[..|groups| - 1], f);
      assert f !in multiset(groups[|groups| - 1]);
    }
  }

  lemma {:induction false} OneGroupHolds(groups: seq<seq<File>>, c: DataCache, i: nat, f: File)
    requires i < |groups| && f in groups[i]
    requires forall k :: 0 <= k < |groups| && k != i ==> f !in groups[k]
    ensures multiset(Flat(groups))[f] == multiset(groups[i])[f]
  {
    if i == |groups| - 1 {
      NoGroupHolds(groups[..|groups| - 1], f);
    } else {
      OneGroupHolds(groups[..|groups| - 1], c, i, f);
      assert f !in multiset(groups[|groups| - 1]);
    }
  }

  // ---- The latest and the preferred version -----------------------------------------------------

  /** What is assumed of utils.vercmp: its sign orders the versions, equal ones included. */
  ghost predicate Preorder(cmp: (Version, Version) -> int) {
    && (forall a, b :: cmp(a, b) < 0 <==> cmp(b, a) > 0)
    && forall a, b, d :: cmp(a, b) <= 0 && cmp(b, d) <= 0 ==> cmp(a, d) <= 0
  }

  /** A higher preference, or the same and a later version. */
  predicate Better(c: DataCache, cmp: (Version, Version) -> int, f: File, g: File) {
    c.pkg_dp(f) > c.pkg_dp(g)
    || (c.pkg_dp(f) == c.pkg_dp(g) && cmp(c.pkg_pepvpr(g), c.pkg_pepvpr(f)) < 0)
  }

  /** Place k holds the first of the best files. */
  ghost predicate FirstBest(files: seq<File>, c: DataCache, cmp: (Version, Version) -> int, k: nat) {
    && k < |files|
    && (forall j :: 0 <= j < |files| ==> !Better(c, cmp, files[j], files[k]))
    && forall j :: 0 <= j < k ==> Better(c, cmp, files[k], files[j])
  }

  lemma BetterChain(c: DataCache, cmp: (Version, Version) -> int, f: File, g: File, h: File)
    requires Preorder(cmp) && Better(c, cmp, f, g) && !Better(c, cmp, h, g)
    ensures Better(c, cmp, f, h) && !Better(c, cmp, h, f)
  {
    var vf, vg, vh := c.pkg_pepvpr(f), c.pkg_pepvpr(g), c.pkg_pepvpr(h);
    assert cmp(vg, vf) < 0 <==> cmp(vf, vg) > 0;
    assert cmp(vg, vh) < 0 <==> cmp(vh, vg) > 0;
    assert cmp(vh, vf) < 0 <==> cmp(vf, vh) > 0;
    assert cmp(vf, vh) <= 0 && cmp(vh, vg) <= 0 ==> cmp(vf, vg) <= 0;
  }

  lemma BestNext(files: seq<File>, c: DataCache, cmp: (Version, Version) -> int, i: nat, k: nat)
    requires Preorder(cmp) && i < |files| && FirstBest(files[..i], c, cmp, k)
    ensures FirstBest(files[..i + 1], c, cmp, if Better(c, cmp, files[i], files[k]) then i else k)
  {
    var f := files[i];
    assert !Better(c, cmp, f, f) by {
      assert cmp(c.pkg_pepvpr(f), c.pkg_pepvpr(f)) < 0 <==> cmp(c.pkg_pepvpr(f), c.pkg_pepvpr(f)) > 0;
    }
    if Better(c, cmp, f, files[k]) {
      forall j | 0 <= j < i ensures Better(c, cmp, f, files[j]) && !Better(c, cmp, files[j], f) {
        assert !Better(c, cmp, files[..i][j], files[..i][k]);
        BetterChain(c, cmp, f, files[k], files[j]);
      }
    } else {
      forall j | 0 <= j < i ensures !Better(c, cmp, files[j], files[k])
              && (j < k ==> Better(c, cmp, files[k], files[j])) {
        assert files[..i][j] == files[j] && files[..i][k] == files[k];
      }
    }
  }

  method FindLatestProvider(files: seq<File>, c: DataCache, cmp: (Version, Version) -> int)
      returns (latest: Option<File>, ghost k: nat)
    requires Preorder(cmp)
    ensures latest.None? <==> files == []
    ensures latest.Some? ==> FirstBest(files, c, cmp, k) && latest.value == files[k]
    ensures forall j :: 0 <= j < |files| ==>
              var f, g := files[j], latest.value;
              c.pkg_dp(f) < c.pkg_dp(g)
              || (c.pkg_dp(f) == c.pkg_dp(g)
                  && if j < k then cmp(c.pkg_pepvpr(f), c.pkg_pepvpr(g)) < 0
                     else cmp(c.pkg_pepvpr(g), c.pkg_pepvpr(f)) >= 0)
  {
    latest, k := None, 0;
    var latest_p := 0;
    var i := 0;
    while i < |files|
      invariant i <= |files| && (latest.None? <==> i == 0)
      invariant i > 0 ==> FirstBest(files[..i], c, cmp, k)
      invariant i > 0 ==> latest.value == files[k] && latest_p == c.pkg_dp(latest.value)
    {
      var f := files[i];
      var dp := c.pkg_dp(f);
      if i > 0 {
        BestNext(files, c, cmp, i, k);
      }
      if latest.None?
         || (latest_p == dp && cmp(c.pkg_pepvpr(latest.value), c.pkg_pepvpr(f)) < 0) || dp > latest_p
      {
        if i == 0 {
          OneBest(f, c, cmp);
          assert files[..1] == [f];
        }
        latest, latest_p, k := Some(f), dp, i;
      }
      i := i + 1;
    }
    assert files[..|files|] == files;
  }

  lemma OneBest(f: File, c: DataCache, cmp: (Version, Version) -> int)
    requires Preorder(cmp)
    ensures FirstBest([f], c, cmp, 0)
  {
    assert cmp(c.pkg_pepvpr(f), c.pkg_pepvpr(f)) < 0 <==> cmp(c.pkg_pepvpr(f), c.pkg_pepvpr(f)) > 0;
  }

  /** A parsed REQUIRED_VERSION or PREFERRED_VERSION. */
  datatype Wish = Wish(epoch: Option<string>, version: string, revision: Option<string>, required: bool)

  /** preferredVersionMatch: a version ending in % stands for all versions that start like it. */
  predicate Matches(c: DataCache, f: File, wish: Wish) {
    var (pe, pv, pr) := c.pkg_pepvpr(f);
    && (wish.revision.None? || wish.revision.value == pr)
    && (wish.epoch.None? || wish.epoch.value == pe)
    && (wish.version == pv
        || (wish.version != "" && wish.version[|wish.version| - 1] == '%' && wish.version[..|wish.version| - 1] <= pv))
  }

  /** A version asked for with a final % stands for every version that starts like it, and one without for
    * itself alone; an epoch or a revision that is given must be the same. */
  lemma MatchesWhen(c: DataCache, f: File, epoch: Option<string>, version: string, revision: Option<string>,
                    required: bool)
    ensures var (pe, pv, pr) := c.pkg_pepvpr(f);
            var rest := (epoch == None || epoch == Some(pe)) && (revision == None || revision == Some(pr));
            && (Matches(c, f, Wish(epoch, version + "%", revision, required)) <==>
                rest && (pv == version + "%" || StartsWith(pv, version)))
            && ((version == "" || version[|version| - 1] != '%') ==>
                  (Matches(c, f, Wish(epoch, version, revision, required)) <==> rest && pv == version))
  {
    var (pe, pv, pr) := c.pkg_pepvpr(f);
    assert (version + "%")[..|version|] == version;
    assert version <= pv <==> StartsWith(pv, version);
  }

  /** Whether a file is looked for at all, and found. */
  predicate Wanted(c: DataCache, f: File, wish: Option<Wish>) {
    wish.Some? && wish.value.version != "" && Matches(c, f, wish.value)
  }

  method FindPreferredProvider(groups: seq<seq<File>>, ghost files: seq<File>, c: DataCache, wish: Option<Wish>)
      returns (preferred: Option<File>)
    requires GroupsRight(groups, files, c)
    ensures preferred.None? <==> forall f :: f in files ==> !Wanted(c, f, wish)
    ensures preferred.Some? ==> IsPreferred(files, c, wish, preferred.value)
  {
    if wish.None? || wish.value.version == "" {
      return None;
    }
    var i := 0;
    while i < |groups|
      invariant i <= |groups|
      invariant forall k, f :: 0 <= k < i && f in groups[k] ==> !Wanted(c, f, wish)
    {
      var j := FirstMatch(groups[i], c, wish.value);
      if j < |groups[i]| {
        FirstIsPreferred(groups, files, c, wish, i, j);
        return Some(groups[i][j]);
      }
      i := i + 1;
    }
    return None;
  }

  /** The inner loop. */
  method FirstMatch(group: seq<File>, c: DataCache, wish: Wish) returns (j: nat)
    ensures j <= |group| && (j < |group| ==> Matches(c, group[j], wish))
    ensures forall l :: 0 <= l < j ==> !Matches(c, group[l], wish)
  {
    j := 0;
    while j < |group| && !Matches(c, group[j], wish)
      invariant j <= |group|
      invariant forall l :: 0 <= l < j ==> !Matches(c, group[l], wish)
    {
      j := j + 1;
    }
  }

  /** Of the files of the wanted version one with the highest priority, and of those the lowest preference. */
  ghost predicate IsPreferred(files: seq<File>, c: DataCache, wish: Option<Wish>, f: File) {
    && f in files && Wanted(c, f, wish)
    && forall g :: g in files && Wanted(c, g, wish) ==>
                     c.bbfile_priority(g) < c.bbfile_priority(f)
                     || (c.bbfile_priority(g) == c.bbfile_priority(f) && c.pkg_dp(f) <= c.pkg_dp(g))
  }

  /** No file that comes later in the groups is preferred to one that comes earlier. */
  lemma LaterIsLess(groups: seq<seq<File>>, files: seq<File>, c: DataCache, i: nat, j: nat, k: nat, l: nat)
    requires GroupsRight(groups, files, c)
    requires i < |groups| && j < |groups[i]| && k < |groups| && l < |groups[k]|
    requires i < k || (i == k && j <= l)
    ensures var f, g := groups[i][j], groups[k][l];
            && f in files && g in files
            && (c.bbfile_priority(g) < c.bbfile_priority(f)
                || (c.bbfile_priority(g) == c.bbfile_priority(f) && c.pkg_dp(f) <= c.pkg_dp(g)))
  {
    assert GroupRight(groups[i], files, c, Priority(groups[i], c));
    assert GroupRight(groups[k], files, c, Priority(groups[k], c));
    assert groups[i][j] in groups[i] && groups[k][l] in groups[k];
  }

  lemma PlaceOf(groups: seq<seq<File>>, files: seq<File>, c: DataCache, g: File) returns (k: nat, l: nat)
    requires GroupsRight(groups, files, c) && g in files
    ensures k < |groups| && l < |groups[k]| && groups[k][l] == g
  {
    k :| 0 <= k < |groups| && g in groups[k];
    l :| 0 <= l < |groups[k]| && groups[k][l] == g;
  }

  lemma FirstIsPreferred(groups: seq<seq<File>>, files: seq<File>, c: DataCache, wish: Option<Wish>, i: nat, j: nat)
    requires GroupsRight(groups, files, c)
    requires i < |groups| && j < |groups[i]| && Wanted(c, groups[i][j], wish)
    requires forall k, f :: 0 <= k < i && f in groups[k] ==> !Wanted(c, f, wish)
    requires forall l :: 0 <= l < j ==> !Wanted(c, groups[i][l], wish)
    ensures IsPreferred(files, c, wish, groups[i][j])
  {
    var f := groups[i][j];
    LaterIsLess(groups, files, c, i, j, i, j);
    forall g | g in files && Wanted(c, g, wish)
      ensures c.bbfile_priority(g) < c.bbfile_priority(f)
              || (c.bbfile_priority(g) == c.bbfile_priority(f) && c.pkg_dp(f) <= c.pkg_dp(g))
    {
      var k, l := PlaceOf(groups, files, c, g);
      assert g in groups[k];
      LaterIsLess(groups, files, c, i, j, k, l);
    }
  }

  /** The file of the highest priority, with the highest preference and latest version there. */
  ghost predicate IsLatest(files: seq<File>, c: DataCache, cmp: (Version, Version) -> int, f: File) {
    && f in files
    && forall g :: g in files ==>
                     c.bbfile_priority(g) < c.bbfile_priority(f)
                     || (c.bbfile_priority(g) == c.bbfile_priority(f) && !Better(c, cmp, g, f))
  }

  lemma BestIsLatest(groups: seq<seq<File>>, files: seq<File>, c: DataCache, cmp: (Version, Version) -> int, k: nat)
    requires GroupsRight(groups, files, c) && groups != [] && FirstBest(groups[0], c, cmp, k)
    ensures IsLatest(files, c, cmp, groups[0][k])
  {
    var f := groups[0][k];
    assert f in groups[0] && GroupRight(groups[0], files, c, Priority(groups[0], c));
    forall g | g in files
      ensures c.bbfile_priority(g) < c.bbfile_priority(f)
              || (c.bbfile_priority(g) == c.bbfile_priority(f) && !Better(c, cmp, g, f))
    {
      var i :| 0 <= i < |groups| && g in groups[i];
      assert GroupRight(groups[i], files, c, Priority(groups[i], c));
    }
  }

  // ---- _filterProviders -------------------------------------------------------------------------

  /** The providers that belong to one recipe name. */
  function Of(files: seq<File>, c: DataCache, pn: Pn): seq<File> {
    if files == [] then []
    else Of(files[..|files| - 1], c, pn) + if c.pkg_fn(files[|files| - 1]) == pn then [files[|files| - 1]] else []
  }

  lemma {:induction false} OfMembers(files: seq<File>, c: DataCache, pn: Pn)
    ensures forall f :: f in Of(files, c, pn) <==> f in files && c.pkg_fn(f) == pn
  {
    if files != [] {
      OfMembers(files[..|files| - 1], c, pn);
      assert files == files[..|files| - 1] + [files[|files| - 1]];
    }
  }

  /** pkg_pn after the files so far. */
  ghost predicate Collated(t: map<Pn, seq<File>>, files: seq<File>, c: DataCache) {
    && (forall f :: f in files ==> c.pkg_fn(f) in t)
    && (forall pn :: pn in t ==> t[pn] == Of(files, c, pn))
    && forall pn :: pn in t ==> t[pn] != []
  }

  lemma {:induction false} OfNone(files: seq<File>, c: DataCache, pn: Pn)
    requires forall f :: f in files ==> c.pkg_fn(f) != pn
    ensures Of(files, c, pn) == []
  {
    if files != [] {
      OfNone(files[..|files| - 1], c, pn);
    }
  }

  lemma CollatedNext(t: map<Pn, seq<File>>, files: seq<File>, c: DataCache, i: nat)
    requires i < |files| && Collated(t, files[..i], c)
    ensures var pn := c.pkg_fn(files[i]);
            Collated(t[pn := (if pn in t then t[pn] else []) + [files[i]]], files[..i + 1], c)
  {
    assert files[..i + 1][..i] == files[..i];
    if c.pkg_fn(files[i]) !in t {
      OfNone(files[..i], c, c.pkg_fn(files[i]));
    }
  }

  method Collate(files: seq<File>, c: DataCache) returns (t: map<Pn, seq<File>>)
    ensures Collated(t, files, c)
  {
    t := map[];
    var i := 0;
    while i < |files|
      invariant i <= |files| && Collated(t, files[..i], c)
    {
      CollatedNext(t, files, c, i);
      var pn := c.pkg_fn(files[i]);
      t := t[pn := (if pn in t then t[pn] else []) + [files[i]]];
      i := i + 1;
    }
    assert files[..|files|] == files;
  }

  /** One call after pkg_pn has been made: the providers of each recipe, and what the user and vercmp say. */
  datatype Call = Call(pkg_pn: map<Pn, seq<File>>, c: DataCache, wishes: Pn -> Option<Wish>,
                       cmp: (Version, Version) -> int)
  {
    function FilesOf(pn: Pn): seq<File> {
      if pn in pkg_pn then pkg_pn[pn] else []
    }

    /** Every file is listed under its own recipe. */
    ghost predicate Valid() {
      Preorder(cmp) && forall pn, f :: pn in pkg_pn && f in pkg_pn[pn] ==> c.pkg_fn(f) == pn
    }

    /** Some file of the recipe has the version asked for. */
    ghost predicate Met(pn: Pn) {
      exists f :: f in FilesOf(pn) && Wanted(c, f, wishes(pn))
    }

    /** The version required of the recipe is missing. */
    ghost predicate Missing(pn: Pn) {
      wishes(pn).Some? && wishes(pn).value.required && !Met(pn)
    }

    /** The file that stands for the recipe. */
    ghost predicate Chosen(pn: Pn, f: File) {
      if Met(pn) then IsPreferred(FilesOf(pn), c, wishes(pn), f) else IsLatest(FilesOf(pn), c, cmp, f)
    }

    /** One file for each of these recipes, in this order. */
    ghost predicate Serve(chosen: seq<File>, pns: seq<Pn>) {
      && |chosen| == |pns|
      && forall i :: 0 <= i < |pns| ==> c.pkg_fn(chosen[i]) == pns[i] && Chosen(pns[i], chosen[i])
    }

    /** The recipes whose wish is met, or those whose is not. */
    ghost function With(pns: seq<Pn>, met: bool): seq<Pn> {
      if pns == [] then []
      else With(pns[..|pns| - 1], met) + if Met(pns[|pns| - 1]) == met then [pns[|pns| - 1]] else []
    }
  }

  type Groups = seq<seq<File>>

  /** The recipes among these whose wish is met each have their file. */
  ghost predicate Found(call: Call, pns: seq<Pn>, chosen: map<Pn, File>) {
    (forall pn :: pn in chosen <==> pn in pns && call.Met(pn))
            && forall pn :: pn in chosen ==> call.Chosen(pn, chosen[pn])
  }

  /** The files recorded are among the eligible ones. */
  ghost predicate Present(c: DataCache, chosen: map<Pn, File>, eligible: seq<File>) {
    forall pn :: pn in chosen ==> chosen[pn] in eligible && c.pkg_fn(chosen[pn]) == pn
  }

  lemma PresentNext(call: Call, chosen: map<Pn, File>, eligible: seq<File>, pn: Pn, f: File)
    requires call.Valid() && Present(call.c, chosen, eligible) && call.Chosen(pn, f)
    ensures Present(call.c, chosen[pn := f], eligible + [f])
  {
  }

  /** Each of these recipes has its groups. */
  ghost predicate Grouped(call: Call, pns: seq<Pn>, groups: map<Pn, Groups>) {
    && (forall pn :: pn in pns ==> pn in groups)
    && forall pn :: pn in groups ==> groups[pn] != [] && GroupsRight(groups[pn], call.FilesOf(pn), call.c)
  }

  lemma WithNext(call: Call, pns: seq<Pn>, pn: Pn, met: bool)
    ensures call.With(pns + [pn], met) == call.With(pns, met) + if call.Met(pn) == met then [pn] else []
  {
    assert (pns + [pn])[..|pns|] == pns;
  }

  lemma ServeNext(call: Call, eligible: seq<File>, pns: seq<Pn>, pn: Pn, f: File)
    requires call.Valid() && call.Serve(eligible, pns) && call.Chosen(pn, f)
    ensures call.Serve(eligible + [f], pns + [pn])
  {
  }

  lemma FoundNext(call: Call, pns: seq<Pn>, chosen: map<Pn, File>, pn: Pn, f: File)
    requires Found(call, pns, chosen)
    requires call.Met(pn) ==> call.Chosen(pn, f)
    ensures Found(call, pns + [pn], if call.Met(pn) then chosen[pn := f] else chosen)
  {
  }

  lemma GroupedNext(call: Call, pns: seq<Pn>, groups: map<Pn, Groups>, pn: Pn, g: Groups)
    requires Grouped(call, pns, groups)
    requires g != [] && GroupsRight(g, call.FilesOf(pn), call.c)
    ensures Grouped(call, pns + [pn], groups[pn := g])
  {
  }

  /** One recipe: its groups, and the file of the version asked for. */
  method GroupAndFind(call: Call, pn: Pn) returns (g: Groups, preferred: Option<File>)
    requires call.FilesOf(pn) != []
    ensures g != [] && GroupsRight(g, call.FilesOf(pn), call.c)
    ensures preferred.Some? <==> call.Met(pn)
    ensures preferred.Some? ==> call.Chosen(pn, preferred.value)
  {
    var files := call.FilesOf(pn);
    g := SortPriorities(files, call.c);
    assert files[0] in files;
    preferred := FindPreferredProvider(g, files, call.c, call.wishes(pn));
  }

  /** What the first pass has done with these recipes. */
  ghost predicate FirstPass(call: Call, pns: seq<Pn>, eligible: seq<File>, chosen: map<Pn, File>,
                            groups: map<Pn, Groups>) {
    && call.Serve(eligible, call.With(pns, true)) && Found(call, pns, chosen)
    && Grouped(call, pns, groups) && Present(call.c, chosen, eligible)
  }

  lemma FirstPassMet(call: Call, pns: seq<Pn>, eligible: seq<File>, chosen: map<Pn, File>, groups: map<Pn, Groups>,
                     pn: Pn, g: Groups, f: File)
    requires call.Valid() && FirstPass(call, pns, eligible, chosen, groups)
    requires g != [] && GroupsRight(g, call.FilesOf(pn), call.c) && call.Met(pn) && call.Chosen(pn, f)
    ensures FirstPass(call, pns + [pn], eligible + [f], chosen[pn := f], groups[pn := g])
  {
    WithNext(call, pns, pn, true);
    GroupedNext(call, pns, groups, pn, g);
    FoundNext(call, pns, chosen, pn, f);
    ServeNext(call, eligible, call.With(pns, true), pn, f);
    PresentNext(call, chosen, eligible, pn, f);
  }

  lemma FirstPassUnmet(call: Call, pns: seq<Pn>, eligible: seq<File>, chosen: map<Pn, File>, groups: map<Pn, Groups>,
                       pn: Pn, g: Groups)
    requires FirstPass(call, pns, eligible, chosen, groups)
    requires g != [] && GroupsRight(g, call.FilesOf(pn), call.c) && !call.Met(pn)
    ensures FirstPass(call, pns + [pn], eligible, chosen, groups[pn := g])
  {
    WithNext(call, pns, pn, true);
    GroupedNext(call, pns, groups, pn, g);
    FoundNext(call, pns, chosen, pn, "");
  }

  lemma PrefixNext(pns: seq<Pn>, i: nat)
    requires i < |pns|
    ensures pns[..i + 1] == pns[..i] + [pns[i]]
  {
  }

  lemma FirstPassStart(call: Call, eligible: seq<File>, chosen: map<Pn, File>, groups: map<Pn, Groups>)
    requires eligible == [] && chosen == map[] && groups == map[]
    ensures FirstPass(call, [], eligible, chosen, groups)
  {
  }

  /** The next recipe of the first pass. */
  method AddPreferredOf(call: Call, pns: seq<Pn>, i: nat, eligible0: seq<File>, chosen0: map<Pn, File>,
                        groups0: map<Pn, Groups>)
      returns (missing: bool, eligible: seq<File>, chosen: map<Pn, File>, groups: map<Pn, Groups>)
    requires i < |pns| && call.Valid() && call.FilesOf(pns[i]) != []
    requires FirstPass(call, pns[..i], eligible0, chosen0, groups0)
    ensures missing <==> call.Missing(pns[i])
    ensures FirstPass(call, pns[..if missing then i else i + 1], eligible, chosen, groups)
  {
    missing, eligible, chosen, groups := false, eligible0, chosen0, groups0;
    var pn := pns[i];
    var g, preferred := GroupAndFind(call, pn);
    var wish := call.wishes(pn);
    PrefixNext(pns, i);
    if wish.Some? && wish.value.required && preferred.None? {
      missing := true;
    } else if preferred.Some? {
      FirstPassMet(call, pns[..i], eligible, chosen, groups, pn, g, preferred.value);
      eligible, chosen, groups := eligible + [preferred.value], chosen[pn := preferred.value], groups[pn := g];
    } else {
      FirstPassUnmet(call, pns[..i], eligible, chosen, groups, pn, g);
      groups := groups[pn := g];
    }
  }

  ghost predicate NoneMissing(call: Call, pns: seq<Pn>, b: nat)
    requires b <= |pns|
  {
    forall k :: 0 <= k < b ==> !call.Missing(pns[k])
  }

  lemma NoneMissingNext(call: Call, pns: seq<Pn>, b: nat)
    requires b < |pns| && NoneMissing(call, pns, b) && !call.Missing(pns[b])
    ensures NoneMissing(call, pns, b + 1)
  {
  }

  /** The first pass: the required or preferred versions, until a required one is missing. */
  method AddPreferred(call: Call, pns: seq<Pn>)
      returns (missing: bool, eligible: seq<File>, chosen: map<Pn, File>, groups: map<Pn, Groups>, ghost b: nat)
    requires call.Valid() && forall i :: 0 <= i < |pns| ==> call.FilesOf(pns[i]) != []
    ensures b <= |pns| && NoneMissing(call, pns, b)
    ensures if missing then b < |pns| && call.Missing(pns[b]) else b == |pns|
    ensures FirstPass(call, pns[..b], eligible, chosen, groups)
  {
    missing, eligible, chosen, groups, b := false, [], map[], map[], 0;
    FirstPassStart(call, eligible, chosen, groups);
    assert pns[..0] == [];
    var i := 0;
    while i < |pns|
      invariant b == i <= |pns| && !missing && NoneMissing(call, pns, i)
      invariant FirstPass(call, pns[..i], eligible, chosen, groups)
    {
      missing, eligible, chosen, groups := AddPreferredOf(call, pns, i, eligible, chosen, groups);
      if missing {
        return;
      }
      NoneMissingNext(call, pns, i);
      i, b := i + 1, i + 1;
    }
  }

  /** The recipes of the first pass and these have their files. */
  ghost predicate FoundToo(call: Call, all: seq<Pn>, pns: seq<Pn>, chosen: map<Pn, File>) {
    && (forall pn :: pn in chosen <==> pn in all && (pn in pns || call.Met(pn)))
    && forall pn :: pn in chosen ==> call.Chosen(pn, chosen[pn])
  }

  lemma FoundTooNext(call: Call, all: seq<Pn>, pns: seq<Pn>, chosen: map<Pn, File>, pn: Pn, f: File)
    requires FoundToo(call, all, pns, chosen) && pn in all && pn !in pns && call.Chosen(pn, f)
    ensures FoundToo(call, all, pns + [pn], if call.Met(pn) then chosen else chosen[pn := f])
  {
  }

  method LatestOf(call: Call, pn: Pn, g: Groups) returns (f: File)
    requires call.Valid() && g != [] && GroupsRight(g, call.FilesOf(pn), call.c) && !call.Met(pn)
    ensures call.Chosen(pn, f)
  {
    var latest, k := FindLatestProvider(g[0], call.c, call.cmp);
    BestIsLatest(g, call.FilesOf(pn), call.c, call.cmp, k);
    f := latest.value;
  }

  /** What the second pass has done with these recipes; first is what the first pass left. */
  ghost predicate SecondPass(call: Call, all: seq<Pn>, pns: seq<Pn>, first: seq<File>, eligible: seq<File>,
                             chosen: map<Pn, File>) {
    && call.Serve(eligible, call.With(pns, false)) && FoundToo(call, all, pns, chosen)
    && Present(call.c, chosen, first + eligible)
  }

  lemma SecondPassAdded(call: Call, all: seq<Pn>, pns: seq<Pn>, first: seq<File>, eligible: seq<File>,
                        chosen: map<Pn, File>, pn: Pn, f: File)
    requires call.Valid() && SecondPass(call, all, pns, first, eligible, chosen)
    requires pn in all && pn !in pns && !call.Met(pn) && call.Chosen(pn, f)
    ensures SecondPass(call, all, pns + [pn], first, eligible + [f], chosen[pn := f])
  {
    WithNext(call, pns, pn, false);
    FoundTooNext(call, all, pns, chosen, pn, f);
    ServeNext(call, eligible, call.With(pns, false), pn, f);
    PresentNext(call, chosen, first + eligible, pn, f);
    assert first + eligible + [f] == first + (eligible + [f]);
  }

  lemma SecondPassKept(call: Call, all: seq<Pn>, pns: seq<Pn>, first: seq<File>, eligible: seq<File>,
                       chosen: map<Pn, File>, pn: Pn)
    requires SecondPass(call, all, pns, first, eligible, chosen) && pn in all && pn !in pns && pn in chosen
    ensures SecondPass(call, all, pns + [pn], first, eligible, chosen)
  {
    WithNext(call, pns, pn, false);
    FoundTooNext(call, all, pns, chosen, pn, chosen[pn]);
  }

  /** The next recipe of the second pass. */
  method AddLatestOf(call: Call, ghost all: seq<Pn>, ghost pns: seq<Pn>, pn: Pn, g: Groups, ghost first: seq<File>,
                     eligible0: seq<File>, chosen0: map<Pn, File>)
      returns (eligible: seq<File>, chosen: map<Pn, File>)
    requires call.Valid() && g != [] && GroupsRight(g, call.FilesOf(pn), call.c)
    requires SecondPass(call, all, pns, first, eligible0, chosen0) && pn in all && pn !in pns
    ensures SecondPass(call, all, pns + [pn], first, eligible, chosen)
  {
    eligible, chosen := eligible0, chosen0;
    if pn !in chosen {
      var f := LatestOf(call, pn, g);
      SecondPassAdded(call, all, pns, first, eligible, chosen, pn, f);
      chosen := chosen[pn := f];
      eligible := eligible + [f];
    } else {
      SecondPassKept(call, all, pns, first, eligible, chosen, pn);
    }
  }

  lemma GroupsOf(call: Call, pns: seq<Pn>, groups: map<Pn, Groups>, pn: Pn)
    requires Grouped(call, pns, groups) && pn in pns
    ensures pn in groups && groups[pn] != [] && GroupsRight(groups[pn], call.FilesOf(pn), call.c)
  {
  }

  lemma NextOf(pns: seq<Pn>, i: nat)
    requires i < |pns| && Distinct(pns)
    ensures pns[..i + 1] == pns[..i] + [pns[i]] && pns[i] !in pns[..i] && pns[i] in pns
  {
  }

  /** The second pass: the latest version of every other recipe. */
  method AddLatest(call: Call, pns: seq<Pn>, ghost first: seq<File>, chosen0: map<Pn, File>, groups: map<Pn, Groups>)
      returns (eligible: seq<File>, chosen: map<Pn, File>)
    requires call.Valid() && Distinct(pns) && FirstPass(call, pns, first, chosen0, groups)
    ensures SecondPass(call, pns, pns, first, eligible, chosen)
  {
    eligible, chosen := [], chosen0;
    assert first + [] == first;
    for i := 0 to |pns|
      invariant SecondPass(call, pns, pns[..i], first, eligible, chosen)
    {
      var pn := pns[i];
      NextOf(pns, i);
      GroupsOf(call, pns, groups, pn);
      eligible, chosen := AddLatestOf(call, pns, pns[..i], pn, groups[pn], first, eligible, chosen);
    }
    assert pns[..|pns|] == pns;
  }

  /** list.remove(s[k]); list = [s[k]] + list */
  function Front<T>(s: seq<T>, k: nat): seq<T>
    requires k < |s|
  {
    [s[k]] + s[..k] + s[k + 1..]
  }

  /** Where an element stands first; the length if it does not. */
  function IndexOf<T(==)>(s: seq<T>, x: T): (k: nat)
    ensures k <= |s| && forall j :: 0 <= j < k ==> s[j] != x
    ensures k < |s| ==> s[k] == x
  {
    if s == [] then 0
    else
      var k := IndexOf(s[..|s| - 1], x);
      if k < |s| - 1 || s[|s| - 1] != x then (if k < |s| - 1 then k else |s|) else k
  }

  lemma FrontServes(call: Call, chosen: seq<File>, pns: seq<Pn>, k: nat)
    requires call.Serve(chosen, pns) && k < |pns|
    ensures call.Serve(Front(chosen, k), Front(pns, k))
  {
  }

  /** They keep the order of the names. */
  lemma {:induction false} WithSorted(call: Call, pns: seq<Pn>, met: bool)
    requires Sorted(StrLe, pns)
    ensures Sorted(StrLe, call.With(pns, met)) && forall pn :: pn in call.With(pns, met) ==> pn in pns
  {
    if pns != [] {
      var front, last := pns[..|pns| - 1], pns[|pns| - 1];
      WithSorted(call, front, met);
      forall pn | pn in call.With(front, met) ensures StrLe(pn, last) {
        var i :| 0 <= i < |front| && front[i] == pn;
        assert pns[i] == pn && pns[|pns| - 1] == last;
      }
    }
  }

  lemma {:induction false} WithMembers(call: Call, pns: seq<Pn>, met: bool)
    requires Distinct(pns)
    ensures forall pn :: pn in call.With(pns, met) <==> pn in pns && call.Met(pn) == met
    ensures Distinct(call.With(pns, met))
  {
    if pns != [] {
      WithMembers(call, pns[..|pns| - 1], met);
      assert pns == pns[..|pns| - 1] + [pns[|pns| - 1]];
    }
  }

  /** The two passes together name every recipe once. */
  lemma OrderOnce(call: Call, pns: seq<Pn>)
    requires Distinct(pns)
    ensures Distinct(call.With(pns, true) + call.With(pns, false))
    ensures forall pn :: pn in call.With(pns, true) + call.With(pns, false) <==> pn in pns
  {
    WithMembers(call, pns, true);
    WithMembers(call, pns, false);
    ApartDistinct(call.With(pns, true), call.With(pns, false));
  }

  lemma ApartDistinct(a: seq<Pn>, b: seq<Pn>)
    requires Distinct(a) && Distinct(b) && forall pn :: pn in a ==> pn !in b
    ensures Distinct(a + b)
  {
    forall i, j | 0 <= i < j < |a + b| ensures (a + b)[i] != (a + b)[j] {
      if i < |a| <= j {
        assert a[i] in a && b[j - |a|] in b;
      }
    }
  }

  /** Moves the recipe named like the target to the front, once for every file it has. */
  method ItemFirst(eligible0: seq<File>, providers: seq<File>, item: string, c: DataCache, chosen: map<Pn, File>)
      returns (eligible: seq<File>)
    requires forall p :: p in providers ==> c.pkg_fn(p) in chosen
    ensures if (exists p :: p in providers && c.pkg_fn(p) == item) && chosen[item] in eligible0
            then eligible == Front(eligible0, IndexOf(eligible0, chosen[item]))
            else eligible == eligible0
  {
    eligible := eligible0;
    for i := 0 to |providers|
      invariant eligible == eligible0 || (item in chosen && chosen[item] in eligible0
                                          && eligible == Front(eligible0, IndexOf(eligible0, chosen[item])))
      invariant (exists j :: 0 <= j < i && c.pkg_fn(providers[j]) == item) && chosen[item] in eligible0 ==>
                  eligible == Front(eligible0, IndexOf(eligible0, chosen[item]))
      invariant !(exists j :: 0 <= j < i && c.pkg_fn(providers[j]) == item) ==> eligible == eligible0
    {
      var pn := c.pkg_fn(providers[i]);
      if pn == item {
        assert providers[i] in providers;
        var fn := chosen[pn];
        if fn in eligible {
          var k := IndexOf(eligible, fn);
          if eligible != eligible0 {
            assert eligible[0] == fn && k == 0;
          }
          eligible := Front(eligible, k);
        }
      }
    }
  }

  /** The files by recipe, and the names in order. */
  method MakeCall(sorted: seq<File>, c: DataCache, wishes: Pn -> Option<Wish>, cmp: (Version, Version) -> int)
      returns (call: Call, names: seq<Pn>)
    requires Preorder(cmp)
    ensures call.c == c && call.wishes == wishes && call.cmp == cmp && call.Valid()
    ensures Collated(call.pkg_pn, sorted, c) && Lists(names, call.pkg_pn.Keys)
    ensures forall pn :: pn in names ==> call.FilesOf(pn) != []
  {
    var pkg_pn := Collate(sorted, c);
    call := Call(pkg_pn, c, wishes, cmp);
    forall pn, f | pn in pkg_pn && f in pkg_pn[pn] ensures c.pkg_fn(f) == pn {
      OfMembers(sorted, c, pn);
    }
    names := SortedNames(pkg_pn.Keys);
    forall pn | pn in names ensures call.FilesOf(pn) != [] {
      assert pn in pkg_pn.Keys;
    }
  }

  /** The second pass after the first, and the recipe named like the target to the front. */
  method Complete(call: Call, names: seq<Pn>, sorted: seq<File>, item: string, first: seq<File>,
                  chosen: map<Pn, File>, groups: map<Pn, Groups>) returns (eligible: seq<File>)
    requires call.Valid() && Collated(call.pkg_pn, sorted, call.c) && Lists(names, call.pkg_pn.Keys)
    requires FirstPass(call, names, first, chosen, groups)
    ensures OnePerRecipe(call, names, item, eligible)
  {
    var latest, chosen' := AddLatest(call, names, first, chosen, groups);
    ServeBoth(call, first, latest, call.With(names, true), call.With(names, false));
    eligible := first + latest;
    forall p | p in sorted ensures call.c.pkg_fn(p) in chosen' {
      assert call.c.pkg_fn(p) in call.pkg_pn.Keys;
    }
    CollatedCovers(call, sorted, names);
    MovedServes(call, names, item, eligible, chosen');
    eligible := ItemFirst(eligible, sorted, item, call.c, chosen');
  }

  /** Exactly one file for every recipe that provides the target: the wished for versions first, each part in
    * the order of the names, and the recipe named like the target before all. A missing required version
    * ends this early, with what has been found for the recipes before it. */
  method FilterCommon(providers: seq<File>, item: string, c: DataCache, wishes: Pn -> Option<Wish>,
                      cmp: (Version, Version) -> int)
      returns (eligible: seq<File>, ghost call: Call, ghost pns: seq<Pn>, ghost b: nat)
    requires Preorder(cmp)
    ensures call.c == c && call.wishes == wishes && call.cmp == cmp && call.Valid()
    ensures Collated(call.pkg_pn, Sort(StrLe, providers), c) && Lists(pns, call.pkg_pn.Keys)
    ensures b <= |pns| && (forall k :: 0 <= k < b ==> !call.Missing(pns[k])) && (b < |pns| ==> call.Missing(pns[b]))
    ensures b < |pns| ==> call.Serve(eligible, call.With(pns[..b], true))
    ensures b == |pns| ==> OnePerRecipe(call, pns, item, eligible)
    ensures forall f :: f in eligible ==> f in providers
    ensures forall i, j :: 0 <= i < j < |eligible| ==> c.pkg_fn(eligible[i]) != c.pkg_fn(eligible[j])
  {
    var sorted := Sort(StrLe, providers);
    SortPermutes(StrLe, providers);
    SameMembers(sorted, providers);
    var env, names := MakeCall(sorted, c, wishes, cmp);
    call, pns := env, names;
    var missing, chosen, groups;
    missing, eligible, chosen, groups, b := AddPreferred(env, names);
    if missing {
      WithMembers(env, names[..b], true);
      ServeApart(env, sorted, eligible, env.With(names[..b], true));
    } else {
      assert names[..|names|] == names;
      eligible := Complete(env, names, sorted, item, eligible, chosen, groups);
      OnePerRecipeApart(env, sorted, names, item, eligible);
    }
  }

  /** Files that serve different recipes are different providers. */
  lemma ServeApart(call: Call, sorted: seq<File>, chosen: seq<File>, pns: seq<Pn>)
    requires Collated(call.pkg_pn, sorted, call.c) && call.Serve(chosen, pns) && Distinct(pns)
    ensures forall f :: f in chosen ==> f in sorted
    ensures forall i, j :: 0 <= i < j < |chosen| ==> call.c.pkg_fn(chosen[i]) != call.c.pkg_fn(chosen[j])
  {
    forall i | 0 <= i < |chosen| ensures chosen[i] in sorted {
      assert call.Chosen(pns[i], chosen[i]) && chosen[i] in call.FilesOf(pns[i]);
      OfMembers(sorted, call.c, pns[i]);
    }
  }

  lemma OnePerRecipeApart(call: Call, sorted: seq<File>, pns: seq<Pn>, item: string, eligible: seq<File>)
    requires Collated(call.pkg_pn, sorted, call.c) && Distinct(pns) && OnePerRecipe(call, pns, item, eligible)
    ensures forall f :: f in eligible ==> f in sorted
    ensures forall i, j :: 0 <= i < j < |eligible| ==> call.c.pkg_fn(eligible[i]) != call.c.pkg_fn(eligible[j])
  {
    OrderOnce(call, pns);
    var order := call.With(pns, true) + call.With(pns, false);
    if item in order {
      FrontApart(order, IndexOf(order, item));
      ServeApart(call, sorted, eligible, Front(order, IndexOf(order, item)));
    } else {
      ServeApart(call, sorted, eligible, order);
    }
  }

  lemma FrontApart(s: seq<Pn>, k: nat)
    requires Distinct(s) && k < |s|
    ensures Distinct(Front(s, k))
  {
  }

  lemma ServeBoth(call: Call, a: seq<File>, b: seq<File>, p: seq<Pn>, q: seq<Pn>)
    requires call.Serve(a, p) && call.Serve(b, q)
    ensures call.Serve(a + b, p + q)
  {
  }

  /** The recipes are those of the providers. */
  lemma CollatedCovers(call: Call, sorted: seq<File>, names: seq<Pn>)
    requires Collated(call.pkg_pn, sorted, call.c) && Lists(names, call.pkg_pn.Keys)
    ensures forall pn :: pn in names <==> exists p :: p in sorted && call.c.pkg_fn(p) == pn
  {
    forall pn | pn in names ensures exists p :: p in sorted && call.c.pkg_fn(p) == pn {
      assert pn in call.pkg_pn.Keys;
      OfMembers(sorted, call.c, pn);
      assert call.pkg_pn[pn][0] in Of(sorted, call.c, pn);
    }
    forall p | p in sorted ensures call.c.pkg_fn(p) in names {
      assert call.c.pkg_fn(p) in call.pkg_pn.Keys;
    }
  }

  ghost predicate OnePerRecipe(call: Call, pns: seq<Pn>, item: string, eligible: seq<File>) {
    var order := call.With(pns, true) + call.With(pns, false);
    call.Serve(eligible, if item in order then Front(order, IndexOf(order, item)) else order)
  }

  lemma MovedServes(call: Call, pns: seq<Pn>, item: string, eligible: seq<File>, chosen: map<Pn, File>)
    requires call.Valid() && Distinct(pns) && Present(call.c, chosen, eligible)
    requires call.Serve(eligible, call.With(pns, true) + call.With(pns, false))
    requires forall pn :: pn in pns ==> pn in chosen
    ensures OnePerRecipe(call, pns, item,
                         if item in pns && chosen[item] in eligible
                         then Front(eligible, IndexOf(eligible, chosen[item])) else eligible)
  {
    OrderOnce(call, pns);
    var order := call.With(pns, true) + call.With(pns, false);
    if item in pns {
      SameIndex(call, order, item, eligible, chosen[item]);
      FrontServes(call, eligible, order, IndexOf(order, item));
    }
  }

  lemma SameIndex(call: Call, order: seq<Pn>, item: Pn, eligible: seq<File>, f: File)
    requires call.Serve(eligible, order) && Distinct(order) && f in eligible && call.c.pkg_fn(f) == item
    ensures item in order && IndexOf(order, item) == IndexOf(eligible, f)
  {
    var k := IndexOf(eligible, f);
    assert order[k] == item;
  }

  // ---- filterProviders and filterProvidersRunTime -----------------------------------------------

  /** The first file of a recipe; the length if it has none. */
  method FindRecipe(eligible: seq<File>, c: DataCache, pn: Pn) returns (k: nat)
    ensures k <= |eligible| && forall j :: 0 <= j < k ==> c.pkg_fn(eligible[j]) != pn
    ensures k < |eligible| ==> c.pkg_fn(eligible[k]) == pn
  {
    k := 0;
    while k < |eligible| && c.pkg_fn(eligible[k]) != pn
      invariant k <= |eligible| && forall j :: 0 <= j < k ==> c.pkg_fn(eligible[j]) != pn
    {
      k := k + 1;
    }
  }

  /** A preferred provider among the eligible ones goes to the front; nothing else moves. A preference from
    * the configuration replaces the recorded one, also when no provider fits it. */
  method FilterProviders(eligible0: seq<File>, item: string, prefervar: string, preferred0: map<string, Pn>,
                         c: DataCache)
      returns (eligible: seq<File>, foundUnique: bool, preferred: map<string, Pn>, ghost k: nat)
    ensures preferred == if prefervar != "" then preferred0[item := prefervar] else preferred0
    ensures foundUnique <==> item in preferred && exists p :: p in eligible0 && c.pkg_fn(p) == preferred[item]
    ensures foundUnique ==>
              && k < |eligible0| && c.pkg_fn(eligible0[k]) == preferred[item]
              && (forall j :: 0 <= j < k ==> c.pkg_fn(eligible0[j]) != preferred[item])
              && eligible == [eligible0[k]] + eligible0[..k] + eligible0[k + 1..]
    ensures !foundUnique ==> eligible == eligible0
  {
    eligible, foundUnique, k := eligible0, false, 0;
    preferred := if prefervar != "" then preferred0[item := prefervar] else preferred0;
    if item in preferred {
      var at := FindRecipe(eligible, c, preferred[item]);
      k := at;
      if at < |eligible| {
        assert IndexOf(eligible, eligible[at]) == at;
        eligible := Front(eligible, IndexOf(eligible, eligible[at]));
        foundUnique := true;
      }
    }
  }
}

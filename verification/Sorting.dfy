/** Sorting as the signature code uses it: sorted() on strings, on pairs, and by a key. */
module Sorting {
  import opened Common

  /** Code point order of strings. */
  predicate StrLe(a: string, b: string) {
    a == [] || (b != [] && (a[0] < b[0] || (a[0] == b[0] && StrLe(a[1..], b[1..]))))
  }

  /** Tuple order of pairs of strings. */
  predicate PairLe(p: (string, string), q: (string, string)) {
    if p.0 == q.0 then StrLe(p.1, q.1) else StrLe(p.0, q.0)
  }

  ghost predicate Total<T(!new)>(le: (T, T) -> bool) {
    forall a, b :: le(a, b) || le(b, a)
  }

  ghost predicate Transitive<T(!new)>(le: (T, T) -> bool) {
    forall a, b, c :: le(a, b) && le(b, c) ==> le(a, c)
  }

  ghost predicate Antisymmetric<T(!new)>(le: (T, T) -> bool) {
    forall a, b :: le(a, b) && le(b, a) ==> a == b
  }

  ghost predicate Linear<T(!new)>(le: (T, T) -> bool) {
    Total(le) && Transitive(le) && Antisymmetric(le)
  }

  lemma {:induction false} StrTotal(a: string, b: string)
    ensures StrLe(a, b) || StrLe(b, a)
    ensures StrLe(a, b) && StrLe(b, a) ==> a == b
  {
    if a != [] && b != [] && a[0] == b[0] {
      StrTotal(a[1..], b[1..]);
      assert a == [a[0]] + a[1..] && b == [b[0]] + b[1..];
    }
  }

  lemma {:induction false} StrTrans(a: string, b: string, c: string)
    requires StrLe(a, b) && StrLe(b, c)
    ensures StrLe(a, c)
  {
    if a != [] && b != [] && c != [] && a[0] == b[0] == c[0] {
      StrTrans(a[1..], b[1..], c[1..]);
    }
  }

  /** What two strings begin with alike does not matter, */
  lemma {:induction false} StrLeFront(front: string, a: string, b: string)
    ensures StrLe(front + a, front + b) <==> StrLe(a, b)
  {
    if front == "" {
      assert front + a == a && front + b == b;
    } else {
      assert (front + a)[0] == (front + b)[0] == front[0];
      assert (front + a)[1..] == front[1..] + a && (front + b)[1..] == front[1..] + b;
      StrLeFront(front[1..], a, b);
    }
  }

  /** the first character in which they differ decides, and nothing comes before something. */
  lemma StrLeWhen(c: char, a: string, d: char, b: string)
    requires c != d
    ensures (StrLe([c] + a, [d] + b) <==> c < d) && StrLe("", a) && (a != "" ==> !StrLe(a, ""))
  {
  }

  /** Pairs are ordered by their first halves, and by the second ones where these agree. */
  lemma PairLeWhen(p: (string, string), q: (string, string))
    ensures p.0 != q.0 ==> (PairLe(p, q) <==> StrLe(p.0, q.0))
    ensures p.0 == q.0 ==> (PairLe(p, q) <==> StrLe(p.1, q.1))
  {
  }

  lemma StrLinear()
    ensures Linear(StrLe)
  {
    forall a, b ensures (StrLe(a, b) || StrLe(b, a)) && (StrLe(a, b) && StrLe(b, a) ==> a == b) {
      StrTotal(a, b);
    }
    forall a, b, c | StrLe(a, b) && StrLe(b, c) ensures StrLe(a, c) {
      StrTrans(a, b, c);
    }
  }

  lemma PairLinear()
    ensures Linear(PairLe)
  {
    forall p, q ensures (PairLe(p, q) || PairLe(q, p)) && (PairLe(p, q) && PairLe(q, p) ==> p == q) {
      StrTotal(p.0, q.0);
      StrTotal(p.1, q.1);
    }
    forall p, q, r | PairLe(p, q) && PairLe(q, r) ensures PairLe(p, r) {
      PairTrans(p, q, r);
    }
  }

  lemma PairTrans(p: (string, string), q: (string, string), r: (string, string))
    requires PairLe(p, q) && PairLe(q, r)
    ensures PairLe(p, r)
  {
    StrTotal(p.0, q.0);
    StrTotal(q.0, r.0);
    if p.0 == q.0 == r.0 {
      StrTrans(p.1, q.1, r.1);
    } else if p.0 != q.0 && q.0 != r.0 {
      StrTrans(p.0, q.0, r.0);
    }
  }

  // ---- Insertion sort, the reference for sorted() -----------------------------------------------

  ghost predicate Sorted<T>(le: (T, T) -> bool, s: seq<T>) {
    forall i, j :: 0 <= i < j < |s| ==> le(s[i], s[j])
  }

  /** Puts x before the first element that is not below it, so that equal elements keep their order. */
  function Insert<T>(le: (T, T) -> bool, x: T, s: seq<T>): seq<T> {
    if s == [] || le(x, s[0]) then [x] + s else [s[0]] + Insert(le, x, s[1..])
  }

  function Sort<T>(le: (T, T) -> bool, s: seq<T>): seq<T> {
    if s == [] then [] else Insert(le, s[0], Sort(le, s[1..]))
  }

  lemma {:induction false} InsertPermutes<T>(le: (T, T) -> bool, x: T, s: seq<T>)
    ensures multiset(Insert(le, x, s)) == multiset(s) + multiset{x}
  {
    if s != [] && !le(x, s[0]) {
      InsertPermutes(le, x, s[1..]);
      assert s == [s[0]] + s[1..];
    }
  }

  lemma {:induction false} SortPermutes<T>(le: (T, T) -> bool, s: seq<T>)
    ensures multiset(Sort(le, s)) == multiset(s)
  {
    if s != [] {
      SortPermutes(le, s[1..]);
      InsertPermutes(le, s[0], Sort(le, s[1..]));
      assert s == [s[0]] + s[1..];
    }
  }

  lemma SameMembers<T>(a: seq<T>, b: seq<T>)
    requires multiset(a) == multiset(b)
    ensures |a| == |b| && forall x :: x in a <==> x in b
  {
    assert |multiset(a)| == |a| && |multiset(b)| == |b|;
    forall x ensures x in a <==> x in b {
      assert x in a <==> x in multiset(a);
      assert x in b <==> x in multiset(b);
    }
  }

  lemma {:induction false} InsertSorts<T(!new)>(le: (T, T) -> bool, x: T, s: seq<T>)
    requires Total(le) && Transitive(le) && Sorted(le, s)
    ensures Sorted(le, Insert(le, x, s))
  {
    if s != [] && !le(x, s[0]) {
      var rest := Insert(le, x, s[1..]);
      InsertSorts(le, x, s[1..]);
      InsertPermutes(le, x, s[1..]);
      forall y | y in rest ensures le(s[0], y) {
        assert y in multiset(rest);
        assert y in multiset(s[1..]) || y == x;
      }
    }
  }

  lemma {:induction false} SortSorts<T(!new)>(le: (T, T) -> bool, s: seq<T>)
    requires Total(le) && Transitive(le)
    ensures Sorted(le, Sort(le, s))
  {
    if s != [] {
      SortSorts(le, s[1..]);
      InsertSorts(le, s[0], Sort(le, s[1..]));
    }
  }

  lemma SmallestFirst<T(!new)>(le: (T, T) -> bool, s: seq<T>, x: T)
    requires Linear(le) && Sorted(le, s) && x in s
    ensures le(s[0], x)
  {
    var i :| 0 <= i < |s| && s[i] == x;
    assert i == 0 || le(s[0], s[i]);
  }

  lemma TailMultiset<T>(s: seq<T>)
    requires s != []
    ensures multiset(s[1..]) == multiset(s) - multiset{s[0]}
  {
    assert s == [s[0]] + s[1..];
  }

  lemma SameHeadAndTail<T>(a: seq<T>, b: seq<T>)
    requires a != [] && b != [] && a[0] == b[0] && a[1..] == b[1..]
    ensures a == b
  {
    assert a == [a[0]] + a[1..] && b == [b[0]] + b[1..];
  }

  /** Under a linear order there is one way to sort: two sorted lists with the same elements are equal. */
  lemma {:induction false} SortedUnique<T(!new)>(le: (T, T) -> bool, a: seq<T>, b: seq<T>)
    requires Linear(le) && Sorted(le, a) && Sorted(le, b) && multiset(a) == multiset(b)
    ensures a == b
  {
    SameMembers(a, b);
    if a != [] {
      assert a[0] in b && b[0] in a;
      SmallestFirst(le, a, b[0]);
      SmallestFirst(le, b, a[0]);
      TailMultiset(a);
      TailMultiset(b);
      SortedUnique(le, a[1..], b[1..]);
      SameHeadAndTail(a, b);
    }
  }

  /** So the order in which the elements are given does not matter. */
  lemma SortOrderFree<T(!new)>(le: (T, T) -> bool, a: seq<T>, b: seq<T>)
    requires Linear(le) && multiset(a) == multiset(b)
    ensures Sort(le, a) == Sort(le, b)
  {
    SortSorts(le, a);
    SortSorts(le, b);
    SortPermutes(le, a);
    SortPermutes(le, b);
    SortedUnique(le, Sort(le, a), Sort(le, b));
  }

  // ---- sorted() of a set of names ---------------------------------------------------------------

  /** The names of a set, each once, in order. */
  ghost predicate Lists(names: seq<string>, s: set<string>) {
    && Sorted(StrLe, names)
    && Distinct(names)
    && forall x :: x in s <==> x in names
  }

  lemma {:induction false} DistinctMultiset<T>(names: seq<T>, s: set<T>)
    requires Distinct(names)
    requires forall x :: x in s <==> x in names
    ensures multiset(names) == multiset(s)
  {
    if names == [] {
      assert s == {};
    } else {
      var front, last := names[..|names| - 1], names[|names| - 1];
      assert names == front + [last];
      DistinctMultiset(front, s - {last});
      assert s == (s - {last}) + {last};
    }
  }

  lemma ListsUnique(a: seq<string>, b: seq<string>, s: set<string>)
    requires Lists(a, s) && Lists(b, s)
    ensures a == b
  {
    DistinctMultiset(a, s);
    DistinctMultiset(b, s);
    StrLinear();
    SortedUnique(StrLe, a, b);
  }

  /** sorted() of a set, for any linear order. */
  method SortedSet<T(!new, ==)>(le: (T, T) -> bool, s: set<T>) returns (listed: seq<T>)
    requires Linear(le)
    ensures Sorted(le, listed) && Distinct(listed) && forall x :: x in s <==> x in listed
  {
    var rest, found := s, [];
    while rest != {}
      invariant rest <= s
      invariant forall x :: x in s - rest <==> x in found
      invariant Distinct(found)
      decreases rest
    {
      var x :| x in rest;
      assert x !in found;
      rest, found := rest - {x}, found + [x];
    }
    listed := Sort(le, found);
    SortSorts(le, found);
    SortPermutes(le, found);
    SameMembers(listed, found);
    DistinctMultiset(found, s);
    NoneTwice(listed, s);
  }

  method SortedNames(s: set<string>) returns (names: seq<string>)
    ensures Lists(names, s)
  {
    StrLinear();
    names := SortedSet(StrLe, s);
  }

  lemma TwiceCounts<T>(names: seq<T>, i: nat, j: nat)
    requires i < j < |names| && names[i] == names[j]
    ensures multiset(names)[names[i]] >= 2
  {
    assert names == names[..j] + names[j..];
    assert names[..j][i] == names[j..][0] == names[i];
    assert names[i] in multiset(names[..j]) && names[i] in multiset(names[j..]);
  }

  lemma NoneTwice<T>(names: seq<T>, s: set<T>)
    requires multiset(names) == multiset(s)
    ensures Distinct(names)
  {
    forall i, j | 0 <= i < j < |names| ensures names[i] != names[j] {
      if names[i] == names[j] {
        TwiceCounts(names, i, j);
      }
    }
  }
}

/** The index from a variable to the variables that override it, which the datastore keeps up to date
  * on every write so that a read need not search the whole store.
  */
module OverrideIndex {
  import opened Common

  /** The variable `r` overrides some variable when override `o` is active. */
  datatype Entry = Entry(r: string, o: string)

  type Index = map<string, seq<Entry>>

  /** The test that stops the walk: an override starts with a lower-case letter or a digit. */
  predicate Starts(o: string) {
    o != "" && ('a' <= o[0] <= 'z' || '0' <= o[0] <= '9')
  }

  /** The pairs (variable, override) visited for a name cut at the colon p and then at earlier colons. */
  function WalkFrom(name: string, p: nat): seq<(string, string)>
    requires p < |name| && name[p] == ':'
  {
    if !Starts(name[p + 1..]) then []
    else
      var q := LastColon(name[..p]);
      [(name[..p], name[p + 1..])] + if q > 0 then WalkFrom(name, q) else []
  }

  /** The pairs visited for a name. A name without colon is cut before its last character, because
    * rfind answers -1 and a slice up to -1 drops one. */
  function Walk(name: string): seq<(string, string)>
  {
    var p := LastColon(name);
    if p >= 0 then WalkFrom(name, p)
    else if Starts(name) then [(name[..|name| - 1], name)] else []
  }

  lemma CutAt(name: string, p: nat)
    requires p < |name| && name[p] == ':'
    ensures name == name[..p] + ":" + name[p + 1..]
  {
  }

  lemma {:induction false} WalkFromCuts(name: string, p: nat, e: (string, string))
    requires p < |name| && name[p] == ':' && e in WalkFrom(name, p)
    ensures name == e.0 + ":" + e.1
  {
    var q := LastColon(name[..p]);
    if e == (name[..p], name[p + 1..]) {
      CutAt(name, p);
    } else {
      assert q > 0 && e in WalkFrom(name, q);
      WalkFromCuts(name, q, e);
    }
  }

  /** Every visited pair cuts the name at one of its colons. */
  lemma WalkCuts(name: string, e: (string, string))
    requires e in Walk(name) && ':' in name
    ensures name == e.0 + ":" + e.1
  {
    WalkFromCuts(name, LastColon(name), e);
  }

  function Listed(ix: Index, v: string): seq<Entry> {
    if v in ix then ix[v] else []
  }

  function AddEntry(ix: Index, v: string, e: Entry): Index {
    if e in Listed(ix, v) then ix else ix[v := Listed(ix, v) + [e]]
  }

  function DropEntry(ix: Index, v: string, e: Entry): Index {
    if v in ix then ix[v := Remove(ix[v], e)] else ix
  }

  function Enter(ix: Index, name: string, w: seq<(string, string)>): Index
    decreases |w|
  {
    if w == [] then ix else Enter(AddEntry(ix, w[0].0, Entry(name, w[0].1)), name, w[1..])
  }

  function Withdraw(ix: Index, name: string, w: seq<(string, string)>): Index
    decreases |w|
  {
    if w == [] then ix else Withdraw(DropEntry(ix, w[0].0, Entry(name, w[0].1)), name, w[1..])
  }

  /** Every entry was put there by the walk of the variable it names, and only once. */
  ghost predicate WellIndexed(ix: Index) {
    forall v :: v in ix ==> Distinct(ix[v]) && forall e :: e in ix[v] ==> (v, e.o) in Walk(e.r)
  }

  lemma AddEntryExact(ix: Index, v: string, e: Entry)
    requires WellIndexed(ix) && (v, e.o) in Walk(e.r)
    ensures WellIndexed(AddEntry(ix, v, e))
    ensures forall u, f :: f in Listed(AddEntry(ix, v, e), u) <==> f in Listed(ix, u) || (u == v && f == e)
  {
  }

  lemma {:induction false} EnterExact(ix: Index, name: string, w: seq<(string, string)>)
    requires WellIndexed(ix) && forall p :: p in w ==> p in Walk(name)
    ensures WellIndexed(Enter(ix, name, w))
    ensures forall v, e :: e in Listed(Enter(ix, name, w), v) <==> e in Listed(ix, v) || (e.r == name && (v, e.o) in w)
    decreases |w|
  {
    if w != [] {
      AddEntryExact(ix, w[0].0, Entry(name, w[0].1));
      EnterExact(AddEntry(ix, w[0].0, Entry(name, w[0].1)), name, w[1..]);
      assert forall p :: p in w <==> p == w[0] || p in w[1..];
    }
  }

  lemma DropEntryExact(ix: Index, v: string, e: Entry)
    requires WellIndexed(ix)
    ensures WellIndexed(DropEntry(ix, v, e))
    ensures forall u, f :: f in Listed(DropEntry(ix, v, e), u) <==> f in Listed(ix, u) && !(u == v && f == e)
  {
    if v in ix {
      RemoveDistinct(ix[v], e);
    }
  }

  lemma {:induction false} WithdrawExact(ix: Index, name: string, w: seq<(string, string)>)
    requires WellIndexed(ix)
    ensures WellIndexed(Withdraw(ix, name, w))
    ensures forall v, e :: e in Listed(Withdraw(ix, name, w), v) <==>
                           e in Listed(ix, v) && !(e.r == name && (v, e.o) in w)
    decreases |w|
  {
    if w != [] {
      DropEntryExact(ix, w[0].0, Entry(name, w[0].1));
      WithdrawExact(DropEntry(ix, w[0].0, Entry(name, w[0].1)), name, w[1..]);
      assert forall p :: p in w <==> p == w[0] || p in w[1..];
    }
  }

  // ---- The two promises of the index ------------------------------------------------------------

  /** The entry says what its name says. */
  predicate Truthful(v: string, e: Entry) {
    e.r == v + ":" + e.o
  }

  ghost predicate AllTruthful(ix: Index) {
    forall v, e :: e in Listed(ix, v) ==> Truthful(v, e)
  }

  /** A name the walk handles properly. */
  predicate Indexable(name: string) {
    ':' in name || !Starts(name)
  }

  /** Entering a name keeps the index truthful exactly when the name has a colon or does not look like
    * an override. The append, prepend and remove operations enter the base name whether or not it has
    * a colon, so "do_install:append" files do_install under "do_instal". */
  lemma EnterTruthful(ix: Index, name: string)
    requires WellIndexed(ix) && AllTruthful(ix)
    ensures AllTruthful(Enter(ix, name, Walk(name))) <==> Indexable(name)
  {
    EnterExact(ix, name, Walk(name));
    var after := Enter(ix, name, Walk(name));
    if Indexable(name) {
      forall v, e | e in Listed(after, v) ensures Truthful(v, e) {
        if e !in Listed(ix, v) {
          WalkCuts(name, (v, e.o));
        }
      }
    } else {
      var v, e := name[..|name| - 1], Entry(name, name);
      assert Walk(name)[0] == (v, name);
      assert e in Listed(after, v) && |v + ":" + name| != |name|;
      assert !Truthful(v, e);
    }
  }

  /** What delVar does to the index. */
  function Forget(ix: Index, name: string): Index {
    var ix' := ix - {name};
    if ':' in name then Withdraw(ix', name, Walk(name)) else ix'
  }

  lemma ListedWithout(ix: Index, name: string, v: string)
    ensures Listed(ix - {name}, v) == if v == name then [] else Listed(ix, v)
  {
  }

  lemma DropWellIndexed(ix: Index, name: string)
    requires WellIndexed(ix)
    ensures WellIndexed(ix - {name})
  {
  }

  lemma ForgetEntry(ix: Index, name: string, v: string, e: Entry)
    requires WellIndexed(ix)
    ensures e in Listed(Forget(ix, name), v) <==> v != name && e in Listed(ix, v) && (e.r != name || ':' !in name)
  {
    ListedWithout(ix, name, v);
    if ':' in name {
      DropWellIndexed(ix, name);
      WithdrawExact(ix - {name}, name, Walk(name));
    }
  }

  lemma ForgetIndexed(ix: Index, name: string)
    requires WellIndexed(ix)
    ensures WellIndexed(Forget(ix, name))
  {
    DropWellIndexed(ix, name);
    if ':' in name {
      WithdrawExact(ix - {name}, name, Walk(name));
    }
  }

  /** Deleting a variable drops its own list, and the entries that name it if it has a colon. */
  lemma ForgetExact(ix: Index, name: string)
    requires WellIndexed(ix)
    ensures WellIndexed(Forget(ix, name))
    ensures forall v, e :: e in Listed(Forget(ix, name), v) <==>
                           v != name && e in Listed(ix, v) && (e.r != name || ':' !in name)
  {
    ForgetIndexed(ix, name);
    var after := Forget(ix, name);
    forall v, e {:trigger e in Listed(after, v)}
      ensures e in Listed(after, v) <==> v != name && e in Listed(ix, v) && (e.r != name || ':' !in name)
    {
      ForgetEntry(ix, name, v, e);
    }
  }

  /** An entry that names a variable without colon was put under its truncation. */
  lemma OwnTruncation(ix: Index, name: string, v: string, e: Entry)
    requires WellIndexed(ix) && ':' !in name && e in Listed(ix, v) && e.r == name
    ensures name != "" && v == name[..|name| - 1] && e == Entry(name, name)
  {
    assert (v, e.o) in Walk(name);
  }

  /** After a variable is deleted no entry names it, except the one that a name without colon may have
    * left under its own truncation. */
  lemma ForgottenExact(ix: Index, name: string)
    requires WellIndexed(ix)
    ensures (forall v, e :: e in Listed(Forget(ix, name), v) ==> e.r != name) <==>
            (':' in name || name == "" || Entry(name, name) !in Listed(ix, name[..|name| - 1]))
  {
    ForgetExact(ix, name);
    if ':' !in name {
      forall v, e | e in Listed(Forget(ix, name), v) && e.r == name
        ensures name != "" && Entry(name, name) in Listed(ix, name[..|name| - 1])
      {
        OwnTruncation(ix, name, v, e);
      }
      if name != "" && Entry(name, name) in Listed(ix, name[..|name| - 1]) {
        assert Entry(name, name) in Listed(Forget(ix, name), name[..|name| - 1]);
      }
    }
  }

  /** "do_install:append" puts do_install into the list of do_instal, where deleting it never looks. */
  lemma LowerCaseNameLies()
    ensures var ix := Enter(map[], "do_install", Walk("do_install"));
            && Entry("do_install", "do_install") in Listed(ix, "do_instal")
            && !AllTruthful(ix)
            && Entry("do_install", "do_install") in Listed(Forget(ix, "do_install"), "do_instal")
  {
    var name := "do_install";
    assert ':' !in name && Starts(name) && name[..|name| - 1] == "do_instal";
    assert LastColon(name) == -1;
    assert Walk(name) == [("do_instal", name)];
    EnterExact(map[], name, Walk(name));
    EnterTruthful(map[], name);
    ForgetExact(Enter(map[], name, Walk(name)), name);
  }
}

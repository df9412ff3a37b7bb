/** What the text behind a base hash tells about the values that went into it. Names and values follow each
  * other without a separator.
  */
module HashText {
  import opened Common
  import opened DependencyClosure

  ghost predicate SameValues(a: map<Key, Option<string>>, b: map<Key, Option<string>>, task: Key, names: seq<Key>)
    requires task in a && task in b && forall k :: k in names ==> k in a && k in b
  {
    Str(a[task]) == Str(b[task]) && forall k :: k in names ==> Str(a[k]) == Str(b[k])
  }

  lemma {:induction false} DepLengthsTell(a: map<Key, Option<string>>, b: map<Key, Option<string>>, names: seq<Key>)
    requires forall k :: k in names ==> k in a && k in b && |Str(a[k])| == |Str(b[k])|
    ensures |DepText(a, names)| == |DepText(b, names)|
    ensures DepText(a, names) == DepText(b, names) <==> forall k :: k in names ==> Str(a[k]) == Str(b[k])
  {
    if names != [] {
      var front, last := names[..|names| - 1], names[|names| - 1];
      assert names == front + [last];
      DepLengthsTell(a, b, front);
      SameEnds(DepText(a, front), last + Str(a[last]), DepText(b, front), last + Str(b[last]));
      SameEnds(last, Str(a[last]), last, Str(b[last]));
      Regroup(DepText(a, front), last, Str(a[last]));
      Regroup(DepText(b, front), last, Str(b[last]));
    }
  }

  /** Texts over the same names with values of the same lengths are equal exactly when the values are. */
  lemma LengthsTell(a: map<Key, Option<string>>, b: map<Key, Option<string>>, task: Key, names: seq<Key>)
    requires task in a && task in b && |Str(a[task])| == |Str(b[task])|
    requires forall k :: k in names ==> k in a && k in b && |Str(a[k])| == |Str(b[k])|
    ensures BaseText(a, task, names) == BaseText(b, task, names) <==> SameValues(a, b, task, names)
  {
    DepLengthsTell(a, b, names);
    SameEnds(Str(a[task]), DepText(a, names), Str(b[task]), DepText(b, names));
  }

  /** The text behind the base hash tells the value of the task and of each dependency. */
  ghost predicate TextTells(task: Key, names: seq<Key>) {
    forall a: map<Key, Option<string>>, b: map<Key, Option<string>> ::
      task in a && task in b && (forall k :: k in names ==> k in a && k in b)
      && BaseText(a, task, names) == BaseText(b, task, names) ==>
        SameValues(a, b, task, names)
  }

  /** The task itself at most is a dependency: the length of the text gives the length of its value. */
  lemma AloneTells(a: map<Key, Option<string>>, b: map<Key, Option<string>>, task: Key, names: seq<Key>)
    requires (names == [] || names == [task]) && task in a && task in b
    requires BaseText(a, task, names) == BaseText(b, task, names)
    ensures SameValues(a, b, task, names)
  {
    if names == [task] {
      assert names[..0] == [];
      assert DepText(a, names) == task + Str(a[task]) && DepText(b, names) == task + Str(b[task]);
      assert |BaseText(a, task, names)| == 2 * |Str(a[task])| + |task|;
      assert |BaseText(b, task, names)| == 2 * |Str(b[task])| + |task|;
      SameEnds(Str(a[task]), DepText(a, names), Str(b[task]), DepText(b, names));
    } else {
      assert Str(a[task]) + "" == Str(a[task]) && Str(b[task]) + "" == Str(b[task]);
    }
  }

  lemma OtherName(task: Key, names: seq<Key>) returns (k: Key)
    requires Distinct(names) && names != [] && names != [task]
    ensures k in names && k != task
  {
    k := if names[0] == task then names[1] else names[0];
  }

  /** The task has the value x, the dependency k has y, and all other values are empty. */
  function Assigned(task: Key, names: seq<Key>, k: Key, x: string, y: string): map<Key, Option<string>> {
    map n | n in names + [task] :: Some(if n == task then x else if n == k then y else "")
  }

  /** Dependencies without a value. */
  ghost predicate Blank(lookup: map<Key, Option<string>>, names: seq<Key>) {
    forall k :: k in names ==> k in lookup && Str(lookup[k]) == ""
  }

  lemma {:induction false} BlankText(lookup: map<Key, Option<string>>, names: seq<Key>)
    requires Blank(lookup, names)
    ensures DepText(lookup, names) == Joined(names)
  {
    if names != [] {
      BlankText(lookup, names[..|names| - 1]);
    }
  }

  /** Without any values the text is the names alone. */
  lemma NamesOnly(lookup: map<Key, Option<string>>, task: Key, names: seq<Key>)
    requires task in lookup && lookup[task].None? && forall k :: k in names ==> k in lookup && lookup[k].None?
    ensures BaseText(lookup, task, names) == Joined(names)
  {
    BlankText(lookup, names);
    Empty(Joined(names));
  }

  /** The text before a name, the name, its value, and the text after it. */
  lemma {:induction false} Around(lookup: map<Key, Option<string>>, before: seq<Key>, k: Key, after: seq<Key>)
    requires forall n :: n in before + [k] + after ==> n in lookup
    ensures (forall n :: n in before ==> n in lookup) && (forall n :: n in after ==> n in lookup) && k in lookup
    ensures DepText(lookup, before + [k] + after) ==
            DepText(lookup, before) + k + Str(lookup[k]) + DepText(lookup, after)
  {
    var all, head := before + [k] + after, DepText(lookup, before) + k + Str(lookup[k]);
    assert k in all;
    if after == [] {
      assert all[..|all| - 1] == before;
    } else {
      var front, last := after[..|after| - 1], after[|after| - 1];
      assert all[..|all| - 1] == before + [k] + front;
      Around(lookup, before, k, front);
      Regroup(head, DepText(lookup, front), last);
      Regroup(head, DepText(lookup, front) + last, Str(lookup[last]));
    }
  }

  /** How the value x of the task and the value y of k stand in the text, depending on where the task is among
    * its own dependencies; p, q and c are made of names. */
  datatype Shape =
    | Apart(p: string, c: string)
    | Before(p: string, q: string, c: string)
    | Behind(p: string, q: string, c: string)
  {
    function Text(x: string, y: string): string {
      match this
      case Apart(p, c) => x + p + y + c
      case Before(p, q, c) => x + p + x + q + y + c
      case Behind(p, q, c) => x + p + y + q + x + c
    }
  }

  lemma CutAt(names: seq<Key>, k: Key) returns (before: seq<Key>, after: seq<Key>)
    requires Distinct(names) && k in names
    ensures names == before + [k] + after && k !in before && k !in after
    ensures Distinct(before) && Distinct(after) && forall n :: n in before ==> n !in after
    ensures forall n :: n in names <==> n in before || n == k || n in after
  {
    var i :| 0 <= i < |names| && names[i] == k;
    before, after := names[..i], names[i + 1..];
  }

  /** One dependency k with the value y among others that have none. */
  lemma OneText(lookup: map<Key, Option<string>>, before: seq<Key>, k: Key, after: seq<Key>)
    requires Blank(lookup, before) && Blank(lookup, after) && k in lookup
    ensures forall n :: n in before + [k] + after ==> n in lookup
    ensures DepText(lookup, before + [k] + after) == Joined(before) + k + Str(lookup[k]) + Joined(after)
  {
    Around(lookup, before, k, after);
    BlankText(lookup, before);
    BlankText(lookup, after);
  }

  lemma ShapeApart(a: map<Key, Option<string>>, task: Key, before: seq<Key>, k: Key, after: seq<Key>)
    requires Blank(a, before) && Blank(a, after) && k in a && task in a
    ensures forall n :: n in before + [k] + after ==> n in a
    ensures BaseText(a, task, before + [k] + after) ==
            Apart(Joined(before) + k, Joined(after)).Text(Str(a[task]), Str(a[k]))
  {
    var x, y, p, c := Str(a[task]), Str(a[k]), Joined(before) + k, Joined(after);
    OneText(a, before, k, after);
    Regroup(x, p + y, c);
    Regroup(x, p, y);
  }

  lemma ShapeBefore(a: map<Key, Option<string>>, task: Key, u: seq<Key>, w: seq<Key>, k: Key, after: seq<Key>)
    requires Blank(a, u) && Blank(a, w) && Blank(a, after) && k in a && task in a
    ensures forall n :: n in u + [task] + w + [k] + after ==> n in a
    ensures BaseText(a, task, u + [task] + w + [k] + after) ==
            Before(Joined(u) + task, Joined(w) + k, Joined(after)).Text(Str(a[task]), Str(a[k]))
  {
    var x, y, p, q, c := Str(a[task]), Str(a[k]), Joined(u) + task, Joined(w) + k, Joined(after);
    OneText(a, u, task, w);
    Around(a, u + [task] + w, k, after);
    BlankText(a, after);
    assert DepText(a, u + [task] + w + [k] + after) == p + x + Joined(w) + k + y + c;
    Regroup(p + x, Joined(w), k);
    Spread(x, p, x, q, y, c);
  }

  lemma ShapeBehind(a: map<Key, Option<string>>, task: Key, before: seq<Key>, k: Key, u: seq<Key>, w: seq<Key>)
    requires Blank(a, before) && Blank(a, u) && Blank(a, w) && k in a && task in a
    ensures forall n :: n in before + [k] + (u + [task] + w) ==> n in a
    ensures BaseText(a, task, before + [k] + (u + [task] + w)) ==
            Behind(Joined(before) + k, Joined(u) + task, Joined(w)).Text(Str(a[task]), Str(a[k]))
  {
    var x, y, p, q, c := Str(a[task]), Str(a[k]), Joined(before) + k, Joined(u) + task, Joined(w);
    OneText(a, u, task, w);
    Around(a, before, k, u + [task] + w);
    BlankText(a, before);
    assert DepText(a, before + [k] + (u + [task] + w)) == p + y + (q + x + c);
    Regroup(p + y, q + x, c);
    Regroup(p + y, q, x);
    Spread(x, p, y, q, x, c);
  }

  lemma Spread(s: string, a: string, b: string, c: string, d: string, e: string)
    ensures s + (a + b + c + d + e) == s + a + b + c + d + e
  {
    Regroup(s, a + b + c + d, e);
    Regroup(s, a + b + c, d);
    Regroup(s, a + b, c);
    Regroup(s, a, b);
  }

  lemma SpreadFour(s: string, a: string, b: string, c: string, d: string)
    ensures s + (a + b + c + d) == s + a + b + c + d
  {
    Regroup(s, a + b + c, d);
    Regroup(s, a + b, c);
    Regroup(s, a, b);
  }

  /** Two different values of the task that the text cannot tell apart. */
  lemma ShapeRepeats(shape: Shape) returns (x: string, y: string, z: string)
    requires !shape.Apart? ==> shape.p + shape.q != ""
    ensures x != "" && shape.Text("", y) == shape.Text(x, z)
  {
    match shape
    case Apart(p, c) =>
      x := if p == "" then "A" else p;
      y, z := x, "";
      assert "" + p + x == p + x && x + p + "" == x + p;
      assert p == "" ==> p + x == x == x + p;
    case Before(p, q, c) =>
      x, y, z := p + q, p + p + q + q, "";
      assert "" + p + "" + q == p + q && x + p + x + q + "" == x + p + x + q;
      SpreadFour(x, p, p, q, q);
      Regroup(x + p, p, q);
    case Behind(p, q, c) =>
      x, y, z := p + q, q + p + q + p, "";
      assert "" + p == p && p + y + q + "" == p + y + q && x + p + "" == x + p;
      SpreadFour(p, q, p, q, p);
      Regroup(x + p + q, p, q);
  }

  lemma AssignedBlank(task: Key, names: seq<Key>, k: Key, part: seq<Key>, x: string, y: string)
    requires forall n :: n in part ==> n in names && (n != task || x == "") && (n != k || n == task || y == "")
    ensures Blank(Assigned(task, names, k, x, y), part)
  {
  }

  /** The text over these names has this shape, whatever the values of the task and of k. */
  ghost predicate HasShape(task: Key, names: seq<Key>, k: Key, shape: Shape)
    requires k in names
  {
    forall x, y :: BaseText(Assigned(task, names, k, x, y), task, names) == shape.Text(x, y)
  }

  lemma ApartIn(task: Key, names: seq<Key>, before: seq<Key>, k: Key, after: seq<Key>)
    requires names == before + [k] + after && k !in before && k !in after && task !in names
    requires forall n :: n in names <==> n in before || n == k || n in after
    ensures HasShape(task, names, k, Apart(Joined(before) + k, Joined(after)))
  {
    forall x, y
      ensures BaseText(Assigned(task, names, k, x, y), task, names) ==
              Apart(Joined(before) + k, Joined(after)).Text(x, y)
    {
      AssignedBlank(task, names, k, before, x, y);
      AssignedBlank(task, names, k, after, x, y);
      ShapeApart(Assigned(task, names, k, x, y), task, before, k, after);
    }
  }

  lemma BeforeIn(task: Key, names: seq<Key>, u: seq<Key>, w: seq<Key>, k: Key, after: seq<Key>)
    requires names == u + [task] + w + [k] + after && k != task && k !in u + w + after && task !in u + w + after
    requires forall n :: n in names <==> n in u || n == task || n in w || n == k || n in after
    ensures HasShape(task, names, k, Before(Joined(u) + task, Joined(w) + k, Joined(after)))
  {
    forall x, y
      ensures BaseText(Assigned(task, names, k, x, y), task, names) ==
              Before(Joined(u) + task, Joined(w) + k, Joined(after)).Text(x, y)
    {
      AssignedBlank(task, names, k, u, x, y);
      AssignedBlank(task, names, k, w, x, y);
      AssignedBlank(task, names, k, after, x, y);
      ShapeBefore(Assigned(task, names, k, x, y), task, u, w, k, after);
    }
  }

  lemma BehindIn(task: Key, names: seq<Key>, before: seq<Key>, k: Key, u: seq<Key>, w: seq<Key>)
    requires names == before + [k] + (u + [task] + w) && k != task && k !in before + u + w && task !in before + u + w
    requires forall n :: n in names <==> n in before || n == k || n in u || n == task || n in w
    ensures HasShape(task, names, k, Behind(Joined(before) + k, Joined(u) + task, Joined(w)))
  {
    forall x, y
      ensures BaseText(Assigned(task, names, k, x, y), task, names) ==
              Behind(Joined(before) + k, Joined(u) + task, Joined(w)).Text(x, y)
    {
      AssignedBlank(task, names, k, before, x, y);
      AssignedBlank(task, names, k, u, x, y);
      AssignedBlank(task, names, k, w, x, y);
      ShapeBehind(Assigned(task, names, k, x, y), task, before, k, u, w);
    }
  }

  lemma ShapeOf(task: Key, names: seq<Key>, k: Key) returns (shape: Shape)
    requires Distinct(names) && k in names && k != task
    ensures !shape.Apart? ==> shape.p + shape.q != ""
    ensures HasShape(task, names, k, shape)
  {
    var before, after := CutAt(names, k);
    if task in before {
      var u, w := CutAt(before, task);
      BeforeIn(task, names, u, w, k, after);
      shape := Before(Joined(u) + task, Joined(w) + k, Joined(after));
    } else if task in after {
      var u, w := CutAt(after, task);
      BehindIn(task, names, before, k, u, w);
      shape := Behind(Joined(before) + k, Joined(u) + task, Joined(w));
    } else {
      ApartIn(task, names, before, k, after);
      shape := Apart(Joined(before) + k, Joined(after));
    }
  }

  /** The text tells all values apart exactly when the task depends on nothing, or on itself alone. */
  lemma TextTellsExact(task: Key, names: seq<Key>)
    requires Distinct(names)
    ensures TextTells(task, names) <==> names == [] || names == [task]
  {
    if names == [] || names == [task] {
      forall a: map<Key, Option<string>>, b: map<Key, Option<string>> |
        task in a && task in b && (forall k :: k in names ==> k in a && k in b)
        && BaseText(a, task, names) == BaseText(b, task, names)
        ensures SameValues(a, b, task, names)
      {
        AloneTells(a, b, task, names);
      }
    } else {
      var k := OtherName(task, names);
      var shape := ShapeOf(task, names, k);
      var x, y, z := ShapeRepeats(shape);
      var a, b := Assigned(task, names, k, "", y), Assigned(task, names, k, x, z);
      assert BaseText(a, task, names) == BaseText(b, task, names) && Str(a[task]) != Str(b[task]);
    }
  }

  /** An instance over one list: the value "A" and an empty `A`, or no value and `A` = "A". */
  lemma ValueNotTold(task: Key, a: map<Key, Option<string>>, b: map<Key, Option<string>>)
    requires task != "A" && a == map[task := Some("A"), "A" := Some("")]
    requires b == map[task := Some(""), "A" := Some("A")]
    ensures BaseText(a, task, ["A"]) == BaseText(b, task, ["A"]) == "AA"
  {
    assert ["A"][..0] == [];
    assert DepText(a, []) == "" == DepText(b, []);
  }

  // ---- The names --------------------------------------------------------------------------------

  ghost predicate OneTextForBoth(task: Key, a: map<Key, Option<string>>, these: seq<Key>,
                                 b: map<Key, Option<string>>, those: seq<Key>) {
    && task in a && task in b && (forall k :: k in these ==> k in a) && (forall k :: k in those ==> k in b)
    && BaseText(a, task, these) == BaseText(b, task, those)
  }

  lemma Empty(s: string)
    ensures "" + s == s == s + ""
  {
  }

  lemma LastText(lookup: map<Key, Option<string>>, front: seq<Key>, k: Key)
    requires Blank(lookup, front) && k in lookup
    ensures DepText(lookup, front + [k]) == Joined(front + [k]) + Str(lookup[k])
  {
    assert (front + [k])[..|front|] == front;
    BlankText(lookup, front);
  }

  lemma LastTwoText(lookup: map<Key, Option<string>>, front: seq<Key>, k: Key, task: Key)
    requires Blank(lookup, front) && k in lookup && task in lookup
    ensures DepText(lookup, front + [k] + [task]) ==
            Joined(front + [k]) + Str(lookup[k]) + task + Str(lookup[task])
  {
    LastText(lookup, front, k);
    assert (front + [k] + [task])[..|front + [k]|] == front + [k];
  }

  /** The last name can take what the other list leaves, */
  lemma LastTakes(task: Key, front: seq<Key>, k: Key, those: seq<Key>)
      returns (a: map<Key, Option<string>>, b: map<Key, Option<string>>)
    requires Distinct(front + [k]) && k != task
    ensures OneTextForBoth(task, a, front + [k], b, those)
  {
    var p := Joined(front + [k]);
    b := Assigned(task, those, task, p, "");
    var rest := DepText(b, those);
    a := Assigned(task, front + [k], k, "", rest);
    DistinctLast(front, k);
    AssignedBlank(task, front + [k], k, front, "", rest);
    LastText(a, front, k);
    Empty(p + rest);
  }

  /** the task itself can when it has no dependencies, */
  lemma NoneTakes(task: Key, those: seq<Key>) returns (a: map<Key, Option<string>>, b: map<Key, Option<string>>)
    ensures OneTextForBoth(task, a, [], b, those)
  {
    b := Assigned(task, those, task, "", "");
    a := map[task := Some(BaseText(b, task, those))];
    assert BaseText(a, task, []) == BaseText(b, task, those) + "";
  }

  /** and so can the name before it when it is the last of both lists. */
  lemma BeforeTaskTakes(task: Key, these: seq<Key>, front: seq<Key>, k: Key)
      returns (a: map<Key, Option<string>>, b: map<Key, Option<string>>)
    requires Distinct(these + [task]) && Distinct(front + [k] + [task])
    ensures OneTextForBoth(task, a, these + [task], b, front + [k] + [task])
  {
    var p, q := Joined(front + [k]), Joined(these);
    var y, w := p + task, task + q + task + p;
    a := Assigned(task, these + [task], task, y, "");
    b := Assigned(task, front + [k] + [task], k, "", w);
    DistinctLast(these, task);
    DistinctLast(front + [k], task);
    DistinctLast(front, k);
    assert k in front + [k] && k != task;
    AssignedBlank(task, these + [task], task, these, y, "");
    AssignedBlank(task, front + [k] + [task], k, front, "", w);
    TextsMeet(task, a, these, b, front, k);
  }

  lemma TextsMeet(task: Key, a: map<Key, Option<string>>, these: seq<Key>, b: map<Key, Option<string>>,
                  front: seq<Key>, k: Key)
    requires Blank(a, these) && Blank(b, front) && task in a && task in b && k in b
    requires Str(a[task]) == Joined(front + [k]) + task && Str(b[task]) == ""
    requires Str(b[k]) == task + Joined(these) + task + Joined(front + [k])
    ensures OneTextForBoth(task, a, these + [task], b, front + [k] + [task])
  {
    LastText(a, these, task);
    LastTwoText(b, front, k, task);
    JoinedNext(these, task);
    OneWayOrTheOther(Joined(front + [k]), Joined(these), task);
  }

  lemma BothEndWithTask(task: Key, u: seq<Key>, w: seq<Key>)
      returns (a: map<Key, Option<string>>, b: map<Key, Option<string>>)
    requires Distinct(u + [task]) && Distinct(w + [task])
    ensures OneTextForBoth(task, a, u + [task], b, w + [task])
  {
    if w != [] {
      assert w == w[..|w| - 1] + [w[|w| - 1]];
      a, b := BeforeTaskTakes(task, u, w[..|w| - 1], w[|w| - 1]);
    } else if u != [] {
      assert u == u[..|u| - 1] + [u[|u| - 1]];
      b, a := BeforeTaskTakes(task, w, u[..|u| - 1], u[|u| - 1]);
    } else {
      a := Assigned(task, [task], task, "", "");
      b := a;
    }
  }

  lemma DistinctLast(front: seq<Key>, k: Key)
    requires Distinct(front + [k])
    ensures Distinct(front) && k !in front
  {
    forall i | 0 <= i < |front| ensures (front + [k])[i] == front[i] != (front + [k])[|front|] {
    }
  }

  lemma OneWayOrTheOther(p: string, q: string, t: string)
    ensures (p + t) + (q + t + (p + t)) == "" + (p + (t + q + t + p) + t + "")
  {
    Regroup(p + t + (q + t), p, t);
    Regroup(p, t, q + t);
    Regroup(t, q, t);
    Regroup(p, t + q + t, p);
  }

  /** The text never tells which variables the task depends on: for any two lists of dependencies there are
    * values that give both the same text, and with it the same hash. */
  lemma NamesNotTold(task: Key, these: seq<Key>, those: seq<Key>)
      returns (a: map<Key, Option<string>>, b: map<Key, Option<string>>)
    requires Distinct(these) && Distinct(those)
    ensures OneTextForBoth(task, a, these, b, those)
  {
    if these == [] {
      a, b := NoneTakes(task, those);
    } else if those == [] {
      b, a := NoneTakes(task, these);
    } else {
      var u, k, w, l := these[..|these| - 1], these[|these| - 1], those[..|those| - 1], those[|those| - 1];
      assert these == u + [k] && those == w + [l];
      if k != task {
        a, b := LastTakes(task, u, k, those);
      } else if l != task {
        b, a := LastTakes(task, w, l, these);
      } else {
        a, b := BothEndWithTask(task, u, w);
      }
    }
  }

  /** An instance: `A` with the value "BC" and `AB` with the value "C". */
  lemma TextIsAmbiguous()
    ensures DepText(map["A" := Some("BC")], ["A"]) == DepText(map["AB" := Some("C")], ["AB"]) == "ABC"
  {
    assert ["A"][..0] == [] && ["AB"][..0] == [];
    assert DepText(map["A" := Some("BC")], []) == "" == DepText(map["AB" := Some("C")], []);
  }
}

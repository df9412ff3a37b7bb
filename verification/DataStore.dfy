/** The variable store as a value: what each write does to it, and what reading a variable means.
  *
  * A text is a list of literal pieces and plain ${NAME} references. OVERRIDES is a fixed list.
  */
module DataStore {
  import opened Common
  import opened OverrideResolution
  import opened OverrideIndex

  datatype Part = Lit(text: string) | Ref(name: string)

  type Text = seq<Part>

  /** One :append, :prepend or :remove, conditional on its override when it has one. */
  datatype Change = Change(text: Text, condition: Option<string>)

  datatype Keyword = Append | Prepend | Removal

  /** The flags of one variable, the value itself being the flag "_content". */
  datatype VarData = VarData(flags: map<string, Text>, append: seq<Change>, prepend: seq<Change>, remove: seq<Change>)

  /** A variable that was never set, and equally one that was deleted. */
  const NOTHING := VarData(map[], [], [], [])

  const CONTENT := "_content"
  const DEFAULT := "_defaultval"

  datatype Store = Store(vars: map<string, VarData>, index: Index) {
    function Data(v: string): VarData {
      if v in vars then vars[v] else NOTHING
    }
  }

  // ---- Conditions on overrides ------------------------------------------------------------------

  /** str.split(":"). */
  function Split(s: string): (cs: seq<string>)
    ensures cs != [] && Plain(cs) && Join(cs) == s
  {
    if s == "" then [""]
    else
      var rest := Split(s[1..]);
      if s[0] == ':' then
        assert Join([""] + rest) == Tail(rest) == ":" + Join(rest);
        [""] + rest
      else
        assert ([s[0..1] + rest[0]] + rest[1..])[1..] == rest[1..];
        [s[0..1] + rest[0]] + rest[1..]
  }

  /** An indexed override is active when it, or each of the overrides it joins, is in OVERRIDES. */
  predicate Active(o: string, overrides: seq<string>) {
    o in overrides || (':' in o && forall c :: c in Split(o) ==> c in overrides)
  }

  predicate Applies(c: Change, overrides: seq<string>) {
    c.condition.Some? && c.condition.value != "" ==> forall o :: o in Split(c.condition.value) ==> o in overrides
  }

  // ---- Writes -----------------------------------------------------------------------------------

  function DelVar(st: Store, v: string): Store {
    Store(st.vars[v := NOTHING], Forget(st.index, v))
  }

  function DelAll(st: Store, names: seq<string>): Store
    decreases |names|
  {
    if names == [] then st else DelAll(DelVar(st, names[0]), names[1..])
  }

  /** The variables an ordinary assignment to v deletes: its active overrides. */
  function Overriders(entries: seq<Entry>, overrides: seq<string>): seq<string> {
    if entries == [] then []
    else (if Active(entries[0].o, overrides) then [entries[0].r] else []) + Overriders(entries[1..], overrides)
  }

  /** Deletes the active overriding variables of v and forgets that v had any. */
  function Uncover(st: Store, v: string, overrides: seq<string>): Store {
    if v !in st.index then st
    else
      var deleted := DelAll(st, Overriders(st.index[v], overrides));
      deleted.(index := deleted.index - {v})
  }

  /** The first half of an ordinary assignment: earlier operations and active overrides are dropped. */
  function Clear(st: Store, v: string, overrides: seq<string>): Store {
    Uncover(st.(vars := st.vars[v := VarData(st.Data(v).flags, [], [], [])]), v, overrides)
  }

  function StoreContent(st: Store, v: string, value: Text): Store {
    var d := st.Data(v);
    Store(st.vars[v := d.(flags := d.flags[CONTENT := value])],
          if ':' in v then Enter(st.index, v, Walk(v)) else st.index)
  }

  function SetVar(st: Store, v: string, value: Text, parsing: bool, overrides: seq<string>): Store {
    StoreContent(if parsing then st else Clear(st, v, overrides), v, value)
  }

  function Operate(d: VarData, keyword: Keyword, change: Change): VarData {
    match keyword
    case Append => d.(append := d.append + [change])
    case Prepend => d.(prepend := d.prepend + [change])
    case Removal => d.(remove := d.remove + [change])
  }

  function SetOp(st: Store, base: string, keyword: Keyword, change: Change): Store {
    Store(st.vars[base := Operate(st.Data(base), keyword, change)], Enter(st.index, base, Walk(base)))
  }

  function SetFlag(st: Store, v: string, flag: string, value: Text): Store {
    var d := st.Data(v);
    Store(st.vars[v := d.(flags := d.flags[flag := value])],
          if flag == DEFAULT && ':' in v then Enter(st.index, v, Walk(v)) else st.index)
  }

  function DelFlag(st: Store, v: string, flag: string): Store {
    var d := st.Data(v);
    if flag in d.flags then st.(vars := st.vars[v := d.(flags := d.flags - {flag, "_defaultval_flag_" + flag})]) else st
  }

  datatype Write =
    | Assign(v: string, value: Text, parsing: bool)
    | Alter(v: string, keyword: Keyword, change: Change)
    | Delete(v: string)
    | PutFlag(v: string, flag: string, value: Text)
    | DropFlag(v: string, flag: string)

  function Apply(st: Store, w: Write, overrides: seq<string>): Store {
    match w
    case Assign(v, value, parsing) => SetVar(st, v, value, parsing, overrides)
    case Alter(v, keyword, change) => SetOp(st, v, keyword, change)
    case Delete(v) => DelVar(st, v)
    case PutFlag(v, flag, value) => SetFlag(st, v, flag, value)
    case DropFlag(v, flag) => DelFlag(st, v, flag)
  }

  function Run(st: Store, ws: seq<Write>, overrides: seq<string>): Store
    decreases |ws|
  {
    if ws == [] then st else Run(Apply(st, ws[0], overrides), ws[1..], overrides)
  }

  // ---- The override index over runs -------------------------------------------------------------

  /** A write that keeps the index true. Only an operation enters a name without colon. */
  predicate Harmless(w: Write) {
    w.Alter? ==> Indexable(w.v)
  }

  lemma {:induction false} DelAllIndexed(st: Store, names: seq<string>)
    requires WellIndexed(st.index)
    ensures WellIndexed(DelAll(st, names).index)
    ensures AllTruthful(st.index) ==> AllTruthful(DelAll(st, names).index)
    decreases |names|
  {
    if names != [] {
      ForgetExact(st.index, names[0]);
      DelAllIndexed(DelVar(st, names[0]), names[1..]);
    }
  }

  lemma ClearIndexed(st: Store, v: string, overrides: seq<string>)
    requires WellIndexed(st.index)
    ensures WellIndexed(Clear(st, v, overrides).index)
    ensures AllTruthful(st.index) ==> AllTruthful(Clear(st, v, overrides).index)
  {
    if v in st.index {
      DelAllIndexed(st.(vars := st.vars[v := VarData(st.Data(v).flags, [], [], [])]), Overriders(st.index[v],
              overrides));
      var ix := DelAll(st.(vars := st.vars[v := VarData(st.Data(v).flags, [], [], [])]), Overriders(st.index[v],
              overrides)).index;
      assert forall u, e :: e in Listed(ix - {v}, u) ==> e in Listed(ix, u);
    }
  }

  lemma ApplyIndexed(st: Store, w: Write, overrides: seq<string>)
    requires WellIndexed(st.index)
    ensures WellIndexed(Apply(st, w, overrides).index)
    ensures AllTruthful(st.index) && Harmless(w) ==> AllTruthful(Apply(st, w, overrides).index)
    ensures AllTruthful(st.index) && !Harmless(w) ==> !AllTruthful(Apply(st, w, overrides).index)
  {
    match w
    case Assign(v, value, parsing) =>
      var st1 := if parsing then st else Clear(st, v, overrides);
      ClearIndexed(st, v, overrides);
      EnterExact(st1.index, v, Walk(v));
      if AllTruthful(st1.index) {
        EnterTruthful(st1.index, v);
      }
    case Alter(v, keyword, change) =>
      EnterExact(st.index, v, Walk(v));
      if AllTruthful(st.index) {
        EnterTruthful(st.index, v);
      }
    case Delete(v) =>
      ForgetExact(st.index, v);
    case PutFlag(v, flag, value) =>
      EnterExact(st.index, v, Walk(v));
      if AllTruthful(st.index) {
        EnterTruthful(st.index, v);
      }
    case DropFlag(v, flag) =>
  }

  /** The index is true before and after every write of a run. */
  ghost predicate StaysTruthful(st: Store, ws: seq<Write>, overrides: seq<string>)
    decreases |ws|
  {
    AllTruthful(st.index) && (ws == [] || StaysTruthful(Apply(st, ws[0], overrides), ws[1..], overrides))
  }

  /** Over any run the index stays well formed, and every entry [r, o] under v has r == v:o throughout
    * exactly when no operation is given a colon-less name that looks like an override. */
  lemma {:induction false} RunIndexed(st: Store, ws: seq<Write>, overrides: seq<string>)
    requires WellIndexed(st.index) && AllTruthful(st.index)
    ensures WellIndexed(Run(st, ws, overrides).index)
    ensures StaysTruthful(st, ws, overrides) <==> forall w :: w in ws ==> Harmless(w)
    ensures StaysTruthful(st, ws, overrides) ==> AllTruthful(Run(st, ws, overrides).index)
    decreases |ws|
  {
    if ws != [] {
      ApplyIndexed(st, ws[0], overrides);
      RunWellIndexed(st, ws, overrides);
      if Harmless(ws[0]) {
        RunIndexed(Apply(st, ws[0], overrides), ws[1..], overrides);
        assert forall w :: w in ws <==> w == ws[0] || w in ws[1..];
      }
    }
  }

  lemma {:induction false} RunWellIndexed(st: Store, ws: seq<Write>, overrides: seq<string>)
    requires WellIndexed(st.index)
    ensures WellIndexed(Run(st, ws, overrides).index)
    decreases |ws|
  {
    if ws != [] {
      ApplyIndexed(st, ws[0], overrides);
      RunWellIndexed(Apply(st, ws[0], overrides), ws[1..], overrides);
    }
  }
}

/** The datastore itself: a chain of dictionaries with shadow copies and tombstones, an override index
  * whose lists are shared between copies, and a cache of parsed values.
  *
  * Each write is proved to have exactly the effect of the corresponding function on plain store values,
  * and each read to return what a reader without any cache computes.
  */
module DataSmart {
  import opened Common
  import opened OverrideResolution
  import opened OverrideIndex
  import DataStore
  import opened Expansion
  import opened CachedReading

  type Text = DataStore.Text
  type VarData = DataStore.VarData
  type Store = DataStore.Store

  /** The flags of one variable at one level of the chain. */
  class FlagDict {
    var data: VarData
    /** Whose flags these are; no two variables share a flag dictionary. */
    ghost const owner: string

    constructor (data: VarData, ghost owner: string)
      ensures this.data == data && this.owner == owner
    {
      this.data := data;
      this.owner := owner;
    }
  }

  lemma OverlayUpdate<K, V>(lower: map<K, V>, upper: map<K, V>, k: K, v: V)
    ensures (lower + upper)[k := v] == lower + upper[k := v]
  {
  }

  lemma UpdateTwice<K, V>(m: map<K, V>, k: K, first: V, second: V)
    ensures m[k := first][k := second] == m[k := second]
  {
  }

  lemma SameData(st: Store, v: string)
    requires st.Data(v) != DataStore.NOTHING
    ensures st.vars[v := st.Data(v)] == st.vars
  {
  }

  /** One level of the chain; `parent` is what the program keeps under "_data". */
  class Dict {
    var vars: map<string, FlagDict>
    const parent: Dict?
    /** The chain flattened: what each variable looks like from this level. */
    ghost var View: map<string, VarData>
    /** This level: the dictionary and its flag dictionaries. */
    ghost var Level: set<object>
    /** This level and all levels above it. */
    ghost var Repr: set<object>

    constructor (parent: Dict?)
      requires parent != null ==> parent.Valid()
      ensures Valid() && vars == map[] && this.parent == parent
      ensures View == if parent == null then map[] else parent.View
      ensures Level == {this} && Repr == {this} + if parent == null then {} else parent.Repr
    {
      vars := map[];
      this.parent := parent;
      View := if parent == null then map[] else parent.View;
      Level := {this};
      Repr := {this} + if parent == null then {} else parent.Repr;
    }

    ghost predicate Valid()
      reads this, Repr
      decreases Repr
    {
      && this in Level && Level <= Repr
      && (forall k :: k in vars ==> vars[k] in Level && vars[k].owner == k)
      && (parent != null ==> parent in Repr && parent.Repr <= Repr && parent.Repr !! Level && parent.Valid())
      && View == Above() + OwnView()
    }

    ghost function Above(): map<string, VarData>
      reads this, parent
    {
      if parent == null then map[] else parent.View
    }

    ghost function OwnView(): map<string, VarData>
      reads this, vars.Values
    {
      map k | k in vars :: vars[k].data
    }

    /** In-place update of a variable that has its own entry at this level. */
    method Write(v: string, data: VarData)
      requires Valid() && v in vars
      modifies this`View, vars[v]
      ensures Valid() && View == old(View)[v := data]
    {
      ghost var own := OwnView();
      OverlayUpdate(Above(), own, v, data);
      assert forall k :: k in vars && k != v ==> vars[k].owner != vars[v].owner;
      vars[v].data := data;
      View := View[v := data];
      assert OwnView() == own[v := data];
    }

    /** A new entry at this level: a shadow copy, a fresh variable or a tombstone. */
    method Install(v: string, flags: FlagDict)
      requires Valid() && flags !in Repr && flags.owner == v
      modifies this
      ensures Valid() && View == old(View)[v := flags.data]
      ensures vars == old(vars)[v := flags] && Repr == old(Repr) + {flags} && Level == old(Level) + {flags}
    {
      ghost var own := OwnView();
      OverlayUpdate(Above(), own, v, flags.data);
      vars := vars[v := flags];
      View := View[v := flags.data];
      Level := Level + {flags};
      Repr := Repr + {flags};
      assert OwnView() == own[v := flags.data];
    }
  }

  /** A list of index entries. Copies of a datastore share these, so they are never changed once stored. */
  type EntryList = ListObject<Entry>

  /** The first n removals of a variable, as far as they apply. */
  ghost function RemovesBefore(d: VarData, overrides: seq<string>, n: nat): set<Text>
    requires n <= |d.remove|
  {
    set j | 0 <= j < n && DataStore.Applies(d.remove[j], overrides) :: d.remove[j].text
  }

  lemma RemovesNext(d: VarData, overrides: seq<string>, i: nat)
    requires i < |d.remove|
    ensures RemovesBefore(d, overrides, i + 1) ==
            RemovesBefore(d, overrides, i) + if DataStore.Applies(d.remove[i],
                    overrides) then {d.remove[i].text} else {}
    ensures DataStore.Applies(d.remove[i], overrides) ==> d.remove[i].text in Removes(d, overrides)
  {
  }

  lemma RemovesAll(d: VarData, overrides: seq<string>)
    ensures RemovesBefore(d, overrides, |d.remove|) == Removes(d, overrides)
  {
  }

  datatype Step = Make(w: DataStore.Write) | Ask(v: string)

  /** Reads only happen while there is no reference cycle. */
  ghost predicate AsksAcyclic(st: Store, overrides: seq<string>, steps: seq<Step>)
    decreases |steps|
  {
    if steps == [] then true
    else
      match steps[0]
      case Make(w) => AsksAcyclic(DataStore.Apply(st, w, overrides), overrides, steps[1..])
      case Ask(v) => Acyclic(st) && AsksAcyclic(st, overrides, steps[1..])
  }

  /** Whatever is read is among these names, which lead to no others, and no removal set is shared there. */
  ghost predicate AsksAmong(st: Store, overrides: seq<string>, names: iset<string>, steps: seq<Step>)
    requires AsksAcyclic(st, overrides, steps)
    decreases |steps|
  {
    if steps == [] then true
    else
      match steps[0]
      case Make(w) => AsksAmong(DataStore.Apply(st, w, overrides), overrides, names, steps[1..])
      case Ask(v) => v in names && Sound(Scope(st, overrides, names, names))
                     && AsksAmong(st, overrides, names, steps[1..])
  }

  /** No variable that is written has more than one override in its name. */
  predicate FlatSteps(steps: seq<Step>) {
    forall s :: s in steps && s.Make? ==> Flat(s.w.v)
  }

  ghost const ALL_NAMES: iset<string> := iset n: string | true

  lemma AllSound(st: Store, overrides: seq<string>)
    requires Acyclic(st) && Separate(st, overrides)
    ensures Sound(Scope(st, overrides, ALL_NAMES, ALL_NAMES))
  {
    assert forall t :: TextIn(t, ALL_NAMES);
    assert Closed(st, overrides, ALL_NAMES);
  }

  /** As long as no written name has more than one override, no removal set is ever shared. */
  lemma {:induction false} FlatAllowed(st: Store, overrides: seq<string>, steps: seq<Step>)
    requires WellIndexed(st.index) && AllSingle(st.index) && FlatSteps(steps) && AsksAcyclic(st, overrides, steps)
    ensures AsksAmong(st, overrides, ALL_NAMES, steps)
    decreases |steps|
  {
    if steps != [] {
      match steps[0]
      case Make(w) =>
        assert Flat(w.v);
        DataStore.ApplyIndexed(st, w, overrides);
        ApplySingle(st, w, overrides);
        FlatAllowed(DataStore.Apply(st, w, overrides), overrides, steps[1..]);
      case Ask(v) =>
        SinglesSeparate(st, overrides);
        AllSound(st, overrides);
        FlatAllowed(st, overrides, steps[1..]);
    }
  }

  /** The answers of a datastore without cache. */
  ghost function Answers(st: Store, overrides: seq<string>, steps: seq<Step>): seq<Option<string>>
    requires AsksAcyclic(st, overrides, steps)
    decreases |steps|
  {
    if steps == [] then []
    else
      match steps[0]
      case Make(w) => Answers(DataStore.Apply(st, w, overrides), overrides, steps[1..])
      case Ask(v) => [Eval(st, overrides, v).value] + Answers(st, overrides, steps[1..])
  }

  class DataSmart {
    var dict: Dict
    var overridedata: map<string, EntryList>
    var expand_cache: map<CacheKey, VariableParse>
    const overrides: seq<string>

    constructor (overrides: seq<string>)
      ensures Valid() && fresh(dict) && fresh(Own()) && Store() == DataStore.Store(map[], map[])
      ensures this.overrides == overrides && expand_cache == map[]
    {
      dict := new Dict(null);
      overridedata := map[];
      expand_cache := map[];
      this.overrides := overrides;
    }

    ghost predicate Valid()
      reads this`dict, this`overridedata, dict, dict.Repr
    {
      dict.Valid() && this !in dict.Repr && forall v :: v in overridedata ==> overridedata[v] !in dict.Repr
    }

    /** What this datastore may change: itself, its own level and the flags stored there. */
    ghost function Own(): set<object>
      reads this`dict, dict
    {
      {this} + dict.Level
    }

    ghost function Index(): Index
      reads this`overridedata, overridedata.Values
    {
      map k | k in overridedata :: overridedata[k].items
    }

    /** The datastore as a plain value. */
    ghost function Store(): Store
      reads this`dict, this`overridedata, dict, overridedata.Values
    {
      DataStore.Store(dict.View, Index())
    }

    /** Nothing outside Own() has changed, and whatever Own() gained is new. */
    twostate predicate Confined()
      reads this`dict, dict
    {
      dict == old(dict) && fresh(Own() - old(Own()))
    }

    /** The flags of a variable, searched from this level upwards. */
    method FindVar(v: string) returns (found: FlagDict?)
      requires Valid()
      ensures found == null <==> v !in Store().vars
      ensures found != null ==> found.data == Store().vars[v] && found in dict.Repr
    {
      var dest: Dict? := dict;
      while dest != null
        invariant dest != null ==> dest.Valid() && dest.Repr <= dict.Repr
        invariant dest != null ==> (v in dest.View <==> v in dict.View)
        invariant dest != null && v in dest.View ==> dest.View[v] == dict.View[v]
        invariant dest == null ==> v !in dict.View
        decreases if dest == null then {} else dest.Repr
      {
        if v in dest.vars {
          return dest.vars[v];
        }
        dest := dest.parent;
      }
      return null;
    }

    /** What a variable shows: the flags found, or none. */
    method Look(v: string) returns (data: VarData)
      requires Valid()
      ensures data == Store().Data(v)
    {
      var found := FindVar(v);
      data := if found == null then DataStore.NOTHING else found.data;
    }

    /** A new flag dictionary at this level. */
    method NewEntry(v: string, data: VarData)
      requires Valid()
      modifies dict
      ensures Valid() && Confined() && v in dict.vars
      ensures dict.View == old(dict.View)[v := data] && Index() == old(Index())
    {
      var flags := new FlagDict(data, v);
      dict.Install(v, flags);
    }

    /** The usual beginning of a write: a shadow copy if need be, then the change. */
    method Change(v: string, data: VarData)
      requires Valid()
      modifies Own()
      ensures Valid() && Confined()
      ensures Store() == old(Store()).(vars := old(Store()).vars[v := data])
      ensures overridedata == old(overridedata) && (expand_cache == old(expand_cache) || expand_cache == map[])
    {
      ghost var view := dict.View;
      MakeShadowCopy(v);
      assert dict.vars[v] in dict.Level;
      UpdateTwice(view, v, dict.View[v], data);
      WriteData(v, data);
    }

    /** self.dict[var][...] = ... for a variable that has its own entry at this level. */
    method WriteData(v: string, data: VarData)
      requires Valid() && v in dict.vars
      modifies dict`View, dict.vars[v]
      ensures Valid() && Own() == old(Own())
      ensures dict.View == old(dict.View)[v := data] && Index() == old(Index())
    {
      assert dict.vars[v] in dict.Level;
      dict.Write(v, data);
    }

    /** _makeShadowCopy: gives the variable its own entry at this level, with what it showed before. */
    method MakeShadowCopy(v: string)
      requires Valid()
      modifies this, dict
      ensures Valid() && Confined() && v in dict.vars
      ensures dict.View == old(dict.View)[v := old(Store()).Data(v)] && Index() == old(Index())
      ensures overridedata == old(overridedata) && (expand_cache == old(expand_cache) || expand_cache == map[])
    {
      if v in dict.vars {
        return;
      }
      var local := FindVar(v);
      if local != null && local.data != DataStore.NOTHING {
        NewEntry(v, local.data);
      } else {
        expand_cache := map[];
        NewEntry(v, DataStore.NOTHING);
      }
    }

    // ---- The override index ---------------------------------------------------------------------

    /** Stores a new list, so that the lists shared with other copies stay as they are. */
    method PutList(v: string, items: seq<Entry>)
      requires Valid()
      modifies this`overridedata
      ensures Valid() && v in overridedata && fresh(overridedata[v])
              && overridedata == old(overridedata)[v := overridedata[v]]
      ensures overridedata[v].items == items && Index() == old(Index())[v := items]
    {
      var list := new ListObject<Entry>(items);
      overridedata := overridedata[v := list];
    }

    method AppendTo(v: string, e: Entry)
      requires Valid() && v in overridedata
      modifies this`overridedata
      ensures Valid() && Index() == old(Index())[v := old(Index())[v] + [e]]
    {
      PutList(v, overridedata[v].items);
      overridedata[v].items := overridedata[v].items + [e];
    }

    method AddEntry(v: string, e: Entry)
      requires Valid()
      modifies this`overridedata
      ensures Valid() && Own() == old(Own())
      ensures Store() == old(Store()).(index := OverrideIndex.AddEntry(old(Store()).index, v, e))
    {
      if v !in overridedata {
        PutList(v, []);
      }
      if e !in overridedata[v].items {
        AppendTo(v, e);
      }
    }

    method DropEntry(v: string, e: Entry)
      requires Valid()
      modifies this`overridedata
      ensures Valid() && Own() == old(Own())
      ensures Store() == old(Store()).(index := OverrideIndex.DropEntry(old(Store()).index, v, e))
    {
      if v in overridedata {
        PutList(v, overridedata[v].items);
        overridedata[v].items := Remove(overridedata[v].items, e);
      }
    }

    /** _setvar_update_overrides. */
    method EnterIndex(name: string)
      requires Valid()
      modifies this`overridedata
      ensures Valid() && Own() == old(Own())
      ensures Store() == old(Store()).(index := Enter(old(Store()).index, name, Walk(name)))
    {
      var p := LastColon(name);
      var override := name[p + 1..];
      var short := Cut(name, p);
      var more := true;
      while more && Starts(override)
        invariant Valid() && Own() == old(Own()) && Store().vars == old(Store()).vars
        invariant more ==> -1 <= p < |name| && override == name[p + 1..] && short == Cut(name, p)
        invariant more ==> (p >= 0 ==> name[p] == ':') && (p < 0 ==> ':' !in name)
        invariant Enter(Store().index, name, Remaining(name, p, more)) == Enter(old(Store()).index, name, Walk(name))
        decreases if more then p + 2 else 0
      {
        if p >= 0 {
          WalkStepAtColon(name, p, short, LastColon(short));
        } else {
          WalkStepPlain(name, short);
        }
        assert name[0..] == name;
        AddEntry(short, Entry(name, override));
        p := LastColon(short);
        more := p > 0;
        if more {
          override := name[p + 1..];
          short := name[..p];
        }
      }
    }

    /** The loop of delVar over the index; only used for names with a colon. */
    method WithdrawIndex(name: string)
      requires Valid() && ':' in name
      modifies this`overridedata
      ensures Valid() && Own() == old(Own())
      ensures Store() == old(Store()).(index := Withdraw(old(Store()).index, name, Walk(name)))
    {
      var p := LastColon(name);
      var override := name[p + 1..];
      var short := name[..p];
      var more := true;
      while more && Starts(override)
        invariant Valid() && Own() == old(Own()) && Store().vars == old(Store()).vars
        invariant more ==> 0 <= p < |name| && name[p] == ':' && override == name[p + 1..] && short == name[..p]
        invariant Withdraw(Store().index, name, Remaining(name, p, more)) == Withdraw(old(Store()).index, name,
                Walk(name))
        decreases if more then p + 1 else 0
      {
        WalkStepAtColon(name, p, short, LastColon(short));
        DropEntry(short, Entry(name, override));
        p := LastColon(short);
        more := p > 0;
        if more {
          override := name[p + 1..];
          short := name[..p];
        }
      }
    }

    // ---- Writes ---------------------------------------------------------------------------------

    method DropList(v: string)
      requires Valid()
      modifies this`overridedata
      ensures Valid() && Own() == old(Own())
      ensures Store() == old(Store()).(index := old(Store()).index - {v})
    {
      overridedata := overridedata - {v};
    }

    method DelVar(v: string)
      requires Valid()
      modifies this, dict
      ensures Valid() && Confined() && expand_cache == map[]
      ensures Store() == DataStore.DelVar(old(Store()), v)
    {
      expand_cache := map[];
      NewEntry(v, DataStore.NOTHING);
      ForgetIndex(v);
    }

    method ForgetIndex(v: string)
      requires Valid()
      modifies this`overridedata
      ensures Valid() && Own() == old(Own())
      ensures Store() == old(Store()).(index := Forget(old(Store()).index, v))
    {
      DropList(v);
      WithdrawIf(v);
    }

    method WithdrawIf(v: string)
      requires Valid()
      modifies this`overridedata
      ensures Valid() && Own() == old(Own())
      ensures Store() == if ':' in v then old(Store()).(index := Withdraw(old(Store()).index, v, Walk(v)))
              else old(Store())
    {
      if ':' in v {
        WithdrawIndex(v);
      }
    }

    method SetFlag(v: string, flag: string, value: Text)
      requires Valid()
      modifies Own()
      ensures Valid() && Confined() && expand_cache == map[]
      ensures Store() == DataStore.SetFlag(old(Store()), v, flag, value)
    {
      expand_cache := map[];
      var d := Look(v);
      Change(v, d.(flags := d.flags[flag := value]));
      EnterIf(v, flag == DataStore.DEFAULT && ':' in v);
    }

    method EnterIf(name: string, enter: bool)
      requires Valid()
      modifies this`overridedata
      ensures Valid() && Own() == old(Own())
      ensures Store() == if enter then old(Store()).(index := Enter(old(Store()).index, name, Walk(name)))
              else old(Store())
    {
      if enter {
        EnterIndex(name);
      }
    }

    method DelFlag(v: string, flag: string)
      requires Valid()
      modifies Own()
      ensures Valid() && Confined() && expand_cache == map[]
      ensures Store() == DataStore.DelFlag(old(Store()), v, flag)
    {
      expand_cache := map[];
      var d := Look(v);
      DropFlagIf(v, flag, d);
    }

    method DropFlagIf(v: string, flag: string, d: VarData)
      requires Valid() && expand_cache == map[] && d == Store().Data(v)
      modifies Own()
      ensures Valid() && Confined() && expand_cache == map[]
      ensures Store() == DataStore.DelFlag(old(Store()), v, flag)
    {
      if d != DataStore.NOTHING {
        DropFlag(v, flag, d);
      }
    }

    method DropFlag(v: string, flag: string, d: VarData)
      requires Valid() && expand_cache == map[] && d == Store().Data(v) && d != DataStore.NOTHING
      modifies Own()
      ensures Valid() && Confined() && expand_cache == map[]
      ensures Store() == DataStore.DelFlag(old(Store()), v, flag)
    {
      if flag in d.flags {
        Change(v, d.(flags := d.flags - {flag, "_defaultval_flag_" + flag}));
      } else {
        SameData(Store(), v);
        Change(v, d);
      }
    }

    /** setVar of NAME:append, NAME:prepend or NAME:remove. */
    method SetOp(base: string, keyword: DataStore.Keyword, change: DataStore.Change)
      requires Valid()
      modifies Own()
      ensures Valid() && Confined() && expand_cache == map[]
      ensures Store() == DataStore.SetOp(old(Store()), base, keyword, change)
    {
      expand_cache := map[];
      var d := Look(base);
      Change(base, DataStore.Operate(d, keyword, change));
      assert Store() == old(Store()).(vars := old(Store()).vars[base := DataStore.Operate(d, keyword, change)]);
      EnterIndex(base);
    }

    method ActiveOverriders(entries: seq<Entry>) returns (active: seq<string>)
      ensures active == DataStore.Overriders(entries, overrides)
    {
      active := [];
      for i := 0 to |entries|
        invariant active + DataStore.Overriders(entries[i..], overrides) == DataStore.Overriders(entries, overrides)
      {
        assert entries[i..][1..] == entries[i + 1..];
        if DataStore.Active(entries[i].o, overrides) {
          active := active + [entries[i].r];
        }
      }
    }

    method DeleteAll(names: seq<string>)
      requires Valid()
      modifies Own()
      ensures Valid() && Confined() && (names != [] ==> expand_cache == map[])
              && (names == [] ==> expand_cache == old(expand_cache))
      ensures Store() == DataStore.DelAll(old(Store()), names)
    {
      for i := 0 to |names|
        invariant Valid() && Confined()
        invariant if i == 0 then expand_cache == old(expand_cache) else expand_cache == map[]
        invariant DataStore.DelAll(Store(), names[i..]) == DataStore.DelAll(old(Store()), names)
      {
        assert names[i..][1..] == names[i + 1..];
        DelVar(names[i]);
      }
    }

    /** Deletes what overrides the variable now. */
    method Uncover(v: string)
      requires Valid() && expand_cache == map[]
      modifies Own()
      ensures Valid() && Confined() && expand_cache == map[]
      ensures Store() == DataStore.Uncover(old(Store()), v, overrides)
    {
      if v in overridedata {
        var active := ActiveOverriders(overridedata[v].items);
        DeleteAll(active);
        DropList(v);
      }
    }

    /** What an ordinary assignment does before it stores the value. */
    method Clear(v: string)
      requires Valid() && expand_cache == map[]
      modifies Own()
      ensures Valid() && Confined() && expand_cache == map[]
      ensures Store() == DataStore.Clear(old(Store()), v, overrides)
    {
      var d := Look(v);
      Change(v, DataStore.VarData(d.flags, [], [], []));
      Uncover(v);
    }

    /** setVar of a plain name. */
    method SetVar(v: string, value: Text, parsing: bool)
      requires Valid()
      modifies Own()
      ensures Valid() && Confined() && expand_cache == map[]
      ensures Store() == DataStore.SetVar(old(Store()), v, value, parsing, overrides)
    {
      expand_cache := map[];
      ClearIf(v, !parsing);
      StoreContent(v, value);
    }

    method ClearIf(v: string, clear: bool)
      requires Valid() && expand_cache == map[]
      modifies Own()
      ensures Valid() && Confined() && expand_cache == map[]
      ensures Store() == if clear then DataStore.Clear(old(Store()), v, overrides) else old(Store())
    {
      if clear {
        Clear(v);
      }
    }

    method StoreContent(v: string, value: Text)
      requires Valid() && expand_cache == map[]
      modifies Own()
      ensures Valid() && Confined() && expand_cache == map[]
      ensures Store() == DataStore.StoreContent(old(Store()), v, value)
    {
      EnterIf(v, ':' in v);
      var d := Look(v);
      Change(v, d.(flags := d.flags[DataStore.CONTENT := value]));
    }

    method Apply(w: DataStore.Write)
      requires Valid()
      modifies Own()
      ensures Valid() && Confined() && expand_cache == map[]
      ensures Store() == DataStore.Apply(old(Store()), w, overrides)
    {
      match w
      case Assign(v, value, parsing) => SetVar(v, value, parsing);
      case Alter(v, keyword, change) => SetOp(v, keyword, change);
      case Delete(v) => DelVar(v);
      case PutFlag(v, flag, value) => SetFlag(v, flag, value);
      case DropFlag(v, flag) => DelFlag(v, flag);
    }

    method Run(ws: seq<DataStore.Write>)
      requires Valid()
      modifies Own()
      ensures Valid() && Confined() && (ws != [] ==> expand_cache == map[])
      ensures Store() == DataStore.Run(old(Store()), ws, overrides)
    {
      for i := 0 to |ws|
        invariant Valid() && Confined() && (i > 0 ==> expand_cache == map[])
        invariant DataStore.Run(Store(), ws[i..], overrides) == DataStore.Run(old(Store()), ws, overrides)
      {
        assert ws[i..][1..] == ws[i + 1..];
        Apply(ws[i]);
      }
    }

    // ---- Reads ----------------------------------------------------------------------------------

    /** Cache coherence: whatever is cached agrees with reading from scratch. */
    ghost predicate Coherent(names: iset<string>)
      reads this`dict, this`overridedata, this`expand_cache, dict, overridedata.Values
    {
      expand_cache == map[]
      || (Acyclic(Store()) && CacheFits(Scope(Store(), overrides, names, names), expand_cache))
    }

    /** The state in which the reading methods call each other; the store does not change meanwhile. */
    ghost predicate Ready(sc: Scope)
      reads this`dict, this`overridedata, this`expand_cache, dict, dict.Repr, overridedata.Values
    {
      Valid() && sc.st == Store() && sc.overrides == overrides && Sound(sc) && CacheFits(sc, expand_cache)
    }

    /** The loop over the override entries: the active ones, in order. */
    method ActiveCandidates(entries: seq<Entry>) returns (active: Active)
      ensures active == Candidates(entries, overrides, [])
    {
      active := [];
      for i := 0 to |entries|
        invariant DistinctKeys(active)
        invariant Candidates(entries[i..], overrides, active) == Candidates(entries, overrides, [])
      {
        assert entries[i..][1..] == entries[i + 1..];
        if DataStore.Active(entries[i].o, overrides) {
          active := Put(active, entries[i].o, entries[i].r);
        }
      }
    }

    /** The variable that supplies the value of v, by the override loop. */
    method FindWinner(v: string) returns (winner: Option<string>)
      ensures winner == Winner(Store(), overrides, v)
    {
      if v !in overridedata {
        return None;
      }
      var active := ActiveCandidates(overridedata[v].items);
      winner := ResolveLoop(active, overrides);
    }

    /** The :append and :prepend loops. */
    method Combine(supplied: Option<Text>, d: VarData) returns (value: Option<Text>)
      ensures value == Raw(d, overrides, supplied)
    {
      value := supplied;
      if value.None? {
        value := FlagText(d, DataStore.CONTENT);
      }
      ghost var base := value;
      for i := 0 to |d.append|
        invariant Appended(value, d.append[i..], overrides) == Appended(base, d.append, overrides)
      {
        assert d.append[i..][1..] == d.append[i + 1..];
        if DataStore.Applies(d.append[i], overrides) {
          value := Some(Or(value) + d.append[i].text);
        }
      }
      ghost var appended := value;
      for i := 0 to |d.prepend|
        invariant Prepended(value, d.prepend[i..], overrides) == Prepended(appended, d.prepend, overrides)
      {
        assert d.prepend[i..][1..] == d.prepend[i + 1..];
        if DataStore.Applies(d.prepend[i], overrides) {
          value := Some(d.prepend[i].text + Or(value));
        }
      }
    }

    /** Reading leaves everything but the cache alone; the cache and its removal sets only grow, and only
      * these variables join it. */
    twostate predicate OnlyCached(vars: iset<string>)
      reads this`expand_cache
    {
      && (forall k :: k in old(expand_cache) ==>
            k in expand_cache
            && (old(expand_cache)[k].removes.Some? ==>
                  expand_cache[k].removes.Some?
                  && old(expand_cache)[k].removes.value <= expand_cache[k].removes.value))
      && forall v :: Whole(v) in expand_cache ==> Whole(v) in old(expand_cache) || v in vars
    }

    /** What the overriding variable hands down: its unexpanded value and its removal set. */
    method Supply(v: string, ghost sc: Scope) returns (supplied: Option<Text>, owner: Option<string>)
      requires Ready(sc) && DepsIn(sc.st, overrides, v, sc.vars)
      modifies this`expand_cache
      ensures Ready(sc) && OnlyCached(sc.vars)
      ensures supplied == SubOf(sc, v).raw && Shares(sc, expand_cache, v, owner)
              && (owner.None? ==> SubOf(sc, v).struck == {})
      ensures Handed(sc, old(expand_cache), v, owner)
      decreases Height(sc, v), 1
    {
      supplied, owner := None, None;
      var winner := FindWinner(v);
      if winner.Some? {
        WinnerBelow(sc.st, overrides, v, Rank(sc.st));
        var sub := Read(winner.value, false, sc);
        supplied := sub.raw;
        if sub.removes.Some? {
          owner := winner;
        }
      }
    }

    /** One substitution pass over a text. */
    method ExpandWithRefs(t: Text, ghost sc: Scope) returns (s: string)
      requires Ready(sc) && TextIn(t, sc.vars)
      modifies this`expand_cache
      ensures Ready(sc) && OnlyCached(sc.vars)
      ensures s == Expand(sc.st, overrides, t)
      decreases Bound(sc.st, t), 0, |t|
    {
      s := "";
      for i := 0 to |t|
        invariant Ready(sc) && OnlyCached(sc.vars)
        invariant s + Expand(sc.st, overrides, t[i..]) == Expand(sc.st, overrides, t)
      {
        assert t[i..][1..] == t[i + 1..];
        if t[i].Ref? {
          assert t[i] in t;
          BoundMember(sc.st, t, t[i].name);
        }
        var piece := Substitute(t[i], sc);
        s := s + piece;
      }
    }

    /** var_sub. */
    method Substitute(part: DataStore.Part, ghost sc: Scope) returns (s: string)
      requires Ready(sc) && (part.Ref? ==> part.name in sc.vars)
      modifies this`expand_cache
      ensures Ready(sc) && OnlyCached(sc.vars)
      ensures s == Piece(sc.st, overrides, part)
      decreases if part.Ref? then Height(sc, part.name) + 1 else 0, 0, 0
    {
      match part
      case Lit(text) => s := text;
      case Ref(n) =>
        var p := Read(n, true, sc);
        s := if p.value.Some? then p.value.value else "${" + n + "}";
    }

    /** The :remove loop. A shared removal set grows in place. */
    method AddOwnRemoves(v: string, d: VarData, owner: Option<string>, ghost sc: Scope)
        returns (removes: set<Text>, ghost held: set<Text>)
      requires Ready(sc) && Sound(sc.With(v)) && d == sc.st.Data(v) && Shares(sc, expand_cache, v, owner)
              && (owner.None? ==> SubOf(sc, v).struck == {})
      modifies this`expand_cache
      ensures Ready(sc.With(v)) && OnlyCached(sc.vars) && Shares(sc, expand_cache, v, owner)
      ensures MayHold(sc, v, held) && removes == held + sc.Own(v)
      ensures held == if owner.Some? then Carried(old(expand_cache)[Whole(owner.value)]) else {}
      ensures owner.Some? ==> expand_cache[Whole(owner.value)].removes == Some(removes)
    {
      removes := SharedRemoves(v, owner, sc);
      held := removes;
      MoreAdders(sc, v, expand_cache);
      removes := AddEach(v, d, owner, removes, sc.With(v));
    }

    /** The loop: each removal that applies joins the set, in the shared one too. */
    method AddEach(v: string, d: VarData, owner: Option<string>, removes0: set<Text>, ghost sc: Scope)
        returns (removes: set<Text>)
      requires Ready(sc) && v in sc.adders && d == sc.st.Data(v) && Shares(sc, expand_cache, v, owner)
      requires owner.Some? ==> expand_cache[Whole(owner.value)].removes == Some(removes0)
      modifies this`expand_cache
      ensures Ready(sc) && OnlyCached(sc.vars)
      ensures removes == removes0 + sc.Own(v) && Shares(sc, expand_cache, v, owner)
      ensures owner.Some? ==> expand_cache[Whole(owner.value)].removes == Some(removes)
    {
      removes := removes0;
      for i := 0 to |d.remove|
        invariant Ready(sc) && OnlyCached(sc.vars) && Shares(sc, expand_cache, v, owner)
        invariant owner.Some? ==> expand_cache[Whole(owner.value)].removes == Some(removes)
        invariant removes == removes0 + RemovesBefore(d, overrides, i)
      {
        RemovesNext(d, overrides, i);
        if DataStore.Applies(d.remove[i], overrides) {
          ShareIfOwned(v, owner, removes, d.remove[i].text, sc);
          removes := removes + {d.remove[i].text};
        }
      }
      RemovesAll(d, overrides);
    }

    method SharedRemoves(v: string, owner: Option<string>, ghost sc: Scope) returns (removes: set<Text>)
      requires Ready(sc) && Shares(sc, expand_cache, v, owner)
      requires owner.None? ==> SubOf(sc, v).struck == {}
      ensures removes == if owner.Some? then Carried(expand_cache[Whole(owner.value)]) else {}
      ensures MayHold(sc, v, removes)
    {
      removes := {};
      if owner.Some? {
        assert Fits(sc, owner.value, expand_cache[Whole(owner.value)]);
        removes := expand_cache[Whole(owner.value)].removes.value;
      }
    }

    method ShareIfOwned(v: string, owner: Option<string>, removes: set<Text>, more: Text, ghost sc: Scope)
      requires Ready(sc) && v in sc.adders && Shares(sc, expand_cache, v, owner)
      requires owner.Some? ==> expand_cache[Whole(owner.value)].removes == Some(removes)
      requires more in sc.Own(v)
      modifies this`expand_cache
      ensures Ready(sc) && OnlyCached(sc.vars) && Shares(sc, expand_cache, v, owner)
      ensures owner.Some? ==> expand_cache[Whole(owner.value)].removes == Some(removes + {more})
    {
      if owner.Some? {
        ShareRemoves(v, owner.value, removes + {more}, sc);
      }
    }

    /** The write through to the parse that owns the removal set. */
    method ShareRemoves(v: string, owner: string, removes: set<Text>, ghost sc: Scope)
      requires Ready(sc) && v in sc.adders && Shares(sc, expand_cache, v, Some(owner))
      requires expand_cache[Whole(owner)].removes.value <= removes
      requires removes <= expand_cache[Whole(owner)].removes.value + sc.Own(v)
      modifies this`expand_cache
      ensures Ready(sc) && OnlyCached(sc.vars) && Shares(sc, expand_cache, v, Some(owner))
      ensures expand_cache[Whole(owner)].removes == Some(removes)
    {
      var p := expand_cache[Whole(owner)].(removes := Some(removes));
      MoreRemoves(sc, owner, v, expand_cache[Whole(owner)], removes);
      Cache(Whole(owner), p, sc);
    }

    method Cache(key: CacheKey, p: VariableParse, ghost sc: Scope)
      requires Ready(sc)
      requires match key case Whole(v) => Fits(sc, v, p) case Flagged(v, f) => FitsFlag(sc, v, f, p)
      modifies this`expand_cache
      ensures Ready(sc) && expand_cache == old(expand_cache)[key := p]
    {
      expand_cache := expand_cache[key := p];
    }

    /** Caches a parse that need not agree with reading from scratch. */
    method Keep(v: string, p: VariableParse)
      requires Valid()
      modifies this`expand_cache
      ensures Valid() && Store() == old(Store()) && expand_cache == old(expand_cache)[Whole(v) := p]
    {
      expand_cache := expand_cache[Whole(v) := p];
    }

    /** getVarFlag(v, "_content", expand, retparser=True). */
    method Read(v: string, expand: bool, ghost sc: Scope) returns (p: VariableParse)
      requires Ready(sc) && v in sc.vars
      modifies this`expand_cache
      ensures Ready(sc) && OnlyCached(sc.vars) && Fits(sc, v, p)
      ensures Whole(v) in expand_cache && expand_cache[Whole(v)] == p
      ensures if Whole(v) in old(expand_cache) then p == old(expand_cache)[Whole(v)]
              else !expand ==> (p.removes.Some? <==> Carries(sc.st, overrides, v))
      decreases Height(sc, v), 5
    {
      if Whole(v) in expand_cache {
        return expand_cache[Whole(v)];
      }
      OwnBounds(sc, v);
      ghost var held;
      p, held := Parse(v, expand, Height(sc, v), sc);
      HeldExact(sc, v, held);
      ParsesFits(sc, v, held, expand, p);
      Cache(Whole(v), p, sc);
    }

    /** The parse of a variable of which only what it leads to need be in reach. The removal set of its
      * override may hold more than it should; n bounds what that refers to. */
    method Parse(v: string, expand: bool, ghost n: nat, ghost sc: Scope)
        returns (p: VariableParse, ghost held: set<Text>)
      requires Ready(sc) && Sound(sc.With(v)) && DepsIn(sc.st, overrides, v, sc.vars) && Bounds(sc, v, n)
      modifies this`expand_cache
      ensures OnlyCached(sc.vars) && if Looks(sc, v, expand) then Ready(sc.With(v)) else Ready(sc)
      ensures MayHold(sc, v, held) && Reached(sc, held + sc.Own(v), n)
      ensures Parses(sc, v, held, Looks(sc, v, expand), n, p)
      ensures Looks(sc, v, expand) ==> Passed(sc, old(expand_cache), expand_cache, v, held)
      decreases n, 4
    {
      var d := Look(v);
      var supplied, owner := Supply(v, sc);
      var raw := Combine(supplied, d);
      EvalUnfolds(sc.st, overrides, v);
      held := SubOf(sc, v).struck;
      HeldReached(sc, v, held, n);
      if raw.None? {
        p := VariableParse(None, None, None);
      } else {
        p, held := Finish(v, d, raw.value, owner, expand, n, sc);
      }
    }

    /** The second half of getVarFlag: expansion and removal. */
    method Finish(v: string, d: VarData, raw: Text, owner: Option<string>, expand: bool, ghost n: nat, ghost sc: Scope)
        returns (p: VariableParse, ghost held: set<Text>)
      requires Ready(sc) && Sound(sc.With(v)) && DepsIn(sc.st, overrides, v, sc.vars) && Bounds(sc, v, n)
      requires d == sc.st.Data(v) && Shares(sc, expand_cache, v, owner)
              && (owner.None? ==> SubOf(sc, v).struck == {})
      requires Some(raw) == Raw(d, overrides, SubOf(sc, v).raw)
      modifies this`expand_cache
      ensures OnlyCached(sc.vars) && if Looks(sc, v, expand) then Ready(sc.With(v)) else Ready(sc)
      ensures MayHold(sc, v, held) && Reached(sc, held + sc.Own(v), n)
      ensures Parses(sc, v, held, Looks(sc, v, expand), n, p)
      ensures Looks(sc, v, expand) && owner.Some? ==>
                Grew(held, sc.Own(v), Carried(old(expand_cache)[Whole(owner.value)]), expand_cache, owner.value)
      decreases n, 3
    {
      RawReached(sc, v, raw, n);
      var text := ExpandWithRefs(raw, sc);
      if if expand then text != "" else Truthy(raw) {
        p, held := Strip(v, d, raw, text, owner, n, sc);
      } else {
        held := SubOf(sc, v).struck;
        HeldReached(sc, v, held, n);
        EmptyParses(sc, v, raw, held, n);
        p := VariableParse(Some(raw), Some(text), None);
      }
    }

    /** Removal: the removals are collected, then looked for. */
    method Strip(v: string, d: VarData, raw: Text, text: string, owner: Option<string>, ghost n: nat, ghost sc: Scope)
        returns (p: VariableParse, ghost held: set<Text>)
      requires Ready(sc) && Sound(sc.With(v)) && DepsIn(sc.st, overrides, v, sc.vars) && Bounds(sc, v, n)
      requires d == sc.st.Data(v) && Shares(sc, expand_cache, v, owner)
              && (owner.None? ==> SubOf(sc, v).struck == {})
      requires Eval(sc.st, overrides, v).raw == Some(raw) && text == Expand(sc.st, overrides, raw)
      modifies this`expand_cache
      ensures OnlyCached(sc.vars) && Ready(sc.With(v))
      ensures MayHold(sc, v, held) && Reached(sc, held + sc.Own(v), n) && Parses(sc, v, held, true, n, p)
      ensures owner.Some? ==>
                Grew(held, sc.Own(v), Carried(old(expand_cache)[Whole(owner.value)]), expand_cache, owner.value)
      decreases n, 2
    {
      var removes;
      removes, held := AddOwnRemoves(v, d, owner, sc);
      HeldReached(sc, v, held, n);
      p := VariableParse(Some(raw), Some(text), None);
      if removes != {} {
        var kept, struck := StrikeWords(text, removes, n, sc.With(v));
        p := VariableParse(Some(raw), Some(kept), Some(struck));
      } else {
        StrikeNothing(text);
        assert Dropped(sc.st, overrides, removes, n) == {};
      }
    }

    /** Strikes the words of the removals from an expanded text. */
    method StrikeWords(text: string, removes: set<Text>, ghost n: nat, ghost sc: Scope)
        returns (kept: string, struck: set<Text>)
      requires Ready(sc) && Reached(sc, removes, n)
      modifies this`expand_cache
      ensures Ready(sc) && OnlyCached(sc.vars)
      ensures kept == Strike(text, Dropped(sc.st, overrides, removes, n)) && struck == Strikers(sc, text, removes, n)
      decreases n, 1
    {
      var expanded: map<Text, set<string>> := map[];
      var todo := removes;
      while todo != {}
        invariant Ready(sc) && OnlyCached(sc.vars)
        invariant todo <= removes && expanded.Keys == removes - todo
        invariant forall r :: r in expanded ==> expanded[r] == RemovedWords(sc.st, overrides, r, n)
        decreases todo
      {
        var r :| r in todo;
        todo := todo - {r};
        BoundBelow(sc.st, r, n);
        var s := ExpandWithRefs(r, sc);
        expanded := expanded[r := Words(s)];
      }
      kept, struck := StrikeExpanded(text, expanded);
      assert Dropped(sc.st, overrides, removes, n) == AllWords(expanded);
    }

    /** getVar. The answer is the one a reader without cache computes, as long as what is read between two
      * writes is among names in which no removal set is shared. */
    method GetVar(v: string, ghost names: iset<string>) returns (value: Option<string>)
      requires Valid() && Coherent(names) && v in names && Sound(Scope(Store(), overrides, names, names))
      modifies this`expand_cache
      ensures Valid() && Coherent(names) && Store() == old(Store())
      ensures value == Eval(Store(), overrides, v).value
    {
      var p := Read(v, true, Scope(Store(), overrides, names, names));
      return p.value;
    }

    /** getVarFlag of a flag other than the value itself. */
    method GetFlag(v: string, flag: string, ghost names: iset<string>) returns (value: Option<string>)
      requires flag != DataStore.CONTENT
      requires Valid() && Coherent(names) && v in names && Sound(Scope(Store(), overrides, names, names))
      modifies this`expand_cache
      ensures Valid() && Coherent(names) && Store() == old(Store())
      ensures var flags, weak := Store().Data(v).flags, "_defaultval_flag_" + flag;
              value == if flag in flags then Some(Expand(Store(), overrides, flags[flag]))
                       else if weak in flags then Some(Expand(Store(), overrides, flags[weak])) else None
    {
      ghost var sc := Scope(Store(), overrides, names, names);
      if Flagged(v, flag) in expand_cache {
        return expand_cache[Flagged(v, flag)].value;
      }
      var d := Look(v);
      var p := VariableParse(FlagText(d, flag), None, None);
      if p.raw.Some? {
        var text := ExpandWithRefs(p.raw.value, sc);
        p := p.(value := Some(text));
      }
      Cache(Flagged(v, flag), p, sc);
      return p.value;
    }

    /** Any mixture of writes and reads: every answer is what reading from scratch gives at that point. */
    method Session(steps: seq<Step>, ghost names: iset<string>) returns (answers: seq<Option<string>>)
      requires Valid() && Coherent(names)
      requires AsksAcyclic(Store(), overrides, steps) && AsksAmong(Store(), overrides, names, steps)
      modifies Own()
      ensures Valid() && Coherent(names) && Confined()
      ensures answers == Answers(old(Store()), overrides, steps)
    {
      answers := [];
      for i := 0 to |steps|
        invariant Valid() && Coherent(names) && Confined()
        invariant AsksAcyclic(Store(), overrides, steps[i..]) && AsksAmong(Store(), overrides, names, steps[i..])
        invariant answers + Answers(Store(), overrides, steps[i..]) == Answers(old(Store()), overrides, steps)
      {
        ghost var rest := steps[i + 1..];
        assert steps[i..] == [steps[i]] + rest;
        var answer := Take(steps[i], rest, names);
        Regroup(answers, answer, Answers(Store(), overrides, rest));
        answers := answers + answer;
      }
    }

    /** One step of a session: a write has no answer, a read has one. */
    method Take(step: Step, ghost rest: seq<Step>, ghost names: iset<string>) returns (answer: seq<Option<string>>)
      requires Valid() && Coherent(names) && AsksAcyclic(Store(), overrides, [step] + rest)
      requires AsksAmong(Store(), overrides, names, [step] + rest)
      modifies Own()
      ensures Valid() && Coherent(names) && Confined() && AsksAcyclic(Store(), overrides, rest)
      ensures AsksAmong(Store(), overrides, names, rest)
      ensures answer + Answers(Store(), overrides, rest) == Answers(old(Store()), overrides, [step] + rest)
    {
      assert ([step] + rest)[1..] == rest;
      answer := [];
      match step
      case Make(w) => Apply(w);
      case Ask(v) =>
        var value := GetVar(v, names);
        answer := [value];
    }

    // ---- Copies ---------------------------------------------------------------------------------

    /** A copy shares the whole chain and every index list with its original. */
    constructor Copy(original: DataSmart)
      requires original.Valid()
      ensures Valid() && fresh(Own()) && dict.parent == original.dict && overridedata == original.overridedata
      ensures Store() == original.Store() && overrides == original.overrides && expand_cache == map[]
    {
      dict := new Dict(original.dict);
      overridedata := original.overridedata;
      expand_cache := map[];
      overrides := original.overrides;
    }
  }

  /** Isolation and flattening: whatever is written to a copy, nothing that existed before changes (there
    * is no modifies clause), and the copy behaves like a flat store taken when it was made. */
  method WriteToCopy(original: DataSmart, ws: seq<DataStore.Write>) returns (copy: DataSmart)
    requires original.Valid()
    ensures fresh(copy) && copy.Valid() && copy.dict.parent == original.dict
    ensures original.Valid() && original.Store() == old(original.Store())
    ensures copy.Store() == DataStore.Run(original.Store(), ws, original.overrides)
  {
    copy := new DataSmart.Copy(original);
    copy.Run(ws);
  }

  /** A new datastore, given any mixture of reads and writes of names with at most one override, answers
    * like one without cache, as long as no read meets a reference cycle. */
  method FlatSession(overrides: seq<string>, steps: seq<Step>) returns (answers: seq<Option<string>>)
    requires FlatSteps(steps) && AsksAcyclic(DataStore.Store(map[], map[]), overrides, steps)
    ensures answers == Answers(DataStore.Store(map[], map[]), overrides, steps)
  {
    var d := new DataSmart(overrides);
    FlatAllowed(d.Store(), overrides, steps);
    answers := d.Session(steps, ALL_NAMES);
  }

  function AllWords(expanded: map<Text, set<string>>): set<string> {
    set r, w | r in expanded && w in expanded[r] :: w
  }

  /** The removals that strike a token. */
  function Hits(expanded: map<Text, set<string>>, token: string): set<Text> {
    set r | r in expanded && token in expanded[r]
  }

  lemma HitsExact(expanded: map<Text, set<string>>, token: string)
    ensures token in AllWords(expanded) <==> Hits(expanded, token) != {}
  {
    if token in AllWords(expanded) {
      var r :| r in expanded && token in expanded[r];
      assert r in Hits(expanded, token);
    }
    if Hits(expanded, token) != {} {
      var r :| r in Hits(expanded, token);
    }
  }

  /** The loop over the tokens of an expanded text. */
  method StrikeExpanded(text: string, expanded: map<Text, set<string>>) returns (kept: string, struck: set<Text>)
    ensures kept == Strike(text, AllWords(expanded))
    ensures struck == set r | r in expanded && Strikes(text, expanded[r])
  {
    var tokens := Tokens(text);
    kept, struck := "", {};
    for i := 0 to |tokens|
      invariant kept + Kept(tokens[i..], AllWords(expanded)) == Strike(text, AllWords(expanded))
      invariant forall r :: r in struck <==> r in expanded && exists j :: 0 <= j < i && tokens[j] in expanded[r]
    {
      var hits := Hits(expanded, tokens[i]);
      HitsExact(expanded, tokens[i]);
      KeptNext(kept, tokens, i, AllWords(expanded));
      struck := struck + hits;
      if hits == {} {
        kept := kept + tokens[i];
      }
    }
  }

  lemma KeptNext(kept: string, tokens: seq<string>, i: nat, drop: set<string>)
    requires i < |tokens|
    ensures kept + Kept(tokens[i..], drop) ==
            (if tokens[i] in drop then kept else kept + tokens[i]) + Kept(tokens[i + 1..], drop)
  {
    assert tokens[i..][1..] == tokens[i + 1..] && tokens[i..][0] == tokens[i];
    var rest := Kept(tokens[i + 1..], drop);
    assert kept + ("" + rest) == kept + rest && kept + (tokens[i] + rest) == kept + tokens[i] + rest;
  }

  /** The part of the walk that is still to come when the next cut is at p. */
  ghost function Remaining(name: string, p: int, more: bool): seq<(string, string)>
    requires more ==> -1 <= p < |name| && (p >= 0 ==> name[p] == ':') && (p < 0 ==> ':' !in name)
  {
    if !more then [] else if p >= 0 then WalkFrom(name, p) else Walk(name)
  }

  function Cut(name: string, p: int): string
    requires -1 <= p < |name|
  {
    if p >= 0 then name[..p] else if name == "" then "" else name[..|name| - 1]
  }

  lemma WalkStepAtColon(name: string, p: nat, short: string, q: int)
    requires p < |name| && name[p] == ':' && short == name[..p] && q == LastColon(short)
    ensures q > 0 ==> q < p && name[q] == ':'
    ensures WalkFrom(name, p) ==
            if Starts(name[p + 1..]) then [(short, name[p + 1..])] + (if q > 0 then WalkFrom(name, q) else []) else []
  {
    assert q > 0 ==> short[q] == name[q];
  }

  lemma WalkStepPlain(name: string, short: string)
    requires ':' !in name && short == if name == "" then "" else name[..|name| - 1]
    ensures LastColon(short) == -1
    ensures Walk(name) == if Starts(name) then [(short, name)] else []
  {
    assert forall c :: c in short ==> c in name;
  }
}

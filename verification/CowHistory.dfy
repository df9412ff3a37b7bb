/** Copy-on-write dictionaries of lists, and the variable history kept in them. A layer is a class derived
  * from the layer it was copied from; a list is copied into a layer when it is asked for through that layer.
  */
module CowHistory {
  import opened Common

  type Key = string

  /** A class in the chain: its own attributes, and the class it derives from. */
  class Layer<E(==)> {
    const parent: Layer?<E>
    const count: nat
    ghost const chain: set<Layer<E>>
    var own: map<Key, ListObject<E>>

    ghost predicate Valid()
      decreases count
    {
      if parent == null then count == 0 && chain == {this}
      else count == parent.count + 1 && chain == parent.chain + {this} && this !in parent.chain && parent.Valid()
    }

    constructor Base()
      ensures Valid() && parent == null && own == map[] && chain == {this}
    {
      parent, count, chain, own := null, 0, {this}, map[];
    }

    /** cow() */
    constructor Cow(from: Layer<E>)
      requires from.Valid()
      ensures Valid() && parent == from && own == map[] && chain == from.chain + {this}
    {
      parent, count, chain, own := from, from.count + 1, from.chain + {this}, map[];
      new;
      InChain(from);
    }

    /** __getreadonly__: the list itself, which the caller promises not to change; null if there is none. */
    method GetReadonly(key: Key, ghost all: set<Layer<E>>) returns (list: ListObject?<E>)
      requires Valid() && chain <= all
      ensures list == Find(this, Attributes(all), key)
    {
      var l: Layer?<E> := this;
      ghost var attributes := Attributes(all);
      InChain(this);
      while l != null && key !in l.own
        invariant l != null ==> l.Valid() && l.chain <= all && l in all
        invariant Find(this, attributes, key) == if l == null then null else Find(l, attributes, key)
        decreases if l == null then 0 else l.count + 1
      {
        l := l.parent;
        if l != null {
          InChain(l);
        }
      }
      list := if l == null then null else l.own[key];
    }

    /** A new list of the layer's own. */
    method MakeList(key: Key, items: seq<E>, ghost all: set<Layer<E>>) returns (list: ListObject<E>)
      requires this in all
      modifies this`own
      ensures fresh(list) && list.items == items
      ensures Attributes(all) == old(Attributes(all))[this := old(own)[key := list]]
    {
      list := new ListObject(items);
      own := own[key := list];
    }

    /** __getitem__: a list of the layer's own, copied from the chain if need be; null is the KeyError. No
      * layer shows anything else than before. */
    method Get(key: Key, ghost all: set<Layer<E>>) returns (list: ListObject?<E>)
      requires Forest(all) && this in all
      modifies this`own
      ensures Forest(all)
      ensures list == null <==> old(Find(this, Attributes(all), key)) == null
      ensures list == null ==> own == old(own)
      ensures list != null ==> key in own && own[key] == list
      ensures forall l, k :: l in all ==> Visible(l, all, k) == old(Visible(l, all, k))
    {
      if key in own {
        InChain(this);
        return own[key];
      }
      ghost var before, texts := Attributes(all), Contents(all);
      var found := GetReadonly(key, all);
      if found == null {
        return null;
      }
      FindListed(this, all, before, key);
      list := MakeList(key, found.items, all);
      ghost var after, texts' := Attributes(all), Contents(all);
      CopyApart(before, this, key, list);
      CopyTexts(before, this, key, list, after);
      CopyShowsSame(all, this, before, texts, key, list, after, texts');
    }
  }

  lemma InChain<E>(l: Layer<E>)
    requires l.Valid()
    ensures l in l.chain
  {
  }

  type Own<!E> = map<Layer<E>, map<Key, ListObject<E>>>

  /** The attributes of each class. */
  ghost function Attributes<E>(all: set<Layer<E>>): (r: Own<E>)
    reads all`own
    ensures r.Keys == all
  {
    map l | l in all :: l.own
  }

  /** getattr: the nearest list on the chain. */
  ghost function Find<E>(l: Layer<E>, attributes: Own<E>, key: Key): ListObject?<E>
    requires l.Valid() && l.chain <= attributes.Keys
    decreases l.count
  {
    InChain(l);
    if key in attributes[l] then attributes[l][key]
    else if l.parent == null then null else Find(l.parent, attributes, key)
  }

  /** A lookup of the key through l comes to m: m is l or above it, and nothing on the way has a list. */
  ghost predicate Passes<E>(l: Layer<E>, m: Layer<E>, attributes: Own<E>, key: Key)
    requires l.Valid() && l.chain <= attributes.Keys
    decreases l.count
  {
    InChain(l);
    l == m || (key !in attributes[l] && l.parent != null && Passes(l.parent, m, attributes, key))
  }

  type Texts<!E> = map<ListObject<E>, seq<E>>

  ghost function Lists<E>(attributes: Own<E>): (r: set<ListObject<E>>)
    ensures forall l, k :: l in attributes && k in attributes[l] ==> attributes[l][k] in r
  {
    set l, k | l in attributes && k in attributes[l] :: attributes[l][k]
  }

  /** What every list holds. */
  ghost function Contents<E>(all: set<Layer<E>>): (r: Texts<E>)
    reads all`own, Lists(Attributes(all))
    ensures r.Keys == Lists(Attributes(all))
  {
    map x | x in Lists(Attributes(all)) :: x.items
  }

  lemma {:induction false} FindListed<E>(l: Layer<E>, all: set<Layer<E>>, attributes: Own<E>, key: Key)
    requires l.Valid() && l.chain <= attributes.Keys
    ensures var list := Find(l, attributes, key); list != null ==> list in Lists(attributes)
    decreases l.count
  {
    InChain(l);
    if key !in attributes[l] && l.parent != null {
      FindListed(l.parent, all, attributes, key);
    }
  }

  /** What a layer shows under a key. */
  ghost function Shown<E>(l: Layer<E>, attributes: Own<E>, texts: Texts<E>, key: Key): Option<seq<E>>
    requires l.Valid() && l.chain <= attributes.Keys && Lists(attributes) <= texts.Keys
  {
    FindListed(l, l.chain, attributes, key);
    var list := Find(l, attributes, key);
    if list == null then None else Some(texts[list])
  }

  ghost function Visible<E>(l: Layer<E>, all: set<Layer<E>>, key: Key): Option<seq<E>>
    requires l.Valid() && l.chain <= all
    reads all`own, Lists(Attributes(all))
  {
    Shown(l, Attributes(all), Contents(all), key)
  }

  /** A layer that gets a copy of the list it shows, and what every layer shows then. */
  lemma CopyShowsSame<E>(all: set<Layer<E>>, m: Layer<E>, before: Own<E>, texts: Texts<E>, key: Key,
                         copy: ListObject<E>, after: Own<E>, texts': Texts<E>)
    requires (forall l :: l in all ==> l.Valid() && l.chain <= all) && m in all && before.Keys == all
    requires Lists(before) <= texts.Keys && Lists(after) <= texts'.Keys
    requires key !in before[m] && after == before[m := before[m][key := copy]]
    requires forall x :: x in Lists(before) ==> x in texts' && texts'[x] == texts[x]
    requires var found := Find(m, before, key);
             found != null && found in Lists(before) && copy in texts' && texts'[copy] == texts[found]
    ensures forall l, k :: l in all ==> Shown(l, after, texts', k) == Shown(l, before, texts, k)
  {
    forall l, k | l in all ensures Shown(l, after, texts', k) == Shown(l, before, texts, k) {
      FindAfterOwning(l, m, before, key, copy, after, k);
      FindListed(l, all, before, k);
      if Passes(l, m, before, key) {
        PassesFind(l, m, before, key);
      }
    }
  }

  lemma {:induction false} FindAfterOwning<E>(l: Layer<E>, m: Layer<E>, before: Own<E>, key: Key,
                                              list: ListObject<E>, after: Own<E>, k: Key)
    requires l.Valid() && l.chain <= before.Keys && m in before
    requires after == before[m := before[m][key := list]]
    ensures Find(l, after, k) == if k == key && Passes(l, m, before, key) then list else Find(l, before, k)
    decreases l.count
  {
    InChain(l);
    if l.parent != null {
      FindAfterOwning(l.parent, m, before, key, list, after, k);
    }
  }

  lemma {:induction false} PassesFind<E>(l: Layer<E>, m: Layer<E>, attributes: Own<E>, key: Key)
    requires l.Valid() && l.chain <= attributes.Keys && m.Valid() && m.chain <= attributes.Keys
    requires Passes(l, m, attributes, key)
    ensures Find(l, attributes, key) == Find(m, attributes, key)
    decreases l.count
  {
    InChain(l);
    if l != m {
      PassesFind(l.parent, m, attributes, key);
    }
  }

  /** No list belongs to two layers, or to two keys. */
  ghost predicate Apart<E>(attributes: Own<E>) {
    forall l, m, j, k ::
      (l in attributes && m in attributes && j in attributes[l] && k in attributes[m]
       && attributes[l][j] == attributes[m][k]) ==> l == m && j == k
  }

  ghost predicate Forest<E>(all: set<Layer<E>>)
    reads all`own
  {
    (forall l :: l in all ==> l.Valid() && l.chain <= all) && Apart(Attributes(all))
  }

  lemma CopyApart<E>(before: Own<E>, m: Layer<E>, key: Key, list: ListObject<E>)
    requires Apart(before) && m in before && list !in Lists(before)
    ensures Apart(before[m := before[m][key := list]])
  {
  }

  lemma Place<E>(attributes: Own<E>, x: ListObject<E>) returns (l: Layer<E>, k: Key)
    requires x in Lists(attributes)
    ensures l in attributes && k in attributes[l] && attributes[l][k] == x
  {
    l, k :| l in attributes && k in attributes[l] && attributes[l][k] == x;
  }

  lemma KeptAt<E>(before: Own<E>, m: Layer<E>, key: Key, list: ListObject<E>, l: Layer<E>, k: Key)
    requires m in before && key !in before[m] && l in before && k in before[l]
    ensures var after := before[m := before[m][key := list]];
            k in after[l] && after[l][k] == before[l][k]
  {
  }

  lemma ListKept<E>(before: Own<E>, m: Layer<E>, key: Key, list: ListObject<E>, after: Own<E>, x: ListObject<E>)
    requires m in before && key !in before[m] && after == before[m := before[m][key := list]]
    requires x == list || x in Lists(before)
    ensures x in Lists(after)
  {
    if x == list {
      assert after[m][key] == x;
    } else {
      var l, k := Place(before, x);
      KeptAt(before, m, key, list, l, k);
    }
  }

  lemma CopyTexts<E>(before: Own<E>, m: Layer<E>, key: Key, list: ListObject<E>, after: Own<E>)
    requires m in before && key !in before[m] && after == before[m := before[m][key := list]]
    ensures Lists(before) <= Lists(after) && list in Lists(after)
  {
    forall x | x in Lists(before) ensures x in Lists(after) {
      ListKept(before, m, key, list, after, x);
    }
    ListKept(before, m, key, list, after, list);
  }

  // ---- Changing a list in place -----------------------------------------------------------------

  /** Whether a lookup comes to m does not depend on what m has. */
  lemma {:induction false} PassesSame<E>(l: Layer<E>, m: Layer<E>, before: Own<E>, after: Own<E>, key: Key)
    requires l.Valid() && l.chain <= before.Keys && before.Keys == after.Keys
    requires forall n :: n in before && n != m ==> after[n] == before[n]
    ensures Passes(l, m, after, key) == Passes(l, m, before, key)
    decreases l.count
  {
    InChain(l);
    if l != m && l.parent != null {
      PassesSame(l.parent, m, before, after, key);
    }
  }

  /** A list is found through the layer that has it, under its own key only. */
  lemma {:induction false} FindsOwn<E>(l: Layer<E>, m: Layer<E>, attributes: Own<E>, key: Key, k: Key)
    requires l.Valid() && l.chain <= attributes.Keys && Apart(attributes)
    requires m in attributes && key in attributes[m]
    ensures Find(l, attributes, k) == attributes[m][key] <==> k == key && Passes(l, m, attributes, key)
    decreases l.count
  {
    InChain(l);
    if l.parent != null {
      FindsOwn(l.parent, m, attributes, key, k);
    }
  }

  /** Only layers derived from m come to m. */
  lemma {:induction false} OnlyDescendantsPass<E>(l: Layer<E>, m: Layer<E>, attributes: Own<E>, key: Key)
    requires l.Valid() && l.chain <= attributes.Keys && Passes(l, m, attributes, key)
    ensures m in l.chain
    decreases l.count
  {
    InChain(l);
    if l != m {
      OnlyDescendantsPass(l.parent, m, attributes, key);
    }
  }

  function OrEmpty<E>(shown: Option<seq<E>>): seq<E> {
    if shown.None? then [] else shown.value
  }

  /** What every layer shows when an entry has been added through m. */
  ghost predicate AddedThrough<E>(all: set<Layer<E>>, m: Layer<E>, before: Own<E>, texts: Texts<E>, key: Key, e: E,
                                  after: Own<E>, texts': Texts<E>)
    requires (forall l :: l in all ==> l.Valid() && l.chain <= all) && m in all && before.Keys == all == after.Keys
    requires Lists(before) <= texts.Keys && Lists(after) <= texts'.Keys
  {
    forall l, k :: l in all ==>
      Shown(l, after, texts', k) ==
      if k == key && Passes(l, m, before, key) then Some(OrEmpty(Shown(m, before, texts, key)) + [e])
      else Shown(l, before, texts, k)
  }

  ghost predicate ShowSame<E>(all: set<Layer<E>>, before: Own<E>, texts: Texts<E>, after: Own<E>, texts': Texts<E>)
    requires (forall l :: l in all ==> l.Valid() && l.chain <= all) && before.Keys == all == after.Keys
    requires Lists(before) <= texts.Keys && Lists(after) <= texts'.Keys
  {
    forall l, k :: l in all ==> Shown(l, after, texts', k) == Shown(l, before, texts, k)
  }

  /** The history of variables; "all" are the layers of all histories that belong together. */
  class VariableHistory<E(==)> {
    var variables: Layer<E>

    constructor (variables: Layer<E>)
      ensures this.variables == variables
    {
      this.variables := variables;
    }

    /** copy(): a new history over a layer derived from this one's. */
    method Copy(ghost all: set<Layer<E>>) returns (copy: VariableHistory<E>)
      requires Forest(all) && variables in all
      ensures fresh(copy) && fresh(copy.variables) && copy.variables.parent == variables
      ensures Forest(all + {copy.variables})
      ensures forall l, k :: l in all ==> Visible(l, all + {copy.variables}, k) == old(Visible(l, all, k))
      ensures forall k :: Visible(copy.variables, all + {copy.variables}, k) == old(Visible(variables, all, k))
    {
      ghost var a, texts := Attributes(all), Contents(all);
      var layer := Derive(variables, all);
      copy := new VariableHistory(layer);
      WiderLists(a, layer, Attributes(all + {layer}));
      NewLayerShows(all, layer, a, texts, Attributes(all + {layer}), Contents(all + {layer}));
    }

    static method Derive(from: Layer<E>, ghost all: set<Layer<E>>) returns (layer: Layer<E>)
      requires from.Valid()
      ensures fresh(layer) && layer.Valid() && layer.parent == from && layer.chain == from.chain + {layer}
      ensures Attributes(all + {layer}) == old(Attributes(all))[layer := map[]]
    {
      layer := new Layer<E>.Cow(from);
    }

    /** The list of a variable in this history's own layer, with what the layer showed before. */
    method OwnList(key: Key, ghost all: set<Layer<E>>) returns (list: ListObject<E>)
      requires Forest(all) && variables in all
      modifies variables`own
      ensures fresh(list) || list in old(Lists(Attributes(all)))
      ensures Forest(all) && Owned(old(Attributes(all)), variables, key, list, Attributes(all))
      ensures Keeps(old(Attributes(all)), old(Contents(all)), list, Contents(all))
      ensures list.items == OrEmpty(old(Visible(variables, all, key)))
    {
      var l := variables;
      ghost var attributes := Attributes(all);
      var found := l.GetReadonly(key, all);
      FindListed(l, all, attributes, key);
      InChain(l);
      if key in l.own {
        list := l.own[key];
        SameAttribute(attributes, l, key, list);
      } else if found == null {
        list := l.MakeList(key, [], all);
      } else {
        list := l.MakeList(key, found.items, all);
      }
      OwnedApart(attributes, l, key, list, Attributes(all));
      OwnedLists(attributes, l, key, list, Attributes(all));
    }

    /** An entry joins the list of its variable in this history's own layer. It is seen through this history
      * and through those copies of it that have no list of their own for the variable, and nowhere else. An
      * entry that may not come twice and is there already changes nothing. */
    method Record(key: Key, e: E, nodups: bool, ghost all: set<Layer<E>>) returns (added: bool)
      requires Forest(all) && variables in all
      modifies variables`own, Lists(Attributes(all))
      ensures Forest(all) && variables == old(variables)
      ensures added <==> !(nodups && e in OrEmpty(old(Visible(variables, all, key))))
      ensures added ==> AddedThrough(all, variables, old(Attributes(all)), old(Contents(all)), key, e,
                                     Attributes(all), Contents(all))
      ensures !added ==> ShowSame(all, old(Attributes(all)), old(Contents(all)), Attributes(all), Contents(all))
    {
      ghost var before, texts := Attributes(all), Contents(all);
      var list := OwnList(key, all);
      added := AddUnlessThere(variables, list, key, e, nodups, all, before, texts);
    }

    static method AddUnlessThere(m: Layer<E>, list: ListObject<E>, key: Key, e: E, nodups: bool,
                                 ghost all: set<Layer<E>>, ghost before: Own<E>, ghost texts: Texts<E>)
        returns (added: bool)
      requires Forest(all) && m in all && before.Keys == all && Apart(before) && Lists(before) <= texts.Keys
      requires Owned(before, m, key, list, Attributes(all)) && Keeps(before, texts, list, Contents(all))
      requires list.items == OrEmpty(Shown(m, before, texts, key))
      modifies list
      ensures Forest(all)
      ensures added <==> !(nodups && e in old(list.items))
      ensures added ==> AddedThrough(all, m, before, texts, key, e, Attributes(all), Contents(all))
      ensures !added ==> ShowSame(all, before, texts, Attributes(all), Contents(all))
    {
      OwnedLists(before, m, key, list, Attributes(all));
      added := !(nodups && e in list.items);
      if added {
        AppendTo(list, e, all);
        RecordShows(all, m, before, texts, key, e, list, Attributes(all), Contents(all));
      } else {
        SameShows(all, m, before, texts, key, list, Attributes(all), Contents(all));
      }
    }

    static method AppendTo(list: ListObject<E>, e: E, ghost all: set<Layer<E>>)
      requires list in Lists(Attributes(all))
      modifies list
      ensures Attributes(all) == old(Attributes(all))
      ensures Contents(all) == old(Contents(all))[list := old(list.items) + [e]]
    {
      list.items := list.items + [e];
    }
  }

  /** m has this list of its own for the key, new or as before; nothing else is different. */
  ghost predicate Owned<E>(before: Own<E>, m: Layer<E>, key: Key, list: ListObject<E>, after: Own<E>) {
    && m in before && after == before[m := before[m][key := list]]
    && (key in before[m] ==> before[m][key] == list)
    && (list in Lists(before) ==> key in before[m])
  }

  /** The lists there were hold what they held, but for one of them. */
  ghost predicate Keeps<E>(before: Own<E>, texts: Texts<E>, list: ListObject<E>, texts': Texts<E>)
    requires Lists(before) <= texts.Keys
  {
    list in texts' && forall x :: x in Lists(before) && x != list ==> x in texts' && texts'[x] == texts[x]
  }

  lemma OwnedApart<E>(before: Own<E>, m: Layer<E>, key: Key, list: ListObject<E>, after: Own<E>)
    requires Apart(before) && Owned(before, m, key, list, after)
    ensures Apart(after)
  {
  }

  lemma SameAttribute<E>(before: Own<E>, m: Layer<E>, key: Key, list: ListObject<E>)
    requires m in before && key in before[m] && before[m][key] == list
    ensures before[m := before[m][key := list]] == before
  {
    assert before[m][key := list] == before[m];
  }

  /** The lists afterwards: the new one, and all others but the one it replaces, which is the same. */
  lemma OwnedLists<E>(before: Own<E>, m: Layer<E>, key: Key, list: ListObject<E>, after: Own<E>)
    requires Owned(before, m, key, list, after)
    ensures Lists(before) <= Lists(after) && list in Lists(after)
  {
    if key in before[m] {
      SameAttribute(before, m, key, list);
      assert before[m][key] in Lists(before);
    } else {
      CopyTexts(before, m, key, list, after);
    }
  }

  /** What every layer shows when m has its own list with that text. */
  lemma OwnShows<E>(l: Layer<E>, m: Layer<E>, before: Own<E>, texts: Texts<E>, key: Key, list: ListObject<E>,
                    after: Own<E>, texts': Texts<E>, k: Key)
    requires l.Valid() && l.chain <= before.Keys && m in before && Apart(before)
    requires Owned(before, m, key, list, after) && Lists(before) <= texts.Keys && Lists(after) <= texts'.Keys
    requires Keeps(before, texts, list, texts')
    ensures Shown(l, after, texts', k) ==
            if k == key && Passes(l, m, before, key) then Some(texts'[list]) else Shown(l, before, texts, k)
  {
    FindAfterOwning(l, m, before, key, list, after, k);
    FindListed(l, l.chain, before, k);
    if key in before[m] {
      FindsOwn(l, m, before, key, k);
    }
  }

  lemma RecordShows<E>(all: set<Layer<E>>, m: Layer<E>, before: Own<E>, texts: Texts<E>, key: Key, e: E,
                       list: ListObject<E>, after: Own<E>, texts': Texts<E>)
    requires (forall l :: l in all ==> l.Valid() && l.chain <= all) && m in all && before.Keys == all && Apart(before)
    requires Owned(before, m, key, list, after) && Lists(before) <= texts.Keys && Lists(after) <= texts'.Keys
    requires Keeps(before, texts, list, texts')
    requires texts'[list] == OrEmpty(Shown(m, before, texts, key)) + [e]
    ensures AddedThrough(all, m, before, texts, key, e, after, texts')
  {
    forall l, k | l in all
      ensures Shown(l, after, texts', k) ==
              if k == key && Passes(l, m, before, key) then Some(texts'[list]) else Shown(l, before, texts, k)
    {
      OwnShows(l, m, before, texts, key, list, after, texts', k);
    }
  }

  lemma SameShows<E>(all: set<Layer<E>>, m: Layer<E>, before: Own<E>, texts: Texts<E>, key: Key,
                     list: ListObject<E>, after: Own<E>, texts': Texts<E>)
    requires (forall l :: l in all ==> l.Valid() && l.chain <= all) && m in all && before.Keys == all && Apart(before)
    requires Owned(before, m, key, list, after) && Lists(before) <= texts.Keys && Lists(after) <= texts'.Keys
    requires Keeps(before, texts, list, texts')
    requires texts'[list] == OrEmpty(Shown(m, before, texts, key)) && texts'[list] != []
    ensures ShowSame(all, before, texts, after, texts')
  {
    forall l, k | l in all ensures Shown(l, after, texts', k) == Shown(l, before, texts, k) {
      OwnShows(l, m, before, texts, key, list, after, texts', k);
      if Passes(l, m, before, key) {
        PassesFind(l, m, before, key);
      }
    }
  }

  /** A copy made earlier sees what is recorded in the original later, as long as it has no list of its own
    * for the variable; the original never sees what is recorded in the copy. */
  lemma CopySeesLaterEntries<E>(copy: Layer<E>, original: Layer<E>, attributes: Own<E>, key: Key)
    requires copy.Valid() && copy.chain <= attributes.Keys && copy.parent == original
    requires original.Valid() && original.chain <= attributes.Keys
    ensures Passes(copy, original, attributes, key) <==> copy in attributes && key !in attributes[copy]
    ensures !Passes(original, copy, attributes, key)
  {
    InChain(copy);
    InChain(original);
    if Passes(original, copy, attributes, key) {
      OnlyDescendantsPass(original, copy, attributes, key);
    }
  }

  lemma WiderLists<E>(a: Own<E>, layer: Layer<E>, b: Own<E>)
    requires layer !in a && b == a[layer := map[]]
    ensures forall x :: x in Lists(a) ==> x in Lists(b)
    ensures Apart(a) ==> Apart(b)
  {
    forall x | x in Lists(a) ensures x in Lists(b) {
      var l, k := Place(a, x);
      assert b[l][k] == x;
    }
  }

  lemma {:induction false} FindWider<E>(l: Layer<E>, a: Own<E>, b: Own<E>, key: Key)
    requires l.Valid() && l.chain <= a.Keys && a.Keys <= b.Keys && forall n :: n in a ==> b[n] == a[n]
    ensures Find(l, b, key) == Find(l, a, key)
    decreases l.count
  {
    InChain(l);
    if l.parent != null {
      FindWider(l.parent, a, b, key);
    }
  }

  /** A new layer without attributes shows what its parent shows. */
  lemma NewLayerShows<E>(all: set<Layer<E>>, layer: Layer<E>, a: Own<E>, texts: Texts<E>, b: Own<E>, texts': Texts<E>)
    requires (forall l :: l in all ==> l.Valid() && l.chain <= all) && a.Keys == all
    requires layer.Valid() && layer !in all && layer.parent != null && layer.parent in all
    requires b == a[layer := map[]] && Lists(a) <= texts.Keys && Lists(b) <= texts'.Keys
    requires forall x :: x in Lists(a) ==> x in texts' && texts'[x] == texts[x]
    ensures layer.chain <= b.Keys
    ensures forall l, k :: l in all ==> Shown(l, b, texts', k) == Shown(l, a, texts, k)
    ensures forall k :: Shown(layer, b, texts', k) == Shown(layer.parent, a, texts, k)
  {
    forall l, k | l in all ensures Shown(l, b, texts', k) == Shown(l, a, texts, k) {
      FindWider(l, a, b, k);
      FindListed(l, all, a, k);
    }
    InChain(layer);
    forall k ensures Shown(layer, b, texts', k) == Shown(layer.parent, a, texts, k) {
      assert Find(layer, b, k) == Find(layer.parent, b, k);
      assert Shown(layer.parent, b, texts', k) == Shown(layer.parent, a, texts, k);
    }
  }
}

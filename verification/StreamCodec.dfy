/** The deduplicating stream of variable data between parsing processes and the server. The first time a
  * process sends a value it sends it with a number; later it sends the number alone. The reader keeps one
  * table of numbered values for each process.
  */
module StreamCodec {
  import opened Common

  type Pid = nat

  /** One of a recipe's three dictionaries, as the list of its items. */
  type Items<K, V> = seq<(K, Option<V>)>

  datatype Table<K, V> = Absent | Present(items: Items<K, V>)
  {
    /** What "not deps" tests. */
    predicate Falsy() {
      Absent? || items == []
    }
  }

  type Record<K, V> = seq<Table<K, V>>

  /** The triples (dep, None, None), (dep, None, num) and (dep, fs, num). */
  datatype Entry<K, V> = Nothing(dep: K) | Ref(dep: K, num: nat) | Def(dep: K, fs: V, num: nat)

  datatype Packed<K, V> = AsIs(table: Table<K, V>) | Entries(entries: seq<Entry<K, V>>)

  /** What the reader makes of a table. */
  datatype Dict<K, V> = Untouched(table: Table<K, V>) | Dict(entries: map<K, Option<V>>)

  function DictOf<K, V>(items: Items<K, V>): map<K, Option<V>> {
    if items == [] then map[] else DictOf(items[..|items| - 1])[items[|items| - 1].0 := items[|items| - 1].1]
  }

  function Original<K, V>(table: Table<K, V>): Dict<K, V> {
    if table.Falsy() then Untouched(table) else Dict(DictOf(table.items))
  }

  function Originals<K, V>(record: Record<K, V>): seq<Dict<K, V>> {
    seq(|record|, i requires 0 <= i < |record| => Original(record[i]))
  }

  // ---- The writer -------------------------------------------------------------------------------

  /** save_map and save_count. */
  datatype Writer<V> = Writer(known: map<V, nat>, count: nat)
  {
    /** Every number below the next one belongs to at most one value. */
    ghost predicate Valid() {
      && (forall v :: v in known ==> known[v] < count)
      && (forall v, u :: v in known && u in known && known[v] == known[u] ==> v == u)
    }
  }

  function Fresh<V>(): Writer<V> {
    Writer(map[], 1)
  }

  function SaveItem<K, V(==)>(w: Writer<V>, item: (K, Option<V>)): (Entry<K, V>, Writer<V>) {
    match item.1
    case None => (Nothing(item.0), w)
    case Some(fs) =>
      if fs in w.known then (Ref(item.0, w.known[fs]), w)
      else (Def(item.0, fs, w.count), Writer(w.known[fs := w.count], w.count + 1))
  }

  function SaveItems<K, V(==)>(w: Writer<V>, items: Items<K, V>): (seq<Entry<K, V>>, Writer<V>) {
    if items == [] then ([], w)
    else
      var (front, w1) := SaveItems(w, items[..|items| - 1]);
      var (last, w2) := SaveItem(w1, items[|items| - 1]);
      (front + [last], w2)
  }

  function SaveTable<K, V(==)>(w: Writer<V>, table: Table<K, V>): (Packed<K, V>, Writer<V>) {
    if table.Falsy() then (AsIs(table), w)
    else var (entries, w') := SaveItems(w, table.items); (Entries(entries), w')
  }

  function SaveRecord<K, V(==)>(w: Writer<V>, record: Record<K, V>): (seq<Packed<K, V>>, Writer<V>) {
    if record == [] then ([], w)
    else
      var (front, w1) := SaveRecord(w, record[..|record| - 1]);
      var (last, w2) := SaveTable(w1, record[|record| - 1]);
      (front + [last], w2)
  }

  // ---- The reader -------------------------------------------------------------------------------

  /** The table of one process after reading, and what was read; None is a KeyError. */
  datatype Read<T, V> = Read(table: map<nat, V>, result: Option<T>)

  function RestoreEntry<K, V>(read: Read<map<K, Option<V>>, V>, e: Entry<K, V>): Read<map<K, Option<V>>, V> {
    match read.result
    case None => read
    case Some(ret) =>
      match e
      case Nothing(dep) => Read(read.table, Some(ret[dep := None]))
      case Ref(dep, n) => if n in read.table then Read(read.table, Some(ret[dep := Some(read.table[n])]))
                          else Read(read.table, None)
      case Def(dep, fs, n) => Read(read.table[n := fs], Some(ret[dep := Some(fs)]))
  }

  function RestoreEntries<K, V>(table: map<nat, V>, entries: seq<Entry<K, V>>): Read<map<K, Option<V>>, V> {
    if entries == [] then Read(table, Some(map[]))
    else RestoreEntry(RestoreEntries(table, entries[..|entries| - 1]), entries[|entries| - 1])
  }

  function RestoreTable<K, V>(table: map<nat, V>, packed: Packed<K, V>): Read<Dict<K, V>, V> {
    match packed
    case AsIs(t) => Read(table, Some(Untouched(t)))
    case Entries(entries) =>
      if entries == [] then Read(table, Some(Untouched(Present([]))))
      else
        var read := RestoreEntries(table, entries);
        Read(read.table, if read.result.None? then None else Some(Dict(read.result.value)))
  }

  function RestoreRecord<K, V>(table: map<nat, V>, packed: seq<Packed<K, V>>): Read<seq<Dict<K, V>>, V> {
    if packed == [] then Read(table, Some([]))
    else
      var read := RestoreRecord(table, packed[..|packed| - 1]);
      if read.result.None? then read
      else
        var last := RestoreTable(read.table, packed[|packed| - 1]);
        Read(last.table, if last.result.None? then None else Some(read.result.value + [last.result.value]))
  }

  /** The class attributes of SiggenRecipeInfo in one process. */
  class SiggenRecipeInfo<K(==), V(==)> {
    var store: map<V, V>
    var save_map: map<V, nat>
    var save_count: nat
    var restore_map: map<Pid, map<nat, V>>

    constructor ()
      ensures Valid() && WriterNow() == Fresh() && restore_map == map[]
    {
      store, save_map, save_count, restore_map := map[], map[], 1, map[];
    }

    /** The store of shared objects gives back an equal value. */
    ghost predicate Valid()
      reads this`store
    {
      forall v :: v in store ==> store[v] == v
    }

    function WriterNow(): Writer<V>
      reads this`save_map, this`save_count
    {
      Writer(save_map, save_count)
    }

    function TableOf(pid: Pid): map<nat, V>
      reads this`restore_map
    {
      if pid in restore_map then restore_map[pid] else map[]
    }

    method Reset()
      modifies this`save_map, this`save_count, this`restore_map
      ensures WriterNow() == Fresh() && restore_map == map[]
    {
      save_map, save_count, restore_map := map[], 1, map[];
    }

    method Save(deps: Table<K, V>) returns (packed: Packed<K, V>)
      modifies this`save_map, this`save_count
      ensures (packed, WriterNow()) == SaveTable(old(WriterNow()), deps)
    {
      if deps.Falsy() {
        return AsIs(deps);
      }
      var ret := [];
      var i := 0;
      ghost var w := WriterNow();
      while i < |deps.items|
        invariant i <= |deps.items|
        invariant (ret, WriterNow()) == SaveItems(w, deps.items[..i])
      {
        var (dep, value) := deps.items[i];
        match value {
          case None => ret := ret + [Nothing(dep)];
          case Some(fs) =>
            if fs in save_map {
              ret := ret + [Ref(dep, save_map[fs])];
            } else {
              save_map := save_map[fs := save_count];
              ret := ret + [Def(dep, fs, save_count)];
              save_count := save_count + 1;
            }
        }
        assert deps.items[..i + 1][..i] == deps.items[..i];
        i := i + 1;
      }
      assert deps.items[..|deps.items|] == deps.items;
      packed := Entries(ret);
    }

    /** One object for equal values. */
    method Share(fs: V) returns (shared: V)
      requires Valid()
      modifies this`store
      ensures Valid() && shared == fs
    {
      if fs in store {
        return store[fs];
      }
      store := store[fs := fs];
      shared := fs;
    }

    /** The shared value, entered under its number. */
    method Learn(pid: Pid, fs: V, n: nat) returns (shared: V)
      requires Valid() && pid in restore_map
      modifies this`store, this`restore_map
      ensures Valid() && shared == fs
      ensures pid in restore_map && restore_map == old(restore_map)[pid := restore_map[pid]]
      ensures restore_map[pid] == old(restore_map[pid])[n := fs]
    {
      shared := Share(fs);
      var table: map<nat, V> := restore_map[pid];
      table := table[n := shared];
      restore_map := restore_map[pid := table];
    }

    method Restore(deps: Packed<K, V>, pid: Pid) returns (result: Option<Dict<K, V>>)
      requires Valid()
      modifies this`store, this`restore_map
      ensures Valid()
      ensures Read(TableOf(pid), result) == RestoreTable(old(TableOf(pid)), deps)
      ensures forall p :: p != pid ==> TableOf(p) == old(TableOf(p))
    {
      if deps.AsIs? {
        return Some(Untouched(deps.table));
      }
      if deps.entries == [] {
        return Some(Untouched(Present([])));
      }
      if pid !in restore_map {
        restore_map := restore_map[pid := map[]];
      }
      ghost var before := restore_map;
      ghost var table := restore_map[pid];
      var ret := map[];
      var i := 0;
      while i < |deps.entries|
        invariant i <= |deps.entries|
        invariant Valid() && pid in restore_map && restore_map == before[pid := restore_map[pid]]
        invariant RestoreEntries(table, deps.entries[..i]) == Read(restore_map[pid], Some(ret))
      {
        var e := deps.entries[i];
        ReadNext(table, deps.entries, i);
        match e {
          case Nothing(dep) => ret := ret[dep := None];
          case Ref(dep, n) =>
            if n !in restore_map[pid] {
              FailureSticks(table, deps.entries, i + 1);
              return None;
            }
            ret := ret[dep := Some(restore_map[pid][n])];
          case Def(dep, fs, n) =>
            var shared := Learn(pid, fs, n);
            ret := ret[dep := Some(shared)];
        }
        i := i + 1;
      }
      assert deps.entries[..|deps.entries|] == deps.entries;
      result := Some(Dict(ret));
    }
  }

  lemma ReadNext<K, V>(table: map<nat, V>, entries: seq<Entry<K, V>>, i: nat)
    requires i < |entries|
    ensures RestoreEntries(table, entries[..i + 1]) == RestoreEntry(RestoreEntries(table, entries[..i]), entries[i])
  {
    assert entries[..i + 1][..i] == entries[..i];
  }

  lemma {:induction false} FailureSticks<K, V>(table: map<nat, V>, entries: seq<Entry<K, V>>, k: nat)
    requires k <= |entries| && RestoreEntries(table, entries[..k]).result.None?
    ensures RestoreEntries(table, entries) == RestoreEntries(table, entries[..k])
  {
    if k < |entries| {
      var front := entries[..|entries| - 1];
      assert front[..k] == entries[..k];
      FailureSticks(table, front, k);
    } else {
      assert entries[..k] == entries;
    }
  }

  // ---- What keeps the two in step ---------------------------------------------------------------

  /** The reader's table has every number the writer may send alone. It may have others, left over from
    * before a reset of the writer. */
  ghost predicate Synced<V>(table: map<nat, V>, w: Writer<V>) {
    forall v :: v in w.known ==> w.known[v] in table && table[w.known[v]] == v
  }

  /** The reader's table may lack numbers, but what it has is what the writer means by it. */
  ghost predicate Partial<V>(table: map<nat, V>, w: Writer<V>) {
    forall n :: n in table ==> table[n] in w.known && w.known[table[n]] == n
  }

  lemma SaveItemValid<K, V>(w: Writer<V>, item: (K, Option<V>))
    requires w.Valid()
    ensures SaveItem(w, item).1.Valid()
  {
  }

  /** One item: in step it comes back, */
  lemma ItemInStep<K, V>(w: Writer<V>, item: (K, Option<V>), read: Read<map<K, Option<V>>, V>)
    requires w.Valid() && read.result.Some? && Synced(read.table, w)
    ensures var (e, w') := SaveItem(w, item);
            var r := RestoreEntry(read, e);
            r.result == Some(read.result.value[item.0 := item.1]) && Synced(r.table, w')
  {
  }

  /** out of step it comes back or is a KeyError, never something else. */
  lemma ItemOutOfStep<K, V>(w: Writer<V>, item: (K, Option<V>), read: Read<map<K, Option<V>>, V>)
    requires w.Valid() && Partial(read.table, w)
    ensures var (e, w') := SaveItem(w, item);
            var r := RestoreEntry(read, e);
            && (r.result.Some? ==> read.result.Some? && r.result == Some(read.result.value[item.0 := item.1]))
            && Partial(r.table, w')
  {
  }

  lemma {:induction false} ItemsRoundTrip<K, V>(w: Writer<V>, items: Items<K, V>, table: map<nat, V>)
    requires w.Valid()
    ensures SaveItems(w, items).1.Valid()
    ensures Synced(table, w) ==>
              var (es, w') := SaveItems(w, items);
              var r := RestoreEntries(table, es);
              r.result == Some(DictOf(items)) && Synced(r.table, w')
    ensures Partial(table, w) ==>
              var (es, w') := SaveItems(w, items);
              var r := RestoreEntries(table, es);
              (r.result.Some? ==> r.result == Some(DictOf(items))) && Partial(r.table, w')
  {
    if items != [] {
      var front := items[..|items| - 1];
      ItemsRoundTrip(w, front, table);
      var (es, w1) := SaveItems(w, front);
      var read := RestoreEntries(table, es);
      SaveItemValid(w1, items[|items| - 1]);
      if Synced(table, w) {
        ItemInStep(w1, items[|items| - 1], read);
      }
      if Partial(table, w) {
        ItemOutOfStep(w1, items[|items| - 1], read);
      }
      var (all, _) := SaveItems(w, items);
      assert all[..|all| - 1] == es;
    }
  }

  lemma {:induction false} SavedCount<K, V>(w: Writer<V>, items: Items<K, V>)
    ensures |SaveItems(w, items).0| == |items|
  {
    if items != [] {
      SavedCount(w, items[..|items| - 1]);
    }
  }

  lemma TableRoundTrip<K, V>(w: Writer<V>, t: Table<K, V>, table: map<nat, V>)
    requires w.Valid()
    ensures SaveTable(w, t).1.Valid()
    ensures Synced(table, w) ==>
              var (p, w') := SaveTable(w, t);
              var r := RestoreTable(table, p);
              r.result == Some(Original(t)) && Synced(r.table, w')
    ensures Partial(table, w) ==>
              var (p, w') := SaveTable(w, t);
              var r := RestoreTable(table, p);
              (r.result.Some? ==> r.result == Some(Original(t))) && Partial(r.table, w')
  {
    if !t.Falsy() {
      ItemsRoundTrip(w, t.items, table);
      SavedCount(w, t.items);
    }
  }

  lemma {:induction false} SaveRecordValid<K, V>(w: Writer<V>, record: Record<K, V>)
    requires w.Valid()
    ensures SaveRecord(w, record).1.Valid()
  {
    if record != [] {
      SaveRecordValid(w, record[..|record| - 1]);
      TableRoundTrip(SaveRecord(w, record[..|record| - 1]).1, record[|record| - 1], map[]);
    }
  }

  /** A whole record. */
  lemma {:induction false} RecordInStep<K, V>(w: Writer<V>, record: Record<K, V>, table: map<nat, V>)
    requires w.Valid() && Synced(table, w)
    ensures var (p, w') := SaveRecord(w, record);
            var r := RestoreRecord(table, p);
            r.result == Some(Originals(record)) && Synced(r.table, w')
  {
    if record != [] {
      var front, last := record[..|record| - 1], record[|record| - 1];
      RecordInStep(w, front, table);
      SaveRecordValid(w, front);
      var (p, w1) := SaveRecord(w, front);
      TableRoundTrip(w1, last, RestoreRecord(table, p).table);
      var (all, _) := SaveRecord(w, record);
      assert all[..|all| - 1] == p;
      assert Originals(record) == Originals(front) + [Original(last)];
    } else {
      assert Originals(record) == [];
    }
  }

  /** Out of step a record can fail half way. What it has defined until then stays, and the writer, which
    * does not know, has gone further: the reader's table is still right about what it has. */
  lemma {:induction false} RecordOutOfStep<K, V>(w: Writer<V>, record: Record<K, V>, table: map<nat, V>)
    requires w.Valid() && Partial(table, w)
    ensures var (p, w') := SaveRecord(w, record);
            var r := RestoreRecord(table, p);
            (r.result.Some? ==> r.result == Some(Originals(record))) && Partial(r.table, w')
  {
    if record != [] {
      var front, last := record[..|record| - 1], record[|record| - 1];
      RecordOutOfStep(w, front, table);
      SaveRecordValid(w, front);
      var (p, w1) := SaveRecord(w, front);
      var read := RestoreRecord(table, p);
      TableRoundTrip(w1, last, read.table);
      var (all, w2) := SaveRecord(w, record);
      assert all[..|all| - 1] == p;
      assert Originals(record) == Originals(front) + [Original(last)];
      if read.result.None? {
        TableKnownGrows(w1, last);
      }
    } else {
      assert Originals(record) == [];
    }
  }

  /** Until it is reset, a writer forgets nothing. */
  lemma {:induction false} ItemsKnownGrow<K, V>(w: Writer<V>, items: Items<K, V>)
    ensures var w' := SaveItems(w, items).1; forall v :: v in w.known ==> v in w'.known && w'.known[v] == w.known[v]
  {
    if items != [] {
      ItemsKnownGrow(w, items[..|items| - 1]);
    }
  }

  lemma TableKnownGrows<K, V>(w: Writer<V>, t: Table<K, V>)
    ensures var w' := SaveTable(w, t).1; forall v :: v in w.known ==> v in w'.known && w'.known[v] == w.known[v]
  {
    if !t.Falsy() {
      ItemsKnownGrow(w, t.items);
    }
  }

  /** A table whose entries are read from any reader's table fails exactly when one of them is a number that
    * the reader's table lacks and no earlier entry brings. */
  lemma {:induction false} KeyErrorExact<K, V>(table: map<nat, V>, entries: seq<Entry<K, V>>)
    ensures RestoreEntries(table, entries).result.None? <==> Dangles(table, entries)
    ensures RestoreEntries(table, entries).result.Some? ==>
            RestoreEntries(table, entries).table.Keys == table.Keys + Brought(entries)
  {
    if entries != [] {
      KeyErrorExact(table, entries[..|entries| - 1]);
      DanglesLast(table, entries);
      BroughtLast(entries);
    }
  }

  lemma DanglesLast<K, V>(table: map<nat, V>, entries: seq<Entry<K, V>>)
    requires entries != []
    ensures var front, e := entries[..|entries| - 1], entries[|entries| - 1];
            Dangles(table, entries) <==>
            Dangles(table, front) || (e.Ref? && e.num !in table && e.num !in Brought(front))
  {
    var front, k := entries[..|entries| - 1], |entries| - 1;
    forall i | 0 <= i < k ensures Dangling(table, entries, i) == Dangling(table, front, i) {
    }
    if Dangles(table, front) {
      var i :| 0 <= i < k && Dangling(table, front, i);
      assert Dangling(table, entries, i);
    }
    assert forall n :: n in Brought(front) <==> exists j :: 0 <= j < k && Brings(entries[j], n);
    assert Dangling(table, entries, k) <==>
           entries[k].Ref? && entries[k].num !in table && entries[k].num !in Brought(front);
  }

  lemma BroughtLast<K, V>(entries: seq<Entry<K, V>>)
    requires entries != []
    ensures var e := entries[|entries| - 1];
            Brought(entries) == Brought(entries[..|entries| - 1])
                                + if e.Def? then {e.num} else {}
  {
    var front, e := entries[..|entries| - 1], entries[|entries| - 1];
    forall n ensures n in Brought(entries) <==> n in Brought(front) || Brings(e, n) {
      assert n in Brought(front) ==> exists j :: 0 <= j < |front| && Brings(entries[j], n);
      assert n in Brought(entries) <==> exists j :: 0 <= j < |entries| && Brings(entries[j], n);
    }
  }

  ghost predicate Brings<K, V>(e: Entry<K, V>, n: nat) {
    e.Def? && e.num == n
  }

  ghost function Brought<K, V>(entries: seq<Entry<K, V>>): (r: set<nat>)
    ensures forall n :: n in r <==> exists j :: 0 <= j < |entries| && Brings(entries[j], n)
  {
    set j | 0 <= j < |entries| && entries[j].Def? :: entries[j].num
  }

  ghost predicate Dangles<K, V>(table: map<nat, V>, entries: seq<Entry<K, V>>) {
    exists i :: 0 <= i < |entries| && Dangling(table, entries, i)
  }

  ghost predicate Dangling<K, V>(table: map<nat, V>, entries: seq<Entry<K, V>>, i: nat)
    requires i < |entries|
  {
    && entries[i].Ref?
    && entries[i].num !in table
    && forall j :: 0 <= j < i ==> !Brings(entries[j], entries[i].num)
  }

  /** The entries of a whole record, one table after the other. */
  function Flat<K, V>(packed: seq<Packed<K, V>>): seq<Entry<K, V>> {
    if packed == [] then []
    else Flat(packed[..|packed| - 1]) + EntriesOf(packed[|packed| - 1])
  }

  function EntriesOf<K, V>(packed: Packed<K, V>): seq<Entry<K, V>> {
    if packed.AsIs? then [] else packed.entries
  }

  /** Reading on from where the entries before ended, unless they failed. */
  lemma {:induction false} ReadOn<K, V>(table: map<nat, V>, front: seq<Entry<K, V>>, back: seq<Entry<K, V>>)
    ensures var first, all := RestoreEntries(table, front), RestoreEntries(table, front + back);
            var rest := RestoreEntries(first.table, back);
            && (first.result.None? ==> all.result.None? && all.table == first.table)
            && (first.result.Some? ==> all.table == rest.table && (all.result.None? <==> rest.result.None?))
  {
    if back == [] {
      assert front + back == front;
    } else {
      ReadOn(table, front, back[..|back| - 1]);
      assert (front + back)[..|front + back| - 1] == front + back[..|back| - 1];
    }
  }

  /** Whether a record is read, and what the reader's table is afterwards, depends on its entries alone and
    * not on the tables that they stand in. */
  lemma {:induction false} ReadFlat<K, V>(table: map<nat, V>, packed: seq<Packed<K, V>>)
    ensures var record, flat := RestoreRecord(table, packed), RestoreEntries(table, Flat(packed));
            record.table == flat.table && (record.result.None? <==> flat.result.None?)
  {
    if packed != [] {
      ReadFlat(table, packed[..|packed| - 1]);
      ReadOn(table, Flat(packed[..|packed| - 1]), EntriesOf(packed[|packed| - 1]));
    }
  }

  /** A record is lost exactly when one of its entries, in whichever table, is a number that the reader's
    * table lacks and no earlier entry of the record brings. */
  lemma RecordErrorExact<K, V>(table: map<nat, V>, packed: seq<Packed<K, V>>)
    ensures RestoreRecord(table, packed).result.None? <==> Dangles(table, Flat(packed))
    ensures RestoreRecord(table, packed).result.Some? ==>
            RestoreRecord(table, packed).table.Keys == table.Keys + Brought(Flat(packed))
  {
    ReadFlat(table, packed);
    KeyErrorExact(table, Flat(packed));
  }

  // ---- Several writers and one reader -----------------------------------------------------------

  /** A record on its way, with what it was made from and the writer before it. */
  datatype Message<K, V> = Message(packed: seq<Packed<K, V>>, record: Record<K, V>, before: Writer<V>)

  /** What one process has saved, what of it is still on its way, the reader's table for it, and what the
    * reader has made of each record received; None is a KeyError. */
  datatype Channel<K, V> = Channel(writer: Writer<V>, saved: seq<Record<K, V>>, queue: seq<Message<K, V>>,
                                   table: map<nat, V>, received: seq<Option<seq<Dict<K, V>>>>)

  datatype Step<K, V> =
    | Save(pid: Pid, record: Record<K, V>)
    | WriterReset(pid: Pid)
    | Receive(pid: Pid)
    | ReaderReset

  function NewChannel<K, V>(): Channel<K, V> {
    Channel(Fresh(), [], [], map[], [])
  }

  /** How a step of the system changes the channel of one process. Receiving from an empty queue waits. */
  function Turn<K, V(==)>(c: Channel<K, V>, pid: Pid, step: Step<K, V>): Channel<K, V> {
    match step
    case Save(p, record) =>
      if p != pid then c else
      var (packed, w) := SaveRecord(c.writer, record);
      c.(writer := w, saved := c.saved + [record], queue := c.queue + [Message(packed, record, c.writer)])
    case WriterReset(p) => if p != pid then c else c.(writer := Fresh())
    case Receive(p) =>
      if p != pid || c.queue == [] then c else
      var read := RestoreRecord(c.table, c.queue[0].packed);
      c.(queue := c.queue[1..], table := read.table, received := c.received + [read.result])
    case ReaderReset => c.(table := map[])
  }

  /** The channel of a process after a run: any interleaving of all processes and the reader. */
  function After<K, V(==)>(steps: seq<Step<K, V>>, pid: Pid): Channel<K, V> {
    if steps == [] then NewChannel()
    else Turn(After(steps[..|steps| - 1], pid), pid, steps[|steps| - 1])
  }

  /** The message is what the writer it names makes of its record, and the next writer is the one that leaves
    * or a new one. */
  ghost predicate MadeBy<K, V>(m: Message<K, V>, next: Writer<V>) {
    && m.before.Valid()
    && m.packed == SaveRecord(m.before, m.record).0
    && (next == SaveRecord(m.before, m.record).1 || next == Fresh())
  }

  ghost predicate Linked<K, V>(queue: seq<Message<K, V>>, w: Writer<V>) {
    forall i :: 0 <= i < |queue| ==> MadeBy(queue[i], Before(queue, w, i + 1))
  }

  /** The writer as it was before message i; w after the last one. */
  ghost function Before<K, V>(queue: seq<Message<K, V>>, w: Writer<V>, i: nat): Writer<V>
    requires i <= |queue|
  {
    if i == |queue| then w else queue[i].before
  }

  ghost predicate InStep<K, V>(c: Channel<K, V>) {
    Synced(c.table, Before(c.queue, c.writer, 0))
  }

  ghost predicate Lagging<K, V>(c: Channel<K, V>) {
    Partial(c.table, Before(c.queue, c.writer, 0))
  }

  /** Nothing is lost or reordered: the n records received and those on their way are what was saved. */
  ghost predicate Accounted<K, V>(saved: seq<Record<K, V>>, queue: seq<Message<K, V>>, n: nat) {
    && n + |queue| == |saved|
    && forall i :: 0 <= i < |queue| ==> queue[i].record == saved[n + i]
  }

  ghost predicate AllExact<K, V>(saved: seq<Record<K, V>>, received: seq<Option<seq<Dict<K, V>>>>) {
    && |received| <= |saved|
    && forall i :: 0 <= i < |received| ==> received[i] == Some(Originals(saved[i]))
  }

  ghost predicate NoneWrong<K, V>(saved: seq<Record<K, V>>, received: seq<Option<seq<Dict<K, V>>>>) {
    && |received| <= |saved|
    && forall i :: 0 <= i < |received| ==> received[i] == None || received[i] == Some(Originals(saved[i]))
  }

  ghost predicate Good<K, V>(c: Channel<K, V>) {
    c.writer.Valid() && Linked(c.queue, c.writer) && Accounted(c.saved, c.queue, |c.received|)
  }

  lemma AppendLinked<K, V>(queue: seq<Message<K, V>>, m: Message<K, V>, w: Writer<V>)
    requires Linked(queue, m.before) && MadeBy(m, w)
    ensures Linked(queue + [m], w)
  {
    forall i | 0 <= i <= |queue| ensures Before(queue + [m], w, i) == Before(queue, m.before, i) {
    }
  }

  lemma ReceiveLinked<K, V>(queue: seq<Message<K, V>>, w: Writer<V>)
    requires Linked(queue, w) && queue != []
    ensures Linked(queue[1..], w) && MadeBy(queue[0], Before(queue[1..], w, 0))
  {
    forall i | 0 <= i < |queue| ensures Before(queue[1..], w, i) == Before(queue, w, i + 1) {
    }
  }

  lemma ResetLinked<K, V>(queue: seq<Message<K, V>>, w: Writer<V>)
    requires Linked(queue, w)
    ensures Linked(queue, Fresh())
  {
    forall i | 0 <= i < |queue| ensures MadeBy(queue[i], Before(queue, Fresh(), i + 1)) {
      assert MadeBy(queue[i], Before(queue, w, i + 1));
    }
  }

  lemma MadeNow<K, V>(w: Writer<V>, record: Record<K, V>)
    requires w.Valid()
    ensures var (packed, w') := SaveRecord(w, record);
            w'.Valid() && MadeBy(Message(packed, record, w), w')
  {
    SaveRecordValid(w, record);
  }

  lemma AccountedSave<K, V>(saved: seq<Record<K, V>>, queue: seq<Message<K, V>>, n: nat, m: Message<K, V>)
    requires Accounted(saved, queue, n)
    ensures Accounted(saved + [m.record], queue + [m], n)
  {
  }

  lemma AccountedReceive<K, V>(saved: seq<Record<K, V>>, queue: seq<Message<K, V>>, n: nat)
    requires Accounted(saved, queue, n) && queue != []
    ensures Accounted(saved, queue[1..], n + 1) && n < |saved| && queue[0].record == saved[n]
  {
  }

  lemma GoodKept<K, V>(c: Channel<K, V>, pid: Pid, step: Step<K, V>)
    requires Good(c)
    ensures Good(Turn(c, pid, step))
  {
    match step
    case Save(p, record) =>
      if p == pid {
        var (packed, w) := SaveRecord(c.writer, record);
        var m := Message(packed, record, c.writer);
        MadeNow(c.writer, record);
        AppendLinked(c.queue, m, w);
        AccountedSave(c.saved, c.queue, |c.received|, m);
      }
    case WriterReset(_) => ResetLinked(c.queue, c.writer);
    case Receive(p) =>
      if p == pid && c.queue != [] {
        ReceiveLinked(c.queue, c.writer);
        AccountedReceive(c.saved, c.queue, |c.received|);
      }
    case ReaderReset =>
  }

  /** Reading what a writer made: in step it comes back and the reader stays in step; lagging it comes back or
    * is a KeyError, and the reader still lags or is in step with a new writer. */
  lemma ReadMade<K, V>(m: Message<K, V>, next: Writer<V>, table: map<nat, V>)
    requires MadeBy(m, next)
    ensures var read := RestoreRecord(table, m.packed);
            && (Synced(table, m.before) ==> read.result == Some(Originals(m.record)) && Synced(read.table, next))
            && (Partial(table, m.before) ==>
                  && (read.result == None || read.result == Some(Originals(m.record)))
                  && (Synced(read.table, next) || Partial(read.table, next)))
  {
    if Synced(table, m.before) {
      RecordInStep(m.before, m.record, table);
    }
    if Partial(table, m.before) {
      RecordOutOfStep(m.before, m.record, table);
    }
  }

  /** A saved message is the next one to be received, or leaves the next one as it was. */
  lemma SaveKept<K, V>(c: Channel<K, V>, pid: Pid, record: Record<K, V>)
    ensures var d := Turn(c, pid, Save(pid, record));
            Before(d.queue, d.writer, 0) == Before(c.queue, c.writer, 0) && d.table == c.table
  {
  }

  /** After a reset of the writer the reader is in step with the next message as before, or with nothing. */
  lemma ResetKept<K, V>(c: Channel<K, V>, pid: Pid)
    ensures var d := Turn(c, pid, WriterReset(pid));
            && (InStep(c) ==> InStep(d))
            && (Lagging(c) ==> InStep(d) || Lagging(d))
  {
  }

  lemma ReceiveKept<K, V>(c: Channel<K, V>, pid: Pid)
    requires Good(c) && c.queue != []
    ensures var d := Turn(c, pid, Receive(pid));
            && d.saved == c.saved && d.received == c.received + [d.received[|c.received|]]
            && |c.received| < |c.saved|
            && (InStep(c) ==> InStep(d) && d.received[|c.received|] == Some(Originals(c.saved[|c.received|])))
            && (Lagging(c) ==>
                  && (InStep(d) || Lagging(d))
                  && (d.received[|c.received|] == None
                      || d.received[|c.received|] == Some(Originals(c.saved[|c.received|]))))
  {
    ReceiveLinked(c.queue, c.writer);
    AccountedReceive(c.saved, c.queue, |c.received|);
    ReadMade(c.queue[0], Before(c.queue[1..], c.writer, 0), c.table);
  }

  /** In every run, every record comes back as it was saved or as a KeyError: never with a wrong value. */
  lemma {:induction false} NeverWrong<K, V>(steps: seq<Step<K, V>>, pid: Pid)
    ensures var c := After(steps, pid);
            Good(c) && (InStep(c) || Lagging(c)) && NoneWrong(c.saved, c.received)
  {
    if steps != [] {
      NeverWrong(steps[..|steps| - 1], pid);
      NeverWrongStep(After(steps[..|steps| - 1], pid), pid, steps[|steps| - 1]);
    }
  }

  lemma NeverWrongStep<K, V>(c: Channel<K, V>, pid: Pid, step: Step<K, V>)
    requires Good(c) && (InStep(c) || Lagging(c)) && NoneWrong(c.saved, c.received)
    ensures var d := Turn(c, pid, step);
            Good(d) && (InStep(d) || Lagging(d)) && NoneWrong(d.saved, d.received)
  {
    GoodKept(c, pid, step);
    if step == Receive(pid) && c.queue != [] {
      ReceiveKept(c, pid);
      NoneWrongNext(c.saved, c.received, Turn(c, pid, step).received[|c.received|]);
    } else if step == WriterReset(pid) {
      ResetKept(c, pid);
    } else if step.Save? && step.pid == pid {
      SaveKept(c, pid, step.record);
    }
  }

  lemma NoneWrongNext<K, V>(saved: seq<Record<K, V>>, received: seq<Option<seq<Dict<K, V>>>>,
                            next: Option<seq<Dict<K, V>>>)
    requires NoneWrong(saved, received) && |received| < |saved|
    requires next == None || next == Some(Originals(saved[|received|]))
    ensures NoneWrong(saved, received + [next])
  {
  }

  /** In every run in which the reader is not reset, however the processes interleave and whenever the
    * writers are reset, every record received comes back as it was saved. */
  lemma {:induction false} RoundTrip<K, V>(steps: seq<Step<K, V>>, pid: Pid)
    requires ReaderReset !in steps
    ensures var c := After(steps, pid);
            Good(c) && InStep(c) && AllExact(c.saved, c.received)
  {
    if steps != [] {
      RoundTrip(steps[..|steps| - 1], pid);
      RoundTripStep(After(steps[..|steps| - 1], pid), pid, steps[|steps| - 1]);
    }
  }

  lemma RoundTripStep<K, V>(c: Channel<K, V>, pid: Pid, step: Step<K, V>)
    requires Good(c) && InStep(c) && AllExact(c.saved, c.received) && step != ReaderReset
    ensures var d := Turn(c, pid, step);
            Good(d) && InStep(d) && AllExact(d.saved, d.received)
  {
    GoodKept(c, pid, step);
    if step == Receive(pid) && c.queue != [] {
      ReceiveKept(c, pid);
      AllExactNext(c.saved, c.received, Turn(c, pid, step).received[|c.received|]);
    } else if step == WriterReset(pid) {
      ResetKept(c, pid);
    } else if step.Save? && step.pid == pid {
      SaveKept(c, pid, step.record);
    }
  }

  /** What a process saves after a reset of its writer stands alone: any reader restores it, whatever its table. */
  lemma AfterReset<K, V>(steps: seq<Step<K, V>>, pid: Pid, record: Record<K, V>, table: map<nat, V>)
    ensures var c := After(steps + [WriterReset(pid), Save(pid, record)], pid);
            && |c.queue| > 0 && c.queue[|c.queue| - 1].record == record
            && RestoreRecord(table, c.queue[|c.queue| - 1].packed).result == Some(Originals(record))
  {
    var reset: Step<K, V>, save: Step<K, V> := WriterReset(pid), Save(pid, record);
    assert (steps + [reset, save])[..|steps| + 1] == steps + [reset];
    assert (steps + [reset])[..|steps|] == steps;
    var w: Writer<V> := Fresh();
    RecordInStep(w, record, table);
  }

  lemma AllExactNext<K, V>(saved: seq<Record<K, V>>, received: seq<Option<seq<Dict<K, V>>>>,
                           next: Option<seq<Dict<K, V>>>)
    requires AllExact(saved, received) && |received| < |saved|
    requires next == Some(Originals(saved[|received|]))
    ensures AllExact(saved, received + [next])
  {
  }

  /** Record i was received at one step, and is lost exactly when it then held a number that the reader's
    * table lacked and the record itself did not bring. */
  lemma {:induction false} LostExact<K, V>(steps: seq<Step<K, V>>, pid: Pid, i: nat) returns (k: nat)
    requires i < |After(steps, pid).received|
    ensures k < |steps| && steps[k] == Receive(pid)
    ensures var c := After(steps[..k], pid);
            && c.queue != [] && |c.received| == i
            && (After(steps, pid).received[i].None? <==> Dangles(c.table, Flat(c.queue[0].packed)))
  {
    var last := |steps| - 1;
    var c := After(steps[..last], pid);
    if i < |c.received| {
      k := LostExact(steps[..last], pid, i);
      assert steps[..last][..k] == steps[..k];
    } else {
      k := last;
      RecordErrorExact(c.table, c.queue[0].packed);
    }
  }

  lemma AfterNext(steps: seq<Step<string, string>>, step: Step<string, string>)
    ensures After(steps + [step], 0) == Turn(After(steps, 0), 0, step)
  {
    assert (steps + [step])[..|steps|] == steps;
  }

  /** A reset of the reader does lose records: a value sent as a number only is then unknown. */
  lemma ReaderResetLoses() returns (steps: seq<Step<string, string>>)
    ensures After(steps, 0).received == [Some([Dict(map["A" := Some("x")])]), None]
  {
    var record, w := [Present([("A", Some("x"))])], Writer(map["x" := 1], 2);
    steps := FirstReceived(record, w);
    AfterNext(steps, ReaderReset);
    steps := SecondLost(steps + [ReaderReset], record, w, "A", "x");
  }

  lemma SecondLost(before: seq<Step<string, string>>, record: Record<string, string>, w: Writer<string>, dep: string,
                   fs: string) returns (steps: seq<Step<string, string>>)
    requires record == [Present([(dep, Some(fs))])] && fs in w.known
    requires After(before, 0).writer == w && After(before, 0).queue == [] && After(before, 0).table == map[]
    ensures After(steps, 0).received == After(before, 0).received + [None]
  {
    var second := Entries([Ref(dep, w.known[fs])]);
    OneItem(dep, fs, w);
    AfterNext(before, Save(0, record));
    var saved := before + [Save(0, record)];
    assert After(saved, 0).queue == [Message([second], record, w)];
    AfterNext(saved, Receive(0));
    OneRecord(map[], second);
    steps := saved + [Receive(0)];
  }

  lemma FirstReceived(record: Record<string, string>, w: Writer<string>) returns (steps: seq<Step<string, string>>)
    requires record == [Present([("A", Some("x"))])] && w == Writer(map["x" := 1], 2)
    ensures After(steps, 0) == Channel(w, [record], [], map[1 := "x"], [Some([Dict(map["A" := Some("x")])])])
  {
    AfterNext([], Save(0, record));
    OneItem("A", "x", Fresh());
    var first := Entries([Def("A", "x", 1)]);
    var saved := [] + [Save(0, record)];
    assert After(saved, 0) == Channel(w, [record], [Message([first], record, Fresh())], map[], []);
    AfterNext(saved, Receive(0));
    OneRecord(map[], first);
    steps := saved + [Receive(0)];
  }

  lemma OneItem(dep: string, fs: string, w: Writer<string>)
    ensures SaveRecord(w, [Present([(dep, Some(fs))])]) ==
            var (e, w') := SaveItem(w, (dep, Some(fs)));
            ([Entries([e])], w')
  {
    var items := [(dep, Some(fs))];
    var record := [Present(items)];
    assert items[..|items| - 1] == [] && record[..|record| - 1] == [];
    var (e, w') := SaveItem(w, items[0]);
    assert [] + [e] == [e];
    assert SaveItems(w, items) == ([e], w');
    assert [] + [Entries([e])] == [Entries([e])];
  }

  lemma OneRecord(table: map<nat, string>, packed: Packed<string, string>)
    requires packed.Entries? && |packed.entries| == 1
    ensures var r := RestoreEntry(Read(table, Some(map[])), packed.entries[0]);
            RestoreRecord(table, [packed]) ==
            Read(r.table, if r.result.None? then None else Some([Dict(r.result.value)]))
  {
    var es, ps := packed.entries, [packed];
    assert es[..|es| - 1] == [] && ps[..|ps| - 1] == [];
    assert RestoreEntries(table, es) == RestoreEntry(Read(table, Some(map[])), es[0]);
    var r := RestoreTable(table, packed);
    assert r.result.Some? ==> [] + [r.result.value] == [r.result.value];
  }
}

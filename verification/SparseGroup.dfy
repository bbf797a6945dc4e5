/** The group of several sparse sets: the entities present in all of them, each with a
    reference into every set. */
module SparseGroup {
  import opened Numbers
  import opened SparseSet

  /** The state of a `SparseView`: values by key, in insertion order. */
  datatype View<T> = View(keyToIndex: map<nat, nat>, values: seq<T>, indexToKey: seq<nat>)
  {
    ghost predicate Valid() {
      && |values| == |indexToKey|
      && (forall k :: k in keyToIndex <==> k in indexToKey)
      && (forall k :: k in keyToIndex ==> keyToIndex[k] < |values| && indexToKey[keyToIndex[k]] == k)
      && (forall i, j :: 0 <= i < j < |indexToKey| ==> indexToKey[i] != indexToKey[j])
    }

    ghost function Contents(): map<nat, T>
      requires Valid()
    {
      Pairs(keyToIndex, values)
    }

    function Put(key: nat, value: T): View<T> {
      View(if key in keyToIndex then keyToIndex else keyToIndex[key := |values|],
           values + [value], indexToKey + [key])
    }

    function At(key: nat): Option<T>
      requires Valid()
    {
      if key in keyToIndex then Some(values[keyToIndex[key]]) else None
    }
  }

  /** Groups only ever put fresh keys. */
  lemma PutInView<T>(v: View<T>, key: nat, value: T)
    requires v.Valid() && key !in v.keyToIndex
    ensures v.Put(key, value).Valid()
    ensures v.Put(key, value).Contents() == v.Contents()[key := value]
  {
    var v' := v.Put(key, value);
    forall k ensures k in v'.keyToIndex <==> k in v'.indexToKey {
      assert k in v'.indexToKey <==> k in v.indexToKey || k == key;
    }
    forall i, j | 0 <= i < j < |v'.indexToKey| ensures v'.indexToKey[i] != v'.indexToKey[j] {
      if j == |v.indexToKey| {
        assert v.indexToKey[i] in v.keyToIndex;
      }
    }
    PutPairs(v.keyToIndex, v.values, key, value);
  }

  ghost function Pairs<T>(keyToIndex: map<nat, nat>, values: seq<T>): map<nat, T> {
    map k | k in keyToIndex && keyToIndex[k] < |values| :: values[keyToIndex[k]]
  }

  lemma PutPairs<T>(keyToIndex: map<nat, nat>, values: seq<T>, key: nat, value: T)
    requires key !in keyToIndex && forall k :: k in keyToIndex ==> keyToIndex[k] < |values|
    ensures Pairs(keyToIndex[key := |values|], values + [value]) == Pairs(keyToIndex, values)[key := value]
  {
  }

  /** The object, whose `put` appends in place. */
  class SparseView<T> {
    var keyToIndex: map<nat, nat>
    var values: seq<T>
    var indexToKey: seq<nat>

    function State(): View<T>
      reads this
    {
      View(keyToIndex, values, indexToKey)
    }

    constructor ()
      ensures State() == View(map[], [], [])
    {
      keyToIndex, values, indexToKey := map[], [], [];
    }

    method Put(key: nat, value: T)
      modifies this
      ensures State() == old(State()).Put(key, value)
      ensures old(State()).Valid() && key !in old(State()).keyToIndex ==>
                State().Valid() && State().Contents() == old(State()).Contents()[key := value]
    {
      if State().Valid() && key !in keyToIndex {
        PutInView(State(), key, value);
      }
      hide View.Valid;
      hide View.Contents;
      values := values + [value];
      if key !in keyToIndex {
        keyToIndex := keyToIndex[key := |values| - 1];
      }
      indexToKey := indexToKey + [key];
    }

    method Has(key: nat) returns (r: bool)
      requires State().Valid()
      ensures r <==> key in State().Contents()
    {
      r := key in keyToIndex;
    }

    method At(key: nat) returns (r: Option<T>)
      requires State().Valid()
      ensures r == if key in State().Contents() then Some(State().Contents()[key]) else None
    {
      if key !in keyToIndex {
        return None;
      }
      r := Some(values[keyToIndex[key]]);
    }
  }

  /** A reference to a component: the set it lives in and its dense slot there. */
  datatype Ref<V> = Ref(owner: SparseSet<V>, slot: nat)

  /** The reference is to the component of `id`. */
  ghost predicate RefersTo<V>(r: Ref<V>, s: SparseSet<V>, id: nat)
    requires s.Valid()
    reads s
  {
    r.owner == s && r.slot < |s.dense| && s.entities[r.slot] == id
    && id in s.Contents() && s.dense[r.slot] == s.Contents()[id]
  }

  ghost function Registered<V>(sets: seq<SparseSet?<V>>): set<object> {
    set k | 0 <= k < |sets| && sets[k] != null :: sets[k]
  }

  ghost predicate AllValid<V>(sets: seq<SparseSet?<V>>)
    reads Registered(sets)
  {
    forall k :: 0 <= k < |sets| && sets[k] != null ==> sets[k].Valid()
  }

  /** The entity is present in every set; never so when a component was not registered. */
  ghost predicate InAllSets<V>(sets: seq<SparseSet?<V>>, id: nat)
    requires AllValid(sets)
    reads Registered(sets)
  {
    forall k :: 0 <= k < |sets| ==> sets[k] != null && id in sets[k].Contents()
  }

  /** The views list the same entities, and each comes with its own component from every set. */
  ghost predicate Faithful<V>(group: seq<View<Ref<V>>>, keys: seq<nat>, sets: seq<SparseSet?<V>>)
    requires AllValid(sets)
    reads Registered(sets)
  {
    |group| == |sets| && forall k :: 0 <= k < |group| ==> FaithfulView(group[k], keys, sets[k])
  }

  ghost predicate FaithfulView<V>(v: View<Ref<V>>, keys: seq<nat>, s: SparseSet?<V>)
    requires s != null ==> s.Valid()
    reads s
  {
    && v.Valid() && v.indexToKey == keys
    && forall id :: id in v.Contents() ==> s != null && RefersTo(v.Contents()[id], s, id)
  }

  /** Putting an entity with a reference to its component keeps a view faithful. */
  lemma AddToView<V>(v: View<Ref<V>>, keys: seq<nat>, s: SparseSet<V>, id: nat, slot: nat)
    requires s.Valid() && FaithfulView(v, keys, s) && id !in keys
    requires RefersTo(Ref(s, slot), s, id)
    ensures FaithfulView(v.Put(id, Ref(s, slot)), keys + [id], s)
  {
    PutInView(v, id, Ref(s, slot));
    hide RefersTo;
    assert v.keyToIndex.Keys !! {id};
  }

  lemma CommonInDriver<V>(sets: seq<SparseSet?<V>>, driver: nat, entities: seq<nat>)
    requires AllValid(sets) && driver < |sets| && sets[driver] != null
    requires entities == sets[driver].entities
    ensures forall id :: InAllSets(sets, id) ==> id in entities
    ensures forall i, j :: 0 <= i < j < |entities| ==> entities[i] != entities[j]
  {
    EntitiesDistinct(sets[driver].dense, entities, sets[driver].sparsePages);
    assert forall id :: InAllSets(sets, id) ==> id in sets[driver].Contents();
  }

  lemma FaithfulKeys<V>(group: seq<View<Ref<V>>>, keys: seq<nat>, sets: seq<SparseSet?<V>>)
    requires AllValid(sets) && Faithful(group, keys, sets) && |sets| > 0
    ensures |group| == |sets| && group[0].indexToKey == keys
  {
    assert FaithfulView(group[0], keys, sets[0]);
  }

  lemma NoneFaithful<V>(sets: seq<SparseSet?<V>>)
    requires AllValid(sets)
    ensures Faithful(NoEntities(|sets|), [], sets)
  {
  }

  lemma OneMore(entities: seq<nat>, i: nat)
    requires i < |entities| && forall j, k :: 0 <= j < k < |entities| ==> entities[j] != entities[k]
    ensures forall id :: id in entities[..i + 1] <==> id in entities[..i] || id == entities[i]
    ensures entities[i] !in entities[..i]
  {
    assert entities[..i + 1] == entities[..i] + [entities[i]];
  }

  lemma NoneCommon<V>(sets: seq<SparseSet?<V>>, k: nat, id: nat)
    requires AllValid(sets) && k < |sets| && sets[k] == null
    ensures !InAllSets(sets, id)
  {
  }

  lemma OneSet<V>(s: SparseSet?<V>, id: nat)
    requires s != null ==> s.Valid()
    ensures AllValid([s])
    ensures InAllSets([s], id) <==> s != null && id in s.Contents()
  {
    assert [s][0] == s;
  }

  // ---- Running a callback over a group ----

  /** The components of one entity, one from each table. */
  function RowIn<V>(tables: seq<map<nat, V>>, id: nat): (row: seq<V>)
    requires forall k :: 0 <= k < |tables| ==> id in tables[k]
    ensures |row| == |tables| && forall k :: 0 <= k < |tables| ==> row[k] == tables[k][id]
  {
    if tables == [] then [] else RowIn(tables[..|tables| - 1], id) + [tables[|tables| - 1][id]]
  }

  ghost predicate InAllTables<V>(tables: seq<map<nat, V>>, id: nat) {
    forall k :: 0 <= k < |tables| ==> id in tables[k]
  }

  /** What the callback makes of an entity's components. */
  ghost function NewRow<V>(tables: seq<map<nat, V>>, callback: (nat, seq<V>) -> seq<V>, id: nat): seq<V> {
    if InAllTables(tables, id) then callback(id, RowIn(tables, id)) else []
  }

  /** The callback returns as many components as it is given. */
  ghost predicate KeepsLength<V>(tables: seq<map<nat, V>>, callback: (nat, seq<V>) -> seq<V>, id: nat) {
    |NewRow(tables, callback, id)| == |tables|
  }

  /** Table `k` once the callback has run on the entities of `done`. */
  ghost function TableAfter<V>(tables: seq<map<nat, V>>, callback: (nat, seq<V>) -> seq<V>, done: set<nat>,
                               k: nat): map<nat, V>
    requires k < |tables|
  {
    map id | id in tables[k] ::
      if id in done && k < |NewRow(tables, callback, id)| then NewRow(tables, callback, id)[k] else tables[k][id]
  }

  lemma TableNone<V>(tables: seq<map<nat, V>>, callback: (nat, seq<V>) -> seq<V>, k: nat)
    requires k < |tables|
    ensures TableAfter(tables, callback, {}, k) == tables[k]
  {
  }

  lemma TableOneMore<V>(tables: seq<map<nat, V>>, callback: (nat, seq<V>) -> seq<V>, done: set<nat>, k: nat, id: nat)
    requires k < |tables| && InAllTables(tables, id) && k < |NewRow(tables, callback, id)| && id !in done
    ensures TableAfter(tables, callback, done + {id}, k)
         == TableAfter(tables, callback, done, k)[id := NewRow(tables, callback, id)[k]]
    ensures id in TableAfter(tables, callback, done, k)
    ensures TableAfter(tables, callback, done, k)[id] == tables[k][id]
  {
  }

  /** A reference that leads to the entity's slot, whatever the slots hold. */
  ghost predicate PointsTo<V>(r: Ref<V>, s: SparseSet<V>, entities: seq<nat>, id: nat) {
    r.owner == s && r.slot < |entities| && entities[r.slot] == id
  }

  ghost predicate Separate<V>(sets: seq<SparseSet<V>>) {
    forall j, k :: 0 <= j < k < |sets| ==> sets[j] != sets[k]
  }

  ghost predicate EntitiesAre<V>(sets: seq<SparseSet<V>>, ents: seq<seq<nat>>)
    reads sets
  {
    |ents| == |sets| && forall k :: 0 <= k < |sets| ==> sets[k].entities == ents[k]
  }

  ghost function EntitiesOf<V>(sets: seq<SparseSet<V>>): (ents: seq<seq<nat>>)
    reads sets
    ensures EntitiesAre(sets, ents)
  {
    if sets == [] then [] else EntitiesOf(sets[..|sets| - 1]) + [sets[|sets| - 1].entities]
  }

  ghost predicate Holds<V>(s: SparseSet<V>, table: map<nat, V>)
    reads s
  {
    s.Valid() && s.Contents() == table
  }

  /** Every view leads to the entity in its own set. */
  ghost predicate Leads<V>(group: seq<View<Ref<V>>>, sets: seq<SparseSet<V>>, ents: seq<seq<nat>>, id: nat)
    requires |group| == |sets| == |ents|
  {
    forall k :: 0 <= k < |group| ==>
      && group[k].Valid() && id in group[k].Contents()
      && PointsTo(group[k].Contents()[id], sets[k], ents[k], id)
  }

  lemma FaithfulLeads<V>(group: seq<View<Ref<V>>>, sets: seq<SparseSet<V>>, ents: seq<seq<nat>>,
                         tables: seq<map<nat, V>>, id: nat)
    requires |group| == |sets| == |tables| > 0 && EntitiesAre(sets, ents)
    requires forall k :: 0 <= k < |sets| ==> sets[k].Valid() && sets[k].Contents() == tables[k]
    requires forall k :: 0 <= k < |sets| ==> FaithfulView(group[k], group[0].indexToKey, sets[k])
    requires id in group[0].indexToKey
    ensures Leads(group, sets, ents, id) && InAllTables(tables, id)
  {
    hide Aligned;
    hide MapOf;
    hide View.Valid;
    hide View.Contents;
    forall k | 0 <= k < |group|
      ensures group[k].Valid() && id in group[k].Contents()
      ensures PointsTo(group[k].Contents()[id], sets[k], ents[k], id) && id in tables[k]
    {
      ViewLeads(group[k], group[0].indexToKey, sets[k], id);
    }
  }

  lemma ViewLeads<V>(v: View<Ref<V>>, keys: seq<nat>, s: SparseSet<V>, id: nat)
    requires s.Valid() && FaithfulView(v, keys, s) && id in keys
    ensures v.Valid() && id in v.Contents() && PointsTo(v.Contents()[id], s, s.entities, id) && id in s.Contents()
  {
    hide Aligned;
    hide MapOf;
    ViewKeys(v, keys, s);
    InSet(s);
  }

  lemma InSet<V>(s: SparseSet<V>)
    requires s.Valid()
    ensures |s.dense| == |s.entities|
  {
  }

  lemma InSlot<V>(s: SparseSet<V>, slot: nat)
    requires s.Valid() && slot < |s.entities|
    ensures slot < |s.dense| && s.entities[slot] in s.Contents() && s.Contents()[s.entities[slot]] == s.dense[slot]
  {
    AtSlot(s.dense, s.entities, s.sparsePages, slot);
  }

  lemma HeldContents<V>(s: SparseSet<V>, table: map<nat, V>)
    requires Holds(s, table)
    ensures s.Valid() && s.Contents() == table
  {
  }

  lemma OthersDiffer<V>(sets: seq<SparseSet<V>>, k: nat)
    requires Separate(sets) && k < |sets|
    ensures forall j :: 0 <= j < |sets| && j != k ==> sets[j] != sets[k]
  {
  }

  lemma KeysDistinct<V>(v: View<V>, i: nat)
    requires v.Valid() && i < |v.indexToKey|
    ensures v.indexToKey[i] !in Elements(v.indexToKey[..i])
    ensures Elements(v.indexToKey[..i + 1]) == Elements(v.indexToKey[..i]) + {v.indexToKey[i]}
  {
    assert v.indexToKey[..i + 1] == v.indexToKey[..i] + [v.indexToKey[i]];
  }

  class SparseGroup<V> {
    var group: seq<View<Ref<V>>>

    /** `std::min_element`: the first of the smallest sets, an unregistered one comparing
        with nothing. */
    static method Driver(sets: seq<SparseSet?<V>>) returns (driver: nat)
      requires |sets| > 0 && AllValid(sets)
      ensures driver < |sets|
    {
      driver := 0;
      for k := 1 to |sets|
        invariant driver < |sets|
      {
        if sets[k] != null && sets[driver] != null {
          var a := sets[k].Size();
          var b := sets[driver].Size();
          if a < b {
            driver := k;
          }
        }
      }
    }

    static method InAll(sets: seq<SparseSet?<V>>, id: nat) returns (r: bool)
      requires AllValid(sets)
      ensures r <==> InAllSets(sets, id)
    {
      for k := 0 to |sets|
        invariant forall j :: 0 <= j < k ==> sets[j] != null && id in sets[j].Contents()
      {
        if sets[k] == null {
          return false;
        }
        var has := sets[k].Has(id);
        if !has {
          return false;
        }
      }
      return true;
    }

    /** One view per set, listing exactly once each entity that all the sets hold. */
    constructor (sets: seq<SparseSet?<V>>)
      requires |sets| > 0 && AllValid(sets)
      ensures |group| == |sets| && Faithful(group, group[0].indexToKey, sets)
      ensures forall id :: id in group[0].indexToKey <==> InAllSets(sets, id)
    {
      var views := Views(sets);
      group := views;
    }

    static method Views(sets: seq<SparseSet?<V>>) returns (views: seq<View<Ref<V>>>)
      requires |sets| > 0 && AllValid(sets)
      ensures |views| == |sets| && Faithful(views, views[0].indexToKey, sets)
      ensures forall id :: id in views[0].indexToKey <==> InAllSets(sets, id)
    {
      hide FaithfulView;
      hide View.Valid;
      hide Aligned;
      hide MapOf;
      hide Registered;
      views := NoEntities(|sets|);
      NoneFaithful(sets);
      FaithfulKeys(views, [], sets);
      var driver := Driver(sets);
      if sets[driver] == null {
        forall id ensures !InAllSets(sets, id) {
          NoneCommon(sets, driver, id);
        }
        return;
      }
      var entities := sets[driver].entities;
      ghost var keys := [];
      CommonInDriver(sets, driver, entities);
      hide Faithful;
      hide InAllSets;
      for i := 0 to |entities|
        invariant Faithful(views, keys, sets)
        invariant forall id :: id in keys <==> id in entities[..i] && InAllSets(sets, id)
      {
        OneMore(entities, i);
        var isValid := InAll(sets, entities[i]);
        if isValid {
          views := AddEntity(views, keys, sets, entities[i]);
          keys := keys + [entities[i]];
        }
      }
      assert entities[..|entities|] == entities;
      FaithfulKeys(views, keys, sets);
    }

    /** Puts one entity with its component references into every view. */
    static method AddEntity(views: seq<View<Ref<V>>>, ghost keys: seq<nat>, sets: seq<SparseSet?<V>>, id: nat)
        returns (views': seq<View<Ref<V>>>)
      requires AllValid(sets) && Faithful(views, keys, sets)
      requires InAllSets(sets, id) && id !in keys
      ensures Faithful(views', keys + [id], sets)
    {
      views' := views;
      for k := 0 to |views|
        invariant |views'| == |views|
        invariant forall j :: 0 <= j < k ==> FaithfulView(views'[j], keys + [id], sets[j])
        invariant forall j :: k <= j < |views| ==> views'[j] == views[j]
      {
        var slot := sets[k].Slot(id);
        assert FaithfulView(views[k], keys, sets[k]);
        AddToView(views[k], keys, sets[k], id, slot.value);
        views' := views'[k := views'[k].Put(id, Ref(sets[k], slot.value))];
        hide FaithfulView;
      }
    }

    /** Runs the callback once on each entity of the group: each gets what the callback makes of
        its own components, in every set, and nothing else changes. */
    method Apply(sets: seq<SparseSet<V>>, ghost tables: seq<map<nat, V>>, callback: (nat, seq<V>) -> seq<V>)
      requires |group| == |sets| == |tables| > 0 && Separate(sets)
      requires forall k :: 0 <= k < |sets| ==> sets[k].Valid() && sets[k].Contents() == tables[k]
      requires forall k :: 0 <= k < |sets| ==> FaithfulView(group[k], group[0].indexToKey, sets[k])
      requires forall id :: id in group[0].indexToKey ==> KeepsLength(tables, callback, id)
      modifies sets
      ensures forall k :: 0 <= k < |sets| ==> sets[k].Valid()
      ensures forall k :: 0 <= k < |sets| ==>
                sets[k].Contents() == TableAfter(tables, callback, Elements(group[0].indexToKey), k)
    {
      hide TableAfter;
      hide NewRow;
      hide Aligned;
      hide MapOf;
      hide View.Contents;
      var keys := group[0].indexToKey;
      ghost var ents := EntitiesOf(sets);
      forall id | id in keys ensures Leads(group, sets, ents, id) && InAllTables(tables, id) {
        FaithfulLeads(group, sets, ents, tables, id);
      }
      assert FaithfulView(group[0], keys, sets[0]);
      forall k | 0 <= k < |sets| ensures Holds(sets[k], TableAfter(tables, callback, {}, k)) {
        TableNone(tables, callback, k);
      }
      hide FaithfulView;
      hide Leads;
      hide InAllTables;
      hide Separate;
      hide EntitiesAre;
      hide KeepsLength;
      hide Holds;
      assert Elements(keys[..0]) == {};
      for i := 0 to |keys|
        invariant EntitiesAre(sets, ents)
        invariant forall k :: 0 <= k < |sets| ==> Holds(sets[k], TableAfter(tables, callback, Elements(keys[..i]), k))
      {
        KeysDistinct(group[0], i);
        ApplyTo(sets, tables, ents, callback, Elements(keys[..i]), keys[i]);
      }
      assert keys[..|keys|] == keys;
      forall k | 0 <= k < |sets|
        ensures sets[k].Valid() && sets[k].Contents() == TableAfter(tables, callback, Elements(keys), k)
      {
        HeldContents(sets[k], TableAfter(tables, callback, Elements(keys), k));
      }
    }

    /** One entity: its components read, the callback run, and the results written through the
        same references. */
    method ApplyTo(sets: seq<SparseSet<V>>, ghost tables: seq<map<nat, V>>, ghost ents: seq<seq<nat>>,
                   callback: (nat, seq<V>) -> seq<V>, ghost done: set<nat>, id: nat)
      requires |group| == |sets| == |tables| == |ents| && Separate(sets) && EntitiesAre(sets, ents)
      requires Leads(group, sets, ents, id) && InAllTables(tables, id) && id !in done
      requires forall k :: 0 <= k < |sets| ==> Holds(sets[k], TableAfter(tables, callback, done, k))
      requires KeepsLength(tables, callback, id)
      modifies sets
      ensures EntitiesAre(sets, ents)
      ensures forall k :: 0 <= k < |sets| ==> Holds(sets[k], TableAfter(tables, callback, done + {id}, k))
    {
      hide TableAfter;
      hide Aligned;
      hide MapOf;
      hide View.Contents;
      hide View.Valid;
      var refs, row := ReadRow(sets, tables, ents, callback, done, id);
      var row' := callback(id, row);
      assert row' == NewRow(tables, callback, id);
      hide NewRow;
      hide Leads;
      hide Separate;
      hide Holds;
      for k := 0 to |refs|
        invariant EntitiesAre(sets, ents)
        invariant forall j :: 0 <= j < k ==> Holds(sets[j], TableAfter(tables, callback, done + {id}, j))
        invariant forall j :: k <= j < |sets| ==> Holds(sets[j], TableAfter(tables, callback, done, j))
      {
        TableOneMore(tables, callback, done, k, id);
        OthersDiffer(sets, k);
        WriteOne(sets[k], refs[k], id, row'[k], TableAfter(tables, callback, done, k));
      }
    }

    method WriteOne(s: SparseSet<V>, ref: Ref<V>, id: nat, v: V, ghost table: map<nat, V>)
      requires PointsTo(ref, s, s.entities, id) && Holds(s, table)
      modifies s`dense
      ensures Holds(s, table[id := v])
    {
      InSlot(s, ref.slot);
      ref.owner.SetAt(ref.slot, v);
    }

    method ReadRow(sets: seq<SparseSet<V>>, ghost tables: seq<map<nat, V>>, ghost ents: seq<seq<nat>>,
                   ghost callback: (nat, seq<V>) -> seq<V>, ghost done: set<nat>, id: nat)
        returns (refs: seq<Ref<V>>, row: seq<V>)
      requires |group| == |sets| == |tables| == |ents| && EntitiesAre(sets, ents)
      requires Leads(group, sets, ents, id) && InAllTables(tables, id) && id !in done
      requires forall k :: 0 <= k < |sets| ==> Holds(sets[k], TableAfter(tables, callback, done, k))
      ensures |refs| == |sets| && forall k :: 0 <= k < |sets| ==> PointsTo(refs[k], sets[k], ents[k], id)
      ensures row == RowIn(tables, id)
    {
      hide Aligned;
      hide MapOf;
      refs, row := [], [];
      for k := 0 to |group|
        invariant |refs| == |row| == k
        invariant forall j :: 0 <= j < k ==> PointsTo(refs[j], sets[j], ents[j], id)
        invariant forall j :: 0 <= j < k ==> row[j] == tables[j][id]
      {
        var ref := group[k].At(id).value;
        assert PointsTo(ref, sets[k], ents[k], id) && Holds(sets[k], TableAfter(tables, callback, done, k));
        InSlot(sets[k], ref.slot);
        refs, row := refs + [ref], row + [ref.owner.dense[ref.slot]];
      }
    }

    /** `getEntity<T>` for the component of set `k`. */
    method GetEntity(k: nat, id: nat) returns (r: Option<Ref<V>>)
      requires k < |group| && group[k].Valid()
      ensures r == if id in group[k].Contents() then Some(group[k].Contents()[id]) else None
    {
      r := group[k].At(id);
    }
  }

  function NoEntities<V>(n: nat): (vs: seq<View<Ref<V>>>)
    ensures |vs| == n && forall k :: 0 <= k < n ==> vs[k] == View(map[], [], [])
  {
    if n == 0 then [] else NoEntities(n - 1) + [View(map[], [], [])]
  }

  /** Which set drives the scan does not show: any two groups over the same sets hold the
      same entities with the same components. */
  lemma GroupsAgree<V>(g: seq<View<Ref<V>>>, keys: seq<nat>, h: seq<View<Ref<V>>>, keys': seq<nat>,
                       sets: seq<SparseSet?<V>>, k: nat)
    requires AllValid(sets) && k < |sets| && Faithful(g, keys, sets) && Faithful(h, keys', sets)
    requires forall e :: e in keys <==> InAllSets(sets, e)
    requires forall e :: e in keys' <==> InAllSets(sets, e)
    ensures g[k].Contents() == h[k].Contents()
    ensures |keys| == |keys'|
  {
    hide FaithfulView;
    hide View.Valid;
    hide View.Contents;
    hide InAllSets;
    assert FaithfulView(g[k], keys, sets[k]) && FaithfulView(h[k], keys', sets[k]);
    ViewKeys(g[k], keys, sets[k]);
    ViewKeys(h[k], keys', sets[k]);
    ViewsAgree(g[k], h[k], keys, keys', sets[k]);
    DistinctCount(keys);
    DistinctCount(keys');
    assert Elements(keys) == Elements(keys');
  }

  lemma ViewsAgree<V>(v: View<Ref<V>>, v': View<Ref<V>>, keys: seq<nat>, keys': seq<nat>, s: SparseSet?<V>)
    requires s != null ==> s.Valid()
    requires FaithfulView(v, keys, s) && FaithfulView(v', keys', s)
    requires forall id :: id in keys <==> id in keys'
    ensures v.Contents() == v'.Contents()
  {
    hide FaithfulView;
    hide View.Valid;
    hide View.Contents;
    ViewKeys(v, keys, s);
    ViewKeys(v', keys', s);
    var m, m' := v.Contents(), v'.Contents();
    assert m.Keys == m'.Keys;
    forall id | id in m && id in m' ensures m[id] == m'[id] {
      SameRef(v, v', keys, keys', s, id);
    }
  }

  lemma SameRef<V>(v: View<Ref<V>>, v': View<Ref<V>>, keys: seq<nat>, keys': seq<nat>, s: SparseSet?<V>, id: nat)
    requires s != null ==> s.Valid()
    requires FaithfulView(v, keys, s) && FaithfulView(v', keys', s)
    requires id in v.Contents() && id in v'.Contents()
    ensures v.Contents()[id] == v'.Contents()[id]
  {
    hide View.Valid;
    hide View.Contents;
    hide RefersTo;
    RefUnique(v.Contents()[id], v'.Contents()[id], s, id);
  }

  lemma RefUnique<V>(a: Ref<V>, b: Ref<V>, s: SparseSet<V>, id: nat)
    requires s.Valid() && RefersTo(a, s, id) && RefersTo(b, s, id)
    ensures a == b
  {
    EntitiesDistinct(s.dense, s.entities, s.sparsePages);
  }

  lemma ViewKeys<V>(v: View<Ref<V>>, keys: seq<nat>, s: SparseSet?<V>)
    requires (s != null ==> s.Valid()) && FaithfulView(v, keys, s)
    ensures v.Valid()
    ensures forall id :: id in v.Contents() <==> id in keys
    ensures s == null ==> v.Contents() == map[]
    ensures forall i, j :: 0 <= i < j < |keys| ==> keys[i] != keys[j]
  {
  }
}

/** The registry object: masks and sparse sets kept in agreement, proved against `EcsSpec`. */
module Ecs {
  import opened Numbers
  import opened BitSet
  import opened SparseSet
  import SparseGroup
  import opened EcsSpec

  // ---- Masks and tables as values ----

  ghost predicate SingleBit(mask: Blocks, p: nat) {
    forall i: nat :: BitIn(mask, i) <==> i == p
  }

  /** The mask of an entity has a component's bit exactly when the component's table has the
      entity, and no other bit. */
  ghost predicate MaskAgrees<V>(mask: Blocks, e: nat, position: map<nat, nat>, tables: map<nat, map<nat, V>>)
    requires position.Keys == tables.Keys
  {
    && (forall c :: c in position ==> (BitIn(mask, position[c]) <==> e in tables[c]))
    && (forall i: nat :: BitIn(mask, i) ==> exists c :: c in position && position[c] == i)
  }

  ghost predicate PositionsOk(position: map<nat, nat>, cursor: nat) {
    && (forall c :: c in position ==> 1 <= position[c] <= cursor)
    && (forall c, d :: c in position && d in position && c != d ==> position[c] != position[d])
  }

  ghost predicate Separate<V>(components: map<nat, SparseSet<V>>, sets: set<SparseSet<V>>) {
    && (forall c :: c in components ==> components[c] in sets)
    && (forall c, d :: c in components && d in components && c != d ==> components[c] != components[d])
  }

  lemma SeparateAdd<V>(components: map<nat, SparseSet<V>>, sets: set<SparseSet<V>>, c: nat, sparse: SparseSet<V>)
    requires Separate(components, sets) && sparse !in sets && c !in components
    ensures Separate(components[c := sparse], sets + {sparse})
  {
  }

  /** Every component has its own single-bit mask; the index holds the last bit handed out. */
  ghost predicate MasksOk(masks: map<nat, Blocks>, index: Blocks, position: map<nat, nat>, cursor: nat) {
    && masks.Keys == position.Keys
    && (forall c :: c in masks ==> SingleBit(masks[c], position[c]))
    && SingleBit(index, cursor)
    && PositionsOk(position, cursor)
  }

  ghost predicate Agree<V>(entities: map<nat, Blocks>, next: nat, position: map<nat, nat>,
                           tables: map<nat, map<nat, V>>) {
    && position.Keys == tables.Keys
    && (forall e :: e in entities ==> e < next)
    && (forall e :: e in entities ==> MaskAgrees(entities[e], e, position, tables))
    && (forall c, e :: c in tables && e in tables[c] ==> e in entities)
  }

  function RowOf<V>(e: nat, tables: map<nat, map<nat, V>>): map<nat, V> {
    map c | c in tables && e in tables[c] :: tables[c][e]
  }

  function WorldOf<V>(entities: set<nat>, tables: map<nat, map<nat, V>>): map<nat, map<nat, V>> {
    map e | e in entities :: RowOf(e, tables)
  }

  lemma WorldHas<V>(entities: set<nat>, tables: map<nat, map<nat, V>>, e: nat, c: nat)
    ensures e in WorldOf(entities, tables) <==> e in entities
    ensures e in entities ==> WorldOf(entities, tables)[e] == RowOf(e, tables)
    ensures e in entities ==> (c in WorldOf(entities, tables)[e] <==> c in tables && e in tables[c])
  {
  }

  lemma PositionsGrow(position: map<nat, nat>, cursor: nat, c: nat)
    requires PositionsOk(position, cursor)
    ensures PositionsOk(position, cursor + 1)
    ensures c !in position ==> PositionsOk(position[c := cursor + 1], cursor + 1)
  {
  }

  lemma OrSingle(a: Blocks, mask: Blocks, p: nat)
    requires SingleBit(mask, p)
    ensures forall i: nat :: BitIn(Combine(Or, a, mask), i) == (BitIn(a, i) || i == p)
  {
    hide BitIn;
    hide Combine;
    assert Combines(Or, a, mask, Combine(Or, a, mask));
  }

  lemma MasksNext(masks: map<nat, Blocks>, index: Blocks, position: map<nat, nat>, cursor: nat, index': Blocks, c: nat)
    requires MasksOk(masks, index, position, cursor) && SingleBit(index', cursor + 1)
    ensures MasksOk(masks, index', position, cursor + 1)
    ensures c !in position ==> MasksOk(masks[c := index'], index', position[c := cursor + 1], cursor + 1)
  {
    hide SingleBit;
    PositionsGrow(position, cursor, c);
    hide PositionsOk;
  }

  lemma MasksPositions(masks: map<nat, Blocks>, index: Blocks, position: map<nat, nat>, cursor: nat)
    requires MasksOk(masks, index, position, cursor)
    ensures PositionsOk(position, cursor)
  {
  }

  lemma NoBits()
    ensures forall i: nat :: !BitIn([], i)
  {
  }

  lemma PutWorld<V>(entities: set<nat>, tables: map<nat, map<nat, V>>, e: nat, c: nat, v: V)
    requires e in entities && c in tables
    ensures WorldOf(entities, tables[c := WithComponent(tables[c], e, v)])
         == WorldOf(entities, tables)[e := RowOf(e, tables)[c := v]]
  {
    var tables' := tables[c := WithComponent(tables[c], e, v)];
    forall x | x in entities
      ensures RowOf(x, tables') == if x == e then RowOf(e, tables)[c := v] else RowOf(x, tables)
    {
      PutRow(tables, e, c, v, x);
    }
    hide RowOf;
    hide WithComponent;
  }

  lemma PutRow<V>(tables: map<nat, map<nat, V>>, e: nat, c: nat, v: V, x: nat)
    requires c in tables
    ensures RowOf(x, tables[c := WithComponent(tables[c], e, v)])
         == if x == e then RowOf(e, tables)[c := v] else RowOf(x, tables)
  {
    var tables' := tables[c := WithComponent(tables[c], e, v)];
    assert tables'[c].Keys == tables[c].Keys + {e};
    var row, want := RowOf(x, tables'), if x == e then RowOf(e, tables)[c := v] else RowOf(x, tables);
    assert row.Keys == want.Keys;
  }

  lemma PutAgrees<V>(entities: map<nat, Blocks>, next: nat, position: map<nat, nat>, cursor: nat,
                     tables: map<nat, map<nat, V>>, e: nat, c: nat, v: V, mask: Blocks)
    requires Agree(entities, next, position, tables) && PositionsOk(position, cursor)
    requires e in entities && c in position
    requires forall i: nat :: BitIn(mask, i) == (BitIn(entities[e], i) || i == position[c])
    ensures Agree(entities[e := mask], next, position, tables[c := WithComponent(tables[c], e, v)])
  {
    var entities', tables' := entities[e := mask], tables[c := WithComponent(tables[c], e, v)];
    assert position.Keys == tables'.Keys;
    forall x | x in entities' ensures MaskAgrees(entities'[x], x, position, tables') {
      assert MaskAgrees(entities[x], x, position, tables);
      if x == e {
        forall i: nat | BitIn(mask, i) ensures exists d :: d in position && position[d] == i {
          if i == position[c] {
            assert c in position;
          }
        }
      }
    }
  }

  /** Overwriting a component leaves the masks as they are. */
  lemma UpdateAgrees<V>(entities: map<nat, Blocks>, next: nat, position: map<nat, nat>, cursor: nat,
                        tables: map<nat, map<nat, V>>, e: nat, c: nat, v: V)
    requires Agree(entities, next, position, tables) && PositionsOk(position, cursor)
    requires c in tables && e in tables[c]
    ensures Agree(entities, next, position, tables[c := WithComponent(tables[c], e, v)])
    ensures e in entities && e in WorldOf(entities.Keys, tables) && c in WorldOf(entities.Keys, tables)[e]
  {
    assert e in entities && MaskAgrees(entities[e], e, position, tables);
    PutAgrees(entities, next, position, cursor, tables, e, c, v, entities[e]);
    hide MaskAgrees;
    hide Agree;
    assert entities[e := entities[e]] == entities;
  }

  /** Agreement depends on a mask's bits only, not on its capacity. */
  lemma SameMask<V>(entities: map<nat, Blocks>, next: nat, position: map<nat, nat>, tables: map<nat, map<nat, V>>,
                    e: nat, mask: Blocks)
    requires Agree(entities, next, position, tables) && e in entities && SameBits(mask, entities[e])
    ensures Agree(entities[e := mask], next, position, tables)
  {
    assert MaskAgrees(entities[e], e, position, tables);
    assert MaskAgrees(mask, e, position, tables);
    forall x | x in entities && x != e ensures MaskAgrees(entities[x], x, position, tables) {
    }
    hide MaskAgrees;
  }

  lemma NewEntityAgrees<V>(entities: map<nat, Blocks>, next: nat, position: map<nat, nat>,
                           tables: map<nat, map<nat, V>>, mask: Blocks)
    requires Agree(entities, next, position, tables) && forall i: nat :: !BitIn(mask, i)
    ensures Agree(entities[next := mask], next + 1, position, tables)
    ensures WorldOf(entities.Keys + {next}, tables) == WorldOf(entities.Keys, tables)[next := map[]]
  {
    assert next !in entities;
    assert MaskAgrees(mask, next, position, tables);
    hide MaskAgrees;
    assert RowOf(next, tables) == map[];
  }

  lemma RegisterAgrees<V>(entities: map<nat, Blocks>, next: nat, position: map<nat, nat>, cursor: nat,
                          tables: map<nat, map<nat, V>>, c: nat, p: nat)
    requires Agree(entities, next, position, tables) && PositionsOk(position, cursor)
    requires c !in position && p > cursor
    ensures Agree(entities, next, position[c := p], tables[c := map[]])
    ensures WorldOf(entities.Keys, tables[c := map[]]) == WorldOf(entities.Keys, tables)
  {
    var position', tables' := position[c := p], tables[c := map[]];
    assert position'.Keys == tables'.Keys;
    hide MaskAgrees;
    forall e | e in entities
      ensures MaskAgrees(entities[e], e, position', tables')
      ensures RowOf(e, tables') == RowOf(e, tables)
    {
      RegisterMask(entities[e], e, position, cursor, tables, c, p);
      RegisterRow(e, tables, c);
    }
  }

  lemma RegisterMask<V>(mask: Blocks, e: nat, position: map<nat, nat>, cursor: nat, tables: map<nat, map<nat, V>>,
                        c: nat, p: nat)
    requires position.Keys == tables.Keys && MaskAgrees(mask, e, position, tables)
    requires PositionsOk(position, cursor) && c !in position && p > cursor
    ensures position[c := p].Keys == tables[c := map[]].Keys
    ensures MaskAgrees(mask, e, position[c := p], tables[c := map[]])
  {
    hide BitIn;
    var position' := position[c := p];
    assert !BitIn(mask, p);
    forall i: nat | BitIn(mask, i) ensures exists d :: d in position' && position'[d] == i {
      var d :| d in position && position[d] == i;
      assert position'[d] == i;
    }
  }

  lemma RegisterRow<V>(e: nat, tables: map<nat, map<nat, V>>, c: nat)
    requires c !in tables
    ensures RowOf(e, tables[c := map[]]) == RowOf(e, tables)
  {
    assert RowOf(e, tables[c := map[]]).Keys == RowOf(e, tables).Keys;
  }

  function Without<V>(tables: map<nat, map<nat, V>>, e: nat): map<nat, map<nat, V>> {
    map c | c in tables :: tables[c] - {e}
  }

  /** Only the tables of `todo` may still have the entity. */
  ghost predicate PartWithout<V>(tables: map<nat, map<nat, V>>, now: map<nat, map<nat, V>>, todo: set<nat>, e: nat) {
    && now.Keys == tables.Keys
    && forall c :: c in tables ==> now[c] == if c in todo then tables[c] else tables[c] - {e}
  }

  lemma NoneWithout<V>(tables: map<nat, map<nat, V>>, e: nat)
    ensures PartWithout(tables, tables, tables.Keys, e)
  {
  }

  lemma OneWithout<V>(tables: map<nat, map<nat, V>>, now: map<nat, map<nat, V>>, todo: set<nat>, e: nat, c: nat)
    requires PartWithout(tables, now, todo, e) && c in todo && c in tables
    ensures c in now && PartWithout(tables, now[c := now[c] - {e}], todo - {c}, e)
  {
  }

  lemma AllWithout<V>(tables: map<nat, map<nat, V>>, now: map<nat, map<nat, V>>, e: nat)
    requires PartWithout(tables, now, {}, e)
    ensures now == Without(tables, e)
  {
  }

  lemma DestroyAgrees<V>(entities: map<nat, Blocks>, next: nat, position: map<nat, nat>, tables: map<nat, map<nat, V>>,
                         e: nat)
    requires Agree(entities, next, position, tables)
    ensures Agree(entities - {e}, next, position, Without(tables, e))
    ensures WorldOf((entities - {e}).Keys, Without(tables, e)) == WorldOf(entities.Keys, tables) - {e}
  {
    DestroyMasks(entities, next, position, tables, e);
    DestroyWorld(entities.Keys, tables, e);
    hide *;
    assert (entities - {e}).Keys == entities.Keys - {e};
  }

  lemma DestroyMasks<V>(entities: map<nat, Blocks>, next: nat, position: map<nat, nat>, tables: map<nat, map<nat, V>>,
                        e: nat)
    requires Agree(entities, next, position, tables)
    ensures Agree(entities - {e}, next, position, Without(tables, e))
  {
    var tables' := Without(tables, e);
    assert position.Keys == tables'.Keys;
    hide MaskAgrees;
    forall x | x in entities && x != e ensures MaskAgrees(entities[x], x, position, tables') {
      DestroyMask(entities[x], x, position, tables, e);
    }
  }

  lemma DestroyWorld<V>(live: set<nat>, tables: map<nat, map<nat, V>>, e: nat)
    ensures WorldOf(live - {e}, Without(tables, e)) == WorldOf(live, tables) - {e}
  {
    forall x | x in live && x != e ensures RowOf(x, Without(tables, e)) == RowOf(x, tables) {
      DestroyRow(x, tables, e);
    }
    hide RowOf;
    hide Without;
  }

  lemma DestroyMask<V>(mask: Blocks, x: nat, position: map<nat, nat>, tables: map<nat, map<nat, V>>, e: nat)
    requires position.Keys == tables.Keys && MaskAgrees(mask, x, position, tables) && x != e
    ensures MaskAgrees(mask, x, position, Without(tables, e))
  {
    hide BitIn;
  }

  lemma DestroyRow<V>(x: nat, tables: map<nat, map<nat, V>>, e: nat)
    requires x != e
    ensures RowOf(x, Without(tables, e)) == RowOf(x, tables)
  {
    assert RowOf(x, Without(tables, e)).Keys == RowOf(x, tables).Keys;
  }

  // ---- The object ----

  class Ecs<V(==)> {
    var entities: map<nat, Blocks>
    var entitiesId: nat
    var components: map<nat, SparseSet<V>>
    var componentsMasks: map<nat, Blocks>
    var componentMaskIndex: Blocks

    /** The mask bit of each component and the last bit handed out. */
    ghost var position: map<nat, nat>
    ghost var cursor: nat
    /** The sparse sets this registry owns. */
    ghost var sets: set<SparseSet<V>>

    /** The sets are separate, well-formed objects, one for each component. */
    ghost predicate Linked()
      reads this, sets
    {
      && components.Keys == position.Keys
      && Separate(components, sets)
      && (forall c :: c in components ==> components[c].Valid())
      && MasksOk(componentsMasks, componentMaskIndex, position, cursor)
    }

    ghost function Tables(): map<nat, map<nat, V>>
      requires Linked()
      reads this, sets
    {
      map c | c in components :: components[c].Contents()
    }

    ghost predicate Valid()
      reads this, sets
    {
      Linked() && Agree(entities, entitiesId, position, Tables())
    }

    /** The promise of `EcsSpec` this object stands for. */
    ghost function Model(): Registry<V>
      requires Valid()
      reads this, sets
    {
      Registry(position, cursor, WorldOf(entities.Keys, Tables()), entitiesId)
    }

    constructor ()
      ensures Valid() && fresh(sets) && components == map[]
      ensures Model() == EmptyRegistry()
    {
      entities, entitiesId, components, componentsMasks := map[], 0, map[], map[];
      var index := Assign(EmptyBlocks(1), 0, true);
      componentMaskIndex := index;
      position, cursor, sets := map[], 0, {};
      forall i: nat ensures BitIn(index, i) <==> i == 0 {
        AssignBit(EmptyBlocks(1), 0, true, i);
      }
    }

    // ---- Components ----

    /** Moves the index bit one place on, growing the bitset when it would fall off the end. */
    method NextMask()
      requires Linked()
      modifies this`componentMaskIndex, this`cursor
      ensures cursor == old(cursor) + 1 && SingleBit(componentMaskIndex, cursor)
    {
      var probe := new DynamicBitSet(componentMaskIndex);
      probe.RightShift(1);
      var any := probe.Any();
      var index := new DynamicBitSet(componentMaskIndex);
      assert BitIn(componentMaskIndex, cursor);
      if !any {
        assert !BitIn(probe.bitsets, cursor + 1);
        var capacity := index.Increase(1);
      } else {
        ghost var i: nat :| BitIn(probe.bitsets, i);
        assert BitIn(componentMaskIndex, i - 1);
      }
      ghost var grown := index.bitsets;
      RoomAfter(componentMaskIndex, cursor, grown, probe.bitsets);
      index.RightShift(1);
      componentMaskIndex := index.bitsets;
      MovedOn(grown, cursor, componentMaskIndex);
      cursor := cursor + 1;
    }

    method RegisterComponent(c: nat)
      requires Valid()
      modifies this
      ensures Valid() && Model() == EcsSpec.RegisterComponent(old(Model()), c)
      ensures fresh(sets - old(sets))
    {
      hide Aligned;
      hide MapOf;
      hide BitIn;
      hide MasksOk;
      hide Agree;
      hide WorldOf;
      ghost var tables, index := Tables(), componentMaskIndex;
      RegisterFacts(c);
      NextMask();
      MasksNext(componentsMasks, index, position, old(cursor), componentMaskIndex, c);
      if c in components {
        assert Tables() == tables;
        return;
      }
      var sparse := new SparseSet<V>();
      AddTable(c, sparse, tables);
    }

    lemma RegisterFacts(c: nat)
      requires Valid()
      ensures c !in position ==>
        var tables := Tables();
        && Agree(entities, entitiesId, position[c := cursor + 1], tables[c := map[]])
        && WorldOf(entities.Keys, tables[c := map[]]) == WorldOf(entities.Keys, tables)
    {
      hide Agree;
      hide WorldOf;
      if c !in position {
        RegisterAgrees(entities, entitiesId, position, cursor, Tables(), c, cursor + 1);
      }
    }

    /** A new empty set under the mask just made. */
    method AddTable(c: nat, sparse: SparseSet<V>, ghost tables: map<nat, map<nat, V>>)
      requires components.Keys == position.Keys == tables.Keys && c !in components
      requires sparse.Valid() && sparse.Contents() == map[] && sparse !in sets
      requires Separate(components, sets)
      requires forall d :: d in components ==> components[d].Valid() && components[d].Contents() == tables[d]
      requires MasksOk(componentsMasks[c := componentMaskIndex], componentMaskIndex, position[c := cursor], cursor)
      modifies this`components, this`componentsMasks, this`position, this`sets
      ensures Linked() && position == old(position)[c := cursor]
      ensures Tables() == tables[c := map[]]
      ensures sets == old(sets) + {sparse}
    {
      hide SparseSet.Valid;
      hide SparseSet.Contents;
      hide Aligned;
      hide MapOf;
      hide MasksOk;
      SeparateAdd(components, sets, c, sparse);
      hide Separate;
      componentsMasks := componentsMasks[c := componentMaskIndex];
      components := components[c := sparse];
      position := position[c := cursor];
      sets := sets + {sparse};
      ghost var tables' := tables[c := map[]];
      forall d | d in components ensures components[d].Valid() && components[d].Contents() == tables'[d] {
      }
      assert components.Keys == tables'.Keys;
      TablesAre(tables');
      hide Tables;
    }

    lemma TablesAre(tables: map<nat, map<nat, V>>)
      requires Linked() && components.Keys == tables.Keys
      requires forall d :: d in components ==> components[d].Contents() == tables[d]
      ensures Tables() == tables
    {
      hide SparseSet.Contents;
      hide SparseSet.Valid;
      hide MasksOk;
      hide Separate;
    }

    method GetComponentMask(c: nat) returns (mask: Blocks)
      requires Linked()
      ensures if c in components then SingleBit(mask, position[c]) else forall i: nat :: !BitIn(mask, i)
    {
      if c !in componentsMasks {
        return [];
      }
      return componentsMasks[c];
    }

    // ---- Entities ----

    /** Nothing but one entity's mask and one table change. */
    method InsertComponentInstance(e: nat, c: nat, v: V)
      requires Linked()
      modifies this`entities, sets
      ensures Linked()
      ensures e !in old(entities) || c !in components ==> entities == old(entities) && Tables() == old(Tables())
      ensures e in old(entities) && c in components ==>
        && entities.Keys == old(entities.Keys)
        && (forall x :: x in entities && x != e ==> entities[x] == old(entities)[x])
        && (forall i: nat :: BitIn(entities[e], i) == (BitIn(old(entities)[e], i) || i == position[c]))
        && Tables() == old(Tables())[c := WithComponent(old(Tables())[c], e, v)]
    {
      hide Linked;
      hide Tables;
      hide BitIn;
      if e !in entities || c !in components {
        return;
      }
      MarkComponent(e, c);
      PutInTable(c, e, v);
    }

    /** The entity's mask gains the component's bit. */
    method MarkComponent(e: nat, c: nat)
      requires Linked() && e in entities && c in components
      modifies this`entities
      ensures Linked() && Tables() == old(Tables())
      ensures entities.Keys == old(entities.Keys)
      ensures forall x :: x in entities && x != e ==> entities[x] == old(entities)[x]
      ensures forall i: nat :: BitIn(entities[e], i) == (BitIn(old(entities)[e], i) || i == position[c])
    {
      hide Aligned;
      hide MapOf;
      hide MasksOk;
      hide SingleBit;
      hide BitIn;
      hide Combine;
      ghost var tables := Tables();
      var mask := GetComponentMask(c);
      OrSingle(entities[e], mask, position[c]);
      entities := entities[e := Combine(Or, entities[e], mask)];
      assert Tables() == tables;
    }

    method PutInTable(c: nat, e: nat, v: V)
      requires Linked() && c in components
      modifies sets
      ensures Linked()
      ensures Tables() == old(Tables())[c := WithComponent(old(Tables())[c], e, v)]
    {
      hide Aligned;
      hide MapOf;
      hide MasksOk;
      components[c].Put(e, v);
      forall d | d in components ensures components[d].Valid() && components[d].Contents()
        == if d == c then WithComponent(old(Tables())[c], e, v) else old(Tables())[d]
      {
        if d != c {
          assert components[d] != components[c];
        }
      }
    }

    method AddEntityComponent(e: nat, c: nat, v: V)
      requires Valid()
      modifies this`entities, sets
      ensures Valid() && Model() == Insert(old(Model()), e, c, v)
    {
      hide Aligned;
      hide MapOf;
      hide MasksOk;
      hide Agree;
      hide WorldOf;
      hide RowOf;
      ghost var tables, before := Tables(), entities;
      WorldHas(entities.Keys, tables, e, c);
      MasksPositions(componentsMasks, componentMaskIndex, position, cursor);
      InsertComponentInstance(e, c, v);
      if e in before && c in components {
        PutAgrees(before, entitiesId, position, cursor, tables, e, c, v, entities[e]);
        PutWorld(before.Keys, tables, e, c, v);
        assert entities == before[e := entities[e]];
      }
    }

    method PreRegisterEntity() returns (e: nat)
      requires Valid()
      modifies this`entities, this`entitiesId
      ensures Valid() && e == old(Model()).next
      ensures Model() == PreRegister(old(Model()))
    {
      hide Aligned;
      hide MapOf;
      hide BitIn;
      hide MasksOk;
      hide Agree;
      hide WorldOf;
      ghost var tables := Tables();
      NoBits();
      NewEntityAgrees(entities, entitiesId, position, tables, []);
      e := entitiesId;
      entitiesId := entitiesId + 1;
      entities := entities[e := []];
      assert Tables() == tables;
      assert entities.Keys == old(entities).Keys + {e};
    }

    /** The `|` of the components' masks. */
    method UnionMask(instances: seq<(nat, V)>) returns (mask: Blocks)
      requires Linked()
      ensures forall i: nat :: BitIn(mask, i) <==> Requested(instances, |instances|, position, i)
    {
      hide Aligned;
      hide MapOf;
      hide BitIn;
      hide Combine;
      hide PositionsOk;
      mask := [];
      NoBits();
      for n := 0 to |instances|
        invariant forall i: nat :: BitIn(mask, i) <==> Requested(instances, n, position, i)
      {
        var one := GetComponentMask(instances[n].0);
        ghost var before := mask;
        mask := Combine(Or, mask, one);
        assert Combines(Or, before, one, mask);
      }
    }

    method RegisterEntity(instances: seq<(nat, V)>) returns (r: Option<nat>)
      requires Valid()
      modifies this`entities, this`entitiesId, sets
      ensures Valid() && Model() == EcsSpec.RegisterEntity(old(Model()), instances)
      ensures r == if AnyRegistered(old(Model()), instances) then Some(old(Model()).next) else None
    {
      hide Linked;
      hide Agree;
      hide WorldOf;
      hide BitIn;
      hide Requested;
      hide InsertAll;
      hide AnyRegistered;
      var id := entitiesId;
      var any, mask := AnyBit(instances);
      if !any {
        return None;
      }
      RegisterMasked(instances, mask);
      return Some(id);
    }

    method AnyBit(instances: seq<(nat, V)>) returns (any: bool, mask: Blocks)
      requires Valid()
      ensures any <==> AnyRegistered(Model(), instances)
      ensures forall i: nat :: BitIn(mask, i) <==> Requested(instances, |instances|, position, i)
    {
      hide Agree;
      hide WorldOf;
      hide BitIn;
      hide Requested;
      hide AnyRegistered;
      ghost var model := Model();
      mask := UnionMask(instances);
      AnyRequested(model, instances, mask);
      hide Valid;
      hide Model;
      hide Linked;
      hide Tables;
      var bits := new DynamicBitSet(mask);
      any := bits.Any();
    }

    method RegisterMasked(instances: seq<(nat, V)>, mask: Blocks)
      requires Valid()
      requires forall i: nat :: BitIn(mask, i) <==> Requested(instances, |instances|, position, i)
      modifies this`entities, this`entitiesId, sets
      ensures Valid() && entitiesId == old(entitiesId) + 1
      ensures Model() == InsertAll(PreRegister(old(Model())), old(entitiesId), instances)
    {
      hide BitIn;
      hide Agree;
      hide WorldOf;
      hide InsertAll;
      hide PreRegister;
      hide Requested;
      OpenFacts();
      var id := entitiesId;
      ghost var start := PreRegister(Model());
      hide Linked;
      hide Tables;
      OpenEntity(id, mask);
      assert entities[id := []] == old(entities)[id := []];
      assert entities.Keys == old(entities).Keys + {id};
      InsertRequested(id, instances, mask, start);
      UseId();
    }

    method OpenEntity(id: nat, mask: Blocks)
      requires Linked()
      modifies this`entities
      ensures Linked() && Tables() == old(Tables())
      ensures entities == old(entities)[id := mask]
    {
      hide Aligned;
      hide MapOf;
      hide MasksOk;
      hide Separate;
      ghost var tables := Tables();
      entities := entities[id := mask];
      assert Tables() == tables;
    }

    method UseId()
      requires Linked()
      modifies this`entitiesId
      ensures Linked() && Tables() == old(Tables())
      ensures entitiesId == old(entitiesId) + 1
    {
      hide Aligned;
      hide MapOf;
      hide MasksOk;
      hide Separate;
      ghost var tables := Tables();
      entitiesId := entitiesId + 1;
      assert Tables() == tables;
    }

    lemma OpenFacts()
      requires Valid()
      ensures Agree(entities[entitiesId := []], entitiesId + 1, position, Tables())
      ensures PreRegister(Model())
           == Registry(position, cursor, WorldOf(entities.Keys + {entitiesId}, Tables()), entitiesId + 1)
    {
      hide Agree;
      hide WorldOf;
      hide Linked;
      NoBits();
      NewEntityAgrees(entities, entitiesId, position, Tables(), []);
    }

    lemma OneMask(c: nat) returns (one: Blocks)
      requires Linked()
      ensures if c in position then SingleBit(one, position[c]) else one == []
    {
      one := if c in componentsMasks then componentsMasks[c] else [];
    }

    /** The components of a newly registered entity, whose mask is already complete. */
    method InsertRequested(id: nat, instances: seq<(nat, V)>, ghost mask: Blocks, ghost start: Registry<V>)
      requires Linked() && id in entities && entities[id] == mask
      requires start == Registry(position, cursor, WorldOf(entities.Keys, Tables()), id + 1)
      requires Agree(entities[id := []], id + 1, position, Tables())
      requires forall i: nat :: BitIn(mask, i) <==> Requested(instances, |instances|, position, i)
      modifies this`entities, sets
      ensures Linked() && entities.Keys == old(entities.Keys)
      ensures Agree(entities, id + 1, position, Tables())
      ensures Registry(position, cursor, WorldOf(entities.Keys, Tables()), id + 1)
           == InsertAll(start, id, instances)
    {
      ghost var m: Blocks := [];
      LinkedKeys();
      NoneInserted(entities, id, Tables(), position, cursor, instances, mask, start);
      hide *;
      for n := 0 to |instances|
        invariant Linked() && entities.Keys == old(entities.Keys)
        invariant PartInserted(entities, m, id, Tables(), position, cursor, instances, n, mask, start)
      {
        LinkedKeys();
        ghost var one := OneMask(instances[n].0);
        ghost var before, tables := entities, Tables();
        PartLive(entities, m, id, Tables(), position, cursor, instances, n, mask, start);
        InsertComponentInstance(id, instances[n].0, instances[n].1);
        OneInserted(before, entities, m, id, tables, Tables(), position, cursor, instances, n, mask, start, one);
        m := Combine(Or, m, one);
      }
      AllInserted(entities, m, id, Tables(), position, cursor, instances, mask, start);
    }

    lemma LinkedKeys()
      requires Linked()
      ensures PositionsOk(position, cursor)
      ensures components.Keys == position.Keys == Tables().Keys
    {
      hide Separate;
    }

    lemma UpdateFacts(e: nat, c: nat, v: V)
      requires Valid()
      ensures CanUpdate(Model(), e, c) <==> c in components && e in components[c].Contents()
      ensures CanUpdate(Model(), e, c) ==>
        var tables' := Tables()[c := WithComponent(Tables()[c], e, v)];
        && Agree(entities, entitiesId, position, tables')
        && Registry(position, cursor, WorldOf(entities.Keys, tables'), entitiesId) == Update(Model(), e, c, v)
    {
      hide Aligned;
      hide MapOf;
      hide MasksOk;
      var tables := Tables();
      WorldHas(entities.Keys, tables, e, c);
      MasksPositions(componentsMasks, componentMaskIndex, position, cursor);
      if c in components && e in tables[c] {
        hide MaskAgrees;
        assert e in entities;
        hide Agree;
        hide WorldOf;
        hide RowOf;
        UpdateAgrees(entities, entitiesId, position, cursor, tables, e, c, v);
        PutWorld(entities.Keys, tables, e, c, v);
      }
    }

    method UpdateEntityComponent(e: nat, c: nat, v: V) returns (updated: bool)
      requires Valid()
      modifies sets
      ensures Valid() && Model() == Update(old(Model()), e, c, v)
      ensures updated == CanUpdate(old(Model()), e, c)
    {
      hide Aligned;
      hide MapOf;
      hide BitIn;
      hide MasksOk;
      hide Agree;
      hide WorldOf;
      UpdateFacts(e, c, v);
      if c !in components {
        return false;
      }
      var has := components[c].Has(e);
      if !has {
        return false;
      }
      PutInTable(c, e, v);
      return true;
    }

    method RemoveFromTable(c: nat, e: nat)
      requires Linked() && c in components
      modifies sets
      ensures Linked() && Tables() == old(Tables())[c := old(Tables())[c] - {e}]
    {
      hide Aligned;
      hide MapOf;
      hide MasksOk;
      ghost var tables := Tables();
      var has := components[c].Has(e);
      if has {
        components[c].Remove(e);
      } else {
        assert tables[c] - {e} == tables[c];
      }
      forall d | d in components ensures components[d].Valid() && components[d].Contents()
        == if d == c then tables[c] - {e} else tables[d]
      {
        if d != c {
          assert components[d] != components[c];
        }
      }
    }

    /** The loop over all the sets. */
    method RemoveFromAll(e: nat)
      requires Linked()
      modifies sets
      ensures Linked() && Tables() == Without(old(Tables()), e)
    {
      ghost var tables, now := Tables(), Tables();
      assert tables.Keys == components.Keys;
      hide Linked;
      hide Tables;
      hide PartWithout;
      NoneWithout(tables, e);
      var todo := components.Keys;
      while todo != {}
        invariant todo <= components.Keys && Linked() && Tables() == now
        invariant PartWithout(tables, now, todo, e)
        decreases todo
      {
        var c :| c in todo;
        OneWithout(tables, now, todo, e, c);
        RemoveFromTable(c, e);
        now := now[c := now[c] - {e}];
        todo := todo - {c};
      }
      AllWithout(tables, now, e);
    }

    method DestroyEntity(e: nat)
      requires Valid()
      modifies this`entities, sets
      ensures Valid() && Model() == Destroy(old(Model()), e)
    {
      hide Aligned;
      hide MapOf;
      hide BitIn;
      hide MasksOk;
      hide Agree;
      hide WorldOf;
      ghost var tables := Tables();
      RemoveFromAll(e);
      DestroyAgrees(entities, entitiesId, position, tables, e);
      ghost var before := entities;
      entities := entities - {e};
      assert Tables() == Without(tables, e);
      assert entities.Keys == (before - {e}).Keys;
    }

    method GetEntityMask(e: nat) returns (mask: Blocks)
      requires Valid()
      ensures MaskOf(Model(), e, mask)
    {
      if e !in entities {
        return [];
      }
      assert MaskAgrees(entities[e], e, position, Tables());
      return entities[e];
    }

    /** `getAllEntities`, in no particular order. */
    method GetAllEntities() returns (ids: seq<nat>)
      ensures forall e :: e in ids <==> e in entities
      ensures Distinct(ids)
    {
      ids := [];
      var todo := entities.Keys;
      while todo != {}
        invariant todo <= entities.Keys
        invariant forall e :: e in ids <==> e in entities && e !in todo
        invariant Distinct(ids)
        decreases todo
      {
        var e :| e in todo;
        ids := ids + [e];
        todo := todo - {e};
      }
    }

    /** The lookup through a group of one set: finds exactly the entity's component. */
    method GetFromGroup(e: nat, c: nat) returns (r: Option<V>)
      requires Valid()
      ensures Valid() && Model() == old(Model())
      ensures r == Lookup(Model(), e, c)
    {
      hide Aligned;
      hide MapOf;
      hide MasksOk;
      hide BitIn;
      hide SparseGroup.AllValid;
      var s: SparseSet?<V> := null;
      if c in components {
        s := components[c];
      }
      FoundByTable(e, c);
      ghost var before, world := Tables(), Model().world;
      hide Agree;
      hide WorldOf;
      r := LookupIn(s, e);
      assert Tables() == before;
    }

    /** The group of one set and the lookup through its view. */
    static method LookupIn(s: SparseSet?<V>, e: nat) returns (r: Option<V>)
      requires s != null ==> s.Valid()
      ensures s != null ==> s.Valid() && s.Contents() == old(s.Contents())
      ensures r == if s != null && e in s.Contents() then Some(s.Contents()[e]) else None
    {
      hide Aligned;
      hide MapOf;
      SparseGroup.OneSet(s, e);
      var group := new SparseGroup.SparseGroup<V>([s]);
      ghost var keys := group.group[0].indexToKey;
      assert SparseGroup.FaithfulView(group.group[0], keys, s);
      SparseGroup.ViewKeys(group.group[0], keys, s);
      SparseGroup.OneSet(s, e);
      var ref := group.GetEntity(0, e);
      if ref == None {
        return None;
      }
      return Some(ref.value.owner.dense[ref.value.slot]);
    }

    /** A component is in an entity's row exactly when the table of its set has it. */
    lemma FoundByTable(e: nat, c: nat)
      requires Valid()
      ensures CanUpdate(Model(), e, c) <==> c in components && e in components[c].Contents()
      ensures CanUpdate(Model(), e, c) ==> Model().world[e][c] == components[c].Contents()[e]
    {
      WorldHas(entities.Keys, Tables(), e, c);
    }

    /** The search loop of `removeAllOf`. */
    method FindAllOf(c: nat, v: V) returns (found: seq<nat>)
      requires Valid()
      ensures forall e :: e in found <==> Holds(Model(), e, c, v)
    {
      ghost var r := Model();
      hide *;
      var ids := GetAllEntities();
      found := [];
      FoundNone(r, ids, c, v);
      for i := 0 to |ids|
        invariant Valid() && Model() == r
        invariant Found(r, ids, i, c, v, found)
      {
        var ref := GetFromGroup(ids[i], c);
        FoundNext(r, ids, i, c, v, found, ref);
        if ref == Some(v) {
          found := found + [ids[i]];
        }
      }
      LiveIffKnown(r);
      FoundAll(r, ids, c, v, found);
    }

    lemma LiveIffKnown(r: Registry<V>)
      requires Valid() && r == Model()
      ensures forall e :: e in r.world <==> e in entities
    {
    }

    /** Destroys exactly the entities whose component equals `v`, and returns them. */
    method RemoveAllOf(c: nat, v: V) returns (toDestroy: seq<nat>)
      requires Valid()
      modifies this`entities, sets
      ensures Valid()
      ensures forall e :: e in toDestroy <==> Holds(old(Model()), e, c, v)
      ensures Model() == old(Model()).(world := old(Model()).world - Elements(toDestroy))
    {
      hide Linked;
      hide Agree;
      hide WorldOf;
      toDestroy := FindAllOf(c, v);
      assert Model().world - Elements([]) == Model().world;
      for i := 0 to |toDestroy|
        invariant Valid()
        invariant Model() == old(Model()).(world := old(Model()).world - Elements(toDestroy[..i]))
      {
        DestroyEntity(toDestroy[i]);
        assert toDestroy[..i + 1] == toDestroy[..i] + [toDestroy[i]];
        assert Elements(toDestroy[..i + 1]) == Elements(toDestroy[..i]) + {toDestroy[i]};
        assert old(Model()).world - Elements(toDestroy[..i + 1])
            == (old(Model()).world - Elements(toDestroy[..i])) - {toDestroy[i]};
      }
      assert toDestroy[..|toDestroy|] == toDestroy;
    }
  }

  ghost predicate Distinct(s: seq<nat>) {
    forall i, j :: 0 <= i < j < |s| ==> s[i] != s[j]
  }

  ghost predicate Found<V>(r: Registry<V>, ids: seq<nat>, i: nat, c: nat, v: V, found: seq<nat>)
    requires i <= |ids|
  {
    forall e :: e in found <==> e in ids[..i] && Holds(r, e, c, v)
  }

  lemma FoundNone<V>(r: Registry<V>, ids: seq<nat>, c: nat, v: V)
    ensures Found(r, ids, 0, c, v, [])
  {
  }

  lemma FoundNext<V>(r: Registry<V>, ids: seq<nat>, i: nat, c: nat, v: V, found: seq<nat>, ref: Option<V>)
    requires i < |ids| && Found(r, ids, i, c, v, found) && ref == Lookup(r, ids[i], c)
    ensures Found(r, ids, i + 1, c, v, if ref == Some(v) then found + [ids[i]] else found)
  {
    assert ids[..i + 1] == ids[..i] + [ids[i]];
    assert Holds(r, ids[i], c, v) <==> ref == Some(v);
    hide Holds;
  }

  lemma FoundAll<V>(r: Registry<V>, ids: seq<nat>, c: nat, v: V, found: seq<nat>)
    requires Found(r, ids, |ids|, c, v, found)
    requires forall e :: e in r.world <==> e in ids
    ensures forall e :: e in found <==> Holds(r, e, c, v)
  {
    assert ids[..|ids|] == ids;
  }

  /** A mask has exactly the bits of the entity's components. */
  ghost predicate MaskOf<V>(r: Registry<V>, e: nat, mask: Blocks) {
    && (forall c :: c in r.position ==> (BitIn(mask, r.position[c]) <==> e in r.world && c in r.world[e]))
    && (forall i: nat :: BitIn(mask, i) ==> exists c :: c in r.position && r.position[c] == i)
  }

  predicate Holds<V(==)>(r: Registry<V>, e: nat, c: nat, v: V) {
    Lookup(r, e, c) == Some(v)
  }

  /** Bit `i` is that of a registered component among the first `n` instances. */
  ghost predicate Requested<V>(instances: seq<(nat, V)>, n: nat, position: map<nat, nat>, i: nat) {
    exists k :: 0 <= k < n && k < |instances| && instances[k].0 in position && position[instances[k].0] == i
  }

  /** One instance inserted into the entity being registered, on values. */
  lemma InsertStep<V>(entities: map<nat, Blocks>, m: Blocks, id: nat, tables: map<nat, map<nat, V>>,
                      position: map<nat, nat>, cursor: nat, instances: seq<(nat, V)>, n: nat, one: Blocks)
    requires n < |instances| && id in entities && PositionsOk(position, cursor)
    requires Agree(entities[id := m], id + 1, position, tables)
    requires forall i: nat :: BitIn(m, i) <==> Requested(instances, n, position, i)
    requires if instances[n].0 in position then SingleBit(one, position[instances[n].0]) else one == []
    ensures Agree(entities[id := Combine(Or, m, one)], id + 1, position,
                  if instances[n].0 in position
                  then tables[instances[n].0 := WithComponent(tables[instances[n].0], id, instances[n].1)] else tables)
    ensures forall i: nat :: BitIn(Combine(Or, m, one), i) <==> Requested(instances, n + 1, position, i)
  {
    var c, v := instances[n].0, instances[n].1;
    InsertBits(m, position, instances, n, one);
    hide BitIn;
    hide Requested;
    hide Combine;
    hide MaskAgrees;
    hide SingleBit;
    var m' := Combine(Or, m, one);
    assert entities[id := m][id := m'] == entities[id := m'];
    if c in position {
      PutAgrees(entities[id := m], id + 1, position, cursor, tables, id, c, v, m');
    } else {
      SameMask(entities[id := m], id + 1, position, tables, id, m');
    }
  }

  lemma InsertWorld<V>(entities: set<nat>, id: nat, tables: map<nat, map<nat, V>>,
                       position: map<nat, nat>, cursor: nat, instances: seq<(nat, V)>, n: nat)
    requires n < |instances| && id in entities && position.Keys == tables.Keys
    ensures var c, v := instances[n].0, instances[n].1;
            var tables' := if c in position then tables[c := WithComponent(tables[c], id, v)] else tables;
              InsertAll(Registry(position, cursor, WorldOf(entities, tables), id + 1), id, instances[n..])
              == InsertAll(Registry(position, cursor, WorldOf(entities, tables'), id + 1), id, instances[n + 1..])
  {
    var c, v := instances[n].0, instances[n].1;
    assert instances[n..][0] == instances[n] && instances[n..][1..] == instances[n + 1..];
    WorldHas(entities, tables, id, c);
    hide WorldOf;
    hide RowOf;
    if c in position {
      PutWorld(entities, tables, id, c, v);
    }
  }

  lemma RequestedFacts<V>(instances: seq<(nat, V)>, position: map<nat, nat>)
    ensures forall i: nat :: !Requested(instances, 0, position, i)
    ensures forall k :: 0 <= k < |instances| && instances[k].0 in position ==>
              Requested(instances, |instances|, position, position[instances[k].0])
  {
  }

  /** The first `n` instances are in: the tables have them, and `m` would be the mask that
      agrees, while the real mask is complete from the start. */
  ghost predicate PartInserted<V>(entities: map<nat, Blocks>, m: Blocks, id: nat, tables: map<nat, map<nat, V>>,
                                  position: map<nat, nat>, cursor: nat, instances: seq<(nat, V)>, n: nat,
                                  mask: Blocks, start: Registry<V>) {
    && n <= |instances| && id in entities && position.Keys == tables.Keys
    && Agree(entities[id := m], id + 1, position, tables)
    && (forall i: nat :: BitIn(m, i) <==> Requested(instances, n, position, i))
    && SameBits(entities[id], mask)
    && InsertAll(Registry(position, cursor, WorldOf(entities.Keys, tables), id + 1), id, instances[n..])
       == InsertAll(start, id, instances)
  }

  lemma NoneInserted<V>(entities: map<nat, Blocks>, id: nat, tables: map<nat, map<nat, V>>, position: map<nat, nat>,
                        cursor: nat, instances: seq<(nat, V)>, mask: Blocks, start: Registry<V>)
    requires position.Keys == tables.Keys && id in entities && entities[id] == mask
    requires start == Registry(position, cursor, WorldOf(entities.Keys, tables), id + 1)
    requires Agree(entities[id := []], id + 1, position, tables)
    ensures PartInserted(entities, [], id, tables, position, cursor, instances, 0, mask, start)
  {
    NoBits();
    RequestedFacts(instances, position);
    assert instances[0..] == instances;
    hide BitIn;
    hide Agree;
    hide WorldOf;
    hide InsertAll;
    hide Requested;
  }

  lemma PartLive<V>(entities: map<nat, Blocks>, m: Blocks, id: nat, tables: map<nat, map<nat, V>>,
                    position: map<nat, nat>, cursor: nat, instances: seq<(nat, V)>, n: nat,
                    mask: Blocks, start: Registry<V>)
    requires PartInserted(entities, m, id, tables, position, cursor, instances, n, mask, start)
    ensures id in entities
  {
  }

  lemma OneInserted<V>(entities: map<nat, Blocks>, entities': map<nat, Blocks>, m: Blocks, id: nat,
                       tables: map<nat, map<nat, V>>, tables': map<nat, map<nat, V>>, position: map<nat, nat>,
                       cursor: nat, instances: seq<(nat, V)>, n: nat, mask: Blocks, start: Registry<V>, one: Blocks)
    requires n < |instances| && PositionsOk(position, cursor) && position.Keys == tables.Keys
    requires PartInserted(entities, m, id, tables, position, cursor, instances, n, mask, start)
    requires forall i: nat :: BitIn(mask, i) <==> Requested(instances, |instances|, position, i)
    requires if instances[n].0 in position then SingleBit(one, position[instances[n].0]) else one == []
    requires entities'.Keys == entities.Keys
    requires forall x :: x in entities && x != id ==> entities'[x] == entities[x]
    requires forall i: nat :: BitIn(entities'[id], i)
               == (BitIn(entities[id], i) || (instances[n].0 in position && i == position[instances[n].0]))
    requires tables' == if instances[n].0 in position
                        then tables[instances[n].0 := WithComponent(tables[instances[n].0], id, instances[n].1)]
                        else tables
    ensures PartInserted(entities', Combine(Or, m, one), id, tables', position, cursor, instances, n + 1, mask, start)
  {
    RequestedFacts(instances, position);
    hide BitIn;
    hide Agree;
    hide WorldOf;
    hide InsertAll;
    hide Requested;
    hide Combine;
    hide SingleBit;
    hide PositionsOk;
    InsertStep(entities, m, id, tables, position, cursor, instances, n, one);
    InsertWorld(entities.Keys, id, tables, position, cursor, instances, n);
    assert entities'[id := Combine(Or, m, one)] == entities[id := Combine(Or, m, one)];
    hide WithComponent;
  }

  lemma AllInserted<V>(entities: map<nat, Blocks>, m: Blocks, id: nat, tables: map<nat, map<nat, V>>,
                       position: map<nat, nat>, cursor: nat, instances: seq<(nat, V)>,
                       mask: Blocks, start: Registry<V>)
    requires PartInserted(entities, m, id, tables, position, cursor, instances, |instances|, mask, start)
    requires forall i: nat :: BitIn(mask, i) <==> Requested(instances, |instances|, position, i)
    ensures Agree(entities, id + 1, position, tables)
    ensures Registry(position, cursor, WorldOf(entities.Keys, tables), id + 1) == InsertAll(start, id, instances)
  {
    hide BitIn;
    hide Agree;
    hide WorldOf;
    hide Requested;
    assert instances[|instances|..] == [];
    SameMask(entities[id := m], id + 1, position, tables, id, entities[id]);
    assert entities[id := m][id := entities[id]] == entities;
  }

  lemma InsertBits<V>(m: Blocks, position: map<nat, nat>, instances: seq<(nat, V)>, n: nat, one: Blocks)
    requires n < |instances|
    requires forall i: nat :: BitIn(m, i) <==> Requested(instances, n, position, i)
    requires if instances[n].0 in position then SingleBit(one, position[instances[n].0]) else one == []
    ensures forall i: nat :: BitIn(Combine(Or, m, one), i) <==> Requested(instances, n + 1, position, i)
    ensures forall i: nat :: BitIn(Combine(Or, m, one), i)
              == (BitIn(m, i) || (instances[n].0 in position && i == position[instances[n].0]))
  {
    NoBits();
    hide BitIn;
    hide Combine;
    assert Combines(Or, m, one, Combine(Or, m, one));
  }

  lemma AnyRequested<V>(r: Registry<V>, instances: seq<(nat, V)>, mask: Blocks)
    requires forall i: nat :: BitIn(mask, i) <==> Requested(instances, |instances|, r.position, i)
    ensures (exists i: nat :: BitIn(mask, i)) <==> AnyRegistered(r, instances)
  {
    hide BitIn;
    if k :| 0 <= k < |instances| && instances[k].0 in r.position {
      assert Requested(instances, |instances|, r.position, r.position[instances[k].0]);
      assert BitIn(mask, r.position[instances[k].0]);
    }
  }

  /** Either the shift by one left a bit, or a block was added: room for the index bit. */
  lemma RoomAfter(index: Blocks, k: nat, grown: Blocks, probe: Blocks)
    requires SingleBit(index, k) && ShiftedRight(index, 1, probe)
    requires SameBits(grown, index)
    requires (exists i: nat :: BitIn(probe, i)) ==> |grown| == |index|
    requires !(exists i: nat :: BitIn(probe, i)) ==> |grown| == |index| + 1
    ensures SingleBit(grown, k) && k + 1 < BLOCK * |grown|
  {
    assert BitIn(index, k);
    BitsInCapacity(index);
    if i: nat :| BitIn(probe, i) {
      assert i == k + 1;
    }
  }

  lemma MovedOn(grown: Blocks, k: nat, index: Blocks)
    requires SingleBit(grown, k) && k + 1 < BLOCK * |grown| && ShiftedRight(grown, 1, index)
    ensures SingleBit(index, k + 1)
  {
  }
}

/** The client's packet handlers over its engine and its id bindings, proved against
    `Replica`, and the server loop that builds the snapshot, proved against `Join`. */
module Handlers {
  import opened Numbers
  import opened Codec
  import opened EcsSpec
  import opened Snapshot
  import opened Replica
  import opened Join
  import BitSet
  import Ecs
  import Engine

  class Toolbox {
    const ecs: Ecs.Ecs<Val>
    const animations: map<Val, Val>
    var serverToClient: map<nat, nat>
    var gameState: u8

    ghost predicate Valid()
      reads this, ecs, ecs.sets
    {
      ecs.Valid() && Ready(State())
    }

    ghost function State(): Client
      requires ecs.Valid()
      reads this, ecs, ecs.sets
    {
      Client(ecs.Model(), serverToClient)
    }

    constructor (ecs: Ecs.Ecs<Val>, animations: map<Val, Val>)
      requires ecs.Valid() && ecs.Model() == NewClient().registry
      ensures Valid() && this.ecs == ecs && this.animations == animations
      ensures State() == NewClient()
    {
      hide Ecs.Ecs.Valid;
      hide Ecs.Ecs.Model;
      hide Ready;
      hide NewClient;
      this.ecs, this.animations := ecs, animations;
      serverToClient, gameState := map[], 0;
      new;
      NewClientReady();
      NothingBound();
    }

    /** A packet for an unbound id must carry a mask list that `deserialize` can read. */
    method HandleSpawn(p: Spawn) returns (thrown: bool)
      requires Valid() && SpawnReadable(State(), p)
      modifies this`serverToClient, ecs`entities, ecs`entitiesId, ecs.sets
      ensures Valid() && ecs.sets == old(ecs.sets)
      ensures State() == Replica.HandleSpawn(old(State()), p, animations)
      ensures thrown == SpawnThrows(old(State()), p, animations)
    {
      hide Ecs.Ecs.Valid;
      hide Ecs.Ecs.Model;
      hide Ready;
      hide Extends;
      hide Rebuild;
      hide Graphics;
      hide GameTypes;
      hide InsertAll;
      hide BitSet.BitIn;
      hide BitSet.Readable;
      SpawnEffect(State(), p, animations);
      if p.id in serverToClient {
        return false;
      }
      var realId := ecs.PreRegisterEntity();
      serverToClient := serverToClient[p.id := realId];
      var bitmask := BitSet.DynamicBitSet.Deserialize(p.bitmask);
      var complete := Engine.Apply(ecs, GameTypes(), realId, bitmask, p.bitmask, p.content);
      if !complete {
        return true;
      }
      AddGraphicalComponents(realId);
      return false;
    }

    method AddGraphicalComponents(id: nat)
      requires ecs.Valid()
      modifies ecs`entities, ecs.sets
      ensures ecs.Valid() && ecs.sets == old(ecs.sets)
      ensures ecs.Model() == InsertAll(old(ecs.Model()), id, Graphics(RowAt(old(ecs.Model()), id), animations))
    {
      hide Ecs.Ecs.Valid;
      hide Ecs.Ecs.Model;
      hide InsertAll;
      hide Insert;
      ghost var r := ecs.Model();
      ghost var row, added: seq<(nat, Val)> := RowAt(r, id), [];
      InsertNone(r, id);
      var entityType := ecs.GetFromGroup(id, TYPE);
      if entityType != None {
        ecs.AddEntityComponent(id, SPRITE, entityType.value);
        InsertOne(r, id, added, SPRITE, entityType.value);
        added := added + [(SPRITE, entityType.value)];
        if entityType.value in animations {
          ecs.AddEntityComponent(id, ANIMATION, animations[entityType.value]);
          InsertOne(r, id, added, ANIMATION, animations[entityType.value]);
          added := added + [(ANIMATION, animations[entityType.value])];
        }
      }
      OutsideLookup(r, id, added, POSITION);
      var pos := ecs.GetFromGroup(id, POSITION);
      if pos != None {
        ecs.AddEntityComponent(id, TARGET_POS, pos.value);
        InsertOne(r, id, added, TARGET_POS, pos.value);
        added := added + [(TARGET_POS, pos.value)];
      }
      assert added == Graphics(row, animations);
    }

    method HandleWorldInit(w: WorldInit) returns (thrown: bool)
      requires Valid() && Parallel(w) && SnapshotReadable(State(), w, animations, 0)
      modifies this`serverToClient, this`gameState, ecs`entities, ecs`entitiesId, ecs.sets
      ensures Valid() && gameState == w.state
      ensures State() == Replica.HandleWorldInit(old(State()), w, animations, 0)
      ensures thrown == WorldInitThrows(old(State()), w, animations, 0)
    {
      hide Ecs.Ecs.Valid;
      hide Ecs.Ecs.Model;
      hide Ready;
      hide Replica.HandleSpawn;
      hide SpawnThrows;
      hide BitSet.Readable;
      gameState := w.state;
      for i := 0 to |w.bitsets|
        invariant Valid() && ecs.sets == old(ecs.sets) && gameState == w.state
        invariant SnapshotReadable(State(), w, animations, i)
        invariant Replica.HandleWorldInit(old(State()), w, animations, 0)
               == Replica.HandleWorldInit(State(), w, animations, i)
        invariant WorldInitThrows(old(State()), w, animations, 0) == WorldInitThrows(State(), w, animations, i)
      {
        ghost var c := State();
        SpawnEffect(c, Entry(w, i), animations);
        if w.ids[i] in serverToClient {
          BoundSkips(c, w, animations, i);
          continue;
        }
        var s := Spawn(w.ids[i], w.bitsets[i], w.entities[i]);
        thrown := HandleSpawn(s);
        if thrown {
          return true;
        }
      }
      return false;
    }

    method HandleDestroy(id: nat)
      requires Valid()
      modifies this`serverToClient, ecs`entities, ecs.sets
      ensures Valid()
      ensures State() == Replica.HandleDestroy(old(State()), id)
    {
      hide Ecs.Ecs.Valid;
      hide Ecs.Ecs.Model;
      hide Ready;
      DestroyEffect(State(), id);
      if id !in serverToClient {
        return;
      }
      var realId := serverToClient[id];
      serverToClient := serverToClient - {id};
      ecs.DestroyEntity(realId);
    }
  }

  lemma NothingBound()
    ensures NewClient() == Client(NewClient().registry, map[])
  {
  }

  lemma InsertNone(r: Registry<Val>, e: nat)
    ensures InsertAll(r, e, []) == r
  {
  }

  lemma {:induction false} InsertOne(r: Registry<Val>, e: nat, instances: seq<(nat, Val)>, c: nat, v: Val)
    ensures InsertAll(r, e, instances + [(c, v)]) == Insert(InsertAll(r, e, instances), e, c, v)
    decreases |instances|
  {
    if instances == [] {
      assert (instances + [(c, v)])[1..] == [];
    } else {
      hide Insert;
      assert (instances + [(c, v)])[1..] == instances[1..] + [(c, v)];
      InsertOne(Insert(r, e, instances[0].0, instances[0].1), e, instances[1..], c, v);
    }
  }

  lemma {:induction false} OutsideLookup(r: Registry<Val>, e: nat, instances: seq<(nat, Val)>, c: nat)
    requires c < GAME_COUNT && forall k :: 0 <= k < |instances| ==> instances[k].0 >= GAME_COUNT
    ensures Lookup(InsertAll(r, e, instances), e, c) == Lookup(r, e, c)
    decreases |instances|
  {
    if instances != [] {
      OutsideLookup(Insert(r, e, instances[0].0, instances[0].1), e, instances[1..], c);
    }
  }

  lemma BoundSkips(c: Client, w: WorldInit, animations: map<Val, Val>, i: nat)
    requires Parallel(w) && i < |w.bitsets| && w.ids[i] in c.serverToClient
    requires SnapshotReadable(c, w, animations, i)
    ensures SnapshotReadable(c, w, animations, i + 1)
    ensures Replica.HandleWorldInit(c, w, animations, i) == Replica.HandleWorldInit(c, w, animations, i + 1)
    ensures WorldInitThrows(c, w, animations, i) == WorldInitThrows(c, w, animations, i + 1)
  {
  }

  /** The loop of the server's join handler: one entry for each of its entities. */
  method BuildWorldInit(ecs: Ecs.Ecs<Val>, state: u8) returns (w: WorldInit)
    requires ecs.Valid() && Serving(ecs.Model())
    ensures ecs.Valid() && ecs.Model() == old(ecs.Model())
    ensures w.state == state && SnapshotOf(ecs.Model(), w)
  {
    hide Ecs.Ecs.Valid;
    hide Ecs.Ecs.Model;
    hide MaskListOf;
    hide Content;
    hide GameTypes;
    ghost var server := ecs.Model();
    var ids := ecs.GetAllEntities();
    ecs.LiveIffKnown(server);
    w := WorldInit(state, [], [], []);
    for i := 0 to |ids|
      invariant ecs.Valid() && ecs.Model() == server
      invariant w.state == state && w.ids == ids[..i] && |w.bitsets| == |w.entities| == i
      invariant forall k :: 0 <= k < i ==> EntryOf(server, Entry(w, k))
    {
      GameContent(RowAt(server, ids[i]), 0);
      var bitset, content := Engine.GetEntityInfos(ecs, GameTypes(), ids[i]);
      ghost var before := w;
      w := WorldInit(state, w.bitsets + [bitset], w.ids + [ids[i]], w.entities + [content.value]);
      assert EntryOf(server, Entry(w, i));
      assert forall k :: 0 <= k < i ==> Entry(w, k) == Entry(before, k);
      hide EntryOf;
    }
  }
}

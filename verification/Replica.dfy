/** The client's copy of the server's entities, on values: how Spawn, WorldInit and Destroy
    packets change it, over any run of them. */
module Replica {
  import opened Numbers
  import opened Codec
  import opened EcsSpec
  import opened Snapshot
  import BitSet

  // ---- The components both sides list ----

  /** GameComponents, each as the struct of what its `serialize` names. */
  function GameTypes(): (ts: seq<Ty>)
    ensures |ts| == 14
  {
    [
      Struct([Prim(1)]),                            // Collision
      Struct([Prim(4)]),                            // Damage
      Struct([Prim(4), Prim(4)]),                   // Health
      Struct([Prim(1), Prim(4), Prim(4)]),          // Hitbox
      Struct([Prim(4)]),                            // Invulnerability
      Struct([Prim(1)]),                            // MoveSet
      Struct([Prim(8)]),                            // Owner
      Struct([Prim(4), Prim(4)]),                   // Position
      Struct([Prim(4)]),                            // Score
      Struct([Prim(8)]),                            // State
      Struct([Prim(4), Prim(4)]),                   // Transform
      Struct([Prim(4)]),                            // Type
      Struct([Prim(4)]),                            // Value
      Struct([Prim(4), Prim(4), Prim(4), Prim(4)])  // Velocity
    ]
  }

  const GAME_COUNT: nat := 14
  const POSITION: nat := 7
  const TYPE: nat := 11
  const BEHAVIOUR: nat := 14
  const ANIMATION: nat := 15
  const SPRITE: nat := 18
  const TARGET_POS: nat := 19
  /** Behaviour and the client's six own components follow the list. */
  const CLIENT_COUNT: nat := 21

  predicate Flat(ty: Ty) {
    ty.Struct? && forall k :: 0 <= k < |ty.members| ==> ty.members[k].Prim?
  }

  lemma GameTypesFlat(i: nat)
    requires i < GAME_COUNT
    ensures Flat(GameTypes()[i])
  {
  }

  lemma FlatValue(v: Val, ty: Ty)
    requires Flat(ty) && HasType(v, ty)
    ensures Encode(v, ty).Some? && Clip(v) == v
  {
    forall k | 0 <= k < |v.fields| ensures v.fields[k].Num? {
      assert HasType(v.fields[k], ty.members[k]);
    }
    EncodesIffShortLists(v, ty);
    ClipIdentity(v);
  }

  function ListRow(row: Row): Row {
    map c | c in row && c < GAME_COUNT :: row[c]
  }

  /** Game components are always written whole. */
  lemma {:induction false} GameContent(row: Row, i: nat)
    requires RowTyped(row, GameTypes()) && i <= GAME_COUNT
    ensures Content(row, GameTypes(), i).Some?
    ensures i == 0 ==> Kept(row, GameTypes(), i) == ListRow(row)
    decreases GAME_COUNT - i
  {
    var ts := GameTypes();
    hide GameTypes;
    forall c | c in row && c < GAME_COUNT ensures Encode(row[c], ts[c]).Some? && Clip(row[c]) == row[c] {
      GameTypesFlat(c);
      FlatValue(row[c], ts[c]);
    }
    hide Encode;
    hide Clip;
    if i < GAME_COUNT {
      GameContent(row, i + 1);
    }
  }

  // ---- Packets ----

  datatype Spawn = Spawn(id: nat, bitmask: seq<nat>, content: Bytes)

  datatype WorldInit = WorldInit(state: u8, bitsets: seq<seq<nat>>, ids: seq<nat>, entities: seq<Bytes>)

  datatype Client = Client(registry: Registry<Val>, serverToClient: map<nat, nat>)

  /** What the renderer adds to a new entity: a sprite of its type, an animation when the
      type has one, and its position to move to. */
  function Graphics(row: Row, animations: map<Val, Val>): seq<(nat, Val)> {
    (if TYPE in row
     then [(SPRITE, row[TYPE])] + if row[TYPE] in animations then [(ANIMATION, animations[row[TYPE]])] else []
     else [])
    + (if POSITION in row then [(TARGET_POS, row[POSITION])] else [])
  }

  /** The entity `handleSpawn` makes, in the registry it leaves, and whether the content could
      be read; an unreadable one stays as far as it was built. */
  function Respawn(r: Registry<Val>, p: Spawn, animations: map<Val, Val>): Rebuilt {
    var built := Rebuild(PreRegister(r), r.next, GameTypes(), p.bitmask, p.content, 0);
    if !built.complete then built
    else built.(registry := InsertAll(built.registry, r.next, Graphics(RowAt(built.registry, r.next), animations)))
  }

  /** `deserialize` is only given the mask list of an id not yet bound; it must be one it can
      read inside the memory it allocates. */
  predicate SpawnReadable(c: Client, p: Spawn) {
    p.id in c.serverToClient || BitSet.Readable(p.bitmask)
  }

  function HandleSpawn(c: Client, p: Spawn, animations: map<Val, Val>): Client
    requires SpawnReadable(c, p)
  {
    if p.id in c.serverToClient then c
    else Client(Respawn(c.registry, p, animations).registry, c.serverToClient[p.id := c.registry.next])
  }

  predicate SpawnThrows(c: Client, p: Spawn, animations: map<Val, Val>)
    requires SpawnReadable(c, p)
  {
    p.id !in c.serverToClient && !Respawn(c.registry, p, animations).complete
  }

  predicate Parallel(w: WorldInit) {
    |w.bitsets| <= |w.ids| && |w.bitsets| <= |w.entities|
  }

  function Entry(w: WorldInit, i: nat): Spawn
    requires Parallel(w) && i < |w.bitsets|
  {
    Spawn(w.ids[i], w.bitsets[i], w.entities[i])
  }

  /** Every mask list that the snapshot loop reaches from entry `i` on can be read. */
  predicate SnapshotReadable(c: Client, w: WorldInit, animations: map<Val, Val>, i: nat)
    requires Parallel(w)
    decreases |w.bitsets| - i
  {
    i < |w.bitsets| ==>
      && SpawnReadable(c, Entry(w, i))
      && (SpawnThrows(c, Entry(w, i), animations)
          || SnapshotReadable(HandleSpawn(c, Entry(w, i), animations), w, animations, i + 1))
  }

  /** The snapshot loop from entry `i` on; an unreadable entry ends it. */
  function HandleWorldInit(c: Client, w: WorldInit, animations: map<Val, Val>, i: nat): Client
    requires Parallel(w) && SnapshotReadable(c, w, animations, i)
    decreases |w.bitsets| - i
  {
    if i >= |w.bitsets| then c
    else if SpawnThrows(c, Entry(w, i), animations) then HandleSpawn(c, Entry(w, i), animations)
    else HandleWorldInit(HandleSpawn(c, Entry(w, i), animations), w, animations, i + 1)
  }

  /** The snapshot loop stops early. */
  predicate WorldInitThrows(c: Client, w: WorldInit, animations: map<Val, Val>, i: nat)
    requires Parallel(w) && SnapshotReadable(c, w, animations, i)
    decreases |w.bitsets| - i
  {
    i < |w.bitsets|
    && (SpawnThrows(c, Entry(w, i), animations)
        || WorldInitThrows(HandleSpawn(c, Entry(w, i), animations), w, animations, i + 1))
  }

  function HandleDestroy(c: Client, id: nat): Client {
    if id !in c.serverToClient then c
    else Client(Destroy(c.registry, c.serverToClient[id]), c.serverToClient - {id})
  }

  // ---- Runs ----

  datatype Event =
    | OnSpawn(p: Spawn)
    | OnWorldInit(w: WorldInit)
    | OnDestroy(id: nat)

  /** The packets for which the handlers have a defined behaviour. */
  predicate Handled(c: Client, ev: Event, animations: map<Val, Val>) {
    match ev
    case OnSpawn(p) => SpawnReadable(c, p)
    case OnWorldInit(w) => Parallel(w) && SnapshotReadable(c, w, animations, 0)
    case OnDestroy(_) => true
  }

  function Handle(c: Client, ev: Event, animations: map<Val, Val>): Client
    requires Handled(c, ev, animations)
  {
    match ev
    case OnSpawn(p) => HandleSpawn(c, p, animations)
    case OnWorldInit(w) => HandleWorldInit(c, w, animations, 0)
    case OnDestroy(id) => HandleDestroy(c, id)
  }

  predicate Stops(c: Client, ev: Event, animations: map<Val, Val>)
    requires Handled(c, ev, animations)
  {
    ev.OnWorldInit? && WorldInitThrows(c, ev.w, animations, 0)
  }

  /** The client once its components are registered. */
  function NewClient(): Client {
    Client(RegisterList(EmptyRegistry(), Upto(CLIENT_COUNT)), map[])
  }

  predicate AllHandled(c: Client, events: seq<Event>, animations: map<Val, Val>)
    decreases |events|, 0
  {
    events != [] ==>
      var before := events[..|events| - 1];
      AllHandled(c, before, animations)
      && Handled(RunClient(c, before, animations), events[|events| - 1], animations)
  }

  /** The client after a run of packets. */
  function RunClient(c: Client, events: seq<Event>, animations: map<Val, Val>): Client
    requires AllHandled(c, events, animations)
    decreases |events|, 1
  {
    if events == [] then c
    else Handle(RunClient(c, events[..|events| - 1], animations), events[|events| - 1], animations)
  }

  /** No snapshot of the run stopped early. */
  predicate NoneStops(c: Client, events: seq<Event>, animations: map<Val, Val>)
    requires AllHandled(c, events, animations)
    decreases |events|
  {
    events != [] ==>
      var before := events[..|events| - 1];
      NoneStops(c, before, animations)
      && !Stops(RunClient(c, before, animations), events[|events| - 1], animations)
  }

  /** Bindings are injective, and the bound client entities are exactly the live ones. */
  ghost predicate Bijective(c: Client) {
    && (forall a, b :: a in c.serverToClient && b in c.serverToClient && a != b ==>
          c.serverToClient[a] != c.serverToClient[b])
    && (forall a :: a in c.serverToClient ==> c.serverToClient[a] in c.registry.world)
    && (forall e :: e in c.registry.world ==> exists a :: a in c.serverToClient && c.serverToClient[a] == e)
  }

  ghost predicate Ready(c: Client) {
    Sound(c.registry) && Listed(c.registry, GameTypes()) && Bijective(c)
  }

  // ---- One packet ----

  /** Building an entity touches no other and registers nothing. */
  ghost predicate OnlyRow(r: Registry<Val>, e: nat, r': Registry<Val>) {
    && r'.position == r.position && r'.cursor == r.cursor && r'.next == r.next
    && r'.world.Keys == r.world.Keys
    && (forall x :: x in r.world && x != e ==> r'.world[x] == r.world[x])
    && (Sound(r) ==> Sound(r'))
  }

  lemma InsertOnlyRow(r: Registry<Val>, e: nat, c: nat, v: Val)
    ensures OnlyRow(r, e, Insert(r, e, c, v))
  {
    assert e in r.world ==> Insert(r, e, c, v).world.Keys == r.world.Keys;
  }

  lemma OnlyRowTwice(r: Registry<Val>, e: nat, mid: Registry<Val>, r': Registry<Val>)
    requires OnlyRow(r, e, mid) && OnlyRow(mid, e, r')
    ensures OnlyRow(r, e, r')
  {
  }

  lemma {:induction false} RebuildOnlyRow(r: Registry<Val>, e: nat, types: seq<Ty>, mask: seq<nat>, b: Bytes, i: nat)
    ensures OnlyRow(r, e, Rebuild(r, e, types, mask, b, i).registry)
    decreases |types| - i
  {
    hide Decode;
    hide OnlyRow;
    InsertOnlyRow(r, e, i, Num(0));
    if i >= |types| {
      SameRegistry(r, e);
    } else if i + 1 !in mask {
      RebuildOnlyRow(r, e, types, mask, b, i + 1);
    } else {
      match Decode(types[i], b)
      case Underflow => SameRegistry(r, e);
      case Got(v, rest) =>
        InsertOnlyRow(r, e, i, v);
        RebuildOnlyRow(Insert(r, e, i, v), e, types, mask, rest, i + 1);
        OnlyRowTwice(r, e, Insert(r, e, i, v), Rebuild(r, e, types, mask, b, i).registry);
    }
  }

  lemma SameRegistry(r: Registry<Val>, e: nat)
    ensures OnlyRow(r, e, r)
  {
  }

  /** Components outside the list leave an entity's listed components alone. */
  lemma {:induction false} InsertAllOutside(r: Registry<Val>, e: nat, instances: seq<(nat, Val)>)
    requires forall k :: 0 <= k < |instances| ==> instances[k].0 >= GAME_COUNT
    ensures OnlyRow(r, e, InsertAll(r, e, instances))
    ensures ListRow(RowAt(InsertAll(r, e, instances), e)) == ListRow(RowAt(r, e))
    decreases |instances|
  {
    if instances == [] {
    } else {
      var c, v := instances[0].0, instances[0].1;
      var r' := Insert(r, e, c, v);
      InsertOnlyRow(r, e, c, v);
      assert ListRow(RowAt(r', e)) == ListRow(RowAt(r, e));
      InsertAllOutside(r', e, instances[1..]);
      OnlyRowTwice(r, e, r', InsertAll(r, e, instances));
    }
  }

  lemma GraphicsOutside(row: Row, animations: map<Val, Val>)
    ensures forall k :: 0 <= k < |Graphics(row, animations)| ==> Graphics(row, animations)[k].0 >= GAME_COUNT
  {
  }

  lemma RespawnOnlyRow(r: Registry<Val>, p: Spawn, animations: map<Val, Val>)
    ensures OnlyRow(PreRegister(r), r.next, Respawn(r, p, animations).registry)
  {
    var built := Rebuild(PreRegister(r), r.next, GameTypes(), p.bitmask, p.content, 0);
    RebuildOnlyRow(PreRegister(r), r.next, GameTypes(), p.bitmask, p.content, 0);
    if built.complete {
      var row := RowAt(built.registry, r.next);
      GraphicsOutside(row, animations);
      InsertAllOutside(built.registry, r.next, Graphics(row, animations));
      hide OnlyRow;
      OnlyRowTwice(PreRegister(r), r.next, built.registry, Respawn(r, p, animations).registry);
    }
  }

  // ---- What the renderer adds ----

  /** Sprite, animation and target position as the entity's type and position ask for them, and no
      other component outside the list. */
  ghost predicate Rendered(row: Row, animations: map<Val, Val>) {
    && (SPRITE in row <==> TYPE in row) && (SPRITE in row ==> row[SPRITE] == row[TYPE])
    && (ANIMATION in row <==> TYPE in row && row[TYPE] in animations)
    && (ANIMATION in row ==> row[ANIMATION] == animations[row[TYPE]])
    && (TARGET_POS in row <==> POSITION in row) && (TARGET_POS in row ==> row[TARGET_POS] == row[POSITION])
    && forall c :: c in row && c >= GAME_COUNT ==> c == SPRITE || c == ANIMATION || c == TARGET_POS
  }

  /** What the renderer makes of a component of its own. */
  function RenderValue(row: Row, animations: map<Val, Val>, c: nat): Option<Val> {
    if c == SPRITE && TYPE in row then Some(row[TYPE])
    else if c == ANIMATION && TYPE in row && row[TYPE] in animations then Some(animations[row[TYPE]])
    else if c == TARGET_POS && POSITION in row then Some(row[POSITION])
    else None
  }

  lemma GraphicsGives(row: Row, animations: map<Val, Val>, c: nat)
    ensures var gs := Graphics(row, animations);
            && (Gives(gs, c) <==> RenderValue(row, animations, c).Some?)
            && forall i :: 0 <= i < |gs| && gs[i].0 == c ==> RenderValue(row, animations, c) == Some(gs[i].1)
  {
    var gs := Graphics(row, animations);
    if TYPE in row {
      assert gs[0] == (SPRITE, row[TYPE]);
      if row[TYPE] in animations {
        assert gs[1] == (ANIMATION, animations[row[TYPE]]);
      }
    }
    if POSITION in row {
      assert gs[|gs| - 1] == (TARGET_POS, row[POSITION]);
    }
  }

  /** Reading the content adds list components only. */
  lemma {:induction false} RebuildListed(r: Registry<Val>, e: nat, types: seq<Ty>, mask: seq<nat>, b: Bytes, i: nat)
    requires e in r.world && forall c :: c in r.world[e] ==> c < |types|
    ensures var r' := Rebuild(r, e, types, mask, b, i).registry;
            e in r'.world && r'.position == r.position && forall c :: c in r'.world[e] ==> c < |types|
    decreases |types| - i
  {
    hide Decode;
    if i < |types| {
      if i + 1 !in mask {
        RebuildListed(r, e, types, mask, b, i + 1);
      } else {
        match Decode(types[i], b)
        case Underflow =>
        case Got(v, rest) => RebuildListed(Insert(r, e, i, v), e, types, mask, rest, i + 1);
      }
    }
  }

  lemma RenderedAt(r: Registry<Val>, e: nat, animations: map<Val, Val>, c: nat)
    requires e in r.world
    ensures e in InsertAll(r, e, Graphics(r.world[e], animations)).world
    ensures var row := r.world[e];
            var row', v := InsertAll(r, e, Graphics(row, animations)).world[e], RenderValue(row, animations, c);
            if c in r.position && v.Some? then c in row' && row'[c] == v.value
            else (c in row' <==> c in row) && (c in row ==> row'[c] == row[c])
  {
    var row := r.world[e];
    var gs, v := Graphics(row, animations), RenderValue(row, animations, c);
    GraphicsGives(row, animations, c);
    hide Graphics;
    hide RenderValue;
    InsertAllAt(r, e, gs, c, if v.Some? then v.value else Num(0));
    hide InsertAll;
    hide Gives;
  }

  lemma GraphicsRendered(r: Registry<Val>, e: nat, animations: map<Val, Val>)
    requires e in r.world && forall c :: c in r.world[e] ==> c < GAME_COUNT
    requires SPRITE in r.position && ANIMATION in r.position && TARGET_POS in r.position
    ensures e in InsertAll(r, e, Graphics(r.world[e], animations)).world
    ensures Rendered(InsertAll(r, e, Graphics(r.world[e], animations)).world[e], animations)
  {
    var row := r.world[e];
    RenderedAt(r, e, animations, SPRITE);
    RenderedAt(r, e, animations, ANIMATION);
    RenderedAt(r, e, animations, TARGET_POS);
    RenderedAt(r, e, animations, TYPE);
    RenderedAt(r, e, animations, POSITION);
    hide InsertAll;
    hide Graphics;
    var row' := InsertAll(r, e, Graphics(row, animations)).world[e];
    forall c | c in row' && c >= GAME_COUNT ensures c == SPRITE || c == ANIMATION || c == TARGET_POS {
      RenderedAt(r, e, animations, c);
    }
  }

  /** An entity spawned from content that could be read in full looks as its type and position ask. */
  lemma SpawnRenders(c: Client, p: Spawn, animations: map<Val, Val>)
    requires SpawnReadable(c, p) && p.id !in c.serverToClient && !SpawnThrows(c, p, animations)
    requires forall x :: GAME_COUNT <= x < CLIENT_COUNT ==> x in c.registry.position
    ensures var c' := HandleSpawn(c, p, animations);
            && p.id in c'.serverToClient && c'.serverToClient[p.id] in c'.registry.world
            && Rendered(c'.registry.world[c'.serverToClient[p.id]], animations)
  {
    var r, e := PreRegister(c.registry), c.registry.next;
    var built := Rebuild(r, e, GameTypes(), p.bitmask, p.content, 0);
    RebuildListed(r, e, GameTypes(), p.bitmask, p.content, 0);
    hide GameTypes;
    hide Rebuild;
    hide BitSet.Readable;
    GraphicsRendered(built.registry, e, animations);
    InsertAllExact(built.registry, e, Graphics(built.registry.world[e], animations));
    hide Graphics;
    hide InsertAll;
    hide Rendered;
    hide FilledFrom;
  }

  // ---- What is built of a packet ----

  /** The content holds these values for the first of the list components the mask names, and no
      value for the next of them, if any. */
  ghost predicate Reads(p: Spawn, ids: seq<nat>, vs: seq<Val>, parts: seq<Bytes>, rest: Bytes) {
    && Wanted(ids, GameTypes(), p.bitmask, 0) && Holds(ids, vs, parts, GameTypes(), p.content, rest)
    && (|vs| < |ids| ==> ids[|vs|] < GAME_COUNT && Decode(GameTypes()[ids[|vs|]], rest).Underflow?)
  }

  ghost predicate ReadsWhole(p: Spawn) {
    exists ids, vs, parts, rest :: Reads(p, ids, vs, parts, rest) && |vs| == |ids|
  }

  ghost predicate ReadsPart(p: Spawn) {
    exists ids, vs, parts, rest :: Reads(p, ids, vs, parts, rest) && |vs| < |ids|
  }

  lemma BuiltExact(r: Registry<Val>, p: Spawn)
    returns (ids: seq<nat>, vs: seq<Val>, parts: seq<Bytes>, rest: Bytes)
    requires Listed(r, GameTypes())
    ensures var built := Rebuild(PreRegister(r), r.next, GameTypes(), p.bitmask, p.content, 0);
            && Reads(p, ids, vs, parts, rest) && (built.complete <==> |vs| == |ids|)
            && r.next in built.registry.world && FilledWith(map[], built.registry.world[r.next], ids, vs)
  {
    hide GameTypes;
    hide Rebuild;
    hide Decode;
    ids, vs, parts, rest := RebuildExact(PreRegister(r), r.next, GameTypes(), p.bitmask, p.content, 0);
    hide Wanted;
    hide Holds;
    hide FilledWith;
  }

  /** The entity that a spawn makes has, of the listed components, exactly the values read, also when
      the reading stops early; nothing is rendered then. */
  lemma SpawnBuilds(c: Client, p: Spawn, animations: map<Val, Val>)
    returns (ids: seq<nat>, vs: seq<Val>, parts: seq<Bytes>, rest: Bytes)
    requires Ready(c) && SpawnReadable(c, p) && p.id !in c.serverToClient
    ensures var c' := HandleSpawn(c, p, animations);
            && Reads(p, ids, vs, parts, rest) && (SpawnThrows(c, p, animations) <==> |vs| < |ids|)
            && p.id in c'.serverToClient && c'.serverToClient[p.id] in c'.registry.world
            && var row := c'.registry.world[c'.serverToClient[p.id]];
               && FilledWith(map[], ListRow(row), ids, vs)
               && (SpawnThrows(c, p, animations) ==> row == ListRow(row))
  {
    var r, e := c.registry, c.registry.next;
    ids, vs, parts, rest := BuiltExact(r, p);
    var built := Rebuild(PreRegister(r), e, GameTypes(), p.bitmask, p.content, 0);
    RebuildListed(PreRegister(r), e, GameTypes(), p.bitmask, p.content, 0);
    var row := built.registry.world[e];
    assert ListRow(row) == row;
    GraphicsOutside(row, animations);
    InsertAllOutside(built.registry, e, Graphics(row, animations));
    hide GameTypes;
    hide Rebuild;
    hide Graphics;
    hide InsertAll;
    hide BitSet.Readable;
    hide Reads;
    hide FilledWith;
    hide Bijective;
    hide Sound;
    CountsAtMost(p, ids, vs, parts, rest);
    hide ListRow;
  }

  lemma CountsAtMost(p: Spawn, ids: seq<nat>, vs: seq<Val>, parts: seq<Bytes>, rest: Bytes)
    requires Reads(p, ids, vs, parts, rest)
    ensures |vs| <= |ids|
  {
    hide GameTypes;
    hide Decode;
    hide Wanted;
  }

  lemma ThrowsIffPart(c: Client, p: Spawn, animations: map<Val, Val>)
    requires Ready(c) && SpawnReadable(c, p) && p.id !in c.serverToClient
    ensures if SpawnThrows(c, p, animations) then ReadsPart(p) else ReadsWhole(p)
  {
    var ids, vs, parts, rest := SpawnBuilds(c, p, animations);
    CountsAtMost(p, ids, vs, parts, rest);
    hide SpawnThrows;
    hide HandleSpawn;
    hide FilledWith;
    hide Reads;
  }

  /** What any spawn packet does: a bound id changes nothing; another is bound to a new entity
      and no other binding or entity changes. */
  lemma SpawnEffect(c: Client, p: Spawn, animations: map<Val, Val>)
    requires Ready(c) && SpawnReadable(c, p)
    ensures var c' := HandleSpawn(c, p, animations);
            && Ready(c')
            && c'.serverToClient.Keys == c.serverToClient.Keys + {p.id}
            && (p.id in c.serverToClient ==> c' == c)
            && (p.id !in c.serverToClient ==> c'.serverToClient[p.id] == c.registry.next)
            && Extends(c, c')
  {
    if p.id !in c.serverToClient {
      var r' := Respawn(c.registry, p, animations).registry;
      RespawnOnlyRow(c.registry, p, animations);
      hide Respawn;
      hide GameTypes;
      hide Extends;
      hide Bijective;
      OneMore(c, p.id, r');
    }
  }

  lemma OneMore(c: Client, id: nat, r': Registry<Val>)
    requires Ready(c) && id !in c.serverToClient
    requires OnlyRow(PreRegister(c.registry), c.registry.next, r')
    ensures var c' := Client(r', c.serverToClient[id := c.registry.next]);
            Ready(c') && Extends(c, c') && c'.serverToClient.Keys == c.serverToClient.Keys + {id}
  {
    var c' := Client(r', c.serverToClient[id := c.registry.next]);
    NewRow(c.registry, r');
    Bound(c, id, c');
    ByOne(c, id, c');
    hide *;
    ReadyIs(c');
  }

  lemma ReadyIs(c: Client)
    requires Sound(c.registry) && Listed(c.registry, GameTypes()) && Bijective(c)
    ensures Ready(c)
  {
  }

  lemma ByOne(c: Client, id: nat, c': Client)
    requires id !in c.serverToClient && c'.serverToClient == c.serverToClient[id := c.registry.next]
    requires c'.registry.world.Keys == c.registry.world.Keys + {c.registry.next}
    requires forall e :: e in c.registry.world ==> c'.registry.world[e] == c.registry.world[e]
    ensures Extends(c, c') && c'.serverToClient.Keys == c.serverToClient.Keys + {id}
  {
  }

  lemma NewRow(r: Registry<Val>, r': Registry<Val>)
    requires Sound(r) && Listed(r, GameTypes()) && OnlyRow(PreRegister(r), r.next, r')
    ensures Sound(r') && Listed(r', GameTypes()) && r.next !in r.world
    ensures r'.world.Keys == r.world.Keys + {r.next}
    ensures forall x :: x in r.world ==> r'.world[x] == r.world[x]
  {
    PreRegisterSound(r);
    hide GameTypes;
    var mid := PreRegister(r);
    assert forall x :: x in r.world ==> x != r.next;
    hide Sound;
    assert forall x :: x in r.world ==> mid.world[x] == r.world[x];
  }

  lemma Bound(c: Client, id: nat, c': Client)
    requires Bijective(c) && Sound(c.registry) && id !in c.serverToClient
    requires c'.serverToClient == c.serverToClient[id := c.registry.next]
    requires c'.registry.world.Keys == c.registry.world.Keys + {c.registry.next}
    ensures Bijective(c')
  {
    forall e | e in c'.registry.world ensures exists a :: a in c'.serverToClient && c'.serverToClient[a] == e {
      if e == c.registry.next {
        assert c'.serverToClient[id] == e;
      } else {
        var a :| a in c.serverToClient && c.serverToClient[a] == e;
        assert c'.serverToClient[a] == e;
      }
    }
  }

  /** Bindings and entities there before are untouched. */
  ghost predicate Extends(c: Client, c': Client) {
    && (forall a :: a in c.serverToClient ==> a in c'.serverToClient && c'.serverToClient[a] == c.serverToClient[a])
    && (forall e :: e in c.registry.world ==> e in c'.registry.world && c'.registry.world[e] == c.registry.world[e])
  }

  lemma {:induction false} WorldInitEffect(c: Client, w: WorldInit, animations: map<Val, Val>, i: nat)
    requires Ready(c) && Parallel(w) && SnapshotReadable(c, w, animations, i)
    ensures Ready(HandleWorldInit(c, w, animations, i))
    ensures Extends(c, HandleWorldInit(c, w, animations, i))
    decreases |w.bitsets| - i
  {
    hide Ready;
    hide Respawn;
    hide BitSet.Readable;
    hide Extends;
    if i < |w.bitsets| {
      var c1 := HandleSpawn(c, Entry(w, i), animations);
      SpawnEffect(c, Entry(w, i), animations);
      hide HandleSpawn;
      hide SpawnThrows;
      if !SpawnThrows(c, Entry(w, i), animations) {
        WorldInitEffect(c1, w, animations, i + 1);
        ExtendsTwice(c, c1, HandleWorldInit(c1, w, animations, i + 1));
      }
    } else {
      ExtendsSelf(c);
    }
  }

  lemma ExtendsSelf(c: Client)
    ensures Extends(c, c)
  {
  }

  lemma ExtendsTwice(c: Client, mid: Client, c': Client)
    requires Extends(c, mid) && Extends(mid, c')
    ensures Extends(c, c')
  {
  }

  ghost predicate Names(w: WorldInit, i: nat, id: nat) {
    exists j :: i <= j < |w.bitsets| && j < |w.ids| && w.ids[j] == id
  }

  /** A snapshot loop that runs to its end binds exactly the ids it names besides those bound
      before. */
  lemma {:induction false} WorldInitBinds(c: Client, w: WorldInit, animations: map<Val, Val>, i: nat, id: nat)
    requires Parallel(w) && SnapshotReadable(c, w, animations, i) && !WorldInitThrows(c, w, animations, i)
    ensures id in HandleWorldInit(c, w, animations, i).serverToClient <==> id in c.serverToClient || Names(w, i, id)
    decreases |w.bitsets| - i
  {
    hide Respawn;
    hide BitSet.Readable;
    if i < |w.bitsets| {
      var c1 := HandleSpawn(c, Entry(w, i), animations);
      assert id in c1.serverToClient <==> id in c.serverToClient || id == w.ids[i];
      assert Names(w, i, id) <==> Names(w, i + 1, id) || id == w.ids[i];
      hide HandleSpawn;
      hide Names;
      hide SpawnThrows;
      WorldInitBinds(c1, w, animations, i + 1, id);
    }
  }

  /** Bound are the ids of entries `i` to `n` besides those bound before. */
  ghost predicate BoundTo(before: set<nat>, after: set<nat>, ids: seq<nat>, i: nat, n: nat) {
    forall id :: id in after <==> id in before || exists j :: i <= j < n && j < |ids| && ids[j] == id
  }

  /** Entries `i` to `n` name ids known by then, or can be read in full. */
  ghost predicate KnownOrWhole(before: set<nat>, w: WorldInit, i: nat, n: nat)
    requires Parallel(w) && n <= |w.bitsets|
  {
    forall j :: i <= j < n ==>
      w.ids[j] in before || (exists k :: i <= k < j && w.ids[k] == w.ids[j]) || ReadsWhole(Entry(w, j))
  }

  lemma BoundMore(before: set<nat>, after: set<nat>, ids: seq<nat>, i: nat, n: nat)
    requires i < |ids| && i < n && BoundTo(before + {ids[i]}, after, ids, i + 1, n)
    ensures BoundTo(before, after, ids, i, n)
  {
  }

  lemma WholeMore(before: set<nat>, w: WorldInit, i: nat, n: nat)
    requires Parallel(w) && i < n <= |w.bitsets| && KnownOrWhole(before + {w.ids[i]}, w, i + 1, n)
    requires w.ids[i] in before || ReadsWhole(Entry(w, i))
    ensures KnownOrWhole(before, w, i, n)
  {
    hide ReadsWhole;
    forall j | i <= j < n
      ensures w.ids[j] in before || (exists k :: i <= k < j && w.ids[k] == w.ids[j]) || ReadsWhole(Entry(w, j))
    {
      assert i < j && w.ids[j] == w.ids[i] ==> exists k :: i <= k < j && w.ids[k] == w.ids[j];
    }
  }

  lemma BoundOne(before: set<nat>, ids: seq<nat>, i: nat)
    requires i < |ids|
    ensures BoundTo(before + {ids[i]}, before + {ids[i]}, ids, i + 1, i + 1)
    ensures BoundTo(before, before, ids, i, i)
  {
  }

  /** What one entry does to the bindings, and whether it stops the loop. */
  lemma EntryStep(c: Client, p: Spawn, animations: map<Val, Val>)
    requires Ready(c) && SpawnReadable(c, p)
    ensures var c1 := HandleSpawn(c, p, animations);
            Ready(c1) && c1.serverToClient.Keys == c.serverToClient.Keys + {p.id}
    ensures if SpawnThrows(c, p, animations) then ReadsPart(p) else p.id in c.serverToClient || ReadsWhole(p)
  {
    SpawnEffect(c, p, animations);
    if p.id !in c.serverToClient {
      ThrowsIffPart(c, p, animations);
    }
    hide Ready;
    hide Respawn;
    hide BitSet.Readable;
    hide ReadsPart;
    hide ReadsWhole;
    hide Extends;
  }

  /** Which entries the snapshot loop handles: all of them, or up to the first of a new id whose
      content cannot be read in full; those are bound, that one included, and no others. */
  lemma {:induction false} WorldInitExact(c: Client, w: WorldInit, animations: map<Val, Val>, i: nat) returns (n: nat)
    requires Ready(c) && Parallel(w) && SnapshotReadable(c, w, animations, i) && i <= |w.bitsets|
    ensures i <= n <= |w.bitsets|
    ensures BoundTo(c.serverToClient.Keys, HandleWorldInit(c, w, animations, i).serverToClient.Keys, w.ids, i, n)
    ensures if WorldInitThrows(c, w, animations, i)
            then i < n && KnownOrWhole(c.serverToClient.Keys, w, i, n - 1) && ReadsPart(Entry(w, n - 1))
            else n == |w.bitsets| && KnownOrWhole(c.serverToClient.Keys, w, i, n)
    decreases |w.bitsets| - i
  {
    hide Ready;
    hide BitSet.Readable;
    hide ReadsPart;
    hide ReadsWhole;
    hide BoundTo;
    hide HandleSpawn;
    hide SpawnThrows;
    var before := c.serverToClient.Keys;
    if i == |w.bitsets| {
      n := i;
      NoneBound(before, w.ids, i);
    } else {
      var p := Entry(w, i);
      EntryStep(c, p, animations);
      BoundOne(before, w.ids, i);
      if SpawnThrows(c, p, animations) {
        n := i + 1;
      } else {
        n := WorldInitExact(HandleSpawn(c, p, animations), w, animations, i + 1);
        if WorldInitThrows(HandleSpawn(c, p, animations), w, animations, i + 1) {
          WholeMore(before, w, i, n - 1);
        } else {
          WholeMore(before, w, i, n);
        }
      }
      hide KnownOrWhole;
      BoundMore(before, HandleWorldInit(c, w, animations, i).serverToClient.Keys, w.ids, i, n);
    }
  }

  lemma NoneBound(before: set<nat>, ids: seq<nat>, i: nat)
    ensures BoundTo(before, before, ids, i, i)
  {
  }

  /** Destroy removes the binding and its entity, and nothing else. */
  lemma DestroyEffect(c: Client, id: nat)
    requires Ready(c)
    ensures var c' := HandleDestroy(c, id);
            && Ready(c')
            && c'.serverToClient == c.serverToClient - {id}
            && (id !in c.serverToClient ==> c' == c)
            && (id in c.serverToClient ==> c'.registry.world == c.registry.world - {c.serverToClient[id]})
  {
    if id in c.serverToClient {
      var c' := HandleDestroy(c, id);
      forall e | e in c'.registry.world ensures exists a :: a in c'.serverToClient && c'.serverToClient[a] == e {
        var a :| a in c.serverToClient && c.serverToClient[a] == e;
        assert a in c'.serverToClient;
      }
    } else {
      assert c.serverToClient - {id} == c.serverToClient;
    }
  }

  lemma NewClientReady()
    ensures Ready(NewClient())
  {
    var more := [Prim(0), Prim(0), Prim(0), Prim(0), Prim(0), Prim(0), Prim(0)];
    FreshlyListed(GameTypes() + more);
    var r := NewClient().registry;
    assert |GameTypes() + more| == CLIENT_COUNT;
    hide RegisterList;
    forall i | 0 <= i < CLIENT_COUNT ensures i in r.position && r.position[i] == i + 1 {
      assert i in r.position;
    }
  }

  lemma HandleKeepsReady(c: Client, ev: Event, animations: map<Val, Val>)
    requires Ready(c) && Handled(c, ev, animations)
    ensures Ready(Handle(c, ev, animations))
  {
    hide Ready;
    match ev
    case OnSpawn(p) => SpawnEffect(c, p, animations);
    case OnWorldInit(w) => WorldInitEffect(c, w, animations, 0);
    case OnDestroy(id) => DestroyEffect(c, id);
  }

  /** Over any run of spawn, snapshot and destroy packets, in any order, repeated or
      unreadable: the binding is injective, and its range is exactly the live entities. */
  lemma {:induction false} RunBijective(c: Client, events: seq<Event>, animations: map<Val, Val>)
    requires Ready(c) && AllHandled(c, events, animations)
    ensures Ready(RunClient(c, events, animations))
    decreases |events|
  {
    hide Ready;
    hide Handle;
    hide Handled;
    if events != [] {
      var before := events[..|events| - 1];
      RunBijective(c, before, animations);
      HandleKeepsReady(RunClient(c, before, animations), events[|events| - 1], animations);
    }
  }

  // ---- Which ids are bound ----

  ghost predicate Binds(ev: Event, id: nat) {
    match ev
    case OnSpawn(p) => p.id == id
    case OnWorldInit(w) => Names(w, 0, id)
    case OnDestroy(_) => false
  }

  /** Some packet binds the id and no later one destroys it. */
  ghost predicate LastBinds(events: seq<Event>, id: nat) {
    exists i :: 0 <= i < |events| && Binds(events[i], id) && NotDestroyed(events, i + 1, id)
  }

  ghost predicate NotDestroyed(events: seq<Event>, i: nat, id: nat) {
    forall j :: i <= j < |events| ==> events[j] != OnDestroy(id)
  }

  lemma HandleBinds(c: Client, ev: Event, animations: map<Val, Val>, id: nat)
    requires Handled(c, ev, animations) && !Stops(c, ev, animations)
    ensures id in Handle(c, ev, animations).serverToClient
       <==> Binds(ev, id) || (id in c.serverToClient && ev != OnDestroy(id))
  {
    hide Respawn;
    hide Names;
    match ev
    case OnSpawn(p) =>
    case OnWorldInit(w) => WorldInitBinds(c, w, animations, 0, id);
    case OnDestroy(_) =>
  }

  lemma LastBindsMore(events: seq<Event>, ev: Event, id: nat)
    ensures LastBinds(events + [ev], id) <==> Binds(ev, id) || (LastBinds(events, id) && ev != OnDestroy(id))
    ensures NotDestroyed(events + [ev], 0, id) <==> NotDestroyed(events, 0, id) && ev != OnDestroy(id)
  {
    var more := events + [ev];
    hide Binds;
    if i :| 0 <= i < |events| && Binds(events[i], id) && NotDestroyed(events, i + 1, id) && ev != OnDestroy(id) {
      assert more[i] == events[i] && NotDestroyed(more, i + 1, id);
    }
    if Binds(ev, id) {
      assert more[|events|] == ev && NotDestroyed(more, |events| + 1, id);
    }
    if i :| 0 <= i < |more| && Binds(more[i], id) && NotDestroyed(more, i + 1, id) && i < |events| {
      assert more[i] == events[i] && more[|events|] == ev;
      forall j | i + 1 <= j < |events| ensures events[j] != OnDestroy(id) {
        assert more[j] == events[j];
      }
      assert NotDestroyed(events, i + 1, id);
    }
    if NotDestroyed(more, 0, id) {
      forall j | 0 <= j < |events| ensures events[j] != OnDestroy(id) {
        assert more[j] == events[j];
      }
      assert more[|events|] == ev;
    }
  }

  /** Which ids a client has bound after any run in which no snapshot stopped early: those that
      some packet bound with no Destroy after it, and those bound before that no packet
      destroyed. */
  lemma {:induction false} BoundIff(c: Client, events: seq<Event>, animations: map<Val, Val>, id: nat)
    requires AllHandled(c, events, animations) && NoneStops(c, events, animations)
    ensures id in RunClient(c, events, animations).serverToClient
       <==> LastBinds(events, id) || (id in c.serverToClient && NotDestroyed(events, 0, id))
    decreases |events|
  {
    hide Handle;
    hide Handled;
    hide Stops;
    hide Binds;
    if events != [] {
      var before, ev := events[..|events| - 1], events[|events| - 1];
      assert events == before + [ev];
      BoundIff(c, before, animations, id);
      HandleBinds(RunClient(c, before, animations), ev, animations, id);
      LastBindsMore(before, ev, id);
      hide LastBinds;
      hide NotDestroyed;
    }
  }

  /** One Destroy that never arrives leaves its entity for ever, whatever else arrives. */
  lemma LostDestroyStays(c: Client, events: seq<Event>, animations: map<Val, Val>, i: nat, id: nat)
    requires AllHandled(c, events, animations) && NoneStops(c, events, animations)
    requires i < |events| && Binds(events[i], id) && OnDestroy(id) !in events
    ensures id in RunClient(c, events, animations).serverToClient
  {
    BoundIff(c, events, animations, id);
    assert NotDestroyed(events, i + 1, id);
  }
}

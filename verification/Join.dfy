/** A client that receives the server's world snapshot ends up with a copy of every entity:
    the entity masks, the content bytes, the packet codec and the id bindings together. */
module Join {
  import opened Numbers
  import opened Codec
  import opened EcsSpec
  import opened Snapshot
  import opened Replica
  import BitSet

  ghost predicate TypedWorld(server: Registry<Val>) {
    forall e :: e in server.world ==> RowTyped(server.world[e], GameTypes())
  }

  ghost predicate Serving(server: Registry<Val>) {
    Sound(server) && Listed(server, GameTypes()) && TypedWorld(server)
  }

  /** The packet entry for one server entity: its mask list and its written components. */
  ghost predicate EntryOf(server: Registry<Val>, p: Spawn)
    requires TypedWorld(server)
  {
    && p.id in server.world
    && MaskListOf(server, p.id, p.bitmask)
    && Content(server.world[p.id], GameTypes(), 0) == Some(p.content)
  }

  /** The packet that the server builds from all its entities. */
  ghost predicate SnapshotOf(server: Registry<Val>, w: WorldInit)
    requires TypedWorld(server)
  {
    && |w.ids| == |w.bitsets| == |w.entities|
    && (forall e :: e in server.world <==> e in w.ids)
    && (forall i, j :: 0 <= i < j < |w.ids| ==> w.ids[i] != w.ids[j])
    && (forall i :: 0 <= i < |w.ids| ==> EntryOf(server, Entry(w, i)))
  }

  /** The client has a bound entity with exactly the server entity's game components, each
      with the same serialised value. */
  ghost predicate Copied(server: Registry<Val>, e: nat, c: Client) {
    && e in server.world && e in c.serverToClient && c.serverToClient[e] in c.registry.world
    && ListRow(c.registry.world[c.serverToClient[e]]) == ListRow(server.world[e])
  }

  lemma RebuildCopies(server: Registry<Val>, p: Spawn, r: Registry<Val>)
    requires Serving(server) && EntryOf(server, p)
    requires Listed(r, GameTypes())
    ensures Rebuild(PreRegister(r), r.next, GameTypes(), p.bitmask, p.content, 0)
         == Rebuilt(r.(world := r.world[r.next := ListRow(server.world[p.id])], next := r.next + 1), true)
  {
    var row := server.world[p.id];
    MaskNamesList(server, p.id, GameTypes(), p.bitmask);
    GameContent(row, 0);
    hide GameTypes;
    hide MaskListOf;
    hide Sound;
    RebuildFresh(r, GameTypes(), p.bitmask, row);
  }

  lemma RebuildFresh(r: Registry<Val>, types: seq<Ty>, mask: seq<nat>, row: Row)
    requires Listed(r, types) && RowTyped(row, types) && Content(row, types, 0).Some?
    requires forall c :: 0 <= c < |types| ==> (c + 1 in mask <==> c in row)
    ensures Rebuild(PreRegister(r), r.next, types, mask, Content(row, types, 0).value, 0)
         == Rebuilt(r.(world := r.world[r.next := Kept(row, types, 0)], next := r.next + 1), true)
  {
    hide Encode;
    hide Decode;
    var mid := PreRegister(r);
    RebuildAdds(mid, r.next, types, mask, row, 0);
    hide Rebuild;
    hide Content;
    hide Kept;
    hide Listed;
    hide RowTyped;
    var kept := Kept(row, types, 0);
    assert map[] + kept == kept;
    assert r.world[r.next := map[]][r.next := kept] == r.world[r.next := kept];
  }

  /** One entry makes one faithful entity, whatever the renderer adds to it. */
  lemma SpawnCopies(server: Registry<Val>, p: Spawn, c: Client, animations: map<Val, Val>)
    requires Serving(server) && EntryOf(server, p) && Ready(c) && SpawnReadable(c, p)
    ensures !SpawnThrows(c, p, animations)
    ensures p.id !in c.serverToClient ==> Copied(server, p.id, HandleSpawn(c, p, animations))
  {
    ReadyListed(c);
    hide Ready;
    hide Serving;
    hide MaskListOf;
    hide Content;
    hide TypedWorld;
    hide BitSet.Readable;
    if p.id !in c.serverToClient {
      RebuildCopies(server, p, c.registry);
      hide Rebuild;
      hide GameTypes;
      var built := Rebuild(PreRegister(c.registry), c.registry.next, GameTypes(), p.bitmask, p.content, 0);
      var row := RowAt(built.registry, c.registry.next);
      GraphicsOutside(row, animations);
      InsertAllOutside(built.registry, c.registry.next, Graphics(row, animations));
      hide Graphics;
      ListRowTwice(server.world[p.id]);
      hide ListRow;
      hide InsertAll;
    }
  }

  lemma ReadyListed(c: Client)
    requires Ready(c)
    ensures Listed(c.registry, GameTypes())
  {
  }

  lemma ListRowTwice(row: Row)
    ensures ListRow(ListRow(row)) == ListRow(row)
  {
  }

  lemma CopiedExtends(server: Registry<Val>, e: nat, c: Client, c': Client)
    requires Copied(server, e, c) && Extends(c, c')
    ensures Copied(server, e, c')
  {
  }

  /** Every server id of the entries from `i` on is copied in `c`, except those in `bound`. */
  ghost predicate CopiedFrom(server: Registry<Val>, w: WorldInit, i: nat, bound: set<nat>, c: Client) {
    forall j :: i <= j < |w.ids| && w.ids[j] !in bound ==> Copied(server, w.ids[j], c)
  }

  lemma OneMoreCopied(server: Registry<Val>, w: WorldInit, i: nat, bound: set<nat>, c: Client, c': Client)
    requires i < |w.ids| && forall j :: i < j < |w.ids| ==> w.ids[j] != w.ids[i]
    requires w.ids[i] !in bound ==> Copied(server, w.ids[i], c)
    requires Extends(c, c') && CopiedFrom(server, w, i + 1, bound + {w.ids[i]}, c')
    ensures CopiedFrom(server, w, i, bound, c')
  {
    if w.ids[i] !in bound {
      CopiedExtends(server, w.ids[i], c, c');
    }
    hide Copied;
    hide Extends;
  }

  /** From entry `i` on, the mask of every id that is not bound can be read. */
  ghost predicate UnboundReadable(w: WorldInit, i: nat, bound: set<nat>)
    requires Parallel(w)
  {
    forall j :: i <= j < |w.bitsets| && w.ids[j] !in bound ==> BitSet.Readable(w.bitsets[j])
  }

  lemma UnboundStep(w: WorldInit, i: nat, bound: set<nat>)
    requires Parallel(w) && i < |w.bitsets|
    requires forall j :: i < j < |w.bitsets| ==> w.ids[j] != w.ids[i]
    ensures UnboundReadable(w, i, bound)
       <==> (w.ids[i] in bound || BitSet.Readable(w.bitsets[i])) && UnboundReadable(w, i + 1, bound + {w.ids[i]})
  {
    hide BitSet.Readable;
  }

  /** The handler can take the server's snapshot exactly when it can read the masks of the ids
      it has not bound; then the loop never stops early and copies every one of them. */
  lemma {:induction false} EntriesCopied(server: Registry<Val>, w: WorldInit, c: Client, animations: map<Val, Val>,
                                         i: nat)
    requires Serving(server) && SnapshotOf(server, w) && Ready(c) && i <= |w.ids|
    ensures SnapshotReadable(c, w, animations, i) <==> UnboundReadable(w, i, c.serverToClient.Keys)
    ensures SnapshotReadable(c, w, animations, i) ==>
              && !WorldInitThrows(c, w, animations, i)
              && CopiedFrom(server, w, i, c.serverToClient.Keys, HandleWorldInit(c, w, animations, i))
    decreases |w.ids| - i
  {
    hide GameTypes;
    hide Ready;
    hide Respawn;
    hide Copied;
    hide TypedWorld;
    hide Sound;
    hide Listed;
    hide EntryOf;
    hide BitSet.Readable;
    hide Extends;
    if i < |w.ids| {
      var p := Entry(w, i);
      assert EntryOf(server, p);
      UnboundStep(w, i, c.serverToClient.Keys);
      hide UnboundReadable;
      if SpawnReadable(c, p) {
        SpawnCopies(server, p, c, animations);
        SpawnEffect(c, p, animations);
        var c1 := HandleSpawn(c, p, animations);
        hide HandleSpawn;
        hide SpawnThrows;
        EntriesCopied(server, w, c1, animations, i + 1);
        if SnapshotReadable(c1, w, animations, i + 1) {
          WorldInitEffect(c1, w, animations, i + 1);
          hide CopiedFrom;
          OneMoreCopied(server, w, i, c.serverToClient.Keys, c1, HandleWorldInit(c1, w, animations, i + 1));
        }
      }
    }
  }

  /** What a client may have bound when the snapshot arrives, such as its own player: copies. */
  ghost predicate AlreadyCopied(server: Registry<Val>, c: Client) {
    forall a :: a in c.serverToClient ==> Copied(server, a, c)
  }

  /** The snapshot can be handled exactly when no server entity the client has not bound is
      without components. */
  lemma SnapshotReadableIff(server: Registry<Val>, w: WorldInit, c: Client, animations: map<Val, Val>)
    requires Serving(server) && SnapshotOf(server, w) && Ready(c)
    ensures SnapshotReadable(c, w, animations, 0)
       <==> forall e :: e in server.world && e !in c.serverToClient ==> server.world[e] != map[]
  {
    EntriesCopied(server, w, c, animations, 0);
    hide SnapshotReadable;
    hide GameTypes;
    forall i | 0 <= i < |w.ids| ensures BitSet.Readable(w.bitsets[i]) <==> server.world[w.ids[i]] != map[] {
      assert EntryOf(server, Entry(w, i));
      ReadableIffNotEmpty(server, w.ids[i], w.bitsets[i]);
    }
    hide BitSet.Readable;
    hide EntryOf;
    hide Ready;
    if UnboundReadable(w, 0, c.serverToClient.Keys) {
      forall e | e in server.world && e !in c.serverToClient ensures server.world[e] != map[] {
        var i :| 0 <= i < |w.ids| && w.ids[i] == e;
        assert BitSet.Readable(w.bitsets[i]);
      }
    }
  }

  /** A client whose bound entities, if any, are copies, and that handles the server's snapshot,
      has for each server entity a bound entity of its own with exactly the same game components
      and values; its bindings are injective and it has no other live entity. */
  lemma SnapshotRoundTrip(server: Registry<Val>, w: WorldInit, c: Client, animations: map<Val, Val>)
    requires Serving(server) && SnapshotOf(server, w) && Ready(c) && AlreadyCopied(server, c)
    requires forall e :: e in server.world && e !in c.serverToClient ==> server.world[e] != map[]
    ensures SnapshotReadable(c, w, animations, 0) && !WorldInitThrows(c, w, animations, 0)
    ensures var c' := HandleWorldInit(c, w, animations, 0);
            && Ready(c') && c'.serverToClient.Keys == server.world.Keys
            && forall e :: e in server.world ==> Copied(server, e, c')
  {
    SnapshotReadableIff(server, w, c, animations);
    EntriesCopied(server, w, c, animations, 0);
    WorldInitEffect(c, w, animations, 0);
    var c' := HandleWorldInit(c, w, animations, 0);
    forall a ensures a in c'.serverToClient <==> a in c.serverToClient || Names(w, 0, a) {
      WorldInitBinds(c, w, animations, 0, a);
    }
    hide Ready;
    hide HandleWorldInit;
    hide WorldInitThrows;
    hide SnapshotReadable;
    AllCopied(server, w, c, c');
  }

  lemma AllCopied(server: Registry<Val>, w: WorldInit, c: Client, c': Client)
    requires Serving(server) && SnapshotOf(server, w) && AlreadyCopied(server, c) && Extends(c, c')
    requires CopiedFrom(server, w, 0, c.serverToClient.Keys, c')
    requires forall a :: a in c'.serverToClient <==> a in c.serverToClient || Names(w, 0, a)
    ensures forall e :: e in server.world ==> Copied(server, e, c')
    ensures c'.serverToClient.Keys == server.world.Keys
  {
    hide EntryOf;
    hide GameTypes;
    hide Sound;
    hide Listed;
    hide TypedWorld;
    forall e | e in server.world ensures Copied(server, e, c') {
      if e in c.serverToClient {
        CopiedExtends(server, e, c, c');
      } else {
        var i :| 0 <= i < |w.ids| && w.ids[i] == e;
      }
    }
    forall a | a in c'.serverToClient ensures a in server.world {
      if a in c.serverToClient {
        assert Copied(server, a, c);
      } else {
        var j :| 0 <= j < |w.bitsets| && j < |w.ids| && w.ids[j] == a;
        assert w.ids[j] in w.ids;
      }
    }
  }

  /** Handling the same snapshot again changes no binding and no entity. */
  lemma {:induction false} SnapshotAgain(w: WorldInit, c: Client, animations: map<Val, Val>, i: nat)
    requires Parallel(w) && forall j :: i <= j < |w.bitsets| ==> w.ids[j] in c.serverToClient
    ensures SnapshotReadable(c, w, animations, i) && !WorldInitThrows(c, w, animations, i)
    ensures HandleWorldInit(c, w, animations, i) == c
    decreases |w.bitsets| - i
  {
    hide Respawn;
    if i < |w.bitsets| {
      assert HandleSpawn(c, Entry(w, i), animations) == c && !SpawnThrows(c, Entry(w, i), animations);
      SnapshotAgain(w, c, animations, i + 1);
    }
  }

  // ---- On the wire ----

  const WORLD_INIT_TYPE: Ty :=
    Struct([Prim(1), SeqOf(SeqOf(Prim(8))), SeqOf(Prim(8)), SeqOf(SeqOf(Prim(1)))])

  function NatVals(ns: seq<nat>): (vs: seq<Val>)
    ensures |vs| == |ns| && forall k :: 0 <= k < |ns| ==> vs[k] == Num(ns[k])
  {
    if ns == [] then [] else NatVals(ns[..|ns| - 1]) + [Num(ns[|ns| - 1])]
  }

  function ListVals(ls: seq<seq<nat>>): (vs: seq<Val>)
    ensures |vs| == |ls| && forall k :: 0 <= k < |ls| ==> vs[k] == List(NatVals(ls[k]))
  {
    if ls == [] then [] else ListVals(ls[..|ls| - 1]) + [List(NatVals(ls[|ls| - 1]))]
  }

  function WorldInitVal(w: WorldInit): Val {
    Record([Num(w.state), List(ListVals(w.bitsets)), List(NatVals(w.ids)), List(ListVals(w.entities))])
  }

  lemma NatValsInjective(a: seq<nat>, b: seq<nat>)
    requires NatVals(a) == NatVals(b)
    ensures a == b
  {
    forall k | 0 <= k < |a| ensures k < |b| && a[k] == b[k] {
      assert NatVals(a)[k] == Num(a[k]) && NatVals(b)[k] == Num(b[k]);
    }
  }

  lemma ListValsInjective(a: seq<seq<nat>>, b: seq<seq<nat>>)
    requires ListVals(a) == ListVals(b)
    ensures a == b
  {
    forall k | 0 <= k < |a| ensures k < |b| && a[k] == b[k] {
      assert ListVals(a)[k] == List(NatVals(a[k])) && ListVals(b)[k] == List(NatVals(b[k]));
      NatValsInjective(a[k], b[k]);
    }
  }

  lemma WorldInitValInjective(w: WorldInit, w': WorldInit)
    requires WorldInitVal(w) == WorldInitVal(w')
    ensures w == w'
  {
    ListValsInjective(w.bitsets, w'.bitsets);
    NatValsInjective(w.ids, w'.ids);
    ListValsInjective(w.entities, w'.entities);
    assert WorldInitVal(w).fields[0] == WorldInitVal(w').fields[0];
  }

  predicate ShortSnapshot(w: WorldInit) {
    && |w.bitsets| <= MAX_COUNT && |w.ids| <= MAX_COUNT && |w.entities| <= MAX_COUNT
    && (forall i :: 0 <= i < |w.bitsets| ==> |w.bitsets[i]| <= MAX_COUNT)
    && (forall i :: 0 <= i < |w.entities| ==> |w.entities[i]| <= MAX_COUNT)
  }

  lemma ListsShort(ls: seq<seq<nat>>)
    ensures ShortLists(List(ListVals(ls))) <==>
            |ls| <= MAX_COUNT && forall i :: 0 <= i < |ls| ==> |ls[i]| <= MAX_COUNT
    ensures ShortStrings(List(ListVals(ls)))
  {
    hide NatVals;
    forall i | 0 <= i < |ls|
      ensures ShortLists(ListVals(ls)[i]) <==> |ls[i]| <= MAX_COUNT
      ensures ShortStrings(ListVals(ls)[i])
    {
      assert ListVals(ls)[i] == List(NatVals(ls[i]));
      IdsShort(ls[i]);
    }
    hide ListVals;
  }

  /** A snapshot can be written exactly when its counts fit their prefixes, and then the client
      reads the packet that was written and nothing else. */
  lemma WireRoundTrip(w: WorldInit, rest: Bytes)
    requires HasType(WorldInitVal(w), WORLD_INIT_TYPE)
    ensures Encode(WorldInitVal(w), WORLD_INIT_TYPE).Some? <==> ShortSnapshot(w)
    ensures ShortSnapshot(w) ==>
              Decode(WORLD_INIT_TYPE, Encode(WorldInitVal(w), WORLD_INIT_TYPE).value + rest)
              == Got(WorldInitVal(w), rest)
  {
    var v := WorldInitVal(w);
    SnapshotShort(w);
    hide *;
    EncodesIffShortLists(v, WORLD_INIT_TYPE);
    ExactRoundTrip(v, WORLD_INIT_TYPE, rest);
  }

  lemma SnapshotShort(w: WorldInit)
    ensures ShortLists(WorldInitVal(w)) <==> ShortSnapshot(w)
    ensures ShortStrings(WorldInitVal(w))
  {
    var v := WorldInitVal(w);
    ListsShort(w.bitsets);
    ListsShort(w.entities);
    IdsShort(w.ids);
    hide ListVals;
    hide NatVals;
    assert ShortLists(v) <==> ShortLists(v.fields[1]) && ShortLists(v.fields[2]) && ShortLists(v.fields[3]);
    assert ShortStrings(v);
  }

  lemma IdsShort(ns: seq<nat>)
    ensures ShortLists(List(NatVals(ns))) <==> |ns| <= MAX_COUNT
    ensures ShortStrings(List(NatVals(ns)))
  {
    var vs := NatVals(ns);
    hide NatVals;
    forall k | 0 <= k < |vs| ensures ShortLists(vs[k]) && ShortStrings(vs[k]) {
      assert vs[k] == Num(ns[k]);
    }
  }

  /** The bytes of the snapshot packet read as this one, with none left over. */
  ghost predicate ReadsAs(w: WorldInit, received: WorldInit) {
    && HasType(WorldInitVal(w), WORLD_INIT_TYPE) && Encode(WorldInitVal(w), WORLD_INIT_TYPE).Some?
    && Decode(WORLD_INIT_TYPE, Encode(WorldInitVal(w), WORLD_INIT_TYPE).value + []) == Got(WorldInitVal(received), [])
  }

  /** Handling it runs to its end and leaves a copy of every entity of the server, and no other. */
  ghost predicate Joins(server: Registry<Val>, received: WorldInit, c: Client, animations: map<Val, Val>) {
    && Parallel(received) && SnapshotReadable(c, received, animations, 0)
    && !WorldInitThrows(c, received, animations, 0)
    && var c' := HandleWorldInit(c, received, animations, 0);
       && Ready(c') && c'.serverToClient.Keys == server.world.Keys
       && forall e :: e in server.world ==> Copied(server, e, c')
  }

  /** From the server's entities to the client's, over the bytes of the packet: they read as one
      snapshot, and the client that handles it has joined. */
  lemma JoinRoundTrip(server: Registry<Val>, w: WorldInit, c: Client, animations: map<Val, Val>)
    requires Serving(server) && SnapshotOf(server, w) && Ready(c) && AlreadyCopied(server, c)
    requires forall e :: e in server.world && e !in c.serverToClient ==> server.world[e] != map[]
    requires HasType(WorldInitVal(w), WORLD_INIT_TYPE) && ShortSnapshot(w)
    ensures exists received :: ReadsAs(w, received)
    ensures forall received :: ReadsAs(w, received) ==> Joins(server, received, c, animations)
  {
    SnapshotJoins(server, w, c, animations);
    hide *;
    ReadsAsSent(w);
    forall received | ReadsAs(w, received) ensures Joins(server, received, c, animations) {
      ReadsOnce(w, w, received);
    }
  }

  lemma SnapshotJoins(server: Registry<Val>, w: WorldInit, c: Client, animations: map<Val, Val>)
    requires Serving(server) && SnapshotOf(server, w) && Ready(c) && AlreadyCopied(server, c)
    requires forall e :: e in server.world && e !in c.serverToClient ==> server.world[e] != map[]
    ensures Joins(server, w, c, animations)
  {
    hide Serving;
    hide Ready;
    hide Copied;
    hide WorldInitThrows;
    hide SnapshotReadable;
    hide HandleWorldInit;
    SnapshotRoundTrip(server, w, c, animations);
  }

  lemma ReadsAsSent(w: WorldInit)
    requires HasType(WorldInitVal(w), WORLD_INIT_TYPE) && ShortSnapshot(w)
    ensures ReadsAs(w, w)
  {
    WireRoundTrip(w, []);
    hide WorldInitVal;
    hide HasType;
    hide Decode;
    hide Encode;
    hide ShortSnapshot;
  }

  lemma ReadsOnce(w: WorldInit, received: WorldInit, received': WorldInit)
    requires ReadsAs(w, received) && ReadsAs(w, received')
    ensures received == received'
  {
    hide WorldInitVal;
    hide Decode;
    hide Encode;
    WorldInitValInjective(received, received');
  }
}

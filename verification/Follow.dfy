/** A whole run of the server, the packets it announces, and clients that handle them: all in
    the order sent, or any of them in any order. */
module Follow {
  import opened Codec
  import opened EcsSpec
  import opened Snapshot
  import opened Replica
  import opened Join
  import BitSet

  // ---- The server ----

  predicate TypedInstances(instances: seq<(nat, Val)>) {
    forall k :: 0 <= k < |instances| && instances[k].0 < GAME_COUNT ==>
      HasType(instances[k].1, GameTypes()[instances[k].0])
  }

  datatype Step =
    | Enter(instances: seq<(nat, Val)>, p: Spawn)
    | Leave(e: nat)
    | Change(e: nat, c: nat, v: Val)
    | Announce(w: WorldInit)

  /** The packet of a step is the one the server builds; only ids handed out are destroyed. */
  ghost predicate Faithful(server: Registry<Val>, step: Step) {
    && Serving(server)
    && match step
       case Enter(instances, p) =>
         var server' := RegisterEntity(server, instances);
         && TypedInstances(instances) && AnyRegistered(server, instances)
         && p.id == server.next && TypedWorld(server') && EntryOf(server', p)
       case Leave(e) => e < server.next
       case Change(e, c, v) => TypedInstances([(c, v)])
       case Announce(w) => SnapshotOf(server, w)
  }

  function Serve(server: Registry<Val>, step: Step): Registry<Val> {
    match step
    case Enter(instances, _) => RegisterEntity(server, instances)
    case Leave(e) => Destroy(server, e)
    case Change(e, c, v) => Update(server, e, c, v)
    case Announce(_) => server
  }

  function Packets(step: Step): seq<Event> {
    match step
    case Enter(_, p) => [OnSpawn(p)]
    case Leave(e) => [OnDestroy(e)]
    case Change(_, _, _) => []
    case Announce(w) => [OnWorldInit(w)]
  }

  function ChangedBy(step: Step): set<nat> {
    if step.Change? then {step.e} else {}
  }

  function Served(server: Registry<Val>, steps: seq<Step>): Registry<Val>
    decreases |steps|
  {
    if steps == [] then server else Serve(Served(server, steps[..|steps| - 1]), steps[|steps| - 1])
  }

  function Sent(steps: seq<Step>): seq<Event> {
    if steps == [] then [] else Sent(steps[..|steps| - 1]) + Packets(steps[|steps| - 1])
  }

  function Changed(steps: seq<Step>): set<nat> {
    if steps == [] then {} else Changed(steps[..|steps| - 1]) + ChangedBy(steps[|steps| - 1])
  }

  ghost predicate AllFaithful(server: Registry<Val>, steps: seq<Step>)
    decreases |steps|
  {
    steps != [] ==>
      var before := steps[..|steps| - 1];
      AllFaithful(server, before) && Faithful(Served(server, before), steps[|steps| - 1])
  }

  /** No entity is without components. */
  ghost predicate NoneBare(server: Registry<Val>) {
    forall e :: e in server.world ==> server.world[e] != map[]
  }

  lemma {:induction false} InsertAllTyped(r: Registry<Val>, e: nat, instances: seq<(nat, Val)>)
    requires TypedWorld(r) && TypedInstances(instances)
    ensures TypedWorld(InsertAll(r, e, instances))
    ensures OnlyRow(r, e, InsertAll(r, e, instances))
    decreases |instances|
  {
    hide GameTypes;
    if instances == [] {
      SameRegistry(r, e);
    } else {
      var r' := Insert(r, e, instances[0].0, instances[0].1);
      InsertOnlyRow(r, e, instances[0].0, instances[0].1);
      assert TypedWorld(r');
      InsertAllTyped(r', e, instances[1..]);
      OnlyRowTwice(r, e, r', InsertAll(r, e, instances));
    }
  }

  lemma {:induction false} InsertAllFills(r: Registry<Val>, e: nat, instances: seq<(nat, Val)>)
    requires e in r.world && (r.world[e] != map[] || AnyRegistered(r, instances))
    ensures e in InsertAll(r, e, instances).world && InsertAll(r, e, instances).world[e] != map[]
    decreases |instances|
  {
    if instances != [] {
      var c, v := instances[0].0, instances[0].1;
      var r' := Insert(r, e, c, v);
      if c in r.position {
        assert c in r'.world[e];
      } else if r.world[e] == map[] {
        var i :| 0 <= i < |instances| && instances[i].0 in r.position;
        assert instances[1..][i - 1] == instances[i];
      }
      InsertAllFills(r', e, instances[1..]);
    }
  }

  lemma EnterServes(server: Registry<Val>, instances: seq<(nat, Val)>)
    requires Serving(server) && TypedInstances(instances) && AnyRegistered(server, instances)
    ensures var server' := RegisterEntity(server, instances);
            && Serving(server') && server'.world.Keys == server.world.Keys + {server.next}
            && server.next !in server.world
            && server'.next == server.next + 1 && server'.world[server.next] != map[]
            && forall e :: e in server.world ==> server'.world[e] == server.world[e]
  {
    PreRegisterSound(server);
    InsertAllTyped(PreRegister(server), server.next, instances);
    InsertAllFills(PreRegister(server), server.next, instances);
    hide GameTypes;
    NewRow(server, RegisterEntity(server, instances));
  }

  lemma DestroyServes(server: Registry<Val>, e: nat)
    requires Serving(server)
    ensures Serving(Destroy(server, e))
  {
    hide GameTypes;
    hide RowTyped;
  }

  lemma UpdateServes(server: Registry<Val>, e: nat, c: nat, v: Val)
    requires Serving(server) && TypedInstances([(c, v)])
    ensures Serving(Update(server, e, c, v))
    ensures Update(server, e, c, v).world.Keys == server.world.Keys
    ensures forall x :: x in server.world && x != e ==> Update(server, e, c, v).world[x] == server.world[x]
  {
    hide GameTypes;
    if CanUpdate(server, e, c) {
      assert Update(server, e, c, v) == Insert(server, e, c, v);
      InsertOnlyRow(server, e, c, v);
      assert [(c, v)][0] == (c, v);
      RowStaysTyped(server.world[e], c, v);
      hide RowTyped;
    }
  }

  lemma RowStaysTyped(row: Row, c: nat, v: Val)
    requires RowTyped(row, GameTypes()) && (c < GAME_COUNT ==> HasType(v, GameTypes()[c]))
    ensures RowTyped(WithComponent(row, c, v), GameTypes())
  {
    hide GameTypes;
  }

  /** The entities that stay, and were not changed, keep their rows. */
  ghost predicate SameRows(origin: Registry<Val>, server: Registry<Val>, changed: set<nat>) {
    && origin.next <= server.next
    && forall e :: e in origin.world && e in server.world && e !in changed ==> origin.world[e] == server.world[e]
  }

  /** What one step of the server keeps and what it leaves of earlier rows. */
  lemma ServeKeeps(server: Registry<Val>, step: Step)
    requires Faithful(server, step) && NoneBare(server)
    ensures Serving(Serve(server, step)) && NoneBare(Serve(server, step))
    ensures SameRows(server, Serve(server, step), ChangedBy(step))
    ensures Serve(server, step).world.Keys <= server.world.Keys + if step.Enter? then {server.next} else {}
  {
    match step
    case Enter(instances, p) =>
      EnterServes(server, instances);
      hide RegisterEntity;
      hide Serving;
    case Leave(e) =>
      DestroyServes(server, e);
      hide Serving;
    case Change(e, c, v) =>
      UpdateServes(server, e, c, v);
      UpdateFilled(server, e, c, v);
      hide Serving;
      hide Update;
    case Announce(w) =>
  }

  lemma UpdateFilled(server: Registry<Val>, e: nat, c: nat, v: Val)
    requires NoneBare(server)
    ensures NoneBare(Update(server, e, c, v)) && Update(server, e, c, v).next == server.next
  {
    if CanUpdate(server, e, c) {
      assert c in Update(server, e, c, v).world[e];
    }
  }

  lemma SameRowsTwice(origin: Registry<Val>, mid: Registry<Val>, server: Registry<Val>, a: set<nat>, b: set<nat>,
                      added: set<nat>)
    requires Sound(origin) && SameRows(origin, mid, a) && SameRows(mid, server, b)
    requires server.world.Keys <= mid.world.Keys + added && forall e :: e in added ==> e >= mid.next
    ensures SameRows(origin, server, a + b)
  {
    forall e | e in origin.world && e in server.world && e !in a + b ensures origin.world[e] == server.world[e] {
      assert e < origin.next;
      assert e in mid.world;
    }
  }

  // ---- In the order sent ----

  /** `changed` collects the entities the server has updated since it announced them. */
  datatype State = State(server: Registry<Val>, client: Client, changed: set<nat>)

  ghost predicate InStep(s: State) {
    && Serving(s.server) && NoneBare(s.server) && Ready(s.client)
    && s.client.serverToClient.Keys == s.server.world.Keys
    && forall e :: e in s.server.world && e !in s.changed ==> Copied(s.server, e, s.client)
  }

  lemma IsInStep(s: State)
    requires Serving(s.server) && NoneBare(s.server) && Ready(s.client)
    requires s.client.serverToClient.Keys == s.server.world.Keys
    requires forall e :: e in s.server.world && e !in s.changed ==> Copied(s.server, e, s.client)
    ensures InStep(s)
  {
  }

  /** Only the server's row of that entity matters to a copy. */
  lemma CopiedSameRow(server: Registry<Val>, server': Registry<Val>, e: nat, c: Client)
    requires Copied(server, e, c) && e in server'.world && server'.world[e] == server.world[e]
    ensures Copied(server', e, c)
  {
  }

  /** Injective bindings keep the other copies when one entity goes. */
  lemma DestroyCopied(server: Registry<Val>, c: Client, e: nat, x: nat)
    requires Bijective(c) && Copied(server, x, c) && x != e
    ensures Copied(server, x, HandleDestroy(c, e))
  {
    hide ListRow;
  }

  predicate StepHandled(c: Client, step: Step, animations: map<Val, Val>) {
    Packets(step) == [] || Handled(c, Packets(step)[0], animations)
  }

  function ClientNext(c: Client, step: Step, animations: map<Val, Val>): Client
    requires StepHandled(c, step, animations)
  {
    if Packets(step) == [] then c else Handle(c, Packets(step)[0], animations)
  }

  lemma EntryReadable(server: Registry<Val>, p: Spawn)
    requires Serving(server) && NoneBare(server) && EntryOf(server, p)
    ensures BitSet.Readable(p.bitmask)
  {
    ReadableIffNotEmpty(server, p.id, p.bitmask);
  }

  lemma EnterInStep(s: State, instances: seq<(nat, Val)>, p: Spawn, animations: map<Val, Val>)
    requires InStep(s) && Faithful(s.server, Enter(instances, p))
    ensures SpawnReadable(s.client, p)
    ensures InStep(State(RegisterEntity(s.server, instances), HandleSpawn(s.client, p, animations), s.changed))
  {
    var server' := RegisterEntity(s.server, instances);
    ServeKeeps(s.server, Enter(instances, p));
    EnterServes(s.server, instances);
    EntryReadable(server', p);
    SpawnEffect(s.client, p, animations);
    SpawnCopies(server', p, s.client, animations);
    var s' := State(server', HandleSpawn(s.client, p, animations), s.changed);
    hide HandleSpawn;
    hide RegisterEntity;
    forall e | e in s'.server.world && e !in s'.changed ensures Copied(s'.server, e, s'.client) {
      if e != p.id {
        CopiedExtends(s.server, e, s.client, s'.client);
        CopiedSameRow(s.server, s'.server, e, s'.client);
      }
    }
    hide *;
    IsInStep(s');
  }

  lemma LeaveInStep(s: State, e: nat, animations: map<Val, Val>)
    requires InStep(s) && Faithful(s.server, Leave(e))
    ensures InStep(State(Destroy(s.server, e), HandleDestroy(s.client, e), s.changed))
  {
    var s' := State(Destroy(s.server, e), HandleDestroy(s.client, e), s.changed);
    ServeKeeps(s.server, Leave(e));
    DestroyEffect(s.client, e);
    hide Serving;
    hide NoneBare;
    forall x | x in s'.server.world && x !in s'.changed ensures Copied(s'.server, x, s'.client) {
      DestroyCopied(s.server, s.client, e, x);
      CopiedSameRow(s.server, s'.server, x, s'.client);
    }
    hide *;
    IsInStep(s');
  }

  lemma ChangeInStep(s: State, e: nat, c: nat, v: Val)
    requires InStep(s) && Faithful(s.server, Change(e, c, v))
    ensures InStep(State(Update(s.server, e, c, v), s.client, s.changed + {e}))
  {
    var s' := State(Update(s.server, e, c, v), s.client, s.changed + {e});
    ServeKeeps(s.server, Change(e, c, v));
    UpdateServes(s.server, e, c, v);
    hide Serving;
    hide NoneBare;
    hide Update;
    forall x | x in s'.server.world && x !in s'.changed ensures Copied(s'.server, x, s'.client) {
      CopiedSameRow(s.server, s'.server, x, s.client);
    }
    hide *;
    IsInStep(s');
  }

  /** A snapshot announced to a client that is in step finds nothing to do. */
  lemma AnnounceInStep(s: State, w: WorldInit, animations: map<Val, Val>)
    requires InStep(s) && Faithful(s.server, Announce(w))
    ensures Parallel(w) && SnapshotReadable(s.client, w, animations, 0)
    ensures HandleWorldInit(s.client, w, animations, 0) == s.client
  {
    hide GameTypes;
    hide EntryOf;
    hide HandleWorldInit;
    hide SnapshotReadable;
    forall j | 0 <= j < |w.bitsets| ensures w.ids[j] in s.client.serverToClient {
      assert w.ids[j] in w.ids;
    }
    SnapshotAgain(w, s.client, animations, 0);
  }

  lemma StepInStep(s: State, step: Step, animations: map<Val, Val>)
    requires InStep(s) && Faithful(s.server, step)
    ensures StepHandled(s.client, step, animations)
    ensures InStep(State(Serve(s.server, step), ClientNext(s.client, step, animations), s.changed + ChangedBy(step)))
  {
    assert s.changed + {} == s.changed;
    hide InStep;
    hide Faithful;
    match step
    case Enter(instances, p) => EnterInStep(s, instances, p, animations);
    case Leave(e) => LeaveInStep(s, e, animations);
    case Change(e, c, v) => ChangeInStep(s, e, c, v);
    case Announce(w) => AnnounceInStep(s, w, animations);
  }

  /** A new server and a new client are in step. */
  lemma StartInStep()
    ensures InStep(State(RegisterList(EmptyRegistry(), Upto(BEHAVIOUR + 1)), NewClient(), {}))
  {
    var types := GameTypes() + [Prim(0)];
    FreshlyListed(types);
    NewClientReady();
    var server := RegisterList(EmptyRegistry(), Upto(BEHAVIOUR + 1));
    assert |types| == BEHAVIOUR + 1;
    assert NewClient().serverToClient.Keys == server.world.Keys;
    hide RegisterList;
    hide GameTypes;
    forall i | 0 <= i <= BEHAVIOUR ensures i in server.position && server.position[i] == i + 1 {
      assert i in server.position;
    }
  }

  /** So are a server and a client that handled its snapshot, having bound copies before, such
      as its own player, or nothing. */
  lemma JoinedInStep(server: Registry<Val>, w: WorldInit, c: Client, animations: map<Val, Val>)
    requires Serving(server) && NoneBare(server) && SnapshotOf(server, w) && Ready(c) && AlreadyCopied(server, c)
    ensures SnapshotReadable(c, w, animations, 0)
    ensures InStep(State(server, HandleWorldInit(c, w, animations, 0), {}))
  {
    SnapshotRoundTrip(server, w, c, animations);
    hide *;
    IsInStep(State(server, HandleWorldInit(c, w, animations, 0), {}));
  }

  lemma RunMore(c: Client, events: seq<Event>, step: Step, animations: map<Val, Val>)
    requires AllHandled(c, events, animations) && StepHandled(RunClient(c, events, animations), step, animations)
    ensures AllHandled(c, events + Packets(step), animations)
    ensures RunClient(c, events + Packets(step), animations)
         == ClientNext(RunClient(c, events, animations), step, animations)
  {
    hide Handled;
    hide Handle;
    if Packets(step) == [] {
      assert events + Packets(step) == events;
    } else {
      assert (events + Packets(step))[..|events|] == events;
    }
  }

  /** However the server's entities come, change and go, a client that handles every packet in
      order has a binding for exactly the server's live entities, and copies every one that was
      not updated since. */
  lemma {:induction false} StaysInStep(s: State, steps: seq<Step>, animations: map<Val, Val>)
    requires InStep(s) && AllFaithful(s.server, steps)
    ensures AllHandled(s.client, Sent(steps), animations)
    ensures InStep(State(Served(s.server, steps), RunClient(s.client, Sent(steps), animations),
                         s.changed + Changed(steps)))
    decreases |steps|
  {
    hide InStep;
    hide Faithful;
    hide Packets;
    hide ChangedBy;
    hide Serve;
    if steps == [] {
      assert s.changed + Changed(steps) == s.changed;
    } else {
      var before, step := steps[..|steps| - 1], steps[|steps| - 1];
      StaysInStep(s, before, animations);
      var mid := State(Served(s.server, before), RunClient(s.client, Sent(before), animations),
                       s.changed + Changed(before));
      StepInStep(mid, step, animations);
      RunMore(s.client, Sent(before), step, animations);
      assert s.changed + Changed(steps) == mid.changed + ChangedBy(step);
    }
  }

  // ---- In any order ----

  /** The packet is one the server built when it was `origin`. */
  ghost predicate BuiltFrom(origin: Registry<Val>, ev: Event)
    requires TypedWorld(origin)
  {
    match ev
    case OnSpawn(p) => EntryOf(origin, p)
    case OnWorldInit(w) => SnapshotOf(origin, w)
    case OnDestroy(_) => false
  }

  ghost predicate Origin(origin: Registry<Val>, ev: Event, server: Registry<Val>, changed: set<nat>) {
    Serving(origin) && NoneBare(origin) && BuiltFrom(origin, ev) && SameRows(origin, server, changed)
  }

  /** An earlier packet of the server. */
  ghost predicate Genuine(ev: Event, server: Registry<Val>, changed: set<nat>) {
    if ev.OnDestroy? then ev.id < server.next && ev.id !in server.world
    else exists origin :: Origin(origin, ev, server, changed)
  }

  lemma GenuineStays(ev: Event, server: Registry<Val>, changed: set<nat>, step: Step)
    requires Genuine(ev, server, changed) && Faithful(server, step) && NoneBare(server)
    ensures Genuine(ev, Serve(server, step), changed + ChangedBy(step))
  {
    hide Faithful;
    hide NoneBare;
    if ev.OnDestroy? {
      ServeKeeps(server, step);
      hide Serve;
    } else {
      var origin :| Origin(origin, ev, server, changed);
      hide Origin;
      OriginStays(origin, ev, server, changed, step);
    }
  }

  lemma OriginStays(origin: Registry<Val>, ev: Event, server: Registry<Val>, changed: set<nat>, step: Step)
    requires Origin(origin, ev, server, changed) && Faithful(server, step) && NoneBare(server)
    ensures Origin(origin, ev, Serve(server, step), changed + ChangedBy(step))
  {
    ServeKeeps(server, step);
    hide Serve;
    hide Faithful;
    hide NoneBare;
    hide BuiltFrom;
    hide SameRows;
    SameRowsTwice(origin, server, Serve(server, step), changed, ChangedBy(step),
                  if step.Enter? then {server.next} else {});
  }

  lemma PacketGenuine(server: Registry<Val>, step: Step, changed: set<nat>)
    requires Faithful(server, step) && NoneBare(server)
    ensures forall ev :: ev in Packets(step) ==> Genuine(ev, Serve(server, step), changed + ChangedBy(step))
  {
    ServeKeeps(server, step);
    match step
    case Enter(instances, p) =>
      hide Serving;
      hide RegisterEntity;
      assert Origin(Serve(server, step), OnSpawn(p), Serve(server, step), changed + ChangedBy(step));
    case Leave(e) =>
    case Change(_, _, _) =>
    case Announce(w) =>
      hide Serving;
      assert Origin(server, OnWorldInit(w), server, changed + ChangedBy(step));
  }

  lemma {:induction false} SentGenuine(server: Registry<Val>, steps: seq<Step>, changed: set<nat>)
    requires Serving(server) && NoneBare(server) && AllFaithful(server, steps)
    ensures Serving(Served(server, steps)) && NoneBare(Served(server, steps))
    ensures SameRows(server, Served(server, steps), changed + Changed(steps))
    ensures forall ev :: ev in Sent(steps) ==> Genuine(ev, Served(server, steps), changed + Changed(steps))
    decreases |steps|
  {
    hide NoneBare;
    hide Genuine;
    hide Faithful;
    hide Serve;
    hide Packets;
    hide ChangedBy;
    if steps != [] {
      var before, step := steps[..|steps| - 1], steps[|steps| - 1];
      var mid, soFar := Served(server, before), changed + Changed(before);
      SentGenuine(server, before, changed);
      ServeKeeps(mid, step);
      SameRowsTwice(server, mid, Serve(mid, step), soFar, ChangedBy(step), if step.Enter? then {mid.next} else {});
      PacketGenuine(mid, step, soFar);
      assert changed + Changed(steps) == soFar + ChangedBy(step);
      hide Serving;
      hide SameRows;
      forall ev | ev in Sent(steps) ensures Genuine(ev, Served(server, steps), changed + Changed(steps)) {
        if ev in Sent(before) {
          GenuineStays(ev, mid, soFar, step);
        }
      }
    }
  }

  /** What the client has bound of the final server's unchanged entities are copies. */
  ghost predicate Tracks(c: Client, server: Registry<Val>, changed: set<nat>) {
    && Ready(c)
    && forall a :: a in c.serverToClient && a in server.world && a !in changed ==> Copied(server, a, c)
  }

  lemma SpawnTracks(c: Client, p: Spawn, server: Registry<Val>, changed: set<nat>, animations: map<Val, Val>)
    requires Tracks(c, server, changed) && Genuine(OnSpawn(p), server, changed)
    ensures SpawnReadable(c, p) && Tracks(HandleSpawn(c, p, animations), server, changed)
  {
    var origin :| Origin(origin, OnSpawn(p), server, changed);
    EntryReadable(origin, p);
    SpawnEffect(c, p, animations);
    SpawnCopies(origin, p, c, animations);
    var c' := HandleSpawn(c, p, animations);
    hide HandleSpawn;
    hide Serving;
    forall a | a in c'.serverToClient && a in server.world && a !in changed ensures Copied(server, a, c') {
      if a in c.serverToClient {
        CopiedExtends(server, a, c, c');
      } else {
        CopiedSameRow(origin, server, a, c');
      }
    }
  }

  lemma SnapshotTracks(c: Client, w: WorldInit, server: Registry<Val>, changed: set<nat>, animations: map<Val, Val>)
    requires Tracks(c, server, changed) && Genuine(OnWorldInit(w), server, changed)
    ensures Parallel(w) && SnapshotReadable(c, w, animations, 0) && !WorldInitThrows(c, w, animations, 0)
    ensures Tracks(HandleWorldInit(c, w, animations, 0), server, changed)
  {
    var origin :| Origin(origin, OnWorldInit(w), server, changed);
    SnapshotReadableIff(origin, w, c, animations);
    EntriesCopied(origin, w, c, animations, 0);
    WorldInitEffect(c, w, animations, 0);
    var c' := HandleWorldInit(c, w, animations, 0);
    forall a | a in c'.serverToClient && a in server.world && a !in changed ensures Copied(server, a, c') {
      WorldInitBinds(c, w, animations, 0, a);
      hide HandleWorldInit;
      if a in c.serverToClient {
        CopiedExtends(server, a, c, c');
      } else {
        var j :| 0 <= j < |w.bitsets| && j < |w.ids| && w.ids[j] == a;
        assert Copied(origin, w.ids[j], c');
        CopiedSameRow(origin, server, a, c');
      }
    }
  }

  lemma EventTracks(c: Client, ev: Event, server: Registry<Val>, changed: set<nat>, animations: map<Val, Val>)
    requires Tracks(c, server, changed) && Genuine(ev, server, changed)
    ensures Handled(c, ev, animations) && !Stops(c, ev, animations)
    ensures Tracks(Handle(c, ev, animations), server, changed)
  {
    match ev
    case OnSpawn(p) =>
      SpawnTracks(c, p, server, changed, animations);
    case OnWorldInit(w) =>
      SnapshotTracks(c, w, server, changed, animations);
    case OnDestroy(id) =>
      DestroyEffect(c, id);
      var c' := HandleDestroy(c, id);
      forall a | a in c'.serverToClient && a in server.world && a !in changed ensures Copied(server, a, c') {
        DestroyCopied(server, c, id, a);
      }
  }

  lemma {:induction false} RunTracks(c: Client, events: seq<Event>, server: Registry<Val>, changed: set<nat>,
                                     animations: map<Val, Val>)
    requires Tracks(c, server, changed) && forall i :: 0 <= i < |events| ==> Genuine(events[i], server, changed)
    ensures AllHandled(c, events, animations) && NoneStops(c, events, animations)
    ensures Tracks(RunClient(c, events, animations), server, changed)
    decreases |events|
  {
    hide Tracks;
    hide Genuine;
    hide Handled;
    hide Handle;
    hide Stops;
    if events != [] {
      var before := events[..|events| - 1];
      RunTracks(c, before, server, changed, animations);
      EventTracks(RunClient(c, before, animations), events[|events| - 1], server, changed, animations);
    }
  }

  /** Every live id was bound before or by some packet, and every dead one was destroyed, after
      each packet that bound it. */
  ghost predicate CaughtUp(bound: set<nat>, events: seq<Event>, live: set<nat>) {
    && (forall id :: id in live ==> id in bound || exists i :: 0 <= i < |events| && Binds(events[i], id))
    && (forall i, id :: 0 <= i < |events| && Binds(events[i], id) && id !in live ==> !NotDestroyed(events, i + 1, id))
    && (forall id :: id in bound && id !in live ==> !NotDestroyed(events, 0, id))
  }

  lemma CaughtUpIff(bound: set<nat>, events: seq<Event>, live: set<nat>, now: set<nat>)
    requires forall id :: id in now <==> LastBinds(events, id) || (id in bound && NotDestroyed(events, 0, id))
    requires forall id :: OnDestroy(id) in events ==> id !in live
    ensures now == live <==> CaughtUp(bound, events, live)
  {
    hide Binds;
    forall id, i: nat | id in live ensures NotDestroyed(events, i, id) {
      forall j | i <= j < |events| ensures events[j] != OnDestroy(id) {
        assert events[j] in events;
      }
    }
    hide NotDestroyed;
    if CaughtUp(bound, events, live) {
      forall id ensures id in now <==> id in live {
      }
    }
    if now == live {
      forall i, id | 0 <= i < |events| && Binds(events[i], id) && id !in live
        ensures !NotDestroyed(events, i + 1, id)
      {
        assert NotDestroyed(events, i + 1, id) ==> LastBinds(events, id);
      }
    }
  }

  /** A client that handles any packets of the server's run, in any order, any number of times,
      has bindings for exactly the server's live entities if and only if it has caught up. In
      any case what it has bound are copies of the entities that were not updated. */
  lemma FollowsIff(s: State, steps: seq<Step>, events: seq<Event>, animations: map<Val, Val>)
    requires InStep(s) && AllFaithful(s.server, steps)
    requires forall i :: 0 <= i < |events| ==> events[i] in Sent(steps)
    ensures AllHandled(s.client, events, animations)
    ensures var server, c := Served(s.server, steps), RunClient(s.client, events, animations);
            && (c.serverToClient.Keys == server.world.Keys
                <==> CaughtUp(s.client.serverToClient.Keys, events, server.world.Keys))
            && forall e :: e in server.world && e in c.serverToClient && e !in s.changed + Changed(steps) ==>
                 Copied(server, e, c)
  {
    var server, changed := Served(s.server, steps), s.changed + Changed(steps);
    SentGenuine(s.server, steps, s.changed);
    hide Serving;
    hide NoneBare;
    hide AllFaithful;
    hide Served;
    StartTracks(s, server, changed);
    RunTracks(s.client, events, server, changed, animations);
    var c := RunClient(s.client, events, animations);
    forall id
      ensures id in c.serverToClient
         <==> LastBinds(events, id) || (id in s.client.serverToClient && NotDestroyed(events, 0, id))
    {
      BoundIff(s.client, events, animations, id);
    }
    forall id | OnDestroy(id) in events ensures id !in server.world {
      assert Genuine(OnDestroy(id), server, changed);
    }
    hide Genuine;
    CaughtUpIff(s.client.serverToClient.Keys, events, server.world.Keys, c.serverToClient.Keys);
  }

  lemma StartTracks(s: State, server: Registry<Val>, changed: set<nat>)
    requires InStep(s) && SameRows(s.server, server, changed) && s.changed <= changed
    ensures Tracks(s.client, server, changed)
  {
    hide Serving;
    hide NoneBare;
    var c := s.client;
    forall a | a in c.serverToClient && a in server.world && a !in changed ensures Copied(server, a, c) {
      CopiedSameRow(s.server, server, a, c);
    }
  }

  /** Handled before the Spawn it follows, a Destroy is lost, and the client keeps an entity the
      server no longer has. */
  lemma DestroyOvertakesSpawn(c: Client, p: Spawn, animations: map<Val, Val>)
    requires p.id !in c.serverToClient && BitSet.Readable(p.bitmask)
    ensures p.id in HandleSpawn(HandleDestroy(c, p.id), p, animations).serverToClient
    ensures p.id !in HandleDestroy(HandleSpawn(c, p, animations), p.id).serverToClient
  {
    hide BitSet.Readable;
  }
}

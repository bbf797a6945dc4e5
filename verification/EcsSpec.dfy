/** What the entity-component registry promises, on values: which entities live, and which
    components each of them has. */
module EcsSpec {
  import opened Numbers
  import opened BitSet

  /** `position` is the mask bit of each registered component, `cursor` the last bit handed
      out and `next` the next entity id. */
  datatype Registry<V> = Registry(
    position: map<nat, nat>,
    cursor: nat,
    world: map<nat, map<nat, V>>,
    next: nat)

  function EmptyRegistry<V>(): Registry<V> {
    Registry(map[], 0, map[], 0)
  }

  /** A repeated registration still uses up a bit. */
  function RegisterComponent<V>(r: Registry<V>, c: nat): Registry<V> {
    var r' := r.(cursor := r.cursor + 1);
    if c in r.position then r' else r'.(position := r.position[c := r.cursor + 1])
  }

  function PreRegister<V>(r: Registry<V>): Registry<V> {
    r.(world := r.world[r.next := map[]], next := r.next + 1)
  }

  function WithComponent<V>(row: map<nat, V>, c: nat, v: V): map<nat, V> {
    row[c := v]
  }

  function Insert<V>(r: Registry<V>, e: nat, c: nat, v: V): Registry<V> {
    if e !in r.world || c !in r.position then r
    else r.(world := r.world[e := WithComponent(r.world[e], c, v)])
  }

  function InsertAll<V>(r: Registry<V>, e: nat, instances: seq<(nat, V)>): Registry<V>
    decreases |instances|
  {
    if instances == [] then r
    else InsertAll(Insert(r, e, instances[0].0, instances[0].1), e, instances[1..])
  }

  predicate AnyRegistered<V>(r: Registry<V>, instances: seq<(nat, V)>) {
    exists i :: 0 <= i < |instances| && instances[i].0 in r.position
  }

  /** Rejected, without using an id, when none of the components is registered. */
  function RegisterEntity<V>(r: Registry<V>, instances: seq<(nat, V)>): Registry<V> {
    if !AnyRegistered(r, instances) then r
    else InsertAll(PreRegister(r), r.next, instances)
  }

  predicate CanUpdate<V>(r: Registry<V>, e: nat, c: nat) {
    e in r.world && c in r.world[e]
  }

  function Lookup<V>(r: Registry<V>, e: nat, c: nat): Option<V> {
    if CanUpdate(r, e, c) then Some(r.world[e][c]) else None
  }

  function Update<V>(r: Registry<V>, e: nat, c: nat, v: V): Registry<V> {
    if CanUpdate(r, e, c) then r.(world := r.world[e := WithComponent(r.world[e], c, v)]) else r
  }

  function Destroy<V>(r: Registry<V>, e: nat): Registry<V> {
    r.(world := r.world - {e})
  }

  // ---- Runs ----

  datatype Op<V> =
    | OpComponent(c: nat)
    | OpPreRegister
    | OpEntity(instances: seq<(nat, V)>)
    | OpAdd(e: nat, c: nat, v: V)
    | OpUpdate(e: nat, c: nat, v: V)
    | OpDestroy(e: nat)

  function Apply<V>(r: Registry<V>, op: Op<V>): Registry<V> {
    match op
    case OpComponent(c) => RegisterComponent(r, c)
    case OpPreRegister => PreRegister(r)
    case OpEntity(instances) => RegisterEntity(r, instances)
    case OpAdd(e, c, v) => Insert(r, e, c, v)
    case OpUpdate(e, c, v) => Update(r, e, c, v)
    case OpDestroy(e) => Destroy(r, e)
  }

  /** The entity id an operation hands out. */
  function Issued<V>(r: Registry<V>, op: Op<V>): seq<nat> {
    if op.OpPreRegister? || (op.OpEntity? && AnyRegistered(r, op.instances)) then [r.next] else []
  }

  function Run<V>(ops: seq<Op<V>>): Registry<V> {
    if ops == [] then EmptyRegistry()
    else Apply(Run(ops[..|ops| - 1]), ops[|ops| - 1])
  }

  function AllIssued<V>(ops: seq<Op<V>>): seq<nat> {
    if ops == [] then []
    else AllIssued(ops[..|ops| - 1]) + Issued(Run(ops[..|ops| - 1]), ops[|ops| - 1])
  }

  ghost predicate Sound<V>(r: Registry<V>) {
    && (forall c :: c in r.position ==> 1 <= r.position[c] <= r.cursor)
    && (forall c, d :: c in r.position && d in r.position && c != d ==> r.position[c] != r.position[d])
    && (forall e :: e in r.world ==> e < r.next)
    && (forall e, c :: e in r.world && c in r.world[e] ==> c in r.position)
  }

  lemma {:induction false} InsertAllSound<V>(r: Registry<V>, e: nat, instances: seq<(nat, V)>)
    requires Sound(r)
    ensures Sound(InsertAll(r, e, instances))
    ensures InsertAll(r, e, instances).next == r.next
    ensures InsertAll(r, e, instances).world.Keys == r.world.Keys
    ensures InsertAll(r, e, instances).position == r.position
    decreases |instances|
  {
    if instances != [] {
      InsertAllSound(Insert(r, e, instances[0].0, instances[0].1), e, instances[1..]);
    }
  }

  lemma PreRegisterSound<V>(r: Registry<V>)
    requires Sound(r)
    ensures Sound(PreRegister(r))
  {
  }

  lemma RegisterSound<V>(r: Registry<V>, c: nat)
    requires Sound(r)
    ensures Sound(RegisterComponent(r, c))
  {
  }

  lemma InsertSound<V>(r: Registry<V>, e: nat, c: nat, v: V)
    requires Sound(r)
    ensures Sound(Insert(r, e, c, v))
  {
  }

  lemma UpdateSound<V>(r: Registry<V>, e: nat, c: nat, v: V)
    requires Sound(r)
    ensures Sound(Update(r, e, c, v))
  {
  }

  lemma DestroySound<V>(r: Registry<V>, e: nat)
    requires Sound(r)
    ensures Sound(Destroy(r, e))
  {
  }

  lemma ApplySound<V>(r: Registry<V>, op: Op<V>)
    requires Sound(r)
    ensures Sound(Apply(r, op))
    ensures Apply(r, op).next == r.next + |Issued(r, op)|
    ensures Apply(r, op).world.Keys <= r.world.Keys + Members(Issued(r, op))
  {
    hide Sound;
    hide InsertAll;
    hide AnyRegistered;
    match op
    case OpEntity(instances) =>
      PreRegisterSound(r);
      InsertAllSound(PreRegister(r), r.next, instances);
    case OpComponent(c) => RegisterSound(r, c);
    case OpPreRegister => PreRegisterSound(r);
    case OpAdd(e, c, v) => InsertSound(r, e, c, v);
    case OpUpdate(e, c, v) => UpdateSound(r, e, c, v);
    case OpDestroy(e) => DestroySound(r, e);
  }

  function Members(s: seq<nat>): set<nat> {
    set x | x in s
  }

  /** Over any sequence of calls: mask bits of different components differ and none is bit 0;
      entity ids are handed out in increasing order and so never reused; and only ids that
      were handed out live. */
  lemma {:induction false} RunSound<V>(ops: seq<Op<V>>)
    ensures Sound(Run(ops))
    ensures Ascending(AllIssued(ops))
    ensures forall e :: e in AllIssued(ops) ==> e < Run(ops).next
    ensures Run(ops).world.Keys <= Members(AllIssued(ops))
  {
    if ops != [] {
      var before, op := ops[..|ops| - 1], ops[|ops| - 1];
      RunSound(before);
      ApplySound(Run(before), op);
      var old0, new0 := AllIssued(before), Issued(Run(before), op);
      assert Members(old0 + new0) == Members(old0) + Members(new0);
      forall i, j | 0 <= i < j < |old0 + new0| ensures (old0 + new0)[i] < (old0 + new0)[j] {
        if j == |old0| {
          assert old0[i] in old0;
        }
      }
      hide Apply;
      hide Sound;
    }
  }

  // ---- What a registration makes ----

  /** The instance that decides the value of component `c`: the last one of its type. */
  ghost predicate Deciding<V>(instances: seq<(nat, V)>, i: nat, c: nat) {
    && i < |instances| && instances[i].0 == c
    && forall j :: i < j < |instances| ==> instances[j].0 != c
  }

  ghost predicate Gives<V>(instances: seq<(nat, V)>, c: nat) {
    exists i :: 0 <= i < |instances| && instances[i].0 == c
  }

  /** A registered component that is given has the last value given for it; any other is as
      `before`. */
  ghost predicate FilledAt<V>(row: map<nat, V>, before: map<nat, V>, instances: seq<(nat, V)>, registered: set<nat>,
                              c: nat) {
    if c in registered && Gives(instances, c)
    then c in row && forall i: nat :: Deciding(instances, i, c) ==> row[c] == instances[i].1
    else (c in row <==> c in before) && (c in before ==> row[c] == before[c])
  }

  ghost predicate FilledFrom<V>(row: map<nat, V>, before: map<nat, V>, instances: seq<(nat, V)>, registered: set<nat>) {
    forall c: nat :: FilledAt(row, before, instances, registered, c)
  }

  lemma GivesFront<V>(first: (nat, V), rest: seq<(nat, V)>, c: nat)
    ensures Gives([first] + rest, c) <==> first.0 == c || Gives(rest, c)
  {
    assert forall i :: 0 <= i < |rest| ==> rest[i] == ([first] + rest)[i + 1];
    assert ([first] + rest)[0] == first;
  }

  /** The first instance decides exactly when no later one has its type. */
  lemma DecidingFront<V>(first: (nat, V), rest: seq<(nat, V)>, i: nat, c: nat)
    requires Deciding([first] + rest, i, c)
    ensures if i == 0 then first.0 == c && !Gives(rest, c) else Deciding(rest, i - 1, c) && Gives(rest, c)
  {
    assert forall j :: 0 <= j < |rest| ==> rest[j] == ([first] + rest)[j + 1];
  }

  lemma FilledFront<V>(row: map<nat, V>, before: map<nat, V>, first: (nat, V), rest: seq<(nat, V)>,
                       registered: set<nat>, c: nat)
    requires FilledAt(row, if first.0 in registered then before[first.0 := first.1] else before, rest, registered, c)
    ensures FilledAt(row, before, [first] + rest, registered, c)
  {
    GivesFront(first, rest, c);
    hide Gives;
    forall i: nat | c in registered && Gives([first] + rest, c) && Deciding([first] + rest, i, c)
      ensures row[c] == ([first] + rest)[i].1
    {
      DecidingFront(first, rest, i, c);
      assert i > 0 ==> ([first] + rest)[i] == rest[i - 1];
    }
    hide Deciding;
  }

  lemma {:induction false} InsertAllExact<V>(r: Registry<V>, e: nat, instances: seq<(nat, V)>)
    requires e in r.world
    ensures var r' := InsertAll(r, e, instances);
            && r'.position == r.position && r'.cursor == r.cursor && r'.next == r.next
            && r'.world.Keys == r.world.Keys
            && (forall x :: x in r.world && x != e ==> r'.world[x] == r.world[x])
            && FilledFrom(r'.world[e], r.world[e], instances, r.position.Keys)
    decreases |instances|
  {
    if instances != [] {
      var mid := Insert(r, e, instances[0].0, instances[0].1);
      InsertAllExact(mid, e, instances[1..]);
      assert [instances[0]] + instances[1..] == instances;
      hide FilledAt;
      forall c: nat
        ensures FilledAt(InsertAll(r, e, instances).world[e], r.world[e], instances, r.position.Keys, c)
      {
        FilledFront(InsertAll(r, e, instances).world[e], r.world[e], instances[0], instances[1..], r.position.Keys, c);
      }
    }
  }

  lemma RowFromNothing<V>(row: map<nat, V>, instances: seq<(nat, V)>, registered: set<nat>)
    requires FilledFrom(row, map[], instances, registered)
    ensures forall c: nat :: c in row <==> c in registered && Gives(instances, c)
    ensures forall i: nat, c: nat :: Deciding(instances, i, c) && c in registered ==>
              c in row && row[c] == instances[i].1
  {
    forall c: nat
      ensures c in row <==> c in registered && Gives(instances, c)
    {
      assert FilledAt(row, map[], instances, registered, c);
      hide Gives;
    }
    forall i: nat, c: nat | Deciding(instances, i, c) && c in registered ensures c in row && row[c] == instances[i].1 {
      assert FilledAt(row, map[], instances, registered, c);
      assert Gives(instances, c);
    }
  }

  /** An entity is registered exactly when one of its components is: it then gets the next id and
      the registered ones of its components, each with the last value given, and nothing else
      changes; otherwise nothing does. */
  lemma RegisterEntityExact<V>(r: Registry<V>, instances: seq<(nat, V)>)
    ensures (forall c :: c in r.position ==> !Gives(instances, c)) ==> RegisterEntity(r, instances) == r
    ensures var r' := RegisterEntity(r, instances);
            (exists c :: c in r.position && Gives(instances, c)) ==>
              && r'.position == r.position && r'.cursor == r.cursor && r'.next == r.next + 1
              && r'.world.Keys == r.world.Keys + {r.next}
              && (forall x :: x in r.world && x != r.next ==> r'.world[x] == r.world[x])
              && (forall c: nat :: c in r'.world[r.next] <==> c in r.position && Gives(instances, c))
              && (forall i: nat, c: nat :: Deciding(instances, i, c) && c in r.position ==>
                    c in r'.world[r.next] && r'.world[r.next][c] == instances[i].1)
  {
    InsertAllExact(PreRegister(r), r.next, instances);
    RowFromNothing(InsertAll(PreRegister(r), r.next, instances).world[r.next], instances, r.position.Keys);
    SomeRegistered(r, instances);
    hide InsertAll;
    hide Deciding;
    hide FilledFrom;
    hide Gives;
    hide AnyRegistered;
  }

  lemma SomeRegistered<V>(r: Registry<V>, instances: seq<(nat, V)>)
    ensures AnyRegistered(r, instances) <==> exists c :: c in r.position && Gives(instances, c)
  {
    if AnyRegistered(r, instances) {
      var i :| 0 <= i < |instances| && instances[i].0 in r.position;
      assert Gives(instances, instances[i].0);
    }
  }

  lemma {:induction false} SomeDeciding<V>(instances: seq<(nat, V)>, c: nat) returns (i: nat)
    requires Gives(instances, c)
    ensures Deciding(instances, i, c)
  {
    var n := |instances| - 1;
    if instances[n].0 == c {
      i := n;
    } else {
      var k :| 0 <= k < |instances| && instances[k].0 == c;
      assert instances[..n][k].0 == c;
      i := SomeDeciding(instances[..n], c);
      assert instances[..n][i] == instances[i];
    }
  }

  /** Where all values given for a registered component are one, that is its value; where none
      is given, it is as before. */
  lemma InsertAllAt<V>(r: Registry<V>, e: nat, instances: seq<(nat, V)>, c: nat, v: V)
    requires e in r.world
    requires forall i :: 0 <= i < |instances| && instances[i].0 == c ==> instances[i].1 == v
    ensures e in InsertAll(r, e, instances).world
    ensures var row, row' := r.world[e], InsertAll(r, e, instances).world[e];
            if c in r.position && Gives(instances, c) then c in row' && row'[c] == v
            else (c in row' <==> c in row) && (c in row ==> row'[c] == row[c])
  {
    InsertAllExact(r, e, instances);
    hide InsertAll;
    assert FilledAt(InsertAll(r, e, instances).world[e], r.world[e], instances, r.position.Keys, c);
    hide FilledFrom;
    if Gives(instances, c) {
      var i := SomeDeciding(instances, c);
    }
  }

  // ---- How bits and ids are used up ----

  function Registrations<V>(ops: seq<Op<V>>): nat {
    if ops == [] then 0
    else Registrations(ops[..|ops| - 1]) + if ops[|ops| - 1].OpComponent? then 1 else 0
  }

  /** The first registration of the component. */
  ghost predicate FirstAt<V>(ops: seq<Op<V>>, k: nat, c: nat) {
    && k < |ops| && ops[k] == OpComponent(c)
    && forall j :: 0 <= j < k ==> ops[j] != OpComponent(c)
  }

  lemma ApplyUses<V>(r: Registry<V>, op: Op<V>)
    ensures Apply(r, op).cursor == r.cursor + if op.OpComponent? then 1 else 0
    ensures Apply(r, op).next == r.next + |Issued(r, op)|
    ensures Apply(r, op).position
         == if op.OpComponent? && op.c !in r.position then r.position[op.c := r.cursor + 1] else r.position
  {
    hide InsertAll;
    hide AnyRegistered;
    if op.OpEntity? {
      InsertAllExact(PreRegister(r), r.next, op.instances);
    }
    hide FilledFrom;
  }

  /** Every registration uses up a bit, a repeated one too, and every issued id is the next; a
      component has the bit of its first registration, and is known exactly when there was one. */
  lemma {:induction false} RunUses<V>(ops: seq<Op<V>>)
    ensures Run(ops).cursor == Registrations(ops) && Run(ops).next == |AllIssued(ops)|
    ensures forall c :: c in Run(ops).position <==> OpComponent(c) in ops
    ensures forall k: nat, c: nat :: FirstAt(ops, k, c) ==>
              c in Run(ops).position && Run(ops).position[c] == Registrations(ops[..k]) + 1
    decreases |ops|
  {
    if ops != [] {
      var before, op := ops[..|ops| - 1], ops[|ops| - 1];
      assert ops == before + [op];
      RunUses(before);
      ApplyUses(Run(before), op);
      hide Apply;
      hide Issued;
      forall k: nat, c: nat | FirstAt(ops, k, c)
        ensures c in Run(ops).position && Run(ops).position[c] == Registrations(ops[..k]) + 1
      {
        if k < |before| {
          assert FirstAt(before, k, c) && before[..k] == ops[..k];
        } else {
          assert OpComponent(c) !in before;
          assert ops[..k] == before;
        }
      }
    }
  }
}

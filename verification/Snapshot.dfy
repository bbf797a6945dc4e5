/** The entity snapshot: the bytes the server writes for an entity, and the entity the client
    rebuilds from them. Components are numbered by their place in the components list. */
module Snapshot {
  import opened Numbers
  import opened Codec
  import opened EcsSpec
  import BitSet

  type Row = map<nat, Val>

  function RowAt(r: Registry<Val>, e: nat): Row {
    if e in r.world then r.world[e] else map[]
  }

  /** The components list is registered, and in list order from mask bit 1 on. */
  predicate Listed(r: Registry<Val>, types: seq<Ty>) {
    forall i :: 0 <= i < |types| ==> i in r.position && r.position[i] == i + 1
  }

  predicate RowTyped(row: Row, types: seq<Ty>) {
    forall i :: i in row && i < |types| ==> HasType(row[i], types[i])
  }

  /** The components of `row` from list position `i` on, in list order; `None` when one of
      them cannot be written. */
  function Content(row: Row, types: seq<Ty>, i: nat): Option<Bytes>
    requires RowTyped(row, types)
    decreases |types| - i
  {
    if i >= |types| then Some([])
    else if i !in row then Content(row, types, i + 1)
    else
      match Encode(row[i], types[i])
      case None => None
      case Some(b) =>
        match Content(row, types, i + 1)
        case None => None
        case Some(c) => Some(b + c)
  }

  /** These are the listed components of the row from position `i` on, each with its bytes. */
  ghost predicate Lists(ids: seq<nat>, parts: seq<Bytes>, row: Row, types: seq<Ty>, i: nat)
    requires RowTyped(row, types)
  {
    && Ascending(ids) && (forall c :: c in ids <==> c in row && i <= c < |types|)
    && |parts| == |ids|
    && forall k :: 0 <= k < |ids| ==>
         ids[k] in row && ids[k] < |types| && Encode(row[ids[k]], types[ids[k]]) == Some(parts[k])
  }

  lemma ListsMore(ids: seq<nat>, parts: seq<Bytes>, row: Row, types: seq<Ty>, i: nat, b: Bytes)
    requires RowTyped(row, types) && Lists(ids, parts, row, types, i + 1)
    requires i in row && i < |types| && Encode(row[i], types[i]) == Some(b)
    ensures Lists([i] + ids, [b] + parts, row, types, i)
  {
    hide Encode;
    assert forall k :: 0 <= k < |ids| ==> ids[k] in ids;
  }

  /** An entity's content is the bytes of its listed components, one behind the other in list order. */
  lemma {:induction false} ContentLayout(row: Row, types: seq<Ty>, i: nat) returns (ids: seq<nat>, parts: seq<Bytes>)
    requires RowTyped(row, types) && Content(row, types, i).Some?
    ensures Lists(ids, parts, row, types, i) && Content(row, types, i).value == Joined(parts)
    decreases |types| - i
  {
    hide Encode;
    if i >= |types| {
      ids, parts := [], [];
    } else {
      ids, parts := ContentLayout(row, types, i + 1);
      if i in row {
        var b := Encode(row[i], types[i]).value;
        ListsMore(ids, parts, row, types, i, b);
        assert ([b] + parts)[1..] == parts;
        ids, parts := [i] + ids, [b] + parts;
      }
    }
  }

  /** What `serialize` lists for an entity's mask. */
  ghost predicate MaskListOf(r: Registry<Val>, e: nat, mask: seq<nat>) {
    && Ascending(mask)
    && (forall i: nat :: i in mask <==> HasBit(r, e, i))
  }

  ghost predicate HasBit(r: Registry<Val>, e: nat, i: nat) {
    e in r.world && exists c :: c in r.position && r.position[c] == i && c in r.world[e]
  }

  /** The entity as `Factory::apply` leaves it, and whether every component could be read. */
  datatype Rebuilt = Rebuilt(registry: Registry<Val>, complete: bool)

  function Rebuild(r: Registry<Val>, e: nat, types: seq<Ty>, mask: seq<nat>, b: Bytes, i: nat): Rebuilt
    decreases |types| - i
  {
    if i >= |types| then Rebuilt(r, true)
    else if i + 1 !in mask then Rebuild(r, e, types, mask, b, i + 1)
    else
      match Decode(types[i], b)
      case Underflow => Rebuilt(r, false)
      case Got(v, rest) => Rebuild(Insert(r, e, i, v), e, types, mask, rest, i + 1)
  }

  /** The listed components of a row, as they survive string truncation. */
  function Kept(row: Row, types: seq<Ty>, i: nat): Row {
    map c | c in row && i <= c < |types| :: Clip(row[c])
  }

  /** Rebuilding an entity from what was written for `row` adds exactly `row`'s listed
      components to it. */
  lemma {:induction false} RebuildAdds(r: Registry<Val>, e: nat, types: seq<Ty>, mask: seq<nat>, row: Row, i: nat)
    requires Listed(r, types) && e in r.world
    requires RowTyped(row, types) && Content(row, types, i).Some?
    requires forall c :: i <= c < |types| ==> (c + 1 in mask <==> c in row)
    ensures Rebuild(r, e, types, mask, Content(row, types, i).value, i)
         == Rebuilt(r.(world := r.world[e := r.world[e] + Kept(row, types, i)]), true)
    decreases |types| - i
  {
    hide Encode;
    hide Decode;
    hide Clip;
    if i >= |types| {
      assert r.world[e] + Kept(row, types, i) == r.world[e];
      assert r.world[e := r.world[e]] == r.world;
    } else if i !in row {
      RebuildAdds(r, e, types, mask, row, i + 1);
      assert Kept(row, types, i) == Kept(row, types, i + 1);
    } else {
      var v, c := row[i], Content(row, types, i + 1).value;
      RoundTrip(v, types[i], c);
      var r' := Insert(r, e, i, Clip(v));
      RebuildAdds(r', e, types, mask, row, i + 1);
      hide Rebuild;
      hide Content;
      KeptStep(r, e, types, row, i);
    }
  }

  lemma KeptStep(r: Registry<Val>, e: nat, types: seq<Ty>, row: Row, i: nat)
    requires Listed(r, types) && e in r.world && i < |types| && i in row
    ensures var r' := Insert(r, e, i, Clip(row[i]));
            && e in r'.world
            && r'.(world := r'.world[e := r'.world[e] + Kept(row, types, i + 1)])
            == r.(world := r.world[e := r.world[e] + Kept(row, types, i)])
  {
    hide Clip;
    var r' := Insert(r, e, i, Clip(row[i]));
    assert r'.world[e] + Kept(row, types, i + 1) == r.world[e] + Kept(row, types, i);
    assert r'.world[e := r.world[e] + Kept(row, types, i)] == r.world[e := r.world[e] + Kept(row, types, i)];
  }

  /** The mask lists bit `c + 1` exactly when the entity has list component `c`. */
  lemma MaskNamesList(r: Registry<Val>, e: nat, types: seq<Ty>, mask: seq<nat>)
    requires Sound(r) && Listed(r, types) && MaskListOf(r, e, mask)
    ensures forall c :: 0 <= c < |types| ==> (c + 1 in mask <==> e in r.world && c in r.world[e])
  {
    forall c | 0 <= c < |types| ensures c + 1 in mask <==> e in r.world && c in r.world[e] {
      if c + 1 in mask {
        assert HasBit(r, e, c + 1);
        var d :| d in r.position && r.position[d] == c + 1 && d in r.world[e];
        assert r.position[c] == c + 1;
        assert d == c;
      }
      if e in r.world && c in r.world[e] {
        assert HasBit(r, e, c + 1);
      }
    }
  }

  /** `deserialize` can read the mask of an entity exactly when the entity has a component. */
  lemma ReadableIffNotEmpty(r: Registry<Val>, e: nat, mask: seq<nat>)
    requires Sound(r) && e in r.world && MaskListOf(r, e, mask)
    ensures BitSet.Readable(mask) <==> r.world[e] != map[]
  {
    if BitSet.Readable(mask) {
      assert mask[|mask| - 1] in mask;
      assert HasBit(r, e, mask[|mask| - 1]);
    }
    if r.world[e] != map[] {
      var c :| c in r.world[e];
      assert HasBit(r, e, r.position[c]);
      assert r.position[c] in mask;
      var last := mask[|mask| - 1];
      assert last in mask && HasBit(r, e, last);
      forall k | 0 <= k < |mask| ensures mask[k] / BitSet.BLOCK <= last / BitSet.BLOCK {
        BitSet.QuotientMonotone(mask[k], last);
      }
    }
  }

  // ---- Registration order ----

  /** `registerComponents` for list positions `i` to `n`, then the `extra` components. */
  function RegisterList(r: Registry<Val>, cs: seq<nat>): Registry<Val>
    decreases |cs|
  {
    if cs == [] then r else RegisterList(RegisterComponent(r, cs[0]), cs[1..])
  }

  function Upto(n: nat): (s: seq<nat>)
    ensures |s| == n && forall k :: 0 <= k < n ==> s[k] == k
  {
    if n == 0 then [] else Upto(n - 1) + [n - 1]
  }

  lemma {:induction false} RegisterListAppend(r: Registry<Val>, cs: seq<nat>, c: nat)
    ensures RegisterList(r, cs + [c]) == RegisterComponent(RegisterList(r, cs), c)
    decreases |cs|
  {
    if cs == [] {
      assert (cs + [c])[1..] == [];
    } else {
      assert (cs + [c])[1..] == cs[1..] + [c];
      RegisterListAppend(RegisterComponent(r, cs[0]), cs[1..], c);
    }
  }

  /** A new registry gives list component `i` the mask bit `i + 1`. */
  lemma {:induction false} FreshlyListed(types: seq<Ty>)
    ensures var r := RegisterList(EmptyRegistry(), Upto(|types|));
            && Listed(r, types) && r.cursor == |types| && r.world == map[] && r.next == 0
            && forall c: nat :: c in r.position <==> c < |types|
    decreases |types|
  {
    if types != [] {
      FreshlyListed(types[..|types| - 1]);
      RegisterListAppend(EmptyRegistry(), Upto(|types| - 1), |types| - 1);
    }
  }

  /** No operation moves a component's mask bit. */
  lemma StaysListed(r: Registry<Val>, types: seq<Ty>, op: Op<Val>)
    requires Sound(r) && Listed(r, types)
    ensures Listed(Apply(r, op), types)
  {
    if op.OpEntity? && AnyRegistered(r, op.instances) {
      PreRegisterSound(r);
      InsertAllSound(PreRegister(r), r.next, op.instances);
    }
  }

  // ---- Whatever the bytes ----

  /** The listed components that the mask names, from list position `i` on. */
  ghost predicate Wanted(ids: seq<nat>, types: seq<Ty>, mask: seq<nat>, i: nat) {
    Ascending(ids) && forall c :: c in ids <==> i <= c < |types| && c + 1 in mask
  }

  /** The bytes hold a value for each of the first components, in order, in front of the rest. */
  ghost predicate Holds(ids: seq<nat>, vs: seq<Val>, parts: seq<Bytes>, types: seq<Ty>, b: Bytes, rest: Bytes) {
    && |vs| == |parts| <= |ids| && b == Joined(parts) + rest
    && forall k :: 0 <= k < |vs| ==> ids[k] < |types| && WrittenAs(vs[k], types[ids[k]], parts[k])
  }

  ghost predicate WrittenAs(v: Val, ty: Ty, part: Bytes) {
    HasType(v, ty) && ShortStrings(v) && Encode(v, ty) == Some(part)
  }

  /** The row with the values read. */
  ghost predicate FilledWith(row: Row, row': Row, ids: seq<nat>, vs: seq<Val>)
    requires |vs| <= |ids|
  {
    && (forall c :: c in row' <==> c in row || c in ids[..|vs|])
    && (forall k :: 0 <= k < |vs| ==> ids[k] in row' && row'[ids[k]] == vs[k])
    && (forall c :: c in row && c !in ids[..|vs|] ==> c in row' && row'[c] == row[c])
  }

  /** As many components as the bytes hold, and complete exactly when that is all that are wanted. */
  ghost predicate RebuiltFrom(r: Registry<Val>, e: nat, types: seq<Ty>, b: Bytes, out: Rebuilt, ids: seq<nat>,
                              vs: seq<Val>, parts: seq<Bytes>, rest: Bytes)
    requires e in r.world
  {
    && Holds(ids, vs, parts, types, b, rest)
    && (out.complete <==> |vs| == |ids|)
    && (!out.complete ==> |vs| < |ids| && ids[|vs|] < |types| && Decode(types[ids[|vs|]], rest).Underflow?)
    && e in out.registry.world && FilledWith(r.world[e], out.registry.world[e], ids, vs)
    && out.registry == r.(world := r.world[e := out.registry.world[e]])
  }

  lemma WantedMore(ids: seq<nat>, types: seq<Ty>, mask: seq<nat>, i: nat)
    requires i < |types| && Wanted(ids, types, mask, i + 1)
    ensures Wanted(if i + 1 in mask then [i] + ids else ids, types, mask, i)
  {
    assert forall k :: 0 <= k < |ids| ==> ids[k] in ids;
  }

  lemma FilledMore(row: Row, row': Row, i: nat, v: Val, ids: seq<nat>, vs: seq<Val>)
    requires |vs| <= |ids| && i !in ids && FilledWith(row[i := v], row', ids, vs)
    ensures FilledWith(row, row', [i] + ids, [v] + vs)
  {
    var all := [i] + ids;
    assert all[..|vs| + 1] == [i] + ids[..|vs|];
    assert forall k :: 0 < k < |vs| + 1 ==> all[k] == ids[k - 1] && ([v] + vs)[k] == vs[k - 1];
    assert i !in ids[..|vs|];
  }

  lemma HoldsMore(i: nat, v: Val, part: Bytes, ids: seq<nat>, vs: seq<Val>, parts: seq<Bytes>, types: seq<Ty>,
                  b: Bytes, mid: Bytes, rest: Bytes)
    requires i < |types| && WrittenAs(v, types[i], part) && b == part + mid && Holds(ids, vs, parts, types, mid, rest)
    ensures Holds([i] + ids, [v] + vs, [part] + parts, types, b, rest)
  {
    hide WrittenAs;
    assert ([part] + parts)[1..] == parts;
    assert part + (Joined(parts) + rest) == part + Joined(parts) + rest;
    assert forall k :: 0 < k < |vs| + 1 ==> ([v] + vs)[k] == vs[k - 1] && ([part] + parts)[k] == parts[k - 1];
    assert forall k :: 0 < k < |vs| + 1 ==> ([i] + ids)[k] == ids[k - 1];
  }

  lemma NothingHeld(r: Registry<Val>, e: nat, types: seq<Ty>, b: Bytes, ids: seq<nat>)
    requires e in r.world
    requires ids != [] ==> ids[0] < |types| && Decode(types[ids[0]], b).Underflow?
    ensures RebuiltFrom(r, e, types, b, Rebuilt(r, ids == []), ids, [], [], b)
  {
    hide Decode;
    assert b == Joined([]) + b;
  }

  lemma ReadAs(ty: Ty, b: Bytes)
    requires Decode(ty, b).Got?
    ensures var v := Decode(ty, b).value;
            HasType(v, ty) && Encode(v, ty).Some? && WrittenAs(v, ty, Encode(v, ty).value)
            && b == Encode(v, ty).value + Decode(ty, b).rest
  {
    DecodeIff(ty, b, Decode(ty, b).value, Decode(ty, b).rest);
    hide Decode;
    hide Encode;
  }

  lemma RebuiltMore(r: Registry<Val>, e: nat, types: seq<Ty>, b: Bytes, out: Rebuilt, i: nat, v: Val, part: Bytes,
                    mid: Bytes, ids: seq<nat>, vs: seq<Val>, parts: seq<Bytes>, rest: Bytes)
    requires e in r.world && i in r.position && i < |types| && i !in ids
    requires WrittenAs(v, types[i], part) && b == part + mid
    requires RebuiltFrom(Insert(r, e, i, v), e, types, mid, out, ids, vs, parts, rest)
    ensures RebuiltFrom(r, e, types, b, out, [i] + ids, [v] + vs, [part] + parts, rest)
  {
    hide WrittenAs;
    HoldsMore(i, v, part, ids, vs, parts, types, b, mid, rest);
    hide Holds;
    FilledMore(r.world[e], out.registry.world[e], i, v, ids, vs);
    hide FilledWith;
    assert |vs| < |ids| ==> ([i] + ids)[|[v] + vs|] == ids[|vs|];
    hide Decode;
  }

  /** The creator loop over any mask and any bytes: it takes the wanted components in list order and
      reads a value for each off the front of what is left, until all are read or one cannot be; the
      entity gains exactly the values read, and nothing else changes. */
  lemma {:induction false} RebuildExact(r: Registry<Val>, e: nat, types: seq<Ty>, mask: seq<nat>, b: Bytes, i: nat)
    returns (ids: seq<nat>, vs: seq<Val>, parts: seq<Bytes>, rest: Bytes)
    requires e in r.world && Listed(r, types)
    ensures Wanted(ids, types, mask, i)
    ensures RebuiltFrom(r, e, types, b, Rebuild(r, e, types, mask, b, i), ids, vs, parts, rest)
    decreases |types| - i
  {
    hide Decode;
    hide RebuiltFrom;
    if i >= |types| {
      ids, vs, parts, rest := [], [], [], b;
      NothingHeld(r, e, types, b, ids);
    } else if i + 1 !in mask {
      ids, vs, parts, rest := RebuildExact(r, e, types, mask, b, i + 1);
      WantedMore(ids, types, mask, i);
    } else {
      match Decode(types[i], b)
      case Underflow =>
        ids := WantedFrom(types, mask, i + 1);
        WantedMore(ids, types, mask, i);
        ids, vs, parts, rest := [i] + ids, [], [], b;
        NothingHeld(r, e, types, b, ids);
      case Got(v, mid) =>
        ReadAs(types[i], b);
        var part := Encode(v, types[i]).value;
        hide Encode;
        hide WrittenAs;
        var out := Rebuild(Insert(r, e, i, v), e, types, mask, mid, i + 1);
        ids, vs, parts, rest := RebuildExact(Insert(r, e, i, v), e, types, mask, mid, i + 1);
        WantedMore(ids, types, mask, i);
        assert i !in ids;
        hide Wanted;
        RebuiltMore(r, e, types, b, out, i, v, part, mid, ids, vs, parts, rest);
        ids, vs, parts := [i] + ids, [v] + vs, [part] + parts;
    }
  }

  lemma {:induction false} WantedFrom(types: seq<Ty>, mask: seq<nat>, i: nat) returns (ids: seq<nat>)
    ensures Wanted(ids, types, mask, i)
    decreases |types| - i
  {
    if i >= |types| {
      ids := [];
    } else {
      ids := WantedFrom(types, mask, i + 1);
      WantedMore(ids, types, mask, i);
      if i + 1 in mask {
        ids := [i] + ids;
      }
    }
  }
}

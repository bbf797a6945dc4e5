/** The engine calls that write and read snapshots: `getEntityInfos` on the server and
    `Factory::apply` on the client, proved against `Snapshot`. */
module Engine {
  import opened Numbers
  import opened Codec
  import opened EcsSpec
  import opened Snapshot
  import opened PacketBuffer
  import BitSet
  import Ecs

  /** The mask list and the content of an entity; no content when a component cannot be
      written. */
  method GetEntityInfos(ecs: Ecs.Ecs<Val>, types: seq<Ty>, id: nat) returns (mask: seq<nat>, content: Option<Bytes>)
    requires ecs.Valid() && RowTyped(RowAt(ecs.Model(), id), types)
    ensures ecs.Valid() && ecs.Model() == old(ecs.Model())
    ensures MaskListOf(ecs.Model(), id, mask)
    ensures content == Content(RowAt(ecs.Model(), id), types, 0)
  {
    hide *;
    ghost var r := ecs.Model();
    mask := MaskList(ecs, id);
    var stream := new EntityContent();
    ghost var row := RowAt(r, id);
    Appended([], [], Content(row, types, 0));
    for i := 0 to |types|
      invariant ecs.Valid() && ecs.Model() == r
      invariant Content(row, types, 0) == After(stream.buffer, Content(row, types, i))
    {
      var found := ecs.GetFromGroup(id, i);
      ContentStep(r, id, types, i, stream.buffer, found);
      if found != None {
        var ok := stream.Write(found.value, types[i]);
        if !ok {
          return mask, None;
        }
      }
    }
    ContentEnd(row, types, stream.buffer);
    content := Some(stream.buffer);
  }

  method MaskList(ecs: Ecs.Ecs<Val>, id: nat) returns (mask: seq<nat>)
    requires ecs.Valid()
    ensures ecs.Valid() && ecs.Model() == old(ecs.Model())
    ensures MaskListOf(ecs.Model(), id, mask)
  {
    hide Ecs.Ecs.Valid;
    hide Ecs.Ecs.Model;
    hide Ecs.MaskOf;
    hide MaskListOf;
    var blocks := ecs.GetEntityMask(id);
    BitsAreMask(ecs.Model(), id, blocks);
    var bits := new BitSet.DynamicBitSet(blocks);
    mask := bits.Serialize();
  }

  lemma BitsAreMask(r: Registry<Val>, id: nat, blocks: BitSet.Blocks)
    requires Ecs.MaskOf(r, id, blocks)
    ensures MaskListOf(r, id, BitSet.Indexes(blocks))
  {
    BitSet.IndexesExact(blocks);
    hide BitSet.Indexes;
    hide BitSet.BitIn;
    forall i: nat ensures BitSet.BitIn(blocks, i) <==> HasBit(r, id, i) {
    }
  }

  /** One component looked up: present ones come next in the content. */
  lemma ContentStep(r: Registry<Val>, id: nat, types: seq<Ty>, i: nat, done: Bytes, found: Option<Val>)
    requires i < |types| && RowTyped(RowAt(r, id), types) && found == Lookup(r, id, i)
    ensures found == None ==> Content(RowAt(r, id), types, i) == Content(RowAt(r, id), types, i + 1)
    ensures found != None ==>
              && HasType(found.value, types[i])
              && (Encode(found.value, types[i]) == None ==> After(done, Content(RowAt(r, id), types, i)) == None)
              && (Encode(found.value, types[i]).Some? ==>
                   After(done, Content(RowAt(r, id), types, i))
                   == After(done + Encode(found.value, types[i]).value, Content(RowAt(r, id), types, i + 1)))
  {
    hide Encode;
    if found != None && Encode(found.value, types[i]).Some? {
      Appended(done, Encode(found.value, types[i]).value, Content(RowAt(r, id), types, i + 1));
    }
  }

  lemma ContentEnd(row: Row, types: seq<Ty>, done: Bytes)
    requires RowTyped(row, types)
    ensures After(done, Content(row, types, |types|)) == Some(done)
  {
    assert done + [] == done;
  }

  /** Adds to the entity every listed component named in the bitmask, read from the data in
      list order; false when the data runs out, what was read so far staying in place. */
  method Apply(ecs: Ecs.Ecs<Val>, types: seq<Ty>, e: nat, bitmask: BitSet.DynamicBitSet, ghost mask: seq<nat>,
               data: Bytes)
      returns (complete: bool)
    requires ecs.Valid()
    requires forall i: nat :: BitSet.BitIn(bitmask.bitsets, i) <==> i in mask
    modifies ecs`entities, ecs.sets
    ensures ecs.Valid()
    ensures Rebuilt(ecs.Model(), complete) == Rebuild(old(ecs.Model()), e, types, mask, data, 0)
  {
    hide Decode;
    hide Ecs.Ecs.Valid;
    hide Ecs.Ecs.Model;
    hide Insert;
    hide BitSet.BitIn;
    var reader := new Packet(data);
    assert reader.Unread() == data;
    for i := 0 to |types|
      invariant ecs.Valid() && reader.Valid()
      invariant ecs.sets == old(ecs.sets)
      invariant Rebuild(old(ecs.Model()), e, types, mask, data, 0)
             == Rebuild(ecs.Model(), e, types, mask, reader.Unread(), i)
    {
      var bit := bitmask.Get(i + 1);
      if bit {
        var component := reader.Read(types[i]);
        if component == None {
          return false;
        }
        ecs.AddEntityComponent(e, i, component.value);
      }
    }
    return true;
  }
}

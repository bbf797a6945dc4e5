/** The two byte streams that carry payloads: `Packet`, which writes and reads, and the
    engine's write-only `EntityContent`. Both are proved against `Codec`. */
module PacketBuffer {
  import opened Numbers
  import opened Endian
  import opened Codec

  /** Puts values already read in front of the result of reading the others. */
  ghost function Prepend(vs: seq<Val>, r: Read<seq<Val>>): Read<seq<Val>> {
    match r
    case Underflow => Underflow
    case Got(ws, rest) => Got(vs + ws, rest)
  }

  /** Puts bytes already written in front of what the remaining values encode to. */
  ghost function After(done: Bytes, r: Option<Bytes>): Option<Bytes> {
    match r
    case None => None
    case Some(b) => Some(done + b)
  }

  lemma Prepended(vs: seq<Val>, v: Val, r: Read<seq<Val>>)
    ensures Prepend([], r) == r
    ensures Prepend(vs, Prepend([v], r)) == Prepend(vs + [v], r)
  {
    if r.Got? {
      assert [] + r.value == r.value;
      assert vs + ([v] + r.value) == vs + [v] + r.value;
    }
  }

  lemma Appended(done: Bytes, b: Bytes, r: Option<Bytes>)
    ensures After([], r) == r
    ensures After(done, After(b, r)) == After(done + b, r)
  {
    if r.Some? {
      assert [] + r.value == r.value;
      assert done + (b + r.value) == done + b + r.value;
    }
  }

  lemma NothingLeft(t: Ty, done: Bytes)
    ensures After(done, EncodeItems([], t)) == Some(done)
    ensures After(done, EncodeFields([], [])) == Some(done)
  {
    assert done + [] == done;
  }

  /** One more item written. */
  lemma NextItem(vs: seq<Val>, t: Ty, i: nat, done: Bytes)
    requires i < |vs| && forall k :: 0 <= k < |vs| ==> HasType(vs[k], t)
    requires EncodeItems(vs, t) == After(done, EncodeItems(vs[i..], t))
    ensures Encode(vs[i], t) == None ==> EncodeItems(vs, t) == None
    ensures Encode(vs[i], t).Some? ==>
      EncodeItems(vs, t) == After(done + Encode(vs[i], t).value, EncodeItems(vs[i + 1..], t))
  {
    assert vs[i..][0] == vs[i] && vs[i..][1..] == vs[i + 1..];
    if Encode(vs[i], t).Some? {
      var b, r := Encode(vs[i], t).value, EncodeItems(vs[i + 1..], t);
      assert EncodeItems(vs[i..], t) == After(b, r);
      Appended(done, b, r);
    }
  }

  lemma NextField(vs: seq<Val>, ts: seq<Ty>, i: nat, done: Bytes)
    requires i < |vs| == |ts| && forall k :: 0 <= k < |vs| ==> HasType(vs[k], ts[k])
    requires EncodeFields(vs, ts) == After(done, EncodeFields(vs[i..], ts[i..]))
    ensures Encode(vs[i], ts[i]) == None ==> EncodeFields(vs, ts) == None
    ensures Encode(vs[i], ts[i]).Some? ==>
      EncodeFields(vs, ts)
      == After(done + Encode(vs[i], ts[i]).value, EncodeFields(vs[i + 1..], ts[i + 1..]))
  {
    assert vs[i..][0] == vs[i] && vs[i..][1..] == vs[i + 1..];
    assert ts[i..][0] == ts[i] && ts[i..][1..] == ts[i + 1..];
    if Encode(vs[i], ts[i]).Some? {
      var b, r := Encode(vs[i], ts[i]).value, EncodeFields(vs[i + 1..], ts[i + 1..]);
      assert EncodeFields(vs[i..], ts[i..]) == After(b, r);
      Appended(done, b, r);
    }
  }

  class Packet {
    var buffer: Bytes
    var readPosition: nat

    constructor (data: Bytes)
      ensures buffer == data && readPosition == 0
    {
      buffer, readPosition := data, 0;
    }

    ghost predicate Valid()
      reads this
    {
      readPosition <= |buffer|
    }

    ghost function Unread(): Bytes
      requires Valid()
      reads this
    {
      buffer[readPosition..]
    }

    method WriteNum(n: nat, w: nat)
      modifies this`buffer
      ensures buffer == old(buffer) + Image(Swap(n, w), w)
    {
      buffer := buffer + Image(Swap(n, w), w);
    }

    method WriteText(chars: Bytes)
      modifies this`buffer
      ensures buffer == old(buffer) + Encode(Text(chars), Str).value
    {
      var size := |chars| % 0x1_0000;
      WriteNum(size, 2);
      buffer := buffer + chars[..size];
    }

    /** `operator<<`; `ok` is false when it throws, having written only part. */
    method Write(v: Val, ty: Ty) returns (ok: bool)
      requires HasType(v, ty)
      modifies this`buffer
      ensures ok == Encode(v, ty).Some?
      ensures ok ==> buffer == old(buffer) + Encode(v, ty).value
      ensures old(buffer) <= buffer
      decreases ty, 0
    {
      hide EncodeItems;
      hide EncodeFields;
      match ty {
        case Prim(w) =>
          WriteNum(v.bits, w);
          ok := true;
        case Str =>
          WriteText(v.chars);
          ok := true;
        case SeqOf(t) =>
          if |v.items| > MAX_COUNT {
            return false;
          }
          WriteNum(|v.items|, 2);
          ok := WriteItems(v.items, t);
        case Struct(ts) =>
          ok := WriteFields(v.fields, ts);
      }
    }

    method WriteItems(vs: seq<Val>, t: Ty) returns (ok: bool)
      requires forall i :: 0 <= i < |vs| ==> HasType(vs[i], t)
      modifies this`buffer
      ensures ok == EncodeItems(vs, t).Some?
      ensures ok ==> buffer == old(buffer) + EncodeItems(vs, t).value
      ensures old(buffer) <= buffer
      decreases t, 1
    {
      hide Encode;
      hide EncodeItems;
      ghost var done: Bytes := [];
      assert vs[0..] == vs;
      Appended([], [], EncodeItems(vs, t));
      for i := 0 to |vs|
        invariant buffer == old(buffer) + done
        invariant EncodeItems(vs, t) == After(done, EncodeItems(vs[i..], t))
      {
        NextItem(vs, t, i, done);
        ok := Write(vs[i], t);
        if !ok {
          return;
        }
        done := done + Encode(vs[i], t).value;
      }
      assert vs[|vs|..] == [];
      NothingLeft(t, done);
      ok := true;
    }

    method WriteFields(vs: seq<Val>, ts: seq<Ty>) returns (ok: bool)
      requires |vs| == |ts| && forall i :: 0 <= i < |vs| ==> HasType(vs[i], ts[i])
      modifies this`buffer
      ensures ok == EncodeFields(vs, ts).Some?
      ensures ok ==> buffer == old(buffer) + EncodeFields(vs, ts).value
      ensures old(buffer) <= buffer
      decreases ts, 0
    {
      hide Encode;
      hide EncodeFields;
      ghost var done: Bytes := [];
      assert vs[0..] == vs && ts[0..] == ts;
      Appended([], [], EncodeFields(vs, ts));
      for i := 0 to |vs|
        invariant buffer == old(buffer) + done
        invariant EncodeFields(vs, ts) == After(done, EncodeFields(vs[i..], ts[i..]))
      {
        NextField(vs, ts, i, done);
        ok := Write(vs[i], ts[i]);
        if !ok {
          return;
        }
        done := done + Encode(vs[i], ts[i]).value;
      }
      assert vs[|vs|..] == [] && ts[|ts|..] == [];
      NothingLeft(Str, done);
      ok := true;
    }

    method ReadNum(w: nat) returns (r: Option<nat>)
      requires Valid()
      modifies this`readPosition
      ensures Valid() && old(readPosition) <= readPosition
      ensures match DecodeNum(w, old(Unread()))
              case Underflow => r == None
              case Got(n, rest) => r == Some(n) && Unread() == rest
    {
      if readPosition + w > |buffer| {
        return None;
      }
      r := Some(Swap(FromImage(buffer[readPosition..readPosition + w]), w));
      assert Unread()[..w] == buffer[readPosition..readPosition + w];
      readPosition := readPosition + w;
    }

    /** `operator>>`; `None` when it throws. */
    method Read(ty: Ty) returns (r: Option<Val>)
      requires Valid()
      modifies this`readPosition
      ensures Valid() && old(readPosition) <= readPosition
      ensures match Decode(ty, old(Unread()))
              case Underflow => r == None
              case Got(v, rest) => r == Some(v) && Unread() == rest
      decreases ty, 0
    {
      match ty {
        case Prim(w) =>
          var n := ReadNum(w);
          r := if n == None then None else Some(Num(n.value));
        case Str =>
          var size := ReadNum(2);
          if size == None || readPosition + size.value > |buffer| {
            return None;
          }
          r := Some(Text(buffer[readPosition..readPosition + size.value]));
          assert Unread()[..size.value] == buffer[readPosition..readPosition + size.value];
          readPosition := readPosition + size.value;
        case SeqOf(t) =>
          var size := ReadNum(2);
          if size == None {
            return None;
          }
          var vs := ReadItems(t, size.value);
          r := if vs == None then None else Some(List(vs.value));
        case Struct(ts) =>
          var vs := ReadFields(ts);
          r := if vs == None then None else Some(Record(vs.value));
      }
    }

    method ReadItems(t: Ty, n: nat) returns (r: Option<seq<Val>>)
      requires Valid()
      modifies this`readPosition
      ensures Valid() && old(readPosition) <= readPosition
      ensures match DecodeItems(t, n, old(Unread()))
              case Underflow => r == None
              case Got(vs, rest) => r == Some(vs) && Unread() == rest
      decreases t, 1
    {
      var vs := [];
      Prepended([], Num(0), DecodeItems(t, n, Unread()));
      for i := 0 to n
        invariant Valid() && old(readPosition) <= readPosition
        invariant DecodeItems(t, n, old(Unread())) == Prepend(vs, DecodeItems(t, n - i, Unread()))
      {
        var v := Read(t);
        if v == None {
          return None;
        }
        Prepended(vs, v.value, DecodeItems(t, n - i - 1, Unread()));
        vs := vs + [v.value];
      }
      assert vs + [] == vs;
      r := Some(vs);
    }

    method ReadFields(ts: seq<Ty>) returns (r: Option<seq<Val>>)
      requires Valid()
      modifies this`readPosition
      ensures Valid() && old(readPosition) <= readPosition
      ensures match DecodeFields(ts, old(Unread()))
              case Underflow => r == None
              case Got(vs, rest) => r == Some(vs) && Unread() == rest
      decreases ts, 0
    {
      var vs := [];
      assert ts[0..] == ts;
      Prepended([], Num(0), DecodeFields(ts, Unread()));
      for i := 0 to |ts|
        invariant Valid() && old(readPosition) <= readPosition
        invariant DecodeFields(ts, old(Unread())) == Prepend(vs, DecodeFields(ts[i..], Unread()))
      {
        assert ts[i..][0] == ts[i] && ts[i..][1..] == ts[i + 1..];
        var v := Read(ts[i]);
        if v == None {
          return None;
        }
        Prepended(vs, v.value, DecodeFields(ts[i + 1..], Unread()));
        vs := vs + [v.value];
      }
      assert vs + [] == vs;
      r := Some(vs);
    }
  }

  class EntityContent {
    var buffer: Bytes

    constructor ()
      ensures buffer == []
    {
      buffer := [];
    }

    method Append(data: Bytes)
      modifies this
      ensures buffer == old(buffer) + data
    {
      buffer := buffer + data;
    }

    method WriteText(chars: Bytes)
      modifies this
      ensures buffer == old(buffer) + Encode(Text(chars), Str).value
    {
      var size := |chars| % 0x1_0000;
      Append(Image(Swap(size, 2), 2));
      Append(chars[..size]);
    }

    method Write(v: Val, ty: Ty) returns (ok: bool)
      requires HasType(v, ty)
      modifies this
      ensures ok == Encode(v, ty).Some?
      ensures ok ==> buffer == old(buffer) + Encode(v, ty).value
      ensures old(buffer) <= buffer
      decreases ty, 0
    {
      hide EncodeItems;
      hide EncodeFields;
      ok := true;
      match ty {
        case Prim(w) => Append(Image(Swap(v.bits, w), w));
        case Str => WriteText(v.chars);
        case SeqOf(t) =>
          if |v.items| > MAX_COUNT {
            return false;
          }
          Append(Image(Swap(|v.items|, 2), 2));
          ok := WriteItems(v.items, t);
        case Struct(ts) => ok := Serialize(v.fields, ts);
      }
    }

    method WriteItems(vs: seq<Val>, t: Ty) returns (ok: bool)
      requires forall i :: 0 <= i < |vs| ==> HasType(vs[i], t)
      modifies this
      ensures ok == EncodeItems(vs, t).Some?
      ensures ok ==> buffer == old(buffer) + EncodeItems(vs, t).value
      ensures old(buffer) <= buffer
      decreases t, 1
    {
      hide Encode;
      hide EncodeItems;
      ghost var done: Bytes := [];
      assert vs[0..] == vs;
      Appended([], [], EncodeItems(vs, t));
      for i := 0 to |vs|
        invariant buffer == old(buffer) + done
        invariant EncodeItems(vs, t) == After(done, EncodeItems(vs[i..], t))
      {
        NextItem(vs, t, i, done);
        ok := Write(vs[i], t);
        if !ok {
          return;
        }
        done := done + Encode(vs[i], t).value;
      }
      assert vs[|vs|..] == [];
      NothingLeft(t, done);
      ok := true;
    }

    /** A struct's `serialize` member, one `&` per field. */
    method Serialize(vs: seq<Val>, ts: seq<Ty>) returns (ok: bool)
      requires |vs| == |ts| && forall i :: 0 <= i < |vs| ==> HasType(vs[i], ts[i])
      modifies this
      ensures ok == EncodeFields(vs, ts).Some?
      ensures ok ==> buffer == old(buffer) + EncodeFields(vs, ts).value
      ensures old(buffer) <= buffer
      decreases ts, 0
    {
      hide Encode;
      ok := true;
      if vs != [] {
        ok := Write(vs[0], ts[0]);
        if ok {
          ok := Serialize(vs[1..], ts[1..]);
        }
      }
    }
  }

  /** Whatever `EntityContent` wrote, `Packet` reads back. */
  method ReadBackEntity(v: Val, ty: Ty) returns (r: Option<Val>)
    requires HasType(v, ty) && ShortLists(v) && ShortStrings(v)
    ensures r == Some(v)
  {
    EncodesIffShortLists(v, ty);
    ClipIdentity(v);
    var content := new EntityContent();
    var ok := content.Write(v, ty);
    RoundTrip(v, ty, []);
    var bytes := content.buffer;
    assert bytes == Encode(v, ty).value == Encode(v, ty).value + [];
    var reader := new Packet(bytes);
    assert reader.Unread() == bytes;
    r := reader.Read(ty);
  }
}

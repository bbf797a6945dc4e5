/** The payload format of `Packet` and `EntityContent`: a type-directed printer and
    parser for primitives, strings, vectors and deques, and structs. */
module Codec {
  import opened Numbers
  import opened Endian

  /** The C++ type being serialised. Floats, signed integers, enums and bools are
      primitives of their width, carried as bit patterns. */
  datatype Ty =
    | Prim(width: nat)
    | Str
    | SeqOf(elem: Ty)
    | Struct(members: seq<Ty>)

  datatype Val =
    | Num(bits: nat)
    | Text(chars: Bytes)
    | List(items: seq<Val>)
    | Record(fields: seq<Val>)

  /** The largest count a `uint16_t` length prefix can hold. */
  const MAX_COUNT: nat := 65535

  predicate HasType(v: Val, ty: Ty)
    decreases ty
  {
    match (v, ty)
    case (Num(n), Prim(w)) => n < Limit(w)
    case (Text(_), Str) => true
    case (List(items), SeqOf(t)) => forall i :: 0 <= i < |items| ==> HasType(items[i], t)
    case (Record(fs), Struct(ts)) =>
      |fs| == |ts| && forall i :: 0 <= i < |fs| ==> HasType(fs[i], ts[i])
    case _ => false
  }

  /** What `operator<<` appends, or `None` when it throws on an over-long vector. A
      string's length is truncated to 16 bits and only that many characters follow. */
  function Encode(v: Val, ty: Ty): Option<Bytes>
    requires HasType(v, ty)
    decreases ty, 0
  {
    match ty
    case Prim(w) => Some(Image(Swap(v.bits, w), w))
    case Str =>
      var size := |v.chars| % 0x1_0000;
      Some(Image(Swap(size, 2), 2) + v.chars[..size])
    case SeqOf(t) =>
      if |v.items| > MAX_COUNT then None
      else
        (match EncodeItems(v.items, t)
         case None => None
         case Some(b) => Some(Image(Swap(|v.items|, 2), 2) + b))
    case Struct(ts) => EncodeFields(v.fields, ts)
  }

  function EncodeItems(vs: seq<Val>, t: Ty): Option<Bytes>
    requires forall i :: 0 <= i < |vs| ==> HasType(vs[i], t)
    decreases t, |vs| + 1
  {
    if vs == [] then Some([])
    else
      match Encode(vs[0], t)
      case None => None
      case Some(b) =>
        match EncodeItems(vs[1..], t)
        case None => None
        case Some(c) => Some(b + c)
  }

  function EncodeFields(vs: seq<Val>, ts: seq<Ty>): Option<Bytes>
    requires |vs| == |ts| && forall i :: 0 <= i < |vs| ==> HasType(vs[i], ts[i])
    decreases ts, 0
  {
    if vs == [] then Some([])
    else
      match Encode(vs[0], ts[0])
      case None => None
      case Some(b) =>
        match EncodeFields(vs[1..], ts[1..])
        case None => None
        case Some(c) => Some(b + c)
  }

  /** A value read from the front of a buffer and the bytes left behind it. */
  datatype Read<+T> = Underflow | Got(value: T, rest: Bytes)

  function DecodeNum(w: nat, b: Bytes): Read<nat> {
    if |b| < w then Underflow
    else Got(Swap(FromImage(b[..w]), w), b[w..])
  }

  /** What `operator>>` reads from the front of `b`. */
  function Decode(ty: Ty, b: Bytes): Read<Val>
    decreases ty, 0
  {
    match ty
    case Prim(w) =>
      (match DecodeNum(w, b)
       case Underflow => Underflow
       case Got(n, rest) => Got(Num(n), rest))
    case Str =>
      (match DecodeNum(2, b)
       case Underflow => Underflow
       case Got(size, rest) =>
         if |rest| < size then Underflow else Got(Text(rest[..size]), rest[size..]))
    case SeqOf(t) =>
      (match DecodeNum(2, b)
       case Underflow => Underflow
       case Got(size, rest) =>
         match DecodeItems(t, size, rest)
         case Underflow => Underflow
         case Got(vs, rest') => Got(List(vs), rest'))
    case Struct(ts) =>
      (match DecodeFields(ts, b)
       case Underflow => Underflow
       case Got(vs, rest) => Got(Record(vs), rest))
  }

  function DecodeItems(t: Ty, n: nat, b: Bytes): Read<seq<Val>>
    decreases t, n + 1
  {
    if n == 0 then Got([], b)
    else
      match Decode(t, b)
      case Underflow => Underflow
      case Got(v, rest) =>
        match DecodeItems(t, n - 1, rest)
        case Underflow => Underflow
        case Got(vs, rest') => Got([v] + vs, rest')
  }

  function DecodeFields(ts: seq<Ty>, b: Bytes): Read<seq<Val>>
    decreases ts, 0
  {
    if ts == [] then Got([], b)
    else
      match Decode(ts[0], b)
      case Underflow => Underflow
      case Got(v, rest) =>
        match DecodeFields(ts[1..], rest)
        case Underflow => Underflow
        case Got(vs, rest') => Got([v] + vs, rest')
  }

  /** The value as it survives the string length truncation. */
  function Clip(v: Val): Val
    decreases v
  {
    match v
    case Num(n) => v
    case Text(s) => Text(s[..|s| % 0x1_0000])
    case List(vs) => List(ClipAll(vs))
    case Record(vs) => Record(ClipAll(vs))
  }

  function ClipAll(vs: seq<Val>): (r: seq<Val>)
    decreases vs
  {
    if vs == [] then [] else [Clip(vs[0])] + ClipAll(vs[1..])
  }

  /** No string in the value is longer than its 16-bit length prefix can say. */
  predicate ShortStrings(v: Val)
    decreases v
  {
    match v
    case Num(_) => true
    case Text(s) => |s| <= MAX_COUNT
    case List(vs) => forall i :: 0 <= i < |vs| ==> ShortStrings(vs[i])
    case Record(vs) => forall i :: 0 <= i < |vs| ==> ShortStrings(vs[i])
  }

  /** No vector or deque in the value is longer than `operator<<` accepts. */
  predicate ShortLists(v: Val)
    decreases v
  {
    match v
    case Num(_) => true
    case Text(_) => true
    case List(vs) => |vs| <= MAX_COUNT && forall i :: 0 <= i < |vs| ==> ShortLists(vs[i])
    case Record(vs) => forall i :: 0 <= i < |vs| ==> ShortLists(vs[i])
  }

  // ---- Numbers ----

  lemma NumRoundTrip(n: nat, w: nat, rest: Bytes)
    requires n < Limit(w)
    ensures DecodeNum(w, Image(Swap(n, w), w) + rest) == Got(n, rest)
  {
    var b := Image(Swap(n, w), w);
    assert (b + rest)[..w] == b && (b + rest)[w..] == rest;
    SwappedImage(n, w);
    FromImageOfImage(Swap(n, w), w);
    SwapTwice(n, w);
  }

  // ---- Round trip ----

  /** Reading back what was written gives the value, its over-long strings truncated,
      and leaves whatever follows. */
  lemma {:induction false} RoundTrip(v: Val, ty: Ty, rest: Bytes)
    requires HasType(v, ty) && Encode(v, ty).Some?
    ensures Decode(ty, Encode(v, ty).value + rest) == Got(Clip(v), rest)
    decreases ty, 0
  {
    match ty
    case Prim(w) => NumRoundTrip(v.bits, w, rest);
    case Str => TextRoundTrip(v.chars, rest);
    case SeqOf(t) => ListRoundTrip(v.items, t, rest);
    case Struct(ts) => FieldsRoundTrip(v.fields, ts, rest);
  }

  lemma TextRoundTrip(chars: Bytes, rest: Bytes)
    ensures Decode(Str, Encode(Text(chars), Str).value + rest) == Got(Clip(Text(chars)), rest)
  {
    var size := |chars| % 0x1_0000;
    var tail := chars[..size] + rest;
    assert Encode(Text(chars), Str).value + rest == Image(Swap(size, 2), 2) + tail;
    Limits();
    NumRoundTrip(size, 2, tail);
    assert tail[..size] == chars[..size] && tail[size..] == rest;
  }

  lemma CountedItems(t: Ty, n: nat, b: Bytes)
    requires n <= MAX_COUNT && DecodeItems(t, n, b).Got?
    ensures Decode(SeqOf(t), Image(Swap(n, 2), 2) + b)
         == Got(List(DecodeItems(t, n, b).value), DecodeItems(t, n, b).rest)
  {
    Limits();
    NumRoundTrip(n, 2, b);
  }

  lemma ListRoundTrip(vs: seq<Val>, t: Ty, rest: Bytes)
    requires HasType(List(vs), SeqOf(t)) && Encode(List(vs), SeqOf(t)).Some?
    ensures Decode(SeqOf(t), Encode(List(vs), SeqOf(t)).value + rest)
         == Got(Clip(List(vs)), rest)
    decreases t, |vs| + 2
  {
    var b, n := EncodeItems(vs, t).value, |vs|;
    ItemsRoundTrip(vs, t, rest);
    CountedItems(t, n, b + rest);
    assert Image(Swap(n, 2), 2) + b + rest == Image(Swap(n, 2), 2) + (b + rest);
  }

  lemma {:induction false} ItemsRoundTrip(vs: seq<Val>, t: Ty, rest: Bytes)
    requires forall i :: 0 <= i < |vs| ==> HasType(vs[i], t)
    requires EncodeItems(vs, t).Some?
    ensures DecodeItems(t, |vs|, EncodeItems(vs, t).value + rest) == Got(ClipAll(vs), rest)
    decreases t, |vs| + 1
  {
    if vs == [] {
      assert EncodeItems(vs, t).value + rest == rest;
    } else {
      var b, c := Encode(vs[0], t).value, EncodeItems(vs[1..], t).value;
      assert EncodeItems(vs, t).value + rest == b + (c + rest);
      RoundTrip(vs[0], t, c + rest);
      ItemsRoundTrip(vs[1..], t, rest);
    }
  }

  lemma {:induction false} FieldsRoundTrip(vs: seq<Val>, ts: seq<Ty>, rest: Bytes)
    requires |vs| == |ts| && forall i :: 0 <= i < |vs| ==> HasType(vs[i], ts[i])
    requires EncodeFields(vs, ts).Some?
    ensures DecodeFields(ts, EncodeFields(vs, ts).value + rest) == Got(ClipAll(vs), rest)
    decreases ts, 0
  {
    if vs == [] {
      assert EncodeFields(vs, ts).value + rest == rest;
    } else {
      var b, c := Encode(vs[0], ts[0]).value, EncodeFields(vs[1..], ts[1..]).value;
      assert EncodeFields(vs, ts).value + rest == b + (c + rest);
      RoundTrip(vs[0], ts[0], c + rest);
      FieldsRoundTrip(vs[1..], ts[1..], rest);
    }
  }

  /** The writer throws exactly on a value holding an over-long vector. */
  lemma {:induction false} EncodesIffShortLists(v: Val, ty: Ty)
    requires HasType(v, ty)
    ensures Encode(v, ty).Some? <==> ShortLists(v)
    decreases ty, 0
  {
    match ty
    case Prim(_) =>
    case Str =>
    case SeqOf(t) => ItemsEncode(v.items, t);
    case Struct(ts) => FieldsEncode(v.fields, ts);
  }

  lemma {:induction false} ItemsEncode(vs: seq<Val>, t: Ty)
    requires forall i :: 0 <= i < |vs| ==> HasType(vs[i], t)
    ensures EncodeItems(vs, t).Some? <==> forall i :: 0 <= i < |vs| ==> ShortLists(vs[i])
    decreases t, |vs| + 1
  {
    if vs != [] {
      EncodesIffShortLists(vs[0], t);
      ItemsEncode(vs[1..], t);
      assert forall i :: 1 <= i < |vs| ==> vs[i] == vs[1..][i - 1];
    }
  }

  lemma {:induction false} FieldsEncode(vs: seq<Val>, ts: seq<Ty>)
    requires |vs| == |ts| && forall i :: 0 <= i < |vs| ==> HasType(vs[i], ts[i])
    ensures EncodeFields(vs, ts).Some? <==> forall i :: 0 <= i < |vs| ==> ShortLists(vs[i])
    decreases ts, 0
  {
    if vs != [] {
      EncodesIffShortLists(vs[0], ts[0]);
      FieldsEncode(vs[1..], ts[1..]);
      assert forall i :: 1 <= i < |vs| ==> vs[i] == vs[1..][i - 1];
    }
  }

  /** Truncation is the identity exactly on values whose strings are short enough. */
  lemma {:induction false} ClipIdentity(v: Val)
    ensures Clip(v) == v <==> ShortStrings(v)
    decreases v, 0
  {
    match v
    case Num(_) =>
    case Text(s) =>
    case List(vs) => ClipAllIdentity(vs);
    case Record(vs) => ClipAllIdentity(vs);
  }

  lemma {:induction false} ClipAllIdentity(vs: seq<Val>)
    ensures ClipAll(vs) == vs <==> forall i :: 0 <= i < |vs| ==> ShortStrings(vs[i])
    decreases vs, 0
  {
    if vs != [] {
      ClipIdentity(vs[0]);
      ClipAllIdentity(vs[1..]);
      assert vs == [vs[0]] + vs[1..];
      assert ClipAll(vs)[0] == Clip(vs[0]) && ClipAll(vs)[1..] == ClipAll(vs[1..]);
      assert forall i :: 1 <= i < |vs| ==> vs[i] == vs[1..][i - 1];
    }
  }

  /** The exact round trip: a value comes back unchanged, in front of any bytes,
      precisely when it was written at all and none of its strings is over-long. */
  lemma ExactRoundTrip(v: Val, ty: Ty, rest: Bytes)
    requires HasType(v, ty)
    ensures ShortLists(v) && ShortStrings(v) <==>
            Encode(v, ty).Some? && Decode(ty, Encode(v, ty).value + rest) == Got(v, rest)
  {
    EncodesIffShortLists(v, ty);
    ClipIdentity(v);
    if Encode(v, ty).Some? {
      RoundTrip(v, ty, rest);
    }
  }

  // ---- Prefixes ----

  /** More input behind a successful read changes neither the value nor where the read
      stopped. */
  lemma {:induction false} DecodeExtends(ty: Ty, b: Bytes, more: Bytes)
    requires Decode(ty, b).Got?
    ensures Decode(ty, b + more) == Got(Decode(ty, b).value, Decode(ty, b).rest + more)
    decreases ty, 0
  {
    match ty
    case Prim(w) => NumExtends(w, b, more);
    case Str =>
      NumExtends(2, b, more);
      var num := DecodeNum(2, b);
      assert (num.rest + more)[..num.value] == num.rest[..num.value];
      assert (num.rest + more)[num.value..] == num.rest[num.value..] + more;
    case SeqOf(t) =>
      NumExtends(2, b, more);
      ItemsExtend(t, DecodeNum(2, b).value, DecodeNum(2, b).rest, more);
    case Struct(ts) => FieldsExtend(ts, b, more);
  }

  lemma NumExtends(w: nat, b: Bytes, more: Bytes)
    requires w <= |b|
    ensures DecodeNum(w, b + more) == Got(DecodeNum(w, b).value, DecodeNum(w, b).rest + more)
  {
    assert (b + more)[..w] == b[..w];
    assert (b + more)[w..] == b[w..] + more;
  }

  lemma {:induction false} ItemsExtend(t: Ty, n: nat, b: Bytes, more: Bytes)
    requires DecodeItems(t, n, b).Got?
    ensures DecodeItems(t, n, b + more)
         == Got(DecodeItems(t, n, b).value, DecodeItems(t, n, b).rest + more)
    decreases t, n + 1
  {
    if n > 0 {
      DecodeExtends(t, b, more);
      ItemsExtend(t, n - 1, Decode(t, b).rest, more);
    }
  }

  lemma {:induction false} FieldsExtend(ts: seq<Ty>, b: Bytes, more: Bytes)
    requires DecodeFields(ts, b).Got?
    ensures DecodeFields(ts, b + more)
         == Got(DecodeFields(ts, b).value, DecodeFields(ts, b).rest + more)
    decreases ts, 0
  {
    if ts != [] {
      DecodeExtends(ts[0], b, more);
      FieldsExtend(ts[1..], Decode(ts[0], b).rest, more);
    }
  }

  /** Cutting any encoding short makes the reader underflow. */
  lemma StrictPrefixUnderflows(v: Val, ty: Ty, cut: nat)
    requires HasType(v, ty) && Encode(v, ty).Some? && cut < |Encode(v, ty).value|
    ensures Decode(ty, Encode(v, ty).value[..cut]).Underflow?
  {
    RoundTrip(v, ty, []);
    CutUnderflows(ty, Encode(v, ty).value, cut);
  }

  lemma CutUnderflows(ty: Ty, whole: Bytes, cut: nat)
    requires Decode(ty, whole + []).Got? && Decode(ty, whole + []).rest == []
    requires cut < |whole|
    ensures Decode(ty, whole[..cut]).Underflow?
  {
    var b, more := whole[..cut], whole[cut..];
    assert b + more == whole + [];
    if Decode(ty, b).Got? {
      DecodeExtends(ty, b, more);
    }
  }

  // ---- The bytes that are written ----

  function Joined(parts: seq<Bytes>): Bytes {
    if parts == [] then [] else parts[0] + Joined(parts[1..])
  }

  /** The items' own encodings, one behind the other. */
  ghost predicate AreItems(b: Bytes, vs: seq<Val>, t: Ty)
    requires forall i :: 0 <= i < |vs| ==> HasType(vs[i], t)
  {
    exists parts: seq<Bytes> :: |parts| == |vs| && b == Joined(parts)
      && forall i :: 0 <= i < |vs| ==> Encode(vs[i], t) == Some(parts[i])
  }

  ghost predicate AreFields(b: Bytes, vs: seq<Val>, ts: seq<Ty>)
    requires |vs| == |ts| && forall i :: 0 <= i < |vs| ==> HasType(vs[i], ts[i])
  {
    exists parts: seq<Bytes> :: |parts| == |vs| && b == Joined(parts)
      && forall i :: 0 <= i < |vs| ==> Encode(vs[i], ts[i]) == Some(parts[i])
  }

  lemma {:induction false} ItemsJoined(vs: seq<Val>, t: Ty)
    requires (forall i :: 0 <= i < |vs| ==> HasType(vs[i], t)) && EncodeItems(vs, t).Some?
    ensures AreItems(EncodeItems(vs, t).value, vs, t)
    decreases |vs|
  {
    hide Encode;
    if vs == [] {
      assert Joined([]) == [];
    } else {
      ItemsJoined(vs[1..], t);
      var parts: seq<Bytes> :| |parts| == |vs| - 1 && EncodeItems(vs[1..], t).value == Joined(parts)
        && forall i :: 0 <= i < |vs| - 1 ==> Encode(vs[1..][i], t) == Some(parts[i]);
      var all := [Encode(vs[0], t).value] + parts;
      assert all[1..] == parts;
      forall i | 0 <= i < |vs| ensures Encode(vs[i], t) == Some(all[i]) {
        assert i > 0 ==> vs[i] == vs[1..][i - 1];
      }
    }
  }

  lemma {:induction false} FieldsJoined(vs: seq<Val>, ts: seq<Ty>)
    requires |vs| == |ts| && (forall i :: 0 <= i < |vs| ==> HasType(vs[i], ts[i])) && EncodeFields(vs, ts).Some?
    ensures AreFields(EncodeFields(vs, ts).value, vs, ts)
    decreases |vs|
  {
    hide Encode;
    if vs == [] {
      assert Joined([]) == [];
    } else {
      FieldsJoined(vs[1..], ts[1..]);
      var parts: seq<Bytes> :| |parts| == |vs| - 1 && EncodeFields(vs[1..], ts[1..]).value == Joined(parts)
        && forall i :: 0 <= i < |vs| - 1 ==> Encode(vs[1..][i], ts[1..][i]) == Some(parts[i]);
      var all := [Encode(vs[0], ts[0]).value] + parts;
      assert all[1..] == parts;
      forall i | 0 <= i < |vs| ensures Encode(vs[i], ts[i]) == Some(all[i]) {
        assert i > 0 ==> vs[i] == vs[1..][i - 1] && ts[i] == ts[1..][i - 1];
      }
    }
  }

  /** Numbers and counts go out in network order, counts in two bytes; of a string only as many
      characters follow as its count says; items and members follow one behind the other. */
  lemma EncodeLayout(v: Val, ty: Ty)
    requires HasType(v, ty) && Encode(v, ty).Some?
    ensures var b := Encode(v, ty).value;
            match v
            case Num(n) => b == BigEndian(n, ty.width)
            case Text(s) => b == BigEndian(|s| % 0x1_0000, 2) + s[..|s| % 0x1_0000]
            case List(vs) => b[..2] == BigEndian(|vs|, 2) && AreItems(b[2..], vs, ty.elem)
            case Record(vs) => AreFields(b, vs, ty.members)
  {
    match v
    case Num(n) => SwappedImage(n, ty.width);
    case Text(s) => SwappedImage(|s| % 0x1_0000, 2);
    case List(vs) =>
      SwappedImage(|vs|, 2);
      ItemsJoined(vs, ty.elem);
      assert Encode(v, ty).value[2..] == EncodeItems(vs, ty.elem).value;
    case Record(vs) => FieldsJoined(vs, ty.members);
  }

  // ---- What can be read ----

  lemma NumRead(w: nat, b: Bytes)
    requires w <= |b|
    ensures var n := DecodeNum(w, b).value;
            n < Limit(w) && b == Image(Swap(n, w), w) + b[w..]
  {
    var front := b[..w];
    ImageBound(front);
    SwappedImage(FromImage(front), w);
    SwapTwice(FromImage(front), w);
    ImageOfFromImage(front);
    assert b == front + b[w..];
  }

  /** The bytes read are those the value is written as. */
  ghost predicate Written(v: Val, ty: Ty, b: Bytes, rest: Bytes) {
    HasType(v, ty) && ShortStrings(v) && Encode(v, ty).Some? && b == Encode(v, ty).value + rest
  }

  ghost predicate ItemsWritten(vs: seq<Val>, t: Ty, b: Bytes, rest: Bytes) {
    && (forall i :: 0 <= i < |vs| ==> HasType(vs[i], t) && ShortStrings(vs[i]))
    && EncodeItems(vs, t).Some? && b == EncodeItems(vs, t).value + rest
  }

  ghost predicate FieldsWritten(vs: seq<Val>, ts: seq<Ty>, b: Bytes, rest: Bytes) {
    && |vs| == |ts| && (forall i :: 0 <= i < |vs| ==> HasType(vs[i], ts[i]) && ShortStrings(vs[i]))
    && EncodeFields(vs, ts).Some? && b == EncodeFields(vs, ts).value + rest
  }

  lemma ShortText(chars: Bytes)
    requires |chars| <= MAX_COUNT
    ensures HasType(Text(chars), Str) && ShortStrings(Text(chars))
    ensures Encode(Text(chars), Str) == Some(Image(Swap(|chars|, 2), 2) + chars)
  {
    hide Swap;
    hide Image;
    assert |chars| % 0x1_0000 == |chars|;
    assert chars[..|chars|] == chars;
  }

  lemma TextRead(b: Bytes)
    requires Decode(Str, b).Got?
    ensures Written(Decode(Str, b).value, Str, b, Decode(Str, b).rest)
  {
    var r := DecodeNum(2, b);
    var chars, rest := r.rest[..r.value], r.rest[r.value..];
    assert Decode(Str, b) == Got(Text(chars), rest);
    assert r.rest == chars + rest;
    Limits();
    NumRead(2, b);
    ShortText(chars);
    assert b == Image(Swap(|chars|, 2), 2) + chars + rest by {
      hide *;
    }
    hide *;
    IsWritten(Text(chars), Str, b, rest);
  }

  lemma IsWritten(v: Val, ty: Ty, b: Bytes, rest: Bytes)
    requires HasType(v, ty) && ShortStrings(v) && Encode(v, ty).Some? && b == Encode(v, ty).value + rest
    ensures Written(v, ty, b, rest)
  {
  }

  lemma ListRead(t: Ty, b: Bytes, vs: seq<Val>, rest: Bytes)
    requires |b| >= 2 && |vs| == DecodeNum(2, b).value && ItemsWritten(vs, t, DecodeNum(2, b).rest, rest)
    ensures Written(List(vs), SeqOf(t), b, rest)
  {
    Limits();
    NumRead(2, b);
    hide Swap;
    hide Image;
    hide DecodeNum;
    hide EncodeItems;
    assert b == Image(Swap(|vs|, 2), 2) + EncodeItems(vs, t).value + rest;
  }

  lemma ItemRead(v: Val, vs: seq<Val>, t: Ty, b: Bytes, mid: Bytes, rest: Bytes)
    requires Written(v, t, b, mid) && ItemsWritten(vs, t, mid, rest)
    ensures ItemsWritten([v] + vs, t, b, rest)
  {
    hide HasType;
    hide ShortStrings;
    hide Encode;
    assert ([v] + vs)[1..] == vs;
    assert b == Encode(v, t).value + EncodeItems(vs, t).value + rest;
  }

  lemma FieldRead(v: Val, vs: seq<Val>, t: Ty, ts: seq<Ty>, b: Bytes, mid: Bytes, rest: Bytes)
    requires Written(v, t, b, mid) && FieldsWritten(vs, ts, mid, rest)
    ensures FieldsWritten([v] + vs, [t] + ts, b, rest)
  {
    hide HasType;
    hide ShortStrings;
    hide Encode;
    assert ([v] + vs)[1..] == vs && ([t] + ts)[1..] == ts;
    assert b == Encode(v, t).value + EncodeFields(vs, ts).value + rest;
  }

  lemma RecordRead(ts: seq<Ty>, b: Bytes, vs: seq<Val>, rest: Bytes)
    requires FieldsWritten(vs, ts, b, rest)
    ensures Written(Record(vs), Struct(ts), b, rest)
  {
  }

  lemma NothingRead(b: Bytes)
    ensures FieldsWritten([], [], b, b)
    ensures forall t :: ItemsWritten([], t, b, b)
  {
    assert b == [] + b;
  }

  lemma {:induction false} DecodeEncodes(ty: Ty, b: Bytes)
    requires Decode(ty, b).Got?
    ensures Written(Decode(ty, b).value, ty, b, Decode(ty, b).rest)
    decreases ty, 0
  {
    hide Written;
    match ty
    case Prim(w) => PrimRead(w, b);
    case Str => TextRead(b);
    case SeqOf(t) =>
      var r := DecodeNum(2, b);
      ItemsEncodes(t, r.value, r.rest);
      hide ItemsWritten;
      ListRead(t, b, DecodeItems(t, r.value, r.rest).value, DecodeItems(t, r.value, r.rest).rest);
    case Struct(ts) =>
      FieldsEncodes(ts, b);
      hide FieldsWritten;
      RecordRead(ts, b, DecodeFields(ts, b).value, DecodeFields(ts, b).rest);
  }

  lemma PrimRead(w: nat, b: Bytes)
    requires w <= |b|
    ensures Written(Num(DecodeNum(w, b).value), Prim(w), b, b[w..])
  {
    NumRead(w, b);
    hide DecodeNum;
    hide Image;
    hide Swap;
  }

  lemma {:induction false} ItemsEncodes(t: Ty, n: nat, b: Bytes)
    requires DecodeItems(t, n, b).Got?
    ensures |DecodeItems(t, n, b).value| == n
    ensures ItemsWritten(DecodeItems(t, n, b).value, t, b, DecodeItems(t, n, b).rest)
    decreases t, n + 1
  {
    hide ItemsWritten;
    hide Written;
    if n == 0 {
      NothingRead(b);
    } else {
      var first := Decode(t, b);
      DecodeEncodes(t, b);
      ItemsEncodes(t, n - 1, first.rest);
      var r := DecodeItems(t, n - 1, first.rest);
      hide Decode;
      ItemRead(first.value, r.value, t, b, first.rest, r.rest);
    }
  }

  lemma {:induction false} FieldsEncodes(ts: seq<Ty>, b: Bytes)
    requires DecodeFields(ts, b).Got?
    ensures FieldsWritten(DecodeFields(ts, b).value, ts, b, DecodeFields(ts, b).rest)
    decreases ts, 0
  {
    hide FieldsWritten;
    hide Written;
    if ts == [] {
      NothingRead(b);
    } else {
      var first := Decode(ts[0], b);
      DecodeEncodes(ts[0], b);
      FieldsEncodes(ts[1..], first.rest);
      var r := DecodeFields(ts[1..], first.rest);
      hide Decode;
      FieldRead(first.value, r.value, ts[0], ts[1..], b, first.rest, r.rest);
      assert [ts[0]] + ts[1..] == ts;
    }
  }

  /** A read succeeds exactly on what a write of that value puts there, in front of the rest. */
  lemma DecodeIff(ty: Ty, b: Bytes, v: Val, rest: Bytes)
    ensures Decode(ty, b) == Got(v, rest)
       <==> HasType(v, ty) && ShortStrings(v) && Encode(v, ty).Some? && b == Encode(v, ty).value + rest
  {
    if Decode(ty, b).Got? {
      DecodeEncodes(ty, b);
    }
    if HasType(v, ty) && Encode(v, ty).Some? {
      RoundTrip(v, ty, rest);
      ClipIdentity(v);
    }
    hide Decode;
    hide Encode;
    hide Clip;
  }

  // ---- Lists of sequence ids ----

  /** The payload of a RICH_ACK: a deque of `uint32_t`. */
  const RICH_ACK_TYPE: Ty := SeqOf(Prim(4))

  function IdList(ids: seq<u32>): (v: Val)
    ensures v.List? && |v.items| == |ids|
    ensures forall i :: 0 <= i < |ids| ==> v.items[i] == Num(ids[i])
  {
    List(Nums(ids))
  }

  function Nums(ids: seq<u32>): (vs: seq<Val>)
    ensures |vs| == |ids|
    ensures forall i :: 0 <= i < |ids| ==> vs[i] == Num(ids[i])
  {
    if ids == [] then [] else [Num(ids[0])] + Nums(ids[1..])
  }

  function Ids(vs: seq<Val>): seq<u32> {
    if vs == [] then []
    else (if vs[0].Num? && vs[0].bits < TWO_TO_THE_32 then [vs[0].bits] else []) + Ids(vs[1..])
  }

  lemma {:induction false} IdsOfNums(ids: seq<u32>)
    ensures Ids(Nums(ids)) == ids
  {
    if ids != [] {
      IdsOfNums(ids[1..]);
      assert Nums(ids)[1..] == Nums(ids[1..]);
      assert ids == [ids[0]] + ids[1..];
    }
  }

  lemma IdListEncodes(ids: seq<u32>)
    requires |ids| <= MAX_COUNT
    ensures HasType(IdList(ids), RICH_ACK_TYPE) && Encode(IdList(ids), RICH_ACK_TYPE).Some?
  {
    Limits();
    forall i | 0 <= i < |ids| ensures HasType(IdList(ids).items[i], Prim(4)) {
    }
    EncodesIffShortLists(IdList(ids), RICH_ACK_TYPE);
  }

  function EncodeIds(ids: seq<u32>): Bytes
    requires |ids| <= MAX_COUNT
  {
    IdListEncodes(ids);
    Encode(IdList(ids), RICH_ACK_TYPE).value
  }

  /** The ids a RICH_ACK payload names; none when it cannot be decoded. */
  function DecodeIds(payload: Bytes): seq<u32> {
    match Decode(RICH_ACK_TYPE, payload)
    case Underflow => []
    case Got(v, _) => if v.List? then Ids(v.items) else []
  }

  lemma NothingToDecode()
    ensures DecodeIds([]) == []
  {
  }

  lemma IdsRoundTrip(ids: seq<u32>)
    requires |ids| <= MAX_COUNT
    ensures DecodeIds(EncodeIds(ids)) == ids
    ensures |EncodeIds(ids)| >= 2
  {
    IdListEncodes(ids);
    var v := IdList(ids);
    ExactRoundTripOfIds(ids);
    RoundTrip(v, RICH_ACK_TYPE, []);
    assert EncodeIds(ids) + [] == EncodeIds(ids);
    IdsOfNums(ids);
  }

  lemma ExactRoundTripOfIds(ids: seq<u32>)
    ensures Clip(IdList(ids)) == IdList(ids)
  {
    ClipIdentity(IdList(ids));
  }
}

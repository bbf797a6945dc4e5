/** Byte images of unsigned integers and the byte swap of `endian::swap`, on a
    little-endian host. */
module Endian {
  import opened Numbers

  /** One past the largest value of a `w`-byte unsigned integer. */
  function Limit(w: nat): nat {
    if w == 0 then 1 else 0x100 * Limit(w - 1)
  }

  /** The `w` bytes of `n` as they lie in the memory of a little-endian host. */
  function Image(n: nat, w: nat): (b: Bytes)
    ensures |b| == w
    decreases w
  {
    if w == 0 then [] else [n % 0x100] + Image(n / 0x100, w - 1)
  }

  /** The integer whose memory image is `b`. */
  function FromImage(b: Bytes): nat {
    if b == [] then 0 else b[0] + 0x100 * FromImage(b[1..])
  }

  function Reverse(b: Bytes): (r: Bytes)
    ensures |r| == |b|
  {
    if b == [] then [] else Reverse(b[1..]) + [b[0]]
  }

  /** `endian::swap` of a `w`-byte integer: the integer with the reversed image. */
  function Swap(n: nat, w: nat): nat {
    FromImage(Reverse(Image(n, w)))
  }

  /** Network byte order: most significant byte first. */
  function BigEndian(n: nat, w: nat): (b: Bytes)
    ensures |b| == w
    decreases w
  {
    if w == 0 then [] else BigEndian(n / 0x100, w - 1) + [n % 0x100]
  }

  lemma {:induction false} ImageBound(b: Bytes)
    ensures FromImage(b) < Limit(|b|)
  {
    if b != [] {
      ImageBound(b[1..]);
    }
  }

  lemma {:induction false} ImageOfFromImage(b: Bytes)
    ensures Image(FromImage(b), |b|) == b
  {
    if b != [] {
      ImageOfFromImage(b[1..]);
      assert FromImage(b) / 0x100 == FromImage(b[1..]);
      assert b == [b[0]] + b[1..];
    }
  }

  lemma {:induction false} FromImageOfImage(n: nat, w: nat)
    requires n < Limit(w)
    ensures FromImage(Image(n, w)) == n
    decreases w
  {
    if w > 0 {
      FromImageOfImage(n / 0x100, w - 1);
      assert Image(n, w)[1..] == Image(n / 0x100, w - 1);
    }
  }

  lemma {:induction false} ReverseAppend(b: Bytes, x: u8)
    ensures Reverse(b + [x]) == [x] + Reverse(b)
  {
    if b != [] {
      ReverseAppend(b[1..], x);
      assert (b + [x])[1..] == b[1..] + [x];
    } else {
      assert b + [x] == [x];
    }
  }

  lemma {:induction false} ReverseTwice(b: Bytes)
    ensures Reverse(Reverse(b)) == b
  {
    if b != [] {
      ReverseTwice(b[1..]);
      ReverseAppend(Reverse(b[1..]), b[0]);
      assert b == [b[0]] + b[1..];
    }
  }

  lemma {:induction false} ReversedImage(n: nat, w: nat)
    ensures Reverse(Image(n, w)) == BigEndian(n, w)
    decreases w
  {
    if w > 0 {
      ReversedImage(n / 0x100, w - 1);
      assert Image(n, w)[1..] == Image(n / 0x100, w - 1);
    }
  }

  /** Swapping before the copy into the buffer lays the bytes out in network order. */
  lemma SwappedImage(n: nat, w: nat)
    ensures Image(Swap(n, w), w) == BigEndian(n, w)
    ensures Swap(n, w) < Limit(w)
  {
    ImageOfFromImage(Reverse(Image(n, w)));
    ImageBound(Reverse(Image(n, w)));
    ReversedImage(n, w);
  }

  /** The same swap converts to and from network order. */
  lemma SwapTwice(n: nat, w: nat)
    requires n < Limit(w)
    ensures Swap(Swap(n, w), w) == n
  {
    ImageOfFromImage(Reverse(Image(n, w)));
    ReverseTwice(Image(n, w));
    FromImageOfImage(n, w);
  }

  lemma Limits()
    ensures Limit(1) == 0x100 && Limit(2) == 0x1_0000 && Limit(4) == TWO_TO_THE_32
  {
  }

  /** The number whose digits to base 256 the bytes are, the most significant first. */
  function Value(b: Bytes): nat {
    if b == [] then 0 else 0x100 * Value(b[..|b| - 1]) + b[|b| - 1]
  }

  /** The network order of a number is the only one of its width that stands for it. */
  lemma {:induction false} BigEndianIff(n: nat, w: nat, b: Bytes)
    requires n < Limit(w) && |b| == w
    ensures b == BigEndian(n, w) <==> Value(b) == n
    decreases w
  {
    if w > 0 {
      BigEndianIff(n / 0x100, w - 1, b[..w - 1]);
      assert b == b[..w - 1] + [b[w - 1]];
      assert BigEndian(n, w)[..w - 1] == BigEndian(n / 0x100, w - 1);
    }
  }
}

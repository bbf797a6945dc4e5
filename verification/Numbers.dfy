/** Fixed-width unsigned integers of the C++ sources, with the bit operations the
    session applies to them written as arithmetic. */
module Numbers {

  datatype Option<+T> = None | Some(value: T)

  type u8 = x: int | 0 <= x < 0x100
  type u16 = x: int | 0 <= x < 0x1_0000
  type u32 = x: int | 0 <= x < 0x1_0000_0000

  const TWO_TO_THE_32: int := 0x1_0000_0000

  type Bytes = seq<u8>

  ghost predicate Ascending(s: seq<int>) {
    forall i, j :: 0 <= i < j < |s| ==> s[i] < s[j]
  }

  function Members(s: seq<u32>): set<u32> {
    set k | k in s
  }

  /** `x++` on a `uint32_t`. */
  function Increment(x: u32): u32 {
    if x == TWO_TO_THE_32 - 1 then 0 else x + 1
  }

  lemma IncrementWraps(x: u32)
    ensures Increment(x) == (x + 1) % TWO_TO_THE_32
  {
  }

  /** `x - y` on `uint32_t` operands. */
  function Subtract(x: u32, y: u32): u32 {
    if y <= x then x - y else x - y + TWO_TO_THE_32
  }

  /** `(x & (1U << i)) != 0`. */
  predicate BitAt(x: nat, i: nat)
    decreases i
  {
    if i == 0 then x % 2 == 1 else BitAt(x / 2, i - 1)
  }

  /** `x | (1U << i)`. */
  function WithBit(x: nat, i: nat): (r: nat)
    decreases i
  {
    if i == 0 then (if x % 2 == 1 then x else x + 1)
    else 2 * WithBit(x / 2, i - 1) + x % 2
  }

  /** `x << k` on a `uint32_t`, one doubling at a time. At `k == 32`, which C++ leaves
      undefined, every bit has been shifted out. */
  function ShiftLeft(x: u32, k: nat): u32
    decreases k
  {
    if k == 0 then x else ShiftLeft(2 * x % TWO_TO_THE_32, k - 1)
  }

  function Pow2(n: nat): nat {
    if n == 0 then 1 else 2 * Pow2(n - 1)
  }

  lemma {:induction false} WithBitAt(x: nat, k: nat, i: nat)
    ensures BitAt(WithBit(x, k), i) == (i == k || BitAt(x, i))
    decreases k
  {
    if k > 0 && i > 0 {
      WithBitAt(x / 2, k - 1, i - 1);
      assert WithBit(x, k) / 2 == WithBit(x / 2, k - 1);
    } else if k == 0 && i > 0 {
      assert WithBit(x, 0) / 2 == x / 2;
    }
  }

  lemma {:induction false} WithBitBound(x: nat, k: nat, n: nat)
    requires k < n && x < Pow2(n)
    ensures WithBit(x, k) < Pow2(n)
    decreases n
  {
    var half := Pow2(n - 1);
    assert Pow2(n) == 2 * half;
    var q, r := x / 2, x % 2;
    assert x == 2 * q + r;
    if k > 0 {
      WithBitBound(q, k - 1, n - 1);
      assert WithBit(x, k) == 2 * WithBit(q, k - 1) + r;
    } else {
      assert WithBit(x, k) == 2 * q + 1;
    }
  }

  lemma {:induction false} NoBitsInZero(i: nat)
    ensures !BitAt(0, i)
    decreases i
  {
    if i > 0 {
      NoBitsInZero(i - 1);
    }
  }

  /** Adding a high power of two leaves the low bits alone. */
  lemma {:induction false} LowBits(x: nat, n: nat, i: nat)
    requires i < n
    ensures BitAt(x + Pow2(n), i) == BitAt(x, i)
    decreases n
  {
    assert (x + Pow2(n)) / 2 == x / 2 + Pow2(n - 1);
    if i > 0 {
      LowBits(x / 2, n - 1, i - 1);
    }
  }

  lemma DoubleBit(x: u32, i: nat)
    requires i < 32
    ensures BitAt(2 * x % TWO_TO_THE_32, i) == (i > 0 && BitAt(x, i - 1))
  {
    var y := 2 * x % TWO_TO_THE_32;
    DoubledBit(x, i);
    Pow2Of32();
    Wrapped(x);
    hide BitAt;
    hide Pow2;
    if 2 * x != y {
      LowBits(y, 32, i);
    }
  }

  lemma DoubledBit(x: nat, i: nat)
    ensures BitAt(2 * x, i) == (i > 0 && BitAt(x, i - 1))
  {
  }

  lemma Wrapped(x: u32)
    ensures 2 * x % TWO_TO_THE_32 == 2 * x || 2 * x == 2 * x % TWO_TO_THE_32 + TWO_TO_THE_32
  {
  }

  lemma Pow2Of32()
    ensures Pow2(32) == TWO_TO_THE_32
  {
    assert Pow2(8) == 0x100 && Pow2(16) == 0x1_0000 && Pow2(24) == 0x100_0000;
  }

  /** Bit `i` of a shifted word is bit `i - k` of the word; the low `k` bits are clear. */
  lemma {:induction false} ShiftLeftAt(x: u32, k: nat, i: nat)
    requires i < 32
    ensures BitAt(ShiftLeft(x, k), i) == (k <= i && BitAt(x, i - k))
    decreases k
  {
    if k > 0 {
      ShiftLeftAt(2 * x % TWO_TO_THE_32, k - 1, i);
      if k - 1 <= i {
        DoubleBit(x, i - (k - 1));
      }
    }
  }
}

/** The growable bitset: 64-bit blocks whose logical bit 0 is the highest bit of the first
    block. Specified by `BitIn`, the value at a logical index. */
module BitSet {
  import opened Numbers

  const BLOCK: nat := 64

  function Zeros(n: nat): (b: seq<bool>)
    ensures |b| == n && forall k :: 0 <= k < n ==> !b[k]
  {
    if n == 0 then [] else [false] + Zeros(n - 1)
  }

  /** A `std::bitset<64>`, bit `k` at position `k`. */
  type Block = b: seq<bool> | |b| == BLOCK witness Zeros(BLOCK)

  type Blocks = seq<Block>

  /** DYN_BIT_INDEX */
  function Position(i: nat): (k: nat)
    ensures k < BLOCK
  {
    BLOCK - 1 - i % BLOCK
  }

  predicate BitIn(bs: Blocks, i: nat) {
    i / BLOCK < |bs| && bs[i / BLOCK][Position(i)]
  }

  function Assign(bs: Blocks, i: nat, value: bool): (r: Blocks)
    requires i / BLOCK < |bs|
    ensures |r| == |bs|
  {
    bs[i / BLOCK := bs[i / BLOCK][Position(i) := value]]
  }

  lemma SameIndex(i: nat, j: nat)
    requires i / BLOCK == j / BLOCK && Position(i) == Position(j)
    ensures i == j
  {
    assert i == BLOCK * (i / BLOCK) + i % BLOCK;
    assert j == BLOCK * (j / BLOCK) + j % BLOCK;
  }

  lemma AssignBit(bs: Blocks, i: nat, value: bool, j: nat)
    requires i / BLOCK < |bs|
    ensures BitIn(Assign(bs, i, value), j) == if j == i then value else BitIn(bs, j)
  {
    if j / BLOCK == i / BLOCK && Position(j) == Position(i) {
      SameIndex(i, j);
    }
  }

  /** Two bitsets of one capacity with the same bits are the same blocks. */
  lemma SameBlocks(a: Blocks, b: Blocks)
    requires |a| == |b| && forall i: nat :: BitIn(a, i) == BitIn(b, i)
    ensures a == b
  {
    forall j | 0 <= j < |a| ensures a[j] == b[j] {
      forall k | 0 <= k < BLOCK ensures a[j][k] == b[j][k] {
        var i := BLOCK * j + (BLOCK - 1 - k);
        assert i / BLOCK == j && Position(i) == k;
        assert BitIn(a, i) == BitIn(b, i);
      }
    }
  }

  // ---- Values of the operations ----

  function EmptyBlocks(n: nat): (bs: Blocks)
    ensures |bs| == n
    ensures forall j, k :: 0 <= j < n && 0 <= k < BLOCK ==> !bs[j][k]
  {
    if n == 0 then [] else EmptyBlocks(n - 1) + [Zeros(BLOCK)]
  }

  /** At least `n` blocks; the new ones are clear. */
  function Resized(bs: Blocks, n: nat): (r: Blocks)
    ensures |r| == if n <= |bs| then |bs| else n
    ensures forall i: nat :: BitIn(r, i) == BitIn(bs, i)
  {
    if n <= |bs| then bs else bs + EmptyBlocks(n - |bs|)
  }

  datatype Op = And | Or | Xor

  predicate Eval(op: Op, a: bool, b: bool) {
    match op
    case And => a && b
    case Or => a || b
    case Xor => a != b
  }

  /** The result of `&`, `|` or `^`: the larger capacity, each bit combined, missing bits
      read as clear. */
  ghost predicate Combines(op: Op, a: Blocks, b: Blocks, r: Blocks) {
    && |r| == (if |a| >= |b| then |a| else |b|)
    && forall i: nat :: BitIn(r, i) == Eval(op, BitIn(a, i), BitIn(b, i))
  }

  function Combine(op: Op, a: Blocks, b: Blocks): (r: Blocks)
    ensures Combines(op, a, b, r)
  {
    CombineTo(op, a, b, Resized(a, |b|), BLOCK * (if |a| >= |b| then |a| else |b|))
  }

  /** The operation has one result: whatever combines the operands is `Combine` of them. */
  lemma CombinesUnique(op: Op, a: Blocks, b: Blocks, r: Blocks)
    requires Combines(op, a, b, r)
    ensures r == Combine(op, a, b)
  {
    SameBlocks(r, Combine(op, a, b));
  }

  /** The first `n` bits combined, the others as they are in `base`. */
  function CombineTo(op: Op, a: Blocks, b: Blocks, base: Blocks, n: nat): (r: Blocks)
    requires n <= BLOCK * |base|
    ensures |r| == |base|
    ensures forall i: nat ::
              BitIn(r, i) == if i < n then Eval(op, BitIn(a, i), BitIn(b, i)) else BitIn(base, i)
  {
    if n == 0 then base
    else
      var r := CombineTo(op, a, b, base, n - 1);
      var value := Eval(op, BitIn(a, n - 1), BitIn(b, n - 1));
      assert (n - 1) / BLOCK < |base|;
      assert forall i: nat :: BitIn(Assign(r, n - 1, value), i) == (if i == n - 1 then value else BitIn(r, i)) by {
        forall i: nat ensures BitIn(Assign(r, n - 1, value), i) == (if i == n - 1 then value else BitIn(r, i)) {
          AssignBit(r, n - 1, value, i);
        }
      }
      Assign(r, n - 1, value)
  }

  // ---- One-bit shifts of all blocks ----

  function BlockLeft(b: Block): Block {
    [false] + b[..BLOCK - 1]
  }

  function BlockRight(b: Block): Block {
    b[1..] + [false]
  }

  /** The flat shift by `n` towards index 0. */
  ghost predicate ShiftedLeft(bs: Blocks, n: nat, r: Blocks) {
    |r| == |bs| && forall i: nat :: BitIn(r, i) == BitIn(bs, i + n)
  }

  /** The flat shift by `n` away from index 0, within the capacity. */
  ghost predicate ShiftedRight(bs: Blocks, n: nat, r: Blocks) {
    |r| == |bs| && forall i: nat ::
      BitIn(r, i) == (i < BLOCK * |bs| && n <= i && BitIn(bs, i - n))
  }

  /** After the left loop has passed blocks `..j`: they hold their final bits, except that
      the carry into the last of them is still missing. */
  ghost predicate LeftUpTo(bs: Blocks, j: nat, r: Blocks) {
    && |r| == |bs| && j <= |bs|
    && (forall m :: j <= m < |bs| ==> r[m] == bs[m])
    && (forall m, k :: 0 <= m < j && 0 < k < BLOCK ==> r[m][k] == bs[m][k - 1])
    && (forall m :: 0 <= m < j ==> r[m][0] == (m + 1 < j && bs[m + 1][BLOCK - 1]))
  }

  lemma LeftDone(bs: Blocks, r: Blocks)
    requires LeftUpTo(bs, |bs|, r)
    ensures ShiftedLeft(bs, 1, r)
  {
    forall i: nat ensures BitIn(r, i) == BitIn(bs, i + 1) {
      var m, k := i / BLOCK, Position(i);
      if k > 0 {
        assert (i + 1) / BLOCK == m && Position(i + 1) == k - 1;
      } else {
        assert (i + 1) / BLOCK == m + 1 && Position(i + 1) == BLOCK - 1;
      }
    }
  }

  ghost predicate RightFrom(bs: Blocks, j: nat, r: Blocks) {
    && |r| == |bs| && j <= |bs|
    && (forall m :: 0 <= m < j ==> r[m] == bs[m])
    && (forall m, k :: j <= m < |bs| && 0 <= k < BLOCK - 1 ==> r[m][k] == bs[m][k + 1])
    && (forall m :: j <= m < |bs| ==> r[m][BLOCK - 1] == (j < m && bs[m - 1][0]))
  }

  lemma RightDone(bs: Blocks, r: Blocks)
    requires RightFrom(bs, 0, r)
    ensures ShiftedRight(bs, 1, r)
  {
    forall i: nat ensures BitIn(r, i) == (i < BLOCK * |bs| && 1 <= i && BitIn(bs, i - 1)) {
      var m, k := i / BLOCK, Position(i);
      assert i < BLOCK * |bs| <==> m < |bs|;
      if m < |bs| {
        if k < BLOCK - 1 {
          assert (i - 1) / BLOCK == m && Position(i - 1) == k + 1;
        } else if i > 0 {
          assert (i - 1) / BLOCK == m - 1 && Position(i - 1) == 0;
        }
      }
    }
  }

  lemma LeftAgain(bs: Blocks, n: nat, mid: Blocks, r: Blocks)
    requires ShiftedLeft(bs, n, mid) && ShiftedLeft(mid, 1, r)
    ensures ShiftedLeft(bs, n + 1, r)
  {
    forall i: nat ensures BitIn(r, i) == BitIn(bs, i + (n + 1)) {
      assert BitIn(r, i) == BitIn(mid, i + 1) == BitIn(bs, i + 1 + n);
    }
  }

  lemma RightAgain(bs: Blocks, n: nat, mid: Blocks, r: Blocks)
    requires ShiftedRight(bs, n, mid) && ShiftedRight(mid, 1, r)
    ensures ShiftedRight(bs, n + 1, r)
  {
    forall i: nat ensures BitIn(r, i) == (i < BLOCK * |bs| && n + 1 <= i && BitIn(bs, i - (n + 1))) {
      if 1 <= i {
        assert BitIn(mid, i - 1) == (i - 1 < BLOCK * |bs| && n <= i - 1 && BitIn(bs, i - 1 - n));
      }
    }
  }

  // ---- Index lists ----

  /** The set bits below `n`, ascending: what `serialize` lists. */
  function IndexesBelow(bs: Blocks, n: nat): seq<nat> {
    if n == 0 then []
    else IndexesBelow(bs, n - 1) + if BitIn(bs, n - 1) then [n - 1] else []
  }

  function Indexes(bs: Blocks): seq<nat> {
    IndexesBelow(bs, BLOCK * |bs|)
  }

  lemma {:induction false} IndexesBelowExact(bs: Blocks, n: nat)
    ensures Ascending(IndexesBelow(bs, n))
    ensures forall k: nat :: k in IndexesBelow(bs, n) <==> k < n && BitIn(bs, k)
  {
    if n > 0 {
      IndexesBelowExact(bs, n - 1);
      var before := IndexesBelow(bs, n - 1);
      forall i, j | 0 <= i < j < |IndexesBelow(bs, n)|
        ensures IndexesBelow(bs, n)[i] < IndexesBelow(bs, n)[j]
      {
        assert before[i] in before;
      }
    }
  }

  /** The index list is strictly increasing and names exactly the set bits. */
  lemma IndexesExact(bs: Blocks)
    ensures Ascending(Indexes(bs))
    ensures forall k: nat :: k in Indexes(bs) <==> BitIn(bs, k)
  {
    IndexesBelowExact(bs, BLOCK * |bs|);
    forall k: nat | BitIn(bs, k) ensures k < BLOCK * |bs| {
      assert k == BLOCK * (k / BLOCK) + k % BLOCK;
    }
  }

  /** The lists `deserialize` handles inside the memory it allocates: not empty, and with
      no index beyond the block of a last index above 0. */
  predicate Readable(indexes: seq<nat>) {
    && indexes != []
    && indexes[|indexes| - 1] > 0
    && forall i :: 0 <= i < |indexes| ==> indexes[i] / BLOCK <= indexes[|indexes| - 1] / BLOCK
  }

  /** A serialized bitset can be read back exactly when some bit above index 0 is set. */
  lemma ReadableIff(bs: Blocks)
    ensures Readable(Indexes(bs)) <==> exists i: nat :: i > 0 && BitIn(bs, i)
  {
    IndexesExact(bs);
    var l := Indexes(bs);
    if Readable(l) {
      assert l[|l| - 1] in l;
    }
    if i: nat :| i > 0 && BitIn(bs, i) {
      assert i in l;
      var j :| 0 <= j < |l| && l[j] == i;
      assert l[j] <= l[|l| - 1];
      forall m | 0 <= m < |l| ensures l[m] / BLOCK <= l[|l| - 1] / BLOCK {
        QuotientMonotone(l[m], l[|l| - 1]);
      }
    }
  }

  lemma QuotientMonotone(a: nat, b: nat)
    requires a <= b
    ensures a / BLOCK <= b / BLOCK
  {
  }

  /** `operator==` */
  ghost predicate SameBits(a: Blocks, b: Blocks) {
    forall i: nat :: BitIn(a, i) == BitIn(b, i)
  }

  // ---- The object ----

  class DynamicBitSet {
    var bitsets: Blocks

    constructor (bs: Blocks)
      ensures bitsets == bs
    {
      bitsets := bs;
    }

    method Increase(size: nat) returns (capacity: nat)
      modifies this
      ensures |bitsets| == |old(bitsets)| + size && capacity == BLOCK * |bitsets|
      ensures SameBits(bitsets, old(bitsets))
    {
      bitsets := Resized(bitsets, |bitsets| + size);
      capacity := BLOCK * |bitsets|;
    }

    method Get(i: nat) returns (r: bool)
      ensures r == BitIn(bitsets, i)
    {
      if i / BLOCK >= |bitsets| {
        return false;
      }
      return bitsets[i / BLOCK][Position(i)];
    }

    /** `bits[i] = value`, growing first when `i` is beyond the capacity. */
    method Set(i: nat, value: bool)
      modifies this
      ensures |bitsets| == if i / BLOCK < |old(bitsets)| then |old(bitsets)| else i / BLOCK + 1
      ensures forall j: nat :: BitIn(bitsets, j) == if j == i then value else BitIn(old(bitsets), j)
    {
      bitsets := Resized(bitsets, i / BLOCK + 1);
      ghost var bs := bitsets;
      bitsets := Assign(bitsets, i, value);
      forall j: nat ensures BitIn(bitsets, j) == if j == i then value else BitIn(bs, j) {
        AssignBit(bs, i, value, j);
      }
    }

    method LeftShift(nb: nat)
      modifies this
      ensures ShiftedLeft(old(bitsets), nb, bitsets)
    {
      for done := 0 to nb
        invariant ShiftedLeft(old(bitsets), done, bitsets)
      {
        ghost var mid := bitsets;
        LeftOnce();
        LeftAgain(old(bitsets), done, mid, bitsets);
      }
    }

    /** Every block one place to the left, each passing its top bit to the block before it. */
    method LeftOnce()
      modifies this
      ensures ShiftedLeft(old(bitsets), 1, bitsets)
    {
      for j := 0 to |bitsets|
        invariant LeftUpTo(old(bitsets), j, bitsets)
      {
        if j != 0 && bitsets[j][BLOCK - 1] {
          bitsets := bitsets[j - 1 := bitsets[j - 1][0 := true]];
        }
        bitsets := bitsets[j := BlockLeft(bitsets[j])];
      }
      LeftDone(old(bitsets), bitsets);
    }

    method RightShift(nb: nat)
      modifies this
      ensures ShiftedRight(old(bitsets), nb, bitsets)
    {
      BitsInCapacity(bitsets);
      for done := 0 to nb
        invariant ShiftedRight(old(bitsets), done, bitsets)
      {
        ghost var mid := bitsets;
        RightOnce();
        RightAgain(old(bitsets), done, mid, bitsets);
      }
    }

    method RightOnce()
      modifies this
      ensures ShiftedRight(old(bitsets), 1, bitsets)
    {
      var j := |bitsets|;
      while j > 0
        invariant 0 <= j && RightFrom(old(bitsets), j, bitsets)
      {
        j := j - 1;
        if j + 1 != |bitsets| && bitsets[j][0] {
          bitsets := bitsets[j + 1 := bitsets[j + 1][BLOCK - 1 := true]];
        }
        bitsets := bitsets[j := BlockRight(bitsets[j])];
      }
      RightDone(old(bitsets), bitsets);
    }

    /** `result` may be this bitset, a copy of it, or `other`. */
    method ApplyOperation(op: Op, result: DynamicBitSet, other: DynamicBitSet)
      requires result.bitsets == bitsets
      modifies result
      ensures Combines(op, old(bitsets), old(other.bitsets), result.bitsets)
    {
      ghost var a, b := bitsets, other.bitsets;
      var currentBlocks, otherBlocks := |bitsets|, |other.bitsets|;
      var limit := BLOCK * (if currentBlocks >= otherBlocks then currentBlocks else otherBlocks);
      for i := 0 to limit
        invariant result != this ==> bitsets == a
        invariant result != other ==> other.bitsets == b
        invariant |result.bitsets| >= |a| && BLOCK * |result.bitsets| <= BLOCK * |a| + limit
        invariant |result.bitsets| == (if i > BLOCK * |a| then (i - 1) / BLOCK + 1 else |a|)
        invariant forall j: nat :: BitIn(result.bitsets, j)
                    == if j < i then Eval(op, BitIn(a, j), BitIn(b, j)) else BitIn(a, j)
      {
        var bitA, bitB := false, false;
        if i < BLOCK * currentBlocks {
          bitA := bitsets[i / BLOCK][Position(i)];
          assert bitA == BitIn(bitsets, i) == BitIn(a, i);
        }
        if i < BLOCK * otherBlocks {
          bitB := other.bitsets[i / BLOCK][Position(i)];
        }
        result.Set(i, Eval(op, bitA, bitB));
      }
    }

    method Any() returns (r: bool)
      ensures r <==> exists i: nat :: BitIn(bitsets, i)
    {
      for i := 0 to BLOCK * |bitsets|
        invariant forall j: nat :: j < i ==> !BitIn(bitsets, j)
      {
        if bitsets[i / BLOCK][Position(i)] {
          assert BitIn(bitsets, i);
          return true;
        }
      }
      BitsInCapacity(bitsets);
      return false;
    }

    method Equals(other: DynamicBitSet) returns (r: bool)
      ensures r <==> SameBits(bitsets, other.bitsets)
    {
      var limit := BLOCK * (if |bitsets| >= |other.bitsets| then |bitsets| else |other.bitsets|);
      for i := 0 to limit
        invariant forall j: nat :: j < i ==> BitIn(bitsets, j) == BitIn(other.bitsets, j)
      {
        if BitIn(bitsets, i) != BitIn(other.bitsets, i) {
          return false;
        }
      }
      BitsInCapacity(bitsets);
      BitsInCapacity(other.bitsets);
      return true;
    }

    method Serialize() returns (indexes: seq<nat>)
      ensures indexes == Indexes(bitsets)
    {
      indexes := [];
      for i := 0 to BLOCK * |bitsets|
        invariant indexes == IndexesBelow(bitsets, i)
      {
        var bit := Get(i);
        if bit {
          indexes := indexes + [i];
        } else {
          assert indexes + [] == indexes;
        }
      }
    }

    static method Deserialize(indexes: seq<nat>) returns (set0: DynamicBitSet)
      requires Readable(indexes)
      ensures fresh(set0)
      ensures forall i: nat :: BitIn(set0.bitsets, i) <==> i in indexes
    {
      set0 := new DynamicBitSet([]);
      var last := indexes[|indexes| - 1];
      if BLOCK * |set0.bitsets| < last {
        set0.bitsets := Resized(set0.bitsets, last / BLOCK + 1);
      }
      for m := 0 to |indexes|
        invariant |set0.bitsets| == last / BLOCK + 1
        invariant forall i: nat :: BitIn(set0.bitsets, i) <==> i in indexes[..m]
      {
        ghost var bs := set0.bitsets;
        set0.bitsets := Assign(set0.bitsets, indexes[m], true);
        forall i: nat ensures BitIn(set0.bitsets, i) <==> i in indexes[..m + 1] {
          AssignBit(bs, indexes[m], true, i);
          assert indexes[..m + 1] == indexes[..m] + [indexes[m]];
        }
      }
      assert indexes[..|indexes|] == indexes;
    }
  }

  lemma BitsInCapacity(bs: Blocks)
    ensures forall i: nat :: BitIn(bs, i) ==> i < BLOCK * |bs|
  {
    forall i: nat | BitIn(bs, i) ensures i < BLOCK * |bs| {
      assert i == BLOCK * (i / BLOCK) + i % BLOCK;
    }
  }

  /** Reading back a serialized bitset gives an equal one, whatever the capacity, as long as
      some bit above index 0 is set. */
  method ReadBack(bs: DynamicBitSet) returns (copy: DynamicBitSet)
    requires exists i: nat :: i > 0 && BitIn(bs.bitsets, i)
    ensures SameBits(copy.bitsets, bs.bitsets)
  {
    ReadableIff(bs.bitsets);
    IndexesExact(bs.bitsets);
    var indexes := bs.Serialize();
    copy := DynamicBitSet.Deserialize(indexes);
  }
}

/** Vectors of the FlatBuffers format: a length word with the elements right behind it. */
module FlatVectors {
  import opened Bytes
  import opened FlatBytes
  import opened FlatTables

  function VectorBytes(data: seq<Scalar>): seq<byte> {
    if data == [] then [] else data[0].ToBytes() + VectorBytes(data[1..])
  }

  predicate Uniform(data: seq<Scalar>, size: nat) {
    forall i :: 0 <= i < |data| ==> data[i].Size() == size
  }

  lemma {:induction false} VectorBytesSize(data: seq<Scalar>, size: nat)
    requires Uniform(data, size)
    ensures |VectorBytes(data)| == size * |data|
  {
    if data != [] {
      VectorBytesSize(data[1..], size);
      assert data[0].Size() == size;
      assert size * |data| == size + size * |data[1..]|;
    }
  }

  lemma {:induction false} ElementHeld(d: seq<byte>, q: int, data: seq<Scalar>, size: nat, i: nat)
    requires HoldsAt(d, q, VectorBytes(data)) && Uniform(data, size) && i < |data|
    ensures HoldsAt(d, q + size * i, data[i].ToBytes())
    decreases i
  {
    hide Scalar.ToBytes;
    var head, tail := data[0].ToBytes(), VectorBytes(data[1..]);
    assert data[0].Size() == size && VectorBytes(data) == head + tail;
    SplitBytes(d, q, head, tail);
    if i > 0 {
      ElementHeld(d, q + size, data[1..], size, i - 1);
      assert q + size + size * (i - 1) == q + size * i;
    } else {
      assert size * i == 0;
    }
  }

  /** The bytes of a whole vector. */
  function WholeVector(data: seq<Scalar>): seq<byte> {
    Int32Bytes(|data|) + VectorBytes(data)
  }

  lemma VectorParts(d: seq<byte>, offset: nat, data: seq<Scalar>)
    requires StoredAt(d, offset, WholeVector(data))
    ensures HoldsAt(d, |d| - offset, Int32Bytes(|data|)) && HoldsAt(d, |d| - offset + 4, VectorBytes(data))
  {
    hide Int32Bytes, VectorBytes, HoldsAt;
    SplitBytes(d, |d| - offset, Int32Bytes(|data|), VectorBytes(data));
  }

  /** The bytes of a vector at `p`: the number of elements, and behind it the elements in order, side by side. */
  ghost predicate VectorStands(d: seq<byte>, p: int, size: nat, data: seq<Scalar>) {
    && LowByteFirst(d, p, Int32(|data|))
    && forall i: nat :: i < |data| ==> LowByteFirst(d, p + 4 + size * i, data[i])
  }

  lemma StoredVectorStands(d: seq<byte>, offset: nat, size: nat, data: seq<Scalar>)
    requires StoredAt(d, offset, WholeVector(data)) && Uniform(data, size)
    ensures VectorStands(d, |d| - offset, size, data)
  {
    hide StoredAt, WholeVector, Uniform, VectorBytes, Int32Bytes, Scalar.ToBytes, LowByteFirst, HoldsAt;
    var p := |d| - offset;
    VectorParts(d, offset, data);
    WordToBytes(|data|);
    HeldLowByteFirst(d, p, Int32(|data|));
    forall i: nat | i < |data| ensures LowByteFirst(d, p + 4 + size * i, data[i]) {
      ElementHeld(d, p + 4, data, size, i);
      HeldLowByteFirst(d, p + 4 + size * i, data[i]);
    }
  }

  lemma WordToBytes(v: int)
    ensures Int32(v).ToBytes() == Int32Bytes(v)
  {
  }

  /** The bytes of a string: the number of bytes, the text and a zero byte. */
  ghost predicate TextStands(d: seq<byte>, p: int, utf8: seq<byte>) {
    && LowByteFirst(d, p, Int32(|utf8|)) && p + 4 + |utf8| < |d|
    && d[p + 4..p + 4 + |utf8|] == utf8 && d[p + 4 + |utf8|] == 0
  }

  lemma StoredTextStands(d: seq<byte>, offset: nat, utf8: seq<byte>)
    requires StoredAt(d, offset, Int32Bytes(|utf8|) + utf8 + [0])
    ensures TextStands(d, |d| - offset, utf8)
  {
    hide Int32Bytes, LowByteFirst;
    var p := |d| - offset;
    SplitBytes(d, p, Int32Bytes(|utf8|) + utf8, [0]);
    SplitBytes(d, p, Int32Bytes(|utf8|), utf8);
    WordToBytes(|utf8|);
    HeldLowByteFirst(d, p, Int32(|utf8|));
    assert d[p + 4 + |utf8|] == d[p + 4 + |utf8|..p + 5 + |utf8|][0];
  }

  /** Vector round trip: the length is the number of elements and every element reads back, through any offset
      word that leads to the vector. */
  lemma VectorReads(d: seq<byte>, p: int, offset: nat, data: seq<Scalar>, size: nat)
    requires StoredAt(d, offset, WholeVector(data)) && Uniform(data, size) && |data| < 0x8000_0000
    requires Indirect(d, p) == |d| - offset
    ensures VectorLength(d, p) == |data|
    ensures forall i: nat :: i < |data| && data[i].InRange()
                             ==> ReadLike(d, VectorStart(d, p) + size * i, data[i]) == data[i]
  {
    hide Int32Bytes, VectorBytes, Scalar.ToBytes, StoredAt, WholeVector, ReadInt32, ReadLike, Scalar.InRange;
    VectorParts(d, offset, data);
    ReadsInt32(d, |d| - offset, |data|);
    forall i: nat | i < |data| && data[i].InRange()
        ensures ReadLike(d, VectorStart(d, p) + size * i, data[i]) == data[i] {
      ElementHeld(d, |d| - offset + 4, data, size, i);
      ReadsScalar(d, |d| - offset + 4 + size * i, data[i]);
    }
  }

  /** The offset words of a vector whose elements end `end` bytes before the end of the buffer. */
  function RelativeTo(end: nat, offsets: seq<nat>): (words: seq<Scalar>)
    ensures |words| == |offsets| && Uniform(words, 4)
  {
    seq(|offsets|, (i: int) requires 0 <= i < |offsets| => Int32(end - 4 * i - offsets[i]))
  }

  /** Every element of an offset vector leads to the object whose offset was passed in. */
  lemma OffsetVectorResolves(d: seq<byte>, p: int, offset: nat, offsets: seq<nat>)
    requires 4 + 4 * |offsets| <= offset < 0x8000_0000
             && StoredAt(d, offset, WholeVector(RelativeTo(offset - 4, offsets)))
    requires Indirect(d, p) == |d| - offset
    ensures VectorLength(d, p) == |offsets|
    ensures forall i: nat :: i < |offsets| && offsets[i] <= 0x8000_0000
                             ==> Indirect(d, VectorStart(d, p) + 4 * i) == |d| - offsets[i]
  {
    var words := RelativeTo(offset - 4, offsets);
    VectorReads(d, p, offset, words, 4);
    hide StoredAt, WholeVector, ReadInt32;
    forall i: nat | i < |offsets| && offsets[i] <= 0x8000_0000
        ensures Indirect(d, VectorStart(d, p) + 4 * i) == |d| - offsets[i] {
      assert words[i] == Int32(offset - 4 - 4 * i - offsets[i]);
      assert ReadLike(d, VectorStart(d, p) + 4 * i, words[i]) == words[i];
    }
  }

  /** One more element in front. */
  lemma VectorStep(data: seq<Scalar>, i: nat, d: seq<byte>)
    requires i < |data|
    ensures data[i].ToBytes() + (VectorBytes(data[i + 1..]) + d) == VectorBytes(data[i..]) + d
  {
    assert data[i..][1..] == data[i + 1..];
  }

  /** How many bytes `n` elements of `size` bytes take when nothing stands between them. */
  function ElementBytes(size: nat, n: nat): nat {
    size * n
  }

  lemma SizeMultiple(size: nat, n: nat)
    requires 0 < size
    ensures (size * n) % size == 0
  {
    ModUnique(size * n, size, n, 0);
  }
}

/** The byte level of the FlatBuffers runtime: little-endian integers in a byte buffer, alignment, and the
    effect of putting new bytes in front of a buffer that is filled from its end. */
module FlatBytes {
  import opened Bytes

  /** Reading outside a typed array gives `undefined`, which the shifts and ors of the readers treat as zero. */
  function ByteAt(d: seq<byte>, p: int): byte {
    if 0 <= p < |d| then d[p] else 0
  }

  function Int8Bytes(v: int): (bs: seq<byte>)
    ensures |bs| == 1
  {
    [v % 256]
  }

  function Int16Bytes(v: int): (bs: seq<byte>)
    ensures |bs| == 2
  {
    [v % 256, v / 256 % 256]
  }

  function Int32Bytes(v: int): (bs: seq<byte>)
    ensures |bs| == 4
  {
    [v % 256, v / 256 % 256, v / 256 / 256 % 256, v / 256 / 256 / 256 % 256]
  }

  function ReadInt8(d: seq<byte>, p: int): int {
    var u := ByteAt(d, p);
    if u < 128 then u else u - 256
  }

  function ReadInt16(d: seq<byte>, p: int): int {
    var u := ByteAt(d, p) + 256 * ByteAt(d, p + 1);
    if u < 0x8000 then u else u - 0x1_0000
  }

  function ReadInt32(d: seq<byte>, p: int): int {
    var u := ByteAt(d, p) + 256 * ByteAt(d, p + 1) + 65536 * ByteAt(d, p + 2) + 16777216 * ByteAt(d, p + 3);
    if u < 0x8000_0000 then u else u - 0x1_0000_0000
  }

  /** The integers that the builder writes; a 64-bit value is a pair of 32-bit halves. */
  datatype Scalar = Int8(v: int) | Int16(v: int) | Int32(v: int) | Int64(low: int, high: int) {
    function Size(): nat {
      match this
      case Int8(_) => 1
      case Int16(_) => 2
      case Int32(_) => 4
      case Int64(_, _) => 8
    }

    function ToBytes(): (bs: seq<byte>)
      ensures |bs| == Size()
    {
      match this
      case Int8(v) => Int8Bytes(v)
      case Int16(v) => Int16Bytes(v)
      case Int32(v) => Int32Bytes(v)
      case Int64(low, high) => Int32Bytes(low) + Int32Bytes(high)
    }

    /** The value range of the type, outside which writing keeps the low bits only. */
    predicate InRange() {
      match this
      case Int8(v) => -0x80 <= v < 0x80
      case Int16(v) => -0x8000 <= v < 0x8000
      case Int32(v) => -0x8000_0000 <= v < 0x8000_0000
      case Int64(low, high) => -0x8000_0000 <= low < 0x8000_0000 && -0x8000_0000 <= high < 0x8000_0000
    }
  }

  /** What the reader of the same type as `like` returns at position `p`. */
  function ReadLike(d: seq<byte>, p: int, like: Scalar): Scalar {
    match like
    case Int8(_) => Int8(ReadInt8(d, p))
    case Int16(_) => Int16(ReadInt16(d, p))
    case Int32(_) => Int32(ReadInt32(d, p))
    case Int64(_, _) => Int64(ReadInt32(d, p), ReadInt32(d, p + 4))
  }

  ghost predicate HoldsAt(d: seq<byte>, p: int, bs: seq<byte>) {
    0 <= p && p + |bs| <= |d| && d[p..p + |bs|] == bs
  }

  /** The wire format, byte by byte: the low byte first, and of a 64-bit value the low half first. */
  ghost predicate LowByteFirst(d: seq<byte>, p: int, v: Scalar) {
    && 0 <= p && p + v.Size() <= |d|
    && match v
       case Int8(x) => d[p] == x % 256
       case Int16(x) => d[p] == x % 256 && d[p + 1] == x / 256 % 256
       case Int32(x) =>
         d[p] == x % 256 && d[p + 1] == x / 256 % 256 && d[p + 2] == x / 65536 % 256 && d[p + 3] == x / 16777216 % 256
       case Int64(low, high) =>
         && d[p] == low % 256 && d[p + 1] == low / 256 % 256 && d[p + 2] == low / 65536 % 256
         && d[p + 3] == low / 16777216 % 256
         && d[p + 4] == high % 256 && d[p + 5] == high / 256 % 256 && d[p + 6] == high / 65536 % 256
         && d[p + 7] == high / 16777216 % 256
  }

  lemma DivTwice(v: int)
    ensures v / 256 / 256 == v / 65536 && v / 256 / 256 / 256 == v / 16777216
  {
    var v1 := v / 256;
    var v2 := v1 / 256;
    assert v == 256 * v1 + v % 256 && v1 == 256 * v2 + v1 % 256 && v2 == 256 * (v2 / 256) + v2 % 256;
  }

  lemma HeldWord(d: seq<byte>, p: int, x: int)
    requires HoldsAt(d, p, Int32Bytes(x))
    ensures d[p] == x % 256 && d[p + 1] == x / 256 % 256 && d[p + 2] == x / 65536 % 256
    ensures d[p + 3] == x / 16777216 % 256
  {
    var w := d[p..p + 4];
    assert w[0] == d[p] && w[1] == d[p + 1] && w[2] == d[p + 2] && w[3] == d[p + 3];
    DivTwice(x);
  }

  lemma HeldShort(d: seq<byte>, p: int, x: int)
    requires HoldsAt(d, p, Int16Bytes(x))
    ensures d[p] == x % 256 && d[p + 1] == x / 256 % 256
  {
    var w := d[p..p + 2];
    assert w[0] == d[p] && w[1] == d[p + 1];
  }

  /** What the writers leave is in the wire format. */
  lemma HeldLowByteFirst(d: seq<byte>, p: int, v: Scalar)
    requires HoldsAt(d, p, v.ToBytes())
    ensures LowByteFirst(d, p, v)
  {
    hide Int32Bytes, Int16Bytes, HoldsAt;
    HeldInside(d, p, v.ToBytes());
    match v
    case Int8(_) => HeldByte(d, p, v.ToBytes());
    case Int16(x) => HeldShort(d, p, x);
    case Int32(x) => HeldWord(d, p, x);
    case Int64(low, high) =>
      SplitBytes(d, p, Int32Bytes(low), Int32Bytes(high));
      HeldWord(d, p, low);
      HeldWord(d, p + 4, high);
  }

  lemma HeldInside(d: seq<byte>, p: int, bs: seq<byte>)
    requires HoldsAt(d, p, bs)
    ensures 0 <= p && p + |bs| <= |d|
  {
  }

  lemma HeldByte(d: seq<byte>, p: int, bs: seq<byte>)
    requires HoldsAt(d, p, bs) && |bs| == 1
    ensures d[p] == bs[0]
  {
    assert d[p..p + 1][0] == d[p];
  }

  /** What the readers take a word for is what it says in the wire format. */
  lemma ReadLowByteFirst(d: seq<byte>, p: int)
    requires 0 <= p && p + 4 <= |d|
    ensures LowByteFirst(d, p, Int32(ReadInt32(d, p)))
  {
    WordDigits(d[p], d[p + 1], d[p + 2], d[p + 3], ReadInt32(d, p));
  }

  lemma WordDigits(b0: byte, b1: byte, b2: byte, b3: byte, v: int)
    requires var u := b0 + 256 * b1 + 65536 * b2 + 16777216 * b3; v == u || v == u - 0x1_0000_0000
    ensures v % 256 == b0 && v / 256 % 256 == b1 && v / 65536 % 256 == b2 && v / 16777216 % 256 == b3
  {
    var u := b0 + 256 * b1 + 65536 * b2 + 16777216 * b3;
    var k := (v - u) / 0x1_0000_0000;
    assert v == b0 + 256 * (b1 + 256 * (b2 + 256 * (b3 + 256 * k)));
    assert v / 256 == b1 + 256 * (b2 + 256 * (b3 + 256 * k));
    assert v / 65536 == b2 + 256 * (b3 + 256 * k);
    assert v / 16777216 == b3 + 256 * k;
  }

  lemma Int32Recombines(v: int)
    requires -0x8000_0000 <= v < 0x8000_0000
    ensures var u := v % 256 + 256 * (v / 256 % 256) + 65536 * (v / 256 / 256 % 256)
            + 16777216 * (v / 256 / 256 / 256 % 256);
            v == if u < 0x8000_0000 then u else u - 0x1_0000_0000
  {
    var v1 := v / 256;
    var v2 := v1 / 256;
    var v3 := v2 / 256;
    assert v == 256 * v1 + v % 256 && v1 == 256 * v2 + v1 % 256 && v2 == 256 * v3 + v2 % 256
           && v3 == 256 * (v3 / 256) + v3 % 256;
  }

  lemma ReadsInt16(d: seq<byte>, p: int, v: int)
    requires HoldsAt(d, p, Int16Bytes(v)) && -0x8000 <= v < 0x8000
    ensures ReadInt16(d, p) == v
  {
    assert d[p] == d[p..p + 2][0] && d[p + 1] == d[p..p + 2][1];
  }

  lemma ReadsInt32(d: seq<byte>, p: int, v: int)
    requires HoldsAt(d, p, Int32Bytes(v)) && -0x8000_0000 <= v < 0x8000_0000
    ensures ReadInt32(d, p) == v
  {
    var w := d[p..p + 4];
    assert d[p] == w[0] && d[p + 1] == w[1] && d[p + 2] == w[2] && d[p + 3] == w[3];
    Int32Recombines(v);
  }

  /** Round trip of one scalar: the reader of its type returns what was written. */
  lemma ReadsScalar(d: seq<byte>, p: int, v: Scalar)
    requires HoldsAt(d, p, v.ToBytes()) && v.InRange()
    ensures ReadLike(d, p, v) == v
  {
    match v
    case Int8(x) => assert d[p] == d[p..p + 1][0];
    case Int16(x) => ReadsInt16(d, p, x);
    case Int32(x) => ReadsInt32(d, p, x);
    case Int64(low, high) =>
      assert d[p..p + 4] == d[p..p + 8][..4] && d[p + 4..p + 8] == d[p..p + 8][4..];
      ReadsInt32(d, p, low);
      ReadsInt32(d, p + 4, high);
  }

  /** Two byte strings side by side. */
  lemma SplitBytes(d: seq<byte>, p: int, a: seq<byte>, b: seq<byte>)
    requires HoldsAt(d, p, a + b)
    ensures HoldsAt(d, p, a) && HoldsAt(d, p + |a|, b)
  {
    assert d[p..p + |a|] == d[p..p + |a + b|][..|a|];
    assert d[p + |a|..p + |a| + |b|] == d[p..p + |a + b|][|a|..];
  }

  /** Bytes keep their distance from the end when others are put in front. */
  lemma HoldsBehind(x: seq<byte>, d: seq<byte>, p: int, bs: seq<byte>)
    requires HoldsAt(d, p, bs)
    ensures HoldsAt(x + d, |x| + p, bs)
  {
    assert (x + d)[|x| + p..|x| + p + |bs|] == d[p..p + |bs|];
  }

  lemma ReadsBehind(x: seq<byte>, d: seq<byte>, p: int)
    requires 0 <= p
    ensures ByteAt(x + d, |x| + p) == ByteAt(d, p)
    ensures ReadInt16(x + d, |x| + p) == ReadInt16(d, p)
    ensures ReadInt32(x + d, |x| + p) == ReadInt32(d, p)
  {
  }

  function Zeros(n: nat): (zeros: seq<byte>)
    ensures |zeros| == n
  {
    seq(n, _ => 0)
  }

  predicate IsPow2(n: nat) {
    n == 1 || (1 < n && n % 2 == 0 && IsPow2(n / 2))
  }

  lemma Pow2Positive(n: nat)
    requires IsPow2(n)
    ensures 0 < n
  {
  }

  function BitAnd(a: nat, b: nat): nat
    decreases a
  {
    if a == 0 || b == 0 then 0 else (if a % 2 == 1 && b % 2 == 1 then 1 else 0) + 2 * BitAnd(a / 2, b / 2)
  }

  lemma ModDouble(a: nat, m: nat)
    requires 0 < m
    ensures a % (2 * m) == a % 2 + 2 * (a / 2 % m)
  {
    var q, r := a / 2 / m, a / 2 % m;
    assert a / 2 == q * m + r;
    assert a == q * (2 * m) + (2 * r + a % 2);
    ModUnique(a, 2 * m, q, 2 * r + a % 2);
  }

  lemma ModUnique(a: int, m: nat, q: int, r: int)
    requires 0 <= r < m && a == q * m + r
    ensures a % m == r
  {
    var q', r' := a / m, a % m;
    assert (q - q') * m == r' - r;
    MultipleBound(q - q', m);
  }

  lemma MultipleBound(k: int, m: nat)
    ensures 1 <= k ==> m <= k * m
    ensures k <= -1 ==> k * m <= -(m as int)
  {
    if 1 <= k {
      assert k * m == m + (k - 1) * m;
    } else if k <= -1 {
      assert k * m == -(m as int) + (k + 1) * m;
    }
  }

  /** Masking with size - 1 keeps the remainder modulo a power of two. */
  lemma {:induction false} BitAndMask(a: nat, n: nat)
    requires IsPow2(n)
    ensures BitAnd(a, n - 1) == a % n
    decreases n
  {
    if n == 1 {
    } else {
      BitAndMask(a / 2, n / 2);
      ModDouble(a, n / 2);
      assert 2 * (n / 2) == n && (n - 1) / 2 == n / 2 - 1;
      if a == 0 {
        assert a % n == 0;
      }
    }
  }

  /** The padding in front of an element: the two's complement of the offset's low 32 bits, masked with the
      alignment. */
  function AlignSize(offset: nat, size: nat): nat
    requires 0 < size
  {
    BitAnd((0xFFFF_FFFF - offset % 0x1_0000_0000) + 1, size - 1)
  }

  lemma {:induction false} Pow2Divides(m: nat, n: nat)
    requires IsPow2(m) && IsPow2(n) && m <= n
    ensures n % m == 0
    decreases n
  {
    if m != 1 {
      Pow2Divides(m / 2, n / 2);
      ModDouble(n, m / 2);
      assert 2 * (m / 2) == m;
    }
  }

  lemma DividesTransitive(x: int, n: nat, m: nat)
    requires 0 < m && 0 < n && x % n == 0 && n % m == 0
    ensures x % m == 0
  {
    var q, k := x / n, n / m;
    assert x == q * n && n == k * m;
    assert x == (q * k) * m + 0 by {
      assert q * (k * m) == (q * k) * m;
    }
    ModUnique(x, m, q * k, 0);
  }

  /** A multiple of an alignment is a multiple of every smaller alignment. */
  lemma AlignedToLess(x: int, n: nat, m: nat)
    requires IsPow2(m) && IsPow2(n) && m <= n && x % n == 0
    ensures x % m == 0
  {
    Pow2Divides(m, n);
    DividesTransitive(x, n, m);
  }

  predicate Multiple(x: int, m: nat) {
    0 < m && x % m == 0
  }

  lemma AddMod(a: int, b: int, m: nat)
    requires 0 < m && a % m == 0 && b % m == 0
    ensures (a + b) % m == 0 && (a - b) % m == 0
  {
    assert a == a / m * m && b == b / m * m;
    assert a + b == (a / m + b / m) * m + 0 && a - b == (a / m - b / m) * m + 0;
    ModUnique(a + b, m, a / m + b / m, 0);
    ModUnique(a - b, m, a / m - b / m, 0);
  }

  lemma Pow2Double(n: nat)
    requires IsPow2(n)
    ensures IsPow2(2 * n)
  {
    assert 2 * n / 2 == n;
  }

  lemma {:induction false} Pow2Product(m: nat, n: nat)
    requires IsPow2(m) && IsPow2(n)
    ensures IsPow2(m * n)
    decreases m
  {
    if m == 1 {
      assert m * n == n;
    } else {
      var half := m / 2;
      assert m * n == 2 * (half * n);
      Pow2Product(half, n);
      Pow2Double(half * n);
    }
  }

  lemma Pow2Of32()
    ensures IsPow2(0x1_0000_0000)
  {
    assert IsPow2(1) && IsPow2(2) && IsPow2(4) && IsPow2(8) && IsPow2(0x10);
    Pow2Product(0x10, 0x10);
    Pow2Product(0x100, 0x100);
    Pow2Product(0x1_0000, 0x1_0000);
  }

  /** The padding is less than the alignment and reaches the next multiple of it; aligned offsets need none. */
  lemma AlignSizeAligns(offset: nat, size: nat)
    requires IsPow2(size) && size <= 0x1_0000_0000
    ensures 0 < size && AlignSize(offset, size) < size
    ensures (offset + AlignSize(offset, size)) % size == 0
    ensures offset % size == 0 ==> AlignSize(offset, size) == 0
  {
    hide BitAnd, IsPow2;
    Pow2Positive(size);
    Pow2Of32();
    var whole: nat := 0x1_0000_0000;
    Pow2Divides(size, whole);
    var low := offset % whole;
    BitAndMask(whole - low, size);
    var r := (whole - low) % size;
    Remainder(whole - low, size);
    Remainder(offset, whole);
    DividesTransitive(offset - low, whole, size);
    AddMod(offset - low, whole, size);
    AddMod(offset - low + whole, whole - low - r, size);
    assert offset + r == offset - low + whole - (whole - low - r);
    if offset % size == 0 {
      AddMod(offset, offset - low, size);
      AddMod(whole, low, size);
    }
  }

  lemma Remainder(x: nat, m: nat)
    requires 0 < m
    ensures (x - x % m) % m == 0
  {
    assert x == x / m * m + x % m;
    ModUnique(x - x % m, m, x / m, 0);
  }
}

/** Facts about the bytes that the FlatBuffers builder lays out: what stands in front of what, and what closing an
    object, a vector, a string or the whole buffer makes of it. */
module FlatLayout {
  import opened Bytes
  import opened FlatBytes
  import opened FlatTables
  import opened FlatVectors
  import opened Utf8

  /** Offsets are signed 32-bit numbers. */
  const MAX_SIZE := 0x8000_0000

  lemma ZerosStart(d: seq<byte>)
    ensures Zeros(0) + d == d
  {
  }

  lemma ZerosStep(i: nat, d: seq<byte>)
    ensures [0] + (Zeros(i) + d) == Zeros(i + 1) + d
  {
  }

  lemma EntryBytesStart(loc: nat, entries: seq<nat>, d: seq<byte>)
    ensures EntryBytes(loc, entries[|entries|..]) + d == d && IsSuffix(d, d)
  {
  }

  lemma EntryBytesStep(loc: nat, entries: seq<nat>, i: nat, d: seq<byte>)
    requires i < |entries|
    ensures Int16Bytes(Entry(loc, entries[i])) + (EntryBytes(loc, entries[i + 1..]) + d)
            == EntryBytes(loc, entries[i..]) + d
    ensures |EntryBytes(loc, entries[i + 1..])| % 2 == 0
    ensures IsSuffix(d, EntryBytes(loc, entries[i..]) + d) && IsSuffix(d, EntryBytes(loc, entries[i + 1..]) + d)
  {
    assert entries[i..][1..] == entries[i + 1..];
  }

  lemma VtableBytesParts(loc: nat, objectStart: nat, vtable: seq<nat>, d: seq<byte>)
    ensures Int16Bytes(4 + 2 * |vtable|) + (Int16Bytes(loc - objectStart) + (EntryBytes(loc, vtable) + d))
            == VtableBytes(loc, objectStart, vtable) + d
    ensures |EntryBytes(loc, vtable)| % 2 == 0 && |Int16Bytes(loc - objectStart)| == 2
    ensures IsSuffix(d, VtableBytes(loc, objectStart, vtable) + d) && IsSuffix(d, EntryBytes(loc, vtable) + d)
    ensures IsSuffix(d, Int16Bytes(loc - objectStart) + (EntryBytes(loc, vtable) + d))
  {
    hide Int16Bytes, EntryBytes;
    var a, c, e := Int16Bytes(4 + 2 * |vtable|), Int16Bytes(loc - objectStart), EntryBytes(loc, vtable);
    assert a + (c + (e + d)) == (a + c + e) + d;
    assert c + (e + d) == (c + e) + d;
  }

  lemma Int32ToBytes(v: int)
    ensures Int32(v).ToBytes() == Int32Bytes(v)
  {
  }

  lemma ScalarSize(v: Scalar)
    ensures IsPow2(v.Size()) && 1 <= v.Size() <= 8
  {
    assert IsPow2(1) && IsPow2(2) && IsPow2(4) && IsPow2(8);
  }

  lemma FrontLowByteFirst(v: Scalar, x: seq<byte>, d: seq<byte>)
    ensures LowByteFirst(v.ToBytes() + x + d, 0, v)
  {
    hide Scalar.ToBytes, LowByteFirst;
    assert (v.ToBytes() + x + d)[0..v.Size()] == v.ToBytes();
    HeldLowByteFirst(v.ToBytes() + x + d, 0, v);
  }

  lemma FrontAssociates(a: seq<byte>, b: seq<byte>, d: seq<byte>)
    ensures a + (b + d) == a + b + d
  {
  }

  lemma ScalarAdded(v: Scalar, d: seq<byte>, b: Book)
    requires Consistent(d, b) && v.Size() <= b.minalign && |d| % v.Size() == 0
    ensures var now := v.ToBytes() + d;
            && |now| % v.Size() == 0 && Consistent(now, b)
            && Consistent(now, b.(scalars := b.scalars + {(|now|, v.Size())}))
  {
    hide Consistent, IsPow2;
    ScalarSize(v);
    AddMod(|d|, v.Size(), v.Size());
    ConsistentSurvives(v.ToBytes(), d, b);
    ScalarRecorded(v.ToBytes() + d, b, v.Size());
  }

  /** A length word is one more scalar when it is aligned, else just more bytes. */
  lemma LengthAdded(n: nat, d: seq<byte>, b: Book)
    requires Consistent(d, b)
    ensures var now := Int32Bytes(n) + d;
            && Consistent(now, b)
            && (|d| % 4 == 0 && 4 <= b.minalign ==> Consistent(now, b.(scalars := b.scalars + {(|now|, 4)})))
  {
    hide Consistent, IsPow2;
    ConsistentSurvives(Int32Bytes(n), d, b);
    Int32ToBytes(n);
    if |d| % 4 == 0 && 4 <= b.minalign {
      ScalarAdded(Int32(n), d, b);
    }
  }

  ghost predicate IsSuffix(a: seq<byte>, d: seq<byte>) {
    |a| <= |d| && d[|d| - |a|..] == a
  }

  /** The bytes of an object that is being closed: its vtable, the placeholder for the offset word, and the fields. */
  ghost predicate Closing(d: seq<byte>, b: Book, loc: nat, d0: seq<byte>, padding: seq<byte>, kept: set<(nat, nat)>) {
    && Consistent(d0, b.(scalars := {})) && b.isNested && b.inUse <= |b.vtable| && loc == 4 + |padding| + |d0|
    && |d| < MAX_SIZE
    && d == OpenVtable(b, loc) + (Int32Bytes(0) + (padding + d0))
    && (forall s :: s in kept ==> ScalarAligned(d, b.minalign, s) && s.0 <= loc)
  }

  lemma ClosingParts(d: seq<byte>, b: Book, loc: nat, d0: seq<byte>, padding: seq<byte>, kept: set<(nat, nat)>)
    requires Closing(d, b, loc, d0, padding, kept)
    ensures Consistent(d0, b.(scalars := {})) && b.isNested && b.inUse <= |b.vtable|
            && loc == 4 + |padding| + |d0| < MAX_SIZE
    ensures (forall v :: v in b.vtables ==> IsVtable(d0, v)) && |d| == |OpenVtable(b, loc)| + loc < MAX_SIZE
    ensures HoldsAt(OpenVtable(b, loc), 0, Int16Bytes(|OpenVtable(b, loc)|))
    ensures d == OpenVtable(b, loc) + ((Int32Bytes(0) + padding) + d0)
    ensures d[..|d| - loc] == OpenVtable(b, loc) && d[|d| - loc + 4..] == padding + d0
    ensures forall s :: s in kept ==> ScalarAligned(d, b.minalign, s) && s.0 <= loc
  {
    VtableFront(loc, b.objectStart, Trimmed(b));
    hide IsPow2, VtableBytes, Trimmed, Int32Bytes, ScalarAligned, TableReads, OpenObject, IsVtable, VtableMatches;
    assert (Int32Bytes(0) + padding) + d0 == Int32Bytes(0) + (padding + d0);
  }

  lemma ShareCloses(d: seq<byte>, b: Book, loc: nat, d0: seq<byte>, padding: seq<byte>, kept: set<(nat, nat)>,
          existing: nat)
    requires b.inUse <= |b.vtable| && Closing(d, b, loc, d0, padding, kept)
    requires existing in b.vtables && VtableMatches(d, existing, |OpenVtable(b, loc)|)
    ensures 4 <= loc <= |d| && d[|d| - loc + 4..] == padding + d0
    ensures Consistent(Int32Bytes(existing - loc) + d[|d| - loc + 4..],
                       b.(isNested := false, tables := ClosedTables(b, loc), scalars := kept))
    ensures TableClosed(Int32Bytes(existing - loc) + d[|d| - loc + 4..], b, loc)
  {
    hide IsPow2, VtableMatches, TableClosed, OpenVtable, Consistent, IsVtable, Links, Closing, StoredAt, HoldsAt,
         Int32Bytes, Trimmed;
    var vt := OpenVtable(b, loc);
    ClosingParts(d, b, loc, d0, padding, kept);
    MatchIsStored(d0, Int32Bytes(0) + padding, vt, existing);
    SharedVtableLinks(d0, padding, loc, vt, existing);
    SameClosedTables(b, loc);
    ClosedConsistent(Int32Bytes(existing - loc) + (padding + d0), d0, b.(scalars := {}), loc, b.vtables, kept);
    SameReading(Int32Bytes(existing - loc) + (padding + d0), b.(scalars := {}), b, loc);
  }

  lemma SameClosedTables(b: Book, loc: nat)
    requires b.inUse <= |b.vtable|
    ensures ClosedTables(b.(scalars := {}), loc) == ClosedTables(b, loc)
            && OpenVtable(b.(scalars := {}), loc) == OpenVtable(b, loc)
  {
  }

  lemma SameReading(d: seq<byte>, b: Book, b': Book, loc: nat)
    requires b'.slots == b.slots && b'.vtable == b.vtable && b'.inUse == b.inUse && b'.objectStart == b.objectStart
    ensures TableClosed(d, b, loc) <==> TableClosed(d, b', loc)
  {
    hide TableReads, LowByteFirst;
    assert forall q, n :: TableStands(d, b, loc, q, n) <==> TableStands(d, b', loc, q, n);
  }

  lemma BookScalars(d: seq<byte>, b: Book)
    requires Consistent(d, b)
    ensures forall s :: s in b.scalars ==> ScalarAligned(d, b.minalign, s)
  {
  }

  lemma KeepCloses(d: seq<byte>, b: Book, loc: nat, d0: seq<byte>, padding: seq<byte>)
    requires b.inUse <= |b.vtable| && Closing(d, b, loc, d0, padding, {}) && Consistent(d, b)
    ensures 4 <= loc <= |d|
    ensures var vt := OpenVtable(b, loc);
            var d' := vt + (Int32Bytes(|vt|) + (padding + d0));
            && d[..|d| - loc] + Int32Bytes(|d| - loc) + d[|d| - loc + 4..] == d'
            && Consistent(d', b.(isNested := false, tables := ClosedTables(b, loc), vtables := b.vtables + [|d'|]))
            && TableClosed(d', b, loc)
  {
    hide IsPow2, TableClosed, OpenVtable, Consistent, IsVtable, Links, Closing, ScalarAligned, HoldsAt, Int32Bytes,
         Trimmed;
    var vt := OpenVtable(b, loc);
    ClosingParts(d, b, loc, d0, padding, {});
    FreshVtableLinks(d0, padding, loc, vt);
    FreshIsVtable(vt, Int32Bytes(|vt|) + (padding + d0));
    var d' := vt + (Int32Bytes(|vt|) + (padding + d0));
    assert d' == vt + Int32Bytes(|vt|) + (padding + d0);
    BookScalars(d, b);
    ScalarsStay(d, d', b.minalign, b.scalars);
    SameClosedTables(b, loc);
    ClosedConsistent(d', d0, b.(scalars := {}), loc, b.vtables + [|d'|], b.scalars);
    SameReading(d', b.(scalars := {}), b, loc);
  }

  /** Aligned so that `size` more bytes end at a multiple of 4 and of the alignment. */
  ghost predicate ReadyFor(d: seq<byte>, before: seq<byte>, size: nat, alignment: nat) {
    && IsSuffix(before, d) && (|d| + size) % 4 == 0 && 0 < alignment && (|d| + size) % alignment == 0
    && d[..|d| - |before|] == Zeros(|d| - |before|)
  }

  lemma Padded(d: seq<byte>, n: nat, b: Book)
    requires Consistent(d, b)
    ensures Consistent(Zeros(n) + d, b) && IsSuffix(d, Zeros(n) + d)
  {
    hide Consistent;
    ConsistentSurvives(Zeros(n), d, b);
  }

  lemma StillAligned(before: seq<byte>, first: seq<byte>, d: seq<byte>, size: nat, alignment: nat)
    requires IsPow2(alignment) && alignment <= MAX_SIZE
    requires first == Zeros(AlignSize(|before| + size, 4)) + before && Multiple(|first| + size, 4)
    requires d == Zeros(AlignSize(|first| + size, alignment)) + first && Multiple(|d| + size, alignment)
    ensures ReadyFor(d, before, size, alignment) && IsSuffix(before, d)
    ensures alignment <= 4 ==> AlignSize(|first| + size, alignment) == 0
  {
    hide IsPow2, AlignSize;
    Powers();
    AlignSizeAligns(|first| + size, alignment);
    if 4 <= alignment {
      AlignedToLess(|d| + size, alignment, 4);
    } else {
      AlignedToLess(|first| + size, 4, alignment);
    }
  }

  lemma Powers()
    ensures IsPow2(1) && IsPow2(2) && IsPow2(4) && IsPow2(8)
  {
    assert IsPow2(1) && IsPow2(2);
  }

  lemma ReadyParts(d: seq<byte>, before: seq<byte>, size: nat, n: nat) returns (end: nat)
    requires size in {1, 2, 4, 8} && ReadyFor(d, before, ElementBytes(size, n), size)
    ensures IsSuffix(before, d) && end == |d| + ElementBytes(size, n) && Multiple(end, 4) && Multiple(|d|, size)
    ensures ElementBytes(4, n) == 4 * n
  {
    end := |d| + ElementBytes(size, n);
    SizeMultiple(size, n);
    AddMod(|d| + size * n, size * n, size);
  }

  lemma OneMore(size: nat, i: nat)
    ensures ElementBytes(size, i + 1) == ElementBytes(size, i) + size && ElementBytes(size, 0) == 0
  {
  }

  /** The elements `from`, .., `n` - 1 of a vector are among the aligned scalars; element 0 stands `end` bytes before
      the end of the data, and each further one `size` bytes behind. */
  ghost predicate ElementsAligned(scalars: set<(nat, nat)>, end: nat, size: nat, from: nat, n: nat) {
    forall i: nat, at: nat :: from <= i < n && at + ElementBytes(size, i) == end ==> (at, size) in scalars
  }

  lemma OneMoreAligned(before: set<(nat, nat)>, scalars: set<(nat, nat)>, end: nat, size: nat, i: nat, n: nat)
    requires ElementsAligned(before, end, size, i + 1, n) && before <= scalars
    requires ElementBytes(size, i) <= end && (end - ElementBytes(size, i), size) in scalars
    ensures ElementsAligned(scalars, end, size, i, n)
  {
    hide ElementBytes;
  }

  lemma RelativeWord(end: nat, offsets: seq<nat>, i: nat, d: seq<byte>, start: seq<byte>)
    requires i < |offsets| && |d| + 4 * (i + 1) == end && d == VectorBytes(RelativeTo(end, offsets)[i + 1..]) + start
    ensures var d' := Int32Bytes(|d| + 4 - offsets[i]) + d;
            d' == VectorBytes(RelativeTo(end, offsets)[i..]) + start && |d'| + 4 * i == end
                && (|d| % 4 == 0 ==> |d'| % 4 == 0)
  {
    var words := RelativeTo(end, offsets);
    assert words[i] == Int32(|d| + 4 - offsets[i]);
    Int32ToBytes(|d| + 4 - offsets[i]);
    hide Int32Bytes, VectorBytes, RelativeTo, Scalar.ToBytes;
    VectorStep(words, i, start);
  }

  /** Whether or not padding was needed, the byte behind the text is zero. */
  lemma TextAligned(utf8: seq<byte>, start: seq<byte>, terminated: seq<byte>, before: seq<byte>)
    requires ReadyFor(start, terminated, ElementBytes(1, |utf8|), 1)
    requires terminated == Int8(0).ToBytes() + Zeros(AlignSize(|before|, 1)) + before
    ensures ElementBytes(1, |utf8|) == |utf8| && (|start| + |utf8|) % 4 == 0 && start != [] && start[0] == 0
  {
    hide AlignSize;
    var pad := |start| - |terminated|;
    assert terminated[0] == 0 && start[pad..] == terminated && start[..pad] == Zeros(pad);
    if pad > 0 {
      assert start[0] == start[..pad][0];
    } else {
      assert start[0] == start[pad..][0];
    }
  }

  lemma TextStored(utf8: seq<byte>, start: seq<byte>)
    requires start != [] && start[0] == 0
    ensures var d := Int32Bytes(|utf8|) + (utf8 + start);
            StoredAt(d, |d|, Int32Bytes(|utf8|) + utf8 + [0]) && IsSuffix(start, d)
  {
    hide Int32Bytes;
    assert start == [0] + start[1..];
    assert Int32Bytes(|utf8|) + (utf8 + start) == (Int32Bytes(|utf8|) + utf8 + [0]) + start[1..];
  }

  function IdentifierBytes(identifier: seq<CodeUnit>): (bs: seq<byte>)
    ensures |bs| == |identifier|
  {
    seq(|identifier|, (i: int) requires 0 <= i < |identifier| => identifier[i] % 256)
  }

  lemma IdentifierStart(identifier: seq<CodeUnit>, d: seq<byte>)
    ensures IdentifierBytes(identifier)[|identifier|..] + d == d
  {
  }

  lemma IdentifierStep(identifier: seq<CodeUnit>, i: nat, d: seq<byte>)
    requires i < |identifier|
    ensures Int8(identifier[i]).ToBytes() + (IdentifierBytes(identifier)[i + 1..] + d)
            == IdentifierBytes(identifier)[i..] + d
    ensures Int8(identifier[i]).Size() == 1
  {
    assert IdentifierBytes(identifier)[i..] == [identifier[i] % 256] + IdentifierBytes(identifier)[i + 1..];
  }

  lemma PaddingBound(offset: nat, size: nat)
    requires (IsPow2(size) && size <= MAX_SIZE) || size == 4
    ensures 0 < size && AlignSize(offset, size) < size
  {
    hide AlignSize, IsPow2;
    Powers();
    AlignSizeAligns(offset, size);
  }

  /** Once the place for the identifier is aligned, nothing has to stand in front of it. */
  lemma IdentifierAligned(size: nat, minalign: nat, prefix: nat)
    requires IsPow2(minalign) && minalign <= MAX_SIZE && Multiple(size + 8 + prefix, minalign)
    ensures AlignSize(size + 4 + 4 + prefix, minalign) == 0
  {
    hide IsPow2, AlignSize;
    AlignSizeAligns(size + 4 + 4 + prefix, minalign);
  }

  /** How far from the end the identifier is placed, in a buffer of `size` bytes before `finish`. */
  function IdentifierOffset(size: nat, minalign: nat, prefix: nat): nat
    requires 0 < minalign
  {
    size + AlignSize(size + 8 + prefix, minalign) + 4
  }

  /** Where the root word ends. */
  function RootEnd(sizePrefix: bool): (end: nat)
    ensures end == 4 || end == 8
  {
    if sizePrefix then 8 else 4
  }

  /** The zero bytes that aligning the root word puts in front of the identifier. */
  function IdentifierGap(size: nat, minalign: nat, sizePrefix: bool): nat
    requires 0 < minalign
  {
    AlignSize(IdentifierOffset(size, minalign, RootEnd(sizePrefix) - 4), 4)
  }

  /** Behind the root word come the gap, as zero bytes, and the identifier. */
  ghost predicate IdentifierStands(d: seq<byte>, size: nat, minalign: nat, sizePrefix: bool, identifier: seq<CodeUnit>)
    requires 0 < minalign
  {
    var gap := IdentifierGap(size, minalign, sizePrefix);
    && |identifier| == 4 && (4 <= minalign ==> gap == 0)
    && HoldsAt(d, RootEnd(sizePrefix), Zeros(gap)) && HoldsAt(d, RootEnd(sizePrefix) + gap, IdentifierBytes(identifier))
  }

  /** The identifier stands directly behind the root word exactly when there is no gap, unless it is all zero itself. */
  lemma DirectlyWhenNoGap(d: seq<byte>, size: nat, minalign: nat, sizePrefix: bool, identifier: seq<CodeUnit>)
    requires 0 < minalign && IdentifierStands(d, size, minalign, sizePrefix, identifier)
    ensures HoldsAt(d, RootEnd(sizePrefix), IdentifierBytes(identifier))
            <==> IdentifierGap(size, minalign, sizePrefix) == 0 || IdentifierBytes(identifier) == Zeros(4)
  {
    hide AlignSize, IsPow2, IdentifierOffset, IdentifierBytes;
    Powers();
    AlignSizeAligns(IdentifierOffset(size, minalign, RootEnd(sizePrefix) - 4), 4);
    OverlapIsZero(d, RootEnd(sizePrefix), IdentifierGap(size, minalign, sizePrefix), IdentifierBytes(identifier));
  }

  lemma ByteBehindGap(d: seq<byte>, p: int, gap: nat, bs: seq<byte>, k: nat)
    requires gap < 4 == |bs| && HoldsAt(d, p, Zeros(gap)) && HoldsAt(d, p + gap, bs) && k < 4
    ensures d[p + k] == if k < gap then 0 else bs[k - gap]
  {
    if k < gap {
      assert d[p + k] == d[p..p + gap][k];
    } else {
      assert d[p + k] == d[p + gap..p + gap + 4][k - gap];
    }
  }

  lemma OverlapIsZero(d: seq<byte>, p: int, gap: nat, bs: seq<byte>)
    requires gap < 4 == |bs| && HoldsAt(d, p, Zeros(gap)) && HoldsAt(d, p + gap, bs)
    ensures HoldsAt(d, p, bs) <==> gap == 0 || bs == Zeros(4)
  {
    ByteBehindGap(d, p, gap, bs, 0);
    ByteBehindGap(d, p, gap, bs, 1);
    ByteBehindGap(d, p, gap, bs, 2);
    ByteBehindGap(d, p, gap, bs, 3);
    assert d[p..p + 4] == [d[p], d[p + 1], d[p + 2], d[p + 3]] && bs == [bs[0], bs[1], bs[2], bs[3]];
  }

  lemma IdentifierFound(placed: seq<byte>, d: seq<byte>, size: nat, minalign: nat, sizePrefix: bool,
          identifier: seq<CodeUnit>)
    requires 0 < minalign && |identifier| == 4 && IsSuffix(placed, d) && HoldsAt(placed, 0, IdentifierBytes(identifier))
    requires |placed| == IdentifierOffset(size, minalign, RootEnd(sizePrefix) - 4)
    requires |d| == |placed| + AlignSize(|placed|, 4) + RootEnd(sizePrefix)
             && (4 <= minalign ==> AlignSize(|placed|, 4) == 0)
    requires HoldsAt(d, RootEnd(sizePrefix), Zeros(AlignSize(|placed|, 4)))
    ensures IdentifierStands(d, size, minalign, sizePrefix, identifier)
  {
    hide IsSuffix, HoldsAt, AlignSize, IdentifierOffset;
    SuffixHolds(placed, d, IdentifierBytes(identifier));
  }

  lemma IdentifierPlaced(identifier: seq<CodeUnit>, d: seq<byte>)
    ensures HoldsAt(Zeros(0) + (IdentifierBytes(identifier) + d), 0, IdentifierBytes(identifier))
  {
    assert Zeros(0) + (IdentifierBytes(identifier) + d) == IdentifierBytes(identifier) + d;
  }

  /** The buffer starts with the size prefix, if any, and an offset word that leads to the root table. */
  ghost predicate RootPlaced(d: seq<byte>, rootTable: nat, sizePrefix: bool) {
    if sizePrefix then ReadInt32(d, 0) == |d| - 4 && Indirect(d, 4) == |d| - rootTable
    else Indirect(d, 0) == |d| - rootTable
  }

  lemma RootAlignment(size: nat, minalign: nat, prefix: nat)
    requires IsPow2(minalign) && minalign <= MAX_SIZE && prefix in {0, 4} && Multiple(size + 4 + prefix, minalign)
    ensures 4 <= minalign ==> size % 4 == 0 && AlignSize(size, 4) == 0
  {
    hide IsPow2, AlignSize;
    Powers();
    if 4 <= minalign {
      AlignedToLess(size + 4 + prefix, minalign, 4);
      AlignSizeAligns(size, 4);
    }
  }

  lemma FinalAlignment(size: nat, rooted: nat, m: nat, minalign: nat, prefix: nat)
    requires IsPow2(m) && m <= minalign && (m < 4 ==> minalign == 4) && (4 <= m ==> minalign == m) && prefix in {0, 4}
    requires Multiple(size + 4 + prefix, m) && rooted % 4 == 0 && (4 <= m ==> rooted == size + 4)
    ensures Multiple(rooted + prefix, minalign)
  {
    hide IsPow2;
  }

  /** The bytes of the root word, lowest first, make up the distance from the word to the root table, and those of the
      size prefix the number of bytes behind it. */
  ghost predicate RootStands(d: seq<byte>, rootTable: nat, sizePrefix: bool) {
    var p := if sizePrefix then 4 else 0;
    var distance, rest := |d| - rootTable - p, |d| - 4;
    && p + 4 <= |d|
    && d[p] == distance % 256 && d[p + 1] == distance / 256 % 256
    && d[p + 2] == distance / 65536 % 256 && d[p + 3] == distance / 16777216 % 256
    && (sizePrefix ==> d[0] == rest % 256 && d[1] == rest / 256 % 256
                       && d[2] == rest / 65536 % 256 && d[3] == rest / 16777216 % 256)
  }

  lemma RootBytes(d: seq<byte>, rootTable: nat, sizePrefix: bool)
    requires RootPlaced(d, rootTable, sizePrefix) && RootEnd(sizePrefix) <= |d|
    ensures RootStands(d, rootTable, sizePrefix)
  {
    hide ReadInt32;
    ReadLowByteFirst(d, 0);
    if sizePrefix {
      ReadLowByteFirst(d, 4);
    }
  }

  lemma SuffixOfThree(a: seq<byte>, b: seq<byte>, d: seq<byte>)
    ensures IsSuffix(d, a + b + d)
  {
  }

  lemma RootWritten(before: seq<byte>, d: seq<byte>, rootTable: nat)
    requires d == Int32Bytes(|d| - rootTable) + Zeros(AlignSize(|before|, 4)) + before && |d| < MAX_SIZE
             && rootTable < MAX_SIZE
    ensures RootPlaced(d, rootTable, false) && HoldsAt(d, 4, Zeros(AlignSize(|before|, 4)))
  {
    hide AlignSize, ReadInt32, Int32Bytes;
    assert d[0..4] == Int32Bytes(|d| - rootTable);
    ReadsInt32(d, 0, |d| - rootTable);
  }

  lemma SizeWritten(d: seq<byte>, rootTable: nat, gap: seq<byte>)
    requires RootPlaced(d, rootTable, false) && |d| + 4 < MAX_SIZE && HoldsAt(d, 4, gap)
    ensures RootPlaced(Int32Bytes(|d|) + d, rootTable, true) && HoldsAt(Int32Bytes(|d|) + d, 8, gap)
  {
    var now := Int32Bytes(|d|) + d;
    assert now[0..4] == Int32Bytes(|d|);
    hide ReadInt32, Int32Bytes;
    ReadsInt32(now, 0, |d|);
    HoldsBehind(Int32Bytes(|d|), d, 4, gap);
    ReadsBehind(Int32Bytes(|d|), d, 0);
  }

  /** Counted from the front of a buffer of `size` bytes, every recorded scalar stands at a multiple of its own size. */
  ghost predicate ScalarsAligned(size: nat, scalars: set<(nat, nat)>) {
    forall s :: s in scalars ==> Multiple(size - s.0, s.1)
  }

  /** Some scalar of at least four bytes has been written. */
  ghost predicate WordWritten(scalars: set<(nat, nat)>) {
    exists s :: s in scalars && 4 <= s.1
  }

  lemma WordRaisesAlignment(d: seq<byte>, b: Book)
    requires Consistent(d, b) && WordWritten(b.scalars)
    ensures 4 <= b.minalign
  {
    var s :| s in b.scalars && 4 <= s.1;
    assert ScalarAligned(d, b.minalign, s);
  }

  lemma AllAligned(d: seq<byte>, b: Book)
    requires Consistent(d, b) && b.minalign <= MAX_SIZE && Multiple(|d|, b.minalign)
    ensures ScalarsAligned(|d|, b.scalars)
  {
    forall s | s in b.scalars ensures Multiple(|d| - s.0, s.1) {
      assert ScalarAligned(d, b.minalign, s);
      Pow2Positive(s.1);
      AlignedToLess(|d|, b.minalign, s.1);
      AddMod(|d|, s.0, s.1);
    }
  }

  lemma SuffixHolds(a: seq<byte>, d: seq<byte>, bs: seq<byte>)
    requires IsSuffix(a, d) && HoldsAt(a, 0, bs)
    ensures HoldsAt(d, |d| - |a|, bs)
  {
    assert d == d[..|d| - |a|] + a;
    HoldsBehind(d[..|d| - |a|], a, 0, bs);
  }

  lemma NoElements(data: seq<Scalar>, d: seq<byte>)
    ensures VectorBytes(data[|data|..]) + d == d
  {
  }

  lemma NoPadding(bs: seq<byte>, d: seq<byte>)
    ensures Zeros(0) == [] && bs + [] + d == bs + d
  {
  }

  lemma VectorStored(data: seq<Scalar>, start: seq<byte>)
    ensures var d := Int32Bytes(|data|) + (VectorBytes(data) + start);
            StoredAt(d, |d|, WholeVector(data)) && IsSuffix(VectorBytes(data) + start, d)
  {
    hide Int32Bytes, VectorBytes;
    var d := Int32Bytes(|data|) + (VectorBytes(data) + start);
    assert d == WholeVector(data) + start;
  }

  lemma SuffixSelf(d: seq<byte>)
    ensures IsSuffix(d, d)
  {
  }

  lemma PlaceholderWritten(d0: seq<byte>, padding: seq<byte>)
    ensures Int32(0).Size() == 4 && Int32(0).ToBytes() == Int32Bytes(0)
    ensures IsSuffix(d0, Int32Bytes(0) + padding + d0) && Int32Bytes(0) + padding + d0 == Int32Bytes(0) + (padding + d0)
  {
  }

  lemma OpenVtableParts(b: Book, loc: nat, d: seq<byte>)
    requires b.inUse <= |b.vtable|
    ensures var entries := Trimmed(b);
            && Int16Bytes(4 + 2 * |entries|) + (Int16Bytes(loc - b.objectStart) + (EntryBytes(loc, entries) + d))
                == OpenVtable(b, loc) + d
            && (|d| % 4 == 0 ==> |EntryBytes(loc, entries) + d| % 2 == 0)
            && IsSuffix(d, EntryBytes(loc, entries) + d)
  {
    hide Int16Bytes, EntryBytes, VtableBytes, Trimmed;
    VtableBytesParts(loc, b.objectStart, Trimmed(b), d);
  }

  lemma ClosingFormed(d0: seq<byte>, b0: Book, d1: seq<byte>, b1: Book, d2: seq<byte>, b2: Book, loc: nat,
          padding: seq<byte>)
    requires Consistent(d0, b0) && Consistent(d1, b1) && Consistent(d2, b2) && b0.isNested && b0.inUse <= |b0.vtable|
    requires b1 == b0.(minalign := b1.minalign, scalars := b1.scalars)
    requires b2 == b0.(minalign := b2.minalign, scalars := b2.scalars) && b1.scalars <= b2.scalars
    requires d1 == Int32Bytes(0) + (padding + d0) && loc == |d1| && d2 == OpenVtable(b2, loc) + d1 && |d2| < MAX_SIZE
    ensures Closing(d2, b2, loc, d0, padding, b1.scalars)
  {
    hide IsPow2, OpenVtable, TableReads, IsVtable, Trimmed, Int32Bytes;
  }

  lemma ClosingBounds(d: seq<byte>, b: Book, loc: nat, d0: seq<byte>, padding: seq<byte>, kept: set<(nat, nat)>)
    requires b.inUse <= |b.vtable| && Closing(d, b, loc, d0, padding, kept)
    ensures Closing(d, b, loc, d0, padding, {}) && loc == 4 + |padding| + |d0| && |OpenVtable(b, loc)| <= |d|
    ensures |OpenVtable(b, loc)| % 2 == 0 && 4 <= |OpenVtable(b, loc)|
  {
    hide IsPow2, TableReads, IsVtable, Trimmed, VtableBytes, Int32Bytes, OpenObject;
  }

  /** An earlier vtable can be shared: its bytes are the new vtable's, and its size reads back as a signed 16-bit
      number. */
  ghost predicate KnownVtable(d0: seq<byte>, vtables: seq<nat>, vt: seq<byte>) {
    |vt| < 0x8000 && exists v :: v in vtables && StoredAt(d0, v, vt)
  }

  lemma WordHeld(d: seq<byte>, p: int, bs: seq<byte>, i: nat)
    requires HoldsAt(d, p, bs) && i + 1 < |bs|
    ensures ReadInt16(d, p + i) == ReadInt16(bs, i)
  {
    assert d[p + i] == d[p..p + |bs|][i] && d[p + i + 1] == d[p..p + |bs|][i + 1];
  }

  lemma StoredIsMatched(d0: seq<byte>, x: seq<byte>, vt: seq<byte>, v: nat)
    requires StoredAt(d0, v, vt) && 4 <= |vt| < 0x8000 && |vt| % 2 == 0 && HoldsAt(vt, 0, Int16Bytes(|vt|))
    ensures VtableMatches(vt + (x + d0), v, |vt|)
  {
    hide ReadInt16, HoldsAt, Int16Bytes;
    var d := vt + (x + d0);
    assert d == (vt + x) + d0;
    StoredSurvives(vt + x, d0, v, vt);
    var p := |d| - v;
    FrontStored(vt, [], x + d0);
    assert vt + [] + (x + d0) == d;
    forall k: nat | k < |vt| / 2 ensures ReadInt16(d, 2 * k) == ReadInt16(d, p + 2 * k) == ReadInt16(vt, 2 * k) {
      WordHeld(d, 0, vt, 2 * k);
      WordHeld(d, p, vt, 2 * k);
    }
    ReadsInt16(vt, 0, |vt|);
    assert ReadInt16(d, p + 2 * 0) == ReadInt16(vt, 2 * 0);
  }

  /** The search by words finds a vtable exactly when an equal one was stored before. */
  lemma KnownIsMatched(d: seq<byte>, b: Book, loc: nat, d0: seq<byte>, padding: seq<byte>, kept: set<(nat, nat)>)
    requires b.inUse <= |b.vtable| && Closing(d, b, loc, d0, padding, kept)
    ensures var vt := OpenVtable(b, loc);
            KnownVtable(d0, b.vtables, vt) <==> exists v :: v in b.vtables && VtableMatches(d, v, |vt|)
  {
    hide IsPow2, VtableMatches, OpenVtable, Consistent, IsVtable, Closing, StoredAt, HoldsAt, Int32Bytes, Trimmed;
    var vt, x := OpenVtable(b, loc), Int32Bytes(0) + padding;
    ClosingParts(d, b, loc, d0, padding, kept);
    forall v | v in b.vtables
      ensures VtableMatches(d, v, |vt|) <==> |vt| < 0x8000 && StoredAt(d0, v, vt)
    {
      if VtableMatches(d, v, |vt|) {
        MatchIsStored(d0, x, vt, v);
        assert d == (vt + x) + d0;
        MatchInRange(d0, vt + x, v, |vt|);
      } else if |vt| < 0x8000 && StoredAt(d0, v, vt) {
        StoredIsMatched(d0, x, vt, v);
      }
    }
  }

  lemma LinkedSuffix(vt: seq<byte>, word: seq<byte>, padding: seq<byte>, d0: seq<byte>)
    ensures IsSuffix(d0, word + (padding + d0)) && IsSuffix(d0, vt + (word + (padding + d0)))
  {
  }

  /** Closing an object does not depend on what writing its vtable changed. */
  lemma SameClosing(b: Book, b': Book, loc: nat)
    requires b' == b.(minalign := b'.minalign, scalars := b'.scalars) && b.inUse <= |b.vtable|
    ensures ClosedTables(b, loc) == ClosedTables(b', loc)
  {
  }

  lemma SameOpenVtable(b: Book, b': Book, loc: nat)
    requires b'.objectStart == b.objectStart && b'.vtable == b.vtable && b'.inUse == b.inUse <= |b.vtable|
    ensures OpenVtable(b, loc) == OpenVtable(b', loc)
  {
  }

  lemma VtableFront(loc: nat, objectStart: nat, vtable: seq<nat>)
    ensures HoldsAt(VtableBytes(loc, objectStart, vtable), 0, Int16Bytes(|VtableBytes(loc, objectStart, vtable)|))
  {
    assert VtableBytes(loc, objectStart, vtable)[0..2] == Int16Bytes(4 + 2 * |vtable|);
  }

  lemma ScalarsStay(d: seq<byte>, d': seq<byte>, minalign: nat, scalars: set<(nat, nat)>)
    requires |d| <= |d'| && forall s :: s in scalars ==> ScalarAligned(d, minalign, s)
    ensures forall s :: s in scalars ==> ScalarAligned(d', minalign, s)
  {
  }

  lemma VtablesPositive(d: seq<byte>, b: Book)
    requires Consistent(d, b)
    ensures forall v :: v in b.vtables ==> 4 <= v <= |d|
  {
  }

  lemma SuffixTransitive(a: seq<byte>, b: seq<byte>, c: seq<byte>)
    requires IsSuffix(a, b) && IsSuffix(b, c)
    ensures IsSuffix(a, c)
  {
    assert c[|c| - |a|..] == c[|c| - |b|..][|b| - |a|..];
  }

  lemma FrontStored(bs: seq<byte>, padding: seq<byte>, d: seq<byte>)
    ensures StoredAt(bs + padding + d, |bs + padding + d|, bs)
    ensures IsSuffix(d, bs + padding + d)
  {
    assert (bs + padding + d)[..|bs|] == bs;
  }

  lemma OpenObjectBounds(d: seq<byte>, b: Book)
    requires Consistent(d, b) && b.isNested
    ensures |b.slots| == b.inUse <= |b.vtable| && b.objectStart <= |d|
  {
  }
}

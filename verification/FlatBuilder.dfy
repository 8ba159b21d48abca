/** The FlatBuffers builder: a byte array filled from its end, grown by doubling, with shared vtables. */
module FlatBuilder {
  import opened Bytes
  import opened FlatBytes
  import opened FlatTables
  import opened FlatVectors
  import opened FlatLayout
  import opened Utf8

  datatype Error = CannotGrow | MustNotBeNested | ObjectNotStarted | BadIdentifierLength

  datatype Outcome = Pass | Fail(error: Error) {
    predicate IsFailure() {
      Fail?
    }
    function PropagateFailure(): Outcome
      requires Fail?
    {
      this
    }
  }

  class Builder {
    var bytes: array<byte>
    var position: nat
    var space: nat
    var minalign: nat
    var vtable: seq<nat>
    var vtableInUse: nat
    var isNested: bool
    var objectStart: nat
    var vtables: seq<nat>
    var vectorNumElems: nat
    var forceDefaults: bool
    // The ledger of promises: the fields of the open object, the finished tables, and the aligned scalars as
    // (offset, size).
    ghost var slots: seq<Slot>
    ghost var tables: seq<Table>
    ghost var scalars: set<(nat, nat)>

    ghost predicate Shape()
      reads this
    {
      1 <= bytes.Length < MAX_SIZE && space <= bytes.Length && IsPow2(minalign) && minalign <= MAX_SIZE
    }

    /** The bytes written so far; an offset counts from their end. */
    ghost function Data(): (d: seq<byte>)
      requires Shape()
      reads this, bytes
      ensures |d| == bytes.Length - space
    {
      bytes[space..]
    }

    ghost function Ledger(): Book
      reads this
    {
      Book(minalign, isNested, objectStart, vtable, vtableInUse, slots, vtables, tables, scalars)
    }

    ghost predicate Valid()
      reads this, bytes
      ensures Valid() ==> Shape()
    {
      Shape() && Consistent(Data(), Ledger())
    }

    function Offset(): (offset: nat)
      requires Shape()
      reads this, bytes
      ensures offset == |Data()|
    {
      bytes.Length - space
    }

    constructor (initialSize: nat)
      requires initialSize < MAX_SIZE
      ensures Valid() && fresh(bytes) && Data() == [] && tables == [] && scalars == {} && !isNested && !forceDefaults
      ensures vtables == [] && minalign == 1 && space == if initialSize == 0 then 1024 else initialSize
    {
      var size := if initialSize == 0 then 1024 else initialSize;
      bytes := new byte[size](_ => 0);
      position, space, minalign := 0, size, 1;
      vtable, vtableInUse, isNested, objectStart, vtables, vectorNumElems, forceDefaults := [], 0, false, 0, [], 0,
          false;
      slots, tables, scalars := [], [], {};
    }

    /** A call that fails only because the buffer cannot grow any more. */
    predicate OnlyFull(o: Outcome): (full: bool)
      reads this
      ensures o.Pass? ==> full
    {
      o.Fail? ==> o.error == CannotGrow && 0x4000_0000 <= bytes.Length
    }

    /** Double the buffer and copy the old bytes to its end. */
    method Grow() returns (o: Outcome)
      requires Shape()
      modifies this`bytes, this`space, this`position
      ensures Shape() && Data() == old(Data())
      ensures o.Pass? ==> fresh(bytes) && space > old(space)
      ensures OnlyFull(o) && (o.Fail? ==> bytes == old(bytes))
      ensures o.Fail? <==> 0x4000_0000 <= old(bytes).Length
      ensures o.Pass? ==> bytes.Length == 2 * old(bytes).Length
    {
      var oldSize := bytes.Length;
      if 0x4000_0000 <= oldSize {
        return Fail(CannotGrow);
      }
      var newSize := 2 * oldSize;
      var grown := new byte[newSize](_ => 0);
      forall k | 0 <= k < oldSize {
        grown[newSize - oldSize + k] := bytes[k];
      }
      assert grown[newSize - oldSize + space..] == bytes[space..];
      position := newSize - oldSize;
      bytes := grown;
      space := space + (newSize - oldSize);
      o := Pass;
    }

    method Pad(n: nat)
      requires Shape() && n <= space
      modifies this`space, bytes
      ensures Shape() && space == old(space) - n && Data() == Zeros(n) + old(Data())
    {
      hide IsPow2, Zeros;
      var i := 0;
      ZerosStart(Data());
      while i < n
        invariant i <= n && Shape() && space == old(space) - i
        invariant Data() == Zeros(i) + old(Data())
      {
        ghost var before := Data();
        space := space - 1;
        bytes[space] := 0;
        assert Data() == [0] + before;
        ZerosStep(i, old(Data()));
        i := i + 1;
      }
    }

    /** Make room for an element of `size` bytes behind `additional` further bytes, and align it. */
    method Prep(size: nat, additional: nat) returns (o: Outcome)
      requires Shape() && IsPow2(size) && size <= MAX_SIZE
      modifies this`bytes, this`space, this`position, this`minalign, bytes
      ensures Shape() && (bytes == old(bytes) || fresh(bytes))
              && minalign == if size > old(minalign) then size else old(minalign)
      ensures o.Pass? ==> 0 < size && size + additional <= space
                          && Data() == Zeros(AlignSize(|old(Data())| + additional, size)) + old(Data())
                          && Multiple(|Data()| + additional, size)
      ensures o.Pass? ==> old(space) <= space + AlignSize(|old(Data())| + additional, size)
      ensures o.Fail? ==> Data() == old(Data())
      ensures OnlyFull(o)
      ensures 0 < size && (o.Fail? ==> old(space) < AlignSize(|old(Data())| + additional, size) + size + additional)
    {
      hide IsPow2, BitAnd;
      AlignSizeAligns(Offset() + additional, size);
      if size > minalign {
        minalign := size;
      }
      var alignSize := AlignSize(Offset() + additional, size);
      while space < alignSize + size + additional
        invariant Shape() && Data() == old(Data()) && (bytes == old(bytes) || fresh(bytes))
        invariant minalign == if size > old(minalign) then size else old(minalign)
        invariant old(space) <= space && (old(space) < space ==> old(space) < alignSize + size + additional)
        decreases alignSize + size + additional - space
      {
        :- Grow();
      }
      Pad(alignSize);
      o := Pass;
    }

    /** The raw writers: put the bytes of one scalar in front, without alignment. */
    method Write(v: Scalar)
      requires Shape() && v.Size() <= space
      modifies this`space, bytes
      ensures Shape() && space == old(space) - v.Size() && Data() == v.ToBytes() + old(Data())
    {
      hide IsPow2, Scalar.ToBytes;
      var n := v.Size();
      space := space - n;
      WriteAt(space, v);
      assert bytes[space..] == bytes[space..space + n] + bytes[space + n..];
    }

    /** The byte buffer's `writeInt32`. */
    method WriteWord(p: nat, x: int)
      requires p + 4 <= bytes.Length
      modifies bytes
      ensures bytes[..p] == old(bytes[..p]) && bytes[p..p + 4] == Int32Bytes(x) && bytes[p + 4..] == old(bytes[p + 4..])
    {
      bytes[p], bytes[p + 1], bytes[p + 2], bytes[p + 3] := x % 256, x / 256 % 256, x / 256 / 256 % 256,
          x / 256 / 256 / 256 % 256;
    }

    /** The byte buffer's writers: overwrite the bytes at one position. */
    method WriteAt(p: nat, v: Scalar)
      requires p + v.Size() <= bytes.Length
      modifies bytes
      ensures bytes[..p] == old(bytes[..p]) && bytes[p..p + v.Size()] == v.ToBytes()
      ensures bytes[p + v.Size()..] == old(bytes[p + v.Size()..])
    {
      hide Int32Bytes;
      match v
      case Int8(x) =>
        bytes[p] := x % 256;
      case Int16(x) =>
        bytes[p], bytes[p + 1] := x % 256, x / 256 % 256;
      case Int32(x) =>
        WriteWord(p, x);
      case Int64(low, high) =>
        WriteWord(p, low);
        ghost var lower := bytes[..];
        WriteWord(p + 4, high);
        assert bytes[p..p + 8] == bytes[..p + 4][p..] + bytes[p + 4..p + 8] && lower[..p + 4][p..] == lower[p..p + 4];
    }

    /** `prep` between two complete elements. */
    method Align(size: nat, additional: nat) returns (o: Outcome)
      requires Valid() && IsPow2(size) && size <= MAX_SIZE
      modifies this`bytes, this`space, this`position, this`minalign, bytes
      ensures Valid() && (bytes == old(bytes) || fresh(bytes)) && IsSuffix(old(Data()), Data())
      ensures minalign == if size > old(minalign) then size else old(minalign)
      ensures o.Pass? ==> 0 < size && size + additional <= space
                          && Data() == Zeros(AlignSize(|old(Data())| + additional, size)) + old(Data())
                          && Multiple(|Data()| + additional, size)
                          && old(space) <= space + AlignSize(|old(Data())| + additional, size)
      ensures o.Fail? ==> Data() == old(Data())
      ensures OnlyFull(o)
      ensures 0 < size && (o.Fail? ==> old(space) < AlignSize(|old(Data())| + additional, size) + size + additional)
    {
      hide Consistent, IsPow2, AlignSize, Zeros, IsSuffix;
      ghost var ledger, before := Ledger(), Data();
      SuffixSelf(before);
      o := Prep(size, additional);
      MinalignRaised(before, ledger, minalign);
      if o.Pass? {
        Padded(before, AlignSize(|before| + additional, size), Ledger());
      }
    }

    /** Write one scalar at a place that has been aligned for it. */
    method WriteAligned(v: Scalar)
      requires Valid() && v.Size() <= space && v.Size() <= minalign && |Data()| % v.Size() == 0
      modifies this`space, this`scalars, bytes
      ensures Valid() && space == old(space) - v.Size() && Data() == v.ToBytes() + old(Data())
      ensures |Data()| % v.Size() == 0 && scalars == old(scalars) + {(|Data()|, v.Size())}
    {
      hide Consistent, IsPow2, Scalar.ToBytes;
      ghost var ledger, before := Ledger(), Data();
      ScalarAdded(v, before, ledger);
      Write(v);
      scalars := scalars + {(Offset(), v.Size())};
    }

    /** `addInt8` .. `addInt64`: align, then write. */
    method AddScalar(v: Scalar) returns (o: Outcome)
      requires Valid()
      modifies this`bytes, this`space, this`position, this`minalign, this`scalars, bytes
      ensures Valid() && (bytes == old(bytes) || fresh(bytes))
      ensures minalign == if v.Size() > old(minalign) then v.Size() else old(minalign)
      ensures o.Pass? ==> Data() == v.ToBytes() + Zeros(AlignSize(|old(Data())|, v.Size())) + old(Data())
      ensures o.Pass? ==> |Data()| % v.Size() == 0 && scalars == old(scalars) + {(|Data()|, v.Size())}
      ensures o.Pass? ==> old(space) <= space + AlignSize(|old(Data())|, v.Size()) + v.Size()
      ensures o.Fail? ==> Data() == old(Data()) && scalars == old(scalars)
      ensures OnlyFull(o)
      ensures o.Fail? ==> old(space) < AlignSize(|old(Data())|, v.Size()) + v.Size()
      ensures o.Pass? ==> LowByteFirst(Data(), 0, v)
    {
      hide LowByteFirst, Consistent, IsPow2, AlignSize, Scalar.ToBytes, Zeros, Valid, Shape, Data, IsSuffix;
      ghost var before := Data();
      ScalarSize(v);
      o := Align(v.Size(), 0);
      if o.Pass? {
        FrontAssociates(v.ToBytes(), Zeros(AlignSize(|before|, v.Size())), before);
        WriteAligned(v);
        FrontLowByteFirst(v, Zeros(AlignSize(|before|, v.Size())), before);
      }
    }

    /** Write the position of an earlier object relative to the place where it is written. */
    method AddOffset(offset: nat) returns (o: Outcome)
      requires Valid()
      modifies this`bytes, this`space, this`position, this`minalign, this`scalars, bytes
      ensures Valid() && (bytes == old(bytes) || fresh(bytes))
      ensures minalign == if 4 > old(minalign) then 4 else old(minalign)
      ensures o.Pass? ==> Data() == Int32Bytes(|Data()| - offset) + Zeros(AlignSize(|old(Data())|, 4)) + old(Data())
                          && |Data()| % 4 == 0
      ensures o.Pass? ==> old(space) <= space + AlignSize(|old(Data())|, 4) + 4
      ensures o.Fail? ==> Data() == old(Data())
      ensures scalars == old(scalars) + if o.Pass? then {(|Data()|, 4)} else {}
      ensures OnlyFull(o)
      ensures o.Fail? ==> old(space) < AlignSize(|old(Data())|, 4) + 4
      ensures o.Pass? ==> LowByteFirst(Data(), 0, Int32(|Data()| - offset))
    {
      hide LowByteFirst, Consistent, IsPow2, AlignSize, Scalar.ToBytes, Int32Bytes, Zeros, Valid, Shape, Data, IsSuffix;
      ghost var before := Data();
      Powers();
      o := Align(4, 0);
      if o.Pass? {
        var v := Offset() - offset + 4;
        Int32ToBytes(v);
        FrontAssociates(Int32Bytes(v), Zeros(AlignSize(|before|, 4)), before);
        WriteAligned(Int32(v));
        FrontLowByteFirst(Int32(v), Zeros(AlignSize(|before|, 4)), before);
      }
    }

    method SetForceDefaults(force: bool)
      requires Valid()
      modifies this`forceDefaults
      ensures Valid() && Data() == old(Data()) && Ledger() == old(Ledger()) && forceDefaults == force
    {
      hide Consistent, IsPow2;
      forceDefaults := force;
    }

    /** Remember where the field for slot `voffset` of the open object was written. */
    method MarkSlot(voffset: nat, ghost stored: seq<byte>)
      requires Valid() && isNested && voffset < vtableInUse && objectStart < |Data()|
               && StoredAt(Data(), |Data()|, stored)
      modifies this`vtable, this`slots
      ensures Valid() && slots == old(slots)[voffset := Set(|Data()|, stored)]
    {
      vtable := vtable[voffset := Offset()];
      slots := slots[voffset := Set(|Data()|, stored)];
    }

    /** `addFieldInt8` .. `addFieldInt64`: a field equal to its default is not stored unless defaults are forced. */
    method AddField(voffset: nat, v: Scalar, default: Scalar) returns (o: Outcome)
      requires Valid() && isNested && voffset < vtableInUse
      modifies this`bytes, this`space, this`position, this`minalign, this`scalars, this`vtable, this`slots, bytes
      ensures Valid() && (bytes == old(bytes) || fresh(bytes)) && IsSuffix(old(Data()), Data())
      ensures !forceDefaults && v == default ==> o.Pass? && Data() == old(Data()) && scalars == old(scalars)
      ensures o.Pass? ==> slots == if forceDefaults || v != default
                          then old(slots)[voffset := Set(|Data()|, v.ToBytes())] else old(slots)
      ensures o.Fail? ==> slots == old(slots)
      ensures scalars == old(scalars) + if o.Pass? && (forceDefaults || v != default) then {(|Data()|, v.Size())}
              else {}
      ensures OnlyFull(o)
      ensures o.Pass? && (forceDefaults || v != default)
              ==> Data() == v.ToBytes() + Zeros(AlignSize(|old(Data())|, v.Size())) + old(Data())
    {
      hide LowByteFirst, Consistent, HoldsAt, IsPow2, AlignSize, Zeros, Scalar.ToBytes;
      o := Pass;
      if forceDefaults || v != default {
        ghost var before := Data();
        OpenObjectBounds(before, Ledger());
        o := AddScalar(v);
        if o.Pass? {
          FrontStored(v.ToBytes(), Zeros(AlignSize(|before|, v.Size())), before);
          MarkSlot(voffset, v.ToBytes());
        }
      }
    }

    method AddFieldOffset(voffset: nat, offset: nat, default: nat) returns (o: Outcome)
      requires Valid() && isNested && voffset < vtableInUse
      modifies this`bytes, this`space, this`position, this`minalign, this`scalars, this`vtable, this`slots, bytes
      ensures Valid() && (bytes == old(bytes) || fresh(bytes)) && IsSuffix(old(Data()), Data())
      ensures !forceDefaults && offset == default ==> o.Pass? && Data() == old(Data()) && scalars == old(scalars)
      ensures o.Pass? ==> slots == if forceDefaults || offset != default
                                   then old(slots)[voffset := Set(|Data()|, Int32Bytes(|Data()| - offset))]
                                       else old(slots)
      ensures o.Fail? ==> slots == old(slots)
      ensures scalars == old(scalars) + if o.Pass? && (forceDefaults || offset != default) then {(|Data()|, 4)} else {}
      ensures OnlyFull(o)
      ensures o.Pass? && (forceDefaults || offset != default) ==>
                Data() == Int32Bytes(|Data()| - offset) + Zeros(AlignSize(|old(Data())|, 4)) + old(Data())
    {
      hide LowByteFirst, Consistent, HoldsAt, IsPow2, AlignSize, Zeros, Int32Bytes;
      o := Pass;
      if forceDefaults || offset != default {
        ghost var before := Data();
        OpenObjectBounds(before, Ledger());
        o := AddOffset(offset);
        if o.Pass? {
          FrontStored(Int32Bytes(|Data()| - offset), Zeros(AlignSize(|before|, 4)), before);
          MarkSlot(voffset, Int32Bytes(|Data()| - offset));
        }
      }
    }

    method StartObject(numFields: nat) returns (o: Outcome)
      requires Valid()
      modifies this`vtable, this`vtableInUse, this`isNested, this`objectStart, this`slots
      ensures Valid() && Data() == old(Data())
      ensures if old(isNested) then o == Fail(MustNotBeNested) && Ledger() == old(Ledger())
              else o == Pass && isNested && slots == seq(numFields, _ => Unset) && vtableInUse == numFields
                   && objectStart == |Data()|
    {
      if isNested {
        return Fail(MustNotBeNested);
      }
      vtableInUse := numFields;
      var i := 0;
      while i < numFields
        invariant i <= numFields && i <= |vtable| && forall k :: 0 <= k < i ==> vtable[k] == 0
        invariant vtableInUse == numFields && Shape() && Data() == old(Data()) && Consistent(Data(), old(Ledger()))
      {
        vtable := if i < |vtable| then vtable[i := 0] else vtable + [0];
        i := i + 1;
      }
      isNested := true;
      objectStart := Offset();
      slots := seq(numFields, _ => Unset);
      o := Pass;
    }

    /** The entries of the vtable, last one first. */
    method WriteEntries(loc: nat, trimmed: nat) returns (o: Outcome)
      requires Valid() && loc == |Data()| && loc % 4 == 0 && trimmed <= |vtable|
      modifies this`bytes, this`space, this`position, this`minalign, this`scalars, bytes
      ensures Valid() && (bytes == old(bytes) || fresh(bytes)) && IsSuffix(old(Data()), Data())
              && old(scalars) <= scalars
      ensures o.Pass? ==> Data() == EntryBytes(loc, vtable[..trimmed]) + old(Data())
      ensures OnlyFull(o)
    {
      hide *;
      ghost var before, entries := Data(), vtable[..trimmed];
      var i := trimmed;
      EntryBytesStart(loc, entries, before);
      while i > 0
        invariant i <= trimmed && Valid() && (bytes == old(bytes) || fresh(bytes))
        invariant Data() == EntryBytes(loc, entries[i..]) + before && IsSuffix(before, Data())
                  && old(scalars) <= scalars
      {
        i := i - 1;
        assert entries[i] == vtable[i];
        EntryBytesStep(loc, entries, i, before);
        o := AddShort(Entry(loc, vtable[i]));
        if o.Fail? {
          return;
        }
      }
      assert entries[0..] == entries;
      o := Pass;
    }

    /** The sizes of the table and of the vtable, in front of the entries. */
    method WriteSizes(tableSize: nat, vtableSize: nat) returns (o: Outcome)
      requires Valid() && |Data()| % 2 == 0
      modifies this`bytes, this`space, this`position, this`minalign, this`scalars, bytes
      ensures Valid() && (bytes == old(bytes) || fresh(bytes)) && old(scalars) <= scalars
      ensures if o.Pass? then Data() == Int16Bytes(vtableSize) + (Int16Bytes(tableSize) + old(Data()))
              else IsSuffix(old(Data()), Data())
      ensures OnlyFull(o)
      ensures o.Pass? ==> (|Data()|, 2) in scalars
    {
      hide Valid, Shape, Data;
      o := AddShort(tableSize);
      if o.Pass? {
        o := AddShort(vtableSize);
      }
    }

    /** `readInt16` of the byte buffer at an absolute position in the written part. */
    function PeekInt16(p: nat): (v: int)
      requires Shape() && space <= p
      reads this, bytes
      ensures v == ReadInt16(Data(), p - space)
    {
      assert bytes[..] == bytes[..space] + Data();
      ReadsBehind(bytes[..space], Data(), p - space);
      ReadInt16(bytes[..], p)
    }

    /** Compare two vtables of `len` bytes word by word, behind their first word. */
    method SameVtable(vt1: nat, vt2: nat, len: nat) returns (same: bool, ghost differ: nat)
      requires Shape() && space <= vt1 && space <= vt2 && len % 2 == 0 && 2 <= len
      ensures same ==> forall k: nat :: 1 <= k < len / 2
                                        ==> ReadInt16(Data(), vt1 - space + 2 * k)
                                            == ReadInt16(Data(), vt2 - space + 2 * k)
      ensures !same ==> 1 <= differ < len / 2
                        && ReadInt16(Data(), vt1 - space + 2 * differ) != ReadInt16(Data(), vt2 - space + 2 * differ)
    {
      hide Shape, ReadInt16;
      var j := 2;
      differ := 0;
      while j < len
        invariant 2 <= j <= len && j % 2 == 0
        invariant forall k: nat :: 1 <= k < j / 2
                                   ==> ReadInt16(Data(), vt1 - space + 2 * k) == ReadInt16(Data(), vt2 - space + 2 * k)
      {
        if PeekInt16(vt1 + j) != PeekInt16(vt2 + j) {
          return false, j / 2;
        }
        j := j + 2;
      }
      same := true;
    }

    /** Search the earlier vtables for one equal to the vtable of `len` bytes that was just written. */
    method FindVtable(len: nat) returns (existing: nat)
      requires Valid() && len % 2 == 0 && 4 <= len <= |Data()|
      ensures existing == 0 ==> forall v :: v in vtables ==> !VtableMatches(Data(), v, len)
      ensures existing != 0 ==> existing in vtables && VtableMatches(Data(), existing, len)
    {
      VtablesPositive(Data(), Ledger());
      hide Consistent, ReadInt16, VtableMatches;
      var i := 0;
      while i < |vtables|
        invariant i <= |vtables|
        invariant forall k :: 0 <= k < i ==> !VtableMatches(Data(), vtables[k], len)
      {
        var v := vtables[i];
        assert v in vtables;
        var vt2 := bytes.Length - v;
        assert vt2 - space == |Data()| - v;
        if PeekInt16(vt2) == len {
          var same, differ := SameVtable(space, vt2, len);
          if same {
            WordsMatch(Data(), v, len);
            return v;
          }
          WordDiffers(Data(), v, len, differ);
        } else {
          SizeDiffers(Data(), v, len);
        }
        i := i + 1;
      }
      existing := 0;
    }

    /** Point the table at an existing vtable and drop the new one. */
    method ShareVtable(loc: nat, existing: nat, ghost d0: seq<byte>, ghost padding: seq<byte>,
            ghost kept: set<(nat, nat)>)
      requires Shape() && vtableInUse <= |vtable| && Closing(Data(), Ledger(), loc, d0, padding, kept)
      requires existing in vtables && VtableMatches(Data(), existing, |OpenVtable(Ledger(), loc)|)
      modifies this`space, this`isNested, this`tables, this`scalars, bytes
      ensures Valid() && !isNested && Data() == Int32Bytes(existing - loc) + (padding + d0)
      ensures tables == ClosedTables(old(Ledger()), loc) && scalars == kept && TableClosed(Data(), old(Ledger()), loc)
    {
      hide IsPow2, TableClosed, VtableMatches, Closing, Consistent, Int32Bytes, ClosedTables, Trimmed, OpenVtable;
      ghost var b := Ledger();
      ShareCloses(Data(), b, loc, d0, padding, kept, existing);
      Rewind(loc, existing - loc);
      scalars, isNested, tables := kept, false, ClosedTables(b, loc);
    }

    /** Keep the new vtable, remember it, and point the table at it. */
    method KeepVtable(loc: nat, ghost d0: seq<byte>, ghost padding: seq<byte>)
      requires Valid() && vtableInUse <= |vtable| && Closing(Data(), Ledger(), loc, d0, padding, {})
      modifies this`vtables, this`isNested, this`tables, bytes
      ensures Valid() && !isNested && tables == ClosedTables(old(Ledger()), loc) && vtables == old(vtables) + [|Data()|]
      ensures var vt := OpenVtable(old(Ledger()), loc); Data() == vt + (Int32Bytes(|vt|) + (padding + d0))
      ensures TableClosed(Data(), old(Ledger()), loc)
    {
      hide IsPow2, TableClosed, Closing, OpenVtable, Consistent, ClosedTables, Int32Bytes;
      ghost var b := Ledger();
      KeepCloses(Data(), b, loc, d0, padding);
      Patch(loc, Offset() - loc);
      vtables, isNested, tables := vtables + [Offset()], false, ClosedTables(b, loc);
    }

    /** Forget the bytes in front of the table at `loc` and overwrite its offset word. */
    method Rewind(loc: nat, v: int)
      requires Shape() && 4 <= loc <= |Data()|
      modifies this`space, bytes
      ensures Shape() && Data() == Int32Bytes(v) + old(Data())[|old(Data())| - loc + 4..]
    {
      hide IsPow2, Int32Bytes;
      ghost var before := Data();
      space := bytes.Length - loc;
      ghost var now := Data();
      assert now == before[|before| - loc..] && now[4..] == before[|before| - loc + 4..];
      assert now[..0] + Int32Bytes(v) == Int32Bytes(v);
      Patch(loc, v);
    }

    /** `for (; i >= 0 && vtable[i] == 0; i--)`: the number of slots up to the last stored one. */
    method CountTrimmed() returns (trimmed: nat)
      requires vtableInUse <= |vtable|
      ensures trimmed == |Trimmed(Ledger())| && trimmed <= vtableInUse && vtable[..trimmed] == Trimmed(Ledger())
    {
      trimmed := vtableInUse;
      while trimmed > 0 && vtable[trimmed - 1] == 0
        invariant trimmed <= vtableInUse && TrimmedSize(vtable[..vtableInUse]) == TrimmedSize(vtable[..trimmed])
      {
        assert vtable[..trimmed][..trimmed - 1] == vtable[..trimmed - 1];
        trimmed := trimmed - 1;
      }
      assert vtable[..vtableInUse][..trimmed] == vtable[..trimmed];
    }

    /** The vtable of the open object, written in front of its offset word. */
    method WriteVtable(loc: nat, ghost b: Book) returns (o: Outcome, len: nat)
      requires Valid() && loc == |Data()| && loc % 4 == 0 && objectStart <= loc && b == Ledger()
               && b.inUse <= |b.vtable|
      modifies this`bytes, this`space, this`position, this`minalign, this`scalars, bytes
      ensures Valid() && (bytes == old(bytes) || fresh(bytes)) && old(scalars) <= scalars
      ensures len == |OpenVtable(b, loc)|
      ensures if o.Pass? then Data() == OpenVtable(b, loc) + old(Data()) else IsSuffix(old(Data()), Data())
      ensures OnlyFull(o)
      ensures o.Pass? ==> (|Data()|, 2) in scalars
    {
      hide Valid, Shape, Data, OpenVtable, Trimmed, EntryBytes, Int16Bytes;
      ghost var before := Data();
      var trimmed := CountTrimmed();
      len := 4 + 2 * trimmed;
      OpenVtableParts(b, loc, before);
      o := WriteEntries(loc, trimmed);
      if o.Fail? {
        return;
      }
      ghost var middle := Data();
      o := WriteSizes(loc - objectStart, len);
      if o.Fail? {
        SuffixTransitive(before, middle, Data());
      }
    }

    /** Let the table at `loc` refer to an equal earlier vtable if there is one, else to the one just written. */
    method LinkVtable(loc: nat, len: nat, ghost d0: seq<byte>, ghost padding: seq<byte>, ghost kept: set<(nat, nat)>)
      requires Valid() && vtableInUse <= |vtable| && Closing(Data(), Ledger(), loc, d0, padding, kept)
      requires len == |OpenVtable(Ledger(), loc)| && kept <= scalars
      modifies this`space, this`vtables, this`isNested, this`tables, this`scalars, bytes
      ensures Valid() && !isNested && IsSuffix(d0, Data()) && |d0| < loc <= |Data()|
      ensures tables == ClosedTables(old(Ledger()), loc) && kept <= scalars && TableClosed(Data(), old(Ledger()), loc)
      ensures vtables == if exists v :: v in old(vtables) && VtableMatches(old(Data()), v, len) then old(vtables)
                                        else old(vtables) + [|Data()|]
      ensures vtables != old(vtables) ==> scalars == old(scalars) && |Data()| == |old(Data())|
    {
      hide Consistent, VtableMatches, Closing, ClosedTables, Int32Bytes, IsPow2, IsSuffix, TableClosed;
      ClosingBounds(Data(), Ledger(), loc, d0, padding, kept);
      var existing := FindVtable(len);
      if existing != 0 {
        ShareVtable(loc, existing, d0, padding, kept);
        LinkedSuffix([], Int32Bytes(existing - loc), padding, d0);
      } else {
        ghost var vt := OpenVtable(Ledger(), loc);
        KeepVtable(loc, d0, padding);
        LinkedSuffix(vt, Int32Bytes(|vt|), padding, d0);
      }
    }

    /** Finish the open object: offset word, vtable, and either a shared or a new vtable behind the word. */
    method EndObject() returns (o: Outcome, loc: nat)
      requires Valid()
      modifies this`bytes, this`space, this`position, this`minalign, this`scalars, this`vtables, this`isNested,
               this`tables, bytes
      ensures Valid() && (bytes == old(bytes) || fresh(bytes)) && IsSuffix(old(Data()), Data())
              && old(scalars) <= scalars
      ensures !old(isNested) ==> o == Fail(ObjectNotStarted) && Data() == old(Data()) && Ledger() == old(Ledger())
      ensures o.Pass? ==> !isNested && vtableInUse <= |vtable| && |old(Data())| < loc <= |Data()|
                          && tables == ClosedTables(old(Ledger()), loc) && (loc, 4) in scalars
      ensures o.Pass? ==> var vt := OpenVtable(old(Ledger()), loc);
                          vtables == if KnownVtable(old(Data()), old(vtables), vt) then old(vtables)
                              else old(vtables) + [|Data()|]
      ensures o.Pass? ==> TableClosed(Data(), old(Ledger()), loc)
      ensures o.Fail? ==> tables == old(tables) && isNested == old(isNested)
      ensures old(isNested) ==> OnlyFull(o)
      ensures o.Pass? && vtables != old(vtables) ==> (|Data()|, 2) in scalars
    {
      hide LowByteFirst, Consistent, Closing, TableClosed, ClosedTables, OpenVtable, Int32Bytes, IsPow2, IsSuffix,
           AlignSize, Zeros,
           Scalar.ToBytes, Scalar.Size;
      loc := 0;
      SuffixSelf(Data());
      if !isNested {
        return Fail(ObjectNotStarted), 0;
      }
      ghost var d0, b0 := Data(), Ledger();
      OpenObjectBounds(d0, b0);
      ghost var padding := Zeros(AlignSize(|d0|, 4));
      PlaceholderWritten(d0, padding);
      o := AddScalar(Int32(0));
      if o.Fail? {
        return;
      }
      loc := Offset();
      ghost var d1, b1 := Data(), Ledger();
      var len;
      o, len := WriteVtable(loc, b1);
      if o.Fail? {
        SuffixTransitive(d0, d1, Data());
        return;
      }
      ghost var b2 := Ledger();
      SameOpenVtable(b1, b2, loc);
      ClosingFormed(d0, b0, d1, b1, Data(), b2, loc, padding);
      KnownIsMatched(Data(), b2, loc, d0, padding, b1.scalars);
      LinkVtable(loc, len, d0, padding, b1.scalars);
      SameClosing(b0, b2, loc);
      SameOpenVtable(b0, b2, loc);
      SameReading(Data(), b2, b0, loc);
    }

    /** Align for `total` bytes of elements and for the length word that will stand in front of them. */
    method AlignVector(total: nat, alignment: nat) returns (o: Outcome)
      requires Valid() && IsPow2(alignment) && alignment <= MAX_SIZE
      modifies this`bytes, this`space, this`position, this`minalign, bytes
      ensures Valid() && (bytes == old(bytes) || fresh(bytes)) && IsSuffix(old(Data()), Data())
      ensures o.Pass? ==> total + 4 <= space && 4 <= minalign && ReadyFor(Data(), old(Data()), total, alignment)
      ensures OnlyFull(o)
    {
      hide Consistent, IsPow2, AlignSize, Zeros, IsSuffix, ReadyFor, Valid, Shape, Data, Multiple;
      ghost var before := Data();
      Powers();
      o := Align(4, total);
      if o.Pass? {
        ghost var first := Data();
        o := Align(alignment, total);
        if o.Pass? {
          StillAligned(before, first, Data(), total, alignment);
        } else {
          SuffixTransitive(before, first, Data());
        }
      }
    }

    method StartVector(elemSize: nat, numElems: nat, alignment: nat) returns (o: Outcome)
      requires Valid() && IsPow2(alignment) && alignment <= MAX_SIZE
      modifies this`bytes, this`space, this`position, this`minalign, this`vectorNumElems, bytes
      ensures Valid() && (bytes == old(bytes) || fresh(bytes)) && IsSuffix(old(Data()), Data())
      ensures isNested ==> o == Fail(MustNotBeNested) && Data() == old(Data()) && vectorNumElems == old(vectorNumElems)
      ensures o.Pass? ==> !isNested && vectorNumElems == numElems && ElementBytes(elemSize, numElems) + 4 <= space
                          && 4 <= minalign
                          && ReadyFor(Data(), old(Data()), ElementBytes(elemSize, numElems), alignment)
      ensures !old(isNested) ==> OnlyFull(o)
    {
      hide *;
      SuffixSelf(Data());
      if isNested {
        return Fail(MustNotBeNested);
      }
      SetCount(numElems);
      o := AlignVector(ElementBytes(elemSize, numElems), alignment);
    }

    method SetCount(n: nat)
      requires Valid()
      modifies this`vectorNumElems
      ensures Valid() && Data() == old(Data()) && vectorNumElems == n
    {
      hide Consistent, IsPow2;
      vectorNumElems := n;
    }

    /** Write the length word into the room left for it, without alignment: it is aligned when all announced elements
        are there. */
    method EndVector() returns (offset: nat)
      requires Valid() && 4 <= space
      modifies this`space, this`scalars, bytes
      ensures Valid() && offset == |Data()| && Data() == Int32Bytes(vectorNumElems) + old(Data())
              && space == old(space) - 4
      ensures scalars == old(scalars) + if |old(Data())| % 4 == 0 && 4 <= minalign then {(offset, 4)} else {}
    {
      hide Consistent, IsPow2, Scalar.ToBytes, Int32Bytes;
      ghost var before, ledger := Data(), Ledger();
      ghost var aligned := |before| % 4 == 0 && 4 <= minalign;
      Int32ToBytes(vectorNumElems);
      LengthAdded(vectorNumElems, before, ledger);
      Write(Int32(vectorNumElems));
      offset := Offset();
      if aligned {
        scalars := scalars + {(offset, 4)};
      }
    }

    /** `addInt8` .. `addInt64` at a multiple of the size, where it needs no padding. */
    method AddNext(v: Scalar) returns (o: Outcome)
      requires Valid() && |Data()| % v.Size() == 0
      modifies this`bytes, this`space, this`position, this`minalign, this`scalars, bytes
      ensures Valid() && (bytes == old(bytes) || fresh(bytes)) && IsSuffix(old(Data()), Data())
      ensures o.Pass? ==> Data() == v.ToBytes() + old(Data()) && |Data()| % v.Size() == 0
                          && old(space) <= space + v.Size() && old(minalign) <= minalign
      ensures scalars == old(scalars) + if o.Pass? then {(|Data()|, v.Size())} else {}
      ensures OnlyFull(o)
    {
      hide LowByteFirst, Consistent, IsPow2, AlignSize, IsSuffix, Scalar.ToBytes, Zeros, StoredAt;
      ghost var before := Data();
      SuffixSelf(before);
      ScalarSize(v);
      AlignSizeAligns(|before|, v.Size());
      o := AddScalar(v);
      if o.Pass? {
        NoPadding(v.ToBytes(), before);
        FrontStored(v.ToBytes(), [], before);
      }
    }

    /** `endVector` behind the elements of a whole vector. */
    method CloseVector(ghost data: seq<Scalar>, ghost start: seq<byte>) returns (offset: nat)
      requires Valid() && 4 <= space && Multiple(|Data()|, 4) && 4 <= minalign
      requires vectorNumElems == |data| && Data() == VectorBytes(data) + start
      modifies this`space, this`scalars, bytes
      ensures Valid() && offset == |Data()| && |Data()| == |old(Data())| + 4 && scalars == old(scalars) + {(offset, 4)}
      ensures StoredAt(Data(), offset, WholeVector(data)) && IsSuffix(old(Data()), Data())
    {
      hide Valid, Shape, Data, Consistent, IsPow2, IsSuffix, Int32Bytes, VectorBytes, StoredAt, WholeVector;
      VectorStored(data, start);
      offset := EndVector();
    }

    /** The element loop of a generated `create…Vector`: last element first. */
    method AddElements(size: nat, data: seq<Scalar>, ghost end: nat) returns (o: Outcome)
      requires Valid() && size in {1, 2, 4, 8} && Uniform(data, size) && 4 <= minalign
      requires Multiple(|Data()|, size) && ElementBytes(size, |data|) + 4 <= space
               && end == |Data()| + ElementBytes(size, |data|)
      modifies this`bytes, this`space, this`position, this`minalign, this`scalars, bytes
      ensures Valid() && (bytes == old(bytes) || fresh(bytes)) && IsSuffix(old(Data()), Data())
              && old(scalars) <= scalars
      ensures o.Pass? ==> Data() == VectorBytes(data) + old(Data()) && |Data()| == end
                          && 4 <= space && 4 <= minalign
      ensures o.Pass? ==> ElementsAligned(scalars, end, size, 0, |data|)
      ensures OnlyFull(o)
    {
      hide Valid, Shape, Data, ElementBytes, Consistent, IsPow2, IsSuffix, Scalar.ToBytes, VectorBytes;
      ghost var start := Data();
      var i := |data|;
      ghost var left := ElementBytes(size, |data|);
      NoElements(data, start);
      SuffixSelf(start);
      while i > 0
        invariant 0 <= i <= |data| && Valid() && (bytes == old(bytes) || fresh(bytes))
        invariant Data() == VectorBytes(data[i..]) + start && Multiple(|Data()|, size) && |Data()| + left == end
        invariant left == ElementBytes(size, i) && left + 4 <= space && 4 <= minalign && old(scalars) <= scalars
        invariant IsSuffix(start, Data()) && ElementsAligned(scalars, end, size, i, |data|)
      {
        i := i - 1;
        OneMore(size, i);
        left := left - size;
        VectorStep(data, i, start);
        ghost var last := Data();
        assert data[i].Size() == size;
        ghost var before := scalars;
        o := AddNext(data[i]);
        SuffixTransitive(start, last, Data());
        if o.Fail? {
          return;
        }
        OneMoreAligned(before, scalars, end, size, i, |data|);
      }
      assert data[0..] == data;
      OneMore(size, 0);
      o := Pass;
    }

    method FillVector(size: nat, data: seq<Scalar>, ghost end: nat) returns (o: Outcome, offset: nat)
      requires Valid() && size in {1, 2, 4, 8} && Uniform(data, size) && 4 <= minalign && vectorNumElems == |data|
               && Multiple(end, 4)
      requires Multiple(|Data()|, size) && ElementBytes(size, |data|) + 4 <= space
               && end == |Data()| + ElementBytes(size, |data|)
      modifies this`bytes, this`space, this`position, this`minalign, this`scalars, bytes
      ensures Valid() && (bytes == old(bytes) || fresh(bytes)) && IsSuffix(old(Data()), Data())
              && old(scalars) <= scalars
      ensures o.Pass? ==> offset == |Data()| && StoredAt(Data(), offset, WholeVector(data))
      ensures o.Pass? ==> (offset, 4) in scalars && offset == end + 4 && ElementsAligned(scalars, end, size, 0, |data|)
      ensures OnlyFull(o)
    {
      hide Valid, Shape, Data, ElementBytes, Consistent, IsPow2, IsSuffix, VectorBytes, StoredAt, WholeVector, Uniform,
           Multiple;
      ghost var start := Data();
      offset := 0;
      o := AddElements(size, data, end);
      if o.Pass? {
        ghost var last := Data();
        offset := CloseVector(data, start);
        SuffixTransitive(start, last, Data());
      }
    }

    /** A generated `create…Vector` for scalars of one size: start, add the elements last one first, end. */
    method CreateScalarVector(size: nat, data: seq<Scalar>) returns (o: Outcome, offset: nat)
      requires Valid() && size in {1, 2, 4, 8} && Uniform(data, size)
      modifies this`bytes, this`space, this`position, this`minalign, this`vectorNumElems, this`scalars, bytes
      ensures Valid() && (bytes == old(bytes) || fresh(bytes)) && IsSuffix(old(Data()), Data())
              && old(scalars) <= scalars
      ensures o.Pass? ==> offset == |Data()| && StoredAt(Data(), offset, WholeVector(data))
      ensures old(isNested) ==> o == Fail(MustNotBeNested)
      ensures o.Pass? ==> 4 <= offset && (offset, 4) in scalars && ElementsAligned(scalars, offset - 4, size, 0, |data|)
      ensures !old(isNested) ==> OnlyFull(o)
      ensures o.Pass? ==> VectorStands(Data(), 0, size, data)
    {
      hide Valid, Shape, Data, ElementBytes, Consistent, IsPow2, IsSuffix, StoredAt, WholeVector, VectorStands,
           ReadyFor, Uniform,
           Multiple;
      ghost var before := Data();
      offset := 0;
      Powers();
      o := StartVector(size, |data|, size);
      if o.Pass? {
        ghost var start := Data();
        ghost var end := ReadyParts(start, before, size, |data|);
        o, offset := FillVector(size, data, end);
        SuffixTransitive(before, start, Data());
        if o.Pass? {
          StoredVectorStands(Data(), offset, size, data);
        }
      }
    }

    /** `addOffset` right behind a word, where it needs no padding. */
    method AddNextOffset(offset: nat) returns (o: Outcome)
      requires Valid() && |Data()| % 4 == 0
      modifies this`bytes, this`space, this`position, this`minalign, this`scalars, bytes
      ensures Valid() && (bytes == old(bytes) || fresh(bytes)) && IsSuffix(old(Data()), Data())
      ensures o.Pass? ==> Data() == Int32Bytes(|old(Data())| + 4 - offset) + old(Data()) && old(space) <= space + 4
                          && old(minalign) <= minalign
      ensures scalars == old(scalars) + if o.Pass? then {(|Data()|, 4)} else {}
      ensures OnlyFull(o)
    {
      hide LowByteFirst, Consistent, IsPow2, AlignSize, IsSuffix, Int32Bytes, Zeros, StoredAt;
      ghost var before := Data();
      SuffixSelf(before);
      Powers();
      AlignSizeAligns(|before|, 4);
      o := AddOffset(offset);
      if o.Pass? {
        NoPadding(Int32Bytes(|before| + 4 - offset), before);
        FrontStored(Int32Bytes(|before| + 4 - offset), [], before);
      }
    }

    method AddOffsets(offsets: seq<nat>, ghost end: nat) returns (o: Outcome)
      requires Valid() && Multiple(|Data()|, 4) && 4 * |offsets| + 4 <= space && 4 <= minalign
               && end == |Data()| + 4 * |offsets|
      modifies this`bytes, this`space, this`position, this`minalign, this`scalars, bytes
      ensures Valid() && (bytes == old(bytes) || fresh(bytes)) && IsSuffix(old(Data()), Data())
              && old(scalars) <= scalars
      ensures o.Pass? ==> Data() == VectorBytes(RelativeTo(end, offsets)) + old(Data()) && |Data()| == end
                          && Multiple(|Data()|, 4)
                          && 4 <= space && 4 <= minalign
      ensures o.Pass? ==> ElementsAligned(scalars, end, 4, 0, |offsets|)
      ensures OnlyFull(o)
    {
      hide Valid, Shape, Data, Consistent, IsPow2, IsSuffix, Int32Bytes, VectorBytes, RelativeTo;
      ghost var start := Data();
      var i := |offsets|;
      ghost var words := RelativeTo(end, offsets);
      NoElements(words, start);
      SuffixSelf(start);
      while i > 0
        invariant 0 <= i <= |offsets| && Valid() && (bytes == old(bytes) || fresh(bytes))
        invariant Data() == VectorBytes(words[i..]) + start && Multiple(|Data()|, 4) && |Data()| + 4 * i == end
        invariant 4 * i + 4 <= space && 4 <= minalign && old(scalars) <= scalars && IsSuffix(start, Data())
        invariant ElementsAligned(scalars, end, 4, i, |offsets|)
      {
        ghost var last := Data();
        i := i - 1;
        RelativeWord(end, offsets, i, last, start);
        ghost var before := scalars;
        o := AddNextOffset(offsets[i]);
        SuffixTransitive(start, last, Data());
        if o.Fail? {
          return;
        }
        OneMoreAligned(before, scalars, end, 4, i, |offsets|);
      }
      assert words[0..] == words;
      o := Pass;
    }

    method FillOffsetVector(offsets: seq<nat>, ghost end: nat) returns (o: Outcome, offset: nat)
      requires Valid() && Multiple(|Data()|, 4) && 4 * |offsets| + 4 <= space && 4 <= minalign
               && end == |Data()| + 4 * |offsets|
      requires vectorNumElems == |offsets|
      modifies this`bytes, this`space, this`position, this`minalign, this`scalars, bytes
      ensures Valid() && (bytes == old(bytes) || fresh(bytes)) && IsSuffix(old(Data()), Data())
              && old(scalars) <= scalars
      ensures o.Pass? ==> offset == |Data()| && offset == end + 4
                          && StoredAt(Data(), offset, WholeVector(RelativeTo(end, offsets)))
      ensures o.Pass? ==> (offset, 4) in scalars && ElementsAligned(scalars, end, 4, 0, |offsets|)
      ensures OnlyFull(o)
    {
      hide Valid, Shape, Data, Consistent, IsPow2, IsSuffix, VectorBytes, StoredAt, WholeVector, Uniform, Multiple,
           RelativeTo;
      ghost var start := Data();
      offset := 0;
      o := AddOffsets(offsets, end);
      if o.Pass? {
        ghost var last := Data();
        offset := CloseVector(RelativeTo(end, offsets), start);
        SuffixTransitive(start, last, Data());
      }
    }

    /** A generated `create…Vector` for offsets of objects, strings or other vectors. */
    method CreateOffsetVector(offsets: seq<nat>) returns (o: Outcome, offset: nat)
      requires Valid()
      modifies this`bytes, this`space, this`position, this`minalign, this`vectorNumElems, this`scalars, bytes
      ensures Valid() && (bytes == old(bytes) || fresh(bytes)) && IsSuffix(old(Data()), Data())
              && old(scalars) <= scalars
      ensures o.Pass? ==> offset == |Data()| && 4 + 4 * |offsets| <= offset
                          && StoredAt(Data(), offset, WholeVector(RelativeTo(offset - 4, offsets)))
      ensures old(isNested) ==> o == Fail(MustNotBeNested)
      ensures o.Pass? ==> (offset, 4) in scalars && ElementsAligned(scalars, offset - 4, 4, 0, |offsets|)
      ensures !old(isNested) ==> OnlyFull(o)
      ensures o.Pass? ==> VectorStands(Data(), 0, 4, RelativeTo(offset - 4, offsets))
    {
      hide Valid, Shape, Data, Consistent, IsPow2, IsSuffix, StoredAt, WholeVector, VectorStands, ReadyFor, RelativeTo,
           Uniform,
           Multiple, ElementBytes;
      ghost var before := Data();
      offset := 0;
      Powers();
      o := StartVector(4, |offsets|, 4);
      if o.Pass? {
        ghost var start := Data();
        ghost var end := ReadyParts(start, before, 4, |offsets|);
        o, offset := FillOffsetVector(offsets, end);
        SuffixTransitive(before, start, Data());
        if o.Pass? {
          StoredVectorStands(Data(), offset, 4, RelativeTo(end, offsets));
        }
        assert o.Pass? ==> offset - 4 == end;
      }
    }

    /** The copy loop of `createString`. */
    method Copy(utf8: seq<byte>)
      requires Shape() && |utf8| <= space
      modifies this`space, this`position, bytes
      ensures Shape() && space == old(space) - |utf8| && position == space && Data() == utf8 + old(Data())
    {
      hide IsPow2;
      ghost var before := Data();
      var p, n := space - |utf8|, |utf8|;
      space := p;
      position := space;
      for i := 0 to n
        invariant space == p && position == p && Shape()
        invariant bytes[p..p + i] == utf8[..i] && bytes[p + n..] == before
      {
        bytes[space + i] := utf8[i];
      }
      assert bytes[p..] == bytes[p..p + n] + bytes[p + n..];
    }

    /** `createString` for UTF-8 bytes: a byte vector with a zero byte behind it. */
    method CreateUtf8(utf8: seq<byte>) returns (o: Outcome, offset: nat)
      requires Valid()
      modifies this`bytes, this`space, this`position, this`minalign, this`vectorNumElems, this`scalars, bytes
      ensures Valid() && (bytes == old(bytes) || fresh(bytes)) && IsSuffix(old(Data()), Data())
      ensures o.Pass? ==> offset == |Data()| && StoredAt(Data(), offset, Int32Bytes(|utf8|) + utf8 + [0])
                          && (offset, 4) in scalars
      ensures old(isNested) ==> o.Fail?
      ensures old(scalars) <= scalars
      ensures OnlyFull(o) || (old(isNested) && o == Fail(MustNotBeNested))
      ensures o.Pass? ==> TextStands(Data(), 0, utf8)
    {
      hide LowByteFirst, Consistent, IsPow2, AlignSize, IsSuffix, Int32Bytes, Scalar.ToBytes, StoredAt, Zeros, ReadyFor,
           TextStands;
      ghost var before := Data();
      offset := 0;
      Powers();
      SuffixSelf(before);
      o := AddScalar(Int8(0));
      if o.Fail? {
        return;
      }
      ghost var terminated := Data();
      FrontStored(Int8(0).ToBytes(), Zeros(AlignSize(|before|, 1)), before);
      o := StartVector(1, |utf8|, 1);
      SuffixTransitive(before, terminated, Data());
      if o.Fail? {
        return;
      }
      ghost var start := Data();
      TextAligned(utf8, start, terminated, before);
      offset := WriteText(utf8);
      SuffixTransitive(before, start, Data());
      StoredTextStands(Data(), offset, utf8);
    }

    /** The text and its length word, once everything is aligned. */
    method WriteText(utf8: seq<byte>) returns (offset: nat)
      requires Valid() && 4 <= minalign && |utf8| + 4 <= space && vectorNumElems == |utf8|
      requires (|Data()| + |utf8|) % 4 == 0 && Data() != [] && Data()[0] == 0
      modifies this`space, this`position, this`scalars, bytes
      ensures Valid() && offset == |Data()| && StoredAt(Data(), offset, Int32Bytes(|utf8|) + utf8 + [0])
      ensures IsSuffix(old(Data()), Data()) && old(scalars) <= scalars
      ensures (offset, 4) in scalars
    {
      hide Consistent, IsPow2, IsSuffix, Int32Bytes, StoredAt;
      ghost var start, b := Data(), Ledger();
      ConsistentSurvives(utf8, start, b);
      Copy(utf8);
      offset := EndVector();
      TextStored(utf8, start);
    }

    method CreateString(s: seq<CodeUnit>) returns (o: Outcome, offset: nat)
      requires Valid()
      modifies this`bytes, this`space, this`position, this`minalign, this`vectorNumElems, this`scalars, bytes
      ensures Valid() && (bytes == old(bytes) || fresh(bytes)) && IsSuffix(old(Data()), Data())
      ensures o.Pass? ==> offset == |Data()| && StoredAt(Data(), offset, Int32Bytes(|Encode(s)|) + Encode(s) + [0])
                          && (offset, 4) in scalars
      ensures old(isNested) ==> o.Fail?
      ensures old(scalars) <= scalars
      ensures OnlyFull(o) || (old(isNested) && o == Fail(MustNotBeNested))
      ensures o.Pass? ==> TextStands(Data(), 0, Encode(s))
    {
      hide *;
      var utf8 := EncodeUnits(s);
      o, offset := CreateUtf8(utf8);
    }

    /** `asUint8Array`; a subarray's ends are clamped to the array. */
    function AsBytes(): seq<byte>
      requires Shape()
      reads this, bytes
    {
      var from := if position <= bytes.Length then position else bytes.Length;
      var to := if position + Offset() <= bytes.Length then position + Offset() else bytes.Length;
      bytes[from..to]
    }

    /** The file identifier, last character first. */
    method WriteIdentifier(identifier: seq<CodeUnit>)
      requires Valid() && |identifier| == 4 && 4 <= space
      modifies this`space, bytes
      ensures Valid() && space == old(space) - 4 && Data() == IdentifierBytes(identifier) + old(Data())
              && IsSuffix(old(Data()), Data())
    {
      hide Consistent, IsPow2;
      ghost var before, b := Data(), Ledger();
      var i := 4;
      IdentifierStart(identifier, before);
      while i > 0
        invariant 0 <= i <= 4 && Shape() && Data() == IdentifierBytes(identifier)[i..] + before
                  && space == old(space) - (4 - i)
      {
        i := i - 1;
        IdentifierStep(identifier, i, before);
        Write(Int8(identifier[i]));
      }
      assert IdentifierBytes(identifier)[0..] == IdentifierBytes(identifier);
      ConsistentSurvives(IdentifierBytes(identifier), before, b);
    }

    /** The identifier, at a place that has been aligned for it and for what follows. */
    method PlaceBytes(identifier: seq<CodeUnit>, prefix: nat) returns (o: Outcome)
      requires Valid() && |identifier| == 4 <= space && Multiple(|Data()| + 8 + prefix, minalign)
      modifies this`bytes, this`space, this`position, this`minalign, bytes
      ensures Valid() && (bytes == old(bytes) || fresh(bytes)) && IsSuffix(old(Data()), Data())
      ensures o.Pass? ==> minalign == old(minalign) && Multiple(|Data()| + 4 + prefix, minalign)
                          && |Data()| == |old(Data())| + 4
      ensures o.Pass? ==> HoldsAt(Data(), 0, IdentifierBytes(identifier)) && old(space) <= space + 4
      ensures OnlyFull(o) && (o.Fail? ==> old(space) < old(minalign) + 8 + prefix)
    {
      hide Consistent, IsPow2, AlignSize, Zeros, IsSuffix, HoldsAt, IdentifierBytes, Multiple, Valid, Data;
      ghost var before := Data();
      IdentifierAligned(|before|, minalign, prefix);
      WriteIdentifier(identifier);
      ghost var placed := Data();
      o := Align(minalign, 4 + prefix);
      SuffixTransitive(before, placed, Data());
      if o.Pass? {
        IdentifierPlaced(identifier, before);
      }
    }

    /** The first part of `finish`: align the whole buffer and put the identifier where the root offset will precede it.
        An empty identifier counts as none. */
    method PlaceIdentifier(identifier: seq<CodeUnit>, prefix: nat) returns (o: Outcome)
      requires Valid() && prefix in {0, 4}
      modifies this`bytes, this`space, this`position, this`minalign, bytes
      ensures Valid() && (bytes == old(bytes) || fresh(bytes)) && IsSuffix(old(Data()), Data())
      ensures identifier != [] && |identifier| != 4 ==> o.Fail?
      ensures 0 < old(minalign)
      ensures o.Pass? ==> minalign == old(minalign) && Multiple(|Data()| + 4 + prefix, minalign)
      ensures o.Pass? && identifier != [] ==> |identifier| == 4 && HoldsAt(Data(), 0, IdentifierBytes(identifier))
                                              && |Data()| == IdentifierOffset(|old(Data())|, minalign, prefix)
      ensures OnlyFull(o) || (identifier != [] && |identifier| != 4 && o == Fail(BadIdentifierLength))
      ensures o == Fail(CannotGrow) ==> old(space) < 2 * old(minalign) + 8 + prefix
      ensures o.Pass? ==> old(space) <= space + old(minalign) + 4
    {
      hide Consistent, IsPow2, AlignSize, Zeros, IsSuffix, HoldsAt, IdentifierBytes, Multiple, Valid, Data;
      PositiveAlignment();
      PaddingBound(|Data()| + 8 + prefix, minalign);
      PaddingBound(|Data()| + 4 + prefix, minalign);
      if identifier == [] {
        o := Align(minalign, 4 + prefix);
        return;
      }
      ghost var before := Data();
      o := Align(minalign, 8 + prefix);
      if o.Fail? {
        return;
      }
      ghost var aligned := Data();
      if |identifier| != 4 {
        return Fail(BadIdentifierLength);
      }
      o := PlaceBytes(identifier, prefix);
      SuffixTransitive(before, aligned, Data());
    }

    /** The second part of `finish`: the root offset and the size prefix. */
    method PlaceRoot(rootTable: nat, sizePrefix: bool) returns (o: Outcome)
      requires Valid() && rootTable < MAX_SIZE && Multiple(|Data()| + RootEnd(sizePrefix), minalign)
      modifies this`bytes, this`space, this`position, this`minalign, this`scalars, bytes
      ensures Valid() && (bytes == old(bytes) || fresh(bytes)) && IsSuffix(old(Data()), Data())
              && old(scalars) <= scalars
      ensures o.Pass? ==> Multiple(|Data()|, minalign) && RootPlaced(Data(), rootTable, sizePrefix)
      ensures o.Pass? ==> |Data()| == |old(Data())| + AlignSize(|old(Data())|, 4) + RootEnd(sizePrefix)
                          && (|Data()|, 4) in scalars
      ensures o.Pass? ==> HoldsAt(Data(), RootEnd(sizePrefix), Zeros(AlignSize(|old(Data())|, 4)))
      ensures o.Pass? && 4 <= old(minalign) ==> AlignSize(|old(Data())|, 4) == 0
      ensures OnlyFull(o)
      ensures o.Fail? ==> old(space) < 12
    {
      hide LowByteFirst, Consistent, IsPow2, AlignSize, Zeros, IsSuffix, Int32Bytes, Scalar.ToBytes, RootPlaced,
           HoldsAt;
      ghost var before, m := Data(), minalign;
      ghost var prefix := if sizePrefix then 4 else 0;
      Pow2Positive(m);
      RootAlignment(|before|, m, prefix);
      SuffixSelf(before);
      PaddingBound(|before|, 4);
      o := AddOffset(rootTable);
      if o.Fail? {
        return;
      }
      ghost var rooted := Data();
      SuffixOfThree(Int32Bytes(|rooted| - rootTable), Zeros(AlignSize(|before|, 4)), before);
      RootWritten(before, rooted, rootTable);
      FinalAlignment(|before|, |rooted|, m, minalign, prefix);
      if sizePrefix {
        o := PlaceSize(rootTable, Zeros(AlignSize(|before|, 4)));
        SuffixTransitive(before, rooted, Data());
      }
    }

    method PlaceSize(ghost rootTable: nat, ghost gap: seq<byte>) returns (o: Outcome)
      requires Valid() && rootTable < MAX_SIZE && |Data()| % 4 == 0 && 4 <= minalign
               && RootPlaced(Data(), rootTable, false) && HoldsAt(Data(), 4, gap)
      modifies this`bytes, this`space, this`position, this`minalign, this`scalars, bytes
      ensures Valid() && (bytes == old(bytes) || fresh(bytes)) && IsSuffix(old(Data()), Data())
              && old(scalars) <= scalars
      ensures o.Pass? ==> |Data()| == |old(Data())| + 4 && minalign == old(minalign)
                          && RootPlaced(Data(), rootTable, true)
                          && HoldsAt(Data(), 8, gap) && (|Data()|, 4) in scalars
      ensures OnlyFull(o)
      ensures o.Fail? ==> old(space) < 4
    {
      hide LowByteFirst, Consistent, IsPow2, AlignSize, Zeros, IsSuffix, Int32Bytes, Scalar.ToBytes, RootPlaced,
           StoredAt, HoldsAt;
      ghost var before := Data();
      SuffixSelf(before);
      Int32ToBytes(Offset());
      Powers();
      AlignSizeAligns(|before|, 4);
      o := AddScalar(Int32(Offset()));
      if o.Pass? {
        NoPadding(Int32Bytes(|before|), before);
        FrontStored(Int32Bytes(|before|), [], before);
        SizeWritten(before, rootTable, gap);
      }
    }

    /** `setPosition(space)`: the data starts here. */
    method MarkStart()
      requires Valid() && Multiple(|Data()|, minalign)
      modifies this`position
      ensures Valid() && Data() == old(Data()) && AsBytes() == Data()
      ensures ScalarsAligned(|Data()|, scalars)
    {
      hide Consistent, IsPow2;
      position := space;
      AllAligned(Data(), Ledger());
    }

    /** Finish the buffer: identifier, root offset and size prefix, with the whole buffer aligned to its largest
        element. */
    method Finish(rootTable: nat, identifier: seq<CodeUnit>, sizePrefix: bool) returns (o: Outcome)
      requires Valid() && rootTable < MAX_SIZE
      modifies this`bytes, this`space, this`position, this`minalign, this`scalars, bytes
      ensures Valid() && (bytes == old(bytes) || fresh(bytes)) && IsSuffix(old(Data()), Data())
              && old(scalars) <= scalars
      ensures identifier != [] && |identifier| != 4 ==> o.Fail?
      ensures o.Pass? ==> AsBytes() == Data() && RootPlaced(Data(), rootTable, sizePrefix)
                          && ScalarsAligned(|Data()|, scalars)
      ensures o.Pass? ==> (|Data()|, 4) in scalars
      ensures 0 < old(minalign) && (WordWritten(old(scalars)) ==> 4 <= old(minalign))
      ensures o.Pass? && identifier != []
              ==> IdentifierStands(Data(), |old(Data())|, old(minalign), sizePrefix, identifier)
      ensures OnlyFull(o) || (identifier != [] && |identifier| != 4 && o == Fail(BadIdentifierLength))
      ensures o == Fail(CannotGrow) ==> old(space) < 2 * old(minalign) + 16
      ensures o.Pass? ==> RootStands(Data(), rootTable, sizePrefix)
    {
      hide *;
      ghost var before := Data();
      RecordedWord();
      o := PlaceIdentifier(identifier, RootEnd(sizePrefix) - 4);
      if o.Fail? {
        return;
      }
      ghost var placed := Data();
      o := PlaceRoot(rootTable, sizePrefix);
      SuffixTransitive(before, placed, Data());
      if o.Fail? {
        return;
      }
      MarkStart();
      RootBytes(Data(), rootTable, sizePrefix);
      if identifier != [] {
        IdentifierFound(placed, Data(), |before|, old(minalign), sizePrefix, identifier);
      }
    }

    lemma PositiveAlignment()
      requires Shape()
      ensures 0 < minalign
    {
      Pow2Positive(minalign);
    }

    lemma RecordedWord()
      requires Valid()
      ensures WordWritten(scalars) ==> 4 <= minalign
    {
      if WordWritten(scalars) {
        WordRaisesAlignment(Data(), Ledger());
      }
    }

    /** Overwrite the offset word of the table at `loc`. */
    method Patch(loc: nat, v: int)
      requires Shape() && 4 <= loc <= |Data()|
      modifies bytes
      ensures Shape() && Data() == old(Data())[..|old(Data())| - loc] + Int32Bytes(v)
              + old(Data())[|old(Data())| - loc + 4..]
    {
      hide IsPow2, Scalar.ToBytes;
      var p := bytes.Length - loc;
      ghost var before := bytes[..];
      Int32ToBytes(v);
      WriteAt(p, Int32(v));
      assert bytes[..] == before[..p] + Int32Bytes(v) + before[p + 4..];
      assert before[space..p] == before[space..][..p - space] && before[p + 4..] == before[space..][p + 4 - space..];
      assert bytes[space..] == bytes[..][space..];
    }

    /** `addInt16` at an even offset, where it needs no padding. */
    method AddShort(v: int) returns (o: Outcome)
      requires Valid() && |Data()| % 2 == 0
      modifies this`bytes, this`space, this`position, this`minalign, this`scalars, bytes
      ensures Valid() && (bytes == old(bytes) || fresh(bytes)) && old(scalars) <= scalars
      ensures Data() == if o.Pass? then Int16Bytes(v) + old(Data()) else old(Data())
      ensures OnlyFull(o)
      ensures o.Pass? ==> (|Data()|, 2) in scalars
    {
      hide LowByteFirst, Consistent, AlignSize;
      ghost var before := Data();
      ScalarSize(Int16(v));
      AlignSizeAligns(|before|, 2);
      o := AddScalar(Int16(v));
      assert Zeros(0) == [];
      assert o.Pass? ==> Data() == Int16Bytes(v) + [] + before == Int16Bytes(v) + before;
    }
  }
}

/** What a reader gets back from a finished buffer, and runs of arbitrary builder calls. */
module FlatRuns {
  import opened Bytes
  import opened FlatBytes
  import opened FlatTables
  import opened FlatVectors
  import opened Utf8
  import opened FlatLayout
  import opened FlatBuilder

  /** A generated field accessor: the default when `__offset` answers 0, else the value at that offset. */
  function ReadField(d: seq<byte>, pos: int, slot: nat, default: Scalar): Scalar {
    var offset := FieldOffset(d, pos, 4 + 2 * slot);
    if offset != 0 then ReadLike(d, pos + offset, default) else default
  }

  predicate SameKind(v: Scalar, w: Scalar) {
    (v.Int8? && w.Int8?) || (v.Int16? && w.Int16?) || (v.Int32? && w.Int32?) || (v.Int64? && w.Int64?)
  }

  /** Field round trip: whether the value was stored or elided as the default, the accessor returns it. */
  lemma FieldRoundTrip(d: seq<byte>, t: Table, slot: nat, v: Scalar, default: Scalar)
    requires TableReads(d, t) && v.InRange() && SameKind(v, default)
    requires slot < |t.slots| && (t.slots[slot].Set? ==> t.slots[slot].bytes == v.ToBytes())
    requires v != default ==> t.slots[slot].Set?
    ensures ReadField(d, |d| - t.loc, slot, default) == v
  {
    hide ReadInt32, ReadInt16, ReadLike, Scalar.ToBytes, Scalar.InRange, FieldOffset;
    assert FieldOffset(d, |d| - t.loc, 4 + 2 * slot) == t.Answer(slot);
    if t.slots[slot].Set? {
      var p := |d| - t.slots[slot].offset;
      assert StoredAt(d, t.slots[slot].offset, v.ToBytes());
      ReadsScalar(d, p, v);
      LikeKind(d, p, v, default);
      assert |d| - t.loc + t.Answer(slot) == p;
    }
  }

  lemma LikeKind(d: seq<byte>, p: int, v: Scalar, w: Scalar)
    requires SameKind(v, w)
    ensures ReadLike(d, p, v) == ReadLike(d, p, w)
  {
  }

  /** An offset field of a table leads to the object it was given, wherever the table is read. */
  lemma OffsetFieldResolves(d: seq<byte>, t: Table, slot: nat, target: nat)
    requires TableReads(d, t) && slot < |t.slots| && t.slots[slot].Set? && target < MAX_SIZE && |d| < MAX_SIZE
    requires t.slots[slot].bytes == Int32Bytes(t.slots[slot].offset - target)
    ensures var offset := FieldOffset(d, |d| - t.loc, 4 + 2 * slot);
            offset != 0 && Indirect(d, |d| - t.loc + offset) == |d| - target
  {
    hide ReadInt32, ReadInt16, FieldOffset, Int32Bytes;
    assert FieldOffset(d, |d| - t.loc, 4 + 2 * slot) == t.Answer(slot);
    assert StoredAt(d, t.slots[slot].offset, t.slots[slot].bytes);
    ReadsInt32(d, |d| - t.slots[slot].offset, t.slots[slot].offset - target);
  }

  /** A stored string is read back through any offset word that leads to it, exactly when its surrogates are paired. */
  lemma StringReads(d: seq<byte>, p: int, offset: nat, s: seq<CodeUnit>)
    requires |d| < MAX_SIZE && StoredAt(d, offset, Int32Bytes(|Encode(s)|) + Encode(s) + [0])
             && Indirect(d, p) == |d| - offset
    ensures var start := p + ReadInt32(d, p);
            Decode(d, start + 4, start + 4 + ReadInt32(d, start)) == s <==> Paired(s)
  {
    hide ReadInt32, Encode, Decode, Int32Bytes, Paired, HoldsAt;
    var length, bs := Int32Bytes(|Encode(s)|), Encode(s);
    assert length + bs + [0] == length + (bs + [0]);
    SplitBytes(d, |d| - offset, length, bs + [0]);
    SplitBytes(d, |d| - offset + 4, bs, [0]);
    HeldInside(d, |d| - offset + 4, bs);
    ReadsInt32(d, |d| - offset, |bs|);
    StringRoundTrip(d, |d| - offset + 4, s);
  }

  /** One call of the builder's interface. */
  datatype Call =
    | AddScalar(v: Scalar)
    | AddOffset(offset: nat)
    | StartObject(numFields: nat)
    | AddField(slot: nat, v: Scalar, default: Scalar)
    | AddFieldOffset(slot: nat, offset: nat, none: nat)
    | EndObject
    | CreateString(s: seq<CodeUnit>)
    | CreateUtf8(utf8: seq<byte>)
    | CreateScalarVector(size: nat, data: seq<Scalar>)
    | CreateOffsetVector(offsets: seq<nat>)
    | StartVector(elemSize: nat, numElems: nat, alignment: nat)
    | EndVector
    | Finish(rootTable: nat, identifier: seq<CodeUnit>, sizePrefix: bool)
    | ForceDefaults(force: bool)

  /** Whether a vector is being filled: the size of its elements, how many of those announced are still missing, and
      how many were announced. */
  datatype Phase = NoVector | InVector(size: nat, left: nat, count: nat)

  /** What a caller owes: fields go into slots of the open object, and vectors hold elements of one size. Between
      `startVector` and `endVector` come elements of the vector, no more than announced. */
  predicate Allowed(call: Call, phase: Phase, isNested: bool, slots: nat) {
    if phase.InVector? then
      match call
      case AddScalar(v) => v.Size() == phase.size && 0 < phase.left
      case AddOffset(_) => 4 == phase.size && 0 < phase.left
      case EndVector => true
      case _ => false
    else
      match call
      case AddField(slot, _, _) => isNested && slot < slots
      case AddFieldOffset(slot, _, _) => isNested && slot < slots
      case CreateScalarVector(size, data) => size in {1, 2, 4, 8} && Uniform(data, size)
      case StartVector(size, _, alignment) => size in {1, 2, 4, 8} && IsPow2(alignment) && size <= alignment <= MAX_SIZE
      case EndVector => false
      case Finish(rootTable, _, _) => rootTable < MAX_SIZE
      case _ => true
  }

  function Next(call: Call, phase: Phase): Phase {
    if call.StartVector? then InVector(call.elemSize, call.numElems, call.numElems)
    else if call.EndVector? || phase.NoVector? || phase.left == 0 then NoVector
    else phase.(left := phase.left - 1)
  }

  /** In a vector there is room for the missing elements and the length word, the next element needs no padding, and the
      length word will be aligned once all elements are there. */
  ghost predicate Room(b: Builder, phase: Phase)
    requires b.Shape()
    reads b, b.bytes
  {
    phase.InVector? ==>
      && phase.size in {1, 2, 4, 8} && Multiple(|b.Data()|, phase.size) && b.vectorNumElems == phase.count
      && Multiple(|b.Data()| + ElementBytes(phase.size, phase.left), 4)
      && ElementBytes(phase.size, phase.left) + 4 <= b.space && 4 <= b.minalign
  }

  /** A builder between two calls: its data, its ledger, the two settings that calls depend on, and the phase. */
  datatype Snapshot = Snapshot(data: seq<byte>, book: Book, force: bool, full: bool, phase: Phase)

  ghost function Take(b: Builder, phase: Phase): (s: Snapshot)
    requires b.Shape()
    reads b, b.bytes
    ensures |s.data| < MAX_SIZE
  {
    Snapshot(b.Data(), b.Ledger(), b.forceDefaults, 0x4000_0000 <= b.bytes.Length, phase)
  }

  /** What no call undoes. */
  ghost predicate Grows(was: Snapshot, now: Snapshot) {
    IsSuffix(was.data, now.data) && was.book.scalars <= now.book.scalars && was.book.tables <= now.book.tables
  }

  /** Neither the open object nor the finished ones are touched. */
  ghost predicate SameObjects(was: Snapshot, now: Snapshot) {
    && now.book.isNested == was.book.isNested && now.book.objectStart == was.book.objectStart
    && now.book.vtable == was.book.vtable
    && now.book.inUse == was.book.inUse && now.book.slots == was.book.slots && now.book.vtables == was.book.vtables
    && now.book.tables == was.book.tables && now.force == was.force
  }

  /** `bs` has been put in front as an aligned scalar. */
  ghost predicate Fronted(was: Snapshot, now: Snapshot, bs: seq<byte>, size: nat) {
    && 0 < size && now.book.scalars == was.book.scalars + {(|now.data|, size)}
    && now.data == bs + Zeros(AlignSize(|was.data|, size)) + was.data
  }

  /** The same without padding, as between the elements of a vector. */
  ghost predicate Joined(was: Snapshot, now: Snapshot, bs: seq<byte>, size: nat) {
    now.book.scalars == was.book.scalars + {(|now.data|, size)} && now.data == bs + was.data
  }

  ghost predicate ValueAdded(was: Snapshot, now: Snapshot, bs: seq<byte>, size: nat) {
    SameObjects(was, now) && if was.phase.InVector? then Joined(was, now, bs, size) else Fronted(was, now, bs, size)
  }

  ghost predicate ObjectStarted(was: Snapshot, now: Snapshot, numFields: nat) {
    && !was.book.isNested && now.data == was.data && now.book.scalars == was.book.scalars
    && now.book.vtables == was.book.vtables && now.book.tables == was.book.tables && now.force == was.force
    && now.book.isNested && now.book.objectStart == |was.data| && now.book.slots == seq(numFields, _ => Unset)
    && now.book.inUse == numFields
  }

  /** A value equal to its default is elided unless defaults are forced; a stored one is in front, and its slot says
      so. */
  ghost predicate FieldAdded(was: Snapshot, now: Snapshot, slot: nat, stored: bool, bs: seq<byte>, size: nat) {
    && slot < |was.book.slots| && was.book.isNested && now.book.isNested && now.book.inUse == was.book.inUse
    && now.book.objectStart == was.book.objectStart
    && now.book.vtables == was.book.vtables && now.book.tables == was.book.tables && now.force == was.force
    && if stored then Fronted(was, now, bs, size) && now.book.slots == was.book.slots[slot := Set(|now.data|, bs)]
       else now.data == was.data && now.book.scalars == was.book.scalars && now.book.slots == was.book.slots
  }

  /** The open object has become a table at `loc`. It reads back, from here on, exactly when its vtable fits. */
  ghost predicate ClosedAt(was: Snapshot, now: Snapshot, loc: nat) {
    && was.book.isNested && !now.book.isNested && now.force == was.force && |was.data| < loc <= |now.data|
    && was.book.inUse <= |was.book.vtable| && (loc, 4) in now.book.scalars
    && now.book.tables == ClosedTables(was.book, loc) && TableClosed(now.data, was.book, loc)
    && var vt := OpenVtable(was.book, loc);
       now.book.vtables == if KnownVtable(was.data, was.book.vtables, vt) then was.book.vtables
           else was.book.vtables + [|now.data|]
  }

  ghost predicate ObjectEnded(was: Snapshot, now: Snapshot) {
    exists loc :: ClosedAt(was, now, loc)
  }

  ghost predicate TextCreated(was: Snapshot, now: Snapshot, utf8: seq<byte>) {
    && SameObjects(was, now) && !was.book.isNested && StoredAt(now.data, |now.data|, Int32Bytes(|utf8|) + utf8 + [0])
    && (|now.data|, 4) in now.book.scalars && TextStands(now.data, 0, utf8)
  }

  ghost predicate VectorCreated(was: Snapshot, now: Snapshot, size: nat, data: seq<Scalar>) {
    && SameObjects(was, now) && !was.book.isNested && 4 <= |now.data|
    && StoredAt(now.data, |now.data|, WholeVector(data)) && VectorStands(now.data, 0, size, data)
    && (|now.data|, 4) in now.book.scalars && ElementsAligned(now.book.scalars, |now.data| - 4, size, 0, |data|)
  }

  ghost predicate OffsetsCreated(was: Snapshot, now: Snapshot, offsets: seq<nat>) {
    4 <= |now.data| && VectorCreated(was, now, 4, RelativeTo(|now.data| - 4, offsets))
  }

  ghost predicate VectorStarted(was: Snapshot, now: Snapshot, total: nat, alignment: nat) {
    && SameObjects(was, now) && !was.book.isNested && now.book.scalars == was.book.scalars
    && ReadyFor(now.data, was.data, total, alignment)
  }

  /** The length word is among the aligned scalars when all announced elements are there. */
  ghost predicate VectorEnded(was: Snapshot, now: Snapshot) {
    && SameObjects(was, now) && was.phase.InVector? && now.data == Int32Bytes(was.phase.count) + was.data
    && (was.phase.left == 0 ==> (|now.data|, 4) in now.book.scalars)
  }

  ghost predicate Finished(was: Snapshot, now: Snapshot, rootTable: nat, identifier: seq<CodeUnit>, sizePrefix: bool) {
    && SameObjects(was, now) && ScalarsAligned(|now.data|, now.book.scalars)
    && RootPlaced(now.data, rootTable, sizePrefix) && RootStands(now.data, rootTable, sizePrefix)
    && (|now.data|, 4) in now.book.scalars && 0 < was.book.minalign
    && (WordWritten(was.book.scalars) ==> 4 <= was.book.minalign)
    && (identifier != [] ==> IdentifierStands(now.data, |was.data|, was.book.minalign, sizePrefix, identifier))
  }

  ghost predicate Forced(was: Snapshot, now: Snapshot, force: bool) {
    now.data == was.data && now.book == was.book && now.force == force
  }

  /** What a call that succeeds has done. */
  ghost predicate Effect(call: Call, was: Snapshot, now: Snapshot) {
    match call
    case AddScalar(v) => ValueAdded(was, now, v.ToBytes(), v.Size())
    case AddOffset(offset) => ValueAdded(was, now, Int32Bytes(|now.data| - offset), 4)
    case StartObject(numFields) => ObjectStarted(was, now, numFields)
    case AddField(slot, v, default) => FieldAdded(was, now, slot, was.force || v != default, v.ToBytes(), v.Size())
    case AddFieldOffset(slot, offset, none) =>
      FieldAdded(was, now, slot, was.force || offset != none, Int32Bytes(|now.data| - offset), 4)
    case EndObject => ObjectEnded(was, now)
    case CreateString(s) => TextCreated(was, now, Encode(s))
    case CreateUtf8(utf8) => TextCreated(was, now, utf8)
    case CreateScalarVector(size, data) => VectorCreated(was, now, size, data)
    case CreateOffsetVector(offsets) => OffsetsCreated(was, now, offsets)
    case StartVector(size, n, alignment) => VectorStarted(was, now, ElementBytes(size, n), alignment)
    case EndVector => VectorEnded(was, now)
    case Finish(rootTable, identifier, sizePrefix) => Finished(was, now, rootTable, identifier, sizePrefix)
    case ForceDefaults(force) => Forced(was, now, force)
  }

  /** Why a call fails. */
  predicate Blamed(call: Call, was: Snapshot, now: Snapshot, error: Error) {
    match error
    case CannotGrow => now.full
    case MustNotBeNested => was.book.isNested && !call.EndObject?
    case ObjectNotStarted => !was.book.isNested && call.EndObject?
    case BadIdentifierLength => call.Finish? && call.identifier != [] && |call.identifier| != 4
  }

  /** The outcome of one call. */
  ghost predicate Performed(call: Call, was: Snapshot, now: Snapshot, o: Outcome) {
    Grows(was, now) && if o.Pass? then Effect(call, was, now) else Blamed(call, was, now, o.error)
  }

  /** Everything a builder has promised so far. */
  ghost predicate Kept(d: seq<byte>, tables: seq<Table>, before: seq<byte>, tablesBefore: seq<Table>) {
    IsSuffix(before, d) && tablesBefore <= tables && forall t :: t in tables ==> TableReads(d, t)
  }

  method AddValue(b: Builder, call: Call) returns (o: Outcome)
    requires b.Valid() && (call.AddScalar? || call.AddOffset?)
    modifies b, b.bytes
    ensures b.Valid() && (b.bytes == old(b.bytes) || fresh(b.bytes))
    ensures Performed(call, old(Take(b, NoVector)), Take(b, NoVector), o)
  {
    hide LowByteFirst, Consistent, IsPow2, IsSuffix, AlignSize, Zeros, Scalar.ToBytes, Scalar.Size, Int32Bytes,
         Builder.Valid,
         Builder.Shape, Builder.Data;
    SuffixSelf(b.Data());
    ghost var before := b.Data();
    match call {
      case AddScalar(v) =>
        o := b.AddScalar(v);
        ScalarSize(v);
        SuffixOfThree(v.ToBytes(), Zeros(AlignSize(|before|, v.Size())), before);
      case AddOffset(offset) =>
        o := b.AddOffset(offset);
        SuffixOfThree(Int32Bytes(|b.Data()| - offset), Zeros(AlignSize(|before|, 4)), before);
    }
  }

  method CreateText(b: Builder, call: Call) returns (o: Outcome)
    requires b.Valid() && (call.CreateString? || call.CreateUtf8?)
    modifies b, b.bytes
    ensures b.Valid() && (b.bytes == old(b.bytes) || fresh(b.bytes))
    ensures Performed(call, old(Take(b, NoVector)), Take(b, NoVector), o)
  {
    hide Consistent, IsPow2, IsSuffix, StoredAt, TextStands, Encode, Int32Bytes, Builder.Valid, Builder.Shape,
         Builder.Data;
    var offset;
    match call {
      case CreateString(s) => o, offset := b.CreateString(s);
      case CreateUtf8(utf8) => o, offset := b.CreateUtf8(utf8);
    }
  }

  method CreateVector(b: Builder, call: Call) returns (o: Outcome)
    requires b.Valid() && (call.CreateScalarVector? || call.CreateOffsetVector?)
             && Allowed(call, NoVector, b.isNested, b.vtableInUse)
    modifies b, b.bytes
    ensures b.Valid() && (b.bytes == old(b.bytes) || fresh(b.bytes))
    ensures Performed(call, old(Take(b, NoVector)), Take(b, NoVector), o)
  {
    hide Consistent, IsPow2, IsSuffix, StoredAt, WholeVector, VectorStands, RelativeTo, ElementsAligned, Uniform,
         Builder.Valid,
         Builder.Shape, Builder.Data;
    var offset;
    match call {
      case CreateScalarVector(size, data) => o, offset := b.CreateScalarVector(size, data);
      case CreateOffsetVector(offsets) => o, offset := b.CreateOffsetVector(offsets);
    }
  }

  method AddToSlot(b: Builder, call: Call) returns (o: Outcome)
    requires b.Valid() && (call.AddField? || call.AddFieldOffset?) && Allowed(call, NoVector, b.isNested, b.vtableInUse)
    modifies b, b.bytes
    ensures b.Valid() && (b.bytes == old(b.bytes) || fresh(b.bytes))
    ensures Performed(call, old(Take(b, NoVector)), Take(b, NoVector), o)
  {
    hide LowByteFirst, Consistent, IsPow2, IsSuffix, AlignSize, Zeros, Scalar.ToBytes, Scalar.Size, Int32Bytes,
         Builder.Valid,
         Builder.Shape, Builder.Data;
    SlotCount(b);
    match call {
      case AddField(slot, v, default) =>
        ScalarSize(v);
        o := b.AddField(slot, v, default);
      case AddFieldOffset(slot, offset, none) =>
        o := b.AddFieldOffset(slot, offset, none);
    }
  }

  lemma SlotCount(b: Builder)
    requires b.Valid() && b.isNested
    ensures |b.slots| == b.vtableInUse
  {
  }

  method StartOrEnd(b: Builder, call: Call) returns (o: Outcome)
    requires b.Valid() && (call.StartObject? || call.EndObject?)
    modifies b, b.bytes
    ensures b.Valid() && (b.bytes == old(b.bytes) || fresh(b.bytes))
    ensures Performed(call, old(Take(b, NoVector)), Take(b, NoVector), o)
  {
    hide Consistent, IsPow2, IsSuffix, OpenVtable, KnownVtable, TableClosed, Trimmed, TableFits, Builder.Valid,
         Builder.Shape, Builder.Data;
    SuffixSelf(b.Data());
    match call {
      case StartObject(numFields) =>
        o := b.StartObject(numFields);
      case EndObject =>
        ghost var was := Take(b, NoVector);
        var loc;
        o, loc := b.EndObject();
        if o.Pass? {
          assert ClosedAt(was, Take(b, NoVector), loc);
        }
    }
  }

  method FinishOrForce(b: Builder, call: Call) returns (o: Outcome)
    requires b.Valid() && (call.Finish? || call.ForceDefaults?) && Allowed(call, NoVector, b.isNested, b.vtableInUse)
    modifies b, b.bytes
    ensures b.Valid() && (b.bytes == old(b.bytes) || fresh(b.bytes))
    ensures Performed(call, old(Take(b, NoVector)), Take(b, NoVector), o)
  {
    hide Consistent, IsPow2, IsSuffix, RootPlaced, RootStands, IdentifierStands, ScalarsAligned, WordWritten,
         Builder.Valid,
         Builder.Shape, Builder.Data,
         Builder.AsBytes;
    SuffixSelf(b.Data());
    o := Pass;
    match call {
      case Finish(rootTable, identifier, sizePrefix) =>
        o := b.Finish(rootTable, identifier, sizePrefix);
      case ForceDefaults(force) =>
        b.SetForceDefaults(force);
    }
  }

  lemma VectorRoom(d: seq<byte>, before: seq<byte>, size: nat, n: nat, alignment: nat)
    requires size in {1, 2, 4, 8} && IsPow2(alignment) && size <= alignment
             && ReadyFor(d, before, ElementBytes(size, n), alignment)
    ensures Multiple(|d|, size) && Multiple(|d| + ElementBytes(size, n), 4)
  {
    hide IsPow2;
    Powers();
    AlignedToLess(|d| + ElementBytes(size, n), alignment, size);
    SizeMultiple(size, n);
    AddMod(|d| + size * n, size * n, size);
  }

  method OpenVector(b: Builder, call: Call) returns (o: Outcome)
    requires b.Valid() && call.StartVector? && Allowed(call, NoVector, b.isNested, b.vtableInUse)
    modifies b, b.bytes
    ensures b.Valid() && (b.bytes == old(b.bytes) || fresh(b.bytes)) && (o.Pass? ==> Room(b, Next(call, NoVector)))
    ensures Performed(call, old(Take(b, NoVector)), Take(b, if o.Pass? then Next(call, NoVector) else NoVector), o)
  {
    hide Consistent, IsPow2, IsSuffix, ReadyFor, ElementBytes, Multiple, Builder.Valid, Builder.Shape, Builder.Data;
    ghost var before := b.Data();
    o := b.StartVector(call.elemSize, call.numElems, call.alignment);
    if o.Pass? {
      VectorRoom(b.Data(), before, call.elemSize, call.numElems, call.alignment);
    }
  }

  lemma ElementRoom(was: nat, size: nat, left: nat)
    requires size in {1, 2, 4, 8} && 0 < left && Multiple(was, size) && Multiple(was + ElementBytes(size, left), 4)
    ensures Multiple(was + size, size) && Multiple(was + size + ElementBytes(size, left - 1), 4)
    ensures ElementBytes(size, left) == ElementBytes(size, left - 1) + size
  {
    hide ElementBytes;
    OneMore(size, left - 1);
    assert size % size == 0;
    AddMod(was, size, size);
    assert was + size + ElementBytes(size, left - 1) == was + ElementBytes(size, left);
  }

  /** One scalar of the open vector. */
  method AddElement(b: Builder, v: Scalar, ghost phase: Phase) returns (o: Outcome)
    requires b.Valid() && phase.InVector? && Room(b, phase)
             && Allowed(Call.AddScalar(v), phase, b.isNested, b.vtableInUse)
    modifies b, b.bytes
    ensures b.Valid() && (b.bytes == old(b.bytes) || fresh(b.bytes))
            && (o.Pass? ==> Room(b, Next(Call.AddScalar(v), phase)))
    ensures Performed(Call.AddScalar(v), old(Take(b, phase)),
            Take(b, if o.Pass? then Next(Call.AddScalar(v), phase) else NoVector), o)
  {
    hide LowByteFirst, Consistent, IsPow2, IsSuffix, ElementBytes, Scalar.ToBytes, Builder.Valid, Builder.Shape,
         Builder.Data;
    ElementRoom(|b.Data()|, phase.size, phase.left);
    o := b.AddNext(v);
  }

  /** One offset of the open vector. */
  method AddElementOffset(b: Builder, offset: nat, ghost phase: Phase) returns (o: Outcome)
    requires b.Valid() && phase.InVector? && Room(b, phase)
             && Allowed(Call.AddOffset(offset), phase, b.isNested, b.vtableInUse)
    modifies b, b.bytes
    ensures b.Valid() && (b.bytes == old(b.bytes) || fresh(b.bytes))
            && (o.Pass? ==> Room(b, Next(Call.AddOffset(offset), phase)))
    ensures Performed(Call.AddOffset(offset), old(Take(b, phase)),
            Take(b, if o.Pass? then Next(Call.AddOffset(offset), phase) else NoVector), o)
  {
    hide LowByteFirst, Consistent, IsPow2, IsSuffix, ElementBytes, Int32Bytes, Builder.Valid, Builder.Shape,
         Builder.Data;
    ElementRoom(|b.Data()|, phase.size, phase.left);
    o := b.AddNextOffset(offset);
  }

  /** The length word. */
  method CloseVector(b: Builder, ghost phase: Phase)
    requires b.Valid() && phase.InVector? && Room(b, phase)
    modifies b, b.bytes
    ensures b.Valid() && b.bytes == old(b.bytes)
    ensures Performed(EndVector, old(Take(b, phase)), Take(b, NoVector), Pass)
  {
    hide LowByteFirst, Consistent, IsPow2, ElementBytes, Int32Bytes, Builder.Valid, Builder.Shape, Builder.Data;
    OneMore(phase.size, 0);
    var offset := b.EndVector();
  }

  method PerformInVector(b: Builder, call: Call, phase: Phase) returns (o: Outcome)
    requires b.Valid() && phase.InVector? && Room(b, phase) && Allowed(call, phase, b.isNested, b.vtableInUse)
    modifies b, b.bytes
    ensures b.Valid() && (b.bytes == old(b.bytes) || fresh(b.bytes)) && (o.Pass? ==> Room(b, Next(call, phase)))
    ensures Performed(call, old(Take(b, phase)), Take(b, if o.Pass? then Next(call, phase) else NoVector), o)
  {
    hide Performed, Room, Take, Builder.Valid, Builder.Shape, Builder.Data;
    if call.EndVector? {
      CloseVector(b, phase);
      o := Pass;
      NoRoomNeeded(b);
    } else if call.AddScalar? {
      o := AddElement(b, call.v, phase);
    } else {
      o := AddElementOffset(b, call.offset, phase);
    }
  }

  lemma NoRoomNeeded(b: Builder)
    requires b.Shape()
    ensures Room(b, NoVector)
  {
  }

  method PerformOutside(b: Builder, call: Call) returns (o: Outcome)
    requires b.Valid() && Allowed(call, NoVector, b.isNested, b.vtableInUse)
    modifies b, b.bytes
    ensures b.Valid() && (b.bytes == old(b.bytes) || fresh(b.bytes)) && (o.Pass? ==> Room(b, Next(call, NoVector)))
    ensures Performed(call, old(Take(b, NoVector)), Take(b, if o.Pass? then Next(call, NoVector) else NoVector), o)
  {
    hide Performed, Room, Take, Builder.Valid, Builder.Shape, Builder.Data, Uniform, IsPow2;
    if call.AddScalar? || call.AddOffset? {
      o := AddValue(b, call);
    } else if call.CreateString? || call.CreateUtf8? {
      o := CreateText(b, call);
    } else if call.CreateScalarVector? || call.CreateOffsetVector? {
      o := CreateVector(b, call);
    } else if call.AddField? || call.AddFieldOffset? {
      o := AddToSlot(b, call);
    } else if call.StartObject? || call.EndObject? {
      o := StartOrEnd(b, call);
    } else if call.StartVector? {
      o := OpenVector(b, call);
      return;
    } else {
      o := FinishOrForce(b, call);
    }
    NoRoomNeeded(b);
  }

  /** One allowed call. */
  method Perform(b: Builder, call: Call, phase: Phase) returns (o: Outcome)
    requires b.Valid() && Room(b, phase) && Allowed(call, phase, b.isNested, b.vtableInUse)
    modifies b, b.bytes
    ensures b.Valid() && (b.bytes == old(b.bytes) || fresh(b.bytes)) && (o.Pass? ==> Room(b, Next(call, phase)))
    ensures Performed(call, old(Take(b, phase)), Take(b, if o.Pass? then Next(call, phase) else NoVector), o)
  {
    hide Performed, Room, Take, Builder.Valid, Builder.Shape, Builder.Data, Allowed;
    if phase.InVector? {
      o := PerformInVector(b, call, phase);
    } else {
      o := PerformOutside(b, call);
    }
  }

  /** One call of a run, seen from the snapshots before and after it. */
  ghost predicate Step(call: Call, was: Snapshot, now: Snapshot) {
    && Allowed(call, was.phase, was.book.isNested, was.book.inUse) && now.phase == Next(call, was.phase)
    && Grows(was, now) && Effect(call, was, now) && |now.data| < MAX_SIZE
  }

  ghost predicate IsTrace(calls: seq<Call>, trace: seq<Snapshot>) {
    |trace| == |calls| + 1 && forall k :: 0 <= k < |calls| ==> Step(calls[k], trace[k], trace[k + 1])
  }

  /** Why a run ends: it is through, or its next call breaks the rules, or that call fails. */
  ghost predicate Ends(calls: seq<Call>, done: nat, last: Snapshot, now: Snapshot, o: Outcome)
    requires done <= |calls|
  {
    if o.Fail? then done < |calls| && Allowed(calls[done], last.phase, last.book.isNested, last.book.inUse)
                    && Performed(calls[done], last, now, o)
    else now == last && (done < |calls| ==> !Allowed(calls[done], last.phase, last.book.isNested, last.book.inUse))
  }

  /** A run: any calls in any order, up to the first one that fails or breaks the rules. The trace shows what each
      call did; every table finished before or during the run reads back, and every byte written before keeps its
      place from the end. */
  method Run(b: Builder, calls: seq<Call>, start: Phase)
    returns (done: nat, phase: Phase, o: Outcome, ghost trace: seq<Snapshot>)
    requires b.Valid() && Room(b, start)
    modifies b, b.bytes
    ensures b.Valid() && (b.bytes == old(b.bytes) || fresh(b.bytes)) && done <= |calls| && Room(b, phase)
    ensures IsTrace(calls[..done], trace) && trace[0] == old(Take(b, start))
            && Ends(calls, done, trace[done], Take(b, phase), o)
    ensures Kept(b.Data(), b.tables, old(b.Data()), old(b.tables))
  {
    hide Consistent, IsPow2, IsSuffix, TableReads, Builder.Shape, Builder.Data, Allowed, Room, Step, Effect, Blamed;
    done, phase, o := 0, start, Pass;
    trace := [Take(b, start)];
    SuffixSelf(b.Data());
    while done < |calls|
      invariant done <= |calls| && b.Valid() && (b.bytes == old(b.bytes) || fresh(b.bytes)) && Room(b, phase)
      invariant IsTrace(calls[..done], trace) && trace[0] == old(Take(b, start)) && trace[done] == Take(b, phase)
                && o.Pass?
      invariant IsSuffix(old(b.Data()), b.Data()) && old(b.tables) <= b.tables
    {
      var call := calls[done];
      if !Allowed(call, phase, b.isNested, b.vtableInUse) {
        break;
      }
      ghost var was := Take(b, phase);
      o := Perform(b, call, phase);
      SuffixTransitive(old(b.Data()), was.data, b.Data());
      if o.Fail? {
        phase := NoVector;
        NoRoomNeeded(b);
        break;
      }
      phase := Next(call, phase);
      TraceExtended(calls, done, trace, Take(b, phase));
      trace := trace + [Take(b, phase)];
      done := done + 1;
    }
    ConsistentTables(b.Data(), b.Ledger());
  }

  lemma TraceExtended(calls: seq<Call>, done: nat, trace: seq<Snapshot>, now: Snapshot)
    requires done < |calls| && IsTrace(calls[..done], trace)
    requires var was := trace[done];
             && Allowed(calls[done], was.phase, was.book.isNested, was.book.inUse)
             && now.phase == Next(calls[done], was.phase)
             && Performed(calls[done], was, now, Pass) && |now.data| < MAX_SIZE
    ensures IsTrace(calls[..done + 1], trace + [now])
  {
    hide Allowed, Grows, Effect;
  }

  lemma ConsistentTables(d: seq<byte>, b: Book)
    requires Consistent(d, b)
    ensures forall t :: t in b.tables ==> TableReads(d, t)
  {
  }
}

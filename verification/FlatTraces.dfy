/** What holds of whole runs of the builder, read off their traces. */
module FlatTraces {
  import opened Bytes
  import opened FlatBytes
  import opened FlatTables
  import opened FlatVectors
  import opened Utf8
  import opened FlatLayout
  import opened FlatBuilder
  import opened FlatRuns

  lemma GrowsTransitive(a: Snapshot, b: Snapshot, c: Snapshot)
    requires Grows(a, b) && Grows(b, c)
    ensures Grows(a, c)
  {
    SuffixTransitive(a.data, b.data, c.data);
  }

  /** Nothing that a run has written, recorded or finished is lost. */
  lemma {:induction false} TraceGrows(calls: seq<Call>, trace: seq<Snapshot>, i: nat, j: nat)
    requires IsTrace(calls, trace) && i <= j <= |calls|
    ensures Grows(trace[i], trace[j])
    decreases j - i
  {
    hide Effect, Allowed, Grows;
    if i == j {
      GrowsSelf(trace[i]);
    } else {
      assert Step(calls[i], trace[i], trace[i + 1]);
      TraceGrows(calls, trace, i + 1, j);
      GrowsTransitive(trace[i], trace[i + 1], trace[j]);
    }
  }

  lemma GrowsSelf(a: Snapshot)
    ensures Grows(a, a)
  {
  }

  lemma StepOf(calls: seq<Call>, trace: seq<Snapshot>, i: nat)
    requires IsTrace(calls, trace) && i < |calls|
    ensures |trace| == |calls| + 1 && Effect(calls[i], trace[i], trace[i + 1]) && Grows(trace[i], trace[i + 1])
            && |trace[i + 1].data| < MAX_SIZE
    ensures Allowed(calls[i], trace[i].phase, trace[i].book.isNested, trace[i].book.inUse)
    ensures trace[i + 1].phase == Next(calls[i], trace[i].phase)
  {
    hide Effect, Allowed, Grows;
    assert Step(calls[i], trace[i], trace[i + 1]);
  }

  /** The size of the scalar that a call puts at the very front, or 0 when it puts none there. */
  function FrontSize(call: Call, was: Snapshot): nat {
    match call
    case AddScalar(v) => v.Size()
    case AddOffset(_) => 4
    case AddField(_, v, default) => if was.force || v != default then v.Size() else 0
    case AddFieldOffset(_, offset, none) => if was.force || offset != none then 4 else 0
    case CreateString(_) => 4
    case CreateUtf8(_) => 4
    case CreateScalarVector(_, _) => 4
    case CreateOffsetVector(_) => 4
    case EndVector => if was.phase.InVector? && was.phase.left == 0 then 4 else 0
    case Finish(_, _, _) => 4
    case _ => 0
  }

  lemma FrontRecorded(call: Call, was: Snapshot, now: Snapshot)
    requires Effect(call, was, now) && 0 < FrontSize(call, was)
    ensures (|now.data|, FrontSize(call, was)) in now.book.scalars
  {
    hide SameObjects, Encode, StoredAt, TextStands, WholeVector, VectorStands, ElementsAligned, RelativeTo,
         ScalarsAligned, RootPlaced, RootStands,
         IdentifierStands, WordWritten,
         Scalar.ToBytes, Scalar.Size, Int32Bytes, Zeros, AlignSize;
  }

  lemma FinishedAligned(calls: seq<Call>, trace: seq<Snapshot>, i: nat, j: nat, s: (nat, nat))
    requires IsTrace(calls, trace) && i <= j < |calls| && calls[j].Finish? && s in trace[i + 1].book.scalars
    ensures Multiple(|trace[j + 1].data| - s.0, s.1)
  {
    hide IsTrace, Multiple;
    TraceGrows(calls, trace, i + 1, j + 1);
    StepOf(calls, trace, j);
    FinishEffect(calls[j], trace[j], trace[j + 1]);
  }

  lemma FinishEffect(call: Call, was: Snapshot, now: Snapshot)
    requires call.Finish? && Effect(call, was, now)
    ensures Finished(was, now, call.rootTable, call.identifier, call.sizePrefix)
            && ScalarsAligned(|now.data|, now.book.scalars)
  {
    hide SameObjects, ScalarsAligned, RootPlaced, RootStands, IdentifierStands, WordWritten;
  }

  /** Alignment: once the buffer is finished, every scalar, stored field and length word that was written before
      stands at a multiple of its own size, counted from the front. */
  lemma FinishAligns(calls: seq<Call>, trace: seq<Snapshot>, i: nat, j: nat)
    requires IsTrace(calls, trace) && i <= j < |calls| && calls[j].Finish? && 0 < FrontSize(calls[i], trace[i])
    ensures Multiple(|trace[j + 1].data| - |trace[i + 1].data|, FrontSize(calls[i], trace[i]))
  {
    hide IsTrace, Effect, Allowed, Grows, Multiple, FrontSize;
    StepOf(calls, trace, i);
    FrontRecorded(calls[i], trace[i], trace[i + 1]);
    FinishedAligned(calls, trace, i, j, (|trace[i + 1].data|, FrontSize(calls[i], trace[i])));
  }

  /** The vectors that a single call creates. */
  predicate CreatesVector(call: Call, size: nat, n: nat) {
    match call
    case CreateScalarVector(elemSize, data) => size == elemSize && n == |data|
    case CreateOffsetVector(offsets) => size == 4 && n == |offsets|
    case _ => false
  }

  lemma ElementsRecorded(call: Call, was: Snapshot, now: Snapshot, size: nat, n: nat)
    requires Effect(call, was, now) && Allowed(call, was.phase, was.book.isNested, was.book.inUse)
             && CreatesVector(call, size, n)
    ensures 4 <= |now.data| && ElementsAligned(now.book.scalars, |now.data| - 4, size, 0, n)
            && 4 + ElementBytes(size, n) <= |now.data|
  {
    hide SameObjects, StoredAt, WholeVector, VectorStands, ElementsAligned, RelativeTo, ElementBytes, Uniform;
    if call.CreateScalarVector? {
      WholeVectorFits(now.data, call.data, size);
    } else {
      WholeVectorFits(now.data, RelativeTo(|now.data| - 4, call.offsets), size);
    }
  }

  lemma WholeVectorFits(d: seq<byte>, data: seq<Scalar>, size: nat)
    requires StoredAt(d, |d|, WholeVector(data)) && Uniform(data, size)
    ensures 4 + ElementBytes(size, |data|) <= |d|
  {
    hide VectorBytes, Int32Bytes;
    VectorBytesSize(data, size);
  }

  lemma ElementBytesGrow(size: nat, k: nat, n: nat)
    requires k <= n
    ensures ElementBytes(size, k) <= ElementBytes(size, n)
  {
    assert size * n == size * k + size * (n - k);
  }

  /** The same for the elements: element k stands behind the length word and k others. */
  lemma FinishAlignsElements(calls: seq<Call>, trace: seq<Snapshot>, i: nat, j: nat, size: nat, n: nat, k: nat)
    requires IsTrace(calls, trace) && i <= j < |calls| && calls[j].Finish? && CreatesVector(calls[i], size, n) && k < n
    ensures Multiple(|trace[j + 1].data| - |trace[i + 1].data| + 4 + size * k, size)
  {
    hide IsTrace, Effect, Allowed, Grows, Multiple;
    StepOf(calls, trace, i);
    ElementsRecorded(calls[i], trace[i], trace[i + 1], size, n);
    ElementBytesGrow(size, k, n);
    var at := |trace[i + 1].data| - 4 - ElementBytes(size, k);
    assert at + ElementBytes(size, k) == |trace[i + 1].data| - 4;
    FinishedAligned(calls, trace, i, j, (at, size));
  }

  /** A call that writes into a slot of the open object. */
  predicate Sets(call: Call, slot: nat) {
    (call.AddField? && call.slot == slot) || (call.AddFieldOffset? && call.slot == slot)
  }

  predicate LeavesSlot(call: Call, slot: nat) {
    !call.EndObject? && !Sets(call, slot)
  }

  lemma SlotLeft(call: Call, was: Snapshot, now: Snapshot, slot: nat)
    requires Effect(call, was, now) && LeavesSlot(call, slot) && was.book.isNested && slot < |was.book.slots|
    ensures now.book.isNested && |now.book.slots| == |was.book.slots| && now.book.slots[slot] == was.book.slots[slot]
  {
    hide Fronted, Joined, Encode, StoredAt, TextStands, WholeVector, VectorStands, ElementsAligned, RelativeTo,
         ScalarsAligned, RootPlaced, RootStands,
         IdentifierStands, WordWritten,
         ReadyFor, Scalar.ToBytes, Scalar.Size, Int32Bytes;
  }

  lemma {:induction false} SlotKept(calls: seq<Call>, trace: seq<Snapshot>, i: nat, j: nat, slot: nat)
    requires IsTrace(calls, trace) && i <= j <= |calls| && trace[i].book.isNested && slot < |trace[i].book.slots|
    requires forall k :: i <= k < j ==> LeavesSlot(calls[k], slot)
    ensures trace[j].book.isNested && |trace[j].book.slots| == |trace[i].book.slots|
    ensures trace[j].book.slots[slot] == trace[i].book.slots[slot]
    decreases j - i
  {
    hide IsTrace, Effect, Allowed, Grows, LeavesSlot;
    if i < j {
      StepOf(calls, trace, i);
      SlotLeft(calls[i], trace[i], trace[i + 1], slot);
      SlotKept(calls, trace, i + 1, j, slot);
    }
  }

  /** The table that an `endObject` of the run leaves reads back exactly when its vtable fits, and then for the rest
      of the run. Its slots are those of the object when it ended. */
  lemma ClosedTableOfRun(calls: seq<Call>, trace: seq<Snapshot>, j: nat, m: nat) returns (loc: nat)
    requires IsTrace(calls, trace) && j < m <= |calls| && calls[j].EndObject?
    ensures trace[j].book.inUse <= |trace[j].book.vtable| && |trace[j].data| < loc <= |trace[j + 1].data|
    ensures TableReads(trace[j + 1].data, Table(loc, trace[j].book.slots)) <==> TableFits(loc, Trimmed(trace[j].book))
    ensures TableFits(loc, Trimmed(trace[j].book))
            ==> TableReads(trace[m].data, Table(loc, trace[j].book.slots))
                && Table(loc, trace[j].book.slots) in trace[m].book.tables
  {
    hide IsTrace, Allowed, TableReads, TableFits, Trimmed, KnownVtable, OpenVtable, IsSuffix;
    StepOf(calls, trace, j);
    TraceGrows(calls, trace, j + 1, m);
    loc :| ClosedAt(trace[j], trace[j + 1], loc);
    var t := Table(loc, trace[j].book.slots);
    if TableFits(loc, Trimmed(trace[j].book)) {
      assert t in trace[j + 1].book.tables;
      SuffixReads(trace[j + 1].data, trace[m].data, t);
    }
  }

  lemma SuffixReads(a: seq<byte>, d: seq<byte>, t: Table)
    requires IsSuffix(a, d) && TableReads(a, t)
    ensures TableReads(d, t)
  {
    hide TableReads;
    var x := d[..|d| - |a|];
    assert d == x + a;
    TableSurvives(x, a, t);
  }

  /** Call `i` sets a slot of the object that call `j` ends, and no call between them sets it again or ends the
      object. */
  ghost predicate LastSet(calls: seq<Call>, i: nat, j: nat, slot: nat) {
    && i < j < |calls| && Sets(calls[i], slot) && calls[j].EndObject?
    && forall k :: i < k < j ==> LeavesSlot(calls[k], slot)
  }

  lemma SetBy(call: Call, was: Snapshot, now: Snapshot, slot: nat)
    requires Effect(call, was, now) && Sets(call, slot)
    ensures slot < |was.book.slots| && now.book.isNested && slot < |now.book.slots|
    ensures 0 < FrontSize(call, was) && call.AddField? ==> now.book.slots[slot] == Set(|now.data|, call.v.ToBytes())
    ensures 0 < FrontSize(call, was) && call.AddFieldOffset? ==>
              now.book.slots[slot] == Set(|now.data|, Int32Bytes(|now.data| - call.offset))
    ensures FrontSize(call, was) == 0 ==> now.book.slots[slot] == was.book.slots[slot]
    ensures FrontSize(call, was) == 0 && call.AddField? ==> call.v == call.default
  {
    hide Fronted, Scalar.ToBytes, Int32Bytes;
    if call.AddField? {
      ScalarSize(call.v);
    }
  }

  lemma SlotAtEnd(calls: seq<Call>, trace: seq<Snapshot>, i: nat, j: nat, slot: nat)
    requires IsTrace(calls, trace) && LastSet(calls, i, j, slot)
    ensures |trace| == |calls| + 1 && slot < |trace[i].book.slots| && slot < |trace[i + 1].book.slots|
            && slot < |trace[j].book.slots|
    ensures trace[j].book.slots[slot] == trace[i + 1].book.slots[slot] && Effect(calls[i], trace[i], trace[i + 1])
  {
    hide IsTrace, Effect, Allowed, Grows;
    StepOf(calls, trace, i);
    SetBy(calls[i], trace[i], trace[i + 1], slot);
    SlotKept(calls, trace, i + 1, j, slot);
  }

  /** A value that a run adds to an object is what the accessor reads in every later buffer of the run, through whatever
      calls came in between; an elided default needs a slot that was unset. */
  lemma FieldOfRun(calls: seq<Call>, trace: seq<Snapshot>, i: nat, j: nat, m: nat) returns (loc: nat)
    requires IsTrace(calls, trace) && i < j < m <= |calls| && calls[i].AddField? && LastSet(calls, i, j, calls[i].slot)
    requires calls[i].v.InRange() && SameKind(calls[i].v, calls[i].default) && calls[i].slot < |trace[i].book.slots|
    requires FrontSize(calls[i], trace[i]) == 0 ==> trace[i].book.slots[calls[i].slot].Unset?
    ensures trace[j].book.inUse <= |trace[j].book.vtable| && |trace[j].data| < loc <= |trace[j + 1].data|
    ensures TableFits(loc, Trimmed(trace[j].book))
            ==> ReadField(trace[m].data, |trace[m].data| - loc, calls[i].slot, calls[i].default) == calls[i].v
  {
    hide IsTrace, Effect, Allowed, TableReads, TableFits, Trimmed, ReadField, Scalar.ToBytes, Scalar.InRange, FrontSize;
    var slot := calls[i].slot;
    SlotAtEnd(calls, trace, i, j, slot);
    SetBy(calls[i], trace[i], trace[i + 1], slot);
    loc := ClosedTableOfRun(calls, trace, j, m);
    if TableFits(loc, Trimmed(trace[j].book)) {
      FieldRoundTrip(trace[m].data, Table(loc, trace[j].book.slots), slot, calls[i].v, calls[i].default);
    }
  }

  /** An offset that a run adds to an object leads to its target in every later buffer of the run. */
  lemma OffsetFieldOfRun(calls: seq<Call>, trace: seq<Snapshot>, i: nat, j: nat, m: nat) returns (loc: nat)
    requires IsTrace(calls, trace) && i < j < m <= |calls| && calls[i].AddFieldOffset?
             && LastSet(calls, i, j, calls[i].slot)
    requires calls[i].offset < MAX_SIZE && 0 < FrontSize(calls[i], trace[i])
    ensures trace[j].book.inUse <= |trace[j].book.vtable| && |trace[j].data| < loc <= |trace[j + 1].data|
    ensures TableFits(loc, Trimmed(trace[j].book)) ==>
              var d := trace[m].data;
              var offset := FieldOffset(d, |d| - loc, 4 + 2 * calls[i].slot);
              offset != 0 && Indirect(d, |d| - loc + offset) == |d| - calls[i].offset
  {
    hide IsTrace, Effect, Allowed, TableReads, TableFits, Trimmed, FieldOffset, Indirect, Int32Bytes, FrontSize;
    var slot := calls[i].slot;
    SlotAtEnd(calls, trace, i, j, slot);
    SetBy(calls[i], trace[i], trace[i + 1], slot);
    StepOf(calls, trace, m - 1);
    loc := ClosedTableOfRun(calls, trace, j, m);
    if TableFits(loc, Trimmed(trace[j].book)) {
      OffsetFieldResolves(trace[m].data, Table(loc, trace[j].book.slots), slot, calls[i].offset);
    }
  }

  lemma EndRecordsWord(was: Snapshot, now: Snapshot)
    requires Effect(EndObject, was, now)
    ensures WordWritten(now.book.scalars)
  {
    hide KnownVtable, OpenVtable, TableClosed, ClosedTables;
    var loc: nat :| ClosedAt(was, now, loc);
    assert (loc, 4) in now.book.scalars;
  }

  /** Behind any finished object the identifier stands directly after the root word. */
  lemma IdentifierOfRun(calls: seq<Call>, trace: seq<Snapshot>, i: nat, j: nat)
    requires IsTrace(calls, trace) && i < j < |calls| && calls[i].EndObject? && calls[j].Finish?
             && calls[j].identifier != []
    ensures HoldsAt(trace[j + 1].data, RootEnd(calls[j].sizePrefix), IdentifierBytes(calls[j].identifier))
  {
    hide IsTrace, Effect, Allowed, IsSuffix, RootPlaced, RootStands, ScalarsAligned, IdentifierOffset, AlignSize,
         HoldsAt,
         IdentifierBytes, Zeros;
    StepOf(calls, trace, i);
    EndRecordsWord(trace[i], trace[i + 1]);
    TraceGrows(calls, trace, i + 1, j);
    StepOf(calls, trace, j);
    FinishEffect(calls[j], trace[j], trace[j + 1]);
    var s :| s in trace[i + 1].book.scalars && 4 <= s.1;
    assert s in trace[j].book.scalars;
  }

  /** `startVector`, the elements last one first, `endVector`. */
  ghost predicate VectorCalls(calls: seq<Call>, i: nat, size: nat, alignment: nat, data: seq<Scalar>) {
    var n := |data|;
    && i + n + 2 <= |calls| && calls[i] == Call.StartVector(size, n, alignment) && calls[i + n + 1] == Call.EndVector
    && forall p: nat :: i < p <= i + n ==> calls[p] == Call.AddScalar(data[i + n - p])
  }

  lemma ScalarJoins(v: Scalar, was: Snapshot, now: Snapshot)
    requires Effect(Call.AddScalar(v), was, now) && was.phase.InVector?
    ensures now.data == v.ToBytes() + was.data
  {
    hide Scalar.ToBytes, Fronted, SameObjects;
  }

  lemma {:induction false} ElementsOfRun(calls: seq<Call>, trace: seq<Snapshot>, i: nat, size: nat, alignment: nat,
          data: seq<Scalar>, k: nat)
    requires IsTrace(calls, trace) && VectorCalls(calls, i, size, alignment, data) && k <= |data|
             && trace[i].phase.NoVector?
    ensures trace[i + 1 + k].phase == InVector(size, |data| - k, |data|)
    ensures trace[i + 1 + k].data == VectorBytes(data[|data| - k..]) + trace[i + 1].data
    decreases k
  {
    hide IsTrace, Effect, Allowed, Grows, VectorBytes, Scalar.ToBytes;
    StepOf(calls, trace, i);
    var start := trace[i + 1].data;
    if k == 0 {
      NoElements(data, start);
    } else {
      var e := |data| - k;
      ElementsOfRun(calls, trace, i, size, alignment, data, k - 1);
      assert calls[i + k] == Call.AddScalar(data[e]);
      StepOf(calls, trace, i + k);
      ScalarJoins(data[e], trace[i + k], trace[i + k + 1]);
      VectorStep(data, e, start);
    }
  }

  lemma EndEffect(was: Snapshot, now: Snapshot)
    requires Effect(Call.EndVector, was, now)
    ensures was.phase.InVector? && now.data == Int32Bytes(was.phase.count) + was.data
    ensures was.phase.left == 0 ==> (|now.data|, 4) in now.book.scalars
  {
    hide Int32Bytes, SameObjects;
  }

  /** The separate steps of a vector leave what a single `create...Vector` leaves: the whole vector at the front, its
      length word aligned. */
  lemma VectorOfRun(calls: seq<Call>, trace: seq<Snapshot>, i: nat, size: nat, alignment: nat, data: seq<Scalar>)
    requires IsTrace(calls, trace) && VectorCalls(calls, i, size, alignment, data) && trace[i].phase.NoVector?
    ensures var now := trace[i + |data| + 2];
            && StoredAt(now.data, |now.data|, WholeVector(data)) && (|now.data|, 4) in now.book.scalars
            && now.phase.NoVector?
  {
    hide IsTrace, Effect, Allowed, Grows, VectorBytes, Int32Bytes, StoredAt, WholeVector, VectorStands, IsSuffix;
    var n := |data|;
    ElementsOfRun(calls, trace, i, size, alignment, data, n);
    StepOf(calls, trace, i + n + 1);
    EndEffect(trace[i + n + 1], trace[i + n + 2]);
    assert data[0..] == data;
    VectorStored(data, trace[i + 1].data);
  }

  const ABCD: seq<CodeUnit> := [0x41, 0x42, 0x43, 0x44]

  lemma NoPaddingForBytes(offset: nat)
    ensures AlignSize(offset, 1) == 0
  {
    hide AlignSize;
    Powers();
    AlignSizeAligns(offset, 1);
  }

  lemma GapOfThree(d: seq<byte>)
    requires IdentifierStands(d, 1, 1, false, ABCD)
    ensures HoldsAt(d, 7, IdentifierBytes(ABCD)) && !HoldsAt(d, 4, IdentifierBytes(ABCD))
  {
    hide AlignSize, HoldsAt, IsPow2;
    NoPaddingForBytes(9);
    Powers();
    AlignSizeAligns(5, 4);
    assert IdentifierGap(1, 1, false) == 3;
    DirectlyWhenNoGap(d, 1, 1, false, ABCD);
    assert IdentifierBytes(ABCD)[0] == 0x41;
  }

  /** It need not stand there when nothing of four bytes has been written: behind a single byte it starts at 7. */
  method IdentifierCanStandApart() returns (b: Builder)
    ensures b.Valid() && HoldsAt(b.Data(), 7, IdentifierBytes(ABCD)) && !HoldsAt(b.Data(), 4, IdentifierBytes(ABCD))
  {
    hide Builder.Valid, Builder.Data, Consistent, AlignSize, IsPow2, IdentifierStands, RootPlaced, RootStands,
         ScalarsAligned,
         IsSuffix, Zeros;
    b := new Builder(0);
    NoPaddingForBytes(0);
    var o := b.AddScalar(Int8(1));
    assert o.Pass? && |b.Data()| == 1;
    o := b.Finish(0, ABCD, false);
    assert o.Pass?;
    GapOfThree(b.Data());
  }
}

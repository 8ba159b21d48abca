/** The reader side of the FlatBuffers format, and the invariant that ties the bytes written so far to the tables,
    fields and vtables that the builder has promised. Offsets count from the end of the buffer. */
module FlatTables {
  import opened Bytes
  import opened FlatBytes

  /** `__offset`: where a field lies relative to its table, or 0 when it is not stored. */
  function FieldOffset(d: seq<byte>, pos: int, slot: int): int {
    var vtable := pos - ReadInt32(d, pos);
    if slot < ReadInt16(d, vtable) then ReadInt16(d, vtable + slot) else 0
  }

  function Indirect(d: seq<byte>, p: int): int {
    p + ReadInt32(d, p)
  }

  function VectorStart(d: seq<byte>, p: int): int {
    p + ReadInt32(d, p) + 4
  }

  function VectorLength(d: seq<byte>, p: int): int {
    ReadInt32(d, p + ReadInt32(d, p))
  }

  /** A field of a table: not stored, or stored as `bytes` at `offset`. */
  datatype Slot = Unset | Set(offset: nat, bytes: seq<byte>)

  datatype Table = Table(loc: nat, slots: seq<Slot>) {
    /** The answer that `__offset` owes for slot `i`. */
    function Answer(i: nat): int {
      if i < |slots| && slots[i].Set? then loc - slots[i].offset else 0
    }
  }

  /** The table at `t.loc` reads back: every slot's offset is right and the bytes of each stored field are there. */
  ghost predicate TableReads(d: seq<byte>, t: Table) {
    && 4 <= t.loc <= |d| && 0 <= |d| - t.loc - ReadInt32(d, |d| - t.loc)
    && (forall i: nat :: FieldOffset(d, |d| - t.loc, 4 + 2 * i) == t.Answer(i))
    && (forall i: nat :: i < |t.slots| && t.slots[i].Set?
                         ==> t.slots[i].offset < t.loc && StoredAt(d, t.slots[i].offset, t.slots[i].bytes))
  }

  ghost predicate StoredAt(d: seq<byte>, offset: nat, bs: seq<byte>) {
    offset <= |d| && HoldsAt(d, |d| - offset, bs)
  }

  lemma StoredSurvives(x: seq<byte>, d: seq<byte>, offset: nat, bs: seq<byte>)
    requires StoredAt(d, offset, bs)
    ensures StoredAt(x + d, offset, bs)
  {
    HoldsBehind(x, d, |d| - offset, bs);
  }

  /** A finished table reads the same after anything has been put in front of it. */
  lemma TableSurvives(x: seq<byte>, d: seq<byte>, t: Table)
    requires TableReads(d, t)
    ensures TableReads(x + d, t)
  {
    hide ReadInt32, ReadInt16, StoredAt, Table.Answer;
    var pos := |d| - t.loc;
    var vtable := pos - ReadInt32(d, pos);
    ReadsBehind(x, d, pos);
    ReadsBehind(x, d, vtable);
    forall i: nat ensures FieldOffset(x + d, |x| + pos, 4 + 2 * i) == t.Answer(i) {
      ReadsBehind(x, d, vtable + (4 + 2 * i));
      assert FieldOffset(d, pos, 4 + 2 * i) == t.Answer(i);
    }
    forall i: nat | i < |t.slots| && t.slots[i].Set? ensures StoredAt(x + d, t.slots[i].offset, t.slots[i].bytes) {
      StoredSurvives(x, d, t.slots[i].offset, t.slots[i].bytes);
    }
  }

  /** The builder's bookkeeping together with its history: the open object's fields, the finished tables and
      the aligned scalars as (offset, size). */
  datatype Book = Book(minalign: nat, isNested: bool, objectStart: nat, vtable: seq<nat>, inUse: nat, slots: seq<Slot>,
                       vtables: seq<nat>, tables: seq<Table>, scalars: set<(nat, nat)>)

  ghost predicate SlotMatches(d: seq<byte>, objectStart: nat, entry: nat, slot: Slot) {
    match slot
    case Unset => entry == 0
    case Set(offset, bytes) => entry == offset && objectStart < offset && StoredAt(d, offset, bytes)
  }

  ghost predicate IsVtable(d: seq<byte>, v: nat) {
    4 <= v <= |d| && ReadInt16(d, |d| - v) <= v
  }

  ghost predicate ScalarAligned(d: seq<byte>, minalign: nat, scalar: (nat, nat)) {
    IsPow2(scalar.1) && scalar.1 <= minalign && scalar.0 <= |d| && scalar.0 % scalar.1 == 0
  }

  ghost predicate OpenObject(d: seq<byte>, b: Book) {
    b.isNested ==>
      && |b.slots| == b.inUse <= |b.vtable| && b.objectStart <= |d|
      && forall i: nat :: i < b.inUse ==> SlotMatches(d, b.objectStart, b.vtable[i], b.slots[i])
  }

  ghost predicate Consistent(d: seq<byte>, b: Book) {
    && IsPow2(b.minalign) && OpenObject(d, b)
    && (forall v :: v in b.vtables ==> IsVtable(d, v))
    && (forall t :: t in b.tables ==> TableReads(d, t))
    && (forall s :: s in b.scalars ==> ScalarAligned(d, b.minalign, s))
  }

  /** Nothing that was promised is lost when bytes are put in front. */
  lemma ConsistentSurvives(x: seq<byte>, d: seq<byte>, b: Book)
    requires Consistent(d, b)
    ensures Consistent(x + d, b)
  {
    if b.isNested {
      forall i: nat | i < b.inUse ensures SlotMatches(x + d, b.objectStart, b.vtable[i], b.slots[i]) {
        if b.slots[i].Set? {
          StoredSurvives(x, d, b.slots[i].offset, b.slots[i].bytes);
        }
      }
    }
    forall v | v in b.vtables ensures IsVtable(x + d, v) {
      ReadsBehind(x, d, |d| - v);
    }
    forall t | t in b.tables ensures TableReads(x + d, t) {
      TableSurvives(x, d, t);
    }
  }

  lemma MinalignRaised(d: seq<byte>, b: Book, minalign: nat)
    requires Consistent(d, b) && IsPow2(minalign) && b.minalign <= minalign
    ensures Consistent(d, b.(minalign := minalign))
  {
  }

  lemma ScalarRecorded(d: seq<byte>, b: Book, size: nat)
    requires Consistent(d, b) && IsPow2(size) && size <= b.minalign && |d| % size == 0
    ensures Consistent(d, b.(scalars := b.scalars + {(|d|, size)}))
  {
  }

  /** The vtable's entry for a slot value: the distance from the field to the table, or 0. */
  function Entry(loc: nat, slot: nat): int {
    if slot != 0 then loc - slot else 0
  }

  function EntryBytes(loc: nat, vtable: seq<nat>): (bs: seq<byte>)
    ensures |bs| == 2 * |vtable|
  {
    if vtable == [] then [] else Int16Bytes(Entry(loc, vtable[0])) + EntryBytes(loc, vtable[1..])
  }

  /** The vtable of a table: its own size, the table's size, and one entry per slot up to the last stored one. */
  function VtableBytes(loc: nat, objectStart: nat, vtable: seq<nat>): (bs: seq<byte>)
    ensures |bs| == 4 + 2 * |vtable|
  {
    Int16Bytes(4 + 2 * |vtable|) + Int16Bytes(loc - objectStart) + EntryBytes(loc, vtable)
  }

  lemma {:induction false} EntryHeld(d: seq<byte>, q: int, loc: nat, vtable: seq<nat>, i: nat)
    requires HoldsAt(d, q, EntryBytes(loc, vtable)) && i < |vtable|
    ensures HoldsAt(d, q + 2 * i, Int16Bytes(Entry(loc, vtable[i])))
    decreases i
  {
    var head, tail := Int16Bytes(Entry(loc, vtable[0])), EntryBytes(loc, vtable[1..]);
    var w := d[q..q + |EntryBytes(loc, vtable)|];
    assert w == head + tail;
    assert d[q..q + 2] == w[..2] == head && d[q + 2..q + 2 + |tail|] == w[2..] == tail;
    if i > 0 {
      EntryHeld(d, q + 2, loc, vtable[1..], i - 1);
    }
  }

  /** Number of slots up to the last one that is stored. */
  function TrimmedSize(vtable: seq<nat>): (n: nat)
    ensures n <= |vtable|
    ensures 0 < n ==> vtable[n - 1] != 0
    ensures forall i :: n <= i < |vtable| ==> vtable[i] == 0
  {
    if vtable == [] then 0 else if vtable[|vtable| - 1] != 0 then |vtable| else TrimmedSize(vtable[..|vtable| - 1])
  }

  /** The reader takes the vtable's size and its entries for signed 16-bit numbers. */
  ghost predicate TableFits(loc: nat, entries: seq<nat>) {
    4 + 2 * |entries| < 0x8000 && forall k: nat :: k < |entries| ==> Entry(loc, entries[k]) < 0x8000
  }

  /** A table whose signed offset leads to a matching vtable answers every slot, elided and trimmed ones included. */
  lemma VtableAnswers(d: seq<byte>, q: int, t: Table, objectStart: nat, vtable: seq<nat>, i: nat)
    requires 4 <= t.loc <= |d| && |d| - t.loc - ReadInt32(d, |d| - t.loc) == q
    requires HoldsAt(d, q, VtableBytes(t.loc, objectStart, vtable))
    requires TableFits(t.loc, vtable)
    requires EntriesAgree(t, vtable, objectStart)
    ensures FieldOffset(d, |d| - t.loc, 4 + 2 * i) == t.Answer(i)
  {
    var n := |vtable|;
    VtableWords(d, q, t.loc, objectStart, vtable);
    hide VtableBytes, EntryBytes, Int16Bytes, ReadInt16, ReadInt32, HoldsAt;
    ReadsInt16(d, q, 4 + 2 * n);
    if i < n {
      EntryHeld(d, q + 4, t.loc, vtable, i);
      ReadsInt16(d, q + 4 + 2 * i, Entry(t.loc, vtable[i]));
    }
  }

  function Signed16(v: int): int {
    if v % 0x1_0000 < 0x8000 then v % 0x1_0000 else v % 0x1_0000 - 0x1_0000
  }

  lemma SignedWraps(v: nat)
    ensures if v < 0x8000 then Signed16(v) == v else Signed16(v) <= v - 0x1_0000
  {
  }

  lemma ReadsShort(d: seq<byte>, p: int, v: int)
    requires HoldsAt(d, p, Int16Bytes(v))
    ensures ReadInt16(d, p) == Signed16(v)
  {
    assert d[p] == d[p..p + 2][0] && d[p + 1] == d[p..p + 2][1];
    var high := v / 256;
    ModUnique(v, 0x1_0000, high / 256, v % 256 + 256 * (high % 256));
  }

  /** A vtable that does not fit gives a wrong answer for some slot. */
  lemma OversizedMisreads(d: seq<byte>, q: int, t: Table, objectStart: nat, vtable: seq<nat>) returns (i: nat)
    requires 4 <= t.loc <= |d| && |d| - t.loc - ReadInt32(d, |d| - t.loc) == q
    requires HoldsAt(d, q, VtableBytes(t.loc, objectStart, vtable)) && EntriesAgree(t, vtable, objectStart)
    requires !TableFits(t.loc, vtable) && (vtable != [] ==> vtable[|vtable| - 1] != 0)
    ensures FieldOffset(d, |d| - t.loc, 4 + 2 * i) != t.Answer(i)
  {
    var n := |vtable|;
    VtableWords(d, q, t.loc, objectStart, vtable);
    hide VtableBytes, EntryBytes, Int16Bytes, ReadInt16, ReadInt32, HoldsAt, Signed16;
    ReadsShort(d, q, 4 + 2 * n);
    SignedWraps(4 + 2 * n);
    if 4 + 2 * n < 0x8000 {
      i :| i < n && !(Entry(t.loc, vtable[i]) < 0x8000);
      EntryHeld(d, q + 4, t.loc, vtable, i);
      ReadsShort(d, q + 4 + 2 * i, Entry(t.loc, vtable[i]));
      SignedWraps(Entry(t.loc, vtable[i]));
    } else {
      i := n - 1;
    }
  }

  lemma VtableWords(d: seq<byte>, q: int, loc: nat, objectStart: nat, vtable: seq<nat>)
    requires HoldsAt(d, q, VtableBytes(loc, objectStart, vtable))
    ensures HoldsAt(d, q, Int16Bytes(4 + 2 * |vtable|)) && HoldsAt(d, q + 4, EntryBytes(loc, vtable))
  {
    var bs, es := VtableBytes(loc, objectStart, vtable), EntryBytes(loc, vtable);
    var w := d[q..q + |bs|];
    assert d[q..q + 2] == w[..2] == Int16Bytes(4 + 2 * |vtable|);
    assert d[q + 4..q + 4 + |es|] == w[4..] == es;
  }

  /** Equal 16-bit words mean equal bytes. */
  lemma {:induction false} SameWords(d: seq<byte>, p: int, q: int, n: nat)
    requires 0 <= p && p + 2 * n <= |d| && 0 <= q && q + 2 * n <= |d|
    requires forall k: nat :: k < n ==> ReadInt16(d, p + 2 * k) == ReadInt16(d, q + 2 * k)
    ensures d[p..p + 2 * n] == d[q..q + 2 * n]
  {
    if n > 0 {
      SameWords(d, p, q, n - 1);
      var k := n - 1;
      assert ReadInt16(d, p + 2 * k) == ReadInt16(d, q + 2 * k);
      assert d[p + 2 * k] == d[q + 2 * k] && d[p + 2 * k + 1] == d[q + 2 * k + 1];
      assert d[p..p + 2 * n] == d[p..p + 2 * k] + [d[p + 2 * k], d[p + 2 * k + 1]];
      assert d[q..q + 2 * n] == d[q..q + 2 * k] + [d[q + 2 * k], d[q + 2 * k + 1]];
    }
  }

  function Trimmed(b: Book): (entries: seq<nat>)
    requires b.inUse <= |b.vtable|
    ensures |entries| <= b.inUse
  {
    b.vtable[..TrimmedSize(b.vtable[..b.inUse])]
  }

  /** The table that closing the open object adds, provided its vtable can be read back. */
  ghost function ClosedTables(b: Book, loc: nat): seq<Table>
    requires b.inUse <= |b.vtable|
  {
    if TableFits(loc, Trimmed(b)) then b.tables + [Table(loc, b.slots)] else b.tables
  }

  /** In `d` the offset word of the table at `loc`, which stands in front of `d0`, leads to the vtable `vt`. */
  ghost predicate Links(d: seq<byte>, d0: seq<byte>, loc: nat, vt: seq<byte>) {
    |d0| + 4 <= loc <= |d| && d[|d| - |d0|..] == d0 && HoldsAt(d, |d| - loc - ReadInt32(d, |d| - loc), vt)
  }

  function OpenVtable(b: Book, loc: nat): (vt: seq<byte>)
    requires b.inUse <= |b.vtable|
    ensures |vt| == 4 + 2 * |Trimmed(b)|
  {
    VtableBytes(loc, b.objectStart, Trimmed(b))
  }

  lemma SlotKinds(d0: seq<byte>, b: Book, k: nat)
    requires OpenObject(d0, b) && b.isNested && k < b.inUse
    ensures |b.slots| == b.inUse <= |b.vtable| && b.objectStart <= |d0|
    ensures b.slots[k].Unset? ==> b.vtable[k] == 0
    ensures b.slots[k].Set? ==> b.vtable[k] == b.slots[k].offset && b.objectStart < b.vtable[k] <= |d0|
                                && StoredAt(d0, b.slots[k].offset, b.slots[k].bytes)
  {
    assert SlotMatches(d0, b.objectStart, b.vtable[k], b.slots[k]);
  }

  lemma ClosedSlot(d: seq<byte>, d0: seq<byte>, b: Book, loc: nat, k: nat)
    requires OpenObject(d0, b) && b.isNested && k < b.inUse && |d0| < loc && |d0| <= |d| && d[|d| - |d0|..] == d0
    ensures |b.slots| == b.inUse <= |b.vtable|
    ensures |Trimmed(b)| <= k ==> b.slots[k].Unset?
    ensures k < |Trimmed(b)| ==> Trimmed(b)[k] == b.vtable[k]
    ensures b.slots[k].Unset? ==> b.vtable[k] == 0
    ensures b.slots[k].Set? ==> b.vtable[k] == b.slots[k].offset && b.objectStart < b.vtable[k] < loc
    ensures b.slots[k].Set? ==> b.slots[k].offset <= |d0| && StoredAt(d, b.slots[k].offset, b.slots[k].bytes)
  {
    SlotKinds(d0, b, k);
    assert |Trimmed(b)| <= k ==> b.vtable[..b.inUse][k] == 0;
    if b.slots[k].Set? {
      assert d == d[..|d| - |d0|] + d0;
      StoredSurvives(d[..|d| - |d0|], d0, b.slots[k].offset, b.slots[k].bytes);
    }
  }

  /** The part of a book that describes the open object agrees with the table being closed. */
  ghost predicate EntriesAgree(t: Table, entries: seq<nat>, objectStart: nat) {
    && |entries| <= |t.slots|
    && (forall k: nat :: |entries| <= k < |t.slots| ==> t.slots[k].Unset?)
    && (forall k: nat :: k < |entries| ==> (t.slots[k].Unset? ==> entries[k] == 0))
    && (forall k: nat :: k < |entries|
                         ==> (t.slots[k].Set? ==> entries[k] == t.slots[k].offset && objectStart < entries[k] < t.loc))
  }

  lemma ClosedEntries(d: seq<byte>, d0: seq<byte>, b: Book, loc: nat)
    requires OpenObject(d0, b) && b.isNested && |d0| < loc && |d0| <= |d| && d[|d| - |d0|..] == d0
    ensures b.inUse <= |b.vtable| && EntriesAgree(Table(loc, b.slots), Trimmed(b), b.objectStart)
            && b.objectStart <= |d0|
    ensures forall k: nat :: k < |b.slots| && b.slots[k].Set?
                             ==> b.slots[k].offset <= |d0| && StoredAt(d, b.slots[k].offset, b.slots[k].bytes)
  {
    hide SlotMatches, StoredAt, Trimmed;
    forall k: nat | k < b.inUse
      ensures |Trimmed(b)| <= k ==> b.slots[k].Unset?
      ensures k < |Trimmed(b)| ==> Trimmed(b)[k] == b.vtable[k]
      ensures b.slots[k].Unset? ==> b.vtable[k] == 0
      ensures b.slots[k].Set? ==> b.vtable[k] == b.slots[k].offset && b.objectStart < b.vtable[k] < loc
      ensures b.slots[k].Set? ==> b.slots[k].offset <= |d0| && StoredAt(d, b.slots[k].offset, b.slots[k].bytes)
    {
      ClosedSlot(d, d0, b, loc, k);
    }
  }

  lemma ClosedTableReads(d: seq<byte>, d0: seq<byte>, b: Book, loc: nat)
    requires OpenObject(d0, b) && b.isNested && b.inUse <= |b.vtable| && Links(d, d0, loc, OpenVtable(b, loc))
    requires TableFits(loc, Trimmed(b))
    ensures TableReads(d, Table(loc, b.slots))
  {
    var t, q := Table(loc, b.slots), |d| - loc - ReadInt32(d, |d| - loc);
    ClosedEntries(d, d0, b, loc);
    HeldInside(d, q, OpenVtable(b, loc));
    hide OpenObject, VtableBytes, FieldOffset, HoldsAt, Trimmed, StoredAt, ReadInt32, EntriesAgree;
    forall i: nat ensures FieldOffset(d, |d| - loc, 4 + 2 * i) == t.Answer(i) {
      VtableAnswers(d, q, t, b.objectStart, Trimmed(b), i);
    }
  }

  lemma TrimmedEnd(b: Book)
    requires b.inUse <= |b.vtable|
    ensures Trimmed(b) != [] ==> Trimmed(b)[|Trimmed(b)| - 1] != 0
  {
  }

  lemma UnfitMisreads(d: seq<byte>, d0: seq<byte>, b: Book, loc: nat)
    requires OpenObject(d0, b) && b.isNested && b.inUse <= |b.vtable| && Links(d, d0, loc, OpenVtable(b, loc))
    requires !TableFits(loc, Trimmed(b))
    ensures !TableReads(d, Table(loc, b.slots))
  {
    hide OpenObject, VtableBytes, FieldOffset, HoldsAt, StoredAt, ReadInt32, EntriesAgree, TableFits, Trimmed;
    TrimmedEnd(b);
    ClosedEntries(d, d0, b, loc);
    var t, q := Table(loc, b.slots), |d| - loc - ReadInt32(d, |d| - loc);
    var i := OversizedMisreads(d, q, t, b.objectStart, Trimmed(b));
    assert FieldOffset(d, |d| - loc, 4 + 2 * i) != t.Answer(i);
  }

  /** The bytes of the table at `loc` and of its vtable, at `q`: the offset word leads from the table back to the
      vtable, which holds its own size, the size of the table, and for each slot up to the last stored one the
      distance from the table to the field, or 0. */
  ghost predicate TableStands(d: seq<byte>, b: Book, loc: nat, q: int, n: nat) {
    && n <= b.inUse <= |b.vtable| && loc <= |d|
    && (forall k: nat :: n <= k < b.inUse ==> b.vtable[k] == 0) && (0 < n ==> b.vtable[n - 1] != 0)
    && LowByteFirst(d, |d| - loc, Int32(|d| - loc - q))
    && LowByteFirst(d, q, Int16(4 + 2 * n)) && LowByteFirst(d, q + 2, Int16(loc - b.objectStart))
    && forall k: nat :: k < n ==>
         LowByteFirst(d, q + 4 + 2 * k, Int16(if b.vtable[k] == 0 then 0 else loc - b.vtable[k]))
  }

  /** The object has become a table at `loc`, which reads back exactly when its vtable fits. */
  ghost predicate TableClosed(d: seq<byte>, b: Book, loc: nat) {
    && b.inUse <= |b.vtable| && (TableReads(d, Table(loc, b.slots)) <==> TableFits(loc, Trimmed(b)))
    && exists q, n :: TableStands(d, b, loc, q, n)
  }

  lemma LinkedStands(d: seq<byte>, d0: seq<byte>, b: Book, loc: nat)
    requires b.inUse <= |b.vtable| && Links(d, d0, loc, OpenVtable(b, loc))
    ensures TableStands(d, b, loc, |d| - loc - ReadInt32(d, |d| - loc), |Trimmed(b)|)
  {
    hide VtableBytes, EntryBytes, Int16Bytes, ReadInt32, Trimmed, LowByteFirst, HoldsAt;
    var q, entries := |d| - loc - ReadInt32(d, |d| - loc), Trimmed(b);
    VtableWords(d, q, loc, b.objectStart, entries);
    VtableSecondWord(d, q, loc, b.objectStart, entries);
    ReadLowByteFirst(d, |d| - loc);
    TrimmedEnd(b);
    TrimmedSlots(b);
    HeldLowByteFirst(d, q, Int16(4 + 2 * |entries|));
    HeldLowByteFirst(d, q + 2, Int16(loc - b.objectStart));
    forall k: nat | k < |entries|
      ensures LowByteFirst(d, q + 4 + 2 * k, Int16(if b.vtable[k] == 0 then 0 else loc - b.vtable[k]))
    {
      EntryHeld(d, q + 4, loc, entries, k);
      HeldLowByteFirst(d, q + 4 + 2 * k, Int16(Entry(loc, entries[k])));
    }
  }

  lemma TrimmedSlots(b: Book)
    requires b.inUse <= |b.vtable|
    ensures var n := |Trimmed(b)|;
            && n <= b.inUse && (forall k: nat :: n <= k < b.inUse ==> b.vtable[k] == 0)
            && forall k: nat :: k < n ==> Trimmed(b)[k] == b.vtable[k]
  {
    var used := b.vtable[..b.inUse];
    assert forall k: nat :: k < b.inUse ==> used[k] == b.vtable[k];
  }

  lemma VtableSecondWord(d: seq<byte>, q: int, loc: nat, objectStart: nat, vtable: seq<nat>)
    requires HoldsAt(d, q, VtableBytes(loc, objectStart, vtable))
    ensures HoldsAt(d, q + 2, Int16Bytes(loc - objectStart))
  {
    hide Int16Bytes, EntryBytes, HoldsAt;
    SplitBytes(d, q, Int16Bytes(4 + 2 * |vtable|) + Int16Bytes(loc - objectStart), EntryBytes(loc, vtable));
    SplitBytes(d, q, Int16Bytes(4 + 2 * |vtable|), Int16Bytes(loc - objectStart));
  }

  /** A closed table reads back exactly when its vtable fits. */
  lemma ReadsExactlyWhenFits(d: seq<byte>, d0: seq<byte>, b: Book, loc: nat)
    requires OpenObject(d0, b) && b.isNested && b.inUse <= |b.vtable| && Links(d, d0, loc, OpenVtable(b, loc))
    ensures TableReads(d, Table(loc, b.slots)) <==> TableFits(loc, Trimmed(b))
  {
    hide *;
    if TableFits(loc, Trimmed(b)) {
      ClosedTableReads(d, d0, b, loc);
    } else {
      UnfitMisreads(d, d0, b, loc);
    }
  }

  /** Closing an object keeps every earlier promise and adds the new table. */
  lemma ClosedConsistent(d: seq<byte>, d0: seq<byte>, b: Book, loc: nat, vtables: seq<nat>, scalars: set<(nat, nat)>)
    requires Consistent(d0, b) && b.isNested && b.inUse <= |b.vtable| && Links(d, d0, loc, OpenVtable(b, loc))
    requires forall v :: v in vtables ==> v in b.vtables || IsVtable(d, v)
    requires forall s :: s in scalars ==> ScalarAligned(d, b.minalign, s)
    ensures Consistent(d, b.(isNested := false, tables := ClosedTables(b, loc), vtables := vtables, scalars := scalars))
    ensures TableClosed(d, b, loc)
  {
    assert d == d[..|d| - |d0|] + d0;
    ConsistentSurvives(d[..|d| - |d0|], d0, b);
    ReadsExactlyWhenFits(d, d0, b, loc);
    LinkedStands(d, d0, b, loc);
    hide Links, OpenVtable, TableReads, IsVtable, ScalarAligned, OpenObject, IsPow2, Trimmed;
  }

  /** With a fresh vtable in front of the table the offset word is the vtable's length. */
  lemma FreshVtableLinks(d0: seq<byte>, padding: seq<byte>, loc: nat, vt: seq<byte>)
    requires loc == 4 + |padding| + |d0| && |vt| < 0x8000_0000
    ensures Links(vt + Int32Bytes(|vt|) + (padding + d0), d0, loc, vt)
  {
    hide ReadInt32, Int32Bytes;
    var d := vt + Int32Bytes(|vt|) + (padding + d0);
    assert d[|vt|..|vt| + 4] == Int32Bytes(|vt|);
    ReadsInt32(d, |vt|, |vt|);
    assert d[0..|vt|] == vt;
    assert d[|d| - |d0|..] == d0;
  }

  lemma FreshIsVtable(vt: seq<byte>, x: seq<byte>)
    requires 4 <= |vt| && HoldsAt(vt, 0, Int16Bytes(|vt|))
    ensures IsVtable(vt + x, |vt + x|)
  {
    assert (vt + x)[0..2] == vt[0..2];
    if |vt| < 0x8000 {
      ReadsInt16(vt + x, 0, |vt|);
    }
  }

  /** With a shared vtable the offset word leads back to it; its bytes are older and therefore untouched. */
  lemma SharedVtableLinks(d0: seq<byte>, padding: seq<byte>, loc: nat, vt: seq<byte>, v: nat)
    requires loc == 4 + |padding| + |d0| < 0x8000_0000 && StoredAt(d0, v, vt)
    ensures Links(Int32Bytes(v - loc) + (padding + d0), d0, loc, vt)
  {
    hide ReadInt32, Int32Bytes, HoldsAt;
    var front := Int32Bytes(v - loc);
    var d := front + (padding + d0);
    FrontHeld(front, padding + d0);
    ReadsInt32(d, 0, v - loc);
    assert d == (front + padding) + d0;
    StoredSurvives(front + padding, d0, v, vt);
    BackOf(front + padding, d0);
  }

  lemma FrontHeld(x: seq<byte>, d: seq<byte>)
    ensures HoldsAt(x + d, 0, x)
  {
  }

  lemma BackOf(x: seq<byte>, d: seq<byte>)
    ensures (x + d)[|x + d| - |d|..] == d
  {
  }

  /** The vtable that starts at offset `v` has `len` bytes, word for word those at the front of the data. */
  ghost predicate VtableMatches(d: seq<byte>, v: nat, len: nat) {
    ReadInt16(d, |d| - v) == len
    && forall k: nat :: 1 <= k < len / 2 ==> ReadInt16(d, 2 * k) == ReadInt16(d, |d| - v + 2 * k)
  }

  lemma WordDiffers(d: seq<byte>, v: nat, len: nat, k: nat)
    requires 1 <= k < len / 2 && ReadInt16(d, 2 * k) != ReadInt16(d, |d| - v + 2 * k)
    ensures !VtableMatches(d, v, len)
  {
  }

  lemma SizeDiffers(d: seq<byte>, v: nat, len: nat)
    requires ReadInt16(d, |d| - v) != len
    ensures !VtableMatches(d, v, len)
  {
  }

  lemma WordsMatch(d: seq<byte>, v: nat, len: nat)
    requires ReadInt16(d, |d| - v) == len
    requires forall k: nat :: 1 <= k < len / 2 ==> ReadInt16(d, 2 * k) == ReadInt16(d, |d| - v + 2 * k)
    ensures VtableMatches(d, v, len)
  {
  }

  lemma MatchInRange(d0: seq<byte>, y: seq<byte>, v: nat, len: nat)
    requires IsVtable(d0, v) && VtableMatches(y + d0, v, len)
    ensures len <= v && len < 0x8000
  {
    ReadsBehind(y, d0, |d0| - v);
  }

  lemma FirstWord(vt: seq<byte>, x: seq<byte>)
    requires 4 <= |vt| < 0x8000 && HoldsAt(vt, 0, Int16Bytes(|vt|))
    ensures ReadInt16(vt + x, 0) == |vt|
  {
    assert (vt + x)[0..2] == vt[0..2];
    ReadsInt16(vt + x, 0, |vt|);
  }

  lemma MatchedBytes(d: seq<byte>, v: nat, n: nat)
    requires 2 * n <= v <= |d| && ReadInt16(d, 0) == 2 * n && VtableMatches(d, v, 2 * n)
    ensures d[0..2 * n] == d[|d| - v..|d| - v + 2 * n]
  {
    hide ReadInt16;
    forall k: nat | k < n ensures ReadInt16(d, 0 + 2 * k) == ReadInt16(d, |d| - v + 2 * k) {
      if k == 0 {
        assert 0 + 2 * k == 0 && |d| - v + 2 * k == |d| - v;
      }
    }
    SameWords(d, 0, |d| - v, n);
  }

  /** A match found by word comparison has the bytes of the new vtable, at a place that predates it. */
  lemma MatchIsStored(d0: seq<byte>, x: seq<byte>, vt: seq<byte>, v: nat)
    requires IsVtable(d0, v) && |vt| % 2 == 0 && 4 <= |vt| && HoldsAt(vt, 0, Int16Bytes(|vt|))
    requires VtableMatches(vt + (x + d0), v, |vt|)
    ensures StoredAt(d0, v, vt)
  {
    hide ReadInt16, VtableMatches;
    var d := vt + (x + d0);
    assert d == (vt + x) + d0;
    MatchInRange(d0, vt + x, v, |vt|);
    FirstWord(vt, x + d0);
    MatchedBytes(d, v, |vt| / 2);
    assert d[0..|vt|] == vt;
    assert d0[|d0| - v..|d0| - v + |vt|] == d[|d| - v..|d| - v + |vt|];
  }
}

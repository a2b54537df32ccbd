/** One store and one index over an interval of offsets (`internal/log/segment.go`). */
module Segments {
  import opened Bytes
  import opened RecordCodec
  import opened Frames
  import opened LogModel
  import opened Names
  import opened Directories
  import StoreFile
  import IndexFile

  /** A record held by reference: appending overwrites its offset. */
  class RecordRef {
    var value: Record

    constructor (value: Record)
      ensures this.value == value
    {
      this.value := value;
    }
  }

  /** What `segment.Read(off)` finds: the 64-bit difference goes through the index as a signed
      number, and the frame it points at is decoded. */
  function ReadSegment(s: Seg, off: uint64): Option<Record> {
    var diff := Wrap64(off - s.base);
    match IndexFile.Lookup(IndexBytes(s), if diff < TWO63 then diff else diff - TWO64)
    case None => None
    case Some((_, pos)) =>
      match FrameAt(StoreBytes(s), pos)
      case None => None
      case Some(p) => Unmarshal(p)
  }

  lemma PositionsBounded(c: Limits, s: Seg)
    requires SegOk(c, s)
    ensures forall k :: 0 <= k < |s.recs| ==> Position(s.recs, k) < TWO63
  {
    hide Stream, Entries;
    forall k | 0 <= k < |s.recs| ensures Position(s.recs, k) < TWO63 {
      if k < |s.recs| - 1 { IndexFile.PositionsIncrease(s.recs, k, |s.recs| - 1); }
    }
  }

  lemma StoreHolds(s: Seg, i: nat)
    requires i < |s.recs|
    ensures FrameAt(StoreBytes(s), Position(s.recs, i)) == Some(Marshal(s.recs[i]))
  {
    hide FrameAt, Stream, Marshal;
    StreamConcat(s.recs, s.junk);
    FrameAtPosition(s.recs, i, Stream(s.junk));
  }

  /** A segment's files tell its next offset. */
  lemma LastEntry(c: Limits, s: Seg)
    requires Supported(c) && SegOk(c, s)
    ensures |IndexBytes(s)| <= c.index
    ensures var last := IndexFile.Lookup(IndexBytes(s), -1);
            Next(s) == if last.None? then s.base else s.base + last.value.0 + 1
  {
    hide Entries, IndexFile.Lookup;
    PositionsBounded(c, s);
    IndexFile.LookupExact(s.recs, -1);
  }

  /** The record an offset leads to: the last one if the 64-bit difference to the base is all ones,
      and otherwise the one whose number agrees with the difference in the low 32 bits. */
  function ReadSlot(s: Seg, off: uint64): int {
    var diff := Wrap64(off - s.base);
    if diff == TWO64 - 1 then |s.recs| - 1 else diff % TWO32
  }

  /** Every 64-bit offset, inside the segment or not, reads the record it leads to, or nothing. */
  lemma ReadSegmentExact(c: Limits, s: Seg, off: uint64)
    requires Supported(c) && SegOk(c, s)
    ensures var slot := ReadSlot(s, off);
            ReadSegment(s, off) == if 0 <= slot < |s.recs| then Some(s.recs[slot]) else None
  {
    hide Stream, Entries, FrameAt, Marshal, Unmarshal, IndexFile.Lookup;
    PositionsBounded(c, s);
    var diff := Wrap64(off - s.base);
    var i := if diff < TWO63 then diff else diff - TWO64;
    var slot := ReadSlot(s, off);
    LowBits(diff);
    assert slot == IndexFile.Slot(|s.recs|, i);
    IndexFile.LookupExact(s.recs, i);
    if 0 <= slot < |s.recs| {
      StoreHolds(s, slot);
      UnmarshalMarshal(s.recs[slot]);
    }
  }

  lemma LowBits(n: int)
    ensures (n - TWO64) % TWO32 == n % TWO32
  {
    assert TWO64 == TWO32 * TWO32;
  }

  /** An offset outside the segment that leads to one of its records all the same. */
  predicate Misled(s: Seg, off: uint64) {
    var diff := Wrap64(off - s.base);
    !(s.base <= off < Next(s)) && s.recs != [] && (diff == TWO64 - 1 || diff % TWO32 < |s.recs|)
  }

  /** `segment.Read` answers the segment's interval of offsets with its records, and nothing else,
      exactly as long as the offset is not one of the misled ones. */
  lemma ReadSegmentIff(c: Limits, s: Seg, off: uint64)
    requires Supported(c) && SegOk(c, s) && Next(s) < TWO64
    ensures ReadSegment(s, off) == Lookup(s.base, s.recs, off) <==> !Misled(s, off)
  {
    hide ReadSegment, SegOk;
    ReadSegmentExact(c, s, off);
    assert |s.recs| <= TWO32 by { FewRecords(c, s); }
    if s.base <= off < Next(s) {
      assert Wrap64(off - s.base) == off - s.base;
    }
  }

  lemma FewRecords(c: Limits, s: Seg)
    requires Supported(c) && SegOk(c, s)
    ensures |s.recs| <= TWO32
  {
  }

  /** Two such offsets for every non-empty segment: 2^32 above the base, and, in 64 bits, just
      below it. `Log.Read` asks for neither. */
  lemma MisledOffsets(s: Seg)
    requires s.recs != [] && |s.recs| <= TWO32 && Next(s) < TWO64
    ensures s.base + TWO32 < TWO64 ==> Misled(s, s.base + TWO32) && ReadSlot(s, s.base + TWO32) == 0
    ensures Misled(s, Wrap64(s.base - 1)) && ReadSlot(s, Wrap64(s.base - 1)) == |s.recs| - 1
  {
    assert Wrap64(Wrap64(s.base - 1) - s.base) == TWO64 - 1;
  }

  /** In every segment, index entry `i` holds relative offset `i` and the position where a scan from
      frame to frame finds frame `i`; the indexed frames and those of refused appends behind them
      tile the store. */
  lemma IndexPointsAtFrames(c: Limits, s: Seg, i: nat)
    requires Supported(c) && SegOk(c, s)
    ensures i < |s.recs| ==>
              && Scan(StoreBytes(s), i).Some? && Scan(StoreBytes(s), i).value < TWO64
              && DecodeEntry(IndexBytes(s), i) == (i, Scan(StoreBytes(s), i).value)
    ensures |IndexBytes(s)| == ENTRY_WIDTH * |s.recs|
    ensures Scan(StoreBytes(s), |s.recs + s.junk|) == Some(|StoreBytes(s)|)
  {
    hide Stream, Entries, Scan, DecodeEntry;
    var all := s.recs + s.junk;
    ScanFinds(all, |all|);
    if i < |s.recs| {
      ScanFinds(all, i);
      assert all[..i] == s.recs[..i];
      PositionsBounded(c, s);
      DecodeEntries(s.recs, i);
    }
  }

  class Segment {
    const dir: Directory
    const store: StoreFile.Store
    const index: IndexFile.Index
    const baseOffset: uint64
    const limits: Limits
    var nextOffset: uint64
    ghost var recs: seq<Record>
    ghost var junk: seq<Record>

    ghost const repr: set<object>

    ghost function Value(): Seg
      reads this
    {
      Seg(baseOffset, recs, junk)
    }

    /** The two files hold exactly the bytes of the value. */
    ghost predicate Valid()
      reads this, repr
      ensures Valid() ==> repr == {this, store, index, index.mmap}
    {
      && repr == {this, store, index, index.mmap}
      && Supported(limits)
      && store.Valid() && index.Valid() && index.mmap.Length == limits.index
      && SegOk(limits, Value())
      && nextOffset == Next(Value())
      && store.Contents() == StoreBytes(Value())
      && index.Contents() == IndexBytes(Value())
    }

    /** Opens or creates the segment at `base`; `value` is what its files hold. */
    constructor (dir: Directory, base: uint64, limits: Limits, ghost value: Seg)
      requires Supported(limits) && SegOk(limits, value)
      requires value.base == base && Next(value) < TWO64
      requires Content(dir.files, StoreName(base)) == StoreBytes(value)
      requires Content(dir.files, IndexName(base)) == IndexBytes(value)
      modifies dir
      ensures Valid() && Value() == value
      ensures this.dir == dir && this.limits == limits
      ensures fresh(repr)
      ensures dir.files == old(dir.files)[StoreName(base) := StoreBytes(value)]
                                         [IndexName(base) := IndexBytes(value)]
    {
      hide StoreBytes, IndexBytes, Decimal, IndexFile.Lookup, SegOk;
      this.dir, this.limits, this.baseOffset := dir, limits, base;
      recs, junk := value.recs, value.junk;
      NamesDiffer(base, base);
      LastEntry(limits, value);
      var storeContent := dir.OpenOrCreate(StoreName(base));
      var st := new StoreFile.Store(storeContent);
      store := st;
      var indexContent := dir.OpenOrCreate(IndexName(base));
      var i := new IndexFile.Index(indexContent, limits.index);
      index := i;
      var last := i.Read(-1);
      repr := {this, st, i, i.mmap};
      if last.None? {
        nextOffset := base;
      } else {
        nextOffset := base + last.value.0 + 1;
      }
    }

    /** `IsMaxed`. */
    predicate IsMaxed()
      requires Valid()
      reads this, repr
      ensures IsMaxed() <==> Maxed(limits, Value())
      ensures IsMaxed() <==> |store.Contents()| >= limits.store || |index.Contents()| >= limits.index
    {
      store.size >= limits.store || index.size >= limits.index
    }

    /** Stamps the record with the next offset, stores it and indexes it. With the index full the
        frame is left behind unindexed and the append fails. */
    method Append(record: RecordRef) returns (r: Option<uint64>)
      requires Valid() && nextOffset < TWO64 - 1
      requires !Full(limits, Value()) ==> |StoreBytes(Value())| < TWO63
      modifies repr, record
      ensures Valid()
      ensures record.value.offset == old(nextOffset) && record.value.value == old(record.value.value)
      ensures record.value.term == old(record.value.term) && record.value.kind == old(record.value.kind)
      ensures r == if old(Full(limits, Value())) then None else Some(old(nextOffset))
      ensures Value() == if r.Some? then old(Value()).(recs := old(recs) + [record.value])
                                    else old(Value()).(junk := old(junk) + [record.value])
    {
      hide StoreBytes, IndexBytes, SegOk, RecordFrame, Size, Entry;
      var cur := nextOffset;
      var pos := StoreRecord(record);
      var off: uint32 := (nextOffset - baseOffset) % TWO32;
      var ok := index.Write(off, Wrap64(pos));
      if !ok {
        JunkOne(limits, Value(), record.value);
        junk := junk + [record.value];
        return None;
      }
      IndexOne(limits, Value(), record.value);
      assert off == |recs| && pos == |StoreBytes(old(Value()))|;
      recs := recs + [record.value];
      nextOffset := nextOffset + 1;
      return Some(cur);
    }

    /** Stamps the record and adds its frame to the store. */
    method StoreRecord(record: RecordRef) returns (pos: nat)
      requires store.Valid()
      modifies store, record
      ensures store.Valid() && pos == |old(store.Contents())|
      ensures record.value.offset == nextOffset && record.value.value == old(record.value.value)
      ensures record.value.term == old(record.value.term) && record.value.kind == old(record.value.kind)
      ensures store.Contents() == old(store.Contents()) + RecordFrame(record.value)
    {
      hide Marshal, MessageSize;
      record.value := record.value.(offset := nextOffset);
      var p := Marshal(record.value);
      MarshalLength(record.value);
      var n;
      n, pos := store.Append(p);
    }

    /** Looks `off` up in the index and decodes the frame it points at. */
    method Read(off: uint64) returns (r: Option<Record>)
      requires Valid()
      modifies store
      ensures Valid() && Value() == old(Value())
      ensures r == ReadSegment(Value(), off)
      ensures !Misled(Value(), off) ==> r == Lookup(baseOffset, recs, off)
    {
      hide Stream, Entries, FrameAt, Unmarshal, IndexFile.Lookup;
      ReadSegmentIff(limits, Value(), off);
      var diff := Wrap64(off - baseOffset);
      var e := index.Read(if diff < TWO63 then diff else diff - TWO64);
      if e.None? {
        return None;
      }
      var p := store.Read(e.value.1);
      if p.None? {
        return None;
      }
      r := Unmarshal(p.value);
    }

    /** Leaves both files in the directory, the index cut to its true size. */
    method Close()
      requires Valid()
      modifies store, dir
      ensures Valid() && Value() == old(Value())
      ensures dir.files == old(dir.files)[IndexName(baseOffset) := IndexBytes(Value())]
                                         [StoreName(baseOffset) := StoreBytes(Value())]
    {
      hide Stream, Entries;
      var indexContent := index.Close();
      dir.files := dir.files[IndexName(baseOffset) := indexContent];
      var storeContent := store.Close();
      dir.files := dir.files[StoreName(baseOffset) := storeContent];
    }

    /** Closes the segment and deletes its two files. */
    method Remove()
      requires Valid()
      modifies store, dir
      ensures Valid() && Value() == old(Value())
      ensures dir.files == old(dir.files) - {IndexName(baseOffset), StoreName(baseOffset)}
    {
      hide Stream, Entries;
      Close();
      dir.files := dir.files - {IndexName(baseOffset)};
      dir.files := dir.files - {StoreName(baseOffset)};
    }
  }
}

/** Open segments and the values they stand for. */
module Stack {
  import opened Bytes
  import opened RecordCodec
  import opened LogModel
  import opened Names
  import opened Directories
  import opened Segments

  /** The segment `s` is open on `dir` and is what `v` says. */
  ghost predicate Mirror(s: Segment, v: Seg, dir: Directory, c: Limits)
    reads s, s.repr
    ensures Mirror(s, v, dir, c) ==>
              && dir !in s.repr && s in s.repr && s.store in s.repr
              && s.baseOffset == v.base && s.nextOffset == Next(v)
  {
    s.dir == dir && s.limits == c && dir !in s.repr && s.Valid() && s.Value() == v
  }

  /** The segments are, one by one, what `l` says, and share no file. */
  ghost predicate Mirrors(ss: seq<Segment>, l: seq<Seg>, dir: Directory, c: Limits)
    reads ss, set s, o | s in ss && o in s.repr :: o
    ensures Mirrors(ss, l, dir, c) ==> |ss| == |l|
  {
    && |ss| == |l|
    && (forall i, j :: 0 <= i < j < |ss| ==> ss[i].repr !! ss[j].repr)
    && (forall i :: 0 <= i < |ss| ==> Mirror(ss[i], l[i], dir, c))
  }

  method OpenSegment(dir: Directory, off: uint64, c: Limits, ghost value: Seg) returns (s: Segment)
    requires Supported(c) && SegOk(c, value) && value.base == off && Next(value) < TWO64
    requires Content(dir.files, StoreName(off)) == StoreBytes(value)
    requires Content(dir.files, IndexName(off)) == IndexBytes(value)
    modifies dir
    ensures fresh(s) && fresh(s.repr) && Mirror(s, value, dir, c)
    ensures dir.files == old(dir.files)[StoreName(off) := StoreBytes(value)]
                                       [IndexName(off) := IndexBytes(value)]
  {
    s := new Segment(dir, off, c, value);
  }

  lemma StoreOf(s: Segment, v: Seg, dir: Directory, c: Limits)
    requires Mirror(s, v, dir, c)
    ensures s.store.Valid() && s.store.Contents() == StoreBytes(v)
  {
    hide StoreBytes, IndexBytes, SegOk;
  }

  lemma RecordApart(s: Segment, v: Seg, dir: Directory, c: Limits, record: RecordRef)
    requires Mirror(s, v, dir, c)
    ensures record !in s.repr
  {
    assert s.Valid();
  }

  method AppendMirrored(s: Segment, record: RecordRef, ghost v: Seg, ghost dir: Directory, ghost c: Limits)
    returns (r: Option<uint64>)
    requires Mirror(s, v, dir, c) && Next(v) < TWO64 - 1
    requires !Full(c, v) ==> |StoreBytes(v)| < TWO63
    modifies s.repr, record
    ensures record.value == Stamp(old(record.value), Next(v))
    ensures r == if Full(c, v) then None else Some(Next(v))
    ensures Mirror(s, Grown(c, v, old(record.value)), dir, c)
  {
    hide Full, StoreBytes, IndexBytes, SegOk;
    r := s.Append(record);
  }

  method ReadMirrored(s: Segment, off: uint64, ghost v: Seg, ghost dir: Directory, ghost c: Limits)
    returns (r: Option<Record>)
    requires Mirror(s, v, dir, c)
    modifies s.store
    ensures Mirror(s, v, dir, c)
    ensures v.base <= off < Next(v) ==> r == Some(v.recs[off - v.base])
  {
    hide StoreBytes, IndexBytes, SegOk, ReadSegment;
    r := s.Read(off);
  }

  method CloseMirrored(s: Segment, ghost v: Seg, dir: Directory, ghost c: Limits)
    requires Mirror(s, v, dir, c)
    modifies s.store, dir
    ensures Mirror(s, v, dir, c)
    ensures dir.files == old(dir.files)[IndexName(v.base) := IndexBytes(v)][StoreName(v.base) := StoreBytes(v)]
  {
    hide StoreBytes, IndexBytes, SegOk, IndexName, StoreName;
    s.Close();
  }

  method RemoveMirrored(s: Segment, ghost v: Seg, dir: Directory, ghost c: Limits)
    requires Mirror(s, v, dir, c)
    modifies s.store, dir
    ensures Mirror(s, v, dir, c)
    ensures dir.files == old(dir.files) - {IndexName(v.base), StoreName(v.base)}
  {
    hide StoreBytes, IndexBytes, SegOk, IndexName, StoreName;
    s.Remove();
  }
}

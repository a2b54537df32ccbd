/** Length-prefixed frames: how a store lays out its records, and how an index points at them. */
module Frames {
  import opened Bytes
  import opened RecordCodec

  const LEN_WIDTH: nat := 8
  const OFF_WIDTH: nat := 4
  const POS_WIDTH: nat := 8
  const ENTRY_WIDTH: nat := 12

  function Frame(p: seq<byte>): seq<byte>
    requires |p| < TWO64
  {
    Put64(|p|) + p
  }

  function RecordFrame(r: Record): (f: seq<byte>)
    ensures |f| == LEN_WIDTH + MessageSize(r) < LEN_WIDTH + MAX_MESSAGE
  {
    MarshalLength(r);
    Frame(Marshal(r))
  }

  /** How many bytes the frames of `rs` take. */
  function Size(rs: seq<Record>): nat {
    if rs == [] then 0 else Size(rs[..|rs| - 1]) + LEN_WIDTH + MessageSize(rs[|rs| - 1])
  }

  /** Every frame adds at least its length field. */
  lemma {:induction false} SizeGrows(rs: seq<Record>, i: nat)
    requires i <= |rs|
    ensures Size(rs[..i]) + LEN_WIDTH * (|rs| - i) <= Size(rs)
  {
    hide MessageSize;
    if i < |rs| {
      SizeGrows(rs[..|rs| - 1], i);
      assert rs[..|rs| - 1][..i] == rs[..i];
    } else {
      assert rs[..i] == rs;
    }
  }

  /** The frames of `rs`, one after the other. */
  function Stream(rs: seq<Record>): (s: seq<byte>)
    ensures |s| == Size(rs)
  {
    if rs == [] then [] else Stream(rs[..|rs| - 1]) + RecordFrame(rs[|rs| - 1])
  }

  lemma {:induction false} StreamConcat(a: seq<Record>, b: seq<Record>)
    ensures Stream(a + b) == Stream(a) + Stream(b)
  {
    hide RecordFrame, MessageSize, Size;
    if b == [] {
      assert a + b == a;
    } else {
      var b' := b[..|b| - 1];
      StreamConcat(a, b');
      assert (a + b)[..|a + b| - 1] == a + b';
    }
  }

  lemma StreamSplit(rs: seq<Record>, i: nat)
    requires i <= |rs|
    ensures Stream(rs) == Stream(rs[..i]) + Stream(rs[i..])
  {
    hide Stream, Size;
    StreamConcat(rs[..i], rs[i..]);
    assert rs == rs[..i] + rs[i..];
  }

  lemma StreamSnoc(rs: seq<Record>, r: Record)
    ensures Stream(rs + [r]) == Stream(rs) + RecordFrame(r)
  {
    assert (rs + [r])[..|rs|] == rs;
  }

  lemma StreamHead(rs: seq<Record>)
    requires rs != []
    ensures Stream(rs) == RecordFrame(rs[0]) + Stream(rs[1..])
  {
    hide RecordFrame, MessageSize, Size;
    StreamSplit(rs, 1);
    assert rs[..1] == [rs[0]];
    assert Stream([rs[0]]) == Stream([]) + RecordFrame(rs[0]);
  }

  /** Where frame `i` starts. */
  function Position(rs: seq<Record>, i: nat): nat
    requires i <= |rs|
  {
    Size(rs[..i])
  }

  // ---------------------------------------------------------------- reading frames

  /** The body of the frame at `pos`, as `store.Read` extracts it. */
  function FrameAt(bytes: seq<byte>, pos: nat): Option<seq<byte>> {
    if pos + LEN_WIDTH > |bytes| then None
    else
      var len := Get64(bytes[pos..pos + LEN_WIDTH]);
      if pos + LEN_WIDTH + len > |bytes| then None
      else Some(bytes[pos + LEN_WIDTH..pos + LEN_WIDTH + len])
  }

  lemma FrameAtHead(before: seq<byte>, p: seq<byte>, after: seq<byte>)
    requires |p| < TWO64
    ensures FrameAt(before + Frame(p) + after, |before|) == Some(p)
  {
    var bytes := before + Frame(p) + after;
    assert bytes[|before|..|before| + LEN_WIDTH] == Put64(|p|);
    GetPut64(|p|);
    assert bytes[|before| + LEN_WIDTH..|before| + LEN_WIDTH + |p|] == p;
  }

  /** A read at `pos` gives exactly the body whose frame stands there, whole. */
  lemma FrameAtIff(bytes: seq<byte>, pos: nat, p: seq<byte>)
    requires |p| < TWO64
    ensures FrameAt(bytes, pos) == Some(p) <==>
              pos + |Frame(p)| <= |bytes| && bytes[pos..pos + |Frame(p)|] == Frame(p)
  {
    var end := pos + |Frame(p)|;
    if end <= |bytes| && bytes[pos..end] == Frame(p) {
      FrameAtHead(bytes[..pos], p, bytes[end..]);
      assert bytes == bytes[..pos] + Frame(p) + bytes[end..];
    }
    if FrameAt(bytes, pos) == Some(p) {
      assert bytes[pos..end] == bytes[pos..pos + LEN_WIDTH] + bytes[pos + LEN_WIDTH..end];
    }
  }

  /** The bytes of a frame and of an index entry: an eight-byte length; a four-byte relative offset and
      an eight-byte position; all most significant byte first. */
  lemma Layout(p: seq<byte>, off: uint32, pos: uint64)
    requires |p| < 0x100
    ensures Frame(p) == [0, 0, 0, 0, 0, 0, 0, |p|] + p
    ensures Entry(off, pos) == [off / 0x100_0000, off / 0x1_0000 % 256, off / 0x100 % 256, off % 256]
                               + [pos / 0x100_0000_0000_0000, pos / 0x1_0000_0000_0000 % 256,
                                  pos / 0x100_0000_0000 % 256, pos / 0x1_0000_0000 % 256,
                                  pos / 0x100_0000 % 256, pos / 0x1_0000 % 256, pos / 0x100 % 256, pos % 256]
  {
    hide Put64, Put32, BigEndian;
    Put64Layout(|p|);
    Put32Layout(off);
    Put64Layout(pos);
    assert Entry(off, pos) == Put32(off) + Put64(pos) by { EntryIs(off, pos); }
  }

  lemma EntryIs(off: uint32, pos: uint64)
    ensures Entry(off, pos) == Put32(off) + Put64(pos)
  {
  }

  lemma StreamAround(rs: seq<Record>, i: nat)
    requires i < |rs|
    ensures Stream(rs) == Stream(rs[..i]) + (RecordFrame(rs[i]) + Stream(rs[i + 1..]))
  {
    hide RecordFrame, MessageSize, Size;
    StreamSplit(rs, i);
    StreamHead(rs[i..]);
    assert rs[i..][1..] == rs[i + 1..];
  }

  /** Frame `i` is read back from its position, whatever follows the frames. */
  lemma FrameAtPosition(rs: seq<Record>, i: nat, after: seq<byte>)
    requires i < |rs|
    ensures FrameAt(Stream(rs) + after, Position(rs, i)) == Some(Marshal(rs[i]))
  {
    hide Marshal, MessageSize, FrameAt, Stream, Size, Frame;
    var rest := Stream(rs[i + 1..]) + after;
    StreamAround(rs, i);
    assert Stream(rs) + after == Stream(rs[..i]) + RecordFrame(rs[i]) + rest;
    MarshalLength(rs[i]);
    FrameAtHead(Stream(rs[..i]), Marshal(rs[i]), rest);
  }

  /** Where a reader that hops from frame to frame stands after `i` frames. */
  function Scan(bytes: seq<byte>, i: nat): Option<nat> {
    if i == 0 then Some(0)
    else
      match Scan(bytes, i - 1)
      case None => None
      case Some(pos) =>
        match FrameAt(bytes, pos)
        case None => None
        case Some(p) => Some(pos + LEN_WIDTH + |p|)
  }

  /** Scanning frame by frame finds every frame at its position, and the last hop ends the stream:
      the frames tile it. */
  lemma {:induction false} ScanFinds(rs: seq<Record>, i: nat)
    requires i <= |rs|
    ensures Scan(Stream(rs), i) == Some(Position(rs, i))
    ensures Position(rs, |rs|) == |Stream(rs)|
  {
    hide FrameAt, MessageSize, Stream;
    assert rs[..|rs|] == rs;
    if i > 0 {
      ScanFinds(rs, i - 1);
      FrameAtPosition(rs, i - 1, []);
      assert Stream(rs) + [] == Stream(rs);
      assert rs[..i][..i - 1] == rs[..i - 1];
    }
  }

  // ---------------------------------------------------------------- index entries

  function Entry(off: nat, pos: nat): (e: seq<byte>)
    ensures |e| == ENTRY_WIDTH
  {
    BigEndian(off, OFF_WIDTH) + BigEndian(pos, POS_WIDTH)
  }

  /** The index of a store that holds `rs`: entry `i` carries relative offset `i` and position `i`. */
  function Entries(rs: seq<Record>): (e: seq<byte>)
    ensures |e| == ENTRY_WIDTH * |rs|
  {
    if rs == [] then []
    else
      var rs' := rs[..|rs| - 1];
      Entries(rs') + Entry(|rs'|, |Stream(rs')|)
  }

  lemma EntriesSnoc(rs: seq<Record>, r: Record)
    ensures Entries(rs + [r]) == Entries(rs) + Entry(|rs|, |Stream(rs)|)
  {
    assert (rs + [r])[..|rs|] == rs;
  }

  lemma {:induction false} EntryAt(rs: seq<Record>, i: nat)
    requires i < |rs|
    ensures Entries(rs)[ENTRY_WIDTH * i..ENTRY_WIDTH * i + ENTRY_WIDTH] == Entry(i, Position(rs, i))
  {
    hide RecordFrame, MessageSize, Size;
    var rs' := rs[..|rs| - 1];
    if i < |rs'| {
      EntryAt(rs', i);
      assert rs'[..i] == rs[..i];
      assert Entries(rs)[ENTRY_WIDTH * i..ENTRY_WIDTH * i + ENTRY_WIDTH]
          == Entries(rs')[ENTRY_WIDTH * i..ENTRY_WIDTH * i + ENTRY_WIDTH];
    }
  }

  /** Relative offset and position held by entry `i`, as `index.Read` decodes them. */
  function DecodeEntry(bytes: seq<byte>, i: nat): (r: (uint32, uint64))
    requires ENTRY_WIDTH * i + ENTRY_WIDTH <= |bytes|
  {
    var e := bytes[ENTRY_WIDTH * i..ENTRY_WIDTH * i + ENTRY_WIDTH];
    (Get32(e[..OFF_WIDTH]), Get64(e[OFF_WIDTH..]))
  }

  lemma DecodeEntries(rs: seq<Record>, i: nat)
    requires i < |rs| && i < TWO32 && Position(rs, i) < TWO64
    ensures DecodeEntry(Entries(rs), i) == (i, Position(rs, i))
  {
    EntryAt(rs, i);
    var e := Entry(i, Position(rs, i));
    assert e[..OFF_WIDTH] == Put32(i);
    assert e[OFF_WIDTH..] == Put64(Position(rs, i));
    GetPut32(i);
    GetPut64(Position(rs, i));
  }
}

/** Raft log entries and their two encodings. */
module RaftEntries {
  import opened Bytes
  import opened RecordCodec

  /** `raft.Log` without extensions and append time. */
  datatype Entry = Entry(index: uint64, term: uint64, kind: byte, data: Payload)

  /** What the segment-backed store appends; the index is not part of it. */
  function ToRecord(e: Entry): Record {
    Record(e.data, 0, e.term, e.kind)
  }

  /** What it reads back: the type is cut to 8 bits. */
  function FromRecord(r: Record): Entry {
    Entry(r.offset, r.term, r.kind % 256, r.value)
  }

  function EncodeEntry(e: Entry): seq<byte> {
    Put64(e.index) + Put64(e.term) + [e.kind] + e.data
  }

  function DecodeEntry(s: seq<byte>): Option<Entry> {
    if |s| < 17 || |s| - 17 > MAX_VALUE then None
    else Some(Entry(Get64(s[..8]), Get64(s[8..16]), s[16], s[17..]))
  }

  lemma EntryRoundTrip(e: Entry)
    ensures DecodeEntry(EncodeEntry(e)) == Some(e)
  {
    var s := EncodeEntry(e);
    assert s[..8] == Put64(e.index) && s[8..16] == Put64(e.term) && s[17..] == e.data;
    GetPut64(e.index);
    GetPut64(e.term);
  }
}

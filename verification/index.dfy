/** The memory-mapped index file (`internal/log/index.go`). */
module IndexFile {
  import opened Bytes
  import opened RecordCodec
  import opened Frames

  class Index {
    const mmap: array<byte>
    var size: nat

    ghost predicate Valid()
      reads this
    {
      size <= mmap.Length
    }

    /** The bytes of the entries written so far. */
    ghost function Contents(): seq<byte>
      requires Valid()
      reads this, mmap
    {
      mmap[..size]
    }

    /** Opens a file: its true size is kept, its mapping is cut or zero-filled to the limit. */
    constructor (content: seq<byte>, maxIndexBytes: nat)
      ensures fresh(mmap) && mmap.Length == maxIndexBytes
      ensures Valid() <==> |content| <= maxIndexBytes
      ensures Valid() ==> Contents() == content
    {
      mmap := new byte[maxIndexBytes](i => if 0 <= i < |content| then content[i] else 0);
      size := |content|;
    }

    /** Appends an entry, or refuses when the mapping has no room for it. */
    method Write(off: uint32, pos: uint64) returns (ok: bool)
      requires Valid()
      modifies this, mmap
      ensures Valid()
      ensures ok <==> old(size) + ENTRY_WIDTH <= mmap.Length
      ensures Contents() == if ok then old(Contents()) + Entry(off, pos) else old(Contents())
    {
      if mmap.Length < size + ENTRY_WIDTH {
        return false;
      }
      var o, p := Put32(off), Put64(pos);
      forall k | 0 <= k < OFF_WIDTH { mmap[size + k] := o[k]; }
      forall k | 0 <= k < POS_WIDTH { mmap[size + OFF_WIDTH + k] := p[k]; }
      assert mmap[size..size + ENTRY_WIDTH] == Entry(off, pos);
      assert mmap[..size + ENTRY_WIDTH] == mmap[..size] + mmap[size..size + ENTRY_WIDTH];
      size := size + ENTRY_WIDTH;
      return true;
    }

    /** Entry `i`, or the last entry for -1; none at the end of the index. */
    method Read(i: int) returns (r: Option<(uint32, uint64)>)
      requires Valid()
      requires -TWO63 <= i < TWO63
      ensures r == Lookup(Contents(), i)
    {
      hide Put32, Put64;
      if size == 0 {
        return None;
      }
      var slot: uint32 := (if i == -1 then size / ENTRY_WIDTH - 1 else i) % TWO32;
      var pos := slot * ENTRY_WIDTH;
      if size < pos + ENTRY_WIDTH {
        return None;
      }
      var e := mmap[pos..pos + ENTRY_WIDTH];
      assert e == Contents()[pos..pos + ENTRY_WIDTH];
      return Some((Get32(e[..OFF_WIDTH]), Get64(e[OFF_WIDTH..])));
    }

    /** What the file holds once closed: cut back to its true size. */
    method Close() returns (content: seq<byte>)
      requires Valid()
      ensures content == Contents()
    {
      content := mmap[..size];
    }
  }

  /** `index.Read` on the bytes of the entries: the argument is cut to 32 bits. */
  function Lookup(bytes: seq<byte>, i: int): Option<(uint32, uint64)> {
    if bytes == [] then None
    else
      var slot := (if i == -1 then |bytes| / ENTRY_WIDTH - 1 else i) % TWO32;
      if |bytes| < ENTRY_WIDTH * slot + ENTRY_WIDTH then None
      else Some(DecodeEntry(bytes, slot))
  }

  /** The entry a signed argument leads to among `n`: the last one for -1, and otherwise the one
      whose number agrees with the argument in the low 32 bits. */
  function Slot(n: nat, i: int): int {
    if i == -1 then n - 1 else i % TWO32
  }

  /** Up to 2^32 entries, every 64-bit argument finds the entry it leads to, or none. */
  lemma LookupExact(rs: seq<Record>, i: int)
    requires |rs| <= TWO32 && -TWO63 <= i < TWO63
    requires forall k :: 0 <= k < |rs| ==> Position(rs, k) < TWO64
    ensures var slot := Slot(|rs|, i);
            Lookup(Entries(rs), i) ==
            if 0 <= slot < |rs| then Some((slot, Position(rs, slot))) else None
  {
    hide Size, Entries, DecodeEntry;
    var slot := Slot(|rs|, i);
    if 0 <= slot < |rs| {
      DecodeEntries(rs, slot);
    }
  }

  lemma PositionsIncrease(rs: seq<Record>, i: nat, j: nat)
    requires i < j <= |rs|
    ensures Position(rs, i) < Position(rs, j)
  {
    hide Size;
    SizeGrows(rs[..j], i);
    assert rs[..j][..i] == rs[..i];
  }

  /** Beyond that the lookup goes wrong: an entry is found at its own position exactly when its
      number fits in 32 bits. */
  lemma LookupNeeds32Bits(rs: seq<Record>, i: nat)
    requires i < |rs|
    requires forall k :: 0 <= k < |rs| ==> Position(rs, k) < TWO64
    ensures var r := Lookup(Entries(rs), i);
            r.Some? && (r.value.1 == Position(rs, i) <==> i < TWO32)
  {
    hide Size, Entries, DecodeEntry;
    var slot := i % TWO32;
    assert slot <= i;
    DecodeEntries(rs, slot);
    if i >= TWO32 {
      PositionsIncrease(rs, slot, i);
    }
  }
}

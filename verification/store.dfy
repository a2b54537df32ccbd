/** The append-only store file behind its write buffer (`internal/log/store.go`). */
module StoreFile {
  import opened Bytes
  import opened Frames

  class Store {
    var file: seq<byte>  // what the operating system holds
    var buf: seq<byte>   // what the buffered writer still holds back
    var size: nat

    ghost predicate Valid()
      reads this
    {
      size == |file| + |buf|
    }

    /** The logical bytes of the store. */
    ghost function Contents(): seq<byte>
      reads this
    {
      file + buf
    }

    constructor (content: seq<byte>)
      ensures Valid()
      ensures Contents() == content
    {
      file, buf, size := content, [], |content|;
    }

    /** A buffered write: any prefix of what is pending may reach the file. */
    method Write(p: seq<byte>)
      modifies this`file, this`buf
      ensures Contents() == old(Contents()) + p
      ensures old(file) <= file
    {
      var pending := buf + p;
      var k: nat :| k <= |pending|;
      file, buf := file + pending[..k], pending[k..];
      assert file + buf == old(file) + pending;
    }

    method Flush()
      modifies this`file, this`buf
      ensures buf == []
      ensures file == Contents() == old(Contents())
    {
      file, buf := file + buf, [];
    }

    /** Adds one frame and returns its length and the position it starts at. */
    method Append(p: seq<byte>) returns (n: nat, pos: nat)
      requires Valid()
      requires |p| < TWO64
      modifies this
      ensures Valid()
      ensures n == |Frame(p)| && pos == |old(Contents())|
      ensures Contents() == old(Contents()) + Frame(p)
    {
      pos := size;
      Write(Put64(|p|));
      Write(p);
      n := |p| + LEN_WIDTH;
      size := size + n;
    }

    /** The body of the frame at `pos`; flushes, and so never misses buffered bytes. */
    method Read(pos: nat) returns (r: Option<seq<byte>>)
      requires Valid()
      modifies this
      ensures Valid()
      ensures Contents() == file == old(Contents()) && size == old(size)
      ensures r == FrameAt(Contents(), pos)
    {
      Flush();
      if pos + LEN_WIDTH > |file| {
        return None;
      }
      var len := Get64(file[pos..pos + LEN_WIDTH]);
      if pos + LEN_WIDTH + len > |file| {
        return None;
      }
      r := Some(file[pos + LEN_WIDTH..pos + LEN_WIDTH + len]);
    }

    /** Up to `len` bytes from `off`; end of file exactly when fewer are there. */
    method ReadAt(len: nat, off: nat) returns (p: seq<byte>, eof: bool)
      requires Valid()
      modifies this
      ensures Valid()
      ensures Contents() == file == old(Contents()) && size == old(size)
      ensures off <= |Contents()| ==> p <= Contents()[off..]
      ensures |p| <= len && (eof <==> |p| < len)
      ensures eof ==> off + |p| >= |Contents()|
    {
      Flush();
      if off >= |file| {
        return [], 0 < len;
      }
      if off + len <= |file| {
        return file[off..off + len], false;
      }
      return file[off..], true;
    }

    /** What the file holds once closed. */
    method Close() returns (content: seq<byte>)
      requires Valid()
      modifies this
      ensures Valid()
      ensures content == file == Contents() == old(Contents())
    {
      Flush();
      content := file;
    }
  }
}

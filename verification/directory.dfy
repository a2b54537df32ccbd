/** The log's directory: closed files as a map from names to bytes. */
module Directories {
  import opened Bytes

  class Directory {
    var files: map<string, seq<byte>>

    constructor ()
      ensures files == map[]
    {
      files := map[];
    }

    /** `os.ReadDir`: every name once, in whatever order. */
    method List() returns (names: seq<string>)
      ensures multiset(names) == multiset(files.Keys)
    {
      names := [];
      var rest := files.Keys;
      while rest != {}
        invariant rest <= files.Keys
        invariant multiset(names) + multiset(rest) == multiset(files.Keys)
        decreases |rest|
      {
        var name :| name in rest;
        names, rest := names + [name], rest - {name};
      }
    }

    /** `os.OpenFile` with `O_CREATE`: what the file holds, nothing if it was not there. */
    method OpenOrCreate(name: string) returns (content: seq<byte>)
      modifies this
      ensures content == Content(old(files), name)
      ensures files == old(files)[name := content]
    {
      if name !in files {
        files := files[name := []];
      }
      content := files[name];
    }
  }

  /** `os.RemoveAll` on the log's directory: the path then names none. */
  method RemoveAll(dir: Directory) returns (at: Directory?)
    modifies dir
    ensures at == null && dir.files == map[]
  {
    dir.files := map[];
    at := null;
  }

  /** `os.ReadDir` on a path: an error if it names no directory. */
  method ReadDir(at: Directory?) returns (names: Option<seq<string>>)
    ensures at == null ==> names == None
    ensures at != null ==> names.Some? && multiset(names.value) == multiset(at.files.Keys)
  {
    if at == null {
      return None;
    }
    var listed := at.List();
    return Some(listed);
  }

  function Content(files: map<string, seq<byte>>, name: string): seq<byte> {
    if name in files then files[name] else []
  }
}

/** The segmented log (`internal/log/log.go`). */
module Logs {
  import opened Bytes
  import opened RecordCodec
  import opened LogModel
  import opened Truncation
  import opened Names
  import opened Directories
  import opened Segments
  import opened LogFiles
  import opened Stack

  /** `Log.Read`: a record, the out-of-range error, or a failure to decode. */
  datatype ReadResult = Found(record: Record) | OutOfRange(offset: uint64) | Corrupt

  function Answer(r: Option<Record>, off: uint64): ReadResult {
    match r
    case Some(record) => Found(record)
    case None => OutOfRange(off)
  }

  class Log {
    const dir: Directory
    const limits: Limits
    var initialOffset: uint64
    var segments: seq<Segment>
    var activeSegment: Segment?
    ghost var model: seq<Seg>

    ghost function Repr(): set<object>
      reads this`segments
    {
      {this, dir} + set s, o | s in segments && o in s.repr :: o
    }

    /** The store files, which every read flushes. */
    ghost function Stores(): set<object>
      reads this`segments
    {
      set s | s in segments :: s.store
    }

    /** Every segment is what the model says. */
    ghost predicate Stack()
      reads this, segments, Repr()
    {
      && Supported(limits)
      && Mirrors(segments, model, dir, limits)
      && (forall i :: 0 <= i < |segments| ==> this !in segments[i].repr && dir !in segments[i].repr)
      && (segments != [] ==> activeSegment == segments[|segments| - 1])
    }

    ghost predicate Valid()
      reads this, segments, Repr()
    {
      Stack() && LogInv(limits, model) && dir.files.Keys == NamesOf(model)
    }

    lemma ValidFacts()
      requires Valid()
      ensures Supported(limits) && LogInv(limits, model) && dir in Repr() && this in Repr()
      ensures activeSegment != null && activeSegment.repr <= Repr() && Stores() <= Repr()
    {
      hide LogInv, NamesOf, Mirror;
      forall i | 0 <= i < |segments| ensures segments[i].store in segments[i].repr {
        assert Mirror(segments[i], model[i], dir, limits);
      }
    }

    /** Opens a log on a directory that holds the segments `l`; with none it starts afresh. */
    constructor (dir: Directory, config: Limits, initialOffset: uint64, ghost l: seq<Seg>)
      requires Supported(WithDefaults(config))
      requires Holds(dir.files, l) && (l != [] ==> LogInv(WithDefaults(config), l))
      modifies dir
      ensures Valid() && fresh(Repr() - {dir})
      ensures this.dir == dir && this.initialOffset == initialOffset && limits == WithDefaults(config)
      ensures limits.store == if config.store == 0 then 1024 else config.store
      ensures limits.index == if config.index == 0 then 1024 else config.index
      ensures model == if l == [] then Fresh(initialOffset) else l
    {
      hide LogInv, Holds, NamesOf, Mirror;
      this.dir, this.limits, this.initialOffset := dir, WithDefaults(config), initialOffset;
      segments, activeSegment, model := [], null, [];
      new;
      Setup(l);
    }

    /** Rebuilds the segments from the directory: parse the names, sort, take every other one. */
    method Setup(ghost l: seq<Seg>)
      requires Stack() && model == []
      requires Holds(dir.files, l) && (l != [] ==> LogInv(limits, l))
      modifies this`segments, this`activeSegment, this`model, dir
      ensures Valid() && fresh(Repr() - old(Repr()))
      ensures model == if l == [] then Fresh(initialOffset) else l
    {
      hide Mirrors, SegOk, LogInv, StoreBytes, IndexBytes, StoreName, IndexName, NamesOf;
      var offs := SortedBases(dir, limits, l);
      OpenAll(offs, l);
      if segments == [] {
        assert l == [];
        FreshInv(limits, initialOffset);
        EmptyBytes(initialOffset);
        assert dir.files == map[] by { NoNames(); }
        NewSegment(initialOffset, EmptySeg(initialOffset));
        assert NamesOf(model) == {StoreName(initialOffset), IndexName(initialOffset)} by {
          NamesOfSnoc([], EmptySeg(initialOffset));
          NoNames();
        }
        assert model == Fresh(initialOffset);
      }
    }

    /** One segment for every other entry of the doubled, sorted bases. */
    method OpenAll(offs: seq<nat>, ghost l: seq<Seg>)
      requires Stack() && model == []
      requires Holds(dir.files, l) && (l != [] ==> LogInv(limits, l))
      requires offs == Doubled(BasesOf(l))
      modifies this`segments, this`activeSegment, this`model, dir
      ensures Stack() && fresh(Repr() - old(Repr()))
      ensures model == l && dir.files == old(dir.files)
    {
      hide Mirrors, SegOk, LogInv, StoreBytes, IndexBytes, StoreName, IndexName, Doubled, NamesOf;
      var i := 0;
      while i < |offs|
        invariant 0 <= i <= |offs| && i % 2 == 0
        invariant Stack() && fresh(Repr() - old(Repr()))
        invariant model == l[..i / 2] && dir.files == old(dir.files)
      {
        var k := i / 2;
        assert offs[2 * k] == l[k].base;
        NamesPresent(l, k);
        NextFits(limits, l, k);
        NewSegment(offs[i], l[k]);
        assert l[..k] + [l[k]] == l[..k + 1];
        i := i + 1;
        i := i + 1;
      }
      assert l[..|l|] == l;
    }

    /** Adds the segment at `off` and makes it the active one. */
    method NewSegment(off: uint64, ghost value: Seg)
      requires Stack()
      requires SegOk(limits, value) && value.base == off && Next(value) < TWO64
      requires Content(dir.files, StoreName(off)) == StoreBytes(value)
      requires Content(dir.files, IndexName(off)) == IndexBytes(value)
      modifies this`segments, this`activeSegment, this`model, dir
      ensures Stack() && fresh(Repr() - old(Repr()))
      ensures model == old(model) + [value]
      ensures |segments| == |old(segments)| + 1 && old(segments) <= segments
      ensures dir.files == old(dir.files)[StoreName(off) := StoreBytes(value)]
                                         [IndexName(off) := IndexBytes(value)]
    {
      hide Mirror, StoreBytes, IndexBytes, SegOk, StoreName, IndexName;
      var s := OpenSegment(dir, off, limits, value);
      var ss := segments + [s];
      assert Mirrors(ss, model + [value], dir, limits);
      segments, activeSegment, model := ss, s, model + [value];
    }

    /** Appends to the active segment alone. */
    method AppendActive(record: RecordRef) returns (r: Option<uint64>)
      requires Stack() && segments != [] && Next(Active(model)) < TWO64 - 1
      requires !Full(limits, Active(model)) ==> |StoreBytes(Active(model))| < TWO63
      modifies this`model, activeSegment.repr, record
      ensures Stack() && |model| == |old(model)| && unchanged(dir) && Repr() == old(Repr())
      ensures record.value == Stamp(old(record.value), old(Next(Active(model))))
      ensures r == if old(Full(limits, Active(model))) then None else Some(old(Next(Active(model))))
      ensures model == Sealeds(old(model)) + [old(Grown(limits, Active(model), record.value))]
    {
      hide Mirror, SegOk, StoreBytes, Full;
      var last := |segments| - 1;
      forall i | 0 <= i < |segments| ensures record !in segments[i].repr {
        RecordApart(segments[i], model[i], dir, limits, record);
      }
      ghost var s := model[last];
      r := AppendMirrored(activeSegment, record, s, dir, limits);
      model := model[last := Grown(limits, s, old(record.value))];
      forall i | 0 <= i < last ensures Mirror(segments[i], model[i], dir, limits) {
        assert segments[i].repr !! activeSegment.repr;
        assert old(Mirror(segments[i], model[i], dir, limits));
      }
    }

    /** Stamps the record with the next offset, stores and indexes it, and rotates when a limit is
        reached. With the index full the append fails. */
    method Append(record: RecordRef) returns (r: Option<uint64>)
      requires Valid() && OffsetsLeft(model)
      modifies this`segments, this`activeSegment, this`model, dir, activeSegment.repr, record
      ensures Valid() && fresh(Repr() - old(Repr()))
      ensures record.value.offset == old(Next(Active(model))) && record.value.value == old(record.value.value)
      ensures record.value.term == old(record.value.term) && record.value.kind == old(record.value.kind)
      ensures r == if old(Accepts(limits, model)) then Some(old(Next(Active(model)))) else None
      ensures model == AfterAppend(limits, old(model), old(record.value))
    {
      hide Mirrors, SegOk, LogInv, StoreBytes, IndexBytes, Full, Maxed, StoreName, IndexName, NamesOf;
      hide AfterAppend, Grown, Sealeds;
      RoomToIndex(limits, model);
      AppendInv(limits, model, record.value);
      AppendSteps(limits, model, record.value);
      NameIsNew(limits, model, Next(Active(model)) + 1);
      r := AppendActive(record);
      if r.Some? {
        RotateIfMaxed(r.value + 1);
      }
      assert model == AfterAppend(limits, old(model), old(record.value));
    }

    method ActiveIsMaxed() returns (b: bool)
      requires Stack() && segments != []
      ensures b <==> Maxed(limits, Active(model))
    {
      hide Maxed;
      b := activeSegment.IsMaxed();
    }

    /** Starts a new segment at `off` if the active one has reached a limit. */
    method RotateIfMaxed(off: uint64)
      requires Stack() && segments != []
      requires dir.files.Keys == NamesOf(model)
      requires StoreName(off) !in dir.files && IndexName(off) !in dir.files
      modifies this`segments, this`activeSegment, this`model, dir
      ensures Stack() && fresh(Repr() - old(Repr()))
      ensures model == old(model) + if old(Maxed(limits, Active(model))) then [EmptySeg(off)] else []
      ensures dir.files.Keys == NamesOf(model)
    {
      hide Mirrors, StoreBytes, IndexBytes, Maxed, StoreName, IndexName, NamesOf;
      var maxed := ActiveIsMaxed();
      if maxed {
        FreshInv(limits, off);
        EmptyBytes(off);
        NamesOfSnoc(model, EmptySeg(off));
        NewSegment(off, EmptySeg(off));
      }
    }

    /** The first segment whose interval holds `off`. */
    method Find(off: uint64) returns (i: nat)
      requires Stack()
      ensures i <= |segments| == |model|
      ensures i < |model| ==> model[i].base <= off < Next(model[i])
      ensures i == |model| ==> forall j :: 0 <= j < i ==> !(model[j].base <= off < Next(model[j]))
    {
      hide Mirror;
      i := 0;
      while i < |segments|
        invariant 0 <= i <= |segments|
        invariant forall j :: 0 <= j < i ==> !(model[j].base <= off < Next(model[j]))
      {
        assert Mirror(segments[i], model[i], dir, limits);
        if segments[i].baseOffset <= off < segments[i].nextOffset {
          return;
        }
        i := i + 1;
      }
    }

    method ReadFrom(i: nat, off: uint64) returns (r: Option<Record>)
      requires Stack() && i < |segments|
      modifies segments[i].store
      ensures Stack()
      ensures model[i].base <= off < Next(model[i]) ==> r == Some(model[i].recs[off - model[i].base])
    {
      hide Mirror;
      assert Mirror(segments[i], model[i], dir, limits);
      r := ReadMirrored(segments[i], off, model[i], dir, limits);
      forall j | 0 <= j < |segments| ensures Mirror(segments[j], model[j], dir, limits) {
        assert old(Mirror(segments[j], model[j], dir, limits));
        assert j != i ==> segments[i].repr !! segments[j].repr;
      }
    }

    /** The record at a live offset; the out-of-range error exactly outside the live interval. */
    method Read(off: uint64) returns (r: ReadResult)
      requires Valid()
      modifies Stores()
      ensures Valid()
      ensures r == Answer(Lookup(Base(model), Records(model), off), off)
      ensures Base(model) <= off < Next(Active(model)) ==>
                off - Base(model) < |Records(model)| && r == Found(Records(model)[off - Base(model)])
      ensures !(Base(model) <= off < Next(Active(model))) ==> r == OutOfRange(off)
    {
      hide Mirrors, NamesOf, Records, Lookup, LogInv;
      InvLinked(limits, model);
      LookupLive(limits, model, off);
      var i := Find(off);
      if i == |segments| {
        NotFound(model, off);
        return OutOfRange(off);
      }
      FoundAt(model, i, off);
      var record := ReadFrom(i, off);
      if record.None? {
        return Corrupt;
      }
      return Found(record.value);
    }

    method CloseAt(i: nat)
      requires Stack() && i < |segments|
      modifies segments[i].store, dir
      ensures Stack()
      ensures dir.files == old(dir.files)[IndexName(model[i].base) := IndexBytes(model[i])]
                                         [StoreName(model[i].base) := StoreBytes(model[i])]
    {
      hide Mirror, IndexName, StoreName, IndexBytes, StoreBytes;
      assert Mirror(segments[i], model[i], dir, limits);
      CloseMirrored(segments[i], model[i], dir, limits);
      forall j | 0 <= j < |segments| ensures Mirror(segments[j], model[j], dir, limits) {
        assert old(Mirror(segments[j], model[j], dir, limits));
        assert j != i ==> segments[i].repr !! segments[j].repr;
      }
    }

    /** Leaves every segment's bytes, and nothing else, in the directory. */
    method Close()
      requires Valid()
      modifies dir, Stores()
      ensures Valid() && Holds(dir.files, model)
    {
      hide Mirrors, LogInv, NamesOf, IndexName, StoreName, IndexBytes, StoreBytes;
      var i := 0;
      while i < |segments|
        invariant 0 <= i <= |segments| && Valid()
        invariant HoldsUpTo(dir.files, model, i)
      {
        CloseOne(limits, model, i, dir.files);
        CloseAt(i);
        i := i + 1;
      }
    }

    method RemoveAt(i: nat)
      requires Stack() && i < |segments|
      modifies segments[i].store, dir
      ensures Stack()
      ensures dir.files == old(dir.files) - {IndexName(model[i].base), StoreName(model[i].base)}
    {
      hide Mirror, IndexName, StoreName;
      assert Mirror(segments[i], model[i], dir, limits);
      RemoveMirrored(segments[i], model[i], dir, limits);
      forall j | 0 <= j < |segments| ensures Mirror(segments[j], model[j], dir, limits) {
        assert old(Mirror(segments[j], model[j], dir, limits));
        assert j != i ==> segments[i].repr !! segments[j].repr;
      }
    }

    /** The lowest live offset. */
    method LowestOffset() returns (off: uint64)
      requires Valid()
      ensures off == Base(model)
    {
      hide Mirror, LogInv;
      assert Mirror(segments[0], model[0], dir, limits);
      off := segments[0].baseOffset;
    }

    /** The highest offset in use, or 0 when the next offset is 0. */
    method HighestOffset() returns (off: uint64)
      requires Valid()
      ensures off == Highest(model)
      ensures off == if Next(Active(model)) == 0 then 0 else Next(Active(model)) - 1
    {
      hide Mirror, LogInv;
      assert Mirror(segments[|segments| - 1], model[|segments| - 1], dir, limits);
      off := segments[|segments| - 1].nextOffset;
      if off != 0 {
        off := off - 1;
      }
    }

    /** The loop of `Truncate`: which segments to keep; the others go with their files. */
    method RemoveBelow(lowest: uint64, ghost k: nat) returns (kept: seq<Segment>)
      requires Valid() && k <= |model|
      requires forall i {:trigger Next(model[i])} :: 0 <= i < |model| ==> (Next(model[i]) <= Bound(lowest) <==> i < k)
      modifies dir, Stores()
      ensures Stack() && kept == segments[k..] && dir.files.Keys == NamesOf(model[k..])
    {
      hide Mirrors, LogInv, NamesOf, IndexName, StoreName, Bound;
      kept := [];
      var i := 0;
      assert model[0..] == model;
      while i < |segments|
        invariant 0 <= i <= |segments| && Stack()
        invariant kept == if i <= k then [] else segments[k..i]
        invariant dir.files.Keys == NamesOf(model[if i <= k then i else k..])
      {
        var next := NextOf(i);
        if next <= Bound(lowest) {
          RemoveOne(limits, model, i);
          RemoveAt(i);
        } else {
          assert k <= i && segments[k..i + 1] == segments[k..i] + [segments[i]];
          kept := kept + [segments[i]];
        }
        i := i + 1;
      }
    }

    method NextOf(i: nat) returns (next: uint64)
      requires Stack() && i < |segments|
      ensures next == Next(model[i])
    {
      hide Mirror;
      assert Mirror(segments[i], model[i], dir, limits);
      next := segments[i].nextOffset;
    }

    method Retain(kept: seq<Segment>, ghost k: nat)
      requires Stack() && k <= |model| && kept == segments[k..]
      modifies this`segments, this`model
      ensures Stack() && Repr() <= old(Repr())
      ensures model == old(model)[k..]
    {
      hide Mirror;
      segments, model := kept, model[k..];
      forall i | 0 <= i < |segments| ensures Mirror(segments[i], model[i], dir, limits) {
        assert old(Mirror(segments[k + i], model[k + i], dir, limits));
      }
    }

    /** Removes the segments whose next offset is at most `lowest+1` in 64 bits, and their files. When
        that is all of them the log is left without segments. */
    method Truncate(lowest: uint64)
      requires Valid()
      modifies this`segments, this`model, dir, Stores()
      ensures Stack() && Repr() <= old(Repr())
      ensures model == Keep(old(model), lowest) && dir.files.Keys == NamesOf(model)
      ensures Bound(lowest) < old(Next(Active(model))) ==> Valid()
    {
      hide Mirrors, LogInv, NamesOf, Keep, Bound;
      InvLinked(limits, model);
      ghost var k := KeepIsSuffix(model, lowest);
      var kept := RemoveBelow(lowest, k);
      Retain(kept, k);
      if Bound(lowest) < old(Next(Active(model))) {
        TruncateInv(limits, old(model), lowest);
      }
    }

    method SetInitialOffset(off: uint64)
      requires Valid()
      modifies this`initialOffset
      ensures Valid() && initialOffset == off
    {
      hide Mirrors, LogInv, NamesOf;
      initialOffset := off;
    }

    /** `Reset` as the code has it: close, remove the directory, and list it again. The list is an
        error, so the rest of `setup` is never reached; the segments' files are gone. */
    method ResetAsWritten() returns (ok: bool)
      requires Valid()
      modifies dir, Stores()
      ensures !ok && dir.files == map[]
    {
      hide LogInv, NamesOf, Holds, Mirror;
      Close();
      var at := RemoveAll(dir);
      var names := ReadDir(at);
      ok := names.Some?;
    }

    /** Starts afresh at the initial offset: what `Reset` is for. */
    method Reset()
      requires Valid()
      modifies this`segments, this`activeSegment, this`model, dir, Stores()
      ensures Valid() && fresh(Repr() - old(Repr()))
      ensures model == Fresh(initialOffset)
    {
      hide LogInv, NamesOf, Holds, Mirror;
      Close();
      Clear();
      Setup([]);
    }

    /** Empties the directory and forgets the segments. */
    method Clear()
      requires Supported(limits)
      modifies this`segments, this`activeSegment, this`model, dir
      ensures Stack() && model == [] && Holds(dir.files, [])
      ensures Repr() <= old(Repr())
    {
      dir.files := map[];
      segments, activeSegment, model := [], null, [];
      NoNames();
    }
  }

  /** Closing any log and opening its directory again restores every segment. */
  method Reopen(log: Log) returns (log': Log)
    requires log.Valid()
    modifies log.dir, log.Stores()
    ensures log'.Valid() && log'.dir == log.dir && log'.limits == log.limits
    ensures fresh(log'.Repr() - {log.dir})
    ensures log'.model == old(log.model)
  {
    hide LogInv, Holds, Log.Valid;
    log.ValidFacts();
    log.Close();
    log' := new Log(log.dir, log.limits, log.initialOffset, log.model);
  }
}

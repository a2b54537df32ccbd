/** The replicated state machine (`internal/log/distributed/fsm.go`) and the commands it applies. */
module Fsm {
  import opened Bytes
  import opened RecordCodec
  import opened Frames
  import opened LogModel
  import opened Partition
  import opened Replays
  import opened Capacity
  import opened Snapshots
  import opened Segments
  import opened Logs
  import Readers
  import Runs

  // ---------------------------------------------------------------- commands

  const APPEND_REQUEST: byte := 0

  /** `ProduceRequest`: its one field, the record, is present even when the record is empty. */
  function MarshalRequest(r: Record): seq<byte> {
    [TAG_VALUE] + Varint(|Marshal(r)|) + Marshal(r)
  }

  /** A request, with its record if it carries one; a repeated record is merged. */
  function MergeRequest(s: seq<byte>, acc: Option<Record>): Option<Option<Record>>
    decreases |s|
  {
    if s == [] then Some(acc)
    else
      match ReadVarint(s, 0)
      case None => None
      case Some((tag, n)) =>
        if tag != TAG_VALUE then None
        else
          match ReadBytes(s[n..])
          case None => None
          case Some((body, rest)) =>
            match Merge(body, if acc.Some? then acc.value else EMPTY_RECORD)
            case None => None
            case Some(r) => MergeRequest(rest, Some(r))
  }

  /** What a replicated command asks for. An empty command and a request without a record crash. */
  datatype Command = AppendRecord(record: Record) | Unknown | Malformed | Crash

  /** The bytes `apply` submits for an append. */
  function EncodeAppend(r: Record): seq<byte> {
    [APPEND_REQUEST] + MarshalRequest(r)
  }

  function DecodeCommand(data: seq<byte>): Command {
    if data == [] then Crash
    else if data[0] != APPEND_REQUEST then Unknown
    else
      match MergeRequest(data[1..], None)
      case None => Malformed
      case Some(None) => Crash
      case Some(Some(r)) => AppendRecord(r)
  }

  /** A request's record is merged into what came before it. */
  lemma RequestReads(r: Record, rest: seq<byte>, acc: Option<Record>)
    ensures var base := if acc.Some? then acc.value else EMPTY_RECORD;
            MergeRequest(MarshalRequest(r) + rest, acc) == MergeRequest(rest, Some(Overlaid(base, r)))
  {
    hide Merge, Marshal, ReadBytes, Varint;
    var m, base := Marshal(r), if acc.Some? then acc.value else EMPTY_RECORD;
    MarshalLength(r);
    var body := Varint(|m|) + m + rest;
    assert MarshalRequest(r) + rest == [TAG_VALUE] + body;
    ReadTag(TAG_VALUE, body);
    BytesFieldReads(m, rest);
    MergeMessage(r, [], base);
    assert m + [] == m;
    MergeNothing(Overlaid(base, r));
  }

  /** The state machine decodes exactly what `Append` submitted. */
  lemma CommandRoundTrip(r: Record)
    ensures DecodeCommand(EncodeAppend(r)) == AppendRecord(r)
  {
    hide MarshalRequest;
    RequestReads(r, [], None);
    assert EncodeAppend(r)[1..] == MarshalRequest(r) == MarshalRequest(r) + [];
  }

  /** And of a request that carries two records the fields of the second, where they are set. */
  lemma RequestsMerge(r: Record, s: Record)
    ensures DecodeCommand([0] + MarshalRequest(r) + MarshalRequest(s)) ==
            AppendRecord(Record(if s.value == [] then r.value else s.value,
                                if s.offset == 0 then r.offset else s.offset,
                                if s.term == 0 then r.term else s.term,
                                if s.kind == 0 then r.kind else s.kind))
  {
    hide MarshalRequest;
    var data := [0] + MarshalRequest(r) + MarshalRequest(s);
    assert data[1..] == MarshalRequest(r) + MarshalRequest(s);
    RequestReads(r, MarshalRequest(s), None);
    RequestReads(s, [], Some(r));
    assert MarshalRequest(s) + [] == MarshalRequest(s);
  }

  // ---------------------------------------------------------------- Apply

  datatype Applied = Offset(off: nat) | DecodeError | AppendError | Nothing | Panic

  function AfterApply(c: Limits, l: seq<Seg>, data: seq<byte>): seq<Seg>
    requires l != [] && Next(Active(l)) < TWO64
  {
    match DecodeCommand(data)
    case AppendRecord(r) => AfterAppend(c, l, r)
    case _ => l
  }

  function Response(c: Limits, l: seq<Seg>, data: seq<byte>): Applied
    requires l != []
  {
    match DecodeCommand(data)
    case AppendRecord(_) => if Accepts(c, l) then Offset(Next(Active(l))) else AppendError
    case Unknown => Nothing
    case Malformed => DecodeError
    case Crash => Panic
  }

  method Apply(log: Log, data: seq<byte>) returns (r: Applied)
    requires log.Valid() && OffsetsLeft(log.model)
    modifies log.Repr()
    ensures log.Valid() && fresh(log.Repr() - old(log.Repr()))
    ensures log.model == AfterApply(log.limits, old(log.model), data)
    ensures r == Response(log.limits, old(log.model), data)
  {
    hide Log.Valid, LogInv, AfterAppend, DecodeCommand;
    log.ValidFacts();
    match DecodeCommand(data)
    case AppendRecord(record) =>
      var ref := new RecordRef(record);
      var off := log.Append(ref);
      r := if off.Some? then Offset(off.value) else AppendError;
    case Unknown => r := Nothing;
    case Malformed => r := DecodeError;
    case Crash => r := Panic;
  }

  /** A request without a record is the empty one. */
  lemma {:induction false} NoRecordIff(s: seq<byte>, acc: Option<Record>)
    ensures MergeRequest(s, acc) == Some(None) <==> s == [] && acc == None
    decreases |s|
  {
    hide ReadVarint, ReadBytes, Merge;
    if s != [] && ReadVarint(s, 0).Some? && ReadBytes(s[ReadVarint(s, 0).value.1..]).Some? {
      var (body, rest) := ReadBytes(s[ReadVarint(s, 0).value.1..]).value;
      var r := Merge(body, if acc.Some? then acc.value else EMPTY_RECORD);
      if r.Some? { NoRecordIff(rest, Some(r.value)); }
    }
  }

  /** The answer to every command, from its bytes. Nothing, or the append type and no request, crashes;
      another type is ignored; a request that does not decode is an error. A record is refused, with
      the append's error, exactly when the log gains none, and otherwise the answered offset then reads
      it. */
  lemma ApplyAnswers(c: Limits, l: seq<Seg>, data: seq<byte>)
    requires Supported(c) && LogInv(c, l) && OffsetsLeft(l)
    ensures Response(c, l, data) == Panic <==> data == [] || data == [0]
    ensures Response(c, l, data) == Nothing <==> data != [] && data[0] != 0
    ensures Response(c, l, data) == DecodeError <==>
              data != [] && data[0] == 0 && MergeRequest(data[1..], None) == None
    ensures Response(c, l, data) == AppendError ==>
              Records(AfterApply(c, l, data)) == Records(l) && DecodeCommand(data).AppendRecord?
    ensures Response(c, l, data).Offset? <==>
              |Records(AfterApply(c, l, data))| == |Records(l)| + 1
    ensures Response(c, l, data).Offset? ==>
              && data != [] && data[0] == 0 && DecodeCommand(data).AppendRecord?
              && MergeRequest(data[1..], None) == Some(Some(DecodeCommand(data).record))
              && AfterApply(c, l, data) != [] && Response(c, l, data).off < TWO64
              && var off, r := Response(c, l, data).off, DecodeCommand(data).record;
                 ReadAt(AfterApply(c, l, data), off) == Some(Record(r.value, off, r.term, r.kind))
    ensures !Response(c, l, data).Offset? && Response(c, l, data) != AppendError ==> AfterApply(c, l, data) == l
  {
    hide LogInv, Records, AfterAppend, Accepts, MergeRequest;
    if data != [] {
      NoRecordIff(data[1..], None);
    }
    if DecodeCommand(data).AppendRecord? {
      AppendInv(c, l, DecodeCommand(data).record);
      InvLinked(c, l);
      RecordsSpan(l);
    }
  }

  // ---------------------------------------------------------------- Restore

  datatype RestoreResult = Restored | BadStream | Refused | ResetFailed

  /** The state `Restore` builds from records: fresh at the first one's offset, then appends. */
  ghost function Built(c: Limits, l: seq<Seg>, rs: seq<Record>): seq<Seg>
    requires Supported(c) && Numbered(rs)
  {
    if rs == [] then l else FreshInv(c, rs[0].offset); Replay(c, Fresh(rs[0].offset), rs)
  }

  /** The records can be numbered on from the first one's offset in 64 bits. */
  predicate Numbered(rs: seq<Record>) {
    rs != [] ==> rs[0].offset + |rs| < TWO64
  }

  ghost predicate BuiltAccepts(c: Limits, rs: seq<Record>)
    requires Supported(c) && Numbered(rs)
  {
    rs != [] ==> (FreshInv(c, rs[0].offset); AllAccepted(c, Fresh(rs[0].offset), rs))
  }

  /** The records `Restore` tries to append: up to the first refused one. */
  ghost function BuiltTried(c: Limits, rs: seq<Record>): (t: seq<Record>)
    requires Supported(c) && Numbered(rs)
    ensures t <= rs && Numbered(t)
  {
    if rs == [] then [] else FreshInv(c, rs[0].offset); Tried(c, Fresh(rs[0].offset), rs)
  }

  lemma BuiltTriedIs(c: Limits, rs: seq<Record>, n: nat)
    requires Supported(c) && Numbered(rs) && n <= |rs| && Numbered(rs[..n])
    requires BuiltAccepts(c, rs[..n])
    requires n < |rs| ==> Numbered(rs[..n + 1]) && !BuiltAccepts(c, rs[..n + 1])
    ensures BuiltTried(c, rs) == if n == |rs| then rs else rs[..n + 1]
    ensures BuiltAccepts(c, rs) <==> n == |rs|
  {
    hide LogInv, AllAccepted, AcceptedCount;
    if rs != [] {
      FreshInv(c, rs[0].offset);
      ReplayNone(c, Fresh(rs[0].offset));
      assert rs[..0] == [];
      AcceptedCountIs(c, Fresh(rs[0].offset), rs, n);
    }
  }

  /** One more record of the stream: the first one starts afresh. */
  lemma BuiltStep(c: Limits, l: seq<Seg>, before: seq<Record>, r: Record)
    requires Supported(c) && Numbered(before + [r])
    ensures Numbered(before) && LogInv(c, Fresh((before + [r])[0].offset))
    ensures var start := if before == [] then Fresh(r.offset) else Built(c, l, before);
            && LogInv(c, start) && OffsetsLeft(start)
            && Built(c, l, before + [r]) == AfterAppend(c, start, r)
            && (BuiltAccepts(c, before + [r]) <==> BuiltAccepts(c, before) && Accepts(c, start))
  {
    hide LogInv, AfterAppend, Accepts;
    var rs := before + [r];
    FreshInv(c, rs[0].offset);
    assert before != [] ==> rs[0] == before[0];
    var start := Fresh(rs[0].offset);
    assert Replay(c, start, []) == start && AllAccepted(c, start, []);
    ReplaySnoc(c, start, before, r);
  }

  method ResetAt(log: Log, off: uint64)
    requires log.Valid()
    modifies log, log.Repr()
    ensures log.Valid() && fresh(log.Repr() - old(log.Repr()))
    ensures log.model == Fresh(off)
  {
    hide Log.Valid, LogInv;
    log.ValidFacts();
    log.SetInitialOffset(off);
    log.ValidFacts();
    log.Reset();
  }

  /** Takes one record of the stream: the first one resets the log to its offset. */
  method RestoreRecord(log: Log, i: nat, record: Record, ghost before: seq<Record>, ghost l: seq<Seg>)
    returns (ok: bool)
    requires log.Valid() && i == |before| && Numbered(before + [record]) && Numbered(before)
    requires log.model == Built(log.limits, l, before) && BuiltAccepts(log.limits, before)
    modifies log, log.Repr()
    ensures log.Valid() && fresh(log.Repr() - old(log.Repr()))
    ensures ok <==> BuiltAccepts(log.limits, before + [record])
    ensures log.model == Built(log.limits, l, before + [record])
  {
    hide Log.Valid, LogInv, AfterAppend, Accepts, Built, BuiltAccepts;
    log.ValidFacts();
    BuiltStep(log.limits, l, before, record);
    if i == 0 {
      ResetAt(log, record.offset);
    }
    log.ValidFacts();
    var ref := new RecordRef(record);
    var off := log.Append(ref);
    ok := off.Some?;
  }

  lemma NothingBuilt(c: Limits, l: seq<Seg>)
    requires Supported(c)
    ensures Numbered([]) && Built(c, l, []) == l && BuiltAccepts(c, [])
  {
  }

  /** One unfolding of the parser. */
  lemma ParseStep(s: seq<byte>)
    ensures s == [] ==> Parse(s).records == [] && Parse(s).ending == Clean
    ensures s != [] && FirstFrame(s).None? ==> Parse(s).records == [] && Parse(s).ending == Torn
    ensures s != [] && FirstFrame(s).Some? ==>
              var (body, rest) := FirstFrame(s).value;
              match Unmarshal(body)
              case None => Parse(s).records == [] && Parse(s).ending == Undecodable
              case Some(r) => Parse(s).records == [r] + Parse(rest).records && Parse(s).ending == Parse(rest).ending
  {
    hide Unmarshal, FirstFrame;
  }

  lemma Shorter(a: seq<Record>, b: seq<Record>)
    requires a <= b && Numbered(b)
    ensures Numbered(a)
  {
  }

  lemma AllTried(c: Limits, rs: seq<Record>, before: seq<Record>)
    requires Supported(c) && Numbered(rs) && rs == before && BuiltAccepts(c, before)
    ensures BuiltTried(c, rs) == rs
  {
    hide BuiltAccepts, BuiltTried, Numbered;
    assert rs[..|rs|] == rs;
    BuiltTriedIs(c, rs, |rs|);
  }

  lemma OneRefused(c: Limits, rs: seq<Record>, before: seq<Record>, r: Record)
    requires Supported(c) && Numbered(rs) && before + [r] <= rs
    requires Numbered(before) && Numbered(before + [r])
    requires BuiltAccepts(c, before) && !BuiltAccepts(c, before + [r])
    ensures BuiltTried(c, rs) == before + [r] && !BuiltAccepts(c, rs)
  {
    hide BuiltAccepts, BuiltTried, Numbered;
    assert rs[..|before|] == before && rs[..|before| + 1] == before + [r];
    BuiltTriedIs(c, rs, |before|);
  }

  /** Reads a length and then, as a signed number, that many bytes. */
  method NextFrame(s: seq<byte>) returns (r: Option<(seq<byte>, seq<byte>)>)
    ensures r == FirstFrame(s)
  {
    if |s| < LEN_WIDTH {
      return None;
    }
    var n := Get64(s[..LEN_WIDTH]);
    var size := if n < TWO63 then n else n - TWO64;
    var rest := s[LEN_WIDTH..];
    if size > |rest| {
      return None;
    }
    if size <= 0 {
      assert size == 0 ==> rest[..0] == [] && rest[0..] == rest;
      return Some(([], rest));
    }
    return Some((rest[..size], rest[size..]));
  }

  /** With `Reset` as it is meant: consumes the stream frame by frame. It succeeds exactly when the
      stream parses to its end and no append is refused. Whatever the outcome, the log is the one
      built from the records parsed up to the first refused one, or untouched if there were none. */
  method Restore(log: Log, stream: seq<byte>) returns (r: RestoreResult)
    requires log.Valid() && Numbered(Parse(stream).records)
    modifies log, log.Repr()
    ensures log.Valid() && fresh(log.Repr() - old(log.Repr()))
    ensures r == if !BuiltAccepts(log.limits, Parse(stream).records) then Refused
                 else if Parse(stream).ending == Clean then Restored else BadStream
    ensures log.model == Built(log.limits, old(log.model), BuiltTried(log.limits, Parse(stream).records))
  {
    hide Log.Valid, LogInv, Unmarshal, Built, BuiltAccepts, BuiltTried, Parse, FirstFrame, Numbered;
    log.ValidFacts();
    var rest, i := stream, 0;
    ghost var before: seq<Record> := [];
    NothingBuilt(log.limits, log.model);
    while true
      invariant log.Valid() && fresh(log.Repr() - old(log.Repr())) && i == |before|
      invariant Parse(stream).records == before + Parse(rest).records
      invariant Parse(stream).ending == Parse(rest).ending
      invariant Numbered(before) && BuiltAccepts(log.limits, before)
      invariant log.model == Built(log.limits, old(log.model), before)
      decreases |rest|
    {
      ParseStep(rest);
      if |rest| == 0 {
        AllTried(log.limits, Parse(stream).records, before);
        return Restored;
      }
      var frame := NextFrame(rest);
      if frame.None? {
        AllTried(log.limits, Parse(stream).records, before);
        return BadStream;
      }
      var buf;
      buf, rest := frame.value.0, frame.value.1;
      var record := Unmarshal(buf);
      if record.None? {
        AllTried(log.limits, Parse(stream).records, before);
        return BadStream;
      }
      assert Parse(stream).records == before + [record.value] + Parse(rest).records;
      Shorter(before + [record.value], Parse(stream).records);
      var ok := RestoreRecord(log, i, record.value, before, old(log.model));
      if !ok {
        OneRefused(log.limits, Parse(stream).records, before, record.value);
        return Refused;
      }
      before := before + [record.value];
      i := i + 1;
    }
  }

  /** `Restore` with `Reset` as written. It fails at the first record, having removed the log's files,
      so it succeeds exactly on the empty stream. */
  method RestoreAsWritten(log: Log, stream: seq<byte>) returns (r: RestoreResult)
    requires log.Valid()
    modifies log, log.Repr()
    ensures r == if Parse(stream).records != [] then ResetFailed
                 else if Parse(stream).ending == Clean then Restored else BadStream
    ensures r == Restored <==> stream == []
    ensures if r == ResetFailed then log.dir.files == map[] else log.Valid() && log.model == old(log.model)
  {
    hide Log.Valid, LogInv, Unmarshal, Parse, FirstFrame;
    log.ValidFacts();
    ParseStep(stream);
    if |stream| == 0 {
      return Restored;
    }
    var frame := NextFrame(stream);
    if frame.None? {
      return BadStream;
    }
    var record := Unmarshal(frame.value.0);
    if record.None? {
      return BadStream;
    }
    log.SetInitialOffset(record.value.offset);
    log.ValidFacts();
    var ok := log.ResetAsWritten();
    assert !ok;
    return ResetFailed;
  }

  // ---------------------------------------------------------------- from snapshot to restored log

  /** What `Restore` makes of a stream of the first `m` records of `l` and of frames of refused
      appends, over whatever state `other` a replica had: it succeeds exactly when there is no such
      frame, and the log is then restored; without any record the replica keeps what it had. */
  ghost predicate Restores(c: Limits, l: seq<Seg>, m: nat, junk: seq<Record>, p: Parsed, other: seq<Seg>)
    requires Supported(c) && l != [] && Streamed(l, m, junk)
  {
    && p == Parsed(Records(l)[..m] + junk, Clean) && Numbered(p.records)
    && (BuiltAccepts(c, p.records) <==> junk == [])
    && (junk == [] && m > 0 ==> RestoredAs(c, l, m, Built(c, other, p.records)))
    && (junk == [] && m == 0 ==> Built(c, other, p.records) == other)
  }

  lemma StreamTransfers(c: Limits, l: seq<Seg>, m: nat, junk: seq<Record>, other: seq<Seg>)
    requires Supported(c) && LogInv(c, l) && Streamed(l, m, junk)
    requires Base(l) + m + |junk| < TWO64
    ensures Restores(c, l, m, junk, Parse(Stream(Records(l)[..m] + junk)), other)
  {
    hide LogInv, Records, Parse, Stream, AllAccepted, Replay, RestoredAs;
    StreamRestores(c, l, m, junk);
  }

  /** Restoring the snapshot of a log `l`, read to its end in chunks of any sizes, under the same
      limits, over whatever state `other` a replica had, succeeds exactly when `l` held no frame of a
      refused append. It then makes the replica's log equal to `l`, segment by segment; but the
      snapshot of an empty log resets nothing. */
  lemma SnapshotTransfers(c: Limits, l: seq<Seg>, ops: seq<Readers.Op>, other: seq<Seg>)
    requires Supported(c) && LogInv(c, l)
    requires Base(l) + |Records(l)| + |Active(l).junk| < TWO64
    requires Readers.Quiet(ops)
    requires Readers.After(c, l, ops).Some? && Readers.After(c, l, ops).value.at == |l|
    ensures var p := Parse(Readers.After(c, l, ops).value.out);
            && p == Parsed(Records(l) + Active(l).junk, Clean) && Numbered(p.records)
            && (BuiltAccepts(c, p.records) <==> Active(l).junk == [])
            && (Active(l).junk == [] ==>
                  Built(c, other, p.records) == if Records(l) == [] then other else l)
  {
    hide LogInv, Records, Parse, Stream, Readers.After, BuiltAccepts, Built, Numbered, Begins;
    Readers.QuietReader(c, l, ops);
    assert Records(l)[..|Records(l)|] == Records(l);
    StreamTransfers(c, l, |Records(l)|, Active(l).junk, other);
    assert Active(l).junk == [] ==> Partition.Clean(l) == l;
  }

  /** In terms of the source's own replies: after any run from a fresh log, the snapshot restores
      exactly when the run refused no append. */
  lemma SnapshotOfRun(c: Limits, base: nat, run: seq<Runs.Op>, ops: seq<Readers.Op>, other: seq<Seg>)
    requires Supported(c) && base < TWO64 && LogInv(c, Fresh(base)) && Runs.After(c, Fresh(base), run).Some?
    requires var l := Runs.After(c, Fresh(base), run).value;
             && Base(l) + |Records(l)| + |Active(l).junk| < TWO64 && Readers.Quiet(ops)
             && Readers.After(c, l, ops).Some? && Readers.After(c, l, ops).value.at == |l|
    ensures var p := Parse(Readers.After(c, Runs.After(c, Fresh(base), run).value, ops).value.out);
            && p.ending == Clean && Numbered(p.records)
            && (BuiltAccepts(c, p.records) <==> Runs.Refused !in Runs.Replies(c, Fresh(base), run))
  {
    hide LogInv, Records, Parse, Readers.After, Runs.After, Runs.Replies, BuiltAccepts, Built, Numbered;
    Runs.FramesIff(c, Fresh(base), run);
    SnapshotTransfers(c, Runs.After(c, Fresh(base), run).value, ops, other);
  }

  /** Such failing snapshots exist wherever a segment can stick: one empty record more than the
      index has room for leaves a frame behind. */
  lemma SnapshotCanFail(c: Limits, base: nat, other: seq<Seg>) returns (l: seq<Seg>, ops: seq<Readers.Op>)
    requires Supported(c) && base + Slots(c) + 2 < TWO64 && CanStick(c, base)
    ensures l == FromFresh(c, base, Blanks(Slots(c) + 1)) && Active(l).junk != []
    ensures Readers.Quiet(ops) && Readers.After(c, l, ops).Some?
    ensures var p := Parse(Readers.After(c, l, ops).value.out);
            p.ending == Clean && Numbered(p.records) && !BuiltAccepts(c, p.records)
  {
    hide LogInv, Records, Parse, FromFresh, Readers.After, BuiltAccepts, Built, Numbered, CanStick;
    l := FromFresh(c, base, Blanks(Slots(c) + 1));
    OneTooMany(c, base);
    ops := Readers.QuietRun(c, l, |l|);
    SnapshotTransfers(c, l, ops, other);
  }

  /** Under other limits the segments differ, and frames of refused appends come back as records. */
  lemma SnapshotAcrossLimits(c: Limits, l: seq<Seg>, c': Limits, other: seq<Seg>)
    requires Supported(c) && LogInv(c, l) && Records(l) + Active(l).junk != []
    requires Base(l) + |Records(l)| + |Active(l).junk| < TWO64
    requires Supported(c') && Base(l) + Slots(c') <= TWO64 && !CanStick(c', Base(l))
    ensures var p := Parse(Readers.Snapshot(l));
            && p.ending == Clean && Numbered(p.records) && BuiltAccepts(c', p.records)
            && var l' := Built(c', other, p.records);
               && LogInv(c', l') && Base(l') == Base(l)
               && Records(l') == Stamped(Base(l), Records(l) + Active(l).junk)
               && Records(l) <= Records(l')
  {
    hide LogInv, Records, Stream, Parse, AllAccepted, Replay, CanStick, RestoredAs, Stamped;
    var n, rs := |Records(l)|, Records(l) + Active(l).junk;
    assert Records(l)[..n] == Records(l);
    StreamRestores(c, l, n, Active(l).junk);
    FreshInv(c', Base(l));
    NeverRefused(c', Fresh(Base(l)), rs, Base(l));
    ReplayAdds(c', Fresh(Base(l)), rs);
    AlreadyStamped(c, l, n);
    StampedStarts(Base(l), Records(l), Active(l).junk);
  }

  lemma {:induction false} NeverRefused(c: Limits, l: seq<Seg>, rs: seq<Record>, base: nat)
    requires Supported(c) && LogInv(c, l) && Next(Active(l)) + |rs| < TWO64
    requires base <= Base(l) && base + Slots(c) <= TWO64 && !CanStick(c, base)
    ensures AllAccepted(c, l, rs)
  {
    hide LogInv, Accepts, Replay, CanStick;
    if rs != [] {
      var m := Replay(c, l, rs[..|rs| - 1]);
      NeverRefused(c, l, rs[..|rs| - 1], base);
      ActiveAbove(c, m);
      NeverSticks(c, m, base);
    }
  }

  /** A snapshot taken while appends go on: the stream holds the first `m` of the source's records, at
      least all those it held when the snapshot was asked for, and perhaps frames of refused appends.
      Restoring it succeeds exactly when there are none of those, and only a source that takes no more
      records can leave any; the restored segments are the beginning of the source's. */
  lemma SnapshotUnderAppends(c: Limits, l: seq<Seg>, ops: seq<Readers.Op>, other: seq<Seg>)
    returns (m: nat, junk: seq<Record>)
    requires Supported(c) && LogInv(c, l)
    requires Readers.After(c, l, ops).Some? && Readers.After(c, l, ops).value.at == |l|
    requires var l' := Readers.After(c, l, ops).value.l;
             Base(l) + |Records(l')| + |Active(l').junk| < TWO64
    ensures var s := Readers.After(c, l, ops).value;
            && |Records(l)| <= m && Streamed(s.l, m, junk) && Base(s.l) == Base(l)
            && (junk != [] ==> !Accepts(c, s.l))
            && Restores(c, s.l, m, junk, Parse(s.out), other)
  {
    hide LogInv, Records, Parse, Accepts, Readers.After, Stream, Restores;
    var s := Readers.After(c, l, ops).value;
    m, junk := Readers.ReaderDelivers(c, l, ops);
    StreamTransfers(c, s.l, m, junk, other);
  }
}

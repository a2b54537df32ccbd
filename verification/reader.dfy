/** `Log.Reader`: the segments' stores one after the other, read without the log's lock while
    appends go on. */
module Readers {
  import opened Bytes
  import opened RecordCodec
  import opened Frames
  import opened LogModel
  import opened Partition
  import opened Replays
  import opened LogFiles
  import opened Stack
  import opened Logs
  import StoreFile

  // ---------------------------------------------------------------- one source

  /** What a read of `len` bytes at `off` delivers, and whether it ends the file. */
  function Chunk(bytes: seq<byte>, off: nat, len: nat): (r: (seq<byte>, bool))
    requires off <= |bytes|
  {
    if off + len <= |bytes| then (bytes[off..off + len], false) else (bytes[off..], true)
  }

  class OriginReader {
    const store: StoreFile.Store
    var off: nat

    constructor (store: StoreFile.Store)
      ensures this.store == store && off == 0
    {
      this.store, off := store, 0;
    }

    /** Reads on from where the last read stopped. */
    method Read(len: nat) returns (p: seq<byte>, eof: bool)
      requires store.Valid() && off <= |store.Contents()|
      modifies this`off, store
      ensures store.Valid() && store.Contents() == old(store.Contents())
      ensures (p, eof) == Chunk(store.Contents(), old(off), len)
      ensures off == old(off) + |p| <= |store.Contents()|
    {
      p, eof := store.ReadAt(len, off);
      ghost var bytes := store.Contents();
      assert p == bytes[off..][..|p|] == bytes[off..off + |p|];
      assert (p, eof) == Chunk(bytes, off, len);
      off := off + |p|;
    }
  }

  /** One reader at the start of every segment's store, in order. */
  method Reader(log: Log) returns (readers: seq<OriginReader>)
    requires log.Valid()
    ensures |readers| == |log.segments|
    ensures forall i :: 0 <= i < |readers| ==>
              fresh(readers[i]) && readers[i].store == log.segments[i].store && readers[i].off == 0
    ensures |readers| == |log.model| && forall i :: 0 <= i < |readers| ==>
              readers[i].store.Valid() && readers[i].store.Contents() == StoreBytes(log.model[i])
  {
    hide LogInv, NamesOf, Mirror, StoreBytes;
    readers := [];
    while |readers| < |log.segments|
      invariant |readers| <= |log.segments|
      invariant forall i :: 0 <= i < |readers| ==>
                  fresh(readers[i]) && readers[i].store == log.segments[i].store && readers[i].off == 0
    {
      var r := new OriginReader(log.segments[|readers|].store);
      readers := readers + [r];
    }
    forall i | 0 <= i < |readers|
      ensures readers[i].store.Valid() && readers[i].store.Contents() == StoreBytes(log.model[i])
    {
      StoreOf(log.segments[i], log.model[i], log.dir, log.limits);
    }
  }

  // ---------------------------------------------------------------- interleaved with appends

  /** The log, and a reader opened on its first `sources` segments: it stands at byte `off` of
      source `at` and has delivered `out`. `end` is the last source as it was when it ended. */
  datatype State = State(l: seq<Seg>, sources: nat, at: nat, off: nat, out: seq<byte>, end: Seg)

  datatype Op = Append(r: Record) | Pull(len: nat)

  function Opened(l: seq<Seg>): State
    requires l != []
  {
    State(l, |l|, 0, 0, [], Active(l))
  }

  predicate Enabled(s: State, op: Op) {
    match op
    case Append(_) => s.l != [] && OffsetsLeft(s.l)
    case Pull(len) => 0 < len && s.at < s.sources <= |s.l| && s.off <= |StoreBytes(s.l[s.at])|
  }

  /** An append, or a read of the current source; at its end the reader moves on to the next. */
  function Step(c: Limits, s: State, op: Op): State
    requires Enabled(s, op)
  {
    match op
    case Append(r) => s.(l := AfterAppend(c, s.l, r))
    case Pull(len) =>
      var (p, eof) := Chunk(StoreBytes(s.l[s.at]), s.off, len);
      if eof then s.(at := s.at + 1, off := 0, out := s.out + p, end := s.l[s.at])
      else s.(off := s.off + len, out := s.out + p)
  }

  /** `t` is `s` after more appends. */
  ghost predicate Extends(s: Seg, t: Seg) {
    && s.base == t.base && s.recs <= t.recs && s.recs + s.junk <= t.recs + t.junk
    && (s.junk != [] ==> s.recs == t.recs)
  }

  lemma AppendExtends(c: Limits, l: seq<Seg>, r: Record)
    requires LogInv(c, l)
    ensures var l' := AfterAppend(c, l, r);
            |l| <= |l'| && Sealeds(l) == l'[..|l| - 1] && Extends(Active(l), l'[|l| - 1])
  {
    hide Maxed, Sealed, Open, Stream, Entries;
    var s := Active(l);
    assert SegOk(c, s);
    assert Accepts(c, l) ==> s.junk == [];
  }

  lemma ExtendsSelf(s: Seg)
    ensures Extends(s, s)
  {
  }

  lemma ExtendsTrans(s: Seg, t: Seg, u: Seg)
    requires Extends(s, t) && Extends(t, u)
    ensures Extends(s, u)
  {
  }

  lemma ExtendsBytes(s: Seg, t: Seg)
    requires Extends(s, t)
    ensures StoreBytes(s) <= StoreBytes(t)
  {
    hide Stream;
    StreamSplit(t.recs + t.junk, |s.recs + s.junk|);
    assert (t.recs + t.junk)[..|s.recs + s.junk|] == s.recs + s.junk;
  }

  /** Everything before a log's last segment, byte for byte. */
  ghost function Before(l: seq<Seg>, k: nat): seq<byte>
    requires k <= |l|
  {
    Stream(Records(l[..k]))
  }

  ghost predicate ReaderInv(c: Limits, l0: seq<Seg>, s: State)
    requires l0 != []
  {
    && LogInv(c, s.l) && s.sources == |l0| <= |s.l| && s.at <= |l0|
    && Sealeds(l0) == s.l[..|l0| - 1]
    && Extends(Active(l0), s.l[|l0| - 1])
    && (s.at < |l0| ==>
          && s.off <= |StoreBytes(s.l[s.at])|
          && s.out == Before(s.l, s.at) + StoreBytes(s.l[s.at])[..s.off])
    && (s.at == |l0| ==>
          && Extends(Active(l0), s.end) && Extends(s.end, s.l[|l0| - 1])
          && s.out == Before(s.l, |l0| - 1) + StoreBytes(s.end))
  }

  lemma OpenedInv(c: Limits, l: seq<Seg>)
    requires LogInv(c, l)
    ensures ReaderInv(c, l, Opened(l))
  {
    hide LogInv, StoreBytes;
    assert l[..0] == [];
    assert StoreBytes(l[0])[..0] == [];
  }

  lemma AppendKeepsInv(c: Limits, l0: seq<Seg>, s: State, r: Record)
    requires Supported(c) && l0 != [] && ReaderInv(c, l0, s) && Enabled(s, Append(r))
    ensures ReaderInv(c, l0, Step(c, s, Append(r)))
  {
    hide LogInv, AfterAppend, StoreBytes, Records, Extends, Before;
    var l', k := AfterAppend(c, s.l, r), |l0| - 1;
    AppendInv(c, s.l, r);
    AppendExtends(c, s.l, r);
    forall i | 0 <= i < |s.l| ensures Extends(s.l[i], l'[i]) {
      if i < |s.l| - 1 { assert s.l[i] == Sealeds(s.l)[i] == l'[i]; ExtendsSelf(s.l[i]); }
    }
    assert s.l[..k] == l'[..k];
    ExtendsTrans(Active(l0), s.l[k], l'[k]);
    if s.at < |l0| {
      ExtendsBytes(s.l[s.at], l'[s.at]);
      SameBefore(s.l, l', s.at, k);
    } else {
      ExtendsTrans(s.end, s.l[k], l'[k]);
      SameBefore(s.l, l', k, k);
    }
  }

  lemma SameBefore(l: seq<Seg>, l': seq<Seg>, i: nat, k: nat)
    requires i <= k <= |l| && k <= |l'| && l[..k] == l'[..k]
    ensures Before(l, i) == Before(l', i)
  {
    assert l[..i] == l[..k][..i] && l'[..i] == l'[..k][..i];
  }

  /** A sealed store is exactly its records' frames. */
  lemma SealedBytes(c: Limits, l: seq<Seg>, i: nat)
    requires LogInv(c, l) && i < |l| - 1
    ensures Before(l, i) + StoreBytes(l[i]) == Before(l, i + 1)
  {
    hide RecordFrame, SegOk, Maxed;
    assert Sealed(c, l[i]);
    assert l[i].recs + [] == l[i].recs;
    assert l[..i + 1] == l[..i] + [l[i]];
    RecordsSnoc(l[..i], l[i]);
    StreamConcat(Records(l[..i]), l[i].recs);
  }

  /** A source read to its end leaves everything up to the next one. */
  lemma SourceRead(c: Limits, l0: seq<Seg>, s: State, len: nat)
    requires l0 != [] && ReaderInv(c, l0, s) && Enabled(s, Pull(len))
    requires Chunk(StoreBytes(s.l[s.at]), s.off, len).1
    ensures ReaderInv(c, l0, Step(c, s, Pull(len)))
  {
    hide LogInv, StoreBytes, Before, Extends;
    var bytes := StoreBytes(s.l[s.at]);
    var p := Chunk(bytes, s.off, len).0;
    assert bytes[..s.off] + p == bytes;
    assert s.out + p == Before(s.l, s.at) + bytes;
    if s.at < |l0| - 1 {
      SealedBytes(c, s.l, s.at);
      assert StoreBytes(s.l[s.at + 1])[..0] == [];
    } else {
      ExtendsSelf(s.l[s.at]);
    }
  }

  lemma PullKeepsInv(c: Limits, l0: seq<Seg>, s: State, len: nat)
    requires l0 != [] && ReaderInv(c, l0, s) && Enabled(s, Pull(len))
    ensures ReaderInv(c, l0, Step(c, s, Pull(len)))
  {
    hide LogInv, StoreBytes, Before, Extends;
    var bytes := StoreBytes(s.l[s.at]);
    var (p, eof) := Chunk(bytes, s.off, len);
    if eof {
      SourceRead(c, l0, s, len);
    } else {
      assert bytes[..s.off] + p == bytes[..s.off + len];
    }
  }

  /** The state after `ops`, if each is enabled in its turn. */
  ghost function After(c: Limits, l0: seq<Seg>, ops: seq<Op>): (r: Option<State>)
    requires Supported(c) && LogInv(c, l0)
    ensures r.Some? ==> ReaderInv(c, l0, r.value) && LogInv(c, r.value.l)
  {
    if ops == [] then OpenedInv(c, l0); Some(Opened(l0))
    else
      match After(c, l0, ops[..|ops| - 1])
      case None => None
      case Some(s) =>
        var op := ops[|ops| - 1];
        if !Enabled(s, op) then None
        else
          if op.Append? then AppendKeepsInv(c, l0, s, op.r); Some(Step(c, s, op))
          else PullKeepsInv(c, l0, s, op.len); Some(Step(c, s, op))
  }

  /** The stream read to its end: whole frames, of the records from the lowest offset on without
      gap, at least all that `l0` held. Frames of refused appends can only follow when the log holds
      nothing beyond them and takes no more records. */
  ghost predicate DeliveredAs(c: Limits, l0: seq<Seg>, s: State, m: nat, junk: seq<Record>)
    requires l0 != [] && s.l != []
  {
    && Base(s.l) == Base(l0) && Records(l0) <= Records(s.l) && |Records(l0)| <= m
    && Streamed(s.l, m, junk) && s.out == Stream(Records(s.l)[..m] + junk)
    && (junk != [] ==> !Accepts(c, s.l))
  }

  /** So it is however reads and appends interleave, and whatever the buffer sizes. */
  lemma ReaderDelivers(c: Limits, l0: seq<Seg>, ops: seq<Op>) returns (m: nat, junk: seq<Record>)
    requires Supported(c) && LogInv(c, l0)
    requires After(c, l0, ops).Some? && After(c, l0, ops).value.at == |l0|
    ensures DeliveredAs(c, l0, After(c, l0, ops).value, m, junk)
  {
    hide LogInv, ReaderInv, DeliveredAs;
    var s := After(c, l0, ops).value;
    m, junk := Count(l0, s), s.end.junk;
    Delivered(c, l0, s);
  }

  /** The records delivered: those of the sealed sources and of the last one. */
  ghost function Count(l0: seq<Seg>, s: State): nat
    requires l0 != []
  {
    |Records(Sealeds(l0))| + |s.end.recs|
  }

  lemma {:induction false} RecordsPrefix(l: seq<Seg>, k: nat)
    requires k <= |l|
    ensures Records(l[..k]) <= Records(l)
  {
    hide Records;
    RecordsConcat(l[..k], l[k..]);
    assert l == l[..k] + l[k..];
  }

  /** The records of the first `k` segments and of a segment that grew into the next one. */
  lemma {:induction false} FrontRecords(l: seq<Seg>, k: nat, s: Seg)
    requires k < |l| && s.recs <= l[k].recs
    ensures Records(l[..k]) + s.recs <= Records(l)
  {
    hide Records;
    RecordsSnoc(l[..k], l[k]);
    assert l[..k + 1] == l[..k] + [l[k]];
    RecordsPrefix(l, k + 1);
    assert Records(l[..k]) + s.recs <= Records(l[..k]) + l[k].recs;
  }

  lemma FrontBytes(l: seq<Seg>, s: Seg)
    ensures Stream(Records(l)) + StoreBytes(s) == Stream(Records(l) + s.recs + s.junk)
  {
    hide Records, Stream;
    StreamConcat(Records(l), s.recs + s.junk);
    assert Records(l) + (s.recs + s.junk) == Records(l) + s.recs + s.junk;
  }

  lemma Delivered(c: Limits, l0: seq<Seg>, s: State)
    requires LogInv(c, l0) && ReaderInv(c, l0, s) && s.at == |l0|
    ensures DeliveredAs(c, l0, s, Count(l0, s), s.end.junk)
  {
    hide LogInv, Records, Stream, StoreBytes, Accepts;
    var k := |l0| - 1;
    var front := s.l[..k];
    assert Sealeds(l0) == front && l0 == front + [Active(l0)];
    RecordsSnoc(front, Active(l0));
    FrontRecords(s.l, k, Active(l0));
    FrontRecords(s.l, k, s.end);
    assert Records(s.l)[..Count(l0, s)] == Records(front) + s.end.recs;
    FrontBytes(front, s.end);
    assert k > 0 ==> l0[0] == front[0];
    if s.end.junk != [] {
      JunkIsLast(c, s.l, k, s.end);
    }
  }

  lemma JunkWithin(s: Seg, t: Seg)
    requires Extends(s, t) && s.junk != []
    ensures s.recs == t.recs && s.junk <= t.junk && t.junk != []
  {
    assert s.junk == (s.recs + s.junk)[|s.recs|..];
    assert t.junk == (t.recs + t.junk)[|s.recs|..];
  }

  /** A segment that holds an unindexed frame is the active one, and full. */
  lemma JunkIsLast(c: Limits, l: seq<Seg>, k: nat, s: Seg)
    requires LogInv(c, l) && k < |l| && Extends(s, l[k]) && s.junk != []
    ensures Records(l) == Records(l[..k]) + s.recs && s.junk <= Active(l).junk && !Accepts(c, l)
  {
    hide LogInv, Maxed, Records, Entries;
    InvSegment(c, l, k);
    JunkWithin(s, l[k]);
    RecordsSnoc(l[..k], l[k]);
    assert l == l[..k] + [l[k]];
  }

  // ---------------------------------------------------------------- without appends

  /** Everything a log's stores hold, from the first segment to the last. */
  function Snapshot(l: seq<Seg>): seq<byte>
    requires l != []
  {
    Stream(Records(l) + Active(l).junk)
  }

  ghost predicate Quiet(ops: seq<Op>) {
    forall i :: 0 <= i < |ops| ==> ops[i].Pull?
  }

  lemma {:induction false} PullsKeepLog(c: Limits, l0: seq<Seg>, ops: seq<Op>)
    requires Supported(c) && LogInv(c, l0) && Quiet(ops) && After(c, l0, ops).Some?
    ensures After(c, l0, ops).value.l == l0
  {
    hide LogInv, ReaderInv, StoreBytes;
    if ops != [] {
      PullsKeepLog(c, l0, ops[..|ops| - 1]);
      assert ops[|ops| - 1].Pull?;
    }
  }

  lemma ExtendsBothWays(s: Seg, t: Seg)
    requires Extends(s, t) && Extends(t, s)
    ensures s == t
  {
    assert s.recs == t.recs;
    assert s.recs + s.junk == t.recs + t.junk;
    assert s.junk == (s.recs + s.junk)[|s.recs|..] == t.junk;
  }

  /** Reading alone, in chunks of any sizes, to the end delivers exactly what the stores hold. */
  lemma QuietReader(c: Limits, l0: seq<Seg>, ops: seq<Op>)
    requires Supported(c) && LogInv(c, l0) && Quiet(ops)
    requires After(c, l0, ops).Some? && After(c, l0, ops).value.at == |l0|
    ensures After(c, l0, ops).value.l == l0 && After(c, l0, ops).value.out == Snapshot(l0)
  {
    hide LogInv, Records, Stream, After, Accepts, Extends;
    var s := After(c, l0, ops).value;
    PullsKeepLog(c, l0, ops);
    ExtendsBothWays(s.end, Active(l0));
    Delivered(c, l0, s);
    RecordsSnoc(Sealeds(l0), Active(l0));
    assert l0 == Sealeds(l0) + [Active(l0)];
    assert Records(l0)[..|Records(l0)|] == Records(l0);
  }

  /** The read that takes the rest of the current source. */
  ghost function Rest(s: State): Op
    requires s.at < |s.l|
  {
    Pull(|StoreBytes(s.l[s.at])| + 1)
  }

  lemma RestEnds(c: Limits, s: State)
    requires s.at < s.sources <= |s.l| && s.off == 0
    ensures Enabled(s, Rest(s))
    ensures var s' := Step(c, s, Rest(s));
            s'.l == s.l && s'.at == s.at + 1 && s'.off == 0 && s'.end == s.l[s.at]
  {
    hide StoreBytes;
  }

  lemma ReadOn(c: Limits, l: seq<Seg>, ops: seq<Op>)
    requires Supported(c) && LogInv(c, l) && After(c, l, ops).Some?
    requires After(c, l, ops).value.at < |l| && After(c, l, ops).value.off == 0
    ensures var s := After(c, l, ops).value;
            && |l| <= |s.l|
            && After(c, l, ops + [Rest(s)]).Some?
            && var s' := After(c, l, ops + [Rest(s)]).value;
               s'.l == s.l && s'.at == s.at + 1 && s'.off == 0 && s'.end == s.l[s.at]
  {
    hide LogInv, Enabled, Step, Rest, StoreBytes, Extends, Before;
    var s := After(c, l, ops).value;
    RestEnds(c, s);
    assert (ops + [Rest(s)])[..|ops|] == ops;
  }

  /** There is such a run on every log: one read past the end of each store. */
  lemma {:induction false} QuietRun(c: Limits, l: seq<Seg>, k: nat) returns (ops: seq<Op>)
    requires Supported(c) && LogInv(c, l) && k <= |l|
    ensures Quiet(ops) && After(c, l, ops).Some?
    ensures After(c, l, ops).value.at == k && After(c, l, ops).value.off == 0
  {
    hide LogInv, ReaderInv;
    if k == 0 {
      ops := [];
    } else {
      var front := QuietRun(c, l, k - 1);
      hide After;
      ReadOn(c, l, front);
      ops := front + [Rest(After(c, l, front).value)];
    }
  }

  // ---------------------------------------------------------------- overtaken by an append

  /** Some append comes before some later read. */
  ghost predicate AppendBeforeRead(ops: seq<Op>) {
    exists a, b :: 0 <= a < b < |ops| && ops[a].Append? && ops[b].Pull?
  }

  lemma LastRead(ops: seq<Op>)
    requires ops != []
    ensures var front := ops[..|ops| - 1];
            AppendBeforeRead(ops) <==> AppendBeforeRead(front) || (ops[|ops| - 1].Pull? && !Quiet(front))
  {
    var front, n := ops[..|ops| - 1], |ops| - 1;
    if AppendBeforeRead(front) {
      var a, b :| 0 <= a < b < |front| && front[a].Append? && front[b].Pull?;
      assert ops[a].Append? && ops[b].Pull?;
    }
    if ops[n].Pull? && !Quiet(front) {
      var a :| 0 <= a < |front| && !front[a].Pull?;
      assert ops[a].Append? && ops[n].Pull?;
    }
    if AppendBeforeRead(ops) {
      var a, b :| 0 <= a < b < |ops| && ops[a].Append? && ops[b].Pull?;
      assert front[a].Append? && (b < n ==> front[b].Pull?);
    }
  }

  /** The source that was active at opening has grown as soon as anything was appended. */
  lemma {:induction false} SourceGrows(c: Limits, l: seq<Seg>, ops: seq<Op>)
    requires Supported(c) && LogInv(c, l) && Accepts(c, l) && After(c, l, ops).Some?
    ensures |l| <= |After(c, l, ops).value.l|
    ensures Quiet(ops) || |Active(l).recs| < |After(c, l, ops).value.l[|l| - 1].recs|
  {
    hide LogInv, AfterAppend, StoreBytes, Accepts, ReaderInv;
    if ops != [] {
      var front, op := ops[..|ops| - 1], ops[|ops| - 1];
      SourceGrows(c, l, front);
      var s := After(c, l, front).value;
      if op.Append? {
        if Quiet(front) {
          PullsKeepLog(c, l, front);
          GrownSource(c, l, op.r);
        } else {
          SourceStays(c, l, s, op.r);
        }
      } else {
        assert Quiet(front) ==> Quiet(ops);
      }
    }
  }

  lemma SourceStays(c: Limits, l: seq<Seg>, s: State, r: Record)
    requires LogInv(c, s.l) && OffsetsLeft(s.l) && l != [] && |l| <= |s.l|
    ensures var l' := AfterAppend(c, s.l, r);
            |l| <= |l'| && |s.l[|l| - 1].recs| <= |l'[|l| - 1].recs|
  {
    hide LogInv, AfterAppend;
    AppendExtends(c, s.l, r);
    if |l| < |s.l| {
      assert s.l[|l| - 1] == Sealeds(s.l)[|l| - 1];
    }
  }

  /** The last source ended longer than it was at opening exactly when an append came before a read. */
  lemma {:induction false} EndGrows(c: Limits, l: seq<Seg>, ops: seq<Op>)
    requires Supported(c) && LogInv(c, l) && Accepts(c, l)
    requires After(c, l, ops).Some? && After(c, l, ops).value.at == |l|
    ensures if AppendBeforeRead(ops) then |Active(l).recs| < |After(c, l, ops).value.end.recs|
            else After(c, l, ops).value.end == Active(l)
  {
    hide LogInv, AfterAppend, StoreBytes, Accepts, Before, AppendBeforeRead, Quiet, Extends;
    if ops != [] {
      var front, op := ops[..|ops| - 1], ops[|ops| - 1];
      LastRead(ops);
      if op.Append? {
        EndGrows(c, l, front);
      } else {
        SourceGrows(c, l, front);
        if Quiet(front) {
          PullsKeepLog(c, l, front);
          NoneInFront(front);
        }
        assert After(c, l, ops).value.end == After(c, l, front).value.l[|l| - 1];
      }
    }
  }

  lemma NoneInFront(ops: seq<Op>)
    requires Quiet(ops)
    ensures !AppendBeforeRead(ops)
  {
  }

  /** The records appended during a run, in order. */
  function AppendsIn(ops: seq<Op>): seq<Record> {
    if ops == [] then []
    else
      AppendsIn(ops[..|ops| - 1]) +
      match ops[|ops| - 1]
      case Append(r) => [r]
      case Pull(_) => []
  }

  lemma {:induction false} QuietAppendsNone(ops: seq<Op>)
    requires Quiet(ops)
    ensures AppendsIn(ops) == []
  {
    if ops != [] { QuietAppendsNone(ops[..|ops| - 1]); }
  }

  /** Reading does not change the log: it is the one these appends leave. */
  lemma {:induction false} ReaderReplays(c: Limits, l: seq<Seg>, ops: seq<Op>)
    requires Supported(c) && LogInv(c, l) && After(c, l, ops).Some?
    requires Next(Active(l)) + |AppendsIn(ops)| < TWO64
    ensures After(c, l, ops).value.l == Replay(c, l, AppendsIn(ops))
  {
    hide LogInv, AfterAppend, StoreBytes, ReaderInv, Accepts;
    if ops != [] {
      var front, op := ops[..|ops| - 1], ops[|ops| - 1];
      ReaderReplays(c, l, front);
      match op
      case Append(r) => ReplaySnoc(c, l, AppendsIn(front), r);
      case Pull(_) => assert AppendsIn(front) + [] == AppendsIn(front);
    }
  }

  /** An append between the call of `Reader` and the first read, and then one read past the end of
      each store. */
  lemma {:induction false} LateRun(c: Limits, l: seq<Seg>, r: Record, k: nat) returns (ops: seq<Op>)
    requires Supported(c) && LogInv(c, l) && OffsetsLeft(l) && k <= |l|
    ensures After(c, l, ops).Some?
    ensures var s := After(c, l, ops).value;
            && s.l == AfterAppend(c, l, r) && |l| <= |s.l| && s.at == k && s.off == 0
            && (k > 0 ==> s.end == s.l[k - 1])
    ensures AppendsIn(ops) == [r]
  {
    hide LogInv, AfterAppend, Extends, ReaderInv;
    AppendExtends(c, l, r);
    if k == 0 {
      ops := [Append(r)];
      assert After(c, l, ops[..0]) == Some(Opened(l));
      assert AppendsIn(ops[..0]) == [];
    } else {
      var front := LateRun(c, l, r, k - 1);
      hide After;
      ReadOn(c, l, front);
      ops := front + [Rest(After(c, l, front).value)];
    }
  }

  /** Then the stream holds the new record as well. */
  lemma LateReader(c: Limits, l: seq<Seg>, r: Record) returns (ops: seq<Op>)
    requires Supported(c) && LogInv(c, l) && OffsetsLeft(l) && Accepts(c, l)
    ensures After(c, l, ops).Some?
    ensures var s := After(c, l, ops).value;
            && s.at == |l| && s.l == AfterAppend(c, l, r) && AppendsIn(ops) == [r]
            && s.out == Stream(Records(l) + [Record(r.value, Next(Active(l)), r.term, r.kind)])
  {
    hide LogInv, Records, Stream, After, ReaderInv, DeliveredAs;
    ops := LateRun(c, l, r, |l|);
    var s := After(c, l, ops).value;
    AppendInv(c, l, r);
    GrownSource(c, l, r);
    Delivered(c, l, s);
    LateCount(c, l, s, r);
  }

  lemma GrownSource(c: Limits, l: seq<Seg>, r: Record)
    requires LogInv(c, l) && OffsetsLeft(l) && Accepts(c, l)
    ensures var l' := AfterAppend(c, l, r);
            |l| <= |l'| && |l'[|l| - 1].recs| == |Active(l).recs| + 1 && l'[|l| - 1].junk == []
  {
    hide Maxed, Sealed, Open;
    assert SegOk(c, Active(l));
  }

  lemma LateCount(c: Limits, l: seq<Seg>, s: State, r: Record)
    requires LogInv(c, l) && Next(Active(l)) < TWO64 && s.l != []
    requires DeliveredAs(c, l, s, Count(l, s), s.end.junk)
    requires |s.end.recs| == |Active(l).recs| + 1 && s.end.junk == []
    requires Records(s.l) == Records(l) + [Stamp(r, Next(Active(l)))]
    ensures s.out == Stream(Records(l) + [Stamp(r, Next(Active(l)))])
  {
    hide LogInv, Records, Stream;
    assert l == Sealeds(l) + [Active(l)];
    RecordsSnoc(Sealeds(l), Active(l));
    assert Records(s.l)[..Count(l, s)] + [] == Records(s.l);
  }
}

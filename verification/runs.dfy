/** Whole runs of a log against the simple log: a lowest offset and a sequence of records. */
module Runs {
  import opened Bytes
  import opened RecordCodec
  import opened LogModel
  import opened Truncation
  import opened Logs
  import opened Segments
  import opened Capacity
  import opened Whole
  import Partition

  datatype Op = Append(record: Record) | Read(off: uint64) | Truncate(lowest: uint64) | Reopen

  datatype Reply = Appended(off: nat) | Refused | Answered(result: ReadResult) | Done

  // ---------------------------------------------------------------- the segmented log

  /** The operation neither exhausts the 64-bit offsets nor truncates the active segment away. */
  predicate Enabled(l: seq<Seg>, op: Op)
    requires l != []
  {
    match op
    case Append(_) => OffsetsLeft(l)
    case Truncate(lowest) => Bound(lowest) < Next(Active(l))
    case _ => true
  }

  function Step(c: Limits, l: seq<Seg>, op: Op): seq<Seg>
    requires l != [] && Enabled(l, op)
  {
    match op
    case Append(r) => AfterAppend(c, l, r)
    case Truncate(lowest) => Keep(l, lowest)
    case _ => l
  }

  function ReplyTo(c: Limits, l: seq<Seg>, op: Op): Reply
    requires l != []
  {
    match op
    case Append(_) => if Accepts(c, l) then Appended(Next(Active(l))) else Refused
    case Read(off) => Answered(Answer(Lookup(Base(l), Records(l), off), off))
    case _ => Done
  }

  /** The state after `ops`, all of them enabled when their turn comes; none if one is not. */
  ghost function After(c: Limits, l: seq<Seg>, ops: seq<Op>): (r: Option<seq<Seg>>)
    requires Supported(c) && LogInv(c, l)
    ensures r.Some? ==> LogInv(c, r.value)
  {
    if ops == [] then Some(l)
    else
      match After(c, l, ops[..|ops| - 1])
      case None => None
      case Some(m) =>
        if Enabled(m, ops[|ops| - 1]) then
          StepInv(c, m, ops[|ops| - 1]);
          Some(Step(c, m, ops[|ops| - 1]))
        else None
  }

  lemma StepInv(c: Limits, l: seq<Seg>, op: Op)
    requires Supported(c) && LogInv(c, l) && Enabled(l, op)
    ensures LogInv(c, Step(c, l, op))
  {
    hide LogInv;
    match op
    case Append(r) => AppendInv(c, l, r);
    case Truncate(lowest) => TruncateInv(c, l, lowest);
    case _ =>
  }

  /** The replies of the run. */
  ghost function Replies(c: Limits, l: seq<Seg>, ops: seq<Op>): (rs: seq<Reply>)
    requires Supported(c) && LogInv(c, l) && After(c, l, ops).Some?
    ensures |rs| == |ops|
  {
    if ops == [] then []
    else
      var front := ops[..|ops| - 1];
      Replies(c, l, front) + [ReplyTo(c, After(c, l, front).value, ops[|ops| - 1])]
  }

  /** One operation on the log itself, file handling and all. */
  method Perform(log: Log, op: Op) returns (log': Log, reply: Reply)
    requires log.Valid() && Enabled(log.model, op)
    modifies log.Repr()
    ensures log'.Valid() && log'.limits == log.limits && fresh(log'.Repr() - old(log.Repr()))
    ensures log'.model == Step(log.limits, old(log.model), op)
    ensures reply == ReplyTo(log.limits, old(log.model), op)
  {
    hide Log.Valid, LogInv, Records, AfterAppend, Keep;
    log.ValidFacts();
    log' := log;
    match op
    case Append(r) =>
      var record := new RecordRef(r);
      var off := log.Append(record);
      reply := if off.Some? then Appended(off.value) else Refused;
    case Read(off) =>
      var r := log.Read(off);
      reply := Answered(r);
    case Truncate(lowest) =>
      log.Truncate(lowest);
      reply := Done;
    case Reopen =>
      log' := Logs.Reopen(log);
      reply := Done;
  }

  /** A whole run on the log itself gives the states and replies of the model. */
  method Execute(log: Log, ops: seq<Op>) returns (log': Log, replies: seq<Reply>)
    requires log.Valid() && After(log.limits, log.model, ops).Some?
    modifies log.Repr()
    ensures log'.Valid() && log'.limits == log.limits && fresh(log'.Repr() - old(log.Repr()))
    ensures After(log.limits, old(log.model), ops) == Some(log'.model)
    ensures replies == Replies(log.limits, old(log.model), ops)
  {
    hide Log.Valid, LogInv, Step, ReplyTo, Enabled;
    log.ValidFacts();
    log', replies := log, [];
    var i := 0;
    while i < |ops|
      invariant 0 <= i <= |ops|
      invariant log'.Valid() && log'.limits == log.limits && fresh(log'.Repr() - old(log.Repr()))
      invariant After(log.limits, old(log.model), ops[..i]) == Some(log'.model)
      invariant replies == Replies(log.limits, old(log.model), ops[..i])
    {
      AfterPrefix(log.limits, old(log.model), ops, i + 1);
      assert ops[..i + 1][..i] == ops[..i];
      var reply;
      log', reply := Perform(log', ops[i]);
      replies := replies + [reply];
      i := i + 1;
    }
    assert ops[..|ops|] == ops;
  }

  lemma {:induction false} AfterPrefix(c: Limits, l: seq<Seg>, ops: seq<Op>, k: nat)
    requires Supported(c) && LogInv(c, l) && k <= |ops| && After(c, l, ops).Some?
    ensures After(c, l, ops[..k]).Some?
  {
    if k < |ops| {
      AfterPrefix(c, l, ops[..|ops| - 1], k);
      assert ops[..|ops| - 1][..k] == ops[..k];
    } else {
      assert ops[..k] == ops;
    }
  }

  // ---------------------------------------------------------------- the simple log

  datatype Simple = Simple(base: nat, recs: seq<Record>)

  function Abs(l: seq<Seg>): Simple
    requires l != []
  {
    Simple(Base(l), Records(l))
  }

  /** What the simple log may do: an append adds the stamped record or is refused without effect,
      a read looks up, a truncation drops a prefix of records none of which is above `lowest`. */
  ghost predicate SimpleStep(a: Simple, op: Op, reply: Reply, a': Simple) {
    match op
    case Append(r) =>
      var off := a.base + |a.recs|;
      || (off < TWO64 && reply == Appended(off)
          && a' == Simple(a.base, a.recs + [Record(r.value, off, r.term, r.kind)]))
      || (reply == Refused && a' == a)
    case Read(off) => reply == Answered(Answer(Lookup(a.base, a.recs, off), off)) && a' == a
    case Truncate(lowest) =>
      && reply == Done
      && a.base <= a'.base <= a.base + |a.recs|
      && (a.base < a'.base ==> a'.base <= Bound(lowest))
      && a'.recs == a.recs[a'.base - a.base..]
    case Reopen => reply == Done && a' == a
  }

  /** Every step of the segmented log is a step of the simple one. */
  lemma StepRefines(c: Limits, l: seq<Seg>, op: Op)
    requires Supported(c) && LogInv(c, l) && Enabled(l, op)
    ensures LogInv(c, Step(c, l, op))
    ensures SimpleStep(Abs(l), op, ReplyTo(c, l, op), Abs(Step(c, l, op)))
  {
    hide LogInv, Records, Keep, AfterAppend, Accepts;
    StepInv(c, l, op);
    InvLinked(c, l);
    RecordsSpan(l);
    match op
    case Append(r) => AppendInv(c, l, r);
    case Truncate(lowest) => TruncateInv(c, l, lowest);
    case _ =>
  }

  lemma {:induction false} RepliesAt(c: Limits, l: seq<Seg>, ops: seq<Op>, k: nat)
    requires Supported(c) && LogInv(c, l) && k < |ops| && After(c, l, ops).Some?
    ensures After(c, l, ops[..k]).Some? && After(c, l, ops[..k + 1]).Some?
    ensures var m := After(c, l, ops[..k]).value;
            && Enabled(m, ops[k]) && After(c, l, ops[..k + 1]) == Some(Step(c, m, ops[k]))
            && Replies(c, l, ops)[k] == ReplyTo(c, m, ops[k])
  {
    hide LogInv, Step, ReplyTo, Enabled;
    AfterPrefix(c, l, ops, k);
    AfterPrefix(c, l, ops, k + 1);
    assert ops[..k + 1][..k] == ops[..k];
    if k < |ops| - 1 {
      RepliesAt(c, l, ops[..|ops| - 1], k);
      assert ops[..|ops| - 1][..k] == ops[..k];
    }
  }

  /** Between operations `i` and `k` some truncation reached up to `off`. */
  ghost predicate TruncatedBetween(ops: seq<Op>, i: nat, k: nat, off: nat)
    requires k <= |ops|
  {
    exists t :: i < t < k && ops[t].Truncate? && off < Bound(ops[t].lowest)
  }

  lemma TruncatedBy(ops: seq<Op>, i: nat, k: nat, off: nat)
    requires i + 1 < k <= |ops|
    ensures TruncatedBetween(ops, i, k - 1, off) ==> TruncatedBetween(ops, i, k, off)
    ensures ops[k - 1].Truncate? && off < Bound(ops[k - 1].lowest) ==> TruncatedBetween(ops, i, k, off)
  {
    hide Bound;
  }

  /** A record, once readable, stays readable until a truncation reaches it. */
  lemma {:induction false} Persists(c: Limits, l: seq<Seg>, ops: seq<Op>, i: nat, k: nat, off: nat, r: Record)
    requires Supported(c) && LogInv(c, l) && After(c, l, ops).Some? && i < k <= |ops|
    requires After(c, l, ops[..i + 1]).Some? && After(c, l, ops[..k]).Some?
    requires var a := Abs(After(c, l, ops[..i + 1]).value); Lookup(a.base, a.recs, off) == Some(r)
    ensures var a := Abs(After(c, l, ops[..k]).value);
            || Lookup(a.base, a.recs, off) == Some(r)
            || (off < a.base && TruncatedBetween(ops, i, k, off))
    decreases k
  {
    hide LogInv, Step, ReplyTo, Enabled, Base, Records, After, Lookup, Bound, SimpleStep, TruncatedBetween;
    if i + 1 < k {
      RepliesAt(c, l, ops, k - 1);
      assert ops[..k - 1 + 1] == ops[..k];
      Persists(c, l, ops, i, k - 1, off, r);
      var m := After(c, l, ops[..k - 1]).value;
      StepRefines(c, m, ops[k - 1]);
      TruncatedBy(ops, i, k, off);
      SimpleKeeps(Abs(m), ops[k - 1], ReplyTo(c, m, ops[k - 1]), Abs(Step(c, m, ops[k - 1])), off, r);
    }
  }

  lemma SimpleKeeps(a: Simple, op: Op, reply: Reply, a': Simple, off: nat, r: Record)
    requires SimpleStep(a, op, reply, a')
    ensures off < a.base ==> off < a'.base
    ensures Lookup(a.base, a.recs, off) == Some(r) ==>
              || Lookup(a'.base, a'.recs, off) == Some(r)
              || (off < a'.base && op.Truncate? && off < Bound(op.lowest))
  {
    hide Bound, Answer, Lookup;
    match op
    case Append(_) => LookupSnoc(a.base, a.recs, a'.recs, off);
    case Truncate(_) => LookupDrop(a.base, a.recs, a'.base - a.base, off);
    case _ =>
  }

  lemma LookupSnoc(base: nat, recs: seq<Record>, recs': seq<Record>, off: nat)
    requires recs <= recs'
    ensures Lookup(base, recs, off).Some? ==> Lookup(base, recs', off) == Lookup(base, recs, off)
  {
  }

  /** In every run, a read of an offset that an earlier append returned gives that append's record
      under that offset; or out of range, and then some truncation in between reached it. */
  lemma ReadsBackAppends(c: Limits, l: seq<Seg>, ops: seq<Op>, i: nat, j: nat)
    requires Supported(c) && LogInv(c, l) && After(c, l, ops).Some? && i < j < |ops|
    requires ops[i].Append? && Replies(c, l, ops)[i].Appended?
    requires ops[j].Read? && ops[j].off == Replies(c, l, ops)[i].off
    ensures var off, r := ops[j].off, ops[i].record;
            || Replies(c, l, ops)[j] == Answered(Found(Record(r.value, off, r.term, r.kind)))
            || (Replies(c, l, ops)[j] == Answered(OutOfRange(off)) && TruncatedBetween(ops, i, j, off))
  {
    hide LogInv, Records, After, Replies, AfterAppend, Accepts;
    var off, r := ops[j].off, Stamp(ops[i].record, ops[j].off);
    RepliesAt(c, l, ops, i);
    RepliesAt(c, l, ops, j);
    var m := After(c, l, ops[..i]).value;
    StepRefines(c, m, ops[i]);
    Persists(c, l, ops, i, j, off, r);
    var n := After(c, l, ops[..j]).value;
    assert Replies(c, l, ops)[j] == Answered(Answer(Lookup(Base(n), Records(n), off), off));
  }

  /** How many appends of a run were accepted. */
  function CountAppended(replies: seq<Reply>): nat {
    if replies == [] then 0
    else CountAppended(replies[..|replies| - 1]) + if replies[|replies| - 1].Appended? then 1 else 0
  }

  /** The lowest offset only rises, and the next offset counts the accepted appends. */
  lemma {:induction false} RunCounts(c: Limits, l: seq<Seg>, ops: seq<Op>)
    requires Supported(c) && LogInv(c, l) && After(c, l, ops).Some?
    ensures var m := After(c, l, ops).value;
            Base(l) <= Base(m) && Next(Active(m)) == Next(Active(l)) + CountAppended(Replies(c, l, ops))
  {
    hide LogInv, Step, ReplyTo, Enabled, Records;
    if ops != [] {
      var front, op := ops[..|ops| - 1], ops[|ops| - 1];
      RunCounts(c, l, front);
      var m := After(c, l, front).value;
      StepRefines(c, m, op);
      InvLinked(c, m);
      InvLinked(c, Step(c, m, op));
      RecordsSpan(m);
      RecordsSpan(Step(c, m, op));
      assert Replies(c, l, ops)[..|ops| - 1] == Replies(c, l, front);
    }
  }

  /** Offsets are handed out without gap or repetition: an append gets the first offset of the run
      plus the number of appends accepted before it. */
  lemma AppendsNumbered(c: Limits, l: seq<Seg>, ops: seq<Op>, i: nat)
    requires Supported(c) && LogInv(c, l) && After(c, l, ops).Some? && i < |ops|
    requires Replies(c, l, ops)[i].Appended?
    ensures Replies(c, l, ops)[i].off == Next(Active(l)) + CountAppended(Replies(c, l, ops)[..i])
  {
    hide LogInv, After, Replies, Step, Enabled, Accepts;
    RepliesAt(c, l, ops, i);
    RunCounts(c, l, ops[..i]);
    RepliesPrefix(c, l, ops, i);
  }

  lemma {:induction false} RepliesPrefix(c: Limits, l: seq<Seg>, ops: seq<Op>, i: nat)
    requires Supported(c) && LogInv(c, l) && After(c, l, ops).Some? && i <= |ops|
    ensures After(c, l, ops[..i]).Some? && Replies(c, l, ops)[..i] == Replies(c, l, ops[..i])
  {
    hide LogInv, Step, ReplyTo, Enabled;
    AfterPrefix(c, l, ops, i);
    if i == |ops| {
      assert ops[..i] == ops;
    } else {
      RepliesPrefix(c, l, ops[..|ops| - 1], i);
      assert ops[..|ops| - 1][..i] == ops[..i];
      assert Replies(c, l, ops)[..i] == Replies(c, l, ops[..|ops| - 1])[..i];
    }
  }

  /** Unless a segment at the first base can stick, no append of any run is refused. */
  lemma RunNeverRefuses(c: Limits, l: seq<Seg>, ops: seq<Op>, i: nat)
    requires Supported(c) && LogInv(c, l) && After(c, l, ops).Some? && i < |ops|
    requires Base(l) + Slots(c) <= TWO64 && !CanStick(c, Base(l))
    ensures Replies(c, l, ops)[i] != Refused
  {
    hide LogInv, After, Replies, Step, Enabled, Accepts, CanStick;
    RepliesAt(c, l, ops, i);
    RunCounts(c, l, ops[..i]);
    var m := After(c, l, ops[..i]).value;
    ActiveAbove(c, m);
    NeverSticks(c, m, Base(l));
  }

  lemma {:induction false} CountBounded(replies: seq<Reply>)
    ensures CountAppended(replies) <= |replies|
  {
    if replies != [] { CountBounded(replies[..|replies| - 1]); }
  }

  /** Runs go on as long as offsets are left and no truncation reaches the next offset. */
  lemma {:induction false} RunsExist(c: Limits, l: seq<Seg>, ops: seq<Op>)
    requires Supported(c) && LogInv(c, l) && Next(Active(l)) + |ops| < TWO64
    requires forall i :: 0 <= i < |ops| && ops[i].Truncate? ==> ops[i].lowest + 1 < Next(Active(l))
    ensures After(c, l, ops).Some?
  {
    hide LogInv, Step;
    if ops != [] {
      var front := ops[..|ops| - 1];
      RunsExist(c, l, front);
      RunCounts(c, l, front);
      CountBounded(Replies(c, l, front));
    }
  }

  // ---------------------------------------------------------------- the segments of a run

  /** A history of records after an operation: an accepted append adds its record. */
  function Longer(history: seq<Record>, op: Op, reply: Reply): seq<Record> {
    if op.Append? && reply.Appended? && reply.off < TWO64 then
      history + [Record(op.record.value, reply.off, op.record.term, op.record.kind)]
    else history
  }

  /** The records whose appends a run accepted, under the offsets it gave them. */
  function Granted(ops: seq<Op>, replies: seq<Reply>): seq<Record>
    requires |ops| == |replies|
  {
    if ops == [] then []
    else
      var n := |ops| - 1;
      Longer(Granted(ops[..n], replies[..n]), ops[n], replies[n])
  }

  /** The highest bound a run truncated at, or -1. */
  function Cut(ops: seq<Op>): int {
    if ops == [] then -1
    else
      var cut := Cut(ops[..|ops| - 1]);
      match ops[|ops| - 1]
      case Truncate(lowest) => if cut < Bound(lowest) then Bound(lowest) else cut
      case _ => cut
  }

  /** The log that the run would have left without its truncations. */
  ghost function Untruncated(c: Limits, l: seq<Seg>, ops: seq<Op>): (w: seq<Seg>)
    requires Supported(c) && LogInv(c, l) && After(c, l, ops).Some?
    ensures LogInv(c, w) && Cut(ops) < Next(Active(w))
    ensures After(c, l, ops).value == EndingAbove(w, Cut(ops))
  {
    if ops == [] then EndingAll(l); l
    else
      var w := Untruncated(c, l, ops[..|ops| - 1]);
      CutStep(c, w, Cut(ops[..|ops| - 1]), ops[|ops| - 1]);
      Grow(c, w, ops[|ops| - 1])
  }

  function Grow(c: Limits, w: seq<Seg>, op: Op): seq<Seg>
    requires w != [] && Next(Active(w)) < TWO64
  {
    match op
    case Append(r) => AfterAppend(c, w, r)
    case _ => w
  }

  lemma {:induction false} EndingAll(l: seq<Seg>)
    ensures EndingAbove(l, -1) == l
  {
    if l != [] { EndingAll(l[..|l| - 1]); }
  }

  lemma CutStep(c: Limits, w: seq<Seg>, cut: int, op: Op)
    requires Supported(c) && LogInv(c, w) && cut < Next(Active(w))
    requires EndingAbove(w, cut) != [] && Enabled(EndingAbove(w, cut), op)
    ensures Active(EndingAbove(w, cut)) == Active(w)
    ensures var w' := Grow(c, w, op);
            var cut' := if op.Truncate? && cut < Bound(op.lowest) then Bound(op.lowest) else cut;
            && LogInv(c, w') && cut' < Next(Active(w'))
            && Step(c, EndingAbove(w, cut), op) == EndingAbove(w', cut')
  {
    hide LogInv, EndingAbove, AfterAppend, Bound;
    NextBound(c, w);
    EndingKeepsActive(w, cut);
    match op
    case Append(r) =>
      AppendInv(c, w, r);
      AppendCommutes(c, w, cut, r);
    case Truncate(lowest) => EndingTwice(w, cut, Bound(lowest));
    case _ =>
  }

  /** That log has the lowest offset of the start and the records of the start and of every accepted
      append. */
  lemma {:induction false} UntruncatedRecords(c: Limits, l: seq<Seg>, ops: seq<Op>)
    requires Supported(c) && LogInv(c, l) && After(c, l, ops).Some?
    ensures Base(Untruncated(c, l, ops)) == Base(l)
    ensures Records(Untruncated(c, l, ops)) == Records(l) + Granted(ops, Replies(c, l, ops))
  {
    hide LogInv, Records, EndingAbove, Accepts, AfterAppend, Bound, Step, Enabled;
    if ops != [] {
      var n := |ops| - 1;
      var front, op := ops[..n], ops[n];
      UntruncatedRecords(c, l, front);
      var w := Untruncated(c, l, front);
      EndingKeepsActive(w, Cut(front));
      NextBound(c, w);
      assert Replies(c, l, ops)[..n] == Replies(c, l, front);
      GrowAdds(c, l, front, op);
    }
  }

  lemma GrowAdds(c: Limits, l: seq<Seg>, front: seq<Op>, op: Op)
    requires Supported(c) && LogInv(c, l) && After(c, l, front).Some?
    requires Enabled(After(c, l, front).value, op)
    ensures var w, reply := Untruncated(c, l, front), ReplyTo(c, After(c, l, front).value, op);
            && Next(Active(w)) < TWO64
            && Base(Grow(c, w, op)) == Base(w) && Records(Grow(c, w, op)) == Longer(Records(w), op, reply)
  {
    hide LogInv, Records, EndingAbove, AfterAppend, After, Untruncated;
    var w := Untruncated(c, l, front);
    EndingKeepsActive(w, Cut(front));
    NextBound(c, w);
    if op.Append? { AppendInv(c, w, op.record); }
  }

  /** After any run of appends, reads, truncations and reopenings the segments are those of the greedy
      partition that end above the highest truncation: of whatever log holds the records of the start
      and of every accepted append. Frames of refused appends aside, nothing else of the run matters. */
  lemma RunIsGreedy(c: Limits, l: seq<Seg>, ops: seq<Op>, w: seq<Seg>)
    requires Supported(c) && LogInv(c, l) && After(c, l, ops).Some? && LogInv(c, w)
    requires Base(w) == Base(l) && Records(w) == Records(l) + Granted(ops, Replies(c, l, ops))
    ensures Partition.Clean(After(c, l, ops).value) == EndingAbove(Partition.Clean(w), Cut(ops))
  {
    hide LogInv, Records, EndingAbove, After, Untruncated, Granted, Replies;
    var u := Untruncated(c, l, ops);
    UntruncatedRecords(c, l, ops);
    Partition.GreedyUnique(c, u, w);
    EndingKeepsActive(u, Cut(ops));
    EndingSnoc(Sealeds(u), Active(u).(junk := []), Cut(ops));
  }

  // ---------------------------------------------------------------- frames of refused appends

  lemma StepFrames(c: Limits, l: seq<Seg>, op: Op)
    requires Supported(c) && LogInv(c, l) && Enabled(l, op)
    ensures Active(Step(c, l, op)).junk == [] <==> Active(l).junk == [] && ReplyTo(c, l, op) != Refused
  {
    hide LogInv, EndingAbove, Records, Maxed;
    InvSegment(c, l, |l| - 1);
    if op.Truncate? { TruncateInv(c, l, op.lowest); }
  }

  /** Over every run from a log without such frames: the log holds one exactly when the run refused
      an append. */
  lemma {:induction false} FramesIff(c: Limits, l: seq<Seg>, ops: seq<Op>)
    requires Supported(c) && LogInv(c, l) && After(c, l, ops).Some? && Active(l).junk == []
    ensures Active(After(c, l, ops).value).junk == [] <==> Refused !in Replies(c, l, ops)
  {
    hide LogInv, Step, ReplyTo, Enabled;
    if ops != [] {
      var front := ops[..|ops| - 1];
      FramesIff(c, l, front);
      StepFrames(c, After(c, l, front).value, ops[|ops| - 1]);
    }
  }
}

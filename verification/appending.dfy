/** Loops that append one record after the other. */
module Appending {
  import opened Bytes
  import opened RecordCodec
  import opened LogModel
  import opened Replays
  import opened Segments
  import opened Logs

  /** One round of such a loop, with `l` the log before it and `done` the records so far. */
  method AppendOne(log: Log, record: Record, ghost l: seq<Seg>, ghost done: seq<Record>)
    returns (off: Option<uint64>)
    requires log.Valid() && LogInv(log.limits, l) && Next(Active(l)) + |done| + 1 < TWO64
    requires AllAccepted(log.limits, l, done) && log.model == Replay(log.limits, l, done)
    modifies log.Repr()
    ensures log.Valid() && fresh(log.Repr() - old(log.Repr()))
    ensures off.Some? <==> AllAccepted(log.limits, l, done + [record])
    ensures log.model == Replay(log.limits, l, done + [record])
    ensures off.Some? ==> off.value == Next(Active(l)) + |done|
  {
    hide Log.Valid, LogInv, AfterAppend, Accepts, AllAccepted, Replay;
    log.ValidFacts();
    ReplaySnoc(log.limits, l, done, record);
    assert Next(Active(log.model)) == Next(Active(l)) + |done| by { ReplayAdds(log.limits, l, done); }
    var ref := new RecordRef(record);
    off := log.Append(ref);
  }
}

/** The Raft log store on a segmented log (`internal/log/distributed/store.go`). */
module LogStores {
  import opened Bytes
  import opened RecordCodec
  import opened LogModel
  import opened Truncation
  import opened Replays
  import opened Appending
  import opened RaftEntries
  import opened Logs

  function ToRecords(es: seq<Entry>): (rs: seq<Record>)
    ensures |rs| == |es| && forall i :: 0 <= i < |es| ==> rs[i] == ToRecord(es[i])
  {
    seq(|es|, i requires 0 <= i < |es| => ToRecord(es[i]))
  }

  class LogStore {
    const log: Log

    constructor (log: Log)
      ensures this.log == log
    {
      this.log := log;
    }

    method FirstIndex() returns (index: uint64)
      requires log.Valid()
      ensures index == Base(log.model)
    {
      index := log.LowestOffset();
    }

    method LastIndex() returns (index: uint64)
      requires log.Valid()
      ensures index == Highest(log.model)
    {
      index := log.HighestOffset();
    }

    /** The entry at `index`: offset, term, type and value of the record there. */
    method GetLog(index: uint64) returns (r: Option<Entry>)
      requires log.Valid()
      modifies log.Stores()
      ensures log.Valid()
      ensures r == EntryAt(log.model, index)
      ensures r.Some? <==> Base(log.model) <= index < Next(Active(log.model))
    {
      hide Log.Valid, LogInv, Records;
      log.ValidFacts();
      EntryAtIff(log.limits, log.model, index);
      var record := log.Read(index);
      r := if record.Found? then Some(FromRecord(record.record)) else None;
    }

    /** Appends the entries one by one, up to the first that is refused. */
    method StoreLogs(es: seq<Entry>) returns (ok: bool)
      requires log.Valid() && Next(Active(log.model)) + |es| < TWO64
      modifies log.Repr()
      ensures log.Valid() && fresh(log.Repr() - old(log.Repr()))
      ensures ok <==> AllAccepted(log.limits, old(log.model), ToRecords(es))
      ensures log.model == Replay(log.limits, old(log.model), Tried(log.limits, old(log.model), ToRecords(es)))
    {
      hide Log.Valid, LogInv, AllAccepted, AcceptedCount, Tried, Replay;
      log.ValidFacts();
      ReplayNone(log.limits, log.model);
      ghost var l, rs := log.model, ToRecords(es);
      var i := 0;
      while i < |es|
        invariant 0 <= i <= |es|
        invariant log.Valid() && fresh(log.Repr() - old(log.Repr()))
        invariant AllAccepted(log.limits, l, rs[..i]) && log.model == Replay(log.limits, l, rs[..i])
      {
        assert rs[..i + 1] == rs[..i] + [rs[i]];
        var off := AppendOne(log, ToRecord(es[i]), l, rs[..i]);
        if off.None? {
          AcceptedCountIs(log.limits, l, rs, i);
          return false;
        }
        i := i + 1;
      }
      assert rs[..|es|] == rs;
      AcceptedCountIs(log.limits, l, rs, |rs|);
      return true;
    }

    /** Truncates up to `max`; the lower bound is ignored. */
    method DeleteRange(min: uint64, max: uint64)
      requires log.Valid()
      modifies log`segments, log`model, log.dir, log.Stores()
      ensures log.Stack() && log.model == Keep(old(log.model), max)
      ensures Bound(max) < old(Next(Active(log.model))) ==> log.Valid()
    {
      hide LogInv, Keep;
      log.Truncate(max);
    }
  }

  /** The store has an entry exactly at the live indexes: the record's data, term and type, cut to 8
      bits, under that index. */
  lemma EntryAtIff(c: Limits, l: seq<Seg>, index: nat)
    requires LogInv(c, l)
    ensures EntryAt(l, index).Some? <==> Base(l) <= index < Next(Active(l))
    ensures EntryAt(l, index).Some? ==>
              && index - Base(l) < |Records(l)|
              && var e, r := EntryAt(l, index).value, Records(l)[index - Base(l)];
                 e.index == index && e.term == r.term && e.kind == r.kind % 256 && e.data == r.value
  {
    hide LogInv, Records;
    LookupLive(c, l, index);
    if Base(l) <= index < Next(Active(l)) {
      RecordsStamped(c, l, index - Base(l));
    }
  }

  /** What `GetLog` finds in a log. */
  function EntryAt(l: seq<Seg>, index: nat): Option<Entry>
    requires l != []
  {
    match Lookup(Base(l), Records(l), index)
    case Some(r) => Some(FromRecord(r))
    case None => None
  }
}

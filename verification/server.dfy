/** The streaming handlers (`internal/server/log.go`) over one log. */
module Server {
  import opened Bytes
  import opened RecordCodec
  import opened LogModel
  import opened Truncation
  import opened Replays
  import opened Appending
  import opened Logs
  import opened Runs

  // ---------------------------------------------------------------- the handlers on a quiet log

  /** `ConsumeStream` until its context ends after `polls` rounds, on a log that nobody else uses: the
      records of consecutive offsets from the requested one, as far as there are any. */
  method ConsumeStream(log: Log, start: uint64, polls: nat) returns (sent: seq<Record>, ok: bool)
    requires log.Valid()
    modifies log.Stores()
    ensures log.Valid() && ok
    ensures var next := Next(Active(log.model));
            |sent| == if !(Base(log.model) <= start < next) then 0
                      else if polls < next - start then polls else next - start
    ensures forall k :: 0 <= k < |sent| ==>
              && 0 <= start - Base(log.model) + k < |Records(log.model)|
              && sent[k] == Records(log.model)[start - Base(log.model) + k] && sent[k].offset == start + k
  {
    hide Log.Valid, LogInv, Records;
    log.ValidFacts();
    InvLinked(log.limits, log.model);
    RecordsSpan(log.model);
    NextBound(log.limits, log.model);
    ghost var l, base, recs, next := log.model, Base(log.model), Records(log.model), Next(Active(log.model));
    var off := start;
    sent := [];
    for i := 0 to polls
      invariant log.Valid()
      invariant |sent| == if !(base <= start < next) then 0 else if i < next - start then i else next - start
      invariant off == start + |sent|
      invariant forall k :: 0 <= k < |sent| ==>
                  0 <= start - base + k < |recs| && sent[k] == recs[start - base + k] && sent[k].offset == start + k
    {
      if base <= off < next { RecordsStamped(log.limits, l, off - base); }
      off, sent, ok := ConsumeOnce(log, off, sent);
      if !ok {
        return;
      }
    }
    ok := true;
  }

  /** One round of its loop: read, and send and move on if there is a record. It is the round `Poll` of
      the stream among other clients below. */
  method ConsumeOnce(log: Log, off: uint64, sent: seq<Record>) returns (off': uint64, sent': seq<Record>, ok: bool)
    requires log.Valid()
    modifies log.Stores()
    ensures log.Valid() && ok
    ensures if Base(log.model) <= off < Next(Active(log.model)) then
              && off - Base(log.model) < |Records(log.model)| && off' == off + 1
              && sent' == sent + [Records(log.model)[off - Base(log.model)]]
            else off' == off && sent' == sent
    ensures forall s: Consumer :: s.l == log.model && s.next == off && s.sent == sent ==>
              ConsumerStep(log.limits, s, Poll) == s.(next := off', sent := sent')
  {
    hide Log.Valid, LogInv, Records;
    log.ValidFacts();
    LookupLive(log.limits, log.model, off);
    NextBound(log.limits, log.model);
    var r := log.Read(off);
    match r
    case Found(record) => return off + 1, sent + [record], true;
    case OutOfRange(_) => return off, sent, true;
    case Corrupt => return off, sent, false;
  }

  /** `ProduceStream` over the received records: one response for each append, up to the first that
      fails. */
  method ProduceStream(log: Log, received: seq<Record>) returns (offsets: seq<nat>, ok: bool)
    requires log.Valid() && Next(Active(log.model)) + |received| < TWO64
    modifies log.Repr()
    ensures log.Valid() && fresh(log.Repr() - old(log.Repr()))
    ensures ok <==> AllAccepted(log.limits, old(log.model), received)
    ensures |offsets| == AcceptedCount(log.limits, old(log.model), received)
    ensures log.model == Replay(log.limits, old(log.model), Tried(log.limits, old(log.model), received))
    ensures forall i :: 0 <= i < |offsets| ==> offsets[i] == old(Next(Active(log.model))) + i
  {
    hide Log.Valid, LogInv, AllAccepted, AcceptedCount, Tried, Replay;
    log.ValidFacts();
    ReplayNone(log.limits, log.model);
    ghost var l, first := log.model, Next(Active(log.model));
    offsets := [];
    var i := 0;
    while i < |received|
      invariant 0 <= i == |offsets| <= |received|
      invariant log.Valid() && fresh(log.Repr() - old(log.Repr()))
      invariant AllAccepted(log.limits, l, received[..i]) && log.model == Replay(log.limits, l, received[..i])
      invariant forall k :: 0 <= k < i ==> offsets[k] == first + k
    {
      assert received[..i + 1] == received[..i] + [received[i]];
      var off := AppendOne(log, received[i], l, received[..i]);
      if off.None? {
        AcceptedCountIs(log.limits, l, received, i);
        ok := false;
        return;
      }
      offsets := offsets + [off.value];
      i := i + 1;
    }
    assert received[..|received|] == received;
    AcceptedCountIs(log.limits, l, received, |received|);
    ok := true;
  }

  // ---------------------------------------------------------------- a consumer among other clients

  /** A log used by others, its records since `first` whether still held or truncated, and a stream
      that was asked for `start`, will ask for `next` and has sent `sent`. */
  datatype Consumer = Consumer(l: seq<Seg>, first: nat, history: seq<Record>, start: nat, next: nat, sent: seq<Record>)

  /** Any operation of another client, or one round of the stream's loop. */
  datatype Event = Other(op: Op) | Poll

  function Opened(l: seq<Seg>, start: nat): Consumer
    requires l != []
  {
    Consumer(l, Base(l), Records(l), start, start, [])
  }

  predicate EventEnabled(s: Consumer, e: Event) {
    s.l != [] && (e.Other? ==> Enabled(s.l, e.op))
  }

  function ConsumerStep(c: Limits, s: Consumer, e: Event): Consumer
    requires EventEnabled(s, e)
  {
    match e
    case Other(op) =>
      s.(l := Step(c, s.l, op),
         history := Longer(s.history, op, ReplyTo(c, s.l, op)))
    case Poll =>
      match Lookup(Base(s.l), Records(s.l), s.next)
      case Some(r) => s.(next := s.next + 1, sent := s.sent + [r])
      case None => s
  }

  /** The log holds the end of the history, whose records carry their offsets. */
  ghost predicate HoldsEnd(a: Simple, first: nat, history: seq<Record>) {
    && first <= a.base <= first + |history|
    && a.recs == history[a.base - first..]
    && forall k :: 0 <= k < |history| ==> history[k].offset == first + k
  }

  /** What was sent is the run of the history from the requested offset to the next. */
  ghost predicate ConsumerInv(c: Limits, s: Consumer) {
    && LogInv(c, s.l)
    && HoldsEnd(Abs(s.l), s.first, s.history)
    && s.start <= s.next
    && (if s.start == s.next then s.sent == []
        else s.first <= s.start && s.next <= s.first + |s.history|
             && s.sent == s.history[s.start - s.first..s.next - s.first])
  }

  lemma AppendHistory(a: Simple, r: Record, first: nat, history: seq<Record>)
    requires HoldsEnd(a, first, history) && a.base + |a.recs| < TWO64
    ensures var r' := Record(r.value, a.base + |a.recs|, r.term, r.kind);
            HoldsEnd(Simple(a.base, a.recs + [r']), first, history + [r'])
  {
    var d := a.base - first;
    var r' := Record(r.value, a.base + |a.recs|, r.term, r.kind);
    assert history[d..] + [r'] == (history + [r'])[d..];
  }

  lemma TruncateHistory(a: Simple, base: nat, first: nat, history: seq<Record>)
    requires HoldsEnd(a, first, history) && a.base <= base <= a.base + |a.recs|
    ensures HoldsEnd(Simple(base, a.recs[base - a.base..]), first, history)
  {
    assert history[a.base - first..][base - a.base..] == history[base - first..];
  }

  lemma HistoryStep(a: Simple, op: Op, reply: Reply, a': Simple, first: nat, history: seq<Record>)
    requires HoldsEnd(a, first, history) && SimpleStep(a, op, reply, a')
    ensures HoldsEnd(a', first, Longer(history, op, reply)) && history <= Longer(history, op, reply)
  {
    hide Answer, Lookup, HoldsEnd, Bound;
    match op
    case Append(r) =>
      if reply.Appended? { AppendHistory(a, r, first, history); }
    case Truncate(_) => TruncateHistory(a, a'.base, first, history);
    case _ =>
  }

  lemma PollInv(c: Limits, s: Consumer)
    requires ConsumerInv(c, s)
    ensures ConsumerInv(c, ConsumerStep(c, s, Poll))
  {
    hide LogInv, Records;
  }

  lemma ConsumerStepInv(c: Limits, s: Consumer, e: Event)
    requires Supported(c) && ConsumerInv(c, s) && EventEnabled(s, e)
    ensures ConsumerInv(c, ConsumerStep(c, s, e)) && s.history <= ConsumerStep(c, s, e).history
  {
    hide LogInv, Records, Step, ReplyTo, SimpleStep, Longer, HoldsEnd;
    match e
    case Other(op) =>
      StepRefines(c, s.l, op);
      HistoryStep(Abs(s.l), op, ReplyTo(c, s.l, op), Abs(Step(c, s.l, op)), s.first, s.history);
      if s.start < s.next { SentStays(s, ConsumerStep(c, s, e).history); }
    case Poll => PollInv(c, s);
  }

  lemma SentStays(s: Consumer, history: seq<Record>)
    requires s.history <= history && s.first <= s.start <= s.next <= s.first + |s.history|
    ensures s.history[s.start - s.first..s.next - s.first] == history[s.start - s.first..s.next - s.first]
  {
  }

  lemma OpenedInv(c: Limits, l: seq<Seg>, start: nat)
    requires LogInv(c, l)
    ensures ConsumerInv(c, Opened(l, start))
  {
    hide LogInv, Records;
    forall k | 0 <= k < |Records(l)| ensures Records(l)[k].offset == Base(l) + k {
      RecordsStamped(c, l, k);
    }
  }

  /** The state after `events`, if each is enabled in its turn. */
  ghost function Consumed(c: Limits, l: seq<Seg>, start: nat, events: seq<Event>): (r: Option<Consumer>)
    requires Supported(c) && LogInv(c, l)
    ensures r.Some? ==> ConsumerInv(c, r.value) && Records(l) <= r.value.history
    ensures r.Some? ==> r.value.first == Base(l) && r.value.start == start
  {
    if events == [] then OpenedInv(c, l, start); Some(Opened(l, start))
    else
      match Consumed(c, l, start, events[..|events| - 1])
      case None => None
      case Some(s) =>
        var e := events[|events| - 1];
        if !EventEnabled(s, e) then None
        else ConsumerStepInv(c, s, e); Some(ConsumerStep(c, s, e))
  }

  /** However the stream's rounds interleave with appends, reads, truncations and reopenings: the
      records sent are those of consecutive offsets from the requested one, none missing and none
      twice, each carrying its offset, and each the one that the log held there. A stream that asks
      for an offset below the lowest gets nothing. */
  lemma ConsumerGetsRun(c: Limits, l: seq<Seg>, start: nat, events: seq<Event>, k: nat)
    requires Supported(c) && LogInv(c, l) && Consumed(c, l, start, events).Some?
    requires k < |Consumed(c, l, start, events).value.sent|
    ensures var s := Consumed(c, l, start, events).value;
            && |s.sent| == s.next - start && Base(l) <= start
            && start + k - Base(l) < |s.history|
            && s.sent[k] == s.history[start + k - Base(l)] && s.sent[k].offset == start + k
  {
    hide LogInv, Records, Consumed;
    var s := Consumed(c, l, start, events).value;
    assert ConsumerInv(c, s);
  }

  /** The next offset the stream asks for was truncated away. */
  predicate Overtaken(s: Consumer)
    requires s.l != []
  {
    s.next < Base(s.l)
  }

  lemma OvertakenStep(c: Limits, s: Consumer, e: Event)
    requires Supported(c) && ConsumerInv(c, s) && EventEnabled(s, e) && Overtaken(s)
    ensures var s' := ConsumerStep(c, s, e);
            s'.l != [] && Overtaken(s') && s'.next == s.next && s'.sent == s.sent
  {
    hide LogInv, Records, Step, ReplyTo, HoldsEnd, Longer, Enabled;
    if e.Other? {
      StepRefines(c, s.l, e.op);
    }
  }

  /** Then it never sends anything again, whatever happens later: it asks for that offset for ever. */
  lemma {:induction false} OvertakenForever(c: Limits, l: seq<Seg>, start: nat, events: seq<Event>, i: nat)
    requires Supported(c) && LogInv(c, l) && i <= |events|
    requires Consumed(c, l, start, events).Some? && Consumed(c, l, start, events[..i]).Some?
    requires Overtaken(Consumed(c, l, start, events[..i]).value)
    ensures var s, s' := Consumed(c, l, start, events[..i]).value, Consumed(c, l, start, events).value;
            Overtaken(s') && s'.next == s.next && s'.sent == s.sent
    decreases |events|
  {
    hide LogInv, Records, ConsumerStep, EventEnabled, ConsumerInv, Overtaken;
    if i == |events| {
      assert events[..i] == events;
    } else {
      var front := events[..|events| - 1];
      assert front[..i] == events[..i];
      OvertakenForever(c, l, start, front, i);
      OvertakenStep(c, Consumed(c, l, start, front).value, events[|events| - 1]);
    }
  }

  /** A round sends a record exactly when the log holds the offset asked for. */
  lemma PollSendsIff(c: Limits, s: Consumer)
    requires ConsumerInv(c, s)
    ensures ConsumerStep(c, s, Poll).sent != s.sent <==> !Overtaken(s) && s.next < Next(Active(s.l))
  {
    hide LogInv, Records;
    InvLinked(c, s.l);
    RecordsSpan(s.l);
  }

  // ---------------------------------------------------------------- producers

  /** A log and the offsets its producer streams were answered with, in the order of the appends:
      which stream, which offset. `closed` are the streams that an error ended. */
  datatype Producers = Producers(l: seq<Seg>, answers: seq<(nat, nat)>, closed: set<nat>)

  /** One round of stream `id` of `ProduceStream`, or something else that is done to the log. */
  datatype Round = Produce(id: nat, record: Record) | Besides(op: Op)

  predicate RoundEnabled(s: Producers, r: Round) {
    && s.l != []
    && match r
       case Produce(id, record) => id !in s.closed && OffsetsLeft(s.l)
       case Besides(op) => !op.Append? && Enabled(s.l, op)
  }

  function ProducersStep(c: Limits, s: Producers, r: Round): Producers
    requires RoundEnabled(s, r)
  {
    match r
    case Produce(id, record) =>
      var l' := AfterAppend(c, s.l, record);
      if Accepts(c, s.l) then Producers(l', s.answers + [(id, Next(Active(s.l)))], s.closed)
      else Producers(l', s.answers, s.closed + {id})
    case Besides(op) => s.(l := Step(c, s.l, op))
  }

  /** The offsets handed out are consecutive. */
  ghost predicate ProducersInv(c: Limits, first: nat, s: Producers) {
    && LogInv(c, s.l)
    && Next(Active(s.l)) == first + |s.answers|
    && forall k :: 0 <= k < |s.answers| ==> s.answers[k].1 == first + k
  }

  lemma ProducersStepInv(c: Limits, first: nat, s: Producers, r: Round)
    requires Supported(c) && ProducersInv(c, first, s) && RoundEnabled(s, r)
    ensures ProducersInv(c, first, ProducersStep(c, s, r))
  {
    hide LogInv, AfterAppend, Accepts, Records, Keep;
    match r
    case Produce(id, record) =>
      AppendInv(c, s.l, record);
      AppendNext(c, s.l, record);
    case Besides(op) =>
      StepInv(c, s.l, op);
      if op.Truncate? { TruncateInv(c, s.l, op.lowest); }
  }

  ghost function Produced(c: Limits, l: seq<Seg>, rounds: seq<Round>): (r: Option<Producers>)
    requires Supported(c) && LogInv(c, l)
    ensures r.Some? ==> ProducersInv(c, Next(Active(l)), r.value)
  {
    if rounds == [] then Some(Producers(l, [], {}))
    else
      match Produced(c, l, rounds[..|rounds| - 1])
      case None => None
      case Some(s) =>
        var r := rounds[|rounds| - 1];
        if !RoundEnabled(s, r) then None
        else ProducersStepInv(c, Next(Active(l)), s, r); Some(ProducersStep(c, s, r))
  }

  /** What a round is to the log. */
  function AsOp(r: Round): Op {
    match r
    case Produce(_, record) => Append(record)
    case Besides(op) => op
  }

  lemma RoundIsOp(c: Limits, s: Producers, r: Round)
    requires RoundEnabled(s, r)
    ensures Enabled(s.l, AsOp(r)) && ProducersStep(c, s, r).l == Step(c, s.l, AsOp(r))
  {
    hide AfterAppend, Keep;
  }

  /** An answered record is in the log at its offset, with its value, term and type, as long as that
      offset is not truncated away. */
  lemma {:induction false} ProducedIsHeld(c: Limits, l: seq<Seg>, rounds: seq<Round>, k: nat)
    requires Supported(c) && LogInv(c, l) && k < |rounds| && rounds[k].Produce?
    requires Produced(c, l, rounds).Some? && Produced(c, l, rounds[..k]).Some?
    ensures var s, s' := Produced(c, l, rounds[..k]).value, Produced(c, l, rounds).value;
            var n, r := |s.answers|, rounds[k].record;
            && s.answers <= s'.answers
            && (Accepts(c, s.l) ==>
                  && n < |s'.answers| && s'.answers[n].0 == rounds[k].id && s'.answers[n].1 < TWO64
                  && var off := s'.answers[n].1;
                     || ReadAt(s'.l, off) == Some(Record(r.value, off, r.term, r.kind))
                     || off < Base(s'.l))
    decreases |rounds|
  {
    hide LogInv, Records, Step, Enabled, Accepts, AfterAppend, Bound, SimpleStep, Lookup;
    var front, last := rounds[..|rounds| - 1], rounds[|rounds| - 1];
    var s0 := Produced(c, l, front).value;
    RoundIsOp(c, s0, last);
    NextBound(c, s0.l);
    if k == |rounds| - 1 {
      assert rounds[..k] == front;
      if Accepts(c, s0.l) { AnswerIsHeld(c, s0, last); }
    } else {
      assert front[..k] == rounds[..k];
      ProducedIsHeld(c, l, front, k);
      var s := Produced(c, l, rounds[..k]).value;
      if Accepts(c, s.l) {
        var r, off := rounds[k].record, s0.answers[|s.answers|].1;
        StepRefines(c, s0.l, AsOp(last));
        SimpleKeeps(Abs(s0.l), AsOp(last), ReplyTo(c, s0.l, AsOp(last)), Abs(Step(c, s0.l, AsOp(last))), off,
                    Record(r.value, off, r.term, r.kind));
      }
    }
  }

  lemma AnswerIsHeld(c: Limits, s: Producers, r: Round)
    requires Supported(c) && LogInv(c, s.l) && RoundEnabled(s, r) && r.Produce? && Accepts(c, s.l)
    ensures var off, s' := Next(Active(s.l)), ProducersStep(c, s, r);
            && s'.answers == s.answers + [(r.id, off)] && s'.l != []
            && ReadAt(s'.l, off) == Some(Record(r.record.value, off, r.record.term, r.record.kind))
  {
    hide LogInv, Records, AfterAppend, Accepts;
    AppendInv(c, s.l, r.record);
    InvLinked(c, s.l);
    RecordsSpan(s.l);
  }

  /** A stream whose record is refused is over. */
  lemma RefusedCloses(c: Limits, s: Producers, id: nat, record: Record, next: Record)
    requires RoundEnabled(s, Produce(id, record)) && !Accepts(c, s.l)
    ensures var s' := ProducersStep(c, s, Produce(id, record));
            s'.answers == s.answers && !RoundEnabled(s', Produce(id, next))
  {
    hide AfterAppend;
  }

  /** The responses of stream `id`, in order. */
  function ResponsesOf(answers: seq<(nat, nat)>, id: nat): seq<nat> {
    if answers == [] then []
    else
      var front, last := ResponsesOf(answers[..|answers| - 1], id), answers[|answers| - 1];
      if last.0 == id then front + [last.1] else front
  }

  /** Strictly increasing, and below `bound`. */
  ghost predicate Rising(rs: seq<nat>, bound: nat) {
    && (forall i, j :: 0 <= i < j < |rs| ==> rs[i] < rs[j])
    && (forall i :: 0 <= i < |rs| ==> rs[i] < bound)
  }

  lemma {:induction false} ResponsesIncrease(answers: seq<(nat, nat)>, first: nat, id: nat)
    requires forall k :: 0 <= k < |answers| ==> answers[k].1 == first + k
    ensures Rising(ResponsesOf(answers, id), first + |answers|)
  {
    if answers != [] {
      var n := |answers| - 1;
      var front := ResponsesOf(answers[..n], id);
      ResponsesIncrease(answers[..n], first, id);
      assert ResponsesOf(answers, id) == if answers[n].0 == id then front + [first + n] else front;
    }
  }

  lemma {:induction false} ResponsesOwn(answers: seq<(nat, nat)>, first: nat, id: nat, off: nat)
    requires forall k :: 0 <= k < |answers| ==> answers[k].1 == first + k
    ensures off in ResponsesOf(answers, id)
       <==> first <= off < first + |answers| && answers[off - first].0 == id
  {
    if answers != [] {
      var n := |answers| - 1;
      var front := ResponsesOf(answers[..n], id);
      ResponsesOwn(answers[..n], first, id, off);
      assert off in front + [first + n] <==> off in front || off == first + n;
    }
  }

  /** However the streams interleave: within each stream the responses strictly increase, and every
      offset from the first one on up to the next is the response of exactly one stream. */
  lemma ProducersShareInterval(c: Limits, l: seq<Seg>, rounds: seq<Round>, id: nat, off: nat)
    returns (owner: nat)
    requires Supported(c) && LogInv(c, l) && Produced(c, l, rounds).Some?
    ensures var s := Produced(c, l, rounds).value;
            var rs, first := ResponsesOf(s.answers, id), Next(Active(l));
            && (forall i, j :: 0 <= i < j < |rs| ==> rs[i] < rs[j])
            && (first <= off < Next(Active(s.l)) ==>
                  forall other :: off in ResponsesOf(s.answers, other) <==> other == owner)
            && (!(first <= off < Next(Active(s.l))) ==> off !in rs)
  {
    hide LogInv, Produced, ResponsesOf;
    var s := Produced(c, l, rounds).value;
    var first := Next(Active(l));
    forall other: nat
      ensures off in ResponsesOf(s.answers, other)
         <==> first <= off < first + |s.answers| && s.answers[off - first].0 == other
    {
      ResponsesOwn(s.answers, first, other, off);
    }
    ResponsesIncrease(s.answers, first, id);
    owner := if first <= off < first + |s.answers| then s.answers[off - first].0 else 0;
  }
}

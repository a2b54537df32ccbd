/** The two Raft log stores side by side: segments and ordered keys. */
module RaftStores {
  import opened Bytes
  import opened RecordCodec
  import opened LogModel
  import opened Partition
  import opened Truncation
  import opened Whole
  import opened Replays
  import opened Capacity
  import opened RaftEntries
  import opened LogStores
  import Pebble

  datatype Op = Store(es: seq<Entry>) | Delete(min: uint64, max: uint64)

  type Logs = map<uint64, Entry>

  /** Both stores, and one past the highest index deleted so far, or 1. */
  datatype Pair = Pair(l: seq<Seg>, logs: Logs, low: nat)

  /** How Raft uses a log store: consecutive indexes on from the last one, stored with success, and
      deletions of a prefix of what is there that stop below the last index. */
  ghost predicate Enabled(c: Limits, p: Pair, op: Op)
    requires Supported(c) && LogInv(c, p.l)
  {
    var next := Next(Active(p.l));
    match op
    case Store(es) =>
      && next + |es| < TWO64
      && (forall i :: 0 <= i < |es| ==> es[i].index == next + i)
      && AllAccepted(c, p.l, ToRecords(es))
    case Delete(min, max) =>
      && max + 1 < next
      && forall i :: i in p.logs ==> min <= i
  }

  ghost function Step(c: Limits, p: Pair, op: Op): Pair
    requires Supported(c) && LogInv(c, p.l) && Enabled(c, p, op)
  {
    match op
    case Store(es) => Pair(Replay(c, p.l, ToRecords(es)), Pebble.Overlay(p.logs, es), p.low)
    case Delete(min, max) =>
      Pair(Keep(p.l, max), Pebble.Without(p.logs, min, max), if max < p.low then p.low else max + 1)
  }

  /** The key store holds exactly the indexes from `low` on, and the segment store has each of them
      with the same data, index, type and term. Once something was stored, the segment store's
      first segment reaches above `low`. */
  ghost predicate Agree(c: Limits, p: Pair)
    ensures Agree(c, p) ==> LogInv(c, p.l)
  {
    && LogInv(c, p.l) && 1 <= Base(p.l) <= p.low
    && (forall i: uint64 :: i in p.logs <==> p.low <= i < Next(Active(p.l)))
    && (forall i :: i in p.logs ==> EntryAt(p.l, i) == Some(p.logs[i]))
    && (if Next(Active(p.l)) == 1 then p.low == 1 else p.low < Next(p.l[0]) && p.low < Next(Active(p.l)))
  }

  /** What `StoreLogs` with consecutive indexes from `next` leaves in the key store. */
  lemma {:induction false} OverlayAt(logs: Logs, es: seq<Entry>, next: nat, i: uint64)
    requires forall k :: 0 <= k < |es| ==> es[k].index == next + k
    ensures var logs' := Pebble.Overlay(logs, es);
            if next <= i < next + |es| then i in logs' && logs'[i] == es[i - next]
            else (i in logs' <==> i in logs) && (i in logs ==> logs'[i] == logs[i])
  {
    if es != [] {
      OverlayAt(logs, es[..|es| - 1], next, i);
    }
  }

  /** An entry the key store holds after `StoreLogs` is at its index of the segment store. */
  lemma StoredAt(c: Limits, p: Pair, es: seq<Entry>, i: uint64)
    requires Supported(c) && Agree(c, p) && Enabled(c, p, Store(es))
    requires i in Pebble.Overlay(p.logs, es)
    ensures EntryAt(Replay(c, p.l, ToRecords(es)), i) == Some(Pebble.Overlay(p.logs, es)[i])
  {
    hide LogInv, Records, Replay, AllAccepted, Pebble.Overlay;
    var next, rs := Next(Active(p.l)), ToRecords(es);
    ReplayAdds(c, p.l, rs);
    InvLinked(c, p.l);
    RecordsSpan(p.l);
    OverlayAt(p.logs, es, next, i);
    if next <= i < next + |es| {
      assert Records(Replay(c, p.l, rs))[i - Base(p.l)] == Stamp(rs[i - next], i);
    } else {
      assert EntryAt(p.l, i) == Some(p.logs[i]);
    }
  }

  /** Appending leaves the first segment as it was or makes it longer, and not empty. */
  lemma FirstSegmentGrows(c: Limits, l: seq<Seg>, rs: seq<Record>)
    requires Supported(c) && LogInv(c, l) && Next(Active(l)) + |rs| < TWO64
    requires AllAccepted(c, l, rs)
    ensures var l' := Replay(c, l, rs);
            Next(l[0]) <= Next(l'[0]) && (rs != [] ==> Base(l) < Next(l'[0]))
  {
    hide Records, Replay, AllAccepted, LogInv, Stamped;
    var l' := Replay(c, l, rs);
    ReplayAdds(c, l, rs);
    PrefixAligned(c, l, l', 0);
    ActiveAbove(c, l);
    if rs != [] {
      FirstNotEmpty(c, l');
    }
  }

  lemma FirstNotEmpty(c: Limits, l: seq<Seg>)
    requires LogInv(c, l) && Base(l) < Next(Active(l))
    ensures Base(l) < Next(l[0])
  {
    hide SegOk, Open, Linked;
    if |l| > 1 {
      assert Sealed(c, l[0]);
    }
  }

  lemma StoreAgrees(c: Limits, p: Pair, es: seq<Entry>)
    requires Supported(c) && Agree(c, p) && Enabled(c, p, Store(es))
    ensures Agree(c, Step(c, p, Store(es)))
  {
    hide LogInv, Records, Replay, AllAccepted, Pebble.Overlay, EntryAt;
    var next, rs := Next(Active(p.l)), ToRecords(es);
    assert Next(Active(Replay(c, p.l, rs))) == next + |es| by { ReplayAdds(c, p.l, rs); }
    FirstSegmentGrows(c, p.l, rs);
    var logs' := Pebble.Overlay(p.logs, es);
    forall i: uint64 | i in logs' ensures EntryAt(Replay(c, p.l, rs), i) == Some(logs'[i]) {
      StoredAt(c, p, es, i);
    }
    forall i: uint64 ensures i in logs' <==> p.low <= i < next + |es| {
      OverlayAt(p.logs, es, next, i);
    }
  }

  /** Truncation keeps the first segment as it is, or starts at one that reaches above `max`. */
  lemma FirstSegmentKept(c: Limits, l: seq<Seg>, max: uint64, low: nat)
    requires LogInv(c, l) && max + 1 < Next(Active(l))
    requires Base(l) <= low < Next(l[0])
    ensures var l', low' := Keep(l, max), if max < low then low else max + 1;
            l' != [] && Base(l) <= Base(l') <= low' < Next(l'[0])
  {
    hide LogInv, Keep;
    InvLinked(c, l);
    NextBound(c, l);
    var k := KeepIsSuffix(l, max);
    assert Next(l[k]) > max + 1;
    if k > 0 {
      assert Next(l[k - 1]) == l[k].base;
      if k > 1 { BasesIncrease(l, 0, k - 1); }
      BasesIncrease(l, 0, k);
    }
  }

  /** An entry the key store still holds after `DeleteRange` is still in the segment store. */
  lemma KeptAt(c: Limits, p: Pair, min: uint64, max: uint64, i: uint64)
    requires Supported(c) && Agree(c, p) && Enabled(c, p, Delete(min, max))
    requires i in p.logs && max < i
    ensures Keep(p.l, max) != [] && EntryAt(Keep(p.l, max), i) == Some(p.logs[i])
  {
    hide LogInv, Records, Keep;
    TruncateInv(c, p.l, max);
    assert EntryAt(p.l, i) == Some(p.logs[i]);
    TruncateReads(c, p.l, max, i);
  }

  lemma DeleteAgrees(c: Limits, p: Pair, min: uint64, max: uint64)
    requires Supported(c) && Agree(c, p) && Enabled(c, p, Delete(min, max))
    ensures Agree(c, Step(c, p, Delete(min, max)))
  {
    hide LogInv, Records, Keep, EntryAt;
    NextBound(c, p.l);
    TruncateInv(c, p.l, max);
    FirstSegmentKept(c, p.l, max, p.low);
    var Pair(l', logs', low') := Step(c, p, Delete(min, max));
    forall i: uint64 ensures i in logs' <==> low' <= i < Next(Active(l')) {
      assert i in logs' <==> i in p.logs && max < i;
    }
    forall i: uint64 | i in logs' ensures EntryAt(l', i) == Some(logs'[i]) {
      KeptAt(c, p, min, max, i);
    }
  }

  /** The pair after `ops`, if each is used as Raft does. */
  ghost function After(c: Limits, ops: seq<Op>): (r: Option<Pair>)
    requires Supported(c)
    ensures r.Some? ==> Agree(c, r.value)
  {
    if ops == [] then StartAgrees(c); Some(Pair(Fresh(1), map[], 1))
    else
      match After(c, ops[..|ops| - 1])
      case None => None
      case Some(p) =>
        var op := ops[|ops| - 1];
        if !Enabled(c, p, op) then None
        else StepAgrees(c, p, op); Some(Step(c, p, op))
  }

  lemma StartAgrees(c: Limits)
    requires Supported(c)
    ensures Agree(c, Pair(Fresh(1), map[], 1))
  {
    FreshInv(c, 1);
  }

  lemma StepAgrees(c: Limits, p: Pair, op: Op)
    requires Supported(c) && Agree(c, p) && Enabled(c, p, op)
    ensures Agree(c, Step(c, p, op))
  {
    hide Agree, LogInv;
    match op
    case Store(es) => StoreAgrees(c, p, es);
    case Delete(min, max) => DeleteAgrees(c, p, min, max);
  }

  /** Over every such run: the key store holds exactly the indexes above those deleted, and what it
      returns the segment store returns too, the same; once something was stored, the last indexes
      are equal; and the segment store's first index is never above the key store's. */
  lemma StoresAgree(c: Limits, ops: seq<Op>, i: uint64)
    requires Supported(c)
    requires After(c, ops).Some?
    ensures var Pair(l, logs, low) := After(c, ops).value;
            && (i in logs <==> low <= i < Next(Active(l)))
            && (EntryAt(l, i).Some? <==> Base(l) <= i < Next(Active(l)))
            && (i in logs ==> EntryAt(l, i) == Some(logs[i]) && Base(l) <= i <= Highest(l))
            && (logs != map[] ==> Highest(l) in logs)
            && (logs == map[] ==> Highest(l) == 0)
  {
    hide LogInv, Records, After;
    var Pair(l, logs, low) := After(c, ops).value;
    InvLinked(c, l);
    NextBound(c, l);
    RecordsSpan(l);
    EntryAtIff(c, l, i);
    if Next(Active(l)) == 1 {
      assert logs == map[];
    } else {
      assert low in logs;
      assert Next(Active(l)) - 1 in logs;
    }
  }

  /** What the key store's `FirstIndex` returns. */
  ghost predicate IsFirst(logs: Logs, first: uint64) {
    if logs == map[] then first == 0 else first in logs && forall i :: i in logs ==> first <= i
  }

  /** Before anything is stored the key store says 0 and the segment store 1. */
  lemma FirstIndexesAtStart(c: Limits, first: uint64)
    requires Supported(c) && IsFirst(After(c, []).value.logs, first)
    ensures first == 0 && Base(After(c, []).value.l) == 1
  {
  }

  // ---------------------------------------------------------------- when the first indexes are equal

  /** Every record a run stored, deleted or not. */
  function Stored(ops: seq<Op>): seq<Record> {
    if ops == [] then []
    else
      var front := Stored(ops[..|ops| - 1]);
      match ops[|ops| - 1]
      case Store(es) => front + ToRecords(es)
      case Delete(_, _) => front
  }

  /** One past the highest index a run deleted, or -1. */
  function DeletedTo(ops: seq<Op>): int {
    if ops == [] then -1
    else
      var to := DeletedTo(ops[..|ops| - 1]);
      match ops[|ops| - 1]
      case Store(_) => to
      case Delete(_, max) => if max < to then to else max + 1
  }

  /** One past the highest index a run deleted, or 1. */
  function Low(ops: seq<Op>): int {
    if DeletedTo(ops) < 1 then 1 else DeletedTo(ops)
  }

  /** `p` is what is left of the segments `w` of everything stored. */
  ghost predicate LeftOf(p: Pair, w: seq<Seg>, cut: int)
    requires p.l != [] && w != []
  {
    && p.l == EndingAbove(w, cut) && Active(p.l) == Active(w) && cut < Next(Active(w))
    && p.low == if cut < 1 then 1 else cut
  }

  lemma StoreLeaves(c: Limits, p: Pair, es: seq<Entry>, w: seq<Seg>, cut: int)
    requires Supported(c) && Agree(c, p) && Enabled(c, p, Store(es)) && LogInv(c, w) && LeftOf(p, w, cut)
    ensures LeftOf(Step(c, p, Store(es)), Replay(c, w, ToRecords(es)), cut)
    ensures Next(Active(Step(c, p, Store(es)).l)) == Next(Active(p.l)) + |es|
  {
    hide LogInv, Agree, EndingAbove, Replay, AllAccepted;
    ReplayCommutes(c, w, cut, ToRecords(es));
    ReplayAdds(c, p.l, ToRecords(es));
  }

  lemma DeleteLeaves(c: Limits, p: Pair, min: uint64, max: uint64, w: seq<Seg>, cut: int)
    requires Supported(c) && Agree(c, p) && Enabled(c, p, Delete(min, max)) && LogInv(c, w) && LeftOf(p, w, cut)
    ensures Keep(p.l, max) != []
    ensures LeftOf(Step(c, p, Delete(min, max)), w, if max < cut then cut else max + 1)
  {
    hide LogInv, Agree, EndingAbove;
    NextBound(c, w);
    var cut' := if max < cut then cut else max + 1;
    EndingTwice(w, cut, max + 1);
    EndingKeepsActive(w, cut');
  }

  /** Over every such run: the segment store is what is left, above the highest deletion, of the
      segments that all records ever stored make up. */
  lemma {:induction false} StoresLeft(c: Limits, ops: seq<Op>)
    requires Supported(c) && After(c, ops).Some?
    ensures Next(Active(After(c, ops).value.l)) == 1 + |Stored(ops)| < TWO64
    ensures LeftOf(After(c, ops).value, FromFresh(c, 1, Stored(ops)), DeletedTo(ops))
  {
    hide LogInv, Agree, EndingAbove, Enabled, Step, LeftOf, Replay;
    if ops == [] {
      StartLeft(c);
    } else {
      var front := ops[..|ops| - 1];
      StoresLeft(c, front);
      var p, w := After(c, front).value, FromFresh(c, 1, Stored(front));
      match ops[|ops| - 1]
      case Store(es) =>
        StoreLeaves(c, p, es, w, DeletedTo(front));
        NextBound(c, After(c, ops).value.l);
        FreshInv(c, 1);
        ReplayConcat(c, Fresh(1), Stored(front), ToRecords(es));
      case Delete(min, max) =>
        DeleteLeaves(c, p, min, max, w, DeletedTo(front));
        KeepsNext(c, p, min, max);
    }
  }

  lemma StartLeft(c: Limits)
    requires Supported(c)
    ensures LeftOf(Pair(Fresh(1), map[], 1), FromFresh(c, 1, []), -1)
  {
    hide LogInv;
  }

  lemma KeepsNext(c: Limits, p: Pair, min: uint64, max: uint64)
    requires Supported(c) && Agree(c, p) && Enabled(c, p, Delete(min, max))
    ensures var l' := Step(c, p, Delete(min, max)).l;
            l' != [] && Active(l') == Active(p.l)
  {
    hide LogInv, Keep;
    NextBound(c, p.l);
    TruncateInv(c, p.l, max);
  }

  /** A segment that begins where the deletions end is still there, and the first one. */
  lemma LowBegins(c: Limits, p: Pair, w: seq<Seg>, cut: int, k: nat)
    requires Agree(c, p) && LogInv(c, w) && LeftOf(p, w, cut) && 1 < Next(Active(p.l))
    requires k < |w| && w[k].base == p.low && Base(w) == 1
    ensures Base(p.l) == p.low
  {
    hide LogInv, EndingAbove;
    InvLinked(c, w);
    var d := EndingIsSuffix(w, cut);
    if k < d {
      assert Next(w[k]) <= cut;
      InvSegment(c, w, k);
      assert false;
    }
    assert p.l[k - d] == w[k];
    InvLinked(c, p.l);
    if k > d { BasesIncrease(p.l, 0, k - d); }
  }

  /** Over every such run: the first indexes are equal exactly when something was stored and, in the
      partition of everything stored into segments, a segment begins one past the highest index
      deleted (or at 1). Otherwise the segment store's is the lower one, by less than its first
      segment's records. */
  lemma FirstIndexesIff(c: Limits, ops: seq<Op>, first: uint64)
    requires Supported(c) && After(c, ops).Some? && IsFirst(After(c, ops).value.logs, first)
    ensures 1 + |Stored(ops)| < TWO64
    ensures var w := FromFresh(c, 1, Stored(ops));
            first == Base(After(c, ops).value.l) <==>
              Stored(ops) != [] && exists k :: 0 <= k < |w| && w[k].base == Low(ops)
    ensures var Pair(l, logs, low) := After(c, ops).value;
            && (logs != map[] <==> Stored(ops) != []) && low == Low(ops)
            && (logs != map[] ==> first == low && Base(l) <= first < Base(l) + |l[0].recs|)
  {
    hide LogInv, After, EndingAbove, FromFresh;
    StoresLeft(c, ops);
    var p, w := After(c, ops).value, FromFresh(c, 1, Stored(ops));
    if Stored(ops) == [] {
      assert p.logs == map[];
    } else {
      assert p.low in p.logs;
      InvLinked(c, w);
      var d := EndingIsSuffix(w, DeletedTo(ops));
      assert w[d] == p.l[0];
      forall k | 0 <= k < |w| && w[k].base == Low(ops) ensures Base(p.l) == p.low {
        LowBegins(c, p, w, DeletedTo(ops), k);
      }
    }
  }
}

/** Replicas that come back: restored from a snapshot and caught up, or restarted. */
module Recovery {
  import opened Bytes
  import opened RecordCodec
  import opened Frames
  import opened LogModel
  import opened Replays
  import opened Capacity
  import opened Snapshots
  import opened Fsm
  import opened Replicas
  import Partition
  import Readers

  lemma {:induction false} ApplyAllSplit(c: Limits, l: seq<Seg>, cmds: seq<seq<byte>>, i: nat)
    requires Supported(c) && LogInv(c, l) && Next(Active(l)) + |cmds| < TWO64 && i <= |cmds|
    ensures var m := ApplyAll(c, l, cmds[..i]);
            && Next(Active(m)) + |cmds[i..]| < TWO64
            && ApplyAll(c, l, cmds) == ApplyAll(c, m, cmds[i..])
  {
    hide LogInv, AfterApply;
    if i == |cmds| {
      assert cmds[..i] == cmds && cmds[i..] == [];
    } else {
      var front := cmds[..|cmds| - 1];
      ApplyAllSplit(c, l, front, i);
      assert front[..i] == cmds[..i];
      assert cmds[i..][..|cmds[i..]| - 1] == front[i..];
    }
  }

  /** Under limits that cannot stick, commands append all their records. */
  lemma ApplyAllAdds(c: Limits, l: seq<Seg>, cmds: seq<seq<byte>>)
    requires Supported(c) && LogInv(c, l) && Next(Active(l)) + |cmds| < TWO64
    requires Base(l) + Slots(c) <= TWO64 && !CanStick(c, Base(l))
    ensures Records(ApplyAll(c, l, cmds)) == Records(l) + Stamped(Next(Active(l)), AppendsOf(cmds))
    ensures Next(Active(ApplyAll(c, l, cmds))) == Next(Active(l)) + |AppendsOf(cmds)|
  {
    hide LogInv, ApplyAll, AppendsOf, CanStick, Replay, AllAccepted, Records;
    ApplyAllReplays(c, l, cmds);
    NeverRefused(c, l, AppendsOf(cmds), Base(l));
    ReplayAdds(c, l, AppendsOf(cmds));
  }

  /** Raft asks for the snapshot after the first `i` commands and later hands the restored replica
      the others. The reader is lazy: while it reads, the source applies some of those others. */
  ghost predicate Catching(c: Limits, base: nat, cmds: seq<seq<byte>>, i: nat, ops: seq<Readers.Op>) {
    && Supported(c) && base + Slots(c) <= TWO64 && !CanStick(c, base)
    && i <= |cmds| && base + 2 * |cmds| < TWO64
    && Readers.AppendsIn(ops) <= AppendsOf(cmds[i..])
    && var l := Replica(c, base, cmds[..i]);
       Readers.After(c, l, ops).Some? && Readers.After(c, l, ops).value.at == |l|
  }

  lemma CatchingLimits(c: Limits, base: nat, cmds: seq<seq<byte>>, i: nat, ops: seq<Readers.Op>)
    requires Catching(c, base, cmds, i, ops)
    ensures Supported(c) && base + Slots(c) <= TWO64 && !CanStick(c, base)
    ensures i <= |cmds| && base + 2 * |cmds| < TWO64
  {
    hide CanStick, Readers.After, LogInv, Records;
  }

  /** The source when the snapshot is asked for, and the reader at its end. */
  ghost function Asked(c: Limits, base: nat, cmds: seq<seq<byte>>, i: nat, ops: seq<Readers.Op>): (l: seq<Seg>)
    requires Catching(c, base, cmds, i, ops)
    ensures LogInv(c, l)
  {
    Replica(c, base, cmds[..i])
  }

  ghost function Ended(c: Limits, base: nat, cmds: seq<seq<byte>>, i: nat, ops: seq<Readers.Op>): (s: Readers.State)
    requires Catching(c, base, cmds, i, ops)
    ensures LogInv(c, s.l)
  {
    Readers.After(c, Replica(c, base, cmds[..i]), ops).value
  }

  /** The records in the stream of that snapshot. */
  ghost function Taken(c: Limits, base: nat, cmds: seq<seq<byte>>, i: nat, ops: seq<Readers.Op>): seq<Record>
    requires Catching(c, base, cmds, i, ops)
  {
    Parse(Ended(c, base, cmds, i, ops).out).records
  }

  /** The later commands' records, and how many of them the stream took in passing. */
  function Later(cmds: seq<seq<byte>>, i: nat): seq<Record>
    requires i <= |cmds|
  {
    AppendsOf(cmds[i..])
  }

  ghost function More(c: Limits, base: nat, cmds: seq<seq<byte>>, i: nat, ops: seq<Readers.Op>): int
    requires Catching(c, base, cmds, i, ops)
  {
    |Taken(c, base, cmds, i, ops)| - |Records(Asked(c, base, cmds, i, ops))|
  }

  /** What is known of the source at both ends: it accepted everything. */
  lemma SourceGrew(c: Limits, base: nat, cmds: seq<seq<byte>>, i: nat, ops: seq<Readers.Op>)
    requires Catching(c, base, cmds, i, ops)
    ensures var l, s := Asked(c, base, cmds, i, ops), Ended(c, base, cmds, i, ops);
            && Base(l) == base && Accepts(c, l) && Active(l).junk == []
            && Next(Active(l)) == base + |Records(l)| <= base + i
            && Base(s.l) == base && Accepts(c, s.l) && Active(s.l).junk == []
            && Next(Active(l)) + |Readers.AppendsIn(ops)| < TWO64
            && Records(s.l) == Records(l) + Stamped(Next(Active(l)), Readers.AppendsIn(ops))
  {
    hide LogInv, Records, Readers.After, Readers.AppendsIn, CanStick, Accepts, Replay, AllAccepted, AppendsOf, ApplyAll;
    var l, s, rs := Asked(c, base, cmds, i, ops), Ended(c, base, cmds, i, ops), Readers.AppendsIn(ops);
    ReplicaReplays(c, base, cmds[..i]);
    Spans(c, l);
    ActiveAbove(c, l);
    NeverSticks(c, l, base);
    AcceptingIsClean(c, l);
    Readers.ReaderReplays(c, l, ops);
    NeverRefused(c, l, rs, base);
    ReplayAdds(c, l, rs);
    ActiveAbove(c, s.l);
    NeverSticks(c, s.l, base);
    AcceptingIsClean(c, s.l);
  }

  lemma AcceptingIsClean(c: Limits, l: seq<Seg>)
    requires LogInv(c, l) && Accepts(c, l)
    ensures Active(l).junk == []
  {
    assert SegOk(c, Active(l));
  }

  /** The stream holds the source's records and, of those the later commands append, the first ones:
      at least one exactly when an append came before a read. */
  lemma TakenIs(c: Limits, base: nat, cmds: seq<seq<byte>>, i: nat, ops: seq<Readers.Op>)
    requires Catching(c, base, cmds, i, ops)
    ensures var l, more := Asked(c, base, cmds, i, ops), More(c, base, cmds, i, ops);
            && 0 <= more <= |Later(cmds, i)| && Next(Active(l)) + |Later(cmds, i)| < TWO64
            && Taken(c, base, cmds, i, ops) == Records(l) + Stamped(Next(Active(l)), Later(cmds, i)[..more])
            && (more > 0 <==> Readers.AppendBeforeRead(ops))
  {
    hide LogInv, Records, Readers.After, Readers.AppendsIn, CanStick, Accepts, AppendsOf, Replica, Parse, Stream,
      Readers.AppendBeforeRead, Readers.ReaderInv, Readers.DeliveredAs;
    var l, s := Asked(c, base, cmds, i, ops), Ended(c, base, cmds, i, ops);
    SourceGrew(c, base, cmds, i, ops);
    Readers.EndGrows(c, l, ops);
    Readers.Delivered(c, l, s);
    TakenCount(c, l, s);
    PartTaken(Records(l), Next(Active(l)), Readers.AppendsIn(ops), Later(cmds, i), More(c, base, cmds, i, ops));
  }

  lemma TakenCount(c: Limits, l: seq<Seg>, s: Readers.State)
    requires LogInv(c, l) && s.l != [] && Active(s.l).junk == []
    requires Readers.DeliveredAs(c, l, s, Readers.Count(l, s), s.end.junk)
    ensures var m := Readers.Count(l, s);
            && |Records(l)| <= m <= |Records(s.l)| && Parse(s.out).records == Records(s.l)[..m]
            && m - |Records(l)| == |s.end.recs| - |Active(l).recs|
  {
    hide LogInv, Records, Parse, Stream;
    var m := Readers.Count(l, s);
    assert Records(s.l)[..m] + s.end.junk == Records(s.l)[..m];
    StreamParses(Records(s.l)[..m]);
    assert l == Sealeds(l) + [Active(l)];
    RecordsSnoc(Sealeds(l), Active(l));
  }

  lemma PartTaken(held: seq<Record>, next: nat, part: seq<Record>, whole: seq<Record>, more: nat)
    requires part <= whole && more <= |part| && next + |whole| < TWO64
    ensures (held + Stamped(next, part))[..|held| + more] == held + Stamped(next, whole[..more])
  {
  }

  /** Restoring always succeeds there, and gives a log of the records taken. */
  lemma RestoreTaken(c: Limits, base: nat, cmds: seq<seq<byte>>, i: nat, ops: seq<Readers.Op>, other: seq<Seg>)
    requires Catching(c, base, cmds, i, ops) && Taken(c, base, cmds, i, ops) != []
    ensures var rs := Taken(c, base, cmds, i, ops);
            && Numbered(rs) && BuiltAccepts(c, rs) && base + |rs| + |cmds[i..]| < TWO64
            && var l' := Built(c, other, rs);
               && LogInv(c, l') && Base(l') == base && Records(l') == rs && Active(l').junk == []
               && Next(Active(l')) == base + |rs|
  {
    hide LogInv, Records, Replica, Readers.After, Parse, CanStick, BuiltAccepts, Built, Numbered, Accepts, AppendsOf;
    var l, s := Asked(c, base, cmds, i, ops), Ended(c, base, cmds, i, ops);
    SourceGrew(c, base, cmds, i, ops);
    TakenIs(c, base, cmds, i, ops);
    var m, junk := SnapshotUnderAppends(c, l, ops, other);
    assert Records(s.l)[..m] + junk == Records(s.l)[..m];
    Spans(c, Built(c, other, Taken(c, base, cmds, i, ops)));
  }

  /** A replica that restores the snapshot and then applies the commands from `i` on. */
  ghost function CaughtUp(c: Limits, base: nat, cmds: seq<seq<byte>>, i: nat, ops: seq<Readers.Op>, other: seq<Seg>):
    (l: seq<Seg>)
    requires Catching(c, base, cmds, i, ops) && Taken(c, base, cmds, i, ops) != []
    ensures LogInv(c, l)
  {
    RestoreTaken(c, base, cmds, i, ops, other);
    ApplyAll(c, Built(c, other, Taken(c, base, cmds, i, ops)), cmds[i..])
  }

  /** Where the source ends: the later commands' records once. */
  lemma SourceHolds(c: Limits, base: nat, cmds: seq<seq<byte>>, i: nat, ops: seq<Readers.Op>)
    requires Catching(c, base, cmds, i, ops)
    ensures var l := Asked(c, base, cmds, i, ops);
            && Next(Active(l)) + |cmds[i..]| < TWO64
            && Replica(c, base, cmds) == ApplyAll(c, l, cmds[i..])
            && Records(Replica(c, base, cmds)) == Records(l) + Stamped(Next(Active(l)), Later(cmds, i))
  {
    hide LogInv, Records, ApplyAll, CanStick, Readers.After, AppendsOf, Catching, Accepts;
    CatchingLimits(c, base, cmds, i, ops);
    FreshInv(c, base);
    SourceGrew(c, base, cmds, i, ops);
    ApplyAllSplit(c, Fresh(base), cmds, i);
    ApplyAllAdds(c, Asked(c, base, cmds, i, ops), cmds[i..]);
  }

  /** Where the replica ends: first those taken in passing, then all of them. */
  lemma CaughtUpHolds(c: Limits, base: nat, cmds: seq<seq<byte>>, i: nat, ops: seq<Readers.Op>, other: seq<Seg>)
    requires Catching(c, base, cmds, i, ops) && Taken(c, base, cmds, i, ops) != []
    ensures base + |Taken(c, base, cmds, i, ops)| + |Later(cmds, i)| < TWO64
    ensures Records(CaughtUp(c, base, cmds, i, ops, other))
         == Taken(c, base, cmds, i, ops) + Stamped(base + |Taken(c, base, cmds, i, ops)|, Later(cmds, i))
  {
    hide LogInv, Records, ApplyAll, CanStick, Taken, BuiltAccepts, Built, Numbered, AppendsOf, Catching;
    CatchingLimits(c, base, cmds, i, ops);
    RestoreTaken(c, base, cmds, i, ops, other);
    ApplyAllAdds(c, Built(c, other, Taken(c, base, cmds, i, ops)), cmds[i..]);
  }

  /** The replica is where the source is, segment by segment, exactly when no append came before a
      read; otherwise it is further, by as many offsets as records were taken in passing. */
  lemma CatchUpIff(c: Limits, base: nat, cmds: seq<seq<byte>>, i: nat, ops: seq<Readers.Op>, other: seq<Seg>)
    requires Catching(c, base, cmds, i, ops) && Taken(c, base, cmds, i, ops) != []
    ensures CaughtUp(c, base, cmds, i, ops, other) == Replica(c, base, cmds) <==> !Readers.AppendBeforeRead(ops)
    ensures Next(Active(CaughtUp(c, base, cmds, i, ops, other)))
         == Next(Active(Replica(c, base, cmds))) + More(c, base, cmds, i, ops)
  {
    hide LogInv, Records, ApplyAll, CanStick, Taken, BuiltAccepts, Built, Numbered, AppendsOf, Catching, Asked,
      Readers.AppendBeforeRead, Replica, Accepts, Ended;
    CatchingLimits(c, base, cmds, i, ops);
    TakenIs(c, base, cmds, i, ops);
    SourceHolds(c, base, cmds, i, ops);
    CaughtUpHolds(c, base, cmds, i, ops, other);
    CatchUpBases(c, base, cmds, i, ops, other);
    Spans(c, CaughtUp(c, base, cmds, i, ops, other));
    Spans(c, Replica(c, base, cmds));
    if More(c, base, cmds, i, ops) == 0 {
      SourceGrew(c, base, cmds, i, ops);
      RestoreTaken(c, base, cmds, i, ops, other);
      NoneTaken(Records(Asked(c, base, cmds, i, ops)), Taken(c, base, cmds, i, ops),
                Next(Active(Asked(c, base, cmds, i, ops))), Later(cmds, i));
      SameLog(c, Asked(c, base, cmds, i, ops), Built(c, other, Taken(c, base, cmds, i, ops)));
    }
  }

  lemma NoneTaken(held: seq<Record>, taken: seq<Record>, next: nat, later: seq<Record>)
    requires next + |later| < TWO64 && taken == held + Stamped(next, later[..0])
    ensures taken == held
  {
  }

  /** Otherwise each record taken in passing stands twice: the `j`-th later command's at its own offset
      and again `more` offsets further, where all later commands' records are. */
  lemma CatchUpTwice(c: Limits, base: nat, cmds: seq<seq<byte>>, i: nat, ops: seq<Readers.Op>, other: seq<Seg>, j: nat)
    requires Catching(c, base, cmds, i, ops) && Taken(c, base, cmds, i, ops) != [] && j < |Later(cmds, i)|
    ensures var caught, more := CaughtUp(c, base, cmds, i, ops, other), More(c, base, cmds, i, ops);
            var off, r := Next(Active(Asked(c, base, cmds, i, ops))) + j, Later(cmds, i)[j];
            && 0 <= more && off + more < TWO64
            && ReadAt(Replica(c, base, cmds), off) == Some(Record(r.value, off, r.term, r.kind))
            && ReadAt(caught, off + more) == Some(Record(r.value, off + more, r.term, r.kind))
            && (j < more ==> ReadAt(caught, off) == Some(Record(r.value, off, r.term, r.kind)))
  {
    hide LogInv, Records, ApplyAll, CanStick, Taken, BuiltAccepts, Built, Numbered, AppendsOf, Catching, Asked,
      Readers.AppendBeforeRead, Replica, Accepts, Ended, CaughtUp;
    TakenIs(c, base, cmds, i, ops);
    SourceHolds(c, base, cmds, i, ops);
    CaughtUpHolds(c, base, cmds, i, ops, other);
    SourceGrew(c, base, cmds, i, ops);
    CatchUpBases(c, base, cmds, i, ops, other);
  }

  lemma CatchUpBases(c: Limits, base: nat, cmds: seq<seq<byte>>, i: nat, ops: seq<Readers.Op>, other: seq<Seg>)
    requires Catching(c, base, cmds, i, ops) && Taken(c, base, cmds, i, ops) != []
    ensures Base(CaughtUp(c, base, cmds, i, ops, other)) == base == Base(Replica(c, base, cmds))
  {
    hide LogInv, Records, ApplyAll, CanStick, Taken, BuiltAccepts, Built, Numbered, AppendsOf, Catching, Accepts;
    CatchingLimits(c, base, cmds, i, ops);
    RestoreTaken(c, base, cmds, i, ops, other);
    ApplyAllReplays(c, Built(c, other, Taken(c, base, cmds, i, ops)), cmds[i..]);
    ReplicaReplays(c, base, cmds);
  }

  /** Under limits that cannot stick, lowest offset and records are the whole log. */
  lemma SameLog(c: Limits, l: seq<Seg>, l': seq<Seg>)
    requires Supported(c) && LogInv(c, l) && LogInv(c, l') && Base(l) == Base(l') && Records(l) == Records(l')
    requires Base(l) + Slots(c) <= TWO64 && !CanStick(c, Base(l)) && Active(l').junk == []
    ensures l == l'
  {
    hide LogInv, Records, CanStick, Accepts;
    ActiveAbove(c, l);
    NeverSticks(c, l, Base(l));
    AcceptingIsClean(c, l);
    Partition.GreedyUnique(c, l', l);
    assert Partition.Clean(l') == l' && Partition.Clean(l) == l;
  }

  lemma {:induction false} AppendsOfConcat(a: seq<seq<byte>>, b: seq<seq<byte>>)
    ensures AppendsOf(a + b) == AppendsOf(a) + AppendsOf(b)
  {
    hide DecodeCommand;
    if b == [] {
      assert a + b == a;
    } else {
      AppendsOfConcat(a, b[..|b| - 1]);
      assert (a + b)[..|a + b| - 1] == a + b[..|b| - 1];
    }
  }

  lemma LaterFirst(cmds: seq<seq<byte>>, i: nat)
    requires i < |cmds| && DecodeCommand(cmds[i]).AppendRecord?
    ensures Later(cmds, i) != [] && Later(cmds, i)[0] == DecodeCommand(cmds[i]).record
  {
    hide DecodeCommand;
    assert cmds[i..] == [cmds[i]] + cmds[i + 1..];
    AppendsOfConcat([cmds[i]], cmds[i + 1..]);
    assert AppendsOf([cmds[i]][..0]) == [];
  }

  /** It happens to every append command: if it is applied between the call of `Snapshot` and the
      first read, the replica holds its record at two offsets. */
  lemma CatchUpDuplicates(c: Limits, base: nat, cmds: seq<seq<byte>>, i: nat, other: seq<Seg>)
    returns (ops: seq<Readers.Op>)
    requires Supported(c) && base + Slots(c) <= TWO64 && !CanStick(c, base)
    requires base + 2 * |cmds| < TWO64 && i < |cmds| && DecodeCommand(cmds[i]).AppendRecord?
    ensures Catching(c, base, cmds, i, ops) && Taken(c, base, cmds, i, ops) != []
    ensures var caught, off := CaughtUp(c, base, cmds, i, ops, other), Next(Active(Asked(c, base, cmds, i, ops)));
            var r := DecodeCommand(cmds[i]).record;
            && off + 1 < TWO64
            && ReadAt(caught, off) == Some(Record(r.value, off, r.term, r.kind))
            && ReadAt(caught, off + 1) == Some(Record(r.value, off + 1, r.term, r.kind))
  {
    hide LogInv, Records, Replica, CanStick, DecodeCommand, Readers.After, Stream, Accepts, AfterAppend, Parse,
      CaughtUp, AppendsOf, Readers.AppendsIn;
    var l, r := Replica(c, base, cmds[..i]), DecodeCommand(cmds[i]).record;
    ReplicaReplays(c, base, cmds[..i]);
    Spans(c, l);
    ActiveAbove(c, l);
    NeverSticks(c, l, base);
    LaterFirst(cmds, i);
    ops := Readers.LateReader(c, l, r);
    StreamParses(Records(l) + [Stamp(r, Next(Active(l)))]);
    assert Catching(c, base, cmds, i, ops) && More(c, base, cmds, i, ops) == 1;
    CatchUpTwice(c, base, cmds, i, ops, other, 0);
  }

  /** A node that comes back without a snapshot opens the log it had, of the first `i` commands, and
      is handed all commands again: it is where the others are exactly when none of those was an
      append, and otherwise as many offsets further. */
  lemma RestartIff(c: Limits, base: nat, cmds: seq<seq<byte>>, i: nat)
    requires Supported(c) && base + Slots(c) <= TWO64 && !CanStick(c, base)
    requires i <= |cmds| && base + 2 * |cmds| < TWO64
    ensures Next(Active(Replica(c, base, cmds[..i]))) + |cmds| < TWO64
    ensures var again, source := ApplyAll(c, Replica(c, base, cmds[..i]), cmds), Replica(c, base, cmds);
            && Next(Active(again)) - Next(Active(source)) == |AppendsOf(cmds[..i])|
            && (again == source <==> AppendsOf(cmds[..i]) == [])
  {
    hide LogInv, Records, ApplyAll, AppendsOf, CanStick, Accepts;
    FreshInv(c, base);
    var l := Replica(c, base, cmds[..i]);
    ReplicaReplays(c, base, cmds[..i]);
    ApplyAllAdds(c, Fresh(base), cmds[..i]);
    ApplyAllAdds(c, Fresh(base), cmds);
    ApplyAllAdds(c, l, cmds);
    ApplyAllReplays(c, Fresh(base), cmds[..i]);
    ReplayNone(c, Fresh(base));
  }
}

/** Replicas that apply prefixes of one command sequence. */
module Replicas {
  import opened Bytes
  import opened RecordCodec
  import opened Frames
  import opened LogModel
  import opened Replays
  import opened Capacity
  import opened Fsm

  /** The state after applying `cmds` in order. */
  ghost function ApplyAll(c: Limits, l: seq<Seg>, cmds: seq<seq<byte>>): (l': seq<Seg>)
    requires Supported(c) && LogInv(c, l) && Next(Active(l)) + |cmds| < TWO64
    ensures LogInv(c, l') && Next(Active(l')) <= Next(Active(l)) + |cmds|
  {
    if cmds == [] then l
    else
      var m := ApplyAll(c, l, cmds[..|cmds| - 1]);
      var cmd := cmds[|cmds| - 1];
      ApplyInv(c, m, cmd);
      AfterApply(c, m, cmd)
  }

  lemma ApplyInv(c: Limits, l: seq<Seg>, cmd: seq<byte>)
    requires Supported(c) && LogInv(c, l) && OffsetsLeft(l)
    ensures LogInv(c, AfterApply(c, l, cmd))
    ensures Next(Active(AfterApply(c, l, cmd))) <= Next(Active(l)) + 1
  {
    hide LogInv, AfterAppend, DecodeCommand, Accepts;
    match DecodeCommand(cmd)
    case AppendRecord(r) =>
      AppendInv(c, l, r);
      AppendNext(c, l, r);
    case _ =>
  }

  /** The records that `cmds` ask to append, in order. */
  function AppendsOf(cmds: seq<seq<byte>>): (rs: seq<Record>)
    ensures |rs| <= |cmds|
  {
    if cmds == [] then []
    else
      var front := AppendsOf(cmds[..|cmds| - 1]);
      match DecodeCommand(cmds[|cmds| - 1])
      case AppendRecord(r) => front + [r]
      case _ => front
  }

  lemma {:induction false} AppendsOfPrefix(cmds: seq<seq<byte>>, i: nat)
    requires i <= |cmds|
    ensures AppendsOf(cmds[..i]) <= AppendsOf(cmds)
  {
    hide DecodeCommand;
    if i < |cmds| {
      AppendsOfPrefix(cmds[..|cmds| - 1], i);
      assert cmds[..|cmds| - 1][..i] == cmds[..i];
    } else {
      assert cmds[..i] == cmds;
    }
  }

  lemma {:induction false} ApplyAllReplays(c: Limits, l: seq<Seg>, cmds: seq<seq<byte>>)
    requires Supported(c) && LogInv(c, l) && Next(Active(l)) + |cmds| < TWO64
    ensures ApplyAll(c, l, cmds) == Replay(c, l, AppendsOf(cmds))
  {
    hide LogInv, AfterAppend, DecodeCommand;
    if cmds != [] {
      var front := cmds[..|cmds| - 1];
      ApplyAllReplays(c, l, front);
      match DecodeCommand(cmds[|cmds| - 1])
      case AppendRecord(r) =>
        var rs := AppendsOf(cmds);
        assert rs[..|rs| - 1] == AppendsOf(front) && rs[|rs| - 1] == r;
      case _ =>
    }
  }

  /** Whatever is refused, the records are the first of those asked for, numbered in order; if not
      all of them, the log takes no more. */
  lemma {:induction false} ReplayIsPrefix(c: Limits, l: seq<Seg>, rs: seq<Record>)
    requires Supported(c) && LogInv(c, l) && Next(Active(l)) + |rs| < TWO64
    ensures Records(Replay(c, l, rs)) <= Records(l) + Stamped(Next(Active(l)), rs)
    ensures Accepts(c, Replay(c, l, rs)) ==>
              Records(Replay(c, l, rs)) == Records(l) + Stamped(Next(Active(l)), rs)
  {
    hide LogInv, Records, Accepts, AfterAppend;
    if rs != [] {
      var front, r := rs[..|rs| - 1], rs[|rs| - 1];
      var m, first := Replay(c, l, front), Next(Active(l));
      ReplayIsPrefix(c, l, front);
      AppendInv(c, m, r);
      Spans(c, l);
      Spans(c, m);
      assert Stamped(first, rs) == Stamped(first, front) + [Stamp(r, first + |front|)];
      if !Accepts(c, m) {
        RefusedAgain(c, m, r);
      }
    }
  }

  lemma Spans(c: Limits, l: seq<Seg>)
    requires LogInv(c, l)
    ensures Base(l) + |Records(l)| == Next(Active(l))
  {
    InvLinked(c, l);
    RecordsSpan(l);
  }

  lemma RefusedAgain(c: Limits, l: seq<Seg>, r: Record)
    requires LogInv(c, l) && !Accepts(c, l)
    ensures !Accepts(c, AfterAppend(c, l, r))
  {
    hide LogInv, Entries;
  }

  /** The records of the append commands, numbered from `base`. */
  function IdealRecords(base: nat, cmds: seq<seq<byte>>): seq<Record>
    requires base + |cmds| < TWO64
  {
    Stamped(base, AppendsOf(cmds))
  }

  /** The record that offset `off` should hold: the command's, stamped. */
  function Ideal(base: nat, cmds: seq<seq<byte>>, off: nat): Option<Record>
    requires base + |cmds| < TWO64
  {
    Lookup(base, IdealRecords(base, cmds), off)
  }

  /** A replica that started afresh at `base` and applied `cmds`. */
  ghost function Replica(c: Limits, base: nat, cmds: seq<seq<byte>>): (l: seq<Seg>)
    requires Supported(c) && base + |cmds| < TWO64
    ensures LogInv(c, l)
  {
    FreshInv(c, base);
    ApplyAll(c, Fresh(base), cmds)
  }

  lemma ReplicaReplays(c: Limits, base: nat, cmds: seq<seq<byte>>)
    requires Supported(c) && base + |cmds| < TWO64
    ensures Base(Replica(c, base, cmds)) == base
    ensures Records(Replica(c, base, cmds)) <= IdealRecords(base, cmds)
    ensures Accepts(c, Replica(c, base, cmds)) ==> Records(Replica(c, base, cmds)) == IdealRecords(base, cmds)
  {
    hide LogInv, Records, ApplyAll, AppendsOf, Replay, Accepts;
    FreshInv(c, base);
    ApplyAllReplays(c, Fresh(base), cmds);
    ReplayIsPrefix(c, Fresh(base), AppendsOf(cmds));
  }

  /** A replica that applied the first `i` commands holds at every readable offset the record that
      the command sequence puts there, whatever its limits. */
  lemma ReplicaIsIdeal(c: Limits, base: nat, cmds: seq<seq<byte>>, i: nat, off: nat)
    requires Supported(c) && base + |cmds| < TWO64 && i <= |cmds|
    ensures var l := Replica(c, base, cmds[..i]);
            var r := ReadAt(l, off);
            Base(l) == base && (r.Some? ==> r == Ideal(base, cmds, off) && r.value.offset == off)
  {
    hide LogInv, Records, Replica, AppendsOf;
    ReplicaReplays(c, base, cmds[..i]);
    AppendsOfPrefix(cmds, i);
    assert Stamped(base, AppendsOf(cmds[..i])) <= Stamped(base, AppendsOf(cmds));
  }

  /** Two replicas with different limits that applied different prefixes never disagree. */
  lemma ReplicasAgree(c: Limits, d: Limits, base: nat, cmds: seq<seq<byte>>, i: nat, j: nat, off: nat)
    requires Supported(c) && Supported(d) && base + |cmds| < TWO64 && i <= |cmds| && j <= |cmds|
    ensures var l, m := Replica(c, base, cmds[..i]), Replica(d, base, cmds[..j]);
            var r, s := ReadAt(l, off), ReadAt(m, off);
            r.Some? && s.Some? ==> r == s
  {
    hide LogInv, Records, Replica, Ideal;
    ReplicaIsIdeal(c, base, cmds, i, off);
    ReplicaIsIdeal(d, base, cmds, j, off);
  }

  /** The offset an append command returns is the initial offset plus the number of append commands
      before it; a replica whose limits cannot stick returns one for every append command. */
  lemma ResponseNumbered(c: Limits, base: nat, cmds: seq<seq<byte>>, i: nat)
    requires Supported(c) && base + |cmds| < TWO64 && i < |cmds|
    requires DecodeCommand(cmds[i]).AppendRecord?
    ensures var response := Response(c, Replica(c, base, cmds[..i]), cmds[i]);
            && (response.Offset? ==> response.off == base + |AppendsOf(cmds[..i])|)
            && (base + Slots(c) <= TWO64 && !CanStick(c, base) ==> response.Offset?)
  {
    hide LogInv, Records, Replica, AppendsOf, Accepts, DecodeCommand, CanStick;
    var l := Replica(c, base, cmds[..i]);
    ReplicaReplays(c, base, cmds[..i]);
    Spans(c, l);
    ActiveAbove(c, l);
    if base + Slots(c) <= TWO64 && !CanStick(c, base) {
      NeverSticks(c, l, base);
    }
  }
}

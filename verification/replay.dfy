/** Appending a sequence of records, and what that rebuilds. */
module Replays {
  import opened Bytes
  import opened RecordCodec
  import opened LogModel
  import opened Partition

  /** Appends `rs`, one after the other. */
  function Replay(c: Limits, l: seq<Seg>, rs: seq<Record>): (l': seq<Seg>)
    requires Supported(c) && LogInv(c, l) && Next(Active(l)) + |rs| < TWO64
    ensures LogInv(c, l') && Base(l') == Base(l)
    ensures Next(Active(l')) <= Next(Active(l)) + |rs|
  {
    if rs == [] then l
    else
      var m := Replay(c, l, rs[..|rs| - 1]);
      AppendInv(c, m, rs[|rs| - 1]);
      AppendNext(c, m, rs[|rs| - 1]);
      AfterAppend(c, m, rs[|rs| - 1])
  }

  lemma AppendNext(c: Limits, l: seq<Seg>, r: Record)
    requires LogInv(c, l)
    ensures var l' := AfterAppend(c, l, r);
            l' != [] && Next(Active(l')) == Next(Active(l)) + if Accepts(c, l) then 1 else 0
  {
    hide Maxed, Full, SegOk, Sealed, Open;
  }

  /** Every one of those appends is accepted. */
  predicate AllAccepted(c: Limits, l: seq<Seg>, rs: seq<Record>)
    requires Supported(c) && LogInv(c, l) && Next(Active(l)) + |rs| < TWO64
  {
    rs == [] || (AllAccepted(c, l, rs[..|rs| - 1]) && Accepts(c, Replay(c, l, rs[..|rs| - 1])))
  }

  /** A fresh log at `base` after appending `rs`. */
  function FromFresh(c: Limits, base: nat, rs: seq<Record>): (l: seq<Seg>)
    requires Supported(c) && base + |rs| < TWO64
    ensures LogInv(c, l) && Base(l) == base
  {
    FreshInv(c, base);
    Replay(c, Fresh(base), rs)
  }

  lemma ReplaySnoc(c: Limits, l: seq<Seg>, rs: seq<Record>, r: Record)
    requires Supported(c) && LogInv(c, l) && Next(Active(l)) + |rs| + 1 < TWO64
    ensures OffsetsLeft(Replay(c, l, rs))
    ensures Replay(c, l, rs + [r]) == AfterAppend(c, Replay(c, l, rs), r)
    ensures AllAccepted(c, l, rs + [r]) <==> AllAccepted(c, l, rs) && Accepts(c, Replay(c, l, rs))
  {
    hide LogInv, AfterAppend, Accepts;
    assert (rs + [r])[..|rs|] == rs;
  }

  lemma ReplayNone(c: Limits, l: seq<Seg>)
    requires Supported(c) && LogInv(c, l)
    ensures Next(Active(l)) < TWO64 && Replay(c, l, []) == l && AllAccepted(c, l, [])
  {
  }

  lemma {:induction false} ReplayConcat(c: Limits, l: seq<Seg>, a: seq<Record>, b: seq<Record>)
    requires Supported(c) && LogInv(c, l) && Next(Active(l)) + |a| + |b| < TWO64
    ensures Replay(c, l, a + b) == Replay(c, Replay(c, l, a), b)
  {
    hide LogInv, AfterAppend;
    if b == [] {
      assert a + b == a;
    } else {
      var front, r := b[..|b| - 1], b[|b| - 1];
      ReplayConcat(c, l, a, front);
      assert a + b == a + front + [r];
      ReplaySnoc(c, l, a + front, r);
    }
  }

  /** A refusal on the way is a refusal of the whole. */
  lemma {:induction false} AllAcceptedTake(c: Limits, l: seq<Seg>, rs: seq<Record>, k: nat)
    requires Supported(c) && LogInv(c, l) && Next(Active(l)) + |rs| < TWO64
    requires AllAccepted(c, l, rs) && k <= |rs|
    ensures AllAccepted(c, l, rs[..k])
  {
    hide LogInv, Accepts, Replay;
    if k < |rs| {
      AllAcceptedTake(c, l, rs[..|rs| - 1], k);
      assert rs[..|rs| - 1][..k] == rs[..k];
    } else {
      assert rs[..k] == rs;
    }
  }

  /** How many of those appends are accepted before the first refusal. */
  ghost function AcceptedCount(c: Limits, l: seq<Seg>, rs: seq<Record>): (n: nat)
    requires Supported(c) && LogInv(c, l) && Next(Active(l)) + |rs| < TWO64
    ensures n <= |rs|
  {
    if rs == [] then 0
    else
      var n := AcceptedCount(c, l, rs[..|rs| - 1]);
      if n == |rs| - 1 && Accepts(c, Replay(c, l, rs[..|rs| - 1])) then |rs| else n
  }

  /** What a loop that stops at the first refusal has tried to append. */
  ghost function Tried(c: Limits, l: seq<Seg>, rs: seq<Record>): (t: seq<Record>)
    requires Supported(c) && LogInv(c, l) && Next(Active(l)) + |rs| < TWO64
    ensures t <= rs
  {
    var n := AcceptedCount(c, l, rs);
    if n == |rs| then rs else rs[..n + 1]
  }

  /** The count is where acceptance ends. */
  lemma {:induction false} AcceptedCountIs(c: Limits, l: seq<Seg>, rs: seq<Record>, n: nat)
    requires Supported(c) && LogInv(c, l) && Next(Active(l)) + |rs| < TWO64
    requires n <= |rs| && AllAccepted(c, l, rs[..n])
    requires n < |rs| ==> !AllAccepted(c, l, rs[..n + 1])
    ensures AcceptedCount(c, l, rs) == n && (AllAccepted(c, l, rs) <==> n == |rs|)
    ensures Tried(c, l, rs) == if n == |rs| then rs else rs[..n + 1]
  {
    hide LogInv, Accepts, Replay;
    if rs != [] {
      var front := rs[..|rs| - 1];
      if n < |rs| {
        assert front[..n] == rs[..n];
        assert n < |front| ==> front[..n + 1] == rs[..n + 1];
        assert n == |front| ==> front[..n] == front && rs[..n + 1] == rs;
        AcceptedCountIs(c, l, front, n);
      } else {
        assert rs[..n] == rs && front[..|front|] == front;
        AcceptedCountIs(c, l, front, |front|);
      }
    }
  }

  /** The records of `rs`, numbered from `base`. */
  function Stamped(base: nat, rs: seq<Record>): (s: seq<Record>)
    requires base + |rs| <= TWO64
    ensures |s| == |rs|
    ensures forall i :: 0 <= i < |rs| ==> s[i] == Record(rs[i].value, base + i, rs[i].term, rs[i].kind)
  {
    seq(|rs|, i requires 0 <= i < |rs| => Stamp(rs[i], base + i))
  }

  lemma StampedStarts(base: nat, a: seq<Record>, b: seq<Record>)
    requires base + |a| + |b| <= TWO64
    ensures Stamped(base, a) <= Stamped(base, a + b)
  {
  }

  /** Accepted appends add exactly their records, numbered on from the next offset, and leave no
      unindexed frame. */
  lemma {:induction false} ReplayAdds(c: Limits, l: seq<Seg>, rs: seq<Record>)
    requires Supported(c) && LogInv(c, l) && Next(Active(l)) + |rs| < TWO64
    requires AllAccepted(c, l, rs)
    ensures Records(Replay(c, l, rs)) == Records(l) + Stamped(Next(Active(l)), rs)
    ensures Next(Active(Replay(c, l, rs))) == Next(Active(l)) + |rs|
    ensures rs != [] || Active(l).junk == [] ==> Active(Replay(c, l, rs)).junk == []
  {
    hide LogInv, Records, AfterAppend, Accepts;
    if rs != [] {
      var front, r := rs[..|rs| - 1], rs[|rs| - 1];
      var m := Replay(c, l, front);
      ReplayAdds(c, l, front);
      AppendInv(c, m, r);
      AppendNext(c, m, r);
      AcceptedIsClean(c, m, r);
      assert Stamped(Next(Active(l)), rs)
          == Stamped(Next(Active(l)), front) + [Stamp(r, Next(Active(m)))];
    }
  }

  lemma {:induction false} CountedAreAccepted(c: Limits, l: seq<Seg>, rs: seq<Record>)
    requires Supported(c) && LogInv(c, l) && Next(Active(l)) + |rs| < TWO64
    ensures var n := AcceptedCount(c, l, rs);
            && AllAccepted(c, l, rs[..n])
            && (n < |rs| ==> !Accepts(c, Replay(c, l, rs[..n])))
  {
    hide LogInv, Accepts, Replay;
    if rs != [] {
      var front := rs[..|rs| - 1];
      var n := AcceptedCount(c, l, front);
      CountedAreAccepted(c, l, front);
      assert front[..n] == rs[..n];
      assert rs[..|rs|] == rs;
    }
  }

  lemma RefusedAdds(c: Limits, l: seq<Seg>, rs: seq<Record>, r: Record)
    requires Supported(c) && LogInv(c, l) && Next(Active(l)) + |rs| + 1 < TWO64
    requires !Accepts(c, Replay(c, l, rs))
    ensures Records(Replay(c, l, rs + [r])) == Records(Replay(c, l, rs))
  {
    hide LogInv, Records, Accepts, Replay, AllAccepted, AfterAppend;
    ReplaySnoc(c, l, rs, r);
    AppendInv(c, Replay(c, l, rs), r);
  }

  /** Stopping at the first refusal adds exactly the records accepted before it, numbered on. */
  lemma TriedAdds(c: Limits, l: seq<Seg>, rs: seq<Record>)
    requires Supported(c) && LogInv(c, l) && Next(Active(l)) + |rs| < TWO64
    ensures Records(Replay(c, l, Tried(c, l, rs)))
         == Records(l) + Stamped(Next(Active(l)), rs[..AcceptedCount(c, l, rs)])
  {
    hide LogInv, Records, Accepts, Replay, AcceptedCount, AllAccepted, Stamped;
    var n := AcceptedCount(c, l, rs);
    var done := rs[..n];
    CountedAreAccepted(c, l, rs);
    ReplayAdds(c, l, done);
    if n == |rs| {
      assert done == rs;
    } else {
      assert Tried(c, l, rs) == done + [rs[n]];
      RefusedAdds(c, l, done, rs[n]);
    }
  }

  lemma AcceptedIsClean(c: Limits, l: seq<Seg>, r: Record)
    requires LogInv(c, l) && Accepts(c, l)
    ensures Active(AfterAppend(c, l, r)).junk == []
  {
    hide Maxed, Sealed, Open;
    assert SegOk(c, Active(l));
  }

  lemma {:induction false} ReplayPrefix(c: Limits, l: seq<Seg>, k: nat)
    requires Supported(c) && LogInv(c, l) && k <= |Records(l)|
    requires Base(l) + |Records(l)| < TWO64 && LogInv(c, Fresh(Base(l)))
    ensures AllAccepted(c, Fresh(Base(l)), Records(l)[..k])
    ensures Records(Replay(c, Fresh(Base(l)), Records(l)[..k])) == Records(l)[..k]
  {
    hide LogInv, Records, Accepts, Replay;
    var start, rs := Fresh(Base(l)), Records(l)[..k];
    if k > 0 {
      ReplayPrefix(c, l, k - 1);
      assert rs[..k - 1] == Records(l)[..k - 1];
      PrefixAccepts(c, Replay(c, start, rs[..k - 1]), l);
    }
    assert AllAccepted(c, start, rs);
    ReplayAdds(c, start, rs);
    FreshInv(c, Base(l));
    AlreadyStamped(c, l, k);
  }

  lemma AlreadyStamped(c: Limits, l: seq<Seg>, k: nat)
    requires LogInv(c, l) && k <= |Records(l)| && Base(l) + |Records(l)| < TWO64
    ensures Stamped(Base(l), Records(l)[..k]) == Records(l)[..k]
  {
    hide LogInv, Records;
    var rs := Records(l)[..k];
    forall i | 0 <= i < k ensures Stamp(rs[i], Base(l) + i) == rs[i] {
      RecordsStamped(c, l, i);
    }
  }

  /** Replaying a log's records into a fresh log at its lowest offset, under the same limits,
      rebuilds every segment, and none of the appends is refused. */
  lemma ReplayRebuilds(c: Limits, l: seq<Seg>)
    requires Supported(c) && LogInv(c, l)
    ensures Base(l) + |Records(l)| < TWO64 && LogInv(c, Fresh(Base(l)))
    ensures AllAccepted(c, Fresh(Base(l)), Records(l))
    ensures Replay(c, Fresh(Base(l)), Records(l)) == Clean(l)
  {
    hide LogInv, Records, AllAccepted, Replay;
    var start, rs := Fresh(Base(l)), Records(l);
    InvLinked(c, l);
    RecordsSpan(l);
    NextBound(c, l);
    FreshInv(c, Base(l));
    ReplayPrefix(c, l, |rs|);
    assert rs[..|rs|] == rs;
    ReplayAdds(c, start, rs);
    var m := Replay(c, start, rs);
    GreedyUnique(c, m, l);
    assert Clean(m) == m;
  }
}

/** When an append can be refused for want of index space. */
module Capacity {
  import opened Bytes
  import opened RecordCodec
  import opened Frames
  import opened LogModel
  import opened Replays

  /** `k` records without value, term or type. */
  function Blanks(k: nat): (rs: seq<Record>)
    ensures |rs| == k && forall i :: 0 <= i < k ==> rs[i] == EMPTY_RECORD
  {
    seq(k, i => EMPTY_RECORD)
  }

  /** The same, numbered from `base`: the shortest records there are. */
  function Empties(base: nat, k: nat): (rs: seq<Record>)
    requires base + k <= TWO64
    ensures |rs| == k && forall i :: 0 <= i < k ==> rs[i] == Stamp(EMPTY_RECORD, base + i)
  {
    Stamped(base, Blanks(k))
  }

  /** Entries that fit in an index. */
  function Slots(c: Limits): nat {
    c.index / ENTRY_WIDTH
  }

  /** A segment at `base` can fill its index without reaching either limit: the index limit is not
      a whole number of entries, and that many shortest records stay below the store limit. */
  predicate CanStick(c: Limits, base: nat)
    requires base + Slots(c) <= TWO64
  {
    c.index % ENTRY_WIDTH != 0 && Size(Empties(base, Slots(c))) < c.store
  }

  /** A record is at least as long as an empty one with a smaller offset. */
  lemma ShortestMessage(r: Record, off: uint64)
    requires off <= r.offset
    ensures MessageSize(Stamp(EMPTY_RECORD, off)) <= MessageSize(r)
  {
    VarintSizeMonotone(off, r.offset);
  }

  lemma {:induction false} ShortestRecords(rs: seq<Record>, base: nat)
    requires base + |rs| <= TWO64
    requires forall i :: 0 <= i < |rs| ==> base + i <= rs[i].offset
    ensures Size(Empties(base, |rs|)) <= Size(rs)
  {
    hide MessageSize;
    if rs != [] {
      var n := |rs| - 1;
      ShortestRecords(rs[..n], base);
      ShortestMessage(rs[n], base + n);
      assert Empties(base, n + 1)[..n] == Empties(base, n);
    }
  }

  /** A full active segment that is below both limits holds exactly as many entries as fit. */
  lemma FullOpen(c: Limits, s: Seg)
    requires Supported(c) && SegOk(c, s) && Open(c, s) && Full(c, s)
    ensures c.index % ENTRY_WIDTH != 0 && |s.recs| == Slots(c) && Size(s.recs) < c.store
  {
    hide Size;
    assert s.recs + [] == s.recs;
    assert ENTRY_WIDTH * |s.recs| < c.index < ENTRY_WIDTH * |s.recs| + ENTRY_WIDTH;
  }

  /** Unless a segment at `base` can stick, no log whose offsets start there or later ever refuses
      an append. */
  lemma NeverSticks(c: Limits, l: seq<Seg>, base: nat)
    requires Supported(c) && LogInv(c, l) && base <= Active(l).base
    requires base + Slots(c) <= TWO64 && !CanStick(c, base)
    ensures Accepts(c, l)
  {
    hide Size, Sealed, Full;
    var s := Active(l);
    assert SegOk(c, s);
    if Full(c, s) {
      FullOpen(c, s);
      ShortestRecords(s.recs, base);
    }
  }

  lemma {:induction false} EmptiesFill(c: Limits, base: nat, k: nat)
    requires Supported(c) && base + Slots(c) < TWO64 && CanStick(c, base) && k <= Slots(c)
    ensures FromFresh(c, base, Blanks(k)) == [Seg(base, Empties(base, k), [])]
  {
    hide AfterAppend, LogInv, CanStick;
    FreshInv(c, base);
    var rs := Blanks(k);
    if k > 0 {
      var front := Blanks(k - 1);
      assert rs == front + [EMPTY_RECORD];
      EmptiesFill(c, base, k - 1);
      EmptyStep(c, base, k - 1);
      ReplaySnoc(c, Fresh(base), front, EMPTY_RECORD);
    }
  }

  lemma EmptyStep(c: Limits, base: nat, k: nat)
    requires Supported(c) && base + Slots(c) < TWO64 && CanStick(c, base) && k < Slots(c)
    ensures AfterAppend(c, [Seg(base, Empties(base, k), [])], EMPTY_RECORD)
         == [Seg(base, Empties(base, k + 1), [])]
  {
    hide Size;
    var s, rs := Seg(base, Empties(base, k), []), Empties(base, k + 1);
    assert rs == s.recs + [Stamp(EMPTY_RECORD, base + k)];
    assert rs + [] == rs && Sealeds([s]) == [];
    var all := Empties(base, Slots(c));
    assert all[..k + 1] == rs;
    SizeGrows(all, k + 1);
  }

  /** If it can stick, that many empty records do it: the log then refuses the next append. */
  lemma Sticks(c: Limits, base: nat)
    requires Supported(c) && base + Slots(c) < TWO64 && CanStick(c, base)
    ensures !Accepts(c, FromFresh(c, base, Blanks(Slots(c))))
  {
    hide LogInv, FromFresh;
    EmptiesFill(c, base, Slots(c));
  }

  /** One more append then leaves its frame behind. */
  lemma OneTooMany(c: Limits, base: nat)
    requires Supported(c) && base + Slots(c) + 1 < TWO64 && CanStick(c, base)
    ensures var l := FromFresh(c, base, Blanks(Slots(c) + 1));
            && l == [Seg(base, Empties(base, Slots(c)), [Stamp(EMPTY_RECORD, base + Slots(c))])]
            && |Records(l)| == Slots(c)
  {
    hide LogInv, Replay, CanStick, Size, Maxed;
    var front := Blanks(Slots(c));
    FreshInv(c, base);
    EmptiesFill(c, base, Slots(c));
    Sticks(c, base);
    ReplaySnoc(c, Fresh(base), front, EMPTY_RECORD);
    assert Sealeds(FromFresh(c, base, front)) == [];
    assert Blanks(Slots(c) + 1) == front + [EMPTY_RECORD];
    var l, s := FromFresh(c, base, front + [EMPTY_RECORD]), Seg(base, Empties(base, Slots(c)), []);
    assert s.junk + [Stamp(EMPTY_RECORD, Next(s))] == [Stamp(EMPTY_RECORD, Next(s))];
    assert l == [Seg(base, Empties(base, Slots(c)), [Stamp(EMPTY_RECORD, base + Slots(c))])];
    assert Records(l[..0]) == [];
  }

  /** Exactly when some sequence of appends to a fresh log at `base` leads to a refusal. */
  lemma RefusalIff(c: Limits, base: nat)
    requires Supported(c) && base + Slots(c) < TWO64
    ensures CanStick(c, base)
       <==> exists rs :: base + |rs| < TWO64 && !Accepts(c, FromFresh(c, base, rs))
  {
    hide LogInv, Accepts, FromFresh, CanStick;
    if CanStick(c, base) {
      var rs := Blanks(Slots(c));
      Sticks(c, base);
      assert base + |rs| < TWO64 && !Accepts(c, FromFresh(c, base, rs));
    } else {
      forall rs: seq<Record> | base + |rs| < TWO64
        ensures Accepts(c, FromFresh(c, base, rs))
      {
        var l := FromFresh(c, base, rs);
        ActiveAbove(c, l);
        NeverSticks(c, l, base);
      }
    }
  }

  lemma ActiveAbove(c: Limits, l: seq<Seg>)
    requires LogInv(c, l)
    ensures Base(l) <= Active(l).base
  {
    hide SegOk, Sealed, Open;
    if |l| > 1 { BasesIncrease(l, 0, |l| - 1); }
  }

  /** A stuck log stays stuck: whatever is appended, nothing is added. */
  lemma {:induction false} StuckForever(c: Limits, l: seq<Seg>, rs: seq<Record>)
    requires Supported(c) && LogInv(c, l) && Next(Active(l)) + |rs| < TWO64
    requires !Accepts(c, l)
    ensures !Accepts(c, Replay(c, l, rs)) && Records(Replay(c, l, rs)) == Records(l)
  {
    hide LogInv, Records;
    if rs != [] {
      var m := Replay(c, l, rs[..|rs| - 1]);
      StuckForever(c, l, rs[..|rs| - 1]);
      AppendInv(c, m, rs[|rs| - 1]);
    }
  }

  /** An index limit that is a whole number of entries never refuses. */
  lemma WholeEntriesAccept(c: Limits, l: seq<Seg>)
    requires Supported(c) && LogInv(c, l) && c.index % ENTRY_WIDTH == 0
    ensures Accepts(c, l)
  {
    var s := Active(l);
    assert SegOk(c, s);
    if Full(c, s) { FullOpen(c, s); }
  }

  lemma {:induction false} SmallEmpties(k: nat)
    requires k <= 128
    ensures Size(Empties(0, k)) <= 10 * k
  {
    if k > 0 {
      SmallEmpties(k - 1);
      assert Empties(0, k)[..k - 1] == Empties(0, k - 1);
    }
  }

  /** The default limits do stick: 85 empty records fill the 1024-byte index with both limits
      unreached, and the 86th append and every later one fails. */
  lemma DefaultsStick()
    ensures var c := WithDefaults(Limits(0, 0));
            Supported(c) && CanStick(c, 0) && Slots(c) == 85
  {
    SmallEmpties(85);
  }
}

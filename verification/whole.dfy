/** A log that was truncated on the way against the same log untruncated. */
module Whole {
  import opened Bytes
  import opened RecordCodec
  import opened LogModel
  import opened Truncation
  import opened Replays

  lemma EndingSnoc(l: seq<Seg>, s: Seg, bound: int)
    ensures EndingAbove(l + [s], bound) == EndingAbove(l, bound) + if Next(s) <= bound then [] else [s]
  {
    assert (l + [s])[..|l|] == l;
  }

  /** Truncating twice is truncating at the higher bound. */
  lemma {:induction false} EndingTwice(l: seq<Seg>, a: int, b: int)
    ensures EndingAbove(EndingAbove(l, a), b) == EndingAbove(l, if a < b then b else a)
  {
    if l != [] {
      var front, s := l[..|l| - 1], l[|l| - 1];
      EndingTwice(front, a, b);
      EndingSnoc(EndingAbove(front, a), s, b);
      assert EndingAbove(front, a) + [] == EndingAbove(front, a);
    }
  }

  /** A bound below the next offset keeps the active segment. */
  lemma EndingKeepsActive(l: seq<Seg>, bound: int)
    requires l != [] && bound < Next(Active(l))
    ensures var k := EndingAbove(l, bound);
            k != [] && Active(k) == Active(l) && Sealeds(k) == EndingAbove(Sealeds(l), bound)
  {
  }

  /** Dropping a prefix of the segments commutes with an append. */
  lemma AppendCommutes(c: Limits, w: seq<Seg>, bound: int, r: Record)
    requires w != [] && bound < Next(Active(w)) < TWO64
    ensures var l, w' := EndingAbove(w, bound), AfterAppend(c, w, r);
            && l != [] && Active(l) == Active(w) && w' != [] && bound < Next(Active(w'))
            && AfterAppend(c, l, r) == EndingAbove(w', bound)
  {
    hide EndingAbove, Maxed, Full;
    var l, w', front := EndingAbove(w, bound), AfterAppend(c, w, r), Sealeds(w);
    EndingKeepsActive(w, bound);
    var s' := w'[|front|];
    EndingSnoc(front, s', bound);
    if |w'| == |w| {
      assert w' == front + [s'];
    } else {
      assert w' == front + [s'] + [EmptySeg(Next(s'))];
      EndingSnoc(front + [s'], EmptySeg(Next(s')), bound);
    }
  }

  /** And so with any number of appends. */
  lemma {:induction false} ReplayCommutes(c: Limits, w: seq<Seg>, bound: int, rs: seq<Record>)
    requires Supported(c) && LogInv(c, w) && bound < Next(Active(w)) && Next(Active(w)) + |rs| < TWO64
    requires LogInv(c, EndingAbove(w, bound)) && Active(EndingAbove(w, bound)) == Active(w)
    ensures bound < Next(Active(Replay(c, w, rs)))
    ensures Replay(c, EndingAbove(w, bound), rs) == EndingAbove(Replay(c, w, rs), bound)
    ensures Active(Replay(c, EndingAbove(w, bound), rs)) == Active(Replay(c, w, rs))
  {
    hide LogInv, EndingAbove, AfterAppend;
    if rs != [] {
      ReplayCommutes(c, w, bound, rs[..|rs| - 1]);
      AppendCommutes(c, Replay(c, w, rs[..|rs| - 1]), bound, rs[|rs| - 1]);
      EndingKeepsActive(Replay(c, w, rs), bound);
    }
  }
}

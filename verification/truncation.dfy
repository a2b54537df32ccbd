/** Prefix truncation (`Log.Truncate`) on the value model. */
module Truncation {
  import opened Bytes
  import opened RecordCodec
  import opened LogModel

  /** `lowest+1` in 64 bits. */
  function Bound(lowest: uint64): uint64 {
    if lowest == TWO64 - 1 then 0 else lowest + 1
  }

  /** The segments whose next offset is above `bound`. */
  function EndingAbove(l: seq<Seg>, bound: int): seq<Seg> {
    if l == [] then []
    else
      var s := l[|l| - 1];
      EndingAbove(l[..|l| - 1], bound) + if Next(s) <= bound then [] else [s]
  }

  /** The segments that survive `Truncate(lowest)`. */
  function Keep(l: seq<Seg>, lowest: uint64): seq<Seg> {
    EndingAbove(l, Bound(lowest))
  }

  lemma {:induction false} EndingCut(l: seq<Seg>, bound: int) returns (k: nat)
    requires Linked(l)
    ensures k <= |l| && EndingAbove(l, bound) == l[k..]
    ensures k > 0 ==> Next(l[k - 1]) <= bound
    ensures k < |l| ==> Next(l[k]) > bound
  {
    if l == [] {
      k := 0;
    } else {
      var front, s := l[..|l| - 1], l[|l| - 1];
      k := EndingCut(front, bound);
      if Next(s) > bound {
        assert l[k..] == front[k..] + [s];
      } else {
        if k < |front| {
          BasesIncrease(l, k, |l| - 1);
          assert false;
        }
        k := |l|;
      }
    }
  }

  lemma EndingIsSuffix(l: seq<Seg>, bound: int) returns (k: nat)
    requires Linked(l)
    ensures k <= |l| && EndingAbove(l, bound) == l[k..]
    ensures forall i {:trigger Next(l[i])} :: 0 <= i < k ==> Next(l[i]) <= bound
    ensures forall i {:trigger Next(l[i])} :: k <= i < |l| ==> Next(l[i]) > bound
  {
    hide EndingAbove;
    k := EndingCut(l, bound);
    forall i | 0 <= i < k ensures Next(l[i]) <= bound {
      if i < k - 1 { BasesIncrease(l, i, k - 1); }
    }
    forall i | k <= i < |l| ensures Next(l[i]) > bound {
      if k < i { BasesIncrease(l, k, i); }
    }
  }

  /** What goes is a prefix: exactly the segments whose next offset is at most the 64-bit bound. */
  lemma KeepIsSuffix(l: seq<Seg>, lowest: uint64) returns (k: nat)
    requires Linked(l)
    ensures k <= |l| && Keep(l, lowest) == l[k..]
    ensures forall i {:trigger Next(l[i])} :: 0 <= i < k ==> Next(l[i]) <= Bound(lowest)
    ensures forall i {:trigger Next(l[i])} :: k <= i < |l| ==> Next(l[i]) > Bound(lowest)
  {
    hide EndingAbove;
    k := EndingIsSuffix(l, Bound(lowest));
  }

  /** Two bounds keep the same segments exactly when no segment ends between them. */
  lemma EndingsEqualIff(l: seq<Seg>, a: int, b: int)
    requires Linked(l) && a <= b
    ensures EndingAbove(l, a) == EndingAbove(l, b)
       <==> forall i {:trigger Next(l[i])} :: 0 <= i < |l| ==> !(a < Next(l[i]) <= b)
  {
    hide EndingAbove;
    var j := EndingIsSuffix(l, a);
    var k := EndingIsSuffix(l, b);
    assert k < |l| ==> Next(l[k]) > b >= a;
    assert j <= k;
    if j < k {
      assert a < Next(l[j]) <= b;
    }
  }

  lemma NextsBounded(c: Limits, l: seq<Seg>)
    requires LogInv(c, l)
    ensures forall i {:trigger Next(l[i])} :: 0 <= i < |l| ==> Next(l[i]) <= Next(Active(l)) < TWO64
  {
    hide LogInv;
    InvLinked(c, l);
    NextBound(c, l);
    forall i {:trigger Next(l[i])} | 0 <= i < |l| ensures Next(l[i]) <= Next(Active(l)) {
      if i < |l| - 1 { BasesIncrease(l, i, |l| - 1); }
    }
  }

  /** `Truncate` removes the segments whose highest offset is at or below `lowest`, and no other,
      exactly when `lowest+1` does not wrap around or the log is empty at offset 0. At 2^64-1 it
      should leave nothing, and removes nothing. */
  lemma TruncateMeetsItsName(c: Limits, l: seq<Seg>, lowest: uint64)
    requires LogInv(c, l)
    ensures Keep(l, lowest) == EndingAbove(l, lowest + 1) <==> lowest < TWO64 - 1 || Next(Active(l)) == 0
    ensures lowest == TWO64 - 1 ==> EndingAbove(l, lowest + 1) == []
    ensures lowest == TWO64 - 1 && 0 < Next(Active(l)) ==> Keep(l, lowest) == l
  {
    hide LogInv, EndingAbove;
    InvLinked(c, l);
    NextsBounded(c, l);
    if lowest == TWO64 - 1 {
      EndingsEqualIff(l, 0, lowest + 1);
      assert Next(l[|l| - 1]) == Next(Active(l));
      var k := EndingIsSuffix(l, lowest + 1);
      var j := KeepIsSuffix(l, lowest);
      assert j > 0 ==> Next(l[0]) <= Bound(lowest);
      InvSegment(c, l, 0);
    }
  }

  /** The comment on `Truncate` promises less, to remove the segments whose highest offset is lower
      than `lowest`. The code does just that exactly when no segment ends at `lowest` itself, and at
      2^64-1, where everything should go, when the log is empty at offset 0. */
  lemma TruncateMeetsItsComment(c: Limits, l: seq<Seg>, lowest: uint64)
    requires LogInv(c, l)
    ensures Keep(l, lowest) == EndingAbove(l, lowest)
       <==> if lowest < TWO64 - 1 then
              forall i {:trigger Next(l[i])} :: 0 <= i < |l| ==> Next(l[i]) - 1 != lowest
            else Next(Active(l)) == 0
  {
    hide LogInv, EndingAbove;
    InvLinked(c, l);
    NextsBounded(c, l);
    if lowest < TWO64 - 1 {
      EndingsEqualIff(l, lowest, lowest + 1);
    } else {
      EndingsEqualIff(l, 0, lowest);
      assert Next(l[|l| - 1]) == Next(Active(l));
    }
  }

  /** Every segment with a record is an input where it does not: truncating at its highest offset
      removes it, though that offset is not lower. */
  lemma TruncateRemovesItsEnd(c: Limits, l: seq<Seg>, i: nat)
    requires LogInv(c, l) && i < |l| && l[i].recs != []
    ensures l[i] !in Keep(l, Next(l[i]) - 1) && l[i] in EndingAbove(l, Next(l[i]) - 1)
  {
    hide LogInv, EndingAbove;
    InvLinked(c, l);
    NextsBounded(c, l);
    var j := EndingIsSuffix(l, Next(l[i]) - 1);
    assert l[j..][i - j] == l[i];
    var k := KeepIsSuffix(l, Next(l[i]) - 1);
    forall n | 0 <= n < |l[k..]| ensures l[k..][n] != l[i] {
      assert Next(l[k + n]) > Next(l[i]);
    }
  }

  /** Every segment goes, the active one too, exactly when `lowest+1` reaches the next offset. */
  lemma TruncateEmpties(l: seq<Seg>, lowest: uint64)
    requires l != [] && Linked(l)
    ensures Keep(l, lowest) == [] <==> Next(Active(l)) <= Bound(lowest)
  {
    hide EndingAbove;
    var k := KeepIsSuffix(l, lowest);
  }

  lemma SuffixInv(c: Limits, l: seq<Seg>, k: nat)
    requires LogInv(c, l) && k < |l|
    ensures LogInv(c, l[k..]) && Active(l[k..]) == Active(l)
  {
    hide SegOk, Sealed, Open;
  }

  lemma SuffixRecords(l: seq<Seg>, k: nat)
    requires Linked(l) && k < |l|
    ensures Base(l) <= l[k].base && l[k].base - Base(l) <= |Records(l)|
    ensures Records(l[k..]) == Records(l)[l[k].base - Base(l)..]
  {
    hide Records;
    RecordsSpan(l);
    assert Linked(l[k..]);
    RecordsSpan(l[k..]);
    if k > 0 { BasesIncrease(l, 0, k); }
    RecordsConcat(l[..k], l[k..]);
    assert l == l[..k] + l[k..];
  }

  /** The lowest offset that truncation may leave. */
  function Raised(base: nat, lowest: uint64): nat {
    if base < Bound(lowest) then Bound(lowest) else base
  }

  /** Otherwise the log goes on: the invariant and the active segment are kept, the records lost
      are a prefix, none of them above `lowest`, and the new lowest offset is bounded. */
  lemma TruncateInv(c: Limits, l: seq<Seg>, lowest: uint64)
    requires LogInv(c, l) && Bound(lowest) < Next(Active(l))
    ensures LogInv(c, Keep(l, lowest)) && Active(Keep(l, lowest)) == Active(l)
    ensures Base(l) <= Base(Keep(l, lowest)) <= Raised(Base(l), lowest)
    ensures Base(Keep(l, lowest)) - Base(l) <= |Records(l)|
    ensures Records(Keep(l, lowest)) == Records(l)[Base(Keep(l, lowest)) - Base(l)..]
  {
    hide LogInv, Records, Keep, Bound;
    InvLinked(c, l);
    var k := KeepIsSuffix(l, lowest);
    SuffixInv(c, l, k);
    SuffixRecords(l, k);
    if k > 0 {
      assert l[k].base == Next(l[k - 1]);
    }
  }

  /** Every offset above `lowest` reads as before; below the new lowest offset nothing reads. */
  lemma TruncateReads(c: Limits, l: seq<Seg>, lowest: uint64, off: nat)
    requires LogInv(c, l) && Bound(lowest) < Next(Active(l))
    ensures Keep(l, lowest) != []
    ensures off >= Bound(lowest) || off >= Base(Keep(l, lowest)) ==> ReadAt(Keep(l, lowest), off) == ReadAt(l, off)
    ensures off < Base(Keep(l, lowest)) ==> ReadAt(Keep(l, lowest), off) == None
  {
    hide LogInv, Records, Keep, Lookup;
    TruncateInv(c, l, lowest);
    LookupDrop(Base(l), Records(l), Base(Keep(l, lowest)) - Base(l), off);
  }

  lemma LookupDrop(base: nat, recs: seq<Record>, d: nat, off: nat)
    requires d <= |recs|
    ensures Lookup(base + d, recs[d..], off) == if off < base + d then None else Lookup(base, recs, off)
    ensures off < base ==> Lookup(base, recs, off) == None
  {
  }
}

/** The segment partition is the greedy one: records and limits determine it. */
module Partition {
  import opened RecordCodec
  import opened Frames
  import opened LogModel

  lemma MaxedGrows(c: Limits, s: Seg, t: Seg)
    requires s.recs <= t.recs && s.junk == t.junk == []
    ensures Maxed(c, s) ==> Maxed(c, t)
  {
    hide Size;
    SizeGrows(t.recs, |s.recs|);
    assert s.recs + s.junk == s.recs == t.recs[..|s.recs|] && t.recs + t.junk == t.recs;
  }

  /** A sealed segment is the shortest maxed one: no proper prefix of it is maxed. */
  lemma SealedIsShortest(c: Limits, s: Seg, t: Seg)
    requires Sealed(c, s) && t.recs < s.recs && t.junk == []
    ensures !Maxed(c, t)
  {
    hide Maxed;
    assert t.recs <= DropLast(s).recs;
    MaxedGrows(c, t, DropLast(s));
  }

  /** A sealed segment against segment `t` of a log of the same records, starting together with it:
      `t` is not the last one, and holds the same. */
  lemma SameSealed(c: Limits, s: Seg, t: Seg, last: bool)
    requires Sealed(c, s)
    requires if last then Open(c, t) && s.recs <= t.recs
             else Sealed(c, t) && (s.recs <= t.recs || t.recs <= s.recs)
    ensures !last && s.recs == t.recs && s.junk == t.junk
  {
    hide Maxed;
    if last {
      MaxedGrows(c, s, t.(junk := []));
    } else if s.recs < t.recs {
      SealedIsShortest(c, t, s);
    } else if t.recs < s.recs {
      SealedIsShortest(c, s, t);
    }
  }

  /** An open segment against segment `t`: it holds a beginning of `t`, a proper one if more follow. */
  lemma OpenWithin(c: Limits, s: Seg, t: Seg, last: bool)
    requires Open(c, s)
    requires if last then s.recs <= t.recs
             else Sealed(c, t) && (s.recs <= t.recs || t.recs <= s.recs)
    ensures s.recs <= t.recs && (!last ==> s.recs != t.recs)
  {
    hide Maxed;
    if !last && t.recs <= s.recs {
      MaxedGrows(c, t, s.(junk := []));
    }
  }

  /** The records of segment `i`, cut out of the whole. */
  lemma RecordsSlice(l: seq<Seg>, i: nat)
    requires Linked(l) && i < |l|
    ensures 0 <= l[i].base - Base(l) <= |Records(l)| - |l[i].recs|
    ensures l[i].recs == Records(l)[l[i].base - Base(l)..][..|l[i].recs|]
  {
    hide Records;
    RecordsSpan(l);
    RecordsSpan(l[..i + 1]);
    if i > 0 { BasesIncrease(l, 0, i); }
    if i < |l| - 1 { BasesIncrease(l, i, |l| - 1); }
    forall k | 0 <= k < |l[i].recs|
      ensures l[i].recs[k] == Records(l)[l[i].base - Base(l) + k]
    {
      RecordsAt(l, i, l[i].base + k);
    }
  }

  /** Segments `i` of two logs of the same records, if they start together, hold records of which
      one is a prefix of the other; nothing follows an active segment. */
  lemma SameStart(c: Limits, m: seq<Seg>, l: seq<Seg>, i: nat)
    requires LogInv(c, m) && LogInv(c, l) && i < |m| && i < |l|
    requires Base(m) == Base(l) && Records(m) <= Records(l)
    requires m[i].base == l[i].base
    ensures m[i].recs <= l[i].recs || l[i].recs <= m[i].recs
    ensures i == |l| - 1 ==> m[i].recs <= l[i].recs
  {
    hide Records, SegOk, Sealed, Open;
    RecordsSlice(m, i);
    RecordsSlice(l, i);
    RecordsSpan(l);
    var rm, rl, at := Records(m), Records(l), m[i].base - Base(m);
    assert forall k :: 0 <= k < |m[i].recs| ==> m[i].recs[k] == rm[at + k] == rl[at + k];
    assert forall k :: 0 <= k < |l[i].recs| ==> l[i].recs[k] == rl[at + k];
  }

  /** As long as the records of `m` are a prefix of those of `l`, its sealed segments are the first
      segments of `l`, and its active segment holds the beginning of the next one. */
  lemma {:induction false} PrefixAligned(c: Limits, m: seq<Seg>, l: seq<Seg>, i: nat)
    requires LogInv(c, m) && LogInv(c, l) && i < |m|
    requires Base(m) == Base(l) && Records(m) <= Records(l)
    ensures i < |l| && m[i].base == l[i].base
    ensures i < |m| - 1 ==> i < |l| - 1 && m[i] == l[i]
    ensures i == |m| - 1 ==> m[i].recs <= l[i].recs && (i < |l| - 1 ==> m[i].recs != l[i].recs)
    decreases i
  {
    hide Records, SegOk, Sealed, Open;
    if i > 0 {
      PrefixAligned(c, m, l, i - 1);
      assert m[i].base == Next(m[i - 1]) && l[i].base == Next(l[i - 1]);
    }
    SameStart(c, m, l, i);
    if i < |m| - 1 {
      SameSealed(c, m[i], l[i], i == |l| - 1);
    } else {
      OpenWithin(c, m[i], l[i], i == |l| - 1);
    }
  }

  /** Without the frames of refused appends. */
  function Clean(l: seq<Seg>): (l': seq<Seg>)
    requires l != []
    ensures |l'| == |l| && Base(l') == Base(l)
  {
    Sealeds(l) + [Active(l).(junk := [])]
  }

  /** What can stand in a stream taken from log `l`: its first `m` records, and if those are all,
      some of the frames of refused appends. */
  ghost predicate Streamed(l: seq<Seg>, m: nat, junk: seq<Record>)
    requires l != []
  {
    m <= |Records(l)| && junk <= Active(l).junk && (junk != [] ==> m == |Records(l)|)
  }

  /** The sealed segments of `m` are the first segments of `l`, and the active one, which has no
      frame of a refused append, holds the beginning of the next. */
  ghost predicate Begins(m: seq<Seg>, l: seq<Seg>)
    requires m != []
  {
    && |m| <= |l| && Sealeds(m) == l[..|m| - 1]
    && Active(m).base == l[|m| - 1].base && Active(m).recs <= l[|m| - 1].recs && Active(m).junk == []
  }

  lemma PrefixBegins(c: Limits, m: seq<Seg>, l: seq<Seg>)
    requires LogInv(c, m) && LogInv(c, l) && Active(m).junk == []
    requires Base(m) == Base(l) && Records(m) <= Records(l)
    ensures Begins(m, l)
  {
    hide Records, LogInv;
    PrefixAligned(c, m, l, |m| - 1);
    forall i | 0 <= i < |m| - 1 ensures m[i] == l[i] {
      PrefixAligned(c, m, l, i);
    }
  }

  /** Records and limits determine the segments: two logs with the same lowest offset and records
      are the same, up to the frames of refused appends. */
  lemma GreedyUnique(c: Limits, m: seq<Seg>, l: seq<Seg>)
    requires LogInv(c, m) && LogInv(c, l)
    requires Base(m) == Base(l) && Records(m) == Records(l)
    ensures Clean(m) == Clean(l)
  {
    hide Records, LogInv;
    PrefixAligned(c, m, l, |m| - 1);
    PrefixAligned(c, l, m, |l| - 1);
    assert |m| == |l| && Active(m).recs == Active(l).recs;
    forall i | 0 <= i < |m| - 1 ensures m[i] == l[i] {
      PrefixAligned(c, m, l, i);
    }
    assert Sealeds(m) == Sealeds(l);
  }

  /** A sealed store exceeds its limit by less than its last frame; an open one is below it. */
  lemma StoreOvershoot(c: Limits, l: seq<Seg>, i: nat)
    requires LogInv(c, l) && i < |l|
    ensures i < |l| - 1 ==> |StoreBytes(l[i])| < c.store + |RecordFrame(l[i].recs[|l[i].recs| - 1])|
    ensures i == |l| - 1 ==> Size(l[i].recs) < c.store
  {
    hide MessageSize;
    var s := l[i];
    assert s.recs + [] == s.recs;
    if i < |l| - 1 {
      assert Sealed(c, s);
      assert DropLast(s).recs + [] == DropLast(s).recs;
    }
  }

  /** The rotation rule in bytes: a sealed segment reached the store or the index limit, and without
      its last record was below both; the active one, its refused frames aside, is below both. */
  lemma RotationRule(c: Limits, l: seq<Seg>, i: nat)
    requires LogInv(c, l) && i < |l|
    ensures i < |l| - 1 ==>
              && (|StoreBytes(l[i])| >= c.store || |IndexBytes(l[i])| >= c.index)
              && l[i].recs != []
              && var before := l[i].recs[..|l[i].recs| - 1];
                 |Stream(before)| < c.store && |Entries(before)| < c.index
    ensures i == |l| - 1 ==> |Stream(l[i].recs)| < c.store && |IndexBytes(l[i])| < c.index
  {
    hide LogInv, Stream, Entries, Size;
    InvSegment(c, l, i);
    assert l[i].recs + [] == l[i].recs;
    if i < |l| - 1 {
      assert DropLast(l[i]).recs + [] == DropLast(l[i]).recs;
    }
  }

  /** An append in bytes: it is accepted exactly when the index has room for one more entry, and then
      starts a new segment exactly when store or index reach their limit with it. */
  lemma AppendRule(c: Limits, l: seq<Seg>, r: Record)
    requires Supported(c) && LogInv(c, l) && OffsetsLeft(l)
    ensures Accepts(c, l) <==> |IndexBytes(Active(l))| + 12 <= c.index
    ensures var s, frame := Active(l), RecordFrame(Record(r.value, Next(Active(l)), r.term, r.kind));
            |AfterAppend(c, l, r)| == |l| + 1 <==>
              && Accepts(c, l)
              && (|StoreBytes(s)| + |frame| >= c.store || |IndexBytes(s)| + 12 >= c.index)
    ensures |AfterAppend(c, l, r)| == |l| || |AfterAppend(c, l, r)| == |l| + 1
  {
    hide LogInv, Stream, Entries, MessageSize, RecordFrame;
    var s := Active(l);
    InvSegment(c, l, |l| - 1);
    if Accepts(c, l) {
      var r' := Record(r.value, Next(s), r.term, r.kind);
      assert s.recs + s.junk == s.recs && s.recs + [r'] + s.junk == s.recs + [r'];
      assert (s.recs + [r'])[..|s.recs|] == s.recs;
    }
  }

  /** A log that holds only a beginning of the records of another has room for the next one. */
  lemma PrefixAccepts(c: Limits, m: seq<Seg>, l: seq<Seg>)
    requires LogInv(c, m) && LogInv(c, l)
    requires Base(m) == Base(l) && Records(m) < Records(l)
    ensures Accepts(c, m)
  {
    hide Records, LogInv;
    var i := |m| - 1;
    PrefixAligned(c, m, l, i);
    InvLinked(c, m);
    InvLinked(c, l);
    RecordsSpan(m);
    RecordsSpan(l);
    assert m[i].recs != l[i].recs;
    InvSegment(c, l, i);
  }
}

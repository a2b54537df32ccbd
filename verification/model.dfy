/** Segments and logs as values: what the segment stack means, and the invariant it keeps. */
module LogModel {
  import opened Bytes
  import opened RecordCodec
  import opened Frames

  /** `MaxStoreBytes` and `MaxIndexBytes`. */
  datatype Limits = Limits(store: nat, index: nat)

  const DEFAULT_LIMIT: nat := 1024

  /** `NewLog` replaces a zero limit by its default. */
  function WithDefaults(c: Limits): Limits {
    Limits(if c.store == 0 then DEFAULT_LIMIT else c.store,
           if c.index == 0 then DEFAULT_LIMIT else c.index)
  }

  /** The limits under which every cast in the code is exact: store positions stay far below 2^63,
      and an index numbers its entries in 32 bits. */
  ghost predicate Supported(c: Limits) {
    && 0 < c.store <= TWO63 / 2
    && 0 < c.index <= ENTRY_WIDTH * TWO32
  }

  /** A segment: `recs` are stored and indexed; `junk` was stored by appends that then found the
      index full, and is not indexed. */
  datatype Seg = Seg(base: nat, recs: seq<Record>, junk: seq<Record>)

  function Next(s: Seg): nat {
    s.base + |s.recs|
  }

  function EmptySeg(base: nat): Seg {
    Seg(base, [], [])
  }

  /** The bytes of the store file. */
  function StoreBytes(s: Seg): (b: seq<byte>)
    ensures |b| == Size(s.recs + s.junk)
  {
    Stream(s.recs + s.junk)
  }

  function IndexBytes(s: Seg): (b: seq<byte>)
    ensures |b| == ENTRY_WIDTH * |s.recs|
  {
    Entries(s.recs)
  }

  /** `segment.IsMaxed`. */
  predicate Maxed(c: Limits, s: Seg) {
    Size(s.recs + s.junk) >= c.store || ENTRY_WIDTH * |s.recs| >= c.index
  }

  /** No room for one more index entry. */
  predicate Full(c: Limits, s: Seg) {
    ENTRY_WIDTH * |s.recs| + ENTRY_WIDTH > c.index
  }

  function Stamp(r: Record, off: uint64): Record {
    r.(offset := off)
  }

  // ---------------------------------------------------------------- invariant

  ghost predicate SegOk(c: Limits, s: Seg) {
    && (forall i :: 0 <= i < |s.recs| ==> s.recs[i].offset == s.base + i)
    && ENTRY_WIDTH * |s.recs| <= c.index
    && (s.recs != [] ==> Position(s.recs, |s.recs| - 1) < TWO63)
    && (s.junk != [] ==> Full(c, s))
    && (forall i :: 0 <= i < |s.junk| ==> s.junk[i].offset == Next(s))
  }

  function DropLast(s: Seg): Seg
    requires s.recs != []
  {
    Seg(s.base, s.recs[..|s.recs| - 1], [])
  }

  /** A segment that was rotated out: it crossed a limit on its last record, and not before. */
  ghost predicate Sealed(c: Limits, s: Seg) {
    s.recs != [] && s.junk == [] && Maxed(c, s) && !Maxed(c, DropLast(s))
  }

  /** The segment that takes appends: its records are below both limits. */
  ghost predicate Open(c: Limits, s: Seg) {
    !Maxed(c, s.(junk := []))
  }

  ghost predicate Linked(l: seq<Seg>) {
    forall i {:trigger Next(l[i])} :: 0 <= i < |l| - 1 ==> l[i + 1].base == Next(l[i])
  }

  function Active(l: seq<Seg>): Seg
    requires l != []
  {
    l[|l| - 1]
  }

  function Sealeds(l: seq<Seg>): seq<Seg>
    requires l != []
  {
    l[..|l| - 1]
  }

  ghost predicate LogInv(c: Limits, l: seq<Seg>)
    ensures LogInv(c, l) ==> l != []
  {
    && l != []
    && Linked(l)
    && (forall i :: 0 <= i < |l| ==> SegOk(c, l[i]))
    && (forall i :: 0 <= i < |l| - 1 ==> Sealed(c, l[i]))
    && Open(c, Active(l))
    && Next(Active(l)) < TWO64
  }

  // ---------------------------------------------------------------- the log as a base and records

  function Base(l: seq<Seg>): nat
    requires l != []
  {
    l[0].base
  }

  function Records(l: seq<Seg>): seq<Record> {
    if l == [] then [] else Records(l[..|l| - 1]) + l[|l| - 1].recs
  }

  /** The simple log: the record at `off`, if `off` is live. */
  function Lookup(base: nat, recs: seq<Record>, off: nat): Option<Record> {
    if base <= off < base + |recs| then Some(recs[off - base]) else None
  }

  /** What a log holds at an offset. */
  function ReadAt(l: seq<Seg>, off: nat): Option<Record>
    requires l != []
  {
    Lookup(Base(l), Records(l), off)
  }

  lemma {:induction false} RecordsConcat(a: seq<Seg>, b: seq<Seg>)
    ensures Records(a + b) == Records(a) + Records(b)
  {
    if b == [] {
      assert a + b == a;
    } else {
      var b', s := b[..|b| - 1], b[|b| - 1];
      RecordsConcat(a, b');
      assert (a + b)[..|a + b| - 1] == a + b' && (a + b)[|a + b| - 1] == s;
      assert Records(a) + Records(b') + s.recs == Records(a) + (Records(b') + s.recs);
    }
  }

  lemma RecordsSnoc(l: seq<Seg>, s: Seg)
    ensures Records(l + [s]) == Records(l) + s.recs
  {
    assert (l + [s])[..|l|] == l;
  }

  /** The records fill the interval from the lowest to the next offset. */
  lemma {:induction false} RecordsSpan(l: seq<Seg>)
    requires l != [] && Linked(l)
    ensures Base(l) + |Records(l)| == Next(Active(l))
  {
    if |l| > 1 {
      RecordsSpan(Sealeds(l));
    } else {
      assert Records(l[..0]) == [];
    }
  }

  lemma {:induction false} RecordsAt(l: seq<Seg>, i: nat, off: nat)
    requires Linked(l) && i < |l|
    requires l[i].base <= off < Next(l[i])
    ensures Base(l) <= off < Base(l) + |Records(l)|
    ensures Records(l)[off - Base(l)] == l[i].recs[off - l[i].base]
  {
    if |l| > 1 { RecordsSpan(Sealeds(l)); }
    if i < |l| - 1 { RecordsAt(Sealeds(l), i, off); }
  }

  /** Each live offset lies in exactly one segment's interval. */
  lemma {:induction false} SegmentOf(l: seq<Seg>, off: nat) returns (i: nat)
    requires l != [] && Linked(l)
    requires Base(l) <= off < Next(Active(l))
    ensures i < |l| && l[i].base <= off < Next(l[i])
  {
    if off >= Active(l).base {
      i := |l| - 1;
    } else {
      i := SegmentOf(Sealeds(l), off);
    }
  }

  lemma BasesIncrease(l: seq<Seg>, i: nat, j: nat)
    requires Linked(l) && i < j < |l|
    ensures Next(l[i]) <= l[j].base
    decreases j
  {
    assert l[j].base == Next(l[j - 1]);
    if i < j - 1 { BasesIncrease(l, i, j - 1); }
  }

  /** Every stored record carries its own offset. */
  lemma RecordsStamped(c: Limits, l: seq<Seg>, k: nat)
    requires LogInv(c, l) && k < |Records(l)|
    ensures Records(l)[k].offset == Base(l) + k
  {
    hide Records, Maxed, Stream, Entries;
    RecordsSpan(l);
    var i := SegmentOf(l, Base(l) + k);
    RecordsAt(l, i, Base(l) + k);
    assert SegOk(c, l[i]);
  }

  // ---------------------------------------------------------------- append

  function Fresh(base: nat): seq<Seg> {
    [EmptySeg(base)]
  }

  /** The active segment can index one more record. */
  predicate Accepts(c: Limits, l: seq<Seg>)
    requires l != []
  {
    !Full(c, Active(l))
  }

  /** `Log.Append`: stamp, store, index, and rotate if a limit is reached; when the index is full
      the frame stays behind unindexed. */
  function AfterAppend(c: Limits, l: seq<Seg>, r: Record): seq<Seg>
    requires l != [] && Next(Active(l)) < TWO64
  {
    var s := Active(l);
    var r' := Stamp(r, Next(s));
    if !Accepts(c, l) then Sealeds(l) + [s.(junk := s.junk + [r'])]
    else
      var s' := s.(recs := s.recs + [r']);
      if Maxed(c, s') then Sealeds(l) + [s', EmptySeg(Next(s'))] else Sealeds(l) + [s']
  }

  /** Room for at least one more 64-bit offset after the next append. */
  predicate OffsetsLeft(l: seq<Seg>)
    requires l != []
  {
    Next(Active(l)) < TWO64 - 1
  }

  lemma FreshInv(c: Limits, base: uint64)
    requires Supported(c)
    ensures LogInv(c, Fresh(base))
    ensures Records(Fresh(base)) == []
  {
    var none: seq<Record> := [];
    assert none + none == none;
    assert Records(Fresh(base)[..0]) == [];
  }

  /** The bytes and the invariant of a segment that indexes one more record. */
  lemma IndexOne(c: Limits, s: Seg, r: Record)
    requires Supported(c) && SegOk(c, s) && !Full(c, s)
    requires |StoreBytes(s)| < TWO63 && r.offset == Next(s)
    ensures var s' := s.(recs := s.recs + [r]);
            && SegOk(c, s') && s.junk == [] && |s.recs| < TWO32
            && StoreBytes(s') == StoreBytes(s) + RecordFrame(r)
            && IndexBytes(s') == IndexBytes(s) + Entry(|s.recs|, |StoreBytes(s)|)
  {
    hide Stream, Entries, RecordFrame, Entry;
    var s' := s.(recs := s.recs + [r]);
    assert s.recs + s.junk == s.recs && s'.recs + s'.junk == s'.recs;
    StreamSnoc(s.recs, r);
    EntriesSnoc(s.recs, r);
    assert s'.recs[..|s'.recs| - 1] == s.recs;
  }

  /** The bytes and the invariant of a full segment that stores one more record in vain. */
  lemma JunkOne(c: Limits, s: Seg, r: Record)
    requires SegOk(c, s) && r.offset == Next(s)
    ensures var s' := s.(junk := s.junk + [r]);
            && (Full(c, s) ==> SegOk(c, s')) && (Open(c, s) ==> Open(c, s'))
            && StoreBytes(s') == StoreBytes(s) + RecordFrame(r)
            && IndexBytes(s') == IndexBytes(s)
  {
    hide Stream, Entries, RecordFrame;
    StreamSnoc(s.recs + s.junk, r);
    assert s.recs + s.junk + [r] == s.recs + (s.junk + [r]);
  }

  /** One more record in the active segment: it seals the segment or leaves it open. */
  lemma GrowSegment(c: Limits, s: Seg, r: Record)
    requires Supported(c) && SegOk(c, s) && Open(c, s) && !Full(c, s)
    requires r.offset == Next(s)
    ensures var s' := s.(recs := s.recs + [r]);
            SegOk(c, s') && (if Maxed(c, s') then Sealed(c, s') else Open(c, s'))
  {
    hide StoreBytes, IndexBytes;
    assert s.junk == [] && s == s.(junk := []);
    IndexOne(c, s, r);
    assert DropLast(s.(recs := s.recs + [r])) == s;
  }

  lemma OpenIsShort(c: Limits, s: Seg)
    requires SegOk(c, s) && Open(c, s) && !Full(c, s)
    ensures s.junk == [] && StoreBytes(s) == Stream(s.recs) && |Stream(s.recs)| < c.store
  {
    assert s.recs + [] == s.recs;
  }

  lemma ReplaceActive(c: Limits, l: seq<Seg>, s: Seg)
    requires LogInv(c, l) && s.base == Active(l).base
    requires SegOk(c, s) && Open(c, s) && Next(s) < TWO64
    ensures LogInv(c, Sealeds(l) + [s]) && Base(Sealeds(l) + [s]) == Base(l)
    ensures Records(Sealeds(l) + [s]) == Records(Sealeds(l)) + s.recs
  {
    hide Records, SegOk, Open, Sealed;
    RecordsSnoc(Sealeds(l), s);
  }

  lemma Rotate(c: Limits, l: seq<Seg>, s: Seg)
    requires Supported(c) && LogInv(c, l) && s.base == Active(l).base
    requires SegOk(c, s) && Sealed(c, s) && Next(s) < TWO64
    ensures LogInv(c, Sealeds(l) + [s, EmptySeg(Next(s))])
    ensures Base(Sealeds(l) + [s, EmptySeg(Next(s))]) == Base(l)
    ensures Records(Sealeds(l) + [s, EmptySeg(Next(s))]) == Records(Sealeds(l)) + s.recs
  {
    hide Records, SegOk, Open, Sealed;
    var front := Sealeds(l) + [s];
    FreshInv(c, Next(s));
    assert SegOk(c, Fresh(Next(s))[0]);
    RecordsSnoc(Sealeds(l), s);
    RecordsSnoc(front, EmptySeg(Next(s)));
    assert front + [EmptySeg(Next(s))] == Sealeds(l) + [s, EmptySeg(Next(s))];
  }

  /** Appending keeps the invariant and the lowest offset, and adds exactly the stamped record;
      a refused append changes no record. */
  lemma AppendInv(c: Limits, l: seq<Seg>, r: Record)
    requires Supported(c) && LogInv(c, l) && OffsetsLeft(l)
    ensures LogInv(c, AfterAppend(c, l, r))
    ensures Base(AfterAppend(c, l, r)) == Base(l)
    ensures Records(AfterAppend(c, l, r))
         == Records(l) + if Accepts(c, l) then [Record(r.value, Next(Active(l)), r.term, r.kind)] else []
  {
    hide LogInv, Records, SegOk, Sealed, Open, Full, Maxed;
    var s := Active(l);
    var r' := Stamp(r, Next(s));
    InvSegment(c, l, |l| - 1);
    assert l == Sealeds(l) + [s];
    RecordsSnoc(Sealeds(l), s);
    if Accepts(c, l) {
      var s' := s.(recs := s.recs + [r']);
      GrowSegment(c, s, r');
      if Maxed(c, s') { Rotate(c, l, s'); } else { ReplaceActive(c, l, s'); }
    } else {
      JunkOne(c, s, r');
      ReplaceActive(c, l, s.(junk := s.junk + [r']));
    }
  }

  // ---------------------------------------------------------------- steps of append and read

  /** The active segment after an append: indexed, or left behind unindexed. */
  function Grown(c: Limits, s: Seg, r: Record): Seg
    requires Next(s) < TWO64
  {
    var r' := Stamp(r, Next(s));
    if Full(c, s) then s.(junk := s.junk + [r']) else s.(recs := s.recs + [r'])
  }

  lemma RoomToIndex(c: Limits, l: seq<Seg>)
    requires Supported(c) && LogInv(c, l)
    ensures !Full(c, Active(l)) ==> |StoreBytes(Active(l))| < TWO63
  {
    var s := Active(l);
    assert SegOk(c, s);
    if !Full(c, s) { OpenIsShort(c, s); }
  }

  lemma NotFound(l: seq<Seg>, off: nat)
    requires l != [] && Linked(l)
    requires forall j :: 0 <= j < |l| ==> !(l[j].base <= off < Next(l[j]))
    ensures Lookup(Base(l), Records(l), off) == None
  {
    hide Records;
    RecordsSpan(l);
    if Base(l) <= off < Next(Active(l)) {
      var i := SegmentOf(l, off);
    }
  }

  lemma FoundAt(l: seq<Seg>, i: nat, off: nat)
    requires Linked(l) && i < |l| && l[i].base <= off < Next(l[i])
    ensures Lookup(Base(l), Records(l), off) == Some(l[i].recs[off - l[i].base])
  {
    hide Records;
    RecordsAt(l, i, off);
  }

  /** `HighestOffset`. */
  function Highest(l: seq<Seg>): nat
    requires l != []
  {
    if Next(Active(l)) == 0 then 0 else Next(Active(l)) - 1
  }

  /** Once there is a record, the highest offset is live and none above it is. */
  lemma HighestIsLive(c: Limits, l: seq<Seg>, off: nat)
    requires LogInv(c, l)
    ensures Records(l) != [] ==> ReadAt(l, Highest(l)).Some?
    ensures off > Highest(l) ==> ReadAt(l, off) == None
    ensures Next(Active(l)) == 0 ==> Highest(l) == 0
  {
    hide LogInv, Records;
    InvLinked(c, l);
    RecordsSpan(l);
  }

  lemma NextBound(c: Limits, l: seq<Seg>)
    requires LogInv(c, l)
    ensures Next(Active(l)) < TWO64
  {
  }

  lemma InvLinked(c: Limits, l: seq<Seg>)
    requires LogInv(c, l)
    ensures Linked(l)
  {
  }

  /** What is live: the interval from the lowest to the next offset. */
  lemma LookupLive(c: Limits, l: seq<Seg>, off: nat)
    requires LogInv(c, l)
    ensures Base(l) <= off < Next(Active(l)) ==>
              off - Base(l) < |Records(l)| && ReadAt(l, off) == Some(Records(l)[off - Base(l)])
    ensures !(Base(l) <= off < Next(Active(l))) ==> ReadAt(l, off) == None
  {
    hide LogInv, Records;
    InvLinked(c, l);
    RecordsSpan(l);
  }

  lemma InvSegment(c: Limits, l: seq<Seg>, i: nat)
    requires LogInv(c, l) && i < |l|
    ensures SegOk(c, l[i]) && (if i < |l| - 1 then Sealed(c, l[i]) else Open(c, l[i]))
  {
    hide SegOk, Sealed, Open;
  }
}

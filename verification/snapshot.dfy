/** The snapshot stream and how `fsm.Restore` parses it. */
module Snapshots {
  import opened Bytes
  import opened RecordCodec
  import opened Frames
  import opened LogModel
  import opened Partition
  import opened Replays

  /** How parsing ended: at the end of the stream, inside a length or a body, or on bytes that do
      not decode. */
  datatype Ending = Clean | Torn | Undecodable

  datatype Parsed = Parsed(records: seq<Record>, ending: Ending)

  /** The body of the first frame and what follows it; a length of 2^63 or more copies nothing. */
  function FirstFrame(s: seq<byte>): (r: Option<(seq<byte>, seq<byte>)>)
    ensures r.Some? ==> |r.value.1| <= |s| - LEN_WIDTH
  {
    if |s| < LEN_WIDTH then None
    else
      var len, rest := Get64(s[..LEN_WIDTH]), s[LEN_WIDTH..];
      if len >= TWO63 then Some(([], rest))
      else if |rest| < len then None
      else Some((rest[..len], rest[len..]))
  }

  /** The stream starts with a length field of 2^63 or more, which the signed cast turns negative. */
  predicate HugeLength(s: seq<byte>) {
    |s| >= LEN_WIDTH && Get64(s[..LEN_WIDTH]) >= TWO63
  }

  /** One of the length fields met from frame to frame is that large. */
  predicate HasHugeLength(s: seq<byte>)
    decreases |s|
  {
    FirstFrame(s).Some? && (HugeLength(s) || HasHugeLength(FirstFrame(s).value.1))
  }

  /** The records `Restore` takes from a stream, and how it ends. */
  function Parse(s: seq<byte>): Parsed
    decreases |s|
  {
    if s == [] then Parsed([], Clean)
    else
      match FirstFrame(s)
      case None => Parsed([], Torn)
      case Some((body, rest)) =>
        match Unmarshal(body)
        case None => Parsed([], Undecodable)
        case Some(r) => var p := Parse(rest); Parsed([r] + p.records, p.ending)
  }

  // ---------------------------------------------------------------- what is accepted

  /** A complete frame, or a length field that stands alone. */
  datatype Piece = Body(p: seq<byte>) | Alone(n: uint64)

  /** Pieces that `Restore` takes: a body that decodes, a length of 2^63 or more. */
  predicate Good(x: Piece) {
    match x
    case Body(p) => |p| < TWO63 && Unmarshal(p).Some?
    case Alone(n) => n >= TWO63
  }

  ghost predicate AllGood(xs: seq<Piece>) {
    forall i :: 0 <= i < |xs| ==> Good(xs[i])
  }

  ghost predicate AllFrames(xs: seq<Piece>) {
    forall i :: 0 <= i < |xs| ==> xs[i].Body?
  }

  function PieceBytes(x: Piece): (s: seq<byte>)
    requires Good(x)
    ensures |s| >= LEN_WIDTH
  {
    match x
    case Body(p) => Frame(p)
    case Alone(n) => Put64(n)
  }

  function PieceBody(x: Piece): seq<byte> {
    match x
    case Body(p) => p
    case Alone(_) => []
  }

  function Join(xs: seq<Piece>): seq<byte>
    requires AllGood(xs)
  {
    if xs == [] then [] else PieceBytes(xs[0]) + Join(xs[1..])
  }

  lemma FirstOfFrame(p: seq<byte>, rest: seq<byte>)
    requires |p| < TWO63
    ensures FirstFrame(Frame(p) + rest) == Some((p, rest)) && !HugeLength(Frame(p) + rest)
  {
    var s := Frame(p) + rest;
    assert s[..LEN_WIDTH] == Put64(|p|);
    GetPut64(|p|);
    assert s[LEN_WIDTH..] == p + rest;
  }

  lemma FirstOfAlone(n: uint64, rest: seq<byte>)
    requires n >= TWO63
    ensures FirstFrame(Put64(n) + rest) == Some(([], rest)) && HugeLength(Put64(n) + rest)
  {
    var s := Put64(n) + rest;
    assert s[..LEN_WIDTH] == Put64(n);
    GetPut64(n);
    assert s[LEN_WIDTH..] == rest;
  }

  lemma FirstOfPiece(x: Piece, rest: seq<byte>)
    requires Good(x)
    ensures FirstFrame(PieceBytes(x) + rest) == Some((PieceBody(x), rest))
    ensures HugeLength(PieceBytes(x) + rest) <==> x.Alone?
    ensures Unmarshal(PieceBody(x)).Some?
  {
    hide FirstFrame, HugeLength, Unmarshal, Frame;
    match x
    case Body(p) => FirstOfFrame(p, rest);
    case Alone(n) => FirstOfAlone(n, rest); EmptyMarshal();
  }

  /** The first piece of a stream that `Restore` gets past. */
  lemma PieceOfFirst(s: seq<byte>) returns (x: Piece)
    requires FirstFrame(s).Some? && Unmarshal(FirstFrame(s).value.0).Some?
    ensures Good(x) && PieceBody(x) == FirstFrame(s).value.0
    ensures s == PieceBytes(x) + FirstFrame(s).value.1
  {
    hide Unmarshal;
    var len, rest := Get64(s[..LEN_WIDTH]), s[LEN_WIDTH..];
    if len >= TWO63 {
      x := Alone(len);
      assert s == s[..LEN_WIDTH] + rest;
    } else {
      x := Body(rest[..len]);
      assert s == s[..LEN_WIDTH] + (rest[..len] + rest[len..]);
    }
  }

  lemma {:induction false} JoinParses(xs: seq<Piece>)
    requires AllGood(xs)
    ensures Parse(Join(xs)).ending == Clean && (HasHugeLength(Join(xs)) <==> !AllFrames(xs))
    ensures |Parse(Join(xs)).records| == |xs|
    ensures forall i :: 0 <= i < |xs| ==> Unmarshal(PieceBody(xs[i])) == Some(Parse(Join(xs)).records[i])
  {
    hide FirstFrame, HugeLength, Unmarshal, PieceBytes, PieceBody;
    if xs != [] {
      FirstOfPiece(xs[0], Join(xs[1..]));
      JoinParses(xs[1..]);
      assert AllFrames(xs) <==> xs[0].Body? && AllFrames(xs[1..]);
    } else {
      NothingFirst();
    }
  }

  lemma NothingFirst()
    ensures FirstFrame([]) == None
  {
  }

  lemma {:induction false} ParsedJoins(s: seq<byte>) returns (xs: seq<Piece>)
    requires Parse(s).ending == Clean
    ensures AllGood(xs) && s == Join(xs)
    decreases |s|
  {
    hide FirstFrame, HugeLength, Unmarshal, PieceBytes, Good;
    if s == [] {
      xs := [];
    } else {
      var x := PieceOfFirst(s);
      var others := ParsedJoins(FirstFrame(s).value.1);
      xs := [x] + others;
      assert xs[1..] == others;
    }
  }

  /** Parsing succeeds exactly on a concatenation of complete decodable frames and of length fields
      of 2^63 or more that stand alone. */
  lemma ParseIff(s: seq<byte>)
    ensures Parse(s).ending == Clean <==> exists xs :: AllGood(xs) && s == Join(xs)
  {
    hide Parse, Join, AllGood;
    if Parse(s).ending == Clean {
      var xs := ParsedJoins(s);
    } else {
      forall xs | AllGood(xs) ensures s != Join(xs) {
        JoinParses(xs);
      }
    }
  }

  /** It succeeds on nothing but complete decodable frames exactly if no length field met on the way
      is that large. */
  lemma ParseFramesIff(s: seq<byte>)
    ensures Parse(s).ending == Clean && !HasHugeLength(s)
       <==> exists xs :: AllGood(xs) && AllFrames(xs) && s == Join(xs)
  {
    hide Parse, Join, AllGood, AllFrames, HasHugeLength;
    if Parse(s).ending == Clean && !HasHugeLength(s) {
      var xs := ParsedJoins(s);
      JoinParses(xs);
    } else {
      forall xs | AllGood(xs) && AllFrames(xs) ensures s != Join(xs) {
        JoinParses(xs);
      }
    }
  }

  /** So it accepts more than snapshots: eight bytes that claim 2^63 more are one empty record,
      though they are no complete frame. */
  lemma HugeLengthAccepted()
    ensures var s := Put64(TWO63);
            && Parse(s) == Parsed([EMPTY_RECORD], Clean)
            && !exists xs :: AllGood(xs) && AllFrames(xs) && s == Join(xs)
  {
    hide Unmarshal, Join;
    var s := Put64(TWO63);
    FirstOfAlone(TWO63, []);
    assert s + [] == s;
    EmptyMarshal();
    assert Parse([]) == Parsed([], Clean);
    ParseFramesIff(s);
  }

  /** `k` is the end of one of the pieces, or the very start. */
  predicate Boundary(xs: seq<Piece>, k: nat)
    requires AllGood(xs)
  {
    || k == 0
    || (xs != [] && k >= |PieceBytes(xs[0])| && Boundary(xs[1..], k - |PieceBytes(xs[0])|))
  }

  /** A stream that parses, cut after `k` bytes, still parses exactly if the cut is between pieces;
      inside a length or a body it is an error. */
  lemma {:induction false} CutIff(xs: seq<Piece>, k: nat)
    requires AllGood(xs) && k <= |Join(xs)|
    ensures Parse(Join(xs)[..k]).ending == if Boundary(xs, k) then Clean else Torn
    decreases |xs|
  {
    hide FirstFrame, HugeLength, Unmarshal, PieceBytes, Good;
    if 0 < k {
      var x, rest := xs[0], Join(xs[1..]);
      var s, bytes := Join(xs)[..k], PieceBytes(xs[0]);
      if k < |bytes| {
        assert s == bytes[..k];
        CutPiece(x, k);
      } else {
        var k' := k - |bytes|;
        assert s == bytes + rest[..k'];
        FirstOfPiece(x, rest[..k']);
        CutIff(xs[1..], k');
      }
    }
  }

  lemma CutPiece(x: Piece, k: nat)
    requires Good(x) && k < |PieceBytes(x)|
    ensures FirstFrame(PieceBytes(x)[..k]) == None
  {
    hide Unmarshal;
    var s := PieceBytes(x)[..k];
    if k >= LEN_WIDTH {
      assert s[..LEN_WIDTH] == Put64(|x.p|);
      GetPut64(|x.p|);
    }
  }

  // ---------------------------------------------------------------- snapshots of a log

  lemma {:induction false} StreamParses(rs: seq<Record>)
    ensures Parse(Stream(rs)) == Parsed(rs, Clean)
    decreases |rs|
  {
    hide FirstFrame, HugeLength, Unmarshal, Frame, Stream, Marshal;
    if rs == [] {
      assert Stream(rs) == [] by { EmptyStream(); }
    } else {
      StreamHead(rs);
      MarshalLength(rs[0]);
      assert |Frame(Marshal(rs[0]))| > 0 by { FrameNotEmpty(Marshal(rs[0])); }
      assert RecordFrame(rs[0]) == Frame(Marshal(rs[0]));
      FirstOfFrame(Marshal(rs[0]), Stream(rs[1..]));
      UnmarshalMarshal(rs[0]);
      StreamParses(rs[1..]);
      assert rs == [rs[0]] + rs[1..];
    }
  }

  lemma FrameNotEmpty(p: seq<byte>)
    requires |p| < TWO63
    ensures |Frame(p)| == LEN_WIDTH + |p|
  {
  }

  lemma EmptyStream()
    ensures Stream([]) == []
  {
  }

  /** Every record of the stream, and first of all a refused one, follows on from the lowest offset. */
  lemma FirstOffset(c: Limits, l: seq<Seg>, m: nat, junk: seq<Record>)
    requires LogInv(c, l) && Streamed(l, m, junk)
    ensures var rs := Records(l)[..m] + junk;
            rs != [] ==> rs[0].offset == Base(l)
  {
    hide LogInv, Records;
    if m > 0 {
      RecordsStamped(c, l, 0);
    } else if junk != [] {
      InvLinked(c, l);
      RecordsSpan(l);
      InvSegment(c, l, |l| - 1);
      assert junk[0] == Active(l).junk[0];
    }
  }

  /** A log that left a frame behind still refuses without it. */
  lemma CleanStillFull(c: Limits, l: seq<Seg>)
    requires LogInv(c, l) && Active(l).junk != []
    ensures !Accepts(c, Partition.Clean(l))
  {
    hide LogInv, Entries;
    InvSegment(c, l, |l| - 1);
  }

  /** The stream parses to its records. Appended to a fresh log at the first one's offset under the
      same limits, they are all accepted exactly when no frame of a refused append is among them;
      the segments are then the beginning of the log's, and all of them if all records are there. */
  lemma StreamRestores(c: Limits, l: seq<Seg>, m: nat, junk: seq<Record>)
    requires Supported(c) && LogInv(c, l) && Streamed(l, m, junk)
    requires Base(l) + m + |junk| < TWO64
    ensures LogInv(c, Fresh(Base(l)))
    ensures var rs := Records(l)[..m] + junk;
            && Parse(Stream(rs)) == Parsed(rs, Clean)
            && (rs != [] ==> rs[0].offset == Base(l))
            && (AllAccepted(c, Fresh(Base(l)), rs) <==> junk == [])
            && (junk == [] ==> RestoredAs(c, l, m, Replay(c, Fresh(Base(l)), rs)))
  {
    hide LogInv, Records, Stream, Parse, Replay, AllAccepted, Accepts, Begins;
    var rs := Records(l)[..m] + junk;
    StreamParses(rs);
    FirstOffset(c, l, m, junk);
    ReplayRebuilds(c, l);
    if junk == [] {
      assert rs == Records(l)[..m];
      PrefixRestores(c, l, m);
    } else if AllAccepted(c, Fresh(Base(l)), rs) {
      assert rs[..m + 1] == Records(l) + [junk[0]];
      AllAcceptedTake(c, Fresh(Base(l)), rs, m + 1);
      ReplaySnoc(c, Fresh(Base(l)), Records(l), junk[0]);
      CleanStillFull(c, l);
    }
  }

  /** A log restored from the first `m` records of `l`. */
  ghost predicate RestoredAs(c: Limits, l: seq<Seg>, m: nat, l': seq<Seg>)
    requires l != [] && m <= |Records(l)|
  {
    && LogInv(c, l') && Base(l') == Base(l) && Records(l') == Records(l)[..m] && Begins(l', l)
    && (m == |Records(l)| ==> l' == Partition.Clean(l))
  }

  lemma PrefixRestores(c: Limits, l: seq<Seg>, m: nat)
    requires Supported(c) && LogInv(c, l) && m <= |Records(l)|
    requires Base(l) + |Records(l)| < TWO64 && LogInv(c, Fresh(Base(l)))
    ensures AllAccepted(c, Fresh(Base(l)), Records(l)[..m])
    ensures RestoredAs(c, l, m, Replay(c, Fresh(Base(l)), Records(l)[..m]))
  {
    hide LogInv, Records, Replay, AllAccepted, Begins;
    ReplayPrefix(c, l, m);
    var l' := Replay(c, Fresh(Base(l)), Records(l)[..m]);
    ReplayAdds(c, Fresh(Base(l)), Records(l)[..m]);
    PrefixBegins(c, l', l);
    if m == |Records(l)| {
      assert Records(l)[..m] == Records(l);
      ReplayRebuilds(c, l);
    }
  }
}

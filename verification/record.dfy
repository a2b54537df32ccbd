/** The `Record` message and its protobuf wire format. */
module RecordCodec {
  import opened Bytes

  /** Keeps every message under protobuf's 2 GiB limit. */
  const MAX_VALUE: nat := 0x7fff_ff00
  const MAX_MESSAGE: nat := 0x8000_0000

  type Payload = s: seq<byte> | |s| <= MAX_VALUE

  datatype Record = Record(value: Payload, offset: uint64, term: uint64, kind: uint32)

  const EMPTY_RECORD := Record([], 0, 0, 0)

  // ---------------------------------------------------------------- varints

  function VarintSize(n: nat): (k: nat)
    ensures 0 < k
  {
    if n < 128 then 1 else 1 + VarintSize(n / 128)
  }

  function Varint(n: nat): (s: seq<byte>)
    ensures |s| == VarintSize(n)
  {
    if n < 128 then [n] else [128 + n % 128] + Varint(n / 128)
  }

  /** One past the largest value that bytes `k..10` of a varint can hold. */
  function VarintLimit(k: nat): (limit: nat)
    requires k <= 9
    ensures limit >= 2
    ensures k < 9 ==> limit >= 256
    decreases 9 - k
  {
    if k == 9 then 2 else 128 * VarintLimit(k + 1)
  }

  /** Value and length of the varint at the head of `s`, of which `k` bytes are already read. */
  function ReadVarint(s: seq<byte>, k: nat): (r: Option<(nat, nat)>)
    requires k <= 9
    ensures r.Some? ==> r.value.0 < VarintLimit(k) && 0 < r.value.1 <= |s|
    decreases 9 - k
  {
    if s == [] then None
    else if k == 9 then (if s[0] < 2 then Some((s[0], 1)) else None)
    else if s[0] < 128 then Some((s[0], 1))
    else
      match ReadVarint(s[1..], k + 1)
      case None => None
      case Some((v, n)) => Some((s[0] - 128 + 128 * v, n + 1))
  }

  lemma VarintLimits()
    ensures VarintLimit(0) == TWO64
  {
    assert VarintLimit(7) == 0x8000;
    assert VarintLimit(5) == 0x2000_0000;
    assert VarintLimit(3) == 0x800_0000_0000;
    assert VarintLimit(1) == 0x200_0000_0000_0000;
  }

  lemma {:induction false} VarintReads(n: nat, k: nat, rest: seq<byte>)
    requires k <= 9 && n < VarintLimit(k)
    ensures ReadVarint(Varint(n) + rest, k) == Some((n, |Varint(n)|))
    decreases 9 - k
  {
    var s := Varint(n) + rest;
    if n >= 128 {
      VarintReads(n / 128, k + 1, rest);
      assert s[1..] == Varint(n / 128) + rest;
    }
  }

  lemma {:induction false} VarintSizeBound(n: nat, k: nat)
    requires k <= 9 && n < VarintLimit(k)
    ensures VarintSize(n) <= 10 - k
    decreases 9 - k
  {
    if n >= 128 { VarintSizeBound(n / 128, k + 1); }
  }

  lemma {:induction false} VarintSizeMonotone(m: nat, n: nat)
    requires m <= n
    ensures VarintSize(m) <= VarintSize(n)
    decreases m
  {
    if m >= 128 { VarintSizeMonotone(m / 128, n / 128); }
  }

  // ---------------------------------------------------------------- messages

  const TAG_VALUE: byte := 0x0A
  const TAG_OFFSET: byte := 0x10
  const TAG_TERM: byte := 0x18
  const TAG_KIND: byte := 0x20

  /** A length-delimited field, left out when empty. */
  function BytesField(tag: byte, v: seq<byte>): seq<byte> {
    if v == [] then [] else [tag] + Varint(|v|) + v
  }

  /** An integer field, left out when zero. */
  function VarintField(tag: byte, n: nat): seq<byte> {
    if n == 0 then [] else [tag] + Varint(n)
  }

  function BytesFieldSize(n: nat): nat {
    if n == 0 then 0 else 1 + VarintSize(n) + n
  }

  function VarintFieldSize(n: nat): nat {
    if n == 0 then 0 else 1 + VarintSize(n)
  }

  /** The length of a marshalled record. */
  function MessageSize(r: Record): nat {
    BytesFieldSize(|r.value|) + VarintFieldSize(r.offset) + VarintFieldSize(r.term) + VarintFieldSize(r.kind)
  }

  /** `proto.Marshal`: fields in number order, zero values omitted. */
  function Marshal(r: Record): (m: seq<byte>)
    ensures |m| == MessageSize(r)
  {
    BytesField(TAG_VALUE, r.value) + (VarintField(TAG_OFFSET, r.offset)
      + (VarintField(TAG_TERM, r.term) + VarintField(TAG_KIND, r.kind)))
  }

  /** The bytes of the length-delimited field at the head of `s`, and what follows it. */
  function ReadBytes(s: seq<byte>): (r: Option<(seq<byte>, seq<byte>)>)
    ensures r.Some? ==> |r.value.1| < |s|
  {
    match ReadVarint(s, 0)
    case None => None
    case Some((len, n)) =>
      if len > |s| - n then None else Some((s[n..n + len], s[n + len..]))
  }

  /** One field of a record: merges it into `acc` and returns the rest of the input. */
  function ReadField(s: seq<byte>, acc: Record): (r: Option<(Record, seq<byte>)>)
    ensures r.Some? ==> |r.value.1| < |s|
  {
    match ReadVarint(s, 0)
    case None => None
    case Some((tag, n)) =>
      var body := s[n..];
      if tag == TAG_VALUE then
        match ReadBytes(body)
        case None => None
        case Some((v, rest)) =>
          if |v| > MAX_VALUE then None else Some((acc.(value := v), rest))
      else
        match ReadVarint(body, 0)
        case None => None
        case Some((v, m)) =>
          VarintLimits();
          if tag == TAG_OFFSET then Some((acc.(offset := v), body[m..]))
          else if tag == TAG_TERM then Some((acc.(term := v), body[m..]))
          else if tag == TAG_KIND then Some((acc.(kind := v % TWO32), body[m..]))
          else None
  }

  /** `proto.Unmarshal` into `acc`: fields in any order, the last one of a kind wins. */
  function Merge(s: seq<byte>, acc: Record): Option<Record>
    decreases |s|
  {
    if s == [] then Some(acc)
    else
      match ReadField(s, acc)
      case None => None
      case Some((acc', rest)) => Merge(rest, acc')
  }

  function Unmarshal(s: seq<byte>): Option<Record> {
    Merge(s, EMPTY_RECORD)
  }

  lemma ReadTag(tag: byte, rest: seq<byte>)
    requires tag < 128
    ensures ReadVarint([tag] + rest, 0) == Some((tag, 1))
    ensures ([tag] + rest)[1..] == rest
  {
  }

  lemma BytesFieldReads(v: seq<byte>, rest: seq<byte>)
    requires |v| < TWO64
    ensures ReadBytes(Varint(|v|) + v + rest) == Some((v, rest))
  {
    hide Varint, ReadVarint;
    var s, n := Varint(|v|) + v + rest, |Varint(|v|)|;
    assert s == Varint(|v|) + (v + rest);
    VarintLimits();
    VarintReads(|v|, 0, v + rest);
    assert s[n..n + |v|] == v && s[n + |v|..] == rest;
  }

  /** The field `tag` of `acc` becomes `n`. */
  function SetField(tag: byte, n: uint64, acc: Record): Record {
    if tag == TAG_OFFSET then acc.(offset := n)
    else if tag == TAG_TERM then acc.(term := n)
    else acc.(kind := n % TWO32)
  }

  /** Decoding a marshalled record gives the record back. */
  lemma UnmarshalMarshal(r: Record)
    ensures Unmarshal(Marshal(r)) == Some(r)
  {
    hide Marshal, Merge;
    MergeMessage(r, [], EMPTY_RECORD);
    assert Marshal(r) + [] == Marshal(r);
    MergeNothing(r);
  }

  /** The wire format: each tag is field number times 8 plus wire type (2 for bytes, 0 for varints), and
      fields that fit one byte stand behind theirs in number order. */
  lemma MarshalLayout(r: Record)
    requires 0 < |r.value| < 128 && 0 < r.offset < 128 && 0 < r.term < 128 && 0 < r.kind < 128
    ensures Marshal(r) == [1 * 8 + 2, |r.value|] + r.value
                          + [2 * 8 + 0, r.offset, 3 * 8 + 0, r.term, 4 * 8 + 0, r.kind]
  {
    assert Varint(|r.value|) == [|r.value|];
  }

  /** Zero values are left out. */
  lemma EmptyMarshal()
    ensures Marshal(EMPTY_RECORD) == [] && Unmarshal([]) == Some(EMPTY_RECORD)
  {
  }

  /** Numbers take seven bits a byte, the lowest first, all but the last marked by the top bit. */
  lemma VarintLayout(n: nat)
    requires 128 <= n < 128 * 128
    ensures Varint(n) == [n % 128 + 128, n / 128]
  {
  }

  /** A type that does not fit 32 bits is cut to them. */
  lemma KindIsCut(n: uint64)
    requires n > 0
    ensures Unmarshal([4 * 8 + 0] + Varint(n)) == Some(Record([], 0, 0, n % TWO32))
  {
    hide Merge;
    MergeVarintField(TAG_KIND, n, [], EMPTY_RECORD);
    assert VarintField(TAG_KIND, n) + [] == [4 * 8 + 0] + Varint(n);
    MergeNothing(SetField(TAG_KIND, n, EMPTY_RECORD));
  }

  /** Two messages one after the other decode as one: a field of the second replaces the first's. */
  lemma LastFieldWins(r: Record, s: Record)
    ensures Unmarshal(Marshal(r) + Marshal(s)) ==
            Some(Record(if s.value == [] then r.value else s.value,
                        if s.offset == 0 then r.offset else s.offset,
                        if s.term == 0 then r.term else s.term,
                        if s.kind == 0 then r.kind else s.kind))
  {
    hide Marshal, Merge;
    MergeMessage(r, Marshal(s), EMPTY_RECORD);
    MergeMessage(s, [], r);
    assert Marshal(s) + [] == Marshal(s);
    assert Merge([], Overlaid(r, s)) == Some(Overlaid(r, s)) by { MergeNothing(Overlaid(r, s)); }
  }

  lemma MergeNothing(acc: Record)
    ensures Merge([], acc) == Some(acc)
  {
  }

  function Overlaid(acc: Record, r: Record): Record {
    Record(if r.value == [] then acc.value else r.value, if r.offset == 0 then acc.offset else r.offset,
           if r.term == 0 then acc.term else r.term, if r.kind == 0 then acc.kind else r.kind)
  }

  lemma MergeMessage(r: Record, rest: seq<byte>, acc: Record)
    ensures Merge(Marshal(r) + rest, acc) == Merge(rest, Overlaid(acc, r))
  {
    var value, offset := BytesField(TAG_VALUE, r.value), VarintField(TAG_OFFSET, r.offset);
    var term, kind := VarintField(TAG_TERM, r.term), VarintField(TAG_KIND, r.kind);
    var a := if r.value == [] then acc else acc.(value := r.value);
    var b := if r.offset == 0 then a else a.(offset := r.offset);
    var c := if r.term == 0 then b else b.(term := r.term);
    hide Merge, BytesField, VarintField;
    assert Marshal(r) + rest == value + (offset + (term + (kind + rest)));
    MergeBytesField(r.value, offset + (term + (kind + rest)), acc);
    MergeVarintField(TAG_OFFSET, r.offset, term + (kind + rest), a);
    MergeVarintField(TAG_TERM, r.term, kind + rest, b);
    MergeVarintField(TAG_KIND, r.kind, rest, c);
  }

  lemma MergeBytesField(v: Payload, rest: seq<byte>, acc: Record)
    ensures Merge(BytesField(TAG_VALUE, v) + rest, acc)
         == Merge(rest, if v == [] then acc else acc.(value := v))
  {
    if v == [] {
      assert BytesField(TAG_VALUE, v) + rest == rest;
    } else {
      var body := Varint(|v|) + v + rest;
      ReadTag(TAG_VALUE, body);
      BytesFieldReads(v, rest);
      assert BytesField(TAG_VALUE, v) + rest == [TAG_VALUE] + body;
    }
  }

  lemma MergeVarintField(tag: byte, n: uint64, rest: seq<byte>, acc: Record)
    requires tag in {TAG_OFFSET, TAG_TERM, TAG_KIND}
    ensures Merge(VarintField(tag, n) + rest, acc) == Merge(rest, if n == 0 then acc else SetField(tag, n, acc))
  {
    if n == 0 {
      assert VarintField(tag, n) + rest == rest;
    } else {
      var body := Varint(n) + rest;
      ReadTag(tag, body);
      VarintLimits();
      VarintReads(n, 0, rest);
      assert VarintField(tag, n) + rest == [tag] + body;
      assert body[|Varint(n)|..] == rest;
    }
  }

  lemma MarshalLength(r: Record)
    ensures |Marshal(r)| < MAX_MESSAGE
  {
    VarintLimits();
    VarintSizeBound(|r.value|, 0);
    VarintSizeBound(r.offset, 0);
    VarintSizeBound(r.term, 0);
    VarintSizeBound(r.kind, 0);
  }
}

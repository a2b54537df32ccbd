/** Bytes, the big-endian integers of `encoding/binary`, and the byte-wise key order. */
module Bytes {

  type byte = b: int | 0 <= b < 256

  const TWO32: int := 0x1_0000_0000
  const TWO63: int := 0x8000_0000_0000_0000
  const TWO64: int := 0x1_0000_0000_0000_0000

  type uint32 = n: nat | n < TWO32
  type uint64 = n: nat | n < TWO64

  /** 64-bit unsigned wrap-around. */
  function Wrap64(n: int): uint64 {
    n % TWO64
  }

  datatype Option<+T> = None | Some(value: T)

  // ---------------------------------------------------------------- big endian

  function Pow256(w: nat): (p: nat)
    ensures p > 0
  {
    if w == 0 then 1 else 256 * Pow256(w - 1)
  }

  /** The low `w` bytes of `n`, most significant first. */
  function BigEndian(n: nat, w: nat): (s: seq<byte>)
    ensures |s| == w
    decreases w, n
  {
    if w == 0 then [] else BigEndian(n / 256, w - 1) + [n % 256]
  }

  function FromBigEndian(s: seq<byte>): nat {
    if s == [] then 0 else 256 * FromBigEndian(s[..|s| - 1]) + s[|s| - 1]
  }

  lemma PowWidths()
    ensures Pow256(4) == TWO32
    ensures Pow256(8) == TWO64
  {
    assert Pow256(2) == 0x1_0000;
    assert Pow256(4) == TWO32;
    assert Pow256(6) == 0x1_0000_0000_0000;
  }

  lemma {:induction false} BigEndianDecodes(n: nat, w: nat)
    requires n < Pow256(w)
    ensures FromBigEndian(BigEndian(n, w)) == n
    decreases w
  {
    if w > 0 {
      BigEndianDecodes(n / 256, w - 1);
      assert BigEndian(n, w)[..w - 1] == BigEndian(n / 256, w - 1);
    }
  }

  lemma {:induction false} BigEndianEncodes(s: seq<byte>)
    ensures FromBigEndian(s) < Pow256(|s|)
    ensures BigEndian(FromBigEndian(s), |s|) == s
  {
    if s != [] {
      BigEndianEncodes(s[..|s| - 1]);
      assert FromBigEndian(s) / 256 == FromBigEndian(s[..|s| - 1]);
    }
  }

  function Put32(n: uint32): (s: seq<byte>)
    ensures |s| == 4
  {
    BigEndian(n, 4)
  }

  function Put64(n: uint64): (s: seq<byte>)
    ensures |s| == 8
  {
    BigEndian(n, 8)
  }

  /** `PutUint32` and `Uint32` are mutually inverse. */
  function Get32(s: seq<byte>): (n: uint32)
    requires |s| == 4
    ensures Put32(n) == s
  {
    PowWidths();
    BigEndianEncodes(s);
    FromBigEndian(s)
  }

  /** `PutUint64` and `Uint64` are mutually inverse. */
  function Get64(s: seq<byte>): (n: uint64)
    requires |s| == 8
    ensures Put64(n) == s
  {
    PowWidths();
    BigEndianEncodes(s);
    FromBigEndian(s)
  }

  lemma GetPut32(n: uint32)
    ensures Get32(Put32(n)) == n
  {
    PowWidths();
    BigEndianDecodes(n, 4);
  }

  lemma GetPut64(n: uint64)
    ensures Get64(Put64(n)) == n
  {
    PowWidths();
    BigEndianDecodes(n, 8);
  }

  /** The bytes themselves, most significant first. */
  lemma Put32Layout(n: uint32)
    ensures Put32(n) == [n / 0x100_0000, n / 0x1_0000 % 256, n / 0x100 % 256, n % 256]
  {
    var a, b, c := n / 0x100, n / 0x1_0000, n / 0x100_0000;
    assert a / 256 == b && b / 256 == c;
    assert BigEndian(c, 1) == [c];
    assert BigEndian(b, 2) == BigEndian(c, 1) + [b % 256];
    assert BigEndian(a, 3) == BigEndian(b, 2) + [a % 256];
  }

  lemma Put64Layout(n: uint64)
    ensures Put64(n) == [n / 0x100_0000_0000_0000, n / 0x1_0000_0000_0000 % 256,
                         n / 0x100_0000_0000 % 256, n / 0x1_0000_0000 % 256,
                         n / 0x100_0000 % 256, n / 0x1_0000 % 256, n / 0x100 % 256, n % 256]
  {
    var a, b, c, d := n / 0x100, n / 0x1_0000, n / 0x100_0000, n / 0x1_0000_0000;
    var e, f, g := n / 0x100_0000_0000, n / 0x1_0000_0000_0000, n / 0x100_0000_0000_0000;
    assert a / 256 == b && b / 256 == c && c / 256 == d;
    assert d / 256 == e && e / 256 == f && f / 256 == g;
    assert BigEndian(g, 1) == [g];
    assert BigEndian(f, 2) == BigEndian(g, 1) + [f % 256];
    assert BigEndian(e, 3) == BigEndian(f, 2) + [e % 256];
    assert BigEndian(d, 4) == BigEndian(e, 3) + [d % 256];
    assert BigEndian(c, 5) == BigEndian(d, 4) + [c % 256];
    assert BigEndian(b, 6) == BigEndian(c, 5) + [b % 256];
    assert BigEndian(a, 7) == BigEndian(b, 6) + [a % 256];
  }

  // ---------------------------------------------------------------- byte-wise order

  /** `bytes.Compare(a, b) < 0`. */
  predicate LexLess(a: seq<byte>, b: seq<byte>) {
    if b == [] then false
    else if a == [] then true
    else if a[0] != b[0] then a[0] < b[0]
    else LexLess(a[1..], b[1..])
  }

  lemma {:induction false} LexTotal(a: seq<byte>, b: seq<byte>)
    ensures a == b <==> !LexLess(a, b) && !LexLess(b, a)
    ensures !(LexLess(a, b) && LexLess(b, a))
  {
    if a != [] && b != [] && a[0] == b[0] {
      LexTotal(a[1..], b[1..]);
      assert a == [a[0]] + a[1..] && b == [b[0]] + b[1..];
    }
  }

  lemma {:induction false} LexTransitive(a: seq<byte>, b: seq<byte>, c: seq<byte>)
    requires LexLess(a, b) && LexLess(b, c)
    ensures LexLess(a, c)
  {
    if a != [] && a[0] == b[0] == c[0] {
      LexTransitive(a[1..], b[1..], c[1..]);
    }
  }

  /** Comparing two equally long keys last byte last. */
  lemma {:induction false} LexSnoc(a: seq<byte>, b: seq<byte>, x: byte, y: byte)
    requires |a| == |b|
    ensures LexLess(a + [x], b + [y]) <==> LexLess(a, b) || (a == b && x < y)
  {
    if a != [] {
      LexSnoc(a[1..], b[1..], x, y);
      assert (a + [x])[1..] == a[1..] + [x] && (b + [y])[1..] == b[1..] + [y];
      assert a == [a[0]] + a[1..] && b == [b[0]] + b[1..];
    }
  }

  /** Big-endian encoding is an order isomorphism onto byte-wise order. */
  lemma {:induction false} BigEndianOrder(m: nat, n: nat, w: nat)
    requires m < Pow256(w) && n < Pow256(w)
    ensures m < n <==> LexLess(BigEndian(m, w), BigEndian(n, w))
    decreases w
  {
    if w > 0 {
      BigEndianOrder(m / 256, n / 256, w - 1);
      LexSnoc(BigEndian(m / 256, w - 1), BigEndian(n / 256, w - 1), m % 256, n % 256);
      BigEndianDecodes(m / 256, w - 1);
      BigEndianDecodes(n / 256, w - 1);
    }
  }

  lemma Put64Order(m: uint64, n: uint64)
    ensures m < n <==> LexLess(Put64(m), Put64(n))
    ensures Put64(m) == Put64(n) ==> m == n
  {
    PowWidths();
    BigEndianOrder(m, n, 8);
    GetPut64(m);
    GetPut64(n);
  }
}

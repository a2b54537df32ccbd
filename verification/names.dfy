/** File names, the directory listing and its sort: how `Log.setup` finds the base offsets. */
module Names {
  import opened Bytes

  // ---------------------------------------------------------------- decimal numbers

  function Digit(d: nat): char
    requires d < 10
  {
    '0' + d as char
  }

  /** `fmt.Sprintf("%d", n)`. */
  function Decimal(n: nat): (s: string)
    ensures s != []
  {
    if n < 10 then [Digit(n)] else Decimal(n / 10) + [Digit(n % 10)]
  }

  /** `strconv.ParseUint(s, 10, 64)` with its error dropped: 0 on a bad digit, the largest value
      on overflow. `n` is the value of the digits already read. */
  function ParseFrom(s: string, n: uint64): uint64 {
    if s == [] then n
    else if !('0' <= s[0] <= '9') then 0
    else
      var n' := 10 * n + (s[0] - '0') as int;
      if n' >= TWO64 then TWO64 - 1 else ParseFrom(s[1..], n')
  }

  lemma {:induction false} ParseDecimal(n: uint64, rest: string)
    ensures ParseFrom(Decimal(n) + rest, 0) == ParseFrom(rest, n)
    decreases n
  {
    var s := Decimal(n) + rest;
    if n < 10 {
      assert s[1..] == rest;
    } else {
      var tail := [Digit(n % 10)] + rest;
      ParseDecimal(n / 10, tail);
      assert s == Decimal(n / 10) + tail;
      assert tail[1..] == rest;
    }
  }

  // ---------------------------------------------------------------- names

  /** `path.Ext` of a name without slashes: from the last dot on. */
  function Ext(name: string): (e: string)
    ensures |e| <= |name|
  {
    if name == [] then []
    else
      var c := name[|name| - 1];
      if c == '.' then [c]
      else
        var e := Ext(name[..|name| - 1]);
        if e == [] then [] else e + [c]
  }

  lemma {:induction false} ExtAfterDot(stem: string, t: string)
    requires '.' !in t
    ensures Ext(stem + ['.'] + t) == ['.'] + t
  {
    var name := stem + ['.'] + t;
    if t == [] {
      assert name[|name| - 1] == '.';
    } else {
      ExtAfterDot(stem, t[..|t| - 1]);
      assert name[..|name| - 1] == stem + ['.'] + t[..|t| - 1];
      assert name[|name| - 1] == t[|t| - 1] && t[|t| - 1] in t;
    }
  }

  /** The base offset `setup` reads off a file name. */
  function BaseOf(name: string): uint64 {
    ParseFrom(name[..|name| - |Ext(name)|], 0)
  }

  function StoreName(base: nat): string {
    Decimal(base) + ['.'] + "store"
  }

  function IndexName(base: nat): string {
    Decimal(base) + ['.'] + "index"
  }

  /** The name round trip, and that no two files of a log share a name. */
  lemma NamesParse(base: uint64)
    ensures BaseOf(StoreName(base)) == BaseOf(IndexName(base)) == base
  {
    var d := Decimal(base);
    ParseDecimal(base, []);
    ExtAfterDot(d, "store");
    ExtAfterDot(d, "index");
    assert d + [] == d;
    assert StoreName(base)[..|d|] == IndexName(base)[..|d|] == d;
  }

  /** How they look. */
  lemma NamesExample()
    ensures StoreName(1024) == "1024.store" && IndexName(1024) == "1024.index" && StoreName(0) == "0.store"
  {
    assert Decimal(1) == "1" && Decimal(10) == "10" && Decimal(102) == "102" && Decimal(1024) == "1024";
    assert Decimal(0) == "0";
  }

  lemma NamesDiffer(a: uint64, b: uint64)
    ensures StoreName(a) != IndexName(b)
    ensures StoreName(a) == StoreName(b) || IndexName(a) == IndexName(b) ==> a == b
  {
    NamesParse(a);
    NamesParse(b);
    ExtAfterDot(Decimal(a), "store");
    ExtAfterDot(Decimal(b), "index");
  }

  // ---------------------------------------------------------------- sorting

  ghost predicate Sorted(s: seq<nat>) {
    forall i, j :: 0 <= i < j < |s| ==> s[i] <= s[j]
  }

  function Insert(x: nat, s: seq<nat>): (t: seq<nat>)
    ensures multiset(t) == multiset(s) + multiset{x}
  {
    if s == [] || x <= s[0] then [x] + s
    else
      assert s == [s[0]] + s[1..];
      [s[0]] + Insert(x, s[1..])
  }

  lemma SortedCons(x: nat, s: seq<nat>)
    requires Sorted(s) && forall y :: y in multiset(s) ==> x <= y
    ensures Sorted([x] + s)
  {
    forall i | 0 <= i < |s| ensures x <= s[i] {
      assert s[i] in multiset(s);
    }
  }

  lemma {:induction false} InsertSorts(x: nat, s: seq<nat>)
    requires Sorted(s)
    ensures Sorted(Insert(x, s))
  {
    if s != [] && x > s[0] {
      InsertSorts(x, s[1..]);
      SortedCons(s[0], Insert(x, s[1..]));
    }
  }

  /** `slices.Sort`. */
  function Sort(s: seq<nat>): (t: seq<nat>)
    ensures Sorted(t) && multiset(t) == multiset(s)
  {
    if s == [] then []
    else
      var t := Sort(s[1..]);
      InsertSorts(s[0], t);
      assert s == [s[0]] + s[1..];
      Insert(s[0], t)
  }

  lemma MultisetTail<T>(s: seq<T>)
    requires s != []
    ensures multiset(s[1..]) == multiset(s) - multiset{s[0]}
  {
    assert s == [s[0]] + s[1..];
  }

  lemma SortedHead(s: seq<nat>, x: nat)
    requires Sorted(s) && x in multiset(s)
    ensures s != [] && s[0] <= x
  {
    var i :| 0 <= i < |s| && s[i] == x;
  }

  lemma SortedTail(s: seq<nat>)
    requires Sorted(s) && s != []
    ensures Sorted(s[1..])
  {
  }

  lemma SortedSameHead(s: seq<nat>, t: seq<nat>)
    requires Sorted(s) && Sorted(t) && multiset(s) == multiset(t) && s != []
    ensures t != [] && s[0] == t[0]
  {
    assert s[0] in multiset(t);
    SortedHead(t, s[0]);
    assert t[0] in multiset(s);
    SortedHead(s, t[0]);
  }

  lemma {:induction false} SortedUnique(s: seq<nat>, t: seq<nat>)
    requires Sorted(s) && Sorted(t) && multiset(s) == multiset(t)
    ensures s == t
  {
    hide Sorted;
    if s == [] {
      assert |t| == |multiset(t)| == |multiset(s)|;
    } else {
      SortedSameHead(s, t);
      MultisetTail(s);
      MultisetTail(t);
      SortedTail(s);
      SortedTail(t);
      SortedUnique(s[1..], t[1..]);
      forall i | 0 <= i < |s| ensures i < |t| && s[i] == t[i] {
        if i > 0 { assert s[i] == s[1..][i - 1]; }
      }
    }
  }

  // ---------------------------------------------------------------- the listing

  /** The base offsets read off a listing, in listing order. */
  function Bases(names: seq<string>): seq<nat> {
    if names == [] then [] else Bases(names[..|names| - 1]) + [BaseOf(names[|names| - 1])]
  }

  /** The two files of each segment. */
  function FileNames(bases: seq<nat>): seq<string> {
    if bases == [] then []
    else
      var b := bases[|bases| - 1];
      FileNames(bases[..|bases| - 1]) + [StoreName(b), IndexName(b)]
  }

  /** Each base twice. */
  function Doubled(bases: seq<nat>): (d: seq<nat>)
    ensures |d| == 2 * |bases|
    ensures forall i :: 0 <= i < |bases| ==> d[2 * i] == d[2 * i + 1] == bases[i]
    ensures forall x :: x in d ==> x in bases
  {
    if bases == [] then [] else Doubled(bases[..|bases| - 1]) + [bases[|bases| - 1], bases[|bases| - 1]]
  }

  ghost predicate Increasing(s: seq<nat>) {
    forall i, j :: 0 <= i < j < |s| ==> s[i] < s[j]
  }

  lemma {:induction false} BasesConcat(a: seq<string>, b: seq<string>)
    ensures Bases(a + b) == Bases(a) + Bases(b)
  {
    hide BaseOf;
    if b == [] {
      assert a + b == a;
    } else {
      BasesConcat(a, b[..|b| - 1]);
      assert (a + b)[..|a + b| - 1] == a + b[..|b| - 1];
    }
  }

  lemma BasesAround(a: seq<string>, x: string, b: seq<string>)
    ensures multiset(Bases(a + [x] + b)) == multiset(Bases(a + b)) + multiset{BaseOf(x)}
  {
    hide BaseOf;
    BasesConcat(a + [x], b);
    BasesConcat(a, [x]);
    BasesConcat(a, b);
    assert Bases([x]) == Bases([]) + [BaseOf(x)];
  }

  lemma SplitAt(b: seq<string>, x: string) returns (j: nat)
    requires x in multiset(b)
    ensures j < |b| && b == b[..j] + [x] + b[j + 1..]
    ensures multiset(b[..j] + b[j + 1..]) == multiset(b) - multiset{x}
  {
    j :| 0 <= j < |b| && b[j] == x;
    assert b == b[..j] + [x] + b[j + 1..];
  }

  lemma MultisetFront(a: seq<string>)
    requires a != []
    ensures a[|a| - 1] in multiset(a)
    ensures multiset(a[..|a| - 1]) == multiset(a) - multiset{a[|a| - 1]}
  {
    assert a == a[..|a| - 1] + [a[|a| - 1]];
  }

  /** The order of the listing does not matter. */
  lemma {:induction false} BasesOfListing(a: seq<string>, b: seq<string>)
    requires multiset(a) == multiset(b)
    ensures multiset(Bases(a)) == multiset(Bases(b))
  {
    hide BaseOf;
    if a == [] {
      assert |b| == |multiset(b)| == |multiset(a)|;
    } else {
      var front, x := a[..|a| - 1], a[|a| - 1];
      MultisetFront(a);
      var j := SplitAt(b, x);
      BasesOfListing(front, b[..j] + b[j + 1..]);
      BasesAround(b[..j], x, b[j + 1..]);
    }
  }

  lemma {:induction false} BasesOfFiles(bases: seq<nat>)
    requires forall i :: 0 <= i < |bases| ==> bases[i] < TWO64
    ensures Bases(FileNames(bases)) == Doubled(bases)
  {
    hide BaseOf, StoreName, IndexName;
    if bases != [] {
      var front, b := bases[..|bases| - 1], bases[|bases| - 1];
      BasesOfFiles(front);
      NamesParse(b);
      var two := [StoreName(b), IndexName(b)];
      BasesConcat(FileNames(front), two);
      assert two[..1] == [StoreName(b)] && two[..1][..0] == [];
      assert Bases(two[..1]) == [b];
    }
  }

  lemma {:induction false} DoubledSorted(bases: seq<nat>)
    requires Increasing(bases)
    ensures Sorted(Doubled(bases))
  {
    if bases != [] {
      DoubledSorted(bases[..|bases| - 1]);
    }
  }

  /** Whatever order the directory lists its files in, parsing and sorting the names gives every
      base offset twice, in increasing order: taking every other one gives the segments. */
  lemma ListingSorts(names: seq<string>, bases: seq<nat>)
    requires multiset(names) == multiset(FileNames(bases))
    requires Increasing(bases) && forall i :: 0 <= i < |bases| ==> bases[i] < TWO64
    ensures Sort(Bases(names)) == Doubled(bases)
  {
    BasesOfListing(names, FileNames(bases));
    BasesOfFiles(bases);
    DoubledSorted(bases);
    SortedUnique(Sort(Bases(names)), Doubled(bases));
  }
}

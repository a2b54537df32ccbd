/** The directory of a log: which files it holds, and how the segments are found in it again. */
module LogFiles {
  import opened Bytes
  import opened RecordCodec
  import opened LogModel
  import opened Names
  import opened Directories

  function BasesOf(l: seq<Seg>): (b: seq<nat>)
    ensures |b| == |l|
    ensures forall i :: 0 <= i < |l| ==> b[i] == l[i].base
  {
    seq(|l|, i requires 0 <= i < |l| => l[i].base)
  }

  /** The names of the files of a log: two for every segment. */
  ghost function NamesOf(l: seq<Seg>): set<string> {
    set n | n in FileNames(BasesOf(l))
  }

  /** The directory holds every segment's two files, and nothing else. */
  ghost predicate Holds(files: map<string, seq<byte>>, l: seq<Seg>) {
    && files.Keys == NamesOf(l)
    && forall i :: 0 <= i < |l| ==>
         && Content(files, StoreName(l[i].base)) == StoreBytes(l[i])
         && Content(files, IndexName(l[i].base)) == IndexBytes(l[i])
  }

  lemma NamesOfSnoc(l: seq<Seg>, s: Seg)
    ensures NamesOf(l + [s]) == NamesOf(l) + {StoreName(s.base), IndexName(s.base)}
  {
    hide StoreName, IndexName;
    assert BasesOf(l + [s])[..|l|] == BasesOf(l);
  }

  lemma NoNames()
    ensures NamesOf([]) == {}
  {
    assert BasesOf([]) == [];
  }

  lemma {:induction false} NameInFiles(bases: seq<nat>, name: string) returns (i: nat)
    requires name in FileNames(bases)
    ensures i < |bases| && name in {StoreName(bases[i]), IndexName(bases[i])}
  {
    hide StoreName, IndexName;
    if name in {StoreName(bases[|bases| - 1]), IndexName(bases[|bases| - 1])} {
      i := |bases| - 1;
    } else {
      i := NameInFiles(bases[..|bases| - 1], name);
    }
  }

  /** A base that differs from all of `bases` has new names. */
  lemma NamesAreNew(bases: seq<nat>, b: uint64)
    requires forall i :: 0 <= i < |bases| ==> bases[i] < TWO64 && bases[i] != b
    ensures StoreName(b) !in FileNames(bases) && IndexName(b) !in FileNames(bases)
  {
    hide StoreName, IndexName, FileNames;
    forall name | name in {StoreName(b), IndexName(b)} ensures name !in FileNames(bases) {
      if name in FileNames(bases) {
        var i := NameInFiles(bases, name);
        NamesDiffer(b, bases[i]);
        NamesDiffer(bases[i], b);
      }
    }
  }

  lemma TwoMore(names: seq<string>, x: string, y: string)
    requires multiset(names) == multiset(set n | n in names)
    requires x !in names && y !in names && x != y
    ensures multiset(names + [x, y]) == multiset(set n | n in names + [x, y])
  {
    var all := set n | n in names;
    assert (set n | n in names + [x, y]) == all + {x, y};
    assert multiset(all + {x, y}) == multiset(all) + multiset{x, y};
  }

  /** A listing of the directory is a listing of the segments' files. */
  lemma {:induction false} ListingOf(bases: seq<nat>)
    requires Increasing(bases) && forall i :: 0 <= i < |bases| ==> bases[i] < TWO64
    ensures multiset(FileNames(bases)) == multiset(set n | n in FileNames(bases))
  {
    hide StoreName, IndexName;
    if bases != [] {
      var front, b := bases[..|bases| - 1], bases[|bases| - 1];
      ListingOf(front);
      NamesAreNew(front, b);
      NamesDiffer(b, b);
      TwoMore(FileNames(front), StoreName(b), IndexName(b));
    }
  }

  lemma BasesOfInv(c: Limits, l: seq<Seg>)
    requires LogInv(c, l)
    ensures Increasing(BasesOf(l)) && forall i :: 0 <= i < |l| ==> BasesOf(l)[i] < TWO64
  {
    hide SegOk, Open, Maxed;
    forall i, j | 0 <= i < j < |l| ensures l[i].base < l[j].base {
      BasesIncrease(l, i, j);
      assert Sealed(c, l[i]);
    }
  }

  lemma NamesPresent(l: seq<Seg>, k: nat)
    requires k < |l|
    ensures StoreName(l[k].base) in NamesOf(l) && IndexName(l[k].base) in NamesOf(l)
  {
    hide StoreName, IndexName;
    NamesOfSnoc(l[..|l| - 1], l[|l| - 1]);
    assert l == l[..|l| - 1] + [l[|l| - 1]];
    if k < |l| - 1 { NamesPresent(l[..|l| - 1], k); }
  }

  lemma EmptyBytes(base: nat)
    ensures StoreBytes(EmptySeg(base)) == [] && IndexBytes(EmptySeg(base)) == []
  {
    var none: seq<Record> := [];
    assert none + none == none;
  }

  lemma NextFits(c: Limits, l: seq<Seg>, k: nat)
    requires LogInv(c, l) && k < |l|
    ensures Next(l[k]) < TWO64 && SegOk(c, l[k])
  {
    hide SegOk, Sealed, Open;
    if k < |l| - 1 { BasesIncrease(l, k, |l| - 1); }
  }

  lemma SetupFindsBases(c: Limits, names: seq<string>, l: seq<Seg>)
    requires l != [] ==> LogInv(c, l)
    requires multiset(names) == multiset(NamesOf(l))
    ensures Sort(Bases(names)) == Doubled(BasesOf(l))
  {
    hide LogInv, Sort, Bases, FileNames;
    var bases := BasesOf(l);
    if l != [] { BasesOfInv(c, l); }
    ListingOf(bases);
    ListingSorts(names, bases);
  }

  /** No file is named after an offset above the segments' bases. */
  lemma NameIsNew(c: Limits, l: seq<Seg>, off: uint64)
    requires LogInv(c, l) && Next(Active(l)) < off
    ensures StoreName(off) !in NamesOf(l) && IndexName(off) !in NamesOf(l)
  {
    hide SegOk, Sealed, Open, StoreName, IndexName, FileNames;
    forall i | 0 <= i < |l| ensures l[i].base < off {
      if i < |l| - 1 { BasesIncrease(l, i, |l| - 1); }
    }
    BasesOfInv(c, l);
    NamesAreNew(BasesOf(l), off);
  }

  /** An append in its two steps: grow the active segment, then rotate if that one is maxed. */
  lemma AppendSteps(c: Limits, l: seq<Seg>, r: Record)
    requires LogInv(c, l)
    ensures var l1, s' := Sealeds(l) + [Grown(c, Active(l), r)], Grown(c, Active(l), r);
            && AfterAppend(c, l, r)
               == l1 + (if Accepts(c, l) && Maxed(c, s') then [EmptySeg(Next(s'))] else [])
            && NamesOf(l1) == NamesOf(l)
            && (Accepts(c, l) ==> Next(s') == Next(Active(l)) + 1)
  {
    hide Maxed, Full, SegOk, Sealed, Open, StoreName, IndexName;
    var s' := Grown(c, Active(l), r);
    NamesOfSnoc(Sealeds(l), s');
    NamesOfSnoc(Sealeds(l), Active(l));
    assert Sealeds(l) + [Active(l)] == l;
    assert Sealeds(l) + [s', EmptySeg(Next(s'))] == Sealeds(l) + [s'] + [EmptySeg(Next(s'))];
  }

  /** Parses the names the directory lists and sorts the base offsets. */
  method SortedBases(dir: Directory, ghost c: Limits, ghost l: seq<Seg>) returns (offs: seq<nat>)
    requires Holds(dir.files, l) && (l != [] ==> LogInv(c, l))
    ensures offs == Doubled(BasesOf(l))
  {
    hide LogInv, BaseOf, NamesOf, StoreBytes, IndexBytes, Doubled;
    var names := dir.List();
    offs := [];
    for i := 0 to |names|
      invariant offs == Bases(names[..i])
    {
      assert names[..i + 1][..i] == names[..i];
      offs := offs + [BaseOf(names[i])];
    }
    assert names[..|names|] == names;
    offs := Sort(offs);
    SetupFindsBases(c, names, l);
  }

  // ---------------------------------------------------------------- closing and removing

  /** The first `k` segments have left their bytes in the directory. */
  ghost predicate HoldsUpTo(files: map<string, seq<byte>>, l: seq<Seg>, k: nat)
    requires k <= |l|
  {
    forall i :: 0 <= i < k ==>
      && Content(files, StoreName(l[i].base)) == StoreBytes(l[i])
      && Content(files, IndexName(l[i].base)) == IndexBytes(l[i])
  }

  /** Closing one more segment disturbs none of the files already written. */
  lemma CloseOne(c: Limits, l: seq<Seg>, k: nat, files: map<string, seq<byte>>)
    requires LogInv(c, l) && k < |l|
    requires files.Keys == NamesOf(l) && HoldsUpTo(files, l, k)
    ensures var files' := files[IndexName(l[k].base) := IndexBytes(l[k])]
                               [StoreName(l[k].base) := StoreBytes(l[k])];
            files'.Keys == NamesOf(l) && HoldsUpTo(files', l, k + 1)
  {
    hide LogInv, NamesOf, StoreName, IndexName, StoreBytes, IndexBytes;
    BasesOfInv(c, l);
    NamesPresent(l, k);
    NamesDiffer(l[k].base, l[k].base);
    forall i | 0 <= i < k
      ensures StoreName(l[i].base) !in {StoreName(l[k].base), IndexName(l[k].base)}
      ensures IndexName(l[i].base) !in {StoreName(l[k].base), IndexName(l[k].base)}
    {
      assert BasesOf(l)[i] < BasesOf(l)[k];
      NamesDiffer(l[i].base, l[k].base);
      NamesDiffer(l[k].base, l[i].base);
    }
  }

  lemma {:induction false} NamesOfConcat(a: seq<Seg>, b: seq<Seg>)
    ensures NamesOf(a + b) == NamesOf(a) + NamesOf(b)
  {
    hide NamesOf;
    if b == [] {
      NoNames();
      assert a + b == a;
    } else {
      var b', s := b[..|b| - 1], b[|b| - 1];
      NamesOfConcat(a, b');
      NamesOfSnoc(a + b', s);
      NamesOfSnoc(b', s);
      assert a + b == a + b' + [s] && b == b' + [s];
    }
  }

  /** Removing the first segment's two files leaves the files of the others. */
  lemma RemoveOne(c: Limits, l: seq<Seg>, k: nat)
    requires LogInv(c, l) && k < |l|
    ensures NamesOf(l[k..]) - {IndexName(l[k].base), StoreName(l[k].base)} == NamesOf(l[k + 1..])
  {
    hide LogInv, StoreName, IndexName, FileNames;
    var s, rest := l[k], l[k + 1..];
    BasesOfInv(c, l);
    forall i | 0 <= i < |rest| ensures rest[i].base < TWO64 && rest[i].base != s.base {
      assert BasesOf(l)[k] < BasesOf(l)[k + 1 + i] < TWO64;
    }
    NamesAreNew(BasesOf(rest), s.base);
    NamesOfSnoc([], s);
    NoNames();
    NamesOfConcat([s], rest);
    assert [s] + rest == l[k..] && [] + [s] == [s];
  }
}

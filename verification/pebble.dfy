/** The Raft store on an ordered key-value database (`internal/raftpebble/store.go`). */
module Pebble {
  import opened Bytes
  import opened RaftEntries

  type Key = seq<byte>

  const PREFIX_LOG: Key := [0]
  const PREFIX_CONF: Key := [1]

  function LogKey(index: uint64): Key {
    PREFIX_LOG + Put64(index)
  }

  function ConfKey(key: Key): Key {
    PREFIX_CONF + key
  }

  /** `lower <= k < upper` in key order. */
  predicate InRange(k: Key, lower: Key, upper: Key) {
    !LexLess(k, lower) && LexLess(k, upper)
  }

  /** The log prefix holds every log key and no configuration key, not even the empty one. */
  lemma PrefixesApart(index: uint64, key: Key)
    ensures InRange(LogKey(index), PREFIX_LOG, PREFIX_CONF)
    ensures !InRange(ConfKey(key), PREFIX_LOG, PREFIX_CONF)
    ensures LogKey(index) != ConfKey(key)
  {
    assert ConfKey(key)[1..] == key && ConfKey(key)[0] == 1;
    assert LogKey(index)[0] == 0 && LogKey(index)[1..] == Put64(index);
    assert PREFIX_LOG[1..] == [] && PREFIX_CONF[1..] == [];
    assert !LexLess(key, []);
  }

  lemma LogKeyOrder(i: uint64, j: uint64)
    ensures LexLess(LogKey(i), LogKey(j)) <==> i < j
    ensures LogKey(i) == LogKey(j) ==> i == j
  {
    assert LogKey(i)[1..] == Put64(i) && LogKey(j)[1..] == Put64(j);
    Put64Order(i, j);
  }

  lemma ConfKeyInjective(a: Key, b: Key)
    ensures ConfKey(a) == ConfKey(b) ==> a == b
  {
    assert ConfKey(a)[1..] == a && ConfKey(b)[1..] == b;
  }

  /** `DeleteRange(min, max)` asks for the keys from `min` up to `max+1`, which wraps to 0. */
  predicate DeletedKey(min: uint64, max: uint64, k: Key) {
    InRange(k, LogKey(min), LogKey(Wrap64(max + 1)))
  }

  /** Below the largest index that is exactly the inclusive range; at the largest it is nothing. It
      never touches a configuration key. */
  lemma DeletedExactly(min: uint64, max: uint64, i: uint64, key: Key)
    ensures DeletedKey(min, max, LogKey(i)) <==> max < TWO64 - 1 && min <= i <= max
    ensures !DeletedKey(min, max, ConfKey(key))
  {
    var upper := Wrap64(max + 1);
    LogKeyOrder(i, min);
    LogKeyOrder(i, upper);
    assert ConfKey(key)[0] == 1 && LogKey(upper)[0] == 0;
  }

  /** The inclusive range is what gets deleted exactly when `max` is not the largest index. */
  lemma DeleteRangeMeetsItsName(min: uint64, max: uint64)
    ensures (forall i: uint64 :: DeletedKey(min, max, LogKey(i)) <==> min <= i <= max)
       <==> max < TWO64 - 1
  {
    forall i: uint64 ensures DeletedKey(min, max, LogKey(i)) <==> max < TWO64 - 1 && min <= i <= max {
      DeletedExactly(min, max, i, []);
    }
    assert DeletedKey(min, max, LogKey(max)) <==> max < TWO64 - 1 && min <= max;
  }

  /** The entries `StoreLogs` leaves: later ones replace earlier ones of the same index. */
  function Overlay(logs: map<uint64, Entry>, es: seq<Entry>): map<uint64, Entry> {
    if es == [] then logs
    else Overlay(logs, es[..|es| - 1])[es[|es| - 1].index := es[|es| - 1]]
  }

  /** Entry by entry: the last one of an index wins, the others stay. */
  lemma {:induction false} OverlayIs(logs: map<uint64, Entry>, es: seq<Entry>, i: uint64)
    ensures i in Overlay(logs, es) <==> i in logs || exists k :: 0 <= k < |es| && es[k].index == i
    ensures forall k :: 0 <= k < |es| && es[k].index == i && (forall j :: k < j < |es| ==> es[j].index != i) ==>
              i in Overlay(logs, es) && Overlay(logs, es)[i] == es[k]
    ensures i in logs && (forall k :: 0 <= k < |es| ==> es[k].index != i) ==>
              i in Overlay(logs, es) && Overlay(logs, es)[i] == logs[i]
  {
    if es != [] {
      var n := |es| - 1;
      OverlayIs(logs, es[..n], i);
      assert forall k :: 0 <= k < n ==> es[..n][k] == es[k];
      assert es[n].index == i ==> i in Overlay(logs, es);
    }
  }

  function Without(logs: map<uint64, Entry>, min: uint64, max: uint64): (r: map<uint64, Entry>)
    ensures forall i :: i in r <==> i in logs && !(max < TWO64 - 1 && min <= i <= max)
    ensures forall i :: i in r ==> r[i] == logs[i]
  {
    if max == TWO64 - 1 then logs
    else map i | i in logs && !(min <= i <= max) :: logs[i]
  }

  datatype Uint64Result = Value(n: uint64) | KeyNotFound | Panic

  /** The database is two independent maps: entries under the log prefix, settings under the other. */
  ghost predicate Represents(db: map<Key, seq<byte>>, logs: map<uint64, Entry>, conf: map<Key, seq<byte>>) {
    && (forall i :: i in logs ==> LogKey(i) in db && db[LogKey(i)] == EncodeEntry(logs[i]) && logs[i].index == i)
    && (forall k :: k in conf ==> ConfKey(k) in db && db[ConfKey(k)] == conf[k])
    && (forall x :: x in db ==> IsLog(logs, x) || IsConf(conf, x))
  }

  ghost predicate IsLog(logs: map<uint64, Entry>, x: Key) {
    exists i :: i in logs && x == LogKey(i)
  }

  ghost predicate IsConf(conf: map<Key, seq<byte>>, x: Key) {
    exists k :: k in conf && x == ConfKey(k)
  }

  /** A key under the log prefix is the key of a stored entry. */
  lemma LogKeyOf(db: map<Key, seq<byte>>, logs: map<uint64, Entry>, conf: map<Key, seq<byte>>, x: Key)
    returns (i: uint64)
    requires Represents(db, logs, conf) && x in db && InRange(x, PREFIX_LOG, PREFIX_CONF)
    ensures i in logs && x == LogKey(i) && |x| == 9 && Get64(x[1..]) == i
  {
    hide LexLess, EncodeEntry;
    if IsConf(conf, x) {
      var k :| k in conf && x == ConfKey(k);
      PrefixesApart(0, k);
    }
    i :| i in logs && x == LogKey(i);
    assert x[1..] == Put64(i);
    GetPut64(i);
  }

  lemma ConfOnly(db: map<Key, seq<byte>>, logs: map<uint64, Entry>, conf: map<Key, seq<byte>>, key: Key)
    requires Represents(db, logs, conf) && ConfKey(key) in db
    ensures key in conf
  {
    hide LexLess, EncodeEntry, LogKey, ConfKey;
    if IsLog(logs, ConfKey(key)) {
      var i :| i in logs && ConfKey(key) == LogKey(i);
      PrefixesApart(i, key);
    }
    var k :| k in conf && ConfKey(key) == ConfKey(k);
    ConfKeyInjective(key, k);
  }

  lemma StoreKeeps(db: map<Key, seq<byte>>, logs: map<uint64, Entry>, conf: map<Key, seq<byte>>, e: Entry)
    requires Represents(db, logs, conf)
    ensures Represents(db[LogKey(e.index) := EncodeEntry(e)], logs[e.index := e], conf)
  {
    hide LexLess, EncodeEntry, LogKey, ConfKey;
    var db', logs' := db[LogKey(e.index) := EncodeEntry(e)], logs[e.index := e];
    forall i: uint64 | i in logs && i != e.index ensures LogKey(i) != LogKey(e.index) {
      LogKeyOrder(i, e.index);
    }
    forall k | k in conf ensures ConfKey(k) != LogKey(e.index) {
      PrefixesApart(e.index, k);
    }
    forall x | x in db' ensures IsLog(logs', x) || IsConf(conf, x) {
      if x == LogKey(e.index) {
        assert e.index in logs';
      } else if IsLog(logs, x) {
        var i :| i in logs && x == LogKey(i);
        assert i in logs';
      }
    }
  }

  lemma SetKeeps(db: map<Key, seq<byte>>, logs: map<uint64, Entry>, conf: map<Key, seq<byte>>, key: Key, val: seq<byte>)
    requires Represents(db, logs, conf)
    ensures Represents(db[ConfKey(key) := val], logs, conf[key := val])
  {
    hide LexLess, EncodeEntry, LogKey, ConfKey;
    var db', conf' := db[ConfKey(key) := val], conf[key := val];
    forall i | i in logs ensures LogKey(i) != ConfKey(key) {
      PrefixesApart(i, key);
    }
    forall k: Key | k in conf && k != key ensures ConfKey(k) != ConfKey(key) {
      ConfKeyInjective(k, key);
    }
    forall x | x in db' ensures IsLog(logs, x) || IsConf(conf', x) {
      if x == ConfKey(key) {
        assert key in conf';
      } else if IsConf(conf, x) {
        var k :| k in conf && x == ConfKey(k);
        assert k in conf';
      }
    }
  }

  lemma DeleteKeeps(db: map<Key, seq<byte>>, logs: map<uint64, Entry>, conf: map<Key, seq<byte>>,
                    min: uint64, max: uint64)
    requires Represents(db, logs, conf)
    ensures Represents(map k | k in db && !DeletedKey(min, max, k) :: db[k], Without(logs, min, max), conf)
  {
    hide LexLess, EncodeEntry, LogKey, ConfKey, DeletedKey, Without;
    var db', logs' := map k | k in db && !DeletedKey(min, max, k) :: db[k], Without(logs, min, max);
    forall i: uint64 ensures DeletedKey(min, max, LogKey(i)) <==> max < TWO64 - 1 && min <= i <= max {
      DeletedExactly(min, max, i, []);
    }
    forall k: Key ensures !DeletedKey(min, max, ConfKey(k)) {
      DeletedExactly(min, max, 0, k);
    }
    forall x | x in db' ensures IsLog(logs', x) || IsConf(conf, x) {
      if IsLog(logs, x) {
        var i :| i in logs && x == LogKey(i);
        assert i in logs';
      }
    }
  }

  class Store {
    var db: map<Key, seq<byte>>
    ghost var logs: map<uint64, Entry>
    ghost var conf: map<Key, seq<byte>>

    ghost predicate Valid()
      reads this
    {
      Represents(db, logs, conf)
    }

    constructor ()
      ensures Valid() && logs == map[] && conf == map[]
    {
      db, logs, conf := map[], map[], map[];
    }

    /** The iterator's first key within the bounds. */
    method SeekFirst(lower: Key, upper: Key) returns (r: Option<Key>)
      ensures r.None? ==> forall k :: k in db ==> !InRange(k, lower, upper)
      ensures r.Some? ==> r.value in db && InRange(r.value, lower, upper)
      ensures r.Some? ==> forall k :: k in db && InRange(k, lower, upper) ==> !LexLess(k, r.value)
    {
      hide LexLess;
      r := None;
      var rest := db.Keys;
      while rest != {}
        invariant rest <= db.Keys
        invariant r.None? ==> forall k :: k in db.Keys - rest ==> !InRange(k, lower, upper)
        invariant r.Some? ==> r.value in db && InRange(r.value, lower, upper)
        invariant r.Some? ==> forall k :: k in db.Keys - rest && InRange(k, lower, upper) ==> !LexLess(k, r.value)
        decreases |rest|
      {
        var k :| k in rest;
        rest := rest - {k};
        if InRange(k, lower, upper) && (r.None? || LexLess(k, r.value)) {
          forall x | x in db.Keys - rest && InRange(x, lower, upper) ensures !LexLess(x, k) {
            LexTotal(k, k);
            if r.Some? && x != k && LexLess(x, k) { LexTransitive(x, k, r.value); }
          }
          r := Some(k);
        }
      }
    }

    /** The iterator's last key within the bounds. */
    method SeekLast(lower: Key, upper: Key) returns (r: Option<Key>)
      ensures r.None? ==> forall k :: k in db ==> !InRange(k, lower, upper)
      ensures r.Some? ==> r.value in db && InRange(r.value, lower, upper)
      ensures r.Some? ==> forall k :: k in db && InRange(k, lower, upper) ==> !LexLess(r.value, k)
    {
      hide LexLess;
      r := None;
      var rest := db.Keys;
      while rest != {}
        invariant rest <= db.Keys
        invariant r.None? ==> forall k :: k in db.Keys - rest ==> !InRange(k, lower, upper)
        invariant r.Some? ==> r.value in db && InRange(r.value, lower, upper)
        invariant r.Some? ==> forall k :: k in db.Keys - rest && InRange(k, lower, upper) ==> !LexLess(r.value, k)
        decreases |rest|
      {
        var k :| k in rest;
        rest := rest - {k};
        if InRange(k, lower, upper) && (r.None? || LexLess(r.value, k)) {
          forall x | x in db.Keys - rest && InRange(x, lower, upper) ensures !LexLess(k, x) {
            LexTotal(k, k);
            if r.Some? && x != k && LexLess(k, x) { LexTransitive(r.value, k, x); }
          }
          r := Some(k);
        }
      }
    }

    /** The smallest stored index, or 0. */
    method FirstIndex() returns (first: uint64)
      requires Valid()
      ensures logs == map[] ==> first == 0
      ensures logs != map[] ==> first in logs && forall i :: i in logs ==> first <= i
    {
      hide LexLess, EncodeEntry, LogKey;
      forall i | i in logs ensures LogKey(i) in db && InRange(LogKey(i), PREFIX_LOG, PREFIX_CONF) {
        PrefixesApart(i, []);
      }
      var key := SeekFirst(PREFIX_LOG, PREFIX_CONF);
      first := 0;
      if key.Some? {
        ghost var i := LogKeyOf(db, logs, conf, key.value);
        first := Get64(key.value[|PREFIX_LOG|..]);
        forall j | j in logs ensures first <= j {
          LogKeyOrder(j, i);
        }
      }
    }

    /** The largest stored index, or 0. */
    method LastIndex() returns (last: uint64)
      requires Valid()
      ensures logs == map[] ==> last == 0
      ensures logs != map[] ==> last in logs && forall i :: i in logs ==> i <= last
    {
      hide LexLess, EncodeEntry, LogKey;
      forall i | i in logs ensures LogKey(i) in db && InRange(LogKey(i), PREFIX_LOG, PREFIX_CONF) {
        PrefixesApart(i, []);
      }
      var key := SeekLast(PREFIX_LOG, PREFIX_CONF);
      last := 0;
      if key.Some? {
        ghost var i := LogKeyOf(db, logs, conf, key.value);
        last := Get64(key.value[|PREFIX_LOG|..]);
        forall j | j in logs ensures j <= last {
          LogKeyOrder(i, j);
        }
      }
    }

    /** The entry stored under `index`; none is `ErrLogNotFound`. */
    method GetLog(index: uint64) returns (r: Option<Entry>)
      requires Valid()
      ensures r == if index in logs then Some(logs[index]) else None
    {
      hide LexLess, EncodeEntry, LogKey, DecodeEntry;
      var key := LogKey(index);
      if key !in db {
        return None;
      }
      PrefixesApart(index, []);
      ghost var i := LogKeyOf(db, logs, conf, key);
      LogKeyOrder(index, i);
      EntryRoundTrip(logs[index]);
      r := DecodeEntry(db[key]);
    }

    method StoreLog(e: Entry)
      requires Valid()
      modifies this
      ensures Valid() && logs == old(logs)[e.index := e] && conf == old(conf)
    {
      hide Represents;
      StoreKeeps(db, logs, conf, e);
      db, logs := db[LogKey(e.index) := EncodeEntry(e)], logs[e.index := e];
    }

    /** Stores the entries in order, in one batch. */
    method StoreLogs(es: seq<Entry>)
      requires Valid()
      modifies this
      ensures Valid() && logs == Overlay(old(logs), es) && conf == old(conf)
    {
      hide Store.Valid;
      var i := 0;
      while i < |es|
        invariant 0 <= i <= |es| && Valid() && conf == old(conf)
        invariant logs == Overlay(old(logs), es[..i])
      {
        StoreLog(es[i]);
        assert es[..i + 1][..i] == es[..i];
        i := i + 1;
      }
      assert es[..|es|] == es;
    }

    /** Deletes a range of keys: exactly the inclusive range of indexes, except that nothing is
        deleted when `max` is the largest index. */
    method DeleteRange(min: uint64, max: uint64)
      requires Valid()
      modifies this
      ensures Valid() && logs == Without(old(logs), min, max) && conf == old(conf)
    {
      hide Represents;
      DeleteKeeps(db, logs, conf, min, max);
      db, logs := map k | k in db && !DeletedKey(min, max, k) :: db[k], Without(logs, min, max);
    }

    method Set(key: Key, val: seq<byte>)
      requires Valid()
      modifies this
      ensures Valid() && conf == old(conf)[key := val] && logs == old(logs)
    {
      hide Represents;
      SetKeeps(db, logs, conf, key, val);
      db, conf := db[ConfKey(key) := val], conf[key := val];
    }

    /** The value set under `key`; none is `ErrKeyNotFound`. */
    method Get(key: Key) returns (r: Option<seq<byte>>)
      requires Valid()
      ensures r == if key in conf then Some(conf[key]) else None
    {
      hide LexLess, EncodeEntry, LogKey, ConfKey;
      var k := ConfKey(key);
      if k !in db {
        return None;
      }
      ConfOnly(db, logs, conf, key);
      r := Some(db[k]);
    }

    method SetUint64(key: Key, n: uint64)
      requires Valid()
      modifies this
      ensures Valid() && conf == old(conf)[key := Put64(n)] && logs == old(logs)
    {
      Set(key, Put64(n));
    }

    /** The number under `key`: the first eight bytes of its value, which must have as many. */
    method GetUint64(key: Key) returns (r: Uint64Result)
      requires Valid()
      ensures key !in conf ==> r == KeyNotFound
      ensures key in conf && |conf[key]| < 8 ==> r == Panic
      ensures key in conf && |conf[key]| >= 8 ==> r.Value? && Put64(r.n) == conf[key][..8]
      ensures forall n: uint64 :: key in conf && conf[key] == Put64(n) ==> r == Value(n)
    {
      hide Store.Valid;
      var val := Get(key);
      if val.None? {
        return KeyNotFound;
      }
      if |val.value| < 8 {
        return Panic;
      }
      forall n: uint64 | val.value == Put64(n) ensures Get64(val.value[..8]) == n {
        assert val.value[..8] == Put64(n);
        GetPut64(n);
      }
      return Value(Get64(val.value[..8]));
    }
  }
}

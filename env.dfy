/**
 * The process environment table: an ordered list of (key, value) byte-string
 * entries and a `sizeHint` counter giving the bytes needed to serialise the
 * table as `key=value\0` records for a child process.  Values are stored as C
 * strings, so a value is cut at its first NUL byte.
 */
module Env {
  import opened Types

  const EQ: u8 := 0x3D   // '='
  const NUL: u8 := 0

  datatype Entry = Entry(key: Bytes, value: Bytes)

  /** A span of the serialised buffer: `len` bytes from offset `start`. */
  datatype Slice = Slice(start: nat, len: nat)

  /** The bytes of `v` before its first NUL: what a C string built from `v`
    * holds. */
  function UntilNul(v: Bytes): (r: Bytes)
    ensures r <= v
    ensures NUL !in r
    ensures |r| < |v| ==> v[|r|] == NUL
  {
    if v == [] || v[0] == NUL then [] else [v[0]] + UntilNul(v[1..])
  }

  /** An `=`-separated raw entry, split at its first `=`; without one, the
    * whole entry is the key and the value is empty. */
  function SplitAtEq(s: Bytes): (r: (Bytes, Bytes))
    ensures EQ in s ==> s == r.0 + [EQ] + r.1 && EQ !in r.0
    ensures EQ !in s ==> r.0 == s && r.1 == []
  {
    if s == [] then ([], [])
    else if s[0] == EQ then ([], s[1..])
    else
      var (k, v) := SplitAtEq(s[1..]);
      assert s == [s[0]] + s[1..];
      ([s[0]] + k, v)
  }

  /** Position of the first entry with key `key`. */
  function IndexOfKey(env: seq<Entry>, key: Bytes): (r: Option<nat>)
    ensures r.Some? ==> r.value < |env| && env[r.value].key == key
    ensures r.Some? ==> forall j :: 0 <= j < r.value ==> env[j].key != key
    ensures r.None? ==> forall j :: 0 <= j < |env| ==> env[j].key != key
  {
    if env == [] then None
    else if env[0].key == key then Some(0)
    else match IndexOfKey(env[1..], key)
      case None => None
      case Some(i) => Some(i + 1)
  }

  /** The value a lookup of `key` yields: that of the first entry with that key. */
  function Lookup(env: seq<Entry>, key: Bytes): (r: Option<Bytes>)
    ensures r.None? <==> forall j :: 0 <= j < |env| ==> env[j].key != key
    ensures r.Some? ==> Entry(key, r.value) in env
  {
    match IndexOfKey(env, key)
    case None => None
    case Some(i) => Some(env[i].value)
  }

  /** No two entries share a key. */
  ghost predicate UniqueKeys(env: seq<Entry>)
  {
    forall i, j :: 0 <= i < j < |env| ==> env[i].key != env[j].key
  }

  /** `Vec::swap_remove`: entry `i` is removed and the last entry takes its place. */
  function SwapRemove(s: seq<Entry>, i: nat): (r: seq<Entry>)
    requires i < |s|
    ensures |r| == |s| - 1
    ensures i < |r| ==> r[i] == s[|s| - 1]
    ensures forall j :: 0 <= j < |r| && j != i ==> r[j] == s[j]
    ensures multiset(r) == multiset(s) - multiset{s[i]}
    ensures forall j :: 0 <= j < |s| && j != i ==> s[j] in r
  {
    var last := |s| - 1;
    if i == last then
      DropLast(s);
      s[..last]
    else
      MoveLast(s, i);
      s[..last][i := s[last]]
  }

  /** Removing the last entry keeps every other entry and takes one copy of it out of the multiset. */
  lemma DropLast(s: seq<Entry>)
    requires |s| > 0
    ensures var r := s[..|s| - 1];
      && multiset(r) == multiset(s) - multiset{s[|s| - 1]}
      && forall j :: 0 <= j < |s| - 1 ==> s[j] in r
  {
    var last := |s| - 1;
    assert s == s[..last] + [s[last]];
    assert forall j :: 0 <= j < last ==> s[..last][j] in s[..last];
  }

  /** Moving the last entry into slot i keeps every entry but the one at i. */
  lemma MoveLast(s: seq<Entry>, i: nat)
    requires i < |s| - 1
    ensures var r := s[..|s| - 1][i := s[|s| - 1]];
      && multiset(r) == multiset(s) - multiset{s[i]}
      && forall j :: 0 <= j < |s| && j != i ==> s[j] in r
  {
    var last := |s| - 1;
    var init := s[..last];
    var r := init[i := s[last]];
    assert multiset(s) == multiset(init) + multiset{s[last]} by {
      assert s == init + [s[last]];
    }
    assert init[i] == s[i];
    assert multiset(r) == multiset(init) - multiset{s[i]} + multiset{s[last]};
    forall j | 0 <= j < |s| && j != i
      ensures s[j] in r
    {
      if j == last {
        assert r[i] == s[j];
      } else {
        assert r[j] == s[j];
      }
    }
  }

  /** The table after setting `key`: the first entry with that key gets the new
    * value in place, or a new entry is appended. */
  function SetEntry(env: seq<Entry>, key: Bytes, value: Bytes): (r: seq<Entry>)
    ensures Entry(key, UntilNul(value)) in r
    ensures |env| <= |r| <= |env| + 1
    ensures forall j :: 0 <= j < |env| && env[j].key != key ==> env[j] in r
  {
    match IndexOfKey(env, key)
    case Some(i) =>
      var r := env[i := Entry(key, UntilNul(value))];
      assert r[i] in r;
      assert forall j :: 0 <= j < |env| && env[j].key != key ==> r[j] == env[j] && r[j] in r;
      r
    case None =>
      var r := env + [Entry(key, UntilNul(value))];
      assert r[|env|] in r;
      assert forall j :: 0 <= j < |env| ==> r[j] == env[j] && r[j] in r;
      r
  }

  /** The table after removing `key`: the first entry with that key is
    * swap-removed; an absent key changes nothing. */
  function RemoveEntry(env: seq<Entry>, key: Bytes): (r: seq<Entry>)
    ensures multiset(r) <= multiset(env)
    ensures Lookup(env, key).None? ==> r == env
    ensures Lookup(env, key).Some? ==> |r| == |env| - 1
    ensures forall j :: 0 <= j < |env| && env[j].key != key ==> env[j] in r
  {
    match IndexOfKey(env, key)
    case Some(i) => SwapRemove(env, i)
    case None => env
  }

  /** Bytes the size hint accounts for one entry: key, `=`, value and NUL. */
  function Cost(e: Entry): nat
  {
    |e.key| + |e.value| + 2
  }

  /** The bytes needed to serialise `s`. */
  function Weight(s: seq<Entry>): (w: nat)
    ensures w >= 2 * |s|
  {
    if s == [] then 0 else Weight(s[..|s| - 1]) + Cost(s[|s| - 1])
  }

  /** One serialised entry: `key=value\0`. */
  function Record(e: Entry): (r: Bytes)
    ensures |r| == Cost(e)
    ensures r[..|e.key|] == e.key && r[|e.key|] == EQ && r[|r| - 1] == NUL
  {
    e.key + [EQ] + e.value + [NUL]
  }

  /** The records of all entries, in table order. */
  function Serialize(s: seq<Entry>): (r: Bytes)
    ensures |s| > 0 ==> |r| > 0 && r[|r| - 1] == NUL
  {
    if s == [] then [] else Serialize(s[..|s| - 1]) + Record(s[|s| - 1])
  }

  /** The entries `insert_raw` pushes for raw `key=value` strings, in input
    * order, with the values as given (before the C-string cut). */
  function Parsed(raw: seq<Bytes>): (r: seq<Entry>)
    ensures |r| == |raw|
    ensures forall i :: 0 <= i < |raw| && EQ in raw[i] ==> raw[i] == r[i].key + [EQ] + r[i].value
    ensures forall i :: 0 <= i < |raw| && EQ !in raw[i] ==> r[i] == Entry(raw[i], [])
  {
    seq(|raw|, i requires 0 <= i < |raw| => Entry(SplitAtEq(raw[i]).0, SplitAtEq(raw[i]).1))
  }

  /** What the table holds for pushed entries: each value cut at its first NUL. */
  function Stored(s: seq<Entry>): (r: seq<Entry>)
    ensures |r| == |s|
    ensures forall i :: 0 <= i < |s| ==> r[i].key == s[i].key && r[i].value <= s[i].value && NUL !in r[i].value
  {
    seq(|s|, i requires 0 <= i < |s| => Entry(s[i].key, UntilNul(s[i].value)))
  }

  // ---------------------------------------------------------------------
  // Lookups after set and remove

  /** The first entry with `key` determines `IndexOfKey`. */
  lemma IndexOfKeyAt(env: seq<Entry>, key: Bytes, i: nat)
    requires i < |env| && env[i].key == key
    requires forall j :: 0 <= j < i ==> env[j].key != key
    ensures IndexOfKey(env, key) == Some(i)
  {
  }

  /** After `set`, a lookup of the key yields the new value (cut at its NUL)
    * and a lookup of any other key is unchanged. */
  lemma {:induction false} LookupAfterSet(env: seq<Entry>, key: Bytes, value: Bytes, other: Bytes)
    ensures Lookup(SetEntry(env, key, value), other)
            == if other == key then Some(UntilNul(value)) else Lookup(env, other)
  {
    var env' := SetEntry(env, key, value);
    match IndexOfKey(env, key)
    case Some(i) =>
      if other == key {
        IndexOfKeyAt(env', key, i);
      } else {
        match IndexOfKey(env, other)
        case Some(j) =>
          IndexOfKeyAt(env', other, j);
        case None =>
          assert forall j :: 0 <= j < |env'| ==> env'[j].key != other by {
            forall j | 0 <= j < |env'| ensures env'[j].key != other {
              if j != i { assert env'[j] == env[j]; }
            }
          }
      }
    case None =>
      if other == key {
        IndexOfKeyAt(env', key, |env|);
      } else {
        match IndexOfKey(env, other)
        case Some(j) =>
          IndexOfKeyAt(env', other, j);
        case None =>
          assert forall j :: 0 <= j < |env'| ==> env'[j].key != other by {
            forall j | 0 <= j < |env'| ensures env'[j].key != other {
              if j < |env| { assert env'[j] == env[j]; }
            }
          }
      }
  }

  /** `set` keeps the keys distinct and never grows the table by more than the
    * one entry it appends for an absent key. */
  lemma SetKeepsUnique(env: seq<Entry>, key: Bytes, value: Bytes)
    requires UniqueKeys(env)
    ensures UniqueKeys(SetEntry(env, key, value))
    ensures |SetEntry(env, key, value)| == |env| + (if Lookup(env, key).None? then 1 else 0)
  {
  }

  /** With distinct keys, `remove` keeps the keys distinct. */
  lemma RemoveKeepsUnique(env: seq<Entry>, key: Bytes)
    requires UniqueKeys(env)
    ensures UniqueKeys(RemoveEntry(env, key))
  {
    match IndexOfKey(env, key)
    case None =>
    case Some(i) =>
      var env', last := SwapRemove(env, i), |env| - 1;
      forall a, b | 0 <= a < b < |env'| ensures env'[a].key != env'[b].key {
        var a0 := if a == i then last else a;
        var b0 := if b == i then last else b;
        assert env'[a] == env[a0] && env'[b] == env[b0];
      }
  }

  /** With distinct keys, after `remove` the key is gone and every other key
    * still looks up the same. */
  lemma {:induction false} LookupAfterRemove(env: seq<Entry>, key: Bytes, other: Bytes)
    requires UniqueKeys(env)
    ensures Lookup(RemoveEntry(env, key), other) == if other == key then None else Lookup(env, other)
  {
    match IndexOfKey(env, key)
    case None =>
    case Some(i) =>
      assert RemoveEntry(env, key) == SwapRemove(env, i);
      if other == key {
        SwapRemovedAbsent(env, key, i);
      } else {
        SwapRemoveLookup(env, key, other, i);
      }
  }

  /** With distinct keys, swap-removing the entry of `key` leaves no entry with that key. */
  lemma SwapRemovedAbsent(env: seq<Entry>, key: Bytes, i: nat)
    requires UniqueKeys(env) && i < |env| && env[i].key == key
    ensures Lookup(SwapRemove(env, i), key) == None
  {
    var env', last := SwapRemove(env, i), |env| - 1;
    forall j | 0 <= j < |env'| ensures env'[j].key != key {
      var j0 := if j == i then last else j;
      assert env'[j] == env[j0] && j0 != i;
    }
  }

  /** With distinct keys, swap-removing the entry of `key` leaves the lookup of another key as it was. */
  lemma SwapRemoveLookup(env: seq<Entry>, key: Bytes, other: Bytes, i: nat)
    requires UniqueKeys(env) && i < |env| && env[i].key == key && other != key
    ensures Lookup(SwapRemove(env, i), other) == Lookup(env, other)
  {
    var env', last := SwapRemove(env, i), |env| - 1;
    match IndexOfKey(env, other)
    case Some(m) =>
      var m' := if m == last then i else m;
      assert env'[m'] == env[m];
      forall j | 0 <= j < m' ensures env'[j].key != other {
        var j0 := if j == i then last else j;
        assert env'[j] == env[j0] && j0 != m;
      }
      IndexOfKeyAt(env', other, m');
    case None =>
      forall j | 0 <= j < |env'| ensures env'[j].key != other {
        var j0 := if j == i then last else j;
        assert env'[j] == env[j0];
      }
  }

  // ---------------------------------------------------------------------
  // The size hint and the serialised form

  lemma {:induction false} WeightAppend(a: seq<Entry>, b: seq<Entry>)
    ensures Weight(a + b) == Weight(a) + Weight(b)
    decreases |b|
  {
    if b == [] {
      assert a + b == a;
    } else {
      var b' := b[..|b| - 1];
      assert (a + b)[..|a + b| - 1] == a + b';
      WeightAppend(a, b');
    }
  }

  lemma WeightSingle(e: Entry)
    ensures Weight([e]) == Cost(e)
  {
    assert [e][..0] == [];
  }

  /** Replacing one entry changes the weight by the difference of the two costs. */
  lemma WeightUpdate(s: seq<Entry>, i: nat, e: Entry)
    requires i < |s|
    ensures Weight(s[i := e]) + Cost(s[i]) == Weight(s) + Cost(e)
    ensures Cost(s[i]) <= Weight(s)
  {
    assert s == s[..i] + [s[i]] + s[i + 1..];
    assert s[i := e] == s[..i] + [e] + s[i + 1..];
    WeightAppend(s[..i] + [s[i]], s[i + 1..]);
    WeightAppend(s[..i], [s[i]]);
    WeightAppend(s[..i] + [e], s[i + 1..]);
    WeightAppend(s[..i], [e]);
    WeightSingle(s[i]);
    WeightSingle(e);
  }

  /** Swap-removing an entry takes exactly its cost off the weight. */
  lemma WeightSwapRemove(s: seq<Entry>, i: nat)
    requires i < |s|
    ensures Weight(SwapRemove(s, i)) + Cost(s[i]) == Weight(s)
  {
    var last := |s| - 1;
    var init := s[..last];
    assert Weight(s) == Weight(init) + Cost(s[last]);
    if i < last {
      var r := SwapRemove(s, i);
      assert r == init[i := s[last]];
      WeightUpdate(init, i, s[last]);
      assert init[i] == s[i];
    } else {
      assert SwapRemove(s, i) == init;
    }
  }

  lemma WeightPrefix(s: seq<Entry>, n: nat)
    requires n <= |s|
    ensures Weight(s[..n]) <= Weight(s)
  {
    assert s == s[..n] + s[n..];
    WeightAppend(s[..n], s[n..]);
  }

  /** Cutting values at their NUL never adds weight, and takes none off when no
    * value holds a NUL. */
  lemma {:induction false} WeightStored(s: seq<Entry>)
    ensures Weight(Stored(s)) <= Weight(s)
    ensures (forall i :: 0 <= i < |s| ==> NUL !in s[i].value) ==> Weight(Stored(s)) == Weight(s)
  {
    if s != [] {
      var s' := s[..|s| - 1];
      assert Stored(s)[..|s| - 1] == Stored(s');
      WeightStored(s');
      var v := s[|s| - 1].value;
      if NUL !in v {
        assert UntilNul(v) == v;
      }
    }
  }

  lemma {:induction false} SerializeAppend(a: seq<Entry>, b: seq<Entry>)
    ensures Serialize(a + b) == Serialize(a) + Serialize(b)
    decreases |b|
  {
    if b == [] {
      assert a + b == a;
    } else {
      var b' := b[..|b| - 1];
      var last := b[|b| - 1];
      var ab := a + b;
      assert ab[..|ab| - 1] == a + b';
      assert ab[|ab| - 1] == last;
      assert Serialize(ab) == Serialize(a + b') + Record(last);
      SerializeAppend(a, b');
      var sa, sb', r := Serialize(a), Serialize(b'), Record(last);
      assert (sa + sb') + r == sa + (sb' + r);
    }
  }

  /** The size hint's measure is exactly the serialised length. */
  lemma {:induction false} SerializeLength(s: seq<Entry>)
    ensures |Serialize(s)| == Weight(s)
  {
    if s != [] {
      SerializeLength(s[..|s| - 1]);
    }
  }

  /** Slice `i` of the duplicated buffer, as `duplicate` records it. */
  function SliceOf(env: seq<Entry>, i: nat): Slice
    requires i < |env|
  {
    Slice(Weight(env[..i]), |env[i].key| + 1 + |env[i].value|)
  }

  /** A record inside a byte string `all`, at slice `sl` right after the
    * prefix `p`, reads back as `key=value` followed by NUL. */
  lemma RecordInside(all: Bytes, p: Bytes, e: Entry, rest: Bytes, sl: Slice)
    requires all == p + Record(e) + rest
    requires sl == Slice(|p|, |e.key| + 1 + |e.value|)
    ensures sl.start + sl.len < |all|
    ensures all[sl.start..sl.start + sl.len] == e.key + [EQ] + e.value
    ensures all[sl.start + sl.len] == NUL
  {
    var kv := e.key + [EQ] + e.value;
    assert all == p + kv + ([NUL] + rest);
    assert all[|p|..|p| + |kv|] == kv;
  }

  /** The serialised table around entry `i`: the records before it, its
    * own, and the records after it. */
  lemma SerializeAround(env: seq<Entry>, i: nat)
    requires i < |env|
    ensures Serialize(env) == Serialize(env[..i]) + Record(env[i]) + Serialize(env[i + 1..])
    ensures |Serialize(env[..i])| == Weight(env[..i])
  {
    var pre, e, post := env[..i], env[i], env[i + 1..];
    assert env == pre + [e] + post;
    SerializeAppend(pre + [e], post);
    SerializeAppend(pre, [e]);
    assert Serialize([e]) == Record(e) by {
      assert [e][..0] == [];
    }
    SerializeLength(pre);
  }

  /** Slice `i` of the serialised table reads back `key=value` of entry `i`,
    * and its NUL follows it. */
  lemma SliceReadsBack(env: seq<Entry>, i: nat)
    requires i < |env|
    ensures SliceOf(env, i).start + SliceOf(env, i).len < |Serialize(env)|
    ensures Serialize(env)[SliceOf(env, i).start..SliceOf(env, i).start + SliceOf(env, i).len]
            == env[i].key + [EQ] + env[i].value
    ensures Serialize(env)[SliceOf(env, i).start + SliceOf(env, i).len] == NUL
  {
    SerializeAround(env, i);
    RecordInside(Serialize(env), Serialize(env[..i]), env[i], Serialize(env[i + 1..]), SliceOf(env, i));
  }

  /** The serialised table grows by one record per entry. */
  lemma RecordsStep(env: seq<Entry>, i: nat)
    requires i < |env|
    ensures Serialize(env[..i + 1]) == Serialize(env[..i]) + Record(env[i])
    ensures Weight(env[..i + 1]) == Weight(env[..i]) + Cost(env[i]) <= Weight(env)
  {
    assert env[..i + 1][..i] == env[..i];
    WeightPrefix(env, i + 1);
  }

  /** One more raw entry parsed: one more stored entry and its raw size. */
  lemma InsertRawStep(prefix: seq<Entry>, raw: seq<Bytes>, i: nat)
    requires i < |raw|
    ensures prefix + Stored(Parsed(raw[..i + 1]))
            == prefix + Stored(Parsed(raw[..i])) + [Entry(SplitAtEq(raw[i]).0, UntilNul(SplitAtEq(raw[i]).1))]
    ensures Weight(Parsed(raw[..i + 1]))
            == Weight(Parsed(raw[..i])) + |SplitAtEq(raw[i]).0| + |SplitAtEq(raw[i]).1| + 2
  {
    var e := Entry(SplitAtEq(raw[i]).0, SplitAtEq(raw[i]).1);
    var p := Parsed(raw[..i]);
    assert Parsed(raw[..i + 1]) == p + [e];
    assert Stored(p + [e]) == Stored(p) + [Entry(e.key, UntilNul(e.value))];
    WeightAppend(p, [e]);
    WeightSingle(e);
  }

  /** Copies `src` into `buf` at offset `at`, as `copy_from_slice`. */
  method CopyInto(buf: array<u8>, at: nat, src: Bytes)
    requires at + |src| <= buf.Length
    modifies buf
    ensures buf[..at + |src|] == old(buf[..at]) + src
  {
    var j := 0;
    while j < |src|
      invariant 0 <= j <= |src|
      invariant buf[..at + j] == old(buf[..at]) + src[..j]
    {
      buf[at + j] := src[j];
      assert buf[..at + j + 1] == buf[..at + j] + [src[j]];
      assert src[..j + 1] == src[..j] + [src[j]];
      j := j + 1;
    }
    assert src[..j] == src;
  }

  /** Writes the record `key=value\0` of `e` into `buf` at offset `at`. */
  method WriteRecord(buf: array<u8>, at: nat, e: Entry)
    requires at + Cost(e) <= buf.Length
    modifies buf
    ensures buf[..at + Cost(e)] == old(buf[..at]) + Record(e)
  {
    CopyInto(buf, at, e.key);
    var mid := at + |e.key|;
    buf[mid] := EQ;
    assert buf[..mid + 1] == buf[..mid] + [EQ];
    CopyInto(buf, mid + 1, e.value + [NUL]);
  }

  /** One step of `duplicate`: entry i's record goes right after the records of the entries before it,
    * and its slice is recorded. */
  method WriteEntry(buf: array<u8>, env: seq<Entry>, i: nat, offset: nat) returns (sl: Slice, next: nat)
    requires i < |env| && Weight(env) <= buf.Length
    requires offset == Weight(env[..i]) <= buf.Length && buf[..offset] == Serialize(env[..i])
    modifies buf
    ensures sl == SliceOf(env, i)
    ensures next == Weight(env[..i + 1]) <= buf.Length && buf[..next] == Serialize(env[..i + 1])
  {
    var e := env[i];
    RecordsStep(env, i);
    sl := Slice(offset, |e.key| + 1 + |e.value|);
    WriteRecord(buf, offset, e);
    next := offset + Cost(e);
  }

  class EnvVars {
    var env: seq<Entry>
    var sizeHint: nat

    /** The hint covers the bytes the table serialises to. */
    ghost predicate Valid()
      reads this
    {
      sizeHint >= Weight(env)
    }

    /** How much the hint overestimates; it only grows, through `remove` and
      * through values cut at a NUL. */
    ghost function Slack(): nat
      reads this
      requires Valid()
    {
      sizeHint - Weight(env)
    }

    constructor()
      ensures env == [] && sizeHint == 0
      ensures Valid()
    {
      env := [];
      sizeHint := 0;
    }

    /** The position of the first entry with `key`, by a linear scan. */
    method Find(key: Bytes) returns (r: Option<nat>)
      ensures r == IndexOfKey(env, key)
    {
      var i := 0;
      while i < |env|
        invariant 0 <= i <= |env|
        invariant forall j :: 0 <= j < i ==> env[j].key != key
      {
        if env[i].key == key {
          IndexOfKeyAt(env, key, i);
          return Some(i);
        }
        i := i + 1;
      }
      return None;
    }

    /** The value of the first entry with `key`, if any. */
    method Get(key: Bytes) returns (r: Option<Bytes>)
      ensures r == Lookup(env, key)
      ensures r.Some? <==> exists i :: 0 <= i < |env| && env[i].key == key
    {
      var found := Find(key);
      match found {
        case None =>
          r := None;
        case Some(i) =>
          r := Some(env[i].value);
      }
    }

    /** Appends an entry without looking for the key; the hint grows by the
      * key, the value as given, `=` and NUL. */
    method Push(key: Bytes, value: Bytes)
      requires Valid()
      modifies this
      ensures env == old(env) + [Entry(key, UntilNul(value))]
      ensures sizeHint == old(sizeHint) + |key| + |value| + 2
      ensures Valid() && Slack() == old(Slack()) + |value| - |UntilNul(value)|
    {
      WeightAppend(env, [Entry(key, UntilNul(value))]);
      WeightSingle(Entry(key, UntilNul(value)));
      env := env + [Entry(key, UntilNul(value))];
      sizeHint := sizeHint + |key| + |value| + 2;
    }

    /** Gives `key` the value `value`: in place when present, appended when not. */
    method Set(key: Bytes, value: Bytes)
      requires Valid()
      modifies this
      ensures env == SetEntry(old(env), key, value)
      ensures Valid()
      ensures Slack() == old(Slack()) + |value| - |UntilNul(value)|
    {
      var found := Find(key);
      match found {
        case Some(i) =>
          var oldLen := |env[i].value|;
          var e := Entry(key, UntilNul(value));
          WeightUpdate(env, i, e);
          env := env[i := e];
          sizeHint := sizeHint - (oldLen + 1);
          sizeHint := sizeHint + |value| + 1;
        case None =>
          Push(key, value);
      }
    }

    /** Removes the first entry with `key` by swap-remove; the hint drops by
      * one byte less than the entry's cost. */
    method Remove(key: Bytes)
      requires Valid()
      modifies this
      ensures env == RemoveEntry(old(env), key)
      ensures Valid()
      ensures Slack() == old(Slack()) + (if Lookup(old(env), key).Some? then 1 else 0)
    {
      var found := Find(key);
      match found {
        case Some(i) =>
          WeightSwapRemove(env, i);
          sizeHint := sizeHint - (|key| + 1 + |env[i].value|);
          env := SwapRemove(env, i);
        case None =>
      }
    }

    /** Pushes every raw `key=value` string in order, without deduplication. */
    method InsertRaw(raw: seq<Bytes>)
      requires Valid()
      modifies this
      ensures env == old(env) + Stored(Parsed(raw))
      ensures sizeHint == old(sizeHint) + Weight(Parsed(raw))
      ensures Valid()
    {
      var i := 0;
      while i < |raw|
        invariant 0 <= i <= |raw|
        invariant Valid()
        invariant env == old(env) + Stored(Parsed(raw[..i]))
        invariant sizeHint == old(sizeHint) + Weight(Parsed(raw[..i]))
      {
        InsertOne(old(env), old(sizeHint), raw, i);
        i := i + 1;
      }
      assert raw[..i] == raw;
    }

    /** One turn of insert_raw: raw entry i is split at its `=` and pushed. */
    method InsertOne(ghost env0: seq<Entry>, ghost hint0: nat, raw: seq<Bytes>, i: nat)
      requires Valid() && i < |raw|
      requires env == env0 + Stored(Parsed(raw[..i])) && sizeHint == hint0 + Weight(Parsed(raw[..i]))
      modifies this
      ensures Valid()
      ensures env == env0 + Stored(Parsed(raw[..i + 1])) && sizeHint == hint0 + Weight(Parsed(raw[..i + 1]))
    {
      var (key, value) := SplitAtEq(raw[i]);
      InsertRawStep(env0, raw, i);
      Push(key, value);
    }

    method Clear()
      modifies this
      ensures env == [] && sizeHint == 0
      ensures Valid()
    {
      env := [];
      sizeHint := 0;
    }

    /**
     * Serialises the table into a fresh buffer of `sizeHint` bytes as
     * `key=value\0` records, and returns one slice per entry covering its
     * `key=value`.  Bytes past the records are left unspecified.
     */
    method Duplicate() returns (buf: array<u8>, slices: seq<Slice>)
      requires Valid()
      ensures fresh(buf) && buf.Length == sizeHint
      ensures buf[..Weight(env)] == Serialize(env)
      ensures |slices| == |env|
      ensures forall i :: 0 <= i < |env| ==> slices[i] == SliceOf(env, i)
    {
      buf := new u8[sizeHint];
      slices := [];
      var offset := 0;
      var i := 0;
      while i < |env|
        invariant 0 <= i <= |env|
        invariant offset == Weight(env[..i]) <= buf.Length
        invariant buf[..offset] == Serialize(env[..i])
        invariant |slices| == i
        invariant forall j :: 0 <= j < i ==> slices[j] == SliceOf(env, j)
      {
        var sl;
        sl, offset := WriteEntry(buf, env, i, offset);
        slices := slices + [sl];
        i := i + 1;
      }
      assert env[..i] == env;
    }
  }
}

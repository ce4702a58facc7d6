/** Keys, values and entries of one shard, and the quantities its bookkeeping must agree with. */
module Keyspace {
  import opened ByteStrings
  import opened Packed
  import opened RespText
  import opened OrderedSets
  import opened Routing

  datatype Counted = Counted(members: set<Bytes>, bytes: nat)

  /** A set with the cached total of its member bytes. */
  type CountedSet = c: Counted | c.bytes == SumLen(c.members) witness Counted({}, 0)

  /**
   Collections by their contents: their encodings are invisible. Types not modelled carry only a size.
   */
  datatype Value =
    | Str(bytes: Bytes)
    | Int(n: i64, fastWrites: nat)
    | List(items: seq<Bytes>)
    | Set(contents: CountedSet)
    | Other(kind: nat, size: nat)

  datatype Entry = Entry(value: Value, expiry: Option<nat>, lru: nat)

  type Entries = map<Bytes, Entry>

  function NewEntry(v: Value): Entry {
    Entry(v, None, 0)
  }

  predicate Expired(e: Entry, now: nat) {
    e.expiry.Some? && now >= e.expiry.value
  }

  /** The entry of `k` as a reader sees it. */
  function Live(m: Entries, k: Bytes, now: nat): Option<Entry> {
    if k in m && !Expired(m[k], now) then Some(m[k]) else None
  }

  function Payload(v: Value): nat {
    match v
    case Str(b) => |b|
    case Int(_, _) => 8
    case List(items) => TotalLen(items)
    case Set(c) => c.bytes
    case Other(_, size) => size
  }

  const OVERHEAD: nat := 64

  function Size(k: Bytes, e: Entry): nat {
    OVERHEAD + |k| + Payload(e.value)
  }

  /** Every key lives in the shard its hash selects. */
  ghost predicate Routed(ms: seq<Entries>, hash: Hash, bits: nat) {
    |ms| == Pow2(bits) && forall i, k :: 0 <= i < |ms| && k in ms[i] ==> ShardIdx(hash, k, bits) == i
  }

  // ---- live_bytes ----

  /** The entries' sizes, summed over the keys `ks`. */
  ghost function SizeOver(ks: set<Bytes>, m: Entries): nat
    requires ks <= m.Keys
  {
    if ks == {} then 0
    else
      var k :| k in ks;
      Size(k, m[k]) + SizeOver(ks - {k}, m)
  }

  /** What the byte counter must hold. */
  ghost function TotalSize(m: Entries): nat {
    SizeOver(m.Keys, m)
  }

  lemma RemovedCard<V>(m: map<Bytes, V>, k: Bytes)
    requires k in m
    ensures |m - {k}| == |m| - 1
  {
    assert (m - {k}).Keys == m.Keys - {k};
    assert |m - {k}| == |(m - {k}).Keys| && |m| == |m.Keys|;
  }

  lemma MinusMore(m: Entries, ks: set<Bytes>, k: Bytes)
    ensures m - ks - {k} == m - (ks + {k})
  {
  }

  lemma UpdatedCard<V>(m: map<Bytes, V>, k: Bytes, v: V)
    ensures |m[k := v]| == if k in m then |m| else |m| + 1
  {
    assert m[k := v].Keys == m.Keys + {k};
    assert |m[k := v]| == |m[k := v].Keys| && |m| == |m.Keys|;
    if k in m { assert m.Keys + {k} == m.Keys; }
  }

  lemma {:induction false} SizeOverSplit(ks: set<Bytes>, m: Entries, k: Bytes)
    requires ks <= m.Keys && k in ks
    ensures SizeOver(ks, m) == Size(k, m[k]) + SizeOver(ks - {k}, m)
    decreases |ks|
  {
    var j :| j in ks && SizeOver(ks, m) == Size(j, m[j]) + SizeOver(ks - {j}, m);
    if j != k {
      SizeOverSplit(ks - {j}, m, k);
      SizeOverSplit(ks - {k}, m, j);
      assert ks - {j} - {k} == ks - {k} - {j};
    }
  }

  lemma {:induction false} SizeOverSame(ks: set<Bytes>, m: Entries, m': Entries)
    requires ks <= m.Keys && ks <= m'.Keys && forall k :: k in ks ==> m[k] == m'[k]
    ensures SizeOver(ks, m) == SizeOver(ks, m')
    decreases |ks|
  {
    if ks != {} {
      var k :| k in ks;
      SizeOverSplit(ks, m, k);
      SizeOverSplit(ks, m', k);
      SizeOverSame(ks - {k}, m, m');
    }
  }

  lemma TotalSizeRemove(m: Entries, k: Bytes)
    requires k in m
    ensures TotalSize(m) == Size(k, m[k]) + TotalSize(m - {k})
  {
    var m' := m - {k};
    assert m'.Keys == m.Keys - {k};
    SizeOverSplit(m.Keys, m, k);
    SizeOverSame(m'.Keys, m, m');
  }

  lemma TotalSizePut(m: Entries, k: Bytes, e: Entry)
    ensures k in m ==> TotalSize(m[k := e]) == TotalSize(m) - Size(k, m[k]) + Size(k, e)
    ensures k in m ==> Size(k, m[k]) <= TotalSize(m)
    ensures k !in m ==> TotalSize(m[k := e]) == TotalSize(m) + Size(k, e)
  {
    TotalSizeRemove(m[k := e], k);
    assert m[k := e] - {k} == m - {k};
    if k in m {
      TotalSizeRemove(m, k);
    } else {
      assert m - {k} == m;
    }
  }

  // ---- the expiry index ----

  /** The index is exactly the set of (deadline, key) of the entries that have a deadline. */
  ghost predicate IndexExact(index: set<Stamped>, m: Entries) {
    forall x {:trigger x in index} :: x in index <==> x.key in m && m[x.key].expiry == Some(x.at)
  }

  /** The deadlines of a shard's entries. */
  ghost function Deadlines(m: Entries): set<Stamped> {
    set k | k in m && m[k].expiry.Some? :: Stamped(m[k].expiry.value, k)
  }

  lemma IndexIsDeadlines(index: set<Stamped>, m: Entries)
    requires IndexExact(index, m)
    ensures index == Deadlines(m)
  {
    forall x ensures x in index <==> x in Deadlines(m) {
      if x in index { assert x == Stamped(m[x.key].expiry.value, x.key); }
    }
  }

  /** The shard without its first due keys in deadline order, at most `max` of them. */
  ghost function Reaped(m: Entries, now: nat, max: nat): Entries {
    m - SetOf(KeysOf(TakeDue(Sorted(Deadlines(m)), now, max)))
  }

  lemma ReapedBy(m: Entries, index: set<Stamped>, listing: seq<Stamped>, now: nat, max: nat)
    requires IndexExact(index, m) && Lists(listing, index)
    ensures Reaped(m, now, max) == m - SetOf(KeysOf(TakeDue(listing, now, max)))
  {
    IndexIsDeadlines(index, m);
    ListingUnique(listing, Sorted(Deadlines(m)), index);
  }

  /** What one entry contributes to the index. */
  function DeadlineOf(k: Bytes, e: Entry): set<Stamped> {
    if e.expiry.Some? then {Stamped(e.expiry.value, k)} else {}
  }

  // ---- versions ----

  function Bump(v: nat): nat {
    (v + 1) % TWO_64
  }

  type Versions = map<Bytes, nat>

  function Bumped(vs: Versions, k: Bytes): Versions {
    vs[k := if k in vs then Bump(vs[k]) else 1]
  }

  function BumpedIfPresent(vs: Versions, k: Bytes): Versions {
    if k in vs then vs[k := Bump(vs[k])] else vs
  }
}

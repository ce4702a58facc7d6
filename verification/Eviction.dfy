/** Making room: per-shard victims by policy, and the store-wide loop that evicts until memory fits. */
module Eviction {
  import opened ByteStrings
  import opened RespText
  import opened OrderedSets
  import opened Keyspace
  import opened ShardStore
  import opened Packed

  datatype Policy = NoEviction | AllKeysRandom | VolatileRandom | AllKeysLru | VolatileLru | VolatileTtl

  const SAMPLE_SIZE: nat := 5

  /** The entries a policy may take. */
  predicate Eligible(policy: Policy, e: Entry, now: nat) {
    match policy
    case NoEviction => false
    case AllKeysRandom => true
    case AllKeysLru => true
    case VolatileRandom => e.expiry.Some? && !Expired(e, now)
    case VolatileLru => e.expiry.Some? && !Expired(e, now)
    case VolatileTtl => e.expiry.Some?
  }

  ghost predicate IsVictim(policy: Policy, m: Entries, now: nat, k: Bytes) {
    k in m && Eligible(policy, m[k], now)
  }

  ghost predicate HasVictim(policy: Policy, m: Entries, now: nat) {
    exists k :: IsVictim(policy, m, now, k)
  }

  /** `order` visits every key of `m` once: the arbitrary iteration order of a hash map. */
  ghost predicate Visits(order: seq<Bytes>, m: Entries) {
    NoDup(order) && (forall k :: k in m ==> k in order) && (forall k :: k in order ==> k in m)
  }

  method Iterate(m: Entries) returns (order: seq<Bytes>)
    ensures Visits(order, m)
  {
    order := [];
    var rest := m.Keys;
    while rest != {}
      invariant rest <= m.Keys && NoDup(order)
      invariant forall k :: k in order <==> k in m.Keys - rest
      decreases |rest|
    {
      var k :| k in rest;
      assert k !in order;
      SnocAdds(order, k);
      order := order + [k];
      rest := rest - {k};
    }
  }

  /** The slot the reservoir overwrites for the `idx`-th item. */
  function Slot(idx: nat): nat {
    (idx * 2_654_435_761 % TWO_64) % (idx + 1)
  }

  /** All keys the policy may take. */
  ghost function Victims(policy: Policy, m: Entries, now: nat): set<Bytes> {
    set k | k in m && Eligible(policy, m[k], now)
  }

  /** The eligible keys among those visited, in order. */
  ghost function Filtered(order: seq<Bytes>, m: Entries, policy: Policy, now: nat): seq<Bytes> {
    if order == [] then [] else
      var n := |order| - 1;
      Filtered(order[..n], m, policy, now) + if IsVictim(policy, m, now, order[n]) then [order[n]] else []
  }

  lemma {:induction false} FilteredMembers(order: seq<Bytes>, m: Entries, policy: Policy, now: nat)
    requires NoDup(order)
    ensures forall k :: k in Filtered(order, m, policy, now) <==> k in order && IsVictim(policy, m, now, k)
    ensures NoDup(Filtered(order, m, policy, now))
    decreases |order|
  {
    if order != [] {
      var n := |order| - 1;
      FilteredMembers(order[..n], m, policy, now);
      assert order == order[..n] + [order[n]];
    }
  }

  lemma FilteredAll(order: seq<Bytes>, m: Entries, policy: Policy, now: nat)
    requires Visits(order, m)
    ensures |Filtered(order, m, policy, now)| == |Victims(policy, m, now)|
    ensures forall k :: k in Filtered(order, m, policy, now) <==> IsVictim(policy, m, now, k)
    ensures HasVictim(policy, m, now) <==> Filtered(order, m, policy, now) != []
  {
    var s := Filtered(order, m, policy, now);
    FilteredMembers(order, m, policy, now);
    ListingMeasures(s);
    assert Elems(s) == Victims(policy, m, now);
    if s != [] { assert IsVictim(policy, m, now, s[0]); }
  }

  /** A reservoir of up to five eligible keys: all of them when there are no more. */
  method Sample(order: seq<Bytes>, m: Entries, policy: Policy, now: nat) returns (sample: seq<Bytes>)
    requires Visits(order, m)
    ensures forall j :: 0 <= j < |sample| ==> IsVictim(policy, m, now, sample[j])
    ensures |Filtered(order, m, policy, now)| <= SAMPLE_SIZE ==> sample == Filtered(order, m, policy, now)
    ensures |Filtered(order, m, policy, now)| > SAMPLE_SIZE ==> |sample| == SAMPLE_SIZE
  {
    sample := [];
    for i := 0 to |order|
      invariant forall j :: 0 <= j < |sample| ==> IsVictim(policy, m, now, sample[j])
      invariant |Filtered(order[..i], m, policy, now)| <= SAMPLE_SIZE ==> sample == Filtered(order[..i], m, policy, now)
      invariant |Filtered(order[..i], m, policy, now)| > SAMPLE_SIZE ==> |sample| == SAMPLE_SIZE
    {
      assert order[i] in order && order[..i + 1][..i] == order[..i];
      if Eligible(policy, m[order[i]], now) {
        if |sample| < SAMPLE_SIZE {
          sample := sample + [order[i]];
        } else {
          var slot := Slot(i + 1);
          if slot < SAMPLE_SIZE { sample := sample[slot := order[i]]; }
        }
      }
    }
    assert order[..|order|] == order;
  }

  /** Reservoir-samples up to five eligible keys and picks the least recently used of them. */
  method SampleLruVictim(order: seq<Bytes>, m: Entries, policy: Policy, now: nat) returns (r: Option<Bytes>)
    requires Visits(order, m)
    ensures r.Some? <==> HasVictim(policy, m, now)
    ensures r.Some? ==> IsVictim(policy, m, now, r.value)
    ensures r.Some? && |Victims(policy, m, now)| <= SAMPLE_SIZE ==> LeastRecent(policy, m, now, r.value)
  {
    var sample := Sample(order, m, policy, now);
    FilteredAll(order, m, policy, now);
    if sample == [] { return None; }
    var best := sample[0];
    for j := 1 to |sample|
      invariant best in sample && best in m && forall i :: 0 <= i < j ==> m[best].lru <= m[sample[i]].lru
    {
      if m[sample[j]].lru < m[best].lru { best := sample[j]; }
    }
    assert IsVictim(policy, m, now, best);
    return Some(best);
  }

  /** No eligible key was used longer ago. */
  ghost predicate LeastRecent(policy: Policy, m: Entries, now: nat, k: Bytes)
    requires k in m
  {
    forall j :: IsVictim(policy, m, now, j) ==> m[k].lru <= m[j].lru
  }

  /** The first eligible key met, if any. */
  method FindVictim(order: seq<Bytes>, m: Entries, policy: Policy, now: nat) returns (r: Option<Bytes>)
    requires Visits(order, m)
    ensures r.Some? <==> HasVictim(policy, m, now)
    ensures r.Some? ==> IsVictim(policy, m, now, r.value)
  {
    for i := 0 to |order|
      invariant forall j :: 0 <= j < i ==> !Eligible(policy, m[order[j]], now)
    {
      assert order[i] in order;
      if Eligible(policy, m[order[i]], now) {
        assert IsVictim(policy, m, now, order[i]);
        return Some(order[i]);
      }
    }
    assert forall k :: k in m ==> !IsVictim(policy, m, now, k);
    return None;
  }

  /** `k` has a deadline and none is earlier. */
  ghost predicate Soonest(m: Entries, k: Bytes) {
    k in m && m[k].expiry.Some? && forall j :: j in m && m[j].expiry.Some? ==> m[k].expiry.value <= m[j].expiry.value
  }

  /** The key with the earliest deadline, if any key has one. */
  method EarliestDeadline(db: Database, now: nat) returns (r: Option<Bytes>)
    requires db.Valid()
    ensures r.Some? <==> HasVictim(VolatileTtl, db.entries, now)
    ensures r.Some? ==> IsVictim(VolatileTtl, db.entries, now, r.value)
    ensures r.Some? ==> Soonest(db.entries, r.value)
  {
    var ordered := InOrder(db.expiryIndex);
    if ordered == [] {
      forall k ensures !IsVictim(VolatileTtl, db.entries, now, k) {
        assert Stamped(if k in db.entries then db.entries[k].expiry.GetOr(0) else 0, k) !in db.expiryIndex;
      }
      return None;
    }
    assert ordered[0] in db.expiryIndex;
    assert IsVictim(VolatileTtl, db.entries, now, ordered[0].key);
    forall k | k in db.entries && db.entries[k].expiry.Some? ensures ordered[0].at <= db.entries[k].expiry.value {
      var x := Stamped(db.entries[k].expiry.value, k);
      assert x in db.expiryIndex;
      var j :| 0 <= j < |ordered| && ordered[j] == x;
      assert j > 0 ==> Before(ordered[0], ordered[j]);
    }
    return Some(ordered[0].key);
  }

  /** `evict_one` on one shard: takes an eligible entry exactly when there is one. */
  method EvictOne(db: Database, policy: Policy, now: nat) returns (r: Option<Bytes>)
    requires db.Valid()
    modifies db
    ensures db.Valid() && (r.Some? <==> HasVictim(policy, old(db.entries), now))
    ensures r.Some? ==> IsVictim(policy, old(db.entries), now, r.value) && db.entries == old(db.entries) - {r.value}
    ensures r.None? ==> db.entries == old(db.entries)
    ensures r.Some? && (policy == AllKeysLru || policy == VolatileLru) && |Victims(policy, old(db.entries), now)| <= SAMPLE_SIZE ==>
      LeastRecent(policy, old(db.entries), now, r.value)
    ensures r.Some? && policy == VolatileTtl ==> Soonest(old(db.entries), r.value)
    ensures db.peak == old(db.peak) && (old(db.SlotsBounded()) ==> db.SlotsBounded())
    ensures Shed(old(db.entries), old(db.keyVersions), db.entries, db.keyVersions)
  {
    if policy == NoEviction {
      r := None;
    } else if policy == VolatileTtl {
      r := EarliestDeadline(db, now);
    } else {
      var order := Iterate(db.entries);
      if policy == AllKeysLru || policy == VolatileLru {
        r := SampleLruVictim(order, db.entries, policy, now);
      } else {
        r := FindVictim(order, db.entries, policy, now);
      }
    }
    if r.Some? {
      var _ := db.Remove(r.value);
    } else {
      ShedNothing(db.entries, db.keyVersions);
    }
  }

  // ---- Store-wide accounting ----

  /** The bytes a policy can never free in one shard. */
  ghost function Pinned(policy: Policy, m: Entries, now: nat): nat {
    SizeOver(PinnedKeys(policy, m, now), m)
  }

  ghost function PinnedKeys(policy: Policy, m: Entries, now: nat): set<Bytes> {
    set k | k in m && !Eligible(policy, m[k], now)
  }

  lemma {:induction false} SizeOverSubset(a: set<Bytes>, b: set<Bytes>, m: Entries)
    requires a <= b <= m.Keys
    ensures SizeOver(a, m) <= SizeOver(b, m)
    decreases |b|
  {
    if a != {} {
      var k :| k in a;
      SizeOverSplit(a, m, k);
      SizeOverSplit(b, m, k);
      SizeOverSubset(a - {k}, b - {k}, m);
    }
  }

  lemma PinnedFloor(policy: Policy, m: Entries, now: nat)
    ensures Pinned(policy, m, now) <= TotalSize(m)
    ensures !HasVictim(policy, m, now) ==> Pinned(policy, m, now) == TotalSize(m)
  {
    SizeOverSubset(PinnedKeys(policy, m, now), m.Keys, m);
    if !HasVictim(policy, m, now) {
      assert forall k :: k in m ==> !IsVictim(policy, m, now, k);
      assert PinnedKeys(policy, m, now) == m.Keys;
    }
  }

  /** Taking an eligible entry leaves the pinned ones alone. */
  lemma PinnedStays(policy: Policy, m: Entries, now: nat, k: Bytes)
    requires IsVictim(policy, m, now, k)
    ensures Pinned(policy, m - {k}, now) == Pinned(policy, m, now)
  {
    var ks := PinnedKeys(policy, m, now);
    assert PinnedKeys(policy, m - {k}, now) == ks;
    SizeOverSame(ks, m, m - {k});
  }

  /** An allkeys policy pins nothing. */
  lemma AllKeysPinsNothing(policy: Policy, m: Entries, now: nat)
    requires policy == AllKeysRandom || policy == AllKeysLru
    ensures Pinned(policy, m, now) == 0
  {
    assert PinnedKeys(policy, m, now) == {};
  }

  ghost function TotalOf(ms: seq<Entries>): nat {
    if ms == [] then 0 else TotalSize(ms[0]) + TotalOf(ms[1..])
  }

  ghost function PinnedOf(policy: Policy, ms: seq<Entries>, now: nat): nat {
    if ms == [] then 0 else Pinned(policy, ms[0], now) + PinnedOf(policy, ms[1..], now)
  }

  ghost function KeyCount(ms: seq<Entries>): nat {
    if ms == [] then 0 else |ms[0]| + KeyCount(ms[1..])
  }

  /** Effect of replacing shard `i`'s entries on the store-wide sums. */
  lemma {:induction false} SumsUpdate(policy: Policy, ms: seq<Entries>, i: nat, m: Entries, now: nat)
    requires i < |ms|
    ensures TotalOf(ms[i := m]) == TotalOf(ms) - TotalSize(ms[i]) + TotalSize(m)
    ensures PinnedOf(policy, ms[i := m], now) == PinnedOf(policy, ms, now) - Pinned(policy, ms[i], now) + Pinned(policy, m, now)
    ensures KeyCount(ms[i := m]) == KeyCount(ms) - |ms[i]| + |m|
  {
    if i == 0 {
      assert ms[0 := m][1..] == ms[1..];
    } else {
      assert ms[i := m][1..] == ms[1..][i - 1 := m];
      SumsUpdate(policy, ms[1..], i - 1, m, now);
    }
  }

  lemma {:induction false} PinnedOfFloor(policy: Policy, ms: seq<Entries>, now: nat)
    ensures PinnedOf(policy, ms, now) <= TotalOf(ms)
    ensures (forall i :: 0 <= i < |ms| ==> !HasVictim(policy, ms[i], now)) ==> PinnedOf(policy, ms, now) == TotalOf(ms)
  {
    if ms != [] {
      PinnedFloor(policy, ms[0], now);
      PinnedOfFloor(policy, ms[1..], now);
    }
  }

  lemma {:induction false} AllKeysPinsNothingAnywhere(policy: Policy, ms: seq<Entries>, now: nat)
    requires policy == AllKeysRandom || policy == AllKeysLru
    ensures PinnedOf(policy, ms, now) == 0
  {
    if ms != [] {
      AllKeysPinsNothing(policy, ms[0], now);
      AllKeysPinsNothingAnywhere(policy, ms[1..], now);
    }
  }

  lemma {:induction false} EmptyIsFree(ms: seq<Entries>)
    requires forall i :: 0 <= i < |ms| ==> ms[i] == map[]
    ensures TotalOf(ms) == 0
  {
    if ms != [] { EmptyIsFree(ms[1..]); }
  }

  /** How the eviction loop ends. A round that changes nothing is repeated for ever: the loop spins. */
  datatype Outcome = Fits(evicted: seq<Bytes>) | Spins

  /** All shards of all databases, in iteration order. */
  class Store {
    const shards: seq<Database>

    ghost predicate Valid()
      reads this, shards
    {
      (forall i, j :: 0 <= i < j < |shards| ==> shards[i] != shards[j]) &&
      forall i :: 0 <= i < |shards| ==> shards[i].Valid()
    }

    ghost function Contents(): (ms: seq<Entries>)
      reads shards
      ensures |ms| == |shards|
    {
      seq(|shards|, i requires 0 <= i < |shards| reads shards => shards[i].entries)
    }

    constructor (n: nat)
      ensures Valid() && |shards| == n && fresh(shards)
    {
      var ds: seq<Database> := [];
      for i := 0 to n
        invariant |ds| == i && fresh(ds)
        invariant forall j :: 0 <= j < i ==> ds[j].Valid()
        invariant forall j, k :: 0 <= j < k < i ==> ds[j] != ds[k]
      {
        var d := new Database();
        ds := ds + [d];
      }
      shards := ds;
    }

    /** Sums the shards' counters. */
    method EstimatedMemory() returns (n: nat)
      requires Valid()
      ensures n == TotalOf(Contents())
    {
      n := 0;
      var i := |shards|;
      while i > 0
        invariant 0 <= i <= |shards| && n == TotalOf(Contents()[i..])
      {
        i := i - 1;
        assert Contents()[i..][1..] == Contents()[i + 1..] && Contents()[i..][0] == shards[i].entries;
        n := n + shards[i].liveBytes;
      }
      assert Contents()[0..] == Contents();
    }

    /** One pass over the shards: takes one victim from the first shard that has one. */
    method EvictFromAny(policy: Policy, now: nat) returns (r: Option<Bytes>)
      requires Valid()
      modifies shards
      ensures Valid()
      ensures r.None? ==> Contents() == old(Contents()) && forall i :: 0 <= i < |shards| ==> !HasVictim(policy, Contents()[i], now)
      ensures r.Some? ==> OneVictim(policy, old(Contents()), Contents(), now, r.value)
    {
      for i := 0 to |shards|
        invariant Valid() && Contents() == old(Contents())
        invariant forall j :: 0 <= j < i ==> !HasVictim(policy, Contents()[j], now)
      {
        r := EvictIn(i, policy, now);
        if r.Some? { return; }
      }
      return None;
    }

    method EvictIn(i: nat, policy: Policy, now: nat) returns (r: Option<Bytes>)
      requires Valid() && i < |shards|
      modifies shards
      ensures Valid()
      ensures r.None? ==> Contents() == old(Contents()) && !HasVictim(policy, Contents()[i], now)
      ensures r.Some? ==> IsVictim(policy, old(Contents())[i], now, r.value)
      ensures r.Some? ==> Contents() == old(Contents())[i := old(Contents())[i] - {r.value}]
    {
      r := EvictOne(shards[i], policy, now);
    }

    method AllEmpty() returns (empty: bool)
      requires Valid()
      ensures empty <==> forall i :: 0 <= i < |shards| ==> Contents()[i] == map[]
    {
      for i := 0 to |shards|
        invariant forall j :: 0 <= j < i ==> Contents()[j] == map[]
      {
        assert Contents()[i] == shards[i].entries;
        if |shards[i].entries| != 0 {
          assert Contents()[i] != map[];
          return false;
        }
      }
      return true;
    }

    /** `active_expire_cycle`: one adaptive cycle per shard. */
    method ExpireAll(now: nat)
      requires Valid()
      modifies shards
      ensures Valid() && Contents() == ReapedAll(old(Contents()), now)
    {
      for i := 0 to |shards|
        invariant Valid() && Contents() == ReapedAll(old(Contents())[..i], now) + old(Contents())[i..]
      {
        ReapedNext(old(Contents()), now, i);
        assert Contents()[i] == old(Contents())[i];
        ExpireIn(i, now);
      }
      assert old(Contents())[..|shards|] == old(Contents());
    }

    method ExpireIn(i: nat, now: nat)
      requires Valid() && i < |shards|
      modifies shards
      ensures Valid() && Contents() == old(Contents())[i := Reaped(old(Contents())[i], now, CYCLE_CAP)]
    {
      ExpireShard(shards[i], now);
    }

    /**
     `evict_if_needed`: expire first, then evict until memory is within the limit. The loop spins
     exactly when the bytes the policy may not free exceed the limit after the expiry pass; otherwise
     it evicts eligible keys one by one, each while memory was still above the limit.
     */
    method EvictIfNeeded(policy: Policy, limit: nat, now: nat) returns (o: Outcome)
      requires Valid()
      modifies shards
      ensures Valid()
      ensures policy == NoEviction || limit == 0 ==> o == Fits([]) && Contents() == old(Contents())
      ensures policy != NoEviction && limit > 0 ==>
        && (o.Spins? <==> PinnedOf(policy, ReapedAll(old(Contents()), now), now) > limit)
        && (o.Fits? ==> TotalOf(Contents()) <= limit)
        && (o.Fits? ==> Evictions(policy, limit, ReapedAll(old(Contents()), now), Contents(), now, o.evicted))
      ensures policy == AllKeysRandom || policy == AllKeysLru ==> o.Fits?
    {
      if policy == NoEviction || limit == 0 { return Fits([]); }
      ExpireAll(now);
      ghost var mid := Contents();
      PinnedOfFloor(policy, mid, now);
      if policy == AllKeysRandom || policy == AllKeysLru { AllKeysPinsNothingAnywhere(policy, mid, now); }
      var used := EstimatedMemory();
      if used <= limit { return Fits([]); }
      o := EvictLoop(policy, limit, now);
    }

    /**
     The eviction loop. It spins exactly when the bytes the policy cannot free exceed the limit;
     otherwise it stops with memory within the limit.
     */
    method EvictLoop(policy: Policy, limit: nat, now: nat) returns (o: Outcome)
      requires Valid()
      modifies shards
      ensures Valid() && (o.Spins? <==> PinnedOf(policy, old(Contents()), now) > limit)
      ensures o.Fits? ==> TotalOf(Contents()) <= limit
      ensures o.Fits? ==> Evictions(policy, limit, old(Contents()), Contents(), now, o.evicted)
    {
      var evicted: seq<Bytes> := [];
      ghost var start := Contents();
      while true
        invariant Valid() && PinnedOf(policy, Contents(), now) == PinnedOf(policy, start, now)
        invariant Evictions(policy, limit, start, Contents(), now, evicted)
        decreases KeyCount(Contents())
      {
        PinnedOfFloor(policy, Contents(), now);
        var used := EstimatedMemory();
        if used <= limit { return Fits(evicted); }
        ghost var before := Contents();
        var k := EvictFromAny(policy, now);
        if k.Some? {
          VictimGone(policy, before, Contents(), now, k.value);
          EvictionsMore(policy, limit, start, before, Contents(), now, evicted, k.value);
          evicted := evicted + [k.value];
        } else {
          var empty := AllEmpty();
          if empty {
            // The source's last exit; an empty store uses no memory, so the loop has stopped before.
            EmptyIsFree(Contents());
            assert false;
          }
          return Spins;
        }
      }
    }
  }

  /** `ks` were taken one after the other, each an eligible key and each while memory exceeded the limit. */
  ghost predicate Evictions(policy: Policy, limit: nat, ms: seq<Entries>, ms': seq<Entries>, now: nat, ks: seq<Bytes>)
    decreases |ks|
  {
    if ks == [] then ms' == ms
    else exists before ::
      && Evictions(policy, limit, ms, before, now, ks[..|ks| - 1])
      && TotalOf(before) > limit && OneVictim(policy, before, ms', now, ks[|ks| - 1])
  }

  lemma EvictionsMore(policy: Policy, limit: nat, ms: seq<Entries>, before: seq<Entries>, ms': seq<Entries>, now: nat, ks: seq<Bytes>, k: Bytes)
    requires Evictions(policy, limit, ms, before, now, ks)
    requires TotalOf(before) > limit && OneVictim(policy, before, ms', now, k)
    ensures Evictions(policy, limit, ms, ms', now, ks + [k])
  {
    assert (ks + [k])[..|ks|] == ks;
  }

  /** The policy is one of those that spare keys without a deadline. */
  predicate SparesPersistent(policy: Policy) {
    policy == VolatileRandom || policy == VolatileLru || policy == VolatileTtl
  }

  /** Which keys a policy may take: none, any, or those with a deadline, not yet past unless the earliest goes first. */
  lemma VictimsAre(policy: Policy, m: Entries, now: nat, k: Bytes)
    requires k in m
    ensures IsVictim(policy, m, now, k) <==>
      && policy != NoEviction
      && (SparesPersistent(policy) ==> m[k].expiry.Some?)
      && (policy == VolatileRandom || policy == VolatileLru ==> now < m[k].expiry.value)
  {
  }

  /** However many keys go, one without a deadline, or one the policy passes over as expired, stays as it is. */
  lemma {:induction false} SparedStays(policy: Policy, limit: nat, ms: seq<Entries>, ms': seq<Entries>, now: nat, ks: seq<Bytes>, i: nat, k: Bytes)
    requires Evictions(policy, limit, ms, ms', now, ks) && i < |ms| && k in ms[i] && SparesPersistent(policy)
    requires ms[i][k].expiry.None? || (policy != VolatileTtl && ms[i][k].expiry.value <= now)
    ensures |ms'| == |ms| && k in ms'[i] && ms'[i][k] == ms[i][k]
    decreases |ks|
  {
    if ks != [] {
      var n := |ks| - 1;
      var before :| Evictions(policy, limit, ms, before, now, ks[..n]) && TotalOf(before) > limit && OneVictim(policy, before, ms', now, ks[n]);
      SparedStays(policy, limit, ms, before, now, ks[..n], i, k);
      VictimsAre(policy, before[i], now, k);
      SparedByOne(policy, before, ms', now, ks[n], i, k);
    }
  }

  lemma SparedByOne(policy: Policy, ms: seq<Entries>, ms': seq<Entries>, now: nat, gone: Bytes, i: nat, k: Bytes)
    requires OneVictim(policy, ms, ms', now, gone) && i < |ms| && k in ms[i] && !IsVictim(policy, ms[i], now, k)
    ensures |ms'| == |ms| && k in ms'[i] && ms'[i][k] == ms[i][k]
  {
    var j :| 0 <= j < |ms| && IsVictim(policy, ms[j], now, gone) && ms' == ms[j := ms[j] - {gone}];
  }

  /** `ms'` is `ms` with the eligible key `k` taken out of one shard. */
  ghost predicate OneVictim(policy: Policy, ms: seq<Entries>, ms': seq<Entries>, now: nat, k: Bytes) {
    exists i :: 0 <= i < |ms| && IsVictim(policy, ms[i], now, k) && ms' == ms[i := ms[i] - {k}]
  }

  /** One eviction: fewer keys, the same pinned bytes. */
  lemma VictimGone(policy: Policy, ms: seq<Entries>, ms': seq<Entries>, now: nat, k: Bytes)
    requires OneVictim(policy, ms, ms', now, k)
    ensures KeyCount(ms') < KeyCount(ms) && PinnedOf(policy, ms', now) == PinnedOf(policy, ms, now)
  {
    var i :| 0 <= i < |ms| && IsVictim(policy, ms[i], now, k) && ms' == ms[i := ms[i] - {k}];
    SumsUpdate(policy, ms, i, ms[i] - {k}, now);
    RemovedCard(ms[i], k);
    PinnedStays(policy, ms[i], now, k);
  }

  method ExpireShard(db: Database, now: nat)
    requires db.Valid()
    modifies db
    ensures db.Valid() && db.entries == Reaped(old(db.entries), now, CYCLE_CAP)
  {
    var ordered := InOrder(db.expiryIndex);
    ReapedBy(db.entries, db.expiryIndex, ordered, now, CYCLE_CAP);
    var gone, rounds := db.ExpireCycle(now, ordered);
  }

  lemma ReapedNext(ms: seq<Entries>, now: nat, i: nat)
    requires i < |ms|
    ensures (ReapedAll(ms[..i], now) + ms[i..])[i := Reaped(ms[i], now, CYCLE_CAP)] == ReapedAll(ms[..i + 1], now) + ms[i + 1..]
  {
    var a, b := ReapedAll(ms[..i], now) + ms[i..], ReapedAll(ms[..i + 1], now) + ms[i + 1..];
    forall j | 0 <= j < |ms| ensures a[i := Reaped(ms[i], now, CYCLE_CAP)][j] == b[j] {
    }
  }

  /** Every shard after one expire cycle. */
  ghost function ReapedAll(ms: seq<Entries>, now: nat): (r: seq<Entries>)
    ensures |r| == |ms| && forall i :: 0 <= i < |ms| ==> r[i] == Reaped(ms[i], now, CYCLE_CAP)
  {
    seq(|ms|, i requires 0 <= i < |ms| => Reaped(ms[i], now, CYCLE_CAP))
  }

  /** Entries may be gone, but only expired ones. */
  ghost predicate LostOnlyExpired(m: Entries, m': Entries, now: nat) {
    (forall k :: k in m' ==> k in m && m'[k] == m[k]) && (forall k :: k in m && k !in m' ==> Expired(m[k], now))
  }

  lemma CycleLosesOnlyExpired(m: Entries, now: nat)
    ensures LostOnlyExpired(m, Reaped(m, now, CYCLE_CAP), now)
  {
    var index := Deadlines(m);
    var gone := TakeDue(Sorted(index), now, CYCLE_CAP);
    CycleIsExact(Sorted(index), index, now);
    forall k | k in KeysOf(gone) ensures k in m && Expired(m[k], now) {
      var x := KeyCameFrom(gone, k);
      assert x in index;
    }
  }

  lemma {:induction false} KeyCameFrom(s: seq<Stamped>, k: Bytes) returns (x: Stamped)
    requires k in KeysOf(s)
    ensures x in s && x.key == k
  {
    if s[0].key == k {
      x := s[0];
    } else {
      x := KeyCameFrom(s[1..], k);
    }
  }
}

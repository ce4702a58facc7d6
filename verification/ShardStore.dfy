/**
 One shard: the entries map with its expiry index, byte counter and version slots, kept in
 step by every mutator. The clock is an argument of each call.
 */
module ShardStore {
  import opened ByteStrings
  import opened Packed
  import opened RespText
  import opened OrderedSets
  import opened Keyspace

  const PRUNE_INTERVAL: nat := 1024
  const PRUNE_RATIO: nat := 2
  const PRUNE_MIN: nat := 4096

  const MIN_BUDGET: nat := 20
  const MAX_BUDGET: nat := 256
  const MAX_ROUNDS: nat := 16
  const CYCLE_CAP: nat := 3372

  /** The budgets of the first `r` rounds together. */
  function Spent(r: nat): nat {
    if r == 0 then 0 else if r == 1 then 20 else if r == 2 then 60 else if r == 3 then 140 else 300 + 256 * (r - 4)
  }

  function Budget(r: nat): nat {
    Spent(r + 1) - Spent(r)
  }

  /** How the loop moves from one budget to the next. */
  lemma BudgetGrows(r: nat)
    ensures 0 < Budget(r) <= MAX_BUDGET && Spent(r + 1) == Spent(r) + Budget(r)
    ensures Budget(r + 1) == if Budget(r) * 2 < MAX_BUDGET then Budget(r) * 2 else MAX_BUDGET
    ensures Budget(r) == MAX_BUDGET ==> Budget(r + 1) == MAX_BUDGET
    ensures r <= MAX_ROUNDS ==> Spent(r) <= CYCLE_CAP == Spent(MAX_ROUNDS)
  {
  }

  datatype Failure = NotInteger | Overflow | WrongType

  datatype IncrResult = Incremented(n: i64) | Refused(why: Failure)

  class Database {
    var entries: Entries
    var keyVersions: Versions
    var removalsSincePrune: nat
    var expiryIndex: set<Stamped>
    var liveBytes: nat
    ghost var peak: nat   // the most keys ever present at once

    ghost predicate Valid()
      reads this
    {
      Consistent(entries, keyVersions, expiryIndex, liveBytes, peak) && removalsSincePrune < PRUNE_INTERVAL
    }

    ghost predicate SlotsBounded()
      reads this
    {
      FewSlots(entries, keyVersions, removalsSincePrune, peak)
    }

    constructor ()
      ensures Valid() && SlotsBounded() && entries == map[] && keyVersions == map[] && peak == 0
      ensures expiryIndex == {} && liveBytes == 0
    {
      entries, keyVersions, removalsSincePrune, expiryIndex, liveBytes, peak := map[], map[], 0, {}, 0, 0;
    }

    /** Replaces or creates the entry of `k`, with all its bookkeeping. */
    method Put(k: Bytes, e: Entry, versions: Versions)
      requires Valid() && versions.Keys == keyVersions.Keys + {k}
      modifies this
      ensures Valid() && entries == old(entries)[k := e] && keyVersions == versions
      ensures removalsSincePrune == old(removalsSincePrune) && peak == Max(old(peak), |entries|)
    {
      PutConsistent(entries, keyVersions, expiryIndex, liveBytes, peak, k, e, versions);
      liveBytes := LiveAfterPut(entries, liveBytes, k, e);
      expiryIndex := IndexAfterPut(entries, expiryIndex, k, e);
      entries, keyVersions := entries[k := e], versions;
      peak := Max(peak, |entries|);
    }

    /** `insert`: a present key's version is bumped, a vacant key's starts again at 1. */
    method Insert(k: Bytes, e: Entry)
      requires Valid()
      modifies this
      ensures Valid() && entries == old(entries)[k := e]
      ensures removalsSincePrune == old(removalsSincePrune) && peak == Max(old(peak), |entries|)
      ensures keyVersions ==
        if k in old(entries) then Bumped(old(keyVersions), k) else old(keyVersions)[k := 1]
    {
      Put(k, e, if k in entries then Bumped(keyVersions, k) else keyVersions[k := 1]);
    }

    /** `maybe_prune_versions`: once per interval, drops the slots of dead keys if there are too many. */
    method MaybePrune(removals: nat)
      requires entries.Keys <= keyVersions.Keys && |entries| <= peak
      requires removalsSincePrune < PRUNE_INTERVAL
      modifies this`keyVersions, this`removalsSincePrune
      ensures Shed(entries, old(keyVersions), entries, keyVersions)
      ensures keyVersions == old(keyVersions) || keyVersions.Keys == entries.Keys
      ensures removalsSincePrune < PRUNE_INTERVAL
      ensures |old(keyVersions)| <= |entries| + Max(peak, PRUNE_MIN) + old(removalsSincePrune) + removals ==> SlotsBounded()
    {
      removalsSincePrune := removalsSincePrune + removals;
      if removalsSincePrune < PRUNE_INTERVAL { return; }
      removalsSincePrune := 0;
      var cap := Max(|entries| * PRUNE_RATIO, PRUNE_MIN);
      if |keyVersions| <= cap { return; }
      keyVersions := map k | k in keyVersions && k in entries :: keyVersions[k];
      assert keyVersions.Keys == entries.Keys;
      assert |keyVersions| == |keyVersions.Keys| && |entries| == |entries.Keys|;
    }

    /** Takes `k` out with all its bookkeeping; the version slot stays and records the deletion. */
    method Drop(k: Bytes) returns (e: Entry)
      requires Valid() && k in entries
      modifies this
      ensures Valid() && e == old(entries)[k] && entries == old(entries) - {k}
      ensures keyVersions == BumpedIfPresent(old(keyVersions), k)
      ensures removalsSincePrune == old(removalsSincePrune) && peak == old(peak)
    {
      e := entries[k];
      DropConsistent(entries, keyVersions, expiryIndex, liveBytes, peak, k);
      expiryIndex := expiryIndex - DeadlineOf(k, e);
      keyVersions := BumpedIfPresent(keyVersions, k);
      liveBytes := SaturatingSub(liveBytes, Size(k, e));
      entries := entries - {k};
    }

    /** `remove`. */
    method Remove(k: Bytes) returns (r: Option<Entry>)
      requires Valid()
      modifies this
      ensures Valid() && entries == old(entries) - {k} && peak == old(peak)
      ensures r == if k in old(entries) then Some(old(entries)[k]) else None
      ensures Shed(old(entries), old(keyVersions), entries, keyVersions)
      ensures old(SlotsBounded()) ==> SlotsBounded()
    {
      r := None;
      if k in entries {
        RemovedCard(entries, k);
        BumpedCard(keyVersions, k);
        var e := Drop(k);
        r := Some(e);
        ShedOne(old(entries), old(keyVersions), k);
      } else {
        assert entries - {k} == entries;
      }
      ghost var m, vs := entries, keyVersions;
      MaybePrune(1);
      ShedTwice(old(entries), old(keyVersions), m, vs, entries, keyVersions);
    }

    /** `get`: deletes a lazily expired key, otherwise refreshes its LRU stamp. Not a write for WATCH. */
    method Get(k: Bytes, now: nat, lru: nat) returns (r: Option<Entry>)
      requires Valid()
      modifies this
      ensures Valid() && (r.None? ==> peak == old(peak) && (old(SlotsBounded()) ==> SlotsBounded()))
      ensures r.Some? ==> removalsSincePrune == old(removalsSincePrune) && peak == Max(old(peak), |entries|)
      ensures match Live(old(entries), k, now)
        case Some(e) => r == Some(e.(lru := lru)) && entries == old(entries)[k := e.(lru := lru)] && keyVersions == old(keyVersions)
        case None => r == None && entries == old(entries) - {k}
      ensures Shed(old(entries), old(keyVersions), entries, keyVersions)
    {
      if k in entries && Expired(entries[k], now) {
        var _ := Remove(k);
        return None;
      }
      if k in entries {
        assert keyVersions.Keys == keyVersions.Keys + {k};
        Put(k, entries[k].(lru := lru), keyVersions);
        return Some(entries[k]);
      }
      assert entries - {k} == entries;
      return None;
    }

    /** `get_mut`: the caller may write through the result, so the version moves first. */
    method GetMut(k: Bytes, now: nat) returns (r: Option<Entry>)
      requires Valid()
      modifies this
      ensures Valid() && r == Live(old(entries), k, now)
      ensures peak == old(peak) && (old(SlotsBounded()) ==> SlotsBounded())
      ensures r.Some? ==> entries == old(entries) && keyVersions == Bumped(old(keyVersions), k)
      ensures r.None? ==> entries == old(entries) - {k} && Shed(old(entries), old(keyVersions), entries, keyVersions)
    {
      if k in entries && Expired(entries[k], now) {
        var _ := Remove(k);
        return None;
      }
      if k in entries {
        UpdatedCard(keyVersions, k, Bump(keyVersions[k]));
        keyVersions := Bumped(keyVersions, k);
        return Some(entries[k]);
      }
      assert entries - {k} == entries;
      return None;
    }

    /** Moves `k`'s version on without touching its entry. */
    method Touch(k: Bytes)
      requires Valid() && k in entries
      modifies this`keyVersions
      ensures Valid() && keyVersions == Bumped(old(keyVersions), k)
    {
      keyVersions := Bumped(keyVersions, k);
    }

    /** A write through `get_mut`'s result, followed by the caller's report of the payload change. */
    method Edit(k: Bytes, v: Value, delta: int)
      requires Valid() && k in entries && delta == Payload(v) - Payload(entries[k].value)
      modifies this
      ensures Valid() && entries == old(entries)[k := old(entries)[k].(value := v)]
      ensures keyVersions == old(keyVersions) && removalsSincePrune == old(removalsSincePrune) && peak == old(peak)
    {
      ghost var e := entries[k].(value := v);
      TotalSizePut(entries, k, e);
      IndexPut(entries, expiryIndex, k, e);
      UpdatedCard(entries, k, e);
      assert IndexAfterPut(entries, expiryIndex, k, e) == expiryIndex;
      entries := entries[k := entries[k].(value := v)];
      if delta > 0 {
        liveBytes := liveBytes + delta;
      } else if delta < 0 {
        liveBytes := SaturatingSub(liveBytes, -delta);
      }
    }

    /** Plain SET: overwrites any type, clears any deadline. */
    method SetPlain(k: Bytes, value: Bytes, now: nat, lru: nat)
      requires Valid()
      modifies this
      ensures Valid() && keyVersions == if k in old(entries) then Bumped(old(keyVersions), k) else old(keyVersions)[k := 1]
      ensures entries == old(entries)[k := Entry(Str(value), None, if Live(old(entries), k, now).Some? then lru else 0)]
      ensures removalsSincePrune == old(removalsSincePrune) && peak == Max(old(peak), |entries|)
    {
      if k in entries && !Expired(entries[k], now) {
        Put(k, Entry(Str(value), None, lru), Bumped(keyVersions, k));
      } else {
        Insert(k, NewEntry(Str(value)));
      }
    }

    /** The live entry of `k`, or `fresh` in its place. Always a write for WATCH. */
    method GetOrInsertWith(k: Bytes, e: Entry, now: nat, lru: nat) returns (r: Entry)
      requires Valid()
      modifies this
      ensures Valid() && keyVersions == Bumped(old(keyVersions), k)
      ensures r == (match Live(old(entries), k, now) case Some(x) => x.(lru := lru) case None => e)
      ensures entries == old(entries)[k := r]
      ensures removalsSincePrune == old(removalsSincePrune) && peak == Max(old(peak), |entries|)
    {
      r := if k in entries && !Expired(entries[k], now) then entries[k].(lru := lru) else e;
      Put(k, r, Bumped(keyVersions, k));
    }

    /** INCRBY under the write lock: keeps the deadline of a live key, treats a missing or expired one as 0. */
    method IncrInt(k: Bytes, delta: i64, now: nat, lru: nat) returns (r: IncrResult)
      requires Valid()
      modifies this
      ensures Valid() && r == IncrOutcome(Live(old(entries), k, now), delta)
      ensures r.Refused? ==> entries == old(entries) && keyVersions == old(keyVersions) && peak == old(peak)
      ensures r.Incremented? ==>
        && keyVersions == Bumped(old(keyVersions), k) && peak == Max(old(peak), |entries|)
        && entries == old(entries)[k := IncrEntry(Live(old(entries), k, now), r.n, lru)]
      ensures removalsSincePrune == old(removalsSincePrune)
    {
      var cur := Live(entries, k, now);
      r := IncrOutcome(cur, delta);
      if r.Incremented? {
        Put(k, IncrEntry(cur, r.n, lru), Bumped(keyVersions, k));
      }
    }

    /**
     INCRBY under the read lock: adds to the cell of a live integer, which counts the write itself; the
     version slot stays. Without such a cell the caller falls back to `IncrInt`.
     */
    method FastIncr(k: Bytes, delta: i64, now: nat) returns (r: Option<IncrResult>)
      requires Valid()
      modifies this
      ensures Valid() && entries == FastEntries(old(entries), k, delta, now)
      ensures r == if HasCell(old(entries), k, now) then Some(IncrOutcome(Live(old(entries), k, now), delta)) else None
      ensures keyVersions == old(keyVersions) && removalsSincePrune == old(removalsSincePrune) && peak == old(peak)
    {
      if !HasCell(entries, k, now) { return None; }
      var added := IncrOutcome(Some(entries[k]), delta);
      if added.Incremented? {
        Edit(k, Int(added.n, entries[k].value.fastWrites + 1), 0);
      }
      return Some(added);
    }

    /** EXPIRE, PEXPIRE, PERSIST: a write for WATCH. */
    method SetExpiry(k: Bytes, expiry: Option<nat>)
      requires Valid()
      modifies this
      ensures Valid() && removalsSincePrune == old(removalsSincePrune)
      ensures k in old(entries) ==>
        && entries == old(entries)[k := old(entries)[k].(expiry := expiry)]
        && keyVersions == Bumped(old(keyVersions), k) && peak == Max(old(peak), |entries|)
      ensures k !in old(entries) ==> entries == old(entries) && keyVersions == old(keyVersions) && peak == old(peak)
    {
      if k in entries {
        Put(k, entries[k].(expiry := expiry), Bumped(keyVersions, k));
      }
    }

    /** Deletes the entry at the front of the index. */
    method DropHead(x: Stamped, ghost listing: seq<Stamped>)
      requires Valid() && Lists(listing, expiryIndex) && listing != [] && x == listing[0]
      modifies this
      ensures Valid() && x.key in old(entries) && entries == old(entries) - {x.key} && Lists(listing[1..], expiryIndex)
      ensures removalsSincePrune == old(removalsSincePrune) && peak == old(peak)
      ensures Shed(old(entries), old(keyVersions), entries, keyVersions)
      ensures |keyVersions| == |old(keyVersions)| && |entries| + 1 == |old(entries)|
    {
      assert x in expiryIndex;
      ListsTail(listing, expiryIndex);
      RemovedCard(entries, x.key);
      BumpedCard(keyVersions, x.key);
      var e := Drop(x.key);
      assert DeadlineOf(x.key, e) == {x};
    }

    /** Deletes the first `n` entries of the index. */
    method DropFirst(ordered: seq<Stamped>, n: nat)
      requires Valid() && Lists(ordered, expiryIndex) && n <= |ordered|
      modifies this
      ensures Valid() && Lists(ordered[n..], expiryIndex)
      ensures entries == old(entries) - SetOf(KeysOf(ordered[..n]))
      ensures removalsSincePrune == old(removalsSincePrune) && peak == old(peak)
      ensures Shed(old(entries), old(keyVersions), entries, keyVersions)
      ensures |keyVersions| == |old(keyVersions)| && |entries| + n == |old(entries)|
    {
      assert ordered[0..] == ordered && entries == entries - SetOf(KeysOf([]));
      for i := 0 to n
        invariant Valid() && Lists(ordered[i..], expiryIndex)
        invariant entries == old(entries) - SetOf(KeysOf(ordered[..i]))
        invariant removalsSincePrune == old(removalsSincePrune) && peak == old(peak)
        invariant Shed(old(entries), old(keyVersions), entries, keyVersions)
        invariant |keyVersions| == |old(keyVersions)| && |entries| + i == |old(entries)|
      {
        KeysStep(ordered, i);
        MinusMore(old(entries), SetOf(KeysOf(ordered[..i])), ordered[i].key);
        ghost var m, vs := entries, keyVersions;
        DropHead(ordered[i], ordered[i..]);
        ShedTwice(old(entries), old(keyVersions), m, vs, entries, keyVersions);
        assert ordered[i..][1..] == ordered[i + 1..];
      }
    }

    /** Deletes up to `max` due keys, earliest deadlines first, off the front of the index. */
    method ExpireBatch(max: nat, now: nat, ghost listing: seq<Stamped>) returns (deleted: seq<Bytes>)
      requires Valid() && Lists(listing, expiryIndex)
      modifies this
      ensures Valid() && peak == old(peak)
      ensures deleted == KeysOf(TakeDue(listing, now, max)) && |deleted| <= |listing|
      ensures entries == old(entries) - SetOf(deleted)
      ensures Lists(listing[|deleted|..], expiryIndex)
      ensures Shed(old(entries), old(keyVersions), entries, keyVersions)
      ensures max < TWO_32 && old(SlotsBounded()) ==> SlotsBounded()
    {
      deleted := DropDue(max, now, listing);
      PruneAfter(|deleted|, old(entries), old(keyVersions));
    }

    /** Prunes after `n` removals; the count goes through 32 bits. */
    method PruneAfter(n: nat, ghost m: Entries, ghost vs: Versions)
      requires Valid() && Shed(m, vs, entries, keyVersions)
      modifies this`keyVersions, this`removalsSincePrune
      ensures Valid() && Shed(m, vs, entries, keyVersions)
      ensures n < TWO_32 && |old(keyVersions)| <= |entries| + Max(peak, PRUNE_MIN) + old(removalsSincePrune) + n ==> SlotsBounded()
    {
      ghost var before := keyVersions;
      MaybePrune(Low32(n));
      ShedTwice(m, vs, entries, before, entries, keyVersions);
    }

    method DropDue(max: nat, now: nat, ghost listing: seq<Stamped>) returns (deleted: seq<Bytes>)
      requires Valid() && Lists(listing, expiryIndex)
      modifies this
      ensures Valid() && deleted == KeysOf(TakeDue(listing, now, max)) && |deleted| <= |listing| && |deleted| <= max
      ensures entries == old(entries) - SetOf(deleted) && Lists(listing[|deleted|..], expiryIndex)
      ensures removalsSincePrune == old(removalsSincePrune) && peak == old(peak)
      ensures Shed(old(entries), old(keyVersions), entries, keyVersions)
      ensures |keyVersions| == |old(keyVersions)| && |entries| + |deleted| == |old(entries)|
    {
      var ordered := Ordered(listing);
      TakeDuePrefix(ordered, now, max);
      var toDelete := TakeDue(ordered, now, max);
      DropFirst(ordered, |toDelete|);
      deleted := KeysOf(toDelete);
    }

    /** The index in order; there is only one such listing. */
    method Ordered(ghost listing: seq<Stamped>) returns (ordered: seq<Stamped>)
      requires Lists(listing, expiryIndex)
      ensures ordered == listing
    {
      ordered := InOrder(expiryIndex);
      ListingUnique(ordered, listing, expiryIndex);
    }

    /** Exactly `gone`, the front of the listing, has been expired since the shard held `m` and `vs`. */
    ghost predicate Trimmed(m: Entries, vs: Versions, listing: seq<Stamped>, gone: seq<Bytes>)
      reads this
    {
      && entries == m - SetOf(gone) && |gone| <= |listing| && Lists(listing[|gone|..], expiryIndex)
      && Shed(m, vs, entries, keyVersions)
    }

    /** One round of the cycle. */
    method ExpireRound(budget: nat, now: nat, ghost m: Entries, ghost vs: Versions, ghost listing: seq<Stamped>, ghost total: seq<Bytes>)
      returns (deleted: seq<Bytes>)
      requires Valid() && Trimmed(m, vs, listing, total) && budget <= MAX_BUDGET
      modifies this
      ensures Valid() && peak == old(peak) && (old(SlotsBounded()) ==> SlotsBounded())
      ensures Trimmed(m, vs, listing, total + deleted)
      ensures deleted == KeysOf(RoundBatch(listing, now, |total|, budget))
    {
      ghost var rest := listing[|total|..];
      ListingSize(rest, expiryIndex);
      var have := |expiryIndex|;
      ghost var m1, vs1 := entries, keyVersions;
      deleted := ExpireBatch(if budget < have then budget else have, now, rest);
      ShedTwice(m, vs, m1, vs1, entries, keyVersions);
      CycleDeletes(m, total, deleted);
      assert rest[|deleted|..] == listing[|total + deleted|..];
    }

    /**
     The adaptive expire cycle: batches of 20, 40, 80, 160 and then 256 keys, at most 16 rounds.
     With a fixed clock it deletes exactly the earliest due keys, up to the sum of all budgets.
     */
    method ExpireCycle(now: nat, ghost listing: seq<Stamped>) returns (total: seq<Bytes>, rounds: nat)
      requires Valid() && Lists(listing, expiryIndex)
      modifies this
      ensures Valid() && peak == old(peak) && (old(SlotsBounded()) ==> SlotsBounded())
      ensures Complete(listing, now, total)
      ensures Trimmed(old(entries), old(keyVersions), listing, total)
      ensures 1 <= rounds <= MAX_ROUNDS
    {
      var budget := MIN_BUDGET;
      total, rounds := [], 0;
      assert listing[0..] == listing && entries == entries - SetOf([]);
      while true
        invariant rounds < MAX_ROUNDS && budget == Budget(rounds) && AtRound(listing, now, total, rounds)
        invariant Valid() && peak == old(peak) && (old(SlotsBounded()) ==> SlotsBounded())
        invariant Trimmed(old(entries), old(keyVersions), listing, total)
        decreases MAX_ROUNDS - rounds
      {
        BudgetGrows(rounds);
        RoundOutcome(listing, now, total, rounds);
        rounds := rounds + 1;
        if |expiryIndex| == 0 {
          ListingSize(listing[|total|..], expiryIndex);
          break;
        }
        var deleted := ExpireRound(budget, now, old(entries), old(keyVersions), listing, total);
        total := total + deleted;
        if |deleted| >= budget && budget < MAX_BUDGET {
          budget := if budget * 2 < MAX_BUDGET then budget * 2 else MAX_BUDGET;
        } else if |deleted| < budget {
          break;
        }
        if rounds >= MAX_ROUNDS { break; }
      }
    }

    /** FLUSH. */
    method Flush()
      requires Valid()
      modifies this
      ensures Valid() && entries == map[] && keyVersions == map[] && peak == old(peak)
      ensures old(SlotsBounded()) ==> SlotsBounded()
    {
      entries, expiryIndex, keyVersions, liveBytes := map[], {}, map[], 0;
    }
  }

  /** The counter adjusted for the entry replaced and the entry written. */
  function LiveAfterPut(m: Entries, live: nat, k: Bytes, e: Entry): nat {
    if k !in m then live + Size(k, e)
    else
      var oldSize, newSize := Size(k, m[k]), Size(k, e);
      if newSize >= oldSize then live + (newSize - oldSize) else SaturatingSub(live, oldSize - newSize)
  }

  function IndexAfterPut(m: Entries, index: set<Stamped>, k: Bytes, e: Entry): set<Stamped> {
    (if k in m then index - DeadlineOf(k, m[k]) else index) + DeadlineOf(k, e)
  }

  /** The index, the counter and the version slots agree with the entries. */
  ghost predicate Consistent(m: Entries, vs: Versions, index: set<Stamped>, live: nat, peak: nat) {
    && IndexExact(index, m)
    && live == TotalSize(m)
    && m.Keys <= vs.Keys
    && |m| <= peak
  }

  /** Slots of dead keys are limited by the peak and by the removals since the last prune pass. */
  ghost predicate FewSlots(m: Entries, vs: Versions, removals: nat, peak: nat) {
    removals < PRUNE_INTERVAL && |vs| <= |m| + Max(peak, PRUNE_MIN) + removals
  }

  lemma PutConsistent(m: Entries, vs: Versions, index: set<Stamped>, live: nat, peak: nat, k: Bytes, e: Entry, vs': Versions)
    requires Consistent(m, vs, index, live, peak) && vs'.Keys == vs.Keys + {k}
    ensures Consistent(m[k := e], vs', IndexAfterPut(m, index, k, e), LiveAfterPut(m, live, k, e), Max(peak, |m[k := e]|))
  {
    TotalSizePut(m, k, e);
    IndexPut(m, index, k, e);
  }

  lemma IndexPut(m: Entries, index: set<Stamped>, k: Bytes, e: Entry)
    requires IndexExact(index, m)
    ensures IndexExact(IndexAfterPut(m, index, k, e), m[k := e])
  {
    var index', m' := IndexAfterPut(m, index, k, e), m[k := e];
    forall x ensures x in index' <==> x.key in m' && m'[x.key].expiry == Some(x.at) {
      if x.key != k {
        assert x in index' <==> x in index;
      } else {
        assert x in index' <==> x in DeadlineOf(k, e);
      }
    }
  }

  /** Writing `k` adds a slot only when it adds an entry. */
  lemma PutFewSlots(m: Entries, vs: Versions, removals: nat, peak: nat, k: Bytes, e: Entry, vs': Versions)
    requires FewSlots(m, vs, removals, peak) && m.Keys <= vs.Keys && vs'.Keys == vs.Keys + {k}
    ensures FewSlots(m[k := e], vs', removals, Max(peak, |m[k := e]|))
  {
    UpdatedCard(m, k, e);
    assert |vs'| == |vs'.Keys| && |vs| == |vs.Keys|;
    if k in vs { assert vs.Keys + {k} == vs.Keys; }
  }

  /**
   From `m` and `vs`, keys may have gone. A key that stayed keeps its version; the slot of one that
   went has moved on by one, or is gone too; other slots of absent keys are as they were, or gone.
   */
  ghost predicate Shed(m: Entries, vs: Versions, m': Entries, vs': Versions) {
    && m'.Keys <= m.Keys && m'.Keys <= vs'.Keys <= vs.Keys
    && forall k :: k in vs' ==> vs'[k] == if k in m && k !in m' then Bump(vs[k]) else vs[k]
  }

  lemma ShedNothing(m: Entries, vs: Versions)
    requires m.Keys <= vs.Keys
    ensures Shed(m, vs, m, vs)
  {
  }

  lemma ShedTwice(m: Entries, vs: Versions, m1: Entries, vs1: Versions, m2: Entries, vs2: Versions)
    requires Shed(m, vs, m1, vs1) && Shed(m1, vs1, m2, vs2)
    ensures Shed(m, vs, m2, vs2)
  {
  }

  lemma ShedOne(m: Entries, vs: Versions, k: Bytes)
    requires k in m && m.Keys <= vs.Keys
    ensures Shed(m, vs, m - {k}, BumpedIfPresent(vs, k))
  {
  }

  lemma BumpedCard(vs: Versions, k: Bytes)
    ensures |BumpedIfPresent(vs, k)| == |vs|
  {
    if k in vs { UpdatedCard(vs, k, Bump(vs[k])); }
  }

  lemma DropConsistent(m: Entries, vs: Versions, index: set<Stamped>, live: nat, peak: nat, k: Bytes)
    requires Consistent(m, vs, index, live, peak) && k in m
    ensures Size(k, m[k]) <= live
    ensures Consistent(m - {k}, BumpedIfPresent(vs, k), index - DeadlineOf(k, m[k]), live - Size(k, m[k]), peak)
  {
    TotalSizeRemove(m, k);
    RemovedCard(m, k);
    IndexDrop(m, index, k);
  }

  lemma IndexDrop(m: Entries, index: set<Stamped>, k: Bytes)
    requires IndexExact(index, m) && k in m
    ensures IndexExact(index - DeadlineOf(k, m[k]), m - {k})
  {
    var index', m' := index - DeadlineOf(k, m[k]), m - {k};
    forall x ensures x in index' <==> x.key in m' && m'[x.key].expiry == Some(x.at) {
      assert x.key != k ==> (x in index' <==> x in index);
    }
  }

  predicate InI64(n: int) {
    -TWO_63 <= n < TWO_63
  }

  function IncrOutcome(cur: Option<Entry>, delta: i64): IncrResult {
    match cur
    case None => Incremented(delta)
    case Some(e) =>
      match e.value
      case Int(n, _) => CheckedAdd(n, delta)
      case Str(s) => (match ParseI64(s) case Some(n) => CheckedAdd(n, delta) case None => Refused(NotInteger))
      case _ => Refused(WrongType)
  }

  function CheckedAdd(a: i64, b: i64): IncrResult {
    if InI64(a as int + b as int) then Incremented(a as int + b as int) else Refused(Overflow)
  }

  /** A live entry keeps its deadline and, if it was an Int already, its cell; otherwise a new cell. */
  function IncrEntry(cur: Option<Entry>, n: i64, lru: nat): Entry {
    match cur
    case Some(e) => Entry(Int(n, if e.value.Int? then e.value.fastWrites else 0), e.expiry, lru)
    case None => NewEntry(Int(n, 0))
  }

  /** `k` is a live integer with a cell of its own. */
  predicate HasCell(m: Entries, k: Bytes, now: nat) {
    Live(m, k, now).Some? && m[k].value.Int?
  }

  /** The entries after an increment of the cell alone. */
  function FastEntries(m: Entries, k: Bytes, delta: i64, now: nat): Entries {
    if HasCell(m, k, now) && IncrOutcome(Live(m, k, now), delta).Incremented? then
      m[k := m[k].(value := Int(IncrOutcome(Live(m, k, now), delta).n, m[k].value.fastWrites + 1))]
    else m
  }

  /** What a round with `budget` deletes when the first `from` entries are gone already. */
  ghost function RoundBatch(listing: seq<Stamped>, now: nat, from: nat, budget: nat): seq<Stamped>
    requires from <= |listing|
  {
    TakeDue(listing[from..], now, if budget < |listing| - from then budget else |listing| - from)
  }

  /**
   Round `r` of a cycle in which all earlier rounds were full: either it fills its budget too and the
   cycle stands at the next sum of budgets, or nothing due is left and the cycle is complete.
   */
  lemma CycleRound(listing: seq<Stamped>, now: nat, r: nat)
    requires Ascending(listing) && r < MAX_ROUNDS && |TakeDue(listing, now, Spent(r))| == Spent(r)
    ensures Spent(r) <= |listing|
    ensures var batch := KeysOf(RoundBatch(listing, now, Spent(r), Budget(r)));
      var before := KeysOf(TakeDue(listing, now, Spent(r)));
      && |batch| <= Budget(r)
      && (|listing| == Spent(r) ==> batch == [])
      && (|batch| == Budget(r) ==> KeysOf(TakeDue(listing, now, Spent(r + 1))) == before + batch)
      && (|batch| < Budget(r) ==> KeysOf(TakeDue(listing, now, CYCLE_CAP)) == before + batch)
  {
    BudgetGrows(r);
    BudgetGrows(r + 1);
    RoundSplit(listing, now, Spent(r), Budget(r), CYCLE_CAP);
  }

  /** Taking `a` and then up to `b` more, when all of the first `a` were due. */
  lemma RoundSplit(listing: seq<Stamped>, now: nat, a: nat, b: nat, cap: nat)
    requires Ascending(listing) && |TakeDue(listing, now, a)| == a && a + b <= cap
    ensures a <= |listing|
    ensures var batch, before := KeysOf(RoundBatch(listing, now, a, b)), KeysOf(TakeDue(listing, now, a));
      && |batch| <= b
      && (|listing| == a ==> batch == [])
      && (|batch| == b ==> KeysOf(TakeDue(listing, now, a + b)) == before + batch)
      && (|batch| < b ==> KeysOf(TakeDue(listing, now, cap)) == before + batch)
  {
    TakeDueTwice(listing, now, a, b);
    var rest := listing[a..];
    if b >= |rest| { TakeDueCapped(rest, now, b); }
    var batch := TakeDue(rest, now, b);
    TakeDuePrefix(rest, now, b);
    KeysOfAppend(TakeDue(listing, now, a), batch);
    if |batch| < b { TakeDueComplete(listing, now, a + b); }
  }

  /** All of the first `r` rounds were full, and `total` is what they deleted. */
  ghost predicate AtRound(listing: seq<Stamped>, now: nat, total: seq<Bytes>, r: nat) {
    Ascending(listing) && |total| == Spent(r) <= |listing| && total == KeysOf(TakeDue(listing, now, Spent(r)))
  }

  ghost predicate Complete(listing: seq<Stamped>, now: nat, total: seq<Bytes>) {
    total == KeysOf(TakeDue(listing, now, CYCLE_CAP))
  }

  lemma RoundOutcome(listing: seq<Stamped>, now: nat, total: seq<Bytes>, r: nat)
    requires AtRound(listing, now, total, r) && r < MAX_ROUNDS
    ensures |listing| == |total| ==> Complete(listing, now, total)
    ensures var deleted := KeysOf(RoundBatch(listing, now, |total|, Budget(r)));
      && |deleted| <= Budget(r)
      && (|deleted| == Budget(r) ==> AtRound(listing, now, total + deleted, r + 1))
      && (|deleted| == Budget(r) && r + 1 == MAX_ROUNDS ==> Complete(listing, now, total + deleted))
      && (|deleted| < Budget(r) ==> Complete(listing, now, total + deleted))
  {
    BudgetGrows(r);
    CycleRound(listing, now, r);
    TakeDuePrefix(listing, now, Spent(r + 1));
    assert total + [] == total;
  }

  lemma CycleDeletes(m: Entries, total: seq<Bytes>, deleted: seq<Bytes>)
    ensures m - SetOf(total) - SetOf(deleted) == m - SetOf(total + deleted)
  {
    assert SetOf(total + deleted) == SetOf(total) + SetOf(deleted);
  }

  /** What the cycle leaves behind: only due keys went, and if fewer than the cap went, none is left. */
  lemma CycleIsExact(listing: seq<Stamped>, index: set<Stamped>, now: nat)
    requires Lists(listing, index)
    ensures var gone := TakeDue(listing, now, CYCLE_CAP);
      && |gone| <= CYCLE_CAP && |gone| <= |listing| && gone == listing[..|gone|]
      && (forall x :: x in gone ==> x in index && x.at <= now)
      && (|gone| < CYCLE_CAP ==> forall x :: x in index && x !in gone ==> x.at > now)
      && (forall x, y :: x in gone && y in index && y !in gone ==> Before(x, y))
  {
    var gone := TakeDue(listing, now, CYCLE_CAP);
    TakeDuePrefix(listing, now, CYCLE_CAP);
    if |gone| < CYCLE_CAP { TakeDueComplete(listing, now, CYCLE_CAP); }
    forall y | y in index && y !in gone
      ensures exists j :: |gone| <= j < |listing| && listing[j] == y
    {
      var j :| 0 <= j < |listing| && listing[j] == y;
      assert y in listing[..|gone|] || |gone| <= j;
    }
  }
}

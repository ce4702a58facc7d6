/** SCAN: pages over a sharded keyspace in order-key order, one shard under one read lock at a time. */
module Scan {
  import opened ByteStrings
  import opened OrderedSets
  import opened Keyspace
  import opened Routing
  import Glob

  /** What one call asks for; `keep` is the TYPE filter. */
  datatype Query = Query(hash: Hash, pattern: Bytes, keep: (Bytes, Entry) -> bool, now: nat)

  /** SCAN may return `k` from a shard holding `m`. */
  ghost predicate Visible(q: Query, m: Entries, k: Bytes) {
    k in m && !Expired(m[k], q.now) && Glob.Accepts(q.pattern, k, 0, 0) && q.keep(k, m[k])
  }

  function Stamp(q: Query, k: Bytes): Stamped {
    Stamped(OrderKey(q.hash, k), k)
  }

  /** The keys of a page with their order keys. */
  function Stamps(q: Query, page: seq<Bytes>): (s: seq<Stamped>)
    ensures |s| == |page|
  {
    seq(|page|, i requires 0 <= i < |page| => Stamp(q, page[i]))
  }

  /**
   `shards[i]` is shard i at the moment the page locks it, so the keyspace may change
   while a page moves from shard to shard.
   */
  ghost predicate Matches(q: Query, shards: seq<Entries>, x: Stamped) {
    x == Stamp(q, x.key) && exists i :: 0 <= i < |shards| && Visible(q, shards[i], x.key)
  }

  ghost function AllMatches(q: Query, shards: seq<Entries>): iset<Stamped> {
    iset x | Matches(q, shards, x)
  }

  /**
   What MATCH finds, in textbook terms: only keys that are there, not past their deadline, of the right
   type and matched by the pattern; and every such key that has no `*` in its name.
   */
  lemma FindsMatches(q: Query, shards: seq<Entries>, k: Bytes)
    ensures var found := Matches(q, shards, Stamp(q, k));
      var wanted := exists i :: 0 <= i < |shards| && Wanted(q, shards[i], k);
      (found ==> wanted) && (Glob.STAR !in k ==> (found <==> wanted))
  {
    Glob.AcceptsIsSound(q.pattern, k, 0, 0);
    if Glob.STAR !in k { Glob.AcceptsIsComplete(q.pattern, k, 0, 0); }
    forall i | 0 <= i < |shards|
      ensures Visible(q, shards[i], k) ==> Wanted(q, shards[i], k)
      ensures Glob.STAR !in k && Wanted(q, shards[i], k) ==> Visible(q, shards[i], k)
    {
    }
  }

  ghost predicate Wanted(q: Query, m: Entries, k: Bytes) {
    k in m && (m[k].expiry.Some? ==> q.now < m[k].expiry.value) && q.keep(k, m[k]) && Glob.Matches(q.pattern, k, 0, 0)
  }

  /** `page` is the first `count` matches above the cursor, in order, and `next` where to resume; 0 when done. */
  ghost predicate IsPage(S: iset<Stamped>, cursor: nat, count: nat, page: seq<Stamped>, next: nat) {
    && count > 0 && |page| <= count && Ascending(page)
    && (forall x :: x in page ==> x in S && x.at > cursor)
    && (|page| < count ==> next == 0 && forall x :: x in S && x.at > cursor ==> x in page)
    && (|page| == count ==>
          next == page[count - 1].at && forall x :: x in S && x.at > cursor && x !in page ==> Before(page[count - 1], x))
  }

  /** The visible keys of one shard above `floor`, in order. */
  method Batch(q: Query, m: Entries, floor: nat) returns (batch: seq<Stamped>)
    ensures Ascending(batch)
    ensures forall x :: x in batch <==> x == Stamp(q, x.key) && Visible(q, m, x.key) && x.at > floor
  {
    var found: set<Stamped> := {};
    var rest := m.Keys;
    while rest != {}
      invariant rest <= m.Keys
      invariant forall x :: x in found <==> x == Stamp(q, x.key) && Visible(q, m, x.key) && x.at > floor && x.key !in rest
      decreases |rest|
    {
      var k :| k in rest;
      var matched := Glob.GlobMatch(q.pattern, k);
      if !Expired(m[k], q.now) && matched && q.keep(k, m[k]) && Stamp(q, k).at > floor {
        found := found + {Stamp(q, k)};
      }
      rest := rest - {k};
    }
    batch := InOrder(found);
  }

  /** What the walk has collected before `step`: every match above the cursor whose shard is done. */
  ghost predicate Collected(q: Query, shards: seq<Entries>, bits: nat, cursor: nat, got: seq<Stamped>, step: nat)
    requires bits <= 64
  {
    Ascending(got) &&
    forall x :: x in got <==> Matches(q, shards, x) && x.at > cursor && StepOf(x.at, bits) < step
  }

  /** One SCAN page. */
  method ScanPage(q: Query, shards: seq<Entries>, bits: nat, cursor: nat, count: nat)
    returns (page: seq<Bytes>, next: nat)
    requires Is64Bit(q.hash) && 1 <= bits <= 32 && Routed(shards, q.hash, bits) && cursor < Pow2(64)
    ensures IsPage(AllMatches(q, shards), cursor, if count == 0 then 1 else count, Stamps(q, page), next)
  {
    var limit := if count == 0 then 1 else count;
    var start := if cursor == 0 then 0 else StepOf(cursor, bits);
    var got: seq<Stamped> := [];
    ShrBound(cursor, bits, 64 - bits);
    NothingBefore(q, shards, bits, cursor, start);
    var step := start;
    while step < Pow2(bits)
      invariant start <= step <= Pow2(bits) && |got| < limit
      invariant Collected(q, shards, bits, cursor, got, step)
    {
      LaterShards(q, shards, bits, cursor, step);
      var batch := Batch(q, shards[ShardForStep(step, bits)], if step == start then cursor else 0);
      CollectedGrows(q, shards, bits, cursor, got, step, batch);
      if |got| + |batch| >= limit {
        var full := got + batch;
        PageFull(q, shards, bits, cursor, full, step + 1, limit);
        StampsOfKeys(q, full[..limit]);
        return KeysOf(full[..limit]), full[limit - 1].at;
      }
      got := got + batch;
      step := step + 1;
    }
    AllCollected(q, shards, bits, cursor, got);
    StampsOfKeys(q, got);
    page, next := KeysOf(got), 0;
  }

  lemma StampsOfKeys(q: Query, s: seq<Stamped>)
    requires forall x :: x in s ==> x == Stamp(q, x.key)
    ensures Stamps(q, KeysOf(s)) == s
  {
    forall i | 0 <= i < |s| ensures Stamps(q, KeysOf(s))[i] == s[i] {
      KeysOfAt(s, i);
      assert s[i] in s;
    }
  }

  lemma MatchRange(q: Query, shards: seq<Entries>, bits: nat, x: Stamped)
    requires Is64Bit(q.hash) && bits <= 32 && Matches(q, shards, x)
    ensures 0 < x.at && StepOf(x.at, bits) < Pow2(bits)
  {
    OrderKeyRange(q.hash, x.key);
    OrderKeyStep(q.hash, x.key, bits);
  }

  /** Shards before the cursor's hold nothing above it. */
  lemma NothingBefore(q: Query, shards: seq<Entries>, bits: nat, cursor: nat, start: nat)
    requires Is64Bit(q.hash) && bits <= 32 && start == (if cursor == 0 then 0 else StepOf(cursor, bits))
    ensures Collected(q, shards, bits, cursor, [], start)
  {
    forall x: Stamped | x.at > cursor ensures StepOf(x.at, bits) >= start {
      ShrMonotone(cursor, x.at, 64 - bits);
    }
  }

  /** The shard visited at `step` holds exactly the matches of that step; past the cursor's shard all are above it. */
  lemma LaterShards(q: Query, shards: seq<Entries>, bits: nat, cursor: nat, step: nat)
    requires Is64Bit(q.hash) && bits <= 32 && Routed(shards, q.hash, bits) && step < Pow2(bits)
    requires step >= (if cursor == 0 then 0 else StepOf(cursor, bits))
    ensures ShardForStep(step, bits) < |shards|
    ensures forall x: Stamped :: x == Stamp(q, x.key) && Visible(q, shards[ShardForStep(step, bits)], x.key) <==>
      Matches(q, shards, x) && StepOf(x.at, bits) == step
    ensures forall x :: Matches(q, shards, x) ==> x.at > 0
    ensures step > StepOf(cursor, bits) ==> forall x :: Matches(q, shards, x) && StepOf(x.at, bits) == step ==> x.at > cursor
  {
    StepVisitsShard(q.hash, [], bits, step);
    forall x: Stamped
      ensures x == Stamp(q, x.key) && Visible(q, shards[ShardForStep(step, bits)], x.key) <==>
        Matches(q, shards, x) && StepOf(x.at, bits) == step
      ensures Matches(q, shards, x) ==> x.at > 0
      ensures step > StepOf(cursor, bits) && StepOf(x.at, bits) == step ==> x.at > cursor
    {
      StepVisitsShard(q.hash, x.key, bits, step);
      OrderKeyRange(q.hash, x.key);
      if x.at <= cursor { ShrMonotone(x.at, cursor, 64 - bits); }
    }
  }

  /** Earlier shards' matches all come before the new batch, so the concatenation is in order. */
  lemma CollectedGrows(q: Query, shards: seq<Entries>, bits: nat, cursor: nat, got: seq<Stamped>, step: nat, batch: seq<Stamped>)
    requires bits <= 64 && Collected(q, shards, bits, cursor, got, step) && Ascending(batch)
    requires forall x :: x in batch <==> Matches(q, shards, x) && x.at > cursor && StepOf(x.at, bits) == step
    ensures Collected(q, shards, bits, cursor, got + batch, step + 1)
  {
    forall i, j | 0 <= i < j < |got + batch| ensures Before((got + batch)[i], (got + batch)[j]) {
      if i < |got| <= j {
        var x, y := got[i], batch[j - |got|];
        assert x in got && y in batch;
        if y.at <= x.at { ShrMonotone(y.at, x.at, 64 - bits); }
      }
    }
  }

  /** A page that fills up leaves only later matches behind. */
  lemma PageFull(q: Query, shards: seq<Entries>, bits: nat, cursor: nat, full: seq<Stamped>, step: nat, limit: nat)
    requires bits <= 64 && Collected(q, shards, bits, cursor, full, step) && 0 < limit <= |full|
    ensures IsPage(AllMatches(q, shards), cursor, limit, full[..limit], full[limit - 1].at)
  {
    var page := full[..limit];
    forall x | x in page ensures x in full {
    }
    forall x | Matches(q, shards, x) && x.at > cursor && x !in page ensures Before(page[limit - 1], x) {
      if StepOf(x.at, bits) < step {
        var j :| 0 <= j < |full| && full[j] == x;
        assert x in full[..limit] || limit <= j;
      } else {
        assert full[limit - 1] in full;
        if x.at <= full[limit - 1].at { ShrMonotone(x.at, full[limit - 1].at, 64 - bits); }
      }
    }
  }

  lemma AllCollected(q: Query, shards: seq<Entries>, bits: nat, cursor: nat, got: seq<Stamped>)
    requires Is64Bit(q.hash) && bits <= 32 && Collected(q, shards, bits, cursor, got, Pow2(bits))
    ensures forall x :: Matches(q, shards, x) && x.at > cursor ==> x in got
  {
    forall x | Matches(q, shards, x) && x.at > cursor ensures x in got {
      MatchRange(q, shards, bits, x);
    }
  }

  // ---- A whole iteration ----

  /** One call of an iteration: the matches it saw, its cursor and COUNT, and what it answered. */
  datatype Call = Call(S: iset<Stamped>, cursor: nat, count: nat, page: seq<Stamped>, next: nat)

  /** Cursor 0 first, then each call resumes where the last one stopped, until one answers 0. */
  ghost predicate Iteration(calls: seq<Call>) {
    && |calls| > 0 && calls[0].cursor == 0 && calls[|calls| - 1].next == 0
    && (forall i :: 0 <= i < |calls| ==> IsPage(calls[i].S, calls[i].cursor, calls[i].count, calls[i].page, calls[i].next))
    && (forall i :: 0 < i < |calls| ==> calls[i].cursor == calls[i - 1].next && calls[i].cursor != 0)
  }

  lemma NextAboveCursor(c: Call)
    requires IsPage(c.S, c.cursor, c.count, c.page, c.next) && c.next != 0
    ensures c.cursor < c.next
    ensures forall x :: x in c.page ==> c.cursor < x.at <= c.next
  {
    assert c.page[c.count - 1] in c.page;
    forall x | x in c.page ensures c.cursor < x.at <= c.next {
      var j :| 0 <= j < |c.page| && c.page[j] == x;
      assert j < c.count - 1 ==> Before(c.page[j], c.page[c.count - 1]);
    }
  }

  /** Cursors only climb, and pages stay between their cursors. */
  lemma {:induction false} CursorsClimb(calls: seq<Call>, i: nat, j: nat)
    requires Iteration(calls) && i < j < |calls|
    ensures calls[i].next != 0 && calls[i].next <= calls[j].cursor
    ensures forall x :: x in calls[i].page ==> x.at <= calls[j].cursor
    ensures forall x :: x in calls[j].page ==> x.at > calls[j].cursor
    decreases j - i
  {
    assert calls[i + 1].cursor == calls[i].next;
    NextAboveCursor(calls[i]);
    if i + 1 < j {
      CursorsClimb(calls, i + 1, j);
      NextAboveCursor(calls[i + 1]);
    }
  }

  /** No key is ever returned twice, by two calls or by one. */
  lemma ReturnedAtMostOnce(calls: seq<Call>, x: Stamped, i: nat, a: nat, j: nat, b: nat)
    requires Iteration(calls) && i < |calls| && j < |calls| && a < |calls[i].page| && b < |calls[j].page|
    requires calls[i].page[a] == x && calls[j].page[b] == x
    ensures i == j && a == b
  {
    if i < j { CursorsClimb(calls, i, j); }
    if j < i { CursorsClimb(calls, j, i); }
    BeforeIrreflexive(x);
  }

  /** No match of the call has the same order key and a smaller name. */
  ghost predicate Foremost(S: iset<Stamped>, x: Stamped) {
    forall y :: y in S && y.at == x.at ==> !Before(y, x)
  }

  /**
   A key that matches in every call and is the foremost of those with its order key is returned by
   exactly one call, whatever other keys come and go and however the shard count changes.
   */
  lemma ReturnedExactlyOnce(calls: seq<Call>, x: Stamped) returns (i: nat)
    requires Iteration(calls) && x.at > 0
    requires forall j :: 0 <= j < |calls| ==> x in calls[j].S && Foremost(calls[j].S, x)
    ensures i < |calls| && x in calls[i].page
    ensures forall j :: 0 <= j < |calls| && j != i ==> x !in calls[j].page
  {
    i := 0;
    while i + 1 < |calls| && calls[i].next < x.at
      invariant i < |calls| && calls[i].cursor < x.at
    {
      i := i + 1;
    }
    var c := calls[i];
    assert c.page == [] || c.page[|c.page| - 1] in c.page;
    forall j | 0 <= j < |calls| && j != i ensures x !in calls[j].page {
      if x in calls[j].page {
        var a :| 0 <= a < |c.page| && c.page[a] == x;
        var b :| 0 <= b < |calls[j].page| && calls[j].page[b] == x;
        ReturnedAtMostOnce(calls, x, i, a, j, b);
      }
    }
  }

  // ---- A store that does not change ----

  ghost function Listed(l: seq<Stamped>): iset<Stamped> {
    iset x | x in l
  }

  /** All calls see the same matches, listed in order by `l`. */
  ghost predicate Over(calls: seq<Call>, l: seq<Stamped>) {
    forall i :: 0 <= i < |calls| ==> calls[i].S == Listed(l)
  }

  ghost predicate Returned(calls: seq<Call>, x: Stamped) {
    exists i :: 0 <= i < |calls| && x in calls[i].page
  }

  /** The matches above a cursor. */
  ghost function Above(l: seq<Stamped>, cursor: nat): set<Stamped> {
    set x | x in l && x.at > cursor
  }

  lemma ClimbShrinks(l: seq<Stamped>, c: Call)
    requires c.S == Listed(l) && IsPage(c.S, c.cursor, c.count, c.page, c.next) && c.next != 0
    ensures |Above(l, c.next)| < |Above(l, c.cursor)|
  {
    var last := c.page[c.count - 1];
    assert last in c.page && last in c.S;
    NextAboveCursor(c);
    assert Above(l, c.next) <= Above(l, c.cursor) - {last};
    SubsetSize(Above(l, c.next), Above(l, c.cursor) - {last});
  }

  lemma {:induction false} AboveBounded(l: seq<Stamped>, cursor: nat)
    ensures |Above(l, cursor)| <= |l|
  {
    if l != [] {
      AboveBounded(l[1..], cursor);
      assert Above(l, cursor) <= Above(l[1..], cursor) + {l[0]};
      SubsetSize(Above(l, cursor), Above(l[1..], cursor) + {l[0]});
    }
  }

  lemma {:induction false} ChainShrinks(l: seq<Stamped>, calls: seq<Call>, cursor: nat)
    requires Chained(calls, cursor) && Over(calls, l) && (calls != [] ==> cursor != 0)
    ensures |calls| + |Above(l, cursor)| <= |Above(l, 0)|
    decreases |calls|
  {
    if calls != [] {
      var n := |calls| - 1;
      assert Chained(calls[..n], calls[n].cursor);
      ChainShrinks(l, calls[..n], calls[n].cursor);
      ClimbShrinks(l, calls[n]);
    }
  }

  /**
   Over a store that does not change, a scan ends: after more calls than there are matches, the
   cursor has come back as 0.
   */
  lemma UnchangedScanEnds(l: seq<Stamped>, calls: seq<Call>, cursor: nat)
    requires Chained(calls, cursor) && Over(calls, l) && |calls| > |l|
    ensures cursor == 0
  {
    AboveBounded(l, 0);
    if cursor != 0 { ChainShrinks(l, calls, cursor); }
  }

  /** The iteration whose first page ends just before number `p` of the listing. */
  ghost function CutBefore(l: seq<Stamped>, p: nat): seq<Call>
    requires 0 < p < |l|
  {
    [Call(Listed(l), 0, p, l[..p], l[p - 1].at),
     Call(Listed(l), l[p - 1].at, |l| + 1, Tail(l, p), 0)]
  }

  /** What follows number `p` with a larger order key than its predecessor. */
  ghost function Tail(l: seq<Stamped>, p: nat): seq<Stamped>
    requires 0 < p <= |l|
    decreases |l| - p
  {
    if p == |l| then [] else if l[p].at > l[p - 1].at then l[p..] else Tail(l, p + 1)
  }

  lemma LaterIndex(l: seq<Stamped>, i: nat, p: nat)
    requires Ascending(l) && i < |l| && 0 < p <= |l| && l[i].at > l[p - 1].at
    ensures p <= i
  {
  }

  lemma {:induction false} TailIs(l: seq<Stamped>, p: nat)
    requires Ascending(l) && 0 < p <= |l|
    ensures |Tail(l, p)| <= |l| - p && Ascending(Tail(l, p))
    ensures forall x :: x in Tail(l, p) <==> x in l && x.at > l[p - 1].at
    decreases |l| - p
  {
    if p == |l| {
      forall x | x in l ensures x.at <= l[p - 1].at {
        var i :| 0 <= i < |l| && l[i] == x;
        assert i < p - 1 ==> Before(l[i], l[p - 1]);
      }
    } else if l[p].at > l[p - 1].at {
      forall x | x in l[p..] ensures x.at > l[p - 1].at {
        var j :| 0 <= j < |l[p..]| && l[p..][j] == x;
        assert j > 0 ==> Before(l[p], l[p + j]);
      }
      forall x | x in l && x.at > l[p - 1].at ensures x in l[p..] {
        var i :| 0 <= i < |l| && l[i] == x;
        LaterIndex(l, i, p);
        assert l[p..][i - p] == x;
      }
    } else {
      assert Before(l[p - 1], l[p]);
      TailIs(l, p + 1);
    }
  }

  lemma CutIsIteration(l: seq<Stamped>, p: nat)
    requires Ascending(l) && 0 < p < |l| && forall x :: x in l ==> x.at > 0
    ensures Iteration(CutBefore(l, p)) && Over(CutBefore(l, p), l)
  {
    var c := CutBefore(l, p);
    TailIs(l, p);
    assert l[p - 1] in l;
    FirstPage(l, p);
    assert IsPage(c[1].S, c[1].cursor, c[1].count, c[1].page, c[1].next);
  }

  lemma FirstPage(l: seq<Stamped>, p: nat)
    requires Ascending(l) && 0 < p < |l| && forall x :: x in l ==> x.at > 0
    ensures IsPage(Listed(l), 0, p, l[..p], l[p - 1].at)
  {
    assert forall i :: 0 <= i < p ==> l[i] in l[..p];
    forall x | x in l && x !in l[..p] ensures Before(l[p - 1], x) {
      var i :| 0 <= i < |l| && l[i] == x;
    }
  }

  /**
   The exact condition: over a store that does not change, every iteration returns `x` if and only
   if no match with the same order key has a smaller name.
   */
  lemma ReturnedAlwaysIff(l: seq<Stamped>, x: Stamped)
    requires Ascending(l) && x in l && forall y :: y in l ==> y.at > 0
    ensures (forall calls :: Iteration(calls) && Over(calls, l) ==> Returned(calls, x)) <==> Foremost(Listed(l), x)
  {
    if Foremost(Listed(l), x) {
      forall calls | Iteration(calls) && Over(calls, l) ensures Returned(calls, x) {
        var i := ReturnedExactlyOnce(calls, x);
      }
    } else {
      var calls := SkippingIteration(l, x);
    }
  }

  lemma SkippingIteration(l: seq<Stamped>, x: Stamped) returns (calls: seq<Call>)
    requires Ascending(l) && x in l && (forall y :: y in l ==> y.at > 0) && !Foremost(Listed(l), x)
    ensures Iteration(calls) && Over(calls, l) && !Returned(calls, x)
  {
    var y :| y in Listed(l) && y.at == x.at && Before(y, x);
    var p :| 0 <= p < |l| && l[p] == x;
    var q :| 0 <= q < |l| && l[q] == y;
    if q > p { BeforeTransitive(x, y, x); }
    BeforeIrreflexive(x);
    assert q < p;
    assert q < p - 1 ==> Before(l[q], l[p - 1]);
    assert Before(l[p - 1], l[p]);
    assert l[p - 1].at == x.at;
    calls := CutBefore(l, p);
    CutIsIteration(l, p);
    TailIs(l, p);
    forall i | 0 <= i < p ensures l[i] != x {
      assert Before(l[i], l[p]);
    }
  }

  // ---- The client's loop ----

  /** The store as one call of an iteration finds it; keys, clock and shard count may differ from call to call. */
  datatype Sight = Sight(shards: seq<Entries>, bits: nat, now: nat, count: nat)

  ghost predicate Scannable(q: Query, s: Sight) {
    1 <= s.bits <= 32 && Routed(s.shards, q.hash, s.bits)
  }

  /** The key matches in this call and is the foremost of those with its order key. */
  ghost predicate Shown(q: Query, s: Sight, k: Bytes) {
    var S := AllMatches(q.(now := s.now), s.shards);
    Stamp(q, k) in S && Foremost(S, Stamp(q, k))
  }

  ghost predicate Answered(q: Query, s: Sight, c: Call, page: seq<Bytes>) {
    && c.S == AllMatches(q.(now := s.now), s.shards) && c.page == Stamps(q, page)
    && IsPage(c.S, c.cursor, c.count, c.page, c.next)
  }

  /** `k` occurs in exactly one page, at exactly one place. */
  ghost predicate OccursOnce(pages: seq<seq<Bytes>>, k: Bytes) {
    exists i, a :: 0 <= i < |pages| && 0 <= a < |pages[i]| && pages[i][a] == k &&
      forall j, b :: 0 <= j < |pages| && 0 <= b < |pages[j]| && pages[j][b] == k ==> j == i && b == a
  }

  lemma PageNames(q: Query, s: Sight, c: Call, page: seq<Bytes>, b: nat, k: Bytes)
    requires Answered(q, s, c, page) && b < |page|
    ensures |page| == |c.page| && (page[b] == k <==> c.page[b] == Stamp(q, k))
  {
  }

  lemma ShownOnce(q: Query, sights: seq<Sight>, calls: seq<Call>, pages: seq<seq<Bytes>>, k: Bytes)
    requires Is64Bit(q.hash) && Iteration(calls) && |calls| == |pages| == |sights|
    requires forall i :: 0 <= i < |calls| ==> Answered(q, sights[i], calls[i], pages[i]) && Shown(q, sights[i], k)
    ensures OccursOnce(pages, k)
  {
    var x := Stamp(q, k);
    OrderKeyRange(q.hash, k);
    var i := ReturnedExactlyOnce(calls, x);
    var a :| 0 <= a < |calls[i].page| && calls[i].page[a] == x;
    assert |pages[i]| == |calls[i].page|;
    PageNames(q, sights[i], calls[i], pages[i], a, k);
    forall j, b | 0 <= j < |pages| && 0 <= b < |pages[j]| && pages[j][b] == k ensures j == i && b == a {
      PageNames(q, sights[j], calls[j], pages[j], b, k);
      ReturnedAtMostOnce(calls, x, i, a, j, b);
    }
  }

  /** The calls made so far follow one another and the next one starts at `cursor`. */
  ghost predicate Chained(calls: seq<Call>, cursor: nat) {
    && (forall i :: 0 <= i < |calls| ==> IsPage(calls[i].S, calls[i].cursor, calls[i].count, calls[i].page, calls[i].next))
    && (forall i :: 0 < i < |calls| ==> calls[i].cursor == calls[i - 1].next && calls[i].cursor != 0)
    && (if calls == [] then cursor == 0 else calls[0].cursor == 0 && cursor == calls[|calls| - 1].next)
  }

  lemma ChainedNext(calls: seq<Call>, c: Call)
    requires Chained(calls, c.cursor) && IsPage(c.S, c.cursor, c.count, c.page, c.next) && (calls != [] ==> c.cursor != 0)
    ensures Chained(calls + [c], c.next)
  {
  }

  lemma ChainedDone(calls: seq<Call>)
    requires calls != [] && Chained(calls, 0)
    ensures Iteration(calls)
  {
  }

  /**
   A client calls SCAN until the cursor comes back as 0. When it does, every key that was shown in all
   the calls was returned exactly once, whatever else changed in between.
   */
  method ScanAll(q: Query, sights: seq<Sight>) returns (pages: seq<seq<Bytes>>, done: bool, ghost calls: seq<Call>)
    requires Is64Bit(q.hash) && forall i :: 0 <= i < |sights| ==> Scannable(q, sights[i])
    ensures Recorded(q, sights, calls, pages) && (!done ==> |pages| == |sights|)
    ensures Chained(calls, if calls == [] then 0 else calls[|calls| - 1].next)
    ensures done <==> calls != [] && calls[|calls| - 1].next == 0
    ensures done ==> forall k ::
      (forall i :: 0 <= i < |pages| ==> Shown(q, sights[i], k)) ==> OccursOnce(pages, k)
  {
    var cursor: nat := 0;
    pages, done, calls := [], false, [];
    while |pages| < |sights| && !done
      invariant cursor < Pow2(64) && Chained(calls, cursor) && Recorded(q, sights, calls, pages)
      invariant done <==> calls != [] && cursor == 0
      decreases |sights| - |pages|
    {
      var page, next, c := OneCall(q, sights[|pages|], cursor);
      ChainedNext(calls, c);
      RecordedNext(q, sights, calls, pages, c, page);
      calls, pages := calls + [c], pages + [page];
      cursor, done := next, next == 0;
    }
    if done {
      ChainedDone(calls);
      AllShownOnce(q, sights, calls, pages);
    }
  }

  method OneCall(q: Query, s: Sight, cursor: nat) returns (page: seq<Bytes>, next: nat, ghost c: Call)
    requires Is64Bit(q.hash) && Scannable(q, s) && cursor < Pow2(64)
    ensures Answered(q, s, c, page) && c.cursor == cursor && c.next == next < Pow2(64)
  {
    page, next := ScanPage(q.(now := s.now), s.shards, s.bits, cursor, s.count);
    c := Call(AllMatches(q.(now := s.now), s.shards), cursor, if s.count == 0 then 1 else s.count, Stamps(q, page), next);
    assert Stamps(q, page) == Stamps(q.(now := s.now), page);
    NextInRange(q, s, c);
  }

  /** Each page so far answers its call. */
  ghost predicate Recorded(q: Query, sights: seq<Sight>, calls: seq<Call>, pages: seq<seq<Bytes>>) {
    |pages| == |calls| <= |sights| &&
    forall i :: 0 <= i < |pages| ==> Answered(q, sights[i], calls[i], pages[i])
  }

  lemma RecordedNext(q: Query, sights: seq<Sight>, calls: seq<Call>, pages: seq<seq<Bytes>>, c: Call, page: seq<Bytes>)
    requires Recorded(q, sights, calls, pages) && |pages| < |sights| && Answered(q, sights[|pages|], c, page)
    ensures Recorded(q, sights, calls + [c], pages + [page])
  {
  }

  lemma AllShownOnce(q: Query, sights: seq<Sight>, calls: seq<Call>, pages: seq<seq<Bytes>>)
    requires Is64Bit(q.hash) && Iteration(calls) && Recorded(q, sights, calls, pages)
    ensures forall k :: (forall i :: 0 <= i < |pages| ==> Shown(q, sights[i], k)) ==> OccursOnce(pages, k)
  {
    forall k | forall i :: 0 <= i < |pages| ==> Shown(q, sights[i], k) ensures OccursOnce(pages, k) {
      ShownOnce(q, sights[..|pages|], calls, pages, k);
    }
  }

  lemma NextInRange(q: Query, s: Sight, c: Call)
    requires Is64Bit(q.hash) && c.S == AllMatches(q.(now := s.now), s.shards)
    requires IsPage(c.S, c.cursor, c.count, c.page, c.next)
    ensures c.next < Pow2(64)
  {
    OrderKeyRange(q.hash, []);
    if c.next != 0 {
      var x := c.page[c.count - 1];
      assert x in c.page && x == Stamp(q, x.key);
      OrderKeyRange(q.hash, x.key);
    }
  }
}

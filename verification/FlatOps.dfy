/**
 The multi-key operations on one flat map: the reference the sharded store is compared with,
 and the single-shard steps the sharded operations are made of.
 */
module FlatOps {
  import opened ByteStrings
  import opened Packed
  import opened Keyspace
  import opened ShardStore
  import opened Routing

  /** `m` with `k` set to `o`, or removed. */
  function With(m: Entries, k: Bytes, o: Option<Entry>): Entries {
    match o
    case Some(e) => m[k := e]
    case None => m - {k}
  }

  function Find(m: Entries, k: Bytes): Option<Entry> {
    if k in m then Some(m[k]) else None
  }

  lemma FindWith(m: Entries, k: Bytes, o: Option<Entry>, j: Bytes)
    ensures Find(With(m, k, o), j) == if j == k then o else Find(m, j)
  {
  }

  lemma SameFinds(m: Entries, m': Entries)
    requires forall j :: Find(m, j) == Find(m', j)
    ensures m == m'
  {
    forall j ensures j in m <==> j in m'
      ensures j in m ==> m[j] == m'[j]
    {
      assert Find(m, j) == Find(m', j);
    }
  }

  /** The same entry, up to the LRU stamp that reads refresh. */
  predicate SameValue(a: Option<Entry>, b: Option<Entry>) {
    if a.None? then b.None? else b.Some? && b.value == a.value.(lru := b.value.lru)
  }

  function RenameFlat(m: Entries, src: Bytes, dst: Bytes): Entries {
    if src in m then (m - {src})[dst := m[src]] else m
  }

  /** `contains_key`: drops an expired key, refreshes the LRU stamp of a live one. */
  function Probed(m: Entries, k: Bytes, now: nat, lru: nat): Entries {
    With(m, k, Refreshed(Live(m, k, now), lru))
  }

  function Refreshed(o: Option<Entry>, lru: nat): Option<Entry> {
    match o
    case Some(e) => Some(e.(lru := lru))
    case None => None
  }

  function RenameNxFlat(m: Entries, src: Bytes, dst: Bytes, now: nat, lru: nat): (Entries, Option<nat>) {
    var m1 := Probed(m, dst, now, lru);
    if dst in m1 then (m1, Some(0))
    else if src !in m1 then (m1, None)
    else (RenameFlat(m1, src, dst), Some(1))
  }

  function CopyFlat(m: Entries, src: Bytes, dst: Bytes, replace: bool, now: nat, lru: nat): (Entries, bool) {
    var m1 := if replace then m else Probed(m, dst, now, lru);
    if !replace && dst in m1 then (m1, false)
    else
      var m2 := Probed(m1, src, now, lru);
      if src !in m2 then (m2, false) else (m2[dst := m2[src]], true)
  }

  // ---- LMOVE ----

  datatype MoveReply = Moved(v: Bytes) | Nothing | WrongKind

  /** What a pop leaves of a list entry; an emptied list is deleted. */
  function AfterPop(e: Entry, fromLeft: bool): (r: (Bytes, Option<Entry>))
    requires e.value.List? && e.value.items != []
  {
    var s := e.value.items;
    var v, rest := if fromLeft then s[0] else s[|s| - 1], if fromLeft then s[1..] else s[..|s| - 1];
    (v, if rest == [] then None else Some(e.(value := List(rest))))
  }

  /** The list entry with `v` pushed; a missing list is created without a deadline. */
  function AfterPush(o: Option<Entry>, v: Bytes, toLeft: bool, lru: nat): Entry
    requires o.Some? ==> o.value.value.List?
  {
    match o
    case Some(e) => e.(lru := lru, value := List(Pushed(e.value.items, v, toLeft)))
    case None => NewEntry(List([v]))
  }

  function Pushed(s: seq<Bytes>, v: Bytes, toLeft: bool): seq<Bytes> {
    if toLeft then [v] + s else s + [v]
  }

  predicate ListOrMissing(o: Option<Entry>) {
    o.Some? ==> o.value.value.List?
  }

  /** What a pop answers, and what it leaves at the key. */
  function TakeOutcome(live: Option<Entry>, fromLeft: bool): (MoveReply, Option<Entry>) {
    match live
    case None => (Nothing, None)
    case Some(e) =>
      if !e.value.List? then (WrongKind, Some(e))
      else if e.value.items == [] then (Nothing, Some(e))
      else (Moved(AfterPop(e, fromLeft).0), AfterPop(e, fromLeft).1)
  }

  lemma StillListOrMissing(m: Entries, src: Bytes, dst: Bytes, fromLeft: bool, now: nat)
    requires ListOrMissing(Live(m, dst, now))
    ensures ListOrMissing(Live(With(m, src, TakeOutcome(Live(m, src, now), fromLeft).1), dst, now))
  {
  }

  /** LMOVE: the destination's kind is checked before anything is popped. */
  function LMoveFlat(m: Entries, src: Bytes, dst: Bytes, fromLeft: bool, toLeft: bool, now: nat, lru: nat): (Entries, MoveReply) {
    if !ListOrMissing(Live(m, dst, now)) then (m, WrongKind)
    else
      var (r, left) := TakeOutcome(Live(m, src, now), fromLeft);
      var m1 := With(m, src, left);
      assert ListOrMissing(Live(m1, dst, now)) by { StillListOrMissing(m, src, dst, fromLeft, now); }
      if r.Moved? then (m1[dst := AfterPush(Live(m1, dst, now), r.v, toLeft, lru)], r) else (m1, r)
  }

  /** The elements a reader finds at `k`. */
  function Elements(m: Entries, k: Bytes, now: nat): seq<Bytes> {
    match Live(m, k, now)
    case Some(e) => if e.value.List? then e.value.items else []
    case None => []
  }

  /** A move that does not happen changes no live value; no third key is touched. */
  lemma LMoveFrame(m: Entries, src: Bytes, dst: Bytes, fromLeft: bool, toLeft: bool, now: nat, lru: nat)
    ensures var (m', r) := LMoveFlat(m, src, dst, fromLeft, toLeft, now, lru);
      && (!r.Moved? ==> forall k :: Live(m', k, now) == Live(m, k, now))
      && (forall k :: k != src && k != dst ==> Find(m', k) == Find(m, k))
  {
  }

  /** `v` left one end of the list at `src` and arrived at one end of the list at `dst`. */
  ghost predicate ElementMoved(m: Entries, m': Entries, src: Bytes, dst: Bytes, fromLeft: bool, toLeft: bool, now: nat, v: Bytes) {
    var s := Elements(m, src, now);
    && s != []
    && v == (if fromLeft then s[0] else s[|s| - 1])
    && (src != dst ==>
         && Elements(m', src, now) == (if fromLeft then s[1..] else s[..|s| - 1])
         && Elements(m', dst, now) == Pushed(Elements(m, dst, now), v, toLeft))
    && (src == dst ==> Elements(m', src, now) == Pushed(if fromLeft then s[1..] else s[..|s| - 1], v, toLeft))
  }

  /** Exactly which elements the two lists hold after a move. */
  lemma LMoveElements(m: Entries, src: Bytes, dst: Bytes, fromLeft: bool, toLeft: bool, now: nat, lru: nat)
    requires LMoveFlat(m, src, dst, fromLeft, toLeft, now, lru).1.Moved?
    ensures var (m', r) := LMoveFlat(m, src, dst, fromLeft, toLeft, now, lru);
      ElementMoved(m, m', src, dst, fromLeft, toLeft, now, r.v)
  {
    assert forall v: Bytes :: Pushed([], v, toLeft) == [v];
  }

  /** The two lists, or the one list, hold the same elements in `m'` as in `m`. */
  ghost predicate SameElements(m: Entries, m': Entries, src: Bytes, dst: Bytes, now: nat) {
    if src == dst then multiset(Elements(m', src, now)) == multiset(Elements(m, src, now))
    else
      multiset(Elements(m', src, now)) + multiset(Elements(m', dst, now))
      == multiset(Elements(m, src, now)) + multiset(Elements(m, dst, now))
  }

  /** LMOVE loses and invents nothing. */
  lemma LMoveConserves(m: Entries, src: Bytes, dst: Bytes, fromLeft: bool, toLeft: bool, now: nat, lru: nat)
    requires LMoveFlat(m, src, dst, fromLeft, toLeft, now, lru).1.Moved?
    ensures SameElements(m, LMoveFlat(m, src, dst, fromLeft, toLeft, now, lru).0, src, dst, now)
  {
    var (m', r) := LMoveFlat(m, src, dst, fromLeft, toLeft, now, lru);
    LMoveElements(m, src, dst, fromLeft, toLeft, now, lru);
    MovedConserves(m, m', src, dst, fromLeft, toLeft, now, r.v);
  }

  lemma MovedConserves(m: Entries, m': Entries, src: Bytes, dst: Bytes, fromLeft: bool, toLeft: bool, now: nat, v: Bytes)
    requires ElementMoved(m, m', src, dst, fromLeft, toLeft, now, v)
    ensures SameElements(m, m', src, dst, now)
  {
    if src == dst {
      RotateParts(Elements(m, src, now), fromLeft, toLeft);
    } else {
      MoveParts(Elements(m, src, now), Elements(m, dst, now), fromLeft, toLeft);
    }
  }

  lemma MoveParts(s: seq<Bytes>, d: seq<Bytes>, fromLeft: bool, toLeft: bool)
    requires s != []
    ensures fromLeft ==> multiset(s[1..]) + multiset(Pushed(d, s[0], toLeft)) == multiset(s) + multiset(d)
    ensures !fromLeft ==> multiset(s[..|s| - 1]) + multiset(Pushed(d, s[|s| - 1], toLeft)) == multiset(s) + multiset(d)
  {
    PopParts(s, fromLeft);
    PushParts(d, if fromLeft then s[0] else s[|s| - 1], toLeft);
  }

  lemma RotateParts(s: seq<Bytes>, fromLeft: bool, toLeft: bool)
    requires s != []
    ensures fromLeft ==> multiset(Pushed(s[1..], s[0], toLeft)) == multiset(s)
    ensures !fromLeft ==> multiset(Pushed(s[..|s| - 1], s[|s| - 1], toLeft)) == multiset(s)
  {
    PopParts(s, fromLeft);
    if fromLeft { PushParts(s[1..], s[0], toLeft); } else { PushParts(s[..|s| - 1], s[|s| - 1], toLeft); }
  }

  lemma PopParts(s: seq<Bytes>, fromLeft: bool)
    requires s != []
    ensures fromLeft ==> multiset(s) == multiset([s[0]]) + multiset(s[1..])
    ensures !fromLeft ==> multiset(s) == multiset([s[|s| - 1]]) + multiset(s[..|s| - 1])
  {
    assert s == [s[0]] + s[1..] && s == s[..|s| - 1] + [s[|s| - 1]];
  }

  lemma PushParts(s: seq<Bytes>, v: Bytes, toLeft: bool)
    ensures multiset(Pushed(s, v, toLeft)) == multiset(s) + multiset([v])
  {
  }

  /** Rotating a list onto itself keeps its deadline exactly when it had none or the list has two elements or more. */
  lemma RotateKeepsDeadline(m: Entries, k: Bytes, fromLeft: bool, toLeft: bool, now: nat, lru: nat)
    requires LMoveFlat(m, k, k, fromLeft, toLeft, now, lru).1.Moved?
    ensures var m' := LMoveFlat(m, k, k, fromLeft, toLeft, now, lru).0;
      k in m' && (m'[k].expiry == m[k].expiry <==> m[k].expiry.None? || |m[k].value.items| >= 2)
  {
  }

  /** `get` on one shard. */
  method Probe(db: Database, k: Bytes, now: nat, lru: nat) returns (r: Option<Entry>)
    requires db.Valid()
    modifies db
    ensures db.Valid() && r == Refreshed(Live(old(db.entries), k, now), lru)
    ensures db.entries == With(old(db.entries), k, r)
  {
    r := db.Get(k, now, lru);
  }

  /** Writes what a removal leaves and reports the delta; deletes the key if nothing is left. */
  method Shrink(db: Database, k: Bytes, v: Value, delta: int, emptied: bool)
    requires db.Valid() && k in db.entries && delta == Payload(v) - Payload(db.entries[k].value)
    modifies db
    ensures db.Valid()
    ensures db.entries == With(old(db.entries), k, if emptied then None else Some(old(db.entries)[k].(value := v)))
  {
    db.Edit(k, v, delta);
    if emptied { var _ := db.Remove(k); }
  }

  /** Pops one end, reports the delta, and deletes the key if that emptied it. */
  method TakeEnd(db: Database, k: Bytes, fromLeft: bool, now: nat) returns (r: MoveReply, ghost o: Option<Entry>)
    requires db.Valid()
    modifies db
    ensures db.Valid() && db.entries == With(old(db.entries), k, o)
    ensures (r, o) == TakeOutcome(Live(old(db.entries), k, now), fromLeft)
  {
    var found := db.GetMut(k, now);
    o := found;
    if found.None? { return Nothing, None; }
    var e := found.value;
    if !e.value.List? { return WrongKind, o; }
    if e.value.items == [] { return Nothing, o; }
    var (v, left) := AfterPop(e, fromLeft);
    var rest := if left.Some? then left.value.value else List([]);
    TotalLenEnds(e.value.items);
    Shrink(db, k, rest, 0 - |v| as int, left.None?);
    r, o := Moved(v), left;
  }

  /** Writes what an addition leaves, reports the delta and moves the version once more. */
  method Grow(db: Database, k: Bytes, v: Value, delta: int)
    requires db.Valid() && k in db.entries && delta == Payload(v) - Payload(db.entries[k].value)
    modifies db
    ensures db.Valid() && db.entries == old(db.entries)[k := old(db.entries)[k].(value := v)]
  {
    db.Edit(k, v, delta);
    db.Touch(k);
  }

  /** Pushes onto a list, creating it if missing; the version moves once for the access and once for LMOVE. */
  method PutEnd(db: Database, k: Bytes, v: Bytes, toLeft: bool, now: nat, lru: nat)
    requires db.Valid() && ListOrMissing(Live(db.entries, k, now))
    modifies db
    ensures db.Valid() && db.entries == old(db.entries)[k := AfterPush(Live(old(db.entries), k, now), v, toLeft, lru)]
  {
    var e := db.GetOrInsertWith(k, NewEntry(List([])), now, lru);
    EncodeAppend(e.value.items, [v]);
    EncodeAppend([v], e.value.items);
    EncodeOne(v);
    assert Pushed([], v, toLeft) == [v];
    Grow(db, k, List(Pushed(e.value.items, v, toLeft)), |v|);
  }

  // ---- SMOVE ----

  datatype SMoveReply = MovedOne | MovedNone | NotASet

  /** The set with `x` taken out, or put in, and its byte total brought up to date. */
  function Without(c: CountedSet, x: Bytes): CountedSet
    requires x in c.members
  {
    SumLenSplit(c.members, x);
    Counted(c.members - {x}, c.bytes - |x|)
  }

  function Added(c: CountedSet, x: Bytes): CountedSet {
    if x in c.members then c
    else
      SumLenSplit(c.members + {x}, x);
      assert c.members + {x} - {x} == c.members;
      Counted(c.members + {x}, c.bytes + |x|)
  }

  function AfterTake(e: Entry, x: Bytes): Option<Entry>
    requires e.value.Set? && x in e.value.contents.members
  {
    var left := Without(e.value.contents, x);
    if left.members == {} then None else Some(e.(value := Set(left)))
  }

  function AfterAdd(o: Option<Entry>, x: Bytes, lru: nat): Entry
    requires o.Some? ==> o.value.value.Set?
  {
    match o
    case Some(e) => e.(lru := lru, value := Set(Added(e.value.contents, x)))
    case None => NewEntry(Set(Added(Counted({}, 0), x)))
  }

  function TakeMemberOutcome(live: Option<Entry>, x: Bytes): (SMoveReply, Option<Entry>) {
    match live
    case None => (MovedNone, None)
    case Some(e) =>
      if !e.value.Set? then (NotASet, Some(e))
      else if x !in e.value.contents.members then (MovedNone, Some(e))
      else (MovedOne, AfterTake(e, x))
  }

  predicate SetOrMissing(o: Option<Entry>) {
    o.Some? ==> o.value.value.Set?
  }

  lemma StillSetOrMissing(m: Entries, src: Bytes, dst: Bytes, x: Bytes, now: nat)
    requires SetOrMissing(Find(m, dst))
    ensures SetOrMissing(Live(With(m, src, TakeMemberOutcome(Live(m, src, now), x).1), dst, now))
  {
  }

  /** SMOVE looks at the destination's entry even when it has expired: an expired non-set is refused. */
  function SMoveFlat(m: Entries, src: Bytes, dst: Bytes, x: Bytes, now: nat, lru: nat): (Entries, SMoveReply) {
    if !SetOrMissing(Find(m, dst)) then (m, NotASet)
    else
      var (r, left) := TakeMemberOutcome(Live(m, src, now), x);
      var m1 := With(m, src, left);
      assert SetOrMissing(Live(m1, dst, now)) by { StillSetOrMissing(m, src, dst, x, now); }
      if r.MovedOne? then (m1[dst := AfterAdd(Live(m1, dst, now), x, lru)], r) else (m1, r)
  }

  function Members(m: Entries, k: Bytes, now: nat): set<Bytes> {
    match Live(m, k, now)
    case Some(e) => if e.value.Set? then e.value.contents.members else {}
    case None => {}
  }

  /** SMOVE moves exactly the member: it leaves the source, joins the destination, and nothing else changes. */
  lemma SMoveMoves(m: Entries, src: Bytes, dst: Bytes, x: Bytes, now: nat, lru: nat)
    requires SMoveFlat(m, src, dst, x, now, lru).1.MovedOne?
    ensures var m' := SMoveFlat(m, src, dst, x, now, lru).0;
      && x in Members(m, src, now)
      && (src != dst ==> Members(m', src, now) == Members(m, src, now) - {x})
      && Members(m', dst, now) == Members(m, dst, now) + {x}
  {
  }

  lemma SMoveFrame(m: Entries, src: Bytes, dst: Bytes, x: Bytes, now: nat, lru: nat)
    ensures var (m', r) := SMoveFlat(m, src, dst, x, now, lru);
      && (!r.MovedOne? ==> forall k :: Live(m', k, now) == Live(m, k, now))
      && (forall k :: k != src && k != dst ==> Find(m', k) == Find(m, k))
  {
  }

  /** An expired string at the destination is invisible to readers, yet SMOVE refuses it. */
  lemma ExpiredStringBlocksSMove(src: Bytes, dst: Bytes, x: Bytes)
    requires src != dst
    ensures var m := map[src := NewEntry(Set(Added(Counted({}, 0), x))), dst := Entry(Str([]), Some(1), 0)];
      Live(m, dst, 2) == None && SMoveFlat(m, src, dst, x, 2, 0) == (m, NotASet)
  {
  }

  /** The map without `k` if `k` has expired: what the code's own comment promises SMOVE to work on. */
  function WithoutExpired(m: Entries, k: Bytes, now: nat): Entries {
    if k in m && Expired(m[k], now) then m - {k} else m
  }

  /** The destination holds an expired value of another type. */
  predicate Blocked(m: Entries, dst: Bytes, now: nat) {
    dst in m && Expired(m[dst], now) && !m[dst].value.Set?
  }

  /** Exactly when SMOVE answers as if an expired destination were absent. */
  lemma SMoveReplyKeepsPromise(m: Entries, src: Bytes, dst: Bytes, x: Bytes, now: nat, lru: nat)
    ensures SMoveFlat(m, src, dst, x, now, lru).1 == SMoveFlat(WithoutExpired(m, dst, now), src, dst, x, now, lru).1
      <==> !Blocked(m, dst, now) || (Live(m, src, now).Some? && !Live(m, src, now).value.value.Set?)
  {
  }

  /** Exactly when SMOVE leaves the live values it would leave if an expired destination were absent. */
  lemma SMoveValuesKeepPromise(m: Entries, src: Bytes, dst: Bytes, x: Bytes, now: nat, lru: nat)
    ensures
      (forall k :: Live(SMoveFlat(m, src, dst, x, now, lru).0, k, now)
                   == Live(SMoveFlat(WithoutExpired(m, dst, now), src, dst, x, now, lru).0, k, now))
      <==> !Blocked(m, dst, now) || x !in Members(m, src, now)
  {
    var a, b := SMoveFlat(m, src, dst, x, now, lru).0, SMoveFlat(WithoutExpired(m, dst, now), src, dst, x, now, lru).0;
    if Blocked(m, dst, now) && x in Members(m, src, now) {
      assert Live(a, dst, now).None? && Live(b, dst, now).Some?;
    }
  }

  method TakeMember(db: Database, k: Bytes, x: Bytes, now: nat) returns (r: SMoveReply, ghost o: Option<Entry>)
    requires db.Valid()
    modifies db
    ensures db.Valid() && db.entries == With(old(db.entries), k, o)
    ensures (r, o) == TakeMemberOutcome(Live(old(db.entries), k, now), x)
  {
    var found := db.GetMut(k, now);
    o := found;
    if found.None? { return MovedNone, None; }
    var e := found.value;
    if !e.value.Set? { return NotASet, o; }
    if x !in e.value.contents.members { return MovedNone, o; }
    var left := Without(e.value.contents, x);
    Shrink(db, k, Set(left), 0 - |x| as int, left.members == {});
    r, o := MovedOne, AfterTake(e, x);
  }

  method AddMember(db: Database, k: Bytes, x: Bytes, now: nat, lru: nat)
    requires db.Valid() && SetOrMissing(Live(db.entries, k, now))
    modifies db
    ensures db.Valid() && db.entries == old(db.entries)[k := AfterAdd(Live(old(db.entries), k, now), x, lru)]
  {
    var e := db.GetOrInsertWith(k, NewEntry(Set(Counted({}, 0))), now, lru);
    var grown := Set(Added(e.value.contents, x));
    assert e.(value := grown) == AfterAdd(Live(old(db.entries), k, now), x, lru);
    Grow(db, k, grown, if x in e.value.contents.members then 0 else |x|);
  }

  // ---- MSET ----

  type Pairs = seq<(Bytes, Entry)>

  function PutAll(m: Entries, pairs: Pairs): Entries
    decreases |pairs|
  {
    if pairs == [] then m else PutAll(m[pairs[0].0 := pairs[0].1], pairs[1..])
  }

  /** `a` is `b` in some order. */
  ghost predicate Reorders(a: Pairs, b: Pairs) {
    multiset(a) == multiset(b)
  }

  /** Equal keys carry equal entries; in particular, keys that are all distinct do. */
  ghost predicate Agreeing(pairs: Pairs) {
    forall i, j :: 0 <= i < |pairs| && 0 <= j < |pairs| && pairs[i].0 == pairs[j].0 ==> pairs[i].1 == pairs[j].1
  }

  ghost predicate Names(pairs: Pairs, k: Bytes) {
    exists i :: 0 <= i < |pairs| && pairs[i].0 == k
  }

  /** `m'` is `m` after storing the pairs in some order. */
  ghost predicate StoredInSomeOrder(m: Entries, pairs: Pairs, m': Entries) {
    exists order :: Reorders(order, pairs) && m' == PutAll(m, order)
  }

  /** A named key ends up with one of its entries, every other key keeps what it had. */
  lemma {:induction false} PutAllPicks(m: Entries, pairs: Pairs, k: Bytes)
    ensures !Names(pairs, k) ==> Find(PutAll(m, pairs), k) == Find(m, k)
    ensures Names(pairs, k) ==>
      Find(PutAll(m, pairs), k).Some? && (k, Find(PutAll(m, pairs), k).value) in pairs
    decreases |pairs|
  {
    if pairs != [] {
      var n := |pairs| - 1;
      var front, p := pairs[..n], pairs[n];
      assert pairs == front + [p];
      PutAllSnoc(m, front, p);
      PutAllPicks(m, front, k);
      if p.0 != k {
        assert Names(pairs, k) <==> Names(front, k) by {
          if i :| 0 <= i < |pairs| && pairs[i].0 == k { assert front[i].0 == k; }
          if i :| 0 <= i < |front| && front[i].0 == k { assert pairs[i].0 == k; }
        }
      }
    }
  }

  lemma SameMembers(a: Pairs, b: Pairs)
    requires Reorders(a, b)
    ensures forall p :: p in a <==> p in b
  {
    forall p ensures p in a <==> p in b {
      assert p in a <==> p in multiset(a);
      assert p in b <==> p in multiset(b);
    }
  }

  lemma NamesSame(a: Pairs, b: Pairs, k: Bytes)
    requires Reorders(a, b)
    ensures Names(a, k) <==> Names(b, k)
  {
    SameMembers(a, b);
    if i :| 0 <= i < |a| && a[i].0 == k { assert a[i] in b; }
    if i :| 0 <= i < |b| && b[i].0 == k { assert b[i] in a; }
  }

  /** When equal keys carry equal entries, the order of the pairs does not matter. */
  lemma PutAllAnyOrder(m: Entries, a: Pairs, b: Pairs)
    requires Agreeing(b) && Reorders(a, b)
    ensures PutAll(m, a) == PutAll(m, b)
  {
    SameMembers(a, b);
    forall k ensures Find(PutAll(m, a), k) == Find(PutAll(m, b), k) {
      PutAllPicks(m, a, k);
      PutAllPicks(m, b, k);
      NamesSame(a, b, k);
    }
    SameFinds(PutAll(m, a), PutAll(m, b));
  }

  /** The pairs with number `i` moved to the end. */
  function MovedLast(pairs: Pairs, i: nat): Pairs
    requires i < |pairs|
  {
    pairs[..i] + pairs[i + 1..] + [pairs[i]]
  }

  lemma MovedLastStores(m: Entries, pairs: Pairs, i: nat)
    requires i < |pairs|
    ensures Reorders(MovedLast(pairs, i), pairs)
    ensures Find(PutAll(m, MovedLast(pairs, i)), pairs[i].0) == Some(pairs[i].1)
  {
    assert pairs == pairs[..i] + [pairs[i]] + pairs[i + 1..];
    PutAllSnoc(m, pairs[..i] + pairs[i + 1..], pairs[i]);
  }

  /** All orders of a batch store the same map exactly when equal keys carry equal entries. */
  lemma OrderIrrelevantIff(m: Entries, pairs: Pairs)
    ensures (forall order :: Reorders(order, pairs) ==> PutAll(m, order) == PutAll(m, pairs)) <==> Agreeing(pairs)
  {
    if Agreeing(pairs) {
      forall order | Reorders(order, pairs) ensures PutAll(m, order) == PutAll(m, pairs) {
        PutAllAnyOrder(m, order, pairs);
      }
    } else {
      var i, j :| 0 <= i < |pairs| && 0 <= j < |pairs| && pairs[i].0 == pairs[j].0 && pairs[i].1 != pairs[j].1;
      MovedLastStores(m, pairs, i);
      MovedLastStores(m, pairs, j);
      assert PutAll(m, MovedLast(pairs, i)) != PutAll(m, MovedLast(pairs, j));
    }
  }

  lemma {:induction false} PutAllSnoc(m: Entries, pairs: Pairs, p: (Bytes, Entry))
    ensures PutAll(m, pairs + [p]) == PutAll(m, pairs)[p.0 := p.1]
    decreases |pairs|
  {
    if pairs == [] {
      assert pairs + [p] == [p];
    } else {
      assert (pairs + [p])[1..] == pairs[1..] + [p];
      PutAllSnoc(m[pairs[0].0 := pairs[0].1], pairs[1..], p);
    }
  }

  // ---- Batches tagged with their shard ----

  datatype Tagged = Tagged(shard: nat, key: Bytes, entry: Entry)

  function Untag(ts: seq<Tagged>): (r: Pairs)
    ensures |r| == |ts| && forall i :: 0 <= i < |ts| ==> r[i] == (ts[i].key, ts[i].entry)
  {
    seq(|ts|, i requires 0 <= i < |ts| => (ts[i].key, ts[i].entry))
  }

  ghost predicate ByShard(ts: seq<Tagged>) {
    forall i, j :: 0 <= i < j < |ts| ==> ts[i].shard <= ts[j].shard
  }

  /** `x` may go in before number `p`. */
  predicate Slot(ts: seq<Tagged>, x: Tagged, p: nat) {
    p <= |ts| && (p > 0 ==> ts[p - 1].shard <= x.shard) && (p < |ts| ==> x.shard <= ts[p].shard)
  }

  lemma {:induction false} SlotExists(ts: seq<Tagged>, x: Tagged) returns (p: nat)
    requires ByShard(ts)
    ensures Slot(ts, x, p)
    decreases |ts|
  {
    p := |ts|;
    while p > 0 && ts[p - 1].shard > x.shard
      invariant p <= |ts| && (p < |ts| ==> x.shard <= ts[p].shard)
    {
      p := p - 1;
    }
  }

  function InsertedAt(ts: seq<Tagged>, x: Tagged, p: nat): seq<Tagged>
    requires p <= |ts|
  {
    ts[..p] + [x] + ts[p..]
  }

  lemma InsertedSorted(ts: seq<Tagged>, x: Tagged, p: nat)
    requires ByShard(ts) && Slot(ts, x, p)
    ensures ByShard(InsertedAt(ts, x, p))
  {
    var r := InsertedAt(ts, x, p);
    forall i, j | 0 <= i < j < |r| ensures r[i].shard <= r[j].shard {
      assert i < p ==> ts[i].shard <= ts[p - 1].shard;
      assert j > p ==> ts[p].shard <= ts[j - 1].shard;
    }
  }

  lemma PutAllNext(m: Entries, ts: seq<Tagged>, j: nat)
    requires j < |ts|
    ensures PutAll(m, Untag(ts[..j + 1])) == PutAll(m, Untag(ts[..j]))[ts[j].key := ts[j].entry]
  {
    assert Untag(ts[..j + 1]) == Untag(ts[..j]) + [(ts[j].key, ts[j].entry)];
    PutAllSnoc(m, Untag(ts[..j]), (ts[j].key, ts[j].entry));
  }

  /** Every pair is tagged with the shard its hash selects. */
  ghost predicate Tags(ts: seq<Tagged>, hash: Hash, bits: nat) {
    forall k :: 0 <= k < |ts| ==> ts[k].shard == ShardIdx(hash, ts[k].key, bits)
  }

  /** Tags the pairs and sorts them by shard, in any order within a shard. */
  method TagPairs(pairs: Pairs, hash: Hash, bits: nat) returns (tagged: seq<Tagged>)
    ensures ByShard(tagged) && Tags(tagged, hash, bits) && Reorders(Untag(tagged), pairs)
  {
    tagged := [];
    for i := 0 to |pairs|
      invariant ByShard(tagged) && Tags(tagged, hash, bits) && Reorders(Untag(tagged), pairs[..i])
    {
      ghost var before := tagged;
      tagged := InsertTag(tagged, pairs[i], hash, bits);
      ReordersMore(Untag(tagged), Untag(before), pairs, i);
    }
    assert pairs[..|pairs|] == pairs;
  }

  method InsertTag(ts: seq<Tagged>, pair: (Bytes, Entry), hash: Hash, bits: nat) returns (r: seq<Tagged>)
    requires ByShard(ts) && Tags(ts, hash, bits)
    ensures ByShard(r) && Tags(r, hash, bits) && Reorders(Untag(r), Untag(ts) + [pair])
  {
    var x := Tagged(ShardIdx(hash, pair.0, bits), pair.0, pair.1);
    ghost var somewhere := SlotExists(ts, x);
    var p :| 0 <= p <= |ts| && Slot(ts, x, p);
    InsertedSorted(ts, x, p);
    InsertedPairs(ts, x, p);
    r := InsertedAt(ts, x, p);
  }

  lemma ReordersMore(a': Pairs, a: Pairs, pairs: Pairs, i: nat)
    requires i < |pairs| && Reorders(a, pairs[..i]) && Reorders(a', a + [pairs[i]])
    ensures Reorders(a', pairs[..i + 1])
  {
    assert pairs[..i + 1] == pairs[..i] + [pairs[i]];
  }

  lemma InsertedPairs(ts: seq<Tagged>, x: Tagged, p: nat)
    requires p <= |ts|
    ensures Reorders(Untag(InsertedAt(ts, x, p)), Untag(ts) + [(x.key, x.entry)])
  {
    assert Untag(InsertedAt(ts, x, p)) == Untag(ts)[..p] + [(x.key, x.entry)] + Untag(ts)[p..];
    assert Untag(ts) == Untag(ts)[..p] + Untag(ts)[p..];
  }

  ghost predicate Climbing(si: seq<nat>) {
    forall i, j :: 0 <= i < j < |si| ==> si[i] < si[j]
  }

  /** Every shard of `ts` from `j` on is among the guards from `g` on. */
  ghost predicate Guarded(si: seq<nat>, g: nat, ts: seq<Tagged>, j: nat) {
    forall k :: j <= k < |ts| ==> ts[k].shard in si[if g <= |si| then g else |si|..]
  }

  /** The distinct shards of a sorted batch, in order. */
  method ShardsOf(ts: seq<Tagged>) returns (si: seq<nat>)
    requires ByShard(ts)
    ensures Climbing(si) && Guarded(si, 0, ts, 0)
    ensures forall s :: s in si ==> exists k :: 0 <= k < |ts| && ts[k].shard == s
  {
    si := [];
    for i := 0 to |ts|
      invariant Climbing(si)
      invariant forall k :: 0 <= k < i ==> ts[k].shard in si
      invariant forall s :: s in si ==> exists k :: 0 <= k < i && ts[k].shard == s
      invariant |si| > 0 ==> i > 0 && si[|si| - 1] == ts[i - 1].shard
      invariant i > 0 ==> |si| > 0
    {
      if |si| == 0 || si[|si| - 1] != ts[i].shard {
        forall j | 0 <= j < |si| ensures si[j] < ts[i].shard {
          assert si[j] <= si[|si| - 1];
        }
        si := si + [ts[i].shard];
      }
    }
    assert si[0..] == si;
  }
}

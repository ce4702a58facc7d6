/**
 Operations that span shards. Keys are routed by hash; every operation locks the shards it
 needs in index order and must look like the same operation on one flat map.
 */
module Sharded {
  import opened ByteStrings
  import opened Keyspace
  import opened ShardStore
  import opened Routing
  import opened FlatOps

  /** All shards seen as one map. */
  ghost function FlatOf(ms: seq<Entries>): Entries {
    map k | k in KeysOfAll(ms) :: ms[HomeOf(ms, k)][k]
  }

  ghost function KeysOfAll(ms: seq<Entries>): set<Bytes> {
    set i, k | 0 <= i < |ms| && k in ms[i] :: k
  }

  ghost function HomeOf(ms: seq<Entries>, k: Bytes): (i: nat)
    requires k in KeysOfAll(ms)
    ensures i < |ms| && k in ms[i]
  {
    var i :| 0 <= i < |ms| && k in ms[i];
    i
  }

  /** Looking a key up in its own shard is looking it up in the flat map. */
  lemma FlatFind(ms: seq<Entries>, hash: Hash, bits: nat, k: Bytes)
    requires Routed(ms, hash, bits)
    ensures ShardIdx(hash, k, bits) < |ms|
    ensures Find(FlatOf(ms), k) == Find(ms[ShardIdx(hash, k, bits)], k)
  {
    LowBound(hash(k), bits);
    if k in KeysOfAll(ms) {
      assert ShardIdx(hash, k, bits) == HomeOf(ms, k);
    }
  }

  /** A step on the owning shard is the same step on the flat map. */
  lemma FlatWith(ms: seq<Entries>, hash: Hash, bits: nat, k: Bytes, o: Option<Entry>)
    requires Routed(ms, hash, bits)
    ensures ShardIdx(hash, k, bits) < |ms|
    ensures var i := ShardIdx(hash, k, bits); var ms' := ms[i := With(ms[i], k, o)];
      Routed(ms', hash, bits) && FlatOf(ms') == With(FlatOf(ms), k, o)
  {
    LowBound(hash(k), bits);
    var i := ShardIdx(hash, k, bits);
    var ms' := ms[i := With(ms[i], k, o)];
    assert Routed(ms', hash, bits);
    forall j ensures Find(FlatOf(ms'), j) == Find(With(FlatOf(ms), k, o), j) {
      FlatFind(ms, hash, bits, j);
      FlatFind(ms', hash, bits, j);
      FindWith(ms[i], k, o, j);
      FindWith(FlatOf(ms), k, o, j);
    }
    SameFinds(FlatOf(ms'), With(FlatOf(ms), k, o));
  }

  class ShardedDatabase {
    const shards: seq<Database>
    const bits: nat
    const hash: Hash

    ghost predicate Valid()
      reads this, shards
    {
      && (forall i, j :: 0 <= i < j < |shards| ==> shards[i] != shards[j])
      && (forall i :: 0 <= i < |shards| ==> shards[i].Valid())
      && Routed(Contents(), hash, bits)
    }

    ghost function Contents(): (ms: seq<Entries>)
      reads this, shards
      ensures |ms| == |shards|
    {
      seq(|shards|, i requires 0 <= i < |shards| reads this, shards => shards[i].entries)
    }

    ghost function Flat(): Entries
      reads this, shards
    {
      FlatOf(Contents())
    }

    constructor (bits: nat, hash: Hash)
      ensures Valid() && Flat() == map[] && fresh(shards) && this.bits == bits && this.hash == hash
    {
      var ds: seq<Database> := [];
      for i := 0 to Pow2(bits)
        invariant |ds| == i && fresh(ds)
        invariant forall j :: 0 <= j < i ==> ds[j].Valid() && ds[j].entries == map[]
        invariant forall j, k :: 0 <= j < k < i ==> ds[j] != ds[k]
      {
        var d := new Database();
        ds := ds + [d];
      }
      this.shards, this.bits, this.hash := ds, bits, hash;
      new;
      assert KeysOfAll(Contents()) == {};
    }

    /** `shard_idx`. */
    function Idx(k: Bytes): (i: nat) {
      ShardIdx(hash, k, bits)
    }

    // -- Steps on one locked shard, seen on the flat map. `i` must be the shard that owns `k`. --

    method RemoveIn(i: nat, k: Bytes) returns (r: Option<Entry>)
      requires Valid() && i == Idx(k)
      modifies shards
      ensures Valid() && Flat() == old(Flat()) - {k} && r == Find(old(Flat()), k)
    {
      ghost var ms := Contents();
      FlatFind(ms, hash, bits, k);
      FlatWith(ms, hash, bits, k, None);
      r := shards[i].Remove(k);
      assert Contents() == ms[i := With(ms[i], k, None)];
    }

    method InsertIn(i: nat, k: Bytes, e: Entry)
      requires Valid() && i == Idx(k)
      modifies shards
      ensures Valid() && Flat() == old(Flat())[k := e]
    {
      ghost var ms := Contents();
      FlatWith(ms, hash, bits, k, Some(e));
      shards[i].Insert(k, e);
      assert Contents() == ms[i := With(ms[i], k, Some(e))];
    }

    method GetIn(i: nat, k: Bytes, now: nat, lru: nat) returns (r: Option<Entry>)
      requires Valid() && i == Idx(k)
      modifies shards
      ensures Valid() && Flat() == Probed(old(Flat()), k, now, lru) && r == Find(Flat(), k)
    {
      ghost var ms := Contents();
      FlatFind(ms, hash, bits, k);
      ghost var o := Refreshed(Live(ms[i], k, now), lru);
      FlatWith(ms, hash, bits, k, o);
      FindWith(Flat(), k, o, k);
      r := Probe(shards[i], k, now, lru);
      assert Contents() == ms[i := With(ms[i], k, o)];
    }

    method TakeEndIn(i: nat, k: Bytes, fromLeft: bool, now: nat) returns (r: MoveReply)
      requires Valid() && i == Idx(k)
      modifies shards
      ensures Valid() && r == TakeOutcome(Live(old(Flat()), k, now), fromLeft).0
      ensures Flat() == With(old(Flat()), k, TakeOutcome(Live(old(Flat()), k, now), fromLeft).1)
    {
      ghost var ms := Contents();
      FlatFind(ms, hash, bits, k);
      assert Live(Flat(), k, now) == Live(ms[i], k, now);
      ghost var o;
      r, o := TakeEnd(shards[i], k, fromLeft, now);
      FlatWith(ms, hash, bits, k, o);
      assert Contents() == ms[i := With(ms[i], k, o)];
    }

    method PutEndIn(i: nat, k: Bytes, v: Bytes, toLeft: bool, now: nat, lru: nat)
      requires Valid() && i == Idx(k) && ListOrMissing(Live(Flat(), k, now))
      modifies shards
      ensures Valid() && Flat() == old(Flat())[k := AfterPush(Live(old(Flat()), k, now), v, toLeft, lru)]
    {
      ghost var ms := Contents();
      FlatFind(ms, hash, bits, k);
      assert Live(Flat(), k, now) == Live(ms[i], k, now);
      ghost var e := AfterPush(Live(ms[i], k, now), v, toLeft, lru);
      FlatWith(ms, hash, bits, k, Some(e));
      PutEnd(shards[i], k, v, toLeft, now, lru);
      assert Contents() == ms[i := With(ms[i], k, Some(e))];
    }

    method TakeMemberIn(i: nat, k: Bytes, x: Bytes, now: nat) returns (r: SMoveReply)
      requires Valid() && i == Idx(k)
      modifies shards
      ensures Valid() && r == TakeMemberOutcome(Live(old(Flat()), k, now), x).0
      ensures Flat() == With(old(Flat()), k, TakeMemberOutcome(Live(old(Flat()), k, now), x).1)
    {
      ghost var ms := Contents();
      FlatFind(ms, hash, bits, k);
      assert Live(Flat(), k, now) == Live(ms[i], k, now);
      ghost var o;
      r, o := TakeMember(shards[i], k, x, now);
      FlatWith(ms, hash, bits, k, o);
      assert Contents() == ms[i := With(ms[i], k, o)];
    }

    method AddMemberIn(i: nat, k: Bytes, x: Bytes, now: nat, lru: nat)
      requires Valid() && i == Idx(k) && SetOrMissing(Live(Flat(), k, now))
      modifies shards
      ensures Valid() && Flat() == old(Flat())[k := AfterAdd(Live(old(Flat()), k, now), x, lru)]
    {
      ghost var ms := Contents();
      FlatFind(ms, hash, bits, k);
      assert Live(Flat(), k, now) == Live(ms[i], k, now);
      ghost var e := AfterAdd(Live(ms[i], k, now), x, lru);
      FlatWith(ms, hash, bits, k, Some(e));
      AddMember(shards[i], k, x, now, lru);
      assert Contents() == ms[i := With(ms[i], k, Some(e))];
    }

    /** `get_ro` on the owning shard. */
    method Peek(i: nat, k: Bytes, now: nat) returns (r: Option<Entry>)
      requires Valid() && i == Idx(k)
      ensures r == Live(Flat(), k, now)
    {
      FlatFind(Contents(), hash, bits, k);
      r := Live(shards[i].entries, k, now);
    }

    /** The entry of `k` in the owning shard, expired or not. */
    method PeekRaw(i: nat, k: Bytes) returns (r: Option<Entry>)
      requires Valid() && i == Idx(k)
      ensures r == Find(Flat(), k)
    {
      FlatFind(Contents(), hash, bits, k);
      r := Find(shards[i].entries, k);
    }

    // -- The operations --

    method Rename(src: Bytes, dst: Bytes) returns (ok: bool)
      requires Valid()
      modifies shards
      ensures Valid() && ok == (src in old(Flat())) && Flat() == RenameFlat(old(Flat()), src, dst)
    {
      var (s, d) := PickGuards(LockTwo(Idx(src), Idx(dst)));
      GuardsMatch(Idx(src), Idx(dst));
      ghost var before := Flat();
      var e := RemoveIn(s, src);
      if e.None? {
        assert before - {src} == before;
        return false;
      }
      InsertIn(d, dst, e.value);
      return true;
    }

    method RenameNx(src: Bytes, dst: Bytes, now: nat, lru: nat) returns (r: Option<nat>)
      requires Valid()
      modifies shards
      ensures Valid() && (Flat(), r) == RenameNxFlat(old(Flat()), src, dst, now, lru)
    {
      var (s, d) := PickGuards(LockTwo(Idx(src), Idx(dst)));
      GuardsMatch(Idx(src), Idx(dst));
      var present := GetIn(d, dst, now, lru);
      if present.Some? { return Some(0); }
      ghost var m1 := Flat();
      var e := RemoveIn(s, src);
      if e.None? {
        assert m1 - {src} == m1;
        return None;
      }
      InsertIn(d, dst, e.value);
      return Some(1);
    }

    method CopyEntry(src: Bytes, dst: Bytes, replace: bool, now: nat, lru: nat) returns (ok: bool)
      requires Valid()
      modifies shards
      ensures Valid() && (Flat(), ok) == CopyFlat(old(Flat()), src, dst, replace, now, lru)
    {
      var (s, d) := PickGuards(LockTwo(Idx(src), Idx(dst)));
      GuardsMatch(Idx(src), Idx(dst));
      if !replace {
        var present := GetIn(d, dst, now, lru);
        if present.Some? { return false; }
      }
      var e := GetIn(s, src, now, lru);
      if e.None? { return false; }
      InsertIn(d, dst, e.value);
      return true;
    }

    method LMove(src: Bytes, dst: Bytes, fromLeft: bool, toLeft: bool, now: nat, lru: nat) returns (r: MoveReply)
      requires Valid()
      modifies shards
      ensures Valid() && (Flat(), r) == LMoveFlat(old(Flat()), src, dst, fromLeft, toLeft, now, lru)
    {
      var (s, d) := PickGuards(LockTwo(Idx(src), Idx(dst)));
      GuardsMatch(Idx(src), Idx(dst));
      var there := Peek(d, dst, now);
      if !ListOrMissing(there) { return WrongKind; }
      r := LMoveLocked(s, d, src, dst, fromLeft, toLeft, now, lru);
    }

    /** LMOVE once both guards are held and the destination is known to be a list or missing. */
    method LMoveLocked(s: nat, d: nat, src: Bytes, dst: Bytes, fromLeft: bool, toLeft: bool, now: nat, lru: nat)
      returns (r: MoveReply)
      requires Valid() && s == Idx(src) && d == Idx(dst) && ListOrMissing(Live(Flat(), dst, now))
      modifies shards
      ensures Valid() && (Flat(), r) == LMoveFlat(old(Flat()), src, dst, fromLeft, toLeft, now, lru)
    {
      StillListOrMissing(Flat(), src, dst, fromLeft, now);
      r := TakeEndIn(s, src, fromLeft, now);
      if r.Moved? {
        PutEndIn(d, dst, r.v, toLeft, now, lru);
      }
    }

    method SMove(src: Bytes, dst: Bytes, x: Bytes, now: nat, lru: nat) returns (r: SMoveReply)
      requires Valid()
      modifies shards
      ensures Valid() && (Flat(), r) == SMoveFlat(old(Flat()), src, dst, x, now, lru)
    {
      var (s, d) := PickGuards(LockTwo(Idx(src), Idx(dst)));
      GuardsMatch(Idx(src), Idx(dst));
      var there := PeekRaw(d, dst);
      if !SetOrMissing(there) { return NotASet; }
      r := SMoveLocked(s, d, src, dst, x, now, lru);
    }

    /** SMOVE once both guards are held and the destination is known to be a set or missing. */
    method SMoveLocked(s: nat, d: nat, src: Bytes, dst: Bytes, x: Bytes, now: nat, lru: nat) returns (r: SMoveReply)
      requires Valid() && s == Idx(src) && d == Idx(dst) && SetOrMissing(Find(Flat(), dst))
      modifies shards
      ensures Valid() && (Flat(), r) == SMoveFlat(old(Flat()), src, dst, x, now, lru)
    {
      StillSetOrMissing(Flat(), src, dst, x, now);
      r := TakeMemberIn(s, src, x, now);
      if r.MovedOne? {
        AddMemberIn(d, dst, x, now, lru);
      }
    }

    /** `tag_and_sort_pairs`: the batch grouped by shard, and the shards to lock in index order. */
    method TagAndSort(pairs: Pairs) returns (tagged: seq<Tagged>, si: seq<nat>)
      ensures ByShard(tagged) && Tags(tagged, hash, bits) && Reorders(Untag(tagged), pairs)
      ensures Climbing(si) && Guarded(si, 0, tagged, 0)
    {
      tagged := TagPairs(pairs, hash, bits);
      si := ShardsOf(tagged);
    }

    /** The commit walks batch and guards in step; the guard index never runs past the end. */
    method CommitTagged(si: seq<nat>, tagged: seq<Tagged>)
      requires Valid() && Climbing(si) && Guarded(si, 0, tagged, 0) && ByShard(tagged)
      requires Tags(tagged, hash, bits)
      modifies shards
      ensures Valid() && Flat() == PutAll(old(Flat()), Untag(tagged))
    {
      var gi: nat := 0;
      ghost var flat := Flat();
      for j := 0 to |tagged|
        invariant Valid() && gi <= |si| && Guarded(si, gi, tagged, j)
        invariant Flat() == PutAll(flat, Untag(tagged[..j]))
      {
        gi := Seek(si, gi, tagged, j);
        PutAllNext(flat, tagged, j);
        InsertIn(si[gi], tagged[j].key, tagged[j].entry);
      }
      assert tagged[..|tagged|] == tagged;
    }

    /** The batch is committed in the order the sort has chosen. */
    method CommitBatch(pairs: Pairs, si: seq<nat>, tagged: seq<Tagged>)
      requires Valid() && Climbing(si) && Guarded(si, 0, tagged, 0) && ByShard(tagged) && Tags(tagged, hash, bits)
      requires Reorders(Untag(tagged), pairs)
      modifies shards
      ensures Valid() && StoredInSomeOrder(old(Flat()), pairs, Flat())
      ensures Agreeing(pairs) ==> Flat() == PutAll(old(Flat()), pairs)
    {
      if Agreeing(pairs) { PutAllAnyOrder(Flat(), Untag(tagged), pairs); }
      CommitTagged(si, tagged);
    }

    /** MSET: the order matters only when a key occurs twice with different entries. */
    method MSet(pairs: Pairs)
      requires Valid()
      modifies shards
      ensures Valid() && StoredInSomeOrder(old(Flat()), pairs, Flat())
      ensures Agreeing(pairs) ==> Flat() == PutAll(old(Flat()), pairs)
    {
      if pairs == [] {
        assert Reorders([], pairs);
        return;
      }
      var tagged, si := TagAndSort(pairs);
      CommitBatch(pairs, si, tagged);
    }

    /** MSETNX: all or nothing, decided on the keys a reader can see. */
    method MSetNx(pairs: Pairs, now: nat) returns (ok: bool)
      requires Valid()
      modifies shards
      ensures Valid() && (ok <==> AllAbsent(old(Flat()), pairs, now))
      ensures ok ==> StoredInSomeOrder(old(Flat()), pairs, Flat())
      ensures ok && Agreeing(pairs) ==> Flat() == PutAll(old(Flat()), pairs)
      ensures !ok ==> Flat() == old(Flat())
    {
      if pairs == [] {
        assert Reorders([], pairs);
        return true;
      }
      var tagged, si := TagAndSort(pairs);
      ok := CommitIfFree(pairs, si, tagged, now);
    }

    /** `commit_tagged_msetnx`, with all guards held. */
    method CommitIfFree(pairs: Pairs, si: seq<nat>, tagged: seq<Tagged>, now: nat) returns (ok: bool)
      requires Valid() && Climbing(si) && Guarded(si, 0, tagged, 0) && ByShard(tagged) && Tags(tagged, hash, bits)
      requires Reorders(Untag(tagged), pairs)
      modifies shards
      ensures Valid() && (ok <==> AllAbsent(old(Flat()), pairs, now))
      ensures ok ==> StoredInSomeOrder(old(Flat()), pairs, Flat())
      ensures ok && Agreeing(pairs) ==> Flat() == PutAll(old(Flat()), pairs)
      ensures !ok ==> Flat() == old(Flat())
    {
      ok := BatchFree(pairs, si, tagged, now);
      if ok { CommitBatch(pairs, si, tagged); }
    }

    method BatchFree(ghost pairs: Pairs, si: seq<nat>, tagged: seq<Tagged>, now: nat) returns (free: bool)
      requires Valid() && Climbing(si) && Guarded(si, 0, tagged, 0) && ByShard(tagged) && Tags(tagged, hash, bits)
      requires Reorders(Untag(tagged), pairs)
      ensures free <==> AllAbsent(Flat(), pairs, now)
    {
      AbsentSame(Flat(), Untag(tagged), pairs, now);
      free := AllFree(si, tagged, now);
    }

    method AllFree(si: seq<nat>, tagged: seq<Tagged>, now: nat) returns (free: bool)
      requires Valid() && Climbing(si) && Guarded(si, 0, tagged, 0) && ByShard(tagged)
      requires Tags(tagged, hash, bits)
      ensures free <==> AllAbsent(Flat(), Untag(tagged), now)
    {
      forall t | t in tagged
        ensures t.shard < |shards| && Find(shards[t.shard].entries, t.key) == Find(Flat(), t.key)
      {
        FlatFind(Contents(), hash, bits, t.key);
      }
      free := FreeAgainst(Flat(), si, tagged, now);
    }

    method FreeAgainst(ghost flat: Entries, si: seq<nat>, tagged: seq<Tagged>, now: nat) returns (free: bool)
      requires Climbing(si) && Guarded(si, 0, tagged, 0) && ByShard(tagged)
      requires Shows(flat, tagged)
      ensures free <==> AllAbsent(flat, Untag(tagged), now)
    {
      var gi: nat := 0;
      for j := 0 to |tagged|
        invariant gi <= |si| && Guarded(si, gi, tagged, j)
        invariant AllAbsent(flat, Untag(tagged[..j]), now)
      {
        gi := Seek(si, gi, tagged, j);
        AbsentStep(flat, tagged, j, now);
        if Live(shards[si[gi]].entries, tagged[j].key, now).Some? {
          return false;
        }
      }
      assert tagged[..|tagged|] == tagged;
      return true;
    }

    /** Each tagged shard answers for its key as the flat map does. */
    ghost predicate Shows(flat: Entries, tagged: seq<Tagged>)
      reads this, shards
    {
      forall t :: t in tagged ==> t.shard < |shards| && Find(shards[t.shard].entries, t.key) == Find(flat, t.key)
    }
  }

  /** No key of the batch is visible at `now`. */
  ghost predicate AllAbsent(m: map<Bytes, Entry>, pairs: Pairs, now: nat) {
    forall p :: p in pairs ==> Live(m, p.0, now).None?
  }

  lemma AbsentSame(m: map<Bytes, Entry>, a: Pairs, b: Pairs, now: nat)
    requires Reorders(a, b)
    ensures AllAbsent(m, a, now) <==> AllAbsent(m, b, now)
  {
    SameMembers(a, b);
  }

  lemma AbsentStep(m: map<Bytes, Entry>, tagged: seq<Tagged>, j: nat, now: nat)
    requires j < |tagged|
    ensures AllAbsent(m, Untag(tagged[..j + 1]), now)
       <==> AllAbsent(m, Untag(tagged[..j]), now) && Live(m, tagged[j].key, now).None?
    ensures AllAbsent(m, Untag(tagged), now) ==> Live(m, tagged[j].key, now).None?
  {
    assert Untag(tagged)[j] in Untag(tagged);
    assert Untag(tagged[..j + 1]) == Untag(tagged[..j]) + [(tagged[j].key, tagged[j].entry)];
  }

  /** In a climbing list, a value at least that of index `gi` lies at or after `gi`. */
  lemma ClimbingAfter(si: seq<nat>, h: nat, gi: nat)
    requires Climbing(si) && h < |si| && gi < |si| && si[gi] <= si[h]
    ensures gi <= h
  {
  }

  /** Advances the guard index to the shard of element `j`. */
  method Seek(si: seq<nat>, from: nat, tagged: seq<Tagged>, j: nat) returns (gi: nat)
    requires from <= |si| && j < |tagged| && Climbing(si) && ByShard(tagged) && Guarded(si, from, tagged, j)
    ensures gi < |si| && si[gi] == tagged[j].shard && Guarded(si, gi, tagged, j + 1)
  {
    gi := from;
    var goal := tagged[j].shard;
    assert goal in si[from..];
    ghost var g :| from <= g < |si| && si[g] == goal;
    while si[gi] != goal
      invariant from <= gi <= g
    {
      gi := gi + 1;
    }
    forall k | j < k < |tagged| ensures tagged[k].shard in si[gi..] {
      assert tagged[k].shard in si[from..];
      var h :| from <= h < |si| && si[h] == tagged[k].shard;
      assert tagged[j].shard <= tagged[k].shard;
      ClimbingAfter(si, h, gi);
      assert si[gi..][h - gi] == tagged[k].shard;
    }
  }

  /** `lock_two`: the guards in index order, and whether the source's is the higher one. */
  function LockTwo(si: nat, di: nat): (r: (nat, Option<nat>, bool))
    ensures r.1.Some? ==> r.0 < r.1.value
  {
    if si == di then (si, None, false)
    else if si > di then (di, Some(si), true)
    else (si, Some(di), false)
  }

  /** Which guard is the source's and which the destination's. */
  function PickGuards(g: (nat, Option<nat>, bool)): (nat, nat) {
    match g.1
    case Some(hi) => if g.2 then (hi, g.0) else (g.0, hi)
    case None => (g.0, g.0)
  }

  lemma GuardsMatch(si: nat, di: nat)
    ensures PickGuards(LockTwo(si, di)) == (si, di)
  {
  }
}

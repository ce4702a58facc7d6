/** Whole runs of a dual-encoded set, compared with a plain set. */
module SetRuns {
  import opened ByteStrings
  import opened Packed
  import opened SetEncoding

  datatype Op =
    | SAdd(m: Bytes)
    | SRem(m: Bytes)
    | SPop(idx: nat)
    | SRandMember(idx: nat)
    | SIsMember(m: Bytes)
    | SMembers
    | SCard
    | Memory

  datatype Reply =
    | Changed(ok: bool, delta: int)
    | Member(m: Option<Bytes>)
    | Flag(b: bool)
    | Members(ms: seq<Bytes>)
    | Number(n: nat)

  /** One call together with the thresholds in force when it runs. */
  datatype Call = Call(op: Op, thr: SetThresholds)

  /** The plain set after `op`, given which member a pop reported. */
  ghost function After(s: set<Bytes>, op: Op, r: Reply): set<Bytes> {
    match op
    case SAdd(m) => s + {m}
    case SRem(m) => s - {m}
    case SPop(_) => if r.Member? && r.m.Some? then s - {r.m.value} else s
    case _ => s
  }

  /** Picking index `idx` of `n` gives some member exactly when the index is in range. */
  ghost predicate Picks(s: set<Bytes>, idx: nat, r: Reply) {
    r.Member? && (r.m.Some? <==> idx < |s|) && (r.m.Some? ==> r.m.value in s)
  }

  /** `r` is a right answer to `op` on the plain set; deltas are changes of the total member length. */
  ghost predicate Answers(s: set<Bytes>, op: Op, r: Reply) {
    var growth := SumLen(After(s, op, r)) as int - SumLen(s) as int;
    match op
    case SAdd(m) => r == Changed(m !in s, growth)
    case SRem(m) => r == Changed(m in s, growth)
    case SPop(idx) => Picks(s, idx, r)
    case SRandMember(idx) => Picks(s, idx, r)
    case SIsMember(m) => r == Flag(m in s)
    case SMembers => r.Members? && NoDup(r.ms) && Elems(r.ms) == s
    case SCard => r == Number(|s|)
    case Memory => r == Number(SumLen(s))
  }

  /** The replies of a whole run are right for a plain set that starts as `s`. */
  ghost predicate AllRight(s: set<Bytes>, calls: seq<Call>, rs: seq<Reply>)
    decreases |calls|
  {
    |rs| == |calls| && (calls != [] ==>
      Answers(s, calls[0].op, rs[0]) && AllRight(After(s, calls[0].op, rs[0]), calls[1..], rs[1..]))
  }

  /** A member added is shorter than 2^32 bytes; no command the parser lets through carries more. */
  predicate Storable(op: Op) {
    op.SAdd? ==> |op.m| < TWO_32
  }

  predicate IsQuery(op: Op) {
    op.SRandMember? || op.SIsMember? || op.SMembers? || op.SCard? || op.Memory?
  }

  method Query(d: SetData, op: Op) returns (r: Reply)
    requires d.Valid() && IsQuery(op)
    ensures Answers(d.Contents(), op, r) && After(d.Contents(), op, r) == d.Contents()
  {
    match op {
      case SRandMember(idx) =>
        var m := d.GetAt(idx);
        ListingMeasures(d.Listing());
        r := Member(m);
      case SIsMember(m) => var b := d.Contains(m); r := Flag(b);
      case SMembers => var ms := d.ToVec(); r := Members(ms);
      case SCard => var n := d.Len(); r := Number(n);
      case Memory => var n := d.PayloadBytes(); r := Number(n);
    }
  }

  method Pop(d: SetData, idx: nat, thr: SetThresholds) returns (r: Reply)
    requires d.Valid()
    modifies d, d.compact, d.table
    ensures d.Valid() && d.SameOrFresh()
    ensures Answers(old(d.Contents()), SPop(idx), r) && d.Contents() == After(old(d.Contents()), SPop(idx), r)
  {
    ghost var s := d.Listing();
    ListingMeasures(s);
    var m := d.RemoveAt(idx, thr);
    r := Member(m);
  }

  lemma GrownAnswers(s: set<Bytes>, s': set<Bytes>, m: Bytes, isNew: bool, delta: int)
    requires Grown(s, s', m, isNew, delta)
    ensures Answers(s, SAdd(m), Changed(isNew, delta)) && s' == After(s, SAdd(m), Changed(isNew, delta))
  {
  }

  method Add(d: SetData, m: Bytes, thr: SetThresholds) returns (r: Reply)
    requires d.Valid() && |m| < TWO_32
    modifies d, d.compact, d.table
    ensures d.Valid() && d.SameOrFresh()
    ensures Answers(old(d.Contents()), SAdd(m), r) && d.Contents() == After(old(d.Contents()), SAdd(m), r)
  {
    ghost var s := d.Contents();
    var ok, delta := d.Insert(m, thr);
    GrownAnswers(s, d.Contents(), m, ok, delta);
    r := Changed(ok, delta);
  }

  method Take(d: SetData, m: Bytes, thr: SetThresholds) returns (r: Reply)
    requires d.Valid()
    modifies d, d.compact, d.table
    ensures d.Valid() && d.SameOrFresh()
    ensures Answers(old(d.Contents()), SRem(m), r) && d.Contents() == After(old(d.Contents()), SRem(m), r)
  {
    var ok, delta := d.Remove(m, thr);
    r := Changed(ok, delta);
  }

  method Perform(d: SetData, call: Call) returns (r: Reply)
    requires d.Valid() && Storable(call.op)
    modifies d, d.compact, d.table
    ensures d.Valid() && d.SameOrFresh()
    ensures Answers(old(d.Contents()), call.op, r) && d.Contents() == After(old(d.Contents()), call.op, r)
  {
    if IsQuery(call.op) {
      r := Query(d, call.op);
    } else if call.op.SPop? {
      r := Pop(d, call.op.idx, call.thr);
    } else if call.op.SAdd? {
      r := Add(d, call.op.m, call.thr);
    } else {
      r := Take(d, call.op.m, call.thr);
    }
  }

  method RunFrom(d: SetData, calls: seq<Call>) returns (rs: seq<Reply>)
    requires d.Valid() && forall i :: 0 <= i < |calls| ==> Storable(calls[i].op)
    modifies d, d.compact, d.table
    ensures AllRight(old(d.Contents()), calls, rs)
    decreases |calls|
  {
    if calls == [] { return []; }
    var r := Perform(d, calls[0]);
    var rest := RunFrom(d, calls[1..]);
    rs := [r] + rest;
  }

  /**
   The encoding is invisible: every run, under any thresholds that may even change between calls,
   answers as a plain set does, and every reported byte delta and total is exact.
   */
  method RunSet(calls: seq<Call>) returns (rs: seq<Reply>)
    requires forall i :: 0 <= i < |calls| ==> Storable(calls[i].op)
    ensures AllRight({}, calls, rs)
  {
    var d := new SetData();
    rs := RunFrom(d, calls);
  }
}

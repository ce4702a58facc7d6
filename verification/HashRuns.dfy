/** Whole runs of a dual-encoded hash, compared with a plain map. */
module HashRuns {
  import opened ByteStrings
  import opened Packed
  import opened HashEncoding

  datatype Op =
    | HSet(f: Bytes, v: Bytes)
    | HDel(f: Bytes)
    | HGet(f: Bytes)
    | HGetAll
    | HLen
    | Memory

  datatype Reply =
    | Stored(isNew: bool, delta: int)
    | Removed(v: Option<Bytes>, delta: int)
    | Value(v: Option<Bytes>)
    | Listing(ps: Pairs)
    | Number(n: nat)

  /** One call together with the thresholds in force when it runs. */
  datatype Call = Call(op: Op, thr: HashThresholds)

  /** The plain map after `op`. */
  function After(m: Fields, op: Op): Fields {
    match op
    case HSet(f, v) => m[f := v]
    case HDel(f) => m - {f}
    case _ => m
  }

  function Lookup(m: Fields, f: Bytes): Option<Bytes> {
    if f in m then Some(m[f]) else None
  }

  /** `r` is a right answer to `op` on the plain map; deltas are changes of the total field and value length. */
  ghost predicate Answers(m: Fields, op: Op, r: Reply) {
    var growth := FieldsLen(After(m, op)) as int - FieldsLen(m) as int;
    match op
    case HSet(f, _) => r == Stored(f !in m, growth)
    case HDel(f) => r == Removed(Lookup(m, f), growth)
    case HGet(f) => r == Value(Lookup(m, f))
    case HGetAll => r.Listing? && Distinct(r.ps) && MapOf(r.ps) == m
    case HLen => r == Number(|m|)
    case Memory => r == Number(FieldsLen(m))
  }

  /** The replies of a whole run are right for a plain map that starts as `m`. */
  ghost predicate AllRight(m: Fields, calls: seq<Call>, rs: seq<Reply>)
    decreases |calls|
  {
    |rs| == |calls| && (calls != [] ==>
      Answers(m, calls[0].op, rs[0]) && AllRight(After(m, calls[0].op), calls[1..], rs[1..]))
  }

  /** A field and value stored are shorter than 2^32 bytes; no command the parser lets through carries more. */
  predicate Storable(op: Op) {
    op.HSet? ==> |op.f| < TWO_32 && |op.v| < TWO_32
  }

  method Query(d: HashData, op: Op) returns (r: Reply)
    requires d.Valid() && !op.HSet? && !op.HDel?
    ensures Answers(d.Contents(), op, r)
  {
    match op {
      case HGet(f) => var v := d.Get(f); r := Value(v);
      case HGetAll => var ps := d.ToPairs(); r := Listing(ps);
      case HLen => var n := d.Len(); r := Number(n);
      case Memory => var n := d.PayloadBytes(); r := Number(n);
    }
  }

  method Perform(d: HashData, call: Call) returns (r: Reply)
    requires d.Valid() && Storable(call.op)
    modifies d, d.compact, d.table
    ensures d.Valid() && d.SameOrFresh()
    ensures Answers(old(d.Contents()), call.op, r) && d.Contents() == After(old(d.Contents()), call.op)
  {
    match call.op {
      case HSet(f, v) => var isNew, delta := d.Insert(f, v, call.thr); r := Stored(isNew, delta);
      case HDel(f) => var v, delta := d.Remove(f, call.thr); r := Removed(v, delta);
      case _ => r := Query(d, call.op);
    }
  }

  method RunFrom(d: HashData, calls: seq<Call>) returns (rs: seq<Reply>)
    requires d.Valid() && forall i :: 0 <= i < |calls| ==> Storable(calls[i].op)
    modifies d, d.compact, d.table
    ensures AllRight(old(d.Contents()), calls, rs)
    decreases |calls|
  {
    if calls == [] { return []; }
    var r := Perform(d, calls[0]);
    var rest := RunFrom(d, calls[1..]);
    rs := [r] + rest;
  }

  /**
   The encoding is invisible: every run, under any thresholds that may even change between calls,
   answers as a plain map does, and every reported byte delta and total is exact.
   */
  method RunHash(calls: seq<Call>) returns (rs: seq<Reply>)
    requires forall i :: 0 <= i < |calls| ==> Storable(calls[i].op)
    ensures AllRight(map[], calls, rs)
  {
    var d := new HashData();
    rs := RunFrom(d, calls);
  }
}

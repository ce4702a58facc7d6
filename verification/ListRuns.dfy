/** Whole runs of a dual-encoded list, compared with a plain sequence. */
module ListRuns {
  import opened ByteStrings
  import opened Packed
  import opened ListPacking
  import opened ListEncoding

  datatype Op =
    | LPush(v: Bytes)
    | RPush(v: Bytes)
    | LPop
    | RPop
    | LIndex(i: nat)
    | LSet(i: nat, v: Bytes)
    | LInsert(pivot: Bytes, v: Bytes, after: bool)
    | LRem(count: int, elem: Bytes)
    | LTrim(start: nat, stop: nat)
    | LRange(start: nat, stop: nat)
    | LLen
    | Memory

  datatype Reply =
    | Unit
    | Value(v: Option<Bytes>)
    | Changed(ok: bool, delta: int)
    | Inserted(length: Option<nat>)
    | Dropped(n: nat, delta: int)
    | Trimmed(delta: int)
    | Values(vs: seq<Bytes>)
    | Number(n: nat)

  /** One call together with the thresholds in force when it runs. */
  datatype Call = Call(op: Op, thr: Thresholds)

  /** The list after `op`, on plain sequences. */
  function After(s: seq<Bytes>, op: Op): seq<Bytes> {
    match op
    case LPush(v) => [v] + s
    case RPush(v) => s + [v]
    case LPop => if s == [] then s else s[1..]
    case RPop => if s == [] then s else s[..|s| - 1]
    case LSet(i, v) => if i < |s| then s[i := v] else s
    case LInsert(pivot, v, after) =>
      var i := IndexOf(s, pivot);
      if i == |s| then s else ListEncoding.Inserted(s, if after then i + 1 else i, v)
    case LRem(count, elem) => Removed(s, count, elem)
    case LTrim(start, stop) => Slice(s, start, stop)
    case _ => s
  }

  /** The answer to `op`, on plain sequences; deltas are changes of the total element length. */
  function Answer(s: seq<Bytes>, op: Op): Reply {
    var growth := TotalLen(After(s, op)) as int - TotalLen(s) as int;
    match op
    case LPush(_) => Unit
    case RPush(_) => Unit
    case LPop => Value(if s == [] then None else Some(s[0]))
    case RPop => Value(if s == [] then None else Some(s[|s| - 1]))
    case LIndex(i) => Value(if i < |s| then Some(s[i]) else None)
    case LSet(i, _) => Changed(i < |s|, growth)
    case LInsert(pivot, _, _) => Inserted(if IndexOf(s, pivot) == |s| then None else Some(|s| + 1))
    case LRem(_, _) => Dropped(if |After(s, op)| <= |s| then |s| - |After(s, op)| else 0, growth)
    case LTrim(_, _) => Trimmed(growth)
    case LRange(start, stop) => Values(Slice(s, start, stop))
    case LLen => Number(|s|)
    case Memory => Number(TotalLen(s))
  }

  /** The answers of a whole run that starts from `s`. */
  function Answers(s: seq<Bytes>, calls: seq<Call>): (r: seq<Reply>)
    ensures |r| == |calls|
    decreases |calls|
  {
    if calls == [] then [] else [Answer(s, calls[0].op)] + Answers(After(s, calls[0].op), calls[1..])
  }

  predicate IsQuery(op: Op) {
    op.LIndex? || op.LRange? || op.LLen? || op.Memory?
  }

  predicate IsEndOp(op: Op) {
    op.LPush? || op.RPush? || op.LPop? || op.RPop?
  }

  method Query(list: ListData, op: Op, ghost lim: Limits) returns (r: Reply)
    requires list.Valid(lim) && IsQuery(op)
    ensures list.Contents() == After(list.Contents(), op) && r == Answer(list.Contents(), op)
  {
    match op {
      case LIndex(i) => var v := list.Get(i); r := Value(v);
      case LRange(start, stop) => var vs := list.RangeBytes(start, stop); r := Values(vs);
      case LLen => var n := list.Len(); r := Number(n);
      case Memory => var n := list.PayloadBytes(); r := Number(n);
    }
  }

  /** Whether the list is compact after the call; a list with any middle edit is linked. */
  ghost predicate CompactAfter(compact: bool, s: seq<Bytes>, call: Call) {
    var s', thr := After(s, call.op), call.thr;
    match call.op
    case LPush(v) => compact && !Overflows(s, |v|, thr)
    case RPush(v) => compact && !Overflows(s, |v|, thr)
    case LPop => compact || (s != [] && Packable(s', thr))
    case RPop => compact || (s != [] && Packable(s', thr))
    case LSet(_, _) => false
    case LInsert(_, _, _) => false
    case LRem(_, _) => |s'| < |s| && Packable(s', thr)
    case LTrim(_, _) => Packable(s', thr)
    case _ => compact
  }

  /** Whatever the thresholds let into the compact encoding here, the limits do too. */
  ghost predicate Allowed(lim: Limits, s: seq<Bytes>, call: Call) {
    && (call.op.LPush? || call.op.RPush? ==> Admits(lim, call.thr, s, |call.op.v|))
    && (call.op.LPop? || call.op.RPop? ==> s != [] ==> Readmits(lim, call.thr, After(s, call.op)))
    && (call.op.LRem? || call.op.LTrim? ==> Readmits(lim, call.thr, After(s, call.op)))
  }

  ghost predicate AllAllowed(lim: Limits, s: seq<Bytes>, calls: seq<Call>)
    decreases |calls|
  {
    calls != [] ==> Allowed(lim, s, calls[0]) && AllAllowed(lim, After(s, calls[0].op), calls[1..])
  }

  /** Thresholds that stay within the limits allow every run. */
  lemma {:induction false} WithinAllowed(lim: Limits, s: seq<Bytes>, calls: seq<Call>)
    requires forall i :: 0 <= i < |calls| ==> Within(calls[i].thr, lim)
    ensures AllAllowed(lim, s, calls)
    decreases |calls|
  {
    if calls != [] {
      var op, thr := calls[0].op, calls[0].thr;
      WithinAdmits(lim, thr, s, if op.LPush? || op.RPush? then |op.v| else 0);
      WithinAdmits(lim, thr, After(s, op), 0);
      WithinAllowed(lim, After(s, op), calls[1..]);
    }
  }

  /** The list is small now and after every call. */
  ghost predicate StaysSmall(lim: Limits, s: seq<Bytes>, calls: seq<Call>)
    decreases |calls|
  {
    Small(s, lim) && (calls != [] ==> StaysSmall(lim, After(s, calls[0].op), calls[1..]))
  }

  /** So do runs in which the data stays small, whatever the thresholds. */
  lemma {:induction false} SmallAllowed(lim: Limits, s: seq<Bytes>, calls: seq<Call>)
    requires StaysSmall(lim, s, calls)
    ensures AllAllowed(lim, s, calls)
    decreases |calls|
  {
    if calls != [] {
      var s' := After(s, calls[0].op);
      assert Small(s', lim);
      if calls[0].op.LPush? || calls[0].op.RPush? {
        TotalLenSnoc(s, calls[0].op.v);
        assert s'[if calls[0].op.LPush? then 0 else |s|] == calls[0].op.v;
      }
      SmallAllowed(lim, s', calls[1..]);
    }
  }

  method PerformAtEnd(list: ListData, call: Call, ghost lim: Limits) returns (r: Reply)
    requires list.Valid(lim) && IsEndOp(call.op) && Allowed(lim, list.Contents(), call)
    modifies list, list.compact, list.linked
    ensures list.Valid(lim) && list.SameOrFresh()
    ensures list.Contents() == After(old(list.Contents()), call.op) && r == Answer(old(list.Contents()), call.op)
    ensures list.compact != null <==> CompactAfter(old(list.compact != null), old(list.Contents()), call)
  {
    match call.op {
      case LPush(v) => list.PushFront(v, call.thr, lim); r := Unit;
      case RPush(v) => list.PushBack(v, call.thr, lim); r := Unit;
      case LPop => var v := list.PopFront(call.thr, lim); r := Value(v);
      case RPop => var v := list.PopBack(call.thr, lim); r := Value(v);
    }
  }

  method PerformInside(list: ListData, call: Call, ghost lim: Limits) returns (r: Reply)
    requires list.Valid(lim) && !IsEndOp(call.op) && !IsQuery(call.op) && Allowed(lim, list.Contents(), call)
    modifies list, list.linked
    ensures list.Valid(lim) && list.SameOrFresh()
    ensures list.Contents() == After(old(list.Contents()), call.op) && r == Answer(old(list.Contents()), call.op)
    ensures list.compact != null <==> CompactAfter(old(list.compact != null), old(list.Contents()), call)
  {
    match call.op {
      case LSet(i, v) => var ok, delta := list.Set(i, v, lim); r := Changed(ok, delta);
      case LInsert(pivot, v, after) => var n := list.Insert(pivot, v, after, lim); r := Inserted(n);
      case LRem(count, elem) => var n, delta := list.Rem(count, elem, call.thr, lim); r := Dropped(n, delta);
      case LTrim(start, stop) => var delta := list.Trim(start, stop, call.thr, lim); r := Trimmed(delta);
    }
  }

  method Perform(list: ListData, call: Call, ghost lim: Limits) returns (r: Reply)
    requires list.Valid(lim) && Allowed(lim, list.Contents(), call)
    modifies list, list.compact, list.linked
    ensures list.Valid(lim) && list.SameOrFresh()
    ensures list.Contents() == After(old(list.Contents()), call.op) && r == Answer(old(list.Contents()), call.op)
    ensures list.compact != null <==> CompactAfter(old(list.compact != null), old(list.Contents()), call)
  {
    if IsQuery(call.op) {
      r := Query(list, call.op, lim);
    } else if IsEndOp(call.op) {
      r := PerformAtEnd(list, call, lim);
    } else {
      r := PerformInside(list, call, lim);
    }
  }

  /** A compact list as it lies in memory. */
  datatype Layout = Layout(buf: Bytes, head: nat, offsets: seq<u32>, offHead: nat)

  /** `l` holds `s` within the caps on its buffer and on its spent front if the list is compact, and there is none otherwise. */
  ghost predicate LaidOut(l: Option<Layout>, compact: bool, s: seq<Bytes>, lim: Limits) {
    (l.Some? <==> compact) &&
    (l.Some? ==>
       Laid(l.value.buf, l.value.head, l.value.offsets, l.value.offHead, s) &&
       |l.value.buf| <= BufCap(lim) && l.value.head <= HeadCap(lim))
  }

  /** The layouts after each call of a run that starts from `s`. */
  ghost predicate AllLaidOut(ls: seq<Option<Layout>>, compact: bool, s: seq<Bytes>, calls: seq<Call>, lim: Limits)
    decreases |calls|
  {
    |ls| == |calls| && (calls != [] ==>
      var s', compact' := After(s, calls[0].op), CompactAfter(compact, s, calls[0]);
      LaidOut(ls[0], compact', s', lim) && AllLaidOut(ls[1..], compact', s', calls[1..], lim))
  }

  method TakeLayout(list: ListData, ghost lim: Limits) returns (l: Option<Layout>)
    requires list.Valid(lim)
    ensures LaidOut(l, list.compact != null, list.Contents(), lim)
  {
    if list.compact == null { return None; }
    list.compact.BufferBounded(lim);
    var c := list.compact;
    return Some(Layout(c.buf, c.head, c.offsets, c.offHead));
  }

  /** Runs `calls` on `list`, noting each reply and how the list then lies in memory. */
  method RunFrom(list: ListData, calls: seq<Call>, ghost lim: Limits) returns (replies: seq<Reply>, ls: seq<Option<Layout>>)
    requires list.Valid(lim) && AllAllowed(lim, list.Contents(), calls)
    modifies list, list.compact, list.linked
    ensures replies == Answers(old(list.Contents()), calls)
    ensures AllLaidOut(ls, old(list.compact != null), old(list.Contents()), calls, lim)
    decreases |calls|
  {
    if calls == [] { return [], []; }
    var r := Perform(list, calls[0], lim);
    var l := TakeLayout(list, lim);
    var rest, more := RunFrom(list, calls[1..], lim);
    replies, ls := [r] + rest, [l] + more;
  }

  /**
   The encoding is invisible and bounded: every run, under thresholds that may even change between
   calls, answers like a plain sequence; after each call the list is compact exactly when the
   thresholds say so, and then its buffer and offset table hold the elements within the cap.
   */
  method RunList(calls: seq<Call>, ghost lim: Limits) returns (replies: seq<Reply>, ls: seq<Option<Layout>>)
    requires Addressable(lim) && AllAllowed(lim, [], calls)
    ensures replies == Answers([], calls) && AllLaidOut(ls, true, [], calls, lim)
  {
    var list := new ListData(lim);
    replies, ls := RunFrom(list, calls, lim);
  }
}

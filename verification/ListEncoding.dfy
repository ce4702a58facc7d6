/**
 The dual-encoded list. Short lists are compact, long ones linked; pushes promote, removals
 may demote. Clients see a sequence of byte strings.
 */
module ListEncoding {
  import opened ByteStrings
  import opened Packed
  import opened ListPacking

  /** The process-wide thresholds as one call reads them. */
  datatype Thresholds = Thresholds(maxEntries: nat, maxSize: nat, maxElem: nat, demoteEntries: nat)

  // ---- Reference semantics on plain sequences ----

  /** `s` without its first `n` occurrences of `x`. */
  function DropFirst(s: seq<Bytes>, x: Bytes, n: nat): seq<Bytes> {
    if s == [] || n == 0 then s
    else if s[0] == x then DropFirst(s[1..], x, n - 1)
    else [s[0]] + DropFirst(s[1..], x, n)
  }

  /** `s` without its last `n` occurrences of `x`. */
  function DropLast(s: seq<Bytes>, x: Bytes, n: nat): seq<Bytes> {
    if s == [] || n == 0 then s
    else if s[|s| - 1] == x then DropLast(s[..|s| - 1], x, n - 1)
    else DropLast(s[..|s| - 1], x, n) + [s[|s| - 1]]
  }

  /** LREM: head to tail for a positive count, tail to head for a negative one, all for zero. */
  function Removed(s: seq<Bytes>, count: int, x: Bytes): seq<Bytes> {
    if count == 0 then DropFirst(s, x, |s|)
    else if count > 0 then DropFirst(s, x, count)
    else DropLast(s, x, -count)
  }

  /** LTRIM and LRANGE: indices `start` to `stop` included, clipped to the list. */
  function Slice(s: seq<Bytes>, start: nat, stop: nat): seq<Bytes> {
    if start >= |s| || start > stop then [] else s[start..if stop < |s| then stop + 1 else |s|]
  }

  /** The first index holding `x`, or the length. */
  function IndexOf(s: seq<Bytes>, x: Bytes): (i: nat)
    ensures i <= |s| && (i < |s| ==> s[i] == x) && x !in s[..i]
  {
    if s == [] || s[0] == x then 0 else 1 + IndexOf(s[1..], x)
  }

  /** Dropping matches of `x` costs exactly their bytes. */
  lemma {:induction false} DropFirstLen(s: seq<Bytes>, x: Bytes, n: nat)
    ensures |DropFirst(s, x, n)| <= |s|
    ensures TotalLen(s) == TotalLen(DropFirst(s, x, n)) + (|s| - |DropFirst(s, x, n)|) * |x|
  {
    if s != [] && n > 0 {
      if s[0] == x {
        DropFirstLen(s[1..], x, n - 1);
        var k := |s[1..]| - |DropFirst(s[1..], x, n - 1)|;
        assert (k + 1) * |x| == k * |x| + |x|;
      } else {
        DropFirstLen(s[1..], x, n);
        TotalLenSnoc(DropFirst(s[1..], x, n), s[0]);
      }
    }
  }

  lemma {:induction false} DropLastLen(s: seq<Bytes>, x: Bytes, n: nat)
    ensures |DropLast(s, x, n)| <= |s|
    ensures TotalLen(s) == TotalLen(DropLast(s, x, n)) + (|s| - |DropLast(s, x, n)|) * |x|
  {
    if s != [] && n > 0 {
      var init, last := s[..|s| - 1], s[|s| - 1];
      TotalLenEnds(s);
      if last == x {
        DropLastLen(init, x, n - 1);
        var k := |init| - |DropLast(init, x, n - 1)|;
        assert (k + 1) * |x| == k * |x| + |x|;
      } else {
        DropLastLen(init, x, n);
        TotalLenSnoc(DropLast(init, x, n), last);
      }
    }
  }

  function Reverse(s: seq<Bytes>): (r: seq<Bytes>)
    ensures |r| == |s|
  {
    if s == [] then [] else Reverse(s[1..]) + [s[0]]
  }

  lemma {:induction false} ReverseSnoc(s: seq<Bytes>, v: Bytes)
    ensures Reverse(s + [v]) == [v] + Reverse(s)
  {
    if s != [] {
      assert (s + [v])[1..] == s[1..] + [v];
      ReverseSnoc(s[1..], v);
    }
  }

  /** Removing from the tail is removing from the head of the mirrored list. */
  lemma {:induction false} DropLastMirrors(s: seq<Bytes>, x: Bytes, n: nat)
    ensures Reverse(DropLast(s, x, n)) == DropFirst(Reverse(s), x, n)
  {
    if s != [] && n > 0 {
      var init, last := s[..|s| - 1], s[|s| - 1];
      assert s == init + [last];
      ReverseSnoc(init, last);
      assert Reverse(s)[1..] == Reverse(init);
      if last == x {
        DropLastMirrors(init, x, n - 1);
      } else {
        DropLastMirrors(init, x, n);
        ReverseSnoc(DropLast(init, x, n), last);
      }
    }
  }

  // ---- The large encoding ----

  class LinkedList {
    var items: seq<Bytes>
    var bytes: nat

    ghost predicate Valid()
      reads this
    {
      bytes == TotalLen(items)
    }

    constructor ()
      ensures Valid() && items == []
    {
      items, bytes := [], 0;
    }

    method PushFront(v: Bytes)
      requires Valid()
      modifies this
      ensures Valid() && items == [v] + old(items)
    {
      TotalLenSnoc(items, v);
      bytes := bytes + |v|;
      items := [v] + items;
    }

    method PushBack(v: Bytes)
      requires Valid()
      modifies this
      ensures Valid() && items == old(items) + [v]
    {
      TotalLenSnoc(items, v);
      bytes := bytes + |v|;
      items := items + [v];
    }

    method PopFront() returns (r: Option<Bytes>)
      requires Valid()
      modifies this
      ensures Valid()
      ensures old(items) == [] ==> r == None && items == []
      ensures old(items) != [] ==> r == Some(old(items)[0]) && items == old(items)[1..]
    {
      if items == [] { return None; }
      TotalLenEnds(items);
      r := Some(items[0]);
      items := items[1..];
      bytes := SaturatingSub(bytes, |r.value|);
    }

    method PopBack() returns (r: Option<Bytes>)
      requires Valid()
      modifies this
      ensures Valid()
      ensures old(items) == [] ==> r == None && items == []
      ensures old(items) != [] ==>
        r == Some(old(items)[|old(items)| - 1]) && items == old(items)[..|old(items)| - 1]
    {
      if items == [] { return None; }
      TotalLenEnds(items);
      r := Some(items[|items| - 1]);
      items := items[..|items| - 1];
      bytes := SaturatingSub(bytes, |r.value|);
    }

    /** LREM head to tail: drains the deque, skipping up to `n` matches. */
    method RemFront(elem: Bytes, n: nat) returns (removed: nat)
      requires Valid()
      modifies this
      ensures Valid() && items == DropFirst(old(items), elem, n)
      ensures TotalLen(old(items)) == TotalLen(items) + removed * |elem| && removed + |items| == |old(items)|
    {
      var keep: seq<Bytes>, newBytes: nat, left: nat, rest := [], 0, n, items;
      var all := items;
      removed := 0;
      while rest != []
        invariant newBytes == TotalLen(keep) && removed + |rest| + |keep| == |all|
        invariant DropFirst(all, elem, n) == keep + DropFirst(rest, elem, left)
      {
        var x := rest[0];
        DrainKeep(rest, elem, left, keep);
        rest := rest[1..];
        if left > 0 && x == elem {
          left := left - 1;
          removed := removed + 1;
        } else {
          TotalLenSnoc(keep, x);
          newBytes := newBytes + |x|;
          keep := keep + [x];
        }
      }
      assert keep + [] == keep;
      DropFirstLen(all, elem, n);
      items, bytes := keep, newBytes;
    }

    /** LREM tail to head. */
    method RemBack(elem: Bytes, n: nat) returns (removed: nat)
      requires Valid()
      modifies this
      ensures Valid() && items == DropLast(old(items), elem, n)
      ensures TotalLen(old(items)) == TotalLen(items) + removed * |elem| && removed + |items| == |old(items)|
    {
      var keep: seq<Bytes>, newBytes: nat, left: nat, rest := [], 0, n, items;
      var all := items;
      removed := 0;
      assert DropLast(rest, elem, left) + [] == DropLast(rest, elem, left);
      while rest != []
        invariant newBytes == TotalLen(keep) && removed + |rest| + |keep| == |all|
        invariant DropLast(all, elem, n) == DropLast(rest, elem, left) + keep
      {
        var x := rest[|rest| - 1];
        DrainKeep(rest, elem, left, keep);
        rest := rest[..|rest| - 1];
        if left > 0 && x == elem {
          left := left - 1;
          removed := removed + 1;
        } else {
          TotalLenSnoc(keep, x);
          newBytes := newBytes + |x|;
          keep := [x] + keep;
        }
      }
      assert [] + keep == keep;
      DropLastLen(all, elem, n);
      items, bytes := keep, newBytes;
    }

    /** LTRIM on the deque: drops the tail, then the head. Returns the bytes dropped. */
    method Trim(start: nat, stop: nat) returns (dropped: nat)
      requires Valid()
      modifies this
      ensures Valid() && items == Slice(old(items), start, stop)
      ensures dropped == TotalLen(old(items)) - TotalLen(items)
    {
      if start >= |items| || start > stop {
        dropped := bytes;
        items, bytes := [], 0;
        return;
      }
      var last := if stop < |items| - 1 then stop else |items| - 1;
      dropped := 0;
      while |items| > last + 1
        invariant Valid() && last < |items| <= |old(items)| && items == old(items)[..|items|]
        invariant dropped + bytes == TotalLen(old(items))
      {
        TotalLenEnds(items);
        var v := PopBack();
        dropped := dropped + |v.value|;
      }
      for i := 0 to start
        invariant Valid() && items == old(items)[i..last + 1]
        invariant dropped + bytes == TotalLen(old(items))
      {
        TotalLenEnds(items);
        var v := PopFront();
        dropped := dropped + |v.value|;
      }
    }
  }

  /** A kept element moves from the rest to the kept part. */
  lemma DrainKeep(s: seq<Bytes>, elem: Bytes, left: nat, keep: seq<Bytes>)
    requires s != []
    ensures left == 0 || s[0] != elem ==>
      keep + DropFirst(s, elem, left) == keep + [s[0]] + DropFirst(s[1..], elem, left)
    ensures left == 0 || s[|s| - 1] != elem ==>
      DropLast(s, elem, left) + keep == DropLast(s[..|s| - 1], elem, left) + ([s[|s| - 1]] + keep)
  {
    assert [s[0]] + s[1..] == s && s[..|s| - 1] + [s[|s| - 1]] == s;
  }

  // ---- The dual encoding ----

  /** A linked list of contents `s` that the thresholds let go back to the compact encoding. */
  ghost predicate Packable(s: seq<Bytes>, thr: Thresholds) {
    |s| <= thr.demoteEntries && TotalLen(s) <= thr.maxSize && forall k :: 0 <= k < |s| ==> |s[k]| <= thr.maxElem
  }

  /** A push of `n` bytes that the compact encoding of `s` must not take. */
  predicate Overflows(s: seq<Bytes>, n: nat, thr: Thresholds) {
    n > thr.maxElem || |s| + 1 > thr.maxEntries || TotalLen(s) + n > thr.maxSize
  }

  /** The elements fit a compact list within the limits. */
  ghost predicate Small(s: seq<Bytes>, lim: Limits) {
    |s| <= lim.entries && TotalLen(s) <= lim.size && forall k :: 0 <= k < |s| ==> |s[k]| <= lim.elem
  }

  /** If the thresholds let a push of `n` bytes into the compact encoding of `s`, the limits do too. */
  predicate Admits(lim: Limits, thr: Thresholds, s: seq<Bytes>, n: nat) {
    Overflows(s, n, thr) || (n <= lim.elem && |s| < lim.entries && TotalLen(s) + n <= lim.size)
  }

  /** If the thresholds let `s` go back to the compact encoding, the limits do too. */
  ghost predicate Readmits(lim: Limits, thr: Thresholds, s: seq<Bytes>) {
    Packable(s, thr) ==> Small(s, lim)
  }

  predicate Within(thr: Thresholds, lim: Limits) {
    thr.maxEntries <= lim.entries && thr.demoteEntries <= lim.entries &&
    thr.maxSize <= lim.size && thr.maxElem <= lim.elem
  }

  /** Thresholds within the limits are one way to stay within them. */
  lemma WithinAdmits(lim: Limits, thr: Thresholds, s: seq<Bytes>, n: nat)
    requires Within(thr, lim)
    ensures Admits(lim, thr, s, n) && Readmits(lim, thr, s)
  {
  }

  /** Exactly one of `compact` and `linked` is present: the source's two-variant enum, replaced in place. */
  class ListData {
    var compact: CompactList?
    var linked: LinkedList?

    ghost predicate Valid(lim: Limits)
      reads this, compact, linked
    {
      && Addressable(lim) && (compact == null) != (linked == null)
      && (compact != null ==> compact.Valid() && compact.Bounded(lim))
      && (linked != null ==> linked.Valid())
    }

    ghost function Contents(): seq<Bytes>
      reads this, compact, linked
    {
      if compact != null then compact.elems else if linked != null then linked.items else []
    }

    /** The storage after a call is the storage before it or newly allocated. */
    twostate predicate SameOrFresh()
      reads this
    {
      (compact != null ==> compact == old(compact) || fresh(compact)) &&
      (linked != null ==> linked == old(linked) || fresh(linked))
    }

    constructor (ghost lim: Limits)
      requires Addressable(lim)
      ensures Valid(lim) && Contents() == []
      ensures fresh(compact) && linked == null
    {
      compact := new CompactList();
      linked := null;
    }

    method Len() returns (n: nat)
      requires exists lim :: Valid(lim)
      ensures n == |Contents()|
    {
      if compact != null { n := compact.len; } else { n := |linked.items|; }
    }

    /** What the store's memory accounting reads: exactly the sum of the element lengths. */
    method PayloadBytes() returns (n: nat)
      requires exists lim :: Valid(lim)
      ensures n == TotalLen(Contents())
    {
      if compact != null { n := compact.bytes; } else { n := linked.bytes; }
    }

    method EnsureLinked(ghost lim: Limits)
      requires Valid(lim)
      modifies this
      ensures Valid(lim) && linked != null && Contents() == old(Contents()) && SameOrFresh()
    {
      if compact != null {
        var payload := compact.bytes;
        var all := compact.IterElements();
        var d := Unpack(all, payload);
        compact, linked := null, d;
      }
    }

    /** Linked to compact, when the list and every element are small enough again. */
    method MaybeDemote(thr: Thresholds, ghost lim: Limits)
      requires Valid(lim) && Readmits(lim, thr, Contents())
      modifies this
      ensures Valid(lim) && Contents() == old(Contents()) && SameOrFresh()
      ensures compact != null <==> old(compact != null) || Packable(Contents(), thr)
    {
      if linked == null || |linked.items| > thr.demoteEntries { return; }
      var items := linked.items;
      var fits := FitsCompact(items, thr);
      if !fits { return; }
      compact := Pack(items, lim);
      linked := null;
    }

    method PushFront(v: Bytes, thr: Thresholds, ghost lim: Limits)
      requires Valid(lim) && Admits(lim, thr, Contents(), |v|)
      modifies this, compact, linked
      ensures Valid(lim) && Contents() == [v] + old(Contents()) && SameOrFresh()
      ensures compact != null <==> old(compact != null) && !Overflows(old(Contents()), |v|, thr)
    {
      if ShouldPromote(|v|, thr) { EnsureLinked(lim); }
      if linked != null { linked.PushFront(v); } else { compact.PushFront(v, lim); }
    }

    method PushBack(v: Bytes, thr: Thresholds, ghost lim: Limits)
      requires Valid(lim) && Admits(lim, thr, Contents(), |v|)
      modifies this, compact, linked
      ensures Valid(lim) && Contents() == old(Contents()) + [v] && SameOrFresh()
      ensures compact != null <==> old(compact != null) && !Overflows(old(Contents()), |v|, thr)
    {
      if ShouldPromote(|v|, thr) { EnsureLinked(lim); }
      if linked != null { linked.PushBack(v); } else { compact.PushBack(v, lim); }
    }

    /** A compact list promotes when the push would exceed any threshold. */
    predicate ShouldPromote(elemLen: nat, thr: Thresholds)
      reads this, compact
    {
      compact != null &&
      (elemLen > thr.maxElem || compact.len + 1 > thr.maxEntries || compact.bytes + elemLen > thr.maxSize)
    }

    method PopFront(thr: Thresholds, ghost lim: Limits) returns (r: Option<Bytes>)
      requires Valid(lim) && (Contents() != [] ==> Readmits(lim, thr, Contents()[1..]))
      modifies this, compact, linked
      ensures Valid(lim) && SameOrFresh()
      ensures compact != null <==> old(compact != null) || (r.Some? && Packable(Contents(), thr))
      ensures old(Contents()) == [] ==> r == None && Contents() == []
      ensures old(Contents()) != [] ==> r == Some(old(Contents())[0]) && Contents() == old(Contents())[1..]
    {
      if compact != null { r := compact.PopFront(); } else { r := linked.PopFront(); }
      if r.Some? { MaybeDemote(thr, lim); }
    }

    method PopBack(thr: Thresholds, ghost lim: Limits) returns (r: Option<Bytes>)
      requires Valid(lim) && (Contents() != [] ==> Readmits(lim, thr, Contents()[..|Contents()| - 1]))
      modifies this, compact, linked
      ensures Valid(lim) && SameOrFresh()
      ensures compact != null <==> old(compact != null) || (r.Some? && Packable(Contents(), thr))
      ensures old(Contents()) == [] ==> r == None && Contents() == []
      ensures old(Contents()) != [] ==>
        var s := old(Contents()); r == Some(s[|s| - 1]) && Contents() == s[..|s| - 1]
    {
      if compact != null { r := compact.PopBack(); } else { r := linked.PopBack(); }
      if r.Some? { MaybeDemote(thr, lim); }
    }

    method Get(i: nat) returns (r: Option<Bytes>)
      requires exists lim :: Valid(lim)
      ensures r == if i < |Contents()| then Some(Contents()[i]) else None
    {
      if compact != null {
        r := compact.Get(i);
      } else {
        r := if i < |linked.items| then Some(linked.items[i]) else None;
      }
    }

    /** LSET. The delta is the exact change of the payload. */
    method Set(i: nat, v: Bytes, ghost lim: Limits) returns (ok: bool, delta: int)
      requires Valid(lim)
      modifies this, linked
      ensures Valid(lim) && SameOrFresh() && linked != null
      ensures ok == (i < |old(Contents())|)
      ensures Contents() == if ok then old(Contents())[i := v] else old(Contents())
      ensures delta == TotalLen(Contents()) - TotalLen(old(Contents()))
    {
      EnsureLinked(lim);
      if i >= |linked.items| { return false, 0; }
      ghost var s := linked.items;
      TotalLenAt(s, i);
      TotalLenAt(s[i := v], i);
      assert s[i := v][..i] == s[..i] && s[i := v][i + 1..] == s[i + 1..];
      var oldLen := |linked.items[i]|;
      delta := |v| - oldLen;
      linked.bytes := SaturatingSub(linked.bytes, oldLen) + |v|;
      linked.items := linked.items[i := v];
      ok := true;
    }

    /** LINSERT: before (`after` false) or after the first occurrence of the pivot; the new length, if found. */
    method Insert(pivot: Bytes, v: Bytes, after: bool, ghost lim: Limits) returns (r: Option<nat>)
      requires Valid(lim)
      modifies this, linked
      ensures Valid(lim) && SameOrFresh() && linked != null
      ensures var s, i := old(Contents()), IndexOf(old(Contents()), pivot);
        if i == |s| then r == None && Contents() == s
        else r == Some(|s| + 1) && Contents() == Inserted(s, if after then i + 1 else i, v)
    {
      EnsureLinked(lim);
      var i := IndexOf(linked.items, pivot);
      if i == |linked.items| { return None; }
      InsertedLen(linked.items, if after then i + 1 else i, v);
      linked.bytes := linked.bytes + |v|;
      linked.items := Inserted(linked.items, if after then i + 1 else i, v);
      return Some(|linked.items|);
    }

    /** LREM. Returns how many were removed and the exact payload change. */
    method Rem(count: int, elem: Bytes, thr: Thresholds, ghost lim: Limits) returns (removed: nat, delta: int)
      requires Valid(lim) && Readmits(lim, thr, Removed(Contents(), count, elem))
      modifies this, linked
      ensures Valid(lim) && SameOrFresh()
      ensures Contents() == Removed(old(Contents()), count, elem)
      ensures removed == |old(Contents())| - |Contents()|
      ensures compact != null <==> removed > 0 && Packable(Contents(), thr)
      ensures delta == TotalLen(Contents()) - TotalLen(old(Contents()))
    {
      EnsureLinked(lim);
      if count < 0 {
        removed := linked.RemBack(elem, -count);
      } else {
        removed := linked.RemFront(elem, if count == 0 then |linked.items| else count);
      }
      if removed > 0 { MaybeDemote(thr, lim); }
      delta := -((removed * |elem|) as int);
    }

    /** LTRIM. Returns the exact payload change. */
    method Trim(start: nat, stop: nat, thr: Thresholds, ghost lim: Limits) returns (delta: int)
      requires Valid(lim) && Readmits(lim, thr, Slice(Contents(), start, stop))
      modifies this, linked
      ensures Valid(lim) && SameOrFresh()
      ensures Contents() == Slice(old(Contents()), start, stop)
      ensures compact != null <==> Packable(Contents(), thr)
      ensures delta == TotalLen(Contents()) - TotalLen(old(Contents()))
    {
      EnsureLinked(lim);
      var dropped := linked.Trim(start, stop);
      MaybeDemote(thr, lim);
      delta := 0 - dropped as int;
    }

    /** LRANGE. */
    method RangeBytes(start: nat, stop: nat) returns (r: seq<Bytes>)
      requires exists lim :: Valid(lim)
      ensures r == Slice(Contents(), start, stop)
    {
      var n := Len();
      if n == 0 || start > stop || start >= n { return []; }
      var last := if stop < n - 1 then stop else n - 1;
      if compact != null { r := compact.RangeBytes(start, last); } else { r := linked.items[start..last + 1]; }
    }
  }

  /** Copies packed elements into a deque; the byte total is taken over rather than recounted. */
  method Unpack(all: seq<Bytes>, payload: nat) returns (d: LinkedList)
    requires payload == TotalLen(all)
    ensures fresh(d) && d.Valid() && d.items == all
  {
    d := new LinkedList();
    for i := 0 to |all|
      invariant fresh(d) && d.Valid() && d.items == all[..i]
    {
      d.PushBack(all[i]);
    }
    assert all[..|all|] == all;
    d.bytes := payload;
  }

  /** Every element and the running total within the compact thresholds. */
  method FitsCompact(items: seq<Bytes>, thr: Thresholds) returns (ok: bool)
    ensures ok <==> TotalLen(items) <= thr.maxSize && forall k :: 0 <= k < |items| ==> |items[k]| <= thr.maxElem
  {
    var total := 0;
    for i := 0 to |items|
      invariant total == TotalLen(items[..i]) <= thr.maxSize
      invariant forall k :: 0 <= k < i ==> |items[k]| <= thr.maxElem
    {
      if |items[i]| > thr.maxElem { return false; }
      total := total + |items[i]|;
      TotalLenSnoc(items[..i], items[i]);
      PrefixFits(items, i);
      assert items[..i + 1] == items[..i] + [items[i]];
      if total > thr.maxSize { return false; }
    }
    assert items[..|items|] == items;
    return true;
  }

  /** Rebuilds a compact list from elements known to fit. */
  method Pack(items: seq<Bytes>, ghost lim: Limits) returns (c: CompactList)
    requires Addressable(lim) && |items| <= lim.entries && TotalLen(items) <= lim.size
    requires forall k :: 0 <= k < |items| ==> |items[k]| <= lim.elem
    ensures fresh(c) && c.Valid() && c.Bounded(lim) && c.elems == items
  {
    c := new CompactList.WithCapacity();
    for i := 0 to |items|
      invariant fresh(c) && c.Valid() && c.Bounded(lim) && c.elems == items[..i]
    {
      PrefixFits(items, i);
      c.PushBack(items[i], lim);
    }
  }

  lemma PrefixFits(items: seq<Bytes>, i: nat)
    requires i < |items|
    ensures TotalLen(items[..i]) + |items[i]| <= TotalLen(items)
  {
    TotalLenAt(items, i);
  }

  function Inserted(s: seq<Bytes>, i: nat, v: Bytes): seq<Bytes>
    requires i <= |s|
  {
    s[..i] + [v] + s[i..]
  }

  lemma InsertedLen(s: seq<Bytes>, i: nat, v: Bytes)
    requires i <= |s|
    ensures TotalLen(Inserted(s, i, v)) == TotalLen(s) + |v|
  {
    EncodeAppend(s[..i] + [v], s[i..]);
    TotalLenSnoc(s[..i], v);
    EncodeAppend(s[..i], s[i..]);
    assert s == s[..i] + s[i..];
  }
}

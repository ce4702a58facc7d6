/**
 The compact list: a byte buffer with spare room before `head`, and an offset table with
 spare slots before `offHead`, so that pushes at both ends are cheap.
 */
module ListPacking {
  import opened ByteStrings
  import opened Packed

  /** Upper bounds on the thresholds a list may ever be used with. */
  datatype Limits = Limits(entries: nat, size: nat, elem: nat)

  /** The most live data a compact list holds. */
  function LiveCap(lim: Limits): nat {
    4 * lim.entries + lim.size
  }

  /** The most dead space before the live data. */
  function HeadCap(lim: Limits): nat {
    Max(4096, Max(LiveCap(lim), 8 * (4 + lim.elem)))
  }

  function BufCap(lim: Limits): nat {
    HeadCap(lim) + LiveCap(lim)
  }

  /** Offsets are 32-bit, so the limits must keep the buffer addressable. */
  predicate Addressable(lim: Limits) {
    BufCap(lim) < TWO_32
  }

  /** The reply size the range snapshot reserves: 12 framing bytes per element. */
  function Estimate(elems: seq<Bytes>): nat {
    16 + 12 * |elems| + TotalLen(elems)
  }

  /** An offset is stored as it is exactly below 2^32; past that the table would point elsewhere. */
  lemma OffsetExact(at: nat)
    ensures Low32(at) == at <==> at < TWO_32
  {
  }

  lemma DefaultLimits()
    ensures HeadCap(Limits(512, 8192, 256)) == 10240 && BufCap(Limits(512, 8192, 256)) == 20480
    ensures Addressable(Limits(512, 8192, 256))
  {
  }

  class CompactList {
    var buf: Bytes
    var head: nat
    var len: nat
    var bytes: nat
    var offsets: seq<u32>
    var offHead: nat
    ghost var elems: seq<Bytes>

    /** The live buffer is the encoding of `elems` and every live offset points at its element. */
    ghost predicate Valid()
      reads this
    {
      len == |elems| && bytes == TotalLen(elems) && Laid(buf, head, offsets, offHead, elems)
    }

    /** Sizes stay inside the limits. */
    ghost predicate Bounded(lim: Limits)
      reads this
    {
      head <= HeadCap(lim) && len <= lim.entries && bytes <= lim.size
    }

    /** Hence the whole buffer does too. */
    lemma BufferBounded(lim: Limits)
      requires Valid() && Bounded(lim)
      ensures |buf| <= BufCap(lim)
    {
      StoresLen(buf, head, elems);
    }

    constructor ()
      ensures Valid() && elems == [] && forall lim :: Bounded(lim)
    {
      buf := seq(128, _ => 0);
      head, len, bytes, elems := 128, 0, 0, [];
      offsets := seq(16, _ => 0);
      offHead := 16;
    }

    constructor WithCapacity()
      ensures Valid() && elems == [] && forall lim :: Bounded(lim)
    {
      buf, head, len, bytes, offsets, offHead, elems := [], 0, 0, 0, [], 0, [];
    }

    /** Grows the dead space before `head` to at least `need`, moving the live data and its offsets. */
    method EnsureFrontRoom(need: nat, ghost lim: Limits)
      requires Valid() && Bounded(lim) && Addressable(lim) && need <= 4 + lim.elem
      modifies this`buf, this`head, this`offsets
      ensures Valid() && Bounded(lim) && need <= head
    {
      if head >= need { return; }
      var live := |buf| - head;
      var spare := Max(Max(Max(need * 8, live / 2), 64), need);
      var newBuf := seq(spare, _ => 0) + buf[head..];
      var delta := spare - head;
      StoresLen(buf, head, elems);
      StoresMove(buf, head, elems, seq(spare, _ => 0));
      Rebase(delta);
      buf, head := newBuf, spare;
    }

    /** Adds `delta` to every live offset. */
    method Rebase(delta: int)
      requires OffsetsPoint(offsets, offHead, head, elems) && len == |elems|
      requires 0 <= head + delta && head + delta + |Encode(elems)| < TWO_32
      modifies this`offsets
      ensures OffsetsPoint(offsets, offHead, head + delta, elems)
    {
      ghost var before := offsets;
      for j := offHead to offHead + len
        invariant |offsets| == |before|
        invariant forall k :: offHead <= k < j ==> offsets[k] == before[k] + delta
        invariant forall k :: j <= k < offHead + len ==> offsets[k] == before[k]
      {
        PosStep(elems, j - offHead);
        offsets := offsets[j := Low32(offsets[j] + delta)];
      }
    }

    /** Makes sure there is a free slot before `offHead`. */
    method EnsureOffFrontRoom()
      requires Valid()
      modifies this`offsets, this`offHead
      ensures Valid() && 0 < offHead
    {
      if offHead > 0 { return; }
      var spare := Max(len, 8);
      offsets := seq(spare, _ => 0) + offsets[offHead..offHead + len];
      offHead := spare;
    }

    method PushBack(v: Bytes, ghost lim: Limits)
      requires Valid() && Bounded(lim) && Addressable(lim)
      requires |v| <= lim.elem && len + 1 <= lim.entries && bytes + |v| <= lim.size
      modifies this
      ensures Valid() && Bounded(lim) && elems == old(elems) + [v]
    {
      var off := Low32(|buf|);
      var end := offHead + len;
      var slots := if end < |offsets| then offsets[..end] else offsets;
      StoresLen(buf, head, elems);
      PushBackPoints(slots, offHead, head, elems, v, off);
      StoresSnoc(buf, head, elems, v);
      offsets := slots + [off];
      buf := buf + U32Le(Low32(|v|)) + v;
      len, bytes, elems := len + 1, bytes + |v|, elems + [v];
      StoresLen(buf, head, elems);
    }

    method PushFront(v: Bytes, ghost lim: Limits)
      requires Valid() && Bounded(lim) && Addressable(lim)
      requires |v| <= lim.elem && len + 1 <= lim.entries && bytes + |v| <= lim.size
      modifies this
      ensures Valid() && Bounded(lim) && elems == [v] + old(elems)
    {
      var insert := 4 + |v|;
      EnsureFrontRoom(insert, lim);
      EnsureOffFrontRoom();
      WriteFront(v);
    }

    /** Writes `v` into the room before `head`; existing offsets stay valid. */
    method WriteFront(v: Bytes)
      requires Valid() && 4 + |v| <= head && 0 < offHead
      modifies this
      ensures Valid() && elems == [v] + old(elems) && head < old(head)
    {
      var start := head - (4 + |v|);
      FrontLaid(buf, head, offsets, offHead, elems, v);
      buf := buf[..start] + U32Le(Low32(|v|)) + v + buf[head..];
      offsets := offsets[offHead - 1 := Low32(start)];
      head, offHead := start, offHead - 1;
      len, bytes, elems := len + 1, bytes + |v|, [v] + elems;
    }

    /** Takes the first element; gives dead space back once it outweighs the live data. */
    method PopFront() returns (r: Option<Bytes>)
      requires Valid()
      modifies this
      ensures Valid()
      ensures forall lim :: old(Bounded(lim)) ==> Bounded(lim)
      ensures old(elems) == [] ==> r == None && elems == []
      ensures old(elems) != [] ==> r == Some(old(elems)[0]) && elems == old(elems)[1..]
    {
      if len == 0 { return None; }
      ElementReadsBack(buf, head, elems, 0);
      var n := ReadU32(buf, head);
      r := Some(buf[head + 4..head + 4 + n]);
      SkipFront(n);
      ReclaimPrefix();
      ReclaimOffsets();
    }

    /** Moves both heads past the first element, which has `n` bytes. */
    method SkipFront(n: nat)
      requires Valid() && elems != [] && n == |elems[0]|
      modifies this`head, this`offHead, this`len, this`bytes, this`elems
      ensures Valid() && elems == old(elems)[1..] && len == old(len) - 1 && bytes == old(bytes) - n
      ensures head == old(head) + 4 + n && offHead == old(offHead) + 1
    {
      TailLaid(buf, head, offsets, offHead, elems);
      head, offHead := head + 4 + n, offHead + 1;
      len, bytes, elems := len - 1, bytes - n, elems[1..];
    }

    /** Drops the dead bytes before `head` once there are more of them than live ones. */
    method ReclaimPrefix()
      requires Valid()
      modifies this`buf, this`head, this`offsets
      ensures Valid() && (head == old(head) || head == 0) && (head <= 4096 || head <= 4 * len + bytes)
    {
      StoresLen(buf, head, elems);
      if head > 4096 && head > |buf| - head {
        Rebase(0 - head as int);
        StoresMove(buf, head, elems, []);
        buf := [] + buf[head..];
        head := 0;
      }
    }

    method ReclaimOffsets()
      requires Valid()
      modifies this`offsets, this`offHead
      ensures Valid()
    {
      if offHead > 64 && offHead > len {
        offsets := offsets[offHead..offHead + len];
        offHead := 0;
      }
    }

    method PopBack() returns (r: Option<Bytes>)
      requires Valid()
      modifies this
      ensures Valid()
      ensures forall lim :: old(Bounded(lim)) ==> Bounded(lim)
      ensures old(elems) == [] ==> r == None && elems == []
      ensures old(elems) != [] ==>
        r == Some(old(elems)[|old(elems)| - 1]) && elems == old(elems)[..|old(elems)| - 1]
    {
      if len == 0 { return None; }
      ghost var rest, last := elems[..len - 1], elems[len - 1];
      assert elems == rest + [last];
      PopBackPoints(offsets, offHead, head, rest, last);
      ElementReadsBack(buf, head, elems, len - 1);
      var start := offsets[offHead + len - 1];
      var n := ReadU32(buf, start);
      r := Some(buf[start + 4..start + 4 + n]);
      StoresInit(buf, head, rest, last);
      DropLast(start, n, rest);
    }

    method DropLast(start: nat, n: nat, ghost rest: seq<Bytes>)
      requires 0 < len && offHead + len <= |offsets| && start <= |buf| && n <= bytes
      requires |rest| == len - 1 && TotalLen(rest) == bytes - n
      requires Stores(buf[..start], head, rest) && start < TWO_32
      requires OffsetsPoint(offsets[..offHead + len - 1], offHead, head, rest)
      modifies this
      ensures Valid() && elems == rest && head == old(head)
    {
      buf := buf[..start];
      offsets := offsets[..offHead + len - 1];
      len, bytes, elems := len - 1, bytes - n, rest;
    }

    method Get(i: nat) returns (r: Option<Bytes>)
      requires Valid()
      ensures r == if i < |elems| then Some(elems[i]) else None
    {
      if i >= len { return None; }
      ElementReadsBack(buf, head, elems, i);
      var off := offsets[offHead + i];
      var n := ReadU32(buf, off);
      return Some(buf[off + 4..off + 4 + n]);
    }

    /** Walks `remaining` elements from the byte offset of element `start`. */
    method Walk(start: nat, remaining: nat, first: nat) returns (r: seq<Bytes>)
      requires Valid() && start + remaining <= len && first == head + Pos(elems, start)
      ensures r == elems[start..start + remaining]
    {
      r := [];
      var off: nat := first;
      for i := 0 to remaining
        invariant r == elems[start..start + i] && off == head + Pos(elems, start + i)
      {
        ElementReadsBack(buf, head, elems, start + i);
        PosStep(elems, start + i);
        var n := ReadU32(buf, off);
        r := r + [buf[off + 4..off + 4 + n]];
        off := off + 4 + n;
      }
    }

    /** Elements `start` to `stop`, both included. */
    method RangeBytes(start: nat, stop: nat) returns (r: seq<Bytes>)
      requires Valid() && start <= stop < len
      ensures r == elems[start..stop + 1]
    {
      r := Walk(start, stop - start + 1, offsets[offHead + start]);
    }

    method IterElements() returns (r: seq<Bytes>)
      requires Valid()
      ensures r == elems
    {
      r := Walk(0, len, if len == 0 then head else offsets[offHead]);
    }

    /** The region of `buf` covering elements `start` to `stop`, and a size estimate for its RESP array. */
    method RangeSnap(start: nat, stop: nat) returns (begin: nat, end: nat, need: nat)
      requires Valid() && start <= stop < len
      ensures begin <= end <= |buf| && buf[begin..end] == Encode(elems[start..stop + 1])
      ensures need == Estimate(elems[start..stop + 1])
    {
      begin := offsets[offHead + start];
      var endOff := offsets[offHead + stop];
      ElementReadsBack(buf, head, elems, stop);
      var endN := ReadU32(buf, endOff);
      end := endOff + 4 + endN;
      var count := stop - start + 1;
      RangeRegion(buf, head, elems, start, stop);
      EncodeLen(elems[start..stop + 1]);
      var payload := end - begin - count * 4;
      need := 16 + count * 12 + payload;
    }
  }

  /** Slot `offHead + i` holds the absolute position of element `i`. */
  ghost predicate OffsetsPoint(offsets: seq<u32>, offHead: nat, head: nat, elems: seq<Bytes>) {
    offHead + |elems| <= |offsets| &&
    forall k :: offHead <= k < offHead + |elems| ==> offsets[k] == head + Pos(elems, k - offHead)
  }

  lemma PushBackPoints(slots: seq<u32>, offHead: nat, head: nat, elems: seq<Bytes>, v: Bytes, off: u32)
    requires |slots| == offHead + |elems| && OffsetsPoint(slots, offHead, head, elems)
    requires off == head + 4 * |elems| + TotalLen(elems)
    ensures OffsetsPoint(slots + [off], offHead, head, elems + [v])
  {
    PosEnd(elems);
    EncodeLen(elems);
    forall k | offHead <= k < offHead + |elems| + 1
      ensures (slots + [off])[k] == head + Pos(elems + [v], k - offHead)
    {
      PosPrefix(elems, [v], k - offHead);
    }
  }

  /** Buffer and offset table hold `elems`. */
  ghost predicate Laid(buf: Bytes, head: nat, offsets: seq<u32>, offHead: nat, elems: seq<Bytes>) {
    Stores(buf, head, elems) && |buf| < TWO_32 && OffsetsPoint(offsets, offHead, head, elems)
  }

  lemma FrontLaid(buf: Bytes, head: nat, offsets: seq<u32>, offHead: nat, elems: seq<Bytes>, v: Bytes)
    requires Laid(buf, head, offsets, offHead, elems) && 4 + |v| <= head && 0 < offHead
    ensures var start := head - (4 + |v|);
      && offHead <= |offsets|
      && Laid(buf[..start] + U32Le(Low32(|v|)) + v + buf[head..], start, offsets[offHead - 1 := Low32(start)], offHead - 1, [v] + elems)
    ensures TotalLen([v] + elems) == |v| + TotalLen(elems)
  {
    var start := head - (4 + |v|);
    StoresCons(buf, start, elems, v);
    PushFrontPoints(offsets, offHead, start, elems, v);
  }

  lemma TailLaid(buf: Bytes, head: nat, offsets: seq<u32>, offHead: nat, elems: seq<Bytes>)
    requires Laid(buf, head, offsets, offHead, elems) && elems != []
    ensures Laid(buf, head + 4 + |elems[0]|, offsets, offHead + 1, elems[1..])
    ensures TotalLen(elems) == |elems[0]| + TotalLen(elems[1..])
  {
    PopFrontPoints(offsets, offHead, head, elems);
    StoresTail(buf, head, elems);
  }

  lemma PushFrontPoints(offsets: seq<u32>, offHead: nat, head: nat, elems: seq<Bytes>, v: Bytes)
    requires 0 < offHead && head < TWO_32 && OffsetsPoint(offsets, offHead, head + 4 + |v|, elems)
    ensures OffsetsPoint(offsets[offHead - 1 := head], offHead - 1, head, [v] + elems)
  {
    assert ([v] + elems)[1..] == elems;
  }

  lemma PopFrontPoints(offsets: seq<u32>, offHead: nat, head: nat, elems: seq<Bytes>)
    requires elems != [] && OffsetsPoint(offsets, offHead, head, elems)
    ensures OffsetsPoint(offsets, offHead + 1, head + 4 + |elems[0]|, elems[1..])
  {
  }

  lemma PopBackPoints(offsets: seq<u32>, offHead: nat, head: nat, rest: seq<Bytes>, last: Bytes)
    requires OffsetsPoint(offsets, offHead, head, rest + [last])
    ensures offsets[offHead + |rest|] == head + |Encode(rest)|
    ensures OffsetsPoint(offsets[..offHead + |rest|], offHead, head, rest)
  {
    PosEnd(rest);
    PosPrefix(rest, [last], |rest|);
    forall k | offHead <= k < offHead + |rest|
      ensures offsets[k] == head + Pos(rest, k - offHead)
    {
      PosPrefix(rest, [last], k - offHead);
    }
  }

  /** The bytes between the first and past the last element of a range are the range's own encoding. */
  lemma RangeRegion(buf: Bytes, head: nat, elems: seq<Bytes>, start: nat, stop: nat)
    requires Stores(buf, head, elems) && start <= stop < |elems|
    ensures var b, e := head + Pos(elems, start), head + Pos(elems, stop) + 4 + |elems[stop]|;
      b <= e <= |buf| && buf[b..e] == Encode(elems[start..stop + 1])
  {
    PosStep(elems, stop);
    RangeEncoding(elems, start, stop + 1);
    var a, z := Pos(elems, start), Pos(elems, stop + 1);
    assert buf[head + a..head + z] == buf[head..][a..z];
  }

  lemma RangeEncoding(elems: seq<Bytes>, i: nat, j: nat)
    requires i <= j <= |elems|
    ensures Pos(elems, i) <= Pos(elems, j) <= |Encode(elems)|
    ensures Encode(elems)[Pos(elems, i)..Pos(elems, j)] == Encode(elems[i..j])
  {
    PrefixEncoding(elems, i);
    PrefixEncoding(elems, j);
    assert elems[..j] == elems[..i] + elems[i..j];
    EncodeAppend(elems[..i], elems[i..j]);
    assert Encode(elems)[Pos(elems, i)..Pos(elems, j)] == Encode(elems[..j])[Pos(elems, i)..];
  }

  lemma PrefixEncoding(elems: seq<Bytes>, i: nat)
    requires i <= |elems|
    ensures Pos(elems, i) == |Encode(elems[..i])| <= |Encode(elems)|
    ensures Encode(elems)[..Pos(elems, i)] == Encode(elems[..i])
  {
    assert elems == elems[..i] + elems[i..];
    EncodeAppend(elems[..i], elems[i..]);
    PosPrefix(elems[..i], elems[i..], i);
    PosEnd(elems[..i]);
  }
}

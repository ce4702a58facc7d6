/** Length-prefixed packing: `[u32_le len][bytes]` elements back to back, as the compact encodings store them. */
module Packed {
  import opened ByteStrings

  const TWO_32: int := 0x1_0000_0000

  type u32 = n: int | 0 <= n < TWO_32

  /** `as u32`: the low 32 bits. */
  function Low32(n: int): u32 {
    n % TWO_32
  }

  /** The `k` low bytes of `n`, lowest first. */
  function LeBytes(n: nat, k: nat): (r: Bytes)
    ensures |r| == k
  {
    if k == 0 then [] else [n % 256] + LeBytes(n / 256, k - 1)
  }

  /** `(n as u32).to_le_bytes()`. */
  function U32Le(n: u32): (r: Bytes)
    ensures |r| == 4
  {
    LeBytes(n, 4)
  }

  /** `u32::from_le_bytes` at position `i`. */
  function ReadU32(b: Bytes, i: nat): u32
    requires i + 4 <= |b|
  {
    b[i] as int + 256 * (b[i + 1] as int) + 65536 * (b[i + 2] as int) + 16777216 * (b[i + 3] as int)
  }

  lemma U32Digits(n: u32)
    ensures var d := U32Le(n);
      d[0] as int + 256 * (d[1] as int) + 65536 * (d[2] as int) + 16777216 * (d[3] as int) == n
  {
    var n1, n2, n3 := n / 256, n / 256 / 256, n / 256 / 256 / 256;
    assert LeBytes(n3, 1) == [n3 % 256] + LeBytes(n3 / 256, 0);
    assert LeBytes(n2, 2) == [n2 % 256] + LeBytes(n3, 1);
    assert LeBytes(n1, 3) == [n1 % 256] + LeBytes(n2, 2);
    assert U32Le(n) == [n % 256, n1 % 256, n2 % 256, n3 % 256];
  }

  lemma U32ReadsBack(b: Bytes, i: nat, n: u32)
    requires Holds(b, i, U32Le(n))
    ensures ReadU32(b, i) == n
  {
    U32Digits(n);
    HoldsAt(b, i, U32Le(n), 0);
    HoldsAt(b, i, U32Le(n), 1);
    HoldsAt(b, i, U32Le(n), 2);
    HoldsAt(b, i, U32Le(n), 3);
  }

  /** One element: its length, truncated to 32 bits, and its bytes. */
  function Elem(v: Bytes): (r: Bytes)
    ensures |r| == 4 + |v|
  {
    U32Le(Low32(|v|)) + v
  }

  function Encode(elems: seq<Bytes>): Bytes {
    if elems == [] then [] else Elem(elems[0]) + Encode(elems[1..])
  }

  function TotalLen(elems: seq<Bytes>): nat {
    if elems == [] then 0 else |elems[0]| + TotalLen(elems[1..])
  }

  /** A listing of a set names no member twice. */
  ghost predicate NoDup(s: seq<Bytes>) {
    forall i, j :: 0 <= i < j < |s| ==> s[i] != s[j]
  }

  lemma KeepNext<T>(s: seq<T>, j: nat, i: nat)
    requires j < i < |s|
    ensures s[..j] + s[j + 1..i] + [s[i]] == s[..j] + s[j + 1..i + 1]
  {
  }

  /** Where element `i` starts in the encoding. */
  ghost function Pos(elems: seq<Bytes>, i: nat): nat
    requires i <= |elems|
  {
    if i == 0 then 0 else 4 + |elems[0]| + Pos(elems[1..], i - 1)
  }

  lemma {:induction false} EncodeAppend(a: seq<Bytes>, b: seq<Bytes>)
    ensures Encode(a + b) == Encode(a) + Encode(b)
    ensures TotalLen(a + b) == TotalLen(a) + TotalLen(b)
  {
    if a == [] {
      assert a + b == b;
    } else {
      assert (a + b)[1..] == a[1..] + b;
      EncodeAppend(a[1..], b);
    }
  }

  lemma EncodeOne(v: Bytes)
    ensures Encode([v]) == Elem(v) && TotalLen([v]) == |v|
  {
    assert [v][1..] == [];
  }

  lemma {:induction false} EncodeLen(elems: seq<Bytes>)
    ensures |Encode(elems)| == 4 * |elems| + TotalLen(elems)
  {
    if elems != [] { EncodeLen(elems[1..]); }
  }

  /** Positions only depend on the elements before. */
  lemma {:induction false} PosPrefix(a: seq<Bytes>, b: seq<Bytes>, i: nat)
    requires i <= |a|
    ensures Pos(a + b, i) == Pos(a, i)
  {
    if i > 0 {
      assert (a + b)[1..] == a[1..] + b;
      PosPrefix(a[1..], b, i - 1);
    }
  }

  lemma {:induction false} PosEnd(elems: seq<Bytes>)
    ensures Pos(elems, |elems|) == |Encode(elems)|
  {
    if elems != [] { PosEnd(elems[1..]); }
  }

  lemma {:induction false} PosStep(elems: seq<Bytes>, i: nat)
    requires i < |elems|
    ensures Pos(elems, i + 1) == Pos(elems, i) + 4 + |elems[i]| <= |Encode(elems)|
  {
    if i > 0 { PosStep(elems[1..], i - 1); }
  }

  /** Element `i` stands at its position. */
  lemma {:induction false} EncodeAt(elems: seq<Bytes>, i: nat)
    requires i < |elems|
    ensures Holds(Encode(elems), Pos(elems, i), Elem(elems[i]))
  {
    var e, rest := Elem(elems[0]), Encode(elems[1..]);
    if i == 0 {
      assert (e + rest)[0..0 + |e|] == e;
    } else {
      EncodeAt(elems[1..], i - 1);
      var p := Pos(elems[1..], i - 1);
      assert (e + rest)[|e| + p..|e| + p + |Elem(elems[i])|] == rest[p..p + |Elem(elems[i])|];
    }
  }

  /** `buf` holds the encoding of `elems` from `head` on. */
  ghost predicate Stores(buf: Bytes, head: nat, elems: seq<Bytes>) {
    head <= |buf| && buf[head..] == Encode(elems)
  }

  lemma StoresAt(buf: Bytes, head: nat, elems: seq<Bytes>, i: nat)
    requires Stores(buf, head, elems) && i < |elems|
    ensures Holds(buf, head + Pos(elems, i), Elem(elems[i]))
  {
    var p, n := Pos(elems, i), |Elem(elems[i])|;
    EncodeAt(elems, i);
    assert buf[head + p..head + p + n] == buf[head..][p..p + n];
  }

  /** Reading a length prefix and that many bytes gives the element back. */
  lemma ElementReadsBack(buf: Bytes, head: nat, elems: seq<Bytes>, i: nat)
    requires Stores(buf, head, elems) && i < |elems| && |buf| < TWO_32
    ensures var off := head + Pos(elems, i); var n := |elems[i]|;
      off + 4 + n <= |buf| && ReadU32(buf, off) == n && buf[off + 4..off + 4 + n] == elems[i]
  {
    StoresAt(buf, head, elems, i);
    ElemReadsBack(buf, head + Pos(elems, i), elems[i]);
  }

  lemma ElemReadsBack(buf: Bytes, off: nat, v: Bytes)
    requires Holds(buf, off, Elem(v)) && |v| < TWO_32
    ensures ReadU32(buf, off) == |v| && buf[off + 4..off + 4 + |v|] == v
  {
    HoldsSplit(buf, off, U32Le(|v|), v);
    U32ReadsBack(buf, off, |v|);
  }

  lemma StoresLen(buf: Bytes, head: nat, elems: seq<Bytes>)
    requires Stores(buf, head, elems)
    ensures |buf| == head + 4 * |elems| + TotalLen(elems)
  {
    EncodeLen(elems);
  }

  /** The live data may be moved as a whole. */
  lemma StoresMove(buf: Bytes, head: nat, elems: seq<Bytes>, pad: Bytes)
    requires Stores(buf, head, elems)
    ensures Stores(pad + buf[head..], |pad|, elems)
  {
  }

  lemma StoresSnoc(buf: Bytes, head: nat, elems: seq<Bytes>, v: Bytes)
    requires Stores(buf, head, elems)
    ensures Stores(buf + U32Le(Low32(|v|)) + v, head, elems + [v])
    ensures TotalLen(elems + [v]) == TotalLen(elems) + |v|
  {
    EncodeOne(v);
    EncodeAppend(elems, [v]);
    var after := buf + U32Le(Low32(|v|)) + v;
    assert after == buf + Elem(v);
    assert (buf + Elem(v))[head..] == buf[head..] + Elem(v);
  }

  lemma StoresCons(buf: Bytes, head: nat, elems: seq<Bytes>, v: Bytes)
    requires Stores(buf, head + 4 + |v|, elems)
    ensures Stores(buf[..head] + U32Le(Low32(|v|)) + v + buf[head + 4 + |v|..], head, [v] + elems)
    ensures TotalLen([v] + elems) == |v| + TotalLen(elems)
  {
    var live := buf[head + 4 + |v|..];
    var after := buf[..head] + U32Le(Low32(|v|)) + v + live;
    assert after == buf[..head] + (Elem(v) + live);
    assert after[head..] == Elem(v) + live;
    assert ([v] + elems)[1..] == elems;
  }

  lemma StoresTail(buf: Bytes, head: nat, elems: seq<Bytes>)
    requires Stores(buf, head, elems) && elems != []
    ensures Stores(buf, head + 4 + |elems[0]|, elems[1..])
    ensures TotalLen(elems) == |elems[0]| + TotalLen(elems[1..])
  {
    var n := 4 + |elems[0]|;
    assert buf[head + n..] == buf[head..][n..];
  }

  lemma StoresInit(buf: Bytes, head: nat, rest: seq<Bytes>, last: Bytes)
    requires Stores(buf, head, rest + [last])
    ensures head + |Encode(rest)| <= |buf| && Stores(buf[..head + |Encode(rest)|], head, rest)
    ensures TotalLen(rest + [last]) == TotalLen(rest) + |last|
  {
    EncodeOne(last);
    EncodeAppend(rest, [last]);
    var n := |Encode(rest)|;
    assert buf[..head + n][head..] == buf[head..][..n];
  }

  // ---- Lengths and listings ----

  lemma {:induction false} TotalLenAt(s: seq<Bytes>, i: nat)
    requires i < |s|
    ensures TotalLen(s) == TotalLen(s[..i]) + |s[i]| + TotalLen(s[i + 1..])
  {
    EncodeAppend(s[..i], [s[i]] + s[i + 1..]);
    EncodeAppend([s[i]], s[i + 1..]);
    EncodeOne(s[i]);
    assert s == s[..i] + ([s[i]] + s[i + 1..]);
  }

  lemma TotalLenSnoc(s: seq<Bytes>, v: Bytes)
    ensures TotalLen(s + [v]) == TotalLen(s) + |v|
    ensures TotalLen([v] + s) == |v| + TotalLen(s)
  {
    EncodeAppend(s, [v]);
    EncodeAppend([v], s);
    EncodeOne(v);
  }

  lemma TotalLenEnds(s: seq<Bytes>)
    requires s != []
    ensures TotalLen(s) == |s[0]| + TotalLen(s[1..])
    ensures TotalLen(s) == TotalLen(s[..|s| - 1]) + |s[|s| - 1]|
  {
    TotalLenSnoc(s[..|s| - 1], s[|s| - 1]);
    assert s == s[..|s| - 1] + [s[|s| - 1]];
  }

  ghost function Elems(s: seq<Bytes>): set<Bytes> {
    set x | x in s
  }

  /** The member bytes of a set. */
  ghost function SumLen(s: set<Bytes>): nat {
    if s == {} then 0 else
      var x :| x in s;
      |x| + SumLen(s - {x})
  }

  lemma {:induction false} SumLenSplit(s: set<Bytes>, x: Bytes)
    requires x in s
    ensures SumLen(s) == |x| + SumLen(s - {x})
    decreases |s|
  {
    var y :| y in s && SumLen(s) == |y| + SumLen(s - {y});
    if x != y {
      SumLenSplit(s - {y}, x);
      SumLenSplit(s - {x}, y);
      assert s - {y} - {x} == s - {x} - {y};
    }
  }

  /** A listing without repetitions has the set's size and the set's bytes. */
  lemma {:induction false} ListingMeasures(s: seq<Bytes>)
    requires NoDup(s)
    ensures |Elems(s)| == |s| && SumLen(Elems(s)) == TotalLen(s)
    decreases |s|
  {
    if s != [] {
      ListingMeasures(s[1..]);
      assert Elems(s) - {s[0]} == Elems(s[1..]);
      SumLenSplit(Elems(s), s[0]);
      assert |Elems(s)| == |Elems(s) - {s[0]}| + 1;
    }
  }

  lemma SnocAdds(s: seq<Bytes>, x: Bytes)
    requires NoDup(s) && x !in s
    ensures NoDup(s + [x]) && Elems(s + [x]) == Elems(s) + {x} && TotalLen(s + [x]) == TotalLen(s) + |x|
  {
    TotalLenSnoc(s, x);
  }
}

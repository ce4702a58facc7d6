/** What LREM, LTRIM, LRANGE, LINSERT and the encoding thresholds mean, element by element. */
module ListLaws {
  import opened ByteStrings
  import opened Packed
  import opened ListPacking
  import opened ListEncoding
  import opened ListRuns

  // ---- LREM ----

  /** `s` without any `x`. */
  function Without(s: seq<Bytes>, x: Bytes): seq<Bytes> {
    if s == [] then [] else (if s[0] == x then [] else [s[0]]) + Without(s[1..], x)
  }

  /** How often `x` occurs. */
  function Count(s: seq<Bytes>, x: Bytes): (n: nat)
    ensures n <= |s|
  {
    if s == [] then 0 else (if s[0] == x then 1 else 0) + Count(s[1..], x)
  }

  /** Splitting a sequence splits what is left without `x`, and the count. */
  lemma {:induction false} Splits(a: seq<Bytes>, b: seq<Bytes>, x: Bytes)
    ensures Without(a + b, x) == Without(a, x) + Without(b, x)
    ensures Count(a + b, x) == Count(a, x) + Count(b, x)
    decreases |a|
  {
    if a == [] {
      assert a + b == b;
    } else {
      assert (a + b)[1..] == a[1..] + b;
      Splits(a[1..], b, x);
    }
  }

  /** Exactly the occurrences of `x` go. */
  lemma {:induction false} WithoutKeeps(s: seq<Bytes>, x: Bytes)
    ensures multiset(Without(s, x)) == multiset(s)[x := 0]
    ensures |Without(s, x)| + Count(s, x) == |s| && multiset(s)[x] == Count(s, x)
  {
    if s != [] {
      assert s == [s[0]] + s[1..];
      WithoutKeeps(s[1..], x);
    }
  }

  function Least(a: nat, b: nat): nat {
    if a < b then a else b
  }

  /** The first `n` occurrences of `x`, or all of them if there are fewer, lie before the cut `i` and are gone. */
  ghost predicate GoneBefore(s: seq<Bytes>, x: Bytes, n: nat, r: seq<Bytes>, i: nat) {
    i <= |s| && r == Without(s[..i], x) + s[i..] && Count(s[..i], x) == Least(n, Count(s, x))
  }

  ghost predicate TakesFirst(s: seq<Bytes>, x: Bytes, n: nat, r: seq<Bytes>) {
    exists i :: GoneBefore(s, x, n, r, i)
  }

  /** The last `n` occurrences of `x`, or all of them if there are fewer, lie after the cut `i` and are gone. */
  ghost predicate GoneAfter(s: seq<Bytes>, x: Bytes, n: nat, r: seq<Bytes>, i: nat) {
    i <= |s| && r == s[..i] + Without(s[i..], x) && Count(s[i..], x) == Least(n, Count(s, x))
  }

  ghost predicate TakesLast(s: seq<Bytes>, x: Bytes, n: nat, r: seq<Bytes>) {
    exists i :: GoneAfter(s, x, n, r, i)
  }

  lemma CutBeforeGrows(v: Bytes, s: seq<Bytes>, x: Bytes, n: nat, r: seq<Bytes>, i: nat)
    requires GoneBefore(s, x, n, r, i)
    ensures v == x ==> GoneBefore([v] + s, x, n + 1, r, i + 1)
    ensures v != x ==> GoneBefore([v] + s, x, n, [v] + r, i + 1)
  {
    var t := [v] + s;
    assert t[..i + 1] == [v] + s[..i] && t[i + 1..] == s[i..];
    Splits([v], s[..i], x);
    Splits([v], s, x);
    OneOnly(v, x);
  }

  lemma CutAfterGrows(s: seq<Bytes>, v: Bytes, x: Bytes, n: nat, r: seq<Bytes>, i: nat)
    requires GoneAfter(s, x, n, r, i)
    ensures v == x ==> GoneAfter(s + [v], x, n + 1, r, i)
    ensures v != x ==> GoneAfter(s + [v], x, n, r + [v], i)
  {
    var t := s + [v];
    assert t[..i] == s[..i] && t[i..] == s[i..] + [v];
    Splits(s[i..], [v], x);
    Splits(s, [v], x);
    OneOnly(v, x);
  }

  lemma OneOnly(v: Bytes, x: Bytes)
    ensures Without([v], x) == (if v == x then [] else [v]) && Count([v], x) == if v == x then 1 else 0
  {
    assert [v][1..] == [];
  }

  lemma {:induction false} DropFirstCut(s: seq<Bytes>, x: Bytes, n: nat)
    ensures TakesFirst(s, x, n, DropFirst(s, x, n))
    decreases |s|
  {
    if s == [] || n == 0 {
      assert GoneBefore(s, x, n, s, 0);
    } else {
      var m, rest := if s[0] == x then n - 1 else n, s[1..];
      DropFirstCut(rest, x, m);
      var i: nat :| GoneBefore(rest, x, m, DropFirst(rest, x, m), i);
      CutBeforeGrows(s[0], rest, x, m, DropFirst(rest, x, m), i);
      assert s == [s[0]] + rest;
    }
  }

  lemma {:induction false} DropLastCut(s: seq<Bytes>, x: Bytes, n: nat)
    ensures TakesLast(s, x, n, DropLast(s, x, n))
    decreases |s|
  {
    if s == [] || n == 0 {
      assert GoneAfter(s, x, n, s, |s|);
    } else {
      var init, last := s[..|s| - 1], s[|s| - 1];
      var m := if last == x then n - 1 else n;
      DropLastCut(init, x, m);
      var i: nat :| GoneAfter(init, x, m, DropLast(init, x, m), i);
      CutAfterGrows(init, last, x, m, DropLast(init, x, m), i);
      assert s == init + [last];
    }
  }

  /**
   LREM, without reference to how it is computed. A positive count takes the first occurrences, a
   negative one the last, zero all of them; nothing else goes, and nothing changes its order.
   */
  lemma RemovedIs(s: seq<Bytes>, count: int, x: Bytes)
    ensures count > 0 ==> TakesFirst(s, x, count, Removed(s, count, x))
    ensures count < 0 ==> TakesLast(s, x, -count, Removed(s, count, x))
    ensures count == 0 ==> Removed(s, count, x) == Without(s, x)
  {
    if count > 0 {
      DropFirstCut(s, x, count);
    } else if count < 0 {
      DropLastCut(s, x, -count);
    } else {
      DropFirstCut(s, x, |s|);
      var i: nat :| GoneBefore(s, x, |s|, DropFirst(s, x, |s|), i);
      NoneAfter(s, x, i);
    }
  }

  lemma NoneAfter(s: seq<Bytes>, x: Bytes, i: nat)
    requires i <= |s| && Count(s[..i], x) == Count(s, x)
    ensures Without(s[..i], x) + s[i..] == Without(s, x)
  {
    assert s == s[..i] + s[i..];
    Splits(s[..i], s[i..], x);
    NothingGoes(s[i..], x);
  }

  lemma {:induction false} NothingGoes(s: seq<Bytes>, x: Bytes)
    requires Count(s, x) == 0
    ensures Without(s, x) == s
  {
    if s != [] { NothingGoes(s[1..], x); }
  }

  /** How many occurrences LREM takes. */
  function Taken(s: seq<Bytes>, count: int, x: Bytes): (n: nat)
    ensures n <= Count(s, x)
  {
    if count == 0 then Count(s, x) else Least(if count < 0 then -count else count, Count(s, x))
  }

  /** LREM loses exactly that many copies of `x` and no other element. */
  lemma RemovedCounts(s: seq<Bytes>, count: int, x: Bytes)
    ensures |Removed(s, count, x)| == |s| - Taken(s, count, x)
    ensures multiset(Removed(s, count, x)) == multiset(s)[x := Count(s, x) - Taken(s, count, x)]
  {
    RemovedIs(s, count, x);
    WithoutKeeps(s, x);
    if count > 0 {
      var i: nat :| GoneBefore(s, x, count, Removed(s, count, x), i);
      HeadGone(s, x, i);
    } else if count < 0 {
      var i: nat :| GoneAfter(s, x, -count, Removed(s, count, x), i);
      TailGone(s, x, i);
    }
  }

  lemma HeadGone(s: seq<Bytes>, x: Bytes, i: nat)
    requires i <= |s|
    ensures var r, n := Without(s[..i], x) + s[i..], Count(s[..i], x);
      |r| == |s| - n && n <= multiset(s)[x] && multiset(r) == multiset(s)[x := multiset(s)[x] - n]
  {
    assert s == s[..i] + s[i..];
    WithoutKeeps(s[..i], x);
  }

  lemma TailGone(s: seq<Bytes>, x: Bytes, i: nat)
    requires i <= |s|
    ensures var r, n := s[..i] + Without(s[i..], x), Count(s[i..], x);
      |r| == |s| - n && n <= multiset(s)[x] && multiset(r) == multiset(s)[x := multiset(s)[x] - n]
  {
    assert s == s[..i] + s[i..];
    WithoutKeeps(s[i..], x);
  }

  // ---- LTRIM, LRANGE and LINSERT ----

  /** The indices from `start` to `stop` that the list has, in order, and no others. */
  lemma SliceIs(s: seq<Bytes>, start: nat, stop: nat)
    ensures var r := Slice(s, start, stop);
      && |r| == (if start <= stop && start < |s| then Least(stop + 1, |s|) - start else 0)
      && forall k :: 0 <= k < |r| ==> r[k] == s[start + k]
  {
  }

  lemma {:induction false} IndexFound(s: seq<Bytes>, x: Bytes)
    ensures IndexOf(s, x) < |s| <==> x in s
  {
    if s != [] { IndexFound(s[1..], x); }
  }

  /** Taking the new element out again gives the old list. */
  lemma InsertedIs(s: seq<Bytes>, j: nat, v: Bytes)
    requires j <= |s|
    ensures var r := ListEncoding.Inserted(s, j, v);
      |r| == |s| + 1 && r[j] == v && r[..j] == s[..j] && r[j + 1..] == s[j..]
  {
  }

  /** LINSERT puts the element right before, or right after, the first occurrence of the pivot, if there is one. */
  lemma InsertIs(s: seq<Bytes>, pivot: Bytes, v: Bytes, after: bool)
    ensures var r, i := After(s, LInsert(pivot, v, after)), IndexOf(s, pivot);
      && (pivot !in s ==> r == s)
      && (pivot in s ==>
           && i < |s| && s[i] == pivot && pivot !in s[..i] && |r| == |s| + 1
           && (after ==> r[i + 1] == v && r[..i + 1] == s[..i + 1] && r[i + 2..] == s[i + 1..])
           && (!after ==> r[i] == v && r[..i] == s[..i] && r[i + 1..] == s[i..]))
  {
    var i := IndexOf(s, pivot);
    IndexFound(s, pivot);
    if i < |s| { InsertedIs(s, if after then i + 1 else i, v); }
  }

  // ---- The thresholds ----

  /** At most `entries` elements, within the limits on each of them and on all together. */
  ghost predicate Fits(s: seq<Bytes>, entries: nat, thr: Thresholds) {
    |s| <= entries && TotalLen(s) <= thr.maxSize && forall k :: 0 <= k < |s| ==> |s[k]| <= thr.maxElem
  }

  /** A push leaves a compact list compact exactly when the longer list is within the limits. */
  lemma PushStaysCompactIff(s: seq<Bytes>, v: Bytes, thr: Thresholds)
    requires Fits(s, |s|, thr)
    ensures CompactAfter(true, s, Call(LPush(v), thr)) <==> Fits([v] + s, thr.maxEntries, thr)
    ensures CompactAfter(true, s, Call(RPush(v), thr)) <==> Fits(s + [v], thr.maxEntries, thr)
  {
    TotalLenSnoc(s, v);
    assert ([v] + s)[0] == v && (s + [v])[|s|] == v;
    assert forall k :: 0 <= k < |s| ==> ([v] + s)[k + 1] == s[k] && (s + [v])[k] == s[k];
  }

  /** A linked list turns compact exactly when a removal leaves it short enough and within the limits. */
  lemma RemovalPacksIff(s: seq<Bytes>, op: Op, thr: Thresholds)
    requires (op.LPop? || op.RPop? || op.LRem? || op.LTrim?) && |After(s, op)| < |s|
    ensures CompactAfter(false, s, Call(op, thr)) <==> Fits(After(s, op), thr.demoteEntries, thr)
  {
  }

  /** After each call of a run from `s`, a compact list is within the limits. */
  ghost predicate ObeysAfterEach(compact: bool, s: seq<Bytes>, calls: seq<Call>, thr: Thresholds)
    decreases |calls|
  {
    (compact ==> Fits(s, Max(thr.maxEntries, thr.demoteEntries), thr)) &&
    (calls != [] ==>
       ObeysAfterEach(CompactAfter(compact, s, calls[0]), After(s, calls[0].op), calls[1..], thr))
  }

  lemma FitsStep(compact: bool, s: seq<Bytes>, call: Call, entries: nat)
    requires compact ==> Fits(s, entries, call.thr)
    requires call.thr.demoteEntries <= entries && call.thr.maxEntries <= entries
    ensures CompactAfter(compact, s, call) ==> Fits(After(s, call.op), entries, call.thr)
  {
    if compact && (call.op.LPush? || call.op.RPush?) { PushStaysCompactIff(s, call.op.v, call.thr); }
    if s != [] { TotalLenEnds(s); }
  }

  /** Under fixed thresholds no list is ever compact beyond them. */
  lemma {:induction false} CompactObeys(s: seq<Bytes>, compact: bool, calls: seq<Call>, thr: Thresholds)
    requires forall i :: 0 <= i < |calls| ==> calls[i].thr == thr
    requires compact ==> Fits(s, Max(thr.maxEntries, thr.demoteEntries), thr)
    ensures ObeysAfterEach(compact, s, calls, thr)
    decreases |calls|
  {
    if calls != [] {
      FitsStep(compact, s, calls[0], Max(thr.maxEntries, thr.demoteEntries));
      CompactObeys(After(s, calls[0].op), CompactAfter(compact, s, calls[0]), calls[1..], thr);
    }
  }
}

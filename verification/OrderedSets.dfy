/** Stamped keys in ascending order: the expiry index by deadline, and SCAN batches by order key. */
module OrderedSets {
  import opened ByteStrings

  datatype Stamped = Stamped(at: nat, key: Bytes)

  /** Lexicographic order on byte strings. */
  predicate Less(a: Bytes, b: Bytes) {
    b != [] && (a == [] || a[0] < b[0] || (a[0] == b[0] && Less(a[1..], b[1..])))
  }

  predicate Before(x: Stamped, y: Stamped) {
    x.at < y.at || (x.at == y.at && Less(x.key, y.key))
  }

  lemma {:induction false} LessTransitive(a: Bytes, b: Bytes, c: Bytes)
    requires Less(a, b) && Less(b, c)
    ensures Less(a, c)
  {
    if a != [] && a[0] == b[0] && b[0] == c[0] {
      LessTransitive(a[1..], b[1..], c[1..]);
    }
  }

  lemma {:induction false} LessTotal(a: Bytes, b: Bytes)
    ensures a == b || Less(a, b) || Less(b, a)
  {
    if a != [] && b != [] && a[0] == b[0] {
      LessTotal(a[1..], b[1..]);
      assert a == [a[0]] + a[1..] && b == [b[0]] + b[1..];
    }
  }

  lemma {:induction false} LessIrreflexive(a: Bytes)
    ensures !Less(a, a)
  {
    if a != [] { LessIrreflexive(a[1..]); }
  }

  lemma BeforeTransitive(x: Stamped, y: Stamped, z: Stamped)
    requires Before(x, y) && Before(y, z)
    ensures Before(x, z)
  {
    if x.at == y.at && y.at == z.at { LessTransitive(x.key, y.key, z.key); }
  }

  lemma BeforeTotal(x: Stamped, y: Stamped)
    ensures x == y || Before(x, y) || Before(y, x)
  {
    LessTotal(x.key, y.key);
  }

  lemma BeforeIrreflexive(x: Stamped)
    ensures !Before(x, x)
  {
    LessIrreflexive(x.key);
  }

  ghost predicate Ascending(s: seq<Stamped>) {
    forall i, j :: 0 <= i < j < |s| ==> Before(s[i], s[j])
  }

  /** `s` lists exactly the members of `S`, in order. */
  ghost predicate Lists(s: seq<Stamped>, S: set<Stamped>) {
    Ascending(s) && forall x :: x in S <==> x in s
  }

  /** There is only one ordered listing of a set. */
  lemma {:induction false} ListingUnique(s: seq<Stamped>, t: seq<Stamped>, S: set<Stamped>)
    requires Lists(s, S) && Lists(t, S)
    ensures s == t
    decreases |s|
  {
    ListingSize(s, S);
    ListingSize(t, S);
    if s != [] {
      assert s[0] in S;
      var j :| 0 <= j < |t| && t[j] == s[0];
      assert t[0] in S;
      var i :| 0 <= i < |s| && s[i] == t[0];
      if i > 0 && j > 0 {
        BeforeTransitive(s[0], s[i], s[0]);
        BeforeIrreflexive(s[0]);
      }
      assert s[0] == t[0];
      ListsTail(s, S);
      ListsTail(t, S);
      ListingUnique(s[1..], t[1..], S - {s[0]});
      assert s == [s[0]] + s[1..] && t == [t[0]] + t[1..];
    }
  }

  lemma ListsTail(s: seq<Stamped>, S: set<Stamped>)
    requires s != [] && Lists(s, S)
    ensures Lists(s[1..], S - {s[0]})
  {
    forall x | x in s[1..] ensures x in S && x != s[0] {
      var k :| 0 <= k < |s[1..]| && s[1..][k] == x;
      assert s[k + 1] == x;
      BeforeIrreflexive(x);
    }
    forall x | x in S && x != s[0] ensures x in s[1..] {
      var k :| 0 <= k < |s| && s[k] == x;
      assert s[1..][k - 1] == x;
    }
  }

  /** A listing has one slot per member. */
  lemma {:induction false} ListingSize(s: seq<Stamped>, S: set<Stamped>)
    requires Lists(s, S)
    ensures |s| == |S|
    decreases |s|
  {
    if s == [] {
      assert forall x :: x !in S;
      assert S == {};
    } else {
      assert s[0] in S;
      ListsTail(s, S);
      ListingSize(s[1..], S - {s[0]});
    }
  }

  /** Places `x` after everything that comes before it. */
  function Place(s: seq<Stamped>, x: Stamped): (r: seq<Stamped>)
    ensures |r| == |s| + 1
    ensures forall y :: y in r <==> y in s || y == x
  {
    if s == [] || !Before(s[0], x) then [x] + s else [s[0]] + Place(s[1..], x)
  }

  lemma {:induction false} PlaceAscending(s: seq<Stamped>, x: Stamped)
    requires Ascending(s) && x !in s
    ensures Ascending(Place(s, x))
  {
    if s == [] {
    } else if Before(s[0], x) {
      assert Ascending(s[1..]);
      PlaceAscending(s[1..], x);
      var t := Place(s[1..], x);
      forall j | 0 <= j < |t| ensures Before(s[0], t[j]) {
        assert t[j] in t;
        if t[j] != x {
          var k :| 0 <= k < |s[1..]| && s[1..][k] == t[j];
          assert s[k + 1] == t[j];
        }
      }
    } else {
      BeforeTotal(s[0], x);
      assert s[0] in s;
      forall j | 0 < j < |s| ensures Before(x, s[j]) {
        BeforeTransitive(x, s[0], s[j]);
      }
    }
  }

  /** The members in ascending order, whatever order they are met in. */
  method InOrder(S: set<Stamped>) returns (s: seq<Stamped>)
    ensures Lists(s, S)
  {
    s := [];
    var rest := S;
    while rest != {}
      invariant rest <= S && Lists(s, S - rest)
      decreases |rest|
    {
      var x :| x in rest;
      PlaceAscending(s, x);
      s := Place(s, x);
      rest := rest - {x};
    }
    assert S - rest == S;
  }

  /** The one ordered listing of a set. */
  ghost function Sorted(S: set<Stamped>): (s: seq<Stamped>)
    ensures Lists(s, S)
  {
    if S == {} then []
    else
      var x :| x in S;
      var rest := Sorted(S - {x});
      PlaceAscending(rest, x);
      Place(rest, x)
  }

  // ---- Due entries ----

  /** Up to `max` leading entries stamped at or before `now`. */
  function TakeDue(s: seq<Stamped>, now: nat, max: nat): seq<Stamped> {
    if s == [] || max == 0 || s[0].at > now then [] else [s[0]] + TakeDue(s[1..], now, max - 1)
  }

  function KeysOf(s: seq<Stamped>): (r: seq<Bytes>)
    ensures |r| == |s|
  {
    if s == [] then [] else [s[0].key] + KeysOf(s[1..])
  }

  lemma {:induction false} KeysOfAt(s: seq<Stamped>, i: nat)
    requires i < |s|
    ensures KeysOf(s)[i] == s[i].key
  {
    if i > 0 { KeysOfAt(s[1..], i - 1); }
  }

  function SetOf(s: seq<Bytes>): set<Bytes> {
    set x | x in s
  }

  lemma {:induction false} KeysOfAppend(a: seq<Stamped>, b: seq<Stamped>)
    ensures KeysOf(a + b) == KeysOf(a) + KeysOf(b)
  {
    if a == [] {
      assert a + b == b;
    } else {
      assert (a + b)[1..] == a[1..] + b;
      KeysOfAppend(a[1..], b);
    }
  }

  lemma KeysOfSnoc(a: seq<Stamped>, x: Stamped)
    ensures KeysOf(a + [x]) == KeysOf(a) + [x.key]
  {
    KeysOfAppend(a, [x]);
    assert [x][1..] == [];
  }

  /** One more key of a listing. */
  lemma KeysStep(s: seq<Stamped>, i: nat)
    requires i < |s|
    ensures KeysOf(s[..i + 1]) == KeysOf(s[..i]) + [s[i].key]
    ensures SetOf(KeysOf(s[..i + 1])) == SetOf(KeysOf(s[..i])) + {s[i].key}
  {
    assert s[..i + 1] == s[..i] + [s[i]];
    KeysOfSnoc(s[..i], s[i]);
  }

  lemma {:induction false} TakeDuePrefix(s: seq<Stamped>, now: nat, max: nat)
    ensures |TakeDue(s, now, max)| <= |s| && |TakeDue(s, now, max)| <= max
    ensures TakeDue(s, now, max) == s[..|TakeDue(s, now, max)|]
    ensures forall i :: 0 <= i < |TakeDue(s, now, max)| ==> TakeDue(s, now, max)[i].at <= now
  {
    if !(s == [] || max == 0 || s[0].at > now) {
      TakeDuePrefix(s[1..], now, max - 1);
      var t := TakeDue(s[1..], now, max - 1);
      assert [s[0]] + s[1..][..|t|] == s[..|t| + 1];
    }
  }

  /** Stopping early means nothing due is left. */
  lemma {:induction false} TakeDueComplete(s: seq<Stamped>, now: nat, max: nat)
    requires Ascending(s) && |TakeDue(s, now, max)| < max
    ensures forall i :: |TakeDue(s, now, max)| <= i < |s| ==> s[i].at > now
    ensures forall more :: more >= max ==> TakeDue(s, now, more) == TakeDue(s, now, max)
  {
    if s == [] {
    } else if s[0].at > now {
      forall i | 0 < i < |s| ensures s[i].at > now {
        assert Before(s[0], s[i]);
      }
    } else {
      assert Ascending(s[1..]);
      TakeDueComplete(s[1..], now, max - 1);
      forall i | |TakeDue(s, now, max)| <= i < |s| ensures s[i].at > now {
        assert s[i] == s[1..][i - 1];
      }
      forall more | more >= max ensures TakeDue(s, now, more) == TakeDue(s, now, max) {
        assert TakeDue(s[1..], now, more - 1) == TakeDue(s[1..], now, max - 1);
      }
    }
  }

  /** Taking in two goes is taking in one. */
  lemma {:induction false} TakeDueTwice(s: seq<Stamped>, now: nat, a: nat, b: nat)
    requires |TakeDue(s, now, a)| == a
    ensures a <= |s| && TakeDue(s, now, a + b) == TakeDue(s, now, a) + TakeDue(s[a..], now, b)
  {
    TakeDuePrefix(s, now, a);
    if a > 0 {
      TakeDueTwice(s[1..], now, a - 1, b);
      assert s[1..][a - 1..] == s[a..];
    } else {
      assert s[0..] == s;
    }
  }

  /** A budget beyond the length takes no more than the length. */
  lemma {:induction false} TakeDueCapped(s: seq<Stamped>, now: nat, a: nat)
    requires a >= |s|
    ensures TakeDue(s, now, a) == TakeDue(s, now, |s|)
  {
    if s != [] && s[0].at <= now { TakeDueCapped(s[1..], now, a - 1); }
  }
}

/**
 The inline command language: every way to write an argument vector on one line. A line tokenizes
 exactly when it is so written, and then to the arguments written.
 */
module InlineForms {
  import opened ByteStrings
  import opened RespInline

  /** One byte between double quotes: as it is, or behind a backslash. */
  datatype Piece = Plain(c: byte) | Escaped(c: byte)

  predicate PieceOk(p: Piece) {
    p.Plain? ==> p.c != DQUOTE && p.c != BACKSLASH
  }

  function PieceText(p: Piece): Bytes {
    if p.Plain? then [p.c] else [BACKSLASH, p.c]
  }

  /** Behind a backslash `n`, `r` and `t` are line feed, carriage return and tab; any other byte is itself. */
  function PieceValue(p: Piece): byte {
    if p == Escaped('n' as int) then '\n' as int
    else if p == Escaped('r' as int) then '\r' as int
    else if p == Escaped('t' as int) then '\t' as int
    else p.c
  }

  /** The pieces and the closing quote. */
  function PiecesText(ps: seq<Piece>): Bytes {
    if ps == [] then [DQUOTE] else PieceText(ps[0]) + PiecesText(ps[1..])
  }

  function PiecesValue(ps: seq<Piece>): (r: Bytes)
    ensures |r| == |ps| && forall i :: 0 <= i < |ps| ==> r[i] == PieceValue(ps[i])
  {
    seq(|ps|, i requires 0 <= i < |ps| => PieceValue(ps[i]))
  }

  predicate PiecesOk(ps: seq<Piece>) {
    forall i :: 0 <= i < |ps| ==> PieceOk(ps[i])
  }

  /** The three ways to write an argument. */
  datatype Arg = Bare(text: Bytes) | SingleQuoted(text: Bytes) | DoubleQuoted(pieces: seq<Piece>)

  predicate ArgOk(a: Arg) {
    match a
    case Bare(s) => s != [] && SPACE !in s && !IsQuote(s[0])
    case SingleQuoted(s) => SQUOTE !in s
    case DoubleQuoted(ps) => PiecesOk(ps)
  }

  function ArgText(a: Arg): Bytes {
    match a
    case Bare(s) => s
    case SingleQuoted(s) => [SQUOTE] + (s + [SQUOTE])
    case DoubleQuoted(ps) => [DQUOTE] + PiecesText(ps)
  }

  function ArgValue(a: Arg): Bytes {
    match a
    case Bare(s) => s
    case SingleQuoted(s) => s
    case DoubleQuoted(ps) => PiecesValue(ps)
  }

  /** An argument and the number of spaces before it. */
  datatype Item = Item(gap: nat, arg: Arg)

  function Spaces(n: nat): (r: Bytes)
    ensures |r| == n && forall i :: 0 <= i < n ==> r[i] == SPACE
  {
    seq(n, _ => SPACE)
  }

  /** The line: arguments with the spaces before them, and `tail` spaces at the end. */
  function Text(items: seq<Item>, tail: nat): Bytes {
    if items == [] then Spaces(tail) else Spaces(items[0].gap) + (ArgText(items[0].arg) + Text(items[1..], tail))
  }

  function Values(items: seq<Item>): (r: seq<Bytes>)
    ensures |r| == |items| && forall i :: 0 <= i < |items| ==> r[i] == ArgValue(items[i].arg)
  {
    seq(|items|, i requires 0 <= i < |items| => ArgValue(items[i].arg))
  }

  /** Arguments are well-formed, and a bare word is followed by a space or by nothing. */
  predicate WellWritten(items: seq<Item>) {
    items == [] || (ArgOk(items[0].arg) && (items[0].arg.Bare? ==> Spaced(items[1..])) && WellWritten(items[1..]))
  }

  /** The first argument, if any, has a space before it. */
  predicate Spaced(items: seq<Item>) {
    items == [] || items[0].gap > 0
  }

  ghost predicate Writes(line: Bytes, items: seq<Item>, tail: nat) {
    WellWritten(items) && line == Text(items, tail)
  }

  // ---- Where things stand in the line ----

  /** `s` stands between `i` and `e`. */
  predicate At(line: Bytes, i: nat, e: nat, s: Bytes) {
    i <= e <= |line| && line[i..e] == s
  }

  lemma AtSplit(line: Bytes, i: nat, m: nat, e: nat, a: Bytes, b: Bytes)
    requires m == i + |a|
    ensures At(line, i, e, a + b) <==> At(line, i, m, a) && At(line, m, e, b)
  {
    if At(line, i, e, a + b) {
      assert line[i..m] == line[i..e][..|a|] == a;
      assert line[m..e] == line[i..e][|a|..] == b;
    }
    if At(line, i, m, a) && At(line, m, e, b) {
      assert line[i..e] == line[i..m] + line[m..e];
    }
  }

  lemma OneAt(line: Bytes, i: nat, e: nat, c: byte)
    ensures At(line, i, e, [c]) <==> i < |line| && line[i] == c && e == i + 1
  {
    if i < |line| && e == i + 1 { assert line[i..e] == [line[i]]; }
  }

  predicate SpacesAt(line: Bytes, i: nat, j: nat) {
    i <= j <= |line| && forall k :: i <= k < j ==> line[k] == SPACE
  }

  lemma SpacesAtIff(line: Bytes, i: nat, j: nat, n: nat)
    requires j == i + n
    ensures At(line, i, j, Spaces(n)) <==> SpacesAt(line, i, j)
  {
    if At(line, i, j, Spaces(n)) {
      forall k | i <= k < j ensures line[k] == SPACE { assert line[i..j][k - i] == Spaces(n)[k - i]; }
    }
    if SpacesAt(line, i, j) {
      assert line[i..j] == Spaces(n);
    }
  }

  /** The pieces and the closing quote stand between `i` and `e`. */
  predicate PiecesAt(line: Bytes, i: nat, e: nat, ps: seq<Piece>)
    decreases |ps|
  {
    if ps == [] then i < |line| && line[i] == DQUOTE && e == i + 1
    else PieceAt(line, i, ps[0]) && PiecesAt(line, i + |PieceText(ps[0])|, e, ps[1..])
  }

  predicate PieceAt(line: Bytes, i: nat, p: Piece) {
    if p.Plain? then i < |line| && line[i] == p.c
    else i + 1 < |line| && line[i] == BACKSLASH && line[i + 1] == p.c
  }

  lemma PieceAtIff(line: Bytes, i: nat, m: nat, p: Piece)
    requires m == i + |PieceText(p)|
    ensures PieceAt(line, i, p) <==> At(line, i, m, PieceText(p))
  {
    if p.Plain? {
      OneAt(line, i, m, p.c);
    } else {
      AtSplit(line, i, i + 1, m, [BACKSLASH], [p.c]);
      OneAt(line, i, i + 1, BACKSLASH);
      OneAt(line, i + 1, m, p.c);
      assert [BACKSLASH] + [p.c] == PieceText(p);
    }
  }

  lemma {:induction false} PiecesAtIff(line: Bytes, i: nat, e: nat, ps: seq<Piece>)
    ensures PiecesAt(line, i, e, ps) <==> At(line, i, e, PiecesText(ps))
    decreases |ps|
  {
    if ps == [] {
      OneAt(line, i, e, DQUOTE);
    } else {
      var p, rest := PieceText(ps[0]), PiecesText(ps[1..]);
      var m := i + |p|;
      PieceAtIff(line, i, m, ps[0]);
      PiecesAtIff(line, m, e, ps[1..]);
      AtSplit(line, i, m, e, p, rest);
    }
  }

  /** Nothing, or a space, comes at `e`. */
  predicate WordStops(line: Bytes, e: nat) {
    e == |line| || (e < |line| && line[e] == SPACE)
  }

  /** `s` and a closing single quote stand between `i` and `e`. */
  predicate ClosedAt(line: Bytes, i: nat, e: nat, s: Bytes) {
    e == i + |s| + 1 <= |line| && At(line, i, e - 1, s) && line[e - 1] == SQUOTE
  }

  lemma ClosedAtIff(line: Bytes, i: nat, e: nat, s: Bytes)
    ensures ClosedAt(line, i, e, s) <==> At(line, i, e, s + [SQUOTE])
  {
    AtSplit(line, i, i + |s|, e, s, [SQUOTE]);
    OneAt(line, i + |s|, e, SQUOTE);
  }

  /** The argument stands between `j` and `e`. */
  predicate ArgAt(line: Bytes, j: nat, e: nat, a: Arg) {
    match a
    case Bare(s) => At(line, j, e, s)
    case SingleQuoted(s) => j < |line| && line[j] == SQUOTE && ClosedAt(line, j + 1, e, s)
    case DoubleQuoted(ps) => j < |line| && line[j] == DQUOTE && PiecesAt(line, j + 1, e, ps)
  }

  lemma ArgAtIff(line: Bytes, j: nat, e: nat, a: Arg)
    ensures ArgAt(line, j, e, a) <==> At(line, j, e, ArgText(a))
  {
    match a {
      case Bare(_) =>
      case SingleQuoted(s) =>
        AtSplit(line, j, j + 1, e, [SQUOTE], s + [SQUOTE]);
        ClosedAtIff(line, j + 1, e, s);
        OneAt(line, j, j + 1, SQUOTE);
      case DoubleQuoted(ps) =>
        var rest := PiecesText(ps);
        AtSplit(line, j, j + 1, e, [DQUOTE], rest);
        PiecesAtIff(line, j + 1, e, ps);
        OneAt(line, j, j + 1, DQUOTE);
    }
  }

  /** The rest of the line from `i` is the items and `tail` spaces. */
  predicate ItemsAt(line: Bytes, i: nat, items: seq<Item>, tail: nat)
    decreases |items|
  {
    if items == [] then i + tail == |line| && SpacesAt(line, i, |line|)
    else ItemAt(line, i, items[0]) && ItemsAt(line, ItemEnd(i, items[0]), items[1..], tail)
  }

  function ItemEnd(i: nat, item: Item): nat {
    i + item.gap + |ArgText(item.arg)|
  }

  /** The item stands at `i`: its spaces, and then its argument. */
  predicate ItemAt(line: Bytes, i: nat, item: Item) {
    SpacesAt(line, i, i + item.gap) && ArgAt(line, i + item.gap, ItemEnd(i, item), item.arg)
  }

  lemma {:induction false} ItemsAtIff(line: Bytes, i: nat, items: seq<Item>, tail: nat)
    ensures ItemsAt(line, i, items, tail) <==> At(line, i, |line|, Text(items, tail))
    decreases |items|
  {
    if items == [] {
      if i <= |line| { SpacesAtIff(line, i, i + tail, tail); }
    } else {
      ItemsAtIff(line, ItemEnd(i, items[0]), items[1..], tail);
      ItemAtIff(line, i, items, tail);
    }
  }

  lemma ThreeAt(line: Bytes, i: nat, j: nat, e: nat, a: Bytes, b: Bytes, c: Bytes)
    requires j == i + |a| && e == j + |b|
    ensures At(line, i, |line|, a + (b + c)) <==> At(line, i, j, a) && At(line, j, e, b) && At(line, e, |line|, c)
  {
    AtSplit(line, i, j, |line|, a, b + c);
    AtSplit(line, j, e, |line|, b, c);
  }

  lemma ItemAtIff(line: Bytes, i: nat, items: seq<Item>, tail: nat)
    requires items != []
    ensures At(line, i, |line|, Text(items, tail)) <==>
      ItemAt(line, i, items[0]) && At(line, ItemEnd(i, items[0]), |line|, Text(items[1..], tail))
  {
    var item := items[0];
    var j, e := i + item.gap, ItemEnd(i, item);
    ThreeAt(line, i, j, e, Spaces(item.gap), ArgText(item.arg), Text(items[1..], tail));
    SpacesAtIff(line, i, j, item.gap);
    ArgAtIff(line, j, e, item.arg);
  }

  // ---- What is written is read ----

  // The three ways `Tokens` can begin.

  lemma QuoteOpens(line: Bytes, i: nat, token: Bytes, e: nat)
    requires i < |line| && IsQuote(line[i]) && QuotedToken(line, i + 1, line[i]) == Some((token, e))
    ensures Tokens(line, i) == After([token], Tokens(line, e))
  {
    assert SkipSpaces(line, i) == i;
  }

  lemma WordOpens(line: Bytes, i: nat, e: nat)
    requires i < |line| && line[i] != SPACE && !IsQuote(line[i]) && WordEnd(line, i) == e
    ensures Tokens(line, i) == After([line[i..e]], Tokens(line, e))
  {
    assert SkipSpaces(line, i) == i;
  }

  lemma {:induction false} SpacesSkipped(line: Bytes, i: nat, j: nat)
    requires SpacesAt(line, i, j) && WordStarts(line, j)
    ensures SkipSpaces(line, i) == j && Tokens(line, i) == Tokens(line, j)
    decreases j - i
  {
    if i < j { SpacesSkipped(line, i + 1, j); }
  }

  /** Nothing, or something other than a space, comes at `j`. */
  predicate WordStarts(line: Bytes, j: nat) {
    j <= |line| && (j < |line| ==> line[j] != SPACE)
  }

  lemma {:induction false} PiecesRead(line: Bytes, i: nat, e: nat, ps: seq<Piece>)
    requires PiecesOk(ps) && PiecesAt(line, i, e, ps)
    ensures QuotedToken(line, i, DQUOTE) == Some((PiecesValue(ps), e))
    decreases |ps|
  {
    if ps != [] {
      PiecesRead(line, i + |PieceText(ps[0])|, e, ps[1..]);
      assert PieceOk(ps[0]) && [PieceValue(ps[0])] + PiecesValue(ps[1..]) == PiecesValue(ps);
    }
  }

  lemma {:induction false} SingleReads(line: Bytes, i: nat, e: nat)
    requires i <= e < |line| && SQUOTE !in line[i..e] && line[e] == SQUOTE
    ensures QuotedToken(line, i, SQUOTE) == Some((line[i..e], e + 1))
    decreases e - i
  {
    if i == e {
      assert line[i..e] == [];
    } else {
      assert line[i..e] == [line[i]] + line[i + 1..e];
      SingleReads(line, i + 1, e);
    }
  }

  lemma {:induction false} WordReads(line: Bytes, i: nat, e: nat)
    requires i <= e <= |line| && SPACE !in line[i..e] && WordStops(line, e)
    ensures WordEnd(line, i) == e
    decreases e - i
  {
    if i < e {
      assert line[i..e] == [line[i]] + line[i + 1..e];
      WordReads(line, i + 1, e);
    }
  }

  /** One argument is one token, with the tokens of the rest behind it. */
  lemma ArgReads(line: Bytes, j: nat, e: nat, a: Arg)
    requires ArgOk(a) && ArgAt(line, j, e, a) && (a.Bare? ==> WordStops(line, e))
    ensures j < e <= |line| && line[j] != SPACE && Tokens(line, j) == After([ArgValue(a)], Tokens(line, e))
  {
    match a {
      case Bare(s) =>
        assert s[0] in s && line[j] == s[0];
        WordReads(line, j, e);
        WordOpens(line, j, e);
      case SingleQuoted(s) =>
        SingleReads(line, j + 1, e - 1);
        QuoteOpens(line, j, s, e);
      case DoubleQuoted(ps) =>
        PiecesRead(line, j + 1, e, ps);
        QuoteOpens(line, j, PiecesValue(ps), e);
    }
  }

  /** What follows a bare word begins with a space, if there is anything. */
  lemma StopsAt(line: Bytes, i: nat, items: seq<Item>, tail: nat)
    requires ItemsAt(line, i, items, tail) && Spaced(items)
    ensures WordStops(line, i)
  {
  }

  /** An item is one token. */
  lemma PlacedReads(line: Bytes, i: nat, item: Item, e: nat)
    requires ItemAt(line, i, item) && ArgOk(item.arg) && e == ItemEnd(i, item) && (item.arg.Bare? ==> WordStops(line, e))
    ensures i <= |line| && e <= |line| && Tokens(line, i) == After([ArgValue(item.arg)], Tokens(line, e))
  {
    ArgReads(line, i + item.gap, e, item.arg);
    SpacesSkipped(line, i, i + item.gap);
  }

  lemma ValuesMore(items: seq<Item>)
    requires items != []
    ensures [ArgValue(items[0].arg)] + Values(items[1..]) == Values(items)
  {
  }

  /** The first item stands at the front and ends as it should. */
  lemma FirstPlaced(line: Bytes, i: nat, items: seq<Item>, tail: nat)
    requires items != [] && WellWritten(items) && ItemsAt(line, i, items, tail)
    ensures ItemAt(line, i, items[0]) && ArgOk(items[0].arg) && (items[0].arg.Bare? ==> WordStops(line, ItemEnd(i, items[0])))
    ensures WellWritten(items[1..]) && ItemsAt(line, ItemEnd(i, items[0]), items[1..], tail)
  {
    if items[0].arg.Bare? { StopsAt(line, ItemEnd(i, items[0]), items[1..], tail); }
  }

  lemma {:induction false} WrittenReads(line: Bytes, i: nat, items: seq<Item>, tail: nat)
    requires WellWritten(items) && ItemsAt(line, i, items, tail)
    ensures i <= |line| && Tokens(line, i) == Some(Values(items))
    decreases |items|
  {
    if items == [] {
      SpacesSkipped(line, i, |line|);
    } else {
      var e := ItemEnd(i, items[0]);
      FirstPlaced(line, i, items, tail);
      PlacedReads(line, i, items[0], e);
      WrittenReads(line, e, items[1..], tail);
      ValuesMore(items);
    }
  }

  // ---- What is read was written ----

  lemma {:induction false} PiecesBack(line: Bytes, i: nat) returns (ps: seq<Piece>)
    requires i <= |line| && QuotedToken(line, i, DQUOTE).Some?
    ensures PiecesOk(ps) && PiecesAt(line, i, QuotedToken(line, i, DQUOTE).value.1, ps)
    decreases |line| - i
  {
    ps := [];
    if line[i] != DQUOTE {
      var p := if line[i] == BACKSLASH && i + 1 < |line| then Escaped(line[i + 1]) else Plain(line[i]);
      var rest := PiecesBack(line, i + |PieceText(p)|);
      ps := [p] + rest;
      assert ps[1..] == rest;
    }
  }

  lemma {:induction false} SingleBack(line: Bytes, i: nat) returns (e: nat)
    requires i <= |line| && QuotedToken(line, i, SQUOTE).Some?
    ensures i <= e < |line| && SQUOTE !in line[i..e] && line[e] == SQUOTE && QuotedToken(line, i, SQUOTE).value.1 == e + 1
    decreases |line| - i
  {
    e := i;
    if line[i] != SQUOTE {
      e := SingleBack(line, i + 1);
      assert line[i..e] == [line[i]] + line[i + 1..e];
    }
  }

  lemma {:induction false} WordBack(line: Bytes, i: nat)
    requires i <= |line|
    ensures SPACE !in line[i..WordEnd(line, i)] && WordStops(line, WordEnd(line, i))
    decreases |line| - i
  {
    if i < |line| && line[i] != SPACE {
      WordBack(line, i + 1);
      assert line[i..WordEnd(line, i)] == [line[i]] + line[i + 1..WordEnd(line, i)];
    }
  }

  /** A token in quotes was written so. */
  lemma QuotedBack(line: Bytes, j: nat, e: nat) returns (a: Arg)
    requires j < |line| && IsQuote(line[j]) && QuotedToken(line, j + 1, line[j]).Some? && QuotedToken(line, j + 1, line[j]).value.1 == e
    ensures ArgOk(a) && ArgAt(line, j, e, a) && !a.Bare?
  {
    if line[j] == DQUOTE {
      var ps := PiecesBack(line, j + 1);
      a := DoubleQuoted(ps);
    } else {
      var m := SingleBack(line, j + 1);
      a := SingleQuoted(line[j + 1..m]);
    }
  }

  /** The token at `j` was written as some argument. */
  lemma ArgBack(line: Bytes, j: nat) returns (a: Arg, e: nat)
    requires j < |line| && line[j] != SPACE && Tokens(line, j).Some?
    ensures ArgOk(a) && j < e <= |line| && ArgAt(line, j, e, a) && (a.Bare? ==> WordStops(line, e)) && Tokens(line, e).Some?
  {
    assert SkipSpaces(line, j) == j;
    if IsQuote(line[j]) {
      e := QuotedToken(line, j + 1, line[j]).value.1;
      a := QuotedBack(line, j, e);
    } else {
      WordBack(line, j);
      e := WordEnd(line, j);
      a := Bare(line[j..e]);
    }
  }

  lemma {:induction false} SpacesBack(line: Bytes, i: nat)
    requires i <= |line|
    ensures SpacesAt(line, i, SkipSpaces(line, i))
    decreases |line| - i
  {
    if i < |line| && line[i] == SPACE { SpacesBack(line, i + 1); }
  }

  lemma ArgLength(line: Bytes, j: nat, e: nat, a: Arg)
    requires ArgAt(line, j, e, a)
    ensures e == j + |ArgText(a)|
  {
    ArgAtIff(line, j, e, a);
  }

  lemma WellMore(item: Item, rest: seq<Item>)
    requires ArgOk(item.arg) && (item.arg.Bare? ==> Spaced(rest)) && WellWritten(rest)
    ensures WellWritten([item] + rest)
  {
    assert ([item] + rest)[0] == item && ([item] + rest)[1..] == rest;
  }

  lemma AtMore(line: Bytes, i: nat, item: Item, rest: seq<Item>, tail: nat)
    requires ItemAt(line, i, item) && ItemsAt(line, ItemEnd(i, item), rest, tail)
    ensures ItemsAt(line, i, [item] + rest, tail)
  {
    assert ([item] + rest)[0] == item && ([item] + rest)[1..] == rest;
  }

  /** An argument before some items is one item more. */
  lemma ItemMore(line: Bytes, i: nat, j: nat, e: nat, a: Arg, rest: seq<Item>, tail: nat)
    requires SpacesAt(line, i, j) && ArgOk(a) && ArgAt(line, j, e, a)
    requires WellWritten(rest) && ItemsAt(line, e, rest, tail) && (a.Bare? ==> Spaced(rest))
    ensures WellWritten([Item(j - i, a)] + rest) && ItemsAt(line, i, [Item(j - i, a)] + rest, tail)
  {
    ArgLength(line, j, e, a);
    WellMore(Item(j - i, a), rest);
    AtMore(line, i, Item(j - i, a), rest, tail);
  }

  /** A line that tokenizes is written as some items. */
  lemma {:induction false} ReadWasWritten(line: Bytes, i: nat) returns (items: seq<Item>, tail: nat)
    requires i <= |line| && Tokens(line, i).Some?
    ensures WellWritten(items) && ItemsAt(line, i, items, tail) && (WordStops(line, i) ==> Spaced(items))
    decreases |line| - i
  {
    var j := SkipSpaces(line, i);
    SpacesBack(line, i);
    SpacesSkipped(line, i, j);
    if j == |line| {
      items, tail := [], j - i;
    } else {
      var a, e := ArgBack(line, j);
      var rest;
      rest, tail := ReadWasWritten(line, e);
      ItemMore(line, i, j, e, a, rest, tail);
      items := [Item(j - i, a)] + rest;
    }
  }

  ghost predicate IsWritten(line: Bytes) {
    exists items, tail :: Writes(line, items, tail)
  }

  /**
   The language of inline lines: a line tokenizes exactly when it is written as arguments, bare,
   single-quoted or double-quoted, between spaces; and then to the arguments written.
   */
  lemma InlineLanguage(line: Bytes)
    ensures Tokens(line, 0).Some? <==> IsWritten(line)
    ensures forall items, tail :: Writes(line, items, tail) ==> Tokens(line, 0) == Some(Values(items))
  {
    forall items, tail: nat | Writes(line, items, tail) ensures Tokens(line, 0) == Some(Values(items)) {
      ItemsAtIff(line, 0, items, tail);
      assert line[0..|line|] == line;
      WrittenReads(line, 0, items, tail);
    }
    if Tokens(line, 0).Some? {
      var items, tail := ReadWasWritten(line, 0);
      ItemsAtIff(line, 0, items, tail);
      assert line[0..|line|] == line;
      assert Writes(line, items, tail);
    }
  }

  // ---- Every argument vector can be written ----

  /** A byte as it may appear between double quotes. */
  function Escape(c: byte): (p: Piece)
    ensures PieceOk(p) && PieceValue(p) == c && 13 !in PieceText(p)
  {
    if c == DQUOTE || c == BACKSLASH then Escaped(c)
    else if c == 10 then Escaped(110)
    else if c == 13 then Escaped(114)
    else Plain(c)
  }

  function Quoted(s: Bytes): (a: Arg)
    ensures ArgOk(a) && ArgValue(a) == s
  {
    DoubleQuoted(seq(|s|, i requires 0 <= i < |s| => Escape(s[i])))
  }

  function AllQuoted(args: seq<Bytes>): (items: seq<Item>)
    ensures WellWritten(items) && Values(items) == args
  {
    if args == [] then []
    else
      var items := [Item(1, Quoted(args[0]))] + AllQuoted(args[1..]);
      assert items[1..] == AllQuoted(args[1..]);
      items
  }

  lemma {:induction false} PiecesHaveNoCr(ps: seq<Piece>)
    requires forall i :: 0 <= i < |ps| ==> 13 !in PieceText(ps[i])
    ensures 13 !in PiecesText(ps)
  {
    if ps != [] { PiecesHaveNoCr(ps[1..]); }
  }

  lemma {:induction false} QuotedHasNoCr(args: seq<Bytes>, tail: nat)
    ensures 13 !in Text(AllQuoted(args), tail)
  {
    if args != [] {
      PiecesHaveNoCr(Quoted(args[0]).pieces);
      QuotedHasNoCr(args[1..], tail);
      assert AllQuoted(args)[1..] == AllQuoted(args[1..]);
    }
  }
}

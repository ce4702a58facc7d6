/** Inline commands: one line of space-separated tokens, quoted with `"` or `'`. */
module RespInline {
  import opened ByteStrings

  const SPACE: byte := ' ' as int
  const DQUOTE: byte := '"' as int
  const SQUOTE: byte := '\'' as int
  const BACKSLASH: byte := '\\' as int

  predicate IsQuote(c: byte) {
    c == DQUOTE || c == SQUOTE
  }

  function Unescape(c: byte): byte {
    if c == 110 then 10 else if c == 114 then 13 else if c == 116 then 9 else c
  }

  function SkipSpaces(line: Bytes, i: nat): (j: nat)
    requires i <= |line|
    ensures i <= j <= |line| && (j < |line| ==> line[j] != SPACE)
    decreases |line| - i
  {
    if i < |line| && line[i] == SPACE then SkipSpaces(line, i + 1) else i
  }

  function WordEnd(line: Bytes, i: nat): (j: nat)
    requires i <= |line|
    ensures i <= j <= |line| && (i < |line| && line[i] != SPACE ==> i < j)
    decreases |line| - i
  {
    if i < |line| && line[i] != SPACE then WordEnd(line, i + 1) else i
  }

  /** The text up to the closing quote and the index after it; None when the quote never closes. */
  function QuotedToken(line: Bytes, i: nat, quote: byte): (r: Option<(Bytes, nat)>)
    requires i <= |line|
    ensures r.Some? ==> i < r.value.1 <= |line|
    decreases |line| - i
  {
    if i == |line| then None
    else if line[i] == quote then Some(([], i + 1))
    else if quote == DQUOTE && line[i] == BACKSLASH && i + 1 < |line| then
      Longer([Unescape(line[i + 1])], QuotedToken(line, i + 2, quote))
    else
      Longer([line[i]], QuotedToken(line, i + 1, quote))
  }

  function Longer(front: Bytes, r: Option<(Bytes, nat)>): Option<(Bytes, nat)> {
    if r.Some? then Some((front + r.value.0, r.value.1)) else None
  }

  /** All tokens from `i` on; None when a quote never closes. */
  function Tokens(line: Bytes, i: nat): Option<seq<Bytes>>
    requires i <= |line|
    decreases |line| - i
  {
    var j := SkipSpaces(line, i);
    if j == |line| then Some([])
    else if IsQuote(line[j]) then
      match QuotedToken(line, j + 1, line[j])
      case None => None
      case Some((token, e)) => After([token], Tokens(line, e))
    else
      After([line[j..WordEnd(line, j)]], Tokens(line, WordEnd(line, j)))
  }

  function After(front: seq<Bytes>, r: Option<seq<Bytes>>): Option<seq<Bytes>> {
    if r.Some? then Some(front + r.value) else None
  }

  lemma AfterAfter(a: seq<Bytes>, b: seq<Bytes>, r: Option<seq<Bytes>>)
    ensures After(a, After(b, r)) == After(a + b, r)
  {
    if r.Some? { assert a + (b + r.value) == a + b + r.value; }
  }

  lemma LongerLonger(a: Bytes, b: Bytes, r: Option<(Bytes, nat)>)
    ensures Longer(a, Longer(b, r)) == Longer(a + b, r)
  {
    if r.Some? { assert a + (b + r.value.0) == a + b + r.value.0; }
  }

  lemma AfterNothing(r: Option<seq<Bytes>>)
    ensures After([], r) == r
  {
    if r.Some? { assert [] + r.value == r.value; }
  }

  lemma LongerNothing(r: Option<(Bytes, nat)>)
    ensures Longer([], r) == r
  {
    if r.Some? { assert [] + r.value.0 == r.value.0; }
  }

  method TokenizeInline(line: Bytes) returns (r: Option<seq<Bytes>>)
    ensures r == Tokens(line, 0)
  {
    var parts: seq<Bytes> := [];
    var i := 0;
    AfterNothing(Tokens(line, 0));
    while i < |line|
      invariant i <= |line|
      invariant Tokens(line, 0) == After(parts, Tokens(line, i))
    {
      ghost var i0 := i;
      while i < |line| && line[i] == SPACE
        invariant i0 <= i <= |line| && SkipSpaces(line, i0) == SkipSpaces(line, i)
      {
        i := i + 1;
      }
      if i == |line| { break; }
      if line[i] == DQUOTE || line[i] == SQUOTE {
        var q := ReadQuoted(line, i + 1, line[i]);
        if q.None? { return None; }
        AfterAfter(parts, [q.value.0], Tokens(line, q.value.1));
        parts := parts + [q.value.0];
        i := q.value.1;
      } else {
        var start := i;
        while i < |line| && line[i] != SPACE
          invariant start <= i <= |line| && WordEnd(line, start) == WordEnd(line, i)
        {
          i := i + 1;
        }
        AfterAfter(parts, [line[start..i]], Tokens(line, i));
        parts := parts + [line[start..i]];
      }
    }
    assert parts + [] == parts;
    return Some(parts);
  }

  method ReadQuoted(line: Bytes, start: nat, quote: byte) returns (r: Option<(Bytes, nat)>)
    requires start <= |line|
    ensures r == QuotedToken(line, start, quote)
  {
    var token: Bytes := [];
    var i := start;
    LongerNothing(QuotedToken(line, start, quote));
    while true
      invariant start <= i <= |line|
      invariant QuotedToken(line, start, quote) == Longer(token, QuotedToken(line, i, quote))
      decreases |line| - i
    {
      if i >= |line| { return None; }
      if line[i] == quote {
        assert token + [] == token;
        return Some((token, i + 1));
      }
      if quote == DQUOTE && line[i] == BACKSLASH && i + 1 < |line| {
        i := i + 1;
        LongerLonger(token, [Unescape(line[i])], QuotedToken(line, i + 1, quote));
        token := token + [Unescape(line[i])];
      } else {
        LongerLonger(token, [line[i]], QuotedToken(line, i + 1, quote));
        token := token + [line[i]];
      }
      i := i + 1;
    }
  }
}

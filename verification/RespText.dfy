/** Decimal text on the wire: how the printer writes integers and how the parser reads them back. */
module RespText {
  import opened ByteStrings

  const CR: byte := '\r' as int
  const LF: byte := '\n' as int
  const PLUS: byte := '+' as int
  const MINUS: byte := '-' as int
  const CRLF: Bytes := [CR, LF]

  const TWO_63: int := 0x8000_0000_0000_0000
  const TWO_64: int := 0x1_0000_0000_0000_0000

  type i64 = n: int | -TWO_63 <= n < TWO_63

  predicate IsDigit(c: byte) {
    48 <= c <= 57
  }

  predicate AllDigits(s: Bytes) {
    forall i :: 0 <= i < |s| ==> IsDigit(s[i])
  }

  function Value(s: Bytes): nat
    requires AllDigits(s)
  {
    if s == [] then 0 else 10 * Value(s[..|s| - 1]) + (s[|s| - 1] - 48)
  }

  function Decimal(n: nat): Bytes {
    if n < 10 then [48 + n] else Decimal(n / 10) + [48 + n % 10]
  }

  function IntText(n: int): Bytes {
    if n < 0 then [MINUS] + Decimal(Magnitude(n)) else Decimal(Magnitude(n))
  }

  function Magnitude(n: int): nat {
    if n < 0 then -n else n
  }

  /** `str::parse::<i64>`: an optional sign, at least one digit, and a value in range. */
  function ParseI64(s: Bytes): Option<i64> {
    if s == [] then None
    else
      var digits := if s[0] == PLUS || s[0] == MINUS then s[1..] else s;
      if digits == [] || !AllDigits(digits) then None
      else
        var v := if s[0] == MINUS then -(Value(digits) as int) else Value(digits) as int;
        if -TWO_63 <= v < TWO_63 then Some(v) else None
  }

  /** `str::parse::<usize>` on a 64-bit target: as above, without the minus sign. */
  function ParseUsize(s: Bytes): Option<nat> {
    if s == [] then None
    else
      var digits := if s[0] == PLUS then s[1..] else s;
      if digits == [] || !AllDigits(digits) then None
      else if Value(digits) < TWO_64 then Some(Value(digits)) else None
  }

  lemma {:induction false} DecimalReadsBack(n: nat)
    ensures Decimal(n) != [] && AllDigits(Decimal(n)) && Value(Decimal(n)) == n
  {
    if n >= 10 {
      DecimalReadsBack(n / 10);
      assert Decimal(n)[..|Decimal(n)| - 1] == Decimal(n / 10);
    }
  }

  lemma IntTextReadsBack(n: i64)
    ensures ParseI64(IntText(n)) == Some(n)
    ensures n >= 0 ==> ParseUsize(IntText(n)) == Some(n)
    ensures forall i :: 0 <= i < |IntText(n)| ==> IntText(n)[i] != CR
  {
    DecimalReadsBack(Magnitude(n));
    if n < 0 {
      assert IntText(n)[1..] == Decimal(Magnitude(n));
    }
  }

  // ---- What a numeral means ----

  /** The sum of the digits, each times the power of ten of its place. */
  function Places(s: Bytes): nat
    requires AllDigits(s)
  {
    if s == [] then 0 else (s[0] - 48) * Pow10(|s| - 1) + Places(s[1..])
  }

  lemma {:induction false} PlacesSnoc(s: Bytes, c: byte)
    requires AllDigits(s) && IsDigit(c)
    ensures AllDigits(s + [c]) && Places(s + [c]) == 10 * Places(s) + (c - 48)
  {
    if s == [] {
      assert Places([c]) == (c - 48) * Pow10(0) + Places([c][1..]);
    } else {
      assert (s + [c])[1..] == s[1..] + [c];
      PlacesSnoc(s[1..], c);
      assert (s[0] - 48) * Pow10(|s|) == 10 * ((s[0] - 48) * Pow10(|s| - 1));
    }
  }

  lemma {:induction false} ValueIsPlaces(s: Bytes)
    requires AllDigits(s)
    ensures Value(s) == Places(s)
  {
    if s != [] {
      var init, last := s[..|s| - 1], s[|s| - 1];
      ValueIsPlaces(init);
      PlacesSnoc(init, last);
      assert s == init + [last];
    }
  }

  /** `s` is a sign, or none, before at least one decimal digit, and stands for `n`. */
  ghost predicate Spells(s: Bytes, n: int) {
    exists sign: Bytes, digits: Bytes :: Numeral(s, sign, digits, n)
  }

  predicate Numeral(s: Bytes, sign: Bytes, digits: Bytes, n: int) {
    && s == sign + digits && (sign == [] || sign == [PLUS] || sign == [MINUS])
    && digits != [] && AllDigits(digits) && n == if sign == [MINUS] then -(Places(digits) as int) else Places(digits)
  }

  /** The digits behind the sign, if there is one. */
  function DigitsOf(s: Bytes): Bytes {
    if s != [] && (s[0] == PLUS || s[0] == MINUS) then s[1..] else s
  }

  /** There is one way to read a numeral. */
  lemma NumeralIs(s: Bytes, sign: Bytes, digits: Bytes, n: int)
    requires Numeral(s, sign, digits, n)
    ensures s != [] && digits == DigitsOf(s) && (sign == [MINUS] <==> s[0] == MINUS)
  {
    assert sign == [] ==> s == digits && IsDigit(s[0]);
  }

  lemma SpellsIs(s: Bytes, n: int)
    ensures Spells(s, n) <==>
      && DigitsOf(s) != [] && AllDigits(DigitsOf(s))
      && n == if s[0] == MINUS then -(Value(DigitsOf(s)) as int) else Value(DigitsOf(s))
  {
    var digits := DigitsOf(s);
    if digits != [] && AllDigits(digits) {
      ValueIsPlaces(digits);
      var sign := s[..|s| - |digits|];
      assert s == sign + digits;
      assert Numeral(s, sign, digits, if s[0] == MINUS then -(Value(digits) as int) else Value(digits));
    }
    forall sign: Bytes, d: Bytes | Numeral(s, sign, d, n) ensures d == digits && (sign == [MINUS] <==> s[0] == MINUS) {
      NumeralIs(s, sign, d, n);
    }
  }

  /** Both number parsers read exactly the numerals in their range, whatever zeros lead. */
  lemma ParsesNumerals(s: Bytes, n: int)
    ensures -TWO_63 <= n < TWO_63 ==> (ParseI64(s) == Some(n) <==> Spells(s, n))
    ensures ParseI64(s).Some? ==> Spells(s, ParseI64(s).value)
    ensures 0 <= n < TWO_64 && (s == [] || s[0] != MINUS) ==> (ParseUsize(s) == Some(n) <==> Spells(s, n))
    ensures s != [] && s[0] == MINUS ==> ParseUsize(s) == None
  {
    SpellsIs(s, n);
    if ParseI64(s).Some? { SpellsIs(s, ParseI64(s).value); }
    if s != [] && s[0] == MINUS { assert !IsDigit(s[0]); }
  }

  /** `n` decimal digits are enough below `10^n`. */
  lemma {:induction false} DecimalLength(n: nat, digits: nat, bound: nat)
    requires digits > 0 && n < bound && bound == Pow10(digits)
    ensures |Decimal(n)| <= digits
    decreases digits
  {
    if n >= 10 {
      assert digits > 1;
      DecimalLength(n / 10, digits - 1, bound / 10);
    }
  }

  function Pow10(k: nat): nat {
    if k == 0 then 1 else 10 * Pow10(k - 1)
  }

  lemma Pow10Of19()
    ensures Pow10(19) == 10_000_000_000_000_000_000
  {
    assert Pow10(5) == 100_000;
    assert Pow10(10) == 100_000 * Pow10(5);
    assert Pow10(15) == 100_000 * Pow10(10);
    assert Pow10(19) == 10_000 * Pow10(15);
  }

  /** Writes `n` right to left into a fixed 20-byte scratch array, as the hot integer path does. */
  method PutI64(n: i64) returns (text: Bytes)
    ensures text == IntText(n) && |text| <= 20
  {
    if n == 0 { return [48]; }
    if n == 1 { return [49]; }
    var tmp := new byte[20];
    var pos := 20;
    var v := Magnitude(n);
    ghost var m := v;
    Pow10Of19();
    DecimalLength(m, 19, Pow10(19));
    while v > 0
      invariant pos <= 20
      invariant v <= m
      invariant v > 0 ==> Decimal(m) == Decimal(v) + tmp[pos..] && |Decimal(v)| < pos
      invariant v == 0 ==> Decimal(m) == tmp[pos..] && 0 < pos
    {
      pos := pos - 1;
      tmp[pos] := 48 + v % 10;
      v := v / 10;
    }
    if n < 0 {
      pos := pos - 1;
      tmp[pos] := MINUS;
    }
    text := tmp[pos..];
  }
}

/** The text of a double: what `str::parse::<f64>` takes, written down without reference to how it is scanned. */
module FloatText {
  import opened ByteStrings
  import opened RespText
  import opened RespParse

  /** The digits after an `e` or `E`, with their sign if there is one. */
  datatype Exponent = Exponent(e: byte, sign: Bytes, digits: Bytes)

  /** Digits, a point with more digits, and an exponent; the last two may be missing. */
  datatype Decimal = Decimal(whole: Bytes, frac: Option<Bytes>, exp: Option<Exponent>)

  predicate IsSign(s: Bytes) {
    s == [] || s == [PLUS] || s == [MINUS]
  }

  predicate ExponentOk(x: Exponent) {
    (x.e == 'e' as int || x.e == 'E' as int) && IsSign(x.sign) && x.digits != [] && AllDigits(x.digits)
  }

  predicate DecimalOk(d: Decimal) {
    && AllDigits(d.whole) && (d.frac.Some? ==> AllDigits(d.frac.value)) && (d.exp.Some? ==> ExponentOk(d.exp.value))
    && (d.whole != [] || (d.frac.Some? && d.frac.value != []))
  }

  function ExponentText(x: Option<Exponent>): Bytes {
    match x
    case Some(x) => [x.e] + (x.sign + x.digits)
    case None => []
  }

  function FracText(f: Option<Bytes>): Bytes {
    match f
    case Some(f) => ['.' as int] + f
    case None => []
  }

  function DecimalText(d: Decimal): Bytes {
    d.whole + (FracText(d.frac) + ExponentText(d.exp))
  }

  /** The digits from `i` end at `j`. */
  predicate DigitsEnd(s: Bytes, i: nat, j: nat) {
    i <= j <= |s| && AllDigits(s[i..j]) && (j < |s| ==> !IsDigit(s[j]))
  }

  lemma {:induction false} DigitRunIs(s: Bytes, i: nat, j: nat)
    requires i <= |s|
    ensures DigitRun(s, i) == j <==> DigitsEnd(s, i, j)
    decreases |s| - i
  {
    if i < |s| && IsDigit(s[i]) {
      DigitRunIs(s, i + 1, j);
      if i < j <= |s| { assert s[i..j] == [s[i]] + s[i + 1..j]; }
    } else {
      if i < j <= |s| { assert s[i..j][0] == s[i]; }
      assert s[i..i] == [];
    }
  }

  // ---- Exponents ----

  lemma ExponentReads(s: Bytes, i: nat, x: Exponent)
    requires i <= |s| && ExponentOk(x) && s[i..] == ExponentText(Some(x))
    ensures IsExponent(s, i)
  {
    var t, m := s[i..], i + 1 + |x.sign|;
    assert s[i] == t[0];
    assert t == [x.e] + x.sign + x.digits;
    assert s[m..|s|] == t[m - i..] == x.digits;
    DigitRunIs(s, m, |s|);
    assert s[i + 1] == t[1];
    assert IsDigit(x.digits[0]);
    if x.sign == [] { assert t[1] == x.digits[0]; }
  }

  lemma ExponentBack(s: Bytes, i: nat) returns (x: Option<Exponent>)
    requires i <= |s| && IsExponent(s, i)
    ensures (x.Some? ==> ExponentOk(x.value)) && s[i..] == ExponentText(x)
  {
    x := None;
    if i < |s| {
      var m := if i + 1 < |s| && (s[i + 1] == PLUS || s[i + 1] == MINUS) then i + 2 else i + 1;
      DigitRunIs(s, m, |s|);
      x := Some(Exponent(s[i], s[i + 1..m], s[m..]));
      assert s[m..|s|] == s[m..] && s[i..] == [s[i]] + (s[i + 1..m] + s[m..]);
    }
  }

  /** Neither an exponent nor anything behind the digits begins with a digit. */
  lemma ExponentStops(s: Bytes, i: nat, x: Option<Exponent>)
    requires i <= |s| && (x.Some? ==> ExponentOk(x.value)) && s[i..] == ExponentText(x)
    ensures IsExponent(s, i) && (i < |s| ==> !IsDigit(s[i]) && s[i] != '.' as int)
  {
    if x.Some? {
      ExponentReads(s, i, x.value);
      assert s[i] == s[i..][0];
    }
  }

  // ---- Decimals ----

  lemma DecimalReads(d: Decimal)
    requires DecimalOk(d)
    ensures IsNumber(DecimalText(d))
  {
    var s, i := DecimalText(d), |d.whole|;
    assert s[..i] == d.whole && s[0..i] == s[..i] && s[i..] == FracText(d.frac) + ExponentText(d.exp);
    match d.frac {
      case None =>
        assert s[i..] == ExponentText(d.exp);
        DigitsRead(s, 0, i, d.exp);
      case Some(f) =>
        FracParts(s, i, i + 1 + |f|, f, ExponentText(d.exp));
        DigitsRead(s, i + 1, i + 1 + |f|, d.exp);
        DigitRunIs(s, 0, i);
    }
  }

  lemma FracParts(s: Bytes, i: nat, k: nat, f: Bytes, rest: Bytes)
    requires i <= |s| && s[i..] == FracText(Some(f)) + rest && k == i + 1 + |f|
    ensures i < k <= |s| && s[i] == '.' as int && s[i + 1..k] == f && s[k..] == rest
  {
    var t := s[i..];
    var n := k - i;
    assert s[i] == t[0];
    assert s[i + 1..k] == t[1..n];
    assert t[1..n] == f;
    assert s[k..] == t[n..];
    assert t[n..] == rest;
  }

  lemma DigitsRead(s: Bytes, i: nat, k: nat, x: Option<Exponent>)
    requires i <= k <= |s| && AllDigits(s[i..k]) && (x.Some? ==> ExponentOk(x.value)) && s[k..] == ExponentText(x)
    ensures DigitRun(s, i) == k && IsExponent(s, k)
  {
    ExponentStops(s, k, x);
    DigitRunIs(s, i, k);
  }

  lemma PlainBack(s: Bytes, i: nat, x: Option<Exponent>) returns (d: Decimal)
    requires 0 < i <= |s| && AllDigits(s[..i]) && (x.Some? ==> ExponentOk(x.value)) && s[i..] == ExponentText(x)
    ensures DecimalOk(d) && s == DecimalText(d)
  {
    d := Decimal(s[..i], None, x);
    assert FracText(None) + ExponentText(x) == s[i..];
    assert s == s[..i] + s[i..];
  }

  lemma PointBack(s: Bytes, i: nat, k: nat, x: Option<Exponent>) returns (d: Decimal)
    requires i < k <= |s| && s[i] == '.' as int && AllDigits(s[..i]) && AllDigits(s[i + 1..k]) && (i > 0 || k > i + 1)
    requires (x.Some? ==> ExponentOk(x.value)) && s[k..] == ExponentText(x)
    ensures DecimalOk(d) && s == DecimalText(d)
  {
    d := Decimal(s[..i], Some(s[i + 1..k]), x);
    assert s[i..k] == FracText(d.frac);
    assert s[i..] == s[i..k] + s[k..] && s == s[..i] + s[i..];
  }

  lemma DecimalBack(s: Bytes) returns (d: Decimal)
    requires IsNumber(s)
    ensures DecimalOk(d) && s == DecimalText(d)
  {
    var i := DigitRun(s, 0);
    DigitRunIs(s, 0, i);
    assert s[0..i] == s[..i];
    if i < |s| && s[i] == '.' as int {
      var k := DigitRun(s, i + 1);
      DigitRunIs(s, i + 1, k);
      var x := ExponentBack(s, k);
      d := PointBack(s, i, k, x);
    } else {
      var x := ExponentBack(s, i);
      d := PlainBack(s, i, x);
    }
  }

  // ---- Doubles ----

  /** The letters of `lower`, each as it is or in capitals as in `upper`. */
  predicate Letters(s: Bytes, lower: string, upper: string) {
    |s| == |lower| == |upper| && forall k :: 0 <= k < |s| ==> s[k] == lower[k] as int || s[k] == upper[k] as int
  }

  ghost predicate IsUnsigned(s: Bytes) {
    || Letters(s, "inf", "INF") || Letters(s, "infinity", "INFINITY") || Letters(s, "nan", "NAN")
    || exists d :: DecimalOk(d) && s == DecimalText(d)
  }

  ghost predicate IsDouble(s: Bytes) {
    exists sign: Bytes, t: Bytes :: IsSign(sign) && s == sign + t && IsUnsigned(t)
  }

  /** A text is a double exactly when it is a sign, or none, before a special name or a decimal. */
  lemma FloatIs(s: Bytes)
    ensures IsFloat(s) <==> IsDouble(s)
  {
    var t := if s != [] && (s[0] == PLUS || s[0] == MINUS) then s[1..] else s;
    UnsignedIs(t);
    if IsFloat(s) {
      var sign := s[..|s| - |t|];
      assert IsSign(sign) && s == sign + t && IsUnsigned(t);
    }
    if IsDouble(s) {
      var sign: Bytes, u: Bytes :| IsSign(sign) && s == sign + u && IsUnsigned(u);
      UnsignedStarts(u);
      assert sign == [] ==> s == u;
      assert u == t;
    }
  }

  lemma UnsignedStarts(s: Bytes)
    requires IsUnsigned(s)
    ensures s != [] && s[0] != PLUS && s[0] != MINUS
  {
    if d :| DecimalOk(d) && s == DecimalText(d) {
      assert d.whole != [] ==> s[0] == d.whole[0] && IsDigit(s[0]);
    }
  }

  lemma UnsignedIs(t: Bytes)
    ensures IsUnsigned(t) <==>
      Lower(t) == [105, 110, 102] || Lower(t) == [105, 110, 102, 105, 110, 105, 116, 121] || Lower(t) == [110, 97, 110] || IsNumber(t)
  {
    LettersAre(t, "inf", "INF", [105, 110, 102]);
    LettersAre(t, "infinity", "INFINITY", [105, 110, 102, 105, 110, 105, 116, 121]);
    LettersAre(t, "nan", "NAN", [110, 97, 110]);
    if IsNumber(t) { var d := DecimalBack(t); }
    forall d | DecimalOk(d) && t == DecimalText(d) ensures IsNumber(t) { DecimalReads(d); }
  }

  lemma LettersAre(t: Bytes, lower: string, upper: string, name: Bytes)
    requires |lower| == |upper| == |name|
    requires forall k :: 0 <= k < |name| ==> 97 <= name[k] <= 122 && lower[k] as int == name[k] && upper[k] as int + 32 == name[k]
    ensures Letters(t, lower, upper) <==> Lower(t) == name
  {
    if Letters(t, lower, upper) {
      assert forall k :: 0 <= k < |t| ==> Lower(t)[k] == name[k];
    }
    if Lower(t) == name {
      forall k | 0 <= k < |t| ensures t[k] == lower[k] as int || t[k] == upper[k] as int {
        assert Lower(t)[k] == name[k];
      }
    }
  }
}

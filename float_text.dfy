/**
  Conversion of a coordinate buffer to a number.

  The point-entry filter only lets ASCII digits, '.' and '-' into a buffer,
  so only that fragment of the float grammar of Rust's `str::parse::<f64>`
  is reachable: an optional sign, then digits with at most one decimal
  point and at least one digit on one side of it ("3." and ".5" are
  accepted, "", "-", "." and "-." are not). Values are exact reals; IEEE-754
  rounding and overflow are not modelled.
 */
module FloatText {

  datatype Option<T> = None | Some(value: T)

  predicate IsDigit(c: char) { '0' <= c <= '9' }

  /** The characters the point-entry filter admits into a buffer. */
  predicate IsNumericChar(c: char) { IsDigit(c) || c == '.' || c == '-' }

  predicate AllNumeric(s: string) { forall i :: 0 <= i < |s| ==> IsNumericChar(s[i]) }

  predicate AllDigits(s: string) { forall i :: 0 <= i < |s| ==> IsDigit(s[i]) }

  predicate HasDigit(s: string) { exists i :: 0 <= i < |s| && IsDigit(s[i]) }

  function DigitValue(c: char): (d: nat)
    requires IsDigit(c)
    ensures d < 10
  {
    c as int - '0' as int
  }

  function DigitChar(d: nat): (c: char)
    requires d < 10
    ensures IsDigit(c) && DigitValue(c) == d
  {
    ('0' as int + d) as char
  }

  /** The natural number a string of decimal digits denotes. */
  function DigitsValue(s: string): nat
    requires AllDigits(s)
  {
    if s == [] then 0 else 10 * DigitsValue(s[..|s| - 1]) + DigitValue(s[|s| - 1])
  }

  function Pow10(k: nat): (p: nat)
    ensures p >= 1
  {
    if k == 0 then 1 else 10 * Pow10(k - 1)
  }

  /** Position of the first occurrence of c in s. */
  function IndexOf(s: string, c: char): (i: nat)
    requires c in s
    ensures i < |s| && s[i] == c && c !in s[..i]
  {
    if s[0] == c then 0
    else
      var j := IndexOf(s[1..], c);
      assert s[..1 + j] == [s[0]] + s[1..][..j];
      1 + j
  }

  /**
    The value of the digits before and after a '.', when both are digit
    strings and at least one of them is not empty.
   */
  function ParseParts(whole: string, frac: string): Option<real>
  {
    if AllDigits(whole) && AllDigits(frac) && |whole| + |frac| > 0 then
      Some(FixedValue(DigitsValue(whole), DigitsValue(frac), |frac|))
    else
      None
  }

  /** The value of whole + frac / 10^k. */
  function FixedValue(whole: nat, frac: nat, k: nat): real
  {
    whole as real + frac as real / Pow10(k) as real
  }

  /** An unsigned literal: digits, optionally split by one '.', with at least one digit. */
  function ParseUnsigned(s: string): Option<real>
  {
    if '.' in s then
      var i := IndexOf(s, '.');
      ParseParts(s[..i], s[i + 1..])
    else if s != [] && AllDigits(s) then
      Some(DigitsValue(s) as real)
    else
      None
  }

  /**
    `str::parse::<f64>` on a buffer: `Some(v)` for `Ok(v)`, `None` for `Err`.
    A buffer parses exactly when it is a float literal; `ParseRender` gives
    the value.
   */
  function ParseF64(s: string): (r: Option<real>)
    requires AllNumeric(s)
    ensures r.Some? <==> IsFloatLiteral(s)
  {
    if s != [] && s[0] == '-' then
      SignedLiteral(s);
      UnsignedAccepts(s[1..]);
      match ParseUnsigned(s[1..])
      case Some(v) => Some(-v)
      case None => None
    else
      UnsignedLiteral(s);
      UnsignedAccepts(s);
      ParseUnsigned(s)
  }

  /**
    Rust's float literal grammar, restricted to the buffer alphabet, stated
    without reference to the parser: '-' at most at the front, at most one
    '.', and at least one digit.
   */
  predicate IsFloatLiteral(s: string)
  {
    (forall i :: 0 < i < |s| ==> s[i] != '-') && multiset(s)['.'] <= 1 && HasDigit(s)
  }

  lemma DigitsOfNumeric(s: string)
    requires AllNumeric(s)
    ensures AllDigits(s) <==> '-' !in s && '.' !in s
  {
  }

  lemma HasDigitSplit(a: string, c: char, b: string)
    requires !IsDigit(c)
    ensures HasDigit(a + [c] + b) <==> HasDigit(a) || HasDigit(b)
  {
    var s := a + [c] + b;
    if HasDigit(s) {
      var i :| 0 <= i < |s| && IsDigit(s[i]);
      if i < |a| { assert s[i] == a[i]; } else { assert s[i] == b[i - |a| - 1]; }
    }
    if HasDigit(a) {
      var i :| 0 <= i < |a| && IsDigit(a[i]);
      assert s[i] == a[i];
    }
    if HasDigit(b) {
      var i :| 0 <= i < |b| && IsDigit(b[i]);
      assert s[|a| + 1 + i] == b[i];
    }
  }

  lemma UnsignedAccepts(t: string)
    requires AllNumeric(t)
    ensures ParseUnsigned(t).Some? <==> '-' !in t && multiset(t)['.'] <= 1 && HasDigit(t)
  {
    if '.' in t {
      var i := IndexOf(t, '.');
      var whole, frac := t[..i], t[i + 1..];
      assert t == whole + ['.'] + frac;
      assert multiset(t)['.'] == 1 + multiset(frac)['.'] by {
        assert multiset(t) == multiset(whole) + multiset{'.'} + multiset(frac);
      }
      assert AllNumeric(whole) && AllNumeric(frac) by {
        forall j | 0 <= j < |whole| ensures IsNumericChar(whole[j]) { assert whole[j] == t[j]; }
        forall j | 0 <= j < |frac| ensures IsNumericChar(frac[j]) { assert frac[j] == t[i + 1 + j]; }
      }
      DigitsOfNumeric(whole);
      DigitsOfNumeric(frac);
      HasDigitSplit(whole, '.', frac);
      assert '-' in t <==> '-' in whole || '-' in frac;
      assert AllDigits(whole) && AllDigits(frac) ==> (|whole| + |frac| > 0 <==> HasDigit(whole) || HasDigit(frac)) by {
        if AllDigits(whole) && |whole| > 0 { assert IsDigit(whole[0]); }
        if AllDigits(frac) && |frac| > 0 { assert IsDigit(frac[0]); }
      }
    } else {
      DigitsOfNumeric(t);
      assert multiset(t)['.'] == 0;
      if t != [] && AllDigits(t) { assert IsDigit(t[0]); }
    }
  }

  /** A literal with a leading sign is a float literal when what follows the sign is an unsigned one. */
  lemma SignedLiteral(s: string)
    requires AllNumeric(s) && s != [] && s[0] == '-'
    ensures AllNumeric(s[1..])
    ensures IsFloatLiteral(s) <==> '-' !in s[1..] && multiset(s[1..])['.'] <= 1 && HasDigit(s[1..])
  {
    var t := s[1..];
    assert s == [] + ['-'] + t;
    assert AllNumeric(t) by {
      forall j | 0 <= j < |t| ensures IsNumericChar(t[j]) { assert t[j] == s[j + 1]; }
    }
    HasDigitSplit([], '-', t);
    assert multiset(s)['.'] == multiset(t)['.'] by {
      assert multiset(s) == multiset{'-'} + multiset(t);
    }
    assert (forall i :: 0 < i < |s| ==> s[i] != '-') <==> '-' !in t by {
      if '-' in t {
        var j :| 0 <= j < |t| && t[j] == '-';
        assert s[j + 1] == '-';
      }
    }
  }

  /** Without a leading sign, a float literal has no '-' at all. */
  lemma UnsignedLiteral(s: string)
    requires !(s != [] && s[0] == '-')
    ensures IsFloatLiteral(s) <==> '-' !in s && multiset(s)['.'] <= 1 && HasDigit(s)
  {
  }

  /** Decimal digits of n, most significant first, without leading zeros. */
  function NatDigits(n: nat): (s: string)
    ensures s != [] && AllDigits(s)
  {
    if n < 10 then [DigitChar(n)] else NatDigits(n / 10) + [DigitChar(n % 10)]
  }

  /** The last k decimal digits of n, padded with leading zeros. */
  function FractionDigits(n: nat, k: nat): (s: string)
    ensures |s| == k && AllDigits(s)
  {
    if k == 0 then [] else FractionDigits(n / 10, k - 1) + [DigitChar(n % 10)]
  }

  /** The value a decimal with sign, whole part and k-digit fraction denotes. */
  function DecimalValue(negative: bool, whole: nat, frac: nat, k: nat): real
  {
    if negative then -FixedValue(whole, frac, k) else FixedValue(whole, frac, k)
  }

  /** The unsigned text of whole + frac / 10^k, with exactly k fraction digits (no '.' when k is 0). */
  function RenderUnsigned(whole: nat, frac: nat, k: nat): (s: string)
    requires frac < Pow10(k)
    ensures s != [] && IsDigit(s[0]) && AllNumeric(s)
  {
    NatDigits(whole) + (if k == 0 then "" else "." + FractionDigits(frac, k))
  }

  /** The text of the signed decimal, with `zeros` leading zeros before the whole part. */
  function Render(negative: bool, zeros: nat, whole: nat, frac: nat, k: nat): string
    requires frac < Pow10(k)
  {
    (if negative then "-" else "") + (Zeros(zeros) + RenderUnsigned(whole, frac, k))
  }

  lemma DigitsValueSnoc(s: string, c: char)
    requires AllDigits(s) && IsDigit(c)
    ensures AllDigits(s + [c]) && DigitsValue(s + [c]) == 10 * DigitsValue(s) + DigitValue(c)
  {
  }

  lemma {:induction false} NatDigitsValue(n: nat)
    ensures DigitsValue(NatDigits(n)) == n
  {
    if n >= 10 {
      NatDigitsValue(n / 10);
      DigitsValueSnoc(NatDigits(n / 10), DigitChar(n % 10));
    }
  }

  lemma ModStep(n: nat, k: nat)
    requires k > 0
    ensures (n / 10) % Pow10(k - 1) * 10 + n % 10 == n % Pow10(k)
  {
    var p := Pow10(k - 1);
    var q, d := n / 10, n % 10;
    var u, v := q / p, q % p;
    assert n == 10 * q + d;
    assert q == p * u + v;
    assert n == (10 * p) * u + (10 * v + d);
    assert 0 <= 10 * v + d < 10 * p;
    ModUnique(n, 10 * p, u, 10 * v + d);
  }

  lemma ModUnique(n: int, b: int, u: int, w: int)
    requires b > 0 && n == b * u + w && 0 <= w < b
    ensures n % b == w
  {
    var q, r := n / b, n % b;
    assert n == b * q + r;
    assert b * (u - q) == r - w;
    if u - q >= 1 {
      MulAtLeast(b, u - q);
    } else if q - u >= 1 {
      MulAtLeast(b, q - u);
    }
  }

  lemma MulAtLeast(b: int, d: int)
    requires b > 0 && d >= 1
    ensures b * d >= b
  {
  }

  lemma {:induction false} FractionDigitsValue(n: nat, k: nat)
    ensures DigitsValue(FractionDigits(n, k)) == n % Pow10(k)
  {
    if k > 0 {
      FractionDigitsValue(n / 10, k - 1);
      DigitsValueSnoc(FractionDigits(n / 10, k - 1), DigitChar(n % 10));
      ModStep(n, k);
    }
  }

  lemma IndexOfSplit(w: string, c: char, f: string)
    requires c !in w
    ensures c in w + [c] + f && IndexOf(w + [c] + f, c) == |w|
  {
    var s := w + [c] + f;
    assert s[|w|] == c;
    var i := IndexOf(s, c);
  }

  lemma FractionValue(frac: nat, k: nat)
    requires frac < Pow10(k)
    ensures DigitsValue(FractionDigits(frac, k)) == frac
  {
  }

  lemma ParseAtPoint(w: string, f: string)
    requires AllDigits(w)
    ensures ParseUnsigned(w + "." + f) == ParseParts(w, f)
  {
    var s := w + "." + f;
    IndexOfSplit(w, '.', f);
    assert s[..|w|] == w && s[|w| + 1..] == f;
  }

  lemma PartsValue(w: string, f: string)
    requires AllDigits(w) && AllDigits(f) && w != []
    ensures ParseParts(w, f) == Some(FixedValue(DigitsValue(w), DigitsValue(f), |f|))
  {
  }

  lemma SignedParse(body: string, v: real)
    requires AllNumeric(body) && body != [] && IsDigit(body[0]) && ParseUnsigned(body) == Some(v)
    ensures AllNumeric("-" + body) && ParseF64("-" + body) == Some(-v)
    ensures ParseF64(body) == Some(v)
  {
  }

  /** A run of n zero digits. */
  function Zeros(n: nat): (s: string)
    ensures |s| == n && AllDigits(s)
  {
    if n == 0 then [] else Zeros(n - 1) + "0"
  }

  lemma {:induction false} ZerosAlone(n: nat)
    ensures DigitsValue(Zeros(n)) == 0
  {
    if n > 0 {
      ZerosAlone(n - 1);
      DigitsValueSnoc(Zeros(n - 1), '0');
    }
  }

  /** Leading zeros do not change the value of a digit string. */
  lemma {:induction false} ZerosValue(n: nat, w: string)
    requires AllDigits(w)
    ensures AllDigits(Zeros(n) + w) && DigitsValue(Zeros(n) + w) == DigitsValue(w)
    decreases |w|
  {
    var z := Zeros(n);
    if w == [] {
      assert z + w == z;
      ZerosAlone(n);
    } else {
      var init, last := w[..|w| - 1], w[|w| - 1];
      assert w == init + [last];
      assert z + w == (z + init) + [last];
      ZerosValue(n, init);
      DigitsValueSnoc(z + init, last);
      DigitsValueSnoc(init, last);
    }
  }

  lemma UnsignedRender(n: nat, whole: nat, frac: nat, k: nat)
    requires frac < Pow10(k)
    ensures ParseUnsigned(Zeros(n) + RenderUnsigned(whole, frac, k)) == Some(FixedValue(whole, frac, k))
  {
    var z, w := Zeros(n), NatDigits(whole);
    NatDigitsValue(whole);
    ZerosValue(n, w);
    if k == 0 {
      assert z + RenderUnsigned(whole, frac, k) == z + w;
      assert '.' !in z + w by {
        assert forall i :: 0 <= i < |z + w| ==> IsDigit((z + w)[i]);
      }
    } else {
      var f := FractionDigits(frac, k);
      assert z + RenderUnsigned(whole, frac, k) == (z + w) + "." + f;
      ParseAtPoint(z + w, f);
      FractionValue(frac, k);
      PartsValue(z + w, f);
    }
  }

  lemma PaddedText(n: nat, whole: nat, frac: nat, k: nat)
    requires frac < Pow10(k)
    ensures AllNumeric(Zeros(n) + RenderUnsigned(whole, frac, k))
    ensures IsDigit((Zeros(n) + RenderUnsigned(whole, frac, k))[0])
  {
  }

  /**
    Typing a decimal into a buffer, with any number of leading zeros, and
    parsing the text gives the decimal's value back.
   */
  lemma ParseRender(negative: bool, zeros: nat, whole: nat, frac: nat, k: nat)
    requires frac < Pow10(k)
    ensures AllNumeric(Render(negative, zeros, whole, frac, k))
    ensures ParseF64(Render(negative, zeros, whole, frac, k)) == Some(DecimalValue(negative, whole, frac, k))
  {
    var body, v := Zeros(zeros) + RenderUnsigned(whole, frac, k), FixedValue(whole, frac, k);
    PaddedText(zeros, whole, frac, k);
    UnsignedRender(zeros, whole, frac, k);
    SignedParse(body, v);
    var s, r := Render(negative, zeros, whole, frac, k), DecimalValue(negative, whole, frac, k);
    assert s == (if negative then "-" else "") + body;
    assert r == (if negative then -v else v);
    assert AllNumeric(body) && AllNumeric("-" + body);
    assert ParseF64("-" + body) == Some(-v);
    assert ParseF64(body) == Some(v);
    SignedText(negative, body, s, v, r);
  }

  /** A point after the digits and nothing else changes nothing: "3." is 3. */
  lemma TrailingPointIgnored(w: string)
    requires AllDigits(w) && w != []
    ensures AllNumeric(w + ".") && AllNumeric(w)
    ensures ParseF64(w + ".") == ParseF64(w)
  {
  }

  /** A point with no digits before it reads as "0.": ".5" is 0.5. */
  lemma LeadingPointIsZero(f: string)
    requires AllDigits(f) && f != []
    ensures AllNumeric("." + f) && AllNumeric("0." + f)
    ensures ParseF64("." + f) == ParseF64("0." + f)
  {
    assert AllNumeric("." + f) by {
      forall i | 0 <= i < |f| + 1 ensures IsNumericChar(("." + f)[i]) {
        if i > 0 { assert ("." + f)[i] == f[i - 1]; }
      }
    }
    assert AllNumeric("0." + f) by {
      forall i | 0 <= i < |f| + 2 ensures IsNumericChar(("0." + f)[i]) {
        if i > 1 { assert ("0." + f)[i] == f[i - 2]; }
      }
    }
    ParseAtPoint("", f);
    ParseAtPoint("0", f);
    assert "" + "." + f == "." + f;
    assert "0" + "." + f == "0." + f;
    assert DigitsValue("0") == 0 by { assert "0"[..0] == ""; }
  }

  /**
    A leading '-' negates what the rest of the buffer parses to, and a
    buffer is rejected after it exactly when it is rejected alone.
   */
  lemma NegatedParse(t: string)
    requires AllNumeric(t) && (t == [] || t[0] != '-')
    ensures AllNumeric("-" + t)
    ensures ParseF64("-" + t) == match ParseF64(t) case Some(v) => Some(-v) case None => None
  {
  }

  lemma SignedText(negative: bool, body: string, s: string, v: real, r: real)
    requires s == (if negative then "-" else "") + body && r == (if negative then -v else v)
    requires AllNumeric(body) && AllNumeric("-" + body)
    requires ParseF64("-" + body) == Some(-v) && ParseF64(body) == Some(v)
    ensures AllNumeric(s) && ParseF64(s) == Some(r)
  {
    if negative {
      assert s == "-" + body;
    } else {
      assert s == body;
    }
  }

  /** An empty buffer, a lone sign and a sign with a lone point are rejected. */
  lemma IncompleteInputsRejected()
    ensures ParseF64("") == None && ParseF64("-") == None
    ensures ParseF64(".") == None && ParseF64("-.") == None
  {
  }

  /** A second point, or a sign after the first character, is rejected. */
  lemma MalformedInputsRejected()
    ensures ParseF64("1.2.3") == None && ParseF64("1-2") == None
  {
  }

  /** A trailing or a leading point is accepted. */
  lemma PointAtEitherEndAccepted()
    ensures ParseF64("3.") == Some(3.0) && ParseF64(".5") == Some(0.5)
  {
  }
}

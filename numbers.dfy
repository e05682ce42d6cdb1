/** Conversion of field text to numbers: Python's `int(s)` (through
    `astype(int)`) and `float(s)` (through `astype(float)` and
    `pd.to_numeric`), for the whitespace-free strings the tokeniser yields.
    Both are scanners that read the text left to right. Values are exact: a
    `real` stands for the double the program computes. */
module Numbers {
  import opened Wrappers

  predicate IsDigit(c: char)
  {
    '0' <= c <= '9'
  }

  predicate AllDigits(s: string)
  {
    forall i :: 0 <= i < |s| ==> IsDigit(s[i])
  }

  function DigitValue(c: char): (d: nat)
    requires IsDigit(c)
    ensures d < 10
  {
    (c as int) - ('0' as int)
  }

  function DigitChar(d: nat): (c: char)
    requires d < 10
    ensures IsDigit(c) && DigitValue(c) == d
  {
    (('0' as int) + d) as char
  }

  /** The value of a string of decimal digits, most significant first. */
  function DigitsValue(s: string): nat
    requires AllDigits(s)
  {
    if s == [] then 0 else 10 * DigitsValue(s[..|s| - 1]) + DigitValue(s[|s| - 1])
  }

  function Pow10(k: nat): (p: nat)
    ensures p >= 1
  {
    if k == 0 then 1 else 10 * Pow10(k - 1)
  }

  /** 10 to an integer power, as an exact real. */
  function Scale(e: int): (r: real)
    ensures r > 0.0
  {
    if e >= 0 then Pow10(e) as real else 1.0 / (Pow10(-e) as real)
  }

  /** The shortest decimal rendering of `n` (what `str(n)` prints). */
  function NatToString(n: nat): (s: string)
    ensures s != [] && AllDigits(s)
  {
    if n < 10 then [DigitChar(n)] else NatToString(n / 10) + [DigitChar(n % 10)]
  }

  function IntToString(i: int): (s: string)
    ensures s != []
  {
    if i < 0 then "-" + NatToString(-i) else NatToString(i)
  }

  predicate IsSign(c: char)
  {
    c == '+' || c == '-'
  }

  /** Whether the text starts with a minus sign, and the text after an
      optional leading sign. */
  function SplitSign(s: string): (bool, string)
  {
    if s != [] && IsSign(s[0]) then (s[0] == '-', s[1..]) else (false, s)
  }

  lemma AllDigitsCons(s: string)
    requires s != []
    ensures AllDigits(s) <==> IsDigit(s[0]) && AllDigits(s[1..])
  {
    if IsDigit(s[0]) && AllDigits(s[1..]) {
      forall i | 0 < i < |s| ensures IsDigit(s[i]) {
        assert s[i] == s[1..][i - 1];
      }
    }
  }

  /** One digit `c` between `m` and a tail worth `x` over `p` places. */
  lemma ShiftArithmetic(m: nat, c: nat, p: nat, x: nat)
    ensures (10 * m + c) * p + x == m * (10 * p) + (c * p + x)
  {
  }

  /** Reads decimal digits after the value `acc` already read: the digits
      are accepted exactly when there is no other character, and then the
      value is `acc` shifted left by them plus their own value. */
  function ScanDigits(s: string, acc: nat): (r: Option<nat>)
    ensures r.Some? <==> AllDigits(s)
    ensures r.Some? ==> r.value == acc * Pow10(|s|) + DigitsValue(s)
    decreases |s|
  {
    if s == [] then Some(acc)
    else
      AllDigitsCons(s);
      if IsDigit(s[0]) then
        var r := ScanDigits(s[1..], 10 * acc + DigitValue(s[0]));
        if AllDigits(s[1..]) then
          DigitsValueCons(s[0], s[1..]);
          assert [s[0]] + s[1..] == s;
          ShiftArithmetic(acc, DigitValue(s[0]), Pow10(|s| - 1), DigitsValue(s[1..]));
          r
        else r
      else None
  }

  /** `int(s)` for a string without whitespace: an optional sign followed by
      one or more decimal digits; anything else raises `ValueError` (None). */
  function ParseInt(s: string): (r: Option<int>)
  {
    var (neg, body) := SplitSign(s);
    if body == [] then None
    else
      match ScanDigits(body, 0)
      case None => None
      case Some(v) => Some(if neg then -(v as int) else v)
  }

  /** What the float scanner has read: the mantissa's digits as one number,
      how many of them there are and how many follow the point, and the
      exponent with its sign and digit count. */
  datatype Acc = Acc(mant: nat, digits: nat, fracDigits: nat, expNeg: bool, exp: nat, expDigits: nat)

  const Start: Acc := Acc(0, 0, 0, false, 0, 0)

  predicate IsExpLetter(c: char)
  {
    c == 'e' || c == 'E'
  }

  /** The float scanner over an unsigned literal
      `digits [. digits] [(e|E) [sign] digits]` with at least one mantissa
      digit and, when the exponent letter is present, at least one exponent
      digit. ScanInt reads the digits before the point. */
  function ScanInt(s: string, a: Acc): Option<Acc>
    decreases |s|, 3
  {
    if s == [] then (if a.digits > 0 then Some(a) else None)
    else if IsDigit(s[0]) then ScanInt(s[1..], a.(mant := 10 * a.mant + DigitValue(s[0]), digits := a.digits + 1))
    else if s[0] == '.' then ScanFrac(s[1..], a)
    else if IsExpLetter(s[0]) && a.digits > 0 then ScanExpSign(s[1..], a)
    else None
  }

  /** The digits after the point. */
  function ScanFrac(s: string, a: Acc): Option<Acc>
    decreases |s|, 2
  {
    if s == [] then (if a.digits > 0 then Some(a) else None)
    else if IsDigit(s[0]) then
      ScanFrac(s[1..], a.(mant := 10 * a.mant + DigitValue(s[0]), digits := a.digits + 1,
                          fracDigits := a.fracDigits + 1))
    else if IsExpLetter(s[0]) && a.digits > 0 then ScanExpSign(s[1..], a)
    else None
  }

  /** Just after the exponent letter: a sign or the first exponent digit. */
  function ScanExpSign(s: string, a: Acc): Option<Acc>
    decreases |s|, 1
  {
    if s == [] then None
    else if IsSign(s[0]) then ScanExp(s[1..], a.(expNeg := s[0] == '-'))
    else if IsDigit(s[0]) then ScanExp(s[1..], a.(exp := DigitValue(s[0]), expDigits := 1))
    else None
  }

  /** The exponent's digits. */
  function ScanExp(s: string, a: Acc): Option<Acc>
    decreases |s|, 0
  {
    if s == [] then (if a.expDigits > 0 then Some(a) else None)
    else if IsDigit(s[0]) then ScanExp(s[1..], a.(exp := 10 * a.exp + DigitValue(s[0]), expDigits := a.expDigits + 1))
    else None
  }

  /** The exact value of what the scanner read. */
  function AccValue(a: Acc): real
  {
    (a.mant as real) / (Pow10(a.fracDigits) as real) * Scale(if a.expNeg then -(a.exp as int) else a.exp)
  }

  /** `float(s)` for a string without whitespace: an optional sign, then an
      unsigned literal as ScanInt reads it; anything else raises `ValueError`
      (None). */
  function ParseFloat(s: string): (r: Option<real>)
  {
    var (neg, body) := SplitSign(s);
    match ScanInt(body, Start)
    case None => None
    case Some(a) => Some(if neg then -AccValue(a) else AccValue(a))
  }

  /** Without a sign, `float(s)` is the value of the scanned literal. */
  lemma ParseFloatUnsigned(s: string, a: Acc)
    requires s != [] && !IsSign(s[0]) && ScanInt(s, Start) == Some(a)
    ensures ParseFloat(s) == Some(AccValue(a))
  {
  }

  /** A digit in front multiplies its value by 10 per following digit. */
  lemma {:induction false} DigitsValueCons(c: char, s: string)
    requires IsDigit(c) && AllDigits(s)
    ensures AllDigits([c] + s)
    ensures DigitsValue([c] + s) == DigitValue(c) * Pow10(|s|) + DigitsValue(s)
    decreases |s|
  {
    var t := [c] + s;
    assert t[1..] == s;
    AllDigitsCons(t);
    if s != [] {
      var init := s[..|s| - 1];
      var last := s[|s| - 1];
      assert t[..|t| - 1] == [c] + init;
      assert t[|t| - 1] == last;
      DigitsValueCons(c, init);
      LastDigitArithmetic(DigitValue(c), Pow10(|init|), DigitsValue(init), DigitValue(last));
    }
  }

  lemma LastDigitArithmetic(c: nat, p: nat, x: nat, l: nat)
    ensures 10 * (c * p + x) + l == c * (10 * p) + (10 * x + l)
  {
  }

  lemma {:induction false} DigitsValueAppend(s: string, c: char)
    requires AllDigits(s) && IsDigit(c)
    ensures AllDigits(s + [c])
    ensures DigitsValue(s + [c]) == 10 * DigitsValue(s) + DigitValue(c)
  {
    assert (s + [c])[..|s + [c]| - 1] == s;
  }

  /** Reading back the decimal rendering of `n` gives `n`. */
  lemma {:induction false} NatToStringRoundTrip(n: nat)
    ensures DigitsValue(NatToString(n)) == n
    decreases n
  {
    if n >= 10 {
      NatToStringRoundTrip(n / 10);
      DigitsValueAppend(NatToString(n / 10), DigitChar(n % 10));
    }
  }

  /** `int(str(i)) == i`. */
  lemma ParseIntRoundTrip(i: int)
    ensures ParseInt(IntToString(i)) == Some(i)
  {
    if i < 0 {
      NatToStringRoundTrip(-i);
      assert ("-" + NatToString(-i))[1..] == NatToString(-i);
    } else {
      NatToStringRoundTrip(i);
    }
  }

  /** `int` accepts exactly an optional sign followed by at least one digit. */
  lemma ParseIntAccepts(s: string)
    ensures ParseInt(s).Some? <==>
              (s != [] && AllDigits(s)) || (|s| >= 2 && IsSign(s[0]) && AllDigits(s[1..]))
  {
    if s != [] && IsSign(s[0]) {
      assert !IsDigit(s[0]);
    }
  }

  /** Scanning digits before the point appends them to the mantissa. */
  lemma {:induction false} ScanIntDigits(d: string, rest: string, a: Acc)
    requires AllDigits(d)
    ensures ScanInt(d + rest, a)
         == ScanInt(rest, a.(mant := a.mant * Pow10(|d|) + DigitsValue(d), digits := a.digits + |d|))
    decreases |d|
  {
    if d == [] {
      assert d + rest == rest;
      assert a.(mant := a.mant * 1 + 0, digits := a.digits + 0) == a;
    } else {
      var c := d[0];
      var tail := d[1..];
      AllDigitsCons(d);
      var a' := a.(mant := 10 * a.mant + DigitValue(c), digits := a.digits + 1);
      assert (d + rest)[0] == c && (d + rest)[1..] == tail + rest;
      assert ScanInt(d + rest, a) == ScanInt(tail + rest, a');
      ScanIntDigits(tail, rest, a');
      DigitsValueCons(c, tail);
      assert [c] + tail == d;
      ShiftArithmetic(a.mant, DigitValue(c), Pow10(|tail|), DigitsValue(tail));
    }
  }

  /** Scanning digits after the point appends them to the mantissa and
      counts them as fraction digits. */
  lemma {:induction false} ScanFracDigits(d: string, a: Acc)
    requires AllDigits(d)
    ensures ScanFrac(d, a)
         == ScanFrac([], a.(mant := a.mant * Pow10(|d|) + DigitsValue(d), digits := a.digits + |d|,
                            fracDigits := a.fracDigits + |d|))
    decreases |d|
  {
    if d == [] {
      assert a.(mant := a.mant * 1 + 0, digits := a.digits + 0, fracDigits := a.fracDigits + 0) == a;
    } else {
      var c := d[0];
      var tail := d[1..];
      AllDigitsCons(d);
      var a' := a.(mant := 10 * a.mant + DigitValue(c), digits := a.digits + 1, fracDigits := a.fracDigits + 1);
      assert ScanFrac(d, a) == ScanFrac(tail, a');
      ScanFracDigits(tail, a');
      DigitsValueCons(c, tail);
      assert [c] + tail == d;
      ShiftArithmetic(a.mant, DigitValue(c), Pow10(|tail|), DigitsValue(tail));
    }
  }

  /** How the log prints a fixed-point number: an optional minus sign, the
      integer digits, a point and the fraction digits. */
  function FixedText(neg: bool, ip: string, frac: string): string
  {
    (if neg then "-" else "") + (ip + ("." + frac))
  }

  /** The exact value of FixedText(neg, ip, frac): the digits with the point
      removed, divided by 10 once per fraction digit. */
  function FixedValue(neg: bool, ip: string, frac: string): real
    requires AllDigits(ip) && AllDigits(frac)
  {
    var digits := DigitsValue(ip) * Pow10(|frac|) + DigitsValue(frac);
    var v := digits as real / (Pow10(|frac|) as real);
    if neg then -v else v
  }

  lemma SplitSignOfFixed(neg: bool, ip: string, frac: string)
    requires ip != [] && AllDigits(ip)
    ensures SplitSign(FixedText(neg, ip, frac)) == (neg, ip + ("." + frac))
  {
    var body := ip + ("." + frac);
    if neg {
      assert FixedText(neg, ip, frac) == "-" + body;
      assert ("-" + body)[1..] == body;
    } else {
      assert FixedText(neg, ip, frac) == body;
      assert body[0] == ip[0];
    }
  }

  /** Scanning the integer digits of `<ip>.<frac>` leaves the fraction to
      ScanFrac. */
  lemma {:induction false} ScanFixedInt(ip: string, pf: string)
    requires ip != [] && AllDigits(ip) && pf != [] && pf[0] == '.'
    ensures ScanInt(ip + pf, Start) == ScanFrac(pf[1..], Acc(DigitsValue(ip), |ip|, 0, false, 0, 0))
  {
    ScanIntDigits(ip, pf, Start);
    assert Start.(mant := Start.mant * Pow10(|ip|) + DigitsValue(ip), digits := Start.digits + |ip|)
        == Acc(DigitsValue(ip), |ip|, 0, false, 0, 0);
  }

  /** Scanning `<ip>.<frac>` reads the mantissa ip * 10^|frac| + frac with
      |frac| fraction digits and no exponent. */
  lemma {:induction false} ScanFixed(ip: string, frac: string)
    requires ip != [] && AllDigits(ip) && AllDigits(frac)
    ensures ScanInt(ip + ("." + frac), Start)
         == Some(Acc(DigitsValue(ip) * Pow10(|frac|) + DigitsValue(frac), |ip| + |frac|, |frac|, false, 0, 0))
  {
    var a1 := Acc(DigitsValue(ip), |ip|, 0, false, 0, 0);
    var pf := "." + frac;
    assert pf[1..] == frac;
    ScanFixedInt(ip, pf);
    ScanFracDigits(frac, a1);
    var a2 := a1.(mant := a1.mant * Pow10(|frac|) + DigitsValue(frac), digits := a1.digits + |frac|,
                  fracDigits := a1.fracDigits + |frac|);
    assert ScanFrac([], a2) == Some(a2);
    assert a2 == Acc(DigitsValue(ip) * Pow10(|frac|) + DigitsValue(frac), |ip| + |frac|, |frac|, false, 0, 0);
  }

  /** `float("<ip>.<frac>")` and `float("-<ip>.<frac>")`, the way the log
      prints energies, wavelengths, strengths and S**2 values. */
  lemma ParseFixedRoundTrip(neg: bool, ip: string, frac: string)
    requires ip != [] && AllDigits(ip) && AllDigits(frac)
    ensures ParseFloat(FixedText(neg, ip, frac)) == Some(FixedValue(neg, ip, frac))
  {
    SplitSignOfFixed(neg, ip, frac);
    ScanFixed(ip, frac);
    assert Scale(0) == 1.0;
  }
}

/**
 * Locale-tolerant numeric cells of the upload endpoint: every `,` of a
 * non-empty cell is turned into `.` and the result is read as a number; an
 * empty cell is `None`.
 *
 * Python's `float()` is modelled by a decimal grammar (optional sign, digits,
 * optional `.` and digits, at least one digit) whose value is an exact `real`.
 */
module Numbers {
  import opened Wrappers

  predicate IsDigit(c: char) { '0' <= c <= '9' }

  predicate AllDigits(s: string) { forall i | 0 <= i < |s| :: IsDigit(s[i]) }

  function DigitValue(c: char): (d: nat)
    requires IsDigit(c)
    ensures d < 10
  {
    (c as int - '0' as int) as nat
  }

  /** The natural number written by a string of decimal digits (most significant first). */
  function DigitsValue(s: string): nat
    requires AllDigits(s)
  {
    if s == [] then 0 else 10 * DigitsValue(s[..|s| - 1]) + DigitValue(s[|s| - 1])
  }

  /** The value of `0.<s>` for fractional digits s: the first digit tenths, the rest a tenth of their own value. */
  function FractionValue(s: string): (v: real)
    requires AllDigits(s)
    ensures 0.0 <= v < 1.0
  {
    if s == [] then 0.0 else (DigitValue(s[0]) as real + FractionValue(s[1..])) / 10.0
  }

  /** The first position of c in s, or |s| when c does not occur. */
  function IndexOf(s: string, c: char): (i: nat)
    ensures i <= |s|
    ensures i < |s| ==> s[i] == c
  {
    if s == [] then 0
    else if s[0] == c then 0
    else 1 + IndexOf(s[1..], c)
  }

  /** An unsigned decimal literal: `ddd`, `ddd.ddd`, `ddd.` or `.ddd`. */
  function ParseUnsigned(s: string): (r: Option<real>)
    ensures r.Some? ==> s != [] && r.value >= 0.0
  {
    var i := IndexOf(s, '.');
    var whole := s[..i];
    var frac := if i < |s| then s[i + 1..] else [];
    if AllDigits(whole) && AllDigits(frac) && |whole| + |frac| > 0 then
      Some(DigitsValue(whole) as real + FractionValue(frac))
    else
      None
  }

  /** The number written by s, or None when s is not a decimal literal. */
  function ParseDecimal(s: string): (r: Option<real>)
    ensures r.Some? ==> s != []
    ensures r.Some? && r.value < 0.0 ==> s[0] == '-'
  {
    if |s| > 0 && (s[0] == '+' || s[0] == '-') then
      match ParseUnsigned(s[1..])
      case Some(v) => Some(if s[0] == '-' then -v else v)
      case None => None
    else
      ParseUnsigned(s)
  }

  /** `s.replace(",", ".")`: every comma becomes a period, nothing else changes. */
  function ReplaceCommas(s: string): (t: string)
    ensures |t| == |s|
  {
    if s == [] then [] else [if s[0] == ',' then '.' else s[0]] + ReplaceCommas(s[1..])
  }

  /** Position by position, the normalised text is the cell with each comma read as a period. */
  lemma {:induction false} ReplaceCommasAt(s: string, i: nat)
    requires i < |s|
    ensures ReplaceCommas(s)[i] == if s[i] == ',' then '.' else s[i]
  {
    if i > 0 {
      ReplaceCommasAt(s[1..], i - 1);
    }
  }

  /**
   * The conversion applied to each optional numeric cell:
   * `float(x.replace(",", ".")) if x != "" else None`.
   * Err(()) stands for the exception `float()` raises.
   */
  function ConvertCell(cell: string): (r: Result<Option<real>, ()>)
    ensures cell == "" <==> r == Ok(None)
  {
    if cell == "" then Ok(None)
    else match ParseDecimal(ReplaceCommas(cell))
      case Some(v) => Ok(Some(v))
      case None => Err(())
  }

  // ---------------------------------------------------------------------------
  // Properties of the comma normalisation

  /** The normalised text never contains a comma. */
  lemma NoCommaAfterReplace(s: string)
    ensures ',' !in ReplaceCommas(s)
  {
    var t := ReplaceCommas(s);
    forall i | 0 <= i < |t| ensures t[i] != ',' {
      ReplaceCommasAt(s, i);
    }
  }

  /** Normalising twice is normalising once. */
  lemma {:induction false} ReplaceCommasIdempotent(s: string)
    ensures ReplaceCommas(ReplaceCommas(s)) == ReplaceCommas(s)
  {
    var t := ReplaceCommas(s);
    var u := ReplaceCommas(t);
    assert |u| == |t|;
    forall i | 0 <= i < |t| ensures u[i] == t[i] {
      ReplaceCommasAt(s, i);
      ReplaceCommasAt(t, i);
    }
  }

  /** Two cells agree up to the decimal separator: equal except where one has `,` and the other `.`. */
  predicate SameUpToSeparator(a: string, b: string)
  {
    |a| == |b| &&
    forall i | 0 <= i < |a| :: a[i] == b[i] || (a[i] in {',', '.'} && b[i] in {',', '.'})
  }

  /**
   * Cells that differ only in the choice of decimal separator convert to the
   * same value: `"12,5"` and `"12.5"` are the same measurement.
   */
  lemma CommaAndPeriodAgree(a: string, b: string)
    requires SameUpToSeparator(a, b)
    ensures ConvertCell(a) == ConvertCell(b)
  {
    var ta, tb := ReplaceCommas(a), ReplaceCommas(b);
    forall i | 0 <= i < |a| ensures ta[i] == tb[i] {
      ReplaceCommasAt(a, i);
      ReplaceCommasAt(b, i);
    }
    assert ta == tb;
  }

  // ---------------------------------------------------------------------------
  // What the decimal grammar accepts, and at which value

  lemma {:induction false} IndexOfAbsent(s: string, c: char)
    requires c !in s
    ensures IndexOf(s, c) == |s|
  {
    if s != [] {
      IndexOfAbsent(s[1..], c);
    }
  }

  lemma {:induction false} IndexOfPrefix(a: string, b: string, c: char)
    requires c !in a
    ensures IndexOf(a + [c] + b, c) == |a|
  {
    if a != [] {
      assert (a + [c] + b)[1..] == a[1..] + [c] + b;
      IndexOfPrefix(a[1..], b, c);
    }
  }

  /** An unsigned literal is read as itself, and with a leading `-` as its negation. */
  lemma {:induction false} SignedForms(u: string, v: real)
    requires u != [] && u[0] != '+' && u[0] != '-'
    requires ParseUnsigned(u) == Some(v)
    ensures ParseDecimal(u) == Some(v)
    ensures ParseDecimal("-" + u) == Some(-v)
  {
    assert ("-" + u)[1..] == u;
  }

  /** A plain digit string is read as the integer it writes. */
  lemma {:induction false} IntegerLiteral(w: string)
    requires w != [] && AllDigits(w)
    ensures ParseDecimal(w) == Some(DigitsValue(w) as real)
    ensures ParseDecimal("-" + w) == Some(-(DigitsValue(w) as real))
  {
    IndexOfAbsent(w, '.');
    assert w[..|w|] == w;
    assert FractionValue([]) == 0.0;
    assert ParseUnsigned(w) == Some(DigitsValue(w) as real);
    assert IsDigit(w[0]);
    SignedForms(w, DigitsValue(w) as real);
  }

  lemma {:induction false} UnsignedFraction(w: string, f: string)
    requires AllDigits(w) && AllDigits(f) && |w| + |f| > 0
    ensures ParseUnsigned(w + "." + f) == Some(DigitsValue(w) as real + FractionValue(f))
  {
    IndexOfAbsent(w, '.');
    IndexOfPrefix(w, f, '.');
    var s := w + "." + f;
    assert s[..|w|] == w;
    assert s[|w| + 1..] == f;
  }

  /** `w.f` is read as w plus the fraction f, with or without digits on either side of the point. */
  lemma {:induction false} FractionLiteral(w: string, f: string)
    requires AllDigits(w) && AllDigits(f) && |w| + |f| > 0
    ensures ParseDecimal(w + "." + f) == Some(DigitsValue(w) as real + FractionValue(f))
    ensures ParseDecimal("-" + (w + "." + f)) == Some(-(DigitsValue(w) as real + FractionValue(f)))
  {
    var s := w + "." + f;
    var v := DigitsValue(w) as real + FractionValue(f);
    UnsignedFraction(w, f);
    assert s[0] != '+' && s[0] != '-' by {
      if w != [] {
        assert s[0] == w[0] && IsDigit(w[0]);
      } else {
        assert s[0] == '.';
      }
    }
    SignedForms(s, v);
  }

  /** A cell with a character that is neither a digit, a sign nor a separator is rejected. */
  /**
   * u is the unsigned literal with whole digits w and fraction digits f:
   * either `w.f` (either side may be empty, not both) or the bare digits w.
   */
  predicate IsUnsignedLiteral(u: string, w: string, f: string)
  {
    AllDigits(w) && AllDigits(f) && |w| + |f| > 0 &&
    (u == w + "." + f || (u == w && f == []))
  }

  /**
   * Every text ParseUnsigned accepts is an unsigned literal, read at the value
   * of its whole and fraction digits.
   */
  lemma UnsignedSound(u: string) returns (w: string, f: string)
    requires ParseUnsigned(u).Some?
    ensures IsUnsignedLiteral(u, w, f)
    ensures ParseUnsigned(u).value == DigitsValue(w) as real + FractionValue(f)
  {
    var i := IndexOf(u, '.');
    w := u[..i];
    f := if i < |u| then u[i + 1..] else [];
    if i < |u| {
      assert u == w + "." + f;
    } else {
      assert u == w;
    }
  }

  /**
   * Every text ParseDecimal accepts is an optional sign followed by an
   * unsigned literal, read at that literal's value, negated after a `-`.
   * So `1.2.3`, `1-2`, `+-1` and `.` are all rejected.
   */
  lemma DecimalSound(s: string) returns (sign: string, w: string, f: string)
    requires ParseDecimal(s).Some?
    ensures sign == "" || sign == "+" || sign == "-"
    ensures |sign| <= |s| && s == sign + s[|sign|..]
    ensures IsUnsignedLiteral(s[|sign|..], w, f)
    ensures ParseDecimal(s).value ==
      if sign == "-" then -(DigitsValue(w) as real + FractionValue(f))
      else DigitsValue(w) as real + FractionValue(f)
  {
    if |s| > 0 && (s[0] == '+' || s[0] == '-') {
      sign := [s[0]];
      assert s == sign + s[1..];
      w, f := UnsignedSound(s[1..]);
    } else {
      sign := "";
      assert s[0..] == s;
      w, f := UnsignedSound(s);
    }
  }

  lemma {:induction false} ForeignCharacterRejected(cell: string, k: nat)
    requires k < |cell|
    requires !IsDigit(cell[k]) && cell[k] !in {'+', '-', '.', ','}
    ensures ConvertCell(cell) == Err(())
  {
    var s := ReplaceCommas(cell);
    ReplaceCommasAt(cell, k);
    var u := if |s| > 0 && (s[0] == '+' || s[0] == '-') then s[1..] else s;
    var j := if u == s then k else k - 1;
    assert u[j] == s[k];
    var i := IndexOf(u, '.');
    if j < i {
      assert u[..i][j] == u[j];
    } else {
      assert j != i;
      assert u[i + 1..][j - i - 1] == u[j];
    }
  }

  lemma DigitsValueSmall()
    ensures DigitsValue("1") == 1 && DigitsValue("5") == 5 && DigitsValue("12") == 12
    ensures DigitsValue("000") == 0
  {
    assert "1"[..0] == "" && "5"[..0] == "" && "12"[..1] == "1";
    assert "000"[..2] == "00" && "00"[..1] == "0" && "0"[..0] == "";
  }

  lemma TwelveAndAHalf()
    ensures ParseDecimal("12.5") == Some(12.5)
  {
    DigitsValueSmall();
    FractionLiteral("12", "5");
    assert FractionValue("5") == 0.5 by {
      assert "5"[1..] == [];
    }
    assert "12" + "." + "5" == "12.5";
  }

  /** A decimal comma: `"12,5"` is 12.5, as `"12.5"` is. */
  lemma DecimalCommaExample()
    ensures ConvertCell("12,5") == Ok(Some(12.5))
    ensures ConvertCell("12.5") == Ok(Some(12.5))
  {
    var t := ReplaceCommas("12,5");
    assert t == "12.5" by {
      ReplaceCommasAt("12,5", 0); ReplaceCommasAt("12,5", 1);
      ReplaceCommasAt("12,5", 2); ReplaceCommasAt("12,5", 3);
      assert t[0] == '1' && t[1] == '2' && t[2] == '.' && t[3] == '5';
    }
    var u := ReplaceCommas("12.5");
    assert u == "12.5" by {
      ReplaceCommasAt("12.5", 0); ReplaceCommasAt("12.5", 1);
      ReplaceCommasAt("12.5", 2); ReplaceCommasAt("12.5", 3);
      assert u[0] == '1' && u[1] == '2' && u[2] == '.' && u[3] == '5';
    }
    TwelveAndAHalf();
  }

  lemma ZerosFraction()
    ensures FractionValue("000") == 0.0
  {
    assert FractionValue("0") == 0.0 by { assert "0"[1..] == []; }
    assert FractionValue("00") == 0.0 by { assert "00"[1..] == "0"; }
    assert "000"[1..] == "00";
  }

  lemma OnePointZero()
    ensures ParseDecimal("1.000") == Some(1.0)
  {
    var s := "1" + "." + "000";
    assert ParseDecimal(s) == Some(1.0) by {
      assert DigitsValue("1") == 1 by { assert "1"[..0] == []; }
      ZerosFraction();
      FractionLiteral("1", "000");
    }
    assert s == "1.000";
  }

  /** A comma used as a thousands separator is read as a decimal point: `"1,000"` is 1.0. */
  lemma ThousandsSeparatorExample()
    ensures ConvertCell("1,000") == Ok(Some(1.0))
  {
    var t := ReplaceCommas("1,000");
    assert t == "1.000" by {
      ReplaceCommasAt("1,000", 0); ReplaceCommasAt("1,000", 1); ReplaceCommasAt("1,000", 2);
      ReplaceCommasAt("1,000", 3); ReplaceCommasAt("1,000", 4);
      assert t[0] == '1' && t[1] == '.' && t[2] == '0' && t[3] == '0' && t[4] == '0';
    }
    OnePointZero();
  }
}

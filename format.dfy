/**
 * Python's `'{0:0Nd}'.format(n)` for an integer `n`: its decimal digits,
 * padded with zeros on the left up to `N` characters, a minus sign (when
 * there is one) counting towards the width and going before the zeros.
 */
module Format {

  predicate IsDigit(c: char) {
    '0' <= c <= '9'
  }

  predicate AllDigits(s: string) {
    forall i :: 0 <= i < |s| ==> IsDigit(s[i])
  }

  function DigitChar(d: nat): (c: char)
    requires d < 10
    ensures IsDigit(c) && c as int - '0' as int == d
  {
    ('0' as int + d) as char
  }

  function DigitValue(c: char): nat
    requires IsDigit(c)
  {
    c as int - '0' as int
  }

  /** The number a string of decimal digits stands for, leading zeros allowed. */
  function Value(s: string): nat
    requires AllDigits(s)
  {
    if s == [] then 0 else 10 * Value(s[..|s| - 1]) + DigitValue(s[|s| - 1])
  }

  function Pow10(k: nat): (p: nat)
    ensures p >= 1
  {
    if k == 0 then 1 else 10 * Pow10(k - 1)
  }

  /** Appending one digit on the right multiplies by ten and adds it. */
  lemma ValueSnoc(s: string, d: nat)
    requires AllDigits(s) && d < 10
    ensures AllDigits(s + [DigitChar(d)]) && Value(s + [DigitChar(d)]) == 10 * Value(s) + d
  {
    var t := s + [DigitChar(d)];
    assert t[..|t| - 1] == s;
  }

  /**
   * `str(n)` for a non-negative `n`: at least one digit, no leading zero
   * unless the number is zero, and it reads back as `n`.
   */
  function Decimal(n: nat): (s: string)
    ensures |s| >= 1 && AllDigits(s) && Value(s) == n
    ensures |s| > 1 ==> s[0] != '0'
    ensures |s| <= 1 + n
  {
    if n < 10 then [DigitChar(n)]
    else
      var s := Decimal(n / 10) + [DigitChar(n % 10)];
      ValueSnoc(Decimal(n / 10), n % 10);
      s
  }

  /** A number has at most `k` digits exactly when it is below ten to the `k`. */
  lemma {:induction false} DecimalWidth(n: nat, k: nat)
    requires k >= 1
    ensures |Decimal(n)| <= k <==> n < Pow10(k)
  {
    if n >= 10 {
      if k == 1 {
        assert |Decimal(n)| == |Decimal(n / 10)| + 1;
      } else {
        DecimalWidth(n / 10, k - 1);
      }
    }
  }

  /** Every canonical digit string is what `Decimal` prints for its value. */
  lemma {:induction false} DecimalOfValue(s: string)
    requires |s| >= 1 && AllDigits(s) && (|s| > 1 ==> s[0] != '0')
    ensures Decimal(Value(s)) == s
  {
    var init, d := s[..|s| - 1], DigitValue(s[|s| - 1]);
    if |s| > 1 {
      assert init[0] == s[0];
      DecimalOfValue(init);
      if |init| > 1 {
        assert init[0] != '0';
      }
      assert Value(init) >= 1 by {
        if Value(init) == 0 {
          ZeroValue(init);
          assert false;
        }
      }
      DivMod10(Value(s), Value(init), d);
      assert s == init + [s[|s| - 1]];
    }
  }

  lemma DivMod10(v: int, q: int, d: int)
    requires v == 10 * q + d && 0 <= d < 10
    ensures v / 10 == q && v % 10 == d
  {
  }

  /** A digit string that reads as zero is all zeros. */
  lemma {:induction false} ZeroValue(s: string)
    requires AllDigits(s) && Value(s) == 0
    ensures forall i :: 0 <= i < |s| ==> s[i] == '0'
  {
    if s != [] {
      ZeroValue(s[..|s| - 1]);
      assert forall i :: 0 <= i < |s| - 1 ==> s[i] == s[..|s| - 1][i];
    }
  }

  function Zeros(k: nat): (z: string)
    ensures |z| == k && forall i :: 0 <= i < k ==> z[i] == '0'
  {
    if k == 0 then [] else Zeros(k - 1) + ['0']
  }

  /** Zeros on the left do not change the value. */
  lemma {:induction false} ValueAfterZeros(k: nat, s: string)
    requires AllDigits(s)
    ensures AllDigits(Zeros(k) + s) && Value(Zeros(k) + s) == Value(s)
  {
    if s == [] {
      assert Zeros(k) + s == Zeros(k);
      ZerosValue(k);
    } else {
      var init := s[..|s| - 1];
      ValueAfterZeros(k, init);
      var t := Zeros(k) + s;
      assert t[..|t| - 1] == Zeros(k) + init;
    }
  }

  lemma {:induction false} ZerosValue(k: nat)
    ensures AllDigits(Zeros(k)) && Value(Zeros(k)) == 0
  {
    if k > 0 {
      ZerosValue(k - 1);
      assert Zeros(k)[..k - 1] == Zeros(k - 1);
    }
  }

  /** Zero-fills `s` on the left up to `width` characters; a longer `s` is kept whole. */
  function ZeroPad(s: string, width: nat): (r: string)
    ensures |r| == if |s| >= width then |s| else width
    ensures r == Zeros(|r| - |s|) + s
  {
    if |s| >= width then
      assert s == [] + s;
      s
    else Zeros(width - |s|) + s
  }

  /**
   * Python's `'{0:0Nd}'.format(n)` with `N` the given width: at least `N`
   * characters, the digits of a non-negative `n` reading back as `n`, and a
   * negative `n` as a minus sign followed by digits reading back as `-n`.
   */
  function FormatInt(n: int, width: nat): (r: string)
    ensures |r| >= width
    ensures n >= 0 ==> AllDigits(r) && Value(r) == n
    ensures n < 0 ==> |r| >= 2 && r[0] == '-' && AllDigits(r[1..]) && Value(r[1..]) == -n
  {
    if n >= 0 then
      var d := Decimal(n);
      ValueAfterZeros(|ZeroPad(d, width)| - |d|, d);
      ZeroPad(d, width)
    else
      var d := Decimal(-n);
      var p := ZeroPad(d, if width >= 1 then width - 1 else 0);
      ValueAfterZeros(|p| - |d|, d);
      assert ("-" + p)[1..] == p;
      "-" + p
  }

  /**
   * A non-negative number prints as exactly `width` digits whenever it has
   * no more than `width` of them, and those digits read back as the number.
   */
  lemma FormatFits(n: int, width: nat)
    requires width >= 1 && 0 <= n < Pow10(width)
    ensures |FormatInt(n, width)| == width
    ensures AllDigits(FormatInt(n, width)) && Value(FormatInt(n, width)) == n
  {
    DecimalWidth(n, width);
  }

  /** A number too wide for the field is printed whole, never cut. */
  lemma FormatOverflows(n: int, width: nat)
    requires width >= 1 && n >= Pow10(width)
    ensures FormatInt(n, width) == Decimal(n) && |FormatInt(n, width)| > width
  {
    DecimalWidth(n, width);
  }

  /** A negative number keeps its sign in front of the zeros, within the same width. */
  lemma FormatNegative(n: int, width: nat)
    requires width >= 2 && n < 0 && -n < Pow10(width - 1)
    ensures var r := FormatInt(n, width);
      |r| == width && r[0] == '-' && AllDigits(r[1..]) && Value(r[1..]) == -n
  {
    DecimalWidth(-n, width - 1);
    NegativeWidth(n, width);
  }

  lemma NegativeWidth(n: int, width: nat)
    requires width >= 1 && n < 0 && |Decimal(-n)| <= width - 1
    ensures |FormatInt(n, width)| == width
  {
  }

  lemma Regroup10(va: int, p: int, vi: int, d: int)
    ensures 10 * (va * p + vi) + d == va * (10 * p) + (10 * vi + d)
  {
  }

  /** A digit string read in two parts: the left part's value shifted by the right part's width. */
  lemma {:induction false} ValueConcat(a: string, b: string)
    requires AllDigits(a) && AllDigits(b)
    ensures AllDigits(a + b) && Value(a + b) == Value(a) * Pow10(|b|) + Value(b)
  {
    if b == [] {
      assert a + b == a;
    } else {
      var init, d := b[..|b| - 1], DigitValue(b[|b| - 1]);
      ValueConcat(a, init);
      var t := a + b;
      assert t[..|t| - 1] == a + init;
      assert t[|t| - 1] == b[|b| - 1];
      assert Value(b) == 10 * Value(init) + d;
      Regroup10(Value(a), Pow10(|init|), Value(init), d);
    }
  }
}

/**
 * Phone-number normalisation of the verification dashboard.
 *
 * The `Verified Phone Number` column is rendered as text, every non-digit is
 * deleted (the `\D` -> '' replacement), and then the anchored pattern
 * `^(?:0|254)?` is replaced by the Kenyan country code `254`.  The pattern
 * always matches at the start of the string, and its alternatives are tried
 * in order, so exactly one of three things happens: a leading trunk `0` is
 * swapped for `254`, a leading `254` is kept, or `254` is prepended.
 */
module Phone {

  /** Kenya's country calling code, the replacement text of the prefix rule. */
  const CountryCode: string := "254"

  /** An ASCII decimal digit: the characters that `\D` does not delete. */
  predicate IsDigit(c: char) {
    '0' <= c <= '9'
  }

  predicate AllDigits(s: string) {
    forall i :: 0 <= i < |s| ==> IsDigit(s[i])
  }

  /** The digits of `s`, in their original order (`str.replace(r'\D', '')`). */
  function StripNonDigits(s: string): (d: string)
    ensures AllDigits(d)
    ensures |d| <= |s|
  {
    if s == [] then []
    else if IsDigit(s[0]) then [s[0]] + StripNonDigits(s[1..])
    else StripNonDigits(s[1..])
  }

  /**
   * The replacement of `^(?:0|254)?` by `254` on a string of digits.  The
   * alternative `0` is tried before `254`, so "0254..." loses its `0` and
   * gains a second `254`.
   */
  function ApplyCountryCode(d: string): (r: string)
    ensures CountryCode <= r
    ensures AllDigits(d) ==> AllDigits(r)
  {
    if |d| >= 1 && d[0] == '0' then CountryCode + d[1..]
    else if CountryCode <= d then d
    else CountryCode + d
  }

  /** The normalised phone number: lines 22 and 23 in sequence. */
  function Normalize(s: string): (r: string)
    ensures AllDigits(r)
    ensures CountryCode <= r
  {
    ApplyCountryCode(StripNonDigits(s))
  }

  /** Deleting non-digits removes nothing exactly when there is nothing to remove. */
  lemma {:induction false} StripNonDigitsFixesDigits(s: string)
    ensures StripNonDigits(s) == s <==> AllDigits(s)
  {
    if s != [] {
      StripNonDigitsFixesDigits(s[1..]);
      if IsDigit(s[0]) {
        assert AllDigits(s) <==> AllDigits(s[1..]) by {
          if AllDigits(s[1..]) {
            forall i | 0 <= i < |s| ensures IsDigit(s[i]) {
              if i > 0 { assert s[i] == s[1..][i - 1]; }
            }
          }
          if AllDigits(s) {
            forall i | 0 <= i < |s[1..]| ensures IsDigit(s[1..][i]) {
              assert s[1..][i] == s[i + 1];
            }
          }
        }
      } else {
        assert |StripNonDigits(s)| < |s| by {
          assert |StripNonDigits(s[1..])| <= |s[1..]|;
        }
      }
    }
  }

  /** Digit deletion works piecewise: the digits of `a + b` are those of `a` then those of `b`. */
  lemma {:induction false} StripNonDigitsConcat(a: string, b: string)
    ensures StripNonDigits(a + b) == StripNonDigits(a) + StripNonDigits(b)
  {
    if a != [] {
      assert (a + b)[0] == a[0];
      assert (a + b)[1..] == a[1..] + b;
      StripNonDigitsConcat(a[1..], b);
    } else {
      assert a + b == b;
    }
  }

  /** Phone normalisation is idempotent. */
  lemma NormalizeIdempotent(s: string)
    ensures Normalize(Normalize(s)) == Normalize(s)
  {
    var r := Normalize(s);
    StripNonDigitsFixesDigits(r);
    assert r[0] == '2';
  }

  /** A single character contributes nothing to the digits exactly when it is not a digit. */
  lemma StripNonDigitsChar(c: char)
    ensures StripNonDigits([c]) == [] <==> !IsDigit(c)
  {
    assert [c][1..] == [];
  }

  /**
   * Inserting a separator or any other non-digit anywhere in a phone number
   * leaves its normal form unchanged.
   */
  lemma NormalizeIgnoresNonDigit(a: string, c: char, b: string)
    requires !IsDigit(c)
    ensures Normalize(a + [c] + b) == Normalize(a + b)
  {
    StripNonDigitsChar(c);
    StripNonDigitsConcat(a + [c], b);
    StripNonDigitsConcat(a, [c]);
    StripNonDigitsConcat(a, b);
  }

  /**
   * The three forms in which a subscriber number is entered (with the trunk
   * `0`, bare, or with the country code) all normalise to `254` followed by
   * the subscriber digits, provided the subscriber digits do not themselves
   * start with `0` or `254`.
   */
  lemma EquivalentForms(x: string)
    requires AllDigits(x)
    requires !(|x| >= 1 && x[0] == '0') && !(CountryCode <= x)
    ensures Normalize(x) == CountryCode + x
    ensures Normalize("0" + x) == CountryCode + x
    ensures Normalize(CountryCode + x) == CountryCode + x
  {
    StripNonDigitsFixesDigits(x);
    assert AllDigits("0" + x) by {
      forall i | 0 <= i < |"0" + x| ensures IsDigit(("0" + x)[i]) {
        if i > 0 { assert ("0" + x)[i] == x[i - 1]; }
      }
    }
    StripNonDigitsFixesDigits("0" + x);
    assert ("0" + x)[1..] == x;
    assert AllDigits(CountryCode + x) by {
      forall i | 0 <= i < |CountryCode + x| ensures IsDigit((CountryCode + x)[i]) {
        if i >= 3 { assert (CountryCode + x)[i] == x[i - 3]; }
      }
    }
    StripNonDigitsFixesDigits(CountryCode + x);
  }

  /**
   * What the prefix rule keeps, in terms of the digits `d` of the input: the
   * digits come back unchanged exactly when they already carry the country
   * code, and everything after the first digit always survives at the end.
   */
  lemma NormalizeRewritesOnlyPrefix(s: string)
    ensures var d, r := StripNonDigits(s), Normalize(s);
      && (r == d <==> CountryCode <= d)
      && (|d| >= 1 ==> |r| >= |d| - 1 && r[|r| - (|d| - 1)..] == d[1..])
  {

  }

  /**
   * A phone whose digits are blank, a lone trunk `0`, or just the country
   * code normalises to the bare country code `254`, and no other phone does;
   * in particular a missing or blank phone becomes `254`.
   */
  lemma NormalizeToCountryCode(s: string)
    ensures var d := StripNonDigits(s);
      Normalize(s) == CountryCode <==> d == [] || d == "0" || d == CountryCode
  {

  }

  /**
   * The renderings of one Kenyan mobile number with the trunk prefix, bare,
   * and with the country code collapse to a single key.  The strings are
   * parameters fixed by the precondition so that the verifier reasons about
   * them through the lemmas above rather than by unfolding.
   */
  lemma NormalizeExamples(trunk: string, bare: string, intl: string)
    requires trunk == "0712345678" && bare == "712345678" && intl == "254712345678"
    ensures Normalize(trunk) == "254712345678"
    ensures Normalize(bare) == "254712345678"
    ensures Normalize(intl) == "254712345678"
  {
    assert AllDigits(bare) by {
      forall i | 0 <= i < |bare| ensures IsDigit(bare[i]) { }
    }
    EquivalentForms(bare);
    assert trunk == "0" + bare;
    assert intl == CountryCode + bare;
  }

  /** The same number written with `+`, a space and dashes collapses to the same key. */
  lemma FormattedExample(formatted: string, bare: string)
    requires formatted == "+254 712-345-678" && bare == "712345678"
    ensures Normalize(formatted) == "254712345678"
  {
    assert AllDigits(bare) by {
      forall i | 0 <= i < |bare| ensures IsDigit(bare[i]) { }
    }
    assert bare[..3] == "712" && bare[3..6] == "345" && bare[6..] == "678";
    assert formatted == "+254 " + bare[..3] + "-" + bare[3..6] + "-" + bare[6..];
    FormattedForm(bare);
    assert CountryCode + bare == "254712345678";
  }

  /** A run of digits followed by one separator keeps the digits and drops the separator. */
  lemma {:induction false} StripDigitsThenSeparator(digits: string, sep: char, rest: string)
    requires AllDigits(digits) && !IsDigit(sep)
    ensures StripNonDigits(digits + [sep] + rest) == digits + StripNonDigits(rest)
  {
    StripNonDigitsFixesDigits(digits);
    StripNonDigitsConcat(digits, [sep] + rest);
    assert digits + [sep] + rest == digits + ([sep] + rest);
    assert ([sep] + rest)[1..] == rest;
  }

  /**
   * The international rendering `+254 xxx-xxx-xxx` of a nine-digit subscriber
   * number `x` normalises to `254` followed by `x`.
   */
  lemma FormattedForm(x: string)
    requires |x| == 9 && AllDigits(x)
    ensures Normalize("+254 " + x[..3] + "-" + x[3..6] + "-" + x[6..]) == CountryCode + x
  {
    var s := "+254 " + x[..3] + "-" + x[3..6] + "-" + x[6..];
    var a, b, c := x[..3], x[3..6], x[6..];
    assert AllDigits(a) && AllDigits(b) && AllDigits(c) by {
      forall i | 0 <= i < 3 ensures IsDigit(a[i]) && IsDigit(b[i]) && IsDigit(c[i]) {
        assert a[i] == x[i] && b[i] == x[3 + i] && c[i] == x[6 + i];
      }
    }
    assert AllDigits(CountryCode) by {
      forall i | 0 <= i < |CountryCode| ensures IsDigit(CountryCode[i]) { }
    }
    StripNonDigitsFixesDigits(c);
    assert s == [s[0]] + s[1..] && !IsDigit(s[0]);
    assert s[1..] == CountryCode + [' '] + (a + ['-'] + (b + ['-'] + c));
    StripDigitsThenSeparator(CountryCode, ' ', a + ['-'] + (b + ['-'] + c));
    StripDigitsThenSeparator(a, '-', b + ['-'] + c);
    StripDigitsThenSeparator(b, '-', c);
    assert StripNonDigits(s) == CountryCode + (a + (b + c));
    assert a + (b + c) == x;
  }
}

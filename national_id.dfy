/**
 * National-ID normalisation of the verification dashboard: the
 * `Verified ID Number` column is rendered as text, surrounding whitespace is
 * stripped and the result is upper-cased (`str.strip().str.upper()`).
 *
 * Characters are classified as Python classifies the ASCII range: the
 * whitespace that `str.strip()` removes is tab, line feed, vertical tab, form
 * feed, carriage return, the four information separators and space; the
 * letters that `str.upper()` changes are `a` to `z`.
 */
module NationalId {

  predicate IsSpace(c: char) {
    c == ' ' || '\t' <= c <= '\r' || '\U{1C}' <= c <= '\U{1F}'
  }

  predicate IsLower(c: char) {
    'a' <= c <= 'z'
  }

  predicate AllSpace(s: string) {
    forall i :: 0 <= i < |s| ==> IsSpace(s[i])
  }

  /** Neither end of `s` is whitespace: what `str.strip()` guarantees. */
  predicate Trimmed(s: string) {
    s == [] || (!IsSpace(s[0]) && !IsSpace(s[|s| - 1]))
  }

  predicate NoLower(s: string) {
    forall i :: 0 <= i < |s| ==> !IsLower(s[i])
  }

  /** The capital of an ASCII lower-case letter; every other character is kept. */
  function UpperChar(c: char): (u: char)
    ensures !IsLower(u)
    ensures IsLower(c) ==> u as int == c as int - 32
    ensures !IsLower(c) ==> u == c
  {
    if IsLower(c) then (c as int - 32) as char else c
  }

  /** `str.lstrip()`: the longest suffix of `s` that does not start with whitespace. */
  function TrimStart(s: string): (r: string)
    ensures |r| <= |s| && r == s[|s| - |r|..]
    ensures AllSpace(s[..|s| - |r|])
    ensures r == [] || !IsSpace(r[0])
  {
    if s != [] && IsSpace(s[0]) then
      var r := TrimStart(s[1..]);
      var p, q := s[..|s| - |r|], s[1..][..|s| - 1 - |r|];
      assert AllSpace(p) by {
        forall i | 0 <= i < |p| ensures IsSpace(p[i]) {
          if i > 0 { assert p[i] == q[i - 1]; }
        }
      }
      assert s[1..][|s| - 1 - |r|..] == s[|s| - |r|..];
      r
    else s
  }

  /** `str.rstrip()`: the longest prefix of `s` that does not end with whitespace. */
  function TrimEnd(s: string): (r: string)
    ensures |r| <= |s| && r == s[..|r|]
    ensures AllSpace(s[|r|..])
    ensures r == [] || !IsSpace(r[|r| - 1])
  {
    if s != [] && IsSpace(s[|s| - 1]) then
      var r := TrimEnd(s[..|s| - 1]);
      var p, q := s[|r|..], s[..|s| - 1][|r|..];
      assert AllSpace(p) by {
        forall i | 0 <= i < |p| ensures IsSpace(p[i]) {
          if i < |q| { assert p[i] == q[i]; }
        }
      }
      assert s[..|s| - 1][..|r|] == s[..|r|];
      r
    else s
  }

  function Strip(s: string): (r: string)
    ensures Trimmed(r)
  {
    TrimEnd(TrimStart(s))
  }

  /** `str.upper()` on ASCII: every lower-case letter replaced by its capital. */
  function Upper(s: string): (r: string)
    ensures |r| == |s| && NoLower(r)
    ensures forall i :: 0 <= i < |s| ==> r[i] == UpperChar(s[i])
  {
    seq(|s|, i requires 0 <= i < |s| => UpperChar(s[i]))
  }

  /** The normalised ID: line 24. */
  function Normalize(s: string): (r: string)
    ensures Trimmed(r) && NoLower(r)
  {
    var t := Strip(s);
    UpperPreservesTrimmed(t);
    Upper(t)
  }

  /** Upper-casing never turns a space into a non-space or back. */
  lemma UpperPreservesTrimmed(s: string)
    requires Trimmed(s)
    ensures Trimmed(Upper(s))
  {
  }

  /** A string that has no surrounding whitespace is left alone by strip. */
  lemma StripFixesTrimmed(s: string)
    requires Trimmed(s)
    ensures Strip(s) == s
  {
  }

  /** Upper-casing is idempotent. */
  lemma UpperIdempotent(s: string)
    requires NoLower(s)
    ensures Upper(s) == s
  {
  }

  /** ID normalisation is idempotent. */
  lemma {:induction false} NormalizeIdempotent(s: string)
    ensures Normalize(Normalize(s)) == Normalize(s)
  {
    var r := Normalize(s);
    StripFixesTrimmed(r);
    UpperIdempotent(r);
  }

  /** Leading whitespace is exactly what `TrimStart` removes. */
  lemma {:induction false} TrimStartPadding(lead: string, rest: string)
    requires AllSpace(lead)
    requires rest == [] || !IsSpace(rest[0])
    ensures TrimStart(lead + rest) == rest
  {
    if lead != [] {
      assert (lead + rest)[1..] == lead[1..] + rest;
      TrimStartPadding(lead[1..], rest);
    } else {
      assert lead + rest == rest;
    }
  }

  /** Trailing whitespace is exactly what `TrimEnd` removes. */
  lemma {:induction false} TrimEndPadding(rest: string, trail: string)
    requires AllSpace(trail)
    requires rest == [] || !IsSpace(rest[|rest| - 1])
    ensures TrimEnd(rest + trail) == rest
  {
    if trail != [] {
      var n := |trail|;
      assert (rest + trail)[..|rest| + n - 1] == rest + trail[..n - 1];
      TrimEndPadding(rest, trail[..n - 1]);
    } else {
      assert rest + trail == rest;
    }
  }

  /**
   * Strip recovers the core of a padded value: surrounding whitespace, however
   * much, is removed and nothing else is.
   */
  lemma StripPadding(lead: string, core: string, trail: string)
    requires AllSpace(lead) && AllSpace(trail) && Trimmed(core)
    ensures Strip(lead + core + trail) == core
  {
    if core == [] {
      assert lead + core + trail == lead + trail;
      assert AllSpace(lead + trail) by {
        forall i | 0 <= i < |lead + trail| ensures IsSpace((lead + trail)[i]) {
          if i >= |lead| { assert (lead + trail)[i] == trail[i - |lead|]; }
        }
      }
      TrimStartAllSpace(lead + trail);
      assert TrimEnd([]) == [];
    } else {
      assert lead + core + trail == lead + (core + trail);
      TrimStartPadding(lead, core + trail);
      TrimEndPadding(core, trail);
    }
  }

  lemma TrimStartAllSpace(s: string)
    requires AllSpace(s)
    ensures TrimStart(s) == []
  {
  }

  /** Every value is its stripped core between two runs of whitespace. */
  lemma StripSplits(s: string) returns (front: string, back: string)
    ensures AllSpace(front) && AllSpace(back)
    ensures s == front + Strip(s) + back
  {
    var t := TrimStart(s);
    var m := |s| - |t|;
    front := s[..m];
    SplitAt(s, m);
    var r := TrimEnd(t);
    back := t[|r|..];
    SplitAt(t, |r|);
    Assoc(front, r, back);
  }

  lemma SplitAt(s: string, k: nat)
    requires k <= |s|
    ensures s == s[..k] + s[k..]
  {
  }

  lemma Assoc(a: string, b: string, c: string)
    ensures a + (b + c) == a + b + c
  {
  }

  lemma AllSpaceConcat(a: string, b: string)
    requires AllSpace(a) && AllSpace(b)
    ensures AllSpace(a + b)
  {
    forall i | 0 <= i < |a + b| ensures IsSpace((a + b)[i]) {
      if i >= |a| { assert (a + b)[i] == b[i - |a|]; }
    }
  }

  lemma UpperConcat(a: string, b: string)
    ensures Upper(a + b) == Upper(a) + Upper(b)
  {
  }

  lemma UpperPreservesSpace(s: string)
    requires AllSpace(s)
    ensures AllSpace(Upper(s))
  {
  }

  /** Padding the ID with whitespace does not change its normal form. */
  lemma NormalizeIgnoresPadding(lead: string, s: string, trail: string)
    requires AllSpace(lead) && AllSpace(trail)
    ensures Normalize(lead + s + trail) == Normalize(s)
  {
    var core := Strip(s);
    var front, back := StripSplits(s);
    AllSpaceConcat(lead, front);
    AllSpaceConcat(back, trail);
    calc {
      lead + s + trail;
      lead + (front + core + back) + trail;
      { Assoc(lead, front + core, back); Assoc(lead, front, core); }
      (lead + front) + core + back + trail;
      { Assoc((lead + front) + core, back, trail); }
      (lead + front) + core + (back + trail);
    }
    StripPadding(lead + front, core, back + trail);
  }

  /** Stripping and upper-casing commute. */
  lemma StripUpperCommute(s: string)
    ensures Strip(Upper(s)) == Upper(Strip(s))
  {
    var core := Strip(s);
    var front, back := StripSplits(s);
    UpperConcat(front + core, back);
    UpperConcat(front, core);
    UpperPreservesTrimmed(core);
    UpperPreservesSpace(front);
    UpperPreservesSpace(back);
    StripPadding(Upper(front), Upper(core), Upper(back));
  }

  /** Values that differ only in the case of their letters normalise equal. */
  lemma NormalizeIgnoresCase(a: string, b: string)
    requires Upper(a) == Upper(b)
    ensures Normalize(a) == Normalize(b)
  {
    StripUpperCommute(a);
    StripUpperCommute(b);
  }
}

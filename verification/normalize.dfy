/** Canonical form of a UID for comparison: `trim().uppercase()`, with
    ASCII whitespace and ASCII case folding. */
module Normalize {
  import HexUid

  /** The ASCII characters Kotlin's `Char.isWhitespace` accepts: space,
      TAB..CR (9..13) and the separators FS..US (28..31). */
  predicate IsSpace(c: char) {
    c == ' ' || 9 <= c as int <= 13 || 28 <= c as int <= 31
  }

  predicate IsLower(c: char) {
    'a' <= c <= 'z'
  }

  predicate AllSpace(s: string) {
    forall i :: 0 <= i < |s| ==> IsSpace(s[i])
  }

  /** Neither end of `s` is whitespace. */
  predicate IsTrimmed(s: string) {
    |s| > 0 ==> !IsSpace(s[0]) && !IsSpace(s[|s| - 1])
  }

  predicate NoLower(s: string) {
    forall i :: 0 <= i < |s| ==> !IsLower(s[i])
  }

  /** The form `trim().uppercase()` produces and every comparison uses. */
  predicate IsCanonical(s: string) {
    IsTrimmed(s) && NoLower(s)
  }

  function TrimStart(s: string): (r: string)
    ensures |r| <= |s|
  {
    if |s| > 0 && IsSpace(s[0]) then TrimStart(s[1..]) else s
  }

  /** Dropping leading whitespace leaves the suffix of `s` that starts at its
      first non-whitespace character: all that is removed is whitespace. */
  lemma {:induction false} TrimStartSpec(s: string)
    ensures TrimStart(s) == s[|s| - |TrimStart(s)|..]
    ensures AllSpace(s[..|s| - |TrimStart(s)|])
    ensures |TrimStart(s)| > 0 ==> !IsSpace(TrimStart(s)[0])
  {
    if |s| > 0 && IsSpace(s[0]) {
      TrimStartSpec(s[1..]);
      var k := |s| - |TrimStart(s)|;
      assert s[1..][..k - 1] == s[1..k];
    }
  }

  function TrimEnd(s: string): (r: string)
    ensures |r| <= |s|
  {
    if |s| > 0 && IsSpace(s[|s| - 1]) then TrimEnd(s[..|s| - 1]) else s
  }

  /** Dropping trailing whitespace leaves the prefix of `s` that ends at its
      last non-whitespace character: all that is removed is whitespace. */
  lemma {:induction false} TrimEndSpec(s: string)
    ensures TrimEnd(s) == s[..|TrimEnd(s)|]
    ensures AllSpace(s[|TrimEnd(s)|..])
    ensures |TrimEnd(s)| > 0 ==> !IsSpace(TrimEnd(s)[|TrimEnd(s)| - 1])
  {
    if |s| > 0 && IsSpace(s[|s| - 1]) {
      var t := s[..|s| - 1];
      TrimEndSpec(t);
      var k := |TrimEnd(s)|;
      assert s[k..] == t[k..] + [s[|s| - 1]];
    }
  }

  /** `r` is the slice of `s` starting at `i`, and what lies before and
      after it is whitespace only. */
  predicate SliceBetweenSpace(s: string, r: string, i: int) {
    0 <= i <= |s| - |r| && r == s[i..i + |r|] && AllSpace(s[..i]) && AllSpace(s[i + |r|..])
  }

  /** Removes whitespace from both ends. */
  function Trim(s: string): (r: string)
    ensures |r| <= |s|
  {
    TrimEnd(TrimStart(s))
  }

  /** `trim()` removes whitespace from both ends and nothing else: the
      result has no whitespace at either end and is a contiguous slice of
      `s` with only whitespace around it. */
  lemma TrimSpec(s: string)
    ensures IsTrimmed(Trim(s))
    ensures exists i :: SliceBetweenSpace(s, Trim(s), i)
  {
    var t := TrimStart(s);
    var r := TrimEnd(t);
    TrimStartSpec(s);
    TrimEndSpec(t);
    var i := |s| - |t|;
    assert t == s[i..];
    assert r == t[..|r|] == s[i..i + |r|];
    assert s[i + |r|..] == t[|r|..];
    assert SliceBetweenSpace(s, r, i);
  }

  /** Upper-cases one character: a lower-case ASCII letter becomes its
      capital, every other character is kept. */
  function UpperChar(c: char): (u: char)
    ensures !IsLower(u)
    ensures IsLower(c) ==> u as int == c as int - ('a' as int - 'A' as int)
    ensures !IsLower(c) ==> u == c
    ensures IsSpace(u) <==> IsSpace(c)
  {
    if IsLower(c) then (c as int - 32) as char else c
  }

  /** Upper-casing, restricted to ASCII letters. */
  function Upper(s: string): (r: string)
    ensures |r| == |s|
  {
    seq(|s|, i requires 0 <= i < |s| => UpperChar(s[i]))
  }

  /** Upper-casing turns each lower-case letter into its capital, keeps
      every other character in place, leaves no lower-case letter, and maps
      whitespace to whitespace. */
  lemma UpperSpec(s: string)
    ensures NoLower(Upper(s))
    ensures forall i :: 0 <= i < |s| && IsLower(s[i]) ==>
              Upper(s)[i] as int == s[i] as int - ('a' as int - 'A' as int)
    ensures forall i :: 0 <= i < |s| && !IsLower(s[i]) ==> Upper(s)[i] == s[i]
    ensures forall i :: 0 <= i < |s| ==> (IsSpace(Upper(s)[i]) <==> IsSpace(s[i]))
  {
  }

  /** The comparison form of one entry: trimmed, then upper-cased. */
  function Normalize(s: string): (r: string)
    ensures |r| <= |s|
  {
    Upper(Trim(s))
  }

  /** Normalising yields a canonical string. */
  lemma NormalizeCanonical(s: string)
    ensures IsCanonical(Normalize(s))
  {
    var t := Trim(s);
    TrimSpec(s);
    UpperSpec(t);
  }

  /** A string already without whitespace ends is its own trim. */
  lemma TrimTrimmed(s: string)
    requires IsTrimmed(s)
    ensures Trim(s) == s
  {
    assert TrimStart(s) == s;
  }

  lemma {:induction false} TrimStartAllSpace(s: string)
    requires AllSpace(s)
    ensures TrimStart(s) == ""
  {
    if |s| > 0 {
      TrimStartAllSpace(s[1..]);
    }
  }

  /** A string of whitespace only trims to the empty string. */
  lemma TrimAllSpace(s: string)
    requires AllSpace(s)
    ensures Trim(s) == ""
  {
    TrimStartAllSpace(s);
  }

  /** The canonical strings are exactly the fixed points of normalisation. */
  lemma CanonicalIffFixed(s: string)
    ensures IsCanonical(s) <==> Normalize(s) == s
  {
    NormalizeCanonical(s);
    if IsCanonical(s) {
      TrimTrimmed(s);
      assert Upper(s) == s;
    }
  }

  /** Normalising twice is normalising once. */
  lemma NormalizeIdempotent(s: string)
    ensures Normalize(Normalize(s)) == Normalize(s)
  {
    NormalizeCanonical(s);
    CanonicalIffFixed(Normalize(s));
  }

  lemma UpperIdempotent(s: string)
    ensures Upper(Upper(s)) == Upper(s)
  {
  }

  /** Upper-casing commutes with dropping leading whitespace, because
      upper-casing maps whitespace to whitespace. */
  lemma {:induction false} TrimStartUpper(s: string)
    ensures TrimStart(Upper(s)) == Upper(TrimStart(s))
  {
    if |s| > 0 && IsSpace(s[0]) {
      assert Upper(s)[1..] == Upper(s[1..]);
      TrimStartUpper(s[1..]);
    }
  }

  /** Upper-casing commutes with dropping trailing whitespace. */
  lemma {:induction false} TrimEndUpper(s: string)
    ensures TrimEnd(Upper(s)) == Upper(TrimEnd(s))
  {
    if |s| > 0 && IsSpace(s[|s| - 1]) {
      assert Upper(s)[..|s| - 1] == Upper(s[..|s| - 1]);
      TrimEndUpper(s[..|s| - 1]);
    }
  }

  /** Upper-casing before normalising changes nothing: the comparison is
      insensitive to ASCII case. */
  lemma NormalizeIgnoresCase(s: string)
    ensures Normalize(Upper(s)) == Normalize(s)
  {
    var t := Trim(s);
    calc {
      Trim(Upper(s));
      TrimEnd(TrimStart(Upper(s)));
      { TrimStartUpper(s); }
      TrimEnd(Upper(TrimStart(s)));
      { TrimEndUpper(TrimStart(s)); }
      Upper(t);
    }
    UpperIdempotent(t);
  }

  /** Whitespace added at the start of a string does not survive dropping
      leading whitespace. */
  lemma {:induction false} TrimStartSpacePrefix(w: string, s: string)
    requires AllSpace(w)
    ensures TrimStart(w + s) == TrimStart(s)
  {
    if |w| > 0 {
      assert (w + s)[1..] == w[1..] + s;
      TrimStartSpacePrefix(w[1..], s);
    } else {
      assert w + s == s;
    }
  }

  /** Whitespace added at the end of a string does not survive dropping
      trailing whitespace. */
  lemma {:induction false} TrimEndSpaceSuffix(s: string, w: string)
    requires AllSpace(w)
    ensures TrimEnd(s + w) == TrimEnd(s)
  {
    if |w| > 0 {
      var w' := w[..|w| - 1];
      assert (s + w)[..|s + w| - 1] == s + w';
      TrimEndSpaceSuffix(s, w');
    } else {
      assert s + w == s;
    }
  }

  /** Dropping leading whitespace from `s + w`, with `w` whitespace, either
      keeps `w` whole (when `s` has a non-whitespace character) or reaches
      into `w` (when `s` is whitespace only). */
  lemma {:induction false} TrimStartSpaceSuffix(s: string, w: string)
    requires AllSpace(w)
    ensures TrimStart(s + w) == TrimStart(s) + w
         || (AllSpace(s) && TrimStart(s + w) == TrimStart(w))
  {
    if |s| > 0 && IsSpace(s[0]) {
      assert (s + w)[1..] == s[1..] + w;
      TrimStartSpaceSuffix(s[1..], w);
    } else if |s| == 0 {
      assert s + w == w;
    }
  }

  /** Whitespace around an entry is ignored: padding `s` on either side
      with whitespace does not change its normalised form. */
  lemma NormalizeIgnoresSpace(w1: string, s: string, w2: string)
    requires AllSpace(w1) && AllSpace(w2)
    ensures Normalize(w1 + s + w2) == Normalize(s)
  {
    assert w1 + s + w2 == w1 + (s + w2);
    TrimStartSpacePrefix(w1, s + w2);
    TrimStartSpaceSuffix(s, w2);
    if TrimStart(s + w2) == TrimStart(s) + w2 {
      TrimEndSpaceSuffix(TrimStart(s), w2);
    } else {
      TrimStartAllSpace(s);
      TrimStartAllSpace(w2);
    }
  }

  /** Every UID rendered from tag bytes is already canonical, so
      normalisation leaves it unchanged. */
  lemma UidIsCanonical(u: string)
    requires HexUid.IsUid(u)
    ensures Normalize(u) == u
  {
    assert NoLower(u);
    CanonicalIffFixed(u);
  }
}

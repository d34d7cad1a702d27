/**
 * The signature classifier of the MDT probe: decides whether a normalized
 * reply identifies an MDT controller. A reply matches when its upper-cased
 * text contains `MDT` or `THOR` or a model number `693`/`694` (the regular
 * expression `69[34]`), or when it contains a decimal number
 * (the regular expression `-?\d+\.\d+`).
 */
module Signature {

  predicate IsDigit(c: char) {
    '0' <= c <= '9'
  }

  /** `str.upper()` on one ASCII character: lower-case letters become
      upper-case, everything else is unchanged. */
  function UpperChar(c: char): (u: char)
    ensures 'a' <= c <= 'z' ==> u as int == c as int - 32
    ensures !('a' <= c <= 'z') ==> u == c
    ensures !('a' <= u <= 'z')
    ensures 'A' <= u <= 'Z' <==> 'a' <= c <= 'z' || 'A' <= c <= 'Z'
    ensures IsDigit(u) <==> IsDigit(c)
  {
    if 'a' <= c <= 'z' then (c as int - 32) as char else c
  }

  /** `str.upper()` on ASCII text. */
  function ToUpper(s: string): (u: string)
    ensures |u| == |s|
    ensures forall k :: 0 <= k < |s| ==> u[k] == UpperChar(s[k])
    ensures forall k :: 0 <= k < |u| ==> !('a' <= u[k] <= 'z')
    ensures forall k :: 0 <= k < |s| && (IsDigit(s[k]) || s[k] == '.') ==> u[k] == s[k]
  {
    seq(|s|, k requires 0 <= k < |s| => UpperChar(s[k]))
  }

  /** `t` occurs in `s` starting at position `i`. */
  predicate OccursAt(s: string, t: string, i: int) {
    0 <= i && i + |t| <= |s| && s[i..i + |t|] == t
  }

  /** `t in s` for strings: `t` occurs somewhere in `s`. */
  predicate Contains(s: string, t: string) {
    exists i :: 0 <= i <= |s| && OccursAt(s, t, i)
  }

  /** `69[34]` matches at position `i` of `u`. */
  predicate ModelNumberAt(u: string, i: int) {
    0 <= i && i + 2 < |u| && u[i] == '6' && u[i + 1] == '9' && (u[i + 2] == '3' || u[i + 2] == '4')
  }

  /** `re.search(r'69[34]', u)`: the model numbers 693 and 694. */
  predicate HasModelNumber(u: string) {
    exists i :: 0 <= i < |u| && ModelNumberAt(u, i)
  }

  /** The textual signature checks, applied to upper-cased text. */
  predicate HasSignatureToken(u: string) {
    Contains(u, "MDT") || Contains(u, "THOR") || HasModelNumber(u)
  }

  /** `re.search(r'-?\d+\.\d+', s)`: a digit, a dot and a digit in a row
      (the optional sign and the longer digit runs never decide whether the
      search succeeds; `DecimalSearch` proves this against the pattern). */
  predicate HasDecimal(s: string) {
    exists i :: 0 <= i < |s| && DecimalCoreAt(s, i)
  }

  /** A digit, a dot and a digit at positions `i`, `i + 1`, `i + 2` of `s`. */
  predicate DecimalCoreAt(s: string, i: int) {
    0 <= i && i + 2 < |s| && IsDigit(s[i]) && s[i + 1] == '.' && IsDigit(s[i + 2])
  }

  /** The classifier: a non-empty reply matches when it carries a signature
      token (case-insensitively) or a decimal number. */
  predicate IsMatch(text: string) {
    text != [] && (HasSignatureToken(ToUpper(text)) || HasDecimal(text))
  }

  // ---------------------------------------------------------------------------
  // The decimal pattern, stated as the regular expression it is
  // ---------------------------------------------------------------------------

  /** `\d+`: one or more digits. */
  predicate IsDigits(t: string) {
    |t| > 0 && forall k :: 0 <= k < |t| ==> IsDigit(t[k])
  }

  /** `\d+\.\d+` matches the whole of `t`. */
  predicate IsUnsignedDecimal(t: string) {
    exists m :: 0 < m < |t| && t[m] == '.' && IsDigits(t[..m]) && IsDigits(t[m + 1..])
  }

  /** `-?\d+\.\d+` matches the whole of `t`. */
  predicate IsDecimalLiteral(t: string) {
    IsUnsignedDecimal(t) || (|t| > 0 && t[0] == '-' && IsUnsignedDecimal(t[1..]))
  }

  /** `re.search` succeeds: some piece of `s` matches the whole pattern. */
  predicate DecimalOccurs(s: string) {
    exists i, j :: 0 <= i <= j <= |s| && IsDecimalLiteral(s[i..j])
  }

  /** An unsigned decimal contains a digit, a dot and a digit in a row. */
  lemma UnsignedHasCore(t: string) returns (m: int)
    requires IsUnsignedDecimal(t)
    ensures 0 < m && m + 1 < |t| && IsDigit(t[m - 1]) && t[m] == '.' && IsDigit(t[m + 1])
  {
    m :| 0 < m < |t| && t[m] == '.' && IsDigits(t[..m]) && IsDigits(t[m + 1..]);
    assert t[..m][m - 1] == t[m - 1];
    assert t[m + 1..][0] == t[m + 1];
  }

  /** `HasDecimal` is exactly the search for `-?\d+\.\d+`. */
  lemma DecimalSearch(s: string)
    ensures HasDecimal(s) <==> DecimalOccurs(s)
  {
    if HasDecimal(s) {
      var i :| 0 <= i < |s| && DecimalCoreAt(s, i);
      assert DecimalCoreAt(s, i);
      var t := s[i..i + 3];
      assert t[..1] == [s[i]] && t[2..] == [s[i + 2]];
      assert IsUnsignedDecimal(t);
      assert IsDecimalLiteral(t);
    }
    if DecimalOccurs(s) {
      var i, j :| 0 <= i <= j <= |s| && IsDecimalLiteral(s[i..j]);
      var t := s[i..j];
      if IsUnsignedDecimal(t) {
        var m := UnsignedHasCore(t);
        assert s[i + m - 1] == t[m - 1] && s[i + m] == t[m] && s[i + m + 1] == t[m + 1];
        assert DecimalCoreAt(s, i + m - 1);
      } else {
        var m := UnsignedHasCore(t[1..]);
        assert s[i + m] == t[1..][m - 1] && s[i + m + 1] == t[1..][m] && s[i + m + 2] == t[1..][m + 1];
        assert DecimalCoreAt(s, i + m);
      }
    }
  }

  // ---------------------------------------------------------------------------
  // Properties of the classifier
  // ---------------------------------------------------------------------------

  /** Upper-casing twice is upper-casing once. */
  lemma ToUpperIdempotent(s: string)
    ensures ToUpper(ToUpper(s)) == ToUpper(s)
  {
  }

  /** Upper-casing works character by character, so it distributes over
      concatenation. */
  lemma ToUpperAppend(a: string, b: string)
    ensures ToUpper(a + b) == ToUpper(a) + ToUpper(b)
  {
  }

  /** Upper-casing keeps digits and dots where they are, so it changes
      nothing about the decimal search. */
  lemma DecimalIgnoresCase(s: string)
    ensures HasDecimal(ToUpper(s)) == HasDecimal(s)
  {
    var u := ToUpper(s);
    forall i ensures DecimalCoreAt(u, i) == DecimalCoreAt(s, i) {
      if 0 <= i && i + 2 < |s| {
        assert u[i] == UpperChar(s[i]) && u[i + 1] == UpperChar(s[i + 1]) && u[i + 2] == UpperChar(s[i + 2]);
      }
    }
  }

  /** The classifier ignores case: a reply and its upper-cased form are
      classified alike. */
  lemma ClassifyIgnoresCase(s: string)
    ensures IsMatch(ToUpper(s)) == IsMatch(s)
  {
    ToUpperIdempotent(s);
    DecimalIgnoresCase(s);
  }

  /** An occurrence survives surrounding text. */
  lemma ContainsInContext(a: string, s: string, b: string, t: string)
    requires Contains(s, t)
    ensures Contains(a + s + b, t)
  {
    var i :| 0 <= i <= |s| && OccursAt(s, t, i);
    assert OccursAt(s, t, i);
    assert (a + s + b)[|a| + i..|a| + i + |t|] == s[i..i + |t|];
    assert OccursAt(a + s + b, t, |a| + i);
  }

  /** A model number survives surrounding text. */
  lemma ModelNumberInContext(a: string, s: string, b: string)
    requires HasModelNumber(s)
    ensures HasModelNumber(a + s + b)
  {
    var i :| 0 <= i < |s| && ModelNumberAt(s, i);
    assert ModelNumberAt(s, i);
    var w := a + s + b;
    assert w[|a| + i] == s[i] && w[|a| + i + 1] == s[i + 1] && w[|a| + i + 2] == s[i + 2];
    assert ModelNumberAt(w, |a| + i);
  }

  /** A decimal number survives surrounding text. */
  lemma DecimalInContext(a: string, s: string, b: string)
    requires HasDecimal(s)
    ensures HasDecimal(a + s + b)
  {
    var i :| 0 <= i < |s| && DecimalCoreAt(s, i);
    assert DecimalCoreAt(s, i);
    var w := a + s + b;
    assert w[|a| + i] == s[i] && w[|a| + i + 1] == s[i + 1] && w[|a| + i + 2] == s[i + 2];
    assert DecimalCoreAt(w, |a| + i);
  }

  /** The classifier looks for signatures anywhere: a matching text still
      matches with any text before and after it. */
  lemma ClassifyInContext(a: string, t: string, b: string)
    requires IsMatch(t)
    ensures IsMatch(a + t + b)
  {
    ToUpperAppend(a, t);
    ToUpperAppend(a + t, b);
    var ua, ut, ub := ToUpper(a), ToUpper(t), ToUpper(b);
    assert ToUpper(a + t + b) == ua + ut + ub;
    if Contains(ut, "MDT") {
      ContainsInContext(ua, ut, ub, "MDT");
    } else if Contains(ut, "THOR") {
      ContainsInContext(ua, ut, ub, "THOR");
    } else if HasModelNumber(ut) {
      ModelNumberInContext(ua, ut, ub);
    } else {
      DecimalInContext(a, t, b);
    }
  }

  /** Each signature token decides a match on its own, wherever it stands:
      `MDT` and `THOR` in any case, and the model numbers `693` and `694`. */
  lemma TokenMatches(a: string, t: string, b: string)
    requires ToUpper(t) == "MDT" || ToUpper(t) == "THOR" || t == "693" || t == "694"
    ensures IsMatch(a + t + b)
  {
    var u := ToUpper(t);
    if u == "MDT" {
      assert OccursAt(u, "MDT", 0);
    } else if u == "THOR" {
      assert OccursAt(u, "THOR", 0);
    } else {
      assert u[0] == '6' && u[1] == '9' && u[2] == t[2];
      assert ModelNumberAt(u, 0);
    }
    ClassifyInContext(a, t, b);
  }

  /** Without a digit and without the words MDT and THOR (in any case) a
      reply never matches; in particular the empty reply never matches. */
  lemma NoDigitsNoTokenNoMatch(s: string)
    requires forall k :: 0 <= k < |s| ==> !IsDigit(s[k])
    requires !Contains(ToUpper(s), "MDT") && !Contains(ToUpper(s), "THOR")
    ensures !IsMatch(s)
  {
    var u := ToUpper(s);
    forall i | 0 <= i && i + 2 < |u| ensures !ModelNumberAt(u, i) && !DecimalCoreAt(s, i) {
      assert u[i] == UpperChar(s[i]) && !IsDigit(s[i]);
    }
  }

  /** Examples: "xMDTy", "MDT693B" and "-12.50" match, the empty reply does not. */
  lemma ClassifyExamples()
    ensures IsMatch("xMDTy")
    ensures IsMatch("MDT693B")
    ensures IsMatch("-12.50")
    ensures !IsMatch("")
  {
    assert ToUpper("xMDTy")[1..4] == "MDT";
    assert OccursAt(ToUpper("xMDTy"), "MDT", 1);
    assert ToUpper("MDT693B")[0..3] == "MDT";
    assert OccursAt(ToUpper("MDT693B"), "MDT", 0);
    assert DecimalCoreAt("-12.50", 2);
  }

  /** Examples of the tokens on their own: "thor" matches in lower case and
      "x694" matches through the model number. */
  lemma TokenExamples()
    ensures IsMatch("thor")
    ensures IsMatch("x694")
  {
    assert ToUpper("thor") == "THOR";
    TokenMatches("", "thor", "");
    assert "" + "thor" + "" == "thor";
    TokenMatches("x", "694", "");
    assert "x" + "694" + "" == "x694";
  }
}

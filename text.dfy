/** String.prototype.trim of ECMAScript (TrimString with `start+end`):
    strip the leading and the trailing white space and line terminators. */
module Text {

  /** The code points ECMAScript treats as WhiteSpace (TAB, VT, FF, ZWNBSP and
      the Space_Separator category of Unicode) or as LineTerminator (LF, CR,
      LINE SEPARATOR, PARAGRAPH SEPARATOR). */
  predicate IsWhitespace(c: char) {
    var n := c as int;
    n == 0x09 || n == 0x0A || n == 0x0B || n == 0x0C || n == 0x0D
    || n == 0x20 || n == 0xA0 || n == 0x1680 || (0x2000 <= n <= 0x200A)
    || n == 0x2028 || n == 0x2029 || n == 0x202F || n == 0x205F
    || n == 0x3000 || n == 0xFEFF
  }

  /** `s` is empty or made only of white space. */
  predicate IsBlank(s: string) {
    forall i :: 0 <= i < |s| ==> IsWhitespace(s[i])
  }

  /** The length of the run of white space that starts `s`. */
  function LeadingWhitespace(s: string): (n: nat)
    ensures n <= |s|
    ensures IsBlank(s[..n])
    ensures n < |s| ==> !IsWhitespace(s[n])
  {
    if s != [] && IsWhitespace(s[0]) then 1 + LeadingWhitespace(s[1..]) else 0
  }

  /** The length of the run of white space that ends `s`. */
  function TrailingWhitespace(s: string): (n: nat)
    ensures n <= |s|
    ensures IsBlank(s[|s| - n..])
    ensures n < |s| ==> !IsWhitespace(s[|s| - n - 1])
  {
    if s != [] && IsWhitespace(s[|s| - 1]) then 1 + TrailingWhitespace(s[..|s| - 1]) else 0
  }

  /** `s.trim()`: the leading run is removed first, then the trailing run of
      what is left. */
  function Trim(s: string): (r: string)
    ensures r == [] <==> IsBlank(s)
    ensures r != [] ==> !IsWhitespace(r[0]) && !IsWhitespace(r[|r| - 1])
  {
    var rest := s[LeadingWhitespace(s)..];
    var r := rest[..|rest| - TrailingWhitespace(rest)];
    assert IsBlank(s) ==> LeadingWhitespace(s) == |s|;
    assert r == [] ==> IsBlank(s) by {
      if r == [] {
        var n := LeadingWhitespace(s);
        assert n == |s|;
        assert s == s[..n];
      }
    }
    r
  }

  /** `s.trim()` is the infix of `s` between a blank prefix and a blank suffix. */
  lemma TrimIsInfix(s: string)
    ensures exists i, j :: 0 <= i <= j <= |s| && Trim(s) == s[i..j]
                           && IsBlank(s[..i]) && IsBlank(s[j..])
  {
    var i := LeadingWhitespace(s);
    var rest := s[i..];
    var j := i + |rest| - TrailingWhitespace(rest);
    assert Trim(s) == s[i..j];
    assert s[j..] == rest[|rest| - TrailingWhitespace(rest)..];
  }

  /** Conversely, stripping a blank prefix and a blank suffix so that what is
      left neither starts nor ends with white space is exactly `s.trim()`. */
  lemma TrimUnique(s: string, i: nat, j: nat)
    requires i <= j <= |s|
    requires IsBlank(s[..i]) && IsBlank(s[j..])
    requires i < j ==> !IsWhitespace(s[i]) && !IsWhitespace(s[j - 1])
    requires i == j ==> IsBlank(s)
    ensures Trim(s) == s[i..j]
  {
    if i < j {
      var n := LeadingWhitespace(s);
      assert n == i;
      var rest := s[i..];
      var m := TrailingWhitespace(rest);
      assert m == |s| - j;
    }
  }

  /** Trimming an already trimmed string changes nothing. */
  lemma TrimIdempotent(s: string)
    ensures Trim(Trim(s)) == Trim(s)
  {
    var r := Trim(s);
    if r == [] {
      assert IsBlank(r);
    } else {
      TrimUnique(r, 0, |r|);
      assert r[0..|r|] == r;
    }
  }

  /** A string that neither starts nor ends with white space is its own trim. */
  lemma TrimOfTrimmed(s: string)
    requires s != [] && !IsWhitespace(s[0]) && !IsWhitespace(s[|s| - 1])
    ensures Trim(s) == s
  {
    TrimUnique(s, 0, |s|);
    assert s[0..|s|] == s;
  }
}

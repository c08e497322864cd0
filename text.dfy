/** Whitespace trimming as done by JavaScript's String.prototype.trim. */
module Text {

  /** The characters ECMAScript counts as WhiteSpace or LineTerminator
      (the set String.prototype.trim strips from both ends). */
  predicate IsWhitespace(c: char)
    ensures IsWhitespace(c) ==> c as int <= 0xFFFF
  {
    // WhiteSpace: TAB, VT, FF, SP, NBSP, ZWNBSP and the other space separators
    c == '\t' || c == '\U{000B}' || c == '\U{000C}' || c == ' ' || c == '\U{00A0}' || c == '\U{FEFF}'
    || c == '\U{1680}' || ('\U{2000}' <= c <= '\U{200A}') || c == '\U{202F}' || c == '\U{205F}' || c == '\U{3000}'
    // LineTerminator: LF, CR, LS, PS
    || c == '\n' || c == '\r' || c == '\U{2028}' || c == '\U{2029}'
  }

  /** True when every character of s is whitespace (this includes the empty string). */
  predicate AllWhitespace(s: string) {
    forall i :: 0 <= i < |s| ==> IsWhitespace(s[i])
  }

  /** The number of whitespace characters at the start of s. */
  function LeadingWhitespace(s: string): (n: nat)
    ensures n <= |s|
    ensures forall i :: 0 <= i < n ==> IsWhitespace(s[i])
    ensures n < |s| ==> !IsWhitespace(s[n])
  {
    if s == [] || !IsWhitespace(s[0]) then 0 else 1 + LeadingWhitespace(s[1..])
  }

  /** The number of whitespace characters at the end of s. */
  function TrailingWhitespace(s: string): (n: nat)
    ensures n <= |s|
    ensures forall i :: |s| - n <= i < |s| ==> IsWhitespace(s[i])
    ensures n < |s| ==> !IsWhitespace(s[|s| - 1 - n])
  {
    if s == [] || !IsWhitespace(s[|s| - 1]) then 0 else 1 + TrailingWhitespace(s[..|s| - 1])
  }

  /** s.trim(): leading and trailing whitespace removed. The result is the slice of s that
      starts after its leading whitespace, and only whitespace follows it. */
  function Trim(s: string): (r: string)
    ensures r == [] <==> AllWhitespace(s)
    ensures r != [] ==> !IsWhitespace(r[0]) && !IsWhitespace(r[|r| - 1])
    ensures var lo := LeadingWhitespace(s);
      lo + |r| <= |s| && r == s[lo..lo + |r|] &&
      forall i :: lo + |r| <= i < |s| ==> IsWhitespace(s[i])
  {
    var lo := LeadingWhitespace(s);
    if lo == |s| then []
    else
      var hi := |s| - TrailingWhitespace(s);
      assert lo < hi by {
        assert !IsWhitespace(s[lo]);
      }
      assert !AllWhitespace(s) by {
        assert !IsWhitespace(s[lo]);
      }
      s[lo..hi]
  }

  /** A string with no whitespace at either end is left alone by Trim. */
  lemma {:induction false} TrimOfTrimmed(s: string)
    requires s != [] ==> !IsWhitespace(s[0]) && !IsWhitespace(s[|s| - 1])
    ensures Trim(s) == s
  {
    if s != [] {
      assert LeadingWhitespace(s) == 0;
      assert TrailingWhitespace(s) == 0;
    }
  }

  /** Trimming twice is the same as trimming once. */
  lemma {:induction false} TrimIdempotent(s: string)
    ensures Trim(Trim(s)) == Trim(s)
  {
    TrimOfTrimmed(Trim(s));
  }
}

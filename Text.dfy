/**
 * The two string built-ins the roster relies on: `String.prototype.trim`
 * (applied to every raw input) and `String.prototype.toLowerCase` (used for
 * the case-insensitive duplicate test).
 *
 * `trim` removes exactly the ECMAScript WhiteSpace and LineTerminator code
 * points, listed in full below. `toLowerCase` is approximated on ASCII: only
 * 'A'..'Z' are mapped, every other character is left as it is.
 */
module Text {

  /** The code points `trim` strips: ECMAScript WhiteSpace (TAB, VT, FF, ZWNBSP
      and the Zs category) and LineTerminator (LF, CR, LS, PS). */
  const Whitespace: set<char> := {
    '\t', '\n', '\U{0B}', '\U{0C}', '\r', ' ', '\U{A0}', '\U{1680}',
    '\U{2000}', '\U{2001}', '\U{2002}', '\U{2003}', '\U{2004}', '\U{2005}',
    '\U{2006}', '\U{2007}', '\U{2008}', '\U{2009}', '\U{200A}',
    '\U{2028}', '\U{2029}', '\U{202F}', '\U{205F}', '\U{3000}', '\U{FEFF}'
  }

  predicate IsWhitespace(c: char) {
    c in Whitespace
  }

  predicate AllWhitespace(s: string) {
    forall i :: 0 <= i < |s| ==> IsWhitespace(s[i])
  }

  lemma AllWhitespaceCons(c: char, s: string)
    requires IsWhitespace(c) && AllWhitespace(s)
    ensures AllWhitespace([c] + s)
  {
  }

  /** A trimmed string neither starts nor ends with whitespace. */
  predicate IsTrimmed(s: string) {
    s == [] || (!IsWhitespace(s[0]) && !IsWhitespace(s[|s| - 1]))
  }

  /** Drops the leading whitespace: the result is the suffix of `s` that
      starts at the first non-whitespace character. */
  function TrimStart(s: string): (r: string)
    ensures |r| <= |s| && r == s[|s| - |r|..]
    ensures AllWhitespace(s[..|s| - |r|])
    ensures r != [] ==> !IsWhitespace(r[0])
    decreases |s|
  {
    if s != [] && IsWhitespace(s[0]) then
      var r := TrimStart(s[1..]);
      var k := |s| - |r|;
      assert s[..k] == [s[0]] + s[1..][..k - 1];
      AllWhitespaceCons(s[0], s[1..][..k - 1]);
      assert r == s[1..][k - 1..] == s[k..];
      r
    else s
  }

  /** Drops the trailing whitespace: the result is the prefix of `s` that
      ends at the last non-whitespace character. */
  function TrimEnd(s: string): (r: string)
    ensures |r| <= |s| && r == s[..|r|]
    ensures AllWhitespace(s[|r|..])
    ensures r != [] ==> !IsWhitespace(r[|r| - 1])
    decreases |s|
  {
    if s != [] && IsWhitespace(s[|s| - 1]) then
      var r := TrimEnd(s[..|s| - 1]);
      assert s[|r|..] == s[..|s| - 1][|r|..] + [s[|s| - 1]];
      r
    else s
  }

  /** `String.prototype.trim`. The result neither starts nor ends with
      whitespace, and `TrimKeepsMiddle` shows what it is cut from: together
      the two determine `Trim(s)` for every `s`. */
  function Trim(s: string): (r: string)
    ensures IsTrimmed(r)
    ensures |r| <= |s|
  {
    TrimEnd(TrimStart(s))
  }

  /** Trim removes only whitespace, and only from the two ends: `s` is some
      whitespace, then `Trim(s)` as a contiguous slice, then some more
      whitespace. */
  lemma TrimKeepsMiddle(s: string)
    ensures exists lo, hi ::
              0 <= lo <= hi <= |s| && Trim(s) == s[lo..hi] &&
              AllWhitespace(s[..lo]) && AllWhitespace(s[hi..])
  {
    var t := TrimStart(s);
    var lo := |s| - |t|;
    var r := TrimEnd(t);
    var hi := lo + |r|;
    assert r == s[lo..hi];
    assert s[hi..] == t[|r|..];
  }

  /** One blank on each side of a name is dropped. */
  lemma TrimScenario()
    ensures Trim(" Ana ") == "Ana"
  {
    LeadingBlankScenario();
    assert TrimEnd("Ana ") == "Ana" by {
      assert "Ana "[..3] == "Ana";
    }
  }

  lemma LeadingBlankScenario()
    ensures TrimStart(" Ana ") == "Ana "
  {
    assert " Ana "[1..] == "Ana ";
    assert !IsWhitespace('A');
  }

  /** Blank input trims to nothing. */
  lemma BlankTrimScenario()
    ensures Trim("") == ""
    ensures Trim("   ") == ""
  {
    TrimEmptyIff("");
    ThreeBlanksTrimToNothing();
  }

  lemma ThreeBlanksTrimToNothing()
    ensures Trim("   ") == ""
  {
    TrimEmptyIff("   ");
  }

  /** A trimmed string is its own trimming. */
  lemma {:induction false} TrimOfTrimmed(s: string)
    requires IsTrimmed(s)
    ensures Trim(s) == s
  {
    if s != [] {
      assert TrimStart(s) == s;
      assert TrimEnd(s) == s;
    }
  }

  /** Trimming yields the empty string exactly for all-whitespace input
      (including the empty input). */
  lemma TrimEmptyIff(s: string)
    ensures Trim(s) == [] <==> AllWhitespace(s)
  {
    var t := TrimStart(s);
    var k := |s| - |t|;
    if Trim(s) == [] {
      assert t[0..] == t;
      assert t == [];
      forall i | 0 <= i < |s| ensures IsWhitespace(s[i]) {
        assert s[i] == s[..k][i];
      }
    }
  }

  /** ASCII lower-casing of one character. */
  function LowerChar(c: char): (d: char)
    ensures !('A' <= d <= 'Z')
    ensures 'A' <= c <= 'Z' ==> d as int == c as int + 32
    ensures !('A' <= c <= 'Z') ==> d == c
  {
    if 'A' <= c <= 'Z' then (c as int + 32) as char else c
  }

  /** `String.prototype.toLowerCase`, on ASCII letters. */
  function ToLower(s: string): (r: string)
    ensures |r| == |s|
  {
    if s == [] then [] else [LowerChar(s[0])] + ToLower(s[1..])
  }

  /** Lower-casing works character by character, in place. */
  lemma {:induction false} ToLowerAt(s: string, i: nat)
    requires i < |s|
    ensures ToLower(s)[i] == LowerChar(s[i])
  {
    if i > 0 {
      ToLowerAt(s[1..], i - 1);
    }
  }

  /** "Ana" and "ana" have the same lower-case form. */
  lemma LowerScenario()
    ensures ToLower("Ana") == "ana" == ToLower("ana")
  {
    assert LowerChar('A') == 'a';
  }
}

/**
 * The Python string builtins the workout builder relies on:
 * `str.strip()`, `str.lower()` and `str.capitalize()`.
 */
module PyStr {

  /** Python's `str.isspace()` for one character: the characters `str.strip()` removes. */
  predicate IsSpace(c: char) {
    ('\t' <= c <= '\r') || ('\U{1C}' <= c <= ' ') || c == '\U{85}' || c == '\U{A0}' ||
    c == '\U{1680}' || ('\U{2000}' <= c <= '\U{200A}') || c == '\U{2028}' || c == '\U{2029}' ||
    c == '\U{202F}' || c == '\U{205F}' || c == '\U{3000}'
  }

  /**
   * Whitespace has no case, and no ASCII letter or digit is whitespace, so case mapping
   * never moves a character into or out of what `strip()` removes.
   */
  lemma SpaceIsCaseless(c: char)
    ensures IsSpace(c) ==> LowerChar(c) == c && UpperChar(c) == c
    ensures ('a' <= c <= 'z' || 'A' <= c <= 'Z' || '0' <= c <= '9') ==> !IsSpace(c)
  {
  }

  /** Number of whitespace characters at the start of `s`. */
  function LeadingSpaces(s: string): (n: nat)
    ensures n <= |s|
    ensures forall k :: 0 <= k < n ==> IsSpace(s[k])
    ensures n < |s| ==> !IsSpace(s[n])
  {
    if s == [] || !IsSpace(s[0]) then 0 else 1 + LeadingSpaces(s[1..])
  }

  /** Number of whitespace characters at the end of `s`. */
  function TrailingSpaces(s: string): (n: nat)
    ensures n <= |s|
    ensures forall k :: |s| - n <= k < |s| ==> IsSpace(s[k])
    ensures n < |s| ==> !IsSpace(s[|s| - 1 - n])
  {
    if s == [] || !IsSpace(s[|s| - 1]) then 0 else 1 + TrailingSpaces(s[..|s| - 1])
  }

  /**
   * `s.strip()`: the longest infix of `s` that neither starts nor ends with whitespace,
   * obtained by dropping only whitespace on either side.
   */
  function Strip(s: string): (r: string)
    ensures LeadingSpaces(s) + |r| <= |s|
    ensures r == s[LeadingSpaces(s)..LeadingSpaces(s) + |r|]
    ensures forall k :: LeadingSpaces(s) + |r| <= k < |s| ==> IsSpace(s[k])
    ensures r != [] ==> !IsSpace(r[0]) && !IsSpace(r[|r| - 1])
  {
    var rest := s[LeadingSpaces(s)..];
    rest[..|rest| - TrailingSpaces(rest)]
  }

  /** `Strip` leaves a string that has no whitespace at either end as it is. */
  lemma StripUnchanged(s: string)
    requires s == [] || (!IsSpace(s[0]) && !IsSpace(s[|s| - 1]))
    ensures Strip(s) == s
  {
    var rest := s[LeadingSpaces(s)..];
    assert LeadingSpaces(s) == 0;
    assert rest == s;
    assert TrailingSpaces(rest) == 0;
  }

  /** Only the whitespace prefix counts as leading whitespace. */
  lemma {:induction false} LeadingSpacesOfPadded(pre: string, t: string)
    requires forall c :: c in pre ==> IsSpace(c)
    requires t != [] && !IsSpace(t[0])
    ensures LeadingSpaces(pre + t) == |pre|
  {
    if pre != [] {
      assert pre[0] in pre;
      assert (pre + t)[1..] == pre[1..] + t;
      forall c | c in pre[1..] ensures IsSpace(c) {
        assert c in pre;
      }
      LeadingSpacesOfPadded(pre[1..], t);
    } else {
      assert pre + t == t;
    }
  }

  /** Only the whitespace suffix counts as trailing whitespace. */
  lemma {:induction false} TrailingSpacesOfPadded(t: string, post: string)
    requires forall c :: c in post ==> IsSpace(c)
    requires t != [] && !IsSpace(t[|t| - 1])
    ensures TrailingSpaces(t + post) == |post|
  {
    if post != [] {
      var n := |post| - 1;
      assert post[n] in post;
      assert (t + post)[..|t + post| - 1] == t + post[..n];
      forall c | c in post[..n] ensures IsSpace(c) {
        assert c in post;
      }
      TrailingSpacesOfPadded(t, post[..n]);
    } else {
      assert t + post == t;
    }
  }

  /** Stripping removes any whitespace padding around text that has none at its ends. */
  lemma StripPadded(pre: string, u: string, post: string)
    requires forall c :: c in pre ==> IsSpace(c)
    requires forall c :: c in post ==> IsSpace(c)
    requires u != [] && !IsSpace(u[0]) && !IsSpace(u[|u| - 1])
    ensures Strip(pre + u + post) == u
  {
    var s := pre + u + post;
    assert s == pre + (u + post);
    LeadingSpacesOfPadded(pre, u + post);
    var rest := s[|pre|..];
    assert rest == u + post;
    TrailingSpacesOfPadded(u, post);
    assert rest[..|rest| - |post|] == u;
  }

  /** Stripping twice is stripping once. */
  lemma StripIdempotent(s: string)
    ensures Strip(Strip(s)) == Strip(s)
  {
    StripUnchanged(Strip(s));
  }

  /**
   * `c.lower()` where the result is one character: ASCII capitals and the Kelvin sign
   * (U+212A, whose lower-case form is the ASCII letter k). Every other character is
   * kept as it is; see the README for why this decides the same table lookups.
   */
  function LowerChar(c: char): char {
    if 'A' <= c <= 'Z' then (c as int + 32) as char
    else if c == '\U{212A}' then 'k'
    else c
  }

  /** `c.upper()` on ASCII letters; other characters are kept. */
  function UpperChar(c: char): char {
    if 'a' <= c <= 'z' then (c as int - 32) as char else c
  }

  /** `s.lower()`, character by character. */
  function Lower(s: string): (r: string)
    ensures |r| == |s|
    ensures forall i :: 0 <= i < |s| ==> !('A' <= r[i] <= 'Z')
    ensures forall i :: 0 <= i < |s| ==> (IsSpace(r[i]) <==> IsSpace(s[i]))
  {
    seq(|s|, i requires 0 <= i < |s| => LowerChar(s[i]))
  }

  /** Every character of `s` is its own lower-case form. */
  predicate IsLowerText(s: string) {
    forall c :: c in s ==> LowerChar(c) == c
  }

  /** A non-empty word of ASCII lower-case letters. */
  predicate IsLowerWord(s: string) {
    s != [] && forall c :: c in s ==> 'a' <= c <= 'z'
  }

  /** `Lower` leaves already lower-case text as it is. */
  lemma LowerUnchanged(s: string)
    requires IsLowerText(s)
    ensures Lower(s) == s
  {
    forall i | 0 <= i < |s| ensures Lower(s)[i] == s[i] {
      assert s[i] in s;
    }
  }

  /** Lower-casing twice is lower-casing once, and it neither adds nor removes whitespace. */
  lemma LowerIdempotent(s: string)
    ensures Lower(Lower(s)) == Lower(s)
    ensures forall i :: 0 <= i < |s| ==> (IsSpace(Lower(s)[i]) <==> IsSpace(s[i]))
  {
  }

  /** Lower-casing a stripped string leaves nothing to strip. */
  lemma LowerOfStrippedIsStripped(s: string)
    ensures Strip(Lower(Strip(s))) == Lower(Strip(s))
  {
    var t := Strip(s);
    LowerIdempotent(t);
    if t != [] {
      assert !IsSpace(Lower(t)[0]) && !IsSpace(Lower(t)[|t| - 1]);
    }
    StripUnchanged(Lower(t));
  }

  /** `s.capitalize()`: the first character upper-cased, the rest lower-cased. */
  function Capitalize(s: string): (r: string)
    ensures |r| == |s|
    ensures s != [] ==> !('a' <= r[0] <= 'z')
    ensures forall i :: 1 <= i < |s| ==> !('A' <= r[i] <= 'Z')
    ensures Lower(r) == Lower(s)
  {
    if s == [] then [] else
      var r := [UpperChar(s[0])] + Lower(s[1..]);
      assert Lower(r) == Lower(s) by {
        forall i | 0 <= i < |s| ensures Lower(r)[i] == Lower(s)[i] {
          if i > 0 {
            assert r[i] == LowerChar(s[i]);
          }
        }
      }
      r
  }

  /** Upper-casing an ASCII lower-case letter gives a capital that lower-cases back to it. */
  lemma UpperLowerLetter(c: char)
    requires 'a' <= c <= 'z'
    ensures 'A' <= UpperChar(c) <= 'Z'
    ensures LowerChar(UpperChar(c)) == c
    ensures LowerChar(c) == c
    ensures !IsSpace(c) && !IsSpace(UpperChar(c))
  {
  }

  /** A lower-case word is lower-case text with no whitespace at either end. */
  lemma LowerWordFacts(s: string)
    requires IsLowerWord(s)
    ensures IsLowerText(s) && IsLowerText(s[1..])
    ensures !IsSpace(s[|s| - 1])
    ensures 'A' <= UpperChar(s[0]) <= 'Z' && LowerChar(UpperChar(s[0])) == s[0]
  {
    assert s[0] in s;
    assert s[|s| - 1] in s;
    UpperLowerLetter(s[0]);
    forall c | c in s[1..] ensures LowerChar(c) == c {
      assert c in s;
    }
  }

  /** Capitalizing a lower-case word only upper-cases its first letter. */
  lemma CapitalizeLowerWordShape(s: string)
    requires IsLowerWord(s)
    ensures Capitalize(s) == [UpperChar(s[0])] + s[1..]
  {
    LowerWordFacts(s);
    LowerUnchanged(s[1..]);
  }

  /**
   * Capitalizing a lower-case word gives a word that starts with a capital, has no
   * whitespace to strip, and lower-cases back to the word.
   */
  lemma CapitalizeLowerWord(s: string)
    requires IsLowerWord(s)
    ensures |Capitalize(s)| == |s|
    ensures 'A' <= Capitalize(s)[0] <= 'Z'
    ensures Strip(Capitalize(s)) == Capitalize(s)
    ensures Lower(Capitalize(s)) == s
  {
    var c := Capitalize(s);
    LowerWordFacts(s);
    CapitalizeLowerWordShape(s);
    assert c[|c| - 1] == if |s| == 1 then UpperChar(s[0]) else s[|s| - 1];
    StripUnchanged(c);
    forall i | 0 <= i < |s| ensures Lower(c)[i] == s[i] {
      if i > 0 {
        assert s[i] in s[1..];
      }
    }
  }
}

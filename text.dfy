/**
 * The character tests and string searches that the log analyser's regular
 * expressions perform, restricted to ASCII: Python's `\s` and `\d`, the
 * case-insensitive comparison of `re.IGNORECASE`, and the anchored and
 * unanchored searches of `re.match` and `str.contains`.
 */
module Text {

  /** Python's `\s` on ASCII: space, tab, line feed, vertical tab, form feed,
      carriage return and the four separators 0x1C-0x1F. */
  predicate IsSpace(c: char) {
    var n := c as int;
    n == 32 || 9 <= n <= 13 || 28 <= n <= 31
  }

  /** Python's `\d` on ASCII. */
  predicate IsDigit(c: char) {
    '0' <= c <= '9'
  }

  function LowerChar(c: char): char {
    if 'A' <= c <= 'Z' then (c as int + 32) as char else c
  }

  function UpperChar(c: char): char {
    if 'a' <= c <= 'z' then (c as int - 32) as char else c
  }

  function ToLower(s: string): string {
    seq(|s|, i requires 0 <= i < |s| => LowerChar(s[i]))
  }

  function ToUpper(s: string): string {
    seq(|s|, i requires 0 <= i < |s| => UpperChar(s[i]))
  }

  /** Lower-casing forgets any earlier change of case, so a case-insensitive
      test gives the same verdict on a string and on its upper-case form. */
  lemma LowerOfUpper(s: string)
    ensures ToLower(ToUpper(s)) == ToLower(s)
  {
    forall i | 0 <= i < |s|
      ensures ToLower(ToUpper(s))[i] == ToLower(s)[i]
    {
      var c := s[i];
      if 'a' <= c <= 'z' {
        assert UpperChar(c) as int == c as int - 32;
      }
    }
  }

  /** Lower-casing works character by character, so it distributes over
      concatenation. */
  lemma ToLowerAppend(a: string, b: string)
    ensures ToLower(a + b) == ToLower(a) + ToLower(b)
  {
  }

  /** `^p`: the string begins with `p`. */
  predicate StartsWith(s: string, p: string) {
    p <= s
  }

  /** The string ends with `p`. */
  predicate EndsWith(s: string, p: string) {
    |p| <= |s| && s[|s| - |p|..] == p
  }

  /** An unanchored search, as `re.search` does it: try `p` at the start of
      `s`, then at every later position. */
  predicate Contains(s: string, p: string)
    decreases |s|
  {
    StartsWith(s, p) || (s != [] && Contains(s[1..], p))
  }

  /** `p` occurs in `s` starting at index `i`. */
  predicate OccursAt(s: string, p: string, i: nat) {
    i + |p| <= |s| && s[i..i + |p|] == p
  }

  /** The scan finds `p` exactly when `p` occurs at some position of `s`. */
  lemma {:induction false} ContainsAt(s: string, p: string)
    ensures Contains(s, p) <==> exists i: nat :: OccursAt(s, p, i)
    decreases |s|
  {
    if StartsWith(s, p) {
      assert OccursAt(s, p, 0);
    } else if s == [] {
      assert |p| > 0;
    } else {
      ContainsAt(s[1..], p);
      if Contains(s[1..], p) {
        var i: nat :| OccursAt(s[1..], p, i);
        assert s[i + 1..i + 1 + |p|] == s[1..][i..i + |p|];
        assert OccursAt(s, p, i + 1);
      } else {
        forall i: nat
          ensures !OccursAt(s, p, i)
        {
          if i == 0 {
            assert !(p <= s);
          } else if i + |p| <= |s| {
            var here, there := s[i..i + |p|], s[1..][i - 1..i - 1 + |p|];
            assert forall k :: 0 <= k < |p| ==> here[k] == there[k];
            assert here == there;
            assert !OccursAt(s[1..], p, i - 1);
          }
        }
      }
    }
  }

  /** `p` cannot occur in `s` when it is longer than `s` or holds a
      character that `s` lacks. */
  lemma NeverContains(s: string, p: string)
    requires |s| < |p| || exists c :: c in p && c !in s
    ensures !Contains(s, p)
  {
    ContainsAt(s, p);
    forall i: nat | OccursAt(s, p, i)
      ensures false
    {
      assert false;
    }
  }

  /** `s` does not start with `p` when they differ at position `k` of `p`. */
  lemma NotPrefixAt(s: string, p: string, k: nat)
    requires k < |p| && (k >= |s| || s[k] != p[k])
    ensures !StartsWith(s, p)
  {
    if |p| <= |s| {
      assert p[k] != s[..|p|][k];
    }
  }
}

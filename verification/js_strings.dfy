/**
 The JavaScript string operations the game script relies on, over strings as
 sequences of characters: `charAt`, `includes`, the ASCII part of
 `toUpperCase`/`toLowerCase`, and the case-insensitive regular expression
 `/[a-z]/i` used by `isLetter`.
 */
module JsStrings {

  predicate IsLowerAscii(c: char) {
    'a' <= c <= 'z'
  }

  predicate IsUpperAscii(c: char) {
    'A' <= c <= 'Z'
  }

  predicate IsAsciiLetter(c: char) {
    IsLowerAscii(c) || IsUpperAscii(c)
  }

  /** `c.toUpperCase()` on one character; only ASCII letters change case in this model. */
  function ToUpperChar(c: char): (u: char)
    ensures IsAsciiLetter(c) ==> IsUpperAscii(u)
    ensures IsAsciiLetter(c) <==> IsAsciiLetter(u)
    ensures IsUpperAscii(c) ==> u == c
    ensures ToLowerChar(u) == ToLowerChar(c)
  {
    if IsLowerAscii(c) then (c as int - 32) as char else c
  }

  /** `c.toLowerCase()` on one character; only ASCII letters change case in this model. */
  function ToLowerChar(c: char): char
  {
    if IsUpperAscii(c) then (c as int + 32) as char else c
  }

  /** `s.toLowerCase()`, character by character. */
  function ToLowerAscii(s: string): (r: string)
    ensures |r| == |s|
    ensures forall i :: 0 <= i < |s| ==> !IsUpperAscii(r[i]) && ToUpperChar(r[i]) == ToUpperChar(s[i])
  {
    seq(|s|, i requires 0 <= i < |s| => ToLowerChar(s[i]))
  }

  /** `s.charAt(i)`: the one-character string at index `i`, or `""` past the end. */
  function CharAt(s: string, i: nat): string
  {
    if i < |s| then [s[i]] else ""
  }

  /** `s.includes(needle)`: `needle` occurs in `s` starting at some index. */
  predicate Includes(s: string, needle: string)
    decreases |s|
  {
    needle <= s || (s != [] && Includes(s[1..], needle))
  }

  /** For a one-character needle, `includes` is membership. */
  lemma {:induction false} IncludesChar(s: string, c: char)
    ensures Includes(s, [c]) <==> c in s
    decreases |s|
  {
    if s != [] {
      IncludesChar(s[1..], c);
      assert c in s <==> s[0] == c || c in s[1..] by {
        assert s == [s[0]] + s[1..];
      }
    }
  }

  /**
   Whether the character class `[a-z]` with the ignore-case flag matches `c`.
   Without the `u` flag, JavaScript compares characters after upper-casing
   them and never lets a non-ASCII character upper-case into ASCII, so the
   class matches exactly the characters whose ASCII upper case is `A`..`Z`.
   */
  predicate MatchesLetterClass(c: char) {
    IsUpperAscii(ToUpperChar(c))
  }

  /** `s.match(/[a-z]/i)` is non-null: some character of `s` matches the class. */
  predicate SearchLetterClass(s: string) {
    exists i :: 0 <= i < |s| && MatchesLetterClass(s[i])
  }
}

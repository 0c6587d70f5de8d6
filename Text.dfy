/** String predicates the service uses for validation and matching.
    Case-insensitive comparison folds ASCII letters only (String.equalsIgnoreCase and
    String.toLowerCase agree with this on ASCII text). */
module Text {

  function Lower(c: char): char
  {
    if 'A' <= c <= 'Z' then (c as int + 32) as char else c
  }

  /** String.toLowerCase, restricted to ASCII folding. */
  function LowerStr(s: string): string
  {
    seq(|s|, i requires 0 <= i < |s| => Lower(s[i]))
  }

  /** String.equalsIgnoreCase. */
  predicate EqualsIgnoreCase(a: string, b: string)
  {
    LowerStr(a) == LowerStr(b)
  }

  /** `needle` occurs in `hay` starting at position `i`. */
  predicate OccursAt(needle: string, hay: string, i: int)
  {
    0 <= i && i + |needle| <= |hay| && hay[i..i + |needle|] == needle
  }

  /** String.contains. */
  predicate Contains(hay: string, needle: string)
  {
    exists i :: 0 <= i <= |hay| - |needle| && OccursAt(needle, hay, i)
  }

  /** hay.toLowerCase().contains(needle.toLowerCase()). */
  predicate ContainsIgnoreCase(hay: string, needle: string)
  {
    Contains(LowerStr(hay), LowerStr(needle))
  }

  /** s.trim().isEmpty(): String.trim strips every character up to U+0020 from both
      ends, so the trimmed string is empty exactly when every character is at most ' '. */
  predicate IsBlank(s: string)
  {
    forall i :: 0 <= i < |s| ==> s[i] <= ' '
  }

  /** The character class [A-Za-z0-9+_.-] of the local part. */
  predicate IsLocalChar(c: char)
  {
    ('A' <= c <= 'Z') || ('a' <= c <= 'z') || ('0' <= c <= '9')
    || c == '+' || c == '_' || c == '.' || c == '-'
  }

  /** The characters a regular-expression '.' does not match by default. */
  predicate IsLineTerminator(c: char)
  {
    c == '\n' || c == '\r' || c == '\U{0085}' || c == '\U{2028}' || c == '\U{2029}'
  }

  /** `e` matches ^[A-Za-z0-9+_.-]+@(.+)$ with the '@' at position `k`. */
  predicate EmailSplitsAt(e: string, k: int)
  {
    0 < k < |e| - 1 && e[k] == '@'
    && (forall j :: 0 <= j < k ==> IsLocalChar(e[j]))
    && (forall j :: k < j < |e| ==> !IsLineTerminator(e[j]))
  }

  /** isValidEmail: not blank, and the whole string matches the pattern. */
  predicate IsValidEmail(e: string)
  {
    !IsBlank(e) && exists k :: 0 < k < |e| - 1 && EmailSplitsAt(e, k)
  }

  /** The blank test in isValidEmail never rejects a string the pattern accepts,
      and the '@' of a matching string is its first '@'. */
  lemma PatternSplitIsFirstAt(e: string, k: int)
    requires EmailSplitsAt(e, k)
    ensures !IsBlank(e)
    ensures forall j :: 0 <= j < k ==> e[j] != '@'
    ensures forall k' :: EmailSplitsAt(e, k') ==> k' == k
  {
    assert IsLocalChar(e[0]);
  }

  /** String.length(): the number of UTF-16 code units, where a character beyond U+FFFF
      (a surrogate pair in Java) counts twice. */
  function Utf16Length(s: string): (n: nat)
    ensures |s| <= n <= 2 * |s|
    ensures n == 0 <==> s == []
  {
    if s == [] then 0 else (if s[0] as int >= 0x1_0000 then 2 else 1) + Utf16Length(s[1..])
  }

  /** Two characters outside the Basic Multilingual Plane have length 4, not 2. */
  lemma Utf16LengthOfPair()
    ensures Utf16Length("\U{1F600}\U{1F600}") == 4
  {
    var s := "\U{1F600}\U{1F600}";
    assert s[1..][1..] == [];
  }
}

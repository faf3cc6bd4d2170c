/**
 * Session codes: the fixed alphabet codes are drawn from, and the normalisation
 * `code.upper().strip()` that every entry point applies to a code a client sends.
 */
module Codes {

  /** The alphabet of generate_session_code: A-Z without I and O, then 2-9 (32 characters). */
  const Alphabet: string := "ABCDEFGHJKLMNPQRSTUVWXYZ23456789"

  /** SESSION_CODE_LENGTH */
  const CodeLength: nat := 6

  /** A well-formed session code: six characters over the alphabet. */
  predicate IsCode(s: string) {
    |s| == CodeLength && forall i :: 0 <= i < |s| ==> s[i] in Alphabet
  }

  /** The alphabet leaves out the characters that are easy to confuse. */
  lemma AlphabetShape()
    ensures |Alphabet| == 32
    ensures forall i :: 0 <= i < |Alphabet| ==> ('A' <= Alphabet[i] <= 'Z' || '2' <= Alphabet[i] <= '9')
    ensures 'I' !in Alphabet && 'O' !in Alphabet && '0' !in Alphabet && '1' !in Alphabet
  {
    var letters, digits := "ABCDEFGHJKLMNPQRSTUVWXYZ", "23456789";
    assert Alphabet == letters + digits;
    assert forall i :: 0 <= i < |letters| ==> 'A' <= letters[i] <= 'Z' && letters[i] != 'I' && letters[i] != 'O';
    assert forall i :: 0 <= i < |digits| ==> '2' <= digits[i] <= '9';
  }

  /** Every character of a code is an upper-case letter or a digit from 2 to 9. */
  lemma CodeChars(c: string)
    requires IsCode(c)
    ensures forall i :: 0 <= i < |c| ==> 'A' <= c[i] <= 'Z' || '2' <= c[i] <= '9'
  {
    AlphabetShape();
    forall i | 0 <= i < |c|
      ensures 'A' <= c[i] <= 'Z' || '2' <= c[i] <= '9'
    {
      var j :| 0 <= j < |Alphabet| && Alphabet[j] == c[i];
    }
  }

  /** The characters Python's str.strip() removes (str.isspace). */
  predicate IsSpace(c: char) {
    || c == ' ' || ('\t' <= c <= '\r') || ('\U{1C}' <= c <= '\U{1F}') || c == '\U{85}'
    || c == '\U{A0}' || c == '\U{1680}' || ('\U{2000}' <= c <= '\U{200A}')
    || c == '\U{2028}' || c == '\U{2029}' || c == '\U{202F}' || c == '\U{205F}' || c == '\U{3000}'
  }

  /** str.upper() on the ASCII letters; other characters are kept. */
  function UpperChar(c: char): (u: char)
    ensures 'a' <= c <= 'z' ==> 'A' <= u <= 'Z' && u as int == c as int - 32
    ensures !('a' <= c <= 'z') ==> u == c
  {
    if 'a' <= c <= 'z' then (c as int - 32) as char else c
  }

  function Upper(s: string): (r: string)
    ensures |r| == |s|
    ensures forall i :: 0 <= i < |s| ==> r[i] == UpperChar(s[i])
  {
    seq(|s|, i requires 0 <= i < |s| => UpperChar(s[i]))
  }

  /** The number of whitespace characters at the front of s. */
  function LeadingSpaces(s: string): (n: nat)
    ensures n <= |s|
    ensures forall i :: 0 <= i < n ==> IsSpace(s[i])
    ensures n < |s| ==> !IsSpace(s[n])
  {
    if s == [] || !IsSpace(s[0]) then 0 else 1 + LeadingSpaces(s[1..])
  }

  /** The number of whitespace characters at the back of s. */
  function TrailingSpaces(s: string): (n: nat)
    ensures n <= |s|
    ensures forall i :: |s| - n <= i < |s| ==> IsSpace(s[i])
    ensures n < |s| ==> !IsSpace(s[|s| - 1 - n])
  {
    if s == [] || !IsSpace(s[|s| - 1]) then 0 else 1 + TrailingSpaces(s[..|s| - 1])
  }

  /**
   * str.strip(): the middle of s once the whitespace at both ends is cut off.
   * The ensures clauses pin the result down: it is the slice of s starting at
   * the first non-space character, it neither starts nor ends with whitespace,
   * and only whitespace lies outside it.
   */
  function Strip(s: string): (r: string)
    ensures LeadingSpaces(s) + |r| <= |s|
    ensures r == s[LeadingSpaces(s)..LeadingSpaces(s) + |r|]
    ensures forall i :: 0 <= i < |s| && !(LeadingSpaces(s) <= i < LeadingSpaces(s) + |r|) ==> IsSpace(s[i])
    ensures r == [] || (!IsSpace(r[0]) && !IsSpace(r[|r| - 1]))
    ensures r == [] <==> forall i :: 0 <= i < |s| ==> IsSpace(s[i])
  {
    var lead, trail := LeadingSpaces(s), TrailingSpaces(s);
    if lead == |s| then []
    else
      assert !IsSpace(s[lead]);
      assert lead + trail < |s|;
      s[lead..|s| - trail]
  }

  /**
   * `code.upper().strip()`: no longer than the input, no lower-case ASCII
   * letter left, and no whitespace at either end.
   */
  function Normalize(raw: string): (code: string)
    ensures |code| <= |raw|
    ensures forall i :: 0 <= i < |code| ==> !('a' <= code[i] <= 'z')
    ensures code == [] || (!IsSpace(code[0]) && !IsSpace(code[|code| - 1]))
  {
    Strip(Upper(raw))
  }

  /** Any slice of s with only whitespace around it and none at its ends is Strip(s). */
  lemma StripUnique(s: string, a: nat, r: string)
    requires a + |r| <= |s| && r == s[a..a + |r|]
    requires forall i :: 0 <= i < |s| && !(a <= i < a + |r|) ==> IsSpace(s[i])
    requires r == [] || (!IsSpace(r[0]) && !IsSpace(r[|r| - 1]))
    ensures Strip(s) == r
  {
    var t := Strip(s);
    var lead := LeadingSpaces(s);
    if r == [] {
      assert forall i :: 0 <= i < |s| ==> IsSpace(s[i]);
    } else {
      assert !IsSpace(s[a]);
      assert lead == a;
      assert !IsSpace(s[a + |r| - 1]) && !IsSpace(s[lead + |t| - 1]);
      assert |t| == |r|;
    }
  }

  lemma UpperIdempotent(s: string)
    ensures Upper(Upper(s)) == Upper(s)
  {
  }

  /** Upper keeps whitespace where it is, so it commutes with Strip. */
  lemma UpperStrip(s: string)
    ensures Upper(Strip(s)) == Strip(Upper(s))
  {
    var t := Strip(s);
    var a := LeadingSpaces(s);
    var u := Upper(s);
    UpperKeepsSpaces(s);
    assert Upper(t) == u[a..a + |t|];
    StripUnique(u, a, Upper(t));
  }

  /** Normalising twice is normalising once. */
  lemma NormalizeIdempotent(raw: string)
    ensures Normalize(Normalize(raw)) == Normalize(raw)
  {
    var n := Normalize(raw);
    UpperStrip(Upper(raw));
    UpperIdempotent(raw);
    StripUnique(n, 0, n);
  }

  /** Upper-casing neither makes nor removes whitespace. */
  lemma UpperKeepsSpaces(s: string)
    ensures forall i :: 0 <= i < |s| ==> (IsSpace(Upper(s)[i]) <==> IsSpace(s[i]))
  {
  }

  /** A code is its own normal form. */
  lemma NormalizeCode(c: string)
    requires IsCode(c)
    ensures Normalize(c) == c
  {
    CodeChars(c);
    assert Upper(c) == c;
    StripUnique(c, 0, c);
  }

  /**
   * Codes are case-insensitive on input: any spelling of a code whose letters
   * upper-case to the code's, with whitespace around it, normalises to the code.
   */
  lemma NormalizeVariant(c: string, pre: string, typed: string, post: string)
    requires IsCode(c)
    requires forall i :: 0 <= i < |pre| ==> IsSpace(pre[i])
    requires forall i :: 0 <= i < |post| ==> IsSpace(post[i])
    requires |typed| == |c| && forall i :: 0 <= i < |c| ==> UpperChar(typed[i]) == c[i]
    ensures Normalize(pre + typed + post) == c
  {
    var s := pre + typed + post;
    var u := Upper(s);
    CodeChars(c);
    UpperKeepsSpaces(s);
    assert u[|pre|..|pre| + |c|] == c;
    forall i | 0 <= i < |s| && !(|pre| <= i < |pre| + |c|)
      ensures IsSpace(u[i])
    {
      if i < |pre| { assert s[i] == pre[i]; } else { assert s[i] == post[i - |pre| - |c|]; }
    }
    assert !IsSpace(c[0]) && !IsSpace(c[|c| - 1]);
    StripUnique(u, |pre|, c);
  }
}

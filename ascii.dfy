/** ASCII case classification and case mapping: the part of Python's
    str.isupper, str.lower and str.upper that the steganography core relies
    on. Characters outside 'A'..'Z' and 'a'..'z' have no case and map to
    themselves. */
module Ascii {

  predicate IsUpper(c: char) { 'A' <= c <= 'Z' }

  predicate IsLower(c: char) { 'a' <= c <= 'z' }

  predicate IsLetter(c: char) { IsUpper(c) || IsLower(c) }

  /** Python's ch.lower() on one ASCII character. */
  function Lower(c: char): (r: char)
    ensures !IsUpper(r)
    ensures IsLetter(c) <==> IsLower(r)
    ensures !IsUpper(c) ==> r == c
  {
    if IsUpper(c) then (c as int + ('a' as int - 'A' as int)) as char else c
  }

  /** Python's ch.upper() on one ASCII character. */
  function Upper(c: char): (r: char)
    ensures !IsLower(r)
    ensures IsLetter(c) <==> IsUpper(r)
    ensures !IsLower(c) ==> r == c
  {
    if IsLower(c) then (c as int - ('a' as int - 'A' as int)) as char else c
  }

  /** Python's ch.isupper() for one character: the character is cased and
      is its own upper-case form. */
  lemma IsUpperCased(c: char)
    ensures IsUpper(c) <==> Lower(c) != c && Upper(c) == c
  {
  }

  /** Lower and Upper are inverse on letters and agree up to case everywhere. */
  lemma CaseRoundTrip(c: char)
    ensures Lower(Upper(c)) == Lower(c)
    ensures Upper(Lower(c)) == Upper(c)
    ensures IsLower(c) ==> Lower(Upper(c)) == c
    ensures IsUpper(c) ==> Upper(Lower(c)) == c
  {
  }
}

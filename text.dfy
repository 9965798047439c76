/** Case folding used when a book title is matched ignoring case. */
module Text {

  predicate IsUpper(c: char) {
    'A' <= c <= 'Z'
  }

  /** Lower-cases one ASCII letter; every other character is left as it is. */
  function LowerChar(c: char): (r: char)
    ensures !IsUpper(r)
    ensures !IsUpper(c) ==> r == c
    ensures IsUpper(c) ==> 'a' <= r <= 'z' && r as int - c as int == 'a' as int - 'A' as int
  {
    if IsUpper(c) then (c as int - 'A' as int + 'a' as int) as char else c
  }

  /** The string with every character lower-cased, position by position. */
  function Lower(s: string): (r: string)
    ensures |r| == |s|
    ensures forall i :: 0 <= i < |s| ==> r[i] == LowerChar(s[i])
  {
    if s == [] then [] else [LowerChar(s[0])] + Lower(s[1..])
  }

  /** Two strings that differ only in the case of their letters lower-case alike. */
  lemma {:induction false} LowerIgnoresCase(s: string, t: string)
    requires |s| == |t|
    requires forall i :: 0 <= i < |s| ==> s[i] == t[i] || LowerChar(s[i]) == t[i] || s[i] == LowerChar(t[i])
    ensures Lower(s) == Lower(t)
  {
    forall i | 0 <= i < |s|
      ensures Lower(s)[i] == Lower(t)[i]
    {
      assert LowerChar(LowerChar(s[i])) == LowerChar(s[i]);
      assert LowerChar(LowerChar(t[i])) == LowerChar(t[i]);
    }
  }
}

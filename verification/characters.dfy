/** Character classes in the C locale, and the longest prefix in a class. */
module Characters {
  const CRLF: string := "\r\n"

  predicate IsEndOfLine(c: char) { c == '\r' || c == '\n' }

  predicate NotEndOfLine(c: char) { !IsEndOfLine(c) }

  predicate IsBlank(c: char) { c == ' ' || c == '\t' }

  predicate IsUpper(c: char) { 'A' <= c <= 'Z' }

  predicate IsAlpha(c: char) { 'A' <= c <= 'Z' || 'a' <= c <= 'z' }

  predicate IsDigit(c: char) { '0' <= c <= '9' }

  predicate IsHexDigit(c: char) { '0' <= c <= '9' || 'a' <= c <= 'f' || 'A' <= c <= 'F' }

  function ToLower(c: char): char {
    if IsUpper(c) then c - 'A' + 'a' else c
  }

  function Lowercase(s: string): (r: string)
    ensures |r| == |s|
    ensures forall i :: 0 <= i < |s| ==> r[i] == ToLower(s[i])
  {
    seq(|s|, i requires 0 <= i < |s| => ToLower(s[i]))
  }

  ghost predicate All(p: char -> bool, s: string) {
    forall i :: 0 <= i < |s| ==> p(s[i])
  }

  /** The longest prefix of `s` whose characters all satisfy `p`. */
  function TakeWhile(p: char -> bool, s: string): (r: string)
    ensures r <= s && All(p, r)
    ensures |r| < |s| ==> !p(s[|r|])
  {
    if s == [] || !p(s[0]) then [] else [s[0]] + TakeWhile(p, s[1..])
  }

  lemma {:induction false} TakeWhileAll(p: char -> bool, w: string, more: string)
    requires All(p, w)
    requires more == [] || !p(more[0])
    ensures TakeWhile(p, w + more) == w
    ensures (w + more)[|w|..] == more
  {
    var t := TakeWhile(p, w + more);
    assert forall i :: 0 <= i < |w| ==> (w + more)[i] == w[i];
    assert more != [] ==> (w + more)[|w|] == more[0];
    assert |t| == |w|;
  }

  /** Whether `word` occurs somewhere in `s` (std::string::find != npos). */
  predicate Contains(s: string, word: string) {
    word <= s || (s != [] && Contains(s[1..], word))
  }

  /** Whether `word` is what `s` reads from index `i` on. */
  predicate ReadsAt(s: string, i: int, word: string) {
    0 <= i <= |s| - |word| && s[i..i + |word|] == word
  }

  /** What Contains means: the word is read from some index on. */
  lemma {:induction false} ContainsExactly(s: string, word: string)
    ensures Contains(s, word) <==> exists i :: ReadsAt(s, i, word)
  {
    if word <= s {
      assert ReadsAt(s, 0, word);
    } else if s != [] {
      ContainsExactly(s[1..], word);
      if i :| ReadsAt(s[1..], i, word) {
        assert ReadsAt(s, i + 1, word);
      }
    }
    if i :| ReadsAt(s, i, word) {
      if i > 0 {
        assert ReadsAt(s[1..], i - 1, word);
      } else {
        assert s[0..|word|] == s[..|word|];
      }
    }
  }

  /** The classes of the C locale, listed. */
  lemma ClassesAreListed(c: char)
    ensures IsEndOfLine(c) <==> c in "\r\n"
    ensures IsBlank(c) <==> c in " \t"
    ensures IsDigit(c) <==> c in "0123456789"
    ensures IsUpper(c) <==> c in "ABCDEFGHIJKLMNOPQRSTUVWXYZ"
    ensures IsAlpha(c) <==> c in "ABCDEFGHIJKLMNOPQRSTUVWXYZ" || c in "abcdefghijklmnopqrstuvwxyz"
    ensures IsHexDigit(c) <==> c in "0123456789" || c in "abcdef" || c in "ABCDEF"
  {
    UpperCaseIsListed(c);
    LowerCaseLettersAreListed(c);
    DigitsAreListed(c);
  }

  lemma UpperCaseIsListed(c: char)
    ensures IsUpper(c) <==> c in "ABCDEFGHIJKLMNOPQRSTUVWXYZ"
  {
  }

  lemma LowerCaseLettersAreListed(c: char)
    ensures 'a' <= c <= 'z' <==> c in "abcdefghijklmnopqrstuvwxyz"
  {
  }

  lemma DigitsAreListed(c: char)
    ensures IsDigit(c) <==> c in "0123456789"
  {
  }

  /** Lower case, letter by letter; anything else is left alone. */
  lemma LowerCaseIsListed(c: char)
    ensures var upper, lower := "ABCDEFGHIJKLMNOPQRSTUVWXYZ", "abcdefghijklmnopqrstuvwxyz";
            && (forall i :: 0 <= i < 26 && c == upper[i] ==> ToLower(c) == lower[i])
            && (c !in upper ==> ToLower(c) == c)
  {
  }
}

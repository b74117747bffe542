/** C strings: the terminating NUL is not part of the text. */
module CString {
  /** The character at i; the terminator stands past the end. */
  function CharAt(text: string, i: int): char {
    if 0 <= i < |text| then text[i] else '\0'
  }

  /** Whether s stands in the text at pos. */
  predicate At(text: string, pos: nat, s: string) {
    pos + |s| <= |text| && text[pos..pos + |s|] == s
  }

  lemma AtAppend(text: string, pos: nat, s: string, t: string)
    requires At(text, pos, s + t)
    ensures At(text, pos, s) && At(text, pos + |s|, t)
  {
    var u := text[pos..pos + |s + t|];
    assert text[pos..pos + |s|] == u[..|s|];
    assert text[pos + |s|..pos + |s| + |t|] == u[|s|..];
  }

  predicate IsDigit(c: char) {
    '0' <= c <= '9'
  }
}

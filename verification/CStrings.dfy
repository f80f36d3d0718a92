/** Text as the kernel passes it around: characters up to a NUL. */
module CStrings {
  /** A C string with what follows it in memory: some character is NUL. */
  type CString = s: string | '\0' in s witness "\0"

  /** Its text, the characters before the first NUL. */
  function CText(s: CString): (text: string)
    ensures |text| < |s| && text == s[..|text|] && s[|text|] == '\0' && '\0' !in text
  {
    if s[0] == '\0' then "" else [s[0]] + CText(s[1..])
  }

  /** Whatever follows the terminator, the text is what stands before it. */
  lemma {:induction false} TextBeforeNul(text: string, rest: string)
    requires '\0' !in text
    ensures '\0' in text + "\0" + rest && CText(text + "\0" + rest) == text
  {
    var s := text + "\0" + rest;
    assert s[|text|] == '\0';
    assert s[..|text|] == text;
  }

  /** Storing a text with its terminator loses nothing. */
  lemma {:induction false} TextOfStored(text: string)
    requires '\0' !in text
    ensures CText(text + "\0") == text
  {
    var s := text + "\0";
    assert s[|text|] == '\0';
    assert s[..|text|] == text;
  }
}

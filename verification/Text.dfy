/** Character classes shared by the text-handling modules. */
module Text {
  /** The white space of Unicode, as the program's trimming and splitting see it. */
  predicate IsSpace(c: char) {
    || '\t' <= c <= '\r' || c == ' ' || c == '\U{85}' || c == '\U{A0}' || c == '\U{1680}'
    || '\U{2000}' <= c <= '\U{200A}' || c == '\U{2028}' || c == '\U{2029}' || c == '\U{202F}'
    || c == '\U{205F}' || c == '\U{3000}'
  }

  predicate Blank(s: string) {
    forall i :: 0 <= i < |s| ==> IsSpace(s[i])
  }

  /** The 25 characters with the White_Space property of Unicode. */
  const WHITE_SPACE :=
    "\t\n\U{0B}\U{0C}\r \U{85}\U{A0}\U{1680}\U{2000}\U{2001}\U{2002}\U{2003}\U{2004}\U{2005}\U{2006}\U{2007}"
    + "\U{2008}\U{2009}\U{200A}\U{2028}\U{2029}\U{202F}\U{205F}\U{3000}"

  lemma WhiteSpaceExactly(c: char)
    ensures IsSpace(c) <==> c in WHITE_SPACE
    ensures |WHITE_SPACE| == 25
  {
    var s := WHITE_SPACE;
    assert s[0] == '\t' && s[1] == '\n' && s[2] == '\U{0B}' && s[3] == '\U{0C}' && s[4] == '\r' && s[5] == ' ';
    assert forall k :: 9 <= k <= 19 ==> s[k] == (0x2000 + (k - 9)) as char;
    if '\U{2000}' <= c <= '\U{200A}' { assert s[9 + (c as int - 0x2000)] == c; }
  }
}

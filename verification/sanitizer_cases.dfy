/** Worked examples of the sanitizer, proved. */
module SanitizerCases {
  import opened Sanitizer

  lemma MarkupPieces(s: string, a: string, t1: string, w: string, t2: string, b: string)
    requires s == "  <b>Hi</b> there  "
    requires a == "  " && t1 == "b" && w == "Hi" && t2 == "/b" && b == " there  "
    ensures s == a + ("<" + t1 + ">" + (w + ("<" + t2 + ">" + b)))
    ensures a + (w + b) == "  Hi there  "
  {
  }

  lemma MarkupStrip()
    ensures StripTags("  <b>Hi</b> there  ") == "  Hi there  "
  {
    var s := "  <b>Hi</b> there  ";
    var a, t1, w, t2, b := "  ", "b", "Hi", "/b", " there  ";
    MarkupPieces(s, a, t1, w, t2, b);
    StripTagsAroundWord(a, t1, w, t2, b);
  }

  lemma MarkupTrimStart()
    ensures TrimStart("  Hi there  ") == "Hi there  "
  {
    var t := "  Hi there  ";
    assert IsSpace(t[0]) && IsSpace(t[1]) && !IsSpace(t[2]);
    var k := |t| - |TrimStart(t)|;
    assert k == 2;
    assert t[2..] == "Hi there  ";
  }

  lemma MarkupTrimEnd()
    ensures TrimEnd("Hi there  ") == "Hi there"
  {
    var u := "Hi there  ";
    assert IsSpace(u[9]) && IsSpace(u[8]) && !IsSpace(u[7]);
    assert |TrimEnd(u)| == 8;
    assert u[..8] == "Hi there";
  }

  /** The markup example: tags are removed and the ends trimmed; the inner
      space survives. */
  lemma SanitizeStripsMarkup()
    ensures Sanitize("  <b>Hi</b> there  ") == "Hi there"
  {
    var s := "  <b>Hi</b> there  ";
    MarkupStrip();
    MarkupTrimStart();
    MarkupTrimEnd();
  }

  lemma ComparisonPieces(s: string, a: string, t: string, b: string)
    requires s == "1 < 2 and 3 > 2"
    requires a == "1 " && t == " 2 and 3 " && b == " 2"
    ensures s == a + ("<" + t + ">" + b)
    ensures a + b == "1  2"
  {
  }

  /** A `<` and a later `>` delimit a tag even when they are comparison
      signs in ordinary text. */
  lemma SanitizeEatsComparison()
    ensures Sanitize("1 < 2 and 3 > 2") == "1  2"
  {
    ComparisonStrip();
    var r := "1  2";
    assert |r| == 4 && r[0] == '1' && r[3] == '2';
    TrimFixesTrimmed(r);
  }

  /** Tag removal on the comparison example. */
  lemma ComparisonStrip()
    ensures StripTags("1 < 2 and 3 > 2") == "1  2"
  {
    var s := "1 < 2 and 3 > 2";
    var a, t, b := "1 ", " 2 and 3 ", " 2";
    ComparisonPieces(s, a, t, b);
    StripTagsAroundTag(a, t, b);
  }

  /** A `<` with no `>` after it is kept. */
  lemma SanitizeKeepsUnclosedTag()
    ensures Sanitize("a <b") == "a <b"
  {
    var s := "a <b";
    assert '>' !in s;
    StripTagsFixesTagFree(s);
    TrimFixesTrimmed(s);
  }
}

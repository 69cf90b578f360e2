/** Input sanitization: tag stripping with the pattern `<[^>]*>` (global),
    followed by trimming of leading and trailing white space. */
module Sanitizer {
  import opened Json

  /** The code points removed by `String.prototype.trim`: the white-space
      characters (tab, vertical tab, form feed, space, no-break space, byte
      order mark, the space separators) and the line terminators. */
  predicate IsSpace(c: char) {
    var x := c as int;
    || (9 <= x <= 13)
    || x == 0x20 || x == 0xA0 || x == 0x1680
    || (0x2000 <= x <= 0x200A)
    || x == 0x2028 || x == 0x2029 || x == 0x202F || x == 0x205F
    || x == 0x3000 || x == 0xFEFF
  }

  /** No `<` in `s` is followed, anywhere later, by a `>`: the tag pattern
      has nothing left to match. */
  predicate NoTag(s: string) {
    forall i, j :: 0 <= i < j < |s| && s[i] == '<' ==> s[j] != '>'
  }

  /** Neither end of `s` is white space. */
  predicate IsTrimmed(s: string) {
    s == [] || (!IsSpace(s[0]) && !IsSpace(s[|s| - 1]))
  }

  /** Position of the first occurrence of `c` in `s`. */
  function IndexOf(s: string, c: char): (i: nat)
    requires c in s
    ensures i < |s| && s[i] == c
    ensures forall j :: 0 <= j < i ==> s[j] != c
  {
    if s[0] == c then 0 else 1 + IndexOf(s[1..], c)
  }

  /** Removes every match of `<[^>]*>`, scanning left to right: at a `<`
      that some later `>` follows, everything through the first such `>` is
      dropped; a `<` with no `>` after it ends the matching, and the rest is
      kept verbatim. */
  function StripTags(s: string): (r: string)
    ensures |r| <= |s|
    decreases |s|
  {
    if s == [] then []
    else if s[0] == '<' then
      if '>' in s[1..] then StripTags(s[IndexOf(s[1..], '>') + 2..])
      else s
    else [s[0]] + StripTags(s[1..])
  }

  /** Drops white space from the front. */
  function TrimStart(s: string): (r: string)
    ensures |r| <= |s| && r == s[|s| - |r|..]
    ensures r == [] || !IsSpace(r[0])
    ensures forall i :: 0 <= i < |s| - |r| ==> IsSpace(s[i])
  {
    if s != [] && IsSpace(s[0]) then TrimStart(s[1..]) else s
  }

  /** Drops white space from the back. */
  function TrimEnd(s: string): (r: string)
    ensures |r| <= |s| && r == s[..|r|]
    ensures r == [] || !IsSpace(r[|r| - 1])
    ensures forall i :: |r| <= i < |s| ==> IsSpace(s[i])
  {
    if s != [] && IsSpace(s[|s| - 1]) then TrimEnd(s[..|s| - 1]) else s
  }

  /** `String.prototype.trim`: the longest slice of `s` without white space
      at either end, obtained by removing white space only. */
  function Trim(s: string): (r: string)
    ensures IsTrimmed(r)
    ensures var a := |s| - |TrimStart(s)|; a + |r| <= |s| && r == s[a..a + |r|]
    ensures r == [] ==> forall i :: 0 <= i < |s| ==> IsSpace(s[i])
    ensures forall i :: |s| - |TrimStart(s)| + |r| <= i < |s| ==> IsSpace(s[i])
  {
    var t := TrimStart(s);
    var r := TrimEnd(t);
    TrimBothEnds(s, t, r);
    r
  }

  /** Trimming the back of what is left after trimming the front gives a
      slice of the original, white space at neither end, and nothing only
      when the original was all white space. */
  lemma TrimBothEnds(s: string, t: string, r: string)
    requires |t| <= |s| && t == s[|s| - |t|..] && (t == [] || !IsSpace(t[0]))
    requires forall i :: 0 <= i < |s| - |t| ==> IsSpace(s[i])
    requires |r| <= |t| && r == t[..|r|] && (r == [] || !IsSpace(r[|r| - 1]))
    requires forall i :: |r| <= i < |t| ==> IsSpace(t[i])
    ensures IsTrimmed(r)
    ensures |s| - |t| + |r| <= |s| && r == s[|s| - |t|..|s| - |t| + |r|]
    ensures r == [] ==> forall i :: 0 <= i < |s| ==> IsSpace(s[i])
    ensures forall i :: |s| - |t| + |r| <= i < |s| ==> IsSpace(s[i])
  {
    var a := |s| - |t|;
    assert t == s[a..];
    assert r == t[..|r|];
    assert r == s[a..a + |r|] by {
      assert s[a..][..|r|] == s[a..a + |r|];
    }
    if r != [] {
      assert r[0] == t[0];
    }
    forall i | a + |r| <= i < |s|
      ensures IsSpace(s[i])
    {
      assert t[i - a] == s[i];
    }
  }

  /** `sanitizeInput` on a string: tags stripped, then trimmed. */
  function Sanitize(s: string): (r: string)
    ensures IsTrimmed(r)
    ensures NoTag(r)
    ensures |r| <= |s|
  {
    var t := StripTags(s);
    StripTagsNoTag(s);
    var r := Trim(t);
    var a := |t| - |TrimStart(t)|;
    NoTagSlice(t, a, a + |r|);
    r
  }

  /** `sanitizeInput`: any value that is not a string sanitizes to "". */
  function SanitizeInput(input: Raw): (r: string)
    ensures !input.Str? ==> r == ""
    ensures input.Str? ==> IsTrimmed(r) && NoTag(r)
  {
    if input.Str? then Sanitize(input.s) else ""
  }

  /** After stripping, no `<` is followed by a `>`. */
  lemma {:induction false} StripTagsNoTag(s: string)
    ensures NoTag(StripTags(s))
    decreases |s|
  {
    if s == [] {
    } else if s[0] == '<' {
      if '>' in s[1..] {
        StripTagsNoTag(s[IndexOf(s[1..], '>') + 2..]);
      }
    } else {
      StripTagsNoTag(s[1..]);
    }
  }

  /** A slice of a tag-free string is tag-free. */
  lemma NoTagSlice(s: string, a: nat, b: nat)
    requires a <= b <= |s|
    requires NoTag(s)
    ensures NoTag(s[a..b])
  {
    var t := s[a..b];
    forall i, j | 0 <= i < j < |t| && t[i] == '<'
      ensures t[j] != '>'
    {
      assert t[i] == s[a + i] && t[j] == s[a + j];
    }
  }

  /** Tag stripping leaves a tag-free string untouched. */
  lemma {:induction false} StripTagsFixesTagFree(s: string)
    requires NoTag(s)
    ensures StripTags(s) == s
    decreases |s|
  {
    if s == [] {
    } else if s[0] == '<' {
      assert '>' !in s[1..];
    } else {
      NoTagSlice(s, 1, |s|);
      StripTagsFixesTagFree(s[1..]);
      assert [s[0]] + s[1..] == s;
    }
  }

  /** Text before the first `<` is kept as it is. */
  lemma {:induction false} StripTagsKeepsText(a: string, b: string)
    requires '<' !in a
    ensures StripTags(a + b) == a + StripTags(b)
    decreases |a|
  {
    if a != [] {
      assert a[0] in a;
      assert (a + b)[0] == a[0] != '<';
      assert (a + b)[1..] == a[1..] + b;
      assert StripTags(a + b) == [a[0]] + StripTags(a[1..] + b);
      StripTagsKeepsText(a[1..], b);
      assert a == [a[0]] + a[1..];
    } else {
      assert a + b == b;
    }
  }

  /** A `<`, then text without `>`, then `>` is one tag and is dropped. */
  lemma StripTagsDropsTag(t: string, b: string)
    requires '>' !in t
    ensures StripTags("<" + t + ">" + b) == StripTags(b)
  {
    var s := "<" + t + ">" + b;
    assert s[1..] == t + ">" + b;
    assert s[1..][|t|] == '>';
    var j := IndexOf(s[1..], '>');
    assert j == |t|;
    assert s[j + 2..] == b;
  }

  /** One tag between tag-free texts leaves the two texts. */
  lemma StripTagsAroundTag(a: string, t: string, b: string)
    requires '<' !in a && '<' !in b && '>' !in t
    ensures StripTags(a + ("<" + t + ">" + b)) == a + b
  {
    StripTagsKeepsText(b, "");
    assert b + "" == b;
    StripTagsDropsTag(t, b);
    StripTagsKeepsText(a, "<" + t + ">" + b);
  }

  /** Two tags around a word, with tag-free text before and after, leave
      the three pieces of text. */
  lemma StripTagsAroundWord(a: string, t1: string, w: string, t2: string, b: string)
    requires '<' !in a && '<' !in w && '<' !in b
    requires '>' !in t1 && '>' !in t2
    ensures StripTags(a + ("<" + t1 + ">" + (w + ("<" + t2 + ">" + b)))) == a + (w + b)
  {
    StripTagsKeepsText(b, "");
    assert b + "" == b;
    StripTagsDropsTag(t2, b);
    StripTagsKeepsText(w, "<" + t2 + ">" + b);
    StripTagsDropsTag(t1, w + ("<" + t2 + ">" + b));
    StripTagsKeepsText(a, "<" + t1 + ">" + (w + ("<" + t2 + ">" + b)));
  }

  /** Trimming leaves a trimmed string untouched. */
  lemma TrimFixesTrimmed(s: string)
    requires IsTrimmed(s)
    ensures Trim(s) == s
  {
    assert TrimStart(s) == s;
    assert TrimEnd(s) == s;
  }

  /** The strings sanitizing leaves unchanged are exactly the tag-free
      strings without white space at either end. */
  lemma SanitizeFixedPoints(s: string)
    ensures Sanitize(s) == s <==> NoTag(s) && IsTrimmed(s)
  {
    if NoTag(s) && IsTrimmed(s) {
      StripTagsFixesTagFree(s);
      TrimFixesTrimmed(s);
    }
  }

  /** Sanitizing twice is the same as sanitizing once. */
  lemma SanitizeIdempotent(s: string)
    ensures Sanitize(Sanitize(s)) == Sanitize(s)
  {
    var r := Sanitize(s);
    StripTagsFixesTagFree(r);
    TrimFixesTrimmed(r);
  }

  /** The same, for the loosely typed entry point. */
  lemma SanitizeInputIdempotent(input: Raw)
    ensures SanitizeInput(Str(SanitizeInput(input))) == SanitizeInput(input)
  {
    if input.Str? {
      SanitizeIdempotent(input.s);
    } else {
      assert Sanitize("") == "";
    }
  }
}

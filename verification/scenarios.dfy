/** Worked examples of the store on small inputs, proved. */
module Scenarios {
  import opened Wrappers
  import opened Json
  import opened Sanitizer
  import opened Text
  import opened Notes
  import opened Ordering
  import opened NoteStore
  import opened SanitizerCases

  /** Content that sanitizes to nothing, or is not a string, is refused. */
  lemma CreateRejectsEmptyContent(slot: Option<Raw>, freshId: string, now: int)
    ensures CreateNote(slot, Str(""), Str("https://e.com"), Str("T"), freshId, now).Err?
    ensures CreateNote(slot, Num(5), Str("https://e.com"), Str("T"), freshId, now).Err?
  {
    assert Sanitize("") == "";
  }

  /** A stored note with empty content still passes `isValidNote`. */
  lemma EmptyContentIsValid()
    ensures IsValidNote(Encode(Note("a", "", "https://e.com", "", 1, 1)))
  {
    EncodeValidIff(Note("a", "", "https://e.com", "", 1, 1));
  }

  /** A collection of two notes under their own ids. */
  function Pair(older: Note, newer: Note): map<string, Raw> {
    map[older.id := Encode(older), newer.id := Encode(newer)]
  }

  /** Sorting a list that holds exactly two notes of different ages puts
      the newer first. */
  lemma SortedPair(g: seq<Note>, newer: Note, older: Note)
    requires SortedDesc(g)
    requires multiset(g) == multiset{newer, older}
    requires newer.createdAt > older.createdAt
    ensures g == [newer, older]
  {
    assert |g| == |multiset(g)| == 2;
    assert g[0] in multiset(g) && g[1] in multiset(g);
    assert g[0] == newer;
    assert g[1] in multiset{newer, older} - multiset{newer};
  }

  /** The keys holding each note in a two-note collection. */
  lemma PairHolding(older: Note, newer: Note, n: Note)
    requires WellFormed(older) && WellFormed(newer)
    requires older.id != newer.id && older != newer
    ensures |KeysHolding(Pair(older, newer), n)| == if n == older || n == newer then 1 else 0
  {
    var m := Pair(older, newer);
    EncodeValidIff(older);
    EncodeValidIff(newer);
    ReadEncode(older);
    ReadEncode(newer);
    if n == older {
      assert KeysHolding(m, n) == {older.id};
    } else if n == newer {
      assert KeysHolding(m, n) == {newer.id};
    } else {
      assert KeysHolding(m, n) == {};
    }
  }

  /** A two-note collection loads back unchanged. */
  lemma PairLoads(older: Note, newer: Note)
    requires WellFormed(older) && WellFormed(newer)
    ensures Load(Persist(Pair(older, newer))) == Pair(older, newer)
  {
    EncodeValidIff(older);
    EncodeValidIff(newer);
    LoadPersist(Pair(older, newer));
  }

  /** `getNotesByUrl` on a two-note collection returns the two notes. */
  lemma PairListed(older: Note, newer: Note)
    requires WellFormed(older) && WellFormed(newer)
    requires older.id != newer.id && older.url == newer.url && older != newer
    ensures multiset(GetNotesByUrl(Persist(Pair(older, newer)), older.url)) == multiset{newer, older}
  {
    var m := Pair(older, newer);
    PairLoads(older, newer);
    var g := GetNotesByUrl(Persist(m), older.url);
    GetNotesByUrlCount(Persist(m), older.url);
    forall n ensures multiset(g)[n] == multiset{newer, older}[n] {
      PairHolding(older, newer, n);
    }
  }

  /** Two valid notes for one url, stored under their own ids, come back
      from `getNotesByUrl` newest first. */
  lemma GetPairNewestFirst(older: Note, newer: Note)
    requires WellFormed(older) && WellFormed(newer)
    requires older.id != newer.id && older.url == newer.url
    requires newer.createdAt > older.createdAt
    ensures GetNotesByUrl(Persist(Pair(older, newer)), older.url) == [newer, older]
  {
    PairListed(older, newer);
    GetNotesByUrlSorted(Persist(Pair(older, newer)), older.url);
    SortedPair(GetNotesByUrl(Persist(Pair(older, newer)), older.url), newer, older);
  }

  /** Loading never compares a key with the id of the note under it. With
      two notes stored under each other's ids, deleting `x.id` removes `y`,
      and `getNotesByUrl` still returns `x`, whose id was just deleted. */
  lemma SwappedKeysOutliveDelete(x: Note, y: Note)
    requires WellFormed(x) && WellFormed(y) && x.id != y.id
    ensures var slot := Persist(map[x.id := Encode(y), y.id := Encode(x)]);
      && DeleteNote(slot, x.id).Ok?
      && x in GetNotesByUrl(Persist(DeleteNote(slot, x.id).value), x.url)
  {
    var m := map[x.id := Encode(y), y.id := Encode(x)];
    AllValidLoads(m, x, y);
    var left := DeleteNote(Persist(m), x.id).value;
    assert y.id in left && left[y.id] == Encode(x);
    LoadPersist(left);
    ReadEncode(x);
    HeldIsListed(Persist(left), y.id, x);
  }

  /** Any collection of two well-formed notes loads back unchanged. */
  lemma AllValidLoads(m: map<string, Raw>, x: Note, y: Note)
    requires WellFormed(x) && WellFormed(y)
    requires forall k :: k in m ==> m[k] == Encode(x) || m[k] == Encode(y)
    ensures Load(Persist(m)) == m
  {
    EncodeValidIff(x);
    EncodeValidIff(y);
    LoadPersist(m);
  }

  /** A note some loaded key holds is listed for its url. */
  lemma HeldIsListed(slot: Option<Raw>, k: string, x: Note)
    requires k in Load(slot) && ReadNote(Load(slot)[k]) == x
    ensures x in GetNotesByUrl(slot, x.url)
  {
    GetNotesByUrlMembers(slot, x.url);
  }

  /** Updating an id that is not stored fails, and so does an update whose
      content sanitizes to nothing. */
  lemma UpdateRefused(slot: Option<Raw>, id: string, now: int)
    requires id !in Load(slot)
    ensures UpdateNote(slot, id, Str("x"), now).Err?
    ensures UpdateNote(Persist(Load(slot)), id, Str("<p>"), now).Err?
  {
    assert StripTags("<p>") == [] by {
      assert "<p>"[0] == '<';
      assert '>' in "<p>"[1..];
    }
    assert Sanitize("<p>") == "";
  }

  /** Text without `<` and without white space at either end is kept by
      the sanitizer as it is. */
  lemma PlainKept(s: string)
    requires '<' !in s && s != [] && !IsSpace(s[0]) && !IsSpace(s[|s| - 1])
    ensures Sanitize(s) == s
  {
    SanitizeFixedPoints(s);
  }

  /** Creating a note from marked-up content stores the sanitized text;
      a url and title without tags or outer white space are kept as
      given. */
  lemma CreateStoresSanitized(slot: Option<Raw>, freshId: string, now: int)
    ensures CreateNote(slot, Str("  <b>Hi</b> there  "), Str("https://e.com/x"), Str("T"), freshId, now).Ok?
    ensures var n := CreateNote(slot, Str("  <b>Hi</b> there  "), Str("https://e.com/x"), Str("T"), freshId, now).value.value;
      n.content == "Hi there" && n.url == "https://e.com/x" && n.pageTitle == "T"
  {
    SanitizeExampleInputs();
  }

  /** The three inputs of the create example, sanitized. */
  lemma SanitizeExampleInputs()
    ensures SanitizeInput(Str("  <b>Hi</b> there  ")) == "Hi there"
    ensures SanitizeInput(Str("https://e.com/x")) == "https://e.com/x"
    ensures SanitizeInput(Str("T")) == "T"
  {
    SanitizeStripsMarkup();
    ExampleUrlKept();
    ExampleTitleKept();
  }

  /** The example title has no tag and no outer white space. */
  lemma ExampleTitleKept()
    ensures Sanitize("T") == "T"
  {
    var title := "T";
    assert |title| == 1 && title[0] == 'T';
    PlainKept(title);
  }

  /** The example url has no tag and no outer white space. */
  lemma ExampleUrlKept()
    ensures Sanitize("https://e.com/x") == "https://e.com/x"
  {
    var url := "https://e.com/x";
    assert url[0] == 'h' && url[|url| - 1] == 'x';
    PlainKept(url);
  }

  /** A list holding exactly two different notes is one of their two
      orders. */
  lemma TwoOrders(g: seq<Note>, a: Note, b: Note)
    requires multiset(g) == multiset{a, b} && a != b
    ensures g == [a, b] || g == [b, a]
  {
    assert |g| == |multiset(g)| == 2;
    assert g[0] in multiset(g) && g[1] in multiset(g);
    if g[0] == a {
      assert g[1] in multiset{a, b} - multiset{a};
    } else {
      assert g[1] in multiset{a, b} - multiset{b};
    }
  }

  /** A two-letter query of non-space characters is not blank. */
  lemma TwoLettersNotBlank(q: string)
    requires |q| == 2 && !IsSpace(q[0]) && !IsSpace(q[1])
    ensures !Blank(q)
  {
    TrimFixesTrimmed(q);
  }

  /** "hi" is not blank and is its own lower case. */
  lemma HiNotBlank()
    ensures !Blank("hi") && Lower("hi") == "hi"
  {
    var q := "hi";
    assert q[0] == 'h' && q[1] == 'i';
    TwoLettersNotBlank(q);
    var lq := Lower(q);
    assert lq[0] == 'h' && lq[1] == 'i';
  }

  /** "hi" matches the content "Hi there", ignoring case. */
  lemma HiMatches(a: Note)
    requires a.content == "Hi there"
    ensures Matches("hi")(a)
  {
    var q := "hi";
    assert a.content[0] == 'H' && a.content[1] == 'i';
    assert q[0] == 'h' && q[1] == 'i';
    LeadingHi(a.content, q);
  }

  /** Text starting "Hi" includes "hi" once both are lower-cased. */
  lemma LeadingHi(c: string, q: string)
    requires |c| >= 2 && c[0] == 'H' && c[1] == 'i'
    requires |q| == 2 && q[0] == 'h' && q[1] == 'i'
    ensures Includes(Lower(c), Lower(q))
  {
    var lc := Lower(c);
    var lq := Lower(q);
    assert lq == lc[0..][..2];
  }

  /** "hi" matches neither the content "Bye" nor the title "T". */
  lemma HiMissesBye(b: Note)
    requires b.content == "Bye" && b.pageTitle == "T"
    ensures !Matches("hi")(b)
  {
    var q := "hi";
    assert q[0] == 'h' && q[1] == 'i';
    assert b.content[0] == 'B' && b.content[1] == 'y' && b.content[2] == 'e';
    HiMissesLetters(b.content, b.pageTitle, q);
  }

  /** A three-letter "Bye" and a one-letter title do not include a
      two-letter query starting with 'h', ignoring case. */
  lemma HiMissesLetters(c: string, t: string, q: string)
    requires |c| == 3 && c[0] == 'B' && c[1] == 'y' && c[2] == 'e' && |t| == 1
    requires |q| == 2 && q[0] == 'h'
    ensures !Includes(Lower(c), Lower(q)) && !Includes(Lower(t), Lower(q))
  {
    var lc := Lower(c);
    var lq := Lower(q);
    assert lq[0] == 'h';
    assert lc[0] == 'b' && lc[1] == 'y' && lc[2] == 'e';
    FirstLetterAbsent(lc, lq);
    assert |Lower(t)| < |lq|;
  }

  /** A text none of whose characters is the first character of the
      needle does not include the needle. */
  lemma FirstLetterAbsent(hay: string, needle: string)
    requires needle != [] && forall j :: 0 <= j < |hay| ==> hay[j] != needle[0]
    ensures !Includes(hay, needle)
  {
    forall i | 0 <= i <= |hay| ensures !(needle <= hay[i..]) {
      if i < |hay| {
        assert hay[i..][0] == hay[i];
      }
    }
  }

  /** Filtering a two-element list in either order keeps the one element
      that passes. */
  lemma SelectOneOfTwo(p: Note -> bool, a: Note, b: Note)
    requires p(a) && !p(b)
    ensures Select(p, [a, b]) == [a] && Select(p, [b, a]) == [a]
  {
    SelectCons(p, a, []);
    SelectCons(p, b, []);
    SelectCons(p, a, [b]);
    SelectCons(p, b, [a]);
    assert [a] + [b] == [a, b] && [b] + [a] == [b, a];
    assert [a] + [] == [a] && [b] + [] == [b];
  }

  /** Searching "hi" among a note "Hi there" and a note "Bye" for the same
      url finds only the first: matching ignores case. */
  lemma SearchHiFindsFirst(a: Note, b: Note)
    requires WellFormed(a) && WellFormed(b) && a.id != b.id && a.url == b.url
    requires a.content == "Hi there" && b.content == "Bye"
    requires a.pageTitle == "T" && b.pageTitle == "T"
    ensures SearchNotes(Persist(Pair(a, b)), "hi", a.url) == [a]
  {
    var q := "hi";
    var slot := Persist(Pair(a, b));
    assert a != b by { assert a.content[0] != b.content[0]; }
    HiNotBlank();
    HiMatches(a);
    HiMissesBye(b);
    SearchIsFilteredGet(slot, q, a.url);
    PairListed(a, b);
    TwoOrders(GetNotesByUrl(slot, a.url), b, a);
    SelectOneOfTwo(Matches(q), a, b);
  }
}

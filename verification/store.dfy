/** The note store: five operations, each a load, filter, change, persist
    cycle over the whole collection held under one storage key. The value
    under the key is passed in as `slot` and the collection an operation
    would write back is returned; `Persist` turns it into the next `slot`. */
module NoteStore {
  import opened Wrappers
  import opened Json
  import opened Sanitizer
  import opened Text
  import opened Notes
  import opened Ordering

  /** What a writing operation returns to its caller, with the collection
      it persists. */
  datatype Saved<T> = Saved(value: T, notes: map<string, Raw>)

  // ---------------------------------------------------------------------
  // Enumeration of the collection (`Object.values`)
  // ---------------------------------------------------------------------

  /** Some key of a non-empty collection. */
  ghost function PickKey(m: map<string, Raw>): (k: string)
    requires m != map[]
    ensures k in m
  {
    var k :| k in m; k
  }

  /** The notes of a valid collection in the engine's enumeration order,
      which the model leaves unspecified. */
  ghost function Listing(m: map<string, Raw>): seq<Note>
    requires AllValid(m)
    decreases m.Keys
  {
    if m == map[] then []
    else
      var k := PickKey(m);
      [ReadNote(m[k])] + Listing(m - {k})
  }

  /** The keys under which the collection holds note `n`. */
  ghost function KeysHolding(m: map<string, Raw>, n: Note): set<string> {
    set k | k in m && IsValidNote(m[k]) && ReadNote(m[k]) == n
  }

  /** Removing key `k` removes `k`, and only `k`, from the keys holding a
      note. */
  lemma KeysHoldingRemove(m: map<string, Raw>, k: string, n: Note)
    requires AllValid(m) && k in m
    ensures |KeysHolding(m, n)| == |KeysHolding(m - {k}, n)| + if ReadNote(m[k]) == n then 1 else 0
  {
    var m' := m - {k};
    var K := KeysHolding(m, n);
    var K' := KeysHolding(m', n);
    forall j ensures j in K' <==> j in K && j != k {
      if j in m' {
        assert m'[j] == m[j];
      }
    }
    if ReadNote(m[k]) == n {
      assert K == K' + {k};
    } else {
      assert K == K';
    }
  }

  /** The enumeration lists every stored note once per key holding it. */
  lemma {:induction false} ListingCount(m: map<string, Raw>, n: Note)
    requires AllValid(m)
    ensures multiset(Listing(m))[n] == |KeysHolding(m, n)|
    decreases m.Keys
  {
    if m != map[] {
      var k := PickKey(m);
      var m' := m - {k};
      assert Listing(m) == [ReadNote(m[k])] + Listing(m');
      ListingCount(m', n);
      KeysHoldingRemove(m, k, n);
    }
  }

  // ---------------------------------------------------------------------
  // getNotesByUrl
  // ---------------------------------------------------------------------

  /** The filter `note => note.url === url`. */
  function UrlIs(url: string): Note -> bool {
    (n: Note) => n.url == url
  }

  /** `getNotesByUrl`: the valid notes whose url equals `url` verbatim,
      newest first. It reads the store and writes nothing. */
  ghost function GetNotesByUrl(slot: Option<Raw>, url: string): seq<Note> {
    SortDesc(Select(UrlIs(url), Listing(Load(slot))))
  }

  /** `getNotesByUrl` returns its notes newest first. */
  lemma GetNotesByUrlSorted(slot: Option<Raw>, url: string)
    ensures SortedDesc(GetNotesByUrl(slot, url))
  {
  }

  /** `getNotesByUrl` returns each valid stored note with the given url
      exactly as often as keys hold it, and nothing else: a permutation of
      the matching entries. */
  lemma GetNotesByUrlCount(slot: Option<Raw>, url: string)
    ensures forall n :: (multiset(GetNotesByUrl(slot, url))[n] ==
      if n.url == url then |KeysHolding(Load(slot), n)| else 0)
  {
    var m := Load(slot);
    var r := GetNotesByUrl(slot, url);
    SelectCount(UrlIs(url), Listing(m));
    forall n: Note ensures multiset(r)[n] == if n.url == url then |KeysHolding(m, n)| else 0 {
      ListingCount(m, n);
    }
  }

  /** A note is returned by `getNotesByUrl` exactly when it has the given
      url and some valid entry holds it; every returned note is well
      formed. */
  lemma GetNotesByUrlMembers(slot: Option<Raw>, url: string)
    ensures forall n :: n in GetNotesByUrl(slot, url) <==>
      n.url == url && exists k :: k in Load(slot) && ReadNote(Load(slot)[k]) == n
    ensures forall n :: n in GetNotesByUrl(slot, url) ==> WellFormed(n)
  {
    var m := Load(slot);
    var r := GetNotesByUrl(slot, url);
    GetNotesByUrlCount(slot, url);
    forall n: Note ensures n in r <==> n.url == url && exists k :: k in m && ReadNote(m[k]) == n {
      assert n in r <==> multiset(r)[n] > 0;
      if n in r {
        var k :| k in KeysHolding(m, n);
      }
      if n.url == url && exists k :: k in m && ReadNote(m[k]) == n {
        var k :| k in m && ReadNote(m[k]) == n;
        assert k in KeysHolding(m, n);
      }
    }
  }

  // ---------------------------------------------------------------------
  // searchNotes
  // ---------------------------------------------------------------------

  /** The query is empty or white space only. */
  predicate Blank(query: string) {
    Trim(query) == ""
  }

  /** The search filter: the lower-cased content or page title includes the
      lower-cased query, which is not trimmed. */
  function Matches(query: string): Note -> bool {
    (n: Note) => Includes(Lower(n.content), Lower(query)) || Includes(Lower(n.pageTitle), Lower(query))
  }

  /** `searchNotes`: the notes with the given url, further filtered by the
      query unless it is blank, newest first. */
  ghost function SearchNotes(slot: Option<Raw>, query: string, url: string): seq<Note> {
    var byUrl := Select(UrlIs(url), Listing(Load(slot)));
    var hits := if !Blank(query) then Select(Matches(query), byUrl) else byUrl;
    SortDesc(hits)
  }

  /** A search returns exactly `getNotesByUrl` for a blank query, and
      otherwise the matching notes of `getNotesByUrl` in the same order. */
  lemma SearchIsFilteredGet(slot: Option<Raw>, query: string, url: string)
    ensures Blank(query) ==> SearchNotes(slot, query, url) == GetNotesByUrl(slot, url)
    ensures !Blank(query) ==> SearchNotes(slot, query, url) == Select(Matches(query), GetNotesByUrl(slot, url))
  {
    if !Blank(query) {
      SelectSortCommute(Matches(query), Select(UrlIs(url), Listing(Load(slot))));
    }
  }

  /** Search results are newest first. */
  lemma SearchNotesSorted(slot: Option<Raw>, query: string, url: string)
    ensures SortedDesc(SearchNotes(slot, query, url))
  {
  }

  /** Every search result is a result of `getNotesByUrl`, at most as often. */
  lemma SearchNotesWithinGet(slot: Option<Raw>, query: string, url: string)
    ensures forall n :: multiset(SearchNotes(slot, query, url))[n] <= multiset(GetNotesByUrl(slot, url))[n]
    ensures forall n :: n in SearchNotes(slot, query, url) ==> n in GetNotesByUrl(slot, url)
  {
    SearchIsFilteredGet(slot, query, url);
    if !Blank(query) {
      SelectWithin(Matches(query), GetNotesByUrl(slot, url));
    }
  }

  /** For a non-blank query, a note is a search result exactly when
      `getNotesByUrl` returns it and its lower-cased content or page title
      includes the lower-cased query. */
  lemma SearchNotesMatches(slot: Option<Raw>, query: string, url: string)
    requires !Blank(query)
    ensures forall n :: n in SearchNotes(slot, query, url) <==>
      n in GetNotesByUrl(slot, url) &&
      (Includes(Lower(n.content), Lower(query)) || Includes(Lower(n.pageTitle), Lower(query)))
  {
    SearchIsFilteredGet(slot, query, url);
    SelectMembers(Matches(query), GetNotesByUrl(slot, url));
  }

  // ---------------------------------------------------------------------
  // createNote
  // ---------------------------------------------------------------------

  /** `createNote` with the clock reading `now` and the generated id
      `freshId`. The id is not checked against the stored keys. */
  function CreateNote(slot: Option<Raw>, content: Raw, url: Raw, pageTitle: Raw,
                      freshId: string, now: int): (r: Result<Saved<Note>>)
    ensures r.Ok? <==> SanitizeInput(content) != "" && SanitizeInput(url) != ""
    ensures r.Ok? ==>
      var n := r.value.value;
      && n.id == freshId
      && n.content == SanitizeInput(content)
      && n.url == SanitizeInput(url)
      && n.pageTitle == SanitizeInput(pageTitle)
      && n.createdAt == now && n.updatedAt == now
    ensures r.Ok? ==>
      && r.value.notes.Keys == Load(slot).Keys + {freshId}
      && Shaped(r.value.notes[freshId]) && ReadNote(r.value.notes[freshId]) == r.value.value
      && forall k :: k in Load(slot) && k != freshId ==> r.value.notes[k] == Load(slot)[k]
    ensures r.Ok? ==> (IsValidNote(r.value.notes[freshId]) <==> freshId != "" && now > 0)
  {
    var c := SanitizeInput(content);
    var u := SanitizeInput(url);
    var t := SanitizeInput(pageTitle);
    if c == "" then Err
    else if u == "" then Err
    else
      var note := Note(freshId, c, u, t, now, now);
      ReadEncode(note);
      EncodeValidIff(note);
      Ok(Saved(note, Load(slot)[freshId := Encode(note)]))
  }

  /** After a successful create, `getNotesByUrl` for the note's url returns
      the new note, provided the id is non-empty and the clock positive. */
  lemma CreateThenGet(slot: Option<Raw>, content: Raw, url: Raw, pageTitle: Raw,
                      freshId: string, now: int)
    requires freshId != "" && now > 0
    requires CreateNote(slot, content, url, pageTitle, freshId, now).Ok?
    ensures var s := CreateNote(slot, content, url, pageTitle, freshId, now).value;
      s.value in GetNotesByUrl(Persist(s.notes), s.value.url)
  {
    var s := CreateNote(slot, content, url, pageTitle, freshId, now).value;
    var v := s.notes[freshId];
    assert s.notes == Load(slot)[freshId := v];
    ReloadAfterWrite(Load(slot), freshId, v);
    GetNotesByUrlMembers(Persist(s.notes), s.value.url);
  }

  // ---------------------------------------------------------------------
  // updateNote
  // ---------------------------------------------------------------------

  /** The two assignments `updateNote` makes to the stored object: the new
      content and `updatedAt = now`. Every other property is kept. */
  function Touch(stored: Raw, content: string, now: int): (r: Raw)
    requires IsValidNote(stored)
    ensures Shaped(r)
    ensures ReadNote(r) == ReadNote(stored).(content := content, updatedAt := now)
    ensures forall f :: f in stored.fields && f != "content" && f != "updatedAt" ==>
      f in r.fields && r.fields[f] == stored.fields[f]
    ensures IsValidNote(r) <==> now >= ReadNote(stored).createdAt
  {
    Obj(stored.fields["content" := Str(content)]["updatedAt" := Num(now)])
  }

  /** `updateNote` with the clock reading `now`: the stored object under
      `id` gets the sanitized content and `updatedAt = now`; everything else
      in it, and every other entry, stays as loaded. */
  function UpdateNote(slot: Option<Raw>, id: string, content: Raw, now: int): (r: Result<Saved<Note>>)
    ensures r.Ok? <==> SanitizeInput(content) != "" && id in Load(slot)
    ensures r.Ok? ==>
      var before := ReadNote(Load(slot)[id]);
      var n := r.value.value;
      && n.id == before.id && n.url == before.url && n.pageTitle == before.pageTitle
      && n.createdAt == before.createdAt
      && n.content == SanitizeInput(content) && n.updatedAt == now
    ensures r.Ok? ==>
      && r.value.notes.Keys == Load(slot).Keys
      && (forall k :: k in Load(slot) && k != id ==> r.value.notes[k] == Load(slot)[k])
      && r.value.notes[id] == Touch(Load(slot)[id], SanitizeInput(content), now)
      && ReadNote(r.value.notes[id]) == r.value.value
  {
    var c := SanitizeInput(content);
    if c == "" then Err
    else
      var notes := Load(slot);
      if id !in notes then Err
      else
        var changed := Touch(notes[id], c, now);
        Ok(Saved(ReadNote(changed), notes[id := changed]))
  }

  /** Reloading after an update keeps every entry, unless the clock went
      back before the note's creation, in which case the updated note is
      dropped as invalid. */
  lemma UpdateThenReload(slot: Option<Raw>, id: string, content: Raw, now: int)
    requires UpdateNote(slot, id, content, now).Ok?
    ensures var s := UpdateNote(slot, id, content, now).value;
      Load(Persist(s.notes)) ==
        if now >= s.value.createdAt then s.notes else s.notes - {id}
  {
    var s := UpdateNote(slot, id, content, now).value;
    ReloadAfterWrite(Load(slot), id, s.notes[id]);
  }

  /** Persisting a valid collection with one entry replaced and loading it
      back keeps the new entry exactly when it is valid. */
  lemma ReloadAfterWrite(m: map<string, Raw>, id: string, v: Raw)
    requires AllValid(m)
    ensures Load(Persist(m[id := v])) == if IsValidNote(v) then m[id := v] else m - {id}
  {
    var w := m[id := v];
    LoadPersist(w);
    var back := FilterValidNotes(Obj(w));
    if IsValidNote(v) {
      assert back.Keys == w.Keys;
    } else {
      assert back.Keys == m.Keys - {id};
    }
  }

  /** When the clock has not gone back since the last write, an update
      moves `updatedAt` forward from both stored timestamps. */
  lemma UpdateMonotone(slot: Option<Raw>, id: string, content: Raw, now: int)
    requires UpdateNote(slot, id, content, now).Ok?
    requires now >= ReadNote(Load(slot)[id]).updatedAt
    ensures var n := UpdateNote(slot, id, content, now).value.value;
      && n.updatedAt >= ReadNote(Load(slot)[id]).createdAt
      && n.updatedAt >= ReadNote(Load(slot)[id]).updatedAt
      && WellFormed(n)
  {
  }

  // ---------------------------------------------------------------------
  // deleteNote
  // ---------------------------------------------------------------------

  /** `deleteNote`: the loaded collection without `id`. */
  function DeleteNote(slot: Option<Raw>, id: string): (r: Result<map<string, Raw>>)
    ensures r.Ok? <==> id in Load(slot)
    ensures r.Ok? ==> r.value.Keys == Load(slot).Keys - {id}
    ensures r.Ok? ==> forall k :: k in r.value ==> r.value[k] == Load(slot)[k]
  {
    var notes := Load(slot);
    if id !in notes then Err
    else Ok(notes - {id})
  }

  /** Deleting the same id a second time fails. */
  lemma DeleteTwiceFails(slot: Option<Raw>, id: string)
    requires DeleteNote(slot, id).Ok?
    ensures DeleteNote(Persist(DeleteNote(slot, id).value), id).Err?
  {
    LoadPersist(DeleteNote(slot, id).value);
  }

  // ---------------------------------------------------------------------
  // Keys and ids
  // ---------------------------------------------------------------------

  /** Every valid entry is stored under its own id, as `createNote` stores
      it. Loading never checks this. */
  ghost predicate KeysAreIds(m: map<string, Raw>) {
    forall k :: k in m && IsValidNote(m[k]) ==> ReadNote(m[k]).id == k
  }

  /** Create keeps every valid entry under its own id. */
  lemma CreateKeepsKeysAreIds(slot: Option<Raw>, content: Raw, url: Raw, pageTitle: Raw,
                              freshId: string, now: int)
    requires KeysAreIds(Load(slot))
    requires CreateNote(slot, content, url, pageTitle, freshId, now).Ok?
    ensures KeysAreIds(Load(Persist(CreateNote(slot, content, url, pageTitle, freshId, now).value.notes)))
  {
    var m := CreateNote(slot, content, url, pageTitle, freshId, now).value.notes;
    LoadPersist(m);
  }

  /** Update keeps every valid entry under its own id. */
  lemma UpdateKeepsKeysAreIds(slot: Option<Raw>, id: string, content: Raw, now: int)
    requires KeysAreIds(Load(slot))
    requires UpdateNote(slot, id, content, now).Ok?
    ensures KeysAreIds(Load(Persist(UpdateNote(slot, id, content, now).value.notes)))
  {
    var m := UpdateNote(slot, id, content, now).value.notes;
    LoadPersist(m);
  }

  /** Delete keeps every valid entry under its own id. */
  lemma DeleteKeepsKeysAreIds(slot: Option<Raw>, id: string)
    requires KeysAreIds(Load(slot))
    requires DeleteNote(slot, id).Ok?
    ensures KeysAreIds(Load(Persist(DeleteNote(slot, id).value)))
  {
    LoadPersist(DeleteNote(slot, id).value);
  }

  /** Once `id` is deleted, no later `getNotesByUrl` returns a note with
      that id, provided every entry was stored under its own id. */
  lemma DeleteThenGet(slot: Option<Raw>, id: string, url: string)
    requires KeysAreIds(Load(slot))
    requires DeleteNote(slot, id).Ok?
    ensures forall n :: n in GetNotesByUrl(Persist(DeleteNote(slot, id).value), url) ==> n.id != id
  {
    var m := DeleteNote(slot, id).value;
    LoadPersist(m);
    GetNotesByUrlMembers(Persist(m), url);
  }
}

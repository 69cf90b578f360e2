/** Note records, the structural validator and the filtered load of the
    stored collection. */
module Notes {
  import opened Wrappers
  import opened Json

  /** A typed view of a stored note object. */
  datatype Note = Note(
    id: string,
    content: string,
    url: string,
    pageTitle: string,
    createdAt: int,
    updatedAt: int)

  /** The constraints a stored note must meet: non-empty id and url,
      positive timestamps, and no update before creation. Content and page
      title may be empty. */
  predicate WellFormed(n: Note) {
    && n.id != ""
    && n.url != ""
    && n.createdAt > 0
    && n.updatedAt > 0
    && n.updatedAt >= n.createdAt
  }

  /** The object literal the store writes for a note. */
  function Encode(n: Note): Raw {
    Obj(map[
      "id" := Str(n.id),
      "content" := Str(n.content),
      "url" := Str(n.url),
      "pageTitle" := Str(n.pageTitle),
      "createdAt" := Num(n.createdAt),
      "updatedAt" := Num(n.updatedAt)])
  }

  /** `v` is an object whose six note properties have the right types. */
  predicate Shaped(v: Raw) {
    && StringAt(v, "id")
    && StringAt(v, "content")
    && StringAt(v, "url")
    && StringAt(v, "pageTitle")
    && NumberAt(v, "createdAt")
    && NumberAt(v, "updatedAt")
  }

  /** Reads the six note properties of a shaped object. */
  function ReadNote(v: Raw): Note
    requires Shaped(v)
  {
    var f := v.fields;
    Note(f["id"].s, f["content"].s, f["url"].s, f["pageTitle"].s,
         f["createdAt"].n, f["updatedAt"].n)
  }

  /** `isValidNote`: a truthy object whose properties pass each check in
      turn. */
  predicate IsValidNote(note: Raw)
    ensures IsValidNote(note) <==> Shaped(note) && WellFormed(ReadNote(note))
  {
    if !Truthy(note) || !note.Obj? then false
    else if !StringAt(note, "id") || !Truthy(note.fields["id"]) then false
    else if !StringAt(note, "content") then false
    else if !StringAt(note, "url") || !Truthy(note.fields["url"]) then false
    else if !StringAt(note, "pageTitle") then false
    else if !NumberAt(note, "createdAt") || note.fields["createdAt"].n <= 0 then false
    else if !NumberAt(note, "updatedAt") || note.fields["updatedAt"].n <= 0 then false
    else if note.fields["updatedAt"].n < note.fields["createdAt"].n then false
    else true
  }

  /** Reading back what `Encode` wrote gives the note again. */
  lemma ReadEncode(n: Note)
    ensures Shaped(Encode(n))
    ensures ReadNote(Encode(n)) == n
  {
  }

  /** An encoded note passes `isValidNote` exactly when it is well formed. */
  lemma EncodeValidIff(n: Note)
    ensures IsValidNote(Encode(n)) <==> WellFormed(n)
  {
    ReadEncode(n);
  }

  /** Every entry of the map passes `isValidNote`. */
  ghost predicate AllValid(m: map<string, Raw>) {
    forall k :: k in m ==> IsValidNote(m[k])
  }

  /** `filterValidNotes`: the entries of an object whose values pass
      `isValidNote`, under their original keys. Anything that is not a
      truthy object gives the empty map. The key is never compared with the
      note's `id` property. */
  function FilterValidNotes(notes: Raw): (r: map<string, Raw>)
    ensures AllValid(r)
    ensures !notes.Obj? ==> r == map[]
    ensures notes.Obj? ==> forall k :: k in r <==> k in notes.fields && IsValidNote(notes.fields[k])
    ensures forall k :: k in r ==> notes.Obj? && k in notes.fields && r[k] == notes.fields[k]
  {
    if !Truthy(notes) || !notes.Obj? then map[]
    else map k | k in notes.fields && IsValidNote(notes.fields[k]) :: notes.fields[k]
  }

  /** Filtering an already filtered collection changes nothing. */
  lemma FilterValidNotesIdempotent(notes: Raw)
    ensures FilterValidNotes(Obj(FilterValidNotes(notes))) == FilterValidNotes(notes)
  {
  }

  /** Filtering is the identity exactly on all-valid collections. */
  lemma FilterValidNotesFixes(m: map<string, Raw>)
    ensures FilterValidNotes(Obj(m)) == m <==> AllValid(m)
  {
    if AllValid(m) {
      assert FilterValidNotes(Obj(m)).Keys == m.Keys;
    }
  }

  /** The collection an operation works on: the value under the storage key,
      or `{}` when the key is absent or its value falsy, with invalid entries
      dropped. */
  function Load(slot: Option<Raw>): (r: map<string, Raw>)
    ensures AllValid(r)
    ensures slot.None? ==> r == map[]
    ensures slot.Some? ==> r == FilterValidNotes(slot.value)
  {
    FilterValidNotes(if slot.Some? && Truthy(slot.value) then slot.value else Obj(map[]))
  }

  /** The value written back under the storage key. */
  function Persist(notes: map<string, Raw>): Option<Raw> {
    Some(Obj(notes))
  }

  /** Loading a persisted collection yields its valid entries; an all-valid
      collection round-trips unchanged. */
  lemma LoadPersist(m: map<string, Raw>)
    ensures Load(Persist(m)) == FilterValidNotes(Obj(m))
    ensures AllValid(m) ==> Load(Persist(m)) == m
  {
    FilterValidNotesFixes(m);
  }
}

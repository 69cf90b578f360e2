/** `deleteNote` as written looks the id up with `notes[id]` on a plain
    object, and `updateNote` does the same, so the lookup also sees the
    members every object inherits. */
module Findings {
  import opened Wrappers
  import opened Json
  import opened Sanitizer
  import opened Notes
  import opened NoteStore

  /** The property names a plain object inherits: for these, `notes[id]` is
      a function or an object, hence truthy, whatever the collection holds. */
  const InheritedNames: set<string> := {
    "constructor", "__proto__", "__defineGetter__", "__defineSetter__",
    "__lookupGetter__", "__lookupSetter__", "hasOwnProperty", "isPrototypeOf",
    "propertyIsEnumerable", "toString", "toLocaleString", "valueOf"
  }

  /** `deleteNote` as written: the not-found check is a truthiness test of
      `notes[id]`, and `delete` of a name the object does not own removes
      nothing. */
  function DeleteAsWritten(slot: Option<Raw>, id: string): (r: Result<map<string, Raw>>)
    ensures r.Ok? <==> id in Load(slot) || id in InheritedNames
    ensures r.Ok? ==> r.value.Keys == Load(slot).Keys - {id}
    ensures r.Ok? ==> forall k :: k in r.value ==> r.value[k] == Load(slot)[k]
  {
    var notes := Load(slot);
    if id !in notes && id !in InheritedNames then Err
    else Ok(notes - {id})
  }

  /** For every other id the code as written behaves as intended. */
  lemma DeleteAsWrittenAgrees(slot: Option<Raw>, id: string)
    requires id !in InheritedNames
    ensures DeleteAsWritten(slot, id) == DeleteNote(slot, id)
  {
  }

  /** On an empty store, deleting "toString" succeeds, and succeeds again
      the second time, although no such note exists; the intended
      operation fails both times. */
  lemma DeleteInheritedNameSucceeds()
    ensures DeleteAsWritten(None, "toString").Ok?
    ensures DeleteAsWritten(Persist(DeleteAsWritten(None, "toString").value), "toString").Ok?
    ensures DeleteNote(None, "toString").Err?
  {
    assert "toString" in InheritedNames;
  }

  /** `updateNote` as written, reduced to the collection it persists: the
      not-found check is the same truthiness test of `notes[id]`, so an
      inherited name passes it; the two assignments then land on the
      inherited member, which is not saved, and what is returned is that
      member rather than a note. */
  function UpdateAsWritten(slot: Option<Raw>, id: string, content: Raw, now: int): (r: Result<map<string, Raw>>)
    ensures r.Ok? <==> SanitizeInput(content) != "" && (id in Load(slot) || id in InheritedNames)
    ensures r.Ok? && id !in Load(slot) ==> r.value == Load(slot)
  {
    var c := SanitizeInput(content);
    var notes := Load(slot);
    if c == "" then Err
    else if id in notes then Ok(UpdateNote(slot, id, content, now).value.notes)
    else if id in InheritedNames then Ok(notes)
    else Err
  }

  /** For every other id the code as written persists what the intended
      operation persists. */
  lemma UpdateAsWrittenAgrees(slot: Option<Raw>, id: string, content: Raw, now: int)
    requires id !in InheritedNames
    ensures UpdateAsWritten(slot, id, content, now).Ok? <==> UpdateNote(slot, id, content, now).Ok?
    ensures UpdateAsWritten(slot, id, content, now).Ok? ==>
      UpdateAsWritten(slot, id, content, now).value == UpdateNote(slot, id, content, now).value.notes
  {
  }

  /** On a store without a note under "toString", updating "toString"
      with any content that survives sanitizing succeeds and leaves the
      collection as loaded; the intended operation fails. */
  lemma UpdateInheritedNameSucceeds(slot: Option<Raw>, content: Raw, now: int)
    requires SanitizeInput(content) != ""
    requires "toString" !in Load(slot)
    ensures UpdateAsWritten(slot, "toString", content, now) == Ok(Load(slot))
    ensures UpdateNote(slot, "toString", content, now).Err?
  {
    assert "toString" in InheritedNames;
  }
}

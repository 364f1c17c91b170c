/**
 * The three operations notes.py registers with its command server:
 * `list_notes`, `get_note` and `search`. The transport, registration and
 * `async` plumbing are not modelled; each operation receives the directory
 * it would read.
 */
module NoteCommands {
  import opened NoteRepository
  import opened NoteSearch

  /** The errors a caller can see. */
  datatype Error =
    | NotFound(name: string)   // `ValueError("Note with name ... not found")`
    | TypeError                // a call with the wrong number of arguments

  datatype Result<+T> = Ok(value: T) | Err(error: Error)

  /** `list_notes`: the enumeration, whatever filter argument it is given. */
  method ListNotes(dir: Directory, noteName: Option<string>) returns (notes: seq<Note>)
    ensures notes == Enumerate(dir)
  {
    notes := GetNotes(dir);
  }

  /** `get_note`: the note stored as `<name>.json`, or NotFound exactly when the
      lookup gives None (the file is missing or fails to parse). */
  function GetNote(dir: Directory, name: string): (r: Result<Note>)
    requires '/' !in name
    ensures r.Err? <==> GetNoteByName(dir, name) == None
    ensures r.Err? ==> r.error == NotFound(name)
    ensures r.Ok? ==> GetNoteByName(dir, name) == Some(r.value)
  {
    match GetNoteByName(dir, name)
    case None => Err(NotFound(name))
    case Some(n) => Ok(n)
  }

  /** A listed, parseable `<name>.json` is returned unchanged; a listed file that
      fails to parse is reported as NotFound, not as a parse error. */
  lemma GetNoteOfListedFile(dir: Directory, name: string, i: nat)
    requires '/' !in name && UniqueNames(dir)
    requires i < |dir| && dir[i].filename == NoteFileName(name)
    ensures dir[i].content.Parsed? ==> GetNote(dir, name) == Ok(dir[i].content.note)
    ensures dir[i].content.Failed? ==> GetNote(dir, name) == Err(NotFound(name))
  {
    LookupListedFile(dir, name, i);
  }

  /** A name with no file behind it is reported as NotFound. */
  lemma GetNoteOfMissingFile(dir: Directory, name: string)
    requires '/' !in name
    requires forall i :: 0 <= i < |dir| ==> dir[i].filename != NoteFileName(name)
    ensures GetNote(dir, name) == Err(NotFound(name))
  {
    LookupMissingFile(dir, name);
  }

  /** `search_notes` as written: it calls `get_notes` with one argument, which
      `get_notes` does not accept, so every call raises TypeError before any note
      is read. */
  function SearchNotesAsWritten(dir: Directory, query: string, noteName: Option<string>): (r: Result<seq<Note>>)
    ensures r == Err(TypeError)
  {
    Err(TypeError)
  }

  /** `search`, with `search_notes` calling `get_notes()` as evidently intended:
      the notes of the enumeration that the query selects, whatever the filter
      argument. It never fails. */
  method Search(dir: Directory, query: string, noteName: Option<string>) returns (notes: seq<Note>)
    ensures notes == SearchNotes(query, Enumerate(dir))
  {
    var all := GetNotes(dir);
    notes := SearchNotes(query, all);
  }

  /** The searched notes are among the enumerated ones, in the same order. */
  lemma SearchWithinEnumeration(dir: Directory, query: string)
    ensures IsSubsequence(SearchNotes(query, Enumerate(dir)), Enumerate(dir))
    ensures |SearchNotes(query, Enumerate(dir))| <= |Enumerate(dir)|
  {
    SubsequenceLength(SearchNotes(query, Enumerate(dir)), Enumerate(dir));
  }
}

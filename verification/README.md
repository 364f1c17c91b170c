# Note store model

A Dafny model of `notes.py`, a read-only note store. It serves JSON notes, one file
`<name>.json` per note in a flat directory, through three commands: `list_notes`,
`get_note` and `search`.

The filesystem and the JSON parser are abstracted. A directory is the sequence of
its entries in the order the filesystem lists them. Each entry is a file name and
the outcome of opening and parsing that file: `Parsed(note)`, or `Failed` for an
unreadable, malformed or partially written file. A note is a map from field names
to strings.

- `text.dfy` (module `Text`): ASCII lower-casing and substring containment (`q in s`).
  Containment is proved equal to the positional definition.
- `repository.dfy` (module `NoteRepository`): the `*.json` glob, and the enumeration
  loop `get_notes` proved against `Enumerate`. Also the directory as a name-to-content
  map, and the lookup `get_note_by_name`.
- `search.dfy` (module `NoteSearch`): the case-insensitive filter of `search_notes`.
  It is specified as a subsequence of its input that holds each matching note as
  often as the input does, and no other note.
- `commands.dfy` (module `NoteCommands`): the `list_notes`, `get_note` and `search`
  commands, and `search_notes` as written (see Findings).
- `scenario.dfy` (module `NoteScenario`): a two-note directory (`alpha`, `beta`) and
  a "Hello World" note, with what each command gives on them.

The code falls short of its own docstrings in three places. The model follows the code
in the second and third; for the first it keeps both versions. First, `search_notes` is
documented as returning the matching notes (notes.py:58), yet the code raises
`TypeError` on every call (see Findings). The model keeps the behaviour as written as
`SearchNotesAsWritten`. `Search` is the intended behaviour, and the rest of the model
uses it. Second, `list_notes` is documented as listing all notes (notes.py:72), but
`get_notes` scans with the glob `*.json` (notes.py:25-27), which skips names starting
with a dot. `get_note_by_name` builds the path directly (notes.py:42-48), so
`get_note(".x")` returns the note in `.x.json` while `list_notes` never shows it.
`HiddenNoteNotListed` and `HiddenFileNotScanned` state this, and
`LookupVisibleIsEnumerated` holds only for names that are non-empty and do not start
with a dot. Third, `list_notes` is documented as "optionally filtered by note_name"
(notes.py:72) and `search_notes` as able to "filter by user_id" (notes.py:57), but
neither filter exists: `list_notes` calls `get_notes()` without its argument
(notes.py:73), and `search_notes` has no `user_id` parameter. `ListNotes` and `Search`
take `noteName` and ignore it, as notes.py:73 does and as the intended notes.py:61
would.

## Model

| member | source | states |
|---|---|---|
| `Text.Lower` | notes.py:60-66 | lower-casing keeps the length and maps every character through ASCII case folding |
| `Text.LowerIdempotent` | notes.py:60-66 | lower-casing an already lower-cased string changes nothing |
| `Text.LowerOfUpper` | notes.py:60-66 | upper-casing a string first does not change its lower-cased form |
| `Text.Contains` | notes.py:65-66 | `q in s` on strings; a string is contained only in one at least as long |
| `Text.ContainsIff` | notes.py:65-66 | `q in s` holds exactly when `q` occurs at some position of `s` (both directions) |
| `Text.ContainsLowered` | notes.py:60-66 | a verbatim occurrence still occurs once both sides are lower-cased |
| `NoteRepository.NoteFileName` | notes.py:42 | the file of note `name` is `name` followed by `.json`, with nothing else added |
| `NoteRepository.GlobMatches` | notes.py:25-27 | the `*.json` pattern as glob applies it; a matching name has a non-empty stem before `.json` |
| `NoteRepository.NoteFileNameMatches` | notes.py:25-27 | the file of a note matches `*.json` exactly when the note's name is non-empty and does not start with a dot |
| `NoteRepository.Glob` | notes.py:25-27 | no more files are scanned than the directory holds |
| `NoteRepository.GlobMembership` | notes.py:25-27 | the scanned files are exactly the directory's entries whose names match `*.json` (both directions) |
| `NoteRepository.ParsedNotes` | notes.py:27-33 | processing a list of files yields at most one note per file |
| `NoteRepository.NotesOf` | notes.py:28-33 | one file contributes at most one note: its parsed content, or nothing when it fails |
| `NoteRepository.ParsedNotesAppend` | notes.py:27-33 | the notes of two consecutive runs of files are the notes of the first run followed by those of the second |
| `NoteRepository.FailedFileSkipped` | notes.py:28-33 | a file that fails adds nothing, and the files after it are still processed |
| `NoteRepository.ParsedNotesMembership` | notes.py:27-33 | a note is collected exactly when some processed file parsed to it |
| `NoteRepository.EnumerateMembership` | notes.py:24-35 | enumeration holds a note exactly when some matching file of the directory parsed to it (both directions) |
| `NoteRepository.Enumerate` | notes.py:19-35 | what enumeration returns: the parsed notes of the matching files in scan order, never more than there are matching files |
| `NoteRepository.GetNotes` | notes.py:19-35 | the loop appends, in scan order, the note of every matching file that parses and skips every failure; the result equals `Enumerate(dir)` and the loop never fails |
| `NoteRepository.FileMap` | notes.py:42-44 | the name-to-content map has exactly the directory's file names as keys |
| `NoteRepository.GetNoteByName` | notes.py:37-52 | a returned note is the parsed content of an entry named `<name>.json` |
| `NoteRepository.LookupListedFile` | notes.py:42-52 | if `<name>.json` is listed, lookup returns its parsed note unchanged, or None when that file failed to parse |
| `NoteRepository.LookupMissingFile` | notes.py:44-52 | when no file is named `<name>.json`, lookup returns None |
| `NoteRepository.LookupOnlyConsultsKey` | notes.py:42-48 | two directories with the same entries under `<name>.json` give the same lookup result, whatever else they hold |
| `NoteRepository.LookupVisibleIsEnumerated` | notes.py:24-48 | a note found under a name that is non-empty and does not start with a dot is also in the enumeration |
| `NoteRepository.HiddenFileNotScanned` | notes.py:25-27 | in every directory, the file of a note whose name is empty or starts with a dot is never scanned, whatever it holds |
| `NoteRepository.HiddenNoteNotListed` | notes.py:25-48 | in a directory holding only its file, a note whose name is empty or starts with a dot is found by lookup, yet enumeration does not list it |
| `NoteSearch.Field` | notes.py:65-66 | a field reads as its value when present and as the empty string when absent |
| `NoteSearch.Keeps` | notes.py:65-66 | the retention test; the empty query keeps every note, and a query longer than both the title and the content keeps none |
| `NoteSearch.SubsequenceLength` | notes.py:63-67 | a filtered list is never longer than the list it was filtered from |
| `NoteSearch.SearchNotes` | notes.py:60-67 | the result is a subsequence of the notes (order kept, nothing altered or added); it holds each note the lower-cased query matches in title or content as often as the input does, and no other note |
| `NoteSearch.SearchMembership` | notes.py:63-66 | a note is in the result exactly when it is in the input and its lower-cased title or content contains the lower-cased query |
| `NoteSearch.KeptByContent` | notes.py:63-66 | a note of the input whose lower-cased content contains the lower-cased query is in the result, whatever its title |
| `NoteSearch.KeptByTitle` | notes.py:63-66 | a note of the input whose lower-cased title contains the lower-cased query is in the result, whatever its content |
| `NoteSearch.EmptyQueryKeepsAll` | notes.py:60-67 | the empty query returns every note, in order |
| `NoteSearch.SearchDependsOnLoweredQuery` | notes.py:60 | two queries with the same lower-cased form give the same result |
| `NoteSearch.SearchIgnoresQueryCase` | notes.py:60-67 | a query and its upper-cased form give the same result |
| `NoteSearch.VerbatimMatchIsKept` | notes.py:60-67 | a note whose title or content contains the query verbatim is in the result |
| `NoteCommands.ListNotes` | notes.py:70-73 | `list_notes` returns the enumeration, whatever its `note_name` argument |
| `NoteCommands.GetNote` | notes.py:75-81 | `get_note` fails with NotFound(name) exactly when the lookup gives None; otherwise it returns the looked-up note unchanged |
| `NoteCommands.GetNoteOfListedFile` | notes.py:44-50 | a listed `<name>.json` that parses is returned unchanged; one that fails to parse is reported as NotFound, not as a parse error |
| `NoteCommands.GetNoteOfMissingFile` | notes.py:78-80 | a name with no file is reported as NotFound |
| `NoteCommands.SearchNotesAsWritten` | notes.py:54-61 | as written, `search_notes` fails with TypeError on every input |
| `NoteCommands.Search` | notes.py:83-86 | `search`, with `get_notes()` called as intended, returns the query's selection of the enumeration, whatever its `note_name` argument |
| `NoteCommands.SearchWithinEnumeration` | notes.py:61-67 | the search result is a subsequence of the enumeration and no longer than it |
| `NoteScenario.AlphaBetaListed` | notes.py:19-35 | with `alpha.json` and `beta.json` present, enumeration lists both notes in scan order |
| `NoteScenario.AlphaBetaSearch` | notes.py:60-67 | on that directory, "about" selects both notes and "rust" only `alpha` |
| `NoteScenario.AlphaBetaGetNote` | notes.py:75-81 | on that directory, `get_note("alpha")` returns the alpha note and `get_note("gamma")` is NotFound |
| `NoteScenario.HelloWorldMatchesHello` | notes.py:60-66 | a note titled "Hello World" with no content is selected by "hello" |
| `NoteScenario.SearchAsWrittenFails` | notes.py:54-61 | on the two-note directory, `search_notes("about")` as written raises TypeError where both notes are intended |

## Left out

- Filesystem access (`glob.glob`, `open`, `os.path.exists`) is not modelled. The directory is an input sequence, and the outcome of reading each file is part of its entry.
- `os.makedirs` at start-up is not modelled. Neither are the `~` expansion of the notes path or the unused `httpx` import.
- JSON parsing (`json.load`) is not modelled; its outcome is the entry's `Parsed`/`Failed` tag. A note is modelled as an object whose fields are strings, and other JSON documents are not modelled. In the code, `get_notes` and `list_notes` return a non-object document such as `[1, 2]` or `42` unchanged (notes.py:30-31), and so do `get_note_by_name` and `get_note` (notes.py:47-48). A file holding `null` parses to `None`, so `get_note` reports it as not found although it exists and parses (notes.py:79-80). Only the search filter's `note.get` (notes.py:65) would raise on a non-object note, and `.lower()` on a non-string `title` or `content`.
- The order in which `glob` lists files is not modelled. It is unspecified, so the scan order is taken as given.
- `os.path.exists` edge cases are folded into `Failed` or into a missing entry: a directory named `x.json`, a broken link, a name with a NUL character.
- Case folding covers ASCII `A`-`Z` only. Python's full Unicode `str.lower` is not modelled.
- Error logging (`print`) is not modelled. Neither are the command-server registration, `async` and the stdio transport.
- NoteRepository.GetNoteByName: requires the name to contain no `/`. Path joining with such a name (or an absolute one) reads a file outside the flat directory, and that is not modelled. The same requirement passes on to `NoteCommands.GetNote`.
- NoteRepository.FileMap: when a name is listed twice, the first listing wins. A real directory never lists a name twice (`UniqueNames`), and the lookup lemmas assume that.

## Findings

| source | as written | input that shows it | evidently intended | confidence | as-written member | corrected member |
|---|---|---|---|---|---|---|
| notes.py:61 | `search_notes` calls `get_notes(note_name)`, but `get_notes` (notes.py:19) takes no parameters. Every call raises TypeError, and so does every `search` command (notes.py:84-86). | `search("about")` on a directory holding `alpha.json` and `beta.json` | call `get_notes()` and filter its result, which returns both notes | high; not executed | `NoteCommands.SearchNotesAsWritten` (exhibited by `NoteScenario.SearchAsWrittenFails`) | `NoteCommands.Search` |

/**
 * The note repository of notes.py: a flat directory of `<name>.json` files,
 * enumerated by a scan (`get_notes`) and looked up by name
 * (`get_note_by_name`). The filesystem and the JSON parser are abstracted:
 * the directory is the sequence of its entries in scan order, and each entry
 * carries the outcome of reading and parsing that file.
 */
module NoteRepository {

  datatype Option<+T> = None | Some(value: T)

  /** A note: a JSON object, its fields taken to be strings. */
  type Note = map<string, string>

  /** What opening and parsing one file yields: a note, or a failure of any kind
      (unreadable, not a regular file, malformed JSON, partially written). */
  datatype ParseResult = Parsed(note: Note) | Failed

  datatype Entry = Entry(filename: string, content: ParseResult)

  /** The notes directory, in the order the filesystem lists it. */
  type Directory = seq<Entry>

  /** A directory never lists the same file name twice. */
  predicate UniqueNames(dir: Directory)
  {
    forall i, j :: 0 <= i < j < |dir| ==> dir[i].filename != dir[j].filename
  }

  /** The file name under which the note called `name` is stored. */
  function NoteFileName(name: string): (f: string)
    ensures |f| == |name| + 5 && f[..|name|] == name && f[|name|..] == ".json"
  {
    name + ".json"
  }

  /** The pattern `*.json` as glob applies it: the name ends in `.json`,
      and a name starting with `.` is hidden from the wildcard. */
  predicate GlobMatches(filename: string)
    ensures GlobMatches(filename) ==> |filename| > 5
  {
    |filename| >= 5 && filename[|filename| - 5..] == ".json" && filename[0] != '.'
  }

  /** The file name of a note matches the pattern exactly when the note's name
      is not empty and does not start with a dot. */
  lemma NoteFileNameMatches(name: string)
    ensures GlobMatches(NoteFileName(name)) <==> name != "" && name[0] != '.'
  {
    var f := NoteFileName(name);
    assert f[|f| - 5..] == ".json";
    if name == "" {
      assert f[0] == '.';
    } else {
      assert f[0] == name[0];
    }
  }

  /** The entries matching `*.json`, in scan order. */
  function Glob(dir: Directory): (files: Directory)
    ensures |files| <= |dir|
  {
    if dir == [] then []
    else (if GlobMatches(dir[0].filename) then [dir[0]] else []) + Glob(dir[1..])
  }

  /** The scanned files are exactly the directory's entries that match the pattern. */
  lemma {:induction false} GlobMembership(dir: Directory, e: Entry)
    ensures e in Glob(dir) <==> e in dir && GlobMatches(e.filename)
  {
    if dir != [] {
      GlobMembership(dir[1..], e);
      assert e in dir <==> e == dir[0] || e in dir[1..];
    }
  }

  /** The notes of the files that parse, in order; failed files contribute nothing. */
  function ParsedNotes(files: seq<Entry>): (notes: seq<Note>)
    ensures |notes| <= |files|
  {
    if files == [] then [] else NotesOf(files[0]) + ParsedNotes(files[1..])
  }

  /** The note one file contributes: its content if it parsed, nothing otherwise. */
  function NotesOf(file: Entry): (notes: seq<Note>)
    ensures |notes| <= 1
  {
    match file.content
    case Parsed(n) => [n]
    case Failed => []
  }

  /** What enumeration promises: the parsed notes of the matching files, in scan order. */
  function Enumerate(dir: Directory): (notes: seq<Note>)
    ensures |notes| <= |Glob(dir)|
  {
    ParsedNotes(Glob(dir))
  }

  /** Parsing a concatenation of file lists is concatenating what each part yields. */
  lemma {:induction false} ParsedNotesAppend(a: seq<Entry>, b: seq<Entry>)
    ensures ParsedNotes(a + b) == ParsedNotes(a) + ParsedNotes(b)
  {
    if a != [] {
      assert (a + b)[0] == a[0] && (a + b)[1..] == a[1..] + b;
      ParsedNotesAppend(a[1..], b);
    } else {
      assert a + b == b;
    }
  }

  /** Processing one more file of a list appends what that file contributes. */
  lemma ParsedNotesPrefix(files: seq<Entry>, i: nat)
    requires i < |files|
    ensures ParsedNotes(files[..i + 1]) == ParsedNotes(files[..i]) + NotesOf(files[i])
  {
    assert files[..i + 1] == files[..i] + [files[i]];
    ParsedNotesAppend(files[..i], [files[i]]);
    assert [files[i]][1..] == [];
  }

  /** A file that fails is skipped, and the files after it are still processed. */
  lemma FailedFileSkipped(a: seq<Entry>, filename: string, b: seq<Entry>)
    ensures ParsedNotes(a + [Entry(filename, Failed)] + b) == ParsedNotes(a) + ParsedNotes(b)
  {
    ParsedNotesAppend(a + [Entry(filename, Failed)], b);
    ParsedNotesAppend(a, [Entry(filename, Failed)]);
  }

  /** A note is parsed from a file list exactly when some entry of it parsed to that note. */
  lemma {:induction false} ParsedNotesMembership(files: seq<Entry>, n: Note)
    ensures n in ParsedNotes(files) <==> HasParsedEntry(files, n)
  {
    if files != [] {
      ParsedNotesMembership(files[1..], n);
      if files[0].content == Parsed(n) {
        assert files[0] in files;
      }
      assert forall e :: e in files <==> e == files[0] || e in files[1..];
    }
  }

  /** Some entry of `files` parsed to `n`. */
  predicate HasParsedEntry(files: seq<Entry>, n: Note)
  {
    exists e :: e in files && e.content == Parsed(n)
  }

  /** Enumeration returns exactly the notes of matching files that parse. */
  lemma EnumerateMembership(dir: Directory, n: Note)
    ensures n in Enumerate(dir) <==>
            exists i :: 0 <= i < |dir| && GlobMatches(dir[i].filename) && dir[i].content == Parsed(n)
  {
    ParsedNotesMembership(Glob(dir), n);
    if n in Enumerate(dir) {
      var e :| e in Glob(dir) && e.content == Parsed(n);
      GlobMembership(dir, e);
      var i :| 0 <= i < |dir| && dir[i] == e;
    }
    if exists i :: 0 <= i < |dir| && GlobMatches(dir[i].filename) && dir[i].content == Parsed(n) {
      var i :| 0 <= i < |dir| && GlobMatches(dir[i].filename) && dir[i].content == Parsed(n);
      GlobMembership(dir, dir[i]);
    }
  }

  /** `get_notes`: scans the matching files, appending every note that parses
      and skipping (after logging) every file that fails. It never fails. */
  method GetNotes(dir: Directory) returns (notes: seq<Note>)
    ensures notes == Enumerate(dir)
  {
    notes := [];
    var files := Glob(dir);
    for i := 0 to |files|
      invariant notes == ParsedNotes(files[..i])
    {
      ParsedNotesPrefix(files, i);
      if files[i].content.Parsed? {
        notes := notes + [files[i].content.note];
      }
    }
    assert files[..|files|] == files;
  }

  /** The directory as a name-to-content mapping (the first listing of a name wins). */
  function FileMap(dir: Directory): (files: map<string, ParseResult>)
    ensures files.Keys == set e | e in dir :: e.filename
  {
    if dir == [] then map[]
    else FileMap(dir[1..])[dir[0].filename := dir[0].content]
  }

  /** Every binding of the mapping comes from an entry of the directory. */
  lemma {:induction false} FileMapSound(dir: Directory, f: string)
    requires f in FileMap(dir)
    ensures Entry(f, FileMap(dir)[f]) in dir
  {
    if dir[0].filename != f {
      FileMapSound(dir[1..], f);
    }
  }

  /** In a directory without repeated names, the mapping gives each entry's own content. */
  lemma {:induction false} FileMapAt(dir: Directory, i: nat)
    requires UniqueNames(dir) && i < |dir|
    ensures dir[i].filename in FileMap(dir) && FileMap(dir)[dir[i].filename] == dir[i].content
  {
    if i > 0 {
      assert UniqueNames(dir[1..]) by {
        forall a, b | 0 <= a < b < |dir[1..]|
          ensures dir[1..][a].filename != dir[1..][b].filename
        {
          assert dir[1..][a] == dir[a + 1] && dir[1..][b] == dir[b + 1];
        }
      }
      FileMapAt(dir[1..], i - 1);
      assert dir[0].filename != dir[i].filename;
    }
  }

  /** `get_note_by_name`: reads `<name>.json` if it exists; the note it holds if it
      parses, and None both when it is missing and when it fails to parse. */
  function GetNoteByName(dir: Directory, name: string): (r: Option<Note>)
    requires '/' !in name
    ensures r.Some? ==> Entry(NoteFileName(name), Parsed(r.value)) in dir
  {
    var files := FileMap(dir);
    var path := NoteFileName(name);
    if path in files then
      FileMapSound(dir, path);
      match files[path]
      case Parsed(n) => Some(n)
      case Failed => None
    else None
  }

  /** When `<name>.json` is listed, lookup returns its parsed content unchanged,
      or None when that file failed to parse. */
  lemma LookupListedFile(dir: Directory, name: string, i: nat)
    requires '/' !in name && UniqueNames(dir)
    requires i < |dir| && dir[i].filename == NoteFileName(name)
    ensures dir[i].content.Parsed? ==> GetNoteByName(dir, name) == Some(dir[i].content.note)
    ensures dir[i].content.Failed? ==> GetNoteByName(dir, name) == None
  {
    FileMapAt(dir, i);
  }

  /** When no file is called `<name>.json`, lookup returns None. */
  lemma LookupMissingFile(dir: Directory, name: string)
    requires '/' !in name
    requires forall i :: 0 <= i < |dir| ==> dir[i].filename != NoteFileName(name)
    ensures GetNoteByName(dir, name) == None
  {
  }

  /** Lookup consults only the entry keyed `<name>.json`: two directories that hold
      the same entries under that file name give the same answer. */
  lemma LookupOnlyConsultsKey(d1: Directory, d2: Directory, name: string)
    requires '/' !in name && UniqueNames(d1) && UniqueNames(d2)
    requires forall e: Entry :: e.filename == NoteFileName(name) ==> (e in d1 <==> e in d2)
    ensures GetNoteByName(d1, name) == GetNoteByName(d2, name)
  {
    var path := NoteFileName(name);
    if path in FileMap(d1) {
      FileMapSound(d1, path);
      var i :| 0 <= i < |d2| && d2[i] == Entry(path, FileMap(d1)[path]);
      FileMapAt(d2, i);
    }
  }

  /** A note found by a name that is not hidden from the wildcard is also enumerated. */
  lemma LookupVisibleIsEnumerated(dir: Directory, name: string)
    requires '/' !in name && name != "" && name[0] != '.'
    requires GetNoteByName(dir, name).Some?
    ensures GetNoteByName(dir, name).value in Enumerate(dir)
  {
    var n := GetNoteByName(dir, name).value;
    NoteFileNameMatches(name);
    var i :| 0 <= i < |dir| && dir[i] == Entry(NoteFileName(name), Parsed(n));
    EnumerateMembership(dir, n);
  }

  /** In every directory, the file of a note whose name is empty or starts with a dot
      is hidden from the wildcard, so the scan never reaches it. */
  lemma HiddenFileNotScanned(dir: Directory, name: string, c: ParseResult)
    requires name == "" || name[0] == '.'
    ensures Entry(NoteFileName(name), c) !in Glob(dir)
  {
    NoteFileNameMatches(name);
    GlobMembership(dir, Entry(NoteFileName(name), c));
  }

  /** A note whose name is empty or starts with a dot is found by lookup,
      yet the scan never lists it: its file is hidden from the wildcard. */
  lemma HiddenNoteNotListed(name: string, n: Note)
    requires '/' !in name && (name == "" || name[0] == '.')
    ensures GetNoteByName([Entry(NoteFileName(name), Parsed(n))], name) == Some(n)
    ensures Enumerate([Entry(NoteFileName(name), Parsed(n))]) == []
  {
    var dir := [Entry(NoteFileName(name), Parsed(n))];
    LookupListedFile(dir, name, 0);
    NoteFileNameMatches(name);
  }
}

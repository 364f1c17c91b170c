/**
 * A worked example: a directory holding `alpha.json` and `beta.json`, and
 * what listing, searching and looking up give on it. Each step is its own
 * small lemma so that every proof stays cheap.
 */
module NoteScenario {
  import opened Text
  import opened NoteRepository
  import opened NoteSearch
  import opened NoteCommands

  function Alpha(): Note { map["title" := "Alpha Notes", "content" := "about rust"] }

  function Beta(): Note { map["title" := "Beta", "content" := "about go"] }

  function AlphaBeta(): Directory
  {
    [Entry("alpha.json", Parsed(Alpha())), Entry("beta.json", Parsed(Beta()))]
  }

  /** Both notes are listed, in scan order. */
  lemma AlphaBetaListed()
    ensures Enumerate(AlphaBeta()) == [Alpha(), Beta()]
  {
    assert GlobMatches("alpha.json") by { NoteFileNameMatches("alpha"); }
    assert GlobMatches("beta.json") by { NoteFileNameMatches("beta"); }
  }

  /** "about" selects `alpha` through its content. */
  lemma AlphaKeptByAbout()
    ensures Keeps(Lower("about"), Alpha())
  {
    assert Field(Alpha(), "content") == "about rust";
    assert Contains("about rust", "about");
    ContainsLowered("about rust", "about");
  }

  /** "rust" selects `alpha` through its content. */
  lemma AlphaKeptByRust()
    ensures Keeps(Lower("rust"), Alpha())
  {
    assert Field(Alpha(), "content") == "about rust";
    ContainsAt("about rust", "rust", 6);
    ContainsLowered("about rust", "rust");
  }

  /** "about" selects `beta` through its content. */
  lemma BetaKeptByAbout()
    ensures Keeps(Lower("about"), Beta())
  {
    assert Field(Beta(), "content") == "about go";
    assert Contains("about go", "about");
    ContainsLowered("about go", "about");
  }

  /** A string holding neither 'r' nor 'R' does not contain "rust" once lower-cased. */
  lemma RustNotIn(s: string)
    requires 'r' !in s && 'R' !in s
    ensures !Contains(Lower(s), Lower("rust"))
  {
    assert Lower("rust")[0] == 'r';
    if Contains(Lower(s), Lower("rust")) {
      ContainsFirstChar(Lower(s), Lower("rust"));
      LowerMembership(s, 'r');
    }
  }

  /** "rust" occurs neither in the title nor in the content of `beta`. */
  lemma BetaNotKeptByRust()
    ensures !Keeps(Lower("rust"), Beta())
  {
    assert Field(Beta(), "title") == "Beta";
    assert Field(Beta(), "content") == "about go";
    RustNotIn("Beta");
    RustNotIn("about go");
  }

  /** `search("about")` returns both notes; `search("rust")` returns only `alpha`. */
  lemma AlphaBetaSearch()
    ensures SearchNotes("about", Enumerate(AlphaBeta())) == [Alpha(), Beta()]
    ensures SearchNotes("rust", Enumerate(AlphaBeta())) == [Alpha()]
  {
    AlphaBetaListed();
    AlphaKeptByAbout();
    AlphaKeptByRust();
    BetaKeptByAbout();
    BetaNotKeptByRust();
    assert [Alpha(), Beta()][1..] == [Beta()];
  }

  /** `get_note("alpha")` returns the alpha note; `get_note("gamma")` is NotFound. */
  lemma AlphaBetaGetNote()
    ensures GetNote(AlphaBeta(), "alpha") == Ok(Alpha())
    ensures GetNote(AlphaBeta(), "gamma") == Err(NotFound("gamma"))
  {
    assert UniqueNames(AlphaBeta());
    GetNoteOfListedFile(AlphaBeta(), "alpha", 0);
    GetNoteOfMissingFile(AlphaBeta(), "gamma");
  }

  /** A note with a title and no content field. */
  function HelloWorld(): Note { map["title" := "Hello World"] }

  lemma HelloLowered()
    ensures Lower("Hello") == Lower("hello")
  {
  }

  /** "hello" selects the note through its title. */
  lemma HelloWorldKept()
    ensures Keeps(Lower("hello"), HelloWorld())
  {
    assert Field(HelloWorld(), "title") == "Hello World";
    assert Contains("Hello World", "Hello");
    ContainsLowered("Hello World", "Hello");
    HelloLowered();
  }

  /** The title "Hello World" matches the query "hello"; the missing content reads as empty. */
  lemma HelloWorldMatchesHello()
    ensures Field(HelloWorld(), "content") == ""
    ensures SearchNotes("hello", [HelloWorld()]) == [HelloWorld()]
  {
    HelloWorldKept();
  }

  /** The defect in `search_notes`: on this directory, searching for "about"
      should give both notes, but the code as written raises TypeError. */
  lemma SearchAsWrittenFails()
    ensures SearchNotesAsWritten(AlphaBeta(), "about", None) == Err(TypeError)
    ensures SearchNotes("about", Enumerate(AlphaBeta())) == [Alpha(), Beta()]
  {
    AlphaBetaSearch();
  }
}

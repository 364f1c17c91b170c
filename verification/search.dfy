/**
 * The search filter of notes.py (`search_notes`): keeps, in order, the notes
 * whose lower-cased `title` or lower-cased `content` contains the lower-cased
 * query. A missing field reads as the empty string.
 */
module NoteSearch {
  import opened Text
  import opened NoteRepository

  /** `note.get(key, '')`. */
  function Field(note: Note, key: string): (v: string)
    ensures key in note ==> v == note[key]
    ensures key !in note ==> v == ""
  {
    if key in note then note[key] else ""
  }

  /** The retention test of the list comprehension, for a query already lower-cased. */
  predicate Keeps(loweredQuery: string, note: Note)
    ensures loweredQuery == [] ==> Keeps(loweredQuery, note)
    ensures Keeps(loweredQuery, note) ==>
              |loweredQuery| <= |Field(note, "title")| || |loweredQuery| <= |Field(note, "content")|
  {
    Contains(Lower(Field(note, "title")), loweredQuery) || Contains(Lower(Field(note, "content")), loweredQuery)
  }

  /** `r` is `s` with some elements removed, the rest kept in order and unchanged. */
  predicate IsSubsequence<T(==)>(r: seq<T>, s: seq<T>)
  {
    r == [] || (s != [] && if r[0] == s[0] then IsSubsequence(r[1..], s[1..]) else IsSubsequence(r, s[1..]))
  }

  /** A subsequence is never longer than the sequence it is taken from. */
  lemma {:induction false} SubsequenceLength<T>(r: seq<T>, s: seq<T>)
    requires IsSubsequence(r, s)
    ensures |r| <= |s|
  {
    if r != [] {
      if r[0] == s[0] {
        SubsequenceLength(r[1..], s[1..]);
      } else {
        SubsequenceLength(r, s[1..]);
      }
    }
  }

  /** The filtering part of `search_notes`: the notes that the lower-cased query matches,
      in their original order. The result is a subsequence of the input and holds each
      matching note exactly as often as the input does, and no other note. */
  function SearchNotes(query: string, notes: seq<Note>): (r: seq<Note>)
    ensures IsSubsequence(r, notes)
    ensures forall n :: multiset(r)[n] == if Keeps(Lower(query), n) then multiset(notes)[n] else 0
  {
    if notes == [] then []
    else if Keeps(Lower(query), notes[0]) then
      assert notes == [notes[0]] + notes[1..];
      [notes[0]] + SearchNotes(query, notes[1..])
    else
      assert notes == [notes[0]] + notes[1..];
      SearchNotes(query, notes[1..])
  }

  /** A note is in the result exactly when it is in the input and the query matches it. */
  lemma SearchMembership(query: string, notes: seq<Note>, n: Note)
    ensures n in SearchNotes(query, notes) <==>
            n in notes && (Contains(Lower(Field(n, "title")), Lower(query)) ||
                           Contains(Lower(Field(n, "content")), Lower(query)))
  {
    var r := SearchNotes(query, notes);
    assert n in r <==> multiset(r)[n] > 0;
    assert n in notes <==> multiset(notes)[n] > 0;
  }

  /** A note whose content contains the query is in the result, whatever its title holds. */
  lemma KeptByContent(query: string, notes: seq<Note>, n: Note)
    requires n in notes && Contains(Lower(Field(n, "content")), Lower(query))
    ensures n in SearchNotes(query, notes)
  {
    SearchMembership(query, notes, n);
  }

  /** A note whose title contains the query is in the result, whatever its content holds. */
  lemma KeptByTitle(query: string, notes: seq<Note>, n: Note)
    requires n in notes && Contains(Lower(Field(n, "title")), Lower(query))
    ensures n in SearchNotes(query, notes)
  {
    SearchMembership(query, notes, n);
  }

  /** The empty query keeps every note. */
  lemma {:induction false} EmptyQueryKeepsAll(notes: seq<Note>)
    ensures SearchNotes("", notes) == notes
  {
    if notes != [] {
      assert Lower("") == "";
      EmptyQueryKeepsAll(notes[1..]);
    }
  }

  /** Two queries with the same lower-cased form select the same notes. */
  lemma {:induction false} SearchDependsOnLoweredQuery(q1: string, q2: string, notes: seq<Note>)
    requires Lower(q1) == Lower(q2)
    ensures SearchNotes(q1, notes) == SearchNotes(q2, notes)
  {
    if notes != [] {
      SearchDependsOnLoweredQuery(q1, q2, notes[1..]);
    }
  }

  /** A query and its upper-cased form give the same result. */
  lemma SearchIgnoresQueryCase(query: string, notes: seq<Note>)
    ensures SearchNotes(Upper(query), notes) == SearchNotes(query, notes)
  {
    LowerOfUpper(query);
    SearchDependsOnLoweredQuery(Upper(query), query, notes);
  }

  /** A note whose title or content contains the query verbatim is kept,
      whatever the case of either. */
  lemma VerbatimMatchIsKept(query: string, notes: seq<Note>, n: Note)
    requires n in notes
    requires Contains(Field(n, "title"), query) || Contains(Field(n, "content"), query)
    ensures n in SearchNotes(query, notes)
  {
    if Contains(Field(n, "title"), query) {
      ContainsLowered(Field(n, "title"), query);
    } else {
      ContainsLowered(Field(n, "content"), query);
    }
    SearchMembership(query, notes, n);
  }
}

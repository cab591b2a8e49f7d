/**
 The catalog store: the map from course identifier to course record built
 from the lines of the course file, and the two read-only queries on it (the
 alphabetical listing and the details of one course with its prerequisites
 resolved).
 */
module CatalogStore {
  import opened RecordParser
  import Ordinal

  /** The in-memory catalog, keyed by course identifier. */
  type Catalog = map<string, Course>

  /** Every key is the identifier of the record stored under it. */
  predicate WellKeyed(cat: Catalog)
  {
    forall id :: id in cat ==> cat[id].courseId == id
  }

  /** The course file handed to a load: either it cannot be opened, or it is
      its lines with the '\n' terminators removed (a '\r' may remain). */
  datatype FileSource = CannotOpen | Lines(lines: seq<string>)

  /** What a load produces: the new catalog, and whether the "could not open
      file" error was reported. */
  datatype LoadResult = LoadResult(catalog: Catalog, openFailed: bool)

  /** The records parsed from each line, in file order. */
  function ParseAll(lines: seq<string>): (recs: seq<Course>)
    ensures |recs| == |lines|
    ensures forall i :: 0 <= i < |lines| ==> recs[i] == ParseLine(lines[i])
  {
    MapSeq(ParseLine, lines)
  }

  /** `f` applied to each element of `s`. */
  function MapSeq<A, B>(f: A -> B, s: seq<A>): (r: seq<B>)
    ensures |r| == |s|
    ensures forall i :: 0 <= i < |s| ==> r[i] == f(s[i])
  {
    seq(|s|, i requires 0 <= i < |s| => f(s[i]))
  }

  /** The identifiers carried by a sequence of records. */
  function IdsOf(recs: seq<Course>): set<string>
  {
    set i | 0 <= i < |recs| :: recs[i].courseId
  }

  /** The catalog after inserting the records in order, each insertion
      replacing any record already stored under the same id. */
  function Store(recs: seq<Course>): (cat: Catalog)
    ensures WellKeyed(cat)
    ensures cat.Keys == IdsOf(recs)
  {
    if |recs| == 0 then map[]
    else
      var prefix := recs[..|recs| - 1];
      var c := recs[|recs| - 1];
      assert IdsOf(recs) == IdsOf(prefix) + {c.courseId} by {
        assert forall i :: 0 <= i < |prefix| ==> prefix[i] == recs[i];
      }
      Store(prefix)[c.courseId := c]
  }

  /** The catalog built from the lines of the course file. */
  function Build(lines: seq<string>): (cat: Catalog)
    ensures WellKeyed(cat)
    ensures cat.Keys == IdsOf(ParseAll(lines))
  {
    Store(ParseAll(lines))
  }

  /** Loads the course file.  A file that cannot be opened yields an empty
      catalog, so the previous catalog is discarded either way. */
  function Load(src: FileSource): (r: LoadResult)
    ensures WellKeyed(r.catalog)
    ensures r.openFailed <==> src.CannotOpen?
    ensures src.CannotOpen? ==> r.catalog == map[]
    ensures src.Lines? ==> r.catalog.Keys == IdsOf(ParseAll(src.lines))
  {
    match src
    case CannotOpen => LoadResult(map[], true)
    case Lines(lines) => LoadResult(Build(lines), false)
  }

  // ---------------------------------------------------------------------
  // Listing all courses
  // ---------------------------------------------------------------------

  /** One line of the course listing. */
  datatype Row = Row(courseId: string, title: string)

  /** The identifier column of a listing. */
  function RowIds(rows: seq<Row>): (ids: seq<string>)
    ensures |ids| == |rows|
    ensures forall i :: 0 <= i < |rows| ==> ids[i] == rows[i].courseId
  {
    seq(|rows|, i requires 0 <= i < |rows| => rows[i].courseId)
  }

  /** `rows` lists every course of `cat` exactly once, in ascending ordinal
      order of identifier, each with its stored title. */
  predicate IsListing(cat: Catalog, rows: seq<Row>)
  {
    && Ordinal.StrictlyAscending(RowIds(rows))
    && (forall i :: 0 <= i < |rows| ==> rows[i].courseId in cat && rows[i].title == cat[rows[i].courseId].title)
    && (forall id :: id in cat ==> id in RowIds(rows))
  }

  /** All courses in ascending identifier order, each with its title. */
  function ListAll(cat: Catalog): (rows: seq<Row>)
    ensures IsListing(cat, rows)
    ensures |rows| == |cat|
  {
    var ids := Ordinal.SortedIds(cat.Keys);
    var rows := seq(|ids|, i requires 0 <= i < |ids| => Row(ids[i], cat[ids[i]].title));
    assert RowIds(rows) == ids;
    rows
  }

  // ---------------------------------------------------------------------
  // Details of one course
  // ---------------------------------------------------------------------

  /** What is shown for one prerequisite slot. */
  datatype PrereqLine =
    | NoPrereq                                  // empty field: nothing shown
    | Resolved(courseId: string, title: string) // "<id> - <title>"
    | Unresolved(reference: string)             // "<reference> (Course not found)"

  /** The answer to a course-details query. */
  datatype Details =
    | NotFound(courseId: string)
    | Found(title: string, first: PrereqLine, second: PrereqLine)

  /** Resolves one prerequisite field against the catalog. */
  function Resolve(cat: Catalog, reference: string): (p: PrereqLine)
    ensures p.NoPrereq? <==> reference == []
    ensures p.Unresolved? <==> reference != [] && reference !in cat
    ensures p.Unresolved? ==> p.reference == reference
    ensures p.Resolved? ==> reference in cat && p.courseId == cat[reference].courseId && p.title == cat[reference].title
  {
    if reference == [] then NoPrereq
    else if reference in cat then Resolved(cat[reference].courseId, cat[reference].title)
    else Unresolved(reference)
  }

  /** Looks a course up by its exact identifier and resolves both of its
      prerequisites. */
  function FindDetails(cat: Catalog, courseId: string): (d: Details)
    ensures d.NotFound? <==> courseId !in cat
    ensures d.NotFound? ==> d.courseId == courseId
    ensures d.Found? ==> d.title == cat[courseId].title
    ensures d.Found? ==> d.first == Resolve(cat, cat[courseId].prereq1)
    ensures d.Found? ==> d.second == Resolve(cat, cat[courseId].prereq2)
  {
    if courseId in cat then
      var c := cat[courseId];
      Found(c.title, Resolve(cat, c.prereq1), Resolve(cat, c.prereq2))
    else NotFound(courseId)
  }

  /** The identifier a shown prerequisite line names, if any. */
  function NamedId(p: PrereqLine): string
  {
    match p
    case NoPrereq => []
    case Resolved(id, _) => id
    case Unresolved(reference) => reference
  }

  // ---------------------------------------------------------------------
  // Lemmas
  // ---------------------------------------------------------------------

  /** `j` is the last record carrying the id of record `j`. */
  predicate IsLastOccurrence(recs: seq<Course>, j: int)
  {
    0 <= j < |recs| &&
    forall i :: j < i < |recs| ==> recs[i].courseId != recs[j].courseId
  }

  /** Last one wins: the record stored under an id is the last record
      carrying that id. */
  lemma {:induction false} LastOccurrenceWins(recs: seq<Course>, j: int)
    requires IsLastOccurrence(recs, j)
    ensures Store(recs)[recs[j].courseId] == recs[j]
    decreases |recs|
  {
    if j < |recs| - 1 {
      var prefix := recs[..|recs| - 1];
      assert IsLastOccurrence(prefix, j);
      LastOccurrenceWins(prefix, j);
    }
  }

  /** Every id among the records has a last record carrying it. */
  lemma {:induction false} LastOccurrenceExists(recs: seq<Course>, id: string)
    requires id in IdsOf(recs)
    ensures exists j :: IsLastOccurrence(recs, j) && recs[j].courseId == id
    decreases |recs|
  {
    var n := |recs| - 1;
    if recs[n].courseId == id {
      assert IsLastOccurrence(recs, n);
    } else {
      var prefix := recs[..n];
      var i :| 0 <= i < |recs| && recs[i].courseId == id;
      assert prefix[i].courseId == id;
      LastOccurrenceExists(prefix, id);
      var j :| IsLastOccurrence(prefix, j) && prefix[j].courseId == id;
      assert IsLastOccurrence(recs, j);
    }
  }

  /** Each stored record is the last record carrying its id. */
  lemma StoredRecordIsLast(recs: seq<Course>, id: string)
    requires id in Store(recs)
    ensures exists j :: IsLastOccurrence(recs, j) && recs[j].courseId == id && Store(recs)[id] == recs[j]
  {
    LastOccurrenceExists(recs, id);
    var j :| IsLastOccurrence(recs, j) && recs[j].courseId == id;
    LastOccurrenceWins(recs, j);
  }

  /** Loading keeps, for every id, the record of the last line carrying it:
      with lines i < j sharing an id and no later line carrying it, line j's
      record is the one stored. */
  lemma LoadLastLineWins(lines: seq<string>, j: int)
    requires 0 <= j < |lines|
    requires forall i :: j < i < |lines| ==> ParseLine(lines[i]).courseId != ParseLine(lines[j]).courseId
    ensures Build(lines)[ParseLine(lines[j]).courseId] == ParseLine(lines[j])
  {
    LastOccurrenceWins(ParseAll(lines), j);
  }

  /** An empty line is stored as the all-empty record under the key "". */
  lemma EmptyLineKey(lines: seq<string>, i: int)
    requires 0 <= i < |lines| && lines[i] == []
    requires forall k :: i < k < |lines| ==> ParseLine(lines[k]).courseId != []
    ensures [] in Build(lines) && Build(lines)[[]] == Course([], [], [], [])
  {
    NoCommaLine([]);
    LoadLastLineWins(lines, i);
  }

  /** The catalog holds one record per distinct id, never more than one per
      record. */
  lemma {:induction false} StoreSize(recs: seq<Course>)
    ensures |Store(recs)| == |IdsOf(recs)|
    ensures |Store(recs)| <= |recs|
    decreases |recs|
  {
    var cat := Store(recs);
    assert |cat| == |cat.Keys|;
    if |recs| > 0 {
      var prefix := recs[..|recs| - 1];
      StoreSize(prefix);
      assert |Store(prefix)| == |Store(prefix).Keys|;
    }
  }

  /** The ids of the records are pairwise different. */
  predicate DistinctIds(recs: seq<Course>)
  {
    forall i, j :: 0 <= i < j < |recs| ==> recs[i].courseId != recs[j].courseId
  }

  /** With pairwise different ids, every record gets its own entry. */
  lemma {:induction false} DistinctIdsSize(recs: seq<Course>)
    requires DistinctIds(recs)
    ensures |Store(recs)| == |recs|
    decreases |recs|
  {
    if |recs| > 0 {
      var n := |recs| - 1;
      var prefix := recs[..n];
      var id := recs[n].courseId;
      DistinctIdsSize(prefix);
      assert forall i :: 0 <= i < n ==> prefix[i].courseId == recs[i].courseId != id;
      assert id !in IdsOf(prefix);
      assert |Store(prefix)| == |Store(prefix).Keys|;
      assert |Store(recs)| == |Store(recs).Keys|;
    }
  }

  /** Loading N lines with pairwise different ids gives exactly N courses;
      in general the count is the number of distinct ids, at most N. */
  lemma LoadSize(lines: seq<string>)
    ensures |Build(lines)| == |IdsOf(ParseAll(lines))| <= |lines|
    ensures DistinctIds(ParseAll(lines)) ==> |Build(lines)| == |lines|
  {
    StoreSize(ParseAll(lines));
    if DistinctIds(ParseAll(lines)) {
      DistinctIdsSize(ParseAll(lines));
    }
  }

  /** The listing is fixed by the catalog: any sequence that lists each
      course once, ascending, with its title, is exactly ListAll's. */
  lemma ListingUnique(cat: Catalog, rows: seq<Row>)
    requires IsListing(cat, rows)
    ensures rows == ListAll(cat)
  {
    var expected := ListAll(cat);
    Ordinal.AscendingUnique(RowIds(rows), RowIds(expected));
    assert |rows| == |expected|;
    forall i | 0 <= i < |rows| ensures rows[i] == expected[i] {
      assert RowIds(rows)[i] == RowIds(expected)[i];
    }
  }

  /** Records drawn from the same set give the same ids. */
  lemma SameRecordsSameIds(a: seq<Course>, b: seq<Course>)
    requires forall r :: r in a <==> r in b
    ensures IdsOf(a) == IdsOf(b)
  {
    forall id | id in IdsOf(a) ensures id in IdsOf(b) {
      var i :| 0 <= i < |a| && a[i].courseId == id;
      assert a[i] in b;
    }
    forall id | id in IdsOf(b) ensures id in IdsOf(a) {
      var i :| 0 <= i < |b| && b[i].courseId == id;
      assert b[i] in a;
    }
  }

  /** With pairwise different ids, the catalog depends only on which records
      there are, not on their order. */
  lemma SameRecordsSameCatalog(a: seq<Course>, b: seq<Course>)
    requires forall r :: r in a <==> r in b
    requires DistinctIds(a)
    ensures Store(a) == Store(b)
  {
    SameRecordsSameIds(a, b);
    forall id | id in Store(a) ensures Store(a)[id] == Store(b)[id] {
      StoredRecordIsLast(a, id);
      var j :| IsLastOccurrence(a, j) && a[j].courseId == id && Store(a)[id] == a[j];
      StoredRecordIsLast(b, id);
      var k :| IsLastOccurrence(b, k) && b[k].courseId == id && Store(b)[id] == b[k];
      assert b[k] in a;
      var i :| 0 <= i < |a| && a[i] == b[k];
      assert i == j;
    }
  }

  /** Applying `f` to two sequences with the same members gives sequences
      with the same members. */
  lemma MapSameMembers<A, B>(f: A -> B, a: seq<A>, b: seq<A>)
    requires forall x :: x in a <==> x in b
    ensures forall y :: y in MapSeq(f, a) <==> y in MapSeq(f, b)
  {
    var fa := MapSeq(f, a);
    var fb := MapSeq(f, b);
    forall y ensures y in fa <==> y in fb {
      if y in fa {
        var i :| 0 <= i < |a| && fa[i] == y;
        assert a[i] in b;
        var k :| 0 <= k < |b| && b[k] == a[i];
        assert fb[k] == y;
      }
      if y in fb {
        var k :| 0 <= k < |b| && fb[k] == y;
        assert b[k] in a;
        var i :| 0 <= i < |a| && a[i] == b[k];
        assert fa[i] == y;
      }
    }
  }

  /** Lines that are a reordering of each other parse to the same set of
      records. */
  lemma ReorderedLinesSameRecords(a: seq<string>, b: seq<string>)
    requires multiset(a) == multiset(b)
    ensures forall r :: r in ParseAll(a) <==> r in ParseAll(b)
  {
    assert forall l :: l in a <==> l in b by {
      forall l ensures l in a <==> l in b {
        assert l in a <==> l in multiset(a);
        assert l in b <==> l in multiset(b);
      }
    }
    MapSameMembers(ParseLine, a, b);
  }

  /** Reordering the lines of the file leaves the listed ids as they are;
      when the ids are pairwise different, the whole listing is unchanged. */
  lemma ListingIgnoresLineOrder(a: seq<string>, b: seq<string>)
    requires multiset(a) == multiset(b)
    ensures RowIds(ListAll(Build(a))) == RowIds(ListAll(Build(b)))
    ensures DistinctIds(ParseAll(a)) ==> ListAll(Build(a)) == ListAll(Build(b))
  {
    var ra := ParseAll(a);
    var rb := ParseAll(b);
    ReorderedLinesSameRecords(a, b);
    SameRecordsSameIds(ra, rb);
    assert Build(a).Keys == Build(b).Keys;
    if DistinctIds(ra) {
      SameRecordsSameCatalog(ra, rb);
    }
  }

  /** In a well-keyed catalog a prerequisite line names exactly the stored
      reference: a resolved one is the referenced course itself, and a
      non-empty reference is never dropped. */
  lemma ResolveNamesReference(cat: Catalog, reference: string)
    requires WellKeyed(cat)
    ensures NamedId(Resolve(cat, reference)) == reference
    ensures Resolve(cat, reference).Resolved? ==> cat[reference].title == Resolve(cat, reference).title
  {
  }
}

/**
 A worked two-course catalog: the second course lists the first as its
 prerequisite.
 */
module Scenario {
  import opened RecordParser
  import opened CatalogStore
  import Ordinal

  const Intro := Course("CS101", "Intro to CS", "", "")
  const DataStructures := Course("CS102", "Data Structures", "CS101", "")

  /** The two lines of the sample course file, "CS101,Intro to CS,," and
      "CS102,Data Structures,CS101,". */
  function SampleLines(): seq<string>
  {
    [FormatLine(Intro), FormatLine(DataStructures)]
  }

  /** A field of the sample file that parses unchanged. */
  lemma CleanSampleField(f: string)
    requires f in ["CS101", "Intro to CS", "CS102", "Data Structures"]
    ensures IsCleanField(f)
  {
    assert f[|f| - 1] == 'S' || f[|f| - 1] == '1' || f[|f| - 1] == '2' || f[|f| - 1] == 's';
    assert FindLastNotOf(f) == Index(|f| - 1);
    assert f[..|f|] == f;
  }

  /** Each sample line parses to its course. */
  lemma SampleLinesParse()
    ensures ParseLine(SampleLines()[0]) == Intro
    ensures ParseLine(SampleLines()[1]) == DataStructures
  {
    CleanSampleField("CS101");
    CleanSampleField("Intro to CS");
    CleanSampleField("CS102");
    CleanSampleField("Data Structures");
    assert IsCleanField([]);
    FormatParseRoundTrip(Intro);
    FormatParseRoundTrip(DataStructures);
  }

  /** Two lines parse to the two records they each parse to. */
  lemma ParseTwoLines(a: string, b: string, ca: Course, cb: Course)
    requires ParseLine(a) == ca && ParseLine(b) == cb
    ensures ParseAll([a, b]) == [ca, cb]
  {
    MapSeqPair(ParseLine, a, b);
  }

  lemma MapSeqPair<A, B>(f: A -> B, a: A, b: A)
    ensures MapSeq(f, [a, b]) == [f(a), f(b)]
  {
  }

  /** Storing two records with different ids keeps both. */
  lemma StoreTwo(recs: seq<Course>, ca: Course, cb: Course)
    requires recs == [ca, cb] && ca.courseId != cb.courseId
    ensures Store(recs) == map[ca.courseId := ca, cb.courseId := cb]
  {
    assert IsLastOccurrence(recs, 0);
    assert IsLastOccurrence(recs, 1);
    LastOccurrenceWins(recs, 0);
    LastOccurrenceWins(recs, 1);
    assert IdsOf(recs) == {ca.courseId, cb.courseId};
  }

  /** Loading the sample file gives exactly the two courses. */
  lemma SampleCatalog()
    ensures Build(SampleLines()) == map["CS101" := Intro, "CS102" := DataStructures]
  {
    var l0 := SampleLines()[0];
    var l1 := SampleLines()[1];
    SampleLinesParse();
    assert SampleLines() == [l0, l1];
    ParseTwoLines(l0, l1, Intro, DataStructures);
    StoreTwo([Intro, DataStructures], Intro, DataStructures);
  }

  /** The sample catalog lists CS101 before CS102. */
  lemma SampleListing(cat: Catalog)
    requires cat == map["CS101" := Intro, "CS102" := DataStructures]
    ensures ListAll(cat) == [Row("CS101", "Intro to CS"), Row("CS102", "Data Structures")]
  {
    var rows := [Row("CS101", "Intro to CS"), Row("CS102", "Data Structures")];
    assert Ordinal.Less("CS101", "CS102");
    assert RowIds(rows) == ["CS101", "CS102"];
    assert IsListing(cat, rows);
    ListingUnique(cat, rows);
  }

  /** The details of CS102 resolve its prerequisite to CS101's title, and
      CS999 is not found. */
  lemma SampleDetails(cat: Catalog)
    requires cat == map["CS101" := Intro, "CS102" := DataStructures]
    ensures FindDetails(cat, "CS102") == Found("Data Structures", Resolved("CS101", "Intro to CS"), NoPrereq)
    ensures FindDetails(cat, "CS999") == NotFound("CS999")
  {
    assert "CS999" != "CS101" && "CS999" != "CS102";
  }

  /** Loading the sample file, the listing shows CS101 then CS102, the
      details of CS102 resolve its prerequisite to CS101's title, and CS999
      is not found. */
  lemma SampleQueries()
    ensures ListAll(Build(SampleLines())) == [Row("CS101", "Intro to CS"), Row("CS102", "Data Structures")]
    ensures FindDetails(Build(SampleLines()), "CS102") == Found("Data Structures", Resolved("CS101", "Intro to CS"), NoPrereq)
    ensures FindDetails(Build(SampleLines()), "CS999") == NotFound("CS999")
  {
    SampleCatalog();
    SampleListing(Build(SampleLines()));
    SampleDetails(Build(SampleLines()));
  }
}

/**
 The record parser of the course catalog: one line of the course file becomes
 one course record.  A line is read field by field the way repeated
 `std::getline(stream, field, ',')` reads it, only the first four fields are
 kept, and trailing blanks are cut from each field with
 `erase(find_last_not_of(" \n\r\t") + 1)`.
 */
module RecordParser {

  /** A course record: its identifier, its title and up to two prerequisite
      identifiers (an empty string means "no prerequisite"). */
  datatype Course = Course(courseId: string, title: string, prereq1: string, prereq2: string)

  /** The characters the parser cuts from the end of a field. */
  predicate IsTrailingSpace(c: char)
  {
    c == ' ' || c == '\n' || c == '\r' || c == '\t'
  }

  /** True when a field is made only of trailing-space characters. */
  predicate AllTrailingSpace(s: string)
  {
    forall i :: 0 <= i < |s| ==> IsTrailingSpace(s[i])
  }

  /** The result of `find_last_not_of`: a position, or `std::string::npos`. */
  datatype Position = Npos | Index(i: nat)

  /** `s.find_last_not_of(" \n\r\t")`: the last character that is not a
      trailing space, searching from the end. */
  function FindLastNotOf(s: string): (p: Position)
    ensures p.Npos? <==> AllTrailingSpace(s)
    ensures p.Index? ==> p.i < |s| && !IsTrailingSpace(s[p.i])
    ensures p.Index? ==> forall j :: p.i < j < |s| ==> IsTrailingSpace(s[j])
  {
    if |s| == 0 then Npos
    else if !IsTrailingSpace(s[|s| - 1]) then Index(|s| - 1)
    else FindLastNotOf(s[..|s| - 1])
  }

  /** `s.erase(s.find_last_not_of(" \n\r\t") + 1)`.  The addition is done in
      `size_t`, so `npos + 1` wraps around to 0 and `erase(0)` empties a field
      that holds nothing but trailing spaces. */
  function TrimEnd(s: string): (r: string)
    ensures |r| <= |s| && r == s[..|r|]
    ensures |r| == 0 || !IsTrailingSpace(r[|r| - 1])
    ensures forall j :: |r| <= j < |s| ==> IsTrailingSpace(s[j])
  {
    var cut := match FindLastNotOf(s)
      case Npos => 0
      case Index(i) => i + 1;
    s[..cut]
  }

  /** An independent, character-at-a-time account of trimming: drop the last
      character while it is a trailing space. */
  function StripTrailing(s: string): string
  {
    if |s| > 0 && IsTrailingSpace(s[|s| - 1]) then StripTrailing(s[..|s| - 1]) else s
  }

  /** Index of the first ',' in `s`, or `|s|` when `s` has none: where one
      `getline(stream, field, ',')` stops. */
  function FirstComma(s: string): (i: nat)
    ensures i <= |s|
    ensures i < |s| ==> s[i] == ','
    ensures forall j :: 0 <= j < i ==> s[j] != ','
  {
    if |s| == 0 || s[0] == ',' then 0 else 1 + FirstComma(s[1..])
  }

  /** One `std::getline(stream, field, ',')` on the unread text `rest`: the
      field read and the text left unread.  The delimiter is consumed and not
      stored; at end of input the field is empty. */
  function GetField(rest: string): (r: (string, string))
    ensures ',' !in r.0
  {
    var i := FirstComma(rest);
    if i < |rest| then (rest[..i], rest[i + 1..]) else (rest, [])
  }

  /** A `getline` either reads all that is left, or splits the rest around
      its first ','. */
  lemma GetFieldSplitsRest(rest: string)
    ensures (GetField(rest).0 == rest && GetField(rest).1 == []) || rest == GetField(rest).0 + [','] + GetField(rest).1
  {
    var i := FirstComma(rest);
    if i < |rest| {
      assert rest == rest[..i] + [','] + rest[i + 1..];
    }
  }

  /** Parses one line of the course file: the first four `,`-separated fields
      become id, title and the two prerequisites, each trimmed at its end.
      Every parsed record is one the file format carries unchanged: no field
      holds a ',' or ends in a trailing space. */
  function ParseLine(line: string): (c: Course)
    ensures IsCleanField(c.courseId) && IsCleanField(c.title)
    ensures IsCleanField(c.prereq1) && IsCleanField(c.prereq2)
  {
    var field1 := GetField(line);
    var field2 := GetField(field1.1);
    var field3 := GetField(field2.1);
    var field4 := GetField(field3.1);
    TrimEndIdempotent(field1.0);
    TrimEndIdempotent(field2.0);
    TrimEndIdempotent(field3.0);
    TrimEndIdempotent(field4.0);
    Course(TrimEnd(field1.0), TrimEnd(field2.0), TrimEnd(field3.0), TrimEnd(field4.0))
  }

  // ---------------------------------------------------------------------
  // A reference definition of the field layout: the full list of
  // comma-separated segments of a line, and its inverse.
  // ---------------------------------------------------------------------

  /** Joins segments with ',' between neighbours. */
  function Join(parts: seq<string>): string
  {
    if |parts| == 0 then []
    else if |parts| == 1 then parts[0]
    else parts[0] + [','] + Join(parts[1..])
  }

  /** All `,`-separated segments of `s`; there is always at least one. */
  function Split(s: string): (parts: seq<string>)
    ensures |parts| >= 1
    ensures forall k :: 0 <= k < |parts| ==> ',' !in parts[k]
    decreases |s|
  {
    var i := FirstComma(s);
    if i == |s| then [s] else [s[..i]] + Split(s[i + 1..])
  }

  /** Segment `k` of `s`, or the empty string when `s` has fewer segments. */
  function Segment(s: string, k: nat): string
  {
    var parts := Split(s);
    if k < |parts| then parts[k] else []
  }

  /** Renders a record as a line of the course file. */
  function FormatLine(c: Course): string
  {
    Join([c.courseId, c.title, c.prereq1, c.prereq2])
  }

  /** A field the file format can carry unchanged through a parse. */
  predicate IsCleanField(f: string)
  {
    ',' !in f && TrimEnd(f) == f
  }

  // ---------------------------------------------------------------------
  // Lemmas
  // ---------------------------------------------------------------------

  /** Trimming twice is the same as trimming once. */
  lemma TrimEndIdempotent(s: string)
    ensures TrimEnd(TrimEnd(s)) == TrimEnd(s)
  {
    var r := TrimEnd(s);
    if |r| > 0 {
      assert FindLastNotOf(r) == Index(|r| - 1);
    }
  }

  /** A field is emptied by trimming exactly when it holds only trailing
      spaces; otherwise its first character, leading blank or not, stays. */
  lemma TrimEndEmptyIff(s: string)
    ensures TrimEnd(s) == [] <==> AllTrailingSpace(s)
    ensures TrimEnd(s) != [] ==> TrimEnd(s)[0] == s[0]
  {
  }

  /** The `find_last_not_of`/`erase` trim agrees with dropping trailing spaces
      one at a time. */
  lemma {:induction false} TrimEndIsStripTrailing(s: string)
    ensures TrimEnd(s) == StripTrailing(s)
    decreases |s|
  {
    if |s| > 0 && IsTrailingSpace(s[|s| - 1]) {
      var t := s[..|s| - 1];
      TrimEndIsStripTrailing(t);
      assert FindLastNotOf(s) == FindLastNotOf(t);
      assert s[..|s| - 1][..|TrimEnd(t)|] == s[..|TrimEnd(t)|];
    }
  }

  /** Appending a trailing space (such as the '\r' of a CRLF line end) does
      not change the trimmed field. */
  lemma TrimEndAppendSpace(s: string, c: char)
    requires IsTrailingSpace(c)
    ensures TrimEnd(s + [c]) == TrimEnd(s)
  {
    assert (s + [c])[..|s|] == s;
    assert FindLastNotOf(s + [c]) == FindLastNotOf(s);
  }

  /** Joining the segments of a line gives the line back. */
  lemma {:induction false} JoinSplit(s: string)
    ensures Join(Split(s)) == s
    decreases |s|
  {
    var i := FirstComma(s);
    if i < |s| {
      var tail := s[i + 1..];
      var parts := Split(s);
      JoinSplit(tail);
      assert parts[1..] == Split(tail);
      assert Join(parts) == s[..i] + [','] + Join(Split(tail));
      CutAtComma(s, i);
    }
  }

  /** A string is the text before its comma at `i`, the comma, and the rest. */
  lemma CutAtComma(s: string, i: nat)
    requires i < |s| && s[i] == ','
    ensures s == s[..i] + [','] + s[i + 1..]
  {
  }

  /** Splitting the joined segments gives the segments back when none of them
      holds a ','. */
  lemma {:induction false} SplitJoin(parts: seq<string>)
    requires |parts| >= 1
    requires forall k :: 0 <= k < |parts| ==> ',' !in parts[k]
    ensures Split(Join(parts)) == parts
    decreases |parts|
  {
    if |parts| > 1 {
      var tail := Join(parts[1..]);
      assert Join(parts) == parts[0] + [','] + tail;
      SplitAfterPrefix(parts[0], tail);
      SplitJoin(parts[1..]);
      assert parts == [parts[0]] + parts[1..];
    } else {
      assert FirstComma(parts[0]) == |parts[0]|;
    }
  }

  /** The first comma of `p + "," + t` is the one right after `p`. */
  lemma FirstCommaAfterPrefix(p: string, t: string)
    requires ',' !in p
    ensures FirstComma(p + [','] + t) == |p|
  {
    var s := p + [','] + t;
    assert s[|p|] == ',';
    assert forall j :: 0 <= j < |p| ==> s[j] == p[j];
  }

  /** Splitting `p + "," + t` gives `p` and then the segments of `t`. */
  lemma SplitAfterPrefix(p: string, t: string)
    requires ',' !in p
    ensures Split(p + [','] + t) == [p] + Split(t)
  {
    var s := p + [','] + t;
    FirstCommaAfterPrefix(p, t);
    assert s[..|p|] == p;
    assert s[|p| + 1..] == t;
  }

  /** One `getline` consumes exactly segment 0 and leaves the remaining
      segments, shifted down by one. */
  lemma GetFieldSegments(s: string, k: nat)
    ensures GetField(s).0 == Segment(s, 0)
    ensures Segment(GetField(s).1, k) == Segment(s, k + 1)
  {
    var i := FirstComma(s);
    if i == |s| {
      assert Split([]) == [[]];
    }
  }

  /** Parsing yields the first four segments of the line, each trimmed at
      its end; missing segments give empty fields and text after a fourth
      ',' is discarded. */
  lemma ParseLineFields(line: string)
    ensures ParseLine(line) == Course(TrimEnd(Segment(line, 0)), TrimEnd(Segment(line, 1)),
                                      TrimEnd(Segment(line, 2)), TrimEnd(Segment(line, 3)))
  {
    var r1 := GetField(line).1;
    var r2 := GetField(r1).1;
    var r3 := GetField(r2).1;
    GetFieldSegments(line, 0);
    GetFieldSegments(line, 1);
    GetFieldSegments(line, 2);
    GetFieldSegments(r1, 0);
    GetFieldSegments(r1, 1);
    GetFieldSegments(r2, 0);
    GetFieldSegments(r3, 0);
    assert GetField(r1).0 == Segment(line, 1);
    assert GetField(r2).0 == Segment(line, 2);
    assert GetField(r3).0 == Segment(line, 3);
  }

  /** A line without any ',' is a record holding the trimmed line as its id
      and nothing else; the empty line is the all-empty record. */
  lemma NoCommaLine(line: string)
    requires ',' !in line
    ensures ParseLine(line) == Course(TrimEnd(line), [], [], [])
    ensures line == [] ==> ParseLine(line) == Course([], [], [], [])
  {
    assert FirstComma(line) == |line|;
    assert FirstComma([]) == 0;
  }

  /** Formatting a record and parsing the line gives the record back, as long
      as no field holds a ',' or ends in a trailing space. */
  lemma FormatParseRoundTrip(c: Course)
    requires IsCleanField(c.courseId) && IsCleanField(c.title)
    requires IsCleanField(c.prereq1) && IsCleanField(c.prereq2)
    ensures ParseLine(FormatLine(c)) == c
  {
    var parts := [c.courseId, c.title, c.prereq1, c.prereq2];
    SplitJoin(parts);
    ParseLineFields(FormatLine(c));
  }

  /** `parts` with `c` appended to its last segment. */
  function AppendToLast(parts: seq<string>, c: char): (r: seq<string>)
    requires |parts| >= 1
    ensures |r| == |parts|
    ensures forall k :: 0 <= k < |parts| - 1 ==> r[k] == parts[k]
    ensures r[|parts| - 1] == parts[|parts| - 1] + [c]
  {
    parts[..|parts| - 1] + [parts[|parts| - 1] + [c]]
  }

  lemma AppendToLastCons(x: string, parts: seq<string>, c: char)
    requires |parts| >= 1
    ensures AppendToLast([x] + parts, c) == [x] + AppendToLast(parts, c)
  {
  }

  /** Appending a character other than ',' extends the last segment. */
  lemma {:induction false} SplitAppend(s: string, c: char)
    requires c != ','
    ensures Split(s + [c]) == AppendToLast(Split(s), c)
    decreases |s|
  {
    var t := s + [c];
    var i := FirstComma(s);
    FirstCommaAppend(s, c);
    if i < |s| {
      var rest := s[i + 1..];
      assert t[..i] == s[..i];
      assert t[i + 1..] == rest + [c];
      SplitAppend(rest, c);
      AppendToLastCons(s[..i], Split(rest), c);
    }
  }

  /** Appending a character other than ',' moves no comma: the first comma
      stays where it was, or there is still none. */
  lemma FirstCommaAppend(s: string, c: char)
    requires c != ','
    ensures FirstComma(s + [c]) == if FirstComma(s) < |s| then FirstComma(s) else |s| + 1
  {
    var t := s + [c];
    assert forall j :: 0 <= j < |s| ==> t[j] == s[j];
    assert t[|s|] == c;
  }

  /** Appending a trailing space changes no trimmed segment. */
  lemma TrimmedSegmentAppendSpace(line: string, c: char, k: nat)
    requires IsTrailingSpace(c)
    ensures TrimEnd(Segment(line + [c], k)) == TrimEnd(Segment(line, k))
  {
    SplitAppend(line, c);
    if k == |Split(line)| - 1 {
      TrimEndAppendSpace(Split(line)[k], c);
    }
  }

  /** A line that ends in an extra trailing space, such as the '\r' left by a
      CRLF line end, parses to the same record as the line without it. */
  lemma ParseIgnoresTrailingSpace(line: string, c: char)
    requires IsTrailingSpace(c)
    ensures ParseLine(line + [c]) == ParseLine(line)
  {
    ParseLineFields(line);
    ParseLineFields(line + [c]);
    TrimmedSegmentAppendSpace(line, c, 0);
    TrimmedSegmentAppendSpace(line, c, 1);
    TrimmedSegmentAppendSpace(line, c, 2);
    TrimmedSegmentAppendSpace(line, c, 3);
  }
}

# Course catalog — a Dafny model

A model of the course-planning program in `ProjectTwo.cpp`. The program
reads a comma-separated course file into a map from course identifier to
course record. It then answers two read-only queries from an interactive
menu: the alphanumeric listing of all courses, and the title and resolved
prerequisites of one course.

The model has five modules:

- `RecordParser` (`parser.dfy`) turns one line into a `Course`. It does
  this the way four `std::getline(ss, field, ',')` calls read the line. Each
  field is then cut with `erase(find_last_not_of(" \n\r\t") + 1)`, including
  the `size_t` wrap-around of `npos + 1` to 0. `Split`/`Join` is a second,
  independent definition of the line format, and the parser is proved to
  agree with it.
- `Ordinal` (`ordinal.dfy`) is the `std::string` `operator<` order. It also
  gives the sorted sequence of a set of identifiers, which is what
  `std::sort` produces.
- `CatalogStore` (`catalog.dfy`) covers loading the file into the catalog
  (the last line carrying an id wins), `printAllCourses` as `ListAll`, and
  `printCourseDetails` as `FindDetails`.
- `Menu` (`menu.dfy`) covers one pass of the `do … while (option != 9)`
  loop as `Step`, and a whole session as `Run` and `StartSession`.
- `Scenario` (`scenario.dfy`) is a worked two-course file: it loads, lists
  and queries it.

Console and file I/O are replaced by data:

- A menu read is a `MenuInput`: a number, or a token that is not a number.
- The course file is a `FileSource`: it cannot be opened, or it is its
  lines.
- Everything printed is an `Output` value.

## Model

| member | source | states |
|---|---|---|
| RecordParser.FindLastNotOf | ProjectTwo.cpp:61-64 | `npos` exactly when every character is one of space, '\n', '\r', '\t'; otherwise the index of the last other character, with only those four characters after it |
| RecordParser.TrimEnd | ProjectTwo.cpp:61-64 | the trimmed field is a prefix of the field. It is empty or ends in a non-blank character. Everything cut off is blank, so leading and inner blanks survive |
| RecordParser.TrimEndIdempotent | ProjectTwo.cpp:61-64 | trimming a trimmed field changes nothing |
| RecordParser.TrimEndEmptyIff | ProjectTwo.cpp:61-64 | a field trims to "" exactly when it is all blanks (the `npos + 1 == 0` case); otherwise its first character is kept |
| RecordParser.TrimEndIsStripTrailing | ProjectTwo.cpp:61-64 | the `find_last_not_of`/`erase` trim equals dropping trailing blanks one at a time |
| RecordParser.FirstComma | ProjectTwo.cpp:55-58 | where one `getline(…, ',')` stops: the first ',' in the text, or its end when it has none |
| RecordParser.GetField | ProjectTwo.cpp:55-58 | a field read by `getline(…, ',')` never contains the delimiter |
| RecordParser.GetFieldSplitsRest | ProjectTwo.cpp:55-58 | a read either consumes all that is left, or splits the rest into field, ',' and the unread remainder |
| RecordParser.Split | ProjectTwo.cpp:55-58 | a line has at least one comma-separated segment, and no segment contains ',' |
| RecordParser.JoinSplit | ProjectTwo.cpp:55-58 | rejoining the segments of a line with ',' gives back the line |
| RecordParser.SplitJoin | ProjectTwo.cpp:55-58 | splitting a comma-free list of segments joined by ',' gives back the list |
| RecordParser.GetFieldSegments | ProjectTwo.cpp:55-58 | each successive `getline` reads the next segment of the line |
| RecordParser.ParseLine | ProjectTwo.cpp:51-67 | no parsed field contains ',' or ends in a blank, so every parsed record is one the file format carries unchanged; which fields it holds is stated by `ParseLineFields` |
| RecordParser.ParseLineFields | ProjectTwo.cpp:51-67 | the parsed record is the first four segments of the line, each trimmed; missing segments are "" and a fifth segment onward is ignored |
| RecordParser.NoCommaLine | ProjectTwo.cpp:51-67 | a line without ',' is all identifier; an empty line gives the all-empty record |
| RecordParser.FormatParseRoundTrip | ProjectTwo.cpp:51-67 | a record with clean fields, written as a line, parses back to itself |
| RecordParser.ParseIgnoresTrailingSpace | ProjectTwo.cpp:50-64 | a trailing '\r' (or any blank) at the end of a line does not change the parsed record |
| Ordinal.Less | ProjectTwo.cpp:85 | the `std::string` `operator<` that `std::sort` uses: lexicographic order on character codes, where the first differing character decides and a proper prefix comes first; stated by `LessIsFirstDifference` |
| Ordinal.LessIsFirstDifference | ProjectTwo.cpp:85 | the recursive order is exactly the first-difference order: `a` is a proper prefix of `b`, or at the first position where they differ `a` has the smaller character |
| Ordinal.LessIrreflexive | ProjectTwo.cpp:85 | no identifier sorts before itself |
| Ordinal.LessTransitive | ProjectTwo.cpp:85 | the identifier order is transitive |
| Ordinal.LessTotal | ProjectTwo.cpp:85 | any two different identifiers are ordered one way or the other |
| Ordinal.LessAsymmetric | ProjectTwo.cpp:85 | two identifiers are never each before the other |
| Ordinal.LeastExists | ProjectTwo.cpp:85 | a non-empty set of identifiers has a first one in the order |
| Ordinal.LeastUnique | ProjectTwo.cpp:85 | that first identifier is unique |
| Ordinal.SortedIds | ProjectTwo.cpp:77-85 | the identifiers in strictly ascending order: exactly the members of the set, each once |
| Ordinal.AscendingUnique | ProjectTwo.cpp:84-85 | two strictly ascending sequences with the same members are equal, so the sort result is determined by the set |
| CatalogStore.ParseAll | ProjectTwo.cpp:50-64 | one record per line, in file order, each the parse of its line |
| CatalogStore.Store | ProjectTwo.cpp:66-68 | after inserting the records, every key is the id of the record stored under it, and the keys are exactly the records' ids |
| CatalogStore.Build | ProjectTwo.cpp:50-69 | the loaded catalog is well keyed, and its keys are exactly the ids parsed from the lines (an empty id included) |
| CatalogStore.Load | ProjectTwo.cpp:38-73 | the open failure is reported exactly when the file cannot be opened, and the catalog is then empty; otherwise the keys are the parsed ids |
| CatalogStore.LastOccurrenceWins | ProjectTwo.cpp:66-68 | the record stored under an id is the last record carrying it |
| CatalogStore.LastOccurrenceExists | ProjectTwo.cpp:66-68 | each id among the records has a last record carrying it |
| CatalogStore.StoredRecordIsLast | ProjectTwo.cpp:66-68 | every stored record is the last record of the file with that id |
| CatalogStore.LoadLastLineWins | ProjectTwo.cpp:50-69 | of lines sharing an id, the last one's record is what the catalog holds |
| CatalogStore.EmptyLineKey | ProjectTwo.cpp:50-69 | an empty line is not skipped: it stores the all-empty record under "" unless a later line has the empty id |
| CatalogStore.StoreSize | ProjectTwo.cpp:66-68 | one entry per distinct id, never more entries than records |
| CatalogStore.DistinctIdsSize | ProjectTwo.cpp:66-68 | records with pairwise different ids give one entry each |
| CatalogStore.LoadSize | ProjectTwo.cpp:50-69 | the loaded catalog has one course per distinct id, at most one per line, and exactly one per line when the ids differ |
| CatalogStore.ListAll | ProjectTwo.cpp:76-90 | every course once, ids strictly ascending, each with its stored title, and as many rows as courses |
| CatalogStore.ListingUnique | ProjectTwo.cpp:76-90 | any listing with those properties is the one `ListAll` gives |
| CatalogStore.SameRecordsSameIds | ProjectTwo.cpp:66-68 | records drawn from the same set give the same key set |
| CatalogStore.SameRecordsSameCatalog | ProjectTwo.cpp:66-68 | with pairwise different ids, the catalog does not depend on the order of insertion |
| CatalogStore.ReorderedLinesSameRecords | ProjectTwo.cpp:50-64 | reordered lines parse to the same set of records |
| CatalogStore.ListingIgnoresLineOrder | ProjectTwo.cpp:76-90 | reordering the file's lines leaves the listed ids unchanged, and the whole listing too when the ids differ |
| CatalogStore.Resolve | ProjectTwo.cpp:105-127 | an empty field shows nothing. A field naming a stored course shows that course's id and title. Any other field shows its literal text as not found |
| CatalogStore.FindDetails | ProjectTwo.cpp:94-133 | not found exactly when the id is absent (carrying the id); otherwise the stored title and both prerequisite slots resolved |
| CatalogStore.ResolveNamesReference | ProjectTwo.cpp:105-127 | in a well-keyed catalog a shown prerequisite names exactly the stored reference; a non-empty one is never dropped |
| Menu.Step | ProjectTwo.cpp:156-203 | the loop goes on unless the choice is 9. A load replaces the catalog whether or not the file opened, reports whether the open failed, and nothing else changes the catalog. Options 2 and 3 report "no data" exactly on an empty catalog; otherwise option 2 gives the ascending listing and option 3 the course's details (title and resolved prerequisites), not found exactly for an absent id. Choice 9 reports exiting, any other number an invalid option, and a non-number invalid input |
| Menu.FirstExit | ProjectTwo.cpp:203 | the index of the first exit choice, or the number of passes when there is none |
| Menu.Run | ProjectTwo.cpp:146-203 | the session ends exactly at the first exit choice, with one report per pass read and "exiting" last; without a load the catalog is untouched. What each report is, is stated by `ReportUsesCurrentCatalog` |
| Menu.ReportUsesCurrentCatalog | ProjectTwo.cpp:146-203 | every pass of a session reports what one step reports on the catalog in force at that pass: the one the last earlier load produced, or the starting catalog when there was none. So a listing or query after a load answers from the loaded data |
| Menu.FinalCatalogInForce | ProjectTwo.cpp:146-203 | the catalog a session ends with is the one in force after its last pass |
| Menu.StartSession | ProjectTwo.cpp:142-203 | a session from the empty catalog exits exactly when some pass chooses 9, and its catalog stays empty until a load |
| Menu.LastLoadDecides | ProjectTwo.cpp:170-179 | the catalog at the end of a session is what its last load produced; earlier loads are discarded |
| Menu.NoDataBeforeLoad | ProjectTwo.cpp:180-195 | before the first load, options 2 and 3 always report "no data" |
| Menu.HarmlessPass | ProjectTwo.cpp:158-166 | a pass that neither loads nor exits, a non-number included, leaves the rest of the session as it would have been |
| Menu.DetailsNameReferences | ProjectTwo.cpp:188-195 | a details query on a stored course shows each prerequisite under its stored reference |
| Scenario.SampleLinesParse | ProjectTwo.cpp:50-67 | the lines "CS101,Intro to CS,," and "CS102,Data Structures,CS101," parse to their courses |
| Scenario.StoreTwo | ProjectTwo.cpp:66-68 | two records with different ids are both stored |
| Scenario.SampleCatalog | ProjectTwo.cpp:50-69 | the sample file loads to exactly CS101 and CS102 |
| Scenario.SampleListing | ProjectTwo.cpp:76-90 | the sample catalog lists CS101 before CS102 with their titles |
| Scenario.SampleDetails | ProjectTwo.cpp:94-133 | CS102's prerequisite resolves to "CS101 - Intro to CS", and CS999 is not found |
| Scenario.SampleQueries | ProjectTwo.cpp:76-133 | loading, listing and querying the sample file end to end |

One behaviour of the code that the model keeps as written: a load that
cannot open its file still prints "Data loaded successfully." (lines
176-177). `Loaded(openFailed)` records both messages.

## Left out

- Which stream a message goes to is not modelled. The "course not found"
  message goes to standard output (line 130) and the "could not open file"
  message to standard error (line 45); `Output` and `Details.NotFound`
  carry only what is reported.

- Console and file I/O: menu text, prompts and the exact wording of output
  lines. `Course::print` is never called and is not modelled.
- `std::cin >> option` and `clearInputStream`: the model takes the already
  decoded `MenuInput`. A token that fails to parse is `NotANumber`. A number
  outside the `int` range, which also sets the fail state, is not
  distinguished.
- Reading the file name with `getline`, and splitting the file into lines:
  the file is given as its lines with '\n' removed.
- The query id of option 3 comes from `std::cin >> courseId`, so it never
  contains blanks. `FindDetails` accepts any string, which covers that case.
- `std::sort` as an algorithm: `SortedIds` states its result (the ascending
  order of the keys) and builds it by repeated least-element selection.
- Characters are Dafny `char` values (Unicode scalar values).
  `std::string` compares bytes as `unsigned char`. The two orders agree on
  ASCII and on UTF-8 encoded text.
- CSV quoting and escaped commas: the source has none.
- The process exit code (always 0).

/**
 The menu controller: one step per pass through the interactive menu, and a
 whole session as a run of steps that ends at the first "exit" choice.  The
 console is replaced by decoded inputs and structured outputs.
 */
module Menu {
  import opened CatalogStore

  /** What the menu prompt read: a number, or a token that is not one (the
      stream then fails and is reset). */
  datatype MenuInput = NotANumber | Choice(code: int)

  /** One pass through the menu: the choice, and what the follow-up prompt
      of that pass reads (the course file for option 1, the course id for
      option 3; ignored otherwise). */
  datatype Event = Event(input: MenuInput, file: FileSource, query: string)

  /** What one pass reports to the user. */
  datatype Output =
    | InvalidInput              // not a number: "Invalid input"
    | Loaded(openFailed: bool)  // "Could not open file" when openFailed, then "Data loaded successfully."
    | NoData                    // option 2 or 3 with an empty catalog
    | Listing(rows: seq<Row>)   // option 2
    | CourseDetails(details: Details) // option 3
    | Exiting                   // option 9
    | InvalidOption             // any other number

  /** The catalog after one pass, what was reported, and whether the menu
      is shown again. */
  datatype StepResult = StepResult(catalog: Catalog, output: Output, running: bool)

  predicate IsExit(e: Event)
  {
    e.input == Choice(9)
  }

  predicate IsLoad(e: Event)
  {
    e.input == Choice(1)
  }

  /** True for options 2 and 3, the queries guarded by "catalog non-empty". */
  predicate IsQuery(e: Event)
  {
    e.input == Choice(2) || e.input == Choice(3)
  }

  /** One pass through the menu loop. */
  function Step(cat: Catalog, e: Event): (r: StepResult)
    ensures r.running <==> !IsExit(e)
    ensures IsLoad(e) ==> r.catalog == Load(e.file).catalog
    ensures !IsLoad(e) ==> r.catalog == cat
    ensures WellKeyed(cat) ==> WellKeyed(r.catalog)
    ensures IsQuery(e) ==> (r.output == NoData <==> |cat| == 0)
    ensures e.input == Choice(2) && |cat| > 0 ==> r.output.Listing? && IsListing(cat, r.output.rows)
    ensures e.input == Choice(3) && |cat| > 0 ==>
              r.output.CourseDetails? && (r.output.details.NotFound? <==> e.query !in cat)
    ensures IsLoad(e) ==> r.output == Loaded(Load(e.file).openFailed)
    ensures e.input == Choice(3) && |cat| > 0 ==> r.output == CourseDetails(FindDetails(cat, e.query))
    ensures IsExit(e) ==> r.output == Exiting
    ensures e.input.Choice? && e.input.code != 1 && e.input.code != 2 && e.input.code != 3 && e.input.code != 9 ==>
              r.output == InvalidOption
    ensures e.input.NotANumber? ==> r.output == InvalidInput
  {
    match e.input
    case NotANumber => StepResult(cat, InvalidInput, true)
    case Choice(code) =>
      if code == 1 then
        var loaded := Load(e.file);
        StepResult(loaded.catalog, Loaded(loaded.openFailed), true)
      else if code == 2 then
        if |cat| == 0 then StepResult(cat, NoData, true)
        else StepResult(cat, Listing(ListAll(cat)), true)
      else if code == 3 then
        if |cat| == 0 then StepResult(cat, NoData, true)
        else StepResult(cat, CourseDetails(FindDetails(cat, e.query)), true)
      else if code == 9 then StepResult(cat, Exiting, false)
      else StepResult(cat, InvalidOption, true)
  }

  /** Index of the first "exit" choice, or `|events|` when there is none. */
  function FirstExit(events: seq<Event>): (k: nat)
    ensures k <= |events|
    ensures k < |events| ==> IsExit(events[k])
    ensures forall i :: 0 <= i < k ==> !IsExit(events[i])
  {
    if |events| == 0 || IsExit(events[0]) then 0 else 1 + FirstExit(events[1..])
  }

  /** The state of a session after a sequence of passes. */
  datatype Session = Session(catalog: Catalog, outputs: seq<Output>, exited: bool)

  /** Runs the menu loop over `events`, starting from catalog `cat`: one pass
      per event until the first "exit" choice, after which nothing is read. */
  function Run(cat: Catalog, events: seq<Event>): (s: Session)
    ensures s.exited <==> FirstExit(events) < |events|
    ensures |s.outputs| == if s.exited then FirstExit(events) + 1 else |events|
    ensures s.exited ==> s.outputs[|s.outputs| - 1] == Exiting
    ensures WellKeyed(cat) ==> WellKeyed(s.catalog)
    ensures (forall i :: 0 <= i < |s.outputs| ==> !IsLoad(events[i])) ==> s.catalog == cat
    decreases |events|
  {
    if |events| == 0 then Session(cat, [], false)
    else
      var r := Step(cat, events[0]);
      if !r.running then Session(r.catalog, [r.output], true)
      else
        var rest := Run(r.catalog, events[1..]);
        assert FirstExit(events) == 1 + FirstExit(events[1..]);
        assert forall i :: 1 <= i < |events| ==> events[1..][i - 1] == events[i];
        Session(rest.catalog, [r.output] + rest.outputs, rest.exited)
  }

  /** A program session: the catalog starts empty. */
  function StartSession(events: seq<Event>): (s: Session)
    ensures s.exited <==> exists i :: 0 <= i < |events| && IsExit(events[i])
    ensures |s.outputs| <= |events|
    ensures WellKeyed(s.catalog)
    ensures (forall i :: 0 <= i < |s.outputs| ==> !IsLoad(events[i])) ==> s.catalog == map[]
  {
    Run(map[], events)
  }

  /** The catalog in force when pass `k` starts: what the last load among
      the first `k` passes produced, or `cat` when none of them loads. */
  function CatalogBefore(cat: Catalog, events: seq<Event>, k: nat): Catalog
    requires k <= |events|
  {
    if k == 0 then cat
    else if IsLoad(events[k - 1]) then Load(events[k - 1].file).catalog
    else CatalogBefore(cat, events, k - 1)
  }

  // ---------------------------------------------------------------------
  // Lemmas
  // ---------------------------------------------------------------------

  /** Running the first pass and then counting from the second gives the
      same catalog in force as counting from the start. */
  lemma {:induction false} CatalogBeforeShift(cat: Catalog, events: seq<Event>, k: nat)
    requires 1 <= k <= |events|
    ensures CatalogBefore(Step(cat, events[0]).catalog, events[1..], k - 1) == CatalogBefore(cat, events, k)
    decreases k
  {
    var rest := events[1..];
    var c0 := Step(cat, events[0]).catalog;
    if k == 1 {
      assert CatalogBefore(c0, rest, 0) == c0;
    } else {
      assert rest[k - 2] == events[k - 1];
      if IsLoad(events[k - 1]) {
        assert CatalogBefore(c0, rest, k - 1) == Load(events[k - 1].file).catalog;
      } else {
        CatalogBeforeShift(cat, events, k - 1);
        assert CatalogBefore(c0, rest, k - 1) == CatalogBefore(c0, rest, k - 2);
      }
    }
  }

  /** The catalog a session ends with is the one in force after its last
      pass. */
  lemma {:induction false} FinalCatalogInForce(cat: Catalog, events: seq<Event>)
    ensures |Run(cat, events).outputs| <= |events|
    ensures Run(cat, events).catalog == CatalogBefore(cat, events, |Run(cat, events).outputs|)
    decreases |events|
  {
    if |events| > 0 {
      var r := Step(cat, events[0]);
      if r.running {
        var rest := events[1..];
        var tail := Run(r.catalog, rest);
        assert Run(cat, events) == Session(tail.catalog, [r.output] + tail.outputs, tail.exited);
        FinalCatalogInForce(r.catalog, rest);
        CatalogBeforeShift(cat, events, |tail.outputs| + 1);
      } else {
        assert Run(cat, events) == Session(r.catalog, [r.output], true);
        assert CatalogBefore(cat, events, 0) == cat;
      }
    }
  }

  /** Every pass reports what one step reports on the catalog in force at
      that pass: a query after a load answers from the loaded data. */
  lemma {:induction false} ReportUsesCurrentCatalog(cat: Catalog, events: seq<Event>, k: nat)
    requires k < |Run(cat, events).outputs|
    ensures Run(cat, events).outputs[k] == Step(CatalogBefore(cat, events, k), events[k]).output
    decreases |events|
  {
    var r := Step(cat, events[0]);
    if k > 0 {
      var rest := events[1..];
      var tail := Run(r.catalog, rest);
      assert r.running;
      assert Run(cat, events).outputs == [r.output] + tail.outputs;
      ReportUsesCurrentCatalog(r.catalog, rest, k - 1);
      CatalogBeforeShift(cat, events, k);
      assert rest[k - 1] == events[k];
    }
  }

  /** The last load of a session decides the catalog: everything loaded
      before it is discarded, whether or not that load could open its file. */
  lemma {:induction false} LastLoadDecides(cat: Catalog, events: seq<Event>, j: nat)
    requires j < |Run(cat, events).outputs| && IsLoad(events[j])
    requires forall i :: j < i < |Run(cat, events).outputs| ==> !IsLoad(events[i])
    ensures Run(cat, events).catalog == Load(events[j].file).catalog
    decreases |events|
  {
    var r := Step(cat, events[0]);
    if j > 0 {
      var rest := events[1..];
      assert r.running;
      var n := |Run(r.catalog, rest).outputs|;
      assert n == |Run(cat, events).outputs| - 1;
      forall i | j - 1 < i < n ensures !IsLoad(rest[i]) {
        assert rest[i] == events[i + 1];
      }
      LastLoadDecides(r.catalog, rest, j - 1);
    } else if r.running {
      var rest := events[1..];
      var n := |Run(r.catalog, rest).outputs|;
      forall i | 0 <= i < n ensures !IsLoad(rest[i]) {
        assert rest[i] == events[i + 1];
      }
    }
  }

  /** Before the first load, options 2 and 3 always report "no data". */
  lemma {:induction false} NoDataBeforeLoad(events: seq<Event>, k: nat)
    requires k < |StartSession(events).outputs| && IsQuery(events[k])
    requires forall i :: 0 <= i < k ==> !IsLoad(events[i])
    ensures StartSession(events).outputs[k] == NoData
    decreases |events|
  {
    if k > 0 {
      var rest := events[1..];
      assert Step(map[], events[0]).catalog == map[];
      forall i | 0 <= i < k - 1 ensures !IsLoad(rest[i]) {
        assert rest[i] == events[i + 1];
      }
      NoDataBeforeLoad(rest, k - 1);
    }
  }

  /** A pass that neither loads nor exits leaves the rest of the session as
      if it had not happened, apart from its own report: in particular a
      token that is not a number does not disturb the next pass. */
  lemma HarmlessPass(cat: Catalog, e: Event, rest: seq<Event>)
    requires !IsLoad(e) && !IsExit(e)
    ensures Run(cat, [e] + rest).catalog == Run(cat, rest).catalog
    ensures Run(cat, [e] + rest).outputs == [Step(cat, e).output] + Run(cat, rest).outputs
    ensures Run(cat, [e] + rest).exited == Run(cat, rest).exited
  {
    assert ([e] + rest)[1..] == rest;
  }

  /** Once the catalog is well keyed, every shown prerequisite line of a
      details query names exactly the stored prerequisite reference. */
  lemma DetailsNameReferences(cat: Catalog, e: Event)
    requires WellKeyed(cat) && e.input == Choice(3) && e.query in cat
    ensures Step(cat, e).output.CourseDetails?
    ensures NamedId(Step(cat, e).output.details.first) == cat[e.query].prereq1
    ensures NamedId(Step(cat, e).output.details.second) == cat[e.query].prereq2
  {
    ResolveNamesReference(cat, cat[e.query].prereq1);
    ResolveNamesReference(cat, cat[e.query].prereq2);
  }
}

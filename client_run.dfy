/** One run: read the previous run's saved scan, read the current scan, save
    the current scan for the next run, and report the connected clients. */
module ClientRun {
  import opened Wrappers
  import opened PyStr
  import opened PyDict
  import opened ClientScan
  import opened PresenceDiff

  /** The clients reported by a run and the scan it saves for the next run. */
  datatype Outcome = Outcome(current: seq<string>, saved: Dict)

  /** `not previousRunData`: no saved scan, or an empty one. */
  predicate NoBaseline(previous: Option<Dict>)
  {
    previous.None? || IsEmpty(previous.value)
  }

  /** Why the `try` block of the state-file reader raised: the file is
      missing or its second line is not valid JSON, or the trace line failed. */
  datatype ReadError = Unreadable | TypeError

  /** The `try` block of the state-file reader. `loaded` is what opening and
      decoding the file yields (None when either raises); `traceFails` says
      whether the trace line raises after decoding. */
  function ReadState(loaded: Option<Dict>, traceFails: bool): Result<Dict, ReadError>
  {
    match loaded
    case None => Err(Unreadable)
    case Some(d) => if traceFails then Err(TypeError) else Ok(d)
  }

  /** The bare `except`: any exception raised in the `try` block becomes None. */
  function CatchAll(r: Result<Dict, ReadError>): Option<Dict>
  {
    match r
    case Ok(d) => Some(d)
    case Err(_) => None
  }

  /** The reader as intended: the trace line only prints, so the trace flag
      plays no part in what is handed back. */
  function PreviousData(debug: bool, loaded: Option<Dict>): Option<Dict>
  {
    CatchAll(ReadState(loaded, false))
  }

  /** The reader as written: with `debug` set, the trace line adds a string to
      the None that `print` returns and raises TypeError. */
  function PreviousDataAsWritten(debug: bool, loaded: Option<Dict>): Option<Dict>
  {
    CatchAll(ReadState(loaded, debug))
  }

  /** The outcome of a run on the scan rows, given the saved scan it compares against. */
  function RunWith(previous: Option<Dict>, rows: seq<Row>): Result<Outcome, ParseError>
  {
    match Parse(rows)
    case Err(e) => Err(e)
    case Ok(clients) =>
      Ok(Outcome(if NoBaseline(previous) then clients.keys else Diff(previous.value, clients), clients))
  }

  /** A run with the trace flag and the loaded state. */
  function RunSpec(debug: bool, loaded: Option<Dict>, rows: seq<Row>): Result<Outcome, ParseError>
  {
    RunWith(PreviousData(debug, loaded), rows)
  }

  /** A run as written, where the trace flag drops the loaded state. */
  function RunSpecAsWritten(debug: bool, loaded: Option<Dict>, rows: seq<Row>): Result<Outcome, ParseError>
  {
    RunWith(PreviousDataAsWritten(debug, loaded), rows)
  }

  /** The run itself. A read error propagates before anything is saved. The
      saved scan is always the one just read. Without a usable baseline every
      current client is reported; otherwise the clients whose last-seen time
      moved. */
  method Run(debug: bool, loaded: Option<Dict>, rows: seq<Row>) returns (r: Result<Outcome, ParseError>)
    ensures r == RunSpec(debug, loaded, rows)
    ensures r.Err? <==> Parse(rows).Err?
    ensures r.Ok? ==> r.value.saved == Parse(rows).value
    ensures r.Ok? && NoBaseline(loaded) ==> r.value.current == r.value.saved.keys
    ensures r.Ok? && !NoBaseline(loaded) ==> r.value.current == Diff(loaded.value, r.value.saved)
  {
    var previousRunData := PreviousData(debug, loaded);
    var clients := GetAllClients(rows);
    if clients.Err? {
      return Err(clients.error);
    }
    var saved := clients.value;
    ParseValid(rows);
    var currentClients;
    if previousRunData.None? || |previousRunData.value.values| == 0 {
      currentClients := clients.value.keys;
    } else {
      currentClients := CalculateCurrentClients(previousRunData.value, clients.value);
    }
    return Ok(Outcome(currentClients, saved));
  }

  /** Every reported client is a client of the current scan, reported once,
      in the scan's order; with a baseline, exactly the clients whose
      last-seen time moved are reported. */
  lemma RunReportsCurrentClients(debug: bool, loaded: Option<Dict>, rows: seq<Row>)
    requires RunSpec(debug, loaded, rows).Ok?
    ensures var o := RunSpec(debug, loaded, rows).value;
      && IsSubsequence(o.current, o.saved.keys)
      && Distinct(o.current)
      && (forall k :: k in o.current ==> k in o.saved.values)
      && (!NoBaseline(loaded) ==> forall k :: k in o.current <==> Changed(loaded.value, o.saved, k))
  {
    var o := RunSpec(debug, loaded, rows).value;
    ParseValid(rows);
    if NoBaseline(loaded) {
      SubsequenceOfItself(o.saved.keys);
    } else {
      DiffOrder(loaded.value, o.saved);
      forall k ensures k in o.current <==> Changed(loaded.value, o.saved, k) {
        DiffHas(loaded.value, o.saved, k);
      }
    }
  }

  lemma {:induction false} SubsequenceOfItself(s: seq<string>)
    ensures IsSubsequence(s, s)
  {
    if s != [] {
      SubsequenceOfItself(s[..|s| - 1]);
    }
  }

  /** Running again on the same export, against the scan the first run saved,
      reports no client and saves the same scan. */
  lemma RunAgainReportsNothing(debug: bool, loaded: Option<Dict>, rows: seq<Row>, debug': bool)
    requires RunSpec(debug, loaded, rows).Ok?
    ensures var saved := RunSpec(debug, loaded, rows).value.saved;
      RunSpec(debug', Some(saved), rows) == Ok(Outcome([], saved))
  {
    var saved := RunSpec(debug, loaded, rows).value.saved;
    DiffSelfEmpty(saved);
  }

  /** The trace flag makes no difference to a run. This holds by the
      definition of `PreviousData`, which hands the loaded state back whatever
      the flag says. */
  lemma RunIgnoresDebug(loaded: Option<Dict>, rows: seq<Row>)
    ensures RunSpec(true, loaded, rows) == RunSpec(false, loaded, rows)
  {
  }

  /** As written, turning the trace flag on changes the report: a client seen
      with the same last-seen time in both scans is reported with the flag on
      (the saved scan was dropped, so every client is reported) and not with
      it off. */
  lemma DebugDropsBaseline()
    ensures var loaded := Some(Dict(["AA:BB"], map["AA:BB" := "10:00:00"]));
      var rows := [[StationHeader], ["AA:BB", " -1", "10:00:00"]];
      && RunSpecAsWritten(false, loaded, rows).Ok?
      && RunSpecAsWritten(false, loaded, rows).value.current == []
      && RunSpecAsWritten(true, loaded, rows).Ok?
      && RunSpecAsWritten(true, loaded, rows).value.current == ["AA:BB"]
  {
    var d := Dict(["AA:BB"], map["AA:BB" := "10:00:00"]);
    OneClientExport();
    assert Diff(d, d) == [] by {
      assert d.keys[..0] == [];
    }
  }

  /** As written, every run with the trace flag on is a cold start: it
      behaves as a run that found no saved state, whatever the state file
      holds. With the flag off it is the corrected run. */
  lemma DebugRunIsColdStart(loaded: Option<Dict>, rows: seq<Row>)
    ensures RunSpecAsWritten(true, loaded, rows) == RunSpec(false, None, rows)
    ensures RunSpecAsWritten(false, loaded, rows) == RunSpec(false, loaded, rows)
  {
  }

  /** An export with one client row after the header reads as that one client. */
  lemma OneClientExport()
    ensures Parse([[StationHeader], ["AA:BB", " -1", "10:00:00"]])
      == Ok(Dict(["AA:BB"], map["AA:BB" := "10:00:00"]))
  {
    var rows: seq<Row> := [[StationHeader], ["AA:BB", " -1", "10:00:00"]];
    assert FirstHeader(rows) == Some(0);
    var section := ClientSection(rows);
    assert section == [["AA:BB", " -1", "10:00:00"]];
    assert !HasShortRow(section);
    OneClientEntries(section);
  }

  lemma OneClientEntries(section: seq<Row>)
    requires section == [["AA:BB", " -1", "10:00:00"]]
    ensures FromPairs(Entries(section)) == Dict(["AA:BB"], map["AA:BB" := "10:00:00"])
  {
    var row := section[0];
    assert IsClientRow(row);
    assert EntryOf(row) == ("AA:BB", "10:00:00") by {
      assert LStrip("AA:BB") == "AA:BB";
      assert RStrip("AA:BB") == "AA:BB";
      assert LStrip("10:00:00") == "10:00:00";
      assert RStrip("10:00:00") == "10:00:00";
    }
    assert section[..0] == [];
    var es := Entries(section);
    assert es == Entries(section[..0]) + [EntryOf(row)];
    assert es == [("AA:BB", "10:00:00")];
    assert es[..0] == [];
    assert FromPairs(es) == Put(Empty(), "AA:BB", "10:00:00");
  }
}

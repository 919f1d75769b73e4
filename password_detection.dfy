/** The password detection stage: the newest DROID CSV report of a
    collection lists its files; those with an Office or PDF extension are
    checked for password protection (and Office files scanned for macros),
    and every protected file is rejected. */
module PasswordDetection {
  import opened Preingest
  import Text
  import Sequences

  /** One row of the DROID CSV report, with the columns the stage reads. */
  datatype DroidRecord = DroidRecord(
    recordType: string,
    filePath: string,
    name: string,
    ext: string,
    formatName: string,
    formatVersion: string,
    puid: string,
    extensionMismatch: string)

  /** A file DROID identified (DataItem). */
  datatype DataItem = DataItem(
    location: string,
    name: string,
    extension: string,
    formatName: string,
    formatVersion: string,
    puid: string,
    isExtensionMismatch: bool)

  /** The per-file result (ResultItem). */
  datatype ResultItem = ResultItem(bestand: string, isProtected: bool, hasMacros: bool)

  /** A `*.csv` file of the target folder, in directory order. */
  datatype CsvFile = CsvFile(fullName: string, creationTime: int)

  /** Everything outside the handler's own code. */
  datatype Environment = Environment(
    targetCollection: string,
    isToPX: bool,
    /** The exception `base.Execute()` throws, if any. */
    baseExecute: Option<Exception>,
    /** The target folder's `*.csv` files, or the exception listing them threw. */
    csvFiles: Result<seq<CsvFile>>,
    /** Reading a CSV report into its rows. */
    readCsv: string -> Result<seq<DroidRecord>>,
    /** `PdfHelper.IsPasswordProtected` */
    pdfProtected: string -> bool,
    /** `MsOfficeHelper.IsPasswordProtected` */
    officeProtected: string -> bool,
    /** The macro scanner: the number of macros it reports for a location. */
    macroScan: string -> Result<nat>,
    /** The stack trace of any exception raised by the handler itself. */
    trace: string)

  /** The extensions of documents that can carry a password. */
  const PasswordProtectedDocs: seq<string> :=
    ["doc", "xls", "ppt", "docx", "xlsx", "pptx", "pdf", "docm", "dotx", "dotm",
     "xlsm", "xltx", "xlsb", "xlam", "pptm", "ppsx", "ppsm"]

  const CsvMissing := ("CSV file not found! Run " + "DROID first.")
  const ProtectionFound := ("Er zijn bestanden met " + "wachtwoord beveiliging " + "gevonden.")
  const NotChecked := ("Deze bestanden worden " + "niet gecontroleerd op " + "wachtwoord beveiliging:")
  const FailedDescription := ("An exception occured " + "while running detection " + "for files with password " + "protection!")
  const CompletedDescription := ("Password protection " + "detection run with a " + "collection is done.")

  function StartDescription(collection: string): string {
    ("Start detection for " + "files with password " + "protection for " + "container '") + collection + "'."
  }

  function FailureHeader(collection: string): string {
    ("Running detection for " + "files with password " + "protection with " + "collection: '") + collection + "' failed!"
  }

  // ---------------------------------------------------------------------
  // Boolean.Parse

  /** The characters `Boolean.Parse` trims (ASCII white space and NUL). */
  predicate IsTrimmed(c: char) {
    c == ' ' || c == '\t' || c == '\n' || c == '\r' || c == '\U{B}' || c == '\U{C}' || c == '\0'
  }

  function TrimStart(s: string): (r: string)
    ensures |r| <= |s|
  {
    if |s| > 0 && IsTrimmed(s[0]) then TrimStart(s[1..]) else s
  }

  function TrimEnd(s: string): (r: string)
    ensures |r| <= |s|
  {
    if |s| > 0 && IsTrimmed(s[|s| - 1]) then TrimEnd(s[..|s| - 1]) else s
  }

  function Trim(s: string): string {
    TrimEnd(TrimStart(s))
  }

  /** `Boolean.Parse`: "True" or "False" in any case, with white space
      around it; anything else is a FormatException. */
  function ParseBool(s: string, trace: string): Result<bool> {
    var t := Text.ToLower(Trim(s));
    if t == "true" then Ok(true)
    else if t == "false" then Ok(false)
    else Fail(Exception("String '" + s + ("' was not recognized as " + "a valid Boolean."), trace))
  }

  lemma {:induction false} TrimStartPadded(w: string, t: string)
    requires forall i :: 0 <= i < |w| ==> IsTrimmed(w[i])
    requires |t| > 0 && !IsTrimmed(t[0])
    ensures TrimStart(w + t) == t
  {
    if |w| > 0 {
      assert (w + t)[1..] == w[1..] + t;
      TrimStartPadded(w[1..], t);
    } else {
      assert w + t == t;
    }
  }

  lemma {:induction false} TrimEndPadded(t: string, w: string)
    requires forall i :: 0 <= i < |w| ==> IsTrimmed(w[i])
    requires |t| > 0 && !IsTrimmed(t[|t| - 1])
    ensures TrimEnd(t + w) == t
  {
    if |w| > 0 {
      assert (t + w)[..|t + w| - 1] == t + w[..|w| - 1];
      TrimEndPadded(t, w[..|w| - 1]);
    } else {
      assert t + w == t;
    }
  }

  /** The text of a boolean, as `bool.ToString()` writes it. */
  function BoolText(b: bool): string {
    if b then "True" else "False"
  }

  /** Trimming a word padded with trimmed characters gives the word back. */
  lemma TrimPadded(before: string, text: string, after: string)
    requires forall i :: 0 <= i < |before| ==> IsTrimmed(before[i])
    requires forall i :: 0 <= i < |after| ==> IsTrimmed(after[i])
    requires |text| > 0 && !IsTrimmed(text[0]) && !IsTrimmed(text[|text| - 1])
    ensures Trim(before + text + after) == text
  {
    TrimStartPadded(before, text + after);
    assert before + text + after == before + (text + after);
    TrimEndPadded(text, after);
  }

  /** A boolean's text, padded with white space and written in any mix of
      cases, parses back to that boolean. */
  lemma ParseBoolRoundTrip(b: bool, before: string, text: string, after: string, trace: string)
    requires forall i :: 0 <= i < |before| ==> IsTrimmed(before[i])
    requires forall i :: 0 <= i < |after| ==> IsTrimmed(after[i])
    requires Text.EqualsIgnoreCase(text, BoolText(b))
    ensures ParseBool(before + text + after, trace) == Ok(b)
  {
    var word := BoolText(b);
    assert |text| == |word|;
    assert Text.LowerChar(text[0]) == Text.LowerChar(word[0]);
    assert Text.LowerChar(text[|text| - 1]) == Text.LowerChar(word[|text| - 1]);
    TrimPadded(before, text, after);
    assert Text.ToLower(word) == if b then "true" else "false";
  }

  // ---------------------------------------------------------------------
  // Dialect filter and extension partition

  /** ToPX: every file except the `.metadata` records. */
  predicate IsToPXCandidate(r: DroidRecord) {
    r.recordType == "File" && r.ext != "metadata"
  }

  /** MDTO: every file except the `.mdto.xml` records. */
  predicate IsMdtoCandidate(r: DroidRecord) {
    r.recordType == "File" && !Text.EndsWith(r.name, ".mdto.xml")
  }

  function Candidates(isToPX: bool, records: seq<DroidRecord>): seq<DroidRecord> {
    if isToPX then Sequences.Filter(IsToPXCandidate, records) else Sequences.Filter(IsMdtoCandidate, records)
  }

  /** Only file records are candidates; ToPX leaves out the `metadata`
      extension and MDTO the names ending in `.mdto.xml`. */
  lemma DialectFilter(isToPX: bool, records: seq<DroidRecord>, r: DroidRecord)
    ensures r in Candidates(isToPX, records) <==>
      && r in records
      && r.recordType == "File"
      && (isToPX ==> r.ext != "metadata")
      && (!isToPX ==> !Text.EndsWith(r.name, ".mdto.xml"))
  {
    if isToPX {
      Sequences.FilterMembership(IsToPXCandidate, records, r);
    } else {
      Sequences.FilterMembership(IsMdtoCandidate, records, r);
    }
  }

  function ToDataItem(r: DroidRecord, trace: string): Result<DataItem> {
    var mismatch :- ParseBool(r.extensionMismatch, trace);
    Ok(DataItem(r.filePath, r.name, r.ext, r.formatName, r.formatVersion, r.puid, mismatch))
  }

  /** The candidates as data items; the first unparsable
      `EXTENSION_MISMATCH` throws. */
  function ToDataItems(records: seq<DroidRecord>, trace: string): (r: Result<seq<DataItem>>)
    ensures r.Ok? ==> |r.value| == |records|
    ensures r.Ok? ==> forall i :: 0 <= i < |records| ==> r.value[i].location == records[i].filePath && r.value[i].extension == records[i].ext
    ensures r.Ok? <==> forall i :: 0 <= i < |records| ==> ParseBool(records[i].extensionMismatch, trace).Ok?
  {
    if |records| == 0 then Ok([])
    else
      var first := ToDataItem(records[0], trace);
      var rest := ToDataItems(records[1..], trace);
      assert forall i :: 1 <= i < |records| ==> records[i] == records[1..][i - 1];
      if first.Fail? then Fail(first.error)
      else if rest.Fail? then Fail(rest.error)
      else Ok([first.value] + rest.value)
  }

  predicate IsCheckable(d: DataItem) {
    Text.ToLower(d.extension) in PasswordProtectedDocs
  }

  predicate IsUnchecked(d: DataItem) {
    Text.ToLower(d.extension) !in PasswordProtectedDocs
  }

  /** The checked and the unchecked files split the DROID files: no file is
      in both, together they hold every file once, and each keeps the input
      order: the files selected from a prefix of the input come before those
      selected from the rest. */
  lemma ExtensionPartition(files: seq<DataItem>)
    ensures |Sequences.Filter(IsCheckable, files)| + |Sequences.Filter(IsUnchecked, files)| == |files|
    ensures multiset(Sequences.Filter(IsCheckable, files)) + multiset(Sequences.Filter(IsUnchecked, files)) == multiset(files)
    ensures forall d :: d in Sequences.Filter(IsCheckable, files) <==> d in files && Text.ToLower(d.extension) in PasswordProtectedDocs
    ensures forall d :: d in Sequences.Filter(IsUnchecked, files) <==> d in files && Text.ToLower(d.extension) !in PasswordProtectedDocs
    ensures forall i :: 0 <= i <= |files| ==>
      && Sequences.Filter(IsCheckable, files) == Sequences.Filter(IsCheckable, files[..i]) + Sequences.Filter(IsCheckable, files[i..])
      && Sequences.Filter(IsUnchecked, files) == Sequences.Filter(IsUnchecked, files[..i]) + Sequences.Filter(IsUnchecked, files[i..])
  {
    Sequences.FilterPartition(IsCheckable, IsUnchecked, files);
    forall d
      ensures d in Sequences.Filter(IsCheckable, files) <==> d in files && IsCheckable(d)
      ensures d in Sequences.Filter(IsUnchecked, files) <==> d in files && IsUnchecked(d)
    {
      Sequences.FilterMembership(IsCheckable, files, d);
      Sequences.FilterMembership(IsUnchecked, files, d);
    }
    forall i | 0 <= i <= |files|
      ensures Sequences.Filter(IsCheckable, files) == Sequences.Filter(IsCheckable, files[..i]) + Sequences.Filter(IsCheckable, files[i..])
      ensures Sequences.Filter(IsUnchecked, files) == Sequences.Filter(IsUnchecked, files[..i]) + Sequences.Filter(IsUnchecked, files[i..])
    {
      assert files == files[..i] + files[i..];
      Sequences.FilterAppend(IsCheckable, files[..i], files[i..]);
      Sequences.FilterAppend(IsUnchecked, files[..i], files[i..]);
    }
  }

  // ---------------------------------------------------------------------
  // DroidCsvOutputLocation

  /** The file with the greatest creation time; among equal times the first
      in directory order (`OrderByDescending` is a stable sort). */
  function NewestCsv(files: seq<CsvFile>): Option<CsvFile> {
    if |files| == 0 then None
    else
      var rest := NewestCsv(files[1..]);
      if rest.None? || files[0].creationTime >= rest.value.creationTime then Some(files[0]) else rest
  }

  /** There is a newest file exactly when there is a file at all; it is one
      of them, none is newer, and every earlier one is strictly older. */
  lemma {:induction false} NewestCsvSelects(files: seq<CsvFile>)
    ensures NewestCsv(files).None? <==> |files| == 0
    ensures NewestCsv(files).Some? ==>
      exists k :: 0 <= k < |files| && files[k] == NewestCsv(files).value
        && (forall j :: 0 <= j < |files| ==> files[j].creationTime <= files[k].creationTime)
        && (forall j :: 0 <= j < k ==> files[j].creationTime < files[k].creationTime)
  {
    if |files| > 0 {
      NewestCsvSelects(files[1..]);
      var rest := NewestCsv(files[1..]);
      if rest.None? || files[0].creationTime >= rest.value.creationTime {
        assert forall j :: 1 <= j < |files| ==> files[j] == files[1..][j - 1];
      } else {
        var k :| 0 <= k < |files[1..]| && files[1..][k] == rest.value
          && (forall j :: 0 <= j < |files[1..]| ==> files[1..][j].creationTime <= files[1..][k].creationTime)
          && (forall j :: 0 <= j < k ==> files[1..][j].creationTime < files[1..][k].creationTime);
        assert files[k + 1] == rest.value;
        forall j | 0 <= j < |files|
          ensures files[j].creationTime <= files[k + 1].creationTime
        {
          if j > 0 {
            assert files[j] == files[1..][j - 1];
          }
        }
        forall j | 0 <= j < k + 1
          ensures files[j].creationTime < files[k + 1].creationTime
        {
          if j > 0 {
            assert files[j] == files[1..][j - 1];
          }
        }
      }
    }
  }

  // ---------------------------------------------------------------------
  // Checking one file

  /** PDF files are checked by the PDF helper and never scanned for macros;
      the other files by the Office helper, and a failing macro scan is
      swallowed. */
  function CheckFile(env: Environment, d: DataItem): ResultItem {
    if Text.EqualsIgnoreCase(d.extension, "pdf") then
      ResultItem(d.location, env.pdfProtected(d.location), false)
    else
      var scan := env.macroScan(d.location);
      ResultItem(d.location, env.officeProtected(d.location), scan.Ok? && scan.value > 0)
  }

  /** The result items of the checked files, in order. */
  function CheckAll(env: Environment, files: seq<DataItem>): (r: seq<ResultItem>)
    ensures |r| == |files|
    ensures forall i :: 0 <= i < |files| ==> r[i] == CheckFile(env, files[i])
  {
    if |files| == 0 then [] else [CheckFile(env, files[0])] + CheckAll(env, files[1..])
  }

  /** The number of protected files among the result items. */
  function ProtectedCount(items: seq<ResultItem>): (n: nat)
    ensures n <= |items|
  {
    if |items| == 0 then 0 else (if items[0].isProtected then 1 else 0) + ProtectedCount(items[1..])
  }

  /** One more result item adds one exactly when it is protected. */
  lemma {:induction false} ProtectedCountSnoc(items: seq<ResultItem>, item: ResultItem)
    ensures ProtectedCount(items + [item]) == ProtectedCount(items) + (if item.isProtected then 1 else 0)
  {
    if |items| > 0 {
      assert (items + [item])[1..] == items[1..] + [item];
      ProtectedCountSnoc(items[1..], item);
    } else {
      assert items + [item] == [item];
    }
  }

  function Locations(files: seq<DataItem>): (r: seq<string>)
    ensures |r| == |files|
    ensures forall i :: 0 <= i < |files| ==> r[i] == files[i].location
  {
    if |files| == 0 then [] else [files[0].location] + Locations(files[1..])
  }

  /** The warning when a protected file was found, then the unchecked files
      under their header. */
  function RunMessages(rejected: int, except: seq<DataItem>): seq<string> {
    (if rejected > 0 then [ProtectionFound] else [])
    + (if |except| > 0 then [NotChecked] + Locations(except) else [])
  }

  // ---------------------------------------------------------------------
  // The stage

  /** Everything before the loop: the checked and the unchecked files, or
      the exception raised on the way. */
  function Prepare(env: Environment): Result<(seq<DataItem>, seq<DataItem>)> {
    if env.baseExecute.Some? then Fail(env.baseExecute.value)
    else
      var csvs :- env.csvFiles;
      var newest := NewestCsv(csvs);
      if newest.None? || newest.value.fullName == "" then Fail(Exception(CsvMissing, env.trace))
      else
        var records :- env.readCsv(newest.value.fullName);
        var filesByDroid :- ToDataItems(Candidates(env.isToPX, records), env.trace);
        Ok((Sequences.Filter(IsCheckable, filesByDroid), Sequences.Filter(IsUnchecked, filesByDroid)))
  }

  function StartEvent(env: Environment): Event {
    Event(Started, StartDescription(env.targetCollection), InitialSummary, NoResult)
  }

  /** What `Execute` leaves behind. */
  function ExecuteSpec(env: Environment): StageOutcome<ResultItem> {
    match Prepare(env)
    case Fail(e) => FailedOutcome(env, e)
    case Ok((filtered, except)) => CompletedOutcome(env, filtered, except)
  }

  /** The outcome when something before the loop throws `e`. */
  function FailedOutcome(env: Environment, e: Exception): StageOutcome<ResultItem> {
    var summary := Summary(1, 0, 1);
    StageOutcome(summary, ActionResults.Failed, FailureMessages(FailureHeader(env.targetCollection), e), None,
      [StartEvent(env), Event(ActionStates.Failed, FailedDescription, summary, ActionResults.Failed)])
  }

  /** The outcome once the files to check and the unchecked files are known. */
  function CompletedOutcome(env: Environment, filtered: seq<DataItem>, except: seq<DataItem>): StageOutcome<ResultItem> {
    var items := CheckAll(env, filtered);
    var rejected := ProtectedCount(items);
    var summary := Summary(|filtered|, |filtered| - rejected, rejected);
    var result := if rejected > 0 then Error else Success;
    StageOutcome(summary, result, RunMessages(rejected, except), Some(items),
      [StartEvent(env), Event(Completed, CompletedDescription, summary, result)])
  }

  /** The `foreach` over the checked files: one result item per file, and
      one more rejected file per protected one. */
  method CheckFiles(env: Environment, run: ActionModel<ResultItem>, filtered: seq<DataItem>) returns (jsonData: seq<ResultItem>)
    requires run.rejected == 0
    modifies run`rejected
    ensures jsonData == CheckAll(env, filtered)
    ensures run.rejected == ProtectedCount(jsonData)
  {
    jsonData := [];
    for i := 0 to |filtered|
      invariant |jsonData| == i
      invariant forall k :: 0 <= k < i ==> jsonData[k] == CheckFile(env, filtered[k])
      invariant run.rejected == ProtectedCount(jsonData)
    {
      var item := CheckFile(env, filtered[i]);
      ProtectedCountSnoc(jsonData, item);
      if item.isProtected {
        run.rejected := run.rejected + 1;
      }
      jsonData := jsonData + [item];
    }
    ghost var all := CheckAll(env, filtered);
    assert forall k :: 0 <= k < |filtered| ==> jsonData[k] == all[k];
  }

  /** One more file adds its location at the end. */
  lemma LocationsSnoc(files: seq<DataItem>, j: nat)
    requires j < |files|
    ensures Locations(files[..j + 1]) == Locations(files[..j]) + [files[j].location]
  {
    var l := Locations(files[..j + 1]);
    assert l[..j] == Locations(files[..j]);
  }

  /** The message list, built as the handler builds it. */
  method CollectMessages(rejected: int, except: seq<DataItem>) returns (anyMessages: seq<string>)
    ensures anyMessages == RunMessages(rejected, except)
  {
    anyMessages := [];
    if rejected > 0 {
      anyMessages := anyMessages + [ProtectionFound];
    }
    ghost var warning := anyMessages;
    assert warning == if rejected > 0 then [ProtectionFound] else [];
    if |except| > 0 {
      anyMessages := anyMessages + [NotChecked];
      for j := 0 to |except|
        invariant anyMessages == warning + [NotChecked] + Locations(except[..j])
      {
        LocationsSnoc(except, j);
        anyMessages := anyMessages + [except[j].location];
      }
      assert except[..|except|] == except;
      Sequences.AppendAssoc(warning, [NotChecked], Locations(except));
    } else {
      assert anyMessages == warning + [];
    }
  }

  /** The `catch` block: one processed, rejected file and the exception as
      the messages, then a Failed event. */
  method FailRun(env: Environment, run: ActionModel<ResultItem>, e: Exception)
    requires run.Outcome() == StageOutcome(InitialSummary, NoResult, [], None, [StartEvent(env)])
    modifies run
    ensures run.Outcome() == FailedOutcome(env, e)
  {
    run.resultValue := ActionResults.Failed;
    run.messages := FailureMessages(FailureHeader(env.targetCollection), e);
    run.processed, run.accepted, run.rejected := 1, 0, 1;
    run.Trigger(ActionStates.Failed, FailedDescription);
  }

  /** The rest of the `try` block: check the files, collect the messages and
      the verdict, then a Completed event. */
  method CompleteRun(env: Environment, run: ActionModel<ResultItem>, filtered: seq<DataItem>, except: seq<DataItem>)
    requires run.Outcome() == StageOutcome(InitialSummary, NoResult, [], None, [StartEvent(env)])
    modifies run
    ensures run.Outcome() == CompletedOutcome(env, filtered, except)
  {
    run.rejected, run.accepted := 0, 0;
    run.processed := |filtered|;
    var jsonData := CheckFiles(env, run, filtered);
    Conclude(env, run, jsonData, except);
  }

  /** After the loop: the unchecked files and the verdict. */
  method Conclude(env: Environment, run: ActionModel<ResultItem>, jsonData: seq<ResultItem>, except: seq<DataItem>)
    requires run.processed == |jsonData| && run.accepted == 0 && run.rejected == ProtectedCount(jsonData)
    requires run.resultValue == NoResult && run.messages == [] && run.data.None? && run.events == [StartEvent(env)]
    modifies run
    ensures var rejected := ProtectedCount(jsonData);
      var summary := Summary(|jsonData|, |jsonData| - rejected, rejected);
      var result := if rejected > 0 then Error else Success;
      run.Outcome() == StageOutcome(summary, result, RunMessages(rejected, except), Some(jsonData),
        [StartEvent(env), Event(Completed, CompletedDescription, summary, result)])
  {
    var anyMessages := CollectMessages(run.rejected, except);
    var result := if run.rejected > 0 then Error else Success;
    run.messages, run.data, run.accepted, run.resultValue := anyMessages, Some(jsonData), run.processed - run.rejected, result;
    run.Trigger(Completed, CompletedDescription);
  }

  /** `Execute`: the handler's body, step by step on a fresh action model. */
  method Execute(env: Environment) returns (run: ActionModel<ResultItem>)
    ensures fresh(run)
    ensures run.Outcome() == ExecuteSpec(env)
  {
    run := new ActionModel<ResultItem>();
    run.Trigger(Started, StartDescription(env.targetCollection));
    var prepared := Prepare(env);
    if prepared.Fail? {
      FailRun(env, run, prepared.error);
    } else {
      var (filtered, except) := prepared.value;
      CompleteRun(env, run, filtered, except);
    }
  }

  // ---------------------------------------------------------------------
  // Properties of the stage

  /** On a completed run: one result item per checked file, in order;
      `rejected` counts the protected files, `accepted` the others (never
      negative), and the verdict is Error exactly when a file is protected. */
  lemma ExecuteCounters(env: Environment)
    requires Prepare(env).Ok?
    ensures var (filtered, except) := Prepare(env).value;
      var o := ExecuteSpec(env);
      && o.summary.processed == |filtered|
      && o.data.Some? && |o.data.value| == |filtered|
      && (forall i :: 0 <= i < |filtered| ==> o.data.value[i].bestand == filtered[i].location)
      && (forall i :: 0 <= i < |filtered| ==>
            o.data.value[i].isProtected
              == if Text.EqualsIgnoreCase(filtered[i].extension, "pdf") then env.pdfProtected(filtered[i].location)
                 else env.officeProtected(filtered[i].location))
      && o.summary.rejected == ProtectedCount(o.data.value)
      && 0 <= o.summary.accepted
      && o.summary.accepted + o.summary.rejected == o.summary.processed
      && (o.result == Error <==> o.summary.rejected > 0)
      && (o.result == Success <==> o.summary.rejected == 0)
  {
  }

  /** The messages of a completed run: the protection warning first when a
      file is protected, then, when some file was not checked, the header
      and the location of each unchecked file in order. */
  lemma ExecuteMessages(env: Environment)
    requires Prepare(env).Ok?
    ensures var (filtered, except) := Prepare(env).value;
      var o := ExecuteSpec(env);
      var w := if o.summary.rejected > 0 then 1 else 0;
      && |o.messages| == w + (if |except| > 0 then 1 + |except| else 0)
      && (o.summary.rejected > 0 ==> o.messages[0] == ProtectionFound)
      && (|except| > 0 ==>
            && o.messages[w] == NotChecked
            && forall i :: 0 <= i < |except| ==> o.messages[w + 1 + i] == except[i].location)
  {
  }

  /** A macro scan never affects the counters, the verdict or the messages,
      and PDF files never report macros. */
  lemma MacroIsolation(env: Environment, scan: string -> Result<nat>)
    ensures ExecuteSpec(env).summary == ExecuteSpec(env.(macroScan := scan)).summary
    ensures ExecuteSpec(env).result == ExecuteSpec(env.(macroScan := scan)).result
    ensures ExecuteSpec(env).messages == ExecuteSpec(env.(macroScan := scan)).messages
    ensures forall d: DataItem :: Text.EqualsIgnoreCase(d.extension, "pdf") ==> !CheckFile(env, d).hasMacros
    ensures forall d: DataItem :: env.macroScan(d.location).Fail? ==> !CheckFile(env, d).hasMacros
  {
    var other := env.(macroScan := scan);
    assert Prepare(env) == Prepare(other);
    if Prepare(env).Ok? {
      var filtered := Prepare(env).value.0;
      ProtectionCount(env, other, filtered);
    }
  }

  lemma {:induction false} ProtectionCount(env: Environment, other: Environment, files: seq<DataItem>)
    requires env.pdfProtected == other.pdfProtected && env.officeProtected == other.officeProtected
    ensures ProtectedCount(CheckAll(env, files)) == ProtectedCount(CheckAll(other, files))
  {
    if |files| > 0 {
      ProtectionCount(env, other, files[1..]);
    }
  }

  /** The stage fails exactly when something before the loop throws, among
      which a missing CSV report; it then reports one processed, rejected
      file, three messages under the collection's header and no data. */
  lemma ExecuteFailure(env: Environment)
    ensures var o := ExecuteSpec(env);
      && (o.result == ActionResults.Failed <==> Prepare(env).Fail?)
      && (env.baseExecute.None? && env.csvFiles == Ok([]) ==>
            Prepare(env) == Fail(Exception(CsvMissing, env.trace)))
      && (o.result == ActionResults.Failed ==>
            && o.summary == Summary(1, 0, 1)
            && |o.messages| == 3 && o.messages[0] == FailureHeader(env.targetCollection)
            && o.data.None?)
  {
  }

  /** The event trace is Started then exactly one of Completed (on success)
      or Failed. */
  lemma ExecuteLifecycle(env: Environment)
    ensures var o := ExecuteSpec(env);
      && IsLifecycle(o.events) && |o.events| == 2
      && o.events[0] == StartEvent(env)
      && (o.events[1].state == Completed <==> o.result != ActionResults.Failed)
  {
  }
}

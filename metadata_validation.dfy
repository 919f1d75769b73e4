/** The metadata validation stage: every `.metadata` (ToPX) or `.mdto.xml`
    (MDTO) file of a session is sent to the XSLWeb validation service; MDTO
    records have their usage restrictions checked against the vocabulary,
    ToPX `bestand` records their openness against the enclosing folder's
    record; the stage then counts accepted and rejected files. */
module MetadataValidation {
  import opened Preingest
  import opened MetadataXml
  import opened Beperkingen
  import Text
  import Sequences
  import UriEscaping

  /** The application settings the stage reads. */
  datatype Settings = Settings(
    dataFolderName: string,
    xslWebServerName: string,
    xslWebServerPort: string,
    utilitiesServerName: string,
    utilitiesServerPort: string)

  datatype SchematronError = SchematronError(message: string)

  datatype SchemaError = SchemaError(message: string, line: string, col: string)

  /** The deserialised answer of the validation service; a report or its
      error list may be absent (null). */
  datatype ValidationReport = ValidationReport(
    schematronErrors: Option<seq<SchematronError>>,
    schemaErrors: Option<seq<SchemaError>>)

  /** The per-file result (MetadataValidationItem). */
  datatype MetadataValidationItem = MetadataValidationItem(
    metadataFilename: string,
    requestUri: string,
    isValidated: bool,
    isConfirmSchema: bool,
    isConfirmBegrippenLijst: Tri,
    errorMessages: seq<string>)

  /** Everything outside the handler's own code. A call that may throw
      returns a `Result`; services are looked up by request URL, documents
      and files by path. */
  datatype Environment = Environment(
    settings: Settings,
    isToPX: bool,
    isMDTO: bool,
    /** The exception `base.Execute()` throws, if any. */
    baseExecute: Option<Exception>,
    /** The session folder's `*.metadata` files, recursively. */
    metadataFiles: Result<seq<string>>,
    /** The session folder's `*.xml` files, recursively. */
    xmlFiles: Result<seq<string>>,
    /** GET on the validation service, status check and deserialisation. */
    validationService: string -> Result<ValidationReport>,
    /** GET on the utilities service's vocabulary, status check and
        deserialisation. */
    vocabularyService: string -> Result<seq<Beperking>>,
    /** `XDocument.Load` */
    load: string -> Result<XmlDoc>,
    /** Whether a file of that path exists. */
    fileExists: string -> bool,
    /** The stack trace of any exception raised by the handler itself. */
    trace: string)

  const Header := ("An exception occured in " + "metadata validation!")

  // ---------------------------------------------------------------------
  // Request path (GetProcessingUrl)

  /** The data folder, ending in exactly the `/` it may already have. */
  function DataPrefix(dataFolderName: string): (r: string)
    ensures Text.EndsWith(r, "/")
    ensures |dataFolderName| <= |r| && r[..|dataFolderName|] == dataFolderName
    ensures |r| == |dataFolderName| <==> Text.EndsWith(dataFolderName, "/")
    ensures |r| == |dataFolderName| || |r| == |dataFolderName| + 1
  {
    if Text.EndsWith(dataFolderName, "/") then dataFolderName else dataFolderName + "/"
  }

  function Route(isToPX: bool): string {
    if isToPX then "topxvalidation" else "mdtovalidation"
  }

  function ServiceRoot(server: string, port: string, isToPX: bool): string {
    "http://" + server + ":" + port + "/" + Route(isToPX) + "/"
  }

  /** `GetProcessingUrl`: drop as many leading characters as the data prefix
      has (`String.Remove` throws when the path is shorter), escape each
      `/`-separated segment of the rest and put it under the route. */
  function ProcessingUrl(env: Environment, path: string): Result<string> {
    var data := DataPrefix(env.settings.dataFolderName);
    if |path| < |data| then Fail(Exception(("Index and count must " + "refer to a location " + "within the string. " + "(Parameter 'count')"), env.trace))
    else Ok(ServiceRoot(env.settings.xslWebServerName, env.settings.xslWebServerPort, env.isToPX)
            + UriEscaping.EscapePath(path[|data|..]))
  }

  /** The URL exists exactly when the path is at least as long as the data
      prefix; it is the route's root followed by the escaped relative path,
      segment by segment. */
  lemma ProcessingUrlShape(env: Environment, path: string)
    ensures var data := DataPrefix(env.settings.dataFolderName);
      var r := ProcessingUrl(env, path);
      && (r.Ok? <==> |data| <= |path|)
      && (r.Ok? ==>
            var rel := path[|data|..];
            var root := ServiceRoot(env.settings.xslWebServerName, env.settings.xslWebServerPort, env.isToPX);
            && |root| <= |r.value|
            && r.value[..|root|] == root
            && Text.Split(r.value[|root|..], '/') == Sequences.Map(UriEscaping.EscapeDataString, Text.Split(rel, '/')))
  {
    var data := DataPrefix(env.settings.dataFolderName);
    if |data| <= |path| {
      var rel := path[|data|..];
      var root := ServiceRoot(env.settings.xslWebServerName, env.settings.xslWebServerPort, env.isToPX);
      var url := root + UriEscaping.EscapePath(rel);
      assert url[..|root|] == root;
      assert url[|root|..] == UriEscaping.EscapePath(rel);
      UriEscaping.EscapePathSegments(rel);
    }
  }

  /** With no '%' in the server name and port, unescaping the URL gives the
      route's root followed by the relative path itself. */
  lemma ProcessingUrlUnescapes(env: Environment, path: string)
    requires '%' !in env.settings.xslWebServerName && '%' !in env.settings.xslWebServerPort
    ensures var data := DataPrefix(env.settings.dataFolderName);
      var r := ProcessingUrl(env, path);
      r.Ok? ==>
        UriEscaping.UnescapeDataString(r.value)
          == ServiceRoot(env.settings.xslWebServerName, env.settings.xslWebServerPort, env.isToPX) + path[|data|..]
  {
    var data := DataPrefix(env.settings.dataFolderName);
    if |data| <= |path| {
      var rel := path[|data|..];
      var root := ServiceRoot(env.settings.xslWebServerName, env.settings.xslWebServerPort, env.isToPX);
      assert '%' !in Route(env.isToPX);
      assert '%' !in root;
      UriEscaping.UnescapePlain(root, UriEscaping.EscapePath(rel));
      UriEscaping.UnescapeEscapePath(rel);
    }
  }

  // ---------------------------------------------------------------------
  // Report interpretation (ValidateWithSchema)

  function SchematronMessage(e: SchematronError): string {
    e.message
  }

  function SchemaMessage(e: SchemaError): string {
    e.message + ", " + "Line: " + e.line + ", col: " + e.col
  }

  /** The Schematron messages followed by the schema messages. */
  function ReportMessages(report: ValidationReport): seq<string> {
    (if report.schematronErrors.Some? then Sequences.Map(SchematronMessage, report.schematronErrors.value) else [])
    + (if report.schemaErrors.Some? then Sequences.Map(SchemaMessage, report.schemaErrors.value) else [])
  }

  /** A report is clean when both error lists are absent or empty. */
  predicate IsClean(report: ValidationReport) {
    && (report.schematronErrors.None? || |report.schematronErrors.value| == 0)
    && (report.schemaErrors.None? || |report.schemaErrors.value| == 0)
  }

  function GatewayHeader(url: string, file: string): string {
    ("Exception occured in " + "metadata validation " + "with request '") + UriEscaping.UnescapeDataString(url) + "' for metadata file '" + file + "'!"
  }

  /** The item `ValidateWithSchema` returns, or the exception building the
      request URL threw (that call is outside its `try`). */
  function SchemaItem(env: Environment, file: string): Result<MetadataValidationItem> {
    var url :- ProcessingUrl(env, file);
    match env.validationService(url)
    case Fail(e) =>
      Ok(MetadataValidationItem(file, url, false, false, Unknown, FailureMessages(GatewayHeader(url, file), e)))
    case Ok(report) =>
      var messages := ReportMessages(report);
      Ok(MetadataValidationItem(file, UriEscaping.UnescapeDataString(url), true, |messages| == 0, Unknown, messages))
  }

  /** The report interpretation: the item fails only when the request URL
      cannot be built; it names the file and never sets the vocabulary flag.
      A gateway failure gives an unvalidated, non-conforming item with three
      messages and the escaped URL; otherwise the item is validated, conforms
      exactly when both error lists are absent or empty, lists the Schematron
      then the schema messages, and records the unescaped URL. */
  lemma SchemaItemOutcome(env: Environment, file: string)
    ensures var r := SchemaItem(env, file);
      && (r.Ok? <==> ProcessingUrl(env, file).Ok?)
      && (r.Ok? ==>
            var url := ProcessingUrl(env, file).value;
            var item := r.value;
            && item.metadataFilename == file
            && item.isConfirmBegrippenLijst == Unknown
            && (!item.isConfirmSchema ==> |item.errorMessages| > 0)
            && (env.validationService(url).Fail? ==>
                  && !item.isValidated && !item.isConfirmSchema
                  && |item.errorMessages| == 3
                  && item.requestUri == url)
            && (env.validationService(url).Ok? ==>
                  var report := env.validationService(url).value;
                  && item.isValidated
                  && (item.isConfirmSchema <==> IsClean(report))
                  && item.errorMessages == ReportMessages(report)
                  && item.requestUri == UriEscaping.UnescapeDataString(url)))
  {
    var r := SchemaItem(env, file);
    if r.Ok? {
      var url := ProcessingUrl(env, file).value;
      if env.validationService(url).Ok? {
        var report := env.validationService(url).value;
        var messages := ReportMessages(report);
        if report.schematronErrors.Some? && |report.schematronErrors.value| > 0 {
          assert messages[0] == report.schematronErrors.value[0].message;
        } else if report.schemaErrors.Some? && |report.schemaErrors.value| > 0 {
          assert messages[0] == SchemaMessage(report.schemaErrors.value[0]);
        }
      }
    }
  }

  /** Appending one element after the mapped prefix maps one element more. */
  lemma MapPrefix<A, B>(f: A -> B, s: seq<A>, i: nat)
    requires i < |s|
    ensures Sequences.Map(f, s[..i + 1]) == Sequences.Map(f, s[..i]) + [f(s[i])]
  {
    assert |Sequences.Map(f, s[..i + 1])| == i + 1;
  }

  /** The two loops of `ValidateWithSchema` that gather the report's
      messages: the Schematron errors, then the schema errors. */
  method CollectReportMessages(report: ValidationReport) returns (errorMessages: seq<string>)
    ensures errorMessages == ReportMessages(report)
  {
    errorMessages := [];
    if report.schematronErrors.Some? && |report.schematronErrors.value| > 0 {
      var errors := report.schematronErrors.value;
      for i := 0 to |errors|
        invariant errorMessages == Sequences.Map(SchematronMessage, errors[..i])
      {
        MapPrefix(SchematronMessage, errors, i);
        errorMessages := errorMessages + [errors[i].message];
      }
      assert errors[..|errors|] == errors;
    }
    var first := errorMessages;
    assert first == if report.schematronErrors.Some? then Sequences.Map(SchematronMessage, report.schematronErrors.value) else [];
    if report.schemaErrors.Some? && |report.schemaErrors.value| > 0 {
      var errors := report.schemaErrors.value;
      for i := 0 to |errors|
        invariant errorMessages == first + Sequences.Map(SchemaMessage, errors[..i])
      {
        MapPrefix(SchemaMessage, errors, i);
        Sequences.AppendAssoc(first, Sequences.Map(SchemaMessage, errors[..i]), [SchemaMessage(errors[i])]);
        errorMessages := errorMessages + [SchemaMessage(errors[i])];
      }
      assert errors[..|errors|] == errors;
    }
  }

  /** `ValidateWithSchema`: the messages are accumulated one by one. */
  method ValidateWithSchema(env: Environment, file: string) returns (r: Result<MetadataValidationItem>)
    ensures r == SchemaItem(env, file)
  {
    var requestUri :- ProcessingUrl(env, file);
    var response := env.validationService(requestUri);
    if response.Fail? {
      var errorMessages := [GatewayHeader(requestUri, file), response.error.message, response.error.stackTrace];
      return Ok(MetadataValidationItem(file, requestUri, false, false, Unknown, errorMessages));
    }
    var report := response.value;
    var errorMessages := CollectReportMessages(report);
    if |errorMessages| > 0 {
      r := Ok(MetadataValidationItem(file, UriEscaping.UnescapeDataString(requestUri), true, false, Unknown, errorMessages));
    } else {
      r := Ok(MetadataValidationItem(file, UriEscaping.UnescapeDataString(requestUri), true, true, Unknown, []));
    }
  }

  // ---------------------------------------------------------------------
  // MDTO: usage restrictions

  /** The request for the category `OPENBAARHEID_ARCHIEFWET_1995`. */
  function VocabularyRequest(env: Environment): string {
    VocabularyUrl(env.settings.utilitiesServerName, env.settings.utilitiesServerPort, ("OPENBAARHEID_ARCHIEFWET_" + "1995"))
  }

  /** `ValidateWithBeperkingenLijstAuteursWet1995` for one file. */
  function VocabularyCheck(env: Environment, file: string): BeperkingResult {
    var url := VocabularyRequest(env);
    ValidateBeperkingen(file, url, env.load(file), env.vocabularyService(url))
  }

  /** The MDTO merge: the vocabulary verdict and messages join the item. */
  function MergeVocabulary(item: MetadataValidationItem, b: BeperkingResult): MetadataValidationItem {
    item.(isConfirmBegrippenLijst := b.isSuccess, errorMessages := item.errorMessages + b.results)
  }

  // ---------------------------------------------------------------------
  // ToPX: openness of a `bestand` record

  /** The directory of a path and that directory's own name. */
  function ParentFolder(file: string): (r: (string, string))
    ensures '/' !in r.1
  {
    var pieces := Text.Split(file, '/');
    if |pieces| < 2 then ("", "")
    else (Text.Join(pieces[..|pieces| - 1], '/'), pieces[|pieces| - 2])
  }

  /** For a path made of `/`-separated names, the directory is the path
      without its last name and the folder name is the last name but one. */
  lemma ParentFolderOfJoin(pieces: seq<string>)
    requires |pieces| >= 2
    requires forall i :: 0 <= i < |pieces| ==> '/' !in pieces[i]
    ensures ParentFolder(Text.Join(pieces, '/')) == (Text.Join(pieces[..|pieces| - 1], '/'), pieces[|pieces| - 2])
  {
    Text.SplitJoin(pieces, '/');
  }

  /** The folder-level record next to a file: `<folder>/<folder name>.metadata`. */
  function CompanionPath(file: string): string {
    var (dir, name) := ParentFolder(file);
    dir + "/" + name + ".metadata"
  }

  /** One of the three values the openness rule allows. */
  predicate IsOpennessValue(v: string) {
    v == "Openbaar" || v == "Niet openbaar" || v == "Beperkt openbaar"
  }

  /** `^(Openbaar|Niet openbaar|Beperkt openbaar)$`: .NET's `$` also matches
      just before a final line feed. */
  predicate MatchesOpenness(v: string) {
    || IsOpennessValue(v)
    || (|v| > 0 && v[|v| - 1] == '\n' && IsOpennessValue(v[..|v| - 1]))
  }

  function MissingCompanion(name: string, file: string): seq<string> {
    [ ("Kan het bovenliggende " + "Dossier of Record " + "metadata bestand met de " + "naam '") + name + (".metadata' niet vinden " + "in de map '") + name + "'",
      ("Controleren op " + "openbaarheid is niet " + "gelukt voor ") + file + "." ]
  }

  function WrongOmschrijving(file: string, value: string): string {
    ("Onjuiste waarde voor " + "element " + "'omschrijvingBeperkingen" + "' gevonden. Gevonden " + "waarde = '") + value
      + ("', verwachte waarde = " + "'Openbaar' of 'Niet " + "openbaar' of 'Beperkt " + "openbaar' in ") + file
  }

  /** The openness messages for a `bestand` whose folder is a Dossier. */
  function BestandOpenness(file: string, b: Bestand): seq<string> {
    match b.openbaarheid
    case None => [("Bovenliggende metadata " + "bestand heeft een " + "aggregatieniveau " + "'Dossier'. Op " + "bestandsniveau wordt " + "dan 'openbaarheid' " + "element verwacht. " + "Element is niet gevonden")]
    case Some(o) =>
      match o.omschrijvingBeperkingen
      case None => [("Bovenliggende metadata " + "bestand heeft een " + "aggregatieniveau " + "'Dossier'. Op " + "bestandsniveau wordt " + "dan 'openbaarheid' " + "element verwacht. " + "Element 'openbaarheid' " + "gevonden maar niet " + "element " + "'omschrijvingBeperkingen" + "'")]
      case Some(v) => if MatchesOpenness(v) then [] else [WrongOmschrijving(file, v)]
  }

  /** The messages the openness rule adds for a `bestand` record, or the
      exception it throws: loading the companion, a missing
      `aggregatie/aggregatieniveau` and a missing `bestand` element escape. */
  function OpennessMessages(env: Environment, file: string, doc: XmlDoc): Result<seq<string>> {
    var name := ParentFolder(file).1;
    var companion := CompanionPath(file);
    if !env.fileExists(companion) then Ok(MissingCompanion(name, file))
    else
      var folderDoc :- env.load(companion);
      if folderDoc.aggregatieniveau.None? then Fail(NullReference(env.trace))
      else if !Text.EqualsIgnoreCase(folderDoc.aggregatieniveau.value, "Dossier") then Ok([])
      else if doc.bestand.None? then Fail(NullReference(env.trace))
      else Ok(BestandOpenness(file, doc.bestand.value))
  }

  /** Under a Dossier one message is added when `openbaarheid` or
      `omschrijvingBeperkingen` is missing or the value is not one of the
      three allowed ones, and none otherwise. */
  lemma BestandOpennessCount(file: string, b: Bestand)
    ensures |BestandOpenness(file, b)| <= 1
    ensures |BestandOpenness(file, b)| == 1 <==>
              b.openbaarheid.None? || b.openbaarheid.value.omschrijvingBeperkingen.None?
              || !MatchesOpenness(b.openbaarheid.value.omschrijvingBeperkingen.value)
  {
  }

  /** The openness decision table: a missing companion record adds two
      messages; a companion at any level other than Dossier adds none; under a
      Dossier exactly one message is added when `openbaarheid` or
      `omschrijvingBeperkingen` is missing or the value is not one of the
      three allowed ones, and none otherwise. */
  lemma OpennessDecisionTable(env: Environment, file: string, doc: XmlDoc)
    ensures var r := OpennessMessages(env, file, doc);
      var companion := CompanionPath(file);
      && (!env.fileExists(companion) ==> r.Ok? && |r.value| == 2)
      && (env.fileExists(companion) ==>
            && (env.load(companion).Fail? ==> r.Fail?)
            && (env.load(companion).Ok? ==>
                  var level := env.load(companion).value.aggregatieniveau;
                  && (level.None? ==> r.Fail?)
                  && (level.Some? && !Text.EqualsIgnoreCase(level.value, "Dossier") ==> r == Ok([]))
                  && (level.Some? && Text.EqualsIgnoreCase(level.value, "Dossier") ==>
                        && (doc.bestand.None? ==> r.Fail?)
                        && (doc.bestand.Some? ==>
                              var o := doc.bestand.value.openbaarheid;
                              && r.Ok? && |r.value| <= 1
                              && (|r.value| == 1 <==>
                                    o.None? || o.value.omschrijvingBeperkingen.None?
                                    || !MatchesOpenness(o.value.omschrijvingBeperkingen.value))))))
  {
    if doc.bestand.Some? {
      BestandOpennessCount(file, doc.bestand.value);
    }
  }

  /** The openness rule applied to an item: the file is loaded (failures
      escape), its root must have a child element, and only a `bestand`
      record is checked; the item then conforms exactly when it carries no
      message at all. */
  function ApplyOpenness(env: Environment, file: string, item: MetadataValidationItem): Result<MetadataValidationItem> {
    var doc :- env.load(file);
    if doc.firstChild.None? then Fail(Exception(("Sequence contains no " + "elements"), env.trace))
    else if doc.firstChild.value != "bestand" then Ok(item)
    else
      var extra :- OpennessMessages(env, file, doc);
      var messages := item.errorMessages + extra;
      Ok(item.(isConfirmSchema := !(|messages| > 0), errorMessages := messages))
  }

  /** The openness rule never turns a non-conforming item into a conforming
      one, keeps the earlier messages as a prefix and changes nothing but the
      conformance flag and the messages. */
  lemma OpennessMonotone(env: Environment, file: string, item: MetadataValidationItem)
    requires !item.isConfirmSchema ==> |item.errorMessages| > 0
    ensures var r := ApplyOpenness(env, file, item);
      r.Ok? ==>
        && (!item.isConfirmSchema ==> !r.value.isConfirmSchema)
        && (!r.value.isConfirmSchema ==> |r.value.errorMessages| > 0)
        && |item.errorMessages| <= |r.value.errorMessages|
        && r.value.errorMessages[..|item.errorMessages|] == item.errorMessages
        && r.value.(isConfirmSchema := item.isConfirmSchema, errorMessages := item.errorMessages) == item
  {
    var r := ApplyOpenness(env, file, item);
    if r.Ok? && r.value != item {
      assert r.value.errorMessages[..|item.errorMessages|] == item.errorMessages;
    }
  }

  /** What the openness rule does to an item: load failures and a root
      without children throw; a first child other than `bestand` leaves the
      item as it is; for a `bestand` the decision table's messages are
      appended and the item conforms exactly when it then has no message at
      all, so a missing companion or a wrong value makes it non-conforming. */
  lemma OpennessEffect(env: Environment, file: string, item: MetadataValidationItem)
    ensures var r := ApplyOpenness(env, file, item);
      var loaded := env.load(file);
      && (loaded.Fail? ==> r.Fail?)
      && (loaded.Ok? && loaded.value.firstChild.None? ==> r.Fail?)
      && (loaded.Ok? && loaded.value.firstChild.Some? && loaded.value.firstChild.value != "bestand" ==> r == Ok(item))
      && (loaded.Ok? && loaded.value.firstChild == Some("bestand") ==>
            var m := OpennessMessages(env, file, loaded.value);
            && (r.Ok? <==> m.Ok?)
            && (m.Ok? ==>
                  && r.value.errorMessages == item.errorMessages + m.value
                  && (r.value.isConfirmSchema <==> |r.value.errorMessages| == 0)
                  && (|m.value| > 0 ==> !r.value.isConfirmSchema)
                  && r.value.(isConfirmSchema := item.isConfirmSchema, errorMessages := item.errorMessages) == item)
            && (!env.fileExists(CompanionPath(file)) ==> r.Ok? && !r.value.isConfirmSchema))
  {
  }

  // ---------------------------------------------------------------------
  // One file

  /** Everything the loop body does for one file: the schema item, then the
      MDTO merge, then the ToPX openness rule. */
  function ValidateFileSpec(env: Environment, file: string): Result<MetadataValidationItem> {
    var schema :- SchemaItem(env, file);
    var merged := if env.isMDTO then MergeVocabulary(schema, VocabularyCheck(env, file)) else schema;
    if env.isToPX then ApplyOpenness(env, file, merged) else Ok(merged)
  }

  /** The item names its file; outside ToPX mode only the URL can fail. */
  lemma ValidateFileNamesFile(env: Environment, file: string)
    ensures var r := ValidateFileSpec(env, file);
      && (r.Ok? ==> r.value.metadataFilename == file)
      && (!env.isToPX ==> (r.Ok? <==> ProcessingUrl(env, file).Ok?))
  {
    SchemaItemOutcome(env, file);
  }

  /** The MDTO merge: the messages are the schema messages followed by the
      vocabulary messages and the vocabulary verdict is recorded, while the
      validation and conformance flags stay those of the schema item. */
  lemma MdtoMerge(env: Environment, file: string)
    requires env.isMDTO && !env.isToPX
    ensures var r := ValidateFileSpec(env, file);
      var s := SchemaItem(env, file);
      && (r.Ok? <==> s.Ok?)
      && (r.Ok? ==>
            && r.value.errorMessages == s.value.errorMessages + VocabularyCheck(env, file).results
            && r.value.isConfirmBegrippenLijst == VocabularyCheck(env, file).isSuccess
            && r.value.isValidated == s.value.isValidated
            && r.value.isConfirmSchema == s.value.isConfirmSchema)
  {
  }

  /** The loop body of `Execute` for one file. */
  method ValidateFile(env: Environment, file: string) returns (r: Result<MetadataValidationItem>)
    ensures r == ValidateFileSpec(env, file)
  {
    var schemaResult := ValidateWithSchema(env, file);
    if schemaResult.Fail? {
      return Fail(schemaResult.error);
    }
    var item := schemaResult.value;
    if env.isMDTO {
      var beperkingenResult := VocabularyCheck(env, file);
      item := MergeVocabulary(item, beperkingenResult);
    }
    if env.isToPX {
      r := ApplyOpenness(env, file, item);
    } else {
      r := Ok(item);
    }
  }

  // ---------------------------------------------------------------------
  // The stage

  predicate IsMdtoFile(path: string) {
    Text.EndsWithIgnoreCase(path, ".mdto.xml")
  }

  /** The files to validate: the `.metadata` files for ToPX, otherwise the
      `.xml` files whose name ends in `.mdto.xml`, ignoring case. */
  function Enumerate(env: Environment): Result<seq<string>> {
    if env.isToPX then env.metadataFiles
    else
      var xml :- env.xmlFiles;
      Ok(Sequences.Filter(IsMdtoFile, xml))
  }

  /** The items of the files validated before the first exception, and that
      exception. */
  datatype ScanResult = ScanResult(items: seq<MetadataValidationItem>, failure: Option<Exception>)

  /** The result of validating each file, one per file and in order. */
  ghost predicate FileResults(env: Environment, files: seq<string>, results: seq<Result<MetadataValidationItem>>) {
    && |results| == |files|
    && forall k {:trigger ValidateFileSpec(env, files[k])} :: 0 <= k < |files| ==> results[k] == ValidateFileSpec(env, files[k])
  }

  /** Each file's result, in order. */
  ghost function Checks(env: Environment, files: seq<string>): (results: seq<Result<MetadataValidationItem>>)
    ensures FileResults(env, files, results)
  {
    assert FileResults(env, files, seq(|files|, k requires 0 <= k < |files| => ValidateFileSpec(env, files[k])));
    var results :| FileResults(env, files, results);
    results
  }

  function Prepend(items: seq<MetadataValidationItem>, r: ScanResult): ScanResult {
    ScanResult(items + r.items, r.failure)
  }

  /** The items before the first failed result, and that failure. */
  function Cut(results: seq<Result<MetadataValidationItem>>): (r: ScanResult)
    ensures |r.items| <= |results|
    ensures r.failure.None? ==> |r.items| == |results|
  {
    if |results| == 0 then ScanResult([], None)
    else match results[0]
      case Fail(e) => ScanResult([], Some(e))
      case Ok(item) => Prepend([item], Cut(results[1..]))
  }

  /** The files are validated in order until one throws. */
  ghost function Scan(env: Environment, files: seq<string>): (r: ScanResult)
    ensures |r.items| <= |files|
    ensures r.failure.None? ==> |r.items| == |files|
  {
    Cut(Checks(env, files))
  }

  predicate IsAccepted(item: MetadataValidationItem) {
    item.isValidated && item.isConfirmSchema
  }

  predicate IsRejected(item: MetadataValidationItem) {
    !item.isValidated || !item.isConfirmSchema
  }

  function ProgressEvent(processed: int, file: string): Event {
    Event(Executing, "Processing file '" + file + "'", Summary(processed, 0, 0), NoResult)
  }

  /** One Executing event per file, in order. */
  function ProgressEvents(processed: int, files: seq<string>): (r: seq<Event>)
    ensures |r| == |files|
    ensures forall i :: 0 <= i < |files| ==> r[i] == ProgressEvent(processed, files[i])
  {
    if |files| == 0 then [] else [ProgressEvent(processed, files[0])] + ProgressEvents(processed, files[1..])
  }

  const StartEvent := Event(Started, ("Start validate " + ".metadata files."), InitialSummary, NoResult)

  /** The outcome when an exception escapes after `processed` files were
      enumerated and `done` files were validated. */
  function FailedOutcome(processed: int, done: seq<string>, e: Exception): StageOutcome<MetadataValidationItem> {
    var summary := Summary(processed, 0, processed);
    StageOutcome(summary, ActionResults.Failed, FailureMessages(Header, e), None,
      [StartEvent] + ProgressEvents(processed, done) + [Event(ActionStates.Failed, Header, summary, ActionResults.Failed)])
  }

  /** What `Execute` leaves behind. */
  ghost function ExecuteSpec(env: Environment): StageOutcome<MetadataValidationItem> {
    if env.baseExecute.Some? then FailedOutcome(0, [], env.baseExecute.value)
    else match Enumerate(env)
      case Fail(e) => FailedOutcome(0, [], e)
      case Ok(files) => ScanOutcome(env, files)
  }

  /** The outcome once `files` were enumerated: validated in order until one
      throws. */
  ghost function ScanOutcome(env: Environment, files: seq<string>): StageOutcome<MetadataValidationItem> {
    var scan := Scan(env, files);
    if scan.failure.Some? then FailedOutcome(|files|, files[..|scan.items|], scan.failure.value)
    else CompletedOutcome(files, scan.items)
  }

  /** The outcome when every file of `files` was validated into `items`. */
  function CompletedOutcome(files: seq<string>, items: seq<MetadataValidationItem>): StageOutcome<MetadataValidationItem> {
    var accepted := |Sequences.Filter(IsAccepted, items)|;
    var rejected := |Sequences.Filter(IsRejected, items)|;
    var result := if rejected > 0 then Error else Success;
    var summary := Summary(|files|, accepted, rejected);
    StageOutcome(summary, result, [], Some(items),
      [StartEvent] + ProgressEvents(|files|, files) + [Event(Completed, "Validation is done!", summary, result)])
  }

  lemma ProgressEventsPrefix(processed: int, files: seq<string>, i: nat)
    requires i < |files|
    ensures ProgressEvents(processed, files[..i + 1]) == ProgressEvents(processed, files[..i]) + [ProgressEvent(processed, files[i])]
  {
  }

  lemma PrependAppend(a: seq<MetadataValidationItem>, b: seq<MetadataValidationItem>, r: ScanResult)
    ensures Prepend(a, Prepend(b, r)) == Prepend(a + b, r)
  {
    assert a + (b + r.items) == (a + b) + r.items;
  }

  /** The Executing event after the `i`-th file extends the log of progress
      events by one. */
  method EmitProgress(run: ActionModel<MetadataValidationItem>, ghost prior: seq<Event>, files: seq<string>, i: nat)
    requires i < |files|
    requires run.accepted == 0 && run.rejected == 0 && run.resultValue == NoResult
    requires run.events == prior + ProgressEvents(run.processed, files[..i])
    modifies run`events
    ensures run.accepted == 0 && run.rejected == 0 && run.resultValue == NoResult
    ensures run.events == prior + ProgressEvents(run.processed, files[..i + 1])
  {
    ghost var done := ProgressEvents(run.processed, files[..i]);
    ghost var next := ProgressEvent(run.processed, files[i]);
    ProgressEventsPrefix(run.processed, files, i);
    run.Trigger(Executing, "Processing file '" + files[i] + "'");
    Sequences.AppendAssoc(prior, done, [next]);
  }

  /** Any list of the files' results is the one the scan cuts. */
  lemma ScanCut(env: Environment, files: seq<string>, results: seq<Result<MetadataValidationItem>>)
    requires FileResults(env, files, results)
    ensures Scan(env, files) == Cut(results)
  {
    var checks := Checks(env, files);
    forall k | 0 <= k < |files|
      ensures results[k] == checks[k]
    {
      assert results[k] == ValidateFileSpec(env, files[k]);
    }
    assert results == checks;
  }

  /** Cutting from position `i` looks at that result first. */
  lemma CutStep(results: seq<Result<MetadataValidationItem>>, i: nat)
    requires i < |results|
    ensures results[i].Fail? ==> Cut(results[i..]) == ScanResult([], Some(results[i].error))
    ensures results[i].Ok? ==> Cut(results[i..]) == Prepend([results[i].value], Cut(results[i + 1..]))
  {
    assert results[i..][0] == results[i];
    assert results[i..][1..] == results[i + 1..];
  }

  /** The loop body for the `i`-th file, as the `i`-th result. */
  method ValidateAt(env: Environment, files: seq<string>, i: nat, ghost results: seq<Result<MetadataValidationItem>>)
    returns (r: Result<MetadataValidationItem>)
    requires i < |files| && FileResults(env, files, results)
    ensures r == results[i]
  {
    r := ValidateFile(env, files[i]);
  }

  /** The `foreach` of `Execute`: validate the files in order, emitting one
      Executing event per item, until a file throws. */
  method ValidateFiles(env: Environment, run: ActionModel<MetadataValidationItem>, metadatas: seq<string>)
    returns (validation: seq<MetadataValidationItem>, failure: Option<Exception>)
    requires run.accepted == 0 && run.rejected == 0 && run.resultValue == NoResult
    modifies run`events
    ensures Scan(env, metadatas) == ScanResult(validation, failure)
    ensures |validation| <= |metadatas| && (failure.None? ==> |validation| == |metadatas|)
    ensures run.events == old(run.events) + ProgressEvents(run.processed, metadatas[..|validation|])
  {
    ghost var results := Checks(env, metadatas);
    validation, failure := [], None;
    var i := 0;
    while i < |metadatas| && failure.None?
      invariant 0 <= i <= |metadatas|
      invariant |validation| == i
      invariant failure.None? ==> Cut(results) == Prepend(validation, Cut(results[i..]))
      invariant failure.Some? ==> Cut(results) == ScanResult(validation, failure)
      invariant run.accepted == 0 && run.rejected == 0 && run.resultValue == NoResult
      invariant run.events == old(run.events) + ProgressEvents(run.processed, metadatas[..i])
      decreases |metadatas| - i, if failure.None? then 1 else 0
    {
      var item := ValidateAt(env, metadatas, i, results);
      CutStep(results, i);
      if item.Fail? {
        failure := Some(item.error);
      } else {
        PrependAppend(validation, [item.value], Cut(results[i + 1..]));
        validation := validation + [item.value];
        EmitProgress(run, old(run.events), metadatas, i);
        i := i + 1;
      }
    }
    if failure.None? {
      assert results[i..] == [];
    }
    ScanCut(env, metadatas, results);
  }

  /** The `catch` block: every enumerated file counts as rejected, the
      exception becomes the messages and a Failed event closes the log. */
  method FailRun(run: ActionModel<MetadataValidationItem>, ghost done: seq<string>, e: Exception)
    requires run.data.None?
    requires run.events == [StartEvent] + ProgressEvents(run.processed, done)
    modifies run
    ensures run.Outcome() == FailedOutcome(old(run.processed), done, e)
  {
    run.accepted := 0;
    run.rejected := run.processed;
    run.resultValue := ActionResults.Failed;
    run.messages := FailureMessages(Header, e);
    run.Trigger(ActionStates.Failed, Header);
  }

  /** The end of the `try` block: count the verdicts, keep the items as the
      data and close the log with a Completed event. */
  method CompleteRun(run: ActionModel<MetadataValidationItem>, files: seq<string>, validation: seq<MetadataValidationItem>)
    requires run.processed == |files| && run.messages == [] && run.data.None?
    requires run.events == [StartEvent] + ProgressEvents(|files|, files)
    modifies run
    ensures run.Outcome() == CompletedOutcome(files, validation)
  {
    run.accepted := |Sequences.Filter(IsAccepted, validation)|;
    run.rejected := |Sequences.Filter(IsRejected, validation)|;
    run.data := Some(validation);
    if run.rejected > 0 {
      run.resultValue := Error;
    } else {
      run.resultValue := Success;
    }
    run.Trigger(Completed, "Validation is done!");
  }

  /** `Execute`: the handler's body, step by step on a fresh action model. */
  method Execute(env: Environment) returns (run: ActionModel<MetadataValidationItem>)
    ensures fresh(run)
    ensures run.Outcome() == ExecuteSpec(env)
  {
    run := new ActionModel<MetadataValidationItem>();
    run.Trigger(Started, ("Start validate " + ".metadata files."));
    assert run.events == [StartEvent];
    assert ProgressEvents(0, []) == [];
    if env.baseExecute.Some? {
      FailRun(run, [], env.baseExecute.value);
      return;
    }
    var listing := Enumerate(env);
    if listing.Fail? {
      FailRun(run, [], listing.error);
      return;
    }
    RunScan(env, run, listing.value);
  }

  /** The rest of the `try` block once the files are enumerated. */
  method RunScan(env: Environment, run: ActionModel<MetadataValidationItem>, metadatas: seq<string>)
    requires run.Outcome() == StageOutcome(InitialSummary, NoResult, [], None, [StartEvent])
    modifies run
    ensures run.Outcome() == ScanOutcome(env, metadatas)
  {
    run.processed := |metadatas|;
    assert ProgressEvents(|metadatas|, []) == [];
    var validation, failure := ValidateFiles(env, run, metadatas);
    FinishRun(run, metadatas, validation, failure);
  }

  /** The end of the `try` block, or its `catch` block when a file threw. */
  method FinishRun(run: ActionModel<MetadataValidationItem>, metadatas: seq<string>,
                   validation: seq<MetadataValidationItem>, failure: Option<Exception>)
    requires |validation| <= |metadatas| && (failure.None? ==> |validation| == |metadatas|)
    requires run.processed == |metadatas| && run.messages == [] && run.data.None?
    requires run.events == [StartEvent] + ProgressEvents(|metadatas|, metadatas[..|validation|])
    modifies run
    ensures run.Outcome() == if failure.Some? then FailedOutcome(|metadatas|, metadatas[..|validation|], failure.value)
                             else CompletedOutcome(metadatas, validation)
  {
    if failure.Some? {
      FailRun(run, metadatas[..|validation|], failure.value);
    } else {
      assert metadatas[..|validation|] == metadatas;
      CompleteRun(run, metadatas, validation);
    }
  }

  // ---------------------------------------------------------------------
  // Properties of the stage

  /** The items before the first failure sit at the positions of their results. */
  lemma {:induction false} CutPositions(results: seq<Result<MetadataValidationItem>>)
    ensures var r := Cut(results);
      forall i :: 0 <= i < |r.items| ==> results[i] == Ok(r.items[i])
  {
    if |results| > 0 && results[0].Ok? {
      CutPositions(results[1..]);
      var r := Cut(results);
      forall i | 0 < i < |r.items|
        ensures results[i] == Ok(r.items[i])
      {
        assert results[1..][i - 1] == results[i];
      }
    }
  }

  /** The items of a scan name the scanned files, in order. */
  lemma ScanNamesFiles(env: Environment, files: seq<string>)
    ensures var r := Scan(env, files);
      forall i :: 0 <= i < |r.items| ==> r.items[i].metadataFilename == files[i]
  {
    var checks := Checks(env, files);
    CutPositions(checks);
    var r := Scan(env, files);
    forall i | 0 <= i < |r.items|
      ensures r.items[i].metadataFilename == files[i]
    {
      ValidateFileNamesFile(env, files[i]);
      assert checks[i] == ValidateFileSpec(env, files[i]);
    }
  }

  /** On a completed run, one item per enumerated file, in order; the
      counters split the processed files into accepted and rejected ones, and
      the verdict is Error exactly when some file was rejected. */
  lemma ExecuteCounters(env: Environment)
    requires ExecuteSpec(env).result != ActionResults.Failed
    ensures var o := ExecuteSpec(env);
      && env.baseExecute.None? && Enumerate(env).Ok?
      && var files := Enumerate(env).value;
      && o.summary.processed == |files|
      && o.data.Some? && |o.data.value| == |files|
      && (forall i :: 0 <= i < |files| ==> o.data.value[i].metadataFilename == files[i])
      && (forall i :: 0 <= i < |files| ==> ValidateFileSpec(env, files[i]) == Ok(o.data.value[i]))
      && o.summary.accepted == |Sequences.Filter(IsAccepted, o.data.value)|
      && o.summary.rejected == |Sequences.Filter(IsRejected, o.data.value)|
      && o.summary.accepted + o.summary.rejected == o.summary.processed
      && (o.result == Error <==> o.summary.rejected > 0)
      && (o.result == Success <==> o.summary.rejected == 0)
      && o.messages == []
  {
    var files := Enumerate(env).value;
    var scan := Scan(env, files);
    ScanNamesFiles(env, files);
    CutPositions(Checks(env, files));
    Sequences.FilterPartition(IsAccepted, IsRejected, scan.items);
  }

  /** A stage fails exactly when `base.Execute`, the enumeration or one of
      the files throws; it then accepts nothing, rejects every enumerated
      file (none when nothing was enumerated, and then the trace is Started
      and Failed alone), reports three messages under the stage header and
      no data. */
  lemma ExecuteFailure(env: Environment)
    ensures var o := ExecuteSpec(env);
      && (o.result == ActionResults.Failed <==>
            env.baseExecute.Some? || Enumerate(env).Fail? || Scan(env, Enumerate(env).value).failure.Some?)
      && (o.result == ActionResults.Failed ==>
            && o.summary.accepted == 0
            && o.summary.rejected == o.summary.processed
            && (env.baseExecute.Some? || Enumerate(env).Fail? ==> o.summary.processed == 0 && |o.events| == 2)
            && (env.baseExecute.None? && Enumerate(env).Ok? ==> o.summary.processed == |Enumerate(env).value|)
            && |o.messages| == 3 && o.messages[0] == Header
            && o.data.None?)
  {
  }

  /** A Started event, progress events and one terminal event form a lifecycle. */
  lemma ProgressLifecycle(processed: int, done: seq<string>, last: Event)
    requires last.state == Completed || last.state == ActionStates.Failed
    ensures var events := [StartEvent] + ProgressEvents(processed, done) + [last];
      && IsLifecycle(events)
      && |events| == |done| + 2
      && events[|events| - 1] == last
      && forall k :: 0 < k < |events| - 1 ==> events[k].summary == Summary(processed, 0, 0)
  {
    var events := [StartEvent] + ProgressEvents(processed, done) + [last];
    forall k | 0 < k < |events| - 1
      ensures events[k] == ProgressEvent(processed, done[k - 1])
    {
    }
  }

  /** The event trace: Started, one Executing event per validated file, then
      Completed on success or Failed on an exception, never both. */
  lemma ExecuteLifecycle(env: Environment)
    ensures var o := ExecuteSpec(env);
      && IsLifecycle(o.events)
      && o.events[0] == StartEvent
      && (o.events[|o.events| - 1].state == Completed <==> o.result != ActionResults.Failed)
      && (o.result != ActionResults.Failed ==> |o.events| == o.summary.processed + 2)
      && (forall k :: 0 < k < |o.events| - 1 ==> o.events[k].summary == Summary(o.summary.processed, 0, 0))
  {
    if env.baseExecute.Some? {
      ProgressLifecycle(0, [], ExecuteSpec(env).events[|ExecuteSpec(env).events| - 1]);
    } else if Enumerate(env).Fail? {
      ProgressLifecycle(0, [], ExecuteSpec(env).events[|ExecuteSpec(env).events| - 1]);
    } else {
      var files := Enumerate(env).value;
      var scan := Scan(env, files);
      var o := ExecuteSpec(env);
      if scan.failure.Some? {
        ProgressLifecycle(|files|, files[..|scan.items|], Event(ActionStates.Failed, Header, o.summary, ActionResults.Failed));
      } else {
        ProgressLifecycle(|files|, files, Event(Completed, "Validation is done!", o.summary, o.result));
      }
    }
  }

  /** The events between Started and the terminal event are one Executing
      event per file of `done`, in order, each naming its file. */
  lemma ProgressNames(processed: int, done: seq<string>, last: Event)
    ensures var events := [StartEvent] + ProgressEvents(processed, done) + [last];
      && |events| == |done| + 2
      && forall k :: 0 < k <= |done| ==>
           events[k].state == Executing && events[k].description == "Processing file '" + done[k - 1] + "'"
  {
    var events := [StartEvent] + ProgressEvents(processed, done) + [last];
    forall k | 0 < k <= |done|
      ensures events[k] == ProgressEvent(processed, done[k - 1])
    {
    }
  }

  /** One Executing event per file validated before the stage ended, the
      k-th naming the k-th file: a completed run has one per enumerated file,
      a run stopped by a file's exception one per file validated before it. */
  lemma ExecuteProgress(env: Environment)
    requires env.baseExecute.None? && Enumerate(env).Ok?
    ensures var o := ExecuteSpec(env);
      var files := Enumerate(env).value;
      var done := |Scan(env, files).items|;
      && done <= |files|
      && |o.events| == done + 2
      && (Scan(env, files).failure.None? ==> done == |files|)
      && (forall k :: 0 < k <= done ==>
            o.events[k].state == Executing && o.events[k].description == "Processing file '" + files[k - 1] + "'")
  {
    var files := Enumerate(env).value;
    var scan := Scan(env, files);
    var o := ScanOutcome(env, files);
    assert ExecuteSpec(env) == o;
    var done := files[..|scan.items|];
    if scan.failure.Some? {
      ProgressNames(|files|, done, o.events[|o.events| - 1]);
    } else {
      assert done == files;
      ProgressNames(|files|, files, o.events[|o.events| - 1]);
    }
  }

  /** Two item lists with the same validation and conformance flags. */
  predicate SameVerdicts(a: seq<MetadataValidationItem>, b: seq<MetadataValidationItem>) {
    && |a| == |b|
    && forall i :: 0 <= i < |a| ==> a[i].isValidated == b[i].isValidated && a[i].isConfirmSchema == b[i].isConfirmSchema
  }

  lemma {:induction false} SameVerdictsCounts(a: seq<MetadataValidationItem>, b: seq<MetadataValidationItem>)
    requires SameVerdicts(a, b)
    ensures |Sequences.Filter(IsAccepted, a)| == |Sequences.Filter(IsAccepted, b)|
    ensures |Sequences.Filter(IsRejected, a)| == |Sequences.Filter(IsRejected, b)|
  {
    if |a| > 0 {
      SameVerdictsCounts(a[1..], b[1..]);
    }
  }

  /** Two result lists that agree on where they fail, on the failures and
      on the verdicts cut to the same failure and to items with the same
      verdicts. */
  lemma {:induction false} CutSameVerdicts(a: seq<Result<MetadataValidationItem>>, b: seq<Result<MetadataValidationItem>>)
    requires |a| == |b|
    requires forall k :: 0 <= k < |a| ==> a[k].Ok? == b[k].Ok?
    requires forall k :: 0 <= k < |a| && a[k].Fail? ==> a[k].error == b[k].error
    requires forall k :: 0 <= k < |a| && a[k].Ok? ==>
      a[k].value.isValidated == b[k].value.isValidated && a[k].value.isConfirmSchema == b[k].value.isConfirmSchema
    ensures Cut(a).failure == Cut(b).failure && SameVerdicts(Cut(a).items, Cut(b).items)
  {
    if |a| > 0 && a[0].Ok? {
      assert forall k :: 0 <= k < |a| - 1 ==> a[1..][k] == a[k + 1] && b[1..][k] == b[k + 1];
      CutSameVerdicts(a[1..], b[1..]);
    }
  }

  /** Outside ToPX mode a scan with the MDTO merge fails where the one
      without it fails, and its items carry the same verdicts. */
  lemma ScanWithoutVocabulary(env: Environment, files: seq<string>)
    requires !env.isToPX
    ensures var with := Scan(env, files);
      var without := Scan(env.(isMDTO := false), files);
      with.failure == without.failure && SameVerdicts(with.items, without.items)
  {
    var plain := env.(isMDTO := false);
    var a, b := Checks(env, files), Checks(plain, files);
    forall k | 0 <= k < |files|
      ensures a[k].Ok? == b[k].Ok?
      ensures a[k].Fail? ==> a[k].error == b[k].error
      ensures a[k].Ok? ==> a[k].value.isValidated == b[k].value.isValidated && a[k].value.isConfirmSchema == b[k].value.isConfirmSchema
    {
      FileWithoutVocabulary(env, files[k]);
      assert a[k] == ValidateFileSpec(env, files[k]);
      assert b[k] == ValidateFileSpec(plain, files[k]);
    }
    CutSameVerdicts(a, b);
  }

  lemma FileWithoutVocabulary(env: Environment, file: string)
    requires !env.isToPX
    ensures var with := ValidateFileSpec(env, file);
      var without := ValidateFileSpec(env.(isMDTO := false), file);
      && with.Ok? == without.Ok?
      && (with.Fail? ==> with.error == without.error)
      && (with.Ok? ==>
            with.value.isValidated == without.value.isValidated
            && with.value.isConfirmSchema == without.value.isConfirmSchema)
  {
    assert SchemaItem(env, file) == SchemaItem(env.(isMDTO := false), file);
  }

  /** Outside ToPX mode the vocabulary check never changes the counters or
      the verdict: the stage ends the same with the MDTO merge as without it. */
  lemma VocabularyKeepsCounters(env: Environment)
    requires !env.isToPX
    ensures ExecuteSpec(env).summary == ExecuteSpec(env.(isMDTO := false)).summary
    ensures ExecuteSpec(env).result == ExecuteSpec(env.(isMDTO := false)).result
  {
    var plain := env.(isMDTO := false);
    assert Enumerate(env) == Enumerate(plain);
    if env.baseExecute.None? && Enumerate(env).Ok? {
      var files := Enumerate(env).value;
      ScanWithoutVocabulary(env, files);
      SameVerdictsCounts(Scan(env, files).items, Scan(plain, files).items);
    }
  }
}

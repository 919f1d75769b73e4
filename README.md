# Preingest quality-check stages in Dafny

This project models three stages ("handlers") of the Noord-Hollands Archief
preingest web API. Each stage checks an archival submission (a "collection")
before it goes into long-term preservation storage. Every stage follows the
same lifecycle on an action model:

1. emit a Started event;
2. evaluate items one after another, updating the counters `processed`,
   `accepted` and `rejected`;
3. end with exactly one Completed event or one Failed event.

An exception escaping a stage's body gives the verdict Failed and three
messages: a summary line, the exception's message and its stack trace.

- **Metadata validation** (`metadata_validation.dfy`, `beperking.dfy`). For
  each `.metadata` (ToPX) or `.mdto.xml` (MDTO) file, it:
  - builds the validation service's request URL (`GetProcessingUrl`);
  - interprets the service's Schematron and schema report;
  - in MDTO mode, checks each usage restriction (`beperkingGebruik`)
    against the "Openbaarheid Archiefwet 1995" vocabulary;
  - in ToPX mode, applies the openness (`openbaarheid`) rule to `bestand`
    records whose folder record is a Dossier.

  It then counts accepted and rejected items and derives the verdict.
- **Password detection** (`password_detection.dfy`). It reads the newest
  DROID CSV report of the collection and keeps the file records of the
  active dialect. It checks the Office and PDF documents for password
  protection and scans the Office documents for macros. Every protected file
  is rejected. The documents it does not check are listed in the messages.
- **Revert collection** (`revert_collection.dfy`). An OPEX stage whose two
  branches do nothing yet, so its behaviour is its lifecycle and counters.

Shared parts:
- `preingest.dfy`: the action model as a class (`ActionModel`), whose fields
  the handlers update in place; its events; the three failure messages.
- `uri_escaping.dfy`: `Uri.EscapeDataString` and `Uri.UnescapeDataString`.
  Escaping is UTF-8 percent-encoding of every character outside the
  unreserved set of RFC 3986 (sections 2.1 and 2.3).
- `text.dfy`, `sequences.dfy`: string and sequence helpers with their laws.
- `metadata_xml.dfy`: a loaded XML record, reduced to the elements the
  handler reads.

Every collaborator the handlers call is a field of an `Environment`
datatype: a value, or a total function from its input to a result or an
exception. This covers:
- the `base.Execute()` call;
- the file system listings and `File` lookups;
- `XDocument.Load`;
- the validation, vocabulary and macro HTTP services, with their JSON
  decoding;
- the CSV reader, `PdfHelper` and `MsOfficeHelper`;
- the stack trace of exceptions the handler itself raises.

Each `Execute` is an imperative method on a fresh `ActionModel`. Its
`ensures` ties the model's final state, event log included, to a function
`ExecuteSpec` of the environment. The properties the handlers promise are
lemmas about `ExecuteSpec` and the functions it uses.

Behaviour of the code a reader may not expect:
- A restriction with a label but no code passes when some vocabulary term
  has that label.
- The openness value check is the .NET regular expression
  `^(Openbaar|Niet openbaar|Beperkt openbaar)$`. Its `$` also matches before
  a final line feed, so each of the three values followed by "\n" is
  accepted too.
- A failed stage keeps the number of files enumerated before the exception
  as `processed`. It rejects all of them, even the ones evaluated before
  the exception.
- The handler itself checks no dates, durations or printable characters;
  any such rule is the validation service's.
- The request URL is built outside the `try` of `ValidateWithSchema`. A file
  path shorter than the data-folder prefix therefore fails the whole stage,
  not just that item.
- When both the ToPX and the MDTO flag hold, the openness rule sets the
  conformance flag from all messages, the vocabulary messages included.
  Only outside ToPX mode does the vocabulary check leave the counters
  unchanged (`VocabularyKeepsCounters`).

## Model

All source paths are under `Noord.Hollands.Archief.Preingest.WebApi/Handlers/`.

| member | source | states |
|---|---|---|
| Preingest.FailureMessages | Noord.Hollands.Archief.Preingest.WebApi/Handlers/MetadataValidationHandler.cs:167-170 | an escaping exception is reported as exactly three messages, the stage's summary line first |
| Preingest.ActionModel.constructor | Noord.Hollands.Archief.Preingest.WebApi/Handlers/MetadataValidationHandler.cs:65 | a stage starts from zero counters, no verdict, no messages, no data and no events |
| Preingest.ActionModel.Trigger | Noord.Hollands.Archief.Preingest.WebApi/Handlers/MetadataValidationHandler.cs:149 | emitting an event appends one event carrying the counters and verdict as they stand at that moment, and changes nothing else |
| Beperkingen.SameTerm | Noord.Hollands.Archief.Preingest.WebApi/Handlers/MetadataValidationHandler.cs:364-370 | two terms are equal by ordinal code and label comparison exactly when they are the same term |
| Beperkingen.FindByLabel | Noord.Hollands.Archief.Preingest.WebApi/Handlers/MetadataValidationHandler.cs:385 | a term is found exactly when some list entry has that label, and the term found is a list entry with that label |
| Beperkingen.IsItemValid | Noord.Hollands.Archief.Preingest.WebApi/Handlers/MetadataValidationHandler.cs:372-407 | exactly one message and a set verdict; the fallback branch is unreachable, which the function's body asserts; an empty label fails with the "no value" message; a label without a code passes iff some term has that label; a code and a label pass iff that exact term is in the list |
| Beperkingen.ReadBeperking | Noord.Hollands.Archief.Preingest.WebApi/Handlers/MetadataValidationHandler.cs:286-294 | a missing `beperkingGebruikType`, `begripCode` or `begripLabel` element reads as the empty string; present ones give their text |
| Beperkingen.NoneFailed | Noord.Hollands.Archief.Preingest.WebApi/Handlers/MetadataValidationHandler.cs:315 | when no verdict is unset, "no verdict is false" is the same as "every verdict is true" |
| Beperkingen.ValidateBeperkingen | Noord.Hollands.Archief.Preingest.WebApi/Handlers/MetadataValidationHandler.cs:273-335 | `ValidateWithBeperkingenLijstAuteursWet1995`: load the file, request the vocabulary, read each `beperkingGebruik` and check it against the terms; its outcomes are stated by `BeperkingenOutcome` |
| Beperkingen.BeperkingenOutcome | Noord.Hollands.Archief.Preingest.WebApi/Handlers/MetadataValidationHandler.cs:273-335 | an unset result with no messages without `informatieobject` or without restrictions; false with three messages when loading or the vocabulary request fails; otherwise a set verdict that is true iff every restriction passes, and one message per restriction in document order |
| MetadataValidation.DataPrefix | Noord.Hollands.Archief.Preingest.WebApi/Handlers/MetadataValidationHandler.cs:52 | the prefix is the data folder followed by a `/` exactly when the folder does not already end in one, so its length, the number of characters `Remove` drops, is the folder's length or one more |
| MetadataValidation.ProcessingUrl | Noord.Hollands.Archief.Preingest.WebApi/Handlers/MetadataValidationHandler.cs:50-56 | `GetProcessingUrl`: drop the data prefix's length of characters (throwing when the path is shorter) and put the escaped rest under the dialect's route; its shape is stated by `ProcessingUrlShape` and `ProcessingUrlUnescapes` |
| MetadataValidation.ProcessingUrlShape | Noord.Hollands.Archief.Preingest.WebApi/Handlers/MetadataValidationHandler.cs:50-56 | the URL exists iff the path is at least as long as the data prefix; it starts with the dialect's route root; its `/`-segments are the escaped segments of the relative path |
| MetadataValidation.ProcessingUrlUnescapes | Noord.Hollands.Archief.Preingest.WebApi/Handlers/MetadataValidationHandler.cs:54 | when the server name and port hold no `%`, the unescaped URL recorded in an item is the route's root followed by the relative path itself |
| UriEscaping.EscapeDataString | Noord.Hollands.Archief.Preingest.WebApi/Handlers/MetadataValidationHandler.cs:54 | `Uri.EscapeDataString`: every character outside the unreserved set becomes the `%XX` escapes of its UTF-8 octets; its alphabet and inverse are stated by `EscapedAlphabet` and `UnescapeEscape` |
| UriEscaping.UnescapeDataString | Noord.Hollands.Archief.Preingest.WebApi/Handlers/MetadataValidationHandler.cs:232 | `Uri.UnescapeDataString`: each well-formed run of `%XX` escapes of a UTF-8 character becomes that character; `UnescapeEscape` states that it undoes escaping |
| UriEscaping.EscapedAlphabet | Noord.Hollands.Archief.Preingest.WebApi/Handlers/MetadataValidationHandler.cs:54 | the escaped text holds only unreserved characters and `%` |
| UriEscaping.UnescapeEscape | Noord.Hollands.Archief.Preingest.WebApi/Handlers/MetadataValidationHandler.cs:232 | unescaping undoes escaping, whatever follows the escaped text |
| UriEscaping.EscapePathSegments | Noord.Hollands.Archief.Preingest.WebApi/Handlers/MetadataValidationHandler.cs:54 | escaping a path segment by segment keeps the number of segments and the separators, and escapes each segment on its own |
| UriEscaping.UnescapeEscapePath | Noord.Hollands.Archief.Preingest.WebApi/Handlers/MetadataValidationHandler.cs:232 | unescaping a path escaped segment by segment gives the path back |
| Text.JoinSplit | Noord.Hollands.Archief.Preingest.WebApi/Handlers/MetadataValidationHandler.cs:54 | joining the pieces of a split with the separator gives the text back |
| Text.SplitJoin | Noord.Hollands.Archief.Preingest.WebApi/Handlers/MetadataValidationHandler.cs:54 | splitting a join of separator-free pieces gives the pieces back |
| MetadataValidation.CollectReportMessages | Noord.Hollands.Archief.Preingest.WebApi/Handlers/MetadataValidationHandler.cs:207-220 | the two loops gather the Schematron messages, then each schema message with its line and column, in report order |
| MetadataValidation.SchemaItem | Noord.Hollands.Archief.Preingest.WebApi/Handlers/MetadataValidationHandler.cs:188-271 | `ValidateWithSchema` as a function of the service's answer: the item (or the escaping exception) for one file; its cases are stated by `SchemaItemOutcome` |
| MetadataValidation.SchemaItemOutcome | Noord.Hollands.Archief.Preingest.WebApi/Handlers/MetadataValidationHandler.cs:188-270 | only the URL can throw; the item names the file and leaves the vocabulary flag unset; a gateway failure gives an unvalidated, non-conforming item with three messages and the escaped URL; otherwise the item is validated, conforms iff both error lists are absent or empty, lists the Schematron then the formatted schema messages, and records the unescaped URL |
| MetadataValidation.ValidateWithSchema | Noord.Hollands.Archief.Preingest.WebApi/Handlers/MetadataValidationHandler.cs:188-271 | the method accumulating the report's messages in place returns exactly the item (or exception) of the report interpretation |
| MetadataValidation.ParentFolder | Noord.Hollands.Archief.Preingest.WebApi/Handlers/MetadataValidationHandler.cs:103-105 | the folder name of a file contains no path separator |
| MetadataValidation.ParentFolderOfJoin | Noord.Hollands.Archief.Preingest.WebApi/Handlers/MetadataValidationHandler.cs:103-106 | for a path of `/`-separated names, the folder is the path without its last name and the folder's name is the last name but one, so the companion record is looked up beside the file |
| MetadataValidation.MatchesOpenness | Noord.Hollands.Archief.Preingest.WebApi/Handlers/MetadataValidationHandler.cs:133 | the openness regular expression: exactly `Openbaar`, `Niet openbaar` or `Beperkt openbaar`, each also followed by one final line feed, which .NET's `$` admits; used by `BestandOpennessCount` |
| MetadataValidation.OpennessMessages | Noord.Hollands.Archief.Preingest.WebApi/Handlers/MetadataValidationHandler.cs:103-139 | the messages the openness rule adds for a `bestand` record, or the exception it throws; its cases are stated by `OpennessDecisionTable` |
| MetadataValidation.BestandOpennessCount | Noord.Hollands.Archief.Preingest.WebApi/Handlers/MetadataValidationHandler.cs:121-138 | under a Dossier a `bestand` record gets at most one message, and exactly one iff `openbaarheid` or `omschrijvingBeperkingen` is missing or the value is not an allowed one |
| MetadataValidation.OpennessDecisionTable | Noord.Hollands.Archief.Preingest.WebApi/Handlers/MetadataValidationHandler.cs:103-139 | a missing folder record adds exactly two messages; a folder at a level other than Dossier adds none; under a Dossier exactly one message is added iff `openbaarheid` or `omschrijvingBeperkingen` is missing or the value is not an allowed one; loading failures and missing `aggregatieniveau` or `bestand` elements throw |
| MetadataValidation.ApplyOpenness | Noord.Hollands.Archief.Preingest.WebApi/Handlers/MetadataValidationHandler.cs:94-144 | the ToPX openness rule applied to one item; its effect is stated by `OpennessEffect` and `OpennessMonotone` |
| MetadataValidation.OpennessEffect | Noord.Hollands.Archief.Preingest.WebApi/Handlers/MetadataValidationHandler.cs:94-144 | load failures and a root without children throw; a first child other than `bestand` leaves the item unchanged; for a `bestand` the decision table's messages are appended and the item conforms iff it then has no message at all, so a missing companion or a wrong value makes it non-conforming; nothing else changes |
| MetadataValidation.OpennessMonotone | Noord.Hollands.Archief.Preingest.WebApi/Handlers/MetadataValidationHandler.cs:94-144 | the openness rule never turns a non-conforming item into a conforming one, keeps the earlier messages as a prefix, leaves a non-conforming item with messages, and changes nothing but the flag and the messages |
| MetadataValidation.ValidateFileSpec | Noord.Hollands.Archief.Preingest.WebApi/Handlers/MetadataValidationHandler.cs:83-147 | the loop body for one file as a function: the schema item, merged with the vocabulary result in MDTO mode, then the openness rule in ToPX mode; stated by `ValidateFileNamesFile`, `MdtoMerge` and `OpennessEffect` |
| MetadataValidation.ValidateFileNamesFile | Noord.Hollands.Archief.Preingest.WebApi/Handlers/MetadataValidationHandler.cs:83-147 | the item of a file names that file; outside ToPX mode a file throws exactly when its URL cannot be built |
| MetadataValidation.MdtoMerge | Noord.Hollands.Archief.Preingest.WebApi/Handlers/MetadataValidationHandler.cs:85-93 | in MDTO mode the messages are the schema messages followed by the vocabulary messages, the vocabulary verdict is recorded, and the validation and conformance flags stay those of the schema item |
| MetadataValidation.ValidateFile | Noord.Hollands.Archief.Preingest.WebApi/Handlers/MetadataValidationHandler.cs:83-145 | the loop body yields the schema item, merged with the vocabulary result in MDTO mode and passed through the openness rule in ToPX mode |
| MetadataValidation.Enumerate | Noord.Hollands.Archief.Preingest.WebApi/Handlers/MetadataValidationHandler.cs:76 | the files validated: every `.metadata` file in ToPX mode, otherwise the `.xml` files whose name ends in `.mdto.xml` without regard to case |
| MetadataValidation.Scan | Noord.Hollands.Archief.Preingest.WebApi/Handlers/MetadataValidationHandler.cs:80-150 | at most one item per file, and exactly one per file when no file throws |
| MetadataValidation.ScanNamesFiles | Noord.Hollands.Archief.Preingest.WebApi/Handlers/MetadataValidationHandler.cs:80-147 | the items name the enumerated files, in order |
| MetadataValidation.ValidateFiles | Noord.Hollands.Archief.Preingest.WebApi/Handlers/MetadataValidationHandler.cs:80-150 | the `foreach` collects the items of the files validated before the first exception, and that exception, and appends one Executing event per collected item |
| MetadataValidation.RunScan | Noord.Hollands.Archief.Preingest.WebApi/Handlers/MetadataValidationHandler.cs:75-161 | after enumeration, the counters, verdict, data and events are those of the stage's outcome for the enumerated files |
| MetadataValidation.FinishRun | Noord.Hollands.Archief.Preingest.WebApi/Handlers/MetadataValidationHandler.cs:152-185 | after the loop the run ends as a failure when a file threw and as a completion otherwise |
| MetadataValidation.FailRun | Noord.Hollands.Archief.Preingest.WebApi/Handlers/MetadataValidationHandler.cs:163-180 | the `catch` block accepts nothing, rejects every enumerated file, keeps the progress events, sets the verdict Failed with the three messages and appends one Failed event |
| MetadataValidation.CompleteRun | Noord.Hollands.Archief.Preingest.WebApi/Handlers/MetadataValidationHandler.cs:152-161 | the end of the `try` block counts accepted and rejected items, keeps the items as data, sets Error iff something was rejected and appends one Completed event |
| MetadataValidation.ExecuteSpec | Noord.Hollands.Archief.Preingest.WebApi/Handlers/MetadataValidationHandler.cs:63-186 | the stage's outcome (counters, verdict, messages, data and event log) as a function of the environment; stated by `ExecuteCounters`, `ExecuteFailure` and `ExecuteLifecycle` |
| MetadataValidation.Execute | Noord.Hollands.Archief.Preingest.WebApi/Handlers/MetadataValidationHandler.cs:63-186 | the handler's state changes leave the action model, events included, exactly as the stage's outcome function says |
| MetadataValidation.ExecuteCounters | Noord.Hollands.Archief.Preingest.WebApi/Handlers/MetadataValidationHandler.cs:78-159 | on a completed run: processed is the number of enumerated files; one item per file, in order, each the result of validating that file; accepted counts the validated and conforming items, rejected the others, and they add up to processed; the verdict is Error iff something was rejected, otherwise Success |
| MetadataValidation.ExecuteFailure | Noord.Hollands.Archief.Preingest.WebApi/Handlers/MetadataValidationHandler.cs:73-180 | the stage fails iff `base.Execute`, the enumeration or a file throws; it then accepts nothing and rejects every enumerated file: processed is the number of enumerated files when a file throws, and zero, with a trace of Started and Failed alone, when `base.Execute` or the enumeration throws; it reports three messages under the stage header and no data |
| MetadataValidation.ProgressLifecycle | Noord.Hollands.Archief.Preingest.WebApi/Handlers/MetadataValidationHandler.cs:149 | Started, the progress events and one terminal event form a lifecycle, and each progress event carries the processed count with nothing yet accepted or rejected |
| MetadataValidation.ExecuteLifecycle | Noord.Hollands.Archief.Preingest.WebApi/Handlers/MetadataValidationHandler.cs:63-186 | the trace is Started, the Executing events, then Completed iff the stage did not fail (Failed otherwise); every Executing event carries the processed count with nothing accepted or rejected; a completed run has two events more than files |
| MetadataValidation.ProgressNames | Noord.Hollands.Archief.Preingest.WebApi/Handlers/MetadataValidationHandler.cs:149 | between Started and the terminal event lie one Executing event per validated file, in order, each naming its file |
| MetadataValidation.ExecuteProgress | Noord.Hollands.Archief.Preingest.WebApi/Handlers/MetadataValidationHandler.cs:80-150 | after enumeration the trace holds one Executing event per file validated before the stage ended (every file on a completed run, those before the throwing file otherwise), the k-th naming the k-th file |
| MetadataValidation.VocabularyKeepsCounters | Noord.Hollands.Archief.Preingest.WebApi/Handlers/MetadataValidationHandler.cs:85-93 | outside ToPX mode the vocabulary check changes neither the counters nor the verdict |
| PasswordDetection.ParseBool | Noord.Hollands.Archief.Preingest.WebApi/Handlers/PasswordDetectionHandler.cs:86 | `Boolean.Parse`: the trimmed text equals `True` or `False` without regard to case, otherwise a `FormatException`; stated by `ParseBoolRoundTrip` |
| PasswordDetection.ParseBoolRoundTrip | Noord.Hollands.Archief.Preingest.WebApi/Handlers/PasswordDetectionHandler.cs:86 | the text of a boolean, in any mix of cases and padded with white space, parses back to that boolean |
| PasswordDetection.Candidates | Noord.Hollands.Archief.Preingest.WebApi/Handlers/PasswordDetectionHandler.cs:77-97 | the DROID records kept for the dialect; stated by `DialectFilter` |
| PasswordDetection.DialectFilter | Noord.Hollands.Archief.Preingest.WebApi/Handlers/PasswordDetectionHandler.cs:77-97 | a record is a candidate iff it is a `File` record and, in ToPX, its extension is not `metadata` or, in MDTO, its name does not end in `.mdto.xml` |
| PasswordDetection.ToDataItems | Noord.Hollands.Archief.Preingest.WebApi/Handlers/PasswordDetectionHandler.cs:77-97 | the conversion succeeds iff every `EXTENSION_MISMATCH` value parses, and then gives one item per record, in order, with its location and extension |
| PasswordDetection.ExtensionPartition | Noord.Hollands.Archief.Preingest.WebApi/Handlers/PasswordDetectionHandler.cs:99-100 | the checked and unchecked files are selected by the lowercased extension's membership in the fixed list; together they hold every file exactly once, and each keeps the input order |
| PasswordDetection.NewestCsv | Noord.Hollands.Archief.Preingest.WebApi/Handlers/PasswordDetectionHandler.cs:196-213 | `DroidCsvOutputLocation`: the CSV file created last, the first of them on a tie; stated by `NewestCsvSelects` |
| PasswordDetection.NewestCsvSelects | Noord.Hollands.Archief.Preingest.WebApi/Handlers/PasswordDetectionHandler.cs:196-213 | there is a report iff the folder has a CSV file; it is one of them, none is newer, and it is the first of the newest in directory order |
| PasswordDetection.CheckFile | Noord.Hollands.Archief.Preingest.WebApi/Handlers/PasswordDetectionHandler.cs:106-142 | the result item of one checked file: protection by `PdfHelper` for `pdf` (any case) and by `MsOfficeHelper` otherwise; macros only from a successful scan of a non-PDF file; stated by `MacroIsolation` |
| PasswordDetection.CheckAll | Noord.Hollands.Archief.Preingest.WebApi/Handlers/PasswordDetectionHandler.cs:104-143 | one result item per checked file, in order |
| PasswordDetection.CheckFiles | Noord.Hollands.Archief.Preingest.WebApi/Handlers/PasswordDetectionHandler.cs:104-143 | the `foreach` produces the result items of the checked files and raises `rejected` by one per protected file |
| PasswordDetection.RunMessages | Noord.Hollands.Archief.Preingest.WebApi/Handlers/PasswordDetectionHandler.cs:145-152 | the messages of a completed run; stated by `ExecuteMessages` |
| PasswordDetection.CollectMessages | Noord.Hollands.Archief.Preingest.WebApi/Handlers/PasswordDetectionHandler.cs:145-152 | the message list is the run's message list: the warning when something was rejected, then the unchecked files under their header |
| PasswordDetection.Prepare | Noord.Hollands.Archief.Preingest.WebApi/Handlers/PasswordDetectionHandler.cs:58-100 | everything before the loop: `base.Execute`, the CSV report (missing means `FileNotFoundException`), the dialect's records and their split into checked and unchecked files; stated by `ExecuteFailure` |
| PasswordDetection.ExecuteSpec | Noord.Hollands.Archief.Preingest.WebApi/Handlers/PasswordDetectionHandler.cs:49-190 | the stage's outcome as a function of the environment; stated by `ExecuteCounters`, `ExecuteMessages`, `ExecuteFailure`, `ExecuteLifecycle` and `MacroIsolation` |
| PasswordDetection.CompleteRun | Noord.Hollands.Archief.Preingest.WebApi/Handlers/PasswordDetectionHandler.cs:102-165 | a run whose preparation succeeded ends in the stage's completed outcome for the checked and unchecked files |
| PasswordDetection.Conclude | Noord.Hollands.Archief.Preingest.WebApi/Handlers/PasswordDetectionHandler.cs:145-163 | after the loop the messages, data, accepted count (processed minus rejected), verdict and Completed event are set as the source sets them |
| PasswordDetection.FailRun | Noord.Hollands.Archief.Preingest.WebApi/Handlers/PasswordDetectionHandler.cs:167-184 | the `catch` block reports one processed and rejected item, the verdict Failed, three messages under the collection's header and one Failed event |
| PasswordDetection.Execute | Noord.Hollands.Archief.Preingest.WebApi/Handlers/PasswordDetectionHandler.cs:49-190 | the handler's state changes leave the action model, events included, exactly as the stage's outcome function says |
| PasswordDetection.ExecuteCounters | Noord.Hollands.Archief.Preingest.WebApi/Handlers/PasswordDetectionHandler.cs:102-163 | on a completed run: processed is the number of checked files; one result item per checked file, in order, whose protection flag is the PDF helper's answer for a `pdf` file and the Office helper's otherwise; rejected counts the protected ones; accepted is the rest and never negative; the verdict is Error iff something was rejected |
| PasswordDetection.ExecuteMessages | Noord.Hollands.Archief.Preingest.WebApi/Handlers/PasswordDetectionHandler.cs:145-152 | the protection warning comes first iff a file was rejected; when files went unchecked, the header follows with each unchecked location in order |
| PasswordDetection.MacroIsolation | Noord.Hollands.Archief.Preingest.WebApi/Handlers/PasswordDetectionHandler.cs:106-131 | the macro scanner's answers never change the counters, the verdict or the messages; PDF files and failed scans never report macros |
| PasswordDetection.ExecuteFailure | Noord.Hollands.Archief.Preingest.WebApi/Handlers/PasswordDetectionHandler.cs:167-184 | the stage fails iff something before the loop throws, a missing CSV report among them; it then reports one processed and rejected item, three messages under the collection's header and no data |
| PasswordDetection.ExecuteLifecycle | Noord.Hollands.Archief.Preingest.WebApi/Handlers/PasswordDetectionHandler.cs:52-189 | the trace is Started, then Completed iff the stage did not fail, Failed otherwise |
| RevertCollection.ExecuteSpec | Noord.Hollands.Archief.Preingest.WebApi/Handlers/OPEX/RevertCollectionHandler.cs:27-93 | the stage's outcome for a collection name; stated by `ExecuteOutcome` |
| RevertCollection.CompleteRun | Noord.Hollands.Archief.Preingest.WebApi/Handlers/OPEX/RevertCollectionHandler.cs:49-60 | with no data and no messages the run completes with zero counters, Success and one Completed event |
| RevertCollection.FailRun | Noord.Hollands.Archief.Preingest.WebApi/Handlers/OPEX/RevertCollectionHandler.cs:62-84 | the `catch` block reports one processed and rejected item, the verdict Failed, three messages under the collection's header and one Failed event |
| RevertCollection.Execute | Noord.Hollands.Archief.Preingest.WebApi/Handlers/OPEX/RevertCollectionHandler.cs:27-93 | the handler's state changes leave the action model, events included, exactly as the stage's outcome function says |
| RevertCollection.ExecuteOutcome | Noord.Hollands.Archief.Preingest.WebApi/Handlers/OPEX/RevertCollectionHandler.cs:29-92 | Started first, then Completed iff the stage did not fail; it fails iff the collection name is null; a completed run has zero counters, Success, no messages and empty data; a failed run has one processed and rejected item and three messages; nothing is ever accepted |
| Sequences.FilterPartition | Noord.Hollands.Archief.Preingest.WebApi/Handlers/MetadataValidationHandler.cs:152-153 | filtering by a predicate and by its negation splits a sequence: the counts add up and the multisets add up |
| Sequences.FlattenSingletons | Noord.Hollands.Archief.Preingest.WebApi/Handlers/MetadataValidationHandler.cs:316 | concatenating one-message lists gives one message per list, in order |

## Left out

- Logging, `DateTimeOffset.Now` timestamps, SignalR delivery of events and the persisted state rows are left out: they do not affect the outcome.
- Stack traces are an opaque `trace` string, because their text is produced by the runtime.
- `SessionGuid` and the session folder: the file listings are given as inputs, so the paths built from them are not modelled.
- `ChecksumHelper.Base64Encode` and the macro service URL are left out. The macro scanner is an oracle keyed by the file location.
- HTTP status codes, time-outs and JSON decoding are left out. Each service is an oracle giving a decoded answer or an exception.
- Exceptions thrown by `PdfHelper` and `MsOfficeHelper` are not modelled. They are total predicates.
- The CSV reader and `dynamic` records: a row is a record of strings, and null columns are not modelled.
- XML namespaces are not modelled. Elements are matched by local name, and the first-child check uses the local name as the code does.
- Text comparison is ASCII only:
  - `ToLowerInvariant` and the case-insensitive comparisons fold only ASCII letters;
  - the culture-sensitive `EndsWith` of the MDTO dialect filter is modelled as ordinal;
  - so is the culture-sensitive `DataFolderName.EndsWith("/")` of `GetProcessingUrl`.
- PasswordDetection.ParseBool: only ASCII white space and NUL are trimmed, not other Unicode white space.
- MetadataValidation.ParentFolder: a path with no directory part is not modelled, nor wildcard characters in a folder name (the companion lookup is a file-name pattern).
- UriEscaping.UnescapeDataString: an ill-formed escape sequence keeps its `%` as a plain character and decoding resumes after it. The finer handling of invalid UTF-8 is not modelled. The round-trip lemmas only use well-formed escapes.
- UriEscaping.EscapeDataString: strings are sequences of Unicode scalar values, so lone surrogates are not modelled (they make .NET throw).
- Beperkingen.IsItemValid: vocabulary entries with a null code or label are not modelled; their comparisons would throw in .NET.
- Beperkingen.VocabularyUrl: the vocabulary category is passed by the name of its enumerant; the other categories of that enumeration are not modelled, because the handler asks for only one.
- `CurrentActionProperties` (called first by each `Execute`) is assumed to give an action model with zero counters, no verdict, no messages and no data, and never to throw; the base class that implements it is not part of this model.
- The `Message` and `InGreenList` fields of `DataItem` and the `definitie` field of a term are not modelled, because the handlers never read them.
- `IsToPX` and `IsMDTO` are independent inputs. The base class that sets them is not part of this model.

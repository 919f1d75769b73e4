/** The check of an MDTO record's usage restrictions (`beperkingGebruik`)
    against the controlled vocabulary "Openbaarheid Archiefwet 1995". */
module Beperkingen {
  import opened Preingest
  import opened MetadataXml
  import Sequences

  /** A vocabulary term, or a restriction read from a record. */
  datatype Beperking = Beperking(begripCode: string, begripLabel: string)

  /** BeperkingResult: an unset verdict (null) or success/failure, and the
      messages. */
  datatype BeperkingResult = BeperkingResult(isSuccess: Tri, results: seq<string>)

  /** `Beperking.Equals`: ordinal equality of code and of label, which is
      exactly equality of the two terms. */
  predicate SameTerm(a: Beperking, b: Beperking)
    ensures SameTerm(a, b) <==> a == b
  {
    && a.begripLabel == b.begripLabel
    && a.begripCode == b.begripCode
  }

  /** `List<Beperking>.Contains`, which compares with `Beperking.Equals`. */
  predicate Contains(list: seq<Beperking>, b: Beperking) {
    exists i :: 0 <= i < |list| && SameTerm(list[i], b)
  }

  /** `FirstOrDefault` by ordinal label equality. */
  function FindByLabel(list: seq<Beperking>, wanted: string): (r: Option<Beperking>)
    ensures r.Some? <==> exists i :: 0 <= i < |list| && list[i].begripLabel == wanted
    ensures r.Some? ==> r.value in list && r.value.begripLabel == wanted
  {
    if |list| == 0 then None
    else if list[0].begripLabel == wanted then Some(list[0])
    else
      var r := FindByLabel(list[1..], wanted);
      assert forall i :: 0 < i < |list| ==> list[i] == list[1..][i - 1];
      r
  }

  /** `Beperking.ToString()` */
  function Describe(b: Beperking): string {
    "begripCode=" + b.begripCode + ", begripLabel=" + b.begripLabel
  }

  const LabelMissing := ("Element 'begripLabel' " + "is niet voorzien van " + "een waarde.")

  /** `Beperking.IsItemValid`: one restriction checked against the term list.
      An empty label fails; a label without a code succeeds when some term
      has that label; a code and a label succeed when the list holds exactly
      that term. There is always exactly one message, and a verdict. */
  function IsItemValid(b: Beperking, list: seq<Beperking>): (r: BeperkingResult)
    ensures |r.results| == 1 && r.isSuccess != Unknown
    ensures b.begripLabel == "" ==> r == BeperkingResult(No, [LabelMissing])
    ensures b.begripLabel != "" && b.begripCode == "" ==>
      (r.isSuccess == Yes <==> exists t :: t in list && t.begripLabel == b.begripLabel)
    ensures b.begripLabel != "" && b.begripCode != "" ==> (r.isSuccess == Yes <==> b in list)
  {
    if b.begripLabel == "" then
      BeperkingResult(No, [LabelMissing])
    else if b.begripLabel != "" && b.begripCode == "" then
      var found := FindByLabel(list, b.begripLabel);
      var message :=
        if found.None? then ("Element begripLabel met " + "waarde '") + b.begripLabel + ("' niet gevonden in de " + "begrippenlijst")
        else ("Element begripLabel met " + "waarde '") + b.begripLabel + ("' gevonden in de " + "begrippenlijst");
      BeperkingResult(if found.Some? then Yes else No, [message])
    else if b.begripLabel != "" && b.begripCode != "" then
      var contains := Contains(list, b);
      var message :=
        if !contains then "Element begripLabel: '" + b.begripLabel + ("' in combinatie met " + "element begripCode '") + b.begripCode + ("' niet gevonden in de " + "begrippenlijst")
        else ("Gevonden in de " + "begrippenlijst: ") + Describe(b);
      BeperkingResult(if contains then Yes else No, [message])
    else
      // the three cases above cover every restriction
      assert false;
      BeperkingResult(No, [("Controle niet succesvol " + "uitgevoerd: ") + Describe(b)])
  }

  /** A missing `beperkingGebruikType`, `begripCode` or `begripLabel` reads
      as the empty string. */
  function ReadBeperking(g: BeperkingGebruik): (b: Beperking)
    ensures g.beperkingGebruikType.None? ==> b == Beperking("", "")
    ensures g.beperkingGebruikType.Some? && g.beperkingGebruikType.value.begripCode.Some? ==>
      b.begripCode == g.beperkingGebruikType.value.begripCode.value
    ensures g.beperkingGebruikType.Some? && g.beperkingGebruikType.value.begripLabel.Some? ==>
      b.begripLabel == g.beperkingGebruikType.value.begripLabel.value
    ensures g.beperkingGebruikType.Some? && g.beperkingGebruikType.value.begripCode.None? ==> b.begripCode == ""
    ensures g.beperkingGebruikType.Some? && g.beperkingGebruikType.value.begripLabel.None? ==> b.begripLabel == ""
  {
    match g.beperkingGebruikType
    case None => Beperking("", "")
    case Some(t) =>
      Beperking(
        if t.begripCode.None? then "" else t.begripCode.value,
        if t.begripLabel.None? then "" else t.begripLabel.value)
  }

  /** The URL of the vocabulary for a category, given by the name of its
      `BeperkingCategorie` enumerant, on the utilities server. */
  function VocabularyUrl(server: string, port: string, categorie: string): string {
    "http://" + server + ":" + port + "/begrippenlijst/" + categorie
  }

  function GatewayFailure(url: string, file: string, e: Exception): seq<string> {
    FailureMessages(("Exception occured in " + "metadata validation " + "with request '") + url + "' for metadata file '" + file + "'!", e)
  }

  predicate IsFailed(r: BeperkingResult) {
    r.isSuccess == No
  }

  /** The verdicts of all restrictions, with the per-restriction results. */
  function Aggregate(results: seq<BeperkingResult>): BeperkingResult {
    BeperkingResult(
      if |Sequences.Filter(IsFailed, results)| == 0 then Yes else No,
      Sequences.Flatten(Sequences.Map((r: BeperkingResult) => r.results, results)))
  }

  /** `ValidateWithBeperkingenLijstAuteursWet1995` on a loaded document (or
      the exception loading it threw) and the vocabulary the service returned
      (or the exception the request threw). */
  function ValidateBeperkingen(file: string, url: string, doc: Result<XmlDoc>, vocabulary: Result<seq<Beperking>>): BeperkingResult {
    match doc
    case Fail(e) => BeperkingResult(No, GatewayFailure(url, file, e))
    case Ok(d) =>
      if d.informatieobject.None? then BeperkingResult(Unknown, [])
      else
        var restrictions := Sequences.Map(ReadBeperking, d.informatieobject.value);
        if |restrictions| == 0 then BeperkingResult(Unknown, [])
        else match vocabulary
          case Fail(e) => BeperkingResult(No, GatewayFailure(url, file, e))
          case Ok(list) => Aggregate(Sequences.Map((b: Beperking) => IsItemValid(b, list), restrictions))
  }

  /** No failed verdict means every verdict is a success, since no single
      check leaves its verdict unset. */
  lemma {:induction false} NoneFailed(results: seq<BeperkingResult>)
    requires forall i :: 0 <= i < |results| ==> results[i].isSuccess != Unknown
    ensures |Sequences.Filter(IsFailed, results)| == 0 <==> forall i :: 0 <= i < |results| ==> results[i].isSuccess == Yes
  {
    if |results| > 0 {
      NoneFailed(results[1..]);
      assert forall i :: 1 <= i < |results| ==> results[i] == results[1..][i - 1];
    }
  }

  /** The aggregated result: null without an `informatieobject` or without
      restrictions; on a loading or vocabulary failure `false` with three
      messages; otherwise success exactly when every restriction passes, with
      one message per restriction, in document order. */
  lemma BeperkingenOutcome(file: string, url: string, doc: Result<XmlDoc>, vocabulary: Result<seq<Beperking>>)
    ensures var r := ValidateBeperkingen(file, url, doc, vocabulary);
      && (doc.Fail? ==> r.isSuccess == No && |r.results| == 3)
      && (doc.Ok? && doc.value.informatieobject.None? ==> r == BeperkingResult(Unknown, []))
      && (doc.Ok? && doc.value.informatieobject == Some([]) ==> r == BeperkingResult(Unknown, []))
      && (doc.Ok? && doc.value.informatieobject.Some? && |doc.value.informatieobject.value| > 0 ==>
            var gs := doc.value.informatieobject.value;
            && (vocabulary.Fail? ==> r.isSuccess == No && |r.results| == 3)
            && (vocabulary.Ok? ==>
                  && (r.isSuccess == Yes <==>
                        forall i :: 0 <= i < |gs| ==> IsItemValid(ReadBeperking(gs[i]), vocabulary.value).isSuccess == Yes)
                  && r.isSuccess != Unknown
                  && |r.results| == |gs|
                  && forall i :: 0 <= i < |gs| ==> r.results[i] == IsItemValid(ReadBeperking(gs[i]), vocabulary.value).results[0]))
  {
    if doc.Ok? && doc.value.informatieobject.Some? && |doc.value.informatieobject.value| > 0 && vocabulary.Ok? {
      var gs := doc.value.informatieobject.value;
      var list := vocabulary.value;
      var restrictions := Sequences.Map(ReadBeperking, gs);
      var results := Sequences.Map((b: Beperking) => IsItemValid(b, list), restrictions);
      NoneFailed(results);
      var messages := Sequences.Map((r: BeperkingResult) => r.results, results);
      Sequences.FlattenSingletons(messages);
    }
  }
}

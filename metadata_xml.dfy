/** A loaded metadata document (`XDocument.Load`), reduced to the elements
    the metadata validation handler reads. Element names are local names in
    the document's default namespace. */
module MetadataXml {
  import opened Preingest

  /** `beperkingGebruikType`, with its optional `begripCode` and
      `begripLabel` children (their text values). */
  datatype BeperkingGebruikType = BeperkingGebruikType(begripCode: Option<string>, begripLabel: Option<string>)

  /** One `beperkingGebruik` element of an MDTO `informatieobject`. */
  datatype BeperkingGebruik = BeperkingGebruik(beperkingGebruikType: Option<BeperkingGebruikType>)

  /** The ToPX `openbaarheid` element, with the text of its optional
      `omschrijvingBeperkingen` child. */
  datatype Openbaarheid = Openbaarheid(omschrijvingBeperkingen: Option<string>)

  /** The ToPX `bestand` element, with its optional `openbaarheid` child. */
  datatype Bestand = Bestand(openbaarheid: Option<Openbaarheid>)

  datatype XmlDoc = XmlDoc(
    /** Local name of the root's first child element; None when the root has
        no child element. */
    firstChild: Option<string>,
    /** The `beperkingGebruik` children of the root's `informatieobject`, in
        document order; None when there is no `informatieobject`. */
    informatieobject: Option<seq<BeperkingGebruik>>,
    /** The root's `bestand` child, if any. */
    bestand: Option<Bestand>,
    /** The text of `aggregatie/aggregatieniveau`; None when either element
        is missing. */
    aggregatieniveau: Option<string>)
}

/** The earlier reference normaliser of the extraction broker.  Its person,
    analytic and monograph conversions are those of module `GrobidRefs`; a
    reference here carries its candidate notes and its source element, and a
    parse failure is handed back as it is. */
module EarlyGrobidEtl {
  import opened Wrappers
  import opened JsValue
  import opened JsXmlElems
  import opened GrobidRefs
  import GrobidEtl

  /** A candidate as the earlier title search records it. */
  datatype EarlyNote = EarlyNote(id: string, title: string, authors: seq<string>)

  datatype EarlyReference = EarlyReference(
    analytic: Option<Part>,
    monograph: Option<Part>,
    matchingNotes: Option<seq<EarlyNote>>,
    source: Node)

  /** `getReferenceTitle`: the analytic title if non-empty, else the
      monograph's. */
  function GetReferenceTitle(ref: EarlyReference): (r: Option<string>)
    ensures Truthy(TitleOf(ref.analytic)) ==> r == TitleOf(ref.analytic)
    ensures !Truthy(TitleOf(ref.analytic)) ==> r == TitleOf(ref.monograph)
  {
    GrobidRefs.GetReferenceTitle(Reference(ref.analytic, ref.monograph))
  }

  /** `getReferenceAuthors`: the analytic's list whenever there is an
      analytic part, else the monograph's, else none. */
  function GetReferenceAuthors(ref: EarlyReference): (r: seq<Person>)
    ensures ref.analytic.Some? ==> r == ref.analytic.value.authors
    ensures ref.analytic.None? && ref.monograph.Some? ==> r == ref.monograph.value.authors
    ensures ref.analytic.None? && ref.monograph.None? ==> r == []
  {
    GrobidRefs.GetReferenceAuthors(Reference(ref.analytic, ref.monograph))
  }

  /** `gbdToReference`: always a reference, holding its source element and
      no candidates yet. */
  function GbdToReference(e: Node): (r: EarlyReference)
    requires e.Element?
    ensures r.source == e && r.matchingNotes.None?
    ensures r.analytic.None? <==> FindElements(At(e), NameIs("analytic"), None) == []
    ensures r.monograph.None? <==> FindElements(At(e), NameIs("monogr"), None) == []
  {
    EarlyReference(GbdToAnalytic(e), GbdToMonograph(e), None, e)
  }

  /** `gbdXmlToReferences` from the converted document on: the parser's
      errors as they are, or one reference per `biblStruct`, in document
      order. */
  function GbdXmlToReferences(converted: Json): (r: Either<seq<string>, seq<EarlyReference>>)
    ensures r.Left? <==> !IsRootJ(converted)
    ensures ParseJSDocument(converted).Left? ==> r == Left(ParseJSDocument(converted).left)
    ensures ParseJSDocument(converted).Right? ==>
      var bs := GrobidEtl.BiblStructs(ParseJSDocument(converted).right);
      r.Right? && |r.right| == |bs|
      && forall i :: 0 <= i < |bs| ==> r.right[i].source == bs[i] && r.right[i] == GbdToReference(bs[i])
  {
    ParseJSDocumentAccepts(converted);
    var docOrErr := ParseJSDocument(converted);
    if docOrErr.Left? then Left(docOrErr.left)
    else
      var rawRefs := GrobidEtl.BiblStructs(docOrErr.right);
      Right(seq(|rawRefs|, i requires 0 <= i < |rawRefs| => GbdToReference(rawRefs[i])))
  }

  /** On a parse failure the later normaliser reports the same errors and
      adds the two lines about the input. */
  lemma LaterReportExtendsEarlier(xml: string, converted: Json)
    requires !IsRootJ(converted)
    ensures var later := GrobidEtl.GbdXmlToReferences(xml, converted).left;
      |later| == |GbdXmlToReferences(converted).left| + 2
      && later[..|GbdXmlToReferences(converted).left|] == GbdXmlToReferences(converted).left
  {
    ParseJSDocumentAccepts(converted);
  }

  /** On a well-formed document both normalisers find the same references:
      the same parts for the same elements, in the same order. */
  lemma NormalisersAgree(xml: string, converted: Json)
    requires IsRootJ(converted)
    ensures var early := GbdXmlToReferences(converted).right;
      var later := GrobidEtl.GbdXmlToReferences(xml, converted).right;
      |early| == |later|
      && forall i :: 0 <= i < |early| ==>
           later[i].reference == Reference(early[i].analytic, early[i].monograph)
           && later[i].source == early[i].source
  {
    ParseJSDocumentAccepts(converted);
  }
}

# pdf-ref-resolver in Dafny

pdf-ref-resolver takes the TEI XML that the Grobid service produces for a
PDF's bibliography. It turns each `biblStruct` element into a reference
(analytic and monograph parts, each with a title and a list of persons) and
looks up each titled reference in OpenReview. It scores every candidate's
title and author names with a weighted Levenshtein distance, counts what it
found, and writes a filtered JSON report. The extraction-broker module has
an earlier copy of the normaliser, a radix tree keyed by string paths, a
sliding-window helper and a hash-based directory layout.

This project models that core and proves properties of it:

- `leven.dfy`: `levenshteinDistance` as an imperative fill of an `array2`.
  It is proved equal to a recursive table `Cell`. The distance properties
  (zero on equal strings, borders, symmetry, bound, free insertions) are
  proved about `Cell`.
- `js_value.dfy`: the untyped value (object, array, string, number,
  boolean) that the XML converter hands to the schema decoders.
- `js_xml_elems.dfy` and `jselems.dfy`: the lenient and the strict element
  schema, their decoders (`parseJSDocument`), encoders with round-trip
  lemmas, and the pre-order searches `findElement`/`findElements`, plus
  `getElementText` and `findElementText`.
- `grobid_refs.dfy`: title and author precedence and the conversions
  `gbdToPerson`, `gbdToAnalytic` and `gbdToMonograph`. Both normalisers
  share these; `modules/extraction-broker/src/grobid/grobid-etl.ts:93-140`
  repeats `src/grobid/grobid-etl.ts:143-196` line for line.
- `grobid_etl.dfy`: the reference context as a value, and the pure parts of
  the pipeline:
  - scoring: `percentDiff`, `titleDiff`, `authorDiff`;
  - `formatPerson`;
  - the per-candidate mapping of `runOpenReviewQueries`;
  - one step of `summarizeReferences` and its statistics;
  - the `include*` flags and `createJsonFormatOutput`.
- `grobid_contexts.dfy`: the same pipeline over mutable `RefContext`
  objects. Its methods loop over contexts and update their fields in place,
  as the source does. Each is proved to leave every context in the state
  the functions of `grobid_etl.dfy` describe.
- `early_grobid_etl.dfy`: the earlier normaliser, and how it relates to
  the later one.
- `radix_tree.dfy`: the radix tree as a value held by a class `Tree` whose
  methods `Set`, `Get`, `Upsert`, `Insert`, `Unfold` and `FoldUp` update or
  read it. `FoldUp` runs the source's two-stack loop and is proved equal to
  a recursive fold. `radix_examples.dfy` works through the unfold and
  fold-up examples of `radix-tree.test.ts`.
- `array_utils.dfy`: `slidingWindow`.
- `hash_encoded_paths.dfy`: `makeHashEncodedPath` and `toPath`, with the
  SHA-1 hex digest as a function parameter.

The search service is a function parameter `search: string -> seq<SearchHit>`
in the model. The XML text is already converted to a `Json` value, and the
search results are given as data.

## Model

| member | source | states |
|---|---|---|
| Leven.AdjustCosts | src/util/leven.ts:14 | each cost field the caller supplies wins; a missing one takes the default of 1 |
| Leven.LevenshteinDistance | src/util/leven.ts:13-44 | the filled table's corner is the recursive distance. The distance is non-negative, 0 for equal strings, and the other string's length when one is empty. It is at most the longer length when substitution costs at most 1 |
| Leven.FillRow | src/util/leven.ts:32-39 | after the inner loop, rows 0..i hold the recurrence's values and later rows are untouched |
| Leven.CellStep | src/util/leven.ts:33-38 | each inner cell is the minimum of a deletion from above, an insertion from the left and a substitution from the diagonal, where equal characters cost 0 |
| Leven.CellNonNegative | src/util/leven.ts:22-38 | no cell of the table is negative |
| Leven.DiagonalIsZero | src/util/leven.ts:33-38 | a string is at distance 0 from itself whatever the costs |
| Leven.CellSwap | src/util/leven.ts:31-40 | exchanging the strings exchanges the roles of insertion and deletion cost |
| Leven.DistanceSymmetric | src/util/leven.ts:31-40 | with equal insertion and deletion costs (the defaults among them) the distance is symmetric |
| Leven.CellBound | src/util/leven.ts:22-40 | with substitution cost at most 1, cell (i, j) is at most max(i, j) |
| Leven.FreeInsertionsAbsorb | src/util/leven.ts:34-38 | with free insertions, a cell is 0 whenever the first prefix occurs in order in the second, anchored at its first character |
| Leven.FreeInsertionsDistance | src/util/leven.test.ts:31-36 | with free insertions, the distance is 0 when the first string occurs in order inside the second, anchored at its first character |
| Leven.ChainedRowsGiveDistance | src/util/leven.ts:31-43 | a table built row by row, each row from the one above, ends in the distance |
| LevenExamples.KittenSitting | src/util/leven.test.ts:12 | 'kitten' and 'sitting' are 3 apart with default costs |
| LevenExamples.FooInFooBlah | src/util/leven.test.ts:32 | 'foo' and 'foo-blah' are 0 apart with free insertions |
| JsXmlElems.FromAttrVal | src/grobid/js-xml-elems.ts:24-25 | every attribute value encodes to a value the `JSAttrVal` schema accepts and decodes back to itself |
| JsXmlElems.DecodeAttributes | src/grobid/js-xml-elems.ts:27-28 | accepts exactly the objects whose values are all attribute values; keeps every key with its value; rejects with at least one error |
| JsXmlElems.DecodeText | src/grobid/js-xml-elems.ts:37-45 | accepts exactly `{type: 'text', text: string}` and yields that text node |
| JsXmlElems.DecodeElementAccepts | src/grobid/js-xml-elems.ts:54-65 | an element decodes exactly when it has type 'element', a string name and, if present, valid attributes and children; a failure carries errors |
| JsXmlElems.DecodeChildAccepts | src/grobid/js-xml-elems.ts:49-52 | a child decodes exactly when it is an element or a text node |
| JsXmlElems.DecodeChildrenAccept | src/grobid/js-xml-elems.ts:62 | a child array decodes exactly when every entry does, and keeps its length |
| JsXmlElems.DecodeElementsAccept | src/grobid/js-xml-elems.ts:71-73 | a root's entries decode exactly when every one is an element |
| JsXmlElems.ParseJSDocumentAccepts | src/grobid/js-xml-elems.ts:87-96 | `parseJSDocument` yields a document exactly when the input has the root shape; otherwise a non-empty error report; the document's entries are elements |
| JsXmlElems.AttributesRoundTrip | src/grobid/js-xml-elems.ts:27-28 | decoding an encoded attribute map gives it back |
| JsXmlElems.NodeRoundTrip | src/grobid/js-xml-elems.ts:47-65 | decoding an encoded node gives it back |
| JsXmlElems.NodesRoundTrip | src/grobid/js-xml-elems.ts:62 | decoding an encoded child list gives it back |
| JsXmlElems.ElementsRoundTrip | src/grobid/js-xml-elems.ts:71-73 | decoding an encoded list of elements gives it back |
| JsXmlElems.DocumentRoundTrip | src/grobid/js-xml-elems.ts:87-96 | every document of elements survives encoding and `parseJSDocument` |
| JsXmlElems.FindElements | src/grobid/js-xml-elems.ts:118-134 | `[]` unless the root is an element; otherwise every match below the root, and only matches |
| JsXmlElems.FindElementsInPreOrder | src/grobid/js-xml-elems.ts:118-134 | below an element root the result is the matching nodes of the pre-order listing of the subtree, in that order |
| JsXmlElems.FindAllIsPreOrderMatches | src/grobid/js-xml-elems.ts:126-133 | the recursive collection equals the matches of the subtree's pre-order listing (the node, then each child's subtree in turn) |
| JsXmlElems.MatchingAppend | src/grobid/js-xml-elems.ts:126-133 | the matches of two consecutive node lists are the first list's matches followed by the second's |
| JsXmlElems.FindElement | src/grobid/js-xml-elems.ts:99-116 | the first of the matches `findElements` lists, or nothing when the root is not an element |
| JsXmlElems.FindAllExact | src/grobid/js-xml-elems.ts:126-133 | a node is collected exactly when it lies in the subtree and matches |
| JsXmlElems.FindAllInExact | src/grobid/js-xml-elems.ts:126-133 | the same for a list of subtrees |
| JsXmlElems.FindFirstIsHead | src/grobid/js-xml-elems.ts:107-114 | the first match found is the head of all matches |
| JsXmlElems.FindFirstInIsHead | src/grobid/js-xml-elems.ts:107-114 | the same for a list of subtrees |
| JsXmlElems.AbsentAttributesPass | src/grobid/js-xml-elems.ts:112 | an element without an attribute map passes any attribute predicate |
| JsXmlElems.GetElementText | src/grobid/js-xml-elems.ts:136-149 | a text exactly when the element has exactly one child and it is a text node, and then the element's children are that one text node |
| JsXmlElems.FindElementText | src/grobid/js-xml-elems.ts:151-159 | a text exactly when there is a first match and its only child is a text node; that text is the first match's single child. A later match is never consulted |
| JsXmlElems.FirstMatchOnly | src/grobid/js-xml-elems.ts:151-159 | a first `title` with mixed content gives no text even when a later one has plain text |
| JsElems.FromAttrVal | modules/extraction-broker/src/grobid/jselems.ts:8-9 | every attribute value encodes to a value the schema accepts and decodes back to itself |
| JsElems.DecodeAttributes | modules/extraction-broker/src/grobid/jselems.ts:11-12 | accepts exactly the objects of attribute values and keeps every key with its value |
| JsElems.DecodeText | modules/extraction-broker/src/grobid/jselems.ts:26-29 | accepts exactly `{type: 'text', text: string}` |
| JsElems.DecodeElementAccepts | modules/extraction-broker/src/grobid/jselems.ts:38-44 | an element decodes exactly when all four fields are present and valid |
| JsElems.DecodeChildAccepts | modules/extraction-broker/src/grobid/jselems.ts:33-36 | a child decodes exactly when it is an element or a text node |
| JsElems.DecodeChildrenAccept | modules/extraction-broker/src/grobid/jselems.ts:43 | a child array decodes exactly when every entry does |
| JsElems.DecodeElementsAccept | modules/extraction-broker/src/grobid/jselems.ts:52-54 | a root's entries decode exactly when every one is an element |
| JsElems.ParseJSDocumentAccepts | modules/extraction-broker/src/grobid/jselems.ts:56-67 | a document exactly for the root shape, else a non-empty report |
| JsElems.MissingFieldsRejected | modules/extraction-broker/src/grobid/jselems.ts:38-44 | an element that omits its attributes or its children is rejected |
| JsElems.AttributesRoundTrip | modules/extraction-broker/src/grobid/jselems.ts:11-12 | decoding an encoded attribute map gives it back |
| JsElems.NodeRoundTrip | modules/extraction-broker/src/grobid/jselems.ts:31-44 | decoding an encoded node gives it back |
| JsElems.NodesRoundTrip | modules/extraction-broker/src/grobid/jselems.ts:43 | decoding an encoded child list gives it back |
| JsElems.ElementsRoundTrip | modules/extraction-broker/src/grobid/jselems.ts:52-54 | decoding an encoded element list gives it back |
| JsElems.DocumentRoundTrip | modules/extraction-broker/src/grobid/jselems.ts:56-67 | every document of elements survives encoding and parsing |
| JsElems.FindElements | modules/extraction-broker/src/grobid/jselems.ts:88-104 | `[]` unless the root is an element; otherwise exactly the matching nodes of the subtree's pre-order listing, in that order |
| JsElems.FindAllIsPreOrderMatches | modules/extraction-broker/src/grobid/jselems.ts:96-103 | the recursive collection equals the matches of the subtree's pre-order listing |
| JsElems.MatchingAppend | modules/extraction-broker/src/grobid/jselems.ts:96-103 | the matches of two consecutive node lists are the first list's matches followed by the second's |
| JsElems.FindElement | modules/extraction-broker/src/grobid/jselems.ts:69-86 | the first of the matches `findElements` lists |
| JsElems.FindAllExact | modules/extraction-broker/src/grobid/jselems.ts:96-103 | a node is collected exactly when it lies in the subtree and matches |
| JsElems.FindAllInExact | modules/extraction-broker/src/grobid/jselems.ts:96-103 | the same for a list of subtrees |
| JsElems.FindFirstIsHead | modules/extraction-broker/src/grobid/jselems.ts:77-84 | the first match found is the head of all matches |
| JsElems.FindFirstInIsHead | modules/extraction-broker/src/grobid/jselems.ts:77-84 | the same for a list of subtrees |
| JsElems.AttributePredicateAlwaysApplied | modules/extraction-broker/src/grobid/jselems.ts:101 | every element found under an attribute predicate satisfies it |
| JsElems.GetElementText | modules/extraction-broker/src/grobid/jselems.ts:106-115 | yields a text exactly when the only child is that text node |
| GrobidRefs.GetReferenceTitle | src/grobid/grobid-etl.ts:75-78 | the analytic title when it is non-empty, else the monograph's; truthy exactly when either is |
| GrobidRefs.GetReferenceAuthors | src/grobid/grobid-etl.ts:80-87 | the analytic's list whenever there is an analytic part (even an empty list), else the monograph's, else `[]` |
| GrobidRefs.PrecedenceAsymmetry | src/grobid/grobid-etl.ts:75-87 | an analytic with an empty title and no authors yields the monograph's title but no authors |
| GrobidRefs.GbdToPerson | src/grobid/grobid-etl.ts:143-151 | no person exactly when the surname text is missing or empty; a person's surname is never empty |
| GrobidRefs.GbdToPersonNames | src/grobid/grobid-etl.ts:143-151 | a person's surname, first and middle names are the single-text contents of the first `surname`, the first `forename` typed 'first' and the first typed 'middle'; a name is absent when that first element has no single text child or there is none |
| GrobidRefs.PersonsOf | src/grobid/grobid-etl.ts:164-168 | at most one person per author element, each with a non-empty surname |
| GrobidRefs.PersonsOfOne | src/grobid/grobid-etl.ts:164-168 | one author element contributes its person, or nothing when it has no surname |
| GrobidRefs.PersonsOfAppend | src/grobid/grobid-etl.ts:164-168 | the persons of two consecutive author lists are the first list's followed by the second's, so the authors' order is kept |
| GrobidRefs.PersonsOfComplete | src/grobid/grobid-etl.ts:164-168 | every author element that converts contributes its person |
| GrobidRefs.PersonsOfSound | src/grobid/grobid-etl.ts:164-168 | every person comes from converting one of the author elements |
| GrobidRefs.PersonsOfAllNamed | src/grobid/grobid-etl.ts:164-168 | when every author converts, the list is their persons in order |
| GrobidRefs.GbdToPart | src/grobid/grobid-etl.ts:156-174 | absent exactly when no element has the tag; otherwise the title is the `findElementText` of `title` below the first such element, and the authors are the persons of every `author` element below it |
| GrobidRefs.GbdToAnalytic | src/grobid/grobid-etl.ts:156-174 | absent exactly when there is no `analytic` element; otherwise title and authors of the first one |
| GrobidRefs.GbdToMonograph | src/grobid/grobid-etl.ts:179-196 | absent exactly when there is no `monogr` element; otherwise title and authors of the first one |
| GrobidRefs.UntypedForenameIsFirstAndMiddle | src/grobid/grobid-etl.ts:147-148 | a forename without attributes is taken as both first and middle name |
| GrobidEtl.ToLower | src/grobid/grobid-etl.ts:199 | keeps the length and lower-cases every character |
| GrobidEtl.RoundHalfUp | src/grobid/grobid-etl.ts:203 | the nearest integer to n/d, halves rounded up |
| GrobidEtl.PercentDiff | src/grobid/grobid-etl.ts:198-205 | NaN exactly when both strings are empty |
| GrobidEtl.RoundedShareInRange | src/grobid/grobid-etl.ts:201-203 | a rounded share of unchanged characters lies in 0..100, and is 100 when nothing changed |
| GrobidEtl.PercentDiffInRange | src/grobid/grobid-etl.ts:198-205 | with substitution cost at most 1 and a non-empty string, the score is a number in 0..100 |
| GrobidEtl.PercentDiffOfNoEdits | src/grobid/grobid-etl.ts:198-205 | distance 0 scores 100 |
| GrobidEtl.ShortStringsScoreFullOnlyWithoutEdits | src/grobid/grobid-etl.ts:201-203 | below 200 characters, any edit brings the score under 100 |
| GrobidEtl.TitleDiff | src/grobid/grobid-etl.ts:207-209 | NaN exactly when both titles are empty |
| GrobidEtl.TitleDiffSelf | src/grobid/grobid-etl.ts:207-209 | a non-empty title scores 100 against itself |
| GrobidEtl.TitleDiffSymmetric | src/grobid/grobid-etl.ts:207-209 | the title score does not depend on the order of the titles |
| GrobidEtl.StripSpaces | src/grobid/grobid-etl.ts:215-216 | the result has no spaces, is no longer, and holds only characters of the input |
| GrobidEtl.StripSpacesAppend | src/grobid/grobid-etl.ts:215-216 | stripping a concatenation strips each piece, so the other characters keep their order |
| GrobidEtl.StripSpacesNoSpace | src/grobid/grobid-etl.ts:215-216 | a name without spaces is left unchanged |
| GrobidEtl.AuthorDiff | src/grobid/grobid-etl.ts:214-221 | NaN exactly when both names are empty without spaces; otherwise a number in 0..100 |
| GrobidEtl.AuthorDiffOrderFree | src/grobid/grobid-etl.ts:217-220 | for names of different stripped length the score does not depend on the argument order |
| GrobidEtl.Given | src/grobid/grobid-etl.ts:377 | keeps exactly the defined parts, and all of them in order when none is undefined |
| GrobidEtl.FormatPersonForms | src/grobid/grobid-etl.ts:372-379 | the name ends with the surname and starts with the first name when there is one; it is exactly last, first+' '+last, middle+' '+last or first+' '+middle+' '+last as the parts are defined |
| GrobidEtl.JoinEndsWithLast | src/grobid/grobid-etl.ts:378 | a space-joined list ends with its last part |
| GrobidEtl.JoinStartsWithFirst | src/grobid/grobid-etl.ts:378 | a space-joined list starts with its first part |
| GrobidEtl.AuthorRecords | src/grobid/grobid-etl.ts:242-252 | one record per position up to the longer of the name and id lists. Missing names and ids are ''. Positions beyond Grobid's authors score 0. Every score is NaN or in 0..100 |
| GrobidEtl.NotesOf | src/grobid/grobid-etl.ts:239-259 | one note per search hit, keeping its id and title, not yet scored, with the author records of that hit |
| GrobidEtl.QueriedNoteAuthors | src/grobid/grobid-etl.ts:239-259 | after the search, note i has hit i's id and title and one author record per position; record j has hit j's name and id or '', and scores the reference's j-th formatted author against that name, or 0 |
| GrobidEtl.GbdToReference | src/grobid/grobid-etl.ts:118-138 | a context holding the element's parts and source, number -1, empty title, authors and warnings, valid, no candidates |
| GrobidEtl.ParseFailureReport | src/grobid/grobid-etl.ts:96-101 | the parser's errors followed by the fixed heading and ' >' with the first 100 characters of the XML |
| GrobidEtl.BiblStructs | src/grobid/grobid-etl.ts:105-107 | only `biblStruct` elements; below a first root element, exactly its `biblStruct` descendants in document order; none otherwise |
| GrobidEtl.GbdXmlToReferences | src/grobid/grobid-etl.ts:93-116 | the error report exactly when parsing fails; otherwise one context per `biblStruct` of the first root entry, in order |
| GrobidEtl.QueryOne | src/grobid/grobid-etl.ts:227-261 | an untitled context gains the warning 'Error querying Openreview: No title' and nothing else; a titled one gets, as candidates, the notes made from the hits for its quoted title with the reference's authors; nothing else changes |
| GrobidEtl.ScoreNotes | src/grobid/grobid-etl.ts:403-406 | every candidate's title score becomes its title diff against the reference title; nothing else changes |
| GrobidEtl.SummarizeOne | src/grobid/grobid-etl.ts:389-423 | sets the reference number and keeps the reference and source; candidates stay absent exactly when they were |
| GrobidEtl.SummarizeOneEffect | src/grobid/grobid-etl.ts:389-423 | a titled context takes the title and keeps its validity; an untitled one gets '' as title, becomes invalid and gains 'Grobid: no title found'; candidates of a titled context are scored; a titled context without candidates stops before the author step; otherwise the formatted authors are appended in order, or 'Grobid: no authors found' when there are none |
| GrobidEtl.Tally | src/grobid/grobid-etl.ts:381-426 | the reference count is the number of contexts summarised |
| GrobidEtl.TallyAppend | src/grobid/grobid-etl.ts:381-426 | the counters of two consecutive context lists add up |
| GrobidEtl.TallyBounds | src/grobid/grobid-etl.ts:381-426 | the reference count is the number of contexts, and with-notes ≤ with-titles ≤ count, with-authors ≤ count |
| GrobidEtl.IncludeAll | src/grobid/grobid-etl.ts:264-271 | true exactly when the three flags agree |
| GrobidEtl.IncludeMatched | src/grobid/grobid-etl.ts:273-276 | true exactly when matched is asked for or neither of the other two is |
| GrobidEtl.IncludePartialMatched | src/grobid/grobid-etl.ts:278-281 | true exactly when partial is asked for or neither of the other two is |
| GrobidEtl.IncludeUnmatched | src/grobid/grobid-etl.ts:283-286 | true exactly when unmatched is asked for or neither of the other two is |
| GrobidEtl.MatchRecs | src/grobid/grobid-etl.ts:325-345 | every record scores at least 95 and carries the title exactly when it scores below 100; one record per note when all qualify |
| GrobidEtl.MatchRecsComplete | src/grobid/grobid-etl.ts:325-345 | every candidate scoring at least 95 gives its record |
| GrobidEtl.MatchRecsSound | src/grobid/grobid-etl.ts:325-345 | every record is that of a candidate scoring at least 95 |
| GrobidEtl.MatchRecsAppend | src/grobid/grobid-etl.ts:325-345 | the records of consecutive candidate lists follow each other, so candidates keep their order |
| GrobidEtl.PartialMatchOfNotes | src/grobid/grobid-etl.ts:311-345 | a reference is a partial match exactly when a candidate scoring at least 95 has a title score below 100 or an author name score below 100 |
| GrobidEtl.Select | src/grobid/grobid-etl.ts:349-359 | emits the record or nothing; emits exactly when all are wanted, or there are matches and matched are wanted, or it is partial and partial are wanted, or there are none and unmatched are wanted |
| GrobidEtl.RecordFor | src/grobid/grobid-etl.ts:300-362 | a crash exactly when the context is not invalid-and-wanted and has no candidates; invalid wanted contexts give the short record; with agreeing flags nothing is skipped |
| GrobidEtl.SelectionRule | src/grobid/grobid-etl.ts:348-359 | a valid context is emitted exactly when all are wanted, or it has matches and matched are wanted, or it is partial and partial are wanted, or it has none and unmatched are wanted |
| GrobidEtl.Outcomes | src/grobid/grobid-etl.ts:300-362 | one outcome per context, in order, each the callback's outcome for it |
| GrobidEtl.Emitted | src/grobid/grobid-etl.ts:364 | no more records than outcomes, and every emitted record is among them |
| GrobidEtl.RecordsMeaning | src/grobid/grobid-etl.ts:300-364 | fails at the first context whose callback throws, no earlier one throwing; otherwise no context throws and the result is the emitted records of the outcomes, in order |
| GrobidEtl.CreateJsonFormatOutput | src/grobid/grobid-etl.ts:288-370 | fails exactly when some context crashes, at the first one; otherwise the summary copies the statistics and the references are the emitted records of the outcomes, in order |
| GrobidEtl.EqualFlagsEmitEveryContext | src/grobid/grobid-etl.ts:349 | with agreeing flags every context is reported |
| GrobidEtl.PipelineThrowsOnlyOnUntitled | src/grobid/grobid-etl.ts:348 | after querying and summarising, a context is valid exactly when it has a title, and the output crashes on it exactly when it is untitled and unmatched references are not wanted |
| GrobidEtl.PipelineScoresEveryCandidate | src/grobid/grobid-etl.ts:403-406 | after querying and summarising a titled context, every candidate carries a title score |
| GrobidEtl.UntitledReferenceThrows | src/grobid/grobid-etl.ts:348 | an empty `biblStruct` with only matched references requested crashes the output |
| GrobidEtl.RecordForFixed | src/grobid/grobid-etl.ts:322-348 | never crashes; agrees with the source wherever it does not crash; otherwise reports the context with no matches, emitted exactly when unmatched are wanted |
| GrobidEtl.RecordsFixed | src/grobid/grobid-etl.ts:300-364 | at most one record per context, one each when all are wanted |
| GrobidEtl.CreateJsonFormatOutputFixed | src/grobid/grobid-etl.ts:288-370 | the summary copies the statistics; with agreeing flags every context is reported |
| GrobidEtl.RecordsFixedAgree | src/grobid/grobid-etl.ts:300-364 | the corrected records equal the source's whenever the source does not crash |
| GrobidEtl.CreateJsonFormatOutputFixedAgrees | src/grobid/grobid-etl.ts:288-370 | the corrected output equals the source's whenever the source does not crash |
| GrobidEtl.UntitledReferenceSkipped | src/grobid/grobid-etl.ts:322-323 | the corrected output skips the empty `biblStruct` in that case instead of crashing |
| GrobidContexts.RefContext.constructor | src/grobid/grobid-etl.ts:56-65 | a new context object holds the given field values |
| GrobidContexts.GbdXmlToReferences | src/grobid/grobid-etl.ts:93-116 | pushes the two report lines onto the parser's errors, or makes one fresh, distinct context object per `biblStruct` holding its initial values |
| GrobidContexts.NewContexts | src/grobid/grobid-etl.ts:109-113 | one fresh, distinct context object per converted value, holding it, in order |
| GrobidContexts.RunOpenReviewQueries | src/grobid/grobid-etl.ts:226-262 | every context ends in the state `QueryOne` gives for its old state |
| GrobidContexts.ScoreMatchingNotes | src/grobid/grobid-etl.ts:403-406 | replaces the candidates by their scored versions and changes nothing else |
| GrobidContexts.SummarizeOne | src/grobid/grobid-etl.ts:389-423 | the context ends in the state `SummarizeOne` gives, and the three counters' increments are returned |
| GrobidContexts.SummarizeReferences | src/grobid/grobid-etl.ts:381-426 | context i ends summarised with number i; the reference count is the number of contexts and the other counters are the tally of the old states, ordered |
| GrobidContexts.SummarizeAt | src/grobid/grobid-etl.ts:389-423 | one turn of the loop: context k is summarised with number k, the others unchanged, and the counters advance by its tally |
| GrobidContexts.CollectMatches | src/grobid/grobid-etl.ts:325-345 | the match records and the partial flag are those of `MatchRecs` and `IsPartial` |
| GrobidContexts.OutputFor | src/grobid/grobid-etl.ts:300-362 | returns the context's outcome; only on a crash does it first push the warning |
| GrobidContexts.CreateJsonFormatOutput | src/grobid/grobid-etl.ts:288-370 | returns exactly the functional output for the old states. Contexts are unchanged on success; on a crash only the crashing context gains the warning |
| GrobidContexts.MapContexts | src/grobid/grobid-etl.ts:300-364 | the records of the old states, or the first crashing index; only that context gains the warning |
| GrobidContexts.OutputStep | src/grobid/grobid-etl.ts:300-362 | one callback turn: throws exactly when the context's outcome is a crash, and then the whole output fails at k; otherwise the context is unchanged and the collected records extend towards the functional result |
| EarlyGrobidEtl.GetReferenceTitle | modules/extraction-broker/src/grobid/grobid-etl.ts:44-47 | the analytic title when non-empty, else the monograph's |
| EarlyGrobidEtl.GetReferenceAuthors | modules/extraction-broker/src/grobid/grobid-etl.ts:49-56 | the analytic's authors whenever there is an analytic part, else the monograph's, else `[]` |
| EarlyGrobidEtl.GbdToReference | modules/extraction-broker/src/grobid/grobid-etl.ts:79-91 | always a reference, with its source element and no candidates; each part absent exactly when its element is |
| EarlyGrobidEtl.GbdXmlToReferences | modules/extraction-broker/src/grobid/grobid-etl.ts:58-77 | the parser's errors unchanged, or one reference per `biblStruct` in order |
| EarlyGrobidEtl.LaterReportExtendsEarlier | modules/extraction-broker/src/grobid/grobid-etl.ts:63 | on a parse failure the later normaliser reports the same errors plus two lines |
| EarlyGrobidEtl.NormalisersAgree | modules/extraction-broker/src/grobid/grobid-etl.ts:58-77 | on a valid document both normalisers find the same parts for the same elements in the same order |
| RadixTree.Empty | modules/extraction-broker/src/util/radix-tree.ts:10-13 | no data and no children |
| RadixTree.EmptyHoldsNothing | modules/extraction-broker/src/util/radix-tree.ts:10-13 | a new tree holds no value at any path |
| RadixTree.Split | modules/extraction-broker/src/util/radix-tree.ts:17 | at least one segment, none containing '.' |
| RadixTree.SplitJoin | modules/extraction-broker/src/util/radix-tree.ts:15-20 | splitting dot-joined segments without dots gives them back |
| RadixTree.JoinSplit | modules/extraction-broker/src/util/radix-tree.ts:15-20 | joining the split of a string gives it back |
| RadixTree.CleanPath | modules/extraction-broker/src/util/radix-tree.ts:15-20 | a dotted string becomes its segments; a segment list is kept |
| RadixTree.ChildIndex | modules/extraction-broker/src/util/radix-tree.ts:29 | finds a child with the key exactly when one exists |
| RadixTree.SetThenLookup | modules/extraction-broker/src/util/radix-tree.ts:22-42 | after setting a path, the path holds the data |
| RadixTree.SetLeavesOthers | modules/extraction-broker/src/util/radix-tree.ts:22-42 | setting one path changes no other path's value |
| RadixTree.SetCreatesPrefixes | modules/extraction-broker/src/util/radix-tree.ts:28-37 | every prefix of a set path then has a node |
| RadixTree.SetKeepsValid | modules/extraction-broker/src/util/radix-tree.ts:22-42 | setting keeps sibling keys distinct |
| RadixTree.Upserted | modules/extraction-broker/src/util/radix-tree.ts:58-67 | the path holds `f` of its prior value, and every other path is unchanged |
| RadixTree.UpsertTwice | modules/extraction-broker/src/util/radix-tree.ts:58-67 | two upserts on a path compose |
| RadixTree.Visits | modules/extraction-broker/src/util/radix-tree.ts:71-85 | the first visit is the node itself, with its path, data and child count |
| RadixTree.VisitCount | modules/extraction-broker/src/util/radix-tree.ts:71-85 | one visit per node |
| RadixTree.VisitsReportStoredData | modules/extraction-broker/src/util/radix-tree.ts:75-82 | every visit reports the data stored at its path |
| RadixTree.TraverseValues | modules/extraction-broker/src/util/radix-tree.ts:87-94 | every visit holding data gives its path and data; in a valid tree each pair is the value stored at its path |
| RadixTree.Values | modules/extraction-broker/src/util/radix-tree.ts:90-93 | every pair comes from a visit holding that data |
| RadixTree.ValuesComplete | modules/extraction-broker/src/util/radix-tree.ts:90-93 | every visit holding data contributes its path and data |
| RadixTree.ValuesAppend | modules/extraction-broker/src/util/radix-tree.ts:87-94 | the values of consecutive visits follow each other, so the visit order is kept |
| RadixTree.ValuesAsUnfold | modules/extraction-broker/src/util/radix-tree.ts:87-109 | the values are the unfold with the callback that keeps the nodes holding data |
| RadixTree.ValuesStored | modules/extraction-broker/src/util/radix-tree.ts:87-94 | in a valid tree each reported pair is the value stored at its path |
| RadixTree.Unfolded | modules/extraction-broker/src/util/radix-tree.ts:96-109 | at most one result per visit |
| RadixTree.UnfoldedSound | modules/extraction-broker/src/util/radix-tree.ts:101-106 | every result is `f`'s defined result on some visit |
| RadixTree.UnfoldedComplete | modules/extraction-broker/src/util/radix-tree.ts:101-106 | every defined result of `f` on a visit is kept |
| RadixTree.UnfoldedAppend | modules/extraction-broker/src/util/radix-tree.ts:100-108 | the results of consecutive visits follow each other, so the visit order is kept |
| RadixTree.UnfoldedTotal | modules/extraction-broker/src/util/radix-tree.ts:101-106 | when `f` never gives undefined, result i is `f` of visit i |
| RadixTree.RunAppend | modules/extraction-broker/src/util/radix-tree.ts:130-140 | running the stack loop over a concatenation runs the tail first, then the head |
| RadixTree.RunSubtree | modules/extraction-broker/src/util/radix-tree.ts:130-140 | running the loop over a subtree's visits pushes exactly that subtree's fold |
| RadixTree.FoldAll | modules/extraction-broker/src/util/radix-tree.ts:118-143 | the root gets index size-1, its data and its children's results in insertion order |
| RadixTree.Tree.constructor | modules/extraction-broker/src/util/radix-tree.ts:10-13 | a new tree is empty |
| RadixTree.Tree.Set | modules/extraction-broker/src/util/radix-tree.ts:22-42 | returns the prior value; the path then holds the data |
| RadixTree.Tree.Get | modules/extraction-broker/src/util/radix-tree.ts:44-56 | the walk returns the value stored at the path, or nothing |
| RadixTree.Tree.Upsert | modules/extraction-broker/src/util/radix-tree.ts:58-67 | the tree becomes `Upserted` of the cleaned path |
| RadixTree.Tree.Insert | modules/extraction-broker/src/util/radix-tree.ts:69 | the path then holds the value, and no other path changes |
| RadixTree.Tree.Unfold | modules/extraction-broker/src/util/radix-tree.ts:96-109 | collects `f`'s defined results in pre-order |
| RadixTree.Tree.FoldUp | modules/extraction-broker/src/util/radix-tree.ts:118-143 | the two-stack loop returns the recursive fold |
| RadixExamples.BuildTwoBranches | modules/extraction-broker/src/util/radix-tree.test.ts:158-159 | inserting 'a.b' and 'd.e.f' builds two chains |
| RadixExamples.UnfoldOrder | modules/extraction-broker/src/util/radix-tree.test.ts:155-175 | the unfold visits '', a, ab, d, de, def in that order, with data only at ab and def |
| RadixExamples.BuildFoldTree | modules/extraction-broker/src/util/radix-tree.test.ts:180-182 | inserting 'a', 'a.b.c' and 'a.d.e' builds the expected tree |
| RadixExamples.FoldUpLabels | modules/extraction-broker/src/util/radix-tree.test.ts:177-193 | the fold numbers the nodes #5(a#4!(a.b#3(a.b.c#2!), a.d#1(a.d.e#0!))) |
| ArrayUtils.Drop | modules/extraction-broker/src/util/array-utils.ts:11 | `slice(offset)`: the suffix after offset, or empty when too short |
| ArrayUtils.SlidingWindow | modules/extraction-broker/src/util/array-utils.ts:5-13 | empty exactly when the input is shorter than the window; otherwise the first window is the prefix |
| ArrayUtils.WindowCount | modules/extraction-broker/src/util/array-utils.ts:10-11 | from n ≥ window on there are (n - window) / offset + 1 windows |
| ArrayUtils.WindowAt | modules/extraction-broker/src/util/array-utils.ts:11 | window k is the slice of length `window` starting at k·offset |
| ArrayUtils.SlidingWindowIsSlices | modules/extraction-broker/src/util/array-utils.ts:9-12 | the recursion yields exactly the list of those slices, in order |
| ArrayUtils.DefaultOffsetWindows | modules/extraction-broker/src/util/array-utils.ts:7 | with the default offset 1 there are n - window + 1 windows, one at every index |
| HashEncodedPaths.SliceEnd | modules/extraction-broker/src/util/hash-encoded-paths.ts:17 | the end of `slice(0, depth)`: depth clamped to the length, negative depths counted from the end |
| HashEncodedPaths.MakeHashEncodedPath | modules/extraction-broker/src/util/hash-encoded-paths.ts:14-24 | source and depth are kept and the hash is recorded. There is one single-character segment per hash character up to the slice end |
| HashEncodedPaths.ToPath | modules/extraction-broker/src/util/hash-encoded-paths.ts:25-28 | ends with the hash and '.d'; before it, the '/'-joined segments and a '/' when there are any, else nothing |
| HashEncodedPaths.JoinSingles | modules/extraction-broker/src/util/hash-encoded-paths.ts:27 | single characters joined by '/' sit at even positions with '/' between |
| HashEncodedPaths.PathLayout | modules/extraction-broker/src/util/hash-encoded-paths.ts:25-28 | the path is each leading hash character followed by '/', then the hash and '.d' |
| HashEncodedPaths.DepthZeroPath | modules/extraction-broker/src/util/hash-encoded-paths.ts:25-28 | at depth 0 the path is the hash and '.d' |
| HashEncodedPaths.PathsSeparateHashes | modules/extraction-broker/src/util/hash-encoded-paths.ts:25-28 | equal paths at one depth, with hashes of equal length, mean equal hashes |

## Left out

- Parsing XML text into the tree is left out; it belongs to the `xml-js` library (`src/grobid/js-xml-elems.ts:80-85`). The model starts from the converted value.
- The decoders' error wording is not modelled; it comes from io-ts's `PathReporter`. Each error line is an abstract `Invalid(path)`. The console output in `parseJSDocument` is left out.
- `d-forest`'s search is taken to be a pre-order walk over element and text nodes. Attribute objects that happen to look like elements are not searched.
- `modules/extraction-broker/src/grobid/js-xml-elems.ts`, which the earlier normaliser imports, is not part of this model. That normaliser is modelled over the lenient layer, because it uses `findElementText`, which only that layer has.
- GrobidEtl.PercentDiff: `Math.round` of a floating-point ratio is modelled as exact round-half-up of 100·unchanged/ubound. Floating-point ties are not modelled.
- GrobidEtl.ToLower: lower-cases ASCII letters only. Unicode case mapping is not modelled.
- The OpenReview search, with its quoting, `forum` source and limit of 3, is the function parameter `search`. The HTTP client, retries and credentials are left out.
- Search hits are assumed to carry `authors` and `authorids` lists. A hit missing either field, which would make the source throw, is not represented.
- `reshapeApi2Notes` and `queryNotesForTitle` are left out; they are library behaviour and network I/O.
- GrobidContexts: distinct context objects are required (`Distinct`); aliased contexts in one list are not modelled. Candidate notes are values held in their context rather than shared objects.
- RadixTree.Tree: the tree is a value held in one field. Node aliasing is not modelled, nor is the `node` argument that `radTraverseDepthFirst` and `radFoldUp` pass to callbacks.
- RadixTree.Tree.Set: takes a segment list. `radSet` and `radGet` with a raw string path, which `_.each` would walk character by character, are left out; both are internal and only called with cleaned paths.
- `printReferences`, the earlier `runOpenReviewQueries` (console output and its own client) and `prettyPrint` are left out.
- The `withSource` content flag is carried but unused, as in `createJsonFormatOutput`.
- `walkDir` in `hash-encoded-paths.ts` is filesystem I/O and is left out. SHA-1 is a function parameter.
- HashEncodedPaths.PathLayout: `path.join` is modelled as plain concatenation with '/'. Its normalisation of '.', '..' and repeated separators is not modelled; a hex digest contains none of them.
- The `DJFleet` free-insertion example from `src/util/leven.test.ts:35` is not worked out. Its table is too large to evaluate cheaply; `Leven.FreeInsertionsDistance` covers the general rule.
- Logging, the CLI, the database and pipeline orchestration are left out.
- GrobidEtl.PercentDiff: lengths are counted in characters. JavaScript counts UTF-16 code units, so characters outside the basic multilingual plane count once here and twice there.
- GrobidEtl.ParseFailureReport: the excerpt is the first 100 characters. `substring(0, 100)` counts UTF-16 code units and can split a surrogate pair; that is not modelled.
- JsXmlElems.FromAttrVal: numbers are integers. The `io.number` schema also accepts fractions, NaN and infinities, which are not modelled; the same holds for JsElems.FromAttrVal.
- Leven.AdjustCosts: costs are natural numbers. Negative or fractional costs, which the TypeScript type allows, are not modelled.
- ArrayUtils.SlidingWindow: requires a window and an offset of at least 1. With a window of 0 or an offset of 0 the source recurses without end on a long enough input; these calls are not modelled.

## Findings

The system's documented failure policy says that no per-reference problem stops the process. The code at line 348 can throw, and the model follows the code.

| source | as written | input that shows it | evidently intended | confidence | as-written member | corrected member |
|---|---|---|---|---|---|---|
| src/grobid/grobid-etl.ts:348 | `resultRec.openreviewMatches.length` is read even when the title search never ran, so `openreviewMatches` was never set and the read throws | an empty `<biblStruct/>` with only matched references requested: it is summarised as invalid, unmatched references are not wanted, and it has no candidates | such a context keeps the warning 'OpenReview title matching was not run' and counts as having no matches | high, not executed | GrobidEtl.UntitledReferenceThrows | GrobidEtl.CreateJsonFormatOutputFixed |

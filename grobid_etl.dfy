/** Reference extraction, scoring and reporting: the value-level part of the
    Grobid pipeline.  A reference context is described here as a value
    (`Ctx`); the objects the pipeline updates in place, and the loops that
    update them, are in module `GrobidContexts`. */
module GrobidEtl {
  import opened Wrappers
  import opened JsValue
  import opened Leven
  import opened JsXmlElems
  import opened GrobidRefs

  // ---------------------------------------------------------------------
  // Similarity scores (`percentDiff`, `titleDiff`, `authorDiff`)
  // ---------------------------------------------------------------------

  /** A percentage as JavaScript computes it: a number, or NaN when the
      ratio is 0/0.  Every comparison with NaN is false. */
  datatype Percent = Pct(v: int) | NaN

  predicate AtLeast(p: Percent, k: int) { p.Pct? && p.v >= k }

  predicate Below(p: Percent, k: int) { p.Pct? && p.v < k }

  /** `toLowerCase` on ASCII letters; other characters are unchanged. */
  function LowerChar(c: char): char {
    if 'A' <= c <= 'Z' then (c as int + 32) as char else c
  }

  function ToLower(s: string): (r: string)
    ensures |r| == |s|
    ensures forall i :: 0 <= i < |s| ==> r[i] == LowerChar(s[i])
  {
    seq(|s|, i requires 0 <= i < |s| => LowerChar(s[i]))
  }

  /** `Math.round(n / d)` for a positive denominator: halves round up. */
  function RoundHalfUp(n: int, d: int): (r: int)
    requires d > 0
    ensures 2 * d * r - d <= 2 * n < 2 * d * r + d
  {
    var q := (2 * n + d) / (2 * d);
    assert 2 * n + d == 2 * d * q + (2 * n + d) % (2 * d);
    q
  }

  /** `percentDiff`: the share of the longer string left unchanged by the
      edit distance of the lower-cased strings, rounded to a percentage. */
  function PercentDiff(s1: string, s2: string, costs: PartialCosts): (r: Percent)
    ensures r.NaN? <==> s1 == "" && s2 == ""
  {
    var dist := Distance(ToLower(s1), ToLower(s2), AdjustCosts(costs));
    var ub := Max(|s1|, |s2|);
    if ub == 0 then NaN else Pct(RoundHalfUp(100 * (ub - dist), ub))
  }

  /** A percentage of an unchanged count between 0 and the bound lies
      between 0 and 100. */
  lemma RoundedShareInRange(u: int, ub: int)
    requires 0 <= u <= ub && ub > 0
    ensures 0 <= RoundHalfUp(100 * u, ub) <= 100
    ensures u == ub ==> RoundHalfUp(100 * u, ub) == 100
  {
    var r := RoundHalfUp(100 * u, ub);
    CancelFactor(ub, -1, 2 * r + 1);
    CancelFactor(ub, 2 * r - 1, 201);
    if u == ub {
      CancelFactor(ub, 199, 2 * r + 1);
    }
  }

  lemma CancelFactor(d: int, x: int, k: int)
    requires d > 0 && d * x < d * k
    ensures x < k
  {
  }

  /** With every cost at most 1 (the defaults, or a free deletion) the score
      of two strings, not both empty, is between 0 and 100. */
  lemma PercentDiffInRange(s1: string, s2: string, costs: PartialCosts)
    requires AdjustCosts(costs).sub <= 1
    requires s1 != "" || s2 != ""
    ensures PercentDiff(s1, s2, costs).Pct?
    ensures 0 <= PercentDiff(s1, s2, costs).v <= 100
  {
    var a, b, c := ToLower(s1), ToLower(s2), AdjustCosts(costs);
    CellNonNegative(a, b, c, |a|, |b|);
    CellBound(a, b, c, |a|, |b|);
    RoundedShareInRange(Max(|s1|, |s2|) - Distance(a, b, c), Max(|s1|, |s2|));
  }

  /** Strings at distance 0 score 100. */
  lemma PercentDiffOfNoEdits(s1: string, s2: string, costs: PartialCosts)
    requires s1 != "" || s2 != ""
    requires Distance(ToLower(s1), ToLower(s2), AdjustCosts(costs)) == 0
    ensures PercentDiff(s1, s2, costs) == Pct(100)
  {
    RoundedShareInRange(Max(|s1|, |s2|), Max(|s1|, |s2|));
  }

  /** Below 200 characters, one edit is enough to lose the full score;
      from 200 characters on, a single edit still rounds to 100. */
  lemma ShortStringsScoreFullOnlyWithoutEdits(s1: string, s2: string, costs: PartialCosts)
    requires 0 < Max(|s1|, |s2|) < 200
    requires Distance(ToLower(s1), ToLower(s2), AdjustCosts(costs)) > 0
    ensures Below(PercentDiff(s1, s2, costs), 100)
  {
    var dist := Distance(ToLower(s1), ToLower(s2), AdjustCosts(costs));
    RoundedShareBelowFull(Max(|s1|, |s2|) - dist, Max(|s1|, |s2|));
  }

  lemma RoundedShareBelowFull(u: int, ub: int)
    requires u < ub < 200 && ub > 0
    ensures RoundHalfUp(100 * u, ub) < 100
  {
    var r := RoundHalfUp(100 * u, ub);
    CancelFactor(ub, 2 * r - 1, 199);
  }

  /** `titleDiff`: the score with default costs. */
  function TitleDiff(s1: string, s2: string): (r: Percent)
    ensures r.NaN? <==> s1 == "" && s2 == ""
  {
    PercentDiff(s1, s2, NoCosts)
  }

  /** A non-empty title scores 100 against itself. */
  lemma TitleDiffSelf(s: string)
    requires s != ""
    ensures TitleDiff(s, s) == Pct(100)
  {
    DiagonalIsZero(ToLower(s), DefaultCosts, |s|);
    PercentDiffOfNoEdits(s, s, NoCosts);
  }

  /** With default costs the score does not depend on argument order. */
  lemma TitleDiffSymmetric(s1: string, s2: string)
    ensures TitleDiff(s1, s2) == TitleDiff(s2, s1)
  {
    DistanceSymmetric(ToLower(s1), ToLower(s2), DefaultCosts);
  }

  /** The regular expression `/[  ]+/g` replaced by '': every space removed. */
  function StripSpaces(s: string): (r: string)
    ensures |r| <= |s|
    ensures ' ' !in r
    ensures forall c :: c in r ==> c in s
  {
    if s == [] then []
    else (if s[0] == ' ' then [] else [s[0]]) + StripSpaces(s[1..])
  }

  /** Removing spaces works piecewise, so the other characters keep their
      order. */
  lemma {:induction false} StripSpacesAppend(a: string, b: string)
    ensures StripSpaces(a + b) == StripSpaces(a) + StripSpaces(b)
  {
    if a == [] {
      assert a + b == b;
    } else {
      var c, rest := a[0], a[1..];
      assert a == [c] + rest;
      assert a + b == [c] + (rest + b);
      StripSpacesAppend(rest, b);
      StripSpacesCons(c, rest + b);
      StripSpacesCons(c, rest);
    }
  }

  /** A name without spaces is left as it is. */
  lemma {:induction false} StripSpacesNoSpace(s: string)
    requires ' ' !in s
    ensures StripSpaces(s) == s
  {
    if s != [] {
      assert s[0] != ' ' && ' ' !in s[1..];
      StripSpacesNoSpace(s[1..]);
    }
  }

  lemma StripSpacesCons(c: char, s: string)
    ensures StripSpaces([c] + s) == (if c == ' ' then [] else [c]) + StripSpaces(s)
  {
    assert ([c] + s)[1..] == s;
  }

  const FreeDeletion: PartialCosts := PartialCosts(None, Some(0), None)

  /** `authorDiff`: spaces are ignored, and the longer name is scored
      against the shorter one with free deletions. */
  function AuthorDiff(st1: string, st2: string): (r: Percent)
    ensures r.NaN? <==> StripSpaces(st1) == "" && StripSpaces(st2) == ""
    ensures r.Pct? ==> 0 <= r.v <= 100
  {
    var s1 := StripSpaces(st1);
    var s2 := StripSpaces(st2);
    if |s1| > |s2| then
      (PercentDiffInRange(s1, s2, FreeDeletion); PercentDiff(s1, s2, FreeDeletion))
    else if s1 == "" && s2 == "" then PercentDiff(s2, s1, FreeDeletion)
    else
      (PercentDiffInRange(s2, s1, FreeDeletion); PercentDiff(s2, s1, FreeDeletion))
  }

  /** When the names differ in length once spaces are removed, the longer
      one is always the first argument of the score, whichever order the
      names were given in. */
  lemma AuthorDiffOrderFree(st1: string, st2: string)
    requires |StripSpaces(st1)| != |StripSpaces(st2)|
    ensures AuthorDiff(st1, st2) == AuthorDiff(st2, st1)
  {
  }

  // ---------------------------------------------------------------------
  // formatPerson
  // ---------------------------------------------------------------------

  /** `parts.join(' ')` */
  function JoinSpaced(parts: seq<string>): string {
    if parts == [] then ""
    else if |parts| == 1 then parts[0]
    else parts[0] + " " + JoinSpaced(parts[1..])
  }

  /** The parts that are not `undefined`, in order. */
  function Given(xs: seq<Option<string>>): (r: seq<string>)
    ensures |r| <= |xs|
    ensures forall s :: s in r <==> Some(s) in xs
    ensures (forall i :: 0 <= i < |xs| ==> xs[i].Some?) ==>
      |r| == |xs| && forall i :: 0 <= i < |xs| ==> r[i] == xs[i].value
  {
    if xs == [] then []
    else (if xs[0].Some? then [xs[0].value] else []) + Given(xs[1..])
  }

  /** `formatPerson`: the given name parts joined with single spaces; an
      absent part is skipped, an empty one is kept. */
  function FormatPerson(p: Person): string {
    JoinSpaced(Given([p.first, p.middle]) + [p.last])
  }

  /** A formatted name ends with the surname and starts with the first name
      when there is one; absent parts leave no extra space. */
  lemma FormatPersonForms(p: Person)
    ensures var r := FormatPerson(p);
      |r| >= |p.last| && r[|r| - |p.last|..] == p.last
    ensures p.first.None? && p.middle.None? ==> FormatPerson(p) == p.last
    ensures p.first.Some? && p.middle.None? ==> FormatPerson(p) == p.first.value + " " + p.last
    ensures p.first.None? && p.middle.Some? ==> FormatPerson(p) == p.middle.value + " " + p.last
    ensures p.first.Some? && p.middle.Some? ==>
      FormatPerson(p) == p.first.value + " " + p.middle.value + " " + p.last
    ensures var r := FormatPerson(p);
      p.first.Some? ==> |r| >= |p.first.value| && r[..|p.first.value|] == p.first.value
  {
    var parts := Given([p.first, p.middle]) + [p.last];
    JoinEndsWithLast(Given([p.first, p.middle]), p.last);
    JoinStartsWithFirst(parts);
    GivenPair(p.first, p.middle);
    var a := if p.first.Some? then p.first.value else if p.middle.Some? then p.middle.value else p.last;
    var b := if p.middle.Some? then p.middle.value else p.last;
    JoinSpacedShort(a, b, p.last);
  }

  lemma JoinSpacedShort(a: string, b: string, c: string)
    ensures JoinSpaced([a, b]) == a + " " + b
    ensures JoinSpaced([a, b, c]) == a + " " + b + " " + c
  {
    assert [a, b][1..] == [b];
    assert [b, c][1..] == [c];
    assert JoinSpaced([b, c]) == b + " " + c;
    assert [a, b, c][1..] == [b, c];
  }

  lemma GivenPair(a: Option<string>, b: Option<string>)
    ensures Given([a, b]) == (if a.Some? then [a.value] else []) + (if b.Some? then [b.value] else [])
  {
    assert [a, b][1..] == [b];
    assert [b][1..] == [];
  }

  lemma {:induction false} JoinEndsWithLast(init: seq<string>, last: string)
    ensures var r := JoinSpaced(init + [last]); |r| >= |last| && r[|r| - |last|..] == last
  {
    if init != [] {
      JoinEndsWithLast(init[1..], last);
      assert (init + [last])[1..] == init[1..] + [last];
    }
  }

  lemma JoinStartsWithFirst(parts: seq<string>)
    requires parts != []
    ensures |JoinSpaced(parts)| >= |parts[0]| && JoinSpaced(parts)[..|parts[0]|] == parts[0]
  {
  }

  // ---------------------------------------------------------------------
  // Candidate notes (`runOpenReviewQueries`)
  // ---------------------------------------------------------------------

  /** A note as the title search returns it: `id` and the `title`,
      `authors` and `authorids` of its content. */
  datatype SearchHit = SearchHit(id: string, title: string, authors: seq<string>, authorids: seq<string>)

  datatype Author = Author(name: string, id: string, nameMatch: Percent)

  /** `titleMatch` is absent until the summary scores the note. */
  datatype Note = Note(id: string, title: string, authors: seq<Author>, titleMatch: Option<Percent>)

  /** The `i`-th author record: name and id, or '' past the end of their
      list, and the score against the reference's `i`-th author, or 0. */
  function AuthorRecord(hit: SearchHit, grobidAuthors: seq<Person>, i: nat): Author {
    var name := if i < |hit.authors| then hit.authors[i] else "";
    var id := if i < |hit.authorids| then hit.authorids[i] else "";
    var nameMatch := if i < |grobidAuthors| then AuthorDiff(FormatPerson(grobidAuthors[i]), name) else Pct(0);
    Author(name, id, nameMatch)
  }

  /** One record per position of the longer of `authors` and `authorids`. */
  function AuthorRecords(hit: SearchHit, grobidAuthors: seq<Person>): (rs: seq<Author>)
    ensures |rs| == Max(|hit.authors|, |hit.authorids|)
    ensures forall i :: 0 <= i < |hit.authors| ==> rs[i].name == hit.authors[i]
    ensures forall i :: 0 <= i < |hit.authorids| ==> rs[i].id == hit.authorids[i]
    ensures forall i :: |hit.authors| <= i < |rs| ==> rs[i].name == ""
    ensures forall i :: |hit.authorids| <= i < |rs| ==> rs[i].id == ""
    ensures forall i :: |grobidAuthors| <= i < |rs| ==> rs[i].nameMatch == Pct(0)
    ensures forall i :: 0 <= i < |rs| && i < |grobidAuthors| ==>
      rs[i].nameMatch == AuthorDiff(FormatPerson(grobidAuthors[i]), rs[i].name)
    ensures forall i :: 0 <= i < |rs| ==> rs[i].nameMatch.NaN? || 0 <= rs[i].nameMatch.v <= 100
  {
    seq(Max(|hit.authors|, |hit.authorids|), i requires i >= 0 => AuthorRecord(hit, grobidAuthors, i))
  }

  function NoteOf(hit: SearchHit, grobidAuthors: seq<Person>): Note {
    Note(hit.id, hit.title, AuthorRecords(hit, grobidAuthors), None)
  }

  function NotesOf(hits: seq<SearchHit>, grobidAuthors: seq<Person>): (ns: seq<Note>)
    ensures |ns| == |hits|
    ensures forall i :: 0 <= i < |hits| ==> ns[i].id == hits[i].id && ns[i].title == hits[i].title && ns[i].titleMatch.None?
    ensures forall i :: 0 <= i < |hits| ==> ns[i].authors == AuthorRecords(hits[i], grobidAuthors)
  {
    seq(|hits|, i requires 0 <= i < |hits| => NoteOf(hits[i], grobidAuthors))
  }

  /** The search term: the title in double quotes. */
  function QuotedTitle(title: string): string {
    "\"" + title + "\""
  }

  // ---------------------------------------------------------------------
  // Reference contexts as values
  // ---------------------------------------------------------------------

  datatype Ctx = Ctx(
    reference: Reference,
    refNumber: int,
    title: string,
    authors: seq<string>,
    warnings: seq<string>,
    isValid: bool,
    matchingNotes: Option<seq<Note>>,
    source: Node)

  /** `gbdToReference`: a fresh context for a `biblStruct` element. */
  function GbdToReference(e: Node): (c: Ctx)
    requires e.Element?
    ensures c.reference == Reference(GbdToAnalytic(e), GbdToMonograph(e)) && c.source == e
    ensures c.refNumber == -1 && c.title == "" && c.authors == [] && c.warnings == []
    ensures c.isValid && c.matchingNotes.None?
  {
    Ctx(Reference(GbdToAnalytic(e), GbdToMonograph(e)), -1, "", [], [], true, None, e)
  }

  /** The error report of a failed parse: the parser's lines, a heading and
      the first 100 characters of the input after ' >'. */
  function ParseFailureReport(errors: seq<string>, xml: string): (r: seq<string>)
    ensures |r| == |errors| + 2 && r[..|errors|] == errors
    ensures r[|errors|] == "Grobid returned XML (first 100 chars)"
    ensures |r[|errors| + 1]| == 2 + Min(100, |xml|) && r[|errors| + 1][..2] == " >"
    ensures xml == r[|errors| + 1][2..] + xml[Min(100, |xml|)..]
  {
    var excerpt := xml[..Min(100, |xml|)];
    assert xml == excerpt + xml[Min(100, |xml|)..];
    errors + ["Grobid returned XML (first 100 chars)", " >" + excerpt]
  }

  /** `rootElem = biblio.elements[0]`, `undefined` for an empty document. */
  function FirstElement(doc: Root): Target {
    if |doc.elements| > 0 then At(doc.elements[0]) else Undefined
  }

  /** The `biblStruct` elements below the document's first element, in
      document order; none when the document has no element first. */
  function BiblStructs(doc: Root): (bs: seq<Node>)
    ensures forall b :: b in bs ==> b.Element? && b.name == "biblStruct"
    ensures |doc.elements| > 0 && doc.elements[0].Element? ==>
      bs == Matching(PreOrder(doc.elements[0]), NameIs("biblStruct"), None)
    ensures !(|doc.elements| > 0 && doc.elements[0].Element?) ==> bs == []
  {
    if |doc.elements| > 0 && doc.elements[0].Element? then
      FindElementsInPreOrder(FirstElement(doc), NameIs("biblStruct"), None);
      FindElements(FirstElement(doc), NameIs("biblStruct"), None)
    else []
  }

  /** `gbdXmlToReferences`, from the converted document on: one fresh
      context per `biblStruct`, in order, or the error report. */
  function GbdXmlToReferences(xml: string, converted: Json): (r: Either<seq<string>, seq<Ctx>>)
    ensures r.Left? <==> !IsRootJ(converted)
    ensures ParseJSDocument(converted).Left? ==>
      r == Left(ParseFailureReport(ParseJSDocument(converted).left, xml)) && |r.left| >= 3
    ensures ParseJSDocument(converted).Right? ==>
      var bs := BiblStructs(ParseJSDocument(converted).right);
      r.Right? && |r.right| == |bs|
      && forall i :: 0 <= i < |bs| ==> r.right[i] == GbdToReference(bs[i])
  {
    ParseJSDocumentAccepts(converted);
    var doc := ParseJSDocument(converted);
    if doc.Left? then Left(ParseFailureReport(doc.left, xml))
    else
      var bs := BiblStructs(doc.right);
      Right(seq(|bs|, i requires 0 <= i < |bs| => GbdToReference(bs[i])))
  }

  /** `runOpenReviewQueries` on one context, the title search being given as
      a function from the search term to its hits. */
  function QueryOne(c: Ctx, search: string -> seq<SearchHit>): (r: Ctx)
    ensures r.reference == c.reference && r.refNumber == c.refNumber && r.title == c.title
    ensures r.authors == c.authors && r.isValid == c.isValid && r.source == c.source
    ensures !Truthy(GetReferenceTitle(c.reference)) ==>
      r.warnings == c.warnings + ["Error querying Openreview: No title"] && r.matchingNotes == c.matchingNotes
    ensures Truthy(GetReferenceTitle(c.reference)) ==>
      r.warnings == c.warnings
      && r.matchingNotes == Some(NotesOf(search(QuotedTitle(GetReferenceTitle(c.reference).value)),
                                         GetReferenceAuthors(c.reference)))
  {
    var title := GetReferenceTitle(c.reference);
    if !Truthy(title) then c.(warnings := c.warnings + ["Error querying Openreview: No title"])
    else
      var hits := search(QuotedTitle(title.value));
      c.(matchingNotes := Some(NotesOf(hits, GetReferenceAuthors(c.reference))))
  }

  /** After the search, note `i` of a titled reference carries one author
      record per position of the longer of its hit's `authors` and
      `authorids`, the reference's `j`-th author scored against the hit's
      `j`-th name, and 0 where the reference has no `j`-th author. */
  lemma QueriedNoteAuthors(c: Ctx, search: string -> seq<SearchHit>, i: nat, j: nat)
    requires Truthy(GetReferenceTitle(c.reference))
    requires i < |search(QuotedTitle(GetReferenceTitle(c.reference).value))|
    ensures var hit := search(QuotedTitle(GetReferenceTitle(c.reference).value))[i];
      var grobid := GetReferenceAuthors(c.reference);
      var note := QueryOne(c, search).matchingNotes.value[i];
      note.id == hit.id && note.title == hit.title
      && |note.authors| == Max(|hit.authors|, |hit.authorids|)
      && (j < |note.authors| ==>
            note.authors[j].name == (if j < |hit.authors| then hit.authors[j] else "")
            && note.authors[j].id == (if j < |hit.authorids| then hit.authorids[j] else "")
            && note.authors[j].nameMatch ==
                 (if j < |grobid| then AuthorDiff(FormatPerson(grobid[j]), note.authors[j].name) else Pct(0)))
  {
  }

  // ---------------------------------------------------------------------
  // summarizeReferences, one context at a time
  // ---------------------------------------------------------------------

  /** Every note's `titleMatch` set to its title's score against `title`. */
  function ScoreNotes(notes: seq<Note>, title: string): (r: seq<Note>)
    ensures |r| == |notes|
    ensures forall i :: 0 <= i < |notes| ==>
      r[i] == notes[i].(titleMatch := Some(TitleDiff(notes[i].title, title)))
  {
    seq(|notes|, i requires 0 <= i < |notes| => notes[i].(titleMatch := Some(TitleDiff(notes[i].title, title))))
  }

  /** The author step: the formatted names are appended, or the warning
      'Grobid: no authors found' is. */
  function AddAuthors(c: Ctx): Ctx {
    var persons := GetReferenceAuthors(c.reference);
    if |persons| > 0 then c.(authors := c.authors + seq(|persons|, i requires 0 <= i < |persons| => FormatPerson(persons[i])))
    else c.(warnings := c.warnings + ["Grobid: no authors found"])
  }

  /** The warning the author step adds when the reference has no authors. */
  function NoAuthorsWarning(c: Ctx): seq<string> {
    if |GetReferenceAuthors(c.reference)| == 0 then ["Grobid: no authors found"] else []
  }

  /** A titled context with no candidate notes leaves before the author step. */
  predicate StopsEarly(c: Ctx) {
    Truthy(GetReferenceTitle(c.reference)) && (c.matchingNotes.None? || |c.matchingNotes.value| == 0)
  }

  /** The body of the `forEach` in `summarizeReferences` for context
      number `refNum`; `SummarizeOneEffect` states what it does. */
  function SummarizeOne(c: Ctx, refNum: int): (r: Ctx)
    ensures r.refNumber == refNum && r.reference == c.reference && r.source == c.source
    ensures r.matchingNotes.None? <==> c.matchingNotes.None?
  {
    var title := GetReferenceTitle(c.reference);
    var numbered := c.(refNumber := refNum);
    if Truthy(title) then
      var titled := numbered.(title := title.value);
      if titled.matchingNotes.None? || |titled.matchingNotes.value| == 0 then titled
      else AddAuthors(titled.(matchingNotes := Some(ScoreNotes(titled.matchingNotes.value, title.value))))
    else
      AddAuthors(numbered.(title := "", warnings := numbered.warnings + ["Grobid: no title found"], isValid := false))
  }

  /** The summary numbers the context; an untitled one loses its validity
      and gets the warning 'Grobid: no title found'; a titled one takes the
      reference's title and has its candidates scored, unless it has none,
      in which case it stops before the author step; the author step
      appends the formatted names or the warning 'Grobid: no authors found'. */
  lemma SummarizeOneEffect(c: Ctx, refNum: int)
    ensures var r := SummarizeOne(c, refNum);
      Truthy(GetReferenceTitle(c.reference)) ==>
        r.title == GetReferenceTitle(c.reference).value && r.isValid == c.isValid
    ensures var r := SummarizeOne(c, refNum);
      !Truthy(GetReferenceTitle(c.reference)) ==>
        r.title == "" && !r.isValid && r.matchingNotes == c.matchingNotes
        && r.warnings == c.warnings + ["Grobid: no title found"] + NoAuthorsWarning(c)
    ensures var r := SummarizeOne(c, refNum);
      Truthy(GetReferenceTitle(c.reference)) && !StopsEarly(c) ==>
        r.warnings == c.warnings + NoAuthorsWarning(c)
        && r.matchingNotes == Some(ScoreNotes(c.matchingNotes.value, GetReferenceTitle(c.reference).value))
    ensures var r := SummarizeOne(c, refNum);
      StopsEarly(c) ==> r.authors == c.authors && r.warnings == c.warnings && r.matchingNotes == c.matchingNotes
    ensures var r := SummarizeOne(c, refNum);
      !StopsEarly(c) ==>
        var persons := GetReferenceAuthors(c.reference);
        |r.authors| == |c.authors| + |persons| && r.authors[..|c.authors|] == c.authors
        && forall i :: 0 <= i < |persons| ==> r.authors[|c.authors| + i] == FormatPerson(persons[i])
    ensures var r := SummarizeOne(c, refNum);
      r.matchingNotes.Some? ==> |r.matchingNotes.value| == |c.matchingNotes.value|
    ensures var r := SummarizeOne(c, refNum);
      Truthy(GetReferenceTitle(c.reference)) && r.matchingNotes.Some? ==>
        forall n :: n in r.matchingNotes.value ==> n.titleMatch.Some?
  {
  }

  datatype Stats = Stats(referenceCount: int, withTitles: int, withAuthors: int, withMatchingNotes: int)

  function Count(b: bool): int { if b then 1 else 0 }

  /** How one context changes the counters `withTitles`, `withAuthors` and
      `withMatchingNotes`. */
  function TitledCount(c: Ctx): int { Count(Truthy(GetReferenceTitle(c.reference))) }

  function MatchedCount(c: Ctx): int {
    Count(Truthy(GetReferenceTitle(c.reference)) && !StopsEarly(c))
  }

  function AuthoredCount(c: Ctx): int {
    Count(!StopsEarly(c) && |GetReferenceAuthors(c.reference)| > 0)
  }

  /** The counters after the first `|cs|` contexts. */
  function Tally(cs: seq<Ctx>): (t: Stats)
    ensures t.referenceCount == |cs|
    decreases |cs|
  {
    if cs == [] then Stats(0, 0, 0, 0)
    else
      var t := Tally(cs[..|cs| - 1]);
      var c := cs[|cs| - 1];
      Stats(t.referenceCount + 1, t.withTitles + TitledCount(c),
            t.withAuthors + AuthoredCount(c), t.withMatchingNotes + MatchedCount(c))
  }

  function Plus(s: Stats, t: Stats): Stats {
    Stats(s.referenceCount + t.referenceCount, s.withTitles + t.withTitles,
          s.withAuthors + t.withAuthors, s.withMatchingNotes + t.withMatchingNotes)
  }

  /** Each counter is a sum over the contexts: the counts of two runs of
      contexts add up. */
  lemma {:induction false} TallyAppend(a: seq<Ctx>, b: seq<Ctx>)
    ensures Tally(a + b) == Plus(Tally(a), Tally(b))
    decreases |b|
  {
    if b == [] {
      assert a + b == a;
    } else {
      var init, last := b[..|b| - 1], b[|b| - 1];
      TallyAppend(a, init);
      assert b == init + [last];
      ConcatAssoc(a, init, [last]);
      TallySnoc(a + init, last);
      TallySnoc(init, last);
    }
  }

  lemma TallySnoc(cs: seq<Ctx>, c: Ctx)
    ensures Tally(cs + [c]) == Plus(Tally(cs), Stats(1, TitledCount(c), AuthoredCount(c), MatchedCount(c)))
  {
    assert (cs + [c])[..|cs|] == cs;
  }

  /** The same step with the reference count held fixed, as
      `summarizeReferences` keeps it: it sets the count before the loop. */
  lemma TallyCountedSnoc(cs: seq<Ctx>, c: Ctx, n: nat)
    ensures var s := Tally(cs).(referenceCount := n);
            Tally(cs + [c]).(referenceCount := n)
            == s.(withTitles := s.withTitles + TitledCount(c),
                  withAuthors := s.withAuthors + AuthoredCount(c),
                  withMatchingNotes := s.withMatchingNotes + MatchedCount(c))
  {
    TallySnoc(cs, c);
  }

  /** The counters are ordered: a context with notes has a title, and no
      counter exceeds the number of references. */
  lemma {:induction false} TallyBounds(cs: seq<Ctx>)
    ensures Tally(cs).referenceCount == |cs|
    ensures 0 <= Tally(cs).withMatchingNotes <= Tally(cs).withTitles <= Tally(cs).referenceCount
    ensures 0 <= Tally(cs).withAuthors <= Tally(cs).referenceCount
    decreases |cs|
  {
    if cs != [] {
      TallyBounds(cs[..|cs| - 1]);
    }
  }

  // ---------------------------------------------------------------------
  // createJsonFormatOutput
  // ---------------------------------------------------------------------

  datatype ContentFlags = ContentFlags(withMatched: bool, withUnmatched: bool, withPartialMatched: bool, withSource: bool)

  /** `includeAll`: all three selections made, or none. */
  predicate IncludeAll(f: ContentFlags)
    ensures IncludeAll(f) <==> f.withMatched == f.withPartialMatched == f.withUnmatched
  {
    (f.withMatched && f.withPartialMatched && f.withUnmatched)
    || !(f.withMatched || f.withPartialMatched || f.withUnmatched)
  }

  predicate IncludeMatched(f: ContentFlags)
    ensures IncludeMatched(f) <==> f.withMatched || (!f.withPartialMatched && !f.withUnmatched)
  {
    IncludeAll(f) || f.withMatched
  }

  predicate IncludePartialMatched(f: ContentFlags)
    ensures IncludePartialMatched(f) <==> f.withPartialMatched || (!f.withMatched && !f.withUnmatched)
  {
    IncludeAll(f) || f.withPartialMatched
  }

  predicate IncludeUnmatched(f: ContentFlags)
    ensures IncludeUnmatched(f) <==> f.withUnmatched || (!f.withMatched && !f.withPartialMatched)
  {
    IncludeAll(f) || f.withUnmatched
  }

  /** An emitted candidate: `title` only when the title match is below 100. */
  datatype MatchRec = MatchRec(id: string, authors: seq<Author>, titleMatch: int, title: Option<string>)

  datatype RefRecord =
    | InvalidRecord(isValid: bool, warnings: seq<string>)
    | ResultRecord(refNumber: int, title: string, authors: seq<string>, isValid: bool,
                   warnings: seq<string>, openreviewMatches: seq<MatchRec>)

  datatype Summary = Summary(references: int, withTitles: int, withNoteMatches: int)

  datatype JsonOutput = JsonOutput(summary: Summary, references: seq<RefRecord>)

  /** `note.titleMatch >= 95`; false for a missing or NaN score. */
  predicate Qualifies(n: Note) {
    n.titleMatch.Some? && AtLeast(n.titleMatch.value, 95)
  }

  /** The record of a qualifying note. */
  function RecOf(n: Note): MatchRec
    requires Qualifies(n)
  {
    var tm := n.titleMatch.value.v;
    MatchRec(n.id, n.authors, tm, if tm < 100 then Some(n.title) else None)
  }

  /** The notes scoring at least 95, each as its record. */
  function MatchRecs(notes: seq<Note>): (ms: seq<MatchRec>)
    ensures |ms| <= |notes|
    ensures forall m :: m in ms ==> 95 <= m.titleMatch
    ensures forall m :: m in ms ==> (m.title.Some? <==> m.titleMatch < 100)
    ensures (forall n :: n in notes ==> Qualifies(n)) ==> |ms| == |notes|
  {
    if notes == [] then []
    else
      var n := notes[0];
      var rest := MatchRecs(notes[1..]);
      if Qualifies(n) then
        [RecOf(n)] + rest
      else
        assert notes[0] in notes;
        rest
  }

  /** Every note scoring at least 95 gives its record. */
  lemma {:induction false} MatchRecsComplete(notes: seq<Note>)
    ensures forall i :: 0 <= i < |notes| && Qualifies(notes[i]) ==> RecOf(notes[i]) in MatchRecs(notes)
  {
    if notes != [] {
      var tail := notes[1..];
      MatchRecsComplete(tail);
      forall i | 1 <= i < |notes| ensures notes[i] == tail[i - 1] { }
    }
  }

  /** Each record comes from a qualifying note with the same id, authors
      and score. */
  lemma {:induction false} MatchRecsSound(notes: seq<Note>)
    ensures forall m :: m in MatchRecs(notes) ==>
      exists i :: 0 <= i < |notes| && Qualifies(notes[i]) && m == RecOf(notes[i])
  {
    if notes != [] {
      var tail := notes[1..];
      MatchRecsSound(tail);
      forall m | m in MatchRecs(notes)
        ensures exists i :: 0 <= i < |notes| && Qualifies(notes[i]) && m == RecOf(notes[i])
      {
        if m !in MatchRecs(tail) {
          assert Qualifies(notes[0]) && m == RecOf(notes[0]);
        } else {
          var j :| 0 <= j < |tail| && Qualifies(tail[j]) && m == RecOf(tail[j]);
          assert tail[j] == notes[j + 1];
        }
      }
    }
  }

  /** The records of consecutive note lists follow each other: the
      qualifying notes keep their order. */
  lemma {:induction false} MatchRecsAppend(a: seq<Note>, b: seq<Note>)
    ensures MatchRecs(a + b) == MatchRecs(a) + MatchRecs(b)
  {
    if a == [] {
      assert a + b == b;
    } else {
      MatchRecsAppend(a[1..], b);
      MatchRecsAppendStep(a[0], a[1..], b);
      assert a == [a[0]] + a[1..];
    }
  }

  lemma MatchRecsAppendStep(n: Note, rest: seq<Note>, b: seq<Note>)
    requires MatchRecs(rest + b) == MatchRecs(rest) + MatchRecs(b)
    ensures MatchRecs([n] + rest + b) == MatchRecs([n] + rest) + MatchRecs(b)
  {
    ConcatAssoc([n], rest, b);
    MatchRecsCons(n, rest + b);
    MatchRecsCons(n, rest);
    ConcatAssoc(if Qualifies(n) then [RecOf(n)] else [], MatchRecs(rest), MatchRecs(b));
  }

  lemma ConcatAssoc<T>(x: seq<T>, y: seq<T>, z: seq<T>)
    ensures x + y + z == x + (y + z)
  {
  }

  lemma MatchRecsCons(n: Note, rest: seq<Note>)
    ensures MatchRecs([n] + rest) == (if Qualifies(n) then [RecOf(n)] else []) + MatchRecs(rest)
  {
    assert ([n] + rest)[1..] == rest;
  }

  /** `isPartialMatch`: some emitted candidate has a title match below 100
      or an author whose name match is below 100. */
  predicate IsPartial(ms: seq<MatchRec>) {
    exists m :: m in ms && PartialRec(m)
  }

  predicate PartialRec(m: MatchRec) {
    m.titleMatch < 100 || exists a :: a in m.authors && Below(a.nameMatch, 100)
  }

  /** A reference is a partial match exactly when one of its notes scoring
      at least 95 has a title score below 100 or an author whose name score
      is below 100. */
  lemma PartialMatchOfNotes(notes: seq<Note>)
    ensures IsPartial(MatchRecs(notes)) <==>
      exists i :: 0 <= i < |notes| && Qualifies(notes[i])
        && (Below(notes[i].titleMatch.value, 100) || exists a :: a in notes[i].authors && Below(a.nameMatch, 100))
  {
    MatchRecsSound(notes);
    MatchRecsComplete(notes);
    if IsPartial(MatchRecs(notes)) {
      var m :| m in MatchRecs(notes) && PartialRec(m);
      var i :| 0 <= i < |notes| && Qualifies(notes[i]) && m == RecOf(notes[i]);
      assert m.authors == notes[i].authors;
    }
    if exists i :: 0 <= i < |notes| && Qualifies(notes[i])
        && (Below(notes[i].titleMatch.value, 100) || exists a :: a in notes[i].authors && Below(a.nameMatch, 100)) {
      var i :| 0 <= i < |notes| && Qualifies(notes[i])
        && (Below(notes[i].titleMatch.value, 100) || exists a :: a in notes[i].authors && Below(a.nameMatch, 100));
      assert RecOf(notes[i]) in MatchRecs(notes) && PartialRec(RecOf(notes[i]));
    }
  }

  /** What the `map` callback does with one context: emit a record, emit
      nothing (`undefined`), or throw at line 348. */
  datatype Outcome = Emit(rec: RefRecord) | Skip | Crash

  /** The record is kept when everything is selected, when it has matches
      and matched ones are selected, when it is partial and partial ones are
      selected, or when it has no matches and unmatched ones are selected. */
  function Select(rec: RefRecord, ms: seq<MatchRec>, f: ContentFlags): (o: Outcome)
    ensures o == Emit(rec) || o == Skip
    ensures o.Emit? <==>
      IncludeAll(f) || (|ms| > 0 && f.withMatched) || (IsPartial(ms) && f.withPartialMatched)
      || (|ms| == 0 && f.withUnmatched)
  {
    var haveMatches := |ms| > 0;
    if IncludeAll(f) || (haveMatches && IncludeMatched(f)) || (IsPartial(ms) && IncludePartialMatched(f))
       || (!haveMatches && IncludeUnmatched(f))
    then Emit(rec) else Skip
  }

  /** One context's outcome, as written: an invalid context is reported
      briefly when unmatched references are wanted; otherwise a context whose
      title matching never ran has no `openreviewMatches` and throws. */
  function RecordFor(c: Ctx, f: ContentFlags): (o: Outcome)
    ensures o.Crash? <==> (c.isValid || !IncludeUnmatched(f)) && c.matchingNotes.None?
    ensures !c.isValid && IncludeUnmatched(f) ==> o == Emit(InvalidRecord(false, c.warnings))
    ensures o.Emit? && o.rec.ResultRecord? ==>
      c.matchingNotes.Some? && o.rec.openreviewMatches == MatchRecs(c.matchingNotes.value)
    ensures IncludeAll(f) ==> !o.Skip?
  {
    if !c.isValid && IncludeUnmatched(f) then Emit(InvalidRecord(c.isValid, c.warnings))
    else if c.matchingNotes.None? then Crash
    else
      var ms := MatchRecs(c.matchingNotes.value);
      Select(ResultRecord(c.refNumber, c.title, c.authors, c.isValid, c.warnings, ms), ms, f)
  }

  /** Which contexts are reported: with matches when matched ones are
      wanted, partial ones when those are, unmatched ones when those are,
      and all of them when the selection is all or nothing. */
  lemma SelectionRule(c: Ctx, f: ContentFlags)
    requires c.isValid && c.matchingNotes.Some?
    ensures var ms := MatchRecs(c.matchingNotes.value);
      RecordFor(c, f).Emit? <==>
        IncludeAll(f) || (|ms| > 0 && f.withMatched) || (IsPartial(ms) && f.withPartialMatched)
        || (|ms| == 0 && f.withUnmatched)
  {
  }

  /** The outcome of each context, in order. */
  function Outcomes(cs: seq<Ctx>, f: ContentFlags): (os: seq<Outcome>)
    ensures |os| == |cs|
    ensures forall i :: 0 <= i < |cs| ==> os[i] == RecordFor(cs[i], f)
  {
    if cs == [] then []
    else
      assert forall i :: 1 <= i < |cs| ==> cs[i] == cs[1..][i - 1];
      [RecordFor(cs[0], f)] + Outcomes(cs[1..], f)
  }

  /** The records of the emitted outcomes, in order (`_.filter` of the
      defined results). */
  function Emitted(os: seq<Outcome>): (rs: seq<RefRecord>)
    ensures |rs| <= |os|
    ensures forall i :: 0 <= i < |os| && os[i].Emit? ==> os[i].rec in rs
  {
    if os == [] then []
    else
      assert forall i :: 1 <= i < |os| ==> os[i] == os[1..][i - 1];
      (if os[0].Emit? then [os[0].rec] else []) + Emitted(os[1..])
  }

  /** The outputs of every context in order, stopping at the first throw. */
  function Records(cs: seq<Ctx>, f: ContentFlags): Either<nat, seq<RefRecord>> {
    if cs == [] then Right([])
    else
      var o := RecordFor(cs[0], f);
      if o.Crash? then Left(0)
      else
        var rest := Records(cs[1..], f);
        if rest.Left? then Left(rest.left + 1)
        else Right((if o.Emit? then [o.rec] else []) + rest.right)
  }

  /** `Records` throws at the first context whose callback throws, and
      otherwise gives the records of the emitted outcomes in order. */
  lemma {:induction false} RecordsMeaning(cs: seq<Ctx>, f: ContentFlags)
    ensures var r := Records(cs, f);
      r.Left? ==>
        (r.left < |cs| && RecordFor(cs[r.left], f).Crash?
         && forall i :: 0 <= i < r.left ==> !RecordFor(cs[i], f).Crash?)
    ensures var r := Records(cs, f);
      r.Right? ==> forall i :: 0 <= i < |cs| ==> !RecordFor(cs[i], f).Crash?
    ensures var r := Records(cs, f);
      r.Right? ==> r.right == Emitted(Outcomes(cs, f))
  {
    if cs != [] {
      RecordsMeaning(cs[1..], f);
      assert forall i :: 1 <= i < |cs| ==> cs[i] == cs[1..][i - 1];
    }
  }

  /** `createJsonFormatOutput`: the summary and the selected records, or the
      index of the context at which it throws. */
  function CreateJsonFormatOutput(stats: Stats, cs: seq<Ctx>, f: ContentFlags): (r: Either<nat, JsonOutput>)
    ensures r.Left? <==> exists i :: 0 <= i < |cs| && RecordFor(cs[i], f).Crash?
    ensures r.Left? ==>
      (r.left < |cs| && RecordFor(cs[r.left], f).Crash?
       && forall i :: 0 <= i < r.left ==> !RecordFor(cs[i], f).Crash?)
    ensures r.Right? ==> r.right.summary == Summary(stats.referenceCount, stats.withTitles, stats.withMatchingNotes)
    ensures r.Right? ==> r.right.references == Emitted(Outcomes(cs, f))
  {
    RecordsMeaning(cs, f);
    var recs := Records(cs, f);
    if recs.Left? then Left(recs.left)
    else Right(JsonOutput(Summary(stats.referenceCount, stats.withTitles, stats.withMatchingNotes), recs.right))
  }

  /** When the three selection flags agree, every context gives exactly one
      record, unless the output throws. */
  lemma {:induction false} EqualFlagsEmitEveryContext(cs: seq<Ctx>, f: ContentFlags)
    requires f.withMatched == f.withPartialMatched == f.withUnmatched
    requires Records(cs, f).Right?
    ensures |Records(cs, f).right| == |cs|
  {
    if cs != [] {
      EqualFlagsEmitEveryContext(cs[1..], f);
    }
  }

  // ---------------------------------------------------------------------
  // The pipeline: queries, then the summary, then the output
  // ---------------------------------------------------------------------

  /** A fresh context after the title search and the summary. */
  function Processed(c: Ctx, refNum: int, search: string -> seq<SearchHit>): Ctx {
    SummarizeOne(QueryOne(c, search), refNum)
  }

  /** After the search and the summary, a fresh context is invalid exactly
      when it has no title, and a valid one always has its candidates; so the
      output throws exactly on an untitled reference when unmatched
      references are not selected. */
  lemma PipelineThrowsOnlyOnUntitled(c: Ctx, refNum: int, search: string -> seq<SearchHit>, f: ContentFlags)
    requires c.isValid && c.matchingNotes.None?
    ensures Processed(c, refNum, search).isValid <==> Truthy(GetReferenceTitle(c.reference))
    ensures RecordFor(Processed(c, refNum, search), f).Crash? <==>
      !Truthy(GetReferenceTitle(c.reference)) && !IncludeUnmatched(f)
  {
  }

  /** Every titled reference's candidates carry a title score after the
      summary, so the 95 threshold is applied to real scores. */
  lemma PipelineScoresEveryCandidate(c: Ctx, refNum: int, search: string -> seq<SearchHit>)
    requires Truthy(GetReferenceTitle(c.reference))
    ensures var p := Processed(c, refNum, search);
      p.matchingNotes.Some? && forall n :: n in p.matchingNotes.value ==> n.titleMatch.Some?
  {
  }

  // ---------------------------------------------------------------------
  // The output when title matching did not run
  // ---------------------------------------------------------------------

  /** A reference element with neither title nor authors. */
  const EmptyBiblStruct: Node := Element("biblStruct", None, Present([]))

  /** As written, asking only for matched references makes the output throw
      on an untitled reference: the search skipped it, so it has no
      candidate list, and line 348 reads the length of the missing list. */
  lemma UntitledReferenceThrows(search: string -> seq<SearchHit>)
    ensures var c := Processed(GbdToReference(EmptyBiblStruct), 0, search);
      RecordFor(c, ContentFlags(true, false, false, false)).Crash?
      && CreateJsonFormatOutput(Tally([GbdToReference(EmptyBiblStruct)]), [c], ContentFlags(true, false, false, false)).Left?
  {
    var c0 := GbdToReference(EmptyBiblStruct);
    assert FindElements(At(EmptyBiblStruct), NameIs("analytic"), None) == [];
    assert FindElements(At(EmptyBiblStruct), NameIs("monogr"), None) == [];
    var c := Processed(c0, 0, search);
    assert RecordFor([c][0], ContentFlags(true, false, false, false)).Crash?;
  }

  /** One context's outcome as intended: a context whose title matching did
      not run is reported with the warning line 323 adds and no candidates. */
  function RecordForFixed(c: Ctx, f: ContentFlags): (o: Outcome)
    ensures !o.Crash?
    ensures !RecordFor(c, f).Crash? ==> o == RecordFor(c, f)
    ensures RecordFor(c, f).Crash? && o.Emit? ==>
      o.rec == ResultRecord(c.refNumber, c.title, c.authors, c.isValid,
                            c.warnings + ["OpenReview title matching was not run"], [])
    ensures RecordFor(c, f).Crash? ==> (o.Emit? <==> IncludeUnmatched(f))
  {
    if !c.isValid && IncludeUnmatched(f) then Emit(InvalidRecord(c.isValid, c.warnings))
    else if c.matchingNotes.None? then
      Select(ResultRecord(c.refNumber, c.title, c.authors, c.isValid,
                          c.warnings + ["OpenReview title matching was not run"], []), [], f)
    else
      var ms := MatchRecs(c.matchingNotes.value);
      Select(ResultRecord(c.refNumber, c.title, c.authors, c.isValid, c.warnings, ms), ms, f)
  }

  function RecordsFixed(cs: seq<Ctx>, f: ContentFlags): (rs: seq<RefRecord>)
    ensures |rs| <= |cs|
    ensures IncludeAll(f) ==> |rs| == |cs|
  {
    if cs == [] then []
    else
      var o := RecordForFixed(cs[0], f);
      (if o.Emit? then [o.rec] else []) + RecordsFixed(cs[1..], f)
  }

  /** `createJsonFormatOutput` as intended: it always produces the report. */
  function CreateJsonFormatOutputFixed(stats: Stats, cs: seq<Ctx>, f: ContentFlags): (r: JsonOutput)
    ensures r.summary == Summary(stats.referenceCount, stats.withTitles, stats.withMatchingNotes)
    ensures IncludeAll(f) ==> |r.references| == |cs|
  {
    JsonOutput(Summary(stats.referenceCount, stats.withTitles, stats.withMatchingNotes), RecordsFixed(cs, f))
  }

  /** Wherever the code as written produces a report, the corrected version
      produces the same one. */
  lemma {:induction false} RecordsFixedAgree(cs: seq<Ctx>, f: ContentFlags)
    requires Records(cs, f).Right?
    ensures RecordsFixed(cs, f) == Records(cs, f).right
  {
    if cs != [] {
      RecordsFixedAgree(cs[1..], f);
    }
  }

  lemma CreateJsonFormatOutputFixedAgrees(stats: Stats, cs: seq<Ctx>, f: ContentFlags)
    requires CreateJsonFormatOutput(stats, cs, f).Right?
    ensures CreateJsonFormatOutputFixed(stats, cs, f) == CreateJsonFormatOutput(stats, cs, f).right
  {
    RecordsFixedAgree(cs, f);
  }

  /** With the correction, the untitled reference of the example is left out
      of a matched-only report instead of stopping it. */
  lemma UntitledReferenceSkipped(search: string -> seq<SearchHit>)
    ensures var c := Processed(GbdToReference(EmptyBiblStruct), 0, search);
      RecordForFixed(c, ContentFlags(true, false, false, false)) == Skip
  {
    assert FindElements(At(EmptyBiblStruct), NameIs("analytic"), None) == [];
    assert FindElements(At(EmptyBiblStruct), NameIs("monogr"), None) == [];
  }
}

/** The reference contexts as the pipeline holds them: objects that the title
    search, the summary and the report update in place.  Each method is
    proved against the value-level definitions of module `GrobidEtl`. */
module GrobidContexts {
  import opened Wrappers
  import opened JsValue
  import opened JsXmlElems
  import opened GrobidRefs
  import E = GrobidEtl
  import Leven

  /** `ReferenceContext`. Candidate notes are values held by their context:
      the summary writes their `titleMatch` by replacing the list. */
  class RefContext {
    var reference: Reference
    var refNumber: int
    var title: string
    var authors: seq<string>
    var warnings: seq<string>
    var isValid: bool
    var matchingNotes: Option<seq<E.Note>>
    var source: Node

    /** The current field values. */
    function Snapshot(): E.Ctx
      reads this
    {
      E.Ctx(reference, refNumber, title, authors, warnings, isValid, matchingNotes, source)
    }

    constructor (c: E.Ctx)
      ensures Snapshot() == c
    {
      reference := c.reference;
      refNumber := c.refNumber;
      title := c.title;
      authors := c.authors;
      warnings := c.warnings;
      isValid := c.isValid;
      matchingNotes := c.matchingNotes;
      source := c.source;
    }
  }

  function Snapshots(cs: seq<RefContext>): (r: seq<E.Ctx>)
    reads cs
    ensures |r| == |cs|
    ensures forall i {:trigger r[i]} :: 0 <= i < |cs| ==> r[i] == cs[i].Snapshot()
  {
    if cs == [] then [] else [cs[0].Snapshot()] + Snapshots(cs[1..])
  }

  predicate Distinct(cs: seq<RefContext>) {
    forall i, j :: 0 <= i < j < |cs| ==> cs[i] != cs[j]
  }

  /** `gbdXmlToReferences` from the converted document on: the error report,
      or one new context per `biblStruct`. */
  method GbdXmlToReferences(xml: string, converted: Json) returns (r: Either<seq<string>, seq<RefContext>>)
    ensures r.Left? <==> E.GbdXmlToReferences(xml, converted).Left?
    ensures r.Left? ==> r.left == E.GbdXmlToReferences(xml, converted).left
    ensures r.Right? ==>
      Snapshots(r.right) == E.GbdXmlToReferences(xml, converted).right
      && Distinct(r.right) && forall c :: c in r.right ==> fresh(c)
  {
    var docOrErr := ParseJSDocument(converted);
    if docOrErr.Left? {
      var errors := docOrErr.left;
      errors := errors + ["Grobid returned XML (first 100 chars)"];
      errors := errors + [" >" + xml[..Leven.Min(100, |xml|)]];
      return Left(errors);
    }
    var rawRefs := E.BiblStructs(docOrErr.right);
    var values := seq(|rawRefs|, i requires 0 <= i < |rawRefs| => E.GbdToReference(rawRefs[i]));
    var refs := NewContexts(values);
    assert Snapshots(refs) == E.GbdXmlToReferences(xml, converted).right;
    r := Right(refs);
  }

  /** The `flatMap` over the `biblStruct` elements: one new context for each
      converted reference, since `gbdToReference` never fails. */
  method NewContexts(values: seq<E.Ctx>) returns (refs: seq<RefContext>)
    ensures |refs| == |values| && Distinct(refs)
    ensures forall j :: 0 <= j < |refs| ==> fresh(refs[j]) && refs[j].Snapshot() == values[j]
  {
    refs := [];
    for i := 0 to |values|
      invariant |refs| == i && Distinct(refs)
      invariant forall j :: 0 <= j < i ==> fresh(refs[j]) && refs[j].Snapshot() == values[j]
    {
      var ctx := new RefContext(values[i]);
      refs := refs + [ctx];
    }
  }

  /** `runOpenReviewQueries`, with the title search given as a function. */
  method RunOpenReviewQueries(ctxs: seq<RefContext>, search: string -> seq<E.SearchHit>)
    requires Distinct(ctxs)
    modifies ctxs
    ensures forall i :: 0 <= i < |ctxs| ==> ctxs[i].Snapshot() == E.QueryOne(old(ctxs[i].Snapshot()), search)
  {
    for k := 0 to |ctxs|
      invariant forall i :: 0 <= i < k ==> ctxs[i].Snapshot() == E.QueryOne(old(ctxs[i].Snapshot()), search)
      invariant forall i :: k <= i < |ctxs| ==> ctxs[i].Snapshot() == old(ctxs[i].Snapshot())
    {
      var ctx := ctxs[k];
      var grobidTitle := GetReferenceTitle(ctx.reference);
      var grobidAuthors := GetReferenceAuthors(ctx.reference);
      if grobidTitle.None? || |grobidTitle.value| == 0 {
        ctx.warnings := ctx.warnings + ["Error querying Openreview: No title"];
      } else {
        var hits := search(E.QuotedTitle(grobidTitle.value));
        ctx.matchingNotes := Some(E.NotesOf(hits, grobidAuthors));
      }
    }
  }

  /** The inner `forEach`: each note's title scored against `title`. */
  method ScoreMatchingNotes(ctx: RefContext, title: string)
    requires ctx.matchingNotes.Some?
    modifies ctx
    ensures ctx.Snapshot() == old(ctx.Snapshot()).(matchingNotes := Some(E.ScoreNotes(old(ctx.matchingNotes.value), title)))
  {
    var notes := ctx.matchingNotes.value;
    for j := 0 to |notes|
      invariant |notes| == |old(ctx.matchingNotes.value)|
      invariant forall i :: 0 <= i < j ==> notes[i] == E.ScoreNotes(old(ctx.matchingNotes.value), title)[i]
      invariant forall i :: j <= i < |notes| ==> notes[i] == old(ctx.matchingNotes.value)[i]
    {
      notes := notes[j := notes[j].(titleMatch := Some(E.TitleDiff(notes[j].title, title)))];
    }
    assert notes == E.ScoreNotes(old(ctx.matchingNotes.value), title);
    ctx.matchingNotes := Some(notes);
  }

  /** The body of the outer `forEach`, for context number `refNum`; the
      three results say which counters it adds 1 to. */
  method SummarizeOne(ctx: RefContext, refNum: int) returns (titled: bool, matched: bool, authored: bool)
    modifies ctx
    ensures ctx.Snapshot() == E.SummarizeOne(old(ctx.Snapshot()), refNum)
    ensures E.Count(titled) == E.TitledCount(old(ctx.Snapshot()))
    ensures E.Count(matched) == E.MatchedCount(old(ctx.Snapshot()))
    ensures E.Count(authored) == E.AuthoredCount(old(ctx.Snapshot()))
  {
    titled, matched, authored := false, false, false;
    ctx.refNumber := refNum;
    var titleOrUndef := GetReferenceTitle(ctx.reference);
    if Truthy(titleOrUndef) {
      titled := true;
      ctx.title := titleOrUndef.value;
      if ctx.matchingNotes.None? || |ctx.matchingNotes.value| == 0 {
        return;
      }
      matched := true;
      ScoreMatchingNotes(ctx, titleOrUndef.value);
    } else {
      ctx.title := "";
      ctx.warnings := ctx.warnings + ["Grobid: no title found"];
      ctx.isValid := false;
    }
    var persons := GetReferenceAuthors(ctx.reference);
    if |persons| > 0 {
      authored := true;
      var authorNameList := seq(|persons|, i requires 0 <= i < |persons| => E.FormatPerson(persons[i]));
      ctx.authors := ctx.authors + authorNameList;
    } else {
      ctx.warnings := ctx.warnings + ["Grobid: no authors found"];
    }
  }

  /** `summarizeReferences`: every context numbered and summarised, and the
      counters, which are ordered. */
  method SummarizeReferences(ctxs: seq<RefContext>) returns (stats: E.Stats)
    requires Distinct(ctxs)
    modifies ctxs
    ensures forall i :: 0 <= i < |ctxs| ==> ctxs[i].Snapshot() == E.SummarizeOne(old(ctxs[i].Snapshot()), i)
    ensures stats == E.Tally(old(Snapshots(ctxs)))
    ensures stats.referenceCount == |ctxs|
    ensures 0 <= stats.withMatchingNotes <= stats.withTitles <= stats.referenceCount
    ensures 0 <= stats.withAuthors <= stats.referenceCount
  {
    ghost var before := Snapshots(ctxs);
    stats := E.Stats(|ctxs|, 0, 0, 0);
    for k := 0 to |ctxs|
      invariant forall i :: 0 <= i < k ==> ctxs[i].Snapshot() == E.SummarizeOne(before[i], i)
      invariant forall i :: k <= i < |ctxs| ==> ctxs[i].Snapshot() == before[i]
      invariant stats == E.Tally(before[..k]).(referenceCount := |ctxs|)
    {
      stats := SummarizeAt(ctxs, k, stats, before);
    }
    assert before[..|ctxs|] == before;
    E.TallyBounds(before);
  }

  /** One turn of the `forEach`: the context numbered `k` summarised and
      counted, the others left as they are. */
  method SummarizeAt(ctxs: seq<RefContext>, k: nat, stats: E.Stats, ghost before: seq<E.Ctx>) returns (next: E.Stats)
    requires Distinct(ctxs) && k < |ctxs| == |before|
    requires forall i :: 0 <= i < k ==> ctxs[i].Snapshot() == E.SummarizeOne(before[i], i)
    requires forall i :: k <= i < |ctxs| ==> ctxs[i].Snapshot() == before[i]
    requires stats == E.Tally(before[..k]).(referenceCount := |ctxs|)
    modifies ctxs[k]
    ensures forall i :: 0 <= i < k + 1 ==> ctxs[i].Snapshot() == E.SummarizeOne(before[i], i)
    ensures forall i :: k + 1 <= i < |ctxs| ==> ctxs[i].Snapshot() == before[i]
    ensures next == E.Tally(before[..k + 1]).(referenceCount := |ctxs|)
  {
    var titled, matched, authored := SummarizeOne(ctxs[k], k);
    assert before[..k + 1] == before[..k] + [before[k]];
    E.TallyCountedSnoc(before[..k], before[k], |ctxs|);
    next := stats.(withTitles := stats.withTitles + E.Count(titled),
                   withAuthors := stats.withAuthors + E.Count(authored),
                   withMatchingNotes := stats.withMatchingNotes + E.Count(matched));
  }

  /** The `filter` and `map` over the candidates, with the `isPartialMatch`
      flag the `map` callback raises. */
  method CollectMatches(notes: seq<E.Note>) returns (ms: seq<E.MatchRec>, isPartialMatch: bool)
    ensures ms == E.MatchRecs(notes)
    ensures isPartialMatch == E.IsPartial(ms)
  {
    ms, isPartialMatch := [], false;
    for j := 0 to |notes|
      invariant ms == E.MatchRecs(notes[..j])
      invariant isPartialMatch == E.IsPartial(ms)
    {
      var note := notes[j];
      MatchRecsStep(notes, j);
      if note.titleMatch.Some? && E.AtLeast(note.titleMatch.value, 95) {
        var tm := note.titleMatch.value.v;
        var partialTitleMatch := tm < 100;
        isPartialMatch := isPartialMatch || partialTitleMatch;
        var partialNameMatch := exists a :: a in note.authors && E.Below(a.nameMatch, 100);
        isPartialMatch := isPartialMatch || partialNameMatch;
        var matchRec := E.MatchRec(note.id, note.authors, tm, if tm < 100 then Some(note.title) else None);
        assert matchRec == E.RecOf(note);
        PartialSnoc(ms, matchRec);
        ms := ms + [matchRec];
      }
    }
    assert notes[..|notes|] == notes;
  }

  /** The records of one more note. */
  lemma MatchRecsStep(notes: seq<E.Note>, j: nat)
    requires j < |notes|
    ensures E.MatchRecs(notes[..j + 1])
      == if E.Qualifies(notes[j]) then E.MatchRecs(notes[..j]) + [E.RecOf(notes[j])] else E.MatchRecs(notes[..j])
  {
    assert notes[..j + 1] == notes[..j] + [notes[j]];
    E.MatchRecsAppend(notes[..j], [notes[j]]);
    E.MatchRecsCons(notes[j], []);
    assert [notes[j]] + [] == [notes[j]];
    assert E.MatchRecs(notes[..j]) + [] == E.MatchRecs(notes[..j]);
  }

  /** One more record makes the list partial exactly when it is. */
  lemma PartialSnoc(ms: seq<E.MatchRec>, m: E.MatchRec)
    ensures E.IsPartial(ms + [m]) <==> E.IsPartial(ms) || E.PartialRec(m)
  {
    assert m in ms + [m];
    forall x | x in ms ensures x in ms + [m] { }
  }

  /** The `map` callback for one context.  A context whose title matching
      did not run gets the warning, and the callback then throws. */
  method OutputFor(ctx: RefContext, flags: E.ContentFlags) returns (o: E.Outcome)
    modifies ctx
    ensures o == E.RecordFor(old(ctx.Snapshot()), flags)
    ensures o.Crash? ==>
      ctx.Snapshot() == old(ctx.Snapshot()).(warnings := old(ctx.warnings) + ["OpenReview title matching was not run"])
    ensures !o.Crash? ==> ctx.Snapshot() == old(ctx.Snapshot())
  {
    if !ctx.isValid && E.IncludeUnmatched(flags) {
      return E.Emit(E.InvalidRecord(ctx.isValid, ctx.warnings));
    }
    if ctx.matchingNotes.None? {
      ctx.warnings := ctx.warnings + ["OpenReview title matching was not run"];
      return E.Crash;
    }
    var ms, isPartialMatch := CollectMatches(ctx.matchingNotes.value);
    var resultRec := E.ResultRecord(ctx.refNumber, ctx.title, ctx.authors, ctx.isValid, ctx.warnings, ms);
    var haveMatches := |ms| > 0;
    var finalResult: Option<E.RefRecord> := if E.IncludeAll(flags) then Some(resultRec) else None;
    if haveMatches && E.IncludeMatched(flags) {
      finalResult := Some(resultRec);
    }
    if isPartialMatch && E.IncludePartialMatched(flags) {
      finalResult := Some(resultRec);
    }
    if !haveMatches && E.IncludeUnmatched(flags) {
      finalResult := Some(resultRec);
    }
    o := if finalResult.Some? then E.Emit(finalResult.value) else E.Skip;
  }

  /** The outputs of the whole list, given the records of the first `k`
      contexts and the outputs of the others. */
  function Resumed(done: seq<E.RefRecord>, rest: Either<nat, seq<E.RefRecord>>, k: nat): Either<nat, seq<E.RefRecord>> {
    if rest.Left? then Left(rest.left + k) else Right(done + rest.right)
  }

  lemma ResumeStep(cs: seq<E.Ctx>, k: nat, f: E.ContentFlags, done: seq<E.RefRecord>)
    requires k < |cs| && !E.RecordFor(cs[k], f).Crash?
    ensures var o := E.RecordFor(cs[k], f);
      Resumed(done, E.Records(cs[k..], f), k)
      == Resumed(done + (if o.Emit? then [o.rec] else []), E.Records(cs[k + 1..], f), k + 1)
  {
    assert cs[k..][1..] == cs[k + 1..];
    var o := E.RecordFor(cs[k], f);
    var emitted := if o.Emit? then [o.rec] else [];
    var rest := E.Records(cs[k + 1..], f);
    assert rest.Right? ==> done + (emitted + rest.right) == (done + emitted) + rest.right;
  }

  /** The callback on context `k`, its record appended to `references`
      when it gives one. */
  method OutputStep(ctx: RefContext, k: nat, flags: E.ContentFlags, references: seq<E.RefRecord>, ghost before: seq<E.Ctx>)
    returns (crashed: bool, next: seq<E.RefRecord>)
    requires k < |before| && ctx.Snapshot() == before[k]
    requires E.Records(before, flags) == Resumed(references, E.Records(before[k..], flags), k)
    modifies ctx
    ensures crashed <==> E.RecordFor(before[k], flags).Crash?
    ensures crashed ==>
      E.Records(before, flags) == Left(k)
      && ctx.Snapshot() == before[k].(warnings := before[k].warnings + ["OpenReview title matching was not run"])
    ensures !crashed ==>
      ctx.Snapshot() == before[k]
      && E.Records(before, flags) == Resumed(next, E.Records(before[k + 1..], flags), k + 1)
  {
    var o := OutputFor(ctx, flags);
    crashed := o.Crash?;
    next := references;
    if crashed {
      assert E.Records(before[k..], flags) == Left(0) by {
        assert before[k..][0] == before[k];
      }
      return;
    }
    if o.Emit? {
      next := references + [o.rec];
    } else {
      assert next == references + [];
    }
    ResumeStep(before, k, flags, references);
  }

  /** `createJsonFormatOutput`: the report, or the index of the context at
      which the `map` callback throws, that context having been given the
      warning. */
  method CreateJsonFormatOutput(stats: E.Stats, ctxs: seq<RefContext>, flags: E.ContentFlags)
    returns (r: Either<nat, E.JsonOutput>)
    requires Distinct(ctxs)
    modifies ctxs
    ensures r == E.CreateJsonFormatOutput(stats, old(Snapshots(ctxs)), flags)
    ensures r.Right? ==> forall i :: 0 <= i < |ctxs| ==> ctxs[i].Snapshot() == old(ctxs[i].Snapshot())
    ensures r.Left? ==>
      (ctxs[r.left].Snapshot() == old(ctxs[r.left].Snapshot()).(warnings := old(ctxs[r.left].warnings) + ["OpenReview title matching was not run"])
       && forall i :: 0 <= i < |ctxs| && i != r.left ==> ctxs[i].Snapshot() == old(ctxs[i].Snapshot()))
  {
    var biblioSummary := E.Summary(stats.referenceCount, stats.withTitles, stats.withMatchingNotes);
    var references := MapContexts(ctxs, flags);
    if references.Left? {
      return Left(references.left);
    }
    r := Right(E.JsonOutput(biblioSummary, references.right));
  }

  /** The `map` over the contexts with `_.filter` of the defined results:
      the records, or the index of the context at which the callback
      throws. */
  method MapContexts(ctxs: seq<RefContext>, flags: E.ContentFlags) returns (r: Either<nat, seq<E.RefRecord>>)
    requires Distinct(ctxs)
    modifies ctxs
    ensures r == E.Records(old(Snapshots(ctxs)), flags)
    ensures r.Right? ==> forall i :: 0 <= i < |ctxs| ==> ctxs[i].Snapshot() == old(ctxs[i].Snapshot())
    ensures r.Left? ==>
      (r.left < |ctxs|
       && ctxs[r.left].Snapshot() == old(ctxs[r.left].Snapshot()).(warnings := old(ctxs[r.left].warnings) + ["OpenReview title matching was not run"])
       && forall i :: 0 <= i < |ctxs| && i != r.left ==> ctxs[i].Snapshot() == old(ctxs[i].Snapshot()))
  {
    ghost var before := Snapshots(ctxs);
    var references: seq<E.RefRecord> := [];
    assert before[0..] == before;
    assert E.Records(before, flags) == Resumed([], E.Records(before, flags), 0) by {
      var all := E.Records(before, flags);
      assert all.Right? ==> [] + all.right == all.right;
    }
    for k := 0 to |ctxs|
      invariant forall i :: 0 <= i < |ctxs| ==> ctxs[i].Snapshot() == before[i]
      invariant E.Records(before, flags) == Resumed(references, E.Records(before[k..], flags), k)
    {
      var crashed;
      crashed, references := OutputStep(ctxs[k], k, flags, references, before);
      if crashed {
        return Left(k);
      }
    }
    assert before[|ctxs|..] == [];
    assert references + [] == references;
    r := Right(references);
  }
}

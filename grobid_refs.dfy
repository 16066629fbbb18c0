/** Conversion of Grobid's TEI `biblStruct` elements into references: the
    persons, the analytic part (the article) and the monograph part (the
    journal, book or proceedings), and which title and which author list a
    reference is known by.  Both the current normaliser and its earlier
    variant share these definitions. */
module GrobidRefs {
  import opened Wrappers
  import opened JsXmlElems

  datatype Person = Person(first: Option<string>, middle: Option<string>, last: string)

  /** `Analytic` and `Monograph` have the same shape: an optional title and
      the authors found below the part. */
  datatype Part = Part(title: Option<string>, authors: seq<Person>)

  datatype Reference = Reference(analytic: Option<Part>, monograph: Option<Part>)

  /** JavaScript truthiness of an optional string: present and non-empty. */
  predicate Truthy(s: Option<string>) {
    s.Some? && s.value != ""
  }

  function TitleOf(part: Option<Part>): Option<string> {
    if part.Some? then part.value.title else None
  }

  /** `getReferenceTitle`: `analytic?.title || monograph?.title`. */
  function GetReferenceTitle(ref: Reference): (r: Option<string>)
    ensures Truthy(TitleOf(ref.analytic)) ==> r == TitleOf(ref.analytic)
    ensures !Truthy(TitleOf(ref.analytic)) ==> r == TitleOf(ref.monograph)
    ensures Truthy(r) <==> Truthy(TitleOf(ref.analytic)) || Truthy(TitleOf(ref.monograph))
  {
    var a := TitleOf(ref.analytic);
    if Truthy(a) then a else TitleOf(ref.monograph)
  }

  /** `getReferenceAuthors`: `analytic?.authors || monograph?.authors || []`;
      an array is truthy even when empty. */
  function GetReferenceAuthors(ref: Reference): (r: seq<Person>)
    ensures ref.analytic.Some? ==> r == ref.analytic.value.authors
    ensures ref.analytic.None? && ref.monograph.Some? ==> r == ref.monograph.value.authors
    ensures ref.analytic.None? && ref.monograph.None? ==> r == []
  {
    if ref.analytic.Some? then ref.analytic.value.authors
    else if ref.monograph.Some? then ref.monograph.value.authors
    else []
  }

  /** An analytic part with an empty title does not hide the monograph's
      title, but an analytic part with no authors does hide the monograph's
      authors. */
  lemma PrecedenceAsymmetry(mono: Part)
    requires Truthy(mono.title) && |mono.authors| > 0
    ensures var ref := Reference(Some(Part(Some(""), [])), Some(mono));
      GetReferenceTitle(ref) == mono.title && GetReferenceAuthors(ref) == []
  {
  }

  // ---------------------------------------------------------------------
  // Element predicates used by the conversions
  // ---------------------------------------------------------------------

  /** `(attrs) => attrs.type === t` */
  function TypeIs(t: string): AttrPred {
    (a: Attributes) => "type" in a && a["type"] == AStr(t)
  }

  // ---------------------------------------------------------------------
  // gbdToPerson, gbdToAnalytic, gbdToMonograph
  // ---------------------------------------------------------------------

  /** `r` is what `findElementText` gives for the matches `ms`: nothing
      without a match, otherwise the text of the first match when that is
      its only child. */
  predicate TextOfFirst(r: Option<string>, ms: seq<Node>) {
    (ms == [] ==> r.None?)
    && (ms != [] ==> (r.Some? <==> SingleText(ms[0])) && (r.Some? ==> ms[0].elements == Present([Text(r.value)])))
  }

  /** `gbdToPerson`: no person without surname text; otherwise the surname,
      and the texts of the first forenames typed 'first' and 'middle'. */
  function GbdToPerson(e: Node): (p: Option<Person>)
    requires e.Element?
    ensures p.None? <==> !Truthy(FindElementText(At(e), NameIs("surname"), None))
    ensures p.Some? ==> p.value.last != ""
  {
    var surname := FindElementText(At(e), NameIs("surname"), None);
    if !Truthy(surname) then None
    else
      var first := FindElementText(At(e), NameIs("forename"), Some(TypeIs("first")));
      var middle := FindElementText(At(e), NameIs("forename"), Some(TypeIs("middle")));
      Some(Person(first, middle, surname.value))
  }

  /** A person's names are the texts of the first `surname`, the first
      `forename` typed 'first' and the first typed 'middle' below the
      author element. */
  lemma GbdToPersonNames(e: Node)
    requires e.Element? && GbdToPerson(e).Some?
    ensures var p := GbdToPerson(e).value;
      TextOfFirst(Some(p.last), FindElements(At(e), NameIs("surname"), None))
      && TextOfFirst(p.first, FindElements(At(e), NameIs("forename"), Some(TypeIs("first"))))
      && TextOfFirst(p.middle, FindElements(At(e), NameIs("forename"), Some(TypeIs("middle"))))
  {
  }

  /** The present values of a list of options, in order. */
  function Somes<T>(os: seq<Option<T>>): (r: seq<T>)
    ensures |r| <= |os|
  {
    if os == [] then [] else (if os[0].Some? then [os[0].value] else []) + Somes(os[1..])
  }

  lemma {:induction false} SomesComplete<T>(os: seq<Option<T>>)
    ensures forall i :: 0 <= i < |os| && os[i].Some? ==> os[i].value in Somes(os)
  {
    if os != [] {
      SomesComplete(os[1..]);
      assert forall i :: 0 < i < |os| ==> os[i] == os[1..][i - 1];
    }
  }

  lemma {:induction false} SomesSound<T>(os: seq<Option<T>>)
    ensures forall x :: x in Somes(os) ==> exists i :: 0 <= i < |os| && os[i] == Some(x)
  {
    if os != [] {
      var tail := os[1..];
      SomesSound(tail);
      forall x | x in Somes(os) ensures exists i :: 0 <= i < |os| && os[i] == Some(x) {
        if x !in Somes(tail) {
          assert os[0] == Some(x);
        } else {
          var j :| 0 <= j < |tail| && tail[j] == Some(x);
          assert os[j + 1] == Some(x);
        }
      }
    }
  }

  lemma {:induction false} SomesAppend<T>(a: seq<Option<T>>, b: seq<Option<T>>)
    ensures Somes(a + b) == Somes(a) + Somes(b)
  {
    if a == [] {
      assert a + b == b;
    } else {
      var head := if a[0].Some? then [a[0].value] else [];
      SomesAppend(a[1..], b);
      assert a + b == [a[0]] + (a[1..] + b);
      SomesCons(a[0], a[1..] + b);
      SeqAssoc(head, Somes(a[1..]), Somes(b));
    }
  }

  lemma SomesCons<T>(o: Option<T>, os: seq<Option<T>>)
    ensures Somes([o] + os) == (if o.Some? then [o.value] else []) + Somes(os)
  {
    assert ([o] + os)[1..] == os;
  }

  lemma SeqAssoc<T>(x: seq<T>, y: seq<T>, z: seq<T>)
    ensures x + (y + z) == x + y + z
  {
  }

  lemma {:induction false} SomesAllSome<T>(os: seq<Option<T>>)
    requires forall i :: 0 <= i < |os| ==> os[i].Some?
    ensures |Somes(os)| == |os|
    ensures forall i :: 0 <= i < |os| ==> Somes(os)[i] == os[i].value
  {
    if os != [] {
      SomesAllSome(os[1..]);
      assert forall i :: 0 < i < |os| ==> os[1..][i - 1] == os[i];
    }
  }

  /** What `gbdToPerson` gives for each author element. */
  function PersonOpts(authors: seq<Node>): (os: seq<Option<Person>>)
    requires forall a :: a in authors ==> a.Element?
    ensures |os| == |authors|
    ensures forall i :: 0 <= i < |authors| ==> os[i] == GbdToPerson(authors[i])
  {
    seq(|authors|, i requires 0 <= i < |authors| => GbdToPerson(authors[i]))
  }

  /** The persons of a list of `author` elements, skipping those without a
      surname (`flatMap` over `gbdToPerson`). */
  function PersonsOf(authors: seq<Node>): (ps: seq<Person>)
    requires forall a :: a in authors ==> a.Element?
    ensures |ps| <= |authors|
    ensures forall p :: p in ps ==> p.last != ""
  {
    var os := PersonOpts(authors);
    SomesSound(os);
    Somes(os)
  }

  /** Every author element that has a person contributes it. */
  lemma PersonsOfComplete(authors: seq<Node>)
    requires forall a :: a in authors ==> a.Element?
    ensures forall i :: 0 <= i < |authors| && GbdToPerson(authors[i]).Some? ==>
      GbdToPerson(authors[i]).value in PersonsOf(authors)
  {
    SomesComplete(PersonOpts(authors));
  }

  /** Every person comes from one of the author elements. */
  lemma PersonsOfSound(authors: seq<Node>)
    requires forall a :: a in authors ==> a.Element?
    ensures forall p :: p in PersonsOf(authors) ==>
      exists i :: 0 <= i < |authors| && GbdToPerson(authors[i]) == Some(p)
  {
    SomesSound(PersonOpts(authors));
  }

  /** The persons of consecutive author lists follow each other, so each
      author's person keeps its author's position. */
  lemma PersonsOfAppend(a: seq<Node>, b: seq<Node>)
    requires forall x :: x in a + b ==> x.Element?
    ensures PersonsOf(a + b) == PersonsOf(a) + PersonsOf(b)
  {
    assert forall x :: x in a ==> x in a + b;
    assert forall x :: x in b ==> x in a + b;
    assert PersonOpts(a + b) == PersonOpts(a) + PersonOpts(b);
    SomesAppend(PersonOpts(a), PersonOpts(b));
  }

  /** One author element gives its person, or nothing. */
  lemma PersonsOfOne(e: Node)
    requires e.Element?
    ensures PersonsOf([e]) == if GbdToPerson(e).Some? then [GbdToPerson(e).value] else []
  {
    assert PersonOpts([e])[1..] == [];
  }

  /** Every author element with a surname gives a person, in order. */
  lemma PersonsOfAllNamed(authors: seq<Node>)
    requires forall a :: a in authors ==> a.Element?
    requires forall i :: 0 <= i < |authors| ==> GbdToPerson(authors[i]).Some?
    ensures |PersonsOf(authors)| == |authors|
    ensures forall i :: 0 <= i < |authors| ==> PersonsOf(authors)[i] == GbdToPerson(authors[i]).value
  {
    SomesAllSome(PersonOpts(authors));
  }

  /** The part named `tag` below `e`: its first `title` text and the persons
      of every `author` element below it. */
  function GbdToPart(e: Node, tag: string): (r: Option<Part>)
    requires e.Element?
    ensures r.None? <==> FindElements(At(e), NameIs(tag), None) == []
    ensures r.Some? ==>
      var part := FindElements(At(e), NameIs(tag), None)[0];
      r.value.title == FindElementText(At(part), NameIs("title"), None)
      && r.value.authors == PersonsOf(FindElements(At(part), NameIs("author"), None))
      && forall p :: p in r.value.authors ==> p.last != ""
  {
    var found := FindElement(At(e), NameIs(tag), None);
    if found.None? then None
    else
      var part := found.value;
      var title := FindElementText(At(part), NameIs("title"), None);
      var authorElems := FindElements(At(part), NameIs("author"), None);
      Some(Part(title, PersonsOf(authorElems)))
  }

  /** `gbdToAnalytic`: the title and authors of the first `analytic`
      element. */
  function GbdToAnalytic(e: Node): (r: Option<Part>)
    requires e.Element?
    ensures r.None? <==> FindElements(At(e), NameIs("analytic"), None) == []
    ensures r.Some? ==>
      var a := FindElements(At(e), NameIs("analytic"), None)[0];
      r.value.title == FindElementText(At(a), NameIs("title"), None)
      && r.value.authors == PersonsOf(FindElements(At(a), NameIs("author"), None))
  {
    GbdToPart(e, "analytic")
  }

  /** `gbdToMonograph`: the title and authors of the first `monogr`
      element. */
  function GbdToMonograph(e: Node): (r: Option<Part>)
    requires e.Element?
    ensures r.None? <==> FindElements(At(e), NameIs("monogr"), None) == []
    ensures r.Some? ==>
      var m := FindElements(At(e), NameIs("monogr"), None)[0];
      r.value.title == FindElementText(At(m), NameIs("title"), None)
      && r.value.authors == PersonsOf(FindElements(At(m), NameIs("author"), None))
  {
    GbdToPart(e, "monogr")
  }

  /** A `forename` without an attribute map passes both the 'first' and the
      'middle' lookup, so it is reported as both. */
  lemma UntypedForenameIsFirstAndMiddle()
    ensures var pers := Element("author", None, Present([
              Element("persName", None, Present([
                Element("forename", None, Present([Text("Ada")])),
                Element("surname", None, Present([Text("Lovelace")]))]))]));
      GbdToPerson(pers) == Some(Person(Some("Ada"), Some("Ada"), "Lovelace"))
  {
    ExampleSurname();
    ExampleForename("first");
    ExampleForename("middle");
  }

  function ExampleForenameElem(): Node { Element("forename", None, Present([Text("Ada")])) }
  function ExampleSurnameElem(): Node { Element("surname", None, Present([Text("Lovelace")])) }
  function ExampleAuthor(): Node {
    Element("author", None, Present([Element("persName", None, Present([ExampleForenameElem(), ExampleSurnameElem()]))]))
  }

  lemma ExampleSurname()
    ensures FindFirst(ExampleAuthor(), NameIs("surname"), None) == Some(ExampleSurnameElem())
  {
    var fore, sur := ExampleForenameElem(), ExampleSurnameElem();
    var name := Element("persName", None, Present([fore, sur]));
    assert FindFirst(fore, NameIs("surname"), None) == None;
    assert FindFirstIn([sur], NameIs("surname"), None) == Some(sur);
    assert FindFirst(name, NameIs("surname"), None) == Some(sur);
    assert FindFirstIn([name], NameIs("surname"), None) == Some(sur);
  }

  lemma ExampleForename(t: string)
    ensures FindFirst(ExampleAuthor(), NameIs("forename"), Some(TypeIs(t))) == Some(ExampleForenameElem())
  {
    var fore, sur := ExampleForenameElem(), ExampleSurnameElem();
    var name := Element("persName", None, Present([fore, sur]));
    assert Matches(fore, NameIs("forename"), Some(TypeIs(t)));
    assert FindFirst(fore, NameIs("forename"), Some(TypeIs(t))) == Some(fore);
    assert FindFirstIn([fore, sur], NameIs("forename"), Some(TypeIs(t))) == Some(fore);
    assert !Matches(name, NameIs("forename"), Some(TypeIs(t)));
    assert FindFirst(name, NameIs("forename"), Some(TypeIs(t))) == Some(fore);
    assert FindFirstIn([name], NameIs("forename"), Some(TypeIs(t))) == Some(fore);
  }
}

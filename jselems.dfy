/** The earlier, strict variant of the element/text tree: every element
    carries both an attribute map and a child list, and an attribute
    predicate, when given, is applied to every candidate element. */
module JsElems {
  import opened Wrappers
  import opened JsValue

  datatype AttrVal = ANum(n: int) | ABool(b: bool) | AStr(s: string)

  type Attributes = map<string, AttrVal>

  datatype Node =
    | Element(name: string, attributes: Attributes, elements: seq<Node>)
    | Text(text: string)

  datatype Root = Root(elements: seq<Node>)

  datatype Target = Doc(root: Root) | At(node: Node) | Undefined

  type ElemPred = Node -> bool
  type AttrPred = Attributes -> bool

  // ---------------------------------------------------------------------
  // Schema decoding (`parseJSDocument`)
  // ---------------------------------------------------------------------

  /** One line of the error report; the decoder library's exact wording is
      not modelled, only the path the failure was found at. */
  function Invalid(path: string): string {
    "Invalid value supplied to : " + path
  }

  function ErrorsOf<T>(d: Either<seq<string>, T>): seq<string> {
    if d.Left? then d.left else []
  }

  predicate IsAttrValJ(j: Json) {
    j.JNum? || j.JBool? || j.JStr?
  }

  function ToAttrVal(j: Json): AttrVal
    requires IsAttrValJ(j)
  {
    match j
    case JNum(n) => ANum(n)
    case JBool(b) => ABool(b)
    case JStr(s) => AStr(s)
  }

  function FromAttrVal(a: AttrVal): (j: Json)
    ensures IsAttrValJ(j) && ToAttrVal(j) == a
  {
    match a
    case ANum(n) => JNum(n)
    case ABool(b) => JBool(b)
    case AStr(s) => JStr(s)
  }

  predicate IsAttributesJ(j: Json) {
    j.JObj? && forall k :: k in j.fields ==> IsAttrValJ(j.fields[k])
  }

  predicate IsTextJ(j: Json) {
    j.JObj? && "type" in j.fields && j.fields["type"] == JStr("text")
    && "text" in j.fields && j.fields["text"].JStr?
  }

  /** Shape of a strict `JSElement`: `attributes` and `elements` are both
      required. */
  predicate IsElementJ(j: Json)
    decreases j, 1
  {
    j.JObj? && "type" in j.fields && j.fields["type"] == JStr("element")
    && "name" in j.fields && j.fields["name"].JStr?
    && "attributes" in j.fields && IsAttributesJ(j.fields["attributes"])
    && "elements" in j.fields && j.fields["elements"].JArr? && AreChildrenJ(j.fields["elements"].items)
  }

  predicate IsChildJ(j: Json)
    decreases j, 2
  {
    IsElementJ(j) || IsTextJ(j)
  }

  predicate AreChildrenJ(items: seq<Json>)
    decreases items, 0
  {
    items == [] || (IsChildJ(items[0]) && AreChildrenJ(items[1..]))
  }

  predicate AreElementsJ(items: seq<Json>) {
    forall i :: 0 <= i < |items| ==> IsElementJ(items[i])
  }

  predicate IsRootJ(j: Json) {
    j.JObj? && "elements" in j.fields && j.fields["elements"].JArr?
    && AreElementsJ(j.fields["elements"].items)
  }

  function DecodeAttributes(j: Json, path: string): (r: Either<seq<string>, Attributes>)
    ensures r.Right? <==> IsAttributesJ(j)
    ensures r.Left? ==> |r.left| > 0
    ensures r.Right? ==> forall k :: k in r.right <==> k in j.fields
    ensures r.Right? ==> forall k :: k in r.right ==> r.right[k] == ToAttrVal(j.fields[k])
  {
    if IsAttributesJ(j) then Right(map k | k in j.fields :: ToAttrVal(j.fields[k]))
    else Left([Invalid(path)])
  }

  function DecodeText(j: Json, path: string): (r: Either<seq<string>, Node>)
    ensures r.Right? <==> IsTextJ(j)
    ensures r.Left? ==> |r.left| > 0
    ensures r.Right? ==> r.right == Text(j.fields["text"].s)
  {
    if IsTextJ(j) then Right(Text(j.fields["text"].s)) else Left([Invalid(path)])
  }

  function DecodeElement(j: Json, path: string): Either<seq<string>, Node>
    decreases j, 1
  {
    if !j.JObj? then Left([Invalid(path)])
    else
      var f := j.fields;
      var typeErrs := if "type" in f && f["type"] == JStr("element") then [] else [Invalid(path + "/type")];
      var nameErrs := if "name" in f && f["name"].JStr? then [] else [Invalid(path + "/name")];
      var attrs: Either<seq<string>, Attributes> :=
        if "attributes" !in f then Left([Invalid(path + "/attributes")])
        else DecodeAttributes(f["attributes"], path + "/attributes");
      var kids: Either<seq<string>, seq<Node>> :=
        if "elements" !in f || !f["elements"].JArr? then Left([Invalid(path + "/elements")])
        else DecodeChildren(f["elements"].items, path + "/elements");
      if typeErrs == [] && nameErrs == [] && attrs.Right? && kids.Right? then
        Right(Element(f["name"].s, attrs.right, kids.right))
      else Left(typeErrs + nameErrs + ErrorsOf(attrs) + ErrorsOf(kids))
  }

  function DecodeChild(j: Json, path: string): Either<seq<string>, Node>
    decreases j, 2
  {
    var asElement := DecodeElement(j, path);
    if asElement.Right? then asElement
    else
      var asText := DecodeText(j, path);
      if asText.Right? then asText else Left(asElement.left + asText.left)
  }

  function DecodeChildren(items: seq<Json>, path: string): Either<seq<string>, seq<Node>>
    decreases items, 0
  {
    if items == [] then Right([])
    else
      var head := DecodeChild(items[0], path);
      var tail := DecodeChildren(items[1..], path);
      if head.Right? && tail.Right? then Right([head.right] + tail.right)
      else Left(ErrorsOf(head) + ErrorsOf(tail))
  }

  function DecodeElements(items: seq<Json>, path: string): Either<seq<string>, seq<Node>> {
    if items == [] then Right([])
    else
      var head := DecodeElement(items[0], path);
      var tail := DecodeElements(items[1..], path);
      if head.Right? && tail.Right? then Right([head.right] + tail.right)
      else Left(ErrorsOf(head) + ErrorsOf(tail))
  }

  /** `parseJSDocument`: the decoded document, or the error report. */
  function ParseJSDocument(j: Json): Either<seq<string>, Root> {
    if !j.JObj? || "elements" !in j.fields || !j.fields["elements"].JArr? then Left([Invalid("JSRoot/elements")])
    else
      var els := DecodeElements(j.fields["elements"].items, "JSRoot/elements");
      if els.Left? then Left(els.left) else Right(Root(els.right))
  }

  lemma {:induction false} DecodeElementAccepts(j: Json, path: string)
    ensures DecodeElement(j, path).Right? <==> IsElementJ(j)
    ensures DecodeElement(j, path).Left? ==> |DecodeElement(j, path).left| > 0
    ensures DecodeElement(j, path).Right? ==> DecodeElement(j, path).right.Element?
    decreases j, 1
  {
    if j.JObj? && "elements" in j.fields && j.fields["elements"].JArr? {
      DecodeChildrenAccept(j.fields["elements"].items, path + "/elements");
    }
  }

  lemma {:induction false} DecodeChildAccepts(j: Json, path: string)
    ensures DecodeChild(j, path).Right? <==> IsChildJ(j)
    ensures DecodeChild(j, path).Left? ==> |DecodeChild(j, path).left| > 0
    decreases j, 2
  {
    DecodeElementAccepts(j, path);
  }

  lemma {:induction false} DecodeChildrenAccept(items: seq<Json>, path: string)
    ensures DecodeChildren(items, path).Right? <==> AreChildrenJ(items)
    ensures DecodeChildren(items, path).Left? ==> |DecodeChildren(items, path).left| > 0
    decreases items, 0
  {
    if items != [] {
      DecodeChildAccepts(items[0], path);
      DecodeChildrenAccept(items[1..], path);
    }
  }

  lemma {:induction false} DecodeElementsAccept(items: seq<Json>, path: string)
    ensures DecodeElements(items, path).Right? <==> AreElementsJ(items)
    ensures DecodeElements(items, path).Left? ==> |DecodeElements(items, path).left| > 0
    ensures DecodeElements(items, path).Right? ==>
      |DecodeElements(items, path).right| == |items|
      && forall i :: 0 <= i < |items| ==> DecodeElements(items, path).right[i].Element?
  {
    if items != [] {
      DecodeElementAccepts(items[0], path);
      DecodeElementsAccept(items[1..], path);
      if AreElementsJ(items[1..]) {
        assert AreElementsJ(items) <==> IsElementJ(items[0]) by {
          if IsElementJ(items[0]) {
            forall i | 0 <= i < |items| ensures IsElementJ(items[i]) {
              if i > 0 { assert items[i] == items[1..][i - 1]; }
            }
          }
        }
      } else {
        var i :| 0 <= i < |items[1..]| && !IsElementJ(items[1..][i]);
        assert items[1..][i] == items[i + 1];
      }
    }
  }

  /** `parseJSDocument` yields a document exactly when the input has the
      strict `JSRoot` shape, and a non-empty error report otherwise. */
  lemma ParseJSDocumentAccepts(j: Json)
    ensures ParseJSDocument(j).Right? <==> IsRootJ(j)
    ensures ParseJSDocument(j).Left? ==> |ParseJSDocument(j).left| > 0
    ensures ParseJSDocument(j).Right? ==> forall n :: n in ParseJSDocument(j).right.elements ==> n.Element?
  {
    if j.JObj? && "elements" in j.fields && j.fields["elements"].JArr? {
      DecodeElementsAccept(j.fields["elements"].items, "JSRoot/elements");
    }
  }

  /** An element that omits its attribute map, or its child list, is
      rejected, however well formed the rest of it is. */
  lemma MissingFieldsRejected(j: Json, path: string)
    requires j.JObj? && ("attributes" !in j.fields || "elements" !in j.fields)
    ensures DecodeElement(j, path).Left?
    ensures DecodeChild(j, path).Right? ==> IsTextJ(j)
  {
    DecodeElementAccepts(j, path);
  }

  // ---------------------------------------------------------------------
  // Encoding; decoding undoes it
  // ---------------------------------------------------------------------

  function EncodeAttributes(attrs: Attributes): Json {
    JObj(map k | k in attrs :: FromAttrVal(attrs[k]))
  }

  function EncodeNode(n: Node): Json
    decreases n, 1
  {
    match n
    case Text(t) => JObj(map["type" := JStr("text"), "text" := JStr(t)])
    case Element(name, attrs, kids) =>
      JObj(map["type" := JStr("element"), "name" := JStr(name),
               "attributes" := EncodeAttributes(attrs), "elements" := JArr(EncodeNodes(kids))])
  }

  function EncodeNodes(ns: seq<Node>): (js: seq<Json>)
    ensures |js| == |ns|
    decreases ns, 0
  {
    if ns == [] then [] else [EncodeNode(ns[0])] + EncodeNodes(ns[1..])
  }

  function EncodeRoot(r: Root): Json {
    JObj(map["elements" := JArr(EncodeNodes(r.elements))])
  }

  lemma AttributesRoundTrip(attrs: Attributes, path: string)
    ensures DecodeAttributes(EncodeAttributes(attrs), path) == Right(attrs)
  {
    var d := DecodeAttributes(EncodeAttributes(attrs), path);
    assert d.Right?;
    assert d.right == attrs;
  }

  lemma {:induction false} NodeRoundTrip(n: Node, path: string)
    ensures DecodeChild(EncodeNode(n), path) == Right(n)
    ensures n.Element? ==> DecodeElement(EncodeNode(n), path) == Right(n)
    decreases n, 1
  {
    match n
    case Text(t) =>
    case Element(name, attrs, kids) =>
      AttributesRoundTrip(attrs, path + "/attributes");
      NodesRoundTrip(kids, path + "/elements");
  }

  lemma {:induction false} NodesRoundTrip(ns: seq<Node>, path: string)
    ensures DecodeChildren(EncodeNodes(ns), path) == Right(ns)
    decreases ns, 0
  {
    if ns != [] {
      NodeRoundTrip(ns[0], path);
      NodesRoundTrip(ns[1..], path);
      var js := EncodeNodes(ns);
      assert js[0] == EncodeNode(ns[0]) && js[1..] == EncodeNodes(ns[1..]);
      assert ns == [ns[0]] + ns[1..];
    }
  }

  lemma {:induction false} ElementsRoundTrip(ns: seq<Node>, path: string)
    requires forall n :: n in ns ==> n.Element?
    ensures DecodeElements(EncodeNodes(ns), path) == Right(ns)
  {
    if ns != [] {
      NodeRoundTrip(ns[0], path);
      ElementsRoundTrip(ns[1..], path);
      var js := EncodeNodes(ns);
      assert js[0] == EncodeNode(ns[0]) && js[1..] == EncodeNodes(ns[1..]);
      assert ns == [ns[0]] + ns[1..];
    }
  }

  /** Every document whose top-level entries are elements survives encoding
      and `parseJSDocument` unchanged. */
  lemma DocumentRoundTrip(r: Root)
    requires forall n :: n in r.elements ==> n.Element?
    ensures ParseJSDocument(EncodeRoot(r)) == Right(r)
  {
    ElementsRoundTrip(r.elements, "JSRoot/elements");
  }

  // ---------------------------------------------------------------------
  // Searching (`findElement`, `findElements`) and `getElementText`
  // ---------------------------------------------------------------------

  /** The candidate test: an element on which `pred` holds and, when an
      attribute predicate is given, that predicate holds of its attributes. */
  predicate Matches(e: Node, pred: ElemPred, predAttrs: Option<AttrPred>) {
    e.Element? && pred(e) && (predAttrs.None? || predAttrs.value(e.attributes))
  }

  predicate InSubtree(m: Node, n: Node)
    decreases n
  {
    m == n || (n.Element? && InForest(m, n.elements))
  }

  predicate InForest(m: Node, ns: seq<Node>)
    decreases ns
  {
    exists i :: 0 <= i < |ns| && InSubtree(m, ns[i])
  }

  function FindAll(n: Node, pred: ElemPred, predAttrs: Option<AttrPred>): seq<Node>
    decreases n, 1
  {
    var here := if Matches(n, pred, predAttrs) then [n] else [];
    match n
    case Text(_) => here
    case Element(_, _, cs) => here + FindAllIn(cs, pred, predAttrs)
  }

  function FindAllIn(ns: seq<Node>, pred: ElemPred, predAttrs: Option<AttrPred>): seq<Node>
    decreases ns, 0
  {
    if ns == [] then [] else FindAll(ns[0], pred, predAttrs) + FindAllIn(ns[1..], pred, predAttrs)
  }

  function FindFirst(n: Node, pred: ElemPred, predAttrs: Option<AttrPred>): Option<Node>
    decreases n, 1
  {
    if Matches(n, pred, predAttrs) then Some(n)
    else
      match n
      case Text(_) => None
      case Element(_, _, cs) => FindFirstIn(cs, pred, predAttrs)
  }

  function FindFirstIn(ns: seq<Node>, pred: ElemPred, predAttrs: Option<AttrPred>): Option<Node>
    decreases ns, 0
  {
    if ns == [] then None
    else
      var r := FindFirst(ns[0], pred, predAttrs);
      if r.Some? then r else FindFirstIn(ns[1..], pred, predAttrs)
  }

  function Head(s: seq<Node>): Option<Node> {
    if s == [] then None else Some(s[0])
  }

  /** `findElements`: all matches below an element root, or `[]` when the
      root is not an element. */
  function FindElements(root: Target, pred: ElemPred, predAttrs: Option<AttrPred>): (r: seq<Node>)
    ensures !(root.At? && root.node.Element?) ==> r == []
    ensures forall m :: m in r ==> root.At? && InSubtree(m, root.node) && Matches(m, pred, predAttrs)
    ensures root.At? && root.node.Element? ==>
      forall m :: InSubtree(m, root.node) && Matches(m, pred, predAttrs) ==> m in r
    ensures root.At? && root.node.Element? ==> r == Matching(PreOrder(root.node), pred, predAttrs)
  {
    if root.At? && root.node.Element? then
      FindAllExact(root.node, pred, predAttrs);
      FindAllIsPreOrderMatches(root.node, pred, predAttrs);
      FindAll(root.node, pred, predAttrs)
    else []
  }

  /** `findElement`: the first of the matches `findElements` lists. */
  function FindElement(root: Target, pred: ElemPred, predAttrs: Option<AttrPred>): (r: Option<Node>)
    ensures !(root.At? && root.node.Element?) ==> r.None?
    ensures r == Head(FindElements(root, pred, predAttrs))
  {
    if root.At? && root.node.Element? then
      FindFirstIsHead(root.node, pred, predAttrs);
      FindFirst(root.node, pred, predAttrs)
    else None
  }

  lemma {:induction false} FindAllExact(n: Node, pred: ElemPred, predAttrs: Option<AttrPred>)
    ensures forall m :: m in FindAll(n, pred, predAttrs) <==> InSubtree(m, n) && Matches(m, pred, predAttrs)
    decreases n, 1
  {
    match n
    case Text(_) =>
    case Element(_, _, cs) =>
      FindAllInExact(cs, pred, predAttrs);
  }

  lemma {:induction false} FindAllInExact(ns: seq<Node>, pred: ElemPred, predAttrs: Option<AttrPred>)
    ensures forall m :: m in FindAllIn(ns, pred, predAttrs) <==> InForest(m, ns) && Matches(m, pred, predAttrs)
    decreases ns, 0
  {
    if ns != [] {
      FindAllExact(ns[0], pred, predAttrs);
      FindAllInExact(ns[1..], pred, predAttrs);
      forall m ensures InForest(m, ns) <==> InSubtree(m, ns[0]) || InForest(m, ns[1..]) {
        if InForest(m, ns) {
          var i :| 0 <= i < |ns| && InSubtree(m, ns[i]);
          if i > 0 { assert ns[1..][i - 1] == ns[i]; }
        }
        if InForest(m, ns[1..]) {
          var i :| 0 <= i < |ns[1..]| && InSubtree(m, ns[1..][i]);
          assert ns[1..][i] == ns[i + 1];
        }
      }
    }
  }

  lemma {:induction false} FindFirstIsHead(n: Node, pred: ElemPred, predAttrs: Option<AttrPred>)
    ensures FindFirst(n, pred, predAttrs) == Head(FindAll(n, pred, predAttrs))
    decreases n, 1
  {
    match n
    case Text(_) =>
    case Element(_, _, cs) =>
      FindFirstInIsHead(cs, pred, predAttrs);
  }

  lemma {:induction false} FindFirstInIsHead(ns: seq<Node>, pred: ElemPred, predAttrs: Option<AttrPred>)
    ensures FindFirstIn(ns, pred, predAttrs) == Head(FindAllIn(ns, pred, predAttrs))
    decreases ns, 0
  {
    if ns != [] {
      FindFirstIsHead(ns[0], pred, predAttrs);
      FindFirstInIsHead(ns[1..], pred, predAttrs);
    }
  }

  /** The nodes of the subtree of `n` in document order: `n` itself, then
      the subtree of each child in turn. */
  function PreOrder(n: Node): (ns: seq<Node>)
    ensures |ns| >= 1 && ns[0] == n
    decreases n, 1
  {
    match n
    case Text(_) => [n]
    case Element(_, _, cs) => [n] + PreOrderIn(cs)
  }

  function PreOrderIn(ns: seq<Node>): seq<Node>
    decreases ns, 0
  {
    if ns == [] then [] else PreOrder(ns[0]) + PreOrderIn(ns[1..])
  }

  /** The nodes of `ns` that match, in the order of `ns`. */
  function Matching(ns: seq<Node>, pred: ElemPred, predAttrs: Option<AttrPred>): seq<Node> {
    if ns == [] then []
    else (if Matches(ns[0], pred, predAttrs) then [ns[0]] else []) + Matching(ns[1..], pred, predAttrs)
  }

  lemma {:induction false} MatchingAppend(a: seq<Node>, b: seq<Node>, pred: ElemPred, predAttrs: Option<AttrPred>)
    ensures Matching(a + b, pred, predAttrs) == Matching(a, pred, predAttrs) + Matching(b, pred, predAttrs)
  {
    if a != [] {
      MatchingAppend(a[1..], b, pred, predAttrs);
      assert (a + b)[1..] == a[1..] + b;
    } else {
      assert a + b == b;
    }
  }

  /** The search collects the matches of the pre-order listing, in that
      order. */
  lemma {:induction false} FindAllIsPreOrderMatches(n: Node, pred: ElemPred, predAttrs: Option<AttrPred>)
    ensures FindAll(n, pred, predAttrs) == Matching(PreOrder(n), pred, predAttrs)
    decreases n, 1
  {
    MatchingAppend([n], PreOrder(n)[1..], pred, predAttrs);
    assert PreOrder(n) == [n] + PreOrder(n)[1..];
    match n
    case Text(_) =>
    case Element(_, _, cs) =>
      FindAllInIsPreOrderMatches(cs, pred, predAttrs);
  }

  lemma {:induction false} FindAllInIsPreOrderMatches(ns: seq<Node>, pred: ElemPred, predAttrs: Option<AttrPred>)
    ensures FindAllIn(ns, pred, predAttrs) == Matching(PreOrderIn(ns), pred, predAttrs)
    decreases ns, 0
  {
    if ns != [] {
      FindAllIsPreOrderMatches(ns[0], pred, predAttrs);
      FindAllInIsPreOrderMatches(ns[1..], pred, predAttrs);
      MatchingAppend(PreOrder(ns[0]), PreOrderIn(ns[1..]), pred, predAttrs);
    }
  }

  /** Every element found under an attribute predicate satisfies it: the
      predicate is not skipped for any element. */
  lemma AttributePredicateAlwaysApplied(root: Target, pred: ElemPred, predAttrs: AttrPred)
    ensures forall m :: m in FindElements(root, pred, Some(predAttrs)) ==> m.Element? && predAttrs(m.attributes)
  {
  }

  /** The text of an element whose only child is a text node. */
  function GetElementText(e: Node): (r: Option<string>)
    requires e.Element?
    ensures forall t :: r == Some(t) <==> e.elements == [Text(t)]
  {
    if |e.elements| != 1 then None
    else if e.elements[0].Text? then assert e.elements == [Text(e.elements[0].text)]; Some(e.elements[0].text)
    else None
  }
}

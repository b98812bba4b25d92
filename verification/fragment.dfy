/**
  Per-record normalisation of the citation fragment that the API renders for an
  item: strip the nesting, turn the citation container into a paragraph without
  its inline hanging indent, then append attachment links and the abstract.
*/
module Fragment {
  import opened Wrappers
  import opened Faults
  import opened Html

  /** A child attachment: its `title` and `url` data fields and the `href` of its `self` link. */
  datatype Attachment = Attachment(title: string, url: string, selfHref: string)

  /**
    A fetched item, with what the core reads of it: its key, its `itemType`, its
    `bib` fragment already parsed into top-level nodes, the optional
    `numChildren` of its metadata and the optional `abstractNote` of its data.
  */
  datatype Record = Record(
    key: string,
    itemType: string,
    bib: seq<Node>,
    numChildren: Option<int>,
    abstractNote: Option<string>)

  /** The metadata's `numChildren` is present and positive; an absent one counts as 0. */
  predicate HasChildren(r: Record) {
    r.numChildren.Some? && r.numChildren.value > 0
  }

  /** A present abstract that is not the empty string, the only kind Python treats as true. */
  predicate HasAbstract(r: Record) {
    r.abstractNote.Some? && r.abstractNote.value != ""
  }

  /** What the children request answers for a key; a key the map does not hold has no attachments. */
  function AttachmentsOf(children: map<string, seq<Attachment>>, key: string): seq<Attachment> {
    if key in children then children[key] else []
  }

  /** The attachments whose links the record receives: none unless its metadata reports children. */
  function Consulted(r: Record, children: map<string, seq<Attachment>>): seq<Attachment> {
    if HasChildren(r) then AttachmentsOf(children, r.key) else []
  }

  /**
    Where an attachment's link points: its own non-empty `url`, else the file
    viewer under its API self link (the API's enclosure link is not used).
  */
  function Href(a: Attachment): string {
    if a.url != "" then a.url else a.selfHref + "/file/view"
  }

  /** The `a` element for one attachment, showing its title in square brackets. */
  function Link(a: Attachment): Node {
    Element("a", map["href" := Href(a)], [Text("[" + a.title + "]")])
  }

  function Links(atts: seq<Attachment>): seq<Node> {
    seq(|atts|, k requires 0 <= k < |atts| => Link(atts[k]))
  }

  /** The abstract, quoted with the `mx-3` margin class. */
  function Quote(text: string): Node {
    Element("blockquote", map["class" := "mx-3"], [Text(text)])
  }

  /** The blockquote a record contributes: one when it has an abstract, none otherwise. */
  function AbstractNodes(r: Record): seq<Node> {
    if HasAbstract(r) then [Quote(r.abstractNote.value)] else []
  }

  /**
    Lines 93-95: `bib.div.div.unwrap()`, `bib.div.name = 'p'`, `del bib.p['style']`.
    The first `div`'s first `div` descendant is replaced by its own children; then
    the first `div` (the outer one, still there) becomes a `p`; then the first `p`
    loses its `style`. Only a missing `div` or nested `div` aborts; the other
    lookups always succeed once that one has.
  */
  function StripWrapper(bib: seq<Node>): (r: Result<seq<Node>, Fault>)
    ensures r.Success? <==>
      FirstPath(bib, "div").Some? && FirstPath(At(bib, FirstPath(bib, "div").value).children, "div").Some?
    ensures r.Failure? ==> r.error == MissingElement(["div", "div"])
    ensures r.Success? ==>
      FirstPath(r.value, "p").Some? && "style" !in At(r.value, FirstPath(r.value, "p").value).attrs
  {
    match FirstPath(bib, "div")
    case None => Failure(MissingElement(["div", "div"]))
    case Some(outer) =>
      match FirstPath(At(bib, outer).children, "div")
      case None => Failure(MissingElement(["div", "div"]))
      case Some(inner) =>
        PathConcat(bib, outer, inner);
        SpliceBelow(bib, outer, inner, At(bib, outer + inner).children);
        var unwrapped := Unwrap(bib, outer + inner);
        FirstPathFinds(unwrapped, "div", outer);
        match FirstPath(unwrapped, "div")
        case None => Failure(MissingElement(["div"]))
        case Some(d) =>
          var renamed := Rename(unwrapped, d, "p");
          FirstPathFinds(renamed, "p", d);
          match FirstPath(renamed, "p")
          case None => Failure(MissingElement(["p"]))
          case Some(p) =>
            FirstPathStable(renamed, "p", At(renamed, p).(attrs := At(renamed, p).attrs - {"style"}));
            Success(RemoveAttr(renamed, p, "style"))
  }

  /**
    On the shape the API delivers, a fragment starting with an outer `div`
    whose children hold a nested `div` with no `div` before it, the nested
    element's children take its place in order, and the outer element becomes
    a `p` with every attribute but `style` and every other child kept.
  */
  lemma StripWrapperShape(
    outerAttrs: map<string, string>, before: seq<Node>,
    innerAttrs: map<string, string>, citation: seq<Node>,
    after: seq<Node>, rest: seq<Node>)
    requires NoneTagged(before, "div")
    ensures StripWrapper([Element("div", outerAttrs, before + [Element("div", innerAttrs, citation)] + after)] + rest)
         == Success([Element("p", outerAttrs - {"style"}, before + citation + after)] + rest)
  {
    var bib := [Element("div", outerAttrs, before + [Element("div", innerAttrs, citation)] + after)] + rest;
    ShapeFinds(outerAttrs, before, innerAttrs, citation, after, rest);
    assert At(bib, [0]).children == before + [Element("div", innerAttrs, citation)] + after;
    assert [0] + [|before|] == [0, |before|];
    ShapeUnwraps(outerAttrs, before, innerAttrs, citation, after, rest);
    ShapeRenames(outerAttrs, before + citation + after, rest);
  }

  /** Once unwrapped, the outer `div` is found again at the front, renamed, and stripped of its `style`. */
  lemma ShapeRenames(outerAttrs: map<string, string>, kids: seq<Node>, rest: seq<Node>)
    ensures
      var unwrapped := [Element("div", outerAttrs, kids)] + rest;
      var renamed := [Element("p", outerAttrs, kids)] + rest;
      && FirstPath(unwrapped, "div") == Some([0])
      && Rename(unwrapped, [0], "p") == renamed
      && FirstPath(renamed, "p") == Some([0])
      && RemoveAttr(renamed, [0], "style") == [Element("p", outerAttrs - {"style"}, kids)] + rest
  {
    var unwrapped := [Element("div", outerAttrs, kids)] + rest;
    var renamed := [Element("p", outerAttrs, kids)] + rest;
    assert FirstPath(unwrapped, "div") == Some([0]);
    assert Rename(unwrapped, [0], "p") == renamed;
  }

  /** On that shape the outer `div` is the first node and the nested one follows `before` among its children. */
  lemma ShapeFinds(
    outerAttrs: map<string, string>, before: seq<Node>,
    innerAttrs: map<string, string>, citation: seq<Node>,
    after: seq<Node>, rest: seq<Node>)
    requires NoneTagged(before, "div")
    ensures
      var kids := before + [Element("div", innerAttrs, citation)] + after;
      && FirstPath([Element("div", outerAttrs, kids)] + rest, "div") == Some([0])
      && FirstPath(kids, "div") == Some([|before|])
  {
    var inner := Element("div", innerAttrs, citation);
    var kids := before + [inner] + after;
    assert FirstPath([Element("div", outerAttrs, kids)] + rest, "div") == Some([0]);
    FirstPathIsFirst(before, "div");
    assert kids == before + ([inner] + after);
    FirstPathSkip(before, [inner] + after, "div");
    assert FirstPath([inner] + after, "div") == Some([0]);
    assert [0 + |before|] + [0][1..] == [|before|];
  }

  /** On that shape unwrapping the nested `div` puts its children between `before` and `after`. */
  lemma ShapeUnwraps(
    outerAttrs: map<string, string>, before: seq<Node>,
    innerAttrs: map<string, string>, citation: seq<Node>,
    after: seq<Node>, rest: seq<Node>)
    ensures
      var bib := [Element("div", outerAttrs, before + [Element("div", innerAttrs, citation)] + after)] + rest;
      && ValidPath(bib, [0, |before|])
      && At(bib, [0, |before|]) == Element("div", innerAttrs, citation)
      && Unwrap(bib, [0, |before|]) == [Element("div", outerAttrs, before + citation + after)] + rest
  {
    var kids := before + [Element("div", innerAttrs, citation)] + after;
    var bib := [Element("div", outerAttrs, kids)] + rest;
    assert [0, |before|][1..] == [|before|];
    assert kids[..|before|] == before && kids[|before| + 1..] == after;
    assert Unwrap(bib, [0, |before|]) == Splice(bib, [0, |before|], citation);
    assert Splice(bib, [0, |before|], citation)
        == [Element("div", outerAttrs, Splice(kids, [|before|], citation))] + rest;
  }

  /**
    `bib.p.append(x)`: fails, on the lookup `p`, only when the fragment has no
    `p`; otherwise the nodes follow the children of the first `p`, which stays
    the first `p` and keeps its tag and attributes, and nothing outside it moves.
  */
  function AppendToParagraph(doc: seq<Node>, xs: seq<Node>): (r: Result<seq<Node>, Fault>)
    ensures r.Failure? <==> FirstPath(doc, "p").None?
    ensures r.Failure? ==> r.error == MissingElement(["p"])
    ensures r.Success? ==>
      var p := FirstPath(doc, "p").value;
      && FirstPath(r.value, "p") == Some(p)
      && At(r.value, p) == At(doc, p).(children := At(doc, p).children + xs)
      && Framed(doc, p, r.value)
  {
    match FirstPath(doc, "p")
    case None => Failure(MissingElement(["p"]))
    case Some(p) =>
      AppendKeepsParagraph(doc, p, xs);
      Success(Append(doc, p, xs))
  }

  /** Lines 99-107: one `bib.p.append(button)` per attachment, in order, each looking the paragraph up again. */
  function AppendLinks(doc: seq<Node>, atts: seq<Attachment>): Result<seq<Node>, Fault>
    decreases |atts|
  {
    if |atts| == 0 then Success(doc)
    else
      match AppendToParagraph(doc, [Link(atts[0])])
      case Failure(e) => Failure(e)
      case Success(d) => AppendLinks(d, atts[1..])
  }

  /** Appending to the first `p` leaves it the first `p`. */
  lemma AppendKeepsParagraph(doc: seq<Node>, p: Path, xs: seq<Node>)
    requires FirstPath(doc, "p") == Some(p)
    ensures FirstPath(Append(doc, p, xs), "p") == Some(p)
  {
    FirstPathStable(doc, "p", At(doc, p).(children := At(doc, p).children + xs));
  }

  /** Appending twice to the same element is appending both sequences at once. */
  lemma AppendAppend(doc: seq<Node>, p: Path, xs: seq<Node>, ys: seq<Node>)
    requires ValidPath(doc, p) && At(doc, p).Element?
    ensures Append(Append(doc, p, xs), p, ys) == Append(doc, p, xs + ys)
  {
    var e := At(doc, p);
    var m1 := e.(children := e.children + xs);
    var m2 := e.(children := e.children + (xs + ys));
    assert m1.(children := m1.children + ys) == m2;
    PutTwice(doc, p, m1, m2);
  }

  /** The per-attachment appends add the links of all attachments, in attachment order, to the paragraph's end. */
  lemma {:induction false} AppendLinksAtOnce(doc: seq<Node>, atts: seq<Attachment>)
    requires FirstPath(doc, "p").Some?
    ensures AppendLinks(doc, atts) == Success(Append(doc, FirstPath(doc, "p").value, Links(atts)))
    decreases |atts|
  {
    var p := FirstPath(doc, "p").value;
    if |atts| == 0 {
      assert Links(atts) == [];
      assert At(doc, p).(children := At(doc, p).children + []) == At(doc, p);
      PutIdentity(doc, p);
    } else {
      var d := Append(doc, p, [Link(atts[0])]);
      assert AppendLinks(doc, atts) == AppendLinks(d, atts[1..]);
      AppendKeepsParagraph(doc, p, [Link(atts[0])]);
      AppendLinksAtOnce(d, atts[1..]);
      AppendAppend(doc, p, [Link(atts[0])], Links(atts[1..]));
      LinksCons(atts);
    }
  }

  /** The links of a non-empty list: the first attachment's link, then the rest's. */
  lemma LinksCons(atts: seq<Attachment>)
    requires |atts| > 0
    ensures Links(atts) == [Link(atts[0])] + Links(atts[1..])
  {
    assert forall k :: 0 <= k < |atts| - 1 ==> atts[1..][k] == atts[k + 1];
  }

  /**
    `para` is the citation paragraph holding `citation` and decorated, child by
    child: the citation content first, then one `a` per attachment in attachment
    order, pointing at its non-empty `url` or else at its self link's
    `/file/view` and showing its title in brackets, then, last and only when
    `note` is present and not the empty string, the `mx-3` blockquote with its
    text.
  */
  predicate Decorated(para: Node, citation: seq<Node>, atts: seq<Attachment>, note: Option<string>) {
    && Tagged(para, "p")
    && |para.children| == |citation| + |atts| + (if note.Some? && note.value != "" then 1 else 0)
    && para.children[..|citation|] == citation
    && (forall k :: 0 <= k < |atts| ==>
          para.children[|citation| + k]
            == Element("a",
                 map["href" := if atts[k].url != "" then atts[k].url else atts[k].selfHref + "/file/view"],
                 [Text("[" + atts[k].title + "]")]))
    && (note.Some? && note.value != "" ==>
          para.children[|para.children| - 1]
            == Element("blockquote", map["class" := "mx-3"], [Text(note.value)]))
  }

  /** The quoted abstract a paragraph receives for `note`: none unless it is present and not empty. */
  function Quoted(note: Option<string>): seq<Node> {
    if note.Some? && note.value != "" then [Quote(note.value)] else []
  }

  /** Appending the links and the quoted note to a paragraph decorates it. */
  lemma AppendDecorates(doc: seq<Node>, p: Path, atts: seq<Attachment>, note: Option<string>)
    requires ValidPath(doc, p) && Tagged(At(doc, p), "p")
    ensures
      Decorated(At(Append(doc, p, Links(atts) + Quoted(note)), p), At(doc, p).children, atts, note)
  {
    var e := At(doc, p);
    LinkedChildren(e.attrs, e.children, atts, note);
  }

  /**
    Normalisation keeps the citation paragraph where the wrapper stripping left
    it, without a `style`, and decorates it with the consulted attachments'
    links and the record's abstract.
  */
  lemma NormalizeParagraph(r: Record, children: map<string, seq<Attachment>>)
    requires StripWrapper(r.bib).Success?
    ensures Normalize(r, children).Success?
    ensures
      var doc := StripWrapper(r.bib).value;
      var p := FirstPath(doc, "p").value;
      var out := Normalize(r, children).value;
      && ValidPath(out, p)
      && Decorated(At(out, p), At(doc, p).children, Consulted(r, children), r.abstractNote)
      && "style" !in At(out, p).attrs
  {
    NormalizeAppends(r, children);
    var doc := StripWrapper(r.bib).value;
    var p := FirstPath(doc, "p").value;
    assert AbstractNodes(r) == Quoted(r.abstractNote);
    AppendDecorates(doc, p, Consulted(r, children), r.abstractNote);
  }

  /** A paragraph whose children are the citation content, the links and the quoted note is decorated. */
  lemma LinkedChildren(attrs: map<string, string>, citation: seq<Node>, atts: seq<Attachment>, note: Option<string>)
    ensures Decorated(Element("p", attrs, citation + (Links(atts) + Quoted(note))), citation, atts, note)
  {
    var kids := citation + (Links(atts) + Quoted(note));
    assert kids[..|citation|] == citation;
    forall k | 0 <= k < |atts|
      ensures kids[|citation| + k] == Link(atts[k])
    {
      assert kids[|citation| + k] == Links(atts)[k];
    }
    if note.Some? && note.value != "" {
      assert kids[|kids| - 1] == Quote(note.value);
    }
  }

  /**
    Lines 91-114 for one item: normalise the citation, then add its attachment
    links when its metadata reports children, then its abstract when it has one.
  */
  function Normalize(r: Record, children: map<string, seq<Attachment>>): Result<seq<Node>, Fault> {
    var doc :- StripWrapper(r.bib);
    var linked :- if HasChildren(r) then AppendLinks(doc, AttachmentsOf(children, r.key)) else Success(doc);
    if HasAbstract(r) then AppendToParagraph(linked, [Quote(r.abstractNote.value)]) else Success(linked)
  }

  /**
    Normalisation fails exactly when the citation lacks its nested `div`; when it
    succeeds, the paragraph receives, after its citation content, one link per
    consulted attachment in order and then the abstract, and nothing else changes.
  */
  lemma NormalizeAppends(r: Record, children: map<string, seq<Attachment>>)
    ensures Normalize(r, children).Success? <==> StripWrapper(r.bib).Success?
    ensures StripWrapper(r.bib).Success? ==>
      var doc := StripWrapper(r.bib).value;
      Normalize(r, children)
        == Success(Append(doc, FirstPath(doc, "p").value, Links(Consulted(r, children)) + AbstractNodes(r)))
  {
    if StripWrapper(r.bib).Success? {
      var doc := StripWrapper(r.bib).value;
      var p := FirstPath(doc, "p").value;
      var atts := Consulted(r, children);
      AppendLinksAtOnce(doc, atts);
      if !HasChildren(r) {
        assert atts == [];
        assert AppendLinks(doc, atts) == Success(doc);
      }
      var linked := Append(doc, p, Links(atts));
      AppendKeepsParagraph(doc, p, Links(atts));
      AppendAppend(doc, p, Links(atts), AbstractNodes(r));
      if !HasAbstract(r) {
        assert Links(atts) + AbstractNodes(r) == Links(atts);
      }
    }
  }
}

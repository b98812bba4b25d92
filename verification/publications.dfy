/**
  The script's main loop (lines 84-126) with the fetched data as inputs: the
  item-type list, the records in fetch order, and each record's children. Every
  record is normalised and then placed in its section; the first failure aborts
  the run.
*/
module Publications {
  import opened Wrappers
  import opened Faults
  import opened Html
  import opened Catalog
  import opened Fragment
  import opened Sections

  /** Lines 90-126 once the catalog dictionary exists. */
  function Run(records: seq<Record>, labels: map<string, string>, children: map<string, seq<Attachment>>)
    : Result<seq<Node>, Fault>
    decreases |records|
  {
    if |records| == 0 then Success([])
    else
      var sections :- Run(records[..|records| - 1], labels, children);
      Step(sections, records[|records| - 1], labels, children)
  }

  /** One pass of the loop body: normalise the record's citation, then place it. */
  function Step(sections: seq<Node>, r: Record, labels: map<string, string>, children: map<string, seq<Attachment>>)
    : Result<seq<Node>, Fault>
  {
    var fragment :- Normalize(r, children);
    Place(sections, r.itemType, fragment, labels)
  }

  /** Lines 84-126: build the catalog from the item-type list, then run the loop. */
  function Publish(records: seq<Record>, types: seq<TypeEntry>, children: map<string, seq<Attachment>>)
    : Result<seq<Node>, Fault>
  {
    Run(records, LabelMap(types), children)
  }

  /** Every record's citation normalises. */
  predicate AllNormalize(records: seq<Record>, children: map<string, seq<Attachment>>) {
    forall k :: 0 <= k < |records| ==> Normalize(records[k], children).Success?
  }

  /** The normalised fragments, each with its record's type. */
  function Placements(records: seq<Record>, children: map<string, seq<Attachment>>): seq<Placement>
    requires AllNormalize(records, children)
  {
    seq(|records|, k requires 0 <= k < |records| =>
      Placement(records[k].itemType, Normalize(records[k], children).value))
  }

  lemma PlacementsPrefix(records: seq<Record>, children: map<string, seq<Attachment>>)
    requires |records| > 0 && AllNormalize(records, children)
    ensures AllNormalize(records[..|records| - 1], children)
    ensures Placements(records[..|records| - 1], children)
         == Placements(records, children)[..|records| - 1]
  {
    assert forall k :: 0 <= k < |records| - 1 ==> records[..|records| - 1][k] == records[k];
  }

  /**
    When every citation normalises, interleaving normalisation with placement is
    the same as normalising every record and grouping the fragments.
  */
  lemma {:induction false} RunIsGroup(records: seq<Record>, labels: map<string, string>, children: map<string, seq<Attachment>>)
    requires AllNormalize(records, children)
    ensures Run(records, labels, children) == Group(Placements(records, children), labels)
    decreases |records|
  {
    if |records| > 0 {
      var pre := records[..|records| - 1];
      PlacementsPrefix(records, children);
      RunIsGroup(pre, labels, children);
      var ps := Placements(records, children);
      assert ps[..|ps| - 1] == Placements(pre, children);
    }
  }

  /** The record stops the run: its citation lacks the nested `div`, or its type has no label. */
  predicate Breaks(r: Record, labels: map<string, string>, children: map<string, seq<Attachment>>) {
    Normalize(r, children).Failure? || r.itemType !in labels
  }

  /** What a breaking record aborts the run with. */
  function BreakFault(r: Record, children: map<string, seq<Attachment>>): Fault {
    if Normalize(r, children).Failure? then Normalize(r, children).error else UnknownItemType(r.itemType)
  }

  /**
    The run aborts at the first record that breaks it, with that record's fault:
    a structural mismatch of its citation, else the missing label of its type.
  */
  lemma {:induction false} RunStopsAtFirstBreak(
    records: seq<Record>, labels: map<string, string>, children: map<string, seq<Attachment>>, k: nat)
    requires k < |records| && Breaks(records[k], labels, children)
    requires forall j :: 0 <= j < k ==> !Breaks(records[j], labels, children)
    ensures Run(records, labels, children) == Failure(BreakFault(records[k], children))
    decreases |records|
  {
    var pre := records[..|records| - 1];
    if k < |pre| {
      assert pre[k] == records[k];
      assert forall j :: 0 <= j < k ==> !Breaks(pre[j], labels, children) by {
        assert forall j :: 0 <= j < |pre| ==> pre[j] == records[j];
      }
      RunStopsAtFirstBreak(pre, labels, children, k);
      RunUnfold(records, labels, children);
    } else {
      assert k == |records| - 1;
      LastBreaks(records, labels, children);
    }
  }

  /** A run whose only breaking record is its last fails with that record's fault. */
  lemma LastBreaks(records: seq<Record>, labels: map<string, string>, children: map<string, seq<Attachment>>)
    requires |records| > 0 && Breaks(records[|records| - 1], labels, children)
    requires forall j :: 0 <= j < |records| - 1 ==> !Breaks(records[j], labels, children)
    ensures Run(records, labels, children) == Failure(BreakFault(records[|records| - 1], children))
  {
    var pre := records[..|records| - 1];
    var r := records[|records| - 1];
    assert forall j :: 0 <= j < |pre| ==> !Breaks(pre[j], labels, children) by {
      assert forall j :: 0 <= j < |pre| ==> pre[j] == records[j];
    }
    if r.itemType !in labels {
      NoSectionWithoutLabel(pre, labels, children, r.itemType);
    } else {
      RunSucceeds(pre, labels, children);
    }
    var before := Run(pre, labels, children);
    StepBreaks(before.value, r, labels, children);
    RunUnfold(records, labels, children);
  }

  /** Run of a non-empty list in terms of the run of its prefix. */
  lemma RunUnfold(records: seq<Record>, labels: map<string, string>, children: map<string, seq<Attachment>>)
    requires |records| > 0
    ensures Run(records, labels, children) ==
      var before := Run(records[..|records| - 1], labels, children);
      if before.Failure? then Failure(before.error)
      else Step(before.value, records[|records| - 1], labels, children)
  {
  }

  /** A breaking record fails its step unless its section already exists. */
  lemma StepBreaks(sections: seq<Node>, r: Record, labels: map<string, string>, children: map<string, seq<Attachment>>)
    ensures Breaks(r, labels, children) && (r.itemType in labels || FindSection(sections, r.itemType).None?) ==>
      Step(sections, r, labels, children) == Failure(BreakFault(r, children))
    ensures !Breaks(r, labels, children) ==> Step(sections, r, labels, children).Success?
  {
  }

  /** A code the catalog lacks has no section after a run that succeeded. */
  lemma NoSectionWithoutLabel(records: seq<Record>, labels: map<string, string>, children: map<string, seq<Attachment>>, t: string)
    requires forall j :: 0 <= j < |records| ==> !Breaks(records[j], labels, children)
    requires t !in labels
    ensures Run(records, labels, children).Success?
    ensures FindSection(Run(records, labels, children).value, t).None?
  {
    RunSucceeds(records, labels, children);
    RunIsGroup(records, labels, children);
    var ps := Placements(records, children);
    assert AllKnown(ps, labels);
    GroupIsExpected(ps, labels);
    assert t !in FirstSeen(Types(ps)) by {
      assert t !in Types(ps);
      FirstSeenMembers(Types(ps));
    }
    ExpectedFind(ps, labels, t);
  }

  /** A run with no breaking record succeeds. */
  lemma RunSucceeds(records: seq<Record>, labels: map<string, string>, children: map<string, seq<Attachment>>)
    requires forall j :: 0 <= j < |records| ==> !Breaks(records[j], labels, children)
    ensures AllNormalize(records, children)
    ensures Run(records, labels, children).Success?
  {
    assert AllNormalize(records, children);
    RunIsGroup(records, labels, children);
    var ps := Placements(records, children);
    assert AllKnown(ps, labels);
    GroupIsExpected(ps, labels);
  }

  /**
    The whole run fails exactly when some record's citation lacks its nested
    `div` or some record's item type is missing from the item-type list; when it
    succeeds, the sections are the grouping of the normalised fragments.
  */
  lemma PublishOutcome(records: seq<Record>, types: seq<TypeEntry>, children: map<string, seq<Attachment>>)
    ensures Publish(records, types, children).Failure? <==>
      exists k :: 0 <= k < |records| &&
        (StripWrapper(records[k].bib).Failure? || records[k].itemType !in Codes(types))
    ensures Publish(records, types, children).Success? ==>
      AllNormalize(records, children) &&
      Publish(records, types, children) == Group(Placements(records, children), LabelMap(types))
  {
    var labels := LabelMap(types);
    forall k | 0 <= k < |records|
      ensures Breaks(records[k], labels, children) <==>
        (StripWrapper(records[k].bib).Failure? || records[k].itemType !in Codes(types))
    {
      NormalizeAppends(records[k], children);
    }
    RunFailsIffBreak(records, labels, children);
    if !exists k :: 0 <= k < |records| && Breaks(records[k], labels, children) {
      RunSucceeds(records, labels, children);
      assert AllNormalize(records, children);
      RunIsGroup(records, labels, children);
    }
  }

  /** The run fails exactly when some record breaks it. */
  lemma {:induction false} RunFailsIffBreak(records: seq<Record>, labels: map<string, string>, children: map<string, seq<Attachment>>)
    ensures Run(records, labels, children).Failure? <==>
      exists k :: 0 <= k < |records| && Breaks(records[k], labels, children)
    decreases |records|
  {
    if |records| > 0 {
      var pre := records[..|records| - 1];
      var last := records[|records| - 1];
      assert forall j :: 0 <= j < |pre| ==> pre[j] == records[j];
      RunFailsIffBreak(pre, labels, children);
      RunUnfold(records, labels, children);
      var before := Run(pre, labels, children);
      if before.Failure? {
        var k :| 0 <= k < |pre| && Breaks(pre[k], labels, children);
        assert Breaks(records[k], labels, children);
        assert Run(records, labels, children).Failure?;
      } else if Breaks(last, labels, children) {
        RunStopsAtFirstBreak(records, labels, children, |records| - 1);
        assert Breaks(records[|records| - 1], labels, children);
      } else {
        StepBreaks(before.value, last, labels, children);
        assert Run(records, labels, children).Success?;
        forall k | 0 <= k < |records| ensures !Breaks(records[k], labels, children) {
          if k < |pre| {
            assert records[k] == pre[k];
            assert !Breaks(pre[k], labels, children);
          } else {
            assert k == |records| - 1;
          }
        }
      }
    }
  }

  /**
    Line 124: `out.html.body.div.append(section)`. The sections go to the end of
    the body's first `div` (the page container), after what the template put
    there, not to the body itself.
  */
  function Mount(page: seq<Node>, sections: seq<Node>): (r: Result<seq<Node>, Fault>)
    ensures r.Failure? <==> Select(page, ["html", "body", "div"]).None?
    ensures r.Failure? ==> r.error == MissingElement(["html", "body", "div"])
    ensures r.Success? ==>
      var container := Select(page, ["html", "body", "div"]).value;
      && ValidPath(r.value, container)
      && Tagged(At(r.value, container), "div")
      && At(r.value, container).attrs == At(page, container).attrs
      && At(r.value, container).children == At(page, container).children + sections
      && Framed(page, container, r.value)
  {
    match Select(page, ["html", "body", "div"])
    case None => Failure(MissingElement(["html", "body", "div"]))
    case Some(container) => Success(Append(page, container, sections))
  }

  /** The page after the loop: the template's tree with the sections in its container. */
  function Render(page: seq<Node>, records: seq<Record>, types: seq<TypeEntry>, children: map<string, seq<Attachment>>)
    : Result<seq<Node>, Fault>
  {
    var sections :- Publish(records, types, children);
    Mount(page, sections)
  }

  /**
    The rendered page exists exactly when every citation has its nested `div`,
    every item type is in the item-type list and the page has its container;
    it is then the page with the grouping of the normalised fragments mounted,
    and a failing run reports the loop's fault before the page is consulted.
  */
  lemma RenderOutcome(page: seq<Node>, records: seq<Record>, types: seq<TypeEntry>, children: map<string, seq<Attachment>>)
    ensures Render(page, records, types, children).Success? <==>
      && (forall k :: 0 <= k < |records| ==>
            StripWrapper(records[k].bib).Success? && records[k].itemType in Codes(types))
      && Select(page, ["html", "body", "div"]).Some?
    ensures Render(page, records, types, children).Success? ==>
      && AllNormalize(records, children)
      && Group(Placements(records, children), LabelMap(types)).Success?
      && Render(page, records, types, children)
           == Mount(page, Group(Placements(records, children), LabelMap(types)).value)
    ensures Publish(records, types, children).Failure? ==>
      Render(page, records, types, children) == Failure(Publish(records, types, children).error)
  {
    var run := Publish(records, types, children);
    PublishOutcome(records, types, children);
    if run.Success? {
      assert run == Group(Placements(records, children), LabelMap(types));
      forall k | 0 <= k < |records|
        ensures StripWrapper(records[k].bib).Success? && records[k].itemType in Codes(types)
      {
        if StripWrapper(records[k].bib).Failure? || records[k].itemType !in Codes(types) {
          assert false;
        }
      }
      assert Render(page, records, types, children) == Mount(page, run.value);
    } else {
      var k :| 0 <= k < |records| &&
        (StripWrapper(records[k].bib).Failure? || records[k].itemType !in Codes(types));
      assert Render(page, records, types, children) == Failure(run.error);
    }
  }

  /** The `report` record of the example below. */
  function ReportRecord(): Record {
    var inner := Element("div", map["style" := "margin-left:0.5in"], [Text("Doe, J. (2020). Title.")]);
    Record("K1", "report", [Element("div", map[], [inner])], None, Some("An abstract."))
  }

  /** Its citation: the styled wrapper is gone, and the abstract follows the text inside the paragraph. */
  lemma ReportNormalizes()
    ensures Normalize(ReportRecord(), map[]) == Success([Element("p", map[], [
      Text("Doe, J. (2020). Title."),
      Element("blockquote", map["class" := "mx-3"], [Text("An abstract.")])])])
  {
    var citation := [Text("Doe, J. (2020). Title.")];
    var inner := Element("div", map["style" := "margin-left:0.5in"], citation);
    var bib := [Element("div", map[], [inner])];
    var none: map<string, string> := map[];
    StripWrapperShape(none, [], inner.attrs, citation, [], []);
    assert [] + [inner] + [] == [inner];
    assert bib == [Element("div", none, [] + [inner] + [])] + [];
    var doc := [Element("p", none, citation)];
    assert [] + citation + [] == citation;
    assert none - {"style"} == none;
    assert doc == [Element("p", none - {"style"}, [] + citation + [])] + [];
    assert StripWrapper(bib) == Success(doc);
    assert FirstPath(doc, "p") == Some([0]);
    var quote := Element("blockquote", map["class" := "mx-3"], [Text("An abstract.")]);
    var out := [Element("p", none, citation + [quote])];
    assert Append(doc, [0], [quote]) == out;
    var r := ReportRecord();
    assert r.bib == bib;
    assert !HasChildren(r) && HasAbstract(r);
    assert Quote(r.abstractNote.value) == quote;
    assert AppendToParagraph(doc, [quote]) == Success(out);
    assert Normalize(r, map[]) == Success(out);
    assert citation + [quote] == [Text("Doe, J. (2020). Title."), quote];
  }

  /**
    A single `report` whose citation is an outer `div` around a styled `div`
    holding the text, with no attachments and a one-sentence abstract, yields one
    `report` section: its heading, then the paragraph with the citation text
    followed by the quoted abstract.
  */
  lemma ReportExample()
    ensures Publish([ReportRecord()], [TypeEntry("report", "Report")], map[]) == Success([
      Element("section", map["id" := "report"], [
        Element("h2", map[], [Text("Report")]),
        Element("p", map[], [
          Text("Doe, J. (2020). Title."),
          Element("blockquote", map["class" := "mx-3"], [Text("An abstract.")])])])])
  {
    var r := ReportRecord();
    ReportNormalizes();
    var out := [Element("p", map[], [
      Text("Doe, J. (2020). Title."),
      Element("blockquote", map["class" := "mx-3"], [Text("An abstract.")])])];
    var labels := LabelMap([TypeEntry("report", "Report")]);
    assert labels == map["report" := "Report"];
    assert [r][..0] == [];
    assert Run([r][..0], labels, map[]) == Success([]);
    assert Step([], r, labels, map[]) == Place([], "report", out, labels);
    assert Place([], "report", out, labels) == Success([] + [NewSection("report", "Report", out)]);
    assert [] + [NewSection("report", "Report", out)] == [NewSection("report", "Report", out)];
    assert [Heading("Report")] + out == [Element("h2", map[], [Text("Report")]), out[0]];
    assert Run([r], labels, map[]) == Step([], r, labels, map[]);
    assert Publish([r], [TypeEntry("report", "Report")], map[]) == Success([NewSection("report", "Report", out)]);
  }

  /**
    Records of types book, article, book: two sections, `book` first, the book
    section holding both book fragments in record order.
  */
  lemma GroupingExample(f1: seq<Node>, f2: seq<Node>, f3: seq<Node>)
    ensures
      var labels := map["book" := "Book", "article" := "Article"];
      Group([Placement("book", f1), Placement("article", f2), Placement("book", f3)], labels) == Success([
        Element("section", map["id" := "book"], [Element("h2", map[], [Text("Book")])] + f1 + f3),
        Element("section", map["id" := "article"], [Element("h2", map[], [Text("Article")])] + f2)])
  {
    var labels := map["book" := "Book", "article" := "Article"];
    var p1, p2, p3 := Placement("book", f1), Placement("article", f2), Placement("book", f3);
    var ps := [p1, p2, p3];
    assert ps[..2] == [p1, p2] && [p1, p2][..1] == [p1] && [p1][..0] == [];
    var s1 := [NewSection("book", "Book", f1)];
    assert Place([], "book", f1, labels) == Success([] + s1);
    assert [] + s1 == s1;
    assert Group([p1], labels) == Success(s1);
    var s2 := s1 + [NewSection("article", "Article", f2)];
    assert FindSection(s1, "article") == None;
    assert Group([p1, p2], labels) == Success(s2);
    assert FindSection(s2, "book") == Some(0);
    assert ([Heading("Book")] + f1) + f3 == [Heading("Book")] + f1 + f3;
    var s3 := s2[0 := s2[0].(children := s2[0].children + f3)];
    assert Group(ps, labels) == Success(s3);
    assert s3 == [
      Element("section", map["id" := "book"], [Element("h2", map[], [Text("Book")])] + f1 + f3),
      Element("section", map["id" := "article"], [Element("h2", map[], [Text("Article")])] + f2)];
  }
}

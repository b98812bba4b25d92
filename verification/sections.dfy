/**
  Grouping of normalised fragments into one `section` per item type (lines
  116-126): find the section whose `id` is the record's type, or create it with
  an `h2` heading carrying the catalog label, and append the fragment to it.
*/
module Sections {
  import opened Wrappers
  import opened Faults
  import opened Html

  /** A normalised fragment together with the item type of the record it came from. */
  datatype Placement = Placement(itemType: string, fragment: seq<Node>)

  /** `n` is an element whose `id` attribute is `id`. */
  predicate HasId(n: Node, id: string) {
    n.Element? && "id" in n.attrs && n.attrs["id"] == id
  }

  /** The `h2` carrying a section's label. */
  function Heading(caption: string): Node {
    Element("h2", map[], [Text(caption)])
  }

  /** `section id=code`, holding its heading and then its first fragment. */
  function NewSection(code: string, caption: string, fragment: seq<Node>): Node {
    Element("section", map["id" := code], [Heading(caption)] + fragment)
  }

  /** The first section whose `id` is `code`, as `out.find(id=code)` would return it, or `None`. */
  function FindSection(sections: seq<Node>, code: string): (r: Option<nat>)
    ensures r.Some? ==> r.value < |sections| && HasId(sections[r.value], code)
    ensures r.Some? ==> forall j :: 0 <= j < r.value ==> !HasId(sections[j], code)
    ensures r.None? <==> forall j :: 0 <= j < |sections| ==> !HasId(sections[j], code)
    decreases |sections|
  {
    if |sections| == 0 then None
    else if HasId(sections[0], code) then Some(0)
    else
      match FindSection(sections[1..], code)
      case None => None
      case Some(i) => Some(i + 1)
  }

  /**
    One iteration of the loop's tail: an existing section takes the fragment as
    its last children; otherwise a new section is appended, which needs the
    catalog label. The run aborts only when there is no section for the code and
    the catalog has no label for it.
  */
  function Place(sections: seq<Node>, code: string, fragment: seq<Node>, labels: map<string, string>)
    : (r: Result<seq<Node>, Fault>)
    ensures r.Failure? <==> (forall j :: 0 <= j < |sections| ==> !HasId(sections[j], code)) && code !in labels
    ensures r.Failure? ==> r.error == UnknownItemType(code)
  {
    match FindSection(sections, code)
    case Some(i) => Success(sections[i := sections[i].(children := sections[i].children + fragment)])
    case None =>
      if code in labels then Success(sections + [NewSection(code, labels[code], fragment)])
      else Failure(UnknownItemType(code))
  }

  /**
    Appending to a section that already exists never reads the catalog: the
    outcome is the same with no labels at all, and it is never a failure.
  */
  lemma ExistingSectionNeedsNoLabel(
    sections: seq<Node>, code: string, fragment: seq<Node>, labels: map<string, string>)
    requires exists j :: 0 <= j < |sections| && HasId(sections[j], code)
    ensures Place(sections, code, fragment, labels).Success?
    ensures Place(sections, code, fragment, labels) == Place(sections, code, fragment, map[])
  {
  }

  /** The loop over all records, from no sections, placing each fragment in record order. */
  function Group(placements: seq<Placement>, labels: map<string, string>): Result<seq<Node>, Fault>
    decreases |placements|
  {
    if |placements| == 0 then Success([])
    else
      var sections :- Group(placements[..|placements| - 1], labels);
      var last := placements[|placements| - 1];
      Place(sections, last.itemType, last.fragment, labels)
  }

  // ---------------------------------------------------------------------------
  // Reference description of the grouped output
  // ---------------------------------------------------------------------------

  function Types(placements: seq<Placement>): seq<string> {
    seq(|placements|, i requires 0 <= i < |placements| => placements[i].itemType)
  }

  /** Every record's item type has a catalog label. */
  predicate AllKnown(placements: seq<Placement>, labels: map<string, string>) {
    forall i :: 0 <= i < |placements| ==> placements[i].itemType in labels
  }

  /** The position of the first occurrence of `x`. */
  function FirstIndex(ts: seq<string>, x: string): (k: nat)
    requires x in ts
    ensures k < |ts| && ts[k] == x && x !in ts[..k]
    decreases |ts|
  {
    if ts[0] == x then 0
    else
      var k := 1 + FirstIndex(ts[1..], x);
      assert ts[..k] == [ts[0]] + ts[1..][..k - 1];
      k
  }

  /** Each code once, at the place of its first occurrence. */
  function FirstSeen(ts: seq<string>): seq<string>
    decreases |ts|
  {
    if |ts| == 0 then []
    else
      var seen := FirstSeen(ts[..|ts| - 1]);
      if ts[|ts| - 1] in seen then seen else seen + [ts[|ts| - 1]]
  }

  /** The fragments of the records of one type, concatenated in record order. */
  function FragmentsOf(placements: seq<Placement>, code: string): seq<Node>
    decreases |placements|
  {
    if |placements| == 0 then []
    else
      var last := placements[|placements| - 1];
      FragmentsOf(placements[..|placements| - 1], code) + (if last.itemType == code then last.fragment else [])
  }

  /** The first occurrence is the one with no occurrence before it. */
  lemma {:induction false} FirstIndexUnique(ts: seq<string>, x: string, a: nat)
    requires a < |ts| && ts[a] == x && x !in ts[..a]
    ensures FirstIndex(ts, x) == a
    decreases |ts|
  {
    if ts[0] != x {
      assert ts[1..][..a - 1] == ts[..a][1..];
      FirstIndexUnique(ts[1..], x, a - 1);
    }
  }

  lemma FirstIndexSnoc(ts: seq<string>, y: string, x: string)
    requires x in ts
    ensures x in ts + [y] && FirstIndex(ts + [y], x) == FirstIndex(ts, x)
  {
    var k := FirstIndex(ts, x);
    assert (ts + [y])[..k] == ts[..k];
    FirstIndexUnique(ts + [y], x, k);
  }

  lemma {:induction false} FirstSeenMembers(ts: seq<string>)
    ensures forall x :: x in FirstSeen(ts) <==> x in ts
    decreases |ts|
  {
    if |ts| > 0 {
      var pre := ts[..|ts| - 1];
      assert ts == pre + [ts[|ts| - 1]];
      FirstSeenMembers(pre);
    }
  }

  lemma {:induction false} FirstSeenDistinct(ts: seq<string>)
    ensures forall i, j :: 0 <= i < j < |FirstSeen(ts)| ==> FirstSeen(ts)[i] != FirstSeen(ts)[j]
    decreases |ts|
  {
    if |ts| > 0 {
      FirstSeenDistinct(ts[..|ts| - 1]);
    }
  }

  /**
    `FirstSeen` lists exactly the codes that occur, each once, ordered by where
    each first occurs.
  */
  lemma {:induction false} FirstSeenSpec(ts: seq<string>)
    ensures forall x :: x in FirstSeen(ts) <==> x in ts
    ensures forall i, j :: 0 <= i < j < |FirstSeen(ts)| ==> FirstSeen(ts)[i] != FirstSeen(ts)[j]
    ensures forall i, j :: 0 <= i < j < |FirstSeen(ts)| ==>
      FirstIndex(ts, FirstSeen(ts)[i]) < FirstIndex(ts, FirstSeen(ts)[j])
    decreases |ts|
  {
    FirstSeenMembers(ts);
    FirstSeenDistinct(ts);
    if |ts| > 0 {
      var pre := ts[..|ts| - 1];
      var y := ts[|ts| - 1];
      assert ts == pre + [y];
      FirstSeenSpec(pre);
      var seen := FirstSeen(pre);
      forall x | x in pre
        ensures FirstIndex(ts, x) == FirstIndex(pre, x)
      {
        FirstIndexSnoc(pre, y, x);
      }
      if y !in seen {
        assert FirstIndex(ts, y) == |pre| by {
          assert y !in ts[..|pre|];
        }
      }
    }
  }

  lemma FirstSeenSnoc(ts: seq<string>, y: string)
    ensures FirstSeen(ts + [y]) == if y in FirstSeen(ts) then FirstSeen(ts) else FirstSeen(ts) + [y]
  {
    assert (ts + [y])[..|ts|] == ts;
  }

  /** A code that no record carries has no fragments. */
  lemma {:induction false} FragmentsOfAbsent(placements: seq<Placement>, code: string)
    requires code !in Types(placements)
    ensures FragmentsOf(placements, code) == []
    decreases |placements|
  {
    if |placements| > 0 {
      var pre := placements[..|placements| - 1];
      assert Types(pre) == Types(placements)[..|pre|];
      FragmentsOfAbsent(pre, code);
      assert placements[|placements| - 1].itemType == Types(placements)[|pre|];
    }
  }

  lemma FirstSeenKnown(placements: seq<Placement>, labels: map<string, string>)
    requires AllKnown(placements, labels)
    ensures forall x :: x in FirstSeen(Types(placements)) ==> x in labels
  {
    FirstSeenMembers(Types(placements));
  }

  /** What the loop produces when every type has a label: one section per code, in first-seen order. */
  function Expected(placements: seq<Placement>, labels: map<string, string>): (sections: seq<Node>)
    requires AllKnown(placements, labels)
    ensures |sections| == |FirstSeen(Types(placements))|
  {
    var ids := FirstSeen(Types(placements));
    FirstSeenKnown(placements, labels);
    seq(|ids|, i requires 0 <= i < |ids| =>
      NewSection(ids[i], labels[ids[i]], FragmentsOf(placements, ids[i])))
  }

  lemma TypesSnoc(placements: seq<Placement>)
    requires |placements| > 0
    ensures Types(placements) == Types(placements[..|placements| - 1]) + [placements[|placements| - 1].itemType]
  {
  }

  lemma FragmentsOfSnoc(placements: seq<Placement>, u: string)
    requires |placements| > 0
    ensures FragmentsOf(placements, u) == FragmentsOf(placements[..|placements| - 1], u)
      + (if placements[|placements| - 1].itemType == u then placements[|placements| - 1].fragment else [])
  {
  }

  lemma AllKnownPrefix(placements: seq<Placement>, labels: map<string, string>)
    requires |placements| > 0 && AllKnown(placements, labels)
    ensures AllKnown(placements[..|placements| - 1], labels)
  {
    assert forall i :: 0 <= i < |placements| - 1 ==> placements[..|placements| - 1][i] == placements[i];
  }

  /** In the reference description, the section for `t` is at the position of `t` in `FirstSeen`, if anywhere. */
  lemma ExpectedFind(placements: seq<Placement>, labels: map<string, string>, t: string)
    requires AllKnown(placements, labels)
    ensures var ids := FirstSeen(Types(placements));
      && (t !in ids ==> FindSection(Expected(placements, labels), t).None?)
      && (t in ids ==> FindSection(Expected(placements, labels), t).Some?
                       && ids[FindSection(Expected(placements, labels), t).value] == t)
  {
    var sections := Expected(placements, labels);
    var ids := FirstSeen(Types(placements));
    assert forall j :: 0 <= j < |sections| ==> (HasId(sections[j], t) <==> ids[j] == t);
    if t in ids {
      var j :| 0 <= j < |ids| && ids[j] == t;
      assert HasId(sections[j], t);
    }
  }

  /** A section whose type is not the last record's is the same before and after that record. */
  lemma UntouchedSection(placements: seq<Placement>, labels: map<string, string>, j: nat)
    requires |placements| > 0 && AllKnown(placements, labels)
    requires AllKnown(placements[..|placements| - 1], labels)
    requires j < |FirstSeen(Types(placements[..|placements| - 1]))| <= |FirstSeen(Types(placements))|
    requires FirstSeen(Types(placements))[j] == FirstSeen(Types(placements[..|placements| - 1]))[j]
    requires FirstSeen(Types(placements))[j] != placements[|placements| - 1].itemType
    ensures Expected(placements[..|placements| - 1], labels)[j] == Expected(placements, labels)[j]
  {
    var u := FirstSeen(Types(placements))[j];
    FragmentsOfSnoc(placements, u);
    assert FragmentsOf(placements[..|placements| - 1], u) + [] == FragmentsOf(placements[..|placements| - 1], u);
  }

  /** The section of the last record's type, when it already has one, gains that record's fragment. */
  lemma GrownSection(placements: seq<Placement>, labels: map<string, string>, i: nat)
    requires |placements| > 0 && AllKnown(placements, labels)
    requires AllKnown(placements[..|placements| - 1], labels)
    requires FirstSeen(Types(placements)) == FirstSeen(Types(placements[..|placements| - 1]))
    requires i < |FirstSeen(Types(placements))|
    requires FirstSeen(Types(placements))[i] == placements[|placements| - 1].itemType
    ensures
      var before := Expected(placements[..|placements| - 1], labels)[i];
      Expected(placements, labels)[i]
        == before.(children := before.children + placements[|placements| - 1].fragment)
  {
    var pre := placements[..|placements| - 1];
    var last := placements[|placements| - 1];
    var t := last.itemType;
    FragmentsOfSnoc(placements, t);
    assert [Heading(labels[t])] + FragmentsOf(pre, t) + last.fragment
        == [Heading(labels[t])] + (FragmentsOf(pre, t) + last.fragment);
  }

  /** The sections after a record of an already seen type: its section grown, every other one as it was. */
  lemma GrownSections(placements: seq<Placement>, labels: map<string, string>, i: nat)
    requires |placements| > 0 && AllKnown(placements, labels)
    requires AllKnown(placements[..|placements| - 1], labels)
    requires FirstSeen(Types(placements)) == FirstSeen(Types(placements[..|placements| - 1]))
    requires i < |FirstSeen(Types(placements))|
    requires forall j :: 0 <= j < |FirstSeen(Types(placements))| ==>
      (FirstSeen(Types(placements))[j] == placements[|placements| - 1].itemType <==> j == i)
    ensures
      var before := Expected(placements[..|placements| - 1], labels);
      before[i := before[i].(children := before[i].children + placements[|placements| - 1].fragment)]
        == Expected(placements, labels)
  {
    var before := Expected(placements[..|placements| - 1], labels);
    var after := before[i := before[i].(children := before[i].children + placements[|placements| - 1].fragment)];
    var want := Expected(placements, labels);
    forall j | 0 <= j < |after|
      ensures after[j] == want[j]
    {
      if j == i {
        GrownSection(placements, labels, i);
      } else {
        UntouchedSection(placements, labels, j);
      }
    }
  }

  /** A record whose type already has a section extends that section's fragments and nothing else. */
  lemma GroupStepExisting(placements: seq<Placement>, labels: map<string, string>)
    requires |placements| > 0 && AllKnown(placements, labels)
    requires placements[|placements| - 1].itemType in Types(placements[..|placements| - 1])
    ensures
      var pre := placements[..|placements| - 1];
      var last := placements[|placements| - 1];
      AllKnown(pre, labels) &&
      Place(Expected(pre, labels), last.itemType, last.fragment, labels) == Success(Expected(placements, labels))
  {
    var pre := placements[..|placements| - 1];
    var last := placements[|placements| - 1];
    var t := last.itemType;
    AllKnownPrefix(placements, labels);
    var before := Expected(pre, labels);
    var ids := FirstSeen(Types(pre));
    assert t in ids by {
      FirstSeenMembers(Types(pre));
    }
    ExpectedFind(pre, labels, t);
    var i := FindSection(before, t).value;
    assert forall j :: 0 <= j < |ids| ==> (ids[j] == t <==> j == i) by {
      FirstSeenDistinct(Types(pre));
    }
    TypesSnoc(placements);
    FirstSeenSnoc(Types(pre), t);
    GrownSections(placements, labels, i);
  }

  /** The section opened for a type not seen before holds just the last record's fragment. */
  lemma OpenedSection(placements: seq<Placement>, labels: map<string, string>)
    requires |placements| > 0 && AllKnown(placements, labels)
    requires placements[|placements| - 1].itemType !in Types(placements[..|placements| - 1])
    requires FirstSeen(Types(placements))
          == FirstSeen(Types(placements[..|placements| - 1])) + [placements[|placements| - 1].itemType]
    ensures
      var last := placements[|placements| - 1];
      var i := |FirstSeen(Types(placements[..|placements| - 1]))|;
      Expected(placements, labels)[i] == NewSection(last.itemType, labels[last.itemType], last.fragment)
  {
    var pre := placements[..|placements| - 1];
    var last := placements[|placements| - 1];
    var t := last.itemType;
    FragmentsOfAbsent(pre, t);
    FragmentsOfSnoc(placements, t);
    assert FragmentsOf(placements, t) == [] + last.fragment;
  }

  /** A record of a type not seen before opens a new, last, section for it. */
  lemma GroupStepNew(placements: seq<Placement>, labels: map<string, string>)
    requires |placements| > 0 && AllKnown(placements, labels)
    requires placements[|placements| - 1].itemType !in Types(placements[..|placements| - 1])
    ensures
      var pre := placements[..|placements| - 1];
      var last := placements[|placements| - 1];
      AllKnown(pre, labels) &&
      Place(Expected(pre, labels), last.itemType, last.fragment, labels) == Success(Expected(placements, labels))
  {
    var pre := placements[..|placements| - 1];
    var last := placements[|placements| - 1];
    var t := last.itemType;
    AllKnownPrefix(placements, labels);
    var before := Expected(pre, labels);
    var ids := FirstSeen(Types(pre));
    assert t !in ids by {
      FirstSeenMembers(Types(pre));
    }
    ExpectedFind(pre, labels, t);
    TypesSnoc(placements);
    FirstSeenSnoc(Types(pre), t);
    assert t in labels;
    var after := before + [NewSection(t, labels[t], last.fragment)];
    assert Place(before, t, last.fragment, labels) == Success(after);
    var want := Expected(placements, labels);
    forall j | 0 <= j < |after|
      ensures after[j] == want[j]
    {
      if j == |before| {
        OpenedSection(placements, labels);
      } else {
        UntouchedSection(placements, labels, j);
      }
    }
    assert after == want;
  }

  /**
    The loop succeeds exactly when every record's type has a label, and then
    yields `Expected`: one section per item type, in order of first occurrence,
    each holding its heading and that type's fragments in record order.
  */
  lemma {:induction false} GroupIsExpected(placements: seq<Placement>, labels: map<string, string>)
    ensures Group(placements, labels).Success? <==> AllKnown(placements, labels)
    ensures AllKnown(placements, labels) ==> Group(placements, labels) == Success(Expected(placements, labels))
    decreases |placements|
  {
    if |placements| == 0 {
      return;
    }
    var pre := placements[..|placements| - 1];
    var last := placements[|placements| - 1];
    var t := last.itemType;
    GroupIsExpected(pre, labels);
    if !AllKnown(pre, labels) {
      assert !AllKnown(placements, labels) by {
        if AllKnown(placements, labels) {
          AllKnownPrefix(placements, labels);
        }
      }
      return;
    }
    if AllKnown(placements, labels) {
      if t in Types(pre) {
        GroupStepExisting(placements, labels);
      } else {
        GroupStepNew(placements, labels);
      }
    } else {
      assert t !in labels;
      assert t !in FirstSeen(Types(pre)) by {
        assert t !in Types(pre);
        FirstSeenMembers(Types(pre));
      }
      ExpectedFind(pre, labels, t);
    }
  }

  /** When some type lacks a label, the run stops at the first record whose type lacks one. */
  lemma {:induction false} GroupFailsAtFirstUnknown(placements: seq<Placement>, labels: map<string, string>, k: nat)
    requires k < |placements| && placements[k].itemType !in labels
    requires forall j :: 0 <= j < k ==> placements[j].itemType in labels
    ensures Group(placements, labels) == Failure(UnknownItemType(placements[k].itemType))
    decreases |placements|
  {
    var pre := placements[..|placements| - 1];
    if k < |pre| {
      assert forall i :: 0 <= i < |pre| ==> pre[i] == placements[i];
      GroupFailsAtFirstUnknown(pre, labels, k);
    } else {
      assert k == |placements| - 1;
      LastUnknown(placements, labels);
    }
  }

  /** When only the last record's type lacks a label, the loop fails on that record. */
  lemma LastUnknown(placements: seq<Placement>, labels: map<string, string>)
    requires |placements| > 0 && placements[|placements| - 1].itemType !in labels
    requires AllKnown(placements[..|placements| - 1], labels)
    ensures Group(placements, labels) == Failure(UnknownItemType(placements[|placements| - 1].itemType))
  {
    var pre := placements[..|placements| - 1];
    var last := placements[|placements| - 1];
    GroupIsExpected(pre, labels);
    var before := Expected(pre, labels);
    assert last.itemType !in FirstSeen(Types(pre)) by {
      assert last.itemType !in Types(pre);
      FirstSeenMembers(Types(pre));
    }
    ExpectedFind(pre, labels, last.itemType);
    assert Place(before, last.itemType, last.fragment, labels) == Failure(UnknownItemType(last.itemType));
  }

  // ---------------------------------------------------------------------------
  // The grouping invariants, stated on the sections themselves
  // ---------------------------------------------------------------------------

  /** The `id` a section carries (empty for anything that carries none). */
  function SectionId(n: Node): string {
    if n.Element? && "id" in n.attrs then n.attrs["id"] else ""
  }

  /**
    A successful grouping has one section per item type that occurs and no
    other, sections ordered by where their type first occurs among the records,
    and each section holding its label's heading followed by exactly the
    fragments of its type, in record order.
  */
  lemma GroupShape(placements: seq<Placement>, labels: map<string, string>, sections: seq<Node>)
    requires Group(placements, labels) == Success(sections)
    ensures AllKnown(placements, labels)
    ensures forall i, j :: 0 <= i < j < |sections| ==> SectionId(sections[i]) != SectionId(sections[j])
    ensures forall i :: 0 <= i < |sections| ==> SectionId(sections[i]) in Types(placements)
    ensures forall k :: 0 <= k < |placements| ==>
      exists i :: 0 <= i < |sections| && SectionId(sections[i]) == placements[k].itemType
    ensures forall i, j :: 0 <= i < j < |sections| ==>
      FirstIndex(Types(placements), SectionId(sections[i])) < FirstIndex(Types(placements), SectionId(sections[j]))
  {
    GroupIsExpected(placements, labels);
    var ts := Types(placements);
    var ids := FirstSeen(ts);
    FirstSeenSpec(ts);
    assert sections == Expected(placements, labels);
    assert forall i :: 0 <= i < |sections| ==> SectionId(sections[i]) == ids[i];
    forall k | 0 <= k < |placements|
      ensures exists i :: 0 <= i < |sections| && SectionId(sections[i]) == placements[k].itemType
    {
      assert ts[k] in ids;
      var i :| 0 <= i < |ids| && ids[i] == ts[k];
      assert SectionId(sections[i]) == placements[k].itemType;
    }
  }

  /**
    Each section of a successful grouping is a `section` element carrying its
    type as `id`, holding the `h2` with that type's label and then exactly the
    fragments of that type, in record order.
  */
  lemma GroupContents(placements: seq<Placement>, labels: map<string, string>, sections: seq<Node>)
    requires Group(placements, labels) == Success(sections)
    ensures forall i :: 0 <= i < |sections| ==> SectionId(sections[i]) in labels
    ensures forall i :: 0 <= i < |sections| ==>
      sections[i] == Element("section", map["id" := SectionId(sections[i])],
        [Element("h2", map[], [Text(labels[SectionId(sections[i])])])] + FragmentsOf(placements, SectionId(sections[i])))
  {
    GroupIsExpected(placements, labels);
    FirstSeenKnown(placements, labels);
    assert sections == Expected(placements, labels);
    assert forall i :: 0 <= i < |sections| ==> SectionId(sections[i]) == FirstSeen(Types(placements))[i];
  }

  /** The nodes a section holds after its heading. */
  function Width(n: Node): int {
    if n.Element? then |n.children| - 1 else 0
  }

  /** All the fragment nodes held by the sections. */
  function ContentSize(sections: seq<Node>): int
    decreases |sections|
  {
    if |sections| == 0 then 0
    else ContentSize(sections[..|sections| - 1]) + Width(sections[|sections| - 1])
  }

  /** All the nodes of all the fragments. */
  function FragmentTotal(placements: seq<Placement>): nat
    decreases |placements|
  {
    if |placements| == 0 then 0
    else FragmentTotal(placements[..|placements| - 1]) + |placements[|placements| - 1].fragment|
  }

  lemma {:induction false} ContentSizeUpdate(sections: seq<Node>, i: nat, n: Node)
    requires i < |sections|
    ensures ContentSize(sections[i := n]) == ContentSize(sections) - Width(sections[i]) + Width(n)
    decreases |sections|
  {
    var k := |sections| - 1;
    if i < k {
      assert sections[i := n][..k] == sections[..k][i := n];
      ContentSizeUpdate(sections[..k], i, n);
    } else {
      assert sections[i := n][..k] == sections[..k];
    }
  }

  /** Grouping loses and duplicates nothing: the sections hold as many nodes after their headings as all fragments together. */
  lemma {:induction false} GroupKeepsEveryFragment(placements: seq<Placement>, labels: map<string, string>)
    requires Group(placements, labels).Success?
    ensures ContentSize(Group(placements, labels).value) == FragmentTotal(placements)
    decreases |placements|
  {
    if |placements| > 0 {
      var pre := placements[..|placements| - 1];
      var last := placements[|placements| - 1];
      GroupKeepsEveryFragment(pre, labels);
      var before := Group(pre, labels).value;
      match FindSection(before, last.itemType) {
        case Some(i) =>
          ContentSizeUpdate(before, i, before[i].(children := before[i].children + last.fragment));
        case None =>
          var after := before + [NewSection(last.itemType, labels[last.itemType], last.fragment)];
          assert after[..|before|] == before;
      }
    }
  }

  /** How many records carry the code `x`. */
  function Occurrences(ts: seq<string>, x: string): nat
    decreases |ts|
  {
    if |ts| == 0 then 0
    else Occurrences(ts[..|ts| - 1], x) + (if ts[|ts| - 1] == x then 1 else 0)
  }

  /** The records counted by the sections with ids `ids`, each section counting the records of its type. */
  function Counted(ids: seq<string>, ts: seq<string>): nat
    decreases |ids|
  {
    if |ids| == 0 then 0
    else Counted(ids[..|ids| - 1], ts) + Occurrences(ts, ids[|ids| - 1])
  }

  /** The `id`s of the sections, in order. */
  function Ids(sections: seq<Node>): seq<string> {
    seq(|sections|, i requires 0 <= i < |sections| => SectionId(sections[i]))
  }

  lemma {:induction false} OccurrencesAbsent(ts: seq<string>, x: string)
    requires x !in ts
    ensures Occurrences(ts, x) == 0
    decreases |ts|
  {
    if |ts| > 0 {
      assert ts[..|ts| - 1] <= ts;
      OccurrencesAbsent(ts[..|ts| - 1], x);
    }
  }

  /** One more record is counted once when its code has a section, and not at all otherwise. */
  lemma {:induction false} CountedSnoc(ids: seq<string>, ts: seq<string>, y: string)
    requires forall i, j :: 0 <= i < j < |ids| ==> ids[i] != ids[j]
    ensures Counted(ids, ts + [y]) == Counted(ids, ts) + (if y in ids then 1 else 0)
    decreases |ids|
  {
    if |ids| > 0 {
      var pre := ids[..|ids| - 1];
      var z := ids[|ids| - 1];
      CountedSnoc(pre, ts, y);
      assert (ts + [y])[..|ts|] == ts;
      assert y in ids <==> y in pre || y == z;
      assert y == z ==> y !in pre;
    }
  }

  /** The first-seen codes, each counting its records, account for every record exactly once. */
  lemma {:induction false} FirstSeenCountsAll(ts: seq<string>)
    ensures Counted(FirstSeen(ts), ts) == |ts|
    decreases |ts|
  {
    if |ts| > 0 {
      var pre := ts[..|ts| - 1];
      var y := ts[|ts| - 1];
      assert ts == pre + [y];
      FirstSeenCountsAll(pre);
      var seen := FirstSeen(pre);
      FirstSeenDistinct(pre);
      CountedSnoc(seen, pre, y);
      if y !in seen {
        assert y !in pre by {
          FirstSeenMembers(pre);
        }
        OccurrencesAbsent(pre, y);
        assert (seen + [y])[..|seen|] == seen;
      }
    }
  }

  /** Every record's fragment lands in exactly one section: summing, over the sections, the records of each section's type gives the number of records. */
  lemma GroupCountsEveryRecord(placements: seq<Placement>, labels: map<string, string>, sections: seq<Node>)
    requires Group(placements, labels) == Success(sections)
    ensures Counted(Ids(sections), Types(placements)) == |placements|
  {
    GroupIsExpected(placements, labels);
    assert Ids(sections) == FirstSeen(Types(placements));
    FirstSeenCountsAll(Types(placements));
  }
}

/**
  An abstract HTML document tree, standing in for the BeautifulSoup trees that
  the script builds and edits.

  A parsed document is a forest: the sequence of its top-level nodes. A handle on
  one element (a BeautifulSoup `Tag` reference) is a `Path`: the index of a
  top-level node, followed by child indices down to the element. Attribute
  access such as `doc.div` is `find('div')`, a search of all descendants in
  document order; it is modelled by `FirstPath`, and chains such as
  `doc.div.div` by `Select`.
*/
module Html {
  import opened Wrappers

  datatype Node =
    | Element(tag: string, attrs: map<string, string>, children: seq<Node>)
    | Text(text: string)

  /** `n` is an element whose tag name is `tag`. */
  predicate Tagged(n: Node, tag: string) {
    n.Element? && n.tag == tag
  }

  type Path = seq<nat>

  /** `p` names a node of the forest `ns`; every step but the last passes through an element. */
  predicate ValidPath(ns: seq<Node>, p: Path)
    decreases p
  {
    && |p| > 0
    && p[0] < |ns|
    && (|p| == 1 || (ns[p[0]].Element? && ValidPath(ns[p[0]].children, p[1..])))
  }

  /** The node a path names. */
  function At(ns: seq<Node>, p: Path): Node
    requires ValidPath(ns, p)
    decreases p
  {
    if |p| == 1 then ns[p[0]] else At(ns[p[0]].children, p[1..])
  }

  /** Replaces the node at `p` by the nodes `repl`, in place among its siblings. */
  function Splice(ns: seq<Node>, p: Path, repl: seq<Node>): seq<Node>
    requires ValidPath(ns, p)
    decreases p
  {
    if |p| == 1 then ns[..p[0]] + repl + ns[p[0] + 1..]
    else
      var n := ns[p[0]];
      ns[..p[0]] + [n.(children := Splice(n.children, p[1..], repl))] + ns[p[0] + 1..]
  }

  /** Replaces the node at `p` by the single node `m`. */
  function Put(ns: seq<Node>, p: Path, m: Node): (r: seq<Node>)
    requires ValidPath(ns, p)
    ensures |r| == |ns| && ValidPath(r, p) && At(r, p) == m
    decreases p
  {
    if |p| == 1 then ns[p[0] := m]
    else ns[p[0] := ns[p[0]].(children := Put(ns[p[0]].children, p[1..], m))]
  }

  /** The parent of the node at `p`: nothing for a top-level node. */
  function Parent(p: Path): Path
    requires |p| > 1
  {
    p[..|p| - 1]
  }

  /**
    After `r` replaced the node at the nested path `p` by `repl`, the parent
    element is where it was, with its own tag and attributes, and `repl` sits
    between the replaced child's former siblings.
  */
  predicate SplicedInParent(ns: seq<Node>, p: Path, repl: seq<Node>, r: seq<Node>)
    requires |p| > 1
  {
    && ValidPath(ns, Parent(p))
    && At(ns, Parent(p)).Element?
    && p[|p| - 1] < |At(ns, Parent(p)).children|
    && ValidPath(r, Parent(p))
    && At(r, Parent(p)) == At(ns, Parent(p)).(children :=
         At(ns, Parent(p)).children[..p[|p| - 1]] + repl + At(ns, Parent(p)).children[p[|p| - 1] + 1..])
  }

  lemma {:induction false} SpliceInParent(ns: seq<Node>, p: Path, repl: seq<Node>)
    requires ValidPath(ns, p) && |p| > 1
    ensures SplicedInParent(ns, p, repl, Splice(ns, p, repl))
    decreases p
  {
    var r := Splice(ns, p, repl);
    var n := ns[p[0]];
    assert r[p[0]] == n.(children := Splice(n.children, p[1..], repl));
    if |p| == 2 {
      assert Parent(p) == [p[0]];
    } else {
      SpliceInParent(n.children, p[1..], repl);
      assert Parent(p)[1..] == Parent(p[1..]);
      assert p[1..][|p[1..]| - 1] == p[|p| - 1];
    }
  }

  /** A path into an element's children, appended to that element's path, is a path of the forest. */
  lemma {:induction false} PathConcat(ns: seq<Node>, p: Path, q: Path)
    requires ValidPath(ns, p) && At(ns, p).Element?
    requires ValidPath(At(ns, p).children, q)
    ensures ValidPath(ns, p + q) && At(ns, p + q) == At(At(ns, p).children, q)
    decreases p
  {
    assert (p + q)[0] == p[0];
    if |p| == 1 {
      assert (p + q)[1..] == q;
    } else {
      PathConcat(ns[p[0]].children, p[1..], q);
      assert (p + q)[1..] == p[1..] + q;
    }
  }

  /** Splicing deep inside the element at `p` is splicing its children and putting the edited element at `p`. */
  lemma {:induction false} SpliceBelow(ns: seq<Node>, p: Path, q: Path, repl: seq<Node>)
    requires ValidPath(ns, p) && At(ns, p).Element?
    requires ValidPath(At(ns, p).children, q)
    ensures ValidPath(ns, p + q)
    ensures Splice(ns, p + q, repl)
         == Put(ns, p, At(ns, p).(children := Splice(At(ns, p).children, q, repl)))
    decreases p
  {
    PathConcat(ns, p, q);
    assert (p + q)[0] == p[0];
    if |p| == 1 {
      assert (p + q)[1..] == q;
    } else {
      SpliceBelow(ns[p[0]].children, p[1..], q, repl);
      assert (p + q)[1..] == p[1..] + q;
    }
  }

  /** Replacing the node at `p` twice is replacing it once with the second node. */
  lemma {:induction false} PutTwice(ns: seq<Node>, p: Path, m1: Node, m2: Node)
    requires ValidPath(ns, p)
    ensures Put(Put(ns, p, m1), p, m2) == Put(ns, p, m2)
    decreases p
  {
    if |p| > 1 {
      PutTwice(ns[p[0]].children, p[1..], m1, m2);
    }
  }

  /** Neither path lies on the other: they part ways at some step. */
  predicate Apart(p: Path, q: Path)
    decreases |p|
  {
    |p| > 0 && |q| > 0 && (p[0] != q[0] || Apart(p[1..], q[1..]))
  }

  /** Replacing the node at `p` leaves every node on a path apart from `p` where and as it was. */
  lemma {:induction false} PutElsewhere(ns: seq<Node>, p: Path, m: Node, q: Path)
    requires ValidPath(ns, p) && ValidPath(ns, q) && Apart(p, q)
    ensures ValidPath(Put(ns, p, m), q) && At(Put(ns, p, m), q) == At(ns, q)
    decreases p
  {
    if p[0] == q[0] {
      PutElsewhere(ns[p[0]].children, p[1..], m, q[1..]);
    }
  }

  /** Replacing the node at `p` adds no node apart from `p`: whatever is there now was there before. */
  lemma {:induction false} PutElsewhereBack(ns: seq<Node>, p: Path, m: Node, q: Path)
    requires ValidPath(ns, p) && ValidPath(Put(ns, p, m), q) && Apart(p, q)
    ensures ValidPath(ns, q)
    decreases p
  {
    var r := Put(ns, p, m);
    if p[0] == q[0] {
      assert r[p[0]] == ns[p[0]].(children := Put(ns[p[0]].children, p[1..], m));
      PutElsewhereBack(ns[p[0]].children, p[1..], m, q[1..]);
    } else {
      assert r[q[0]] == ns[q[0]];
    }
  }

  /** Both nodes are elements with the same tag and attributes; their children may differ. */
  predicate SameShell(a: Node, b: Node) {
    a.Element? && b.Element? && a.tag == b.tag && a.attrs == b.attrs
  }

  /** Replacing the node at `p` keeps every element above it, with its tag and attributes. */
  lemma {:induction false} PutAncestor(ns: seq<Node>, p: Path, m: Node, k: nat)
    requires ValidPath(ns, p) && 1 <= k < |p|
    ensures ValidPath(ns, p[..k]) && ValidPath(Put(ns, p, m), p[..k])
    ensures SameShell(At(Put(ns, p, m), p[..k]), At(ns, p[..k]))
    decreases p
  {
    var r := Put(ns, p, m);
    assert r[p[0]] == ns[p[0]].(children := Put(ns[p[0]].children, p[1..], m));
    assert p[..k][0] == p[0];
    if k == 1 {
      assert p[..1] == [p[0]];
    } else {
      PutAncestor(ns[p[0]].children, p[1..], m, k - 1);
      assert p[..k][1..] == p[1..][..k - 1];
    }
  }

  /**
    `r` is `ns` with at most the node at `p` replaced: `p` names a node in both,
    every node apart from `p` is where and as it was, no node apart from `p` was
    added, and every element above `p` keeps its tag and attributes.
  */
  ghost predicate Framed(ns: seq<Node>, p: Path, r: seq<Node>) {
    && ValidPath(ns, p)
    && ValidPath(r, p)
    && (forall q :: ValidPath(ns, q) && Apart(p, q) ==> ValidPath(r, q) && At(r, q) == At(ns, q))
    && (forall q :: ValidPath(r, q) && Apart(p, q) ==> ValidPath(ns, q))
    && (forall k :: 1 <= k < |p| ==>
          ValidPath(ns, p[..k]) && ValidPath(r, p[..k]) && SameShell(At(r, p[..k]), At(ns, p[..k])))
  }

  /** Replacing one node frames every node apart from it. */
  lemma PutFrame(ns: seq<Node>, p: Path, m: Node)
    requires ValidPath(ns, p)
    ensures Framed(ns, p, Put(ns, p, m))
  {
    var r := Put(ns, p, m);
    forall q | ValidPath(ns, q) && Apart(p, q)
      ensures ValidPath(r, q) && At(r, q) == At(ns, q)
    {
      PutElsewhere(ns, p, m, q);
    }
    forall q | ValidPath(r, q) && Apart(p, q)
      ensures ValidPath(ns, q)
    {
      PutElsewhereBack(ns, p, m, q);
    }
    forall k | 1 <= k < |p|
      ensures ValidPath(ns, p[..k]) && ValidPath(r, p[..k]) && SameShell(At(r, p[..k]), At(ns, p[..k]))
    {
      PutAncestor(ns, p, m, k);
    }
  }

  /** A frame around a nested path is, one level down, a frame around the rest of the path. */
  lemma FramedBelow(ns: seq<Node>, p: Path, r: seq<Node>)
    requires Framed(ns, p, r) && |p| > 1
    ensures SameShell(r[p[0]], ns[p[0]])
    ensures Framed(ns[p[0]].children, p[1..], r[p[0]].children)
  {
    var n, n' := ns[p[0]], r[p[0]];
    assert p[..1] == [p[0]];
    forall q' | ValidPath(n.children, q') && Apart(p[1..], q')
      ensures ValidPath(n'.children, q') && At(n'.children, q') == At(n.children, q')
    {
      var q := [p[0]] + q';
      assert q[0] == p[0] && q[1..] == q';
      assert ValidPath(ns, q) && Apart(p, q);
    }
    forall q' | ValidPath(n'.children, q') && Apart(p[1..], q')
      ensures ValidPath(n.children, q')
    {
      var q := [p[0]] + q';
      assert q[0] == p[0] && q[1..] == q';
      assert ValidPath(r, q) && Apart(p, q);
    }
    forall k | 1 <= k < |p[1..]|
      ensures && ValidPath(n.children, p[1..][..k]) && ValidPath(n'.children, p[1..][..k])
              && SameShell(At(n'.children, p[1..][..k]), At(n.children, p[1..][..k]))
    {
      assert p[..k + 1][0] == p[0] && p[..k + 1][1..] == p[1..][..k];
      assert ValidPath(ns, p[..k + 1]) && ValidPath(r, p[..k + 1]);
    }
  }

  /**
    The frame says all there is to say: a forest framed around `p` is `ns` with
    the node at `p` replaced by the one it now holds there.
  */
  lemma {:induction false} FramedIsPut(ns: seq<Node>, p: Path, r: seq<Node>)
    requires Framed(ns, p, r)
    ensures r == Put(ns, p, At(r, p))
    decreases p
  {
    assert Apart(p, [|ns|]) && !ValidPath(ns, [|ns|]);
    assert Apart(p, [|r|]) && !ValidPath(r, [|r|]);
    assert |r| == |ns|;
    forall i | 0 <= i < |ns| && i != p[0]
      ensures r[i] == ns[i]
    {
      assert Apart(p, [i]) && ValidPath(ns, [i]);
    }
    var n, n' := ns[p[0]], r[p[0]];
    if |p| == 1 {
      assert r == ns[p[0] := n'];
    } else {
      FramedBelow(ns, p, r);
      FramedIsPut(n.children, p[1..], n'.children);
      assert n' == n.(children := Put(n.children, p[1..], At(r, p)));
      assert r == ns[p[0] := n'];
    }
  }

  /** Putting back the node that is already there changes nothing. */
  lemma {:induction false} PutIdentity(ns: seq<Node>, p: Path)
    requires ValidPath(ns, p)
    ensures Put(ns, p, At(ns, p)) == ns
    decreases p
  {
    if |p| > 1 {
      PutIdentity(ns[p[0]].children, p[1..]);
      assert ns[p[0]].(children := ns[p[0]].children) == ns[p[0]];
    }
  }

  // ---------------------------------------------------------------------------
  // Element editing: the Tag methods the script calls
  // ---------------------------------------------------------------------------

  /**
    `tag.unwrap()`: the element at `p` is removed and its children take its place,
    in order, among its former siblings.
  */
  function Unwrap(ns: seq<Node>, p: Path): (r: seq<Node>)
    requires ValidPath(ns, p) && At(ns, p).Element?
    ensures |p| == 1 ==> r == ns[..p[0]] + At(ns, p).children + ns[p[0] + 1..]
    ensures |p| > 1 ==> SplicedInParent(ns, p, At(ns, p).children, r)
    ensures |p| > 1 ==> Framed(ns, Parent(p), r)
  {
    if |p| > 1 then
      SpliceInParent(ns, p, At(ns, p).children);
      UnwrapFrame(ns, p);
      Splice(ns, p, At(ns, p).children)
    else
      Splice(ns, p, At(ns, p).children)
  }

  /** Unwrapping a nested element edits only its parent: it is putting the parent back with spliced children. */
  lemma UnwrapFrame(ns: seq<Node>, p: Path)
    requires ValidPath(ns, p) && |p| > 1 && At(ns, p).Element?
    ensures ValidPath(ns, Parent(p))
    ensures Framed(ns, Parent(p), Splice(ns, p, At(ns, p).children))
  {
    SpliceInParent(ns, p, At(ns, p).children);
    var a := Parent(p);
    var q := [p[|p| - 1]];
    assert a + q == p;
    PathConcat(ns, a, q);
    SpliceBelow(ns, a, q, At(ns, p).children);
    PutFrame(ns, a, At(ns, a).(children := Splice(At(ns, a).children, q, At(ns, p).children)));
  }

  /** `tag.name = t`: same attributes and children, new tag name. */
  function Rename(ns: seq<Node>, p: Path, t: string): (r: seq<Node>)
    requires ValidPath(ns, p) && At(ns, p).Element?
    ensures ValidPath(r, p)
    ensures At(r, p) == Element(t, At(ns, p).attrs, At(ns, p).children)
    ensures Framed(ns, p, r)
  {
    PutFrame(ns, p, At(ns, p).(tag := t));
    Put(ns, p, At(ns, p).(tag := t))
  }

  /** `del tag[a]`: the attribute is dropped when present; an absent one is no error. */
  function RemoveAttr(ns: seq<Node>, p: Path, a: string): (r: seq<Node>)
    requires ValidPath(ns, p) && At(ns, p).Element?
    ensures ValidPath(r, p)
    ensures At(r, p) == Element(At(ns, p).tag, At(ns, p).attrs - {a}, At(ns, p).children)
    ensures Framed(ns, p, r)
  {
    PutFrame(ns, p, At(ns, p).(attrs := At(ns, p).attrs - {a}));
    Put(ns, p, At(ns, p).(attrs := At(ns, p).attrs - {a}))
  }

  /**
    `tag.append(x)`: the nodes `xs` become the element's last children. (Appending
    a whole parsed document appends its top-level nodes, hence a sequence.)
  */
  function Append(ns: seq<Node>, p: Path, xs: seq<Node>): (r: seq<Node>)
    requires ValidPath(ns, p) && At(ns, p).Element?
    ensures ValidPath(r, p)
    ensures At(r, p) == Element(At(ns, p).tag, At(ns, p).attrs, At(ns, p).children + xs)
    ensures Framed(ns, p, r)
  {
    PutFrame(ns, p, At(ns, p).(children := At(ns, p).children + xs));
    Put(ns, p, At(ns, p).(children := At(ns, p).children + xs))
  }

  // ---------------------------------------------------------------------------
  // Searching in document order: `tag.find(name)`
  // ---------------------------------------------------------------------------

  /** `p` comes strictly before `q` in document order: an ancestor, or left of it at the first index where they differ. */
  predicate Before(p: Path, q: Path) {
    || (|p| < |q| && p == q[..|p|])
    || (exists k :: 0 <= k < |p| && k < |q| && p[..k] == q[..k] && p[k] < q[k])
  }

  /** No element of the forest is tagged `tag`. */
  ghost predicate NoneTagged(ns: seq<Node>, tag: string) {
    forall q :: ValidPath(ns, q) ==> !Tagged(At(ns, q), tag)
  }

  /** The path of the first element tagged `tag` in document order, or `None` (Python's `None`) when there is none. */
  function FirstPath(ns: seq<Node>, tag: string): (r: Option<Path>)
    ensures r.Some? ==> ValidPath(ns, r.value) && Tagged(At(ns, r.value), tag)
    decreases ns
  {
    if |ns| == 0 then None
    else if Tagged(ns[0], tag) then Some([0])
    else
      var inner := if ns[0].Element? then FirstPath(ns[0].children, tag) else None;
      if inner.Some? then
        assert ([0] + inner.value)[1..] == inner.value;
        Some([0] + inner.value)
      else
        match FirstPath(ns[1..], tag)
        case None => None
        case Some(q) =>
          assert ([q[0] + 1] + q[1..])[1..] == q[1..];
          Some([q[0] + 1] + q[1..])
  }

  /** Moves the first step of a path one sibling to the right. */
  function ShiftRight(q: Path): Path
    requires |q| > 0
  {
    [q[0] + 1] + q[1..]
  }

  lemma ShiftRightValid(ns: seq<Node>, q: Path)
    requires |ns| > 0 && ValidPath(ns[1..], q)
    ensures ValidPath(ns, ShiftRight(q)) && At(ns, ShiftRight(q)) == At(ns[1..], q)
  {
    assert ShiftRight(q)[1..] == q[1..];
  }

  lemma ShiftLeftValid(ns: seq<Node>, q: Path)
    requires ValidPath(ns, q) && q[0] > 0
    ensures ValidPath(ns[1..], [q[0] - 1] + q[1..]) && At(ns[1..], [q[0] - 1] + q[1..]) == At(ns, q)
  {
    assert ([q[0] - 1] + q[1..])[1..] == q[1..];
  }

  lemma ChildValid(ns: seq<Node>, q: Path)
    requires ValidPath(ns, q) && |q| > 1
    ensures ns[q[0]].Element? && ValidPath(ns[q[0]].children, q[1..]) && At(ns[q[0]].children, q[1..]) == At(ns, q)
  {
  }

  lemma BeforeCons(i: nat, p: Path, q: Path)
    requires Before([i] + p, [i] + q)
    ensures Before(p, q)
  {
    var p', q' := [i] + p, [i] + q;
    if |p'| < |q'| && p' == q'[..|p'|] {
      forall j | 0 <= j < |p| ensures p[j] == q[j] {
        assert p[j] == p'[j + 1] == q'[..|p'|][j + 1] == q[j];
      }
      assert p == q[..|p|];
    } else {
      var k :| 0 <= k < |p'| && k < |q'| && p'[..k] == q'[..k] && p'[k] < q'[k];
      assert k > 0;
      forall j | 0 <= j < k - 1 ensures p[j] == q[j] {
        assert p[j] == p'[j + 1] == p'[..k][j + 1] == q'[..k][j + 1] == q[j];
      }
      assert p[..k - 1] == q[..k - 1];
      assert p[k - 1] == p'[k] && q[k - 1] == q'[k];
    }
  }

  lemma BeforeShift(p: Path, q: Path)
    requires |p| > 0 && |q| > 0 && p[0] > 0 && q[0] > 0
    requires Before(p, q)
    ensures Before([p[0] - 1] + p[1..], [q[0] - 1] + q[1..])
  {
    var p', q' := [p[0] - 1] + p[1..], [q[0] - 1] + q[1..];
    if |p| < |q| && p == q[..|p|] {
      assert p' == q'[..|p'|];
    } else {
      var k :| 0 <= k < |p| && k < |q| && p[..k] == q[..k] && p[k] < q[k];
      if k == 0 {
        assert p'[..0] == q'[..0] && p'[0] < q'[0];
      } else {
        assert p'[..k] == q'[..k] by {
          assert p[0] == q[0];
          forall j | 0 <= j < k ensures p'[j] == q'[j] {
            assert p[j] == p[..k][j] == q[..k][j] == q[j];
          }
        }
        assert p'[k] == p[k] && q'[k] == q[k];
      }
    }
  }

  /** A path that starts further right at the top level is never before one that starts at the first node. */
  lemma NotBeforeFirst(q: Path, r: Path)
    requires |q| > 0 && |r| > 0 && q[0] > 0 && r[0] == 0
    ensures !Before(q, r)
  {
  }

  /** The inductive step of `FirstPathFinds` for a path into the first node's children. */
  lemma FirstPathFindsInFirst(ns: seq<Node>, tag: string, q: Path)
    requires ValidPath(ns, q) && |q| > 1 && q[0] == 0 && !Tagged(ns[0], tag)
    requires ns[0].Element? && FirstPath(ns[0].children, tag).Some?
    requires !Before(q[1..], FirstPath(ns[0].children, tag).value)
    ensures FirstPath(ns, tag).Some? && !Before(q, FirstPath(ns, tag).value)
  {
    var inner := FirstPath(ns[0].children, tag).value;
    assert FirstPath(ns, tag) == Some([0] + inner);
    if Before(q, [0] + inner) {
      assert q == [0] + q[1..];
      BeforeCons(0, q[1..], inner);
    }
  }

  /** The inductive step of `FirstPathFinds` for a path that starts right of the first node. */
  lemma FirstPathFindsInRest(ns: seq<Node>, tag: string, q: Path)
    requires ValidPath(ns, q) && q[0] > 0
    requires !Tagged(ns[0], tag) && !(ns[0].Element? && FirstPath(ns[0].children, tag).Some?)
    requires FirstPath(ns[1..], tag).Some? && !Before([q[0] - 1] + q[1..], FirstPath(ns[1..], tag).value)
    ensures FirstPath(ns, tag).Some? && !Before(q, FirstPath(ns, tag).value)
  {
    var t := FirstPath(ns[1..], tag).value;
    var r := ShiftRight(t);
    assert FirstPath(ns, tag) == Some(r);
    assert [r[0] - 1] + r[1..] == t;
    if Before(q, r) {
      BeforeShift(q, r);
    }
  }

  /** Whatever element tagged `tag` the forest holds, `FirstPath` finds one, and not one after it. */
  lemma {:induction false} FirstPathFinds(ns: seq<Node>, tag: string, q: Path)
    requires ValidPath(ns, q) && Tagged(At(ns, q), tag)
    ensures FirstPath(ns, tag).Some? && !Before(q, FirstPath(ns, tag).value)
    decreases ns
  {
    if q[0] == 0 {
      if Tagged(ns[0], tag) {
        assert FirstPath(ns, tag) == Some([0]);
      } else {
        ChildValid(ns, q);
        FirstPathFinds(ns[0].children, tag, q[1..]);
        FirstPathFindsInFirst(ns, tag, q);
      }
    } else if Tagged(ns[0], tag) || (ns[0].Element? && FirstPath(ns[0].children, tag).Some?) {
      NotBeforeFirst(q, FirstPath(ns, tag).value);
    } else {
      ShiftLeftValid(ns, q);
      FirstPathFinds(ns[1..], tag, [q[0] - 1] + q[1..]);
      FirstPathFindsInRest(ns, tag, q);
    }
  }

  /**
    `FirstPath` is the document-order search that `find` performs: it finds
    nothing exactly when no element carries the tag, and no element carrying the
    tag comes before the one it finds.
  */
  lemma FirstPathIsFirst(ns: seq<Node>, tag: string)
    ensures FirstPath(ns, tag).None? <==> NoneTagged(ns, tag)
    ensures FirstPath(ns, tag).Some? ==>
      forall q :: ValidPath(ns, q) && Tagged(At(ns, q), tag) ==> !Before(q, FirstPath(ns, tag).value)
  {
    forall q | ValidPath(ns, q) && Tagged(At(ns, q), tag)
      ensures FirstPath(ns, tag).Some? && !Before(q, FirstPath(ns, tag).value)
    {
      FirstPathFinds(ns, tag, q);
    }
  }

  /** When the first node neither carries the tag nor holds it, the search continues in the siblings. */
  lemma FirstPathPastHead(ns: seq<Node>, tag: string)
    requires |ns| > 0 && !Tagged(ns[0], tag) && !(ns[0].Element? && FirstPath(ns[0].children, tag).Some?)
    ensures FirstPath(ns, tag) == (
      match FirstPath(ns[1..], tag)
      case None => None
      case Some(q) => Some(ShiftRight(q)))
  {
  }

  /** Searching `a + b` when `a` holds no element tagged `tag` finds what searching `b` finds, shifted past `a`. */
  lemma {:induction false} FirstPathSkip(a: seq<Node>, b: seq<Node>, tag: string)
    requires FirstPath(a, tag).None?
    ensures FirstPath(a + b, tag) == (
      match FirstPath(b, tag)
      case None => None
      case Some(q) => Some([q[0] + |a|] + q[1..]))
    decreases a
  {
    if |a| == 0 {
      assert a + b == b;
      match FirstPath(b, tag) {
        case None =>
        case Some(q) => assert [q[0] + |a|] + q[1..] == q;
      }
    } else {
      var ab := a + b;
      assert ab[0] == a[0];
      assert ab[1..] == a[1..] + b;
      FirstPathPastHead(a, tag);
      FirstPathPastHead(ab, tag);
      FirstPathSkip(a[1..], b, tag);
      match FirstPath(b, tag) {
        case None =>
        case Some(q) =>
          var s := [q[0] + |a[1..]|] + q[1..];
          assert ShiftRight(s) == [q[0] + |a|] + q[1..];
      }
    }
  }

  lemma PutShift(ns: seq<Node>, q: Path, m: Node)
    requires |ns| > 0 && ValidPath(ns[1..], q)
    ensures ValidPath(ns, ShiftRight(q))
    ensures Put(ns, ShiftRight(q), m) == [ns[0]] + Put(ns[1..], q, m)
  {
    ShiftRightValid(ns, q);
    var p := ShiftRight(q);
    assert p[1..] == q[1..];
  }

  /**
    Replacing the first element tagged `tag` by another element with that tag
    leaves it the first: later `find` calls return the same handle.
  */
  lemma {:induction false} FirstPathStable(ns: seq<Node>, tag: string, m: Node)
    requires FirstPath(ns, tag).Some? && Tagged(m, tag)
    ensures FirstPath(Put(ns, FirstPath(ns, tag).value, m), tag) == FirstPath(ns, tag)
    decreases ns
  {
    var p := FirstPath(ns, tag).value;
    var r := Put(ns, p, m);
    if Tagged(ns[0], tag) {
      assert r[0] == m;
    } else if ns[0].Element? && FirstPath(ns[0].children, tag).Some? {
      var iv := FirstPath(ns[0].children, tag).value;
      assert p[1..] == iv;
      FirstPathStable(ns[0].children, tag, m);
      assert r[0] == ns[0].(children := Put(ns[0].children, iv, m));
    } else {
      var t := FirstPath(ns[1..], tag).value;
      assert p == ShiftRight(t);
      PutShift(ns, t, m);
      FirstPathStable(ns[1..], tag, m);
      assert r[0] == ns[0] && r[1..] == Put(ns[1..], t, m);
    }
  }

  /**
    bs4's attribute chain `doc.a.b...`, which Python evaluates left to right as
    `(doc.a).b...`: each link is the first element with its tag among the
    descendants of the element the links before it found. `None` when any link
    of the chain finds nothing (where Python would fail on `None`).
  */
  function Select(ns: seq<Node>, chain: seq<string>): (r: Option<Path>)
    requires |chain| > 0
    ensures r.Some? ==> ValidPath(ns, r.value) && Tagged(At(ns, r.value), chain[|chain| - 1])
    ensures r.Some? ==>
      && FirstPath(ns, chain[0]).Some?
      && |FirstPath(ns, chain[0]).value| <= |r.value|
      && r.value[..|FirstPath(ns, chain[0]).value|] == FirstPath(ns, chain[0]).value
    decreases |chain|
  {
    if |chain| == 1 then FirstPath(ns, chain[0])
    else
      var init := chain[..|chain| - 1];
      assert init[0] == chain[0];
      match Select(ns, init)
      case None => None
      case Some(prev) =>
        match FirstPath(At(ns, prev).children, chain[|chain| - 1])
        case None => None
        case Some(s) =>
          PathConcat(ns, prev, s);
          assert (prev + s)[..|prev|] == prev;
          var head := FirstPath(ns, chain[0]).value;
          assert (prev + s)[..|head|] == prev[..|head|];
          Some(prev + s)
  }

  /**
    A chain finds nothing exactly when the chain without its last link finds
    nothing or the element it finds holds no descendant with the last tag;
    otherwise the last link is the first such descendant in document order.
  */
  lemma SelectStep(ns: seq<Node>, chain: seq<string>)
    requires |chain| > 1
    ensures var prev := Select(ns, chain[..|chain| - 1]);
      Select(ns, chain).Some? <==>
        prev.Some? && !NoneTagged(At(ns, prev.value).children, chain[|chain| - 1])
    ensures var prev := Select(ns, chain[..|chain| - 1]);
      Select(ns, chain).Some? ==>
        && prev.Some?
        && |prev.value| < |Select(ns, chain).value|
        && Select(ns, chain).value[..|prev.value|] == prev.value
        && var kids := At(ns, prev.value).children;
           var s := Select(ns, chain).value[|prev.value|..];
           && ValidPath(kids, s)
           && Tagged(At(kids, s), chain[|chain| - 1])
           && forall q :: ValidPath(kids, q) && Tagged(At(kids, q), chain[|chain| - 1]) ==> !Before(q, s)
  {
    var prev := Select(ns, chain[..|chain| - 1]);
    if prev.Some? {
      var kids := At(ns, prev.value).children;
      FirstPathIsFirst(kids, chain[|chain| - 1]);
      match FirstPath(kids, chain[|chain| - 1])
      case None =>
      case Some(s) =>
        assert Select(ns, chain).value == prev.value + s;
        assert (prev.value + s)[|prev.value|..] == s;
        assert (prev.value + s)[..|prev.value|] == prev.value;
    }
  }
}

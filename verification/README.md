# zotero-my-publications, modelled in Dafny

`zotero-my-publications.py` turns a Zotero user's "My Publications" list into
one static HTML page. It fetches every item with its rendered Chicago
author-date citation (`bib`) and its data, and the list of item types with
their localized labels. For each item it rewrites the citation fragment:

- it unwraps the nested `div`;
- it turns the container into a `p` without its hanging-indent `style`;
- it appends one `[title]` link per child attachment and a `blockquote` with
  the abstract.

It then files the fragment into a `section id=<itemType>`. That section
starts with an `h2` holding the type's label and is created the first time
the type is met.

This project models that core (lines 84-126 of the script):

- `Catalog`: the item-type dictionary built at lines 84-86.
- `Html`: a BeautifulSoup-like document tree. A document is a forest of
  `Element`/`Text` nodes, and a tag handle is a path of child indices.
  Attribute access `doc.x` is the document-order search `find('x')`
  (`FirstPath`, chained by `Select`). `unwrap`, `.name =`, `del tag[a]` and
  `append` are pure edits (`Unwrap`, `Rename`, `RemoveAttr`, `Append`).
- `Fragment`: the per-item normalisation of lines 91-114.
- `Sections`: the find-or-create grouping of lines 116-126, with a reference
  definition (`Expected`) of what the loop builds.
- `Publications`: the whole loop (`Run`/`Publish`), its failure behaviour,
  and the mounting of the sections in the page container (line 124).
- `Faults` and `Wrappers`: the ways a run aborts, and `Option`/`Result`.

Python exceptions become `Failure` values:

- `MissingElement(chain)` when an attribute chain such as `bib.div.div`
  finds nothing, so that Python would dereference `None`;
- `UnknownItemType(code)` for the `KeyError` of `item_types_dict[itemType]`
  at line 121.

Inputs that the script fetches over the network are parameters:

- the items, as `Record`s;
- the item-type list, as `TypeEntry`s;
- the children answers, as a map from item key to attachments.

What the code does, step by step, where it is easy to misread:

- Line 93 carries the comment "remove the bibliography wrapper", but the chain
  `bib.div.div` reaches the *inner* `div`, so it is the inner element that
  `unwrap` replaces by its children. Line 94 then renames the first `div` in
  document order, the outer one, to `p`, and line 95 deletes `style` from the
  first `p`. When no `p` precedes the outer `div` in the fragment, that `p` is
  the renamed container: it keeps the outer element's attributes other than
  `style`, and the inner `div`'s indent goes away with the inner element.
  `Fragment.StripWrapperShape` states this.
- Line 124 appends each new section to `out.html.body.div`, the first `div`
  of the page body, after that container's existing children
  (`Publications.Mount`).
- The catalog is consulted only when a section must be created. An item
  whose type has no label therefore fails only if it is the first of its
  type (`Sections.ExistingSectionNeedsNoLabel`). Since a section only exists
  after a labelled item created it, a run still fails exactly when some
  item's type lacks a label (`Publications.PublishOutcome`).

## Model

| member | source | states |
|---|---|---|
| Catalog.LabelMap | zotero-my-publications.py:84-86 | the dictionary's keys are exactly the codes of the item-type list, and a code listed several times maps to the label of its last entry |
| Catalog.LabelMapValues | zotero-my-publications.py:84-86 | every code of the list has, in the dictionary, the label of the last entry carrying that code |
| Html.FirstPathIsFirst | zotero-my-publications.py:93-95 | attribute access finds nothing exactly when no element carries the tag, and otherwise no element carrying the tag precedes the one found in document order |
| Html.FirstPathStable | zotero-my-publications.py:94-95 | replacing the element that `find` returned by another element with the same tag leaves `find` returning the same position |
| Html.Select | zotero-my-publications.py:124 | an attribute chain such as `html.body.div` yields an element with the last tag of the chain, lying inside the element found by the chain's first link |
| Html.SelectStep | zotero-my-publications.py:124 | a chain finds nothing exactly when its prefix finds nothing or the element the prefix found holds no descendant with the last tag; otherwise its path extends the prefix's path by a descendant with the last tag that no other such descendant precedes in document order |
| Html.Unwrap | zotero-my-publications.py:93 | `unwrap` replaces the element by its own children, in order, between its former siblings; the parent keeps its tag and attributes, and outside the parent nothing else in the document changes: every node apart from the parent stays where it was, unchanged, no node is added beside the parent, and every element above the parent keeps its tag and attributes |
| Html.Rename | zotero-my-publications.py:94 | renaming keeps the element's attributes and children and changes only its tag; nothing else in the document changes: every node apart from it stays where it was, unchanged, no node is added beside it, and every element above it keeps its tag and attributes |
| Html.RemoveAttr | zotero-my-publications.py:95 | `del tag['style']` drops that attribute and keeps every other one; an absent attribute is no error; nothing else in the document changes: every node apart from it stays where it was, unchanged, no node is added beside it, and every element above it keeps its tag and attributes |
| Html.Append | zotero-my-publications.py:107 | `append` puts the new nodes after the element's existing children, keeping its tag and attributes; nothing else in the document changes: every node apart from it stays where it was, unchanged, no node is added beside it, and every element above it keeps its tag and attributes |
| Html.PutElsewhere | zotero-my-publications.py:94-95 | renaming, deleting an attribute or appending edits one element in place: every node on a path apart from it stays where it was, unchanged |
| Html.PutFrame | zotero-my-publications.py:93-95 | replacing one element in place keeps every node apart from it, adds no node beside it, and keeps the tag and attributes of every element above it |
| Html.FramedIsPut | zotero-my-publications.py:93-95 | those frame conditions leave nothing open: a document meeting them around an element is the original with only that element replaced |
| Fragment.StripWrapper | zotero-my-publications.py:93-95 | the citation is rewritten exactly when the first `div` in document order holds a `div`, and otherwise fails on the chain `div.div`; the result has a paragraph without `style` |
| Fragment.StripWrapperShape | zotero-my-publications.py:93-95 | on a fragment that starts with an outer `div` whose children hold a nested `div` (with no `div` before it), the nested children take its place in order, and the outer element becomes a `p` with every attribute but `style` and every other child kept |
| Fragment.AppendToParagraph | zotero-my-publications.py:107 | `bib.p.append(x)` fails, on the lookup `p`, exactly when the fragment has no `p`; otherwise the first `p` stays the first `p`, keeps its tag and attributes and gains the nodes after its children, and nothing else in the fragment changes: every node apart from it stays where it was, unchanged, no node is added beside it, and every element above it keeps its tag and attributes |
| Fragment.AppendKeepsParagraph | zotero-my-publications.py:107 | after an append, `bib.p` still finds the same paragraph, so repeated appends go to one element |
| Fragment.AppendLinksAtOnce | zotero-my-publications.py:99-107 | the per-attachment appends add one link per attachment to the paragraph's end, in attachment order |
| Fragment.LinkedChildren | zotero-my-publications.py:100-110 | a paragraph holding the citation, then the links, then the quote has, child by child, the `href` rule (non-empty `url`, else the self link plus `/file/view`), the bracketed title, and, when the abstract is present and not empty, the `mx-3` blockquote with its text last |
| Fragment.AppendDecorates | zotero-my-publications.py:99-114 | appending the links and then the quoted abstract to a paragraph decorates it with its citation content first, the links next and the abstract last |
| Fragment.NormalizeParagraph | zotero-my-publications.py:91-114 | once the wrapper is stripped, normalisation succeeds; the paragraph has no `style`, and it holds the citation content, then a link per attachment only when `numChildren > 0`, then one more child, the `mx-3` blockquote with the text of `abstractNote`, when that is present and not the empty string, and no further child otherwise |
| Fragment.NormalizeAppends | zotero-my-publications.py:91-114 | normalisation fails exactly when wrapper stripping does; otherwise the result is the stripped fragment with the consulted links and then the abstract appended to its paragraph, and nothing else changed |
| Sections.FindSection | zotero-my-publications.py:117 | the lookup returns the first section whose `id` is the code, or nothing exactly when no section carries it |
| Sections.Place | zotero-my-publications.py:116-126 | placing a fragment fails exactly when no section has the type and the catalog lacks it, and then with that code |
| Sections.ExistingSectionNeedsNoLabel | zotero-my-publications.py:117-126 | appending to an existing section succeeds, and its outcome does not depend on the catalog |
| Sections.FirstSeenSpec | zotero-my-publications.py:116-124 | the section order lists each occurring type once, ordered by each type's first occurrence |
| Sections.GroupIsExpected | zotero-my-publications.py:116-126 | the loop succeeds exactly when every type has a label, and then builds one section per type in first-seen order, each with its heading and then that type's fragments in record order |
| Sections.GroupFailsAtFirstUnknown | zotero-my-publications.py:118-121 | when a type lacks a label, the loop fails with the code of the first record whose type lacks one |
| Sections.GroupShape | zotero-my-publications.py:116-126 | after a successful loop every type has a label, no two sections share an id, every section's id is a record's type, every record's type has a section, and sections are ordered by first occurrence |
| Sections.GroupContents | zotero-my-publications.py:119-126 | every section is `section id=code` holding the `h2` with the code's label and then exactly the fragments of that code, in record order |
| Sections.GroupKeepsEveryFragment | zotero-my-publications.py:123-126 | the nodes after the headings, over all sections, number as many as the nodes of all fragments: nothing is lost or duplicated |
| Sections.GroupCountsEveryRecord | zotero-my-publications.py:116-126 | summing over the sections the records of each section's type gives the number of records: each record lands in exactly one section |
| Publications.RunIsGroup | zotero-my-publications.py:90-126 | when every citation normalises, interleaving normalisation with placement equals normalising all records and then grouping |
| Publications.RunStopsAtFirstBreak | zotero-my-publications.py:90-126 | the run aborts at the first record whose citation lacks its nested `div` or whose type lacks a label, with that record's fault, the citation fault taking precedence |
| Publications.RunFailsIffBreak | zotero-my-publications.py:90-126 | the run fails exactly when some record breaks it |
| Publications.NoSectionWithoutLabel | zotero-my-publications.py:116-121 | a run without a breaking record succeeds, and no section exists for a code the catalog lacks |
| Publications.PublishOutcome | zotero-my-publications.py:84-126 | the whole run fails exactly when some citation lacks its nested `div` or some item type is missing from the item-type list; otherwise its sections are the grouping of the normalised fragments |
| Publications.RenderOutcome | zotero-my-publications.py:84-126 | the page is rendered exactly when every citation has its nested `div`, every item type is in the item-type list and the page has its container; it then holds the grouping of the normalised fragments in that container, and a failing loop's fault comes first |
| Publications.Mount | zotero-my-publications.py:124 | the sections go after the existing children of the body's first `div`, keeping its attributes, and nothing else in the page changes: every node apart from it stays where it was, unchanged, no node is added beside it, and every element above it keeps its tag and attributes; mounting fails, on the chain `html.body.div`, exactly when the page has no such `div` |
| Publications.ReportNormalizes | zotero-my-publications.py:91-114 | `<div><div style="margin-left:0.5in">Doe, J. (2020). Title.</div></div>` with abstract "An abstract." and no children becomes a `p` with the text followed by the `mx-3` blockquote |
| Publications.ReportExample | zotero-my-publications.py:84-126 | that single `report` record, with the catalog `report: Report`, yields the one section `section id=report` holding `h2` "Report" and the paragraph |
| Publications.GroupingExample | zotero-my-publications.py:116-126 | records of types book, article, book yield two sections, book first with both book fragments in record order, then article |

## Left out

- Fetching with pyzotero (lines 71-83, 98): the items, the item types and the children answers are parameters. Pagination, the query parameters and API errors are not modelled.
- Parsing and serialising HTML (lines 88, 91, 135): citations arrive as already-parsed node forests. `prettify` and the whitespace text nodes a parser may produce are not modelled.
- The page template and its formatting (lines 27-61): `Mount` takes any page.
- The generation timestamp (lines 129-132): it reads the clock and touches only the footer.
- Writing the output file (lines 134-135): file I/O.
- Sections.FindSection: searches the sections built so far rather than the whole output document as `out.find(id=...)` does at line 117. The two agree because the template carries no `id` attributes and the API's citation fragments carry none that equal an item-type code; the model assumes the latter.
- Publications.Run: collects the sections and mounts them after the loop, rather than attaching each new section to the page as it is created. Apart from the lookup at line 117, covered by the Sections.FindSection line, the loop does not read the page, so the outcome is the same except when the page lacks its container, where the script fails at the first new section and the model fails at mounting.
- Fragment.Normalize: an attachment whose data lacks `url` would raise `KeyError` at line 101 in the script. The model gives every attachment a `url`, possibly empty.
- Fragment.AttachmentsOf: treats a key with no answer in the children map as having no attachments.
- Catalog.LabelMap: entries are well-formed pairs. A list element lacking `itemType` or `localized` (a `KeyError` at line 86) is not modelled.
- Sections.GroupKeepsEveryFragment: measures a fragment by its top-level nodes. `Sections.GroupContents` gives the full contents.
- Line 118 tests `not i` on a found tag. A bs4 tag is always true, so the test is modelled as "no section found".

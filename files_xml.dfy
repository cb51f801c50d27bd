/**
 * A typed model of the `files.xml` manifest of a bag. The document's `files`
 * element holds `file` entries; each entry has a `filepath` attribute and
 * leaf child elements (tag name and text), among them `dct:identifier`,
 * `accessibleToRights` and `visibleToRights`.
 */
module FilesXml {

  const IdentifierTag := "dct:identifier"
  const AccessibleTag := "accessibleToRights"
  const VisibleTag := "visibleToRights"

  /** A leaf element: its tag name and its text content. */
  datatype Element = Element(tag: string, text: string)

  /** A `file` entry: its `filepath` attribute and its child elements, in document order. */
  datatype FileElement = FileElement(filepath: string, children: seq<Element>)

  /** The rights an entry grants: the texts of its `accessibleToRights` and `visibleToRights` children. */
  datatype Rights = Rights(accessible: string, visible: string)

  /** A `dct:identifier` element of the document: its text and the entry it belongs to. */
  datatype IdentifierNode = IdentifierNode(text: string, parent: FileElement)

  /** The in-memory document; `files` are the children of its (first) `files` element. */
  class Document {
    var files: seq<FileElement>

    constructor (files: seq<FileElement>)
      ensures this.files == files
    {
      this.files := files;
    }
  }

  /** The position of the first child at or after `start` with tag `tag`, or -1. */
  function FirstIndexFrom(children: seq<Element>, tag: string, start: nat): (i: int)
    requires start <= |children|
    ensures i == -1 || start <= i < |children|
    ensures 0 <= i ==> children[i].tag == tag
    ensures forall j :: start <= j < |children| && (i == -1 || j < i) ==> children[j].tag != tag
    decreases |children| - start
  {
    if start == |children| then -1
    else if children[start].tag == tag then start
    else FirstIndexFrom(children, tag, start + 1)
  }

  /** The position of the first child with tag `tag`, or -1 (`getElementsByTagName(tag).item(0)`). */
  function FirstIndex(children: seq<Element>, tag: string): (i: int)
    ensures -1 <= i < |children|
    ensures 0 <= i ==> children[i].tag == tag
    ensures forall j :: 0 <= j < |children| && (i == -1 || j < i) ==> children[j].tag != tag
  {
    FirstIndexFrom(children, tag, 0)
  }

  predicate HasChild(e: FileElement, tag: string) {
    FirstIndex(e.children, tag) >= 0
  }

  /** The first child of `e` with tag `tag`. */
  function FirstChild(e: FileElement, tag: string): (c: Element)
    requires HasChild(e, tag)
    ensures c in e.children && c.tag == tag
  {
    e.children[FirstIndex(e.children, tag)]
  }

  predicate HasRights(e: FileElement) {
    HasChild(e, AccessibleTag) && HasChild(e, VisibleTag)
  }

  function RightsOf(e: FileElement): (rights: Rights)
    requires HasRights(e)
  {
    Rights(FirstChild(e, AccessibleTag).text, FirstChild(e, VisibleTag).text)
  }

  /** The `dct:identifier` children among `children`, in order, each paired with `parent`. */
  function IdentifiersIn(children: seq<Element>, parent: FileElement): (ids: seq<IdentifierNode>)
    ensures |ids| <= |children|
  {
    if children == [] then []
    else
      (if children[0].tag == IdentifierTag then [IdentifierNode(children[0].text, parent)] else [])
      + IdentifiersIn(children[1..], parent)
  }

  /** `getElementsByTagName("dct:identifier")` over the entries: every identifier element in document order. */
  function IdentifierElements(files: seq<FileElement>): (nodes: seq<IdentifierNode>)
  {
    if files == [] then []
    else IdentifiersIn(files[0].children, files[0]) + IdentifierElements(files[1..])
  }

  lemma {:induction false} IdentifiersInMembership(children: seq<Element>, parent: FileElement, n: IdentifierNode)
    ensures n in IdentifiersIn(children, parent) <==> n.parent == parent && Element(IdentifierTag, n.text) in children
  {
    if children != [] {
      IdentifiersInMembership(children[1..], parent, n);
      assert children == [children[0]] + children[1..];
    }
  }

  /** An identifier node is found exactly for each `dct:identifier` child of each entry. */
  lemma {:induction false} IdentifierElementsMembership(files: seq<FileElement>, n: IdentifierNode)
    ensures n in IdentifierElements(files) <==> n.parent in files && Element(IdentifierTag, n.text) in n.parent.children
  {
    if files != [] {
      IdentifiersInMembership(files[0].children, files[0], n);
      IdentifierElementsMembership(files[1..], n);
      assert files == [files[0]] + files[1..];
    }
  }

  /** The identifier scan of a concatenation is the concatenation of the scans. */
  lemma {:induction false} IdentifierElementsAppend(a: seq<FileElement>, b: seq<FileElement>)
    ensures IdentifierElements(a + b) == IdentifierElements(a) + IdentifierElements(b)
  {
    if a == [] {
      assert a + b == b;
    } else {
      assert (a + b)[0] == a[0];
      assert (a + b)[1..] == a[1..] + b;
      IdentifierElementsAppend(a[1..], b);
    }
  }
}

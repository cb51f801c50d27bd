/**
 * The augmenter of `SpringfieldFiles.java`: it indexes the manifest's entries
 * by identifier, copies each derivative file next to its placeholder under the
 * destination naming policy, builds a manifest entry that inherits the
 * placeholder entry's rights, and appends all new entries once every copy has
 * succeeded.
 */
module Springfield {
  import opened Wrappers
  import opened FilenameUtils
  import opened FilesXml

  const StreamingSuffix := "-streaming"

  /** One entry of the request map, in the map's iteration order: identifier and source file. */
  datatype Request = Request(id: string, source: string)

  /** A file copied into the bag. */
  datatype Copy = Copy(source: string, destination: string)

  /** The error logged for an identifier that has no entry in the manifest. */
  datatype Diagnostic = NoFileElement(bag: string, filepath: string)

  // ---------------------------------------------------------------- naming

  /** The destination naming policy of `addPayloadFile`. */
  function Destination(source: string, placeHolder: string): (destination: string)
  {
    var sourceExtension := GetExtension(source);
    var placeHolderExtension := GetExtension(placeHolder);
    var newExtension :=
      if sourceExtension == placeHolderExtension
      then StreamingSuffix + [ExtensionSeparator] + sourceExtension
      else [ExtensionSeparator] + sourceExtension;
    RemoveExtension(placeHolder) + newExtension
  }

  /**
   * The destination splits into the placeholder's stem (with "-streaming"
   * appended when the two extensions agree), a dot and the source's extension.
   */
  lemma DestinationParts(source: string, placeHolder: string)
    ensures var d := Destination(source, placeHolder);
      var same := GetExtension(source) == GetExtension(placeHolder);
      && IndexOfExtension(d) >= 0
      && GetExtension(d) == GetExtension(source)
      && RemoveExtension(d) == RemoveExtension(placeHolder) + (if same then StreamingSuffix else "")
  {
    var ext := GetExtension(source);
    var base := RemoveExtension(placeHolder);
    var infix := if ext == GetExtension(placeHolder) then StreamingSuffix else "";
    assert Destination(source, placeHolder) == base + infix + [ExtensionSeparator] + ext;
    GetExtensionSpec(source);
    JoinExtension(base + infix, ext);
  }

  /** The same-extension case: the placeholder's stem, "-streaming", a dot and the extension. */
  lemma DestinationWhenExtensionsAgree(source: string, placeHolder: string)
    requires GetExtension(source) == GetExtension(placeHolder)
    ensures Destination(source, placeHolder)
         == RemoveExtension(placeHolder) + StreamingSuffix + [ExtensionSeparator] + GetExtension(source)
    ensures Destination(source, placeHolder) != placeHolder
  {
    DestinationParts(source, placeHolder);
    SplitAtExtension(placeHolder);
  }

  /** The differing-extension case: the placeholder's stem, a dot and the source's extension. */
  lemma DestinationWhenExtensionsDiffer(source: string, placeHolder: string)
    requires GetExtension(source) != GetExtension(placeHolder)
    ensures Destination(source, placeHolder)
         == RemoveExtension(placeHolder) + [ExtensionSeparator] + GetExtension(source)
    ensures Destination(source, placeHolder) != placeHolder
  {
    DestinationParts(source, placeHolder);
  }

  /** The destination lies in the placeholder's directory. */
  lemma DestinationKeepsDirectory(source: string, placeHolder: string)
    ensures Directory(Destination(source, placeHolder)) == Directory(placeHolder)
  {
    var infix := if GetExtension(source) == GetExtension(placeHolder) then StreamingSuffix else "";
    assert SeparatorFree(infix) by {
      forall j | 0 <= j < |infix| ensures !IsSeparator(infix[j]) {
      }
    }
    DestinationParts(source, placeHolder);
    StemExtensionKeepsDirectory(Destination(source, placeHolder), placeHolder, infix);
  }

  /** Two sources with different extensions never share a destination for the same placeholder. */
  lemma DestinationsOfDistinctFormatsDiffer(source1: string, source2: string, placeHolder: string)
    requires GetExtension(source1) != GetExtension(source2)
    ensures Destination(source1, placeHolder) != Destination(source2, placeHolder)
  {
    DestinationParts(source1, placeHolder);
    DestinationParts(source2, placeHolder);
  }

  /** The extensions and stems of the names in the two examples below. */
  lemma ExampleNames()
    ensures GetExtension("/tmp/a.mp4") == "mp4"
    ensures GetExtension("media/a.mp4") == "mp4" && RemoveExtension("media/a.mp4") == "media/a"
    ensures GetExtension("x.vtt") == "vtt"
  {
    assert "/tmp/a.mp4" == "/tmp/a" + [ExtensionSeparator] + "mp4";
    assert "media/a.mp4" == "media/a" + [ExtensionSeparator] + "mp4";
    assert "x.vtt" == "x" + [ExtensionSeparator] + "vtt";
    JoinExtension("/tmp/a", "mp4");
    JoinExtension("media/a", "mp4");
    JoinExtension("x", "vtt");
  }

  /** An mp4 source next to an mp4 placeholder gets the streaming suffix. */
  lemma StreamingExample()
    ensures Destination("/tmp/a.mp4", "media/a.mp4") == "media/a-streaming.mp4"
  {
    ExampleNames();
    DestinationWhenExtensionsAgree("/tmp/a.mp4", "media/a.mp4");
    assert "media/a" + StreamingSuffix + [ExtensionSeparator] + "mp4" == "media/a-streaming.mp4";
  }

  /** A vtt source next to an mp4 placeholder takes the placeholder's stem. */
  lemma CaptionExample()
    ensures Destination("x.vtt", "media/a.mp4") == "media/a.vtt"
  {
    ExampleNames();
    DestinationWhenExtensionsDiffer("x.vtt", "media/a.mp4");
    assert "media/a" + [ExtensionSeparator] + "vtt" == "media/a.vtt";
  }

  // ---------------------------------------------------------------- index

  /** The map built by `put`-ting each identifier node in order: later duplicates overwrite earlier ones. */
  function BuildIndex(nodes: seq<IdentifierNode>): (index: map<string, FileElement>)
  {
    if nodes == [] then map[]
    else
      var last := nodes[|nodes| - 1];
      BuildIndex(nodes[..|nodes| - 1])[last.text := last.parent]
  }

  /** Exactly the identifiers found are keys of the index. */
  lemma {:induction false} IndexKeys(nodes: seq<IdentifierNode>)
    ensures BuildIndex(nodes).Keys == set n | n in nodes :: n.text
  {
    if nodes != [] {
      var init := nodes[..|nodes| - 1];
      IndexKeys(init);
      assert nodes == init + [nodes[|nodes| - 1]];
    }
  }

  /** The index maps an identifier to the parent of the last node carrying it. */
  lemma {:induction false} IndexLastWins(nodes: seq<IdentifierNode>, i: nat)
    requires i < |nodes|
    requires forall j :: i < j < |nodes| ==> nodes[j].text != nodes[i].text
    ensures nodes[i].text in BuildIndex(nodes)
    ensures BuildIndex(nodes)[nodes[i].text] == nodes[i].parent
  {
    if i < |nodes| - 1 {
      var init := nodes[..|nodes| - 1];
      assert init[i] == nodes[i];
      IndexLastWins(init, i);
    }
  }

  /** Every pair of the index is an identifier node of the scan. */
  lemma {:induction false} IndexValues(nodes: seq<IdentifierNode>, key: string)
    requires key in BuildIndex(nodes)
    ensures IdentifierNode(key, BuildIndex(nodes)[key]) in nodes
  {
    var last := nodes[|nodes| - 1];
    var init := nodes[..|nodes| - 1];
    if key != last.text {
      IndexValues(init, key);
      assert forall n :: n in init ==> n in nodes;
    }
  }

  /**
   * Over a document: an identifier is indexed exactly when some entry has it
   * as a `dct:identifier` child, and the entry it maps to is such an entry.
   */
  lemma DocumentIndex(files: seq<FileElement>, key: string)
    ensures key in BuildIndex(IdentifierElements(files))
        <==> exists f :: f in files && Element(IdentifierTag, key) in f.children
    ensures key in BuildIndex(IdentifierElements(files)) ==>
      var f := BuildIndex(IdentifierElements(files))[key];
      f in files && Element(IdentifierTag, key) in f.children
  {
    var nodes := IdentifierElements(files);
    IndexKeys(nodes);
    if key in BuildIndex(nodes) {
      IndexValues(nodes, key);
      IdentifierElementsMembership(files, IdentifierNode(key, BuildIndex(nodes)[key]));
    }
    forall f | f in files && Element(IdentifierTag, key) in f.children
      ensures key in BuildIndex(nodes)
    {
      IdentifierElementsMembership(files, IdentifierNode(key, f));
    }
  }

  // ---------------------------------------------------------------- entries

  /** `newRightsElement`: a copy (tag and text) of the old entry's first child with tag `tag`. */
  function NewRightsElement(tag: string, oldFileElement: FileElement): (r: Element)
    requires HasChild(oldFileElement, tag)
    ensures r.tag == tag
    ensures r.text == FirstChild(oldFileElement, tag).text
  {
    var oldRights := FirstChild(oldFileElement, tag);
    Element(oldRights.tag, oldRights.text)
  }

  /** The entry `newFileElement` builds for an old entry: the new path and copies of the two rights children. */
  function NewFileEntry(addedFilePath: string, oldFileElement: FileElement): (entry: FileElement)
    requires HasRights(oldFileElement)
  {
    FileElement(addedFilePath, [
      NewRightsElement(AccessibleTag, oldFileElement),
      NewRightsElement(VisibleTag, oldFileElement)
    ])
  }

  /**
   * The new entry has the new path, exactly an `accessibleToRights` and a
   * `visibleToRights` child in that order, the old entry's rights, and no identifier.
   */
  lemma NewFileEntryInheritsRights(addedFilePath: string, oldFileElement: FileElement)
    requires HasRights(oldFileElement)
    ensures var e := NewFileEntry(addedFilePath, oldFileElement);
      && e.filepath == addedFilePath
      && |e.children| == 2 && e.children[0].tag == AccessibleTag && e.children[1].tag == VisibleTag
      && HasRights(e) && RightsOf(e) == RightsOf(oldFileElement)
      && IdentifiersIn(e.children, e) == []
  {
    var e := NewFileEntry(addedFilePath, oldFileElement);
    assert FirstIndex(e.children, AccessibleTag) == 0;
    assert AccessibleTag[0] != VisibleTag[0];
    assert FirstIndexFrom(e.children, VisibleTag, 1) == 1;
    assert FirstIndex(e.children, VisibleTag) == 1;
  }

  /** `newFileElement`'s result: no entry (null) without an old entry. */
  function NewEntryFor(addedFilePath: string, oldFileElement: Option<FileElement>): (e: Option<FileElement>)
    requires oldFileElement.Some? ==> HasRights(oldFileElement.value)
  {
    match oldFileElement
    case None => None
    case Some(entry) => Some(NewFileEntry(addedFilePath, entry))
  }

  // ---------------------------------------------------------------- the file system

  predicate CanCopy(readable: set<string>, creatable: set<string>, c: Copy) {
    c.source in readable && c.destination in creatable
  }

  /**
   * The file system, as far as the augmenter sees it: which sources can be
   * read, which destinations can be created, and the copies made so far.
   */
  class FileSystem {
    var readable: set<string>
    var creatable: set<string>
    var copied: seq<Copy>

    constructor (readable: set<string>, creatable: set<string>)
      ensures this.readable == readable && this.creatable == creatable && copied == []
    {
      this.readable := readable;
      this.creatable := creatable;
      copied := [];
    }

    /**
     * `FileUtils.copyFile` without `REPLACE_EXISTING`: either the copy happens
     * or an I/O error is raised. A copy creates its destination, which then
     * exists and cannot be created again.
     */
    method CopyFile(source: string, destination: string) returns (ok: bool)
      modifies this`copied, this`creatable
      ensures ok == CanCopy(readable, old(creatable), Copy(source, destination))
      ensures copied == if ok then old(copied) + [Copy(source, destination)] else old(copied)
      ensures creatable == if ok then old(creatable) - {destination} else old(creatable)
    {
      ok := CanCopy(readable, creatable, Copy(source, destination));
      if ok {
        copied := copied + [Copy(source, destination)];
        creatable := creatable - {destination};
      }
    }
  }

  // ---------------------------------------------------------------- the two passes, as values

  /** A request together with the destination the naming policy gives it. */
  datatype Addition = Addition(id: string, source: string, destination: string)

  /** The addition one request asks for: its destination is the one the naming policy gives it. */
  function AdditionOf(r: Request, placeHolders: string -> string): (a: Addition) {
    Addition(r.id, r.source, Destination(r.source, placeHolders(r.id)))
  }

  /**
   * `adds` are the additions `requests` ask for, one per request and in the
   * same order. The quantifier fires only where the naming of a request is
   * asked for, so a proof about `adds` alone never unfolds the naming policy.
   */
  ghost predicate Plans(requests: seq<Request>, placeHolders: string -> string, adds: seq<Addition>) {
    && |adds| == |requests|
    && forall k {:trigger AdditionOf(requests[k], placeHolders)} ::
         0 <= k < |requests| ==> adds[k] == AdditionOf(requests[k], placeHolders)
  }

  /** The additions a request map asks for, in the map's iteration order: every request map has a plan. */
  function Additions(requests: seq<Request>, placeHolders: string -> string): (adds: seq<Addition>)
    ensures Plans(requests, placeHolders, adds)
  {
    seq(|requests|, k requires 0 <= k < |requests| => AdditionOf(requests[k], placeHolders))
  }

  /** A request map has only one plan. */
  lemma PlansAgree(requests: seq<Request>, placeHolders: string -> string, adds: seq<Addition>, adds': seq<Addition>)
    requires Plans(requests, placeHolders, adds) && Plans(requests, placeHolders, adds')
    ensures adds == adds'
  {
    forall k | 0 <= k < |adds|
      ensures adds[k] == adds'[k]
    {
      assert adds[k] == AdditionOf(requests[k], placeHolders);
    }
  }

  function CopyOf(a: Addition): (c: Copy) {
    Copy(a.source, a.destination)
  }

  /** The destinations of the first `n` additions. */
  function Destinations(adds: seq<Addition>, n: nat): (dests: set<string>)
    requires n <= |adds|
  {
    if n == 0 then {} else Destinations(adds, n - 1) + {adds[n - 1].destination}
  }

  /** A path is among the first `n` destinations exactly when one of the first `n` additions has it. */
  lemma {:induction false} DestinationsMembership(adds: seq<Addition>, n: nat, d: string)
    requires n <= |adds|
    ensures d in Destinations(adds, n) <==> exists k :: 0 <= k < n && adds[k].destination == d
  {
    if n > 0 {
      DestinationsMembership(adds, n - 1, d);
    }
  }

  /**
   * The destinations that can still be created when the copy of addition `k`
   * is attempted: every earlier copy (all of which succeeded) created its own.
   */
  function CreatableBefore(adds: seq<Addition>, creatable: set<string>, k: nat): (free: set<string>)
    requires k <= |adds|
    ensures free <= creatable
  {
    creatable - Destinations(adds, k)
  }

  /** One more successful copy takes its destination out of what can be created. */
  lemma CreatableStep(adds: seq<Addition>, creatable: set<string>, k: nat)
    requires k < |adds|
    ensures CreatableBefore(adds, creatable, k + 1) == CreatableBefore(adds, creatable, k) - {adds[k].destination}
  {
  }

  /** The position of the first addition at or after `start` whose copy fails, or `|adds|`. */
  function CopiesCompletedFrom(adds: seq<Addition>, readable: set<string>, creatable: set<string>, start: nat): (n: nat)
    requires start <= |adds|
    ensures start <= n <= |adds|
    ensures forall k :: start <= k < n ==> CanCopy(readable, CreatableBefore(adds, creatable, k), CopyOf(adds[k]))
    ensures n < |adds| ==> !CanCopy(readable, CreatableBefore(adds, creatable, n), CopyOf(adds[n]))
    decreases |adds| - start
  {
    if start == |adds| || !CanCopy(readable, CreatableBefore(adds, creatable, start), CopyOf(adds[start])) then start
    else CopiesCompletedFrom(adds, readable, creatable, start + 1)
  }

  /**
   * How many leading additions copy successfully: pass 1 stops at the first
   * failing copy, and a copy fails when its source cannot be read or its
   * destination cannot be created (or was created by an earlier copy).
   */
  function CopiesCompleted(adds: seq<Addition>, readable: set<string>, creatable: set<string>): (n: nat)
    ensures n <= |adds|
    ensures forall k :: 0 <= k < n ==> CanCopy(readable, CreatableBefore(adds, creatable, k), CopyOf(adds[k]))
    ensures n < |adds| ==> !CanCopy(readable, CreatableBefore(adds, creatable, n), CopyOf(adds[n]))
  {
    CopiesCompletedFrom(adds, readable, creatable, 0)
  }

  /** Pass 1 stops at the first addition whose copy fails, and goes on past every one that succeeds. */
  lemma CopyStep(adds: seq<Addition>, readable: set<string>, creatable: set<string>, i: nat)
    requires i < |adds| && i <= CopiesCompleted(adds, readable, creatable)
    ensures CanCopy(readable, CreatableBefore(adds, creatable, i), CopyOf(adds[i]))
        <==> i < CopiesCompleted(adds, readable, creatable)
  {
  }

  /** Two requests with the same destination: the later copy finds the file the earlier one made, and fails. */
  lemma RepeatedDestinationStops(adds: seq<Addition>, readable: set<string>, creatable: set<string>, j: nat, k: nat)
    requires j < k < |adds| && adds[j].destination == adds[k].destination
    ensures CopiesCompleted(adds, readable, creatable) <= k
  {
    DestinationsMembership(adds, k, adds[k].destination);
  }

  /** Two identifiers whose files both land on `media/a-streaming.mp4`: only the first copy is made. */
  lemma RepeatedDestinationExample()
    ensures var adds := [Addition("urn:1", "/tmp/a.mp4", "media/a-streaming.mp4"),
                         Addition("urn:2", "/tmp/a.mp4", "media/a-streaming.mp4")];
      CopiesCompleted(adds, {"/tmp/a.mp4"}, {"media/a-streaming.mp4"}) == 1
  {
    var adds := [Addition("urn:1", "/tmp/a.mp4", "media/a-streaming.mp4"),
                 Addition("urn:2", "/tmp/a.mp4", "media/a-streaming.mp4")];
    RepeatedDestinationStops(adds, {"/tmp/a.mp4"}, {"media/a-streaming.mp4"}, 0, 1);
    assert CreatableBefore(adds, {"media/a-streaming.mp4"}, 0) == {"media/a-streaming.mp4"};
  }

  /** The copies of the first `n` additions, in order. */
  function CopyLog(adds: seq<Addition>, n: nat): (log: seq<Copy>)
    requires n <= |adds|
    ensures |log| == n
    ensures forall k :: 0 <= k < n ==> log[k] == CopyOf(adds[k])
  {
    if n == 0 then [] else CopyLog(adds, n - 1) + [CopyOf(adds[n - 1])]
  }

  /** The diagnostics logged for those of the first `n` additions whose identifier is not indexed, in order. */
  function MissingLog(bag: string, adds: seq<Addition>, n: nat, index: map<string, FileElement>): (log: seq<Diagnostic>)
    requires n <= |adds|
  {
    if n == 0 then []
    else
      MissingLog(bag, adds, n - 1, index)
      + (if adds[n - 1].id in index then [] else [NoFileElement(bag, adds[n - 1].destination)])
  }

  /** Every indexed identifier among the first `n` additions has both rights children. */
  predicate RightsAvailable(adds: seq<Addition>, n: nat, index: map<string, FileElement>)
    requires n <= |adds|
  {
    forall k :: 0 <= k < n && adds[k].id in index ==> HasRights(index[adds[k].id])
  }

  predicate AllIndexed(adds: seq<Addition>, index: map<string, FileElement>) {
    forall k :: 0 <= k < |adds| ==> adds[k].id in index
  }

  /** The list pass 1 stages for the first `n` additions: one (possibly null) entry each, in order. */
  function Staged(adds: seq<Addition>, n: nat, index: map<string, FileElement>): (staged: seq<Option<FileElement>>)
    requires n <= |adds| && RightsAvailable(adds, n, index)
    ensures |staged| == n
    ensures forall k :: 0 <= k < n ==> (staged[k].Some? <==> adds[k].id in index)
  {
    if n == 0 then []
    else Staged(adds, n - 1, index) + [NewEntryFor(adds[n - 1].destination, Get(index, adds[n - 1].id))]
  }

  lemma {:induction false} StagedAt(adds: seq<Addition>, n: nat, index: map<string, FileElement>, k: nat)
    requires n <= |adds| && RightsAvailable(adds, n, index)
    requires k < n
    ensures Staged(adds, n, index)[k] == NewEntryFor(adds[k].destination, Get(index, adds[k].id))
  {
    if k < n - 1 {
      StagedAt(adds, n - 1, index, k);
    }
  }

  /** The entries of a staged list that holds no null. */
  function Unwrap(staged: seq<Option<FileElement>>): (entries: seq<FileElement>)
    requires forall k :: 0 <= k < |staged| ==> staged[k].Some?
    ensures |entries| == |staged|
    ensures forall k :: 0 <= k < |staged| ==> entries[k] == staged[k].value
  {
    seq(|staged|, k requires 0 <= k < |staged| => staged[k].value)
  }

  /**
   * Each staged entry of an indexed identifier has the computed destination as
   * its path, an `accessibleToRights` and a `visibleToRights` child in that
   * order, and the rights of the indexed entry; an identifier that is not
   * indexed stages null, is still copied and is reported.
   */
  lemma StagedEntry(bag: string, adds: seq<Addition>, index: map<string, FileElement>, k: nat)
    requires RightsAvailable(adds, |adds|, index)
    requires k < |adds|
    ensures var a := adds[k];
      var staged := Staged(adds, |adds|, index)[k];
      if a.id in index then
        && staged.Some?
        && staged.value.filepath == a.destination
        && |staged.value.children| == 2
        && staged.value.children[0].tag == AccessibleTag
        && staged.value.children[1].tag == VisibleTag
        && RightsOf(staged.value) == RightsOf(index[a.id])
      else
        && staged.None?
        && CopyOf(a) in CopyLog(adds, |adds|)
        && NoFileElement(bag, a.destination) in MissingLog(bag, adds, |adds|, index)
  {
    StagedAt(adds, |adds|, index, k);
    if adds[k].id in index {
      NewFileEntryInheritsRights(adds[k].destination, index[adds[k].id]);
    } else {
      MissingLogMembership(bag, adds, |adds|, index, adds[k].destination);
      assert CopyLog(adds, |adds|)[k] == CopyOf(adds[k]);
    }
  }

  /** A diagnostic is logged for a path exactly when one of the first `n` additions has an unindexed identifier and that destination. */
  lemma {:induction false} MissingLogMembership(bag: string, adds: seq<Addition>, n: nat,
                                                index: map<string, FileElement>, path: string)
    requires n <= |adds|
    ensures NoFileElement(bag, path) in MissingLog(bag, adds, n, index)
        <==> exists k :: 0 <= k < n && adds[k].id !in index && adds[k].destination == path
  {
    if n > 0 {
      MissingLogMembership(bag, adds, n - 1, index, path);
    }
  }

  /** The new entries carry no identifier, so appending them leaves the identifier index as it was. */
  lemma IndexSurvivesCommit(files: seq<FileElement>, adds: seq<Addition>, index: map<string, FileElement>)
    requires RightsAvailable(adds, |adds|, index) && AllIndexed(adds, index)
    ensures BuildIndex(IdentifierElements(files + Unwrap(Staged(adds, |adds|, index))))
         == BuildIndex(IdentifierElements(files))
  {
    var added := Unwrap(Staged(adds, |adds|, index));
    IdentifierElementsAppend(files, added);
    forall k | 0 <= k < |added| ensures IdentifiersIn(added[k].children, added[k]) == [] {
      StagedAt(adds, |adds|, index, k);
      NewFileEntryInheritsRights(adds[k].destination, index[adds[k].id]);
    }
    NoIdentifiers(added);
    assert IdentifierElements(files) + [] == IdentifierElements(files);
  }

  lemma {:induction false} NoIdentifiers(entries: seq<FileElement>)
    requires forall k :: 0 <= k < |entries| ==> IdentifiersIn(entries[k].children, entries[k]) == []
    ensures IdentifierElements(entries) == []
  {
    if entries != [] {
      assert forall k :: 0 <= k < |entries| - 1 ==> entries[1..][k] == entries[k + 1];
      NoIdentifiers(entries[1..]);
    }
  }

  // ---------------------------------------------------------------- the augmenter

  class SpringfieldFiles {
    const bagDir: string
    const filesXml: Document
    const idToElement: map<string, FileElement>
    /** The errors logged so far. */
    var logged: seq<Diagnostic>

    /** The index describes the document as it now is. */
    ghost predicate InSync()
      reads filesXml
    {
      idToElement == BuildIndex(IdentifierElements(filesXml.files))
    }

    /** Scans every `dct:identifier` element in document order and maps its text to its entry. */
    constructor (bagDir: string, filesXml: Document)
      ensures this.bagDir == bagDir && this.filesXml == filesXml
      ensures idToElement == BuildIndex(IdentifierElements(filesXml.files))
      ensures logged == []
      ensures unchanged(filesXml)
    {
      this.bagDir := bagDir;
      this.filesXml := filesXml;
      var idElems := IdentifierElements(filesXml.files);
      var index := map[];
      for i := 0 to |idElems|
        invariant index == BuildIndex(idElems[..i])
      {
        assert idElems[..i + 1][..i] == idElems[..i];
        index := index[idElems[i].text := idElems[i].parent];
      }
      assert idElems[..|idElems|] == idElems;
      idToElement := index;
      logged := [];
    }

    /** Copies `source` to the destination the naming policy gives and returns that destination. */
    method AddPayloadFile(fs: FileSystem, source: string, placeHolder: string) returns (destination: string, ok: bool)
      modifies fs`copied, fs`creatable
      ensures destination == Destination(source, placeHolder)
      ensures ok == CanCopy(fs.readable, old(fs.creatable), Copy(source, destination))
      ensures fs.copied == if ok then old(fs.copied) + [Copy(source, destination)] else old(fs.copied)
      ensures fs.creatable == if ok then old(fs.creatable) - {destination} else old(fs.creatable)
    {
      destination := Destination(source, placeHolder);
      ok := fs.CopyFile(source, destination);
    }

    /** Builds the new entry, or logs an error and returns null when there is no old entry. */
    method NewFileElement(addedFilePath: string, oldFileElement: Option<FileElement>) returns (e: Option<FileElement>)
      requires oldFileElement.Some? ==> HasRights(oldFileElement.value)
      modifies this`logged
      ensures e == NewEntryFor(addedFilePath, oldFileElement)
      ensures logged == old(logged) + (if oldFileElement.None? then [NoFileElement(bagDir, addedFilePath)] else [])
    {
      if oldFileElement.None? {
        logged := logged + [NoFileElement(bagDir, addedFilePath)];
        return None;
      }
      e := Some(NewFileEntry(addedFilePath, oldFileElement.value));
    }

    /**
     * One round of the first loop of `addFiles`: copies the file of request
     * `i` and, when the copy is made, builds its entry (logging an error when
     * its identifier is not indexed). A failing copy raises, so nothing is staged.
     */
    method StagePayloadFile(fs: FileSystem, springFieldFiles: seq<Request>, placeHolders: string -> string,
                            ghost adds: seq<Addition>, i: nat)
      returns (newFileElement: Option<FileElement>, copied: bool)
      requires Plans(springFieldFiles, placeHolders, adds) && i < |adds|
      requires CanCopy(fs.readable, fs.creatable, CopyOf(adds[i])) && adds[i].id in idToElement
        ==> HasRights(idToElement[adds[i].id])
      modifies this`logged, fs`copied, fs`creatable
      ensures copied == CanCopy(fs.readable, old(fs.creatable), CopyOf(adds[i]))
      ensures !copied ==> fs.copied == old(fs.copied) && fs.creatable == old(fs.creatable) && logged == old(logged)
      ensures copied ==>
        && fs.copied == old(fs.copied) + [CopyOf(adds[i])]
        && fs.creatable == old(fs.creatable) - {adds[i].destination}
        && logged == old(logged) + (if adds[i].id in idToElement then [] else [NoFileElement(bagDir, adds[i].destination)])
        && newFileElement == NewEntryFor(adds[i].destination, Get(idToElement, adds[i].id))
    {
      var entry := springFieldFiles[i];
      var added;
      added, copied := AddPayloadFile(fs, entry.source, placeHolders(entry.id));
      assert adds[i] == AdditionOf(springFieldFiles[i], placeHolders);
      if !copied {
        return None, false;
      }
      newFileElement := NewFileElement(added, Get(idToElement, entry.id));
    }

    /**
     * The first loop of `addFiles`: copies each file in request order and
     * stages its entry, stopping at the first copy that fails (`ok` false).
     * `adds` stands for the additions the requests ask for.
     */
    method StagePayloadFiles(fs: FileSystem, springFieldFiles: seq<Request>, placeHolders: string -> string,
                             ghost adds: seq<Addition>)
      returns (newFileList: seq<Option<FileElement>>, ok: bool)
      requires Plans(springFieldFiles, placeHolders, adds)
      requires RightsAvailable(adds, CopiesCompleted(adds, fs.readable, fs.creatable), idToElement)
      modifies this`logged, fs`copied, fs`creatable
      ensures var n := CopiesCompleted(adds, fs.readable, old(fs.creatable));
        && ok == (n == |adds|)
        && fs.copied == old(fs.copied) + CopyLog(adds, n)
        && fs.creatable == CreatableBefore(adds, old(fs.creatable), n)
        && logged == old(logged) + MissingLog(bagDir, adds, n, idToElement)
        && (ok ==> newFileList == Staged(adds, |adds|, idToElement))
    {
      ghost var creatable := fs.creatable;
      ghost var n := CopiesCompleted(adds, fs.readable, creatable);
      newFileList := [];
      for i := 0 to |springFieldFiles|
        invariant i <= n
        invariant fs.copied == old(fs.copied) + CopyLog(adds, i)
        invariant fs.creatable == CreatableBefore(adds, creatable, i)
        invariant logged == old(logged) + MissingLog(bagDir, adds, i, idToElement)
        invariant newFileList == Staged(adds, i, idToElement)
      {
        CopyStep(adds, fs.readable, creatable, i);
        CreatableStep(adds, creatable, i);
        var newFileElement, copied := StagePayloadFile(fs, springFieldFiles, placeHolders, adds, i);
        if !copied {
          return newFileList, false;
        }
        newFileList := newFileList + [newFileElement];
      }
      return newFileList, true;
    }

    /** The second loop of `addFiles`: appends every staged entry to the `files` element, in order. */
    method AppendEntries(newFileList: seq<Option<FileElement>>)
      requires forall k :: 0 <= k < |newFileList| ==> newFileList[k].Some?
      modifies filesXml
      ensures filesXml.files == old(filesXml.files) + Unwrap(newFileList)
    {
      ghost var entries := Unwrap(newFileList);
      for j := 0 to |newFileList|
        invariant filesXml.files == old(filesXml.files) + entries[..j]
      {
        assert entries[..j + 1] == entries[..j] + [newFileList[j].value];
        filesXml.files := filesXml.files + [newFileList[j].value];
      }
      assert entries[..|entries|] == entries;
    }

    /**
     * Copies every requested file and stages its entry; only when every copy
     * has succeeded are the staged entries appended, so a failing copy
     * (`ok` false) leaves the document as it was, with the earlier copies made.
     * `adds` stands for the additions the requests ask for (`Additions` and
     * `PlansAgree`: there is exactly one such sequence).
     */
    method AddFiles(fs: FileSystem, springFieldFiles: seq<Request>, placeHolders: string -> string,
                    ghost adds: seq<Addition>)
      returns (ok: bool)
      requires Plans(springFieldFiles, placeHolders, adds)
      requires var n := CopiesCompleted(adds, fs.readable, fs.creatable);
        && RightsAvailable(adds, n, idToElement)
        && (n == |adds| ==> AllIndexed(adds, idToElement))
      modifies this`logged, fs`copied, fs`creatable, filesXml
      ensures var n := CopiesCompleted(adds, fs.readable, old(fs.creatable));
        && ok == (n == |adds|)
        && fs.copied == old(fs.copied) + CopyLog(adds, n)
        && fs.creatable == CreatableBefore(adds, old(fs.creatable), n)
        && logged == old(logged) + MissingLog(bagDir, adds, n, idToElement)
        && (!ok ==> filesXml.files == old(filesXml.files))
        && (ok ==>
              && RightsAvailable(adds, |adds|, idToElement)
              && AllIndexed(adds, idToElement)
              && filesXml.files == old(filesXml.files) + Unwrap(Staged(adds, |adds|, idToElement)))
      ensures old(InSync()) ==> InSync()
    {
      var newFileList;
      newFileList, ok := StagePayloadFiles(fs, springFieldFiles, placeHolders, adds);
      if !ok {
        return;
      }
      // separate loops, so that the document is changed only once every copy is made
      AppendEntries(newFileList);
      if old(InSync()) {
        IndexSurvivesCommit(old(filesXml.files), adds, idToElement);
      }
    }
  }
}

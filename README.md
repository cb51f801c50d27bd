# SpringfieldFiles augmenter, modelled in Dafny

This project models `SpringfieldFiles`, the class that adds derivative media
files produced by Springfield (streaming renditions, caption tracks) to a bag
and registers them in the bag's `files.xml` manifest. It proves properties of
that model. The model has four parts:

- **Identifier index.** The constructor scans every `dct:identifier` element
  of the manifest in document order. It maps each identifier's text to its
  parent `file` entry, and a later duplicate overwrites an earlier one
  (`BuildIndex`; the constructor's loop is proved against it).
- **Destination naming.** `Destination` is the pure naming policy of
  `addPayloadFile`. Take the placeholder's stem. Append `-streaming.` plus the
  extension when the source's and the placeholder's extensions agree, and `.`
  plus the source's extension otherwise. `FilenameUtils` models the two
  commons-io helpers it uses, `getExtension` and `removeExtension`, on
  `seq<char>`.
- **Entry synthesis.** `NewFileEntry` and the method `NewFileElement` build
  the new `file` entry. It carries the destination as `filepath` and copies of
  the old entry's first `accessibleToRights` and `visibleToRights` children,
  in that order. With no old entry, an error is logged and null (`None`) is
  returned.
- **Two-pass stage and commit.** `AddFiles` behaves like `addFiles`.
  - Pass 1 (`StagePayloadFiles`, one request at a time with
    `StagePayloadFile`) copies each file in request order and stages its
    entry.
  - A failing copy raises, which ends the call before pass 2.
  - Pass 2 (`AppendEntries`) appends the staged entries, in order, to the
    document's `files` element.

The mutable state matches the source's objects:
- `SpringfieldFiles` is a class with the index as a constant map, the
  document and the diagnostics logged so far.
- `FilesXml.Document` holds the `files` children as a `seq`.
- `FileSystem` models the file copy as an effect on a log of copies and on
  the set of destinations that can still be created. A copy succeeds exactly
  when the source is readable and the destination can be created. The copy
  does not replace an existing file, so a successful copy takes its
  destination out of that set, and a later request with the same
  destination fails.

The placeholder resolver is a function parameter. The request map is a
sequence of `Request`s in the map's iteration order. `AddFiles`,
`StagePayloadFiles` and `StagePayloadFile` take as a ghost parameter `adds`:
the additions the requests ask for, that is each request's identifier,
source and destination. The precondition `Plans` ties `adds` to the requests.
`Additions` shows that every request map has such a plan, and `PlansAgree`
shows that it has only one. The contracts of the passes are stated through
specification functions of `adds`:
- `CopiesCompleted`: how far pass 1 gets.
- `CopyLog`: the copies made.
- `MissingLog`: the diagnostics logged.
- `Staged`: the staged list.

Pass 2 passes every staged entry to `appendChild`, null included
(SpringfieldFiles.java:61-63), even though a missing entry is otherwise only
reported. `AddFiles` therefore requires every requested identifier to be
indexed whenever pass 2 is reached (see "Left out").

## Model

| member | source | states |
|---|---|---|
| FilenameUtils.IndexOfLastSeparator | src/main/java/nl/knaw/dans/avbag/core/SpringfieldFiles.java:68-69 | commons-io's `indexOfLastSeparator`: the larger of the last '/' and the last '\\', or -1; `IndexOfLastSeparatorIsLast` shows no separator follows it |
| FilenameUtils.IndexOfExtension | src/main/java/nl/knaw/dans/avbag/core/SpringfieldFiles.java:68-69 | commons-io's `indexOfExtension`, as a backward scan; `IndexOfExtensionAsLastIndexOf` and `IndexOfExtensionSpec` tie it to commons-io's formula and say which dot it finds |
| FilenameUtils.GetExtension | src/main/java/nl/knaw/dans/avbag/core/SpringfieldFiles.java:68-69 | `getExtension`: the text after the extension dot, or ""; described by `GetExtensionSpec`, `SplitAtExtension` and `JoinExtension` |
| FilenameUtils.RemoveExtension | src/main/java/nl/knaw/dans/avbag/core/SpringfieldFiles.java:74 | `removeExtension`: the text before the extension dot, or the whole name; described by `SplitAtExtension`, `JoinExtension` and `RemoveExtensionKeepsDirectory` |
| Springfield.Destination | src/main/java/nl/knaw/dans/avbag/core/SpringfieldFiles.java:68-74 | the naming policy of `addPayloadFile`; `DestinationParts`, the two `DestinationWhenExtensions…` lemmas, `DestinationKeepsDirectory` and `DestinationsOfDistinctFormatsDiffer` say what it returns |
| FilesXml.IdentifierElements | src/main/java/nl/knaw/dans/avbag/core/SpringfieldFiles.java:46 | `getElementsByTagName("dct:identifier")` with each node's parent, in document order; `IdentifierElementsMembership` and `IdentifierElementsAppend` describe it |
| Springfield.BuildIndex | src/main/java/nl/knaw/dans/avbag/core/SpringfieldFiles.java:47-50 | the `put` loop as a function; `IndexKeys`, `IndexLastWins`, `IndexValues` and `DocumentIndex` describe the index it builds |
| Springfield.NewFileEntry | src/main/java/nl/knaw/dans/avbag/core/SpringfieldFiles.java:88-93 | the entry `newFileElement` builds for an old entry; `NewFileEntryInheritsRights` describes it |
| Springfield.NewEntryFor | src/main/java/nl/knaw/dans/avbag/core/SpringfieldFiles.java:85-93 | `newFileElement`'s result: null without an old entry, else `NewFileEntry`; `StagedEntry` and `Staged` describe it per request |
| FilenameUtils.IndexOfExtensionAsLastIndexOf | src/main/java/nl/knaw/dans/avbag/core/SpringfieldFiles.java:68-69 | the backward scan for the extension dot gives commons-io's answer: the last '.', or -1 when the last separator comes after it |
| FilenameUtils.IndexOfExtensionSpec | src/main/java/nl/knaw/dans/avbag/core/SpringfieldFiles.java:68-69 | the extension dot is a '.' after the last separator, and no dot or separator follows it; there is none exactly when no dot follows the last separator |
| FilenameUtils.GetExtensionSpec | src/main/java/nl/knaw/dans/avbag/core/SpringfieldFiles.java:68-69 | an extension holds no dot and no separator; a name without an extension dot has extension "" and is its own stem, and conversely |
| FilenameUtils.SplitAtExtension | src/main/java/nl/knaw/dans/avbag/core/SpringfieldFiles.java:68-74 | a name is its stem, a dot and its extension, or is its stem with empty extension when it has no extension dot |
| FilenameUtils.JoinExtension | src/main/java/nl/knaw/dans/avbag/core/SpringfieldFiles.java:68-74 | joining a stem and a dot-free, separator-free extension with a dot splits back into exactly that stem and that extension |
| FilenameUtils.DirectoryIsLongest | src/main/java/nl/knaw/dans/avbag/core/SpringfieldFiles.java:74 | what follows the directory part of a path holds no separator |
| FilenameUtils.RemoveExtensionKeepsDirectory | src/main/java/nl/knaw/dans/avbag/core/SpringfieldFiles.java:74 | removing the extension keeps the last separator and the directory part |
| FilenameUtils.StemExtensionKeepsDirectory | src/main/java/nl/knaw/dans/avbag/core/SpringfieldFiles.java:74 | a name whose stem is another name's stem plus separator-free text lies in that name's directory |
| Springfield.DestinationParts | src/main/java/nl/knaw/dans/avbag/core/SpringfieldFiles.java:67-74 | the destination has an extension, it is the source's extension, and its stem is the placeholder's stem, plus "-streaming" exactly when the two extensions agree |
| Springfield.DestinationWhenExtensionsAgree | src/main/java/nl/knaw/dans/avbag/core/SpringfieldFiles.java:68-74 | equal extensions: the destination is the placeholder's stem + "-streaming." + the extension, and differs from the placeholder |
| Springfield.DestinationWhenExtensionsDiffer | src/main/java/nl/knaw/dans/avbag/core/SpringfieldFiles.java:68-74 | different extensions: the destination is the placeholder's stem + "." + the source's extension, and differs from the placeholder |
| Springfield.DestinationKeepsDirectory | src/main/java/nl/knaw/dans/avbag/core/SpringfieldFiles.java:70-74 | the destination lies in the placeholder's directory |
| Springfield.DestinationsOfDistinctFormatsDiffer | src/main/java/nl/knaw/dans/avbag/core/SpringfieldFiles.java:68-74 | for one placeholder, sources with different extensions get different destinations |
| Springfield.ExampleNames | src/main/java/nl/knaw/dans/avbag/core/SpringfieldFiles.java:68-69 | `/tmp/a.mp4` and `media/a.mp4` have extension `mp4`, `x.vtt` has `vtt`, and `media/a.mp4` has stem `media/a` |
| Springfield.StreamingExample | src/main/java/nl/knaw/dans/avbag/core/SpringfieldFiles.java:68-74 | source `/tmp/a.mp4` with placeholder `media/a.mp4` goes to `media/a-streaming.mp4` |
| Springfield.CaptionExample | src/main/java/nl/knaw/dans/avbag/core/SpringfieldFiles.java:68-74 | source `x.vtt` with placeholder `media/a.mp4` goes to `media/a.vtt` |
| FilesXml.FirstIndex | src/main/java/nl/knaw/dans/avbag/core/SpringfieldFiles.java:97 | `getElementsByTagName(tag).item(0)`: the position of a child with that tag and no earlier one, or -1 when there is none |
| FilesXml.FirstChild | src/main/java/nl/knaw/dans/avbag/core/SpringfieldFiles.java:97 | the child found is a child of the entry and has the tag asked for |
| FilesXml.IdentifiersInMembership | src/main/java/nl/knaw/dans/avbag/core/SpringfieldFiles.java:46 | an identifier node is found among an entry's children exactly for each `dct:identifier` child, with that entry as parent |
| FilesXml.IdentifierElementsMembership | src/main/java/nl/knaw/dans/avbag/core/SpringfieldFiles.java:46 | the document scan finds an identifier node exactly for each `dct:identifier` child of each entry |
| FilesXml.IdentifierElementsAppend | src/main/java/nl/knaw/dans/avbag/core/SpringfieldFiles.java:46 | the identifier scan of two entry lists one after the other is the first scan followed by the second |
| Springfield.IndexKeys | src/main/java/nl/knaw/dans/avbag/core/SpringfieldFiles.java:47-50 | the index's keys are exactly the identifier texts found |
| Springfield.IndexLastWins | src/main/java/nl/knaw/dans/avbag/core/SpringfieldFiles.java:47-50 | an identifier maps to the parent of the last node carrying it: later duplicates overwrite earlier ones |
| Springfield.IndexValues | src/main/java/nl/knaw/dans/avbag/core/SpringfieldFiles.java:47-50 | every pair of the index is an identifier node that was found |
| Springfield.DocumentIndex | src/main/java/nl/knaw/dans/avbag/core/SpringfieldFiles.java:46-50 | an identifier is indexed exactly when some entry has it as a `dct:identifier` child, and it maps to such an entry |
| Springfield.SpringfieldFiles.constructor | src/main/java/nl/knaw/dans/avbag/core/SpringfieldFiles.java:43-51 | the loop builds the index of the document's identifier scan, the document is unchanged and nothing is logged |
| Springfield.NewRightsElement | src/main/java/nl/knaw/dans/avbag/core/SpringfieldFiles.java:96-101 | the copy has the tag asked for and the text of the old entry's first child with that tag |
| Springfield.NewFileEntryInheritsRights | src/main/java/nl/knaw/dans/avbag/core/SpringfieldFiles.java:89-93 | the new entry has the new path, exactly an `accessibleToRights` and a `visibleToRights` child in that order, the old entry's rights, and no identifier |
| Springfield.SpringfieldFiles.NewFileElement | src/main/java/nl/knaw/dans/avbag/core/SpringfieldFiles.java:84-94 | with an old entry it returns the new entry and logs nothing; without one it logs one error naming the bag and the path, and returns null |
| Springfield.FileSystem.CopyFile | src/main/java/nl/knaw/dans/avbag/core/SpringfieldFiles.java:75-80 | the copy succeeds exactly when the source is readable and the destination can be created; only then is it recorded, and its destination can no longer be created |
| Springfield.SpringfieldFiles.AddPayloadFile | src/main/java/nl/knaw/dans/avbag/core/SpringfieldFiles.java:67-82 | returns the destination of the naming policy and attempts exactly that copy |
| Springfield.Additions | src/main/java/nl/knaw/dans/avbag/core/SpringfieldFiles.java:55-56 | every request map has a plan: one addition per request, in order, with the request's identifier and source and the destination the naming policy gives |
| Springfield.PlansAgree | src/main/java/nl/knaw/dans/avbag/core/SpringfieldFiles.java:55-56 | a request map has only one plan |
| Springfield.CopiesCompleted | src/main/java/nl/knaw/dans/avbag/core/SpringfieldFiles.java:55-56 | every copy before the position found succeeds and the copy at it, if any, fails, each judged against the destinations the earlier copies left creatable |
| Springfield.CreatableBefore | src/main/java/nl/knaw/dans/avbag/core/SpringfieldFiles.java:75-80 | what can still be created when a copy is attempted lies within what could be created at the start; `CreatableStep`: each successful copy removes exactly its destination |
| Springfield.CreatableStep | src/main/java/nl/knaw/dans/avbag/core/SpringfieldFiles.java:75-80 | one more successful copy removes its destination from what can still be created |
| Springfield.DestinationsMembership | src/main/java/nl/knaw/dans/avbag/core/SpringfieldFiles.java:55-56 | a path is among the first n destinations exactly when one of the first n additions has it |
| Springfield.RepeatedDestinationStops | src/main/java/nl/knaw/dans/avbag/core/SpringfieldFiles.java:55-58 | when two requests share a destination, pass 1 stops at the later one at the latest: its copy finds the earlier file and fails |
| Springfield.RepeatedDestinationExample | src/main/java/nl/knaw/dans/avbag/core/SpringfieldFiles.java:55-58 | two identifiers mapped to `media/a-streaming.mp4`: the first copy is made and the second fails |
| Springfield.CopyStep | src/main/java/nl/knaw/dans/avbag/core/SpringfieldFiles.java:55-56 | pass 1 goes past a request exactly when that request's copy succeeds |
| Springfield.CopyLog | src/main/java/nl/knaw/dans/avbag/core/SpringfieldFiles.java:56 | the copies of the first n additions, one each, in request order |
| Springfield.Staged | src/main/java/nl/knaw/dans/avbag/core/SpringfieldFiles.java:54-58 | the staged list holds one element per addition, and the element is non-null exactly when the identifier is indexed |
| Springfield.StagedAt | src/main/java/nl/knaw/dans/avbag/core/SpringfieldFiles.java:57-58 | the k-th staged element is the entry built for the k-th addition |
| Springfield.StagedEntry | src/main/java/nl/knaw/dans/avbag/core/SpringfieldFiles.java:56-58 | an indexed request stages an entry with the destination as path, the two rights children in order and the indexed entry's rights; an unindexed one stages null, its file is still copied and an error is logged for it |
| Springfield.MissingLogMembership | src/main/java/nl/knaw/dans/avbag/core/SpringfieldFiles.java:85-87 | an error is logged for a path exactly when a processed request with an unindexed identifier has that destination |
| Springfield.IndexSurvivesCommit | src/main/java/nl/knaw/dans/avbag/core/SpringfieldFiles.java:61-63 | the appended entries carry no identifier, so the index still describes the document after the commit |
| Springfield.SpringfieldFiles.StagePayloadFile | src/main/java/nl/knaw/dans/avbag/core/SpringfieldFiles.java:56-58 | one request: the copy succeeds exactly when it can; on success its entry (or null) is staged and its error, if any, logged; on failure nothing else changes |
| Springfield.SpringfieldFiles.StagePayloadFiles | src/main/java/nl/knaw/dans/avbag/core/SpringfieldFiles.java:54-59 | pass 1 makes exactly the copies up to the first failing one, removes their destinations from what can be created, and logs their errors; it succeeds exactly when no copy fails, and then returns the staged list |
| Springfield.SpringfieldFiles.AppendEntries | src/main/java/nl/knaw/dans/avbag/core/SpringfieldFiles.java:60-64 | pass 2: the `files` children become the old ones followed by the staged entries, in order |
| Springfield.SpringfieldFiles.AddFiles | src/main/java/nl/knaw/dans/avbag/core/SpringfieldFiles.java:53-65 | copies up to the first failing copy; on failure the document is unchanged; on success every copy is made and the staged entries are appended in request order; the index stays in sync with the document |
| Wrappers.Get | src/main/java/nl/knaw/dans/avbag/core/SpringfieldFiles.java:57 | `idToElement.get`: the stored entry when the identifier is a key, null otherwise |

## Left out

- File I/O. `FileUtils.copyFile(source, destination, true, COPY_ATTRIBUTES)`
  keeps the file date and the attributes, and does not replace an existing
  destination. It becomes a success-or-fail effect over two sets: readable
  sources and creatable destinations. A successful copy removes its
  destination from the creatable set. File contents, dates and attributes are
  not modelled, and a copied destination does not become readable.
- An `IOException` from the copy is modelled as a `false` result that ends
  the call. Two other exceptions are ruled out by preconditions: a null staged
  entry and a missing rights child (both below). Three more are not modelled
  at all:
  - `bagDir.getParent()` is null when the bag path has no parent, and the
    first unindexed identifier then raises a `NullPointerException` after its
    copy. The model logs the diagnostic and goes on.
  - A document without a `files` element makes
    `getElementsByTagName("files").item(0)` null, and pass 2 raises after
    every copy is made. `FilesXml.Document` always has the `files` children.
  - `relativize` raises `IllegalArgumentException` when one of its two paths
    is absolute and the other relative. The model has no such case, because it
    leaves `relativize` out (next line).
- `bagDir.relativize(Path.of(destination))` is not modelled. The copy is
  recorded with the destination string itself, which is also the path
  written into the new entry, as in the source.
- Logging. Each diagnostic is a `NoFileElement(bag, path)` value appended to
  `logged`. The bag is the bag directory as given; the source prints the name
  of its parent (`bagDir.getParent().getFileName()`). slf4j formatting is not
  modelled.
- The DOM. `getElementsByTagName` over the whole tree is modelled as a scan of
  the direct children of the entries of the `files` element. Identifiers
  elsewhere in the document and nested elements are not modelled.
  `createElement`, `setAttribute` and `appendChild` become building a
  `FileElement` value and appending it to a `seq`.
- The `PlaceHolders` resolver is not part of this model. It is an arbitrary
  function from identifier to placeholder path.
- The request `Map` is a sequence in its iteration order. The sequence may
  repeat an identifier, which a Java map cannot.
- A null staged entry reaching pass 2. The source passes it to `appendChild`,
  whose effect is up to the DOM library. `AddFiles` therefore requires every
  requested identifier to be indexed whenever every copy succeeds. Pass 1 and
  `StagedEntry` still cover unindexed identifiers: null is staged, the copy
  is made and an error is logged.
- An old entry without an `accessibleToRights` or `visibleToRights` child.
  `item(0)` would return null and fail on use. `AddFiles` and
  `StagePayloadFiles` require both children for every indexed identifier
  among the requests pass 1 reaches.
- commons-io's extra checks in `getExtension` and `removeExtension` are not
  modelled: the rejection of NUL characters and of ':' in Windows names
  (alternate data streams). Both '/' and '\\' count as separators on every
  platform, as in commons-io.

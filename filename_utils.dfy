/**
 * The two filename helpers of Apache commons-io that the augmenter uses,
 * `FilenameUtils.getExtension` and `FilenameUtils.removeExtension`, on plain
 * strings. An extension is the text after the last '.', provided that dot
 * comes after the last path separator ('/' or '\\', both recognised whatever
 * the platform).
 */
module FilenameUtils {

  const ExtensionSeparator := '.'

  predicate IsSeparator(c: char) {
    c == '/' || c == '\\'
  }

  /** No character of `s` is a path separator. */
  predicate SeparatorFree(s: string) {
    forall j :: 0 <= j < |s| ==> !IsSeparator(s[j])
  }

  /** A valid extension holds neither a dot nor a separator. */
  predicate ExtensionLike(s: string) {
    forall j :: 0 <= j < |s| ==> s[j] != ExtensionSeparator && !IsSeparator(s[j])
  }

  /** The last position before `end` where `c` occurs in `s`, or -1. */
  function LastIndexBefore(s: string, c: char, end: nat): (i: int)
    requires end <= |s|
    ensures -1 <= i < end
    ensures 0 <= i ==> s[i] == c
    decreases end
  {
    if end == 0 then -1
    else if s[end - 1] == c then end - 1
    else LastIndexBefore(s, c, end - 1)
  }

  /** `String.lastIndexOf(c)`: the last position of `c` in `s`, or -1. */
  function LastIndexOf(s: string, c: char): (i: int)
    ensures -1 <= i < |s|
    ensures 0 <= i ==> s[i] == c
  {
    LastIndexBefore(s, c, |s|)
  }

  /** Nothing between the position found and `end` is `c`. */
  lemma {:induction false} LastIndexBeforeIsLast(s: string, c: char, end: nat)
    requires end <= |s|
    ensures forall j :: LastIndexBefore(s, c, end) < j < end ==> s[j] != c
    decreases end
  {
    if end > 0 && s[end - 1] != c {
      LastIndexBeforeIsLast(s, c, end - 1);
    }
  }

  /** `lastIndexOf` finds the last occurrence: `c` occurs after it nowhere. */
  lemma LastIndexOfIsLast(s: string, c: char)
    ensures forall j :: LastIndexOf(s, c) < j < |s| ==> s[j] != c
  {
    LastIndexBeforeIsLast(s, c, |s|);
  }

  /** The later of the last '/' and the last '\\' before `end`. */
  function LastSeparatorBefore(s: string, end: nat): (i: int)
    requires end <= |s|
  {
    var unix := LastIndexBefore(s, '/', end);
    var windows := LastIndexBefore(s, '\\', end);
    if unix < windows then windows else unix
  }

  /** `FilenameUtils.indexOfLastSeparator`: the later of the last '/' and the last '\\'. */
  function IndexOfLastSeparator(s: string): (i: int)
    ensures -1 <= i < |s|
    ensures 0 <= i ==> IsSeparator(s[i])
  {
    LastSeparatorBefore(s, |s|)
  }

  /** No separator follows the last separator. */
  lemma IndexOfLastSeparatorIsLast(s: string)
    ensures forall j :: IndexOfLastSeparator(s) < j < |s| ==> !IsSeparator(s[j])
  {
    LastIndexOfIsLast(s, '/');
    LastIndexOfIsLast(s, '\\');
  }

  /**
   * Scanning back from `end`: the position of the first dot met before any
   * separator, or -1 when a separator or the start comes first.
   */
  function ExtensionIndexBefore(s: string, end: nat): (i: int)
    requires end <= |s|
    ensures -1 <= i < end
    ensures 0 <= i ==> s[i] == ExtensionSeparator
    decreases end
  {
    if end == 0 || IsSeparator(s[end - 1]) then -1
    else if s[end - 1] == ExtensionSeparator then end - 1
    else ExtensionIndexBefore(s, end - 1)
  }

  /**
   * `FilenameUtils.indexOfExtension`: the position of the dot that starts the
   * extension, or -1 when no dot follows the last separator.
   */
  function IndexOfExtension(s: string): (i: int)
    ensures -1 <= i < |s|
    ensures 0 <= i ==> s[i] == ExtensionSeparator
  {
    ExtensionIndexBefore(s, |s|)
  }

  lemma {:induction false} ExtensionIndexBeforeAsLastIndexOf(s: string, end: nat)
    requires end <= |s|
    ensures var extensionPos := LastIndexBefore(s, ExtensionSeparator, end);
      ExtensionIndexBefore(s, end) == if LastSeparatorBefore(s, end) > extensionPos then -1 else extensionPos
    decreases end
  {
    if end > 0 && !IsSeparator(s[end - 1]) && s[end - 1] != ExtensionSeparator {
      ExtensionIndexBeforeAsLastIndexOf(s, end - 1);
    }
  }

  /**
   * The scan agrees with commons-io's formulation: the last dot, unless the
   * last separator comes after it.
   */
  lemma IndexOfExtensionAsLastIndexOf(s: string)
    ensures var extensionPos := LastIndexOf(s, ExtensionSeparator);
      IndexOfExtension(s) == if IndexOfLastSeparator(s) > extensionPos then -1 else extensionPos
  {
    ExtensionIndexBeforeAsLastIndexOf(s, |s|);
  }

  /** `FilenameUtils.getExtension`: the extension without its dot, or "" when there is none. */
  function GetExtension(s: string): (ext: string)
  {
    var index := IndexOfExtension(s);
    if index == -1 then "" else s[index + 1..]
  }

  /** `FilenameUtils.removeExtension`: the name without its extension and dot, or the name itself. */
  function RemoveExtension(s: string): (stem: string)
  {
    var index := IndexOfExtension(s);
    if index == -1 then s else s[..index]
  }

  /**
   * The extension starts at a dot after the last separator, and nothing after
   * it is a dot or a separator; there is none exactly when no dot follows
   * the last separator.
   */
  lemma IndexOfExtensionSpec(s: string)
    ensures var i := IndexOfExtension(s);
      && (0 <= i ==> s[i] == ExtensionSeparator && IndexOfLastSeparator(s) < i && ExtensionLike(s[i + 1..]))
      && (i == -1 <==> forall j :: IndexOfLastSeparator(s) < j < |s| ==> s[j] != ExtensionSeparator)
  {
    IndexOfExtensionAsLastIndexOf(s);
    LastIndexOfIsLast(s, ExtensionSeparator);
    IndexOfLastSeparatorIsLast(s);
  }

  /** An extension holds no dot and no separator; a name without one has the empty extension. */
  lemma GetExtensionSpec(s: string)
    ensures ExtensionLike(GetExtension(s))
    ensures IndexOfExtension(s) == -1 <==> GetExtension(s) == "" && RemoveExtension(s) == s
  {
    IndexOfExtensionSpec(s);
  }

  /** The directory part of a path: everything up to and including the last separator. */
  function Directory(s: string): (d: string)
    ensures |d| <= |s| && d == s[..|d|]
  {
    s[..IndexOfLastSeparator(s) + 1]
  }

  /** What follows the directory part holds no separator. */
  lemma DirectoryIsLongest(s: string)
    ensures SeparatorFree(s[|Directory(s)|..])
  {
    IndexOfLastSeparatorIsLast(s);
    var d := Directory(s);
    forall j | 0 <= j < |s[|d|..]| ensures !IsSeparator(s[|d|..][j]) {
      assert s[|d|..][j] == s[|d| + j];
    }
  }

  /** A name with an extension is its stem, a dot and its extension; one without is its stem. */
  lemma SplitAtExtension(s: string)
    ensures IndexOfExtension(s) >= 0 ==> s == RemoveExtension(s) + [ExtensionSeparator] + GetExtension(s)
    ensures IndexOfExtension(s) == -1 ==> s == RemoveExtension(s) && GetExtension(s) == ""
  {
    var i := IndexOfExtension(s);
    if i >= 0 {
      var joined := s[..i] + [ExtensionSeparator] + s[i + 1..];
      forall j | 0 <= j < |s| ensures joined[j] == s[j] {
        if j > i {
          assert joined[j] == s[i + 1..][j - i - 1];
        }
      }
      assert joined == s;
    }
  }

  /** Appending text without separators does not move the last separator. */
  lemma LastSeparatorOfAppend(s: string, t: string)
    requires SeparatorFree(t)
    ensures IndexOfLastSeparator(s + t) == IndexOfLastSeparator(s)
  {
    var r := IndexOfLastSeparator(s + t);
    var r' := IndexOfLastSeparator(s);
    IndexOfLastSeparatorIsLast(s + t);
    IndexOfLastSeparatorIsLast(s);
    assert forall j :: |s| <= j < |s + t| ==> (s + t)[j] == t[j - |s|];
    assert r < |s|;
    assert r' >= 0 ==> (s + t)[r'] == s[r'];
    assert r >= 0 ==> (s + t)[r] == s[r];
  }

  /** Appending text without separators keeps the directory part. */
  lemma DirectoryOfAppend(s: string, t: string)
    requires SeparatorFree(t)
    ensures Directory(s + t) == Directory(s)
  {
    LastSeparatorOfAppend(s, t);
    var r := IndexOfLastSeparator(s);
    assert (s + t)[..r + 1] == s[..r + 1];
  }

  /** A name whose stem is another name's stem plus separator-free text lies in that name's directory. */
  lemma StemExtensionKeepsDirectory(s: string, t: string, infix: string)
    requires SeparatorFree(infix)
    requires RemoveExtension(s) == RemoveExtension(t) + infix
    ensures Directory(s) == Directory(t)
  {
    RemoveExtensionKeepsDirectory(s);
    RemoveExtensionKeepsDirectory(t);
    DirectoryOfAppend(RemoveExtension(t), infix);
  }

  /** Joining a stem and a valid extension with a dot splits back into exactly those two. */
  lemma JoinExtension(stem: string, ext: string)
    requires ExtensionLike(ext)
    ensures IndexOfExtension(stem + [ExtensionSeparator] + ext) == |stem|
    ensures GetExtension(stem + [ExtensionSeparator] + ext) == ext
    ensures RemoveExtension(stem + [ExtensionSeparator] + ext) == stem
  {
    var s := stem + [ExtensionSeparator] + ext;
    var tail := [ExtensionSeparator] + ext;
    assert s == stem + tail;
    var dot := LastIndexOf(s, ExtensionSeparator);
    IndexOfExtensionAsLastIndexOf(s);
    LastIndexOfIsLast(s, ExtensionSeparator);
    assert s[|stem|] == ExtensionSeparator;
    assert forall j :: |stem| < j < |s| ==> s[j] == ext[j - |stem| - 1];
    assert dot == |stem|;
    assert SeparatorFree(tail) by {
      forall j | 0 <= j < |tail| ensures !IsSeparator(tail[j]) {
        if j > 0 { assert tail[j] == ext[j - 1]; }
      }
    }
    LastSeparatorOfAppend(stem, tail);
    assert s[|stem| + 1..] == ext;
    assert s[..|stem|] == stem;
  }

  /** Removing the extension keeps the directory part of the path. */
  lemma RemoveExtensionKeepsDirectory(s: string)
    ensures IndexOfLastSeparator(RemoveExtension(s)) == IndexOfLastSeparator(s)
    ensures Directory(RemoveExtension(s)) == Directory(s)
  {
    var i := IndexOfExtension(s);
    IndexOfExtensionSpec(s);
    if i >= 0 {
      assert s == s[..i] + s[i..];
      assert SeparatorFree(s[i..]) by {
        forall j | 0 <= j < |s[i..]| ensures !IsSeparator(s[i..][j]) {
          assert s[i..][j] == s[i + j];
        }
      }
      LastSeparatorOfAppend(s[..i], s[i..]);
    }
  }
}

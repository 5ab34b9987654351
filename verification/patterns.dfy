/**
 The search-pattern data model of the biggest-file finder: the two pattern
 variants, the facts the scan extracts from one regular file, the predicate
 deciding whether a file matches a pattern, and the "not found" message each
 pattern is seeded with.
 */
module Patterns {
  import opened Wrappers

  /** A file length as Rust's `u64`. The model only compares sizes, it never adds them. */
  type U64 = x: int | 0 <= x < 0x1_0000_0000_0000_0000

  /** `BiggestFileInFolderContainer`: an immediate parent folder name and an extension (without the dot). */
  datatype FolderContainer = FolderContainer(folder: string, fileType: string)

  /** `SearchPatternType`. Datatype equality is structural, as the derived `PartialEq`/`Hash`. */
  datatype Pattern =
    | Basic(fileName: string)
    | BiggestFileInFolder(container: FolderContainer)

  /**
   The facts the scan reads from one regular file: its full path, its base
   name, its extension if any, the last component of its parent directory if
   any, and its length in bytes.
   */
  datatype FileRecord = FileRecord(
    path: string,
    name: string,
    ext: Option<string>,
    parent: Option<string>,
    size: U64)

  /** Whether the regular file described by `f` is a candidate for pattern `p`. */
  function Matches(p: Pattern, f: FileRecord): (b: bool)
    ensures p.Basic? ==> (b <==> f.name == p.fileName)
    ensures p.BiggestFileInFolder? ==>
      (b <==> && f.parent == Some(p.container.folder)
              && f.ext == Some(p.container.fileType))
  {
    match p
    case Basic(searchedFile) =>
      searchedFile == f.name
    case BiggestFileInFolder(c) =>
      && f.parent.Some?
      && f.parent.value == c.folder
      && f.ext.Some?
      && f.ext.value == c.fileType
  }

  /** A file without an extension is never a candidate for a folder pattern, whatever its folder. */
  lemma NoExtensionNeverMatchesFolderPattern(c: FolderContainer, f: FileRecord)
    requires f.ext.None?
    ensures !Matches(BiggestFileInFolder(c), f)
  {
  }

  /** A `Basic` pattern looks at the base name only: the folder, extension and size play no part. */
  lemma BasicMatchDependsOnNameOnly(n: string, f: FileRecord, g: FileRecord)
    requires f.name == g.name
    ensures Matches(Basic(n), f) <==> Matches(Basic(n), g)
  {
  }

  const BasicPrefix: string := "No file found with the name: "
  const FolderPrefix: string := "Inside the folder: "
  const FolderInfix: string := ", no file was found with extension: "

  /**
   `NoFileFoundResult::new`: the message a pattern's slot holds until a file
   matches. It is read back here: the `Basic` message is the fixed prefix, the
   searched name and "!"; the folder message starts with its fixed prefix and
   the folder name, and ends with the fixed infix, the extension and "!".
   */
  function NotFoundMessage(p: Pattern): (m: string)
    ensures |m| > 0 && m[|m| - 1] == '!'
    ensures p.Basic? ==>
      && |m| == |BasicPrefix| + |p.fileName| + 1
      && m[..|BasicPrefix|] == BasicPrefix
      && m[|BasicPrefix|..|m| - 1] == p.fileName
    ensures p.BiggestFileInFolder? ==>
      var c := p.container;
      && |m| == |FolderPrefix| + |c.folder| + |FolderInfix| + |c.fileType| + 1
      && m[..|FolderPrefix|] == FolderPrefix
      && m[|FolderPrefix|..|FolderPrefix| + |c.folder|] == c.folder
      && m[|FolderPrefix| + |c.folder|..|m| - |c.fileType| - 1] == FolderInfix
      && m[|m| - |c.fileType| - 1..|m| - 1] == c.fileType
  {
    match p
    case Basic(fileName) =>
      BasicPrefix + fileName + "!"
    case BiggestFileInFolder(c) =>
      FolderPrefix + c.folder + FolderInfix + c.fileType + "!"
  }

  /** Two `Basic` patterns with the same message search for the same name. */
  lemma BasicMessageNamesTheFile(a: string, b: string)
    requires NotFoundMessage(Basic(a)) == NotFoundMessage(Basic(b))
    ensures a == b
  {
    var m := NotFoundMessage(Basic(a));
    assert a == m[|BasicPrefix|..|m| - 1];
  }

  /** A folder pattern's message names both its folder and its extension. */
  lemma FolderMessageNamesFolderAndType(c: FolderContainer, d: FolderContainer)
    requires NotFoundMessage(BiggestFileInFolder(c)) == NotFoundMessage(BiggestFileInFolder(d))
    requires |c.folder| == |d.folder|
    ensures c == d
  {
    var m := NotFoundMessage(BiggestFileInFolder(c));
    assert c.folder == m[|FolderPrefix|..|FolderPrefix| + |c.folder|];
    assert c.fileType == m[|m| - |c.fileType| - 1..|m| - 1];
  }

  /**
   Without the length condition above the folder message is ambiguous: a
   folder name that itself ends with the fixed infix yields the same message
   as a shorter folder whose extension starts with that infix.
   */
  lemma FolderMessageIsAmbiguous(folder: string, fileType: string)
    ensures var c := FolderContainer(folder + FolderInfix, fileType);
      var d := FolderContainer(folder, FolderInfix + fileType);
      c != d && NotFoundMessage(BiggestFileInFolder(c)) == NotFoundMessage(BiggestFileInFolder(d))
  {
    FolderMessageShiftsInfix(folder, fileType);
  }

  lemma FolderMessageShiftsInfix(folder: string, fileType: string)
    ensures NotFoundMessage(BiggestFileInFolder(FolderContainer(folder + FolderInfix, fileType)))
         == NotFoundMessage(BiggestFileInFolder(FolderContainer(folder, FolderInfix + fileType)))
  {
    var p, i, x, y := FolderPrefix, FolderInfix, folder, fileType;
    calc {
      NotFoundMessage(BiggestFileInFolder(FolderContainer(x + i, y)));
      p + (x + i) + i + y + "!";
      { ConcatAssoc(p, x, i); }
      p + x + i + i + y + "!";
      { ConcatAssoc(p + x + i, i, y); }
      p + x + i + (i + y) + "!";
      NotFoundMessage(BiggestFileInFolder(FolderContainer(x, i + y)));
    }
  }

  /** Concatenation regroups freely. */
  lemma ConcatAssoc(a: string, b: string, c: string)
    ensures a + (b + c) == a + b + c
  {
  }

  /** A `Basic` message is never mistaken for a folder message: they differ in the first character. */
  lemma MessageKindsDiffer(n: string, c: FolderContainer)
    ensures NotFoundMessage(Basic(n)) != NotFoundMessage(BiggestFileInFolder(c))
  {
    assert NotFoundMessage(Basic(n))[0] == 'N';
    assert NotFoundMessage(BiggestFileInFolder(c))[0] == 'I';
  }
}

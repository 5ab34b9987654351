/** Worked scenarios of the scan, stated on concrete configurations and walks. */
module Scenarios {
  import opened Wrappers
  import opened Patterns
  import opened SearchResults
  import opened Seeding
  import opened Search

  /**
   The walks below are what `WalkDir::new(".")` yields: the root `.` first,
   then directories and files with paths below `./`.
   */
  const A: FileRecord := FileRecord("./a/example.txt", "example.txt", Some("txt"), Some("a"), 10)
  const B: FileRecord := FileRecord("./b/example.txt", "example.txt", Some("txt"), Some("b"), 20)
  const BasicWalk: seq<WalkEntry> :=
    [NotAFile("."), NotAFile("./a"), RegularFile(A), NotAFile("./b"), RegularFile(B)]

  lemma BasicWalkFiles()
    ensures !HasUnreadable(BasicWalk)
    ensures Files(BasicWalk) == [A, B]
  {
    var w := BasicWalk;
    assert w[..1][..0] == [];
    assert Files(w[..1]) == [];
    assert w[..2][..1] == w[..1];
    assert Files(w[..2]) == [];
    assert w[..3][..2] == w[..2];
    assert Files(w[..3]) == [A];
    assert w[..4][..3] == w[..3];
    assert Files(w[..4]) == [A];
  }

  /** Two files named `example.txt` of 10 and 20 bytes in folders `a` and `b`: the larger one is reported. */
  lemma BasicPatternPicksLargerFile()
    ensures var q := Basic("example.txt");
      var r := Scan(Config([q], "."), BasicWalk);
      r.Completed? && q in r.results && r.results[q] == FileFound("./b/example.txt", 20)
  {
    var q := Basic("example.txt");
    BasicWalkFiles();
    assert FirstLargestMatch(q, [A, B], 1);
    ScanReportsFirstLargestMatch(Config([q], "."), BasicWalk, q, 1);
  }

  const Report: FileRecord := FileRecord("./Example/report.txt", "report.txt", Some("txt"), Some("Example"), 5)
  const Big: FileRecord := FileRecord("./Example/big.txt", "big.txt", Some("txt"), Some("Example"), 500)
  const Huge: FileRecord := FileRecord("./Other/huge.txt", "huge.txt", Some("txt"), Some("Other"), 9000)
  const FolderWalk: seq<WalkEntry> :=
    [NotAFile("."), NotAFile("./Example"), RegularFile(Report), RegularFile(Big), NotAFile("./Other"), RegularFile(Huge)]

  lemma FolderWalkFiles()
    ensures !HasUnreadable(FolderWalk)
    ensures Files(FolderWalk) == [Report, Big, Huge]
  {
    var w := FolderWalk;
    assert w[..1][..0] == [];
    assert Files(w[..1]) == [];
    assert w[..2][..1] == w[..1];
    assert Files(w[..2]) == [];
    assert w[..3][..2] == w[..2];
    assert Files(w[..3]) == [Report];
    assert w[..4][..3] == w[..3];
    assert Files(w[..4]) == [Report, Big];
    assert w[..5][..4] == w[..4];
    assert Files(w[..5]) == [Report, Big];
  }

  /**
   Two `.txt` files in `Example` and a larger one in `Other`: the folder
   pattern reports the larger file inside `Example` only.
   */
  lemma FolderPatternIgnoresOtherFolders()
    ensures var q := BiggestFileInFolder(FolderContainer("Example", "txt"));
      var r := Scan(Config([q], "."), FolderWalk);
      r.Completed? && q in r.results && r.results[q] == FileFound("./Example/big.txt", 500)
  {
    var q := BiggestFileInFolder(FolderContainer("Example", "txt"));
    FolderWalkFiles();
    assert !Matches(q, Huge);
    assert FirstLargestMatch(q, [Report, Big, Huge], 1);
    ScanReportsFirstLargestMatch(Config([q], "."), FolderWalk, q, 1);
  }

  /** An empty walk leaves the `Basic` pattern "not found", with a message naming the file. */
  lemma EmptyWalkReportsMissingFile()
    ensures var q := Basic("missing.txt");
      var r := Scan(Config([q], "."), []);
      r.Completed? && q in r.results && r.results[q] == NoFileFound("No file found with the name: missing.txt!")
  {
    var q := Basic("missing.txt");
    assert !HasUnreadable([]);
    ScanNotFoundIffNoMatch(Config([q], "."), [], q);
  }

  /**
   A file that passed `is_file()` but whose length read then fails aborts
   the whole scan, even after matches were found.
   */
  lemma UnreadableFileAbortsScan()
    ensures var q := Basic("example.txt");
      Scan(Config([q], "."), [NotAFile("."), NotAFile("./a"), RegularFile(A), UnreadableFile("./b/example.txt")]).Aborted?
  {
    var walk := [NotAFile("."), NotAFile("./a"), RegularFile(A), UnreadableFile("./b/example.txt")];
    assert walk[3].UnreadableFile?;
  }
}

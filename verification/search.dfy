/**
 The single-pass scan of `search_for_biggest_files`: the seeded map is
 updated, file by file in walk order and pattern by pattern in list order,
 with the running-maximum step. The directory walk is an input sequence of
 entries; the scan's outcome is either the final map or an abort.
 */
module Search {
  import opened Wrappers
  import opened Patterns
  import opened SearchResults
  import opened Seeding

  type ResultMap = map<Pattern, SearchResult>

  /**
   One entry yielded by the directory walk (walk errors are already dropped).
   `NotAFile` is an entry for which `is_file()` is false; since `is_file()`
   reads the metadata and answers false on any error, this includes files
   whose metadata cannot be read at all. `RegularFile` carries the facts of
   a regular file. `UnreadableFile` is a regular file that passed `is_file()`
   but whose `metadata()` call for its length then failed, for example
   because it was removed in between.
   */
  datatype WalkEntry =
    | NotAFile(path: string)
    | RegularFile(record: FileRecord)
    | UnreadableFile(path: string)

  /** The outcome of a scan: the final result map, or the abort caused by a failed length read. */
  datatype ScanOutcome =
    | Completed(results: ResultMap)
    | Aborted

  /** Every pattern of `ps` has a slot in `res`. */
  predicate Covers(res: ResultMap, ps: seq<Pattern>)
  {
    forall p :: p in ps ==> p in res
  }

  /**
   The work done for one pattern `p` and one file `f`: if `f` matches, the
   slot of `p` is updated; no other slot is touched and no key is added.
   */
  function Step(res: ResultMap, p: Pattern, f: FileRecord): (r: ResultMap)
    requires p in res
    ensures r.Keys == res.Keys
    ensures forall q :: q in res && q != p ==> r[q] == res[q]
    ensures !Matches(p, f) ==> r == res
    ensures Matches(p, f) ==> r[p] == Offer(res[p], f)
  {
    if Matches(p, f) then
      match Update(res[p], f.path, f.size)
      case Some(found) => res[p := found]
      case None => res
    else res
  }

  /** The inner loop over the pattern list for one file: each pattern of the list in turn, by `Step`. */
  function VisitPatterns(res: ResultMap, ps: seq<Pattern>, f: FileRecord): (r: ResultMap)
    requires Covers(res, ps)
    ensures r.Keys == res.Keys
    decreases |ps|
  {
    if ps == [] then res
    else
      var init := ps[..|ps| - 1];
      assert forall p :: p in init ==> p in ps;
      Step(VisitPatterns(res, init, f), ps[|ps| - 1], f)
  }

  /**
   After the pattern loop for one file, a slot has been offered the file
   exactly when its pattern is in the list and the file matches it. A
   pattern listed more than once is offered the file more than once, which
   changes nothing beyond the first offer.
   */
  lemma {:induction false} VisitPatternsSlot(res: ResultMap, ps: seq<Pattern>, f: FileRecord, q: Pattern)
    requires Covers(res, ps)
    requires q in res
    ensures VisitPatterns(res, ps, f)[q] == (if q in ps && Matches(q, f) then Offer(res[q], f) else res[q])
    decreases |ps|
  {
    if ps != [] {
      var init := ps[..|ps| - 1];
      var p := ps[|ps| - 1];
      assert ps == init + [p];
      assert forall x :: x in init ==> x in ps;
      VisitPatternsSlot(res, init, f, q);
      if p == q && Matches(q, f) {
        OfferIdempotent(res[q], f);
      }
    }
  }

  /** The regular files of a walk whose length was read, in walk order. */
  function Files(ws: seq<WalkEntry>): (r: seq<FileRecord>)
    ensures |r| <= |ws|
    decreases |ws|
  {
    if ws == [] then []
    else
      var init := ws[..|ws| - 1];
      match ws[|ws| - 1]
      case RegularFile(f) => Files(init) + [f]
      case _ => Files(init)
  }

  /** The readable files of a walk are exactly the records of its `RegularFile` entries. */
  lemma {:induction false} FilesAreTheRegularFiles(ws: seq<WalkEntry>, f: FileRecord)
    ensures f in Files(ws) <==> RegularFile(f) in ws
    decreases |ws|
  {
    if ws != [] {
      var init := ws[..|ws| - 1];
      assert ws == init + [ws[|ws| - 1]];
      FilesAreTheRegularFiles(init, f);
    }
  }

  /** The walk contains a regular file that passed `is_file()` but whose length read then failed. */
  predicate HasUnreadable(ws: seq<WalkEntry>)
  {
    exists i :: 0 <= i < |ws| && ws[i].UnreadableFile?
  }

  /** The outer loop over the files: the pattern loop for each file in turn. */
  function Walk(res: ResultMap, ps: seq<Pattern>, fs: seq<FileRecord>): (r: ResultMap)
    requires Covers(res, ps)
    ensures r.Keys == res.Keys
    decreases |fs|
  {
    if fs == [] then res
    else VisitPatterns(Walk(res, ps, fs[..|fs| - 1]), ps, fs[|fs| - 1])
  }

  /**
   Walking the files treats each slot on its own: the slot of a listed
   pattern ends as the per-pattern fold of its starting slot over the
   files, and the slot of an unlisted key is left as it was.
   */
  lemma {:induction false} WalkSlot(res: ResultMap, ps: seq<Pattern>, fs: seq<FileRecord>, q: Pattern)
    requires Covers(res, ps)
    requires q in res
    ensures Walk(res, ps, fs)[q] == (if q in ps then FoldSlot(res[q], q, fs) else res[q])
    decreases |fs|
  {
    if fs != [] {
      var init := fs[..|fs| - 1];
      WalkSlot(res, ps, init, q);
      VisitPatternsSlot(Walk(res, ps, init), ps, fs[|fs| - 1], q);
    }
  }

  /** `WalkSlot` for every key at once. */
  lemma WalkSlots(res: ResultMap, ps: seq<Pattern>, fs: seq<FileRecord>)
    requires Covers(res, ps)
    ensures forall q :: q in res ==>
      Walk(res, ps, fs)[q] == (if q in ps then FoldSlot(res[q], q, fs) else res[q])
  {
    forall q | q in res
      ensures Walk(res, ps, fs)[q] == (if q in ps then FoldSlot(res[q], q, fs) else res[q])
    {
      WalkSlot(res, ps, fs, q);
    }
  }

  /**
   `search_for_biggest_files` after the configuration is parsed: it aborts
   exactly when the length read of some file that passed `is_file()` fails;
   otherwise the map has one key per distinct configured pattern, and each
   slot is the fold of that pattern's "not found" slot over the readable
   files in walk order.
   */
  function Scan(config: Config, walk: seq<WalkEntry>): (r: ScanOutcome)
    ensures r.Aborted? <==> HasUnreadable(walk)
    ensures r.Completed? ==> forall q :: q in r.results <==> q in config.searchPatterns
    ensures r.Completed? ==> forall q :: q in r.results ==>
      r.results[q] == FoldSlot(NoFileFound(NotFoundMessage(q)), q, Files(walk))
  {
    if HasUnreadable(walk) then Aborted
    else
      InitialResultMapSeedsEveryPattern(config);
      var s := CreateInitialSearchResult(config);
      WalkSlots(InitialResultMap(config), s.patterns, Files(walk));
      Completed(Walk(InitialResultMap(config), s.patterns, Files(walk)))
  }

  /**
   The inner loop of `search_for_biggest_files` for one regular file: each
   pattern of the list in turn, the slot looked up, and the replacement
   inserted only when the update produced one.
   */
  method VisitFile(results: ResultMap, searchPatterns: seq<Pattern>, file: FileRecord) returns (r: ResultMap)
    requires Covers(results, searchPatterns)
    ensures r == VisitPatterns(results, searchPatterns, file)
  {
    r := results;
    var j := 0;
    while j < |searchPatterns|
      invariant 0 <= j <= |searchPatterns|
      invariant r == VisitPatterns(results, searchPatterns[..j], file)
    {
      assert searchPatterns[..j + 1][..j] == searchPatterns[..j];
      var searchPattern := searchPatterns[j];
      if Matches(searchPattern, file) {
        var fileFound := Update(r[searchPattern], file.path, file.size);
        if fileFound.Some? {
          r := r[searchPattern := fileFound.value];
        }
      }
      j := j + 1;
    }
    assert searchPatterns[..j] == searchPatterns;
  }

  /** Walking keeps every listed pattern's slot. */
  lemma WalkKeepsCover(res: ResultMap, ps: seq<Pattern>, fs: seq<FileRecord>)
    requires Covers(res, ps)
    ensures Covers(Walk(res, ps, fs), ps)
  {
  }

  /** Walking one more file runs the pattern loop once more on the map walked so far. */
  lemma WalkOneMore(res: ResultMap, ps: seq<Pattern>, fs: seq<FileRecord>, f: FileRecord)
    requires Covers(res, ps)
    ensures Covers(Walk(res, ps, fs), ps)
    ensures Walk(res, ps, fs + [f]) == VisitPatterns(Walk(res, ps, fs), ps, f)
  {
    assert (fs + [f])[..|fs|] == fs;
  }

  /**
   One more walk entry: a readable regular file runs the pattern loop once
   more, anything else that is not unreadable leaves the map as it was.
   */
  lemma WalkOneMoreEntry(res: ResultMap, ps: seq<Pattern>, walk: seq<WalkEntry>, i: int)
    requires Covers(res, ps)
    requires 0 <= i < |walk| && !walk[i].UnreadableFile?
    requires !HasUnreadable(walk[..i])
    ensures !HasUnreadable(walk[..i + 1])
    ensures Covers(Walk(res, ps, Files(walk[..i])), ps)
    ensures walk[i].RegularFile? ==>
      Walk(res, ps, Files(walk[..i + 1])) == VisitPatterns(Walk(res, ps, Files(walk[..i])), ps, walk[i].record)
    ensures walk[i].NotAFile? ==> Walk(res, ps, Files(walk[..i + 1])) == Walk(res, ps, Files(walk[..i]))
  {
    FilesOneMore(walk, i);
    var files, files' := Files(walk[..i]), Files(walk[..i + 1]);
    if walk[i].RegularFile? {
      var f := walk[i].record;
      assert files' == files + [f];
      WalkOneMore(res, ps, files, f);
    } else {
      assert files' == files;
      WalkKeepsCover(res, ps, files);
    }
  }

  /** Extending the walk by one entry extends its readable files by that entry's record, if any. */
  lemma FilesOneMore(walk: seq<WalkEntry>, i: int)
    requires 0 <= i < |walk|
    ensures Files(walk[..i + 1]) == Files(walk[..i]) + (if walk[i].RegularFile? then [walk[i].record] else [])
    ensures !HasUnreadable(walk[..i]) && !walk[i].UnreadableFile? ==> !HasUnreadable(walk[..i + 1])
  {
    assert walk[..i + 1][..i] == walk[..i];
  }

  /**
   The walk loop of `search_for_biggest_files` as written: entries in
   order, skipping what `is_file()` rejects, aborting when a length read
   fails, and running the pattern loop on each readable regular file.
   */
  method WalkEntries(initial: ResultMap, searchPatterns: seq<Pattern>, walk: seq<WalkEntry>) returns (r: ScanOutcome)
    requires Covers(initial, searchPatterns)
    ensures r.Aborted? <==> HasUnreadable(walk)
    ensures r.Completed? ==> r.results == Walk(initial, searchPatterns, Files(walk))
  {
    var results := initial;
    var i := 0;
    while i < |walk|
      invariant 0 <= i <= |walk|
      invariant !HasUnreadable(walk[..i])
      invariant results == Walk(initial, searchPatterns, Files(walk[..i]))
    {
      match walk[i] {
        case NotAFile(_) =>
          WalkOneMoreEntry(initial, searchPatterns, walk, i);
        case UnreadableFile(_) =>
          assert HasUnreadable(walk);
          return Aborted;
        case RegularFile(file) =>
          WalkOneMoreEntry(initial, searchPatterns, walk, i);
          results := VisitFile(results, searchPatterns, file);
      }
      i := i + 1;
    }
    assert walk[..i] == walk;
    r := Completed(results);
  }

  /**
   `search_for_biggest_files` as written: seed the map from the
   deduplicated patterns, then walk.
   */
  method SearchForBiggestFiles(config: Config, walk: seq<WalkEntry>) returns (r: ScanOutcome)
    ensures r == Scan(config, walk)
  {
    var seeded := CreateInitialSearchResult(config);
    var searchPatterns := seeded.patterns;
    var results := ZipInsert(map[], searchPatterns, seeded.slots);
    InitialResultMapSeedsEveryPattern(config);
    assert results == InitialResultMap(config);
    r := WalkEntries(results, searchPatterns, walk);
  }

  /**
   For every configured pattern of a completed scan, the slot is "not
   found" exactly when no readable file matched, and then it holds the
   pattern's seeded message.
   */
  lemma ScanNotFoundIffNoMatch(config: Config, walk: seq<WalkEntry>, q: Pattern)
    requires q in config.searchPatterns
    requires !HasUnreadable(walk)
    ensures Scan(config, walk).Completed? && q in Scan(config, walk).results
    ensures Scan(config, walk).results[q].NoFileFound? <==> NoMatch(q, Files(walk))
    ensures Scan(config, walk).results[q].NoFileFound? ==>
      Scan(config, walk).results[q].message == NotFoundMessage(q)
  {
    FoldNotFoundIffNoMatch(q, NotFoundMessage(q), Files(walk));
  }

  /**
   For every configured pattern of a completed scan, the slot holds the
   path and size of the earliest of the largest readable files matching it.
   */
  lemma ScanReportsFirstLargestMatch(config: Config, walk: seq<WalkEntry>, q: Pattern, i: int)
    requires q in config.searchPatterns
    requires !HasUnreadable(walk)
    requires FirstLargestMatch(q, Files(walk), i)
    ensures Scan(config, walk).Completed? && q in Scan(config, walk).results
    ensures Scan(config, walk).results[q] == FileFound(Files(walk)[i].path, Files(walk)[i].size)
  {
    FoldFindsFirstLargest(q, NotFoundMessage(q), Files(walk), i);
  }

  /**
   The scan depends only on the set of configured patterns, not on their
   order or multiplicity: the duplicates `Vec::dedup` leaves in the list are
   harmless.
   */
  lemma ScanDependsOnlyOnPatternSet(c: Config, d: Config, walk: seq<WalkEntry>)
    requires forall q :: q in c.searchPatterns <==> q in d.searchPatterns
    ensures Scan(c, walk) == Scan(d, walk)
  {
    var r, s := Scan(c, walk), Scan(d, walk);
    if r.Completed? {
      assert r.results.Keys == s.results.Keys;
    }
  }
}

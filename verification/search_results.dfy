/**
 The per-pattern result slot and the running-maximum update the scan applies
 to it, together with the exact characterization of a slot after a sequence
 of files has been offered to it.
 */
module SearchResults {
  import opened Wrappers
  import opened Patterns

  /** `SearchResult`: the largest candidate seen so far, or the seeded "not found" message. */
  datatype SearchResult =
    | FileFound(file: string, size: U64)
    | NoFileFound(message: string)

  /**
   The replacement the scan computes for a slot when a matching file of
   length `size` at `file` is seen: `None` means the slot is left as it is.
   The first match always replaces "not found"; afterwards only a strictly
   larger file does, so among equal sizes the earlier file stays.
   */
  function Update(current: SearchResult, file: string, size: U64): (r: Option<SearchResult>)
    ensures r.Some? ==> r.value == FileFound(file, size)
    ensures current.NoFileFound? ==> r.Some?
    ensures current.FileFound? ==> (r.Some? <==> current.size < size)
  {
    match current
    case NoFileFound(_) =>
      Some(FileFound(file, size))
    case FileFound(_, currentSize) =>
      if currentSize < size then Some(FileFound(file, size)) else None
  }

  /** The slot after offering it the matching file `f`. */
  function Offer(current: SearchResult, f: FileRecord): (r: SearchResult)
    ensures r.FileFound?
    ensures r == current || r == FileFound(f.path, f.size)
    ensures current.FileFound? ==> current.size <= r.size
    ensures f.size <= r.size
  {
    Update(current, f.path, f.size).GetOr(current)
  }

  /** Offering the same file twice is the same as offering it once. */
  lemma OfferIdempotent(s: SearchResult, f: FileRecord)
    ensures Offer(Offer(s, f), f) == Offer(s, f)
  {
  }

  /** A file no larger than the current best leaves a found slot untouched (the first-seen tie-break). */
  lemma OfferKeepsEarlierOnTie(s: SearchResult, f: FileRecord)
    requires s.FileFound? && f.size <= s.size
    ensures Offer(s, f) == s
  {
  }

  /**
   The slot of pattern `q` after the files `fs` have been seen in order,
   starting from `slot`; only files matching `q` are offered. A found slot
   never reverts and its size never decreases; a slot still "not found" is
   the one it started as.
   */
  function FoldSlot(slot: SearchResult, q: Pattern, fs: seq<FileRecord>): (r: SearchResult)
    ensures slot.FileFound? ==> r.FileFound? && slot.size <= r.size
    ensures r.NoFileFound? ==> r == slot
    decreases |fs|
  {
    if fs == [] then slot
    else
      var prev := FoldSlot(slot, q, fs[..|fs| - 1]);
      var f := fs[|fs| - 1];
      if Matches(q, f) then Offer(prev, f) else prev
  }

  /**
   Over the course of the walk a slot only grows: once found after some
   prefix of the files, it is found after every longer prefix, with a size
   at least as large.
   */
  lemma {:induction false} FoldSlotGrowsAlongWalk(slot: SearchResult, q: Pattern, fs: seq<FileRecord>, k: nat)
    requires k <= |fs|
    requires FoldSlot(slot, q, fs[..k]).FileFound?
    ensures FoldSlot(slot, q, fs).FileFound?
    ensures FoldSlot(slot, q, fs[..k]).size <= FoldSlot(slot, q, fs).size
    decreases |fs| - k
  {
    if k < |fs| {
      assert fs[..k + 1][..k] == fs[..k];
      FoldSlotGrowsAlongWalk(slot, q, fs, k + 1);
    } else {
      assert fs[..k] == fs;
    }
  }

  /** No file of `fs` matches `q`. */
  predicate NoMatch(q: Pattern, fs: seq<FileRecord>)
  {
    forall j :: 0 <= j < |fs| ==> !Matches(q, fs[j])
  }

  /**
   `fs[i]` is the earliest among the largest files of `fs` matching `q`:
   it matches, no matching file is larger, and every earlier matching file
   is strictly smaller.
   */
  predicate FirstLargestMatch(q: Pattern, fs: seq<FileRecord>, i: int)
  {
    && 0 <= i < |fs|
    && Matches(q, fs[i])
    && (forall j :: 0 <= j < |fs| && Matches(q, fs[j]) ==> fs[j].size <= fs[i].size)
    && (forall j :: 0 <= j < i && Matches(q, fs[j]) ==> fs[j].size < fs[i].size)
  }

  /** At most one file is the earliest largest match. */
  lemma FirstLargestMatchUnique(q: Pattern, fs: seq<FileRecord>, i: int, k: int)
    requires FirstLargestMatch(q, fs, i) && FirstLargestMatch(q, fs, k)
    ensures i == k
  {
  }

  /** A file that does not match leaves the earliest largest match where it was. */
  lemma ExtendWithNonMatch(q: Pattern, init: seq<FileRecord>, f: FileRecord, i: int)
    requires FirstLargestMatch(q, init, i) && !Matches(q, f)
    ensures FirstLargestMatch(q, init + [f], i)
  {
    var fs := init + [f];
    assert forall j :: 0 <= j < |init| ==> fs[j] == init[j];
  }

  /** A matching file no larger than the earliest largest match leaves it in place. */
  lemma ExtendWithSmallerOrEqual(q: Pattern, init: seq<FileRecord>, f: FileRecord, i: int)
    requires FirstLargestMatch(q, init, i) && Matches(q, f) && f.size <= init[i].size
    ensures FirstLargestMatch(q, init + [f], i)
  {
    var fs := init + [f];
    assert forall j :: 0 <= j < |init| ==> fs[j] == init[j];
  }

  /** A matching file larger than every earlier match becomes the earliest largest match. */
  lemma ExtendWithLarger(q: Pattern, init: seq<FileRecord>, f: FileRecord)
    requires Matches(q, f)
    requires forall j :: 0 <= j < |init| && Matches(q, init[j]) ==> init[j].size < f.size
    ensures FirstLargestMatch(q, init + [f], |init|)
  {
    var fs := init + [f];
    assert forall j :: 0 <= j < |init| ==> fs[j] == init[j];
  }

  /** Whenever some file matches `q`, an earliest largest match exists. */
  lemma {:induction false} FirstLargestMatchExists(q: Pattern, fs: seq<FileRecord>)
    requires !NoMatch(q, fs)
    ensures exists i :: FirstLargestMatch(q, fs, i)
    decreases |fs|
  {
    var init := fs[..|fs| - 1];
    var f := fs[|fs| - 1];
    assert fs == init + [f];
    if NoMatch(q, init) {
      assert Matches(q, f);
      ExtendWithLarger(q, init, f);
    } else {
      FirstLargestMatchExists(q, init);
      var k :| FirstLargestMatch(q, init, k);
      if !Matches(q, f) {
        ExtendWithNonMatch(q, init, f, k);
      } else if init[k].size < f.size {
        ExtendWithLarger(q, init, f);
      } else {
        ExtendWithSmallerOrEqual(q, init, f, k);
      }
    }
  }

  /** A slot seeded "not found" is still "not found" after the walk exactly when no file matched. */
  lemma {:induction false} FoldNotFoundIffNoMatch(q: Pattern, message: string, fs: seq<FileRecord>)
    ensures FoldSlot(NoFileFound(message), q, fs).NoFileFound? <==> NoMatch(q, fs)
    decreases |fs|
  {
    if fs != [] {
      var init := fs[..|fs| - 1];
      assert fs == init + [fs[|fs| - 1]];
      FoldNotFoundIffNoMatch(q, message, init);
    }
  }

  /**
   A slot seeded "not found" ends holding the path and size of the
   earliest of the largest files matching its pattern.
   */
  lemma {:induction false} FoldFindsFirstLargest(q: Pattern, message: string, fs: seq<FileRecord>, i: int)
    requires FirstLargestMatch(q, fs, i)
    ensures FoldSlot(NoFileFound(message), q, fs) == FileFound(fs[i].path, fs[i].size)
    decreases |fs|
  {
    var init := fs[..|fs| - 1];
    var last := |fs| - 1;
    assert fs == init + [fs[last]];
    var prev := FoldSlot(NoFileFound(message), q, init);
    if i == last {
      if !NoMatch(q, init) {
        FirstLargestMatchExists(q, init);
        var k :| FirstLargestMatch(q, init, k);
        FoldFindsFirstLargest(q, message, init, k);
        assert init[k] == fs[k];
      } else {
        FoldNotFoundIffNoMatch(q, message, init);
      }
    } else {
      assert FirstLargestMatch(q, init, i);
      FoldFindsFirstLargest(q, message, init, i);
    }
  }

  /** Two matching files of equal size: the one seen first is kept. */
  lemma TieKeepsFirstSeen(q: Pattern, message: string, f: FileRecord, g: FileRecord)
    requires Matches(q, f) && Matches(q, g) && f.size == g.size
    ensures FoldSlot(NoFileFound(message), q, [f, g]) == FileFound(f.path, f.size)
  {
    assert [f, g][..1] == [f];
    assert [f][..0] == [];
    assert FoldSlot(NoFileFound(message), q, [f]) == FileFound(f.path, f.size);
  }
}

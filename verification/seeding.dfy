/**
 Seeding the result map before the walk: the configured pattern list is
 passed through `Vec::dedup`, one "not found" slot is made per remaining
 pattern, and the patterns and slots are zipped into the map.
 */
module Seeding {
  import opened Patterns
  import opened SearchResults

  /** `Config` as parsed from the JSON configuration file. */
  datatype Config = Config(searchPatterns: seq<Pattern>, rootFolder: string)

  /** No two neighbouring elements of `s` are equal. */
  predicate NoAdjacentDuplicates<T(==)>(s: seq<T>)
  {
    forall i :: 0 < i < |s| ==> s[i - 1] != s[i]
  }

  /**
   `Vec::dedup`: every run of consecutive equal elements collapses to one.
   Equal elements that are not neighbours all stay.
   */
  function Dedup<T(==,!new)>(s: seq<T>): (r: seq<T>)
    ensures |r| <= |s|
    ensures forall x :: x in r <==> x in s
    ensures NoAdjacentDuplicates(r)
    ensures |s| > 0 ==> |r| > 0 && r[0] == s[0]
    decreases |s|
  {
    if |s| <= 1 then s
    else if s[0] == s[1] then Dedup(s[1..])
    else [s[0]] + Dedup(s[1..])
  }

  /** On a list with no neighbouring duplicates `Vec::dedup` changes nothing; in particular it is idempotent. */
  lemma {:induction false} DedupKeepsListWithoutAdjacentDuplicates<T(!new)>(s: seq<T>)
    requires NoAdjacentDuplicates(s)
    ensures Dedup(s) == s
    decreases |s|
  {
    if |s| > 1 {
      assert s[0] != s[1];
      DedupKeepsListWithoutAdjacentDuplicates(s[1..]);
    }
  }

  /** `Vec::dedup` does not remove a duplicate that is not next to its twin. */
  lemma DedupLeavesNonAdjacentDuplicates<T(!new)>(a: T, b: T)
    requires a != b
    ensures Dedup([a, b, a]) == [a, b, a]
  {
    DedupKeepsListWithoutAdjacentDuplicates([a, b, a]);
  }

  /**
   Reference for `Vec::dedup`, stated position by position: `s[i]` is kept
   exactly when it is the first element or differs from its left neighbour.
   `KeptFrom(s, i)` is the kept part of `s[i..]`.
   */
  function KeptFrom<T(==)>(s: seq<T>, i: nat): seq<T>
    requires i <= |s|
    decreases |s| - i
  {
    if i == |s| then []
    else (if i == 0 || s[i - 1] != s[i] then [s[i]] else []) + KeptFrom(s, i + 1)
  }

  function Collapse<T(==)>(s: seq<T>): seq<T>
  {
    KeptFrom(s, 0)
  }

  /** Past the head, dropping the first element does not change which positions are kept. */
  lemma {:induction false} KeptFromShift<T>(s: seq<T>, j: nat)
    requires 1 <= j <= |s| - 1
    ensures KeptFrom(s[1..], j) == KeptFrom(s, j + 1)
    decreases |s| - j
  {
    if j < |s| - 1 {
      KeptFromShift(s, j + 1);
    }
  }

  /**
   `Dedup` keeps, in order, exactly the elements that start a run of equal
   neighbours: only such runs collapse, and nothing is reordered.
   */
  lemma {:induction false} DedupIsCollapse<T(!new)>(s: seq<T>)
    ensures Dedup(s) == Collapse(s)
    decreases |s|
  {
    if |s| >= 2 {
      DedupIsCollapse(s[1..]);
      if |s| > 2 {
        KeptFromShift(s, 1);
      }
      assert KeptFrom(s[1..], 0) == [s[1]] + KeptFrom(s, 2);
      assert Collapse(s) == [s[0]] + KeptFrom(s, 1);
      if s[0] == s[1] {
        assert KeptFrom(s, 1) == KeptFrom(s, 2);
      } else {
        assert KeptFrom(s, 1) == [s[1]] + KeptFrom(s, 2);
      }
    } else if |s| == 1 {
      assert KeptFrom(s, 1) == [];
    }
  }

  /** Removing one element of a run of equal neighbours does not change the result of `Vec::dedup`. */
  lemma DedupIgnoresRepeatInRun<T(!new)>(s: seq<T>, i: int)
    requires 0 < i < |s| && s[i - 1] == s[i]
    ensures Dedup(s[..i] + s[i + 1..]) == Dedup(s)
    decreases |s|
  {
    if i > 1 {
      var t := s[..i] + s[i + 1..];
      assert t[1..] == s[1..][..i - 1] + s[1..][i..];
      DedupIgnoresRepeatInRun(s[1..], i - 1);
      assert t[0] == s[0] && t[1] == s[1];
    } else {
      assert s[..i] + s[i + 1..] == s[1..];
    }
  }

  /** The output of `create_initial_search_result`: slots, the deduplicated patterns, the root folder. */
  datatype Seeded = Seeded(slots: seq<SearchResult>, patterns: seq<Pattern>, rootFolder: string)

  /** One "not found" slot per pattern, in order, each holding that pattern's message. */
  function NotFoundSlots(ps: seq<Pattern>): (r: seq<SearchResult>)
    ensures |r| == |ps|
    ensures forall i :: 0 <= i < |ps| ==> r[i] == NoFileFound(NotFoundMessage(ps[i]))
    decreases |ps|
  {
    if ps == [] then []
    else [NoFileFound(NotFoundMessage(ps[0]))] + NotFoundSlots(ps[1..])
  }

  /**
   `create_initial_search_result`: the pattern list after `Vec::dedup`, the
   same distinct patterns as configured, with one "not found" slot each.
   */
  function CreateInitialSearchResult(config: Config): (s: Seeded)
    ensures s.patterns == Dedup(config.searchPatterns)
    ensures forall q :: q in s.patterns <==> q in config.searchPatterns
    ensures |s.slots| == |s.patterns|
    ensures forall i :: 0 <= i < |s.slots| ==> s.slots[i] == NoFileFound(NotFoundMessage(s.patterns[i]))
    ensures s.rootFolder == config.rootFolder
  {
    var ps := Dedup(config.searchPatterns);
    Seeded(NotFoundSlots(ps), ps, config.rootFolder)
  }

  function Min(a: int, b: int): int
  {
    if a <= b then a else b
  }

  /**
   `zip` followed by `HashMap::insert` for each pair in order. The pairing
   stops at the shorter list; the keys are the old keys and the paired ones.
   */
  function ZipInsert<K(!new), V>(m: map<K, V>, ks: seq<K>, vs: seq<V>): (r: map<K, V>)
    ensures forall k :: k in r <==> k in m || k in ks[..Min(|ks|, |vs|)]
    decreases |ks|
  {
    if ks == [] || vs == [] then m
    else
      var n := Min(|ks|, |vs|);
      assert ks[1..][..n - 1] == ks[1..n];
      assert ks[..n] == [ks[0]] + ks[1..n];
      ZipInsert(m[ks[0] := vs[0]], ks[1..], vs[1..])
  }

  /**
   The values `ZipInsert` leaves: an old key that is not paired keeps its
   value, and a later insert of the same key overwrites an earlier one, so
   the last occurrence of a paired key decides its value.
   */
  lemma {:induction false} ZipInsertValues<K(!new), V>(m: map<K, V>, ks: seq<K>, vs: seq<V>)
    ensures var r, n := ZipInsert(m, ks, vs), Min(|ks|, |vs|);
      && (forall k :: k in m && k !in ks[..n] ==> r[k] == m[k])
      && (forall i :: 0 <= i < n && ks[i] !in ks[i + 1..n] ==> r[ks[i]] == vs[i])
    decreases |ks|
  {
    if ks != [] && vs != [] {
      var n := Min(|ks|, |vs|);
      ZipInsertValues(m[ks[0] := vs[0]], ks[1..], vs[1..]);
      assert Min(|ks[1..]|, |vs[1..]|) == n - 1;
      assert ks[1..][..n - 1] == ks[1..n];
      assert ks[..n] == [ks[0]] + ks[1..n];
      assert forall i :: 1 <= i < n ==> ks[1..][i - 1] == ks[i] && ks[1..][i..n - 1] == ks[i + 1..n];
    }
  }

  /**
   The map of seeded slots built by `search_for_biggest_files` before the
   walk. What it holds is stated by `InitialResultMapSeedsEveryPattern`.
   */
  function InitialResultMap(config: Config): map<Pattern, SearchResult>
  {
    var s := CreateInitialSearchResult(config);
    ZipInsert(map[], s.patterns, s.slots)
  }

  /**
   The seeded map has exactly one key per distinct configured pattern, each
   holding "not found" with that pattern's message.
   */
  lemma InitialResultMapSeedsEveryPattern(config: Config)
    ensures var m := InitialResultMap(config);
      && (forall q :: q in m <==> q in config.searchPatterns)
      && (forall q :: q in m ==> m[q] == NoFileFound(NotFoundMessage(q)))
  {
    var s := CreateInitialSearchResult(config);
    var ps, slots := s.patterns, s.slots;
    var m := ZipInsert(map[], ps, slots);
    ZipInsertValues(map[], ps, slots);
    assert Min(|ps|, |slots|) == |ps|;
    assert ps[..|ps|] == ps;
    forall q | q in m
      ensures m[q] == NoFileFound(NotFoundMessage(q))
    {
      var i := LastIndexOf(ps, q);
      assert ps[i + 1..|ps|] == ps[i + 1..];
      assert m[ps[i]] == slots[i];
    }
  }

  /** The position of the last occurrence of `x` in `s`. */
  function LastIndexOf<T(==)>(s: seq<T>, x: T): (i: int)
    requires x in s
    ensures 0 <= i < |s| && s[i] == x && x !in s[i + 1..]
    decreases |s|
  {
    if s[|s| - 1] == x then |s| - 1
    else
      assert x in s[..|s| - 1] by { var j :| 0 <= j < |s| && s[j] == x; assert s[..|s| - 1][j] == x; }
      LastIndexOf(s[..|s| - 1], x)
  }
}

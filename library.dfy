/**
 * The persisted record (`json_data`) as a typed registry, the filesystem as
 * an abstract map from a directory to its listing, and the two directory
 * reads the engine performs: the scan for new series directories and the
 * list of episode files of one series.
 */
module Library {
  import opened Options
  import opened Strings

  type Path = string

  /** One entry of `os.scandir`: its name, its full path and its kind. */
  datatype DirEntry = DirEntry(name: string, path: Path, isDir: bool, isFile: bool)

  /**
   * Each readable directory mapped to its listing, in the order `scandir`
   * yields it. A directory that is not a key cannot be read: `scandir` raises.
   */
  type FileSystem = map<Path, seq<DirEntry>>

  /** `{"path": ..., "seen": ..., "tracks": [audio, subtitle] | null}`; a missing "tracks" key reads as `None`. */
  datatype SeriesEntry = SeriesEntry(path: Path, seen: int, tracks: Option<(int, int)>)

  /** `{"previous": ..., "base_dir": ..., "series": {...}, "ignored_directories": [...]}` */
  datatype Registry = Registry(
    previous: Option<string>,
    baseDir: Path,
    series: map<string, SeriesEntry>,
    ignored: seq<Path>)

  /** The paths registered as series, `[series[show]["path"] for show in series]`. */
  function RegisteredPaths(series: map<string, SeriesEntry>): set<Path> {
    set n | n in series :: series[n].path
  }

  /** `name.startswith('.')` */
  predicate Hidden(e: DirEntry) {
    |e.name| > 0 && e.name[0] == '.'
  }

  /** An entry the scan reports: visible, a directory, and not yet a series. */
  predicate IsCandidate(e: DirEntry, series: map<string, SeriesEntry>) {
    !Hidden(e) && e.isDir && e.path !in RegisteredPaths(series)
  }

  ghost predicate Distinct<T>(s: seq<T>) {
    forall i, j :: 0 <= i < j < |s| ==> s[i] != s[j]
  }

  /** `a` is `b` with some elements left out, the rest in their order. */
  ghost predicate Subsequence<T>(a: seq<T>, b: seq<T>)
    decreases |b|
  {
    a == [] || (b != [] &&
      ((a[|a| - 1] == b[|b| - 1] && Subsequence(a[..|a| - 1], b[..|b| - 1]))
       || Subsequence(a, b[..|b| - 1])))
  }

  function Paths(entries: seq<DirEntry>): (r: seq<Path>)
    ensures |r| == |entries| && forall i :: 0 <= i < |entries| ==> r[i] == entries[i].path
  {
    seq(|entries|, i requires 0 <= i < |entries| => entries[i].path)
  }

  /** Some entry of the listing is a candidate with path `p`. */
  ghost predicate CandidateAt(entries: seq<DirEntry>, series: map<string, SeriesEntry>, p: Path) {
    exists i :: 0 <= i < |entries| && IsCandidate(entries[i], series) && entries[i].path == p
  }

  /** What one scan finds: candidates that were ignored last run, and new ones. */
  datatype ScanResult = ScanResult(refound: seq<Path>, unseen: seq<Path>)

  lemma SubsequenceExtend<T>(a: seq<T>, b: seq<T>, x: T)
    requires Subsequence(a, b)
    ensures Subsequence(a, b + [x]) && Subsequence(a + [x], b + [x])
  {
    assert (b + [x])[..|b|] == b;
    assert (a + [x])[..|a|] == a;
  }

  lemma CandidateAtSnoc(entries: seq<DirEntry>, series: map<string, SeriesEntry>)
    requires entries != []
    ensures var init, e := entries[..|entries| - 1], entries[|entries| - 1];
      forall p :: CandidateAt(entries, series, p) <==> CandidateAt(init, series, p) || (IsCandidate(e, series) && e.path == p)
  {
    var init, e := entries[..|entries| - 1], entries[|entries| - 1];
    forall p ensures CandidateAt(entries, series, p) ==> CandidateAt(init, series, p) || (IsCandidate(e, series) && e.path == p) {
      if CandidateAt(entries, series, p) {
        var i :| 0 <= i < |entries| && IsCandidate(entries[i], series) && entries[i].path == p;
        if i < |init| {
          assert init[i] == entries[i];
        }
      }
    }
    forall p | CandidateAt(init, series, p) ensures CandidateAt(entries, series, p) {
      var i :| 0 <= i < |init| && IsCandidate(init[i], series) && init[i].path == p;
      assert entries[i] == init[i];
    }
  }

  /**
   * `scan_for_new_dirs` over one listing: a visible, unregistered directory
   * goes to `refound` when the ignore snapshot holds its path, otherwise to
   * `unseen`; both keep the listing's order.
   */
  function Scan(entries: seq<DirEntry>, series: map<string, SeriesEntry>, snapshot: seq<Path>): ScanResult {
    if entries == [] then ScanResult([], [])
    else
      var e := entries[|entries| - 1];
      var prev := Scan(entries[..|entries| - 1], series, snapshot);
      if !IsCandidate(e, series) then prev
      else if e.path in snapshot then prev.(refound := prev.refound + [e.path])
      else prev.(unseen := prev.unseen + [e.path])
  }

  /**
   * Every candidate of the listing goes to exactly one of the two lists,
   * decided by the snapshot, and nothing else goes to either.
   */
  lemma {:induction false} ScanPartitions(entries: seq<DirEntry>, series: map<string, SeriesEntry>, snapshot: seq<Path>)
    ensures var r := Scan(entries, series, snapshot);
      && (forall p :: p in r.refound ==> p in snapshot)
      && (forall p :: p in r.unseen ==> p !in snapshot)
      && (forall p :: p in r.refound || p in r.unseen <==> CandidateAt(entries, series, p))
  {
    if entries != [] {
      ScanPartitions(entries[..|entries| - 1], series, snapshot);
      CandidateAtSnoc(entries, series);
    }
  }

  /** Both lists keep the listing's order. */
  lemma {:induction false} ScanKeepsOrder(entries: seq<DirEntry>, series: map<string, SeriesEntry>, snapshot: seq<Path>)
    ensures Subsequence(Scan(entries, series, snapshot).refound, Paths(entries))
    ensures Subsequence(Scan(entries, series, snapshot).unseen, Paths(entries))
  {
    if entries != [] {
      var init := entries[..|entries| - 1];
      var e := entries[|entries| - 1];
      ScanKeepsOrder(init, series, snapshot);
      var prev := Scan(init, series, snapshot);
      assert Paths(entries) == Paths(init) + [e.path];
      SubsequenceExtend(prev.refound, Paths(init), e.path);
      SubsequenceExtend(prev.unseen, Paths(init), e.path);
    } else {
      assert Scan(entries, series, snapshot) == ScanResult([], []);
    }
  }

  /** A listing whose paths are pairwise different scans to lists without repetition. */
  lemma {:induction false} ScanDistinct(entries: seq<DirEntry>, series: map<string, SeriesEntry>, snapshot: seq<Path>)
    requires forall i, j :: 0 <= i < j < |entries| ==> entries[i].path != entries[j].path
    ensures Distinct(Scan(entries, series, snapshot).refound) && Distinct(Scan(entries, series, snapshot).unseen)
  {
    if entries != [] {
      var init := entries[..|entries| - 1];
      var e := entries[|entries| - 1];
      ScanDistinct(init, series, snapshot);
      ScanPartitions(init, series, snapshot);
      var prev := Scan(init, series, snapshot);
      forall p | p in prev.refound || p in prev.unseen ensures p != e.path {
        assert CandidateAt(init, series, p);
        var i :| 0 <= i < |init| && IsCandidate(init[i], series) && init[i].path == p;
        assert entries[i] == init[i];
      }
    }
  }

  /** The paths of the file entries, in listing order. */
  function FilePaths(entries: seq<DirEntry>): seq<Path> {
    if entries == [] then []
    else
      var e := entries[|entries| - 1];
      FilePaths(entries[..|entries| - 1]) + if e.isFile then [e.path] else []
  }

  lemma {:induction false} FilePathsMembers(entries: seq<DirEntry>)
    ensures forall p :: p in FilePaths(entries) <==> exists i :: 0 <= i < |entries| && entries[i].isFile && entries[i].path == p
  {
    if entries != [] {
      var init := entries[..|entries| - 1];
      FilePathsMembers(init);
      assert forall i :: 0 <= i < |init| ==> entries[i] == init[i];
    }
  }

  /**
   * `get_episodes`: the paths of the files (hidden ones included) directly in
   * `dir`, sorted ascending; `None` where `scandir` raises.
   */
  function Episodes(fs: FileSystem, dir: Path): Option<seq<Path>> {
    if dir in fs then Some(Sort(FilePaths(fs[dir]))) else None
  }

  /**
   * The episode list exists exactly for a listed directory, is ascending,
   * and holds each file path of the listing as often as the listing does.
   */
  lemma EpisodesAreSortedFiles(fs: FileSystem, dir: Path)
    ensures Episodes(fs, dir).Some? <==> dir in fs
    ensures dir in fs ==> var eps := Episodes(fs, dir).value;
      && Ascending(eps)
      && multiset(eps) == multiset(FilePaths(fs[dir]))
      && forall p :: p in eps <==> exists i :: 0 <= i < |fs[dir]| && fs[dir][i].isFile && fs[dir][i].path == p
  {
    if dir in fs {
      var eps := Episodes(fs, dir).value;
      SortSorted(FilePaths(fs[dir]));
      FilePathsMembers(fs[dir]);
      assert forall p :: p in eps <==> p in multiset(eps);
      assert forall p :: p in FilePaths(fs[dir]) <==> p in multiset(FilePaths(fs[dir]));
    }
  }

  /** The episode list is the only ascending arrangement of the directory's files. */
  lemma EpisodesUnique(fs: FileSystem, dir: Path, eps: seq<Path>)
    requires dir in fs && Ascending(eps) && multiset(eps) == multiset(FilePaths(fs[dir]))
    ensures Episodes(fs, dir) == Some(eps)
  {
    EpisodesAreSortedFiles(fs, dir);
    AscendingUnique(eps, Episodes(fs, dir).value);
  }
}

/**
 * `add_new_series`: clear the ignore list, scan the base directory, and ask
 * about every new directory in a worklist that a "Recurse" answer extends
 * with that directory's own new subdirectories.
 */
module Discovery {
  import opened Options
  import opened Library

  /** A recognised answer for one directory. */
  datatype Decision = Ignored | Added(name: string) | Recursed

  /** Why a pass stops early: `input` hit end of file, or `scandir` raised. */
  datatype Crash = EndOfInput | MissingDirectory(dir: Path)

  /**
   * The `while True` prompt for one directory: "I", "A" followed by a line
   * holding the name, or "R"; any other line asks again. `None` when the
   * input ends first.
   */
  function Ask(inp: seq<string>): (r: Option<(Decision, seq<string>)>)
    ensures r.Some? ==> |r.value.1| < |inp| && r.value.1 == inp[|inp| - |r.value.1|..]
  {
    if inp == [] then None
    else if inp[0] == "I" then Some((Ignored, inp[1..]))
    else if inp[0] == "A" then (if |inp| < 2 then None else Some((Added(inp[1]), inp[2..])))
    else if inp[0] == "R" then Some((Recursed, inp[1..]))
    else Ask(inp[1..])
  }

  /** Lines other than "I", "A" and "R" are skipped: the prompt only repeats. */
  lemma {:induction false} AskSkipsUnrecognised(inp: seq<string>, k: nat)
    requires k <= |inp|
    requires forall i :: 0 <= i < k ==> inp[i] !in {"I", "A", "R"}
    ensures Ask(inp) == Ask(inp[k..])
  {
    if k > 0 {
      AskSkipsUnrecognised(inp[1..], k - 1);
      assert inp[1..][k - 1..] == inp[k..];
    }
  }

  /**
   * The first "I", "A" or "R" line decides: "I" is Ignore and "R" is
   * Recurse; "A" is Add with the next line as the name, and the input
   * ending before that line is the end of input.
   */
  lemma AskFirstRecognised(inp: seq<string>, k: nat)
    requires k < |inp| && inp[k] in {"I", "A", "R"}
    requires forall i :: 0 <= i < k ==> inp[i] !in {"I", "A", "R"}
    ensures inp[k] == "I" ==> Ask(inp) == Some((Ignored, inp[k + 1..]))
    ensures inp[k] == "R" ==> Ask(inp) == Some((Recursed, inp[k + 1..]))
    ensures inp[k] == "A" && k + 1 < |inp| ==> Ask(inp) == Some((Added(inp[k + 1]), inp[k + 2..]))
    ensures inp[k] == "A" && k + 1 == |inp| ==> Ask(inp) == None
  {
    AskSkipsUnrecognised(inp, k);
    var t := inp[k..];
    assert t[0] == inp[k] && t[1..] == inp[k + 1..];
    if |t| >= 2 {
      assert t[1] == inp[k + 1] && t[2..] == inp[k + 2..];
    }
  }

  /** Input holding no "I", "A" or "R" line ends without an answer. */
  lemma AskNoAnswer(inp: seq<string>)
    requires forall i :: 0 <= i < |inp| ==> inp[i] !in {"I", "A", "R"}
    ensures Ask(inp) == None
  {
    AskSkipsUnrecognised(inp, |inp|);
  }

  datatype StepOutcome = Stepped(reg: Registry, work: seq<Path>) | StepFailed(reg: Registry, dir: Path)

  /** The effect of decision `d` on directory `p` (watchnext.py:241-251). */
  function Step(fs: FileSystem, snapshot: seq<Path>, reg: Registry, work: seq<Path>, p: Path, d: Decision): (r: StepOutcome)
    ensures r.reg.previous == reg.previous && r.reg.baseDir == reg.baseDir
    ensures r.Stepped? ==> |r.work| >= |work| && r.work[..|work|] == work
    ensures d.Ignored? ==> r.Stepped? && r.work == work && r.reg.series == reg.series && r.reg.ignored == reg.ignored + [p]
    ensures d.Added? ==>
      && r.Stepped? && r.work == work && r.reg.ignored == reg.ignored
      && r.reg.series.Keys == reg.series.Keys + {d.name}
      && r.reg.series[d.name] == SeriesEntry(p, 0, None)
      && (forall n :: n in reg.series && n != d.name ==> r.reg.series[n] == reg.series[n])
    ensures d.Recursed? ==>
      && r.reg.series == reg.series
      && |r.reg.ignored| > |reg.ignored|
      && r.reg.ignored[..|reg.ignored| + 1] == reg.ignored + [p]
      && (r.Stepped? <==> p in fs)
      && (r.StepFailed? ==> r.dir == p && r.reg.ignored == reg.ignored + [p])
      && (r.Stepped? ==> forall q :: q in r.work[|work|..] ==> CandidateAt(fs[p], reg.series, q) && q !in snapshot)
      && (r.Stepped? ==> forall q :: q in r.reg.ignored[|reg.ignored| + 1..] ==> CandidateAt(fs[p], reg.series, q) && q in snapshot)
      && (r.Stepped? ==> var sc := Scan(fs[p], reg.series, snapshot);
            r.work == work + sc.unseen && r.reg.ignored == reg.ignored + [p] + sc.refound)
  {
    match d
    case Ignored => Stepped(reg.(ignored := reg.ignored + [p]), work)
    case Added(name) => Stepped(reg.(series := reg.series[name := SeriesEntry(p, 0, None)]), work)
    case Recursed =>
      var marked := reg.(ignored := reg.ignored + [p]);
      if p !in fs then StepFailed(marked, p)
      else
        var sc := Scan(fs[p], reg.series, snapshot);
        ScanPartitions(fs[p], reg.series, snapshot);
        var r := Stepped(marked.(ignored := marked.ignored + sc.refound), work + sc.unseen);
        assert r.work[|work|..] == sc.unseen;
        assert r.reg.ignored[|reg.ignored| + 1..] == sc.refound;
        r
  }

  datatype PassOutcome =
    | Finished(reg: Registry, work: seq<Path>, log: seq<Decision>, rest: seq<string>)
    | Crashed(reg: Registry, reason: Crash)

  /**
   * The `for entry in new_dirs` loop from position `|log|` on: `log` holds
   * the decisions taken for `work[..|log|]`, `snapshot` the ignore list of
   * the previous run.
   */
  ghost function Pass(fs: FileSystem, snapshot: seq<Path>, reg: Registry, work: seq<Path>, log: seq<Decision>, inp: seq<string>): PassOutcome
    requires |log| <= |work|
    decreases |inp|, |work| - |log|
  {
    if |log| == |work| then Finished(reg, work, log, inp)
    else match Ask(inp)
      case None => Crashed(reg, EndOfInput)
      case Some((d, rest)) =>
        match Step(fs, snapshot, reg, work, work[|log|], d)
        case StepFailed(r, dir) => Crashed(r, MissingDirectory(dir))
        case Stepped(r, w) => Pass(fs, snapshot, r, w, log + [d], rest)
  }

  /** The whole of `add_new_series`. */
  ghost function Reconcile(fs: FileSystem, reg: Registry, inp: seq<string>): PassOutcome {
    var snapshot := reg.ignored;
    var cleared := reg.(ignored := []);
    if reg.baseDir !in fs then Crashed(cleared, MissingDirectory(reg.baseDir))
    else
      var sc := Scan(fs[reg.baseDir], reg.series, snapshot);
      Pass(fs, snapshot, cleared.(ignored := sc.refound), sc.unseen, [], inp)
  }

  // ---------------------------------------------------------------------
  // Where the ignored paths come from (holds of every filesystem)
  // ---------------------------------------------------------------------

  /** `q` is a classified worklist entry answered Ignore or Recurse. */
  ghost predicate IgnoredEntry(work: seq<Path>, log: seq<Decision>, q: Path) {
    exists k :: 0 <= k < |log| && k < |work| && work[k] == q && !log[k].Added?
  }

  ghost predicate Origins(snapshot: seq<Path>, reg: Registry, work: seq<Path>, log: seq<Decision>) {
    && |log| <= |work|
    && (forall q :: q in reg.ignored ==> q in snapshot || IgnoredEntry(work, log, q))
    && (forall k :: 0 <= k < |log| && !log[k].Added? ==> work[k] in reg.ignored)
  }

  lemma {:induction false} PassOrigins(fs: FileSystem, snapshot: seq<Path>, reg: Registry, work: seq<Path>, log: seq<Decision>, inp: seq<string>)
    requires Origins(snapshot, reg, work, log)
    ensures var o := Pass(fs, snapshot, reg, work, log, inp);
      o.Finished? ==> Origins(snapshot, o.reg, o.work, o.log) && |o.log| == |o.work|
    decreases |inp|, |work| - |log|
  {
    if |log| < |work| {
      match Ask(inp)
      case None =>
      case Some((d, rest)) =>
        var p := work[|log|];
        match Step(fs, snapshot, reg, work, p, d)
        case StepFailed(_, _) =>
        case Stepped(r, w) =>
          var log' := log + [d];
          forall q | q in r.ignored ensures q in snapshot || IgnoredEntry(w, log', q) {
            if q in reg.ignored {
              if !(q in snapshot) {
                var k :| 0 <= k < |log| && k < |work| && work[k] == q && !log[k].Added?;
                assert w[k] == q && log'[k] == log[k];
              }
            } else if q == p {
              assert w[|log|] == p && log'[|log|] == d;
            } else {
              assert d.Recursed?;
              assert r.ignored == (reg.ignored + [p]) + r.ignored[|reg.ignored| + 1..];
            }
          }
          forall k | 0 <= k < |log'| && !log'[k].Added? ensures w[k] in r.ignored {
            if k < |log| {
              assert w[k] == work[k] && log'[k] == log[k];
              assert work[k] in reg.ignored;
              if d.Recursed? {
                assert reg.ignored + [p] == r.ignored[..|reg.ignored| + 1];
                assert work[k] in r.ignored[..|reg.ignored| + 1];
              }
            } else {
              assert w[k] == p;
              if d.Recursed? {
                assert r.ignored[|reg.ignored|] == p;
              }
            }
          }
          PassOrigins(fs, snapshot, r, w, log', rest);
    }
  }

  /**
   * After a completed pass every directory in the worklist has a decision;
   * every ignored path was on last run's list or was answered Ignore or
   * Recurse, and every directory answered Ignore or Recurse is ignored.
   */
  lemma ReconcileOrigins(fs: FileSystem, reg: Registry, inp: seq<string>)
    ensures var o := Reconcile(fs, reg, inp);
      o.Finished? ==>
        && |o.log| == |o.work|
        && (forall q :: q in o.reg.ignored ==> q in reg.ignored || IgnoredEntry(o.work, o.log, q))
        && (forall k :: 0 <= k < |o.log| && !o.log[k].Added? ==> o.work[k] in o.reg.ignored)
  {
    if reg.baseDir in fs {
      var sc := Scan(fs[reg.baseDir], reg.series, reg.ignored);
      ScanPartitions(fs[reg.baseDir], reg.series, reg.ignored);
      PassOrigins(fs, reg.ignored, reg.(ignored := sc.refound), sc.unseen, [], inp);
    }
  }

  // ---------------------------------------------------------------------
  // The series map only changes through Add answers
  // ---------------------------------------------------------------------

  /** `after` keeps every series of `before` that no Add in `ds` named, and adds only named ones. */
  ghost predicate SeriesFrame(before: map<string, SeriesEntry>, after: map<string, SeriesEntry>, ds: seq<Decision>) {
    && (forall n :: n in before && Added(n) !in ds ==> n in after && after[n] == before[n])
    && (forall n :: n in after ==> n in before || Added(n) in ds)
  }

  lemma SeriesFrameCompose(s0: map<string, SeriesEntry>, s1: map<string, SeriesEntry>, s2: map<string, SeriesEntry>, d: Decision, ds: seq<Decision>)
    requires SeriesFrame(s0, s1, [d]) && SeriesFrame(s1, s2, ds)
    ensures SeriesFrame(s0, s2, [d] + ds)
  {
    forall n | n in s0 && Added(n) !in [d] + ds ensures n in s2 && s2[n] == s0[n] {
      assert Added(n) !in [d];
    }
  }

  lemma StepSeriesFrame(fs: FileSystem, snapshot: seq<Path>, reg: Registry, work: seq<Path>, p: Path, d: Decision)
    ensures SeriesFrame(reg.series, Step(fs, snapshot, reg, work, p, d).reg.series, [d])
  {
  }

  lemma PrefixOfPrefix<T>(full: seq<T>, mid: seq<T>, short: seq<T>)
    requires |short| <= |mid| <= |full| && full[..|mid|] == mid && mid[..|short|] == short
    ensures full[..|short|] == short
  {
    assert full[..|short|] == full[..|mid|][..|short|];
  }

  lemma SliceAfter<T>(full: seq<T>, log: seq<T>, d: T)
    requires |log| + 1 <= |full| && full[..|log| + 1] == log + [d]
    ensures full[|log|..] == [d] + full[|log| + 1..]
  {
    assert full[|log|] == (log + [d])[|log|];
  }

  lemma {:induction false} PassSeriesFrame(fs: FileSystem, snapshot: seq<Path>, reg: Registry, work: seq<Path>, log: seq<Decision>, inp: seq<string>)
    requires |log| <= |work|
    ensures var o := Pass(fs, snapshot, reg, work, log, inp);
      o.Finished? ==>
        && o.reg.previous == reg.previous && o.reg.baseDir == reg.baseDir
        && |work| <= |o.work| && o.work[..|work|] == work
        && |log| <= |o.log| && o.log[..|log|] == log
        && SeriesFrame(reg.series, o.reg.series, o.log[|log|..])
    decreases |inp|, |work| - |log|
  {
    if |log| < |work| {
      match Ask(inp)
      case None =>
      case Some((d, rest)) =>
        var s := Step(fs, snapshot, reg, work, work[|log|], d);
        if s.Stepped? {
          var log' := log + [d];
          StepSeriesFrame(fs, snapshot, reg, work, work[|log|], d);
          PassSeriesFrame(fs, snapshot, s.reg, s.work, log', rest);
          var o := Pass(fs, snapshot, s.reg, s.work, log', rest);
          assert Pass(fs, snapshot, reg, work, log, inp) == o;
          if o.Finished? {
            SliceAfter(o.log, log, d);
            SeriesFrameCompose(reg.series, s.reg.series, o.reg.series, d, o.log[|log'|..]);
            PrefixOfPrefix(o.log, log', log);
            PrefixOfPrefix(o.work, s.work, work);
          }
        }
    }
  }

  /**
   * A completed pass keeps `previous` and `base_dir`, keeps every series no
   * Add answer named, and adds only names that an Add answer gave.
   */
  lemma ReconcileSeriesFrame(fs: FileSystem, reg: Registry, inp: seq<string>)
    ensures var o := Reconcile(fs, reg, inp);
      o.Finished? ==>
        && o.reg.previous == reg.previous && o.reg.baseDir == reg.baseDir
        && (forall n :: n in reg.series && Added(n) !in o.log ==> n in o.reg.series && o.reg.series[n] == reg.series[n])
        && (forall n :: n in o.reg.series ==> n in reg.series || Added(n) in o.log)
  {
    if reg.baseDir in fs {
      var sc := Scan(fs[reg.baseDir], reg.series, reg.ignored);
      PassSeriesFrame(fs, reg.ignored, reg.(ignored := sc.refound), sc.unseen, [], inp);
      var o := Reconcile(fs, reg, inp);
      if o.Finished? {
        assert o.log[0..] == o.log;
      }
    }
  }

  // ---------------------------------------------------------------------
  // A quiet run changes nothing the next time
  // ---------------------------------------------------------------------

  lemma {:induction false} ScanSameDecisions(entries: seq<DirEntry>, series: map<string, SeriesEntry>, s1: seq<Path>, s2: seq<Path>)
    requires forall p :: CandidateAt(entries, series, p) ==> (p in s1 <==> p in s2)
    ensures Scan(entries, series, s1) == Scan(entries, series, s2)
  {
    if entries != [] {
      CandidateAtSnoc(entries, series);
      ScanSameDecisions(entries[..|entries| - 1], series, s1, s2);
    }
  }

  /**
   * When the base directory holds no new directory, the pass only re-finds
   * ignored paths; running it again on its own result, with any input,
   * changes nothing and asks nothing.
   */
  lemma ReconcileQuietIsIdempotent(fs: FileSystem, reg: Registry, inp: seq<string>, inp2: seq<string>)
    requires Reconcile(fs, reg, inp).Finished? && Reconcile(fs, reg, inp).work == []
    ensures var r := Reconcile(fs, reg, inp).reg;
      Reconcile(fs, r, inp2) == Finished(r, [], [], inp2)
  {
    var entries := fs[reg.baseDir];
    var sc := Scan(entries, reg.series, reg.ignored);
    var r := reg.(ignored := sc.refound);
    PassSeriesFrame(fs, reg.ignored, r, sc.unseen, [], inp);
    assert sc.unseen == [];
    assert Reconcile(fs, reg, inp).reg == r;
    ScanPartitions(entries, reg.series, reg.ignored);
    forall p | CandidateAt(entries, reg.series, p) ensures p in reg.ignored <==> p in sc.refound {
    }
    ScanSameDecisions(entries, reg.series, reg.ignored, sc.refound);
  }

  // ---------------------------------------------------------------------
  // On a well-formed filesystem an Add answer is never also ignored
  // ---------------------------------------------------------------------

  /** `p` is an entry of the listing of `d`. */
  ghost predicate ChildOf(fs: FileSystem, d: Path, p: Path) {
    d in fs && exists i :: 0 <= i < |fs[d]| && fs[d][i].path == p
  }

  /**
   * What a real directory tree guarantees: a listing does not repeat a path,
   * a path is listed by at most one directory, and it is longer than the
   * path of the directory that lists it.
   */
  ghost predicate WellFormed(fs: FileSystem) {
    && (forall d, i, j :: d in fs && 0 <= i < j < |fs[d]| ==> fs[d][i].path != fs[d][j].path)
    && (forall d1, d2, p :: ChildOf(fs, d1, p) && ChildOf(fs, d2, p) ==> d1 == d2)
    && (forall d, p :: ChildOf(fs, d, p) ==> |p| > |d|)
  }

  ghost predicate Found(fs: FileSystem, scanned: set<Path>, q: Path) {
    exists d :: d in scanned && ChildOf(fs, d, q)
  }

  /**
   * The invariant of a pass on a well-formed filesystem. `found` holds the
   * re-found paths so far, `scanned` the directories listed so far.
   */
  ghost predicate Tracked(fs: FileSystem, base: Path, reg: Registry, work: seq<Path>, log: seq<Decision>, found: set<Path>, scanned: set<Path>) {
    && |log| <= |work|
    && Distinct(work)
    && (forall k :: 0 <= k < |work| ==> work[k] !in found)
    && (forall q :: q in found ==> Found(fs, scanned, q) && |q| > |base|)
    && (forall k :: 0 <= k < |work| ==> Found(fs, scanned, work[k]) && |work[k]| > |base|)
    && (forall d :: d in scanned ==> d == base || exists k :: 0 <= k < |log| && work[k] == d)
    && (forall k :: |log| <= k < |work| ==> work[k] !in RegisteredPaths(reg.series))
    && (forall q :: q in reg.ignored ==> q !in RegisteredPaths(reg.series))
    && (forall q :: q in reg.ignored ==> q in found || IgnoredEntry(work, log, q))
  }

  /** A child of the directory being recursed into was not met before. */
  lemma ChildIsNew(fs: FileSystem, base: Path, reg: Registry, work: seq<Path>, log: seq<Decision>, found: set<Path>, scanned: set<Path>, q: Path)
    requires WellFormed(fs) && Tracked(fs, base, reg, work, log, found, scanned)
    requires |log| < |work| && ChildOf(fs, work[|log|], q)
    ensures q !in found && forall k :: 0 <= k < |work| ==> work[k] != q
  {
    var d := work[|log|];
    forall d' | d' in scanned ensures d' != d {
      if d' != base {
        var k :| 0 <= k < |log| && work[k] == d';
        assert work[k] != work[|log|];
      }
    }
    assert !Found(fs, scanned, q);
  }

  lemma CandidateIsChild(fs: FileSystem, d: Path, series: map<string, SeriesEntry>, q: Path)
    requires d in fs && CandidateAt(fs[d], series, q)
    ensures ChildOf(fs, d, q) && q !in RegisteredPaths(series)
  {
  }

  lemma RegisteredAfterAdd(series: map<string, SeriesEntry>, name: string, p: Path)
    ensures RegisteredPaths(series[name := SeriesEntry(p, 0, None)]) <= RegisteredPaths(series) + {p}
  {
  }

  lemma TrackedIgnore(fs: FileSystem, snapshot: seq<Path>, base: Path, reg: Registry, work: seq<Path>, log: seq<Decision>, found: set<Path>, scanned: set<Path>)
    requires Tracked(fs, base, reg, work, log, found, scanned) && |log| < |work|
    ensures Tracked(fs, base, reg.(ignored := reg.ignored + [work[|log|]]), work, log + [Ignored], found, scanned)
  {
    var p := work[|log|];
    var log' := log + [Ignored];
    var r := reg.(ignored := reg.ignored + [p]);
    forall q | q in r.ignored ensures q in found || IgnoredEntry(work, log', q) {
      if q == p {
        assert log'[|log|] == Ignored;
      } else {
        assert q in reg.ignored;
        if q !in found {
          var k :| 0 <= k < |log| && k < |work| && work[k] == q && !log[k].Added?;
          assert log'[k] == log[k];
        }
      }
    }
    forall d | d in scanned ensures d == base || exists k :: 0 <= k < |log'| && work[k] == d {
      if d != base {
        var k :| 0 <= k < |log| && work[k] == d;
        assert k < |log'|;
      }
    }
  }

  lemma TrackedAdd(fs: FileSystem, snapshot: seq<Path>, base: Path, reg: Registry, work: seq<Path>, log: seq<Decision>, found: set<Path>, scanned: set<Path>, name: string)
    requires Tracked(fs, base, reg, work, log, found, scanned) && |log| < |work|
    ensures Tracked(fs, base, reg.(series := reg.series[name := SeriesEntry(work[|log|], 0, None)]), work, log + [Added(name)], found, scanned)
  {
    var p := work[|log|];
    var log' := log + [Added(name)];
    var r := reg.(series := reg.series[name := SeriesEntry(p, 0, None)]);
    RegisteredAfterAdd(reg.series, name, p);
    forall k | |log'| <= k < |work| ensures work[k] !in RegisteredPaths(r.series) {
      assert work[k] != p;
    }
    forall q | q in r.ignored ensures q !in RegisteredPaths(r.series) && (q in found || IgnoredEntry(work, log', q)) {
      if q !in found {
        var k :| 0 <= k < |log| && k < |work| && work[k] == q && !log[k].Added?;
        assert log'[k] == log[k];
        assert q != p;
      } else {
        assert q != p;
      }
    }
    forall d | d in scanned ensures d == base || exists k :: 0 <= k < |log'| && work[k] == d {
      if d != base {
        var k :| 0 <= k < |log| && work[k] == d;
        assert k < |log'|;
      }
    }
  }

  /**
   * The directories a Recurse answer on `p` adds to the ignore list and to
   * the worklist: children of `p`, unregistered, and met for the first time.
   */
  ghost predicate NewBatch(fs: FileSystem, base: Path, reg: Registry, work: seq<Path>, found: set<Path>, p: Path, sc: ScanResult) {
    && Distinct(sc.refound) && Distinct(sc.unseen)
    && (forall q :: q in sc.refound ==> q !in sc.unseen)
    && (forall q :: q in sc.refound || q in sc.unseen ==>
          ChildOf(fs, p, q) && q !in RegisteredPaths(reg.series) && q !in found && |q| > |base| && q !in work)
  }

  lemma BatchIsNew(fs: FileSystem, snapshot: seq<Path>, base: Path, reg: Registry, work: seq<Path>, log: seq<Decision>, found: set<Path>, scanned: set<Path>)
    requires WellFormed(fs) && Tracked(fs, base, reg, work, log, found, scanned) && |log| < |work|
    requires work[|log|] in fs
    ensures NewBatch(fs, base, reg, work, found, work[|log|], Scan(fs[work[|log|]], reg.series, snapshot))
  {
    var p := work[|log|];
    var sc := Scan(fs[p], reg.series, snapshot);
    ScanPartitions(fs[p], reg.series, snapshot);
    assert forall i, j :: 0 <= i < j < |fs[p]| ==> fs[p][i].path != fs[p][j].path;
    ScanDistinct(fs[p], reg.series, snapshot);
    assert |p| > |base|;
    forall q | q in sc.refound || q in sc.unseen
      ensures ChildOf(fs, p, q) && q !in RegisteredPaths(reg.series) && q !in found && |q| > |base| && q !in work
    {
      CandidateIsChild(fs, p, reg.series, q);
      ChildIsNew(fs, base, reg, work, log, found, scanned, q);
    }
  }

  lemma AppendDistinct(work: seq<Path>, unseen: seq<Path>)
    requires Distinct(work) && Distinct(unseen) && forall q :: q in unseen ==> q !in work
    ensures Distinct(work + unseen)
  {
    var w := work + unseen;
    forall i, j | 0 <= i < j < |w| ensures w[i] != w[j] {
      if j >= |work| {
        assert w[j] == unseen[j - |work|] && w[j] in unseen;
        if i >= |work| {
          assert w[i] == unseen[i - |work|];
        } else {
          assert w[i] == work[i] && w[i] in work;
        }
      }
    }
  }

  lemma RecurseWork(fs: FileSystem, base: Path, reg: Registry, work: seq<Path>, log: seq<Decision>, found: set<Path>, scanned: set<Path>, sc: ScanResult)
    requires Tracked(fs, base, reg, work, log, found, scanned) && |log| < |work|
    requires NewBatch(fs, base, reg, work, found, work[|log|], sc)
    ensures var w := work + sc.unseen;
      var found' := found + (set q | q in sc.refound);
      var scanned' := scanned + {work[|log|]};
      && (forall k :: 0 <= k < |w| ==> w[k] !in found' && Found(fs, scanned', w[k]) && |w[k]| > |base|)
      && (forall q :: q in found' ==> Found(fs, scanned', q) && |q| > |base|)
      && (forall k :: |log| + 1 <= k < |w| ==> w[k] !in RegisteredPaths(reg.series))
  {
    var p := work[|log|];
    var w := work + sc.unseen;
    var found' := found + (set q | q in sc.refound);
    var scanned' := scanned + {p};
    forall k | 0 <= k < |w| ensures w[k] !in found' && Found(fs, scanned', w[k]) && |w[k]| > |base| {
      if k >= |work| {
        assert w[k] == sc.unseen[k - |work|];
        assert ChildOf(fs, p, w[k]);
      } else {
        assert w[k] == work[k];
        assert Found(fs, scanned, work[k]);
      }
    }
    forall q | q in found' ensures Found(fs, scanned', q) && |q| > |base| {
      if q in sc.refound {
        assert ChildOf(fs, p, q);
      } else {
        assert Found(fs, scanned, q);
      }
    }
    forall k | |log| + 1 <= k < |w| ensures w[k] !in RegisteredPaths(reg.series) {
      if k >= |work| {
        assert w[k] == sc.unseen[k - |work|];
      }
    }
  }

  lemma RecurseIgnored(base: Path, reg: Registry, work: seq<Path>, log: seq<Decision>, found: set<Path>, scanned: set<Path>, sc: ScanResult, fs: FileSystem)
    requires Tracked(fs, base, reg, work, log, found, scanned) && |log| < |work|
    requires NewBatch(fs, base, reg, work, found, work[|log|], sc)
    ensures var p := work[|log|];
      var w := work + sc.unseen;
      var log' := log + [Recursed];
      var found' := found + (set q | q in sc.refound);
      forall q :: q in reg.ignored + [p] + sc.refound ==> q !in RegisteredPaths(reg.series) && (q in found' || IgnoredEntry(w, log', q))
  {
    var p := work[|log|];
    var w := work + sc.unseen;
    var log' := log + [Recursed];
    var found' := found + (set q | q in sc.refound);
    forall q | q in reg.ignored + [p] + sc.refound ensures q !in RegisteredPaths(reg.series) && (q in found' || IgnoredEntry(w, log', q)) {
      if q == p {
        assert w[|log|] == p && log'[|log|] == Recursed;
      } else if q in reg.ignored {
        if q !in found {
          var k :| 0 <= k < |log| && k < |work| && work[k] == q && !log[k].Added?;
          assert w[k] == q && log'[k] == log[k];
        }
      }
    }
  }

  lemma RecurseScanned(base: Path, work: seq<Path>, log: seq<Decision>, scanned: set<Path>, unseen: seq<Path>)
    requires |log| < |work|
    requires forall d :: d in scanned ==> d == base || exists k :: 0 <= k < |log| && work[k] == d
    ensures var w := work + unseen;
      forall d :: d in scanned + {work[|log|]} ==> d == base || exists k :: 0 <= k < |log| + 1 && w[k] == d
  {
    var p := work[|log|];
    var w := work + unseen;
    forall d | d in scanned + {p} ensures d == base || exists k :: 0 <= k < |log| + 1 && w[k] == d {
      if d == p {
        assert w[|log|] == p;
      } else if d != base {
        var k :| 0 <= k < |log| && work[k] == d;
        assert w[k] == d;
      }
    }
  }

  lemma TrackedRecurse(fs: FileSystem, snapshot: seq<Path>, base: Path, reg: Registry, work: seq<Path>, log: seq<Decision>, found: set<Path>, scanned: set<Path>)
    requires WellFormed(fs) && Tracked(fs, base, reg, work, log, found, scanned) && |log| < |work|
    requires work[|log|] in fs
    ensures var p := work[|log|];
      var sc := Scan(fs[p], reg.series, snapshot);
      Tracked(fs, base, reg.(ignored := reg.ignored + [p] + sc.refound), work + sc.unseen, log + [Recursed],
              found + (set q | q in sc.refound), scanned + {p})
  {
    var p := work[|log|];
    var sc := Scan(fs[p], reg.series, snapshot);
    BatchIsNew(fs, snapshot, base, reg, work, log, found, scanned);
    AppendDistinct(work, sc.unseen);
    RecurseWork(fs, base, reg, work, log, found, scanned, sc);
    RecurseIgnored(base, reg, work, log, found, scanned, sc, fs);
    RecurseScanned(base, work, log, scanned, sc.unseen);
  }

  /** One answered directory keeps the invariant; returns the new ghost sets. */
  lemma TrackedStep(fs: FileSystem, snapshot: seq<Path>, base: Path, reg: Registry, work: seq<Path>, log: seq<Decision>, found: set<Path>, scanned: set<Path>, d: Decision)
      returns (found': set<Path>, scanned': set<Path>)
    requires WellFormed(fs) && Tracked(fs, base, reg, work, log, found, scanned) && |log| < |work|
    requires Step(fs, snapshot, reg, work, work[|log|], d).Stepped?
    ensures var s := Step(fs, snapshot, reg, work, work[|log|], d);
      Tracked(fs, base, s.reg, s.work, log + [d], found', scanned')
  {
    var p := work[|log|];
    match d
    case Ignored =>
      TrackedIgnore(fs, snapshot, base, reg, work, log, found, scanned);
      found', scanned' := found, scanned;
    case Added(name) =>
      TrackedAdd(fs, snapshot, base, reg, work, log, found, scanned, name);
      found', scanned' := found, scanned;
    case Recursed =>
      var sc := Scan(fs[p], reg.series, snapshot);
      TrackedRecurse(fs, snapshot, base, reg, work, log, found, scanned);
      found', scanned' := found + (set q | q in sc.refound), scanned + {p};
  }

  lemma TrackedFinal(fs: FileSystem, base: Path, reg: Registry, work: seq<Path>, log: seq<Decision>, found: set<Path>, scanned: set<Path>)
    requires Tracked(fs, base, reg, work, log, found, scanned) && |log| == |work|
    ensures forall k :: 0 <= k < |log| && k < |work| && log[k].Added? ==> work[k] !in reg.ignored
  {
    forall k | 0 <= k < |log| && log[k].Added? ensures work[k] !in reg.ignored {
      forall j | 0 <= j < |work| && work[j] == work[k] ensures j == k {
      }
      assert !IgnoredEntry(work, log, work[k]);
    }
  }

  lemma {:induction false} PassExclusive(fs: FileSystem, snapshot: seq<Path>, base: Path, reg: Registry, work: seq<Path>, log: seq<Decision>, inp: seq<string>, found: set<Path>, scanned: set<Path>)
    requires WellFormed(fs) && Tracked(fs, base, reg, work, log, found, scanned)
    ensures var o := Pass(fs, snapshot, reg, work, log, inp);
      o.Finished? ==>
        && (forall k :: 0 <= k < |o.log| && k < |o.work| && o.log[k].Added? ==> o.work[k] !in o.reg.ignored)
        && (forall q :: q in o.reg.ignored ==> q !in RegisteredPaths(o.reg.series))
    decreases |inp|, |work| - |log|
  {
    if |log| == |work| {
      TrackedFinal(fs, base, reg, work, log, found, scanned);
    } else {
      match Ask(inp)
      case None =>
      case Some((d, rest)) =>
        var s := Step(fs, snapshot, reg, work, work[|log|], d);
        if s.Stepped? {
          var found', scanned' := TrackedStep(fs, snapshot, base, reg, work, log, found, scanned, d);
          PassExclusive(fs, snapshot, base, s.reg, s.work, log + [d], rest, found', scanned');
        }
    }
  }

  /**
   * On a well-formed filesystem, after a completed pass: no directory
   * answered Add is on the ignore list, and no ignored path is also the path
   * of a registered series.
   */
  lemma ReconcileExclusive(fs: FileSystem, reg: Registry, inp: seq<string>)
    requires WellFormed(fs)
    ensures var o := Reconcile(fs, reg, inp);
      o.Finished? ==>
        && (forall k :: 0 <= k < |o.log| && k < |o.work| && o.log[k].Added? ==> o.work[k] !in o.reg.ignored)
        && (forall q :: q in o.reg.ignored ==> q !in RegisteredPaths(o.reg.series))
  {
    var base := reg.baseDir;
    if base in fs {
      var snapshot := reg.ignored;
      var sc := Scan(fs[base], reg.series, snapshot);
      ScanPartitions(fs[base], reg.series, snapshot);
      ScanDistinct(fs[base], reg.series, snapshot);
      var r := reg.(ignored := sc.refound);
      var found := set q | q in sc.refound;
      forall q | q in sc.refound || q in sc.unseen ensures ChildOf(fs, base, q) && q !in RegisteredPaths(reg.series) {
        CandidateIsChild(fs, base, reg.series, q);
      }
      forall k | 0 <= k < |sc.unseen| ensures sc.unseen[k] !in found {
        assert sc.unseen[k] in sc.unseen;
        assert sc.unseen[k] !in snapshot;
        assert sc.unseen[k] !in sc.refound;
      }
      assert Tracked(fs, base, r, sc.unseen, [], found, {base});
      PassExclusive(fs, snapshot, base, r, sc.unseen, [], inp, found, {base});
    }
  }
}

/**
 * `select`: after `add_new_series`, list every registered series sorted by
 * name with its episodes, then prompt until an answer names one of them.
 */
module Selection {
  import opened Options
  import opened Strings
  import opened Numerals
  import opened Library
  import opened Discovery

  /** One row of the pick list: name, starting episode index, episode files. */
  datatype Pick = Pick(name: string, start: int, episodes: seq<Path>)

  /** The row of a series whose directory is listed: its name, its `seen` count, its episodes. */
  ghost function RowFor(fs: FileSystem, series: map<string, SeriesEntry>, name: string): Pick
    requires name in series && series[name].path in fs
  {
    Pick(name, series[name].seen, Episodes(fs, series[name].path).value)
  }

  /**
   * The rows for `names`, in that order; `Err(dir)` for the directory of the
   * first series whose listing fails.
   */
  function PicksFor(fs: FileSystem, series: map<string, SeriesEntry>, names: seq<string>): Result<seq<Pick>, Path>
    requires forall n :: n in names ==> n in series
  {
    if names == [] then Ok([])
    else
      var n := names[|names| - 1];
      match PicksFor(fs, series, names[..|names| - 1])
      case Err(dir) => Err(dir)
      case Ok(picks) =>
        match Episodes(fs, series[n].path)
        case None => Err(series[n].path)
        case Some(eps) => Ok(picks + [Pick(n, series[n].seen, eps)])
  }

  /** The list succeeds exactly when every directory is listed. */
  lemma {:induction false} PicksForSucceeds(fs: FileSystem, series: map<string, SeriesEntry>, names: seq<string>)
    requires forall n :: n in names ==> n in series
    ensures PicksFor(fs, series, names).Ok? <==> forall i :: 0 <= i < |names| ==> series[names[i]].path in fs
  {
    if names != [] {
      var init := names[..|names| - 1];
      var last := |names| - 1;
      PicksForSucceeds(fs, series, init);
      if PicksFor(fs, series, names).Ok? {
        forall i | 0 <= i < |names| ensures series[names[i]].path in fs {
          if i < last {
            assert names[i] == init[i];
          }
        }
      } else if PicksFor(fs, series, init).Err? {
        var i :| 0 <= i < |init| && series[init[i]].path !in fs;
        assert names[i] == init[i];
      }
    }
  }

  /** The rows follow `names`, one per name, when every directory is listed. */
  lemma {:induction false} PicksForRows(fs: FileSystem, series: map<string, SeriesEntry>, names: seq<string>)
    requires forall n :: n in names ==> n in series
    requires forall i :: 0 <= i < |names| ==> series[names[i]].path in fs
    ensures PicksFor(fs, series, names).Ok?
    ensures var rows := PicksFor(fs, series, names).value;
      |rows| == |names| && forall i :: 0 <= i < |names| ==> rows[i] == RowFor(fs, series, names[i])
  {
    PicksForSucceeds(fs, series, names);
    if names != [] {
      var init := names[..|names| - 1];
      var last := |names| - 1;
      assert forall i :: 0 <= i < last ==> names[i] == init[i];
      PicksForRows(fs, series, init);
      var prev := PicksFor(fs, series, init).value;
      var rows := prev + [RowFor(fs, series, names[last])];
      assert PicksFor(fs, series, names) == Ok(rows);
      forall i | 0 <= i < last ensures rows[i] == RowFor(fs, series, names[i]) {
        assert rows[i] == prev[i];
      }
    }
  }

  /** A failure names the directory of the first series, in list order, that is not listed. */
  lemma {:induction false} PicksForFirstFailure(fs: FileSystem, series: map<string, SeriesEntry>, names: seq<string>)
    requires forall n :: n in names ==> n in series
    ensures var r := PicksFor(fs, series, names);
      r.Err? ==> exists i :: (0 <= i < |names| && series[names[i]].path == r.error && r.error !in fs
        && forall j :: 0 <= j < i ==> series[names[j]].path in fs)
  {
    if names != [] {
      var init := names[..|names| - 1];
      var last := |names| - 1;
      PicksForFirstFailure(fs, series, init);
      PicksForSucceeds(fs, series, init);
      var r := PicksFor(fs, series, names);
      var prev := PicksFor(fs, series, init);
      assert forall i :: 0 <= i < last ==> names[i] == init[i];
      if prev.Err? {
        var i :| 0 <= i < |init| && series[init[i]].path == prev.error && prev.error !in fs
          && forall j :: 0 <= j < i ==> series[init[j]].path in fs;
        assert series[names[i]].path == r.error;
      } else if r.Err? {
        assert series[names[last]].path == r.error;
      }
    }
  }

  /** One more name: its row is appended, or its missing directory is the failure. */
  lemma PicksForNext(fs: FileSystem, series: map<string, SeriesEntry>, names: seq<string>, i: nat, rows: seq<Pick>)
    requires forall n :: n in names ==> n in series
    requires i < |names| && PicksFor(fs, series, names[..i]) == Ok(rows)
    ensures var path := series[names[i]].path;
      PicksFor(fs, series, names[..i + 1]) ==
        if path in fs then Ok(rows + [Pick(names[i], series[names[i]].seen, Episodes(fs, path).value)]) else Err(path)
  {
    assert names[..i + 1][..i] == names[..i];
  }

  /** Once a directory in `names[..k]` fails, the longer list fails on it too. */
  lemma {:induction false} PicksForFailureStays(fs: FileSystem, series: map<string, SeriesEntry>, names: seq<string>, k: nat)
    requires forall n :: n in names ==> n in series
    requires k <= |names| && PicksFor(fs, series, names[..k]).Err?
    ensures PicksFor(fs, series, names) == PicksFor(fs, series, names[..k])
    decreases |names|
  {
    if k < |names| {
      var init := names[..|names| - 1];
      assert init[..k] == names[..k];
      PicksForFailureStays(fs, series, init, k);
    } else {
      assert names[..k] == names;
    }
  }

  /** The pick list of `select`: the rows of all registered names, in sorted order. */
  function PickList(fs: FileSystem, series: map<string, SeriesEntry>): Result<seq<Pick>, Path> {
    PicksFor(fs, series, SortedNames(series.Keys))
  }

  /**
   * The pick list: one row per registered series, names strictly ascending,
   * each row starting at the series' `seen` count with its sorted episodes.
   * It fails on the first series, in name order, whose directory is missing.
   */
  lemma PickListRows(fs: FileSystem, series: map<string, SeriesEntry>)
    ensures var r := PickList(fs, series);
      && (r.Ok? <==> forall n :: n in series ==> series[n].path in fs)
      && (r.Ok? ==>
        && |r.value| == |series|
        && (forall n :: n in series <==> exists i :: 0 <= i < |r.value| && r.value[i].name == n)
        && (forall i, j :: 0 <= i < j < |r.value| ==> LexLt(r.value[i].name, r.value[j].name))
        && (forall i :: 0 <= i < |r.value| ==>
              && r.value[i].name in series
              && r.value[i].start == series[r.value[i].name].seen
              && Episodes(fs, series[r.value[i].name].path) == Some(r.value[i].episodes)))
      && (r.Err? ==> exists n :: (n in series && series[n].path == r.error && r.error !in fs
            && forall m :: m in series && LexLt(m, n) ==> series[m].path in fs))
  {
    var names := SortedNames(series.Keys);
    PickListOrder(fs, series, names);
    var r := PicksFor(fs, series, names);
    if r.Ok? {
      PicksForSucceeds(fs, series, names);
      PicksForRows(fs, series, names);
      RowsInNameOrder(fs, series, names, r.value);
    }
  }

  lemma RowsInNameOrder(fs: FileSystem, series: map<string, SeriesEntry>, names: seq<string>, rows: seq<Pick>)
    requires StrictlyAscending(names) && |names| == |series| && forall n :: n in names <==> n in series
    requires forall n :: n in series ==> series[n].path in fs
    requires |rows| == |names| && forall i :: 0 <= i < |names| ==> rows[i] == RowFor(fs, series, names[i])
    ensures |rows| == |series|
    ensures forall n :: n in series <==> exists i :: 0 <= i < |rows| && rows[i].name == n
    ensures forall i, j :: 0 <= i < j < |rows| ==> LexLt(rows[i].name, rows[j].name)
    ensures forall i :: 0 <= i < |rows| ==>
      && rows[i].name in series
      && rows[i].start == series[rows[i].name].seen
      && Episodes(fs, series[rows[i].name].path) == Some(rows[i].episodes)
  {
    forall i | 0 <= i < |rows| ensures rows[i].name == names[i] && names[i] in series {
      assert names[i] in names;
    }
    forall n | n in series ensures exists i :: 0 <= i < |rows| && rows[i].name == n {
      var i :| 0 <= i < |names| && names[i] == n;
      assert rows[i].name == n;
    }
  }

  lemma PickListOrder(fs: FileSystem, series: map<string, SeriesEntry>, names: seq<string>)
    requires StrictlyAscending(names) && forall n :: n in names <==> n in series
    ensures var r := PicksFor(fs, series, names);
      && (r.Ok? <==> forall n :: n in series ==> series[n].path in fs)
      && (r.Err? ==> exists n :: (n in series && series[n].path == r.error && r.error !in fs
            && forall m :: m in series && LexLt(m, n) ==> series[m].path in fs))
  {
    PicksForSucceeds(fs, series, names);
    var r := PicksFor(fs, series, names);
    if r.Err? {
      PicksForFirstFailure(fs, series, names);
      var i :| 0 <= i < |names| && series[names[i]].path == r.error && r.error !in fs
        && forall j :: 0 <= j < i ==> series[names[j]].path in fs;
      forall m | m in series && LexLt(m, names[i]) ensures series[m].path in fs {
        var j :| 0 <= j < |names| && names[j] == m;
        if j > i {
          LexLeAntisymmetric(names[i], names[j]);
        }
      }
    } else {
      forall n | n in series ensures series[n].path in fs {
        var j :| 0 <= j < |names| && names[j] == n;
      }
    }
  }

  /** The last row named `name`: the `for` loop at the empty answer keeps overwriting. */
  function LastNamed(picks: seq<Pick>, name: string): (r: Option<Pick>)
    ensures r.None? <==> forall i :: 0 <= i < |picks| ==> picks[i].name != name
    ensures r.Some? ==> exists i :: (0 <= i < |picks| && picks[i] == r.value && r.value.name == name
      && forall j :: i < j < |picks| ==> picks[j].name != name)
  {
    if picks == [] then None
    else if picks[|picks| - 1].name == name then Some(picks[|picks| - 1])
    else LastNamed(picks[..|picks| - 1], name)
  }

  /** Why an answer sends the user back to the prompt. */
  datatype SelectError =
    | NoPrevious         // `previous` is None: subscripting it raises TypeError
    | EmptyPrevious      // `previous` is "": subscripting it raises IndexError
    | PreviousNotListed  // no row matched: unpacking '' raises ValueError
    | NotANumber         // `int(answer)` raises ValueError
    | OutOfRange         // below 1, or past the end of the pick list

  datatype Resolution = Chosen(pick: Pick, previous: Option<string>) | Retry(why: SelectError)

  /** The effect of one answer at the prompt; `previous` is the registry's. */
  function ResolveAnswer(answer: string, previous: Option<string>, picks: seq<Pick>): Resolution
  {
    if answer == "" then
      match previous
      case None => Retry(NoPrevious)
      case Some(name) =>
        if name == "" then Retry(EmptyPrevious)
        else match LastNamed(picks, name)
          case None => Retry(PreviousNotListed)
          case Some(p) => Chosen(p, previous)
    else
      match ParseInt(answer)
      case None => Retry(NotANumber)
      case Some(n) =>
        if n < 1 || n > |picks| then Retry(OutOfRange)
        else Chosen(picks[n - 1], Some(picks[n - 1].name))
  }

  /**
   * An empty answer resolves to the row named `previous`, when `previous`
   * is a non-empty name that has a row, and keeps `previous`. Any other
   * answer resolves exactly when it parses as a number n with
   * 1 <= n <= |picks|, picks row n-1 and makes its name `previous`.
   */
  lemma ResolveAnswerMeaning(answer: string, previous: Option<string>, picks: seq<Pick>)
    ensures var r := ResolveAnswer(answer, previous, picks);
      && (answer == "" ==>
            (r.Chosen? <==> previous.Some? && previous.value != "" && exists i :: 0 <= i < |picks| && picks[i].name == previous.value))
      && (answer == "" && r.Chosen? ==> r.pick in picks && Some(r.pick.name) == previous && r.previous == previous)
      && (answer != "" ==> (r.Chosen? <==> ParseInt(answer).Some? && 1 <= ParseInt(answer).value <= |picks|))
      && (answer != "" && r.Chosen? ==> r.pick == picks[ParseInt(answer).value - 1] && r.previous == Some(r.pick.name))
      && (answer != "" && r.Retry? ==> r.why == (if ParseInt(answer).None? then NotANumber else OutOfRange))
  {
  }

  datatype PromptOutcome = Resolved(pick: Pick, previous: Option<string>, rest: seq<string>) | Exhausted

  /**
   * The prompt loop: the first answer that resolves wins. When the input
   * ends, the catch-all handler swallows the EOFError and asks forever;
   * that is `Exhausted` here.
   */
  function Prompt(inp: seq<string>, previous: Option<string>, picks: seq<Pick>): PromptOutcome {
    if inp == [] then Exhausted
    else match ResolveAnswer(inp[0], previous, picks)
      case Chosen(p, prev) => Resolved(p, prev, inp[1..])
      case Retry(_) => Prompt(inp[1..], previous, picks)
  }

  /** The prompt resolves on the first answer that resolves. */
  lemma {:induction false} PromptFirstResolving(inp: seq<string>, previous: Option<string>, picks: seq<Pick>)
    ensures var r := Prompt(inp, previous, picks);
      r.Resolved? ==> exists k :: (0 <= k < |inp|
        && (forall i :: 0 <= i < k ==> ResolveAnswer(inp[i], previous, picks).Retry?)
        && ResolveAnswer(inp[k], previous, picks) == Chosen(r.pick, r.previous)
        && r.rest == inp[k + 1..])
  {
    if inp != [] && ResolveAnswer(inp[0], previous, picks).Retry? {
      var tail := inp[1..];
      PromptFirstResolving(tail, previous, picks);
      var r := Prompt(tail, previous, picks);
      if r.Resolved? {
        var k :| 0 <= k < |tail|
          && (forall i :: 0 <= i < k ==> ResolveAnswer(tail[i], previous, picks).Retry?)
          && ResolveAnswer(tail[k], previous, picks) == Chosen(r.pick, r.previous)
          && r.rest == tail[k + 1..];
        assert tail[k + 1..] == inp[k + 2..];
        assert inp[k + 1] == tail[k];
        RetriesShift(inp, previous, picks, k);
      }
    }
  }

  /** A retried first answer followed by `k` retried answers makes `k + 1`. */
  lemma RetriesShift(inp: seq<string>, previous: Option<string>, picks: seq<Pick>, k: nat)
    requires k < |inp| && ResolveAnswer(inp[0], previous, picks).Retry?
    requires forall i :: 0 <= i < k ==> ResolveAnswer(inp[1..][i], previous, picks).Retry?
    ensures forall i :: 0 <= i < k + 1 ==> ResolveAnswer(inp[i], previous, picks).Retry?
  {
    forall i | 0 < i < k + 1 ensures ResolveAnswer(inp[i], previous, picks).Retry? {
      assert inp[i] == inp[1..][i - 1];
    }
  }

  /** The prompt runs out of input exactly when no answer resolves. */
  lemma {:induction false} PromptExhausted(inp: seq<string>, previous: Option<string>, picks: seq<Pick>)
    ensures Prompt(inp, previous, picks).Exhausted? <==> forall i :: 0 <= i < |inp| ==> ResolveAnswer(inp[i], previous, picks).Retry?
  {
    if inp != [] && ResolveAnswer(inp[0], previous, picks).Retry? {
      PromptExhausted(inp[1..], previous, picks);
      assert forall i :: 1 <= i < |inp| ==> inp[i] == inp[1..][i - 1];
    }
  }

  datatype SelectOutcome =
    | SelectCrashed(reg: Registry, reason: Crash)
    | Unanswered(reg: Registry)
    | Selected(reg: Registry, pick: Pick, rest: seq<string>)

  /** The whole of `select`, from the registry as loaded. */
  ghost function SelectSpec(fs: FileSystem, reg: Registry, inp: seq<string>): SelectOutcome {
    match Reconcile(fs, reg, inp)
    case Crashed(r, why) => SelectCrashed(r, why)
    case Finished(r, _, _, rest) =>
      match PickList(fs, r.series)
      case Err(dir) => SelectCrashed(r, MissingDirectory(dir))
      case Ok(picks) =>
        match Prompt(rest, r.previous, picks)
        case Exhausted => Unanswered(r)
        case Resolved(p, prev, rest') => Selected(r.(previous := prev), p, rest')
  }

  /**
   * A selection names a registered series, starts at its `seen` count with
   * its sorted episode list, and leaves `previous` naming it; apart from
   * `previous` the registry is the one the reconciliation produced.
   */
  lemma SelectedIsRegistered(fs: FileSystem, reg: Registry, inp: seq<string>)
    ensures var o := SelectSpec(fs, reg, inp);
      o.Selected? ==>
        && Reconcile(fs, reg, inp).Finished?
        && o.reg == Reconcile(fs, reg, inp).reg.(previous := Some(o.pick.name))
        && o.pick.name in o.reg.series
        && o.pick.start == o.reg.series[o.pick.name].seen
        && Episodes(fs, o.reg.series[o.pick.name].path) == Some(o.pick.episodes)
  {
    var o := SelectSpec(fs, reg, inp);
    if o.Selected? {
      var f := Reconcile(fs, reg, inp);
      var picks := PickList(fs, f.reg.series).value;
      var pr := Prompt(f.rest, f.reg.previous, picks);
      PromptFirstResolving(f.rest, f.reg.previous, picks);
      var k :| 0 <= k < |f.rest| && ResolveAnswer(f.rest[k], f.reg.previous, picks) == Chosen(pr.pick, pr.previous);
      ResolveAnswerMeaning(f.rest[k], f.reg.previous, picks);
      PickListRows(fs, f.reg.series);
      assert pr.pick in picks;
      var i :| 0 <= i < |picks| && picks[i] == pr.pick;
    }
  }
}

/**
 * The `Watchnext` object: the loaded registry (`json_data`) plus the series
 * being watched, its episode index and episode list, all updated in place.
 */
module Engine {
  import opened Options
  import opened Strings
  import opened Numerals
  import opened Library
  import opened Discovery
  import opened Selection

  /** Python's `s[i]`: a negative index counts from the end; `None` where it raises IndexError. */
  function PyIndex<T>(s: seq<T>, i: int): (r: Option<T>)
    ensures r.Some? <==> -|s| <= i < |s|
    ensures 0 <= i < |s| ==> r == Some(s[i])
    ensures i < 0 && r.Some? ==> r == Some(s[|s| + i])
  {
    if 0 <= i < |s| then Some(s[i])
    else if -|s| <= i < 0 then Some(s[|s| + i])
    else None
  }

  /** The registry with the `seen` count of series `name` moved by `delta`. */
  function Bump(reg: Registry, name: string, delta: int): (r: Registry)
    requires name in reg.series
    ensures r.previous == reg.previous && r.baseDir == reg.baseDir && r.ignored == reg.ignored
    ensures r.series.Keys == reg.series.Keys
    ensures r.series[name].seen == reg.series[name].seen + delta
    ensures r.series[name].path == reg.series[name].path && r.series[name].tracks == reg.series[name].tracks
    ensures forall n :: n in reg.series && n != name ==> r.series[n] == reg.series[n]
  {
    reg.(series := reg.series[name := reg.series[name].(seen := reg.series[name].seen + delta)])
  }

  /** Moving a count forward and back again restores the registry. */
  lemma BumpUndo(reg: Registry, name: string, delta: int)
    requires name in reg.series
    ensures Bump(Bump(reg, name, delta), name, -delta) == reg
  {
    var back := Bump(Bump(reg, name, delta), name, -delta);
    assert back.series[name] == reg.series[name];
    assert back.series == reg.series;
  }

  type Byte = b: int | 0 <= b < 256

  /** One entry of the player's track description: the track id and its label, as bytes. */
  datatype TrackInfo = TrackInfo(id: int, name: seq<Byte>)

  /** Every label decodes as ASCII, so printing the list does not raise. */
  predicate Printable(tracks: seq<TrackInfo>) {
    forall k, i :: 0 <= k < |tracks| && 0 <= i < |tracks[k].name| ==> tracks[k].name[i] < 128
  }

  /**
   * The track-choice block of `start`: when the series has no stored pair,
   * print the audio tracks, read an audio track number with
   * `int(input())`, print the subtitle tracks, read a subtitle track
   * number; `None` where a label is not ASCII or a read raises.
   */
  function ChooseTracks(entry: SeriesEntry, audios: seq<TrackInfo>, subss: seq<TrackInfo>, inp: seq<string>)
    : (r: Option<(SeriesEntry, seq<string>)>)
    ensures entry.tracks.Some? ==> r == Some((entry, inp))
    ensures entry.tracks.None? ==>
      (r.Some? <==> Printable(audios) && Printable(subss) && |inp| >= 2 && ParseInt(inp[0]).Some? && ParseInt(inp[1]).Some?)
    ensures entry.tracks.None? && r.Some? ==>
      && r.value.0 == entry.(tracks := Some((ParseInt(inp[0]).value, ParseInt(inp[1]).value)))
      && r.value.1 == inp[2..]
  {
    if entry.tracks.Some? then Some((entry, inp))
    else if !Printable(audios) || inp == [] then None
    else match ParseInt(inp[0])
      case None => None
      case Some(audio) =>
        if !Printable(subss) || |inp| < 2 then None
        else match ParseInt(inp[1])
          case None => None
          case Some(subs) => Some((entry.(tracks := Some((audio, subs))), inp[2..]))
  }

  /** Once chosen, the pair is reused: a second start reads no input, prints no label, and keeps it. */
  lemma TracksChosenOnce(entry: SeriesEntry, audios: seq<TrackInfo>, subss: seq<TrackInfo>, inp: seq<string>,
                         audios': seq<TrackInfo>, subss': seq<TrackInfo>, later: seq<string>)
    requires ChooseTracks(entry, audios, subss, inp).Some?
    ensures var e := ChooseTracks(entry, audios, subss, inp).value.0;
      && e.path == entry.path && e.seen == entry.seen && e.tracks.Some?
      && ChooseTracks(e, audios', subss', later) == Some((e, later))
  {
  }

  /** Whether `select` finished, and how. */
  datatype Status = Failed(reason: Crash) | NoAnswer | Chose

  class Watchnext {
    var data: Registry
    var series: string
    var index: int
    var episodes: seq<Path>

    /** The object over an already loaded registry, before any selection. */
    constructor (reg: Registry)
      ensures data == reg && series == "" && index == 0 && episodes == []
    {
      data := reg;
      series := "";
      index := 0;
      episodes := [];
    }

    /** A series has been selected and is still registered. */
    ghost predicate Watching()
      reads this
    {
      series in data.series
    }

    /** How far `seen` is ahead of the episode index. */
    ghost function Lag(): int
      reads this
      requires Watching()
    {
      data.series[series].seen - index
    }

    /**
     * `scan_for_new_dirs`: returns the unseen candidates of `dir` and appends
     * the candidates found in `ignore` to the ignore list; `ok` is false where
     * `scandir` raises.
     */
    method ScanForNewDirs(fs: FileSystem, dir: Path, ignore: seq<Path>) returns (ok: bool, found: seq<Path>)
      modifies this
      ensures series == old(series) && index == old(index) && episodes == old(episodes)
      ensures ok <==> dir in fs
      ensures ok ==> var sc := Scan(fs[dir], old(data.series), ignore);
        found == sc.unseen && data == old(data).(ignored := old(data.ignored) + sc.refound)
      ensures !ok ==> data == old(data)
    {
      if dir !in fs {
        return false, [];
      }
      var entries := fs[dir];
      found := [];
      var k := 0;
      while k < |entries|
        invariant 0 <= k <= |entries|
        invariant series == old(series) && index == old(index) && episodes == old(episodes)
        invariant data == old(data).(ignored := old(data.ignored) + Scan(entries[..k], old(data.series), ignore).refound)
        invariant found == Scan(entries[..k], old(data.series), ignore).unseen
      {
        var entry := entries[k];
        assert entries[..k + 1][..k] == entries[..k];
        if !Hidden(entry) && entry.isDir && entry.path !in RegisteredPaths(data.series) {
          if entry.path in ignore {
            data := data.(ignored := data.ignored + [entry.path]);
          } else {
            found := found + [entry.path];
          }
        }
        k := k + 1;
      }
      assert entries[..k] == entries;
      ok := true;
    }

    /**
     * The `while True` prompt for one directory of `add_new_series`: reads
     * lines until one is "I", "A" (then the name line) or "R"; `None` when
     * the input ends first.
     */
    static method ReadDecision(inp: seq<string>) returns (decision: Option<Decision>, rest: seq<string>)
      ensures decision.None? ==> Ask(inp).None?
      ensures decision.Some? ==> Ask(inp) == Some((decision.value, rest))
    {
      rest := inp;
      while rest != []
        invariant Ask(rest) == Ask(inp)
        decreases |rest|
      {
        var answer := rest[0];
        if answer == "I" {
          return Some(Ignored), rest[1..];
        } else if answer == "A" {
          if |rest| < 2 {
            return None, [];
          }
          return Some(Added(rest[1])), rest[2..];
        } else if answer == "R" {
          return Some(Recursed), rest[1..];
        }
        rest := rest[1..];
      }
      return None, [];
    }

    /**
     * The effect of one answer on the worklist entry `entry` (the three
     * branches of the prompt in `add_new_series`); `ok` is false where the
     * Recurse scan raises.
     */
    method Apply(fs: FileSystem, snapshot: seq<Path>, work: seq<Path>, entry: Path, decision: Decision)
        returns (ok: bool, work': seq<Path>)
      modifies this
      ensures series == old(series) && index == old(index) && episodes == old(episodes)
      ensures Step(fs, snapshot, old(data), work, entry, decision) ==
        (if ok then Stepped(data, work') else StepFailed(data, entry))
    {
      match decision
      case Ignored =>
        data := data.(ignored := data.ignored + [entry]);
        ok, work' := true, work;
      case Added(name) =>
        data := data.(series := data.series[name := SeriesEntry(entry, 0, None)]);
        ok, work' := true, work;
      case Recursed =>
        data := data.(ignored := data.ignored + [entry]);
        var found;
        ok, found := ScanForNewDirs(fs, entry, snapshot);
        work' := work + found;
    }

    /**
     * `add_new_series`: the worklist pass of `Reconcile`. `failure` tells
     * why it stopped early; `rest` is the input left over.
     */
    method AddNewSeries(fs: FileSystem, inp: seq<string>) returns (failure: Option<Crash>, rest: seq<string>)
      modifies this
      ensures series == old(series) && index == old(index) && episodes == old(episodes)
      ensures var o := Reconcile(fs, old(data), inp);
        && data == o.reg
        && (failure.Some? <==> o.Crashed?)
        && (o.Crashed? ==> failure == Some(o.reason))
        && (o.Finished? ==> rest == o.rest)
    {
      var snapshot := data.ignored;
      data := data.(ignored := []);
      var ok, work := ScanForNewDirs(fs, data.baseDir, snapshot);
      if !ok {
        return Some(MissingDirectory(data.baseDir)), inp;
      }
      assert data == old(data).(ignored := Scan(fs[data.baseDir], old(data.series), snapshot).refound);
      ghost var log: seq<Decision> := [];
      rest := inp;
      var k := 0;
      while k < |work|
        invariant 0 <= k <= |work| && |log| == k
        invariant series == old(series) && index == old(index) && episodes == old(episodes)
        invariant Pass(fs, snapshot, data, work, log, rest) == Reconcile(fs, old(data), inp)
        decreases |rest|
      {
        var decision, left := ReadDecision(rest);
        if decision.None? {
          return Some(EndOfInput), left;
        }
        ghost var before, asked := data, rest;
        var pending := work;
        ok, work := Apply(fs, snapshot, work, work[k], decision.value);
        if !ok {
          return Some(MissingDirectory(pending[k])), left;
        }
        assert Pass(fs, snapshot, before, pending, log, asked) == Pass(fs, snapshot, data, work, log + [decision.value], left);
        log := log + [decision.value];
        rest := left;
        k := k + 1;
      }
      failure := None;
    }

    /**
     * The pick-list loop of `select`: for each registered name in sorted
     * order, `get_episodes` on its directory and a row starting at `seen`.
     */
    method BuildPickList(fs: FileSystem) returns (listing: Result<seq<Pick>, Path>)
      ensures listing == PickList(fs, data.series)
    {
      var series := data.series;
      var names := SortedNames(series.Keys);
      var rows: seq<Pick> := [];
      var i := 0;
      while i < |names|
        invariant 0 <= i <= |names|
        invariant PicksFor(fs, series, names[..i]) == Ok(rows)
      {
        PicksForNext(fs, series, names, i, rows);
        var name := names[i];
        var episodesOf := Episodes(fs, series[name].path);
        if episodesOf.None? {
          PicksForFailureStays(fs, series, names, i + 1);
          return Err(series[name].path);
        }
        rows := rows + [Pick(name, series[name].seen, episodesOf.value)];
        i := i + 1;
      }
      assert names[..i] == names;
      return Ok(rows);
    }

    /** The `for` loop over the pick list at an empty answer: the last row named `name`. */
    static method FindPrevious(picks: seq<Pick>, name: string) returns (found: Option<Pick>)
      ensures found == LastNamed(picks, name)
    {
      found := None;
      var i := 0;
      while i < |picks|
        invariant 0 <= i <= |picks|
        invariant found == LastNamed(picks[..i], name)
      {
        assert picks[..i + 1][..i] == picks[..i];
        if picks[i].name == name {
          found := Some(picks[i]);
        }
        i := i + 1;
      }
      assert picks[..i] == picks;
    }

    /**
     * `select`: reconcile, build the pick list, then prompt until an answer
     * resolves. On `Chose` the object watches the chosen series from its
     * `seen` count.
     */
    method Select(fs: FileSystem, inp: seq<string>) returns (status: Status, rest: seq<string>)
      modifies this
      ensures var o := SelectSpec(fs, old(data), inp);
        && data == o.reg
        && (status.Failed? <==> o.SelectCrashed?)
        && (o.SelectCrashed? ==> status.reason == o.reason)
        && (status.NoAnswer? <==> o.Unanswered?)
        && (status.Chose? <==> o.Selected?)
        && (o.Selected? ==> series == o.pick.name && index == o.pick.start && episodes == o.pick.episodes && rest == o.rest)
        && (!o.Selected? ==> series == old(series) && index == old(index) && episodes == old(episodes))
    {
      var failure, left := AddNewSeries(fs, inp);
      if failure.Some? {
        return Failed(failure.value), left;
      }
      var listing := BuildPickList(fs);
      if listing.Err? {
        return Failed(MissingDirectory(listing.error)), left;
      }
      var answer := AskWhich(left, data.previous, listing.value);
      match answer
      case Exhausted =>
        status, rest := NoAnswer, [];
      case Resolved(pick, previous, left') =>
        data := data.(previous := previous);
        series, index, episodes := pick.name, pick.start, pick.episodes;
        status, rest := Chose, left';
    }

    /**
     * The prompt loop of `select`: reads answers until one resolves against
     * the pick list; `previous` is only updated by the caller, on success.
     */
    static method AskWhich(inp: seq<string>, previous: Option<string>, picks: seq<Pick>) returns (outcome: PromptOutcome)
      ensures outcome == Prompt(inp, previous, picks)
    {
      var rest := inp;
      while rest != []
        invariant Prompt(rest, previous, picks) == Prompt(inp, previous, picks)
        decreases |rest|
      {
        var resolution := Resolve(rest[0], previous, picks);
        if resolution.Chosen? {
          return Resolved(resolution.pick, resolution.previous, rest[1..]);
        }
        rest := rest[1..];
      }
      return Exhausted;
    }

    /** One answer at the `select` prompt, as the `try` block handles it. */
    static method Resolve(answer: string, previous: Option<string>, picks: seq<Pick>) returns (resolution: Resolution)
      ensures resolution == ResolveAnswer(answer, previous, picks)
    {
      if answer == "" {
        if previous.None? {
          return Retry(NoPrevious);        // `previous[0]` raises TypeError
        } else if previous.value == "" {
          return Retry(EmptyPrevious);     // `previous[0]` raises IndexError
        }
        var found := FindPrevious(picks, previous.value);
        if found.None? {
          return Retry(PreviousNotListed); // unpacking '' raises ValueError
        }
        return Chosen(found.value, previous);
      }
      var number := ParseInt(answer);
      if number.None? {
        return Retry(NotANumber);
      } else if number.value < 1 || number.value > |picks| {
        return Retry(OutOfRange);
      }
      return Chosen(picks[number.value - 1], Some(picks[number.value - 1].name));
    }

    /** `evaluate_progress`: a play-through past 90% counts the episode as seen. */
    method EvaluateProgress(progress: real)
      requires Watching()
      modifies this
      ensures series == old(series) && index == old(index) && episodes == old(episodes)
      ensures progress > 0.9 ==> data == Bump(old(data), series, 1)
      ensures progress <= 0.9 ==> data == old(data)
      ensures Watching() && Lag() == old(Lag()) + (if progress > 0.9 then 1 else 0)
    {
      if progress > 0.9 {
        data := Bump(data, series, 1);
      }
    }

    /**
     * `next`: one episode on, counted as seen; `file` is the episode handed
     * to the player, `None` where indexing past the end raises.
     */
    method Next() returns (file: Option<Path>)
      requires Watching()
      modifies this
      ensures series == old(series) && episodes == old(episodes)
      ensures index == old(index) + 1 && data == Bump(old(data), series, 1)
      ensures Watching() && Lag() == old(Lag())
      ensures file == PyIndex(episodes, index)
    {
      index := index + 1;
      data := Bump(data, series, 1);
      file := PyIndex(episodes, index);
    }

    /**
     * `previous`: one episode back, uncounted; from the first episode the
     * index becomes -1, which Python reads as the last episode.
     */
    method Previous() returns (file: Option<Path>)
      requires Watching()
      modifies this
      ensures series == old(series) && episodes == old(episodes)
      ensures index == old(index) - 1 && data == Bump(old(data), series, -1)
      ensures Watching() && Lag() == old(Lag())
      ensures file == PyIndex(episodes, index)
    {
      index := index - 1;
      data := Bump(data, series, -1);
      file := PyIndex(episodes, index);
    }

    /**
     * The `for` loop that prints a track list: it stops with a decode
     * error at the first label that is not ASCII.
     */
    static method ShowTracks(tracks: seq<TrackInfo>) returns (ok: bool)
      ensures ok == Printable(tracks)
    {
      var k := 0;
      while k < |tracks|
        invariant 0 <= k <= |tracks|
        invariant forall j, i :: 0 <= j < k && 0 <= i < |tracks[j].name| ==> tracks[j].name[i] < 128
      {
        var name := tracks[k].name;
        var i := 0;
        while i < |name|
          invariant 0 <= i <= |name|
          invariant forall m :: 0 <= m < i ==> name[m] < 128
        {
          if name[i] >= 128 {
            return false;
          }
          i := i + 1;
        }
        k := k + 1;
      }
      return true;
    }

    /**
     * The track-choice block of `start`: asks for the pair only when the
     * series has none stored, printing the player's track lists first, then
     * returns the stored pair.
     */
    method EnsureTracks(audios: seq<TrackInfo>, subss: seq<TrackInfo>, inp: seq<string>)
        returns (ok: bool, tracks: (int, int), rest: seq<string>)
      requires Watching()
      modifies this
      ensures series == old(series) && index == old(index) && episodes == old(episodes)
      ensures var c := ChooseTracks(old(data.series[series]), audios, subss, inp);
        && (ok <==> c.Some?)
        && (ok ==> data == old(data).(series := old(data.series)[series := c.value.0])
                   && Some(tracks) == c.value.0.tracks && rest == c.value.1)
        && (!ok ==> data == old(data))
    {
      var entry := data.series[series];
      rest := inp;
      if entry.tracks.None? {
        var printed := ShowTracks(audios);
        if !printed || rest == [] {
          return false, (0, 0), rest;
        }
        var audio := ParseInt(rest[0]);
        if audio.None? {
          return false, (0, 0), rest;
        }
        printed := ShowTracks(subss);
        if !printed || |rest| < 2 {
          return false, (0, 0), rest;
        }
        var subs := ParseInt(rest[1]);
        if subs.None? {
          return false, (0, 0), rest;
        }
        entry := entry.(tracks := Some((audio.value, subs.value)));
        data := data.(series := data.series[series := entry]);
        rest := rest[2..];
      }
      ok, tracks := true, entry.tracks.value;
    }
  }

  /** `next` followed by `previous` restores the index and the registry. */
  method NextThenPrevious(w: Watchnext)
    requires w.Watching()
    modifies w
    ensures w.index == old(w.index) && w.data == old(w.data) && w.series == old(w.series)
  {
    ghost var start := w.data;
    var _ := w.Next();
    var _ := w.Previous();
    BumpUndo(start, w.series, 1);
  }

  /** A second `start` on the same series reads no input and plays the stored tracks. */
  method TracksAreReused(w: Watchnext, audios: seq<TrackInfo>, subss: seq<TrackInfo>, inp: seq<string>,
                         audios': seq<TrackInfo>, subss': seq<TrackInfo>, later: seq<string>)
      returns (ok: bool, first: (int, int), second: (int, int), rest: seq<string>)
    requires w.Watching()
    modifies w
    ensures ok ==> second == first && rest == later
  {
    var rest0;
    ok, first, rest0 := w.EnsureTracks(audios, subss, inp);
    rest := later;
    second := first;
    if ok {
      var ok';
      ok', second, rest := w.EnsureTracks(audios', subss', later);
    }
  }

  /** After a selection the count and the index agree, and the object watches a registered series. */
  method SelectThenWatch(w: Watchnext, fs: FileSystem, inp: seq<string>) returns (status: Status)
    modifies w
    ensures status.Chose? ==> w.Watching() && w.Lag() == 0 && w.data.previous == Some(w.series)
  {
    var rest;
    status, rest := w.Select(fs, inp);
    if status.Chose? {
      SelectedIsRegistered(fs, old(w.data), inp);
    }
  }
}

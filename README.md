# watchnext: the watch-state engine in Dafny

watchnext keeps a registry of TV series, one directory each under a base
directory, and remembers for every series how many episodes have been
watched (`seen`) and which audio and subtitle tracks to play. Each run it
reconciles the registry with the base directory (asking, for every new
directory, whether to Ignore it, Add it as a series, or Recurse into it),
shows the series in name order, resolves the user's choice (a row number,
or an empty answer for the series chosen last time), and then drives
playback: `next` and `previous` move through the sorted episode files and
move the `seen` count with them, and stopping after more than 90% of an
episode counts it as watched.

This project models the `Watchnext` class of `watchnext.py` (lines
194-357) and proves what each of its operations does.

- `options.dfy` — `Option` and `Result`.
- `strings.dfy` — Python's ordering of `str` values, `sorted` over a list
  of paths (an insertion sort) and over the keys of a dictionary; proofs
  that both sort and permute, and that a sorted permutation is unique.
- `numerals.dfy` — Python's `int()` on a typed line (white space strip,
  sign, digits with single underscores), with `str()` as its inverse.
- `library.dfy` — the persisted record as a `Registry`, the filesystem as a
  map from directory to listing, the scan for new directories
  (`scan_for_new_dirs`) and the episode list (`get_episodes`).
- `discovery.dfy` — `add_new_series` as functions on values: one answer
  (`Ask`), its effect (`Step`), the whole worklist pass (`Pass`,
  `Reconcile`), and what a pass guarantees about the ignore list and the
  series map.
- `selection.dfy` — the pick list of `select`, the meaning of one answer
  at the prompt (`ResolveAnswer`), the prompt loop (`Prompt`) and the
  whole of `select` (`SelectSpec`).
- `watchnext.dfy` — the class `Watchnext` itself, whose methods update its
  fields (`data`, `series`, `index`, `episodes`) in place with loops that
  are proved against the functions above, plus the track choice of
  `start` and three client methods that chain operations.

User input is one stream of lines (`seq<string>`): each method that calls
`input()` takes the stream and returns what it did not read. A missing
directory (where `os.scandir` raises) and the end of input (where `input`
raises `EOFError`) are explicit outcomes (`Crash`). The filesystem is a
parameter: a `map` from each readable directory to its listing in
`scandir` order.

### Behaviour of the code that the model keeps

These are facts about the program that a reader might not expect; the
model reproduces each of them.

- Adding a series under a name that is already registered silently
  replaces the old entry (`watchnext.py:246`); nothing re-prompts
  (`Discovery.Step`).
- Every registered series is listed for selection, also one whose `seen`
  count has reached its episode count (`watchnext.py:271-277`,
  `Selection.PickListRows`).
- The ignore list is rebuilt every run from the directories re-found in the
  scans. A second run reproduces the first run's registry without asking
  anything when the first run found no new directory
  (`Discovery.ReconcileQuietIsIdempotent`); after a Recurse answer, the
  recursed directory is itself on the ignore list and a later run does
  not scan into it.
- `next` and `previous` have no bounds check: both move `index` and `seen`
  first and then index the episode list, so `previous` at index 0 plays the
  last episode (Python's negative index) and `next` past the end raises
  after the registry has moved (`Engine.PyIndex`, `Engine.Watchnext.Next`,
  `Engine.Watchnext.Previous`). `seen` is not bounded by the episode count.
- Progress counts as watched only when strictly above 0.9
  (`watchnext.py:309`).
- An empty answer at the series prompt with no previous series, or with an
  empty one, or with one that has no row, re-prompts (a `TypeError`,
  `IndexError` or `ValueError` caught by the catch-all handler), as do a
  non-number and an out-of-range number.

## Model

| member | source | states |
|---|---|---|
| Strings.LexLe | watchnext.py:271 | definition of Python's `<=` on `str`; pinned by Strings.LexLeTotal, Strings.LexLeTransitive, Strings.LexLeAntisymmetric |
| Strings.LexLeTotal | watchnext.py:271 | any two names are ordered one way or the other, so sorting the series names is well defined |
| Strings.LexLeTransitive | watchnext.py:271 | Python's string order is transitive |
| Strings.LexLeAntisymmetric | watchnext.py:271 | two names each at most the other are equal |
| Strings.InsertSorted | watchnext.py:228 | inserting one path into a sorted list keeps it sorted and adds exactly that path |
| Strings.SortSorted | watchnext.py:228 | `sorted` over a list of paths yields an ascending permutation of it |
| Strings.Sort | watchnext.py:228 | definition of `sorted` over paths; pinned by Strings.SortSorted and Strings.AscendingUnique |
| Strings.AscendingUnique | watchnext.py:228 | two ascending arrangements of the same paths are the same list, so the episode order is determined by the files alone |
| Strings.SortedNames | watchnext.py:271 | `sorted` over the series names lists every name exactly once, strictly ascending |
| Numerals.TrimStartDropsSpace | watchnext.py:293 | leading white space of the kind `int()` strips is dropped, and nothing else |
| Numerals.TrimEndDropsSpace | watchnext.py:293 | trailing white space of the kind `int()` strips is dropped, and nothing else |
| Numerals.Strip | watchnext.py:293 | definition of the strip `int()` performs; pinned by Numerals.TrimStartDropsSpace, Numerals.TrimEndDropsSpace |
| Numerals.ParseInt | watchnext.py:293 | definition of `int()` on a line; pinned by Numerals.ParseIntShape, Numerals.ParseIntAccepts, Numerals.ParseIntReadsCanonical, Numerals.ParseShow |
| Numerals.ReadNumeral | watchnext.py:293 | definition of the digits part of `int()`; pinned by Numerals.ParseIntAccepts and Numerals.ParseIntReadsCanonical |
| Numerals.ParseIntShape | watchnext.py:293 | `int(answer)` accepts only a non-empty stripped line of digits, signs and underscores |
| Numerals.ParseIntAccepts | watchnext.py:293 | `int(answer)` succeeds exactly when the stripped line is an optional sign followed by digits with single underscores between digits, at most 4300 digits (CPython's default limit, leading zeros counted) |
| Numerals.ParseIntReadsCanonical | watchnext.py:293 | the value `int` reads, written back with `str`, is the stripped line without `+`, underscores and leading zeros (and without `-` for zero), so the value is fixed by the line |
| Numerals.ShowNatOfDigits | watchnext.py:293 | the value of a digit string, written back, is the digits without leading zeros |
| Numerals.ParseIntRefusesDoubleUnderscore | watchnext.py:293 | any line whose stripped text holds two underscores in a row is refused |
| Numerals.ParseIntRefusesLeadingUnderscore | watchnext.py:293 | any line whose stripped text starts with an underscore is refused |
| Numerals.ParseIntRefusesTwoSigns | watchnext.py:293 | any line whose stripped text starts with two signs is refused |
| Numerals.ParseIntRefusesSeparator | watchnext.py:293 | any line starting with U+001C is refused, since `int()` does not strip it |
| Numerals.LeadingZeroValue | watchnext.py:293 | a numeral with a leading zero is still a numeral, of the same value |
| Numerals.Show | watchnext.py:293 | definition of `str` on integers, used as the reference for `int`; pinned by Numerals.ParseShow and Numerals.ParseIntReadsCanonical |
| Numerals.ParseShow | watchnext.py:293 | every integer `str` can write (at most 4300 digits, CPython's default limit) reads back as itself with `int` |
| Numerals.ParseNegative | watchnext.py:293 | `"-"` followed by `str(n)` of a natural number (at most 4300 digits) reads back as `-n` |
| Library.Scan | watchnext.py:253-265 | definition of `scan_for_new_dirs` over one listing; pinned by Library.ScanPartitions, Library.ScanKeepsOrder, Library.ScanDistinct |
| Library.ScanPartitions | watchnext.py:253-265 | every visible unregistered subdirectory lands in exactly one list: re-found when it was ignored last run, new otherwise; nothing else lands in either |
| Library.ScanKeepsOrder | watchnext.py:256-264 | both lists keep the order of the directory listing |
| Library.ScanDistinct | watchnext.py:256-264 | a listing without repeated paths scans to lists without repetition |
| Library.FilePathsMembers | watchnext.py:228 | the episode candidates are exactly the paths of the file entries of the listing |
| Library.Episodes | watchnext.py:225-228 | definition of `get_episodes`; pinned by Library.EpisodesAreSortedFiles and Library.EpisodesUnique |
| Library.EpisodesAreSortedFiles | watchnext.py:225-228 | `get_episodes` fails exactly for an unreadable directory, and otherwise returns the directory's file paths, each as often as listed, ascending |
| Library.EpisodesUnique | watchnext.py:225-228 | the episode list is the only ascending arrangement of the directory's files |
| Discovery.Ask | watchnext.py:239-251 | one answer consumes at least one line and leaves a suffix of the input |
| Discovery.AskSkipsUnrecognised | watchnext.py:239-251 | lines other than "I", "A" and "R" only repeat the prompt |
| Discovery.AskFirstRecognised | watchnext.py:239-251 | the first "I", "A" or "R" line decides: "I" is Ignore and "R" Recurse, each consuming the lines up to it; "A" is Add named by the next line, consuming that line too, and is the end of input when no line follows |
| Discovery.AskNoAnswer | watchnext.py:239-251 | input with no "I", "A" or "R" line ends without an answer |
| Discovery.Step | watchnext.py:241-251 | Ignore appends the directory to the ignore list; Add registers it under the given name at `seen` 0 with no tracks, leaving other series alone; Recurse marks it ignored, fails exactly when it cannot be read, and otherwise appends to the worklist exactly the new candidate subdirectories and to the ignore list exactly the previously ignored ones, both as `Scan` of its listing gives them |
| Discovery.Pass | watchnext.py:238-251 | definition of the worklist loop; pinned by Discovery.PassOrigins, Discovery.PassSeriesFrame, Discovery.PassExclusive |
| Discovery.Reconcile | watchnext.py:230-251 | definition of `add_new_series`; pinned by Discovery.ReconcileOrigins, Discovery.ReconcileSeriesFrame, Discovery.ReconcileQuietIsIdempotent, Discovery.ReconcileExclusive |
| Discovery.PassOrigins | watchnext.py:238-251 | during the worklist loop every ignored path was ignored last run or answered Ignore or Recurse, and every directory answered Ignore or Recurse is ignored |
| Discovery.ReconcileOrigins | watchnext.py:230-251 | after `add_new_series` the ignore list holds only paths from the last run's list and directories answered Ignore or Recurse, and holds all of the latter |
| Discovery.PassSeriesFrame | watchnext.py:238-251 | the worklist only grows, and only Add answers change the series map |
| Discovery.ReconcileSeriesFrame | watchnext.py:230-251 | after `add_new_series` `previous` and the base directory are unchanged, every series no Add answer named is kept as it was, and every new name came from an Add answer |
| Discovery.ScanSameDecisions | watchnext.py:257-264 | two ignore lists that agree on the candidates give the same scan |
| Discovery.ReconcileQuietIsIdempotent | watchnext.py:230-265 | when a run finds no new directory, running again on its result asks nothing and changes nothing |
| Discovery.PassExclusive | watchnext.py:238-251 | on a well-formed filesystem the loop keeps directories answered Add off the ignore list and ignored paths apart from registered ones |
| Discovery.ReconcileExclusive | watchnext.py:230-251 | on a well-formed filesystem no directory answered Add ends up ignored, and no ignored path is a registered series path |
| Selection.PicksFor | watchnext.py:271-277 | definition of the row-building loop; pinned by Selection.PicksForSucceeds, Selection.PicksForRows, Selection.PicksForFirstFailure |
| Selection.PicksForSucceeds | watchnext.py:271-277 | building rows succeeds exactly when every named series' directory can be read |
| Selection.PicksForRows | watchnext.py:271-277 | row i is series i with its `seen` count and its sorted episode list |
| Selection.PicksForFirstFailure | watchnext.py:271-277 | a failure names the first series in order whose directory cannot be read |
| Selection.PickList | watchnext.py:270-279 | definition of the pick list; pinned by Selection.PickListRows |
| Selection.PickListRows | watchnext.py:270-279 | the pick list has one row per registered series, names strictly ascending, each starting at its `seen` count with its episodes; it fails exactly when some series directory is missing, on the first in name order |
| Selection.LastNamed | watchnext.py:289-291 | the empty-answer search finds nothing exactly when no row has the previous name, and otherwise the last such row |
| Selection.ResolveAnswer | watchnext.py:283-306 | definition of one answer's effect; pinned by Selection.ResolveAnswerMeaning |
| Selection.ResolveAnswerMeaning | watchnext.py:283-306 | an empty answer resolves exactly when `previous` names a listed series, keeps `previous` and picks that row; any other answer resolves exactly when it parses to n with 1 <= n <= rows, picks row n-1 and makes it `previous`; otherwise the reason is given |
| Selection.Prompt | watchnext.py:281-306 | definition of the prompt loop; pinned by Selection.PromptFirstResolving and Selection.PromptExhausted |
| Selection.PromptFirstResolving | watchnext.py:281-306 | the prompt settles on the first answer that resolves and leaves the lines after it |
| Selection.PromptExhausted | watchnext.py:281-306 | the prompt runs out of input exactly when no answer resolves |
| Selection.SelectSpec | watchnext.py:267-306 | definition of `select`; pinned by Selection.SelectedIsRegistered |
| Selection.SelectedIsRegistered | watchnext.py:267-306 | a selection is a registered series, starts at its `seen` count with its sorted episodes, and the registry is the reconciled one with `previous` naming it |
| Engine.PyIndex | watchnext.py:315 | Python list indexing: defined exactly for -len <= i < len, negative indices count from the end |
| Engine.Bump | watchnext.py:310 | only the current series' `seen` count moves, by the given amount |
| Engine.BumpUndo | watchnext.py:312-320 | moving `seen` forward and back by the same amount restores the registry |
| Engine.ChooseTracks | watchnext.py:335-350 | a stored pair is used without reading input or printing the track lists; otherwise it succeeds exactly when both track lists have ASCII labels and two lines are read that both parse, and the pair is stored |
| Engine.TracksChosenOnce | watchnext.py:335-350 | after the pair is chosen, a later start reads nothing and reuses it, whatever the track lists then hold |
| Engine.Watchnext.constructor | watchnext.py:195-203 | a new engine holds the loaded registry and watches nothing |
| Engine.Watchnext.ScanForNewDirs | watchnext.py:253-265 | the loop appends re-found directories to the ignore list and returns the new ones, exactly as `Scan`; an unreadable directory changes nothing |
| Engine.Watchnext.ReadDecision | watchnext.py:239-251 | the prompt loop reads exactly the answer `Ask` describes |
| Engine.Watchnext.Apply | watchnext.py:241-251 | the new registry and worklist are those of `Step` |
| Engine.Watchnext.AddNewSeries | watchnext.py:230-251 | the registry after the loop is the one `Reconcile` describes, and a crash is reported with its reason |
| Engine.Watchnext.BuildPickList | watchnext.py:270-279 | the loop builds exactly `PickList` of the current series |
| Engine.Watchnext.FindPrevious | watchnext.py:289-291 | the loop finds the last row with the previous name |
| Engine.Watchnext.Select | watchnext.py:267-306 | the new state is the one `SelectSpec` describes: on a selection the engine watches the picked series from its `seen` count |
| Engine.Watchnext.AskWhich | watchnext.py:281-306 | the loop reaches exactly the outcome of `Prompt` |
| Engine.Watchnext.Resolve | watchnext.py:283-306 | one answer resolves exactly as `ResolveAnswer` says |
| Engine.Watchnext.EvaluateProgress | watchnext.py:308-310 | above 0.9 the current series' `seen` rises by one, otherwise nothing changes |
| Engine.Watchnext.Next | watchnext.py:312-315 | `index` and `seen` both rise by one and the file is the Python-indexed episode |
| Engine.Watchnext.Previous | watchnext.py:317-320 | `index` and `seen` both fall by one and the file is the Python-indexed episode |
| Engine.Watchnext.ShowTracks | watchnext.py:338-340 | the printing loop gets through the track list exactly when every label is ASCII |
| Engine.Watchnext.EnsureTracks | watchnext.py:335-351 | the new state and result are those of `ChooseTracks`: the tracks played are the stored pair or the two numbers read, which are then stored; a non-ASCII label or a bad line changes nothing; other series are untouched |
| Engine.NextThenPrevious | watchnext.py:312-320 | `next` then `previous` restores the index and the registry |
| Engine.TracksAreReused | watchnext.py:335-350 | a second start reads no input and plays the same tracks, whatever the track lists then hold |
| Engine.SelectThenWatch | watchnext.py:267-306 | after a selection the engine watches a registered series named as `previous`, with `seen` equal to the index |

## Left out

- The `Player` class and `player.py` (playback through VLC's Python bindings, the MPRIS remote-control server, the screensaver inhibition over D-Bus, volume, rate, fullscreen, the event loop of `start`) are not part of this model; the engine's calls to `set_file` and `set_tracks` become return values.
- The busy-wait for the player state and the MPRIS loop (`watchnext.py:330-331`, `watchnext.py:353`) wait on an external process and are not modelled.
- Reading and writing the configuration file (`__init__` loading JSON, `generate_config_file`, `save`) is file I/O: the constructor takes the loaded registry, and saving is not modelled.
- `print` output is not modelled; `input()` is the line stream described above; `KeyboardInterrupt` is not modelled.
- The module-level script (`watchnext.py:359-369`) only wires the class to the player.
- Numerals.ParseInt: does not accept the non-ASCII decimal digits Python's `int` accepts.
- Numerals.ParseInt: the digit limit is CPython's default of 4300; a limit changed with `sys.set_int_max_str_digits` or `PYTHONINTMAXSTRDIGITS`, and older Pythons that have no limit, are not modelled (Numerals.ParseIntAccepts and Numerals.ParseShow state the default).
- Engine.Watchnext.EnsureTracks: the two track lists are parameters standing for what the player's `get_tracks` returns (labels as bytes); the player itself is not modelled.
- Engine.Watchnext.EvaluateProgress: progress is an exact `real`, not a floating-point number.
- Engine.Watchnext.Select: when the input ends at the series prompt the source's catch-all handler asks forever; the model stops with `NoAnswer`.
- Discovery.ReconcileExclusive: holds on filesystems where listing paths are distinct, each path has at most one parent and a child path is longer than its parent; other maps do not describe a real directory tree.
- Discovery.ReconcileOrigins: says a re-found ignored path was in the last run's list, not that it was re-found as a candidate in a scan (that is `Discovery.Step` and `Library.ScanPartitions`).
- File names that are not valid UTF-8 are outside the model: Python hands them over with lone surrogate code points (U+DC80 to U+DCFF), which a Dafny `string` cannot hold, so `Path` and the string order cover only names made of Unicode scalar values.

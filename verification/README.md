# snaptogif in Dafny

A model of the `snaptogif` Home Assistant component. The component registers three services, `start`, `delete` and `move`, which all run one handler, `SnapToGIF`. The handler lists the source directory and keeps the files that pass three tests:

- the name contains a whitelisted extension;
- the name is not on the exclusion list;
- the modification time lies in an optional inclusive window.

A non-empty selection goes to one of three functions:

- `createOutputfile` sorts the files by modification time and encodes them into `filename.format`;
- `deletefiles` removes them;
- `movefiles` moves them into a destination directory, creating it if needed.

Each function publishes one event on the `snaptogif` channel when it finishes without an error.

The model is functional:

- a directory is a map from name to modification time, and a file system is a map from directory path to directory;
- the order in which the operating system lists a directory is an input;
- each list comprehension is a sequence filter;
- each per-file I/O loop runs until the first call that raises;
- an I/O failure the model cannot see (permissions, a full disk, a codec error) is an input `fault`: the index of the file whose call raises;
- the time at which the encoder writes its output is an input `now`;
- a timestamp that passes the schema but that `strptime` cannot read makes the call raise before any file is touched (`Raised`).

Modules, by file:

- `text.dfy`: Python's `in` on strings, a substring test.
- `seqs.dfy`: list comprehensions (`Filter`) and order facts.
- `listing.dfy`: directory entries and listings.
- `naming.dfy`: the filename pattern and the output name.
- `requests.dfy`: services, requests and the timestamp sentinel.
- `selection.dfy`: the selection rule of `SnapToGIF` (lines 145-173), as `Selection.Select`.
- `ordering.dfy`: the stable sort by modification time.
- `filesystem.dfy`: the delete, move and write effects: the loops of `deletefiles` (`RemoveEach`) and `movefiles` (`MoveEach`, and `Relocate` with the `makedirs` before it), and the encoder's output (`WriteOutput`).
- `snaptogif.dfy`: one service call end to end. `Snaptogif.CreateOutputFile` (lines 64-91), `Snaptogif.DeleteFiles` (lines 93-110) and `Snaptogif.MoveFiles` (lines 112-134) are the three handlers with their events; `Snaptogif.Dispatch` (lines 178-186) picks one by service; `Snaptogif.Invoke` (lines 142-186) is `SnapToGIF` itself.
- `properties.dfy`: properties of whole calls, and the worked scenario (`a.jpg` at 10, `b.png` at 20, `c.txt` at 15).

The extension test is modelled as the code writes it: `x in file` is a substring test, so `report.jpgnotes.txt` passes the `start` whitelist (`SubstringNotSuffix`). One can argue that a suffix test was intended. The code does not say so, however, and the model does not change the behaviour.

## Model

| member | source | states |
|---|---|---|
| Text.ContainsIff | snaptogif/__init__.py:154 | The left-to-right scan behind `x in file` succeeds exactly when `x` occurs at some position of `file`. |
| Text.OccurrenceContains | snaptogif/__init__.py:154 | Any occurrence of `x` at any position of the name makes `x in file` true. |
| Seqs.Filter | snaptogif/__init__.py:154 | A comprehension's result is no longer than its input, every kept element meets the condition, and an element is kept exactly when it is in the input and meets the condition. |
| Seqs.FilterIsSubseq | snaptogif/__init__.py:167 | A comprehension keeps the input order: its result is a subsequence of the input. |
| Seqs.FilterFusion | snaptogif/__init__.py:154-173 | Two comprehensions in a row select what one comprehension with the conjunction of their conditions selects. |
| Listing.Entries | snaptogif/__init__.py:139-145 | Pairing the listed names with their modification times keeps the listing order, and each entry's time is that file's time in the directory. |
| Listing.ListingUnique | snaptogif/__init__.py:145 | A directory listing names each file once, so its entries have distinct names. |
| Listing.FilterUnique | snaptogif/__init__.py:154 | Filtering never makes a name appear twice. |
| Naming.ValidFilenameIff | snaptogif/__init__.py:37 | The filename pattern accepts exactly the non-empty names without any of the twelve characters `<`, `>`, `:`, `;`, `,`, `.`, `?`, `"`, `*`, the vertical bar, `/` and the backslash. |
| Naming.OutputName | snaptogif/__init__.py:67 | The output name is four characters longer than the base name, and for a valid base name its only dot is the one separating base and format. |
| Naming.OutputNameRoundTrip | snaptogif/__init__.py:67 | The base name and the format can be read back from the output name of any valid base name. |
| Naming.SplitOutputNameSound | snaptogif/__init__.py:67 | Every string that reads back as a base name and a format is the output name of exactly those, with a valid base name. |
| Naming.OutputNameInjective | snaptogif/__init__.py:67 | Two valid requests that name the same output file have the same base name and the same format. |
| Naming.DefaultOutputName | snaptogif/__init__.py:37-38 | The defaults `latest` and `gif` pass the pattern and name the file `latest.gif`. |
| Selection.SelectSeesOnlyBounds | snaptogif/__init__.py:159-162 | The selection depends on a timestamp parameter only through its string and, when the string is not `01/01/1970 00:00:00`, its converted time. The time carried with the sentinel is never consulted. |
| Selection.WindowIsFilter | snaptogif/__init__.py:164-173 | The three bound-specific comprehensions, together with the case that has no comprehension, are one filter by the inclusive window. |
| Selection.SelectIsFilter | snaptogif/__init__.py:145-173 | The selection is the listing filtered by one test: extension, exclusion and window at once. |
| Selection.SelectIsSubseq | snaptogif/__init__.py:145-173 | The selection is an order-preserving subsequence of the directory listing. |
| Selection.SelectMembership | snaptogif/__init__.py:154-173 | An entry is selected exactly when it is listed, contains a whitelisted extension, is not excluded, and lies in the window. |
| Selection.SelectedHaveExtension | snaptogif/__init__.py:147-154 | Every selected name contains an extension from the service's whitelist as a substring. |
| Selection.StartSkipsNonImages | snaptogif/__init__.py:147-149 | `start` never selects a name that contains neither `.jpg` nor `.png`. |
| Selection.ExcludedNeverSelected | snaptogif/__init__.py:154 | A name on the exclusion list is never selected, whatever the time bounds. |
| Selection.BeginOnly | snaptogif/__init__.py:169-170 | With only a begin bound, every selected file is at or after it. |
| Selection.EndOnly | snaptogif/__init__.py:172-173 | With only an end bound, every selected file is at or before it. |
| Selection.BothBounds | snaptogif/__init__.py:166-167 | With both bounds, every selected file lies in the closed interval. |
| Selection.WindowComplete | snaptogif/__init__.py:159-173 | A listed file that passes the extension and exclusion tests and lies in the window is selected. |
| Selection.SentinelsMeanNoWindow | snaptogif/__init__.py:159-173 | When both timestamps are the sentinel, the selection is the extension and exclusion filter alone. |
| Selection.InvertedWindowSelectsNothing | snaptogif/__init__.py:166-167 | A begin bound later than the end bound selects nothing. |
| Selection.SubstringNotSuffix | snaptogif/__init__.py:149-154 | A name with `.jpg` in its middle, `report.jpgnotes.txt`, passes `start`'s whitelist. |
| Selection.OutputNameSelection | snaptogif/__init__.py:147-151 | For a valid base name, the output name never passes `start`'s whitelist but always passes the whitelist of `delete` and `move`. |
| Ordering.Insert | snaptogif/__init__.py:71 | Inserting into a sorted sequence keeps it sorted and grows it by one. |
| Ordering.InsertPermutes | snaptogif/__init__.py:71 | Inserting adds the new entry and keeps every other one. |
| Ordering.SortByMtime | snaptogif/__init__.py:71 | The sorted frames are ascending by modification time and are a permutation of the selection. |
| Ordering.InsertStable | snaptogif/__init__.py:71 | An inserted entry goes before every entry of its own modification time. |
| Ordering.SortStable | snaptogif/__init__.py:71 | The sort is stable: for every time, the frames with that time keep their selection order. |
| Ordering.SortSameEntries | snaptogif/__init__.py:71 | An entry is among the frames exactly when it is in the selection. |
| Ordering.SortExample | snaptogif/__init__.py:71 | Frames with times 3, 1, 2 are encoded in the order 1, 2, 3. |
| FileSystem.EnsureDir | snaptogif/__init__.py:118-119 | After `makedirs`, the destination exists, and an existing directory with its entries is left alone. |
| FileSystem.RemoveEach | snaptogif/__init__.py:97-98 | The delete loop removes exactly the names it got through, and it stops only at a missing name or a failing call. |
| FileSystem.RemoveEachProgress | snaptogif/__init__.py:96-98 | Removing distinct names that are all present stops exactly at the failing file, or completes when none fails. |
| FileSystem.MoveEach | snaptogif/__init__.py:120-121 | The move loop stops only at a name missing from the source, a name the destination already holds, or a failing call; when source and destination are the same directory it stops at once. |
| FileSystem.MoveEachSource | snaptogif/__init__.py:120-121 | The move loop removes exactly the moved names from the source directory. |
| FileSystem.MoveEachDestinationKeys | snaptogif/__init__.py:120-121 | The move loop adds exactly the moved names to the destination directory. |
| FileSystem.MoveEachKeepsDestination | snaptogif/__init__.py:120-121 | The files already in the destination keep their times. |
| FileSystem.MoveEachCarriesTimes | snaptogif/__init__.py:120-121 | Every moved file came from the source, was not in the destination, and arrives with its modification time. |
| FileSystem.MoveEachProgress | snaptogif/__init__.py:120-121 | Moving distinct names, all in the source, stops exactly at the failing file or at the first name the destination already holds, whichever comes first, and completes when there is neither. |
| FileSystem.RelocateEffect | snaptogif/__init__.py:116-121 | For any names and any destination, the move creates the destination if it is missing and stops only at a file that is missing from the source, already in the destination, or failing. The files before that one leave the source and arrive in the destination with their times, the destination's earlier files keep theirs, and no other directory or entry changes. |
| FileSystem.FirstIn | snaptogif/__init__.py:120-121 | The position of the first name a directory already holds: every earlier name is absent from it, and the name at that position is present. |
| FileSystem.RelocateProgress | snaptogif/__init__.py:116-121 | Moving distinct names, all in the source, to a different directory stops exactly at the first name the destination already held or at the failing file, whichever comes first. |
| FileSystem.RelocateIntoItself | snaptogif/__init__.py:120-121 | Moving files into their own directory fails on the first file and changes nothing. |
| FileSystem.WriteOutput | snaptogif/__init__.py:73-76 | The encoder writes only when the destination exists and no frame fails; it adds or replaces exactly `out` with time `now`, and changes nothing else. |
| Snaptogif.CreateOutputFile | snaptogif/__init__.py:64-91 | The event carries the output name, the destination, the frames in time order and their count; it is sent exactly when every frame succeeds, and a failure leaves the file system as it was. |
| Snaptogif.Invoke | snaptogif/__init__.py:142-186 | A call is rejected exactly when validation fails. A validated call raises, touching nothing, exactly when a timestamp that is not the sentinel cannot be converted. Otherwise, no handler runs exactly when the selection is empty, and then nothing changes and no event is sent. An event carries the service, the selection's non-zero count, the source and both raw timestamps. |
| CallProperties.SelectedFacts | snaptogif/__init__.py:145-154 | Selected names are distinct and present in the source directory with their times. |
| CallProperties.EmptySelectionDoesNothing | snaptogif/__init__.py:185-186 | An empty selection changes no file and sends no event. |
| CallProperties.UnreadableTimestampRaises | snaptogif/__init__.py:159-162 | A validated call with a timestamp that is not the sentinel and that `strptime` cannot read raises before any handler runs: no file changes and no event is sent. |
| CallProperties.DispatchFollowsService | snaptogif/__init__.py:178-184 | A non-empty selection reaches the encoder exactly for `start`, the remover exactly for `delete`, and the mover exactly for `move`. |
| CallProperties.DeleteRemovesSelection | snaptogif/__init__.py:93-110 | `delete` removes the selected names up to the failing file and changes nothing else; the event, listing the selection in order, is sent exactly when every file went. |
| CallProperties.DeleteKeepsTheRest | snaptogif/__init__.py:97-98 | After a `delete` with no failure, a name is in the source exactly when it was there and was not selected, with its time unchanged. |
| CallProperties.MoveRelocatesSelection | snaptogif/__init__.py:112-134 | `move` to a different directory, with a non-empty selection, creates the destination and moves the selected files with their times up to the first one the destination already held or the first failing one, and keeps everything else. It reports exactly when the selection is non-empty and every file moved; the event lists the selection in order and names the destination. |
| CallProperties.MoveIntoSourceChangesNothing | snaptogif/__init__.py:118-121 | `move` into the source directory itself changes nothing and sends no event. |
| CallProperties.StartWritesOutput | snaptogif/__init__.py:64-91 | `start` writes `filename.format` into the destination, and the event names both and lists the frames in time order. Nothing else changes; a failing frame leaves everything as it was. |
| CallProperties.EncodeOrder | snaptogif/__init__.py:71 | The frames of `start` are the selection, ascending by time, with ties in selection order. |
| CallProperties.ScenarioExtensions | snaptogif/__init__.py:147-151 | `a.jpg` and `b.png` pass the image whitelist, and `c.txt` passes neither whitelist. |
| CallProperties.StartScenarioSelection | snaptogif/__init__.py:145-173 | With no bounds, `start` on the scenario directory selects `b.png` and `a.jpg`. |
| CallProperties.DeleteScenarioSelection | snaptogif/__init__.py:153-154 | `delete` with `b.png` excluded selects only `a.jpg`. |
| CallProperties.StartIntoEmptyDestination | snaptogif/__init__.py:73-89 | `start` into an empty destination, with no failure, leaves exactly the output file there and reports the frames in time order. |
| CallProperties.StartScenario | snaptogif/__init__.py:64-88 | The scenario's images are encoded in the order `a.jpg`, `b.png` into `out/latest.gif`. |
| CallProperties.ScenarioOrder | snaptogif/__init__.py:71 | Sorting `b.png` (20) and `a.jpg` (10) puts `a.jpg` first. |
| CallProperties.DeleteScenario | snaptogif/__init__.py:97-98 | Deleting with `b.png` excluded leaves `b.png` and `c.txt` in the scenario directory. |

## Left out

- Encoding: the model does not read images or produce GIF or MP4 data (`imageio`, PIL). The encoder is its file-system effect only: it creates or replaces `filename.format` in the destination.
- Snaptogif.CreateOutputFile and FileSystem.WriteOutput: the writer opens `dst/out` before the first frame, so an encoder failure midway may leave a partial output file on disk. Both members state that a failure leaves the file system unchanged, because what the writer leaves behind is not visible in the component.
- Timestamp conversion: `time.mktime(datetime.strptime(...))` depends on the host's time zone and on library date parsing. A request carries each timestamp as its raw string together with the result of that conversion, and that result is an input: an epoch time, or nothing when `strptime` raises. Which strings the conversion rejects (`31/02/2024 00:00:00`, an hour of 29, trailing text after the date) is not modelled.
- Modification times are whole numbers. `os.path.getmtime` returns a float, and the comparisons are the same on the values the model admits.
- Schema validation: only the checks the selection depends on are modelled (the source exists, for `start` the destination exists, and the filename pattern). The timestamp pattern, `ensure_list_csv` parsing and the `vol.In` format check are left out; the format is a two-valued datatype.
- FileSystem.EnsureDir: `os.makedirs` also creates missing intermediate directories, but the file system is a flat map of directory paths, so only the destination itself is created. A failing `makedirs` is not modelled.
- `os.listdir` also lists subdirectories; a directory is modelled as a map of files only.
- `shutil.move` is modelled with two assumptions. It raises when the destination already holds the name, and a moved file keeps its modification time.
- I/O failures other than the per-file `fault` are not modelled. For example, `getmtime` failing during the sort is left out.
- Home Assistant service registration, `async_dispatcher_send`, logging and the async structure are left out. An event is returned instead of being sent.
- Concurrent calls racing on the same directory are not modelled, because each call is one pure function.
- Paths are opaque strings and a file system holds directories only. Two consequences of `move` follow from that.
  - The `move` schema does not check that the destination is a directory. When it names an existing regular file, `makedirs` is skipped and `shutil.move` renames each selected file onto that one path. Only the last file survives, and the event is still sent. The model instead creates a directory of that name and keeps every file.
  - When the destination is the source directory spelled differently (`snaps/` against `snaps`), `shutil.move` fails on the first file. The model treats the two spellings as different directories and moves everything. `RelocateIntoItself` covers only the identical spelling.

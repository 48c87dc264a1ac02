# FinalDream generation core in Dafny

FinalDream is an Electron desktop app that drives the `zimage-ncnn-vulkan` image generator. This project models three parts of it, each as immutable state plus pure transition functions:

- **The generation command line and the child slot** (`src/main/zimage.ts`).
  - `runZImageCommand` turns a `ZImageOptions` record into the executable's argument vector. JavaScript truthiness decides `-n -o -s -l -r -m`; `-p` is always pushed; `-g` is pushed whenever gpuId is defined, 0 included. It uses the `'auto'` and `'rand'` sentinels, and the model path lies two levels up from the executable, in `models/`.
  - The module-level `zImageChild` slot: a new start kills the current occupant and then spawns. The close handler of each child reports the exit code and empties the slot. `killZImageProcess` kills the occupant and empties the slot.
- **The output-folder watcher** (`src/main/fileWatcher.ts`).
  - `isImageFile` filters on the extension.
  - `startWatchingDirectory` first stops, then checks that the directory exists, then scans it: filter, join, stat, sort by mtime ascending, record, report.
  - Raw change notifications add to a pending set and (re)arm one shared 100 ms debounce timer.
  - When the timer fires, each pending path that exists and has not been reported is reported.
  - Also modelled: `stopWatchingDirectory` and `getWatchedDirectory`.
- **The renderer's generation store** (`src/renderer/src/store/zimageStore.ts`).
  - The `fetchModels` selection fallback.
  - The `startGeneration` guard, reset and request.
  - The stdout, stderr and close listeners that fold the main process's messages into `logs`, `isGenerating` and `generatedImagePath`.

## Modules

- `Wrappers` (wrappers.dfy): `Option`.
- `Strings` (strings.dfy): decimal rendering of integers (how JavaScript's template literals print safe integers), the matching parser, ASCII lower-casing, and splitting at the first occurrence of a character.
- `Paths` (paths.dfy): POSIX `path.normalize`, `path.join`, `path.basename` and `path.extname` over strings.
  - A path is split at `/` and its segments are folded.
  - `.` and empty segments are dropped.
  - `..` removes the previous segment. At the root it is dropped; at the start of a relative path it is kept.
- `ZImage` (zimage.dfy): the options record, with JavaScript values as `Scalar = Num | Str`; `None` stands for `undefined`. Also the argument-vector builder, read-back functions over the vector, and the model-path rule.
- `ZImageProcess` (zimage_process.dfy): the one-slot controller. It also tracks which spawned children are still running and which have been sent a kill, both as the code is written and with the close handler corrected.
- `FileWatcher` (file_watcher.dfy): the extension filter, the scan, the watcher state (`dir`, `detected`, `pending`, `armed`) and its transitions, and sessions of events.
- `ZImageStore` (zimage_store.dfy): the store's refs as one record, plus its actions and listeners.

Parameters stand in for the outside world:
- the executable path (`getCorePath`);
- the clock reading (`Date.now()`);
- the models reply;
- whether the watched directory exists, its listing (`None` when reading it fails) and the modification times of the entries whose stat succeeds;
- at each timer firing, the set of paths that exist.

Spawning, killing and IPC messages are recorded as effects.

Three behaviours of the code worth knowing:
- The seed sentinel is `'rand'`, so a seed of `"random"` reaches the command line as `-r random` (`ZImage.SentinelsAndNumbers`).
- The store's default `gpuId` of `'auto'` reaches the command line as `-g auto` (`ZImageStore.InitialRequestArgs`), and a `gpuId` of `0` as `-g 0` (`ZImage.SentinelsAndNumbers`).
- The watcher's new-image message carries the path only, not the modification time.

## Model

| member | source | states |
|---|---|---|
| ZImage.ArgsShape | src/main/zimage.ts:52-99 | the vector is flag/value pairs of even length, starts with `-p` and the prompt, and its flags are strictly increasing in the order -p -n -o -s -l -r -m -g, so none repeats |
| ZImage.ArgsValues | src/main/zimage.ts:55-99 | read back from the vector: `-n` iff the negative prompt is a non-empty string; `-o` iff the output is non-empty, with its normalised form; `-s` iff width and height are both defined and non-zero, as `W,H`; `-l` iff steps is not 0, `''`, `'auto'` or undefined; `-r` likewise with `'rand'`; `-m` iff the model is non-empty; `-g` iff gpuId is defined, including 0 |
| ZImage.ArgAt | src/main/zimage.ts:55-99 | each flag's value read back from the vector is exactly the value that flag's rule produced, or absent |
| ZImage.ModelArgInModelsDir | src/main/zimage.ts:21-22 | the `-m` value is the model name joined onto the directory `getZImageModels` lists (`<exe>/../../models`) |
| ZImage.ModelPathIsChildOfModelsDir | src/main/zimage.ts:88-94 | normalising `join(join(exe,'..'),'..','models',m)` equals joining `m` onto the models directory |
| ZImage.ModelArgParent | src/main/zimage.ts:88-94 | for a plain model folder name, going one level up from the `-m` value gives back the models directory |
| ZImage.SizeRoundTrip | src/main/zimage.ts:68-70 | the `-s` value parses, at its first comma, back to the width and height that produced it |
| ZImage.NumericRoundTrip | src/main/zimage.ts:73-80 | a non-zero numeric steps or seed appears and parses back to the same integer |
| ZImage.SentinelsAndNumbers | src/main/zimage.ts:73-80 | `'auto'` and `'rand'` suppress `-l` and `-r`; 20 and 42 appear as `"20"` and `"42"`; `"random"` is not the sentinel and appears as `-r random`; gpuId 0 gives `-g 0` |
| ZImageProcess.Start | src/main/zimage.ts:105-118 | starting with an occupant emits a kill of that child before the spawn; the spawn gets the built vector and the executable's directory as cwd; the new child occupies the slot |
| ZImageProcess.Kill | src/main/zimage.ts:135-141 | kill with an empty slot changes nothing and emits nothing; otherwise it kills the occupant and empties the slot |
| ZImageProcess.Output | src/main/zimage.ts:120-126 | a running child's data event is forwarded as one stdout or stderr chunk, with the slot unchanged |
| ZImageProcess.Exit | src/main/zimage.ts:128-132 | a running child's close reports its exit code once and empties the slot, whichever child the slot holds |
| ZImageProcess.StaleCloseOrphans | src/main/zimage.ts:128-132 | the close of a superseded child empties the slot while the current child keeps running unsignalled, and a later kill does nothing |
| ZImageProcess.StaleCloseSchedule | src/main/zimage.ts:105-132 | the concrete schedule start, start, close of the first child: as written the second child is orphaned and a third start runs beside it; with the corrected handler the slot still holds the second child and kill reaches it |
| ZImageProcess.ExitOwned | src/main/zimage.ts:128-132 | corrected close handler: reports the code, and empties the slot only when it holds the closing child |
| ZImageProcess.TrackedSingleFlight | src/main/zimage.ts:105-118 | under the tracking invariant, at most one running child has not been sent a kill |
| ZImageProcess.RunOwnedTracked | src/main/zimage.ts:105-141 | with the corrected close handler, every event sequence preserves the tracking invariant |
| ZImageProcess.ExitReportedOnce | src/main/zimage.ts:128-129 | a repeated close of the same child reports nothing more |
| ZImageProcess.AsWrittenDiffersOnlyOnStaleClose | src/main/zimage.ts:128-132 | the as-written and corrected steps differ exactly on a close from a running child that is not the occupant of an occupied slot |
| FileWatcher.IsImageFileBySuffix | src/main/fileWatcher.ts:11-16 | a name is an image exactly when its base name is a non-empty stem followed by `.png`, `.jpg`, `.jpeg`, `.webp` or `.gif` in any ASCII case |
| FileWatcher.ImageEntryIsPlain | src/main/fileWatcher.ts:44-46 | a directory entry that passes the filter is never empty, `.` or `..` |
| FileWatcher.Scan | src/main/fileWatcher.ts:43-56 | the scan yields, in non-decreasing mtime order, exactly the image entries of the listing whose stat succeeds, each with its mtime; nothing when the listing fails |
| FileWatcher.SortByMtime | src/main/fileWatcher.ts:56 | the sort's result is ordered by mtime and is a permutation of its input |
| FileWatcher.ScanDistinct | src/main/fileWatcher.ts:43-59 | for a listing of distinct entry names, no path is reported twice by the scan |
| FileWatcher.Start | src/main/fileWatcher.ts:18-71 | a missing directory leaves the watcher stopped and reports nothing; otherwise the directory is watched with no pending path and no timer; the reported paths are exactly the detected set |
| FileWatcher.StartReportsListed | src/main/fileWatcher.ts:43-66 | start reports exactly the image entries whose stat succeeds |
| FileWatcher.StartReportsOldestFirst | src/main/fileWatcher.ts:56-66 | start reports in non-decreasing mtime order |
| FileWatcher.StartReportsOnce | src/main/fileWatcher.ts:59-66 | start reports each path once |
| FileWatcher.OnChange | src/main/fileWatcher.ts:76-89 | a null, empty or non-image name, or no watched directory, changes nothing; an image name adds `join(dir, name)` to the pending set, keeps the earlier order, and arms the timer; the pending list grows by one only when the path was not pending yet, as `Set.add` does |
| FileWatcher.OnChangePendingOnce | src/main/fileWatcher.ts:83 | a notification keeps a duplicate-free pending set duplicate-free, so a path is pending at most once |
| FileWatcher.Promote | src/main/fileWatcher.ts:91-105 | reports, without duplicates, exactly the pending paths that exist and were not detected, and the detected set grows by exactly those |
| FileWatcher.OnTimer | src/main/fileWatcher.ts:89-108 | an unarmed timer does nothing; a firing reports exactly the pending paths that exist and are new, adds them to the detected set, empties the pending set and disarms |
| FileWatcher.ApplyKeepsInv | src/main/fileWatcher.ts:18-128 | every transition preserves the session invariant: no path reported twice, reports equal to the detected set, no path pending twice, nothing pending while the timer is unarmed, nothing held while stopped |
| FileWatcher.RunKeepsInv | src/main/fileWatcher.ts:59-99 | across any event sequence, within each session no path is reported twice and the reported paths are exactly the detected set |
| FileWatcher.StopResets | src/main/fileWatcher.ts:116-132 | stop leaves no watched directory, an empty detected set and no armed timer, and stopping twice is the same as stopping once |
| FileWatcher.RestartReportsAgain | src/main/fileWatcher.ts:22-66 | stopping and restarting on an unchanged directory reports the same files again |
| FileWatcher.IgnoredChanges | src/main/fileWatcher.ts:77-78 | notifications while nothing is watched, without a name, or for non-images leave the watcher unchanged |
| FileWatcher.BurstKeeps | src/main/fileWatcher.ts:76-89 | a burst of image notifications keeps the directory and detected set and only adds pending paths |
| FileWatcher.BurstDefersEverything | src/main/fileWatcher.ts:83-89 | during a burst nothing is reported; every file of the burst, the earliest included, waits on the one armed timer |
| ZImageStore.FetchModels | src/renderer/src/store/zimageStore.ts:26-43 | a failed request changes nothing; otherwise the list is stored, and when it is non-empty and lacks the selection, the selection becomes `z-image-turbo` if listed and the first model otherwise; a non-empty list then contains the selection; an empty list keeps it |
| ZImageStore.FetchModelsIdempotent | src/renderer/src/store/zimageStore.ts:26-38 | receiving the same list twice is the same as receiving it once |
| ZImageStore.StartGeneration | src/renderer/src/store/zimageStore.ts:52-105 | succeeds iff the output folder is set; a refusal returns the message and leaves the store untouched; success clears logs and image path, sets generating, registers one more listener trio capturing the request's output, sends the request, and changes no other ref |
| ZImageStore.OnChunk | src/renderer/src/store/zimageStore.ts:78-83 | a chunk changes only the log; with one registration it is appended unchanged; with none nothing changes |
| ZImageStore.OnChunkOneMore | src/renderer/src/store/zimageStore.ts:78-83 | with one more registration, a chunk is logged one more time: the log gains exactly one further copy of the chunk |
| ZImageStore.FeedAppends | src/renderer/src/store/zimageStore.ts:78-83 | with one registration, the chunks are appended in arrival order with no splitting or buffering |
| ZImageStore.CloseEachAll | src/renderer/src/store/zimageStore.ts:84-96 | running the close listeners of one or more registrations in turn ends the run and drops every listener; on code 0 the image path is the last registration's output, otherwise the exit note is appended once per listener |
| ZImageStore.CloseAll | src/renderer/src/store/zimageStore.ts:84-96 | with one or more registrations, close clears generating and all listeners; code 0 sets the image path to the latest request's output; any other code, null included, appends the exit note once per registration; nothing else changes |
| ZImageStore.RestartClose | src/renderer/src/store/zimageStore.ts:84-101 | after two starts and no close, a close ends the run; on code 0 the image is the second request's output, otherwise the exit note appears twice |
| ZImageStore.CloseUnheard | src/renderer/src/store/zimageStore.ts:84-88 | a close with no listener registered changes nothing |
| ZImageStore.GenerationRun | src/renderer/src/store/zimageStore.ts:52-105 | a whole run from an idle store ends with the log equal to the chunks in order, plus the exit note unless the code is 0, and the image path set only on code 0 |
| ZImageStore.RestartDuplicatesChunks | src/renderer/src/store/zimageStore.ts:99-101 | starting twice before a close leaves two registrations, so every chunk is logged twice |
| ZImageStore.RequestArgs | src/renderer/src/store/zimageStore.ts:65-75 | the request's command line: `-o` is the normalised `<folder>/out-<t>.png`, `-n` iff a negative prompt is set, `-s` from width and height, `-l`/`-r` unless sentinel or zero, `-m` the model path, `-g` the gpu id's text |
| ZImageStore.InitialRequestArgs | src/renderer/src/store/zimageStore.ts:11-19 | from the initial settings: no `-n`, `-l` or `-r`, `-s 1024,1024`, the default model's path, and `-g auto` |
| Paths.RenderRoundTrip | src/main/zimage.ts:64 | a resolved segment list written out reads back as the same segments and absoluteness |
| Paths.NormalizeSegments | src/main/zimage.ts:64 | normalising keeps absoluteness and the resolved segments, and never gives the empty string |
| Paths.NormalizeIdempotent | src/main/zimage.ts:93 | normalising twice is normalising once, so the extra `normalize` around a joined path changes nothing |
| Paths.JoinIsNormal | src/main/zimage.ts:21-22 | a join is never empty and is already normalised |
| Paths.JoinChild | src/main/fileWatcher.ts:46 | joining a plain entry name onto a directory appends exactly that segment and keeps absoluteness |
| Paths.JoinChildInjective | src/main/fileWatcher.ts:80 | distinct entry names joined onto the same directory give distinct paths |
| Paths.ParentOfChild | src/main/zimage.ts:21 | joining `..` onto a child path gives the normalised parent |
| Strings.ParseIntStr | src/main/zimage.ts:69 | an integer's decimal text parses back to the integer |
| Strings.SplitAtFirst | src/main/zimage.ts:69 | splitting `a,b` at the first comma, when `a` has none, gives back `a` and `b` |

## Left out

- Windows paths and separators: only POSIX paths are modelled.
- Paths.Normalize: Node keeps a trailing separator and this model drops it. For the paths the store and `getZImageModels` produce (`<folder>/out-<t>.png`, `<exe>/../../models/<name>`) the difference never shows; for an arbitrary `output` of `out/`, `ZImage.Args` gives `-o out` where Node gives `-o out/`.
- Strings.IntStr: numeric options are assumed to be safe integers (magnitude below 2^53). JavaScript prints 1e21 and above in exponent form (`1e+21`) and cannot hold larger integers exactly, so `ZImage.NumericRoundTrip` and `ZImage.SizeRoundTrip` speak for safe integers only.
- Floating-point numbers, `NaN`, `null` and booleans in the options are not modelled: width and height are integers; steps, seed and gpuId are integers or strings. File modification times are integers.
- Spawn failures, stream encodings and the `data.toString()` decoding: a chunk is a string.
- `getZImageModels`'s directory read is left out; only its path rule is modelled (`ZImage.ModelsDir`), and the list reaches `ZImageStore.FetchModels` as the reply.
- `ZImageStore.FetchModels`: a reply that is not a list is not modelled. The request's failure is `None` and is only logged.
- The watcher's `error` handler, failures of `fs.watch` itself, and all console logging.
- FileWatcher.SortByMtime: the insertion sort keeps equal-mtime entries in listing order, but stability is not stated as a property; only ordering and permutation are.
- Stopping: the pending set belongs to the closed watch and is dropped with it; no notification can reach it after the close.
- Timing: the 100 ms debounce is an armed flag plus an explicit firing step, so a firing can only happen once no notification has re-armed the timer.
- The event type passed to the `fs.watch` callback is ignored by the source and not modelled.
- `selectOutputFolder` (a dialog), Pinia persistence, `globalSettingsStore` (default refs only) and the router (a static table).
- Several registrations are modelled as one append per registration for a chunk and one close listener run per registration for a close. This relies on Electron's emitter calling every listener registered when the message arrives, even after an earlier close listener has removed them all.

## Findings

| source | as written | input that shows it | evidently intended | confidence | as-written member | corrected member |
|---|---|---|---|---|---|---|
| src/main/zimage.ts:128-132 | each child's close handler sets `zImageChild = null` whichever child the slot holds | start child 0, start child 1 (child 0 is sent a kill), then child 0 closes: the slot is emptied while child 1 runs; a kill then does nothing and a new start runs beside child 1 | empty the slot only if it still holds the child that closed, so at most one child runs unsignalled | not executed | ZImageProcess.StaleCloseSchedule | ZImageProcess.RunOwnedTracked |

# sam2_autolabeler core, modelled in Dafny

This project models the algorithmic core of the sam2_autolabeler video
annotation tool and proves properties of that model. The core has seven parts:

- **Frame buffer** (`frame_buffer.dfy`). This is the frame bitmap cache of the
  `useFrameBuffer` hook. It keeps the decoded bitmaps by frame index and the
  pending loads by frame index. `loadFrame` answers in this order:
  out-of-range, then cache hit, then joining a pending load, then starting a
  new load. The hook also has:
  - the prefetch window `[max(0, cur - r/2), min(N - 1, cur + r)]`, fetched
    in batches of 6;
  - the eviction window `[max(0, cur - maxCache), min(N - 1, cur + maxCache)]`;
  - the reset on a new image list.

  The asynchronous `loadFrame` is split into two events on one logical
  thread. `LoadFrame` is the synchronous part and `CompleteLoad` is the
  promise continuation. A pending load is identified by a ticket.
- **Playback controller** (`frame_player.dfy`). This covers the cursor and
  play flag of `FramePlayer`: the cyclic tick, `step` with wrap-around and
  pause, the modular next and previous, first and last, the slider, the
  marker filter, and the tagging of a canvas click.
- **Mask store** (`mask_store.dfy`, `ordered_map.dfy`). This is the nested
  table `store[folder][frame][obj] = mask` together with the per-folder object
  registry. Two details of Python matter here:
  - `defaultdict` creates missing entries when they are read;
  - dictionaries keep insertion order, which the export and the overlay
    depend on.

  `get_global_object_ids` returns the sorted union of the ids that have masks
  and the ids that are registered.
- **Segmentation export** (`save.dfy`). This covers the PNG and JSON export
  endpoints:
  - the 400 and 404 checks;
  - which (frame, object) pairs are written, including negatives;
  - the `saved` count;
  - the `{obj_id}_{class}` directory and the `{frame:05d}` file names;
  - the exception when a negative has no mask to take its shape from.
- **Mask painting** (`overlay.dfy`). `make_overlay` paints each mask onto a
  copy of the frame in the colour `MASK_COLORS[obj_id % 6]`, and later
  objects win where masks overlap. The file also models the early return and
  the anchor of `draw_label_on_mask`, and the label text.
- **Frame listing** (`images.dfy`). This covers `extract_number`, the
  image-suffix filter, the stable sort by number, and the URL list of
  `get_images`.
- **Object registry** (`object_registry.dfy`). This covers the id counter and
  the list and selection updates of `useObjectRegistry`.

`common.dfy` holds the shared value types. `text.dfy` holds decimal
formatting and parsing and the string helpers.

Where the design description of the system and the code disagree, the model
follows the code:

- **No generation token.** The design calls for one, and says a load that
  completes after the image list is replaced must be discarded. The code has
  no such token. A completion always deletes `inflight[idx]` and always stores
  its bitmap (frontend/hooks/use-frame-buffer.ts:46-55), even after a reset.
  The model does the same. Two scenario methods prove what follows from this:
  - `StaleLoadRepopulatesCache`: a stale load writes into the emptied cache;
  - `StaleFailureDuplicatesLoad`: a stale failure removes the pending entry of
    a newer load of the same frame, so a second concurrent load of that frame
    starts.
- **No viewport mapping.** The design describes a letterbox (aspect-fit)
  viewport mapping and click rejection. The code has neither. The click
  handler divides by the canvas rectangle and tags the result.
- **Cursor moves that do not pause.** The design says every direct cursor move
  pauses playback. In the code only `step` and the slider pause. `firstFrame`,
  `lastFrame`, `nextFrame` and `prevFrame` do not, and the model's methods do
  not either.
- **Prefetch excludes only cached frames.** The design says the prefetch list
  leaves out pending indices too. The code leaves out only cached ones; a
  pending index is joined by `loadFrame`.
- **Batch order.** Batches go in increasing index order, not in order of
  distance from the cursor.
- **Eviction bound.** Eviction keeps a window of `2 * maxCache + 1` indices,
  so right after each eviction pass the cache holds at most that many
  entries (`EvictionBound`). The design promises that bound after any cursor
  move settles; the code does not keep it in between passes.
- **Late completions grow the cache.** A load that completes after an
  eviction pass stores its bitmap whatever the cursor is now
  (frontend/hooks/use-frame-buffer.ts:46-49). This covers loads started at
  an earlier cursor, and prefetches when the radius exceeds `maxCache`. The
  next pass runs only when the cursor, `maxCache` or the list length
  changes (frontend/hooks/use-frame-buffer.ts:104). Until then the cache
  can hold frames outside the eviction window. The model does the same
  (`LateCompletionOutsideWindow`).

## Model

| member | source | states |
|---|---|---|
| FrameBuffer.PrefetchStart | frontend/hooks/use-frame-buffer.ts:65 | the first prefetch index `max(0, cur - floor(radius / 2))`; Dafny's `/` by 2 floors, as `Math.floor` does |
| FrameBuffer.PrefetchEnd | frontend/hooks/use-frame-buffer.ts:66 | the last prefetch index `min(N - 1, cur + radius)` |
| FrameBuffer.EvictLow | frontend/hooks/use-frame-buffer.ts:93 | the lowest index eviction keeps, `max(0, cur - maxCache)` |
| FrameBuffer.EvictHigh | frontend/hooks/use-frame-buffer.ts:94 | the highest index eviction keeps, `min(N - 1, cur + maxCache)` |
| FrameBuffer.Missing | frontend/hooks/use-frame-buffer.ts:69-72 | the window's uncached indices in increasing order, the value `framesToFetch` ends with (its properties are stated by `MissingIsWindowMinusCache`) |
| FrameBuffer.MissingIsWindowMinusCache | frontend/hooks/use-frame-buffer.ts:65-72 | the prefetch list is strictly increasing; it holds only uncached indices inside the window; and it holds every uncached index of the window |
| FrameBuffer.MissingNothingCached | frontend/hooks/use-frame-buffer.ts:69-72 | with nothing cached, the prefetch list is the whole window `lo..hi` |
| FrameBuffer.PrefetchExample | frontend/hooks/use-frame-buffer.ts:65-72 | for N=100, cursor 0, the default radius 60 and an empty cache, the window is [0, 60] and all of 0..60 is prefetched |
| FrameBuffer.EvictionExample | frontend/hooks/use-frame-buffer.ts:93-103 | for cursor 300, the default budget 180 and 1000 frames, the kept window is [120, 480]; of cached frames 100, 300 and 500 only 300 is kept, and the bitmaps of 100 and 500 are closed |
| FrameBuffer.Batches | frontend/hooks/use-frame-buffer.ts:75-77 | concatenating the batches gives back the prefetch list, in order |
| FrameBuffer.BatchesShape | frontend/hooks/use-frame-buffer.ts:75-77 | every batch is non-empty and holds at most 6 frames; every batch but the last holds exactly 6 |
| FrameBuffer.Kept | frontend/hooks/use-frame-buffer.ts:96-103 | an index survives the eviction pass iff it was cached and lies in the window (or has not been visited yet), and it keeps its bitmap |
| FrameBuffer.Buffer.constructor | frontend/hooks/use-frame-buffer.ts:16-18 | both maps start empty and `isReady` starts false; no load has been started or settled |
| FrameBuffer.Buffer.Reset | frontend/hooks/use-frame-buffer.ts:20-25 | a new image list empties the cache and the in-flight map and clears `isReady`; pending loads are not cancelled |
| FrameBuffer.Buffer.LoadFrame | frontend/hooks/use-frame-buffer.ts:27-61 | out of range gives null and changes nothing; a cached index gives its bitmap and starts nothing; a pending index gives that same load; an empty source gives null; otherwise exactly one new load is registered for that index and nothing else changes; only this last case starts a load (a new ticket for that index), so a second request for a pending frame starts no second fetch |
| FrameBuffer.Buffer.CompleteLoad | frontend/hooks/use-frame-buffer.ts:46-55 | success and failure both delete `inflight[idx]`; success stores the bitmap at `idx`; failure leaves the cache unchanged and yields null |
| FrameBuffer.Buffer.GetImage | frontend/hooks/use-frame-buffer.ts:107 | returns the cached bitmap iff the index is cached |
| FrameBuffer.Buffer.PrefetchList | frontend/hooks/use-frame-buffer.ts:69-72 | the loop builds exactly `Missing(window, cached indices)` |
| FrameBuffer.Buffer.LoadBatch | frontend/hooks/use-frame-buffer.ts:78 | loading a batch adds exactly the loadable, uncached, not-yet-pending indices to the in-flight map and keeps every earlier pending load; each such index's result is its pending load; every load started is the pending load of a newly pending index, and earlier loads keep their index |
| FrameBuffer.Buffer.CurrentFrameSettled | frontend/hooks/use-frame-buffer.ts:82-84 | `isReady` rises iff the current frame's load yields a bitmap and the effect run has not been cleaned up |
| FrameBuffer.Buffer.OnCursorChange | frontend/hooks/use-frame-buffer.ts:63-90 | the job's list is computed from the cache before any load; the answer for the current frame is the one `loadFrame` gives (out of range, cached, joined or newly started); a newly started current load takes a smaller ticket than every load of the first batch; the first batch is the list's first 6 frames; the pending set grows by exactly the current frame (if loadable and uncached) and the batch's uncached frames; the images, cache, ready flag and closed bitmaps are unchanged; every load started is the pending load of a newly pending index and no load settles |
| FrameBuffer.Buffer.StartJob | frontend/hooks/use-frame-buffer.ts:74-80 | a fresh, uncancelled run over the list issues its first batch of at most 6 frames; existing pending loads are kept and every new one takes a ticket at or above the old counter; every load started is the pending load of a newly pending index |
| FrameBuffer.Buffer.EvictEntry | frontend/hooks/use-frame-buffer.ts:96-102 | an index outside the window is deleted and its bitmap closed; an index inside is left alone |
| FrameBuffer.Buffer.Evict | frontend/hooks/use-frame-buffer.ts:92-104 | after the pass the cache is `Kept(old cache)`, and exactly the evicted bitmaps have been closed; pending loads are left alone |
| FrameBuffer.PrefetchJob.constructor | frontend/hooks/use-frame-buffer.ts:74-75 | a new prefetch run starts at the head of its list, not cancelled, with no batch issued |
| FrameBuffer.PrefetchJob.Cancel | frontend/hooks/use-frame-buffer.ts:87-89 | the cleanup sets `cancelled` |
| FrameBuffer.PrefetchJob.Resume | frontend/hooks/use-frame-buffer.ts:75-79 | once cancelled, or at the end of the list, no further batch is issued; otherwise the next batch is the next consecutive slice of at most 6; the issued batches are always a prefix of `Batches(list)`; a stopped run starts no load, and a running one starts only the pending loads of newly pending indices |
| FrameBuffer.LateCompletionOutsideWindow | frontend/hooks/use-frame-buffer.ts:46-49 | a load started at one cursor that completes after an eviction pass at another leaves its frame cached outside the eviction window |
| FrameBuffer.RequestsShareOneLoad | frontend/hooks/use-frame-buffer.ts:36-58 | two requests for one frame, with no completion between them, share one load and leave one pending entry; only one load has been started |
| FrameBuffer.FailedLoadIsRetried | frontend/hooks/use-frame-buffer.ts:51-55 | after a failed load, the next request starts a new load |
| FrameBuffer.StaleLoadRepopulatesCache | frontend/hooks/use-frame-buffer.ts:46-49 | a load started before a reset still stores its bitmap in the emptied cache |
| FrameBuffer.StaleFailureDuplicatesLoad | frontend/hooks/use-frame-buffer.ts:51-52 | a stale failure deletes the newer pending entry, so a third request starts a second load of the frame; both loads are then started on that frame and neither has settled |
| FrameBuffer.EvictionBound | frontend/hooks/use-frame-buffer.ts:92-104 | after eviction, at most `2 * maxCache + 1` entries remain |
| FramePlayer.JsRem | frontend/components/frame-player.tsx:52 | JavaScript's `%`: for a non-negative dividend it equals the mathematical remainder; otherwise it lies in (-b, 0] |
| FramePlayer.Advance | frontend/components/frame-player.tsx:52 | `(prev + 1) % N` stays in [0, N), and moves each frame to the next one, the last frame going to 0 |
| FramePlayer.Retreat | frontend/components/frame-player.tsx:133-134 | `(prev - 1 + N) % N` stays in [0, N), and moves each frame to the previous one, frame 0 going to N - 1 |
| FramePlayer.Step | frontend/components/frame-player.tsx:120-128 | below 0 the `step` updater goes to N - 1; at N or above it goes to 0; otherwise it goes to `prev + dir`; for N > 0 the result is a frame index |
| FramePlayer.StepFromStaleCursor | frontend/components/frame-player.tsx:120-128 | when the cursor is at or past the end of a shorter list, `step(1)` goes to frame 0; `step(-1)` goes to N - 1 from exactly N and to frame 0 from any cursor above N |
| FramePlayer.AdvanceRetreatInverse | frontend/components/frame-player.tsx:130-134 | `prevFrame` after `nextFrame`, and `nextFrame` after `prevFrame`, are the identity on frame indices |
| FramePlayer.StepByOneIsCyclic | frontend/components/frame-player.tsx:120-134 | `step(1)` and `step(-1)` move the cursor as `nextFrame` and `prevFrame` do |
| FramePlayer.AdvanceTimesFormula | frontend/components/frame-player.tsx:49-58 | k ticks from c (k <= N) land on c + k, wrapped once past the end |
| FramePlayer.PlaybackIsCyclic | frontend/components/frame-player.tsx:49-58 | N ticks bring the cursor back to where it started |
| FramePlayer.MarkersAt | frontend/components/frame-player.tsx:77 | the markers selected for drawing are exactly those tagged with the frame |
| FramePlayer.MarkersAtDistributes | frontend/components/frame-player.tsx:77 | the filter keeps order: filtering a concatenation concatenates the filtered parts |
| FramePlayer.ClickMarker | frontend/components/frame-player.tsx:99-117 | a click emits a marker iff there is a handler and a canvas; the marker carries the active tool, the current frame and the click position |
| FramePlayer.ClickedMarkerIsDrawn | frontend/components/frame-player.tsx:99-117 | a marker emitted by a click is drawn on the frame it was made on, after the markers already there |
| FramePlayer.Player.constructor | frontend/components/frame-player.tsx:41-44 | the player starts paused, on frame 0, with the positive tool and the initial rate |
| FramePlayer.Player.Tick | frontend/components/frame-player.tsx:51-53 | a tick moves the cursor with `Advance` |
| FramePlayer.Player.TogglePlay | frontend/components/frame-player.tsx:119 | `isPlaying` flips |
| FramePlayer.Player.StepBy | frontend/components/frame-player.tsx:120-128 | `step` pauses and moves the cursor with `Step` |
| FramePlayer.Player.NextFrame | frontend/components/frame-player.tsx:130-131 | the cursor moves with `Advance`; the play flag is not touched |
| FramePlayer.Player.PrevFrame | frontend/components/frame-player.tsx:133-134 | the cursor moves with `Retreat`; the play flag is not touched |
| FramePlayer.Player.FirstFrame | frontend/components/frame-player.tsx:136-137 | the cursor becomes 0 |
| FramePlayer.Player.LastFrame | frontend/components/frame-player.tsx:139-140 | the cursor becomes N - 1 |
| FramePlayer.Player.OnSliderChange | frontend/components/frame-player.tsx:175 | the slider pauses and sets the cursor to its value |
| FramePlayer.Player.SetActiveTool | frontend/components/frame-player.tsx:156-164 | the tool buttons set the active tool |
| FramePlayer.Player.SetFps | frontend/components/frame-player.tsx:198 | the rate slider sets `fps` and leaves the cursor alone |
| FramePlayer.Player.SetFrameCount | frontend/components/frame-player.tsx:44-45 | a new image list does not move the cursor |
| FramePlayer.Player.CurrentMarkers | frontend/components/frame-player.tsx:77 | a marker is selected for drawing iff it is tagged with the current frame |
| FramePlayer.Player.HandleCanvasClick | frontend/components/frame-player.tsx:99-117 | a click is tagged with the active tool and the current frame |
| FramePlayer.ControllerScenario | frontend/components/frame-player.tsx:119-128 | two toggles restore the play flag; `step(1)` from the last frame pauses and wraps to frame 0 |
| OrderedMaps.Put | backend/app/services/mask_store.py:10 | assignment sets the value; a new key goes to the end of the order and an existing key keeps its place |
| OrderedMaps.Remove | backend/app/services/mask_store.py:17 | deletion removes the key from the map and from the key order and keeps every other key |
| OrderedMaps.PutRemoveRoundTrip | backend/app/services/mask_store.py:9-19 | inserting a new key and deleting it again gives back the original dictionary |
| OrderedMaps.Clear | backend/app/services/mask_store.py:28 | `clear()` leaves no keys |
| MaskStore.FolderOf | backend/app/services/mask_store.py:6 | reading `store[f]` gives the folder's frames, or a new empty dictionary |
| MaskStore.FrameOf | backend/app/services/mask_store.py:6 | reading `store[f][i]` gives the frame's masks, or a new empty dictionary |
| MaskStore.WithMask | backend/app/services/mask_store.py:9-10 | after saving, the entry holds the mask; every other (folder, frame, object) entry is unchanged; the folder and the frame now exist |
| MaskStore.WithFrame | backend/app/services/mask_store.py:12-13 | reading a frame creates the folder and the frame and changes no entry; reading an existing frame changes nothing |
| MaskStore.WithFolder | backend/app/services/mask_store.py:43 | reading a folder creates it and changes no entry; reading an existing folder changes nothing |
| MaskStore.WithoutFrame | backend/app/services/mask_store.py:15-19 | afterwards the frame is absent; every other frame and its entries are unchanged |
| MaskStore.ClearedFrame | backend/app/services/mask_store.py:27-28 | afterwards the frame exists with no masks, in its old place if it had one; every other frame is unchanged |
| MaskStore.SortedSet | backend/app/services/mask_store.py:48 | `sorted(set)` is strictly increasing and holds exactly the set's members |
| MaskStore.MaskIds | backend/app/services/mask_store.py:42-44 | the ids keyed in any frame of the folder (its property is stated by `MaskIdsAreStoredIds`) |
| MaskStore.MaskIdsAreStoredIds | backend/app/services/mask_store.py:42-44 | an id is collected from the frames iff some frame of the folder has an entry for it |
| MaskStore.GlobalObjectIds | backend/app/services/mask_store.py:41-48 | the global ids are strictly increasing and are exactly the ids with a mask entry in some frame plus the registered ids |
| MaskStore.SavedObjectIsGlobal | backend/app/services/mask_store.py:41-48 | after saving a mask for an object, that object is a global id of the folder |
| MaskStore.ClearingShrinksMaskIds | backend/app/services/mask_store.py:27-28 | clearing a frame adds no mask ids |
| MaskStore.ClearingShrinksGlobalIds | backend/app/services/mask_store.py:41-48 | clearing a frame adds no global ids |
| MaskStore.MaskStore.constructor | backend/app/services/mask_store.py:4-7 | both tables start empty |
| MaskStore.MaskStore.SaveMask | backend/app/services/mask_store.py:9-10 | the store becomes `WithMask(old store)` |
| MaskStore.MaskStore.GetMasks | backend/app/services/mask_store.py:12-13 | returns exactly the frame's stored entries, and creates the folder and frame when missing |
| MaskStore.MaskStore.DeleteMasks | backend/app/services/mask_store.py:15-19 | returns true iff the frame was present; the store becomes `WithoutFrame(old store)` |
| MaskStore.MaskStore.DeleteMasksFolder | backend/app/services/mask_store.py:21-25 | the folder leaves both tables and other folders are untouched |
| MaskStore.MaskStore.ClearFrame | backend/app/services/mask_store.py:27-28 | the store becomes `ClearedFrame(old store)` |
| MaskStore.MaskStore.CreateObjId | backend/app/services/mask_store.py:30-33 | the registry entry becomes `{class_id}`, creating the folder's registry when missing |
| MaskStore.MaskStore.DeleteObjId | backend/app/services/mask_store.py:35-36 | only that id leaves the folder's registry, and an absent id is no error |
| MaskStore.MaskStore.GetObjMetadata | backend/app/services/mask_store.py:38-39 | returns the registered entry iff there is one, and creates the folder's registry when missing |
| MaskStore.MaskStore.GetGlobalObjectIds | backend/app/services/mask_store.py:41-48 | returns `GlobalObjectIds(old state)` and creates the folder and its registry when missing |
| MaskStore.CollectMaskIds | backend/app/services/mask_store.py:42-44 | the loop collects exactly the ids keyed in the folder's frames |
| MaskStore.SaveThenGet | backend/app/services/mask_store.py:9-19 | a saved mask is read back; deleting the frame reports true the first time and false the second |
| Common.Zeros | backend/app/api/save.py:42 | the negative has the given shape and is zero everywhere |
| Text.ParseDecimal | backend/app/api/images.py:9 | the value of a string of decimal digits, as `int` reads it |
| Text.StartsWith | backend/app/api/images.py:15 | `str.startswith`: the prefix is no longer than the string and equals its start |
| Text.ToLower | backend/app/api/images.py:21 | ASCII lower-casing keeps the length and lowers each letter |
| Text.Format05d | backend/app/api/save.py:56 | Python's `05d`: the digits zero-padded to five characters, with a '-' that counts toward the width |
| Text.NatToDecimal | backend/app/api/save.py:51 | the decimal form is non-empty, has no leading zero and reads back as the number |
| Text.IntToString | backend/app/api/save.py:51 | the decimal form of an integer reads back as it, with a '-' before negatives |
| Text.IntToStringInjective | backend/app/api/save.py:51 | different ids have different decimal forms |
| Text.IntToStringHasNoUnderscore | backend/app/api/save.py:51 | a decimal form holds no '_' |
| Text.ZeroPad | backend/app/api/save.py:56 | padding ends with the digits, is preceded only by zeros, and has length at least the width |
| Text.Format05dRoundTrip | backend/app/api/save.py:56 | each frame index below 100000 becomes exactly five digits that read back as the index |
| SaveSegmentations.ClassId | backend/app/api/save.py:46 | the registered class id of the object, or -1 |
| SaveSegmentations.ClassName | backend/app/api/save.py:47-50 | the label of a known class, or `unknown` |
| SaveSegmentations.DirName | backend/app/api/save.py:51 | the directory `{obj_id}_{class_name}` |
| SaveSegmentations.FileName | backend/app/api/save.py:56 | `{frame_idx:05d}.png`, or `.json` for the JSON endpoint |
| SaveSegmentations.StepPair | backend/app/api/save.py:34-58 | one (frame, id) pair: nothing after an exception; a present mask is written; a missing one is skipped without negatives; with negatives, zeros of the first entry's shape are written, or the pair raises when the first entry is not a mask |
| SaveSegmentations.ObjectsLoop | backend/app/api/save.py:32-58 | `StepPair` over the global ids, in order |
| SaveSegmentations.FramesLoop | backend/app/api/save.py:31-58 | `ObjectsLoop` over the folder's frames, in insertion order |
| SaveSegmentations.Encode | backend/app/api/save.py:44 | the PNG data keeps the shape, lies in [0, 255], and maps 0 to 0 and 1 to 255; the JSON data is the mask itself |
| SaveSegmentations.NegativeFor | backend/app/api/save.py:39-42 | a negative exists iff the frame's first entry is a mask, and it is zeros shaped like a mask of the frame |
| SaveSegmentations.Export | backend/app/api/save.py:14-66 | 400 iff the resolved path escapes the root; 404 iff it does not but the folder is absent; a rejection writes nothing; a request that passes both checks is answered by the loops: the files they write are written, it fails iff they raise, and otherwise `saved` is the number of files written |
| SaveSegmentations.SaveSegmentations | backend/app/api/save.py:14-66 | the endpoint's answer and writes are `Export` of the old store; the store is unchanged and only the folder's registry may be created |
| SaveSegmentations.WriteFolder | backend/app/api/save.py:31-58 | the outer loop computes `FramesLoop` over the folder's frames in insertion order |
| SaveSegmentations.WriteFrame | backend/app/api/save.py:32-58 | the inner loop computes `ObjectsLoop` over the global ids |
| SaveSegmentations.ObjectsLoopCrashStays | backend/app/api/save.py:32-58 | once an exception escapes the inner loop, nothing more is written |
| SaveSegmentations.FramesLoopCrashStays | backend/app/api/save.py:31-58 | once an exception escapes, the outer loop writes nothing more |
| SaveSegmentations.StepPairSkips | backend/app/api/save.py:36-37 | a pair is skipped iff its mask is missing and negatives are off |
| SaveSegmentations.StepPairWrites | backend/app/api/save.py:39-57 | a written pair adds one file in `{obj_id}_{class}` named after the frame, holding the encoded mask or the encoded negative |
| SaveSegmentations.ObjectsLoopCount | backend/app/api/save.py:32-58 | without an exception, one frame writes one file per global id with negatives on, one per present mask otherwise |
| SaveSegmentations.FramesLoopCount | backend/app/api/save.py:31-58 | without an exception, frames × ids files are written with negatives on, and one per present (frame, id) pair otherwise |
| SaveSegmentations.SavedCount | backend/app/api/save.py:27-64 | `saved` is frames × global ids with negatives on, otherwise the number of (frame, global id) pairs with a mask |
| SaveSegmentations.ObjectsLoopCrash | backend/app/api/save.py:39-41 | a frame raises iff negatives are on, its first entry is no mask, and some global id lacks a mask in it |
| SaveSegmentations.ObjectsLoopFormatBlind | backend/app/api/save.py:86-114 | the inner loops of the two endpoints write as many files and fail alike |
| SaveSegmentations.FramesLoopFormatBlind | backend/app/api/save.py:86-114 | the outer loops of the two endpoints write as many files and fail alike |
| SaveSegmentations.JsonReportsAsPng | backend/app/api/save.py:69-122 | the JSON endpoint gives the same status and `saved` count as the PNG endpoint |
| SaveSegmentations.DirNamesDiffer | backend/app/api/save.py:51 | distinct objects get distinct directories, whatever their class names |
| SaveSegmentations.UnknownClassDirectory | backend/app/api/save.py:46-51 | an unregistered object, or one whose class has no label, goes to `{obj_id}_unknown` |
| SaveSegmentations.FileNameOfFrame | backend/app/api/save.py:56 | the file name is five digits that read back as the frame index, then `.png` or `.json` |
| Overlay.ColorOf | backend/app/utils/overlay.py:21 | every id, negative ones included, picks a colour from `MASK_COLORS` |
| Overlay.ColorsRepeat | backend/app/utils/overlay.py:5-21 | ids six apart share a colour |
| Overlay.NearbyIdsDiffer | backend/app/utils/overlay.py:5-21 | ids fewer than six apart get different colours |
| Overlay.Painted | backend/app/utils/overlay.py:17-22 | the colour of one pixel after the masks of the given objects are painted in order: the colour of the last object covering it, otherwise the frame's colour |
| Overlay.Fits | backend/app/utils/overlay.py:18-22 | a mask is `None` or has the image's shape; any other mask makes `overlay[mask > 0]` raise |
| Overlay.LastCoveringObjectWins | backend/app/utils/overlay.py:17-22 | where masks overlap, the last covering object in dictionary order gives the colour |
| Overlay.UncoveredPixelKept | backend/app/utils/overlay.py:17-22 | a pixel no mask covers keeps the frame's colour; `None` masks cover nothing |
| Overlay.PaintMask | backend/app/utils/overlay.py:22 | pixels where the mask is positive take the colour; all others keep their value |
| Overlay.MakeOverlay | backend/app/utils/overlay.py:14-29 | the result is a fresh copy, so the image is not written; it succeeds iff every mask fits the image; each pixel is `Painted` from the frame's pixel over the masks in order |
| Overlay.PaintNext | backend/app/utils/overlay.py:18-22 | one loop turn reports whether the next mask fits the image; when it does, every pixel is `Painted` over one more mask |
| Overlay.Positives | backend/app/utils/overlay.py:32 | every listed position is a positive pixel of the mask |
| Overlay.PositivesComplete | backend/app/utils/overlay.py:32 | every positive pixel is listed |
| Overlay.PositivesIffHasPositive | backend/app/utils/overlay.py:32-35 | the list is empty iff the mask has no positive pixel |
| Overlay.MeanInside | backend/app/utils/overlay.py:37-38 | the mean position of the positive pixels, rounded down, lies within the mask's bounds |
| Overlay.LabelAnchor | backend/app/utils/overlay.py:31-38 | there is no anchor, which is the early return, iff the mask has no positive pixel; otherwise the anchor (x, y) lies within the mask's bounds |
| Overlay.LabelText | backend/app/utils/overlay.py:25-26 | `ID:{obj_id} {name}`, where `name` is the label of the registered class (or of the id when unregistered), or that class id itself when it has no label |
| Overlay.UnregisteredLabel | backend/app/utils/overlay.py:25-26 | an unregistered object with no label for its id is labelled `ID:o o` |
| Overlay.RegisteredLabel | backend/app/utils/overlay.py:25-26 | a registered object whose class has a label is labelled with that name |
| ImageListing.FirstDigitFrom | backend/app/api/images.py:8 | the first digit at or after a position, with no digit before it |
| ImageListing.RunEndFrom | backend/app/api/images.py:8 | the end of the maximal run of digits starting at a position |
| ImageListing.ExtractNumber | backend/app/api/images.py:7-9 | the result is -1 iff the name has no digit |
| ImageListing.ExtractNumberOfRun | backend/app/api/images.py:7-9 | non-digits, then a run of digits, then a non-digit or the end: the value of that run |
| ImageListing.ExtractNumberOfPaddedName | backend/app/api/images.py:7-9 | `frame_{n:05d}.jpg` reads back as n |
| ImageListing.LastDot | backend/app/api/images.py:21 | the position of the last '.', or none when there is no dot |
| ImageListing.Suffix | backend/app/api/images.py:21 | a non-empty suffix starts at the last dot, which is neither the name's first nor its last character, and runs to the end of the name; the suffix is empty iff there is no dot or the last dot opens or closes the name |
| ImageListing.IsFrameFile | backend/app/api/images.py:21 | an entry is a frame file iff its suffix, lower-cased, is `.jpg`, `.jpeg` or `.png` |
| ImageListing.FrameFiles | backend/app/api/images.py:21 | the filter keeps only image files, each from the listing |
| ImageListing.FrameFilesKeepFrames | backend/app/api/images.py:21 | every image file of the listing is kept |
| ImageListing.Insert | backend/app/api/images.py:21-22 | insertion adds exactly the one entry |
| ImageListing.InsertSorted | backend/app/api/images.py:21-22 | insertion keeps the list sorted by number |
| ImageListing.SortByNumber | backend/app/api/images.py:21-22 | the result is sorted by number and a permutation of the input |
| ImageListing.InsertKeepsEqualKeysInOrder | backend/app/api/images.py:21-22 | into a sorted list, insertion puts the entry before the others with its number and keeps their order |
| ImageListing.SortIsStable | backend/app/api/images.py:21-22 | entries with the same number keep their order |
| ImageListing.ListedFramesAreSortedImages | backend/app/api/images.py:21-22 | the listed frames are exactly the listing's image files, sorted by number, each once |
| ImageListing.ListedFrames | backend/app/api/images.py:21-22 | the image files of the listing, sorted by `extract_number` (its properties are stated by `ListedFramesAreSortedImages`) |
| ImageListing.FrameUrl | backend/app/api/images.py:24 | the URL `/static/{folder}/{name}` of one frame |
| ImageListing.GetImages | backend/app/api/images.py:11-26 | 400 iff the resolved path escapes the root; 404 iff it does not but the folder is missing; a request that passes both checks is answered, with one `/static/{folder}/{name}` URL per listed frame, in order |
| ImageListing.SuffixExamples | backend/app/api/images.py:21 | `notes.txt` is not a frame; `f10.png` and `f2.JPG` are |
| ImageListing.NumberExamples | backend/app/api/images.py:7-9 | `f10.png` gives 10 and `f2.JPG` gives 2 |
| ImageListing.FilterExample | backend/app/api/images.py:21 | the filter drops `notes.txt` and keeps the rest in order |
| ImageListing.KeepDropKeep | backend/app/api/images.py:21 | of three entries, a non-image in the middle is dropped and the two images are kept in order |
| ImageListing.FrameFilesSingle | backend/app/api/images.py:21 | a one-entry listing is kept iff the entry is an image file |
| ImageListing.FilterDistributes | backend/app/api/images.py:21 | a per-entry filter of a concatenation is the concatenation of the filters |
| ImageListing.FrameFilesIsFilter | backend/app/api/images.py:21 | the image filter is the per-entry filter with `IsFrameFile` as its test |
| ImageListing.FrameFilesDistributes | backend/app/api/images.py:21 | filtering two listings joined is filtering each and joining the results |
| ImageListing.SortExample | backend/app/api/images.py:21-22 | `f2.JPG` sorts before `f10.png` |
| ImageListing.ListingExample | backend/app/api/images.py:21-22 | a mixed listing is served as `f2.JPG`, `f10.png` |
| ObjectRegistry.Without | frontend/hooks/use-object-registry.ts:57 | the filter never lengthens the list |
| ObjectRegistry.WithoutMembers | frontend/hooks/use-object-registry.ts:57 | the filter keeps exactly the objects whose id differs |
| ObjectRegistry.WithoutKeepsIdsIncreasing | frontend/hooks/use-object-registry.ts:57 | the filter keeps ids increasing and below the counter |
| ObjectRegistry.WithoutKeepsIdsAbove | frontend/hooks/use-object-registry.ts:57 | the filter keeps ids above any bound they were above |
| ObjectRegistry.WithoutDistributes | frontend/hooks/use-object-registry.ts:57 | the filter keeps the relative order of the objects it keeps |
| ObjectRegistry.WithoutKeepsIdsDistinct | frontend/hooks/use-object-registry.ts:57 | the filter keeps ids pairwise distinct |
| ObjectRegistry.WithoutAbsent | frontend/hooks/use-object-registry.ts:57 | deleting an id no object carries changes nothing |
| ObjectRegistry.Toggled | frontend/hooks/use-object-registry.ts:63-67 | the map keeps length and order, flips `visible` of matching objects only, and leaves all else unchanged |
| ObjectRegistry.ToggleTwice | frontend/hooks/use-object-registry.ts:63-67 | toggling twice is the identity |
| ObjectRegistry.Registry.constructor | frontend/hooks/use-object-registry.ts:15-17 | no objects, no selection, counter at 0, no create pending |
| ObjectRegistry.Registry.BeginCreate | frontend/hooks/use-object-registry.ts:19-20 | the id is the counter, which advances; the id is above every id in use and not already pending |
| ObjectRegistry.Registry.FinishCreate | frontend/hooks/use-object-registry.ts:22-43 | the id stops pending; if the request resolved, exactly one visible object with that id is appended and selected; if it rejected, list and selection are unchanged; ids stay distinct |
| ObjectRegistry.Registry.CreateObject | frontend/hooks/use-object-registry.ts:19-45 | with no overlapping create and a resolving request: returns the counter and advances it; the new id exceeds every id in use; exactly one visible object is appended and selected; ids that were increasing stay increasing |
| ObjectRegistry.Registry.DeleteObject | frontend/hooks/use-object-registry.ts:47-61 | the list is filtered; the selection is cleared iff it was that id; the counter is kept; ids stay distinct, and stay increasing if they were |
| ObjectRegistry.Registry.ToggleVisibility | frontend/hooks/use-object-registry.ts:63-67 | the list becomes `Toggled(old list)`; ids stay distinct and below the counter, and stay increasing if they were |
| ObjectRegistry.Registry.SelectObject | frontend/hooks/use-object-registry.ts:74 | the selection is set |
| ObjectRegistry.CreateDeleteCreate | frontend/hooks/use-object-registry.ts:19-61 | an id is not reused after its object is deleted |
| ObjectRegistry.OverlappingCreates | frontend/hooks/use-object-registry.ts:19-45 | two creates whose requests settle in reverse order list the later id first and leave the earlier one selected |
| ObjectRegistry.RejectedCreate | frontend/hooks/use-object-registry.ts:19-31 | a create whose request rejects appends nothing, yet the next id is 1 |

## Left out

- `fetch`, `res.blob()` and `createImageBitmap` are not modelled. A load's outcome is given to `CompleteLoad` as a bitmap or a failure.
- The console logging is not modelled.
- The `Promise.all(...).catch` await is modelled as one `Resume` call per batch. Whether loads complete between batches is left to the caller.
- React effect scheduling is not modelled. Each effect is a method that the caller invokes in order.
- The `setInterval` timer with its floating-point period `1000 / fps` is not modelled; a tick is the `Tick` method.
- All canvas drawing (`drawImage`, `arc`, `fillText`) is left out.
- The normalised click coordinates are floating-point divisions by the canvas rectangle. They are parameters of the click.
- The design's letterbox viewport and its click rejection are not in the code, so they are not in the model.
- FramePlayer.Player.NextFrame: requires at least one frame. With no frames JavaScript's `% 0` yields NaN, which has no integer model.
- FramePlayer.Player.PrevFrame: requires at least one frame, for the same reason.
- FramePlayer.Player.Tick: requires at least one frame. The interval only runs while playing with frames.
- `cv2.addWeighted`, the 0.7/0.3 blend, is left out. `MakeOverlay` yields the painted copy before blending.
- `cv2.putText` is left out.
- Overlay.LabelAnchor: takes the exact mean rounded down. `int(xs.mean())` goes through floating point, and its rounding is not modelled.
- `cv2.imwrite`, `mkdir`, `open` and `json.dump` are left out. The export returns the list of files it would write.
- `(mask * 255).astype("uint8")` is modelled on integer pixels as `(v * 255) mod 256`; numpy dtypes are not modelled.
- `COCO_LABELS` (app/utils/cocos.py) is not part of this model. It is a parameter map.
- `SEGMENTATIONS_DIR` and `UPLOADS_DIR` are not modelled as paths.
- `Path.resolve`, `exists` and `iterdir` are filesystem calls. Their results are parameters: the resolved path and the root as strings, whether the folder exists, and the listed names.
- ImageListing.GetImages: a `folder` that names an existing regular file passes `exists()` (backend/app/api/images.py:18), and then `iterdir()` raises, so the request fails with a 500. `folderExists` and `entries` cannot express this, and the model answers such a request with the listing of `entries`.
- `\d` and `str.lower()` are modelled on ASCII only. Unicode digits and case mappings are not modelled.
- MaskStore.MaskStore.GetMasks: returns the frame's masks as a value. The caller does not hold an alias into the live dictionary.
- Masks are integer grids. Boolean and float mask dtypes, and the shapes numpy would broadcast, are not modelled.
- The requests sent by `createObject` and `deleteObject` are not modelled. `createObject` is split at its `await` into `BeginCreate` and `FinishCreate`, and whether the request rejected is a parameter. `deleteObject` is modelled as one atomic step after its request: interleavings across its `await` are not modelled, and neither is its reading of the selection from the render it was created in (the model reads the current selection).
- `sam2_engine.py`, `folders.py`, `upload.py`, the job queue and the UI-only components are outside the modelled core.

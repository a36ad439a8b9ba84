# Userscripts, modelled in Dafny

This project models the deterministic core of a set of browser userscripts. The browser is reduced to inputs and outputs: paths, pointer coordinates, dropped files, storage maps, the current time. The model proves what each script promises about them.

- **Instagram floating-image canvas** (`IgThread`, `IgStore`, `IgCanvas`).
  - Resolves the direct-message thread from the path.
  - Keeps one localStorage list of image records per thread.
  - Handles navigation checks, wheel resize, double-click delete, mouse drag and file drop on a class that holds the page state.
- **Earlier floating-image canvas** (`FloatingCanvas`). The same gestures, with no storage, and a `mouseup` that releases every image.
- **Calendar focus blocker** (`CalendarBlocker`).
  - A small iCalendar reader: VEVENT components (section 3.6.1 of RFC 5545), with UTC DATE-TIME values (section 3.3.5 of RFC 5545) rewritten to the extended ISO 8601 form.
  - The choice of the event in progress, the block decision and the temporary unblock.
  - The `m:ss` countdown and the five-minute feed cache.
- **Focus Guardian** (`FocusGuardian`). Host blocking by substring, the YouTube whitelist, the persisted break timer and the block / timer / nothing decision.
- **Spotify album grouping** (`AlbumGrouping`, `JsSort`). The stable sort by album and track number, one collapsible header per album, collapse toggling and the grouping switch.
- **Image sidebar** (`ImageSidebar`).
  - Drop decision: files first, otherwise one URL candidate, with the `data:` short-cut and the fetch fallback.
  - The IndexedDB store keyed by `id`.
  - The drag-out data.
- **Redirect tables** (`MegaRedirect`, `InstaRedirect`). Path segmentation, table lookup, target URL and loop freedom.

Shared modules:
- `Gestures` and `DroppedFiles`: the wheel, drag and drop rules both canvases share.
- `JsText`: the JavaScript string operations the scripts use (`split`, `includes`, `toLowerCase`, `trim`, `parseInt`, `padStart`).
- `JsObject`: property lookup on an object literal, inherited names included.
- `Maybe`: an option type.

Where the scripts call into the browser, the model takes the result as a parameter:
- `new Date(...)` becomes `dateOf`;
- `crypto.randomUUID()` becomes `freshId`;
- the outcome of a `fetch` becomes a `FetchResult`;
- the text of a `FileReader` becomes `dataUrl`;
- `Date.now()` becomes `now`.

Navigation (`location.replace`, `location.reload`) is returned as a decision value.

## Model

| member | source | states |
|---|---|---|
| IgThread.GetThreadId | userscripts/igfloatingimagecanvas.user.js:38-41 | None exactly when no index has `/direct/t/` followed by a digit; otherwise the maximal digit run after the leftmost such match |
| IgThread.ThreadIdOfDirectPath | userscripts/igfloatingimagecanvas.user.js:38-41 | `/direct/t/` + a digit string, followed by nothing or by a non-digit, yields exactly that digit string |
| IgThread.StorageKey | userscripts/igfloatingimagecanvas.user.js:43-45 | every key starts with the prefix `floating-canvas::instagram::` |
| IgThread.StorageKeyInjective | userscripts/igfloatingimagecanvas.user.js:43-45 | two threads (none of them the text "null") with the same key are the same thread |
| IgThread.NextThread | userscripts/igfloatingimagecanvas.user.js:190-202 | the thread either stays as it was or becomes the path's id, and then only when that id is a valid thread |
| IgThread.NextThreadIdempotent | userscripts/igfloatingimagecanvas.user.js:190-202 | after a check, checking the same path again never switches and changes nothing |
| IgThread.NextThreadCases | userscripts/igfloatingimagecanvas.user.js:190-202 | no id, or an id outside the valid set, keeps the current thread; a valid id becomes current |
| IgThread.NextThreadStaysValid | userscripts/igfloatingimagecanvas.user.js:190-202 | the current thread is always a valid one, and once set it is never cleared |
| IgThread.ValidIdsAreNumeric | userscripts/igfloatingimagecanvas.user.js:14-31 | every valid thread id is a run of at least fifteen digits |
| IgStore.DecodeEncode | userscripts/igfloatingimagecanvas.user.js:47-57 | decoding what was encoded gives the list back |
| IgStore.Load | userscripts/igfloatingimagecanvas.user.js:47-53 | a key holding a serialized list loads exactly that list |
| IgStore.Save | userscripts/igfloatingimagecanvas.user.js:55-57 | the key then holds text that decodes to the list; every other key keeps its value and no key is lost |
| IgStore.LoadSave | userscripts/igfloatingimagecanvas.user.js:47-57 | loading right after saving under a key returns the saved list |
| IgStore.LoadMissingOrCorrupt | userscripts/igfloatingimagecanvas.user.js:47-53 | a missing or unparseable entry loads as the empty list |
| IgStore.ThreadIsolation | userscripts/igfloatingimagecanvas.user.js:43-57 | saving under thread a never changes what loads under a different thread b |
| IgStore.FindById | userscripts/igfloatingimagecanvas.user.js:113 | the index of the first record with the id, or none when no record has it |
| IgStore.UpdateRecords | userscripts/igfloatingimagecanvas.user.js:111-117 | nothing to write iff no record has the id; otherwise the same number of records with the same ids in the same order |
| IgStore.UpdateStorage | userscripts/igfloatingimagecanvas.user.js:111-117 | with no record of the id the storage is unchanged; keys other than the current one are never touched |
| IgStore.UpdateFirstOnly | userscripts/igfloatingimagecanvas.user.js:111-117 | the patch is merged into the first record with the id only; all other records and the order stay |
| IgStore.UpdateAbsent | userscripts/igfloatingimagecanvas.user.js:111-117 | with no record of that id nothing is written |
| IgStore.UpdateUnique | userscripts/igfloatingimagecanvas.user.js:111-117 | with unique ids, updating record k's id rewrites exactly record k, and ids stay unique |
| IgStore.RemoveRecords | userscripts/igfloatingimagecanvas.user.js:119-121 | no record with the id is left, and the list does not grow |
| IgStore.RemoveAppend | userscripts/igfloatingimagecanvas.user.js:119-121 | removal distributes over concatenation, so the order of the remaining records is kept |
| IgStore.RemoveAbsent | userscripts/igfloatingimagecanvas.user.js:119-121 | removing an id no record has keeps the list |
| IgStore.RemoveUnique | userscripts/igfloatingimagecanvas.user.js:119-121 | with unique ids, removing record k's id drops exactly record k and keeps the rest in order |
| IgStore.AppendTwice | userscripts/igfloatingimagecanvas.user.js:177-179 | two completed reads append both records, in completion order |
| IgStore.AppendOrderIrrelevant | userscripts/igfloatingimagecanvas.user.js:177-179 | whichever read completes first, the same multiset of records is stored |
| IgStore.AppendFreshUnique | userscripts/igfloatingimagecanvas.user.js:169-178 | appending a record with a fresh id keeps the ids unique |
| IgCanvas.LoadUnique | userscripts/igfloatingimagecanvas.user.js:47-53 | from a well-formed storage every loaded list has unique ids |
| IgCanvas.SaveWellFormed | userscripts/igfloatingimagecanvas.user.js:55-57 | saving a list with unique ids keeps the storage well formed |
| IgCanvas.Render | userscripts/igfloatingimagecanvas.user.js:80-96 | a created element shows its record (id, src, width, position) and is not being dragged |
| IgCanvas.MoveAll | userscripts/igfloatingimagecanvas.user.js:135-139 | a mousemove keeps the number of elements |
| IgCanvas.MoveKeepsSync | userscripts/igfloatingimagecanvas.user.js:135-139 | a mousemove leaves elements that are not dragged unchanged and the overlay still shows the store |
| IgCanvas.Committed | userscripts/igfloatingimagecanvas.user.js:141-148 | the stored list after the first n mouseups has the same length |
| IgCanvas.CommittedIds | userscripts/igfloatingimagecanvas.user.js:141-148 | committing positions keeps unique ids unique |
| IgCanvas.CommitStep | userscripts/igfloatingimagecanvas.user.js:141-148 | the mouseup of a dragged element n rewrites exactly record n with the element's position |
| IgCanvas.NoneDraggingExtend | userscripts/igfloatingimagecanvas.user.js:141-143 | no element of a prefix is dragged exactly when none before i is and element i is not |
| IgCanvas.ReleaseAll | userscripts/igfloatingimagecanvas.user.js:141-143 | after a mouseup no element is dragged |
| IgCanvas.ReleaseKeepsSync | userscripts/igfloatingimagecanvas.user.js:141-148 | after a mouseup the overlay shows the list with every dragged position committed |
| IgCanvas.CommitStorageStep | userscripts/igfloatingimagecanvas.user.js:141-148 | one dragged element's mouseup changes only the current key, to the list with one more position committed |
| IgCanvas.InstagramCanvas.constructor | userscripts/igfloatingimagecanvas.user.js:33-35 | the script starts with no thread and no overlay |
| IgCanvas.InstagramCanvas.CheckThreadChange | userscripts/igfloatingimagecanvas.user.js:190-202 | current thread becomes NextThread; on a switch the overlay is rebuilt from the new thread's list; storage never changes |
| IgCanvas.InstagramCanvas.RestoreImages | userscripts/igfloatingimagecanvas.user.js:74-77 | the overlay holds one rendered element per stored record, in order |
| IgCanvas.InstagramCanvas.UpdateImage | userscripts/igfloatingimagecanvas.user.js:111-117 | storage becomes UpdateStorage of the current key; the thread and overlay are unchanged |
| IgCanvas.InstagramCanvas.RemoveImage | userscripts/igfloatingimagecanvas.user.js:119-121 | storage becomes the current list with the id filtered out |
| IgCanvas.InstagramCanvas.Wheel | userscripts/igfloatingimagecanvas.user.js:98-103 | element k gets the wheel width and record k is rewritten with that width at once; the overlay stays in sync |
| IgCanvas.InstagramCanvas.DoubleClick | userscripts/igfloatingimagecanvas.user.js:105-108 | element k and exactly record k are removed, the rest kept in order |
| IgCanvas.InstagramCanvas.MouseDown | userscripts/igfloatingimagecanvas.user.js:127-133 | element k starts dragging with the pointer-minus-corner offset; nothing is stored |
| IgCanvas.InstagramCanvas.MouseMove | userscripts/igfloatingimagecanvas.user.js:135-139 | every dragged element moves to pointer minus offset; storage unchanged |
| IgCanvas.InstagramCanvas.MouseUp | userscripts/igfloatingimagecanvas.user.js:141-148 | every drag ends; the current list gets each dragged element's position; with no drag nothing is written; only the current key can change |
| IgCanvas.InstagramCanvas.CommitDrags | userscripts/igfloatingimagecanvas.user.js:141-148 | the current key ends up holding every dragged position committed in order; nothing else changes, and without a drag nothing is written |
| IgCanvas.InstagramCanvas.Drop | userscripts/igfloatingimagecanvas.user.js:160-184 | no thread: no read; otherwise one read per image file, in order, at the drop point |
| IgCanvas.InstagramCanvas.ReadLoaded | userscripts/igfloatingimagecanvas.user.js:168-181 | the record (fresh id, data URL, drop point, width 300) is appended under the thread current at completion, and rendered |
| IgCanvas.RenderAll | userscripts/igfloatingimagecanvas.user.js:74-77 | one rendered element per record, in order |
| IgCanvas.RenderAllSync | userscripts/igfloatingimagecanvas.user.js:74-77 | a restored overlay shows the stored list with no drag in progress |
| IgCanvas.RemoveAtKeepsSync | userscripts/igfloatingimagecanvas.user.js:105-108 | removing element k and record k keeps the overlay in sync |
| IgCanvas.RemoveAtUnique | userscripts/igfloatingimagecanvas.user.js:119-121 | removing one record keeps ids unique |
| Gestures.WheelWidth | userscripts/igfloatingimagecanvas.user.js:101 | the new width is the truncation of width×1.1 (deltaY < 0) or width×0.9 |
| Gestures.WheelUpGrows | userscripts/igfloatingimagecanvas.user.js:101 | a tick with deltaY < 0 never shrinks the image, and grows it exactly when it is at least 10 wide |
| Gestures.WheelDownShrinks | userscripts/igfloatingimagecanvas.user.js:101 | a tick with deltaY >= 0 never grows the image, and shrinks it exactly when its width is at least 1 |
| Gestures.WheelMonotone | userscripts/floatingimagecanvas.user.js:62-66 | the same tick keeps wider images at least as wide |
| Gestures.WheelTicksGrow | userscripts/igfloatingimagecanvas.user.js:98-103 | n ticks up grow an image of width ≥ 10 by at least n |
| Gestures.WheelTicksShrink | userscripts/igfloatingimagecanvas.user.js:98-103 | n ticks down shrink an image by at least n while it has width |
| Gestures.DragFollowsPointer | userscripts/igfloatingimagecanvas.user.js:127-139 | the dragged element moves by exactly the pointer's displacement |
| DroppedFiles.ImageFiles | userscripts/igfloatingimagecanvas.user.js:164-165 | only dropped files whose type starts with `image/` are kept |
| DroppedFiles.ImageFilesAppend | userscripts/igfloatingimagecanvas.user.js:164-165 | the filter keeps drop order |
| DroppedFiles.ImageFilesCount | userscripts/floatingimagecanvas.user.js:31-33 | every image file is kept as often as it was dropped, and no other file is kept |
| DroppedFiles.ReadsAt | userscripts/floatingimagecanvas.user.js:32-39 | one read per file, each at the drop point |
| DroppedFiles.DropStep | userscripts/floatingimagecanvas.user.js:31-39 | one more dropped file adds one read, at the drop point, exactly when it is an image |
| FloatingCanvas.Rendered | userscripts/floatingimagecanvas.user.js:51 | the rendered width is the requested width capped at 300 |
| FloatingCanvas.CappedWheelBounds | userscripts/floatingimagecanvas.user.js:62-66 | a tick never passes the cap; up grows exactly when 10 ≤ width < 300, down shrinks exactly when width ≥ 1 |
| FloatingCanvas.Move | userscripts/floatingimagecanvas.user.js:85-89 | an image moves to pointer minus offset only while dragged |
| FloatingCanvas.Canvas.constructor | userscripts/floatingimagecanvas.user.js:13-22 | the overlay starts empty |
| FloatingCanvas.Canvas.DragOver | userscripts/floatingimagecanvas.user.js:25 | the dragover default is always suppressed |
| FloatingCanvas.Canvas.Drop | userscripts/floatingimagecanvas.user.js:28-41 | the drop default is suppressed; one read per image file, in drop order, at the drop point |
| FloatingCanvas.Canvas.ReadLoaded | userscripts/floatingimagecanvas.user.js:36-57 | the new image is appended at the drop point, capped, ready to grab |
| FloatingCanvas.Canvas.Wheel | userscripts/floatingimagecanvas.user.js:62-66 | image k gets the capped wheel width; nothing else changes |
| FloatingCanvas.Canvas.DoubleClick | userscripts/floatingimagecanvas.user.js:69 | image k and only it is removed |
| FloatingCanvas.Canvas.MouseDown | userscripts/floatingimagecanvas.user.js:77-83 | image k starts dragging with the grabbing cursor and the captured offset |
| FloatingCanvas.Canvas.MouseMove | userscripts/floatingimagecanvas.user.js:85-89 | every image becomes Move of itself: dragged ones follow the pointer |
| FloatingCanvas.Canvas.MouseUp | userscripts/floatingimagecanvas.user.js:91-94 | every image, dragged or not, stops dragging and shows the grab cursor |
| FloatingCanvas.ReleaseSettles | userscripts/floatingimagecanvas.user.js:91-94 | after a mouseup an image keeps its place and size and later moves leave it there |
| CalendarBlocker.Extended | userscripts/focustocal.user.js:31-32 | the replacement of a 16-character stamp is 20 characters long |
| CalendarBlocker.ToIso | userscripts/focustocal.user.js:28-35 | a string without a stamp is unchanged; otherwise the leftmost stamp is rewritten and the rest kept |
| CalendarBlocker.ToIsoStamp | userscripts/focustocal.user.js:28-35 | a bare stamp becomes its extended form, and dropping the separators gives it back |
| CalendarBlocker.BasicExtended | userscripts/focustocal.user.js:31-32 | the rewrite loses nothing: dropping the inserted separators gives the sixteen-character value back |
| CalendarBlocker.GetField | userscripts/focustocal.user.js:42 | none iff no `KEY:` has a character of its line after it; otherwise the rest of the line after the leftmost one |
| CalendarBlocker.Candidate | userscripts/focustocal.user.js:42-54 | a block is an event iff it has DTSTART and DTEND values; the summary is the SUMMARY value or ""; start and end are the dates of the ISO-rewritten DTSTART and DTEND values |
| CalendarBlocker.Readings | userscripts/focustocal.user.js:41-48 | one reading per block, in order |
| CalendarBlocker.Present | userscripts/focustocal.user.js:49 | an event is kept iff some block was read as it; the filter never adds events |
| CalendarBlocker.PresentAppend | userscripts/focustocal.user.js:49 | the filter keeps block order |
| CalendarBlocker.PresentPosition | userscripts/focustocal.user.js:49 | an event read from block i sits right after the events read from the blocks before i |
| CalendarBlocker.PresentOrder | userscripts/focustocal.user.js:49 | a later block has more events read before it than an earlier block that was read |
| CalendarBlocker.PresentKeepsOrder | userscripts/focustocal.user.js:49 | two events read from blocks i < j come out in that order |
| CalendarBlocker.PresentAll | userscripts/focustocal.user.js:49 | nothing is dropped iff every block was read as an event |
| CalendarBlocker.ParseEvents | userscripts/focustocal.user.js:37-55 | at most one event per `BEGIN:VEVENT`; an event is in the result iff some block after the first `BEGIN:VEVENT` is read as it |
| CalendarBlocker.ReadingAt | userscripts/focustocal.user.js:39-48 | the reading of block k is the Candidate of block k |
| CalendarBlocker.ReadingsContain | userscripts/focustocal.user.js:39-48 | an event is among the readings iff some block after the first is read as it |
| CalendarBlocker.ParseEventsDropsPreamble | userscripts/focustocal.user.js:37-40 | cutting off the text before the first `BEGIN:VEVENT` gives the same events |
| CalendarBlocker.ParseEventsNone | userscripts/focustocal.user.js:37-40 | a feed without `BEGIN:VEVENT` has no events |
| CalendarBlocker.GetCurrentEvent | userscripts/focustocal.user.js:61-68 | the first event with a keyword in its summary and start ≤ now ≤ end; none iff there is no such event |
| CalendarBlocker.InProgressBounds | userscripts/focustocal.user.js:66 | an event is in progress exactly from its start to its end inclusive; never with an invalid time |
| CalendarBlocker.HasKeywordIgnoresCase | userscripts/focustocal.user.js:64-65 | the keyword test gives the same answer for a summary and its lower-case form |
| CalendarBlocker.IsBlockedSite | userscripts/focustocal.user.js:57-59 | blocked iff some listed site occurs somewhere in the host |
| CalendarBlocker.SubdomainBlocked | userscripts/focustocal.user.js:57-59 | any host ending in a listed site is blocked |
| CalendarBlocker.FormatTime | userscripts/focustocal.user.js:70-75 | the text reads back as floor(ms/1000) seconds, and as 0 below one second (negatives included) |
| CalendarBlocker.Run | userscripts/focustocal.user.js:170-180 | block iff the site is listed, an event is in progress and no unblock is active; the block lasts until that event's end |
| CalendarBlocker.UnblockWindow | userscripts/focustocal.user.js:155-177 | during a temporary unblock nothing is blocked |
| CalendarBlocker.CountdownTick | userscripts/focustocal.user.js:139-149 | reload iff the end is reached; otherwise show "Time left: " and the formatted time |
| CalendarBlocker.CacheChoice | userscripts/focustocal.user.js:186-190 | the cache is used iff it holds non-empty text younger than 300000 ms |
| CalendarBlocker.GmValues.constructor | userscripts/focustocal.user.js:162-187 | nothing is stored yet |
| CalendarBlocker.GmValues.StartTemporaryUnblock | userscripts/focustocal.user.js:155-164 | stores now + s·1000; unblocked exactly before that instant; cache untouched |
| CalendarBlocker.GmValues.ChooseSource | userscripts/focustocal.user.js:186-191 | the cache check with a missing time read as 0 |
| CalendarBlocker.GmValues.FetchLoaded | userscripts/focustocal.user.js:195-198 | both the cache text and its time are overwritten; the unblock value is kept |
| CalendarBlocker.CacheLifetime | userscripts/focustocal.user.js:186-201 | a fetched non-empty text is served for five minutes, then fetched again |
| CalendarBlocker.EmptyNeverCached | userscripts/focustocal.user.js:189 | an empty or missing cache always fetches |
| FocusGuardian.IsCurrentSiteBlocked | userscripts/focus.user.js:160-167 | blocked iff the lower-cased form of some listed site occurs in the lower-cased host |
| FocusGuardian.HostWithSiteBlocked | userscripts/focus.user.js:160-167 | any lower-case host ending in a listed site is blocked |
| FocusGuardian.DropboxIsBlocked | userscripts/focus.user.js:160-167 | `dropbox.com` is blocked, through the `x.com` entry |
| FocusGuardian.BlockIgnoresCase | userscripts/focus.user.js:161-163 | a host and its lower-case form are blocked alike |
| FocusGuardian.IsYouTubeWhitelisted | userscripts/focus.user.js:108-153 | only a page whose lower-cased host contains `youtube.com` can be whitelisted |
| FocusGuardian.WhitelistOnlyOnYouTube | userscripts/focus.user.js:108-114 | outside `youtube.com` nothing is whitelisted |
| FocusGuardian.SearchAndWatchAllowed | userscripts/focus.user.js:116-123 | on YouTube every `/results` or `/watch` page is whitelisted |
| FocusGuardian.ChannelHandleAllowed | userscripts/focus.user.js:127-138 | the `/@channel` page of a listed channel is whitelisted |
| FocusGuardian.EmptyChannelHref | userscripts/focus.user.js:142-151 | a channel link without `href` whitelists no more than no link at all |
| FocusGuardian.FormatTime | userscripts/focus.user.js:608-612 | the `m:ss` text reads back as the given seconds |
| FocusGuardian.Decide | userscripts/focus.user.js:618-637 | block iff blocked, not on break and not whitelisted; timer iff blocked and on break |
| FocusGuardian.DecideCases | userscripts/focus.user.js:624-637 | on a break a blocked site shows the timer even when whitelisted; an unlisted site is never touched |
| FocusGuardian.BreakState.constructor | userscripts/focus.user.js:83 | nothing stored: the break end reads as 0 |
| FocusGuardian.BreakState.GetBreakTimeLeft | userscripts/focus.user.js:97-101 | 0 iff not on break; otherwise the time left in whole seconds, rounded up |
| FocusGuardian.BreakState.SetBreak | userscripts/focus.user.js:88-92 | stores now + m·60000; on break exactly before that instant; m minutes left right away |
| FocusGuardian.BreakState.ClearBreak | userscripts/focus.user.js:93-96 | stores 0; no later instant is on a break and no time is left |
| FocusGuardian.BreakState.Tick | userscripts/focus.user.js:477-490 | shows the formatted time left; clears the break iff none is left |
| FocusGuardian.BreakState.OnPageLoad | userscripts/focus.user.js:618-637 | block iff the site is blocked, no break is running and the page is not whitelisted; timer iff the site is blocked and a break is running |
| FocusGuardian.BreakWindow | userscripts/focus.user.js:618-631 | on a blocked page a break shows the timer until its end, then the page is blocked |
| FocusGuardian.PageLoadAsWritten | userscripts/focus.user.js:120 | as written the file does not parse, so a page load neither blocks nor shows the timer |
| FocusGuardian.AsWrittenBlocksNothing | userscripts/focus.user.js:108-637 | off a break, `dropbox.com` is left alone as written but blocked by the intended script |
| JsText.IncludesIffOccurs | userscripts/focustocal.user.js:58 | `includes` holds iff the text occurs at some index |
| JsText.Lower | userscripts/megaredirect.user.js:27 | the same length, with no upper-case letter left |
| JsText.Split | userscripts/megaredirect.user.js:24 | `split` on one character gives at least one piece |
| JsText.JoinSplit | userscripts/megaredirect.user.js:24 | joining the pieces gives the string back |
| JsText.SplitPiecesFree | userscripts/megaredirect.user.js:24 | no piece contains the separator |
| JsText.SplitJoin | userscripts/megaredirect.user.js:24 | splitting a join of separator-free pieces gives the pieces |
| JsText.SplitOnJoin | userscripts/focustocal.user.js:39 | the pieces of a string split on a delimiter rejoin to it |
| JsText.SplitOnPiecesFree | userscripts/focustocal.user.js:39 | no piece of a string split on a delimiter contains the delimiter |
| JsText.TakeWhile | userscripts/imagesidebar.user.js:262 | the longest prefix whose characters satisfy the class |
| JsText.TrimStart | userscripts/spotifyalbumsort.user.js:55 | drops exactly the leading white space |
| JsText.TrimEnd | userscripts/spotifyalbumsort.user.js:55 | drops exactly the trailing white space |
| JsText.Trim | userscripts/spotifyalbumsort.user.js:55 | the result occurs in the text with only white space before and after it, and neither starts nor ends with white space |
| JsText.TrimIdempotent | userscripts/spotifyalbumsort.user.js:55 | trimming twice is trimming once |
| JsText.LowerIdempotent | userscripts/megaredirect.user.js:27 | lower-casing twice is lower-casing once |
| JsText.ParseInt | userscripts/spotifyalbumsort.user.js:60 | blank text is not a number; a negative result comes from text starting with `-` after white space |
| JsText.ParseIntNatToString | userscripts/spotifyalbumsort.user.js:60 | `parseInt` reads a printed number back after leading white space |
| JsText.ClockTextRoundTrip | userscripts/focus.user.js:608-612 | the `m:ss` text reads back as the number of seconds |
| JsText.PaddedSeconds | userscripts/focus.user.js:608-612 | seconds below a minute print as exactly two digits that read back as the seconds |
| JsSort.SortPermutes | userscripts/spotifyalbumsort.user.js:98-104 | sorting keeps the multiset of rows |
| JsSort.SortSorted | userscripts/spotifyalbumsort.user.js:98-104 | for a strict weak order the result is sorted |
| JsSort.SortStable | userscripts/spotifyalbumsort.user.js:98-104 | elements the comparator ties keep their relative order |
| JsSort.SortOfSorted | userscripts/spotifyalbumsort.user.js:98-104 | sorting a sorted list changes nothing |
| AlbumGrouping.Album | userscripts/spotifyalbumsort.user.js:53-56 | "" without a link; otherwise the link text with no leading or trailing space |
| AlbumGrouping.TrackNo | userscripts/spotifyalbumsort.user.js:58-62 | a non-zero track number is what `parseInt` reads from the first column |
| AlbumGrouping.TrackNoOfNumber | userscripts/spotifyalbumsort.user.js:58-62 | a first column holding a number (after white space) reads as that number |
| AlbumGrouping.TrackNoNaN | userscripts/spotifyalbumsort.user.js:58-62 | a column that is not a number, or no column, reads as 0 |
| AlbumGrouping.LexIrreflexive | userscripts/spotifyalbumsort.user.js:101-102 | no string is below itself |
| AlbumGrouping.LexTransitive | userscripts/spotifyalbumsort.user.js:101-102 | the string order is transitive |
| AlbumGrouping.LexTotal | userscripts/spotifyalbumsort.user.js:101-102 | any two strings are ordered or equal |
| AlbumGrouping.Compare | userscripts/spotifyalbumsort.user.js:98-104 | within one album the difference of the track numbers; zero only for the same album and track |
| AlbumGrouping.CompareSign | userscripts/spotifyalbumsort.user.js:98-104 | the comparator is negative iff KeyLess(x, y), positive iff KeyLess(y, x), zero iff album and track agree |
| AlbumGrouping.KeyLessOrder | userscripts/spotifyalbumsort.user.js:98-104 | the comparator's order is a strict weak order |
| AlbumGrouping.SortRows | userscripts/spotifyalbumsort.user.js:98-104 | sorting keeps the number of rows |
| AlbumGrouping.SortRowsOrdered | userscripts/spotifyalbumsort.user.js:98-104 | the sorted rows are a permutation, ordered by album, then by ascending track number |
| AlbumGrouping.SortRowsStable | userscripts/spotifyalbumsort.user.js:98-104 | rows with the same album and track keep their relative order |
| AlbumGrouping.SortRowsOfSorted | userscripts/spotifyalbumsort.user.js:98-106 | rows already in key order stay where they are |
| AlbumGrouping.Rows | userscripts/spotifyalbumsort.user.js:47-51 | the rows of the children are no more than the children |
| AlbumGrouping.RowsMembers | userscripts/spotifyalbumsort.user.js:47-51 | a row is kept iff it is among the children |
| AlbumGrouping.WithHeadersStep | userscripts/spotifyalbumsort.user.js:111-131 | one loop turn: a header before the row iff its album is non-empty and differs from `last` |
| AlbumGrouping.WithHeadersRows | userscripts/spotifyalbumsort.user.js:109-131 | inserting headers keeps every row and the row order |
| AlbumGrouping.RowsAppend | userscripts/spotifyalbumsort.user.js:109-131 | the rows of joined children are the rows of each part, in order |
| AlbumGrouping.HeaderAlbumsAppend | userscripts/spotifyalbumsort.user.js:109-131 | the header albums of joined children are those of each part, in order |
| AlbumGrouping.GroupHeaders | userscripts/spotifyalbumsort.user.js:109-131 | on album-ordered rows the header albums strictly increase, are non-empty and above `last`, and cover every other non-empty album |
| AlbumGrouping.HeadersAbove | userscripts/spotifyalbumsort.user.js:108-113 | on album-ordered rows every header album is non-empty and above `last` |
| AlbumGrouping.HeadersIncreasing | userscripts/spotifyalbumsort.user.js:109-131 | on album-ordered rows the header albums strictly increase, so no album gets two headers |
| AlbumGrouping.HeadersCover | userscripts/spotifyalbumsort.user.js:108-113 | in any row order, every non-empty album other than `last` gets a header |
| AlbumGrouping.HeaderPlacement | userscripts/spotifyalbumsort.user.js:113-130 | each header is followed by a row of its album, and no row of that album comes before it |
| AlbumGrouping.PlacedWithPrefix | userscripts/spotifyalbumsort.user.js:113-130 | a row, with or without its album's header before it, keeps every later header placed |
| AlbumGrouping.HeaderInAlbums | userscripts/spotifyalbumsort.user.js:116-130 | every header's album is among the header albums |
| AlbumGrouping.RegroupIdempotent | userscripts/spotifyalbumsort.user.js:68-107 | a second sortAndGroup gives the same children: headers never duplicate |
| AlbumGrouping.Regroup | userscripts/spotifyalbumsort.user.js:98-131 | the rows of the new children are the sorted rows |
| AlbumGrouping.HeadersOfSorted | userscripts/spotifyalbumsort.user.js:109-131 | on album-ordered rows no album has two headers and the header albums are exactly the non-empty albums |
| AlbumGrouping.KeySortedAlbums | userscripts/spotifyalbumsort.user.js:98-104 | rows in key order are in album order |
| AlbumGrouping.RegroupShape | userscripts/spotifyalbumsort.user.js:98-131 | the rows are the sorted rows; one header per distinct non-empty album and none for the empty album |
| AlbumGrouping.SameAlbums | userscripts/spotifyalbumsort.user.js:98-106 | two permutations of the rows have the same albums |
| AlbumGrouping.HeaderFromRow | userscripts/spotifyalbumsort.user.js:111-114 | every header album is the album of some row |
| AlbumGrouping.NextHeader | userscripts/spotifyalbumsort.user.js:81 | the first header after h, or the end, with no header in between |
| AlbumGrouping.ToggleSection | userscripts/spotifyalbumsort.user.js:74-86 | toggling keeps the number of children |
| AlbumGrouping.ToggleTwice | userscripts/spotifyalbumsort.user.js:74-86 | collapsing an open, shown section hides exactly its rows; toggling again restores the children |
| AlbumGrouping.TrackList.constructor | userscripts/spotifyalbumsort.user.js:1-30 | grouping starts enabled |
| AlbumGrouping.GroupWithHeaders | userscripts/spotifyalbumsort.user.js:109-131 | the loop builds exactly the sorted rows with a header before each new non-empty album |
| AlbumGrouping.TrackList.SortAndGroup | userscripts/spotifyalbumsort.user.js:89-132 | nothing when grouping is off or there are no rows; otherwise the children become Regroup of the rows |
| AlbumGrouping.TrackList.ToggleCollapse | userscripts/spotifyalbumsort.user.js:74-86 | the children become ToggleSection; the grouping switch is kept |
| AlbumGrouping.TrackList.ToggleGrouping | userscripts/spotifyalbumsort.user.js:135-150 | flips the switch; off: headers removed and every row shown; on: regrouped; no rows: nothing else |
| AlbumGrouping.ShowAll | userscripts/spotifyalbumsort.user.js:144-146 | one row per row, in order, each with display "" |
| AlbumGrouping.ShowAllPlain | userscripts/spotifyalbumsort.user.js:144-146 | switching off leaves no header and no hidden row |
| AlbumGrouping.ShowAllRows | userscripts/spotifyalbumsort.user.js:144-146 | the rows after switching off are the rows with display reset |
| ImageSidebar.GetData | userscripts/imagesidebar.user.js:261-263 | a missing format reads as "" |
| ImageSidebar.SrcCaptureAt | userscripts/imagesidebar.user.js:262 | a capture is non-empty and holds no quote |
| ImageSidebar.HtmlSrc | userscripts/imagesidebar.user.js:262 | the capture of the leftmost match, or none iff the pattern matches nowhere |
| ImageSidebar.HtmlSrcAt | userscripts/imagesidebar.user.js:262 | a capture at an index with no capture before it is the one the pattern returns |
| ImageSidebar.UrlCandidate | userscripts/imagesidebar.user.js:261-263 | a non-empty candidate is the uri-list item, the html `src` or the plain item, and the uri-list item wins when present |
| ImageSidebar.UrlCandidatePriority | userscripts/imagesidebar.user.js:261-263 | `text/uri-list`, else the html `src`, else `text/plain`; empty iff all three give nothing |
| ImageSidebar.HtmlSrcOfImgTag | userscripts/imagesidebar.user.js:262 | the `src` pattern reads back the URL of the sidebar's own `img` markup |
| ImageSidebar.TakeWhileStopsAt | userscripts/imagesidebar.user.js:262 | a run stops at the first character outside the class |
| ImageSidebar.FilesFirst | userscripts/imagesidebar.user.js:243-258 | with files, exactly the image files are read and no URL is looked at; without files, no file is read |
| ImageSidebar.PlanDrop | userscripts/imagesidebar.user.js:243-266 | files are read iff there are files; a `data:image/` candidate is saved as is, any other non-empty one fetched; nothing iff no files and no candidate |
| ImageSidebar.SavedFromUrl | userscripts/imagesidebar.user.js:268-300 | `data:image/` saved as is; an image blob saved as its data URL; another blob type saves nothing; a failed fetch saves the URL |
| ImageSidebar.DataUrlNotFetched | userscripts/imagesidebar.user.js:268-275 | a `data:image/` URL is saved the same whatever a fetch would give |
| ImageSidebar.Extension | userscripts/imagesidebar.user.js:166 | the extension is never empty |
| ImageSidebar.ExtensionOfType | userscripts/imagesidebar.user.js:166 | a `type/subtype` blob gives the subtype |
| ImageSidebar.ExtensionFallback | userscripts/imagesidebar.user.js:166 | a type without a subtype gives `png` |
| ImageSidebar.DragOutData | userscripts/imagesidebar.user.js:175-177 | the uri-list and plain items are the image data; the html item is its `img` markup |
| ImageSidebar.DragOutDropBack | userscripts/imagesidebar.user.js:243-263 | a sidebar image dropped back: without a file its data is the URL; with a file only an image file is read |
| ImageSidebar.PageDragStart | userscripts/imagesidebar.user.js:211-222 | the page's dragstart never changes the files |
| ImageSidebar.PageImageDropUsesSrc | userscripts/imagesidebar.user.js:211-261 | a page image dropped on the sidebar offers its source URL, so the drop does something |
| ImageSidebar.Sidebar.constructor | userscripts/imagesidebar.user.js:15-24 | the store is what earlier visits left |
| ImageSidebar.Sidebar.Records | userscripts/imagesidebar.user.js:19-34 | the records are the store's entries, at most one per id |
| ImageSidebar.Sidebar.SaveImage | userscripts/imagesidebar.user.js:36-40 | `put` replaces the record with that id and keeps every other record |
| ImageSidebar.Sidebar.DeleteImage | userscripts/imagesidebar.user.js:42-46 | removes the record with that id and only it |
| ImageSidebar.Sidebar.Drop | userscripts/imagesidebar.user.js:237-266 | the handler's plan equals PlanDrop: image files in order, or the URL action |
| ImageSidebar.Sidebar.FileRead | userscripts/imagesidebar.user.js:248-253 | the data URL is saved under the fresh id |
| ImageSidebar.Sidebar.UrlDropped | userscripts/imagesidebar.user.js:265-300 | the store gains exactly what SavedFromUrl gives, under the fresh id, or is unchanged |
| ImageSidebar.SaveThenDelete | userscripts/imagesidebar.user.js:36-46 | deleting after saving under one id equals deleting alone |
| ImageSidebar.SaveTwice | userscripts/imagesidebar.user.js:36-40 | saving twice under one id keeps only the later data |
| JsObject.Get | userscripts/megaredirect.user.js:27 | own keys read their value; other `Object.prototype` names read the inherited member |
| JsObject.GetOwnOnly | userscripts/instabox.user.js:45 | away from inherited names, lookup is plain map lookup |
| MegaRedirect.NonEmpty | userscripts/megaredirect.user.js:24 | `filter(Boolean)` keeps exactly the non-empty pieces |
| MegaRedirect.Segments | userscripts/megaredirect.user.js:24 | segments are non-empty and contain no `/` |
| MegaRedirect.SegmentsOfPath | userscripts/megaredirect.user.js:24 | a path built from segments splits back into them |
| MegaRedirect.NonEmptyAll | userscripts/megaredirect.user.js:24 | the filter keeps a list of non-empty pieces unchanged |
| MegaRedirect.Keyword | userscripts/megaredirect.user.js:27 | the leftmost segment whose lower-case form is a key; none iff no segment is |
| MegaRedirect.Target | userscripts/megaredirect.user.js:24-35 | a redirect goes to the folder of a table entry; with no segment a key, no redirect |
| MegaRedirect.TargetCases | userscripts/megaredirect.user.js:27-35 | redirect iff a keyword exists and the path lacks `/fm/<id>`; the target is a table folder; no keyword, no redirect |
| MegaRedirect.KeywordIgnoresCase | userscripts/megaredirect.user.js:27-30 | lower-casing the segments picks the same keyword, lower-cased |
| MegaRedirect.ValuesAreNotKeys | userscripts/megaredirect.user.js:14-21 | no folder id, lower-cased, is a key |
| MegaRedirect.NoRedirectLoop | userscripts/megaredirect.user.js:14-35 | the folder page a redirect lands on is not redirected again |
| MegaRedirect.FolderSegments | userscripts/megaredirect.user.js:24-33 | the folder page's segments are `fm` and the id |
| MegaRedirect.Aliases | userscripts/megaredirect.user.js:14-21 | riya/lokkhi and bishakha/20/bish share a folder |
| MegaRedirect.KeywordAsWritten | userscripts/megaredirect.user.js:27 | the script's keyword is a segment whose lower-case form reads a truthy property, inherited ones included |
| MegaRedirect.TargetAsWritten | userscripts/megaredirect.user.js:27-33 | the script redirects only when it found a keyword, and always to a `https://mega.nz/fm/` page |
| MegaRedirect.PrototypeKeyRedirects | userscripts/megaredirect.user.js:27-33 | as written, `/constructor` is sent to a folder named after the `Object` function; the corrected lookup does nothing |
| MegaRedirect.AsWrittenAgrees | userscripts/megaredirect.user.js:27 | away from inherited names the script's keyword is the corrected one |
| InstaRedirect.Name | userscripts/instabox.user.js:42-43 | the name is the fourth `/`-piece, if there is one, and has no `/` |
| InstaRedirect.NameOfDirectPath | userscripts/instabox.user.js:42-43 | on `/direct/t/NAME` (with or without more path) the name is NAME |
| InstaRedirect.Target | userscripts/instabox.user.js:42-48 | redirect iff the name is an exact table key, to `https://www.instagram.com/direct/t/` followed by its id and `/` |
| InstaRedirect.TargetCases | userscripts/instabox.user.js:45-48 | redirect iff the name is an exact table key, to `https://www.instagram.com/direct/t/<id>/` |
| InstaRedirect.ValuesAreThreads | userscripts/instabox.user.js:13-40 | every target id is one of the canvas script's valid threads |
| InstaRedirect.NicknamesAreShort | userscripts/instabox.user.js:13-40 | no nickname is longer than 8 characters |
| InstaRedirect.RedirectLandsOnThread | userscripts/instabox.user.js:46-48 | on the page redirected to, the canvas script reads the nickname's thread, a valid one |
| InstaRedirect.NoRedirectLoop | userscripts/instabox.user.js:13-49 | the thread page a redirect lands on is not redirected again |
| InstaRedirect.CaseSensitive | userscripts/instabox.user.js:14-45 | `Riya` redirects, `riya` does not |
| InstaRedirect.Aliases | userscripts/instabox.user.js:14-33 | Prionto/Prio/Darling, Riya/Lokkhi and Bishakha/20/Bish share a thread |
| InstaRedirect.PrototypeKeyRedirects | userscripts/instabox.user.js:45-48 | as written, `/direct/t/constructor` is sent to a thread named after the `Object` function; the corrected lookup does nothing |
| InstaRedirect.TargetAsWritten | userscripts/instabox.user.js:45-48 | the script redirects only when the name reads a truthy property, and always to a direct-thread page |
| InstaRedirect.AsWrittenAgrees | userscripts/instabox.user.js:45-48 | away from inherited names the script's target is the corrected one |

Design choices the model makes:
- **Where a read is stored.** `storageKey()` reads `currentThreadId` only when the `FileReader` finishes (userscripts/igfloatingimagecanvas.user.js:177-179). A dropped file's record therefore goes to the thread that is current at that moment, which need not be the thread of the drop. `ReadLoaded` stores under the thread current at completion.
- **Wheel resize.** `img.width` is an unsigned integer attribute, so the scaled width is truncated when it is assigned (userscripts/igfloatingimagecanvas.user.js:101). An image narrower than 10 pixels therefore does not grow on a wheel tick up. `WheelUpGrows` states the exact condition, and `WheelTicksGrow` needs width ≥ 10.
- **The whitelist condition.** userscripts/focus.user.js:120 has an unbalanced parenthesis, so the file does not parse (see Findings). The model of the script takes the three evident disjuncts `/results`, `search_query=` and `/watch`.
- **Storage.** localStorage is a map from key to a `Stored` value. A value is either a serialized list or text that does not parse. JSON itself is not modelled.

## Left out

- I/O and the browser:
  - DOM construction, CSS and `innerHTML` templates, and the sidebar's `render`.
  - `preventDefault`/`stopPropagation` beyond the flags the earlier canvas returns.
  - The history patching, `popstate` listener and MutationObserver. `CheckThreadChange` is called explicitly instead.
- Timers and dialogs:
  - `setInterval` loops. One tick is modelled: `CountdownTick` and `BreakState.Tick`.
  - `location.reload`, which becomes a decision value.
  - `confirm` dialogs and the break buttons' own handlers. `SetBreak`/`ClearBreak` are modelled directly.
- Spotify DOM work:
  - `autoSort` and `addHeaderArrowButton`, which are timer and DOM work.
  - The header's arrow text. The header keeps only its album and `closed` flag.
  - Text nodes among the track list's children.
- userscripts/spotifypersonalizedconsistantmusicaart.user.js: a constant image-source assignment, with no logic to state.
- Calendar values: `new Date` parsing becomes the parameter `dateOf`. The fetch of the calendar feed is an input.
- Floating point:
  - The wheel factors are exact rationals with truncation.
  - `parseFloat` of style strings, and `getBoundingClientRect`, which are taken to equal the integer `style.left`/`style.top`.
- IgCanvas.InstagramCanvas: the document-level mousemove/mouseup listeners of elements removed by a double-click or an overlay rebuild are not modelled. They still fire in the browser, but only on detached elements, which can write nothing unless their drag is still in progress.
- ImageSidebar.Sidebar.Records: the store is a map, so `getAll()` is modelled as a set. The key order in which IndexedDB returns records is not modelled.
- ImageSidebar.Sidebar.Drop: the asynchronous steps (the `FileReader`, the `fetch`) are separate calls, `FileRead` and `UrlDropped`.
- ImageSidebar.DragOutData: gives the drag data as if the `dragstart` handler set it synchronously. In the script, `items.add` and the three `setData` calls run only after `await fetch(...)` (userscripts/imagesidebar.user.js:148-177), when the drag data is no longer writable, so a real drag carries none of it. A `data:` URL whose fetch fails throws before any `setData`. The asynchronous timing is not modelled.
- ImageSidebar.DragOutDropBack: inherits the same timing gap from `DragOutData`. It states what a drop back would see if the drag data had been set.
- IgStore.Load: a stored value that parses to a truthy non-array (such as `{}`) is not modelled. The script would return that value, and the later `push`, `findIndex` or `filter` call would throw. `Stored` has only a list case and an unparseable case.
- JsText.Lower: `toLowerCase` is modelled on ASCII letters only; full Unicode case mapping is not modelled.
- AlbumGrouping.LexLess: strings compare by Dafny character, which agrees with JavaScript's UTF-16 code-unit order only for characters of the Basic Multilingual Plane.
- JsObject.Text: the text of an inherited native function (`function Object() { [native code] }`) is the form V8 prints. Other engines may space it differently.
- JsSort.Sort: `Array.prototype.sort` is a library call, modelled as a stable insertion sort on a sequence. The in-place array is not modelled.

## Findings

| source | as written | input that shows it | evidently intended | confidence | as-written member | corrected member |
|---|---|---|---|---|---|---|
| userscripts/megaredirect.user.js:27-33 | `redirects[p.toLowerCase()]` reads a plain object, so names inherited from `Object.prototype` count as keywords | path `/constructor` is replaced with `https://mega.nz/fm/function Object() { [native code] }/` | only the table's own keys redirect | not executed | MegaRedirect.KeywordAsWritten, MegaRedirect.PrototypeKeyRedirects | MegaRedirect.Keyword, MegaRedirect.Target, MegaRedirect.TargetCases, MegaRedirect.AsWrittenAgrees |
| userscripts/instabox.user.js:45-48 | `redirects[name]` reads a plain object, so names inherited from `Object.prototype` count as nicknames | path `/direct/t/constructor` is replaced with `https://www.instagram.com/direct/t/function Object() { [native code] }/` | only the table's own nicknames redirect | not executed | InstaRedirect.TargetAsWritten, InstaRedirect.PrototypeKeyRedirects | InstaRedirect.Target, InstaRedirect.TargetCases, InstaRedirect.NoRedirectLoop, InstaRedirect.AsWrittenAgrees |
| userscripts/focus.user.js:120 | the `if` condition closes its parenthesis after the second of its three tests and then has one `)` too many, so the file is a syntax error and the script never runs | loading `dropbox.com` off a break leaves the page untouched, although the host contains the listed `x.com` | one condition that holds when any of the three tests holds, so the script blocks listed sites | not executed | FocusGuardian.PageLoadAsWritten, FocusGuardian.AsWrittenBlocksNothing | FocusGuardian.IsYouTubeWhitelisted, FocusGuardian.BreakState.OnPageLoad, FocusGuardian.SearchAndWatchAllowed |

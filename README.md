# Dashcam core, modelled in Dafny

A Raspberry Pi dashcam. The recorder reads packets from a V4L2 camera,
decodes them, re-encodes the frames as H.264 and writes the packets into
`./data/<YYYY-MM-DD_HH:MM:SS>.h264`. Each file has a 512 MiB budget. When a
file's budget is spent, the recorder opens a new file, first deleting the
oldest recordings until a full file fits under a 512 MiB safety margin. It
reports its state to a watchdog over a local TCP socket, and the watchdog
shows the state on an active-low RGB light. Afterwards, every clip is
converted to MP4 by a Python helper that calls FFmpeg, then uploaded, and
both files are deleted. A bounded blocking FIFO `Channel<T>` is provided for
passing work between threads.

`Channel<T>` is declared in src/channel.h, but no function of the recorder
or the uploader uses it: recording is one sequential read/decode/encode/write
loop, and the model follows that loop.

One Dafny module per source file:

| module | file | form |
|---|---|---|
| `Channels` | `channel.dfy` | class `Channel<T>` over a `seq` buffer; a call-sequence model `Apply`/`Replay` with FIFO and capacity lemmas |
| `DiskStorage` | `storage.dfy` | the timestamp formatter and its order; the eviction loop as a function `Evict`; class `Volume` (directory map, free space, event log); methods `Cull`, `EvictOldest`, `GetStorage` |
| `Recording` | `run.dfy` | `processFrame` as a method over scripted codec replies; `run`'s packet loop with its byte budget and file rotation |
| `Video` | `video.dfy` | the stream search loop, decoder and encoder setup |
| `States`, `Status` | `states.dfy`, `status.dfy` | state numbering shared by both programs; class `StatusLink` for the socket handle and the bytes sent |
| `Upload` | `upload.dfy` | `path::extension` and `replace_extension(".mp4")`, the per-entry step chain, the failure counter loop |
| `Watchdog` | `watchdog.dfy` | pin and colour tables; class `Light` (queue and pins) with the runner's and main loop's steps |
| `Convert`, `Text` | `convert.dfy`, `text.dfy` | `basename`/`splitext`, the destination name, the FFmpeg argument list; Python's `str.split`/`str.join` |

Inputs the code gets from the outside world become parameters:
- the answers of the codec library, sockets, `system` and `remove`;
- the free space the file system reports;
- the local time.

Model quantities that the source keeps in fixed-width integers are unbounded, except where the wrap-around matters. That exception is the free space, a 64-bit unsigned `std::uintmax_t` difference, which is modelled modulo 2^64.

## Model

| member | source | states |
|---|---|---|
| Channels.Channel.constructor | src/channel.h:29-32 | the capacity is the argument and the buffer starts empty |
| Channels.Channel.Push | src/channel.h:34-50 | needs room (0 = unbounded); appends the element at the back and keeps the older elements; the capacity is unchanged; the size bound is kept |
| Channels.Channel.Pop | src/channel.h:52-70 | needs an element; returns the front and removes exactly it |
| Channels.Channel.TryPop | src/channel.h:72-91 | empty buffer: returns None and changes nothing; otherwise it acts like Pop and returns Some(front) |
| Channels.Apply | src/channel.h:34-91 | a call either waits forever (exactly: push on a full bounded buffer, pop on an empty one) or its output followed by the new buffer equals the old buffer plus the pushed element |
| Channels.Replay | src/channel.h:34-91 | a completed call sequence returns at most one element per call |
| Channels.ReplayIsFifo | src/channel.h:46-83 | over any completed call sequence, what came out followed by what is still queued is the initial buffer plus the pushed elements in push order |
| Channels.ReplayRespectsCapacity | src/channel.h:42-46 | with a positive capacity the buffer never exceeds it |
| Channels.UnboundedPushesNeverWait | src/channel.h:42-46 | with capacity 0 every sequence of pushes completes and queues all elements in order |
| Channels.Perform | src/channel.h:34-91 | a call on a Channel object does exactly what Apply says |
| Channels.RunOnChannel | src/channel.h:29-91 | running a call sequence on a fresh Channel object returns what Replay predicts; delivered plus left equals all pushed |
| States.Value | src/status.h:9-17 | a state's number is at most 6 |
| States.FromValue | watchdog/watchdog.py:19-26 | a member exists exactly for 0..6 and it is numbered by the argument |
| States.ValueRoundTrip | watchdog/watchdog.py:19-26 | both programs number the states alike: FromValue(Value(s)) == s |
| Status.Message | src/status.cpp:41-43 | two bytes: one that decodes to the state, then a newline |
| Status.MessageInjective | src/status.cpp:41-43 | distinct states give distinct messages |
| Status.Sent | src/status.cpp:39-53 | what reaches the socket is a prefix of the message; nothing without a handle; all of it when send takes 2 bytes |
| Status.Shutdown | src/status.cpp:32-37 | afterwards there is no handle; an open handle is closed once, an absent one changes nothing |
| Status.ShutdownIdempotent | src/status.cpp:32-37 | shutting down twice equals shutting down once |
| Status.StatusLink.constructor | src/status.cpp:9 | no socket, nothing sent, nothing closed |
| Status.StatusLink.Initialize | src/status.cpp:11-30 | the handle becomes socket's result even when connect fails; success iff the socket opened and connect succeeded |
| Status.StatusLink.ShutdownStatus | src/status.cpp:32-37 | the new handle and closed list are Shutdown of the old ones; nothing is sent |
| Status.StatusLink.SetState | src/status.cpp:39-53 | the handle never changes; the wire grows by Sent(...); only non-"would block" failures are logged |
| Watchdog.SetLight | watchdog/watchdog.py:28-52 | a pin is Low exactly when the colour uses that primary |
| Watchdog.SetLightInjective | watchdog/watchdog.py:28-52 | different colours drive the pins differently |
| Watchdog.StateColour | watchdog/watchdog.py:90-109 | the colour per state, each direction: OFF iff RECORDING, RED iff DEAD or ERROR, BLUE iff STARTING or UPLOADING, YELLOW iff FALLING_BEHIND, GREEN iff CONVERTING |
| Watchdog.Lookup | watchdog/watchdog.py:79 | a member is found exactly for an integer in 0..6, and it is the member whose value equals the argument; anything else is a `ValueError` |
| Watchdog.EnumCall | watchdog/watchdog.py:79 | as written, the conversion of a piece fails for every piece |
| Watchdog.ChunkStates | watchdog/watchdog.py:71-88 | a chunk adds at most one state per piece |
| Watchdog.EveryChunkQueuesDead | watchdog/watchdog.py:71-88 | as written, every chunk queues exactly [DEAD] and ends the connection |
| Watchdog.IntendedPiece | watchdog/watchdog.py:79 | corrected: a piece converts iff it is one character whose code is 0..6, to the state with that number |
| Watchdog.DecodeIntended | watchdog/watchdog.py:71-79 | corrected reading of a chunk: at most one state per piece |
| Watchdog.DecodeIntendedIsChunkStates | watchdog/watchdog.py:71-88 | the corrected reading is the runner's chunk loop with IntendedPiece, over the non-empty pieces |
| Watchdog.WireText | src/status.cpp:41-45 | two characters per state sent |
| Watchdog.WireTextMatchesMessages | src/status.cpp:41-45 | the wire text of one state is the two bytes of its message |
| Watchdog.DecodeWireText | watchdog/watchdog.py:71-79 | read as intended, the text of any sequence of messages decodes to exactly those states, in order |
| Watchdog.Light.constructor | watchdog/watchdog.py:123-125 | red light, empty queue |
| Watchdog.Light.ReceiveChunk | watchdog/watchdog.py:69-88 | the queue grows by ChunkStates of the split chunk; the connection survives iff every piece converts; the pins are unchanged |
| Watchdog.Light.ConnectionLost | watchdog/watchdog.py:83-88 | DEAD is appended to the queue |
| Watchdog.Light.TakeBatch | watchdog/watchdog.py:132-143 | takes the whole non-empty queue, leaves it empty, and shows only the last state's colour |
| Video.CountVideoZero | src/video.cpp:44-53 | no video stream is counted exactly when none exists |
| Video.SelectVideoStream | src/video.cpp:42-51 | streamId is the lowest video index, or -1 iff there is none; streamCount is the number of video streams |
| Video.SetupDecoder | src/video.cpp:40-88 | a context exists iff there is a video stream and every library step succeeds; it uses the first video stream's codec; the pixel format is YUYV422 iff the codec is raw video, otherwise unset |
| Video.SetupEncoder | src/video.cpp:90-128 | a context exists iff found, allocated and opened; 1920x1080, 350000 bit/s, YUV420P, GOP 10, 1 B-frame; the time base is the reciprocal of the frame rate |
| Text.Split | python/convert.py:15 | `str.split` never returns an empty list |
| Text.Join | python/convert.py:13 | the joined text holds the first part and one separator for each later part |
| Text.JoinSplit | python/convert.py:15 | joining the split pieces gives the string back |
| Text.SplitJoin | python/convert.py:15 | splitting a join of separator-free words gives the words back |
| Text.SplitCount | python/convert.py:15 | split gives one more piece than there are separators |
| Convert.Basename | python/convert.py:12 | the last component: a suffix of the path without '/' |
| Convert.BasenameWholeComponent | python/convert.py:12 | the base name is the whole path or follows a '/', so it is all of the last component |
| Convert.Directory | python/convert.py:12 | the directory followed by the base name is the path; the directory is empty or ends in '/' |
| Convert.SplitExt | python/convert.py:12 | root + ext is the path; ext is empty or a dot followed by no dot or '/'; ext is non-empty exactly when the last component has a '.' after some character other than '.' |
| Convert.Destination | python/convert.py:12 | the destination has no directory part; it is the root of the input's base name followed by ".mp4" |
| Convert.CommandLine | python/convert.py:13 | the command text has the eleven spaces between its twelve words plus every space of the input path |
| Convert.Arguments | python/convert.py:15 | FFmpeg gets at least twelve arguments, and one more for every space in the input path |
| Convert.ArgumentsWithoutSpaces | python/convert.py:13-15 | with no space in the input path, FFmpeg gets exactly the twelve words, the input path as one argument |
| Convert.DestinationWithoutSpace | python/convert.py:12 | a path without spaces gives a destination without spaces |
| Convert.SpacedPathSplits | python/convert.py:13-15 | a path with a space gives FFmpeg more than twelve arguments |
| Convert.RecordingDestination | python/convert.py:12 | a recording's MP4 is "<timestamp>.mp4" in the working directory; neither name has a space |
| Convert.IntendedDestination | python/convert.py:12 | corrected: the destination keeps the input's directory and has the intended base name |
| Upload.ExtensionStart | src/upload.cpp:33-34 | the extension is a '.' in the last component, not its first character, with no later '.' |
| Upload.ExtensionMissing | src/upload.cpp:33-34 | there is no extension exactly for ".", "..", or a last component with no '.' after its first character |
| Upload.ConvertedPathRoundTrip | src/upload.cpp:33-34 | for a non-empty last component, ".mp4" is the extension of the converted path, the stem is kept, and converting again changes nothing |
| Upload.ConvertedRecording | src/upload.cpp:33-35 | a recording's MP4 is looked for at ./data/<timestamp>.mp4 |
| Upload.EntryActions | src/upload.cpp:17-47 | the actions are a non-empty prefix of convert, remove source, upload, remove MP4; all four iff the first three succeed |
| Upload.EntryCases | src/upload.cpp:17-47 | the exact actions after each step that can fail |
| Upload.SourceRemovedOnlyAfterConversion | src/upload.cpp:18-28 | the source is removed iff the convert script returned 0 |
| Upload.UploadOnlyAfterSourceRemoved | src/upload.cpp:26-36 | the upload runs iff the conversion succeeded and the source was removed |
| Upload.FailureCount | src/upload.cpp:11-50 | the failure count is at most the number of entries |
| Upload.NoFailuresIffAllSucceeded | src/upload.cpp:11-53 | zero failures iff every entry got through all four steps |
| Upload.AllFailuresIffNoneSucceeded | src/upload.cpp:11-53 | every entry counted iff none succeeded |
| Upload.EveryEntryConverted | src/upload.cpp:13-23 | a step that reports failure does not stop the loop: every entry's conversion runs |
| Upload.ProcessEntry | src/upload.cpp:15-50 | reports success iff all four steps succeed; its actions are EntryActions |
| Upload.UploadMedia | src/upload.cpp:8-54 | returns FailureCount(entries), between 0 and the number of entries, and runs exactly ActionLog(entries); 0 <= failures <= visited holds throughout |
| Upload.ConverterWritesElsewhere | python/convert.py:12 | as written, for every recording the converter's output differs from the path the uploader uses |
| Upload.IntendedDestinationIsConvertedPath | src/upload.cpp:33-35 | corrected, the converter's output is exactly the uploader's path |
| DiskStorage.LexLessIrreflexive | src/storage.cpp:37-39 | the path order is irreflexive |
| DiskStorage.LexLessTransitive | src/storage.cpp:37-39 | the path order is transitive |
| DiskStorage.LexLessTotal | src/storage.cpp:37-39 | any two distinct paths are ordered |
| DiskStorage.FormatDateTime | src/storage.cpp:11-18 | 19 characters for a four-digit year; starts with a digit; no '/', '.' or space |
| DiskStorage.FileName | src/storage.cpp:58 | "./data/" + timestamp + ".h264" |
| DiskStorage.TimestampOrder | src/storage.cpp:15 | for four-digit years, string order of timestamps is chronological order, in both directions |
| DiskStorage.FileNameOrder | src/storage.cpp:58 | recording paths sort in creation order |
| DiskStorage.Smallest | src/storage.cpp:49 | the first element of the path-ordered set is in the set |
| DiskStorage.SmallestIsSmallest | src/storage.cpp:49 | it sorts before every other element |
| DiskStorage.Oldest | src/storage.cpp:37-49 | the entry chosen is the smallest path |
| DiskStorage.FreeSpace | src/storage.cpp:31 | the 64-bit unsigned difference: exact at or above the margin, 2^64 minus the shortfall below it |
| DiskStorage.Evict | src/storage.cpp:31-56 | stops with enough space iff free space reaches 512 MiB; empty directory on NothingToRemove; on RemoveFailed, the oldest path is one whose `remove` returns false |
| DiskStorage.EvictDeletesExisting | src/storage.cpp:42-53 | only existing files whose removal succeeds are deleted |
| DiskStorage.EvictKeepsOthers | src/storage.cpp:49-53 | the files left are exactly those not deleted, with their sizes |
| DiskStorage.EvictFreesDeletedSizes | src/storage.cpp:50-55 | the free space grows by the deleted files' sizes |
| DiskStorage.EvictsInPathOrder | src/storage.cpp:36-49 | files are deleted in increasing path order |
| DiskStorage.EvictShrinks | src/storage.cpp:33-56 | eviction never adds a file |
| DiskStorage.EvictsBeforeSurvivors | src/storage.cpp:36-56 | every deleted path sorts before every surviving one |
| DiskStorage.NoEvictionWhenSpaceSuffices | src/storage.cpp:31-33 | with enough free space nothing is deleted |
| DiskStorage.WrapSkipsEviction | src/storage.cpp:31-33 | as written, free space below the margin wraps and nothing is deleted |
| DiskStorage.WrapCounterexample | src/storage.cpp:31 | one full volume on which the as-written and intended loops differ |
| DiskStorage.EvictIntended | src/storage.cpp:31-56 | corrected: stops with enough space iff 1 GiB is available; free space only grows |
| DiskStorage.Volume.constructor | src/storage.cpp:31 | the directory and free space are the arguments, no calls made yet |
| DiskStorage.Cull | src/storage.cpp:33-56 | the loop's result, directory, free space and removal log are exactly those of Evict |
| DiskStorage.EvictOldest | src/storage.cpp:33-56 | the volume afterwards is the Evict result, with its removals logged |
| DiskStorage.GetStorage | src/storage.cpp:20-72 | closes the old file first, evicts, then creates ./data/<timestamp>.h264 with a 512 MiB budget; an empty directory, a `remove` that returns false or a failed `fopen` gives Storage(0, None) |
| Recording.ProcessOnce | src/run.cpp:25-65 | as written, the bytes a call reports are the sum of the packet sizes it wrote |
| Recording.ProcessOnceCases | src/run.cpp:25-65 | a refused packet writes nothing; at most one frame taken; fatal iff decoder error or encoder error while draining; a refused frame is skipped |
| Recording.ProcessFrame | src/run.cpp:25-65 | does what ProcessOnce says; the bytes reported are the sum of the packet sizes written |
| Recording.DrainWritesPacketSizes | src/run.cpp:49-61 | without encoder errors the drain does not fail and writes the sizes the encoder handed out, in order |
| Recording.ProcessAll | src/run.cpp:34-62 | corrected drain: the bytes reported are the sum of the sizes written |
| Recording.DrainFrames | src/run.cpp:34-62 | the corrected loops, continuing after earlier packets: the bytes reported are the sum of all sizes written |
| Recording.DrainFramesTakesEveryFrame | src/run.cpp:34-62 | corrected drain takes every frame the decoder holds |
| Recording.SecondFrameLeftBehind | src/run.cpp:49-62 | as written, a second buffered frame is left behind (10 bytes, not 30) |
| Recording.BudgetStep | src/run.cpp:118 | spaceRemaining becomes before - min(bytes, before) and never underflows |
| Recording.RecordRotation | src/run.cpp:98-115 | a full file is followed by an empty one, keeping the loop invariant |
| Recording.RecordCall | src/run.cpp:117-118 | a call's bytes go into the current file, keeping the loop invariant |
| Recording.Run | src/run.cpp:67-153 | any setup failure (decoder, encoder, first storage request, frame allocation) ends in Failed with no packet handled and at most one empty file; a file exists iff both codecs and the first storage request succeed; earlier files were closed only when full; each file overshoots by at most one call; Completed only after every packet and the flush; Failed after setup only when a rotation was due and the storage request (the last file is full) or the encoder rebuild (the fresh file is empty) failed |
| Recording.Record | src/run.cpp:96-133 | the packet loop: calls' bytes go into files in order, rotation exactly when the budget is 0, and Failed only at such a rotation: the storage request fails with the last file full, or the encoder rebuild fails after the fresh empty file is opened |

## Left out

- Threads, mutexes and condition variables of `Channel`: waits are preconditions.
- The libav library, `setupInput` and `av_read_frame`: their results are inputs to the methods.
- The frame pacing in `run` (src/run.cpp:121-131): it uses the wall clock and floating point.
- The real file system, `localtime`/`strftime` and `fopen`/`fwrite`: they are the `Volume` object, a `DateTime` argument and the outcome parameters.
- Sockets and GPIO calls: the model records the bytes accepted and the pin levels.
- `python/upload.py`, `src/main.cpp`, the Tracy profiling macros and the unused `VideoContext` of src/run.h are not part of this model.
- `run.cpp:68`'s `setState(RECORDING)` is not modelled inside `Recording.Run`. `main.cpp` never calls `initializeStatus`, so the handle stays -1 and `setState` sends nothing (see `Status.StatusLink.SetState`).
- The `len(messages) == 0` check at watchdog/watchdog.py:74 is not modelled: `split` never returns an empty list, so the branch is dead (see `Text.Split`).
- Recording.Run: storage acquisition and encoder rebuilds are given as counts of successes. The call at src/run.cpp:84/99 does not match `getStorage` in src/storage.cpp:20, so the link to `DiskStorage.GetStorage` is not modelled. The first file is taken to open with the full 512 MiB budget.
- Recording.Run: the results of `processFrame` are given as a sequence of outcomes, not computed by `Recording.ProcessFrame`. A fatal call's partial writes are not added to the file. The final flush's byte count is returned but, as in the source, not charged to any budget.
- DiskStorage.Evict: after a removal, the free space grows by exactly the removed file's size, whereas the source asks the file system again.
- DiskStorage.Evict: `available` is unbounded, so a reading of 2^64 or more, which `std::uintmax_t` cannot hold, is not excluded.
- DiskStorage.GetStorage: `std::filesystem::space`, `directory_iterator` and `remove` (src/storage.cpp:31/38/50/55) throw `filesystem_error` when the operating system reports an error, and nothing catches it, so the program ends. The model has no such outcome: `remove` returning false, which happens only when the file is already gone, is the one removal failure it covers.
- Upload.UploadMedia: likewise, `directory_iterator` and the two `remove` calls (src/upload.cpp:13/26/44) throw on an operating-system error and end the program; the model covers only `remove` returning false.
- Convert.CommandLine: defined as the twelve words joined by spaces, which is the text the format string produces.
- Upload.ExtensionStart: follows the libstdc++ `path::extension` rules, so "." and ".." and names whose only dot is the first character have no extension.
- Watchdog.Light.ReceiveChunk: takes the piece conversion as a parameter. `Watchdog.EnumCall` is the conversion as written. The intended reading also drops empty pieces, which no per-piece conversion can do: `Watchdog.DecodeIntended` decodes the piece list, and `Watchdog.DecodeIntendedIsChunkStates` shows that it equals the chunk loop with `Watchdog.IntendedPiece` over the non-empty pieces.

## Findings

| source | as written | input that shows it | evidently intended | confidence | as-written member | corrected member |
|---|---|---|---|---|---|---|
| src/run.cpp:49-62 | the packet drain's `break` leaves `ret` negative, so the outer loop also ends: one decoded frame per call | decoder holding two frames; encoder answers packet of 10, EAGAIN, packet of 20 | decoding resumes after each drain and every buffered frame is re-encoded (30 bytes) | not executed | Recording.SecondFrameLeftBehind | Recording.DrainFramesTakesEveryFrame |
| src/storage.cpp:31 | `available - bufferSpace` is a 64-bit unsigned `std::uintmax_t` and wraps below 512 MiB, so a nearly full volume looks empty and nothing is deleted | one 100-byte file, 0 bytes available | compare without wrapping: evict until 1 GiB is available | not executed | DiskStorage.WrapCounterexample | DiskStorage.EvictIntended |
| watchdog/watchdog.py:79 | `DashcamState(message)` looks a `str` up among `int` values, so every chunk raises and queues DEAD | any chunk, e.g. the bytes 3, '\n' sent for RECORDING | each non-empty piece's character code is the state number | not executed | Watchdog.EveryChunkQueuesDead | Watchdog.DecodeWireText |
| python/convert.py:12 | the destination is the base name only, so the MP4 lands in the working directory while src/upload.cpp:33-35 uploads ./data/<name>.mp4 | ./data/2024-01-01_00:00:00.h264 | write the MP4 next to its input | not executed | Upload.ConverterWritesElsewhere | Convert.IntendedDestination |

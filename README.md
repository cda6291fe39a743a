# zipper_rust: the fetch, archive and stream pipeline in Dafny

zipper_rust is a small web service. A user submits a URL in a form. The
service downloads the resource into a local file and packs it into a
single-entry zip archive. It streams the archive back as an attachment and
deletes both files five seconds later. While the download runs, every
browser attached to the progress endpoint receives the current percentage
as a server-sent event.

This project models the core of that pipeline and proves properties of it:

- **Target-name resolution** (`Naming`, on top of `PathNames`). The local
  file name is the last component of the final URL path after redirects,
  or `downloaded_file` when there is none. `PathNames.FileName` models
  Rust's `Path::file_name`. The name is then sanitised, and the archive
  path is the sanitised name plus `.zip`.
- **The download loop** (`Fetch` for the service version, `LegacyFetch`
  for the earlier copy in `src/main.rs`). Each chunk is appended to the
  file, bytes are counted, and the percentage is computed, clamped and
  broadcast. The first broken chunk or failed write aborts the loop.
  Only a download read to its end clears the registry.
- **The progress registry** (`Observers`). It is an ordered list of
  channels, one per client that opened the progress endpoint. Each channel
  records the messages it accepted and whether its client has gone away.
  A broadcast sends to a snapshot of the list and ignores failed sends.
  Clearing the list ends the streams of the dropped channels; the model
  keeps those channels in `ended`, so what they received stays visible. The
  event-stream framing `data: <m>\n\n` is modelled in `Progress`, together
  with a parser that inverts it.
- **The request flow of `handle_form`** (`Handler`). The URL is trimmed
  and an empty one is rejected. Then come the download, the archive step,
  opening the archive, the `application/zip` attachment reply and the
  deferred deletion of `[source, archive]`. Each failure returns early
  with its own page. `src/main.rs` holds a line-for-line copy of this
  handler and of the resolution code, so those rows cite one copy.
- **What the archive holds** (`Archive`): one entry, named after the
  source path's file name, with the whole content of the source file.

The environment enters as inputs, never as hidden behaviour:

- The network is a `Response` value, or `None` when the request failed. A
  response carries the final path, the advertised length and the body as
  a sequence of arrivals.
- Disk failures are flags: whether `File::create` succeeds, and whether
  each write succeeds.
- The sanitiser and the two-decimal renderer are function parameters.
- The working directory is a `WorkDir` object holding a map from path to
  bytes.
- In the handler, the download, archive and open steps are function
  parameters. The flow is proved for all of their behaviours.

Behaviours of the code that the model keeps as they are:

- There is no URL syntax check. Every non-blank, trimmed string goes
  to the download (`Handler.AnyNonBlankUrlIsDownloaded`). The only
  pages are the three of `Handler.Notice`.
- The registry is cleared only after a download that succeeds. A failed
  chunk or write returns through `?` before `clear()`, so observers carry
  over to the next download (`Fetch.DownloadFile`, `Fetch.Transfer`).
- Deletion is scheduled only when the archive was opened for streaming.
  After a download failure, an archive failure or an open failure, no
  file is deleted (`Handler.ArchiveFailureStops`, `Handler.StepsInOrder`).
- An HTTP error status is not a failure. The body of a 404 response is
  saved and archived like any other.
- `src/service/rest.rs:35` calls `download_file(&url)` with one argument,
  but `src/service/utils.rs:32` takes the shared state as a second one.
  The model passes the registry explicitly.

## Model

| member | source | states |
|---|---|---|
| PathNames.FileName | src/service/utils.rs:44-46 | a file name, when there is one, is a normal component (not empty, `.` or `..`, no `/`) and one of the path's segments |
| PathNames.JoinSplit | src/service/utils.rs:44-45 | splitting a path at `/` and joining the segments again gives the path back |
| PathNames.SplitJoin | src/service/utils.rs:44-45 | joining separator-free segments and splitting again gives the segments back |
| PathNames.SplitAppend | src/service/utils.rs:44-45 | appending `/n` adds exactly the segment `n` |
| PathNames.FileNameOfName | src/service/utils.rs:44-48 | a normal component is its own file name |
| PathNames.FileNameOfChild | src/service/utils.rs:44-48 | the file name of `p/n` is `n` for every normal `n`, whatever `p` is |
| PathNames.FileNameIgnoresTrailing | src/service/utils.rs:44-48 | a trailing `/` or `/.` does not change the file name |
| PathNames.NoFileName | src/service/utils.rs:44-50 | the empty path, the root and any path ending in `..` have no file name |
| Naming.LocalName | src/service/utils.rs:44-50 | the pre-sanitising name is the file name when present and `downloaded_file` otherwise; either way it is a normal component |
| Naming.Resolve | src/service/utils.rs:44-58 | the source path is the sanitised file name, or the sanitised `downloaded_file` when the final path has none; the archive path is the source plus `.zip` (the `Target` type); when the sanitiser never yields `/`, neither path contains one |
| Naming.FallbackNotReapplied | src/service/utils.rs:48-58 | if the sanitiser empties the name, the source is `""` and the archive is `.zip`; the fallback is not applied a second time |
| Naming.ArchiveDeterminesSource | src/service/utils.rs:56-58 | two targets share an archive path exactly when they share a source path |
| Naming.ArchiveFileName | src/service/rest.rs:64 | the archive path always has a file name, which ends in `.zip`, so the `unwrap` cannot fail; it is the whole archive path when the source has no `/` |
| Naming.ArchiveNameIsArchivePath | src/service/rest.rs:64 | when the sanitiser never yields `/`, the attachment name is exactly the archive path |
| Progress.Percent | src/service/utils.rs:77-82 | the figure always lies in [0, 100]; it is 0 without an advertised size and 100 once the downloaded count reaches the size |
| Progress.Clamp | src/service/utils.rs:82 | the result lies in [0, 100], equals the input inside that range, and is 100 above it and 0 below it |
| Progress.PercentRange | src/service/utils.rs:77-82 | the figure lies in [0, 100]; it is 0 when no size is known; otherwise it is 100 exactly when the downloaded count reaches the size, 0 exactly when nothing has arrived, and proportional in between |
| Progress.PercentMonotone | src/service/utils.rs:73-82 | more downloaded bytes never give a smaller figure |
| Progress.Frame | src/service/utils.rs:24 | a frame is the message plus eight characters of framing |
| Progress.Frames | src/service/utils.rs:23-25 | the stream a client reads for its received messages: empty exactly when nothing was received, and at least eight characters of framing per message; `ParseFramesRoundTrip` inverts it |
| Progress.LineEndOf | src/service/utils.rs:24 | the message of a frame ends at its first newline |
| Progress.ParseFramesRoundTrip | src/service/utils.rs:23-25 | framing newline-free messages one after another and parsing the stream gives back exactly those messages |
| Progress.SplitFrameOf | src/service/utils.rs:23-25 | a reader of the stream takes exactly one frame of a newline-free message off its front, and the rest of the stream is left as it was |
| Observers.Offer | src/service/utils.rs:86 | an open channel appends the message to what it received; a closed one is left exactly as it was; no send opens or closes a channel |
| Observers.Fanout | src/service/utils.rs:84-87 | one broadcast keeps the number of channels and offers the message to each channel in its place |
| Observers.FanoutAll | src/service/utils.rs:70-88 | a run of broadcasts keeps the same channels in the same places, opens or closes none, and only adds to what each channel received; `FanoutAllDelivers` says exactly what is added |
| Observers.FanoutAllDelivers | src/service/utils.rs:70-88 | after a run of broadcasts every open channel has received all the messages, once each and in order, after what it had; a closed channel has received nothing; no channel changes state |
| Observers.FreshSubscriberGetsLaterMessages | src/service/utils.rs:15-25 | a channel pushed at the end of any list, just before a run of broadcasts, receives exactly that run's messages |
| Observers.Registry.constructor | src/models/form_data.rs:13-15 | the shared list starts empty |
| Observers.Registry.Subscribe | src/service/utils.rs:15-20 | subscribing pushes a fresh, open, empty channel at the end of the list and returns its place |
| Observers.Registry.Disconnect | src/service/utils.rs:23-29 | when the client goes away its channel closes and keeps what it received; no other channel changes |
| Observers.Registry.Send | src/service/utils.rs:86 | a send succeeds exactly when the receiver is still there, and only then is the message appended; no other channel changes |
| Observers.Registry.Broadcast | src/service/utils.rs:84-87 | the list becomes the fan-out of the message over the list as it was: the same channels in the same places, each open one with the message appended |
| Observers.Registry.Clear | src/service/utils.rs:92-93 | the list is empty afterwards, and every channel that was in it has ended with what it received |
| Storage.WorkDir.Create | src/service/utils.rs:61 | creating a file leaves it empty and every other file unchanged |
| Storage.WorkDir.Append | src/service/utils.rs:72 | a successful write puts the bytes at the end of that file only |
| Storage.WorkDir.Remove | src/service/rest.rs:59 | removal reports whether the file existed and leaves every other file unchanged |
| Fetch.Delivered | src/service/utils.rs:70-72 | the loop stops at the first arrival that is broken or not written; every arrival before it was stored |
| Fetch.DeliveredIsFirstFailure | src/service/utils.rs:70-72 | any index with every earlier arrival stored and itself failing (or the end) is the stopping point |
| Fetch.BytesPrefix | src/service/utils.rs:70-73 | the bytes on disk only grow: an earlier prefix of the stream is a prefix of a later one |
| Fetch.TotalSize | src/service/utils.rs:63 | the size is the advertised content length, or 0 when none was advertised |
| Fetch.Outcome | src/service/utils.rs:32-95 | each error names the stage that failed: the request error exactly when there was no response, the create error exactly when the file could not be created, and a chunk or write error at the first arrival not stored; a success carries the resolved target |
| Fetch.FilesAfter | src/service/utils.rs:61-72 | no file disappears, and the only file that can change is the resolved source path, and only once it was created |
| Fetch.Sent | src/service/utils.rs:70-87 | one message per stored chunk, and none when the request or the create failed |
| Fetch.Trail | src/service/utils.rs:73-82 | one figure per chunk processed |
| Fetch.Messages | src/service/utils.rs:77-87 | one message per chunk processed |
| Fetch.MessagesRenderTrail | src/service/utils.rs:77-83 | the k-th broadcast message is the k-th percentage, rendered |
| Fetch.TrailMonotone | src/service/utils.rs:73-82 | within one download every figure is in [0, 100] and the figures never decrease |
| Fetch.TrailEnd | src/service/utils.rs:63-82 | without an advertised size every figure is 0; with one, the last figure is 100 exactly when the bytes received reach the size |
| Fetch.SuccessIffWholeBody | src/service/utils.rs:32-95 | the download succeeds exactly when the request goes out, the file is created and every chunk arrives and is written; the result is then the resolved target and the file holds the whole body |
| Fetch.FailureKeepsPartialFile | src/service/utils.rs:70-72 | a chunk or write failure at arrival `i` reports `i` and which of the two it was; every earlier arrival was stored, and the file keeps exactly their bytes |
| Fetch.StoreChunk | src/service/utils.rs:72-87 | one pass over a stored chunk: the file gains exactly that chunk, the count becomes the size of the stored prefix, and the rendered percentage of that count is broadcast once |
| Fetch.ReceiveBody | src/service/utils.rs:63-88 | the loop returns the byte count of the stored prefix; the file gains exactly those bytes; the first failure is reported; the channels are the run of broadcasts of one rendered percentage per stored chunk, and none ends |
| Fetch.Transfer | src/service/utils.rs:61-95 | after the file is created: the result is the target exactly when the whole body is stored, else the first failure; the file holds exactly the stored bytes; the channels get one percentage per stored chunk, and are all moved to the ended streams exactly on success |
| Fetch.DownloadFile | src/service/utils.rs:32-96 | the result and the working directory are the specification functions of the inputs; the channels get exactly the broadcast messages; the registry is emptied, ending every stream, exactly when the download succeeds |
| LegacyFetch.WriteBody | src/main.rs:59-63 | the loop of the entry file appends the stored prefix and reports the first failure, as in the service |
| LegacyFetch.DownloadFile | src/main.rs:23-68 | the entry file's download has the same outcome and the same effect on the directory as the service's |
| Archive.ArchiveEntry | src/service/utils.rs:103-122 | archiving fails exactly when the source path has no file name (the `unwrap` panics in the blocking task); otherwise the one entry has a normal name and holds the whole content |
| Archive.EntryNamedAfterSource | src/service/utils.rs:108-118 | for a single-component source the entry is named exactly like the source file and holds its bytes |
| Archive.EmptySourceCannotBeArchived | src/service/utils.rs:108-112 | a source emptied by the sanitiser cannot be archived |
| Handler.TrimStart | src/service/rest.rs:27 | the result is a suffix of the input, everything removed is white space, and it does not start with white space |
| Handler.TrimEnd | src/service/rest.rs:27 | the result is a prefix of the input, everything removed is white space, and it does not end with white space |
| Handler.Trim | src/service/rest.rs:27 | the trimmed URL is the slice of the input that starts where the leading white space ends, and it neither starts nor ends with white space |
| Handler.TrimEmptyIffBlank | src/service/rest.rs:27-30 | the trimmed URL is empty exactly when the submission is all white space |
| Handler.TrimIdempotent | src/service/rest.rs:27 | trimming twice is trimming once |
| Handler.TrimPadded | src/service/rest.rs:27 | white space around a text with non-white ends is exactly what trimming removes |
| Handler.HandleForm | src/service/rest.rs:23-73 | at most three steps are taken; none exactly when the trimmed URL is empty, and the first is always the download of the trimmed URL; the empty-URL page appears exactly for an empty trimmed URL |
| Handler.AfterDownload | src/service/rest.rs:43-72 | after a download, the archive step on the downloaded paths always follows; the zip is streamed exactly when archiving and opening both succeed; the archive-failure page is returned exactly when archiving fails, and no other page can come from this part |
| Handler.EmptyUrlShortCircuits | src/service/rest.rs:27-32 | the empty-URL page is returned exactly for blank submissions, and then no step is taken |
| Handler.BlankIgnoresSteps | src/service/rest.rs:29-32 | for a blank submission the reply does not depend on the download, archive or open steps |
| Handler.AnyNonBlankUrlIsDownloaded | src/service/rest.rs:29-35 | every non-blank submission is passed, trimmed, to the download step first |
| Handler.DownloadFailureStops | src/service/rest.rs:35-41 | a failed download gives the download-failure page; neither archive nor open is reached |
| Handler.ArchiveFailureStops | src/service/rest.rs:43-47 | a failed archive step gives the archive-failure page; the archive is not opened |
| Handler.AfterDownloadSteps | src/service/rest.rs:43-50 | after a successful download the archive step is always taken on exactly the downloaded paths, and the archive is opened exactly when archiving succeeded |
| Handler.StepsInOrder | src/service/rest.rs:35-50 | at most three steps are taken, in the order download, archive, open; archive works on exactly the downloaded paths; open is applied to exactly the archive path; each step runs only after the previous one succeeded |
| Handler.Text | src/service/rest.rs:31-46 | the messages of the three error pages |
| Handler.TextsDistinct | src/service/rest.rs:31-46 | the three pages carry three different messages, so a page's message tells which check failed |
| Handler.SuccessReply | src/service/rest.rs:49-72 | the zip is streamed exactly when every step succeeds; the reply is then `application/zip`, the attachment name is the archive path's file name, and the cleanup list is the source then the archive |
| Handler.ExampleTrim | src/service/rest.rs:27 | a URL with a leading space and a trailing newline trims to the bare URL |
| Handler.ExampleTarget | src/service/utils.rs:44-58 | the final path `/reports/q1.csv` with a sanitiser that keeps `q1.csv` resolves to `q1.csv` and `q1.csv.zip` |
| Handler.ExampleDownload | src/service/rest.rs:23-73 | submitting ` https://example.com/reports/q1.csv` plus a newline, with every step succeeding, streams `q1.csv.zip` and schedules `q1.csv` and `q1.csv.zip` for deletion |
| Handler.Listed | src/service/rest.rs:54 | the set of paths in the cleanup list |
| Handler.Cleanup | src/service/rest.rs:57-60 | every listed path is gone afterwards, whatever the individual removals report, and no other file is touched |

## Left out

- Fetch.ReceiveBody: the byte counter and the percentage are exact. The
  service keeps a `u64` that cannot overflow in practice and computes the
  figure in `f64`. `format!("{:.2}")` rendering is a parameter, so the
  properties are stated on the exact figure.
- Progress.ParseFramesRoundTrip: the round trip holds only for messages
  without a newline. Every message the service sends is a rendered number,
  so it has none.
- The sanitiser (`sanitize_filename`) is a parameter. Lemmas assume two
  things of it, each in a `requires`: `SingleSegment` (its output has no
  `/`), and, in `Handler.ExampleTarget` and `Handler.ExampleDownload`,
  that it keeps the name `q1.csv` unchanged.
- Naming.FallbackNotReapplied, Archive.EmptySourceCannotBeArchived: when
  the sanitiser empties the name, `File::create("")` at
  `src/service/utils.rs:61` fails, so the download already ends with the
  create error and the archive step is never reached. The model leaves
  `createOk` free, so these two lemmas describe a state that the program
  itself does not reach.
- Archive.ArchiveEntry: the zip container itself is not modelled (the
  deflate stream, the central directory, `to_string_lossy`). Only the
  entry's name and content are. Failures to open or read the source or to
  write the container are the boolean result of the handler's archive
  step.
- The network: DNS, TLS, redirects (only their final path matters) and
  timeouts are abstracted into the `Response` input and its arrivals. The
  body is not buffered in memory by the service either.
- A partial `write_all` is not modelled. A write either stores the whole
  chunk or fails.
- The mutex and the concurrency between requests are left out. The model
  runs each operation to completion, one at a time, so events of two
  concurrent downloads never interleave in it.
- Observers.Registry.Broadcast: it sends a snapshot. A subscription made
  during a broadcast is therefore not covered, because operations do not
  overlap in the model.
- An event stream ends when its sender is dropped by `clear()`. The model
  moves the channel to `ended`, where nothing can be sent to it; the
  moment the client sees the end of the stream is not modelled.
- Handler.Cleanup: the five-second sleep before it is the constant
  `CleanupDelaySeconds`. Time is not modelled, so neither is a deletion
  racing the response stream.
- The response streaming itself (`ReaderStream`), the header quoting of
  `Content-Disposition`, and the HTML pages rendered by Tera (including
  the template-error path) are out of scope. An error page is modelled by
  its message.
- The terminal progress bar (`indicatif`), logging, and the server setup
  in `main` (routes, bind address) are out of scope.

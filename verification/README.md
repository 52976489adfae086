# Recording core of bilingual-mediasoup-server

A Dafny model of the recording subsystem of a mediasoup conference server.
A peer's media is recorded by claiming four RTP ports from a SQLite-backed
pool, writing an SDP session description that names them, and connecting one
plain RTP transport and one paused consumer per producer kind to those ports.
It then spawns `gst-launch-1.0` on the description, resumes the consumers
once the pipeline reports that it is playing, and on exit hands the file to
post-processing, releases the RTP resources and deletes the description.

The model covers:

- **`PortPool`** (`port_pool.dfy`): the table `recording_active_ports` as a
  sequence of rows.
  - Seeding from `[min, max)` happens only when the table is missing.
  - The claim statement takes the lowest free rowid. The schema's
    `(session_id, kind)` uniqueness constraint is enforced.
  - The follow-up `SELECT` reads the claimed value back.
  - Release frees every row of a session.
  - `getFreePortsForSession` claims four kinds in order and stops at the first
    rejection.
- **`Sdp`** (`sdp.dfy`):
  - `SDPString` as a pure renderer, with a reader that recovers the ports
    (its partner).
  - The per-session file path.
  - `createSDP` and `deleteSDP` over the pair (table, file system).
- **`Pipeline`** (`pipeline.dfy`), for `startRecordingGstreamer`:
  - the output path;
  - the recorder's argument list, which is the space-joined fragments split on
    whitespace;
  - the environment merge;
  - the stdout readiness scan;
  - exit classification.
- **`PeerRecording`** (`peer.dfy`): the producer list and the recording fields
  of `Peer`, changed by event functions. The events are:
  - `createRtpTransportAndConsumer`;
  - spawning the recorder;
  - the readiness timer;
  - the stop timer;
  - the recorder's exit;
  - `stopMediasoupRtp`;
  - `close`.

  `startRecording` composes them. Each event returns the new peer, the
  requests it makes of the media engine and the process table, in order, and
  the error its promise would reject with.
- **`ObjectKeys`** (`object_keys.dfy`): the object keys the two S3 uploaders
  derive from a local path.
- **`Server`** (`server.dfy`): the round-robin worker selector and the
  `roomList` rules of the `createRoom`, `removeRoom`, `join` and `exitRoom`
  handlers.
- **`Text`** (`text.dfy`): the JavaScript string built-ins these rely on.
  These are `split` and `join` on one character, `indexOf`, `startsWith`,
  number rendering in template literals, and `trim().split(/\s+/)`.

Database errors, media-engine rejections and write failures are parameters of
the operations: a `None` fault means the call succeeds. Handles for
transports, consumers and processes are also parameters. Clocks enter as a
timestamp argument.

Where the code and the design description of the system disagree, the model
follows the code:

- `getFreePortsForSession` always claims all four kinds, whatever producers
  the peer has.
- A rejection part-way through a claim leaves the earlier claims in place.
  Nothing is rolled back: whichever statement fails first, the claims made
  before it stay applied. After a failed SELECT, its own UPDATE stays applied
  too (`PortPool.ClaimAllStopsAt`).
- An exhausted pool is not an error. The update matches no row and the claim
  resolves to `undefined`, which is `None` here. The description then carries
  the text `undefined` where the port belongs.
- Starting a recording for a peer with no producers is not rejected. The ports
  are claimed, the description is written and the recorder is spawned with no
  media branch (`PeerRecording.StartMediaRecords`). Cleanup schedules
  `deleteSDP` only when some consumer is set. So after a run with no consumer
  the description file and the session's four rows are never released. This
  happens with no producers, and also when an RTP setup fault leaves no
  consumer. While some row of the pool is still free, a later `startRecording`
  by the same socket rejects at its first UPDATE with the UNIQUE constraint
  error (`PeerRecording.NoProducersLeak`, `PeerRecording.StartWhileHeld`,
  `PortPool.ClaimAllTwice`). When the leaked rows were the last free ones, the
  UPDATEs match no row and each SELECT finds the row the session still holds.
  The restart then succeeds on the same four ports
  (`PortPool.ClaimAllRestartExhausted`).
- Stopping never force-kills. The stop timer sends `SIGINT` and nothing more.

## Model

| member | source | states |
|---|---|---|
| PortPool.AvailablePorts | database.js:6-9 | the list has length `max - min` (0 when `max <= min`) and element `i` is `min + i` |
| PortPool.AvailablePortsRange | database.js:6-9 | a port is in the list exactly when `min <= p < max`, and the list is strictly increasing |
| PortPool.Seed | database.js:41-49 | seeding inserts one row per port, in order, with only `value` set |
| PortPool.SeedValid | database.js:26-49 | a freshly seeded table satisfies both uniqueness constraints of the schema, and every row is free |
| PortPool.Startup | database.js:19-52 | an existing table, or a failed existence query, leaves the pool as it was; a missing table is created and seeded with free rows for `[min, max)` |
| PortPool.StartupOnce | database.js:19-27 | running start-up a second time, with any range and any query outcome, changes nothing |
| PortPool.FirstFreeIsLowest | lib/recording/SDPConnector.js:65 | the first free index is the row with the minimum rowid among rows whose `locked_at` is NULL; if there is none, no row is free |
| PortPool.Lookup | lib/recording/SDPConnector.js:74-80 | the value read back is `undefined` exactly when no row carries `(kind, session)`, and otherwise is the value of such a row |
| PortPool.ClaimUpdate | lib/recording/SDPConnector.js:60-68 | the update sets `kind`, `session_id` and `locked_at` on the lowest free row only; it fails with the UNIQUE violation if the session already holds that kind, and matches no row when none is free |
| PortPool.Claim | lib/recording/SDPConnector.js:58-84 | an update error rejects and changes nothing; a select error rejects after the update; otherwise the claimed value is returned, or the existing row's value or `undefined` when the pool is exhausted |
| PortPool.LookupAfterClaim | lib/recording/SDPConnector.js:74-80 | after claiming the lowest free row, the select returns exactly that row's port |
| PortPool.ClaimPreservesValid | lib/recording/SDPConnector.js:60-68 | a claim keeps both uniqueness constraints, never changes a port value, and never touches a row that is already claimed |
| PortPool.ClaimFresh | lib/recording/SDPConnector.js:58-84 | for a kind the session does not hold, a fault-free claim takes the lowest free row and returns its value; the remaining free rows are the old ones minus that row |
| PortPool.ReleaseRows | lib/recording/SDPConnector.js:44 | every row of the session becomes free with its value kept, and every other row is unchanged |
| PortPool.Release | lib/recording/SDPConnector.js:41-56 | a database error rejects with its message and changes nothing; otherwise no row references the session and the promise resolves `true` |
| PortPool.ReleaseIdempotent | lib/recording/SDPConnector.js:41-56 | releasing a session twice leaves the same table and reply as releasing it once |
| PortPool.ReleasePreservesValid | lib/recording/SDPConnector.js:41-56 | release keeps both uniqueness constraints |
| PortPool.ClaimKinds | lib/recording/SDPConnector.js:33-36 | the table keeps its length and every rejection is a statement's database error, either a reported fault or the UNIQUE violation; what the run claims is stated by `ClaimKindsFresh`, `ClaimKindsStopsAt` and `ClaimKindsExhausted` |
| PortPool.ClaimKindsFresh | lib/recording/SDPConnector.js:33-36 | claiming distinct kinds the session does not hold takes the free rows in rowid order, one per kind, and returns their values in claim order |
| PortPool.ClaimKindsKeepsClaimed | lib/recording/SDPConnector.js:33-36 | any run of claims, with any faults, keeps the constraints and leaves already claimed rows unchanged |
| PortPool.ClaimAll | lib/recording/SDPConnector.js:30-39 | the table keeps its length and every rejection is a database error; the ports it resolves to and the rows it takes are stated by `ClaimAllFromFree`, `ClaimAllStopsAt` and `ClaimAllExhausted` |
| PortPool.ClaimAllFromFree | lib/recording/SDPConnector.js:30-39 | for a session with no rows, the ports are the first four free values in the order audio, audioRtcp, video, videoRtcp (`undefined` past the end of the pool); the first four free rows carry those kinds and all other rows are unchanged |
| PortPool.ClaimAllHoldsEveryKind | lib/recording/SDPConnector.js:30-39 | with at least four free rows, the session holds all four kinds afterwards, whatever media the peer has |
| PortPool.ClaimAllNoRollback | lib/recording/SDPConnector.js:33-36 | when the video claim's update fails, the call rejects with that error and the audio and audioRtcp rows stay claimed |
| PortPool.ClaimKindsStopsAt | lib/recording/SDPConnector.js:33-36 | a run of claims stops at the first failing statement and rejects with its message; a failed UPDATE leaves exactly the earlier kinds' claims applied, a failed SELECT leaves its own UPDATE applied as well |
| PortPool.ClaimAllStopsAt | lib/recording/SDPConnector.js:30-39 | for a session with no rows, a fault at any of the four kinds rejects with that fault's message and nothing claimed before it is rolled back |
| PortPool.ClaimAllWhileHeld | lib/recording/SDPConnector.js:58-84 | a session that already holds an audio row, with a row free, is rejected at the first UPDATE with the UNIQUE constraint error and nothing changes |
| PortPool.ClaimAllTwice | lib/recording/SDPConnector.js:30-39 | after a fresh session's claim succeeds on a pool with five free rows, its second claim rejects with the UNIQUE constraint error |
| PortPool.ClaimKindsExhausted | lib/recording/SDPConnector.js:58-84 | with no free row and no faults, a run of claims changes nothing and resolves each kind to the value of the session's existing row for it, or `undefined` |
| PortPool.ClaimAllExhausted | lib/recording/SDPConnector.js:30-39 | with no free row and no faults, the claim changes nothing and resolves to the session's existing ports |
| PortPool.ClaimAllRestartExhausted | lib/recording/SDPConnector.js:30-39 | when a fresh session's claim took the pool's last four free rows, a second claim by that session succeeds on the same four ports and changes nothing |
| Sdp.SdpString | lib/recording/SDPConnector.js:24-28 | the rendered description; `SdpStringLines` states its twelve lines and `ReadPortsRoundTrip` that the ports can be read back from it |
| Sdp.SdpStringLines | lib/recording/SDPConnector.js:24-28 | the description splits on `\n` into exactly the twelve lines: header, audio `m=` line, `a=rtcp`, opus rtpmap and fmtp, then video `m=` line, `a=rtcp`, VP8 rtpmap; there is no trailing newline |
| Sdp.MediaLineWords | lib/recording/SDPConnector.js:25 | an `m=` line consists of the media, the port, `RTP/AVPF` and the payload type, separated by single spaces |
| Sdp.ReadPortsRoundTrip | lib/recording/SDPConnector.js:24-28 | reading the four ports back from a rendered description gives the ports it was rendered from |
| Sdp.ReadPortsUndefined | lib/recording/SDPConnector.js:24-28 | a description rendered with any port `undefined` does not name four ports |
| Sdp.SdpPath | lib/recording/SDPConnector.js:7-17 | the one path creation and deletion share; `SdpPathInjective` states that distinct sessions get distinct paths |
| Sdp.SdpPathInjective | lib/recording/SDPConnector.js:7 | distinct sessions get distinct description files |
| Sdp.CreateSdp | lib/recording/SDPConnector.js:5-14 | the table is whatever claiming all four kinds leaves; a claim error rejects before any file is written; on success the file at the session's path holds the rendered ports, and the config names that path and those ports |
| Sdp.DeleteSdp | lib/recording/SDPConnector.js:16-22 | a missing file throws before the ports are released; otherwise the file is removed and the session's ports are released |
| Sdp.CreatedFileNamesPorts | lib/recording/SDPConnector.js:5-14 | for a fresh session and a pool with four free rows, the written file names exactly the four lowest free ports |
| Sdp.CreateThenDelete | lib/recording/SDPConnector.js:5-22 | creating and then deleting a session's description restores the file system, resolves `true` and leaves no row referencing the session |
| Sdp.CreateSdpFresh | lib/recording/SDPConnector.js:5-14 | for a session with no rows, a fault-free create succeeds and writes the description to the session's path |
| Pipeline.OutputPath | lib/Peer.js:188-190 | the recording's output file; `ObjectKeys.VideoKeyOfOutputPath` and `ObjectKeys.FileKeyOfOutputPath` state the object keys it is uploaded under |
| Pipeline.CleanExit | lib/Peer.js:240 | the exit classification; `PeerRecording.UncleanExitCleansUp` and `PeerRecording.StopSignalIsClean` state which signals count as clean and that the stop path's signal is one of them |
| Pipeline.PipelineArgs | lib/Peer.js:209-222 | no argument is empty or contains whitespace |
| Pipeline.PipelineArgsShape | lib/Peer.js:192-222 | with space-free paths the arguments are `--eos-on-shutdown`, `filesrc location=<input>`, `! sdpdemux timeout=0 name=demux`, `webmmux name=mux`, `! filesink location=<output>`, then the audio branch, then the video branch, one word each |
| Pipeline.PipelineArgsWords | lib/Peer.js:209-222 | an output path containing spaces is cut into several arguments at the spaces |
| Pipeline.PipelineArgsBranches | lib/Peer.js:196-202 | `rtpopusdepay` is an argument exactly when there is an audio consumer, and `rtpvp8depay` exactly when there is a video consumer |
| Pipeline.MergeEnv | lib/Peer.js:204-207 | the child's environment has the inherited keys plus `GST_DEBUG`; inherited values win, and the configured log level is used only when `GST_DEBUG` is not inherited |
| Pipeline.ChunkLines | lib/Peer.js:250-253 | the lines of a chunk are non-empty and contain no `\n` |
| Pipeline.ChunkLinesRoundTrip | lib/Peer.js:250-253 | splitting lines joined by `\n` on `\r?\n` and dropping empty pieces gives the lines back |
| Pipeline.ReadyTimers | lib/Peer.js:254-259 | a readiness timer is scheduled exactly when some line starts with `Setting pipeline to PLAYING`, at most one per line |
| Pipeline.SignalsReadyLines | lib/Peer.js:249-261 | a chunk schedules readiness exactly when one of its lines starts with the marker |
| Pipeline.SingleLineChunk | lib/Peer.js:249-261 | a single line ended by nothing, `\n` or `\r\n` is read as that line, and signals readiness exactly when it starts with the marker |
| Pipeline.ShortChunkNotReady | lib/Peer.js:255 | a one-line chunk shorter than the marker never signals readiness |
| Text.WordsOfJoin | lib/Peer.js:219-222 | `join(" ")` followed by `trim().split(/\s+/)` gives the words of each fragment in turn, so empty fragments vanish |
| Text.JoinSplit | lib/recording/S3FileUploader.js:12 | joining the pieces of `split(sep)` with `sep` gives the original string |
| Text.SplitJoin | lib/recording/S3FileUploader.js:12 | splitting separator-free pieces joined by the separator gives the pieces back |
| Text.SplitAppend | lib/recording/S3FileUploader.js:12 | splitting `a + sep + b` gives the pieces of `a` followed by the pieces of `b` |
| Text.IndexOf | lib/recording/S3VideoUploader.js:12 | the result is the first position where the pattern occurs, or none exactly when it does not occur |
| Text.ParseIntToString | lib/recording/SDPConnector.js:25 | reading back a number rendered in a template literal gives the number |
| PeerRecording.GetProducerByKind | lib/Peer.js:115-121 | `null` exactly when there are no producers; `undefined` exactly when there are producers but none of the kind; otherwise the first producer of the kind in insertion order |
| PeerRecording.OfKind | lib/Peer.js:120 | the filter keeps exactly the producers of the kind |
| PeerRecording.CloseProducer | lib/Peer.js:101-109 | the entries left are exactly those with other ids, whether or not closing threw; a missing id changes nothing; ids stay distinct |
| PeerRecording.CloseProducerSplice | lib/Peer.js:101-109 | with distinct ids, closing removes just that entry and keeps the others in order |
| PeerRecording.CloseThenLookup | lib/Peer.js:101-121 | after a producer is closed, a lookup by kind never finds it |
| PeerRecording.SetupRtp | lib/Peer.js:132-157 | without a producer of the kind nothing happens; otherwise the transport is created and stored first, then connected to `ports[kind]` and `ports[kind+'Rtcp']`, then a paused consumer is stored; a rejection stops the sequence with what was stored so far, and a rejected transport creation still records the request but stores nothing; only the kind's fields change |
| PeerRecording.StartGstreamer | lib/Peer.js:187-225 | one spawn of `gst-launch-1.0` on the pipeline arguments for the description and the output path of the room and peer name, with a branch per existing consumer, and with the merged environment; the peer records the process and the output path and waits for readiness; transports and consumers are untouched |
| PeerRecording.StartGstreamerBranches | lib/Peer.js:192-222 | the spawned pipeline depayloads audio exactly when the peer has an audio consumer, and video exactly when it has a video consumer |
| PeerRecording.OnReadyTimer | lib/Peer.js:165-168 | the first timer resumes exactly the consumers that exist and ends the wait; later timers do nothing; transports, process and output path are untouched |
| PeerRecording.ReadyOnce | lib/Peer.js:182-185 | a second readiness timer after the first has no effect |
| PeerRecording.StopKind | lib/Peer.js:282-294 | the consumer is closed, then the transport, and both are nulled; a consumer without a transport throws after the consumer is closed and nulls nothing |
| PeerRecording.StopRtp | lib/Peer.js:277-295 | SDP deletion is scheduled exactly when some consumer is set; when every consumer has its transport, both consumers end null; a transport changes only together with its consumer; the process fields are untouched |
| PeerRecording.StopRtpIdempotent | lib/Peer.js:277-295 | a second cleanup after a successful one requests nothing and changes nothing |
| PeerRecording.OnStopTimer | lib/Peer.js:171-179 | a running recorder receives `SIGINT` and nothing else changes; without one, RTP cleanup runs |
| PeerRecording.OnExit | lib/Peer.js:231-247 | post-processing is requested first, with the output path before it is cleared; process and output path become null; then RTP cleanup runs |
| PeerRecording.UncleanExitCleansUp | lib/Peer.js:231-247 | a `SIGKILL` or `SIGTERM` exit is reported unclean and an interrupt clean, yet every exit does the same thing whatever the signal: post-processing of the output path first, then cleanup of the peer with process and path cleared, with the same outcome as that cleanup |
| PeerRecording.ExitIgnoresCode | lib/Peer.js:231-247 | the exit code does not affect the transition; the report depends on the signal alone |
| PeerRecording.StopSignalIsClean | lib/Peer.js:171-179 | the stop timer sends a running recorder a signal, and every signal it sends is one the exit handler reports as clean |
| PeerRecording.Close | lib/Peer.js:123-126 | the WebRTC transports are closed first, then RTP cleanup runs with the same outcome as a direct cleanup |
| PeerRecording.StartMedia | lib/Peer.js:162-165 | when the media setup succeeds the peer records the spawned process and the output path and waits for readiness; without engine faults it always succeeds and keeps transports and consumers paired; consistency of the recording fields is kept |
| PeerRecording.StartRecording | lib/Peer.js:159-169 | the ports are claimed and the description written first; a failure there rejects without touching the peer; otherwise the media setup runs on the description's ports; the recording fields stay consistent |
| PeerRecording.AudioOnlyStart | lib/Peer.js:159-169 | for an audio-only peer the session still holds all four port kinds, only an audio transport and consumer are created, and the pipeline has the audio branch and no video branch |
| PeerRecording.StartMediaRecords | lib/Peer.js:132-136 | after a fault-free start, the peer holds some RTP consumer exactly when it has a producer |
| PeerRecording.StopCycle | lib/Peer.js:171-295 | from a running recorder with paired fields, ready, then stop, then a `SIGINT` exit: the stop sends `SIGINT`, the exit reports clean, post-processes the output path and returns every recording field to its initial value |
| PeerRecording.StartWhileHeld | lib/Peer.js:159-169 | when the session still holds an audio row and a row is free, `startRecording` rejects with the UNIQUE constraint error and changes neither the world nor the peer |
| PeerRecording.NoProducersLeak | lib/Peer.js:159-295 | a peer with no producers starts, records and exits cleanly without scheduling SDP deletion, and its next `startRecording` rejects with the UNIQUE constraint error |
| PeerRecording.RecordingCycle | lib/Peer.js:159-295 | a whole fault-free recording returns the peer to its initial state, kills the spawned process with `SIGINT`, post-processes the output path, and schedules SDP deletion exactly when the peer had a producer |
| ObjectKeys.VideoKey | lib/recording/S3VideoUploader.js:12-15 | the key never contains `results/`, and is the text `undefined` when the path does not contain it |
| ObjectKeys.VideoKeyOfSplit | lib/recording/S3VideoUploader.js:12 | for `<prefix>results/<rest>` with the marker in neither part, the key is `<rest>` |
| ObjectKeys.VideoKeyBetween | lib/recording/S3VideoUploader.js:12 | when the marker occurs again, the key is the text between the first and second occurrences |
| ObjectKeys.VideoKeyOfOutputPath | lib/recording/S3VideoUploader.js:12-15 | a recording's output path is uploaded under `chats/<room>/peers/<name>/video.webm` |
| ObjectKeys.FileKey | lib/recording/S3FileUploader.js:12-15 | the file uploader's key; `FileKeyOfLastTwo`, `FileKeyOfPair` and `FileKeyOfSegment` state it for paths with two or more, one, and no `/` |
| ObjectKeys.FileKeyShape | lib/recording/S3FileUploader.js:15 | every key starts with `chats/`, and `/peers/` follows the second-to-last segment |
| ObjectKeys.FileKeyOfLastTwo | lib/recording/S3FileUploader.js:12-15 | for `<p>/<a>/<b>` with `a` and `b` free of `/`, the key is `chats/<a>/peers/<b>` |
| ObjectKeys.FileKeySameTail | lib/recording/S3FileUploader.js:12-15 | two paths with the same last two segments get the same key |
| ObjectKeys.FileKeyOfPair | lib/recording/S3FileUploader.js:12-15 | for `<a>/<b>` with `a` and `b` free of `/`, the key is `chats/<a>/peers/<b>` |
| ObjectKeys.FileKeyOfSegment | lib/recording/S3FileUploader.js:12-15 | a path without `/` gets the key `chats/undefined/peers/<path>` |
| ObjectKeys.FileKeyOfOutputPath | lib/recording/S3FileUploader.js:12-15 | applied to a recording's output path, the key is `chats/<name>/peers/video.webm`, and the room id is lost |
| Server.GetWorker | server.js:330-336 | returns the worker at the index (`undefined` past the end); from a valid index the next index is one further, modulo the number of workers |
| Server.PicksRotate | server.js:330-336 | starting at a valid index, the `i`-th of up to one round of selections returns the worker `i` places further on, cyclically |
| Server.FullRound | server.js:330-336 | one round of selections returns every worker exactly once, in list order starting at the index, and ends at the starting index |
| Server.CreateRoom | server.js:87-95 | an existing id is answered `already exists` and nothing changes; a new id adds exactly that room, with no peers, on the worker the round robin picks, advances the round-robin index as `getMediasoupWorker` does, and is the reply |
| Server.RemoveRoom | server.js:97-106 | the room list never changes; the reply says whether the room exists |
| Server.Join | server.js:108-120 | an unknown room is an error and nothing changes; otherwise the socket becomes a peer of that room only, remembers it, and gets the room as reply; no other socket's room changes |
| Server.ExitRoom | server.js:237-258 | a socket in no existing room gets an error and nothing changes; otherwise it leaves the room, the room is deleted exactly when no peer remains, other rooms are untouched and the socket forgets the room; no other socket's room changes |
| Server.JoinThenExit | server.js:237-258 | joining a room the socket is not a peer of and leaving it restores the room list, except that a room that was empty is gone afterwards; this holds also for a socket already in another room, which stays among that room's peers |
| Server.RemovedRoomStillJoinable | server.js:97-120 | after `removeRoom` reports success, the room can still be joined |

## Left out

- Socket.io, Express and HTTPS plumbing in `server.js` are network I/O. So are the handlers other than `createRoom`, `removeRoom`, `join` and `exitRoom`. This includes the `resume` handler at server.js:211-215, which refers to a `consumer` that is not in scope.
- The `disconnect` handler (server.js:221-228) is left out. It removes the peer but never deletes an empty room.
- The log statement of `exitRoom` (server.js:238-240) throws when the socket is not among the room's peers. The model treats it as a log line only.
- `Room` (`lib/Room.js`) is not part of this model. A room is its worker and the set of its peers' socket ids, and `addPeer`/`removePeer` are taken to behave like `Map.set`/`Map.delete` keyed by socket id.
- mediasoup workers, routers, transports and consumers are opaque handles. Their calls are requested effects whose rejection is a fault parameter.
- Child-process spawning, the stdout/stderr streams, the `error` event and `mkdirSync` are I/O. The model keeps the spawn request, the line scanner and the exit handler.
- Timers (1500 ms stop delay, 1000 ms settle, 5000 ms SDP deletion delay) are explicit events, not durations. The deletion itself is `Sdp.DeleteSdp`, applied by whoever runs the scheduled request.
- SQLite and file-system I/O are left out. The table is an in-memory row sequence, and the files are a map from path to content. Interleaving of claims from concurrent sessions is not modelled: each statement is one atomic step and a claim run is sequential.
- Handlers that await in the middle of an operation are each modelled as one atomic step. `startRecording` (lib/Peer.js:159-169) awaits `createSDP`, which makes eight database round trips and a file write. It then awaits three engine calls per kind and the spawn. The stop timer, `close()` or the recorder's exit can land between those awaits in the source, and the model does not cover that. `PeerRecording.RecordingCycle`, `PeerRecording.NoProducersLeak` and `PeerRecording.AudioOnlyStart` assume no other event lands inside a start. `createRoom` (server.js:87-95) awaits `getMediasoupWorker` between its `has` check and its `set`. `exitRoom` (server.js:249-250) awaits `removePeer` before it reads the room again. `stopMediasoupRtp` (lib/Peer.js:277-295) awaits each close between its check of a consumer and nulling it. Interleavings of other handlers at those points are not covered, and `PeerRecording.StopRtpIdempotent` holds only for cleanups that run one after the other.
- One timestamp is used for a whole claim run, where the source calls `new Date()` per statement.
- Room ids that are `undefined` (a socket that never joined) are a missing map key, not a key named `undefined`.
- `lib/recording/VideoProcessing.js` and the `s3.upload` calls are left out. They are library I/O (upload plus a BullMQ enqueue). Only the key derivations are modelled.
- `PortPool.Startup`: a failed `CREATE TABLE` or `INSERT` throws out of the callback and ends the process, so the model covers only the failed existence query.

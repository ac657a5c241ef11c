# Crawler-side coordinator of WebArchiver, in Dafny

This project models the crawler-side coordinator of WebArchiver, a
distributed web-archiving system. A crawler keeps connections to a bounded
number of stagers. It tracks the crawl jobs the stagers hand it, and which
stager owns each URL in flight. It negotiates the hand-off of every finished
WARC file to one stager: it asks for permission, collects grants, lets the
grant window close, picks one granter, tells the granters to stand down and
sends the file. It reports finished and discovered URLs, and asks for more URL
quota on a schedule.

The model is functional. Every handler and periodic step takes the
coordinator state and returns the new state with the messages it writes. The
three steps that loop over a set are methods: `Upload.Upload`,
`Drains.FinishUrls` and `Drains.FoundUrls`. `Quota.RequestUrlQuota` is also a
method, because it makes a choice. These methods pick set elements with
`:|`, so their contracts hold for every visiting order. The stager that
`sample` returns comes from `Env.pick` in `Registry.RequestStager` and
`Warc.ReadChosen`, which `Upload.Upload` reaches. It is a `:|` choice in
`Drains.FoundUrls` and `Quota.RequestUrlQuota`. Either way, the contracts hold
for every choice.

Modules:

- `Types`: addresses, peers, message bodies with their wire names, and the
  tunables. It also holds `Env`, the outside world one step reads: the clock,
  the `check_time` test evaluated at that clock reading, and the random pick
  that `sample` makes.
- `Registry`: the insertion-ordered stager dict, `add_stager`,
  `stager_needed`, `request_stager`, `ping`, and the pong and handshake
  flags.
- `CrawlerJob`: `CrawlerServerJob`, with its URL deduplication database as a
  set and the inner crawl engine as a log of the calls made on it.
- `Warc`: `WarcFile` and `UploadPermissions`. Each read of the `chosen`
  property is a state transition (`Warc.ReadChosen`), because a read can
  start the grant clock or memoise the sample.
- `Server`: the coordinator state, the job wrappers and the inbound command
  handlers.
- `Upload`: `upload` and `upload_warc`.
- `Drains`: `finish_urls` and `found_urls`.
- `Quota`: `request_url_quota`.
- `Round`: `_run_round`.

Where the protocol's design and the code differ, the model follows the code:

- `to_revoke` compares each granting socket with the value of `chosen`, which
  is the one-element list `sample` returns. A socket never equals a list, so
  the revoke goes to every granter, the chosen one included
  (`Warc.ToRevoke`, `Warc.ChosenIsRevoked`).
- `add_url` guards on `finished_url`, which returns None. The guard never
  fires, so every call records the URL as archived and hands it to the engine
  again (`CrawlerJob.AddUrlIgnoresArchive`).
- `increase_url_quota` stamps a different attribute from the one the quota
  selection reads. Jobs are therefore always ranked by creation time
  (`CrawlerJob.QuotaGrantsKeepRank`, `Quota.QuotaGrantKeepsRanking`).
- A duplicate pong calls `ping`, which is itself rate-limited
  (`Registry.SecondPongRepings`).
- A file dropped for lack of grants stays pending. The next tick creates a
  fresh entry and asks for permission again
  (`Upload.DroppedFileIsRequestedAgain`).
- Several handlers do not no-op for unknown identifiers: they raise.
  Examples are ASSIGNED_URL_QUOTA for an unknown job and WARC_FILE_RECEIVED
  for a file that is not pending. The model states what each of them demands
  as a precondition.

## Model

| member | source | states |
|---|---|---|
| Registry.AddStager | webarchiver/server/crawler.py:43-53 | With a known listening address, nothing changes, nothing is sent and the result is None. Otherwise exactly one stager is appended with fresh flags and announced with ANNOUNCE_CRAWLER, or ANNOUNCE_CRAWLER_EXTRA for an extra one. |
| Registry.AddStagerPreservesWellFormed | webarchiver/server/crawler.py:43-53 | The registry never holds two stagers with the same listening address, and its order lists each stager once. |
| Registry.AddStagerIdempotent | webarchiver/server/crawler.py:44-46 | Announcing the same address a second time registers and sends nothing more. |
| Registry.StagerNeeded | webarchiver/server/crawler.py:222-225 | max(0, MAX_STAGER minus the number of stagers). |
| Registry.RequestStager | webarchiver/server/crawler.py:55-61 | Sends only when stagers are missing and the cooldown has elapsed. It then sends one REQUEST_STAGER to one registered stager, with the count and the known addresses, and restarts the cooldown. Otherwise nothing changes. |
| Registry.RequestStagerListsEveryStagerOnce | webarchiver/server/crawler.py:58-60 | The address list names every registered stager exactly once and nothing else. |
| Registry.ClearPongs | webarchiver/server/crawler.py:65-66 | Every stager's pong flag is cleared. The confirmed flags and the set of stagers are unchanged. |
| Registry.Ping | webarchiver/server/crawler.py:63-68 | When the interval has elapsed, every pong flag is cleared, PING goes to all stagers and the timestamp becomes now. Otherwise nothing changes. |
| Registry.Pong | webarchiver/server/crawler.py:168-172 | A pong on a cleared flag sets that flag and nothing else. A pong on a set flag is exactly a call of ping. |
| Registry.PongAfterPingRaisesOneFlag | webarchiver/server/crawler.py:63-68 | After a ping that fired, one pong raises that stager's flag alone and sends nothing. |
| Registry.SecondPongRepings | webarchiver/server/crawler.py:168-172 | A second pong re-broadcasts PING exactly when the interval, measured from the ping that fired, has elapsed. Otherwise it changes nothing. |
| Registry.ConfirmHandshake | webarchiver/server/crawler.py:174-177 | Marks that stager confirmed, keeps its pong flag, and leaves every other stager, the order, the socket counter and both timestamps alone. Answers CONFIRMED 1 exactly when the incoming stage is 0. |
| Registry.FlagsOnlyPreserveValid | webarchiver/server/crawler.py:63-68 | Changing only flags keeps the registry valid. |
| CrawlerJob.NewJob | webarchiver/server/job/crawler.py:8-18 | A new job has no stagers, is not started, owns no URLs, and carries its creation time as its quota stamp. Its database is named `crawler_` plus the identifier. |
| CrawlerJob.AddStager | webarchiver/server/job/crawler.py:20-23 | A known stager changes nothing. A new one is appended at the end with the order kept. The list never gains a duplicate. |
| CrawlerJob.AddStagerIdempotent | webarchiver/server/job/crawler.py:20-23 | Adding a stager twice is adding it once. |
| CrawlerJob.FinishedUrl | webarchiver/server/job/crawler.py:48-49 | Records the URL in the database and changes nothing else. |
| CrawlerJob.ArchivedUrl | webarchiver/server/job/crawler.py:51-52 | Whether the deduplication database holds the URL. Its behaviour under finished_url and add_url is stated by `CrawlerJob.FinishedUrlArchives` and `CrawlerJob.AddUrl`. |
| CrawlerJob.FinishedUrlArchives | webarchiver/server/job/crawler.py:48-52 | After recording, exactly that URL is newly archived. Recording it again, or recording an archived URL, changes nothing. |
| CrawlerJob.AddUrl | webarchiver/server/job/crawler.py:25-29 | Every call archives the URL, makes the sender its owner while other owners stay, and hands the URL to the engine. Identifier, stagers, started flag, quota stamps and database name are unchanged. |
| CrawlerJob.AddUrlIgnoresArchive | webarchiver/server/job/crawler.py:25-27 | An archived URL still gets its owner replaced and is handed to the engine again: the guard protects nothing. |
| CrawlerJob.AddUrlTwice | webarchiver/server/job/crawler.py:25-29 | A repeated add_url leaves owners and database as after one call. Only the engine sees the URL twice. |
| CrawlerJob.IncreaseUrlQuota | webarchiver/server/job/crawler.py:31-33 | Stamps the private attribute, passes the amount to the engine, and leaves the attribute the selection reads unchanged. |
| CrawlerJob.QuotaGrantsKeepRank | webarchiver/server/job/crawler.py:12 | Any sequence of quota grants leaves the selection key at the creation time. |
| CrawlerJob.GetUrlStager | webarchiver/server/job/crawler.py:35-36 | Returns the URL's owner. Deleting the URL's owner and then restoring the returned stager gives back the owner map. The URL must have an owner. |
| CrawlerJob.UrlStagerIsLastSender | webarchiver/server/job/crawler.py:25-39 | After add_url, get_url_stager reports the sender for that URL and the earlier owner for any other URL. delete_url_stager then forgets that URL. |
| CrawlerJob.DeleteUrlStager | webarchiver/server/job/crawler.py:38-39 | Removes exactly that URL's owner. Other owners are unchanged. |
| CrawlerJob.IsStarted | webarchiver/server/job/crawler.py:54-56 | Started explicitly, or the engine already runs a thread. `CrawlerJob.Start` and `CrawlerJob.StartOnce` state how start reads and sets it. |
| CrawlerJob.Start | webarchiver/server/job/crawler.py:41-46 | A started job answers None and is unchanged. Otherwise the engine is started once, the job is marked started and True is returned. |
| CrawlerJob.StartOnce | webarchiver/server/job/crawler.py:41-46 | A second start answers None and changes nothing. |
| Warc.NewWarcFile | webarchiver/server/crawler.py:239-244 | A new file is not requested, not revoked, has no grants and has no choice made. Its clock is at the 0 sentinel, so the first `chosen` read starts it. |
| Warc.ReadChosen | webarchiver/server/crawler.py:259-270 | Answers None on the first read, which starts the clock, or while the window is open. After that it answers False without grants. With grants it memoises one granted stager and returns it on every later read. |
| Warc.ChosenIsStable | webarchiver/server/crawler.py:261-270 | Once a stager is chosen, every later read at any time returns it and changes nothing. |
| Warc.DecisionRepeats | webarchiver/server/crawler.py:261-270 | A read that decides does not move the clock, so a repeated read in the same step agrees. |
| Warc.FirstReadStartsClock | webarchiver/server/crawler.py:262-264 | With no answer yet, the first read only starts the clock and answers None. |
| Warc.Granted | webarchiver/server/crawler.py:246-248 | Appends the granter and restarts the window from now. Nothing else changes. |
| Warc.GrantAfterChoiceKeepsChoice | webarchiver/server/crawler.py:246-270 | A grant after the choice does not change it. |
| Warc.GrantReopensWindow | webarchiver/server/crawler.py:246-266 | A grant before the choice reopens the window: a read inside the new window answers None. |
| Warc.RevokeFilter | webarchiver/server/crawler.py:252 | The comprehension keeps every element, because a socket never equals the chosen list. |
| Warc.ToRevoke | webarchiver/server/crawler.py:250-252 | to_revoke is the whole grant list. |
| Warc.ChosenIsRevoked | webarchiver/server/crawler.py:250-252 | The chosen stager itself is told to revoke. |
| Warc.Lookup | webarchiver/server/crawler.py:232-235 | A missing path gets a fresh entry that is stored and returned. An existing entry is returned unchanged. |
| Server.Init | webarchiver/server/crawler.py:16-27 | The constructor registers and announces one stager, whose flags are those of a fresh node. There are no jobs and no permissions, and the intake sets are empty. The quota stamp is 0, the registry carries the two given timestamps, and the state is valid. |
| Server.MarkerInjective | webarchiver/server/crawler.py:97-99 | Different paths have different in-flight markers. |
| Server.CreateJob | webarchiver/server/crawler.py:143-149 | A known identifier changes nothing. Otherwise exactly one new job is added. |
| Server.CreateJobIdempotent | webarchiver/server/crawler.py:143-145 | Creating twice is creating once. |
| Server.StartJob | webarchiver/server/crawler.py:151-154 | An unknown job answers False with no change. A known job answers as its start does, and is started afterwards. |
| Server.JobAddStager | webarchiver/server/crawler.py:156-160 | An unknown job answers False with no change. Otherwise the stager is added and True is returned. |
| Server.JobAddUrl | webarchiver/server/crawler.py:162-166 | An unknown job answers False with no change. Otherwise the URL is owned by the sender and archived. |
| Server.CommandPong | webarchiver/server/crawler.py:168-172 | Only the registry flags and ping stamp can change. A pong on a cleared flag sets that flag, keeps its confirmed flag and sends nothing. A pong on a set flag broadcasts PING to every stager exactly when the ping interval has elapsed. It then clears every pong flag, keeps every confirmed flag and restarts the interval. Otherwise nothing changes. |
| Server.CommandConfirmed | webarchiver/server/crawler.py:174-177 | Marks the sender confirmed, keeps its pong flag, and leaves every other stager and all other state alone. Answers CONFIRMED 1 only to stage 0. |
| Server.CommandAssignedUrlQuota | webarchiver/server/crawler.py:179-180 | Passes the amount to that job's engine and stamps the private attribute with now. Every other field of the job, and every other job, is unchanged. No job's selection key moves. |
| Server.CommandNewJobCrawl | webarchiver/server/crawler.py:182-185 | An existing job gets the sender added to its stagers and nothing else. An unknown job is created fresh with the sender as its only stager. Other jobs and all other state are unchanged. Always acknowledges with JOB_CRAWL_CONFIRMED. |
| Server.NewJobCrawlIdempotent | webarchiver/server/crawler.py:182-185 | A repeated NEW_JOB_CRAWL changes nothing more and is acknowledged again. |
| Server.CommandJobUrlCrawl | webarchiver/server/crawler.py:187-188 | A known job has add_url applied: the URL is owned by the sender, archived and handed to the engine, and nothing else changes. An unknown job is ignored. |
| Server.CommandJobStartCrawl | webarchiver/server/crawler.py:190-192 | A known job has start applied: an unstarted one gets one engine start, an already started one is unchanged. Nothing else changes. Always acknowledges with JOB_STARTED_CRAWL. |
| Server.CommandWarcFileReceived | webarchiver/server/crawler.py:197-201 | Removes exactly that pending file and its permission entry, and deletes the file and its marker. |
| Server.CommandAddStager | webarchiver/server/crawler.py:203-208 | A known address changes and sends nothing. Otherwise one new stager with that address and a fresh node's flags is appended after the existing order. Existing stagers keep their flags, and ANNOUNCE_CRAWLER_EXTRA with this crawler's address is sent to the new stager alone. Both registry timestamps are kept. |
| Server.CommandUploadPermissionGranted | webarchiver/server/crawler.py:210-214 | The lookup creates a missing entry. A grant for an unrequested file returns False and leaves the grants as they were. Otherwise the grant is recorded at now. |
| Server.StagerCommandsPreserveValid | webarchiver/server/crawler.py:168-208 | PONG, CONFIRMED and ADD_STAGER keep the coordinator valid. |
| Server.JobCommandsPreserveValid | webarchiver/server/crawler.py:179-192 | The job commands keep the coordinator valid. A job created by NEW_JOB_CRAWL has its announcing stager. |
| Server.UploadCommandsPreserveValid | webarchiver/server/crawler.py:197-214 | Receipt and grant keep the coordinator valid. |
| Upload.UploadWarc | webarchiver/server/crawler.py:96-101 | With the marker present it returns False and sends nothing. Otherwise it creates the marker, sends WARC_FILE and returns True. |
| Upload.UploadWarcOnce | webarchiver/server/crawler.py:96-101 | A second transfer of the same path, to any target, is refused and sends nothing. |
| Upload.UploadFile | webarchiver/server/crawler.py:79-94 | An unrequested file gets exactly one REQUEST_UPLOAD_PERMISSION and is marked requested, with nothing else that tick. Every message is about that path, and at most its marker is created. |
| Upload.RevokeAndSend | webarchiver/server/crawler.py:89-94 | The revoke branch sends REQUEST_UPLOAD_REVOKE to every granter first, then marks the entry revoked while keeping its grants and path. It then writes at most one WARC_FILE, exactly when the marker was absent, and creates the marker. The transfer goes to the memoised stager when there is one, otherwise to a granter or to nobody. |
| Upload.Progress | webarchiver/server/crawler.py:87-94 | For a requested file: dropped exactly when the window elapsed with no grant and no choice made. Grants, path and requested flag are kept. Messages and disk changes happen only on the tick that turns revoked on, and never for a revoked file. |
| Upload.RequestedFileKeepsGrants | webarchiver/server/crawler.py:81-94 | A requested file never asks again, and keeps its grants, its path and its validity. |
| Upload.DroppedIffNoGrant | webarchiver/server/crawler.py:87-88 | A requested file is dropped exactly when the window elapsed with no grant and no choice made. A drop sends nothing. |
| Upload.RevokedIsQuiet | webarchiver/server/crawler.py:89 | A revoked file sends nothing, creates no marker and stays revoked. |
| Upload.RevokeIsTheTransition | webarchiver/server/crawler.py:89-94 | A tick sends REQUEST_UPLOAD_REVOKE exactly when it turns revoked from false to true. The revoke goes to every granter, followed by at most one transfer, sent exactly when the marker was absent. |
| Upload.DecisionIsAStager | webarchiver/server/crawler.py:89-94 | With one clock reading per tick, a transfer goes to the memoised stager, which is one of the granters. |
| Upload.DroppedFileIsRequestedAgain | webarchiver/server/crawler.py:80-88 | After a drop, the next tick creates a fresh entry and requests permission again. |
| Upload.RevokedFileIsLeftAlone | webarchiver/server/crawler.py:89 | Over any run of later ticks and grants, a revoked file sends nothing and leaves the disk alone. |
| Upload.StepCounts | webarchiver/server/crawler.py:89-94 | One tick writes at most one revoke and one transfer, and neither unless it leaves the file revoked. |
| Upload.GrantStep | webarchiver/server/crawler.py:210-214 | A grant never changes whether the file is requested or revoked, its path or its choice, and keeps the entry valid. |
| Upload.GrantStepIsTheHandler | webarchiver/server/crawler.py:210-214 | The grant step of a run is exactly what UPLOAD_PERMISSION_GRANTED does to the file's entry. |
| Upload.GrantThenTickRevokes | webarchiver/server/crawler.py:87-94 | A grant followed by a tick after the window has elapsed revokes the file exactly once, to the granters. |
| Upload.NoGrantNoRevoke | webarchiver/server/crawler.py:87-94 | A run of ticks alone on an entry nobody has granted never sends REQUEST_UPLOAD_REVOKE. |
| Upload.RevokeAtMostOnce | webarchiver/server/crawler.py:87-94 | Over any run of ticks with grants arriving in between, a file's permission entry is revoked at most once and transferred at most once. |
| Upload.StepSeesOnlyItsMarker | webarchiver/server/crawler.py:96-99 | A file's step depends on the disk only through its own marker, and adds at most that marker. |
| Upload.StepKeepsEntryValid | webarchiver/server/crawler.py:80-94 | A step keeps its path's entry valid and stored under that path. |
| Upload.Upload | webarchiver/server/crawler.py:77-94 | Paths that are not pending keep their entries. Every message is about a pending path, and only pending paths' markers appear. Only permissions and disk change, and validity is kept. With unique paths, each file gets exactly its own step's messages, entry and marker, whatever the visiting order. |
| Drains.DrainedStep | webarchiver/server/crawler.py:108-116 | Draining one entry adds its URL to that job's database and removes its owner. |
| Drains.ReportOfFacts | webarchiver/server/crawler.py:110-113 | The reports of a drain order are distinct, and name each drained entry exactly once. |
| Drains.FinishStep | webarchiver/server/crawler.py:106-116 | One drained entry keeps the drain invariant. |
| Drains.FinishFacts | webarchiver/server/crawler.py:103-117 | At the end of the drain, every entry is reported once, and validity is kept. |
| Drains.FinishUrls | webarchiver/server/crawler.py:103-117 | Each finished entry is archived in its job, loses its owner, and gets one JOB_URL_FINISHED, naming the owner's listener, sent to the job's stagers. Messages are distinct, one per entry. The intake set is emptied and nothing else changes. |
| Drains.FoundSkipped | webarchiver/server/crawler.py:124-125 | An entry with an archived URL is skipped without a message. |
| Drains.FoundForwarded | webarchiver/server/crawler.py:126-128 | Any other entry gets one JOB_URL_DISCOVERED to one of its job's stagers. |
| Drains.FoundFacts | webarchiver/server/crawler.py:119-129 | At the end, there is one distinct message per forwarded entry and none for an archived one. |
| Drains.FoundUrls | webarchiver/server/crawler.py:119-129 | Every entry present at the start is removed. Archived URLs produce no message. Every other entry produces exactly one JOB_URL_DISCOVERED, to a member of its job's stager list. Nothing else changes. |
| Quota.LowestExists | webarchiver/server/crawler.py:136-139 | Every non-empty job table has a lowest-ranked job. |
| Quota.RequestUrlQuota | webarchiver/server/crawler.py:131-141 | Before the interval elapses nothing happens. After it elapses the stamp becomes now. With no jobs nothing is sent. Otherwise one REQUEST_URL_QUOTA for a lowest-ranked job goes to one of its stagers. |
| Quota.QuotaGrantKeepsRanking | webarchiver/server/crawler.py:179-180 | ASSIGNED_URL_QUOTA does not change which jobs rank lowest. |
| Round.RunRound | webarchiver/server/crawler.py:29-36 | A round keeps the coordinator valid and empties both URL intake sets. Pending files stay pending. No job is added or removed, no job loses a stager, and the stager order is unchanged. |

## Left out

- Sockets and transport: connecting, write queues and `_read_list`. A send is
  a `Msg` record with its addressees. The `s` parameter of `add_stager`,
  which lets a caller pass an existing socket, is not modelled. New sockets
  are numbered by the registry.
- The base server's own round and its initial timestamps. `Server.Init`
  takes the two timestamps as parameters.
- The filesystem. Files on disk are a set of paths, and a file's size is an
  input function, so the cache on `filesize` is not needed.
- Locking of the intake sets. Each drain is one atomic step over a set,
  because its purpose is concurrency with the crawl engines.
- `time.time()` and the helpers `check_time`, `sample` and `key_lowest_value`
  (webarchiver/utils is not part of this model). The clock is `Env.now`, and
  `check_time` is an uninterpreted elapsed test. `sample` picks one member,
  through `Env.pick` in functions and `:|` in methods. `key_lowest_value`
  picks any job of lowest rank, so its tie-break is not modelled. Time is an
  integer rather than a float.
- The deduplication database and the inner crawl engine. The database is a
  set of URLs, whose initial content is a parameter. The engine is the log of
  calls made on it and its `ident` flag.
- The initial flags of a CrawlerNode, which is not part of this model. They
  are the `newNode` field of the configuration.
- `print` calls, the commented-out `request_upload` and
  `_command_upload_requested`, the no-op handlers for UPLOAD_PERMISSION_DENIED
  and ALREADY_CONFIRMED, and `_last_upload_request`, which nothing reads.
- One clock reading per step. The source calls `check_time` again on every
  read of `chosen`: at webarchiver/server/crawler.py:87, 89 and 94, and once
  per granter inside `to_revoke` (line 252). The model evaluates every read of
  one step at the same `Env`. So it does not produce the case where a grant
  window closes between the reads at lines 87 and 89 with no grant. There,
  line 89 sees False, which is not None, and the file takes the revoke branch:
  it is marked revoked, and `upload_warc(False, ...)` creates the `.uploading`
  marker (line 99), which refuses every later transfer of that path.
- Upload.RevokeAtMostOnce counts per permission entry. A run ends when a
  tick drops the entry, and the fresh entry the next tick creates
  (`Upload.DroppedFileIsRequestedAgain`) starts a new run.
- Upload.NoGrantNoRevoke requires each tick to read the clock once, for the
  same reason: in the interleaving above, a file with no grant is revoked.
- Upload.DecisionIsAStager holds only under the one-reading-per-step
  assumption above, which its `Sane` precondition states.
- Upload.Targets: `upload_warc` receives the value `chosen` reads. When that
  value is not a stager list, the model sends to nobody.
  `Upload.DecisionIsAStager` shows that this does not arise when a tick reads
  the clock once.
- Upload.UploadFile: the per-file properties are stated as separate lemmas,
  and its own contract only frames the messages and the disk.
- Upload.Upload: when two pending files share a path, only the frame
  properties are stated. Each visit then sees the entry the other left, so
  the outcome depends on the visiting order.
- Upload.Upload and Round.RunRound require every pending file's job to be
  known. The source only looks the job up when it sends a permission request.
- Round.RunRound requires a valid coordinator (at least one stager, and jobs
  with non-empty stager lists). This covers the sampling steps, which raise on
  an empty list.
- Raised exceptions (KeyError, and sampling from an empty list) are
  preconditions. The model has no error path for them.

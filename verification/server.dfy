/** CrawlerServer (webarchiver/server/crawler.py): the coordinator state, its
    job wrappers and the handlers of inbound stager commands. Every handler
    returns the new state and the messages it writes. */
module Server {
  import opened Types
  import R = Registry
  import J = CrawlerJob
  import W = Warc

  /** The coordinator. The three intake sets are filled by the crawl
      engines; `files` is the set of paths that exist on disk. */
  datatype Server = Server(
    cfg: Config,
    address: Address,
    reg: R.Registry,
    jobs: map<JobId, J.Job>,
    permissions: map<Path, W.WarcFile>,
    filenames: set<(JobId, Path)>,
    finishedUrls: set<(JobId, Url)>,
    foundUrls: set<(JobId, Url, Url)>,
    lastUrlQuota: Time,
    files: set<Path>)

  /** The in-flight marker that guards the transfer of `path`. */
  function Marker(path: Path): (m: Path)
    ensures |m| == |path| + 10 && m[..|path|] == path
  {
    path + ".uploading"
  }

  /** Distinct paths have distinct markers. */
  lemma MarkerInjective(p: Path, q: Path)
    ensures Marker(p) == Marker(q) ==> p == q
  {
    if Marker(p) == Marker(q) {
      assert p == Marker(p)[..|p|];
    }
  }

  /** The shape of every reachable coordinator: a valid registry, each job
      stored under its own identifier with at least one stager and no
      duplicate, and every permission entry stored under its own path. */
  ghost predicate Valid(st: Server)
  {
    && R.Valid(st.reg)
    && (forall id | id in st.jobs ::
          st.jobs[id].id == id && |st.jobs[id].stager| > 0 && Distinct(st.jobs[id].stager))
    && (forall p | p in st.permissions :: W.Valid(st.permissions[p]) && st.permissions[p].path == p)
  }

  /** __init__: registers and announces the configured stager; no jobs, no
      pending files, empty intake sets. The two timestamps are the ones the
      base server starts with. */
  function Init(cfg: Config, address: Address, stager: Address, lastStagerRequest: Time,
                lastPing: Time, files: set<Path>): (res: (Server, seq<Msg>))
    ensures Valid(res.0)
    ensures |res.0.reg.order| == 1 && res.0.reg.order[0].listener == stager
    ensures res.0.reg.nodes == map[res.0.reg.order[0] := cfg.newNode]
    ensures res.1 == [Msg(res.0.reg.order, Announce(false, address))]
    ensures res.0.jobs == map[] && res.0.permissions == map[]
    ensures res.0.filenames == {} && res.0.finishedUrls == {} && res.0.foundUrls == {}
    ensures res.0.lastUrlQuota == 0
    ensures res.0.reg.lastStagerRequest == lastStagerRequest && res.0.reg.lastPing == lastPing
    ensures res.0.cfg == cfg && res.0.address == address && res.0.files == files
  {
    var empty := R.Empty(lastStagerRequest, lastPing);
    var (reg, out, _) := R.AddStager(empty, cfg, address, stager, false);
    R.AddStagerPreservesWellFormed(empty, cfg, address, stager, false);
    (Server(cfg, address, reg, map[], map[], {}, {}, {}, 0, files), out)
  }

  /** create_job: a no-op for a known identifier, otherwise a new job. */
  function CreateJob(st: Server, id: JobId, now: Time, stored: set<Url>): (r: Server)
    ensures id in r.jobs
    ensures id in st.jobs ==> r == st
    ensures id !in st.jobs ==> r == st.(jobs := st.jobs[id := J.NewJob(id, now, stored)])
    ensures r.jobs.Keys == st.jobs.Keys + {id}
  {
    if id in st.jobs then st
    else st.(jobs := st.jobs[id := J.NewJob(id, now, stored)])
  }

  /** Creating a job twice is creating it once. */
  lemma CreateJobIdempotent(st: Server, id: JobId, t1: Time, t2: Time, s1: set<Url>, s2: set<Url>)
    ensures CreateJob(CreateJob(st, id, t1, s1), id, t2, s2) == CreateJob(st, id, t1, s1)
  {
  }

  /** start_job: False for an unknown job, otherwise the job's own start
      answer (True, or None when already started). */
  function StartJob(st: Server, id: JobId): (res: (Server, Option<bool>))
    ensures id !in st.jobs ==> res == (st, Some(false))
    ensures id in st.jobs ==>
      && res.0 == st.(jobs := st.jobs[id := J.Start(st.jobs[id]).0])
      && res.1 == J.Start(st.jobs[id]).1
      && J.IsStarted(res.0.jobs[id])
    ensures res.1 == Some(true) <==> id in st.jobs && !J.IsStarted(st.jobs[id])
  {
    if id !in st.jobs then (st, Some(false))
    else
      var (j, ret) := J.Start(st.jobs[id]);
      (st.(jobs := st.jobs[id := j]), ret)
  }

  /** job_add_stager: False and no change for an unknown job. */
  function JobAddStager(st: Server, id: JobId, s: Peer): (res: (Server, bool))
    ensures res.1 <==> id in st.jobs
    ensures !res.1 ==> res.0 == st
    ensures res.1 ==> res.0 == st.(jobs := st.jobs[id := J.AddStager(st.jobs[id], s)]) && s in res.0.jobs[id].stager
  {
    if id !in st.jobs then (st, false)
    else (st.(jobs := st.jobs[id := J.AddStager(st.jobs[id], s)]), true)
  }

  /** job_add_url: False and no change for an unknown job. */
  function JobAddUrl(st: Server, s: Peer, id: JobId, url: Url): (res: (Server, bool))
    ensures res.1 <==> id in st.jobs
    ensures !res.1 ==> res.0 == st
    ensures res.1 ==>
      && res.0 == st.(jobs := st.jobs[id := J.AddUrl(st.jobs[id], s, url)])
      && res.0.jobs[id].urls[url] == s
      && J.ArchivedUrl(res.0.jobs[id], url)
  {
    if id !in st.jobs then (st, false)
    else (st.(jobs := st.jobs[id := J.AddUrl(st.jobs[id], s, url)]), true)
  }

  /** _command_pong. */
  function CommandPong(st: Server, env: Env, s: Peer): (res: (Server, seq<Msg>))
    requires s in st.reg.nodes
    ensures res.0 == st.(reg := res.0.reg)
    ensures res.0.reg.order == st.reg.order && res.0.reg.nodes.Keys == st.reg.nodes.Keys
    ensures res.0.reg.nextSocket == st.reg.nextSocket && res.0.reg.lastStagerRequest == st.reg.lastStagerRequest
    ensures !st.reg.nodes[s].pong ==>
      res == (st.(reg := st.reg.(nodes := st.reg.nodes[s := Node(true, st.reg.nodes[s].confirmed)])), [])
    ensures st.reg.nodes[s].pong ==>
      && (res.1 != [] <==> env.elapsed(st.reg.lastPing, st.cfg.pingTime))
      && (res.1 == [] ==> res.0 == st)
      && (res.1 != [] ==> res.1 == [Msg(st.reg.order, PingMsg)] && res.0.reg.lastPing == env.now)
      && (res.1 != [] ==> res.0.reg.nodes == R.ClearPongs(st.reg.nodes))
  {
    var (reg, out) := R.Pong(st.reg, st.cfg, env, s);
    (st.(reg := reg), out)
  }

  /** _command_confirmed. */
  function CommandConfirmed(st: Server, s: Peer, stage: int): (res: (Server, seq<Msg>))
    requires s in st.reg.nodes
    ensures res.0 == st.(reg := res.0.reg)
    ensures res.0.reg == st.reg.(nodes := res.0.reg.nodes)
    ensures res.0.reg.nodes.Keys == st.reg.nodes.Keys && res.0.reg.nodes[s].confirmed
    ensures res.0.reg.nodes[s].pong == st.reg.nodes[s].pong
    ensures forall p | p in st.reg.nodes && p != s :: res.0.reg.nodes[p] == st.reg.nodes[p]
    ensures res.1 == if stage == 0 then [Msg([s], Confirmed(1))] else []
  {
    var (reg, out) := R.ConfirmHandshake(st.reg, s, stage);
    (st.(reg := reg), out)
  }

  /** _command_assigned_url_quota: passes the amount to the job (an unknown
      job raises KeyError); the quota selection key is unchanged. */
  function CommandAssignedUrlQuota(st: Server, id: JobId, amount: int, now: Time): (r: Server)
    requires id in st.jobs
    ensures r.jobs.Keys == st.jobs.Keys
    ensures forall k | k in r.jobs :: r.jobs[k].receivedUrlQuota == st.jobs[k].receivedUrlQuota
    ensures r.jobs[id].engine.calls == st.jobs[id].engine.calls + [J.EngineIncreaseQuota(amount)]
    ensures r.jobs[id] == st.jobs[id].(privateQuotaStamp := Some(now), engine := r.jobs[id].engine)
    ensures r.jobs[id].engine.ident == st.jobs[id].engine.ident
    ensures r == st.(jobs := st.jobs[id := r.jobs[id]])
  {
    st.(jobs := st.jobs[id := J.IncreaseUrlQuota(st.jobs[id], amount, now)])
  }

  /** _command_new_job_crawl: creates the job if needed, adds the sender as
      one of its stagers and always acknowledges. */
  function CommandNewJobCrawl(st: Server, s: Peer, id: JobId, now: Time, stored: set<Url>): (res: (Server, seq<Msg>))
    ensures id in res.0.jobs && s in res.0.jobs[id].stager
    ensures res.1 == [Msg([s], JobCrawlConfirmed(id))]
    ensures res.0.jobs.Keys == st.jobs.Keys + {id}
    ensures forall k | k in st.jobs && k != id :: res.0.jobs[k] == st.jobs[k]
    ensures id in st.jobs ==> res.0.jobs[id] == J.AddStager(st.jobs[id], s)
    ensures id !in st.jobs ==> res.0.jobs[id] == J.NewJob(id, now, stored).(stager := [s])
    ensures res.0 == st.(jobs := res.0.jobs)
  {
    var st1 := CreateJob(st, id, now, stored);
    var (st2, _) := JobAddStager(st1, id, s);
    (st2, [Msg([s], JobCrawlConfirmed(id))])
  }

  /** A repeated NEW_JOB_CRAWL from the same stager changes nothing more and
      is acknowledged again. */
  lemma NewJobCrawlIdempotent(st: Server, s: Peer, id: JobId, t1: Time, t2: Time, s1: set<Url>, s2: set<Url>)
    ensures var first := CommandNewJobCrawl(st, s, id, t1, s1);
            var second := CommandNewJobCrawl(first.0, s, id, t2, s2);
            second.0 == first.0 && second.1 == first.1
  {
  }

  /** _command_job_url_crawl: adds the URL under the sender when the job is
      known, ignores it otherwise; writes nothing. */
  function CommandJobUrlCrawl(st: Server, s: Peer, id: JobId, url: Url): (r: Server)
    ensures r.jobs.Keys == st.jobs.Keys
    ensures id !in st.jobs ==> r == st
    ensures id in st.jobs ==> url in r.jobs[id].urls && r.jobs[id].urls[url] == s && J.ArchivedUrl(r.jobs[id], url)
    ensures id in st.jobs ==> r == st.(jobs := st.jobs[id := J.AddUrl(st.jobs[id], s, url)])
  {
    JobAddUrl(st, s, id, url).0
  }

  /** _command_job_start_crawl: starts the job if known and not started and
      always acknowledges. */
  function CommandJobStartCrawl(st: Server, s: Peer, id: JobId): (res: (Server, seq<Msg>))
    ensures res.1 == [Msg([s], JobStartedCrawl(id))]
    ensures res.0.jobs.Keys == st.jobs.Keys
    ensures id !in st.jobs ==> res.0 == st
    ensures id in st.jobs ==> J.IsStarted(res.0.jobs[id])
    ensures id in st.jobs && J.IsStarted(st.jobs[id]) ==> res.0 == st
    ensures id in st.jobs ==> res.0 == st.(jobs := st.jobs[id := J.Start(st.jobs[id]).0])
    ensures id in st.jobs && !J.IsStarted(st.jobs[id]) ==>
      res.0.jobs[id].engine.calls == st.jobs[id].engine.calls + [J.EngineStart]
  {
    (StartJob(st, id).0, [Msg([s], JobStartedCrawl(id))])
  }

  /** _command_warc_file_received: forgets the pending file and deletes the
      file and its in-flight marker. Each step raises when its target is
      missing, hence the requirements. */
  function CommandWarcFileReceived(st: Server, id: JobId, path: Path): (r: Server)
    requires (id, path) in st.filenames
    requires path in st.permissions
    requires path in st.files && Marker(path) in st.files
    ensures r.filenames == st.filenames - {(id, path)}
    ensures r.permissions.Keys == st.permissions.Keys - {path}
    ensures forall p | p in r.permissions :: r.permissions[p] == st.permissions[p]
    ensures r.files == st.files - {path, Marker(path)}
    ensures r == st.(filenames := r.filenames, permissions := r.permissions, files := r.files)
  {
    st.(filenames := st.filenames - {(id, path)},
        permissions := st.permissions - {path},
        files := st.files - {path} - {Marker(path)})
  }

  /** _command_add_stager: adds the announced stager as an extra one. */
  function CommandAddStager(st: Server, listener: Address): (res: (Server, seq<Msg>))
    ensures R.Known(res.0.reg, listener)
    ensures R.Known(st.reg, listener) ==> res == (st, [])
    ensures !R.Known(st.reg, listener) ==>
      && |res.0.reg.nodes| == |st.reg.nodes| + 1
      && |res.0.reg.order| == |st.reg.order| + 1
      && res.0.reg.order[..|st.reg.order|] == st.reg.order
      && res.0.reg.order[|st.reg.order|].listener == listener
      && res.0.reg.order[|st.reg.order|] !in st.reg.nodes
      && res.1 == [Msg([res.0.reg.order[|st.reg.order|]], Announce(true, st.address))]
      && res.0.reg.nodes == st.reg.nodes[res.0.reg.order[|st.reg.order|] := st.cfg.newNode]
    ensures res.0.reg.lastPing == st.reg.lastPing && res.0.reg.lastStagerRequest == st.reg.lastStagerRequest
    ensures res.0 == st.(reg := res.0.reg)
  {
    var (reg, out, _) := R.AddStager(st.reg, st.cfg, st.address, listener, true);
    (st.(reg := reg), out)
  }

  /** _command_upload_permission_granted: the lookup creates an entry for an
      unknown path; a grant for a file not yet requested is refused (False)
      and not recorded, otherwise it is recorded with the current time. */
  function CommandUploadPermissionGranted(st: Server, s: Peer, path: Path, now: Time): (res: (Server, bool))
    ensures path in res.0.permissions
    ensures res.0.permissions.Keys == st.permissions.Keys + {path}
    ensures forall p | p in st.permissions && p != path :: res.0.permissions[p] == st.permissions[p]
    ensures res.1 <==> path in st.permissions && st.permissions[path].requested
    ensures !res.1 ==> res.0.permissions[path] == W.NewWarcFile(path) || res.0.permissions == st.permissions
    ensures !res.1 ==> res.0.permissions[path].granted == (if path in st.permissions then st.permissions[path].granted else [])
    ensures res.1 ==> res.0.permissions[path] == W.Granted(st.permissions[path], s, now)
    ensures res.0 == st.(permissions := res.0.permissions)
  {
    var (perms, w) := W.Lookup(st.permissions, path);
    if !w.requested then (st.(permissions := perms), false)
    else (st.(permissions := perms[path := W.Granted(w, s, now)]), true)
  }

  /** A step that only touches the registry flags keeps the coordinator
      valid. */
  lemma RegistryFlagsPreserveValid(st: Server, reg: R.Registry)
    requires Valid(st)
    requires reg.order == st.reg.order && reg.nodes.Keys == st.reg.nodes.Keys
    ensures Valid(st.(reg := reg))
  {
    R.FlagsOnlyPreserveValid(st.reg, reg);
  }

  /** The registry commands keep the coordinator valid. */
  lemma StagerCommandsPreserveValid(st: Server, env: Env, s: Peer, stage: int, listener: Address)
    requires Valid(st)
    ensures s in st.reg.nodes ==> Valid(CommandPong(st, env, s).0)
    ensures s in st.reg.nodes ==> Valid(CommandConfirmed(st, s, stage).0)
    ensures Valid(CommandAddStager(st, listener).0)
  {
    if s in st.reg.nodes {
      RegistryFlagsPreserveValid(st, CommandPong(st, env, s).0.reg);
      RegistryFlagsPreserveValid(st, CommandConfirmed(st, s, stage).0.reg);
    }
    R.AddStagerPreservesWellFormed(st.reg, st.cfg, st.address, listener, true);
    var r := CommandAddStager(st, listener).0;
    assert r.jobs == st.jobs && r.permissions == st.permissions;
  }

  /** A step that replaces one job by a valid one keeps the coordinator
      valid. */
  lemma JobUpdatePreservesValid(st: Server, id: JobId, j: J.Job)
    requires Valid(st)
    requires j.id == id && |j.stager| > 0 && Distinct(j.stager)
    ensures Valid(st.(jobs := st.jobs[id := j]))
  {
  }

  /** The job commands keep the coordinator valid; in particular a job
      created by NEW_JOB_CRAWL always has its announcing stager. */
  lemma JobCommandsPreserveValid(st: Server, env: Env, s: Peer, id: JobId, url: Url, amount: int, stored: set<Url>)
    requires Valid(st)
    ensures id in st.jobs ==> Valid(CommandAssignedUrlQuota(st, id, amount, env.now))
    ensures Valid(CommandNewJobCrawl(st, s, id, env.now, stored).0)
    ensures Valid(CommandJobUrlCrawl(st, s, id, url))
    ensures Valid(CommandJobStartCrawl(st, s, id).0)
  {
    if id in st.jobs {
      JobUpdatePreservesValid(st, id, J.IncreaseUrlQuota(st.jobs[id], amount, env.now));
      JobUpdatePreservesValid(st, id, J.AddUrl(st.jobs[id], s, url));
      JobUpdatePreservesValid(st, id, J.Start(st.jobs[id]).0);
      JobUpdatePreservesValid(st, id, J.AddStager(st.jobs[id], s));
    } else {
      var j := J.AddStager(J.NewJob(id, env.now, stored), s);
      assert j.stager == [s];
      JobUpdatePreservesValid(st, id, j);
      assert CommandNewJobCrawl(st, s, id, env.now, stored).0 == st.(jobs := st.jobs[id := j]);
    }
  }

  /** The upload commands keep the coordinator valid. */
  lemma UploadCommandsPreserveValid(st: Server, s: Peer, id: JobId, path: Path, now: Time)
    requires Valid(st)
    ensures (id, path) in st.filenames && path in st.permissions && path in st.files && Marker(path) in st.files
            ==> Valid(CommandWarcFileReceived(st, id, path))
    ensures Valid(CommandUploadPermissionGranted(st, s, path, now).0)
  {
  }
}

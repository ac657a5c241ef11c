/** CrawlerServerJob (webarchiver/server/job/crawler.py): the crawler-side
    record of one job, with its stager list, URL ownership map, started flag
    and per-job URL deduplication database. */
module CrawlerJob {
  import opened Types

  /** The calls this record makes on the inner crawl engine
      (webarchiver.job.Job), whose own behaviour is not part of this model. */
  datatype EngineCall = EngineAddUrl(url: Url) | EngineIncreaseQuota(amount: int) | EngineStart

  /** The inner crawl engine as seen from here: whether it reports a running
      thread (`ident`) and the calls made on it so far. */
  datatype Engine = Engine(ident: bool, calls: seq<EngineCall>)

  /** `receivedUrlQuota` is the attribute set at construction and read by the
      quota selection; `privateQuotaStamp` is the separate underscore
      attribute that increase_url_quota writes (None until first written).
      `db` is the deduplication database as a set of URLs. */
  datatype Job = Job(
    id: JobId,
    stager: seq<Peer>,
    started: bool,
    receivedUrlQuota: Time,
    privateQuotaStamp: Option<Time>,
    urls: map<Url, Peer>,
    dbName: string,
    db: set<Url>,
    engine: Engine)

  /** A new job. `stored` is what the database named after the job already
      holds on disk (it survives restarts). */
  function NewJob(id: JobId, now: Time, stored: set<Url>): (j: Job)
    ensures j.id == id && j.stager == [] && !j.started && j.urls == map[]
    ensures j.receivedUrlQuota == now && j.privateQuotaStamp == None
    ensures j.dbName == "crawler_" + id && j.db == stored
    ensures !IsStarted(j) && j.engine.calls == []
  {
    Job(id, [], false, now, None, map[], "crawler_" + id, stored, Engine(false, []))
  }

  /** add_stager: appends a stager not yet in the list; the list never holds
      a stager twice and keeps its earlier order. */
  function AddStager(j: Job, s: Peer): (r: Job)
    ensures s in r.stager
    ensures s in j.stager ==> r == j
    ensures s !in j.stager ==> r.stager == j.stager + [s]
    ensures Distinct(j.stager) ==> Distinct(r.stager)
    ensures r == j.(stager := r.stager)
  {
    if s in j.stager then j else j.(stager := j.stager + [s])
  }

  /** Adding the same stager twice leaves the job as adding it once. */
  lemma AddStagerIdempotent(j: Job, s: Peer)
    ensures AddStager(AddStager(j, s), s) == AddStager(j, s)
  {
  }

  /** finished_url: records the URL in the deduplication database; returns
      nothing. */
  function FinishedUrl(j: Job, url: Url): (r: Job)
    ensures ArchivedUrl(r, url)
    ensures r.db == j.db + {url}
    ensures r == j.(db := r.db)
  {
    j.(db := j.db + {url})
  }

  /** archived_url: whether the database holds the URL. */
  predicate ArchivedUrl(j: Job, url: Url)
  {
    url in j.db
  }

  /** Recording a URL as finished makes exactly that URL newly archived, and
      recording it again changes nothing. */
  lemma FinishedUrlArchives(j: Job, url: Url, other: Url)
    ensures ArchivedUrl(FinishedUrl(j, url), other) <==> other == url || ArchivedUrl(j, other)
    ensures FinishedUrl(FinishedUrl(j, url), url) == FinishedUrl(j, url)
    ensures ArchivedUrl(j, url) ==> FinishedUrl(j, url) == j
  {
  }

  /** add_url as written: its guard calls finished_url, which returns None,
      so the guard never holds; every call records the URL in the database,
      makes `s` its owner (replacing any earlier owner) and hands the URL to
      the crawl engine. */
  function AddUrl(j: Job, s: Peer, url: Url): (r: Job)
    ensures ArchivedUrl(r, url)
    ensures r.db == j.db + {url}
    ensures url in r.urls && r.urls[url] == s
    ensures forall u | u != url :: (u in r.urls <==> u in j.urls) && (u in j.urls ==> r.urls[u] == j.urls[u])
    ensures r.engine == j.engine.(calls := j.engine.calls + [EngineAddUrl(url)])
    ensures r == j.(db := r.db, urls := r.urls, engine := r.engine)
  {
    var j1 := FinishedUrl(j, url);   // `if self.finished_url(url)`: None, falsy
    j1.(urls := j1.urls[url := s], engine := j1.engine.(calls := j1.engine.calls + [EngineAddUrl(url)]))
  }

  /** The guard of add_url protects nothing: a URL already archived is still
      taken over by the new owner and crawled again. */
  lemma AddUrlIgnoresArchive(j: Job, s: Peer, url: Url)
    requires ArchivedUrl(j, url)
    ensures AddUrl(j, s, url).urls == j.urls[url := s]
    ensures |AddUrl(j, s, url).engine.calls| == |j.engine.calls| + 1
  {
  }

  /** add_url twice with the same owner: the owner map and database are as
      after one call; only the engine is handed the URL a second time. */
  lemma AddUrlTwice(j: Job, s: Peer, url: Url)
    ensures var once := AddUrl(j, s, url);
            var twice := AddUrl(once, s, url);
            twice.urls == once.urls && twice.db == once.db
            && twice.engine.calls == once.engine.calls + [EngineAddUrl(url)]
  {
  }

  /** increase_url_quota: stamps the underscore attribute and passes the
      amount to the engine. The attribute the quota selection reads is left
      as it was. */
  function IncreaseUrlQuota(j: Job, amount: int, now: Time): (r: Job)
    ensures r.receivedUrlQuota == j.receivedUrlQuota
    ensures r.privateQuotaStamp == Some(now)
    ensures r.engine.calls == j.engine.calls + [EngineIncreaseQuota(amount)]
    ensures r == j.(privateQuotaStamp := r.privateQuotaStamp, engine := r.engine)
  {
    j.(privateQuotaStamp := Some(now), engine := j.engine.(calls := j.engine.calls + [EngineIncreaseQuota(amount)]))
  }

  /** get_url_stager: the owner of a URL (a missing URL raises KeyError). */
  function GetUrlStager(j: Job, url: Url): (s: Peer)
    requires url in j.urls
    ensures s in j.urls.Values
    ensures DeleteUrlStager(j, url).urls[url := s] == j.urls
  {
    j.urls[url]
  }

  /** The owner get_url_stager reports is the stager that last sent the URL
      through add_url; the owners of other URLs are not affected. */
  lemma UrlStagerIsLastSender(j: Job, s: Peer, url: Url, other: Url)
    requires other != url && other in j.urls
    ensures GetUrlStager(AddUrl(j, s, url), url) == s
    ensures GetUrlStager(AddUrl(j, s, url), other) == GetUrlStager(j, other)
    ensures url !in DeleteUrlStager(AddUrl(j, s, url), url).urls
  {
  }

  /** delete_url_stager: forgets the owner of exactly that URL (a missing URL
      raises KeyError). */
  function DeleteUrlStager(j: Job, url: Url): (r: Job)
    requires url in j.urls
    ensures url !in r.urls
    ensures r.urls.Keys == j.urls.Keys - {url}
    ensures forall u | u in r.urls :: r.urls[u] == j.urls[u]
    ensures r == j.(urls := r.urls)
  {
    j.(urls := j.urls - {url})
  }

  /** is_started: explicitly started, or the engine already runs a thread. */
  predicate IsStarted(j: Job)
  {
    j.started || j.engine.ident
  }

  /** start: a started job answers None and is left alone; otherwise the
      engine is started once, the job is marked started and True returned. */
  function Start(j: Job): (res: (Job, Option<bool>))
    ensures IsStarted(j) ==> res == (j, None)
    ensures !IsStarted(j) ==>
      && res.1 == Some(true)
      && res.0 == j.(started := true, engine := res.0.engine)
      && res.0.engine == j.engine.(calls := j.engine.calls + [EngineStart])
    ensures IsStarted(res.0)
  {
    if IsStarted(j) then (j, None)
    else (j.(started := true, engine := j.engine.(calls := j.engine.calls + [EngineStart])), Some(true))
  }

  /** A job is started at most once: a second start answers None and
      changes nothing, and the engine sees at most one start per two calls. */
  lemma StartOnce(j: Job)
    ensures var first := Start(j);
            var second := Start(first.0);
            second == (first.0, None)
            && |first.0.engine.calls| <= |j.engine.calls| + 1
  {
  }

  /** The quota selection key never moves: however many quota grants a job
      receives, it is still ranked by its creation time. */
  lemma {:induction false} QuotaGrantsKeepRank(j: Job, amounts: seq<int>, times: seq<Time>)
    requires |amounts| == |times|
    decreases |amounts|
    ensures ApplyQuotaGrants(j, amounts, times).receivedUrlQuota == j.receivedUrlQuota
  {
    if amounts != [] {
      QuotaGrantsKeepRank(IncreaseUrlQuota(j, amounts[0], times[0]), amounts[1..], times[1..]);
    }
  }

  /** Quota grants applied in order. */
  function ApplyQuotaGrants(j: Job, amounts: seq<int>, times: seq<Time>): Job
    requires |amounts| == |times|
    decreases |amounts|
  {
    if amounts == [] then j
    else ApplyQuotaGrants(IncreaseUrlQuota(j, amounts[0], times[0]), amounts[1..], times[1..])
  }
}

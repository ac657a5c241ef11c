/** request_url_quota (webarchiver/server/crawler.py): once per quota
    interval, asks one stager of the job ranked lowest by
    `receivedUrlQuota` for more URL quota. */
module Quota {
  import opened Types
  import J = CrawlerJob
  import S = Server

  /** `id` holds the lowest quota stamp among `jobs` (key_lowest_value; ties
      are broken by the helper, which is not part of this model). */
  predicate Lowest(jobs: map<JobId, J.Job>, id: JobId)
  {
    id in jobs && forall k | k in jobs :: jobs[id].receivedUrlQuota <= jobs[k].receivedUrlQuota
  }

  /** Every non-empty job table has a lowest-ranked job. */
  lemma {:induction false} LowestExists(jobs: map<JobId, J.Job>, keys: set<JobId>)
    requires keys <= jobs.Keys && keys != {}
    ensures exists id | id in keys :: forall k | k in keys :: jobs[id].receivedUrlQuota <= jobs[k].receivedUrlQuota
    decreases |keys|
  {
    var x :| x in keys;
    if keys != {x} {
      var rest := keys - {x};
      LowestExists(jobs, rest);
      var m :| m in rest && forall k | k in rest :: jobs[m].receivedUrlQuota <= jobs[k].receivedUrlQuota;
      if jobs[x].receivedUrlQuota <= jobs[m].receivedUrlQuota {
        assert forall k | k in keys :: jobs[x].receivedUrlQuota <= jobs[k].receivedUrlQuota;
      } else {
        assert forall k | k in keys :: jobs[m].receivedUrlQuota <= jobs[k].receivedUrlQuota;
      }
    } else {
      assert forall k | k in keys :: k == x;
    }
  }

  /** request_url_quota: when the quota interval has elapsed the timestamp
      becomes now; with no jobs nothing is sent, otherwise one
      REQUEST_URL_QUOTA for a lowest-ranked job goes to one of its stagers.
      Before the interval has elapsed nothing happens. A lowest-ranked job
      must have a stager (sampling from an empty list raises). */
  method RequestUrlQuota(st: S.Server, env: Env) returns (st': S.Server, out: seq<Msg>)
    requires forall id | Lowest(st.jobs, id) :: |st.jobs[id].stager| > 0
    ensures !env.elapsed(st.lastUrlQuota, st.cfg.urlQuotaTime) ==> st' == st && out == []
    ensures env.elapsed(st.lastUrlQuota, st.cfg.urlQuotaTime) ==> st' == st.(lastUrlQuota := env.now)
    ensures st.jobs == map[] ==> out == []
    ensures out != [] <==> env.elapsed(st.lastUrlQuota, st.cfg.urlQuotaTime) && st.jobs != map[]
    ensures out != [] ==>
      && |out| == 1 && out[0].body.RequestUrlQuotaMsg?
      && Lowest(st.jobs, out[0].body.job)
      && |out[0].to| == 1 && out[0].to[0] in st.jobs[out[0].body.job].stager
  {
    st', out := st, [];
    if env.elapsed(st.lastUrlQuota, st.cfg.urlQuotaTime) {
      st' := st.(lastUrlQuota := env.now);
      if st.jobs != map[] {
        LowestExists(st.jobs, st.jobs.Keys);
        var id :| Lowest(st.jobs, id);
        var stager := st.jobs[id].stager;
        assert stager[0] in stager;
        var p :| p in stager;   // sample(stager, 1)[0]
        out := [Msg([p], RequestUrlQuotaMsg(id))];
      }
    }
  }

  /** A quota grant does not change which jobs rank lowest: selection keeps
      ranking jobs by their creation time. */
  lemma QuotaGrantKeepsRanking(st: S.Server, id: JobId, amount: int, now: Time, k: JobId)
    requires id in st.jobs
    ensures Lowest(S.CommandAssignedUrlQuota(st, id, amount, now).jobs, k) <==> Lowest(st.jobs, k)
  {
  }
}

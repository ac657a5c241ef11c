/** One round of the coordinator (_run_round in
    webarchiver/server/crawler.py): stager request, ping, upload tick, the
    two URL drains and the quota request, in that order, each seeing the
    state the previous one left. */
module Round {
  import opened Types
  import R = Registry
  import J = CrawlerJob
  import S = Server
  import Upload
  import Drains
  import Quota

  /** _run_round: the six periodic steps in order; the messages are those of
      each step in turn. A valid coordinator stays valid, both URL intake
      sets are emptied, pending files stay pending (only a receipt removes
      one), and no job is added, removed or loses a stager. The
      requirements are those of the steps: every intake entry names a known
      job, and a finished URL has an owner. */
  method RunRound(st: S.Server, env: Env, size: Path -> nat) returns (st': S.Server, out: seq<Msg>)
    requires S.Valid(st)
    requires forall e | e in st.filenames :: e.0 in st.jobs
    requires forall e | e in st.finishedUrls :: e.0 in st.jobs && e.1 in st.jobs[e.0].urls
    requires forall e | e in st.foundUrls :: e.0 in st.jobs
    ensures S.Valid(st')
    ensures st'.finishedUrls == {} && st'.foundUrls == {}
    ensures st'.filenames == st.filenames
    ensures st'.jobs.Keys == st.jobs.Keys
    ensures forall id | id in st.jobs :: st'.jobs[id].stager == st.jobs[id].stager
    ensures st'.reg.order == st.reg.order
  {
    var (reg1, out1) := R.RequestStager(st.reg, st.cfg, env);
    var st1 := st.(reg := reg1);
    var (reg2, out2) := R.Ping(st1.reg, st1.cfg, env);
    var st2 := st1.(reg := reg2);
    S.RegistryFlagsPreserveValid(st, reg1);
    S.RegistryFlagsPreserveValid(st1, reg2);
    var st3, out3 := Upload.Upload(st2, env, size);
    var st4, out4 := Drains.FinishUrls(st3);
    var st5, out5 := Drains.FoundUrls(st4);
    st', out := Quota.RequestUrlQuota(st5, env);
    out := out1 + out2 + out3 + out4 + out5 + out;
  }
}

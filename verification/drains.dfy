/** The two URL drains of webarchiver/server/crawler.py: finish_urls reports
    finished URLs to the job's stagers, found_urls forwards discovered URLs
    to one stager of the job. Each drain empties its intake set. */
module Drains {
  import opened Types
  import J = CrawlerJob
  import S = Server

  /** The URLs of job `id` among the finished entries `s`. */
  function Done(s: set<(JobId, Url)>, id: JobId): set<Url>
  {
    set e | e in s && e.0 == id :: e.1
  }

  /** JOB_URL_FINISHED for a finished entry, as the drain writes it: to the
      job's stager list, naming the listener of the URL's owner. */
  function FinishedMsg(st: S.Server, e: (JobId, Url)): Msg
    requires e.0 in st.jobs && e.1 in st.jobs[e.0].urls
  {
    Msg(st.jobs[e.0].stager, JobUrlFinished(e.0, e.1, st.jobs[e.0].urls[e.1].listener))
  }

  /** The jobs after the finished entries `done` have been drained. */
  ghost predicate Drained(st: S.Server, jobs: map<JobId, J.Job>, done: set<(JobId, Url)>)
  {
    && jobs.Keys == st.jobs.Keys
    && forall id | id in st.jobs ::
         jobs[id] == st.jobs[id].(db := st.jobs[id].db + Done(done, id), urls := st.jobs[id].urls - Done(done, id))
  }


  lemma DistinctAppend<T>(s: seq<T>, x: T)
    requires Distinct(s) && x !in s
    ensures Distinct(s + [x])
  {
  }

  /** Draining one more entry (id, url): its URL joins the job's database
      and leaves the owner map. */
  lemma DrainedStep(st: S.Server, jobs: map<JobId, J.Job>, done: set<(JobId, Url)>, id: JobId, url: Url)
    requires Drained(st, jobs, done) && (id, url) !in done
    requires id in st.jobs && url in st.jobs[id].urls
    ensures id in jobs && url in J.FinishedUrl(jobs[id], url).urls
    ensures J.FinishedUrl(jobs[id], url).stager == st.jobs[id].stager
    ensures J.FinishedUrl(jobs[id], url).urls[url] == st.jobs[id].urls[url]
    ensures Drained(st, jobs[id := J.DeleteUrlStager(J.FinishedUrl(jobs[id], url), url)], done + {(id, url)})
  {
    assert url !in Done(done, id);
    assert Done(done + {(id, url)}, id) == Done(done, id) + {url};
    forall k | k != id
      ensures Done(done + {(id, url)}, k) == Done(done, k)
    {
    }
  }

  /** The set of elements of a sequence without repetitions has as many
      elements as the sequence. */
  lemma {:induction false} DistinctCard<T>(s: seq<T>)
    requires Distinct(s)
    ensures |set x | x in s| == |s|
    decreases |s|
  {
    if s != [] {
      var init := s[..|s| - 1];
      assert forall i, k | 0 <= i < k < |init| :: init[i] == s[i] && init[k] == s[k];
      DistinctCard(init);
      assert s == init + [s[|s| - 1]];
      assert s[|s| - 1] !in init;
      assert (set x | x in s) == (set x | x in init) + {s[|s| - 1]};
    }
  }

  /** The JOB_URL_FINISHED messages for entries drained in `order`. */
  function ReportOf(st: S.Server, order: seq<(JobId, Url)>): (out: seq<Msg>)
    requires forall e | e in order :: e.0 in st.jobs && e.1 in st.jobs[e.0].urls
    ensures |out| == |order|
    decreases |order|
  {
    if order == [] then []
    else ReportOf(st, order[..|order| - 1]) + [FinishedMsg(st, order[|order| - 1])]
  }

  /** The report of a drain order names each drained entry once and
      nothing else. */
  lemma {:induction false} ReportOfFacts(st: S.Server, order: seq<(JobId, Url)>)
    requires forall e | e in order :: e.0 in st.jobs && e.1 in st.jobs[e.0].urls
    requires Distinct(order)
    ensures Distinct(ReportOf(st, order))
    ensures forall e | e in order :: FinishedMsg(st, e) in ReportOf(st, order)
    ensures forall m | m in ReportOf(st, order) :: exists e | e in order :: m == FinishedMsg(st, e)
    decreases |order|
  {
    if order != [] {
      var init := order[..|order| - 1];
      var last := order[|order| - 1];
      assert order == init + [last];
      assert forall i, k | 0 <= i < k < |init| :: init[i] == order[i] && init[k] == order[k];
      ReportOfFacts(st, init);
      var prev := ReportOf(st, init);
      assert last !in init;
      forall m | m in prev
        ensures m != FinishedMsg(st, last)
      {
        var d :| d in init && m == FinishedMsg(st, d);
      }
      DistinctAppend(prev, FinishedMsg(st, last));
      forall m | m in ReportOf(st, order)
        ensures exists e | e in order :: m == FinishedMsg(st, e)
      {
        if m != FinishedMsg(st, last) {
          assert m in prev;
          var d :| d in init && m == FinishedMsg(st, d);
          assert d in order;
        }
      }
    }
  }

  lemma ElementsAppend<T>(s: seq<T>, x: T)
    ensures (set y | y in s + [x]) == (set y | y in s) + {x}
  {
  }

  /** The loop invariant of finish_urls: `todo` is still to drain, `order`
      lists the drained entries in the order they were visited. */
  ghost predicate Finishing(st: S.Server, todo: set<(JobId, Url)>, jobs: map<JobId, J.Job>,
                            order: seq<(JobId, Url)>, out: seq<Msg>)
  {
    && (forall e | e in st.finishedUrls :: e.0 in st.jobs && e.1 in st.jobs[e.0].urls)
    && todo <= st.finishedUrls
    && (set x | x in order) == st.finishedUrls - todo
    && Distinct(order)
    && (forall e | e in order :: e in st.finishedUrls)
    && out == ReportOf(st, order)
    && Drained(st, jobs, st.finishedUrls - todo)
  }

  /** The drain order grows by one entry not yet drained. */
  lemma OrderStep(st: S.Server, todo: set<(JobId, Url)>, order: seq<(JobId, Url)>, e: (JobId, Url))
    requires todo <= st.finishedUrls && e in todo
    requires (set x | x in order) == st.finishedUrls - todo && Distinct(order)
    ensures (set x | x in order + [e]) == st.finishedUrls - (todo - {e})
    ensures Distinct(order + [e])
    ensures (order + [e])[..|order|] == order
  {
    assert e !in (set x | x in order);
    ElementsAppend(order, e);
    DistinctAppend(order, e);
  }

  /** One entry drained keeps the invariant; the message written for it is
      its FinishedMsg. */
  lemma FinishStep(st: S.Server, todo: set<(JobId, Url)>, jobs: map<JobId, J.Job>,
                   order: seq<(JobId, Url)>, out: seq<Msg>, e: (JobId, Url))
    requires Finishing(st, todo, jobs, order, out) && e in todo
    ensures e.0 in jobs && e.1 in J.FinishedUrl(jobs[e.0], e.1).urls
    ensures var job := J.FinishedUrl(jobs[e.0], e.1);
            var msg := Msg(job.stager, JobUrlFinished(e.0, e.1, J.GetUrlStager(job, e.1).listener));
            Finishing(st, todo - {e}, jobs[e.0 := J.DeleteUrlStager(job, e.1)], order + [e], out + [msg])
  {
    DrainedStep(st, jobs, st.finishedUrls - todo, e.0, e.1);
    assert (st.finishedUrls - todo) + {e} == st.finishedUrls - (todo - {e});
    OrderStep(st, todo, order, e);
    assert e in st.finishedUrls;
    assert ReportOf(st, order + [e]) == ReportOf(st, order) + [FinishedMsg(st, e)];
  }

  /** finish_urls: every finished entry present at the start is recorded in
      its job's database, its owner is forgotten, and one JOB_URL_FINISHED
      naming the owner's listener goes to the job's stager list; the intake
      set ends empty and nothing else changes. Every entry's job must be
      known and its URL owned (the lookups raise otherwise). */
  method FinishUrls(st: S.Server) returns (st': S.Server, out: seq<Msg>)
    requires forall e | e in st.finishedUrls :: e.0 in st.jobs && e.1 in st.jobs[e.0].urls
    ensures st' == st.(jobs := st'.jobs, finishedUrls := {})
    ensures Drained(st, st'.jobs, st.finishedUrls)
    ensures S.Valid(st) ==> S.Valid(st')
    ensures |out| == |st.finishedUrls| && Distinct(out)
    ensures forall e | e in st.finishedUrls :: FinishedMsg(st, e) in out
    ensures forall m | m in out :: exists e | e in st.finishedUrls :: m == FinishedMsg(st, e)
  {
    var todo := st.finishedUrls;
    var jobs := st.jobs;
    ghost var order: seq<(JobId, Url)> := [];
    out := [];
    while todo != {}
      invariant Finishing(st, todo, jobs, order, out)
      decreases |todo|
    {
      var e :| e in todo;
      FinishStep(st, todo, jobs, order, out, e);
      var job := J.FinishedUrl(jobs[e.0], e.1);
      out := out + [Msg(job.stager, JobUrlFinished(e.0, e.1, J.GetUrlStager(job, e.1).listener))];
      jobs := jobs[e.0 := J.DeleteUrlStager(job, e.1)];
      todo := todo - {e};
      order := order + [e];
    }
    FinishFacts(st, jobs, order, out);
    st' := st.(jobs := jobs, finishedUrls := {});
  }

  /** At the end of the drain: every finished entry is drained, the report
      names each one once, and the coordinator is as valid as before. */
  lemma FinishFacts(st: S.Server, jobs: map<JobId, J.Job>, order: seq<(JobId, Url)>, out: seq<Msg>)
    requires Finishing(st, {}, jobs, order, out)
    ensures Drained(st, jobs, st.finishedUrls)
    ensures S.Valid(st) ==> S.Valid(st.(jobs := jobs, finishedUrls := {}))
    ensures |out| == |st.finishedUrls| && Distinct(out)
    ensures forall e | e in st.finishedUrls :: FinishedMsg(st, e) in out
    ensures forall m | m in out :: exists e | e in st.finishedUrls :: m == FinishedMsg(st, e)
  {
    assert st.finishedUrls - {} == st.finishedUrls;
    ReportOfFacts(st, order);
    DistinctCard(order);
  }

  /** The discovered entries that the drain forwards: those whose URL the
      job's database does not yet hold. */
  function Discoveries(st: S.Server, s: set<(JobId, Url, Url)>): set<(JobId, Url, Url)>
    requires forall e | e in s :: e.0 in st.jobs
  {
    set e | e in s && !J.ArchivedUrl(st.jobs[e.0], e.2)
  }

  /** JOB_URL_DISCOVERED for an entry, sent to one stager `p` of its job. */
  predicate Forwards(st: S.Server, m: Msg, e: (JobId, Url, Url))
    requires e.0 in st.jobs
  {
    m.body == JobUrlDiscovered(e.0, e.1, e.2) && |m.to| == 1 && m.to[0] in st.jobs[e.0].stager
  }

  /** The loop invariant of found_urls: `todo` is still to visit, `order`
      lists the forwarded entries in the order they were visited and
      `out[i]` forwards `order[i]`. */
  ghost predicate Forwarding(st: S.Server, todo: set<(JobId, Url, Url)>, order: seq<(JobId, Url, Url)>,
                             out: seq<Msg>)
  {
    && (forall e | e in st.foundUrls :: e.0 in st.jobs)
    && todo <= st.foundUrls
    && (set x | x in order) == Discoveries(st, st.foundUrls - todo)
    && Distinct(order)
    && |out| == |order|
    && (forall i | 0 <= i < |order| :: order[i].0 in st.jobs && Forwards(st, out[i], order[i]))
  }

  /** Skipping an entry whose URL is archived keeps the invariant. */
  lemma FoundSkipped(st: S.Server, todo: set<(JobId, Url, Url)>, order: seq<(JobId, Url, Url)>, out: seq<Msg>,
                     e: (JobId, Url, Url))
    requires Forwarding(st, todo, order, out) && e in todo
    requires J.ArchivedUrl(st.jobs[e.0], e.2)
    ensures Forwarding(st, todo - {e}, order, out)
  {
    var done := st.foundUrls - todo;
    assert st.foundUrls - (todo - {e}) == done + {e};
    assert Discoveries(st, done + {e}) == Discoveries(st, done);
  }

  /** Forwarding an entry whose URL is not archived to a stager `p` of its
      job keeps the invariant. */
  lemma FoundForwarded(st: S.Server, todo: set<(JobId, Url, Url)>, order: seq<(JobId, Url, Url)>, out: seq<Msg>,
                       e: (JobId, Url, Url), p: Peer)
    requires Forwarding(st, todo, order, out) && e in todo
    requires !J.ArchivedUrl(st.jobs[e.0], e.2) && p in st.jobs[e.0].stager
    ensures Forwarding(st, todo - {e}, order + [e], out + [Msg([p], JobUrlDiscovered(e.0, e.1, e.2))])
  {
    var done := st.foundUrls - todo;
    assert st.foundUrls - (todo - {e}) == done + {e};
    assert Discoveries(st, done + {e}) == Discoveries(st, done) + {e};
    assert e !in (set x | x in order);
    ElementsAppend(order, e);
    DistinctAppend(order, e);
  }

  /** At the end of the drain: one message per forwarded entry, none for an
      archived one. */
  lemma FoundFacts(st: S.Server, order: seq<(JobId, Url, Url)>, out: seq<Msg>)
    requires Forwarding(st, {}, order, out)
    ensures |out| == |Discoveries(st, st.foundUrls)| && Distinct(out)
    ensures forall e | e in Discoveries(st, st.foundUrls) :: exists m | m in out :: Forwards(st, m, e)
    ensures forall m | m in out :: exists e | e in Discoveries(st, st.foundUrls) :: Forwards(st, m, e)
    ensures forall e, m | e in st.foundUrls && J.ArchivedUrl(st.jobs[e.0], e.2) && m in out ::
              m.body != JobUrlDiscovered(e.0, e.1, e.2)
  {
    assert st.foundUrls - {} == st.foundUrls;
    DistinctCard(order);
    forall i, k | 0 <= i < k < |out|
      ensures out[i] != out[k]
    {
      assert out[i].body == JobUrlDiscovered(order[i].0, order[i].1, order[i].2);
      assert out[k].body == JobUrlDiscovered(order[k].0, order[k].1, order[k].2);
    }
    forall e | e in Discoveries(st, st.foundUrls)
      ensures exists m | m in out :: Forwards(st, m, e)
    {
      var i :| 0 <= i < |order| && order[i] == e;
      assert Forwards(st, out[i], e);
    }
    forall m | m in out
      ensures exists e | e in Discoveries(st, st.foundUrls) :: Forwards(st, m, e)
    {
      var i :| 0 <= i < |out| && out[i] == m;
      assert order[i] in (set x | x in order);
    }
    forall e, m | e in st.foundUrls && J.ArchivedUrl(st.jobs[e.0], e.2) && m in out
      ensures m.body != JobUrlDiscovered(e.0, e.1, e.2)
    {
      var i :| 0 <= i < |out| && out[i] == m;
      assert order[i] in (set x | x in order);
    }
  }

  /** found_urls: every discovered entry present at the start leaves the
      intake set; an entry whose URL is already archived is dropped
      silently, every other one is forwarded by exactly one
      JOB_URL_DISCOVERED to one stager of its job. Nothing else changes.
      Every entry's job must be known, and a job with an entry to forward
      must have a stager (sampling from an empty list raises). */
  method FoundUrls(st: S.Server) returns (st': S.Server, out: seq<Msg>)
    requires forall e | e in st.foundUrls :: e.0 in st.jobs
    requires forall e | e in st.foundUrls && !J.ArchivedUrl(st.jobs[e.0], e.2) :: |st.jobs[e.0].stager| > 0
    ensures st' == st.(foundUrls := {})
    ensures |out| == |Discoveries(st, st.foundUrls)| && Distinct(out)
    ensures forall e | e in Discoveries(st, st.foundUrls) :: exists m | m in out :: Forwards(st, m, e)
    ensures forall m | m in out :: exists e | e in Discoveries(st, st.foundUrls) :: Forwards(st, m, e)
    ensures forall e, m | e in st.foundUrls && J.ArchivedUrl(st.jobs[e.0], e.2) && m in out ::
              m.body != JobUrlDiscovered(e.0, e.1, e.2)
  {
    var todo := st.foundUrls;
    ghost var order: seq<(JobId, Url, Url)> := [];
    out := [];
    assert st.foundUrls - todo == {};
    while todo != {}
      invariant Forwarding(st, todo, order, out)
      decreases |todo|
    {
      var e :| e in todo;
      var (id, parent, url) := e;
      if J.ArchivedUrl(st.jobs[id], url) {
        FoundSkipped(st, todo, order, out, e);
      } else {
        assert st.jobs[id].stager[0] in st.jobs[id].stager;
        var p :| p in st.jobs[id].stager;   // sample(stager, 1)[0]
        FoundForwarded(st, todo, order, out, e, p);
        out := out + [Msg([p], JobUrlDiscovered(id, parent, url))];
        order := order + [e];
      }
      todo := todo - {e};
    }
    FoundFacts(st, order, out);
    st' := st.(foundUrls := {});
  }
}

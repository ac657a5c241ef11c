/** The upload tick (upload, upload_warc in webarchiver/server/crawler.py):
    each pending archive file is first announced with a permission request;
    later ticks drop it when nobody granted, or revoke the grants and send it
    to the chosen stager. */
module Upload {
  import opened Types
  import J = CrawlerJob
  import W = Warc
  import S = Server

  /** upload_warc: unless the in-flight marker exists, creates it and sends
      the file; the boolean is the True/False result. */
  function UploadWarc(files: set<Path>, to: seq<Peer>, job: JobId, path: Path): (res: (set<Path>, seq<Msg>, bool))
    ensures res.2 <==> S.Marker(path) !in files
    ensures !res.2 ==> res.0 == files && res.1 == []
    ensures res.2 ==> res.0 == files + {S.Marker(path)} && res.1 == [Msg(to, WarcFileMsg(job, path))]
  {
    if S.Marker(path) in files then (files, [], false)
    else (files + {S.Marker(path)}, [Msg(to, WarcFileMsg(job, path))], true)
  }

  /** A second transfer attempt for the same path is refused and sends
      nothing, whoever the target is. */
  lemma UploadWarcOnce(files: set<Path>, to1: seq<Peer>, to2: seq<Peer>, job: JobId, path: Path)
    ensures var first := UploadWarc(files, to1, job, path);
            var second := UploadWarc(first.0, to2, job, path);
            !second.2 && second.1 == [] && second.0 == first.0
  {
  }

  /** The sockets a chosen value addresses: the sample list. The other two
      values are not sockets; the model sends to nobody for them (see
      DecisionIsAStager for why that case does not arise). */
  function Targets(c: W.Choice): seq<Peer>
  {
    if c.Picked? then c.sample else []
  }

  /** The archive path an upload message is about. */
  function PathOf(b: Body): Option<Path>
  {
    match b
    case RequestUploadPermission(_, p, _) => Some(p)
    case RequestUploadRevoke(_, p) => Some(p)
    case WarcFileMsg(_, p) => Some(p)
    case _ => None
  }

  /** The messages of `out` about `path`, in order. */
  function About(out: seq<Msg>, path: Path): (r: seq<Msg>)
    ensures |r| <= |out|
    ensures forall m | m in r :: m in out && PathOf(m.body) == Some(path)
  {
    if out == [] then []
    else (if PathOf(out[0].body) == Some(path) then [out[0]] else []) + About(out[1..], path)
  }

  lemma {:induction false} AboutAppend(a: seq<Msg>, b: seq<Msg>, path: Path)
    ensures About(a + b, path) == About(a, path) + About(b, path)
    decreases |a|
  {
    if a == [] {
      assert a + b == b;
    } else {
      assert (a + b)[0] == a[0];
      assert (a + b)[1..] == a[1..] + b;
      AboutAppend(a[1..], b, path);
    }
  }

  lemma {:induction false} AboutOnly(out: seq<Msg>, path: Path, other: Path)
    requires forall m | m in out :: PathOf(m.body) == Some(path)
    ensures About(out, path) == out
    ensures other != path ==> About(out, other) == []
    decreases |out|
  {
    if out != [] {
      assert forall m | m in out[1..] :: m in out;
      AboutOnly(out[1..], path, other);
    }
  }

  predicate IsRevoke(m: Msg)
  {
    m.body.RequestUploadRevoke?
  }

  predicate IsTransfer(m: Msg)
  {
    m.body.WarcFileMsg?
  }

  predicate IsPermissionRequest(m: Msg)
  {
    m.body.RequestUploadPermission?
  }

  /** What one loop iteration leaves for a path: its permission entry (None
      when deleted), the files on disk and the messages written. */
  datatype FileStep = FileStep(entry: Option<W.WarcFile>, files: set<Path>, out: seq<Msg>)

  function Current(perms: map<Path, W.WarcFile>, path: Path): Option<W.WarcFile>
  {
    if path in perms then Some(perms[path]) else None
  }

  /** The revoke branch of upload: REQUEST_UPLOAD_REVOKE to to_revoke, mark
      revoked, then upload_warc to the value `chosen` reads as. */
  function RevokeAndSend(w: W.WarcFile, files: set<Path>, job: JobId, path: Path, env: Env, window: int): (r: FileStep)
    ensures r.entry.Some? && r.entry.value.revoked
    ensures r.entry.value == w.(revoked := true, lastAnswer := r.entry.value.lastAnswer, memo := r.entry.value.memo)
    ensures W.Valid(w) && w.requested ==> W.Valid(r.entry.value)
    ensures |r.out| >= 1 && r.out[0] == Msg(w.granted, RequestUploadRevoke(job, path))
    ensures |r.out| <= 2 && (|r.out| == 2 <==> S.Marker(path) !in files)
    ensures |r.out| == 2 ==> r.out[1].body == WarcFileMsg(job, path)
    ensures W.Valid(w) && w.memo.Some? && |r.out| == 2 ==> r.out[1].to == w.memo.value
    ensures W.Valid(w) && |r.out| == 2 ==> r.out[1].to == [] || (|r.out[1].to| == 1 && r.out[1].to[0] in w.granted)
    ensures r.files == files + {S.Marker(path)}
  {
    var (w3, revokeTo) := W.ToRevoke(w, env, window);
    var (w5, c3) := W.ReadChosen(w3.(revoked := true), env, window);
    var (files', sent, _) := UploadWarc(files, Targets(c3), job, path);
    FileStep(Some(w5), files', [Msg(revokeTo, RequestUploadRevoke(job, path))] + sent)
  }

  /** The branches of upload for a file already requested: drop it when
      `chosen` reads False, revoke and send when the second read gives a
      value and the file is not yet revoked, otherwise wait. */
  function Progress(w: W.WarcFile, files: set<Path>, job: JobId, path: Path, env: Env, window: int): (r: FileStep)
    ensures r.entry.None? <==>
      w.memo.None? && w.lastAnswer != 0 && env.elapsed(w.lastAnswer, window) && w.granted == []
    ensures r.entry.Some? ==> r.entry.value.granted == w.granted && r.entry.value.path == w.path
                              && r.entry.value.requested == w.requested
    ensures w.revoked ==> r.out == [] && r.files == files
    ensures !(r.entry.Some? && r.entry.value.revoked && !w.revoked) ==> r.out == [] && r.files == files
  {
    var (w1, c1) := W.ReadChosen(w, env, window);           // `chosen is False`
    if c1.Rejected? then FileStep(None, files, [])
    else
      var (w2, c2) := W.ReadChosen(w1, env, window);        // `chosen is not None`
      if c2.Undecided? || w2.revoked then FileStep(Some(w2), files, [])
      else RevokeAndSend(w2, files, job, path, env, window)
  }

  /** One iteration of upload's loop for the pending file (job, path), with
      `current` its permission entry (the lookup creates one when missing),
      `stager` the job's stager list and `size` the file's size. Every read
      of `chosen` is a separate step: the drop test, the revoke test, one per
      element inside to_revoke and the transfer target. */
  function UploadFile(current: Option<W.WarcFile>, files: set<Path>, stager: seq<Peer>, job: JobId,
                      path: Path, env: Env, window: int, size: nat): (r: FileStep)
    ensures forall m | m in r.out :: PathOf(m.body) == Some(path)
    ensures files <= r.files && r.files <= files + {S.Marker(path)}
    ensures (current.None? || !current.value.requested) ==>
      && r.out == [Msg(stager, RequestUploadPermission(job, path, size))]
      && r.files == files
      && r.entry == Some((if current.Some? then current.value else W.NewWarcFile(path)).(requested := true))
  {
    var w := if current.Some? then current.value else W.NewWarcFile(path);
    if !w.requested then
      FileStep(Some(w.(requested := true)), files, [Msg(stager, RequestUploadPermission(job, path, size))])
    else
      Progress(w, files, job, path, env, window)
  }

  /** A requested file never asks for permission again, keeps its grants and
      its path, and stays valid. */
  lemma RequestedFileKeepsGrants(w: W.WarcFile, files: set<Path>, stager: seq<Peer>, job: JobId,
                                 path: Path, env: Env, window: int, size: nat)
    requires w.requested
    ensures var r := UploadFile(Some(w), files, stager, job, path, env, window, size);
            && (forall m | m in r.out :: !IsPermissionRequest(m))
            && (r.entry.Some? ==> r.entry.value.requested && r.entry.value.granted == w.granted
                                  && r.entry.value.path == w.path)
            && (W.Valid(w) && r.entry.Some? ==> W.Valid(r.entry.value))
  {
  }

  /** A requested file is dropped exactly when the grant window has elapsed
      with no grant and no choice made. */
  lemma DroppedIffNoGrant(w: W.WarcFile, files: set<Path>, stager: seq<Peer>, job: JobId,
                          path: Path, env: Env, window: int, size: nat)
    requires w.requested
    ensures var r := UploadFile(Some(w), files, stager, job, path, env, window, size);
            && (r.entry.None? <==>
                 w.memo.None? && w.lastAnswer != 0 && env.elapsed(w.lastAnswer, window) && w.granted == [])
            && (r.entry.None? ==> r.out == [] && r.files == files)
  {
  }

  /** Once revoked, a file is left alone: no message, no transfer, and it
      stays revoked; with its choice made it is not even touched. */
  lemma RevokedIsQuiet(w: W.WarcFile, files: set<Path>, stager: seq<Peer>, job: JobId,
                       path: Path, env: Env, window: int, size: nat)
    requires w.requested && w.revoked
    ensures var r := UploadFile(Some(w), files, stager, job, path, env, window, size);
            && r.out == [] && r.files == files
            && (r.entry.Some? ==> r.entry.value.revoked)
            && (w.memo.Some? ==> r.entry == Some(w))
  {
  }

  /** A tick revokes exactly when it turns `revoked` from false to true; the
      revoke goes to every stager that granted, and the only other message
      is the transfer, sent when the in-flight marker was absent. */
  lemma RevokeIsTheTransition(w: W.WarcFile, files: set<Path>, stager: seq<Peer>, job: JobId,
                              path: Path, env: Env, window: int, size: nat)
    requires w.requested && !w.revoked
    ensures var r := UploadFile(Some(w), files, stager, job, path, env, window, size);
            && ((exists m | m in r.out :: IsRevoke(m)) <==> r.entry.Some? && r.entry.value.revoked)
            && (r.entry.Some? && r.entry.value.revoked ==>
                  && r.out[0] == Msg(w.granted, RequestUploadRevoke(job, path))
                  && (|r.out| == 2 <==> S.Marker(path) !in files)
                  && |r.out| <= 2
                  && (|r.out| == 2 ==> IsTransfer(r.out[1]) && r.files == files + {S.Marker(path)}))
            && (!(r.entry.Some? && r.entry.value.revoked) ==> r.out == [] && r.files == files)
  {
    var r := UploadFile(Some(w), files, stager, job, path, env, window, size);
    if r.entry.Some? && r.entry.value.revoked {
      assert IsRevoke(r.out[0]);
    }
  }

  /** With one clock reading per tick, a transfer goes to exactly the
      memoised stager, which is one of those that granted. */
  lemma DecisionIsAStager(current: W.WarcFile, files: set<Path>, stager: seq<Peer>, job: JobId,
                          path: Path, env: Env, window: int, size: nat)
    requires W.Valid(current)
    requires Sane(env, window)
    ensures var r := UploadFile(Some(current), files, stager, job, path, env, window, size);
            forall m | m in r.out && IsTransfer(m) ::
              && r.entry.Some? && r.entry.value.memo == Some(m.to)
              && |m.to| == 1 && m.to[0] in current.granted
  {
    if current.requested {
      var (w1, c1) := W.ReadChosen(current, env, window);
      if !c1.Rejected? {
        var (w2, c2) := W.ReadChosen(w1, env, window);
        if !c2.Undecided? && !w2.revoked {
          assert c2.Picked?;
          var (w3, revokeTo) := W.ToRevoke(w2, env, window);
          assert w3 == w2;
          W.ChosenIsStable(w1, env, env, window);
        }
      }
    }
  }

  /** A file dropped for lack of grants is still pending, so the next tick
      creates a fresh entry and requests permission again. */
  lemma DroppedFileIsRequestedAgain(current: W.WarcFile, files: set<Path>, stager: seq<Peer>, job: JobId,
                                    path: Path, env: Env, next: Env, window: int, size: nat)
    requires UploadFile(Some(current), files, stager, job, path, env, window, size).entry.None?
    ensures var r := UploadFile(None, files, stager, job, path, next, window, size);
            r.out == [Msg(stager, RequestUploadPermission(job, path, size))]
            && r.entry == Some(W.NewWarcFile(path).(requested := true))
  {
  }

  /** What happens to one pending file between the reads of its entry: a
      tick of upload's loop, or UPLOAD_PERMISSION_GRANTED from a stager. */
  datatype Event = Tick(env: Env) | Grant(from: Peer, now: Time)

  /** UPLOAD_PERMISSION_GRANTED on an existing entry: the grant is recorded
      once the file has been requested and refused before. */
  function GrantStep(w: W.WarcFile, s: Peer, now: Time): (r: W.WarcFile)
    ensures r.requested == w.requested && r.revoked == w.revoked && r.path == w.path
    ensures r.memo == w.memo
    ensures W.Valid(w) ==> W.Valid(r)
  {
    if w.requested then W.Granted(w, s, now) else w
  }

  /** GrantStep is what the coordinator's grant handler does to the entry. */
  lemma GrantStepIsTheHandler(st: S.Server, s: Peer, path: Path, now: Time)
    requires path in st.permissions
    ensures S.CommandUploadPermissionGranted(st, s, path, now).0.permissions[path]
            == GrantStep(st.permissions[path], s, now)
  {
  }

  /** A run of events on one pending file whose entry nothing else removes:
      the final entry, the files on disk and all messages written. A tick
      that drops the entry ends the run. */
  function UploadRun(current: W.WarcFile, files: set<Path>, stager: seq<Peer>, job: JobId,
                     path: Path, events: seq<Event>, window: int, size: nat): (Option<W.WarcFile>, set<Path>, seq<Msg>)
    decreases |events|
  {
    if events == [] then (Some(current), files, [])
    else match events[0]
      case Grant(s, now) =>
        UploadRun(GrantStep(current, s, now), files, stager, job, path, events[1..], window, size)
      case Tick(env) =>
        var r := UploadFile(Some(current), files, stager, job, path, env, window, size);
        if r.entry.None? then (None, r.files, r.out)
        else
          var (e, f, out) := UploadRun(r.entry.value, r.files, stager, job, path, events[1..], window, size);
          (e, f, r.out + out)
  }

  /** Once a file has been revoked, no later tick writes anything for it or
      touches the disk, whatever grants arrive in between. */
  lemma {:induction false} RevokedFileIsLeftAlone(current: W.WarcFile, files: set<Path>, stager: seq<Peer>, job: JobId,
                               path: Path, events: seq<Event>, window: int, size: nat)
    requires current.requested && current.revoked
    ensures var (_, f, out) := UploadRun(current, files, stager, job, path, events, window, size);
            f == files && out == []
    decreases |events|
  {
    if events != [] {
      match events[0]
      case Grant(s, now) =>
        RevokedFileIsLeftAlone(GrantStep(current, s, now), files, stager, job, path, events[1..], window, size);
      case Tick(env) =>
        var r := UploadFile(Some(current), files, stager, job, path, env, window, size);
        RevokedIsQuiet(current, files, stager, job, path, env, window, size);
        RequestedFileKeepsGrants(current, files, stager, job, path, env, window, size);
        if r.entry.Some? {
          RevokedFileIsLeftAlone(r.entry.value, files, stager, job, path, events[1..], window, size);
        }
    }
  }

  /** One tick writes at most one revoke and one transfer, and none of
      either unless it leaves the file revoked. */
  lemma StepCounts(current: W.WarcFile, files: set<Path>, stager: seq<Peer>, job: JobId,
                   path: Path, env: Env, window: int, size: nat)
    requires !current.revoked
    ensures var r := UploadFile(Some(current), files, stager, job, path, env, window, size);
            && |Revokes(r.out)| <= 1 && |Transfers(r.out)| <= 1
            && (r.entry.Some? && r.entry.value.revoked ==> r.entry.value.requested)
            && (!(r.entry.Some? && r.entry.value.revoked) ==> Revokes(r.out) == [] && Transfers(r.out) == [])
  {
    var r := UploadFile(Some(current), files, stager, job, path, env, window, size);
    if !current.requested {
      assert r.out == [Msg(stager, RequestUploadPermission(job, path, size))];
      NoneMatching(r.out);
    } else {
      RevokeIsTheTransition(current, files, stager, job, path, env, window, size);
      RequestedFileKeepsGrants(current, files, stager, job, path, env, window, size);
      if r.entry.Some? && r.entry.value.revoked {
        var t := r.out[1..];
        assert !IsTransfer(r.out[0]) && IsRevoke(r.out[0]);
        if |r.out| == 2 {
          assert t[1..] == [];
          assert !IsRevoke(t[0]) && IsTransfer(t[0]);
          assert Revokes(t) == Revokes(t[1..]) == [];
          assert Transfers(t) == [t[0]] + Transfers(t[1..]);
        } else {
          assert t == [];
        }
        assert Revokes(r.out) == [r.out[0]] + Revokes(t);
        assert Transfers(r.out) == Transfers(t);
      } else {
        NoneMatching(r.out);
      }
    }
  }

  /** Over any run of ticks and grants a file entry is revoked, and
      transferred, at most once. */
  lemma {:induction false} RevokeAtMostOnce(current: W.WarcFile, files: set<Path>, stager: seq<Peer>, job: JobId,
                                            path: Path, events: seq<Event>, window: int, size: nat)
    requires current.revoked ==> current.requested
    ensures var out := UploadRun(current, files, stager, job, path, events, window, size).2;
            && |Revokes(out)| <= 1
            && |Transfers(out)| <= 1
            && (current.revoked ==> out == [])
    decreases |events|
  {
    if events == [] {
    } else if current.revoked {
      RevokedFileIsLeftAlone(current, files, stager, job, path, events, window, size);
    } else {
      match events[0]
      case Grant(s, now) =>
        RevokeAtMostOnce(GrantStep(current, s, now), files, stager, job, path, events[1..], window, size);
      case Tick(env) =>
        var r := UploadFile(Some(current), files, stager, job, path, env, window, size);
        StepCounts(current, files, stager, job, path, env, window, size);
        if r.entry.Some? {
          var rest := UploadRun(r.entry.value, r.files, stager, job, path, events[1..], window, size);
          assert UploadRun(current, files, stager, job, path, events, window, size).2 == r.out + rest.2;
          RevokesAppend(r.out, rest.2);
          if r.entry.value.revoked {
            RevokedFileIsLeftAlone(r.entry.value, r.files, stager, job, path, events[1..], window, size);
          } else {
            RevokeAtMostOnce(r.entry.value, r.files, stager, job, path, events[1..], window, size);
          }
        }
    }
  }

  /** The runs above include ones that revoke: a grant followed by a tick
      after the window has elapsed revokes the file exactly once. */
  lemma GrantThenTickRevokes(current: W.WarcFile, files: set<Path>, stager: seq<Peer>, job: JobId,
                             path: Path, s: Peer, now: Time, env: Env, window: int, size: nat)
    requires current.requested && !current.revoked && current.memo.None?
    requires now != 0 && env.elapsed(now, window)
    ensures var out := UploadRun(current, files, stager, job, path, [Grant(s, now), Tick(env)], window, size).2;
            |Revokes(out)| == 1 && out[0] == Msg(current.granted + [s], RequestUploadRevoke(job, path))
  {
    var g := GrantStep(current, s, now);
    var r := UploadFile(Some(g), files, stager, job, path, env, window, size);
    RevokeIsTheTransition(g, files, stager, job, path, env, window, size);
    StepCounts(g, files, stager, job, path, env, window, size);
    assert r.entry.Some? && r.entry.value.revoked;
    assert UploadRun(r.entry.value, r.files, stager, job, path, [], window, size).2 == [];
    assert UploadRun(g, files, stager, job, path, [Tick(env)], window, size).2 == r.out + [];
    assert [Grant(s, now), Tick(env)][1..] == [Tick(env)];
    assert Revokes(r.out) == [r.out[0]] + Revokes(r.out[1..]);
  }

  /** Without a grant there is nothing to revoke: a run of ticks alone, each
      reading the clock once, on an entry nobody has granted never sends
      REQUEST_UPLOAD_REVOKE. */
  lemma {:induction false} NoGrantNoRevoke(current: W.WarcFile, files: set<Path>, stager: seq<Peer>, job: JobId,
                                           path: Path, events: seq<Event>, window: int, size: nat)
    requires current.granted == [] && current.memo.None? && !current.revoked
    requires forall i | 0 <= i < |events| :: events[i].Tick? && Sane(events[i].env, window)
    ensures Revokes(UploadRun(current, files, stager, job, path, events, window, size).2) == []
    decreases |events|
  {
    if events != [] {
      var env := events[0].env;
      var r := UploadFile(Some(current), files, stager, job, path, env, window, size);
      StepCounts(current, files, stager, job, path, env, window, size);
      if r.entry.Some? {
        var e := r.entry.value;
        assert e.granted == [] && e.memo.None? && !e.revoked by {
          if current.requested {
            RequestedFileKeepsGrants(current, files, stager, job, path, env, window, size);
            var (w1, c1) := W.ReadChosen(current, env, window);
            var (w2, c2) := W.ReadChosen(w1, env, window);
            assert !c1.Rejected? ==> c2.Undecided?;
          }
        }
        var rest := UploadRun(e, r.files, stager, job, path, events[1..], window, size);
        assert UploadRun(current, files, stager, job, path, events, window, size).2 == r.out + rest.2;
        RevokesAppend(r.out, rest.2);
        NoGrantNoRevoke(e, r.files, stager, job, path, events[1..], window, size);
      }
    }
  }

  /** The revoke messages of `out`, in order. */
  function Revokes(out: seq<Msg>): (r: seq<Msg>)
    ensures forall m | m in r :: m in out && IsRevoke(m)
  {
    if out == [] then [] else (if IsRevoke(out[0]) then [out[0]] else []) + Revokes(out[1..])
  }

  /** The transfer messages of `out`, in order. */
  function Transfers(out: seq<Msg>): (r: seq<Msg>)
    ensures forall m | m in r :: m in out && IsTransfer(m)
  {
    if out == [] then [] else (if IsTransfer(out[0]) then [out[0]] else []) + Transfers(out[1..])
  }

  lemma {:induction false} RevokesAppend(a: seq<Msg>, b: seq<Msg>)
    ensures Revokes(a + b) == Revokes(a) + Revokes(b)
    ensures Transfers(a + b) == Transfers(a) + Transfers(b)
  {
    RevokesOfAppend(a, b);
    TransfersOfAppend(a, b);
  }

  lemma {:induction false} RevokesOfAppend(a: seq<Msg>, b: seq<Msg>)
    ensures Revokes(a + b) == Revokes(a) + Revokes(b)
    decreases |a|
  {
    if a == [] {
      assert a + b == b;
    } else {
      var head := if IsRevoke(a[0]) then [a[0]] else [];
      assert (a + b)[0] == a[0];
      assert (a + b)[1..] == a[1..] + b;
      assert Revokes(a + b) == head + Revokes(a[1..] + b);
      assert Revokes(a) == head + Revokes(a[1..]);
      RevokesOfAppend(a[1..], b);
    }
  }

  lemma {:induction false} TransfersOfAppend(a: seq<Msg>, b: seq<Msg>)
    ensures Transfers(a + b) == Transfers(a) + Transfers(b)
    decreases |a|
  {
    if a == [] {
      assert a + b == b;
    } else {
      var head := if IsTransfer(a[0]) then [a[0]] else [];
      assert (a + b)[0] == a[0];
      assert (a + b)[1..] == a[1..] + b;
      assert Transfers(a + b) == head + Transfers(a[1..] + b);
      assert Transfers(a) == head + Transfers(a[1..]);
      TransfersOfAppend(a[1..], b);
    }
  }

  lemma {:induction false} NoneMatching(out: seq<Msg>)
    requires forall m | m in out :: !IsRevoke(m) && !IsTransfer(m)
    ensures Revokes(out) == [] && Transfers(out) == []
    decreases |out|
  {
    if out != [] {
      assert forall m | m in out[1..] :: m in out;
      NoneMatching(out[1..]);
    }
  }

  /** The permission table after a step leaves `entry` for `path`. */
  function Store(perms: map<Path, W.WarcFile>, path: Path, entry: Option<W.WarcFile>): (r: map<Path, W.WarcFile>)
    ensures Current(r, path) == entry
    ensures forall p | p != path :: Current(r, p) == Current(perms, p)
  {
    if entry.Some? then perms[path := entry.value] else perms - {path}
  }

  /** The files on disk matter to a step only through the marker of its own
      path; the step adds at most that marker. */
  lemma StepSeesOnlyItsMarker(current: Option<W.WarcFile>, files1: set<Path>, files2: set<Path>, stager: seq<Peer>,
                              job: JobId, path: Path, env: Env, window: int, size: nat)
    requires S.Marker(path) in files1 <==> S.Marker(path) in files2
    ensures var r1 := UploadFile(current, files1, stager, job, path, env, window, size);
            var r2 := UploadFile(current, files2, stager, job, path, env, window, size);
            && r1.out == r2.out && r1.entry == r2.entry
            && (S.Marker(path) in r1.files <==> S.Marker(path) in r2.files)
            && r1.files - files1 <= {S.Marker(path)}
  {
  }

  /** A step keeps the entry of its path well formed. */
  lemma StepKeepsEntryValid(current: Option<W.WarcFile>, files: set<Path>, stager: seq<Peer>, job: JobId,
                            path: Path, env: Env, window: int, size: nat)
    requires current.Some? ==> W.Valid(current.value) && current.value.path == path
    ensures var r := UploadFile(current, files, stager, job, path, env, window, size);
            r.entry.Some? ==> W.Valid(r.entry.value) && r.entry.value.path == path
  {
    if current.Some? && current.value.requested {
      RequestedFileKeepsGrants(current.value, files, stager, job, path, env, window, size);
    }
  }

  /** No two pending files share a path. */
  ghost predicate UniquePaths(pending: set<(JobId, Path)>)
  {
    forall e1, e2 | e1 in pending && e2 in pending && e1.1 == e2.1 :: e1 == e2
  }

  /** The paths of the pending files. */
  function PathsOf(pending: set<(JobId, Path)>): set<Path>
  {
    set e | e in pending :: e.1
  }

  /** What one tick does for the pending file (job, path) when it is the only
      one with that path: its step run on the state at the start of the
      tick. */
  function Expected(st: S.Server, env: Env, size: Path -> nat, job: JobId, path: Path): FileStep
    requires job in st.jobs
  {
    UploadFile(Current(st.permissions, path), st.files, st.jobs[job].stager, job, path, env,
               st.cfg.requestUploadTime, size(path))
  }

  /** The part of upload's loop invariant that holds for any pending set:
      `todo` is still to visit, paths not yet visited are untouched, every
      message is about a visited path and only markers of visited paths are
      new. */
  ghost predicate Framed(st: S.Server, todo: set<(JobId, Path)>, perms: map<Path, W.WarcFile>,
                         files: set<Path>, out: seq<Msg>)
  {
    && todo <= st.filenames
    && (forall e | e in st.filenames :: e.0 in st.jobs)
    && (forall p | p !in PathsOf(st.filenames - todo) :: Current(perms, p) == Current(st.permissions, p))
    && (forall p | p !in PathsOf(st.filenames - todo) :: About(out, p) == [])
    && (forall m | m in out :: PathOf(m.body).Some? && PathOf(m.body).value in PathsOf(st.filenames - todo))
    && st.files <= files
    && (forall q | q in files && q !in st.files :: exists e | e in st.filenames - todo :: q == S.Marker(e.1))
    && (S.Valid(st) ==> forall p | p in perms :: W.Valid(perms[p]) && perms[p].path == p)
  }

  /** The rest of the invariant, meaningful when paths are unique: each
      visited file's messages, entry and marker are those of its own step. */
  ghost predicate Outcomes(st: S.Server, env: Env, size: Path -> nat, todo: set<(JobId, Path)>,
                           perms: map<Path, W.WarcFile>, files: set<Path>, out: seq<Msg>)
  {
    && (forall e | e in st.filenames :: e.0 in st.jobs)
    && forall e | e in st.filenames - todo ::
         && About(out, e.1) == Expected(st, env, size, e.0, e.1).out
         && Current(perms, e.1) == Expected(st, env, size, e.0, e.1).entry
         && (S.Marker(e.1) in files <==> S.Marker(e.1) in Expected(st, env, size, e.0, e.1).files)
  }

  ghost predicate Progressed(st: S.Server, env: Env, size: Path -> nat, todo: set<(JobId, Path)>,
                             perms: map<Path, W.WarcFile>, files: set<Path>, out: seq<Msg>)
  {
    && Framed(st, todo, perms, files, out)
    && (UniquePaths(st.filenames) ==> Outcomes(st, env, size, todo, perms, files, out))
  }

  /** With unique paths, a file still to visit sees its path as the tick
      found it: same entry, same marker. */
  lemma UnvisitedIsUntouched(st: S.Server, todo: set<(JobId, Path)>, perms: map<Path, W.WarcFile>,
                             files: set<Path>, out: seq<Msg>, e: (JobId, Path))
    requires Framed(st, todo, perms, files, out)
    requires UniquePaths(st.filenames) && e in todo
    ensures e.1 !in PathsOf(st.filenames - todo)
    ensures Current(perms, e.1) == Current(st.permissions, e.1)
    ensures About(out, e.1) == []
    ensures S.Marker(e.1) in files <==> S.Marker(e.1) in st.files
  {
    forall d | d in st.filenames - todo
      ensures d.1 != e.1 && S.Marker(d.1) != S.Marker(e.1)
    {
      S.MarkerInjective(d.1, e.1);
    }
  }

  /** One loop iteration keeps the frame part of the invariant. */
  lemma StepKeepsFramed(st: S.Server, todo: set<(JobId, Path)>, perms: map<Path, W.WarcFile>,
                        files: set<Path>, out: seq<Msg>, e: (JobId, Path), env: Env, size: nat)
    requires Framed(st, todo, perms, files, out)
    requires e in todo
    ensures e.0 in st.jobs
    ensures var r := UploadFile(Current(perms, e.1), files, st.jobs[e.0].stager, e.0, e.1, env,
                                st.cfg.requestUploadTime, size);
            Framed(st, todo - {e}, Store(perms, e.1, r.entry), r.files, out + r.out)
  {
    var (job, path) := e;
    var window := st.cfg.requestUploadTime;
    var r := UploadFile(Current(perms, path), files, st.jobs[job].stager, job, path, env, window, size);
    var perms', files', out' := Store(perms, path, r.entry), r.files, out + r.out;
    var todo' := todo - {e};
    assert st.filenames - todo' == (st.filenames - todo) + {e};
    assert path in PathsOf(st.filenames - todo');
    StepSeesOnlyItsMarker(Current(perms, path), files, files, st.jobs[job].stager, job, path, env, window, size);
    forall q | q !in PathsOf(st.filenames - todo')
      ensures About(out', q) == []
    {
      AboutAppend(out, r.out, q);
      AboutOnly(r.out, path, q);
    }
    forall q | q in files' && q !in st.files
      ensures exists d | d in st.filenames - todo' :: q == S.Marker(d.1)
    {
      if q !in files {
        assert q == S.Marker(path);
      }
    }
    if S.Valid(st) {
      StepKeepsEntryValid(Current(perms, path), files, st.jobs[job].stager, job, path, env, window, size);
    }
  }

  /** With unique paths, one loop iteration keeps the outcome part of the
      invariant. */
  lemma StepKeepsOutcomes(st: S.Server, env: Env, size: Path -> nat, todo: set<(JobId, Path)>,
                          perms: map<Path, W.WarcFile>, files: set<Path>, out: seq<Msg>, e: (JobId, Path))
    requires Framed(st, todo, perms, files, out) && Outcomes(st, env, size, todo, perms, files, out)
    requires UniquePaths(st.filenames) && e in todo
    ensures e.0 in st.jobs
    ensures var r := UploadFile(Current(perms, e.1), files, st.jobs[e.0].stager, e.0, e.1, env,
                                st.cfg.requestUploadTime, size(e.1));
            Outcomes(st, env, size, todo - {e}, Store(perms, e.1, r.entry), r.files, out + r.out)
  {
    var (job, path) := e;
    var window := st.cfg.requestUploadTime;
    var r := UploadFile(Current(perms, path), files, st.jobs[job].stager, job, path, env, window, size(path));
    var perms', files', out' := Store(perms, path, r.entry), r.files, out + r.out;
    var todo' := todo - {e};
    assert st.filenames - todo' == (st.filenames - todo) + {e};
    StepSeesOnlyItsMarker(Current(perms, path), files, files, st.jobs[job].stager, job, path, env, window, size(path));
    UnvisitedIsUntouched(st, todo, perms, files, out, e);
    StepSeesOnlyItsMarker(Current(st.permissions, path), files, st.files, st.jobs[job].stager, job, path, env,
                          window, size(path));
    forall d | d in st.filenames - todo'
      ensures About(out', d.1) == Expected(st, env, size, d.0, d.1).out
      ensures Current(perms', d.1) == Expected(st, env, size, d.0, d.1).entry
      ensures S.Marker(d.1) in files' <==> S.Marker(d.1) in Expected(st, env, size, d.0, d.1).files
    {
      AboutAppend(out, r.out, d.1);
      AboutOnly(r.out, path, d.1);
      S.MarkerInjective(d.1, path);
    }
  }

  /** upload: one pass over the pending files, in whatever order the set
      yields them. Entries and markers of paths that are not pending stay as
      they were, every message is about a pending path, only markers of
      pending paths appear on disk, and nothing but the permission table and
      the disk changes. When no two pending files share a path, each one
      gets exactly the messages, entry and marker of its own step taken on
      the state the tick started from, whatever the visiting order. The job
      of every pending file must be known: a permission request looks up its
      stager list. */
  method Upload(st: S.Server, env: Env, size: Path -> nat) returns (st': S.Server, out: seq<Msg>)
    requires forall e | e in st.filenames :: e.0 in st.jobs
    ensures st' == st.(permissions := st'.permissions, files := st'.files)
    ensures forall p | p !in PathsOf(st.filenames) :: Current(st'.permissions, p) == Current(st.permissions, p)
    ensures forall m | m in out :: PathOf(m.body).Some? && PathOf(m.body).value in PathsOf(st.filenames)
    ensures st.files <= st'.files
    ensures forall q | q in st'.files && q !in st.files :: exists e | e in st.filenames :: q == S.Marker(e.1)
    ensures S.Valid(st) ==> S.Valid(st')
    ensures UniquePaths(st.filenames) ==>
      forall e | e in st.filenames ::
        && About(out, e.1) == Expected(st, env, size, e.0, e.1).out
        && Current(st'.permissions, e.1) == Expected(st, env, size, e.0, e.1).entry
        && (S.Marker(e.1) in st'.files <==> S.Marker(e.1) in Expected(st, env, size, e.0, e.1).files)
  {
    var todo := st.filenames;
    var perms := st.permissions;
    var files := st.files;
    out := [];
    assert st.filenames - todo == {};
    while todo != {}
      invariant Progressed(st, env, size, todo, perms, files, out)
      decreases |todo|
    {
      var e :| e in todo;
      StepKeepsFramed(st, todo, perms, files, out, e, env, size(e.1));
      if UniquePaths(st.filenames) {
        StepKeepsOutcomes(st, env, size, todo, perms, files, out, e);
      }
      var r := UploadFile(Current(perms, e.1), files, st.jobs[e.0].stager, e.0, e.1, env,
                          st.cfg.requestUploadTime, size(e.1));
      perms, files, out := Store(perms, e.1, r.entry), r.files, out + r.out;
      todo := todo - {e};
    }
    assert st.filenames - todo == st.filenames;
    st' := st.(permissions := perms, files := files);
  }
}

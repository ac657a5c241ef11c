/** Upload negotiation state of one archive file (WarcFile) and the
    permission table that creates entries on lookup (UploadPermissions),
    webarchiver/server/crawler.py. */
module Warc {
  import opened Types

  /** `lastAnswer` is 0 until the clock starts; `memo` holds the sample once
      one has been chosen (the `_chosen` attribute). */
  datatype WarcFile = WarcFile(
    path: Path,
    requested: bool,
    revoked: bool,
    granted: seq<Peer>,
    lastAnswer: Time,
    memo: Option<seq<Peer>>)

  /** The three values `chosen` takes: None, False, or the sample list. */
  datatype Choice = Undecided | Rejected | Picked(sample: seq<Peer>)

  /** The Python values `to_revoke` compares: a socket, a list, a boolean,
      or None. Values of different kinds are never equal. */
  datatype PyValue = PySocket(p: Peer) | PyList(items: seq<Peer>) | PyBool(b: bool) | PyNone

  function ValueOf(c: Choice): (v: PyValue)
    ensures !v.PySocket?
  {
    match c
    case Undecided => PyNone
    case Rejected => PyBool(false)
    case Picked(s) => PyList(s)
  }

  /** A memoised choice is one granted stager, and only a requested file
      can have been revoked. */
  ghost predicate Valid(w: WarcFile)
  {
    && (w.memo.Some? ==> |w.memo.value| == 1 && w.memo.value[0] in w.granted)
    && (w.revoked ==> w.requested)
  }

  function NewWarcFile(path: Path): (w: WarcFile)
    ensures Valid(w) && w.path == path
    ensures !w.requested && !w.revoked && w.granted == [] && w.memo == None
    ensures w.lastAnswer == 0
  {
    WarcFile(path, false, false, [], 0, None)
  }

  /** One read of the `chosen` property. The first read with the clock
      unset starts it; while the grant window is open the answer is None;
      once it has elapsed the answer is False without grants, otherwise one
      granted stager is sampled and kept for every later read. */
  function ReadChosen(w: WarcFile, env: Env, window: int): (res: (WarcFile, Choice))
    ensures res.0 == w.(lastAnswer := res.0.lastAnswer, memo := res.0.memo)
    ensures res.1.Undecided? <==> w.memo.None? && (w.lastAnswer == 0 || !env.elapsed(w.lastAnswer, window))
    ensures res.1.Rejected? <==> w.memo.None? && w.lastAnswer != 0 && env.elapsed(w.lastAnswer, window) && w.granted == []
    ensures res.0.lastAnswer != w.lastAnswer ==> w.lastAnswer == 0 && res.0.lastAnswer == env.now && res.1.Undecided?
    ensures res.1.Picked? ==> res.0.memo == Some(res.1.sample)
    ensures !res.1.Picked? ==> res.0.memo == w.memo
    ensures w.memo.Some? ==> res == (w, Picked(w.memo.value))
    ensures Valid(w) ==> Valid(res.0)
    ensures Valid(w) && res.1.Picked? ==> |res.1.sample| == 1 && res.1.sample[0] in w.granted
  {
    if w.memo.Some? then (w, Picked(w.memo.value))
    else if w.lastAnswer == 0 then (w.(lastAnswer := env.now), Undecided)
    else if !env.elapsed(w.lastAnswer, window) then (w, Undecided)
    else if |w.granted| == 0 then (w, Rejected)
    else
      var s := Sample(env, w.granted);
      (w.(memo := Some(s)), Picked(s))
  }

  /** Memoisation: once a read has produced a stager, every later read,
      at any time, returns the same stager and changes nothing. */
  lemma ChosenIsStable(w: WarcFile, env: Env, later: Env, window: int)
    requires ReadChosen(w, env, window).1.Picked?
    ensures var (w1, c) := ReadChosen(w, env, window);
            ReadChosen(w1, later, window) == (w1, c)
  {
  }

  /** A read that decides anything (False or a stager) does not move the
      clock, so reading again in the same step gives the same answer. */
  lemma DecisionRepeats(w: WarcFile, env: Env, window: int)
    requires !ReadChosen(w, env, window).1.Undecided?
    ensures var (w1, c) := ReadChosen(w, env, window);
            ReadChosen(w1, env, window) == (w1, c)
  {
  }

  /** With no grant, the first read never decides: it only starts the clock. */
  lemma FirstReadStartsClock(w: WarcFile, env: Env, window: int)
    requires w.memo.None? && w.lastAnswer == 0
    ensures ReadChosen(w, env, window) == (w.(lastAnswer := env.now), Undecided)
  {
  }

  /** granted: records a grant and restarts the grant window from now. */
  function Granted(w: WarcFile, s: Peer, now: Time): (r: WarcFile)
    ensures r.granted == w.granted + [s] && s in r.granted
    ensures r.lastAnswer == now
    ensures r == w.(granted := r.granted, lastAnswer := r.lastAnswer)
    ensures Valid(w) ==> Valid(r)
  {
    w.(granted := w.granted + [s], lastAnswer := now)
  }

  /** A grant arriving after the choice is made does not change it. */
  lemma GrantAfterChoiceKeepsChoice(w: WarcFile, env: Env, window: int, s: Peer, later: Env)
    requires ReadChosen(w, env, window).1.Picked?
    ensures var (w1, c) := ReadChosen(w, env, window);
            ReadChosen(Granted(w1, s, later.now), later, window).1 == c
  {
  }

  /** A grant before the choice re-opens the window: a read at a time when
      the window, measured from that grant, has not elapsed answers None. */
  lemma GrantReopensWindow(w: WarcFile, s: Peer, env: Env, window: int)
    requires w.memo.None?
    requires env.now != 0 && !env.elapsed(env.now, window)
    ensures ReadChosen(Granted(w, s, env.now), env, window).1 == Undecided
  {
  }

  /** The list comprehension of `to_revoke` over `rest`: keeps each granted
      stager that differs from `chosen`, re-reading the property for every
      element. */
  function RevokeFilter(w: WarcFile, rest: seq<Peer>, env: Env, window: int): (res: (WarcFile, seq<Peer>))
    ensures res.1 == rest
    ensures w.memo.Some? ==> res.0 == w
    ensures res.0 == w.(lastAnswer := res.0.lastAnswer, memo := res.0.memo)
    ensures Valid(w) ==> Valid(res.0)
    decreases |rest|
  {
    if rest == [] then (w, [])
    else
      var (w1, c) := ReadChosen(w, env, window);
      var (w2, tail) := RevokeFilter(w1, rest[1..], env, window);
      (w2, (if PySocket(rest[0]) != ValueOf(c) then [rest[0]] else []) + tail)
  }

  /** to_revoke: the granted stagers that differ from `chosen`. Because the
      comparison is between a socket and the sample list, no stager is ever
      filtered out: the chosen stager is told to stand down too. */
  function ToRevoke(w: WarcFile, env: Env, window: int): (res: (WarcFile, seq<Peer>))
    ensures res.1 == w.granted
    ensures w.memo.Some? ==> res.0 == w
    ensures res.0 == w.(lastAnswer := res.0.lastAnswer, memo := res.0.memo)
    ensures Valid(w) ==> Valid(res.0)
  {
    RevokeFilter(w, w.granted, env, window)
  }

  /** The chosen stager is among the stagers asked to revoke. */
  lemma ChosenIsRevoked(w: WarcFile, env: Env, window: int)
    requires Valid(w) && w.memo.Some?
    ensures w.memo.value[0] in ToRevoke(w, env, window).1
  {
  }

  /** UploadPermissions.__getitem__: a path without an entry gets a fresh
      WarcFile, which is stored and returned; an existing entry is returned
      as it is. */
  function Lookup(perms: map<Path, WarcFile>, path: Path): (res: (map<Path, WarcFile>, WarcFile))
    ensures path in res.0 && res.0[path] == res.1
    ensures path in perms ==> res == (perms, perms[path])
    ensures path !in perms ==> res.0 == perms[path := NewWarcFile(path)]
    ensures res.0.Keys == perms.Keys + {path}
  {
    if path in perms then (perms, perms[path])
    else (perms[path := NewWarcFile(path)], NewWarcFile(path))
  }
}

/** The stager registry of CrawlerServer: the insertion-ordered dict from
    stager sockets to CrawlerNode flags, the stager-request cooldown and the
    ping cycle (webarchiver/server/crawler.py). */
module Registry {
  import opened Types

  /** `order` is the dict's insertion order, `nodes` its contents;
      `nextSocket` numbers the sockets this side opens. */
  datatype Registry = Registry(
    order: seq<Peer>,
    nodes: map<Peer, Node>,
    nextSocket: nat,
    lastStagerRequest: Time,
    lastPing: Time)

  /** `order` enumerates the keys of `nodes` once each, and no two stagers
      share a listening address. */
  ghost predicate WellFormed(r: Registry)
  {
    && Distinct(r.order)
    && (forall p :: p in r.nodes <==> p in r.order)
    && (forall p, q | p in r.nodes && q in r.nodes :: p.listener == q.listener ==> p == q)
  }

  /** The shape every reachable registry has: the constructor registers one
      stager and none is ever removed. */
  ghost predicate Valid(r: Registry)
  {
    WellFormed(r) && |r.order| > 0
  }

  function Empty(lastStagerRequest: Time, lastPing: Time): (r: Registry)
    ensures WellFormed(r) && r.nodes == map[]
  {
    Registry([], map[], 0, lastStagerRequest, lastPing)
  }

  /** Some registered stager listens on `listener`. */
  predicate Known(r: Registry, listener: Address)
  {
    exists p | p in r.nodes :: p.listener == listener
  }

  /** The listening addresses of all stagers, in registration order. */
  function Listeners(s: seq<Peer>): (ls: seq<Address>)
    ensures |ls| == |s|
    ensures forall i | 0 <= i < |s| :: ls[i] == s[i].listener
  {
    if s == [] then [] else [s[0].listener] + Listeners(s[1..])
  }

  /** add_stager: registers a new connection to `listener` unless a stager
      with that listening address is already known, and announces this
      crawler on it. The boolean is the True/None result. */
  function AddStager(r: Registry, cfg: Config, self: Address, listener: Address, extra: bool)
    : (res: (Registry, seq<Msg>, bool))
    ensures res.2 <==> !Known(r, listener)
    ensures !res.2 ==> res.0 == r && res.1 == []
    ensures res.2 ==>
      && |res.0.nodes| == |r.nodes| + 1
      && |res.0.order| == |r.order| + 1
      && res.0.order[..|r.order|] == r.order
      && var s := res.0.order[|r.order|];
         && s.listener == listener
         && s !in r.nodes
         && res.0.nodes == r.nodes[s := cfg.newNode]
         && res.1 == [Msg([s], Announce(extra, self))]
    ensures res.2 ==> Name(res.1[0].body) == if extra then "ANNOUNCE_CRAWLER_EXTRA" else "ANNOUNCE_CRAWLER"
    ensures Known(res.0, listener)
    ensures res.0.lastPing == r.lastPing && res.0.lastStagerRequest == r.lastStagerRequest
  {
    if Known(r, listener) then (r, [], false)
    else
      var s := Peer(r.nextSocket, listener);
      var r' := r.(order := r.order + [s], nodes := r.nodes[s := cfg.newNode], nextSocket := r.nextSocket + 1);
      assert s !in r.nodes;
      assert r'.order[..|r.order|] == r.order;
      (r', [Msg([s], Announce(extra, self))], true)
  }

  /** A well-formed registry stays well-formed, hence duplicate-free by
      listening address, across add_stager. */
  lemma AddStagerPreservesWellFormed(r: Registry, cfg: Config, self: Address, listener: Address, extra: bool)
    requires WellFormed(r)
    ensures WellFormed(AddStager(r, cfg, self, listener, extra).0)
  {
    var res := AddStager(r, cfg, self, listener, extra);
    if res.2 {
      var s := res.0.order[|r.order|];
      assert res.0.order == r.order + [s];
      forall i, j | 0 <= i < j < |res.0.order|
        ensures res.0.order[i] != res.0.order[j]
      {
        if j == |r.order| {
          assert res.0.order[i] == r.order[i];
          assert r.order[i] in r.nodes;
        }
      }
      forall p | true
        ensures p in res.0.nodes <==> p in res.0.order
      {
        assert p in res.0.order <==> p in r.order || p == s;
      }
    }
  }

  /** Announcing the same listening address twice registers it once. */
  lemma AddStagerIdempotent(r: Registry, cfg: Config, self: Address, listener: Address, e1: bool, e2: bool)
    ensures var first := AddStager(r, cfg, self, listener, e1);
            var second := AddStager(first.0, cfg, self, listener, e2);
            second.0 == first.0 && second.1 == [] && !second.2
  {
  }

  /** stager_needed: how many stagers are still wanted to reach the maximum,
      never negative. */
  function StagerNeeded(r: Registry, cfg: Config): (n: nat)
    ensures |r.nodes| < cfg.maxStager ==> |r.nodes| + n == cfg.maxStager
    ensures |r.nodes| >= cfg.maxStager ==> n == 0
  {
    var n := cfg.maxStager - |r.nodes|;
    if n < 0 then 0 else n
  }

  /** request_stager: when stagers are missing and the cooldown has elapsed,
      asks one registered stager for that many more, listing every known
      address, and restarts the cooldown. */
  function RequestStager(r: Registry, cfg: Config, env: Env): (res: (Registry, seq<Msg>))
    requires WellFormed(r)
    requires StagerNeeded(r, cfg) > 0 && env.elapsed(r.lastStagerRequest, cfg.requestStagerTime) ==> |r.order| > 0
    ensures res.1 != [] <==> StagerNeeded(r, cfg) > 0 && env.elapsed(r.lastStagerRequest, cfg.requestStagerTime)
    ensures res.1 == [] ==> res.0 == r
    ensures res.1 != [] ==>
      && res.0 == r.(lastStagerRequest := env.now)
      && |res.1| == 1
      && |res.1[0].to| == 1 && res.1[0].to[0] in r.nodes
      && res.1[0].body == RequestStagerMsg(StagerNeeded(r, cfg), Listeners(r.order))
  {
    if StagerNeeded(r, cfg) > 0 && env.elapsed(r.lastStagerRequest, cfg.requestStagerTime) then
      var to := Sample(env, r.order);
      (r.(lastStagerRequest := env.now), [Msg(to, RequestStagerMsg(StagerNeeded(r, cfg), Listeners(r.order)))])
    else
      (r, [])
  }

  /** The address list of REQUEST_STAGER names every registered stager
      exactly once. */
  lemma RequestStagerListsEveryStagerOnce(r: Registry)
    requires WellFormed(r)
    ensures forall p | p in r.nodes :: p.listener in Listeners(r.order)
    ensures forall a | a in Listeners(r.order) :: Known(r, a)
    ensures forall i, j | 0 <= i < j < |r.order| :: Listeners(r.order)[i] != Listeners(r.order)[j]
  {
    var ls := Listeners(r.order);
    forall p | p in r.nodes
      ensures p.listener in ls
    {
      var i :| 0 <= i < |r.order| && r.order[i] == p;
      assert ls[i] == p.listener;
    }
    forall a | a in ls
      ensures Known(r, a)
    {
      var i :| 0 <= i < |ls| && ls[i] == a;
      assert r.order[i] in r.nodes;
    }
    forall i, j | 0 <= i < j < |r.order|
      ensures ls[i] != ls[j]
    {
      assert r.order[i] in r.nodes && r.order[j] in r.nodes;
    }
  }

  /** Every flag cleared, handshake flags kept. */
  function ClearPongs(nodes: map<Peer, Node>): (m: map<Peer, Node>)
    ensures m.Keys == nodes.Keys
    ensures forall p | p in m :: !m[p].pong && m[p].confirmed == nodes[p].confirmed
  {
    map p | p in nodes :: nodes[p].(pong := false)
  }

  /** ping: when the ping interval has elapsed, clears every stager's pong
      flag, broadcasts PING to all of them and restarts the interval. */
  function Ping(r: Registry, cfg: Config, env: Env): (res: (Registry, seq<Msg>))
    ensures res.1 != [] <==> env.elapsed(r.lastPing, cfg.pingTime)
    ensures res.1 == [] ==> res.0 == r
    ensures res.1 != [] ==>
      && res.1 == [Msg(r.order, PingMsg)]
      && res.0.order == r.order
      && res.0.lastPing == env.now
      && res.0.lastStagerRequest == r.lastStagerRequest
      && res.0.nextSocket == r.nextSocket
      && res.0.nodes == ClearPongs(r.nodes)
      && res.0.nodes.Keys == r.nodes.Keys
      && forall p | p in res.0.nodes :: !res.0.nodes[p].pong && res.0.nodes[p].confirmed == r.nodes[p].confirmed
  {
    if env.elapsed(r.lastPing, cfg.pingTime) then
      (r.(nodes := ClearPongs(r.nodes), lastPing := env.now), [Msg(r.order, PingMsg)])
    else
      (r, [])
  }

  /** _command_pong: a pong on a cleared flag sets it; a pong on a flag that
      is already set calls ping(), which only broadcasts once the interval
      has elapsed. */
  function Pong(r: Registry, cfg: Config, env: Env, s: Peer): (res: (Registry, seq<Msg>))
    requires s in r.nodes
    ensures !r.nodes[s].pong ==> res.1 == [] && res.0 == r.(nodes := r.nodes[s := Node(true, r.nodes[s].confirmed)])
    ensures r.nodes[s].pong ==> res == Ping(r, cfg, env)
  {
    if !r.nodes[s].pong then
      (r.(nodes := r.nodes[s := r.nodes[s].(pong := true)]), [])
    else
      Ping(r, cfg, env)
  }

  /** After a ping that fired, one pong from a stager raises exactly that
      stager's flag and sends nothing. */
  lemma PongAfterPingRaisesOneFlag(r: Registry, cfg: Config, e1: Env, e2: Env, s: Peer)
    requires s in r.nodes
    requires e1.elapsed(r.lastPing, cfg.pingTime)
    ensures var pinged := Ping(r, cfg, e1).0;
            var answered := Pong(pinged, cfg, e2, s);
            && answered.1 == []
            && answered.0.nodes.Keys == r.nodes.Keys
            && answered.0.nodes[s].pong
            && forall p | p in r.nodes && p != s :: !answered.0.nodes[p].pong
  {
  }

  /** A second pong without an intervening ping re-pings: it broadcasts PING
      to every stager exactly when the ping interval, measured from the ping
      that fired, has elapsed. */
  lemma SecondPongRepings(r: Registry, cfg: Config, e1: Env, e2: Env, e3: Env, s: Peer)
    requires s in r.nodes
    requires e1.elapsed(r.lastPing, cfg.pingTime)
    ensures var pinged := Ping(r, cfg, e1).0;
            var once := Pong(pinged, cfg, e2, s).0;
            var twice := Pong(once, cfg, e3, s);
            && (twice.1 != [] <==> e3.elapsed(e1.now, cfg.pingTime))
            && (twice.1 != [] ==> twice.1 == [Msg(r.order, PingMsg)])
            && (twice.1 == [] ==> twice.0 == once)
  {
  }

  /** _command_confirmed: marks the stager's handshake done and answers the
      first handshake stage with stage 1. */
  function ConfirmHandshake(r: Registry, s: Peer, stage: int): (res: (Registry, seq<Msg>))
    requires s in r.nodes
    ensures res.0.nodes.Keys == r.nodes.Keys && res.0.nodes[s].confirmed
    ensures res.0.nodes[s].pong == r.nodes[s].pong
    ensures forall p | p in r.nodes && p != s :: res.0.nodes[p] == r.nodes[p]
    ensures res.0 == r.(nodes := res.0.nodes)
    ensures res.1 != [] <==> stage == 0
    ensures stage == 0 ==> res.1 == [Msg([s], Confirmed(1))]
  {
    (r.(nodes := r.nodes[s := r.nodes[s].(confirmed := true)]),
     if stage == 0 then [Msg([s], Confirmed(1))] else [])
  }

  /** Changing flags only (same order, same keys) keeps a registry valid. */
  lemma FlagsOnlyPreserveValid(r: Registry, r': Registry)
    requires Valid(r)
    requires r'.order == r.order && r'.nodes.Keys == r.nodes.Keys
    ensures Valid(r')
  {
    forall p | true
      ensures p in r'.nodes <==> p in r'.order
    {
      assert p in r'.nodes <==> p in r.nodes;
    }
  }
}

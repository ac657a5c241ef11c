/** Shared vocabulary of the crawler-side coordinator: peer handles, protocol
    messages, the tunables it reads and the environment (clock and random
    choice) it consumes. */
module Types {

  datatype Option<T> = None | Some(value: T)

  /** Wall-clock seconds as read from the clock. */
  type Time = int

  /** A listening address (host, port). */
  datatype Address = Address(host: string, port: int)

  /** A connection to a stager. `id` stands for the identity of the socket
      object, `listener` for the address the stager listens on. */
  datatype Peer = Peer(id: nat, listener: Address)

  /** No element of the sequence occurs twice. */
  predicate Distinct<T(==)>(s: seq<T>)
  {
    forall i, k | 0 <= i < k < |s| :: s[i] != s[k]
  }

  type JobId = string
  type Url = string
  type Path = string

  /** Per-stager liveness and handshake flags (a CrawlerNode). */
  datatype Node = Node(pong: bool, confirmed: bool)

  /** Outgoing protocol messages with their payloads. */
  datatype Body =
    | Announce(extra: bool, self: Address)
    | RequestStagerMsg(count: nat, known: seq<Address>)
    | PingMsg
    | Confirmed(stage: int)
    | RequestUploadPermission(job: JobId, path: Path, size: nat)
    | RequestUploadRevoke(job: JobId, path: Path)
    | WarcFileMsg(job: JobId, path: Path)
    | JobUrlFinished(job: JobId, url: Url, owner: Address)
    | JobUrlDiscovered(job: JobId, parent: Url, url: Url)
    | RequestUrlQuotaMsg(job: JobId)
    | JobCrawlConfirmed(job: JobId)
    | JobStartedCrawl(job: JobId)

  /** The command name written on the wire for a message. */
  function Name(b: Body): string
  {
    match b
    case Announce(extra, _) => "ANNOUNCE_CRAWLER" + (if extra then "_EXTRA" else "")
    case RequestStagerMsg(_, _) => "REQUEST_STAGER"
    case PingMsg => "PING"
    case Confirmed(_) => "CONFIRMED"
    case RequestUploadPermission(_, _, _) => "REQUEST_UPLOAD_PERMISSION"
    case RequestUploadRevoke(_, _) => "REQUEST_UPLOAD_REVOKE"
    case WarcFileMsg(_, _) => "WARC_FILE"
    case JobUrlFinished(_, _, _) => "JOB_URL_FINISHED"
    case JobUrlDiscovered(_, _, _) => "JOB_URL_DISCOVERED"
    case RequestUrlQuotaMsg(_) => "REQUEST_URL_QUOTA"
    case JobCrawlConfirmed(_) => "JOB_CRAWL_CONFIRMED"
    case JobStartedCrawl(_) => "JOB_STARTED_CRAWL"
  }

  /** One write: a message addressed to every socket in `to`, in order. A
      single socket is a one-element list. */
  datatype Msg = Msg(to: seq<Peer>, body: Body)

  /** The recognised tunables, plus the flags a freshly created CrawlerNode
      starts with. */
  datatype Config = Config(
    maxStager: int,
    requestStagerTime: int,
    pingTime: int,
    requestUploadTime: int,
    urlQuotaTime: int,
    newNode: Node)

  /** What one step reads from the outside world: the current time, the
      elapsed test `check_time(last, interval)` evaluated at that time, and the
      random choice used by `sample` on a list. Every clock reading within
      one step sees this same time. */
  datatype Env = Env(now: Time, elapsed: (Time, int) -> bool, pick: seq<Peer> -> nat)

  /** `sample(s, 1)`: a one-element list holding some member of `s`. */
  function Sample(env: Env, s: seq<Peer>): (r: seq<Peer>)
    requires |s| > 0
    ensures |r| == 1 && r[0] in s
  {
    [s[env.pick(s) % |s|]]
  }

  /** No grant window of the given length has elapsed at the instant the clock
      is read: the clock reads one value per step and intervals are positive. */
  predicate Sane(env: Env, interval: int)
  {
    !env.elapsed(env.now, interval)
  }
}

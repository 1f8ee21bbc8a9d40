/** The operating system as the socket layer sees it: system calls answer from
    a script of kernel replies, and every observable thing the layer does is
    recorded as an effect. */
module Kernel {
  import opened SocketErrors
  import opened Address

  /** A socket or pipe descriptor; `INVALID_SOCKET` is -1. */
  type Fd = int
  const INVALID_SOCKET: Fd := -1

  /** What an operation of the layer ends with: a value, or a raised exception. */
  datatype Outcome<+T> = Done(value: T) | Raised(error: NetError)

  datatype ProtocolSupport = EnableIPv4 | EnableIPv6 | EnableBoth

  datatype SockOpt =
    | TcpNoDelay      // IPPROTO_TCP, TCP_NODELAY
    | KeepAlive       // SOL_SOCKET, SO_KEEPALIVE
    | SendBuffer      // SOL_SOCKET, SO_SNDBUF
    | RecvBuffer      // SOL_SOCKET, SO_RCVBUF
    | ReuseAddress    // SOL_SOCKET, SO_REUSEADDR
    | MulticastTtl    // IPPROTO_IP, IP_MULTICAST_TTL
    | MulticastHops   // IPPROTO_IPV6, IPV6_MULTICAST_HOPS

  /** The observable effects of the layer, in the order they happen. */
  datatype Effect =
    | Opened(fd: Fd)                              // a descriptor was created
    | Closed(fd: Fd)                              // close() was called on it
    | OptionSet(fd: Fd, opt: SockOpt, value: int) // setsockopt() succeeded
    | FlagsSet(fd: Fd, flags: int)                // fcntl(F_SETFL) succeeded
    | Warned(warning: Warning)                    // a warning went to the logger

  /** The warnings the layer logs: a socket buffer the kernel sized below the
      request (`opt` is `RecvBuffer` or `SendBuffer`). */
  datatype Warning = BufSizeAdjusted(opt: SockOpt, requested: int, granted: int)

  /** A run of an operation over a reply script: how it ends, the replies it
      left unread, the final errno and its effects. */
  datatype Run<+T> = Run(outcome: Outcome<T>, rest: seq<int>, errno: int, effects: seq<Effect>)

  /** The next kernel reply: a result (>= 0) or a negated errno. A script that
      has run out answers -EIO. */
  function Reply(s: seq<int>): int
  {
    if |s| == 0 then -EIO else s[0]
  }

  function Advance(s: seq<int>): (t: seq<int>)
    ensures |s| > 0 ==> |t| < |s|
    ensures |t| <= |s|
  {
    if |s| == 0 then [] else s[1..]
  }

  /** errno after a libc call that received `Reply(s)`: set on failure, untouched on success. */
  function ErrnoAfter(s: seq<int>, errno: int): int
  {
    if Reply(s) < 0 then -Reply(s) else errno
  }

  /** The set of open descriptors after the given effects. */
  function OpenAfter(open: set<Fd>, effects: seq<Effect>): set<Fd>
    decreases |effects|
  {
    if |effects| == 0 then open
    else
      var before := OpenAfter(open, effects[..|effects| - 1]);
      match effects[|effects| - 1]
      case Opened(f) => before + {f}
      case Closed(f) => before - {f}
      case _ => before
  }

  /** One more effect. */
  lemma OpenAfterSnoc(open: set<Fd>, effects: seq<Effect>, e: Effect)
    ensures OpenAfter(open, effects + [e]) ==
      (if e.Opened? then OpenAfter(open, effects) + {e.fd}
       else if e.Closed? then OpenAfter(open, effects) - {e.fd}
       else OpenAfter(open, effects))
  {
    assert (effects + [e])[..|effects|] == effects;
  }

  /** Regrouping a concatenation, for effects recorded in two steps. */
  lemma AppendAssoc<T>(a: seq<T>, b: seq<T>, c: seq<T>)
    ensures (a + b) + c == a + (b + c)
  {
  }

  /** Every descriptor the effects open is closed again later: nothing leaks. */
  predicate NoLeak(effects: seq<Effect>)
  {
    forall i :: 0 <= i < |effects| && effects[i].Opened? ==>
      exists j :: i < j < |effects| && effects[j] == Closed(effects[i].fd)
  }

  /** A successful run that produced `v` in place of `()`. */
  function WithValue<T>(run: Run<()>, v: T): (r: Run<T>)
    ensures r.rest == run.rest && r.errno == run.errno && r.effects == run.effects
    ensures r.outcome.Done? <==> run.outcome.Done?
  {
    Run(if run.outcome.Done? then Done(v) else Raised(run.outcome.error), run.rest, run.errno, run.effects)
  }

  /** The run with its value dropped. */
  function Unit<T>(run: Run<T>): (r: Run<()>)
    ensures r.rest == run.rest && r.errno == run.errno && r.effects == run.effects
    ensures r.outcome.Done? <==> run.outcome.Done?
    ensures run.outcome.Raised? ==> r.outcome == Raised(run.outcome.error)
  {
    Run(if run.outcome.Done? then Done(()) else Raised(run.outcome.error), run.rest, run.errno, run.effects)
  }

  /** A failed run, passed on by an operation with another result type. */
  function Failed<T, U>(run: Run<T>): (r: Run<U>)
    requires run.outcome.Raised?
    ensures r.rest == run.rest && r.errno == run.errno && r.effects == run.effects
    ensures r.outcome == Raised(run.outcome.error)
  {
    Run(Raised(run.outcome.error), run.rest, run.errno, run.effects)
  }

  /** The script after the replies that report an interrupted call, which the
      layer answers by repeating the call. */
  function SkipInterrupted(s: seq<int>): (t: seq<int>)
    ensures |t| <= |s|
    ensures !(Reply(t) < 0 && Interrupted(-Reply(t)))
    decreases |s|
  {
    if Reply(s) < 0 && Interrupted(-Reply(s)) then SkipInterrupted(Advance(s)) else s
  }

  /** Exactly the leading interrupted failures are skipped: what is left is a
      suffix of the script, and every reply before it is an interruption. */
  lemma {:induction false} SkipInterruptedSkipsOnly(s: seq<int>)
    ensures exists k :: 0 <= k <= |s| && SkipInterrupted(s) == s[k..]
                        && forall i :: 0 <= i < k ==> s[i] < 0 && Interrupted(-s[i])
    decreases |s|
  {
    if Reply(s) < 0 && Interrupted(-Reply(s)) {
      var s1 := Advance(s);
      SkipInterruptedSkipsOnly(s1);
      var k :| 0 <= k <= |s1| && SkipInterrupted(s1) == s1[k..]
               && forall i :: 0 <= i < k ==> s1[i] < 0 && Interrupted(-s1[i]);
      assert s1[k..] == s[k + 1..];
      forall i | 0 <= i < k + 1
        ensures s[i] < 0 && Interrupted(-s[i])
      {
        if i > 0 { assert s[i] == s1[i - 1]; }
      }
    } else {
      assert SkipInterrupted(s) == s[0..];
    }
  }

  /** The run with `effects` happening before its own. */
  function After<T>(effects: seq<Effect>, run: Run<T>): Run<T>
  {
    run.(effects := effects + run.effects)
  }

  // ---- getaddrinfo, as RFC 3493 section 6.1 specifies it ----

  /** The `ai_family` hint. */
  datatype FamilyHint = Unspec | Inet | Inet6

  /** `ai_flags`: AI_PASSIVE and AI_NUMERICHOST. */
  datatype Hints = Hints(passive: bool, numericHost: bool, family: FamilyHint)

  /** The arguments of one getaddrinfo() call (node and service may be null). */
  datatype GaiQuery = GaiQuery(node: string, nodeIsNull: bool, service: string, hints: Hints)

  /** The return code and the list of results; an empty list stands for no result list. */
  datatype GaiReply = GaiReply(code: int, addrs: seq<SockAddr>)

  /** The next resolver reply; a script that has run out answers EAI_FAIL. */
  function NextGai(s: seq<GaiReply>): GaiReply
  {
    if |s| == 0 then GaiReply(EAI_FAIL, []) else s[0]
  }

  function AdvanceGai(s: seq<GaiReply>): (t: seq<GaiReply>)
    ensures |t| <= |s|
  {
    if |s| == 0 then [] else s[1..]
  }

  function FamilyHintOf(protocol: ProtocolSupport): FamilyHint
  {
    match protocol
    case EnableIPv4 => Inet
    case EnableIPv6 => Inet6
    case EnableBoth => Unspec
  }

  /** The query for `host`: an empty host asks for service "1" with a null node. */
  function QueryFor(host: string, hints: Hints): GaiQuery
  {
    if host == [] then GaiQuery([], true, "1", hints) else GaiQuery(host, false, [], hints)
  }

  // ---- getifaddrs ----

  /** What an interface entry's `ifa_addr` holds. */
  datatype IfaceAddr = NoAddress | OtherFamily | Ip(addr: SockAddr)

  /** One `struct ifaddrs` entry: whether IFF_LOOPBACK is set, and its address. */
  datatype Iface = Iface(loopback: bool, ifaAddr: IfaceAddr)

  /** What the kernel and the C library report that is not a scripted reply. */
  datatype Env = Env(
    linux: bool,                    // the self-connect checks are compiled in
    localOf: Fd -> SockAddr,        // getsockname() of a descriptor
    peerOf: Fd -> SockAddr,         // getpeername() of a connected descriptor
    hostOf: SockAddr -> string,     // inetAddrToString (getnameinfo with NI_NUMERICHOST)
    interfaces: seq<Iface>)         // the list getifaddrs() returns
}

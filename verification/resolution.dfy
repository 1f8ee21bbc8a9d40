/** Name resolution and local interface enumeration: the `getaddrinfo` retry
    loop, `getAddresses` (ports applied, duplicates dropped in first-seen
    order), `getAddressImpl` and its two wrappers, `isWildcard`,
    `getLocalAddresses` over `getifaddrs`, and `getHostsForEndpointExpand`. */
module Resolution {
  import opened SocketErrors
  import opened Address
  import opened Kernel

  /** The number of extra lookups after an EAI_AGAIN without a result. */
  const LOOKUP_RETRIES := 5

  /** How a lookup loop ended: the last reply, the unread replies, and how many
      times `getaddrinfo` was called. */
  datatype Lookup = Lookup(reply: GaiReply, rest: seq<GaiReply>, calls: nat)

  /** A resolver operation: how it ends, the unread replies, the number of calls. */
  datatype Resolved<+T> = Resolved(outcome: Outcome<T>, rest: seq<GaiReply>, calls: nat)

  /** "Temporary failure, nothing returned": the only reply that is retried. */
  predicate TryAgain(g: GaiReply)
  {
    g.addrs == [] && g.code == EAI_AGAIN
  }

  /** The loop `do getaddrinfo(...) while (info == 0 && rs == EAI_AGAIN && --retry >= 0)`. */
  function LookupFrom(gs: seq<GaiReply>, retry: int): Lookup
    decreases if retry < 0 then 0 else retry
  {
    var g := NextGai(gs);
    if TryAgain(g) && retry - 1 >= 0 then
      var l := LookupFrom(AdvanceGai(gs), retry - 1);
      Lookup(l.reply, l.rest, l.calls + 1)
    else Lookup(g, AdvanceGai(gs), 1)
  }

  /** The query asked `n` times over, as the resolver log records a lookup loop. */
  function Repeat(q: GaiQuery, n: nat): (r: seq<GaiQuery>)
    ensures |r| == n && forall i :: 0 <= i < n ==> r[i] == q
  {
    if n == 0 then [] else Repeat(q, n - 1) + [q]
  }

  /** The resolver script after `n` replies. */
  function DropGai(gs: seq<GaiReply>, n: nat): seq<GaiReply>
  {
    if n == 0 then gs else DropGai(AdvanceGai(gs), n - 1)
  }

  /** The reply to the call numbered `n` (from 0). */
  function NthGai(gs: seq<GaiReply>, n: nat): GaiReply
  {
    NextGai(DropGai(gs, n))
  }

  /** The loop calls the resolver between 1 and `retry + 1` times; every reply
      but the last was "try again", and the last is one only when the retries
      are used up. */
  lemma {:induction false} LookupCalls(gs: seq<GaiReply>, retry: int)
    requires retry >= 0
    ensures var l := LookupFrom(gs, retry);
      && 1 <= l.calls <= retry + 1
      && l.reply == NthGai(gs, l.calls - 1)
      && l.rest == DropGai(gs, l.calls)
      && (forall i :: 0 <= i < l.calls - 1 ==> TryAgain(NthGai(gs, i)))
      && (l.calls <= retry ==> !TryAgain(l.reply))
    decreases retry
  {
    var l := LookupFrom(gs, retry);
    if TryAgain(NextGai(gs)) && retry - 1 >= 0 {
      var gs1 := AdvanceGai(gs);
      LookupCalls(gs1, retry - 1);
      var l1 := LookupFrom(gs1, retry - 1);
      assert l.calls == l1.calls + 1;
      assert l.reply == NthGai(gs, l.calls - 1) by {
        assert DropGai(gs, l.calls - 1) == DropGai(gs1, l1.calls - 1);
      }
      assert DropGai(gs, l.calls) == DropGai(gs1, l1.calls);
      forall i | 0 <= i < l.calls - 1
        ensures TryAgain(NthGai(gs, i))
      {
        if i > 0 {
          assert NthGai(gs, i) == NthGai(gs1, i - 1);
        }
      }
    }
  }

  /** `getaddrinfo` is called at most six times per lookup. */
  lemma LookupAtMostSix(gs: seq<GaiReply>)
    ensures 1 <= LookupFrom(gs, LOOKUP_RETRIES).calls <= 6
  {
    LookupCalls(gs, LOOKUP_RETRIES);
  }

  // ---- duplicates ----

  /** Some entry of `d` compares equal to `a`. */
  predicate Contains(d: seq<SockAddr>, a: SockAddr)
  {
    exists k :: 0 <= k < |d| && Compare(d[k], a) == 0
  }

  /** `getAddresses`' inner loop over the results so far, applied to each
      address in turn: an address is appended unless one comparing equal is
      already there. */
  function Dedup(xs: seq<SockAddr>): seq<SockAddr>
    decreases |xs|
  {
    if xs == [] then []
    else
      var d := Dedup(xs[..|xs| - 1]);
      if Contains(d, xs[|xs| - 1]) then d else d + [xs[|xs| - 1]]
  }

  /** The address at `i` is the first of its kind. */
  predicate FirstSeen(xs: seq<SockAddr>, i: int)
    requires 0 <= i < |xs|
  {
    forall j :: 0 <= j < i ==> Compare(xs[j], xs[i]) != 0
  }

  /** The reference: the first occurrences, in input order. */
  function Firsts(xs: seq<SockAddr>): seq<SockAddr>
    decreases |xs|
  {
    if xs == [] then []
    else Firsts(xs[..|xs| - 1]) + (if FirstSeen(xs, |xs| - 1) then [xs[|xs| - 1]] else [])
  }

  lemma ContainsAppend(d: seq<SockAddr>, x: SockAddr, a: SockAddr)
    ensures Contains(d + [x], a) <==> Contains(d, a) || Compare(x, a) == 0
  {
    if Compare(x, a) == 0 {
      assert (d + [x])[|d|] == x;
    }
    if Contains(d, a) {
      var k :| 0 <= k < |d| && Compare(d[k], a) == 0;
      assert (d + [x])[k] == d[k];
    }
  }

  /** An address is matched by the deduplicated list exactly when it is
      matched by the input. */
  lemma {:induction false} DedupCovers(xs: seq<SockAddr>, a: SockAddr)
    ensures Contains(Dedup(xs), a) <==> exists j :: 0 <= j < |xs| && Compare(xs[j], a) == 0
    decreases |xs|
  {
    if xs != [] {
      var p, x := xs[..|xs| - 1], xs[|xs| - 1];
      var d := Dedup(p);
      DedupCovers(p, a);
      ContainsAppend(d, x, a);
      if Contains(d, x) && Compare(x, a) == 0 {
        var k :| 0 <= k < |d| && Compare(d[k], x) == 0;
        CompareZeroTransitive(d[k], x, a);
      }
      assert Contains(Dedup(xs), a) <==> Contains(d, a) || Compare(x, a) == 0;
      if j :| 0 <= j < |xs| && Compare(xs[j], a) == 0 {
        if j < |p| {
          assert p[j] == xs[j];
        }
      }
      if j :| 0 <= j < |p| && Compare(p[j], a) == 0 {
        assert xs[j] == p[j];
      }
    }
  }

  /** Deduplication keeps exactly the first occurrences, in input order. */
  lemma {:induction false} DedupIsFirsts(xs: seq<SockAddr>)
    ensures Dedup(xs) == Firsts(xs)
    decreases |xs|
  {
    if xs != [] {
      var p, x := xs[..|xs| - 1], xs[|xs| - 1];
      DedupIsFirsts(p);
      DedupCovers(p, x);
      assert forall j :: 0 <= j < |p| ==> p[j] == xs[j];
      assert FirstSeen(xs, |xs| - 1) <==> !Contains(Dedup(p), x);
    }
  }

  /** No two entries compare equal. */
  predicate Distinct(d: seq<SockAddr>)
  {
    forall i, j :: 0 <= i < j < |d| ==> Compare(d[i], d[j]) != 0
  }

  /** No two entries of the result compare equal. */
  lemma {:induction false} DedupDistinct(xs: seq<SockAddr>)
    ensures Distinct(Dedup(xs))
    decreases |xs|
  {
    if xs != [] {
      var p, x := xs[..|xs| - 1], xs[|xs| - 1];
      DedupDistinct(p);
      var d := Dedup(p);
      if !Contains(d, x) {
        var e := d + [x];
        assert Dedup(xs) == e;
        forall i, j | 0 <= i < j < |e|
          ensures Compare(e[i], e[j]) != 0
        {
          if j == |d| {
            assert e[i] == d[i] && e[j] == x;
            assert Compare(d[i], x) != 0;
          } else {
            assert e[i] == d[i] && e[j] == d[j];
            assert Compare(d[i], d[j]) != 0;
          }
        }
      } else {
        assert Dedup(xs) == d;
      }
    }
  }

  /** Every entry of the result comes from the input, and a non-empty input
      gives a non-empty result. */
  lemma {:induction false} DedupFromInput(xs: seq<SockAddr>)
    ensures forall k :: 0 <= k < |Dedup(xs)| ==> Dedup(xs)[k] in xs
    ensures |Dedup(xs)| <= |xs|
    ensures xs != [] <==> Dedup(xs) != []
    decreases |xs|
  {
    if xs != [] {
      var p := xs[..|xs| - 1];
      DedupFromInput(p);
      assert forall a :: a in p ==> a in xs;
    }
  }

  // ---- getAddresses ----

  /** Every address with its port replaced by `htons(port)`. */
  function ApplyPort(addrs: seq<SockAddr>, port: int): (r: seq<SockAddr>)
    ensures |r| == |addrs|
    ensures forall i :: 0 <= i < |r| ==> r[i] == WithPort(addrs[i], port)
  {
    if addrs == [] then [] else ApplyPort(addrs[..|addrs| - 1], port) + [WithPort(addrs[|addrs| - 1], port)]
  }

  function AddressesHints(protocol: ProtocolSupport, blocking: bool): Hints
  {
    Hints(false, !blocking, FamilyHintOf(protocol))
  }

  /** `getAddresses`: look up (numerically only when not blocking); a
      non-blocking EAI_NONAME gives the empty list, which asks the caller for a
      blocking lookup; any other failure is a DNSException carrying the code;
      otherwise the results with the port applied, duplicates dropped, and a
      DNSException with code 0 if nothing is left. */
  function AddressesSpec(host: string, port: int, protocol: ProtocolSupport, blocking: bool,
                         gs: seq<GaiReply>): Resolved<seq<SockAddr>>
  {
    var l := LookupFrom(gs, LOOKUP_RETRIES);
    var rs := l.reply.code;
    if !blocking && rs == EAI_NONAME then Resolved(Done([]), l.rest, l.calls)
    else if rs != 0 then Resolved(Raised(DnsException(rs, host)), l.rest, l.calls)
    else
      var result := Dedup(ApplyPort(l.reply.addrs, port));
      if result == [] then Resolved(Raised(DnsException(0, host)), l.rest, l.calls)
      else Resolved(Done(result), l.rest, l.calls)
  }

  /** What `getAddresses` returns, in terms of the last resolver reply `g`:
      - the empty list exactly for a non-blocking lookup answered EAI_NONAME;
      - otherwise a non-empty list of distinct addresses, all with the port
        applied, being the first occurrences of `g`'s addresses in order and
        matching every one of them;
      - or a DNSException carrying `g`'s code, raised exactly when that code
        is an error or there was no result. */
  lemma AddressesOutcome(host: string, port: int, protocol: ProtocolSupport, blocking: bool, gs: seq<GaiReply>)
    ensures var r := AddressesSpec(host, port, protocol, blocking, gs);
      var g := LookupFrom(gs, LOOKUP_RETRIES).reply;
      var addrs := ApplyPort(g.addrs, port);
      && 1 <= r.calls <= 6
      && (r.outcome == Done([]) <==> !blocking && g.code == EAI_NONAME)
      && (r.outcome.Raised? <==> !(!blocking && g.code == EAI_NONAME) && (g.code != 0 || g.addrs == []))
      && (r.outcome.Raised? ==> r.outcome.error == DnsException(g.code, host))
      && (r.outcome.Done? && r.outcome.value != [] ==>
            var d := r.outcome.value;
            && g.code == 0
            && d == Firsts(addrs)
            && (forall k :: 0 <= k < |d| ==> GetPort(d[k]) == port % 0x1_0000)
            && (forall i, j :: 0 <= i < j < |d| ==> Compare(d[i], d[j]) != 0)
            && (forall j :: 0 <= j < |addrs| ==> Contains(d, addrs[j])))
  {
    var l := LookupFrom(gs, LOOKUP_RETRIES);
    LookupCalls(gs, LOOKUP_RETRIES);
    PortedDedup(l.reply.addrs, port);
  }

  /** One more result: appended with the port applied unless an equal address
      is already kept. */
  lemma DedupStep(results: seq<SockAddr>, i: nat, port: int)
    requires i < |results|
    ensures var d := Dedup(ApplyPort(results[..i], port));
      var a := WithPort(results[i], port);
      Dedup(ApplyPort(results[..i + 1], port)) == if Contains(d, a) then d else d + [a]
  {
    assert results[..i + 1][..i] == results[..i];
  }

  /** The results with the port applied and duplicates dropped: empty only for
      no results, the first occurrences in order, all with the port, distinct,
      and matching every result. */
  lemma PortedDedup(results: seq<SockAddr>, port: int)
    ensures var addrs := ApplyPort(results, port);
      var d := Dedup(addrs);
      && (d == [] <==> results == [])
      && d == Firsts(addrs)
      && (forall k :: 0 <= k < |d| ==> GetPort(d[k]) == port % 0x1_0000)
      && (forall i, j :: 0 <= i < j < |d| ==> Compare(d[i], d[j]) != 0)
      && (forall j :: 0 <= j < |addrs| ==> Contains(d, addrs[j]))
  {
    var addrs := ApplyPort(results, port);
    DedupFromInput(addrs);
    DedupIsFirsts(addrs);
    DedupDistinct(addrs);
    forall j | 0 <= j < |addrs|
      ensures Contains(Dedup(addrs), addrs[j])
    {
      CompareReflexive(addrs[j]);
      DedupCovers(addrs, addrs[j]);
    }
  }

  // ---- getAddressImpl ----

  function AddressImplHints(protocol: ProtocolSupport, server: bool): Hints
  {
    Hints(server, false, FamilyHintOf(protocol))
  }

  /** `getAddressImpl`: look up (passively for a server, so that an empty host
      gives the wildcard address); a failure is a DNSException carrying the
      code; otherwise the first result with the port applied. */
  function AddressImplSpec(host: string, port: int, protocol: ProtocolSupport, server: bool,
                           gs: seq<GaiReply>): Resolved<SockAddr>
  {
    var l := LookupFrom(gs, LOOKUP_RETRIES);
    if l.reply.code != 0 then Resolved(Raised(DnsException(l.reply.code, host)), l.rest, l.calls)
    else if l.reply.addrs == [] then Resolved(Raised(DnsException(0, host)), l.rest, l.calls)
    else Resolved(Done(WithPort(l.reply.addrs[0], port)), l.rest, l.calls)
  }

  /** The address returned is the resolver's first result, of the same family
      and with the same address, carrying the requested port; the only
      exception is a DNSException. */
  lemma AddressImplOutcome(host: string, port: int, protocol: ProtocolSupport, server: bool, gs: seq<GaiReply>)
    ensures var r := AddressImplSpec(host, port, protocol, server, gs);
      var g := LookupFrom(gs, LOOKUP_RETRIES).reply;
      && 1 <= r.calls <= 6
      && (r.outcome.Done? <==> g.code == 0 && g.addrs != [])
      && (r.outcome.Done? ==>
            && GetPort(r.outcome.value) == port % 0x1_0000
            && Family(r.outcome.value) == Family(g.addrs[0])
            && (r.outcome.value.V4? ==> r.outcome.value.addr == g.addrs[0].addr)
            && (r.outcome.value.V6? ==> r.outcome.value.addr6 == g.addrs[0].addr6
                                        && r.outcome.value.flowinfo == g.addrs[0].flowinfo
                                        && r.outcome.value.scopeId == g.addrs[0].scopeId))
      && (r.outcome.Raised? ==> r.outcome.error == DnsException(g.code, host))
  {
    LookupCalls(gs, LOOKUP_RETRIES);
  }

  /** `isWildcard`: whether the host resolves (non-passively, port 0) to the
      "any" address of its family; a DNS failure means no. */
  function IsWildcardSpec(host: string, protocol: ProtocolSupport, gs: seq<GaiReply>): Resolved<bool>
  {
    var r := AddressImplSpec(host, 0, protocol, false, gs);
    Resolved(Done(r.outcome.Done? && IsAnyAddress(r.outcome.value)), r.rest, r.calls)
  }

  /** `isWildcard` never raises, and answers yes exactly when the first
      resolved address is INADDR_ANY or `::`. */
  lemma IsWildcardOutcome(host: string, protocol: ProtocolSupport, gs: seq<GaiReply>)
    ensures var r := IsWildcardSpec(host, protocol, gs);
      var g := LookupFrom(gs, LOOKUP_RETRIES).reply;
      && r.outcome.Done?
      && (r.outcome.value <==> g.code == 0 && g.addrs != [] && IsAnyAddress(g.addrs[0]))
  {
  }

  // ---- local interfaces ----

  /** The address families the protocol setting admits. */
  predicate FamilyEnabled(a: SockAddr, protocol: ProtocolSupport)
  {
    if a.V4? then protocol != EnableIPv6 else protocol != EnableIPv4
  }

  /** An `ifaddrs` entry contributes its address when it has one, is not the
      loopback interface, is of an admitted family and is not the "any" address. */
  predicate Selected(i: Iface, protocol: ProtocolSupport)
  {
    !i.loopback && i.ifaAddr.Ip? && FamilyEnabled(i.ifaAddr.addr, protocol) && !IsAnyAddress(i.ifaAddr.addr)
  }

  /** The walk over the interface list, in list order. */
  function LocalFilter(ifs: seq<Iface>, protocol: ProtocolSupport): seq<SockAddr>
    decreases |ifs|
  {
    if ifs == [] then []
    else
      var last := ifs[|ifs| - 1];
      LocalFilter(ifs[..|ifs| - 1], protocol) + (if Selected(last, protocol) then [last.ifaAddr.addr] else [])
  }

  /** The local addresses are exactly the addresses of non-loopback interfaces
      of an admitted family that are not the "any" address. */
  lemma {:induction false} LocalFilterMembers(ifs: seq<Iface>, protocol: ProtocolSupport, a: SockAddr)
    ensures a in LocalFilter(ifs, protocol) <==>
      exists i :: 0 <= i < |ifs| && ifs[i] == Iface(false, Ip(a)) && FamilyEnabled(a, protocol) && !IsAnyAddress(a)
    decreases |ifs|
  {
    if ifs != [] {
      var p := ifs[..|ifs| - 1];
      LocalFilterMembers(p, protocol, a);
      assert forall i :: 0 <= i < |p| ==> p[i] == ifs[i];
      var last := ifs[|ifs| - 1];
      if last == Iface(false, Ip(a)) && FamilyEnabled(a, protocol) && !IsAnyAddress(a) {
        assert Selected(last, protocol);
      }
    }
  }

  /** `getLocalAddresses`: `getifaddrs`, whose failure is a SocketException,
      then the selected addresses. */
  function LocalAddressesSpec(env: Env, protocol: ProtocolSupport, s: seq<int>, errno: int): Run<seq<SockAddr>>
  {
    var rc := Reply(s);
    if rc < 0 then Run(Raised(SocketException(-rc)), Advance(s), -rc, [])
    else Run(Done(LocalFilter(env.interfaces, protocol)), Advance(s), errno, [])
  }

  // ---- getHostsForEndpointExpand ----

  /** The rendering of the addresses that are not link-local IPv6 addresses. */
  function Published(hostOf: SockAddr -> string, addrs: seq<SockAddr>): seq<string>
    decreases |addrs|
  {
    if addrs == [] then []
    else
      var a := addrs[|addrs| - 1];
      Published(hostOf, addrs[..|addrs| - 1]) + (if a.V6? && IsLinkLocal6(a.addr6) then [] else [hostOf(a)])
  }

  /** The loopback addresses published when no interface address is. */
  function Fallback(protocol: ProtocolSupport): seq<string>
  {
    (if protocol != EnableIPv6 then ["127.0.0.1"] else [])
      + (if protocol != EnableIPv4 then ["0:0:0:0:0:0:0:1"] else [])
  }

  /** The hosts of a wildcard endpoint: the published local addresses, or the
      loopback fallback. */
  function ExpandedHosts(hostOf: SockAddr -> string, addrs: seq<SockAddr>, protocol: ProtocolSupport): seq<string>
  {
    var hosts := Published(hostOf, addrs);
    if hosts == [] then Fallback(protocol) else hosts
  }

  /** `getHostsForEndpointExpand`: for an empty or wildcard host, the expanded
      local hosts; otherwise the empty list ("use the host as given"). The
      wildcard test is skipped for an empty host. */
  function ExpandSpec(env: Env, host: string, protocol: ProtocolSupport, s: seq<int>, errno: int,
                      gs: seq<GaiReply>): (Run<seq<string>>, Resolved<bool>)
  {
    var wild := if host == [] then Resolved(Done(true), gs, 0) else IsWildcardSpec(host, protocol, gs);
    if !(wild.outcome.Done? && wild.outcome.value) then (Run(Done([]), s, errno, []), wild)
    else
      var l := LocalAddressesSpec(env, protocol, s, errno);
      if l.outcome.Raised? then (Failed(l), wild)
      else (Run(Done(ExpandedHosts(env.hostOf, l.outcome.value, protocol)), l.rest, l.errno, []), wild)
  }

  /** Every published host is the rendering of a local address that is not
      link-local, and each such address is published. */
  lemma {:induction false} PublishedMembers(hostOf: SockAddr -> string, addrs: seq<SockAddr>)
    ensures forall h :: h in Published(hostOf, addrs) <==>
      exists k :: 0 <= k < |addrs| && !(addrs[k].V6? && IsLinkLocal6(addrs[k].addr6)) && h == hostOf(addrs[k])
    decreases |addrs|
  {
    if addrs != [] {
      var p := addrs[..|addrs| - 1];
      PublishedMembers(hostOf, p);
      assert forall k :: 0 <= k < |p| ==> p[k] == addrs[k];
      var a := addrs[|addrs| - 1];
      forall h | h in Published(hostOf, addrs)
        ensures exists k :: 0 <= k < |addrs| && !(addrs[k].V6? && IsLinkLocal6(addrs[k].addr6)) && h == hostOf(addrs[k])
      {
        if h !in Published(hostOf, p) {
          assert h == hostOf(addrs[|addrs| - 1]);
        }
      }
    }
  }

  /** The expansion never publishes a link-local IPv6 address, falls back to the
      loopback addresses of the enabled families exactly when nothing else is
      published (so a wildcard host always expands to something), and leaves a
      concrete host alone. */
  lemma ExpandOutcome(env: Env, host: string, protocol: ProtocolSupport, s: seq<int>, errno: int, gs: seq<GaiReply>)
    ensures var (run, wild) := ExpandSpec(env, host, protocol, s, errno, gs);
      && run.effects == []
      && (host != [] && !IsWildcardSpec(host, protocol, gs).outcome.value ==>
            run == Run(Done([]), s, errno, []))
      && (host == [] ==> wild.calls == 0)
      && (run.outcome.Raised? ==> run.outcome.error == SocketException(run.errno))
    ensures var (run, wild) := ExpandSpec(env, host, protocol, s, errno, gs);
      var addrs := LocalFilter(env.interfaces, protocol);
      var expand := host == [] || IsWildcardSpec(host, protocol, gs).outcome.value;
      && (expand && run.outcome.Done? ==> run.outcome.value != [])
      && (expand && run.outcome.Done? && Published(env.hostOf, addrs) == [] ==>
            run.outcome.value == Fallback(protocol))
      && (expand && run.outcome.Done? && Published(env.hostOf, addrs) != [] ==>
            run.outcome.value == Published(env.hostOf, addrs))
  {
    var (run, wild) := ExpandSpec(env, host, protocol, s, errno, gs);
    var expand := host == [] || IsWildcardSpec(host, protocol, gs).outcome.value;
    if expand {
      var l := LocalAddressesSpec(env, protocol, s, errno);
      if l.outcome.Done? {
        assert run.outcome.value == ExpandedHosts(env.hostOf, LocalFilter(env.interfaces, protocol), protocol);
        ExpandedHostsNonEmpty(env.hostOf, LocalFilter(env.interfaces, protocol), protocol);
      }
    }
  }

  lemma ExpandedHostsNonEmpty(hostOf: SockAddr -> string, addrs: seq<SockAddr>, protocol: ProtocolSupport)
    ensures ExpandedHosts(hostOf, addrs, protocol) != []
  {
  }
}

/** Establishing connections: binding and listening, connecting (with the wait
    for a connection in progress and the Linux self-connect check), accepting,
    and describing a descriptor by its two addresses. */
module Establish {
  import opened SocketErrors
  import opened Address
  import opened Kernel
  import opened Configure

  /** `fdToLocalAddress`: `getsockname`, or close and raise. */
  function LocalAddressSpec(env: Env, fd: Fd, s: seq<int>, errno: int): Run<SockAddr>
  {
    var rc := Reply(s);
    if rc < 0 then Run(Raised(SocketException(-rc)), Advance(s), -rc, [Closed(fd)])
    else Run(Done(env.localOf(fd)), Advance(s), errno, [])
  }

  /** `fdToRemoteAddress`: whether `getpeername` found a peer (then the peer is
      `env.peerOf(fd)`); "not connected" is an answer, any other failure closes
      and raises. */
  function RemoteAddressSpec(env: Env, fd: Fd, s: seq<int>, errno: int): Run<bool>
  {
    var rc := Reply(s);
    if rc < 0 then
      if NotConnected(-rc) then Run(Done(false), Advance(s), -rc, [])
      else Run(Raised(SocketException(-rc)), Advance(s), -rc, [Closed(fd)])
    else Run(Done(true), Advance(s), errno, [])
  }

  /** Both address queries close the descriptor exactly when they raise. */
  lemma AddressQueriesCloseOnlyOnRaise(env: Env, fd: Fd, s: seq<int>, errno: int)
    ensures var l := LocalAddressSpec(env, fd, s, errno);
      && (l.outcome.Raised? <==> l.effects == [Closed(fd)])
      && (l.outcome.Done? ==> l.effects == [] && l.outcome.value == env.localOf(fd))
    ensures var r := RemoteAddressSpec(env, fd, s, errno);
      && (r.outcome.Raised? <==> r.effects == [Closed(fd)])
      && (r.outcome.Done? ==> r.effects == [])
      && (r.outcome == Done(false) <==> Reply(s) < 0 && NotConnected(-Reply(s)))
      && (r.outcome.Raised? ==> r.outcome.error == SocketException(r.errno) && !NotConnected(r.errno))
  {
  }

  // ---- bind and listen ----

  /** `doBind`: `bind`, or close and raise; then the bound address is read back
      with `getsockname`, whose failure is not checked (the address then stays
      as it was). */
  function BindSpec(env: Env, fd: Fd, addr: SockAddr, s: seq<int>, errno: int): Run<SockAddr>
  {
    var rc := Reply(s);
    if rc < 0 then Run(Raised(SocketException(-rc)), Advance(s), -rc, [Closed(fd)])
    else
      var s1 := Advance(s);
      Run(Done(if Reply(s1) < 0 then addr else env.localOf(fd)), Advance(s1), ErrnoAfter(s1, errno), [])
  }

  /** A successful bind reports the address the kernel assigned (with the
      ephemeral port filled in); a failed one closes the descriptor. */
  lemma BindOutcome(env: Env, fd: Fd, addr: SockAddr, s: seq<int>, errno: int)
    ensures var run := BindSpec(env, fd, addr, s, errno);
      && (run.outcome.Raised? <==> Reply(s) < 0)
      && (run.outcome.Raised? ==> run.effects == [Closed(fd)] && run.outcome.error == SocketException(run.errno))
      && (run.outcome.Done? ==> run.effects == [])
      && (run.outcome.Done? && Reply(Advance(s)) >= 0 ==> run.outcome.value == env.localOf(fd))
  {
  }

  /** `doListen`: `listen`, repeated while interrupted; otherwise close and raise. */
  function ListenSpec(fd: Fd, backlog: int, s: seq<int>, errno: int): Run<()>
    decreases |s|
  {
    var rc := Reply(s);
    if rc < 0 then
      if Interrupted(-rc) then ListenSpec(fd, backlog, Advance(s), -rc)
      else Run(Raised(SocketException(-rc)), Advance(s), -rc, [Closed(fd)])
    else Run(Done(()), Advance(s), errno, [])
  }

  /** The first reply that is not an interruption decides `listen`. */
  lemma {:induction false} ListenOutcome(fd: Fd, backlog: int, s: seq<int>, errno: int)
    ensures var run := ListenSpec(fd, backlog, s, errno);
      var t := SkipInterrupted(s);
      && run.rest == Advance(t)
      && (run.outcome.Raised? <==> Reply(t) < 0)
      && (run.outcome.Raised? ==> run.effects == [Closed(fd)]
                                  && run.outcome.error == SocketException(-Reply(t)))
      && (run.outcome.Done? ==> run.effects == [])
    decreases |s|
  {
    if Reply(s) < 0 && Interrupted(-Reply(s)) {
      ListenOutcome(fd, backlog, Advance(s), -Reply(s));
    }
  }

  // ---- connect ----

  /** A wait with `poll` for the descriptor to become ready: a positive
      answer means ready, 0 means the timeout expired and raises `expired`, an
      interrupted wait is repeated. `doFinishConnect` waits for writability
      (expiry is a ConnectTimeoutException), `doAccept` for readability (a
      TimeoutException). */
  function PollSpec(expired: NetError, s: seq<int>, errno: int): (r: Run<()>)
    ensures |r.rest| < |s| || s == []
    decreases |s|
  {
    var rc := Reply(s);
    if rc == 0 then Run(Raised(expired), Advance(s), errno, [])
    else if rc < 0 then
      if Interrupted(-rc) then PollSpec(expired, Advance(s), -rc)
      else Run(Raised(SocketException(-rc)), Advance(s), -rc, [])
    else Run(Done(()), Advance(s), errno, [])
  }

  /** The first answer of `poll` that is not an interruption decides the wait,
      and waiting never touches the descriptor. */
  lemma {:induction false} PollOutcome(expired: NetError, s: seq<int>, errno: int)
    requires !expired.SocketException?
    ensures var run := PollSpec(expired, s, errno);
      var r := Reply(SkipInterrupted(s));
      && run.effects == []
      && run.rest == Advance(SkipInterrupted(s))
      && (r == 0 <==> run.outcome == Raised(expired))
      && (r < 0 <==> run.outcome == Raised(SocketException(-r)))
      && (r > 0 <==> run.outcome.Done?)
    decreases |s|
  {
    if Reply(s) < 0 && Interrupted(-Reply(s)) {
      PollOutcome(expired, Advance(s), -Reply(s));
    }
  }

  /** The Linux self-connect check after a connection in progress completed:
      refuse when the peer address equals the local one. A failed address
      query closes the descriptor (see `fdToLocalAddress`). */
  function PeerSelfCheckSpec(env: Env, fd: Fd, s: seq<int>, errno: int): Run<()>
  {
    var l := LocalAddressSpec(env, fd, s, errno);
    if l.outcome.Raised? then Failed(l)
    else
      var r := RemoteAddressSpec(env, fd, l.rest, l.errno);
      if r.outcome.Raised? then Failed(r)
      else if r.outcome.value && Compare(env.peerOf(fd), l.outcome.value) == 0 then
        Run(Raised(ConnectionRefusedException(0)), r.rest, r.errno, [])
      else Run(Done(()), r.rest, r.errno, [])
  }

  /** The self-connect check as `doFinishConnect`'s opening note asks for it:
      `getsockname`, then `getpeername` ("not connected" meaning no peer), and
      a failed query raises a SocketException with the descriptor left open. */
  function QuietSelfCheckSpec(env: Env, fd: Fd, s: seq<int>, errno: int): Run<()>
  {
    var rc := Reply(s);
    if rc < 0 then Run(Raised(SocketException(-rc)), Advance(s), -rc, [])
    else
      var s1 := Advance(s);
      var rc1 := Reply(s1);
      if rc1 < 0 && !NotConnected(-rc1) then Run(Raised(SocketException(-rc1)), Advance(s1), -rc1, [])
      else if rc1 >= 0 && Compare(env.peerOf(fd), env.localOf(fd)) == 0 then
        Run(Raised(ConnectionRefusedException(0)), Advance(s1), errno, [])
      else Run(Done(()), Advance(s1), ErrnoAfter(s1, errno), [])
  }

  /** `getsockopt(SO_ERROR)` on the completed connection: its failure raises; a
      positive pending error becomes errno and is classified as `connect`'s
      error would be; then, on Linux, the self-connect check, whose address
      queries close the descriptor on failure unless `quiet`. */
  function SoErrorSpec(env: Env, fd: Fd, s: seq<int>, errno: int, quiet: bool): Run<()>
  {
    var rc := Reply(s);
    if rc < 0 then Run(Raised(SocketException(-rc)), Advance(s), -rc, [])
    else if rc > 0 then Run(Raised(ClassifyConnect(rc)), Advance(s), rc, [])
    else if !env.linux then Run(Done(()), Advance(s), errno, [])
    else if quiet then QuietSelfCheckSpec(env, fd, Advance(s), errno)
    else PeerSelfCheckSpec(env, fd, Advance(s), errno)
  }

  /** `doFinishConnect`: wait unless the timeout is 0, then read the pending
      error; `quiet` selects the self-connect check that leaves the
      descriptor open. */
  function FinishConnectWith(env: Env, fd: Fd, timeout: int, s: seq<int>, errno: int, quiet: bool): Run<()>
  {
    if timeout != 0 then
      var w := PollSpec(ConnectTimeoutException, s, errno);
      if w.outcome.Raised? then w else SoErrorSpec(env, fd, w.rest, w.errno, quiet)
    else SoErrorSpec(env, fd, s, errno, quiet)
  }

  /** `doFinishConnect` as written. */
  function FinishConnectSpec(env: Env, fd: Fd, timeout: int, s: seq<int>, errno: int): Run<()>
  {
    FinishConnectWith(env, fd, timeout, s, errno, false)
  }

  /** `doFinishConnect` as its opening note describes it: every close is left
      to the caller. */
  function FinishConnectIntendedSpec(env: Env, fd: Fd, timeout: int, s: seq<int>, errno: int): Run<()>
  {
    FinishConnectWith(env, fd, timeout, s, errno, true)
  }

  /** The self-connect check: the first query's failure raises; "not
      connected" from the second means no peer and success; any other failure
      of it raises; with both answered, the connection is refused with error 0
      exactly when the peer address compares equal to the local one. Only the
      as-written check closes the descriptor, and only when a query raises. */
  lemma SoErrorOutcome(env: Env, fd: Fd, s: seq<int>, errno: int, quiet: bool)
    ensures var run := SoErrorSpec(env, fd, s, errno, quiet);
      var rc := Reply(s);
      var s1 := Advance(s);
      var s2 := Advance(s1);
      var closed: seq<Effect> := if quiet then [] else [Closed(fd)];
      && (rc < 0 ==> run == Run(Raised(SocketException(-rc)), s1, -rc, []))
      && (rc > 0 ==> run == Run(Raised(ClassifyConnect(rc)), s1, rc, []))
      && (rc == 0 && !env.linux ==> run.outcome == Done(()) && run.effects == [])
      && (rc == 0 && env.linux && Reply(s1) < 0 ==>
            run.outcome == Raised(SocketException(-Reply(s1))) && run.effects == closed)
      && (rc == 0 && env.linux && Reply(s1) >= 0 && Reply(s2) < 0 && NotConnected(-Reply(s2)) ==>
            run.outcome == Done(()) && run.effects == [])
      && (rc == 0 && env.linux && Reply(s1) >= 0 && Reply(s2) < 0 && !NotConnected(-Reply(s2)) ==>
            run.outcome == Raised(SocketException(-Reply(s2))) && run.effects == closed)
      && (rc == 0 && env.linux && Reply(s1) >= 0 && Reply(s2) >= 0 ==>
            && run.outcome == (if Compare(env.peerOf(fd), env.localOf(fd)) == 0
                               then Raised(ConnectionRefusedException(0)) else Done(()))
            && run.effects == [])
  {
  }

  /** How `doFinishConnect` ends, for every timeout. Unless the timeout is 0,
      the first answer of `poll` that is not an interruption decides first:
      0 is a ConnectTimeoutException and an error a SocketException. After
      the wait (or at once with timeout 0) the SO_ERROR reply decides: a
      failure raises a SocketException, a pending error the exception its
      code classifies to, and 0 leads to the self-connect check of
      `SoErrorOutcome`. Nothing but a failed query of that check closes. */
  lemma FinishConnectOutcome(env: Env, fd: Fd, timeout: int, s: seq<int>, errno: int, quiet: bool)
    ensures var run := FinishConnectWith(env, fd, timeout, s, errno, quiet);
      var p := Reply(SkipInterrupted(s));
      var t := if timeout == 0 then s else Advance(SkipInterrupted(s));
      var waited := timeout == 0 || p > 0;
      && (timeout != 0 && p == 0 ==> run.outcome == Raised(ConnectTimeoutException) && run.effects == [])
      && (timeout != 0 && p < 0 ==> run.outcome == Raised(SocketException(-p)) && run.effects == [])
      && (waited && Reply(t) < 0 ==> run == Run(Raised(SocketException(-Reply(t))), Advance(t), -Reply(t), []))
      && (waited && Reply(t) > 0 ==> run == Run(Raised(ClassifyConnect(Reply(t))), Advance(t), Reply(t), []))
      && (waited && Reply(t) == 0 ==>
            var c := SoErrorSpec(env, fd, t, errno, quiet);
            run.outcome == c.outcome && run.effects == c.effects && run.rest == c.rest)
  {
    if timeout != 0 {
      var w := PollSpec(ConnectTimeoutException, s, errno);
      PollOutcome(ConnectTimeoutException, s, errno);
      if w.outcome.Done? {
        SoErrorOutcome(env, fd, w.rest, w.errno, quiet);
        SoErrorOutcome(env, fd, w.rest, errno, quiet);
      }
    }
  }

  /** `doFinishConnect` leaves closing to its caller, except that on Linux a
      failed address query of the self-connect check closes the descriptor
      (always with a SocketException); it never closes anything else and never
      opens anything. */
  lemma FinishConnectCloses(env: Env, fd: Fd, timeout: int, s: seq<int>, errno: int)
    ensures var run := FinishConnectSpec(env, fd, timeout, s, errno);
      && (run.effects == [] || run.effects == [Closed(fd)])
      && (run.effects == [Closed(fd)] ==> env.linux && run.outcome.Raised?
                                           && run.outcome.error == SocketException(run.errno))
      && (run.outcome.Done? ==> run.effects == [])
  {
    if timeout != 0 {
      PollOutcome(ConnectTimeoutException, s, errno);
    }
  }

  /** A positive pending error, after the wait or at once with a timeout of 0,
      is reported exactly as a failed `connect` is: refused before failed
      before the generic socket exception, with nothing closed. */
  lemma FinishConnectPendingError(env: Env, fd: Fd, timeout: int, s: seq<int>, errno: int)
    requires timeout == 0 || Reply(SkipInterrupted(s)) > 0
    requires var t := if timeout == 0 then s else Advance(SkipInterrupted(s)); Reply(t) > 0
    ensures var t := if timeout == 0 then s else Advance(SkipInterrupted(s));
      FinishConnectSpec(env, fd, timeout, s, errno) == Run(Raised(ClassifyConnect(Reply(t))), Advance(t), Reply(t), [])
  {
    FinishConnectOutcome(env, fd, timeout, s, errno, false);
  }

  /** The finish that leaves every close to the caller ends exactly as the
      written one does (same outcome, same replies consumed, same errno), with
      no effect at all. */
  lemma FinishConnectIntendedAgrees(env: Env, fd: Fd, timeout: int, s: seq<int>, errno: int)
    ensures var i := FinishConnectIntendedSpec(env, fd, timeout, s, errno);
      var w := FinishConnectSpec(env, fd, timeout, s, errno);
      i.effects == [] && i.outcome == w.outcome && i.rest == w.rest && i.errno == w.errno
  {
    if timeout != 0 {
      var w := PollSpec(ConnectTimeoutException, s, errno);
      PollOutcome(ConnectTimeoutException, s, errno);
      if w.outcome.Done? {
        SoErrorQuietAgrees(env, fd, w.rest, w.errno);
      }
    } else {
      SoErrorQuietAgrees(env, fd, s, errno);
    }
  }

  /** The quiet SO_ERROR step differs from the written one only in its effects. */
  lemma SoErrorQuietAgrees(env: Env, fd: Fd, s: seq<int>, errno: int)
    ensures var i := SoErrorSpec(env, fd, s, errno, true);
      var w := SoErrorSpec(env, fd, s, errno, false);
      i.effects == [] && i.outcome == w.outcome && i.rest == w.rest && i.errno == w.errno
  {
  }

  /** `doConnect`: `connect`, repeated while interrupted. A connection in
      progress is left pending with a timeout of 0, otherwise it is finished
      and the descriptor closed if that fails. Any other failure closes the
      descriptor and raises the classified exception. A connection made at
      once is, on Linux, checked against connecting to itself. `intended`
      selects the `doFinishConnect` that never closes in place of the one as
      written. */
  function ConnectWith(env: Env, fd: Fd, addr: SockAddr, timeout: int, s: seq<int>, errno: int,
                       intended: bool): Run<bool>
    decreases |s|
  {
    var rc := Reply(s);
    var s1 := Advance(s);
    if rc < 0 then
      var e := -rc;
      if Interrupted(e) then ConnectWith(env, fd, addr, timeout, s1, e, intended)
      else if ConnectInProgress(e) then
        if timeout == 0 then Run(Done(false), s1, e, [])
        else
          var f := if intended then FinishConnectIntendedSpec(env, fd, timeout, s1, e)
                   else FinishConnectSpec(env, fd, timeout, s1, e);
          if f.outcome.Raised? then Run(Raised(f.outcome.error), f.rest, f.errno, f.effects + [Closed(fd)])
          else WithValue(f, true)
      else Run(Raised(ClassifyConnect(e)), s1, e, [Closed(fd)])
    else if env.linux then
      var l := LocalAddressSpec(env, fd, s1, errno);
      if l.outcome.Raised? then Failed(l)
      else if Compare(addr, l.outcome.value) == 0 then
        Run(Raised(ConnectionRefusedException(0)), l.rest, l.errno, [])
      else Run(Done(true), l.rest, l.errno, [])
    else Run(Done(true), s1, errno, [])
  }

  /** `doConnect` as written. */
  function ConnectSpec(env: Env, fd: Fd, addr: SockAddr, timeout: int, s: seq<int>, errno: int): Run<bool>
  {
    ConnectWith(env, fd, addr, timeout, s, errno, false)
  }

  /** The first reply of `connect` that is not an interruption decides:
      - an error other than "in progress" closes the descriptor and raises the
        classified exception carrying that error;
      - "in progress" with a timeout of 0 returns false with the descriptor open;
      - a failure while finishing the connection ends with the descriptor closed;
      - a success returns true and closes nothing.
      What the result is after a finish is `ConnectResult`. */
  lemma {:induction false} ConnectOutcome(env: Env, fd: Fd, addr: SockAddr, timeout: int, s: seq<int>, errno: int,
                                          intended: bool)
    ensures var run := ConnectWith(env, fd, addr, timeout, s, errno, intended);
      var r := Reply(SkipInterrupted(s));
      && (r < 0 && !ConnectInProgress(-r) ==>
            run.outcome == Raised(ClassifyConnect(-r)) && run.effects == [Closed(fd)])
      && (r < 0 && ConnectInProgress(-r) && timeout == 0 ==>
            run.outcome == Done(false) && run.effects == [])
      && (r < 0 && ConnectInProgress(-r) && run.outcome.Raised? ==>
            |run.effects| > 0 && run.effects[|run.effects| - 1] == Closed(fd))
      && (run.outcome.Done? ==> run.effects == [])
      && (run.outcome == Done(false) <==> r < 0 && ConnectInProgress(-r) && timeout == 0)
      && (intended ==> run.effects == [] || run.effects == [Closed(fd)])
    decreases |s|
  {
    if Reply(s) < 0 && Interrupted(-Reply(s)) {
      assert SkipInterrupted(s) == SkipInterrupted(Advance(s));
      assert ConnectWith(env, fd, addr, timeout, s, errno, intended)
          == ConnectWith(env, fd, addr, timeout, Advance(s), -Reply(s), intended);
      ConnectOutcome(env, fd, addr, timeout, Advance(s), -Reply(s), intended);
    } else if Reply(s) < 0 && ConnectInProgress(-Reply(s)) && timeout != 0 {
      if intended {
        FinishConnectIntendedAgrees(env, fd, timeout, Advance(s), -Reply(s));
      } else {
        FinishConnectCloses(env, fd, timeout, Advance(s), -Reply(s));
      }
    }
  }

  /** What `doConnect` returns after "in progress" with a timeout other than
      0: true exactly when finishing the connection succeeds, and the finish's
      own exception otherwise. */
  lemma {:induction false} ConnectResult(env: Env, fd: Fd, addr: SockAddr, timeout: int, s: seq<int>, errno: int,
                                         intended: bool)
    ensures var run := ConnectWith(env, fd, addr, timeout, s, errno, intended);
      var r := Reply(SkipInterrupted(s));
      r < 0 && ConnectInProgress(-r) && timeout != 0 ==>
        var f := FinishConnectWith(env, fd, timeout, Advance(SkipInterrupted(s)), -r, intended);
        && (run.outcome == Done(true) <==> f.outcome.Done?)
        && (f.outcome.Raised? ==> run.outcome == Raised(f.outcome.error))
    decreases |s|
  {
    var rc := Reply(s);
    if rc < 0 && Interrupted(-rc) {
      assert SkipInterrupted(s) == SkipInterrupted(Advance(s));
      assert ConnectWith(env, fd, addr, timeout, s, errno, intended)
          == ConnectWith(env, fd, addr, timeout, Advance(s), -rc, intended);
      ConnectResult(env, fd, addr, timeout, Advance(s), -rc, intended);
    } else if rc < 0 && ConnectInProgress(-rc) && timeout != 0 {
      ConnectFinishStep(env, fd, addr, timeout, s, errno, intended);
    }
  }

  /** The step of `ConnectResult` at the reply "in progress". */
  lemma ConnectFinishStep(env: Env, fd: Fd, addr: SockAddr, timeout: int, s: seq<int>, errno: int, intended: bool)
    requires Reply(s) < 0 && ConnectInProgress(-Reply(s)) && timeout != 0
    ensures var run := ConnectWith(env, fd, addr, timeout, s, errno, intended);
      var f := FinishConnectWith(env, fd, timeout, Advance(s), -Reply(s), intended);
      && (run.outcome == Done(true) <==> f.outcome.Done?)
      && (f.outcome.Raised? ==> run.outcome == Raised(f.outcome.error))
  {
    var f := FinishConnectWith(env, fd, timeout, Advance(s), -Reply(s), intended);
    assert f == if intended then FinishConnectIntendedSpec(env, fd, timeout, Advance(s), -Reply(s))
                else FinishConnectSpec(env, fd, timeout, Advance(s), -Reply(s));
  }

  /** Off Linux, a `connect` that succeeds (after any interruptions) returns true. */
  lemma {:induction false} ConnectImmediate(env: Env, fd: Fd, addr: SockAddr, timeout: int, s: seq<int>, errno: int,
                                            intended: bool)
    requires !env.linux
    ensures var run := ConnectWith(env, fd, addr, timeout, s, errno, intended);
      Reply(SkipInterrupted(s)) >= 0 ==> run.outcome == Done(true) && run.effects == []
    decreases |s|
  {
    if Reply(s) < 0 && Interrupted(-Reply(s)) {
      ConnectImmediate(env, fd, addr, timeout, Advance(s), -Reply(s), intended);
    }
  }

  /** As written, `doConnect` can close the descriptor twice: on Linux, when the
      address query of `doFinishConnect`'s self-connect check fails, that query
      closes the descriptor and `doConnect`'s handler closes it again. */
  lemma ConnectClosesTwice(env: Env, fd: Fd, addr: SockAddr)
    requires env.linux
    ensures ConnectSpec(env, fd, addr, -1, [-EINPROGRESS, 1, 0, -ENOBUFS], 0).effects == [Closed(fd), Closed(fd)]
  {
    var s := [-EINPROGRESS, 1, 0, -ENOBUFS];
    assert Advance(s) == [1, 0, -ENOBUFS];
    assert Advance(Advance(s)) == [0, -ENOBUFS];
    assert Advance(Advance(Advance(s))) == [-ENOBUFS];
  }

  /** With `doFinishConnect` leaving every close to its caller, as its opening
      note says, `doConnect` closes the descriptor at most once, and exactly
      once whenever it fails after `connect` itself failed. */
  lemma ConnectIntendedClosesOnce(env: Env, fd: Fd, addr: SockAddr, timeout: int, s: seq<int>, errno: int)
    ensures var run := ConnectWith(env, fd, addr, timeout, s, errno, true);
      && (run.effects == [] || run.effects == [Closed(fd)])
      && (Reply(SkipInterrupted(s)) < 0 && run.outcome.Raised? ==> run.effects == [Closed(fd)])
  {
    ConnectOutcome(env, fd, addr, timeout, s, errno, true);
  }

  /** On Linux a connection made at once (after any interruptions) is checked against connecting to
      itself: it is refused with error 0 exactly when the target compares
      equal to the descriptor's own address, and returns true otherwise;
      either way the descriptor stays open. */
  lemma {:induction false} ConnectSelfRefusal(env: Env, fd: Fd, addr: SockAddr, timeout: int, s: seq<int>, errno: int,
                                              intended: bool)
    requires env.linux
    requires Reply(SkipInterrupted(s)) >= 0 && Reply(Advance(SkipInterrupted(s))) >= 0
    ensures var run := ConnectWith(env, fd, addr, timeout, s, errno, intended);
      && run.outcome == (if Compare(addr, env.localOf(fd)) == 0 then Raised(ConnectionRefusedException(0))
                         else Done(true))
      && run.effects == []
    decreases |s|
  {
    if Reply(s) < 0 && Interrupted(-Reply(s)) {
      ConnectSelfRefusal(env, fd, addr, timeout, Advance(s), -Reply(s), intended);
    }
  }

  // ---- accept ----

  /** `doAccept`: `accept`, repeated after an interruption or a connection that
      went away; when it would block, wait for readability and accept again.
      An accepted connection gets no-delay and keep-alive before it is
      returned. */
  function AcceptSpec(fd: Fd, timeout: int, s: seq<int>, errno: int): Run<Fd>
    decreases |s|
  {
    var rc := Reply(s);
    var s1 := Advance(s);
    if rc < 0 then
      var e := -rc;
      if AcceptInterrupted(e) then AcceptSpec(fd, timeout, s1, e)
      else if WouldBlock(e) then
        var w := PollSpec(TimeoutException, s1, e);
        if w.outcome.Raised? then Failed(w) else AcceptSpec(fd, timeout, w.rest, w.errno)
      else Run(Raised(SocketException(e)), s1, e, [])
    else After([Opened(rc)], WithValue(TcpOptionsSpec(rc, s1, errno), rc))
  }

  /** How `accept` continues after a failed call. */
  lemma AcceptFailure(fd: Fd, timeout: int, s: seq<int>, errno: int)
    requires Reply(s) < 0
    ensures var e := -Reply(s);
      var w := PollSpec(TimeoutException, Advance(s), e);
      AcceptSpec(fd, timeout, s, errno)
        == if AcceptInterrupted(e) then AcceptSpec(fd, timeout, Advance(s), e)
           else if !WouldBlock(e) then Run(Raised(SocketException(e)), Advance(s), e, [])
           else if w.outcome.Raised? then Failed(w)
           else AcceptSpec(fd, timeout, w.rest, w.errno)
  {
  }

  /** The script after the failures that `doAccept` answers by calling
      `accept` again at once. */
  function SkipAcceptInterrupted(s: seq<int>): (t: seq<int>)
    ensures |t| <= |s|
    ensures !(Reply(t) < 0 && AcceptInterrupted(-Reply(t)))
    decreases |s|
  {
    if Reply(s) < 0 && AcceptInterrupted(-Reply(s)) then SkipAcceptInterrupted(Advance(s)) else s
  }

  /** What the accept loop passes over is a prefix of failures it retries at once. */
  lemma {:induction false} SkipAcceptInterruptedSkipsOnly(s: seq<int>)
    ensures exists k :: 0 <= k <= |s| && SkipAcceptInterrupted(s) == s[k..]
                        && forall i :: 0 <= i < k ==> s[i] < 0 && AcceptInterrupted(-s[i])
    decreases |s|
  {
    if Reply(s) < 0 && AcceptInterrupted(-Reply(s)) {
      var s1 := Advance(s);
      SkipAcceptInterruptedSkipsOnly(s1);
      assert s1 == s[1..];
      var k :| 0 <= k <= |s1| && SkipAcceptInterrupted(s1) == s1[k..]
               && forall i :: 0 <= i < k ==> s1[i] < 0 && AcceptInterrupted(-s1[i]);
      assert SkipAcceptInterrupted(s) == s[k + 1..];
      forall i | 0 <= i < k + 1
        ensures s[i] < 0 && AcceptInterrupted(-s[i])
      {
        if i > 0 { assert s[i] == s1[i - 1]; }
      }
    } else {
      assert SkipAcceptInterrupted(s) == s[0..];
    }
  }

  /** How `doAccept` ends when the first reply of `accept` that is not retried
      at once is not "would block": a descriptor is returned only after
      no-delay and keep-alive are set on it, and is closed again when that
      fails; any other error raises a SocketException carrying it. */
  lemma {:induction false} AcceptDecides(fd: Fd, timeout: int, s: seq<int>, errno: int)
    ensures AcceptDecided(AcceptSpec(fd, timeout, s, errno), SkipAcceptInterrupted(s))
    decreases |s|
  {
    var rc := Reply(s);
    if rc < 0 && AcceptInterrupted(-rc) {
      assert SkipAcceptInterrupted(s) == SkipAcceptInterrupted(Advance(s));
      assert AcceptSpec(fd, timeout, s, errno) == AcceptSpec(fd, timeout, Advance(s), -rc);
      AcceptDecides(fd, timeout, Advance(s), -rc);
    } else if rc >= 0 {
      AcceptedRun(rc, Advance(s), errno);
    }
  }

  /** How an accept run `run` ends once `u` starts with a reply of `accept`
      that is not retried at once. */
  predicate AcceptDecided(run: Run<Fd>, u: seq<int>)
  {
    var rc := Reply(u);
    && (rc >= 0 ==>
          && |run.effects| > 0 && run.effects[0] == Opened(rc)
          && (run.outcome.Done? <==> run.effects == [Opened(rc), OptionSet(rc, TcpNoDelay, 1), OptionSet(rc, KeepAlive, 1)])
          && (run.outcome.Done? ==> run.outcome.value == rc)
          && (run.outcome.Raised? ==> run.outcome.error.SocketException?
                                      && run.effects[|run.effects| - 1] == Closed(rc)))
    && (rc < 0 && !WouldBlock(-rc) ==> run == Run(Raised(SocketException(-rc)), Advance(u), -rc, []))
  }

  /** How `doAccept` waits when the first reply of `accept` that is not
      retried at once is "would block": the first answer of `poll` that is
      not an interruption either expires (TimeoutException), fails
      (SocketException) or lets `accept` start over on the replies after the
      wait. */
  lemma {:induction false} AcceptWaits(fd: Fd, timeout: int, s: seq<int>, errno: int)
    requires var rc := Reply(SkipAcceptInterrupted(s)); rc < 0 && WouldBlock(-rc)
    ensures var run := AcceptSpec(fd, timeout, s, errno);
      var u := SkipAcceptInterrupted(s);
      var p := Reply(SkipInterrupted(Advance(u)));
      && (p == 0 ==> run.outcome == Raised(TimeoutException) && run.effects == [])
      && (p < 0 ==> run.outcome == Raised(SocketException(-p)) && run.effects == [])
      && (p > 0 ==>
            var w := PollSpec(TimeoutException, Advance(u), -Reply(u));
            run == AcceptSpec(fd, timeout, Advance(SkipInterrupted(Advance(u))), w.errno))
    decreases |s|
  {
    var rc := Reply(s);
    if rc < 0 && AcceptInterrupted(-rc) {
      AcceptWaits(fd, timeout, Advance(s), -rc);
    } else {
      PollOutcome(TimeoutException, Advance(s), -rc);
    }
  }

  /** An accepted descriptor is handed back only with both options set on it. */
  lemma AcceptedRun(c: Fd, s: seq<int>, errno: int)
    requires c >= 0
    ensures var run := After([Opened(c)], WithValue(TcpOptionsSpec(c, s, errno), c));
      && |run.effects| > 0 && run.effects[0] == Opened(c)
      && (run.outcome.Done? <==> run.effects == [Opened(c), OptionSet(c, TcpNoDelay, 1), OptionSet(c, KeepAlive, 1)])
      && (run.outcome.Done? ==> run.outcome.value == c)
      && (run.outcome.Raised? ==> run.outcome.error.SocketException?
                                  && run.effects[|run.effects| - 1] == Closed(c))
  {
    var o := TcpOptionsSpec(c, s, errno);
    TcpOptionsOutcome(c, s, errno);
    var run := After([Opened(c)], WithValue(o, c));
    assert run.effects == [Opened(c)] + o.effects;
    if o.outcome.Done? {
      assert [Opened(c)] + [OptionSet(c, TcpNoDelay, 1), OptionSet(c, KeepAlive, 1)]
          == [Opened(c), OptionSet(c, TcpNoDelay, 1), OptionSet(c, KeepAlive, 1)];
    } else {
      assert run.effects[|run.effects| - 1] == o.effects[|o.effects| - 1];
    }
  }

  /** What accepting ends with: an accepted descriptor returned only after
      no-delay and keep-alive are set on it; or a SocketException or a
      TimeoutException, with the accepted descriptor, if any, closed again and
      no other descriptor closed. */
  predicate AcceptEnding(run: Run<Fd>)
  {
    && (run.outcome.Done? ==>
          var c := run.outcome.value;
          c >= 0 && run.effects == [Opened(c), OptionSet(c, TcpNoDelay, 1), OptionSet(c, KeepAlive, 1)])
    && (run.outcome.Raised? ==>
          && (run.outcome.error.SocketException? || run.outcome.error == TimeoutException)
          && NoLeak(run.effects)
          && (run.effects == [] || run.effects[0].Opened?)
          && (forall i :: 0 <= i < |run.effects| && run.effects[i].Closed? ==> run.effects[i].fd == run.effects[0].fd))
  }

  lemma {:induction false} AcceptOutcome(fd: Fd, timeout: int, s: seq<int>, errno: int)
    ensures AcceptEnding(AcceptSpec(fd, timeout, s, errno))
    decreases |s|
  {
    var rc := Reply(s);
    var s1 := Advance(s);
    if rc >= 0 {
      AcceptedEnding(rc, s1, errno);
    } else {
      AcceptFailure(fd, timeout, s, errno);
      if AcceptInterrupted(-rc) {
        AcceptOutcome(fd, timeout, s1, -rc);
      } else if WouldBlock(-rc) {
        var w := PollSpec(TimeoutException, s1, -rc);
        PollOutcome(TimeoutException, s1, -rc);
        if w.outcome.Done? {
          AcceptOutcome(fd, timeout, w.rest, w.errno);
        } else {
          QuietFailureEnding(Failed(w));
        }
      } else {
        QuietFailureEnding(Run(Raised(SocketException(-rc)), s1, -rc, []));
      }
    }
  }

  /** A failure before any descriptor was accepted. */
  lemma QuietFailureEnding(run: Run<Fd>)
    requires run.outcome.Raised? && run.effects == []
    requires run.outcome.error.SocketException? || run.outcome.error == TimeoutException
    ensures AcceptEnding(run)
  {
  }

  /** An accepted descriptor `c`, then its TCP options. */
  lemma AcceptedEnding(c: Fd, s: seq<int>, errno: int)
    requires c >= 0
    ensures AcceptEnding(After([Opened(c)], WithValue(TcpOptionsSpec(c, s, errno), c)))
  {
    CreateSocketOutcome(false, [c] + s, errno);
    assert Reply([c] + s) == c && Advance([c] + s) == s;
    TcpOptionsOutcome(c, s, errno);
  }

  // ---- describing a descriptor ----

  /** `fdToString`: "<closed>" for INVALID_SOCKET, else both addresses. */
  function FdToStringSpec(env: Env, fd: Fd, s: seq<int>, errno: int): Run<string>
  {
    if fd == INVALID_SOCKET then Run(Done("<closed>"), s, errno, [])
    else
      var l := LocalAddressSpec(env, fd, s, errno);
      if l.outcome.Raised? then Failed(l)
      else
        var r := RemoteAddressSpec(env, fd, l.rest, l.errno);
        if r.outcome.Raised? then Failed(r)
        else Run(Done(AddressesToString(env.hostOf, l.outcome.value, env.peerOf(fd), r.outcome.value)),
                 r.rest, r.errno, [])
  }

  /** A valid descriptor is described by its local address and, when it has a
      peer, the peer's; the description ends in '>' exactly when there is no
      peer, which a closed descriptor's "<closed>" shares. */
  lemma FdToStringOutcome(env: Env, fd: Fd, s: seq<int>, errno: int)
    ensures var run := FdToStringSpec(env, fd, s, errno);
      && (fd == INVALID_SOCKET ==> run == Run(Done("<closed>"), s, errno, []))
      && (fd != INVALID_SOCKET && run.outcome.Done? ==>
            var str := run.outcome.value;
            && run.effects == []
            && |str| > 16 && str[..16] == "local address = "
            && (str[|str| - 1] == '>' <==> Reply(Advance(s)) < 0))
      && (run.outcome.Raised? ==> run.effects == [Closed(fd)])
  {
  }
}
